/** Stateless continuation cursors: bound to one operation, generation and request. */
module Cursor {
  import opened Wrappers
  import opened Bytes
  import Hex

  type Text = Blob

  const CURSOR_VERSION: int := 1
  const CURSOR_TTL: int := 900

  type u64 = n: int | 0 <= n < 0x1_0000_0000_0000_0000

  function SaturatingAdd(a: u64, b: u64): u64 {
    if a + b < U64_LIMIT then a + b else U64_LIMIT - 1
  }

  datatype Payload = Payload(
    version: byte,
    operation: Text,
    generationId: Text,
    requestDigest: Text,
    offset: u64,
    expiresAt: u64,
    checksum: seq<byte>)

  /** The collaborators the cursor code calls: SHA-256 and a JSON writer and reader. */
  datatype Codec = Codec(
    sha256: seq<byte> -> seq<byte>,
    toJson: Payload -> seq<byte>,
    fromJson: seq<byte> -> Option<Payload>)
  {
    /** Reading JSON undoes writing it. */
    ghost predicate Faithful() {
      forall p :: fromJson(toJson(p)) == Some(p)
    }

    /** No two preimages in play share a digest. */
    ghost predicate CollisionFree() {
      forall a, b :: sha256(a) == sha256(b) ==> a == b
    }
  }

  datatype CursorError =
    | Malformed
    | UnsupportedVersion
    | ChecksumMismatch
    | ForeignRequest
    | GenerationChanged(cursorGeneration: Text, currentGeneration: Text)
    | Expired
    | OffsetBeyondPopulation

  // ---- checksum ----

  const CURSOR_DOMAIN: seq<byte> := Ascii("h00-code-intel-cursor-v1") + [0]

  function ChecksumPreimage(p: Payload): seq<byte> {
    CURSOR_DOMAIN + ([p.version] + (FieldLE(p.operation) + (FieldLE(p.generationId) + (FieldLE(p.requestDigest)
      + (LittleEndian(p.offset, 8) + LittleEndian(p.expiresAt, 8))))))
  }

  function Checksum(c: Codec, p: Payload): seq<byte> {
    Hex.Encode(c.sha256(ChecksumPreimage(p)))
  }

  /** Payloads that differ anywhere but in the checksum have different preimages. */
  lemma ChecksumPreimageInjective(p: Payload, q: Payload)
    requires ChecksumPreimage(p) == ChecksumPreimage(q)
    ensures p.(checksum := []) == q.(checksum := [])
  {
    hide LittleEndian, FieldLE;
    var p3 := LittleEndian(p.offset, 8) + LittleEndian(p.expiresAt, 8);
    var q3 := LittleEndian(q.offset, 8) + LittleEndian(q.expiresAt, 8);
    var p2, q2 := FieldLE(p.requestDigest) + p3, FieldLE(q.requestDigest) + q3;
    var p1, q1 := FieldLE(p.generationId) + p2, FieldLE(q.generationId) + q2;
    var p0, q0 := FieldLE(p.operation) + p1, FieldLE(q.operation) + q1;
    Split(CURSOR_DOMAIN, [p.version] + p0, CURSOR_DOMAIN, [q.version] + q0);
    Split([p.version], p0, [q.version], q0);
    FieldLECancel(p.operation, p1, q.operation, q1);
    FieldLECancel(p.generationId, p2, q.generationId, q2);
    FieldLECancel(p.requestDigest, p3, q.requestDigest, q3);
    Split(LittleEndian(p.offset, 8), LittleEndian(p.expiresAt, 8), LittleEndian(q.offset, 8),
      LittleEndian(q.expiresAt, 8));
    WordsEqual(p.offset, q.offset);
    WordsEqual(p.expiresAt, q.expiresAt);
  }

  lemma WordsEqual(a: u64, b: u64)
    requires LittleEndian(a, 8) == LittleEndian(b, 8)
    ensures a == b
  {
    hide LittleEndian, FromLittleEndian, Pow256;
    WordWidths();
    LittleEndianRoundTrip(a, 8);
    LittleEndianRoundTrip(b, 8);
  }

  lemma {:induction false} HexInjective(a: seq<byte>, b: seq<byte>)
    requires Hex.Encode(a) == Hex.Encode(b)
    ensures a == b
  {
    Hex.RoundTrip(a);
    Hex.RoundTrip(b);
  }

  // ---- encoding and decoding ----

  function EncodeCursor(c: Codec, p: Payload): seq<byte> {
    Hex.Encode(c.toJson(p.(checksum := Checksum(c, p))))
  }

  function DecodeCursor(
    c: Codec, encoded: seq<byte>, operation: Text, generationId: Text, requestDigest: Text, now: u64)
    : Result<Payload, CursorError>
  {
    var bytes := Hex.Decode(encoded);
    if bytes.None? then Err(Malformed)
    else
      var parsed := c.fromJson(bytes.value);
      if parsed.None? then Err(Malformed)
      else
        var p := parsed.value;
        if p.version as int != CURSOR_VERSION then Err(UnsupportedVersion)
        else if p.checksum != Checksum(c, p) then Err(ChecksumMismatch)
        else if p.operation != operation || p.requestDigest != requestDigest then Err(ForeignRequest)
        else if p.generationId != generationId then Err(GenerationChanged(p.generationId, generationId))
        else if p.expiresAt < now then Err(Expired)
        else Ok(p)
  }

  /** A cursor this code issued is never malformed. It comes back unchanged exactly for
      its own operation, request and generation until it expires; otherwise the request
      mismatch outranks the generation change, which outranks expiry. */
  lemma IssuedCursorDecodes(c: Codec, p: Payload, operation: Text, generationId: Text, requestDigest: Text, now: u64)
    requires c.Faithful()
    requires p.version as int == CURSOR_VERSION
    ensures var r := DecodeCursor(c, EncodeCursor(c, p), operation, generationId, requestDigest, now);
            var own := p.operation == operation && p.requestDigest == requestDigest;
            && (r.Ok? <==> own && p.generationId == generationId && now <= p.expiresAt)
            && (r.Ok? ==> r.value == p.(checksum := Checksum(c, p)))
            && (r == Err(ForeignRequest) <==> !own)
            && (r == Err(GenerationChanged(p.generationId, generationId)) <==> own && p.generationId != generationId)
            && (r == Err(Expired) <==> own && p.generationId == generationId && p.expiresAt < now)
  {
    var signed := p.(checksum := Checksum(c, p));
    Hex.RoundTrip(c.toJson(signed));
    assert ChecksumPreimage(signed) == ChecksumPreimage(p);
  }

  /** Whatever text decodes, its payload carries its own checksum, so no two accepted
      payloads share one. */
  lemma AcceptedChecksumIdentifies(
    c: Codec, x: seq<byte>, y: seq<byte>, operation: Text, generationId: Text, requestDigest: Text, now: u64)
    requires c.CollisionFree()
    requires DecodeCursor(c, x, operation, generationId, requestDigest, now).Ok?
    requires DecodeCursor(c, y, operation, generationId, requestDigest, now).Ok?
    ensures var p := DecodeCursor(c, x, operation, generationId, requestDigest, now).value;
            var q := DecodeCursor(c, y, operation, generationId, requestDigest, now).value;
            p.checksum == q.checksum <==> p == q
  {
    var p := DecodeCursor(c, x, operation, generationId, requestDigest, now).value;
    var q := DecodeCursor(c, y, operation, generationId, requestDigest, now).value;
    if p.checksum == q.checksum {
      hide ChecksumPreimage;
      HexInjective(c.sha256(ChecksumPreimage(p)), c.sha256(ChecksumPreimage(q)));
      ChecksumPreimageInjective(p, q);
      assert p == p.(checksum := []).(checksum := p.checksum);
      assert q == q.(checksum := []).(checksum := q.checksum);
    }
  }

  /** What a text carries, if it is hexadecimal for something that reads as a payload. */
  ghost predicate Carries(c: Codec, encoded: seq<byte>, p: Payload) {
    Hex.Decode(encoded).Some? && c.fromJson(Hex.Decode(encoded).value) == Some(p)
  }

  /** Every way to refuse a text, the first that applies; what none applies to is accepted. */
  lemma DecodedIff(
    c: Codec, encoded: seq<byte>, operation: Text, generationId: Text, requestDigest: Text, now: u64)
    ensures var r := DecodeCursor(c, encoded, operation, generationId, requestDigest, now);
            && (r == Err(Malformed) <==> forall p :: !Carries(c, encoded, p))
            && forall p | Carries(c, encoded, p) ::
                 var signed := p.checksum == Hex.Encode(c.sha256(ChecksumPreimage(p)));
                 var own := p.operation == operation && p.requestDigest == requestDigest;
                 && (r == Err(UnsupportedVersion) <==> p.version != 1)
                 && (r == Err(ChecksumMismatch) <==> p.version == 1 && !signed)
                 && (r == Err(ForeignRequest) <==> p.version == 1 && signed && !own)
                 && (r == Err(GenerationChanged(p.generationId, generationId)) <==>
                      p.version == 1 && signed && own && p.generationId != generationId)
                 && (r == Err(Expired) <==>
                      p.version == 1 && signed && own && p.generationId == generationId && p.expiresAt < now)
                 && (r == Ok(p) <==>
                      p.version == 1 && signed && own && p.generationId == generationId && now <= p.expiresAt)
  {
    hide ChecksumPreimage;
    var bytes := Hex.Decode(encoded);
    if bytes.Some? && c.fromJson(bytes.value).Some? { assert Carries(c, encoded, c.fromJson(bytes.value).value); }
  }
}
