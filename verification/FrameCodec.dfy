/** The provider frame: eight bytes of magic, three big-endian lengths, metadata and
    attachments, written whole and read back from a stream that arrives in any pieces. */
module FrameCodec {
  import opened Wrappers
  import opened Bytes

  /** Metadata stays the bytes of its JSON text here. */
  datatype Frame = Frame(metadata: seq<byte>, attachments: seq<seq<byte>>)

  datatype FrameError = EndOfStream | BadMagic | TooLarge | BadMetadata | BadAttachments

  const FRAME_MAGIC: seq<byte> := Ascii("H00SP15") + [0]
  const HEADER := 20
  const MAX_FRAME_BYTES := 128 * 1024 * 1024
  const U32_LIMIT := 0x1_0000_0000

  // ---- writing ----

  function AttachmentBytes(attachments: seq<seq<byte>>): seq<byte> {
    if attachments == [] then []
    else BigEndian(|attachments[0]|, 4) + attachments[0] + AttachmentBytes(attachments[1..])
  }

  function Payload(f: Frame): seq<byte> {
    f.metadata + AttachmentBytes(f.attachments)
  }

  /** Every length fits its four bytes. */
  predicate Packable(f: Frame) {
    && |Payload(f)| < U32_LIMIT && |f.metadata| < U32_LIMIT && |f.attachments| < U32_LIMIT
    && forall a | a in f.attachments :: |a| < U32_LIMIT
  }

  function Header(f: Frame): seq<byte> {
    FRAME_MAGIC + BigEndian(|Payload(f)|, 4) + BigEndian(|f.metadata|, 4) + BigEndian(|f.attachments|, 4)
  }

  function Encode(f: Frame): Option<seq<byte>> {
    if Packable(f) then Some(Header(f) + Payload(f)) else None
  }

  // ---- reading ----

  /** A slice that stops at the end of the bytes, as Python's does. */
  function Slice(s: seq<byte>, from: nat, to: nat): seq<byte>
    requires from <= to
  {
    if from >= |s| then [] else s[from..if to <= |s| then to else |s|]
  }

  /** `count` attachments from a cursor on, and where they end. */
  function TakeAttachments(payload: seq<byte>, cursor: nat, count: nat): Option<(seq<seq<byte>>, nat)>
    decreases count
  {
    if count == 0 then Some(([], cursor))
    else if |Slice(payload, cursor, cursor + 4)| != 4 then None
    else
      var length := FromBigEndian(Slice(payload, cursor, cursor + 4));
      match TakeAttachments(payload, cursor + 4 + length, count - 1)
      case None => None
      case Some((rest, end)) => Some(([Slice(payload, cursor + 4, cursor + 4 + length)] + rest, end))
  }

  function ParsePayload(
    payload: seq<byte>, metadataLength: nat, count: nat, isJson: seq<byte> -> bool): Result<Frame, FrameError> {
    var metadata := Slice(payload, 0, metadataLength);
    if !isJson(metadata) then Err(BadMetadata)
    else
      match TakeAttachments(payload, metadataLength, count)
      case None => Err(BadAttachments)
      case Some((attachments, end)) => if end != |payload| then Err(BadAttachments)
        else Ok(Frame(metadata, attachments))
  }

  /** The first frame of a stream, and what is left of it. */
  function Parse(s: seq<byte>, isJson: seq<byte> -> bool): Result<(Frame, seq<byte>), FrameError> {
    if |s| < HEADER then Err(EndOfStream)
    else if s[..8] != FRAME_MAGIC then Err(BadMagic)
    else
      var payloadLength := FromBigEndian(s[8..12]);
      if payloadLength + HEADER > MAX_FRAME_BYTES then Err(TooLarge)
      else if |s| < HEADER + payloadLength then Err(EndOfStream)
      else
        match ParsePayload(s[HEADER..HEADER + payloadLength], FromBigEndian(s[12..16]), FromBigEndian(s[16..20]),
          isJson)
        case Err(e) => Err(e)
        case Ok(f) => Ok((f, s[HEADER + payloadLength..]))
  }

  // ---- attachments there and back ----

  lemma FourBytes(n: nat)
    requires n < U32_LIMIT
    ensures FromBigEndian(BigEndian(n, 4)) == n
  {
    WordWidths();
    BigEndianRoundTrip(n, 4);
  }

  lemma FourBytesOnto(s: seq<byte>)
    requires |s| == 4
    ensures FromBigEndian(s) < U32_LIMIT && BigEndian(FromBigEndian(s), 4) == s
  {
    WordWidths();
    BigEndianOnto(s);
  }

  lemma Middle(a: seq<byte>, b: seq<byte>, c: seq<byte>)
    ensures (a + b + c)[|a|..|a| + |b|] == b
    ensures (a + b + c)[|a| + |b|..] == c
    ensures (a + b + c)[..|a|] == a
  {
  }

  lemma Regroup(a: seq<byte>, b: seq<byte>, c: seq<byte>, d: seq<byte>)
    ensures a + (b + c + d) == a + b + c + d
    ensures a + b + (c + d) == a + b + c + d
  {
  }

  lemma TakeOne(payload: seq<byte>, cursor: nat, count: nat, a: seq<byte>, rest: seq<seq<byte>>, end: nat)
    requires count > 0 && |a| < U32_LIMIT
    requires Slice(payload, cursor, cursor + 4) == BigEndian(|a|, 4)
      && Slice(payload, cursor + 4, cursor + 4 + |a|) == a
    requires TakeAttachments(payload, cursor + 4 + |a|, count - 1) == Some((rest, end))
    ensures TakeAttachments(payload, cursor, count) == Some(([a] + rest, end))
  {
    FourBytes(|a|);
    hide BigEndian, FromBigEndian, Slice;
  }

  lemma SliceMiddle(a: seq<byte>, b: seq<byte>, c: seq<byte>)
    ensures Slice(a + b + c, |a|, |a| + |b|) == b
  {
    if b != [] { Middle(a, b, c); }
  }

  /** Reading `count` attachments yields exactly those whose bytes stand there. */
  lemma {:induction false} AttachmentsThere(before: seq<byte>, attachments: seq<seq<byte>>)
    requires forall a | a in attachments :: |a| < U32_LIMIT
    ensures var payload := before + AttachmentBytes(attachments);
            TakeAttachments(payload, |before|, |attachments|) == Some((attachments, |payload|))
    decreases attachments
  {
    if attachments == [] {
      hide Slice;
      assert before + AttachmentBytes(attachments) == before;
    } else {
      hide Slice, BigEndian, TakeAttachments, AttachmentBytes;
      var a, others := attachments[0], attachments[1..];
      assert a in attachments;
      AttachmentsThere(before + BigEndian(|a|, 4) + a, others);
      FirstAttachment(a, others);
      OneMoreThere(before, a, AttachmentBytes(others), others);
      assert attachments == [a] + others;
    }
  }

  lemma OneMoreThere(before: seq<byte>, a: seq<byte>, rest: seq<byte>, others: seq<seq<byte>>)
    requires |a| < U32_LIMIT
    requires var payload := before + BigEndian(|a|, 4) + a + rest;
             TakeAttachments(payload, |before + BigEndian(|a|, 4) + a|, |others|) == Some((others, |payload|))
    ensures var payload := before + (BigEndian(|a|, 4) + a + rest);
            TakeAttachments(payload, |before|, |others| + 1) == Some(([a] + others, |payload|))
  {
    hide Slice, TakeAttachments, BigEndian;
    var size := BigEndian(|a|, 4);
    Regroup(before, size, a, rest);
    Regroup(before, size, a + rest, []);
    SliceMiddle(before, size, a + rest);
    SliceMiddle(before + size, a, rest);
    Appended(before + size, a, rest);
    var payload := before + size + a + rest;
    TakeOne(payload, |before|, |others| + 1, a, others, |payload|);
  }

  lemma TwoSlices(s: seq<byte>, i: nat, j: nat, k: nat)
    requires i <= j <= k <= |s|
    ensures s[i..k] == s[i..j] + s[j..k]
  {
  }

  /** Whatever is read up to the end of the payload is what stands there. */
  lemma {:induction false} AttachmentsBack(payload: seq<byte>, cursor: nat, count: nat)
    requires var taken := TakeAttachments(payload, cursor, count); taken.Some? && taken.value.1 <= |payload|
    ensures var (attachments, end) := TakeAttachments(payload, cursor, count).value;
            |attachments| == count && Stand(payload, cursor, attachments, end)
    decreases count
  {
    hide Stand, FromBigEndian, Slice;
    if count == 0 {
      NoneStand(payload, cursor);
    } else {
      var next, rest, end := TakenApart(payload, cursor, count);
      hide TakeAttachments;
      AttachmentsBack(payload, next, count - 1);
      OneMoreStands(payload, cursor, next, rest, end);
    }
  }

  /** From `cursor` to `end` the payload is these attachments written out. */
  ghost predicate Stand(payload: seq<byte>, cursor: nat, attachments: seq<seq<byte>>, end: nat) {
    && cursor <= end <= |payload|
    && (forall a | a in attachments :: |a| < U32_LIMIT)
    && payload[cursor..end] == AttachmentBytes(attachments)
  }

  lemma NoneStand(payload: seq<byte>, cursor: nat)
    requires cursor <= |payload|
    ensures Stand(payload, cursor, [], cursor)
  {
  }

  lemma OneMoreStands(payload: seq<byte>, cursor: nat, next: nat, rest: seq<seq<byte>>, end: nat)
    requires |Slice(payload, cursor, cursor + 4)| == 4
      && next == cursor + 4 + FromBigEndian(Slice(payload, cursor, cursor + 4))
    requires Stand(payload, next, rest, end)
    ensures Stand(payload, cursor, [Slice(payload, cursor + 4, next)] + rest, end)
  {
    hide AttachmentBytes, FromBigEndian, BigEndian;
    SliceWithin(payload, cursor, cursor + 4);
    SliceWithin(payload, cursor + 4, next);
    hide Slice;
    FourBytesOnto(payload[cursor..cursor + 4]);
    AttachmentStands(payload, cursor, next, end, rest);
  }

  /** The first attachment taken and the rest. */
  lemma TakenApart(payload: seq<byte>, cursor: nat, count: nat) returns (next: nat, rest: seq<seq<byte>>, end: nat)
    requires count > 0 && TakeAttachments(payload, cursor, count).Some?
    ensures |Slice(payload, cursor, cursor + 4)| == 4
    ensures next == cursor + 4 + FromBigEndian(Slice(payload, cursor, cursor + 4))
    ensures TakeAttachments(payload, next, count - 1) == Some((rest, end))
    ensures TakeAttachments(payload, cursor, count) == Some(([Slice(payload, cursor + 4, next)] + rest, end))
  {
    hide Slice, FromBigEndian;
    next := cursor + 4 + FromBigEndian(Slice(payload, cursor, cursor + 4));
    rest, end := TakeAttachments(payload, next, count - 1).value.0, TakeAttachments(payload, next, count - 1).value.1;
  }

  lemma SliceWithin(s: seq<byte>, from: nat, to: nat)
    requires from <= to <= |s|
    ensures Slice(s, from, to) == s[from..to]
  {
  }

  lemma AttachmentStands(payload: seq<byte>, cursor: nat, next: nat, end: nat, rest: seq<seq<byte>>)
    requires cursor + 4 <= next <= end <= |payload|
    requires payload[cursor..cursor + 4] == BigEndian(next - (cursor + 4), 4)
    requires payload[next..end] == AttachmentBytes(rest)
    ensures payload[cursor..end] == AttachmentBytes([payload[cursor + 4..next]] + rest)
  {
    hide BigEndian;
    FirstAttachment(payload[cursor + 4..next], rest);
    hide AttachmentBytes;
    TwoSlices(payload, cursor, cursor + 4, end);
    TwoSlices(payload, cursor + 4, next, end);
    Regroup([], payload[cursor..cursor + 4], payload[cursor + 4..next], payload[next..end]);
  }

  lemma FirstAttachment(a: seq<byte>, rest: seq<seq<byte>>)
    ensures AttachmentBytes([a] + rest) == BigEndian(|a|, 4) + a + AttachmentBytes(rest)
  {
    assert ([a] + rest)[1..] == rest;
  }

  // ---- whole frames there and back ----

  predicate Bounded(f: Frame) {
    |Payload(f)| + HEADER <= MAX_FRAME_BYTES
  }

  /** A stream cut at the places a header says. */
  lemma HeaderParts(magic: seq<byte>, x: seq<byte>, y: seq<byte>, z: seq<byte>, rest: seq<byte>)
    requires |magic| == 8 && |x| == |y| == |z| == 4
    ensures var s := magic + x + y + z + rest;
            s[..8] == magic && s[8..12] == x && s[12..16] == y && s[16..20] == z && s[HEADER..] == rest
  {
  }

  lemma HeaderWhole(s: seq<byte>)
    requires |s| >= HEADER
    ensures s == s[..8] + s[8..12] + s[12..16] + s[16..20] + s[HEADER..]
  {
  }

  /** A stream that starts with a well-formed header and a whole payload. */
  ghost predicate Framed(s: seq<byte>, payload: seq<byte>, metadataLength: nat, count: nat, rest: seq<byte>) {
    && |s| >= HEADER && s[..8] == FRAME_MAGIC
    && FromBigEndian(s[8..12]) == |payload| && FromBigEndian(s[12..16]) == metadataLength
       && FromBigEndian(s[16..20]) == count
    && s[HEADER..] == payload + rest
    && |payload| + HEADER <= MAX_FRAME_BYTES
  }

  lemma ParseFramed(
    s: seq<byte>, payload: seq<byte>, metadataLength: nat, count: nat, rest: seq<byte>, isJson: seq<byte> -> bool)
    requires Framed(s, payload, metadataLength, count, rest)
    ensures var f := ParsePayload(payload, metadataLength, count, isJson);
            Parse(s, isJson) == if f.Ok? then Ok((f.value, rest)) else Err(f.error)
  {
    hide FromBigEndian, ParsePayload;
    assert s[HEADER..HEADER + |payload|] == s[HEADER..][..|payload|] == payload;
    assert s[HEADER + |payload|..] == s[HEADER..][|payload|..] == rest;
  }

  lemma ParsedFramed(
    s: seq<byte>, isJson: seq<byte> -> bool) returns (payload: seq<byte>, metadataLength: nat, count: nat)
    requires Parse(s, isJson).Ok?
    ensures Framed(s, payload, metadataLength, count, Parse(s, isJson).value.1)
    ensures ParsePayload(payload, metadataLength, count, isJson) == Ok(Parse(s, isJson).value.0)
  {
    hide FromBigEndian, ParsePayload;
    payload, metadataLength, count := s[HEADER..HEADER + FromBigEndian(s[8..12])], FromBigEndian(s[12..16]),
      FromBigEndian(s[16..20]);
    assert s[HEADER..] == payload + s[HEADER + |payload|..];
  }

  lemma EncodedFramed(f: Frame, rest: seq<byte>)
    requires Packable(f) && Bounded(f)
    ensures Framed(Encode(f).value + rest, Payload(f), |f.metadata|, |f.attachments|, rest)
  {
    var payload := Payload(f);
    FourBytes(|payload|);
    FourBytes(|f.metadata|);
    FourBytes(|f.attachments|);
    hide BigEndian, FromBigEndian, Payload;
    var x, y, z := BigEndian(|payload|, 4), BigEndian(|f.metadata|, 4), BigEndian(|f.attachments|, 4);
    assert |FRAME_MAGIC| == 8;
    hide FRAME_MAGIC;
    Appended(FRAME_MAGIC + x + y + z, payload, rest);
    HeaderParts(FRAME_MAGIC, x, y, z, payload + rest);
  }

  lemma Appended(a: seq<byte>, b: seq<byte>, c: seq<byte>)
    ensures (a + b) + c == a + (b + c)
  {
  }

  lemma FramedEncoded(s: seq<byte>, f: Frame, rest: seq<byte>)
    requires Framed(s, Payload(f), |f.metadata|, |f.attachments|, rest)
    requires forall a | a in f.attachments :: |a| < U32_LIMIT
    ensures Packable(f) && s == Encode(f).value + rest
  {
    FourBytesOnto(s[8..12]);
    FourBytesOnto(s[12..16]);
    FourBytesOnto(s[16..20]);
    hide BigEndian, FromBigEndian, Payload;
    HeaderWhole(s);
    var h := Header(f);
    assert h == s[..8] + s[8..12] + s[12..16] + s[16..20];
    hide Framed, Header, FRAME_MAGIC;
    Joined(h, Payload(f), rest);
  }

  lemma Joined(a: seq<byte>, b: seq<byte>, c: seq<byte>)
    ensures a + (b + c) == (a + b) + c
  {
  }

  /** Reading undoes writing, whatever follows in the stream. */
  lemma ReadUndoesWrite(f: Frame, rest: seq<byte>, isJson: seq<byte> -> bool)
    requires Packable(f) && Bounded(f) && isJson(f.metadata)
    ensures Parse(Encode(f).value + rest, isJson) == Ok((f, rest))
  {
    var payload := Payload(f);
    EncodedFramed(f, rest);
    AttachmentsThere(f.metadata, f.attachments);
    assert Slice(payload, 0, |f.metadata|) == f.metadata;
    hide Framed, Parse, Encode, TakeAttachments, AttachmentBytes;
    ParseFramed(Encode(f).value + rest, payload, |f.metadata|, |f.attachments|, rest, isJson);
  }

  /** Every accepted frame writes back to exactly the bytes it was read from. */
  lemma WriteUndoesRead(s: seq<byte>, isJson: seq<byte> -> bool)
    requires Parse(s, isJson).Ok?
    ensures var (f, rest) := Parse(s, isJson).value;
            Encode(f).Some? && Bounded(f) && isJson(f.metadata) && s == Encode(f).value + rest
  {
    var (f, rest) := Parse(s, isJson).value;
    var payload, metadataLength, count := ParsedFramed(s, isJson);
    hide Parse, ParsePayload, Payload, Encode;
    PayloadBack(payload, metadataLength, count, isJson);
    FramedEncoded(s, f, rest);
  }

  lemma PayloadBack(payload: seq<byte>, metadataLength: nat, count: nat, isJson: seq<byte> -> bool)
    requires ParsePayload(payload, metadataLength, count, isJson).Ok?
    ensures var f := ParsePayload(payload, metadataLength, count, isJson).value;
            && Payload(f) == payload && |f.metadata| == metadataLength && |f.attachments| == count && isJson(f.metadata)
            && (forall a | a in f.attachments :: |a| < U32_LIMIT)
  {
    AttachmentsBack(payload, metadataLength, count);
    hide TakeAttachments, AttachmentBytes;
    assert payload == payload[..metadataLength] + payload[metadataLength..];
  }

  /** The frames read from a stream until it ends. */
  function ParseAll(s: seq<byte>, isJson: seq<byte> -> bool): Result<seq<Frame>, FrameError>
    decreases |s|
  {
    if s == [] then Ok([])
    else
      match Parse(s, isJson)
      case Err(e) => Err(e)
      case Ok((f, rest)) =>
        if |rest| >= |s| then Err(EndOfStream)
        else
          match ParseAll(rest, isJson)
          case Err(e) => Err(e)
          case Ok(more) => Ok([f] + more)
  }

  function EncodeAll(frames: seq<Frame>): seq<byte>
    requires forall f | f in frames :: Packable(f)
  {
    if frames == [] then [] else Encode(frames[0]).value + EncodeAll(frames[1..])
  }

  /** Frames written one after another are read back as the same sequence. */
  lemma {:induction false} FramesReadBack(frames: seq<Frame>, isJson: seq<byte> -> bool)
    requires forall f | f in frames :: Packable(f) && Bounded(f) && isJson(f.metadata)
    ensures ParseAll(EncodeAll(frames), isJson) == Ok(frames)
  {
    if frames != [] {
      var f := frames[0];
      assert f in frames;
      ReadUndoesWrite(f, EncodeAll(frames[1..]), isJson);
      FramesReadBack(frames[1..], isJson);
      assert |Encode(f).value| >= HEADER;
      assert frames == [f] + frames[1..];
    }
  }

  // ---- the stream ----

  /** A pipe hands out what it has in pieces of its own choosing. */
  class Descriptor {
    var unread: seq<byte>

    constructor (stream: seq<byte>)
      ensures unread == stream
    {
      unread := stream;
    }

    /** Some of the next bytes, at least one unless the stream has ended. */
    method Read(limit: nat) returns (chunk: seq<byte>)
      requires limit > 0
      modifies this
      ensures |chunk| <= limit && (chunk == [] <==> old(unread) == [])
      ensures old(unread) == chunk + unread
    {
      if unread == [] { return []; }
      var size :| 1 <= size <= limit && size <= |unread|;
      chunk := unread[..size];
      unread := unread[size..];
    }

    /** Exactly that many bytes, however they arrive; None when the stream ends first. */
    method ReadExact(length: nat) returns (output: Option<seq<byte>>)
      modifies this
      ensures output.Some? <==> length <= |old(unread)|
      ensures output.Some? ==> output.value == old(unread)[..length] && unread == old(unread)[length..]
      ensures output.None? ==> unread == []
    {
      var read: seq<byte> := [];
      while |read| < length
        invariant |read| <= length
        invariant old(unread) == read + unread
        decreases length - |read|
      {
        var chunk := Read(length - |read|);
        if chunk == [] { return None; }
        read := read + chunk;
      }
      output := Some(read);
    }

    /** The next frame, as `Parse` has it, wherever the stream happens to be cut. */
    method ReadFrame(isJson: seq<byte> -> bool) returns (r: Result<Frame, FrameError>)
      modifies this
      ensures r.Ok? <==> Parse(old(unread), isJson).Ok?
      ensures r.Ok? ==> (r.value, unread) == Parse(old(unread), isJson).value
      ensures r.Err? ==> r.error == Parse(old(unread), isJson).error
    {
      hide FromBigEndian, TakeAttachments;
      var header := ReadExact(HEADER);
      if header.None? { return Err(EndOfStream); }
      var h := header.value;
      assert h[..8] == old(unread)[..8] && h[8..12] == old(unread)[8..12];
      assert h[12..16] == old(unread)[12..16] && h[16..20] == old(unread)[16..20];
      if h[..8] != FRAME_MAGIC { return Err(BadMagic); }
      var payloadLength, metadataLength, count := FromBigEndian(h[8..12]), FromBigEndian(h[12..16]),
        FromBigEndian(h[16..20]);
      if payloadLength + HEADER > MAX_FRAME_BYTES { return Err(TooLarge); }
      var body := ReadExact(payloadLength);
      if body.None? { return Err(EndOfStream); }
      var payload := body.value;
      assert payload == old(unread)[HEADER..HEADER + payloadLength];
      assert unread == old(unread)[HEADER + payloadLength..];
      var metadata := Slice(payload, 0, metadataLength);
      if !isJson(metadata) { return Err(BadMetadata); }
      var attachments := ReadAttachments(payload, metadataLength, count);
      if attachments.None? { return Err(BadAttachments); }
      r := Ok(Frame(metadata, attachments.value));
    }
  }

  /** Attachments taken one after another from where the walk stands. */
  function Resumed(taken: seq<seq<byte>>, more: Option<(seq<seq<byte>>, nat)>): Option<(seq<seq<byte>>, nat)> {
    match more
    case None => None
    case Some((rest, end)) => Some((taken + rest, end))
  }

  lemma ResumedNext(taken: seq<seq<byte>>, a: seq<byte>, more: Option<(seq<seq<byte>>, nat)>)
    ensures Resumed(taken, if more.None? then None else Some(([a] + more.value.0, more.value.1)))
      == Resumed(taken + [a], more)
  {
    if more.Some? { assert taken + ([a] + more.value.0) == (taken + [a]) + more.value.0; }
  }

  /** The cursor walk over the attachments; None unless it ends where the payload does. */
  method ReadAttachments(payload: seq<byte>, start: nat, count: nat) returns (attachments: Option<seq<seq<byte>>>)
    ensures var taken := TakeAttachments(payload, start, count);
            attachments == if taken.Some? && taken.value.1 == |payload| then Some(taken.value.0) else None
  {
    hide FromBigEndian, Resumed;
    var cursor := start;
    var taken: seq<seq<byte>> := [];
    var i := 0;
    ResumedNone(TakeAttachments(payload, start, count));
    while i < count
      invariant 0 <= i <= count
      invariant TakeAttachments(payload, start, count) == Resumed(taken, TakeAttachments(payload, cursor, count - i))
    {
      var size := Slice(payload, cursor, cursor + 4);
      if |size| != 4 {
        ResumedFailed(taken);
        return None;
      }
      var length := FromBigEndian(size);
      var attachment := Slice(payload, cursor + 4, cursor + 4 + length);
      ResumedNext(taken, attachment, TakeAttachments(payload, cursor + 4 + length, count - i - 1));
      taken := taken + [attachment];
      cursor := cursor + 4 + length;
      i := i + 1;
    }
    ResumedDone(taken, cursor);
    attachments := if cursor == |payload| then Some(taken) else None;
  }

  lemma ResumedNone(more: Option<(seq<seq<byte>>, nat)>)
    ensures Resumed([], more) == more
  {
    if more.Some? { assert [] + more.value.0 == more.value.0; }
  }

  lemma ResumedFailed(taken: seq<seq<byte>>)
    ensures Resumed(taken, None).None?
  {
  }

  lemma ResumedDone(taken: seq<seq<byte>>, end: nat)
    ensures Resumed(taken, Some(([], end))) == Some((taken, end))
  {
    assert taken + [] == taken;
  }

  // ---- the layout ----

  /** Where what stands in a written frame. */
  lemma WrittenLayout(f: Frame)
    requires Packable(f)
    ensures Encode(f).Some? && |Encode(f).value| >= 20 + |f.metadata|
    ensures var s := Encode(f).value;
            && s[..8] == [72, 48, 48, 83, 80, 49, 53, 0]
            && FromBigEndian(s[8..12]) == |s| - 20
            && FromBigEndian(s[12..16]) == |f.metadata|
            && FromBigEndian(s[16..20]) == |f.attachments|
            && s[20..20 + |f.metadata|] == f.metadata
  {
    hide AttachmentBytes, BigEndian, FromBigEndian;
    MagicBytes();
    hide FRAME_MAGIC;
    var s := Encode(f).value;
    var b1, b2, b3 := BigEndian(|Payload(f)|, 4), BigEndian(|f.metadata|, 4), BigEndian(|f.attachments|, 4);
    assert s == FRAME_MAGIC + b1 + b2 + b3 + f.metadata + AttachmentBytes(f.attachments);
    assert s[8..12] == b1 && s[12..16] == b2 && s[16..20] == b3;
    FourBytes(|Payload(f)|);
    FourBytes(|f.metadata|);
    FourBytes(|f.attachments|);
  }

  lemma MagicBytes()
    ensures FRAME_MAGIC == [72, 48, 48, 83, 80, 49, 53, 0]
  {
  }

  /** Why a stream holds no frame: it ends too early, starts with something else, announces more than
      128 MiB, or holds metadata that is no JSON or attachments that do not end with it. */
  lemma ParseFaults(s: seq<byte>, isJson: seq<byte> -> bool)
    ensures var r := Parse(s, isJson);
            var header := |s| >= 20;
            var magic := header && s[..8] == [72, 48, 48, 83, 80, 49, 53, 0];
            var length := if header then FromBigEndian(s[8..12]) else 0;
            var fits := magic && length + 20 <= 134_217_728;
            && (r == Err(BadMagic) <==> header && !magic)
            && (r == Err(TooLarge) <==> magic && !fits)
            && (r == Err(EndOfStream) <==> !header || (fits && |s| < 20 + length))
            && (r == Err(BadMetadata) <==>
                 && fits && |s| >= 20 + length
                 && !isJson(Slice(s[20..20 + length], 0, FromBigEndian(s[12..16]))))
  {
    MagicBytes();
    hide TakeAttachments, FromBigEndian, FRAME_MAGIC;
  }
}
