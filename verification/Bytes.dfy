/** Byte strings, fixed-width integers, length-prefixed fields and the byte order
    that Rust and Go give to text. */
module Bytes {
  newtype byte = b: int | 0 <= b < 256

  /** No buffer of a 64-bit process reaches 2^64 bytes, so `len() as u64` is exact. */
  const U64_LIMIT: int := 0x1_0000_0000_0000_0000

  type Blob = s: seq<byte> | |s| < 0x1_0000_0000_0000_0000

  function AsciiByte(c: char): byte {
    if c as int < 128 then c as byte else '?' as byte
  }

  /** The bytes of an ASCII literal. */
  function Ascii(text: string): (r: seq<byte>)
    ensures |r| == |text|
  {
    seq(|text|, i requires 0 <= i < |text| => AsciiByte(text[i]))
  }

  // ---- fixed-width integers ----

  function Pow256(width: nat): (r: nat)
    ensures r >= 1
  {
    if width == 0 then 1 else 256 * Pow256(width - 1)
  }

  /** `n` in `width` bytes, most significant first. */
  function BigEndian(n: nat, width: nat): (r: seq<byte>)
    ensures |r| == width
  {
    if width == 0 then [] else BigEndian(n / 256, width - 1) + [(n % 256) as byte]
  }

  function FromBigEndian(s: seq<byte>): nat {
    if s == [] then 0 else 256 * FromBigEndian(s[..|s| - 1]) + s[|s| - 1] as int
  }

  /** `n` in `width` bytes, least significant first. */
  function LittleEndian(n: nat, width: nat): (r: seq<byte>)
    ensures |r| == width
  {
    if width == 0 then [] else [(n % 256) as byte] + LittleEndian(n / 256, width - 1)
  }

  function FromLittleEndian(s: seq<byte>): nat {
    if s == [] then 0 else s[0] as int + 256 * FromLittleEndian(s[1..])
  }

  lemma {:induction false} BigEndianRoundTrip(n: nat, width: nat)
    requires n < Pow256(width)
    ensures FromBigEndian(BigEndian(n, width)) == n
  {
    if width > 0 {
      BigEndianRoundTrip(n / 256, width - 1);
      assert BigEndian(n, width)[..width - 1] == BigEndian(n / 256, width - 1);
    }
  }

  /** Every byte string of a width is the encoding of the number it reads as. */
  lemma {:induction false} BigEndianOnto(s: seq<byte>)
    ensures FromBigEndian(s) < Pow256(|s|)
    ensures BigEndian(FromBigEndian(s), |s|) == s
  {
    if s != [] {
      BigEndianOnto(s[..|s| - 1]);
      assert s == s[..|s| - 1] + [s[|s| - 1]];
    }
  }

  lemma {:induction false} LittleEndianRoundTrip(n: nat, width: nat)
    requires n < Pow256(width)
    ensures FromLittleEndian(LittleEndian(n, width)) == n
  {
    if width > 0 {
      LittleEndianRoundTrip(n / 256, width - 1);
      assert LittleEndian(n, width)[1..] == LittleEndian(n / 256, width - 1);
    }
  }

  lemma WordWidths()
    ensures Pow256(4) == 0x1_0000_0000
    ensures Pow256(8) == U64_LIMIT
  {
    assert Pow256(2) == 65536;
    assert Pow256(4) == 256 * (256 * Pow256(2));
    assert Pow256(6) == 256 * (256 * Pow256(4));
    assert Pow256(8) == 256 * (256 * Pow256(6));
  }

  // ---- length-prefixed fields ----

  /** A field whose length is written big-endian: the providers' `hash_field`. */
  function Field(value: Blob): seq<byte> {
    BigEndian(|value|, 8) + value
  }

  /** A field whose length is written little-endian: the query engine's `hash_field`. */
  function FieldLE(value: Blob): seq<byte> {
    LittleEndian(|value|, 8) + value
  }

  lemma Split<T>(a: seq<T>, x: seq<T>, b: seq<T>, y: seq<T>)
    requires a + x == b + y
    requires |a| == |b|
    ensures a == b && x == y
  {
    assert a == (a + x)[..|a|] && b == (b + y)[..|a|];
    assert x == (a + x)[|a|..] && y == (b + y)[|a|..];
  }

  /** A field and whatever follows it are both determined by the bytes. */
  lemma FieldCancel(v: Blob, x: seq<byte>, w: Blob, y: seq<byte>)
    requires Field(v) + x == Field(w) + y
    ensures v == w && x == y
  {
    hide BigEndian, FromBigEndian, Pow256;
    var lv, lw := BigEndian(|v|, 8), BigEndian(|w|, 8);
    assert Field(v) + x == lv + (v + x) && Field(w) + y == lw + (w + y);
    Split(lv, v + x, lw, w + y);
    WordWidths();
    BigEndianRoundTrip(|v|, 8);
    BigEndianRoundTrip(|w|, 8);
    Split(v, x, w, y);
  }

  lemma FieldLECancel(v: Blob, x: seq<byte>, w: Blob, y: seq<byte>)
    requires FieldLE(v) + x == FieldLE(w) + y
    ensures v == w && x == y
  {
    hide LittleEndian, FromLittleEndian, Pow256;
    var lv, lw := LittleEndian(|v|, 8), LittleEndian(|w|, 8);
    assert FieldLE(v) + x == lv + (v + x) && FieldLE(w) + y == lw + (w + y);
    Split(lv, v + x, lw, w + y);
    WordWidths();
    LittleEndianRoundTrip(|v|, 8);
    LittleEndianRoundTrip(|w|, 8);
    Split(v, x, w, y);
  }

  /** Fields written one after another. */
  function Fields(values: seq<Blob>): seq<byte> {
    if values == [] then [] else Field(values[0]) + Fields(values[1..])
  }

  function FieldsLE(values: seq<Blob>): seq<byte> {
    if values == [] then [] else FieldLE(values[0]) + FieldsLE(values[1..])
  }

  /** A list of fields that ends where the bytes end can be read back. */
  lemma {:induction false} FieldsInjective(vs: seq<Blob>, ws: seq<Blob>)
    requires Fields(vs) == Fields(ws)
    ensures vs == ws
  {
    if vs != [] && ws != [] {
      FieldCancel(vs[0], Fields(vs[1..]), ws[0], Fields(ws[1..]));
      FieldsInjective(vs[1..], ws[1..]);
      assert vs == [vs[0]] + vs[1..] && ws == [ws[0]] + ws[1..];
    }
  }

  lemma {:induction false} FieldsLEInjective(vs: seq<Blob>, ws: seq<Blob>)
    requires FieldsLE(vs) == FieldsLE(ws)
    ensures vs == ws
  {
    if vs != [] && ws != [] {
      FieldLECancel(vs[0], FieldsLE(vs[1..]), ws[0], FieldsLE(ws[1..]));
      FieldsLEInjective(vs[1..], ws[1..]);
      assert vs == [vs[0]] + vs[1..] && ws == [ws[0]] + ws[1..];
    }
  }

  lemma {:induction false} FieldsAppend(vs: seq<Blob>, ws: seq<Blob>)
    ensures Fields(vs + ws) == Fields(vs) + Fields(ws)
  {
    if vs == [] {
      assert vs + ws == ws;
    } else {
      assert (vs + ws)[1..] == vs[1..] + ws;
      FieldsAppend(vs[1..], ws);
    }
  }

  // ---- byte order of text ----

  predicate BytesLeq(a: seq<byte>, b: seq<byte>) {
    a == [] || (b != [] && (a[0] < b[0] || (a[0] == b[0] && BytesLeq(a[1..], b[1..]))))
  }

  lemma {:induction false} BytesLeqAntisymmetric(a: seq<byte>, b: seq<byte>)
    requires BytesLeq(a, b) && BytesLeq(b, a)
    ensures a == b
  {
    if a != [] {
      BytesLeqAntisymmetric(a[1..], b[1..]);
      assert a == [a[0]] + a[1..] && b == [b[0]] + b[1..];
    }
  }

  lemma {:induction false} BytesLeqTotal(a: seq<byte>, b: seq<byte>)
    ensures BytesLeq(a, b) || BytesLeq(b, a)
  {
    if a != [] && b != [] { BytesLeqTotal(a[1..], b[1..]); }
  }

  lemma {:induction false} BytesLeqTransitive(a: seq<byte>, b: seq<byte>, c: seq<byte>)
    requires BytesLeq(a, b) && BytesLeq(b, c)
    ensures BytesLeq(a, c)
  {
    if a != [] && a[0] == b[0] && b[0] == c[0] { BytesLeqTransitive(a[1..], b[1..], c[1..]); }
  }

  /** What reading two texts side by side finds first: the end of one, or a smaller byte in it. */
  ghost predicate Precedes(a: seq<byte>, b: seq<byte>) {
    || (a <= b && a != b)
    || exists k: nat :: k < |a| && k < |b| && a[..k] == b[..k] && a[k] < b[k]
  }

  lemma {:induction false} BytesLeqIff(a: seq<byte>, b: seq<byte>)
    ensures BytesLeq(a, b) <==> a == b || Precedes(a, b)
  {
    hide Precedes;
    if a != [] && b != [] {
      assert a == [a[0]] + a[1..] && b == [b[0]] + b[1..];
      if a[0] == b[0] {
        BytesLeqIff(a[1..], b[1..]);
        PrecedesLater(a, b);
      } else {
        PrecedesAtOnce(a, b);
      }
    } else {
      PrecedesNothing(a, b);
    }
  }

  lemma PrecedesNothing(a: seq<byte>, b: seq<byte>)
    requires a == [] || b == []
    ensures Precedes(a, b) <==> a == [] && b != []
  {
    if a == [] { assert a <= b; }
  }

  lemma PrecedesAtOnce(a: seq<byte>, b: seq<byte>)
    requires a != [] && b != [] && a[0] != b[0]
    ensures Precedes(a, b) <==> a[0] < b[0]
  {
    if a[0] < b[0] {
      assert a[..0] == b[..0];
    } else if k: nat :| k < |a| && k < |b| && a[..k] == b[..k] && a[k] < b[k] {
      SameFirst(a, b, k);
      assert false;
    }
  }

  lemma SameFirst(a: seq<byte>, b: seq<byte>, k: nat)
    requires k <= |a| && k <= |b| && a[..k] == b[..k]
    ensures k > 0 ==> a[0] == b[0]
  {
    if k > 0 { assert a[..k][0] == b[..k][0]; }
  }

  lemma PrecedesLater(a: seq<byte>, b: seq<byte>)
    requires a != [] && b != [] && a[0] == b[0]
    ensures Precedes(a, b) <==> Precedes(a[1..], b[1..])
  {
    assert a == [a[0]] + a[1..] && b == [b[0]] + b[1..];
    if k: nat :| k < |a[1..]| && k < |b[1..]| && a[1..][..k] == b[1..][..k] && a[1..][k] < b[1..][k] {
      assert a[..k + 1] == [a[0]] + a[1..][..k] && b[..k + 1] == [b[0]] + b[1..][..k];
      assert a[k + 1] < b[k + 1];
    }
    if k: nat :| k < |a| && k < |b| && a[..k] == b[..k] && a[k] < b[k] {
      assert a[1..][..k - 1] == a[..k][1..] && b[1..][..k - 1] == b[..k][1..];
      assert a[1..][k - 1] < b[1..][k - 1];
    }
  }

  /** The order laws in a form that can be applied before their hypotheses are known. */
  lemma BytesLeqLaws(a: seq<byte>, b: seq<byte>, c: seq<byte>)
    ensures BytesLeq(a, b) || BytesLeq(b, a)
    ensures BytesLeq(a, b) && BytesLeq(b, a) ==> a == b
    ensures BytesLeq(a, b) && BytesLeq(b, c) ==> BytesLeq(a, c)
  {
    BytesLeqTotal(a, b);
    if BytesLeq(a, b) && BytesLeq(b, c) { BytesLeqTransitive(a, b, c); }
    if BytesLeq(a, b) && BytesLeq(b, a) { BytesLeqAntisymmetric(a, b); }
  }
}
