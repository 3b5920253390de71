/** Lower-case hexadecimal text, and the more permissive reader that `from_str_radix` is. */
module Hex {
  import opened Wrappers
  import opened Bytes

  type Text = seq<byte>

  function Digit(n: int): byte
    requires 0 <= n < 16
  {
    if n < 10 then (48 + n) as byte else (87 + n) as byte
  }

  function Encode(bytes: seq<byte>): (r: Text)
    ensures |r| == 2 * |bytes|
  {
    if bytes == [] then []
    else [Digit(bytes[0] as int / 16), Digit(bytes[0] as int % 16)] + Encode(bytes[1..])
  }

  /** The value of a digit in either case. */
  function DigitValue(c: byte): (r: Option<int>)
    ensures r.Some? ==> 0 <= r.value < 16
  {
    var n := c as int;
    if 48 <= n < 58 then Some(n - 48)
    else if 97 <= n < 103 then Some(n - 87)
    else if 65 <= n < 71 then Some(n - 55)
    else None
  }

  const PLUS: byte := 43

  /** `u8::from_str_radix(pair, 16)`: a leading plus sign is a sign, not a digit. */
  function PairValue(high: byte, low: byte): Option<byte> {
    var h, l := DigitValue(high), DigitValue(low);
    if l.None? then None
    else if high == PLUS then Some(l.value as byte)
    else if h.None? then None
    else Some((16 * h.value + l.value) as byte)
  }

  function DecodePairs(text: Text): Option<seq<byte>>
    requires |text| % 2 == 0
  {
    if text == [] then Some([])
    else
      var head, rest := PairValue(text[0], text[1]), DecodePairs(text[2..]);
      if head.Some? && rest.Some? then Some([head.value] + rest.value) else None
  }

  function Decode(text: Text): Option<seq<byte>> {
    if |text| % 2 != 0 then None else DecodePairs(text)
  }

  /** Decoding undoes encoding. */
  lemma {:induction false} RoundTrip(bytes: seq<byte>)
    ensures Decode(Encode(bytes)) == Some(bytes)
  {
    if bytes != [] {
      var b := bytes[0] as int;
      assert Encode(bytes)[2..] == Encode(bytes[1..]);
      assert DigitValue(Digit(b / 16)) == Some(b / 16) && DigitValue(Digit(b % 16)) == Some(b % 16);
      RoundTrip(bytes[1..]);
      assert bytes == [bytes[0]] + bytes[1..];
    }
  }

  predicate IsCanonicalDigit(c: byte) {
    48 <= c as int < 58 || 97 <= c as int < 103
  }

  /** Encoding undoes decoding exactly for text that is already in lower-case digits;
      the reader also takes upper case and a plus sign, which encoding never writes. */
  lemma {:induction false} CanonicalIff(text: Text)
    requires Decode(text).Some?
    ensures Encode(Decode(text).value) == text <==> forall c | c in text :: IsCanonicalDigit(c)
  {
    if text != [] {
      CanonicalIff(text[2..]);
      var bytes, rest := DecodePairs(text).value, DecodePairs(text[2..]).value;
      assert bytes[1..] == rest;
      PairCanonicalIff(text[0], text[1]);
      var pair := [Digit(bytes[0] as int / 16), Digit(bytes[0] as int % 16)];
      assert Encode(bytes) == pair + Encode(rest);
      assert text == [text[0], text[1]] + text[2..];
      if Encode(bytes) == text { Split(pair, Encode(rest), [text[0], text[1]], text[2..]); }
    }
  }

  lemma {:induction false} DigitsDecode(text: Text)
    requires |text| % 2 == 0 && forall c | c in text :: IsCanonicalDigit(c)
    ensures Decode(text).Some?
  {
    if text != [] {
      assert text[0] in text && text[1] in text;
      DigitsDecode(text[2..]);
    }
  }

  lemma PairCanonicalIff(high: byte, low: byte)
    requires PairValue(high, low).Some?
    ensures var b := PairValue(high, low).value as int;
            Digit(b / 16) == high && Digit(b % 16) == low <==> IsCanonicalDigit(high) && IsCanonicalDigit(low)
  {
  }

  /** Two texts, one cursor: `+F` reads as the byte that is written `0f`. */
  lemma PlusSignAccepted()
    ensures Decode([43, 70]) == Some([15])
    ensures Encode([15]) == [48, 102] != [43, 70]
  {
    var text: Text := [43, 70];
    assert text[2..] == [];
    assert PairValue(text[0], text[1]) == Some(15);
    assert DecodePairs(text[2..]) == Some([]);
    var tail: seq<byte> := [];
    assert [15 as byte] + tail == [15];
    assert Encode([]) == [];
    var bytes: seq<byte> := [15];
    assert bytes[1..] == [];
  }

  function Upper(c: byte): byte {
    if 97 <= c as int < 123 then (c as int - 32) as byte else c
  }

  /** Upper case reads like lower case. */
  lemma {:induction false} CaseIgnored(text: Text)
    ensures Decode(seq(|text|, i requires 0 <= i < |text| => Upper(text[i]))) == Decode(text)
  {
    var upper := seq(|text|, i requires 0 <= i < |text| => Upper(text[i]));
    if |text| >= 2 && |text| % 2 == 0 {
      CaseIgnored(text[2..]);
      assert upper[2..] == seq(|text[2..]|, i requires 0 <= i < |text[2..]| => Upper(text[2..][i]));
      assert PairValue(upper[0], upper[1]) == PairValue(text[0], text[1]) by {
        SameDigit(text[0]);
        SameDigit(text[1]);
      }
    } else if text == [] {
      assert upper == text;
    }
  }

  lemma SameDigit(c: byte)
    ensures DigitValue(Upper(c)) == DigitValue(c) && (Upper(c) == PLUS <==> c == PLUS)
  {
  }
}
