/** Reading one repeated field of a protobuf message without its schema (Base 128 Varints and
    Message Structure in the Protocol Buffers Encoding guide). */
module ProtobufScan {
  import opened Wrappers
  import opened Bytes

  datatype ScanError = TruncatedVarint | OversizedVarint | TruncatedLength | TruncatedFixed | UnsupportedWireType

  const MAX_VARINT_BYTES := 10

  function Pow128(n: nat): (r: nat)
    ensures r >= 1
  {
    if n == 0 then 1 else 128 * Pow128(n - 1)
  }

  // ---- varints ----

  /** The varint at an offset, `used` bytes of it already read, and the offset after it. */
  function VarintFrom(data: seq<byte>, offset: nat, used: nat): (r: Result<(nat, nat), ScanError>)
    ensures r.Ok? ==> offset < r.value.1 <= |data|
    decreases MAX_VARINT_BYTES - used
  {
    if used >= MAX_VARINT_BYTES then Err(OversizedVarint)
    else if offset >= |data| then Err(TruncatedVarint)
    else if data[offset] < 128 then Ok((data[offset] as int, offset + 1))
    else
      match VarintFrom(data, offset + 1, used + 1)
      case Err(e) => Err(e)
      case Ok((high, end)) => Ok((data[offset] as int - 128 + 128 * high, end))
  }

  function Varint(data: seq<byte>, offset: nat): (r: Result<(nat, nat), ScanError>)
    ensures r.Ok? ==> offset < r.value.1 <= |data|
  {
    VarintFrom(data, offset, 0)
  }

  /** A varint ends at its first byte below 128; it is oversized when the first ten bytes are not,
      and truncated when the data ends before that. */
  lemma {:induction false} VarintEnds(data: seq<byte>, offset: nat, used: nat)
    requires used <= 10
    ensures var r := VarintFrom(data, offset, used);
            var limit := offset + 10 - used;
            && (r == Err(OversizedVarint) <==>
                 (limit <= |data| || used == 10) && forall i | offset <= i < limit :: data[i] >= 128)
            && (r == Err(TruncatedVarint) <==>
                 used < 10 && |data| < limit && forall i | offset <= i < |data| :: data[i] >= 128)
            && (r.Ok? <==> exists i | offset <= i < limit && i < |data| :: data[i] < 128)
            && (r.Ok? ==> data[r.value.1 - 1] < 128 && forall i | offset <= i < r.value.1 - 1 :: data[i] >= 128)
    decreases 10 - used
  {
    VarintUnfolds(data, offset, used);
    hide VarintFrom;
    if used < 10 && offset < |data| && data[offset] >= 128 { VarintEnds(data, offset + 1, used + 1); }
  }

  /** The loop over seven-bit groups, lowest first. */
  method ReadVarint(data: seq<byte>, start: nat) returns (r: Result<(nat, nat), ScanError>)
    ensures r == Varint(data, start)
  {
    hide VarintFrom;
    var value: nat, offset: nat, weight: nat := 0, start, 1;
    var used := 0;
    while used < MAX_VARINT_BYTES
      invariant 0 <= used <= MAX_VARINT_BYTES && weight >= 1
      invariant Varint(data, start) == Weighted(value, weight, VarintFrom(data, offset, used))
    {
      VarintUnfolds(data, offset, used);
      if offset >= |data| { return Err(TruncatedVarint); }
      var b: nat := data[offset] as int;
      WeightedNext(value, weight, b, VarintFrom(data, offset + 1, used + 1));
      offset := offset + 1;
      value := value + weight * (b % 128);
      if b < 128 { return Ok((value, offset)); }
      weight := weight * 128;
      used := used + 1;
    }
    VarintUnfolds(data, offset, used);
    r := Err(OversizedVarint);
  }

  lemma VarintUnfolds(data: seq<byte>, offset: nat, used: nat)
    ensures VarintFrom(data, offset, used) ==
      if used >= MAX_VARINT_BYTES then Err(OversizedVarint)
      else if offset >= |data| then Err(TruncatedVarint)
      else if data[offset] < 128 then Ok((data[offset] as int, offset + 1))
      else Weighted(data[offset] as int - 128, 128, VarintFrom(data, offset + 1, used + 1))
  {
  }

  /** The groups read so far, joined with those above them. */
  function Weighted(value: nat, weight: nat, rest: Result<(nat, nat), ScanError>): Result<(nat, nat), ScanError> {
    match rest
    case Err(e) => Err(e)
    case Ok((high, end)) => Ok((value + weight * high, end))
  }

  lemma WeightedNext(value: nat, weight: nat, b: nat, rest: Result<(nat, nat), ScanError>)
    requires b >= 128 ==> b < 256
    ensures b >= 128 && rest.Ok? ==>
      value + weight * (b - 128 + 128 * rest.value.0) == (value + weight * (b % 128)) + (weight * 128) * rest.value.0
  {
    if b >= 128 && rest.Ok? {
      var high := rest.value.0;
      assert b % 128 == b - 128;
      calc {
        weight * (b - 128 + 128 * high);
        weight * (b - 128) + weight * (128 * high);
        { assert weight * (128 * high) == (weight * 128) * high; }
        weight * (b - 128) + (weight * 128) * high;
      }
    }
  }

  function EncodeVarint(n: nat): (r: seq<byte>)
    ensures r != []
  {
    if n < 128 then [n as byte] else [(n % 128 + 128) as byte] + EncodeVarint(n / 128)
  }

  /** A varint of at most ten bytes is read back, whatever stands around it. */
  lemma {:induction false} VarintReadBack(before: seq<byte>, n: nat, after: seq<byte>, used: nat)
    requires used < MAX_VARINT_BYTES && n < Pow128(MAX_VARINT_BYTES - used)
    ensures var data := before + EncodeVarint(n) + after;
            VarintFrom(data, |before|, used) == Ok((n, |before| + |EncodeVarint(n)|))
    decreases n
  {
    var data := before + EncodeVarint(n) + after;
    assert data[|before|] == EncodeVarint(n)[0];
    if n >= 128 {
      var head := [(n % 128 + 128) as byte];
      assert data == (before + head) + EncodeVarint(n / 128) + after;
      assert Pow128(1) == 128 * Pow128(0);
      VarintReadBack(before + head, n / 128, after, used + 1);
    }
  }

  // ---- the scan ----

  /** The rest of a field whose key ends at `body`: its number, its bytes if it is
      length-delimited, where it ends. */
  function Body(data: seq<byte>, key: nat, body: nat): (r: Result<(nat, Option<seq<byte>>, nat), ScanError>)
    ensures r.Ok? ==> body <= r.value.2 <= |data| || body > |data|
  {
    var number, wireType := key / 8, key % 8;
    if wireType == 0 then
      match Varint(data, body)
      case Err(e) => Err(e)
      case Ok((_, end)) => Ok((number, None, end))
    else if wireType == 1 then
      if body + 8 > |data| then Err(TruncatedFixed) else Ok((number, None, body + 8))
    else if wireType == 2 then
      match Varint(data, body)
      case Err(e) => Err(e)
      case Ok((length, start)) =>
        if start + length > |data| then Err(TruncatedLength)
          else Ok((number, Some(data[start..start + length]), start + length))
    else if wireType == 5 then
      if body + 4 > |data| then Err(TruncatedFixed) else Ok((number, None, body + 4))
    else Err(UnsupportedWireType)
  }

  /** Why a field body cannot be read: its fixed width or its length runs past the end, or its wire
      type is none of the four that are known; errors of its own varint are passed on. */
  lemma BodyFaults(data: seq<byte>, key: nat, body: nat)
    ensures var r := Body(data, key, body);
            var length := Varint(data, body);
            && (r == Err(UnsupportedWireType) <==> key % 8 !in {0, 1, 2, 5})
            && (r == Err(TruncatedFixed) <==>
                 (key % 8 == 1 && |data| < body + 8) || (key % 8 == 5 && |data| < body + 4))
            && (r == Err(TruncatedLength) <==>
                 key % 8 == 2 && length.Ok? && |data| < length.value.1 + length.value.0)
            && ((key % 8 == 0 || key % 8 == 2) && length.Err? ==> r == Err(length.error))
            && (r.Ok? ==> r.value.0 == key / 8 && (r.value.1.Some? <==> key % 8 == 2))
  {
    if Varint(data, body).Err? { VarintFaults(data, body, 0); }
    hide Varint;
  }

  lemma {:induction false} VarintFaults(data: seq<byte>, offset: nat, used: nat)
    requires VarintFrom(data, offset, used).Err?
    ensures var e := VarintFrom(data, offset, used).error; e == OversizedVarint || e == TruncatedVarint
    decreases MAX_VARINT_BYTES - used
  {
    if used < MAX_VARINT_BYTES && offset < |data| && data[offset] >= 128 { VarintFaults(data, offset + 1, used + 1); }
  }

  function Field(data: seq<byte>, offset: nat): (r: Result<(nat, Option<seq<byte>>, nat), ScanError>)
    ensures r.Ok? ==> offset < r.value.2 <= |data|
  {
    match Varint(data, offset)
    case Err(e) => Err(e)
    case Ok((key, body)) => Body(data, key, body)
  }

  function Scan(data: seq<byte>, offset: nat, fieldNumber: nat): Result<seq<seq<byte>>, ScanError>
    decreases |data| - offset
  {
    if offset >= |data| then Ok([])
    else
      match Field(data, offset)
      case Err(e) => Err(e)
      case Ok((number, value, end)) =>
        match Scan(data, end, fieldNumber)
        case Err(e) => Err(e)
        case Ok(rest) => Ok((if number == fieldNumber && value.Some? then [value.value] else []) + rest)
  }

  method LengthDelimitedFields(data: seq<byte>, fieldNumber: nat) returns (r: Result<seq<seq<byte>>, ScanError>)
    ensures r == Scan(data, 0, fieldNumber)
  {
    hide Varint;
    var values: seq<seq<byte>> := [];
    var offset := 0;
    PrependNothing(Scan(data, 0, fieldNumber));
    while offset < |data|
      invariant 0 <= offset <= |data|
      invariant Scan(data, 0, fieldNumber) == Prepend(values, Scan(data, offset, fieldNumber))
      decreases |data| - offset
    {
      ghost var start := offset;
      var key := ReadVarint(data, offset);
      if key.Err? { return Err(key.error); }
      var (k, body) := key.value;
      offset := body;
      var number, wireType := k / 8, k % 8;
      var found: seq<seq<byte>> := [];
      if wireType == 0 {
        var skipped := ReadVarint(data, offset);
        if skipped.Err? { return Err(skipped.error); }
        offset := skipped.value.1;
      } else if wireType == 1 {
        offset := offset + 8;
      } else if wireType == 2 {
        var length := ReadVarint(data, offset);
        if length.Err? { return Err(length.error); }
        var end := length.value.1 + length.value.0;
        if end > |data| { return Err(TruncatedLength); }
        if number == fieldNumber { found := [data[length.value.1..end]]; }
        offset := end;
      } else if wireType == 5 {
        offset := offset + 4;
      } else {
        return Err(UnsupportedWireType);
      }
      if offset > |data| { return Err(TruncatedFixed); }
      PrependMore(values, found, Scan(data, offset, fieldNumber));
      values := values + found;
    }
    PrependDone(values);
    r := Ok(values);
  }

  function Prepend(values: seq<seq<byte>>, rest: Result<seq<seq<byte>>, ScanError>): Result<seq<seq<byte>>, ScanError> {
    match rest
    case Err(e) => Err(e)
    case Ok(more) => Ok(values + more)
  }

  lemma PrependNothing(rest: Result<seq<seq<byte>>, ScanError>)
    ensures Prepend([], rest) == rest
  {
    if rest.Ok? { assert [] + rest.value == rest.value; }
  }

  lemma PrependMore(values: seq<seq<byte>>, found: seq<seq<byte>>, rest: Result<seq<seq<byte>>, ScanError>)
    ensures Prepend(values, Prepend(found, rest)) == Prepend(values + found, rest)
  {
    if rest.Ok? { assert values + (found + rest.value) == (values + found) + rest.value; }
  }

  lemma PrependDone(values: seq<seq<byte>>)
    ensures Prepend(values, Ok([])) == Ok(values)
  {
    assert values + [] == values;
  }

  // ---- one message after another ----

  lemma {:induction false} VarintUnmoved(a: seq<byte>, b: seq<byte>, offset: nat, used: nat)
    requires used <= MAX_VARINT_BYTES && VarintFrom(a, offset, used).Ok?
    ensures VarintFrom(a + b, offset, used) == VarintFrom(a, offset, used)
    decreases MAX_VARINT_BYTES - used
  {
    if a[offset] >= 128 { VarintUnmoved(a, b, offset + 1, used + 1); }
  }

  lemma {:induction false} VarintMoved(a: seq<byte>, b: seq<byte>, offset: nat, used: nat)
    requires used <= MAX_VARINT_BYTES
    ensures var (here, there) := (VarintFrom(b, offset, used), VarintFrom(a + b, |a| + offset, used));
            if here.Err? then there == here else there == Ok((here.value.0, |a| + here.value.1))
    decreases MAX_VARINT_BYTES - used
  {
    if used < MAX_VARINT_BYTES && offset < |b| && b[offset] >= 128 { VarintMoved(a, b, offset + 1, used + 1); }
  }

  lemma BodyUnmoved(a: seq<byte>, b: seq<byte>, key: nat, body: nat)
    requires Body(a, key, body).Ok? && body <= |a|
    ensures Body(a + b, key, body) == Body(a, key, body)
  {
    if key % 8 == 0 || key % 8 == 2 { VarintUnmoved(a, b, body, 0); }
    hide VarintFrom;
    if key % 8 == 2 {
      var (length, start) := Varint(a, body).value;
      assert (a + b)[start..start + length] == a[start..start + length];
    }
  }

  lemma FieldUnmoved(a: seq<byte>, b: seq<byte>, offset: nat)
    requires Field(a, offset).Ok?
    ensures Field(a + b, offset) == Field(a, offset)
  {
    VarintUnmoved(a, b, offset, 0);
    var (key, body) := Varint(a, offset).value;
    hide VarintFrom, Body;
    BodyUnmoved(a, b, key, body);
  }

  function Later(
    n: nat, r: Result<(nat, Option<seq<byte>>, nat), ScanError>): Result<(nat, Option<seq<byte>>, nat), ScanError> {
    match r
    case Err(e) => Err(e)
    case Ok((number, value, end)) => Ok((number, value, n + end))
  }

  lemma BodyMoved(a: seq<byte>, b: seq<byte>, key: nat, body: nat)
    ensures Body(a + b, key, |a| + body) == Later(|a|, Body(b, key, body))
  {
    hide Varint;
    if key % 8 == 2 {
      TextMoved(a, b, key, body);
    } else if key % 8 == 0 {
      LaterVarint(a, b, body);
    }
  }

  lemma TextMoved(a: seq<byte>, b: seq<byte>, key: nat, body: nat)
    requires key % 8 == 2
    ensures Body(a + b, key, |a| + body) == Later(|a|, Body(b, key, body))
  {
    LaterVarint(a, b, body);
    hide Varint;
    if Varint(b, body).Ok? {
      var (length, start) := Varint(b, body).value;
      if start + length <= |b| { SliceMoved(a, b, start, start + length); }
    }
  }

  lemma LaterVarint(a: seq<byte>, b: seq<byte>, offset: nat)
    ensures var (here, there) := (Varint(b, offset), Varint(a + b, |a| + offset));
            if here.Err? then there == here else there == Ok((here.value.0, |a| + here.value.1))
  {
    VarintMoved(a, b, offset, 0);
    hide VarintFrom;
  }

  lemma SliceMoved(a: seq<byte>, b: seq<byte>, from: nat, to: nat)
    requires from <= to <= |b|
    ensures (a + b)[|a| + from..|a| + to] == b[from..to]
  {
  }

  lemma FieldMoved(a: seq<byte>, b: seq<byte>, offset: nat)
    ensures Field(a + b, |a| + offset) == Later(|a|, Field(b, offset))
  {
    VarintMoved(a, b, offset, 0);
    hide VarintFrom, Body;
    if Varint(b, offset).Ok? {
      var (key, body) := Varint(b, offset).value;
      BodyMoved(a, b, key, body);
    }
  }

  lemma {:induction false} ScanMoved(a: seq<byte>, b: seq<byte>, offset: nat, fieldNumber: nat)
    ensures Scan(a + b, |a| + offset, fieldNumber) == Scan(b, offset, fieldNumber)
    decreases |b| - offset
  {
    hide Field, Scan;
    if offset < |b| {
      if Field(b, offset).Ok? { ScanMoved(a, b, Field(b, offset).value.2, fieldNumber); }
      ScanMovedStep(a, b, offset, fieldNumber);
    } else {
      ScanDone(a + b, |a| + offset, fieldNumber);
      ScanDone(b, offset, fieldNumber);
    }
  }

  lemma ScanMovedStep(a: seq<byte>, b: seq<byte>, offset: nat, fieldNumber: nat)
    requires offset < |b|
    requires Field(b, offset).Ok? ==>
      Scan(a + b, |a| + Field(b, offset).value.2, fieldNumber) == Scan(b, Field(b, offset).value.2, fieldNumber)
    ensures Scan(a + b, |a| + offset, fieldNumber) == Scan(b, offset, fieldNumber)
  {
    hide Field, Scan, Prepend;
    FieldMoved(a, b, offset);
    ScanUnfolds(a + b, |a| + offset, fieldNumber);
    ScanUnfolds(b, offset, fieldNumber);
  }

  lemma ScanDone(data: seq<byte>, offset: nat, fieldNumber: nat)
    requires offset >= |data|
    ensures Scan(data, offset, fieldNumber) == Ok([])
  {
  }

  /** One step of the scan. */
  lemma ScanUnfolds(data: seq<byte>, offset: nat, fieldNumber: nat)
    requires offset < |data|
    ensures var field := Field(data, offset);
            Scan(data, offset, fieldNumber) ==
              if field.Err? then Err(field.error)
              else Prepend(if field.value.0 == fieldNumber && field.value.1.Some? then [field.value.1.value] else [],
                           Scan(data, field.value.2, fieldNumber))
  {
    hide Field;
  }

  /** Scanning a complete message followed by another is scanning each in turn. */
  lemma {:induction false} ScanConcatenates(a: seq<byte>, b: seq<byte>, offset: nat, fieldNumber: nat)
    requires offset <= |a| && Scan(a, offset, fieldNumber).Ok?
    ensures Scan(a + b, offset, fieldNumber) == Prepend(Scan(a, offset, fieldNumber).value, Scan(b, 0, fieldNumber))
    decreases |a| - offset
  {
    if offset == |a| {
      ScanMoved(a, b, 0, fieldNumber);
      PrependNothing(Scan(b, 0, fieldNumber));
    } else {
      FieldUnmoved(a, b, offset);
      ScanUnfolds(a, offset, fieldNumber);
      ScanUnfolds(a + b, offset, fieldNumber);
      hide Field, Scan;
      var (number, value, end) := Field(a, offset).value;
      ScanConcatenates(a, b, end, fieldNumber);
      PrependMore(if number == fieldNumber && value.Some? then [value.value] else [], Scan(a, end, fieldNumber).value,
        Scan(b, 0, fieldNumber));
    }
  }

  // ---- messages as they are written ----

  datatype MessageField =
    | Number(number: nat, value: nat)
    | Wide(number: nat, eight: seq<byte>)
    | Text(number: nat, content: seq<byte>)
    | Narrow(number: nat, four: seq<byte>)

  const LIMIT := Pow128(MAX_VARINT_BYTES)

  predicate Writable(f: MessageField) {
    && 8 * f.number + 7 < LIMIT
    && match f
       case Number(_, value) => value < LIMIT
       case Wide(_, eight) => |eight| == 8
       case Text(_, content) => |content| < LIMIT
       case Narrow(_, four) => |four| == 4
  }

  function EncodeField(f: MessageField): (r: seq<byte>)
    ensures r != []
  {
    EncodeVarint(KeyOf(f)) + EncodeBody(f)
  }

  function EncodeMessage(fields: seq<MessageField>): seq<byte> {
    if fields == [] then [] else EncodeField(fields[0]) + EncodeMessage(fields[1..])
  }

  /** The contents of the length-delimited fields of one number, in order. */
  function Contents(fields: seq<MessageField>, fieldNumber: nat): seq<seq<byte>> {
    if fields == [] then [] else
      (if fields[0].Text? && fields[0].number == fieldNumber then [fields[0].content] else [])
      + Contents(fields[1..], fieldNumber)
  }

  lemma VarintFirst(n: nat, after: seq<byte>)
    requires n < LIMIT
    ensures Varint(EncodeVarint(n) + after, 0) == Ok((n, |EncodeVarint(n)|))
  {
    VarintReadBack([], n, after, 0);
    assert [] + EncodeVarint(n) + after == EncodeVarint(n) + after;
  }

  lemma VarintNext(a: seq<byte>, n: nat, after: seq<byte>)
    requires n < LIMIT
    ensures Varint(a + (EncodeVarint(n) + after), |a|) == Ok((n, |a| + |EncodeVarint(n)|))
  {
    VarintReadBack(a, n, after, 0);
    assert a + EncodeVarint(n) + after == a + (EncodeVarint(n) + after);
  }

  function KeyOf(f: MessageField): nat {
    8 * f.number + match f
      case Number(_, _) => 0
      case Wide(_, _) => 1
      case Text(_, _) => 2
      case Narrow(_, _) => 5
  }

  function EncodeBody(f: MessageField): seq<byte> {
    match f
    case Number(_, value) => EncodeVarint(value)
    case Wide(_, eight) => eight
    case Text(_, content) => EncodeVarint(|content|) + content
    case Narrow(_, four) => four
  }

  lemma BodyReadBack(k: seq<byte>, f: MessageField, after: seq<byte>)
    requires Writable(f)
    ensures Body(k + (EncodeBody(f) + after), KeyOf(f), |k|)
         == Ok((f.number, if f.Text? then Some(f.content) else None, |k| + |EncodeBody(f)|))
  {
    hide EncodeVarint, Varint, LIMIT;
    match f
    case Number(_, value) =>
      VarintNext(k, value, after);
    case Text(_, content) =>
      var size := EncodeVarint(|content|);
      assert size + content + after == size + (content + after);
      VarintNext(k, |content|, content + after);
      var data := k + (size + (content + after));
      assert data[|k| + |size|..|k| + |size| + |content|] == content;
    case _ =>
  }

  lemma FieldReadBack(f: MessageField, after: seq<byte>)
    requires Writable(f)
    ensures Field(EncodeField(f) + after, 0)
      == Ok((f.number, if f.Text? then Some(f.content) else None, |EncodeField(f)|))
  {
    hide EncodeVarint, Varint, LIMIT, Body, EncodeBody;
    var k, body := EncodeVarint(KeyOf(f)), EncodeBody(f);
    assert KeyOf(f) < LIMIT;
    hide KeyOf;
    VarintFirst(KeyOf(f), body + after);
    BodyReadBack(k, f, after);
    hide Writable;
    Appended(k, body, after);
    assert |EncodeField(f)| == |k| + |body|;
  }

  lemma Appended(a: seq<byte>, b: seq<byte>, c: seq<byte>)
    ensures a + (b + c) == a + b + c
  {
  }

  lemma ScanFirst(f: MessageField, after: seq<byte>, fieldNumber: nat)
    requires Writable(f)
    ensures Scan(EncodeField(f) + after, 0, fieldNumber)
         == Prepend(if f.Text? && f.number == fieldNumber then [f.content] else [], Scan(after, 0, fieldNumber))
  {
    hide Field, EncodeField, Scan, Writable, Prepend;
    FieldReadBack(f, after);
    ScanOne(EncodeField(f), after, f.number, if f.Text? then Some(f.content) else None, fieldNumber);
  }

  lemma ScanOne(field: seq<byte>, after: seq<byte>, number: nat, value: Option<seq<byte>>, fieldNumber: nat)
    requires field != [] && Field(field + after, 0) == Ok((number, value, |field|))
    ensures Scan(field + after, 0, fieldNumber)
         == Prepend(if number == fieldNumber && value.Some? then [value.value] else [], Scan(after, 0, fieldNumber))
  {
    hide Field, Scan, Prepend;
    ScanMoved(field, after, 0, fieldNumber);
    ScanUnfolds(field + after, 0, fieldNumber);
  }

  /** Scanning a written message finds the contents of the field asked for, in order. */
  lemma {:induction false} ScanFindsContents(fields: seq<MessageField>, fieldNumber: nat)
    requires forall f | f in fields :: Writable(f)
    ensures Scan(EncodeMessage(fields), 0, fieldNumber) == Ok(Contents(fields, fieldNumber))
  {
    if fields != [] {
      assert fields[0] in fields;
      hide EncodeField, Writable, Scan;
      ScanFirst(fields[0], EncodeMessage(fields[1..]), fieldNumber);
      ScanFindsContents(fields[1..], fieldNumber);
    }
  }
}
