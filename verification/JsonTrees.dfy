/** JSON documents over any kind of string value. */
module JsonTrees {
  import opened Wrappers

  datatype Json<S> =
    | Null
    | Bool(truth: bool)
    | Num(value: int)
    | Str(text: S)
    | List(items: seq<Json<S>>)
    | Object(fields: seq<Field<S>>)

  datatype Field<S> = Field(key: string, value: Json<S>)

  function FindField<S>(fields: seq<Field<S>>, key: string): (r: Option<Json<S>>)
    ensures r.Some? ==> Field(key, r.value) in fields
  {
    if fields == [] then None
    else if fields[0].key == key then Some(fields[0].value)
    else FindField(fields[1..], key)
  }

  /** The value of a key; None as well for anything that is not an object. */
  function Get<S>(j: Json<S>, key: string): (r: Option<Json<S>>)
    ensures r.Some? ==> r.value < j
  {
    match j
    case Object(fields) =>
      var r := FindField(fields, key);
      assert r.Some? ==> Field(key, r.value) in fields;
      r
    case _ => None
  }

  /** The array under a key, empty when the key is absent; None for any other kind of value. */
  function ArrayAt<S>(j: Json<S>, key: string): (r: Option<seq<Json<S>>>)
    ensures r.Some? ==> forall x | x in r.value :: x < j
  {
    match Get(j, key)
    case None => Some([])
    case Some(List(items)) => Some(items)
    case Some(_) => None
  }

  // ---- strings ----

  /** Every string value, in document order; keys are not values. */
  function Strings<S>(j: Json<S>): seq<S> {
    match j
    case Str(s) => [s]
    case List(items) => StringsOfAll(items)
    case Object(fields) => StringsOfFields(fields)
    case _ => []
  }

  function StringsOfAll<S>(items: seq<Json<S>>): seq<S> {
    if items == [] then [] else Strings(items[0]) + StringsOfAll(items[1..])
  }

  function StringsOfFields<S>(fields: seq<Field<S>>): seq<S> {
    if fields == [] then []
    else
      assert fields[0].value < fields[0];
      Strings(fields[0].value) + StringsOfFields(fields[1..])
  }

  /** Every string value replaced; keys, order and everything else kept. */
  function MapStrings<S, T>(f: S -> T, j: Json<S>): Json<T>
    decreases j
  {
    match j
    case Null => Null
    case Bool(b) => Bool(b)
    case Num(n) => Num(n)
    case Str(s) => Str(f(s))
    case List(items) => List(MapAll(f, items))
    case Object(fields) => Object(MapFields(f, fields))
  }

  function MapAll<S, T>(f: S -> T, items: seq<Json<S>>): (r: seq<Json<T>>)
    ensures |r| == |items|
    ensures forall i | 0 <= i < |items| :: r[i] == MapStrings(f, items[i])
    decreases items
  {
    if items == [] then [] else [MapStrings(f, items[0])] + MapAll(f, items[1..])
  }

  function MapFields<S, T>(f: S -> T, fields: seq<Field<S>>): (r: seq<Field<T>>)
    ensures |r| == |fields|
    ensures forall i | 0 <= i < |fields| :: r[i] == Field(fields[i].key, MapStrings(f, fields[i].value))
    decreases fields
  {
    if fields == [] then []
    else
      assert fields[0].value < fields[0];
      [Field(fields[0].key, MapStrings(f, fields[0].value))] + MapFields(f, fields[1..])
  }

  // ---- reading commutes with replacing ----

  function MapOption<S, T>(f: S -> T, j: Option<Json<S>>): Option<Json<T>> {
    match j
    case None => None
    case Some(v) => Some(MapStrings(f, v))
  }

  lemma {:induction false} FindMapped<S, T>(f: S -> T, fields: seq<Field<S>>, key: string)
    ensures FindField(MapFields(f, fields), key) == MapOption(f, FindField(fields, key))
  {
    if fields != [] {
      FindMapped(f, fields[1..], key);
      assert MapFields(f, fields)[1..] == MapFields(f, fields[1..]);
    }
  }

  lemma GetMapped<S, T>(f: S -> T, j: Json<S>, key: string)
    ensures Get(MapStrings(f, j), key) == MapOption(f, Get(j, key))
  {
    if j.Object? { FindMapped(f, j.fields, key); }
  }

  lemma ArrayMapped<S, T>(f: S -> T, j: Json<S>, key: string)
    ensures ArrayAt(MapStrings(f, j), key).Some? <==> ArrayAt(j, key).Some?
    ensures ArrayAt(j, key).Some? ==> ArrayAt(MapStrings(f, j), key).value == MapAll(f, ArrayAt(j, key).value)
  {
    GetMapped(f, j, key);
  }
}
