/**
 * The shape of a decoded JSON body, as the fetch code reads it:
 * a value indexed by field name, where indexing a missing field or a
 * non-object yields `Null`, and a string accessor that fails on anything
 * but a string.
 */
module Json {
  import opened Wrappers

  datatype Value =
    | Null
    | Bool(b: bool)
    | Number(n: int)
    | Str(s: string)
    | Array(elems: seq<Value>)
    | Object(fields: map<string, Value>)

  /** `v[key]`: the field's value, or `Null` when `v` is not an object or lacks the field. */
  function Get(v: Value, key: string): Value
  {
    if v.Object? && key in v.fields then v.fields[key] else Null
  }

  /** Indexing reads a present field of an object, and gives `Null` for anything else. */
  lemma GetReads(v: Value, key: string)
    ensures v.Object? && key in v.fields ==> Get(v, key) == v.fields[key]
    ensures !v.Object? || key !in v.fields ==> Get(v, key) == Null
  {
  }

  /**
   * Setting a field of an object is seen by indexing that field and by no
   * other: the other fields read as before.
   */
  lemma GetAfterSet(fields: map<string, Value>, key: string, x: Value, other: string)
    ensures Get(Object(fields[key := x]), key) == x
    ensures other != key ==> Get(Object(fields[key := x]), other) == Get(Object(fields), other)
  {
    if other != key {
      assert other in fields[key := x] <==> other in fields;
    }
  }

  /** `v.as_str()`: the string a string value holds, and nothing for any other value. */
  function AsStr(v: Value): Option<string>
  {
    if v.Str? then Some(v.s) else None
  }

  /** `as_str` gives a string exactly for a string value, and it is the string that value holds. */
  lemma AsStrReads(v: Value)
    ensures AsStr(v).Some? <==> v.Str?
    ensures AsStr(v).Some? ==> Str(AsStr(v).value) == v
  {
  }
}
