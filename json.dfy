/**
 * The dictionaries that the `read()` serialisers return and that the handlers
 * send back as JSON: an ordered list of key/value members, in the order `read()`
 * builds them (the JSON text itself may order keys differently).
 */
module Json {
  import opened Wrappers

  /** The JSON values the serialisers produce: a store-assigned id or a string field. */
  datatype Value = Null | Int(i: int) | Str(s: string)

  datatype Member = Member(key: string, value: Value)

  /** A JSON object, in the key order of the dictionary `read()` returns. */
  type Object = seq<Member>

  /** The keys of an object, in order. */
  function Keys(o: Object): (ks: seq<string>)
    ensures |ks| == |o|
    ensures forall i :: 0 <= i < |o| ==> ks[i] == o[i].key
  {
    if o == [] then [] else [o[0].key] + Keys(o[1..])
  }

  /** The value stored under key `k` (the first one, as a dictionary holds one per key). */
  function Lookup(o: Object, k: string): Option<Value> {
    if o == [] then None
    else if o[0].key == k then Some(o[0].value)
    else Lookup(o[1..], k)
  }

  /** A key is found at its first position in the object. */
  lemma {:induction false} LookupAt(o: Object, i: nat)
    requires i < |o|
    requires forall j :: 0 <= j < i ==> o[j].key != o[i].key
    ensures Lookup(o, o[i].key) == Some(o[i].value)
  {
    if i > 0 {
      LookupAt(o[1..], i - 1);
    }
  }

  /** How a Python `id` attribute is serialised: `None` becomes JSON null. */
  function IdValue(id: Option<int>): Value {
    match id
    case None => Null
    case Some(n) => Int(n)
  }
}
