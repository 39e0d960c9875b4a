/** The JSON values the platform keeps in storage, and the object-spread
    operator its managers use to build records. */
module Json {
  import opened Basics

  /** A JSON value; numbers are the integers the platform stores (ids taken
      from `Date.now()`, counters). */
  datatype Json =
    | JNull
    | JBool(b: bool)
    | JNum(n: int)
    | JStr(s: string)
    | JArr(items: seq<Json>)
    | JObj(fields: map<string, Json>)

  /** A JavaScript object literal with JSON-valued own properties. */
  type Record = map<string, Json>

  /** `{...base, ...over}`: the keys of both, and `over` wins on a clash. */
  function Spread(base: Record, over: Record): (r: Record)
    ensures r.Keys == base.Keys + over.Keys
    ensures forall k :: k in over ==> r[k] == over[k]
    ensures forall k :: k in base && k !in over ==> r[k] == base[k]
  {
    base + over
  }

  /** `rec.key`, with `undefined` as `None`. */
  function Get(rec: Record, key: string): Option<Json> {
    if key in rec then Some(rec[key]) else None
  }

  /** JavaScript truthiness of a property value. */
  predicate Truthy(v: Option<Json>) {
    match v
    case None => false
    case Some(JNull) => false
    case Some(JBool(b)) => b
    case Some(JNum(n)) => n != 0
    case Some(JStr(s)) => s != ""
    case Some(_) => true
  }

  /** A collection of records as the JSON array it is stored as. */
  function EncodeList(recs: seq<Record>): (j: Json)
    ensures j.JArr? && |j.items| == |recs|
  {
    JArr(seq(|recs|, i requires 0 <= i < |recs| => JObj(recs[i])))
  }

  /** Reads a stored JSON array back as a collection of records. */
  function DecodeList(j: Json): Option<seq<Record>> {
    if j.JArr? && forall i :: 0 <= i < |j.items| ==> j.items[i].JObj? then
      Some(seq(|j.items|, i requires 0 <= i < |j.items| => j.items[i].fields))
    else
      None
  }

  /** A stored collection reads back exactly as it was written. */
  lemma ListRoundTrip(recs: seq<Record>)
    ensures DecodeList(EncodeList(recs)) == Some(recs)
  {
    var j := EncodeList(recs);
    assert forall i :: 0 <= i < |j.items| ==> j.items[i] == JObj(recs[i]);
    var back := seq(|j.items|, i requires 0 <= i < |j.items| => j.items[i].fields);
    assert back == recs;
  }

  /** A JSON array that decodes re-encodes to itself. */
  lemma ListRoundTripBack(j: Json)
    requires DecodeList(j).Some?
    ensures EncodeList(DecodeList(j).value) == j
  {
    var recs := DecodeList(j).value;
    assert EncodeList(recs).items == j.items;
  }
}
