/** `PlatformStorage`: JSON values saved and loaded under string keys of the
    browser's durable storage, with every failure swallowed. */
module PlatformStorage {
  import opened Basics
  import opened Json

  /** The storage medium as seen through `JSON.stringify` / `JSON.parse`. */
  type Medium = map<string, Json>

  /** `saveData(key, data)`. `accepted` is false when the browser refuses the
      write (quota exceeded, storage disabled); the error is caught and the
      write is dropped. */
  function SaveData(m: Medium, key: string, data: Json, accepted: bool): (m': Medium)
    ensures accepted ==> key in m' && m'[key] == data
    ensures !accepted ==> m' == m
    ensures forall k :: k != key ==> (k in m' <==> k in m) && (k in m ==> m'[k] == m[k])
  {
    if accepted then m[key := data] else m
  }

  /** `loadData(key, defaultValue)`: the stored value, or the default when
      nothing is stored under the key. */
  function LoadData(m: Medium, key: string, default: Json): (r: Json)
    ensures key !in m ==> r == default
    ensures key in m ==> r == m[key]
  {
    if key in m then m[key] else default
  }

  /** Save then load returns what was saved. */
  lemma SaveLoadRoundTrip(m: Medium, key: string, data: Json, default: Json)
    ensures LoadData(SaveData(m, key, data, true), key, default) == data
  {
  }

  /** Saving under one key leaves every other key's load unchanged. */
  lemma SaveOtherKey(m: Medium, key: string, other: string, data: Json, accepted: bool, default: Json)
    requires other != key
    ensures LoadData(SaveData(m, key, data, accepted), other, default) == LoadData(m, other, default)
  {
  }

  /** A dropped write leaves every load unchanged. */
  lemma DroppedWrite(m: Medium, key: string, data: Json, k: string, default: Json)
    ensures LoadData(SaveData(m, key, data, false), k, default) == LoadData(m, k, default)
  {
  }

  /** A collection saved with `saveData` reloads as the same collection. */
  lemma CollectionRoundTrip(m: Medium, key: string, recs: seq<Record>, seed: seq<Record>)
    ensures DecodeList(LoadData(SaveData(m, key, EncodeList(recs), true), key, EncodeList(seed)))
         == Some(recs)
  {
    ListRoundTrip(recs);
  }
}
