/** An insertion-ordered table from string ids to values: the JavaScript `Map`
    the belief stores use.  Setting an existing key keeps its place, setting a
    new key appends it, and iteration follows that order. */
module Table {
  import opened Base

  type Table<V> = seq<(string, V)>

  predicate HasKey<V>(t: Table<V>, k: string) {
    exists i :: 0 <= i < |t| && t[i].0 == k
  }

  predicate UniqueKeys<V>(t: Table<V>) {
    forall i, j :: 0 <= i < j < |t| ==> t[i].0 != t[j].0
  }

  function Keys<V>(t: Table<V>): (ks: seq<string>)
    ensures |ks| == |t|
    ensures forall i :: 0 <= i < |t| ==> ks[i] == t[i].0
  {
    if |t| == 0 then [] else [t[0].0] + Keys(t[1..])
  }

  function Values<V>(t: Table<V>): (vs: seq<V>)
    ensures |vs| == |t|
    ensures forall i :: 0 <= i < |t| ==> vs[i] == t[i].1
  {
    if |t| == 0 then [] else [t[0].1] + Values(t[1..])
  }

  /** Position of key `k`, if present. */
  function IndexOf<V>(t: Table<V>, k: string): (r: Option<nat>)
    ensures r.None? <==> !HasKey(t, k)
    ensures r.Some? ==> r.value < |t| && t[r.value].0 == k
    ensures r.Some? ==> forall j :: 0 <= j < r.value ==> t[j].0 != k
  {
    if |t| == 0 then None
    else if t[0].0 == k then Some(0)
    else match IndexOf(t[1..], k)
      case None => None
      case Some(i) => Some(i + 1)
  }

  /** `Map.get`, or null when the key is absent. */
  function Get<V>(t: Table<V>, k: string): (r: Option<V>)
    requires UniqueKeys(t)
    ensures r.None? <==> !HasKey(t, k)
    ensures forall i :: 0 <= i < |t| && t[i].0 == k ==> r == Some(t[i].1)
  {
    match IndexOf(t, k)
    case None => None
    case Some(i) => Some(t[i].1)
  }

  /** `Map.set`: overwrite in place when present, append otherwise. */
  function Set<V>(t: Table<V>, k: string, v: V): (r: Table<V>)
    requires UniqueKeys(t)
    ensures UniqueKeys(r)
    ensures HasKey(t, k) ==> |r| == |t| && forall i :: 0 <= i < |t| ==>
      r[i] == if t[i].0 == k then (k, v) else t[i]
    ensures !HasKey(t, k) ==> r == t + [(k, v)]
    ensures forall k' :: HasKey(r, k') <==> HasKey(t, k') || k' == k
  {
    match IndexOf(t, k)
    case None =>
      var r := t + [(k, v)];
      assert r[|t|].0 == k;
      assert forall i :: 0 <= i < |t| ==> r[i] == t[i];
      r
    case Some(i) => t[i := (k, v)]
  }
}
