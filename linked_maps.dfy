/** java.util.LinkedHashMap<String, String> as a value: the keys in insertion
    order and the key/value map. `Put` keeps a re-inserted key in its old
    position and overwrites its value, as LinkedHashMap.put does. */
module LinkedMaps {
  import opened Outcomes

  datatype LinkedMap = LinkedMap(keys: seq<string>, values: map<string, string>)

  /** The keys are distinct and are exactly the keys of the map. */
  ghost predicate Valid(m: LinkedMap) {
    && (forall i, j :: 0 <= i < j < |m.keys| ==> m.keys[i] != m.keys[j])
    && (forall k :: k in m.values <==> k in m.keys)
  }

  const Empty := LinkedMap([], map[])

  /** Map.get: the value stored under `k`, None for a missing key (Java's null). */
  function Get(m: LinkedMap, k: string): Option<string> {
    Lookup(m.values, k)
  }

  /** The value a plain map stores under `k`, None for a missing key. */
  function Lookup(v: map<string, string>, k: string): Option<string> {
    if k in v then Some(v[k]) else None
  }

  /** Map.values().contains(v). */
  predicate HasValue(m: LinkedMap, v: string) {
    v in m.values.Values
  }

  /** LinkedHashMap.put: a new key goes to the end of the order, an existing
      key keeps its place; either way `k` now maps to `v`. */
  function Put(m: LinkedMap, k: string, v: string): LinkedMap {
    LinkedMap(if k in m.values then m.keys else m.keys + [k], m.values[k := v])
  }

  /** What LinkedHashMap.put promises: `k` maps to `v`, every other key is as
      before, the order only grows by a new key at its end, and the map stays
      well formed. */
  lemma PutSpec(m: LinkedMap, k: string, v: string)
    requires Valid(m)
    ensures Valid(Put(m, k, v))
    ensures Get(Put(m, k, v), k) == Some(v)
    ensures forall k' :: k' != k ==> Get(Put(m, k, v), k') == Get(m, k')
    ensures k in m.values ==> Put(m, k, v).keys == m.keys
    ensures k !in m.values ==> Put(m, k, v).keys == m.keys + [k]
  {
  }

  /** The first occurrence of each element of `s`, in order: the key order a
      LinkedHashMap ends up with after the keys `s` are put one by one. */
  function Dedup(s: seq<string>): seq<string>
    decreases |s|
  {
    if s == [] then []
    else
      var front := s[..|s| - 1];
      if s[|s| - 1] in front then Dedup(front) else Dedup(front) + [s[|s| - 1]]
  }

  /** Dedup keeps every element once and adds none. */
  lemma {:induction false} DedupSpec(s: seq<string>)
    ensures forall x :: x in Dedup(s) <==> x in s
    ensures forall i, j :: 0 <= i < j < |Dedup(s)| ==> Dedup(s)[i] != Dedup(s)[j]
    decreases |s|
  {
    if s != [] {
      var front := s[..|s| - 1];
      DedupSpec(front);
      assert s == front + [s[|s| - 1]];
    }
  }

  /** Putting `k` into a map whose order is Dedup(s) gives the order
      Dedup(s + [k]); only whether `k` is already a key matters. */
  lemma PutOrder(m: LinkedMap, s: seq<string>, k: string, v: string)
    requires m.keys == Dedup(s) && (k in m.values <==> k in m.keys)
    ensures Put(m, k, v).keys == Dedup(s + [k])
  {
    DedupSpec(s);
    assert (s + [k])[..|s + [k]| - 1] == s;
  }
}
