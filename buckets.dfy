/**
  An insertion-ordered `Map<number, number[]>` as the scans of the source use
  it (`seen` in the conflict scan, `where` in the hidden-single search): a key
  is set to `[x]` the first time it is met and later indices are pushed onto
  its list; iterating the map visits the keys in the order they were first set.
 */
module Buckets {

  /** The map's entries, in iteration (first-insertion) order. */
  type Buckets = seq<(int, seq<int>)>

  /** Position of the entry for key, or -1 when the map has none. */
  function Find(bs: Buckets, key: int): (p: int)
    ensures -1 <= p < |bs|
    ensures p == -1 <==> forall q :: 0 <= q < |bs| ==> bs[q].0 != key
    ensures p != -1 ==> bs[p].0 == key && forall q :: 0 <= q < p ==> bs[q].0 != key
  {
    if bs == [] then -1
    else if bs[0].0 == key then 0
    else
      var p := Find(bs[1..], key);
      if p == -1 then -1 else p + 1
  }

  /** `map.get(key) ?? []`. */
  function Get(bs: Buckets, key: int): seq<int>
  {
    var p := Find(bs, key);
    if p == -1 then [] else bs[p].1
  }

  /** `if (!map.has(key)) map.set(key, [x]); else map.get(key).push(x);` */
  function Push(bs: Buckets, key: int, x: int): (r: Buckets)
    ensures |r| == if Find(bs, key) == -1 then |bs| + 1 else |bs|
    ensures forall q :: 0 <= q < |bs| ==> r[q].0 == bs[q].0
    ensures Find(bs, key) == -1 ==> r[|bs|] == (key, [x])
  {
    var p := Find(bs, key);
    if p == -1 then bs + [(key, [x])] else bs[p := (key, bs[p].1 + [x])]
  }

  /** Each key has one entry. */
  predicate KeysDistinct(bs: Buckets)
  {
    forall p, q :: 0 <= p < q < |bs| ==> bs[p].0 != bs[q].0
  }

  /** Every list holds at least one index. */
  predicate ListsNonEmpty(bs: Buckets)
  {
    forall p :: 0 <= p < |bs| ==> bs[p].1 != []
  }

  /** Pushing appends x to the list of key and leaves every other list alone. */
  lemma PushGet(bs: Buckets, key: int, x: int, k: int)
    ensures Get(Push(bs, key, x), k) == if k == key then Get(bs, k) + [x] else Get(bs, k)
  {
    var p := Find(bs, key);
    var r := Push(bs, key, x);
    if p == -1 {
      if k == key {
        assert Find(r, k) == |bs|;
      } else {
        assert r[|bs|].0 != k;
        assert Find(r, k) == Find(bs, k);
      }
    } else {
      assert Find(r, k) == Find(bs, k);
    }
  }

  /** Pushing keeps one entry per key and no empty list. */
  lemma PushKeeps(bs: Buckets, key: int, x: int)
    requires KeysDistinct(bs) && ListsNonEmpty(bs)
    ensures KeysDistinct(Push(bs, key, x)) && ListsNonEmpty(Push(bs, key, x))
  {
  }

  /** With one entry per key, the entry at p is the one `get` finds for its key. */
  lemma GetEntry(bs: Buckets, p: int)
    requires KeysDistinct(bs) && 0 <= p < |bs|
    ensures Get(bs, bs[p].0) == bs[p].1
  {
  }

  /** A key with a non-empty list has an entry. */
  lemma GetFound(bs: Buckets, key: int)
    requires Get(bs, key) != []
    ensures Find(bs, key) != -1 && bs[Find(bs, key)] == (key, Get(bs, key))
  {
  }
}
