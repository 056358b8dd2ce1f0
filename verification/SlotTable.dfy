/**
  Fixed tables of slots searched by key, read as finite maps. Directories, the name
  server and the shared-memory server all keep their entries this way.
 */
module SlotTable {

  datatype Slot<K, V> = Free | Used(key: K, value: V)

  predicate Holds<K(==), V>(ss: seq<Slot<K, V>>, i: nat, k: K)
  {
    i < |ss| && ss[i].Used? && ss[i].key == k
  }

  /** No key is held by two slots. */
  ghost predicate Distinct<K, V>(ss: seq<Slot<K, V>>)
  {
    forall i: nat, j: nat | i < |ss| && j < |ss| && ss[i].Used? && ss[j].Used? && ss[i].key == ss[j].key :: i == j
  }

  ghost function Keys<K, V>(ss: seq<Slot<K, V>>): set<K>
  {
    set i: nat | i < |ss| && ss[i].Used? :: ss[i].key
  }

  ghost function IndexOf<K, V>(ss: seq<Slot<K, V>>, k: K): (i: nat)
    requires k in Keys(ss)
    ensures Holds(ss, i, k)
  {
    var i: nat :| i < |ss| && ss[i].Used? && ss[i].key == k;
    i
  }

  /** The map a table stands for. */
  ghost function AsMap<K, V>(ss: seq<Slot<K, V>>): map<K, V>
  {
    map k | k in Keys(ss) :: ss[IndexOf(ss, k)].value
  }

  lemma HeldIsMapped<K, V>(ss: seq<Slot<K, V>>, i: nat, k: K)
    requires Distinct(ss) && Holds(ss, i, k)
    ensures k in AsMap(ss) && AsMap(ss)[k] == ss[i].value
  {
    assert ss[i].key in Keys(ss);
  }

  /** Index of the first slot that holds `k`, or the number of slots. */
  function Find<K(==), V>(ss: seq<Slot<K, V>>, k: K): (i: nat)
    ensures i <= |ss|
    ensures i < |ss| ==> Holds(ss, i, k)
    ensures forall j: nat | j < i :: !Holds(ss, j, k)
  {
    if ss == [] || (ss[0].Used? && ss[0].key == k) then 0
    else
      var r := Find(ss[1..], k);
      assert forall j: nat | 0 < j < 1 + r :: !Holds(ss[1..], j - 1, k) && Holds(ss, j, k) == Holds(ss[1..], j - 1, k);
      1 + r
  }

  /** The search finds exactly the keys of the map, with their values. */
  lemma {:induction false} FindIsLookup<K, V>(ss: seq<Slot<K, V>>, k: K)
    requires Distinct(ss)
    ensures k in AsMap(ss) <==> Find(ss, k) < |ss|
    ensures k in AsMap(ss) ==> AsMap(ss)[k] == ss[Find(ss, k)].value
  {
    if Find(ss, k) < |ss| { HeldIsMapped(ss, Find(ss, k), k); }
    if k in AsMap(ss) { assert Holds(ss, IndexOf(ss, k), k); }
  }

  /** Two tables that hold the same pairs stand for the same map. */
  lemma SameMap<K, V>(ss: seq<Slot<K, V>>, m: map<K, V>)
    requires Distinct(ss)
    requires forall i: nat, k: K | Holds(ss, i, k) :: k in m && m[k] == ss[i].value
    requires forall k: K | k in m :: exists i: nat :: Holds(ss, i, k)
    ensures AsMap(ss) == m
  {
    forall k: K | k in m ensures k in AsMap(ss) {
      var i: nat :| Holds(ss, i, k);
      HeldIsMapped(ss, i, k);
    }
  }

  /** Storing a new key in a free slot adds that pair to the map. */
  lemma StoreFree<K, V>(ss: seq<Slot<K, V>>, i: nat, k: K, v: V)
    requires Distinct(ss) && i < |ss| && ss[i].Free? && k !in AsMap(ss)
    ensures Distinct(ss[i := Used(k, v)])
    ensures AsMap(ss[i := Used(k, v)]) == AsMap(ss)[k := v]
  {
    var ss' := ss[i := Used(k, v)];
    forall j: nat, x: K | Holds(ss', j, x) ensures j == i || (Holds(ss, j, x) && x != k) {
      if j != i { HeldIsMapped(ss, j, x); }
    }
    var m := AsMap(ss)[k := v];
    forall j: nat, x: K | Holds(ss', j, x) ensures x in m && m[x] == ss'[j].value {
      if j != i { HeldIsMapped(ss, j, x); }
    }
    forall x: K | x in m ensures exists j: nat :: Holds(ss', j, x) {
      if x == k { assert Holds(ss', i, x); } else { assert Holds(ss', IndexOf(ss, x), x); }
    }
    SameMap(ss', m);
  }

  /** Appending a slot with a new key does the same. */
  lemma Append<K, V>(ss: seq<Slot<K, V>>, k: K, v: V)
    requires Distinct(ss) && k !in AsMap(ss)
    ensures Distinct(ss + [Used(k, v)])
    ensures AsMap(ss + [Used(k, v)]) == AsMap(ss)[k := v]
  {
    var wider: seq<Slot<K, V>> := ss + [Free];
    forall j: nat, x: K | Holds(wider, j, x) ensures x in AsMap(ss) && AsMap(ss)[x] == wider[j].value {
      HeldIsMapped(ss, j, x);
    }
    forall x: K | x in AsMap(ss) ensures exists j: nat :: Holds(wider, j, x) {
      assert Holds(wider, IndexOf(ss, x), x);
    }
    SameMap(wider, AsMap(ss));
    StoreFree(wider, |ss|, k, v);
    assert wider[|ss| := Used(k, v)] == ss + [Used(k, v)];
  }

  /** Releasing a slot removes its key and nothing else. */
  lemma Release<K, V>(ss: seq<Slot<K, V>>, i: nat)
    requires Distinct(ss) && i < |ss| && ss[i].Used?
    ensures Distinct(ss[i := Free])
    ensures AsMap(ss[i := Free]) == AsMap(ss) - {ss[i].key}
  {
    var ss': seq<Slot<K, V>> := ss[i := Free];
    var m := AsMap(ss) - {ss[i].key};
    forall j: nat, x: K | Holds(ss', j, x) ensures x in m && m[x] == ss'[j].value {
      HeldIsMapped(ss, j, x);
    }
    forall x: K | x in m ensures exists j: nat :: Holds(ss', j, x) {
      assert Holds(ss', IndexOf(ss, x), x);
    }
    SameMap(ss', m);
  }

  /** Changing the value in a slot changes the map at its key. */
  lemma Revalue<K, V>(ss: seq<Slot<K, V>>, i: nat, v: V)
    requires Distinct(ss) && i < |ss| && ss[i].Used?
    ensures Distinct(ss[i := Used(ss[i].key, v)])
    ensures AsMap(ss[i := Used(ss[i].key, v)]) == AsMap(ss)[ss[i].key := v]
  {
    var k := ss[i].key;
    var s1: seq<Slot<K, V>> := ss[i := Free];
    Release(ss, i);
    StoreFree(s1, i, k, v);
    assert s1[i := Used(k, v)] == ss[i := Used(k, v)];
    assert (AsMap(ss) - {k})[k := v] == AsMap(ss)[k := v] by { HeldIsMapped(ss, i, k); }
  }

  /** Number of used slots. */
  function UsedCount<K, V>(ss: seq<Slot<K, V>>): (n: nat)
    ensures n <= |ss|
  {
    if ss == [] then 0 else UsedCount(ss[..|ss| - 1]) + if ss[|ss| - 1].Used? then 1 else 0
  }

  lemma {:induction false} UsedCountFull<K, V>(ss: seq<Slot<K, V>>)
    ensures UsedCount(ss) == |ss| <==> forall i: nat | i < |ss| :: ss[i].Used?
    decreases |ss|
  {
    if ss != [] {
      var p := ss[..|ss| - 1];
      UsedCountFull(p);
      assert (forall i: nat | i < |ss| :: ss[i].Used?) <==> (forall i: nat | i < |p| :: p[i].Used?) && ss[|ss| - 1].Used?;
    }
  }

  lemma {:induction false} KeysCount<K, V>(ss: seq<Slot<K, V>>)
    requires Distinct(ss)
    ensures |Keys(ss)| == UsedCount(ss)
    decreases |ss|
  {
    if ss != [] {
      var p, x := ss[..|ss| - 1], ss[|ss| - 1];
      KeysCount(p);
      LastKey(ss);
    }
  }

  lemma LastKey<K, V>(ss: seq<Slot<K, V>>)
    requires ss != [] && Distinct(ss)
    ensures var p, x := ss[..|ss| - 1], ss[|ss| - 1];
      && Distinct(p)
      && (x.Used? ==> x.key !in Keys(p) && Keys(ss) == Keys(p) + {x.key})
      && (!x.Used? ==> Keys(ss) == Keys(p))
  {
    var p, x := ss[..|ss| - 1], ss[|ss| - 1];
    forall k | k in Keys(ss) ensures k in Keys(p) || (x.Used? && k == x.key) {
      var i: nat :| i < |ss| && ss[i].Used? && ss[i].key == k;
      assert i < |p| ==> p[i] == ss[i];
    }
    forall k | k in Keys(p) ensures k in Keys(ss) {
      var i: nat :| i < |p| && p[i].Used? && p[i].key == k;
      assert ss[i] == p[i];
    }
  }

  /** A table is full exactly when its map has as many keys as there are slots. */
  lemma FullIffCount<K, V>(ss: seq<Slot<K, V>>)
    requires Distinct(ss)
    ensures |AsMap(ss)| == |ss| <==> forall i: nat | i < |ss| :: ss[i].Used?
  {
    assert AsMap(ss).Keys == Keys(ss);
    KeysCount(ss);
    UsedCountFull(ss);
  }
}
