/** The demo driver's scenario (Program.cs:29-46): nine additions whose pairs share a left
    or a right key, then lookups and by-axis scans. The demo's key type hashes a GUID and a
    string; here the keys are any three left keys and the right keys 1, 2 and 3, under any
    lawful comparers that tell them apart. */
module Demo {
  import opened Wrappers
  import opened Comparers
  import opened DoubleKeyDictionary
  import opened DictionaryProperties

  /** A run of insertions with non-null keys, stopping at the first failure. */
  function InsertAll<L(!new), R(!new), V>(t: Table<L, R, V>, adds: seq<(L, R, V)>): (res: Result<Table<L, R, V>, Error>)
    requires WellFormed(t)
    ensures res.Ok? ==> WellFormed(res.value)
    ensures res.Err? ==> res.error == DuplicateKey
    decreases |adds|
  {
    if adds == [] then Ok(t)
    else match Insert(t, Some(adds[0].0), Some(adds[0].1), adds[0].2)
      case Err(e) => Err(e)
      case Ok(t') => InsertAll(t', adds[1..])
  }

  /** The map a run of insertions with pairwise distinct pairs should produce. */
  ghost function AddsMap<L, R, V>(adds: seq<(L, R, V)>): map<(L, R), V>
    decreases |adds|
  {
    if adds == [] then map[] else map[(adds[0].0, adds[0].1) := adds[0].2] + AddsMap(adds[1..])
  }

  /** No two insertions of the run name the same pair under the comparers. */
  ghost predicate DistinctAdds<L, R, V>(lc: Comparer<L>, rc: Comparer<R>, adds: seq<(L, R, V)>) {
    forall a, b :: 0 <= a < b < |adds| ==> !(lc.eq(adds[a].0, adds[b].0) && rc.eq(adds[a].1, adds[b].1))
  }

  /** No insertion of the run names a pair already stored. */
  ghost predicate FreshAdds<L, R, V>(t: Table<L, R, V>, adds: seq<(L, R, V)>) {
    forall p, a :: p in Contents(t) && 0 <= a < |adds| ==> !Equivalent(t, p, adds[a].0, adds[a].1)
  }

  /** Dropping the first insertion keeps the rest pairwise distinct. */
  lemma DistinctTail<L, R, V>(lc: Comparer<L>, rc: Comparer<R>, adds: seq<(L, R, V)>)
    requires |adds| > 0 && DistinctAdds(lc, rc, adds)
    ensures DistinctAdds(lc, rc, adds[1..])
  {
    var rest := adds[1..];
    forall a, b | 0 <= a < b < |rest|
      ensures !(lc.eq(rest[a].0, rest[b].0) && rc.eq(rest[a].1, rest[b].1))
    {
      assert rest[a] == adds[a + 1] && rest[b] == adds[b + 1];
    }
  }

  /** After the first insertion of a distinct, fresh run, the rest of the run is still fresh. */
  lemma FreshTail<L(!new), R(!new), V>(t: Table<L, R, V>, t': Table<L, R, V>, adds: seq<(L, R, V)>)
    requires |adds| > 0
    requires DistinctAdds(t.leftComparer, t.rightComparer, adds) && FreshAdds(t, adds)
    requires t'.leftComparer == t.leftComparer && t'.rightComparer == t.rightComparer
    requires Contents(t') == Contents(t)[(adds[0].0, adds[0].1) := adds[0].2]
    ensures FreshAdds(t', adds[1..])
  {
    var rest := adds[1..];
    forall p, a | p in Contents(t') && 0 <= a < |rest|
      ensures !Equivalent(t', p, rest[a].0, rest[a].1)
    {
      assert rest[a] == adds[a + 1];
      if p != (adds[0].0, adds[0].1) {
        assert p in Contents(t);
      }
    }
  }

  /** Updating a map and then adding `rest` is adding the update followed by `rest`. */
  lemma UpdateThenUnion<K, V>(c: map<K, V>, k: K, v: V, rest: map<K, V>)
    ensures c[k := v] + rest == c + (map[k := v] + rest)
  {
  }

  /** Pair independence for a whole run: insertions of pairwise distinct, fresh pairs all
      succeed, however many keys they share on one axis, and the table ends up holding
      exactly the old pairs plus the inserted ones. */
  lemma {:induction false} InsertAllDistinct<L(!new), R(!new), V>(t: Table<L, R, V>, adds: seq<(L, R, V)>)
    requires Valid(t)
    requires DistinctAdds(t.leftComparer, t.rightComparer, adds)
    requires FreshAdds(t, adds)
    ensures var res := InsertAll(t, adds);
      && res.Ok?
      && Valid(res.value)
      && res.value.leftComparer == t.leftComparer && res.value.rightComparer == t.rightComparer
      && Contents(res.value) == Contents(t) + AddsMap(adds)
    decreases |adds|
  {
    if adds != [] {
      var l, r, v := adds[0].0, adds[0].1, adds[0].2;
      InsertMeaning(t, l, r, v);
      assert !HasEquivalent(t, l, r);
      var t' := Insert(t, Some(l), Some(r), v).value;
      DistinctTail(t.leftComparer, t.rightComparer, adds);
      FreshTail(t, t', adds);
      InsertAllDistinct(t', adds[1..]);
      UpdateThenUnion(Contents(t), (l, r), v, AddsMap(adds[1..]));
    }
  }

  /** `m` maps the pair of every insertion of the run to its value, and holds no other pair. */
  ghost predicate HoldsRun<L, R, V>(m: map<(L, R), V>, adds: seq<(L, R, V)>) {
    && (forall a :: 0 <= a < |adds| ==> (adds[a].0, adds[a].1) in m && m[(adds[a].0, adds[a].1)] == adds[a].2)
    && (forall p :: p in m ==> exists a :: 0 <= a < |adds| && p == (adds[a].0, adds[a].1))
  }

  /** For a run of pairwise distinct insertions, `AddsMap` holds exactly the run: no later
      insertion overrides an earlier one. */
  lemma {:induction false} AddsMapHoldsRun<L(!new), R(!new), V>(lc: Comparer<L>, rc: Comparer<R>, adds: seq<(L, R, V)>)
    requires Lawful(lc) && Lawful(rc) && DistinctAdds(lc, rc, adds)
    ensures HoldsRun(AddsMap(adds), adds)
    decreases |adds|
  {
    if adds != [] {
      var rest := adds[1..];
      var k := (adds[0].0, adds[0].1);
      DistinctTail(lc, rc, adds);
      AddsMapHoldsRun(lc, rc, rest);
      assert k !in AddsMap(rest);
      forall a | 0 <= a < |adds|
        ensures (adds[a].0, adds[a].1) in AddsMap(adds) && AddsMap(adds)[(adds[a].0, adds[a].1)] == adds[a].2
      {
        if a > 0 {
          assert adds[a] == rest[a - 1];
        }
      }
      forall p | p in AddsMap(adds)
        ensures exists a :: 0 <= a < |adds| && p == (adds[a].0, adds[a].1)
      {
        if p != k {
          var b :| 0 <= b < |rest| && p == (rest[b].0, rest[b].1);
          assert rest[b] == adds[b + 1];
        }
      }
    }
  }

  /** Every run is fresh for an empty table, and adds nothing to it but its own pairs. */
  lemma EmptyStart<L(!new), R(!new), V>(t: Table<L, R, V>, adds: seq<(L, R, V)>)
    requires Contents(t) == map[]
    ensures FreshAdds(t, adds)
    ensures Contents(t) + AddsMap(adds) == AddsMap(adds)
  {
  }

  /** A run of pairwise distinct insertions into a new table all succeed, and the table then
      holds exactly the run's pairs with their values. */
  lemma RunFromEmpty<L(!new), R(!new), V>(lc: Comparer<L>, rc: Comparer<R>, getPrime: int -> Positive, adds: seq<(L, R, V)>)
    requires Lawful(lc) && Lawful(rc) && DistinctAdds(lc, rc, adds)
    ensures var res := InsertAll(New(0, lc, rc, getPrime), adds);
      && res.Ok? && Valid(res.value)
      && res.value.leftComparer == lc && res.value.rightComparer == rc
      && HoldsRun(Contents(res.value), adds)
  {
    var t0: Table<L, R, V> := New(0, lc, rc, getPrime);
    EmptyStart(t0, adds);
    InsertAllDistinct(t0, adds);
    AddsMapHoldsRun(lc, rc, adds);
  }

  /** After a run, every insertion of the run is found with its own value. */
  lemma LookupsOfRun<L(!new), R(!new), V>(t: Table<L, R, V>, adds: seq<(L, R, V)>)
    requires Valid(t) && HoldsRun(Contents(t), adds)
    ensures forall a :: 0 <= a < |adds| ==> TryGetValue(t, adds[a].0, adds[a].1) == Some(adds[a].2)
  {
    forall a | 0 <= a < |adds|
      ensures TryGetValue(t, adds[a].0, adds[a].1) == Some(adds[a].2)
    {
      LookupStored(t, adds[a].0, adds[a].1);
    }
  }

  /** Scanning by left key `l` yields exactly the values of the run's insertions whose left
      key is equivalent to `l`. */
  ghost predicate LeftScanShows<L(!new), R(!new), V>(t: Table<L, R, V>, adds: seq<(L, R, V)>, l: L)
    requires WellFormed(t)
  {
    && (forall v :: v in ValuesByLeftKey(t, l) ==>
          exists a :: 0 <= a < |adds| && t.leftComparer.eq(adds[a].0, l) && adds[a].2 == v)
    && (forall a :: 0 <= a < |adds| && t.leftComparer.eq(adds[a].0, l) ==> adds[a].2 in ValuesByLeftKey(t, l))
  }

  /** Scanning by right key `r` yields exactly the values of the run's insertions whose right
      key is equivalent to `r`. */
  ghost predicate RightScanShows<L(!new), R(!new), V>(t: Table<L, R, V>, adds: seq<(L, R, V)>, r: R)
    requires WellFormed(t)
  {
    && (forall v :: v in ValuesByRightKey(t, r) ==>
          exists a :: 0 <= a < |adds| && t.rightComparer.eq(adds[a].1, r) && adds[a].2 == v)
    && (forall a :: 0 <= a < |adds| && t.rightComparer.eq(adds[a].1, r) ==> adds[a].2 in ValuesByRightKey(t, r))
  }

  /** After a run, scanning by a left key yields exactly the run's values under that key. */
  lemma LeftScanOfRun<L(!new), R(!new), V>(t: Table<L, R, V>, adds: seq<(L, R, V)>, l: L)
    requires Valid(t) && HoldsRun(Contents(t), adds)
    ensures LeftScanShows(t, adds, l)
  {
    forall v | v in ValuesByLeftKey(t, l)
      ensures exists a :: 0 <= a < |adds| && t.leftComparer.eq(adds[a].0, l) && adds[a].2 == v
    {
      ValuesByLeftKeyMeaning(t, l, v);
      var p :| p in Contents(t) && t.leftComparer.eq(p.0, l) && Contents(t)[p] == v;
      var a :| 0 <= a < |adds| && p == (adds[a].0, adds[a].1);
    }
    forall a | 0 <= a < |adds| && t.leftComparer.eq(adds[a].0, l)
      ensures adds[a].2 in ValuesByLeftKey(t, l)
    {
      ValuesByLeftKeyMeaning(t, l, adds[a].2);
      var p := (adds[a].0, adds[a].1);
      assert p in Contents(t) && Contents(t)[p] == adds[a].2;
    }
  }

  /** After a run, scanning by a right key yields exactly the run's values under that key. */
  lemma RightScanOfRun<L(!new), R(!new), V>(t: Table<L, R, V>, adds: seq<(L, R, V)>, r: R)
    requires Valid(t) && HoldsRun(Contents(t), adds)
    ensures RightScanShows(t, adds, r)
  {
    forall v | v in ValuesByRightKey(t, r)
      ensures exists a :: 0 <= a < |adds| && t.rightComparer.eq(adds[a].1, r) && adds[a].2 == v
    {
      ValuesByRightKeyMeaning(t, r, v);
      var p :| p in Contents(t) && t.rightComparer.eq(p.1, r) && Contents(t)[p] == v;
      var a :| 0 <= a < |adds| && p == (adds[a].0, adds[a].1);
    }
    forall a | 0 <= a < |adds| && t.rightComparer.eq(adds[a].1, r)
      ensures adds[a].2 in ValuesByRightKey(t, r)
    {
      ValuesByRightKeyMeaning(t, r, adds[a].2);
      var p := (adds[a].0, adds[a].1);
      assert p in Contents(t) && Contents(t)[p] == adds[a].2;
    }
  }

  /** `expected` holds exactly the values of the run's insertions whose left key is
      equivalent to `l`. */
  ghost predicate LeftValuesAre<L, R, V>(lc: Comparer<L>, adds: seq<(L, R, V)>, l: L, expected: set<V>) {
    && (forall a :: 0 <= a < |adds| && lc.eq(adds[a].0, l) ==> adds[a].2 in expected)
    && (forall v :: v in expected ==> exists a :: 0 <= a < |adds| && lc.eq(adds[a].0, l) && adds[a].2 == v)
  }

  /** `expected` holds exactly the values of the run's insertions whose right key is
      equivalent to `r`. */
  ghost predicate RightValuesAre<L, R, V>(rc: Comparer<R>, adds: seq<(L, R, V)>, r: R, expected: set<V>) {
    && (forall a :: 0 <= a < |adds| && rc.eq(adds[a].1, r) ==> adds[a].2 in expected)
    && (forall v :: v in expected ==> exists a :: 0 <= a < |adds| && rc.eq(adds[a].1, r) && adds[a].2 == v)
  }

  /** A left scan of a table that shows a run, read off for one key. */
  lemma LeftScanIs<L(!new), R(!new), V>(t: Table<L, R, V>, adds: seq<(L, R, V)>, l: L, expected: set<V>)
    requires WellFormed(t) && LeftScanShows(t, adds, l) && LeftValuesAre(t.leftComparer, adds, l, expected)
    ensures forall v :: v in ValuesByLeftKey(t, l) <==> v in expected
  {
  }

  /** A right scan of a table that shows a run, read off for one key. */
  lemma RightScanIs<L(!new), R(!new), V>(t: Table<L, R, V>, adds: seq<(L, R, V)>, r: R, expected: set<V>)
    requires WellFormed(t) && RightScanShows(t, adds, r) && RightValuesAre(t.rightComparer, adds, r, expected)
    ensures forall v :: v in ValuesByRightKey(t, r) <==> v in expected
  {
  }

  /** A sequence whose members are exactly those of `e` has `e` as its set of elements. */
  lemma ElementsAre<V>(s: seq<V>, e: set<V>)
    requires forall v :: v in s <==> v in e
    ensures (set v | v in s) == e
  {
  }

  /** The nine additions of the demo, in order. */
  function DemoAdds<K>(k1: K, k2: K, k3: K): seq<(K, int, int)> {
    [(k1, 1, 1), (k2, 1, 2), (k3, 1, 3), (k1, 2, 4), (k1, 3, 5), (k2, 2, 7), (k2, 3, 8), (k3, 2, 10), (k3, 3, 11)]
  }

  /** The three left keys are pairwise different, and so are the right keys 1, 2 and 3. */
  ghost predicate DemoKeysDiffer<K>(lc: Comparer<K>, rc: Comparer<int>, k1: K, k2: K, k3: K) {
    && !lc.eq(k1, k2) && !lc.eq(k1, k3) && !lc.eq(k2, k3)
    && !rc.eq(1, 2) && !rc.eq(1, 3) && !rc.eq(2, 3)
  }

  /** Every demo key is equivalent to itself and to no other demo key of its axis, in either
      argument order: the comparer facts the concrete demo reasoning uses. */
  ghost predicate DemoKeysApart<K>(lc: Comparer<K>, rc: Comparer<int>, k1: K, k2: K, k3: K) {
    && lc.eq(k1, k1) && lc.eq(k2, k2) && lc.eq(k3, k3)
    && rc.eq(1, 1) && rc.eq(2, 2) && rc.eq(3, 3)
    && !lc.eq(k1, k2) && !lc.eq(k1, k3) && !lc.eq(k2, k3)
    && !lc.eq(k2, k1) && !lc.eq(k3, k1) && !lc.eq(k3, k2)
    && !rc.eq(1, 2) && !rc.eq(1, 3) && !rc.eq(2, 3)
    && !rc.eq(2, 1) && !rc.eq(3, 1) && !rc.eq(3, 2)
  }

  /** Under lawful comparers, keys that differ one way round differ both ways round. */
  lemma DifferMeansApart<K(!new)>(lc: Comparer<K>, rc: Comparer<int>, k1: K, k2: K, k3: K)
    requires Lawful(lc) && Lawful(rc) && DemoKeysDiffer(lc, rc, k1, k2, k3)
    ensures DemoKeysApart(lc, rc, k1, k2, k3)
  {
  }

  /** The nine additions of the demo name nine different pairs. */
  lemma DemoAddsDistinct<K>(lc: Comparer<K>, rc: Comparer<int>, k1: K, k2: K, k3: K)
    requires DemoKeysApart(lc, rc, k1, k2, k3)
    ensures DistinctAdds(lc, rc, DemoAdds(k1, k2, k3))
  {
  }

  /** The left keys the driver scans by, each with the values its comments expect. */
  ghost predicate DemoLeftScan<K>(k1: K, k2: K, k3: K, l: K, expected: set<int>) {
    || (l == k1 && expected == {1, 4, 5})
    || (l == k2 && expected == {2, 7, 8})
    || (l == k3 && expected == {3, 10, 11})
  }

  /** The right keys the driver scans by, each with the values its comments expect. */
  predicate DemoRightScan(r: int, expected: set<int>) {
    || (r == 1 && expected == {1, 2, 3})
    || (r == 2 && expected == {4, 7, 10})
    || (r == 3 && expected == {5, 8, 11})
  }

  /** Read off the run: the values the demo stores under one of its left keys. */
  lemma DemoLeftValues<K>(lc: Comparer<K>, rc: Comparer<int>, k1: K, k2: K, k3: K, l: K, expected: set<int>)
    requires DemoKeysApart(lc, rc, k1, k2, k3) && DemoLeftScan(k1, k2, k3, l, expected)
    ensures LeftValuesAre(lc, DemoAdds(k1, k2, k3), l, expected)
  {
    var adds := DemoAdds(k1, k2, k3);
    assert adds[0] == (k1, 1, 1) && adds[1] == (k2, 1, 2) && adds[2] == (k3, 1, 3);
    assert adds[3] == (k1, 2, 4) && adds[4] == (k1, 3, 5) && adds[5] == (k2, 2, 7);
    assert adds[6] == (k2, 3, 8) && adds[7] == (k3, 2, 10) && adds[8] == (k3, 3, 11);
  }

  /** Read off the run: the values the demo stores under one of its right keys. */
  lemma DemoRightValues<K>(lc: Comparer<K>, rc: Comparer<int>, k1: K, k2: K, k3: K, r: int, expected: set<int>)
    requires DemoKeysApart(lc, rc, k1, k2, k3) && DemoRightScan(r, expected)
    ensures RightValuesAre(rc, DemoAdds(k1, k2, k3), r, expected)
  {
    var adds := DemoAdds(k1, k2, k3);
    assert adds[0] == (k1, 1, 1) && adds[1] == (k2, 1, 2) && adds[2] == (k3, 1, 3);
    assert adds[3] == (k1, 2, 4) && adds[4] == (k1, 3, 5) && adds[5] == (k2, 2, 7);
    assert adds[6] == (k2, 3, 8) && adds[7] == (k3, 2, 10) && adds[8] == (k3, 3, 11);
  }

  /** Read off the run: a table that finds every insertion of the demo's run answers the
      driver's nine lookups. */
  lemma ReadDemoLookups<K(!new)>(t: Table<K, int, int>, k1: K, k2: K, k3: K)
    requires WellFormed(t)
    requires var adds := DemoAdds(k1, k2, k3);
      forall a :: 0 <= a < |adds| ==> TryGetValue(t, adds[a].0, adds[a].1) == Some(adds[a].2)
    ensures TryGetValue(t, k1, 1) == Some(1) && TryGetValue(t, k2, 1) == Some(2) && TryGetValue(t, k3, 1) == Some(3)
    ensures TryGetValue(t, k1, 2) == Some(4) && TryGetValue(t, k1, 3) == Some(5) && TryGetValue(t, k2, 2) == Some(7)
    ensures TryGetValue(t, k2, 3) == Some(8) && TryGetValue(t, k3, 2) == Some(10) && TryGetValue(t, k3, 3) == Some(11)
  {
    var adds := DemoAdds(k1, k2, k3);
    assert adds[0] == (k1, 1, 1) && adds[1] == (k2, 1, 2) && adds[2] == (k3, 1, 3);
    assert adds[3] == (k1, 2, 4) && adds[4] == (k1, 3, 5) && adds[5] == (k2, 2, 7);
    assert adds[6] == (k2, 3, 8) && adds[7] == (k3, 2, 10) && adds[8] == (k3, 3, 11);
  }

  /** A table holding exactly the demo's run answers the driver's nine lookups. */
  lemma DemoTableLookups<K(!new)>(t: Table<K, int, int>, k1: K, k2: K, k3: K)
    requires Valid(t) && HoldsRun(Contents(t), DemoAdds(k1, k2, k3))
    ensures TryGetValue(t, k1, 1) == Some(1) && TryGetValue(t, k2, 1) == Some(2) && TryGetValue(t, k3, 1) == Some(3)
    ensures TryGetValue(t, k1, 2) == Some(4) && TryGetValue(t, k1, 3) == Some(5) && TryGetValue(t, k2, 2) == Some(7)
    ensures TryGetValue(t, k2, 3) == Some(8) && TryGetValue(t, k3, 2) == Some(10) && TryGetValue(t, k3, 3) == Some(11)
  {
    LookupsOfRun(t, DemoAdds(k1, k2, k3));
    ReadDemoLookups(t, k1, k2, k3);
  }

  /** The demo's additions all succeed on a new table, and each of the nine pairs is then
      found with its own value. */
  lemma DemoLookups<K(!new)>(lc: Comparer<K>, rc: Comparer<int>, getPrime: int -> Positive, k1: K, k2: K, k3: K)
    requires Lawful(lc) && Lawful(rc) && DemoKeysDiffer(lc, rc, k1, k2, k3)
    ensures var res := InsertAll(New(0, lc, rc, getPrime), DemoAdds(k1, k2, k3));
      && res.Ok?
      && var t := res.value;
      && TryGetValue(t, k1, 1) == Some(1) && TryGetValue(t, k2, 1) == Some(2) && TryGetValue(t, k3, 1) == Some(3)
      && TryGetValue(t, k1, 2) == Some(4) && TryGetValue(t, k1, 3) == Some(5) && TryGetValue(t, k2, 2) == Some(7)
      && TryGetValue(t, k2, 3) == Some(8) && TryGetValue(t, k3, 2) == Some(10) && TryGetValue(t, k3, 3) == Some(11)
  {
    var adds := DemoAdds(k1, k2, k3);
    DifferMeansApart(lc, rc, k1, k2, k3);
    DemoAddsDistinct(lc, rc, k1, k2, k3);
    RunFromEmpty(lc, rc, getPrime, adds);
    DemoTableLookups(InsertAll(New(0, lc, rc, getPrime), adds).value, k1, k2, k3);
  }

  /** After the demo's additions, a scan by one of the driver's left keys yields the values
      its comments expect. */
  lemma DemoLeftScanYields<K(!new)>(
    lc: Comparer<K>, rc: Comparer<int>, getPrime: int -> Positive, k1: K, k2: K, k3: K, l: K, expected: set<int>)
    requires Lawful(lc) && Lawful(rc) && DemoKeysDiffer(lc, rc, k1, k2, k3)
    requires DemoLeftScan(k1, k2, k3, l, expected)
    ensures var res := InsertAll(New(0, lc, rc, getPrime), DemoAdds(k1, k2, k3));
      res.Ok? && (set v | v in ValuesByLeftKey(res.value, l)) == expected
  {
    var adds := DemoAdds(k1, k2, k3);
    DifferMeansApart(lc, rc, k1, k2, k3);
    DemoAddsDistinct(lc, rc, k1, k2, k3);
    RunFromEmpty(lc, rc, getPrime, adds);
    var t := InsertAll(New(0, lc, rc, getPrime), adds).value;
    LeftScanOfRun(t, adds, l);
    DemoLeftValues(lc, rc, k1, k2, k3, l, expected);
    LeftScanIs(t, adds, l, expected);
    ElementsAre(ValuesByLeftKey(t, l), expected);
  }

  /** After the demo's additions, a scan by one of the driver's right keys yields the values
      its comments expect. */
  lemma DemoRightScanYields<K(!new)>(
    lc: Comparer<K>, rc: Comparer<int>, getPrime: int -> Positive, k1: K, k2: K, k3: K, r: int, expected: set<int>)
    requires Lawful(lc) && Lawful(rc) && DemoKeysDiffer(lc, rc, k1, k2, k3)
    requires DemoRightScan(r, expected)
    ensures var res := InsertAll(New(0, lc, rc, getPrime), DemoAdds(k1, k2, k3));
      res.Ok? && (set v | v in ValuesByRightKey(res.value, r)) == expected
  {
    var adds := DemoAdds(k1, k2, k3);
    DifferMeansApart(lc, rc, k1, k2, k3);
    DemoAddsDistinct(lc, rc, k1, k2, k3);
    RunFromEmpty(lc, rc, getPrime, adds);
    var t := InsertAll(New(0, lc, rc, getPrime), adds).value;
    RightScanOfRun(t, adds, r);
    DemoRightValues(lc, rc, k1, k2, k3, r, expected);
    RightScanIs(t, adds, r, expected);
    ElementsAre(ValuesByRightKey(t, r), expected);
  }

  /** The demo's by-axis scans: after the nine additions, each scan returns the set the
      driver's comments expect. */
  lemma DemoScans<K(!new)>(lc: Comparer<K>, rc: Comparer<int>, getPrime: int -> Positive, k1: K, k2: K, k3: K)
    requires Lawful(lc) && Lawful(rc) && DemoKeysDiffer(lc, rc, k1, k2, k3)
    ensures var res := InsertAll(New(0, lc, rc, getPrime), DemoAdds(k1, k2, k3));
      && res.Ok?
      && var t := res.value;
      && (set v | v in ValuesByLeftKey(t, k1)) == {1, 4, 5}
      && (set v | v in ValuesByLeftKey(t, k2)) == {2, 7, 8}
      && (set v | v in ValuesByLeftKey(t, k3)) == {3, 10, 11}
      && (set v | v in ValuesByRightKey(t, 1)) == {1, 2, 3}
      && (set v | v in ValuesByRightKey(t, 2)) == {4, 7, 10}
      && (set v | v in ValuesByRightKey(t, 3)) == {5, 8, 11}
  {
    DemoLeftScanYields(lc, rc, getPrime, k1, k2, k3, k1, {1, 4, 5});
    DemoLeftScanYields(lc, rc, getPrime, k1, k2, k3, k2, {2, 7, 8});
    DemoLeftScanYields(lc, rc, getPrime, k1, k2, k3, k3, {3, 10, 11});
    DemoRightScanYields(lc, rc, getPrime, k1, k2, k3, 1, {1, 2, 3});
    DemoRightScanYields(lc, rc, getPrime, k1, k2, k3, 2, {4, 7, 10});
    DemoRightScanYields(lc, rc, getPrime, k1, k2, k3, 3, {5, 8, 11});
  }

  /** The demo end to end: every addition succeeds, every pair is found with its value, and
      the by-axis scans return the sets the driver's comments expect. */
  lemma DemoScenario<K(!new)>(lc: Comparer<K>, rc: Comparer<int>, getPrime: int -> Positive, k1: K, k2: K, k3: K)
    requires Lawful(lc) && Lawful(rc) && DemoKeysDiffer(lc, rc, k1, k2, k3)
    ensures var res := InsertAll(New(0, lc, rc, getPrime), DemoAdds(k1, k2, k3));
      && res.Ok?
      && var t := res.value;
      && TryGetValue(t, k1, 1) == Some(1) && TryGetValue(t, k2, 1) == Some(2) && TryGetValue(t, k3, 1) == Some(3)
      && TryGetValue(t, k1, 2) == Some(4) && TryGetValue(t, k1, 3) == Some(5) && TryGetValue(t, k2, 2) == Some(7)
      && TryGetValue(t, k2, 3) == Some(8) && TryGetValue(t, k3, 2) == Some(10) && TryGetValue(t, k3, 3) == Some(11)
      && (set v | v in ValuesByLeftKey(t, k1)) == {1, 4, 5}
      && (set v | v in ValuesByLeftKey(t, k2)) == {2, 7, 8}
      && (set v | v in ValuesByLeftKey(t, k3)) == {3, 10, 11}
      && (set v | v in ValuesByRightKey(t, 1)) == {1, 2, 3}
      && (set v | v in ValuesByRightKey(t, 2)) == {4, 7, 10}
      && (set v | v in ValuesByRightKey(t, 3)) == {5, 8, 11}
  {
    DemoLookups(lc, rc, getPrime, k1, k2, k3);
    DemoScans(lc, rc, getPrime, k1, k2, k3);
  }
}
