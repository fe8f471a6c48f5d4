/** What `Insert` and `TryGetValue` mean for the map a valid table stands for. */
module DictionaryProperties {
  import opened Wrappers
  import opened Comparers
  import opened DoubleKeyDictionary

  // ---------------------------------------------------------------------------------------
  // The query's cell decides presence
  // ---------------------------------------------------------------------------------------

  /** In a valid, initialised table a pair equivalent to the query is stored iff some entry
      of the query's cell matches the query: equal keys hash equally, so scanning that one
      chain is enough. */
  lemma {:induction false} CellDecidesPresence<L(!new), R(!new), V>(t: Table<L, R, V>, l: L, r: R)
    requires Valid(t) && t.buckets.Some?
    ensures var i, j := LeftIndex(t, l), RightIndex(t, r);
      var cell := t.buckets.value[i][j];
      HasEquivalent(t, l, r) <==> exists k :: 0 <= k < |cell| && Matches(t, cell[k], i, j, l, r)
  {
    var m: Matrix<L, R, V> := t.buckets.value;
    var i, j := LeftIndex(t, l), RightIndex(t, r);
    var cell := m[i][j];
    if k :| 0 <= k < |cell| && Matches(t, cell[k], i, j, l, r) {
      StoredInContents(t, i, j, k);
      assert Equivalent(t, (cell[k].leftKey, cell[k].rightKey), l, r);
    }
    if HasEquivalent(t, l, r) {
      var p :| p in Contents(t) && Equivalent(t, p, l, r);
      var a, b, c := ContentsStored(t, p);
      EquivalentLivesInCell(t, a, b, c, l, r);
      assert Matches(t, cell[c], i, j, l, r);
    }
  }

  // ---------------------------------------------------------------------------------------
  // TryGetValue
  // ---------------------------------------------------------------------------------------

  /** `TryGetValue` finds a value exactly when a pair equivalent to the query is stored, and
      then it is that pair's value. Together with `KeysDistinct` this makes the lookup the
      map lookup of `Contents`. */
  lemma {:induction false} TryGetValueMeaning<L(!new), R(!new), V>(t: Table<L, R, V>, l: L, r: R)
    requires Valid(t)
    ensures TryGetValue(t, l, r).Some? <==> HasEquivalent(t, l, r)
    ensures forall p :: p in Contents(t) && Equivalent(t, p, l, r) ==> TryGetValue(t, l, r) == Some(Contents(t)[p])
  {
    if t.buckets.Some? {
      var m: Matrix<L, R, V> := t.buckets.value;
      var i, j := LeftIndex(t, l), RightIndex(t, r);
      var cell := m[i][j];
      var found := TryGetValue(t, l, r);
      CellDecidesPresence(t, l, r);
      forall p | p in Contents(t) && Equivalent(t, p, l, r)
        ensures found == Some(Contents(t)[p])
      {
        var a, b, c := ContentsStored(t, p);
        EquivalentLivesInCell(t, a, b, c, l, r);
        var k :| 0 <= k < |cell| && Matches(t, cell[k], i, j, l, r) && cell[k].value == found.value;
        MatchIsUnique(t, i, j, k, c, l, r);
      }
    }
  }

  /** A stored pair is found under its own keys. */
  lemma LookupStored<L(!new), R(!new), V>(t: Table<L, R, V>, l: L, r: R)
    requires Valid(t) && (l, r) in Contents(t)
    ensures TryGetValue(t, l, r) == Some(Contents(t)[(l, r)])
  {
    TryGetValueMeaning(t, l, r);
    assert Equivalent(t, (l, r), l, r);
  }

  // ---------------------------------------------------------------------------------------
  // Insert
  // ---------------------------------------------------------------------------------------

  /** Appending an entry that belongs in cell `(i, j)` and duplicates no entry there keeps the
      table valid. */
  lemma {:induction false} AppendKeepsValid<L(!new), R(!new), V>(
    before: Table<L, R, V>, after: Table<L, R, V>, i: int, j: int, e: Entry<L, R, V>)
    requires Valid(before) && before.buckets.Some?
    requires Appended(before, after, i, j, e) && AtHome(before, e, i, j)
    requires var cell := before.buckets.value[i][j];
      forall k :: 0 <= k < |cell| ==> !SameKeys(before, cell[k], e)
    ensures Valid(after)
  {
    var m: Matrix<L, R, V> := before.buckets.value;
    var m': Matrix<L, R, V> := after.buckets.value;
    var cell := m[i][j];
    assert WellFormed(after);
    forall a, b, c | IsPosition(m', a, b, c)
      ensures AtHome(after, m'[a][b][c], a, b)
    {
      if (a, b) == (i, j) && c == |cell| {
        assert m'[a][b][c] == e;
      } else {
        assert m'[a][b][c] == m[a][b][c];
      }
    }
    forall a, b, k1, k2 | 0 <= a < |m'| && 0 <= b < |m'[a]| && 0 <= k1 < k2 < |m'[a][b]|
      ensures !SameKeys(after, m'[a][b][k1], m'[a][b][k2])
    {
      if (a, b) == (i, j) && k2 == |cell| {
        assert m'[a][b][k2] == e && m'[a][b][k1] == cell[k1];
      } else {
        assert m'[a][b][k1] == m[a][b][k1] && m'[a][b][k2] == m[a][b][k2];
      }
    }
  }

  /** The preconditions shared by the lemmas about one append. */
  ghost predicate FreshAppend<L(!new), R(!new), V>(
    before: Table<L, R, V>, after: Table<L, R, V>, i: int, j: int, e: Entry<L, R, V>)
  {
    && Valid(before) && before.buckets.Some? && Valid(after)
    && Appended(before, after, i, j, e) && AtHome(before, e, i, j)
    && var cell := before.buckets.value[i][j];
       forall k :: 0 <= k < |cell| ==> !SameKeys(before, cell[k], e)
  }

  /** The appended pair was not stored before. */
  lemma {:induction false} AppendedKeyIsFresh<L(!new), R(!new), V>(
    before: Table<L, R, V>, after: Table<L, R, V>, i: int, j: int, e: Entry<L, R, V>)
    requires FreshAppend(before, after, i, j, e)
    ensures (e.leftKey, e.rightKey) !in Contents(before)
  {
    var key := (e.leftKey, e.rightKey);
    if key in Contents(before) {
      var a, b, c := ContentsStored(before, key);
      EquivalentLivesInCell(before, a, b, c, e.leftKey, e.rightKey);
      assert SameKeys(before, before.buckets.value[i][j][c], e);
      assert false;
    }
  }

  /** Every pair stored before the append is still stored, with the same value. */
  lemma {:induction false} AppendKeepsPairs<L(!new), R(!new), V>(
    before: Table<L, R, V>, after: Table<L, R, V>, i: int, j: int, e: Entry<L, R, V>)
    requires FreshAppend(before, after, i, j, e)
    ensures forall p :: p in Contents(before) ==> p in Contents(after) && Contents(after)[p] == Contents(before)[p]
  {
    var m: Matrix<L, R, V> := before.buckets.value;
    var m': Matrix<L, R, V> := after.buckets.value;
    forall p | p in Contents(before)
      ensures p in Contents(after) && Contents(after)[p] == Contents(before)[p]
    {
      var a, b, c := ContentsStored(before, p);
      assert m'[a][b][c] == m[a][b][c];
      StoredInContents(after, a, b, c);
    }
  }

  /** After the append, a stored pair is an old one or the appended one. */
  lemma {:induction false} AppendAddsOnlyItsPair<L(!new), R(!new), V>(
    before: Table<L, R, V>, after: Table<L, R, V>, i: int, j: int, e: Entry<L, R, V>)
    requires FreshAppend(before, after, i, j, e)
    ensures (e.leftKey, e.rightKey) in Contents(after) && Contents(after)[(e.leftKey, e.rightKey)] == e.value
    ensures forall p :: p in Contents(after) ==> p in Contents(before) || p == (e.leftKey, e.rightKey)
  {
    var m: Matrix<L, R, V> := before.buckets.value;
    var m': Matrix<L, R, V> := after.buckets.value;
    var n := |m[i][j]|;
    assert m'[i][j][n] == e;
    StoredInContents(after, i, j, n);
    forall p | p in Contents(after)
      ensures p in Contents(before) || p == (e.leftKey, e.rightKey)
    {
      var a, b, c := ContentsStored(after, p);
      if (a, b) != (i, j) {
        assert m'[a][b] == m[a][b];
        StoredInContents(before, a, b, c);
      } else if c < n {
        assert m'[i][j][c] == m[i][j][c];
        StoredInContents(before, i, j, c);
      }
    }
  }

  /** Appending such an entry adds exactly its pair to `Contents`. */
  lemma AppendContents<L(!new), R(!new), V>(
    before: Table<L, R, V>, after: Table<L, R, V>, i: int, j: int, e: Entry<L, R, V>)
    requires FreshAppend(before, after, i, j, e)
    ensures (e.leftKey, e.rightKey) !in Contents(before)
    ensures Contents(after) == Contents(before)[(e.leftKey, e.rightKey) := e.value]
  {
    AppendedKeyIsFresh(before, after, i, j, e);
    AppendKeepsPairs(before, after, i, j, e);
    AppendAddsOnlyItsPair(before, after, i, j, e);
  }

  /** A successful `Insert` into a valid table: the table stays valid and its map gains
      exactly the new pair, which was absent; it fails with a duplicate error exactly when a
      pair equal to the new one under the comparers is already stored. */
  lemma {:induction false} InsertMeaning<L(!new), R(!new), V>(t: Table<L, R, V>, l: L, r: R, v: V)
    requires Valid(t)
    ensures var res := Insert(t, Some(l), Some(r), v);
      && (res.Err? <==> HasEquivalent(t, l, r))
      && (res.Err? ==> res.error == DuplicateKey)
      && (res.Ok? ==>
            && Valid(res.value)
            && (l, r) !in Contents(t)
            && Contents(res.value) == Contents(t)[(l, r) := v]
            && res.value.leftComparer == t.leftComparer
            && res.value.rightComparer == t.rightComparer)
  {
    var t1 := LazyInit(t);
    var res := Insert(t, Some(l), Some(r), v);
    var i, j := LeftIndex(t1, l), RightIndex(t1, r);
    var cell := t1.buckets.value[i][j];
    var e := Entry(i, j, l, r, v);
    CellDecidesPresence(t1, l, r);
    if res.Ok? {
      assert AtHome(t1, e, i, j);
      forall k | 0 <= k < |cell|
        ensures !SameKeys(t1, cell[k], e)
      {
        assert AtHome(t1, cell[k], i, j);
        assert !Matches(t1, cell[k], i, j, l, r);
      }
      AppendKeepsValid(t1, res.value, i, j, e);
      AppendContents(t1, res.value, i, j, e);
    }
  }

  /** Round trip: after a successful `Insert(l, r, v)`, `TryGetValue(l, r)` returns `v`. */
  lemma InsertThenLookup<L(!new), R(!new), V>(t: Table<L, R, V>, l: L, r: R, v: V)
    requires Valid(t) && Insert(t, Some(l), Some(r), v).Ok?
    ensures TryGetValue(Insert(t, Some(l), Some(r), v).value, l, r) == Some(v)
  {
    InsertMeaning(t, l, r, v);
    LookupStored(Insert(t, Some(l), Some(r), v).value, l, r);
  }

  /** Pair independence: a successful `Insert(l, r, v)` changes no lookup of a pair that is
      not `(l, r)` under the comparers, in particular none that shares only one key. */
  lemma {:induction false} InsertKeepsOtherLookups<L(!new), R(!new), V>(t: Table<L, R, V>, l: L, r: R, v: V, l2: L, r2: R)
    requires Valid(t) && Insert(t, Some(l), Some(r), v).Ok?
    requires !(t.leftComparer.eq(l, l2) && t.rightComparer.eq(r, r2))
    ensures TryGetValue(Insert(t, Some(l), Some(r), v).value, l2, r2) == TryGetValue(t, l2, r2)
  {
    var t' := Insert(t, Some(l), Some(r), v).value;
    InsertMeaning(t, l, r, v);
    TryGetValueMeaning(t, l2, r2);
    TryGetValueMeaning(t', l2, r2);
    if HasEquivalent(t', l2, r2) {
      var p :| p in Contents(t') && Equivalent(t', p, l2, r2);
      assert p != (l, r);
      assert p in Contents(t) && Equivalent(t, p, l2, r2);
    } else if HasEquivalent(t, l2, r2) {
      var p :| p in Contents(t) && Equivalent(t, p, l2, r2);
      assert p in Contents(t') && Equivalent(t', p, l2, r2);
    }
  }

  /** Uniqueness: once `(l, r)` is stored, inserting it (or any pair equal to it under the
      comparers) again fails with a duplicate error, whatever the value. */
  lemma SecondInsertFails<L(!new), R(!new), V>(t: Table<L, R, V>, l: L, r: R, v: V, l2: L, r2: R, w: V)
    requires Valid(t) && Insert(t, Some(l), Some(r), v).Ok?
    requires t.leftComparer.eq(l, l2) && t.rightComparer.eq(r, r2)
    ensures Insert(Insert(t, Some(l), Some(r), v).value, Some(l2), Some(r2), w) == Err(DuplicateKey)
  {
    var t' := Insert(t, Some(l), Some(r), v).value;
    InsertMeaning(t, l, r, v);
    InsertMeaning(t', l2, r2, w);
    assert (l, r) in Contents(t') && Equivalent(t', (l, r), l2, r2);
  }

  // ---------------------------------------------------------------------------------------
  // By-axis enumeration
  // ---------------------------------------------------------------------------------------

  /** `GetValuesByLeftKey(l)` yields exactly the values of the stored pairs whose left key
      equals `l` under the left comparer (as a set; the scan order is column, then chain). */
  lemma {:induction false} ValuesByLeftKeyMeaning<L(!new), R(!new), V>(t: Table<L, R, V>, l: L, v: V)
    requires Valid(t)
    ensures v in ValuesByLeftKey(t, l) <==>
      exists p :: p in Contents(t) && t.leftComparer.eq(p.0, l) && Contents(t)[p] == v
  {
    if t.buckets.Some? {
      var m: Matrix<L, R, V> := t.buckets.value;
      var i := LeftIndex(t, l);
      var row: seq<Chain<L, R, V>> := m[i];
      if v in ValuesByLeftKey(t, l) {
        var j: int, k: int :| 0 <= j < |row| && 0 <= k < |row[j]| && row[j][k].leftHash == i
          && t.leftComparer.eq(row[j][k].leftKey, l) && row[j][k].value == v;
        StoredInContents(t, i, j, k);
        var p := (row[j][k].leftKey, row[j][k].rightKey);
        assert p in Contents(t) && t.leftComparer.eq(p.0, l) && Contents(t)[p] == v;
      }
      if p :| p in Contents(t) && t.leftComparer.eq(p.0, l) && Contents(t)[p] == v {
        var a, b, c := ContentsStored(t, p);
        assert AtHome(t, m[a][b][c], a, b);
        assert a == i;
        assert row[b][c].value in ValuesByLeftKey(t, l);
      }
    }
  }

  /** `GetValuesByRightKey(r)` yields exactly the values of the stored pairs whose right key
      equals `r` under the right comparer. */
  lemma {:induction false} ValuesByRightKeyMeaning<L(!new), R(!new), V>(t: Table<L, R, V>, r: R, v: V)
    requires Valid(t)
    ensures v in ValuesByRightKey(t, r) <==>
      exists p :: p in Contents(t) && t.rightComparer.eq(p.1, r) && Contents(t)[p] == v
  {
    if t.buckets.Some? {
      var m: Matrix<L, R, V> := t.buckets.value;
      var j := RightIndex(t, r);
      if v in ValuesByRightKey(t, r) {
        var i: int, k: int :| 0 <= i < |m| && 0 <= k < |m[i][j]| && m[i][j][k].rightHash == j
          && t.rightComparer.eq(m[i][j][k].rightKey, r) && m[i][j][k].value == v;
        StoredInContents(t, i, j, k);
        var p := (m[i][j][k].leftKey, m[i][j][k].rightKey);
        assert p in Contents(t) && t.rightComparer.eq(p.1, r) && Contents(t)[p] == v;
      }
      if p :| p in Contents(t) && t.rightComparer.eq(p.1, r) && Contents(t)[p] == v {
        var a, b, c := ContentsStored(t, p);
        assert AtHome(t, m[a][b][c], a, b);
        assert b == j;
        assert m[a][j][c].value in ValuesByRightKey(t, r);
      }
    }
  }
}
