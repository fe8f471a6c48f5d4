/** The two-key hash table `DoubleKeyDictionary<TLeftKey, TRightKey, TValue>`: a square
    `size × size` matrix of chains, where cell `[i][j]` holds the entries whose left key
    reduces to `i` and whose right key reduces to `j`.

    The table is an immutable value; every operation returns a new table. C#'s exceptions
    become `Err` results and `TryGetValue`'s `out` parameter becomes an `Option`. */
module DoubleKeyDictionary {
  import opened Wrappers
  import opened Comparers

  /** A matrix dimension handed out by the prime-size helper. */
  type Positive = n: int | n > 0 witness 1

  /** One stored record. `leftHash` and `rightHash` are the reduced hash codes computed at
      insertion, i.e. the row and column of the cell the entry was placed in. */
  datatype Entry<L, R, V> = Entry(leftHash: int, rightHash: int, leftKey: L, rightKey: R, value: V)

  /** The entries of one cell, in insertion order. A C# `null` cell is the empty chain: the
      source never stores an empty list, so the two never need to be told apart. */
  type Chain<L, R, V> = seq<Entry<L, R, V>>

  /** `buckets[i][j]` is the chain of cell `(i, j)`. */
  type Matrix<L, R, V> = seq<seq<Chain<L, R, V>>>

  /** The dictionary's fields. `getPrime` stands for `HashHelpers.GetPrime`, whose code is not
      part of this model; all that is used of it is that it returns a positive dimension.
      `buckets == None` is the C# `null` matrix of a table not yet initialised. */
  datatype Table<!L, !R, V> = Table(
    leftComparer: Comparer<L>,
    rightComparer: Comparer<R>,
    getPrime: int -> Positive,
    size: int,
    capacity: int,
    buckets: Option<Matrix<L, R, V>>)

  /** `ArgumentNullException` and the `ArgumentException` raised for a duplicate pair. */
  datatype Error = ArgumentNull | DuplicateKey

  // ---------------------------------------------------------------------------------------
  // Shape and placement
  // ---------------------------------------------------------------------------------------

  /** The shape the fields always have: no matrix and `size == 0` before initialisation, a
      `size × size` matrix with positive `size` afterwards. */
  predicate WellFormed<L, R, V>(t: Table<L, R, V>) {
    match t.buckets
    case None => t.size == 0
    case Some(m) =>
      && t.size > 0
      && |m| == t.size
      && forall i :: 0 <= i < |m| ==> |m[i]| == t.size
  }

  /** The row a left key belongs to. */
  function LeftIndex<L, R, V>(t: Table<L, R, V>, l: L): (i: int)
    requires t.size > 0
    ensures 0 <= i < t.size
  {
    Reduce(t.leftComparer.hash(l), t.size)
  }

  /** The column a right key belongs to. */
  function RightIndex<L, R, V>(t: Table<L, R, V>, r: R): (j: int)
    requires t.size > 0
    ensures 0 <= j < t.size
  {
    Reduce(t.rightComparer.hash(r), t.size)
  }

  /** Entry `e` belongs in cell `(i, j)` and records exactly those reduced hashes. */
  predicate AtHome<L, R, V>(t: Table<L, R, V>, e: Entry<L, R, V>, i: int, j: int)
    requires t.size > 0
  {
    && e.leftHash == i && i == LeftIndex(t, e.leftKey)
    && e.rightHash == j && j == RightIndex(t, e.rightKey)
  }

  /** Both keys of `a` are equal, under the table's comparers, to those of `b`. */
  predicate SameKeys<L, R, V>(t: Table<L, R, V>, a: Entry<L, R, V>, b: Entry<L, R, V>) {
    t.leftComparer.eq(a.leftKey, b.leftKey) && t.rightComparer.eq(a.rightKey, b.rightKey)
  }

  /** The test both the duplicate scan and the lookup scan apply to a chain entry: both
      stored hashes and both keys agree with the query.
      DIVERGENCE: the source (DoubleKeyDictionary.cs:75-77 and 108-110) writes
      `hl && eqL || hr && eqR`, which C# parses as a match on EITHER key, and then ends the
      `if` with a stray `;`, so the guarded block runs on the first entry of any non-empty
      chain whatever its keys. This model uses the evidently intended both-keys match. */
  predicate Matches<L, R, V>(t: Table<L, R, V>, e: Entry<L, R, V>, lh: int, rh: int, l: L, r: R) {
    && e.leftHash == lh && t.leftComparer.eq(e.leftKey, l)
    && e.rightHash == rh && t.rightComparer.eq(e.rightKey, r)
  }

  /** Every entry sits in the cell named by its own reduced hashes. */
  ghost predicate Placed<L, R, V>(t: Table<L, R, V>)
    requires WellFormed(t) && t.buckets.Some?
  {
    var m := t.buckets.value;
    forall i, j, k :: 0 <= i < |m| && 0 <= j < |m[i]| && 0 <= k < |m[i][j]| ==> AtHome(t, m[i][j][k], i, j)
  }

  /** No cell holds two entries with the same key pair. */
  ghost predicate CellsUnique<L, R, V>(t: Table<L, R, V>)
    requires t.buckets.Some?
  {
    var m := t.buckets.value;
    forall i, j, k1, k2 :: 0 <= i < |m| && 0 <= j < |m[i]| && 0 <= k1 < k2 < |m[i][j]| ==>
      !SameKeys(t, m[i][j][k1], m[i][j][k2])
  }

  /** The representation invariant: well-formed, lawful comparers, every entry at home, and
      at most one entry per key pair. */
  ghost predicate Valid<L(!new), R(!new), V>(t: Table<L, R, V>) {
    && WellFormed(t)
    && Lawful(t.leftComparer)
    && Lawful(t.rightComparer)
    && (t.buckets.Some? ==> Placed(t) && CellsUnique(t))
  }

  /** Position `(i, j, k)` holds an entry of matrix `m`. */
  predicate IsPosition<L, R, V>(m: Matrix<L, R, V>, i: int, j: int, k: int) {
    0 <= i < |m| && 0 <= j < |m[i]| && 0 <= k < |m[i][j]|
  }

  // ---------------------------------------------------------------------------------------
  // Abstraction: the table as a map from key pairs to values
  // ---------------------------------------------------------------------------------------

  /** Two entries of a valid table with the same keys are the same position. */
  lemma {:induction false} KeysDistinct<L(!new), R(!new), V>(t: Table<L, R, V>)
    requires Valid(t) && t.buckets.Some?
    ensures var m := t.buckets.value;
      forall i1: int, j1: int, k1: int, i2: int, j2: int, k2: int ::
        IsPosition(m, i1, j1, k1) && IsPosition(m, i2, j2, k2) &&
        m[i1][j1][k1].leftKey == m[i2][j2][k2].leftKey && m[i1][j1][k1].rightKey == m[i2][j2][k2].rightKey
        ==> i1 == i2 && j1 == j2 && k1 == k2
  {
    var m: Matrix<L, R, V> := t.buckets.value;
    forall i1: int, j1: int, k1: int, i2: int, j2: int, k2: int |
      IsPosition(m, i1, j1, k1) && IsPosition(m, i2, j2, k2) &&
      m[i1][j1][k1].leftKey == m[i2][j2][k2].leftKey && m[i1][j1][k1].rightKey == m[i2][j2][k2].rightKey
      ensures i1 == i2 && j1 == j2 && k1 == k2
    {
      var a, b := m[i1][j1][k1], m[i2][j2][k2];
      assert AtHome(t, a, i1, j1) && AtHome(t, b, i2, j2);
      assert SameKeys(t, a, b) && SameKeys(t, b, a);
      assert i1 == i2 && j1 == j2;
    }
  }

  /** The key pairs of all stored entries. */
  ghost function Pairs<L, R, V>(m: Matrix<L, R, V>): set<(L, R)> {
    set i, j, k | 0 <= i < |m| && 0 <= j < |m[i]| && 0 <= k < |m[i][j]| :: (m[i][j][k].leftKey, m[i][j][k].rightKey)
  }

  /** The value stored under pair `p`. */
  ghost function ValueOf<L, R, V>(m: Matrix<L, R, V>, p: (L, R)): V
    requires p in Pairs(m)
  {
    var i, j, k :| IsPosition(m, i, j, k) && p == (m[i][j][k].leftKey, m[i][j][k].rightKey);
    m[i][j][k].value
  }

  /** What the table stores: each entry's key pair mapped to its value (on a `Valid` table
      every pair has exactly one entry, see `KeysDistinct`). */
  ghost function Contents<L, R, V>(t: Table<L, R, V>): map<(L, R), V> {
    match t.buckets
    case None => map[]
    case Some(m) => map p | p in Pairs(m) :: ValueOf(m, p)
  }

  /** Pair `p` is the query `(l, r)` under the table's comparers. */
  predicate Equivalent<L, R, V>(t: Table<L, R, V>, p: (L, R), l: L, r: R) {
    t.leftComparer.eq(p.0, l) && t.rightComparer.eq(p.1, r)
  }

  /** Some stored pair is the query `(l, r)` under the table's comparers. */
  ghost predicate HasEquivalent<L, R, V>(t: Table<L, R, V>, l: L, r: R) {
    exists p :: p in Contents(t) && Equivalent(t, p, l, r)
  }

  /** Every stored entry shows up in `Contents` with its value. */
  lemma StoredInContents<L(!new), R(!new), V>(t: Table<L, R, V>, i: int, j: int, k: int)
    requires Valid(t) && t.buckets.Some? && IsPosition(t.buckets.value, i, j, k)
    ensures var e := t.buckets.value[i][j][k];
      (e.leftKey, e.rightKey) in Contents(t) && Contents(t)[(e.leftKey, e.rightKey)] == e.value
  {
    var m: Matrix<L, R, V> := t.buckets.value;
    var p := (m[i][j][k].leftKey, m[i][j][k].rightKey);
    assert p in Pairs(m);
    KeysDistinct(t);
  }

  /** Every pair of `Contents` comes from some stored entry. */
  lemma ContentsStored<L(!new), R(!new), V>(t: Table<L, R, V>, p: (L, R))
    returns (i: int, j: int, k: int)
    requires Valid(t) && p in Contents(t)
    ensures t.buckets.Some? && IsPosition(t.buckets.value, i, j, k)
    ensures var e := t.buckets.value[i][j][k];
      p == (e.leftKey, e.rightKey) && Contents(t)[p] == e.value
  {
    var m: Matrix<L, R, V> := t.buckets.value;
    i, j, k :| IsPosition(m, i, j, k) && p == (m[i][j][k].leftKey, m[i][j][k].rightKey);
    StoredInContents(t, i, j, k);
  }

  /** An entry whose keys are equal to the query's lives in the query's cell and matches it:
      equal keys hash equally, so they reduce to the same row and column. */
  lemma EquivalentLivesInCell<L(!new), R(!new), V>(t: Table<L, R, V>, i: int, j: int, k: int, l: L, r: R)
    requires Valid(t) && t.buckets.Some? && IsPosition(t.buckets.value, i, j, k)
    requires var e := t.buckets.value[i][j][k];
      t.leftComparer.eq(e.leftKey, l) && t.rightComparer.eq(e.rightKey, r)
    ensures i == LeftIndex(t, l) && j == RightIndex(t, r)
    ensures Matches(t, t.buckets.value[i][j][k], i, j, l, r)
  {
    assert AtHome(t, t.buckets.value[i][j][k], i, j);
  }

  /** Within one cell of a valid table at most one entry matches a query. */
  lemma MatchIsUnique<L(!new), R(!new), V>(t: Table<L, R, V>, i: int, j: int, k1: int, k2: int, l: L, r: R)
    requires Valid(t) && t.buckets.Some?
    requires IsPosition(t.buckets.value, i, j, k1) && IsPosition(t.buckets.value, i, j, k2)
    requires Matches(t, t.buckets.value[i][j][k1], i, j, l, r)
    requires Matches(t, t.buckets.value[i][j][k2], i, j, l, r)
    ensures k1 == k2
  {
    var c := t.buckets.value[i][j];
    assert SameKeys(t, c[k1], c[k2]);
    assert SameKeys(t, c[k2], c[k1]);
  }

  // ---------------------------------------------------------------------------------------
  // Construction and Initialize
  // ---------------------------------------------------------------------------------------

  /** The constructor: it only stores the comparers and the capacity; the matrix is
      allocated lazily by the first insertion. */
  function New<L(!new), R(!new), V>(
    capacity: int, leftComparer: Comparer<L>, rightComparer: Comparer<R>, getPrime: int -> Positive
  ): (t: Table<L, R, V>)
    ensures WellFormed(t) && t.buckets.None?
    ensures t.capacity == capacity && t.leftComparer == leftComparer && t.rightComparer == rightComparer
    ensures Lawful(leftComparer) && Lawful(rightComparer) ==> Valid(t) && Contents(t) == map[]
  {
    Table(leftComparer, rightComparer, getPrime, 0, capacity, None)
  }

  /** `Initialize(capacity)`: the dimension comes from the prime-size helper and the matrix
      has exactly `size` rows of `size` empty cells. The stored `capacity` is not touched. */
  function Initialize<L(!new), R(!new), V>(t: Table<L, R, V>, capacity: int): (t': Table<L, R, V>)
    ensures t'.size == t.getPrime(capacity)
    ensures WellFormed(t') && t'.buckets.Some?
    ensures forall i, j :: 0 <= i < t'.size && 0 <= j < t'.size ==> t'.buckets.value[i][j] == []
    ensures t' == t.(size := t'.size, buckets := t'.buckets)
    ensures Lawful(t.leftComparer) && Lawful(t.rightComparer) ==> Valid(t') && Contents(t') == map[]
  {
    var size := t.getPrime(capacity);
    t.(size := size, buckets := Some(seq(size, _ => seq(size, _ => []))))
  }

  /** Line 53 of the source: `if (buckets == null) Initialize(0);`. */
  function LazyInit<L(!new), R(!new), V>(t: Table<L, R, V>): (t1: Table<L, R, V>)
    requires WellFormed(t)
    ensures WellFormed(t1) && t1.buckets.Some?
    ensures t.buckets.Some? ==> t1 == t
    ensures Valid(t) ==> Valid(t1) && Contents(t1) == Contents(t)
  {
    if t.buckets.None? then Initialize(t, 0) else t
  }

  // ---------------------------------------------------------------------------------------
  // Chain scan, Insert, TryGetValue
  // ---------------------------------------------------------------------------------------

  /** The `foreach` over a chain: the index of the first entry matching the query, if any. */
  function Scan<L, R, V>(t: Table<L, R, V>, chain: Chain<L, R, V>, lh: int, rh: int, l: L, r: R): (k: Option<nat>)
    ensures k.Some? ==> k.value < |chain| && Matches(t, chain[k.value], lh, rh, l, r)
    ensures k.Some? ==> forall k' :: 0 <= k' < k.value ==> !Matches(t, chain[k'], lh, rh, l, r)
    ensures k.None? ==> forall k' :: 0 <= k' < |chain| ==> !Matches(t, chain[k'], lh, rh, l, r)
    decreases |chain|
  {
    if chain == [] then None
    else if Matches(t, chain[0], lh, rh, l, r) then Some(0)
    else match Scan(t, chain[1..], lh, rh, l, r)
      case None => None
      case Some(k) => Some(k + 1)
  }

  /** `before` and `after` differ only in cell `(i, j)`, which gained `e` at its end. */
  ghost predicate Appended<L, R, V>(before: Table<L, R, V>, after: Table<L, R, V>, i: int, j: int, e: Entry<L, R, V>)
    requires before.buckets.Some?
  {
    var m := before.buckets.value;
    && after == before.(buckets := after.buckets)
    && after.buckets.Some?
    && var m' := after.buckets.value;
    && |m'| == |m|
    && (forall a :: 0 <= a < |m| ==> |m'[a]| == |m[a]|)
    && 0 <= i < |m| && 0 <= j < |m[i]|
    && m'[i][j] == m[i][j] + [e]
    && forall a, b :: 0 <= a < |m| && 0 <= b < |m[a]| && (a, b) != (i, j) ==> m'[a][b] == m[a][b]
  }

  /** The private `Insert` (the public `Add` of the demo): rejects a null key, allocates the
      matrix if absent, rejects a pair already present in its cell, and otherwise appends the
      new entry, with its reduced hashes, to the end of that cell's chain. */
  function Insert<L(!new), R(!new), V>(
    t: Table<L, R, V>, leftKey: Option<L>, rightKey: Option<R>, value: V
  ): (res: Result<Table<L, R, V>, Error>)
    requires WellFormed(t)
    ensures res.Err? && res.error == ArgumentNull <==> leftKey.None? || rightKey.None?
    ensures leftKey.Some? && rightKey.Some? ==>
      var t1 := LazyInit(t);
      var l, r := leftKey.value, rightKey.value;
      var i, j := LeftIndex(t1, l), RightIndex(t1, r);
      var cell := t1.buckets.value[i][j];
      && 0 <= i < t1.size && 0 <= j < t1.size
      && (res.Err? <==> exists k :: 0 <= k < |cell| && Matches(t1, cell[k], i, j, l, r))
      && (res.Err? ==> res.error == DuplicateKey)
      && (res.Ok? ==> Appended(t1, res.value, i, j, Entry(i, j, l, r, value)) && WellFormed(res.value))
  {
    if leftKey.None? || rightKey.None? then Err(ArgumentNull)
    else
      var t1 := LazyInit(t);
      var l, r := leftKey.value, rightKey.value;
      // DIVERGENCE: the source reduces with C#'s `%` (lines 55-56), which is negative for a
      // negative hash code; `Reduce` keeps the index in [0, size).
      var i, j := LeftIndex(t1, l), RightIndex(t1, r);
      var m := t1.buckets.value;
      var cell := m[i][j];
      // DIVERGENCE: the source throws on the first entry of any non-empty chain (stray `;`
      // at line 77) and its condition reads as a match on either key; here a duplicate is an
      // entry matching both keys.
      if Scan(t1, cell, i, j, l, r).Some? then Err(DuplicateKey)
      // DIVERGENCE: for an empty cell the source builds a new one-entry chain (lines 59-70)
      // but never stores it into `buckets[leftHashCode][rightHashCode]`, so the insertion is
      // lost; here the entry is stored, exactly as the append at lines 83-90 would.
      else Ok(t1.(buckets := Some(m[i := m[i][j := cell + [Entry(i, j, l, r, value)]]])))
  }

  /** `TryGetValue`: the value of the first entry of the query's cell matching both keys,
      `None` (the source's `false` with `default(TValue)`) otherwise.
      DIVERGENCE: the source neither checks for a null matrix nor for `size == 0` (lines
      95-98), so on a table never inserted into it divides by zero; here such a table simply
      holds nothing. */
  function TryGetValue<L(!new), R(!new), V>(t: Table<L, R, V>, leftKey: L, rightKey: R): (found: Option<V>)
    requires WellFormed(t)
    ensures t.buckets.None? ==> found.None?
    ensures t.buckets.Some? ==>
      var i, j := LeftIndex(t, leftKey), RightIndex(t, rightKey);
      var cell := t.buckets.value[i][j];
      && (found.None? <==> forall k :: 0 <= k < |cell| ==> !Matches(t, cell[k], i, j, leftKey, rightKey))
      && (found.Some? ==>
            exists k :: && 0 <= k < |cell| && Matches(t, cell[k], i, j, leftKey, rightKey)
                        && cell[k].value == found.value
                        && forall k' :: 0 <= k' < k ==> !Matches(t, cell[k'], i, j, leftKey, rightKey))
  {
    match t.buckets
    case None => None
    case Some(m) =>
      var i, j := LeftIndex(t, leftKey), RightIndex(t, rightKey);
      var cell := m[i][j];
      match Scan(t, cell, i, j, leftKey, rightKey)
      case None => None
      case Some(k) => Some(cell[k].value)
  }

  // ---------------------------------------------------------------------------------------
  // By-axis enumeration (declared by the thread-safe subclass; no base implementation)
  // ---------------------------------------------------------------------------------------

  /** The values, in chain order, of the entries of `chain` that `keep` selects. */
  function Select<L, R, V>(chain: Chain<L, R, V>, keep: Entry<L, R, V> -> bool): (vs: seq<V>)
    ensures forall v :: v in vs ==> exists k :: 0 <= k < |chain| && keep(chain[k]) && chain[k].value == v
    ensures forall k :: 0 <= k < |chain| && keep(chain[k]) ==> chain[k].value in vs
    decreases |chain|
  {
    if chain == [] then []
    else
      var rest := Select(chain[1..], keep);
      assert forall k :: 1 <= k < |chain| ==> chain[k] == chain[1..][k - 1];
      (if keep(chain[0]) then [chain[0].value] else []) + rest
  }

  /** The selected values of a run of cells, cell by cell and within a cell in chain order. */
  function SelectAll<L, R, V>(cells: seq<Chain<L, R, V>>, keep: Entry<L, R, V> -> bool): (vs: seq<V>)
    ensures forall v :: v in vs ==>
      exists c, k :: 0 <= c < |cells| && 0 <= k < |cells[c]| && keep(cells[c][k]) && cells[c][k].value == v
    ensures forall c, k :: 0 <= c < |cells| && 0 <= k < |cells[c]| && keep(cells[c][k]) ==> cells[c][k].value in vs
    decreases |cells|
  {
    if cells == [] then []
    else
      var rest := SelectAll(cells[1..], keep);
      assert forall c :: 1 <= c < |cells| ==> cells[c] == cells[1..][c - 1];
      Select(cells[0], keep) + rest
  }

  /** Column `j` of the matrix, top to bottom. */
  function Column<L, R, V>(m: Matrix<L, R, V>, j: int): (col: seq<Chain<L, R, V>>)
    requires 0 <= j && forall a :: 0 <= a < |m| ==> j < |m[a]|
    ensures |col| == |m| && forall a :: 0 <= a < |m| ==> col[a] == m[a][j]
  {
    seq(|m|, a requires 0 <= a < |m| => m[a][j])
  }

  /** `GetValuesByLeftKey`: a scan of the left key's row, collecting the values of the entries
      whose stored left hash and left key match; empty when there is no matrix. */
  function ValuesByLeftKey<L, R, V>(t: Table<L, R, V>, leftKey: L): (vs: seq<V>)
    requires WellFormed(t)
    ensures t.buckets.None? ==> vs == []
    ensures t.buckets.Some? ==>
      var i := LeftIndex(t, leftKey);
      var row: seq<Chain<L, R, V>> := t.buckets.value[i];
      && (forall v :: v in vs ==>
            exists j, k :: 0 <= j < |row| && 0 <= k < |row[j]| && row[j][k].leftHash == i
              && t.leftComparer.eq(row[j][k].leftKey, leftKey) && row[j][k].value == v)
      && (forall j, k ::
            (0 <= j < |row| && 0 <= k < |row[j]| && row[j][k].leftHash == i
             && t.leftComparer.eq(row[j][k].leftKey, leftKey)) ==> row[j][k].value in vs)
  {
    match t.buckets
    case None => []
    case Some(m) =>
      var i := LeftIndex(t, leftKey);
      SelectAll(m[i], (e: Entry<L, R, V>) => e.leftHash == i && t.leftComparer.eq(e.leftKey, leftKey))
  }

  /** `GetValuesByRightKey`: the same scan down the right key's column. */
  function ValuesByRightKey<L, R, V>(t: Table<L, R, V>, rightKey: R): (vs: seq<V>)
    requires WellFormed(t)
    ensures t.buckets.None? ==> vs == []
    ensures t.buckets.Some? ==>
      var j := RightIndex(t, rightKey);
      var m: Matrix<L, R, V> := t.buckets.value;
      && (forall v :: v in vs ==>
            exists i, k :: 0 <= i < |m| && 0 <= k < |m[i][j]| && m[i][j][k].rightHash == j
              && t.rightComparer.eq(m[i][j][k].rightKey, rightKey) && m[i][j][k].value == v)
      && (forall i, k ::
            (0 <= i < |m| && 0 <= k < |m[i][j]| && m[i][j][k].rightHash == j
             && t.rightComparer.eq(m[i][j][k].rightKey, rightKey)) ==> m[i][j][k].value in vs)
  {
    match t.buckets
    case None => []
    case Some(m) =>
      var j := RightIndex(t, rightKey);
      var col := Column(m, j);
      SelectAll(col, (e: Entry<L, R, V>) => e.rightHash == j && t.rightComparer.eq(e.rightKey, rightKey))
  }
}
