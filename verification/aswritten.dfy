/** `Insert` and `TryGetValue` exactly as DoubleKeyDictionary.cs writes them, next to the
    corrected operations of `DoubleKeyDictionary`. Each divergence of the source from its
    evident intent is exhibited here on a concrete table, together with what the corrected
    operation does on the same input. */
module AsWritten {
  import opened Wrappers
  import opened Comparers
  import opened DoubleKeyDictionary
  import opened DictionaryProperties

  /** An exception the source's code paths can raise. `Thrown` carries the two the corrected
      table also raises: `ArgumentNullException`, and the `ArgumentException` of line 79 (which
      the code means for a duplicate pair). The others are `IndexOutOfRangeException` and
      `DivideByZeroException`. */
  datatype Fault = Thrown(error: Error) | IndexOutOfRange | DivideByZero

  /** What a call leaves behind: the object's fields afterwards, and the exception it threw,
      if any. An exception does not undo what the call had already done. */
  datatype Step<!L, !R, V> = Step(table: Table<L, R, V>, fault: Option<Fault>)

  /** The cell index the source computes with C#'s `%` (lines 55-56 and 95-96): `None` when
      that remainder is negative, where indexing the matrix throws. Whenever the source's
      index is usable it is the corrected one, and only a negative hash code makes it
      unusable. */
  function ArrayIndex(h: int, size: int): (i: Option<int>)
    requires size > 0
    ensures i.None? <==> CsRemainder(h, size) < 0
    ensures i.Some? ==> i.value == Reduce(h, size)
    ensures h >= 0 ==> i.Some?
    ensures i.None? ==> h < 0 && Reduce(h, size) == CsRemainder(h, size) + size
  {
    var x := CsRemainder(h, size);
    if x < 0 then None else Some(x)
  }

  /** `Insert` as written (lines 46-91): a null key throws before anything changes; otherwise
      the matrix is allocated lazily (line 53), and that allocation stays whatever happens
      next. A negative remainder then throws when indexing (line 58); an empty cell gets a
      fresh one-entry chain that is never stored back (lines 59-70), so nothing is inserted;
      and in a non-empty cell the stray `;` after the `if` (line 77) makes the first entry
      throw `ArgumentException`, whatever its keys. */
  function InsertAsWritten<L(!new), R(!new), V>(
    t: Table<L, R, V>, leftKey: Option<L>, rightKey: Option<R>, value: V
  ): (s: Step<L, R, V>)
    requires WellFormed(t)
    ensures s.fault == Some(Thrown(ArgumentNull)) <==> leftKey.None? || rightKey.None?
    ensures leftKey.None? || rightKey.None? ==> s.table == t
    ensures leftKey.Some? && rightKey.Some? ==>
      var t1 := LazyInit(t);
      var hl, hr := t.leftComparer.hash(leftKey.value), t.rightComparer.hash(rightKey.value);
      && s.table == t1
      && (s.fault == Some(IndexOutOfRange) <==> CsRemainder(hl, t1.size) < 0 || CsRemainder(hr, t1.size) < 0)
      && (s.fault != Some(IndexOutOfRange) ==>
            var cell := t1.buckets.value[LeftIndex(t1, leftKey.value)][RightIndex(t1, rightKey.value)];
            && (s.fault.None? <==> cell == [])
            && (s.fault.Some? ==> s.fault == Some(Thrown(DuplicateKey))))
  {
    if leftKey.None? || rightKey.None? then Step(t, Some(Thrown(ArgumentNull)))
    else
      var t1 := LazyInit(t);
      match (ArrayIndex(t1.leftComparer.hash(leftKey.value), t1.size),
             ArrayIndex(t1.rightComparer.hash(rightKey.value), t1.size))
      case (Some(i), Some(j)) =>
        if t1.buckets.value[i][j] == [] then Step(t1, None) else Step(t1, Some(Thrown(DuplicateKey)))
      case _ => Step(t1, Some(IndexOutOfRange))
  }

  /** `TryGetValue` as written (lines 93-119): with no guard, `% size` divides by zero on a
      table never inserted into (line 95); a negative remainder throws when indexing (line
      98); an empty cell answers `false`; and in a non-empty cell the stray `;` (line 110)
      makes the first entry's value the answer, whatever its keys. */
  function TryGetValueAsWritten<L(!new), R(!new), V>(t: Table<L, R, V>, leftKey: L, rightKey: R): (res: Result<Option<V>, Fault>)
    requires WellFormed(t)
    ensures res == Err(DivideByZero) <==> t.buckets.None?
    ensures res.Err? ==> res.error == DivideByZero || res.error == IndexOutOfRange
    ensures t.buckets.Some? ==>
      var hl, hr := t.leftComparer.hash(leftKey), t.rightComparer.hash(rightKey);
      res == Err(IndexOutOfRange) <==> CsRemainder(hl, t.size) < 0 || CsRemainder(hr, t.size) < 0
    ensures res.Ok? ==>
      && t.buckets.Some?
      && var cell := t.buckets.value[LeftIndex(t, leftKey)][RightIndex(t, rightKey)];
      && (res.value.None? <==> cell == [])
      && (res.value.Some? ==> res.value.value == cell[0].value)
  {
    if t.size == 0 then Err(DivideByZero)
    else
      match (ArrayIndex(t.leftComparer.hash(leftKey), t.size), ArrayIndex(t.rightComparer.hash(rightKey), t.size))
      case (Some(i), Some(j)) =>
        var cell := t.buckets.value[i][j];
        if cell == [] then Ok(None) else Ok(Some(cell[0].value))
      case _ => Err(IndexOutOfRange)
  }

  // ---------------------------------------------------------------------------------------
  // The as-written operations against the corrected ones, on every input
  // ---------------------------------------------------------------------------------------

  /** No call of the source's insertion with present keys changes what a valid table stores,
      whether it throws or not (a null key leaves the table as it is, by `InsertAsWritten`). An insertion it completes without an exception is one the corrected `Insert`
      accepts too, and the corrected table gains the new pair. */
  lemma {:induction false} AcceptedInsertIsLost<L(!new), R(!new), V>(t: Table<L, R, V>, l: L, r: R, v: V)
    requires Valid(t)
    ensures var s := InsertAsWritten(t, Some(l), Some(r), v);
      && Contents(s.table) == Contents(t)
      && (s.fault.None? ==>
            && Insert(t, Some(l), Some(r), v).Ok?
            && Contents(Insert(t, Some(l), Some(r), v).value) == Contents(t)[(l, r) := v])
  {
    var s := InsertAsWritten(t, Some(l), Some(r), v);
    if s.fault.None? {
      InsertMeaning(t, l, r, v);
      var t1 := LazyInit(t);
      var cell := t1.buckets.value[LeftIndex(t1, l)][RightIndex(t1, r)];
      assert cell == [];
      assert Insert(t, Some(l), Some(r), v).Ok?;
    }
  }

  /** Every pair the corrected `Insert` rejects as a duplicate, the source rejects too, unless
      a negative remainder makes it throw earlier. */
  lemma {:induction false} DuplicateRejectedByBoth<L(!new), R(!new), V>(t: Table<L, R, V>, l: L, r: R, v: V)
    requires WellFormed(t) && Insert(t, Some(l), Some(r), v) == Err(DuplicateKey)
    ensures InsertAsWritten(t, Some(l), Some(r), v).fault in {Some(Thrown(DuplicateKey)), Some(IndexOutOfRange)}
  {
  }

  /** Whenever the corrected lookup finds a value, the source's lookup either throws on a
      negative index or finds a value too. When it does not throw, it gives the corrected
      answer if the queried pair is the first entry of its cell, and it answers `false` only
      when the corrected lookup does. */
  lemma {:induction false} LookupAnswersTooOften<L(!new), R(!new), V>(t: Table<L, R, V>, l: L, r: R)
    requires Valid(t)
    ensures var res := TryGetValueAsWritten(t, l, r);
      TryGetValue(t, l, r).Some? ==> res == Err(IndexOutOfRange) || (res.Ok? && res.value.Some?)
    ensures var res := TryGetValueAsWritten(t, l, r);
      res.Ok? ==>
        && (TryGetValue(t, l, r).Some? ==> res.value.Some?)
        && (res.value.None? ==> TryGetValue(t, l, r).None?)
        && (var i, j := LeftIndex(t, l), RightIndex(t, r);
            var cell := t.buckets.value[i][j];
            cell != [] && Matches(t, cell[0], i, j, l, r) ==> res.value == TryGetValue(t, l, r))
  {
  }

  // ---------------------------------------------------------------------------------------
  // What the code as written can reach: no cell ever holds an entry
  // ---------------------------------------------------------------------------------------

  /** Every cell of the matrix, if there is one, is empty (every C# cell is still `null`). */
  predicate AllCellsEmpty<L, R, V>(t: Table<L, R, V>) {
    match t.buckets
    case None => true
    case Some(m) => forall i, j :: 0 <= i < |m| && 0 <= j < |m[i]| ==> |m[i][j]| == 0
  }

  /** A run of calls of the source's insertion, each one's exception caught by the caller,
      who goes on with the object as the call left it. The only effect a run can have is the
      lazy allocation of the matrix. */
  function RunAsWritten<L(!new), R(!new), V>(t: Table<L, R, V>, calls: seq<(Option<L>, Option<R>, V)>): (t': Table<L, R, V>)
    requires WellFormed(t)
    ensures WellFormed(t')
    ensures t'.leftComparer == t.leftComparer && t'.rightComparer == t.rightComparer
    ensures t' == t || t' == LazyInit(t)
    decreases |calls|
  {
    if calls == [] then t
    else RunAsWritten(InsertAsWritten(t, calls[0].0, calls[0].1, calls[0].2).table, calls[1..])
  }

  /** One call of the source's insertion never puts an entry into any cell. */
  lemma InsertKeepsCellsEmpty<L(!new), R(!new), V>(t: Table<L, R, V>, l: Option<L>, r: Option<R>, v: V)
    requires WellFormed(t) && AllCellsEmpty(t)
    ensures AllCellsEmpty(InsertAsWritten(t, l, r, v).table)
  {
  }

  /** However many insertions the code as written runs, no cell ever holds an entry. */
  lemma {:induction false} RunKeepsCellsEmpty<L(!new), R(!new), V>(t: Table<L, R, V>, calls: seq<(Option<L>, Option<R>, V)>)
    requires WellFormed(t) && AllCellsEmpty(t)
    ensures AllCellsEmpty(RunAsWritten(t, calls))
    decreases |calls|
  {
    if calls != [] {
      var t1 := InsertAsWritten(t, calls[0].0, calls[0].1, calls[0].2).table;
      InsertKeepsCellsEmpty(t, calls[0].0, calls[0].1, calls[0].2);
      RunKeepsCellsEmpty(t1, calls[1..]);
    }
  }

  /** After any run of insertions into a new table, the code as written finds no pair: every
      lookup divides by zero, throws on a negative index, or answers `false`. The defects of
      lines 75-79 and 108-113 therefore only show once lines 59-70 store their chain. */
  lemma NothingIsEverFound<L(!new), R(!new), V>(
    capacity: int, lc: Comparer<L>, rc: Comparer<R>, getPrime: int -> Positive,
    calls: seq<(Option<L>, Option<R>, V)>, l: L, r: R)
    ensures var t: Table<L, R, V> := RunAsWritten(New(capacity, lc, rc, getPrime), calls);
      var res := TryGetValueAsWritten(t, l, r);
      res.Ok? ==> res.value.None?
  {
    RunKeepsCellsEmpty(New<L, R, V>(capacity, lc, rc, getPrime), calls);
  }

  // ---------------------------------------------------------------------------------------
  // Concrete witnesses
  // ---------------------------------------------------------------------------------------

  /** An `int` key hashes to itself, as `Int32.GetHashCode` does. */
  function IntHash(x: int): Int32 {
    if -0x8000_0000 <= x < 0x8000_0000 then x else 0
  }

  function IntEquals(a: int, b: int): bool {
    a == b
  }

  /** The dimension every witness table gets from the prime-size helper. */
  function Three(capacity: int): Positive {
    3
  }

  /** The default comparer on `int` keys, which honours the comparer contract. */
  function IntComparer(): (c: Comparer<int>)
    ensures Lawful(c)
  {
    Comparer(IntHash, IntEquals)
  }

  /** A freshly constructed table of `int` keys and values, before any insertion. */
  function Empty(): (t: Table<int, int, int>)
    ensures Valid(t) && t.buckets.None? && Contents(t) == map[]
  {
    New(0, IntComparer(), IntComparer(), Three)
  }

  /** The corrected table after inserting `(1, 1) ↦ 10`: cell `(1, 1)` holds that one entry. */
  function One(): (t: Table<int, int, int>)
    ensures Valid(t) && t.size == 3
    ensures t.leftComparer == IntComparer() && t.rightComparer == IntComparer()
    ensures t.buckets.Some? && t.buckets.value[1][1] == [Entry(1, 1, 1, 1, 10)]
  {
    var res := Insert(Empty(), Some(1), Some(1), 10);
    InsertMeaning(Empty(), 1, 1, 10);
    assert LazyInit(Empty()).size == 3;
    res.value
  }

  /** Lines 59-70: inserting into an empty cell completes without an exception but stores
      nothing, so looking the pair up again finds nothing, whereas the corrected insertion is
      found. */
  lemma LostInsertWitness()
    ensures InsertAsWritten(Empty(), Some(1), Some(1), 10).fault.None?
    ensures TryGetValueAsWritten(InsertAsWritten(Empty(), Some(1), Some(1), 10).table, 1, 1) == Ok(None)
    ensures TryGetValue(Insert(Empty(), Some(1), Some(1), 10).value, 1, 1) == Some(10)
  {
    var t1 := LazyInit(Empty());
    assert t1.size == 3;
    assert t1.buckets.value[1][1] == [];
    InsertThenLookup(Empty(), 1, 1, 10);
  }

  /** Lines 73-81: on a table whose cell `(1, 1)` holds `(1, 1)`, inserting `(4, 1)`, a
      different pair in the same cell, throws `ArgumentException`, whereas the corrected
      insertion succeeds. The code as written never reaches such a table (see
      `NothingIsEverFound`): `One()` is built by the corrected `Insert`, so this defect is
      latent behind the one of lines 59-70. */
  lemma SharedCellWitness()
    ensures InsertAsWritten(One(), Some(4), Some(1), 20).fault == Some(Thrown(DuplicateKey))
    ensures Insert(One(), Some(4), Some(1), 20).Ok?
  {
    var t := One();
    SameCellAsOne(t);
    assert t.buckets.value[1][1] != [];
    var cell := t.buckets.value[1][1];
    assert !Matches(t, cell[0], 1, 1, 4, 1);
    assert Scan(t, cell, 1, 1, 4, 1).None?;
  }

  /** Keys 1 and 4 both land in row and column 1 of `One()`. */
  lemma SameCellAsOne(t: Table<int, int, int>)
    requires t == One()
    ensures ArrayIndex(t.leftComparer.hash(4), t.size) == Some(1)
    ensures ArrayIndex(t.rightComparer.hash(1), t.size) == Some(1)
    ensures ArrayIndex(t.rightComparer.hash(4), t.size) == Some(1)
    ensures LeftIndex(t, 4) == 1 && RightIndex(t, 1) == 1 && RightIndex(t, 4) == 1
  {
    assert t.leftComparer.hash(4) == IntHash(4) == 4;
    assert t.rightComparer.hash(4) == 4 && t.rightComparer.hash(1) == 1;
    assert CsRemainder(4, 3) == 1;
  }

  /** Lines 106-113: on a table holding `(1, 1) ↦ 10`, looking up `(4, 4)`, which shares
      neither key, answers 10, whereas the corrected lookup finds nothing. As for
      `SharedCellWitness`, the table comes from the corrected `Insert`: the code as written
      never stores an entry, so this defect is latent behind the one of lines 59-70. */
  lemma LookupIgnoresKeysWitness()
    ensures TryGetValueAsWritten(One(), 4, 4) == Ok(Some(10))
    ensures TryGetValue(One(), 4, 4) == None
  {
    var t := One();
    SameCellAsOne(t);
    var cell := t.buckets.value[1][1];
    assert !Matches(t, cell[0], 1, 1, 4, 4);
    assert Scan(t, cell, 1, 1, 4, 4).None?;
  }

  /** Lines 55-58: a key whose hash code is -1 gets the index -1 and the insertion throws,
      whereas the corrected insertion places it in row 2. The matrix line 53 allocated
      before the exception stays, so a later lookup answers `false` rather than dividing by
      zero. */
  lemma NegativeHashWitness()
    ensures InsertAsWritten(Empty(), Some(-1), Some(0), 10).fault == Some(IndexOutOfRange)
    ensures TryGetValueAsWritten(InsertAsWritten(Empty(), Some(-1), Some(0), 10).table, 1, 1) == Ok(None)
    ensures Insert(Empty(), Some(-1), Some(0), 10).Ok?
  {
    var t1 := LazyInit(Empty());
    assert t1.size == 3;
    assert CsRemainder(-1, 3) == -1;
    assert t1.buckets.value[1][1] == [];
    InsertMeaning(Empty(), -1, 0, 10);
  }

  /** Lines 95-96: a lookup on a table never inserted into divides by zero, whereas the
      corrected lookup reports the pair absent. */
  lemma LookupBeforeInsertWitness()
    ensures TryGetValueAsWritten(Empty(), 1, 1) == Err(DivideByZero)
    ensures TryGetValue(Empty(), 1, 1) == None
  {
  }
}
