/** Per-axis equality and hashing, the role `IEqualityComparer<T>` plays in the dictionary. */
module Comparers {

  /** The range of a C# `int`, which is what `GetHashCode` returns. */
  type Int32 = x: int | -0x8000_0000 <= x < 0x8000_0000

  /** An injected equality + hash strategy for one key axis. */
  datatype Comparer<!K> = Comparer(hash: K -> Int32, eq: (K, K) -> bool)

  /** The contract every `IEqualityComparer` is expected to honour: `eq` is an equivalence
      relation and keys that are equal hash equally. */
  ghost predicate Lawful<K(!new)>(c: Comparer<K>) {
    && (forall a :: c.eq(a, a))
    && (forall a, b :: c.eq(a, b) ==> c.eq(b, a))
    && (forall a, b, d :: c.eq(a, b) && c.eq(b, d) ==> c.eq(a, d))
    && (forall a, b :: c.eq(a, b) ==> c.hash(a) == c.hash(b))
  }

  /** C#'s `%` on `int`: the quotient is truncated toward zero, so the remainder takes the
      sign of the dividend (DoubleKeyDictionary.cs:55-56 and 95-96 use it). */
  function CsRemainder(a: int, n: int): (r: int)
    requires n > 0
    ensures -n < r < n
    ensures a >= 0 ==> 0 <= r
    ensures a <= 0 ==> r <= 0
    ensures 0 <= a < n ==> r == a
    ensures (a - r) % n == 0
  {
    if a >= 0 then
      DivisionLeavesMultiple(a, n);
      a % n
    else
      DivisionLeavesMultiple(-a, n);
      assert a + (-a) % n == -((-a) - (-a) % n);
      NegatedMultiple(-a - (-a) % n, n);
      -((-a) % n)
  }

  /** Taking off the remainder of a non-negative dividend leaves a multiple of `n`. */
  lemma {:induction false} DivisionLeavesMultiple(a: int, n: int)
    requires a >= 0 && n > 0
    ensures (a - a % n) % n == 0
  {
    ModUnique(a - a % n, n, a / n, 0);
  }

  /** The negation of a multiple of `n` is a multiple of `n`. */
  lemma {:induction false} NegatedMultiple(m: int, n: int)
    requires n > 0 && m % n == 0
    ensures (-m) % n == 0
  {
    var q := m / n;
    assert m == q * n;
    assert -m == (-q) * n;
    ModUnique(-m, n, -q, 0);
  }

  /** A positive multiple of a positive `n` is at least `n`. */
  lemma {:induction false} MultipleAtLeast(x: int, n: int)
    requires x >= 1 && n > 0
    ensures x * n >= n
    decreases x
  {
    if x > 1 {
      MultipleAtLeast(x - 1, n);
      assert x * n == (x - 1) * n + n;
    }
  }

  /** Euclidean division is unique: a quotient and remainder in range are `/` and `%`. */
  lemma {:induction false} ModUnique(h: int, n: int, q: int, r: int)
    requires n > 0 && 0 <= r < n && h == q * n + r
    ensures h % n == r
  {
    var q', r' := h / n, h % n;
    assert h == q' * n + r';
    assert (q - q') * n == q * n - q' * n;
    assert (q - q') * n == r' - r;
    if q > q' {
      MultipleAtLeast(q - q', n);
    } else if q < q' {
      MultipleAtLeast(q' - q, n);
    }
  }

  /** For a negative dividend the Euclidean remainder is C#'s remainder shifted up by `n`
      (or both are zero). */
  lemma {:induction false} EuclideanVersusTruncated(h: int, n: int)
    requires n > 0
    ensures h % n == CsRemainder(h, n) || h % n == CsRemainder(h, n) + n
  {
    if h < 0 {
      var b := -h;
      var q, s := b / n, b % n;
      assert h == -q * n - s;
      if s == 0 {
        ModUnique(h, n, -q, 0);
      } else {
        ModUnique(h, n, -q - 1, n - s);
      }
    }
  }

  /** The reduction of a hash code to a cell index as the table intends it: always in
      `[0, size)`. The source reduces with C#'s `%`, which can give a negative index
      (DoubleKeyDictionary.cs:55-56, 95-96); this model uses the non-negative remainder
      instead, which differs from the source's value by exactly `size` when that one is
      negative. */
  function Reduce(h: int, size: int): (r: int)
    requires size > 0
    ensures 0 <= r < size
    ensures r == CsRemainder(h, size) || r == CsRemainder(h, size) + size
  {
    EuclideanVersusTruncated(h, size);
    h % size
  }
}
