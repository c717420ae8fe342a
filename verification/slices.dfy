/**
 Partition of dimension 0 among workers.

 Worker `i` of `n` searches dimension 0 over the ordinals [SliceStart(i, n),
 SliceStart(i + 1, n)): the ordinal range [0, One) cut at One*i/n. The end of
 one slice is, by the same formula, the start of the next.
 */
module Slices {
  import opened Ordinals

  /** The first ordinal of worker `i`'s slice, and the end of worker `i - 1`'s. */
  function SliceStart(i: nat, n: nat): (s: nat)
    requires 0 < n && i <= n
    ensures s <= One
    ensures i == 0 ==> s == 0
    ensures i == n ==> s == One
    ensures 0 < i && n <= One ==> 0 < s
  {
    ScaledBelowOne(i, n);
    One * i / n
  }

  /** One*i/n lies in [0, One] for i <= n, reaching One exactly at i == n. */
  lemma ScaledBelowOne(i: nat, n: nat)
    requires 0 < n && i <= n
    ensures One * i / n <= One
    ensures i == n ==> One * i / n == One
    ensures 0 < i && n <= One ==> 0 < One * i / n
  {
    if 0 < i && n <= One {
      MulGrows(1, i, One);
      DivMonotone(n, One * i, n);
    }
    MulGrows(i, n, One);
    DivMonotone(One * i, One * n, n);
    RemainderUnique(One * n, n, One, 0);
    assert One * n == One * n / n * n + One * n % n;
    if One * n / n < One {
      MulGrows(One * n / n + 1, One, n);
    } else if One * n / n > One {
      MulGrows(One + 1, One * n / n, n);
    }
  }

  /** Division by a positive number is monotone. */
  lemma DivMonotone(x: nat, y: nat, n: nat)
    requires 0 < n && x <= y
    ensures x / n <= y / n
  {
    var qx, qy := x / n, y / n;
    assert x == qx * n + x % n && y == qy * n + y % n;
    if qy < qx {
      MulGrows(qy + 1, qx, n);
    }
  }

  /** Adding the divisor adds one to the quotient. */
  lemma DivShift(x: nat, n: nat)
    requires 0 < n
    ensures (x + n) / n == x / n + 1
  {
    assert x + n == (x / n + 1) * n + x % n;
    RemainderUnique(x + n, n, x / n + 1, x % n);
    var q := (x + n) / n;
    assert x + n == q * n + (x + n) % n;
    if q < x / n + 1 {
      MulGrows(q + 1, x / n + 1, n);
    } else if q > x / n + 1 {
      MulGrows(x / n + 2, q, n);
    }
  }

  /** Later workers start no earlier. */
  lemma {:induction false} SliceMonotone(i: nat, j: nat, n: nat)
    requires 0 < n && i <= j <= n
    ensures SliceStart(i, n) <= SliceStart(j, n)
  {
    MulGrows(i, j, One);
    DivMonotone(One * i, One * j, n);
  }

  /** With no more workers than ordinals below One, every slice is non-empty. */
  lemma {:induction false} SliceNonEmpty(i: nat, n: nat)
    requires 0 < n <= One && i < n
    ensures SliceStart(i, n) < SliceStart(i + 1, n)
  {
    DivShift(One * i, n);
    DivMonotone(One * i + n, One * (i + 1), n);
  }

  /** The worker whose slice holds ordinal `u`, found among workers `0..i`. */
  function SliceOf(u: nat, n: nat, i: nat): (w: nat)
    requires 0 < n && i < n && u < SliceStart(i + 1, n)
    ensures w <= i
    ensures SliceStart(w, n) <= u < SliceStart(w + 1, n)
    decreases i
  {
    if SliceStart(i, n) <= u then i else SliceOf(u, n, i - 1)
  }

  /** Every ordinal of [0, One) lies in some worker's slice. */
  lemma SlicesCover(u: nat, n: nat)
    requires 0 < n && u < One
    ensures exists w :: 0 <= w < n && SliceStart(w, n) <= u < SliceStart(w + 1, n)
  {
    var w := SliceOf(u, n, n - 1);
  }

  /** No ordinal lies in two workers' slices. */
  lemma {:induction false} SlicesDisjoint(u: nat, n: nat, v: nat, w: nat)
    requires 0 < n && v < n && w < n
    requires SliceStart(v, n) <= u < SliceStart(v + 1, n)
    requires SliceStart(w, n) <= u < SliceStart(w + 1, n)
    ensures v == w
  {
    if v < w {
      SliceMonotone(v + 1, w, n);
    } else if w < v {
      SliceMonotone(w + 1, v, n);
    }
  }
}
