/** Finite sums of reals, and the algebra of sums that the matrix
    proofs need (linearity, splitting, exchanging two sums). */
module Sums {

  /** f(lo) + f(lo + 1) + ... + f(hi - 1), added in increasing order of
      the index as the source's accumulation loops do; 0 when hi <= lo. */
  function Sum(lo: int, hi: int, f: int -> real): real
    decreases hi - lo
  {
    if hi <= lo then 0.0 else Sum(lo, hi - 1, f) + f(hi - 1)
  }

  /** Sums of functions that agree on the range are equal. */
  lemma {:induction false} SumExt(lo: int, hi: int, f: int -> real, g: int -> real)
    requires forall k :: lo <= k < hi ==> f(k) == g(k)
    ensures Sum(lo, hi, f) == Sum(lo, hi, g)
    decreases hi - lo
  {
    if lo < hi {
      SumExt(lo, hi - 1, f, g);
    }
  }

  /** A sum of zeros is zero. */
  lemma {:induction false} SumZero(lo: int, hi: int, f: int -> real)
    requires forall k :: lo <= k < hi ==> f(k) == 0.0
    ensures Sum(lo, hi, f) == 0.0
    decreases hi - lo
  {
    if lo < hi {
      SumZero(lo, hi - 1, f);
    }
  }

  /** The sum of a pointwise sum is the sum of the sums. */
  lemma {:induction false} SumAdd(lo: int, hi: int, f: int -> real, g: int -> real, h: int -> real)
    requires forall k :: lo <= k < hi ==> h(k) == f(k) + g(k)
    ensures Sum(lo, hi, h) == Sum(lo, hi, f) + Sum(lo, hi, g)
    decreases hi - lo
  {
    if lo < hi {
      SumAdd(lo, hi - 1, f, g, h);
    }
  }

  /** A constant factor can be taken out of a sum. */
  lemma {:induction false} SumScale(lo: int, hi: int, a: real, f: int -> real, g: int -> real)
    requires forall k :: lo <= k < hi ==> g(k) == a * f(k)
    ensures Sum(lo, hi, g) == a * Sum(lo, hi, f)
    decreases hi - lo
  {
    if lo < hi {
      SumScale(lo, hi - 1, a, f, g);
    }
  }

  /** A sum splits at any index between its bounds. */
  lemma {:induction false} SumSplit(lo: int, mid: int, hi: int, f: int -> real)
    requires lo <= mid <= hi
    ensures Sum(lo, hi, f) == Sum(lo, mid, f) + Sum(mid, hi, f)
    decreases hi - mid
  {
    if mid < hi {
      SumSplit(lo, mid, hi - 1, f);
    }
  }

  /** The first term of a non-empty sum can be taken out. */
  lemma SumFirst(lo: int, hi: int, f: int -> real)
    requires lo < hi
    ensures Sum(lo, hi, f) == f(lo) + Sum(lo + 1, hi, f)
  {
    SumSplit(lo, lo + 1, hi, f);
  }

  /** A sum whose terms all vanish except the one at k is that term. */
  lemma {:induction false} SumSingle(lo: int, hi: int, k: int, f: int -> real)
    requires lo <= k < hi
    requires forall j :: lo <= j < hi && j != k ==> f(j) == 0.0
    ensures Sum(lo, hi, f) == f(k)
    decreases hi - lo
  {
    if hi - 1 == k {
      SumZero(lo, hi - 1, f);
    } else {
      SumSingle(lo, hi - 1, k, f);
    }
  }

  /** Two finite sums can be exchanged:
      sum over c < n of (sum over k < m of g(k, c)) equals
      sum over k < m of (sum over c < n of g(k, c)). */
  lemma {:induction false} SumSwap(m: nat, n: nat, g: (int, int) -> real)
    ensures Sum(0, n, c => Sum(0, m, k => g(k, c))) == Sum(0, m, k => Sum(0, n, c => g(k, c)))
  {
    if m > 0 {
      var lhs := c => Sum(0, m, k => g(k, c));
      var inner := c => Sum(0, m - 1, k => g(k, c));
      var last := c => g(m - 1, c);
      var rhs := k => Sum(0, n, c => g(k, c));
      forall c | 0 <= c < n
        ensures lhs(c) == inner(c) + last(c)
      {
      }
      SumAdd(0, n, inner, last, lhs);
      SumSwap(m - 1, n, g);
      assert Sum(0, n, inner) == Sum(0, m - 1, rhs);
      assert Sum(0, m, rhs) == Sum(0, m - 1, rhs) + Sum(0, n, last);
    } else {
      SumZero(0, n, c => Sum(0, m, k => g(k, c)));
    }
  }

  /** Shifting the index: sum over lo <= k < hi of f(k) is
      sum over lo - d <= k < hi - d of f(k + d). */
  lemma {:induction false} SumShift(lo: int, hi: int, d: int, f: int -> real, g: int -> real)
    requires forall k :: lo - d <= k < hi - d ==> g(k) == f(k + d)
    ensures Sum(lo, hi, f) == Sum(lo - d, hi - d, g)
    decreases hi - lo
  {
    if lo < hi {
      SumShift(lo, hi - 1, d, f, g);
    }
  }
}
