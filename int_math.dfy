/** Integer facts shared by the planners and the schedulers: C#'s truncating
    division and remainder, the uniqueness of quotient and remainder, and the
    ascending index range [lo, hi) that a `for` loop walks through. */
module IntMath {

  /** C#'s `/` on `int`: truncates toward zero (Dafny's `/` is Euclidean). */
  function CsDiv(a: int, b: int): (q: int)
    requires b > 0
    ensures a >= 0 ==> 0 <= q * b <= a < q * b + b
    ensures a < 0 ==> q <= 0 && a <= q * b < a + b
  {
    if a >= 0 then a / b else NegativeQuotient(a, b); -((-a) / b)
  }

  lemma NegativeQuotient(a: int, b: int)
    requires a < 0 && b > 0
    ensures var q := -((-a) / b); q <= 0 && a <= q * b < a + b
  {
    var m, s := (-a) / b, (-a) % b;
    assert -a == m * b + s;
    assert -m * b == -(m * b);
  }

  /** C#'s `%` on `int`: the remainder takes the sign of the dividend. */
  function CsRem(a: int, b: int): (r: int)
    requires b > 0
    ensures a == CsDiv(a, b) * b + r
    ensures a >= 0 ==> 0 <= r < b
    ensures a < 0 ==> -b < r <= 0
  {
    a - CsDiv(a, b) * b
  }

  lemma MulMonotone(a: int, b: int, c: int)
    requires 0 <= a <= b && c >= 0
    ensures a * c <= b * c
  {
  }

  /** Quotient and remainder are determined by any decomposition a == q * b + r
      with 0 <= r < b. */
  lemma DivModUnique(a: int, b: int, q: int, r: int)
    requires b > 0 && 0 <= r < b && a == q * b + r
    ensures a / b == q && a % b == r
  {
    var q', r' := a / b, a % b;
    if q' < q {
      MulMonotone(q' + 1, q, b);
      assert false;
    } else if q < q' {
      MulMonotone(q + 1, q', b);
      assert false;
    }
  }

  /** An index below n blocks of b lies in one of the first n blocks. */
  lemma DivBelow(i: int, b: int, n: int)
    requires b > 0 && 0 <= i < n * b
    ensures 0 <= i / b < n
    ensures 0 <= i % b < b
  {
    if i / b >= n {
      MulMonotone(n, i / b, b);
      assert false;
    }
  }

  /** The block of t lies below n exactly when t lies below n blocks. */
  lemma DivBelowIff(t: int, b: int, n: int)
    requires b > 0 && t >= 0
    ensures t / b < n <==> t < n * b
  {
    if t < n * b {
      DivBelow(t, b, n);
    } else if t / b < n {
      MulMonotone(t / b + 1, n, b);
      assert false;
    }
  }

  /** Offset r inside block q: q * b + r lies below n blocks when q < n. */
  lemma BlockBelow(q: int, r: int, b: int, n: int)
    requires 0 <= q < n && 0 <= r < b
    ensures 0 <= q * b + r < n * b
  {
    MulMonotone(q + 1, n, b);
    assert (q + 1) * b == q * b + b;
  }

  /** The indices lo, lo + 1, ..., hi - 1 in ascending order (empty when hi <= lo). */
  function Range(lo: int, hi: int): (s: seq<int>)
    ensures |s| == if lo <= hi then hi - lo else 0
    decreases hi - lo
  {
    if hi <= lo then [] else Range(lo, hi - 1) + [hi - 1]
  }

  lemma {:induction false} RangeAt(lo: int, hi: int, k: int)
    requires 0 <= k < hi - lo
    ensures Range(lo, hi)[k] == lo + k
    decreases hi - lo
  {
    if k < hi - 1 - lo {
      RangeAt(lo, hi - 1, k);
    }
  }

  /** Range(lo, hi) holds exactly the integers of [lo, hi). */
  lemma {:induction false} RangeMembers(lo: int, hi: int, x: int)
    ensures x in Range(lo, hi) <==> lo <= x < hi
    decreases hi - lo
  {
    if lo < hi {
      RangeMembers(lo, hi - 1, x);
    }
  }

  /** Range(lo, hi) is strictly ascending, so it names each index exactly once. */
  lemma RangeAscending(lo: int, hi: int, i: int, j: int)
    requires 0 <= i < j < |Range(lo, hi)|
    ensures Range(lo, hi)[i] < Range(lo, hi)[j]
  {
    RangeAt(lo, hi, i);
    RangeAt(lo, hi, j);
  }

  /** Consecutive ranges concatenate. */
  lemma {:induction false} RangeAppend(lo: int, mid: int, hi: int)
    requires lo <= mid <= hi
    ensures Range(lo, mid) + Range(mid, hi) == Range(lo, hi)
    decreases hi - mid
  {
    if mid < hi {
      RangeAppend(lo, mid, hi - 1);
    }
  }

  /** Each integer of [lo, hi) occurs once in Range(lo, hi), and nothing else does. */
  lemma {:induction false} RangeMultiplicity(lo: int, hi: int, x: int)
    ensures multiset(Range(lo, hi))[x] == if lo <= x < hi then 1 else 0
    decreases hi - lo
  {
    if lo < hi {
      RangeMultiplicity(lo, hi - 1, x);
      assert multiset(Range(lo, hi)) == multiset(Range(lo, hi - 1)) + multiset{hi - 1};
    }
  }
}
