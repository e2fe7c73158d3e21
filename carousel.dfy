/**
 * The slide-index arithmetic of the project gallery carousel.
 *
 * The handlers compute the next and the previous slide with JavaScript's `%`,
 * whose result takes the sign of the dividend (it truncates toward zero),
 * whereas Dafny's `%` is Euclidean. `TruncRem` writes the JavaScript operator
 * out, and the lemmas below show that for the indices the carousel can hold
 * the two agree.
 */
module Carousel {

  /** JavaScript's `a % n` for a positive divisor: same residue class as `a`, sign of `a`. */
  function TruncRem(a: int, n: int): (r: int)
    requires n > 0
    ensures (a - r) % n == 0
    ensures a >= 0 ==> 0 <= r < n
    ensures a < 0 ==> -n < r <= 0
    ensures 0 <= a < n ==> r == a
  {
    if a >= 0 then
      assert a - a % n == (a / n) * n;
      ModUnique(a - a % n, n, a / n, 0);
      assert a < n ==> a % n == a by {
        if a < n { ModUnique(a, n, 0, a); }
      }
      a % n
    else
      var b := -a;
      assert b == (b / n) * n + b % n;
      assert a + b % n == (-(b / n)) * n;
      ModUnique(a + b % n, n, -(b / n), 0);
      -(b % n)
  }

  /** On a non-negative dividend the JavaScript operator and Dafny's Euclidean one agree. */
  lemma TruncRemIsEuclideanWhenNonNegative(a: int, n: int)
    requires n > 0 && a >= 0
    ensures TruncRem(a, n) == a % n
  {
  }

  /** On a negative dividend they differ: JavaScript gives -1 where Euclidean gives 2. */
  lemma TruncRemDiffersOnNegative()
    ensures TruncRem(-1, 3) == -1 && -1 % 3 == 2
  {
  }

  /** `(prev + 1) % totalSlides`: one slide forward, wrapping from the last slide to the first. */
  function NextSlide(s: int, total: int): (r: int)
    requires total > 0
    ensures -1 <= s ==> 0 <= r < total
    ensures 0 <= s < total - 1 ==> r == s + 1
    ensures s == total - 1 ==> r == 0
  {
    TruncRem(s + 1, total)
  }

  /** `(prev - 1 + totalSlides) % totalSlides`: one slide back, wrapping from the first slide to the last. */
  function PreviousSlide(s: int, total: int): (r: int)
    requires total > 0
    ensures 1 - total <= s ==> 0 <= r < total
    ensures 0 < s <= total ==> r == s - 1
    ensures s == 0 ==> r == total - 1
  {
    TruncRem(s - 1 + total, total)
  }

  /** With the index anywhere below the wrap point, the previous-slide dividend is never negative. */
  lemma PreviousSlideDividendNonNegative(s: int, total: int)
    requires total > 0 && 0 <= s
    ensures s - 1 + total >= 0
    ensures PreviousSlide(s, total) == (s - 1 + total) % total
  {
  }

  /** Previous undoes next on every valid index. */
  lemma PreviousUndoesNext(s: int, total: int)
    requires 0 <= s < total
    ensures PreviousSlide(NextSlide(s, total), total) == s
  {
    if s == total - 1 {
      assert NextSlide(s, total) == 0;
    } else {
      assert NextSlide(s, total) == s + 1;
    }
  }

  /** Next undoes previous on every valid index. */
  lemma NextUndoesPrevious(s: int, total: int)
    requires 0 <= s < total
    ensures NextSlide(PreviousSlide(s, total), total) == s
  {
    if s == 0 {
      assert PreviousSlide(s, total) == total - 1;
    } else {
      assert PreviousSlide(s, total) == s - 1;
    }
  }

  /** The slide reached by pressing "next" `k` times from slide `s`. */
  function Advance(s: int, total: int, k: nat): int
    requires total > 0
  {
    if k == 0 then s else NextSlide(Advance(s, total, k - 1), total)
  }

  /** The slide reached by pressing "previous" `k` times from slide `s`. */
  function Retreat(s: int, total: int, k: nat): int
    requires total > 0
  {
    if k == 0 then s else PreviousSlide(Retreat(s, total, k - 1), total)
  }

  /** Stepping a residue by one: `(x + 1) % n` wraps exactly when `x % n` is the last residue. */
  lemma {:induction false} ModSucc(x: int, n: int)
    requires n > 0
    ensures (x + 1) % n == if x % n == n - 1 then 0 else x % n + 1
  {
    var q, r := x / n, x % n;
    assert x == q * n + r && 0 <= r < n;
    if r == n - 1 {
      assert x + 1 == (q + 1) * n + 0;
      ModUnique(x + 1, n, q + 1, 0);
    } else {
      assert x + 1 == q * n + (r + 1);
      ModUnique(x + 1, n, q, r + 1);
    }
  }

  /** Stepping a residue back by one: `(x - 1) % n` wraps exactly when `x % n` is zero. */
  lemma {:induction false} ModPred(x: int, n: int)
    requires n > 0
    ensures (x - 1) % n == if x % n == 0 then n - 1 else x % n - 1
  {
    var q, r := x / n, x % n;
    assert x == q * n + r && 0 <= r < n;
    if r == 0 {
      assert x - 1 == (q - 1) * n + (n - 1);
      ModUnique(x - 1, n, q - 1, n - 1);
    } else {
      assert x - 1 == q * n + (r - 1);
      ModUnique(x - 1, n, q, r - 1);
    }
  }

  /** A Euclidean remainder is determined by any decomposition `x == q * n + r` with `0 <= r < n`. */
  lemma {:induction false} ModUnique(x: int, n: int, q: int, r: int)
    requires n > 0 && 0 <= r < n && x == q * n + r
    ensures x % n == r
  {
    var q', r' := x / n, x % n;
    assert x == q' * n + r' && 0 <= r' < n;
    assert (q - q') * n == q * n - q' * n == r' - r;
    if q > q' {
      MulAtLeastDivisor(q - q', n);
    } else if q < q' {
      assert (q' - q) * n == r - r';
      MulAtLeastDivisor(q' - q, n);
    }
  }

  /** A positive multiple of `n` is at least `n`. */
  lemma MulAtLeastDivisor(d: int, n: int)
    requires d >= 1 && n > 0
    ensures d * n >= n
  {
    assert d * n == (d - 1) * n + n;
  }

  /** Pressing "next" `k` times from a valid slide lands on `(s + k) mod total`. */
  lemma {:induction false} AdvanceClosedForm(s: int, total: int, k: nat)
    requires 0 <= s < total
    ensures Advance(s, total, k) == (s + k) % total
  {
    if k == 0 {
      ModUnique(s, total, 0, s);
    } else {
      AdvanceClosedForm(s, total, k - 1);
      var t := Advance(s, total, k - 1);
      assert t == (s + k - 1) % total;
      ModSucc(s + k - 1, total);
    }
  }

  /** Pressing "next" once per slide brings the carousel back to where it started. */
  lemma AdvanceFullCycle(s: int, total: int)
    requires 0 <= s < total
    ensures Advance(s, total, total) == s
  {
    AdvanceClosedForm(s, total, total);
    ModUnique(s + total, total, 1, s);
  }

  /** Pressing "previous" `k` times from a valid slide lands on `(s - k) mod total` (Euclidean). */
  lemma {:induction false} RetreatClosedForm(s: int, total: int, k: nat)
    requires 0 <= s < total
    ensures Retreat(s, total, k) == (s - k) % total
  {
    if k == 0 {
      ModUnique(s, total, 0, s);
    } else {
      RetreatClosedForm(s, total, k - 1);
      var t := Retreat(s, total, k - 1);
      assert t == (s - (k - 1)) % total;
      ModPred(s - (k - 1), total);
    }
  }

  /** Pressing "previous" once per slide brings the carousel back to where it started. */
  lemma RetreatFullCycle(s: int, total: int)
    requires 0 <= s < total
    ensures Retreat(s, total, total) == s
  {
    RetreatClosedForm(s, total, total);
    ModUnique(s - total, total, -1, s);
  }
}
