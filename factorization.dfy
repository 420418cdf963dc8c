/**
 * The week-one command-line factoriser: trial division that first strips
 * the factor 2 and then tries odd candidates `i` while `i * i < number`.
 */
module Factorization {
  import opened Wrappers

  /** Product of a list of factors (the empty product is 1). */
  function Product(s: seq<int>): int
  {
    if s == [] then 1 else s[0] * Product(s[1..])
  }

  /** Non-decreasing order. */
  ghost predicate Sorted(s: seq<int>)
  {
    forall j, k :: 0 <= j < k < |s| ==> s[j] <= s[k]
  }

  /** `n` has no divisor in the range [2, i). */
  ghost predicate NoDivisorBelow(n: int, i: int)
  {
    forall d :: 2 <= d < i ==> n % d != 0
  }

  /**
   * The inner `while (number % d == 0)` loop: divides `d` out of `n` as often
   * as it goes in, giving the factors produced and what remains of `n`.
   */
  function DivideOut(d: int, n: int): (r: (seq<int>, int))
    requires d >= 2 && n >= 1
    ensures 1 <= r.1 <= n
    decreases n
  {
    if n % d == 0 then
      QuotientBounds(d, n);
      var rest := DivideOut(d, n / d);
      ([d] + rest.0, rest.1)
    else
      ([], n)
  }

  /**
   * Dividing out gives only copies of `d`, leaves a remainder `d` does not
   * divide, and the copies times the remainder give back `n`.
   */
  lemma {:induction false} DivideOutCorrect(d: int, n: int)
    requires d >= 2 && n >= 1
    ensures DivideOut(d, n).1 % d != 0
    ensures forall k :: 0 <= k < |DivideOut(d, n).0| ==> DivideOut(d, n).0[k] == d
    ensures Product(DivideOut(d, n).0) * DivideOut(d, n).1 == n
    decreases n
  {
    if n % d == 0 {
      QuotientBounds(d, n);
      var rest := DivideOut(d, n / d);
      DivideOutCorrect(d, n / d);
      assert ([d] + rest.0)[1..] == rest.0;
      MulAssoc(d, Product(rest.0), rest.1);
    }
  }

  /**
   * The `for (i = 3; i * i < number; i += 2)` loop from candidate `i` on,
   * followed by the final "append what is left if it exceeds 1".
   */
  function TrialFrom(i: int, n: int): seq<int>
    requires i >= 2 && n >= 1
    decreases if i * i < n then n - i * i else 0
  {
    if i * i < n then
      var (fs, m) := DivideOut(i, n);
      assert (i + 2) * (i + 2) > i * i;
      fs + TrialFrom(i + 2, m)
    else if n > 1 then
      [n]
    else
      []
  }

  /** The factor list `WheelFactorization` returns, as a function of its input. */
  function Factors(number: int): seq<int>
    requires number >= 1
  {
    var (twos, m) := DivideOut(2, number);
    twos + TrialFrom(3, m)
  }

  /** One turn of the inner division loop. */
  lemma DivideOutStep(d: int, n: int)
    requires d >= 2 && n >= 1 && n % d == 0
    ensures 1 <= n / d < n
    ensures DivideOut(d, n).0 == [d] + DivideOut(d, n / d).0
    ensures DivideOut(d, n).1 == DivideOut(d, n / d).1
  {
    QuotientBounds(d, n);
  }

  /** One turn of the candidate loop: divide `i` out, then go on from `i + 2`. */
  lemma TrialFromStep(i: int, n: int)
    requires i >= 2 && n >= 1 && i * i < n
    ensures TrialFrom(i, n) == DivideOut(i, n).0 + TrialFrom(i + 2, DivideOut(i, n).1)
    ensures (i + 2) * (i + 2) > i * i
  {
  }

  lemma NextOdd(i: int)
    requires i % 2 == 1
    ensures (i + 2) % 2 == 1
  {
  }

  lemma {:induction false} ProductAppend(a: seq<int>, b: seq<int>)
    ensures Product(a + b) == Product(a) * Product(b)
  {
    if a == [] {
      assert a + b == b;
    } else {
      assert (a + b)[1..] == a[1..] + b;
      ProductAppend(a[1..], b);
    }
  }

  lemma ModOfMultiple(d: int, q: int)
    requires d > 0
    ensures (d * q) % d == 0
  {
    var x := d * q;
    var k := x / d;
    var r := x % d;
    assert x == d * k + r;
    assert d * (q - k) == r;
    MulSign(d, q - k);
  }

  /** A positive `d` times a non-zero integer is at least `d` away from zero. */
  lemma MulSign(d: int, t: int)
    requires d > 0
    ensures t >= 1 ==> d * t >= d
    ensures t <= -1 ==> d * t <= -d
  {
    if t >= 1 {
      assert d * t == d + d * (t - 1);
    } else if t <= -1 {
      assert d * t == -d + d * (t + 1);
    }
  }

  /** An exact quotient is at least 1 and, for a divisor of at least 2, below the dividend. */
  lemma QuotientBounds(d: int, n: int)
    requires d >= 2 && n >= 1 && n % d == 0
    ensures n == d * (n / d) && 1 <= n / d < n
  {
    assert n == d * (n / d) + n % d;
  }

  lemma MulAssoc(a: int, b: int, c: int)
    ensures (a * b) * c == a * (b * c)
  {
  }

  /** A run of copies of `d` followed by a sorted list whose elements exceed `d` is sorted, and nothing in it is below `d`. */
  lemma SortedRunThenAbove(run: seq<int>, rest: seq<int>, d: int)
    requires forall k :: 0 <= k < |run| ==> run[k] == d
    requires Sorted(rest) && forall k :: 0 <= k < |rest| ==> rest[k] > d
    ensures Sorted(run + rest)
    ensures forall k :: 0 <= k < |run + rest| ==> (run + rest)[k] >= d
  {
    forall j, k | 0 <= j < k < |run + rest|
      ensures (run + rest)[j] <= (run + rest)[k]
    {
      if k < |run| {
      } else if j < |run| {
        assert (run + rest)[k] == rest[k - |run|];
      } else {
        assert (run + rest)[j] == rest[j - |run|];
      }
    }
  }

  /** Divisibility is transitive: `c | b` and `b | a` give `c | a`. */
  lemma DividesTransitive(a: int, b: int, c: int)
    requires b > 0 && c > 0 && a % b == 0 && b % c == 0
    ensures a % c == 0
  {
    var p := a / b;
    var q := b / c;
    assert a == b * p;
    assert b == c * q;
    assert a == c * (q * p);
    ModOfMultiple(c, q * p);
  }

  /** A divisor of `m` divides every multiple `k * m` of it. */
  lemma DividesMultiple(m: int, k: int, d: int)
    requires d > 0 && m % d == 0
    ensures (k * m) % d == 0
  {
    var q := m / d;
    assert m == d * q;
    assert k * m == d * (k * q);
    ModOfMultiple(d, k * q);
  }

  /**
   * Dividing out every `i` keeps the "no small divisor" property and extends
   * it past `i` and the even number `i + 1`.
   */
  lemma NoDivisorAfterDivideOut(i: int, n: int)
    requires i >= 3 && i % 2 == 1 && n >= 1 && NoDivisorBelow(n, i)
    ensures NoDivisorBelow(DivideOut(i, n).1, i + 2)
  {
    var (fs, m) := DivideOut(i, n);
    DivideOutCorrect(i, n);
    forall d | 2 <= d < i + 2
      ensures m % d != 0
    {
      if m % d == 0 {
        if d < i {
          DividesMultiple(m, Product(fs), d);
          assert false;
        } else if d == i + 1 {
          DividesTransitive(m, d, 2);
          DividesMultiple(m, Product(fs), 2);
          assert false;
        }
      }
    }
  }

  /**
   * From an odd candidate `i` with no smaller divisor left in `n`, the rest of
   * the trial division multiplies back to `n`, is sorted and has no factor below `i`.
   */
  lemma {:induction false} TrialFromCorrect(i: int, n: int)
    requires i >= 3 && i % 2 == 1 && n >= 1 && NoDivisorBelow(n, i)
    ensures Product(TrialFrom(i, n)) == n
    ensures Sorted(TrialFrom(i, n))
    ensures forall k :: 0 <= k < |TrialFrom(i, n)| ==> TrialFrom(i, n)[k] >= i
    decreases if i * i < n then n - i * i else 0
  {
    if i * i < n {
      TrialFromStep(i, n);
      var (fs, m) := DivideOut(i, n);
      DivideOutCorrect(i, n);
      NoDivisorAfterDivideOut(i, n);
      TrialFromCorrect(i + 2, m);
      ProductAppend(fs, TrialFrom(i + 2, m));
      SortedRunThenAbove(fs, TrialFrom(i + 2, m), i);
    } else {
      TrialFromLast(i, n);
    }
  }

  /** Once `i * i` reaches `n`, what is left of `n` (if above 1) is the last factor, and it is at least `i`. */
  lemma TrialFromLast(i: int, n: int)
    requires i >= 3 && n >= 1 && NoDivisorBelow(n, i) && i * i >= n
    ensures Product(TrialFrom(i, n)) == n
    ensures Sorted(TrialFrom(i, n))
    ensures forall k :: 0 <= k < |TrialFrom(i, n)| ==> TrialFrom(i, n)[k] >= i
  {
    if n > 1 {
      assert n % n == 0;
    }
  }

  /** What the factoriser returns multiplies back to its input, is sorted and has no factor below 2. */
  lemma FactorsCorrect(number: int)
    requires number >= 1
    ensures Product(Factors(number)) == number
    ensures Sorted(Factors(number))
    ensures forall k :: 0 <= k < |Factors(number)| ==> Factors(number)[k] >= 2
  {
    var (twos, m) := DivideOut(2, number);
    DivideOutCorrect(2, number);
    TrialFromCorrect(3, m);
    var rest := TrialFrom(3, m);
    ProductAppend(twos, rest);
    SortedRunThenAbove(twos, rest, 2);
  }

  /** Every factor after the leading twos is odd-tried, so the twos all come first. */
  lemma TwosFirst(number: int)
    requires number >= 1
    ensures forall j, k :: 0 <= j < k < |Factors(number)| && Factors(number)[k] == 2 ==> Factors(number)[j] == 2
  {
    FactorsCorrect(number);
  }

  /** Input 1 has no factors. */
  lemma FactorsOfOne()
    ensures Factors(1) == []
  {
  }

  /**
   * Trial division from odd `i` up to `q` never divides `q * q` when `q * q`
   * has no divisor below `q`, and stops at `i == q` because the loop bound
   * `i * i < number` is strict.
   */
  lemma {:induction false} OddSquareSkipped(i: int, q: int)
    requires 3 <= i <= q && i % 2 == 1 && q % 2 == 1
    requires NoDivisorBelow(q * q, q)
    ensures TrialFrom(i, q * q) == [q * q]
    decreases q - i
  {
    if i < q {
      assert i * i < q * q;
      assert DivideOut(i, q * q) == ([], q * q);
      OddSquareSkipped(i + 2, q);
    } else {
      assert q * q > 1;
    }
  }

  /**
   * The strict bound at the loop head: for an odd `q` whose square has no
   * divisor below `q` (that is, an odd prime), the square comes back as a
   * single "factor".
   */
  lemma OddPrimeSquareIsOneFactor(q: int)
    requires q >= 3 && q % 2 == 1 && NoDivisorBelow(q * q, q)
    ensures Factors(q * q) == [q * q]
  {
    assert (q * q) % 2 != 0;
    assert DivideOut(2, q * q) == ([], q * q);
    OddSquareSkipped(3, q);
  }

  /** 9 and 25 are each returned as one factor. */
  lemma NineAndTwentyFive()
    ensures Factors(9) == [9]
    ensures Factors(25) == [25]
  {
    OddPrimeSquareIsOneFactor(3);
    assert NoDivisorBelow(25, 5) by {
      forall d | 2 <= d < 5 ensures 25 % d != 0 {
        assert d == 2 || d == 3 || d == 4;
      }
    }
    OddPrimeSquareIsOneFactor(5);
  }

  /** `WheelFactorization`: strip the twos, then try odd candidates while `i * i < number`. */
  method WheelFactorization(number: int) returns (factors: seq<int>)
    requires number >= 1
    ensures factors == Factors(number)
    ensures Product(factors) == number
    ensures Sorted(factors)
    ensures forall k :: 0 <= k < |factors| ==> factors[k] >= 2
  {
    factors := [];
    var n := number;
    while n % 2 == 0
      invariant 1 <= n
      invariant factors + DivideOut(2, n).0 == DivideOut(2, number).0
      invariant DivideOut(2, n).1 == DivideOut(2, number).1
      decreases n
    {
      DivideOutStep(2, n);
      assert factors + DivideOut(2, n).0 == (factors + [2]) + DivideOut(2, n / 2).0;
      factors := factors + [2];
      n := n / 2;
    }

    var i := 3;
    while i * i < n
      invariant i >= 3 && i % 2 == 1 && n >= 1
      invariant factors + TrialFrom(i, n) == Factors(number)
      decreases n - i * i
    {
      TrialFromStep(i, n);
      ghost var (before, seen) := (n, factors);
      while n % i == 0
        invariant 1 <= n <= before
        invariant DivideOut(i, n).1 == DivideOut(i, before).1
        invariant factors + DivideOut(i, n).0 == seen + DivideOut(i, before).0
        decreases n
      {
        DivideOutStep(i, n);
        assert factors + DivideOut(i, n).0 == (factors + [i]) + DivideOut(i, n / i).0;
        factors := factors + [i];
        n := n / i;
      }
      assert DivideOut(i, n) == ([], n);
      assert factors == seen + DivideOut(i, before).0;
      assert n == DivideOut(i, before).1;
      NextOdd(i);
      i := i + 2;
    }

    if n > 1 {
      factors := factors + [n];
    }
    FactorsCorrect(number);
  }

  /** What `FactorizeArgumentNumber` prints for one argument. */
  datatype Report =
    | NotANumber          // `int.TryParse` failed
    | NotNatural          // zero or negative
    | Composite(factors: seq<int>)  // "arg = f1 * f2 * ..."
    | Prime               // "arg je prvočíslo"

  /**
   * `FactorizeArgumentNumber`, with `int.TryParse` given as its outcome:
   * `None` when the argument is not a 32-bit integer.
   */
  method FactorizeArgumentNumber(parsed: Option<int>) returns (r: Report)
    ensures parsed.None? ==> r == NotANumber
    ensures parsed.Some? && parsed.value <= 0 ==> r == NotNatural
    ensures parsed.Some? && parsed.value >= 1 && |Factors(parsed.value)| > 1 ==>
              r == Composite(Factors(parsed.value)) && Product(r.factors) == parsed.value
    ensures parsed.Some? && parsed.value >= 1 && |Factors(parsed.value)| <= 1 ==> r == Prime
  {
    if parsed.None? {
      return NotANumber;
    }
    var number := parsed.value;
    if number <= 0 {
      return NotNatural;
    }
    var factors := WheelFactorization(number);
    r := if |factors| > 1 then Composite(factors) else Prime;
  }
}
