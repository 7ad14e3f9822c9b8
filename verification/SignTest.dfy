/** The exact two-sided binomial sign test of `paired_case_delta_report` in `baseline.py`. */
module SignTest {
  import opened Numbers

  /** `math.comb`, by Pascal's rule. */
  function Comb(n: nat, k: nat): nat {
    if k == 0 then 1 else if n == 0 then 0 else Comb(n - 1, k - 1) + Comb(n - 1, k)
  }

  /** `sum(comb(n, i) for i in range(k))` */
  function RowSum(n: nat, k: nat): nat {
    if k == 0 then 0 else RowSum(n, k - 1) + Comb(n, k - 1)
  }

  /** The doubled probability of at most `min(wins, losses)` wins, before it is clipped at 1. */
  function Doubled(wins: nat, losses: nat): real {
    2.0 * (RowSum(wins + losses, Min(wins, losses) + 1) as real / Pow2(wins + losses) as real)
  }

  /** `min(1.0, 2.0 * cdf)` */
  function SignP(wins: nat, losses: nat): real {
    if Doubled(wins, losses) > 1.0 then 1.0 else Doubled(wins, losses)
  }

  // ---------------------------------------------------------------- binomial rows

  lemma {:induction false} CombBeyond(n: nat, k: nat)
    requires k > n
    ensures Comb(n, k) == 0
  {
    if n > 0 {
      CombBeyond(n - 1, k - 1);
      CombBeyond(n - 1, k);
    }
  }

  lemma {:induction false} CombPositive(n: nat, k: nat)
    requires k <= n
    ensures Comb(n, k) >= 1
  {
    if k > 0 {
      CombPositive(n - 1, k - 1);
    }
  }

  /** Rows are symmetric. */
  lemma {:induction false} CombSymmetric(n: nat, k: nat)
    requires k <= n
    ensures Comb(n, k) == Comb(n, n - k)
  {
    if n > 0 {
      if k == 0 {
        CombSymmetric(n - 1, 0);
        CombBeyond(n - 1, n);
      } else if k == n {
        CombSymmetric(n - 1, n - 1);
        CombBeyond(n - 1, n);
      } else {
        CombSymmetric(n - 1, k - 1);
        CombSymmetric(n - 1, k);
      }
    }
  }

  lemma {:induction false} RowSumPascal(n: nat, k: nat)
    requires n > 0 && k > 0
    ensures RowSum(n, k) == RowSum(n - 1, k) + RowSum(n - 1, k - 1)
  {
    if k > 1 {
      RowSumPascal(n, k - 1);
    }
  }

  /** A whole row sums to 2^n. */
  lemma {:induction false} RowTotal(n: nat)
    ensures RowSum(n, n + 1) == Pow2(n)
  {
    if n == 0 {
      assert RowSum(0, 1) == RowSum(0, 0) + Comb(0, 0);
    } else {
      RowTotal(n - 1);
      RowSumPascal(n, n + 1);
      CombBeyond(n - 1, n);
    }
  }

  /** The first k and the first n + 1 - k coefficients make up the row. */
  lemma {:induction false} RowComplement(n: nat, k: nat)
    requires k <= n + 1
    ensures RowSum(n, k) + RowSum(n, n + 1 - k) == Pow2(n)
  {
    if k == 0 {
      RowTotal(n);
    } else {
      RowComplement(n, k - 1);
      CombSymmetric(n, k - 1);
      assert RowSum(n, n + 2 - k) == RowSum(n, n + 1 - k) + Comb(n, n + 1 - k);
    }
  }

  lemma {:induction false} RowSumGrows(n: nat, k: nat, l: nat)
    requires k <= l
    ensures RowSum(n, k) <= RowSum(n, l)
    ensures k < l && k <= n ==> RowSum(n, k) < RowSum(n, l)
    decreases l
  {
    if k < l {
      RowSumGrows(n, k, l - 1);
      if k == l - 1 && k <= n {
        CombPositive(n, k);
      }
    }
  }

  // ---------------------------------------------------------------- the p-value

  lemma ProductSign(x: real, p: real)
    requires p > 0.0
    ensures x * p > 0.0 <==> x > 0.0
    ensures x * p == 0.0 <==> x == 0.0
  {}

  lemma HalfQuotient(s: nat, p: nat)
    requires p > 0
    ensures var q := 2.0 * (s as real / p as real);
            (q > 1.0 <==> 2 * s > p) && (q == 1.0 <==> 2 * s == p) && (q > 0.0 <==> s > 0)
  {
    var q := s as real / p as real;
    assert q * p as real == s as real;
    ProductSign(2.0 * q - 1.0, p as real);
    ProductSign(q, p as real);
    assert (2.0 * q - 1.0) * p as real == 2.0 * (q * p as real) - p as real;
  }

  /** Twice the lower tail against 2^n: above it for as many wins as losses, equal to it for a difference
      of one, below it otherwise. */
  lemma TailAgainstHalf(wins: nat, losses: nat)
    ensures var n := wins + losses;
            var tail := RowSum(n, Min(wins, losses) + 1);
            && tail > 0
            && (2 * tail > Pow2(n) <==> wins == losses)
            && (2 * tail == Pow2(n) <==> wins == losses + 1 || losses == wins + 1)
  {
    var n, k := wins + losses, Min(wins, losses);
    RowComplement(n, k + 1);
    CombPositive(n, k);
    assert RowSum(n, k + 1) == RowSum(n, k) + Comb(n, k);
    if wins != losses {
      RowSumGrows(n, k + 1, n - k);
    }
  }

  /** The clip takes effect exactly when there are as many wins as losses. */
  lemma ClippedIffEven(wins: nat, losses: nat)
    ensures Doubled(wins, losses) > 1.0 <==> wins == losses
  {
    TailAgainstHalf(wins, losses);
    HalfQuotient(RowSum(wins + losses, Min(wins, losses) + 1), Pow2(wins + losses));
  }

  /** The p-value lies in (0, 1], does not depend on which side is called a win, and is 1 exactly when wins
      and losses differ by at most one. */
  lemma SignPBounds(wins: nat, losses: nat)
    ensures 0.0 < SignP(wins, losses) <= 1.0
    ensures SignP(wins, losses) == SignP(losses, wins)
    ensures SignP(wins, losses) == 1.0 <==> -1 <= wins - losses <= 1
  {
    hide RowSum;
    TailAgainstHalf(wins, losses);
    HalfQuotient(RowSum(wins + losses, Min(wins, losses) + 1), Pow2(wins + losses));
  }

  lemma QuotientGrows(x: nat, y: nat, p: nat)
    requires x <= y && p > 0
    ensures x as real / p as real <= y as real / p as real
  {}

  /** For a fixed number of decided cases, the p-value does not rise as the imbalance grows. */
  lemma SignPMonotone(w: nat, l: nat, w': nat, l': nat)
    requires w + l == w' + l' && Min(w', l') <= Min(w, l)
    ensures SignP(w', l') <= SignP(w, l)
  {
    RowSumGrows(w + l, Min(w', l') + 1, Min(w, l) + 1);
    QuotientGrows(RowSum(w + l, Min(w', l') + 1), RowSum(w + l, Min(w, l) + 1), Pow2(w + l));
  }
}
