/** The exact paired sign test of the benchmarks (benchmarks/stats.ts, lines 57-112). */
module SignTest {
  import opened Numbers

  // ---------------------------------------------------------------- counting

  /** Pascal's triangle. */
  function Binomial(n: nat, k: int): nat {
    if k < 0 then 0
    else if k == 0 then 1
    else if n == 0 then 0
    else Binomial(n - 1, k - 1) + Binomial(n - 1, k)
  }

  lemma {:induction false} BinomialBeyond(n: nat, k: int)
    requires k > n
    ensures Binomial(n, k) == 0
  {
    if n > 0 {
      BinomialBeyond(n - 1, k - 1);
      BinomialBeyond(n - 1, k);
    }
  }

  /** The absorption identity, which makes every division in `Choose` exact. */
  lemma {:induction false} Absorption(m: nat, i: nat)
    requires i >= 1
    ensures i * Binomial(m + 1, i) == (m + 1) * Binomial(m, i - 1)
    decreases m
  {
    if m == 0 {
      if i >= 2 {
        BinomialBeyond(1, i);
        BinomialBeyond(0, i - 1);
      }
    } else if i == 1 {
      Absorption(m - 1, 1);
    } else {
      Absorption(m - 1, i);
      Absorption(m - 1, i - 1);
      AbsorptionStep(m, i, Binomial(m, i - 1), Binomial(m, i), Binomial(m - 1, i - 1), Binomial(m - 1, i - 2));
    }
  }

  lemma AbsorptionStep(m: int, i: int, a: int, b: int, c: int, d: int)
    requires a == c + d && i * b == m * c && (i - 1) * a == m * d
    ensures i * (a + b) == (m + 1) * a
  {
    assert m * a == m * c + m * d;
  }

  /** The multiplicative form: every quotient on the way is a whole number. */
  method Choose(n: int, k: int) returns (result: real)
    requires n >= 0
    ensures result == Binomial(n, k) as real
  {
    if k < 0 || k > n {
      if k > n { BinomialBeyond(n, k); }
      return 0.0;
    }
    result := 1.0;
    for i := 1 to k + 1
      invariant result == Binomial(n - k + i - 1, i - 1) as real
    {
      var m := n - k + i - 1;
      Absorption(m, i);
      ExactQuotient(Binomial(m, i - 1), m + 1, i, Binomial(m + 1, i));
      result := result * (n - k + i) as real / i as real;
    }
  }

  lemma ExactQuotient(x: nat, y: nat, i: nat, q: nat)
    requires i >= 1 && i * q == y * x
    ensures x as real * y as real / i as real == q as real
  {
    assert x as real * y as real == (y * x) as real;
    assert (i * q) as real == i as real * q as real;
  }

  function Pow2(n: nat): (p: nat)
    ensures p >= 1
  {
    if n == 0 then 1 else 2 * Pow2(n - 1)
  }

  // ---------------------------------------------------------------- outcomes

  /** All sequences of `n` rounds; `true` is a round the left side wins. */
  ghost function Outcomes(n: nat): set<seq<bool>> {
    if n == 0 then {[]} else Extend(Outcomes(n - 1), true) + Extend(Outcomes(n - 1), false)
  }

  ghost function Extend(s: set<seq<bool>>, last: bool): set<seq<bool>> {
    set w | w in s :: w + [last]
  }

  function Wins(w: seq<bool>): nat {
    if w == [] then 0 else Wins(w[..|w| - 1]) + if w[|w| - 1] then 1 else 0
  }

  lemma {:induction false} ExtendCard(s: set<seq<bool>>, last: bool)
    ensures |Extend(s, last)| == |s|
    decreases |s|
  {
    if s == {} {
      assert Extend(s, last) == {};
    } else {
      var w :| w in s;
      ExtendCard(s - {w}, last);
      assert Extend(s, last) == Extend(s - {w}, last) + {w + [last]};
      forall v | v in s - {w} ensures v + [last] != w + [last] {
        assert (v + [last])[..|v|] == v && (w + [last])[..|w|] == w;
      }
    }
  }

  lemma ExtendDisjoint(a: set<seq<bool>>, b: set<seq<bool>>)
    ensures Extend(a, true) !! Extend(b, false)
  {
    forall v, w | v in a && w in b ensures v + [true] != w + [false] {
      assert (v + [true])[|v + [true]| - 1] && !(w + [false])[|w + [false]| - 1];
    }
  }

  /** The sequences of `n` rounds, no fewer and no more. */
  lemma {:induction false} OutcomesAll(n: nat, w: seq<bool>)
    ensures w in Outcomes(n) <==> |w| == n
    decreases n
  {
    if n > 0 {
      if w != [] {
        var v, last := w[..|w| - 1], w[|w| - 1];
        assert w == v + [last];
        OutcomesAll(n - 1, v);
      }
      forall v | v in Outcomes(n - 1) ensures |v| == n - 1 { OutcomesAll(n - 1, v); }
    }
  }

  lemma {:induction false} OutcomesCard(n: nat)
    ensures |Outcomes(n)| == Pow2(n)
  {
    if n > 0 {
      OutcomesCard(n - 1);
      ExtendCard(Outcomes(n - 1), true);
      ExtendCard(Outcomes(n - 1), false);
      ExtendDisjoint(Outcomes(n - 1), Outcomes(n - 1));
    }
  }

  ghost function WithWins(n: nat, k: int): set<seq<bool>> {
    set w | w in Outcomes(n) && Wins(w) == k
  }

  lemma WinsSnoc(w: seq<bool>, last: bool)
    ensures Wins(w + [last]) == Wins(w) + if last then 1 else 0
  {
    assert (w + [last])[..|w|] == w;
  }

  lemma WithWinsSplit(n: nat, k: int)
    requires n > 0
    ensures WithWins(n, k) == Extend(WithWins(n - 1, k - 1), true) + Extend(WithWins(n - 1, k), false)
  {
    forall w | w in Outcomes(n - 1)
      ensures Wins(w + [true]) == Wins(w) + 1 && Wins(w + [false]) == Wins(w)
    {
      WinsSnoc(w, true);
      WinsSnoc(w, false);
    }
  }

  /** Binomial coefficients count the sequences with a given number of wins. */
  lemma {:induction false} BinomialCounts(n: nat, k: int)
    ensures |WithWins(n, k)| == Binomial(n, k)
    decreases n
  {
    if n == 0 {
      NoRounds(k);
    } else {
      WithWinsSplit(n, k);
      BinomialCounts(n - 1, k - 1);
      BinomialCounts(n - 1, k);
      ExtendCard(WithWins(n - 1, k - 1), true);
      ExtendCard(WithWins(n - 1, k), false);
      ExtendDisjoint(WithWins(n - 1, k - 1), WithWins(n - 1, k));
      PascalRow(n, k);
    }
  }

  lemma NoRounds(k: int)
    ensures |WithWins(0, k)| == Binomial(0, k)
  {
    assert Outcomes(0) == {[]} && Wins([]) == 0;
    if k == 0 { assert WithWins(0, 0) == {[]}; } else { assert WithWins(0, k) == {}; }
  }

  lemma PascalRow(n: nat, k: int)
    requires n > 0
    ensures Binomial(n, k) == Binomial(n - 1, k - 1) + Binomial(n - 1, k)
  {}

  lemma {:induction false} BinomialSymmetric(n: nat, k: int)
    ensures Binomial(n, k) == Binomial(n, n - k)
    decreases n
  {
    if k < 0 {
      BinomialBeyond(n, n - k);
    } else if k > n {
      BinomialBeyond(n, k);
    } else if n > 0 {
      PascalRow(n, k);
      PascalRow(n, n - k);
      BinomialSymmetric(n - 1, k - 1);
      BinomialSymmetric(n - 1, k);
    }
  }

  // ---------------------------------------------------------------- the tail

  /** The sum of the coefficients from `e` up. */
  function Tail(n: nat, e: nat): nat
    decreases n + 1 - e
  {
    if e > n then 0 else Binomial(n, e) + Tail(n, e + 1)
  }

  ghost function AtLeastWins(n: nat, e: nat): set<seq<bool>> { set w | w in Outcomes(n) && Wins(w) >= e }

  ghost function AtLeastLosses(n: nat, e: nat): set<seq<bool>> { set w | w in Outcomes(n) && n - Wins(w) >= e }

  lemma {:induction false} WinsBounded(w: seq<bool>)
    ensures Wins(w) <= |w|
  {
    if w != [] { WinsBounded(w[..|w| - 1]); }
  }

  lemma OutcomeWinsBounded(n: nat)
    ensures forall w | w in Outcomes(n) :: Wins(w) <= n
  {
    forall w | w in Outcomes(n) ensures Wins(w) <= n {
      OutcomesAll(n, w);
      WinsBounded(w);
    }
  }

  lemma {:induction false} TailCountsWins(n: nat, e: nat)
    ensures |AtLeastWins(n, e)| == Tail(n, e)
    decreases n + 1 - e
  {
    if e > n {
      OutcomeWinsBounded(n);
      assert AtLeastWins(n, e) == {};
    } else {
      assert AtLeastWins(n, e) == WithWins(n, e) + AtLeastWins(n, e + 1);
      BinomialCounts(n, e);
      TailCountsWins(n, e + 1);
    }
  }

  lemma {:induction false} TailCountsLosses(n: nat, e: nat)
    ensures |AtLeastLosses(n, e)| == Tail(n, e)
    decreases n + 1 - e
  {
    if e > n {
      assert AtLeastLosses(n, e) == {};
    } else {
      assert AtLeastLosses(n, e) == WithWins(n, n - e) + AtLeastLosses(n, e + 1);
      BinomialCounts(n, n - e);
      BinomialSymmetric(n, e);
      TailCountsLosses(n, e + 1);
    }
  }

  /** How lopsided a split of `n` rounds is: the rounds of the side that won more. */
  function Lopsidedness(n: nat, wins: nat): nat
    requires wins <= n
  {
    Max(wins, n - wins)
  }

  /** The win/loss sequences at least as lopsided as `wins` out of `n`. */
  ghost function AsLopsided(n: nat, wins: nat): set<seq<bool>>
    requires wins <= n
  {
    set w | w in Outcomes(n) && (Wins(w) >= Lopsidedness(n, wins) || n - Wins(w) >= Lopsidedness(n, wins))
  }

  /** Twice the tail, capped at everything, counts them; the cap bites on even splits only. */
  lemma TailCountsLopsided(n: nat, wins: nat)
    requires wins <= n
    ensures var e := Lopsidedness(n, wins);
            |AsLopsided(n, wins)| == if 2 * Tail(n, e) < Pow2(n) then 2 * Tail(n, e) else Pow2(n)
  {
    var e := Lopsidedness(n, wins);
    var a, b := AtLeastWins(n, e), AtLeastLosses(n, e);
    TailCountsWins(n, e);
    TailCountsLosses(n, e);
    OutcomesCard(n);
    assert AsLopsided(n, wins) == a + b;
    SubsetCard(a + b, Outcomes(n));
    if 2 * e == n {
      assert a + b == Outcomes(n);
    } else {
      assert a !! b;
    }
  }

  lemma {:induction false} SubsetCard<T>(a: set<T>, b: set<T>)
    requires a <= b
    ensures |a| <= |b|
  {
    assert b == a + (b - a);
  }

  // ---------------------------------------------------------------- the test

  /** The decided pairs among the first `m`, in order: `true` where the left side is larger. */
  function Decisions(left: seq<real>, right: seq<real>, m: nat): (w: seq<bool>)
    requires m <= |left| && m <= |right|
    ensures |w| <= m
  {
    if m == 0 then []
    else
      var before := Decisions(left, right, m - 1);
      if left[m - 1] == right[m - 1] then before else before + [left[m - 1] > right[m - 1]]
  }

  function Differing(left: seq<real>, right: seq<real>, m: nat): set<nat>
    requires m <= |left| && m <= |right|
  {
    set i: nat | i < m && left[i] != right[i]
  }

  function LeftAhead(left: seq<real>, right: seq<real>, m: nat): set<nat>
    requires m <= |left| && m <= |right|
  {
    set i: nat | i < m && left[i] > right[i]
  }

  lemma OneMoreDiffers(left: seq<real>, right: seq<real>, k: nat)
    requires k < |left| && k < |right|
    ensures |Differing(left, right, k + 1)| == |Differing(left, right, k)| + (if left[k] != right[k] then 1 else 0)
  {
    var before, after := Differing(left, right, k), Differing(left, right, k + 1);
    assert k !in before;
    if left[k] != right[k] { assert after == before + {k}; } else { assert after == before; }
  }

  lemma OneMoreAhead(left: seq<real>, right: seq<real>, k: nat)
    requires k < |left| && k < |right|
    ensures |LeftAhead(left, right, k + 1)| == |LeftAhead(left, right, k)| + (if left[k] > right[k] then 1 else 0)
  {
    var before, after := LeftAhead(left, right, k), LeftAhead(left, right, k + 1);
    assert k !in before;
    if left[k] > right[k] { assert after == before + {k}; } else { assert after == before; }
  }

  lemma OneMoreDecision(left: seq<real>, right: seq<real>, k: nat)
    requires k < |left| && k < |right|
    ensures var before, after := Decisions(left, right, k), Decisions(left, right, k + 1);
            && |after| == |before| + (if left[k] != right[k] then 1 else 0)
            && Wins(after) == Wins(before) + (if left[k] > right[k] then 1 else 0)
  {
    WinsSnoc(Decisions(left, right, k), left[k] > right[k]);
  }

  ghost predicate Counted(left: seq<real>, right: seq<real>, m: nat)
    requires m <= |left| && m <= |right|
  {
    && |Decisions(left, right, m)| == |Differing(left, right, m)|
    && Wins(Decisions(left, right, m)) == |LeftAhead(left, right, m)|
  }

  lemma NoneCounted(left: seq<real>, right: seq<real>)
    ensures Counted(left, right, 0)
  {
    assert Differing(left, right, 0) == {} && LeftAhead(left, right, 0) == {};
  }

  lemma OneMoreCounted(left: seq<real>, right: seq<real>, k: nat)
    requires k < |left| && k < |right| && Counted(left, right, k)
    ensures Counted(left, right, k + 1)
  {
    OneMoreDiffers(left, right, k);
    OneMoreAhead(left, right, k);
    OneMoreDecision(left, right, k);
  }

  /** The rounds that count are those where the sides differ, and the wins those where the left is ahead. */
  lemma {:induction false} DecisionsCount(left: seq<real>, right: seq<real>, m: nat)
    requires m <= |left| && m <= |right|
    ensures |Decisions(left, right, m)| == |Differing(left, right, m)|
    ensures Wins(Decisions(left, right, m)) == |LeftAhead(left, right, m)|
  {
    NoneCounted(left, right);
    for k := 0 to m
      invariant Counted(left, right, k)
    {
      OneMoreCounted(left, right, k);
    }
  }

  function Pairs(left: seq<real>, right: seq<real>): nat { Min(|left|, |right|) }

  datatype SignTestResult = SignTestResult(leftWins: nat, rounds: nat, pValue: real, significant: bool)

  /** The share of all win/loss sequences of `n` rounds at least as lopsided as `wins` wins. */
  ghost function LopsidedShare(n: nat, wins: nat): real
    requires wins <= n
  {
    |AsLopsided(n, wins)| as real / Pow2(n) as real
  }

  method PairedSignTest(left: seq<real>, right: seq<real>) returns (r: SignTestResult)
    ensures var w := Decisions(left, right, Pairs(left, right));
            && r.rounds == |w|
            && r.leftWins == Wins(w) <= |w|
            && r.pValue == LopsidedShare(|w|, Wins(w))
            && (r.significant <==> r.pValue < 0.05)
  {
    ghost var w := Decisions(left, right, Pairs(left, right));
    var rounds, leftWins := CountWins(left, right);
    WinsBounded(w);
    if rounds == 0 {
      assert w == [] && AsLopsided(0, 0) == {[]};
      return SignTestResult(0, 0, 1.0, false);
    }
    var pValue := TwoSided(rounds, leftWins);
    return SignTestResult(leftWins, rounds, pValue, pValue < 0.05);
  }

  /** The loop over the pairs; ties count for neither side. */
  method CountWins(left: seq<real>, right: seq<real>) returns (rounds: nat, leftWins: nat)
    ensures var w := Decisions(left, right, Pairs(left, right)); rounds == |w| && leftWins == Wins(w)
  {
    rounds, leftWins := 0, 0;
    for index := 0 to Pairs(left, right)
      invariant rounds == |Decisions(left, right, index)| && leftWins == Wins(Decisions(left, right, index))
    {
      var a, b := left[index], right[index];
      WinsSnoc(Decisions(left, right, index), a > b);
      if a == b {
        continue;
      }
      rounds := rounds + 1;
      if a > b {
        leftWins := leftWins + 1;
      }
    }
  }

  /** The two-sided p-value of a split. */
  method TwoSided(rounds: nat, leftWins: nat) returns (pValue: real)
    requires leftWins <= rounds
    ensures pValue == LopsidedShare(rounds, leftWins)
  {
    var extreme := Max(leftWins, rounds - leftWins);
    var tail := 0.0;
    for k := extreme to rounds + 1
      invariant tail + Tail(rounds, k) as real == Tail(rounds, extreme) as real
    {
      var c := Choose(rounds, k);
      tail := tail + c;
    }
    var ratio := 2.0 * tail / Pow2(rounds) as real;
    TailCountsLopsided(rounds, leftWins);
    CapQuotient(2 * Tail(rounds, extreme), Pow2(rounds));
    pValue := if ratio < 1.0 then ratio else 1.0;
  }

  lemma CapQuotient(x: nat, y: nat)
    requires y >= 1
    ensures x < y ==> x as real / y as real < 1.0
    ensures x >= y ==> x as real / y as real >= 1.0
    ensures y as real / y as real == 1.0
  {}

  // ---------------------------------------------------------------- what the p-value means

  /** Swapping the sides swaps wins and losses and keeps the share. */
  lemma {:induction false} SwappedDecisions(left: seq<real>, right: seq<real>, m: nat)
    requires m <= |left| && m <= |right|
    ensures var w, v := Decisions(left, right, m), Decisions(right, left, m);
            |v| == |w| && Wins(v) + Wins(w) == |w|
  {
    if m > 0 {
      SwappedDecisions(left, right, m - 1);
      WinsSnoc(Decisions(left, right, m - 1), left[m - 1] > right[m - 1]);
      WinsSnoc(Decisions(right, left, m - 1), right[m - 1] > left[m - 1]);
    }
  }

  lemma ShareSymmetric(n: nat, wins: nat)
    requires wins <= n
    ensures LopsidedShare(n, wins) == LopsidedShare(n, n - wins)
  {
    assert AsLopsided(n, wins) == AsLopsided(n, n - wins);
  }

  /** Both sweeps are as lopsided as anything, so fewer than six rounds never reach 5 per cent. */
  lemma FewRoundsNeverSignificant(n: nat, wins: nat)
    requires wins <= n < 6
    ensures LopsidedShare(n, wins) >= 0.05
  {
    TailCountsLopsided(n, wins);
    SweepInTail(n, Lopsidedness(n, wins));
    Pow2AtMost32(n);
    AtLeastFivePercent(|AsLopsided(n, wins)|, Pow2(n));
  }

  lemma Pow2AtMost32(n: nat)
    requires n < 6
    ensures Pow2(n) <= 32
  {
    assert Pow2(2) == 4 && Pow2(5) == 32 && Pow2(4) == 16 && Pow2(3) == 8;
  }

  lemma AtLeastFivePercent(x: nat, y: nat)
    requires 1 <= y <= 20 * x
    ensures x as real / y as real >= 0.05
  {}

  /** A split of `n` rounds can be significant exactly when there are at least six. */
  lemma SignificanceNeedsSixRounds(n: nat)
    ensures (exists wins | 0 <= wins <= n :: LopsidedShare(n, wins) < 0.05) <==> n >= 6
  {
    if n >= 6 {
      SweepSignificant(n);
    } else {
      forall wins | 0 <= wins <= n ensures LopsidedShare(n, wins) >= 0.05 {
        FewRoundsNeverSignificant(n, wins);
      }
    }
  }

  lemma {:induction false} SweepInTail(n: nat, e: nat)
    requires e <= n
    ensures Tail(n, e) >= 1
    decreases n - e
  {
    if e < n { SweepInTail(n, e + 1); } else { BinomialSymmetric(n, n); }
  }

  /** From six rounds on, a clean sweep is significant. */
  lemma SweepSignificant(n: nat)
    requires n >= 6
    ensures LopsidedShare(n, n) < 0.05
  {
    TailCountsLopsided(n, n);
    BinomialSymmetric(n, n);
    assert Tail(n, n) == 1;
    Pow2AtLeast64(n);
  }

  lemma {:induction false} Pow2AtLeast64(n: nat)
    requires n >= 6
    ensures Pow2(n) >= 64
    decreases n
  {
    if n > 6 { Pow2AtLeast64(n - 1); } else { assert Pow2(3) == 8; }
  }
}
