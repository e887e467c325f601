/**
 * The pure computations of the forecasting backend: the resolution reward,
 * Python's rounding, the crowd prediction, the placeholder user accuracy,
 * the rank query, and the row-by-row effect of resolving a market.
 */
module Scoring {
  import opened Tables

  // ---------------------------------------------------------------------
  // Reward
  // ---------------------------------------------------------------------

  /** How well a probability matched the outcome: the probability itself for "yes", its complement otherwise. */
  function Accuracy(outcome: string, probability: int): int {
    if outcome == "yes" then probability else 100 - probability
  }

  /**
   * `int(accuracy * 0.5)`: Python's int() truncates toward zero.
   * For a probability in [0,100] this is the floor of half the accuracy,
   * so a reward lies between 0 and 50.
   */
  function Reward(outcome: string, probability: int): (r: int)
    ensures 0 <= probability <= 100 ==> 0 <= r <= MaxReward
    ensures 0 <= probability <= 100 && outcome == "yes" ==> 2 * r <= probability <= 2 * r + 1
    ensures 0 <= probability <= 100 && outcome != "yes" ==> 2 * r <= 100 - probability <= 2 * r + 1
    ensures Accuracy(outcome, probability) < 0 ==> 2 * r - 1 <= Accuracy(outcome, probability) <= 2 * r
  {
    var a := Accuracy(outcome, probability);
    if a >= 0 then a / 2 else -((-a) / 2)
  }

  /** Only "yes" pays for confidence in yes; every other outcome string is scored as "no". */
  lemma RewardOutcomes(outcome: string, probability: int)
    requires 0 <= probability <= 100
    ensures outcome != "yes" ==> Reward(outcome, probability) == Reward("no", probability)
    ensures Reward("yes", probability) + Reward("no", probability) == MaxReward - probability % 2
    ensures Reward("yes", 80) == 40 && Reward("no", 80) == 10
  {
  }

  // ---------------------------------------------------------------------
  // Python's round(x, 0) on an exact quotient
  // ---------------------------------------------------------------------

  /**
   * Python's `round(num / den, 0)`: the nearest integer to num / den,
   * and on a tie (num / den exactly halfway) the even one.
   */
  function RoundHalfEven(num: int, den: int): (r: int)
    requires den > 0
    ensures den * (2 * r - 1) <= 2 * num <= den * (2 * r + 1)
    ensures 2 * num == den * (2 * r - 1) || 2 * num == den * (2 * r + 1) ==> r % 2 == 0
  {
    var q, rem := num / den, num % den;
    assert num == den * q + rem && 0 <= rem < den;
    assert den * (2 * q - 1) == 2 * (den * q) - den;
    assert den * (2 * q + 1) == 2 * (den * q) + den;
    assert den * (2 * (q + 1) - 1) == 2 * (den * q) + den;
    assert den * (2 * (q + 1) + 1) == 2 * (den * q) + 3 * den;
    if 2 * rem < den then q
    else if 2 * rem > den then q + 1
    else if q % 2 == 0 then q
    else q + 1
  }

  /** The contract of RoundHalfEven pins the result down: no other integer satisfies it. */
  lemma RoundHalfEvenUnique(num: int, den: int, r': int)
    requires den > 0
    requires den * (2 * r' - 1) <= 2 * num <= den * (2 * r' + 1)
    requires 2 * num == den * (2 * r' - 1) || 2 * num == den * (2 * r' + 1) ==> r' % 2 == 0
    ensures r' == RoundHalfEven(num, den)
  {
    var r := RoundHalfEven(num, den);
    if r' > r {
      MulMonotone(den, 2 * r + 1, 2 * r' - 1);
      assert 2 * num == den * (2 * r + 1) && 2 * num == den * (2 * r' - 1);
      MulCancel(den, 2 * r + 1, 2 * r' - 1);
    } else if r' < r {
      MulMonotone(den, 2 * r' + 1, 2 * r - 1);
      assert 2 * num == den * (2 * r' + 1) && 2 * num == den * (2 * r - 1);
      MulCancel(den, 2 * r' + 1, 2 * r - 1);
    }
  }

  /** A quotient between lo and hi rounds to an integer between lo and hi. */
  lemma RoundHalfEvenBounds(num: int, den: int, lo: int, hi: int)
    requires den > 0
    requires den * lo <= num <= den * hi
    ensures lo <= RoundHalfEven(num, den) <= hi
  {
    var r := RoundHalfEven(num, den);
    assert den * (2 * hi + 1) == 2 * (den * hi) + den;
    assert den * (2 * lo - 1) == 2 * (den * lo) - den;
    if r > hi {
      MulMonotone(den, 2 * hi + 1, 2 * r - 1);
    }
    if r < lo {
      MulMonotone(den, 2 * r + 1, 2 * lo - 1);
    }
  }

  lemma MulMonotone(a: int, x: int, y: int)
    requires a > 0 && x <= y
    ensures a * x <= a * y
  {
  }

  lemma MulCancel(a: int, x: int, y: int)
    requires a > 0 && a * x == a * y
    ensures x == y
  {
  }

  // ---------------------------------------------------------------------
  // Sums over forecast rows (each defined on the last row, so that a
  // loop walking the rows in order extends them one row at a time)
  // ---------------------------------------------------------------------

  function SumProbabilities(rows: seq<Forecast>): int {
    if rows == [] then 0
    else SumProbabilities(rows[..|rows| - 1]) + rows[|rows| - 1].probability
  }

  function Abs(x: int): int {
    if x < 0 then -x else x
  }

  /** The placeholder's per-forecast term `abs(100 - probability)`, summed. */
  function SumDeviation(rows: seq<Forecast>): int {
    if rows == [] then 0
    else SumDeviation(rows[..|rows| - 1]) + Abs(100 - rows[|rows| - 1].probability)
  }

  ghost predicate ProbabilitiesInRange(rows: seq<Forecast>) {
    forall i :: 0 <= i < |rows| ==> 0 <= rows[i].probability <= 100
  }

  lemma {:induction false} SumProbabilitiesBounds(rows: seq<Forecast>)
    requires ProbabilitiesInRange(rows)
    ensures 0 <= SumProbabilities(rows) <= 100 * |rows|
  {
    if rows != [] {
      SumProbabilitiesBounds(rows[..|rows| - 1]);
    }
  }

  /** For probabilities in [0,100], the deviations sum to 100 per row minus the probabilities. */
  lemma {:induction false} SumDeviationComplement(rows: seq<Forecast>)
    requires ProbabilitiesInRange(rows)
    ensures SumDeviation(rows) == 100 * |rows| - SumProbabilities(rows)
  {
    if rows != [] {
      SumDeviationComplement(rows[..|rows| - 1]);
    }
  }

  // ---------------------------------------------------------------------
  // Crowd prediction
  // ---------------------------------------------------------------------

  /** The rows `SELECT ... FROM forecasts WHERE market_id = m` selects, in table order. */
  function MarketRows(fs: seq<Forecast>, m: MarketId): (rows: seq<Forecast>)
    ensures |rows| <= |fs|
    ensures forall i :: 0 <= i < |rows| ==> rows[i].market == m
    ensures forall i :: 0 <= i < |fs| && fs[i].market == m ==> fs[i] in rows
    ensures ProbabilitiesInRange(fs) ==> ProbabilitiesInRange(rows)
  {
    if fs == [] then []
    else
      var last := fs[|fs| - 1];
      MarketRows(fs[..|fs| - 1], m) + (if last.market == m then [last] else [])
  }

  /** The market's rows are exactly the table's rows of that market, each as often as in the table. */
  lemma {:induction false} MarketRowsExact(fs: seq<Forecast>, m: MarketId)
    ensures forall f :: multiset(MarketRows(fs, m))[f] == (if f.market == m then multiset(fs)[f] else 0)
  {
    if fs != [] {
      var n := |fs| - 1;
      MarketRowsExact(fs[..n], m);
      assert fs == fs[..n] + [fs[n]];
    }
  }

  /**
   * `calculate_crowd_prediction`: the rounded mean probability of the
   * market's forecasts and their number, or (50, 0) when there are none.
   */
  function CrowdPrediction(fs: seq<Forecast>, m: MarketId): (r: (int, int))
    ensures r.1 == |MarketRows(fs, m)|
    ensures r.1 == 0 ==> r.0 == DefaultCrowdPrediction
    ensures r.1 > 0 ==> r.1 * (2 * r.0 - 1) <= 2 * SumProbabilities(MarketRows(fs, m)) <= r.1 * (2 * r.0 + 1)
    ensures var s := 2 * SumProbabilities(MarketRows(fs, m));
      r.1 > 0 && (s == r.1 * (2 * r.0 - 1) || s == r.1 * (2 * r.0 + 1)) ==> r.0 % 2 == 0
  {
    var rows := MarketRows(fs, m);
    if |rows| > 0 then (RoundHalfEven(SumProbabilities(rows), |rows|), |rows|)
    else (DefaultCrowdPrediction, 0)
  }

  /** When every stored probability is in [0,100], so is the crowd prediction. */
  lemma CrowdPredictionInRange(fs: seq<Forecast>, m: MarketId)
    requires ProbabilitiesInRange(fs)
    ensures 0 <= CrowdPrediction(fs, m).0 <= 100
  {
    var rows := MarketRows(fs, m);
    if |rows| > 0 {
      SumProbabilitiesBounds(rows);
      RoundHalfEvenBounds(SumProbabilities(rows), |rows|, 0, 100);
    }
  }

  // ---------------------------------------------------------------------
  // Placeholder user accuracy
  // ---------------------------------------------------------------------

  /** The user's forecasts on markets whose status is resolved (the join in `calculate_user_accuracy`). */
  function UserResolvedRows(fs: seq<Forecast>, markets: map<MarketId, Status>, u: UserId): (rows: seq<Forecast>)
    ensures |rows| <= |fs|
    ensures forall i :: 0 <= i < |rows| ==>
      rows[i].user == u && rows[i].market in markets && markets[rows[i].market] == Resolved
    ensures forall i :: 0 <= i < |fs| && fs[i].user == u && fs[i].market in markets && markets[fs[i].market] == Resolved ==>
      fs[i] in rows
    ensures ProbabilitiesInRange(fs) ==> ProbabilitiesInRange(rows)
  {
    if fs == [] then []
    else
      var last := fs[|fs| - 1];
      var keep := last.user == u && last.market in markets && markets[last.market] == Resolved;
      UserResolvedRows(fs[..|fs| - 1], markets, u) + (if keep then [last] else [])
  }

  /** The rows used for accuracy are exactly the user's rows on resolved markets, each as often as in the table. */
  lemma {:induction false} UserResolvedRowsExact(fs: seq<Forecast>, markets: map<MarketId, Status>, u: UserId)
    ensures forall f ::
      multiset(UserResolvedRows(fs, markets, u))[f] ==
      (if f.user == u && f.market in markets && markets[f.market] == Resolved then multiset(fs)[f] else 0)
  {
    if fs != [] {
      var n := |fs| - 1;
      UserResolvedRowsExact(fs[..n], markets, u);
      assert fs == fs[..n] + [fs[n]];
    }
  }

  /**
   * The value `calculate_user_accuracy` computes: 0 without resolved
   * forecasts, otherwise round(100 - total deviation / count).
   */
  function UserAccuracyOf(fs: seq<Forecast>, markets: map<MarketId, Status>, u: UserId): int {
    var rows := UserResolvedRows(fs, markets, u);
    if |rows| == 0 then 0
    else RoundHalfEven(100 * |rows| - SumDeviation(rows), |rows|)
  }

  /**
   * The placeholder never looks at an outcome: for probabilities in
   * [0,100] it is just the rounded mean of the user's resolved
   * probabilities, and it lies in [0,100].
   */
  lemma UserAccuracyIsMeanProbability(fs: seq<Forecast>, markets: map<MarketId, Status>, u: UserId)
    requires ProbabilitiesInRange(fs)
    ensures var rows := UserResolvedRows(fs, markets, u);
      |rows| > 0 ==> UserAccuracyOf(fs, markets, u) == RoundHalfEven(SumProbabilities(rows), |rows|)
    ensures 0 <= UserAccuracyOf(fs, markets, u) <= 100
  {
    var rows := UserResolvedRows(fs, markets, u);
    if |rows| > 0 {
      SumDeviationComplement(rows);
      SumProbabilitiesBounds(rows);
      RoundHalfEvenBounds(SumProbabilities(rows), |rows|, 0, 100);
    }
  }

  /** Two tables that agree row by row on every column but the reward. */
  ghost predicate SameExceptRewards(fs: seq<Forecast>, gs: seq<Forecast>) {
    && |fs| == |gs|
    && forall i :: 0 <= i < |fs| ==>
         && fs[i].id == gs[i].id && fs[i].user == gs[i].user && fs[i].market == gs[i].market
         && fs[i].probability == gs[i].probability && fs[i].tokensSpent == gs[i].tokensSpent
  }

  lemma {:induction false} UserResolvedRowsIgnoreRewards(fs: seq<Forecast>, gs: seq<Forecast>, markets: map<MarketId, Status>, u: UserId)
    requires SameExceptRewards(fs, gs)
    ensures SameExceptRewards(UserResolvedRows(fs, markets, u), UserResolvedRows(gs, markets, u))
  {
    if fs != [] {
      UserResolvedRowsIgnoreRewards(fs[..|fs| - 1], gs[..|gs| - 1], markets, u);
    }
  }

  lemma {:induction false} SumsIgnoreRewards(fs: seq<Forecast>, gs: seq<Forecast>)
    requires SameExceptRewards(fs, gs)
    ensures SumProbabilities(fs) == SumProbabilities(gs)
    ensures SumDeviation(fs) == SumDeviation(gs)
  {
    if fs != [] {
      SumsIgnoreRewards(fs[..|fs| - 1], gs[..|gs| - 1]);
    }
  }

  /**
   * The accuracy ignores what the market resolved to: tables that differ
   * only in the rewards written at resolution give the same accuracy.
   */
  lemma UserAccuracyIgnoresRewards(fs: seq<Forecast>, gs: seq<Forecast>, markets: map<MarketId, Status>, u: UserId)
    requires SameExceptRewards(fs, gs)
    ensures UserAccuracyOf(fs, markets, u) == UserAccuracyOf(gs, markets, u)
  {
    var a, b := UserResolvedRows(fs, markets, u), UserResolvedRows(gs, markets, u);
    UserResolvedRowsIgnoreRewards(fs, gs, markets, u);
    SumsIgnoreRewards(a, b);
    assert |a| == |b| && SumDeviation(a) == SumDeviation(b);
  }

  // ---------------------------------------------------------------------
  // Rank
  // ---------------------------------------------------------------------

  /** The users with strictly more tokens than t. */
  function Richer(users: map<UserId, User>, t: int): set<UserId> {
    set v | v in users && users[v].tokens > t
  }

  /** `SELECT COUNT(*) + 1 FROM users WHERE tokens > (the user's tokens)`. */
  function Rank(users: map<UserId, User>, u: UserId): (r: int)
    requires u in users
    ensures 1 <= r <= |users|
  {
    var richer := Richer(users, users[u].tokens);
    assert richer <= users.Keys - {u};
    SubsetCardinality(richer, users.Keys - {u});
    1 + |richer|
  }

  /** Rank 1 means holding the largest balance, and the other way round. */
  lemma RankOneIffRichest(users: map<UserId, User>, u: UserId)
    requires u in users
    ensures Rank(users, u) == 1 <==> forall v :: v in users ==> users[v].tokens <= users[u].tokens
  {
    var richer := Richer(users, users[u].tokens);
    if forall v :: v in users ==> users[v].tokens <= users[u].tokens {
      assert richer == {};
    } else {
      var v :| v in users && users[v].tokens > users[u].tokens;
      assert v in richer;
    }
  }

  /** More tokens never rank worse, strictly more ranks strictly better, and equal balances share a rank. */
  lemma RankMonotone(users: map<UserId, User>, a: UserId, b: UserId)
    requires a in users && b in users
    ensures users[a].tokens >= users[b].tokens ==> Rank(users, a) <= Rank(users, b)
    ensures users[a].tokens > users[b].tokens ==> Rank(users, a) < Rank(users, b)
    ensures users[a].tokens == users[b].tokens ==> Rank(users, a) == Rank(users, b)
  {
    var ra, rb := Richer(users, users[a].tokens), Richer(users, users[b].tokens);
    if users[a].tokens > users[b].tokens {
      assert ra <= rb - {a};
      SubsetCardinality(ra, rb - {a});
    } else if users[a].tokens == users[b].tokens {
      assert ra == rb;
    }
  }

  lemma {:induction false} SubsetCardinality<T>(a: set<T>, b: set<T>)
    requires a <= b
    ensures |a| <= |b|
  {
    if a != {} {
      var x :| x in a;
      SubsetCardinality(a - {x}, b - {x});
    }
  }

  // ---------------------------------------------------------------------
  // Resolution
  // ---------------------------------------------------------------------

  /** The reward column of one row after market m resolves with the given outcome. */
  function ResolveRow(f: Forecast, m: MarketId, outcome: string): Forecast {
    if f.market == m then f.(reward := Reward(outcome, f.probability)) else f
  }

  /** The forecasts table after market m resolves: every row of m gets its reward overwritten. */
  function ResolveRows(fs: seq<Forecast>, m: MarketId, outcome: string): seq<Forecast> {
    seq(|fs|, i requires 0 <= i < |fs| => ResolveRow(fs[i], m, outcome))
  }

  /** The sum of the reward column over user u's forecasts on market m. */
  function RewardTotal(fs: seq<Forecast>, u: UserId, m: MarketId): int {
    if fs == [] then 0
    else
      var last := fs[|fs| - 1];
      RewardTotal(fs[..|fs| - 1], u, m) + (if last.user == u && last.market == m then last.reward else 0)
  }

  ghost predicate RewardsNonNegative(fs: seq<Forecast>) {
    forall i :: 0 <= i < |fs| ==> fs[i].reward >= 0
  }

  lemma {:induction false} RewardTotalNonNegative(fs: seq<Forecast>, u: UserId, m: MarketId)
    requires RewardsNonNegative(fs)
    ensures RewardTotal(fs, u, m) >= 0
  {
    if fs != [] {
      RewardTotalNonNegative(fs[..|fs| - 1], u, m);
    }
  }

  /** A market without forecasts: resolving it writes no reward and pays nobody. */
  lemma {:induction false} ResolveAbsentMarket(fs: seq<Forecast>, m: MarketId, outcome: string, u: UserId)
    requires forall i :: 0 <= i < |fs| ==> fs[i].market != m
    ensures ResolveRows(fs, m, outcome) == fs
    ensures RewardTotal(fs, u, m) == 0
  {
    if fs != [] {
      ResolveAbsentMarket(fs[..|fs| - 1], m, outcome, u);
    }
  }

  /**
   * Resolving is idempotent on the forecasts table: a second resolution
   * with the same outcome writes the same rewards again, so the amount it
   * pays each user is the same as the first time.
   */
  lemma ResolveRowsIdempotent(fs: seq<Forecast>, m: MarketId, outcome: string, u: UserId)
    ensures ResolveRows(ResolveRows(fs, m, outcome), m, outcome) == ResolveRows(fs, m, outcome)
    ensures RewardTotal(ResolveRows(ResolveRows(fs, m, outcome), m, outcome), u, m) == RewardTotal(ResolveRows(fs, m, outcome), u, m)
  {
  }

  /** What a user is paid when m resolves: the formula's reward, summed over their forecasts on m. */
  lemma {:induction false} PayoutFormula(fs: seq<Forecast>, m: MarketId, outcome: string, u: UserId)
    ensures RewardTotal(ResolveRows(fs, m, outcome), u, m) == PayoutOf(fs, m, outcome, u)
  {
    if fs != [] {
      var n := |fs| - 1;
      PayoutFormula(fs[..n], m, outcome, u);
      assert ResolveRows(fs, m, outcome)[..n] == ResolveRows(fs[..n], m, outcome);
    }
  }

  /** Sum of Reward(outcome, p) over user u's forecasts on market m, computed from probabilities alone. */
  function PayoutOf(fs: seq<Forecast>, m: MarketId, outcome: string, u: UserId): int {
    if fs == [] then 0
    else
      var last := fs[|fs| - 1];
      PayoutOf(fs[..|fs| - 1], m, outcome, u) + (if last.user == u && last.market == m then Reward(outcome, last.probability) else 0)
  }

  /**
   * Resolving twice with the same outcome: the rows come out as after one
   * resolution, but each user is credited their payout twice.
   */
  lemma ResolveTwicePaysTwice(users: map<UserId, User>, fs: seq<Forecast>, m: MarketId, outcome: string)
    ensures var once := ResolveRows(fs, m, outcome);
      var twice := ResolveRows(once, m, outcome);
      && twice == once
      && Credit(Credit(users, once, m), twice, m).Keys == users.Keys
      && forall u :: u in users ==>
           Credit(Credit(users, once, m), twice, m)[u].tokens == users[u].tokens + 2 * PayoutOf(fs, m, outcome, u)
  {
    var once := ResolveRows(fs, m, outcome);
    forall u | u in users
      ensures Credit(Credit(users, once, m), ResolveRows(once, m, outcome), m)[u].tokens == users[u].tokens + 2 * PayoutOf(fs, m, outcome, u)
    {
      ResolveRowsIdempotent(fs, m, outcome, u);
      PayoutFormula(fs, m, outcome, u);
    }
    ResolveRowsIdempotent(fs, m, outcome, 0);
  }

  /** The credit each user receives: their balance grows by the rewards of their forecasts in m. */
  function Credit(users: map<UserId, User>, fs: seq<Forecast>, m: MarketId): (r: map<UserId, User>)
    ensures r.Keys == users.Keys
  {
    map u | u in users :: users[u].(tokens := users[u].tokens + RewardTotal(fs, u, m))
  }
}
