/**
 * The request handlers of the forecasting backend that change or read the
 * token ledger, over the three tables held in memory. Each request is one
 * atomic step; the signed-in user is a parameter.
 */
module Api {
  import opened Tables
  import opened Scoring

  /** A forecast row as the handlers leave it. */
  ghost predicate RowValid(f: Forecast, users: map<UserId, User>, markets: map<MarketId, Status>, nextForecastId: int) {
    && f.user in users
    && f.market in markets
    && 1 <= f.id < nextForecastId
    && 0 <= f.probability <= 100
    && f.tokensSpent == ForecastCost
    && 0 <= f.reward <= MaxReward
    && (markets[f.market] == Active ==> f.reward == 0)
  }

  /**
   * The table invariant: ids below the counters, unique usernames and
   * emails, no negative balance, every forecast row valid (its user and
   * market exist, probability in [0,100], 10 tokens spent, reward in
   * [0,50] and still 0 while its market is active), and forecast ids
   * increasing in table order, hence unique.
   */
  ghost predicate TablesValid(users: map<UserId, User>, markets: map<MarketId, Status>, forecasts: seq<Forecast>,
                              nextUserId: int, nextForecastId: int)
  {
    && 1 <= nextUserId
    && 1 <= nextForecastId
    && (forall u :: u in users ==> 1 <= u < nextUserId && users[u].tokens >= 0)
    && (forall a, b :: a in users && b in users && a != b ==>
          users[a].username != users[b].username && users[a].email != users[b].email)
    && (forall i :: 0 <= i < |forecasts| ==> RowValid(forecasts[i], users, markets, nextForecastId))
    && (forall i, j :: 0 <= i < j < |forecasts| ==> forecasts[i].id < forecasts[j].id)
  }

  /** The markets table after `UPDATE markets SET status = 'resolved' WHERE id = m`. */
  function MarkResolved(markets: map<MarketId, Status>, m: MarketId): map<MarketId, Status> {
    if m in markets then markets[m := Resolved] else markets
  }

  /** Crediting one more row: only that row's user, and only for a row of market m, gains its reward. */
  lemma CreditOneMore(users0: map<UserId, User>, users: map<UserId, User>, done: seq<Forecast>, f: Forecast, m: MarketId,
                       outcome: string, users': map<UserId, User>)
    requires users == Credit(users0, done, m)
    requires users' ==
      if f.market == m && f.user in users
      then users[f.user := users[f.user].(tokens := users[f.user].tokens + Reward(outcome, f.probability))]
      else users
    ensures users' == Credit(users0, done + [ResolveRow(f, m, outcome)], m)
  {
  }

  /** The loop step of resolution: paying row i extends the credit from the first i rows to the first i + 1. */
  lemma PayOneMore(users0: map<UserId, User>, users: map<UserId, User>, fs: seq<Forecast>, i: int, m: MarketId,
                   outcome: string, users': map<UserId, User>)
    requires 0 <= i < |fs|
    requires users == Credit(users0, ResolveRows(fs[..i], m, outcome), m)
    requires users' ==
      if fs[i].market == m && fs[i].user in users
      then users[fs[i].user := users[fs[i].user].(tokens := users[fs[i].user].tokens + Reward(outcome, fs[i].probability))]
      else users
    ensures users' == Credit(users0, ResolveRows(fs[..i + 1], m, outcome), m)
  {
    assert ResolveRows(fs[..i + 1], m, outcome) == ResolveRows(fs[..i], m, outcome) + [ResolveRow(fs[i], m, outcome)];
    CreditOneMore(users0, users, ResolveRows(fs[..i], m, outcome), fs[i], m, outcome, users');
  }

  /** Resolving a market keeps the tables valid: rewards land in [0,50] and balances only grow. */
  lemma ResolvePreservesValid(users: map<UserId, User>, markets: map<MarketId, Status>, fs: seq<Forecast>,
                              nextUserId: int, nextForecastId: int, m: MarketId, outcome: string)
    requires TablesValid(users, markets, fs, nextUserId, nextForecastId)
    ensures var fs' := ResolveRows(fs, m, outcome);
      TablesValid(Credit(users, fs', m), MarkResolved(markets, m), fs', nextUserId, nextForecastId)
  {
    var fs' := ResolveRows(fs, m, outcome);
    var users', markets' := Credit(users, fs', m), MarkResolved(markets, m);
    forall i | 0 <= i < |fs'|
      ensures RowValid(fs'[i], users', markets', nextForecastId)
    {
      assert RowValid(fs[i], users, markets, nextForecastId);
      assert fs'[i] == ResolveRow(fs[i], m, outcome);
    }
    forall i, j | 0 <= i < j < |fs'|
      ensures fs'[i].id < fs'[j].id
    {
      assert fs'[i].id == fs[i].id && fs'[j].id == fs[j].id;
    }
    assert RewardsNonNegative(fs');
    forall u | u in users'
      ensures 1 <= u < nextUserId && users'[u].tokens >= 0
    {
      RewardTotalNonNegative(fs', u, m);
    }
    forall a, b | a in users' && b in users' && a != b
      ensures users'[a].username != users'[b].username && users'[a].email != users'[b].email
    {
      assert users'[a].username == users[a].username && users'[a].email == users[a].email;
      assert users'[b].username == users[b].username && users'[b].email == users[b].email;
    }
  }

  /** Resolving an id that is not in the markets table changes no table. */
  lemma ResolveUnknownMarket(users: map<UserId, User>, markets: map<MarketId, Status>, fs: seq<Forecast>,
                             nextUserId: int, nextForecastId: int, m: MarketId, outcome: string)
    requires TablesValid(users, markets, fs, nextUserId, nextForecastId)
    requires m !in markets
    ensures ResolveRows(fs, m, outcome) == fs
    ensures Credit(users, ResolveRows(fs, m, outcome), m) == users
  {
    assert forall i :: 0 <= i < |fs| ==> fs[i].market != m by {
      forall i | 0 <= i < |fs| ensures fs[i].market != m {
        assert RowValid(fs[i], users, markets, nextForecastId);
      }
    }
    ResolveAbsentMarket(fs, m, outcome, 0);
    forall u | u in users ensures RewardTotal(fs, u, m) == 0 {
      ResolveAbsentMarket(fs, m, outcome, u);
    }
  }

  /** The users, markets and forecasts tables, updated in place by the handlers. */
  class Ledger {
    var users: map<UserId, User>
    var markets: map<MarketId, Status>
    var forecasts: seq<Forecast>
    /** The id AUTOINCREMENT hands to the next user row. */
    var nextUserId: int
    /** The id AUTOINCREMENT hands to the next forecast row. */
    var nextForecastId: int

    /** The table invariant, TablesValid, over the current contents. */
    ghost predicate Valid()
      reads this
    {
      TablesValid(users, markets, forecasts, nextUserId, nextForecastId)
    }

    /** Empty users and forecasts tables over a given markets table. */
    constructor (markets: map<MarketId, Status>)
      ensures Valid()
      ensures this.markets == markets && users == map[] && forecasts == []
    {
      this.markets := markets;
      users := map[];
      forecasts := [];
      nextUserId := 1;
      nextForecastId := 1;
    }

    /** Whether some user already has this username or this email (`SELECT id FROM users WHERE email = ? OR username = ?`). */
    predicate Taken(username: string, email: string)
      reads this
    {
      exists u :: u in users && (users[u].email == email || users[u].username == username)
    }

    /**
     * `POST /api/signup`: all three fields must be non-empty, the username
     * and the email must be new; the user is then inserted with 1000 tokens.
     */
    method Signup(username: Option<string>, email: Option<string>, password: Option<string>)
      returns (r: Result<UserId, SignupError>)
      requires Valid()
      modifies this
      ensures Valid()
      ensures r == Err(MissingSignupField) <==> !(TruthyText(username) && TruthyText(email) && TruthyText(password))
      ensures r == Err(UserExists) <==>
        TruthyText(username) && TruthyText(email) && TruthyText(password) && old(Taken(username.value, email.value))
      ensures r.Err? ==>
        users == old(users) && nextUserId == old(nextUserId) && markets == old(markets)
        && forecasts == old(forecasts) && nextForecastId == old(nextForecastId)
      ensures r.Ok? ==>
        && r.value == old(nextUserId) && r.value !in old(users)
        && users == old(users)[r.value := User(username.value, email.value, InitialTokens)]
        && nextUserId == old(nextUserId) + 1
        && markets == old(markets) && forecasts == old(forecasts) && nextForecastId == old(nextForecastId)
    {
      if !(TruthyText(username) && TruthyText(email) && TruthyText(password)) {
        return Err(MissingSignupField);
      }
      if Taken(username.value, email.value) {
        return Err(UserExists);
      }
      var id := nextUserId;
      users := users[id := User(username.value, email.value, InitialTokens)];
      nextUserId := nextUserId + 1;
      r := Ok(id);
    }

    /**
     * `POST /api/forecast` for the signed-in user: the checks run in this
     * order and the first that fails answers; on success one row is
     * inserted and the user pays 10 tokens.
     */
    method SubmitForecast(userId: UserId, marketId: Option<int>, probability: Option<int>)
      returns (r: Result<int, SubmitError>)
      requires Valid()
      requires userId in users
      modifies this
      ensures Valid()
      ensures r == Err(MissingField) <==> !(TruthyId(marketId) && probability.Some?)
      ensures r == Err(ProbabilityOutOfRange) <==>
        TruthyId(marketId) && probability.Some? && !(0 <= probability.value <= 100)
      ensures r == Err(MarketNotFound) <==>
        TruthyId(marketId) && probability.Some? && 0 <= probability.value <= 100
        && marketId.value !in old(markets)
      ensures r == Err(MarketNotActive) <==>
        TruthyId(marketId) && probability.Some? && 0 <= probability.value <= 100
        && marketId.value in old(markets) && old(markets)[marketId.value] != Active
      ensures r == Err(InsufficientTokens) <==>
        TruthyId(marketId) && probability.Some? && 0 <= probability.value <= 100
        && marketId.value in old(markets) && old(markets)[marketId.value] == Active
        && old(users)[userId].tokens < ForecastCost
      ensures r.Err? ==>
        (r.error.HttpStatus() == 404 <==>
          TruthyId(marketId) && probability.Some? && 0 <= probability.value <= 100 && marketId.value !in old(markets))
      ensures r.Err? ==>
        users == old(users) && markets == old(markets) && forecasts == old(forecasts)
        && nextUserId == old(nextUserId) && nextForecastId == old(nextForecastId)
      ensures r.Ok? ==>
        && r.value == old(nextForecastId)
        && forecasts == old(forecasts) + [Forecast(r.value, userId, marketId.value, probability.value, ForecastCost, 0)]
        && users == old(users)[userId := old(users)[userId].(tokens := old(users)[userId].tokens - ForecastCost)]
        && markets == old(markets) && nextUserId == old(nextUserId) && nextForecastId == old(nextForecastId) + 1
    {
      if !(TruthyId(marketId) && probability.Some?) {
        return Err(MissingField);
      }
      var p := probability.value;
      if !(0 <= p <= 100) {
        return Err(ProbabilityOutOfRange);
      }
      var m := marketId.value;
      if m !in markets {
        return Err(MarketNotFound);
      }
      if markets[m] != Active {
        return Err(MarketNotActive);
      }
      var balance := users[userId].tokens;
      if balance < ForecastCost {
        return Err(InsufficientTokens);
      }
      var id := nextForecastId;
      forecasts := forecasts + [Forecast(id, userId, m, p, ForecastCost, 0)];
      nextForecastId := nextForecastId + 1;
      users := users[userId := users[userId].(tokens := balance - ForecastCost)];
      r := Ok(id);
    }

    /**
     * `POST /api/admin/resolve-market`: mark the market resolved, then walk
     * its forecasts, writing each reward and crediting the forecaster.
     * There is no check that the market exists, is active, or was not
     * resolved before.
     */
    method ResolveMarket(marketId: Option<int>, outcome: Option<string>)
      returns (r: Result<(), ResolveError>)
      requires Valid()
      modifies this
      ensures Valid()
      ensures r.Err? <==> !(TruthyId(marketId) && TruthyText(outcome))
      ensures r.Err? ==> users == old(users) && markets == old(markets) && forecasts == old(forecasts)
      ensures r.Ok? ==>
        && markets == MarkResolved(old(markets), marketId.value)
        && forecasts == ResolveRows(old(forecasts), marketId.value, outcome.value)
        && users == Credit(old(users), forecasts, marketId.value)
      ensures r.Ok? && marketId.value !in old(markets) ==>
        users == old(users) && markets == old(markets) && forecasts == old(forecasts)
      ensures nextUserId == old(nextUserId) && nextForecastId == old(nextForecastId)
    {
      if !(TruthyId(marketId) && TruthyText(outcome)) {
        return Err(MissingResolveField);
      }
      var m, o := marketId.value, outcome.value;
      markets := MarkResolved(markets, m);
      PayForecasts(m, o);
      ResolvePreservesValid(old(users), old(markets), old(forecasts), nextUserId, nextForecastId, m, o);
      if m !in old(markets) {
        ResolveUnknownMarket(old(users), old(markets), old(forecasts), nextUserId, nextForecastId, m, o);
      }
      r := Ok(());
    }

    /**
     * The loop of `resolve_market`: for each forecast on market m, in table
     * order, write its reward and add it to the forecaster's balance.
     */
    method PayForecasts(m: MarketId, o: string)
      modifies this
      ensures forecasts == ResolveRows(old(forecasts), m, o)
      ensures users == Credit(old(users), forecasts, m)
      ensures markets == old(markets) && nextUserId == old(nextUserId) && nextForecastId == old(nextForecastId)
    {
      var i := 0;
      while i < |forecasts|
        invariant 0 <= i <= |forecasts| == |old(forecasts)|
        invariant forall k :: 0 <= k < i ==> forecasts[k] == ResolveRow(old(forecasts)[k], m, o)
        invariant forall k :: i <= k < |forecasts| ==> forecasts[k] == old(forecasts)[k]
        invariant users == Credit(old(users), ResolveRows(old(forecasts)[..i], m, o), m)
        invariant markets == old(markets) && nextUserId == old(nextUserId) && nextForecastId == old(nextForecastId)
      {
        ghost var before := users;
        var f := forecasts[i];
        if f.market == m {
          var reward := Reward(o, f.probability);
          forecasts := forecasts[i := f.(reward := reward)];
          if f.user in users {
            users := users[f.user := users[f.user].(tokens := users[f.user].tokens + reward)];
          }
        }
        PayOneMore(old(users), before, old(forecasts), i, m, o, users);
        i := i + 1;
      }
      assert old(forecasts)[..|forecasts|] == old(forecasts);
      assert forecasts == ResolveRows(old(forecasts), m, o);
    }

    /**
     * `calculate_user_accuracy`: fetch the user's forecasts on resolved
     * markets, add up `abs(100 - probability)` over them, and report
     * round(100 - mean); 0 without any such forecast.
     */
    method UserAccuracy(userId: UserId) returns (accuracy: int)
      requires Valid()
      ensures accuracy == UserAccuracyOf(forecasts, markets, userId)
      ensures 0 <= accuracy <= 100
    {
      var rows := UserResolvedRows(forecasts, markets, userId);
      if |rows| == 0 {
        return 0;
      }
      var total := 0;
      var i := 0;
      while i < |rows|
        invariant 0 <= i <= |rows|
        invariant total == SumDeviation(rows[..i])
      {
        assert rows[..i + 1][..i] == rows[..i];
        total := total + Abs(100 - rows[i].probability);
        i := i + 1;
      }
      assert rows[..|rows|] == rows;
      assert total == SumDeviation(rows);
      accuracy := RoundHalfEven(100 * |rows| - total, |rows|);
      assert accuracy == UserAccuracyOf(forecasts, markets, userId);
      UserAccuracyIsMeanProbability(forecasts, markets, userId);
    }
  }

  /**
   * Resolution has no idempotence guard: resolving the same market twice
   * writes the same rewards, but pays every forecaster a second time.
   */
  method ResolveMarketTwice(ledger: Ledger, m: MarketId, outcome: string)
    requires ledger.Valid()
    requires m != 0 && outcome != ""
    modifies ledger
    ensures ledger.Valid()
    ensures ledger.forecasts == ResolveRows(old(ledger.forecasts), m, outcome)
    ensures ledger.users.Keys == old(ledger.users).Keys
    ensures forall u :: u in ledger.users ==>
      ledger.users[u].tokens == old(ledger.users)[u].tokens + 2 * PayoutOf(old(ledger.forecasts), m, outcome, u)
  {
    var first := ledger.ResolveMarket(Some(m), Some(outcome));
    var second := ledger.ResolveMarket(Some(m), Some(outcome));
    ResolveTwicePaysTwice(old(ledger.users), old(ledger.forecasts), m, outcome);
  }

  /** Once a market is resolved, a forecast on it is refused as not active. */
  method ForecastAfterResolution(ledger: Ledger, userId: UserId, m: MarketId, outcome: string, probability: int)
    returns (r: Result<int, SubmitError>)
    requires ledger.Valid()
    requires userId in ledger.users && m in ledger.markets
    requires m != 0 && outcome != "" && 0 <= probability <= 100
    modifies ledger
    ensures r == Err(MarketNotActive)
    ensures ledger.markets == old(ledger.markets)[m := Resolved]
  {
    var resolved := ledger.ResolveMarket(Some(m), Some(outcome));
    r := ledger.SubmitForecast(userId, Some(m), Some(probability));
  }
}
