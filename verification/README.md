# Lytir.io token ledger, in Dafny

Lytir.io is a forecasting backend. Users spend virtual tokens to submit
probability forecasts on yes/no questions ("markets"). An administrator
resolves a market, and each forecaster is paid a reward that depends on
how close their forecast came to the outcome. This project models the
ledger under the HTTP handlers. It covers the three tables (users,
markets, forecasts) and the handlers and helpers that read or change them:

- signing up;
- submitting a forecast;
- resolving a market;
- the crowd prediction;
- the placeholder user accuracy;
- the rank shown on a user's profile.

The project has three files, one module each:

- `tables.dfy`, module `Tables`: the table rows and the column defaults:
  1000 tokens for a new user, a 10-token forecast price, a reward of 0
  until resolution. It also holds Python's truthiness for JSON fields
  and the error results the handlers answer with.
- `scoring.dfy`, module `Scoring`: the pure computations and the lemmas
  about them:
  - the reward formula `int(accuracy * 0.5)`;
  - Python's `round` to the nearest integer, ties to even, on an exact
    quotient;
  - the crowd prediction and the placeholder accuracy;
  - the rank query;
  - the effect of a resolution on the forecast rows and on the balances.
- `api.dfy`, module `Api`: class `Ledger`. Its fields `users`, `markets`
  and `forecasts` are the three tables, and its methods are the handlers.
  The handlers `Signup`, `SubmitForecast` and `ResolveMarket` change
  those fields in place, keep the table invariant `TablesValid`, and state
  the new state in terms of the old one. `PayForecasts`, the reward loop
  inside `ResolveMarket`, states its new state the same way;
  `ResolveMarket` re-establishes the invariant after it
  (`ResolvePreservesValid`). `UserAccuracy` changes nothing. The
  resolution loop and the accuracy loop are `while` loops with
  invariants.

Each request is one atomic step. The signed-in user of a session is an
explicit `userId` parameter.

The code allows the following, which a reader might not expect:

- A market can be resolved more than once. Its status stays resolved,
  but the rewards of its forecasts are rewritten (with a different
  outcome, to different values), and a second resolution pays every
  forecaster again (`ResolveMarketTwice`,
  `Scoring.ResolveTwicePaysTwice`).
- The outcome is not checked to be "yes" or "no": any outcome string
  other than `"yes"` is scored as "no" (`Scoring.RewardOutcomes`).
- Resolving a market id that does not exist still succeeds, and it
  changes nothing.
- A probability outside [0,100] is rejected with 400, not clamped.

## Model

| member | source | states |
|---|---|---|
| `Scoring.Reward` | app.py:437-443 | For a probability p in [0,100], the reward is floor(p/2) when the outcome is "yes" and floor((100-p)/2) for any other outcome, so it lies in [0,50]. For a negative accuracy, the value is truncated toward zero, as Python's `int()` does. |
| `Scoring.RewardOutcomes` | app.py:437-443 | Any outcome other than "yes" pays what "no" pays. The yes-reward and the no-reward of one forecast add up to 50 for an even p and 49 for an odd p. For p=80, "yes" pays 40 and "no" pays 10. |
| `Scoring.RoundHalfEven` | app.py:108 | `round(num/den, 0)` is within one half of num/den, and on an exact tie it is even. |
| `Scoring.RoundHalfEvenUnique` | app.py:134 | Those two properties determine the rounded value uniquely, so they fully characterise Python's rounding. |
| `Scoring.RoundHalfEvenBounds` | app.py:108 | A quotient between lo and hi rounds to an integer between lo and hi. |
| `Scoring.SumProbabilitiesBounds` | app.py:102-103 | The sum of n probabilities in [0,100] lies in [0, 100n]. |
| `Scoring.SumDeviationComplement` | app.py:129-132 | For probabilities in [0,100], the sum of `abs(100 - p)` is 100n minus the sum of the probabilities. |
| `Scoring.MarketRows` | app.py:102-103 | The rows selected for a market all belong to that market, and every row of that market is selected. There are no more of them than rows in the table, and they keep the table's probability bounds. |
| `Scoring.MarketRowsExact` | app.py:102-103 | The selected rows are exactly the table's rows of that market, each as often as in the table (as multisets), so the count is the number of the market's forecasts. |
| `Scoring.CrowdPrediction` | app.py:98-109 | The count is the number of the market's forecasts. With no forecasts the prediction is 50. Otherwise it is the mean probability rounded to the nearest integer, and an exact tie goes to the even integer, as Python's `round` does (67.5 gives 68, 2.5 gives 2). |
| `Scoring.CrowdPredictionInRange` | app.py:102-109 | When every stored probability is in [0,100], so is the crowd prediction. |
| `Scoring.UserResolvedRows` | app.py:117-120 | Every row used for accuracy is one of the user's forecasts on a market whose status is resolved, and every such forecast is used. There are no more of them than rows in the table, and they keep the table's probability bounds. |
| `Scoring.UserResolvedRowsExact` | app.py:117-120 | The rows used for accuracy are exactly the table's rows of that user on resolved markets, each as often as in the table (as multisets). |
| `Scoring.UserAccuracyIsMeanProbability` | app.py:125-134 | The placeholder accuracy `round(100 - mean(abs(100 - p)))` is the rounded mean of the user's own resolved probabilities, and it lies in [0,100]. It never compares against an outcome. |
| `Scoring.UserAccuracyIgnoresRewards` | app.py:128-134 | Two tables that differ only in the rewards written at resolution give every user the same accuracy. So the outcome a market resolved to has no effect on the accuracy. |
| `Scoring.Rank` | app.py:240-242 | The rank is 1 plus the number of users with strictly more tokens, and it lies in [1, number of users]. |
| `Scoring.RankOneIffRichest` | app.py:240-242 | A user has rank 1 if and only if nobody holds more tokens. |
| `Scoring.RankMonotone` | app.py:240-242 | More tokens never rank worse, strictly more tokens rank strictly better, and equal balances share a rank. |
| `Scoring.RewardTotalNonNegative` | app.py:446-450 | Non-negative rewards add up to a non-negative credit, so resolution never lowers a balance. |
| `Scoring.ResolveAbsentMarket` | app.py:429-433 | Resolving a market with no forecasts rewrites no row and credits nobody. |
| `Scoring.ResolveRowsIdempotent` | app.py:435-446 | Resolving the same market again with the same outcome writes the same rewards, so the rows stay as they are. |
| `Scoring.PayoutFormula` | app.py:435-450 | Each user is credited the sum of the formula reward over their forecasts on the market, computed from the probabilities alone. |
| `Scoring.ResolveTwicePaysTwice` | app.py:422-450 | Two resolutions leave the rows as one resolution does, but credit every user twice their payout. |
| `Scoring.Credit` | app.py:448-450 | Crediting keeps the set of users: nobody is added or removed. |
| `Api.CreditOneMore` | app.py:448-450 | One loop step credits only the forecaster of a row on the market being resolved, and credits them exactly that row's reward. |
| `Api.PayOneMore` | app.py:435-450 | After paying row i, the balances equal the credit for the first i+1 resolved rows. |
| `Api.ResolvePreservesValid` | app.py:429-450 | The tables after resolution (the market marked resolved, the rows rewritten, the balances credited) still satisfy `TablesValid`: rewards are in [0,50], no balance is negative, usernames and emails stay unique, forecast ids stay increasing, and rows of active markets still have reward 0. |
| `Api.ResolveUnknownMarket` | app.py:429-450 | Resolving an id that is not in the markets table leaves the forecasts and the users unchanged. |
| `Api.Ledger.constructor` | app.py:31-59 | The tables start with no users and no forecasts over the given markets, and they are valid. |
| `Api.Ledger.Signup` | app.py:147-164 | The request is rejected when a field is missing or empty, and then when the username or the email is taken; a rejection changes nothing. Otherwise exactly one user is added, under a fresh id, with 1000 tokens. Usernames and emails stay unique. |
| `Api.Ledger.SubmitForecast` | app.py:334-384 | The checks run in this order, and each rejection leaves every table unchanged: (1) a missing or zero market id, or a missing probability; (2) a probability outside [0,100]; (3) an unknown market (404); (4) a market that is not active; (5) a balance under 10. A rejection answers 404 exactly when the market is unknown, and 400 otherwise. On success, exactly one row (probability p, 10 tokens spent, reward 0) is appended, and only this user's balance changes, by -10. No balance goes negative. |
| `Api.Ledger.ResolveMarket` | app.py:416-455 | A missing or zero market id, or a missing or empty outcome, is rejected and changes nothing. Otherwise the market (if it exists) becomes resolved and every forecast of it gets its reward overwritten. Each user's balance grows by exactly the sum of the rewards of their forecasts on that market, and nothing else changes. An unknown market id succeeds and changes nothing. |
| `Api.Ledger.PayForecasts` | app.py:435-450 | The reward loop: rows of the market get their rewards written, in table order, and the balances become the old balances plus each user's reward total. |
| `Api.Ledger.UserAccuracy` | app.py:111-134 | The accumulating loop returns the placeholder accuracy: 0 without resolved forecasts, otherwise `round(100 - total/len)`. The result lies in [0,100]. |
| `Api.ResolveMarketTwice` | app.py:422-450 | Calling resolution twice keeps the rows as after one call, but raises each balance by twice the user's payout. There is no idempotence guard. |
| `Api.ForecastAfterResolution` | app.py:357-359 | After a market is resolved, a forecast on it is rejected as not active. |

## Left out

- HTTP routing, JSON parsing, response wrapping, CORS, the session
  mechanics, `login_required`, `login` and `logout`. These are framework
  plumbing, and the signed-in user is a parameter instead.
- Password hashing (a library call). Signup checks only that a password
  is present and non-empty, and stores no hash.
- `init_db`: the SQLite connections, creating the schema and seeding
  sample markets. The constructor takes the markets table as a parameter,
  because no handler in the core creates markets.
- Timestamps and the listing queries. These are the recent-forecast
  list, the user's forecast list, the active-market list, the
  leaderboard's ordering and its limit of 50, `forecasts_count`, and the
  health and root endpoints. They are presentation, not ledger state;
  the crowd prediction that the listings attach is modelled.
- Floating point:
  - Probabilities are whole numbers in the model, while the column is
    REAL; fractional probabilities are not modelled.
  - Means are computed exactly as integer sum over count, then rounded
    half to even. Python returns the rounded mean as a float (67.0), but
    the empty-market default as the integer 50.
- Inputs of the wrong JSON type. Some raise an unhandled exception in
  the source (a string probability, at app.py:344); others are coerced:
  a numeric-string market id matches through SQLite's type affinity,
  `true` is taken as probability 1, and a non-string outcome is scored
  as "no". The model's inputs are typed.
- `Api.Ledger.SubmitForecast` requires the session's user to exist in
  the users table. Users are never deleted, and on a missing row the
  source raises at the balance check (app.py:366).
- `Scoring.Rank` requires the user to exist, for the same reason: the
  profile handler fails earlier on a missing user.
- Concurrency. Two requests that race on one balance can lose an update
  in the source; here each request is one atomic step.
- The loop of `Api.Ledger.PayForecasts` walks the whole forecasts table
  in row order and skips rows of other markets. The source instead
  fetches the market's rows and updates each row by id; the two are the
  same because forecast ids are unique (an invariant of the model).
- SQLite does not enforce foreign keys. The model keeps them as part of
  `TablesValid`: every forecast's user and market exist.
