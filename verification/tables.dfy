/**
 * The rows of the forecasting backend's three tables (users, markets,
 * forecasts), the column defaults the handlers rely on, and the
 * error/result types the handlers answer with.
 */
module Tables {

  type UserId = int
  type MarketId = int

  datatype Option<T> = None | Some(value: T)

  datatype Result<T, E> = Ok(value: T) | Err(error: E)

  /** The `status` column of a market. Only these two values are ever written. */
  datatype Status = Active | Resolved

  /** A row of the users table; the password hash and the timestamp are not modelled. */
  datatype User = User(username: string, email: string, tokens: int)

  /** A row of the forecasts table; the timestamp is not modelled. */
  datatype Forecast = Forecast(
    id: int,
    user: UserId,
    market: MarketId,
    probability: int,
    tokensSpent: int,
    reward: int)

  /** Default of `users.tokens`: the balance of a new account. */
  const InitialTokens: int := 1000

  /** The fixed price of one forecast (`tokens_cost`, default of `forecasts.tokens_spent`). */
  const ForecastCost: int := 10

  /** What the crowd prediction reports for a market nobody has forecast on. */
  const DefaultCrowdPrediction: int := 50

  /** Largest reward one forecast can earn: half of a perfect accuracy of 100. */
  const MaxReward: int := 50

  /** Python truthiness of an optional JSON integer: absent and 0 are falsy. */
  predicate TruthyId(x: Option<int>) {
    x.Some? && x.value != 0
  }

  /** Python truthiness of an optional JSON string: absent and "" are falsy. */
  predicate TruthyText(x: Option<string>) {
    x.Some? && x.value != ""
  }

  /** The rejections of `POST /api/forecast`, in the order they are checked. */
  datatype SubmitError = MissingField | ProbabilityOutOfRange | MarketNotFound | MarketNotActive | InsufficientTokens {
    /** The HTTP status the handler answers with: 404 for an unknown market, 400 otherwise. */
    function HttpStatus(): int {
      if MarketNotFound? then 404 else 400
    }
  }

  /** The rejections of `POST /api/signup`; both answer 400. */
  datatype SignupError = MissingSignupField | UserExists

  /** The one rejection of `POST /api/admin/resolve-market`; it answers 400. */
  datatype ResolveError = MissingResolveField
}
