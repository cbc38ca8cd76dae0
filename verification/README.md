# Verified models of a trading backend's algorithms

Ten self-contained algorithms of the backend, modelled in Dafny with proofs about all inputs, all runs and all
interleavings. `dafny verify dfyconfig.toml` checks everything.

| part | files |
|---|---|
| American option tree: in-place induction, optimal stopping, early exercise, dependence on price, strike, steps and volatility | `BinomialTree`, `AmericanOption`, `Sensitivity`, `Volatility`, `PutBoundary`, `CallExercise`, `OptimalStopping` |
| Analyzer result cache: expiry by age and eviction by recency | `TtlCache`, `TtlCacheRuns`, `TtlCacheLog`, `AnalyzerCache` |
| Two-tier cache of several processes over one Redis | `LayeredCache`, `LayeredCacheReads`, `LayeredCacheManager`, `LayeredCacheDeployment` |
| Sliding-window rate limiter on two sorted sets | `RateLimiter`, `RateLimiterRuns` |
| Black-Scholes batch, scalar and through boolean masks | `BlackScholes`, `BlackScholesLaws`, `Masks`, `VectorizedBatch` |
| Systematic investment and withdrawal plans, loan instalments | `Finance` |
| Circuit breaker with overlapping calls | `CircuitBreaker` |
| Query cache with double-checked locking | `QueryCache` |
| Cursor pagination | `Paginator` |
| Range and hash partitioning of symbols | `Partitioner` |

Where the source updates an object or an array step by step, the model is a class or a method with a loop, proved
against a specification function; the theorems are lemmas about that function. For calls that interleave at `await`
points, one method or one event is what runs between two awaits, and the theorems range over every sequence of them.

Numbers are exact reals. The up factor `u` and the one-step growth `exp(r * dt)` of the tree are inputs, as are the
functions `log`, `exp`, `sqrt`, `cdf`, `pdf` and `round` of the Black-Scholes model. The batches use of them only that
"the root of a positive number is positive"; what the formulas mean is proved in `BlackScholesLaws` from the textbook
laws of these functions, each lemma naming the laws it uses. Clock readings are parameters.

## Where the code is not what one would expect

The models follow the code. Each of these is a lemma.

- Put boundary: "once exercised at an index, exercised at every larger index" fails at nodes where the put can no longer
  pay, because holding and exercising tie at zero there (`PutBoundary.RowBoundaryCounterexample`). The exact conditions
  are `PutBoundary.PutBoundaryExact`, `RowBoundaryExact` and, one step from expiry, `LastRowBoundaryExact`.
- A process that has deleted a key can afterwards be served the old value by an earlier read of its own
  (`LayeredCache.StaleAfterOwnDelete`). Once Redis lacks the key, a process can still be served it exactly when its L1
  holds it or a reply with a value is on its way (`LayeredCache.ServedExactly`). The comment of `delete_pattern` says L1 expires on its own; the code clears it.
- Attempts with equal timestamps share one member of the sorted set, so any number of them passes a limit of two or more
  (`RateLimiterRuns.SimultaneousAttempts`). That is the only way past the limit: the clock readings with an allowed
  attempt never exceed it (`RateLimiterRuns.WindowTimes`, `WindowSafety`). Attempts exactly one window apart do not count against each other
  (`WindowIsHalfOpen`).
- The vectorised batch neither solves for a missing volatility nor zeroes an option with a strike that is not positive,
  as the scalar batch does (`VectorizedBatch.BatchesAgree`).
- A loan repaid exactly leaves `corpus_exhausted` true although no exhaustion month is reported
  (`Finance.RepayBySwp`). `Finance.Swp` states exactly when flag and month disagree.
- A page that ends on a falsy key carries no cursor although more rows follow, so the walk stops
  (`Paginator.WalkIsOffsetPaging`).
- `RangePartitioner.is_my_symbol` compares a security id with a range of list indexes (`Partitioner.AgreeIff`,
  `AgreeAtIff`, `SymbolsAgreeIff`).

## Model

| member | source | states |
|---|---|---|
| `BinomialTree.ParametersNoArbitrage` | services/calculations/option_pricing.py:107-109 | the derived `p` lies in (0,1) and makes the asset earn the growth exactly when the growth lies between the two moves |
| `BinomialTree.InitializeAtMaturity` | services/calculations/option_pricing.py:111-122 | after the two loops every entry holds the payoff at its price at expiry |
| `BinomialTree.InduceBackward` | services/calculations/option_pricing.py:124-137 | overwriting one array while reading it leaves entry j with the recursive value of node (j,j), so entry 0 with the price |
| `BinomialTree.PriceOption` | services/calculations/option_pricing.py:106-147 | the price is the root value, the intrinsic value compares spot and strike and is never negative, the price is never below it, so the clamp of the time value is never active; zero steps or equal moves raise |
| `AmericanOption.NodeIsAmerican` | services/calculations/option_pricing.py:124-137 | a node's value depends only on its asset price and the steps left: the recombining array is the price recursion |
| `AmericanOption.StatePrices` | services/calculations/option_pricing.py:109-128 | the discounted weights are positive, reprice the asset exactly and sum to the discount factor |
| `OptimalStopping.PathSumIsRuleValue` | services/calculations/option_pricing.py:124-139 | the probability-weighted sum over all price paths of an exercise rule is its backward recursion |
| `OptimalStopping.TreeRuleIsNodeComparison` | services/calculations/option_pricing.py:128-137 | the optimal rule is the code's comparison of exercise and hold value at the node a path has reached |
| `OptimalStopping.PriceIsOptimal` | services/calculations/option_pricing.py:124-139 | no exercise rule, however it depends on the path, has a higher discounted expected payoff than the price, and the tree's own rule attains it |
| `CallExercise.CallNeverExercised` | services/calculations/option_pricing.py:127-137 | a call is held at every price exactly when its strike earns non-negative interest |
| `CallExercise.DeepCallExercised` | services/calculations/option_pricing.py:127-137 | when it does not, holding is strictly worse at every deep price |
| `CallExercise.CallIsEuropean` | services/calculations/option_pricing.py:124-137 | then every node equals the induction without the exercise maximum |
| `CallExercise.EuropeanClosedForm` | services/calculations/option_pricing.py:124-128 | that induction is the binomially weighted, discounted sum of the payoffs at expiry |
| `CallExercise.CallClosedForm` | services/calculations/option_pricing.py:124-139 | so the returned call price is that explicit sum |
| `CallExercise.PutCallParity` | services/calculations/option_pricing.py:111-128 | without early exercise a call less a put is the asset price less the discounted strike, at every node |
| `CallExercise.CallZero` | services/calculations/option_pricing.py:116-137 | a call is never negative, and worth zero exactly when all remaining up moves cannot bring it in the money |
| `Sensitivity.PriceSensitivity` | services/calculations/option_pricing.py:124-137 | puts never rise and calls never fall with the asset price, each by at most the change |
| `Sensitivity.PriceConvexity` | services/calculations/option_pricing.py:124-137 | the price is convex in the asset price |
| `Sensitivity.StrikeSensitivity` | services/calculations/option_pricing.py:124-137 | for interest of any sign a higher strike never lowers a put nor raises a call, by at most the change (interest not negative) or the change grown back over the steps |
| `Sensitivity.StrikeConvexity` | services/calculations/option_pricing.py:124-137 | the price is convex in the strike, for puts and calls |
| `Volatility.VolatilitySensitivity` | services/calculations/option_pricing.py:107-137 | at the same interest, wider up and down moves never lower the value, at any asset price and number of steps |
| `Volatility.HigherVolatility` | services/calculations/option_pricing.py:106-139 | so a higher volatility never lowers the returned price |
| `Sensitivity.PriceBounds` | services/calculations/option_pricing.py:124-141 | at least the intrinsic value, and a call at most the asset price, for interest of any sign |
| `Sensitivity.PutBelowStrike` | services/calculations/option_pricing.py:124-137 | a put is worth at most its strike with non-negative interest, and at most the strike grown back over the steps otherwise |
| `Sensitivity.StepsSensitivity` | services/calculations/option_pricing.py:124-137 | more steps left never lower the value |
| `PutBoundary.ExerciseGrows` | services/calculations/option_pricing.py:127-137 | where exercise is optimal it stays optimal, at the same price, with fewer steps left |
| `PutBoundary.PutZero` | services/calculations/option_pricing.py:124-137 | a put is worth zero exactly when all remaining down moves cannot bring it in the money |
| `PutBoundary.PutBoundaryExact` | services/calculations/option_pricing.py:127-137 | exercise being optimal at a price extends to every lower price exactly when the put can still pay there |
| `PutBoundary.RowBoundary` | services/calculations/option_pricing.py:126-137 | within a step: from an exercised index that can still pay, every larger index is exercised |
| `PutBoundary.RowBoundaryExact` | services/calculations/option_pricing.py:126-137 | with two or more steps left, this holds exactly when that node can still pay or no node of the row can |
| `PutBoundary.LastRowBoundaryExact` | services/calculations/option_pricing.py:126-137 | one step from expiry, from any node on: exactly when that node is exercised and the first live node after a worthless one, if any, meets an explicit inequality |
| `PutBoundary.RowBoundaryCounterexample` | services/calculations/option_pricing.py:126-137 | a tree whose row is exercised at index 0 and not at index 1 |
| `AnalyzerCache.TTLCache.constructor` | services/processor/analyzer_cache.py:29-38 | an empty cache |
| `AnalyzerCache.TTLCache.Get` | services/processor/analyzer_cache.py:40-59 | the two dictionaries and counters end as the specification says and stay consistent |
| `AnalyzerCache.TTLCache.Set` | services/processor/analyzer_cache.py:61-76 | the same for `set`, within the size limit |
| `AnalyzerCache.TTLCache.Clear` | services/processor/analyzer_cache.py:78-81 | empties both dictionaries and keeps the counters |
| `TtlCacheRuns.StepValid` | services/processor/analyzer_cache.py:40-81 | every call keeps keys distinct, the size bounded and the books balanced |
| `TtlCacheRuns.Accounting` | services/processor/analyzer_cache.py:40-95 | in every run hits are the gets answered with a value and misses the others; evictions, current size and cleared entries add up to inserts of new keys |
| `TtlCacheRuns.Inclusion` | services/processor/analyzer_cache.py:40-80 | the smaller cache's recency order is a subsequence, with equal values and stamps, of the larger one's |
| `TtlCacheRuns.LargerNeverMisses` | services/processor/analyzer_cache.py:40-80 | so enlarging a cache never turns a hit into a miss nor changes its answer |
| `TtlCacheLog.HitExactly` | services/processor/analyzer_cache.py:40-76 | a get answers the latest set since the last clear, exactly if that is fresh and the key not displaced by maxsize keys used since, given which earlier gets hit |
| `TtlCacheLog.AnswerFromLog` | services/processor/analyzer_cache.py:40-81 | the same with the earlier hits themselves read off the log: every answer is a function of the earlier calls, without running a cache |
| `TtlCacheLog.HitIsLatest` | services/processor/analyzer_cache.py:40-59 | for any clock, a hit is the latest value set, at most ttl old |
| `TtlCacheLog.FreshMustHit` | services/processor/analyzer_cache.py:40-76 | a fresh key with fewer than maxsize distinct other keys used since must hit |
| `LayeredCache.L1Origin` | core/cache/layered_cache.py:142-222 | in every interleaving each L1 entry stems from a local set or from the reply to a local read |
| `LayeredCache.BoundedStaleness` | core/cache/layered_cache.py:142-175 | whatever `get` returns was set locally within the L1 lifetime, or was current in Redis during a read that finished within it |
| `LayeredCache.DeletedIsForgotten` | core/cache/layered_cache.py:231-282 | once Redis lacks a key and nobody sets it, no process returns it after the L1 lifetime plus one flight time |
| `LayeredCache.CleanForever` | core/cache/layered_cache.py:142-282 | a process with no trace of a key stays so and is never served it while Redis lacks it and nobody sets it |
| `LayeredCache.ServedExactly` | core/cache/layered_cache.py:142-282 | from a moment at which Redis lacks a key, a process can still be served it exactly when its L1 holds it or a reply with a value is in flight |
| `LayeredCache.StaleAfterOwnDelete` | core/cache/layered_cache.py:142-250 | the witness: a run in which a finished delete is followed by a stale L1 hit in the same process |
| `LayeredCacheReads.SetIsStored` | core/cache/layered_cache.py:200-222 | after a process's set has reached Redis, Redis answers that value until its lifetime is over, unless the key is written, deleted or dropped |
| `LayeredCacheReads.OwnDeleteIsDone` | core/cache/layered_cache.py:241-251 | after a process's delete has reached Redis, Redis answers nothing until the key is written again |
| `LayeredCacheReads.PatternDeletesFound` | core/cache/layered_cache.py:274-281 | a pattern deletion removes what any round of its scan has found |
| `LayeredCacheReads.GetReturnsReply` | core/cache/layered_cache.py:154-175 | a get returns exactly what Redis answered to its read, a value or nothing |
| `LayeredCacheReads.OthersSetIsRead` | core/cache/layered_cache.py:142-222 | what one process has set, and nobody replaced, another process's later read must return while it lives |
| `LayeredCacheReads.L1IsLatest` | core/cache/layered_cache.py:142-269 | L1 of a process holds exactly its latest local set or fill of the key not since deleted, cleared or dropped |
| `LayeredCacheReads.GetUsesL1` | core/cache/layered_cache.py:142-148 | read your own writes: within the L1 lifetime a get must be answered by L1 with that value, afterwards or after a delete it must go to Redis |
| `LayeredCacheManager.Manager.Lookup` | core/cache/layered_cache.py:142-148 | the L1 half of `get` is one step of the machine and counts one hit or miss |
| `LayeredCacheManager.Manager.Fill` | core/cache/layered_cache.py:154-175 | the reply fills L1 and is returned: one step of the machine |
| `LayeredCacheManager.Manager.SetLocal` | core/cache/layered_cache.py:200-202 | L1 changes before the Redis write is sent |
| `LayeredCacheManager.Manager.DeleteLocal` | core/cache/layered_cache.py:241-243 | L1 forgets the key before Redis does |
| `LayeredCacheManager.Manager.ClearLocal` | core/cache/layered_cache.py:267-269 | a pattern deletion clears this process's whole L1, and no other's |
| `LayeredCacheManager.Manager.FinishSet` | core/cache/layered_cache.py:224-225 | a confirmed set is counted once |
| `LayeredCacheManager.Manager.FinishDelete` | core/cache/layered_cache.py:250-252 | a confirmed delete is counted once and reports whether a key went |
| `LayeredCacheManager.Manager.FinishDeletePattern` | core/cache/layered_cache.py:279-283 | a pattern deletion counts and returns the deleted keys |
| `LayeredCacheManager.Redis.Get` | core/cache/layered_cache.py:154-157 | Redis answers with the value current at that moment |
| `LayeredCacheManager.Redis.SetEx` | core/cache/layered_cache.py:217-221 | the value and its time to live are stored |
| `LayeredCacheManager.Redis.Delete` | core/cache/layered_cache.py:249-251 | the keys go, and the number that were live is returned |
| `LayeredCacheDeployment.StepKeepsOthers` | core/cache/layered_cache.py:142-269 | a step on one process's L1 leaves every other process's manager in agreement with the machine |
| `LayeredCacheDeployment.Deployment.Lookup` | core/cache/layered_cache.py:142-148 | with several managers over one Redis: one more step of a run, and a hit is recently set or recently current in Redis |
| `LayeredCacheDeployment.Deployment.Fill` | core/cache/layered_cache.py:154-175 | one more step of a run, and the value returned is recent in the same sense |
| `LayeredCacheDeployment.Deployment.SetLocal` | core/cache/layered_cache.py:200-202 | one more step of a run, the other managers unchanged |
| `LayeredCacheDeployment.Deployment.RedisDelete` | core/cache/layered_cache.py:249-251 | one more step of a run, all managers unchanged |
| `RateLimiter.KeysDiffer` | core/rate_limiting/limiter.py:46-50 | the Redis names of different keys or windows never collide |
| `RateLimiter.Decide` | core/rate_limiting/limiter.py:73-96 | allowed exactly below both limits; which limit is reported exceeded, what remains, and the two reset times in seconds |
| `RateLimiter.SlideWindow` | core/rate_limiting/limiter.py:57-60 | one window's four commands: the count before adding, and the new sorted set with its expiry |
| `RateLimiter.CheckRateLimit` | core/rate_limiting/limiter.py:43-107 | both windows' counts decide, and the whole new Redis state is given |
| `RateLimiter.ResetLimits` | core/rate_limiting/limiter.py:109-114 | both sorted sets go and nothing else |
| `RateLimiterRuns.KeptIsRecent` | core/rate_limiting/limiter.py:53-66 | in every run what pruning and key expiry leave is exactly the attempts since the last reset still in the window |
| `RateLimiterRuns.DecisionExact` | core/rate_limiting/limiter.py:45-77 | each decision counts all attempts of the last 60 and the last 86400 seconds, denied ones included |
| `RateLimiterRuns.WindowTimes` | core/rate_limiting/limiter.py:43-77 | whatever the timing, in any 60 or 86400 seconds between resets at most the limit of distinct clock readings have an allowed request |
| `RateLimiterRuns.WindowSafety` | core/rate_limiting/limiter.py:43-77 | so any 60 or 86400 seconds hold at most the limit of allowed requests, unless two of them were made at one clock reading |
| `RateLimiterRuns.SimultaneousAttempts` | core/rate_limiting/limiter.py:59-65 | how many simultaneous attempts pass, for every limit and number |
| `RateLimiterRuns.WindowIsHalfOpen` | core/rate_limiting/limiter.py:57-63 | two attempts exactly one window apart both pass a limit of one |
| `Masks.AssignWhere` | core/analytics/bsm.py:483-485 | masked assignment writes the values at the masked positions in order and nothing else |
| `BlackScholes.CalculateBatch` | core/analytics/bsm.py:288-334 | every option before the first one on which the volatility solver raises ends as the scalar update of its old fields, however often it is listed; the exception leaves the rest untouched |
| `BlackScholesLaws.SpotStrikeIdentity` | core/analytics/bsm.py:107-112 | the discounted spot and strike weigh the normal densities at d1 and d2 alike, which fixes d1 and d2 |
| `BlackScholesLaws.PricesParity` | core/analytics/bsm.py:115-126 | put-call parity of the prices |
| `BlackScholesLaws.DeltasParity` | core/analytics/bsm.py:172-176 | the deltas of a call and a put differ by one discounted share |
| `BlackScholesLaws.PricingEquation` | core/analytics/bsm.py:172-193 | theta, delta and gamma satisfy the pricing equation of the model, for calls and puts |
| `BlackScholesLaws.VegaIsGamma` | core/analytics/bsm.py:178-182 | vega per percent is gamma times squared price, volatility and time |
| `BlackScholesLaws.RhoIsFinancing` | core/analytics/bsm.py:195-199 | rho per percent is what financing the delta position costs over the time left |
| `BlackScholesLaws.Reported` | core/analytics/bsm.py:128-132 | the batch reports non-negative prices in hundredths and the Greeks to five decimals, gamma to six |
| `BlackScholesLaws.OutOfRange` | core/analytics/bsm.py:70-103 | at or past expiry the exercise value and no Greeks; without a positive spot price and strike a price of zero |
| `BlackScholesLaws.VolatilityUsed` | core/analytics/bsm.py:291-305 | the option's own volatility, or what the solver makes of the mid price, or else of the last price |
| `VectorizedBatch.LaneOfOption` | core/analytics/bsm.py:454-480 | lane number rank(i) of the gathered arrays holds the numbers of option i |
| `VectorizedBatch.LaneFormulas` | core/analytics/bsm.py:478-522 | the masked expressions on a lane are the scalar price and Greeks |
| `VectorizedBatch.Prices` | core/analytics/bsm.py:478-485 | call and put masks together write every lane's own formula |
| `VectorizedBatch.Thetas` | core/analytics/bsm.py:500-516 | the same for theta with its shared first term |
| `VectorizedBatch.Compute` | core/analytics/bsm.py:446-522 | after the nested gather, compute and scatter each valid position holds the scalar results |
| `VectorizedBatch.CalculateBatchVectorized` | core/analytics/bsm.py:420-534 | every valid option gets what the scalar batch writes and every other is unchanged |
| `VectorizedBatch.BatchesAgree` | core/analytics/bsm.py:288-534 | when exactly the two batches agree on an option |
| `Finance.SipIsRecurrence` | services/calculations/financial.py:63-82 | the closed form is the deposit-then-grow recurrence for every rate and time, backwards for a negative one; the invested amount is the deposits alone and the gain the interest credited month by month; when the report raises |
| `Finance.MonthsTruncate` | services/calculations/financial.py:64-64 | months are whole and cut off towards zero |
| `Finance.BalanceClosed` | services/calculations/financial.py:114-121 | month-by-month balances have the closed form corpus·gⁿ less the annuity |
| `Finance.Conservation` | services/calculations/financial.py:114-126 | balance plus withdrawals equals corpus plus credited interest |
| `Finance.Swp` | services/calculations/financial.py:107-138 | the loop reports the least month whose closed-form balance is negative, none exactly when the corpus lasts, conserves money in both branches, and when its flag contradicts its month |
| `Finance.SustainsIff` | services/calculations/financial.py:114-127 | a corpus lasts through n months exactly when its closed-form balance at month n is not negative |
| `Finance.EmiDefined` | services/calculations/financial.py:157-163 | for a monthly growth that is not negative the formula is defined exactly for tenures of a month or more |
| `Finance.EmiPaysOff` | services/calculations/financial.py:157-163 | wherever the instalment is defined, the balance after the tenure is exactly zero |
| `Finance.EmiAmortises` | services/calculations/financial.py:157-166 | wherever it is defined, total interest is the interest credited; on the way the balance never falls below zero, for exactly which loans |
| `Finance.RepayBySwp` | services/calculations/financial.py:107-166 | the withdrawal plan fed the loan and its instalment ends with nothing left; when it runs to the end, and that it then withdraws the total payment |
| `CircuitBreaker.CircuitBreaker.Enter` | core/resilience/circuit_breaker.py:57-70 | entering admits exactly as the specification says and logs the request |
| `CircuitBreaker.CircuitBreaker.AllowRequest` | core/resilience/circuit_breaker.py:133-144 | the same answer and the same new state as entering |
| `CircuitBreaker.CircuitBreaker.OnSuccess` | core/resilience/circuit_breaker.py:84-95 | a success is one step of the run |
| `CircuitBreaker.CircuitBreaker.OnFailure` | core/resilience/circuit_breaker.py:97-115 | a failure is one step of the run |
| `CircuitBreaker.CircuitBreaker.Exit` | core/resilience/circuit_breaker.py:72-82 | success, expected failure, or an exception that is not recorded |
| `CircuitBreaker.CircuitBreaker.TimeUntilReset` | core/resilience/circuit_breaker.py:117-131 | zero exactly when a reset is due; a reset is due after waiting that long, and not before |
| `CircuitBreaker.CountersExact` | core/resilience/circuit_breaker.py:84-115 | the failure count is the number of failures since the last success, the failure time the latest one's, with the state invariant |
| `CircuitBreaker.ClosedBelowThreshold` | core/resilience/circuit_breaker.py:97-110 | closed implies below the threshold in all runs, exactly when the threshold is at least 1 |
| `CircuitBreaker.TripsExactly` | core/resilience/circuit_breaker.py:97-110 | a closed breaker opens exactly on the failure that completes the streak |
| `CircuitBreaker.StateExact` | core/resilience/circuit_breaker.py:57-115 | open exactly when some failure tripped the breaker and no due request came since, half-open exactly while on trial after one: told from the run alone |
| `CircuitBreaker.AdmissionExact` | core/resilience/circuit_breaker.py:57-70 | who is let in, from the run alone: everyone but in a lockout whose timeout has not run off |
| `CircuitBreaker.Lockout` | core/resilience/circuit_breaker.py:57-122 | from an opening on nobody is admitted before the timeout, whatever overlapping calls return |
| `CircuitBreaker.ClosesAfterThree` | core/resilience/circuit_breaker.py:84-95 | every return to closed follows a due reset, exactly three successes and no failure |
| `CircuitBreaker.Recovers` | core/resilience/circuit_breaker.py:84-95 | after a due reset, and while nothing fails, the breaker is closed exactly once three successes are recorded |
| `QueryCache.QueryCache.Begin` | core/database/cache_layer.py:84-99 | the unlocked look: a hit at once, and otherwise the caller now waits for the lock |
| `QueryCache.QueryCache.Locked` | core/database/cache_layer.py:101-117 | the second look under the lock: a hit, or the start of a fetch |
| `QueryCache.QueryCache.Store` | core/database/cache_layer.py:119-126 | the fetched value is stored and the lock released |
| `QueryCache.QueryCache.SetValue` | core/database/cache_layer.py:140-150 | a set waits for the lock and stores |
| `QueryCache.QueryCache.DeleteKey` | core/database/cache_layer.py:158-174 | a delete waits for the lock and says whether the key was live |
| `QueryCache.QueryCache.ClearAll` | core/database/cache_layer.py:176-181 | clearing waits for the lock |
| `QueryCache.QueryCache.InvalidatePattern` | core/database/cache_layer.py:183-213 | removes every matching live key, one by one, and returns their number |
| `QueryCache.RemovesExactly` | core/database/cache_layer.py:84-213 | expiry, eviction, delete, clear and invalidation are all the ways an entry disappears |
| `QueryCache.Conservation` | core/database/cache_layer.py:84-213 | per key and interleaving: fetches begun plus new sets equal removals plus failed fetches plus what is cached or in flight |
| `QueryCache.FetchesSeparated` | core/database/cache_layer.py:101-126 | between two fetches of a key lies a removal of it or a failed fetch of it |
| `QueryCache.FetchIsAtomic` | core/database/cache_layer.py:101-126 | during a fetch no other fetch starts, nothing is set, deleted, cleared or invalidated, and the cache changes by expiry alone |
| `QueryCache.RequestsAccounted` | core/database/cache_layer.py:84-117 | hits, misses, waiting and abandoned requests add up to all requests |
| `QueryCache.StatsExact` | core/database/cache_layer.py:85-111 | each counter on its own: hits are the requests answered from the cache, at once or after waiting, misses the fetches begun |
| `QueryCache.HitIsLatest` | core/database/cache_layer.py:87-107 | every hit, at once or after waiting, is the latest value written and since neither deleted, cleared nor invalidated, before its expiry |
| `QueryCache.MustHit` | core/database/cache_layer.py:87-126 | conversely the value last written, and not taken out since, must be the answer until its ttl is over |
| `QueryCache.Bounded` | core/database/cache_layer.py:119-150 | the cache never outgrows maxsize |
| `QueryCache.EvictsIntoFull` | core/database/cache_layer.py:119-150 | nothing is evicted without need: an eviction leaves the cache full |
| `Paginator.ApplyCursor` | core/pagination/paginator.py:122-146 | the filtered query keeps a row exactly when every cursor field that is a column has moved on |
| `Paginator.CursorIsOffset` | core/pagination/paginator.py:135-146 | on a strictly ordered table a row's cursor selects exactly the rows after it, ascending or descending |
| `Paginator.PageAt` | core/pagination/paginator.py:98-118 | a page is the next page_size rows; the flag and the cursor tell whether and where it goes on |
| `Paginator.PagesAreTotalPages` | core/pagination/paginator.py:68-68 | the ceiling division counts the pages that remain |
| `Paginator.WalkIsOffsetPaging` | core/pagination/paginator.py:68-118 | every page of the cursor walk is the offset page of that number, with the same has_next, and has_prev for all but the first; the walk covers the table, in the total number of pages, exactly when no inner page ends on a falsy key |
| `Partitioner.MakeInstance` | services/ingestion/partitioner.py:154-161 | the constructor's range check |
| `Partitioner.IsMySymbol` | services/ingestion/partitioner.py:167-193 | an id is mine exactly when it lies in the instance's range |
| `Partitioner.GetAssignedSymbols` | services/ingestion/partitioner.py:195-230 | the instance's slice of the sorted list, of the stated size |
| `Partitioner.BoundStep` | services/ingestion/partitioner.py:178-191 | range sizes differ by at most one, the larger ones first |
| `Partitioner.OwnedOnce` | services/ingestion/partitioner.py:178-193 | each index has exactly one owner, any other number none |
| `Partitioner.SortedIsPermutation` | services/ingestion/partitioner.py:206-206 | the list the ranges cut is ordered and has the given symbols |
| `Partitioner.SortedIsStable` | services/ingestion/partitioner.py:206-206 | symbols with the same id keep their order |
| `Partitioner.RangesCover` | services/ingestion/partitioner.py:205-222 | the slices of all instances concatenate to the sorted list |
| `Partitioner.AgreeIff` | services/ingestion/partitioner.py:167-222 | the two range methods agree for every number of instances exactly when the sorted ids are 0, 1, 2 and so on |
| `Partitioner.OwnerIs` | services/ingestion/partitioner.py:178-193 | the one owner of an index in closed form |
| `Partitioner.AgreeAtIff` | services/ingestion/partitioner.py:167-222 | for one number of instances they agree exactly when each id is an index in the range of its own position |
| `Partitioner.SymbolsAgreeIff` | services/ingestion/partitioner.py:167-230 | the same told on symbols: is_my_symbol of each symbol is membership in the instance's slice exactly then |
| `Partitioner.GetPartitionStats` | services/ingestion/partitioner.py:109-125 | each counter is the length of the list that instance would be given |
| `Partitioner.OwnersCycle` | services/ingestion/partitioner.py:55-81 | two symbols share an instance exactly when their digests differ by a multiple of the number of instances, and consecutive digests go to consecutive instances |
| `Partitioner.HashingCovers` | services/ingestion/partitioner.py:83-96 | whatever the digest, every symbol goes to exactly one instance |

## Left out

- Floating-point error, NaN and infinities: all arithmetic is over exact reals. Rounding is left out of the tree and the
  calculators; in the Black-Scholes model `round` is any function that rounds to the nearest.
- The computation of the up factor and of the one-step growth from volatility, rate and time: they are inputs.
- BinomialTree.PriceOption: requires a positive up factor, as an exponential is; a negative time to expiry or
  number of steps is reported as an arithmetic error without telling the exceptions apart.
- `lumpsum` and `compound_interest`, whose exponents are real.
- Finance.Emi: the tenure is not negative.
- Finance.EmiAmortises: whether the balance dips below zero on the way is told for a monthly growth that is not negative,
  that is for annual rates from -1200 % on; everything else in it holds for every rate.
- The Newton solvers for implied volatility: the solver is an arbitrary function in the batch, which may raise, as the
  source's does for a strike that is not positive.
- The Rust engine of the vectorised batch, and its division by zero at expiry.
- VectorizedBatch.CalculateBatchVectorized: requires a positive spot price and days to expiry when some option is valid:
  otherwise the array library computes infinities and NaNs, which are not modelled.
- VectorizedBatch.BatchesAgree: requires the same, and speaks of one option; a solver exception aborts the scalar batch.
- Missing attributes of option objects (`hasattr` defaults): option objects have all fields.
- The analyzer cache manager's cache keys (MD5 over JSON) and its wrapper methods; a `TTLCache` of size zero.
- Serialisation of cached values, cursors and keys: cursors are the decoded fields, cached values are compared as such.
- LayeredCache.BoundedStaleness: assumes one clock for all processes; processes without a Redis connection appear as
  calls that give up.
- The Redis half of `LayeredCacheManager.delete_pattern` as a loop: the scan is a step of the machine, in any number of
  rounds, not a method; `exists` and the statistics report add only easy members.
- Which key the third-party cache library evicts at capacity: `QueryCache` lets it be any other key. A `QueryCache` of
  size zero, which that library refuses to store in, is not modelled.
- The order in which waiting coroutines get the lock: any order is allowed, so no fairness is claimed.
- One clock for the rate limiter: Redis drops a sorted set by its own clock, while scores are the caller's readings; the
  model uses one reading for both.
- The spelling of timestamps in the rate limiter: it is taken to identify the clock reading.
- Paginator.WalkIsOffsetPaging: keys are whole numbers, whose only falsy value is zero, and the cursor field is a column
  of a table that does not change during the walk.
- Balance of the hash partitioner: nothing is claimed of the digest.
- The batch writer, retry decorators, bulkhead, connection pools, message consumers, health checks, logging and metrics:
  input and output, or simple counters.
