# Price oracle: retrying HTTP client and price filtering

This project models two parts of a small price oracle written in Rust.

- **`rhttp::Client`** (module `RHttp`, file `rhttp.dfy`). This is the HTTP client with a retry budget and an optional rate limiter.
  - The builders `new`, `with_max_requests_per_second` and `with_max_retries` are pure functions on a `Client` value. The value holds the retry count and the optional limiter.
  - `send` is modelled twice. The recursive function `Attempt` is the reference. The method `Send` follows the source's `loop` and is proved equal to `Attempt`.
  - The transport is the sequence of outcomes it gives to successive dispatches.
  - Every side effect of `send` is recorded in an event trace: a limiter tick, a dispatch, or a backoff sleep of `n` seconds.
  - A request that cannot be cloned makes the `expect` panic. This is the `ClonePanic` result, selected by a `cloneable` flag.
  - The backoff is `2u64.pow(attempts)` with `u64` wrap-around. It is exactly `2^j` for `j < 64` and `0` from 64 on.
- **The price step of `main`** (module `PriceFeed`, file `price_feed.dfy`). This covers:
  - the client configuration: 0.5 requests per second and 5 retries;
  - the request for every key of the CoinGecko-ID table, in `"usd"` only;
  - the loop that turns the CoinGecko response into prices keyed by internal asset ID.

  Prices are an opaque type. The filtering loop `CollectPrices` visits the response IDs in any order, as a hash map does. It is proved equal to the order-free reference `Reprice`.

## Model

| member | source | states |
|---|---|---|
| RHttp.New | src/rhttp.rs:12-18 | a new client has no retries and no rate limiter |
| RHttp.WithMaxRequestsPerSecond | src/rhttp.rs:20-26 | a limit above zero installs a limiter for that rate; a limit of zero or below leaves the client unchanged; the retry count is never touched |
| RHttp.WithMaxRetries | src/rhttp.rs:28-31 | the retry count becomes the given value and the limiter is kept |
| RHttp.Backoff | src/rhttp.rs:54 | the backoff of a retry is a `u64`: below 2^64 |
| RHttp.BackoffExact | src/rhttp.rs:54 | for retry numbers below 64 the backoff is exactly 2^attempts seconds |
| RHttp.BackoffDoubles | src/rhttp.rs:52-54 | below 64 retries, each retry's backoff is twice the previous one, starting at 2 seconds for the first retry |
| RHttp.BackoffStrictlyIncreasing | src/rhttp.rs:52-54 | below 64 retries, later retries sleep strictly longer |
| RHttp.BackoffWrapsFrom64 | src/rhttp.rs:54 | from the 64th retry on, the `u64` power wraps to a sleep of 0 seconds |
| RHttp.Send | src/rhttp.rs:37-59 | the loop with its attempt counter returns the same result and causes the same events as the reference recursion from attempt 0 |
| RHttp.AttemptSettles | src/rhttp.rs:37-59 | if the dispatches up to `last` fail and `last` is the final retry or succeeds, then: `send` returns dispatch `last`'s outcome; it makes `last - a + 1` dispatches and as many ticks under a limiter, none without; its sleeps are the backoffs of retries `a+1 .. last` in order |
| RHttp.SendExhaustsRetries | src/rhttp.rs:52-56 | if every dispatch fails, `send` makes exactly `max_retries + 1` dispatches, sleeps `Backoff(1) .. Backoff(max_retries)` seconds in between (that is, 2^1 .. 2^max_retries when max_retries < 64), ends on a dispatch, and returns the last error |
| RHttp.SendRecovers | src/rhttp.rs:51-55 | if `m` failures are followed by a success, `send` makes `m + 1` dispatches and `m` sleeps of `Backoff(1) .. Backoff(m)` seconds (that is, 2^1 .. 2^m when m < 64), then returns that response |
| RHttp.AttemptSucceedsIff | src/rhttp.rs:51-56 | from any attempt, `send` returns a response iff a later dispatch within the budget succeeds, and a transport error iff all of them fail |
| RHttp.SendSucceedsIff | src/rhttp.rs:37-59 | `send` returns a response iff one of its `max_retries + 1` dispatches succeeds, and a transport error iff all fail |
| RHttp.AttemptEndsOnDispatch | src/rhttp.rs:51-56 | a cloneable `send` always ends with a dispatch: no sleep comes after the final attempt |
| RHttp.AttemptPacing | src/rhttp.rs:39-49 | with a limiter, every dispatch (retries included) comes straight after a tick, every tick straight before a dispatch, and the run starts with a tick; without a limiter there is no tick |
| RHttp.ClonePanicDispatchesNothing | src/rhttp.rs:45-47 | a request that cannot be cloned panics before any dispatch or sleep |
| RHttp.NewClientDispatchesOnce | src/rhttp.rs:12-18 | a fresh client makes one dispatch with no tick and no sleep, and returns its outcome |
| PriceFeed.TableKeys | src/main.rs:58-65 | the table's CoinGecko IDs are bitcoin, ethereum, usd-coin, tether, solana and jupiter-exchange-solana |
| PriceFeed.TableSize | src/main.rs:56-66 | the ID table has six entries |
| PriceFeed.TableAssets | src/main.rs:56-66 | the table's asset IDs are btc, eth, usdc, usdt, sol and jup |
| PriceFeed.TableInjective | src/main.rs:56-66 | no two CoinGecko IDs share an asset ID |
| PriceFeed.ConfiguredClient | src/main.rs:18-20 | the client `main` builds has a limiter of 0.5 requests per second and 5 retries |
| PriceFeed.ConfiguredWorstCase | src/main.rs:18-20 | against a transport that always fails, the configured client makes 6 dispatches with 6 ticks, sleeps 2, 4, 8, 16 and 32 seconds in between, and returns the sixth error |
| PriceFeed.FiveBackoffs | src/rhttp.rs:52-54 | the first five backoffs are 2, 4, 8, 16 and 32 seconds |
| PriceFeed.InSomeOrder | src/main.rs:26-29 | the listed keys are exactly the set's elements, each once |
| PriceFeed.LatestPricesRequest | src/main.rs:24-31 | the request asks for exactly the six table keys, each once, and for the single currency "usd" |
| PriceFeed.RepriceFresh | src/main.rs:36-38 | before a known ID is visited, no price is stored under its asset ID |
| PriceFeed.RepriceSkip | src/main.rs:36-37 | visiting an unknown ID, or one without "usd", changes no price |
| PriceFeed.RepriceInsert | src/main.rs:36-38 | visiting a known ID with a "usd" price adds that price under its asset ID, at a key that held none, and changes no other price |
| PriceFeed.RepriceAdd | src/main.rs:35-41 | one loop step either inserts exactly the visited ID's price or changes nothing |
| PriceFeed.CollectPrices | src/main.rs:34-41 | the loop over the response, in any visiting order, yields exactly the reference filter |
| PriceFeed.PricesKeyedByAssets | src/main.rs:36-38 | every output key is an asset ID of the table |
| PriceFeed.PriceDefinedIff | src/main.rs:35-41 | a price is stored for an asset iff some table ID for it has a "usd" entry in the response, and then the stored price is that entry |
| PriceFeed.UnknownIdIgnored | src/main.rs:36 | adding or changing the entry of an ID the table does not know leaves the prices unchanged |
| PriceFeed.OtherCurrencyIgnored | src/main.rs:37 | adding or changing a price in any currency other than "usd" leaves the prices unchanged |
| PriceFeed.AtMostOnePricePerEntry | src/main.rs:34-41 | the output has no more prices than the table has entries |
| PriceFeed.MainPrices | src/main.rs:34-41 | the prices `main` stores equal the reference filter through the fixed table, are keyed by the table's asset IDs, and number at most six |

Each round of the state machine is the recursive function `RHttp.Attempt`, which models src/rhttp.rs:39-57. It has no contract of its own: `RHttp.Send` and the lemmas above state what it means. Likewise the reference filter `PriceFeed.Reprice` models src/main.rs:34-41 as a map comprehension, and the `Reprice*` lemmas, `CollectPrices` and `PriceDefinedIff` state its meaning. `RHttp.Pacing` (the optional tick, src/rhttp.rs:40-43) and `RHttp.Settle` (the returned outcome, src/rhttp.rs:51-56) are definitions used by `Attempt`.

Some lemmas are general facts about finite sets and maps, used as proof helpers: `PriceFeed.ValuesCardinality` (a map has no more distinct values than keys), `PriceFeed.SubsetCardinality` (a subset is no larger than its superset), `PriceFeed.SixDistinct` (six pairwise distinct strings make a set of six), and `PriceFeed.DistinctByCount` and `PriceFeed.InjectiveByCount` (a map with as many distinct values as keys is injective). `TableInjective` and `AtMostOnePricePerEntry` are proved with them.

## Left out

- The reqwest transport itself is not modelled. It is the outcome sequence, and that sequence must answer every dispatch the retry budget allows.
- Request building (`Client::request`, src/rhttp.rs:33-35) forwards to reqwest and is not modelled.
- The timing of the tokio `Interval` and of `sleep` is not modelled. The trace records that a tick or a sleep of `n` seconds happened, not when.
- The `Mutex` around the limiter and concurrent callers of `send` are not modelled. Each `send` is one sequential run.
- RHttp.WithMaxRequestsPerSecond: the limit is a `real`, so the `f64` NaN and infinity cases are not modelled. The tick period `1 / limit` is not modelled either. Nor are two panics of the builder: `Duration::from_secs_f64` panics on a period too large to represent, and `tokio::time::interval` panics on a zero period, which a finite limit above about 10^9 per second gives. The model installs a limiter for every positive limit.
- RHttp.Backoff: models the wrap-around of `2u64.pow` in a release build. A debug build panics on that overflow instead, and this is not modelled. No budget below 64 retries reaches it.
- The CoinGecko client (src/coingecko.rs) is not part of this model. Its URL building, its HTTP status handling and its JSON decoding are reduced to "the response is a map from ID to currency to price".
- The ClickHouse client (src/clickhouse_client.rs) is not part of this model. The prices are the value handed to it.
- Environment variable reads, the `println!` loop and the `?` propagation of errors out of `main` are I/O and are not modelled.
- The iteration order of Rust's `HashMap` is left unspecified. Any order is allowed, and the results are proved not to depend on it.
- Prices are an opaque type rather than `f64`. The filter only copies them.
