# Price layer of the chat dApp frontend, in Dafny

This project models the client-side price logic of a small chat dApp. Prices come from an on-chain Chainlink price oracle, and a "price chat integration" contract posts price alerts. The model covers two source files:

- `frontend/src/hooks/usePriceOracle.ts`: the `formatPrice` fixed-point formatter and `useFormattedPrice`; the batch of twelve oracle reads that `usePriceOracle` asks for; the loop that reconciles the batch results into per-pair price records; the two event feeds with their newest-first rolling histories (10 `PriceUpdated` entries, 20 `PriceAlertPosted` entries); the integration-status mapping; the loading flags.
- `frontend/src/config/contracts.ts`: the per-network address tables, `getContractAddress`, `getPriceOracleAddresses` and `CONTRACT_ADDRESS`.

Modules:

- `Wrappers` (`wrappers.dfy`): `Option`, standing for a JavaScript value that may be `undefined`.
- `JsValues` (`js_values.dfy`): the JavaScript semantics the hooks rely on.
  - `bigint` printing.
  - `bigint` `/` and `%`, which truncate toward zero, unlike Dafny's Euclidean operators.
  - Truthiness of strings and `bigint`s.
  - Basis points read as a percentage.
- `Contracts` (`contracts.dfy`): the address tables and the two lookups.
- `PriceFormat` (`price_format.dfy`): `formatPrice` and `useFormattedPrice`. It also defines `ParseFixed`, a reader that pads the fraction digits of a decimal string to `decimals` places. The round-trip property is stated with it.
- `RollingHistory` (`rolling_history.dfy`): the capped, newest-first history `[entry, ...prev.slice(0, capacity - 1)]`, both for one entry and for a batch of entries.
- `PriceOracle` (`price_oracle.dfy`): the `usePriceOracle` hook.
  - The batch layout, and reconciliation as a loop proved against a specification function.
  - The `PriceUpdated` feed, as a class whose `seq` field the callback reassigns.
- `PriceIntegration` (`price_integration.dfy`): the `usePriceIntegration` hook.
  - The status mapping.
  - The `PriceAlertPosted` feed, as a class.

The read hooks and event subscriptions of the wagmi library are not modelled. What they deliver becomes a parameter:

- the batch results;
- the `getAllPrices` and `getIntegrationStatus` tuples;
- the loading flags;
- the decoded log arguments.

`Date.now()` becomes one clock reading per alert log.

`formatPrice` is modelled for every integer price with the source's truncating `bigint` operators. The round trip is proved for non-negative prices. For negative prices the remainder keeps its minus sign inside the fraction, and a whole part of zero drops the sign. So -150 at two decimals prints as "-1.-5", and -50 prints as "0.-5". `PriceFormat.NegativeWholePart` and `PriceFormat.NegativeBelowOne` state these.

## Model

| member | source | states |
|---|---|---|
| JsValues.NatToString | frontend/src/hooks/usePriceOracle.ts:202 | `toString` of a non-negative `bigint` is a non-empty digit string whose first digit is '0' exactly for zero |
| JsValues.NatToStringRoundTrip | frontend/src/hooks/usePriceOracle.ts:202 | the printed digits read back as the number printed |
| JsValues.NatToStringFits | frontend/src/hooks/usePriceOracle.ts:205 | a number below 10^k prints in at most k digits, so padding the remainder to `decimals` places only adds leading zeros |
| JsValues.NatToStringInjective | frontend/src/hooks/usePriceOracle.ts:202 | distinct numbers print differently |
| JsValues.BigIntToStringReadsBack | frontend/src/hooks/usePriceOracle.ts:117 | `toString` of a non-negative `bigint` is all digits and reads back as the number; a negative one is '-' followed by digits that read back as its magnitude |
| JsValues.BigIntDiv | frontend/src/hooks/usePriceOracle.ts:198 | on a non-negative dividend `bigint` division is Dafny's Euclidean division; the general case is stated by `TruncatedDivision` |
| JsValues.BigIntRem | frontend/src/hooks/usePriceOracle.ts:199 | on a non-negative dividend `bigint` remainder is Dafny's Euclidean remainder; the general case is stated by `TruncatedDivision` |
| JsValues.TruncatedDivision | frontend/src/hooks/usePriceOracle.ts:198-199 | for every dividend, quotient * divisor + remainder is the dividend, the remainder is smaller than the divisor in magnitude, and remainder and quotient take the dividend's sign: truncation toward zero |
| JsValues.TruncatedDivisionUnique | frontend/src/hooks/usePriceOracle.ts:198-199 | any quotient and remainder with those properties are the `bigint` results, so they determine `/` and `%` |
| JsValues.TruthyString | frontend/src/hooks/usePriceOracle.ts:81 | a string is truthy exactly when it is defined and not empty (predicate) |
| JsValues.TruthyBigInt | frontend/src/hooks/usePriceOracle.ts:81 | a `bigint` is truthy exactly when it is defined and not `0n` (predicate) |
| JsValues.PercentageOf | frontend/src/hooks/usePriceOracle.ts:87 | `Number(x) / 100` is NaN exactly when the basis-point argument is undefined, and otherwise keeps its basis points |
| JsValues.Percentage.Value | frontend/src/hooks/usePriceOracle.ts:120 | the percentage times 100 is the basis-point count |
| Contracts.GetContractAddress | frontend/src/config/contracts.ts:22-24 | never empty; the table entry for chains 11155111, 4202 and 1; the Sepolia entry for every other chain |
| Contracts.GetPriceOracleAddresses | frontend/src/config/contracts.ts:27-29 | defined exactly for chain 11155111, and then the fixed oracle and integration addresses |
| Contracts.MainnetResolvesToZeroAddress | frontend/src/config/contracts.ts:10-23 | chain 1 resolves to the all-zero address, which is truthy, not to the Sepolia fallback |
| Contracts.ContractAddressIsFallback | frontend/src/config/contracts.ts:23-32 | `CONTRACT_ADDRESS` equals the Sepolia entry, which every chain missing from the table resolves to |
| PriceFormat.PadStart | frontend/src/hooks/usePriceOracle.ts:205 | `padStart(width, '0')` has length max(len, width) and is the input behind leading zeros |
| PriceFormat.TrimTrailingZeros | frontend/src/hooks/usePriceOracle.ts:206 | `replace(/0+$/, '')` is a prefix that the removed zeros complete, and it does not end in '0' |
| PriceFormat.FormatPrice | frontend/src/hooks/usePriceOracle.ts:196-207 | `formatPrice`; what it promises is stated by `FormatPriceParts`, `FormatPriceRoundTrip`, `FormatPriceInjective`, `NegativeWholePart` and `NegativeBelowOne` |
| PriceFormat.FractionText | frontend/src/hooks/usePriceOracle.ts:205-206 | the fraction text of a remainder; `FractionTextSpec` states its shape and value |
| PriceFormat.FormatPriceParts | frontend/src/hooks/usePriceOracle.ts:197-206 | a price of whole * 10^d + remainder prints as the whole part alone when the remainder is 0, otherwise as whole part, '.', and the fraction text of the remainder |
| PriceFormat.FormatPriceWhole | frontend/src/hooks/usePriceOracle.ts:196-203 | a whole multiple of 10^d prints as the digits of the multiple, with no '.' |
| PriceFormat.FormatPriceZeroAndUnscaled | frontend/src/hooks/usePriceOracle.ts:196-203 | zero prints as "0" at every precision; at precision 0 a price prints as its digits |
| PriceFormat.FractionTextSpec | frontend/src/hooks/usePriceOracle.ts:205-206 | the fraction of a non-zero remainder is 1 to d digits, does not end in '0', and right-padded to d places reads back as the remainder |
| PriceFormat.FormatPriceFraction | frontend/src/hooks/usePriceOracle.ts:205-206 | with a non-zero remainder the output is the whole part's digits, '.', and such a fraction |
| PriceFormat.FormatPriceRoundTrip | frontend/src/hooks/usePriceOracle.ts:196-207 | reading the output back, the fraction padded to d places, gives the price for every non-negative price and d <= 22 |
| PriceFormat.FormatPriceInjective | frontend/src/hooks/usePriceOracle.ts:196-207 | two non-negative prices with the same output at the same precision are equal |
| PriceFormat.NegativeWholePart | frontend/src/hooks/usePriceOracle.ts:198-206 | a negative price keeps the sign of the truncating remainder inside the fraction: -150 at 2 places prints "-1.-5" |
| PriceFormat.NegativeBelowOne | frontend/src/hooks/usePriceOracle.ts:198-206 | a negative price above -1 loses its sign in the whole part: -50 at 2 places prints "0.-5" |
| PriceFormat.UseFormattedPrice | frontend/src/hooks/usePriceOracle.ts:210-212 | `useFormattedPrice`; `UseFormattedPriceAgrees` states that both argument forms format the same price |
| PriceFormat.UseFormattedPriceAgrees | frontend/src/hooks/usePriceOracle.ts:210-212 | a digit-string argument formats as the number it spells, and the default precision is 8 |
| RollingHistory.Take | frontend/src/hooks/usePriceOracle.ts:91 | `slice(0, n)` is the prefix of length min(len, n) |
| RollingHistory.PushNewest | frontend/src/hooks/usePriceOracle.ts:91 | after one push the new entry is the head, the tail is the first min(n, capacity - 1) old entries, and the length is min(n + 1, capacity) |
| RollingHistory.PushAll | frontend/src/hooks/usePriceOracle.ts:79-93 | pushing a batch never exceeds the capacity, and the last entry of the batch ends up at the head |
| RollingHistory.PushAllWindow | frontend/src/hooks/usePriceOracle.ts:79-93 | after a batch the history is the first `capacity` entries of (batch reversed) followed by the old history |
| RollingHistory.PushAllEvicts | frontend/src/hooks/usePriceOracle.ts:91 | a batch of at least `capacity` entries evicts everything older: the history is the batch's last `capacity` entries, newest first |
| RollingHistory.PushAllNewest | frontend/src/hooks/usePriceOracle.ts:91 | after a batch of at least `capacity` entries the history has exactly `capacity` entries, and position j holds the entry j places from the batch's end |
| RollingHistory.OneMoreThanCapacityEvictsFirst | frontend/src/hooks/usePriceOracle.ts:91 | pushing capacity + 1 entries into an empty history leaves out the first one |
| PriceOracle.PairCalls | frontend/src/hooks/usePriceOracle.ts:47-65 | each pair yields three reads |
| PriceOracle.FlatMapPairCalls | frontend/src/hooks/usePriceOracle.ts:47-66 | the flattened list has three reads per pair |
| PriceOracle.FlatMapLayout | frontend/src/hooks/usePriceOracle.ts:47-66 | read j of pair i sits at position 3i + j, with function getLatestPrice, getPriceChangePercentage or getFormattedPrice and argument pair i |
| PriceOracle.BatchContracts | frontend/src/hooks/usePriceOracle.ts:47-66 | the batch is empty when the chain has no oracle addresses, and has 3 reads per pair otherwise |
| PriceOracle.BatchLayout | frontend/src/hooks/usePriceOracle.ts:44-66 | on Sepolia the batch has exactly 12 reads, in pair order, each on the price oracle |
| PriceOracle.BatchEmptyOffSepolia | frontend/src/hooks/usePriceOracle.ts:66 | every other chain gets an empty batch |
| PriceOracle.ResultAt | frontend/src/hooks/usePriceOracle.ts:105-107 | `individualPrices[k]?.result` is defined exactly for a successful read inside the list |
| PriceOracle.Truthy | frontend/src/hooks/usePriceOracle.ts:109 | `?.result` is truthy exactly when it is defined and is the price tuple, a non-zero change or a non-empty string (predicate) |
| PriceOracle.PairComplete | frontend/src/hooks/usePriceOracle.ts:101-109 | pair i is complete exactly when its results at 3i, 3i+1 and 3i+2 are all truthy (predicate) |
| PriceOracle.PairRecord | frontend/src/hooks/usePriceOracle.ts:110-122 | the record of pair i carries the pair's name; its price is the printed price of result 3i and its timestamp and decimals are that result's; its percentage is the non-zero change of result 3i+1 and its formatted price the non-empty string of result 3i+2 |
| PriceOracle.CollectPrices | frontend/src/hooks/usePriceOracle.ts:100-124 | the records of the complete pairs among the first n, in pair order; its lemmas are `CollectPricesRecords`, `CollectPricesOrdered` and `CollectPricesComplete` |
| PriceOracle.Reconciled | frontend/src/hooks/usePriceOracle.ts:98-99 | no records while the results are undefined or loading |
| PriceOracle.CollectPricesRecords | frontend/src/hooks/usePriceOracle.ts:100-124 | at most n records; each record belongs to a complete pair and is built from that pair's three results (one record per pair follows from `CollectPricesOrdered`) |
| PriceOracle.CollectPricesOrdered | frontend/src/hooks/usePriceOracle.ts:100-124 | records follow the order of the pair list, so no pair is listed twice |
| PriceOracle.PairsDistinct | frontend/src/hooks/usePriceOracle.ts:44 | the four pair names are distinct |
| PriceOracle.CollectedNames | frontend/src/hooks/usePriceOracle.ts:100-124 | the reconciled records carry exactly the names of the complete pairs, in pair order |
| PriceOracle.CompletePairsMembership | frontend/src/hooks/usePriceOracle.ts:109-113 | for distinct names, pair i is among the complete pairs exactly when its three results are truthy |
| PriceOracle.CollectPricesComplete | frontend/src/hooks/usePriceOracle.ts:109-123 | pair i is listed exactly when its results at 3i, 3i+1 and 3i+2 are all truthy |
| PriceOracle.ProcessPrices | frontend/src/hooks/usePriceOracle.ts:98-125 | the push loop computes exactly the reconciled list |
| PriceOracle.ReconciledSpec | frontend/src/hooks/usePriceOracle.ts:98-125 | at most four records and no duplicate pair; pair i is listed exactly when the results are present, not loading, and its three results are truthy |
| PriceOracle.ZeroChangeDropsPair | frontend/src/hooks/usePriceOracle.ts:109 | a `0n` percentage change drops its pair |
| PriceOracle.EmptyFormattedPriceDropsPair | frontend/src/hooks/usePriceOracle.ts:109 | an empty formatted-price string drops its pair |
| PriceOracle.AcceptsUpdate | frontend/src/hooks/usePriceOracle.ts:81 | a log is accepted exactly when its pair name, new price and timestamp are all truthy (predicate) |
| PriceOracle.UpdateFrom | frontend/src/hooks/usePriceOracle.ts:82-89 | the record of an accepted log has the log's pair and timestamp, 8 decimals, the printed new price, `FormatPrice(newPrice, 8)` as formatted price, and the log's change as a percentage (NaN when undefined) |
| PriceOracle.UpdateFromReadsBack | frontend/src/hooks/usePriceOracle.ts:84-88 | for a positive new price, both the price string and the price formatted at 8 places read back as the new price |
| PriceOracle.AcceptedUpdates | frontend/src/hooks/usePriceOracle.ts:79-93 | the records of the accepted logs of a batch; stated by `AcceptedUpdatesSpec`, `AcceptedUpdatesInOrder` and `AllAcceptedUpdates` |
| PriceOracle.AcceptedUpdatesInOrder | frontend/src/hooks/usePriceOracle.ts:79-93 | one record per accepted log, and the record of accepted log k sits after those of the accepted logs before it |
| PriceOracle.AllAcceptedUpdates | frontend/src/hooks/usePriceOracle.ts:79-93 | when every log is accepted, record k is built from log k |
| PriceOracle.FullBatchKeepsNewest | frontend/src/hooks/usePriceOracle.ts:79-93 | after a batch of at least ten accepted logs the history holds exactly the records of the last ten, newest first, so an eleventh log evicts the first |
| PriceOracle.AcceptedUpdatesSpec | frontend/src/hooks/usePriceOracle.ts:79-93 | a batch yields at most as many records as it has logs, each built from an accepted log; a batch of rejected logs yields none (one record per accepted log, in order, is `AcceptedUpdatesInOrder`) |
| PriceOracle.RejectedBatchKeepsHistory | frontend/src/hooks/usePriceOracle.ts:81 | logs with a missing or falsy (zero) pair name, new price or timestamp leave the history unchanged |
| PriceOracle.PriceUpdateFeed.constructor | frontend/src/hooks/usePriceOracle.ts:27 | the history starts empty |
| PriceOracle.PriceUpdateFeed.Receive | frontend/src/hooks/usePriceOracle.ts:80-92 | an accepted log is pushed in front with capacity 10; any other log changes nothing |
| PriceOracle.PriceUpdateFeed.OnLogs | frontend/src/hooks/usePriceOracle.ts:78-94 | handling a batch of logs in order leaves the old history with the accepted records pushed, capacity 10 kept |
| PriceOracle.UsePriceOracle | frontend/src/hooks/usePriceOracle.ts:127-133 | the queries are enabled exactly on Sepolia; the batch, the reconciled records and the history are returned; `isLoading` is true exactly when `pricesLoading` or `individualLoading` is |
| PriceIntegration.IntegrationStatusOf | frontend/src/hooks/usePriceOracle.ts:179-188 | the record is undefined exactly when the tuple is, and otherwise its five fields are positions 0 to 4 of the tuple |
| PriceIntegration.IntegrationStatusRoundTrip | frontend/src/hooks/usePriceOracle.ts:182-188 | mapping the tuple of a record gives the record back |
| PriceIntegration.AlertFrom | frontend/src/hooks/usePriceOracle.ts:166-171 | an alert carries the log's pair name, its change in basis points, the clock reading as timestamp, and `toString` of the logged new price (either sign; `BigIntToStringReadsBack` gives its digits) |
| PriceIntegration.AlertFromReadsBack | frontend/src/hooks/usePriceOracle.ts:168-169 | for a positive price the alert's price string reads back as the logged price, and the percentage is non-zero |
| PriceIntegration.AcceptsAlert | frontend/src/hooks/usePriceOracle.ts:165 | a log is accepted exactly when its pair name, change and new price are all truthy (predicate) |
| PriceIntegration.AcceptedAlerts | frontend/src/hooks/usePriceOracle.ts:163-175 | the alerts of the accepted logs of a batch, each stamped with its own clock reading; stated by `AcceptedAlertsSpec`, `AcceptedAlertsInOrder` and `AllAcceptedAlerts` |
| PriceIntegration.AcceptedAlertsInOrder | frontend/src/hooks/usePriceOracle.ts:163-175 | one alert per accepted log, and the alert of accepted log k sits after those of the accepted logs before it |
| PriceIntegration.AllAcceptedAlerts | frontend/src/hooks/usePriceOracle.ts:163-175 | when every log is accepted, alert k is built from log k and clock reading k |
| PriceIntegration.FullBatchKeepsNewestAlerts | frontend/src/hooks/usePriceOracle.ts:163-175 | after a batch of at least twenty accepted logs the history holds exactly the alerts of the last twenty, newest first |
| PriceIntegration.AcceptedAlertsSpec | frontend/src/hooks/usePriceOracle.ts:163-175 | a batch yields at most as many alerts as it has logs, each built from an accepted log and its own clock reading; rejected logs yield none (one alert per accepted log, in order, is `AcceptedAlertsInOrder`) |
| PriceIntegration.RejectedBatchKeepsAlerts | frontend/src/hooks/usePriceOracle.ts:165 | logs with a missing or falsy (zero) pair name, change or price leave the alert history unchanged |
| PriceIntegration.AlertFeed.constructor | frontend/src/hooks/usePriceOracle.ts:150-155 | the alert history starts empty |
| PriceIntegration.AlertFeed.Receive | frontend/src/hooks/usePriceOracle.ts:164-174 | an accepted log is pushed in front with capacity 20; any other log changes nothing |
| PriceIntegration.AlertFeed.OnLogs | frontend/src/hooks/usePriceOracle.ts:162-176 | handling a batch of logs in order leaves the old history with the accepted alerts pushed, capacity 20 kept |
| PriceIntegration.UsePriceIntegration | frontend/src/hooks/usePriceOracle.ts:181-192 | the status mapping and alert history are returned, and `isLoading` is `statusLoading` |

## Left out

- The wagmi hooks `useReadContract`, `useReadContracts` and `useWatchContractEvent`, and the RPC transport with its batching and retries (`frontend/src/config/wagmi.ts` is not part of this model). They are library and network code, so their results are parameters. This includes whether a disabled query reports itself as loading.
- `refetchPrices` and `refetchStatus`, the subscription lifecycle, and teardown on a network switch. These are asynchronous plumbing owned by the library.
- React `useState` scheduling. Each functional updater is a sequential reassignment of the history field, one log at a time, in log order.
- `Number(x) / 100`, `Number(timestamp)`, and `Number(status[3])` and `Number(status[4])` in the integration status (`frontend/src/hooks/usePriceOracle.ts:186-187`) are IEEE doubles in the source. The model keeps basis points exactly, in `Percentage`, and timestamps as unbounded integers. It does not model rounding, or loss of precision above 2^53.
- PriceFormat.FormatPrice: requires `decimals <= 22`, as a whole number. `BigInt(10 ** decimals)` goes through a double and is exact only up to 22. From 23 to 308 the source divides by a rounded power of ten. From 309 on, `10 ** decimals` is `Infinity`, and `BigInt(Infinity)` throws a `RangeError`. A negative or fractional `decimals` gives a fractional double, and `BigInt` throws on it too. `useFormattedPrice` passes any number through, so none of these throwing cases is modelled.
- PriceFormat.UseFormattedPrice: only plain decimal digit strings are accepted as a string argument. `BigInt(string)` also takes a sign, surrounding whitespace and `0x`/`0o`/`0b` prefixes, and throws on malformed text. None of these is modelled.
- PriceOracle.PairRecord: requires each read's result to have its ABI return type. The source casts with `as unknown as`, relying on ABI decoding.
- PriceIntegration.AlertFeed.OnLogs: `Date.now()` is a clock read. It is given as one reading per log, and a reading is used only when that log is accepted.
- Event arguments are taken as decoded values. `pairName` is an indexed `string` in both events, so a decoder that yields its topic hash instead of the text is not distinguished.
- `console.log` calls. They are debug output only.
- The ABI arrays (`frontend/src/config/contracts.ts:35-332`). They are inert data.
- The rendering components under `frontend/src/components/chat/` are not part of this model. Their number formatting is floating point.
- The `getAllPrices` tuple is passed through unchanged. The source only casts it.
