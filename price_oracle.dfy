/**
 * The `usePriceOracle` hook: the batch of twelve oracle reads it asks for,
 * the loop that turns the batch results into per-pair price records, the
 * `PriceUpdated` event feed with its ten-entry history, and the combined
 * loading flag. The read results and event logs are inputs.
 */
module PriceOracle {
  import opened Wrappers
  import opened JsValues
  import opened Contracts
  import opened PriceFormat
  import opened RollingHistory

  /** The pairs read one by one, in this order. */
  const Pairs: seq<string> := ["BTC/USD", "ETH/USD", "BTC/ETH", "BNB/ETH"]

  /** Decimals used for a price that arrives in a `PriceUpdated` event. */
  const EventDecimals: nat := 8

  /** Number of `PriceUpdated` entries kept. */
  const UpdateCapacity: nat := 10

  datatype OracleFunction = GetLatestPrice | GetPriceChangePercentage | GetFormattedPrice

  /** The three reads made for every pair, in their order within the batch. */
  const PerPairFunctions: seq<OracleFunction> := [GetLatestPrice, GetPriceChangePercentage, GetFormattedPrice]

  /** One entry of the `contracts` list given to the batch read. */
  datatype ContractCall = ContractCall(address: string, functionName: OracleFunction, args: seq<string>)

  /** The three reads for one pair, all on the price oracle and all with the pair as argument. */
  function PairCalls(address: string, pair: string): (calls: seq<ContractCall>)
    ensures |calls| == |PerPairFunctions|
  {
    seq(|PerPairFunctions|, j requires 0 <= j < |PerPairFunctions| => ContractCall(address, PerPairFunctions[j], [pair]))
  }

  /** `pairs.flatMap(pair => [...])`. */
  function FlatMapPairCalls(address: string, pairs: seq<string>): (calls: seq<ContractCall>)
    ensures |calls| == 3 * |pairs|
  {
    if pairs == [] then [] else PairCalls(address, pairs[0]) + FlatMapPairCalls(address, pairs[1..])
  }

  /** Read `j` of pair `i` sits at position `3 * i + j` of the flattened list. */
  lemma {:induction false} FlatMapLayout(address: string, pairs: seq<string>, i: nat, j: nat)
    requires i < |pairs| && j < 3
    ensures FlatMapPairCalls(address, pairs)[3 * i + j] == ContractCall(address, PerPairFunctions[j], [pairs[i]])
  {
    if i > 0 {
      FlatMapLayout(address, pairs[1..], i - 1, j);
      assert 3 * i + j == 3 + (3 * (i - 1) + j);
    }
  }

  /**
   * The `contracts` argument of the batch read: the flattened reads on the
   * price oracle when the chain has addresses, the empty list otherwise.
   */
  function BatchContracts(addresses: Option<OracleAddresses>): (calls: seq<ContractCall>)
    ensures addresses.None? ==> calls == []
    ensures addresses.Some? ==> |calls| == 3 * |Pairs|
  {
    match addresses
    case Some(a) => FlatMapPairCalls(a.chainlinkPriceOracle, Pairs)
    case None => []
  }

  /**
   * The batch has twelve reads: getLatestPrice, getPriceChangePercentage and
   * getFormattedPrice for each pair in turn, on the chain's price oracle.
   */
  lemma BatchLayout(chainId: int, i: nat, j: nat)
    requires chainId == Sepolia && i < |Pairs| && j < 3
    ensures |BatchContracts(GetPriceOracleAddresses(chainId))| == 12
    ensures BatchContracts(GetPriceOracleAddresses(chainId))[3 * i + j] ==
      ContractCall(SepoliaOracle.chainlinkPriceOracle, PerPairFunctions[j], [Pairs[i]])
  {
    FlatMapLayout(SepoliaOracle.chainlinkPriceOracle, Pairs, i, j);
  }

  /** Off Sepolia the batch is empty and its query is disabled. */
  lemma BatchEmptyOffSepolia(chainId: int)
    requires chainId != Sepolia
    ensures BatchContracts(GetPriceOracleAddresses(chainId)) == []
  {
  }

  /** The decoded value of one successful read, by the function read. */
  datatype ReturnValue =
    | LatestPrice(price: int, timestamp: int, decimals: int)
    | ChangePercentage(basisPoints: int)
    | FormattedPrice(text: string)

  /** One entry of the batch result: a decoded `result`, or a failure without one. */
  datatype CallOutcome = Success(result: ReturnValue) | Failure

  /** `individualPrices[k]?.result`: undefined past the end and for a failed read. */
  function ResultAt(results: seq<CallOutcome>, k: nat): (r: Option<ReturnValue>)
    ensures r.Some? <==> k < |results| && results[k].Success?
  {
    if k < |results| && results[k].Success? then Some(results[k].result) else None
  }

  /**
   * JavaScript truthiness of a result: the price tuple is an array and
   * always truthy, a percentage change of `0n` and an empty string are not.
   */
  predicate Truthy(r: Option<ReturnValue>) {
    match r
    case None => false
    case Some(LatestPrice(_, _, _)) => true
    case Some(ChangePercentage(b)) => b != 0
    case Some(FormattedPrice(t)) => t != ""
  }

  /** The three reads of pair `i` each returned a result of their function's type. */
  predicate SlotsTyped(results: seq<CallOutcome>, i: nat) {
    && (ResultAt(results, 3 * i).Some? ==> ResultAt(results, 3 * i).value.LatestPrice?)
    && (ResultAt(results, 3 * i + 1).Some? ==> ResultAt(results, 3 * i + 1).value.ChangePercentage?)
    && (ResultAt(results, 3 * i + 2).Some? ==> ResultAt(results, 3 * i + 2).value.FormattedPrice?)
  }

  /** What ABI decoding of the batch guarantees: each slot of the first `count` pairs holds its function's return type. */
  predicate WellTyped(results: seq<CallOutcome>, count: nat) {
    forall i :: 0 <= i < count ==> SlotsTyped(results, i)
  }

  /** `priceResult?.result && changeResult?.result && formattedResult?.result`. */
  predicate PairComplete(results: seq<CallOutcome>, i: nat) {
    Truthy(ResultAt(results, 3 * i)) && Truthy(ResultAt(results, 3 * i + 1)) && Truthy(ResultAt(results, 3 * i + 2))
  }

  /** A price record as the hook returns it. */
  datatype PriceData = PriceData(
    pair: string,
    price: string,
    timestamp: int,
    decimals: int,
    percentageChange: Percentage,
    formattedPrice: string)

  /** The record built for pair `i` of `pairs` from its three results. */
  function PairRecord(pairs: seq<string>, results: seq<CallOutcome>, i: nat): (d: PriceData)
    requires i < |pairs| && WellTyped(results, |pairs|) && PairComplete(results, i)
    ensures d.pair == pairs[i]
    ensures ResultAt(results, 3 * i).Some? && ResultAt(results, 3 * i).value.LatestPrice?
    ensures var latest := ResultAt(results, 3 * i).value;
      d.price == BigIntToString(latest.price) && d.timestamp == latest.timestamp && d.decimals == latest.decimals
    ensures d.percentageChange.Percent? && d.percentageChange.basisPoints != 0
    ensures ResultAt(results, 3 * i + 1) == Some(ChangePercentage(d.percentageChange.basisPoints))
    ensures ResultAt(results, 3 * i + 2) == Some(FormattedPrice(d.formattedPrice))
    ensures d.formattedPrice != ""
  {
    assert SlotsTyped(results, i);
    var latest := ResultAt(results, 3 * i).value;
    var change := ResultAt(results, 3 * i + 1).value;
    var formatted := ResultAt(results, 3 * i + 2).value;
    PriceData(
      pairs[i],
      BigIntToString(latest.price),
      latest.timestamp,
      latest.decimals,
      Percent(change.basisPoints),
      formatted.text)
  }

  /** The records of the complete pairs among the first `n` of `pairs`, in pair order. */
  function CollectPrices(pairs: seq<string>, results: seq<CallOutcome>, n: nat): (r: seq<PriceData>)
    requires n <= |pairs| && WellTyped(results, |pairs|)
  {
    if n == 0 then []
    else
      CollectPrices(pairs, results, n - 1) +
      (if PairComplete(results, n - 1) then [PairRecord(pairs, results, n - 1)] else [])
  }

  /**
   * `processedPrices`: nothing while the results are undefined or still
   * loading, otherwise the records of the complete pairs.
   */
  function Reconciled(individualPrices: Option<seq<CallOutcome>>, loading: bool): (r: seq<PriceData>)
    requires individualPrices.Some? ==> WellTyped(individualPrices.value, |Pairs|)
    ensures individualPrices.None? || loading ==> r == []
  {
    if individualPrices.Some? && !loading then CollectPrices(Pairs, individualPrices.value, |Pairs|) else []
  }

  /** No name occurs twice. */
  predicate Distinct(names: seq<string>) {
    forall i, j :: 0 <= i < j < |names| ==> names[i] != names[j]
  }

  /** The four pair names are distinct. */
  lemma PairsDistinct()
    ensures Distinct(Pairs)
  {
    assert Pairs[0][0] == 'B' && Pairs[1][0] == 'E' && Pairs[2][0] == 'B' && Pairs[3][0] == 'B';
    assert Pairs[0][4] == 'U' && Pairs[2][4] == 'E' && Pairs[3][4] == 'E';
    assert Pairs[2][1] == 'T' && Pairs[3][1] == 'N';
  }

  /** The first position of `x` in `s`, or `|s|` when it is absent. */
  function IndexOf(s: seq<string>, x: string): (i: nat)
    ensures i <= |s|
    ensures i < |s| ==> s[i] == x
    ensures i == |s| ==> x !in s
    ensures forall j :: 0 <= j < i ==> s[j] != x
  {
    if s == [] then 0 else if s[0] == x then 0 else 1 + IndexOf(s[1..], x)
  }

  /** In a list of distinct names each name's first position is its index. */
  lemma IndexOfDistinct(names: seq<string>, i: nat)
    requires Distinct(names) && i < |names|
    ensures IndexOf(names, names[i]) == i
  {
  }

  /**
   * Every reconciled record among the first `n` pairs belongs to one of
   * them, that pair's three results are truthy, and the record is built
   * from them; there are at most `n` records.
   */
  lemma {:induction false} CollectPricesRecords(pairs: seq<string>, results: seq<CallOutcome>, n: nat)
    requires n <= |pairs| && WellTyped(results, |pairs|) && Distinct(pairs)
    ensures var r := CollectPrices(pairs, results, n);
      && |r| <= n
      && (forall k :: 0 <= k < |r| ==>
            IndexOf(pairs, r[k].pair) < n && PairComplete(results, IndexOf(pairs, r[k].pair)) &&
            r[k] == PairRecord(pairs, results, IndexOf(pairs, r[k].pair)))
  {
    if n > 0 {
      CollectPricesRecords(pairs, results, n - 1);
      IndexOfDistinct(pairs, n - 1);
    }
  }

  /** The reconciled records follow the order of `pairs`, so no pair appears twice. */
  lemma {:induction false} CollectPricesOrdered(pairs: seq<string>, results: seq<CallOutcome>, n: nat)
    requires n <= |pairs| && WellTyped(results, |pairs|) && Distinct(pairs)
    ensures var r := CollectPrices(pairs, results, n);
      forall k1, k2 :: 0 <= k1 < k2 < |r| ==> IndexOf(pairs, r[k1].pair) < IndexOf(pairs, r[k2].pair)
  {
    if n > 0 {
      CollectPricesOrdered(pairs, results, n - 1);
      CollectPricesRecords(pairs, results, n - 1);
      IndexOfDistinct(pairs, n - 1);
    }
  }

  /** The pair names of a list of records. */
  function PairNames(records: seq<PriceData>): (names: seq<string>)
    ensures |names| == |records|
    ensures forall k :: 0 <= k < |records| ==> names[k] == records[k].pair
  {
    if records == [] then [] else PairNames(records[..|records| - 1]) + [records[|records| - 1].pair]
  }

  /** The names of the complete pairs among the first `n` of `pairs`, in pair order. */
  function CompletePairs(pairs: seq<string>, results: seq<CallOutcome>, n: nat): seq<string>
    requires n <= |pairs|
  {
    if n == 0 then []
    else CompletePairs(pairs, results, n - 1) + (if PairComplete(results, n - 1) then [pairs[n - 1]] else [])
  }

  /** The names after one more pair: the earlier names, then that pair's name if it is complete. */
  lemma PairNamesStep(pairs: seq<string>, results: seq<CallOutcome>, n: nat)
    requires 0 < n <= |pairs| && WellTyped(results, |pairs|)
    ensures PairNames(CollectPrices(pairs, results, n)) ==
      PairNames(CollectPrices(pairs, results, n - 1)) + (if PairComplete(results, n - 1) then [pairs[n - 1]] else [])
  {
    var prev := CollectPrices(pairs, results, n - 1);
    if PairComplete(results, n - 1) {
      var d := PairRecord(pairs, results, n - 1);
      assert CollectPrices(pairs, results, n) == prev + [d];
      PairNamesSnoc(prev, d);
    } else {
      assert CollectPrices(pairs, results, n) == prev;
    }
  }

  lemma PairNamesSnoc(records: seq<PriceData>, d: PriceData)
    ensures PairNames(records + [d]) == PairNames(records) + [d.pair]
  {
    assert (records + [d])[..|records|] == records;
  }

  /** The reconciled records carry exactly the names of the complete pairs, in order. */
  lemma {:induction false} CollectedNames(pairs: seq<string>, results: seq<CallOutcome>, n: nat)
    requires n <= |pairs| && WellTyped(results, |pairs|)
    ensures PairNames(CollectPrices(pairs, results, n)) == CompletePairs(pairs, results, n)
  {
    if n > 0 {
      CollectedNames(pairs, results, n - 1);
      PairNamesStep(pairs, results, n);
    }
  }

  /** Every name among the first `n` complete pairs is one of the first `n` names. */
  lemma {:induction false} CompletePairsEarlier(pairs: seq<string>, results: seq<CallOutcome>, n: nat)
    requires n <= |pairs|
    ensures forall x :: x in CompletePairs(pairs, results, n) ==> IndexOf(pairs, x) < n
  {
    if n > 0 {
      CompletePairsEarlier(pairs, results, n - 1);
    }
  }

  /** Among distinct names, pair `i` is listed exactly when its three results are truthy. */
  lemma {:induction false} CompletePairsMembership(pairs: seq<string>, results: seq<CallOutcome>, n: nat, i: nat)
    requires n <= |pairs| && Distinct(pairs) && i < n
    ensures PairComplete(results, i) <==> pairs[i] in CompletePairs(pairs, results, n)
  {
    if i == n - 1 {
      CompletePairsEarlier(pairs, results, n - 1);
      IndexOfDistinct(pairs, n - 1);
    } else {
      CompletePairsMembership(pairs, results, n - 1, i);
    }
  }

  /** Pair `i` has a record exactly when its three results are truthy. */
  lemma CollectPricesComplete(pairs: seq<string>, results: seq<CallOutcome>, n: nat, i: nat)
    requires n <= |pairs| && WellTyped(results, |pairs|) && Distinct(pairs) && i < n
    ensures PairComplete(results, i) <==> pairs[i] in PairNames(CollectPrices(pairs, results, n))
  {
    CollectedNames(pairs, results, n);
    CompletePairsMembership(pairs, results, n, i);
  }

  /**
   * The `for` loop over the pairs, pushing one record per complete pair
   * into `processedPrices`.
   */
  method ProcessPrices(individualPrices: Option<seq<CallOutcome>>, individualLoading: bool)
    returns (processed: seq<PriceData>)
    requires individualPrices.Some? ==> WellTyped(individualPrices.value, |Pairs|)
    ensures processed == Reconciled(individualPrices, individualLoading)
  {
    processed := [];
    if individualPrices.Some? && !individualLoading {
      var results := individualPrices.value;
      for i := 0 to |Pairs|
        invariant processed == CollectPrices(Pairs, results, i)
      {
        if PairComplete(results, i) {
          processed := processed + [PairRecord(Pairs, results, i)];
        }
      }
    }
  }

  /**
   * The reconciled list has at most four records, one per pair at most,
   * in the order of `Pairs`; pair `i` is listed exactly when the results
   * are present, not loading, and its three results are truthy.
   */
  lemma ReconciledSpec(individualPrices: Option<seq<CallOutcome>>, loading: bool, i: nat)
    requires individualPrices.Some? ==> WellTyped(individualPrices.value, |Pairs|)
    requires i < |Pairs|
    ensures |Reconciled(individualPrices, loading)| <= |Pairs|
    ensures Pairs[i] in PairNames(Reconciled(individualPrices, loading)) <==>
      individualPrices.Some? && !loading && PairComplete(individualPrices.value, i)
    ensures forall k1, k2 :: 0 <= k1 < k2 < |Reconciled(individualPrices, loading)| ==>
      Reconciled(individualPrices, loading)[k1].pair != Reconciled(individualPrices, loading)[k2].pair
  {
    if individualPrices.Some? && !loading {
      PairsDistinct();
      CollectPricesRecords(Pairs, individualPrices.value, |Pairs|);
      CollectPricesOrdered(Pairs, individualPrices.value, |Pairs|);
      CollectPricesComplete(Pairs, individualPrices.value, |Pairs|, i);
    }
  }

  /** A percentage change of `0n` is falsy and drops its pair, whatever the other two reads say. */
  lemma ZeroChangeDropsPair(results: seq<CallOutcome>, i: nat)
    requires WellTyped(results, |Pairs|) && i < |Pairs|
    requires ResultAt(results, 3 * i + 1) == Some(ChangePercentage(0))
    ensures Pairs[i] !in PairNames(Reconciled(Some(results), false))
  {
    ReconciledSpec(Some(results), false, i);
  }

  /** An empty formatted price is falsy and drops its pair too. */
  lemma EmptyFormattedPriceDropsPair(results: seq<CallOutcome>, i: nat)
    requires WellTyped(results, |Pairs|) && i < |Pairs|
    requires ResultAt(results, 3 * i + 2) == Some(FormattedPrice(""))
    ensures Pairs[i] !in PairNames(Reconciled(Some(results), false))
  {
    ReconciledSpec(Some(results), false, i);
  }

  /** The arguments of one `PriceUpdated` log; any of them may be undefined. */
  datatype PriceUpdatedArgs = PriceUpdatedArgs(
    pairName: Option<string>,
    newPrice: Option<int>,
    percentageChange: Option<int>,
    timestamp: Option<int>)

  /** `pairName && newPrice && timestamp`: a zero price or timestamp counts as missing. */
  predicate AcceptsUpdate(log: PriceUpdatedArgs) {
    TruthyString(log.pairName) && TruthyBigInt(log.newPrice) && TruthyBigInt(log.timestamp)
  }

  /** The record built from an accepted log: eight decimals, price formatted at eight decimals. */
  function UpdateFrom(log: PriceUpdatedArgs): (d: PriceData)
    requires AcceptsUpdate(log)
    ensures d.pair == log.pairName.value && d.timestamp == log.timestamp.value
    ensures d.decimals == EventDecimals
    ensures d.percentageChange == PercentageOf(log.percentageChange)
    ensures d.price == BigIntToString(log.newPrice.value)
    ensures d.formattedPrice == FormatPrice(log.newPrice.value, EventDecimals)
  {
    PriceData(
      log.pairName.value,
      BigIntToString(log.newPrice.value),
      log.timestamp.value,
      EventDecimals,
      PercentageOf(log.percentageChange),
      FormatPrice(log.newPrice.value, EventDecimals))
  }

  /**
   * For a positive new price, both the price string and the formatted
   * price of the record read back as that price.
   */
  lemma UpdateFromReadsBack(log: PriceUpdatedArgs)
    requires AcceptsUpdate(log) && log.newPrice.value > 0
    ensures AllDigits(UpdateFrom(log).price) && DigitsValue(UpdateFrom(log).price) == log.newPrice.value
    ensures ParseFixed(UpdateFrom(log).formattedPrice, EventDecimals) == Some(log.newPrice.value)
  {
    NatToStringRoundTrip(log.newPrice.value);
    FormatPriceRoundTrip(log.newPrice.value, EventDecimals);
  }

  /** The records of the accepted logs of a batch, in log order. */
  function AcceptedUpdates(logs: seq<PriceUpdatedArgs>): seq<PriceData> {
    if logs == [] then []
    else
      var log := logs[|logs| - 1];
      AcceptedUpdates(logs[..|logs| - 1]) + (if AcceptsUpdate(log) then [UpdateFrom(log)] else [])
  }

  /**
   * At most one record per log, each built from an accepted log of the
   * batch; a batch with no accepted log yields nothing.
   */
  lemma {:induction false} AcceptedUpdatesSpec(logs: seq<PriceUpdatedArgs>)
    ensures |AcceptedUpdates(logs)| <= |logs|
    ensures forall d :: d in AcceptedUpdates(logs) ==>
      exists log :: log in logs && AcceptsUpdate(log) && d == UpdateFrom(log)
    ensures (forall log :: log in logs ==> !AcceptsUpdate(log)) ==> AcceptedUpdates(logs) == []
  {
    if logs != [] {
      var init := logs[..|logs| - 1];
      AcceptedUpdatesSpec(init);
      assert forall log :: log in init ==> log in logs;
    }
  }

  /** The number of accepted logs in a batch. */
  function AcceptedCount(logs: seq<PriceUpdatedArgs>): (n: nat)
    ensures n <= |logs|
  {
    if logs == [] then 0
    else AcceptedCount(logs[..|logs| - 1]) + (if AcceptsUpdate(logs[|logs| - 1]) then 1 else 0)
  }

  /**
   * Every accepted log contributes its record, in log order: one record per
   * accepted log, and the record of log `k` comes after those of the
   * accepted logs before it.
   */
  lemma {:induction false} AcceptedUpdatesInOrder(logs: seq<PriceUpdatedArgs>)
    ensures |AcceptedUpdates(logs)| == AcceptedCount(logs)
    ensures forall k :: 0 <= k < |logs| && AcceptsUpdate(logs[k]) ==>
      AcceptedCount(logs[..k]) < |AcceptedUpdates(logs)| && AcceptedUpdates(logs)[AcceptedCount(logs[..k])] == UpdateFrom(logs[k])
  {
    if logs != [] {
      var last := |logs| - 1;
      var init := logs[..last];
      AcceptedUpdatesInOrder(init);
      forall k | 0 <= k < |logs| && AcceptsUpdate(logs[k])
        ensures AcceptedCount(logs[..k]) < |AcceptedUpdates(logs)|
        ensures AcceptedUpdates(logs)[AcceptedCount(logs[..k])] == UpdateFrom(logs[k])
      {
        if k < last {
          assert init[..k] == logs[..k] && init[k] == logs[k];
        }
      }
    }
  }

  /** Handling one more log adds its record, if it is accepted, after those of the earlier logs. */
  lemma AcceptedUpdatesStep(logs: seq<PriceUpdatedArgs>, i: nat)
    requires i < |logs|
    ensures AcceptedUpdates(logs[..i + 1]) ==
      AcceptedUpdates(logs[..i]) + (if AcceptsUpdate(logs[i]) then [UpdateFrom(logs[i])] else [])
  {
    assert logs[..i + 1][..i] == logs[..i];
  }

  /** One step of `onLogs`: handling log `i` extends the history built from the earlier logs. */
  lemma UpdateBatchStep(prev: seq<PriceData>, current: seq<PriceData>, logs: seq<PriceUpdatedArgs>, i: nat)
    requires i < |logs|
    requires current == PushAll(prev, AcceptedUpdates(logs[..i]), UpdateCapacity)
    ensures AcceptsUpdate(logs[i]) ==>
      PushNewest(current, UpdateFrom(logs[i]), UpdateCapacity) == PushAll(prev, AcceptedUpdates(logs[..i + 1]), UpdateCapacity)
    ensures !AcceptsUpdate(logs[i]) ==> current == PushAll(prev, AcceptedUpdates(logs[..i + 1]), UpdateCapacity)
  {
    AcceptedUpdatesStep(logs, i);
    if AcceptsUpdate(logs[i]) {
      PushAllSnoc(prev, AcceptedUpdates(logs[..i]), UpdateFrom(logs[i]), UpdateCapacity);
    } else {
      assert AcceptedUpdates(logs[..i + 1]) == AcceptedUpdates(logs[..i]);
    }
  }

  /** A batch with no accepted log leaves the update history as it was. */
  lemma RejectedBatchKeepsHistory(prev: seq<PriceData>, logs: seq<PriceUpdatedArgs>)
    requires forall log :: log in logs ==> !AcceptsUpdate(log)
    ensures PushAll(prev, AcceptedUpdates(logs), UpdateCapacity) == prev
  {
    AcceptedUpdatesSpec(logs);
  }

  /** When every log is accepted, the count before log `k` is `k`. */
  lemma {:induction false} AllAcceptedCount(logs: seq<PriceUpdatedArgs>, i: nat)
    requires i <= |logs| && forall k :: 0 <= k < |logs| ==> AcceptsUpdate(logs[k])
    ensures AcceptedCount(logs[..i]) == i
  {
    if i > 0 {
      AllAcceptedCount(logs, i - 1);
      assert logs[..i][..i - 1] == logs[..i - 1];
    }
  }

  /** When every log of a batch is accepted, record `k` is built from log `k`. */
  lemma AllAcceptedUpdates(logs: seq<PriceUpdatedArgs>)
    requires forall k :: 0 <= k < |logs| ==> AcceptsUpdate(logs[k])
    ensures |AcceptedUpdates(logs)| == |logs|
    ensures forall k :: 0 <= k < |logs| ==> AcceptedUpdates(logs)[k] == UpdateFrom(logs[k])
  {
    AcceptedUpdatesInOrder(logs);
    AllAcceptedCount(logs, |logs|);
    assert logs[..|logs|] == logs;
    forall k | 0 <= k < |logs|
      ensures AcceptedUpdates(logs)[k] == UpdateFrom(logs[k])
    {
      AllAcceptedCount(logs, k);
    }
  }

  /**
   * A batch of at least ten accepted logs replaces the whole history: it
   * holds the records of the last ten logs, newest first, so an eleventh
   * log evicts the record of the first.
   */
  lemma FullBatchKeepsNewest(prev: seq<PriceData>, logs: seq<PriceUpdatedArgs>)
    requires |prev| <= UpdateCapacity && |logs| >= UpdateCapacity
    requires forall k :: 0 <= k < |logs| ==> AcceptsUpdate(logs[k])
    ensures var h := PushAll(prev, AcceptedUpdates(logs), UpdateCapacity);
      |h| == UpdateCapacity && forall j :: 0 <= j < UpdateCapacity ==> h[j] == UpdateFrom(logs[|logs| - 1 - j])
  {
    AllAcceptedUpdates(logs);
    PushAllNewestBuilt(prev, AcceptedUpdates(logs), logs, UpdateFrom, UpdateCapacity);
  }

  /** The `priceUpdates` state, newest first, at most ten entries. */
  class PriceUpdateFeed {
    var updates: seq<PriceData>

    ghost predicate Valid()
      reads this
    {
      |updates| <= UpdateCapacity
    }

    constructor()
      ensures Valid() && updates == []
    {
      updates := [];
    }

    /** The callback body for one log: an accepted log is pushed in front, any other is ignored. */
    method Receive(log: PriceUpdatedArgs)
      requires Valid()
      modifies this
      ensures Valid()
      ensures AcceptsUpdate(log) ==> updates == PushNewest(old(updates), UpdateFrom(log), UpdateCapacity)
      ensures !AcceptsUpdate(log) ==> updates == old(updates)
    {
      if AcceptsUpdate(log) {
        updates := PushNewest(updates, UpdateFrom(log), UpdateCapacity);
      }
    }

    /** `onLogs`: the logs of one batch, handled in order. */
    method OnLogs(logs: seq<PriceUpdatedArgs>)
      requires Valid()
      modifies this
      ensures Valid()
      ensures updates == PushAll(old(updates), AcceptedUpdates(logs), UpdateCapacity)
    {
      var i := 0;
      while i < |logs|
        invariant i <= |logs|
        invariant Valid()
        invariant updates == PushAll(old(updates), AcceptedUpdates(logs[..i]), UpdateCapacity)
      {
        UpdateBatchStep(old(updates), updates, logs, i);
        Receive(logs[i]);
        i := i + 1;
      }
      assert logs[..|logs|] == logs;
    }
  }

  /** The `getAllPrices` tuple: four prices and the time of the last update. */
  datatype AllPrices = AllPrices(btcUsd: int, ethUsd: int, btcEth: int, bnbEth: int, lastUpdate: int)

  /** What the hook returns, together with the batch it asked for. */
  datatype OracleView = OracleView(
    queriesEnabled: bool,
    batch: seq<ContractCall>,
    allPrices: Option<AllPrices>,
    individualPrices: seq<PriceData>,
    priceUpdates: seq<PriceData>,
    isLoading: bool)

  /**
   * One render of `usePriceOracle(chainId)`, given what the read hooks
   * returned for it and the current update history.
   */
  method UsePriceOracle(
    chainId: int,
    allPrices: Option<AllPrices>, pricesLoading: bool,
    individualPrices: Option<seq<CallOutcome>>, individualLoading: bool,
    feed: PriceUpdateFeed)
    returns (view: OracleView)
    requires individualPrices.Some? ==> WellTyped(individualPrices.value, |Pairs|)
    ensures view.queriesEnabled <==> chainId == Sepolia
    ensures view.batch == BatchContracts(GetPriceOracleAddresses(chainId))
    ensures view.allPrices == allPrices
    ensures view.individualPrices == Reconciled(individualPrices, individualLoading)
    ensures view.priceUpdates == feed.updates
    ensures view.isLoading <==> pricesLoading || individualLoading
  {
    var addresses := GetPriceOracleAddresses(chainId);
    var batch := BatchContracts(addresses);
    var processed := ProcessPrices(individualPrices, individualLoading);
    view := OracleView(addresses.Some?, batch, allPrices, processed, feed.updates, pricesLoading || individualLoading);
  }
}
