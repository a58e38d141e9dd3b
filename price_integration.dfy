/**
 * The `usePriceIntegration` hook: the integration-status tuple mapped to a
 * record, the `PriceAlertPosted` event feed with its twenty-entry history,
 * and the loading flag. The status read, the event logs and the clock
 * readings are inputs.
 */
module PriceIntegration {
  import opened Wrappers
  import opened JsValues
  import opened Contracts
  import opened RollingHistory

  /** Number of `PriceAlertPosted` entries kept. */
  const AlertCapacity: nat := 20

  /** `getIntegrationStatus()`: alerts, summaries, bot registered, minimum interval, last summary. */
  type StatusTuple = (bool, bool, bool, int, int)

  datatype IntegrationStatus = IntegrationStatus(
    alertsEnabled: bool,
    summariesEnabled: bool,
    botRegistered: bool,
    minInterval: int,
    lastSummary: int)

  /** The tuple a status record was read from, position by position. */
  function StatusFields(s: IntegrationStatus): (t: StatusTuple) {
    (s.alertsEnabled, s.summariesEnabled, s.botRegistered, s.minInterval, s.lastSummary)
  }

  /**
   * `status ? { alertsEnabled: status[0], ... } : undefined`: a defined
   * tuple is an array and so truthy, and its five positions are copied
   * into the five fields.
   */
  function IntegrationStatusOf(status: Option<StatusTuple>): (r: Option<IntegrationStatus>)
    ensures r.Some? <==> status.Some?
    ensures r.Some? ==> StatusFields(r.value) == status.value
  {
    match status
    case None => None
    case Some(t) => Some(IntegrationStatus(t.0, t.1, t.2, t.3, t.4))
  }

  /** Mapping the tuple of a record gives the record back. */
  lemma IntegrationStatusRoundTrip(s: IntegrationStatus)
    ensures IntegrationStatusOf(Some(StatusFields(s))) == Some(s)
  {
  }

  /** The arguments of one `PriceAlertPosted` log; any of them may be undefined. */
  datatype PriceAlertArgs = PriceAlertArgs(pairName: Option<string>, priceChange: Option<int>, newPrice: Option<int>)

  /** One entry of the alert history. */
  datatype AlertEntry = AlertEntry(pair: string, priceChange: Percentage, newPrice: string, timestamp: int)

  /** `pairName && priceChange && newPrice`: a zero change or zero price counts as missing. */
  predicate AcceptsAlert(log: PriceAlertArgs) {
    TruthyString(log.pairName) && TruthyBigInt(log.priceChange) && TruthyBigInt(log.newPrice)
  }

  /** The entry built from an accepted log, stamped with the clock reading `now`. */
  function AlertFrom(log: PriceAlertArgs, now: int): (e: AlertEntry)
    requires AcceptsAlert(log)
    ensures e.pair == log.pairName.value && e.timestamp == now
    ensures e.priceChange.Percent? && e.priceChange.basisPoints == log.priceChange.value
    ensures e.newPrice == BigIntToString(log.newPrice.value)
  {
    AlertEntry(log.pairName.value, Percent(log.priceChange.value), BigIntToString(log.newPrice.value), now)
  }

  /** The new price string of an entry reads back as the logged price when that price is positive. */
  lemma AlertFromReadsBack(log: PriceAlertArgs, now: int)
    requires AcceptsAlert(log) && log.newPrice.value > 0
    ensures AllDigits(AlertFrom(log, now).newPrice)
    ensures DigitsValue(AlertFrom(log, now).newPrice) == log.newPrice.value
    ensures AlertFrom(log, now).priceChange.Value() != 0.0
  {
    NatToStringRoundTrip(log.newPrice.value);
  }

  /** The entries of the accepted logs of a batch, in log order; `times[k]` is the clock when log `k` is handled. */
  function AcceptedAlerts(logs: seq<PriceAlertArgs>, times: seq<int>): seq<AlertEntry>
    requires |times| == |logs|
  {
    if logs == [] then []
    else
      var last := |logs| - 1;
      AcceptedAlerts(logs[..last], times[..last]) + (if AcceptsAlert(logs[last]) then [AlertFrom(logs[last], times[last])] else [])
  }

  /**
   * At most one entry per log, each built from an accepted log of the
   * batch; a batch with no accepted log yields nothing.
   */
  lemma {:induction false} AcceptedAlertsSpec(logs: seq<PriceAlertArgs>, times: seq<int>)
    requires |times| == |logs|
    ensures |AcceptedAlerts(logs, times)| <= |logs|
    ensures forall e :: e in AcceptedAlerts(logs, times) ==>
      exists k :: 0 <= k < |logs| && AcceptsAlert(logs[k]) && e == AlertFrom(logs[k], times[k])
    ensures (forall log :: log in logs ==> !AcceptsAlert(log)) ==> AcceptedAlerts(logs, times) == []
  {
    if logs != [] {
      var last := |logs| - 1;
      AcceptedAlertsSpec(logs[..last], times[..last]);
      assert forall log :: log in logs[..last] ==> log in logs;
      forall e | e in AcceptedAlerts(logs, times)
        ensures exists k :: 0 <= k < |logs| && AcceptsAlert(logs[k]) && e == AlertFrom(logs[k], times[k])
      {
        if e in AcceptedAlerts(logs[..last], times[..last]) {
          var k :| 0 <= k < last && AcceptsAlert(logs[..last][k]) && e == AlertFrom(logs[..last][k], times[..last][k]);
          assert logs[k] == logs[..last][k] && times[k] == times[..last][k];
        } else {
          assert AcceptsAlert(logs[last]) && e == AlertFrom(logs[last], times[last]);
        }
      }
    }
  }

  /** The number of accepted logs in a batch. */
  function AcceptedAlertCount(logs: seq<PriceAlertArgs>): (n: nat)
    ensures n <= |logs|
  {
    if logs == [] then 0
    else AcceptedAlertCount(logs[..|logs| - 1]) + (if AcceptsAlert(logs[|logs| - 1]) then 1 else 0)
  }

  /**
   * Every accepted log contributes its entry, in log order: one entry per
   * accepted log, and the entry of log `k`, stamped with `times[k]`, comes
   * after those of the accepted logs before it.
   */
  lemma {:induction false} AcceptedAlertsInOrder(logs: seq<PriceAlertArgs>, times: seq<int>)
    requires |times| == |logs|
    ensures |AcceptedAlerts(logs, times)| == AcceptedAlertCount(logs)
    ensures forall k :: 0 <= k < |logs| && AcceptsAlert(logs[k]) ==>
      AcceptedAlertCount(logs[..k]) < |AcceptedAlerts(logs, times)| &&
      AcceptedAlerts(logs, times)[AcceptedAlertCount(logs[..k])] == AlertFrom(logs[k], times[k])
  {
    if logs != [] {
      var last := |logs| - 1;
      var init := logs[..last];
      AcceptedAlertsInOrder(init, times[..last]);
      forall k | 0 <= k < |logs| && AcceptsAlert(logs[k])
        ensures AcceptedAlertCount(logs[..k]) < |AcceptedAlerts(logs, times)|
        ensures AcceptedAlerts(logs, times)[AcceptedAlertCount(logs[..k])] == AlertFrom(logs[k], times[k])
      {
        if k < last {
          assert init[..k] == logs[..k] && init[k] == logs[k] && times[..last][k] == times[k];
        }
      }
    }
  }

  /** When every log is accepted, the count before log `k` is `k`. */
  lemma {:induction false} AllAcceptedAlertCount(logs: seq<PriceAlertArgs>, i: nat)
    requires i <= |logs| && forall k :: 0 <= k < |logs| ==> AcceptsAlert(logs[k])
    ensures AcceptedAlertCount(logs[..i]) == i
  {
    if i > 0 {
      AllAcceptedAlertCount(logs, i - 1);
      assert logs[..i][..i - 1] == logs[..i - 1];
    }
  }

  /** When every log of a batch is accepted, entry `k` is built from log `k` at `times[k]`. */
  lemma AllAcceptedAlerts(logs: seq<PriceAlertArgs>, times: seq<int>)
    requires |times| == |logs| && forall k :: 0 <= k < |logs| ==> AcceptsAlert(logs[k])
    ensures |AcceptedAlerts(logs, times)| == |logs|
    ensures forall k :: 0 <= k < |logs| ==> AcceptedAlerts(logs, times)[k] == AlertFrom(logs[k], times[k])
  {
    AcceptedAlertsInOrder(logs, times);
    AllAcceptedAlertCount(logs, |logs|);
    assert logs[..|logs|] == logs;
    forall k | 0 <= k < |logs|
      ensures AcceptedAlerts(logs, times)[k] == AlertFrom(logs[k], times[k])
    {
      AllAcceptedAlertCount(logs, k);
    }
  }

  /**
   * A batch of at least twenty accepted logs replaces the whole history:
   * it holds the entries of the last twenty logs, newest first, so a
   * twenty-first log evicts the entry of the first.
   */
  lemma FullBatchKeepsNewestAlerts(prev: seq<AlertEntry>, logs: seq<PriceAlertArgs>, times: seq<int>)
    requires |prev| <= AlertCapacity && |logs| >= AlertCapacity && |times| == |logs|
    requires forall k :: 0 <= k < |logs| ==> AcceptsAlert(logs[k])
    ensures var h := PushAll(prev, AcceptedAlerts(logs, times), AlertCapacity);
      |h| == AlertCapacity &&
      forall j :: 0 <= j < AlertCapacity ==> h[j] == AlertFrom(logs[|logs| - 1 - j], times[|logs| - 1 - j])
  {
    AllAcceptedAlerts(logs, times);
    PushAllNewestBuiltFrom2(prev, AcceptedAlerts(logs, times), logs, times, AlertFrom, AlertCapacity);
  }

  /** Handling one more log adds its entry, if it is accepted, after those of the earlier logs. */
  lemma AcceptedAlertsStep(logs: seq<PriceAlertArgs>, times: seq<int>, i: nat)
    requires |times| == |logs| && i < |logs|
    ensures AcceptedAlerts(logs[..i + 1], times[..i + 1]) ==
      AcceptedAlerts(logs[..i], times[..i]) + (if AcceptsAlert(logs[i]) then [AlertFrom(logs[i], times[i])] else [])
  {
    assert logs[..i + 1][..i] == logs[..i] && times[..i + 1][..i] == times[..i];
  }

  /** One step of `onLogs`: handling log `i` extends the history built from the earlier logs. */
  lemma AlertBatchStep(prev: seq<AlertEntry>, current: seq<AlertEntry>, logs: seq<PriceAlertArgs>, times: seq<int>, i: nat)
    requires |times| == |logs| && i < |logs|
    requires current == PushAll(prev, AcceptedAlerts(logs[..i], times[..i]), AlertCapacity)
    ensures AcceptsAlert(logs[i]) ==>
      PushNewest(current, AlertFrom(logs[i], times[i]), AlertCapacity) ==
      PushAll(prev, AcceptedAlerts(logs[..i + 1], times[..i + 1]), AlertCapacity)
    ensures !AcceptsAlert(logs[i]) ==> current == PushAll(prev, AcceptedAlerts(logs[..i + 1], times[..i + 1]), AlertCapacity)
  {
    AcceptedAlertsStep(logs, times, i);
    if AcceptsAlert(logs[i]) {
      PushAllSnoc(prev, AcceptedAlerts(logs[..i], times[..i]), AlertFrom(logs[i], times[i]), AlertCapacity);
    } else {
      assert AcceptedAlerts(logs[..i + 1], times[..i + 1]) == AcceptedAlerts(logs[..i], times[..i]);
    }
  }

  /** A batch with no accepted log leaves the alert history as it was. */
  lemma RejectedBatchKeepsAlerts(prev: seq<AlertEntry>, logs: seq<PriceAlertArgs>, times: seq<int>)
    requires |times| == |logs|
    requires forall log :: log in logs ==> !AcceptsAlert(log)
    ensures PushAll(prev, AcceptedAlerts(logs, times), AlertCapacity) == prev
  {
    AcceptedAlertsSpec(logs, times);
  }

  /** The `alertHistory` state, newest first, at most twenty entries. */
  class AlertFeed {
    var alerts: seq<AlertEntry>

    ghost predicate Valid()
      reads this
    {
      |alerts| <= AlertCapacity
    }

    constructor()
      ensures Valid() && alerts == []
    {
      alerts := [];
    }

    /** The callback body for one log, handled at clock reading `now`. */
    method Receive(log: PriceAlertArgs, now: int)
      requires Valid()
      modifies this
      ensures Valid()
      ensures AcceptsAlert(log) ==> alerts == PushNewest(old(alerts), AlertFrom(log, now), AlertCapacity)
      ensures !AcceptsAlert(log) ==> alerts == old(alerts)
    {
      if AcceptsAlert(log) {
        alerts := PushNewest(alerts, AlertFrom(log, now), AlertCapacity);
      }
    }

    /** `onLogs`: the logs of one batch, handled in order; log `k` is handled at `times[k]`. */
    method OnLogs(logs: seq<PriceAlertArgs>, times: seq<int>)
      requires Valid() && |times| == |logs|
      modifies this
      ensures Valid()
      ensures alerts == PushAll(old(alerts), AcceptedAlerts(logs, times), AlertCapacity)
    {
      var i := 0;
      while i < |logs|
        invariant i <= |logs|
        invariant Valid()
        invariant alerts == PushAll(old(alerts), AcceptedAlerts(logs[..i], times[..i]), AlertCapacity)
      {
        AlertBatchStep(old(alerts), alerts, logs, times, i);
        Receive(logs[i], times[i]);
        i := i + 1;
      }
      assert logs[..|logs|] == logs && times[..|times|] == times;
    }
  }

  /** What the hook returns. */
  datatype IntegrationView = IntegrationView(
    queryEnabled: bool,
    integrationStatus: Option<IntegrationStatus>,
    alertHistory: seq<AlertEntry>,
    isLoading: bool)

  /** One render of `usePriceIntegration(chainId)`, given the status read and the alert history. */
  method UsePriceIntegration(chainId: int, status: Option<StatusTuple>, statusLoading: bool, feed: AlertFeed)
    returns (view: IntegrationView)
    ensures view.queryEnabled <==> chainId == Sepolia
    ensures view.integrationStatus.Some? <==> status.Some?
    ensures view.integrationStatus.Some? ==> StatusFields(view.integrationStatus.value) == status.value
    ensures view.alertHistory == feed.alerts
    ensures view.isLoading == statusLoading
  {
    var addresses := GetPriceOracleAddresses(chainId);
    view := IntegrationView(addresses.Some?, IntegrationStatusOf(status), feed.alerts, statusLoading);
  }
}
