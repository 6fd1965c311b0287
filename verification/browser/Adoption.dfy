/** The launch race (src/browser/adoption.ts): one row per browser, each call one atomic step. */
module Adoption {
  import opened Wrappers

  type BrowserId = string

  datatype RowState = Stopped | Starting | Running

  datatype Row = Row(
    state: RowState,
    pid: Option<nat>,
    endpoint: Option<string>,
    browserUuid: Option<string>,
    launchedAt: Option<nat>,
    restartCount: nat)

  datatype Observation = Observation(endpoint: string, browserUuid: string)

  datatype Decision = Launch | Attach(endpoint: string, browserUuid: string) | Wait | NoSuchRow

  type Rows = map<BrowserId, Row>

  /** The store. Each method is one immediate transaction. */
  class BrowserStore {
    var rows: Rows

    constructor (initial: Rows)
      ensures rows == initial
    {
      rows := initial;
    }

    /** `decideAdoption`: what this caller should do, given what it observed before calling. */
    method DecideAdoption(browser: BrowserId, caller: nat, observed: Option<Observation>) returns (decision: Decision)
      modifies this
      ensures (rows, decision) == Apply(old(rows), Decide(browser, caller, observed))
    {
      if browser !in rows {
        return NoSuchRow;
      }
      var row := rows[browser];
      if observed.Some? {
        var pid := if row.pid.Some? then row.pid else Some(caller);
        rows := rows[browser := row.(state := Running, pid := pid, endpoint := Some(observed.value.endpoint),
                                    browserUuid := Some(observed.value.browserUuid))];
        return Attach(observed.value.endpoint, observed.value.browserUuid);
      }
      if row.state == Starting {
        assert rows == rows[browser := row];
        return Wait;
      }
      rows := rows[browser := row.(state := Starting, pid := Some(caller), endpoint := None, browserUuid := None)];
      decision := Launch;
    }

    method RecordLaunched(browser: BrowserId, pid: nat, endpoint: string, browserUuid: string, now: nat)
      modifies this
      ensures rows == Apply(old(rows), Launched(browser, pid, endpoint, browserUuid, now)).0
    {
      if browser in rows {
        rows := rows[browser := rows[browser].(state := Running, pid := Some(pid), endpoint := Some(endpoint),
                                               browserUuid := Some(browserUuid), launchedAt := Some(now))];
      }
    }

    method RecordLaunchFailed(browser: BrowserId)
      modifies this
      ensures rows == Apply(old(rows), LaunchFailed(browser)).0
    {
      if browser in rows {
        rows := rows[browser := rows[browser].(state := Stopped, pid := None, endpoint := None, browserUuid := None,
                                               launchedAt := None, restartCount := rows[browser].restartCount + 1)];
      }
    }
  }

  // ----- Histories

  /** One atomic step, by any caller, on any browser. */
  datatype Event =
    | Decide(browser: BrowserId, caller: nat, observed: Option<Observation>)
    | Launched(browser: BrowserId, pid: nat, endpoint: string, browserUuid: string, now: nat)
    | LaunchFailed(browser: BrowserId)

  /** What a caller is told. */
  function Answer(row: Row, event: Event): Decision {
    if !event.Decide? then Wait
    else if event.observed.Some? then Attach(event.observed.value.endpoint, event.observed.value.browserUuid)
    else if row.state == Starting then Wait
    else Launch
  }

  /** The row a step leaves behind. */
  function NextRow(row: Row, event: Event): Row {
    match event
    case Decide(_, caller, observed) =>
      if observed.Some? then
        row.(state := Running, pid := if row.pid.Some? then row.pid else Some(caller),
             endpoint := Some(observed.value.endpoint), browserUuid := Some(observed.value.browserUuid))
      else if row.state == Starting then row
      else row.(state := Starting, pid := Some(caller), endpoint := None, browserUuid := None)
    case Launched(_, pid, endpoint, browserUuid, now) =>
      row.(state := Running, pid := Some(pid), endpoint := Some(endpoint), browserUuid := Some(browserUuid),
           launchedAt := Some(now))
    case LaunchFailed(_) =>
      row.(state := Stopped, pid := None, endpoint := None, browserUuid := None, launchedAt := None,
           restartCount := row.restartCount + 1)
  }

  function Apply(rows: Rows, event: Event): (Rows, Decision) {
    if event.browser !in rows then (rows, NoSuchRow)
    else (rows[event.browser := NextRow(rows[event.browser], event)], Answer(rows[event.browser], event))
  }

  /** The rows after the first `n` events. */
  function After(rows: Rows, events: seq<Event>, n: nat): Rows
    requires n <= |events|
  {
    if n == 0 then rows else Apply(After(rows, events, n - 1), events[n - 1]).0
  }

  /** Event `k` told its caller to launch `browser`. */
  ghost predicate Grants(rows: Rows, events: seq<Event>, k: int, browser: BrowserId) {
    && 0 <= k < |events| && events[k].Decide? && events[k].browser == browser
    && Apply(After(rows, events, k), events[k]).1 == Launch
  }

  /** Event `k` ended a launch of `browser`: a recorded outcome, or a caller that found it running. */
  ghost predicate Releases(rows: Rows, events: seq<Event>, k: int, browser: BrowserId) {
    && 0 <= k < |events| && events[k].browser == browser && browser in rows
    && (events[k].Decide? ==> events[k].observed.Some?)
  }

  // ----- Every reachable row

  /** A null process identifier exactly when stopped; an endpoint and an identity exactly when running. */
  predicate RowOk(row: Row) {
    && (row.pid.None? <==> row.state == Stopped)
    && (row.endpoint.Some? <==> row.state == Running)
    && (row.browserUuid.Some? <==> row.state == Running)
  }

  ghost predicate RowsOk(rows: Rows) {
    forall b | b in rows :: RowOk(rows[b])
  }

  lemma {:induction false} SameBrowsers(rows: Rows, events: seq<Event>, n: nat)
    requires n <= |events|
    ensures After(rows, events, n).Keys == rows.Keys
  {
    if n > 0 {
      SameBrowsers(rows, events, n - 1);
    }
  }

  lemma {:induction false} EveryReachableRowIsOk(rows: Rows, events: seq<Event>, n: nat)
    requires RowsOk(rows) && n <= |events|
    ensures RowsOk(After(rows, events, n))
  {
    if n > 0 {
      EveryReachableRowIsOk(rows, events, n - 1);
    }
  }

  // ----- One winner

  /** After a grant the row stays `starting` until the launch is released. */
  lemma {:induction false} StaysStarting(rows: Rows, events: seq<Event>, browser: BrowserId, i: nat, k: nat)
    requires i < k <= |events| && Grants(rows, events, i, browser)
    requires forall m :: i < m < k ==> !Releases(rows, events, m, browser)
    ensures browser in After(rows, events, k) && After(rows, events, k)[browser].state == Starting
  {
    SameBrowsers(rows, events, k - 1);
    if i < k - 1 {
      StaysStarting(rows, events, browser, i, k - 1);
      assert !Releases(rows, events, k - 1, browser);
    }
  }

  /** Between two grants of one browser there is always an attachment or a recorded outcome, over any
      interleaving of callers and browsers. */
  lemma GrantsAreSeparated(rows: Rows, events: seq<Event>, browser: BrowserId, i: nat, j: nat)
    requires i < j && Grants(rows, events, i, browser) && Grants(rows, events, j, browser)
    ensures exists k :: i < k < j && Releases(rows, events, k, browser)
  {
    if forall k :: i < k < j ==> !Releases(rows, events, k, browser) {
      StaysStarting(rows, events, browser, i, j);
    }
  }

  ghost function CountGrants(rows: Rows, events: seq<Event>, n: nat, browser: BrowserId): nat
    requires n <= |events|
  {
    if n == 0 then 0 else CountGrants(rows, events, n - 1, browser) + if Grants(rows, events, n - 1, browser) then 1 else 0
  }

  ghost function CountReleases(rows: Rows, events: seq<Event>, n: nat, browser: BrowserId): nat
    requires n <= |events|
  {
    if n == 0 then 0 else CountReleases(rows, events, n - 1, browser) + if Releases(rows, events, n - 1, browser) then 1 else 0
  }

  /** Launches never get ahead of their outcomes by more than the one in flight, and one is in flight
      only while the row says `starting`. */
  lemma {:induction false} AtMostOneLaunchInFlight(rows: Rows, events: seq<Event>, browser: BrowserId, n: nat)
    requires n <= |events| && browser in rows && rows[browser].state != Starting
    ensures browser in After(rows, events, n)
    ensures CountGrants(rows, events, n, browser) <=
            CountReleases(rows, events, n, browser) + if After(rows, events, n)[browser].state == Starting then 1 else 0
  {
    SameBrowsers(rows, events, n);
    if n > 0 {
      SameBrowsers(rows, events, n - 1);
      AtMostOneLaunchInFlight(rows, events, browser, n - 1);
    }
  }

  /** The store alone does not promise one launch ever: a caller whose observation was stale is told to
      launch even over a row that says `running`. A grant is given exactly when the row exists, nothing
      was observed, and nobody else is starting the browser. */
  lemma GrantCondition(rows: Rows, event: Event)
    requires event.Decide?
    ensures Apply(rows, event).1 == Launch <==>
            event.browser in rows && event.observed.None? && rows[event.browser].state != Starting
    ensures Apply(rows, event).1 == Wait <==>
            event.browser in rows && event.observed.None? && rows[event.browser].state == Starting
    ensures Apply(rows, event).1.Attach? <==> event.browser in rows && event.observed.Some?
    ensures Apply(rows, event).1.Attach? ==>
              event.observed == Some(Observation(Apply(rows, event).1.endpoint, Apply(rows, event).1.browserUuid))
  {
  }

  lemma StaleObserverRelaunches() returns (rows: Rows, events: seq<Event>)
    ensures RowsOk(rows) && |events| == 3
    ensures Grants(rows, events, 0, "regular") && Grants(rows, events, 2, "regular")
    ensures After(rows, events, 2)["regular"].state == Running
  {
    rows := map["regular" := Row(Stopped, None, None, None, None, 0)];
    events := [Decide("regular", 1, None), Launched("regular", 7, "e", "u", 0), Decide("regular", 2, None)];
    assert After(rows, events, 0) == rows;
    assert After(rows, events, 1)["regular"].state == Starting;
    assert After(rows, events, 2)["regular"].state == Running;
  }

  // ----- What a step leaves alone

  /** A step touches only its own browser's row; attaching never overwrites a known process identifier,
      and only a failure changes the restart count. */
  lemma StepFrame(rows: Rows, event: Event, browser: BrowserId)
    requires browser in rows
    ensures var next := Apply(rows, event).0;
            && next.Keys == rows.Keys
            && (event.browser != browser ==> next[browser] == rows[browser])
            && (event.Decide? && event.observed.Some? && rows[browser].pid.Some? ==> next[browser].pid == rows[browser].pid)
            && next[browser].restartCount
               == rows[browser].restartCount + if event == LaunchFailed(browser) then 1 else 0
  {
  }

  ghost function CountFailures(events: seq<Event>, n: nat, browser: BrowserId): nat
    requires n <= |events|
  {
    if n == 0 then 0 else CountFailures(events, n - 1, browser) + if events[n - 1] == LaunchFailed(browser) then 1 else 0
  }

  /** Over any history the restart count is the number of recorded failures of that browser. */
  lemma {:induction false} RestartsCountFailures(rows: Rows, events: seq<Event>, n: nat, browser: BrowserId)
    requires n <= |events| && browser in rows
    ensures browser in After(rows, events, n)
    ensures After(rows, events, n)[browser].restartCount == rows[browser].restartCount + CountFailures(events, n, browser)
  {
    if n > 0 {
      SameBrowsers(rows, events, n - 1);
      RestartsCountFailures(rows, events, n - 1, browser);
      StepFrame(After(rows, events, n - 1), events[n - 1], browser);
    }
  }

  /** Event `k` reported the browser alive at this endpoint under this identity. */
  ghost predicate Attests(events: seq<Event>, k: int, browser: BrowserId, endpoint: string, browserUuid: string) {
    && 0 <= k < |events| && events[k].browser == browser
    && match events[k]
       case Decide(_, _, observed) => observed == Some(Observation(endpoint, browserUuid))
       case Launched(_, _, e, u, _) => e == endpoint && u == browserUuid
       case LaunchFailed(_) => false
  }

  /** A row that says `running` names the endpoint and the identity that were reported last: some step
      reported exactly those, and no step has touched that browser since. */
  lemma {:induction false} RunningRowIsAttested(rows: Rows, events: seq<Event>, browser: BrowserId, n: nat) returns (k: nat)
    requires n <= |events| && browser in rows && rows[browser].state != Running
    requires browser in After(rows, events, n) && After(rows, events, n)[browser].state == Running
    requires RowsOk(rows)
    ensures k < n
    ensures var row := After(rows, events, n)[browser];
            && row.endpoint.Some? && row.browserUuid.Some?
            && Attests(events, k, browser, row.endpoint.value, row.browserUuid.value)
    ensures forall m :: k < m < n ==> events[m].browser != browser
  {
    SameBrowsers(rows, events, n - 1);
    var event, before := events[n - 1], After(rows, events, n - 1);
    if event.browser == browser {
      k := n - 1;
    } else {
      k := RunningRowIsAttested(rows, events, browser, n - 1);
    }
  }

  /** The process identifier in a row is the one its launcher reported, that of the caller told to launch,
      or that of a caller that adopted a browser nobody had recorded; waiting changes nothing. */
  lemma PidIsKnown(rows: Rows, event: Event, browser: BrowserId)
    requires browser in rows && event.browser == browser
    ensures var was, now := rows[browser], Apply(rows, event).0[browser];
            && (event.Launched? ==> now.pid == Some(event.pid))
            && (event.LaunchFailed? ==> now.pid == None)
            && (event.Decide? && event.observed.None? && was.state != Starting ==> now.pid == Some(event.caller))
            && (event.Decide? && event.observed.Some? ==> now.pid == if was.pid.Some? then was.pid else Some(event.caller))
            && (event.Decide? && event.observed.None? && was.state == Starting ==> now == was)
  {
  }

  /** No event of this browser from `k` on changes when it was launched. */
  ghost predicate NoOutcomeSince(events: seq<Event>, k: int, n: int, browser: BrowserId) {
    forall m :: k <= m < n && 0 <= m < |events| && events[m].browser == browser ==> events[m].Decide?
  }

  /** The launch time in a row is that of the last recorded launch, and there is none after a recorded
      failure: deciding never changes it. */
  lemma {:induction false} LaunchTimeIsLastOutcome(rows: Rows, events: seq<Event>, n: nat, browser: BrowserId)
    requires n <= |events| && browser in rows
    ensures browser in After(rows, events, n)
    ensures var at := After(rows, events, n)[browser].launchedAt;
            && (NoOutcomeSince(events, 0, n, browser) ==> at == rows[browser].launchedAt)
            && (forall k :: 0 <= k < n && events[k].browser == browser && NoOutcomeSince(events, k + 1, n, browser) ==>
                  match events[k]
                  case Launched(_, _, _, _, now) => at == Some(now)
                  case LaunchFailed(_) => at == None
                  case Decide(_, _, _) => true)
  {
    SameBrowsers(rows, events, n);
    if n > 0 {
      SameBrowsers(rows, events, n - 1);
      LaunchTimeIsLastOutcome(rows, events, n - 1, browser);
      assert forall k :: 0 <= k < n && NoOutcomeSince(events, k, n, browser) ==> NoOutcomeSince(events, k, n - 1, browser);
    }
  }
}
