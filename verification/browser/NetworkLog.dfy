/** The network log of a page (`#recordFrom`, `renderNetworkLog` and `formatNetworkEntry` in
    src/browser/real.ts): entries opened by requests, settled in place, numbered when written. */
module NetworkLog {
  import opened Wrappers

  /** The identity of a request object. */
  type RequestId = nat

  datatype NetworkOutcome = Response(status: nat, elapsedMs: int) | Failed(reason: string, elapsedMs: int)

  datatype NetworkEntry = NetworkEntry(httpMethod: string, url: string, startedAt: int, outcome: Option<NetworkOutcome>)

  /** What the browser reports, in the order it reports it, with this process's clock. */
  datatype Event =
    | Requested(id: RequestId, httpMethod: string, url: string, at: int)
    | Responded(id: RequestId, status: nat, at: int)
    | RequestFailed(id: RequestId, reason: Option<string>, at: int)

  type Trace = seq<Event>

  const NO_REASON := "no reason reported"

  // ----- What a log should say about a trace

  /** Event `j` is the first one about the request that event `p` reported. */
  ghost predicate NextAbout(trace: Trace, p: int, j: int) {
    && 0 <= p < j < |trace| && trace[j].id == trace[p].id
    && forall m :: p < m < j ==> trace[m].id != trace[p].id
  }

  function OutcomeOf(startedAt: int, event: Event): NetworkOutcome
    requires !event.Requested?
  {
    match event
    case Responded(_, status, at) => Response(status, at - startedAt)
    case RequestFailed(_, reason, at) => Failed(if reason.Some? then reason.value else NO_REASON, at - startedAt)
  }

  /** What is recorded of an answer: its own status, or its own reason and some reason if it gave none, and
      the time from the report to the answer. */
  lemma OutcomeMeans(startedAt: int, event: Event)
    requires !event.Requested?
    ensures startedAt + OutcomeOf(startedAt, event).elapsedMs == event.at
    ensures event.Responded? ==> OutcomeOf(startedAt, event).Response? && OutcomeOf(startedAt, event).status == event.status
    ensures event.RequestFailed? ==> OutcomeOf(startedAt, event).Failed?
    ensures event.RequestFailed? && event.reason.Some? ==> OutcomeOf(startedAt, event).reason == event.reason.value
    ensures event.RequestFailed? && event.reason.None? ==> OutcomeOf(startedAt, event).reason == "no reason reported"
  {
  }

  /** The report at `p` is described by its own method, address and time, and its outcome is what the
      next event about the same request says, if that event is an outcome at all. */
  ghost predicate Describes(trace: Trace, p: int, entry: NetworkEntry) {
    && 0 <= p < |trace| && trace[p].Requested?
    && entry.httpMethod == trace[p].httpMethod && entry.url == trace[p].url && entry.startedAt == trace[p].at
    && (entry.outcome.Some? <==> exists j :: NextAbout(trace, p, j) && !trace[j].Requested?)
    && (forall j :: NextAbout(trace, p, j) && !trace[j].Requested? ==>
          entry.outcome == Some(OutcomeOf(trace[p].at, trace[j])))
  }

  /** `at` lists the positions of the requests in the trace, in order. */
  ghost predicate RequestPositions(trace: Trace, at: seq<int>) {
    && (forall k :: 0 <= k < |at| ==> 0 <= at[k] < |trace| && trace[at[k]].Requested?)
    && (forall j, k :: 0 <= j < k < |at| ==> at[j] < at[k])
    && (forall p :: 0 <= p < |trace| && trace[p].Requested? ==> p in at)
  }

  /** Entry `k` describes the `k`-th request. */
  ghost predicate Logs(trace: Trace, at: seq<int>, entries: seq<NetworkEntry>) {
    && |at| == |entries| && RequestPositions(trace, at)
    && forall k :: 0 <= k < |entries| ==> Describes(trace, at[k], entries[k])
  }

  // ----- The recorder

  /** `slots` finds the entry of a request object; the log itself keeps the entries. */
  class PageRecording {
    var network: seq<NetworkEntry>
    var slots: map<RequestId, nat>
    ghost var trace: Trace
    ghost var at: seq<int>

    ghost predicate Valid()
      reads this
    {
      Logs(trace, at, network) && SlotsOk(trace, at, slots)
    }

    constructor ()
      ensures Valid() && trace == [] && network == []
    {
      network, slots, trace, at := [], map[], [], [];
    }

    method OnRequest(id: RequestId, httpMethod: string, url: string, now: int)
      requires Valid()
      modifies this
      ensures Valid() && trace == old(trace) + [Requested(id, httpMethod, url, now)]
      ensures |network| == |old(network)| + 1 && network[..|old(network)|] == old(network)
    {
      ghost var event := Requested(id, httpMethod, url, now);
      OpenKeepsLogs(trace, at, network, slots, event);
      slots := slots[id := |network|];
      network := network + [NetworkEntry(httpMethod, url, now, None)];
      at := at + [|trace|];
      trace := trace + [event];
    }

    method OnResponse(id: RequestId, status: nat, now: int)
      requires Valid()
      modifies this
      ensures Valid() && trace == old(trace) + [Responded(id, status, now)]
      ensures |network| == |old(network)|
    {
      hide Logs, SlotsOk, Describes;
      SlotInRange(trace, at, network, slots);
      ghost var event := Responded(id, status, now);
      if id !in slots || network[slots[id]].outcome.Some? {
        IgnoreKeepsLogs(trace, at, network, slots, event);
        trace := trace + [event];
        return;
      }
      var k := slots[id];
      SettleKeepsLogs(trace, at, network, slots, event, k);
      network := network[k := network[k].(outcome := Some(Response(status, now - network[k].startedAt)))];
      trace := trace + [event];
    }

    method OnRequestFailed(id: RequestId, reason: Option<string>, now: int)
      requires Valid()
      modifies this
      ensures Valid() && trace == old(trace) + [RequestFailed(id, reason, now)]
      ensures |network| == |old(network)|
    {
      hide Logs, SlotsOk, Describes;
      SlotInRange(trace, at, network, slots);
      ghost var event := RequestFailed(id, reason, now);
      if id !in slots || network[slots[id]].outcome.Some? {
        IgnoreKeepsLogs(trace, at, network, slots, event);
        trace := trace + [event];
        return;
      }
      var k := slots[id];
      SettleKeepsLogs(trace, at, network, slots, event, k);
      var words := if reason.Some? then reason.value else NO_REASON;
      network := network[k := network[k].(outcome := Some(Failed(words, now - network[k].startedAt)))];
      trace := trace + [event];
    }
  }

  lemma SlotInRange(trace: Trace, at: seq<int>, entries: seq<NetworkEntry>, slots: map<RequestId, nat>)
    requires Logs(trace, at, entries) && SlotsOk(trace, at, slots)
    ensures forall id | id in slots :: slots[id] < |entries|
  {
    forall id | id in slots
      ensures slots[id] < |entries|
    {
      assert IsLatest(trace, at, id, slots[id]);
    }
  }

  /** A slot holds the entry of the latest report of its request. */
  ghost predicate SlotsOk(trace: Trace, at: seq<int>, slots: map<RequestId, nat>) {
    && (forall id | id in slots :: IsLatest(trace, at, id, slots[id]))
    && (forall p :: 0 <= p < |trace| && trace[p].Requested? ==> trace[p].id in slots)
  }

  ghost predicate IsLatest(trace: Trace, at: seq<int>, id: RequestId, k: nat) {
    && k < |at| && 0 <= at[k] < |trace| && trace[at[k]].id == id
    && forall p :: at[k] < p < |trace| && trace[p].id == id ==> !trace[p].Requested?
  }

  lemma NextAboutGrows(trace: Trace, event: Event, p: int, j: int)
    ensures NextAbout(trace + [event], p, j) <==>
            || NextAbout(trace, p, j)
            || (j == |trace| && 0 <= p < |trace| && trace[p].id == event.id
                && forall m :: p < m < |trace| ==> trace[m].id != trace[p].id)
  {
    var more := trace + [event];
    if NextAbout(more, p, j) {
      forall m | p < m < j
        ensures m < |trace| ==> trace[m].id != trace[p].id
      {
        assert more[m].id != more[p].id;
      }
    }
  }

  /** Nothing about the report at `p` has been seen since. */
  ghost predicate Silent(trace: Trace, p: int) {
    0 <= p < |trace| && forall m :: p < m < |trace| ==> trace[m].id != trace[p].id
  }

  /** An event that is not about a silent report leaves its description as it was. */
  lemma DescriptionStands(trace: Trace, event: Event, p: int, entry: NetworkEntry)
    requires Describes(trace, p, entry)
    requires Silent(trace, p) && trace[p].id == event.id ==> event.Requested?
    ensures Describes(trace + [event], p, entry)
  {
    var more := trace + [event];
    forall j
      ensures NextAbout(more, p, j) && !more[j].Requested? <==> NextAbout(trace, p, j) && !trace[j].Requested?
    {
      NextAboutGrows(trace, event, p, j);
    }
  }

  lemma PositionsStand(trace: Trace, event: Event, at: seq<int>)
    requires RequestPositions(trace, at) && !event.Requested?
    ensures RequestPositions(trace + [event], at)
  {
  }

  lemma SlotsStand(trace: Trace, event: Event, at: seq<int>, slots: map<RequestId, nat>)
    requires SlotsOk(trace, at, slots) && !event.Requested?
    ensures SlotsOk(trace + [event], at, slots)
  {
    forall id | id in slots
      ensures IsLatest(trace + [event], at, id, slots[id])
    {
      assert IsLatest(trace, at, id, slots[id]);
    }
  }

  /** A silent report is the latest of its request. */
  lemma SilentIsLatest(trace: Trace, at: seq<int>, slots: map<RequestId, nat>, k: nat)
    requires RequestPositions(trace, at) && SlotsOk(trace, at, slots) && k < |at| && Silent(trace, at[k])
    ensures trace[at[k]].id in slots && slots[trace[at[k]].id] == k
  {
    var id := trace[at[k]].id;
    var s := slots[id];
    assert IsLatest(trace, at, id, s);
    assert at[s] >= at[k];
    assert at[s] <= at[k];
  }

  lemma OpenKeepsLogs(trace: Trace, at: seq<int>, entries: seq<NetworkEntry>, slots: map<RequestId, nat>, event: Event)
    requires Logs(trace, at, entries) && SlotsOk(trace, at, slots) && event.Requested?
    ensures Logs(trace + [event], at + [|trace|], entries + [NetworkEntry(event.httpMethod, event.url, event.at, None)])
    ensures SlotsOk(trace + [event], at + [|trace|], slots[event.id := |entries|])
  {
    hide Describes;
    var more, at', entries' := trace + [event], at + [|trace|], entries + [NetworkEntry(event.httpMethod, event.url, event.at, None)];
    forall k | 0 <= k < |entries'|
      ensures Describes(more, at'[k], entries'[k])
    {
      if k < |entries| {
        DescriptionStands(trace, event, at[k], entries[k]);
      } else {
        NewlyOpened(trace, event);
      }
    }
    assert forall p :: 0 <= p < |trace| && trace[p].Requested? ==> p in at && p in at';
    assert at'[|at|] == |trace|;
    OpenKeepsSlots(trace, at, slots, event, |entries|);
  }

  lemma NewlyOpened(trace: Trace, event: Event)
    requires event.Requested?
    ensures Describes(trace + [event], |trace|, NetworkEntry(event.httpMethod, event.url, event.at, None))
  {
  }

  lemma OpenKeepsSlots(trace: Trace, at: seq<int>, slots: map<RequestId, nat>, event: Event, k: nat)
    requires SlotsOk(trace, at, slots) && event.Requested? && k == |at|
    ensures SlotsOk(trace + [event], at + [|trace|], slots[event.id := k])
  {
    var more, at', slots' := trace + [event], at + [|trace|], slots[event.id := k];
    forall id | id in slots'
      ensures IsLatest(more, at', id, slots'[id])
    {
      if id != event.id {
        assert IsLatest(trace, at, id, slots[id]);
      }
    }
  }

  /** An outcome for a request never reported, or already settled, changes nothing. */
  lemma IgnoreKeepsLogs(trace: Trace, at: seq<int>, entries: seq<NetworkEntry>, slots: map<RequestId, nat>, event: Event)
    requires Logs(trace, at, entries) && SlotsOk(trace, at, slots) && !event.Requested?
    requires event.id in slots ==> slots[event.id] < |entries| && entries[slots[event.id]].outcome.Some?
    ensures Logs(trace + [event], at, entries) && SlotsOk(trace + [event], at, slots)
  {
    hide Describes, SlotsOk;
    PositionsStand(trace, event, at);
    SlotsStand(trace, event, at, slots);
    forall k | 0 <= k < |entries|
      ensures Describes(trace + [event], at[k], entries[k])
    {
      if Silent(trace, at[k]) && trace[at[k]].id == event.id {
        SilentIsLatest(trace, at, slots, k);
        SettledIsNotSilent(trace, at[k], entries[k]);
      }
      DescriptionStands(trace, event, at[k], entries[k]);
    }
  }

  lemma SettledIsNotSilent(trace: Trace, p: int, entry: NetworkEntry)
    requires Describes(trace, p, entry)
    ensures entry.outcome.Some? ==> !Silent(trace, p)
  {
  }

  /** The latest report of a request, still open, is settled by the first outcome that names it. */
  lemma SettleKeepsLogs(trace: Trace, at: seq<int>, entries: seq<NetworkEntry>, slots: map<RequestId, nat>, event: Event, k: nat)
    requires Logs(trace, at, entries) && SlotsOk(trace, at, slots) && !event.Requested?
    requires event.id in slots && slots[event.id] == k < |entries| && entries[k].outcome.None?
    ensures SlotsOk(trace + [event], at, slots)
    ensures Logs(trace + [event], at, entries[k := entries[k].(outcome := Some(OutcomeOf(entries[k].startedAt, event)))])
  {
    hide Describes, SlotsOk, OutcomeOf;
    PositionsStand(trace, event, at);
    SlotsStand(trace, event, at, slots);
    forall h | 0 <= h < |entries| && h != k
      ensures Describes(trace + [event], at[h], entries[h])
    {
      if Silent(trace, at[h]) && trace[at[h]].id == event.id {
        SilentIsLatest(trace, at, slots, h);
      }
      DescriptionStands(trace, event, at[h], entries[h]);
    }
    SlotIsLatest(trace, at, slots, event.id);
    OpenIsSilent(trace, at, event.id, k, entries[k]);
    Settled(trace, event, at[k], entries[k]);
  }

  lemma SlotIsLatest(trace: Trace, at: seq<int>, slots: map<RequestId, nat>, id: RequestId)
    requires SlotsOk(trace, at, slots) && id in slots
    ensures IsLatest(trace, at, id, slots[id])
  {
  }

  /** Nothing has been said about the latest report of a request while it has no outcome. */
  lemma OpenIsSilent(trace: Trace, at: seq<int>, id: RequestId, k: nat, entry: NetworkEntry)
    requires IsLatest(trace, at, id, k) && Describes(trace, at[k], entry) && entry.outcome.None?
    ensures Silent(trace, at[k]) && trace[at[k]].id == id
  {
    FirstAbout(trace, at[k], |trace|);
  }

  /** If something was said about the report at `p`, something was said first. */
  lemma {:induction false} FirstAbout(trace: Trace, p: int, n: int)
    requires 0 <= p < n <= |trace|
    ensures (forall m :: p < m < n ==> trace[m].id != trace[p].id) || exists j :: j < n && NextAbout(trace, p, j)
    decreases n
  {
    if n > p + 1 {
      FirstAbout(trace, p, n - 1);
      if (forall m :: p < m < n - 1 ==> trace[m].id != trace[p].id) && trace[n - 1].id == trace[p].id {
        assert NextAbout(trace, p, n - 1);
      }
    }
  }

  lemma Settled(trace: Trace, event: Event, p: int, entry: NetworkEntry)
    requires Describes(trace, p, entry) && Silent(trace, p) && trace[p].id == event.id && !event.Requested?
    ensures Describes(trace + [event], p, entry.(outcome := Some(OutcomeOf(entry.startedAt, event))))
  {
    var more := trace + [event];
    assert NextAbout(more, p, |trace|);
  }

  // ----- Later reads

  /** Reading later: the earlier entries are still there under the same numbers and name the same
      requests, and an outcome that was set has not changed. */
  lemma EntriesAreStable(trace: Trace, at: seq<int>, entries: seq<NetworkEntry>,
                         later: Trace, at': seq<int>, entries': seq<NetworkEntry>, k: nat)
    requires Logs(trace, at, entries) && trace <= later && Logs(later, at', entries') && k < |entries|
    ensures k < |entries'| && at'[k] == at[k]
    ensures entries'[k].httpMethod == entries[k].httpMethod && entries'[k].url == entries[k].url
    ensures entries'[k].startedAt == entries[k].startedAt
    ensures entries[k].outcome.Some? ==> entries'[k].outcome == entries[k].outcome
  {
    hide Describes;
    PositionsArePrefix(trace, at, later, at', k);
    assert Describes(trace, at[k], entries[k]) && Describes(later, at'[k], entries'[k]);
    DescriptionIsStable(trace, later, at[k], entries[k], entries'[k]);
  }

  lemma DescriptionIsStable(trace: Trace, later: Trace, p: int, entry: NetworkEntry, entry': NetworkEntry)
    requires trace <= later && Describes(trace, p, entry) && Describes(later, p, entry')
    ensures entry'.httpMethod == entry.httpMethod && entry'.url == entry.url && entry'.startedAt == entry.startedAt
    ensures entry.outcome.Some? ==> entry'.outcome == entry.outcome
  {
    if entry.outcome.Some? {
      var j :| NextAbout(trace, p, j) && !trace[j].Requested?;
      assert NextAbout(later, p, j);
    }
  }

  lemma {:induction false} PositionsArePrefix(trace: Trace, at: seq<int>, later: Trace, at': seq<int>, k: nat)
    requires trace <= later && RequestPositions(trace, at) && RequestPositions(later, at') && k < |at|
    ensures k < |at'| && at'[k] == at[k]
  {
    if k > 0 {
      PositionsArePrefix(trace, at, later, at', k - 1);
    }
    assert later[at[k]] == trace[at[k]];
    var j :| 0 <= j < |at'| && at'[j] == at[k];
    assert k > 0 ==> at'[k - 1] < at'[j];
    assert k <= j;
    assert at'[k] <= at[k];
    if at'[k] < |trace| {
      assert later[at'[k]] == trace[at'[k]];
      var i :| 0 <= i < |at| && at[i] == at'[k];
      assert k > 0 ==> at[k - 1] < at[i];
      assert k <= i;
    }
  }

  // ----- The written log

  predicate IsDigit(c: char) {
    '0' <= c <= '9'
  }

  function Digit(n: nat): (c: char)
    requires n < 10
    ensures IsDigit(c)
  {
    ['0', '1', '2', '3', '4', '5', '6', '7', '8', '9'][n]
  }

  function Value(c: char): (n: nat)
    requires IsDigit(c)
    ensures n < 10 && Digit(n) == c
  {
    if c == '0' then 0 else if c == '1' then 1 else if c == '2' then 2 else if c == '3' then 3 else if c == '4' then 4
    else if c == '5' then 5 else if c == '6' then 6 else if c == '7' then 7 else if c == '8' then 8 else 9
  }

  /** `String(n)` for a natural number. */
  function Digits(n: nat): (s: string)
    ensures s != "" && forall i :: 0 <= i < |s| ==> IsDigit(s[i])
  {
    if n < 10 then [Digit(n)] else Digits(n / 10) + [Digit(n % 10)]
  }

  function Decimal(n: int): string {
    if n < 0 then "-" + Digits(-n) else Digits(n)
  }

  /** `formatNetworkEntry`. */
  function FormatNetworkEntry(entry: NetworkEntry, index: nat): string {
    var request := entry.httpMethod + " " + entry.url;
    var at := "[" + Digits(index + 1) + "]";
    match entry.outcome
    case None => at + (" PENDING " + request + " (in flight when this log was written)")
    case Some(Failed(reason, elapsed)) => at + (" FAILED  " + request + " (" + reason + ", " + Decimal(elapsed) + "ms)")
    case Some(Response(status, elapsed)) => at + (" " + Digits(status) + "     " + request + " (" + Decimal(elapsed) + "ms)")
  }

  function Pending(entries: seq<NetworkEntry>): nat {
    if entries == [] then 0
    else Pending(entries[..|entries| - 1]) + if entries[|entries| - 1].outcome.None? then 1 else 0
  }

  function Header(total: nat, pending: nat): string {
    var counted := Digits(total) + " request" + (if total == 1 then "" else "s");
    if pending == 0 then counted + ", all settled."
    else counted + ", " + Digits(pending) + " still in flight when this was written."
  }

  /** `renderNetworkLog`, as the lines it joins. */
  function RenderNetworkLog(entries: seq<NetworkEntry>): seq<string> {
    if entries == [] then ["No requests were observed on this tab."]
    else [Header(|entries|, Pending(entries))]
         + seq(|entries|, k requires 0 <= k < |entries| => FormatNetworkEntry(entries[k], k))
  }

  // ----- Reading a written log back

  /** The number at the front of a text, and what follows it. */
  function ReadNumber(text: string, sofar: nat): (nat, string) {
    if text != "" && IsDigit(text[0]) then ReadNumber(text[1..], sofar * 10 + Value(text[0])) else (sofar, text)
  }

  /** The number in brackets at the front of a line. */
  function LineNumber(line: string): nat {
    if line == "" then 0 else ReadNumber(line[1..], 0).0
  }

  /** Whether a line says its request was in flight. */
  predicate SaysPending(line: string) {
    line != "" && "] PENDING " <= ReadNumber(line[1..], 0).1
  }

  lemma ReadOneDigit(d: nat, rest: string, sofar: nat)
    requires d < 10
    ensures ReadNumber([Digit(d)] + rest, sofar) == ReadNumber(rest, sofar * 10 + d)
  {
    assert Value(Digit(d)) == d;
    assert ([Digit(d)] + rest)[1..] == rest;
  }

  lemma {:induction false} ReadDigits(n: nat, rest: string)
    ensures ReadNumber(Digits(n) + rest, 0) == ReadNumber(rest, n)
  {
    hide ReadNumber, Digit;
    if n < 10 {
      ReadOneDigit(n, rest, 0);
    } else {
      var tail := [Digit(n % 10)] + rest;
      assert Digits(n) + rest == Digits(n / 10) + tail;
      ReadDigits(n / 10, tail);
      ReadOneDigit(n % 10, rest, n / 10);
    }
  }

  /** Reading stops before anything that is not a digit. */
  lemma ReadStops(text: string, n: nat)
    requires text != "" && !IsDigit(text[0])
    ensures ReadNumber(text, n) == (n, text)
  {
  }

  /** A whole number with its sign, at the front of a text. */
  function ReadDecimal(text: string): int {
    if text != "" && text[0] == '-' then 0 - ReadNumber(text[1..], 0).0 else ReadNumber(text, 0).0
  }

  /** The milliseconds a line gives can be read back out of it, sign and all. */
  lemma DecimalReadsBack(n: int, rest: string)
    requires rest != "" && !IsDigit(rest[0])
    ensures ReadDecimal(Decimal(n) + rest) == n
  {
    hide ReadNumber;
    var m: nat := if n < 0 then -n else n;
    ReadDigits(m, rest);
    ReadStops(rest, m);
    assert (Digits(m) + rest)[0] == Digits(m)[0];
    assert n < 0 ==> Decimal(n) + rest == "-" + (Digits(m) + rest);
    assert n < 0 ==> (Decimal(n) + rest)[1..] == Digits(m) + rest;
  }

  lemma ReadLineNumber(n: nat, tail: string)
    ensures var line := "[" + Digits(n) + "]" + tail;
            ReadNumber(line[1..], 0) == (n, "]" + tail)
  {
    hide Digits;
    var line, rest := "[" + Digits(n) + "]" + tail, "]" + tail;
    assert line[1..] == Digits(n) + rest;
    ReadDigits(n, rest);
    assert ReadNumber(rest, n) == (n, rest);
  }

  lemma NumberedLine(n: nat, tail: string)
    ensures LineNumber("[" + Digits(n) + "]" + tail) == n
    ensures SaysPending("[" + Digits(n) + "]" + tail) <==> " PENDING " <= tail
  {
    ReadLineNumber(n, tail);
    hide Digits, ReadNumber;
    ConsPrefix(']', " PENDING ", tail);
    assert "] PENDING " == [']'] + " PENDING ";
    assert "]" + tail == [']'] + tail;
  }

  lemma ConsPrefix(c: char, a: string, b: string)
    ensures [c] + a <= [c] + b <==> a <= b
  {
    if [c] + a <= [c] + b {
      assert a == ([c] + a)[1..];
      assert b[..|a|] == ([c] + b)[1..1 + |a|] == ([c] + a)[1..];
    }
  }

  /** A line carries its own number, and says PENDING exactly when its request has no outcome: a status
      or a failure is never mistaken for one. */
  lemma LineReadsBack(entry: NetworkEntry, index: nat)
    ensures LineNumber(FormatNetworkEntry(entry, index)) == index + 1
    ensures SaysPending(FormatNetworkEntry(entry, index)) <==> entry.outcome.None?
  {
    hide Digits, ReadNumber, LineNumber, SaysPending;
    var request := entry.httpMethod + " " + entry.url;
    match entry.outcome {
      case None =>
        NumberedLine(index + 1, " PENDING " + request + " (in flight when this log was written)");
        assert " PENDING " <= " PENDING " + request + " (in flight when this log was written)";
      case Some(Failed(reason, elapsed)) =>
        var tail := " FAILED  " + request + " (" + reason + ", " + Decimal(elapsed) + "ms)";
        NumberedLine(index + 1, tail);
        assert tail[1] == 'F';
      case Some(Response(status, elapsed)) =>
        var tail := " " + Digits(status) + "     " + request + " (" + Decimal(elapsed) + "ms)";
        NumberedLine(index + 1, tail);
        assert tail[1] == Digits(status)[0];
    }
  }

  /** What a line holds behind its number. */
  function AfterNumber(line: string): string {
    var rest := if line == "" then "" else ReadNumber(line[1..], 0).1;
    if |rest| < 2 then "" else rest[2..]
  }

  /** The characters before the first space. */
  function FirstWord(text: string): (word: string)
    ensures word <= text
  {
    if text == "" || text[0] == ' ' then "" else [text[0]] + FirstWord(text[1..])
  }

  /** The word a line gives its request's outcome in. */
  function OutcomeWord(line: string): string {
    FirstWord(AfterNumber(line))
  }

  /** How many spaces separate that word from the request. */
  function Padding(word: string): nat {
    if word == "PENDING" then 1 else if word == "FAILED" then 2 else 5
  }

  /** What a line says about its request: everything behind the outcome's word. */
  function RequestShown(line: string): string {
    var rest := AfterNumber(line)[|OutcomeWord(line)|..];
    if |rest| < Padding(OutcomeWord(line)) then "" else rest[Padding(OutcomeWord(line))..]
  }

  function WordFor(outcome: Option<NetworkOutcome>): string {
    match outcome
    case None => "PENDING"
    case Some(Failed(_, _)) => "FAILED"
    case Some(Response(status, _)) => Digits(status)
  }

  function Ending(outcome: Option<NetworkOutcome>): string {
    match outcome
    case None => " (in flight when this log was written)"
    case Some(Failed(reason, elapsed)) => " (" + reason + ", " + Decimal(elapsed) + "ms)"
    case Some(Response(_, elapsed)) => " (" + Decimal(elapsed) + "ms)"
  }

  lemma {:induction false} FirstWordIs(word: string, rest: string)
    requires forall i :: 0 <= i < |word| ==> word[i] != ' '
    ensures FirstWord(word + " " + rest) == word
  {
    if word != "" {
      assert (word + " " + rest)[1..] == word[1..] + " " + rest;
      FirstWordIs(word[1..], rest);
    }
  }

  lemma AfterNumberIs(n: nat, tail: string)
    ensures AfterNumber("[" + Digits(n) + "]" + (" " + tail)) == tail
  {
    ReadLineNumber(n, " " + tail);
    hide Digits, ReadNumber;
    assert ("]" + (" " + tail))[2..] == tail;
  }

  /** Reading a line put together of a number, a word, its padding and more. */
  lemma LineInParts(n: nat, word: string, padding: string, more: string)
    requires forall i :: 0 <= i < |word| ==> word[i] != ' '
    requires |padding| == Padding(word) && padding[0] == ' '
    ensures var line := "[" + Digits(n) + "]" + (" " + (word + padding + more));
            OutcomeWord(line) == word && RequestShown(line) == more
  {
    var tail := word + padding + more;
    AfterNumberIs(n, tail);
    assert tail == word + " " + (padding[1..] + more);
    FirstWordIs(word, padding[1..] + more);
    hide Digits, AfterNumber, FirstWord, Padding;
    WordIsSkipped(word, padding, more);
  }

  lemma WordIsSkipped(word: string, padding: string, more: string)
    ensures (word + padding + more)[|word|..] == padding + more
    ensures (padding + more)[|padding|..] == more
  {
  }

  lemma DigitsIsNoOtherWord(n: nat)
    ensures Padding(Digits(n)) == 5 && forall i :: 0 <= i < |Digits(n)| ==> Digits(n)[i] != ' '
  {
    assert IsDigit(Digits(n)[0]);
  }

  lemma PendingTail(request: string, ending: string)
    ensures " PENDING " + request + ending == " " + ("PENDING" + " " + (request + ending))
  {
    assert " PENDING " == " " + "PENDING" + " ";
  }

  lemma FailedTail(request: string, reason: string, elapsed: string)
    ensures " FAILED  " + request + " (" + reason + ", " + elapsed + "ms)"
            == " " + ("FAILED" + "  " + (request + (" (" + reason + ", " + elapsed + "ms)")))
  {
    assert " FAILED  " == " " + "FAILED" + "  ";
    var ending := " (" + reason + ", " + elapsed + "ms)";
    assert " FAILED  " + request + " (" + reason + ", " + elapsed + "ms)" == " FAILED  " + request + ending;
  }

  lemma ResponseTail(status: string, request: string, elapsed: string)
    ensures " " + status + "     " + request + " (" + elapsed + "ms)"
            == " " + (status + "     " + (request + (" (" + elapsed + "ms)")))
  {
  }

  /** A line shows, in this order and each where a reader looks for it, the outcome of its entry and then
      the entry's own request, followed by when or how it was settled. */
  lemma LineShowsRequest(entry: NetworkEntry, index: nat)
    ensures var line := FormatNetworkEntry(entry, index);
            && OutcomeWord(line) == WordFor(entry.outcome)
            && RequestShown(line) == entry.httpMethod + " " + entry.url + Ending(entry.outcome)
  {
    hide Digits, Decimal, OutcomeWord, RequestShown;
    var request := entry.httpMethod + " " + entry.url;
    var more := request + Ending(entry.outcome);
    match entry.outcome {
      case None =>
        LineInParts(index + 1, "PENDING", " ", more);
        PendingTail(request, Ending(entry.outcome));
      case Some(Failed(reason, elapsed)) =>
        LineInParts(index + 1, "FAILED", "  ", more);
        FailedTail(request, reason, Decimal(elapsed));
      case Some(Response(status, elapsed)) =>
        DigitsIsNoOtherWord(status);
        LineInParts(index + 1, Digits(status), "     ", more);
        ResponseTail(Digits(status), request, Decimal(elapsed));
    }
  }

  /** The three kinds of line, letter by letter. */
  lemma LinesAreWritten(httpMethod: string, url: string, status: nat, reason: string)
    ensures FormatNetworkEntry(NetworkEntry(httpMethod, url, 0, None), 8)
            == "[9]" + " PENDING " + (httpMethod + " " + url) + " (in flight when this log was written)"
    ensures FormatNetworkEntry(NetworkEntry(httpMethod, url, 0, Some(Failed(reason, -3))), 8)
            == "[9]" + " FAILED  " + (httpMethod + " " + url) + (" (" + reason + ", -3ms)")
    ensures FormatNetworkEntry(NetworkEntry(httpMethod, url, 0, Some(Response(status, 3))), 8)
            == "[9]" + (" " + Digits(status) + "     ") + (httpMethod + " " + url) + " (3ms)"
  {
    SmallNumbers();
    hide Digits, Decimal;
    var request := httpMethod + " " + url;
    Behind("[9]", " PENDING ", request, " (in flight when this log was written)");
    FailedTail(request, reason, "-3");
    assert " (" + reason + ", " + "-3" + "ms)" == " (" + reason + ", -3ms)" by { Behind(" (" + reason, ", ", "-3", "ms)"); }
    assert " FAILED  " + request + " (" + reason + ", " + "-3" + "ms)" == " FAILED  " + request + (" (" + reason + ", -3ms)");
    Behind("[9]", " FAILED  ", request, " (" + reason + ", -3ms)");
    assert " (" + "3" + "ms)" == " (3ms)";
    assert " " + Digits(status) + "     " + request + " (" + "3" + "ms)" == (" " + Digits(status) + "     ") + request + " (3ms)";
    Behind("[9]", " " + Digits(status) + "     ", request, " (3ms)");
  }

  lemma SmallNumbers()
    ensures Digits(9) == "9" && Decimal(3) == "3" && Decimal(-3) == "-3"
  {
  }

  lemma Behind(a: string, b: string, c: string, d: string)
    ensures a + (b + c + d) == a + b + c + d
  {
  }

  function CountPendingLines(lines: seq<string>): nat {
    if lines == [] then 0
    else CountPendingLines(lines[..|lines| - 1]) + if SaysPending(lines[|lines| - 1]) then 1 else 0
  }

  lemma {:induction false} PendingLinesAre(entries: seq<NetworkEntry>, lines: seq<string>)
    requires |lines| == |entries| && forall k :: 0 <= k < |lines| ==> lines[k] == FormatNetworkEntry(entries[k], k)
    ensures CountPendingLines(lines) == Pending(entries)
  {
    hide FormatNetworkEntry, SaysPending;
    if lines != [] {
      var last := |lines| - 1;
      PendingLinesAre(entries[..last], lines[..last]);
      LineReadsBack(entries[last], last);
    }
  }

  /** A written log is complete and its header is true: one line a request, numbered from one without a
      gap, each saying PENDING exactly when its request is unsettled, under the total and the number of
      PENDING lines. */
  lemma LogReadsBack(entries: seq<NetworkEntry>)
    ensures var lines := RenderNetworkLog(entries);
            if entries == [] then lines == ["No requests were observed on this tab."]
            else
              && |lines| == 1 + |entries|
              && lines[0] == Header(|entries|, CountPendingLines(lines[1..]))
              && forall k :: 0 <= k < |entries| ==>
                   && LineNumber(lines[1..][k]) == k + 1
                   && (SaysPending(lines[1..][k]) <==> entries[k].outcome.None?)
  {
    hide FormatNetworkEntry, SaysPending, LineNumber, Header;
    if entries != [] {
      var lines := RenderNetworkLog(entries)[1..];
      PendingLinesAre(entries, lines);
      forall k | 0 <= k < |entries| {
        LineReadsBack(entries[k], k);
      }
    }
  }

  /** What the event that answers a request makes of it, or nothing when the next event about the same
      request is another report, or there is none. */
  ghost predicate SettledAs(trace: Trace, p: int, outcome: Option<NetworkOutcome>) {
    && 0 <= p < |trace|
    && (outcome.None? ==> forall j :: NextAbout(trace, p, j) ==> trace[j].Requested?)
    && (outcome.Some? ==> exists j :: NextAbout(trace, p, j) && !trace[j].Requested?
                                      && outcome.value == OutcomeOf(trace[p].at, trace[j]))
  }

  /** From the events to the written page: line `k + 1` is numbered `k + 1`; behind its number it gives the
      outcome that the trace holds for the `k`-th request, in flight exactly when the trace holds none; and
      behind that the `k`-th request's own method and address. */
  lemma WrittenLogTellsTrace(trace: Trace, at: seq<int>, entries: seq<NetworkEntry>, k: nat)
    requires Logs(trace, at, entries) && k < |at|
    ensures var lines := RenderNetworkLog(entries);
            && |lines| == 1 + |at|
            && LineNumber(lines[k + 1]) == k + 1
            && (SaysPending(lines[k + 1]) <==> forall j :: NextAbout(trace, at[k], j) ==> trace[j].Requested?)
            && exists outcome :: SettledAs(trace, at[k], outcome)
                 && OutcomeWord(lines[k + 1]) == WordFor(outcome)
                 && RequestShown(lines[k + 1]) == trace[at[k]].httpMethod + " " + trace[at[k]].url + Ending(outcome)
  {
    var entry := entries[k];
    assert Describes(trace, at[k], entry);
    EntryIsSettledAs(trace, at[k], entry);
    hide Describes, NextAbout, SettledAs, RequestPositions, FormatNetworkEntry, OutcomeWord, RequestShown, SaysPending, LineNumber, Header, Ending, WordFor;
    LineReadsBack(entry, k);
    LineShowsRequest(entry, k);
    LineOfEntry(entries, k);
    hide RenderNetworkLog;
  }

  lemma LineOfEntry(entries: seq<NetworkEntry>, k: nat)
    requires k < |entries|
    ensures var lines := RenderNetworkLog(entries);
            |lines| == 1 + |entries| && lines[k + 1] == FormatNetworkEntry(entries[k], k)
  {
    hide FormatNetworkEntry, Header;
  }

  lemma EntryIsSettledAs(trace: Trace, p: int, entry: NetworkEntry)
    requires Describes(trace, p, entry)
    ensures entry.httpMethod == trace[p].httpMethod && entry.url == trace[p].url
    ensures SettledAs(trace, p, entry.outcome)
    ensures entry.outcome.None? <==> forall j :: NextAbout(trace, p, j) ==> trace[j].Requested?
  {
  }

  function Noun(total: nat): string {
    if total == 1 then " request, " else " requests, "
  }

  function Tally(pending: nat): string {
    if pending == 0 then "all settled." else Digits(pending) + " still in flight when this was written."
  }

  lemma Regrouped(total: string, noun: string, plural: string, comma: string, tally: string)
    ensures total + noun + plural + (comma + tally) == total + ((noun + plural + comma) + tally)
    ensures total + noun + plural + comma + tally == total + ((noun + plural + comma) + tally)
  {
  }

  lemma NounInParts(total: nat)
    ensures Noun(total) == " request" + (if total == 1 then "" else "s") + ", "
  {
  }

  lemma HeaderInParts(total: nat, pending: nat)
    ensures Header(total, pending) == Digits(total) + (Noun(total) + Tally(pending))
  {
    hide Digits, Noun;
    NounInParts(total);
    var plural := if total == 1 then "" else "s";
    Regrouped(Digits(total), " request", plural, ", ", Tally(pending));
    if pending == 0 {
      assert ", all settled." == ", " + "all settled.";
    } else {
      var counted := Digits(total) + " request" + plural + ", ";
      Follows(counted, Digits(pending), " still in flight when this was written.");
    }
  }

  lemma Follows(a: string, b: string, c: string)
    ensures a + b + c == a + (b + c)
  {
  }

  lemma ReadTally(pending: nat)
    ensures ReadNumber(Tally(pending), 0).0 == pending
  {
    hide Digits, ReadNumber;
    if pending == 0 {
      ReadStops("all settled.", 0);
    } else {
      ReadDigits(pending, " still in flight when this was written.");
      ReadStops(" still in flight when this was written.", pending);
    }
  }

  /** The header's two numbers can be read back out of it. */
  lemma HeaderReadsBack(total: nat, pending: nat)
    ensures ReadNumber(Header(total, pending), 0).0 == total
    ensures var afterTotal := ReadNumber(Header(total, pending), 0).1;
            var skip := if total == 1 then |" request, "| else |" requests, "|;
            && skip <= |afterTotal|
            && ReadNumber(afterTotal[skip..], 0).0 == pending
  {
    HeaderInParts(total, pending);
    assert Noun(total)[0] == ' ';
    hide Header, Digits, ReadNumber, Tally;
    var after := Noun(total) + Tally(pending);
    ReadDigits(total, after);
    ReadStops(after, total);
    assert after[|Noun(total)|..] == Tally(pending);
    ReadTally(pending);
  }
}
