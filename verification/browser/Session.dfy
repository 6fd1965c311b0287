/** The page map and the keeper tab of a browser session (`RealBrowserSession` in src/browser/real.ts).
    Each operation is one atomic step; between steps the browser's pages change as they please. */
module Session {
  import opened Wrappers

  type TargetId = string

  /** A live page, which the browser names once and for all. */
  datatype Page = Page(targetId: TargetId)

  const KEEPER_TAB_URL := "about:blank"

  datatype CloseOutcome = Closed | Refused | NotFound

  /** The browser's open pages in its own order and their addresses; every page there has ever been;
      and what the session remembers. */
  datatype State = State(
    open: seq<Page>,
    urls: map<Page, string>,
    used: set<Page>,
    keeper: Option<Page>,
    pages: map<TargetId, Page>,
    recordings: set<TargetId>)

  function Without(open: seq<Page>, page: Page): (r: seq<Page>)
    ensures forall p :: p in r <==> p in open && p != page
  {
    if open == [] then [] else (if open[0] == page then [] else [open[0]]) + Without(open[1..], page)
  }

  /** The pages that stay keep their order. */
  lemma {:induction false} WithoutSplits(a: seq<Page>, b: seq<Page>, page: Page)
    ensures Without(a + b, page) == Without(a, page) + Without(b, page)
  {
    if a == [] {
      assert a + b == b;
    } else {
      assert (a + b)[1..] == a[1..] + b;
      WithoutSplits(a[1..], b, page);
    }
  }

  lemma {:induction false} WithoutAbsent(open: seq<Page>, page: Page)
    requires page !in open
    ensures Without(open, page) == open
  {
    if open != [] {
      assert open == [open[0]] + open[1..];
      WithoutAbsent(open[1..], page);
    }
  }

  /** The first open blank page: what a fresh connection takes for the keeper. */
  function FirstBlank(open: seq<Page>, urls: map<Page, string>): (r: Option<Page>)
    ensures r.Some? ==> exists i :: 0 <= i < |open| && open[i] == r.value
                                    && r.value in urls && urls[r.value] == KEEPER_TAB_URL
                                    && forall j :: 0 <= j < i ==> !(open[j] in urls && urls[open[j]] == KEEPER_TAB_URL)
    ensures r.None? ==> forall p | p in open :: !(p in urls && urls[p] == KEEPER_TAB_URL)
  {
    if open == [] then None
    else if open[0] in urls && urls[open[0]] == KEEPER_TAB_URL then Some(open[0])
    else
      var r := FirstBlank(open[1..], urls);
      assert r.Some? ==> exists i :: 0 <= i < |open| && open[i] == r.value
                                     && forall j :: 0 <= j < i ==> !(open[j] in urls && urls[open[j]] == KEEPER_TAB_URL) by {
        if i :| r.Some? && 0 <= i < |open[1..]| && open[1..][i] == r.value
                && forall j :: 0 <= j < i ==> !(open[1..][j] in urls && urls[open[1..][j]] == KEEPER_TAB_URL) {
          assert open[i + 1] == r.value;
          assert forall j :: 0 < j < i + 1 ==> open[j] == open[1..][j - 1];
        }
      }
      r
  }

  // ----- The session

  class RealBrowserSession {
    const browser: string
    // The browser context this session is connected to.
    var open: seq<Page>
    var urls: map<Page, string>
    ghost var used: set<Page>
    // The session's own memory.
    var keeper: Option<Page>
    var pages: map<TargetId, Page>
    var recordings: set<TargetId>

    ghost function Now(): State
      reads this
    {
      State(open, urls, used, keeper, pages, recordings)
    }

    constructor (browser: string, open: seq<Page>, urls: map<Page, string>)
      ensures this.browser == browser
      ensures Now() == State(open, urls, (set p | p in open), None, map[], {})
    {
      this.browser := browser;
      this.open, this.urls, this.used := open, urls, set p | p in open;
      this.keeper, this.pages, this.recordings := None, map[], {};
    }

    /** The handle the keeper is reported under. It is never a key of the page map. */
    function KeeperHandleId(): string { browser + "-keeper" }

    /** The browser opens a page, which begins blank. */
    method NewPage(page: Page)
      modifies this
      ensures Now() == old(Now()).(open := old(open) + [page], used := old(used) + {page},
                                   urls := old(urls)[page := KEEPER_TAB_URL])
    {
      open := open + [page];
      used := used + {page};
      urls := urls[page := KEEPER_TAB_URL];
    }

    /** `#track`. */
    method Track(page: Page)
      modifies this
      ensures Now() == Tracked(old(Now()), page)
    {
      pages := pages[page.targetId := page];
      RecordFrom(page.targetId);
    }

    /** `#recordFrom`: a page is listened to once, however often it is named. */
    method RecordFrom(id: TargetId)
      modifies this
      ensures Now() == old(Now()).(recordings := old(recordings) + {id})
    {
      if id in recordings {
        assert recordings == recordings + {id};
        return;
      }
      recordings := recordings + {id};
    }

    /** `#adopt`: look for the name among the pages the browser reports, never the keeper. */
    method Adopt(id: TargetId) returns (adopted: Option<Page>)
      modifies this
      ensures adopted == if Adoptable(old(Now()), id) then Some(Page(id)) else None
      ensures Now() == if Adoptable(old(Now()), id) then Tracked(old(Now()), Page(id)) else old(Now())
    {
      for i := 0 to |open|
        invariant Now() == old(Now())
        invariant forall j :: 0 <= j < i ==> keeper == Some(open[j]) || open[j].targetId != id
      {
        var page := open[i];
        if keeper == Some(page) || page.targetId != id {
          continue;
        }
        assert page == Page(id);
        Track(page);
        return Some(page);
      }
      adopted := None;
    }

    /** `#page`: the page a handle names, or an error. */
    method LookUp(id: TargetId) returns (page: Option<Page>)
      modifies this
      ensures Now() == Step(old(Now()), KeeperHandleId(), LookedUp(id)).0
      ensures page == Step(old(Now()), KeeperHandleId(), LookedUp(id)).1.page
    {
      if id in pages && pages[id] in open {
        return Some(pages[id]);
      }
      page := Adopt(id);
    }

    method EnsureKeeperTab(spare: Page) returns (handle: TargetId)
      modifies this
      ensures Now() == WithKeeper(old(Now()), spare)
      ensures handle == browser + "-keeper"
    {
      handle := KeeperHandleId();
      if keeper.Some? && keeper.value in open {
        return;
      }
      keeper := FirstBlank(open, urls);
      if keeper.None? {
        NewPage(spare);
        keeper := Some(spare);
      }
    }

    method OpenTab(spare: Page, page: Page) returns (id: TargetId)
      modifies this
      ensures Now() == Step(old(Now()), KeeperHandleId(), Opened(spare, page)).0
      ensures id == page.targetId
    {
      var _ := EnsureKeeperTab(spare);
      NewPage(page);
      Track(page);
      id := page.targetId;
    }

    /** `listTabs`: every open page but the keeper, adopting the ones not seen before. */
    method ListTabs() returns (ids: seq<TargetId>)
      requires KeyedByOwnId(Now())
      modifies this
      ensures Now() == Step(old(Now()), KeeperHandleId(), Listed).0
      ensures ids == Step(old(Now()), KeeperHandleId(), Listed).1.ids
    {
      ids := [];
      ghost var start := Now();
      for i := 0 to |open|
        invariant Now() == ListedUpTo(start, i) && open == start.open
        invariant KeyedByOwnId(Now())
        invariant ids == HandlesUpTo(start, i)
      {
        ListedShape(start, i);
        var page := open[i];
        if keeper == Some(page) {
          continue;
        }
        var existing := NameOf(page);
        if existing.None? {
          Track(page);
          ids := ids + [page.targetId];
        } else {
          ids := ids + [existing.value];
        }
      }
    }

    /** The key some entry of the map holds this page under. */
    method NameOf(page: Page) returns (name: Option<TargetId>)
      requires KeyedByOwnId(Now())
      ensures name == if page.targetId in pages then Some(page.targetId) else None
    {
      var keys := pages.Keys;
      name := None;
      while keys != {}
        invariant keys <= pages.Keys
        invariant forall k | k in pages.Keys - keys :: pages[k] != page
        decreases keys
      {
        var k :| k in keys;
        if pages[k] == page {
          return Some(k);
        }
        keys := keys - {k};
      }
    }

    /** `closeTab`. */
    method CloseTab(id: TargetId) returns (outcome: CloseOutcome)
      modifies this
      ensures Now() == Step(old(Now()), KeeperHandleId(), ClosedTab(id)).0
      ensures outcome == Step(old(Now()), KeeperHandleId(), ClosedTab(id)).1.outcome
    {
      if id == KeeperHandleId() {
        return Refused;
      }
      if id in pages && pages[id] in open {
        var held := pages[id];
        pages := pages - {id};
        open := Without(open, held);
        return Closed;
      }
      var adopted := Adopt(id);
      pages := pages - {id};
      if adopted.None? {
        return NotFound;
      }
      if adopted.value in urls && urls[adopted.value] == KEEPER_TAB_URL {
        return Refused;
      }
      open := Without(open, adopted.value);
      outcome := Closed;
    }
  }

  // ----- Steps

  function Tracked(s: State, page: Page): State {
    s.(pages := s.pages[page.targetId := page], recordings := s.recordings + {page.targetId})
  }

  predicate Adoptable(s: State, id: TargetId) {
    Page(id) in s.open && s.keeper != Some(Page(id))
  }

  function WithKeeper(s: State, spare: Page): State {
    if s.keeper.Some? && s.keeper.value in s.open then s
    else
      var adoptable := FirstBlank(s.open, s.urls);
      if adoptable.Some? then s.(keeper := adoptable)
      else s.(open := s.open + [spare], used := s.used + {spare}, urls := s.urls[spare := KEEPER_TAB_URL], keeper := Some(spare))
  }

  function ListedUpTo(s: State, n: nat): State
    requires n <= |s.open|
  {
    if n == 0 then s
    else
      var before := ListedUpTo(s, n - 1);
      var page := s.open[n - 1];
      if s.keeper == Some(page) || page.targetId in before.pages then before else Tracked(before, page)
  }

  function HandlesUpTo(s: State, n: nat): seq<TargetId>
    requires n <= |s.open|
  {
    if n == 0 then []
    else HandlesUpTo(s, n - 1) + if s.keeper == Some(s.open[n - 1]) then [] else [s.open[n - 1].targetId]
  }

  /** What the session is asked, and what the browser does of its own accord. The pages a step may
      have to create are named in the event. */
  datatype Event =
    | EnsuredKeeper(spare: Page)
    | Opened(spare: Page, page: Page)
    | Listed
    | LookedUp(id: TargetId)
    | ClosedTab(id: TargetId)
    | PageAppeared(page: Page, url: string)
    | PageVanished(page: Page)
    | PageNavigated(page: Page, url: string)

  datatype Answer =
    | Nothing
    | Handle(id: TargetId)
    | Handles(ids: seq<TargetId>)
    | Found(page: Option<Page>)
    | CloseAnswer(outcome: CloseOutcome)

  function Step(s: State, keeperHandle: TargetId, event: Event): (r: (State, Answer))
    ensures event.LookedUp? ==> r.1.Found?
    ensures event.Listed? ==> r.1.Handles?
    ensures event.ClosedTab? ==> r.1.CloseAnswer?
  {
    match event
    case EnsuredKeeper(spare) => (WithKeeper(s, spare), Handle(keeperHandle))
    case Opened(spare, page) =>
      var kept := WithKeeper(s, spare);
      (Tracked(kept.(open := kept.open + [page], used := kept.used + {page}, urls := kept.urls[page := KEEPER_TAB_URL]), page),
       Handle(page.targetId))
    case Listed => (ListedUpTo(s, |s.open|), Handles(HandlesUpTo(s, |s.open|)))
    case LookedUp(id) =>
      if id in s.pages && s.pages[id] in s.open then (s, Found(Some(s.pages[id])))
      else if Adoptable(s, id) then (Tracked(s, Page(id)), Found(Some(Page(id))))
      else (s, Found(None))
    case ClosedTab(id) =>
      if id == keeperHandle then (s, CloseAnswer(Refused))
      else if id in s.pages && s.pages[id] in s.open then
        (s.(pages := s.pages - {id}, open := Without(s.open, s.pages[id])), CloseAnswer(Closed))
      else if !Adoptable(s, id) then (s.(pages := s.pages - {id}), CloseAnswer(NotFound))
      else
        var adopted := Tracked(s, Page(id));
        if Page(id) in s.urls && s.urls[Page(id)] == KEEPER_TAB_URL then
          (adopted.(pages := adopted.pages - {id}), CloseAnswer(Refused))
        else (adopted.(pages := adopted.pages - {id}, open := Without(s.open, Page(id))), CloseAnswer(Closed))
    case PageAppeared(page, url) =>
      (s.(open := s.open + [page], used := s.used + {page}, urls := s.urls[page := url]), Nothing)
    case PageVanished(page) => (s.(open := Without(s.open, page)), Nothing)
    case PageNavigated(page, url) => (s.(urls := s.urls[page := url]), Nothing)
  }

  /** The browser never reuses a page's name. */
  predicate Fresh(s: State, event: Event) {
    match event
    case EnsuredKeeper(spare) => spare !in s.used
    case Opened(spare, page) => spare !in s.used && page !in s.used && spare != page
    case PageAppeared(page, _) => page !in s.used
    case _ => true
  }

  // ----- Invariants

  /** Every entry of the page map is keyed by its page's own identifier. */
  predicate KeyedByOwnId(s: State) {
    forall id | id in s.pages :: s.pages[id] == Page(id)
  }

  ghost predicate Sane(s: State) {
    && KeyedByOwnId(s)
    && (forall p | p in s.open :: p in s.used)
    && (forall id | id in s.pages :: s.pages[id] in s.used && id in s.recordings)
    && (s.keeper.Some? ==> s.keeper.value in s.used)
  }

  /** The keeper is open, and no handle leads to it. */
  predicate Guarded(s: State) {
    s.keeper.Some? && s.keeper.value in s.open && s.keeper.value.targetId !in s.pages
  }

  lemma {:induction false} ListedShape(s: State, n: nat)
    requires n <= |s.open| && KeyedByOwnId(s)
    ensures ListedUpTo(s, n).open == s.open && ListedUpTo(s, n).keeper == s.keeper && KeyedByOwnId(ListedUpTo(s, n))
  {
    if n > 0 {
      ListedShape(s, n - 1);
    }
  }

  lemma {:induction false} ListingKeeps(s: State, n: nat)
    requires n <= |s.open| && Sane(s)
    ensures var r := ListedUpTo(s, n);
            && r.open == s.open && r.used == s.used && r.keeper == s.keeper && Sane(r)
            && (Guarded(s) ==> Guarded(r))
  {
    if n > 0 {
      ListingKeeps(s, n - 1);
      assert s.open[n - 1] in s.open;
    }
  }

  lemma StepIsSane(s: State, keeperHandle: TargetId, event: Event)
    requires Sane(s)
    ensures Sane(Step(s, keeperHandle, event).0)
  {
    if event.Listed? {
      ListingKeeps(s, |s.open|);
    }
  }

  /** Nothing a caller asks, and nothing the browser does short of closing the keeper itself, closes
      the keeper, replaces it or makes it reachable. */
  lemma StepKeepsKeeper(s: State, keeperHandle: TargetId, event: Event)
    requires Sane(s) && Guarded(s) && Fresh(s, event) && event != PageVanished(s.keeper.value)
    ensures var next := Step(s, keeperHandle, event).0;
            Guarded(next) && next.keeper == s.keeper
  {
    if event.Listed? {
      ListingKeeps(s, |s.open|);
    }
  }

  // ----- Whole sessions

  function After(s: State, keeperHandle: TargetId, events: seq<Event>, n: nat): State
    requires n <= |events|
  {
    if n == 0 then s else Step(After(s, keeperHandle, events, n - 1), keeperHandle, events[n - 1]).0
  }

  ghost predicate AllFresh(s: State, keeperHandle: TargetId, events: seq<Event>) {
    forall i :: 0 <= i < |events| ==> Fresh(After(s, keeperHandle, events, i), events[i])
  }

  /** A new connection: the browser's pages as they are, and an empty memory. */
  predicate Connected(s: State) {
    s.keeper.None? && s.pages == map[] && forall p | p in s.open :: p in s.used
  }

  /** In every session, whatever happens in it, every entry of the page map is keyed by its page's own
      identifier, and everything the session remembers is a page the browser has had. */
  lemma {:induction false} EveryStateIsSane(s: State, keeperHandle: TargetId, events: seq<Event>, n: nat)
    requires Connected(s) && n <= |events|
    ensures Sane(After(s, keeperHandle, events, n))
  {
    if n > 0 {
      EveryStateIsSane(s, keeperHandle, events, n - 1);
      hide Step, Sane;
      StepIsSane(After(s, keeperHandle, events, n - 1), keeperHandle, events[n - 1]);
    }
  }

  /** Connecting establishes the keeper before anything else, and from then on the keeper stays open and
      unreachable through every sequence of operations and browser events that does not close it from
      outside. */
  lemma {:induction false} KeeperSurvivesSession(s: State, keeperHandle: TargetId, events: seq<Event>, n: nat)
    requires Connected(s) && 1 <= n <= |events| && events[0].EnsuredKeeper? && AllFresh(s, keeperHandle, events)
    requires forall i :: 1 <= i < n ==> events[i] != PageVanished(KeeperOf(s, keeperHandle, events))
    ensures var now := After(s, keeperHandle, events, n);
            Sane(now) && Guarded(now) && now.keeper == Some(KeeperOf(s, keeperHandle, events))
  {
    hide Step, Sane, Guarded, KeeperOf, Connected;
    if n == 1 {
      assert After(s, keeperHandle, events, 0) == s;
      FirstStepGuards(s, keeperHandle, events);
    } else {
      KeeperSurvivesSession(s, keeperHandle, events, n - 1);
      var before := After(s, keeperHandle, events, n - 1);
      assert After(s, keeperHandle, events, n) == Step(before, keeperHandle, events[n - 1]).0;
      hide After;
      StepIsSane(before, keeperHandle, events[n - 1]);
      StepKeepsKeeper(before, keeperHandle, events[n - 1]);
    }
  }

  lemma FirstStepGuards(s: State, keeperHandle: TargetId, events: seq<Event>)
    requires Connected(s) && |events| > 0 && events[0].EnsuredKeeper? && Fresh(s, events[0])
    ensures var now := Step(s, keeperHandle, events[0]).0;
            Sane(now) && Guarded(now) && now.keeper == Some(KeeperOf(s, keeperHandle, events))
  {
  }

  /** The page the first step took for the keeper. */
  function KeeperOf(s: State, keeperHandle: TargetId, events: seq<Event>): Page
    requires |events| > 0 && events[0].EnsuredKeeper?
  {
    if s.keeper.Some? && s.keeper.value in s.open then s.keeper.value
    else if FirstBlank(s.open, s.urls).Some? then FirstBlank(s.open, s.urls).value
    else events[0].spare
  }

  lemma {:induction false} HandlesAre(s: State, n: nat, id: TargetId)
    requires n <= |s.open|
    ensures id in HandlesUpTo(s, n) <==> Page(id) in s.open[..n] && s.keeper != Some(Page(id))
  {
    if n > 0 {
      HandlesAre(s, n - 1, id);
      assert s.open[..n] == s.open[..n - 1] + [s.open[n - 1]];
    }
  }

  /** While the keeper is guarded, no answer names its page or hands it over, and a listing names
      exactly the other open pages. */
  lemma AnswersNeverNameKeeper(s: State, keeperHandle: TargetId, event: Event)
    requires Sane(s) && Guarded(s) && Fresh(s, event) && keeperHandle != s.keeper.value.targetId
    ensures var answer, keeper := Step(s, keeperHandle, event).1, s.keeper.value;
            && (answer.Handle? ==> answer.id != keeper.targetId)
            && (answer.Handles? ==> forall id :: id in answer.ids <==> Page(id) in s.open && Page(id) != keeper)
            && (answer.Found? ==> answer.page != Some(keeper))
            && (answer.Found? ==> answer.page == if Page(event.id) in s.open && Page(event.id) != keeper
                                                 then Some(Page(event.id)) else None)
  {
    if event.Listed? {
      forall id
        ensures id in HandlesUpTo(s, |s.open|) <==> Page(id) in s.open && Page(id) != s.keeper.value
      {
        HandlesAre(s, |s.open|, id);
        assert s.open[..|s.open|] == s.open;
      }
    }
  }

  /** Over a whole session that establishes its keeper first and in which nothing closes it from outside,
      no answer ever names the keeper's page or hands it over, every listing names exactly the other pages
      open at that moment, and every look-up finds exactly those. */
  lemma NoAnswerNamesKeeper(s: State, keeperHandle: TargetId, events: seq<Event>, n: nat)
    requires Connected(s) && n < |events| && events[0].EnsuredKeeper? && AllFresh(s, keeperHandle, events)
    requires forall i :: 1 <= i < n ==> events[i] != PageVanished(KeeperOf(s, keeperHandle, events))
    requires keeperHandle != KeeperOf(s, keeperHandle, events).targetId
    ensures var keeper, now := KeeperOf(s, keeperHandle, events), After(s, keeperHandle, events, n);
            var answer := Step(now, keeperHandle, events[n]).1;
            && (answer.Handle? ==> answer.id != keeper.targetId)
            && (answer.Handles? ==> forall id :: id in answer.ids <==> Page(id) in now.open && Page(id) != keeper)
            && (answer.Found? ==> answer.page != Some(keeper)
                                  && answer.page == if Page(events[n].id) in now.open && Page(events[n].id) != keeper
                                                    then Some(Page(events[n].id)) else None)
  {
    hide Sane, Guarded, KeeperOf, Connected, After;
    if n == 0 {
      KeeperHandleIsAnswered(After(s, keeperHandle, events, 0), keeperHandle, events[0]);
    } else {
      KeeperSurvivesSession(s, keeperHandle, events, n);
      hide Step;
      AnswersNeverNameKeeper(After(s, keeperHandle, events, n), keeperHandle, events[n]);
    }
  }

  lemma KeeperHandleIsAnswered(s: State, keeperHandle: TargetId, event: Event)
    requires event.EnsuredKeeper?
    ensures Step(s, keeperHandle, event).1 == Handle(keeperHandle)
  {
  }

  // ----- What each operation leaves behind

  lemma {:induction false} ListedUpToMeans(s: State, n: nat)
    requires n <= |s.open| && KeyedByOwnId(s)
    ensures var next := ListedUpTo(s, n);
            && next == s.(pages := next.pages, recordings := next.recordings) && KeyedByOwnId(next)
            && (forall id :: id in next.pages <==> id in s.pages || (Page(id) in s.open[..n] && s.keeper != Some(Page(id))))
            && (forall id :: id in next.recordings <==>
                  id in s.recordings || (id !in s.pages && Page(id) in s.open[..n] && s.keeper != Some(Page(id))))
  {
    if n > 0 {
      ListedUpToMeans(s, n - 1);
      var page := s.open[n - 1];
      assert s.open[..n] == s.open[..n - 1] + [page];
      assert Page(page.targetId) == page;
    }
  }

  /** A listing registers every open page but the keeper under its own name and listens to it, forgets
      nothing, and touches nothing else. */
  lemma ListingRegisters(s: State, keeperHandle: TargetId)
    requires Sane(s)
    ensures var next := Step(s, keeperHandle, Listed).0;
            && next.open == s.open && next.urls == s.urls && next.keeper == s.keeper
            && (forall p | p in s.open && s.keeper != Some(p) ::
                  p.targetId in next.pages && next.pages[p.targetId] == p && p.targetId in next.recordings)
            && (forall id | id in s.pages :: id in next.pages && next.pages[id] == s.pages[id])
            && (forall id | id in next.pages :: id in s.pages || (Page(id) in s.open && s.keeper != Some(Page(id))))
            && s.recordings <= next.recordings
  {
    ListedUpToMeans(s, |s.open|);
    assert s.open[..|s.open|] == s.open;
    assert forall p: Page :: Page(p.targetId) == p;
  }

  /** What was just listed can be closed: the next close of any name in the answer closes that page. */
  lemma ListedThenClosed(s: State, keeperHandle: TargetId, id: TargetId)
    requires Sane(s) && id in Step(s, keeperHandle, Listed).1.ids && id != keeperHandle
    ensures var listed := Step(s, keeperHandle, Listed).0;
            var (next, answer) := Step(listed, keeperHandle, ClosedTab(id));
            answer == CloseAnswer(Closed) && Page(id) in listed.open && Page(id) !in next.open
  {
    HandlesAre(s, |s.open|, id);
    ListingRegisters(s, keeperHandle);
    assert s.open[..|s.open|] == s.open;
    hide ListedUpTo, HandlesUpTo;
    assert Page(id) in s.open && s.keeper != Some(Page(id));
    assert Page(id).targetId == id;
  }

  /** A listing gives the handles in the browser's own order of its pages. */
  lemma {:induction false} HandlesInOrder(s: State, m: nat, n: nat)
    requires m < n <= |s.open|
    ensures HandlesUpTo(s, m) <= HandlesUpTo(s, n)
    ensures s.keeper != Some(s.open[m]) ==>
              HandlesUpTo(s, m) + [s.open[m].targetId] <= HandlesUpTo(s, n)
  {
    if m < n - 1 {
      HandlesInOrder(s, m, n - 1);
    }
  }

  /** A tab just opened is open and blank, is registered under its own name and listened to, and closes by
      that name; the keeper is open beside it. */
  lemma OpeningRegisters(s: State, keeperHandle: TargetId, spare: Page, page: Page)
    requires Sane(s) && Fresh(s, Opened(spare, page)) && page.targetId != keeperHandle
    ensures var (next, answer) := Step(s, keeperHandle, Opened(spare, page));
            && answer == Handle(page.targetId)
            && page in next.open && page in next.urls && next.urls[page] == "about:blank"
            && page.targetId in next.pages && next.pages[page.targetId] == page && page.targetId in next.recordings
            && next.keeper.Some? && next.keeper.value in next.open && next.keeper != Some(page)
            && (forall p | p in s.open :: p in next.open)
            && (forall id | id in s.pages :: id in next.pages && next.pages[id] == s.pages[id])
            && Step(next, keeperHandle, ClosedTab(page.targetId)).1 == CloseAnswer(Closed)
  {
    hide FirstBlank;
    var kept := WithKeeper(s, spare);
    KeeperIsOpen(s, spare);
    assert page !in s.open;
  }

  lemma KeeperIsOpen(s: State, spare: Page)
    ensures var kept := WithKeeper(s, spare);
            && kept.keeper.Some? && kept.keeper.value in kept.open
            && (forall p :: p in kept.open ==> p in s.open || p == spare)
            && (forall p | p in s.open :: p in kept.open)
            && kept.pages == s.pages && kept.recordings == s.recordings
  {
  }

  /** A page that a look-up finds stays registered under that name and is listened to; nothing else is
      forgotten, and a look-up that finds nothing changes nothing. */
  lemma LookingUpRegisters(s: State, keeperHandle: TargetId, id: TargetId)
    requires Sane(s)
    ensures var (next, answer) := Step(s, keeperHandle, LookedUp(id));
            && (answer.page.Some? ==>
                  && answer.page.value == Page(id) && Page(id) in s.open
                  && id in next.pages && next.pages[id] == Page(id) && id in next.recordings)
            && (answer.page.None? ==> next == s)
            && (answer.page.None? <==> Page(id) !in s.open || (id !in s.pages && s.keeper == Some(Page(id))))
            && next.open == s.open && next.keeper == s.keeper && next.urls == s.urls
            && (forall k | k in s.pages && k != id :: k in next.pages && next.pages[k] == s.pages[k])
            && next.pages.Keys <= s.pages.Keys + {id} && next.recordings <= s.recordings + {id}
  {
  }

  /** A close, whatever its answer, forgets only the name it was given, and goes on listening to what was
      listened to, and also to a page it had to look for. */
  lemma ClosingForgetsOne(s: State, keeperHandle: TargetId, id: TargetId)
    requires Sane(s) && id != keeperHandle
    ensures var next := Step(s, keeperHandle, ClosedTab(id)).0;
            && next.pages == s.pages - {id} && next.keeper == s.keeper && next.urls == s.urls
            && next.recordings == if id !in s.pages && Adoptable(s, id) then s.recordings + {id} else s.recordings
  {
    assert s.pages[id := Page(id)] - {id} == s.pages - {id};
    assert id in s.recordings ==> s.recordings + {id} == s.recordings;
  }

  /** Establishing the keeper is idempotent, and opens a page only when the keeper is gone and no open
      page is blank. */
  lemma EnsuringIsIdempotent(s: State, spare: Page, other: Page)
    ensures WithKeeper(WithKeeper(s, spare), other) == WithKeeper(s, spare)
    ensures WithKeeper(s, spare).open == s.open <==>
            (s.keeper.Some? && s.keeper.value in s.open)
            || exists p :: p in s.open && p in s.urls && s.urls[p] == KEEPER_TAB_URL
  {
    assert |s.open + [spare]| == |s.open| + 1;
    assert (s.open + [spare])[|s.open|] == spare;
  }

  // ----- Closing

  /** `Closed` is answered exactly when the named page was open and has left the browser; every other
      answer leaves the open pages as they were. Afterwards the map does not hold the name, unless it
      is the keeper's handle, which is never looked at. */
  lemma CloseTellsTheTruth(s: State, keeperHandle: TargetId, id: TargetId)
    requires Sane(s)
    ensures var (next, answer) := Step(s, keeperHandle, ClosedTab(id));
            && (answer.outcome == Closed <==> Page(id) in s.open && Page(id) !in next.open)
            && (forall p :: p in next.open <==> p in s.open && !(answer.outcome == Closed && p == Page(id)))
            && (answer.outcome != Closed ==> next.open == s.open)
            && (id != keeperHandle ==> id !in next.pages)
            && (forall k | k in s.pages && k != id :: k in next.pages)
  {
  }

  /** Which answer is given: a tab this session has named is always closed, and a page it has only
      found in the browser is refused exactly when it is blank. */
  lemma CloseAnswers(s: State, keeperHandle: TargetId, id: TargetId)
    requires Sane(s) && id != keeperHandle
    ensures var answer := Step(s, keeperHandle, ClosedTab(id)).1.outcome;
            && (answer == NotFound <==> Page(id) !in s.open || (id !in s.pages && s.keeper == Some(Page(id))))
            && (answer == Refused <==>
                  && Page(id) in s.open && id !in s.pages && s.keeper != Some(Page(id))
                  && Page(id) in s.urls && s.urls[Page(id)] == KEEPER_TAB_URL)
  {
  }

  /** The keeper's own handle is refused, and asking changes nothing. */
  lemma KeeperHandleIsRefused(s: State, keeperHandle: TargetId)
    ensures Step(s, keeperHandle, ClosedTab(keeperHandle)) == (s, CloseAnswer(Refused))
  {
  }

  /** Closing reaches the keeper exactly when the page map holds it. */
  lemma CloseReachesKeeper(s: State, keeperHandle: TargetId, id: TargetId)
    requires Sane(s) && s.keeper.Some? && s.keeper.value in s.open
    ensures s.keeper.value !in Step(s, keeperHandle, ClosedTab(id)).0.open
            <==> id != keeperHandle && s.keeper == Some(Page(id)) && id in s.pages
  {
  }

  /** Why the keeper must not be closed from outside: the next one is the first blank page, which may be
      a tab a caller has just opened and can still close by name. */
  lemma ReplacedKeeperCanBeClosed() returns (s: State, events: seq<Event>)
    ensures Connected(s) && |events| == 5 && events[0].EnsuredKeeper? && AllFresh(s, "regular-keeper", events)
    ensures events[2] == PageVanished(KeeperOf(s, "regular-keeper", events))
    ensures After(s, "regular-keeper", events, 4).keeper == Some(Page("B"))
    ensures events[4] == ClosedTab("B") && Page("B") !in After(s, "regular-keeper", events, 5).open
  {
    var k, b, spare, h := Page("A"), Page("B"), Page("C"), "regular-keeper";
    s := State([], map[], {}, None, map[], {});
    events := [EnsuredKeeper(k), Opened(spare, b), PageVanished(k), EnsuredKeeper(spare), ClosedTab("B")];
    var s1 := Step(s, h, events[0]).0;
    assert s1 == State([k], map[k := KEEPER_TAB_URL], {k}, Some(k), map[], {});
    var s2 := Step(s1, h, events[1]).0;
    KeeperThenTab(s1, k, b, spare);
    var s3 := Step(s2, h, events[2]).0;
    var s4 := Step(s3, h, events[3]).0;
    TabBecomesKeeper(s2, k, b, spare);
    hide Step, Sane, WithKeeper;
    assert After(s, h, events, 0) == s;
    assert After(s, h, events, 1) == s1;
    assert After(s, h, events, 2) == s2;
    assert After(s, h, events, 3) == s3;
    assert After(s, h, events, 4) == s4;
    CloseTellsTheTruth(s4, h, "B");
  }

  /** A second tab opened beside the keeper: it is blank, registered and open. */
  lemma KeeperThenTab(s: State, k: Page, b: Page, spare: Page)
    requires s.open == [k] && s.keeper == Some(k) && s.pages == map[] && s.used == {k} && k != b && spare !in {k, b}
    ensures var next := Step(s, "regular-keeper", Opened(spare, b)).0;
            && next.open == [k, b] && next.keeper == Some(k) && next.pages == map[b.targetId := b]
            && b in next.urls && next.urls[b] == KEEPER_TAB_URL && next.used == {k, b} && b.targetId in next.recordings
  {
  }

  /** When the keeper vanishes, establishing it again takes that tab, which closes like any other. */
  lemma TabBecomesKeeper(s: State, k: Page, b: Page, spare: Page)
    requires s.open == [k, b] && s.keeper == Some(k) && s.pages == map[b.targetId := b] && s.used == {k, b} && k != b
    requires b in s.urls && s.urls[b] == KEEPER_TAB_URL && b.targetId == "B" && b.targetId in s.recordings
    ensures var h := "regular-keeper";
            var gone := Step(s, h, PageVanished(k)).0;
            var next := Step(gone, h, EnsuredKeeper(spare)).0;
            && gone.used == s.used && next.keeper == Some(b)
            && Sane(next) && Step(next, h, ClosedTab("B")).1.outcome == Closed
  {
    assert s.open[1..] == [b];
    assert Without([b], k) == [b] + Without([], k) by { assert [b][1..] == []; }
    assert Without(s.open, k) == [] + Without(s.open[1..], k);
  }
}
