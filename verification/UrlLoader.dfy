/** The URL-list driver of the test browser, as a machine that reacts to frame and timer events. */
module UrlLoader {

  type Url = string

  /** Whether `QUrl` accepts a line of the list. */
  type Validity = Url -> bool

  /** What can happen while the list is being worked through. Timers fire only while they run. */
  datatype Event = LoadStarted(mainFrame: bool) | LoadFinished | CheckTimer | TimeoutTimer | ExtraTimeTimer

  /** The valid entries among the first `n` of the list, in order. */
  function ValidEntries(urls: seq<Url>, n: nat, isValid: Validity): (r: seq<Url>)
    requires n <= |urls|
    ensures |r| <= n
  {
    if n == 0 then []
    else ValidEntries(urls, n - 1, isValid) + (if isValid(urls[n - 1]) then [urls[n - 1]] else [])
  }

  // ----- The driver as a machine -----

  /** The list, and the two constructor arguments, of which only matters whether they are zero. */
  datatype Setup = Setup(urls: seq<Url>, isValid: Validity, hasTimeout: bool, hasExtraTime: bool)

  /** How much of the list has been used up, how many frames are loading, and which timers run. */
  datatype State = State(index: nat, loading: nat, timeout: bool, extraTime: bool, check: bool)

  /** The place of the first valid entry from `i` on, or the end of the list. */
  function NextValid(setup: Setup, i: nat): (r: nat)
    requires i <= |setup.urls|
    ensures i <= r <= |setup.urls|
    decreases |setup.urls| - i
  {
    if i == |setup.urls| || setup.isValid(setup.urls[i]) then i else NextValid(setup, i + 1)
  }

  function AfterLoadNext(setup: Setup, s: State): State
    requires s.index <= |setup.urls|
  {
    var next := NextValid(setup, s.index);
    State(if next < |setup.urls| then next + 1 else next, 0, false, false, false)
  }

  /** The event makes the driver report the page as finished ... */
  predicate Finishes(s: State, event: Event) {
    event.CheckTimer? && s.check && s.loading == 0
  }

  /** ... or go on to the next entry. */
  predicate GoesOn(setup: Setup, s: State, event: Event) {
    match event
    case CheckTimer => Finishes(s, event) && !setup.hasExtraTime
    case TimeoutTimer => s.timeout
    case ExtraTimeTimer => s.extraTime
    case _ => false
  }

  function AfterEvent(setup: Setup, s: State, event: Event): (r: State)
    requires s.index <= |setup.urls|
    ensures r.index <= |setup.urls|
  {
    if GoesOn(setup, s, event) then AfterLoadNext(setup, s)
    else
      match event
      case LoadStarted(mainFrame) =>
        s.(loading := s.loading + 1, check := false, timeout := s.timeout || (mainFrame && setup.hasTimeout))
      case LoadFinished => if s.loading > 0 then s.(loading := s.loading - 1, check := true) else s
      case CheckTimer => s.(check := false, extraTime := s.extraTime || Finishes(s, event))
      case _ => s
  }

  function AfterEvents(setup: Setup, s: State, events: seq<Event>): (r: State)
    requires s.index <= |setup.urls|
    ensures r.index <= |setup.urls|
    decreases |events|
  {
    if events == [] then s else AfterEvents(setup, AfterEvent(setup, s, events[0]), events[1..])
  }

  /** How often the events make the driver go on. */
  function TimesGoneOn(setup: Setup, s: State, events: seq<Event>): nat
    requires s.index <= |setup.urls|
    decreases |events|
  {
    if events == [] then 0
    else
      (if GoesOn(setup, s, events[0]) then 1 else 0) +
      TimesGoneOn(setup, AfterEvent(setup, s, events[0]), events[1..])
  }

  // ----- The program -----

  class UrlLoader {
    const setup: Setup

    var index: nat
    var loaded: nat
    var numFramesLoading: nat
    var timeoutRunning: bool
    var extraTimeRunning: bool
    var checkRunning: bool

    /** What the frame was asked to load, and how many frames were loading at each `pageLoadFinished`. */
    ghost var loads: seq<Url>
    ghost var finishes: seq<int>

    /** The URLs loaded are the valid entries of a prefix of the list, in order and once each. */
    ghost predicate Valid()
      reads this
    {
      && index <= |setup.urls|
      && loads == ValidEntries(setup.urls, index, setup.isValid)
      && loaded == |loads|
      && forall i :: 0 <= i < |finishes| ==> finishes[i] == 0
    }

    ghost function Abstract(): State
      reads this
    {
      State(index, numFramesLoading, timeoutRunning, extraTimeRunning, checkRunning)
    }

    constructor (setup: Setup)
      ensures Valid() && this.setup == setup && Abstract() == State(0, 0, false, false, false)
      ensures loads == [] && finishes == []
    {
      this.setup := setup;
      index, loaded, numFramesLoading := 0, 0, 0;
      timeoutRunning, extraTimeRunning, checkRunning := false, false, false;
      loads, finishes := [], [];
    }

    method GetUrl() returns (found: bool, url: Url)
      requires Valid()
      modifies this`index
      ensures found <==> old(index) < |setup.urls|
      ensures if found then url == setup.urls[old(index)] && index == old(index) + 1 else index == old(index)
    {
      if index == |setup.urls| {
        return false, "";
      }
      found, url := true, setup.urls[index];
      index := index + 1;
    }

    /** Asks for the next valid entry, passing over the invalid ones; asks for nothing once the list is used up. */
    method LoadNext()
      requires Valid()
      modifies this
      ensures Valid() && finishes == old(finishes)
      ensures Abstract() == AfterLoadNext(setup, old(Abstract()))
      ensures var next := NextValid(setup, old(index));
              loads == old(loads) + if next < |setup.urls| then [setup.urls[next]] else []
      decreases |setup.urls| - index
    {
      hide ValidEntries, NextValid;
      NextEntry(setup, index);
      timeoutRunning, extraTimeRunning, checkRunning := false, false, false;
      numFramesLoading := 0;
      var found, url := GetUrl();
      if found {
        if setup.isValid(url) {
          loaded := loaded + 1;
          loads := loads + [url];
        } else {
          LoadNext();
        }
      }
    }

    /** The signal `pageLoadFinished`: the next entry at once, or after the extra time. */
    method PageLoadFinished()
      requires Valid() && numFramesLoading == 0
      modifies this
      ensures Valid() && finishes == old(finishes) + [0]
      ensures Abstract() == if setup.hasExtraTime then old(Abstract()).(extraTime := true)
                            else AfterLoadNext(setup, old(Abstract()))
    {
      finishes := finishes + [numFramesLoading];
      if setup.hasExtraTime {
        extraTimeRunning := true;
      } else {
        LoadNext();
      }
    }

    method CheckIfFinished()
      requires Valid()
      modifies this
      ensures Valid() && finishes == old(finishes) + (if old(numFramesLoading) == 0 then [0] else [])
      ensures Abstract() == if old(numFramesLoading) > 0 then old(Abstract())
                            else if setup.hasExtraTime then old(Abstract()).(extraTime := true)
                            else AfterLoadNext(setup, old(Abstract()))
    {
      if numFramesLoading == 0 {
        PageLoadFinished();
      }
    }

    method FrameLoadStarted(mainFrame: bool)
      requires Valid()
      modifies this
      ensures Valid() && loads == old(loads) && finishes == old(finishes)
      ensures Abstract() == AfterEvent(setup, old(Abstract()), LoadStarted(mainFrame))
    {
      numFramesLoading := numFramesLoading + 1;
      checkRunning := false;
      if mainFrame && setup.hasTimeout {
        timeoutRunning := true;
      }
    }

    method FrameLoadFinished()
      requires Valid() && numFramesLoading > 0
      modifies this
      ensures Valid() && loads == old(loads) && finishes == old(finishes)
      ensures Abstract() == AfterEvent(setup, old(Abstract()), LoadFinished)
    {
      numFramesLoading := numFramesLoading - 1;
      checkRunning := true;
    }

    /** One event. A timer that is not running does not fire, and only a load that is counted can finish. */
    method React(event: Event)
      requires Valid()
      modifies this
      ensures Valid() && Abstract() == AfterEvent(setup, old(Abstract()), event)
      ensures finishes == old(finishes) + if Finishes(old(Abstract()), event) then [0] else []
    {
      match event {
        case LoadStarted(mainFrame) =>
          FrameLoadStarted(mainFrame);
        case LoadFinished =>
          if numFramesLoading > 0 {
            FrameLoadFinished();
          }
        case CheckTimer =>
          if checkRunning {
            checkRunning := false;
            CheckIfFinished();
          }
        case TimeoutTimer =>
          if timeoutRunning {
            LoadNext();
          }
        case ExtraTimeTimer =>
          if extraTimeRunning {
            LoadNext();
          }
      }
    }

    /** Any interleaving of events, from the first `loadNext` on. */
    method Run(events: seq<Event>)
      requires Valid()
      modifies this
      ensures Valid() && Abstract() == AfterEvents(setup, AfterLoadNext(setup, old(Abstract())), events)
    {
      hide AfterEvent, AfterLoadNext;
      LoadNext();
      ghost var goal := AfterEvents(setup, Abstract(), events);
      var i := 0;
      while i < |events|
        invariant 0 <= i <= |events|
        invariant Valid() && goal == AfterEvents(setup, Abstract(), events[i..])
      {
        assert events[i..][1..] == events[i + 1..];
        React(events[i]);
        i := i + 1;
      }
    }
  }

  // ----- What is loaded, over every run -----

  lemma NextEntry(setup: Setup, i: nat)
    requires i <= |setup.urls|
    ensures if i == |setup.urls| then NextValid(setup, i) == i
            else
              var url := setup.urls[i];
              NextValid(setup, i) == (if setup.isValid(url) then i else NextValid(setup, i + 1)) &&
              ValidEntries(setup.urls, i + 1, setup.isValid) ==
              ValidEntries(setup.urls, i, setup.isValid) + if setup.isValid(url) then [url] else []
  {
  }

  lemma {:induction false} NoneBefore(setup: Setup, i: nat)
    requires i <= |setup.urls|
    ensures forall j :: i <= j < NextValid(setup, i) ==> !setup.isValid(setup.urls[j])
    ensures NextValid(setup, i) < |setup.urls| ==> setup.isValid(setup.urls[NextValid(setup, i)])
    ensures ValidEntries(setup.urls, NextValid(setup, i), setup.isValid) == ValidEntries(setup.urls, i, setup.isValid)
    decreases |setup.urls| - i
  {
    if i < |setup.urls| && !setup.isValid(setup.urls[i]) {
      NoneBefore(setup, i + 1);
    }
  }

  function LoadedBy(setup: Setup, s: State): seq<Url>
    requires s.index <= |setup.urls|
  {
    ValidEntries(setup.urls, s.index, setup.isValid)
  }

  /** Going on adds the next valid entry, if there is one left; nothing else adds anything. */
  lemma EventLoadsNext(setup: Setup, s: State, event: Event)
    requires s.index <= |setup.urls|
    ensures var next := NextValid(setup, s.index);
            LoadedBy(setup, AfterEvent(setup, s, event)) ==
            LoadedBy(setup, s) + if GoesOn(setup, s, event) && next < |setup.urls| then [setup.urls[next]] else []
  {
    NoneBefore(setup, s.index);
  }

  lemma GoingOnLoadsOne(setup: Setup, s: State)
    requires s.index <= |setup.urls|
    ensures var all := |ValidEntries(setup.urls, |setup.urls|, setup.isValid)|;
            var n := |LoadedBy(setup, s)|;
            n <= all && |LoadedBy(setup, AfterLoadNext(setup, s))| == if n < all then n + 1 else all
  {
    var next, end := NextValid(setup, s.index), |setup.urls|;
    NoneBefore(setup, s.index);
    if next < end {
      assert ValidEntries(setup.urls, next + 1, setup.isValid) ==
             ValidEntries(setup.urls, next, setup.isValid) + [setup.urls[next]];
      ValidEntriesGrow(setup.urls, next + 1, end, setup.isValid);
    }
  }

  /** Over every interleaving, one more entry has been loaded each time the driver went on, until none were left. */
  lemma {:induction false} RunLoadsOneEachTime(setup: Setup, s: State, events: seq<Event>)
    requires s.index <= |setup.urls|
    ensures var all := |ValidEntries(setup.urls, |setup.urls|, setup.isValid)|;
            var n := |LoadedBy(setup, s)| + TimesGoneOn(setup, s, events);
            |LoadedBy(setup, AfterEvents(setup, s, events))| == if n < all then n else all
    decreases |events|
  {
    hide AfterLoadNext, LoadedBy;
    GoingOnLoadsOne(setup, s);
    if events != [] {
      SameWithoutGoingOn(setup, s, events[0]);
      RunLoadsOneEachTime(setup, AfterEvent(setup, s, events[0]), events[1..]);
    }
  }

  lemma SameWithoutGoingOn(setup: Setup, s: State, event: Event)
    requires s.index <= |setup.urls|
    ensures if GoesOn(setup, s, event) then AfterEvent(setup, s, event) == AfterLoadNext(setup, s)
            else LoadedBy(setup, AfterEvent(setup, s, event)) == LoadedBy(setup, s)
  {
  }

  // ----- The state, told from the events since the page was asked for -----

  function Started(page: seq<Event>): nat {
    if page == [] then 0 else Started(page[..|page| - 1]) + if page[|page| - 1].LoadStarted? then 1 else 0
  }

  function Ended(page: seq<Event>): nat {
    if page == [] then 0 else Ended(page[..|page| - 1]) + if page[|page| - 1].LoadFinished? then 1 else 0
  }

  /** Only loads that have started finish. */
  predicate Paired(page: seq<Event>) {
    forall i :: 0 <= i <= |page| ==> Ended(page[..i]) <= Started(page[..i])
  }

  /** The check timer runs: a load has finished, and since then none has started and the timer has not fired. */
  predicate Armed(page: seq<Event>) {
    exists j :: 0 <= j < |page| && page[j].LoadFinished? &&
      forall k :: j < k < |page| ==> !page[k].LoadStarted? && !page[k].CheckTimer?
  }

  /** The check timer has fired, while it ran, with every load finished that had started. */
  predicate FinishedBy(page: seq<Event>, j: nat)
    requires j < |page|
  {
    page[j].CheckTimer? && Armed(page[..j]) && Started(page[..j]) == Ended(page[..j])
  }

  predicate HasFinished(page: seq<Event>) {
    exists j :: 0 <= j < |page| && FinishedBy(page, j)
  }

  /** What makes the driver go on after a page. */
  predicate Leaves(setup: Setup, page: seq<Event>, event: Event) {
    match event
    case TimeoutTimer => setup.hasTimeout && LoadStarted(true) in page
    case ExtraTimeTimer => setup.hasExtraTime && HasFinished(page)
    case CheckTimer => !setup.hasExtraTime && Armed(page) && Started(page) == Ended(page)
    case _ => false
  }

  lemma {:induction false} OneMoreEvent(setup: Setup, s: State, events: seq<Event>, event: Event)
    requires s.index <= |setup.urls|
    ensures AfterEvents(setup, s, events + [event]) == AfterEvent(setup, AfterEvents(setup, s, events), event)
    ensures TimesGoneOn(setup, s, events + [event]) ==
            TimesGoneOn(setup, s, events) + if GoesOn(setup, AfterEvents(setup, s, events), event) then 1 else 0
    decreases |events|
  {
    hide AfterEvent, GoesOn;
    var more := events + [event];
    if events == [] {
      assert more[1..] == [];
    } else {
      assert more[1..] == events[1..] + [event];
      OneMoreEvent(setup, AfterEvent(setup, s, events[0]), events[1..], event);
    }
  }

  lemma OneMoreInPage(page: seq<Event>, event: Event)
    ensures Started(page + [event]) == Started(page) + if event.LoadStarted? then 1 else 0
    ensures Ended(page + [event]) == Ended(page) + if event.LoadFinished? then 1 else 0
    ensures Armed(page + [event]) <==>
            event.LoadFinished? || (Armed(page) && !event.LoadStarted? && !event.CheckTimer?)
  {
    var more := page + [event];
    assert more[..|more| - 1] == page;
    assert forall k :: 0 <= k < |page| ==> more[k] == page[k];
    if event.LoadFinished? {
      assert more[|page|].LoadFinished?;
    }
    if Armed(page) && !event.LoadStarted? && !event.CheckTimer? {
      var j :| 0 <= j < |page| && page[j].LoadFinished? &&
               forall k :: j < k < |page| ==> !page[k].LoadStarted? && !page[k].CheckTimer?;
      assert more[j].LoadFinished?;
    }
    if Armed(more) {
      var j :| 0 <= j < |more| && more[j].LoadFinished? &&
               forall k :: j < k < |more| ==> !more[k].LoadStarted? && !more[k].CheckTimer?;
      assert j < |page| ==> page[j].LoadFinished? && !more[|page|].LoadStarted? && !more[|page|].CheckTimer?;
    }
  }

  lemma FinishedInMore(page: seq<Event>, event: Event)
    ensures HasFinished(page + [event]) <==>
            HasFinished(page) || (event.CheckTimer? && Armed(page) && Started(page) == Ended(page))
  {
    hide Armed, Started, Ended;
    var more := page + [event];
    forall j | 0 <= j < |page| ensures FinishedBy(more, j) <==> FinishedBy(page, j) {
      assert more[..j] == page[..j] && more[j] == page[j];
    }
    assert more[..|page|] == page;
    assert FinishedBy(more, |page|) <==> event.CheckTimer? && Armed(page) && Started(page) == Ended(page);
  }

  lemma PairedBefore(page: seq<Event>, event: Event)
    requires Paired(page + [event])
    ensures Paired(page) && Ended(page + [event]) <= Started(page + [event])
  {
    hide Started, Ended;
    var more := page + [event];
    forall i | 0 <= i <= |page| ensures Ended(page[..i]) <= Started(page[..i]) {
      assert more[..i] == page[..i];
    }
    assert more[..|more|] == more;
  }

  /** The state while a page is being loaded, in terms of what has happened since it was asked for. */
  ghost predicate TellsState(setup: Setup, index: nat, page: seq<Event>, s: State) {
    && s.index == index
    && s.loading == Started(page) - Ended(page)
    && (s.timeout <==> setup.hasTimeout && LoadStarted(true) in page)
    && (s.check <==> Armed(page))
    && (s.extraTime <==> setup.hasExtraTime && HasFinished(page))
  }

  lemma TellsMore(setup: Setup, index: nat, page: seq<Event>, s: State, event: Event)
    requires TellsState(setup, index, page, s) && Paired(page + [event]) && index <= |setup.urls|
    ensures GoesOn(setup, s, event) <==> Leaves(setup, page, event)
    ensures !GoesOn(setup, s, event) ==> TellsState(setup, index, page + [event], AfterEvent(setup, s, event))
  {
    hide Armed, Started, Ended, HasFinished, Paired;
    PairedBefore(page, event);
    OneMoreInPage(page, event);
    FinishedInMore(page, event);
  }

  /** As long as the driver does not go on, the events since the page was asked for tell its state. */
  lemma {:induction false} PageTellsState(setup: Setup, index: nat, page: seq<Event>)
    requires index <= |setup.urls| && Paired(page)
    requires TimesGoneOn(setup, State(index, 0, false, false, false), page) == 0
    ensures TellsState(setup, index, page, AfterEvents(setup, State(index, 0, false, false, false), page))
    decreases |page|
  {
    var s := State(index, 0, false, false, false);
    if page == [] {
      NothingToTell(setup, index);
    } else {
      hide TellsState, Paired, AfterEvents, TimesGoneOn, AfterEvent, GoesOn;
      var before, event := page[..|page| - 1], page[|page| - 1];
      assert page == before + [event];
      OneMoreEvent(setup, s, before, event);
      PairedBefore(before, event);
      PageTellsState(setup, index, before);
      TellsMore(setup, index, before, AfterEvents(setup, s, before), event);
    }
  }

  lemma NothingToTell(setup: Setup, index: nat)
    ensures TellsState(setup, index, [], State(index, 0, false, false, false))
  {
  }

  /**
   * What ends a page: its time-out, if the main frame has started to load; or else the check timer, once all
   * loads have finished, and where there is extra time to wait, the timer for that. Then the next page begins.
   */
  lemma PageEndsIff(setup: Setup, index: nat, page: seq<Event>, event: Event)
    requires index <= |setup.urls| && Paired(page + [event])
    requires TimesGoneOn(setup, State(index, 0, false, false, false), page) == 0
    ensures var s := AfterEvents(setup, State(index, 0, false, false, false), page);
            && (GoesOn(setup, s, event) <==> Leaves(setup, page, event))
            && (Leaves(setup, page, event) ==>
                  var next := NextValid(setup, index);
                  AfterEvent(setup, s, event) ==
                  State(if next < |setup.urls| then next + 1 else next, 0, false, false, false))
  {
    hide Leaves, AfterEvents, TimesGoneOn, NextValid, Paired, TellsState, GoesOn;
    PairedBefore(page, event);
    PageTellsState(setup, index, page);
    var s := AfterEvents(setup, State(index, 0, false, false, false), page);
    TellsMore(setup, index, page, s, event);
    TellsIndex(setup, index, page, s);
  }

  lemma TellsIndex(setup: Setup, index: nat, page: seq<Event>, s: State)
    requires TellsState(setup, index, page, s)
    ensures s.index == index
  {
  }

  /** No entry is loaded twice or out of order: a longer prefix of the list only adds to what was loaded. */
  lemma {:induction false} ValidEntriesGrow(urls: seq<Url>, m: nat, n: nat, isValid: Validity)
    requires m <= n <= |urls|
    ensures ValidEntries(urls, m, isValid) <= ValidEntries(urls, n, isValid)
    decreases n
  {
    if m < n {
      ValidEntriesGrow(urls, m, n - 1, isValid);
    }
  }

  /** In the end, all the valid entries have been loaded, and nothing else. */
  lemma {:induction false} AllValidEntries(urls: seq<Url>, n: nat, isValid: Validity, url: Url)
    requires n <= |urls|
    ensures url in ValidEntries(urls, n, isValid) <==> isValid(url) && url in urls[..n]
  {
    if n > 0 {
      AllValidEntries(urls, n - 1, isValid, url);
      assert urls[..n] == urls[..n - 1] + [urls[n - 1]];
    }
  }
}
