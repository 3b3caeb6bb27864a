/** The test harness's work queue: a fixed array that is filled, drained and only ever rewound by `clear`. */
module WorkQueue {

  /** A pointer to a work item; 0 is the null pointer. */
  type Item = nat

  /** What an item may do to the queue while it is being invoked. */
  datatype Action = Queue(item: Item) | SetFrozen(frozen: bool)

  /** One invocation: the actions taken, in order, and whether a load was started. */
  datatype Invocation = Invocation(actions: seq<Action>, startedLoad: bool)

  /** What the world does: the outcome of the first, second, third ... invocation. */
  type World = nat -> Invocation

  /** What the rest of the harness may do to the queue. */
  datatype Call = QueueItem(queued: Item) | DequeueItem | ClearQueue | Freeze(freeze: bool) | ProcessQueue(world: World)

  /** `Crashed` stands for a failed assertion. */
  datatype Outcome = Done | StartedLoad | Crashed

  const QUEUE_LENGTH := 1024

  // ----- The queue as a list, with a log of what happens to each item -----

  /** Refused, cleared and finished items are deleted; a handed-out item belongs to the caller of `dequeue`. */
  datatype Kind = Accepted | Refused | HandedOut | Invoked | Finished | Cleared

  datatype Event = Event(kind: Kind, item: Item)

  /** The pending items, how many more the array can take before it is cleared, and the log. */
  datatype State = State(pending: seq<Item>, room: nat, frozen: bool, log: seq<Event>)

  const EMPTY := State([], QUEUE_LENGTH, false, [])

  function Note(s: State, kind: Kind, item: Item): State {
    s.(log := s.log + [Event(kind, item)])
  }

  function AfterQueue(s: State, item: Item): (r: State)
    requires s.room > 0
    ensures |r.pending| + r.room == |s.pending| + s.room
  {
    if s.frozen then Note(s, Refused, item)
    else Note(s.(pending := s.pending + [item], room := s.room - 1), Accepted, item)
  }

  function AfterDequeue(s: State): State
    requires s.pending != []
  {
    s.(pending := s.pending[1..])
  }

  function Each(kind: Kind, items: seq<Item>): seq<Event> {
    seq(|items|, i requires 0 <= i < |items| => Event(kind, items[i]))
  }

  function AfterClear(s: State): State {
    State([], QUEUE_LENGTH, s.frozen, s.log + Each(Cleared, s.pending))
  }

  /** The actions of one invocation, up to the one for which there is no room. */
  function AfterActions(s: State, actions: seq<Action>): (r: (State, bool))
    ensures |r.0.pending| + r.0.room == |s.pending| + s.room
    decreases |actions|
  {
    if actions == [] then (s, false)
    else
      match actions[0]
      case Queue(item) => if s.room == 0 then (s, true) else AfterActions(AfterQueue(s, item), actions[1..])
      case SetFrozen(b) => AfterActions(s.(frozen := b), actions[1..])
  }

  /** The oldest item is taken and invoked, and deleted if the assertions hold. */
  function AfterInvocation(s: State, invocation: Invocation): (r: (State, bool))
    requires s.pending != []
    ensures |r.0.pending| + r.0.room == |s.pending| + s.room - 1
  {
    var item := s.pending[0];
    var (after, crashed) := AfterActions(Note(AfterDequeue(s), Invoked, item), invocation.actions);
    if crashed then (after, true) else (Note(after, Finished, item), false)
  }

  /** `processWork`, with the world's invocations from number `n` on. */
  function AfterProcess(s: State, world: World, n: nat): (State, Outcome)
    decreases |s.pending| + s.room
  {
    if s.pending == [] then (s, Done)
    else
      var (after, crashed) := AfterInvocation(s, world(n));
      if crashed then (after, Crashed)
      else if world(n).startedLoad then (after, StartedLoad)
      else AfterProcess(after, world, n + 1)
  }

  function AfterCall(s: State, call: Call): (State, bool) {
    match call
    case QueueItem(item) => if s.room == 0 then (s, true) else (AfterQueue(s, item), false)
    case DequeueItem => (if s.pending == [] then s else Note(AfterDequeue(s), HandedOut, s.pending[0]), false)
    case ClearQueue => (AfterClear(s), false)
    case Freeze(b) => (s.(frozen := b), false)
    case ProcessQueue(world) =>
      var (after, outcome) := AfterProcess(s, world, 0);
      (after, outcome == Crashed)
  }

  /** A run of calls, up to the first failed assertion. */
  function AfterCalls(s: State, calls: seq<Call>): (State, bool)
    decreases |calls|
  {
    if calls == [] then (s, false)
    else
      var (after, crashed) := AfterCall(s, calls[0]);
      if crashed then (after, true) else AfterCalls(after, calls[1..])
  }

  // ----- The program -----

  class WorkQueue {
    var theQueue: array<Item>
    var startOfQueue: nat
    var endOfQueue: nat
    var frozen: bool

    /** History. Each statement that accepts, hands out, invokes or deletes an item makes an entry. */
    ghost var log: seq<Event>

    ghost predicate Valid()
      reads this, theQueue
    {
      theQueue.Length == QUEUE_LENGTH && startOfQueue <= endOfQueue <= QUEUE_LENGTH
    }

    ghost function Pending(): seq<Item>
      requires Valid()
      reads this, theQueue
    {
      theQueue[startOfQueue..endOfQueue]
    }

    ghost function Abstract(): State
      requires Valid()
      reads this, theQueue
    {
      State(Pending(), QUEUE_LENGTH - endOfQueue, frozen, log)
    }

    constructor ()
      ensures Valid() && fresh(theQueue) && Abstract() == EMPTY
    {
      theQueue := new Item[QUEUE_LENGTH];
      startOfQueue, endOfQueue, frozen, log := 0, 0, false, [];
    }

    method Queue(item: Item)
      requires Valid() && endOfQueue < QUEUE_LENGTH
      modifies this, theQueue
      ensures Valid() && theQueue == old(theQueue) && startOfQueue == old(startOfQueue)
      ensures Abstract() == AfterQueue(old(Abstract()), item)
    {
      if frozen {
        log := log + [Event(Refused, item)];
        return;
      }
      ghost var pending := Pending();
      theQueue[endOfQueue] := item;
      endOfQueue := endOfQueue + 1;
      log := log + [Event(Accepted, item)];
      assert Pending() == pending + [item];
    }

    method Dequeue() returns (item: Item, found: bool)
      requires Valid()
      modifies this`startOfQueue
      ensures Valid()
      ensures found <==> old(Pending()) != []
      ensures if found then
                item == old(Pending())[0] && startOfQueue == old(startOfQueue) + 1 &&
                Abstract() == AfterDequeue(old(Abstract()))
              else Abstract() == old(Abstract())
    {
      if startOfQueue == endOfQueue {
        return 0, false;
      }
      ghost var pending := Pending();
      item, found := theQueue[startOfQueue], true;
      startOfQueue := startOfQueue + 1;
      assert Pending() == pending[1..];
    }

    method Count() returns (n: nat)
      requires Valid()
      ensures n == |Pending()|
    {
      n := endOfQueue - startOfQueue;
    }

    /** Deletes what is pending and makes all of the array available again. */
    method Clear()
      requires Valid()
      modifies this, theQueue
      ensures Valid() && theQueue == old(theQueue)
      ensures Abstract() == AfterClear(old(Abstract()))
    {
      hide Each;
      ghost var pending, before := Pending(), log;
      NoneYet(Cleared, pending, before);
      var i := startOfQueue;
      while i < endOfQueue
        invariant startOfQueue <= i <= endOfQueue
        invariant forall k :: i <= k < endOfQueue ==> theQueue[k] == pending[k - startOfQueue]
        invariant log == before + Each(Cleared, pending[..i - startOfQueue])
        modifies this`log, theQueue
      {
        OneMore(Cleared, pending, i - startOfQueue);
        log := log + [Event(Cleared, theQueue[i])];
        theQueue[i] := 0;
        i := i + 1;
      }
      assert pending[..i - startOfQueue] == pending;
      assert theQueue[0..0] == [];
      startOfQueue, endOfQueue := 0, 0;
    }

    /** What an item does while it is invoked. A full array makes the assertion in `queue` fail. */
    method Perform(actions: seq<Action>) returns (crashed: bool)
      requires Valid()
      modifies this, theQueue
      ensures Valid() && theQueue == old(theQueue) && startOfQueue == old(startOfQueue)
      ensures (Abstract(), crashed) == AfterActions(old(Abstract()), actions)
    {
      hide AfterQueue;
      ghost var goal := AfterActions(Abstract(), actions);
      var i := 0;
      while i < |actions|
        invariant 0 <= i <= |actions|
        invariant Valid() && theQueue == old(theQueue) && startOfQueue == old(startOfQueue)
        invariant goal == AfterActions(Abstract(), actions[i..])
      {
        assert actions[i..][1..] == actions[i + 1..];
        match actions[i] {
          case Queue(item) =>
            if endOfQueue >= QUEUE_LENGTH {
              return true;
            }
            Queue(item);
          case SetFrozen(b) =>
            frozen := b;
        }
        i := i + 1;
      }
      crashed := false;
    }

    /** It always ends: every round takes another slot of the array, and there are 1024. */
    method ProcessWork(world: World) returns (outcome: Outcome)
      requires Valid()
      modifies this, theQueue
      ensures Valid() && theQueue == old(theQueue)
      ensures (Abstract(), outcome) == AfterProcess(old(Abstract()), world, 0)
    {
      hide AfterInvocation;
      ghost var goal := AfterProcess(Abstract(), world, 0);
      var startedLoad := false;
      var round := 0;
      var count := Count();
      while !startedLoad && count > 0
        invariant Valid() && theQueue == old(theQueue) && count == |Pending()|
        invariant goal == if startedLoad then (Abstract(), StartedLoad) else AfterProcess(Abstract(), world, round)
        decreases QUEUE_LENGTH - startOfQueue
      {
        var crashed;
        crashed, startedLoad := InvokeNext(world(round));
        if crashed {
          return Crashed;
        }
        round := round + 1;
        count := Count();
      }
      outcome := if startedLoad then StartedLoad else Done;
    }

    /** One round of `processWork`. */
    method InvokeNext(invocation: Invocation) returns (crashed: bool, startedLoad: bool)
      requires Valid() && Pending() != []
      modifies this, theQueue
      ensures Valid() && theQueue == old(theQueue) && startOfQueue == old(startOfQueue) + 1 <= QUEUE_LENGTH
      ensures (Abstract(), crashed) == AfterInvocation(old(Abstract()), invocation)
      ensures startedLoad == invocation.startedLoad
    {
      hide AfterActions;
      var item, found := Dequeue();
      log := log + [Event(Invoked, item)];
      crashed := Perform(invocation.actions);
      startedLoad := invocation.startedLoad;
      if !crashed {
        log := log + [Event(Finished, item)];
      }
    }

    /** Any run, up to the first failed assertion. */
    method Run(calls: seq<Call>) returns (crashed: bool)
      requires Valid()
      modifies this, theQueue
      ensures Valid() && theQueue == old(theQueue)
      ensures (Abstract(), crashed) == AfterCalls(old(Abstract()), calls)
    {
      hide AfterCall;
      ghost var goal := AfterCalls(Abstract(), calls);
      var i := 0;
      while i < |calls|
        invariant 0 <= i <= |calls|
        invariant Valid() && theQueue == old(theQueue)
        invariant goal == AfterCalls(Abstract(), calls[i..])
      {
        assert calls[i..][1..] == calls[i + 1..];
        crashed := Make(calls[i]);
        if crashed {
          return;
        }
        i := i + 1;
      }
      crashed := false;
    }

    /** One call. Whoever calls `dequeue` owns the item from then on. */
    method Make(call: Call) returns (crashed: bool)
      requires Valid()
      modifies this, theQueue
      ensures Valid() && theQueue == old(theQueue)
      ensures (Abstract(), crashed) == AfterCall(old(Abstract()), call)
    {
      hide AfterQueue, AfterClear, AfterProcess;
      crashed := false;
      match call {
        case QueueItem(item) =>
          if endOfQueue >= QUEUE_LENGTH {
            return true;
          }
          Queue(item);
        case DequeueItem =>
          var item, found := Dequeue();
          if found {
            log := log + [Event(HandedOut, item)];
          }
        case ClearQueue =>
          Clear();
        case Freeze(b) =>
          frozen := b;
        case ProcessQueue(world) =>
          var outcome := ProcessWork(world);
          crashed := outcome == Crashed;
      }
    }
  }

  lemma NoneYet(kind: Kind, items: seq<Item>, log: seq<Event>)
    ensures log + Each(kind, items[..0]) == log
  {
  }

  lemma OneMore(kind: Kind, items: seq<Item>, i: nat)
    requires i < |items|
    ensures Each(kind, items[..i + 1]) == Each(kind, items[..i]) + [Event(kind, items[i])]
  {
  }

  // ----- Order and conservation, over every run -----

  /** The items of the log entries of some kinds, in order. */
  function Items(log: seq<Event>, kinds: set<Kind>): seq<Item> {
    if log == [] then []
    else
      var last := log[|log| - 1];
      Items(log[..|log| - 1], kinds) + if last.kind in kinds then [last.item] else []
  }

  /** How items leave the queue. */
  const DEPARTURES: set<Kind> := {HandedOut, Invoked, Cleared}

  /** How items are deleted. */
  const DELETIONS: set<Kind> := {Refused, Finished, Cleared}

  /**
   * First in, first out: the items accepted are those that have left, followed by those pending, in one
   * order. Every item invoked has been deleted afterwards, but for one that is still `running`.
   */
  ghost predicate Sound(s: State, running: seq<Item>) {
    && Items(s.log, {Accepted}) == Items(s.log, DEPARTURES) + s.pending
    && Items(s.log, {Invoked}) == Items(s.log, {Finished}) + running
  }

  lemma NoteItems(s: State, kind: Kind, item: Item, kinds: set<Kind>)
    ensures Items(Note(s, kind, item).log, kinds) == Items(s.log, kinds) + if kind in kinds then [item] else []
  {
    var log := Note(s, kind, item).log;
    assert log[..|log| - 1] == s.log;
  }

  lemma NoteAll(s: State, kind: Kind, item: Item)
    ensures forall kinds :: Items(Note(s, kind, item).log, kinds) == Items(s.log, kinds) + if kind in kinds then [item] else []
  {
    forall kinds
      ensures Items(Note(s, kind, item).log, kinds) == Items(s.log, kinds) + if kind in kinds then [item] else []
    {
      NoteItems(s, kind, item, kinds);
    }
  }

  lemma QueueIsSound(s: State, item: Item, running: seq<Item>)
    requires Sound(s, running) && s.room > 0
    ensures Sound(AfterQueue(s, item), running)
  {
    hide Items;
    if s.frozen {
      NoteAll(s, Refused, item);
    } else {
      NoteAll(s.(pending := s.pending + [item], room := s.room - 1), Accepted, item);
    }
  }

  /** An item leaves from the front. */
  lemma DepartureIsSound(s: State, kind: Kind)
    requires Sound(s, []) && s.pending != [] && kind in {HandedOut, Invoked}
    ensures Sound(Note(AfterDequeue(s), kind, s.pending[0]), if kind == Invoked then [s.pending[0]] else [])
  {
    hide Items;
    NoteAll(AfterDequeue(s), kind, s.pending[0]);
    assert s.pending == [s.pending[0]] + s.pending[1..];
  }

  lemma FinishIsSound(s: State, item: Item)
    requires Sound(s, [item])
    ensures Sound(Note(s, Finished, item), [])
  {
    hide Items;
    NoteAll(s, Finished, item);
  }

  lemma {:induction false} ActionsAreSound(s: State, actions: seq<Action>, running: seq<Item>)
    requires Sound(s, running)
    ensures Sound(AfterActions(s, actions).0, running)
    decreases |actions|
  {
    if actions != [] {
      match actions[0] {
        case Queue(item) =>
          if s.room > 0 {
            QueueIsSound(s, item, running);
            ActionsAreSound(AfterQueue(s, item), actions[1..], running);
          }
        case SetFrozen(b) =>
          ActionsAreSound(s.(frozen := b), actions[1..], running);
      }
    }
  }

  /** What is running when the run ends: nothing, or the item whose action failed an assertion. */
  lemma InvocationIsSound(s: State, invocation: Invocation) returns (running: seq<Item>)
    requires Sound(s, []) && s.pending != []
    ensures var (after, crashed) := AfterInvocation(s, invocation);
            Sound(after, running) && |running| == if crashed then 1 else 0
  {
    hide Sound, AfterActions;
    var item := s.pending[0];
    DepartureIsSound(s, Invoked);
    ActionsAreSound(Note(AfterDequeue(s), Invoked, item), invocation.actions, [item]);
    var (after, crashed) := AfterActions(Note(AfterDequeue(s), Invoked, item), invocation.actions);
    if crashed {
      running := [item];
    } else {
      FinishIsSound(after, item);
      running := [];
    }
  }

  lemma {:induction false} ProcessIsSound(s: State, world: World, n: nat) returns (running: seq<Item>)
    requires Sound(s, [])
    ensures var (after, outcome) := AfterProcess(s, world, n);
            Sound(after, running) && |running| == if outcome == Crashed then 1 else 0
    decreases |s.pending| + s.room
  {
    hide Sound, AfterInvocation;
    running := [];
    if s.pending != [] {
      running := InvocationIsSound(s, world(n));
      var (after, crashed) := AfterInvocation(s, world(n));
      if !crashed && !world(n).startedLoad {
        running := ProcessIsSound(after, world, n + 1);
      }
    }
  }

  lemma {:induction false} EachItems(log: seq<Event>, kind: Kind, items: seq<Item>, kinds: set<Kind>)
    ensures Items(log + Each(kind, items), kinds) == Items(log, kinds) + if kind in kinds then items else []
  {
    if items == [] {
      assert log + Each(kind, items) == log;
    } else {
      var n := |items| - 1;
      EachItems(log, kind, items[..n], kinds);
      OneMore(kind, items, n);
      assert items[..n + 1] == items && items == items[..n] + [items[n]];
      var longer := log + Each(kind, items);
      assert longer[..|longer| - 1] == log + Each(kind, items[..n]);
    }
  }

  lemma ClearIsSound(s: State)
    requires Sound(s, [])
    ensures Sound(AfterClear(s), [])
  {
    hide Items;
    EachItems(s.log, Cleared, s.pending, {Accepted});
    EachItems(s.log, Cleared, s.pending, DEPARTURES);
    EachItems(s.log, Cleared, s.pending, {Invoked});
    EachItems(s.log, Cleared, s.pending, {Finished});
  }

  lemma {:induction false} CallsAreSound(s: State, calls: seq<Call>) returns (running: seq<Item>)
    requires Sound(s, [])
    ensures var (after, crashed) := AfterCalls(s, calls);
            Sound(after, running) && |running| <= (if crashed then 1 else 0)
    decreases |calls|
  {
    running := [];
    if calls != [] {
      hide Items, AfterQueue, AfterClear, AfterProcess;
      match calls[0] {
        case QueueItem(item) =>
          if s.room > 0 {
            QueueIsSound(s, item, []);
          }
        case DequeueItem =>
          if s.pending != [] {
            DepartureIsSound(s, HandedOut);
          }
        case ClearQueue =>
          ClearIsSound(s);
        case Freeze(b) =>
        case ProcessQueue(world) =>
          running := ProcessIsSound(s, world, 0);
      }
      var (after, crashed) := AfterCall(s, calls[0]);
      if !crashed {
        running := CallsAreSound(after, calls[1..]);
      }
    }
  }

  /** `a` results from leaving elements out of `b`. */
  predicate IsSubsequence(a: seq<Item>, b: seq<Item>) {
    if a == [] then true
    else if b == [] then false
    else
      var m, n := |a| - 1, |b| - 1;
      (a[m] == b[n] && IsSubsequence(a[..m], b[..n])) || IsSubsequence(a, b[..n])
  }

  lemma {:induction false} SubsequenceOfMore(a: seq<Item>, b: seq<Item>, c: seq<Item>)
    requires IsSubsequence(a, b)
    ensures IsSubsequence(a, b + c)
    decreases |c|
  {
    if c == [] {
      assert b + c == b;
    } else {
      var n := |c| - 1;
      SubsequenceOfMore(a, b, c[..n]);
      assert (b + c)[..|b + c| - 1] == b + c[..n];
    }
  }

  lemma {:induction false} FewerKinds(log: seq<Event>, kinds: set<Kind>, more: set<Kind>)
    requires kinds <= more
    ensures IsSubsequence(Items(log, kinds), Items(log, more))
  {
    if log != [] {
      var n := |log| - 1;
      FewerKinds(log[..n], kinds, more);
      var a, b := Items(log[..n], kinds), Items(log[..n], more);
      var i := log[n].item;
      if log[n].kind in kinds {
        assert (a + [i])[..|a|] == a && (b + [i])[..|b|] == b;
      } else {
        assert Items(log, kinds) == a;
        SubsequenceOfMore(a, b, if log[n].kind in more then [i] else []);
      }
    }
  }

  lemma {:induction false} KindsAddUp(log: seq<Event>, a: set<Kind>, b: set<Kind>)
    requires a !! b
    ensures multiset(Items(log, a + b)) == multiset(Items(log, a)) + multiset(Items(log, b))
  {
    if log != [] {
      KindsAddUp(log[..|log| - 1], a, b);
    }
  }

  /**
   * Over every run, items are invoked in the order in which they were accepted, and every item that was ever
   * submitted is in exactly one place: pending, handed out, deleted, or running when an assertion failed.
   */
  lemma EveryRunIsFair(calls: seq<Call>) returns (running: seq<Item>)
    ensures var (after, crashed) := AfterCalls(EMPTY, calls);
            var log := after.log;
            |running| <= (if crashed then 1 else 0) &&
            Items(log, {Accepted}) == Items(log, DEPARTURES) + after.pending &&
            IsSubsequence(Items(log, {Invoked}), Items(log, {Accepted})) &&
            multiset(Items(log, {Accepted, Refused})) ==
            multiset(after.pending) + multiset(Items(log, {HandedOut})) + multiset(Items(log, DELETIONS)) + multiset(running)
  {
    hide Items, AfterCalls, IsSubsequence;
    EmptyIsSound();
    running := CallsAreSound(EMPTY, calls);
    var after := AfterCalls(EMPTY, calls).0;
    FewerKinds(after.log, {Invoked}, DEPARTURES);
    SubsequenceOfMore(Items(after.log, {Invoked}), Items(after.log, DEPARTURES), after.pending);
    Conservation(after, running);
  }

  lemma EmptyIsSound()
    ensures Sound(EMPTY, [])
  {
  }

  lemma Conservation(s: State, running: seq<Item>)
    requires Sound(s, running)
    ensures multiset(Items(s.log, {Accepted, Refused})) ==
            multiset(s.pending) + multiset(Items(s.log, {HandedOut})) + multiset(Items(s.log, DELETIONS)) + multiset(running)
  {
    hide Items;
    var log := s.log;
    KindsAddUp(log, {Accepted}, {Refused});
    KindsAddUp(log, {Invoked, Cleared}, {HandedOut});
    KindsAddUp(log, {Invoked}, {Cleared});
    KindsAddUp(log, {Refused, Finished}, {Cleared});
    KindsAddUp(log, {Refused}, {Finished});
    assert {Accepted} + {Refused} == {Accepted, Refused};
    assert {Invoked, Cleared} + {HandedOut} == DEPARTURES;
    assert {Invoked} + {Cleared} == {Invoked, Cleared};
    assert {Refused, Finished} + {Cleared} == DELETIONS;
    assert {Refused} + {Finished} == {Refused, Finished};
  }

  // ----- What `processWork` does -----

  /** The log of the first state goes on in the second; `kinds` of items came in, or went, meanwhile. */
  ghost predicate GoesOn(s: State, after: State, kinds: set<Kind>, items: seq<Item>) {
    Items(after.log, kinds) == Items(s.log, kinds) + items
  }

  /** None of the invocations from `n` up to `m` started a load. */
  ghost predicate Quiet(world: World, n: nat, m: nat) {
    forall k :: n <= k < m ==> !world(k).startedLoad
  }

  /**
   * The items that were pending, followed by those accepted meanwhile, are split in two: the first `count` have
   * been invoked, in that order, and the others are pending.
   */
  ghost predicate Split(s: State, after: State, count: nat, newItems: seq<Item>) {
    var all := s.pending + newItems;
    && GoesOn(s, after, {Accepted}, newItems)
    && count <= |all| && after.pending == all[count..]
    && GoesOn(s, after, {Invoked}, all[..count])
  }

  lemma {:induction false} ActionsAccept(s: State, actions: seq<Action>) returns (newItems: seq<Item>)
    ensures var after := AfterActions(s, actions).0;
            after.pending == s.pending + newItems &&
            GoesOn(s, after, {Accepted}, newItems) && GoesOn(s, after, {Invoked}, []) && GoesOn(s, after, {Finished}, [])
    ensures var (after, crashed) := AfterActions(s, actions); crashed ==> after.room == 0
    decreases |actions|
  {
    hide Items;
    newItems := [];
    if actions != [] {
      match actions[0] {
        case Queue(item) =>
          if s.room > 0 {
            var next := AfterQueue(s, item);
            if s.frozen {
              NoteAll(s, Refused, item);
            } else {
              NoteAll(s.(pending := s.pending + [item], room := s.room - 1), Accepted, item);
            }
            newItems := ActionsAccept(next, actions[1..]);
            if !s.frozen {
              newItems := [item] + newItems;
            }
          }
        case SetFrozen(b) =>
          newItems := ActionsAccept(s.(frozen := b), actions[1..]);
      }
    }
  }

  lemma InvocationSplits(s: State, invocation: Invocation) returns (newItems: seq<Item>)
    requires s.pending != []
    ensures var (after, crashed) := AfterInvocation(s, invocation);
            Split(s, after, 1, newItems) && (crashed ==> after.room == 0)
  {
    hide Items, AfterActions;
    var item := s.pending[0];
    var begun := Note(AfterDequeue(s), Invoked, item);
    NoteAll(AfterDequeue(s), Invoked, item);
    newItems := ActionsAccept(begun, invocation.actions);
    NoteAll(AfterActions(begun, invocation.actions).0, Finished, item);
    assert s.pending == [item] + s.pending[1..];
    assert (s.pending + newItems)[1..] == s.pending[1..] + newItems;
    assert (s.pending + newItems)[..1] == [item];
  }

  lemma SplitAgain(s: State, mid: State, after: State, count: nat, more: seq<Item>, newItems: seq<Item>)
    requires Split(s, mid, 1, more) && Split(mid, after, count, newItems)
    ensures Split(s, after, count + 1, more + newItems)
  {
    hide Items;
    var all, rest := s.pending + more, mid.pending + newItems;
    assert s.pending + (more + newItems) == all + newItems;
    assert all == all[..1] + mid.pending;
    assert all + newItems == all[..1] + rest;
    assert (all + newItems)[..count + 1] == all[..1] + rest[..count];
    assert (all + newItems)[count + 1..] == rest[count..];
  }

  /**
   * `processWork` invokes in the order of acceptance, items accepted on the way included. It stops right after
   * the first item that starts a load, and is done only with the queue drained; otherwise the array was full.
   */
  lemma {:induction false} ProcessInvokesInOrder(s: State, world: World, n: nat)
    returns (count: nat, newItems: seq<Item>)
    ensures var (after, outcome) := AfterProcess(s, world, n);
            Split(s, after, count, newItems) &&
            match outcome
            case Done => after.pending == [] && Quiet(world, n, n + count)
            case StartedLoad => count > 0 && Quiet(world, n, n + count - 1) && world(n + count - 1).startedLoad
            case Crashed => count > 0 && Quiet(world, n, n + count - 1) && after.room == 0
    decreases |s.pending| + s.room
  {
    hide Split, AfterInvocation;
    if s.pending == [] {
      count, newItems := 0, [];
      NothingSplits(s);
    } else {
      newItems := InvocationSplits(s, world(n));
      count := 1;
      var (after, crashed) := AfterInvocation(s, world(n));
      if !crashed && !world(n).startedLoad {
        var more;
        count, more := ProcessInvokesInOrder(after, world, n + 1);
        SplitAgain(s, after, AfterProcess(after, world, n + 1).0, count, newItems, more);
        count, newItems := count + 1, newItems + more;
      }
    }
  }

  lemma NothingSplits(s: State)
    ensures Split(s, s, 0, [])
  {
    hide Items;
  }
}
