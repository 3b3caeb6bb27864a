/** Which submissions a run accepts and which it refuses, told from the calls and the actions of the items alone. */
module WorkQueueLaws {
  import opened WorkQueue

  // ----- The actions of a run -----

  /** What the items do in `count` invocations, from number `n` on. */
  function ActionsOfSome(world: World, n: nat, count: nat): seq<Action> {
    if count == 0 then [] else ActionsOfSome(world, n, count - 1) + world(n + count - 1).actions
  }

  /** What a call does: itself, or through the items it invokes. */
  function ActionsOf(call: Call, count: nat): seq<Action> {
    match call
    case QueueItem(item) => [Queue(item)]
    case Freeze(b) => [SetFrozen(b)]
    case ProcessQueue(world) => ActionsOfSome(world, 0, count)
    case _ => []
  }

  function ActionsOfAll(calls: seq<Call>, counts: seq<nat>): seq<Action>
    requires |counts| == |calls|
    decreases |calls|
  {
    if calls == [] then [] else ActionsOf(calls[0], counts[0]) + ActionsOfAll(calls[1..], counts[1..])
  }

  function Total(counts: seq<nat>): nat {
    if counts == [] then 0 else counts[0] + Total(counts[1..])
  }

  /** Just before action `i` the queue is frozen: the last action to set it so has not been revoked. */
  predicate FrozenAt(actions: seq<Action>, i: nat, start: bool)
    requires i <= |actions|
  {
    || (start && forall k :: 0 <= k < i ==> actions[k] != SetFrozen(false))
    || exists j :: 0 <= j < i && actions[j] == SetFrozen(true) && forall k :: j < k < i ==> actions[k] != SetFrozen(false)
  }

  /** The items submitted while the queue is frozen, or while it is not, in order. */
  function SubmittedWhile(actions: seq<Action>, start: bool, frozen: bool): seq<Item> {
    if actions == [] then []
    else
      var n := |actions| - 1;
      SubmittedWhile(actions[..n], start, frozen) +
      if actions[n].Queue? && FrozenAt(actions, n, start) == frozen then [actions[n].item] else []
  }

  // ----- A stretch of a run follows its actions -----

  /** Between the two states just these actions have happened to the queue. */
  ghost predicate Follows(s: State, after: State, actions: seq<Action>) {
    && GoesOn(s, after, {Accepted}, SubmittedWhile(actions, s.frozen, false))
    && GoesOn(s, after, {Refused}, SubmittedWhile(actions, s.frozen, true))
    && after.frozen == FrozenAt(actions, |actions|, s.frozen)
  }

  lemma FrozenLater(a: seq<Action>, b: seq<Action>, i: nat, start: bool)
    requires i <= |b|
    ensures FrozenAt(a + b, |a| + i, start) <==> FrozenAt(b, i, FrozenAt(a, |a|, start))
  {
    var c := a + b;
    assert forall k :: 0 <= k < |a| ==> c[k] == a[k];
    assert forall k :: 0 <= k < |b| ==> c[|a| + k] == b[k];
    if FrozenAt(c, |a| + i, start) {
      FrozenLaterForth(a, b, i, start);
    }
    if FrozenAt(b, i, FrozenAt(a, |a|, start)) {
      FrozenLaterBack(a, b, i, start);
    }
  }

  lemma FrozenLaterForth(a: seq<Action>, b: seq<Action>, i: nat, start: bool)
    requires i <= |b| && FrozenAt(a + b, |a| + i, start)
    ensures FrozenAt(b, i, FrozenAt(a, |a|, start))
  {
    var c := a + b;
    assert forall k :: 0 <= k < |a| ==> c[k] == a[k];
    assert forall k :: 0 <= k < |b| ==> b[k] == c[|a| + k];
    if !(start && forall k :: 0 <= k < |a| + i ==> c[k] != SetFrozen(false)) {
      var j :| 0 <= j < |a| + i && c[j] == SetFrozen(true) && forall k :: j < k < |a| + i ==> c[k] != SetFrozen(false);
      if j >= |a| {
        assert b[j - |a|] == SetFrozen(true);
      }
    }
  }

  lemma FrozenLaterBack(a: seq<Action>, b: seq<Action>, i: nat, start: bool)
    requires i <= |b| && FrozenAt(b, i, FrozenAt(a, |a|, start))
    ensures FrozenAt(a + b, |a| + i, start)
  {
    var c := a + b;
    assert forall k :: 0 <= k < |a| ==> c[k] == a[k];
    assert forall k :: |a| <= k < |c| ==> c[k] == b[k - |a|];
    if j :| 0 <= j < i && b[j] == SetFrozen(true) && forall k :: j < k < i ==> b[k] != SetFrozen(false) {
      assert c[|a| + j] == SetFrozen(true);
    } else if !(start && forall k :: 0 <= k < |a| ==> a[k] != SetFrozen(false)) {
      var j :| 0 <= j < |a| && a[j] == SetFrozen(true) && forall k :: j < k < |a| ==> a[k] != SetFrozen(false);
      assert c[j] == SetFrozen(true);
    }
  }

  lemma FrozenInPrefix(a: seq<Action>, n: nat, i: nat, start: bool)
    requires i <= n <= |a|
    ensures FrozenAt(a[..n], i, start) <==> FrozenAt(a, i, start)
  {
    assert forall k :: 0 <= k < i ==> a[..n][k] == a[k];
  }

  lemma {:induction false} SubmittedLater(a: seq<Action>, b: seq<Action>, start: bool, frozen: bool)
    ensures SubmittedWhile(a + b, start, frozen) ==
            SubmittedWhile(a, start, frozen) + SubmittedWhile(b, FrozenAt(a, |a|, start), frozen)
    decreases |b|
  {
    hide FrozenAt;
    if b == [] {
      assert a + b == a;
    } else {
      var n := |b| - 1;
      var c := a + b;
      assert c[..|c| - 1] == a + b[..n];
      SubmittedLater(a, b[..n], start, frozen);
      FrozenLater(a, b, n, start);
    }
  }

  lemma FollowsOn(s: State, mid: State, after: State, a: seq<Action>, b: seq<Action>)
    requires Follows(s, mid, a) && Follows(mid, after, b)
    ensures Follows(s, after, a + b)
  {
    hide FrozenAt, SubmittedWhile, Items;
    SubmittedLater(a, b, s.frozen, false);
    SubmittedLater(a, b, s.frozen, true);
    FrozenLater(a, b, |b|, s.frozen);
  }

  lemma FollowsNothing(s: State, after: State)
    requires after.frozen == s.frozen
    requires GoesOn(s, after, {Accepted}, []) && GoesOn(s, after, {Refused}, [])
    ensures Follows(s, after, [])
  {
    hide Items;
  }

  lemma OneAction(action: Action, start: bool)
    ensures FrozenAt([action], 0, start) == start
    ensures FrozenAt([action], 1, start) == if action.SetFrozen? then action.frozen else start
    ensures forall frozen :: SubmittedWhile([action], start, frozen) ==
                             if action.Queue? && start == frozen then [action.item] else []
  {
    assert [action][0] == action;
    assert [action][..0] == [];
    if action == SetFrozen(false) || action == SetFrozen(true) {
      assert [action][0].SetFrozen?;
    }
  }

  /** An item is refused exactly if the queue is frozen. */
  lemma QueueFollows(s: State, item: Item)
    requires s.room > 0
    ensures Follows(s, AfterQueue(s, item), [Queue(item)])
  {
    hide FrozenAt, SubmittedWhile, Items;
    OneAction(Queue(item), s.frozen);
    if s.frozen {
      NoteAll(s, Refused, item);
    } else {
      NoteAll(s.(pending := s.pending + [item], room := s.room - 1), Accepted, item);
    }
  }

  lemma FreezeFollows(s: State, b: bool)
    ensures Follows(s, s.(frozen := b), [SetFrozen(b)])
  {
    hide FrozenAt, SubmittedWhile, Items;
    OneAction(SetFrozen(b), s.frozen);
  }

  /** The actions done, up to the one for which there is no room. */
  lemma {:induction false} ActionsFollow(s: State, actions: seq<Action>) returns (n: nat)
    ensures n <= |actions|
    ensures var (after, crashed) := AfterActions(s, actions);
            Follows(s, after, actions[..n]) && GoesOn(s, after, {Invoked}, []) && (!crashed ==> n == |actions|)
    decreases |actions|
  {
    hide Follows, Items, AfterQueue, FrozenAt, SubmittedWhile;
    if actions == [] || (actions[0].Queue? && s.room == 0) {
      n := 0;
      StandStill(s);
      assert actions[..0] == [];
    } else {
      var next := if actions[0].Queue? then AfterQueue(s, actions[0].item) else s.(frozen := actions[0].frozen);
      if actions[0].Queue? {
        QueueFollows(s, actions[0].item);
        QueueInvokesNothing(s, actions[0].item);
      } else {
        FreezeFollows(s, actions[0].frozen);
      }
      var m := ActionsFollow(next, actions[1..]);
      n := m + 1;
      FollowsOn(s, next, AfterActions(s, actions).0, [actions[0]], actions[1..][..m]);
      assert actions[..n] == [actions[0]] + actions[1..][..m];
    }
  }

  lemma StandStill(s: State)
    ensures Follows(s, s, []) && GoesOn(s, s, {Invoked}, [])
  {
    hide Items;
  }

  lemma QueueInvokesNothing(s: State, item: Item)
    requires s.room > 0
    ensures GoesOn(s, AfterQueue(s, item), {Invoked}, [])
  {
    hide Items;
    if s.frozen {
      NoteAll(s, Refused, item);
    } else {
      NoteAll(s.(pending := s.pending + [item], room := s.room - 1), Accepted, item);
    }
  }

  /** Other entries in the log are no submissions. */
  lemma NoteFollows(s: State, before: State, kind: Kind, item: Item)
    requires before.frozen == s.frozen && before.log == s.log && kind !in {Accepted, Refused}
    ensures Follows(s, Note(before, kind, item), [])
    ensures GoesOn(s, Note(before, kind, item), {Invoked}, if kind == Invoked then [item] else [])
  {
    hide Items;
    NoteAll(before, kind, item);
  }

  lemma InvocationFollows(s: State, invocation: Invocation) returns (n: nat)
    requires s.pending != []
    ensures n <= |invocation.actions|
    ensures var (after, crashed) := AfterInvocation(s, invocation);
            Follows(s, after, invocation.actions[..n]) && GoesOn(s, after, {Invoked}, [s.pending[0]]) &&
            (!crashed ==> n == |invocation.actions|)
  {
    hide Follows, Items, AfterActions;
    var item := s.pending[0];
    var begun := Note(AfterDequeue(s), Invoked, item);
    NoteFollows(s, AfterDequeue(s), Invoked, item);
    n := ActionsFollow(begun, invocation.actions);
    var (after, crashed) := AfterActions(begun, invocation.actions);
    var done := invocation.actions[..n];
    FollowsOn(s, begun, after, [], done);
    assert [] + done == done;
    if !crashed {
      NoteFollows(after, after, Finished, item);
      FollowsOn(s, after, Note(after, Finished, item), done, []);
      assert done + [] == done;
    }
  }

  lemma ActionsOfMore(world: World, n: nat, count: nat)
    ensures ActionsOfSome(world, n, count + 1) == world(n).actions + ActionsOfSome(world, n + 1, count)
    decreases count
  {
    if count == 0 {
      NothingAdded(world(n).actions);
    } else {
      ActionsOfMore(world, n, count - 1);
      Regroup(world(n).actions, ActionsOfSome(world, n + 1, count - 1), world(n + count).actions);
    }
  }

  lemma NothingAdded(a: seq<Action>)
    ensures [] + a == a == a + []
  {
  }

  lemma Regroup(a: seq<Action>, b: seq<Action>, c: seq<Action>)
    ensures (a + b) + c == a + (b + c)
  {
  }

  lemma {:induction false} ProcessFollows(s: State, world: World, n: nat) returns (count: nat, m: nat)
    ensures m <= |ActionsOfSome(world, n, count)|
    ensures var (after, outcome) := AfterProcess(s, world, n);
            Follows(s, after, ActionsOfSome(world, n, count)[..m]) &&
            |Items(after.log, {Invoked})| == |Items(s.log, {Invoked})| + count &&
            (outcome != Crashed ==> m == |ActionsOfSome(world, n, count)|)
    decreases |s.pending| + s.room
  {
    hide Follows, Items, AfterInvocation, ActionsOfSome;
    if s.pending == [] {
      count, m := 0, 0;
      NoActions(world, n);
      StandStill(s);
    } else {
      m := InvocationFollows(s, world(n));
      var (after, crashed) := AfterInvocation(s, world(n));
      NoActions(world, n + 1);
      ActionsOfMore(world, n, 0);
      count := 1;
      assert world(n).actions + [] == world(n).actions;
      if !crashed && !world(n).startedLoad {
        var more;
        count, more := ProcessFollows(after, world, n + 1);
        ActionsOfMore(world, n, count);
        var rest := ActionsOfSome(world, n + 1, count);
        FollowsOn(s, after, AfterProcess(after, world, n + 1).0, world(n).actions[..m], rest[..more]);
        assert (world(n).actions + rest)[..m + more] == world(n).actions[..m] + rest[..more];
        count, m := count + 1, m + more;
      }
    }
  }

  lemma NoActions(world: World, n: nat)
    ensures ActionsOfSome(world, n, 0) == [] && ActionsOfSome(world, n, 0)[..0] == []
  {
  }

  /** One call. The count is that of the items it invoked. */
  lemma CallFollows(s: State, call: Call) returns (count: nat, m: nat)
    ensures m <= |ActionsOf(call, count)|
    ensures var (after, crashed) := AfterCall(s, call);
            Follows(s, after, ActionsOf(call, count)[..m]) &&
            |Items(after.log, {Invoked})| == |Items(s.log, {Invoked})| + count &&
            (!crashed ==> m == |ActionsOf(call, count)|)
  {
    hide Follows, Items, AfterQueue, AfterClear, AfterProcess, ActionsOfSome;
    count, m := 0, 0;
    match call {
      case QueueItem(item) =>
        if s.room > 0 {
          m := 1;
          QueueFollows(s, item);
          QueueInvokesNothing(s, item);
          assert [Queue(item)][..1] == [Queue(item)];
        } else {
          StandStill(s);
          assert [Queue(item)][..0] == [];
        }
      case DequeueItem =>
        StandStill(s);
        if s.pending != [] {
          NoteFollows(s, AfterDequeue(s), HandedOut, s.pending[0]);
        }
      case ClearQueue =>
        ClearFollows(s);
      case Freeze(b) =>
        m := 1;
        FreezeFollows(s, b);
        assert [SetFrozen(b)][..1] == [SetFrozen(b)];
      case ProcessQueue(world) =>
        count, m := ProcessFollows(s, world, 0);
    }
  }

  lemma ClearFollows(s: State)
    ensures Follows(s, AfterClear(s), []) && GoesOn(s, AfterClear(s), {Invoked}, [])
  {
    hide Items;
    EachItems(s.log, Cleared, s.pending, {Accepted});
    EachItems(s.log, Cleared, s.pending, {Refused});
    EachItems(s.log, Cleared, s.pending, {Invoked});
  }

  lemma {:induction false} CallsFollow(s: State, calls: seq<Call>) returns (counts: seq<nat>, m: nat)
    ensures |counts| == |calls| && m <= |ActionsOfAll(calls, counts)|
    ensures var (after, crashed) := AfterCalls(s, calls);
            Follows(s, after, ActionsOfAll(calls, counts)[..m]) &&
            |Items(after.log, {Invoked})| == |Items(s.log, {Invoked})| + Total(counts) &&
            (!crashed ==> m == |ActionsOfAll(calls, counts)|)
    decreases |calls|
  {
    hide Follows, Items, AfterCall, ActionsOf;
    if calls == [] {
      counts, m := [], 0;
      StandStill(s);
    } else {
      var count;
      count, m := CallFollows(s, calls[0]);
      var first := ActionsOf(calls[0], count);
      var (after, crashed) := AfterCall(s, calls[0]);
      if crashed {
        var none := seq(|calls| - 1, i => 0);
        counts := [count] + none;
        assert counts[1..] == none;
        TotalOfNone(none);
        assert (first + ActionsOfAll(calls[1..], none))[..m] == first[..m];
      } else {
        var others, more;
        others, more := CallsFollow(after, calls[1..]);
        counts := [count] + others;
        assert counts[1..] == others;
        var rest := ActionsOfAll(calls[1..], others);
        FollowsOn(s, after, AfterCalls(after, calls[1..]).0, first[..m], rest[..more]);
        assert (first + rest)[..m + more] == first[..m] + rest[..more];
        m := m + more;
      }
    }
  }

  lemma {:induction false} TotalOfNone(counts: seq<nat>)
    requires forall i :: 0 <= i < |counts| ==> counts[i] == 0
    ensures Total(counts) == 0
  {
    if counts != [] {
      TotalOfNone(counts[1..]);
    }
  }

  // ----- What a run accepts -----

  /**
   * Over every run, the items accepted are those that the calls and the invoked items submit while the queue
   * is not frozen, in order, and the items refused are those submitted while it is frozen. If an
   * assertion fails, that holds of what was done before.
   */
  lemma EveryRunAccepts(calls: seq<Call>) returns (counts: seq<nat>, m: nat)
    ensures |counts| == |calls| && m <= |ActionsOfAll(calls, counts)|
    ensures var (after, crashed) := AfterCalls(EMPTY, calls);
            var done := ActionsOfAll(calls, counts)[..m];
            && Items(after.log, {Accepted}) == SubmittedWhile(done, false, false)
            && Items(after.log, {Refused}) == SubmittedWhile(done, false, true)
            && |Items(after.log, {Invoked})| == Total(counts)
            && (!crashed ==> m == |ActionsOfAll(calls, counts)|)
  {
    hide AfterCalls, ActionsOfAll, SubmittedWhile, Total;
    counts, m := CallsFollow(EMPTY, calls);
  }

  /** All items submitted, in order. */
  function Submissions(actions: seq<Action>): seq<Item> {
    if actions == [] then []
    else
      var n := |actions| - 1;
      Submissions(actions[..n]) + if actions[n].Queue? then [actions[n].item] else []
  }

  lemma {:induction false} NeverFrozen(actions: seq<Action>)
    requires SetFrozen(true) !in actions
    ensures SubmittedWhile(actions, false, false) == Submissions(actions)
    ensures SubmittedWhile(actions, false, true) == []
  {
    if actions != [] {
      NeverFrozen(actions[..|actions| - 1]);
      assert !FrozenAt(actions, |actions| - 1, false);
    }
  }

  lemma {:induction false} AlwaysFrozen(actions: seq<Action>)
    requires SetFrozen(false) !in actions
    ensures SubmittedWhile(actions, true, false) == []
    ensures SubmittedWhile(actions, true, true) == Submissions(actions)
  {
    if actions != [] {
      AlwaysFrozen(actions[..|actions| - 1]);
      assert FrozenAt(actions, |actions| - 1, true);
    }
  }

  /** Neither the calls nor any invocation they could lead to does this. */
  ghost predicate NoneDoes(calls: seq<Call>, b: bool) {
    forall i :: 0 <= i < |calls| ==>
      calls[i] != Freeze(b) &&
      (calls[i].ProcessQueue? ==> forall k: nat :: SetFrozen(b) !in calls[i].world(k).actions)
  }

  lemma {:induction false} NoneInSome(world: World, n: nat, count: nat, b: bool)
    requires forall k: nat :: SetFrozen(b) !in world(k).actions
    ensures SetFrozen(b) !in ActionsOfSome(world, n, count)
  {
    if count > 0 {
      NoneInSome(world, n, count - 1, b);
    }
  }

  lemma {:induction false} NoneInAll(calls: seq<Call>, counts: seq<nat>, b: bool)
    requires |counts| == |calls| && NoneDoes(calls, b)
    ensures SetFrozen(b) !in ActionsOfAll(calls, counts)
    decreases |calls|
  {
    if calls != [] {
      NoneInAll(calls[1..], counts[1..], b);
      if calls[0].ProcessQueue? {
        NoneInSome(calls[0].world, 0, counts[0], b);
      }
    }
  }

  /** Without freezing, every submission is accepted. */
  lemma UnfrozenAcceptsAll(s: State, calls: seq<Call>) returns (counts: seq<nat>, m: nat)
    requires !s.frozen && NoneDoes(calls, true)
    ensures |counts| == |calls| && m <= |ActionsOfAll(calls, counts)|
    ensures var (after, crashed) := AfterCalls(s, calls);
            && Items(after.log, {Refused}) == Items(s.log, {Refused})
            && Items(after.log, {Accepted}) == Items(s.log, {Accepted}) + Submissions(ActionsOfAll(calls, counts)[..m])
            && (!crashed ==> m == |ActionsOfAll(calls, counts)|)
  {
    hide AfterCalls, ActionsOfAll, SubmittedWhile, Submissions, Items, Total;
    counts, m := CallsFollow(s, calls);
    NoneInAll(calls, counts, true);
    NeverFrozen(ActionsOfAll(calls, counts)[..m]);
  }

  /** From `Freeze(true)` until it is lifted, every submission is refused. */
  lemma FrozenRefusesAll(s: State, calls: seq<Call>) returns (counts: seq<nat>, m: nat)
    requires s.frozen && NoneDoes(calls, false)
    ensures |counts| == |calls| && m <= |ActionsOfAll(calls, counts)|
    ensures var (after, crashed) := AfterCalls(s, calls);
            && Items(after.log, {Accepted}) == Items(s.log, {Accepted})
            && Items(after.log, {Refused}) == Items(s.log, {Refused}) + Submissions(ActionsOfAll(calls, counts)[..m])
            && (!crashed ==> m == |ActionsOfAll(calls, counts)|)
  {
    hide AfterCalls, ActionsOfAll, SubmittedWhile, Submissions, Items, Total;
    counts, m := CallsFollow(s, calls);
    NoneInAll(calls, counts, false);
    AlwaysFrozen(ActionsOfAll(calls, counts)[..m]);
  }

  // ----- How much it can take -----

  lemma {:induction false} QueueingFillsUp(s: State, calls: seq<Call>)
    requires !s.frozen && forall i :: 0 <= i < |calls| ==> calls[i].QueueItem?
    ensures AfterCalls(s, calls).1 <==> |calls| > s.room
    decreases |calls|
  {
    if calls != [] && s.room > 0 {
      QueueingFillsUp(AfterQueue(s, calls[0].queued), calls[1..]);
    }
  }

  /** An empty queue takes 1024 items and no more, and so it does again after every `clear`. */
  lemma TakesExactly1024(s: State, calls: seq<Call>)
    requires !s.frozen && forall i :: 0 <= i < |calls| ==> calls[i].QueueItem?
    ensures AfterCalls(EMPTY, calls).1 <==> |calls| > 1024
    ensures AfterCalls(s, [ClearQueue] + calls).1 <==> |calls| > 1024
  {
    QueueingFillsUp(EMPTY, calls);
    QueueingFillsUp(AfterClear(s), calls);
    assert ([ClearQueue] + calls)[1..] == calls;
  }

  /** `clear` deletes what is pending, in order; `dequeue` hands out the first. */
  lemma ClearAndDequeue(s: State)
    ensures var after := AfterCall(s, ClearQueue).0;
            after.pending == [] && GoesOn(s, after, {Cleared}, s.pending)
    ensures var after := AfterCall(s, DequeueItem).0;
            if s.pending == [] then after == s
            else after.pending == s.pending[1..] && GoesOn(s, after, {HandedOut}, [s.pending[0]])
  {
    hide Items;
    EachItems(s.log, Cleared, s.pending, {Cleared});
    if s.pending != [] {
      NoteAll(AfterDequeue(s), HandedOut, s.pending[0]);
    }
  }
}
