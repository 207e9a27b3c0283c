// Every run of the element-token store, compared with an unbounded record of the same run.
module TokenRuns {
  import opened Wrappers
  import opened ElementTokens

  /** One call of the registry, by its effect on the stored state. */
  datatype Event =
    | Saved(scope: string, pid: int, snapshot: Snapshot)
    | Unsaved      // the new state could not be written
    | Unreadable   // the stored state was lost or refused when it was loaded

  function LanesAfter(events: seq<Event>): seq<Lane> {
    if events == [] then []
    else
      var before := LanesAfter(events[..|events| - 1]);
      match events[|events| - 1]
      case Saved(scope, pid, snapshot) => Registered(before, scope, pid, snapshot)
      case Unsaved => before
      case Unreadable => []
  }

  /** Every id that was saved was fresh when it was drawn. */
  ghost predicate ValidRun(events: seq<Event>) {
    forall i | 0 <= i < |events| && events[i].Saved? :: !Live(LanesAfter(events[..i]), events[i].snapshot.id)
  }

  predicate Concerns(event: Event, scope: string, pid: int) {
    event.Saved? && event.scope == scope && event.pid == pid
  }

  /** The lane as it would be without any cap or loss. */
  function Latest(events: seq<Event>, scope: string, pid: int): seq<Snapshot> {
    if events == [] then []
    else
      var before := Latest(events[..|events| - 1], scope, pid);
      var last := events[|events| - 1];
      if Concerns(last, scope, pid) then WithoutWindow(before, last.snapshot.window) + [last.snapshot] else before
  }

  // ---------------------------------------------------------------- what the unbounded lane lists

  /** Registered for this lane, and not superseded by a later registration of the same window. */
  predicate Current(events: seq<Event>, i: nat, scope: string, pid: int)
    requires i < |events|
  {
    && Concerns(events[i], scope, pid)
    && forall j | i < j < |events| ::
         Concerns(events[j], scope, pid) ==> events[j].snapshot.window != events[i].snapshot.window
  }

  function CurrentUpTo(events: seq<Event>, n: nat, scope: string, pid: int): seq<Snapshot>
    requires n <= |events|
  {
    if n == 0 then []
    else
      var before := CurrentUpTo(events, n - 1, scope, pid);
      if Current(events, n - 1, scope, pid) then before + [events[n - 1].snapshot] else before
  }

  lemma WithoutWindowPush(snapshots: seq<Snapshot>, last: Snapshot, window: nat)
    ensures WithoutWindow(snapshots + [last], window)
         == WithoutWindow(snapshots, window) + (if last.window == window then [] else [last])
  {
    assert (snapshots + [last])[..|snapshots|] == snapshots;
  }

  lemma {:induction false} CurrentStep(events: seq<Event>, event: Event, n: nat, scope: string, pid: int)
    requires n <= |events|
    ensures var before := CurrentUpTo(events, n, scope, pid);
      CurrentUpTo(events + [event], n, scope, pid)
        == if Concerns(event, scope, pid) then WithoutWindow(before, event.snapshot.window) else before
  {
    if n > 0 {
      var all := events + [event];
      CurrentStep(events, event, n - 1, scope, pid);
      assert all[n - 1] == events[n - 1];
      assert all[|events|] == event;
      assert forall j | n - 1 < j < |events| :: all[j] == events[j];
      assert Current(all, n - 1, scope, pid) ==
        (Current(events, n - 1, scope, pid) &&
         !(Concerns(event, scope, pid) && event.snapshot.window == events[n - 1].snapshot.window));
      var before := CurrentUpTo(events, n - 1, scope, pid);
      if Current(events, n - 1, scope, pid) && Concerns(event, scope, pid) {
        WithoutWindowPush(before, events[n - 1].snapshot, event.snapshot.window);
      }
    }
  }

  /** The unbounded lane holds exactly the latest registration of each window, in registration order. */
  lemma {:induction false} LatestIsCurrent(events: seq<Event>, scope: string, pid: int)
    ensures Latest(events, scope, pid) == CurrentUpTo(events, |events|, scope, pid)
  {
    if events != [] {
      var front, last := events[..|events| - 1], events[|events| - 1];
      LatestIsCurrent(front, scope, pid);
      CurrentStep(front, last, |front|, scope, pid);
      assert front + [last] == events;
    }
  }

  // ---------------------------------------------------------------- lanes are suffixes

  ghost predicate DistinctLanes(lanes: seq<Lane>) {
    forall i, j | 0 <= i < j < |lanes| :: !lanes[j].For(lanes[i].scope, lanes[i].pid)
  }

  lemma SnapshotsAt(lanes: seq<Lane>, i: nat, scope: string, pid: int)
    requires DistinctLanes(lanes) && i < |lanes| && lanes[i].For(scope, pid)
    ensures LaneSnapshots(lanes, scope, pid) == lanes[i].snapshots
  {
    hide LaneIndex;
    var at := LaneIndex(lanes, scope, pid);
    assert at == i;
  }

  lemma FrontCutSnapshots(lanes: seq<Lane>, after: seq<Lane>, scope: string, pid: int)
    requires DistinctLanes(lanes) && FrontCut(lanes, after)
    ensures DistinctLanes(after)
    ensures SuffixOf(LaneSnapshots(after, scope, pid), LaneSnapshots(lanes, scope, pid))
  {
    hide LaneIndex;
    var cut := |lanes| - |after|;
    forall i, j | 0 <= i < j < |after| ensures !after[j].For(after[i].scope, after[i].pid) {
      assert !lanes[cut + j].For(lanes[cut + i].scope, lanes[cut + i].pid);
    }
    var at := LaneIndex(after, scope, pid);
    if at < |after| {
      SnapshotsAt(lanes, cut + at, scope, pid);
    }
  }

  lemma PushedSnapshots(lanes: seq<Lane>, scope: string, pid: int, snapshot: Snapshot, scope2: string, pid2: int)
    requires DistinctLanes(lanes)
    ensures var extended := ExtendedLane(lanes, scope, pid, snapshot);
      var pushed := OtherLanes(lanes, scope, pid) + [extended];
      && DistinctLanes(pushed)
      && LaneSnapshots(pushed, scope2, pid2) ==
           if scope == scope2 && pid == pid2 then extended.snapshots else LaneSnapshots(lanes, scope2, pid2)
  {
    hide LaneIndex, WithoutWindow, Newest;
    var others, extended := OtherLanes(lanes, scope, pid), ExtendedLane(lanes, scope, pid, snapshot);
    var pushed := others + [extended];
    var at := LaneIndex(lanes, scope, pid);
    assert forall i | 0 <= i < |others| :: others[i] == lanes[if i < at then i else i + 1];
    assert forall i | 0 <= i < |others| :: !others[i].For(scope, pid);
    assert DistinctLanes(pushed);
    var at2 := LaneIndex(lanes, scope2, pid2);
    if scope == scope2 && pid == pid2 {
      SnapshotsAt(pushed, |others|, scope, pid);
    } else if at2 < |lanes| {
      var moved := if at2 < at then at2 else at2 - 1;
      assert pushed[moved] == lanes[at2];
      SnapshotsAt(pushed, moved, scope2, pid2);
    } else {
      assert forall i | 0 <= i < |pushed| :: !pushed[i].For(scope2, pid2);
    }
  }

  lemma {:induction false} WithoutWindowSuffix(tail: seq<Snapshot>, whole: seq<Snapshot>, window: nat)
    requires SuffixOf(tail, whole)
    ensures SuffixOf(WithoutWindow(tail, window), WithoutWindow(whole, window))
  {
    if tail != [] {
      var last := tail[|tail| - 1];
      WithoutWindowSuffix(tail[..|tail| - 1], whole[..|whole| - 1], window);
    }
  }

  lemma SuffixThen<T>(a: seq<T>, b: seq<T>, c: seq<T>)
    requires SuffixOf(a, b) && SuffixOf(b, c)
    ensures SuffixOf(a, c)
  {
  }

  /** One registration: what a lane becomes is a suffix of what it would be without caps. */
  lemma RegisteredSuffix(lanes: seq<Lane>, scope: string, pid: int, snapshot: Snapshot, scope2: string, pid2: int)
    requires DistinctLanes(lanes)
    ensures var after := Registered(lanes, scope, pid, snapshot);
      var held := LaneSnapshots(lanes, scope2, pid2);
      && DistinctLanes(after)
      && SuffixOf(LaneSnapshots(after, scope2, pid2),
                  if scope == scope2 && pid == pid2 then WithoutWindow(held, snapshot.window) + [snapshot] else held)
  {
    hide LaneIndex, WithoutWindow, LaneSnapshots, OtherLanes, DistinctLanes, FrontCut;
    var pushed := OtherLanes(lanes, scope, pid) + [ExtendedLane(lanes, scope, pid, snapshot)];
    var after := Registered(lanes, scope, pid, snapshot);
    PushedSnapshots(lanes, scope, pid, snapshot, scope2, pid2);
    RegisteredCuts(lanes, scope, pid, snapshot);
    FrontCutSnapshots(pushed, after, scope2, pid2);
    if scope == scope2 && pid == pid2 {
      SuffixThen(LaneSnapshots(after, scope2, pid2), LaneSnapshots(pushed, scope2, pid2),
                 WithoutWindow(LaneSnapshots(lanes, scope2, pid2), snapshot.window) + [snapshot]);
    }
  }

  /** In every run each lane is a suffix of the unbounded lane, and the state can always be loaded again. */
  lemma {:induction false} RunInvariant(events: seq<Event>, scope: string, pid: int)
    requires ValidRun(events)
    ensures var lanes := LanesAfter(events);
      && SuffixOf(LaneSnapshots(lanes, scope, pid), Latest(events, scope, pid))
      && DistinctLanes(lanes) && UniqueIds(lanes) && LoadAccepts(TOKEN_STATE_SCHEMA, lanes)
  {
    hide WithoutWindow, LaneSnapshots, Registered, DistinctLanes, WithinCaps, SuffixOf, UniqueIds, Live;
    if events == [] {
      NothingStored(scope, pid, Latest(events, scope, pid));
    } else {
      var front, last := events[..|events| - 1], events[|events| - 1];
      assert forall i | 0 <= i < |front| :: front[..i] == events[..i];
      RunInvariant(front, scope, pid);
      match last {
        case Unsaved =>
        case Unreadable =>
          NothingStored(scope, pid, Latest(events, scope, pid));
        case Saved(scope2, pid2, snapshot) =>
          var before := LanesAfter(front);
          RegisteredSuffix(before, scope2, pid2, snapshot, scope, pid);
          RegisterKeepsUnique(before, scope2, pid2, snapshot);
          RegisterStaysLoadable(before, scope2, pid2, snapshot);
          SuffixPushed(LaneSnapshots(before, scope, pid), Latest(front, scope, pid), snapshot);
          var pushed := if Concerns(last, scope, pid)
            then WithoutWindow(LaneSnapshots(before, scope, pid), snapshot.window) + [snapshot]
            else LaneSnapshots(before, scope, pid);
          SuffixThen(LaneSnapshots(LanesAfter(events), scope, pid), pushed, Latest(events, scope, pid));
      }
    }
  }

  lemma SuffixPushed(tail: seq<Snapshot>, whole: seq<Snapshot>, snapshot: Snapshot)
    requires SuffixOf(tail, whole)
    ensures SuffixOf(WithoutWindow(tail, snapshot.window) + [snapshot], WithoutWindow(whole, snapshot.window) + [snapshot])
  {
    hide WithoutWindow;
    WithoutWindowSuffix(tail, whole, snapshot.window);
  }

  lemma NothingStored(scope: string, pid: int, whole: seq<Snapshot>)
    ensures SuffixOf(LaneSnapshots([], scope, pid), whole)
    ensures DistinctLanes([]) && UniqueIds([]) && LoadAccepts(TOKEN_STATE_SCHEMA, [])
  {
  }

  // ---------------------------------------------------------------- resolution

  /** The newest snapshot with an id. */
  function LastWithId(snapshots: seq<Snapshot>, id: nat): Option<Snapshot> {
    if snapshots == [] then None
    else if snapshots[|snapshots| - 1].id == id then Some(snapshots[|snapshots| - 1])
    else LastWithId(snapshots[..|snapshots| - 1], id)
  }

  lemma {:induction false} LastOfSuffix(tail: seq<Snapshot>, whole: seq<Snapshot>, id: nat)
    requires SuffixOf(tail, whole)
    ensures LastWithId(tail, id).Some? ==> LastWithId(whole, id) == LastWithId(tail, id)
  {
    if tail != [] && tail[|tail| - 1].id != id {
      LastOfSuffix(tail[..|tail| - 1], whole[..|whole| - 1], id);
    }
  }

  lemma {:induction false} LaneIds(lanes: seq<Lane>, scope: string, pid: int)
    ensures SnapshotIds(LaneSnapshots(lanes, scope, pid)) <= LiveIds(lanes)
  {
    OtherLanesIds(lanes, scope, pid);
  }

  /** With unique ids the first snapshot with an id is also the last. */
  lemma {:induction false} FirstIsLast(snapshots: seq<Snapshot>, id: nat)
    requires SnapshotIds(snapshots)[id] <= 1
    ensures var at := SnapshotIndex(snapshots, id);
      LastWithId(snapshots, id) == if at < |snapshots| then Some(snapshots[at]) else None
  {
    if snapshots != [] {
      var front, last := snapshots[..|snapshots| - 1], snapshots[|snapshots| - 1];
      FirstIsLast(front, id);
      SnapshotIdsIn(front, id);
      var at := SnapshotIndex(snapshots, id);
      if at < |front| {
        assert front[at] in front;
      }
    }
  }

  /** Resolution finds what the unbounded record says about the id, or refuses. */
  lemma ResolveAgrees(events: seq<Event>, scope: string, pid: int, id: nat, index: nat)
    requires ValidRun(events)
    ensures var r := Resolve(TOKEN_STATE_SCHEMA, LanesAfter(events), scope, pid, id, index);
      var held := LaneSnapshots(LanesAfter(events), scope, pid);
      var known := LastWithId(Latest(events, scope, pid), id);
      && (r.Success? ==> known.Some? && r.value == (known.value.window, index) && index <= known.value.maxIndex)
      && (r == Failure(OutOfRange) ==> known.Some? && index > known.value.maxIndex)
      && (r.Success? || r == Failure(OutOfRange) <==> HasId(held, id))
  {
    hide LaneSnapshots, ValidRun, Latest, LanesAfter, WithoutWindow, LiveIds;
    var lanes := LanesAfter(events);
    var held := LaneSnapshots(lanes, scope, pid);
    RunInvariant(events, scope, pid);
    LaneIds(lanes, scope, pid);
    assert SnapshotIds(held)[id] <= LiveIds(lanes)[id] <= 1;
    FirstIsLast(held, id);
    LastOfSuffix(held, Latest(events, scope, pid), id);
    var at := SnapshotIndex(held, id);
    if at < |held| {
      assert held[at] in held;
    }
  }

  /** Some other runtime of the process holds the id. */
  ghost predicate HeldElsewhere(lanes: seq<Lane>, scope: string, pid: int, id: nat) {
    exists other :: other != scope && HasId(LaneSnapshots(lanes, other, pid), id)
  }

  /** A refusal blames another runtime when that runtime holds the id and the caller's does not; an id nobody holds is stale, and so
      is every id of a state of another schema. */
  lemma RefusalBlames(events: seq<Event>, scope: string, pid: int, id: nat, index: nat, schema: nat)
    requires ValidRun(events)
    ensures var lanes := LanesAfter(events);
      var held := HasId(LaneSnapshots(lanes, scope, pid), id);
      && (Resolve(TOKEN_STATE_SCHEMA, lanes, scope, pid, id, index) == Failure(AnotherRuntime) <==> !held && HeldElsewhere(lanes, scope, pid, id))
      && (Resolve(TOKEN_STATE_SCHEMA, lanes, scope, pid, id, index) == Failure(Stale) <==> !held && !HeldElsewhere(lanes, scope, pid, id))
      && (schema != TOKEN_STATE_SCHEMA ==> Resolve(schema, lanes, scope, pid, id, index) == Failure(Stale))
  {
    hide LaneSnapshots, ValidRun, LanesAfter, HasId;
    var lanes := LanesAfter(events);
    RunInvariant(events, scope, pid);
    ResolveAgrees(events, scope, pid, id, index);
    ElsewhereExact(lanes, scope, pid, id);
  }

  lemma ElsewhereExact(lanes: seq<Lane>, scope: string, pid: int, id: nat)
    requires DistinctLanes(lanes)
    ensures HeldElsewhere(lanes, scope, pid, id) <==> exists lane <- lanes :: lane.scope != scope && lane.pid == pid && HasId(lane.snapshots, id)
  {
    hide HasId, LaneIndex;
    if lane :| lane in lanes && lane.scope != scope && lane.pid == pid && HasId(lane.snapshots, id) {
      var i :| 0 <= i < |lanes| && lanes[i] == lane;
      SnapshotsAt(lanes, i, lane.scope, pid);
    }
    if other :| other != scope && HasId(LaneSnapshots(lanes, other, pid), id) {
      var at := LaneIndex(lanes, other, pid);
      if at < |lanes| {
        assert lanes[at] in lanes;
      } else {
        NobodyHolds(id);
      }
    }
  }

  lemma NobodyHolds(id: nat)
    ensures !HasId([], id)
  {
  }

  lemma {:induction false} WithoutWindowIn(snapshots: seq<Snapshot>, window: nat, snapshot: Snapshot)
    ensures snapshot in WithoutWindow(snapshots, window) <==> snapshot in snapshots && snapshot.window != window
  {
    if snapshots != [] {
      var front := snapshots[..|snapshots| - 1];
      WithoutWindowIn(front, window, snapshot);
      assert snapshots == front + [snapshots[|snapshots| - 1]];
    }
  }

  /** After an id is drawn at step i, whatever the lane holds under it was registered at step i or later. */
  lemma {:induction false} HeldSince(events: seq<Event>, i: nat, scope: string, pid: int, snapshot: Snapshot)
    requires ValidRun(events) && i < |events| && Concerns(events[i], scope, pid)
    requires snapshot in LaneSnapshots(LanesAfter(events), scope, pid) && snapshot.id == events[i].snapshot.id
    ensures exists j :: i <= j < |events| && Concerns(events[j], scope, pid) && events[j].snapshot == snapshot
  {
    hide WithoutWindow, LaneSnapshots, Registered, DistinctLanes, WithinCaps, UniqueIds, Live, Latest;
    var front, last := events[..|events| - 1], events[|events| - 1];
    var before := LanesAfter(front);
    assert forall k | 0 <= k < |front| :: front[..k] == events[..k];
    RunInvariant(front, scope, pid);
    var held := LaneSnapshots(before, scope, pid);
    if last.Unreadable? {
      NothingStored(scope, pid, []);
      assert false;
    }
    if last.Saved? {
      RegisteredSuffix(before, last.scope, last.pid, last.snapshot, scope, pid);
      WithoutWindowIn(held, last.snapshot.window, snapshot);
    }
    if snapshot in held {
      HeldIsLive(before, scope, pid, snapshot);
      assert events[..|front|] == front;
      if i == |front| {
        assert false;
      }
      HeldSince(front, i, scope, pid, snapshot);
    } else {
      assert events[|front|].snapshot == snapshot;
    }
  }

  lemma HeldIsLive(lanes: seq<Lane>, scope: string, pid: int, snapshot: Snapshot)
    requires snapshot in LaneSnapshots(lanes, scope, pid)
    ensures Live(lanes, snapshot.id)
  {
    SnapshotIdsIn(LaneSnapshots(lanes, scope, pid), snapshot.id);
    LaneIds(lanes, scope, pid);
    LiveIdsIn(lanes, snapshot.id);
  }

  /** A token means the window it was issued for, or is refused, as long as its id is not drawn again
      for another window of the same lane. */
  lemma OwnWindowOnly(events: seq<Event>, i: nat, index: nat)
    requires ValidRun(events) && i < |events| && events[i].Saved?
    requires forall j | i < j < |events| ::
      (Concerns(events[j], events[i].scope, events[i].pid) && events[j].snapshot.id == events[i].snapshot.id)
      ==> events[j].snapshot.window == events[i].snapshot.window
    ensures var issued := events[i];
      var r := Resolve(TOKEN_STATE_SCHEMA, LanesAfter(events), issued.scope, issued.pid, issued.snapshot.id, index);
      r.Success? ==> r.value == (issued.snapshot.window, index)
  {
    hide LaneSnapshots, LanesAfter, ValidRun;
    var issued := events[i];
    var held := LaneSnapshots(LanesAfter(events), issued.scope, issued.pid);
    var at := SnapshotIndex(held, issued.snapshot.id);
    if at < |held| {
      HeldSince(events, i, issued.scope, issued.pid, held[at]);
    }
  }

  /** And no longer than that: ids are only kept apart from live ids, so a forgotten id can be drawn again. */
  lemma RedrawnIdMisleads(events: seq<Event>, i: nat)
    requires ValidRun(events) && i < |events| - 1 && events[i].Saved?
    requires var last := events[|events| - 1];
      && Concerns(last, events[i].scope, events[i].pid) && last.snapshot.id == events[i].snapshot.id
      && last.snapshot.window != events[i].snapshot.window
    ensures var issued := events[i];
      var r := Resolve(TOKEN_STATE_SCHEMA, LanesAfter(events), issued.scope, issued.pid, issued.snapshot.id, 0);
      r.Success? && r.value.0 != issued.snapshot.window
  {
    hide LaneSnapshots, WithoutWindow, Registered, WithinCaps, UniqueIds, Live, Latest, ValidRun, LaneIndex;
    var front, last := events[..|events| - 1], events[|events| - 1];
    var lanes := LanesAfter(events);
    RunInvariant(events, last.scope, last.pid);
    assert ValidRun(front) by { PrefixValid(events); }
    RunInvariant(front, last.scope, last.pid);
    RegisterStaysLoadable(LanesAfter(front), last.scope, last.pid, last.snapshot);
    SnapshotsAt(lanes, |lanes| - 1, last.scope, last.pid);
    var held := LaneSnapshots(lanes, last.scope, last.pid);
    assert held[|held| - 1] == last.snapshot;
    assert LastWithId(held, last.snapshot.id) == Some(last.snapshot);
    assert HasId(held, last.snapshot.id) by { assert last.snapshot in held; }
    ResolveAgrees(events, last.scope, last.pid, last.snapshot.id, 0);
    LastOfSuffix(held, Latest(events, last.scope, last.pid), last.snapshot.id);
  }

  lemma PrefixValid(events: seq<Event>)
    requires ValidRun(events) && events != []
    ensures ValidRun(events[..|events| - 1])
  {
    var front := events[..|events| - 1];
    assert forall k | 0 <= k < |front| :: front[..k] == events[..k];
  }

  /** Registering into a store of one small lane, or none. */
  lemma SmallRegister(lanes: seq<Lane>, scope: string, pid: int, held: seq<Snapshot>, snapshot: Snapshot)
    requires |held| <= 1 && lanes == if held == [] then [] else [Lane(scope, pid, held)]
    ensures var kept := if held != [] && held[0].window != snapshot.window then held else [];
      Registered(lanes, scope, pid, snapshot) == [Lane(scope, pid, kept + [snapshot])]
  {
    var kept := if held != [] && held[0].window != snapshot.window then held else [];
    assert LaneSnapshots(lanes, scope, pid) == held && OtherLanes(lanes, scope, pid) == [];
    assert held != [] ==> held[..0] == [];
    assert WithoutWindow(held, snapshot.window) == kept;
    var pushed := [Lane(scope, pid, kept + [snapshot])];
    var none: seq<Lane> := [];
    assert none + pushed == pushed;
    assert ExtendedLane(lanes, scope, pid, snapshot) == pushed[0];
    OneLaneTotal(pushed);
    assert Trimmed(pushed) == pushed;
  }

  /** A run of three registrations in which the first token later names another window. */
  lemma RedrawnIdExample()
    ensures var events := [Saved("s", 1, Snapshot(7, 1, 0)), Saved("s", 1, Snapshot(8, 1, 0)), Saved("s", 1, Snapshot(7, 2, 0))];
      && ValidRun(events)
      && Resolve(TOKEN_STATE_SCHEMA, LanesAfter(events), "s", 1, 7, 0) == Success((2, 0))
  {
    hide Registered, Resolve, LaneSnapshots;
    var first, second, third := Snapshot(7, 1, 0), Snapshot(8, 1, 0), Snapshot(7, 2, 0);
    var a, b, c := Saved("s", 1, first), Saved("s", 1, second), Saved("s", 1, third);
    var events := [a, b, c];
    assert events[..0] == [] && events[..1] == [a] && events[..2] == [a, b] && [a, b][..1] == [a] && [a][..0] == [];
    SmallRegister([], "s", 1, [], first);
    SmallRegister([Lane("s", 1, [first])], "s", 1, [first], second);
    SmallRegister([Lane("s", 1, [second])], "s", 1, [second], third);
    LanesStep([], a);
    LanesStep([a], b);
    LanesStep([a, b], c);
    var none: seq<Event> := [];
    assert none + [a] == [a] && [a] + [b] == [a, b] && [a, b] + [c] == events;
    assert LanesAfter(none) == [];
    var lone: seq<Snapshot> := [];
    assert lone + [first] == [first] && lone + [second] == [second] && [second] + [third] == [second, third];
    assert LanesAfter([a]) == [Lane("s", 1, [first])];
    assert LanesAfter([a, b]) == [Lane("s", 1, [second])];
    assert LanesAfter(events) == [Lane("s", 1, [second, third])];
    assert !Live(LanesAfter(none), 7) && !Live(LanesAfter([a]), 8) && !Live(LanesAfter([a, b]), 7);
    SnapshotsAt([Lane("s", 1, [second, third])], 0, "s", 1);
    assert SnapshotIndex([second, third], 7) == 1;
    ResolveFound([Lane("s", 1, [second, third])], "s", 1, 7, 0);
  }

  lemma LanesStep(front: seq<Event>, last: Event)
    requires last.Saved?
    ensures LanesAfter(front + [last]) == Registered(LanesAfter(front), last.scope, last.pid, last.snapshot)
  {
    hide Registered;
    assert (front + [last])[..|front|] == front;
  }

  lemma ResolveFound(lanes: seq<Lane>, scope: string, pid: int, id: nat, index: nat)
    requires var snapshots := LaneSnapshots(lanes, scope, pid);
      SnapshotIndex(snapshots, id) < |snapshots| && index <= snapshots[SnapshotIndex(snapshots, id)].maxIndex
    ensures var snapshots := LaneSnapshots(lanes, scope, pid);
      Resolve(TOKEN_STATE_SCHEMA, lanes, scope, pid, id, index)
        == Success((snapshots[SnapshotIndex(snapshots, id)].window, index))
  {
    hide LaneSnapshots, SnapshotIndex;
  }
}
