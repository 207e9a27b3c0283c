// How long an issued element token can be resolved.
module TokenSurvival {
  import opened Wrappers
  import opened ElementTokens
  import opened TokenRuns

  /** The lane ends in `tail`, and the lanes after it are `post`. */
  predicate EndsIn(lanes: seq<Lane>, scope: string, pid: int, tail: seq<Snapshot>, post: seq<Lane>) {
    |post| < |lanes|
    && var at := |lanes| - 1 - |post|;
    lanes[at].For(scope, pid) && SuffixOf(tail, lanes[at].snapshots) && lanes[at + 1..] == post
  }

  lemma {:induction false} TotalJoin(a: seq<Lane>, b: seq<Lane>)
    ensures TotalSnapshots(a + b) == TotalSnapshots(a) + TotalSnapshots(b)
  {
    if a == [] {
      assert a + b == b;
    } else {
      TotalJoin(a[1..], b);
      assert (a + b)[1..] == a[1..] + b;
    }
  }

  /** What fits the total cap at the end of the store is never evicted. */
  lemma {:induction false} TrimmedKeepsTail(lanes: seq<Lane>, scope: string, pid: int, tail: seq<Snapshot>, post: seq<Lane>)
    requires EndsIn(lanes, scope, pid, tail, post) && tail != [] && |tail| + TotalSnapshots(post) <= TOKEN_SNAPSHOT_CAP
    ensures EndsIn(Trimmed(lanes), scope, pid, tail, post)
    decreases TotalSnapshots(lanes) + |lanes|
  {
    if TotalSnapshots(lanes) > TOKEN_SNAPSHOT_CAP {
      var next := DropOldest(lanes);
      if |lanes| == 1 + |post| {
        assert lanes == [lanes[0]] + post;
        TotalJoin([lanes[0]], post);
        OneLaneTotal([lanes[0]]);
        assert next[1..] == post;
      } else {
        var at := |lanes| - 1 - |post|;
        assert next[|next| - 1 - |post|] == lanes[at] && next[|next| - |post|..] == post;
      }
      TrimmedKeepsTail(next, scope, pid, tail, post);
    }
  }

  lemma NewestKeepsTail(lanes: seq<Lane>, scope: string, pid: int, tail: seq<Snapshot>, post: seq<Lane>, cap: nat)
    requires EndsIn(lanes, scope, pid, tail, post) && |post| < cap
    ensures EndsIn(Newest(lanes, cap), scope, pid, tail, post)
  {
  }

  /** Where the lane is in a store without duplicate lanes. */
  lemma FoundAtEnd(lanes: seq<Lane>, scope: string, pid: int, tail: seq<Snapshot>, post: seq<Lane>)
    requires DistinctLanes(lanes) && EndsIn(lanes, scope, pid, tail, post)
    ensures LaneIndex(lanes, scope, pid) == |lanes| - 1 - |post|
    ensures SuffixOf(tail, LaneSnapshots(lanes, scope, pid))
    ensures OtherLanes(lanes, scope, pid) == lanes[..|lanes| - 1 - |post|] + post
  {
    hide LaneIndex;
  }

  lemma {:induction false} FirstStays(tail: seq<Snapshot>, window: nat)
    requires tail != [] && tail[0].window != window
    ensures var rest := WithoutWindow(tail, window); rest != [] && rest[0] == tail[0] && |rest| <= |tail|
  {
    if |tail| > 1 {
      FirstStays(tail[..|tail| - 1], window);
    } else {
      assert tail[..0] == [];
    }
  }

  /** A registration for the lane itself adds to its tail, and makes it the last lane. */
  lemma RegisterOwn(lanes: seq<Lane>, scope: string, pid: int, tail: seq<Snapshot>, post: seq<Lane>, snapshot: Snapshot)
    requires DistinctLanes(lanes) && EndsIn(lanes, scope, pid, tail, post)
    requires tail != [] && |tail| < LRU_CAP_PER_PID && tail[0].window != snapshot.window
    ensures EndsIn(Registered(lanes, scope, pid, snapshot), scope, pid, WithoutWindow(tail, snapshot.window) + [snapshot], [])
  {
    hide WithoutWindow, LaneIndex, LaneSnapshots, OtherLanes, Trimmed, TotalSnapshots, DistinctLanes, EndsIn, SuffixOf, Newest;
    FoundAtEnd(lanes, scope, pid, tail, post);
    SuffixPushed(tail, LaneSnapshots(lanes, scope, pid), snapshot);
    FirstStays(tail, snapshot.window);
    var longer := WithoutWindow(tail, snapshot.window) + [snapshot];
    var extended := ExtendedLane(lanes, scope, pid, snapshot);
    NewestSuffix(longer, WithoutWindow(LaneSnapshots(lanes, scope, pid), snapshot.window) + [snapshot]);
    var pushed := OtherLanes(lanes, scope, pid) + [extended];
    LastLane(OtherLanes(lanes, scope, pid), extended, longer);
    NewestKeepsTail(pushed, scope, pid, longer, [], TOKEN_LANE_CAP);
    NoLanes();
    TrimmedKeepsTail(Newest(pushed, TOKEN_LANE_CAP), scope, pid, longer, []);
  }

  lemma NewestSuffix(tail: seq<Snapshot>, whole: seq<Snapshot>)
    requires SuffixOf(tail, whole) && |tail| <= LRU_CAP_PER_PID
    ensures SuffixOf(tail, Newest(whole, LRU_CAP_PER_PID))
  {
  }

  lemma LastLane(others: seq<Lane>, lane: Lane, tail: seq<Snapshot>)
    requires SuffixOf(tail, lane.snapshots)
    ensures EndsIn(others + [lane], lane.scope, lane.pid, tail, [])
  {
  }

  lemma NoLanes()
    ensures TotalSnapshots([]) == 0
  {
  }

  /** At most one other lane comes after, and it is within its cap. */
  predicate AtMostOne(post: seq<Lane>, scope: string, pid: int) {
    post == [] || (|post| == 1 && post[0].For(scope, pid))
  }

  /** A registration for the one other lane that may come after keeps the tail. */
  lemma RegisterOther(lanes: seq<Lane>, scope: string, pid: int, tail: seq<Snapshot>, post: seq<Lane>,
                      scope2: string, pid2: int, snapshot: Snapshot)
    requires DistinctLanes(lanes) && EndsIn(lanes, scope, pid, tail, post) && AtMostOne(post, scope2, pid2)
    requires tail != [] && |tail| <= LRU_CAP_PER_PID && !(scope == scope2 && pid == pid2)
    ensures EndsIn(Registered(lanes, scope2, pid2, snapshot), scope, pid, tail, [ExtendedLane(lanes, scope2, pid2, snapshot)])
    ensures ExtendedLane(lanes, scope2, pid2, snapshot).For(scope2, pid2)
  {
    hide WithoutWindow, LaneIndex, LaneSnapshots, Trimmed, TotalSnapshots;
    var extended := ExtendedLane(lanes, scope2, pid2, snapshot);
    var others := OtherLanes(lanes, scope2, pid2);
    var pushed := others + [extended];
    var at := |lanes| - 1 - |post|;
    assert lanes[at].For(scope, pid);
    if post != [] {
      assert lanes[|lanes| - 1] == post[0];
    }
    assert others[|others| - 1] == lanes[at];
    assert EndsIn(pushed, scope, pid, tail, [extended]);
    NewestKeepsTail(pushed, scope, pid, tail, [extended], TOKEN_LANE_CAP);
    OneLaneTotal([extended]);
    TrimmedKeepsTail(Newest(pushed, TOKEN_LANE_CAP), scope, pid, tail, [extended]);
  }

  // ---------------------------------------------------------------- runs

  /** How many registrations for the lane of event `i` came after it. */
  function OwnSince(events: seq<Event>, i: nat): nat
    requires i < |events| && events[i].Saved?
    decreases |events|
  {
    if |events| == i + 1 then 0
    else OwnSince(events[..|events| - 1], i) + if Concerns(events[|events| - 1], events[i].scope, events[i].pid) then 1 else 0
  }

  /** Since event `i` nothing was lost, its window was not registered again, and at most one other lane was registered. */
  ghost predicate Undisturbed(events: seq<Event>, i: nat, scope2: string, pid2: int)
    requires i < |events| && events[i].Saved?
  {
    forall j | i < j < |events| ::
      && !events[j].Unreadable?
      && (events[j].Saved? ==>
            if Concerns(events[j], events[i].scope, events[i].pid) then events[j].snapshot.window != events[i].snapshot.window
            else Concerns(events[j], scope2, pid2))
  }

  lemma {:induction false} TailSince(events: seq<Event>, i: nat, scope2: string, pid2: int) returns (tail: seq<Snapshot>, post: seq<Lane>)
    requires ValidRun(events) && i < |events| && events[i].Saved? && !Concerns(events[i], scope2, pid2)
    requires Undisturbed(events, i, scope2, pid2) && OwnSince(events, i) < LRU_CAP_PER_PID
    ensures EndsIn(LanesAfter(events), events[i].scope, events[i].pid, tail, post) && AtMostOne(post, scope2, pid2)
    ensures tail != [] && tail[0] == events[i].snapshot && |tail| <= 1 + OwnSince(events, i)
    decreases |events|
  {
    hide WithoutWindow, Registered, DistinctLanes, WithinCaps, UniqueIds, Live, LaneSnapshots, Latest, ExtendedLane;
    var front, last := events[..|events| - 1], events[|events| - 1];
    var before := LanesAfter(front);
    PrefixValid(events);
    RunInvariant(front, events[i].scope, events[i].pid);
    if i == |front| {
      RegisterStaysLoadable(before, last.scope, last.pid, last.snapshot);
      tail, post := [last.snapshot], [];
    } else {
      tail, post := TailSince(front, i, scope2, pid2);
      if Concerns(last, events[i].scope, events[i].pid) {
        RegisterOwn(before, last.scope, last.pid, tail, post, last.snapshot);
        FirstStays(tail, last.snapshot.window);
        tail, post := WithoutWindow(tail, last.snapshot.window) + [last.snapshot], [];
      } else if last.Saved? {
        RegisterOther(before, events[i].scope, events[i].pid, tail, post, scope2, pid2, last.snapshot);
        post := [ExtendedLane(before, scope2, pid2, last.snapshot)];
      }
    }
  }

  lemma ResolvesHeld(lanes: seq<Lane>, scope: string, pid: int, snapshot: Snapshot, index: nat)
    requires UniqueIds(lanes) && snapshot in LaneSnapshots(lanes, scope, pid) && index <= snapshot.maxIndex
    ensures Resolve(TOKEN_STATE_SCHEMA, lanes, scope, pid, snapshot.id, index) == Success((snapshot.window, index))
  {
    hide LaneSnapshots;
    var held := LaneSnapshots(lanes, scope, pid);
    LaneIds(lanes, scope, pid);
    assert SnapshotIds(held)[snapshot.id] <= LiveIds(lanes)[snapshot.id] <= 1;
    OneWithId(held, snapshot);
    ResolveFound(lanes, scope, pid, snapshot.id, index);
  }

  lemma {:induction false} OneWithId(held: seq<Snapshot>, snapshot: Snapshot)
    requires snapshot in held && SnapshotIds(held)[snapshot.id] <= 1
    ensures SnapshotIndex(held, snapshot.id) < |held| && held[SnapshotIndex(held, snapshot.id)] == snapshot
  {
    hide SnapshotIndex;
    FirstIsLast(held, snapshot.id);
    LastIsIt(held, snapshot);
  }

  lemma {:induction false} LastIsIt(held: seq<Snapshot>, snapshot: Snapshot)
    requires snapshot in held && SnapshotIds(held)[snapshot.id] <= 1
    ensures LastWithId(held, snapshot.id) == Some(snapshot)
  {
    var front, last := held[..|held| - 1], held[|held| - 1];
    assert held == front + [last];
    if snapshot in front {
      SnapshotIdsIn(front, snapshot.id);
      LastIsIt(front, snapshot);
    }
  }

  /** A token resolves, for every index in range, as long as nothing was lost, its window was not registered again, fewer than
      eight registrations for its own lane and any number for one other lane came since. */
  lemma SurvivesWhile(events: seq<Event>, i: nat, scope2: string, pid2: int, index: nat)
    requires ValidRun(events) && i < |events| && events[i].Saved? && !Concerns(events[i], scope2, pid2)
    requires Undisturbed(events, i, scope2, pid2) && OwnSince(events, i) < LRU_CAP_PER_PID
    requires index <= events[i].snapshot.maxIndex
    ensures var issued := events[i];
      Resolve(TOKEN_STATE_SCHEMA, LanesAfter(events), issued.scope, issued.pid, issued.snapshot.id, index)
        == Success((issued.snapshot.window, index))
  {
    hide LaneSnapshots, LanesAfter, ValidRun, DistinctLanes, UniqueIds, LoadAccepts, Resolve, OtherLanes, LaneIndex;
    var issued := events[i];
    var lanes := LanesAfter(events);
    var tail, post := TailSince(events, i, scope2, pid2);
    RunInvariant(events, issued.scope, issued.pid);
    FoundAtEnd(lanes, issued.scope, issued.pid, tail, post);
    var held := LaneSnapshots(lanes, issued.scope, issued.pid);
    assert held[|held| - |tail|] == tail[0];
    ResolvesHeld(lanes, issued.scope, issued.pid, issued.snapshot, index);
  }

  /** In particular right after it was issued. */
  lemma ResolvesWhenIssued(events: seq<Event>, index: nat)
    requires ValidRun(events) && events != [] && events[|events| - 1].Saved?
    requires index <= events[|events| - 1].snapshot.maxIndex
    ensures var issued := events[|events| - 1];
      Resolve(TOKEN_STATE_SCHEMA, LanesAfter(events), issued.scope, issued.pid, issued.snapshot.id, index)
        == Success((issued.snapshot.window, index))
  {
    hide Resolve, LanesAfter, ValidRun;
    var i := |events| - 1;
    SurvivesWhile(events, i, events[i].scope, events[i].pid + 1, index);
  }

  // ---------------------------------------------------------------- and no longer

  lemma {:induction false} OtherWindows(snapshots: seq<Snapshot>, window: nat)
    requires forall snapshot <- snapshots :: snapshot.window != window
    ensures WithoutWindow(snapshots, window) == snapshots
  {
    if snapshots != [] {
      OtherWindows(snapshots[..|snapshots| - 1], window);
    }
  }

  /** The eighth registration for its own lane evicts a token. */
  lemma EighthEvicts(lanes: seq<Lane>, scope: string, pid: int, older: seq<Snapshot>, issued: Snapshot, newer: seq<Snapshot>, snapshot: Snapshot)
    requires DistinctLanes(lanes) && WithinCaps(lanes) && LaneSnapshots(lanes, scope, pid) == older + [issued] + newer
    requires |newer| == LRU_CAP_PER_PID - 1 && issued !in newer + [snapshot]
    requires forall held <- older + [issued] + newer :: held.window != snapshot.window
    ensures issued !in LaneSnapshots(Registered(lanes, scope, pid, snapshot), scope, pid)
  {
    hide WithoutWindow, LaneIndex, LaneSnapshots, Registered, DistinctLanes, TotalSnapshots;
    var held := older + [issued] + newer;
    OtherWindows(held, snapshot.window);
    RegisteredSuffix(lanes, scope, pid, snapshot, scope, pid);
    RegisterStaysLoadable(lanes, scope, pid, snapshot);
    var after := Registered(lanes, scope, pid, snapshot);
    LaneWithinCap(after, scope, pid);
    var kept := LaneSnapshots(after, scope, pid);
    assert held + [snapshot] == older + [issued] + (newer + [snapshot]);
    forall k | 0 <= k < |kept| ensures kept[k] in newer + [snapshot] {
      assert kept[k] == (held + [snapshot])[|held| + 1 - |kept| + k];
    }
  }

  lemma LaneWithinCap(lanes: seq<Lane>, scope: string, pid: int)
    requires WithinCaps(lanes)
    ensures |LaneSnapshots(lanes, scope, pid)| <= LRU_CAP_PER_PID
  {
    hide TotalSnapshots;
  }

  /** Two registrations for two other lanes can be enough: a full store, and the token's lane the shortest. */
  lemma TwoLanesEvict(a: Lane, b: Lane, issued: Lane, first: Snapshot, second: Snapshot)
    requires DistinctLanes([a, b, issued])
    requires |a.snapshots| == LRU_CAP_PER_PID && |b.snapshots| == LRU_CAP_PER_PID - 1 && |issued.snapshots| == 1
    requires (forall held <- a.snapshots :: held.window != first.window) && (forall held <- b.snapshots :: held.window != second.window)
    ensures var lanes := Registered(Registered([a, b, issued], a.scope, a.pid, first), b.scope, b.pid, second);
      WithinCaps([a, b, issued]) && LaneSnapshots(lanes, issued.scope, issued.pid) == []
  {
    hide Registered, LaneIndex, TotalSnapshots;
    var start := [a, b, issued];
    assert start[0] == a && start[1] == b && start[2] == issued;
    assert !start[1].For(start[0].scope, start[0].pid) && !start[2].For(start[0].scope, start[0].pid);
    assert !start[2].For(start[1].scope, start[1].pid);
    ThreeLanes(a, b, issued);
    var fuller := RegisterFirst(a, b, issued, first);
    var full := RegisterFirst(b, issued, fuller, second);
    ThreeLanes(b, issued, fuller);
    ThreeLanes(issued, fuller, full);
    TwoLanes(fuller, full);
    TrimmedUnfolds([b, issued, fuller]);
    TrimmedUnfolds([issued, fuller, full]);
    assert [issued, fuller, full][1..] == [fuller, full];
    TrimmedUnfolds([fuller, full]);
    var lanes := [fuller, full];
    assert lanes[0] == fuller && lanes[1] == full;
    assert !lanes[0].For(issued.scope, issued.pid) && !lanes[1].For(issued.scope, issued.pid);
  }

  /** The first of three lanes gets a snapshot of a new window and becomes the last. */
  lemma RegisterFirst(a: Lane, b: Lane, c: Lane, snapshot: Snapshot) returns (fuller: Lane)
    requires !b.For(a.scope, a.pid) && !c.For(a.scope, a.pid) && forall held <- a.snapshots :: held.window != snapshot.window
    ensures fuller == Lane(a.scope, a.pid, Newest(a.snapshots + [snapshot], LRU_CAP_PER_PID))
    ensures Registered([a, b, c], a.scope, a.pid, snapshot) == Trimmed([b, c, fuller])
  {
    hide WithoutWindow, TotalSnapshots, Trimmed;
    var lanes := [a, b, c];
    OtherWindows(a.snapshots, snapshot.window);
    fuller := ExtendedLane(lanes, a.scope, a.pid, snapshot);
    assert lanes[0].For(a.scope, a.pid);
    assert lanes[..0] + lanes[1..] == [b, c];
    assert [b, c] + [fuller] == [b, c, fuller];
  }

  lemma TrimmedUnfolds(lanes: seq<Lane>)
    ensures Trimmed(lanes) == if TotalSnapshots(lanes) <= TOKEN_SNAPSHOT_CAP then lanes else Trimmed(DropOldest(lanes))
  {
    hide TotalSnapshots;
  }

  lemma TwoLanes(a: Lane, b: Lane)
    ensures TotalSnapshots([a, b]) == |a.snapshots| + |b.snapshots|
  {
    assert [a, b][1..] == [b];
    OneLaneTotal([b]);
  }

  lemma ThreeLanes(a: Lane, b: Lane, c: Lane)
    ensures TotalSnapshots([a, b, c]) == |a.snapshots| + |b.snapshots| + |c.snapshots|
  {
    assert [a, b, c][1..] == [b, c];
    TwoLanes(b, c);
  }
}
