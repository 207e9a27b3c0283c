// The element-token store: which snapshots a runtime may still target.
module ElementTokens {
  import opened Wrappers

  const LRU_CAP_PER_PID: nat := 8
  const TOKEN_LANE_CAP: nat := 32
  const TOKEN_SNAPSHOT_CAP: nat := 16
  const TOKEN_STATE_SCHEMA: nat := 1

  datatype Snapshot = Snapshot(id: nat, window: nat, maxIndex: nat)

  /** The snapshots one runtime scope holds for one process, oldest first. */
  datatype Lane = Lane(scope: string, pid: int, snapshots: seq<Snapshot>) {
    predicate For(s: string, p: int) {
      scope == s && pid == p
    }
  }

  datatype TokenError = Stale | AnotherRuntime | OutOfRange

  // ---------------------------------------------------------------- lists

  function WithoutWindow(snapshots: seq<Snapshot>, window: nat): seq<Snapshot> {
    if snapshots == [] then []
    else
      var rest := WithoutWindow(snapshots[..|snapshots| - 1], window);
      var last := snapshots[|snapshots| - 1];
      if last.window == window then rest else rest + [last]
  }

  /** The newest `cap` elements. */
  function Newest<T>(items: seq<T>, cap: nat): seq<T> {
    if |items| <= cap then items else items[|items| - cap..]
  }

  predicate SuffixOf<T(==)>(tail: seq<T>, whole: seq<T>) {
    |tail| <= |whole| && tail == whole[|whole| - |tail|..]
  }

  /** Index of the lane for a scope and process, or the number of lanes. */
  function LaneIndex(lanes: seq<Lane>, scope: string, pid: int): (at: nat)
    ensures at <= |lanes|
    ensures at < |lanes| ==> lanes[at].For(scope, pid)
    ensures forall i | 0 <= i < at :: !lanes[i].For(scope, pid)
  {
    if lanes == [] then 0 else if lanes[0].For(scope, pid) then 0 else 1 + LaneIndex(lanes[1..], scope, pid)
  }

  function SnapshotIndex(snapshots: seq<Snapshot>, id: nat): (at: nat)
    ensures at <= |snapshots|
    ensures at < |snapshots| ==> snapshots[at].id == id
    ensures forall i | 0 <= i < at :: snapshots[i].id != id
  {
    if snapshots == [] then 0 else if snapshots[0].id == id then 0 else 1 + SnapshotIndex(snapshots[1..], id)
  }

  function TotalSnapshots(lanes: seq<Lane>): nat {
    if lanes == [] then 0 else |lanes[0].snapshots| + TotalSnapshots(lanes[1..])
  }

  // ---------------------------------------------------------------- registration as a function

  function LaneSnapshots(lanes: seq<Lane>, scope: string, pid: int): seq<Snapshot> {
    var at := LaneIndex(lanes, scope, pid);
    if at < |lanes| then lanes[at].snapshots else []
  }

  function OtherLanes(lanes: seq<Lane>, scope: string, pid: int): seq<Lane> {
    var at := LaneIndex(lanes, scope, pid);
    if at < |lanes| then lanes[..at] + lanes[at + 1..] else lanes
  }

  function ExtendedLane(lanes: seq<Lane>, scope: string, pid: int, snapshot: Snapshot): Lane {
    Lane(scope, pid,
         Newest(WithoutWindow(LaneSnapshots(lanes, scope, pid), snapshot.window) + [snapshot], LRU_CAP_PER_PID))
  }

  /** One round of the global eviction: the oldest snapshot of the oldest lane, or an empty lane. */
  function DropOldest(lanes: seq<Lane>): seq<Lane>
    requires lanes != []
  {
    var first := lanes[0];
    if |first.snapshots| <= 1 then lanes[1..]
    else [Lane(first.scope, first.pid, first.snapshots[1..])] + lanes[1..]
  }

  function Trimmed(lanes: seq<Lane>): seq<Lane>
    decreases TotalSnapshots(lanes) + |lanes|
  {
    if TotalSnapshots(lanes) <= TOKEN_SNAPSHOT_CAP then lanes else Trimmed(DropOldest(lanes))
  }

  function Registered(lanes: seq<Lane>, scope: string, pid: int, snapshot: Snapshot): seq<Lane> {
    Trimmed(Newest(OtherLanes(lanes, scope, pid) + [ExtendedLane(lanes, scope, pid, snapshot)], TOKEN_LANE_CAP))
  }

  // ---------------------------------------------------------------- the store

  predicate HasId(snapshots: seq<Snapshot>, id: nat) {
    exists snapshot <- snapshots :: snapshot.id == id
  }

  predicate Live(lanes: seq<Lane>, id: nat) {
    exists lane <- lanes :: HasId(lane.snapshots, id)
  }

  predicate WithinCaps(lanes: seq<Lane>) {
    && |lanes| <= TOKEN_LANE_CAP
    && (forall lane <- lanes :: |lane.snapshots| <= LRU_CAP_PER_PID)
    && TotalSnapshots(lanes) <= TOKEN_SNAPSHOT_CAP
  }

  /** What a stored state must meet to be loaded. */
  predicate LoadAccepts(schema: nat, lanes: seq<Lane>) {
    schema == TOKEN_STATE_SCHEMA && WithinCaps(lanes)
  }

  /** The lane for (scope, pid) decides; a live id of another scope only changes the refusal. */
  function Resolve(schema: nat, lanes: seq<Lane>, scope: string, pid: int, id: nat, index: nat)
    : Result<(nat, nat), TokenError>
  {
    if schema != TOKEN_STATE_SCHEMA then Failure(Stale)
    else
      var snapshots := LaneSnapshots(lanes, scope, pid);
      var at := SnapshotIndex(snapshots, id);
      if at == |snapshots| then
        if exists lane <- lanes :: lane.scope != scope && lane.pid == pid && HasId(lane.snapshots, id)
        then Failure(AnotherRuntime) else Failure(Stale)
      else if index > snapshots[at].maxIndex then Failure(OutOfRange)
      else Success((snapshots[at].window, index))
  }

  ghost predicate FirstFresh(draws: seq<nat>, lanes: seq<Lane>, i: nat) {
    && i < |draws| && draws[i] != 0 && !Live(lanes, draws[i])
    && forall j | 0 <= j < i :: draws[j] == 0 || Live(lanes, draws[j])
  }

  class DiskTokenState {
    var schema: nat
    var lanes: seq<Lane>

    constructor ()
      ensures schema == 0 && lanes == []
    {
      schema, lanes := 0, [];
    }

    /** The first random draw that is neither zero nor live. */
    method FreshId(draws: seq<nat>) returns (id: Option<nat>)
      ensures id.Some? ==> exists i: nat :: FirstFresh(draws, lanes, i) && draws[i] == id.value
      ensures id.None? ==> forall draw <- draws :: draw == 0 || Live(lanes, draw)
    {
      for i := 0 to |draws|
        invariant forall j | 0 <= j < i :: draws[j] == 0 || Live(lanes, draws[j])
      {
        if draws[i] != 0 && !Live(lanes, draws[i]) {
          assert FirstFresh(draws, lanes, i);
          return Some(draws[i]);
        }
      }
      return None;
    }

    method Register(scope: string, pid: int, snapshot: Snapshot)
      modifies this
      ensures schema == TOKEN_STATE_SCHEMA
      ensures lanes == Registered(old(lanes), scope, pid, snapshot)
    {
      schema := TOKEN_STATE_SCHEMA;
      ghost var before := lanes;
      var position := LaneIndex(lanes, scope, pid);
      var snapshots := [];
      if position < |lanes| {
        snapshots := lanes[position].snapshots;
        lanes := lanes[..position] + lanes[position + 1..];
      }
      snapshots := WithoutWindow(snapshots, snapshot.window) + [snapshot];
      ghost var extended := snapshots;
      while |snapshots| > LRU_CAP_PER_PID
        invariant schema == TOKEN_STATE_SCHEMA && lanes == OtherLanes(before, scope, pid)
        invariant Newest(snapshots, LRU_CAP_PER_PID) == Newest(extended, LRU_CAP_PER_PID)
      {
        snapshots := snapshots[1..];
      }
      lanes := lanes + [Lane(scope, pid, snapshots)];
      ghost var pushed := lanes;
      while |lanes| > TOKEN_LANE_CAP
        invariant schema == TOKEN_STATE_SCHEMA
        invariant Newest(lanes, TOKEN_LANE_CAP) == Newest(pushed, TOKEN_LANE_CAP)
      {
        lanes := lanes[1..];
      }
      EvictGlobally();
    }

    method EvictGlobally()
      modifies this`lanes
      ensures lanes == Trimmed(old(lanes))
    {
      while TotalSnapshots(lanes) > TOKEN_SNAPSHOT_CAP
        invariant Trimmed(lanes) == Trimmed(old(lanes))
        decreases TotalSnapshots(lanes) + |lanes|
      {
        ghost var before := lanes;
        var first := lanes[0];
        if first.snapshots != [] {
          lanes := lanes[0 := Lane(first.scope, first.pid, first.snapshots[1..])];
        }
        if lanes[0].snapshots == [] {
          lanes := lanes[1..];
        }
        assert lanes == DropOldest(before);
      }
    }
  }

  // ---------------------------------------------------------------- caps

  /** `after` keeps the last lanes of `lanes`, each with a suffix of its snapshots. */
  ghost predicate FrontCut(lanes: seq<Lane>, after: seq<Lane>) {
    && |after| <= |lanes|
    && forall i | 0 <= i < |after| ::
         var lane := lanes[|lanes| - |after| + i];
         after[i].For(lane.scope, lane.pid) && SuffixOf(after[i].snapshots, lane.snapshots)
  }

  lemma FrontCutThen(first: seq<Lane>, second: seq<Lane>, third: seq<Lane>)
    requires FrontCut(first, second) && FrontCut(second, third)
    ensures FrontCut(first, third)
  {
    forall i | 0 <= i < |third|
      ensures var lane := first[|first| - |third| + i];
        third[i].For(lane.scope, lane.pid) && SuffixOf(third[i].snapshots, lane.snapshots)
    {
      var middle := second[|second| - |third| + i];
      assert third[i].For(middle.scope, middle.pid);
    }
  }

  lemma DropOldestCuts(lanes: seq<Lane>)
    requires lanes != []
    ensures FrontCut(lanes, DropOldest(lanes))
  {
    var after := DropOldest(lanes);
    forall i | 0 <= i < |after|
      ensures var lane := lanes[|lanes| - |after| + i];
        after[i].For(lane.scope, lane.pid) && SuffixOf(after[i].snapshots, lane.snapshots)
    {
      var lane := lanes[|lanes| - |after| + i];
      assert after[i] == lane || (i == 0 && after[i].snapshots == lane.snapshots[1..]);
    }
  }

  lemma OneLaneTotal(lanes: seq<Lane>)
    requires |lanes| == 1
    ensures TotalSnapshots(lanes) == |lanes[0].snapshots|
  {
  }

  lemma {:induction false} TrimmedCuts(lanes: seq<Lane>)
    ensures FrontCut(lanes, Trimmed(lanes)) && TotalSnapshots(Trimmed(lanes)) <= TOKEN_SNAPSHOT_CAP
    decreases TotalSnapshots(lanes) + |lanes|
  {
    if TotalSnapshots(lanes) > TOKEN_SNAPSHOT_CAP {
      var next := DropOldest(lanes);
      DropOldestCuts(lanes);
      TrimmedCuts(next);
      FrontCutThen(lanes, next, Trimmed(lanes));
    }
  }

  /** The global eviction never reaches a last lane that fits by itself. */
  lemma {:induction false} TrimmedKeepsLast(lanes: seq<Lane>)
    requires lanes != [] && |lanes[|lanes| - 1].snapshots| <= LRU_CAP_PER_PID
    ensures Trimmed(lanes) != [] && Trimmed(lanes)[|Trimmed(lanes)| - 1] == lanes[|lanes| - 1]
    decreases TotalSnapshots(lanes) + |lanes|
  {
    if TotalSnapshots(lanes) > TOKEN_SNAPSHOT_CAP {
      if |lanes| == 1 {
        OneLaneTotal(lanes);
      }
      var next := DropOldest(lanes);
      assert next[|next| - 1] == lanes[|lanes| - 1];
      TrimmedKeepsLast(next);
    }
  }

  lemma RegisteredCuts(lanes: seq<Lane>, scope: string, pid: int, snapshot: Snapshot)
    ensures FrontCut(OtherLanes(lanes, scope, pid) + [ExtendedLane(lanes, scope, pid, snapshot)],
                     Registered(lanes, scope, pid, snapshot))
  {
    hide FrontCut, Trimmed, Newest, TotalSnapshots, OtherLanes, ExtendedLane;
    var pushed := OtherLanes(lanes, scope, pid) + [ExtendedLane(lanes, scope, pid, snapshot)];
    var kept := Newest(pushed, TOKEN_LANE_CAP);
    NewestCuts(pushed, TOKEN_LANE_CAP);
    TrimmedCuts(kept);
    FrontCutThen(pushed, kept, Trimmed(kept));
  }

  lemma NewestCuts(lanes: seq<Lane>, cap: nat)
    ensures FrontCut(lanes, Newest(lanes, cap))
  {
    var kept := Newest(lanes, cap);
    forall i | 0 <= i < |kept|
      ensures var lane := lanes[|lanes| - |kept| + i];
        kept[i].For(lane.scope, lane.pid) && SuffixOf(kept[i].snapshots, lane.snapshots)
    {
      assert kept[i] == lanes[|lanes| - |kept| + i];
    }
  }

  /** From lanes within the caps, of whatever schema, registering ends in a state the loader accepts, newest snapshot last. */
  lemma RegisterStaysLoadable(lanes: seq<Lane>, scope: string, pid: int, snapshot: Snapshot)
    requires WithinCaps(lanes)
    ensures var after := Registered(lanes, scope, pid, snapshot);
      && LoadAccepts(TOKEN_STATE_SCHEMA, after)
      && after != [] && after[|after| - 1].For(scope, pid)
      && after[|after| - 1].snapshots != []
      && after[|after| - 1].snapshots[|after[|after| - 1].snapshots| - 1] == snapshot
  {
    hide Trimmed, WithoutWindow, TotalSnapshots, LaneSnapshots, OtherLanes, LaneIndex, FrontCut;
    var extended := ExtendedLane(lanes, scope, pid, snapshot);
    var others := OtherLanes(lanes, scope, pid);
    var pushed := others + [extended];
    var kept := Newest(pushed, TOKEN_LANE_CAP);
    var after := Registered(lanes, scope, pid, snapshot);
    assert kept[|kept| - 1] == extended;
    TrimmedKeepsLast(kept);
    TrimmedCuts(kept);
    RegisteredCuts(lanes, scope, pid, snapshot);
    OthersAmong(lanes, scope, pid);
    CutFits(pushed, after);
    var last := extended.snapshots;
    assert last[|last| - 1] == snapshot;
  }

  lemma OthersAmong(lanes: seq<Lane>, scope: string, pid: int)
    ensures forall lane <- OtherLanes(lanes, scope, pid) :: lane in lanes
  {
    hide LaneIndex;
  }

  lemma CutFits(lanes: seq<Lane>, after: seq<Lane>)
    requires FrontCut(lanes, after) && forall lane <- lanes :: |lane.snapshots| <= LRU_CAP_PER_PID
    ensures forall lane <- after :: |lane.snapshots| <= LRU_CAP_PER_PID
  {
    forall lane | lane in after ensures |lane.snapshots| <= LRU_CAP_PER_PID {
      var i :| 0 <= i < |after| && after[i] == lane;
      assert lanes[|lanes| - |after| + i] in lanes;
    }
  }

  // ---------------------------------------------------------------- live ids

  function SnapshotIds(snapshots: seq<Snapshot>): multiset<nat> {
    if snapshots == [] then multiset{}
    else SnapshotIds(snapshots[..|snapshots| - 1]) + multiset{snapshots[|snapshots| - 1].id}
  }

  function LiveIds(lanes: seq<Lane>): multiset<nat> {
    if lanes == [] then multiset{} else SnapshotIds(lanes[0].snapshots) + LiveIds(lanes[1..])
  }

  ghost predicate UniqueIds(lanes: seq<Lane>) {
    forall id :: LiveIds(lanes)[id] <= 1
  }

  lemma {:induction false} SnapshotIdsIn(snapshots: seq<Snapshot>, id: nat)
    ensures id in SnapshotIds(snapshots) <==> HasId(snapshots, id)
  {
    if snapshots != [] {
      var front, last := snapshots[..|snapshots| - 1], snapshots[|snapshots| - 1];
      SnapshotIdsIn(front, id);
      assert snapshots == front + [last];
    }
  }

  lemma {:induction false} LiveIdsIn(lanes: seq<Lane>, id: nat)
    ensures id in LiveIds(lanes) <==> Live(lanes, id)
  {
    hide SnapshotIds, HasId;
    if lanes != [] {
      SnapshotIdsIn(lanes[0].snapshots, id);
      LiveIdsIn(lanes[1..], id);
      assert lanes == [lanes[0]] + lanes[1..];
    }
  }

  lemma {:induction false} SnapshotIdsJoin(a: seq<Snapshot>, b: seq<Snapshot>)
    ensures SnapshotIds(a + b) == SnapshotIds(a) + SnapshotIds(b)
  {
    if b == [] {
      assert a + b == a;
    } else {
      assert (a + b)[..|a + b| - 1] == a + b[..|b| - 1];
      SnapshotIdsJoin(a, b[..|b| - 1]);
    }
  }

  lemma {:induction false} LiveIdsJoin(a: seq<Lane>, b: seq<Lane>)
    ensures LiveIds(a + b) == LiveIds(a) + LiveIds(b)
  {
    if a == [] {
      assert a + b == b;
    } else {
      assert (a + b)[1..] == a[1..] + b;
      LiveIdsJoin(a[1..], b);
    }
  }

  lemma {:induction false} WithoutWindowIds(snapshots: seq<Snapshot>, window: nat)
    ensures SnapshotIds(WithoutWindow(snapshots, window)) <= SnapshotIds(snapshots)
  {
    if snapshots != [] {
      var front := snapshots[..|snapshots| - 1];
      WithoutWindowIds(front, window);
      SnapshotIdsJoin(WithoutWindow(front, window), [snapshots[|snapshots| - 1]]);
    }
  }

  lemma SuffixIds(tail: seq<Snapshot>, whole: seq<Snapshot>)
    requires SuffixOf(tail, whole)
    ensures SnapshotIds(tail) <= SnapshotIds(whole)
  {
    var front := whole[..|whole| - |tail|];
    assert whole == front + tail;
    SnapshotIdsJoin(front, tail);
  }

  lemma {:induction false} FrontCutIds(lanes: seq<Lane>, after: seq<Lane>)
    requires FrontCut(lanes, after)
    ensures LiveIds(after) <= LiveIds(lanes)
  {
    if |after| < |lanes| {
      assert FrontCut(lanes[1..], after);
      FrontCutIds(lanes[1..], after);
    } else if lanes != [] {
      SuffixIds(after[0].snapshots, lanes[0].snapshots);
      assert FrontCut(lanes[1..], after[1..]);
      FrontCutIds(lanes[1..], after[1..]);
    }
  }

  lemma OtherLanesIds(lanes: seq<Lane>, scope: string, pid: int)
    ensures LiveIds(OtherLanes(lanes, scope, pid)) + SnapshotIds(LaneSnapshots(lanes, scope, pid)) == LiveIds(lanes)
  {
    hide SnapshotIds;
    var at := LaneIndex(lanes, scope, pid);
    if at < |lanes| {
      assert lanes == lanes[..at] + ([lanes[at]] + lanes[at + 1..]);
      LiveIdsJoin(lanes[..at], [lanes[at]] + lanes[at + 1..]);
      LiveIdsJoin([lanes[at]], lanes[at + 1..]);
      LiveIdsJoin(lanes[..at], lanes[at + 1..]);
      assert LiveIds([lanes[at]]) == SnapshotIds(lanes[at].snapshots);
    } else {
      assert SnapshotIds([]) == multiset{} by { NoIds(); }
    }
  }

  lemma NoIds()
    ensures SnapshotIds([]) == multiset{}
  {
  }

  lemma ExtendedLaneIds(lanes: seq<Lane>, scope: string, pid: int, snapshot: Snapshot)
    ensures SnapshotIds(ExtendedLane(lanes, scope, pid, snapshot).snapshots)
         <= SnapshotIds(LaneSnapshots(lanes, scope, pid)) + multiset{snapshot.id}
  {
    hide LaneSnapshots, WithoutWindow;
    var held := LaneSnapshots(lanes, scope, pid);
    var filtered := WithoutWindow(held, snapshot.window);
    WithoutWindowIds(held, snapshot.window);
    SnapshotIdsJoin(filtered, [snapshot]);
    assert [snapshot][..0] == [];
    SuffixIds(ExtendedLane(lanes, scope, pid, snapshot).snapshots, filtered + [snapshot]);
  }

  /** Registering a snapshot adds its id and no other. */
  lemma RegisteredIds(lanes: seq<Lane>, scope: string, pid: int, snapshot: Snapshot)
    ensures LiveIds(Registered(lanes, scope, pid, snapshot)) <= LiveIds(lanes) + multiset{snapshot.id}
  {
    hide SnapshotIds, OtherLanes, ExtendedLane, LaneSnapshots, Registered;
    var extended, others := ExtendedLane(lanes, scope, pid, snapshot), OtherLanes(lanes, scope, pid);
    OtherLanesIds(lanes, scope, pid);
    ExtendedLaneIds(lanes, scope, pid, snapshot);
    LiveIdsJoin(others, [extended]);
    assert LiveIds([extended]) == SnapshotIds(extended.snapshots);
    RegisteredCuts(lanes, scope, pid, snapshot);
    FrontCutIds(others + [extended], Registered(lanes, scope, pid, snapshot));
  }

  lemma RegisterKeepsUnique(lanes: seq<Lane>, scope: string, pid: int, snapshot: Snapshot)
    requires UniqueIds(lanes) && !Live(lanes, snapshot.id)
    ensures UniqueIds(Registered(lanes, scope, pid, snapshot))
  {
    RegisteredIds(lanes, scope, pid, snapshot);
    LiveIdsIn(lanes, snapshot.id);
  }
}
