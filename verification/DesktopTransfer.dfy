// Copying, removing and moving desktop items: guest/desktop-core/src/desktop_files.rs.
module DesktopTransfer {
  import opened Wrappers
  import opened FileTree
  import opened Kernel
  import opened DesktopNames

  datatype Outcome = Done | Failed(error: DesktopError)

  /** What one traversal may still visit. It starts full and only shrinks. */
  class TraversalBudget {
    var entriesRemaining: nat
    var bytesRemaining: nat

    constructor ()
      ensures Left() == FULL_BUDGET
    {
      entriesRemaining, bytesRemaining := MAX_TRAVERSAL_ENTRIES, MAX_TRAVERSAL_BYTES;
    }

    function Left(): Usage
      reads this
    {
      Usage(entriesRemaining, bytesRemaining)
    }

    method Charge(node: Node) returns (ok: bool)
      modifies this
      // the contents of a file and the target of a link are what takes bytes
      ensures ok <==>
        (old(entriesRemaining) >= 1
         && (node.File? ==> |node.data| <= old(bytesRemaining)) && (node.Link? ==> |node.target| <= old(bytesRemaining)))
      ensures ok ==> old(Left()) == Left().Plus(Usage(1, SizeOf(node)))
      // the entry stays charged when only the bytes are refused
      ensures !ok ==> Left() == Usage(if old(entriesRemaining) == 0 then 0 else old(entriesRemaining) - 1, old(bytesRemaining))
    {
      if entriesRemaining == 0 {
        return false;
      }
      entriesRemaining := entriesRemaining - 1;
      var size := SizeOf(node);
      if bytesRemaining < size {
        return false;
      }
      bytesRemaining := bytesRemaining - size;
      return true;
    }
  }

  /** The trace only grew, and every new state differs from `before` in the one slot at most. */
  ghost predicate SlotOnly(before: Node, was: seq<Node>, now: seq<Node>, dir: Path, name: Name) {
    was <= now && forall i | |was| <= i < |now| :: SameBut(before, now[i], dir, name)
  }

  /** A state reached by changing one slot, then the trace of later changes of that slot. */
  lemma SlotOnlyThen(first: Node, second: Node, was: seq<Node>, mid: seq<Node>, now: seq<Node>, dir: Path, name: Name)
    requires SameBut(first, second, dir, name)
    requires SlotOnly(first, was, mid, dir, name) && SlotOnly(second, mid, now, dir, name)
    ensures SlotOnly(first, was, now, dir, name)
  {
    forall i | |was| <= i < |now| ensures SameBut(first, now[i], dir, name) {
      if i < |mid| {
        assert now[i] == mid[i];
      } else {
        SameButThen(first, second, now[i], dir, name);
      }
    }
  }

  /** A run of changes to one entry of the directory a slot holds, seen from outside that directory. */
  lemma SlotOnlyInside(root: Node, held: Node, after: Node, was: seq<Node>, mid: seq<Node>, now: seq<Node>,
                       dir: Path, name: Name, child: Name)
    requires IsDir(root, dir) && held.Dir?
    requires SlotOnly(root, was, mid, dir, name)
    requires var before := SetSlot(root, dir, name, Some(held));
      SameBut(before, after, dir + [name], child) && SlotOnly(before, mid, now, dir + [name], child)
    ensures SameBut(root, after, dir, name) && SlotOnly(root, was, now, dir, name)
  {
    var before := SetSlot(root, dir, name, Some(held));
    InsideReady(root, dir, name, held, child);
    SameButInside(before, after, dir, name, child);
    SameButThen(root, before, after, dir, name);
    forall i | |mid| <= i < |now| ensures SameBut(before, now[i], dir, name) {
      SameButInside(before, now[i], dir, name, child);
    }
    SlotOnlyThen(root, before, was, mid, now, dir, name);
  }

  /** Why a removal fails that meets no outside fault. */
  ghost predicate RemovalFails(error: DesktopError, entry: Option<Node>, depth: nat, left: Usage) {
    match error
    case Missing => entry.None?
    case UnsupportedType => entry.Some? && !Supported(entry.value)
    case TraversalLimit =>
      depth > MAX_RECURSION_DEPTH || (entry.Some? && !(InBounds(entry.value, depth) && UsageOf(entry.value).Within(left)))
    case _ => false
  }

  /** Why a copy does. Inside the item itself it fails at whatever limit it meets first. */
  ghost predicate CopyFails(error: DesktopError, root: Node, source: Path, sourceName: Name, dir: Path, name: Name, depth: nat, left: Usage) {
    var item := Entry(root, source, sourceName);
    || (!Apart(source + [sourceName], dir + [name]) && Obstacle(error) && !error.Missing?)
    || (error.Io? && Entry(root, dir, name).Some?)
    || (error.NameTooLong? && item.Some? && !ShortLinks(item.value))
    || RemovalFails(error, item, depth, left)
  }

  /** Why one child is not copied. */
  ghost predicate ChildFails(error: DesktopError, child: Node, depth: nat, left: Usage) {
    (error.NameTooLong? && !ShortLinks(child)) || RemovalFails(error, Some(child), depth + 1, left)
  }

  /** What is wrong with a child is wrong with its directory. */
  lemma ReasonsDir(mode: nat, entries: map<Name, Node>, depth: nat, child: Name)
    requires child in entries
    ensures Supported(Dir(mode, entries)) ==> Supported(entries[child])
    ensures ShortLinks(Dir(mode, entries)) ==> ShortLinks(entries[child])
    ensures InBounds(Dir(mode, entries), depth) ==> InBounds(entries[child], depth + 1)
    ensures depth + 1 > MAX_RECURSION_DEPTH ==> !InBounds(entries[child], depth + 1)
  {
  }

  /** What may stop a traversal, outside faults included. */
  predicate Obstacle(error: DesktopError) {
    error.Missing? || error.UnsupportedType? || error.TraversalLimit? || error.NameTooLong? || error.Io?
  }

  /** Unlink an item, a directory after its contents. */
  method RemoveEntry(fs: FileSystem, dir: Path, name: Name, depth: nat, budget: TraversalBudget)
    returns (r: Outcome)
    requires IsDir(fs.root, dir)
    modifies fs, budget
    ensures SameBut(old(fs.root), fs.root, dir, name)
    ensures SlotOnly(old(fs.root), old(fs.trace), fs.trace, dir, name)
    ensures r.Done? ==>
      && Entry(old(fs.root), dir, name).Some?
      && fs.root == SetSlot(old(fs.root), dir, name, None)
      && old(budget.Left()) == budget.Left().Plus(UsageOf(Entry(old(fs.root), dir, name).value))
    ensures r.Done? ==> Removable(Entry(old(fs.root), dir, name).value, depth)
    ensures fs.faults == old(fs.faults) ==> (r.Done? <==>
      var entry := Entry(old(fs.root), dir, name);
      entry.Some? && Removable(entry.value, depth) && UsageOf(entry.value).Within(old(budget.Left())))
    ensures r.Failed? ==> Obstacle(r.error)
    ensures fs.faults == old(fs.faults) && r.Failed? ==> RemovalFails(r.error, Entry(old(fs.root), dir, name), depth, old(budget.Left()))
    ensures fs.faults >= old(fs.faults)
    decreases MAX_RECURSION_DEPTH + 1 - depth
  {
    SameButSet(fs.root, dir, name, None);
    if depth > MAX_RECURSION_DEPTH {
      return Failed(TraversalLimit);
    }
    var stat := fs.Stat(dir, name);
    if stat.Failure? {
      return Failed(if stat.error.NotFound? then Missing else Io);
    }
    var node := stat.value;
    ghost var start := budget.Left();
    var charged := budget.Charge(node);
    if !charged {
      return Failed(TraversalLimit);
    }
    match node {
      case Special =>
        return Failed(UnsupportedType);
      case File(_, _) =>
        var ok := fs.Unlink(dir, name);
        return if ok then Done else Failed(Io);
      case Link(_) =>
        var ok := fs.Unlink(dir, name);
        return if ok then Done else Failed(Io);
      case Dir(mode, entries) =>
        r := RemoveDirectory(fs, dir, name, mode, entries, depth, budget, start);
    }
  }

  method RemoveDirectory(fs: FileSystem, dir: Path, name: Name, mode: nat, entries: map<Name, Node>, depth: nat,
                         budget: TraversalBudget, ghost start: Usage)
    returns (r: Outcome)
    requires IsDir(fs.root, dir) && Entry(fs.root, dir, name) == Some(Dir(mode, entries))
    requires depth <= MAX_RECURSION_DEPTH && start == budget.Left().Plus(Usage(1, 0))
    modifies fs, budget
    ensures SameBut(old(fs.root), fs.root, dir, name)
    ensures SlotOnly(old(fs.root), old(fs.trace), fs.trace, dir, name)
    ensures r.Done? ==>
      && fs.root == SetSlot(old(fs.root), dir, name, None)
      && start == budget.Left().Plus(UsageOf(Dir(mode, entries)))
    ensures r.Done? ==> Removable(Dir(mode, entries), depth)
    ensures fs.faults == old(fs.faults) ==>
      (r.Done? <==> Removable(Dir(mode, entries), depth) && UsageOf(Dir(mode, entries)).Within(start))
    ensures r.Failed? ==> Obstacle(r.error)
    ensures fs.faults == old(fs.faults) && r.Failed? ==> RemovalFails(r.error, Some(Dir(mode, entries)), depth, start)
    ensures fs.faults >= old(fs.faults)
    decreases MAX_RECURSION_DEPTH + 1 - depth, 1
  {
    hide SetSlot, Entry, IsDir, Names, Total, UsageOf, UsageIn, Removable, RemovalFails;
    ghost var root, was := fs.root, fs.trace;
    r := RemoveContents(fs, dir, name, mode, entries, depth, budget, start);
    if r.Done? {
      ghost var emptied, mid := fs.root, fs.trace;
      InsideReady(root, dir, name, Dir(mode, map[]), name);
      SameButSet(emptied, dir, name, None);
      SameButThen(root, emptied, SetSlot(emptied, dir, name, None), dir, name);
      Overwrite(root, dir, name, Some(Dir(mode, map[])), None);
      var synced := fs.Attempt();
      if !synced {
        return Failed(Io);
      }
      var ok := fs.Unlink(dir, name);
      r := if ok then Done else Failed(Io);
    }
  }

  method RemoveContents(fs: FileSystem, dir: Path, name: Name, mode: nat, entries: map<Name, Node>, depth: nat,
                        budget: TraversalBudget, ghost start: Usage)
    returns (r: Outcome)
    requires IsDir(fs.root, dir) && Entry(fs.root, dir, name) == Some(Dir(mode, entries))
    requires depth <= MAX_RECURSION_DEPTH && start == budget.Left().Plus(Usage(1, 0))
    modifies fs, budget
    ensures SameBut(old(fs.root), fs.root, dir, name)
    ensures SlotOnly(old(fs.root), old(fs.trace), fs.trace, dir, name)
    ensures r.Done? ==>
      && fs.root == SetSlot(old(fs.root), dir, name, Some(Dir(mode, map[])))
      && start == budget.Left().Plus(UsageOf(Dir(mode, entries)))
    ensures r.Done? ==> Removable(Dir(mode, entries), depth)
    ensures fs.faults == old(fs.faults) ==>
      (r.Done? <==> Removable(Dir(mode, entries), depth) && UsageOf(Dir(mode, entries)).Within(start))
    ensures r.Failed? ==> Obstacle(r.error)
    ensures fs.faults == old(fs.faults) && r.Failed? ==> RemovalFails(r.error, Some(Dir(mode, entries)), depth, start)
    ensures fs.faults >= old(fs.faults)
    decreases MAX_RECURSION_DEPTH + 1 - depth, 0
  {
    hide SetSlot, Entry, IsDir, Names, UsageOf, UsageIn, SlotOnly, SameBut, Removable, PartRemoved, RemovalFails, Usage.Plus, Usage.Within;
    ghost var root, was := fs.root, fs.trace;
    WriteBack(root, dir, name);
    InsideReady(root, dir, name, Dir(mode, entries), name);
    SameButSet(root, dir, name, Some(Dir(mode, map[])));
    NothingChanged(root, was, dir, name);
    PartRemovedStart(mode, entries, depth, start, budget.Left());
    var names, oversized := fs.DirectoryNames(dir + [name]);
    if names.None? {
      return Failed(if oversized then TraversalLimit else Io);
    }
    var remaining := names.value;
    ghost var rest := entries;
    while remaining != {}
      invariant remaining == rest.Keys && |entries| <= MAX_DIRECTORY_ENTRIES
      invariant PartRemoved(mode, entries, rest, depth, start, budget.Left())
      invariant fs.faults >= old(fs.faults)
      invariant fs.root == SetSlot(root, dir, name, Some(Dir(mode, rest)))
      invariant SlotOnly(root, was, fs.trace, dir, name)
    {
      var child :| child in remaining;
      ghost var mid, left := fs.trace, budget.Left();
      InsideReady(root, dir, name, Dir(mode, rest), child);
      r := RemoveEntry(fs, dir + [name], child, depth + 1, budget);
      SlotOnlyInside(root, Dir(mode, rest), fs.root, was, mid, fs.trace, dir, name, child);
      PartRemovedStep(mode, entries, rest, depth, start, left, child, budget.Left());
      if r.Failed? {
        if fs.faults == old(fs.faults) {
          PartRemovedFails(mode, entries, rest, depth, start, left, child, r.error);
        }
        return;
      }
      InsideSet(root, dir, name, Dir(mode, rest), child, None);
      remaining, rest := remaining - {child}, rest - {child};
    }
    PartRemovedDone(mode, entries, rest, depth, start, budget.Left());
    r := Done;
  }

  /** The loop over the children: what is still there, and what has been charged. */
  ghost predicate PartRemoved(mode: nat, entries: map<Name, Node>, rest: map<Name, Node>, depth: nat, start: Usage, left: Usage) {
    && depth <= MAX_RECURSION_DEPTH && (forall n <- rest :: n in entries && rest[n] == entries[n])
    && (|entries| <= MAX_DIRECTORY_ENTRIES ==> (Removable(Dir(mode, entries), depth) <==> AllRemovable(rest, depth + 1)))
    && start.Plus(UsageIn(rest)) == left.Plus(UsageOf(Dir(mode, entries)))
  }

  lemma PartRemovedStart(mode: nat, entries: map<Name, Node>, depth: nat, start: Usage, left: Usage)
    requires depth <= MAX_RECURSION_DEPTH && start == left.Plus(Usage(1, 0))
    ensures PartRemoved(mode, entries, entries, depth, start, left)
    ensures |entries| > MAX_DIRECTORY_ENTRIES ==>
      !Removable(Dir(mode, entries), depth) && RemovalFails(TraversalLimit, Some(Dir(mode, entries)), depth, start)
  {
    hide UsageOf, UsageIn;
    UsageDir(mode, entries);
  }

  /** A child that was removed has been charged; one that cannot be removed keeps the directory from being removed. */
  lemma PartRemovedStep(mode: nat, entries: map<Name, Node>, rest: map<Name, Node>, depth: nat, start: Usage, left: Usage, child: Name,
                        later: Usage)
    requires PartRemoved(mode, entries, rest, depth, start, left) && child in rest
    ensures left == later.Plus(UsageOf(rest[child])) && Removable(rest[child], depth + 1) ==>
      PartRemoved(mode, entries, rest - {child}, depth, start, later)
    ensures |entries| <= MAX_DIRECTORY_ENTRIES && !(Removable(rest[child], depth + 1) && UsageOf(rest[child]).Within(left)) ==>
      !(Removable(Dir(mode, entries), depth) && UsageOf(Dir(mode, entries)).Within(start))
  {
    hide UsageOf, UsageIn, Removable, AllRemovable;
    UsageSplit(rest, child);
    RemovableSplit(rest, child, depth + 1);
  }

  /** The reason a child cannot be removed is a reason for its directory too. */
  lemma PartRemovedFails(mode: nat, entries: map<Name, Node>, rest: map<Name, Node>, depth: nat, start: Usage, left: Usage,
                         child: Name, error: DesktopError)
    requires PartRemoved(mode, entries, rest, depth, start, left) && child in rest
    requires RemovalFails(error, Some(rest[child]), depth + 1, left)
    ensures RemovalFails(error, Some(Dir(mode, entries)), depth, start)
  {
    hide UsageOf, UsageIn, Removable, AllRemovable, Supported, InBounds;
    ReasonsDir(mode, entries, depth, child);
    UsageSplit(rest, child);
  }

  lemma PartRemovedDone(mode: nat, entries: map<Name, Node>, rest: map<Name, Node>, depth: nat, start: Usage, left: Usage)
    requires PartRemoved(mode, entries, rest, depth, start, left) && rest.Keys == {}
    ensures start == left.Plus(UsageOf(Dir(mode, entries))) && UsageOf(Dir(mode, entries)).Within(start)
    ensures rest == map[] && (|entries| <= MAX_DIRECTORY_ENTRIES ==> Removable(Dir(mode, entries), depth))
  {
    hide UsageOf, UsageIn, Removable;
    assert rest == map[];
    UsageNone();
  }

  /** What every copying step promises about the slot it writes, whether or not a call failed. */
  ghost predicate CopyOutcome(r: Outcome, node: Node, before: Node, after: Node, dir: Path, name: Name) {
    && SameBut(before, after, dir, name)
    && (r.Done? ==> Entry(before, dir, name).None? && after == SetSlot(before, dir, name, Some(Masked(node))))
  }

  method CopyRegular(fs: FileSystem, mode: nat, data: string, dir: Path, name: Name) returns (r: Outcome)
    requires IsDir(fs.root, dir)
    modifies fs
    ensures CopyOutcome(r, File(mode, data), old(fs.root), fs.root, dir, name)
    ensures SlotOnly(old(fs.root), old(fs.trace), fs.trace, dir, name)
    ensures fs.faults == old(fs.faults) ==> (r.Done? <==> Entry(old(fs.root), dir, name).None?)
    // only a second fault leaves something behind
    ensures r.Failed? && fs.faults <= old(fs.faults) + 1 ==> fs.root == old(fs.root)
    ensures r.Failed? ==> r.error == Io
    ensures fs.faults >= old(fs.faults)
  {
    ghost var root := fs.root;
    SameButSet(root, dir, name, None);
    var ok := fs.Attempt();
    if !ok {
      return Failed(Io);
    }
    var empty := File(mode % 0x200, "");
    var created := fs.Create(dir, name, empty);
    if !created {
      return Failed(Io);
    }
    SameButSet(root, dir, name, Some(empty));
    ReadBack(root, dir, name, Some(empty));
    var written := fs.Write(dir, name, data);
    ghost var n :| 0 <= n <= |data| && (written ==> n == |data|) &&
      fs.root == SetSlot(SetSlot(root, dir, name, Some(empty)), dir, name, Some(File(mode % 0x200, data[..n])));
    Overwrite(root, dir, name, Some(empty), Some(File(mode % 0x200, data[..n])));
    SameButSet(root, dir, name, Some(File(mode % 0x200, data[..n])));
    ReadBack(root, dir, name, Some(File(mode % 0x200, data[..n])));
    assert data[..|data|] == data;
    var synced := false;
    if written {
      synced := fs.Attempt();
    }
    if synced {
      return Done;
    }
    Overwrite(root, dir, name, Some(File(mode % 0x200, data[..n])), None);
    var _ := fs.Unlink(dir, name);
    return Failed(Io);
  }

  method CopySymlink(fs: FileSystem, target: string, dir: Path, name: Name) returns (r: Outcome)
    requires IsDir(fs.root, dir)
    modifies fs
    ensures CopyOutcome(r, Link(target), old(fs.root), fs.root, dir, name)
    ensures SlotOnly(old(fs.root), old(fs.trace), fs.trace, dir, name)
    ensures fs.faults == old(fs.faults) ==> (r.Done? <==> |target| < LINK_BUFFER && Entry(old(fs.root), dir, name).None?)
    ensures fs.faults >= old(fs.faults) && (r.Done? ==> |target| < LINK_BUFFER)
    ensures r.Failed? ==> fs.root == old(fs.root)
    ensures r.Failed? ==> r.error == Io || r.error == NameTooLong
    ensures fs.faults == old(fs.faults) && r.Failed? ==> r.error == if |target| >= LINK_BUFFER then NameTooLong else Io
  {
    SameButSet(fs.root, dir, name, Some(Link(target)));
    var read := fs.Attempt();
    if !read {
      return Failed(Io);
    }
    if |target| >= LINK_BUFFER {
      return Failed(NameTooLong);
    }
    var created := fs.Create(dir, name, Link(target));
    return if created then Done else Failed(Io);
  }

  /** When a copy that meets no outside fault succeeds: into a free slot, and not into the item itself. */
  ghost predicate CopySucceeds(root: Node, source: Path, sourceName: Name, dir: Path, name: Name, depth: nat, left: Usage) {
    var item := Entry(root, source, sourceName);
    && item.Some? && Entry(root, dir, name).None? && Apart(source + [sourceName], dir + [name])
    && Copyable(item.value, depth) && UsageOf(item.value).Within(left)
  }

  /** No call failed for an outside reason, or one did and the copy would have succeeded otherwise. */
  ghost predicate Spared(before: nat, after: nat, root: Node, source: Path, sourceName: Name, dir: Path, name: Name, depth: nat, left: Usage) {
    after == before || (after == before + 1 && CopySucceeds(root, source, sourceName, dir, name, depth, left))
  }

  /** Copy one item and everything below it into a slot. A directory copied into itself is copied deeper and deeper until
      a limit stops it. */
  method CopyEntry(fs: FileSystem, source: Path, sourceName: Name, dir: Path, name: Name, depth: nat, budget: TraversalBudget)
    returns (r: Outcome)
    requires IsDir(fs.root, source) && IsDir(fs.root, dir)
    requires budget.Left().Within(FULL_BUDGET)
    modifies fs, budget
    ensures SameBut(old(fs.root), fs.root, dir, name)
    ensures SlotOnly(old(fs.root), old(fs.trace), fs.trace, dir, name)
    ensures r.Done? ==>
      var item := Entry(old(fs.root), source, sourceName);
      && item.Some? && Entry(old(fs.root), dir, name).None? && Apart(source + [sourceName], dir + [name])
      && fs.root == SetSlot(old(fs.root), dir, name, Some(Masked(item.value)))
      && old(budget.Left()) == budget.Left().Plus(UsageOf(item.value))
    ensures r.Done? ==> CopySucceeds(old(fs.root), source, sourceName, dir, name, depth, old(budget.Left()))
    ensures fs.faults == old(fs.faults) ==>
      (r.Done? <==> CopySucceeds(old(fs.root), source, sourceName, dir, name, depth, old(budget.Left())))
    // nothing is left of a copy that fails by itself, or for one outside fault alone
    ensures r.Failed? && Spared(old(fs.faults), fs.faults, old(fs.root), source, sourceName, dir, name, depth, old(budget.Left())) ==>
      fs.root == old(fs.root)
    ensures r.Failed? ==> Obstacle(r.error)
    ensures fs.faults == old(fs.faults) && r.Failed? ==>
      CopyFails(r.error, old(fs.root), source, sourceName, dir, name, depth, old(budget.Left()))
    ensures fs.faults == old(fs.faults) && r == Failed(Missing) ==> Entry(old(fs.root), source, sourceName).None?
    ensures fs.faults >= old(fs.faults)
    ensures budget.Left().Within(old(budget.Left()))
    decreases MAX_RECURSION_DEPTH + 1 - depth
  {
    hide SetSlot, IsDir;
    ghost var root := fs.root;
    SameButSet(root, dir, name, None);
    if depth > MAX_RECURSION_DEPTH {
      return Failed(TraversalLimit);
    }
    var stat := fs.Stat(source, sourceName);
    if stat.Failure? {
      return Failed(if stat.error.NotFound? then Missing else Io);
    }
    var node := stat.value;
    if Entry(root, dir, name).None? {
      ApartOrAbove(root, source, sourceName, dir, name);
    }
    ghost var start := budget.Left();
    var charged := budget.Charge(node);
    if !charged {
      return Failed(TraversalLimit);
    }
    match node {
      case Special =>
        return Failed(UnsupportedType);
      case File(mode, data) =>
        r := CopyRegular(fs, mode, data, dir, name);
      case Link(target) =>
        r := CopySymlink(fs, target, dir, name);
      case Dir(mode, entries) =>
        r := CopyDirectory(fs, source, sourceName, mode, entries, dir, name, depth, budget, start);
    }
  }

  method CopyDirectory(fs: FileSystem, source: Path, sourceName: Name, mode: nat, entries: map<Name, Node>,
                       dir: Path, name: Name, depth: nat, budget: TraversalBudget, ghost start: Usage)
    returns (r: Outcome)
    requires IsDir(fs.root, source) && IsDir(fs.root, dir)
    requires Entry(fs.root, source, sourceName) == Some(Dir(mode, entries))
    requires depth <= MAX_RECURSION_DEPTH
    requires start == budget.Left().Plus(Usage(1, 0)) && start.Within(FULL_BUDGET)
    modifies fs, budget
    ensures CopyOutcome(r, Dir(mode, entries), old(fs.root), fs.root, dir, name)
    ensures SlotOnly(old(fs.root), old(fs.trace), fs.trace, dir, name)
    ensures r.Done? ==> Apart(source + [sourceName], dir + [name]) && start == budget.Left().Plus(UsageOf(Dir(mode, entries)))
    ensures r.Done? ==> CopySucceeds(old(fs.root), source, sourceName, dir, name, depth, start)
    ensures fs.faults == old(fs.faults) ==> (r.Done? <==> CopySucceeds(old(fs.root), source, sourceName, dir, name, depth, start))
    ensures r.Failed? && Spared(old(fs.faults), fs.faults, old(fs.root), source, sourceName, dir, name, depth, start) ==>
      fs.root == old(fs.root)
    ensures r.Failed? ==> Obstacle(r.error)
    ensures fs.faults == old(fs.faults) && r.Failed? ==> CopyFails(r.error, old(fs.root), source, sourceName, dir, name, depth, start)
    ensures fs.faults >= old(fs.faults)
    ensures budget.Left().Within(start)
    decreases MAX_RECURSION_DEPTH + 1 - depth, 3
  {
    hide SetSlot, Entry, IsDir, Names, Total, UsageOf, UsageIn, Apart, Copyable, RemovalFails;
    ghost var root := fs.root;
    SameButSet(root, dir, name, None);
    WriteBack(root, dir, name);
    var ok := fs.Attempt();
    if !ok {
      return Failed(Io);
    }
    var created := fs.Create(dir, name, Dir(PRIVATE_MODE, map[]));
    if !created {
      return Failed(Io);
    }
    InsideReady(root, dir, name, Dir(PRIVATE_MODE, map[]), name);
    Overwrite(root, dir, name, Some(Dir(PRIVATE_MODE, map[])), None);
    ok := fs.Attempt();
    if !ok {
      var _ := fs.Unlink(dir, name);
      return Failed(Io);
    }
    ghost var was := old(fs.trace);
    r := FillDirectory(fs, root, source, sourceName, mode, entries, dir, name, depth, budget, start);
    if r.Failed? {
      ghost var partial, mid := fs.root, fs.trace;
      SameButDir(root, partial, dir, name);
      ok := fs.Attempt();
      if !ok {
        return Failed(Io);
      }
      var cleanup := new TraversalBudget();
      var _ := RemoveEntry(fs, dir, name, depth, cleanup);
      SameButThen(root, partial, fs.root, dir, name);
      SlotOnlyThen(root, partial, was, mid, fs.trace, dir, name);
      Overwrite(root, dir, name, Entry(partial, dir, name), None);
    }
  }

  /** The name of the child that leads to the copy itself, if the copy is made below its source. */
  ghost function Stop(source: Path, sourceName: Name, dir: Path, name: Name): Option<Name> {
    if source + [sourceName] <= dir then Some(Step(source + [sourceName], dir, name)) else None
  }

  /** Copy the children into the new directory, then give it its permission bits. */
  method FillDirectory(fs: FileSystem, ghost root: Node, source: Path, sourceName: Name, mode: nat, entries: map<Name, Node>,
                       dir: Path, name: Name, depth: nat, budget: TraversalBudget, ghost start: Usage)
    returns (r: Outcome)
    requires IsDir(root, source) && IsDir(root, dir)
    requires Entry(root, source, sourceName) == Some(Dir(mode, entries)) && Entry(root, dir, name).None?
    requires fs.root == SetSlot(root, dir, name, Some(Dir(PRIVATE_MODE, map[])))
    requires depth <= MAX_RECURSION_DEPTH
    requires start == budget.Left().Plus(Usage(1, 0)) && start.Within(FULL_BUDGET)
    modifies fs, budget
    ensures SameBut(root, fs.root, dir, name)
    ensures SlotOnly(root, old(fs.trace), fs.trace, dir, name)
    ensures r.Done? ==>
      && Apart(source + [sourceName], dir + [name])
      && fs.root == SetSlot(root, dir, name, Some(Masked(Dir(mode, entries))))
      && start == budget.Left().Plus(UsageOf(Dir(mode, entries)))
    ensures r.Done? ==> CopySucceeds(root, source, sourceName, dir, name, depth, start)
    ensures fs.faults == old(fs.faults) ==> (r.Done? <==> CopySucceeds(root, source, sourceName, dir, name, depth, start))
    ensures r.Failed? ==> Obstacle(r.error)
    ensures fs.faults == old(fs.faults) && r.Failed? ==> CopyFails(r.error, root, source, sourceName, dir, name, depth, start)
    ensures fs.faults >= old(fs.faults)
    ensures r.Failed? && Spared(old(fs.faults), fs.faults, root, source, sourceName, dir, name, depth, start) ==>
      var held := Entry(fs.root, dir, name);
      held.Some? && Removable(held.value, depth) && UsageOf(held.value).Within(FULL_BUDGET)
    ensures budget.Left().Within(start)
    decreases MAX_RECURSION_DEPTH + 1 - depth, 2
  {
    hide SetSlot, Entry, IsDir, Names, UsageOf, Apart, Step, Stop, Copyable, Removable, CopySucceeds, CopyFails, SlotOnly, SameBut, Usage.Plus,
      Usage.Within;
    ghost var made: map<Name, Node> := map[];
    InsideReady(root, dir, name, Dir(PRIVATE_MODE, made), name);
    SourceNames(root, dir, name, made, source, sourceName);
    RemovableEmptyDir(PRIVATE_MODE, depth);
    OnlyTheEmptyDir(start, budget.Left());
    NothingChanged(root, fs.trace, dir, name);
    var names, oversized := fs.DirectoryNames(source + [sourceName]);
    if names.None? {
      OversizedFails(root, source, sourceName, mode, entries, dir, name, depth, start);
      return Failed(if oversized then TraversalLimit else Io);
    }
    r, made := CopyContents(fs, root, source, sourceName, mode, entries, names.value, dir, name, depth, budget, start);
    InsideReady(root, dir, name, Dir(PRIVATE_MODE, made), name);
    WithinThen(UsageOf(Dir(PRIVATE_MODE, made)), start, FULL_BUDGET);
    if r.Done? {
      ModeAside(PRIVATE_MODE, mode % 0x200, made, depth);
      assert made == MaskedIn(entries);
      ghost var mid := fs.trace;
      var ok := GivePermissions(fs, root, dir, name, mode % 0x200, made);
      SlotOnlyJoined(root, old(fs.trace), mid, fs.trace, dir, name);
      r := if ok then Done else Failed(Io);
    }
  }

  /** Permission bits and sync of a directory that has been filled. */
  method GivePermissions(fs: FileSystem, ghost root: Node, dir: Path, name: Name, mode: nat, ghost made: map<Name, Node>)
    returns (ok: bool)
    requires IsDir(root, dir) && fs.root == SetSlot(root, dir, name, Some(Dir(PRIVATE_MODE, made)))
    modifies fs
    ensures SameBut(root, fs.root, dir, name) && SlotOnly(root, old(fs.trace), fs.trace, dir, name)
    ensures var held := Entry(fs.root, dir, name); held == Some(Dir(mode, made)) || held == Some(Dir(PRIVATE_MODE, made))
    ensures ok ==> fs.root == SetSlot(root, dir, name, Some(Dir(mode, made)))
    ensures fs.faults == old(fs.faults) + if ok then 0 else 1
  {
    hide SetSlot, Entry, IsDir, Names;
    InsideReady(root, dir, name, Dir(PRIVATE_MODE, made), name);
    InsideReady(root, dir, name, Dir(mode, made), name);
    Overwrite(root, dir, name, Some(Dir(PRIVATE_MODE, made)), Some(Dir(mode, made)));
    ok := fs.Chmod(dir, name, mode);
    if ok {
      ok := fs.Attempt();
    }
  }

  lemma OnlyTheEmptyDir(start: Usage, left: Usage)
    requires start == left.Plus(Usage(1, 0)) && start.Within(FULL_BUDGET)
    ensures left.Within(start) && UsageOf(Dir(PRIVATE_MODE, map[])).Within(FULL_BUDGET)
  {
    UsageEmptyDir(PRIVATE_MODE);
  }

  /** Removal does not look at permission bits. */
  lemma ModeAside(a: nat, b: nat, entries: map<Name, Node>, depth: nat)
    ensures Removable(Dir(a, entries), depth) <==> Removable(Dir(b, entries), depth)
    ensures UsageOf(Dir(a, entries)) == UsageOf(Dir(b, entries))
  {
    UsageDir(a, entries);
    UsageDir(b, entries);
  }

  lemma WithinThen(a: Usage, b: Usage, c: Usage)
    ensures a.Within(b) && b.Within(c) ==> a.Within(c)
  {
  }

  /** A directory that shows too many names is not copied. */
  lemma OversizedFails(root: Node, source: Path, sourceName: Name, mode: nat, entries: map<Name, Node>, dir: Path, name: Name,
                       depth: nat, left: Usage)
    requires Entry(root, source, sourceName) == Some(Dir(mode, entries)) && Entry(root, dir, name).None?
    ensures Stop(source, sourceName, dir, name).Some? || |entries| > MAX_DIRECTORY_ENTRIES ==>
      && !CopySucceeds(root, source, sourceName, dir, name, depth, left)
      && CopyFails(TraversalLimit, root, source, sourceName, dir, name, depth, left)
  {
    DirectorySucceeds(root, source, sourceName, mode, entries, dir, name, depth, left);
    CopyableDir(mode, entries, depth);
    hide Copyable, UsageOf, CopySucceeds;
    if source + [sourceName] <= dir {
      assert source + [sourceName] <= dir + [name];
    }
  }

  /** The names a source directory shows while the copy exists. */
  lemma SourceNames(root: Node, dir: Path, name: Name, made: map<Name, Node>, source: Path, sourceName: Name)
    requires IsDir(root, source) && IsDir(root, dir)
    requires Entry(root, source, sourceName).Some? && Entry(root, source, sourceName).value.Dir? && Entry(root, dir, name).None?
    ensures var tree := SetSlot(root, dir, name, Some(Dir(PRIVATE_MODE, made)));
      var entries, stop := Entry(root, source, sourceName).value.entries, Stop(source, sourceName, dir, name);
      && IsDir(tree, source + [sourceName])
      && Names(tree, source + [sourceName]) == entries.Keys + (if stop.Some? then {stop.value} else {})
      && (stop.None? <==> Apart(source + [sourceName], dir + [name]))
  {
    hide SetSlot, Entry, IsDir, Names, Step;
    ApartOrAbove(root, source, sourceName, dir, name);
    if source + [sourceName] <= dir {
      AboveReady(root, dir, name, Dir(PRIVATE_MODE, made), source, sourceName, name);
    } else {
      SourceReady(root, dir, name, Some(Dir(PRIVATE_MODE, made)), source, sourceName, name);
    }
  }

  method CopyContents(fs: FileSystem, ghost root: Node, source: Path, sourceName: Name, ghost mode: nat, ghost entries: map<Name, Node>,
                      names: set<Name>, dir: Path, name: Name, depth: nat, budget: TraversalBudget, ghost start: Usage)
    returns (r: Outcome, ghost made: map<Name, Node>)
    requires IsDir(root, source) && IsDir(root, dir)
    requires Entry(root, source, sourceName) == Some(Dir(mode, entries)) && Entry(root, dir, name).None?
    requires fs.root == SetSlot(root, dir, name, Some(Dir(PRIVATE_MODE, map[])))
    requires var stop := Stop(source, sourceName, dir, name);
      && names == entries.Keys + (if stop.Some? then {stop.value} else {})
      && (stop.None? <==> Apart(source + [sourceName], dir + [name]))
    requires |names| <= MAX_DIRECTORY_ENTRIES && depth <= MAX_RECURSION_DEPTH
    requires start == budget.Left().Plus(Usage(1, 0)) && start.Within(FULL_BUDGET)
    modifies fs, budget
    ensures SameBut(root, fs.root, dir, name)
    ensures SlotOnly(root, old(fs.trace), fs.trace, dir, name)
    ensures r.Done? ==>
      && Apart(source + [sourceName], dir + [name]) && made == MaskedIn(entries)
      && start == budget.Left().Plus(UsageOf(Dir(mode, entries)))
    ensures r.Done? || Spared(old(fs.faults), fs.faults, root, source, sourceName, dir, name, depth, start) ==>
      fs.root == SetSlot(root, dir, name, Some(Dir(PRIVATE_MODE, made)))
    ensures r.Done? ==> CopySucceeds(root, source, sourceName, dir, name, depth, start)
    ensures fs.faults == old(fs.faults) ==> (r.Done? <==> CopySucceeds(root, source, sourceName, dir, name, depth, start))
    ensures r.Failed? ==> Obstacle(r.error)
    ensures fs.faults == old(fs.faults) && r.Failed? ==> CopyFails(r.error, root, source, sourceName, dir, name, depth, start)
    ensures fs.faults >= old(fs.faults)
    ensures Removable(Dir(PRIVATE_MODE, made), depth) && UsageOf(Dir(PRIVATE_MODE, made)).Within(start)
    ensures budget.Left().Within(start)
    decreases MAX_RECURSION_DEPTH + 1 - depth, 1
  {
    hide SetSlot, Entry, IsDir, Names, UsageOf, Masked, MaskedIn, Copyable, Removable, Apart, Step, Stop, SlotOnly, SameBut,
      CopySucceeds, CopyFails, ChildFails, PartCopied, Usage.Plus, Usage.Within;
    ghost var was, stop := fs.trace, Stop(source, sourceName, dir, name);
    made := map[];
    InsideReady(root, dir, name, Dir(PRIVATE_MODE, made), name);
    DirectorySucceeds(root, source, sourceName, mode, entries, dir, name, depth, start);
    PartStart(mode, entries, names, stop, depth, start, budget.Left());
    NothingChanged(root, was, dir, name);
    var remaining := names;
    ghost var rest := entries;
    while remaining != {}
      invariant PartCopied(mode, entries, made, rest, remaining, stop, depth, start, budget.Left())
      invariant fs.faults >= old(fs.faults)
      invariant fs.root == SetSlot(root, dir, name, Some(Dir(PRIVATE_MODE, made)))
      invariant SlotOnly(root, was, fs.trace, dir, name)
      invariant budget.Left().Within(start) && budget.Left().Within(FULL_BUDGET)
    {
      var child :| child in remaining;
      ghost var mid, left := fs.trace, budget.Left();
      PartChild(mode, entries, made, rest, remaining, stop, depth, start, left, child);
      r := CopyChild(fs, root, source, sourceName, mode, entries, dir, name, made, child, depth, budget);
      SlotOnlyJoined(root, was, mid, fs.trace, dir, name);
      if r.Failed? {
        PartFails(mode, entries, made, rest, remaining, stop, depth, start, left, child);
        if fs.faults == old(fs.faults) {
          PartReason(root, source, sourceName, mode, entries, dir, name, made, rest, remaining, stop, depth, start, left, child, r.error);
        }
        return;
      }
      PartStep(mode, entries, made, rest, remaining, stop, depth, start, left, child, budget.Left());
      made := made[child := Masked(entries[child])];
      remaining, rest := remaining - {child}, rest - {child};
    }
    PartDone(mode, entries, made, rest, stop, depth, start, budget.Left());
    SameButSet(root, dir, name, Some(Dir(PRIVATE_MODE, made)));
    r := Done;
  }

  /** The loop over the children: what is made, what is still to come, and what has been charged. */
  ghost predicate PartCopied(mode: nat, entries: map<Name, Node>, made: map<Name, Node>, rest: map<Name, Node>, remaining: set<Name>,
                             stop: Option<Name>, depth: nat, start: Usage, left: Usage) {
    && remaining == rest.Keys + (if stop.Some? then {stop.value} else {})
    && Halfway(mode, entries, made, rest)
    && MadeCopyable(entries, made, depth + 1)
    && |entries| <= MAX_DIRECTORY_ENTRIES && depth <= MAX_RECURSION_DEPTH
    && start == left.Plus(UsageOf(Dir(PRIVATE_MODE, made)))
  }

  lemma PartStart(mode: nat, entries: map<Name, Node>, names: set<Name>, stop: Option<Name>, depth: nat, start: Usage, left: Usage)
    requires names == entries.Keys + (if stop.Some? then {stop.value} else {})
    requires |names| <= MAX_DIRECTORY_ENTRIES && depth <= MAX_RECURSION_DEPTH && start == left.Plus(Usage(1, 0))
    requires start.Within(FULL_BUDGET)
    ensures PartCopied(mode, entries, map[], entries, names, stop, depth, start, left)
    ensures left.Within(start) && left.Within(FULL_BUDGET)
  {
    hide UsageOf, Halfway;
    HalfwayStart(mode, entries);
    SubsetSize(entries.Keys, names);
  }

  lemma PartChild(mode: nat, entries: map<Name, Node>, made: map<Name, Node>, rest: map<Name, Node>, remaining: set<Name>,
                  stop: Option<Name>, depth: nat, start: Usage, left: Usage, child: Name)
    requires PartCopied(mode, entries, made, rest, remaining, stop, depth, start, left) && child in remaining
    ensures stop == Some(child) || (child in entries && child in rest && child !in made)
  {
    hide UsageOf, UsageIn, Masked;
  }

  lemma PartStep(mode: nat, entries: map<Name, Node>, made: map<Name, Node>, rest: map<Name, Node>, remaining: set<Name>,
                 stop: Option<Name>, depth: nat, start: Usage, left: Usage, child: Name, later: Usage)
    requires PartCopied(mode, entries, made, rest, remaining, stop, depth, start, left)
    requires child in remaining && stop != Some(child) && child in rest && child in entries
    requires left == later.Plus(UsageOf(entries[child])) && Copyable(entries[child], depth + 1)
    requires start.Within(FULL_BUDGET)
    ensures later.Within(start) && later.Within(FULL_BUDGET)
    ensures PartCopied(mode, entries, made[child := Masked(entries[child])], rest - {child}, remaining - {child}, stop, depth, start, later)
  {
    hide UsageOf, UsageIn, Halfway, Copyable, Masked;
    HalfwayStep(mode, entries, made, rest, child);
  }

  /** When a child cannot be copied, neither can its directory, and what has been made can be removed. */
  lemma PartFails(mode: nat, entries: map<Name, Node>, made: map<Name, Node>, rest: map<Name, Node>, remaining: set<Name>,
                  stop: Option<Name>, depth: nat, start: Usage, left: Usage, child: Name)
    requires PartCopied(mode, entries, made, rest, remaining, stop, depth, start, left) && child in remaining
    ensures Removable(Dir(PRIVATE_MODE, made), depth) && UsageOf(Dir(PRIVATE_MODE, made)).Within(start)
    ensures forall later: Usage :: later.Within(left) ==> later.Within(start)
    ensures stop != Some(child) && child in entries && !(Copyable(entries[child], depth + 1) && UsageOf(entries[child]).Within(left)) ==>
      !(Copyable(Dir(mode, entries), depth) && UsageOf(Dir(mode, entries)).Within(start))
  {
    CopyableDir(mode, entries, depth);
    hide UsageOf, Halfway, Copyable, Removable;
    HalfwayRemovable(mode, entries, made, rest, depth);
    if stop != Some(child) {
      HalfwayStep(mode, entries, made, rest, child);
    }
  }

  /** The reason a child is not copied is a reason for its directory too. */
  lemma PartReason(root: Node, source: Path, sourceName: Name, mode: nat, entries: map<Name, Node>, dir: Path, name: Name,
                   made: map<Name, Node>, rest: map<Name, Node>, remaining: set<Name>, stop: Option<Name>, depth: nat, start: Usage,
                   left: Usage, child: Name, error: DesktopError)
    requires Entry(root, source, sourceName) == Some(Dir(mode, entries)) && stop == Stop(source, sourceName, dir, name)
    requires stop.None? <==> Apart(source + [sourceName], dir + [name])
    requires PartCopied(mode, entries, made, rest, remaining, stop, depth, start, left) && child in remaining
    requires Obstacle(error) && !error.Missing?
    requires stop != Some(child) ==> child in entries && ChildFails(error, entries[child], depth, left)
    ensures CopyFails(error, root, source, sourceName, dir, name, depth, start)
  {
    hide UsageOf, Halfway, Copyable, Removable, Entry, Apart, ChildFails, RemovalFails, MadeCopyable;
    if stop != Some(child) {
      InRest(mode, entries, made, rest, remaining, stop, depth, start, left, child);
      ReasonUp(mode, entries, made, rest, depth, start, left, child, error);
    }
  }

  lemma InRest(mode: nat, entries: map<Name, Node>, made: map<Name, Node>, rest: map<Name, Node>, remaining: set<Name>, stop: Option<Name>,
               depth: nat, start: Usage, left: Usage, child: Name)
    requires PartCopied(mode, entries, made, rest, remaining, stop, depth, start, left) && child in remaining && stop != Some(child)
    ensures child in rest
  {
    hide Halfway, MadeCopyable, UsageOf;
  }

  lemma ReasonUp(mode: nat, entries: map<Name, Node>, made: map<Name, Node>, rest: map<Name, Node>, depth: nat, start: Usage,
                 left: Usage, child: Name, error: DesktopError)
    requires Halfway(mode, entries, made, rest) && child in rest && child in entries
    requires start == left.Plus(UsageOf(Dir(PRIVATE_MODE, made))) && ChildFails(error, entries[child], depth, left)
    ensures (error.NameTooLong? && !ShortLinks(Dir(mode, entries))) || RemovalFails(error, Some(Dir(mode, entries)), depth, start)
  {
    hide UsageOf, Halfway, Masked, Usage.Within, Usage.Plus, Supported, InBounds, ShortLinks;
    TooMuchUp(mode, entries, made, rest, start, left, child);
    ReasonsDir(mode, entries, depth, child);
  }

  lemma TooMuchUp(mode: nat, entries: map<Name, Node>, made: map<Name, Node>, rest: map<Name, Node>, start: Usage, left: Usage, child: Name)
    requires Halfway(mode, entries, made, rest) && child in rest && child in entries
    requires start == left.Plus(UsageOf(Dir(PRIVATE_MODE, made)))
    ensures !UsageOf(entries[child]).Within(left) ==> !UsageOf(Dir(mode, entries)).Within(start)
  {
    hide UsageOf, Halfway, Masked;
    HalfwayStep(mode, entries, made, rest, child);
  }

  lemma PartDone(mode: nat, entries: map<Name, Node>, made: map<Name, Node>, rest: map<Name, Node>, stop: Option<Name>,
                 depth: nat, start: Usage, left: Usage)
    requires PartCopied(mode, entries, made, rest, {}, stop, depth, start, left)
    ensures stop.None? && made == MaskedIn(entries) && start == left.Plus(UsageOf(Dir(mode, entries)))
    ensures Copyable(Dir(mode, entries), depth) && Removable(Dir(PRIVATE_MODE, made), depth)
    ensures UsageOf(Dir(PRIVATE_MODE, made)).Within(start) && UsageOf(Dir(mode, entries)).Within(start)
  {
    CopyableDir(mode, entries, depth);
    hide UsageOf, Halfway, Copyable, Removable, MaskedIn;
    HalfwayDone(mode, entries, made, rest);
    HalfwayRemovable(mode, entries, made, rest, depth);
  }

  lemma DirectorySucceeds(root: Node, source: Path, sourceName: Name, mode: nat, entries: map<Name, Node>, dir: Path, name: Name,
                          depth: nat, left: Usage)
    requires Entry(root, source, sourceName) == Some(Dir(mode, entries)) && Entry(root, dir, name).None?
    ensures CopySucceeds(root, source, sourceName, dir, name, depth, left) <==>
      Apart(source + [sourceName], dir + [name]) && Copyable(Dir(mode, entries), depth) && UsageOf(Dir(mode, entries)).Within(left)
  {
    hide Copyable, UsageOf, Apart, Entry;
  }

  lemma SlotOnlyJoined(root: Node, was: seq<Node>, mid: seq<Node>, now: seq<Node>, dir: Path, name: Name)
    requires SlotOnly(root, was, mid, dir, name) && SlotOnly(root, mid, now, dir, name)
    ensures SlotOnly(root, was, now, dir, name)
  {
    hide SameBut;
    forall i | |was| <= i < |now| ensures SameBut(root, now[i], dir, name) {
      assert i < |mid| ==> now[i] == mid[i];
    }
  }

  lemma NothingChanged(root: Node, was: seq<Node>, dir: Path, name: Name)
    ensures SlotOnly(root, was, was, dir, name)
  {
  }

  /** One child; the one that leads to the copy itself cannot be copied. */
  method CopyChild(fs: FileSystem, ghost root: Node, source: Path, sourceName: Name, ghost mode: nat, ghost entries: map<Name, Node>,
                   dir: Path, name: Name, ghost made: map<Name, Node>, child: Name, depth: nat, budget: TraversalBudget)
    returns (r: Outcome)
    requires IsDir(root, source) && IsDir(root, dir)
    requires Entry(root, source, sourceName) == Some(Dir(mode, entries)) && Entry(root, dir, name).None?
    requires fs.root == SetSlot(root, dir, name, Some(Dir(PRIVATE_MODE, made)))
    requires Stop(source, sourceName, dir, name) == Some(child) || (child in entries && child !in made)
    requires depth <= MAX_RECURSION_DEPTH && budget.Left().Within(FULL_BUDGET)
    modifies fs, budget
    ensures SameBut(root, fs.root, dir, name)
    ensures SlotOnly(root, old(fs.trace), fs.trace, dir, name)
    ensures r.Done? ==>
      && Stop(source, sourceName, dir, name) != Some(child)
      && fs.root == SetSlot(root, dir, name, Some(Dir(PRIVATE_MODE, made[child := Masked(entries[child])])))
      && old(budget.Left()) == budget.Left().Plus(UsageOf(entries[child]))
    ensures r.Done? ==> Copyable(entries[child], depth + 1)
    ensures fs.faults == old(fs.faults) && Stop(source, sourceName, dir, name) != Some(child) ==>
      (r.Done? <==> Copyable(entries[child], depth + 1) && UsageOf(entries[child]).Within(old(budget.Left())))
    ensures r.Failed? && fs.faults == old(fs.faults) ==> fs.root == old(fs.root)
    ensures r.Failed? && fs.faults <= old(fs.faults) + 1 && Stop(source, sourceName, dir, name) != Some(child)
            && Copyable(entries[child], depth + 1) && UsageOf(entries[child]).Within(old(budget.Left())) ==>
      fs.root == old(fs.root)
    ensures r.Failed? ==> Obstacle(r.error) && (fs.faults == old(fs.faults) ==> !r.error.Missing?)
    ensures fs.faults == old(fs.faults) && r.Failed? && Stop(source, sourceName, dir, name) != Some(child) ==>
      ChildFails(r.error, entries[child], depth, old(budget.Left()))
    ensures fs.faults >= old(fs.faults)
    ensures budget.Left().Within(old(budget.Left()))
    decreases MAX_RECURSION_DEPTH + 1 - depth, 0
  {
    hide SetSlot, Entry, IsDir, Names, UsageOf, Masked, Copyable, Apart, Stop, RemovalFails;
    ghost var held := Dir(PRIVATE_MODE, made);
    InsideReady(root, dir, name, held, child);
    ChildReady(root, dir, name, held, source, sourceName, child);
    r := CopyEntry(fs, source + [sourceName], child, dir + [name], child, depth + 1, budget);
    SlotOnlyInside(root, held, fs.root, old(fs.trace), old(fs.trace), fs.trace, dir, name, child);
    if r.Done? {
      InsideSet(root, dir, name, held, child, Some(Masked(entries[child])));
    }
  }

  /** A child as the copy finds it. */
  lemma ChildReady(root: Node, dir: Path, name: Name, held: Node, source: Path, sourceName: Name, child: Name)
    requires IsDir(root, source) && IsDir(root, dir) && held.Dir?
    requires Entry(root, source, sourceName).Some? && Entry(root, source, sourceName).value.Dir? && Entry(root, dir, name).None?
    ensures var tree := SetSlot(root, dir, name, Some(held));
      var entries := Entry(root, source, sourceName).value.entries;
      && IsDir(tree, source + [sourceName])
      && (Stop(source, sourceName, dir, name) == Some(child) ==>
            !Apart(source + [sourceName] + [child], dir + [name] + [child]) && Entry(tree, source + [sourceName], child).Some?)
      && (Stop(source, sourceName, dir, name) != Some(child) ==>
            && Apart(source + [sourceName] + [child], dir + [name] + [child])
            && Entry(tree, source + [sourceName], child) == (if child in entries then Some(entries[child]) else None))
  {
    hide SetSlot, Entry, IsDir, Names, Step;
    ApartOrAbove(root, source, sourceName, dir, name);
    if source + [sourceName] <= dir {
      AboveReady(root, dir, name, held, source, sourceName, child);
      NamesAreEntries(SetSlot(root, dir, name, Some(held)), source + [sourceName], child);
      assert dir + [name] <= dir + [name] + [child];
    } else {
      SourceReady(root, dir, name, Some(held), source, sourceName, child);
    }
  }

  /** Which children exist already and which are still to come; together they are charged as the whole. */
  ghost predicate Halfway(mode: nat, entries: map<Name, Node>, made: map<Name, Node>, rest: map<Name, Node>) {
    && made.Keys + rest.Keys == entries.Keys && made.Keys !! rest.Keys
    && (forall n <- made :: made[n] == Masked(entries[n]))
    && (forall n <- rest :: rest[n] == entries[n])
    && UsageOf(Dir(mode, entries)) == UsageOf(Dir(PRIVATE_MODE, made)).Plus(UsageIn(rest))
  }

  ghost predicate MadeCopyable(entries: map<Name, Node>, made: map<Name, Node>, depth: nat) {
    forall n <- made :: n in entries && Copyable(entries[n], depth)
  }

  lemma HalfwayStart(mode: nat, entries: map<Name, Node>)
    ensures Halfway(mode, entries, map[], entries)
    ensures UsageOf(Dir(PRIVATE_MODE, map[])) == Usage(1, 0)
  {
    hide Total, UsageOf, UsageIn;
    UsageEmptyDir(PRIVATE_MODE);
    UsageDir(mode, entries);
  }

  lemma HalfwayStep(mode: nat, entries: map<Name, Node>, made: map<Name, Node>, rest: map<Name, Node>, child: Name)
    requires Halfway(mode, entries, made, rest) && child in rest
    ensures child !in made && child in entries && rest[child] == entries[child]
    ensures var now := made[child := Masked(entries[child])];
      && Halfway(mode, entries, now, rest - {child})
      && UsageOf(Dir(PRIVATE_MODE, now)) == UsageOf(Dir(PRIVATE_MODE, made)).Plus(UsageOf(entries[child]))
      && UsageOf(Dir(PRIVATE_MODE, now)).Within(UsageOf(Dir(mode, entries)))
  {
    hide Total, UsageOf, UsageIn, Masked;
    var now := made[child := Masked(entries[child])];
    assert now - {child} == made;
    UsageDir(PRIVATE_MODE, now);
    UsageDir(PRIVATE_MODE, made);
    UsageSplit(now, child);
    UsageSplit(rest, child);
    MaskedUsage(entries[child]);
  }

  lemma HalfwayDone(mode: nat, entries: map<Name, Node>, made: map<Name, Node>, rest: map<Name, Node>)
    requires Halfway(mode, entries, made, rest) && rest == map[]
    ensures made == MaskedIn(entries) && made.Keys == entries.Keys
    ensures UsageOf(Dir(PRIVATE_MODE, made)) == UsageOf(Dir(mode, entries))
  {
    hide Total, UsageOf, UsageIn, Masked;
    UsageNone();
  }

  /** What has been copied so far can be removed again. */
  lemma HalfwayRemovable(mode: nat, entries: map<Name, Node>, made: map<Name, Node>, rest: map<Name, Node>, depth: nat)
    requires Halfway(mode, entries, made, rest) && |entries| <= MAX_DIRECTORY_ENTRIES && depth <= MAX_RECURSION_DEPTH
    requires MadeCopyable(entries, made, depth + 1)
    ensures Removable(Dir(PRIVATE_MODE, made), depth)
  {
    hide Total, UsageOf, UsageIn, Masked;
    SubsetSize(made.Keys, entries.Keys);
    forall n | n in made ensures Removable(made[n], depth + 1) {
      CopyableRemovable(entries[n], depth + 1);
    }
  }

  lemma RemovableEmptyDir(mode: nat, depth: nat)
    requires depth <= MAX_RECURSION_DEPTH
    ensures Removable(Dir(mode, map[]), depth)
  {
  }
}
