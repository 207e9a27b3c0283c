// Pasting: choose a name, build or rename the item into place, and clean up.
module DesktopPaste {
  import opened Wrappers
  import opened FileTree
  import opened Kernel
  import opened DesktopNames
  import opened DesktopTransfer

  method Exists(fs: FileSystem, dir: Path, name: Name) returns (r: Result<bool, DesktopError>)
    requires IsDir(fs.root, dir)
    modifies fs`faults
    ensures ValidateName(name).Some? ==> r == Failure(ValidateName(name).value)
    ensures ValidateName(name).None? ==> r == Failure(Io) || r == Success(Entry(fs.root, dir, name).Some?)
    ensures fs.faults == old(fs.faults) + if ValidateName(name).None? && r.Failure? then 1 else 0
  {
    var invalid := ValidateName(name);
    if invalid.Some? {
      return Failure(invalid.value);
    }
    var stat := fs.Stat(dir, name);
    match stat {
      case Success(_) => return Success(true);
      case Failure(NotFound) => return Success(false);
      case Failure(Other) => return Failure(Io);
    }
  }

  method KeepBothName(fs: FileSystem, dir: Path, preferred: Name) returns (r: Result<Name, DesktopError>)
    requires IsDir(fs.root, dir)
    modifies fs`faults
    ensures r == Failure(Io) || r == KeepBothResult(Names(fs.root, dir), preferred)
    ensures fs.faults >= old(fs.faults)
    ensures fs.faults == old(fs.faults) ==> r == KeepBothResult(Names(fs.root, dir), preferred)
  {
    hide Candidate;
    var invalid := ValidateName(preferred);
    if invalid.Some? {
      return Failure(invalid.value);
    }
    NamesAreEntries(fs.root, dir, preferred);
    var taken := Exists(fs, dir, preferred);
    if taken.Failure? {
      return Failure(taken.error);
    }
    if !taken.value {
      return Success(preferred);
    }
    var index := 1;
    while index <= MAX_COPIES
      invariant 1 <= index <= MAX_COPIES + 1 && fs.faults == old(fs.faults)
      invariant KeepBothResult(Names(fs.root, dir), preferred) == FirstFree(Names(fs.root, dir), preferred, index)
    {
      var candidate := Candidate(preferred, index);
      NamesAreEntries(fs.root, dir, candidate);
      taken := Exists(fs, dir, candidate);
      if taken.Failure? {
        return Failure(taken.error);
      }
      if !taken.value {
        return Success(candidate);
      }
      index := index + 1;
    }
    return Failure(Collision);
  }

  /** Copy number `i` is the first whose name no entry has. */
  ghost predicate FirstUnused(root: Node, dir: Path, preferred: Name, i: nat) {
    && 1 <= i <= MAX_COPIES && Entry(root, dir, Candidate(preferred, i)).None?
    && forall j | 1 <= j < i :: Entry(root, dir, Candidate(preferred, j)).Some?
  }

  /** The name an item gets: the preferred one if that is free or to be replaced, and otherwise that of the first unused copy,
      if both are to be kept. */
  ghost predicate Destined(root: Node, dir: Path, preferred: Name, choice: CollisionChoice, name: Name) {
    if Entry(root, dir, preferred).None? || choice.Replace? then name == preferred
    else
      choice.KeepBoth? && ValidateName(name).None? && exists i: nat :: FirstUnused(root, dir, preferred, i) && name == Candidate(preferred, i)
  }

  /** An occupied name that is not to be replaced. */
  ghost predicate GivenUp(root: Node, dir: Path, preferred: Name, choice: CollisionChoice) {
    Entry(root, dir, preferred).Some? && choice.Cancel?
  }

  lemma DestinationMeaning(root: Node, dir: Path, preferred: Name, choice: CollisionChoice)
    requires IsDir(root, dir) && ValidateName(preferred).None?
    ensures var r := DestinationName(Names(root, dir), preferred, choice);
      && (r.Success? ==> Destined(root, dir, preferred, choice, r.value))
      && (r == Failure(Cancelled) <==> GivenUp(root, dir, preferred, choice))
      && (r.Failure? && r.error != Cancelled ==>
            Entry(root, dir, preferred).Some? && choice.KeepBoth? && (r.error.Collision? || r.error.NameTooLong?))
  {
    hide Entry, IsDir, Names, ValidateName, Candidate, DestinationName;
    var names := Names(root, dir);
    NamesAreEntries(root, dir, preferred);
    ChoiceExact(names, preferred, choice);
    var r := DestinationName(names, preferred, choice);
    if preferred in names && choice.KeepBoth? && r.Success? {
      var i :| FirstCopy(names, preferred, i) && r.value == Candidate(preferred, i);
      forall name: Name ensures name in names <==> Entry(root, dir, name).Some? {
        NamesAreEntries(root, dir, name);
      }
      assert FirstUnused(root, dir, preferred, i);
    }
  }

  method ResolveDestinationName(fs: FileSystem, dir: Path, preferred: Name, choice: CollisionChoice)
    returns (r: Result<Name, DesktopError>)
    requires IsDir(fs.root, dir) && ValidateName(preferred).None?
    modifies fs`faults
    ensures fs.faults >= old(fs.faults)
    ensures r == Failure(Io) || r == DestinationName(Names(fs.root, dir), preferred, choice)
    ensures fs.faults == old(fs.faults) ==> r == DestinationName(Names(fs.root, dir), preferred, choice)
    ensures r.Success? ==> Destined(fs.root, dir, preferred, choice, r.value)
    ensures GivenUp(fs.root, dir, preferred, choice) ==> r == Failure(Cancelled) || r == Failure(Io)
    ensures r == Failure(Cancelled) ==> GivenUp(fs.root, dir, preferred, choice)
  {
    hide Destined, GivenUp;
    DestinationMeaning(fs.root, dir, preferred, choice);
    NamesAreEntries(fs.root, dir, preferred);
    var taken := Exists(fs, dir, preferred);
    if taken.Failure? {
      return Failure(taken.error);
    }
    if !taken.value {
      return Success(preferred);
    }
    match choice {
      case Cancel => return Failure(Cancelled);
      case Replace => return Success(preferred);
      case KeepBoth =>
        r := KeepBothName(fs, dir, preferred);
    }
  }

  // ---------------------------------------------------------------- safety of one state

  /** The item, or the copy a transfer makes of it. */
  ghost predicate Complete(entry: Option<Node>, item: Node) {
    entry == Some(item) || entry == Some(Masked(item))
  }

  /** What never stops being true of the two names while `item` travels from the first to the second. */
  ghost predicate Safe(before: Node, state: Node, source: Path, sourceName: Name, dir: Path, name: Name, item: Node) {
    && (Entry(state, source, sourceName) == Some(item) || Complete(Entry(state, dir, name), item))
    && (Entry(state, dir, name) == Entry(before, dir, name) || Complete(Entry(state, dir, name), item))
  }

  /** Every state since `was` is safe and leaves all other names alone. */
  ghost predicate SafeRun(before: Node, was: seq<Node>, now: seq<Node>, source: Path, sourceName: Name,
                          dir: Path, name: Name, item: Node, slots: set<Path>) {
    was <= now && forall i | |was| <= i < |now| ::
      Safe(before, now[i], source, sourceName, dir, name, item) && OthersKept(before, now[i], slots)
  }

  lemma Siblings(dir: Path, a: Name, b: Name)
    requires a != b
    ensures Apart(dir + [a], dir + [b])
  {
    assert (dir + [a])[|dir|] == a && (dir + [b])[|dir|] == b;
  }

  lemma KeptMore(before: Node, after: Node, slots: set<Path>, more: set<Path>)
    requires OthersKept(before, after, slots) && slots <= more
    ensures OthersKept(before, after, more)
  {
  }

  lemma KeptAt(before: Node, after: Node, slots: set<Path>, dir: Path, name: Name)
    requires OthersKept(before, after, slots) && forall slot <- slots :: Apart(slot, dir + [name])
    ensures Entry(after, dir, name) == Entry(before, dir, name)
  {
  }

  lemma KeptSelf(root: Node, slots: set<Path>)
    ensures OthersKept(root, root, slots)
  {
  }

  lemma KeptThen(first: Node, second: Node, third: Node, slots: set<Path>, more: set<Path>)
    requires OthersKept(first, second, slots) && OthersKept(second, third, more)
    ensures OthersKept(first, third, slots + more)
  {
    forall dir: Path, name: Name | forall slot <- slots + more :: Apart(slot, dir + [name])
      ensures Entry(third, dir, name) == Entry(first, dir, name)
    {
      assert Entry(second, dir, name) == Entry(first, dir, name);
    }
  }

  /** Two slots written one after the other. */
  lemma TwoSlots(root: Node, dir: Path, name: Name, slot: Option<Node>, dir2: Path, name2: Name, slot2: Option<Node>)
    requires IsDir(root, dir) && IsDir(root, dir2) && Apart(dir + [name], dir2 + [name2])
    ensures var tree := SetSlot(SetSlot(root, dir, name, slot), dir2, name2, slot2);
      && IsDir(tree, dir) && IsDir(tree, dir2)
      && Entry(tree, dir, name) == slot && Entry(tree, dir2, name2) == slot2
      && OthersKept(root, tree, {dir + [name], dir2 + [name2]})
  {
    var one := SetSlot(root, dir, name, slot);
    SameButSet(root, dir, name, slot);
    ReadBack(root, dir, name, slot);
    DirKept(root, dir, name, slot, dir2);
    SameButSet(one, dir2, name2, slot2);
    ReadBack(one, dir2, name2, slot2);
    DirKept(one, dir2, name2, slot2, dir);
    Untouched(one, dir2, name2, slot2, dir, name);
    SameButKeeps(root, one, dir, name, {dir + [name]});
    SameButKeeps(one, SetSlot(one, dir2, name2, slot2), dir2, name2, {dir2 + [name2]});
    KeptThen(root, one, SetSlot(one, dir2, name2, slot2), {dir + [name]}, {dir2 + [name2]});
    assert {dir + [name]} + {dir2 + [name2]} == {dir + [name], dir2 + [name2]};
  }

  /** A tree a traversal with a fresh budget can remove completely. */
  ghost predicate Clearable(node: Node) {
    Removable(node, 0) && UsageOf(node).Within(FULL_BUDGET)
  }

  /** One state of replacing the name by the staged copy. */
  ghost predicate Committing(base: Node, state: Node, dir: Path, staging: Name, name: Name, copy: Node) {
    && IsDir(state, dir)
    && OthersKept(base, state, {dir + [name], dir + [staging]})
    && (Entry(state, dir, name) == Entry(base, dir, name) || Entry(state, dir, name) == Some(copy))
  }

  /** Changing the staging slot only does not disturb a commit. */
  lemma CommittingThen(base: Node, state: Node, later: Node, dir: Path, staging: Name, name: Name, copy: Node)
    requires staging != name && Committing(base, state, dir, staging, name, copy)
    requires SameBut(state, later, dir, staging)
    ensures Committing(base, later, dir, staging, name, copy)
    ensures Entry(later, dir, name) == Entry(state, dir, name)
  {
    Siblings(dir, staging, name);
    SameButDir(state, later, dir, staging);
    Untouched(state, dir, staging, Entry(later, dir, staging), dir, name);
    SameButKeeps(state, later, dir, staging, {dir + [staging]});
    KeptThen(base, state, later, {dir + [name], dir + [staging]}, {dir + [staging]});
    assert {dir + [name], dir + [staging]} + {dir + [staging]} == {dir + [name], dir + [staging]};
  }

  method CommitStaging(fs: FileSystem, dir: Path, staging: Name, name: Name, choice: CollisionChoice, ghost copy: Node)
    returns (r: Outcome)
    requires IsDir(fs.root, dir) && ValidateName(name).None? && staging != name
    requires Entry(fs.root, dir, staging) == Some(copy)
    modifies fs
    ensures fs.faults >= old(fs.faults)
    ensures Committing(old(fs.root), fs.root, dir, staging, name, copy)
    ensures old(fs.trace) <= fs.trace
    ensures forall i | |old(fs.trace)| <= i < |fs.trace| :: Committing(old(fs.root), fs.trace[i], dir, staging, name, copy)
    ensures r.Done? ==> Entry(fs.root, dir, name) == Some(copy) && Entry(fs.root, dir, staging) == None
    ensures fs.faults == old(fs.faults) ==> (r.Done? <==>
      var held := Entry(old(fs.root), dir, name);
      held.None? || (choice.Replace? && Clearable(held.value)))
    // a replacement is in place even when what it replaced cannot be cleared away
    ensures fs.faults == old(fs.faults) && choice.Replace? ==> Entry(fs.root, dir, name) == Some(copy)
    ensures r.Failed? ==> Obstacle(r.error) || Entry(old(fs.root), dir, name).Some?
    ensures r.Failed? && choice.Replace? ==> Obstacle(r.error)
    // a commit that fails for an outside fault has done nothing, or put the copy in place
    ensures r.Failed? && (choice.Replace? || Entry(old(fs.root), dir, name).None?) ==>
      (fs.root == old(fs.root) && fs.faults > old(fs.faults)) || Entry(fs.root, dir, name) == Some(copy)
    ensures var held := Entry(old(fs.root), dir, name);
      fs.faults == old(fs.faults) && r.Failed? ==>
        match choice
        case Cancel => r.error.Cancelled?
        case KeepBoth => r.error.Collision?
        case Replace => RemovalFails(r.error, held, 0, FULL_BUDGET)
  {
    hide SetSlot, Entry, IsDir, OthersKept, RemovalFails, Removable, UsageOf, SlotOnly, Usage.Within;
    ghost var base, was := fs.root, fs.trace;
    ghost var held := Entry(base, dir, name);
    Siblings(dir, staging, name);
    KeptSelf(base, {dir + [name], dir + [staging]});
    var taken := Exists(fs, dir, name);
    if taken.Failure? {
      return Failed(taken.error);
    }
    if taken.value {
      match choice {
        case Cancel => return Failed(Cancelled);
        case KeepBoth => return Failed(Collision);
        case Replace =>
          TwoSlots(base, dir, staging, held, dir, name, Some(copy));
          assert {dir + [name], dir + [staging]} == {dir + [staging], dir + [name]};
          var ok := fs.RenameExchange(dir, staging, dir, name);
          if !ok {
            return Failed(Io);
          }
          ghost var swapped, mid := fs.root, fs.trace;
          var budget := new TraversalBudget();
          r := RemoveEntry(fs, dir, staging, 0, budget);
          ReadBack(swapped, dir, staging, None);
          CommittingThen(base, swapped, fs.root, dir, staging, name, copy);
          forall i | |mid| <= i < |fs.trace| ensures Committing(base, fs.trace[i], dir, staging, name, copy) {
            CommittingThen(base, swapped, fs.trace[i], dir, staging, name, copy);
          }
          return;
      }
    }
    TwoSlots(base, dir, staging, None, dir, name, Some(copy));
    assert {dir + [name], dir + [staging]} == {dir + [staging], dir + [name]};
    var ok := fs.RenameNoReplace(dir, staging, dir, name);
    return if ok then Done else Failed(Io);
  }

  // ---------------------------------------------------------------- from safe state to safe state

  /** While only the staging slot changes, both names are as they were. */
  lemma SafeStaging(before: Node, state: Node, source: Path, sourceName: Name, dir: Path, staging: Name, name: Name, item: Node,
                    slots: set<Path>)
    requires SameBut(before, state, dir, staging) && staging != name && dir + [staging] in slots
    requires Apart(source + [sourceName], dir + [staging]) && Entry(before, source, sourceName) == Some(item)
    ensures Safe(before, state, source, sourceName, dir, name, item) && OthersKept(before, state, slots)
    ensures Entry(state, dir, name) == Entry(before, dir, name)
    ensures Entry(state, source, sourceName) == Entry(before, source, sourceName)
  {
    Siblings(dir, staging, name);
    Untouched(before, dir, staging, Entry(state, dir, staging), source, sourceName);
    Untouched(before, dir, staging, Entry(state, dir, staging), dir, name);
    SameButKeeps(before, state, dir, staging, slots);
  }

  /** A commit of the finished copy is safe throughout. */
  lemma SafeCommitting(before: Node, base: Node, state: Node, source: Path, sourceName: Name,
                       dir: Path, staging: Name, name: Name, item: Node, slots: set<Path>)
    requires SameBut(before, base, dir, staging) && staging != name
    requires Committing(base, state, dir, staging, name, Masked(item))
    requires Apart(source + [sourceName], dir + [staging]) && Entry(before, source, sourceName) == Some(item)
    requires !(source + [sourceName] <= dir) && slots == {source + [sourceName], dir + [name], dir + [staging]}
    ensures Safe(before, state, source, sourceName, dir, name, item) && OthersKept(before, state, slots)
    ensures Apart(source + [sourceName], dir + [name]) ==> Entry(state, source, sourceName) == Some(item)
  {
    hide IsDir;
    SafeStaging(before, base, source, sourceName, dir, staging, name, item, slots);
    KeptThen(before, base, state, slots, {dir + [name], dir + [staging]});
    assert slots + {dir + [name], dir + [staging]} == slots;
    if dir + [name] <= source {
      EntryVia(base, dir, name, source, sourceName);
      EntryVia(state, dir, name, source, sourceName);
    } else {
      EqualOrApart(source, sourceName, dir, name);
    }
  }

  /** Once the final name is complete, the source slot may change. */
  lemma SafeRemoving(before: Node, base: Node, state: Node, source: Path, sourceName: Name, dir: Path, name: Name, item: Node,
                     slots: set<Path>)
    requires OthersKept(before, base, slots) && source + [sourceName] in slots
    requires Complete(Entry(base, dir, name), item) && Apart(source + [sourceName], dir + [name])
    requires SameBut(base, state, source, sourceName)
    ensures Safe(before, state, source, sourceName, dir, name, item) && OthersKept(before, state, slots)
    ensures Entry(state, dir, name) == Entry(base, dir, name)
  {
    Untouched(base, source, sourceName, Entry(state, source, sourceName), dir, name);
    SameButKeeps(base, state, source, sourceName, slots);
    KeptThen(before, base, state, slots, slots);
    assert slots + slots == slots;
  }

  // ---------------------------------------------------------------- the two ways of transferring

  /** A move within one mount: exchange with what is replaced and remove that, or rename to a free name. The kernel moves
      nothing into itself, and exchanges nothing with what is above it. */
  method RenameInto(fs: FileSystem, source: Path, sourceName: Name, dir: Path, name: Name, choice: CollisionChoice, ghost item: Node)
    returns (r: Outcome)
    requires IsDir(fs.root, source) && IsDir(fs.root, dir) && ValidateName(name).None?
    requires Entry(fs.root, source, sourceName) == Some(item)
    requires Entry(fs.root, dir, name).Some? ==> choice.Replace?
    modifies fs
    ensures fs.faults >= old(fs.faults)
    ensures old(fs.trace) <= fs.trace
    ensures !Exchangeable(source + [sourceName], dir + [name]) ==> r.Failed? && fs.root == old(fs.root) && fs.trace == old(fs.trace)
    ensures var slots := {source + [sourceName], dir + [name]};
      Apart(source + [sourceName], dir + [name]) ==>
        && SafeRun(old(fs.root), old(fs.trace), fs.trace, source, sourceName, dir, name, item, slots)
        && Safe(old(fs.root), fs.root, source, sourceName, dir, name, item) && OthersKept(old(fs.root), fs.root, slots)
    ensures r.Done? ==> Entry(fs.root, source, sourceName) == None
    ensures r.Done? && Apart(source + [sourceName], dir + [name]) ==> Entry(fs.root, dir, name) == Some(item)
    ensures fs.faults == old(fs.faults) ==> (r.Done? <==>
      && Exchangeable(source + [sourceName], dir + [name])
      && (Entry(old(fs.root), dir, name).Some? ==> Clearable(Entry(old(fs.root), dir, name).value)))
    ensures fs.faults == old(fs.faults) && Apart(source + [sourceName], dir + [name]) ==> Entry(fs.root, dir, name) == Some(item)
    ensures r.Failed? ==> Obstacle(r.error)
    ensures r.Failed? && Apart(source + [sourceName], dir + [name]) ==> fs.root == old(fs.root) || Entry(fs.root, dir, name) == Some(item)
    ensures fs.faults == old(fs.faults) && r.Failed? ==>
      if Exchangeable(source + [sourceName], dir + [name]) then RemovalFails(r.error, Entry(old(fs.root), dir, name), 0, FULL_BUDGET)
      else r.error.Io?
  {
    hide SetSlot, Entry, IsDir, OthersKept, Apart, Safe, SafeRun, RemovalFails, Removable, UsageOf, Usage.Within, Usage.Plus;
    ghost var root, was := fs.root, fs.trace;
    ghost var slots := {source + [sourceName], dir + [name]};
    Occupation(root, source, sourceName, dir, name);
    KeptSelf(root, slots);
    SafeSelf(root, was, source, sourceName, dir, name, item, slots);
    var taken := Exists(fs, dir, name);
    if taken.Failure? {
      return Failed(taken.error);
    }
    if Apart(source + [sourceName], dir + [name]) {
      TwoSlots(root, source, sourceName, Entry(root, dir, name), dir, name, Some(item));
      TwoSlots(root, source, sourceName, None, dir, name, Some(item));
    } else if source + [sourceName] == dir + [name] {
      WriteBack(root, source, sourceName);
    }
    if taken.value && choice.Replace? {
      var ok := fs.RenameExchange(source, sourceName, dir, name);
      if !ok {
        return Failed(Io);
      }
      ghost var swapped, mid := fs.root, fs.trace;
      var budget := new TraversalBudget();
      r := RemoveEntry(fs, source, sourceName, 0, budget);
      ReadBack(swapped, source, sourceName, None);
      if Apart(source + [sourceName], dir + [name]) {
        SafeArrived(root, swapped, source, sourceName, dir, name, item);
        SafeRunStep(root, was, mid, swapped, source, sourceName, dir, name, item, slots);
        SafeRunRemoving(root, swapped, fs.root, was, mid, fs.trace, source, sourceName, dir, name, item, slots);
      }
    } else {
      var ok := fs.RenameNoReplace(source, sourceName, dir, name);
      if ok && Apart(source + [sourceName], dir + [name]) {
        SafeArrived(root, fs.root, source, sourceName, dir, name, item);
        SafeRunStep(root, was, fs.trace, fs.root, source, sourceName, dir, name, item, slots);
      }
      r := if ok then Done else Failed(Io);
    }
  }

  /** An occupied slot and another: the other is occupied too, apart from it, or below it. */
  lemma Occupation(root: Node, source: Path, sourceName: Name, dir: Path, name: Name)
    requires IsDir(root, source) && IsDir(root, dir) && Entry(root, source, sourceName).Some?
    ensures Entry(root, dir, name).None? ==> Apart(source + [sourceName], dir + [name]) || source + [sourceName] <= dir
    ensures source + [sourceName] == dir + [name] ==>
      source == dir && sourceName == name && Exchangeable(source + [sourceName], dir + [name])
    ensures source + [sourceName] <= dir ==> !Exchangeable(source + [sourceName], dir + [name])
    ensures source + [sourceName] != dir + [name] ==>
      (Exchangeable(source + [sourceName], dir + [name]) <==> Apart(source + [sourceName], dir + [name]))
    ensures Entry(root, dir, name).None? ==> !(dir + [name] <= source)
  {
    if dir + [name] <= source {
      PrefixExists(root, dir, name, source);
    }
    if Entry(root, dir, name).None? {
      ApartOrAbove(root, source, sourceName, dir, name);
    }
    var s, d := source + [sourceName], dir + [name];
    if s == d {
      assert source == s[..|s| - 1] && dir == d[..|d| - 1];
      assert sourceName == s[|s| - 1] && name == d[|d| - 1];
    }
  }

  // ---------------------------------------------------------------- runs of safe states

  lemma SafeSelf(root: Node, was: seq<Node>, source: Path, sourceName: Name, dir: Path, name: Name, item: Node, slots: set<Path>)
    requires Entry(root, source, sourceName) == Some(item)
    ensures Safe(root, root, source, sourceName, dir, name, item)
    ensures SafeRun(root, was, was, source, sourceName, dir, name, item, slots)
  {
    hide Entry, OthersKept;
  }

  lemma SafeArrived(root: Node, state: Node, source: Path, sourceName: Name, dir: Path, name: Name, item: Node)
    requires Entry(state, dir, name) == Some(item)
    ensures Safe(root, state, source, sourceName, dir, name, item)
  {
    hide Entry;
  }

  lemma SafeRunStep(root: Node, was: seq<Node>, now: seq<Node>, state: Node, source: Path, sourceName: Name, dir: Path, name: Name,
                    item: Node, slots: set<Path>)
    requires now == was + [state]
    requires Safe(root, state, source, sourceName, dir, name, item) && OthersKept(root, state, slots)
    ensures SafeRun(root, was, now, source, sourceName, dir, name, item, slots)
  {
    hide Safe, OthersKept;
  }

  /** Clearing the source slot once the item has arrived. */
  lemma SafeRunRemoving(root: Node, base: Node, after: Node, was: seq<Node>, mid: seq<Node>, now: seq<Node>, source: Path, sourceName: Name,
                        dir: Path, name: Name, item: Node, slots: set<Path>)
    requires SafeRun(root, was, mid, source, sourceName, dir, name, item, slots)
    requires OthersKept(root, base, slots) && source + [sourceName] in slots
    requires Complete(Entry(base, dir, name), item) && Apart(source + [sourceName], dir + [name])
    requires SameBut(base, after, source, sourceName) && SlotOnly(base, mid, now, source, sourceName)
    ensures SafeRun(root, was, now, source, sourceName, dir, name, item, slots)
    ensures Safe(root, after, source, sourceName, dir, name, item) && OthersKept(root, after, slots)
    ensures Entry(after, dir, name) == Entry(base, dir, name)
  {
    hide Entry, OthersKept, Safe, SameBut, Apart;
    SafeRemoving(root, base, after, source, sourceName, dir, name, item, slots);
    forall i | |was| <= i < |now|
      ensures Safe(root, now[i], source, sourceName, dir, name, item) && OthersKept(root, now[i], slots)
    {
      if i < |mid| {
        assert now[i] == mid[i];
      } else {
        SafeRemoving(root, base, now[i], source, sourceName, dir, name, item, slots);
      }
    }
  }

  /** Copying under the staging name. */
  lemma SafeRunStaging(root: Node, after: Node, was: seq<Node>, now: seq<Node>, source: Path, sourceName: Name, dir: Path, staging: Name,
                       name: Name, item: Node, slots: set<Path>)
    requires SlotOnly(root, was, now, dir, staging) && SameBut(root, after, dir, staging)
    requires staging != name && dir + [staging] in slots
    requires Apart(source + [sourceName], dir + [staging]) && Entry(root, source, sourceName) == Some(item)
    ensures SafeRun(root, was, now, source, sourceName, dir, name, item, slots)
    ensures Safe(root, after, source, sourceName, dir, name, item) && OthersKept(root, after, slots)
    ensures Entry(after, dir, name) == Entry(root, dir, name) && Entry(after, source, sourceName) == Some(item)
  {
    hide Entry, OthersKept, Safe, SameBut, Apart;
    SafeStaging(root, after, source, sourceName, dir, staging, name, item, slots);
    forall i | |was| <= i < |now|
      ensures Safe(root, now[i], source, sourceName, dir, name, item) && OthersKept(root, now[i], slots)
    {
      SafeStaging(root, now[i], source, sourceName, dir, staging, name, item, slots);
    }
  }

  /** The commit, and what is cleaned up after it. */
  lemma SafeRunCommitting(root: Node, base: Node, was: seq<Node>, mid: seq<Node>, now: seq<Node>, source: Path, sourceName: Name,
                          dir: Path, staging: Name, name: Name, item: Node, slots: set<Path>)
    requires SafeRun(root, was, mid, source, sourceName, dir, name, item, slots) && mid <= now
    requires SameBut(root, base, dir, staging) && staging != name
    requires forall i | |mid| <= i < |now| :: Committing(base, now[i], dir, staging, name, Masked(item))
    requires Apart(source + [sourceName], dir + [staging]) && Entry(root, source, sourceName) == Some(item)
    requires !(source + [sourceName] <= dir) && slots == {source + [sourceName], dir + [name], dir + [staging]}
    ensures SafeRun(root, was, now, source, sourceName, dir, name, item, slots)
  {
    hide Entry, OthersKept, Safe, SameBut, Apart, Committing, Masked;
    forall i | |was| <= i < |now|
      ensures Safe(root, now[i], source, sourceName, dir, name, item) && OthersKept(root, now[i], slots)
    {
      if i < |mid| {
        assert now[i] == mid[i];
      } else {
        SafeCommitting(root, base, now[i], source, sourceName, dir, staging, name, item, slots);
      }
    }
  }

  /** Clean-up of the staging slot leaves a commit as it is. */
  lemma CommittingRun(base: Node, tried: Node, after: Node, mid: seq<Node>, late: seq<Node>, now: seq<Node>, dir: Path, staging: Name,
                      name: Name, copy: Node)
    requires staging != name && mid <= late && Committing(base, tried, dir, staging, name, copy)
    requires forall i | |mid| <= i < |late| :: Committing(base, late[i], dir, staging, name, copy)
    requires SlotOnly(tried, late, now, dir, staging) && SameBut(tried, after, dir, staging)
    ensures mid <= now && forall i | |mid| <= i < |now| :: Committing(base, now[i], dir, staging, name, copy)
    ensures Committing(base, after, dir, staging, name, copy) && Entry(after, dir, name) == Entry(tried, dir, name)
  {
    hide Entry, SameBut, Committing;
    CommittingThen(base, tried, after, dir, staging, name, copy);
    forall i | |mid| <= i < |now| ensures Committing(base, now[i], dir, staging, name, copy) {
      if i < |late| {
        assert now[i] == late[i];
      } else {
        CommittingThen(base, tried, now[i], dir, staging, name, copy);
      }
    }
  }

  /** Every node is copied within the limits of a fresh budget. */
  ghost predicate Stageable(item: Node) {
    Copyable(item, 0) && UsageOf(item).Within(FULL_BUDGET)
  }

  /** Why an item is not. */
  ghost predicate StagingFails(error: DesktopError, item: Node) {
    (error.NameTooLong? && !ShortLinks(item)) || RemovalFails(error, Some(item), 0, FULL_BUDGET)
  }

  /** Build a copy under a staging name and put it in place; what a failed commit leaves is cleaned up. */
  method StageInto(fs: FileSystem, source: Path, sourceName: Name, dir: Path, staging: Name, name: Name,
                   choice: CollisionChoice, ghost item: Node)
    returns (r: Outcome)
    requires IsDir(fs.root, source) && IsDir(fs.root, dir) && ValidateName(name).None?
    requires Entry(fs.root, source, sourceName) == Some(item)
    requires Entry(fs.root, dir, name).Some? ==> choice.Replace?
    requires Entry(fs.root, dir, staging).None? && staging != name
    modifies fs
    ensures fs.faults >= old(fs.faults)
    ensures if source + [sourceName] <= dir then
        // into itself: only the copy being made ever shows
        && r.Failed? && SameBut(old(fs.root), fs.root, dir, staging)
        && SlotOnly(old(fs.root), old(fs.trace), fs.trace, dir, staging)
      else
        var slots := {source + [sourceName], dir + [name], dir + [staging]};
        && SafeRun(old(fs.root), old(fs.trace), fs.trace, source, sourceName, dir, name, item, slots)
        && Safe(old(fs.root), fs.root, source, sourceName, dir, name, item) && OthersKept(old(fs.root), fs.root, slots)
        && (Apart(source + [sourceName], dir + [name]) ==> Entry(fs.root, source, sourceName) == Some(item))
    ensures r.Done? ==> Entry(fs.root, dir, name) == Some(Masked(item)) && Entry(fs.root, dir, staging) == None
    ensures r.Done? && Apart(source + [sourceName], dir + [name]) ==> IsDir(fs.root, source)
    ensures fs.faults == old(fs.faults) ==> (r.Done? <==>
      && !(source + [sourceName] <= dir) && Stageable(item)
      && (Entry(old(fs.root), dir, name).Some? ==> Clearable(Entry(old(fs.root), dir, name).value)))
    ensures fs.faults == old(fs.faults) && !(source + [sourceName] <= dir) && Stageable(item) ==> Entry(fs.root, dir, name) == Some(Masked(item))
    ensures fs.faults == old(fs.faults) && (source + [sourceName] <= dir || !Stageable(item)) ==> fs.root == old(fs.root)
    // one outside fault alone leaves the tree as it was, or the copy in place
    ensures r.Failed? && fs.faults <= old(fs.faults) + 1 && !(source + [sourceName] <= dir) && Stageable(item) ==>
      fs.root == old(fs.root) || Entry(fs.root, dir, name) == Some(Masked(item))
    ensures r.Failed? ==> Obstacle(r.error) && (fs.faults == old(fs.faults) ==> !r.error.Missing?)
    ensures fs.faults == old(fs.faults) && r.Failed? && !(source + [sourceName] <= dir) ==>
      if Stageable(item) then RemovalFails(r.error, Entry(old(fs.root), dir, name), 0, FULL_BUDGET) else StagingFails(r.error, item)
  {
    hide SetSlot, Entry, IsDir, OthersKept, Apart, Copyable, UsageOf, Safe, SafeRun, SlotOnly, SameBut, Committing, Masked;
    ghost var root, was := fs.root, fs.trace;
    ghost var slots := {source + [sourceName], dir + [name], dir + [staging]};
    StagingAbove(source + [sourceName], dir, staging);
    var budget := new TraversalBudget();
    r := CopyEntry(fs, source, sourceName, dir, staging, 0, budget);
    ghost var base, mid := fs.root, fs.trace;
    if source + [sourceName] <= dir {
      return;
    }
    StagingApart(root, source, sourceName, dir, staging);
    SafeRunStaging(root, base, was, mid, source, sourceName, dir, staging, name, item, slots);
    if r.Failed? {
      return;
    }
    ReadBack(root, dir, staging, Some(Masked(item)));
    r := CommitStaging(fs, dir, staging, name, choice, Masked(item));
    ghost var tried, late := fs.root, fs.trace;
    CommitRunStart(tried, late, dir, staging);
    if r.Failed? {
      CommittingDir(base, tried, dir, staging, name, Masked(item));
      StagedClearable(item);
      var cleanup := new TraversalBudget();
      var _ := RemoveEntry(fs, dir, staging, 0, cleanup);
      Overwrite(root, dir, staging, Some(Masked(item)), None);
      WriteBack(root, dir, staging);
    } else {
      CommittingDir(base, tried, dir, staging, name, Masked(item));
    }
    CommittingRun(base, tried, fs.root, mid, late, fs.trace, dir, staging, name, Masked(item));
    SafeCommitting(root, base, fs.root, source, sourceName, dir, staging, name, item, slots);
    SafeRunCommitting(root, base, was, mid, fs.trace, source, sourceName, dir, staging, name, item, slots);
    if Apart(source + [sourceName], dir + [name]) {
      EntryInDir(fs.root, source, sourceName);
    }
  }

  lemma StagedClearable(item: Node)
    ensures Stageable(item) ==> Removable(Masked(item), 0) && UsageOf(Masked(item)).Within(FULL_BUDGET)
  {
    hide UsageOf, Removable, Copyable;
    if Copyable(item, 0) {
      CopyableRemovable(item, 0);
      MaskedUsage(item);
    }
  }

  lemma CommittingDir(base: Node, state: Node, dir: Path, staging: Name, name: Name, copy: Node)
    requires Committing(base, state, dir, staging, name, copy)
    ensures IsDir(state, dir) && SameBut(state, state, dir, staging)
  {
    hide Entry, IsDir, OthersKept;
    SameButSet(state, dir, staging, None);
  }

  lemma CommitRunStart(state: Node, trace: seq<Node>, dir: Path, staging: Name)
    ensures SlotOnly(state, trace, trace, dir, staging)
  {
  }

  lemma StagingAbove(above: Path, dir: Path, staging: Name)
    ensures above <= dir ==> !Apart(above, dir + [staging])
  {
    if above <= dir {
      assert above <= dir + [staging];
    }
  }

  /** An unused name is no part of an existing path. */
  lemma StagingApart(root: Node, source: Path, sourceName: Name, dir: Path, staging: Name)
    requires IsDir(root, source) && IsDir(root, dir) && !(source + [sourceName] <= dir)
    requires Entry(root, source, sourceName).Some? && Entry(root, dir, staging).None?
    ensures Apart(source + [sourceName], dir + [staging])
  {
    if dir + [staging] <= source {
      PrefixExists(root, dir, staging, source);
    }
    EqualOrApart(source, sourceName, dir, staging);
  }

  datatype PasteResult = PasteResult(destinationName: Name, sourceRemoved: bool)

  /** A move onto itself that was asked to replace what is there. */
  predicate ReplacesItself(source: Path, sourceName: Name, dir: Path, preferred: Name, choice: CollisionChoice, moving: bool) {
    moving && choice.Replace? && source == dir && sourceName == preferred
  }

  /** When a transfer that meets no outside fault brings the item to its destination. */
  ghost predicate Arrives(root: Node, source: Path, sourceName: Name, dir: Path, preferred: Name,
                          choice: CollisionChoice, renaming: bool)
    requires IsDir(root, dir)
  {
    var item := Entry(root, source, sourceName);
    var name := DestinationName(Names(root, dir), preferred, choice);
    && ValidateName(sourceName).None? && ValidateName(preferred).None?
    && item.Some? && !item.value.Special? && name.Success?
    && (if renaming then Exchangeable(source + [sourceName], dir + [name.value])
        else !(source + [sourceName] <= dir) && Stageable(item.value))
  }

  /** What the item replaces can be cleared away, if there is anything. */
  ghost predicate Clears(root: Node, dir: Path, preferred: Name, choice: CollisionChoice)
    requires IsDir(root, dir)
  {
    var name := DestinationName(Names(root, dir), preferred, choice);
    name.Success? && Entry(root, dir, name.value).Some? ==> Clearable(Entry(root, dir, name.value).value)
  }

  ghost predicate CopiedTo(before: Node, after: Node, source: Path, sourceName: Name, dir: Path, name: Name) {
    var item := Entry(before, source, sourceName);
    item.Some? && Entry(after, dir, name) == Some(Masked(item.value))
  }

  /** A removal that fails for a reason of its own fails on what it finds. */
  lemma RemovalReason(error: DesktopError, node: Node, depth: nat, left: Usage)
    requires RemovalFails(error, Some(node), depth, left)
    ensures error.TraversalLimit? || error.UnsupportedType?
  {
  }

  /** Both names are acceptable, and there is a file, link or directory to transfer. */
  ghost predicate NothingAmiss(root: Node, source: Path, sourceName: Name, preferred: Name) {
    var item := Entry(root, source, sourceName);
    ValidateName(sourceName).None? && ValidateName(preferred).None? && item.Some? && !item.value.Special?
  }

  /** The name a transfer settles on: acceptable, and occupied only when it is to be replaced. */
  lemma DestinationShape(root: Node, dir: Path, preferred: Name, choice: CollisionChoice, staging: Name)
    requires IsDir(root, dir) && ValidateName(preferred).None?
    requires staging != preferred && forall i {:trigger Candidate(preferred, i)} :: i >= 1 ==> staging != Candidate(preferred, i)
    requires DestinationName(Names(root, dir), preferred, choice).Success?
    ensures var name := DestinationName(Names(root, dir), preferred, choice).value;
      && ValidateName(name).None? && name != staging
      && (Entry(root, dir, name).Some? ==> choice.Replace?) && (choice.Replace? ==> name == preferred)
  {
    var names := Names(root, dir);
    var name := DestinationName(names, preferred, choice).value;
    NamesAreEntries(root, dir, name);
    if preferred in names && choice.KeepBoth? {
      KeepBothFresh(names, preferred);
      FirstFreeFound(names, preferred, 1);
    }
  }

  /** What a transfer may do to the tree, whether it succeeds or not. */
  ghost predicate Transferred(before: Node, after: Node, was: seq<Node>, now: seq<Node>, source: Path, sourceName: Name,
                              dir: Path, name: Name, staging: Name, item: Node) {
    if source + [sourceName] <= dir then SameBut(before, after, dir, staging) && SlotOnly(before, was, now, dir, staging)
    else
      var slots := {source + [sourceName], dir + [name], dir + [staging]};
      && SafeRun(before, was, now, source, sourceName, dir, name, item, slots)
      && Safe(before, after, source, sourceName, dir, name, item) && OthersKept(before, after, slots)
  }

  /** When carrying an item to a name brings it there, if no outside fault is met. */
  ghost predicate Carried(source: Path, sourceName: Name, dir: Path, name: Name, item: Node, renaming: bool) {
    if renaming then Exchangeable(source + [sourceName], dir + [name]) else !(source + [sourceName] <= dir) && Stageable(item)
  }

  /** Carry an item to the name that was settled on: rename it, or copy it and then perhaps remove the source. */
  method Carry(fs: FileSystem, source: Path, sourceName: Name, dir: Path, name: Name, choice: CollisionChoice,
               moving: bool, sameMount: bool, staging: Name, ghost item: Node)
    returns (outcome: Outcome)
    requires IsDir(fs.root, source) && IsDir(fs.root, dir) && ValidateName(name).None?
    requires Entry(fs.root, source, sourceName) == Some(item)
    requires Entry(fs.root, dir, name).Some? ==> choice.Replace?
    requires Entry(fs.root, dir, staging).None? && staging != name
    requires source == dir || (Entry(fs.root, dir, name).Some? && dir + [name] <= source) ==> sameMount
    modifies fs
    ensures fs.faults >= old(fs.faults)
    ensures !(moving && source + [sourceName] == dir + [name]) ==>
      Transferred(old(fs.root), fs.root, old(fs.trace), fs.trace, source, sourceName, dir, name, staging, item)
    ensures outcome.Done? ==> !(source + [sourceName] <= dir)
    ensures outcome.Done? && moving && source + [sourceName] == dir + [name] ==> Entry(fs.root, dir, name) == None
    ensures outcome.Done? && !(moving && source + [sourceName] == dir + [name]) ==>
      && Entry(fs.root, dir, name) == Some(if moving && sameMount then item else Masked(item))
      && (Apart(source + [sourceName], dir + [name]) ==> Entry(fs.root, source, sourceName) == (if moving then None else Some(item)))
      && Entry(fs.root, dir, staging) == None
    ensures fs.faults == old(fs.faults) ==> (outcome.Done? <==>
      && Carried(source, sourceName, dir, name, item, moving && sameMount)
      && (Entry(old(fs.root), dir, name).Some? ==> Clearable(Entry(old(fs.root), dir, name).value)))
    ensures fs.faults == old(fs.faults) && !(moving && source + [sourceName] == dir + [name]) ==>
      if Carried(source, sourceName, dir, name, item, moving && sameMount) then Complete(Entry(fs.root, dir, name), item)
      else fs.root == old(fs.root)
    ensures outcome.Failed? && fs.faults <= old(fs.faults) + 1 && !(moving && source + [sourceName] == dir + [name])
            && Carried(source, sourceName, dir, name, item, moving && sameMount) ==>
      fs.root == old(fs.root) || Complete(Entry(fs.root, dir, name), item)
    ensures outcome.Failed? ==>
      && (outcome.error.SourceRemovalAfterCopy? || Obstacle(outcome.error))
      && (outcome.error.SourceRemovalAfterCopy? ==> moving && !sameMount && Entry(fs.root, dir, name) == Some(Masked(item)))
    ensures fs.faults == old(fs.faults) && outcome.Failed? ==>
      && !outcome.error.Missing? && !outcome.error.SourceRemovalAfterCopy?
      && (Carried(source, sourceName, dir, name, item, moving && sameMount) ==>
            outcome.error.TraversalLimit? || outcome.error.UnsupportedType?)
  {
    hide SetSlot, Entry, IsDir, OthersKept, Apart, Copyable, UsageOf, Masked, Safe, SafeRun, SlotOnly, SameBut, Exchangeable, Clearable,
      Stageable, Transferred, RemovalFails, StagingFails;
    ghost var root, was, held := fs.root, fs.trace, Entry(fs.root, dir, name);
    Occupation(root, source, sourceName, dir, name);
    if moving && sameMount {
      outcome := RenameInto(fs, source, sourceName, dir, name, choice, item);
      RenameTransferred(root, fs.root, was, fs.trace, source, sourceName, dir, staging, name, item);
    } else {
      outcome := StageInto(fs, source, sourceName, dir, staging, name, choice, item);
      StageTransferred(root, fs.root, was, fs.trace, source, sourceName, dir, staging, name, item);
    }
    if outcome.Failed? {
      if held.Some? && RemovalFails(outcome.error, held, 0, FULL_BUDGET) {
        RemovalReason(outcome.error, held.value, 0, FULL_BUDGET);
      }
      return;
    }
    var synced := fs.Attempt();
    if !synced {
      return Failed(Io);
    }
    if moving && !sameMount {
      MovedApart(root, source, sourceName, dir, name);
      StagingApart(root, source, sourceName, dir, staging);
      if fs.faults == old(fs.faults) {
        StageableClearable(item);
      }
      outcome := RemoveSource(fs, root, was, source, sourceName, dir, staging, name, item);
    }
  }

  /** Copy or move one item into a directory. */
  method TransferFrom(fs: FileSystem, source: Path, sourceName: Name, dir: Path, preferred: Name, choice: CollisionChoice,
                      moving: bool, sameMount: bool, staging: Name)
    returns (r: Result<PasteResult, DesktopError>)
    requires IsDir(fs.root, source) && IsDir(fs.root, dir)
    // one directory is on one mount, and so is all that is below an item
    requires source == dir || (choice.Replace? && dir + [preferred] <= source) ==> sameMount
    // a fresh random name
    requires Entry(fs.root, dir, staging).None? && staging != preferred
    requires forall i {:trigger Candidate(preferred, i)} :: i >= 1 ==> staging != Candidate(preferred, i)
    modifies fs
    ensures fs.faults >= old(fs.faults)
    ensures var item := Entry(old(fs.root), source, sourceName);
      var name := DestinationName(Names(old(fs.root), dir), preferred, choice);
      if ValidateName(sourceName).Some? || ValidateName(preferred).Some? || item.None? || name.Failure? then
        r.Failure? && fs.root == old(fs.root) && fs.trace == old(fs.trace)
      else
        && (r.Success? ==> r.value == PasteResult(name.value, moving) && !(source + [sourceName] <= dir))
        && (!ReplacesItself(source, sourceName, dir, preferred, choice, moving) ==>
              Transferred(old(fs.root), fs.root, old(fs.trace), fs.trace, source, sourceName, dir, name.value, staging, item.value))
    ensures var item := Entry(old(fs.root), source, sourceName);
      r.Success? ==>
        var name := r.value.destinationName;
        if ReplacesItself(source, sourceName, dir, preferred, choice, moving) then Entry(fs.root, dir, name) == None
        else
          && Entry(fs.root, dir, name) == (if moving && sameMount then item else Some(Masked(item.value)))
          && (Apart(source + [sourceName], dir + [name]) ==> Entry(fs.root, source, sourceName) == (if moving then None else item))
          && Entry(fs.root, dir, staging) == None
    // without outside faults: done, or arrived with something left of what was replaced, or nothing done at all
    ensures fs.faults == old(fs.faults) ==> (r.Success? <==>
      && Arrives(old(fs.root), source, sourceName, dir, preferred, choice, moving && sameMount)
      && Clears(old(fs.root), dir, preferred, choice))
    ensures fs.faults == old(fs.faults) && Arrives(old(fs.root), source, sourceName, dir, preferred, choice, moving && sameMount)
            && !ReplacesItself(source, sourceName, dir, preferred, choice, moving) ==>
      Complete(Entry(fs.root, dir, DestinationName(Names(old(fs.root), dir), preferred, choice).value), Entry(old(fs.root), source, sourceName).value)
    ensures fs.faults == old(fs.faults) && !Arrives(old(fs.root), source, sourceName, dir, preferred, choice, moving && sameMount) ==>
      fs.root == old(fs.root)
    // and one outside fault alone leaves the tree as it was, or the item in place
    ensures r.Failure? && fs.faults <= old(fs.faults) + 1 && !ReplacesItself(source, sourceName, dir, preferred, choice, moving)
            && Arrives(old(fs.root), source, sourceName, dir, preferred, choice, moving && sameMount) ==>
      fs.root == old(fs.root)
      || Complete(Entry(fs.root, dir, DestinationName(Names(old(fs.root), dir), preferred, choice).value), Entry(old(fs.root), source, sourceName).value)
    // an occupied name is given up, replaced or kept, as was chosen
    ensures r.Success? ==> Destined(old(fs.root), dir, preferred, choice, r.value.destinationName)
    ensures GivenUp(old(fs.root), dir, preferred, choice) ==> r.Failure? && fs.root == old(fs.root) && fs.trace == old(fs.trace)
    ensures r == Failure(Cancelled) ==> GivenUp(old(fs.root), dir, preferred, choice)
    ensures fs.faults == old(fs.faults) && NothingAmiss(old(fs.root), source, sourceName, preferred) && GivenUp(old(fs.root), dir, preferred, choice) ==>
      r == Failure(Cancelled)
    // and the other errors mean what they say
    ensures ValidateName(sourceName).Some? ==> r == Failure(ValidateName(sourceName).value)
    ensures ValidateName(sourceName).None? && ValidateName(preferred).Some? ==> r == Failure(ValidateName(preferred).value)
    ensures fs.faults == old(fs.faults) && ValidateName(sourceName).None? && ValidateName(preferred).None? ==>
      && (r == Failure(Missing) <==> Entry(old(fs.root), source, sourceName).None?)
      && (Entry(old(fs.root), source, sourceName) == Some(Special) ==> r == Failure(UnsupportedType))
      && r != Failure(SourceRemovalAfterCopy)
    ensures fs.faults == old(fs.faults) && Arrives(old(fs.root), source, sourceName, dir, preferred, choice, moving && sameMount) && r.Failure? ==>
      r.error.TraversalLimit? || r.error.UnsupportedType?
    ensures r == Failure(SourceRemovalAfterCopy) ==> moving && !sameMount
    ensures r == Failure(SourceRemovalAfterCopy) ==>
      exists name :: Destined(old(fs.root), dir, preferred, choice, name) && CopiedTo(old(fs.root), fs.root, source, sourceName, dir, name)
  {
    hide SetSlot, Entry, IsDir, Names, OthersKept, Apart, Copyable, UsageOf, Candidate, DestinationName, Masked, Safe, SafeRun,
      SlotOnly, SameBut, Exchangeable, Clearable, Stageable, Transferred, Destined, GivenUp, ValidateName;
    NameExact(sourceName);
    NameExact(preferred);
    var invalid := ValidateName(sourceName);
    if invalid.Some? {
      return Failure(invalid.value);
    }
    invalid := ValidateName(preferred);
    if invalid.Some? {
      return Failure(invalid.value);
    }
    ghost var root, was := fs.root, fs.trace;
    var stat := fs.Stat(source, sourceName);
    if stat.Failure? {
      NothingTransferred(root, was, source, sourceName, dir, preferred, choice, staging);
      return Failure(if stat.error.NotFound? then Missing else Io);
    }
    ghost var item := stat.value;
    NothingTransferred(root, was, source, sourceName, dir, preferred, choice, staging);
    if stat.value.Special? {
      return Failure(UnsupportedType);
    }
    DestinationMeaning(root, dir, preferred, choice);
    var resolved := ResolveDestinationName(fs, dir, preferred, choice);
    if resolved.Failure? {
      return Failure(resolved.error);
    }
    var name := resolved.value;
    DestinationShape(root, dir, preferred, choice, staging);
    Occupation(root, source, sourceName, dir, name);
    var outcome := Carry(fs, source, sourceName, dir, name, choice, moving, sameMount, staging, item);
    return if outcome.Done? then Success(PasteResult(name, moving)) else Failure(outcome.error);
  }

  /** Nothing has been done yet. */
  lemma NothingTransferred(root: Node, was: seq<Node>, source: Path, sourceName: Name, dir: Path, preferred: Name, choice: CollisionChoice,
                           staging: Name)
    requires IsDir(root, dir) && IsDir(root, source)
    ensures var name := DestinationName(Names(root, dir), preferred, choice);
      var item := Entry(root, source, sourceName);
      item.Some? && name.Success? ==> Transferred(root, root, was, was, source, sourceName, dir, name.value, staging, item.value)
  {
    hide IsDir, Names, Entry, DestinationName, OthersKept, Safe, SafeRun, SlotOnly;
    var name := DestinationName(Names(root, dir), preferred, choice);
    var item := Entry(root, source, sourceName);
    SameButSet(root, dir, staging, None);
    CommitRunStart(root, was, dir, staging);
    if item.Some? && name.Success? {
      var slots := {source + [sourceName], dir + [name.value], dir + [staging]};
      KeptSelf(root, slots);
      SafeSelf(root, was, source, sourceName, dir, name.value, item.value, slots);
    }
  }

  lemma StageTransferred(before: Node, after: Node, was: seq<Node>, now: seq<Node>, source: Path, sourceName: Name,
                         dir: Path, staging: Name, name: Name, item: Node)
    requires if source + [sourceName] <= dir then SameBut(before, after, dir, staging) && SlotOnly(before, was, now, dir, staging)
      else
        var slots := {source + [sourceName], dir + [name], dir + [staging]};
        && SafeRun(before, was, now, source, sourceName, dir, name, item, slots)
        && Safe(before, after, source, sourceName, dir, name, item) && OthersKept(before, after, slots)
    ensures Transferred(before, after, was, now, source, sourceName, dir, name, staging, item)
  {
    hide SameBut, SlotOnly, SafeRun, Safe, OthersKept;
  }

  lemma MovedApart(root: Node, source: Path, sourceName: Name, dir: Path, name: Name)
    requires source != dir && !(dir + [name] <= source) && !(source + [sourceName] <= dir)
    ensures Apart(source + [sourceName], dir + [name])
  {
    EqualOrApart(source, sourceName, dir, name);
  }

  lemma StageableClearable(item: Node)
    requires Stageable(item)
    ensures Clearable(item)
  {
    CopyableRemovable(item, 0);
    hide UsageOf, Copyable, Removable;
  }

  /** A rename does not touch the staging name, and one that is refused does nothing. */
  lemma RenameTransferred(root: Node, after: Node, was: seq<Node>, now: seq<Node>, source: Path, sourceName: Name,
                          dir: Path, staging: Name, name: Name, item: Node)
    requires IsDir(root, source) && IsDir(root, dir) && Entry(root, source, sourceName) == Some(item) && Entry(root, dir, staging).None?
    requires staging != name
    requires !Exchangeable(source + [sourceName], dir + [name]) ==> after == root && now == was
    requires var slots := {source + [sourceName], dir + [name]};
      Apart(source + [sourceName], dir + [name]) ==>
        && SafeRun(root, was, now, source, sourceName, dir, name, item, slots)
        && Safe(root, after, source, sourceName, dir, name, item) && OthersKept(root, after, slots)
    ensures source + [sourceName] != dir + [name] ==>
      && Transferred(root, after, was, now, source, sourceName, dir, name, staging, item)
      && Entry(after, dir, staging) == None
  {
    hide Entry, IsDir, OthersKept, Safe, SafeRun, SlotOnly, SameBut;
    var slots := {source + [sourceName], dir + [name]};
    var more := {source + [sourceName], dir + [name], dir + [staging]};
    if Apart(source + [sourceName], dir + [name]) {
      NotAbove(source + [sourceName], dir, name);
      StagingApart(root, source, sourceName, dir, staging);
      Siblings(dir, name, staging);
      KeptMore(root, after, slots, more);
      KeptAt(root, after, slots, dir, staging);
      SafeRunMore(root, was, now, source, sourceName, dir, name, item, slots, more);
    } else {
      SameButSet(root, dir, staging, None);
      CommitRunStart(root, was, dir, staging);
      KeptSelf(root, more);
      SafeSelf(root, was, source, sourceName, dir, name, item, more);
    }
  }

  lemma NotAbove(above: Path, dir: Path, name: Name)
    requires Apart(above, dir + [name])
    ensures !(above <= dir)
  {
    assert above <= dir ==> above <= dir + [name];
  }

  lemma SafeRunMore(root: Node, was: seq<Node>, now: seq<Node>, source: Path, sourceName: Name, dir: Path, name: Name, item: Node,
                    slots: set<Path>, more: set<Path>)
    requires SafeRun(root, was, now, source, sourceName, dir, name, item, slots) && slots <= more
    ensures SafeRun(root, was, now, source, sourceName, dir, name, item, more)
  {
    hide Entry, OthersKept, Safe;
    forall i | |was| <= i < |now| ensures OthersKept(root, now[i], more) {
      KeptMore(root, now[i], slots, more);
    }
  }

  /** The second half of a move between mounts: the copy is in place, so the source may go. */
  method RemoveSource(fs: FileSystem, ghost root: Node, ghost was: seq<Node>, source: Path, sourceName: Name,
                      dir: Path, ghost staging: Name, name: Name, ghost item: Node)
    returns (r: Outcome)
    requires IsDir(fs.root, source) && Apart(source + [sourceName], dir + [name])
    requires Apart(source + [sourceName], dir + [staging]) && staging != name
    requires Transferred(root, fs.root, was, fs.trace, source, sourceName, dir, name, staging, item)
    requires Entry(fs.root, dir, name) == Some(Masked(item)) && Entry(fs.root, source, sourceName) == Some(item)
    modifies fs
    ensures fs.faults >= old(fs.faults)
    ensures Transferred(root, fs.root, was, fs.trace, source, sourceName, dir, name, staging, item)
    ensures r.Done? ==> Entry(fs.root, source, sourceName) == None
    ensures Entry(fs.root, dir, name) == Some(Masked(item)) && Entry(fs.root, dir, staging) == Entry(old(fs.root), dir, staging)
    ensures fs.faults == old(fs.faults) && Clearable(item) ==> r.Done?
    ensures r.Failed? ==> r.error.SourceRemovalAfterCopy? || r.error.Io?
  {
    hide SetSlot, Entry, IsDir, OthersKept, Apart, SafeRun, Safe, SlotOnly, SameBut, Masked, RemovalFails, Removable, UsageOf,
      Usage.Within, Usage.Plus;
    ghost var slots := {source + [sourceName], dir + [name], dir + [staging]};
    ghost var base, mid := fs.root, fs.trace;
    NotAbove(source + [sourceName], dir, name);
    var budget := new TraversalBudget();
    r := RemoveEntry(fs, source, sourceName, 0, budget);
    SafeRunRemoving(root, base, fs.root, was, mid, fs.trace, source, sourceName, dir, name, item, slots);
    StagingStays(base, fs.root, source, sourceName, dir, staging);
    ReadBack(base, source, sourceName, None);
    if r.Failed? {
      r := Failed(SourceRemovalAfterCopy);
      return;
    }
    var synced := fs.Attempt();
    if !synced {
      r := Failed(Io);
    }
  }

  lemma StagingStays(base: Node, after: Node, source: Path, sourceName: Name, dir: Path, staging: Name)
    requires SameBut(base, after, source, sourceName) && Apart(source + [sourceName], dir + [staging])
    ensures Entry(after, dir, staging) == Entry(base, dir, staging)
  {
    Untouched(base, source, sourceName, Entry(after, source, sourceName), dir, staging);
  }

  /** An item moved over a socket or device arrives, and the call fails all the same: that cannot be cleared away. */
  lemma SpecialIsNotCleared(root: Node, dir: Path, name: Name, preferred: Name, item: Node)
    requires IsDir(root, dir) && ValidateName(name).None? && ValidateName(preferred).None? && name != preferred
    requires Entry(root, dir, name) == Some(item) && !item.Special? && Entry(root, dir, preferred) == Some(Special)
    ensures Arrives(root, dir, name, dir, preferred, Replace, true) && !Clears(root, dir, preferred, Replace)
  {
    hide IsDir, Entry;
    NamesAreEntries(root, dir, preferred);
    Siblings(dir, name, preferred);
  }

  /** Exchanging an item with itself changes nothing, and clearing the source name then loses it: moving an item onto itself
      is safe under every choice but Replace. */
  lemma SelfReplacementLosesItem(root: Node, dir: Path, name: Name, item: Node)
    requires IsDir(root, dir) && Entry(root, dir, name) == Some(item)
    ensures SetSlot(SetSlot(root, dir, name, Some(item)), dir, name, Some(item)) == root
    ensures !Safe(root, SetSlot(root, dir, name, None), dir, name, dir, name, item)
  {
    WriteBack(root, dir, name);
    ReadBack(root, dir, name, None);
  }
}
