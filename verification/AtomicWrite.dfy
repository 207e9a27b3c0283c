// Atomic replacement of a managed file, on a disk that may crash between any two steps.
module AtomicWrite {
  import opened Wrappers

  type Name = string

  datatype Inode = Inode(regular: bool, mode: nat, bytes: string, synced: bool)

  /** A directory and its files. `directories` lists every content the directory has had since it was
      last synced: the durable content first, the current content last. */
  datatype DiskState = DiskState(directories: seq<map<Name, nat>>, inodes: map<nat, Inode>) {
    function Current(): map<Name, nat>
      requires directories != []
    {
      directories[|directories| - 1]
    }
  }

  function Lookup(names: map<Name, nat>, name: Name): Option<nat> {
    if name in names then Some(names[name]) else None
  }

  // ---------------------------------------------------------------- crashes

  /** What is found after a crash: each name as it was at some moment since the last directory sync,
      and the bytes of every file, exact where they had been synced and arbitrary elsewhere. */
  datatype Survivor = Survivor(names: map<Name, nat>, contents: map<nat, string>) {
    function Read(name: Name): Option<string> {
      if name in names && names[name] in contents then Some(contents[names[name]]) else None
    }
  }

  /** Some version of the directory had the name like this. */
  ghost predicate Had(state: DiskState, name: Name, found: Option<nat>) {
    exists j :: 0 <= j < |state.directories| && found == Lookup(state.directories[j], name)
  }

  ghost predicate MayCrashTo(state: DiskState, after: Survivor) {
    && after.contents.Keys == state.inodes.Keys
    && (forall ino <- state.inodes :: state.inodes[ino].synced ==> after.contents[ino] == state.inodes[ino].bytes)
    && (forall name: Name {:trigger Lookup(after.names, name)} :: Had(state, name, Lookup(after.names, name)))
  }

  /** The bytes a name holds while the machine is up. */
  function ReadNow(state: DiskState, name: Name): Option<string>
    requires state.directories != []
  {
    var names := state.Current();
    if name in names && names[name] in state.inodes then Some(state.inodes[names[name]].bytes) else None
  }

  /** Every name the directory has, or may be found to have after a crash, is that of a file. */
  ghost predicate Sound(state: DiskState) {
    && state.directories != []
    && forall k | 0 <= k < |state.directories| :: Rooted(state.directories[k], state.inodes)
  }

  ghost predicate Rooted(names: map<Name, nat>, inodes: map<nat, Inode>) {
    forall name <- names :: names[name] in inodes
  }

  /** Everything named is durable, under the name and in its bytes. */
  ghost predicate Clean(state: DiskState) {
    && |state.directories| == 1
    && forall name <- state.directories[0] :: (
         state.directories[0][name] in state.inodes && state.inodes[state.directories[0][name]].synced)
  }

  /** The two crashes leave the same everywhere but under these names. */
  ghost predicate SameElsewhere(prior: Survivor, after: Survivor, touched: set<Name>) {
    forall name: Name {:trigger after.Read(name)} {:trigger prior.Read(name)} ::
      name !in touched ==> after.Read(name) == prior.Read(name)
  }

  /** Whatever a crash leaves now, a crash of the earlier state could have left, but that the target may hold the new bytes
      instead. Of the names the operation made up nothing is said. */
  ghost predicate CrashSafe(before: DiskState, state: DiskState, leaf: Name, bytes: string, spare: set<Name>) {
    forall after {:trigger MayCrashTo(state, after)} :: MayCrashTo(state, after) ==>
      exists prior :: MayCrashTo(before, prior) && OldOrNew(prior, after, leaf, bytes, spare)
  }

  ghost predicate OldOrNew(prior: Survivor, after: Survivor, leaf: Name, bytes: string, spare: set<Name>) {
    (after.Read(leaf) == prior.Read(leaf) || after.Read(leaf) == Some(bytes)) && SameElsewhere(prior, after, spare + {leaf})
  }

  /** Whatever a crash leaves now, a crash of the earlier state could have left, the target included. */
  ghost predicate CrashKept(before: DiskState, state: DiskState, spare: set<Name>) {
    forall after {:trigger MayCrashTo(state, after)} :: MayCrashTo(state, after) ==>
      exists prior :: MayCrashTo(before, prior) && SameElsewhere(prior, after, spare)
  }

  /** Some crash leaves this under the name. */
  ghost predicate Findable(state: DiskState, name: Name, content: Option<string>) {
    exists after :: MayCrashTo(state, after) && after.Read(name) == content
  }

  /** After a crash the target holds the new bytes. */
  ghost predicate Durable(state: DiskState, leaf: Name, bytes: string) {
    forall after {:trigger MayCrashTo(state, after)} :: MayCrashTo(state, after) ==> after.Read(leaf) == Some(bytes)
  }

  /** Name by name: what is found was findable before, or is the new content of the target. */
  lemma CrashSafeFinds(before: DiskState, state: DiskState, leaf: Name, bytes: string, spare: set<Name>, after: Survivor)
    requires CrashSafe(before, state, leaf, bytes, spare) && MayCrashTo(state, after)
    ensures Findable(before, leaf, after.Read(leaf)) || after.Read(leaf) == Some(bytes)
    ensures forall name: Name :: name != leaf && name !in spare ==> Findable(before, name, after.Read(name))
  {
    hide MayCrashTo;
    var prior :| MayCrashTo(before, prior) && OldOrNew(prior, after, leaf, bytes, spare);
  }

  /** While everything is durable a crash leaves exactly what there is. */
  lemma CleanCrash(state: DiskState, after: Survivor, name: Name)
    requires Clean(state) && MayCrashTo(state, after)
    ensures after.Read(name) == ReadNow(state, name)
  {
    assert Lookup(after.names, name) == Lookup(state.directories[0], name);
  }

  /** From a durable directory the target is left with exactly its old bytes or exactly the new ones, all other names with theirs. */
  lemma CleanCrashSafe(before: DiskState, state: DiskState, leaf: Name, bytes: string, spare: set<Name>, after: Survivor)
    requires Clean(before) && CrashSafe(before, state, leaf, bytes, spare) && MayCrashTo(state, after)
    ensures after.Read(leaf) == ReadNow(before, leaf) || after.Read(leaf) == Some(bytes)
    ensures forall name: Name :: name != leaf && name !in spare ==> after.Read(name) == ReadNow(before, name)
  {
    hide MayCrashTo;
    var prior :| MayCrashTo(before, prior) && OldOrNew(prior, after, leaf, bytes, spare);
    forall name: Name ensures prior.Read(name) == ReadNow(before, name) {
      CleanCrash(before, prior, name);
    }
  }

  // ---------------------------------------------------------------- the invariant behind it

  predicate Finished(state: DiskState, ino: nat, bytes: string) {
    ino in state.inodes && state.inodes[ino].synced && state.inodes[ino].bytes == bytes
  }

  /** Only under the target and the spare names can this version of the directory differ from all earlier ones. */
  ghost predicate Kin(before: DiskState, names: map<Name, nat>, leaf: Name, spare: set<Name>) {
    forall name: Name {:trigger Lookup(names, name)} :: name != leaf && name !in spare ==> Had(before, name, Lookup(names, name))
  }

  /** The target names a file it may have named before, or a finished new one. */
  ghost predicate LeafFits(before: DiskState, state: DiskState, names: map<Name, nat>, leaf: Name, bytes: string) {
    Had(before, leaf, Lookup(names, leaf)) || (leaf in names && Finished(state, names[leaf], bytes))
  }

  /** The files there were are as they were. */
  ghost predicate FilesKept(before: DiskState, state: DiskState) {
    forall ino <- before.inodes :: ino in state.inodes && state.inodes[ino] == before.inodes[ino]
  }

  ghost predicate AllKin(before: DiskState, state: DiskState, leaf: Name, spare: set<Name>) {
    forall k | 0 <= k < |state.directories| :: Kin(before, state.directories[k], leaf, spare)
  }

  ghost predicate Shape(before: DiskState, state: DiskState, leaf: Name, bytes: string, spare: set<Name>) {
    && Sound(state) && FilesKept(before, state) && AllKin(before, state, leaf, spare)
    && forall k | 0 <= k < |state.directories| :: LeafFits(before, state, state.directories[k], leaf, bytes)
  }

  /** The same, and in no version does the target name a new file. */
  ghost predicate Kept(before: DiskState, state: DiskState, leaf: Name, spare: set<Name>) {
    && Sound(state) && FilesKept(before, state) && AllKin(before, state, leaf, spare)
    && forall k | 0 <= k < |state.directories| :: Had(before, leaf, Lookup(state.directories[k], leaf))
  }

  lemma KeptShape(before: DiskState, state: DiskState, leaf: Name, bytes: string, spare: set<Name>)
    requires Kept(before, state, leaf, spare)
    ensures Shape(before, state, leaf, bytes, spare)
  {
    hide Had, Kin, Sound, FilesKept;
  }

  // ---------------------------------------------------------------- an earlier crash like a later one

  ghost function Chosen(before: DiskState, found: map<Name, nat>, spare: set<Name>, name: Name): Option<nat>
    requires before.directories != []
  {
    if name in spare || !Had(before, name, Lookup(found, name)) then Lookup(before.Current(), name) else Lookup(found, name)
  }

  /** The crash of the earlier state: what is found now, but the current version where that was never to be found. */
  ghost function Prior(before: DiskState, after: Survivor, spare: set<Name>): Survivor
    requires before.directories != [] && before.inodes.Keys <= after.contents.Keys
  {
    Survivor(
      map name | name in after.names.Keys + before.Current().Keys && Chosen(before, after.names, spare, name).Some?
        :: Chosen(before, after.names, spare, name).value,
      map ino | ino in before.inodes :: after.contents[ino])
  }

  lemma PriorNames(before: DiskState, after: Survivor, spare: set<Name>, name: Name)
    requires before.directories != [] && before.inodes.Keys <= after.contents.Keys
    ensures Lookup(Prior(before, after, spare).names, name) == Chosen(before, after.names, spare, name)
    ensures Had(before, name, Lookup(Prior(before, after, spare).names, name))
  {
    assert Lookup(before.Current(), name) == Lookup(before.directories[|before.directories| - 1], name);
  }

  /** What was to be found before is found with the same bytes. */
  lemma PriorRead(before: DiskState, after: Survivor, spare: set<Name>, name: Name)
    requires Sound(before) && before.inodes.Keys <= after.contents.Keys
    requires name !in spare && Had(before, name, Lookup(after.names, name))
    ensures Prior(before, after, spare).Read(name) == after.Read(name)
  {
    PriorNames(before, after, spare, name);
    var j :| 0 <= j < |before.directories| && Lookup(after.names, name) == Lookup(before.directories[j], name);
    assert Rooted(before.directories[j], before.inodes);
  }

  lemma PriorMayHappen(before: DiskState, state: DiskState, after: Survivor, spare: set<Name>)
    requires Sound(before) && FilesKept(before, state) && MayCrashTo(state, after)
    ensures before.inodes.Keys <= after.contents.Keys && MayCrashTo(before, Prior(before, after, spare))
  {
    var prior := Prior(before, after, spare);
    assert prior.contents.Keys == before.inodes.Keys;
    assert forall ino <- before.inodes :: before.inodes[ino].synced ==> prior.contents[ino] == before.inodes[ino].bytes;
    forall name: Name ensures Had(before, name, Lookup(prior.names, name)) {
      PriorNames(before, after, spare, name);
    }
  }

  lemma FoundIn(state: DiskState, after: Survivor, name: Name) returns (k: nat)
    requires MayCrashTo(state, after)
    ensures k < |state.directories| && Lookup(after.names, name) == Lookup(state.directories[k], name)
  {
    assert Had(state, name, Lookup(after.names, name));
    k :| 0 <= k < |state.directories| && Lookup(after.names, name) == Lookup(state.directories[k], name);
  }

  lemma ElsewhereSame(before: DiskState, state: DiskState, after: Survivor, leaf: Name, spare: set<Name>)
    requires Sound(before) && before.inodes.Keys <= after.contents.Keys && AllKin(before, state, leaf, spare) && MayCrashTo(state, after)
    ensures SameElsewhere(Prior(before, after, spare), after, spare + {leaf})
  {
    hide MayCrashTo, Had;
    forall name: Name | name !in spare + {leaf} ensures after.Read(name) == Prior(before, after, spare).Read(name) {
      var k := FoundIn(state, after, name);
      assert Kin(before, state.directories[k], leaf, spare);
      PriorRead(before, after, spare, name);
    }
  }

  /** A crash of a state of the shape looks like a crash of the state before. */
  lemma ShapeIsSafe(before: DiskState, state: DiskState, leaf: Name, bytes: string, spare: set<Name>)
    requires Sound(before) && Shape(before, state, leaf, bytes, spare) && leaf !in spare
    ensures CrashSafe(before, state, leaf, bytes, spare)
  {
    hide MayCrashTo, Had, Kin, FilesKept;
    forall after | MayCrashTo(state, after)
      ensures exists prior :: MayCrashTo(before, prior) && OldOrNew(prior, after, leaf, bytes, spare)
    {
      PriorMayHappen(before, state, after, spare);
      var prior := Prior(before, after, spare);
      ElsewhereSame(before, state, after, leaf, spare);
      var k := FoundIn(state, after, leaf);
      assert LeafFits(before, state, state.directories[k], leaf, bytes);
      if Had(before, leaf, Lookup(after.names, leaf)) {
        PriorRead(before, after, spare, leaf);
      } else {
        FinishedIsFound(state, after, leaf, bytes);
      }
      assert OldOrNew(prior, after, leaf, bytes, spare);
    }
  }

  lemma FinishedIsFound(state: DiskState, after: Survivor, leaf: Name, bytes: string)
    requires MayCrashTo(state, after) && leaf in after.names && Finished(state, after.names[leaf], bytes)
    ensures after.Read(leaf) == Some(bytes)
  {
  }

  lemma KeptIsSafe(before: DiskState, state: DiskState, leaf: Name, spare: set<Name>)
    requires Sound(before) && Kept(before, state, leaf, spare) && leaf !in spare
    ensures CrashKept(before, state, spare)
  {
    hide MayCrashTo, Had, Kin, FilesKept;
    forall after | MayCrashTo(state, after)
      ensures exists prior :: MayCrashTo(before, prior) && SameElsewhere(prior, after, spare)
    {
      PriorMayHappen(before, state, after, spare);
      var prior := Prior(before, after, spare);
      ElsewhereSame(before, state, after, leaf, spare);
      var k := FoundIn(state, after, leaf);
      PriorRead(before, after, spare, leaf);
      assert SameElsewhere(prior, after, spare);
    }
  }

  lemma SettledIsDurable(state: DiskState, leaf: Name, bytes: string)
    requires |state.directories| == 1 && leaf in state.directories[0]
    requires Finished(state, state.directories[0][leaf], bytes)
    ensures Durable(state, leaf, bytes)
  {
    forall after | MayCrashTo(state, after) ensures after.Read(leaf) == Some(bytes) {
      assert Lookup(after.names, leaf) == Lookup(state.directories[0], leaf);
    }
  }

  // ---------------------------------------------------------------- the disk

  /** What an error names: the file to be written, or the directory it is in. */
  datatype FaultyPath = Target | Directory

  datatype WriteError = UnsafeTarget | Io(path: FaultyPath)

  class Disk {
    var state: DiskState
    // the disk between any two calls, oldest first
    ghost var trace: seq<DiskState>
    // how many calls have failed for a reason outside this model
    ghost var faults: nat

    constructor (state: DiskState)
      ensures this.state == state && trace == [state] && faults == 0
    {
      this.state, this.trace, this.faults := state, [state], 0;
    }

    method Attempt() returns (ok: bool)
      modifies this`faults
      ensures faults == old(faults) + if ok then 0 else 1
    {
      ok := *;
      if !ok {
        faults := faults + 1;
      }
    }

    /** open(O_CREAT | O_EXCL): a new empty file under a free name. */
    method Create(name: Name, mode: nat, ino: nat) returns (ok: bool, collision: bool)
      requires state.directories != [] && ino !in state.inodes
      modifies this
      ensures collision ==> name in old(state).Current()
      ensures ok ==> !collision && name !in old(state).Current()
      ensures state == if ok
        then DiskState(old(state).directories + [old(state).Current()[name := ino]],
                       old(state).inodes[ino := Inode(true, mode, "", false)])
        else old(state)
      ensures trace == old(trace) + [state] && faults == old(faults) + (if ok || collision then 0 else 1)
    {
      ok := Attempt();
      collision := ok && name in state.Current();
      ok := ok && !collision;
      if ok {
        state := DiskState(state.directories + [state.Current()[name := ino]], state.inodes[ino := Inode(true, mode, "", false)]);
      }
      trace := trace + [state];
    }

    /** fchmod, write and fsync on an open file: what it holds afterwards, synced or not. */
    method Update(ino: nat, inode: Inode) returns (ok: bool)
      requires ino in state.inodes
      modifies this
      ensures exists left: Inode :: ((ok ==> left == inode) && (!ok ==> !left.synced) &&
        state == DiskState(old(state).directories, old(state).inodes[ino := left]))
      ensures trace == old(trace) + [state] && faults == old(faults) + (if ok then 0 else 1)
    {
      ok := Attempt();
      var left := inode;
      if !ok {
        left := *;
        left := Inode(left.regular, left.mode, left.bytes, false);
      }
      state := DiskState(state.directories, state.inodes[ino := left]);
      trace := trace + [state];
    }

    method Rename(name: Name, newName: Name) returns (ok: bool)
      requires state.directories != [] && name in state.Current() && name != newName
      modifies this
      ensures state == if ok
        then DiskState(old(state).directories + [(old(state).Current() - {name})[newName := old(state).Current()[name]]], old(state).inodes)
        else old(state)
      ensures trace == old(trace) + [state] && faults == old(faults) + (if ok then 0 else 1)
    {
      ok := Attempt();
      if ok {
        var names := state.Current();
        state := DiskState(state.directories + [(names - {name})[newName := names[name]]], state.inodes);
      }
      trace := trace + [state];
    }

    /** fsync on the directory: only its current content can be found after a crash. */
    method SyncDirectory() returns (ok: bool)
      requires state.directories != []
      modifies this
      ensures state == if ok then DiskState([old(state).Current()], old(state).inodes) else old(state)
      ensures trace == old(trace) + [state] && faults == old(faults) + (if ok then 0 else 1)
    {
      ok := Attempt();
      if ok {
        state := DiskState([state.Current()], state.inodes);
      }
      trace := trace + [state];
    }

    method Unlink(name: Name)
      requires state.directories != []
      modifies this
      ensures state == old(state) ||
        state == DiskState(old(state).directories + [old(state).Current() - {name}], old(state).inodes)
      ensures name !in old(state).Current() ==> state == old(state)
      ensures trace == old(trace) + [state] && faults >= old(faults)
      // only a fault leaves the name there
      ensures name in old(state).Current() && faults == old(faults) ==>
        state == DiskState(old(state).directories + [old(state).Current() - {name}], old(state).inodes)
    {
      var ok := Attempt();
      if ok && name in state.Current() {
        state := DiskState(state.directories + [state.Current() - {name}], state.inodes);
      }
      trace := trace + [state];
    }
  }

  // ---------------------------------------------------------------- the states of one attempt

  /** The temporary file exists under its own name, and nothing else has changed. */
  predicate Staged(before: DiskState, state: DiskState, temporary: Name, ino: nat)
    requires before.directories != []
  {
    && temporary !in before.Current()
    && NewFile(before, state, ino)
    && state.directories == before.directories + [before.Current()[temporary := ino]]
  }

  predicate NewFile(before: DiskState, state: DiskState, ino: nat) {
    ino !in before.inodes && ino in state.inodes && state.inodes == before.inodes[ino := state.inodes[ino]]
  }

  /** The temporary file may be gone again. */
  predicate Abandoned(before: DiskState, state: DiskState, temporary: Name, ino: nat)
    requires before.directories != []
  {
    || Staged(before, state, temporary, ino)
    || (temporary !in before.Current() && NewFile(before, state, ino)
        && state.directories == before.directories + [before.Current()[temporary := ino], before.Current()])
  }

  /** The new file is finished and has the target's name, and only the directory is not synced. */
  predicate Unsynced(before: DiskState, state: DiskState, leaf: Name, bytes: string, temporary: Name, ino: nat)
    requires before.directories != []
  {
    && temporary !in before.Current() && temporary != leaf
    && NewFile(before, state, ino) && Finished(state, ino, bytes)
    && state.directories == before.directories + [before.Current()[temporary := ino], before.Current()[leaf := ino]]
  }

  /** The disk once everything has worked. */
  function Replaced(before: DiskState, leaf: Name, ino: nat, mode: nat, bytes: string): DiskState
    requires before.directories != []
  {
    DiskState([before.Current()[leaf := ino]], before.inodes[ino := Inode(true, mode % 0x200, bytes, true)])
  }

  lemma CurrentKin(before: DiskState, names: map<Name, nat>, leaf: Name, spare: set<Name>)
    requires before.directories != []
    requires forall name: Name {:trigger Lookup(names, name)} ::
      name != leaf && name !in spare ==> Lookup(names, name) == Lookup(before.Current(), name)
    ensures Kin(before, names, leaf, spare)
    ensures Lookup(names, leaf) == Lookup(before.Current(), leaf) ==> Had(before, leaf, Lookup(names, leaf))
  {
    assert before.Current() == before.directories[|before.directories| - 1];
  }

  lemma OldKin(before: DiskState, k: nat, leaf: Name, spare: set<Name>)
    requires k < |before.directories|
    ensures Kin(before, before.directories[k], leaf, spare) && Had(before, leaf, Lookup(before.directories[k], leaf))
  {
  }

  lemma UntouchedKept(before: DiskState, leaf: Name, spare: set<Name>)
    requires Sound(before)
    ensures Kept(before, before, leaf, spare)
  {
    hide Had, Kin;
    forall k | 0 <= k < |before.directories|
      ensures Kin(before, before.directories[k], leaf, spare) && Had(before, leaf, Lookup(before.directories[k], leaf))
    {
      OldKin(before, k, leaf, spare);
    }
  }

  /** One more version of the directory. */
  lemma KeptMore(before: DiskState, state: DiskState, names: map<Name, nat>, leaf: Name, spare: set<Name>)
    requires Kept(before, state, leaf, spare) && Rooted(names, state.inodes)
    requires Kin(before, names, leaf, spare) && Had(before, leaf, Lookup(names, leaf))
    ensures Kept(before, DiskState(state.directories + [names], state.inodes), leaf, spare)
  {
    hide Had, Kin, Rooted;
  }

  lemma NewFileKept(before: DiskState, state: DiskState, ino: nat, leaf: Name, spare: set<Name>)
    requires Sound(before) && NewFile(before, state, ino) && state.directories == before.directories
    ensures Kept(before, state, leaf, spare)
  {
    hide Had, Kin;
    UntouchedKept(before, leaf, spare);
  }

  lemma AbandonedKept(before: DiskState, state: DiskState, temporary: Name, ino: nat, leaf: Name, spare: set<Name>)
    requires Sound(before) && Abandoned(before, state, temporary, ino) && leaf != temporary && temporary in spare
    ensures Kept(before, state, leaf, spare)
  {
    hide Had, Kin, Kept, Sound;
    CurrentRooted(before);
    var cur := before.Current();
    var start := DiskState(before.directories, state.inodes);
    NewFileKept(before, start, ino, leaf, spare);
    CurrentKin(before, cur[temporary := ino], leaf, spare);
    CurrentKin(before, cur, leaf, spare);
    KeptMore(before, start, cur[temporary := ino], leaf, spare);
    var staged := DiskState(before.directories + [cur[temporary := ino]], state.inodes);
    KeptMore(before, staged, cur, leaf, spare);
    assert staged.directories + [cur] == before.directories + [cur[temporary := ino], cur];
  }

  lemma CurrentRooted(before: DiskState)
    requires Sound(before)
    ensures before.directories != [] && Rooted(before.Current(), before.inodes)
  {
  }

  lemma UnsyncedShape(before: DiskState, state: DiskState, leaf: Name, bytes: string, temporary: Name, ino: nat, spare: set<Name>)
    requires Sound(before) && Unsynced(before, state, leaf, bytes, temporary, ino) && temporary in spare
    ensures Shape(before, state, leaf, bytes, spare)
  {
    hide Had, Kin, Sound, Kept;
    CurrentRooted(before);
    var cur := before.Current();
    var staged := DiskState(before.directories + [cur[temporary := ino]], state.inodes);
    AbandonedKept(before, staged, temporary, ino, leaf, spare);
    KeptShape(before, staged, leaf, bytes, spare);
    CurrentKin(before, cur[leaf := ino], leaf, spare);
    ShapeMore(before, staged, cur[leaf := ino], leaf, bytes, spare);
    assert staged.directories + [cur[leaf := ino]] == state.directories;
  }

  lemma ShapeMore(before: DiskState, state: DiskState, names: map<Name, nat>, leaf: Name, bytes: string, spare: set<Name>)
    requires Shape(before, state, leaf, bytes, spare) && Rooted(names, state.inodes)
    requires Kin(before, names, leaf, spare) && leaf in names && Finished(state, names[leaf], bytes)
    ensures Shape(before, DiskState(state.directories + [names], state.inodes), leaf, bytes, spare)
  {
    hide Had, Kin, Rooted;
  }

  lemma ReplacedShape(before: DiskState, leaf: Name, ino: nat, mode: nat, bytes: string, spare: set<Name>)
    requires Sound(before) && ino !in before.inodes
    ensures var state := Replaced(before, leaf, ino, mode, bytes);
      Shape(before, state, leaf, bytes, spare) && Durable(state, leaf, bytes)
  {
    hide Had, Durable;
    CurrentRooted(before);
    CurrentKin(before, before.Current()[leaf := ino], leaf, spare);
    SettledIsDurable(Replaced(before, leaf, ino, mode, bytes), leaf, bytes);
  }

  /** When only the directory sync is missing the target reads as the new bytes, but a crash can still bring back
      whatever could be found before, and can as well leave the new bytes. */
  lemma UnsyncedIsNotDurable(before: DiskState, state: DiskState, leaf: Name, bytes: string, temporary: Name, ino: nat,
                             content: Option<string>)
    requires Sound(before) && Unsynced(before, state, leaf, bytes, temporary, ino) && Findable(before, leaf, content)
    ensures ReadNow(state, leaf) == Some(bytes)
    ensures Findable(state, leaf, content) && Findable(state, leaf, Some(bytes))
  {
    hide MayCrashTo;
    var prior :| MayCrashTo(before, prior) && prior.Read(leaf) == content;
    var contents := prior.contents[ino := bytes];
    WithNewFile(before, state, prior, ino, bytes);
    var k := FoundIn(before, prior, leaf);
    assert state.directories[k] == before.directories[k];
    assert Rooted(before.directories[k], before.inodes);
    OneVersion(state, k, contents);
    assert Survivor(state.directories[k], contents).Read(leaf) == content;
    var last := |state.directories| - 1;
    OneVersion(state, last, contents);
    assert Survivor(state.directories[last], contents).Read(leaf) == Some(bytes);
  }

  /** A crash may leave one version of the directory as a whole. */
  lemma OneVersion(state: DiskState, k: nat, contents: map<nat, string>)
    requires k < |state.directories| && contents.Keys == state.inodes.Keys
    requires forall ino <- state.inodes :: state.inodes[ino].synced ==> contents[ino] == state.inodes[ino].bytes
    ensures MayCrashTo(state, Survivor(state.directories[k], contents))
  {
    var after := Survivor(state.directories[k], contents);
    forall name: Name ensures Had(state, name, Lookup(after.names, name)) {
    }
  }

  lemma WithNewFile(before: DiskState, state: DiskState, prior: Survivor, ino: nat, bytes: string)
    requires MayCrashTo(before, prior) && NewFile(before, state, ino) && state.inodes[ino].bytes == bytes
    ensures var contents := prior.contents[ino := bytes];
      && contents.Keys == state.inodes.Keys && prior.contents.Keys == before.inodes.Keys
      && forall i <- state.inodes :: state.inodes[i].synced ==> contents[i] == state.inodes[i].bytes
  {
  }

  /** Such a state, left by a directory sync that failed: the error comes with the new bytes in place. */
  lemma UnsyncedExample() returns (before: DiskState, state: DiskState)
    ensures Clean(before) && Unsynced(before, state, "settings", "new", "temporary", 1)
    ensures ReadNow(before, "settings") == Some("old") && ReadNow(state, "settings") == Some("new")
  {
    before := DiskState([map["settings" := 0]], map[0 := Inode(true, 0, "old", true)]);
    state := DiskState(
      before.directories + [before.Current()["temporary" := 1], before.Current()["settings" := 1]],
      before.inodes[1 := Inode(true, 0, "new", true)]);
    assert "settings" != "temporary" by {
      assert |"settings"| != |"temporary"|;
    }
  }

  /** The target and all other names as they read while the machine is up. */
  ghost predicate ReadsOn(before: DiskState, state: DiskState, leaf: Name, content: Option<string>, spare: set<Name>) {
    && before.directories != [] && state.directories != []
    && ReadNow(state, leaf) == content
    && forall name: Name {:trigger ReadNow(state, name)} :: name != leaf && name !in spare ==> ReadNow(state, name) == ReadNow(before, name)
  }

  lemma AbandonedReads(before: DiskState, state: DiskState, temporary: Name, ino: nat, leaf: Name, spare: set<Name>)
    requires Sound(before) && Abandoned(before, state, temporary, ino) && leaf != temporary && temporary in spare
    ensures ReadsOn(before, state, leaf, ReadNow(before, leaf), spare)
  {
    CurrentRooted(before);
    hide Sound;
  }

  lemma RenamedReads(before: DiskState, state: DiskState, leaf: Name, bytes: string, ino: nat, spare: set<Name>)
    requires Sound(before) && NewFile(before, state, ino) && state.inodes[ino].bytes == bytes
    requires state.directories != [] && state.Current() == before.Current()[leaf := ino]
    ensures ReadsOn(before, state, leaf, Some(bytes), spare)
  {
    CurrentRooted(before);
    hide Sound;
  }

  // ---------------------------------------------------------------- the operation

  /** Every state since `was` keeps the shape. */
  ghost predicate ShapeRun(before: DiskState, was: seq<DiskState>, now: seq<DiskState>, leaf: Name, bytes: string, spare: set<Name>) {
    was <= now && forall i | |was| <= i < |now| :: Shape(before, now[i], leaf, bytes, spare)
  }

  lemma ShapeRunThen(before: DiskState, was: seq<DiskState>, now: seq<DiskState>, next: DiskState, leaf: Name, bytes: string, spare: set<Name>)
    requires ShapeRun(before, was, now, leaf, bytes, spare) && Shape(before, next, leaf, bytes, spare)
    ensures ShapeRun(before, was, now + [next], leaf, bytes, spare)
  {
    hide Shape;
  }

  lemma StagedShape(before: DiskState, state: DiskState, temporary: Name, ino: nat, leaf: Name, bytes: string, spare: set<Name>)
    requires Sound(before) && Abandoned(before, state, temporary, ino) && leaf != temporary && temporary in spare
    ensures Shape(before, state, leaf, bytes, spare)
  {
    hide Shape, Kept;
    AbandonedKept(before, state, temporary, ino, leaf, spare);
    KeptShape(before, state, leaf, bytes, spare);
  }

  /** Permissions, contents and sync of the temporary file. */
  method Prepare(disk: Disk, ghost before: DiskState, leaf: Name, bytes: string, mode: nat, temporary: Name, ino: nat,
                 ghost spare: set<Name>)
    returns (ok: bool)
    requires Sound(before) && leaf != temporary && temporary in spare && Staged(before, disk.state, temporary, ino)
    modifies disk
    ensures Staged(before, disk.state, temporary, ino)
    ensures ShapeRun(before, old(disk.trace), disk.trace, leaf, bytes, spare)
    ensures ok ==> disk.state.inodes[ino] == Inode(true, mode % 0x200, bytes, true)
    ensures disk.faults == old(disk.faults) + (if ok then 0 else 1)
  {
    hide Shape, Sound;
    ghost var was, trace := disk.trace, disk.trace;
    ok := disk.Update(ino, Inode(true, mode % 0x200, "", false));
    StagedShape(before, disk.state, temporary, ino, leaf, bytes, spare);
    ShapeRunThen(before, was, trace, disk.state, leaf, bytes, spare);
    if !ok {
      return;
    }
    trace := disk.trace;
    ok := disk.Update(ino, Inode(true, mode % 0x200, bytes, false));
    StagedShape(before, disk.state, temporary, ino, leaf, bytes, spare);
    ShapeRunThen(before, was, trace, disk.state, leaf, bytes, spare);
    if !ok {
      return;
    }
    trace := disk.trace;
    ok := disk.Update(ino, Inode(true, mode % 0x200, bytes, true));
    StagedShape(before, disk.state, temporary, ino, leaf, bytes, spare);
    ShapeRunThen(before, was, trace, disk.state, leaf, bytes, spare);
  }

  /** The operation on one temporary file: permissions, contents, sync, rename, directory sync. */
  method WriteTemporary(disk: Disk, ghost before: DiskState, leaf: Name, bytes: string, mode: nat, temporary: Name, ino: nat,
                        ghost spare: set<Name>)
    returns (error: Option<WriteError>)
    requires Sound(before) && leaf != temporary && temporary in spare && Staged(before, disk.state, temporary, ino)
    modifies disk
    ensures ShapeRun(before, old(disk.trace), disk.trace, leaf, bytes, spare)
    ensures match error
      case None => disk.state == Replaced(before, leaf, ino, mode, bytes)
      case Some(Io(Directory)) => Unsynced(before, disk.state, leaf, bytes, temporary, ino)
      case Some(_) => Staged(before, disk.state, temporary, ino)
    ensures error.Some? ==> error.value.Io?
    ensures disk.faults == old(disk.faults) + (if error.None? then 0 else 1)
  {
    hide Shape, Sound;
    CurrentRooted(before);
    ghost var was := disk.trace;
    var ok := Prepare(disk, before, leaf, bytes, mode, temporary, ino, spare);
    if !ok {
      return Some(Io(Target));
    }
    ghost var trace, cur := disk.trace, before.Current();
    ok := disk.Rename(temporary, leaf);
    assert (cur[temporary := ino] - {temporary})[leaf := ino] == cur[leaf := ino];
    if !ok {
      StagedShape(before, disk.state, temporary, ino, leaf, bytes, spare);
      ShapeRunThen(before, was, trace, disk.state, leaf, bytes, spare);
      return Some(Io(Target));
    }
    assert before.directories + [cur[temporary := ino]] + [cur[leaf := ino]] == before.directories + [cur[temporary := ino], cur[leaf := ino]];
    UnsyncedShape(before, disk.state, leaf, bytes, temporary, ino, spare);
    ShapeRunThen(before, was, trace, disk.state, leaf, bytes, spare);
    trace := disk.trace;
    ok := disk.SyncDirectory();
    if !ok {
      ShapeRunThen(before, was, trace, disk.state, leaf, bytes, spare);
      return Some(Io(Directory));
    }
    ReplacedShape(before, leaf, ino, mode, bytes, spare);
    ShapeRunThen(before, was, trace, disk.state, leaf, bytes, spare);
    error := None;
  }

  /** How an attempt ends: with everything done, with only the directory sync missing, or with nothing done. */
  ghost predicate Ended(before: DiskState, state: DiskState, r: Result<(), WriteError>, leaf: Name, bytes: string, mode: nat,
                        temporary: Name, ino: nat)
    requires before.directories != []
  {
    match r
    case Success(_) => ino !in before.inodes && state == Replaced(before, leaf, ino, mode, bytes)
    case Failure(Io(Directory)) => Unsynced(before, state, leaf, bytes, temporary, ino)
    case Failure(_) => Abandoned(before, state, temporary, ino)
  }

  /** From a created temporary file to the end; a failed attempt tries to remove it. */
  method Finish(disk: Disk, ghost before: DiskState, leaf: Name, bytes: string, mode: nat, temporary: Name, ino: nat,
                ghost spare: set<Name>)
    returns (r: Result<(), WriteError>)
    requires Sound(before) && leaf != temporary && temporary in spare && Staged(before, disk.state, temporary, ino)
    modifies disk
    ensures ShapeRun(before, old(disk.trace), disk.trace, leaf, bytes, spare)
    ensures Ended(before, disk.state, r, leaf, bytes, mode, temporary, ino)
    ensures r.Failure? ==> r.error.Io?
    // only a second fault leaves the temporary name behind
    ensures disk.faults <= old(disk.faults) + 1 ==> disk.state.directories != [] && temporary !in disk.state.Current()
    ensures if r.Success? then disk.faults == old(disk.faults) else disk.faults > old(disk.faults)
  {
    hide Shape, Sound;
    CurrentRooted(before);
    ghost var was := disk.trace;
    var error := WriteTemporary(disk, before, leaf, bytes, mode, temporary, ino, spare);
    if error.None? {
      return Success(());
    }
    ghost var trace, cur := disk.trace, before.Current();
    disk.Unlink(temporary);
    if error == Some(Io(Directory)) {
      UnsyncedShape(before, disk.state, leaf, bytes, temporary, ino, spare);
    } else {
      assert cur[temporary := ino] - {temporary} == cur;
      assert before.directories + [cur[temporary := ino]] + [cur] == before.directories + [cur[temporary := ino], cur];
      StagedShape(before, disk.state, temporary, ino, leaf, bytes, spare);
    }
    ShapeRunThen(before, was, trace, disk.state, leaf, bytes, spare);
    r := Failure(error.value);
  }

  /** The temporary names that no file has. */
  function Spare(before: DiskState, temporaries: seq<Name>): set<Name>
    requires before.directories != []
  {
    set temporary | temporary in temporaries && temporary !in before.Current()
  }

  /** What is true of every ending. */
  ghost predicate Safely(before: DiskState, state: DiskState, r: Result<(), WriteError>, leaf: Name, bytes: string, mode: nat,
                         spare: set<Name>)
    requires before.directories != []
  {
    && Sound(state)
    && match r
       case Success(_) =>
         && ReadsOn(before, state, leaf, Some(bytes), spare) && Durable(state, leaf, bytes)
         && |state.directories| == 1 && state.Current().Keys == before.Current().Keys + {leaf}
         && leaf in state.Current() && state.Current()[leaf] in state.inodes
         && state.inodes[state.Current()[leaf]] == Inode(true, mode % 0x200, bytes, true)
         && (Clean(before) ==> Clean(state))
       case Failure(Io(Directory)) =>
         state == before || exists temporary, ino :: temporary in spare && Unsynced(before, state, leaf, bytes, temporary, ino)
       case Failure(_) =>
         ReadsOn(before, state, leaf, ReadNow(before, leaf), spare) && CrashKept(before, state, spare)
  }

  lemma EndedSafely(before: DiskState, state: DiskState, r: Result<(), WriteError>, leaf: Name, bytes: string, mode: nat,
                    temporary: Name, ino: nat, spare: set<Name>)
    requires Sound(before) && Ended(before, state, r, leaf, bytes, mode, temporary, ino)
    requires leaf != temporary && temporary in spare && leaf !in spare
    ensures Safely(before, state, r, leaf, bytes, mode, spare)
  {
    hide CrashKept, Durable, ReadsOn, MayCrashTo, Shape, Kept;
    match r
    case Success(_) =>
      ReplacedShape(before, leaf, ino, mode, bytes, spare);
      ShapeSound(before, state, leaf, bytes, spare);
      RenamedReads(before, state, leaf, bytes, ino, spare);
    case Failure(Io(Directory)) =>
      UnsyncedShape(before, state, leaf, bytes, temporary, ino, spare);
      ShapeSound(before, state, leaf, bytes, spare);
    case Failure(_) =>
      AbandonedKept(before, state, temporary, ino, leaf, spare);
      KeptIsSafe(before, state, leaf, spare);
      AbandonedReads(before, state, temporary, ino, leaf, spare);
      KeptShape(before, state, leaf, bytes, spare);
      ShapeSound(before, state, leaf, bytes, spare);
  }

  lemma ShapeSound(before: DiskState, state: DiskState, leaf: Name, bytes: string, spare: set<Name>)
    requires Shape(before, state, leaf, bytes, spare)
    ensures Sound(state)
  {
  }

  lemma UntouchedSafely(before: DiskState, error: WriteError, leaf: Name, bytes: string, mode: nat, spare: set<Name>)
    requires Sound(before) && leaf !in spare
    ensures Safely(before, before, Failure(error), leaf, bytes, mode, spare) && Shape(before, before, leaf, bytes, spare)
  {
    hide CrashKept, MayCrashTo, Kept, Shape;
    UntouchedKept(before, leaf, spare);
    KeptShape(before, before, leaf, bytes, spare);
    KeptIsSafe(before, before, leaf, spare);
  }

  lemma SafeRun(before: DiskState, was: seq<DiskState>, now: seq<DiskState>, leaf: Name, bytes: string, spare: set<Name>)
    requires Sound(before) && leaf !in spare && ShapeRun(before, was, now, leaf, bytes, spare)
    ensures was <= now && forall i | |was| <= i < |now| :: CrashSafe(before, now[i], leaf, bytes, spare)
  {
    hide Shape, CrashSafe, Sound;
    forall i | |was| <= i < |now| ensures CrashSafe(before, now[i], leaf, bytes, spare) {
      ShapeIsSafe(before, now[i], leaf, bytes, spare);
    }
  }

  /** Replace one regular file through a temporary file in the same directory. */
  method Replace(disk: Disk, leaf: Name, bytes: string, mode: nat, temporaries: seq<Name>) returns (r: Result<(), WriteError>)
    requires Sound(disk.state)
    // sixteen random names, none of them the target
    requires |temporaries| == 16 && leaf !in temporaries
    modifies disk
    ensures disk.faults >= old(disk.faults)
    ensures old(disk.trace) <= disk.trace && forall i | |old(disk.trace)| <= i < |disk.trace| ::
      CrashSafe(old(disk.state), disk.trace[i], leaf, bytes, Spare(old(disk.state), temporaries))
    ensures CrashSafe(old(disk.state), disk.state, leaf, bytes, Spare(old(disk.state), temporaries))
    ensures Safely(old(disk.state), disk.state, r, leaf, bytes, mode, Spare(old(disk.state), temporaries))
    ensures var names := old(disk.state).Current();
      var unsafe := leaf in names && !old(disk.state).inodes[names[leaf]].regular;
      && (unsafe ==> r.Failure? && disk.state == old(disk.state) && disk.trace == old(disk.trace))
      && (r == Failure(UnsafeTarget) ==> unsafe) && (disk.faults == old(disk.faults) && unsafe ==> r == Failure(UnsafeTarget))
    // only a second fault leaves a temporary name behind
    ensures disk.faults <= old(disk.faults) + 1 ==>
      disk.state.directories != [] && forall temporary <- Spare(old(disk.state), temporaries) :: temporary !in disk.state.Current()
    ensures var names := old(disk.state).Current();
      disk.faults == old(disk.faults) ==> (r.Success? <==>
        && (leaf in names ==> old(disk.state).inodes[names[leaf]].regular)
        && exists temporary <- temporaries :: temporary !in names)
  {
    hide Shape, CrashSafe, Safely, Sound, Ended, ShapeRun;
    ghost var before, was := disk.state, disk.trace;
    CurrentRooted(before);
    var names := disk.state.Current();
    ghost var spare := Spare(before, temporaries);
    UntouchedSafely(before, Io(Target), leaf, bytes, mode, spare);
    UntouchedSafely(before, Io(Directory), leaf, bytes, mode, spare);
    UntouchedSafely(before, UnsafeTarget, leaf, bytes, mode, spare);
    ShapeIsSafe(before, before, leaf, bytes, spare);
    RunStart(before, was, leaf, bytes, spare);
    var reached := disk.Attempt();
    if !reached {
      SafeRun(before, was, disk.trace, leaf, bytes, spare);
      return Failure(Io(Directory));
    }
    var seen := disk.Attempt();
    if !seen {
      SafeRun(before, was, disk.trace, leaf, bytes, spare);
      return Failure(Io(Target));
    }
    if leaf in names && !disk.state.inodes[names[leaf]].regular {
      SafeRun(before, was, disk.trace, leaf, bytes, spare);
      return Failure(UnsafeTarget);
    }
    for i := 0 to 16
      invariant disk.state == before && disk.faults == old(disk.faults) && ShapeRun(before, was, disk.trace, leaf, bytes, spare)
      invariant forall j | 0 <= j < i :: temporaries[j] in names
    {
      var ino := FreshInode(disk.state.inodes.Keys);
      ghost var trace := disk.trace;
      var created, collision := disk.Create(temporaries[i], mode % 0x200, ino);
      assert temporaries[i] in temporaries;
      if created {
        StagedShape(before, disk.state, temporaries[i], ino, leaf, bytes, spare);
        ShapeRunThen(before, was, trace, disk.state, leaf, bytes, spare);
        trace := disk.trace;
        r := Finish(disk, before, leaf, bytes, mode, temporaries[i], ino, spare);
        RunJoined(before, was, trace, disk.trace, leaf, bytes, spare);
        EndedSafely(before, disk.state, r, leaf, bytes, mode, temporaries[i], ino, spare);
        SafeRun(before, was, disk.trace, leaf, bytes, spare);
        EndedShape(before, disk.state, r, leaf, bytes, mode, temporaries[i], ino, spare);
        EndedNames(before, disk.state, r, leaf, bytes, mode, temporaries[i], ino);
        ShapeIsSafe(before, disk.state, leaf, bytes, spare);
        return;
      }
      ShapeRunThen(before, was, trace, disk.state, leaf, bytes, spare);
      if !collision {
        SafeRun(before, was, disk.trace, leaf, bytes, spare);
        return Failure(Io(Target));
      }
    }
    SafeRun(before, was, disk.trace, leaf, bytes, spare);
    assert forall temporary <- temporaries :: temporary in names;
    r := Failure(Io(Target));
  }

  lemma EndedShape(before: DiskState, state: DiskState, r: Result<(), WriteError>, leaf: Name, bytes: string, mode: nat,
                   temporary: Name, ino: nat, spare: set<Name>)
    requires Sound(before) && Ended(before, state, r, leaf, bytes, mode, temporary, ino)
    requires leaf != temporary && temporary in spare
    ensures Shape(before, state, leaf, bytes, spare)
  {
    hide Shape, Sound;
    match r
    case Success(_) => ReplacedShape(before, leaf, ino, mode, bytes, spare);
    case Failure(Io(Directory)) => UnsyncedShape(before, state, leaf, bytes, temporary, ino, spare);
    case Failure(_) => StagedShape(before, state, temporary, ino, leaf, bytes, spare);
  }

  lemma EndedNames(before: DiskState, state: DiskState, r: Result<(), WriteError>, leaf: Name, bytes: string, mode: nat,
                   temporary: Name, ino: nat)
    requires before.directories != [] && Ended(before, state, r, leaf, bytes, mode, temporary, ino)
    ensures state.directories != [] && state.Current().Keys <= before.Current().Keys + {temporary, leaf}
  {
  }

  lemma RunStart(before: DiskState, was: seq<DiskState>, leaf: Name, bytes: string, spare: set<Name>)
    ensures ShapeRun(before, was, was, leaf, bytes, spare)
  {
  }

  lemma RunJoined(before: DiskState, was: seq<DiskState>, mid: seq<DiskState>, now: seq<DiskState>, leaf: Name, bytes: string, spare: set<Name>)
    requires ShapeRun(before, was, mid, leaf, bytes, spare) && ShapeRun(before, mid, now, leaf, bytes, spare)
    ensures ShapeRun(before, was, now, leaf, bytes, spare)
  {
    hide Shape;
    forall i | |was| <= i < |now| ensures Shape(before, now[i], leaf, bytes, spare) {
      assert i < |mid| ==> now[i] == mid[i];
    }
  }

  /** A number no file has. */
  method FreshInode(used: set<nat>) returns (ino: nat)
    ensures ino !in used
  {
    ino := 0;
    var rest := used;
    while rest != {}
      invariant rest <= used && forall u :: u in used && u !in rest ==> u < ino
    {
      var u :| u in rest;
      if u >= ino {
        ino := u + 1;
      }
      rest := rest - {u};
    }
  }

  // ---------------------------------------------------------------- many saves

  datatype Save = Save(bytes: string, mode: nat, temporaries: seq<Name>)

  function MadeUp(saves: seq<Save>): set<Name> {
    set save, temporary | save in saves && temporary in save.temporaries :: temporary
  }

  /** After a crash the target holds the bytes of one of the saves from `since` on, or, when there is no such bound,
      what a crash could have left under it at first; and every other name holds what that crash could have left. */
  ghost predicate Recalls(origin: DiskState, state: DiskState, leaf: Name, saves: seq<Save>, since: Option<nat>) {
    forall after {:trigger MayCrashTo(state, after)} :: MayCrashTo(state, after) ==>
      exists prior :: MayCrashTo(origin, prior) && RecalledFrom(prior, after, leaf, saves, since)
  }

  ghost predicate RecalledFrom(prior: Survivor, after: Survivor, leaf: Name, saves: seq<Save>, since: Option<nat>) {
    && SameElsewhere(prior, after, MadeUp(saves) + {leaf})
    && (Saved(saves, since, after.Read(leaf)) || (since.None? && after.Read(leaf) == prior.Read(leaf)))
  }

  ghost predicate Saved(saves: seq<Save>, since: Option<nat>, content: Option<string>) {
    exists j: nat :: (since.Some? ==> since.value <= j) && j < |saves| && content == Some(saves[j].bytes)
  }

  /** The number of the last save that succeeded. */
  function LastSuccess(results: seq<Result<(), WriteError>>): (last: Option<nat>)
    ensures last.Some? ==> last.value < |results| && results[last.value].Success?
    ensures forall j | 0 <= j < |results| && results[j].Success? :: last.Some? && j <= last.value
  {
    if results == [] then None
    else if results[|results| - 1].Success? then Some(|results| - 1)
    else LastSuccess(results[..|results| - 1])
  }

  lemma RecallsAtFirst(origin: DiskState, leaf: Name, saves: seq<Save>)
    ensures Recalls(origin, origin, leaf, saves, None)
  {
    hide MayCrashTo;
    forall after | MayCrashTo(origin, after)
      ensures exists prior :: MayCrashTo(origin, prior) && RecalledFrom(prior, after, leaf, saves, None)
    {
      assert RecalledFrom(after, after, leaf, saves, None);
    }
  }

  /** One save more, or part of one. */
  lemma RecallsStep(origin: DiskState, mid: DiskState, state: DiskState, leaf: Name, saves: seq<Save>, since: Option<nat>, i: nat, spare: set<Name>)
    requires Recalls(origin, mid, leaf, saves, since) && i < |saves| && (since.Some? ==> since.value <= i)
    requires CrashSafe(mid, state, leaf, saves[i].bytes, spare) && spare <= MadeUp(saves)
    ensures Recalls(origin, state, leaf, saves, since)
  {
    hide MayCrashTo, MadeUp;
    forall after | MayCrashTo(state, after)
      ensures exists prior :: MayCrashTo(origin, prior) && RecalledFrom(prior, after, leaf, saves, since)
    {
      var between :| MayCrashTo(mid, between) && OldOrNew(between, after, leaf, saves[i].bytes, spare);
      var prior :| MayCrashTo(origin, prior) && RecalledFrom(prior, between, leaf, saves, since);
      assert Saved(saves, since, Some(saves[i].bytes));
      assert RecalledFrom(prior, after, leaf, saves, since);
    }
  }

  /** After a success no older save can come back. */
  lemma RecallsAnew(origin: DiskState, state: DiskState, leaf: Name, saves: seq<Save>, since: Option<nat>, i: nat)
    requires Recalls(origin, state, leaf, saves, since) && i < |saves| && Durable(state, leaf, saves[i].bytes)
    ensures Recalls(origin, state, leaf, saves, Some(i))
  {
    hide MayCrashTo, MadeUp;
    forall after | MayCrashTo(state, after)
      ensures exists prior :: MayCrashTo(origin, prior) && RecalledFrom(prior, after, leaf, saves, Some(i))
    {
      var prior :| MayCrashTo(origin, prior) && RecalledFrom(prior, after, leaf, saves, since);
      assert Saved(saves, Some(i), Some(saves[i].bytes));
      assert RecalledFrom(prior, after, leaf, saves, Some(i));
    }
  }

  lemma RecallsLess(origin: DiskState, state: DiskState, leaf: Name, saves: seq<Save>, since: Option<nat>)
    requires Recalls(origin, state, leaf, saves, since)
    ensures Recalls(origin, state, leaf, saves, None)
  {
    hide MayCrashTo, MadeUp;
    forall after | MayCrashTo(state, after)
      ensures exists prior :: MayCrashTo(origin, prior) && RecalledFrom(prior, after, leaf, saves, None)
    {
      var prior :| MayCrashTo(origin, prior) && RecalledFrom(prior, after, leaf, saves, since);
      if j: nat :| (since.Some? ==> since.value <= j) && j < |saves| && after.Read(leaf) == Some(saves[j].bytes) {
        assert Saved(saves, None, after.Read(leaf));
      }
      assert RecalledFrom(prior, after, leaf, saves, None);
    }
  }

  lemma SpareMadeUp(before: DiskState, saves: seq<Save>, i: nat)
    requires before.directories != [] && i < |saves|
    ensures Spare(before, saves[i].temporaries) <= MadeUp(saves)
  {
    assert saves[i] in saves;
  }

  /** In every state since `was` a crash leaves some content that was findable at first or saved since. */
  ghost predicate RecallRun(origin: DiskState, was: seq<DiskState>, now: seq<DiskState>, leaf: Name, saves: seq<Save>) {
    was <= now && forall k | |was| <= k < |now| :: Recalls(origin, now[k], leaf, saves, None)
  }

  /** One save more. */
  lemma SaveStep(origin: DiskState, mid: DiskState, state: DiskState, was: seq<DiskState>, trace: seq<DiskState>, now: seq<DiskState>,
                 r: Result<(), WriteError>, leaf: Name, saves: seq<Save>, since: Option<nat>, i: nat, spare: set<Name>)
    requires mid.directories != [] && i < |saves| && (since.Some? ==> since.value <= i) && spare == Spare(mid, saves[i].temporaries)
    requires Recalls(origin, mid, leaf, saves, since) && RecallRun(origin, was, trace, leaf, saves)
    requires trace <= now && forall k | |trace| <= k < |now| :: CrashSafe(mid, now[k], leaf, saves[i].bytes, spare)
    requires CrashSafe(mid, state, leaf, saves[i].bytes, spare) && Safely(mid, state, r, leaf, saves[i].bytes, saves[i].mode, spare)
    ensures Sound(state) && RecallRun(origin, was, now, leaf, saves)
    ensures Recalls(origin, state, leaf, saves, if r.Success? then Some(i) else since)
  {
    hide Sound, Recalls, CrashSafe, CrashKept, ReadsOn, Durable, MadeUp, Spare;
    SpareMadeUp(mid, saves, i);
    RecallsLess(origin, mid, leaf, saves, since);
    forall k | |was| <= k < |now| ensures Recalls(origin, now[k], leaf, saves, None) {
      if k < |trace| {
        assert now[k] == trace[k];
      } else {
        RecallsStep(origin, mid, now[k], leaf, saves, None, i, spare);
      }
    }
    RecallsStep(origin, mid, state, leaf, saves, since, i, spare);
    if r.Success? {
      RecallsAnew(origin, state, leaf, saves, since, i);
    }
  }

  /** Saves one after the other, failed ones included: no crash, whenever it comes, leaves anything older than the last save
      that succeeded, or mixes contents. */
  method SaveAll(disk: Disk, leaf: Name, saves: seq<Save>) returns (results: seq<Result<(), WriteError>>)
    requires Sound(disk.state)
    requires forall save <- saves :: |save.temporaries| == 16 && leaf !in save.temporaries
    modifies disk
    ensures |results| == |saves| && Sound(disk.state)
    ensures Recalls(old(disk.state), disk.state, leaf, saves, LastSuccess(results))
    ensures RecallRun(old(disk.state), old(disk.trace), disk.trace, leaf, saves)
  {
    hide Sound, Recalls, RecallRun, CrashSafe, Safely, MadeUp, Spare, LastSuccess;
    ghost var origin, was := disk.state, disk.trace;
    results := [];
    RecallsAtFirst(origin, leaf, saves);
    RecallStart(origin, was, leaf, saves);
    for i := 0 to |saves|
      invariant |results| == i && Sound(disk.state) && RecallRun(origin, was, disk.trace, leaf, saves)
      invariant Recalls(origin, disk.state, leaf, saves, LastSuccess(results))
    {
      ghost var mid, trace := disk.state, disk.trace;
      assert saves[i] in saves;
      CurrentRooted(mid);
      var r := Replace(disk, leaf, saves[i].bytes, saves[i].mode, saves[i].temporaries);
      SaveStep(origin, mid, disk.state, was, trace, disk.trace, r, leaf, saves, LastSuccess(results), i, Spare(mid, saves[i].temporaries));
      LastStep(results, r);
      results := results + [r];
    }
  }

  lemma RecallStart(origin: DiskState, was: seq<DiskState>, leaf: Name, saves: seq<Save>)
    ensures RecallRun(origin, was, was, leaf, saves)
    ensures LastSuccess([]) == None
  {
  }

  lemma LastStep(results: seq<Result<(), WriteError>>, r: Result<(), WriteError>)
    ensures LastSuccess(results + [r]) == if r.Success? then Some(|results|) else LastSuccess(results)
  {
    assert (results + [r])[..|results|] == results;
  }
}
