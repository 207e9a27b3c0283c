// The file system as the transfer code meets it: one tree, changed by one
// system call at a time. Every tree that existed between two calls is recorded.
module Kernel {
  import opened Wrappers
  import opened FileTree

  datatype Errno = NotFound | Other

  class FileSystem {
    var root: Node
    // every state the tree has passed through, oldest first
    ghost var trace: seq<Node>
    // how many calls have failed for a reason outside this model
    ghost var faults: nat

    constructor (root: Node)
      ensures this.root == root && this.trace == [root] && this.faults == 0
    {
      this.root := root;
      this.trace := [root];
      this.faults := 0;
    }

    /** Whether a call gets past faults this model does not explain (disk errors, permissions, quotas). */
    method Attempt() returns (ok: bool)
      modifies this`faults
      ensures faults == old(faults) + if ok then 0 else 1
    {
      ok := *;
      if !ok {
        faults := faults + 1;
      }
    }

    method Stat(dir: Path, name: Name) returns (r: Result<Node, Errno>)
      requires IsDir(root, dir)
      modifies this`faults
      ensures r != Failure(Other) ==>
        r == match Entry(root, dir, name) case Some(node) => Success(node) case None => Failure(NotFound)
      ensures faults == old(faults) + if r == Failure(Other) then 1 else 0
    {
      var ok := Attempt();
      if !ok {
        return Failure(Other);
      }
      var entry := Entry(root, dir, name);
      if entry.None? {
        return Failure(NotFound);
      }
      return Success(entry.value);
    }

    /** The names in a directory; an oversized directory is refused while it is read. */
    method DirectoryNames(dir: Path) returns (names: Option<set<Name>>, oversized: bool)
      requires IsDir(root, dir)
      modifies this`faults
      ensures names.Some? ==> names.value == Names(root, dir) && |names.value| <= MAX_DIRECTORY_ENTRIES && !oversized
      ensures oversized ==> |Names(root, dir)| > MAX_DIRECTORY_ENTRIES
      ensures faults == old(faults) + if names.None? && !oversized then 1 else 0
    {
      var ok := Attempt();
      if !ok {
        return None, false;
      }
      if |Names(root, dir)| > MAX_DIRECTORY_ENTRIES {
        return None, true;
      }
      return Some(Names(root, dir)), false;
    }

    /** open(O_CREAT | O_EXCL), mkdir and symlink: the name must be free. */
    method Create(dir: Path, name: Name, node: Node) returns (ok: bool)
      requires IsDir(root, dir)
      modifies this
      ensures ok ==> Entry(old(root), dir, name) == None
      ensures root == if ok then SetSlot(old(root), dir, name, Some(node)) else old(root)
      ensures trace == if ok then old(trace) + [root] else old(trace)
      ensures faults >= old(faults) && (ok ==> faults == old(faults))
      ensures Entry(old(root), dir, name) == None && faults == old(faults) ==> ok
    {
      ok := Attempt();
      if ok && Entry(root, dir, name).None? {
        root := SetSlot(root, dir, name, Some(node));
        trace := trace + [root];
      } else {
        ok := false;
      }
    }

    /** Write a new file's contents; a failed write may leave any prefix behind. */
    method Write(dir: Path, name: Name, data: string) returns (ok: bool)
      requires IsDir(root, dir)
      requires Entry(root, dir, name).Some? && Entry(root, dir, name).value.File?
      modifies this
      ensures exists n :: (0 <= n <= |data| && (ok ==> n == |data|) &&
        root == SetSlot(old(root), dir, name, Some(File(Entry(old(root), dir, name).value.mode, data[..n]))))
      ensures trace == old(trace) + [root]
      ensures faults == old(faults) + if ok then 0 else 1
    {
      ok := Attempt();
      var n := |data|;
      if !ok {
        n :| 0 <= n <= |data|;
      }
      root := SetSlot(root, dir, name, Some(File(Entry(root, dir, name).value.mode, data[..n])));
      trace := trace + [root];
    }

    method Chmod(dir: Path, name: Name, mode: nat) returns (ok: bool)
      requires IsDir(root, dir)
      requires Entry(root, dir, name).Some? && Entry(root, dir, name).value.Dir?
      modifies this
      ensures root == if ok
        then SetSlot(old(root), dir, name, Some(Dir(mode, Entry(old(root), dir, name).value.entries)))
        else old(root)
      ensures trace == if ok then old(trace) + [root] else old(trace)
      ensures faults == old(faults) + if ok then 0 else 1
    {
      ok := Attempt();
      if ok {
        root := SetSlot(root, dir, name, Some(Dir(mode, Entry(root, dir, name).value.entries)));
        trace := trace + [root];
      }
    }

    /** unlink, and rmdir when the directory is empty. */
    method Unlink(dir: Path, name: Name) returns (ok: bool)
      requires IsDir(root, dir)
      modifies this
      ensures ok ==> Entry(old(root), dir, name).Some?
      ensures root == if ok then SetSlot(old(root), dir, name, None) else old(root)
      ensures trace == if ok then old(trace) + [root] else old(trace)
      ensures faults >= old(faults) && (ok ==> faults == old(faults))
      ensures var entry := Entry(old(root), dir, name);
        entry.Some? && (entry.value.Dir? ==> entry.value.entries == map[]) && faults == old(faults) ==> ok
    {
      ok := Attempt();
      var entry := Entry(root, dir, name);
      if ok && entry.Some? && (entry.value.Dir? ==> entry.value.entries == map[]) {
        root := SetSlot(root, dir, name, None);
        trace := trace + [root];
      } else {
        ok := false;
      }
    }

    /** renameat2(RENAME_NOREPLACE): the new name must be free, and nothing is moved into itself. */
    method RenameNoReplace(dir: Path, name: Name, newDir: Path, newName: Name) returns (ok: bool)
      requires IsDir(root, dir) && IsDir(root, newDir)
      modifies this
      ensures ok ==> Entry(old(root), dir, name).Some? && Entry(old(root), newDir, newName).None? && !(dir + [name] <= newDir)
      ensures root == if ok
        then SetSlot(SetSlot(old(root), dir, name, None), newDir, newName, Entry(old(root), dir, name))
        else old(root)
      ensures trace == if ok then old(trace) + [root] else old(trace)
      ensures faults >= old(faults) && (ok ==> faults == old(faults))
      ensures Entry(old(root), dir, name).Some? && Entry(old(root), newDir, newName).None? && !(dir + [name] <= newDir) && faults == old(faults) ==> ok
    {
      ok := Attempt();
      var entry := Entry(root, dir, name);
      if ok && entry.Some? && Entry(root, newDir, newName).None? && !(dir + [name] <= newDir) {
        root := SetSlot(SetSlot(root, dir, name, None), newDir, newName, entry);
        trace := trace + [root];
      } else {
        ok := false;
      }
    }

    /** renameat2(RENAME_EXCHANGE): both names must exist, and neither lead to the other; a name exchanged with itself changes nothing. */
    method RenameExchange(dir: Path, name: Name, dir2: Path, name2: Name) returns (ok: bool)
      requires IsDir(root, dir) && IsDir(root, dir2)
      modifies this
      ensures ok ==> Entry(old(root), dir, name).Some? && Entry(old(root), dir2, name2).Some?
      ensures ok ==> Exchangeable(dir + [name], dir2 + [name2])
      ensures root == if ok
        then SetSlot(SetSlot(old(root), dir, name, Entry(old(root), dir2, name2)), dir2, name2, Entry(old(root), dir, name))
        else old(root)
      ensures trace == if ok then old(trace) + [root] else old(trace)
      ensures faults >= old(faults) && (ok ==> faults == old(faults))
      ensures var both := Entry(old(root), dir, name).Some? && Entry(old(root), dir2, name2).Some?;
        both && Exchangeable(dir + [name], dir2 + [name2]) && faults == old(faults) ==> ok
    {
      ok := Attempt();
      var entry, entry2 := Entry(root, dir, name), Entry(root, dir2, name2);
      if ok && entry.Some? && entry2.Some? && Exchangeable(dir + [name], dir2 + [name2]) {
        root := SetSlot(SetSlot(root, dir, name, entry2), dir2, name2, entry);
        trace := trace + [root];
      } else {
        ok := false;
      }
    }
  }
}
