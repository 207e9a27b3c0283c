// Directory trees as values: what a transfer reads, builds and removes.
// A name is a sequence of characters, one per byte.
module FileTree {
  import opened Wrappers

  type Name = string
  type Path = seq<Name>

  datatype Node =
    | File(mode: nat, data: string)
    | Link(target: string)
    | Special
    | Dir(mode: nat, entries: map<Name, Node>)

  // ---------------------------------------------------------------- slots

  /** A directory path followed by a name is a slot. This is what the slot holds. */
  function Entry(root: Node, dir: Path, name: Name): Option<Node>
    decreases |dir|
  {
    if !root.Dir? then None
    else if dir == [] then if name in root.entries then Some(root.entries[name]) else None
    else if dir[0] in root.entries then Entry(root.entries[dir[0]], dir[1..], name)
    else None
  }

  predicate IsDir(root: Node, dir: Path)
    decreases |dir|
  {
    root.Dir? && (dir == [] || (dir[0] in root.entries && IsDir(root.entries[dir[0]], dir[1..])))
  }

  function Names(root: Node, dir: Path): set<Name>
    requires IsDir(root, dir)
    decreases |dir|
  {
    if dir == [] then root.entries.Keys else Names(root.entries[dir[0]], dir[1..])
  }

  lemma {:induction false} EntryInDir(root: Node, dir: Path, name: Name)
    ensures Entry(root, dir, name).Some? ==> IsDir(root, dir)
    decreases |dir|
  {
    if root.Dir? && dir != [] && dir[0] in root.entries {
      EntryInDir(root.entries[dir[0]], dir[1..], name);
    }
  }

  lemma {:induction false} NamesAreEntries(root: Node, dir: Path, name: Name)
    requires IsDir(root, dir)
    ensures name in Names(root, dir) <==> Entry(root, dir, name).Some?
    decreases |dir|
  {
    if dir != [] {
      NamesAreEntries(root.entries[dir[0]], dir[1..], name);
    }
  }

  /** The tree with one slot emptied (None) or holding the given node. */
  function SetSlot(root: Node, dir: Path, name: Name, slot: Option<Node>): Node
    decreases |dir|
  {
    if !root.Dir? then root
    else if dir == [] then
      Dir(root.mode, if slot.Some? then root.entries[name := slot.value] else root.entries - {name})
    else if dir[0] in root.entries then
      Dir(root.mode, root.entries[dir[0] := SetSlot(root.entries[dir[0]], dir[1..], name, slot)])
    else root
  }

  /** Neither path leads into the other. */
  predicate Apart(p: Path, q: Path) {
    !(p <= q) && !(q <= p)
  }

  predicate Exchangeable(p: Path, q: Path) {
    p == q || Apart(p, q)
  }

  lemma {:induction false} ReadBack(root: Node, dir: Path, name: Name, slot: Option<Node>)
    requires IsDir(root, dir)
    ensures IsDir(SetSlot(root, dir, name, slot), dir)
    ensures Entry(SetSlot(root, dir, name, slot), dir, name) == slot
    decreases |dir|
  {
    if dir != [] {
      ReadBack(root.entries[dir[0]], dir[1..], name, slot);
    }
  }

  lemma {:induction false} Overwrite(root: Node, dir: Path, name: Name, first: Option<Node>, second: Option<Node>)
    requires IsDir(root, dir)
    ensures SetSlot(SetSlot(root, dir, name, first), dir, name, second) == SetSlot(root, dir, name, second)
    decreases |dir|
  {
    if dir == [] {
      assert SetSlot(SetSlot(root, dir, name, first), dir, name, second).entries
          == SetSlot(root, dir, name, second).entries;
    } else {
      var child := root.entries[dir[0]];
      Overwrite(child, dir[1..], name, first, second);
      assert SetSlot(SetSlot(root, dir, name, first), dir, name, second).entries
          == SetSlot(root, dir, name, second).entries;
    }
  }

  lemma {:induction false} WriteBack(root: Node, dir: Path, name: Name)
    requires IsDir(root, dir)
    ensures SetSlot(root, dir, name, Entry(root, dir, name)) == root
    decreases |dir|
  {
    if dir == [] {
      assert SetSlot(root, dir, name, Entry(root, dir, name)).entries == root.entries;
    } else {
      WriteBack(root.entries[dir[0]], dir[1..], name);
      assert SetSlot(root, dir, name, Entry(root, dir, name)).entries == root.entries;
    }
  }

  /** Inside a slot that holds a directory: the directory is reachable and its slots are its entries. */
  lemma {:induction false} Descend(root: Node, dir: Path, name: Name)
    ensures IsDir(root, dir + [name]) <==> Entry(root, dir, name).Some? && Entry(root, dir, name).value.Dir?
    ensures IsDir(root, dir + [name]) ==> IsDir(root, dir)
    ensures IsDir(root, dir + [name]) ==> Names(root, dir + [name]) == Entry(root, dir, name).value.entries.Keys
    decreases |dir|
  {
    var path := dir + [name];
    if root.Dir? {
      if dir == [] {
        assert path[0] == name && path[1..] == [];
      } else {
        assert path[0] == dir[0] && path[1..] == dir[1..] + [name];
        if dir[0] in root.entries {
          Descend(root.entries[dir[0]], dir[1..], name);
        }
      }
    }
  }

  lemma {:induction false} EntryInside(root: Node, dir: Path, name: Name, child: Name)
    requires Entry(root, dir, name).Some? && Entry(root, dir, name).value.Dir?
    ensures var entries := Entry(root, dir, name).value.entries;
      Entry(root, dir + [name], child) == (if child in entries then Some(entries[child]) else None)
    decreases |dir|
  {
    var path := dir + [name];
    if dir == [] {
      assert path[0] == name && path[1..] == [];
    } else {
      assert path[0] == dir[0] && path[1..] == dir[1..] + [name];
      EntryInside(root.entries[dir[0]], dir[1..], name, child);
    }
  }

  /** Changing an entry of a directory is changing the slot that holds the directory. */
  lemma {:induction false} SetInside(root: Node, dir: Path, name: Name, mode: nat, entries: map<Name, Node>, child: Name, slot: Option<Node>)
    requires IsDir(root, dir)
    requires Entry(root, dir, name) == Some(Dir(mode, entries))
    ensures SetSlot(root, dir + [name], child, slot)
         == SetSlot(root, dir, name, Some(Dir(mode, if slot.Some? then entries[child := slot.value] else entries - {child})))
    decreases |dir|
  {
    var path := dir + [name];
    if dir == [] {
      assert path[0] == name && path[1..] == [];
    } else {
      assert path[0] == dir[0] && path[1..] == dir[1..] + [name];
      SetInside(root.entries[dir[0]], dir[1..], name, mode, entries, child, slot);
    }
  }

  lemma ApartTail(p: Path, q: Path)
    requires Apart(p, q) && p != [] && q != [] && p[0] == q[0]
    ensures Apart(p[1..], q[1..])
  {
    assert p == [p[0]] + p[1..] && q == [q[0]] + q[1..];
  }

  lemma ApartDeeper(p: Path, q: Path, a: Name, b: Name)
    requires Apart(p, q)
    ensures Apart(p + [a], q + [b]) && Apart(p + [a], q) && Apart(p, q + [b])
  {
    var i := FirstDifference(p, q);
    assert (p + [a])[i] == p[i] && (q + [b])[i] == q[i];
  }

  lemma FirstDifference(p: Path, q: Path) returns (i: nat)
    requires Apart(p, q)
    ensures i < |p| && i < |q| && p[i] != q[i]
  {
    if p[0] != q[0] {
      i := 0;
    } else {
      ApartTail(p, q);
      i := FirstDifference(p[1..], q[1..]);
      i := i + 1;
    }
  }

  /** A slot that is apart from the one written keeps what it held. */
  lemma {:induction false} Untouched(root: Node, dir: Path, name: Name, slot: Option<Node>, dir2: Path, name2: Name)
    requires Apart(dir + [name], dir2 + [name2])
    ensures Entry(SetSlot(root, dir, name, slot), dir2, name2) == Entry(root, dir2, name2)
    decreases |dir|
  {
    if root.Dir? && dir != [] && dir2 != [] && dir[0] in root.entries && dir[0] == dir2[0] {
      ApartTail(dir + [name], dir2 + [name2]);
      assert (dir + [name])[1..] == dir[1..] + [name];
      assert (dir2 + [name2])[1..] == dir2[1..] + [name2];
      Untouched(root.entries[dir[0]], dir[1..], name, slot, dir2[1..], name2);
    } else if dir == [] && dir2 == [] {
      assert [name] != [name2];
    } else if dir == [] {
      assert [name] <= dir2 + [name2] <==> (dir2 + [name2])[0] == name;
    } else if dir2 == [] {
      assert [name2] <= dir + [name] <==> (dir + [name])[0] == name2;
    }
  }

  /** A directory that is not inside the written slot stays a directory. */
  lemma {:induction false} DirKept(root: Node, dir: Path, name: Name, slot: Option<Node>, dir2: Path)
    requires !(dir + [name] <= dir2)
    ensures IsDir(SetSlot(root, dir, name, slot), dir2) <==> IsDir(root, dir2)
    decreases |dir|
  {
    if root.Dir? && dir2 != [] {
      if dir == [] {
        assert [name] <= dir2 <==> dir2[0] == name;
      } else if dir[0] in root.entries && dir[0] == dir2[0] {
        assert (dir + [name])[1..] == dir[1..] + [name];
        assert dir2 == [dir2[0]] + dir2[1..];
        DirKept(root.entries[dir[0]], dir[1..], name, slot, dir2[1..]);
      }
    }
  }

  /** What lies on the way to a directory is a directory. */
  lemma {:induction false} PrefixExists(root: Node, dir: Path, name: Name, path: Path)
    requires IsDir(root, path) && dir + [name] <= path
    ensures Entry(root, dir, name).Some? && Entry(root, dir, name).value.Dir?
    decreases |dir|
  {
    if dir == [] {
      assert path[0] == name;
    } else {
      assert path[0] == dir[0];
      assert dir + [name] == [dir[0]] + (dir[1..] + [name]);
      assert path == [path[0]] + path[1..];
      PrefixExists(root.entries[dir[0]], dir[1..], name, path[1..]);
    }
  }

  /** What is found below a slot depends only on what the slot holds. */
  lemma {:induction false} EntryVia(root: Node, dir: Path, name: Name, below: Path, name2: Name)
    requires dir + [name] <= below
    ensures var held := Entry(root, dir, name);
      Entry(root, below, name2) == if held.Some? then Entry(held.value, below[|dir| + 1..], name2) else None
    decreases |dir|
  {
    if dir == [] {
      assert below[0] == name;
    } else {
      assert below[0] == dir[0];
      assert dir + [name] == [dir[0]] + (dir[1..] + [name]);
      assert below == [below[0]] + below[1..];
      if root.Dir? && dir[0] in root.entries {
        EntryVia(root.entries[dir[0]], dir[1..], name, below[1..], name2);
        assert below[1..][|dir[1..]| + 1..] == below[|dir| + 1..];
      }
    }
  }

  /** An occupied slot and a free one: apart, unless the first leads to the second's directory. */
  lemma ApartOrAbove(root: Node, source: Path, sourceName: Name, dir: Path, name: Name)
    requires IsDir(root, source) && IsDir(root, dir)
    requires Entry(root, source, sourceName).Some? && Entry(root, dir, name).None?
    ensures Apart(source + [sourceName], dir + [name]) || source + [sourceName] <= dir
    ensures source + [sourceName] <= dir ==> Entry(root, source, sourceName).value.Dir?
  {
    if source + [sourceName] <= dir {
      PrefixExists(root, source, sourceName, dir);
    } else {
      if dir + [name] <= source {
        PrefixExists(root, dir, name, source);
      }
      EqualOrApart(source, sourceName, dir, name);
    }
  }

  lemma EqualOrApart(source: Path, sourceName: Name, dir: Path, name: Name)
    requires !(source + [sourceName] <= dir) && !(dir + [name] <= source)
    ensures source + [sourceName] == dir + [name] || Apart(source + [sourceName], dir + [name])
    ensures source + [sourceName] == dir + [name] ==> source == dir && sourceName == name
  {
    var s, d := source + [sourceName], dir + [name];
    assert s <= d && |s| < |d| ==> s <= dir;
    assert d <= s && |d| < |s| ==> d <= source;
    if s == d {
      assert source == s[..|s| - 1] && dir == d[..|d| - 1];
      assert sourceName == s[|s| - 1] && name == d[|d| - 1];
    }
  }

  // ------------------------------------------------ a slot inside a directory that is being read

  /** The name inside a directory through which a slot somewhere below it is reached. */
  function Step(above: Path, dir: Path, name: Name): Name
    requires above <= dir
  {
    (dir + [name])[|above|]
  }

  /** Filling a slot below a directory may add the name that leads there. */
  lemma {:induction false} NamesAbove(root: Node, above: Path, dir: Path, name: Name, held: Node)
    requires IsDir(root, dir) && above <= dir
    ensures var tree := SetSlot(root, dir, name, Some(held));
      IsDir(root, above) && IsDir(tree, above) && Names(tree, above) == Names(root, above) + {Step(above, dir, name)}
    decreases |above|
  {
    if above == [] {
      if dir != [] {
        assert (dir + [name])[0] == dir[0];
      }
    } else {
      assert dir == [dir[0]] + dir[1..] && above == [dir[0]] + above[1..];
      assert dir[1..] + [name] == (dir + [name])[1..];
      NamesAbove(root.entries[dir[0]], above[1..], dir[1..], name, held);
    }
  }

  /** The source directory while a copy of it is being made below it: only the name leading to the copy is not as it was. */
  lemma AboveReady(root: Node, dir: Path, name: Name, held: Node, source: Path, sourceName: Name, child: Name)
    requires IsDir(root, dir) && source + [sourceName] <= dir
    requires Entry(root, source, sourceName).Some? && Entry(root, source, sourceName).value.Dir?
    ensures var tree := SetSlot(root, dir, name, Some(held));
      var entries, step := Entry(root, source, sourceName).value.entries, Step(source + [sourceName], dir, name);
      && IsDir(tree, source + [sourceName]) && Names(tree, source + [sourceName]) == entries.Keys + {step}
      && (child == step ==> source + [sourceName] + [child] <= dir + [name])
      && (child != step ==>
            && Apart(source + [sourceName] + [child], dir + [name] + [child])
            && Entry(tree, source + [sourceName], child) == (if child in entries then Some(entries[child]) else None))
  {
    var above := source + [sourceName];
    var step := Step(above, dir, name);
    NamesAbove(root, above, dir, name, held);
    Descend(root, source, sourceName);
    EntryInside(root, source, sourceName, child);
    var way := dir + [name];
    if child == step {
      assert way[..|above| + 1] == above + [child];
    } else {
      assert (above + [child])[|above|] == child && way[|above|] == step && (way + [child])[|above|] == step;
      Untouched(root, dir, name, Some(held), above, child);
    }
  }

  // ------------------------------------------------ one slot changed, nothing else

  /** `after` is `before` with at most the slot (dir, name) changed. */
  predicate SameBut(before: Node, after: Node, dir: Path, name: Name) {
    IsDir(before, dir) && after == SetSlot(before, dir, name, Entry(after, dir, name))
  }

  lemma SameButSet(before: Node, dir: Path, name: Name, slot: Option<Node>)
    requires IsDir(before, dir)
    ensures SameBut(before, SetSlot(before, dir, name, slot), dir, name)
    ensures SameBut(before, before, dir, name)
  {
    ReadBack(before, dir, name, slot);
    WriteBack(before, dir, name);
  }

  lemma SameButThen(first: Node, second: Node, third: Node, dir: Path, name: Name)
    requires SameBut(first, second, dir, name) && SameBut(second, third, dir, name)
    ensures SameBut(first, third, dir, name)
  {
    Overwrite(first, dir, name, Entry(second, dir, name), Entry(third, dir, name));
  }

  lemma SameButDir(before: Node, after: Node, dir: Path, name: Name)
    requires SameBut(before, after, dir, name)
    ensures IsDir(after, dir)
  {
    ReadBack(before, dir, name, Entry(after, dir, name));
  }

  /** A change inside the directory held by a slot is a change of that slot, which keeps holding a directory. */
  lemma SameButInside(before: Node, after: Node, dir: Path, name: Name, child: Name)
    requires IsDir(before, dir) && Entry(before, dir, name).Some? && Entry(before, dir, name).value.Dir?
    requires SameBut(before, after, dir + [name], child)
    ensures SameBut(before, after, dir, name)
    ensures Entry(after, dir, name).Some? && Entry(after, dir, name).value.Dir?
  {
    var held := Entry(before, dir, name).value;
    var slot := Entry(after, dir + [name], child);
    SetInside(before, dir, name, held.mode, held.entries, child, slot);
    var now := Dir(held.mode, if slot.Some? then held.entries[child := slot.value] else held.entries - {child});
    assert after == SetSlot(before, dir, name, Some(now));
    ReadBack(before, dir, name, Some(now));
  }

  /** A tree whose slot holds the directory `held`, seen from inside that directory. */
  lemma InsideReady(root: Node, dir: Path, name: Name, held: Node, child: Name)
    requires IsDir(root, dir) && held.Dir?
    ensures var tree := SetSlot(root, dir, name, Some(held));
      && SameBut(root, tree, dir, name) && IsDir(tree, dir) && IsDir(tree, dir + [name])
      && Entry(tree, dir, name) == Some(held)
      && Names(tree, dir + [name]) == held.entries.Keys
      && Entry(tree, dir + [name], child) == (if child in held.entries then Some(held.entries[child]) else None)
  {
    var tree := SetSlot(root, dir, name, Some(held));
    SameButSet(root, dir, name, Some(held));
    ReadBack(root, dir, name, Some(held));
    Descend(tree, dir, name);
    EntryInside(tree, dir, name, child);
  }

  /** Setting an entry inside that directory, seen from outside. */
  lemma InsideSet(root: Node, dir: Path, name: Name, held: Node, child: Name, slot: Option<Node>)
    requires IsDir(root, dir) && held.Dir?
    ensures SetSlot(SetSlot(root, dir, name, Some(held)), dir + [name], child, slot)
         == SetSlot(root, dir, name,
              Some(Dir(held.mode, if slot.Some? then held.entries[child := slot.value] else held.entries - {child})))
  {
    var tree := SetSlot(root, dir, name, Some(held));
    var now := Dir(held.mode, if slot.Some? then held.entries[child := slot.value] else held.entries - {child});
    ReadBack(root, dir, name, Some(held));
    SetInside(tree, dir, name, held.mode, held.entries, child, slot);
    Overwrite(root, dir, name, Some(held), Some(now));
  }

  /** A directory apart from the written slot still shows the same entries. */
  lemma SourceReady(root: Node, dir: Path, name: Name, slot: Option<Node>, source: Path, sourceName: Name, child: Name)
    requires Apart(source + [sourceName], dir + [name])
    requires Entry(root, source, sourceName).Some? && Entry(root, source, sourceName).value.Dir?
    ensures var tree := SetSlot(root, dir, name, slot);
      var entries := Entry(root, source, sourceName).value.entries;
      && Entry(tree, source, sourceName) == Entry(root, source, sourceName)
      && IsDir(tree, source + [sourceName]) && Names(tree, source + [sourceName]) == entries.Keys
      && Entry(tree, source + [sourceName], child) == (if child in entries then Some(entries[child]) else None)
      && Apart(source + [sourceName] + [child], dir + [name] + [child])
  {
    var tree := SetSlot(root, dir, name, slot);
    Untouched(root, dir, name, slot, source, sourceName);
    Descend(tree, source, sourceName);
    EntryInside(tree, source, sourceName, child);
    ApartDeeper(source + [sourceName], dir + [name], child, child);
  }

  /** Every slot apart from those listed holds what it held before. */
  ghost predicate OthersKept(before: Node, after: Node, slots: set<Path>) {
    forall dir: Path, name: Name {:trigger Entry(after, dir, name)} ::
      (forall slot <- slots :: Apart(slot, dir + [name])) ==> Entry(after, dir, name) == Entry(before, dir, name)
  }

  lemma SameButKeeps(before: Node, after: Node, dir: Path, name: Name, slots: set<Path>)
    requires SameBut(before, after, dir, name) && dir + [name] in slots
    ensures OthersKept(before, after, slots)
  {
    forall dir2: Path, name2: Name | forall slot <- slots :: Apart(slot, dir2 + [name2])
      ensures Entry(after, dir2, name2) == Entry(before, dir2, name2)
    {
      Untouched(before, dir, name, Entry(after, dir, name), dir2, name2);
    }
  }

  // ------------------------------------------------ what a traversal is charged

  datatype Usage = Usage(entries: nat, bytes: nat) {
    function Plus(other: Usage): Usage {
      Usage(entries + other.entries, bytes + other.bytes)
    }

    predicate Within(limit: Usage) {
      entries <= limit.entries && bytes <= limit.bytes
    }
  }

  ghost function Total(parts: map<Name, Usage>): Usage {
    if parts == map[] then Usage(0, 0) else
      var name :| name in parts;
      parts[name].Plus(Total(parts - {name}))
  }

  lemma {:induction false} TotalSplit(parts: map<Name, Usage>, name: Name)
    requires name in parts
    ensures Total(parts) == parts[name].Plus(Total(parts - {name}))
    decreases |parts|
  {
    var picked :| picked in parts && Total(parts) == parts[picked].Plus(Total(parts - {picked}));
    if picked != name {
      var both := parts - {picked} - {name};
      assert both == parts - {name} - {picked};
      TotalSplit(parts - {picked}, name);
      TotalSplit(parts - {name}, picked);
      assert Total(parts - {picked}) == parts[name].Plus(Total(both));
      assert Total(parts - {name}) == parts[picked].Plus(Total(both));
      var rest := Total(both);
      assert parts[picked].Plus(parts[name].Plus(rest)) == parts[name].Plus(parts[picked].Plus(rest));
      assert Total(parts) == parts[picked].Plus(parts[name].Plus(rest));
    }
  }

  function SizeOf(node: Node): nat {
    match node
    case File(_, data) => |data|
    case Link(target) => |target|
    case _ => 0
  }

  /** Entries and bytes of a whole tree. */
  ghost function UsageOf(node: Node): Usage {
    match node
    case Dir(_, entries) => Usage(1, 0).Plus(Total(map name | name in entries :: UsageOf(entries[name])))
    case _ => Usage(1, SizeOf(node))
  }

  ghost function UsageIn(entries: map<Name, Node>): Usage {
    Total(map name | name in entries :: UsageOf(entries[name]))
  }

  lemma UsageNone()
    ensures UsageIn(map[]) == Usage(0, 0)
  {
  }

  lemma UsageEmptyDir(mode: nat)
    ensures UsageOf(Dir(mode, map[])) == Usage(1, 0)
  {
    UsageDir(mode, map[]);
  }

  lemma UsageDir(mode: nat, entries: map<Name, Node>)
    ensures UsageOf(Dir(mode, entries)) == Usage(1, 0).Plus(UsageIn(entries))
  {
    assert (map name | name in entries :: UsageOf(entries[name]))
        == (map name | name in Dir(mode, entries).entries :: UsageOf(Dir(mode, entries).entries[name]));
  }

  lemma UsageSplit(entries: map<Name, Node>, name: Name)
    requires name in entries
    ensures UsageIn(entries) == UsageOf(entries[name]).Plus(UsageIn(entries - {name}))
  {
    hide Total, UsageOf;
    var parts := map n | n in entries :: UsageOf(entries[n]);
    TotalSplit(parts, name);
    var rest := entries - {name};
    assert parts - {name} == map n | n in rest :: UsageOf(rest[n]);
  }

  // ------------------------------------------------ what a traversal accepts

  const MAX_RECURSION_DEPTH: nat := 128
  const MAX_DIRECTORY_ENTRIES: nat := 65_536
  const MAX_TRAVERSAL_ENTRIES: nat := 131_072
  const MAX_TRAVERSAL_BYTES: nat := 0x4_0000_0000_0000
  const LINK_BUFFER: nat := 4096
  // a directory under construction is private to its owner
  const PRIVATE_MODE: nat := 0x1c0

  const FULL_BUDGET := Usage(MAX_TRAVERSAL_ENTRIES, MAX_TRAVERSAL_BYTES)

  /** No special node, no oversized directory, not too deep. */
  predicate Removable(node: Node, depth: nat) {
    depth <= MAX_RECURSION_DEPTH &&
    match node
    case File(_, _) => true
    case Link(_) => true
    case Special => false
    case Dir(_, entries) =>
      |entries| <= MAX_DIRECTORY_ENTRIES && forall name <- entries :: Removable(entries[name], depth + 1)
  }

  predicate AllRemovable(entries: map<Name, Node>, depth: nat) {
    forall name <- entries :: Removable(entries[name], depth)
  }

  lemma RemovableSplit(entries: map<Name, Node>, name: Name, depth: nat)
    requires name in entries
    ensures AllRemovable(entries, depth) <==>
      Removable(entries[name], depth) && AllRemovable(entries - {name}, depth)
  {
    var rest := entries - {name};
    assert forall n <- entries :: n == name || (n in rest && rest[n] == entries[n]);
  }

  /** As `Removable`, and every link target is shorter than the buffer it is read into. */
  predicate Copyable(node: Node, depth: nat) {
    depth <= MAX_RECURSION_DEPTH &&
    match node
    case File(_, _) => true
    case Link(target) => |target| < LINK_BUFFER
    case Special => false
    case Dir(_, entries) =>
      |entries| <= MAX_DIRECTORY_ENTRIES && forall name <- entries :: Copyable(entries[name], depth + 1)
  }

  predicate AllCopyable(entries: map<Name, Node>, depth: nat) {
    forall name <- entries :: Copyable(entries[name], depth)
  }

  lemma CopyableDir(mode: nat, entries: map<Name, Node>, depth: nat)
    ensures Copyable(Dir(mode, entries), depth) <==>
      depth <= MAX_RECURSION_DEPTH && |entries| <= MAX_DIRECTORY_ENTRIES && AllCopyable(entries, depth + 1)
  {
  }

  // ------------------------------------------------ the same, one node at a time

  /** The node at a path within a tree. */
  function At(node: Node, path: Path): Option<Node>
    decreases |path|
  {
    if path == [] then Some(node)
    else if node.Dir? && path[0] in node.entries then At(node.entries[path[0]], path[1..])
    else None
  }

  lemma AtChild(node: Node, name: Name, path: Path)
    requires node.Dir? && name in node.entries
    ensures At(node, [name] + path) == At(node.entries[name], path)
  {
    assert ([name] + path)[1..] == path;
  }

  /** What is checked of a node at its depth: no socket or device, not too deep, no oversized directory, and when copying no
      link too long for its buffer. */
  predicate NodeAccepted(node: Node, depth: nat, copying: bool) {
    && depth <= MAX_RECURSION_DEPTH && !node.Special? && (node.Dir? ==> |node.entries| <= MAX_DIRECTORY_ENTRIES)
    && (copying && node.Link? ==> |node.target| < LINK_BUFFER)
  }

  ghost predicate EveryNode(node: Node, depth: nat, copying: bool) {
    forall path: Path | At(node, path).Some? :: NodeAccepted(At(node, path).value, depth + |path|, copying)
  }

  lemma EveryNodeDir(node: Node, depth: nat, copying: bool)
    ensures EveryNode(node, depth, copying) <==>
      (NodeAccepted(node, depth, copying)
       && (node.Dir? ==> forall name <- node.entries :: EveryNode(node.entries[name], depth + 1, copying)))
  {
    hide NodeAccepted;
    if EveryNode(node, depth, copying) {
      assert At(node, []) == Some(node);
      if node.Dir? {
        forall name, path: Path | name in node.entries && At(node.entries[name], path).Some?
          ensures NodeAccepted(At(node.entries[name], path).value, depth + 1 + |path|, copying)
        {
          AtChild(node, name, path);
        }
      }
    } else {
      var path: Path :| At(node, path).Some? && !NodeAccepted(At(node, path).value, depth + |path|, copying);
      assert path != [] ==> !NodeAccepted(At(node.entries[path[0]], path[1..]).value, depth + 1 + |path[1..]|, copying);
    }
  }

  /** A tree can be removed, or copied, exactly when each of its nodes is acceptable at its depth. */
  lemma {:induction false} AcceptedExact(node: Node, depth: nat)
    ensures Removable(node, depth) <==> EveryNode(node, depth, false)
    ensures Copyable(node, depth) <==> EveryNode(node, depth, true)
  {
    hide EveryNode, At;
    EveryNodeDir(node, depth, false);
    EveryNodeDir(node, depth, true);
    if node.Dir? {
      forall name | name in node.entries
        ensures Removable(node.entries[name], depth + 1) <==> EveryNode(node.entries[name], depth + 1, false)
        ensures Copyable(node.entries[name], depth + 1) <==> EveryNode(node.entries[name], depth + 1, true)
      {
        AcceptedExact(node.entries[name], depth + 1);
      }
    }
  }

  /** Two nodes alike but for what is below them and for mode bits beyond the lowest nine. */
  predicate NodeCopied(node: Node, copy: Node) {
    match node
    case File(mode, data) => copy == File(mode % 0x200, data)
    case Link(target) => copy == Link(target)
    case Special => copy == Special
    case Dir(mode, entries) => copy.Dir? && copy.mode == mode % 0x200 && copy.entries.Keys == entries.Keys
  }

  /** A copy has the same nodes at the same paths, and no others. */
  lemma {:induction false} MaskedExact(node: Node, path: Path)
    ensures At(Masked(node), path).Some? <==> At(node, path).Some?
    ensures At(node, path).Some? ==> NodeCopied(At(node, path).value, At(Masked(node), path).value)
    decreases |path|
  {
    if path == [] {
      assert node.Dir? ==> Masked(node).entries.Keys == node.entries.Keys;
    } else if node.Dir? && path[0] in node.entries {
      MaskedExact(node.entries[path[0]], path[1..]);
    }
  }

  // ------------------------------------------------ why a traversal fails

  /** No socket, device or pipe. */
  predicate Supported(node: Node) {
    !node.Special? && (node.Dir? ==> forall name <- node.entries :: Supported(node.entries[name]))
  }

  predicate ShortLinks(node: Node) {
    (node.Link? ==> |node.target| < LINK_BUFFER) && (node.Dir? ==> forall name <- node.entries :: ShortLinks(node.entries[name]))
  }

  /** Not too deep, and no oversized directory. */
  predicate InBounds(node: Node, depth: nat) {
    && depth <= MAX_RECURSION_DEPTH
    && (node.Dir? ==>
          |node.entries| <= MAX_DIRECTORY_ENTRIES && forall name <- node.entries :: InBounds(node.entries[name], depth + 1))
  }

  /** These are all the reasons there are. */
  lemma {:induction false} ReasonsExact(node: Node, depth: nat)
    ensures Removable(node, depth) <==> Supported(node) && InBounds(node, depth)
    ensures Copyable(node, depth) <==> Supported(node) && InBounds(node, depth) && ShortLinks(node)
  {
    if node.Dir? {
      forall name | name in node.entries
        ensures Removable(node.entries[name], depth + 1) <==> Supported(node.entries[name]) && InBounds(node.entries[name], depth + 1)
        ensures Copyable(node.entries[name], depth + 1)
          <==> Supported(node.entries[name]) && InBounds(node.entries[name], depth + 1) && ShortLinks(node.entries[name])
      {
        ReasonsExact(node.entries[name], depth + 1);
      }
    }
  }

  /** The tree a copy builds: the same names, bytes and links, permission bits only. */
  function Masked(node: Node): Node {
    match node
    case File(mode, data) => File(mode % 0x200, data)
    case Dir(mode, entries) => Dir(mode % 0x200, map name | name in entries :: Masked(entries[name]))
    case _ => node
  }

  function MaskedIn(entries: map<Name, Node>): map<Name, Node> {
    map name | name in entries :: Masked(entries[name])
  }

  lemma {:induction false} MaskedUsage(node: Node)
    ensures UsageOf(Masked(node)) == UsageOf(node)
  {
    if node.Dir? {
      forall name | name in node.entries ensures UsageOf(Masked(node.entries[name])) == UsageOf(node.entries[name]) {
        MaskedUsage(node.entries[name]);
      }
      var masked := MaskedIn(node.entries);
      assert (map n | n in masked :: UsageOf(masked[n])) == (map n | n in node.entries :: UsageOf(node.entries[n]));
    }
  }

  lemma {:induction false} CopyableRemovable(node: Node, depth: nat)
    requires Copyable(node, depth)
    ensures Removable(node, depth) && Removable(Masked(node), depth)
  {
    if node.Dir? {
      forall name | name in node.entries
        ensures Removable(node.entries[name], depth + 1) && Removable(Masked(node.entries[name]), depth + 1)
      {
        CopyableRemovable(node.entries[name], depth + 1);
      }
      assert MaskedIn(node.entries).Keys == node.entries.Keys;
    }
  }
}
