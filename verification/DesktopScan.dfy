// Scanning an application root for desktop entries under a budget.
module DesktopScan {
  import opened Wrappers
  import opened NameOrder

  const MAX_DIRECTORY_DEPTH: nat := 16

  /** What a path turns out to be: a folder's listing is missing when it cannot be read. */
  datatype Item = Broken | Link | Folder(listing: Option<Listing>) | File | Special

  type Listing = map<string, Item>

  datatype Complaint = CannotRead(path: Path) | CannotExamine(path: Path) | LinkNotFollowed(path: Path)

  datatype Limits = Limits(entries: nat, candidates: nat)

  datatype Progress = Progress(entries: nat, saturated: bool, files: seq<Path>, complaints: seq<Complaint>)

  /** The extension is what follows the last dot, unless the name starts with its only dot. */
  predicate IsDesktopFile(name: string) {
    |name| > 8 && name[|name| - 8..] == ".desktop"
  }

  predicate Full(limits: Limits, p: Progress) {
    p.entries >= limits.entries || |p.files| >= limits.candidates
  }

  function Saturated(p: Progress): Progress {
    p.(saturated := true)
  }

  function Minus(a: nat, b: nat): nat {
    if a > b then a - b else 0
  }

  // ---- What a scan finds

  /** Scans a folder: its first names in order, as many as the entry budget has left, each in turn. */
  ghost function Scan(listing: Option<Listing>, path: Path, depth: nat, limits: Limits, p: Progress): Progress
    decreases Minus(MAX_DIRECTORY_DEPTH + 1, depth), 1, 0
  {
    if depth > MAX_DIRECTORY_DEPTH || Full(limits, p) then Saturated(p)
    else if listing.None? then p.(complaints := p.complaints + [CannotRead(path)])
    else
      var room := limits.entries - p.entries;
      var chosen := First(listing.value.Keys, room);
      ScanNames(listing.value, chosen, path, depth, limits, if |listing.value| > room then Saturated(p) else p)
  }

  ghost function ScanNames(listing: Listing, names: seq<string>, path: Path, depth: nat, limits: Limits, p: Progress): Progress
    requires depth <= MAX_DIRECTORY_DEPTH
    requires forall name <- names :: name in listing
    decreases Minus(MAX_DIRECTORY_DEPTH + 1, depth), 0, |names|
  {
    if names == [] then p
    else if Full(limits, p) then Saturated(p)
    else
      var next := Visit(listing[names[0]], path + [names[0]], depth, limits, p.(entries := p.entries + 1));
      ScanNames(listing, names[1..], path, depth, limits, next)
  }

  ghost function Visit(item: Item, path: Path, depth: nat, limits: Limits, p: Progress): Progress
    requires depth <= MAX_DIRECTORY_DEPTH && path != []
    decreases Minus(MAX_DIRECTORY_DEPTH + 1, depth + 1), 2, 0
  {
    match item
    case Broken => p.(complaints := p.complaints + [CannotExamine(path)])
    case Link => p.(complaints := p.complaints + [LinkNotFollowed(path)])
    case Folder(listing) => Scan(listing, path, depth + 1, limits, p)
    case File => if IsDesktopFile(path[|path| - 1]) then p.(files := p.files + [path]) else p
    case Special => p
  }

  lemma ScanUnfolds(listing: Option<Listing>, path: Path, depth: nat, limits: Limits, p: Progress)
    ensures Scan(listing, path, depth, limits, p) ==
      if depth > MAX_DIRECTORY_DEPTH || Full(limits, p) then Saturated(p)
      else if listing.None? then p.(complaints := p.complaints + [CannotRead(path)])
      else
        var room := limits.entries - p.entries;
        ScanNames(listing.value, First(listing.value.Keys, room), path, depth, limits, if |listing.value| > room then Saturated(p) else p)
  {
    hide First, ScanNames;
  }

  lemma ScanNamesUnfolds(listing: Listing, names: seq<string>, path: Path, depth: nat, limits: Limits, p: Progress)
    requires depth <= MAX_DIRECTORY_DEPTH
    requires forall name <- names :: name in listing
    ensures ScanNames(listing, names, path, depth, limits, p) ==
      if names == [] then p
      else if Full(limits, p) then Saturated(p)
      else
        ScanNames(listing, names[1..], path, depth, limits, Visit(listing[names[0]], path + [names[0]], depth, limits, p.(entries := p.entries + 1)))
  {
    hide Visit;
  }

  // ---- The scan

  class RootScan {
    var entries: nat
    var candidates: nat
    const limits: Limits
    var saturated: bool
    var files: seq<Path>
    var complaints: seq<Complaint>

    constructor (limits: Limits)
      ensures Counted() && State() == Progress(0, false, [], []) && this.limits == limits
    {
      this.limits := limits;
      entries, candidates, saturated, files, complaints := 0, 0, false, [], [];
    }

    ghost predicate Counted()
      reads this
    {
      candidates == |files|
    }

    ghost function State(): Progress
      reads this
    {
      Progress(entries, saturated, files, complaints)
    }

    method Spent() returns (full: bool)
      requires Counted()
      ensures full <==> Full(limits, State())
    {
      return entries >= limits.entries || candidates >= limits.candidates;
    }

    method CollectDesktopFiles(listing: Option<Listing>, directory: Path, depth: nat)
      requires Counted()
      modifies this
      ensures Counted() && State() == Scan(listing, directory, depth, limits, old(State()))
      decreases Minus(MAX_DIRECTORY_DEPTH + 1, depth), 1
    {
      hide First, Scan, ScanNames, Visit;
      ScanUnfolds(listing, directory, depth, limits, State());
      var spent := Spent();
      if depth > MAX_DIRECTORY_DEPTH || spent {
        saturated := true;
        return;
      }
      if listing.None? {
        complaints := complaints + [CannotRead(directory)];
        return;
      }
      var room := limits.entries - entries;
      var names := Enumerate(listing.value);
      var selected, exceeded := FirstNames(names, room);
      saturated := saturated || exceeded;
      ghost var start := State();
      assert State() == if |listing.value| > room then Saturated(old(State())) else old(State());
      for i := 0 to |selected|
        invariant Counted()
        invariant ScanNames(listing.value, selected, directory, depth, limits, start)
               == ScanNames(listing.value, selected[i..], directory, depth, limits, State())
      {
        ScanNamesUnfolds(listing.value, selected[i..], directory, depth, limits, State());
        assert selected[i..][1..] == selected[i + 1..];
        spent := Spent();
        if spent {
          saturated := true;
          return;
        }
        entries := entries + 1;
        Examine(listing.value[selected[i]], directory + [selected[i]], depth);
      }
      ScanNamesUnfolds(listing.value, selected[|selected|..], directory, depth, limits, State());
    }

    /** One path: folders are entered, links are not. */
    method Examine(item: Item, path: Path, depth: nat)
      requires Counted() && depth <= MAX_DIRECTORY_DEPTH && path != []
      modifies this
      ensures Counted() && State() == Visit(item, path, depth, limits, old(State()))
      decreases Minus(MAX_DIRECTORY_DEPTH + 1, depth + 1), 2
    {
      match item
      case Broken =>
        complaints := complaints + [CannotExamine(path)];
      case Link =>
        complaints := complaints + [LinkNotFollowed(path)];
      case Folder(listing) =>
        CollectDesktopFiles(listing, path, depth + 1);
      case File =>
        if IsDesktopFile(path[|path| - 1]) {
          candidates := candidates + 1;
          files := files + [path];
        }
      case Special =>
    }
  }

  /** The names of a directory in whatever order it hands them out. */
  method Enumerate(listing: Listing) returns (names: seq<string>)
    ensures Distinct(names) && Members(names) == listing.Keys
  {
    names := [];
    var left := listing.Keys;
    while left != {}
      invariant left <= listing.Keys && Distinct(names) && Members(names) == listing.Keys - left
      decreases |left|
    {
      var name :| name in left;
      assert name !in Members(names);
      assert Members(names + [name]) == Members(names) + {name};
      names := names + [name];
      left := left - {name};
    }
  }

  // ---- The candidate quota cuts the scan off and changes nothing before that

  /** `s` is what is left of `r` under a quota of `q` files. */
  ghost predicate CutTo(s: Progress, r: Progress, q: nat) {
    if |r.files| < q then s == r else |s.files| == q && s.files == r.files[..q]
  }

  ghost predicate Extends(r: Progress, p: Progress) {
    p.files <= r.files && p.complaints <= r.complaints && p.entries <= r.entries && (p.saturated ==> r.saturated)
  }

  lemma {:induction false} ScanExtends(listing: Option<Listing>, path: Path, depth: nat, limits: Limits, p: Progress)
    ensures Extends(Scan(listing, path, depth, limits, p), p)
    decreases Minus(MAX_DIRECTORY_DEPTH + 1, depth), 1, 0
  {
    hide First;
    if !(depth > MAX_DIRECTORY_DEPTH || Full(limits, p) || listing.None?) {
      var room := limits.entries - p.entries;
      ScanNamesExtends(listing.value, First(listing.value.Keys, room), path, depth, limits, if |listing.value| > room then Saturated(p) else p);
    }
  }

  lemma {:induction false} ScanNamesExtends(listing: Listing, names: seq<string>, path: Path, depth: nat, limits: Limits, p: Progress)
    requires depth <= MAX_DIRECTORY_DEPTH
    requires forall name <- names :: name in listing
    ensures Extends(ScanNames(listing, names, path, depth, limits, p), p)
    decreases Minus(MAX_DIRECTORY_DEPTH + 1, depth), 0, |names|
  {
    if names != [] && !Full(limits, p) {
      var start := p.(entries := p.entries + 1);
      VisitExtends(listing[names[0]], path + [names[0]], depth, limits, start);
      ScanNamesExtends(listing, names[1..], path, depth, limits, Visit(listing[names[0]], path + [names[0]], depth, limits, start));
    }
  }

  lemma {:induction false} VisitExtends(item: Item, path: Path, depth: nat, limits: Limits, p: Progress)
    requires depth <= MAX_DIRECTORY_DEPTH && path != []
    ensures Extends(Visit(item, path, depth, limits, p), p)
    decreases Minus(MAX_DIRECTORY_DEPTH + 1, depth + 1), 2, 0
  {
    if item.Folder? {
      ScanExtends(item.listing, path, depth + 1, limits, p);
    }
  }

  lemma {:induction false} ScanCut(listing: Option<Listing>, path: Path, depth: nat, limits: Limits, q: nat, s: Progress, r: Progress)
    requires q <= limits.candidates && CutTo(s, r, q)
    ensures CutTo(Scan(listing, path, depth, limits.(candidates := q), s), Scan(listing, path, depth, limits, r), q)
    decreases Minus(MAX_DIRECTORY_DEPTH + 1, depth), 1, 0
  {
    hide First;
    if |r.files| >= q {
      ScanExtends(listing, path, depth, limits, r);
    } else if !(depth > MAX_DIRECTORY_DEPTH || Full(limits, r) || listing.None?) {
      var room := limits.entries - r.entries;
      var start := if |listing.value| > room then Saturated(r) else r;
      ScanNamesCut(listing.value, First(listing.value.Keys, room), path, depth, limits, q, start, start);
    }
  }

  lemma {:induction false} ScanNamesCut(listing: Listing, names: seq<string>, path: Path, depth: nat, limits: Limits, q: nat, s: Progress, r: Progress)
    requires depth <= MAX_DIRECTORY_DEPTH
    requires forall name <- names :: name in listing
    requires q <= limits.candidates && CutTo(s, r, q)
    ensures CutTo(ScanNames(listing, names, path, depth, limits.(candidates := q), s), ScanNames(listing, names, path, depth, limits, r), q)
    decreases Minus(MAX_DIRECTORY_DEPTH + 1, depth), 0, |names|
  {
    if |r.files| >= q {
      ScanNamesExtends(listing, names, path, depth, limits, r);
    } else if names != [] && !Full(limits, r) {
      var start := r.(entries := r.entries + 1);
      var item, child := listing[names[0]], path + [names[0]];
      VisitCut(item, child, depth, limits, q, start, start);
      ScanNamesCut(listing, names[1..], path, depth, limits, q,
        Visit(item, child, depth, limits.(candidates := q), start), Visit(item, child, depth, limits, start));
    }
  }

  lemma {:induction false} VisitCut(item: Item, path: Path, depth: nat, limits: Limits, q: nat, s: Progress, r: Progress)
    requires depth <= MAX_DIRECTORY_DEPTH && path != []
    requires q <= limits.candidates && CutTo(s, r, q) && |r.files| < q
    ensures CutTo(Visit(item, path, depth, limits.(candidates := q), s), Visit(item, path, depth, limits, r), q)
    decreases Minus(MAX_DIRECTORY_DEPTH + 1, depth + 1), 2, 0
  {
    if item.Folder? {
      ScanCut(item.listing, path, depth + 1, limits, q, s, r);
    }
  }

  // ---- What there is to find

  /** What a path leads to, through folders that can be read. */
  ghost function Met(item: Item, way: Path): Option<Item>
    decreases |way|
  {
    if way == [] then Some(item)
    else if item.Folder? && item.listing.Some? && way[0] in item.listing.value then Met(item.listing.value[way[0]], way[1..])
    else None
  }

  datatype Event = Listed(path: Path) | Complained(complaint: Complaint)

  ghost predicate EndsInDesktop(name: string) {
    exists stem :: stem != "" && name == stem + ".desktop"
  }

  /** What meeting an item gives rise to: desktop files are found, links not followed, and the unreadable complained of. */
  ghost predicate GivesRise(item: Item, path: Path, event: Event) {
    match item
    case Broken => event == Complained(CannotExamine(path))
    case Link => event == Complained(LinkNotFollowed(path))
    case Folder(listing) => listing.None? && event == Complained(CannotRead(path))
    case File => path != [] && EndsInDesktop(path[|path| - 1]) && event == Listed(path)
    case Special => false
  }

  /** The event is due: what gives rise to it lies at most `room` levels down, a folder that is to be read less than that. */
  ghost predicate Due(item: Item, path: Path, way: Path, room: nat, event: Event) {
    |way| <= room
    && match Met(item, way)
       case None => false
       case Some(met) => (met.Folder? ==> |way| < room) && GivesRise(met, path + way, event)
  }

  /** Levels that a scan at a depth still goes down. */
  function Room(depth: nat): nat {
    Minus(MAX_DIRECTORY_DEPTH + 1, depth)
  }

  ghost predicate Emits(r: Progress, p: Progress, event: Event)
    requires Extends(r, p)
  {
    match event
    case Listed(path) => path in r.files[|p.files|..]
    case Complained(complaint) => complaint in r.complaints[|p.complaints|..]
  }

  lemma EmitsJoined(p: Progress, next: Progress, r: Progress, event: Event)
    requires Extends(next, p) && Extends(r, next)
    ensures Extends(r, p) && (Emits(r, p, event) <==> Emits(next, p, event) || Emits(r, next, event))
  {
    assert r.files[|p.files|..] == next.files[|p.files|..] + r.files[|next.files|..];
    assert r.complaints[|p.complaints|..] == next.complaints[|p.complaints|..] + r.complaints[|next.complaints|..];
  }

  lemma DesktopFileExact(name: string)
    ensures IsDesktopFile(name) <==> EndsInDesktop(name)
  {
    if IsDesktopFile(name) {
      assert name == name[..|name| - 8] + ".desktop";
    }
  }

  /** One level down. */
  lemma DueBelow(listing: Listing, path: Path, name: string, way: Path, room: nat, event: Event)
    requires name in listing && room > 0
    ensures Due(Folder(Some(listing)), path, [name] + way, room, event) <==> Due(listing[name], path + [name], way, room - 1, event)
  {
    hide GivesRise;
    assert ([name] + way)[1..] == way;
    assert path + ([name] + way) == path + [name] + way;
  }

  lemma NothingEmitted(p: Progress, r: Progress, event: Event)
    requires r.files == p.files && r.complaints == p.complaints && r.entries >= p.entries && (p.saturated ==> r.saturated)
    ensures Extends(r, p) && !Emits(r, p, event)
  {
  }

  // ---- A scan finds nothing else

  lemma {:induction false} ScanSound(listing: Option<Listing>, path: Path, depth: nat, limits: Limits, p: Progress, event: Event)
    returns (way: Path)
    requires Extends(Scan(listing, path, depth, limits, p), p) && Emits(Scan(listing, path, depth, limits, p), p, event)
    ensures Due(Folder(listing), path, way, Room(depth), event)
    decreases Minus(MAX_DIRECTORY_DEPTH + 1, depth), 1, 0
  {
    hide First, ScanNames, Due;
    ScanUnfolds(listing, path, depth, limits, p);
    if depth > MAX_DIRECTORY_DEPTH || Full(limits, p) {
      NothingEmitted(p, Saturated(p), event);
      assert false;
    } else if listing.None? {
      way := [];
      DueHere(Folder(listing), path, Room(depth), event);
    } else {
      var room := limits.entries - p.entries;
      var start := if |listing.value| > room then Saturated(p) else p;
      NothingEmitted(p, start, event);
      ScanNamesExtends(listing.value, First(listing.value.Keys, room), path, depth, limits, start);
      EmitsJoined(p, start, Scan(listing, path, depth, limits, p), event);
      way := ScanNamesSound(listing.value, First(listing.value.Keys, room), path, depth, limits, start, event);
    }
  }

  lemma DueHere(item: Item, path: Path, room: nat, event: Event)
    ensures Due(item, path, [], room, event) <==> (item.Folder? ==> 0 < room) && GivesRise(item, path, event)
  {
    hide GivesRise;
    assert path + [] == path;
  }

  lemma {:induction false} ScanNamesSound(listing: Listing, names: seq<string>, path: Path, depth: nat, limits: Limits, p: Progress, event: Event)
    returns (way: Path)
    requires depth <= MAX_DIRECTORY_DEPTH && forall name <- names :: name in listing
    requires Extends(ScanNames(listing, names, path, depth, limits, p), p) && Emits(ScanNames(listing, names, path, depth, limits, p), p, event)
    ensures Due(Folder(Some(listing)), path, way, Room(depth), event)
    decreases Minus(MAX_DIRECTORY_DEPTH + 1, depth), 0, |names|
  {
    hide Due, Visit, Scan, Emits;
    var r := ScanNames(listing, names, path, depth, limits, p);
    ScanNamesUnfolds(listing, names, path, depth, limits, p);
    if names == [] || Full(limits, p) {
      NothingEmitted(p, r, event);
      assert false;
    } else {
      var item, child, start := listing[names[0]], path + [names[0]], p.(entries := p.entries + 1);
      var next := Visit(item, child, depth, limits, start);
      VisitExtends(item, child, depth, limits, start);
      ScanNamesExtends(listing, names[1..], path, depth, limits, next);
      NothingEmitted(p, start, event);
      EmitsJoined(p, start, r, event);
      EmitsJoined(start, next, r, event);
      if Emits(next, start, event) {
        var rest := VisitSound(item, child, depth, limits, start, event);
        way := [names[0]] + rest;
        DueBelow(listing, path, names[0], rest, Room(depth), event);
      } else {
        way := ScanNamesSound(listing, names[1..], path, depth, limits, next, event);
      }
    }
  }

  lemma {:induction false} VisitSound(item: Item, path: Path, depth: nat, limits: Limits, p: Progress, event: Event) returns (way: Path)
    requires depth <= MAX_DIRECTORY_DEPTH && path != []
    requires Extends(Visit(item, path, depth, limits, p), p) && Emits(Visit(item, path, depth, limits, p), p, event)
    ensures Due(item, path, way, Room(depth) - 1, event)
    decreases Minus(MAX_DIRECTORY_DEPTH + 1, depth + 1), 2, 0
  {
    hide Due, Scan;
    if item.Folder? {
      way := ScanSound(item.listing, path, depth + 1, limits, p, event);
    } else {
      way := [];
      DesktopFileExact(path[|path| - 1]);
      DueHere(item, path, Room(depth) - 1, event);
    }
  }

  // ---- And all of it, unless a limit stops it

  /** No limit cut the scan short. */
  predicate Thorough(limits: Limits, r: Progress) {
    !r.saturated || !Full(limits, r)
  }

  lemma {:induction false} ScanNamesSpends(listing: Listing, names: seq<string>, path: Path, depth: nat, limits: Limits, p: Progress)
    requires depth <= MAX_DIRECTORY_DEPTH && forall name <- names :: name in listing
    ensures var r := ScanNames(listing, names, path, depth, limits, p);
      Full(limits, r) || r.entries >= p.entries + |names|
    decreases |names|
  {
    hide Visit;
    ScanNamesUnfolds(listing, names, path, depth, limits, p);
    if names != [] && !Full(limits, p) {
      var start := p.(entries := p.entries + 1);
      VisitExtends(listing[names[0]], path + [names[0]], depth, limits, start);
      ScanNamesSpends(listing, names[1..], path, depth, limits, Visit(listing[names[0]], path + [names[0]], depth, limits, start));
    }
  }

  lemma {:induction false} ScanThorough(listing: Option<Listing>, path: Path, depth: nat, limits: Limits, p: Progress, way: Path, event: Event)
    requires Thorough(limits, Scan(listing, path, depth, limits, p)) && Due(Folder(listing), path, way, Room(depth), event)
    ensures Extends(Scan(listing, path, depth, limits, p), p) && Emits(Scan(listing, path, depth, limits, p), p, event)
    decreases Minus(MAX_DIRECTORY_DEPTH + 1, depth), 1, 0
  {
    hide First, ScanNames, GivesRise;
    var r := Scan(listing, path, depth, limits, p);
    ScanExtends(listing, path, depth, limits, p);
    ScanUnfolds(listing, path, depth, limits, p);
    if listing.None? {
      assert way == [];
      DueHere(Folder(listing), path, Room(depth), event);
      UnreadableEmitted(p, path, event);
    } else {
      var room := limits.entries - p.entries;
      var names, start := First(listing.value.Keys, room), if |listing.value| > room then Saturated(p) else p;
      FirstLeads(listing.value.Keys, room);
      ScanNamesSpends(listing.value, names, path, depth, limits, start);
      ScanNamesExtends(listing.value, names, path, depth, limits, start);
      assert |listing.value.Keys| == |listing.value|;
      AllFirst(listing.value.Keys, room);
      NothingEmitted(p, start, event);
      NotHere(listing.value, path, way, Room(depth), event);
      ScanNamesThorough(listing.value, names, path, depth, limits, start, way, event);
      EmitsJoined(p, start, r, event);
    }
  }

  lemma UnreadableEmitted(p: Progress, path: Path, event: Event)
    requires GivesRise(Folder(None), path, event)
    ensures var r := p.(complaints := p.complaints + [CannotRead(path)]); Extends(r, p) && Emits(r, p, event)
  {
    assert (p.complaints + [CannotRead(path)])[|p.complaints|..] == [CannotRead(path)];
  }

  lemma AllFirst(names: set<string>, room: nat)
    ensures |names| <= room ==> forall name <- names :: name in First(names, room)
  {
    SortedMembers(names);
  }

  lemma NotHere(listing: Listing, path: Path, way: Path, room: nat, event: Event)
    requires Due(Folder(Some(listing)), path, way, room, event)
    ensures way != [] && way[0] in listing
  {
  }

  lemma {:induction false} ScanNamesThorough(listing: Listing, names: seq<string>, path: Path, depth: nat, limits: Limits, p: Progress, way: Path,
                                             event: Event)
    requires depth <= MAX_DIRECTORY_DEPTH && forall name <- names :: name in listing
    requires Thorough(limits, ScanNames(listing, names, path, depth, limits, p))
    requires way != [] && way[0] in names && Due(Folder(Some(listing)), path, way, Room(depth), event)
    ensures Extends(ScanNames(listing, names, path, depth, limits, p), p) && Emits(ScanNames(listing, names, path, depth, limits, p), p, event)
    decreases Minus(MAX_DIRECTORY_DEPTH + 1, depth), 0, |names|
  {
    hide Due, Visit, Scan, Emits;
    var r := ScanNames(listing, names, path, depth, limits, p);
    ScanNamesExtends(listing, names, path, depth, limits, p);
    ScanNamesUnfolds(listing, names, path, depth, limits, p);
    var item, child, start := listing[names[0]], path + [names[0]], p.(entries := p.entries + 1);
    var next := Visit(item, child, depth, limits, start);
    VisitExtends(item, child, depth, limits, start);
    ScanNamesExtends(listing, names[1..], path, depth, limits, next);
    NothingEmitted(p, start, event);
    EmitsJoined(p, start, r, event);
    EmitsJoined(start, next, r, event);
    if way[0] == names[0] {
      assert way == [names[0]] + way[1..];
      DueBelow(listing, path, names[0], way[1..], Room(depth), event);
      VisitThorough(item, child, depth, limits, start, way[1..], event);
    } else {
      ScanNamesThorough(listing, names[1..], path, depth, limits, next, way, event);
    }
  }

  lemma {:induction false} VisitThorough(item: Item, path: Path, depth: nat, limits: Limits, p: Progress, way: Path, event: Event)
    requires depth <= MAX_DIRECTORY_DEPTH && path != []
    requires Thorough(limits, Visit(item, path, depth, limits, p)) && Due(item, path, way, Room(depth) - 1, event)
    ensures Extends(Visit(item, path, depth, limits, p), p) && Emits(Visit(item, path, depth, limits, p), p, event)
    decreases Minus(MAX_DIRECTORY_DEPTH + 1, depth + 1), 2, 0
  {
    hide Scan;
    VisitExtends(item, path, depth, limits, p);
    if item.Folder? {
      ScanThorough(item.listing, path, depth + 1, limits, p, way, event);
    } else {
      assert way == [];
      DesktopFileExact(path[|path| - 1]);
      DueHere(item, path, Room(depth) - 1, event);
      assert path + way == path;
    }
  }

  // ---- The entry limit bounds the scan

  ghost predicate Bounded(p: Progress, limits: Limits) {
    |p.files| <= p.entries <= limits.entries && |p.files| <= limits.candidates
  }

  lemma {:induction false} ScanBounded(listing: Option<Listing>, path: Path, depth: nat, limits: Limits, p: Progress)
    requires Bounded(p, limits)
    ensures Bounded(Scan(listing, path, depth, limits, p), limits)
    decreases Minus(MAX_DIRECTORY_DEPTH + 1, depth), 1, 0
  {
    hide First;
    if !(depth > MAX_DIRECTORY_DEPTH || Full(limits, p) || listing.None?) {
      var room := limits.entries - p.entries;
      ScanNamesBounded(listing.value, First(listing.value.Keys, room), path, depth, limits, if |listing.value| > room then Saturated(p) else p);
    }
  }

  lemma {:induction false} ScanNamesBounded(listing: Listing, names: seq<string>, path: Path, depth: nat, limits: Limits, p: Progress)
    requires depth <= MAX_DIRECTORY_DEPTH
    requires forall name <- names :: name in listing
    requires Bounded(p, limits)
    ensures Bounded(ScanNames(listing, names, path, depth, limits, p), limits)
    decreases Minus(MAX_DIRECTORY_DEPTH + 1, depth), 0, |names|
  {
    if names != [] && !Full(limits, p) {
      var item, child, start := listing[names[0]], path + [names[0]], p.(entries := p.entries + 1);
      if item.Folder? {
        ScanBounded(item.listing, child, depth + 1, limits, start);
      }
      ScanNamesBounded(listing, names[1..], path, depth, limits, Visit(item, child, depth, limits, start));
    }
  }

  // ---- Limits nobody reaches

  /** How many items lie below an item within so many levels, counted through the folders that can be read. */
  ghost function Size(item: Item, room: nat): nat
    decreases room, 1, 0
  {
    if room > 0 && item.Folder? && item.listing.Some? then
      var listing := item.listing.value;
      SortedMembers(listing.Keys);
      SizeNames(listing, Sorted(listing.Keys), room)
    else 0
  }

  ghost function SizeNames(listing: Listing, names: seq<string>, room: nat): nat
    requires room > 0 && forall name <- names :: name in listing
    decreases room, 0, |names|
  {
    if names == [] then 0 else 1 + Size(listing[names[0]], room - 1) + SizeNames(listing, names[1..], room)
  }

  lemma {:induction false} SizePrefix(listing: Listing, names: seq<string>, n: nat, room: nat)
    requires room > 0 && n <= |names| && forall name <- names :: name in listing
    ensures SizeNames(listing, names[..n], room) <= SizeNames(listing, names, room)
    decreases n
  {
    hide Size;
    if n > 0 {
      SizePrefix(listing, names[1..], n - 1, room);
      assert names[..n][1..] == names[1..][..n - 1];
    }
  }

  /** A scan never counts more entries than there are. */
  lemma {:induction false} ScanSpends(listing: Option<Listing>, path: Path, depth: nat, limits: Limits, p: Progress)
    ensures Scan(listing, path, depth, limits, p).entries <= p.entries + Size(Folder(listing), Room(depth))
    decreases Minus(MAX_DIRECTORY_DEPTH + 1, depth), 1, 0
  {
    hide Scan, ScanNames, Size, SizeNames, First, Sorted;
    ScanUnfolds(listing, path, depth, limits, p);
    if !(depth > MAX_DIRECTORY_DEPTH || Full(limits, p) || listing.None?) {
      var room := limits.entries - p.entries;
      var start := if |listing.value| > room then Saturated(p) else p;
      ScanNamesCounts(listing.value, First(listing.value.Keys, room), path, depth, limits, start);
      FirstSize(listing.value, room, Room(depth));
    }
  }

  lemma FirstSize(listing: Listing, room: nat, levels: nat)
    requires levels > 0
    ensures SizeNames(listing, First(listing.Keys, room), levels) <= Size(Folder(Some(listing)), levels)
  {
    hide SizeNames;
    var sorted, first := Sorted(listing.Keys), First(listing.Keys, room);
    SortedMembers(listing.Keys);
    SizePrefix(listing, sorted, |first|, levels);
    assert first == sorted[..|first|];
  }

  lemma {:induction false} ScanNamesCounts(listing: Listing, names: seq<string>, path: Path, depth: nat, limits: Limits, p: Progress)
    requires depth <= MAX_DIRECTORY_DEPTH && forall name <- names :: name in listing
    ensures ScanNames(listing, names, path, depth, limits, p).entries <= p.entries + SizeNames(listing, names, Room(depth))
    decreases Minus(MAX_DIRECTORY_DEPTH + 1, depth), 0, |names|
  {
    hide Visit, Size;
    ScanNamesUnfolds(listing, names, path, depth, limits, p);
    if names != [] && !Full(limits, p) {
      var item, child, start := listing[names[0]], path + [names[0]], p.(entries := p.entries + 1);
      VisitCounts(item, child, depth, limits, start);
      ScanNamesCounts(listing, names[1..], path, depth, limits, Visit(item, child, depth, limits, start));
    }
  }

  lemma {:induction false} VisitCounts(item: Item, path: Path, depth: nat, limits: Limits, p: Progress)
    requires depth <= MAX_DIRECTORY_DEPTH && path != []
    ensures Visit(item, path, depth, limits, p).entries <= p.entries + Size(item, Room(depth) - 1)
    decreases Minus(MAX_DIRECTORY_DEPTH + 1, depth + 1), 2, 0
  {
    hide Scan, Size;
    if item.Folder? {
      ScanSpends(item.listing, path, depth + 1, limits, p);
      assert item == Folder(item.listing);
    }
  }

  // ---- When a scan says that it was cut short

  /** Some folder lies exactly so many levels down, below folders that can be read. */
  ghost predicate Deep(item: Item, room: nat)
    decreases room
  {
    item.Folder? && (room == 0 || (item.listing.Some? && exists name <- item.listing.value :: Deep(item.listing.value[name], room - 1)))
  }

  /** A scan that has not used up its limits was cut short if and only if some folder lies too deep. */
  lemma {:induction false} ScanSaturates(listing: Option<Listing>, path: Path, depth: nat, limits: Limits, p: Progress)
    requires !Full(limits, Scan(listing, path, depth, limits, p))
    ensures Scan(listing, path, depth, limits, p).saturated <==> p.saturated || Deep(Folder(listing), Room(depth))
    decreases Minus(MAX_DIRECTORY_DEPTH + 1, depth), 1, 0
  {
    hide First, ScanNames, Scan;
    ScanUnfolds(listing, path, depth, limits, p);
    if depth <= MAX_DIRECTORY_DEPTH && listing.Some? {
      var room := limits.entries - p.entries;
      var names, start := First(listing.value.Keys, room), if |listing.value| > room then Saturated(p) else p;
      FirstLeads(listing.value.Keys, room);
      AllFirst(listing.value.Keys, room);
      assert |listing.value.Keys| == |listing.value|;
      ScanNamesSpends(listing.value, names, path, depth, limits, start);
      ScanNamesSaturates(listing.value, names, path, depth, limits, start);
    }
  }

  lemma {:induction false} ScanNamesSaturates(listing: Listing, names: seq<string>, path: Path, depth: nat, limits: Limits, p: Progress)
    requires depth <= MAX_DIRECTORY_DEPTH && forall name <- names :: name in listing
    requires !Full(limits, ScanNames(listing, names, path, depth, limits, p))
    ensures ScanNames(listing, names, path, depth, limits, p).saturated
      <==> p.saturated || exists name <- names :: Deep(listing[name], Room(depth) - 1)
    decreases Minus(MAX_DIRECTORY_DEPTH + 1, depth), 0, |names|
  {
    hide Visit, Deep;
    ScanNamesUnfolds(listing, names, path, depth, limits, p);
    if names != [] {
      var item, child, start := listing[names[0]], path + [names[0]], p.(entries := p.entries + 1);
      var next := Visit(item, child, depth, limits, start);
      ScanNamesExtends(listing, names[1..], path, depth, limits, next);
      VisitSaturates(item, child, depth, limits, start);
      ScanNamesSaturates(listing, names[1..], path, depth, limits, next);
      assert names == [names[0]] + names[1..];
    }
  }

  lemma {:induction false} VisitSaturates(item: Item, path: Path, depth: nat, limits: Limits, p: Progress)
    requires depth <= MAX_DIRECTORY_DEPTH && path != [] && !Full(limits, Visit(item, path, depth, limits, p))
    ensures Visit(item, path, depth, limits, p).saturated <==> p.saturated || Deep(item, Room(depth) - 1)
    decreases Minus(MAX_DIRECTORY_DEPTH + 1, depth + 1), 2, 0
  {
    hide Scan;
    if item.Folder? {
      ScanSaturates(item.listing, path, depth + 1, limits, p);
      assert item == Folder(item.listing);
    }
  }

  // ---- A scan finds files in the order of their paths

  ghost predicate PathsAscending(files: seq<Path>) {
    forall i, j | 0 <= i < j < |files| :: PathBefore(files[i], files[j])
  }

  ghost predicate AllWithin(files: seq<Path>, path: Path) {
    forall file <- files :: path <= file
  }

  /** Files below `path` whose next name is one of `names`. */
  ghost predicate AllUnder(files: seq<Path>, path: Path, names: seq<string>) {
    forall file <- files :: path <= file && |file| > |path| && file[|path|] in names
  }

  ghost function New(r: Progress, p: Progress): seq<Path>
    requires Extends(r, p)
  {
    r.files[|p.files|..]
  }

  lemma {:induction false} DifferAt(a: Path, b: Path, k: nat)
    requires k < |a| && k < |b| && a[..k] == b[..k] && Before(a[k], b[k])
    ensures PathBefore(a, b)
  {
    if k > 0 {
      assert a[0] == a[..k][0] && b[0] == b[..k][0];
      assert a[1..][..k - 1] == a[..k][1..] && b[1..][..k - 1] == b[..k][1..];
      DifferAt(a[1..], b[1..], k - 1);
    }
  }

  lemma Joined(a: seq<Path>, b: seq<Path>, path: Path, names: seq<string>)
    requires names != [] && Ascending(names)
    requires PathsAscending(a) && PathsAscending(b) && AllWithin(a, path + [names[0]]) && AllUnder(b, path, names[1..])
    ensures PathsAscending(a + b) && AllUnder(a + b, path, names)
  {
    hide Before, PathBefore;
    forall x, y | x in a && y in b ensures PathBefore(x, y) {
      var k := |path|;
      assert x[..k] == (path + [names[0]])[..k] == path == y[..k];
      assert x[k] == (path + [names[0]])[k];
      var i :| 0 <= i < |names[1..]| && names[1..][i] == y[k];
      assert Before(names[0], names[i + 1]);
      DifferAt(x, y, k);
    }
    forall x | x in a ensures path <= x && |x| > |path| && x[|path|] in names {
      assert x[..|path|] == (path + [names[0]])[..|path|];
    }
  }

  lemma {:induction false} ScanAscending(listing: Option<Listing>, path: Path, depth: nat, limits: Limits, p: Progress)
    ensures
      var r := Scan(listing, path, depth, limits, p);
      Extends(r, p) && PathsAscending(New(r, p)) && AllWithin(New(r, p), path)
    decreases Minus(MAX_DIRECTORY_DEPTH + 1, depth), 1, 0
  {
    hide First, PathBefore;
    if !(depth > MAX_DIRECTORY_DEPTH || Full(limits, p) || listing.None?) {
      var room := limits.entries - p.entries;
      FirstAscending(listing.value.Keys, room);
      var start := if |listing.value| > room then Saturated(p) else p;
      ScanNamesAscending(listing.value, First(listing.value.Keys, room), path, depth, limits, start);
    }
  }

  lemma FirstAscending(names: set<string>, room: nat)
    ensures Ascending(First(names, room))
  {
    hide Before;
    SortedAscending(names);
  }

  lemma {:induction false} ScanNamesAscending(listing: Listing, names: seq<string>, path: Path, depth: nat, limits: Limits, p: Progress)
    requires depth <= MAX_DIRECTORY_DEPTH && Ascending(names)
    requires forall name <- names :: name in listing
    ensures
      var r := ScanNames(listing, names, path, depth, limits, p);
      Extends(r, p) && PathsAscending(New(r, p)) && AllUnder(New(r, p), path, names)
    decreases Minus(MAX_DIRECTORY_DEPTH + 1, depth), 0, |names|
  {
    hide PathsAscending, AllWithin, AllUnder, First, PathBefore, Before, Visit, Scan;
    if names == [] || Full(limits, p) {
      NothingNew(p, ScanNames(listing, names, path, depth, limits, p), path, names);
    } else {
      var item, child, start := listing[names[0]], path + [names[0]], p.(entries := p.entries + 1);
      var next := Visit(item, child, depth, limits, start);
      VisitAscending(item, child, depth, limits, start);
      TailAscending(names);
      ScanNamesAscending(listing, names[1..], path, depth, limits, next);
      var r := ScanNames(listing, names[1..], path, depth, limits, next);
      Joined(New(next, start), New(r, next), path, names);
      NewJoined(p, start, next, r);
    }
  }

  lemma NothingNew(p: Progress, r: Progress, path: Path, names: seq<string>)
    requires Extends(r, p) && r.files == p.files
    ensures Extends(r, p) && PathsAscending(New(r, p)) && AllUnder(New(r, p), path, names)
  {
  }

  lemma TailAscending(names: seq<string>)
    requires names != [] && Ascending(names)
    ensures Ascending(names[1..])
  {
    hide Before;
  }

  lemma NewJoined(p: Progress, start: Progress, next: Progress, r: Progress)
    requires start.files == p.files && Extends(start, p) && Extends(next, start) && Extends(r, next)
    ensures Extends(r, p) && New(r, p) == New(next, start) + New(r, next)
  {
  }

  lemma {:induction false} VisitAscending(item: Item, path: Path, depth: nat, limits: Limits, p: Progress)
    requires depth <= MAX_DIRECTORY_DEPTH && path != []
    ensures
      var r := Visit(item, path, depth, limits, p);
      Extends(r, p) && PathsAscending(New(r, p)) && AllWithin(New(r, p), path)
    decreases Minus(MAX_DIRECTORY_DEPTH + 1, depth + 1), 2, 0
  {
    hide PathBefore;
    if item.Folder? {
      ScanAscending(item.listing, path, depth + 1, limits, p);
    }
  }

  // ---- A whole root

  const Nothing: Progress := Progress(0, false, [], [])

  ghost function Found(listing: Option<Listing>, limits: Limits): seq<Path> {
    Scan(listing, [], 0, limits, Nothing).files
  }

  /** What a root holds for a scan that only its entry limit stops: a quota as large as that limit never does. */
  ghost function Demand(listing: Option<Listing>, entries: nat): seq<Path> {
    Found(listing, Limits(entries, entries))
  }

  /** A scan with a quota finds the first candidates of the scan without one, as many as the quota lets through. */
  lemma QuotaTakesFirst(listing: Option<Listing>, entries: nat, quota: nat)
    ensures Found(listing, Limits(entries, quota))
      == if |Demand(listing, entries)| <= quota then Demand(listing, entries) else Demand(listing, entries)[..quota]
  {
    hide Scan;
    var all, cut := Limits(entries, entries), Limits(entries, quota);
    ScanBounded(listing, [], 0, all, Nothing);
    ScanBounded(listing, [], 0, cut, Nothing);
    if quota <= entries {
      ScanCut(listing, [], 0, all, quota, Nothing, Nothing);
    } else {
      ScanCut(listing, [], 0, cut, entries, Nothing, Nothing);
    }
  }

  /** The candidates of a root come out sorted by path and all different. */
  lemma FoundAscending(listing: Option<Listing>, limits: Limits)
    ensures PathsAscending(Found(listing, limits))
  {
    hide Scan, PathBefore;
    ScanAscending(listing, [], 0, limits, Nothing);
  }

  /** A desktop file that is reached through folders that can be read, at most sixteen of them below the root. */
  ghost predicate Reachable(listing: Option<Listing>, path: Path) {
    && 1 <= |path| <= MAX_DIRECTORY_DEPTH + 1
    && Met(Folder(listing), path) == Some(File) && EndsInDesktop(path[|path| - 1])
  }

  /** What a complaint is about: an item that cannot be examined, a link, or a folder that cannot be read. */
  ghost predicate ToComplainOf(listing: Option<Listing>, complaint: Complaint) {
    match complaint
    case CannotExamine(path) => |path| <= MAX_DIRECTORY_DEPTH + 1 && Met(Folder(listing), path) == Some(Broken)
    case LinkNotFollowed(path) => |path| <= MAX_DIRECTORY_DEPTH + 1 && Met(Folder(listing), path) == Some(Link)
    case CannotRead(path) => |path| <= MAX_DIRECTORY_DEPTH && Met(Folder(listing), path) == Some(Folder(None))
  }

  lemma DueInRoot(listing: Option<Listing>, way: Path, event: Event)
    requires Due(Folder(listing), [], way, Room(0), event)
    ensures match event
      case Listed(path) => path == way && Reachable(listing, path)
      case Complained(complaint) => complaint.path == way && ToComplainOf(listing, complaint)
  {
    hide Met, EndsInDesktop;
    MetHere(Folder(listing));
    assert [] + way == way;
  }

  lemma DueFromRoot(listing: Option<Listing>, event: Event)
    requires match event
      case Listed(path) => Reachable(listing, path)
      case Complained(complaint) => ToComplainOf(listing, complaint)
    ensures Due(Folder(listing), [], if event.Listed? then event.path else event.complaint.path, Room(0), event)
  {
    hide Met, EndsInDesktop;
    var way := if event.Listed? then event.path else event.complaint.path;
    assert [] + way == way;
  }

  lemma MetHere(item: Item)
    ensures Met(item, []) == Some(item)
  {
  }

  lemma EmitsFromNothing(r: Progress, event: Event)
    ensures Extends(r, Nothing)
    ensures Emits(r, Nothing, event) <==>
      match event
      case Listed(path) => path in r.files
      case Complained(complaint) => complaint in r.complaints
  {
    assert r.files[0..] == r.files && r.complaints[0..] == r.complaints;
  }

  /** A root's scan lists only reachable desktop files and complains only with reason; and it does list and complain of them
      all, unless a limit stopped it. */
  lemma RootEvents(listing: Option<Listing>, limits: Limits, event: Event)
    ensures var r := Scan(listing, [], 0, limits, Nothing);
      match event
      case Listed(path) => (path in r.files ==> Reachable(listing, path)) && (Thorough(limits, r) ==> (Reachable(listing, path) ==> path in r.files))
      case Complained(complaint) =>
        && (complaint in r.complaints ==> ToComplainOf(listing, complaint))
        && (Thorough(limits, r) ==> (ToComplainOf(listing, complaint) ==> complaint in r.complaints))
  {
    hide Scan, Due, Met, Reachable, ToComplainOf, Thorough, Emits;
    var r := Scan(listing, [], 0, limits, Nothing);
    EmitsFromNothing(r, event);
    if Emits(r, Nothing, event) {
      var way := ScanSound(listing, [], 0, limits, Nothing, event);
      DueInRoot(listing, way, event);
    }
    if Thorough(limits, r) && (if event.Listed? then Reachable(listing, event.path) else ToComplainOf(listing, event.complaint)) {
      DueFromRoot(listing, event);
      ScanThorough(listing, [], 0, limits, Nothing, if event.Listed? then event.path else event.complaint.path, event);
    }
  }

  /** A scan that was not cut short finds a path if and only if it is that of a reachable desktop file. */
  lemma FoundExact(listing: Option<Listing>, limits: Limits, path: Path)
    ensures path in Found(listing, limits) ==> Reachable(listing, path)
    ensures !Scan(listing, [], 0, limits, Nothing).saturated ==> (path in Found(listing, limits) <==> Reachable(listing, path))
    ensures Size(Folder(listing), MAX_DIRECTORY_DEPTH + 1) < limits.entries && Size(Folder(listing), MAX_DIRECTORY_DEPTH + 1) < limits.candidates ==>
      (path in Found(listing, limits) <==> Reachable(listing, path))
  {
    hide Scan, Reachable, Size;
    RootEvents(listing, limits, Listed(path));
    ScanSpends(listing, [], 0, limits, Nothing);
    if limits.entries > 0 && limits.candidates > 0 {
      ScanBounded(listing, [], 0, limits, Nothing);
    }
  }
}
