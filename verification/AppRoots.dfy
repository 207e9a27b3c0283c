// Sharing the candidate limit among application roots, and which root's entry an ID belongs to.
module AppRoots {
  import opened Wrappers
  import opened Numbers
  import opened NameOrder
  import opened DesktopScan

  const MAX_DESKTOP_FILES: nat := 16_384
  const MAX_APPLICATION_ROOTS: nat := 64
  const MAX_ENTRIES_PER_ROOT: nat := 65_536
  const MAX_DESKTOP_ID_BYTES: nat := 1024

  datatype Root = Missing | Unreadable | NotFolder | Real(listing: Option<Listing>)

  function DivCeil(a: nat, b: nat): nat
    requires b > 0
  {
    a / b + if a % b > 0 then 1 else 0
  }

  // ---- Shares

  /** All candidates of a root, were there no limit on candidates. */
  ghost function DemandOf(root: Root, entries: nat): seq<Path> {
    if root.Real? then Demand(root.listing, entries) else []
  }

  ghost function TakenFrom(root: Root, entries: nat, quota: nat): seq<Path> {
    if root.Real? then Found(root.listing, Limits(entries, quota)) else []
  }

  /** What each root contributes when each is given an even share, rounded up, of what is left for it and those after it. */
  ghost function ShareOut(roots: seq<Root>, entries: nat, remaining: nat): seq<seq<Path>> {
    if roots == [] then []
    else
      var taken := TakenFrom(roots[0], entries, DivCeil(remaining, |roots|));
      [taken] + ShareOut(roots[1..], entries, if |taken| <= remaining then remaining - |taken| else 0)
  }

  function Sum(taken: seq<seq<Path>>): nat {
    if taken == [] then 0 else |taken[0]| + Sum(taken[1..])
  }

  lemma TakenIsShare(root: Root, entries: nat, quota: nat)
    ensures TakenFrom(root, entries, quota) <= DemandOf(root, entries)
    ensures |TakenFrom(root, entries, quota)| == Min(|DemandOf(root, entries)|, quota)
  {
    if root.Real? {
      hide Found;
      QuotaTakesFirst(root.listing, entries, quota);
    }
  }

  lemma CeilShare(remaining: nat, n: nat, taken: nat)
    requires n > 0 && taken <= DivCeil(remaining, n)
    ensures taken <= remaining
    ensures n > 1 ==> (remaining - taken) / (n - 1) >= remaining / n
    ensures DivCeil(remaining, n) >= remaining / n
  {
    var a := remaining / n;
    ShareOf(remaining, n, a, remaining % n, taken);
    if n > 1 {
      QuotientAtLeast(remaining - taken, n - 1, a);
    }
  }

  lemma ShareOf(remaining: nat, n: nat, a: nat, b: nat, taken: nat)
    requires n > 0 && remaining == a * n + b && taken <= a + if b > 0 then 1 else 0
    ensures taken <= remaining && remaining - taken >= a * (n - 1)
  {
    assert a * n == a * (n - 1) + a;
    assert a * (n - 1) >= 0;
  }

  lemma QuotientAtLeast(x: nat, d: nat, a: nat)
    requires d > 0 && x >= a * d
    ensures x / d >= a
  {
    var q, r := x / d, x % d;
    QuotientOf(x, d, a, q, r);
  }

  lemma QuotientOf(x: nat, d: nat, a: nat, q: nat, r: nat)
    requires x == q * d + r && r < d && x >= a * d
    ensures q >= a
  {
    if q < a {
      ProductMonotone(q + 1, a, d);
    }
  }

  lemma {:induction false} ProductMonotone(p: nat, q: nat, d: nat)
    requires p <= q
    ensures p * d <= q * d
  {
    assert (q - p) * d >= 0;
  }

  /** The shares together stay within the limit. */
  lemma {:induction false} SharesWithinLimit(roots: seq<Root>, entries: nat, remaining: nat)
    ensures |ShareOut(roots, entries, remaining)| == |roots|
    ensures Sum(ShareOut(roots, entries, remaining)) <= remaining
  {
    if roots != [] {
      hide TakenFrom, DemandOf;
      var quota := DivCeil(remaining, |roots|);
      var taken := TakenFrom(roots[0], entries, quota);
      TakenIsShare(roots[0], entries, quota);
      CeilShare(remaining, |roots|, |taken|);
      SharesWithinLimit(roots[1..], entries, remaining - |taken|);
    }
  }

  /** Each root contributes its first candidates: all of them, or no fewer than an even share of the limit rounded down. */
  lemma {:induction false} SharesAreFair(roots: seq<Root>, entries: nat, remaining: nat, i: nat)
    requires i < |roots|
    ensures |ShareOut(roots, entries, remaining)| == |roots|
    ensures
      var taken := ShareOut(roots, entries, remaining)[i];
      taken <= DemandOf(roots[i], entries) && |taken| >= Min(|DemandOf(roots[i], entries)|, remaining / |roots|)
    decreases |roots|
  {
    hide TakenFrom, DemandOf;
    var quota := DivCeil(remaining, |roots|);
    var taken := TakenFrom(roots[0], entries, quota);
    TakenIsShare(roots[0], entries, quota);
    CeilShare(remaining, |roots|, |taken|);
    SharesWithinLimit(roots[1..], entries, remaining - |taken|);
    if i > 0 {
      SharesAreFair(roots[1..], entries, remaining - |taken|, i - 1);
    }
  }

  /** `q` is the least number of candidates that `n` roots must each be allowed to be allowed so many together. */
  predicate EvenShare(q: nat, left: nat, n: nat) {
    left <= q * n < left + n
  }

  lemma CeilExact(q: nat, left: nat, n: nat)
    requires n > 0
    ensures EvenShare(DivCeil(left, n), left, n)
    ensures EvenShare(q, left, n) ==> q == DivCeil(left, n)
  {
    var c := DivCeil(left, n);
    CeilBounds(left, n, left / n, left % n, c);
    if EvenShare(q, left, n) {
      OneEvenShare(q, c, left, n);
    }
  }

  lemma OneEvenShare(q: nat, c: nat, left: nat, n: nat)
    requires n > 0 && EvenShare(q, left, n) && EvenShare(c, left, n)
    ensures q == c
  {
    if q < c {
      ProductMonotone(q + 1, c, n);
    } else if q > c {
      ProductMonotone(c + 1, q, n);
    }
  }

  lemma CeilBounds(left: nat, n: nat, a: nat, b: nat, c: nat)
    requires n > 0 && left == a * n + b && b < n && c == a + if b > 0 then 1 else 0
    ensures left <= c * n < left + n
  {
    if b > 0 {
      assert (a + 1) * n == a * n + n;
    }
  }

  /** Each root contributes its first candidates, as many as an even share, rounded up, of what those before it have left. */
  lemma {:induction false} ShareExact(roots: seq<Root>, entries: nat, remaining: nat, i: nat, q: nat)
    requires i < |roots|
    ensures |ShareOut(roots, entries, remaining)| == |roots|
    ensures
      var shares := ShareOut(roots, entries, remaining);
      && Sum(shares[..i]) <= remaining && shares[i] <= DemandOf(roots[i], entries)
      && (EvenShare(q, remaining - Sum(shares[..i]), |roots| - i) ==> |shares[i]| == Min(|DemandOf(roots[i], entries)|, q))
    decreases |roots|
  {
    hide TakenFrom, DemandOf, DivCeil, EvenShare;
    var quota := DivCeil(remaining, |roots|);
    var taken := TakenFrom(roots[0], entries, quota);
    TakenIsShare(roots[0], entries, quota);
    CeilShare(remaining, |roots|, |taken|);
    SharesWithinLimit(roots[1..], entries, remaining - |taken|);
    var shares := ShareOut(roots, entries, remaining);
    if i == 0 {
      CeilExact(q, remaining, |roots|);
      assert shares[..0] == [];
    } else {
      ShareExact(roots[1..], entries, remaining - |taken|, i - 1, q);
      assert shares[..i][1..] == shares[1..][..i - 1];
      assert Sum(shares[..i]) == |taken| + Sum(shares[1..][..i - 1]);
    }
  }

  /** The last root may take everything the others left. */
  lemma {:induction false} LastTakesTheRest(roots: seq<Root>, entries: nat, remaining: nat)
    requires roots != []
    ensures |ShareOut(roots, entries, remaining)| == |roots|
    ensures
      var shares := ShareOut(roots, entries, remaining);
      var others := Sum(shares[..|roots| - 1]);
      others <= remaining
      && |shares[|roots| - 1]| == Min(|DemandOf(roots[|roots| - 1], entries)|, remaining - others)
    decreases |roots|
  {
    hide TakenFrom, DemandOf;
    var quota := DivCeil(remaining, |roots|);
    var taken := TakenFrom(roots[0], entries, quota);
    TakenIsShare(roots[0], entries, quota);
    CeilShare(remaining, |roots|, |taken|);
    SharesWithinLimit(roots[1..], entries, remaining - |taken|);
    var shares := ShareOut(roots, entries, remaining);
    if |roots| == 1 {
      assert shares[..0] == [];
    } else {
      LastTakesTheRest(roots[1..], entries, remaining - |taken|);
      assert shares[..|roots| - 1][1..] == shares[1..][..|roots| - 2];
    }
  }

  // ---- IDs

  predicate IsControl(c: char) {
    c as int < 0x20 || 0x7f <= c as int < 0xa0
  }

  function Dashed(path: Path): string {
    if path == [] then "" else if |path| == 1 then path[0] else path[0] + "-" + Dashed(path[1..])
  }

  /** Length in UTF-8. */
  function Bytes(text: string): nat {
    if text == "" then 0
    else
      var c := text[0] as int;
      Bytes(text[1..]) + if c < 0x80 then 1 else if c < 0x800 then 2 else if c < 0x1_0000 then 3 else 4
  }

  /** The ID of a desktop file: its path below the root, with dashes between the names. */
  function IdOf(path: Path): Option<string> {
    if path == [] || !IsDesktopFile(path[|path| - 1]) then None
    else if exists name <- path :: name == "" || name == "." || name == ".." || exists c <- name :: IsControl(c) then None
    else if Dashed(path) == "" || Bytes(Dashed(path)) > MAX_DESKTOP_ID_BYTES then None
    else Some(Dashed(path))
  }

  /** Names are joined with dashes, however deep the path. */
  lemma {:induction false} DashedJoins(path: Path, name: string)
    ensures Dashed([name]) == name
    ensures path != [] ==> Dashed(path + [name]) == Dashed(path) + "-" + name
  {
    if |path| > 1 {
      DashedJoins(path[1..], name);
      assert (path + [name])[1..] == path[1..] + [name];
    } else if |path| == 1 {
      assert (path + [name])[1..] == [name];
    }
  }

  lemma {:induction false} BytesJoin(a: string, b: string)
    ensures Bytes(a + b) == Bytes(a) + Bytes(b)
    ensures |a| <= Bytes(a) <= 4 * |a|
  {
    if a == "" {
      assert a + b == b;
    } else {
      BytesJoin(a[1..], b);
      assert (a + b)[1..] == a[1..] + b;
    }
  }

  /** Only ASCII text takes one byte a character. */
  lemma {:induction false} BytesAscii(a: string)
    ensures Bytes(a) == |a| <==> forall i | 0 <= i < |a| :: a[i] as int < 0x80
  {
    if a != "" {
      BytesAscii(a[1..]);
      BytesJoin(a[1..], "");
      assert forall i | 0 < i < |a| :: a[i] == a[1..][i - 1];
    }
  }

  /** A path has an ID exactly when its last name is that of a desktop file, every name in it could be a file's and holds no
      control character, and the ID is not too long. */
  lemma IdExact(path: Path, id: string)
    ensures IdOf(path) == Some(id) <==>
      (path != [] && EndsInDesktop(path[|path| - 1]) && id == Dashed(path) && Bytes(id) <= MAX_DESKTOP_ID_BYTES
       && forall name <- path :: name != "" && name != "." && name != ".." && forall c <- name :: !IsControl(c))
  {
    hide IsControl, Bytes;
    if path != [] {
      DesktopFileExact(path[|path| - 1]);
      if path[|path| - 1] != "" {
        DashedNotEmpty(path);
      }
    }
  }

  lemma DashedNotEmpty(path: Path)
    requires path != [] && path[|path| - 1] != ""
    ensures Dashed(path) != ""
  {
  }

  datatype Candidate = Candidate(root: nat, path: Path)

  function FromRoot(root: nat, files: seq<Path>): seq<Candidate> {
    seq(|files|, i requires 0 <= i < |files| => Candidate(root, files[i]))
  }

  /** The candidates of all roots, in the order they are considered. */
  function Line(taken: seq<seq<Path>>): seq<Candidate> {
    if taken == [] then []
    else Line(taken[..|taken| - 1]) + FromRoot(|taken| - 1, taken[|taken| - 1])
  }

  function Claim(claims: map<string, Candidate>, candidate: Candidate): map<string, Candidate> {
    var id := IdOf(candidate.path);
    if id.None? || id.value in claims then claims else claims[id.value := candidate]
  }

  function Claims(line: seq<Candidate>): map<string, Candidate> {
    if line == [] then map[] else Claim(Claims(line[..|line| - 1]), line[|line| - 1])
  }

  /** `i` is the first place in the line with the given ID. */
  ghost predicate FirstWith(line: seq<Candidate>, id: string, i: nat) {
    i < |line| && IdOf(line[i].path) == Some(id) && forall j: nat | j < i :: IdOf(line[j].path) != Some(id)
  }

  /** An ID belongs to the first candidate that has it. */
  lemma {:induction false} ClaimedByFirst(line: seq<Candidate>, id: string, candidate: Candidate)
    ensures id in Claims(line) && Claims(line)[id] == candidate <==> exists i: nat :: FirstWith(line, id, i) && line[i] == candidate
  {
    hide IdOf;
    if line != [] {
      var before, last := line[..|line| - 1], |line| - 1;
      ClaimedByFirst(before, id, candidate);
      if id in Claims(before) {
        ClaimedByFirst(before, id, Claims(before)[id]);
        var k: nat :| FirstWith(before, id, k) && before[k] == Claims(before)[id];
        assert FirstWith(line, id, k);
        forall i: nat | FirstWith(line, id, i) ensures i == k {
        }
      } else {
        forall i: nat | i < last ensures IdOf(line[i].path) != Some(id) {
          if IdOf(line[i].path) == Some(id) {
            NoFirst(before, id, i);
          }
        }
        if IdOf(line[last].path) == Some(id) {
          assert FirstWith(line, id, last);
        }
      }
    }
  }

  lemma {:induction false} NoFirst(line: seq<Candidate>, id: string, i: nat)
    requires id !in Claims(line) && i < |line| && IdOf(line[i].path) == Some(id)
    ensures false
  {
    hide IdOf;
    var last := |line| - 1;
    if i < last {
      NoFirst(line[..last], id, i);
    }
  }

  lemma {:induction false} LineOrdered(taken: seq<seq<Path>>)
    ensures forall i | 0 <= i < |Line(taken)| :: Line(taken)[i].root < |taken| && Line(taken)[i].path in taken[Line(taken)[i].root]
    ensures forall i, j | 0 <= i < j < |Line(taken)| :: Line(taken)[i].root <= Line(taken)[j].root
    ensures forall r, path | 0 <= r < |taken| && path in taken[r] :: Candidate(r, path) in Line(taken)
  {
    if taken != [] {
      var n := |taken| - 1;
      LineOrdered(taken[..n]);
      var mine := FromRoot(n, taken[n]);
      forall path | path in taken[n] ensures Candidate(n, path) in Line(taken) {
        var k :| 0 <= k < |taken[n]| && taken[n][k] == path;
        assert mine[k] in Line(taken);
      }
    }
  }

  /** Within a root the line follows the order of the paths. */
  lemma {:induction false} LineAscending(taken: seq<seq<Path>>)
    requires forall files <- taken :: PathsAscending(files)
    ensures forall i, j | 0 <= i < j < |Line(taken)| && Line(taken)[i].root == Line(taken)[j].root ::
      PathBefore(Line(taken)[i].path, Line(taken)[j].path)
  {
    hide PathBefore;
    if taken != [] {
      var n := |taken| - 1;
      LineAscending(taken[..n]);
      LineOrdered(taken[..n]);
      assert taken[n] in taken;
    }
  }

  /** An ID found in one root never goes to a root of lower precedence, nor to a later file of the same root, and goes only to a
      file that has it. */
  lemma RootPrecedence(taken: seq<seq<Path>>, r: nat, path: Path)
    requires r < |taken| && path in taken[r] && IdOf(path).Some?
    requires forall files <- taken :: PathsAscending(files)
    ensures
      var claims := Claims(Line(taken));
      IdOf(path).value in claims
      && var winner := claims[IdOf(path).value];
      && winner.root <= r && winner.path in taken[winner.root] && IdOf(winner.path) == IdOf(path)
      && (winner.root == r ==> winner.path == path || PathBefore(winner.path, path))
  {
    hide IdOf, Claims, PathsAscending, PathBefore, Line;
    var line, id := Line(taken), IdOf(path).value;
    LineOrdered(taken);
    LineAscending(taken);
    var j: nat :| j < |line| && line[j] == Candidate(r, path);
    var i := EarliestWith(line, id, j);
    ClaimedByFirst(line, id, line[i]);
  }

  /** Whoever has an ID stands in the line with it. */
  lemma ClaimantInLine(line: seq<Candidate>, id: string)
    requires id in Claims(line)
    ensures Claims(line)[id] in line && IdOf(Claims(line)[id].path) == Some(id)
  {
    hide IdOf, Claims;
    ClaimedByFirst(line, id, Claims(line)[id]);
  }

  lemma {:induction false} EarliestWith(line: seq<Candidate>, id: string, j: nat) returns (i: nat)
    requires j < |line| && IdOf(line[j].path) == Some(id)
    ensures i <= j && FirstWith(line, id, i)
  {
    hide IdOf;
    if k: nat :| k < j && IdOf(line[k].path) == Some(id) {
      i := EarliestWith(line, id, k);
    } else {
      i := j;
    }
  }

  // ---- Discovery

  datatype ScanLimits = ScanLimits(roots: nat, entries: nat, files: nat)

  function RootCount(roots: seq<Root>, limits: ScanLimits): (count: nat)
    ensures count <= |roots|
  {
    Min(|roots|, limits.roots)
  }

  /** The root is read with limits that its scan cannot reach: fewer entries than a root may have, and no more than its even share of
      the candidates, rounded down. */
  ghost predicate Unhindered(roots: seq<Root>, limits: ScanLimits, r: nat) {
    && r < |roots| && r < limits.roots && roots[r].Real?
    && Size(Folder(roots[r].listing), MAX_DIRECTORY_DEPTH + 1) < limits.entries
    && Size(Folder(roots[r].listing), MAX_DIRECTORY_DEPTH + 1) <= limits.files / Min(|roots|, limits.roots)
  }

  /** The candidates of a root are reachable desktop files, and when no limit stops its scan they are all of them. */
  lemma ShareIsReachable(roots: seq<Root>, limits: ScanLimits, r: nat, path: Path)
    requires r < RootCount(roots, limits)
    ensures var taken := ShareOut(roots[..RootCount(roots, limits)], limits.entries, limits.files);
      && |taken| == RootCount(roots, limits) && PathsAscending(taken[r])
      && (path in taken[r] ==> roots[r].Real? && Reachable(roots[r].listing, path))
      && (Unhindered(roots, limits, r) && Reachable(roots[r].listing, path) ==> path in taken[r])
  {
    hide Reachable, Size, PathBefore;
    var considered := roots[..RootCount(roots, limits)];
    var taken := ShareOut(considered, limits.entries, limits.files);
    SharesAreFair(considered, limits.entries, limits.files, r);
    if roots[r].Real? {
      FoundAscending(roots[r].listing, Limits(limits.entries, limits.entries));
      FoundExact(roots[r].listing, Limits(limits.entries, limits.entries), path);
      DemandSize(roots[r].listing, limits.entries);
    }
  }

  lemma DemandSize(listing: Option<Listing>, entries: nat)
    ensures |Demand(listing, entries)| <= Size(Folder(listing), MAX_DIRECTORY_DEPTH + 1)
  {
    hide Scan, Size;
    ScanBounded(listing, [], 0, Limits(entries, entries), Nothing);
    ScanSpends(listing, [], 0, Limits(entries, entries), Nothing);
  }

  /** Every claim is that of a reachable desktop file of a real root. */
  ghost predicate ClaimsReal(roots: seq<Root>, limits: ScanLimits, claims: map<string, Candidate>) {
    forall id <- claims ::
      var r := claims[id].root;
      r < RootCount(roots, limits) && roots[r].Real? && Reachable(roots[r].listing, claims[id].path) && IdOf(claims[id].path) == Some(id)
  }

  /** Every reachable desktop file of an unhindered root that has an ID has it claimed: by itself, by a file that comes before it in
      its root, or by a file of a root that comes before. */
  ghost predicate ClaimsComplete(roots: seq<Root>, limits: ScanLimits, claims: map<string, Candidate>) {
    forall r: nat, path: Path | Unhindered(roots, limits, r) && Reachable(roots[r].listing, path) && IdOf(path).Some? ::
      Precedes(claims, r, path)
  }

  ghost predicate Precedes(claims: map<string, Candidate>, r: nat, path: Path)
    requires IdOf(path).Some?
  {
    IdOf(path).value in claims
    && var winner := claims[IdOf(path).value];
    winner.root < r || (winner.root == r && (winner.path == path || PathBefore(winner.path, path)))
  }

  lemma ClaimsMean(roots: seq<Root>, limits: ScanLimits)
    ensures var claims := Claims(Line(ShareOut(roots[..RootCount(roots, limits)], limits.entries, limits.files)));
      ClaimsReal(roots, limits, claims) && ClaimsComplete(roots, limits, claims)
  {
    hide Reachable, Size, PathBefore, PathsAscending, ShareOut, IdOf, Claims, Line;
    var count := RootCount(roots, limits);
    var taken := ShareOut(roots[..count], limits.entries, limits.files);
    SharesWithinLimit(roots[..count], limits.entries, limits.files);
    var claims := Claims(Line(taken));
    forall files | files in taken ensures PathsAscending(files) {
      var r: nat :| r < |taken| && taken[r] == files;
      ShareIsReachable(roots, limits, r, []);
    }
    forall id | id in claims
      ensures
        var r := claims[id].root;
        r < count && roots[r].Real? && Reachable(roots[r].listing, claims[id].path) && IdOf(claims[id].path) == Some(id)
    {
      ClaimantInLine(Line(taken), id);
      LineOrdered(taken);
      ShareIsReachable(roots, limits, claims[id].root, claims[id].path);
    }
    forall r: nat, path: Path | Unhindered(roots, limits, r) && Reachable(roots[r].listing, path) && IdOf(path).Some?
      ensures Precedes(claims, r, path)
    {
      ShareIsReachable(roots, limits, r, path);
      RootPrecedence(taken, r, path);
    }
  }

  /** Scans the roots in order of precedence, sharing the candidate limit, and lets the first file with an ID claim it. */
  method Discover(roots: seq<Root>, limits: ScanLimits) returns (taken: seq<seq<Path>>, claims: map<string, Candidate>)
    ensures taken == ShareOut(roots[..RootCount(roots, limits)], limits.entries, limits.files)
    ensures claims == Claims(Line(taken))
    ensures ClaimsReal(roots, limits, claims) && ClaimsComplete(roots, limits, claims)
  {
    hide TakenFrom, DemandOf, ShareOut, Claims, Line, Shared, DivCeil, ClaimsReal, ClaimsComplete;
    var remaining: nat := limits.files;
    var count := if |roots| < limits.roots then |roots| else limits.roots;
    ghost var considered := roots[..count];
    taken, claims := [], map[];
    SharedStart(considered, limits.entries, limits.files);
    for i := 0 to count
      invariant |taken| == i && claims == Claims(Line(taken))
      invariant Shared(considered, limits.entries, limits.files, taken, remaining)
    {
      var files := ScanRoot(roots[i], limits.entries, DivCeil(remaining, count - i));
      SharedStep(considered, limits.entries, limits.files, taken, remaining, files);
      remaining := remaining - |files|;
      claims := ClaimAll(claims, Line(taken), i, files);
      LineMore(taken, files);
      taken := taken + [files];
    }
    SharedDone(considered, limits.entries, limits.files, taken, remaining);
    ClaimsMean(roots, limits);
  }

  /** The roots so far have taken their shares, and the rest share what remains. */
  ghost predicate Shared(roots: seq<Root>, entries: nat, limit: nat, taken: seq<seq<Path>>, remaining: nat) {
    |taken| <= |roots| && ShareOut(roots, entries, limit) == taken + ShareOut(roots[|taken|..], entries, remaining)
  }

  lemma SharedStart(roots: seq<Root>, entries: nat, limit: nat)
    ensures Shared(roots, entries, limit, [], limit) && Claims(Line([])) == map[]
  {
    hide ShareOut;
    assert roots[0..] == roots && [] + ShareOut(roots, entries, limit) == ShareOut(roots, entries, limit);
  }

  lemma SharedStep(roots: seq<Root>, entries: nat, limit: nat, taken: seq<seq<Path>>, remaining: nat, files: seq<Path>)
    requires Shared(roots, entries, limit, taken, remaining) && |taken| < |roots|
    requires files == TakenFrom(roots[|taken|], entries, DivCeil(remaining, |roots| - |taken|))
    ensures |files| <= remaining && Shared(roots, entries, limit, taken + [files], remaining - |files|)
  {
    hide ShareOut, TakenFrom, DivCeil;
    var rest := roots[|taken|..];
    ShareStep(rest, entries, remaining);
    assert rest[0] == roots[|taken|] && rest[1..] == roots[|taken| + 1..];
    Regroup(taken, [files], ShareOut(rest[1..], entries, remaining - |files|));
  }

  lemma SharedDone(roots: seq<Root>, entries: nat, limit: nat, taken: seq<seq<Path>>, remaining: nat)
    requires Shared(roots, entries, limit, taken, remaining) && |taken| == |roots|
    ensures taken == ShareOut(roots, entries, limit)
  {
    hide ShareOut;
    NothingShared(roots[|taken|..], entries, remaining);
    assert taken + [] == taken;
  }

  lemma LineMore(taken: seq<seq<Path>>, files: seq<Path>)
    ensures Line(taken + [files]) == Line(taken) + FromRoot(|taken|, files)
  {
    hide FromRoot;
    assert (taken + [files])[..|taken|] == taken;
  }

  lemma NothingShared(roots: seq<Root>, entries: nat, remaining: nat)
    requires roots == []
    ensures ShareOut(roots, entries, remaining) == []
  {
  }

  lemma ShareStep(roots: seq<Root>, entries: nat, remaining: nat)
    requires roots != []
    ensures
      var taken := TakenFrom(roots[0], entries, DivCeil(remaining, |roots|));
      |taken| <= remaining && ShareOut(roots, entries, remaining) == [taken] + ShareOut(roots[1..], entries, remaining - |taken|)
  {
    hide TakenFrom, DemandOf;
    var quota := DivCeil(remaining, |roots|);
    TakenIsShare(roots[0], entries, quota);
    CeilShare(remaining, |roots|, |TakenFrom(roots[0], entries, quota)|);
  }

  method ScanRoot(root: Root, entries: nat, quota: nat) returns (files: seq<Path>)
    ensures files == TakenFrom(root, entries, quota)
  {
    hide Scan;
    if !root.Real? {
      return [];
    }
    var scan := new RootScan(Limits(entries, quota));
    scan.CollectDesktopFiles(root.listing, [], 0);
    return scan.files;
  }

  method ClaimAll(before: map<string, Candidate>, ghost line: seq<Candidate>, root: nat, files: seq<Path>) returns (claims: map<string, Candidate>)
    requires before == Claims(line)
    ensures claims == Claims(line + FromRoot(root, files))
  {
    hide IdOf, Claims, FromRoot;
    claims := before;
    ghost var mine := FromRoot(root, files);
    FromRootAt(root, files);
    assert line + mine[..0] == line;
    for j := 0 to |files|
      invariant claims == Claims(line + mine[..j])
    {
      ClaimNext(line, mine, j);
      var id := IdOf(files[j]);
      if id.Some? && id.value !in claims {
        claims := claims[id.value := Candidate(root, files[j])];
      }
    }
    assert mine[..|files|] == mine;
  }

  lemma FromRootAt(root: nat, files: seq<Path>)
    ensures |FromRoot(root, files)| == |files|
    ensures forall j | 0 <= j < |files| :: FromRoot(root, files)[j] == Candidate(root, files[j])
  {
  }

  lemma ClaimNext(line: seq<Candidate>, mine: seq<Candidate>, j: nat)
    requires j < |mine|
    ensures Claims(line + mine[..j + 1]) == Claim(Claims(line + mine[..j]), mine[j])
  {
    hide Claim;
    assert (line + mine[..j + 1])[..|line| + j] == line + mine[..j];
  }
}
