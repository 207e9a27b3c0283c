// Names for desktop items: validation, and the free name a "keep both" paste picks.
module DesktopNames {
  import opened Wrappers
  import opened Text
  import opened FileTree

  datatype DesktopError =
    | InvalidName | NameTooLong | Missing | UnsupportedType | Collision | Cancelled
    | TraversalLimit | SourceRemovalAfterCopy | Io

  const MAX_NAME_BYTES: nat := 255
  const MAX_COPIES: nat := 9999

  function ValidateName(name: Name): Option<DesktopError> {
    if name == "" || name == "." || name == ".." || '/' in name then Some(InvalidName)
    else if |name| > MAX_NAME_BYTES then Some(NameTooLong)
    else if '\0' in name then Some(InvalidName)
    else None
  }

  /** Position of the last dot, or -1. */
  function LastDot(name: Name): (at: int)
    ensures -1 <= at < |name|
    ensures at >= 0 ==> name[at] == '.'
    ensures forall i | at < i < |name| :: name[i] != '.'
  {
    if name == "" then -1
    else if name[|name| - 1] == '.' then |name| - 1
    else LastDot(name[..|name| - 1])
  }

  /** A leading dot starts a hidden name, not an extension. */
  function Extension(name: Name): Option<string> {
    var at := LastDot(name);
    if at <= 0 then None else Some(name[at + 1..])
  }

  function Stem(name: Name): string {
    var at := LastDot(name);
    if at <= 0 then name else name[..at]
  }

  function Suffix(index: nat): string {
    if index == 1 then " (copy)" else " (copy " + Decimal(index) + ")"
  }

  function ExtensionPart(preferred: Name): string {
    match Extension(preferred)
    case Some(extension) => "." + extension
    case None => ""
  }

  function KeptStem(preferred: Name, index: nat): string {
    var taken := |Suffix(index)| + |ExtensionPart(preferred)|;
    var room := if taken <= MAX_NAME_BYTES then MAX_NAME_BYTES - taken else 0;
    var stem := Stem(preferred);
    if |stem| <= room then stem else stem[..room]
  }

  /** The name tried for copy number `index`. */
  function Candidate(preferred: Name, index: nat): Name {
    KeptStem(preferred, index) + Suffix(index) + ExtensionPart(preferred)
  }

  /** The first candidate, from `index` on, that no entry uses. */
  function FirstFree(names: set<Name>, preferred: Name, index: nat): Result<Name, DesktopError>
    decreases MAX_COPIES + 1 - index
  {
    if index > MAX_COPIES then Failure(Collision)
    else
      var candidate := Candidate(preferred, index);
      match ValidateName(candidate)
      case Some(error) => Failure(error)
      case None => if candidate !in names then Success(candidate) else FirstFree(names, preferred, index + 1)
  }

  function KeepBothResult(names: set<Name>, preferred: Name): Result<Name, DesktopError> {
    match ValidateName(preferred)
    case Some(error) => Failure(error)
    case None => if preferred !in names then Success(preferred) else FirstFree(names, preferred, 1)
  }

  datatype CollisionChoice = Replace | KeepBoth | Cancel

  function DestinationName(names: set<Name>, preferred: Name, choice: CollisionChoice): Result<Name, DesktopError> {
    if preferred !in names then Success(preferred)
    else
      match choice
      case Cancel => Failure(Cancelled)
      case Replace => Success(preferred)
      case KeepBoth => KeepBothResult(names, preferred)
  }

  // ---------------------------------------------------------------- properties

  /** An acceptable name can stand for one entry of a directory, and for nothing else. */
  lemma NameExact(name: Name)
    ensures ValidateName(name).None? <==>
      1 <= |name| <= MAX_NAME_BYTES && name != "." && name != ".." && forall c <- name :: c != '/' && c != '\0'
    ensures ValidateName(name) == Some(NameTooLong) <==> |name| > MAX_NAME_BYTES && '/' !in name
    ensures ValidateName(name).Some? ==> ValidateName(name).value.NameTooLong? || ValidateName(name).value.InvalidName?
  {
  }

  /** The start of a stem that leaves room for what follows it. */
  function Leaving(stem: string, rest: string): string {
    if |stem| + |rest| <= MAX_NAME_BYTES then stem else if |rest| <= MAX_NAME_BYTES then stem[..MAX_NAME_BYTES - |rest|] else ""
  }

  lemma SplitAtLastDot(stem: string, extension: string)
    requires stem != "" && '.' !in extension
    ensures Stem(stem + "." + extension) == stem && ExtensionPart(stem + "." + extension) == "." + extension
  {
    hide LastDot;
    var name := stem + "." + extension;
    assert name[|stem|] == '.' && name[|stem| + 1..] == extension && name[..|stem|] == stem;
    assert forall i | |stem| < i < |name| :: name[i] == extension[i - |stem| - 1];
    assert LastDot(name) == |stem|;
  }

  /** What the copies of a name with an extension are called: the copy number comes before the extension. */
  lemma CopySpelling(stem: string, extension: string, index: nat)
    requires stem != "" && '.' !in extension && index >= 1
    ensures var copy := (if index == 1 then " (copy)" else " (copy " + Decimal(index) + ")") + ("." + extension);
      Candidate(stem + "." + extension, index) == Leaving(stem, copy) + copy
  {
    hide LastDot, Decimal, Stem, ExtensionPart;
    var name := stem + "." + extension;
    SplitAtLastDot(stem, extension);
    KeptStemLeaves(name, index);
    Regroup(KeptStem(name, index), Suffix(index), "." + extension);
  }

  /** And those of a name without one: a dot it begins with counts for nothing. */
  lemma CopySpellingBare(name: Name, index: nat)
    requires index >= 1 && forall i | 0 < i < |name| :: name[i] != '.'
    ensures var copy := if index == 1 then " (copy)" else " (copy " + Decimal(index) + ")";
      Candidate(name, index) == Leaving(name, copy) + copy
  {
    hide LastDot, Decimal;
    assert LastDot(name) <= 0;
    KeptStemLeaves(name, index);
    assert Suffix(index) + "" == Suffix(index);
    assert KeptStem(name, index) + Suffix(index) + "" == KeptStem(name, index) + Suffix(index);
  }

  lemma KeptStemLeaves(name: Name, index: nat)
    ensures KeptStem(name, index) == Leaving(Stem(name), Suffix(index) + ExtensionPart(name))
  {
    hide LastDot, Suffix, Stem, ExtensionPart;
    assert Stem(name)[..0] == "";
  }

  lemma SuffixShape(index: nat)
    requires index >= 1
    ensures |Suffix(index)| >= 7
    ensures forall c <- Suffix(index) :: c != '/' && c != '\0' && c != '.'
  {
    hide Decimal, DecimalValue;
    DecimalReads(index);
    var open, digits := " (copy ", Decimal(index);
    assert forall c <- open :: c != '/' && c != '\0' && c != '.';
    assert forall c <- digits :: IsDigit(c);
    assert index == 1 || Suffix(index) == open + digits + ")";
  }

  /** Different copy numbers give different names, however the stem is cut. */
  lemma CandidatesDiffer(preferred: Name, i: nat, j: nat)
    requires 1 <= i < j
    ensures Candidate(preferred, i) != Candidate(preferred, j)
  {
    hide Decimal, DecimalValue, KeptStem, ExtensionPart;
    var x, y := KeptStem(preferred, i) + Suffix(i), KeptStem(preferred, j) + Suffix(j);
    var part := ExtensionPart(preferred);
    assert x == (x + part)[..|x + part| - |part|] && y == (y + part)[..|y + part| - |part|];
    DecimalReads(i);
    DecimalReads(j);
    var v := KeptStem(preferred, j) + " (copy";
    assert y == v + " " + Decimal(j) + ")";
    if i == 1 {
      assert x[|x| - 2] == 'y';
      assert y[|y| - 2] == Decimal(j)[|Decimal(j)| - 1];
      assert IsDigit(y[|y| - 2]);
    } else {
      var u := KeptStem(preferred, i) + " (copy";
      assert x == u + " " + Decimal(i) + ")";
      TrailingDigits(u, Decimal(i), v, Decimal(j));
      assert Decimal(i) != Decimal(j) by {
        if Decimal(i) == Decimal(j) {
          DecimalInjective(i, j);
        }
      }
    }
  }

  /** A candidate is an acceptable name exactly when suffix and extension leave room for it. */
  lemma CandidateValid(preferred: Name, index: nat)
    requires ValidateName(preferred).None? && index >= 1
    ensures ValidateName(Candidate(preferred, index)) ==
      if |Suffix(index)| + |ExtensionPart(preferred)| <= MAX_NAME_BYTES then None else Some(NameTooLong)
  {
    hide Suffix, LastDot;
    SuffixShape(index);
    var suffix, stem, part := Suffix(index), KeptStem(preferred, index), ExtensionPart(preferred);
    assert forall c <- stem :: c in preferred;
    assert forall c <- part :: c == '.' || c in preferred;
    var name := stem + suffix + part;
    assert |name| >= 7;
    assert forall c <- name :: c in stem || c in suffix || c in part;
  }

  /** A candidate keeps the extension, or the absence of one. */
  lemma CandidateExtension(preferred: Name, index: nat)
    requires index >= 1
    ensures Extension(Candidate(preferred, index)) == Extension(preferred)
  {
    hide Suffix, LastDot, KeptStem;
    SuffixShape(index);
    var suffix, stem := Suffix(index), KeptStem(preferred, index);
    match Extension(preferred) {
      case Some(extension) =>
        ExtensionHasNoDot(preferred);
        ExtensionAfter(stem + suffix, extension);
      case None =>
        KeptStemHasNoDot(preferred, index);
        NoExtension(stem, suffix);
        assert stem + suffix + "" == stem + suffix;
    }
  }

  lemma ExtensionHasNoDot(preferred: Name)
    requires Extension(preferred).Some?
    ensures '.' !in Extension(preferred).value
  {
    hide LastDot;
    var extension := Extension(preferred).value;
    assert forall i | 0 <= i < |extension| :: extension[i] == preferred[LastDot(preferred) + 1 + i];
  }

  lemma ExtensionAfter(front: string, extension: string)
    requires front != "" && '.' !in extension
    ensures Extension(front + ("." + extension)) == Some(extension)
  {
    hide LastDot;
    var name := front + ("." + extension);
    assert name[|front|] == '.' && name[|front| + 1..] == extension;
    assert forall i | |front| < i < |name| :: name[i] == extension[i - |front| - 1];
  }

  /** What is kept of a name without an extension has no dot but perhaps its first character. */
  lemma KeptStemHasNoDot(preferred: Name, index: nat)
    requires Extension(preferred).None?
    ensures forall i | 0 < i < |KeptStem(preferred, index)| :: KeptStem(preferred, index)[i] != '.'
  {
    hide LastDot, Suffix;
  }

  lemma NoExtension(stem: string, suffix: string)
    requires forall i | 0 < i < |stem| :: stem[i] != '.'
    requires suffix != "" && forall c <- suffix :: c != '.'
    ensures Extension(stem + suffix).None?
  {
    hide LastDot;
    var name := stem + suffix;
    assert forall i | |stem| <= i < |name| :: name[i] in suffix;
    assert forall i | 0 < i < |name| :: name[i] != '.';
  }

  lemma {:induction false} FirstFreeFound(names: set<Name>, preferred: Name, index: nat)
    requires ValidateName(preferred).None? && 1 <= index
    ensures var r := FirstFree(names, preferred, index);
      && (r.Success? ==> (exists i :: (index <= i <= MAX_COPIES && r.value == Candidate(preferred, i) &&
            forall j | index <= j < i :: Candidate(preferred, j) in names)))
      && (r.Success? ==>
            (r.value !in names && ValidateName(r.value).None? && Extension(r.value) == Extension(preferred)))
      && (r == Failure(Collision) ==> forall i | index <= i <= MAX_COPIES :: Candidate(preferred, i) in names)
      && (r.Failure? ==> r.error.Collision? || r.error.NameTooLong?)
    decreases MAX_COPIES + 1 - index
  {
    hide ValidateName, Candidate, Extension;
    if index <= MAX_COPIES {
      var candidate := Candidate(preferred, index);
      CandidateValid(preferred, index);
      CandidateExtension(preferred, index);
      if ValidateName(candidate).None? && candidate in names {
        FirstFreeFound(names, preferred, index + 1);
      }
    }
  }

  /** Whatever name is picked is free and acceptable, and a changed name keeps its extension. */
  lemma KeepBothFresh(names: set<Name>, preferred: Name)
    requires KeepBothResult(names, preferred).Success?
    ensures var name := KeepBothResult(names, preferred).value;
      name !in names && ValidateName(name).None? && |name| <= MAX_NAME_BYTES
      && Extension(name) == Extension(preferred) && (preferred !in names ==> name == preferred)
  {
    if preferred in names {
      FirstFreeFound(names, preferred, 1);
    }
  }

  /** The names tried, as a set as large as the number of tries. */
  lemma {:induction false} ManyCandidates(preferred: Name, count: nat) returns (tried: set<Name>)
    ensures |tried| == count
    ensures forall name :: name in tried <==> exists i :: 1 <= i <= count && name == Candidate(preferred, i)
  {
    hide Candidate;
    if count == 0 {
      tried := {};
    } else {
      var fewer := ManyCandidates(preferred, count - 1);
      forall i | 1 <= i < count ensures Candidate(preferred, i) != Candidate(preferred, count) {
        CandidatesDiffer(preferred, i, count);
      }
      tried := fewer + {Candidate(preferred, count)};
    }
  }

  /** Copy number `i` is the first whose name is free, and its name is acceptable. */
  ghost predicate FirstCopy(names: set<Name>, preferred: Name, i: nat) {
    && 1 <= i <= MAX_COPIES && Candidate(preferred, i) !in names && ValidateName(Candidate(preferred, i)).None?
    && forall j | 1 <= j < i :: Candidate(preferred, j) in names
  }

  /** What becomes of an occupied name: it is given up, replaced or left alone, as was chosen; a free name is taken. */
  lemma ChoiceExact(names: set<Name>, preferred: Name, choice: CollisionChoice)
    requires ValidateName(preferred).None?
    ensures var r := DestinationName(names, preferred, choice);
      && (r == Failure(Cancelled) <==> preferred in names && choice.Cancel?)
      && (r.Success? ==> (r.value in names <==> preferred in names && choice.Replace?))
      && (preferred !in names || choice.Replace? ==> r == Success(preferred))
      && (preferred in names && choice.KeepBoth? ==>
            if r.Success? then exists i :: FirstCopy(names, preferred, i) && r.value == Candidate(preferred, i)
            else r.error.Collision? || r.error.NameTooLong?)
  {
    hide ValidateName, Candidate;
    FirstFreeFound(names, preferred, 1);
    if preferred in names && choice.KeepBoth? && FirstFree(names, preferred, 1).Success? {
      var r := FirstFree(names, preferred, 1);
      var i :| 1 <= i <= MAX_COPIES && r.value == Candidate(preferred, i) && forall j | 1 <= j < i :: Candidate(preferred, j) in names;
      assert FirstCopy(names, preferred, i);
    }
  }

  /** A directory with fewer entries than there are tries always has a free name. */
  lemma KeepBothNeverCollides(names: set<Name>, preferred: Name)
    requires |names| < MAX_COPIES
    ensures KeepBothResult(names, preferred) != Failure(Collision)
  {
    if KeepBothResult(names, preferred) == Failure(Collision) {
      FirstFreeFound(names, preferred, 1);
      var tried := ManyCandidates(preferred, MAX_COPIES);
      SubsetSize(tried, names);
      assert false;
    }
  }

  /** The extension leaves room for copy number `i`. */
  predicate Fits(preferred: Name, i: nat) {
    |Suffix(i)| + |ExtensionPart(preferred)| <= MAX_NAME_BYTES
  }

  /** Trying copy number `i` ends the search: the name is too long, or free. */
  predicate Stops(names: set<Name>, preferred: Name, i: nat) {
    !Fits(preferred, i) || Candidate(preferred, i) !in names
  }

  ghost predicate FirstStop(names: set<Name>, preferred: Name, index: nat, i: nat) {
    index <= i <= MAX_COPIES && Stops(names, preferred, i) && forall j: nat | index <= j < i :: !Stops(names, preferred, j)
  }

  /** The search ends at the first copy number that is too long or free, and with a collision if there is none. */
  lemma {:induction false} FirstFreeExact(names: set<Name>, preferred: Name, index: nat)
    requires ValidateName(preferred).None? && index >= 1
    ensures FirstFree(names, preferred, index) == Failure(Collision)
      <==> forall i: nat | index <= i <= MAX_COPIES :: !Stops(names, preferred, i)
    ensures forall i: nat | FirstStop(names, preferred, index, i) ::
      FirstFree(names, preferred, index) == if Fits(preferred, i) then Success(Candidate(preferred, i)) else Failure(NameTooLong)
    decreases MAX_COPIES + 1 - index
  {
    hide ValidateName, Candidate, Suffix, ExtensionPart;
    if index <= MAX_COPIES {
      CandidateValid(preferred, index);
      if !Stops(names, preferred, index) {
        FirstFreeExact(names, preferred, index + 1);
        forall i: nat | FirstStop(names, preferred, index, i) ensures FirstStop(names, preferred, index + 1, i) {
        }
      }
    }
  }

  /** The extension alone decides whether a name can become too long. */
  lemma KeepBothRoom(names: set<Name>, preferred: Name)
    requires ValidateName(preferred).None? && preferred in names
    ensures |ExtensionPart(preferred)| > 248 ==> KeepBothResult(names, preferred) == Failure(NameTooLong)
    ensures |ExtensionPart(preferred)| <= 243 ==> KeepBothResult(names, preferred) != Failure(NameTooLong)
  {
    CandidateValid(preferred, 1);
    if |ExtensionPart(preferred)| <= 243 {
      ShortExtension(names, preferred, 1);
    }
  }

  lemma {:induction false} ShortExtension(names: set<Name>, preferred: Name, index: nat)
    requires ValidateName(preferred).None? && |ExtensionPart(preferred)| <= 243 && index >= 1
    ensures FirstFree(names, preferred, index) != Failure(NameTooLong)
    decreases MAX_COPIES + 1 - index
  {
    if index <= MAX_COPIES {
      CandidateValid(preferred, index);
      FourDigits(index);
      ShortExtension(names, preferred, index + 1);
    }
  }

  lemma FourDigits(n: nat)
    requires n <= MAX_COPIES
    ensures |Decimal(n)| <= 4
  {
    assert n / 1000 < 10;
    assert n / 10 / 10 / 10 == n / 1000;
    assert |Decimal(n / 10 / 10 / 10)| == 1;
    assert n / 10 / 10 < 10 || |Decimal(n / 10 / 10)| <= 2;
    assert n / 10 < 10 || |Decimal(n / 10)| <= 3;
  }
}
