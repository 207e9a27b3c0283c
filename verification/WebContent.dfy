// Telling trusted elements from web content, and what an element predicate may conclude from them.
module WebContent {
  import opened Wrappers
  import opened VerifyPolling

  const WALK_LIMIT: nat := 32

  datatype Json = Null | Bool(flag: bool) | Number(number: int) | Text(text: string)

  datatype Element = Element(
    index: Option<nat>,
    parent: Option<nat>,
    marked: bool,
    role: Option<string>,
    name: Option<string>,
    value: Option<Json>,
    enabled: Option<Json>,
    selected: Option<Json>)

  function LowerCase(role: string): string {
    seq(|role|, i requires 0 <= i < |role| => if 'A' <= role[i] <= 'Z' then (role[i] as int + 32) as char else role[i])
  }

  function Squeezed(role: string): string {
    if role == "" then ""
    else if role[0] == '_' || role[0] == ' ' then Squeezed(role[1..])
    else [role[0]] + Squeezed(role[1..])
  }

  predicate Contains(text: string, needle: string) {
    needle <= text || (text != "" && Contains(text[1..], needle))
  }

  predicate WebRole(role: string) {
    var normalized := Squeezed(LowerCase(role));
    Contains(normalized, "webarea") || Contains(normalized, "document") || normalized == "embedded"
  }

  predicate IsWeb(element: Element) {
    element.marked || (element.role.Some? && WebRole(element.role.value))
  }

  /** The text is the word, but for capitals, spaces and underscores. */
  predicate Reads(text: string, word: string) {
    if text == "" then word == ""
    else if text[0] == ' ' || text[0] == '_' then Reads(text[1..], word)
    else word != "" && word[0] == Small(text[0]) && Reads(text[1..], word[1..])
  }

  function Small(c: char): char {
    if 'A' <= c <= 'Z' then (c as int + 32) as char else c
  }

  ghost predicate HoldsWord(role: string, word: string) {
    exists a: string, b: string, c: string :: Reads(b, word) && role == Three(a, b, c)
  }

  function Three(a: string, b: string, c: string): string {
    a + (b + c)
  }

  function Normal(role: string): string {
    Squeezed(LowerCase(role))
  }

  lemma {:induction false} ReadsExact(text: string, word: string)
    ensures Reads(text, word) <==> Normal(text) == word
  {
    if text != "" {
      LowerStep(text);
      ReadsExact(text[1..], word);
      if word != "" {
        ReadsExact(text[1..], word[1..]);
        assert word == [word[0]] + word[1..];
      }
    }
  }

  lemma LowerStep(text: string)
    requires text != ""
    ensures LowerCase(text) == [Small(text[0])] + LowerCase(text[1..])
  {
  }

  lemma {:induction false} NormalJoin(a: string, b: string)
    ensures Normal(a + b) == Normal(a) + Normal(b)
  {
    if a == "" {
      assert a + b == b;
    } else {
      LowerStep(a);
      LowerStep(a + b);
      assert (a + b)[1..] == a[1..] + b;
      NormalJoin(a[1..], b);
    }
  }

  /** What begins the normal form comes from what begins the text. */
  lemma {:induction false} NormalSplit(text: string, front: string) returns (k: nat)
    requires front <= Normal(text)
    ensures k <= |text| && Normal(text[..k]) == front && Normal(text[k..]) == Normal(text)[|front|..]
  {
    if front == "" {
      k := 0;
      assert text[0..] == text && Normal("") == "";
    } else {
      LowerStep(text);
      var rest := if text[0] == ' ' || text[0] == '_' then front else front[1..];
      var more := NormalSplit(text[1..], rest);
      k := more + 1;
      assert text[..k] == [text[0]] + text[1..][..more] && text[k..] == text[1..][more..];
      NormalJoin([text[0]], text[1..][..more]);
      NormalOne(text[0]);
      assert [text[0]] + text[1..] == text;
      NormalJoin([text[0]], text[1..]);
    }
  }

  lemma NormalOne(c: char)
    ensures Normal([c]) == if c == ' ' || c == '_' then "" else [Small(c)]
  {
    var lower := LowerCase([c]);
    assert lower == [Small(c)] && lower[1..] == "";
    assert Squeezed(lower[1..]) == "";
  }

  lemma {:induction false} ContainsAt(text: string, needle: string) returns (k: nat)
    requires Contains(text, needle)
    ensures k <= |text| && needle <= text[k..]
  {
    if needle <= text {
      k := 0;
      assert text[0..] == text;
    } else {
      k := ContainsAt(text[1..], needle);
      k := k + 1;
    }
  }

  lemma {:induction false} ContainedAt(front: string, needle: string, rest: string)
    ensures Contains(front + (needle + rest), needle)
  {
    if front == "" {
      assert front + (needle + rest) == needle + rest;
    } else {
      ContainedAt(front[1..], needle, rest);
      assert (front + (needle + rest))[1..] == front[1..] + (needle + rest);
    }
  }

  lemma HoldsWordExact(role: string, word: string)
    ensures Contains(Normal(role), word) <==> HoldsWord(role, word)
  {
    hide Reads, Normal, Contains;
    if Contains(Normal(role), word) {
      var k := ContainsAt(Normal(role), word);
      var i := NormalSplit(role, Normal(role)[..k]);
      var j := NormalSplit(role[i..], word);
      ReadsExact(role[i..][..j], word);
      assert role == Three(role[..i], role[i..][..j], role[i..][j..]);
    }
    if a: string, b: string, c: string :| Reads(b, word) && role == Three(a, b, c) {
      ReadsExact(b, word);
      NormalJoin(a, b + c);
      NormalJoin(b, c);
      ContainedAt(Normal(a), word, Normal(c));
    }
  }

  /** An element is web content when it says so, or when its role reads "embedded" or has "web area" or "document" in it. */
  lemma WebExact(element: Element)
    ensures IsWeb(element) <==>
      (element.marked || (element.role.Some?
        && (HoldsWord(element.role.value, "webarea") || HoldsWord(element.role.value, "document") || Reads(element.role.value, "embedded"))))
  {
    hide Squeezed, LowerCase, Reads, Contains, HoldsWord;
    if element.role.Some? {
      HoldsWordExact(element.role.value, "webarea");
      HoldsWordExact(element.role.value, "document");
      ReadsExact(element.role.value, "embedded");
    }
  }

  // ---- Ancestors

  /** Elements by index; of several with one index the last counts. */
  function Table(elements: seq<Element>): map<nat, Element> {
    if elements == [] then map[]
    else
      var last := elements[|elements| - 1];
      var before := Table(elements[..|elements| - 1]);
      if last.index.Some? then before[last.index.value := last] else before
  }

  function ParentOf(element: Element, table: map<nat, Element>): Option<Element> {
    if element.parent.Some? && element.parent.value in table then Some(table[element.parent.value]) else None
  }

  function Ancestor(element: Element, table: map<nat, Element>, n: nat): Option<Element> {
    if n == 0 then Some(element)
    else
      var below := Ancestor(element, table, n - 1);
      if below.Some? then ParentOf(below.value, table) else None
  }

  predicate WebAt(element: Element, table: map<nat, Element>, n: nat) {
    Ancestor(element, table, n).Some? && IsWeb(Ancestor(element, table, n).value)
  }

  predicate InWebArea(element: Element, elements: seq<Element>) {
    exists n: nat | n < WALK_LIMIT :: WebAt(element, Table(elements), n)
  }

  /** The last element with an index. */
  ghost predicate LastWith(elements: seq<Element>, index: nat, k: nat) {
    && k < |elements| && elements[k].index == Some(index)
    && forall later | k < later < |elements| :: elements[later].index != Some(index)
  }

  lemma {:induction false} TableIsLast(elements: seq<Element>, index: nat)
    ensures forall k: nat | LastWith(elements, index, k) :: index in Table(elements) && Table(elements)[index] == elements[k]
    ensures index in Table(elements) ==> exists k: nat :: LastWith(elements, index, k)
  {
    if elements != [] {
      var n := |elements| - 1;
      TableIsLast(elements[..n], index);
      if elements[n].index == Some(index) {
        assert LastWith(elements, index, n);
      } else {
        forall k: nat | LastWith(elements, index, k) ensures LastWith(elements[..n], index, k) {
        }
        forall k: nat | LastWith(elements[..n], index, k) ensures LastWith(elements, index, k) {
        }
      }
    }
  }

  method BuildTable(elements: seq<Element>) returns (table: map<nat, Element>)
    ensures table == Table(elements)
    ensures forall index: nat, k: nat | LastWith(elements, index, k) :: index in table && table[index] == elements[k]
    ensures forall index <- table :: exists k: nat :: LastWith(elements, index, k)
  {
    table := map[];
    for i := 0 to |elements|
      invariant table == Table(elements[..i])
    {
      assert elements[..i + 1][..i] == elements[..i];
      if elements[i].index.Some? {
        table := table[elements[i].index.value := elements[i]];
      }
    }
    assert elements[..|elements|] == elements;
    forall index: nat
      ensures forall k: nat | LastWith(elements, index, k) :: index in table && table[index] == elements[k]
      ensures index in table ==> exists k: nat :: LastWith(elements, index, k)
    {
      TableIsLast(elements, index);
    }
  }

  method TargetIsInWebArea(target: Element, elements: seq<Element>) returns (inside: bool)
    ensures inside <==> InWebArea(target, elements)
  {
    var table := BuildTable(elements);
    var current := Some(target);
    for n := 0 to WALK_LIMIT
      invariant current == Ancestor(target, table, n)
      invariant forall m: nat | m < n :: !WebAt(target, table, m)
    {
      if current.None? {
        NoneAbove(target, table, n);
        return false;
      }
      if IsWeb(current.value) {
        assert WebAt(target, table, n);
        return true;
      }
      current := ParentOf(current.value, table);
    }
    return false;
  }

  lemma {:induction false} NoneAbove(element: Element, table: map<nat, Element>, n: nat)
    requires Ancestor(element, table, n).None?
    ensures forall m: nat | m >= n :: !WebAt(element, table, m)
  {
    forall m: nat | m >= n ensures !WebAt(element, table, m) {
      StaysNone(element, table, n, m);
    }
  }

  lemma {:induction false} StaysNone(element: Element, table: map<nat, Element>, n: nat, m: nat)
    requires Ancestor(element, table, n).None? && n <= m
    ensures Ancestor(element, table, m).None?
  {
    if n < m {
      StaysNone(element, table, n, m - 1);
    }
  }

  // ---- How far the walk reaches

  /** Equal ancestors have equal ancestors. */
  lemma {:induction false} SameAbove(element: Element, table: map<nat, Element>, a: nat, b: nat, n: nat)
    requires Ancestor(element, table, a) == Ancestor(element, table, b)
    ensures Ancestor(element, table, a + n) == Ancestor(element, table, b + n)
  {
    if n > 0 {
      SameAbove(element, table, a, b, n - 1);
    }
  }

  /** The index under which ancestor `n` was found. */
  function FoundAt(element: Element, table: map<nat, Element>, n: nat): nat
    requires n > 0 && Ancestor(element, table, n).Some?
  {
    Ancestor(element, table, n - 1).value.parent.value
  }

  /** The indexes on the way up to ancestor `n`. */
  ghost function Path(element: Element, table: map<nat, Element>, n: nat): (path: set<nat>)
    requires Ancestor(element, table, n).Some?
    ensures path <= table.Keys
    ensures forall i <- path :: exists m: nat | 0 < m <= n :: Ancestor(element, table, m).Some? && FoundAt(element, table, m) == i
    decreases n
  {
    if n == 0 then {} else Path(element, table, n - 1) + {FoundAt(element, table, n)}
  }

  /** Up to the nearest web ancestor no index repeats: a repeated one would give a nearer web ancestor. */
  lemma {:induction false} PathLength(element: Element, table: map<nat, Element>, n: nat, nearest: nat)
    requires n <= nearest && WebAt(element, table, nearest) && Ancestor(element, table, n).Some?
    requires forall m: nat | m < nearest :: !WebAt(element, table, m)
    ensures |Path(element, table, n)| == n
  {
    hide IsWeb, WebAt, Ancestor, FoundAt;
    if n > 0 {
      BelowIt(element, table, n);
      PathLength(element, table, n - 1, nearest);
      var i := FoundAt(element, table, n);
      if i in Path(element, table, n - 1) {
        var m: nat :| 0 < m <= n - 1 && Ancestor(element, table, m).Some? && FoundAt(element, table, m) == i;
        Shortcut(element, table, m, n, nearest);
      }
    }
  }

  lemma BelowIt(element: Element, table: map<nat, Element>, n: nat)
    requires n > 0 && Ancestor(element, table, n).Some?
    ensures Ancestor(element, table, n - 1).Some?
  {
  }

  lemma Shortcut(element: Element, table: map<nat, Element>, m: nat, n: nat, nearest: nat)
    requires 0 < m < n <= nearest && WebAt(element, table, nearest)
    requires Ancestor(element, table, m).Some? && Ancestor(element, table, n).Some?
    requires FoundAt(element, table, m) == FoundAt(element, table, n)
    ensures m + (nearest - n) < nearest && WebAt(element, table, m + (nearest - n))
  {
    hide IsWeb;
    SameAbove(element, table, m, n, nearest - n);
  }

  lemma {:induction false} NearestReached(element: Element, table: map<nat, Element>, n: nat)
    requires WebAt(element, table, n)
    ensures exists m: nat | m <= n && m <= |table| :: WebAt(element, table, m)
  {
    if m: nat :| m < n && WebAt(element, table, m) {
      NearestReached(element, table, m);
    } else {
      PathLength(element, table, n, n);
      SubsetSize(Path(element, table, n), table.Keys);
    }
  }

  /** With fewer than 32 different indexes the bounded walk finds every web ancestor, even when parents run in a circle. */
  lemma WalkReachesAll(element: Element, elements: seq<Element>)
    requires |Table(elements)| < WALK_LIMIT
    ensures InWebArea(element, elements) <==> exists n: nat :: WebAt(element, Table(elements), n)
  {
    if n: nat :| WebAt(element, Table(elements), n) {
      NearestReached(element, Table(elements), n);
    }
  }

  function Plain(n: nat): Element {
    Element(Some(n), Some(n + 1), false, None, None, None, None, None)
  }

  function Page(n: nat): Element {
    Element(Some(n), None, true, None, None, None, None, None)
  }

  /** `depth` nested plain elements below a page. */
  function Nested(depth: nat): seq<Element> {
    seq(depth + 1, i requires 0 <= i <= depth => if i < depth then Plain(i) else Page(depth))
  }

  lemma {:induction false} TableOfNested(depth: nat, n: nat)
    requires n <= depth + 1
    ensures Table(Nested(depth)[..n]) == map i: nat | i < n :: Nested(depth)[i]
  {
    if n > 0 {
      TableOfNested(depth, n - 1);
      assert Nested(depth)[..n][..n - 1] == Nested(depth)[..n - 1];
      NestedIndex(depth, n - 1);
    }
  }

  lemma NestedIndex(depth: nat, n: nat)
    requires n <= depth
    ensures Nested(depth)[n].index == Some(n)
    ensures Nested(depth)[n].parent == (if n < depth then Some(n + 1) else None)
    ensures IsWeb(Nested(depth)[n]) <==> n == depth
  {
  }

  lemma {:induction false} AncestorOfNested(depth: nat, n: nat)
    requires 0 < depth && n <= depth
    ensures Ancestor(Plain(0), Table(Nested(depth)), n) == Some(Nested(depth)[n])
  {
    TableOfNested(depth, depth + 1);
    assert Nested(depth)[..depth + 1] == Nested(depth);
    if n > 0 {
      AncestorOfNested(depth, n - 1);
      NestedIndex(depth, n - 1);
    }
  }

  /** The walk stops short of a page 32 or more levels up: content of the page then passes for trusted. */
  lemma DeepContentMissed(depth: nat)
    requires depth > 0
    ensures WebAt(Plain(0), Table(Nested(depth)), depth)
    ensures InWebArea(Nested(depth)[0], Nested(depth)) <==> depth < WALK_LIMIT
  {
    hide IsWeb;
    AncestorOfNested(depth, depth);
    NestedIndex(depth, depth);
    forall n: nat | n < depth ensures !WebAt(Plain(0), Table(Nested(depth)), n) {
      AncestorOfNested(depth, n);
      NestedIndex(depth, n);
    }
    forall n: nat | n > depth ensures !WebAt(Plain(0), Table(Nested(depth)), n) {
      NoneAbove(Plain(0), Table(Nested(depth)), depth + 1);
    }
  }

  // ---- Element predicates

  /** `valid`: the selector names a role or a label, neither of them blank. */
  datatype ElementPredicate = ElementPredicate(
    valid: bool,
    present: Option<bool>,
    matches: Element -> bool,
    value: Option<string>,
    enabled: Option<bool>,
    selected: Option<bool>)

  datatype Snapshot = Snapshot(window: bool, trusted: bool, elements: Option<seq<Element>>, complete: bool)

  datatype Finding = Finding(status: Verdict, reason: Option<Reason>)

  function Because(reason: Reason): Finding {
    Finding(Unknown, Some(reason))
  }

  function Selected(matches: Element -> bool, elements: seq<Element>): seq<Element> {
    if elements == [] then []
    else if matches(elements[0]) then [elements[0]] + Selected(matches, elements[1..])
    else Selected(matches, elements[1..])
  }

  /** The selected elements outside web areas of the whole listing. */
  function Trusted(selected: seq<Element>, elements: seq<Element>): seq<Element> {
    if selected == [] then []
    else if InWebArea(selected[0], elements) then Trusted(selected[1..], elements)
    else [selected[0]] + Trusted(selected[1..], elements)
  }

  function CompareField(actual: Option<Json>, expected: Option<Json>): Option<Finding> {
    if expected.None? then None
    else if actual.None? then Some(Because(UnsupportedPredicate))
    else if actual != expected then Some(Finding(Unsatisfied, None))
    else None
  }

  function CompareFields(wanted: ElementPredicate, element: Element): Finding {
    var value := CompareField(element.value, if wanted.value.Some? then Some(Text(wanted.value.value)) else None);
    var enabled := CompareField(element.enabled, if wanted.enabled.Some? then Some(Bool(wanted.enabled.value)) else None);
    var selected := CompareField(element.selected, if wanted.selected.Some? then Some(Bool(wanted.selected.value)) else None);
    if value.Some? then value.value
    else if enabled.Some? then enabled.value
    else if selected.Some? then selected.value
    else Finding(Satisfied, None)
  }

  predicate HasWebArea(elements: seq<Element>) {
    exists element <- elements :: InWebArea(element, elements)
  }

  function WhenAbsent(wanted: ElementPredicate, elements: seq<Element>, complete: bool): Finding {
    if HasWebArea(elements) then Because(UntrustedSource)
    else if !complete then Because(ObservationUnavailable)
    else if wanted.present == Some(true) then Finding(Unsatisfied, None)
    else Because(TargetMissing)
  }

  function EvaluateElement(wanted: ElementPredicate, snapshot: Snapshot): Finding {
    if wanted.present == Some(false) || !wanted.valid then Because(InvalidPredicate)
    else if !snapshot.window then Because(TargetMissing)
    else if !snapshot.trusted then Because(UntrustedSource)
    else if snapshot.elements.None? then Because(ObservationUnavailable)
    else
      var elements := snapshot.elements.value;
      var selected := Selected(wanted.matches, elements);
      if selected == [] then WhenAbsent(wanted, elements, snapshot.complete)
      else
        var trusted := Trusted(selected, elements);
        if trusted == [] then Because(UntrustedSource)
        else if |trusted| > 1 && (wanted.value.Some? || wanted.enabled.Some? || wanted.selected.Some?) then
          Because(MultiMatch)
        else if |trusted| > 1 then Finding(Satisfied, None)
        else CompareFields(wanted, trusted[0])
  }

  // ---- Web content has no say

  /** Two elements that hang in the tree alike. */
  predicate Alike(a: Element, b: Element) {
    a.index == b.index && a.parent == b.parent && (IsWeb(a) <==> IsWeb(b))
  }

  /** The same elements, but for what those inside web areas show. */
  ghost predicate SameOutsideWeb(a: seq<Element>, b: seq<Element>) {
    && |a| == |b|
    && (forall i | 0 <= i < |a| :: Alike(a[i], b[i]))
    && (forall i | 0 <= i < |a| :: InWebArea(a[i], a) || a[i] == b[i])
  }

  ghost predicate TablesAlike(a: map<nat, Element>, b: map<nat, Element>) {
    a.Keys == b.Keys && forall i <- a :: Alike(a[i], b[i])
  }

  lemma {:induction false} TableAlike(a: seq<Element>, b: seq<Element>)
    requires |a| == |b| && forall i | 0 <= i < |a| :: Alike(a[i], b[i])
    ensures TablesAlike(Table(a), Table(b))
  {
    if a != [] {
      TableAlike(a[..|a| - 1], b[..|b| - 1]);
    }
  }

  lemma {:induction false} AncestorAlike(x: Element, y: Element, a: map<nat, Element>, b: map<nat, Element>, n: nat)
    requires Alike(x, y) && TablesAlike(a, b)
    ensures Ancestor(x, a, n).Some? <==> Ancestor(y, b, n).Some?
    ensures Ancestor(x, a, n).Some? ==> Alike(Ancestor(x, a, n).value, Ancestor(y, b, n).value)
  {
    hide IsWeb;
    if n > 0 {
      AncestorAlike(x, y, a, b, n - 1);
    }
  }

  lemma WebAreaAlike(a: seq<Element>, b: seq<Element>, x: Element, y: Element)
    requires |a| == |b| && forall i | 0 <= i < |a| :: Alike(a[i], b[i])
    requires Alike(x, y)
    ensures InWebArea(x, a) <==> InWebArea(y, b)
  {
    hide IsWeb;
    TableAlike(a, b);
    forall n: nat ensures WebAt(x, Table(a), n) <==> WebAt(y, Table(b), n) {
      AncestorAlike(x, y, Table(a), Table(b), n);
      AlikeWeb(x, y, Table(a), Table(b), n);
    }
  }

  lemma AlikeWeb(x: Element, y: Element, a: map<nat, Element>, b: map<nat, Element>, n: nat)
    requires Alike(x, y) && TablesAlike(a, b)
    ensures WebAt(x, a, n) <==> WebAt(y, b, n)
  {
    AncestorAlike(x, y, a, b, n);
  }

  /** Rows of elements that differ at most where both lie in web areas leave the same trusted matches. */
  lemma {:induction false} TrustedAlike(matches: Element -> bool, a: seq<Element>, b: seq<Element>, x: seq<Element>, y: seq<Element>)
    requires |x| == |y|
    requires forall i | 0 <= i < |x| :: (InWebArea(x[i], a) <==> InWebArea(y[i], b)) && (InWebArea(x[i], a) || x[i] == y[i])
    ensures Trusted(Selected(matches, x), a) == Trusted(Selected(matches, y), b)
  {
    hide InWebArea;
    if x != [] {
      TrustedAlike(matches, a, b, x[1..], y[1..]);
      TrustedFirst(x[0], Selected(matches, x[1..]), a);
      TrustedFirst(y[0], Selected(matches, y[1..]), b);
    }
  }

  lemma TrustedFirst(first: Element, rest: seq<Element>, elements: seq<Element>)
    ensures Trusted([first] + rest, elements)
      == if InWebArea(first, elements) then Trusted(rest, elements) else [first] + Trusted(rest, elements)
  {
    hide InWebArea;
    assert ([first] + rest)[1..] == rest;
  }

  lemma {:induction false} NothingTrusted(selected: seq<Element>, elements: seq<Element>)
    ensures Trusted(selected, elements) == [] <==> forall e <- selected :: InWebArea(e, elements)
  {
    hide InWebArea;
    if selected != [] {
      NothingTrusted(selected[1..], elements);
      assert selected == [selected[0]] + selected[1..];
    }
  }

  lemma {:induction false} SelectedAmong(matches: Element -> bool, elements: seq<Element>)
    ensures forall e :: e in Selected(matches, elements) <==> e in elements && matches(e)
  {
    if elements != [] {
      SelectedAmong(matches, elements[1..]);
      assert elements == [elements[0]] + elements[1..];
    }
  }

  /** Without a trusted match, a listing with a web area settles nothing. */
  lemma UntrustedSettlesNothing(wanted: ElementPredicate, elements: seq<Element>, complete: bool)
    requires Trusted(Selected(wanted.matches, elements), elements) == [] && wanted.present != Some(false) && wanted.valid
    ensures
      EvaluateElement(wanted, Snapshot(true, true, Some(elements), complete))
      == if HasWebArea(elements) then Because(UntrustedSource) else WhenAbsent(wanted, elements, complete)
  {
    hide InWebArea;
    var selected := Selected(wanted.matches, elements);
    NothingTrusted(selected, elements);
    SelectedAmong(wanted.matches, elements);
    if selected != [] {
      assert selected[0] in selected;
    }
  }

  lemma HasWebAreaAlike(a: seq<Element>, b: seq<Element>)
    requires |a| == |b| && forall i | 0 <= i < |a| :: Alike(a[i], b[i])
    ensures HasWebArea(a) <==> HasWebArea(b)
  {
    hide InWebArea;
    forall i | 0 <= i < |a| ensures InWebArea(a[i], a) <==> InWebArea(b[i], b) {
      WebAreaAlike(a, b, a[i], b[i]);
    }
  }

  /** What web content shows - its labels, values and states - never changes what an element predicate reports. */
  lemma WebContentHasNoSay(wanted: ElementPredicate, window: bool, trusted: bool, complete: bool, a: seq<Element>, b: seq<Element>)
    requires SameOutsideWeb(a, b)
    ensures
      EvaluateElement(wanted, Snapshot(window, trusted, Some(a), complete))
      == EvaluateElement(wanted, Snapshot(window, trusted, Some(b), complete))
  {
    hide InWebArea, HasWebArea;
    forall i | 0 <= i < |a| ensures InWebArea(a[i], a) <==> InWebArea(b[i], b) {
      WebAreaAlike(a, b, a[i], b[i]);
    }
    HasWebAreaAlike(a, b);
    TrustedAlike(wanted.matches, a, b, a, b);
    if wanted.present != Some(false) && wanted.valid && Trusted(Selected(wanted.matches, a), a) == [] {
      UntrustedSettlesNothing(wanted, a, complete);
      UntrustedSettlesNothing(wanted, b, complete);
    }
  }

  // ---- What a finding means

  lemma {:induction false} TrustedAmong(selected: seq<Element>, elements: seq<Element>)
    ensures forall e :: e in Trusted(selected, elements) <==> e in selected && !InWebArea(e, elements)
  {
    hide InWebArea;
    if selected != [] {
      TrustedAmong(selected[1..], elements);
      assert selected == [selected[0]] + selected[1..];
    }
  }

  /** The element at a place is selected and not web content. */
  ghost predicate MatchAt(matches: Element -> bool, row: seq<Element>, elements: seq<Element>, i: int) {
    0 <= i < |row| && matches(row[i]) && !InWebArea(row[i], elements)
  }

  ghost predicate OnlyMatchAt(matches: Element -> bool, row: seq<Element>, elements: seq<Element>, i: int) {
    MatchAt(matches, row, elements, i) && forall j :: MatchAt(matches, row, elements, j) ==> j == i
  }

  ghost predicate SeveralMatches(matches: Element -> bool, row: seq<Element>, elements: seq<Element>) {
    exists i, j :: i < j && MatchAt(matches, row, elements, i) && MatchAt(matches, row, elements, j)
  }

  lemma {:induction false} TrustedCount(matches: Element -> bool, row: seq<Element>, elements: seq<Element>)
    ensures var trusted := Trusted(Selected(matches, row), elements);
      && (trusted == [] <==> forall i :: !MatchAt(matches, row, elements, i))
      && (forall i | OnlyMatchAt(matches, row, elements, i) :: trusted == [row[i]])
      && (|trusted| == 1 ==> exists i :: OnlyMatchAt(matches, row, elements, i))
      && (|trusted| > 1 <==> SeveralMatches(matches, row, elements))
  {
    hide InWebArea;
    if row == [] {
    } else {
      TrustedCount(matches, row[1..], elements);
      TrustedFirst(row[0], Selected(matches, row[1..]), elements);
      forall i ensures MatchAt(matches, row[1..], elements, i) <==> i >= 0 && MatchAt(matches, row, elements, i + 1) {
      }
      OneMore(matches, row, elements);
    }
  }

  /** Matches in a row are those in the rest of it, and perhaps the first element. */
  lemma OneMore(matches: Element -> bool, row: seq<Element>, elements: seq<Element>)
    requires row != []
    requires forall i :: MatchAt(matches, row[1..], elements, i) <==> i >= 0 && MatchAt(matches, row, elements, i + 1)
    ensures var first, rest := MatchAt(matches, row, elements, 0), row[1..];
      && (forall i | OnlyMatchAt(matches, row, elements, i) ::
            if i == 0 then forall j :: !MatchAt(matches, rest, elements, j) else !first && OnlyMatchAt(matches, rest, elements, i - 1))
      && (first && (forall j :: !MatchAt(matches, rest, elements, j)) ==> OnlyMatchAt(matches, row, elements, 0))
      && (!first ==> forall j | OnlyMatchAt(matches, rest, elements, j) :: OnlyMatchAt(matches, row, elements, j + 1))
      && (SeveralMatches(matches, row, elements) <==>
            SeveralMatches(matches, rest, elements) || (first && exists j :: MatchAt(matches, rest, elements, j)))
  {
    hide MatchAt;
    var first, rest := MatchAt(matches, row, elements, 0), row[1..];
    forall i, j | i < j && MatchAt(matches, row, elements, i) && MatchAt(matches, row, elements, j)
      ensures MatchAt(matches, rest, elements, j - 1) && (i == 0 || MatchAt(matches, rest, elements, i - 1))
    {
      NotBefore(matches, row, elements, i);
    }
    if SeveralMatches(matches, rest, elements) {
      var i, j :| i < j && MatchAt(matches, rest, elements, i) && MatchAt(matches, rest, elements, j);
      assert MatchAt(matches, row, elements, i + 1) && MatchAt(matches, row, elements, j + 1);
    }
    if first && exists j :: MatchAt(matches, rest, elements, j) {
      var j :| MatchAt(matches, rest, elements, j);
      assert MatchAt(matches, row, elements, j + 1);
    }
    forall i | OnlyMatchAt(matches, row, elements, i)
      ensures if i == 0 then forall j :: !MatchAt(matches, rest, elements, j) else !first && OnlyMatchAt(matches, rest, elements, i - 1)
    {
      NotBefore(matches, row, elements, i);
      assert i > 0 ==> MatchAt(matches, rest, elements, i - 1);
      forall j | MatchAt(matches, rest, elements, j) ensures j == i - 1 {
        assert MatchAt(matches, row, elements, j + 1);
      }
    }
    if !first {
      forall j | OnlyMatchAt(matches, rest, elements, j) ensures OnlyMatchAt(matches, row, elements, j + 1) {
        forall k | MatchAt(matches, row, elements, k) ensures k == j + 1 {
          NotBefore(matches, row, elements, k);
          assert MatchAt(matches, rest, elements, k - 1);
        }
      }
    }
    forall k | MatchAt(matches, row, elements, k) ensures k == 0 || MatchAt(matches, rest, elements, k - 1) {
      NotBefore(matches, row, elements, k);
    }
  }

  lemma NotBefore(matches: Element -> bool, row: seq<Element>, elements: seq<Element>, i: int)
    requires MatchAt(matches, row, elements, i)
    ensures i >= 0
  {
  }

  predicate ValueAgrees(wanted: ElementPredicate, element: Element) {
    wanted.value.Some? ==> element.value == Some(Text(wanted.value.value))
  }

  predicate EnabledAgrees(wanted: ElementPredicate, element: Element) {
    wanted.enabled.Some? ==> element.enabled == Some(Bool(wanted.enabled.value))
  }

  predicate SelectedAgrees(wanted: ElementPredicate, element: Element) {
    wanted.selected.Some? ==> element.selected == Some(Bool(wanted.selected.value))
  }

  /** Each field asked about is there and as wanted. */
  predicate Agrees(wanted: ElementPredicate, element: Element) {
    ValueAgrees(wanted, element) && EnabledAgrees(wanted, element) && SelectedAgrees(wanted, element)
  }

  /** The first field that is not as wanted is there. */
  predicate Contradicts(wanted: ElementPredicate, element: Element) {
    if !ValueAgrees(wanted, element) then element.value.Some?
    else if !EnabledAgrees(wanted, element) then element.enabled.Some?
    else !SelectedAgrees(wanted, element) && element.selected.Some?
  }

  predicate AsksOfFields(wanted: ElementPredicate) {
    wanted.value.Some? || wanted.enabled.Some? || wanted.selected.Some?
  }

  lemma ComparedExact(wanted: ElementPredicate, element: Element)
    ensures CompareFields(wanted, element) ==
      if Agrees(wanted, element) then Finding(Satisfied, None)
      else if Contradicts(wanted, element) then Finding(Unsatisfied, None)
      else Finding(Unknown, Some(UnsupportedPredicate))
  {
  }

  /** The predicate makes sense and the window has been listed by a source that is trusted. */
  predicate Usable(wanted: ElementPredicate, snapshot: Snapshot) {
    wanted.present != Some(false) && wanted.valid && snapshot.window && snapshot.trusted && snapshot.elements.Some?
  }

  ghost predicate NoMatch(wanted: ElementPredicate, elements: seq<Element>) {
    forall i :: !MatchAt(wanted.matches, elements, elements, i)
  }

  /** The one match there is shows this of itself. */
  ghost predicate OneMatch(wanted: ElementPredicate, elements: seq<Element>, element: Element) {
    exists i :: OnlyMatchAt(wanted.matches, elements, elements, i) && elements[i] == element
  }

  ghost predicate Several(wanted: ElementPredicate, elements: seq<Element>) {
    SeveralMatches(wanted.matches, elements, elements)
  }

  /** The three ways there can be matches. */
  lemma MatchesExact(wanted: ElementPredicate, elements: seq<Element>)
    ensures var trusted := Trusted(Selected(wanted.matches, elements), elements);
      && (trusted == [] <==> NoMatch(wanted, elements))
      && (forall element :: OneMatch(wanted, elements, element) <==> trusted == [element])
      && (|trusted| > 1 <==> Several(wanted, elements))
  {
    hide Trusted, Selected, MatchAt;
    TrustedCount(wanted.matches, elements, elements);
  }

  /** What an element predicate reports, and why: it is settled by the one trusted match there is and the fields it shows, by several
      matches when nothing more is asked of them, or by a complete listing that has neither a match nor web content in it. */
  lemma FindingExact(wanted: ElementPredicate, snapshot: Snapshot, element: Element)
    requires Usable(wanted, snapshot)
    ensures var elements := snapshot.elements.value;
      var r := EvaluateElement(wanted, snapshot);
      && (OneMatch(wanted, elements, element) ==>
            r == if Agrees(wanted, element) then Finding(Satisfied, None)
                 else if Contradicts(wanted, element) then Finding(Unsatisfied, None)
                 else Finding(Unknown, Some(UnsupportedPredicate)))
      && (Several(wanted, elements) ==>
            r == if AsksOfFields(wanted) then Finding(Unknown, Some(MultiMatch)) else Finding(Satisfied, None))
      && (NoMatch(wanted, elements) ==>
            r == if exists e <- elements :: InWebArea(e, elements) then Finding(Unknown, Some(UntrustedSource))
                 else if !snapshot.complete then Finding(Unknown, Some(ObservationUnavailable))
                 else if wanted.present == Some(true) then Finding(Unsatisfied, None)
                 else Finding(Unknown, Some(TargetMissing)))
      && (NoMatch(wanted, elements) || Several(wanted, elements) || exists e <- elements :: OneMatch(wanted, elements, e))
  {
    hide InWebArea, MatchAt, OneMatch, Several, NoMatch;
    var elements := snapshot.elements.value;
    MatchesExact(wanted, elements);
    ComparedExact(wanted, element);
    var selected := Selected(wanted.matches, elements);
    NothingSelected(wanted, elements);
    if Trusted(selected, elements) == [] {
      UntrustedSettlesNothing(wanted, elements, snapshot.complete);
      assert snapshot == Snapshot(true, true, Some(elements), snapshot.complete);
    } else {
      var first := Trusted(selected, elements)[0];
      TrustedAmong(selected, elements);
      SelectedAmong(wanted.matches, elements);
      assert first in elements;
      assert |Trusted(selected, elements)| == 1 ==> Trusted(selected, elements) == [first];
    }
  }

  lemma NothingSelected(wanted: ElementPredicate, elements: seq<Element>)
    ensures Selected(wanted.matches, elements) == [] ==> Trusted(Selected(wanted.matches, elements), elements) == []
  {
  }

  /** Otherwise nothing is settled, for a reason that is told. */
  lemma UnusableExact(wanted: ElementPredicate, snapshot: Snapshot)
    requires !Usable(wanted, snapshot)
    ensures EvaluateElement(wanted, snapshot) == Finding(Unknown, Some(
      if wanted.present == Some(false) || !wanted.valid then InvalidPredicate
      else if !snapshot.window then TargetMissing
      else if !snapshot.trusted then UntrustedSource
      else ObservationUnavailable))
  {
  }

  /** Unsatisfied means, and is reported of, a complete listing without web content and without a match when there was to be one, or
      the only trusted match when the first of its fields that is not as wanted is there. */
  lemma AbsenceIsCertain(wanted: ElementPredicate, snapshot: Snapshot)
    ensures EvaluateElement(wanted, snapshot).status == Unsatisfied <==>
      (Usable(wanted, snapshot)
       && var elements := snapshot.elements.value;
       || (snapshot.complete && wanted.present == Some(true) && forall e <- elements :: !wanted.matches(e) && !InWebArea(e, elements))
       || exists e <- elements :: OneMatch(wanted, elements, e) && Contradicts(wanted, e))
  {
    hide InWebArea, OneMatch, Several, EvaluateElement, Contradicts, Agrees;
    if Usable(wanted, snapshot) {
      NoMatchExact(wanted, snapshot.elements.value);
      Settled(wanted, snapshot);
    } else {
      UnusableExact(wanted, snapshot);
    }
  }

  lemma NoMatchExact(wanted: ElementPredicate, elements: seq<Element>)
    ensures NoMatch(wanted, elements) <==> forall e <- elements :: !(wanted.matches(e) && !InWebArea(e, elements))
  {
    hide InWebArea;
    if forall i :: !MatchAt(wanted.matches, elements, elements, i) {
      forall e | e in elements ensures !(wanted.matches(e) && !InWebArea(e, elements)) {
        var i :| 0 <= i < |elements| && elements[i] == e;
        assert !MatchAt(wanted.matches, elements, elements, i);
      }
    }
  }

  /** Satisfied means, and is reported of, several trusted matches when nothing is asked of their fields, or the only trusted match
      when all that is asked about is there and as wanted. */
  lemma SatisfactionIsTrusted(wanted: ElementPredicate, snapshot: Snapshot)
    ensures EvaluateElement(wanted, snapshot).status == Satisfied <==>
      (Usable(wanted, snapshot)
       && var elements := snapshot.elements.value;
       || (Several(wanted, elements) && !AsksOfFields(wanted))
       || exists e <- elements :: OneMatch(wanted, elements, e) && Agrees(wanted, e))
  {
    hide InWebArea, OneMatch, Several, EvaluateElement, Contradicts, Agrees;
    if Usable(wanted, snapshot) {
      Settled(wanted, snapshot);
    } else {
      UnusableExact(wanted, snapshot);
    }
  }

  /** The same for whatever matches there are. */
  lemma Settled(wanted: ElementPredicate, snapshot: Snapshot)
    requires Usable(wanted, snapshot)
    ensures var elements := snapshot.elements.value;
      var r := EvaluateElement(wanted, snapshot);
      && (r.status == Satisfied <==>
            (Several(wanted, elements) && !AsksOfFields(wanted)) || exists e <- elements :: OneMatch(wanted, elements, e) && Agrees(wanted, e))
      && (r.status == Unsatisfied <==>
            || (NoMatch(wanted, elements) && snapshot.complete && wanted.present == Some(true) && forall e <- elements :: !InWebArea(e, elements))
            || exists e <- elements :: OneMatch(wanted, elements, e) && Contradicts(wanted, e))
  {
    hide InWebArea, OneMatch, Several, NoMatch, EvaluateElement, ValueAgrees, EnabledAgrees, SelectedAgrees;
    var elements := snapshot.elements.value;
    MatchesApart(wanted, elements);
    if e :| e in elements && OneMatch(wanted, elements, e) {
      FindingExact(wanted, snapshot, e);
      AgreeOrContradict(wanted, e);
    } else {
      var anything := Plain(0);
      FindingExact(wanted, snapshot, anything);
    }
  }

  lemma AgreeOrContradict(wanted: ElementPredicate, element: Element)
    ensures !(Agrees(wanted, element) && Contradicts(wanted, element))
  {
  }

  /** There are no matches, one, or several. */
  lemma MatchesApart(wanted: ElementPredicate, elements: seq<Element>)
    ensures !(NoMatch(wanted, elements) && Several(wanted, elements))
    ensures forall e: Element, f: Element :: OneMatch(wanted, elements, e) && OneMatch(wanted, elements, f) ==> e == f
    ensures forall e: Element :: OneMatch(wanted, elements, e) ==> !NoMatch(wanted, elements) && !Several(wanted, elements)
  {
    hide InWebArea, MatchAt, OneMatch, Several, NoMatch, Trusted, Selected;
    MatchesExact(wanted, elements);
  }
}
