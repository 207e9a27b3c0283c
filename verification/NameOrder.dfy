// The order of file names and paths, which is that of their characters and of their UTF-8 bytes alike, and
// choosing the first few names of a directory without holding all of them.
module NameOrder {
  import opened Wrappers

  type Path = seq<string>

  predicate Before(a: string, b: string) {
    b != "" && (a == "" || a[0] < b[0] || (a[0] == b[0] && Before(a[1..], b[1..])))
  }

  /** Paths are compared name by name. */
  predicate PathBefore(a: Path, b: Path) {
    b != [] && (a == [] || Before(a[0], b[0]) || (a[0] == b[0] && PathBefore(a[1..], b[1..])))
  }

  /** A name comes before another when it begins it, or has the lesser character where they first differ. */
  lemma {:induction false} BeforeExact(a: string, b: string)
    ensures Before(a, b) <==> a < b || exists k :: 0 <= k < |a| && k < |b| && a[..k] == b[..k] && a[k] < b[k]
  {
    if a != "" && b != "" && a[0] == b[0] {
      BeforeExact(a[1..], b[1..]);
      assert a == [a[0]] + a[1..] && b == [b[0]] + b[1..];
      if k :| 0 <= k < |a[1..]| && k < |b[1..]| && a[1..][..k] == b[1..][..k] && a[1..][k] < b[1..][k] {
        assert a[..k + 1] == [a[0]] + a[1..][..k] && b[..k + 1] == [b[0]] + b[1..][..k];
      }
      if k :| 0 <= k < |a| && k < |b| && a[..k] == b[..k] && a[k] < b[k] {
        assert a[1..][..k - 1] == a[..k][1..] && b[1..][..k - 1] == b[..k][1..];
      }
    } else {
      NoCommonStart(a, b);
    }
  }

  lemma NoCommonStart(a: string, b: string)
    requires a == "" || b == "" || a[0] != b[0]
    ensures forall k | 0 <= k < |a| && k < |b| && a[..k] == b[..k] :: k == 0
    ensures a != "" && b != "" ==> a[..0] == b[..0]
  {
    if a != "" && b != "" {
      forall k | 0 < k < |a| && k < |b| ensures a[..k] != b[..k] {
        assert a[..k][0] == a[0] && b[..k][0] == b[0];
      }
    }
  }

  /** And a path likewise, name by name. */
  lemma {:induction false} PathBeforeExact(a: Path, b: Path)
    ensures PathBefore(a, b) <==> a < b || exists k :: 0 <= k < |a| && k < |b| && a[..k] == b[..k] && Before(a[k], b[k])
  {
    hide Before;
    if a != [] && b != [] {
      Irreflexive(a[0]);
      assert a[..0] == b[..0];
      if a[0] == b[0] {
        PathBeforeExact(a[1..], b[1..]);
        assert a == [a[0]] + a[1..] && b == [b[0]] + b[1..];
        if k :| 0 <= k < |a[1..]| && k < |b[1..]| && a[1..][..k] == b[1..][..k] && Before(a[1..][k], b[1..][k]) {
          assert a[..k + 1] == [a[0]] + a[1..][..k] && b[..k + 1] == [b[0]] + b[1..][..k];
        }
        if k :| 0 <= k < |a| && k < |b| && a[..k] == b[..k] && Before(a[k], b[k]) {
          assert a[1..][..k - 1] == a[..k][1..] && b[1..][..k - 1] == b[..k][1..];
        }
      } else {
        forall k | 0 < k < |a| && k < |b| ensures a[..k] != b[..k] {
          assert a[..k][0] == a[0] && b[..k][0] == b[0];
        }
      }
    }
  }

  lemma {:induction false} Irreflexive(a: string)
    ensures !Before(a, a)
  {
    if a != "" {
      Irreflexive(a[1..]);
    }
  }

  lemma {:induction false} Transitive(a: string, b: string, c: string)
    requires Before(a, b) && Before(b, c)
    ensures Before(a, c)
  {
    if a != "" && a[0] == b[0] == c[0] {
      Transitive(a[1..], b[1..], c[1..]);
    }
  }

  lemma Asymmetric(a: string, b: string)
    requires Before(a, b)
    ensures !Before(b, a)
  {
    hide Before;
    if Before(b, a) {
      Transitive(a, b, a);
      Irreflexive(a);
    }
  }

  lemma {:induction false} Total(a: string, b: string)
    ensures a == b || Before(a, b) || Before(b, a)
  {
    if a != "" && b != "" && a[0] == b[0] {
      Total(a[1..], b[1..]);
      assert a == [a[0]] + a[1..] && b == [b[0]] + b[1..];
    }
  }

  ghost predicate AllBefore(a: string, names: set<string>) {
    forall b <- names :: Before(a, b)
  }

  ghost predicate AllAfter(a: string, names: set<string>) {
    forall b <- names :: Before(b, a)
  }

  lemma {:induction false} LeastExists(names: set<string>)
    requires names != {}
    ensures exists a :: a in names && AllBefore(a, names - {a})
  {
    hide Before;
    var x :| x in names;
    if names == {x} {
      assert AllBefore(x, names - {x});
    } else {
      LeastExists(names - {x});
      var a :| a in names - {x} && AllBefore(a, names - {x} - {a});
      Total(a, x);
      if Before(x, a) {
        forall b | b in names - {x} ensures Before(x, b) {
          if b != a {
            Transitive(x, a, b);
          }
        }
        assert AllBefore(x, names - {x});
      } else {
        assert AllBefore(a, names - {a});
      }
    }
  }

  ghost function Least(names: set<string>): (a: string)
    requires names != {}
    ensures a in names && AllBefore(a, names - {a})
  {
    LeastExists(names);
    var a :| a in names && AllBefore(a, names - {a});
    a
  }

  lemma LeastUnique(names: set<string>, a: string)
    requires a in names && AllBefore(a, names - {a})
    ensures Least(names) == a
  {
    hide Before;
    var b := Least(names);
    if a != b {
      Transitive(a, b, a);
      Irreflexive(a);
    }
  }

  ghost predicate Ascending(names: seq<string>) {
    forall i, j | 0 <= i < j < |names| :: Before(names[i], names[j])
  }

  /** In an ascending row, what comes before a name is what stands before it. */
  lemma EarlierExactly(names: seq<string>, i: nat, k: nat)
    requires Ascending(names) && i < |names| && k < |names|
    ensures names[k] in names[..i] <==> Before(names[k], names[i])
  {
    hide Before;
    if k < i {
      assert names[..i][k] == names[k];
    } else {
      if names[k] in names[..i] {
        var j :| 0 <= j < i && names[j] == names[k];
        Irreflexive(names[k]);
      }
      Irreflexive(names[i]);
      if i < k {
        Asymmetric(names[i], names[k]);
      }
    }
  }

  ghost function Sorted(names: set<string>): (sorted: seq<string>)
    ensures |sorted| == |names|
  {
    if names == {} then [] else [Least(names)] + Sorted(names - {Least(names)})
  }

  lemma {:induction false} SortedMembers(names: set<string>)
    ensures forall a :: a in Sorted(names) <==> a in names
  {
    hide Before;
    if names != {} {
      SortedMembers(names - {Least(names)});
    }
  }

  lemma {:induction false} SortedAscending(names: set<string>)
    ensures Ascending(Sorted(names))
  {
    hide Before;
    if names != {} {
      var rest := names - {Least(names)};
      SortedAscending(rest);
      SortedMembers(rest);
      AscendingFrom(Least(names), Sorted(rest));
    }
  }

  lemma AscendingFrom(first: string, rest: seq<string>)
    requires Ascending(rest) && forall a <- rest :: Before(first, a)
    ensures Ascending([first] + rest)
  {
    hide Before;
    var all := [first] + rest;
    forall i, j | 0 <= i < j < |all| ensures Before(all[i], all[j]) {
      assert all[j] == rest[j - 1];
      assert i > 0 ==> all[i] == rest[i - 1];
    }
  }

  /** Everything in `first` comes before everything else in `names`. */
  ghost predicate Leading(first: set<string>, names: set<string>) {
    first <= names && forall a <- first :: AllBefore(a, names - first)
  }

  /** A leading part of a set, sorted, begins the sorted set. */
  lemma {:induction false} LeadingSorted(first: set<string>, names: set<string>)
    requires Leading(first, names)
    ensures Sorted(names) == Sorted(first) + Sorted(names - first)
    decreases |first|
  {
    hide Before, AllBefore, Leading, Sorted;
    if first == {} {
      SortedEmpty();
      assert names - first == names;
    } else {
      var a := Least(first);
      LeadingRest(first, names);
      LeadingSorted(first - {a}, names - {a});
      SortedUnfolds(names);
      SortedUnfolds(first);
      Regroup([a], Sorted(first - {a}), Sorted(names - first));
    }
  }

  lemma LeadingRest(first: set<string>, names: set<string>)
    requires Leading(first, names) && first != {}
    ensures var a := Least(first);
      names != {} && Least(names) == a && Leading(first - {a}, names - {a}) && names - {a} - (first - {a}) == names - first
  {
    hide Before;
    var a := Least(first);
    assert AllBefore(a, names - {a});
    LeastUnique(names, a);
    assert names - {a} - (first - {a}) == names - first;
  }

  lemma SortedEmpty()
    ensures Sorted({}) == []
  {
  }

  lemma SortedUnfolds(names: set<string>)
    requires names != {}
    ensures Sorted(names) == [Least(names)] + Sorted(names - {Least(names)})
  {
  }

  lemma LeadingPrefix(first: set<string>, names: set<string>)
    requires Leading(first, names)
    ensures |first| <= |Sorted(names)| && Sorted(first) == Sorted(names)[..|first|]
  {
    LeadingSorted(first, names);
    SortedMembers(first);
  }

  // ---- A heap of bounded size

  method Largest(heap: set<string>) returns (largest: string)
    requires heap != {}
    ensures largest in heap && AllAfter(largest, heap - {largest})
  {
    hide Before;
    largest :| largest in heap;
    var rest := heap - {largest};
    while rest != {}
      invariant rest <= heap && largest in heap && largest !in rest
      invariant AllAfter(largest, heap - {largest} - rest)
      decreases |rest|
    {
      var a :| a in rest;
      Total(a, largest);
      if Before(largest, a) {
        forall b | b in heap - {a} - (rest - {a}) ensures Before(b, a) {
          if b != largest {
            Transitive(b, largest, a);
          }
        }
        largest := a;
      }
      rest := rest - {a};
    }
  }

  /** Empties the heap, largest name first, into a sorted row. */
  method IntoSorted(heap: set<string>) returns (sorted: seq<string>)
    ensures sorted == Sorted(heap)
  {
    hide Before;
    sorted := [];
    var left := heap;
    assert left == heap && Sorted(heap) == Sorted(heap) + [];
    while left != {}
      invariant left <= heap
      invariant Sorted(heap) == Sorted(left) + sorted
      decreases |left|
    {
      var largest := Largest(left);
      LastSorted(left, largest);
      assert Sorted(left - {largest}) + [largest] + sorted == Sorted(left - {largest}) + ([largest] + sorted);
      sorted := [largest] + sorted;
      left := left - {largest};
    }
  }

  lemma LastSorted(names: set<string>, largest: string)
    requires largest in names && AllAfter(largest, names - {largest})
    ensures Sorted(names) == Sorted(names - {largest}) + [largest]
  {
    hide Before, Sorted, Leading;
    var first := names - {largest};
    assert names - first == {largest};
    LastLeading(names, largest);
    LeadingSorted(first, names);
    Alone(largest);
  }

  lemma LastLeading(names: set<string>, largest: string)
    requires largest in names && AllAfter(largest, names - {largest})
    ensures Leading(names - {largest}, names)
  {
    hide Before;
    assert names - (names - {largest}) == {largest};
  }

  lemma Alone(a: string)
    ensures Sorted({a}) == [a]
  {
    assert Least({a}) in {a};
    assert {a} - {a} == {};
  }

  ghost predicate Distinct(names: seq<string>) {
    forall i, j | 0 <= i < j < |names| :: names[i] != names[j]
  }

  ghost function Members(names: seq<string>): set<string> {
    set a | a in names
  }

  /** The heap after some of the listing: the first names seen, as many as fit. */
  ghost predicate Holds(heap: set<string>, seen: set<string>, capacity: nat) {
    Leading(heap, seen) && |heap| == if |seen| < capacity then |seen| else capacity
  }

  /** Chooses the first names of a listing, whatever order it comes in, with a heap that never outgrows its capacity. */
  method FirstNames(listing: seq<string>, capacity: nat) returns (selected: seq<string>, exceeded: bool)
    requires Distinct(listing)
    ensures selected == First(Members(listing), capacity)
    ensures exceeded <==> |Members(listing)| > capacity
  {
    hide Before, Leading, Holds, Distinct, Members, Sorted;
    NoMembers();
    var heap: set<string> := {};
    exceeded := false;
    ghost var seen: set<string> := {};
    HoldsNothing(capacity);
    for i := 0 to |listing|
      invariant |heap| <= capacity && |heap| <= |seen| && (exceeded <==> |seen| > capacity)
      invariant seen == Members(listing[..i]) && Holds(heap, seen, capacity)
    {
      var path := listing[i];
      NewMember(listing, i);
      HoldsSize(heap, seen, capacity);
      if |heap| < capacity {
        HoldsMore(heap, seen, capacity, path);
        heap := heap + {path};
      } else {
        exceeded := true;
        if heap != {} {
          var largest := Largest(heap);
          if Before(path, largest) {
            HoldsInstead(heap, seen, capacity, path, largest);
            heap := heap - {largest} + {path};
          } else {
            HoldsStill(heap, seen, capacity, path, largest);
          }
        } else {
          HoldsNone(seen, capacity, path);
        }
      }
      seen := seen + {path};
    }
    assert listing[..|listing|] == listing;
    HoldsSize(heap, seen, capacity);
    selected := IntoSorted(heap);
    HoldsFirst(heap, seen, capacity);
  }

  ghost function First(names: set<string>, capacity: nat): (first: seq<string>)
    ensures forall name <- first :: name in names
  {
    SortedMembers(names);
    if |names| <= capacity then Sorted(names) else Sorted(names)[..capacity]
  }

  /** Those are as many as fit, in ascending order, and every other name comes after all of them. */
  lemma FirstLeads(names: set<string>, capacity: nat)
    ensures var first := First(names, capacity);
      && |first| == (if |names| <= capacity then |names| else capacity) && Ascending(first)
      && forall a, b :: a in first && b in names && b !in first ==> Before(a, b)
  {
    hide Before, Sorted;
    SortedAscending(names);
    SortedMembers(names);
    var sorted, first := Sorted(names), First(names, capacity);
    assert forall k | 0 <= k < |first| :: first[k] == sorted[k] && sorted[k] in first;
    forall a, b | a in first && b in names && b !in first ensures Before(a, b) {
      var i :| 0 <= i < |first| && first[i] == a;
      var j :| 0 <= j < |sorted| && sorted[j] == b;
    }
  }

  lemma NoMembers()
    ensures Members([]) == {}
  {
  }

  lemma NewMember(listing: seq<string>, i: nat)
    requires Distinct(listing) && i < |listing|
    ensures listing[i] !in Members(listing[..i])
    ensures Members(listing[..i + 1]) == Members(listing[..i]) + {listing[i]}
  {
    assert listing[..i + 1] == listing[..i] + [listing[i]];
  }

  lemma HoldsNothing(capacity: nat)
    ensures Holds({}, {}, capacity)
  {
  }

  lemma HoldsSize(heap: set<string>, seen: set<string>, capacity: nat)
    requires Holds(heap, seen, capacity)
    ensures |heap| == (if |seen| < capacity then |seen| else capacity) && heap <= seen
    ensures |heap| < capacity ==> heap == seen
  {
    if |heap| < capacity {
      assert |seen - heap| == 0;
    }
  }

  lemma HoldsMore(heap: set<string>, seen: set<string>, capacity: nat, path: string)
    requires Holds(heap, seen, capacity) && |heap| < capacity && path !in seen
    ensures Holds(heap + {path}, seen + {path}, capacity)
  {
    HoldsSize(heap, seen, capacity);
  }

  lemma HoldsInstead(heap: set<string>, seen: set<string>, capacity: nat, path: string, largest: string)
    requires Holds(heap, seen, capacity) && |heap| == capacity && path !in seen
    requires largest in heap && AllAfter(largest, heap - {largest}) && Before(path, largest)
    ensures Holds(heap - {largest} + {path}, seen + {path}, capacity)
  {
    hide Before;
    var next := heap - {largest} + {path};
    forall a, b | a in next && b in seen + {path} - next ensures Before(a, b) {
      if a == path {
        if b != largest {
          Transitive(path, largest, b);
        }
      }
    }
  }

  lemma HoldsStill(heap: set<string>, seen: set<string>, capacity: nat, path: string, largest: string)
    requires Holds(heap, seen, capacity) && |heap| == capacity && path !in seen
    requires largest in heap && AllAfter(largest, heap - {largest}) && !Before(path, largest)
    ensures Holds(heap, seen + {path}, capacity)
  {
    hide Before;
    Total(path, largest);
    forall a | a in heap ensures Before(a, path) {
      if a != largest {
        Transitive(a, largest, path);
      }
    }
  }

  lemma HoldsNone(seen: set<string>, capacity: nat, path: string)
    requires Holds({}, seen, capacity) && capacity == 0
    ensures Holds({}, seen + {path}, capacity)
  {
  }

  lemma HoldsFirst(heap: set<string>, seen: set<string>, capacity: nat)
    requires Holds(heap, seen, capacity)
    ensures Sorted(heap) == First(seen, capacity)
  {
    LeadingPrefix(heap, seen);
    HoldsSize(heap, seen, capacity);
    SortedMembers(seen);
  }
}
