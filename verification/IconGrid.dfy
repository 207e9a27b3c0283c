// The desktop's icon layout: filling the grid, dragging, arranging and paging.
module IconGrid {
  import opened Wrappers
  import opened Numbers
  import opened IconCells
  import NameOrder

  datatype Item = Item(path: string, key: Key)

  datatype PositionedItem = PositionedItem(item: Item, rect: Rect, page: nat)

  function KeySet(items: seq<Item>): set<Key> {
    set item <- items :: item.key
  }

  /** How many of the items have a key in the set. */
  function CountIn(items: seq<Item>, keys: set<Key>): nat {
    if items == [] then 0
    else CountIn(items[..|items| - 1], keys) + (if items[|items| - 1].key in keys then 1 else 0)
  }

  lemma {:induction false} CountCovers(items: seq<Item>, keys: set<Key>)
    ensures |keys * KeySet(items)| <= CountIn(items, keys) <= |items|
  {
    if items != [] {
      var front, last := items[..|items| - 1], items[|items| - 1];
      CountCovers(front, keys);
      assert items == front + [last];
      assert KeySet(items) == KeySet(front) + {last.key};
      if last.key in keys {
        assert keys * KeySet(items) == keys * KeySet(front) + {last.key};
      } else {
        assert keys * KeySet(items) == keys * KeySet(front);
      }
    } else {
      assert keys * KeySet(items) == {};
    }
  }

  /** The last listed item with a key. */
  function LastItem(items: seq<Item>, key: Key): (item: Item)
    requires key in KeySet(items)
    ensures exists j :: 0 <= j < |items| && items[j] == item && item.key == key && forall later | j < later < |items| :: items[later].key != key
  {
    if items[|items| - 1].key == key then items[|items| - 1]
    else
      assert items == items[..|items| - 1] + [items[|items| - 1]];
      var item := LastItem(items[..|items| - 1], key);
      assert forall j | 0 <= j < |items| - 1 :: items[j] == items[..|items| - 1][j];
      item
  }

  // ---------------------------------------------------------------- free slots

  ghost predicate IsFirstFree(grid: Grid, occupied: set<Position>, linear: nat)
    requires grid.Valid()
  {
    grid.Cell(linear) !in occupied && forall j | 0 <= j < linear :: grid.Cell(j) in occupied
  }

  /** Slots that are all taken are no more than the taken cells. */
  lemma {:induction false} TakenSlots(grid: Grid, occupied: set<Position>, count: nat)
    requires grid.Valid() && forall j | 0 <= j < count :: grid.Cell(j) in occupied
    ensures count <= |occupied|
  {
    hide Grid.Cell, Grid.Slots;
    if count > 0 {
      var last := grid.Cell(count - 1);
      forall j | 0 <= j < count - 1 ensures grid.Cell(j) in occupied - {last} {
        if grid.Cell(j) == last {
          CellsDiffer(grid, j, count - 1);
        }
      }
      TakenSlots(grid, occupied - {last}, count - 1);
    }
  }

  method FirstFreePosition(grid: Grid, occupied: set<Position>) returns (p: Position, ghost linear: nat)
    requires grid.Valid()
    ensures |occupied| < U32_MAX ==> IsFirstFree(grid, occupied, linear) && p == grid.Cell(linear) && linear <= |occupied|
    ensures |occupied| < U32_MAX ==> grid.Contains(p) && p !in occupied
  {
    hide Grid.Slots;
    var at := 0;
    while at < U32_MAX
      invariant 0 <= at <= U32_MAX
      invariant forall j | 0 <= j < at :: grid.Cell(j) in occupied
    {
      var cell := grid.Cell(at);
      CellInGrid(grid, at);
      if cell.column < grid.columns && cell !in occupied {
        TakenSlots(grid, occupied, at);
        return cell, at;
      }
      at := at + 1;
    }
    TakenSlots(grid, occupied, at);
    return Position(0, 0, 0), 0;
  }

  // ---------------------------------------------------------------- one placement

  /** The taken cells include the shortcuts' and those of the placed keys. */
  ghost predicate Blocked(grid: Grid, occupied: set<Position>, positions: map<Key, Position>, placed: set<Key>)
    requires grid.Valid()
  {
    && (forall slot | 0 <= slot < grid.Reserved() :: grid.Cell(slot) in occupied)
    && (forall key <- placed :: key in positions && positions[key] in occupied)
  }

  lemma PlaceStep(grid: Grid, occupied: set<Position>, positions: map<Key, Position>, placed: set<Key>, key: Key, p: Position)
    requires grid.Valid() && Settled(grid, positions, placed) && Blocked(grid, occupied, positions, placed)
    requires p !in occupied && grid.Contains(p)
    ensures Settled(grid, positions[key := p], placed + {key})
    ensures Blocked(grid, occupied + {p}, positions[key := p], placed + {key})
  {
    hide Grid.Cell, Grid.Slots, Grid.Reserved;
  }

  /** A cell that is in the grid, off the shortcuts, and claimed by no lesser key. */
  ghost predicate KeepsCell(grid: Grid, positions: map<Key, Position>, key: Key)
    requires grid.Valid() && key in positions
  {
    && grid.Contains(positions[key]) && !grid.IsReserved(positions[key])
    && forall other <- positions :: positions[other] == positions[key] && other != key ==> NameOrder.Before(key, other)
  }

  /** After the keys in `seen`: those that keep their cells, and every cell asked for and acceptable is taken. */
  ghost predicate Claimed(grid: Grid, occupied: set<Position>, positions: map<Key, Position>, valid: set<Key>, seen: set<Key>)
    requires grid.Valid()
  {
    && valid <= seen <= positions.Keys
    && (forall key <- seen :: key in valid <==> KeepsCell(grid, positions, key))
    && (forall key <- seen :: grid.Contains(positions[key]) ==> positions[key] in occupied)
    && (forall cell <- occupied :: grid.IsReserved(cell) || exists key <- valid :: positions[key] == cell)
  }

  /** The next key in order keeps its cell if the cell is acceptable and not taken. */
  lemma ClaimStep(grid: Grid, occupied: set<Position>, positions: map<Key, Position>, valid: set<Key>, seen: set<Key>, key: Key)
    requires grid.Valid() && Claimed(grid, occupied, positions, valid, seen)
    requires forall slot | 0 <= slot < grid.Reserved() :: grid.Cell(slot) in occupied
    requires key in positions && key !in seen
    requires forall other <- positions :: other in seen <==> NameOrder.Before(other, key)
    ensures var keeps := grid.Contains(positions[key]) && positions[key] !in occupied;
      && (keeps <==> KeepsCell(grid, positions, key))
      && Claimed(grid, if keeps then occupied + {positions[key]} else occupied, positions, if keeps then valid + {key} else valid, seen + {key})
  {
    hide Grid.Cell, Grid.Slots, Grid.Reserved, NameOrder.Before, Grid.IsReserved;
    var p := positions[key];
    ReservedTaken(grid, occupied, p);
    if grid.Contains(p) && p !in occupied {
      forall other | other in positions && positions[other] == p && other != key ensures NameOrder.Before(key, other) {
        NameOrder.Total(key, other);
      }
    } else if grid.Contains(p) && !grid.IsReserved(p) {
      var earlier :| earlier in valid && positions[earlier] == p;
      NameOrder.Asymmetric(earlier, key);
    }
  }

  lemma ReservedTaken(grid: Grid, occupied: set<Position>, p: Position)
    requires grid.Valid() && forall slot | 0 <= slot < grid.Reserved() :: grid.Cell(slot) in occupied
    ensures grid.IsReserved(p) ==> p in occupied
  {
    hide Grid.Cell, Grid.Slots, Grid.Reserved;
  }

  lemma NoneSettled(grid: Grid, positions: map<Key, Position>)
    requires grid.Valid()
    ensures Settled(grid, positions, {})
    ensures Blocked(grid, ReservedCells(grid), positions, {})
    ensures Claimed(grid, ReservedCells(grid), positions, {}, {})
  {
    hide Grid.Cell, Grid.Slots;
  }

  function ReservedCells(grid: Grid): set<Position>
    requires grid.Valid()
  {
    set slot | 0 <= slot < grid.Reserved() :: grid.Cell(slot)
  }

  lemma ReservedCount(grid: Grid)
    requires grid.Valid()
    ensures |ReservedCells(grid)| == grid.Reserved() <= 2
  {
    hide Grid.Cell;
    if grid.Reserved() == 1 {
      assert ReservedCells(grid) == {grid.Cell(0)};
    } else {
      if grid.Cell(0) == grid.Cell(1) {
        CellsDiffer(grid, 0, 1);
      }
      assert ReservedCells(grid) == {grid.Cell(0), grid.Cell(1)};
    }
  }

  /** The slot an item gets when the desktop is filled from scratch. */
  ghost predicate FilledInOrder(grid: Grid, positions: map<Key, Position>, items: seq<Item>)
    requires grid.Valid()
  {
    forall j | 0 <= j < |items| && ListedLast(items, j) ::
      items[j].key in positions && positions[items[j].key] == grid.Cell(grid.Reserved() + j)
  }

  /** No later item has the same key. */
  predicate ListedLast(items: seq<Item>, j: nat)
    requires j < |items|
  {
    forall later | j < later < |items| :: items[later].key != items[j].key
  }

  lemma ListedLastBefore(front: seq<Item>, last: Item, j: nat)
    requires j < |front| && ListedLast(front + [last], j)
    ensures front[j].key != last.key && ListedLast(front, j)
  {
    var items := front + [last];
    assert items[|front|] == last && items[j] == front[j];
    assert forall later | j < later < |front| :: items[later] == front[later];
  }

  function FirstCells(grid: Grid, count: nat): set<Position>
    requires grid.Valid()
  {
    set j | 0 <= j < count :: grid.Cell(j)
  }

  /** When exactly the first cells are taken, the next one is the first free. */
  lemma NextInOrder(grid: Grid, count: nat, linear: nat)
    requires grid.Valid() && IsFirstFree(grid, FirstCells(grid, count), linear)
    ensures linear == count && FirstCells(grid, count) + {grid.Cell(linear)} == FirstCells(grid, count + 1)
  {
    hide Grid.Cell, Grid.Slots;
    if linear > count {
      var j :| 0 <= j < count && grid.Cell(j) == grid.Cell(count);
      CellsDiffer(grid, j, count);
    }
  }

  lemma FillStep(grid: Grid, positions: map<Key, Position>, front: seq<Item>, last: Item)
    requires grid.Valid() && FilledInOrder(grid, positions, front)
    ensures FilledInOrder(grid, positions[last.key := grid.Cell(grid.Reserved() + |front|)], front + [last])
  {
    hide Grid.Cell, Grid.Slots, Grid.Reserved, ListedLast;
    var items := front + [last];
    forall j: nat | j < |front| && ListedLast(items, j) ensures front[j].key != last.key && ListedLast(front, j) {
      ListedLastBefore(front, last, j);
    }
  }

  /** The desktop has been filled from scratch with these items. */
  ghost predicate Filling(grid: Grid, positions: map<Key, Position>, occupied: set<Position>, front: seq<Item>)
    requires grid.Valid()
  {
    FilledInOrder(grid, positions, front) && occupied == FirstCells(grid, grid.Reserved() + |front|)
  }

  lemma FillingStart(grid: Grid, positions: map<Key, Position>)
    requires grid.Valid()
    ensures Filling(grid, positions, ReservedCells(grid), [])
  {
  }

  lemma FillingStep(grid: Grid, positions: map<Key, Position>, occupied: set<Position>, front: seq<Item>, last: Item, linear: nat)
    requires grid.Valid() && Filling(grid, positions, occupied, front) && IsFirstFree(grid, occupied, linear)
    ensures Filling(grid, positions[last.key := grid.Cell(linear)], occupied + {grid.Cell(linear)}, front + [last])
  {
    hide Grid.Cell, Grid.Reserved, FilledInOrder;
    NextInOrder(grid, grid.Reserved() + |front|, linear);
    FillStep(grid, positions, front, last);
  }

  lemma {:induction false} CountPrefix(items: seq<Item>, keys: set<Key>, n: nat)
    requires n <= |items|
    ensures CountIn(items, keys) <= CountIn(items[..n], keys) + (|items| - n)
    decreases |items|
  {
    if n < |items| {
      var front := items[..|items| - 1];
      CountPrefix(front, keys, n);
      assert front[..n] == items[..n];
    } else {
      assert items[..n] == items;
    }
  }

  lemma SliceStep(items: seq<Item>, i: nat, keys: set<Key>)
    requires i < |items|
    ensures items[..i + 1] == items[..i] + [items[i]] && items[i].key in KeySet(items)
    ensures KeySet(items[..i + 1]) == KeySet(items[..i]) + {items[i].key}
    ensures CountIn(items[..i + 1], keys) == CountIn(items[..i], keys) + (if items[i].key in keys then 1 else 0)
  {
    var front := items[..i];
    var more := front + [items[i]];
    assert items[..i + 1] == more && more[..i] == front;
    assert KeySet(more) == KeySet(front) + {items[i].key};
  }

  lemma SliceEnds(items: seq<Item>)
    ensures items[..|items|] == items && KeySet(items[..0]) == {}
    ensures forall keys :: CountIn(items[..0], keys) == 0
  {
  }

  /** While items are placed: whose keys are done. */
  ghost predicate Listed(was: map<Key, Position>, valid: set<Key>, items: seq<Item>, i: nat,
                         positions: map<Key, Position>, placed: set<Key>)
    requires i <= |items|
  {
    && was.Keys <= positions.Keys <= KeySet(items) && placed <= positions.Keys
    && valid <= placed && KeySet(items[..i]) <= placed && placed <= valid + KeySet(items[..i])
    && (forall key <- valid :: key in was && positions[key] == was[key])
    && (placed <= valid ==> positions == was)
  }

  /** While items are placed: where the placed keys are. */
  ghost predicate Seated(grid: Grid, valid: set<Key>, scratch: bool, items: seq<Item>, i: nat,
                         positions: map<Key, Position>, occupied: set<Position>, placed: set<Key>)
    requires grid.Valid() && i <= |items|
  {
    && placed <= positions.Keys
    && Settled(grid, positions, placed) && Blocked(grid, occupied, positions, placed)
    && (forall key <- placed - valid :: Linear(grid, positions[key]) < |items| + grid.Reserved())
    && (scratch ==> Filling(grid, positions, occupied, items[..i]))
  }

  /** The state of placing items: the first `i` are done, and the keys in `placed` have their cells. */
  ghost predicate Placing(grid: Grid, was: map<Key, Position>, valid: set<Key>, scratch: bool, items: seq<Item>, i: nat,
                          positions: map<Key, Position>, occupied: set<Position>, placed: set<Key>)
    requires grid.Valid() && i <= |items|
  {
    && Listed(was, valid, items, i, positions, placed)
    && |occupied| <= grid.Reserved() + |valid| + i - CountIn(items[..i], valid)
    && Seated(grid, valid, scratch, items, i, positions, occupied, placed)
  }

  lemma FirstFreeIsFree(grid: Grid, occupied: set<Position>, linear: nat)
    requires grid.Valid() && IsFirstFree(grid, occupied, linear)
    ensures grid.Cell(linear) !in occupied
  {
  }

  lemma PlacingStart(grid: Grid, positions: map<Key, Position>, taken: set<Position>, valid: set<Key>, items: seq<Item>)
    requires grid.Valid() && valid <= positions.Keys <= KeySet(items)
    requires Settled(grid, positions, valid) && Blocked(grid, taken, positions, valid) && |taken| <= grid.Reserved() + |valid|
    ensures Placing(grid, positions, valid, valid == {} && taken == ReservedCells(grid), items, 0, positions, taken, valid)
  {
    hide Grid.Cell, Grid.Reserved, Settled, Blocked, ReservedCells, Filling, CountIn, KeySet;
    SliceEnds(items);
    FillingStart(grid, positions);
    assert items[..0] == [];
  }

  lemma PlacingSkip(grid: Grid, was: map<Key, Position>, valid: set<Key>, scratch: bool, items: seq<Item>, i: nat,
                    positions: map<Key, Position>, occupied: set<Position>, placed: set<Key>)
    requires grid.Valid() && i < |items| && items[i].key in valid
    requires scratch ==> valid == {}
    requires Placing(grid, was, valid, scratch, items, i, positions, occupied, placed)
    ensures Placing(grid, was, valid, scratch, items, i + 1, positions, occupied, placed)
  {
    hide Grid.Cell, Grid.Reserved, Settled, Blocked, CountIn, KeySet, Linear, Filling;
    SliceStep(items, i, valid);
  }

  lemma PlacingBound(grid: Grid, was: map<Key, Position>, valid: set<Key>, scratch: bool, items: seq<Item>, i: nat,
                     positions: map<Key, Position>, occupied: set<Position>, placed: set<Key>)
    requires grid.Valid() && i < |items| && items[i].key !in valid
    requires Placing(grid, was, valid, scratch, items, i, positions, occupied, placed)
    ensures |occupied| < |items| + grid.Reserved() <= |items| + 2
  {
    hide Grid.Cell, Grid.Reserved, Settled, Blocked, CountIn, KeySet, Linear, Filling;
    SliceStep(items, i, valid);
    CountCovers(items, valid);
    assert valid * KeySet(items) == valid;
    CountPrefix(items, valid, i + 1);
    ReservedCount(grid);
  }

  lemma PlacingStep(grid: Grid, was: map<Key, Position>, valid: set<Key>, scratch: bool, items: seq<Item>, i: nat,
                    positions: map<Key, Position>, occupied: set<Position>, placed: set<Key>, linear: nat)
    requires grid.Valid() && i < |items| && items[i].key !in valid
    requires Placing(grid, was, valid, scratch, items, i, positions, occupied, placed)
    requires IsFirstFree(grid, occupied, linear) && linear <= |occupied|
    ensures var key := items[i].key;
      Placing(grid, was, valid, scratch, items, i + 1, positions[key := grid.Cell(linear)],
              occupied + {grid.Cell(linear)}, placed + {key})
  {
    hide Grid.Cell, Grid.Reserved, Listed, Seated, IsFirstFree, CountIn, KeySet;
    FirstFreeIsFree(grid, occupied, linear);
    PlacingBound(grid, was, valid, scratch, items, i, positions, occupied, placed);
    SliceStep(items, i, valid);
    ListedStep(was, valid, items, i, positions, placed, grid.Cell(linear));
    SeatedStep(grid, valid, scratch, items, i, positions, occupied, placed, linear);
  }

  lemma ListedStep(was: map<Key, Position>, valid: set<Key>, items: seq<Item>, i: nat,
                   positions: map<Key, Position>, placed: set<Key>, p: Position)
    requires i < |items| && items[i].key !in valid && Listed(was, valid, items, i, positions, placed)
    ensures var key := items[i].key; Listed(was, valid, items, i + 1, positions[key := p], placed + {key})
  {
    hide KeySet, CountIn;
    SliceStep(items, i, valid);
  }

  lemma SeatedStep(grid: Grid, valid: set<Key>, scratch: bool, items: seq<Item>, i: nat,
                   positions: map<Key, Position>, occupied: set<Position>, placed: set<Key>, linear: nat)
    requires grid.Valid() && i < |items| && items[i].key !in valid
    requires Seated(grid, valid, scratch, items, i, positions, occupied, placed)
    requires IsFirstFree(grid, occupied, linear) && linear < |items| + grid.Reserved()
    ensures var key := items[i].key;
      Seated(grid, valid, scratch, items, i + 1, positions[key := grid.Cell(linear)],
             occupied + {grid.Cell(linear)}, placed + {key})
  {
    hide Grid.Cell, Grid.Reserved, Grid.Contains, Settled, Blocked, CountIn, KeySet, Linear, Filling, IsFirstFree;
    var key := items[i].key;
    FirstFreeIsFree(grid, occupied, linear);
    SliceStep(items, i, valid);
    CellInGrid(grid, linear);
    PlaceStep(grid, occupied, positions, placed, key, grid.Cell(linear));
    if scratch {
      FillingStep(grid, positions, occupied, items[..i], items[i], linear);
    }
  }

  lemma PlacingParts(grid: Grid, was: map<Key, Position>, valid: set<Key>, scratch: bool, items: seq<Item>, i: nat,
                     positions: map<Key, Position>, occupied: set<Position>, placed: set<Key>)
    requires grid.Valid() && i <= |items| && Placing(grid, was, valid, scratch, items, i, positions, occupied, placed)
    ensures Listed(was, valid, items, i, positions, placed) && Blocked(grid, occupied, positions, placed)
  {
    hide Listed, Settled, Blocked, Filling, CountIn, Linear, Grid.Cell, Grid.Reserved;
  }

  lemma PlacingDone(grid: Grid, was: map<Key, Position>, valid: set<Key>, scratch: bool, items: seq<Item>,
                    positions: map<Key, Position>, occupied: set<Position>, placed: set<Key>)
    requires grid.Valid() && valid <= was.Keys
    requires Placing(grid, was, valid, scratch, items, |items|, positions, occupied, placed)
    ensures placed == KeySet(items) == positions.Keys
    ensures Settled(grid, positions, placed) && Blocked(grid, occupied, positions, placed)
    ensures forall key <- valid :: positions[key] == was[key]
    ensures placed <= valid ==> positions == was
    ensures forall key <- placed - valid :: Linear(grid, positions[key]) < |items| + grid.Reserved()
    ensures scratch ==> Filling(grid, positions, occupied, items)
  {
    hide Grid.Cell, Grid.Reserved, Settled, Blocked, CountIn, KeySet, Linear, Filling;
    SliceEnds(items);
  }

  // ---------------------------------------------------------------- no gaps, and in order

  /** No slot before that of a key that was placed is free. */
  ghost predicate Gapless(grid: Grid, valid: set<Key>, positions: map<Key, Position>, occupied: set<Position>, placed: set<Key>)
    requires grid.Valid()
  {
    && placed <= positions.Keys
    && (forall key <- placed - valid :: positions[key] == grid.Cell(Linear(grid, positions[key])))
    && forall key, j: nat | key in placed - valid && j < Linear(grid, positions[key]) :: grid.Cell(j) in occupied
  }

  /** Beyond the first page, no cell is taken on a later page than that of every key. */
  ghost predicate Paged(positions: map<Key, Position>, occupied: set<Position>, placed: set<Key>) {
    placed <= positions.Keys && forall cell <- occupied :: cell.page == 0 || exists key <- placed :: cell.page <= positions[key].page
  }

  ghost predicate DistinctKeys(items: seq<Item>) {
    forall a, b | 0 <= a < b < |items| :: items[a].key != items[b].key
  }

  /** A shortcut or a key is in the cell. */
  ghost predicate InUse(grid: Grid, positions: map<Key, Position>, placed: set<Key>, cell: Position)
    requires grid.Valid() && placed <= positions.Keys
  {
    grid.IsReserved(cell) || exists key <- placed :: positions[key] == cell
  }

  ghost predicate Accounted(grid: Grid, positions: map<Key, Position>, occupied: set<Position>, placed: set<Key>)
    requires grid.Valid()
  {
    placed <= positions.Keys && forall cell <- occupied :: InUse(grid, positions, placed, cell)
  }

  /** Of two items that were placed the one listed first has the earlier slot. */
  ghost predicate InItemOrder(grid: Grid, valid: set<Key>, positions: map<Key, Position>, front: seq<Item>)
    requires grid.Valid()
  {
    forall a, b | 0 <= a < b < |front| && PlacedLast(valid, front, a) && PlacedLast(valid, front, b) ::
      && front[a].key in positions && front[b].key in positions
      && Linear(grid, positions[front[a].key]) < Linear(grid, positions[front[b].key])
  }

  predicate PlacedLast(valid: set<Key>, items: seq<Item>, j: nat)
    requires j < |items|
  {
    items[j].key !in valid && ListedLast(items, j)
  }

  ghost predicate Tight(grid: Grid, valid: set<Key>, items: seq<Item>, i: nat,
                        positions: map<Key, Position>, occupied: set<Position>, placed: set<Key>)
    requires grid.Valid() && i <= |items|
  {
    && Gapless(grid, valid, positions, occupied, placed) && Paged(positions, occupied, placed)
    && InItemOrder(grid, valid, positions, items[..i])
    && (DistinctKeys(items) ==> Accounted(grid, positions, occupied, placed))
  }

  lemma TightStart(grid: Grid, valid: set<Key>, items: seq<Item>, positions: map<Key, Position>, taken: set<Position>)
    requires grid.Valid() && Accounted(grid, positions, taken, valid)
    ensures Tight(grid, valid, items, 0, positions, taken, valid)
  {
    hide Grid.Cell, Grid.Slots, Grid.Reserved;
    forall cell | cell in taken ensures cell.page == 0 || exists key <- valid :: cell.page <= positions[key].page {
      assert InUse(grid, positions, valid, cell);
      if grid.IsReserved(cell) {
        ReservedPage(grid, cell);
      }
    }
  }

  lemma ReservedPage(grid: Grid, cell: Position)
    requires grid.Valid() && grid.IsReserved(cell)
    ensures cell.page == 0
  {
    hide Grid.Cell, Grid.Slots;
    var slot :| 0 <= slot < grid.Reserved() && cell == grid.Cell(slot);
    EarlyCell(grid, slot);
  }

  lemma TightSkip(grid: Grid, valid: set<Key>, items: seq<Item>, i: nat,
                  positions: map<Key, Position>, occupied: set<Position>, placed: set<Key>)
    requires grid.Valid() && i < |items| && items[i].key in valid && Tight(grid, valid, items, i, positions, occupied, placed)
    ensures Tight(grid, valid, items, i + 1, positions, occupied, placed)
  {
    hide Gapless, Paged, Accounted, Linear, ListedLast;
    var front, more := items[..i], items[..i + 1];
    assert more == front + [items[i]];
    forall a, b | 0 <= a < b < |more| && PlacedLast(valid, more, a) && PlacedLast(valid, more, b)
      ensures PlacedLast(valid, front, a) && PlacedLast(valid, front, b)
    {
      ListedLastBefore(front, items[i], a);
      ListedLastBefore(front, items[i], b);
    }
  }

  /** What was placed before comes before the first free slot. */
  lemma EarlierSlot(grid: Grid, valid: set<Key>, positions: map<Key, Position>, occupied: set<Position>, placed: set<Key>, linear: nat, key: Key)
    requires grid.Valid() && Gapless(grid, valid, positions, occupied, placed) && Blocked(grid, occupied, positions, placed)
    requires IsFirstFree(grid, occupied, linear) && key in placed - valid
    ensures Linear(grid, positions[key]) < linear
  {
    hide Grid.Cell, Grid.Slots, Grid.Reserved, Linear;
  }

  lemma GaplessStep(grid: Grid, valid: set<Key>, positions: map<Key, Position>, occupied: set<Position>, placed: set<Key>, linear: nat, key: Key)
    requires grid.Valid() && Gapless(grid, valid, positions, occupied, placed) && IsFirstFree(grid, occupied, linear)
    ensures Gapless(grid, valid, positions[key := grid.Cell(linear)], occupied + {grid.Cell(linear)}, placed + {key})
  {
    hide Grid.Cell, Grid.Slots, Linear;
    CellInGrid(grid, linear);
  }

  lemma LaterPage(grid: Grid, a: nat, b: nat)
    requires grid.Valid() && a <= b
    ensures grid.Cell(a).page <= grid.Cell(b).page
  {
    hide Grid.Slots;
    var d := grid.Slots();
    DivMod(a, d);
    DivMod(b, d);
    if a / d > b / d {
      MulMonotone(b / d + 1, a / d, d);
    }
  }

  lemma PagedStep(grid: Grid, valid: set<Key>, positions: map<Key, Position>, occupied: set<Position>, placed: set<Key>, linear: nat, key: Key)
    requires grid.Valid() && Gapless(grid, valid, positions, occupied, placed) && Blocked(grid, occupied, positions, placed)
    requires IsFirstFree(grid, occupied, linear) && key !in valid && Paged(positions, occupied, placed)
    ensures Paged(positions[key := grid.Cell(linear)], occupied + {grid.Cell(linear)}, placed + {key})
  {
    hide Grid.Cell, Grid.Slots, Linear, Blocked, IsFirstFree;
    var cell := grid.Cell(linear);
    var after := positions[key := cell];
    assert after[key] == cell && key in placed + {key};
    if key in placed {
      EarlierSlot(grid, valid, positions, occupied, placed, linear, key);
      LaterPage(grid, Linear(grid, positions[key]), linear);
    }
    forall c | c in occupied + {cell} ensures c.page == 0 || exists k <- placed + {key} :: c.page <= after[k].page {
      if c != cell && c.page != 0 {
        var k :| k in placed && c.page <= positions[k].page;
        assert k in placed + {key} && c.page <= after[k].page;
      }
    }
  }

  lemma AccountedStep(grid: Grid, positions: map<Key, Position>, occupied: set<Position>, placed: set<Key>, p: Position, key: Key)
    requires grid.Valid() && key !in placed && Accounted(grid, positions, occupied, placed)
    ensures Accounted(grid, positions[key := p], occupied + {p}, placed + {key})
  {
    hide Grid.IsReserved;
    var after := positions[key := p];
    assert after[key] == p && key in placed + {key};
    forall c | c in occupied ensures InUse(grid, after, placed + {key}, c) {
      assert InUse(grid, positions, placed, c);
      if !grid.IsReserved(c) {
        var k :| k in placed && positions[k] == c;
        assert after[k] == c;
      }
    }
  }

  lemma OrderStep(grid: Grid, valid: set<Key>, positions: map<Key, Position>, front: seq<Item>, last: Item, placed: set<Key>, linear: nat)
    requires grid.Valid() && InItemOrder(grid, valid, positions, front) && last.key !in valid && placed <= positions.Keys
    requires forall item <- front :: item.key in placed
    requires forall key <- placed - valid :: Linear(grid, positions[key]) < linear
    ensures InItemOrder(grid, valid, positions[last.key := grid.Cell(linear)], front + [last])
  {
    hide Grid.Cell, Grid.Slots, Linear, ListedLast;
    CellInGrid(grid, linear);
    var items, after := front + [last], positions[last.key := grid.Cell(linear)];
    forall a, b | 0 <= a < b < |items| && PlacedLast(valid, items, a) && PlacedLast(valid, items, b)
      ensures items[a].key in after && items[b].key in after && Linear(grid, after[items[a].key]) < Linear(grid, after[items[b].key])
    {
      ListedLastBefore(front, last, a);
      assert front[a] in front && front[a].key in placed - valid;
      if b < |front| {
        ListedLastBefore(front, last, b);
        assert PlacedLast(valid, front, a) && PlacedLast(valid, front, b);
      }
    }
  }

  lemma TightStep(grid: Grid, was: map<Key, Position>, valid: set<Key>, items: seq<Item>, i: nat,
                  positions: map<Key, Position>, occupied: set<Position>, placed: set<Key>, linear: nat)
    requires grid.Valid() && i < |items| && items[i].key !in valid
    requires Tight(grid, valid, items, i, positions, occupied, placed)
    requires Listed(was, valid, items, i, positions, placed) && Blocked(grid, occupied, positions, placed)
    requires IsFirstFree(grid, occupied, linear)
    ensures var key := items[i].key;
      Tight(grid, valid, items, i + 1, positions[key := grid.Cell(linear)], occupied + {grid.Cell(linear)}, placed + {key})
  {
    hide Grid.Cell, Grid.Slots, Linear, Gapless, Paged, Accounted, InItemOrder, Blocked, IsFirstFree, ListedLast, CountIn;
    var key, front := items[i].key, items[..i];
    GaplessStep(grid, valid, positions, occupied, placed, linear, key);
    PagedStep(grid, valid, positions, occupied, placed, linear, key);
    if DistinctKeys(items) {
      assert key !in placed;
      AccountedStep(grid, positions, occupied, placed, grid.Cell(linear), key);
    }
    forall k | k in placed - valid ensures Linear(grid, positions[k]) < linear {
      EarlierSlot(grid, valid, positions, occupied, placed, linear, k);
    }
    OrderStep(grid, valid, positions, front, items[i], placed, linear);
    assert items[..i + 1] == front + [items[i]];
  }

  /** Early slots lie on early pages. */
  lemma EarlyPage(grid: Grid, p: Position, pages: nat)
    requires grid.Valid() && Linear(grid, p) < pages * grid.Slots()
    ensures p.page < pages
  {
    if p.page >= pages {
      MulMonotone(pages, p.page, grid.Slots());
    }
  }

  /** The last page with a position on it, or the first page. */
  ghost predicate LastUsed(positions: map<Key, Position>, last: nat) {
    && (forall key <- positions :: positions[key].page <= last)
    && (last > 0 ==> exists key <- positions :: positions[key].page == last)
  }

  /** Where the first item with a path is listed, or the number of items. */
  function ItemIndex(items: seq<Item>, path: string): (at: nat)
    ensures at <= |items| && (at < |items| ==> items[at].path == path)
    ensures forall i | 0 <= i < at :: items[i].path != path
  {
    if items == [] || items[0].path == path then 0 else 1 + ItemIndex(items[1..], path)
  }

  ghost function KeptKeys(grid: Grid, positions: map<Key, Position>): set<Key>
    requires grid.Valid()
  {
    set key | key in positions && KeepsCell(grid, positions, key)
  }

  class DesktopModel {
    var positions: map<Key, Position>
    var generation: nat
    var stored: map<Key, Position>
    var items: seq<Item>
    var page: nat
    const writable: bool
    const topBar: nat
    const panel: nat
    // when set, storing a valid layout never fails
    const reliable: bool

    constructor (writable: bool, topBar: nat, panel: nat, reliable: bool)
      ensures positions == map[] && stored == map[] && items == [] && page == 0 && generation == 0
      ensures this.writable == writable && this.topBar == topBar && this.panel == panel && this.reliable == reliable
    {
      positions, generation, stored, items, page := map[], 0, map[], [], 0;
      this.writable, this.topBar, this.panel, this.reliable := writable, topBar, panel, reliable;
    }

    /** The layout speaks only of listed items; `Rescan` establishes this. */
    ghost predicate Scanned()
      reads this
    {
      positions.Keys <= KeySet(items)
    }

    method Save() returns (ok: bool)
      modifies this`stored
      ensures ok ==> LayoutValid(positions)
      ensures stored == if ok then positions else old(stored)
      ensures reliable && LayoutValid(positions) ==> ok
    {
      ok := *;
      ok := LayoutValid(positions) && (reliable || ok);
      if ok {
        stored := positions;
      }
    }

    method Rescan(listing: seq<Item>) returns (changed: bool)
      modifies this`items, this`positions
      ensures Scanned() && items == listing && changed == (old(items) != listing)
      ensures positions == map key | key in old(positions) && key in KeySet(listing) :: old(positions)[key]
    {
      changed := listing != items;
      items := listing;
      positions := map key | key in positions && key in KeySet(listing) :: positions[key];
    }

    method ScrollPage(amount: int) returns (changed: bool)
      modifies this`page
      ensures changed == (page != old(page))
      ensures amount == 0 ==> page == old(page)
      ensures amount > 0 ==> exists last: nat :: LastUsed(positions, last) && page == Min(Min(old(page) + 1, U32_MAX), last)
      ensures amount < 0 ==> page == Max(old(page) - 1, 0)
    {
      if amount == 0 {
        return false;
      }
      var maximum := LastPage(positions.Values);
      var next := if amount > 0 then Min(Min(page + 1, U32_MAX), maximum) else Max(page - 1, 0);
      assert forall key <- positions :: positions[key] in positions.Values;
      assert LastUsed(positions, maximum);
      changed := next != page;
      page := next;
      assert amount > 0 ==> LastUsed(positions, maximum) && page == Min(Min(old(page) + 1, U32_MAX), maximum);
    }

    method LastPage(cells: set<Position>) returns (last: nat)
      ensures forall cell <- cells :: cell.page <= last
      ensures last > 0 ==> exists cell <- cells :: cell.page == last
    {
      last := 0;
      var rest := cells;
      while rest != {}
        invariant rest <= cells
        invariant forall cell <- cells - rest :: cell.page <= last
        invariant last > 0 ==> exists cell <- cells :: cell.page == last
      {
        var cell :| cell in rest;
        if cell.page > last {
          last := cell.page;
        }
        rest := rest - {cell};
      }
    }

    /** Which keys keep their cells, and all cells taken. Keys are visited in order, so the least claimant of a cell keeps it. */
    method KeepValid(grid: Grid) returns (occupied: set<Position>, valid: set<Key>)
      requires grid.Valid()
      ensures valid <= positions.Keys && Settled(grid, positions, valid) && Blocked(grid, occupied, positions, valid)
      ensures forall key <- positions :: key in valid <==> KeepsCell(grid, positions, key)
      ensures |occupied| <= grid.Reserved() + |valid| && Accounted(grid, positions, occupied, valid)
      ensures valid == {} ==> occupied == ReservedCells(grid)
    {
      hide Grid.Cell, Grid.Slots, Grid.Reserved, Settled, Accounted, KeepsCell, Claimed, Blocked, NameOrder.Before, NameOrder.Sorted,
        NameOrder.Ascending, NameOrder.Members;
      occupied := ReservedCells(grid);
      ReservedCount(grid);
      NoneSettled(grid, positions);
      valid := {};
      var order := NameOrder.IntoSorted(positions.Keys);
      ghost var seen: set<Key> := {};
      NameOrder.NoMembers();
      for i := 0 to |order|
        invariant seen == NameOrder.Members(order[..i])
        invariant Settled(grid, positions, valid) && Blocked(grid, occupied, positions, valid)
        invariant Claimed(grid, occupied, positions, valid, seen)
        invariant |occupied| <= grid.Reserved() + |valid|
        invariant valid == {} ==> occupied == ReservedCells(grid)
      {
        var key := order[i];
        InOrder(positions.Keys, order, i);
        var p := positions[key];
        BlockedReserved(grid, occupied, positions, valid);
        ClaimStep(grid, occupied, positions, valid, seen, key);
        ClaimedValid(grid, occupied, positions, valid, seen);
        if grid.Contains(p) && p !in occupied {
          PlaceStep(grid, occupied, positions, valid, key, p);
          assert positions[key := p] == positions;
          occupied := occupied + {p};
          valid := valid + {key};
        }
        seen := seen + {key};
      }
      AllInOrder(positions.Keys, order);
      ClaimedAll(grid, occupied, positions, valid, seen);
      ClaimedAccounted(grid, occupied, positions, valid, seen);
    }

    /** Give every item without a valid cell the first free one, in item order. */
    method PlaceRest(grid: Grid, taken: set<Position>, valid: set<Key>) returns (occupied: set<Position>, changed: bool)
      requires grid.Valid() && Scanned() && |items| + 2 < U32_MAX
      requires valid <= positions.Keys && Settled(grid, positions, valid) && Blocked(grid, taken, positions, valid)
      requires |taken| <= grid.Reserved() + |valid| && Accounted(grid, positions, taken, valid)
      modifies this`positions
      ensures positions.Keys == KeySet(items) && Settled(grid, positions, positions.Keys)
      ensures Blocked(grid, occupied, positions, positions.Keys)
      ensures forall key <- valid :: positions[key] == old(positions)[key]
      ensures changed == !(KeySet(items) <= valid) && (!changed ==> positions == old(positions))
      ensures forall key <- positions.Keys - valid :: Linear(grid, positions[key]) < |items| + grid.Reserved()
      ensures valid == {} && taken == ReservedCells(grid) ==> Filling(grid, positions, occupied, items)
      ensures Tight(grid, valid, items, |items|, positions, occupied, positions.Keys)
    {
      hide Placing, Tight, Listed, Settled, Blocked, Accounted, Filling, Grid.Reserved, Grid.Cell, Linear, KeySet, IsFirstFree;
      ghost var was, scratch := positions, valid == {} && taken == ReservedCells(grid);
      PlacingStart(grid, positions, taken, valid, items);
      TightStart(grid, valid, items, positions, taken);
      occupied := taken;
      changed := false;
      ghost var placed := valid;
      for i := 0 to |items|
        invariant Placing(grid, was, valid, scratch, items, i, positions, occupied, placed)
        invariant Tight(grid, valid, items, i, positions, occupied, placed)
        invariant changed == !(placed <= valid)
      {
        var key := items[i].key;
        if key in valid {
          PlacingSkip(grid, was, valid, scratch, items, i, positions, occupied, placed);
          TightSkip(grid, valid, items, i, positions, occupied, placed);
        } else {
          PlacingBound(grid, was, valid, scratch, items, i, positions, occupied, placed);
          var p, linear := FirstFreePosition(grid, occupied);
          PlacingParts(grid, was, valid, scratch, items, i, positions, occupied, placed);
          TightStep(grid, was, valid, items, i, positions, occupied, placed, linear);
          PlacingStep(grid, was, valid, scratch, items, i, positions, occupied, placed, linear);
          occupied := occupied + {p};
          positions := positions[key := p];
          placed := placed + {key};
          changed := true;
        }
      }
      PlacingDone(grid, was, valid, scratch, items, positions, occupied, placed);
    }

    /** What laying out promises of the positions it leaves. */
    ghost predicate LaidOut(grid: Grid, was: map<Key, Position>)
      requires grid.Valid()
      reads this`positions, this`items
    {
      // one cell for every item key, each in the grid, off the shortcuts, and its own
      && positions.Keys == KeySet(items) && Settled(grid, positions, positions.Keys)
      // the least claimant of an acceptable cell keeps it
      && (forall key <- was :: KeepsCell(grid, was, key) ==> key in positions && positions[key] == was[key])
      // and every other item is on one of the first slots
      && (forall key <- positions ::
            (key in was && positions[key] == was[key]) || Linear(grid, positions[key]) < |items| + grid.Reserved())
      && (was == map[] ==> FilledInOrder(grid, positions, items))
      // those get their slots in item order, and no slot that could be had is passed over
      && InItemOrder(grid, KeptKeys(grid, was), positions, items)
      && (DistinctKeys(items) ==> forall key, j: nat | key in positions && key !in KeptKeys(grid, was) && j < Linear(grid, positions[key]) ::
            InUse(grid, positions, positions.Keys, grid.Cell(j)))
      // a layout that is already right is left alone
      && (Settled(grid, was, was.Keys) && KeySet(items) <= was.Keys ==> positions == was)
    }

    method Settle(grid: Grid) returns (occupied: set<Position>, changed: bool)
      requires grid.Valid() && Scanned() && |items| + 2 < U32_MAX
      modifies this`positions
      ensures LaidOut(grid, old(positions)) && positions.Keys == KeySet(items) && Blocked(grid, occupied, positions, positions.Keys)
      ensures changed <==> !(Settled(grid, old(positions), old(positions).Keys) && KeySet(items) <= old(positions).Keys)
      ensures Paged(positions, occupied, positions.Keys)
    {
      hide Grid.Cell, Grid.Slots, Grid.Reserved, Settled, FilledInOrder, Blocked, Accounted, Linear, KeepsCell, ReservedCells, Filling, KeySet,
        Tight, InItemOrder, DistinctKeys, Paged, InUse, KeptKeys;
      ghost var was := positions;
      var taken, valid := KeepValid(grid);
      KeptKeysAre(grid, was, valid);
      occupied, changed := PlaceRest(grid, taken, valid);
      FillingMeans(grid, positions, occupied, items);
      SettledKept(grid, was, was.Keys);
      TightMeans(grid, valid, items, positions, occupied);
      assert was == map[] ==> valid == {};
      assert !changed ==> valid == was.Keys;
    }

    /** Lay the desktop out for a screen, and say where every item is drawn. */
    method Positioned(width: nat, height: nat) returns (r: Result<map<Key, PositionedItem>, ()>)
      requires Scanned() && |items| + 2 < U32_MAX
      modifies this`positions, this`generation, this`stored, this`page
      ensures LaidOut(GridExtent(width, height, topBar, panel), old(positions))
      // the layout is stored when it has changed, and not otherwise
      ensures var fits := Settled(GridExtent(width, height, topBar, panel), old(positions), old(positions).Keys) && KeySet(items) <= old(positions).Keys;
        && generation == (if writable && !fits then Min(old(generation) + 1, U64_MAX) else old(generation))
        && stored == (if writable && !fits && r.Success? then positions else old(stored))
        && (r.Failure? ==> writable && !fits && page == old(page))
        && (reliable && (LayoutValid(positions) || !writable) ==> r.Success?)
        && (r.Success? && writable && !fits ==> LayoutValid(positions))
      // a page beyond the last one in use is left for that one
      ensures r.Success? ==> exists last: nat :: LastUsed(positions, last) && page == Min(old(page), last)
      ensures r.Success? ==> r.value.Keys == KeySet(items)
      ensures r.Success? ==> forall key <- r.value ::
        r.value[key] == PositionedItem(LastItem(items, key), RectOf(positions[key], topBar), positions[key].page)
    {
      hide Grid.Cell, Grid.Slots, Grid.Reserved, Settled, FilledInOrder, Blocked, GridExtent, Linear, KeepsCell, LayoutValid, KeySet,
        LastItem, RectOf, LastUsed, Paged, LaidOut;
      var grid := GridExtent(width, height, topBar, panel);
      var occupied, changed := Settle(grid);
      if changed && writable {
        generation := Min(generation + 1, U64_MAX);
        var ok := Save();
        if !ok {
          return Failure(());
        }
      }
      var last := LastPage(occupied);
      LastTakenUsed(grid, positions, occupied, last);
      page := Min(page, last);
      r := Success(map key | key in positions && key in KeySet(items) ::
        PositionedItem(LastItem(items, key), RectOf(positions[key], topBar), positions[key].page));
    }

    /** What dropping an item on a cell comes to, from a layout that is settled. */
    ghost predicate Dropped(r: Result<bool, ()>, grid: Grid, settled: map<Key, Position>, path: string, next: Position)
      requires grid.Valid() && settled.Keys == KeySet(items)
      reads this
    {
      var at := ItemIndex(items, path);
      if at == |items| || KeyAt(items, at, settled) == next || grid.IsReserved(next) then
        positions == settled && r != Success(true)
      else
        && MovedTo(settled, positions, items[at].key, next) && positions != settled && r != Success(false)
        && (r == Success(true) ==> stored == positions && LayoutValid(positions))
        && (reliable && LayoutValid(positions) ==> r == Success(true))
    }

    /** Drag an item to a point. The layout is settled first; `settled` is that layout. Storing it is the only thing that can
        keep the drag from being carried out. */
    method MoveItem(path: string, x: int, y: int, width: nat, height: nat)
      returns (r: Result<bool, ()>, ghost settled: map<Key, Position>)
      requires Scanned() && |items| + 2 < U32_MAX
      modifies this`positions, this`generation, this`stored, this`page
      ensures !writable ==> r == Failure(()) && positions == old(positions) && generation == old(generation)
      ensures writable ==>
        var grid := GridExtent(width, height, topBar, panel);
        && settled.Keys == KeySet(items) && Settled(grid, settled, settled.Keys)
        && positions.Keys == settled.Keys && Settled(grid, positions, positions.Keys)
        && (Settled(grid, old(positions), old(positions).Keys) && KeySet(items) <= old(positions).Keys ==> settled == old(positions))
        && (Dropped(r, grid, settled, path, DropCell(grid, x, y, topBar, page)) || (r.Failure? && positions == settled))
        && (reliable && LayoutValid(settled) ==>
              (Dropped(r, grid, settled, path, DropCell(grid, x, y, topBar, page)) && (positions == settled ==> r == Success(false))))
        && ((exists last: nat :: LastUsed(settled, last) && page == Min(old(page), last))
            || (r.Failure? && positions == settled && page == old(page)))
    {
      hide Grid.Cell, Grid.Slots, Grid.Reserved, Grid.IsReserved, Settled, FilledInOrder, GridExtent, Linear, KeepsCell, LayoutValid,
        KeySet, MovedTo, DropCell, ItemIndex, LastUsed, InUse, DistinctKeys, InItemOrder, KeptKeys, LastItem;
      settled := positions;
      if !writable {
        return Failure(()), settled;
      }
      var grid := GridExtent(width, height, topBar, panel);
      var laid := Positioned(width, height);
      settled := positions;
      if laid.Failure? {
        return Failure(()), settled;
      }
      var next := DropCell(grid, x, y, topBar, page);
      DropInGrid(grid, x, y, topBar, page);
      r := DropItem(grid, path, next);
    }

    /** Carry out the drag in a settled layout, unless there is nothing to do. */
    method DropItem(grid: Grid, path: string, next: Position) returns (r: Result<bool, ()>)
      requires grid.Valid() && grid.Contains(next)
      requires positions.Keys == KeySet(items) && Settled(grid, positions, positions.Keys)
      modifies this`positions, this`generation, this`stored
      ensures positions.Keys == old(positions).Keys && Settled(grid, positions, positions.Keys)
      ensures Dropped(r, grid, old(positions), path, next) && (positions == old(positions) ==> r == Success(false))
    {
      hide Grid.Cell, Grid.Slots, Grid.Reserved, Grid.IsReserved, Settled, LayoutValid, KeySet, MovedTo, ItemIndex;
      var at := FindItem(path);
      if at == |items| {
        return Success(false);
      }
      var key := items[at].key;
      KeyListed(items, at);
      if next == positions[key] {
        return Success(false);
      }
      ReservedLinear(grid, next);
      if next.page == 0 && Min(Min(next.column * grid.rows, U32_MAX) + next.row, U32_MAX) < 2 {
        return Success(false);
      }
      var ok := Drag(grid, key, next);
      return if ok then Success(true) else Failure(());
    }

    /** Two drags: an item away, and back to a point in its old rectangle. Then everything is where it was. */
    method MoveThereAndBack(path: string, x: int, y: int, backX: int, backY: int, width: nat, height: nat)
      returns (r: Result<bool, ()>, ghost settled: map<Key, Position>)
      requires Scanned() && |items| + 2 < U32_MAX && writable && reliable && ItemIndex(items, path) < |items|
      requires backX <= I32_MAX && backY <= I32_MAX
      requires var grid := GridExtent(width, height, topBar, panel);
        && Settled(grid, positions, positions.Keys) && KeySet(items) <= positions.Keys && LayoutValid(positions)
        && var previous := KeyAt(items, ItemIndex(items, path), positions);
        previous.page == page && RectOf(previous, topBar).Contains(backX, backY)
      modifies this`positions, this`generation, this`stored, this`page
      ensures r.Success? ==> positions == old(positions)
      // only a layout that may not be stored keeps an item away
      ensures r.Failure? ==> !LayoutValid(positions)
    {
      hide Grid.Cell, Grid.Slots, Grid.Reserved, Grid.IsReserved, Settled, GridExtent, LayoutValid, KeySet, DropCell, RectOf, ItemIndex, MovedTo;
      ghost var grid, was, shown := GridExtent(width, height, topBar, panel), positions, page;
      ghost var key := items[ItemIndex(items, path)].key;
      KeyListed(items, ItemIndex(items, path));
      r, settled := MoveItem(path, x, y, width, height);
      if r.Failure? || !r.value {
        assert r.Success? ==> r == Success(r.value);
        return;
      }
      ghost var away, next := positions, DropCell(grid, x, y, topBar, page);
      DropInGrid(grid, x, y, topBar, page);
      MovedPlace(was, away, key, next);
      assert page == shown && away[key].page == shown;
      r, settled := MoveItem(path, backX, backY, width, height);
      assert page == shown;
      SettledPlace(grid, was, key);
      PointFindsCell(grid, was[key], backX, backY, topBar);
      MoveBack(grid, was, away, positions, key, next);
    }

    /** Move one key to a free or occupied cell, and store the layout. */
    method Drag(grid: Grid, key: Key, next: Position) returns (ok: bool)
      requires grid.Valid() && Settled(grid, positions, positions.Keys) && key in positions && next != positions[key]
      requires grid.Contains(next) && !grid.IsReserved(next)
      modifies this`positions, this`generation, this`stored
      ensures MovedTo(old(positions), positions, key, next) && positions != old(positions)
      ensures positions.Keys == old(positions).Keys && Settled(grid, positions, positions.Keys)
      ensures generation == Min(old(generation) + 1, U64_MAX)
      ensures stored == if ok then positions else old(stored)
      ensures ok ==> LayoutValid(positions)
      ensures reliable && LayoutValid(positions) ==> ok
    {
      hide Grid.IsReserved, Settled, LayoutValid;
      ghost var was := positions;
      var previous := positions[key];
      var occupant := Occupant(key, next);
      if occupant.Some? {
        positions := positions[occupant.value := previous];
      }
      positions := positions[key := next];
      assert MovedTo(was, positions, key, next);
      MoveSettled(grid, was, positions, key, next);
      assert positions[key] != was[key];
      generation := Min(generation + 1, U64_MAX);
      ok := Save();
    }

    method FindItem(path: string) returns (at: nat)
      ensures at == ItemIndex(items, path)
    {
      at := 0;
      assert items[0..] == items;
      while at < |items| && items[at].path != path
        invariant at <= |items| && ItemIndex(items, path) == at + ItemIndex(items[at..], path)
      {
        assert items[at..][1..] == items[at + 1..];
        at := at + 1;
      }
    }

    /** Some other key whose cell this is. */
    method Occupant(key: Key, next: Position) returns (other: Option<Key>)
      ensures other.Some? ==> OccupiedBy(positions, other.value, key, next)
      ensures other.None? ==> forall o :: !OccupiedBy(positions, o, key, next)
    {
      var rest := positions.Keys;
      while rest != {}
        invariant rest <= positions.Keys
        invariant forall o <- positions.Keys - rest :: !OccupiedBy(positions, o, key, next)
      {
        var o :| o in rest;
        if o != key && positions[o] == next {
          return Some(o);
        }
        rest := rest - {o};
      }
      return None;
    }

    /** Forget every position; the next `Positioned` fills the desktop in item order. */
    method ArrangeIcons() returns (ok: bool)
      modifies this`positions, this`generation, this`stored, this`page
      ensures !writable ==> !ok && positions == old(positions) && page == old(page) && generation == old(generation)
      ensures writable ==> positions == map[] && generation == Min(old(generation) + 1, U64_MAX)
      ensures if ok then page == 0 && stored == map[] else page == old(page) && stored == old(stored)
      ensures Scanned()  || !writable
      ensures reliable && writable ==> ok
    {
      if !writable {
        return false;
      }
      positions := map[];
      generation := Min(generation + 1, U64_MAX);
      ok := Save();
      if ok {
        page := 0;
      }
    }
  }

  /** The cell of the item listed at an index. */
  function KeyAt(items: seq<Item>, at: nat, positions: map<Key, Position>): Position
    requires at < |items| && KeySet(items) <= positions.Keys
  {
    KeyListed(items, at);
    positions[items[at].key]
  }

  lemma MovedPlace(positions: map<Key, Position>, after: map<Key, Position>, key: Key, next: Position)
    requires key in positions && MovedTo(positions, after, key, next)
    ensures key in after && after[key] == next
  {
  }

  lemma SettledPlace(grid: Grid, positions: map<Key, Position>, key: Key)
    requires grid.Valid() && Settled(grid, positions, positions.Keys) && key in positions
    ensures grid.Contains(positions[key]) && !grid.IsReserved(positions[key])
  {
    hide Grid.IsReserved, Grid.Contains;
  }

  lemma KeyListed(items: seq<Item>, at: nat)
    requires at < |items|
    ensures items[at].key in KeySet(items)
  {
  }

  lemma KeptKeysAre(grid: Grid, positions: map<Key, Position>, valid: set<Key>)
    requires grid.Valid() && valid <= positions.Keys && forall key <- positions :: key in valid <==> KeepsCell(grid, positions, key)
    ensures valid == KeptKeys(grid, positions)
  {
    hide KeepsCell;
  }

  lemma TightMeans(grid: Grid, valid: set<Key>, items: seq<Item>, positions: map<Key, Position>, occupied: set<Position>)
    requires grid.Valid() && Tight(grid, valid, items, |items|, positions, occupied, positions.Keys)
    ensures InItemOrder(grid, valid, positions, items) && Paged(positions, occupied, positions.Keys)
    ensures DistinctKeys(items) ==>
      (forall key, j: nat | key in positions && key !in valid && j < Linear(grid, positions[key]) ::
         InUse(grid, positions, positions.Keys, grid.Cell(j)))
  {
    hide Grid.Cell, Grid.Slots, Grid.Reserved, Linear, InUse, DistinctKeys, InItemOrder, Paged;
    assert items[..|items|] == items;
  }

  /** The last page on which a cell is taken is the last page in use. */
  lemma LastTakenUsed(grid: Grid, positions: map<Key, Position>, occupied: set<Position>, last: nat)
    requires grid.Valid() && Blocked(grid, occupied, positions, positions.Keys) && Paged(positions, occupied, positions.Keys)
    requires (forall cell <- occupied :: cell.page <= last) && (last > 0 ==> exists cell <- occupied :: cell.page == last)
    ensures LastUsed(positions, last)
  {
    hide Grid.Cell, Grid.Slots, Grid.Reserved;
  }

  lemma FillingMeans(grid: Grid, positions: map<Key, Position>, occupied: set<Position>, items: seq<Item>)
    requires grid.Valid()
    ensures Filling(grid, positions, occupied, items) ==> FilledInOrder(grid, positions, items)
  {
  }

  lemma SettledKept(grid: Grid, positions: map<Key, Position>, keys: set<Key>)
    requires grid.Valid() && keys == positions.Keys
    ensures Settled(grid, positions, keys) ==> forall key <- keys :: KeepsCell(grid, positions, key)
  {
    hide NameOrder.Before;
  }

  /** Visiting keys in order: those seen are the lesser ones. */
  lemma InOrder(keys: set<Key>, order: seq<Key>, i: nat)
    requires order == NameOrder.Sorted(keys) && i < |order|
    ensures order[i] in keys && order[i] !in NameOrder.Members(order[..i])
    ensures NameOrder.Members(order[..i + 1]) == NameOrder.Members(order[..i]) + {order[i]}
    ensures forall other <- keys :: other in NameOrder.Members(order[..i]) <==> NameOrder.Before(other, order[i])
  {
    hide NameOrder.Before, NameOrder.Sorted, NameOrder.Ascending;
    NameOrder.SortedMembers(keys);
    NameOrder.SortedAscending(keys);
    forall other | other in keys ensures other in NameOrder.Members(order[..i]) <==> NameOrder.Before(other, order[i]) {
      var k :| 0 <= k < |order| && order[k] == other;
      NameOrder.EarlierExactly(order, i, k);
    }
    NameOrder.EarlierExactly(order, i, i);
    NameOrder.Irreflexive(order[i]);
    assert order[..i + 1] == order[..i] + [order[i]];
  }

  lemma AllInOrder(keys: set<Key>, order: seq<Key>)
    requires order == NameOrder.Sorted(keys)
    ensures NameOrder.Members(order[..|order|]) == keys
  {
    hide NameOrder.Sorted;
    NameOrder.SortedMembers(keys);
    assert order[..|order|] == order;
  }

  lemma BlockedReserved(grid: Grid, occupied: set<Position>, positions: map<Key, Position>, placed: set<Key>)
    requires grid.Valid() && Blocked(grid, occupied, positions, placed)
    ensures forall slot | 0 <= slot < grid.Reserved() :: grid.Cell(slot) in occupied
  {
    hide Grid.Cell, Grid.Slots, Grid.Reserved;
  }

  lemma ClaimedValid(grid: Grid, occupied: set<Position>, positions: map<Key, Position>, valid: set<Key>, seen: set<Key>)
    requires grid.Valid() && Claimed(grid, occupied, positions, valid, seen)
    ensures valid <= seen <= positions.Keys
  {
  }

  lemma ClaimedAll(grid: Grid, occupied: set<Position>, positions: map<Key, Position>, valid: set<Key>, seen: set<Key>)
    requires grid.Valid() && Claimed(grid, occupied, positions, valid, seen) && seen == positions.Keys
    ensures valid <= positions.Keys && forall key <- positions :: key in valid <==> KeepsCell(grid, positions, key)
  {
    hide KeepsCell;
  }

  lemma ClaimedAccounted(grid: Grid, occupied: set<Position>, positions: map<Key, Position>, valid: set<Key>, seen: set<Key>)
    requires grid.Valid() && Claimed(grid, occupied, positions, valid, seen)
    ensures Accounted(grid, positions, occupied, valid)
  {
    hide KeepsCell, Grid.IsReserved;
  }

  lemma DropInGrid(grid: Grid, x: int, y: int, topBar: nat, page: nat)
    requires grid.Valid()
    ensures grid.Contains(DropCell(grid, x, y, topBar, page)) && DropCell(grid, x, y, topBar, page).page == page
  {
  }

  /** A laid-out desktop can be stored as long as the items and the shortcuts fit the pages a layout may have. */
  lemma NewPagesFit(grid: Grid, p: Position, count: nat)
    requires grid.Valid() && Linear(grid, p) < count + grid.Reserved()
    requires count + grid.Reserved() <= (MAX_LAYOUT_PAGE + 1) * grid.Slots()
    ensures p.page <= MAX_LAYOUT_PAGE
  {
    EarlyPage(grid, p, MAX_LAYOUT_PAGE + 1);
  }
}
