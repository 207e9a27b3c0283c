// The desktop grid: slots, cells, rectangles and layouts as values.
module IconCells {
  import opened Wrappers
  import opened Numbers
  import opened Text

  const I32_MAX: int := 0x7fff_ffff
  const U32_MAX: int := 0xffff_ffff
  const U64_MAX: int := 0xffff_ffff_ffff_ffff

  const ICON_CELL_WIDTH: int := 96
  const ICON_CELL_HEIGHT: int := 100
  const ICON_LEFT: int := 14
  const ICON_MARGIN: int := 16

  const MAX_LAYOUT_ENTRIES: nat := 65_536
  const MAX_LAYOUT_COORDINATE: nat := 1_000_000
  const MAX_LAYOUT_PAGE: nat := 4095

  type Key = string

  datatype Position = Position(column: nat, row: nat, page: nat)

  datatype Rect = Rect(x: int, y: int, width: int, height: int) {
    predicate Contains(px: int, py: int) {
      x <= px < x + width && y <= py < y + height
    }
  }

  /** The part of a screen given to icons. */
  datatype Grid = Grid(columns: nat, rows: nat) {
    predicate Valid() {
      1 <= columns <= I32_MAX && 1 <= rows <= I32_MAX
    }

    /** A 32-bit saturating product, at least one. */
    function Slots(): (slots: nat)
      requires Valid()
      ensures 1 <= slots <= U32_MAX
      ensures slots <= columns * rows
    {
      Positive(columns, rows);
      if columns * rows > U32_MAX then U32_MAX else columns * rows
    }

    predicate Contains(p: Position) {
      p.column < columns && p.row < rows
    }

    function Cell(linear: nat): Position
      requires Valid()
    {
      DivMod(linear, Slots());
      var slot := linear % Slots();
      DivMod(slot, rows);
      Position(slot / rows, slot % rows, linear / Slots())
    }

    function Reserved(): nat
      requires Valid()
    {
      if Slots() < 2 then Slots() else 2
    }

    /** The cells of the two built-in shortcuts. */
    predicate IsReserved(p: Position)
      requires Valid()
    {
      exists slot :: 0 <= slot < Reserved() && p == Cell(slot)
    }
  }

  function Saturate32(a: int): int {
    Max(-I32_MAX - 1, Min(a, I32_MAX))
  }

  function GridExtent(width: nat, height: nat, topBar: nat, panel: nat): (grid: Grid)
    ensures grid.Valid()
  {
    var usableWidth := Max(Saturate32(Min(width, I32_MAX) - ICON_LEFT * 2), ICON_CELL_WIDTH);
    var usableHeight := Max(
      Saturate32(Saturate32(Saturate32(Min(height, I32_MAX) - topBar) - panel) - ICON_MARGIN * 2), ICON_CELL_HEIGHT);
    Grid(Max(usableWidth / ICON_CELL_WIDTH, 1), Max(usableHeight / ICON_CELL_HEIGHT, 1))
  }

  function RectOf(p: Position, topBar: nat): Rect {
    Rect(ICON_LEFT + p.column * ICON_CELL_WIDTH, topBar + ICON_MARGIN + p.row * ICON_CELL_HEIGHT,
         ICON_CELL_WIDTH - 8, ICON_CELL_HEIGHT - 8)
  }

  function Clamp(a: int, top: int): int
    requires top >= 0
  {
    Max(0, Min(a, top))
  }

  /** The cell a point is dropped on. */
  function DropCell(grid: Grid, x: int, y: int, topBar: nat, page: nat): Position
    requires grid.Valid()
  {
    var column := Clamp(Truncated(Saturate32(Saturate32(x) - ICON_LEFT), ICON_CELL_WIDTH), grid.columns - 1);
    var row := Clamp(Truncated(Saturate32(Saturate32(y) - (topBar + ICON_MARGIN)), ICON_CELL_HEIGHT), grid.rows - 1);
    Position(column, row, page)
  }

  // ---------------------------------------------------------------- geometry

  /** On any screen that has room for one cell, every cell of the grid is drawn between the bars. */
  lemma CellsOnScreen(width: nat, height: nat, topBar: nat, panel: nat, p: Position)
    requires ICON_LEFT * 2 + ICON_CELL_WIDTH <= width <= I32_MAX
    requires topBar + panel + ICON_MARGIN * 2 + ICON_CELL_HEIGHT <= height <= I32_MAX
    requires GridExtent(width, height, topBar, panel).Contains(p)
    ensures var rect := RectOf(p, topBar);
      && ICON_LEFT <= rect.x && rect.x + rect.width <= width - ICON_LEFT
      && topBar + ICON_MARGIN <= rect.y && rect.y + rect.height <= height - panel - ICON_MARGIN
  {
    var grid := GridExtent(width, height, topBar, panel);
    assert grid.columns * ICON_CELL_WIDTH <= width - ICON_LEFT * 2;
    assert grid.rows * ICON_CELL_HEIGHT <= height - topBar - panel - ICON_MARGIN * 2;
  }

  /** Whether a length of cells, after a margin, ends before another. */
  predicate Room(before: int, cells: int, size: int, after: int, available: int) {
    before + cells * size <= available - after
  }

  /** And the grid has every cell there is room for; its first column and row are there in any case. */
  lemma GridExact(width: nat, height: nat, topBar: nat, panel: nat, p: Position)
    ensures GridExtent(width, height, topBar, panel).Contains(p) <==>
      ((p.column == 0 || Room(ICON_LEFT, p.column + 1, ICON_CELL_WIDTH, ICON_LEFT, Min(width, I32_MAX)))
       && (p.row == 0 || Room(topBar + ICON_MARGIN, p.row + 1, ICON_CELL_HEIGHT, panel + ICON_MARGIN, Min(height, I32_MAX))))
  {
    var grid := GridExtent(width, height, topBar, panel);
    var across := Max(Min(width, I32_MAX) - ICON_LEFT * 2, ICON_CELL_WIDTH);
    var down := Max(Min(height, I32_MAX) - topBar - panel - ICON_MARGIN * 2, ICON_CELL_HEIGHT);
    assert grid.columns == across / ICON_CELL_WIDTH && grid.rows == down / ICON_CELL_HEIGHT;
    assert p.column < grid.columns <==> (p.column + 1) * ICON_CELL_WIDTH <= across;
    assert p.row < grid.rows <==> (p.row + 1) * ICON_CELL_HEIGHT <= down;
  }

  /** Rectangles are as large as their cells but for a gap, and begin in the corner the margins leave. */
  lemma RectsTile(p: Position, topBar: nat)
    ensures var rect := RectOf(p, topBar);
      var right, below := RectOf(Position(p.column + 1, p.row, p.page), topBar), RectOf(Position(p.column, p.row + 1, p.page), topBar);
      && rect.width + 8 == ICON_CELL_WIDTH && rect.height + 8 == ICON_CELL_HEIGHT
      && right.x == rect.x + rect.width + 8 && right.y == rect.y
      && below.y == rect.y + rect.height + 8 && below.x == rect.x
      && (p.column == 0 ==> rect.x == ICON_LEFT) && (p.row == 0 ==> rect.y == topBar + ICON_MARGIN)
  {
  }

  /** The column a point is dropped on is the one it lies in; what lies before the first or after the last counts for that. */
  lemma DropColumnExact(grid: Grid, x: int, y: int, topBar: nat, page: nat, column: nat)
    requires grid.Valid() && column < grid.columns
    ensures DropCell(grid, x, y, topBar, page).column == column <==>
      ((column == 0 || ICON_LEFT + column * ICON_CELL_WIDTH <= Min(x, I32_MAX))
       && (column + 1 == grid.columns || Min(x, I32_MAX) < ICON_LEFT + (column + 1) * ICON_CELL_WIDTH))
  {
    ClampedExact(Saturate32(Saturate32(x) - ICON_LEFT), ICON_CELL_WIDTH, grid.columns - 1, column);
  }

  lemma DropRowExact(grid: Grid, x: int, y: int, topBar: nat, page: nat, row: nat)
    requires grid.Valid() && row < grid.rows
    ensures DropCell(grid, x, y, topBar, page).row == row <==>
      ((row == 0 || topBar + ICON_MARGIN + row * ICON_CELL_HEIGHT <= Min(y, I32_MAX))
       && (row + 1 == grid.rows || Min(y, I32_MAX) < topBar + ICON_MARGIN + (row + 1) * ICON_CELL_HEIGHT))
  {
    ClampedExact(Saturate32(Saturate32(y) - (topBar + ICON_MARGIN)), ICON_CELL_HEIGHT, grid.rows - 1, row);
  }

  lemma ClampedExact(d: int, size: nat, top: nat, at: nat)
    requires size == ICON_CELL_WIDTH || size == ICON_CELL_HEIGHT
    requires at <= top
    ensures Clamp(Truncated(d, size), top) == at <==> (at == 0 || at * size <= d) && (at == top || d < (at + 1) * size)
  {
    if d >= 0 {
      DivMod(d, size);
    } else {
      DivMod(-d, size);
    }
  }

  /** A point inside a cell's rectangle is dropped on that cell. */
  lemma PointFindsCell(grid: Grid, p: Position, x: int, y: int, topBar: nat)
    requires grid.Valid() && grid.Contains(p) && RectOf(p, topBar).Contains(x, y)
    requires x <= I32_MAX && y <= I32_MAX
    ensures DropCell(grid, x, y, topBar, p.page) == p
  {
    var dx, dy := x - ICON_LEFT, y - (topBar + ICON_MARGIN);
    assert dx / ICON_CELL_WIDTH == p.column && dy / ICON_CELL_HEIGHT == p.row;
  }

  /** So rectangles of different cells on one page have no point in common. */
  lemma RectsDisjoint(grid: Grid, p: Position, q: Position, x: int, y: int, topBar: nat)
    requires grid.Valid() && grid.Contains(p) && grid.Contains(q) && p.page == q.page && p != q
    requires x <= I32_MAX && y <= I32_MAX
    ensures !(RectOf(p, topBar).Contains(x, y) && RectOf(q, topBar).Contains(x, y))
  {
    if RectOf(p, topBar).Contains(x, y) && RectOf(q, topBar).Contains(x, y) {
      PointFindsCell(grid, p, x, y, topBar);
      PointFindsCell(grid, q, x, y, topBar);
      assert false;
    }
  }

  // ---------------------------------------------------------------- slots

  /** Where in the order of slots a cell comes. */
  function Linear(grid: Grid, p: Position): nat
    requires grid.Valid()
  {
    p.page * grid.Slots() + (p.column * grid.rows + p.row)
  }

  lemma DivMod(a: nat, b: nat)
    requires b >= 1
    ensures a == (a / b) * b + a % b && 0 <= a % b < b && a / b >= 0
  {
  }

  lemma QuotientBelow(a: nat, b: nat, c: nat)
    requires b >= 1 && a < c * b
    ensures a / b < c
  {
    DivMod(a, b);
    if a / b >= c {
      MulMonotone(c, a / b, b);
    }
  }

  lemma MulMonotone(a: int, b: int, c: nat)
    requires a <= b
    ensures a * c <= b * c
  {
  }

  lemma CellInGrid(grid: Grid, linear: nat)
    requires grid.Valid()
    ensures grid.Contains(grid.Cell(linear)) && Linear(grid, grid.Cell(linear)) == linear
  {
    var slots := grid.Slots();
    var slot := linear % slots;
    DivMod(linear, slots);
    DivMod(slot, grid.rows);
    QuotientBelow(slot, grid.rows, grid.columns);
  }

  /** A cell is that of its slot, unless the page has more cells than a slot number can count. */
  lemma CellOfSlot(grid: Grid, p: Position)
    requires grid.Valid() && grid.Contains(p)
    ensures grid.Cell(Linear(grid, p)) == p <==> p.column * grid.rows + p.row < U32_MAX
  {
    var slots, at := grid.Slots(), Offset(grid, p);
    if at < slots {
      ColumnRow(p.page, at, slots);
      ColumnRow(p.column, p.row, grid.rows);
    } else {
      NextPage(p.page, at, slots);
    }
  }

  /** Slots run down the columns, from column to column, and from page to page. */
  lemma NextSlot(grid: Grid, linear: nat)
    requires grid.Valid() && grid.columns * grid.rows <= U32_MAX
    ensures grid.Cell(0) == Position(0, 0, 0)
    ensures var p := grid.Cell(linear);
      grid.Cell(linear + 1) ==
        if p.row + 1 < grid.rows then Position(p.column, p.row + 1, p.page)
        else if p.column + 1 < grid.columns then Position(p.column + 1, 0, p.page)
        else Position(0, 0, p.page + 1)
  {
    hide Grid.Cell;
    var p := grid.Cell(linear);
    CellInGrid(grid, linear);
    var next := if p.row + 1 < grid.rows then Position(p.column, p.row + 1, p.page)
      else if p.column + 1 < grid.columns then Position(p.column + 1, 0, p.page)
      else Position(0, 0, p.page + 1);
    NextLinear(grid, p, next);
    FitsPage(grid, next);
    CellOfSlot(grid, next);
    FitsPage(grid, Position(0, 0, 0));
    CellOfSlot(grid, Position(0, 0, 0));
  }

  lemma FitsPage(grid: Grid, p: Position)
    requires grid.Valid() && grid.Contains(p) && grid.columns * grid.rows <= U32_MAX
    ensures p.column * grid.rows + p.row < U32_MAX
  {
    assert Offset(grid, p) < grid.columns * grid.rows;
  }

  lemma NextLinear(grid: Grid, p: Position, next: Position)
    requires grid.Valid() && grid.Contains(p) && grid.columns * grid.rows <= U32_MAX
    requires next == if p.row + 1 < grid.rows then Position(p.column, p.row + 1, p.page)
      else if p.column + 1 < grid.columns then Position(p.column + 1, 0, p.page)
      else Position(0, 0, p.page + 1)
    ensures Linear(grid, next) == Linear(grid, p) + 1
  {
    Positive(grid.columns, grid.rows);
    assert grid.Slots() == grid.columns * grid.rows;
    assert (p.column + 1) * grid.rows == p.column * grid.rows + grid.rows;
    assert (p.page + 1) * grid.Slots() == p.page * grid.Slots() + grid.Slots();
  }

  lemma NextPage(page: nat, at: nat, slots: nat)
    requires 1 <= slots <= at
    ensures (page * slots + at) / slots > page
  {
    var linear := page * slots + at;
    DivMod(linear, slots);
    if linear / slots <= page {
      MulMonotone(linear / slots, page, slots);
    }
  }

  lemma CellsDiffer(grid: Grid, i: nat, j: nat)
    requires grid.Valid() && grid.Cell(i) == grid.Cell(j)
    ensures i == j
  {
    CellInGrid(grid, i);
    CellInGrid(grid, j);
  }

  /** On page zero the test "linear index below two" picks out the reserved cells. */
  lemma ReservedLinear(grid: Grid, p: Position)
    requires grid.Valid() && grid.Contains(p)
    ensures grid.IsReserved(p) <==> p.page == 0 && p.column * grid.rows + p.row < 2
  {
    hide Grid.Cell;
    var at := Offset(grid, p);
    if grid.IsReserved(p) {
      var slot :| 0 <= slot < grid.Reserved() && p == grid.Cell(slot);
      EarlyCell(grid, slot);
      DivMod(slot, grid.rows);
    }
    if p.page == 0 && at < 2 {
      EarlyCell(grid, at);
      ColumnRow(p.column, p.row, grid.rows);
      assert p == grid.Cell(at);
    }
  }

  function Offset(grid: Grid, p: Position): (at: nat)
    requires grid.Valid() && grid.Contains(p)
    ensures at == p.column * grid.rows + p.row && at < grid.columns * grid.rows
  {
    MulMonotone(p.column + 1, grid.columns, grid.rows);
    p.column * grid.rows + p.row
  }

  /** A cell of the first page. */
  lemma EarlyCell(grid: Grid, slot: nat)
    requires grid.Valid() && slot < grid.Slots()
    ensures grid.Cell(slot).page == 0 && grid.Cell(slot).column == slot / grid.rows && grid.Cell(slot).row == slot % grid.rows
  {
    hide Grid.Slots;
    SmallSlot(slot, grid.Slots());
  }

  lemma SmallSlot(at: nat, slots: nat)
    requires at < slots
    ensures at % slots == at && at / slots == 0
  {
  }

  lemma ColumnRow(column: nat, row: nat, rows: nat)
    requires row < rows
    ensures (column * rows + row) / rows == column && (column * rows + row) % rows == row
  {
    var a := column * rows + row;
    DivMod(a, rows);
    if a / rows < column {
      MulMonotone(a / rows + 1, column, rows);
    } else if a / rows > column {
      MulMonotone(column + 1, a / rows, rows);
    }
  }

  // ---------------------------------------------------------------- layouts

  predicate LayoutValid(positions: map<Key, Position>) {
    && |positions| <= MAX_LAYOUT_ENTRIES
    && forall key <- positions :: (KeyValid(key) &&
         positions[key].column <= MAX_LAYOUT_COORDINATE && positions[key].row <= MAX_LAYOUT_COORDINATE
         && positions[key].page <= MAX_LAYOUT_PAGE)
  }

  /** Two 64-bit numbers around the first colon. */
  predicate KeyValid(key: Key) {
    var at := Colon(key);
    at < |key| && ParseDecimal(key[..at], U64).Some? && ParseDecimal(key[at + 1..], U64).Some?
  }

  function LayoutKey(device: nat, inode: nat): Key {
    Decimal(device) + ":" + Decimal(inode)
  }

  /** The key made for a file is acceptable and names no other file. */
  lemma LayoutKeyExact(device: nat, inode: nat)
    requires device < U64 && inode < U64
    ensures KeyValid(LayoutKey(device, inode))
    ensures var key := LayoutKey(device, inode);
      DecimalValueOf(key[..Colon(key)]) == device && DecimalValueOf(key[Colon(key) + 1..]) == inode
  {
    hide Decimal, DecimalValue, Colon;
    var a, b, key := Decimal(device), Decimal(inode), LayoutKey(device, inode);
    DecimalReads(device);
    DecimalReads(inode);
    assert forall i | 0 <= i < |a| :: key[i] == a[i] && IsDigit(a[i]);
    assert key[|a|] == ':';
    assert Colon(key) == |a|;
    assert key[..|a|] == a && key[|a| + 1..] == b;
    assert IsDigit(a[0]) && IsDigit(b[0]);
  }

  /** A key is acceptable exactly when it spells two 64-bit numbers with a colon between them. */
  lemma KeyValidExact(key: Key)
    ensures KeyValid(key) <==> exists a: string, b: string, device: nat, inode: nat ::
      (device < U64 && inode < U64 && Spells(a, device) && Spells(b, inode) && key == a + ":" + b)
  {
    hide Colon, ParseDecimal, Spells;
    if KeyValid(key) {
      var at := Colon(key);
      var a, b := key[..at], key[at + 1..];
      ParseDecimalExact(a, U64, ParseDecimal(a, U64).value);
      ParseDecimalExact(b, U64, ParseDecimal(b, U64).value);
      BelowLimit(a, U64);
      BelowLimit(b, U64);
      assert key == a + ":" + b;
    }
    if a: string, b: string, device: nat, inode: nat :|
      device < U64 && inode < U64 && Spells(a, device) && Spells(b, inode) && key == a + ":" + b {
      ParseDecimalExact(a, U64, device);
      ParseDecimalExact(b, U64, inode);
      NoColon(a, U64);
      assert forall i | 0 <= i < |a| :: key[i] == a[i];
      assert key[|a|] == ':';
      assert Colon(key) == |a|;
      assert key[..|a|] == a && key[|a| + 1..] == b;
    }
  }

  lemma BelowLimit(s: string, limit: nat)
    requires ParseDecimal(s, limit).Some?
    ensures ParseDecimal(s, limit).value < limit
  {
  }

  lemma NoColon(s: string, limit: nat)
    requires ParseDecimal(s, limit).Some?
    ensures forall i | 0 <= i < |s| :: s[i] != ':'
  {
    hide DecimalValue;
    assert forall i | 0 < i < |s| :: s[i] == s[1..][i - 1];
  }

  /** A layout may not be stored exactly when it is too long, or some key or some position is out of order. */
  lemma LayoutRefused(positions: map<Key, Position>)
    ensures !LayoutValid(positions) <==>
      (|positions| > MAX_LAYOUT_ENTRIES
       || exists key <- positions :: (!KeyValid(key) || positions[key].column > MAX_LAYOUT_COORDINATE
            || positions[key].row > MAX_LAYOUT_COORDINATE || positions[key].page > MAX_LAYOUT_PAGE))
  {
    hide KeyValid;
  }

  function DecimalValueOf(s: string): nat {
    if AllDigits(s) then DecimalValue(s) else 0
  }

  /** Every listed key has a cell of its own in the grid, away from the shortcuts. */
  ghost predicate Settled(grid: Grid, positions: map<Key, Position>, keys: set<Key>)
    requires grid.Valid()
  {
    && keys <= positions.Keys
    && (forall key <- keys :: grid.Contains(positions[key]) && !grid.IsReserved(positions[key]))
    && (forall a <- keys, b <- keys :: positions[a] == positions[b] ==> a == b)
  }

  // ---------------------------------------------------------------- dragging

  predicate OccupiedBy(positions: map<Key, Position>, other: Key, key: Key, next: Position) {
    other in positions && other != key && positions[other] == next
  }

  /** `after` is `positions` with the key moved, and one occupant of the target cell sent where the key was. */
  ghost predicate MovedTo(positions: map<Key, Position>, after: map<Key, Position>, key: Key, next: Position)
    requires key in positions
  {
    (exists other :: OccupiedBy(positions, other, key, next) && after == positions[other := positions[key]][key := next])
    || ((forall other :: !OccupiedBy(positions, other, key, next)) && after == positions[key := next])
  }

  /** A drag keeps every item in a cell of its own. */
  lemma MoveSettled(grid: Grid, positions: map<Key, Position>, after: map<Key, Position>, key: Key, next: Position)
    requires grid.Valid() && Settled(grid, positions, positions.Keys) && key in positions
    requires grid.Contains(next) && !grid.IsReserved(next) && MovedTo(positions, after, key, next)
    ensures Settled(grid, after, positions.Keys) && after.Keys == positions.Keys
  {
    hide Grid.IsReserved, Grid.Contains;
    if other :| OccupiedBy(positions, other, key, next) && after == positions[other := positions[key]][key := next] {
      SwapSettled(grid, positions, key, other, next);
    } else {
      assert forall a <- positions :: a != key ==> !OccupiedBy(positions, a, key, next);
    }
  }

  lemma SwapSettled(grid: Grid, positions: map<Key, Position>, key: Key, other: Key, next: Position)
    requires grid.Valid() && Settled(grid, positions, positions.Keys) && key in positions
    requires OccupiedBy(positions, other, key, next)
    ensures Settled(grid, positions[other := positions[key]][key := next], positions.Keys)
  {
    hide Grid.IsReserved, Grid.Contains;
    var after := positions[other := positions[key]][key := next];
    forall a, b | a in positions && b in positions && after[a] == after[b] ensures a == b {
      assert a != key && a != other ==> positions[a] != positions[other] && positions[a] != positions[key];
      assert b != key && b != other ==> positions[b] != positions[other] && positions[b] != positions[key];
    }
  }

  /** It moves the dragged item and at most the one it changes places with. */
  lemma MoveTouches(grid: Grid, positions: map<Key, Position>, after: map<Key, Position>, key: Key, next: Position, other: Key)
    requires grid.Valid() && Settled(grid, positions, positions.Keys) && key in positions && other in positions
    requires MovedTo(positions, after, key, next) && other != key
    ensures other in after && after[other] == if positions[other] == next then positions[key] else positions[other]
  {
    hide Grid.IsReserved;
    if o :| OccupiedBy(positions, o, key, next) && after == positions[o := positions[key]][key := next] {
      assert positions[other] == positions[o] ==> other == o;
    } else {
      assert !OccupiedBy(positions, other, key, next);
    }
  }

  /** Dragging the item back restores the layout. */
  lemma MoveBack(grid: Grid, positions: map<Key, Position>, after: map<Key, Position>, again: map<Key, Position>, key: Key, next: Position)
    requires grid.Valid() && Settled(grid, positions, positions.Keys) && key in positions && next != positions[key]
    requires MovedTo(positions, after, key, next)
    requires key in after && MovedTo(after, again, key, positions[key])
    ensures again == positions
  {
    hide Grid.IsReserved;
    if other :| OccupiedBy(positions, other, key, next) && after == positions[other := positions[key]][key := next] {
      assert OccupiedBy(after, other, key, positions[key]);
    }
  }
}
