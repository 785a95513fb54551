/** The desktop's grid allocator: items snap to cells, the first item on a cell key keeps its
    cell, and every later item with the same key moves to the first free slot.

    The key of a cell is `gridY * maxX + gridX` although `gridX` may equal `maxX`, so two
    different cells can share a key. All reasoning below is about keys. */
module ItemOrganizer {
  import opened Arithmetic

  datatype Rectangle = Rectangle(x: int, y: int, width: int, height: int)

  datatype Cell = Cell(gridX: int, gridY: int)

  /** C++ integer division and remainder by a positive divisor truncate towards zero. */
  function TruncDiv(a: int, b: int): int
    requires b > 0
  {
    if a >= 0 then a / b else -((-a) / b)
  }

  function TruncRem(a: int, b: int): int
    requires b > 0
  {
    a - TruncDiv(a, b) * b
  }

  /** The largest cell index along an axis: one less than the number of whole cells,
      except that an exact fit is not reduced. */
  function LastIndex(extent: int, cell: int): int
    requires cell > 0
  {
    TruncDiv(extent, cell) - (if TruncRem(extent, cell) == 0 then 0 else 1)
  }

  function GridIndex(p: int, cell: int, last: int): int
    requires cell > 0
  {
    var g := TruncDiv(p + cell / 2, cell);
    var g := if g < 0 then 0 else g;
    if g > last then last else g
  }

  /** Cell size and largest cell indices, as `organize` computes them. */
  datatype Layout = Layout(cw: int, ch: int, maxX: int, maxY: int)
  {
    predicate Valid() {
      cw >= 1 && ch >= 1 && maxX >= 0 && maxY >= 0
    }

    function Slots(): nat
      requires Valid()
    {
      maxX * maxY
    }

    function Snap(b: Rectangle): Cell
      requires Valid()
    {
      Cell(GridIndex(b.x, cw, maxX), GridIndex(b.y, ch, maxY))
    }

    function Key(c: Cell): int {
      c.gridY * maxX + c.gridX
    }

    function SlotCell(t: nat): Cell
      requires Valid() && t < Slots()
    {
      Cell(t % maxX, t / maxX)
    }

    predicate InGrid(c: Cell) {
      0 <= c.gridX <= maxX && 0 <= c.gridY <= maxY
    }

    function MoveTo(b: Rectangle, c: Cell): Rectangle {
      b.(x := c.gridX * cw, y := c.gridY * ch)
    }
  }

  function LayoutOf(cellWidth: int, cellHeight: int, background: Rectangle): Layout
    requires cellWidth > 0 && cellHeight > 0
  {
    Layout(cellWidth, cellHeight,
           LastIndex(background.width, cellWidth), LastIndex(background.height, cellHeight))
  }

  // ----- The declarative specification: who claims, who overflows, what is free

  function Keys(l: Layout, bounds: seq<Rectangle>): (keys: seq<int>)
    requires l.Valid()
  {
    seq(|bounds|, i requires 0 <= i < |bounds| => l.Key(l.Snap(bounds[i])))
  }

  /** Item i claims its key when no earlier item has that key. */
  predicate Claims(keys: seq<int>, i: nat)
    requires i < |keys|
  {
    keys[i] !in keys[..i]
  }

  /** The indices below n that do not claim, in order. */
  function Overflow(keys: seq<int>, n: nat): (o: seq<nat>)
    requires n <= |keys|
    ensures |o| <= n
    ensures forall r :: 0 <= r < |o| ==> o[r] < n
  {
    if n == 0 then []
    else Overflow(keys, n - 1) + (if Claims(keys, n - 1) then [] else [n - 1])
  }

  lemma OneMoreKey(keys: seq<int>, i: nat)
    requires i < |keys|
    ensures forall k :: k in keys[..i + 1] <==> k in keys[..i] || k == keys[i]
    ensures Overflow(keys, i + 1) == Overflow(keys, i) + if keys[i] in keys[..i] then [i] else []
  {
    assert keys[..i + 1] == keys[..i] + [keys[i]];
  }

  /** The slots below m whose number is nobody's key, in order. */
  function Free(keys: seq<int>, m: nat): (f: seq<nat>)
    ensures |f| <= m
    ensures forall r :: 0 <= r < |f| ==> f[r] < m && f[r] !in keys
  {
    if m == 0 then []
    else Free(keys, m - 1) + (if m - 1 in keys then [] else [m - 1])
  }

  /** Where item i ends: its snapped cell if it claims its key, the r-th free slot if it is the
      r-th item that does not, and its snapped cell again once the slots have run out. */
  function FinalCell(l: Layout, bounds: seq<Rectangle>, i: nat): Cell
    requires l.Valid() && i < |bounds|
  {
    var keys := Keys(l, bounds);
    var free := Free(keys, l.Slots());
    var rank := |Overflow(keys, i)|;
    if Claims(keys, i) || rank >= |free| then l.Snap(bounds[i]) else l.SlotCell(free[rank])
  }

  function Organized(l: Layout, bounds: seq<Rectangle>): (after: seq<Rectangle>)
    requires l.Valid()
    ensures |after| == |bounds|
  {
    seq(|bounds|, i requires 0 <= i < |bounds| => l.MoveTo(bounds[i], FinalCell(l, bounds, i)))
  }

  // ----- Arithmetic of cells and keys

  lemma SnapStaysInGrid(l: Layout, b: Rectangle)
    requires l.Valid()
    ensures l.InGrid(l.Snap(b))
  {
  }

  /** Every key the algorithm uses is an index of its (maxX+1)*(maxY+1) table. */
  lemma KeyInTable(l: Layout, c: Cell)
    requires l.Valid() && l.InGrid(c)
    ensures 0 <= l.Key(c) < (l.maxX + 1) * (l.maxY + 1)
  {
    assert 0 <= c.gridY * l.maxX <= l.maxY * l.maxX;
    assert (l.maxX + 1) * (l.maxY + 1) == l.maxY * l.maxX + l.maxX + l.maxY + 1;
  }

  lemma AlignedIndex(g: int, cell: int, last: int)
    requires cell >= 1 && 0 <= g <= last
    ensures GridIndex(g * cell, cell, last) == g
  {
    DivUnique(g, cell, cell / 2);
    MulMono(0, g, cell);
  }

  /** Snapping an item that already sits on a cell of the grid changes nothing. */
  lemma SnapOfPlaced(l: Layout, b: Rectangle, c: Cell)
    requires l.Valid() && l.InGrid(c)
    ensures l.Snap(l.MoveTo(b, c)) == c
  {
    AlignedIndex(c.gridX, l.cw, l.maxX);
    AlignedIndex(c.gridY, l.ch, l.maxY);
  }

  lemma SlotCellKey(l: Layout, t: nat)
    requires l.Valid() && t < l.Slots()
    ensures l.InGrid(l.SlotCell(t))
    ensures l.SlotCell(t).gridX < l.maxX && l.SlotCell(t).gridY < l.maxY
    ensures l.Key(l.SlotCell(t)) == t
  {
    if t / l.maxX >= l.maxY {
      MulMono(l.maxY, t / l.maxX, l.maxX);
    }
  }

  // ----- The overflow list and the free list

  lemma {:induction false} OverflowGrows(keys: seq<int>, i: nat, j: nat)
    requires i <= j <= |keys|
    ensures Overflow(keys, i) <= Overflow(keys, j)
    ensures i < j && !Claims(keys, i) ==> |Overflow(keys, i)| < |Overflow(keys, j)|
    ensures i < j && !Claims(keys, i) ==> Overflow(keys, j)[|Overflow(keys, i)|] == i
  {
    if i + 1 < j {
      OverflowGrows(keys, i, j - 1);
    }
  }

  /** The overflow list holds exactly the items that do not claim, each at its own rank. */
  lemma {:induction false} OverflowIndex(keys: seq<int>, n: nat, r: nat)
    requires n <= |keys| && r < |Overflow(keys, n)|
    ensures !Claims(keys, Overflow(keys, n)[r])
    ensures |Overflow(keys, Overflow(keys, n)[r])| == r
  {
    if r < |Overflow(keys, n - 1)| {
      OverflowIndex(keys, n - 1, r);
    }
  }

  lemma {:induction false} FreeAscends(keys: seq<int>, m: nat)
    ensures forall r, s :: 0 <= r < s < |Free(keys, m)| ==> Free(keys, m)[r] < Free(keys, m)[s]
  {
    if m > 0 {
      FreeAscends(keys, m - 1);
    }
  }

  lemma {:induction false} FreeHolds(keys: seq<int>, m: nat, t: nat)
    requires t < m && t !in keys
    ensures t in Free(keys, m)
  {
    if t < m - 1 {
      FreeHolds(keys, m - 1, t);
    }
  }

  lemma FreeIsSorted(keys: seq<int>, m: nat)
    ensures forall r, s :: 0 <= r < s < |Free(keys, m)| ==> Free(keys, m)[r] < Free(keys, m)[s]
    ensures forall t :: 0 <= t < m && t !in keys ==> t in Free(keys, m)
  {
    hide Free;
    FreeAscends(keys, m);
    forall t | 0 <= t < m && t !in keys
      ensures t in Free(keys, m)
    {
      FreeHolds(keys, m, t);
    }
  }

  lemma {:induction false} FreeEmptyIff(keys: seq<int>, m: nat)
    ensures Free(keys, m) == [] <==> forall t :: 0 <= t < m ==> t in keys
  {
    if m > 0 {
      FreeEmptyIff(keys, m - 1);
    }
  }

  /** Every key in use was claimed by the first item that has it. */
  lemma {:induction false} FirstClaimant(keys: seq<int>, i: nat) returns (j: nat)
    requires i < |keys|
    ensures j <= i && keys[j] == keys[i] && Claims(keys, j)
    ensures !Claims(keys, i) ==> j < i
  {
    if Claims(keys, i) {
      j := i;
    } else {
      var k :| 0 <= k < i && keys[k] == keys[i];
      j := FirstClaimant(keys, k);
    }
  }

  // ----- Placement seen through keys alone

  /** Item i found neither its own cell nor a free slot. */
  predicate Overcrowded(keys: seq<int>, m: nat, i: nat)
    requires i < |keys|
  {
    !Claims(keys, i) && |Overflow(keys, i)| >= |Free(keys, m)|
  }

  function PlacedKeys(keys: seq<int>, m: nat): (placed: seq<int>)
    ensures |placed| == |keys|
  {
    seq(|keys|, i requires 0 <= i < |keys| =>
      if Claims(keys, i) || Overcrowded(keys, m, i) then keys[i] else Free(keys, m)[|Overflow(keys, i)|])
  }

  /** A placed item has a key no other placed item has; an overcrowded one repeats the key of
      an earlier item. */
  lemma PlacedKeysClaim(keys: seq<int>, m: nat, i: nat)
    requires i < |keys|
    ensures Claims(PlacedKeys(keys, m), i) <==> !Overcrowded(keys, m, i)
  {
    var placed := PlacedKeys(keys, m);
    if Overcrowded(keys, m, i) {
      var j := FirstClaimant(keys, i);
      assert placed[..i][j] == placed[i];
    } else {
      FreeIsSorted(keys, m);
      forall j | 0 <= j < i
        ensures placed[j] != placed[i]
      {
        OverflowGrows(keys, j, i);
        if Claims(keys, i) && (Claims(keys, j) || Overcrowded(keys, m, j)) {
          assert keys[..i][j] == keys[j];
        }
      }
    }
  }

  /** If some item is overcrowded then no slot is left free. */
  lemma OvercrowdedMeansFull(keys: seq<int>, m: nat, i: nat)
    requires i < |keys| && Overcrowded(keys, m, i)
    ensures Free(PlacedKeys(keys, m), m) == []
  {
    var placed := PlacedKeys(keys, m);
    var free := Free(keys, m);
    forall t | 0 <= t < m
      ensures t in placed
    {
      if t in keys {
        var k :| 0 <= k < |keys| && keys[k] == t;
        var j := FirstClaimant(keys, k);
        assert placed[j] == t;
      } else {
        FreeIsSorted(keys, m);
        var r :| 0 <= r < |free| && free[r] == t;
        OverflowIndex(keys, i, r);
        assert placed[Overflow(keys, i)[r]] == t;
      }
    }
    FreeEmptyIff(placed, m);
  }

  /** Snapping the organized items reads back exactly the cells and keys they were given. */
  lemma CellsAfter(l: Layout, bounds: seq<Rectangle>, i: nat)
    requires l.Valid() && i < |bounds|
    ensures l.Snap(Organized(l, bounds)[i]) == FinalCell(l, bounds, i)
    ensures l.InGrid(FinalCell(l, bounds, i))
    ensures l.Key(FinalCell(l, bounds, i)) == PlacedKeys(Keys(l, bounds), l.Slots())[i]
  {
    var keys := Keys(l, bounds);
    SnapStaysInGrid(l, bounds[i]);
    if !Claims(keys, i) && !Overcrowded(keys, l.Slots(), i) {
      SlotCellKey(l, Free(keys, l.Slots())[|Overflow(keys, i)|]);
    }
    SnapOfPlaced(l, bounds[i], FinalCell(l, bounds, i));
  }

  lemma KeysAfter(l: Layout, bounds: seq<Rectangle>)
    requires l.Valid()
    ensures Keys(l, Organized(l, bounds)) == PlacedKeys(Keys(l, bounds), l.Slots())
  {
    forall i | 0 <= i < |bounds|
      ensures Keys(l, Organized(l, bounds))[i] == PlacedKeys(Keys(l, bounds), l.Slots())[i]
    {
      CellsAfter(l, bounds, i);
    }
  }

  // ----- Main results

  /** Organizing twice is organizing once, for any number of items, overcrowded or not. */
  lemma OrganizeIsIdempotent(l: Layout, bounds: seq<Rectangle>)
    requires l.Valid()
    ensures Organized(l, Organized(l, bounds)) == Organized(l, bounds)
  {
    var after := Organized(l, bounds);
    var keys := Keys(l, bounds);
    KeysAfter(l, bounds);
    forall i | 0 <= i < |bounds|
      ensures FinalCell(l, after, i) == FinalCell(l, bounds, i)
    {
      CellsAfter(l, bounds, i);
      PlacedKeysClaim(keys, l.Slots(), i);
      if Overcrowded(keys, l.Slots(), i) {
        OvercrowdedMeansFull(keys, l.Slots(), i);
      }
    }
  }

  /** The items all end on distinct keys exactly when the slots suffice for the overflow. */
  lemma DistinctIffSlotsSuffice(l: Layout, bounds: seq<Rectangle>)
    requires l.Valid()
    ensures (forall i, j :: 0 <= i < j < |bounds| ==>
               l.Key(FinalCell(l, bounds, i)) != l.Key(FinalCell(l, bounds, j)))
       <==> |Overflow(Keys(l, bounds), |bounds|)| <= |Free(Keys(l, bounds), l.Slots())|
  {
    var keys := Keys(l, bounds);
    var m := l.Slots();
    var placed := PlacedKeys(keys, m);
    forall i | 0 <= i < |bounds|
      ensures l.Key(FinalCell(l, bounds, i)) == placed[i]
    {
      CellsAfter(l, bounds, i);
    }
    if |Overflow(keys, |keys|)| <= |Free(keys, m)| {
      forall i, j | 0 <= i < j < |bounds|
        ensures placed[i] != placed[j]
      {
        OverflowGrows(keys, j, |keys|);
        PlacedKeysClaim(keys, m, j);
        assert placed[..j][i] == placed[i];
      }
    } else {
      var r := |Free(keys, m)|;
      var j := Overflow(keys, |keys|)[r];
      OverflowIndex(keys, |keys|, r);
      PlacedKeysClaim(keys, m, j);
      var i :| 0 <= i < j && placed[i] == placed[j];
      CellsAfter(l, bounds, i);
      CellsAfter(l, bounds, j);
      assert l.Key(FinalCell(l, bounds, i)) == l.Key(FinalCell(l, bounds, j));
    }
  }

  function KeySet(keys: seq<int>): set<int> {
    set k | k in keys
  }

  /** Pigeonhole: the claimed keys are as many as the items that do not overflow. */
  lemma {:induction false} ClaimedCount(keys: seq<int>, n: nat)
    requires n <= |keys|
    ensures |KeySet(keys[..n])| == n - |Overflow(keys, n)|
  {
    if n == 0 {
      assert keys[..0] == [];
    } else {
      ClaimedCount(keys, n - 1);
      assert keys[..n] == keys[..n - 1] + [keys[n - 1]];
      var earlier := KeySet(keys[..n - 1]);
      assert KeySet(keys[..n]) == earlier + {keys[n - 1]};
      assert keys[n - 1] in earlier <==> !Claims(keys, n - 1);
      assert |earlier + {keys[n - 1]}| == |earlier| + if keys[n - 1] in earlier then 0 else 1 by {
        if keys[n - 1] in earlier {
          assert earlier + {keys[n - 1]} == earlier;
        }
      }
    }
  }

  lemma {:induction false} FreeCount(keys: seq<int>, m: nat, used: set<int>)
    requires used == set k | k in keys && 0 <= k < m
    ensures |Free(keys, m)| + |used| == m
  {
    if m > 0 {
      var rest := set k | k in keys && 0 <= k < m - 1;
      FreeCount(keys, m - 1, rest);
      assert used == if m - 1 in keys then rest + {m - 1} else rest;
    } else {
      assert used == {};
    }
  }

  lemma SubsetSize(a: set<int>, b: set<int>)
    requires a <= b
    ensures |a| <= |b|
  {
    assert b == a + (b - a);
    assert |b| == |a| + |b - a|;
  }

  lemma EnoughSlots(keys: seq<int>, m: nat)
    requires |keys| <= m
    ensures |Overflow(keys, |keys|)| <= |Free(keys, m)|
  {
    var used := set k | k in keys && 0 <= k < m;
    FreeCount(keys, m, used);
    ClaimedCount(keys, |keys|);
    assert keys[..|keys|] == keys;
    SubsetSize(used, KeySet(keys));
  }

  /** With at most maxX*maxY items, no two items end in the same cell. */
  lemma AllItemsApart(l: Layout, bounds: seq<Rectangle>, i: nat, j: nat)
    requires l.Valid() && |bounds| <= l.maxX * l.maxY
    requires i < j < |bounds|
    ensures FinalCell(l, bounds, i) != FinalCell(l, bounds, j)
    ensures Organized(l, bounds)[i].x != Organized(l, bounds)[j].x
         || Organized(l, bounds)[i].y != Organized(l, bounds)[j].y
  {
    EnoughSlots(Keys(l, bounds), l.Slots());
    DistinctIffSlotsSuffice(l, bounds);
    CellsAfter(l, bounds, i);
    CellsAfter(l, bounds, j);
    var a, b := FinalCell(l, bounds, i), FinalCell(l, bounds, j);
    if a.gridX != b.gridX {
      MulMono(if a.gridX < b.gridX then a.gridX + 1 else b.gridX + 1,
              if a.gridX < b.gridX then b.gridX else a.gridX, l.cw);
    } else if a.gridY != b.gridY {
      MulMono(if a.gridY < b.gridY then a.gridY + 1 else b.gridY + 1,
              if a.gridY < b.gridY then b.gridY else a.gridY, l.ch);
    }
  }

  /** An item leaves its snapped cell exactly when an earlier item claimed the key and a slot
      was still free. */
  lemma MovesIff(l: Layout, bounds: seq<Rectangle>, i: nat)
    requires l.Valid() && i < |bounds|
    ensures FinalCell(l, bounds, i) != l.Snap(bounds[i])
       <==> !Claims(Keys(l, bounds), i)
            && |Overflow(Keys(l, bounds), i)| < |Free(Keys(l, bounds), l.Slots())|
  {
    CellsAfter(l, bounds, i);
    assert Keys(l, bounds)[i] in Keys(l, bounds);
  }

  /** The cell c in the extra column maxX stands for the first cell d of the next row; with no
      column besides the extra one, every cell stands for every other. */
  predicate Aliased(l: Layout, c: Cell, d: Cell) {
    || l.maxX == 0
    || (c.gridX == l.maxX && d.gridX == 0 && d.gridY == c.gridY + 1)
    || (d.gridX == l.maxX && c.gridX == 0 && c.gridY == d.gridY + 1)
  }

  lemma SameKeyBelow(l: Layout, c: Cell, d: Cell)
    requires l.Valid() && l.InGrid(c) && l.InGrid(d) && c.gridY <= d.gridY && c != d
    ensures l.Key(c) == l.Key(d)
       <==> l.maxX == 0 || (c.gridX == l.maxX && d.gridX == 0 && d.gridY == c.gridY + 1)
  {
    var rows := d.gridY - c.gridY;
    assert l.Key(d) - l.Key(c) == rows * l.maxX + d.gridX - c.gridX;
    if rows >= 2 && l.maxX > 0 {
      MulMono(2, rows, l.maxX);
    }
  }

  /** Which different cells share a key. */
  lemma AliasedCells(l: Layout, c: Cell, d: Cell)
    requires l.Valid() && l.InGrid(c) && l.InGrid(d) && c != d
    ensures l.Key(c) == l.Key(d) <==> Aliased(l, c, d)
  {
    if c.gridY <= d.gridY {
      SameKeyBelow(l, c, d);
    } else {
      SameKeyBelow(l, d, c);
    }
  }

  /** An item alone on its cell is moved off it exactly when an earlier item sits on an aliased
      cell and a slot is free for it. */
  lemma FreeCellIsGivenUpIff(l: Layout, bounds: seq<Rectangle>, i: nat)
    requires l.Valid() && i < |bounds|
    requires forall j :: 0 <= j < |bounds| && j != i ==> l.Snap(bounds[j]) != l.Snap(bounds[i])
    ensures FinalCell(l, bounds, i) != l.Snap(bounds[i])
       <==> (exists j :: 0 <= j < i && Aliased(l, l.Snap(bounds[j]), l.Snap(bounds[i])))
            && |Overflow(Keys(l, bounds), i)| < |Free(Keys(l, bounds), l.Slots())|
  {
    var keys := Keys(l, bounds);
    MovesIff(l, bounds, i);
    forall j | 0 <= j < i
      ensures keys[j] == keys[i] <==> Aliased(l, l.Snap(bounds[j]), l.Snap(bounds[i]))
    {
      SnapStaysInGrid(l, bounds[j]);
      SnapStaysInGrid(l, bounds[i]);
      AliasedCells(l, l.Snap(bounds[j]), l.Snap(bounds[i]));
    }
    if j :| 0 <= j < i && keys[j] == keys[i] {
      assert keys[..i][j] == keys[i];
    }
  }

  lemma ExampleLayout()
    ensures LayoutOf(100, 100, Rectangle(0, 0, 200, 200)) == Layout(100, 100, 2, 2)
  {
  }

  lemma ExampleSlots()
    ensures Claims([2, 2], 0) && !Claims([2, 2], 1) && Overflow([2, 2], 1) == []
    ensures |Free([2, 2], 4)| > 0 && Free([2, 2], 4)[0] == 0
  {
    var keys := [2, 2];
    assert keys[..0] == [] && keys[..1] == [2];
    assert Overflow(keys, 0) == [];
    assert Free(keys, 0) == [];
    assert Free(keys, 1) == [0];
    assert Free(keys, 2) == [0, 1];
    assert Free(keys, 3) == [0, 1];
  }

  const EXAMPLE: Layout := Layout(100, 100, 2, 2)
  const FIRST: Rectangle := Rectangle(200, 0, 80, 80)
  const SECOND: Rectangle := Rectangle(0, 100, 80, 80)

  lemma ExampleCells()
    ensures EXAMPLE.Snap(FIRST) == Cell(2, 0) && EXAMPLE.Snap(SECOND) == Cell(0, 1)
    ensures EXAMPLE.SlotCell(0) == Cell(0, 0)
  {
  }

  lemma ExampleKeys()
    ensures Keys(EXAMPLE, [FIRST, SECOND]) == [2, 2] && EXAMPLE.Slots() == 4
  {
    ExampleCells();
    hide Layout.Snap;
  }

  lemma ExampleFinal()
    ensures FinalCell(EXAMPLE, [FIRST, SECOND], 0) == Cell(2, 0)
    ensures FinalCell(EXAMPLE, [FIRST, SECOND], 1) == Cell(0, 0)
  {
    ExampleCells();
    ExampleKeys();
    ExampleSlots();
    hide Keys;
    hide Claims;
    hide Overflow;
    hide Free;
    hide Layout.Snap;
    hide Layout.SlotCell;
    hide Layout.Slots;
  }

  /** Two items on different cells, on a background of two by two cells: the second one leaves
      its cell, which nobody else is on. */
  lemma FreeCellExample()
    ensures LayoutOf(100, 100, Rectangle(0, 0, 200, 200)).Valid()
    ensures Organized(LayoutOf(100, 100, Rectangle(0, 0, 200, 200)), [FIRST, SECOND]) == [FIRST, SECOND.(y := 0)]
  {
    ExampleLayout();
    ExampleFinal();
    hide LayoutOf;
    hide FinalCell;
  }

  // ----- Where items end

  function Distance(p: int, q: int): nat {
    if p >= q then p - q else q - p
  }

  lemma HalfCell(p: int, cell: int, n: int)
    requires cell >= 1 && p + cell / 2 >= 0 && n == TruncDiv(p + cell / 2, cell)
    ensures n >= 0 && n * cell <= p + cell / 2 < n * cell + cell
  {
    var q := p + cell / 2;
    assert q == (q / cell) * cell + q % cell;
    if n < 0 {
      MulMono(n, -1, cell);
    }
  }

  lemma NearerThanLeft(p: int, cell: int, here: int, left: int)
    requires cell >= 1 && here <= p + cell / 2 && left <= here - cell
    ensures Distance(p, here) <= Distance(p, left)
  {
  }

  lemma NearerThanRight(p: int, cell: int, here: int, right: int)
    requires cell >= 1 && p + cell / 2 < here + cell && right >= here + cell
    ensures Distance(p, here) < Distance(p, right)
  {
  }

  lemma IndexBounds(p: int, cell: int, last: int)
    requires cell >= 1 && last >= 0
    ensures var g := GridIndex(p, cell, last);
      && 0 <= g <= last
      && (g > 0 ==> g * cell <= p + cell / 2)
      && (g < last ==> p + cell / 2 < g * cell + cell)
  {
    var n := TruncDiv(p + cell / 2, cell);
    if p + cell / 2 >= 0 {
      HalfCell(p, cell, n);
      hide TruncDiv;
      if n > last {
        MulMono(last, n, cell);
      }
    }
  }

  /** No index is nearer to p, and of two equally near ones the larger is chosen. */
  lemma NearestIndex(p: int, cell: int, last: int, h: int)
    requires cell >= 1 && 0 <= h <= last
    ensures var g := GridIndex(p, cell, last);
      && 0 <= g <= last
      && Distance(p, g * cell) <= Distance(p, h * cell)
      && (Distance(p, g * cell) == Distance(p, h * cell) ==> h <= g)
  {
    hide *;
    var g := GridIndex(p, cell, last);
    IndexBounds(p, cell, last);
    if h > g {
      MulMono(g + 1, h, cell);
      NearerThanRight(p, cell, g * cell, h * cell);
    } else if h < g {
      MulMono(h, g - 1, cell);
      NearerThanLeft(p, cell, g * cell, h * cell);
    }
  }

  /** From b, the place e is at least as near as cell c along both axes, and right of it or below it
      if equally near; the size stays. */
  predicate NoNearer(l: Layout, b: Rectangle, e: Rectangle, c: Cell) {
    && e.width == b.width && e.height == b.height
    && Distance(b.x, e.x) <= Distance(b.x, c.gridX * l.cw)
    && Distance(b.y, e.y) <= Distance(b.y, c.gridY * l.ch)
    && (Distance(b.x, e.x) == Distance(b.x, c.gridX * l.cw) ==> c.gridX * l.cw <= e.x)
    && (Distance(b.y, e.y) == Distance(b.y, c.gridY * l.ch) ==> c.gridY * l.ch <= e.y)
  }

  /** Snapping takes an item to the nearest cell of the grid along both axes. */
  lemma NearestCellIsTaken(l: Layout, b: Rectangle, c: Cell)
    requires l.Valid() && l.InGrid(c)
    ensures NoNearer(l, b, l.MoveTo(b, l.Snap(b)), c)
  {
    hide GridIndex;
    NearestIndex(b.x, l.cw, l.maxX, c.gridX);
    NearestIndex(b.y, l.ch, l.maxY, c.gridY);
    var g := l.Snap(b);
    if c.gridX <= g.gridX {
      MulMono(c.gridX, g.gridX, l.cw);
    }
    if c.gridY <= g.gridY {
      MulMono(c.gridY, g.gridY, l.ch);
    }
  }

  /** Item i has the key of an earlier item. */
  predicate Collides(l: Layout, bounds: seq<Rectangle>, i: nat)
    requires l.Valid() && i < |bounds|
  {
    exists j :: 0 <= j < i && l.Key(l.Snap(bounds[j])) == l.Key(l.Snap(bounds[i]))
  }

  lemma CollidesIff(l: Layout, bounds: seq<Rectangle>, i: nat)
    requires l.Valid() && i < |bounds|
    ensures Collides(l, bounds, i) <==> !Claims(Keys(l, bounds), i)
  {
    hide Layout.Snap;
    var keys := Keys(l, bounds);
    if Collides(l, bounds, i) {
      var j :| 0 <= j < i && l.Key(l.Snap(bounds[j])) == l.Key(l.Snap(bounds[i]));
      assert keys[..i][j] == keys[i];
    }
    if !Claims(keys, i) {
      var j :| 0 <= j < i && keys[..i][j] == keys[i];
      assert keys[j] == l.Key(l.Snap(bounds[j]));
    }
  }

  /** An item that does not collide ends at the nearest cell: no cell of the grid is nearer along
      either axis, and of equally near ones the right and lower one is taken. */
  lemma EndsNearest(l: Layout, bounds: seq<Rectangle>, i: nat, c: Cell)
    requires l.Valid() && i < |bounds| && !Collides(l, bounds, i) && l.InGrid(c)
    ensures NoNearer(l, bounds[i], Organized(l, bounds)[i], c)
  {
    hide GridIndex;
    hide NoNearer;
    CollidesIff(l, bounds, i);
    NearestCellIsTaken(l, bounds[i], c);
  }

  /** Slot t is in use before item i is placed: it is the key of some item, or an earlier item was
      moved to it. */
  predicate InUse(l: Layout, bounds: seq<Rectangle>, i: nat, t: nat)
    requires l.Valid() && i <= |bounds|
  {
    || (exists j :: 0 <= j < |bounds| && l.Key(l.Snap(bounds[j])) == t)
    || (exists j :: 0 <= j < i && Collides(l, bounds, j) && l.Key(FinalCell(l, bounds, j)) == t)
  }

  /** First fit: an item that collides ends on the first slot that is not in use then, counted row
      by row, and stays on its own cell when all are. */
  lemma EndsAtFirstFit(l: Layout, bounds: seq<Rectangle>, i: nat, t: nat)
    requires l.Valid() && i < |bounds| && Collides(l, bounds, i)
    requires t <= l.Slots() && (forall u :: 0 <= u < t ==> InUse(l, bounds, i, u))
    requires t < l.Slots() ==> !InUse(l, bounds, i, t)
    ensures Organized(l, bounds)[i]
         == l.MoveTo(bounds[i], if t < l.Slots() then l.SlotCell(t) else l.Snap(bounds[i]))
  {
    hide InUse;
    hide GridIndex;
    hide Collides;
    var keys, m := Keys(l, bounds), l.Slots();
    var r := |Overflow(keys, i)|;
    CollidesIff(l, bounds, i);
    forall u | 0 <= u < m
      ensures InUse(l, bounds, i, u) <==> u in keys || u in Prefix(Free(keys, m), r)
    {
      InUseIff(l, bounds, i, u);
    }
    hide Keys;
    hide Overflow;
    hide Free;
    hide Prefix;
    if t < m {
      FirstFit(keys, m, r, t);
    } else {
      NothingFree(keys, m, r);
    }
  }

  lemma KeyOf(l: Layout, bounds: seq<Rectangle>, u: nat)
    requires l.Valid()
    ensures u in Keys(l, bounds) <==> exists j :: 0 <= j < |bounds| && l.Key(l.Snap(bounds[j])) == u
  {
    hide Layout.Snap;
    var keys := Keys(l, bounds);
    if u in keys {
      var j :| 0 <= j < |keys| && keys[j] == u;
      assert l.Key(l.Snap(bounds[j])) == u;
    }
    if j :| 0 <= j < |bounds| && l.Key(l.Snap(bounds[j])) == u {
      assert keys[j] == u;
    }
  }

  lemma InUseIff(l: Layout, bounds: seq<Rectangle>, i: nat, u: nat)
    requires l.Valid() && i < |bounds| && u < l.Slots()
    ensures InUse(l, bounds, i, u)
       <==> u in Keys(l, bounds) || u in Prefix(Free(Keys(l, bounds), l.Slots()), |Overflow(Keys(l, bounds), i)|)
  {
    hide Layout.Snap;
    hide Collides;
    KeyOf(l, bounds, u);
    hide Keys;
    var keys, m := Keys(l, bounds), l.Slots();
    var free, r := Free(keys, m), |Overflow(keys, i)|;
    if u !in keys {
      if u in Prefix(free, r) {
        var k :| 0 <= k < |free| && free[k] == u;
        FreeIsSorted(keys, m);
        PrefixIndex(free, r, k);
        var j := Overflow(keys, i)[k];
        OverflowIndex(keys, i, k);
        CollidesIff(l, bounds, j);
        SlotCellKey(l, u);
        assert FinalCell(l, bounds, j) == l.SlotCell(u);
      }
      if j :| 0 <= j < i && Collides(l, bounds, j) && l.Key(FinalCell(l, bounds, j)) == u {
        CollidesIff(l, bounds, j);
        OverflowGrows(keys, j, i);
        OwnKey(l, bounds, j);
        var k := |Overflow(keys, j)|;
        assert k < |free|;
        SlotCellKey(l, free[k]);
        FreeIsSorted(keys, m);
        PrefixIndex(free, r, k);
      }
    }
  }

  lemma OwnKey(l: Layout, bounds: seq<Rectangle>, j: nat)
    requires l.Valid() && j < |bounds|
    ensures l.Key(l.Snap(bounds[j])) in Keys(l, bounds)
  {
    assert Keys(l, bounds)[j] == l.Key(l.Snap(bounds[j]));
  }

  // ----- The background

  /** How far the grid goes: with an exact fit the cell behind the last one still begins at the
      edge, and without one the last cell is the last that lies inside as a whole. */
  lemma LastIndexMeaning(extent: int, cell: int)
    requires cell > 0 && extent >= cell
    ensures var last := LastIndex(extent, cell);
      if extent % cell == 0 then last * cell == extent
      else (last + 1) * cell < extent < (last + 2) * cell
  {
    var q, r := extent / cell, extent % cell;
    assert extent == q * cell + r;
  }

  /** A cell lies fully inside the background. */
  predicate Inside(background: Rectangle, l: Layout, c: Cell) {
    && 0 <= c.gridX * l.cw && (c.gridX + 1) * l.cw <= background.width
    && 0 <= c.gridY * l.ch && (c.gridY + 1) * l.ch <= background.height
  }

  /** The precondition of `organize` in terms of its argument. */
  lemma LastIndexNonNegativeIff(extent: int, cell: int)
    requires cell > 0
    ensures LastIndex(extent, cell) >= 0 <==> extent == 0 || extent >= cell
  {
    if extent >= cell {
      DivUnique(extent / cell, cell, extent % cell);
      if extent / cell <= 0 {
        MulMono(extent / cell, 0, cell);
      }
    } else if extent >= 0 {
      DivUnique(0, cell, extent);
    } else {
      var q := (-extent) / cell;
      assert -extent == q * cell + (-extent) % cell;
      if q < 0 {
        MulMono(q, -1, cell);
      }
      if TruncRem(extent, cell) == 0 {
        assert q != 0;
      }
    }
  }

  lemma AxisInsideIff(extent: int, cell: int, g: int)
    requires cell > 0 && 0 <= g <= LastIndex(extent, cell)
    ensures (g + 1) * cell <= extent <==> g < LastIndex(extent, cell) || extent % cell != 0
  {
    LastIndexNonNegativeIff(extent, cell);
    var q := extent / cell;
    assert extent == q * cell + extent % cell;
    if g + 1 <= q {
      MulMono(g + 1, q, cell);
    } else {
      MulMono(q + 1, g + 1, cell);
    }
  }

  /** A grid cell is inside the background unless it is in the last column (or row) of a
      background whose width (or height) is an exact multiple of the cell size. */
  lemma InsideIff(cw: int, ch: int, background: Rectangle, c: Cell)
    requires cw > 0 && ch > 0 && LayoutOf(cw, ch, background).Valid()
    requires LayoutOf(cw, ch, background).InGrid(c)
    ensures Inside(background, LayoutOf(cw, ch, background), c)
       <==> (c.gridX < LastIndex(background.width, cw) || background.width % cw != 0)
            && (c.gridY < LastIndex(background.height, ch) || background.height % ch != 0)
  {
    AxisInsideIff(background.width, cw, c.gridX);
    AxisInsideIff(background.height, ch, c.gridY);
    MulMono(0, c.gridX, cw);
    MulMono(0, c.gridY, ch);
  }

  /** The first item of the example keeps its cell, right of the background. */
  lemma LastColumnOutside()
    ensures Organized(EXAMPLE, [FIRST, SECOND])[0] == FIRST
    ensures EXAMPLE == LayoutOf(100, 100, Rectangle(0, 0, 200, 200)) && FIRST.x >= 200
  {
    ExampleLayout();
    ExampleFinal();
    hide FinalCell;
    hide LayoutOf;
  }

  /** Every re-placed item lies fully inside the background. */
  lemma ReplacedInside(cw: int, ch: int, background: Rectangle, bounds: seq<Rectangle>, i: nat)
    requires cw > 0 && ch > 0 && LayoutOf(cw, ch, background).Valid() && i < |bounds|
    requires var l := LayoutOf(cw, ch, background); FinalCell(l, bounds, i) != l.Snap(bounds[i])
    ensures var l := LayoutOf(cw, ch, background); Inside(background, l, FinalCell(l, bounds, i))
  {
    var l := LayoutOf(cw, ch, background);
    var keys := Keys(l, bounds);
    SlotCellKey(l, Free(keys, l.Slots())[|Overflow(keys, i)|]);
    InsideIff(cw, ch, background, FinalCell(l, bounds, i));
  }

  // ----- The algorithm

  /** A desktop item; `organize` reads and writes only its bounds. */
  class Item {
    var bounds: Rectangle

    constructor (bounds: Rectangle)
      ensures this.bounds == bounds
    {
      this.bounds := bounds;
    }
  }

  function BoundsOf(items: seq<Item>): seq<Rectangle>
    reads items
  {
    seq(|items|, i requires 0 <= i < |items| reads items => items[i].bounds)
  }

  /** The first r elements, or all of them when there are fewer. */
  function Prefix(free: seq<nat>, r: nat): seq<nat> {
    if r < |free| then free[..r] else free
  }

  lemma PrefixIndex(free: seq<nat>, r: nat, s: nat)
    requires forall i, j :: 0 <= i < j < |free| ==> free[i] < free[j]
    ensures s < |free| ==> (free[s] in Prefix(free, r) <==> s < r)
  {
    if s < r && s < |free| {
      assert Prefix(free, r)[s] == free[s];
    }
  }

  /** The first slot that is neither a key nor one of the first r free slots is the r-th. */
  lemma FirstFit(keys: seq<int>, m: nat, r: nat, t: nat)
    requires t < m && t !in keys && t !in Prefix(Free(keys, m), r)
    requires forall u :: 0 <= u < t ==> u in keys || u in Prefix(Free(keys, m), r)
    ensures r < |Free(keys, m)| && Free(keys, m)[r] == t
  {
    var free := Free(keys, m);
    FreeIsSorted(keys, m);
    var s :| 0 <= s < |free| && free[s] == t;
    PrefixIndex(free, r, s);
    PrefixIndex(free, r, r);
  }

  /** Item j's bounds once the first r overflowing items have been re-placed. */
  function Partly(l: Layout, bounds: seq<Rectangle>, j: nat, r: nat): Rectangle
    requires l.Valid() && j < |bounds|
  {
    l.MoveTo(bounds[j],
             if |Overflow(Keys(l, bounds), j)| < r then FinalCell(l, bounds, j) else l.Snap(bounds[j]))
  }

  lemma RanksDiffer(keys: seq<int>, i: nat, j: nat)
    requires i < |keys| && j < |keys| && i != j && !Claims(keys, i) && !Claims(keys, j)
    ensures |Overflow(keys, i)| != |Overflow(keys, j)|
  {
    if i < j {
      OverflowGrows(keys, i, j);
    } else {
      OverflowGrows(keys, j, i);
    }
  }

  /** A re-placement changes the item of that rank and no other. */
  lemma OthersStay(l: Layout, bounds: seq<Rectangle>, i: nat, r: nat)
    requires l.Valid() && i < |bounds|
    requires !Claims(Keys(l, bounds), i) && |Overflow(Keys(l, bounds), i)| == r
    ensures forall j :: 0 <= j < |bounds| && j != i ==> Partly(l, bounds, j, r + 1) == Partly(l, bounds, j, r)
  {
    forall j | 0 <= j < |bounds| && j != i
      ensures Partly(l, bounds, j, r + 1) == Partly(l, bounds, j, r)
    {
      if !Claims(Keys(l, bounds), j) {
        RanksDiffer(Keys(l, bounds), i, j);
      }
    }
  }

  lemma PrefixStep(free: seq<nat>, r: nat)
    ensures forall u :: u in Prefix(free, r + 1) <==> u in Prefix(free, r) || (r < |free| && u == free[r])
  {
    if r < |free| {
      assert Prefix(free, r + 1) == free[..r] + [free[r]];
      assert Prefix(free, r) == free[..r];
    }
  }

  lemma NothingFree(keys: seq<int>, m: nat, r: nat)
    requires forall u :: 0 <= u < m ==> u in keys || u in Prefix(Free(keys, m), r)
    ensures |Free(keys, m)| <= r
  {
    FreeIsSorted(keys, m);
    PrefixIndex(Free(keys, m), r, r);
  }

  predicate AllPartly(l: Layout, bounds: seq<Rectangle>, placed: seq<Rectangle>, r: nat)
    requires l.Valid()
  {
    |placed| == |bounds| && forall j :: 0 <= j < |bounds| ==> placed[j] == Partly(l, bounds, j, r)
  }

  /** One round of the second loop. */
  lemma PlaceStep(l: Layout, bounds: seq<Rectangle>, placed: seq<Rectangle>, i: nat, r: nat, t: nat)
    requires l.Valid() && i < |bounds| && t <= l.Slots()
    requires !Claims(Keys(l, bounds), i) && |Overflow(Keys(l, bounds), i)| == r
    requires AllPartly(l, bounds, placed, r)
    requires forall u :: 0 <= u < t ==> u in Keys(l, bounds) || u in Prefix(Free(Keys(l, bounds), l.Slots()), r)
    requires t < l.Slots() ==> t !in Keys(l, bounds) && t !in Prefix(Free(Keys(l, bounds), l.Slots()), r)
    ensures AllPartly(l, bounds,
              if t < l.Slots() then placed[i := l.MoveTo(placed[i], l.SlotCell(t))] else placed, r + 1)
    ensures forall u :: (u in Prefix(Free(Keys(l, bounds), l.Slots()), r + 1)
                   <==> u in Prefix(Free(Keys(l, bounds), l.Slots()), r) || (t < l.Slots() && u == t))
  {
    var keys := Keys(l, bounds);
    if t < l.Slots() {
      FirstFit(keys, l.Slots(), r, t);
    } else {
      NothingFree(keys, l.Slots(), r);
    }
    PrefixStep(Free(keys, l.Slots()), r);
    OthersStay(l, bounds, i, r);
  }

  lemma AllPlaced(l: Layout, bounds: seq<Rectangle>, placed: seq<Rectangle>)
    requires l.Valid() && AllPartly(l, bounds, placed, |Overflow(Keys(l, bounds), |bounds|)|)
    ensures placed == Organized(l, bounds)
  {
    forall j | 0 <= j < |bounds|
      ensures placed[j] == Organized(l, bounds)[j]
    {
      OverflowGrows(Keys(l, bounds), j, |bounds|);
    }
  }

  lemma TableHoldsSlots(l: Layout)
    requires l.Valid()
    ensures l.maxX * l.maxY <= (l.maxX + 1) * (l.maxY + 1)
  {
    assert (l.maxX + 1) * (l.maxY + 1) == l.maxX * l.maxY + l.maxX + l.maxY + 1;
  }

  /** Entry i is the last one of its item among the first n. */
  predicate LastEntry(items: seq<Item>, i: nat, n: nat)
    requires i < n <= |items|
  {
    forall k :: i < k < n ==> items[k] != items[i]
  }

  class Organizer {
    const cellWidth: int
    const cellHeight: int

    constructor (cellWidth: int, cellHeight: int)
      ensures this.cellWidth == cellWidth && this.cellHeight == cellHeight
    {
      this.cellWidth, this.cellHeight := cellWidth, cellHeight;
    }

    method Organize(items: seq<Item>, background: Rectangle)
      requires cellWidth >= 1 && cellHeight >= 1
      requires LayoutOf(cellWidth, cellHeight, background).Valid()
      modifies items
      ensures forall i :: 0 <= i < |items| && LastEntry(items, i, |items|) ==>
        items[i].bounds
          == Organized(LayoutOf(cellWidth, cellHeight, background), old(BoundsOf(items)))[i]
      ensures var l := LayoutOf(cellWidth, cellHeight, background);
        forall i, c ::
          (0 <= i < |items| && LastEntry(items, i, |items|) && l.InGrid(c) && !Collides(l, old(BoundsOf(items)), i))
          ==> NoNearer(l, old(BoundsOf(items))[i], items[i].bounds, c)
    {
      hide NoNearer;
      hide Collides;
      ghost var before := BoundsOf(items);
      var allBounds := ReadBounds(items);
      var l := LayoutOf(cellWidth, cellHeight, background);
      TableHoldsSlots(l);
      var taken := new bool[(l.maxX + 1) * (l.maxY + 1)](_ => false);
      var resortIndexes;
      allBounds, resortIndexes := SnapAndClaim(l, allBounds, taken);
      allBounds := PlaceOverflow(l, before, allBounds, resortIndexes, taken);
      StoreBounds(items, allBounds);
      forall i, c | 0 <= i < |items| && l.InGrid(c) && !Collides(l, before, i)
        ensures NoNearer(l, before[i], Organized(l, before)[i], c)
      {
        EndsNearest(l, before, i, c);
      }
    }

    static method ReadBounds(items: seq<Item>) returns (allBounds: seq<Rectangle>)
      ensures allBounds == BoundsOf(items)
    {
      allBounds := [];
      for i := 0 to |items|
        invariant allBounds == BoundsOf(items)[..i]
      {
        allBounds := allBounds + [items[i].bounds];
      }
    }

    /** The last loop: write the bounds back. An item listed twice keeps the last ones. */
    static method StoreBounds(items: seq<Item>, allBounds: seq<Rectangle>)
      requires |items| == |allBounds|
      modifies items
      ensures forall i :: 0 <= i < |items| && LastEntry(items, i, |items|) ==> items[i].bounds == allBounds[i]
    {
      for i := 0 to |items|
        invariant forall j :: 0 <= j < i && LastEntry(items, j, i) ==> items[j].bounds == allBounds[j]
      {
        items[i].bounds := allBounds[i];
        assert forall j :: 0 <= j < i && LastEntry(items, j, i + 1) ==> items[j] != items[i] && LastEntry(items, j, i);
      }
    }

    /** The nearest cell, kept within the grid. */
    static method NearestCell(l: Layout, b: Rectangle) returns (gridX: int, gridY: int)
      requires l.Valid()
      ensures Cell(gridX, gridY) == l.Snap(b)
    {
      gridX := TruncDiv(b.x + l.cw / 2, l.cw);
      gridY := TruncDiv(b.y + l.ch / 2, l.ch);
      if gridX < 0 { gridX := 0; }
      if gridY < 0 { gridY := 0; }
      if gridX > l.maxX { gridX := l.maxX; }
      if gridY > l.maxY { gridY := l.maxY; }
    }

    /** The first loop: snap every item, claim its key or put it on the list to re-place. */
    static method SnapAndClaim(l: Layout, bounds: seq<Rectangle>, taken: array<bool>)
      returns (snapped: seq<Rectangle>, resortIndexes: seq<nat>)
      requires l.Valid() && taken.Length == (l.maxX + 1) * (l.maxY + 1)
      requires forall k :: 0 <= k < taken.Length ==> !taken[k]
      modifies taken
      ensures snapped == seq(|bounds|, i requires 0 <= i < |bounds| => l.MoveTo(bounds[i], l.Snap(bounds[i])))
      ensures forall k :: 0 <= k < taken.Length ==> (taken[k] <==> k in Keys(l, bounds))
      ensures resortIndexes == Overflow(Keys(l, bounds), |bounds|)
    {
      hide Layout.Snap;
      hide Layout.InGrid;
      hide Overflow;
      hide Claims;
      snapped := bounds;
      resortIndexes := [];
      ghost var keys := Keys(l, bounds);
      for i := 0 to |bounds|
        invariant |snapped| == |bounds|
        invariant forall j :: 0 <= j < i ==> snapped[j] == l.MoveTo(bounds[j], l.Snap(bounds[j]))
        invariant forall j :: i <= j < |bounds| ==> snapped[j] == bounds[j]
        invariant forall k :: 0 <= k < taken.Length ==> (taken[k] <==> k in keys[..i])
        invariant resortIndexes == Overflow(keys, i)
      {
        var gridX, gridY := NearestCell(l, snapped[i]);
        snapped := snapped[i := snapped[i].(x := gridX * l.cw, y := gridY * l.ch)];

        var c := Cell(gridX, gridY);
        SnapStaysInGrid(l, bounds[i]);
        KeyInTable(l, c);
        assert keys[i] == l.Key(c);
        OneMoreKey(keys, i);
        if taken[l.Key(c)] {
          resortIndexes := resortIndexes + [i];
        } else {
          taken[l.Key(c)] := true;
        }
      }
      assert keys[..|bounds|] == keys;
    }

    /** The scan inside the second loop. */
    static method FirstUntaken(slots: nat, taken: array<bool>) returns (t: nat)
      requires slots <= taken.Length
      ensures t <= slots && forall u :: 0 <= u < t ==> taken[u]
      ensures t < slots ==> !taken[t]
    {
      t := 0;
      while t < slots && taken[t]
        invariant t <= slots
        invariant forall u :: 0 <= u < t ==> taken[u]
      {
        t := t + 1;
      }
    }

    /** The table marks the keys in use and the first r free slots. */
    static ghost predicate Marks(taken: array<bool>, keys: seq<int>, m: nat, r: nat)
      reads taken
    {
      forall k :: 0 <= k < taken.Length ==> (taken[k] <==> k in keys || k in Prefix(Free(keys, m), r))
    }

    /** The body of the second loop: item i takes the first slot not yet taken, if any. */
    static method PlaceNext(l: Layout, ghost bounds: seq<Rectangle>, placed: seq<Rectangle>,
                            i: nat, ghost r: nat, taken: array<bool>)
      returns (next: seq<Rectangle>)
      requires l.Valid() && l.Slots() <= taken.Length && i < |bounds|
      requires !Claims(Keys(l, bounds), i) && |Overflow(Keys(l, bounds), i)| == r
      requires AllPartly(l, bounds, placed, r) && Marks(taken, Keys(l, bounds), l.Slots(), r)
      modifies taken
      ensures AllPartly(l, bounds, next, r + 1) && Marks(taken, Keys(l, bounds), l.Slots(), r + 1)
    {
      var t := FirstUntaken(l.Slots(), taken);
      PlaceStep(l, bounds, placed, i, r, t);
      if t < l.Slots() {
        next := placed[i := l.MoveTo(placed[i], l.SlotCell(t))];
        taken[t] := true;
      } else {
        next := placed;
      }
    }

    /** The second loop over the list of items to re-place. */
    static method PlaceOverflow(l: Layout, ghost bounds: seq<Rectangle>, snapped: seq<Rectangle>,
                                resortIndexes: seq<nat>, taken: array<bool>)
      returns (placed: seq<Rectangle>)
      requires l.Valid() && l.Slots() <= taken.Length
      requires snapped == seq(|bounds|, i requires 0 <= i < |bounds| => l.MoveTo(bounds[i], l.Snap(bounds[i])))
      requires forall k :: 0 <= k < taken.Length ==> (taken[k] <==> k in Keys(l, bounds))
      requires resortIndexes == Overflow(Keys(l, bounds), |bounds|)
      modifies taken
      ensures placed == Organized(l, bounds)
    {
      placed := snapped;
      for r := 0 to |resortIndexes|
        invariant AllPartly(l, bounds, placed, r)
        invariant Marks(taken, Keys(l, bounds), l.Slots(), r)
      {
        OverflowIndex(Keys(l, bounds), |bounds|, r);
        placed := PlaceNext(l, bounds, placed, resortIndexes[r], r, taken);
      }
      AllPlaced(l, bounds, placed);
    }
  }
}
