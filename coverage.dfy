/**
 * The coverage grid `Overlaps<u8>`: a dense 2-D array of saturating `u8`
 * counters, one per unit cell, sized to hold every claim, in which each
 * non-empty claim stamps its cells. It answers two queries: how many cells
 * are claimed more than once, and which claims are the sole claimant of every
 * cell they cover.
 */
module Coverage {
  import opened Claims

  const U8_MAX: nat := 255

  /** Rust's `u8`, the counter type `T` of `RectOverlaps`. */
  type U8 = n: nat | n <= U8_MAX

  /** `u8::saturating_add(1)`. */
  function SaturatingInc(v: U8): U8 {
    if v < U8_MAX then v + 1 else U8_MAX
  }

  /** A count clamped to the counter's range. */
  function Saturate(n: nat): U8 {
    if n <= U8_MAX then n else U8_MAX
  }

  function Max(a: nat, b: nat): nat {
    if a >= b then a else b
  }

  predicate AllFit(rects: seq<Rect>) {
    forall i :: 0 <= i < |rects| ==> Fits(rects[i])
  }

  // ---------------------------------------------------------------------
  // What the grid stands for
  // ---------------------------------------------------------------------

  /** The number of claims of `rects` that cover cell `c` (an empty claim covers none). */
  function CoverCount(rects: seq<Rect>, c: Cell): nat {
    if rects == [] then 0
    else CoverCount(rects[..|rects| - 1], c) + (if Covers(rects[|rects| - 1], c) then 1 else 0)
  }

  /** The grid width: one past the largest inclusive top-right x, 0 without claims. */
  function GridWidth(rects: seq<Rect>): (w: nat)
    requires AllFit(rects)
    ensures forall i :: 0 <= i < |rects| ==> TopRight(rects[i]).0 < w
    ensures rects == [] ==> w == 0
    ensures rects != [] ==> exists i :: 0 <= i < |rects| && w == TopRight(rects[i]).0 + 1
  {
    if rects == [] then 0
    else Max(GridWidth(rects[..|rects| - 1]), TopRight(rects[|rects| - 1]).0 + 1)
  }

  /** The grid height: one past the largest inclusive top-right y, 0 without claims. */
  function GridHeight(rects: seq<Rect>): (h: nat)
    requires AllFit(rects)
    ensures forall i :: 0 <= i < |rects| ==> TopRight(rects[i]).1 < h
    ensures rects == [] ==> h == 0
    ensures rects != [] ==> exists i :: 0 <= i < |rects| && h == TopRight(rects[i]).1 + 1
  {
    if rects == [] then 0
    else Max(GridHeight(rects[..|rects| - 1]), TopRight(rects[|rects| - 1]).1 + 1)
  }

  /** The cells of the box [0, w) × [0, h) that two or more claims cover. */
  ghost function ContestedCells(rects: seq<Rect>, w: nat, h: nat): set<Cell> {
    set x: nat, y: nat | x < w && y < h && CoverCount(rects, (x, y)) > 1 :: (x, y)
  }

  /** The cells of column x below h that two or more claims cover. */
  ghost function ContestedColumn(rects: seq<Rect>, x: nat, h: nat): set<Cell> {
    set y: nat | y < h && CoverCount(rects, (x, y)) > 1 :: (x, y)
  }

  /** A claim every one of whose cells no other claim covers. */
  ghost predicate SoleClaimant(rects: seq<Rect>, r: Rect) {
    forall c :: Covers(r, c) ==> CoverCount(rects, c) == 1
  }

  /** The claims of `rs` that are sole claimants among `rects`, in the order of `rs`. */
  ghost function SoleClaimants(rects: seq<Rect>, rs: seq<Rect>): seq<Rect> {
    if rs == [] then []
    else (if SoleClaimant(rects, rs[0]) then [rs[0]] else []) + SoleClaimants(rects, rs[1..])
  }

  // ---------------------------------------------------------------------
  // Lemmas about the specification
  // ---------------------------------------------------------------------

  /** Every cell a claim covers lies inside the grid, so the grid lookups never fail. */
  lemma CoveredCellsInGrid(rects: seq<Rect>, i: nat, c: Cell)
    requires AllFit(rects) && i < |rects| && Covers(rects[i], c)
    ensures c.0 < GridWidth(rects) && c.1 < GridHeight(rects)
  {
  }

  /** A cell that some claim covers has a positive count. */
  lemma {:induction false} CoverCountPositive(rects: seq<Rect>, i: nat, c: Cell)
    requires i < |rects| && Covers(rects[i], c)
    ensures CoverCount(rects, c) >= 1
  {
    var n := |rects| - 1;
    if i < n {
      CoverCountPositive(rects[..n], i, c);
    }
  }

  /** Two distinct claims covering a cell make its count at least 2. */
  lemma {:induction false} CoverCountTwo(rects: seq<Rect>, i: nat, j: nat, c: Cell)
    requires i < j < |rects| && Covers(rects[i], c) && Covers(rects[j], c)
    ensures CoverCount(rects, c) >= 2
  {
    var n := |rects| - 1;
    if j < n {
      CoverCountTwo(rects[..n], i, j, c);
    } else {
      CoverCountPositive(rects[..n], i, c);
    }
  }

  /** A cell that claim i alone covers has count exactly 1. */
  lemma {:induction false} CoverCountOne(rects: seq<Rect>, i: nat, c: Cell)
    requires i < |rects| && Covers(rects[i], c)
    requires forall j :: 0 <= j < |rects| && j != i ==> !Covers(rects[j], c)
    ensures CoverCount(rects, c) == 1
  {
    var n := |rects| - 1;
    if i < n {
      CoverCountOne(rects[..n], i, c);
    } else {
      CoverCountZero(rects[..n], c);
    }
  }

  /** A cell no claim covers has count 0. */
  lemma {:induction false} CoverCountZero(rects: seq<Rect>, c: Cell)
    requires forall j :: 0 <= j < |rects| ==> !Covers(rects[j], c)
    ensures CoverCount(rects, c) == 0
  {
    if rects != [] {
      CoverCountZero(rects[..|rects| - 1], c);
    }
  }

  /**
   * Claim i is a sole claimant exactly when no other claim of the input
   * shares a cell with it.
   */
  lemma SoleClaimantIffDisjoint(rects: seq<Rect>, i: nat)
    requires i < |rects|
    ensures SoleClaimant(rects, rects[i]) <==>
      forall j, c :: 0 <= j < |rects| && j != i && Covers(rects[i], c) ==> !Covers(rects[j], c)
  {
    if SoleClaimant(rects, rects[i]) {
      forall j, c | 0 <= j < |rects| && j != i && Covers(rects[i], c)
        ensures !Covers(rects[j], c)
      {
        if Covers(rects[j], c) {
          if i < j { CoverCountTwo(rects, i, j, c); } else { CoverCountTwo(rects, j, i, c); }
        }
      }
    } else {
      var c :| Covers(rects[i], c) && CoverCount(rects, c) != 1;
      if forall j :: 0 <= j < |rects| && j != i ==> !Covers(rects[j], c) {
        CoverCountOne(rects, i, c);
      }
    }
  }

  /** Empty claims cover no cell, so they are always sole claimants. */
  lemma EmptyIsSoleClaimant(rects: seq<Rect>, r: Rect)
    requires IsEmpty(r)
    ensures SoleClaimant(rects, r)
  {
  }

  /**
   * The sole-claimant filter keeps exactly the sole claimants and keeps the
   * input order: the claims that come first in the input come first in the
   * output.
   */
  lemma {:induction false} SoleClaimantsFilter(rects: seq<Rect>, a: seq<Rect>, b: seq<Rect>)
    ensures SoleClaimants(rects, a + b) == SoleClaimants(rects, a) + SoleClaimants(rects, b)
    ensures forall r :: r in SoleClaimants(rects, a) <==> r in a && SoleClaimant(rects, r)
  {
    if a != [] {
      assert (a + b)[0] == a[0] && (a + b)[1..] == a[1..] + b;
      SoleClaimantsFilter(rects, a[1..], b);
      var head := if SoleClaimant(rects, a[0]) then [a[0]] else [];
      calc {
        SoleClaimants(rects, a + b);
        head + SoleClaimants(rects, a[1..] + b);
        head + (SoleClaimants(rects, a[1..]) + SoleClaimants(rects, b));
        (head + SoleClaimants(rects, a[1..])) + SoleClaimants(rects, b);
        SoleClaimants(rects, a) + SoleClaimants(rects, b);
      }
      assert a == [a[0]] + a[1..];
    } else {
      assert a + b == b;
    }
  }

  /** Outside its box, no cell of the plane is claimed at all. */
  lemma OutsideGridUncovered(rects: seq<Rect>, c: Cell)
    requires AllFit(rects)
    requires c.0 >= GridWidth(rects) || c.1 >= GridHeight(rects)
    ensures CoverCount(rects, c) == 0
  {
    forall j | 0 <= j < |rects|
      ensures !Covers(rects[j], c)
    {
      if Covers(rects[j], c) {
        CoveredCellsInGrid(rects, j, c);
      }
    }
    CoverCountZero(rects, c);
  }

  /** The contested cells of the grid box are all the contested cells of the plane. */
  lemma ContestedCellsOfPlane(rects: seq<Rect>, c: Cell)
    requires AllFit(rects)
    ensures c in ContestedCells(rects, GridWidth(rects), GridHeight(rects)) <==> CoverCount(rects, c) > 1
  {
    if c.0 >= GridWidth(rects) || c.1 >= GridHeight(rects) {
      OutsideGridUncovered(rects, c);
    }
  }

  lemma ContestedColumnStep(rects: seq<Rect>, x: nat, h: nat)
    ensures ContestedColumn(rects, x, h + 1) ==
      ContestedColumn(rects, x, h) + (if CoverCount(rects, (x, h)) > 1 then {(x, h)} else {})
    ensures (x, h) !in ContestedColumn(rects, x, h)
  {
  }

  /** The contested part of a column grows by one exactly when the next cell is contested. */
  lemma ContestedColumnSize(rects: seq<Rect>, x: nat, h: nat)
    ensures |ContestedColumn(rects, x, h + 1)| ==
      |ContestedColumn(rects, x, h)| + (if CoverCount(rects, (x, h)) > 1 then 1 else 0)
  {
    ContestedColumnStep(rects, x, h);
  }

  lemma ContestedCellsStep(rects: seq<Rect>, w: nat, h: nat)
    ensures ContestedCells(rects, w + 1, h) == ContestedCells(rects, w, h) + ContestedColumn(rects, w, h)
    ensures ContestedCells(rects, w, h) * ContestedColumn(rects, w, h) == {}
  {
    var big, small, col := ContestedCells(rects, w + 1, h), ContestedCells(rects, w, h), ContestedColumn(rects, w, h);
    forall c | c in big
      ensures c in small + col
    {
      if c.0 < w { assert c in small; } else { assert c in col; }
    }
  }

  function Indicator(b: bool): nat {
    if b then 1 else 0
  }

  lemma CoverCountOfTwo(r0: Rect, r1: Rect, c: Cell)
    ensures CoverCount([r0, r1], c) == Indicator(Covers(r0, c)) + Indicator(Covers(r1, c))
  {
    var rects := [r0, r1];
    assert rects[..1] == [r0];
    assert rects[..1][..0] == [];
    assert CoverCount(rects[..1], c) == Indicator(Covers(r0, c));
  }

  lemma CoverCountOfThree(r0: Rect, r1: Rect, r2: Rect, c: Cell)
    ensures CoverCount([r0, r1, r2], c) ==
      Indicator(Covers(r0, c)) + Indicator(Covers(r1, c)) + Indicator(Covers(r2, c))
  {
    var rects := [r0, r1, r2];
    assert rects[..2] == [r0, r1];
    CoverCountOfTwo(r0, r1, c);
  }

  /** The example claims of the source's tests. */
  function ExampleClaims(): seq<Rect> {
    [Rect(1, 1, 3, 4, 4), Rect(2, 3, 1, 4, 4), Rect(3, 5, 5, 2, 2)]
  }

  lemma ExampleGridSize()
    ensures GridWidth(ExampleClaims()) == 7 && GridHeight(ExampleClaims()) == 7
  {
    var rects := ExampleClaims();
    assert rects[..2] == [rects[0], rects[1]];
    assert rects[..2][..1] == [rects[0]];
  }

  lemma ExampleContestedCells()
    ensures ContestedCells(ExampleClaims(), 7, 7) == {(3, 3), (4, 3), (3, 4), (4, 4)}
  {
    var rects := ExampleClaims();
    forall c | c in ContestedCells(rects, 7, 7)
      ensures c in {(3, 3), (4, 3), (3, 4), (4, 4)}
    {
      CoverCountOfThree(rects[0], rects[1], rects[2], c);
    }
    forall c | c in {(3, 3), (4, 3), (3, 4), (4, 4)}
      ensures c in ContestedCells(rects, 7, 7)
    {
      CoverCountTwo(rects, 0, 1, c);
    }
  }

  /** The example of the source's tests: a 7 × 7 grid with 4 contested cells ... */
  lemma OverlapExampleArea()
    ensures GridWidth(ExampleClaims()) == 7 && GridHeight(ExampleClaims()) == 7
    ensures |ContestedCells(ExampleClaims(), 7, 7)| == 4
    ensures |ContestedCells(ExampleClaims(), GridWidth(ExampleClaims()), GridHeight(ExampleClaims()))| == 4
  {
    ExampleGridSize();
    ExampleContestedCells();
  }

  /** ... and only claim #3 claims its cells alone. */
  lemma OverlapExampleSole()
    ensures SoleClaimants(ExampleClaims(), ExampleClaims()) == [Rect(3, 5, 5, 2, 2)]
  {
    var rects := ExampleClaims();
    assert !SoleClaimant(rects, rects[0]) by {
      CoverCountTwo(rects, 0, 1, (3, 3));
    }
    assert !SoleClaimant(rects, rects[1]) by {
      CoverCountTwo(rects, 0, 1, (3, 3));
    }
    assert SoleClaimant(rects, rects[2]) by {
      forall c | Covers(rects[2], c)
        ensures CoverCount(rects, c) == 1
      {
        CoverCountOne(rects, 2, c);
      }
    }
    assert rects[1..][1..] == [rects[2]];
    assert rects[1..][1..][1..] == [];
  }

  /** The zero-size example of the source's tests: no contested cell, both claims alone. */
  lemma ZeroSizeExample()
    ensures var rects := [Rect(1, 1, 1, 1, 1), Rect(2, 1, 1, 0, 0)];
      && |ContestedCells(rects, GridWidth(rects), GridHeight(rects))| == 0
      && SoleClaimants(rects, rects) == rects
  {
    var rects := [Rect(1, 1, 1, 1, 1), Rect(2, 1, 1, 0, 0)];
    forall c | c in ContestedCells(rects, GridWidth(rects), GridHeight(rects))
      ensures false
    {
      CoverCountOfTwo(rects[0], rects[1], c);
    }
    assert SoleClaimant(rects, rects[0]) by {
      forall c | Covers(rects[0], c)
        ensures CoverCount(rects, c) == 1
      {
        CoverCountOne(rects, 0, c);
      }
    }
    assert rects[1..][1..] == [];
  }

  // ---------------------------------------------------------------------
  // The grid
  // ---------------------------------------------------------------------

  /** The grid size loop of `Overlaps::new`: one past the largest top-right corner. */
  method GridSize(rects: seq<Rect>) returns (gridWidth: nat, gridHeight: nat)
    requires AllFit(rects)
    ensures gridWidth == GridWidth(rects) && gridHeight == GridHeight(rects)
  {
    gridWidth, gridHeight := 0, 0;
    for i := 0 to |rects|
      invariant gridWidth == GridWidth(rects[..i]) && gridHeight == GridHeight(rects[..i])
    {
      var (x, y) := TopRight(rects[i]);
      assert rects[..i + 1][..i] == rects[..i];
      gridWidth := Max(x + 1, gridWidth);
      gridHeight := Max(y + 1, gridHeight);
    }
    assert rects[..|rects|] == rects;
  }

  /** `make_count_grid`: a width × height grid of zero counters, indexed [x, y]. */
  method MakeCountGrid(width: nat, height: nat) returns (grid: array2<U8>)
    ensures fresh(grid) && grid.Length0 == width && grid.Length1 == height
    ensures forall x, y :: 0 <= x < width && 0 <= y < height ==> grid[x, y] == 0
  {
    grid := new U8[width, height]((x, y) => 0);
  }

  class Overlaps {
    const countGrid: array2<U8>
    /** The claims the grid was built from (borrowed in the source). */
    const rects: seq<Rect>

    /** Each cell holds the saturated number of claims covering it. */
    ghost predicate Valid()
      reads countGrid
    {
      && AllFit(rects)
      && countGrid.Length0 == GridWidth(rects)
      && countGrid.Length1 == GridHeight(rects)
      && forall x, y :: 0 <= x < countGrid.Length0 && 0 <= y < countGrid.Length1 ==>
           countGrid[x, y] == Saturate(CoverCount(rects, (x, y)))
    }

    /** `Overlaps::new`: size the grid to hold every claim, then stamp the claims. */
    constructor (rects: seq<Rect>)
      requires AllFit(rects)
      ensures Valid() && this.rects == rects && fresh(countGrid)
    {
      var gridWidth, gridHeight := GridSize(rects);
      var grid := MakeCountGrid(gridWidth, gridHeight);
      this.rects := rects;
      countGrid := grid;
      new;
      FillGrid(rects);
    }

    /**
     * `fill_grid`: each non-empty claim adds one, saturating, to every cell
     * of its slice; empty claims are skipped.
     */
    method FillGrid(rects: seq<Rect>)
      requires AllFit(rects)
      requires forall i :: 0 <= i < |rects| && !IsEmpty(rects[i]) ==>
        TopRight(rects[i]).0 < countGrid.Length0 && TopRight(rects[i]).1 < countGrid.Length1
      modifies countGrid
      ensures forall x, y :: 0 <= x < countGrid.Length0 && 0 <= y < countGrid.Length1 ==>
        countGrid[x, y] == Saturate(old(countGrid[x, y]) + CoverCount(rects, (x, y)))
    {
      for i := 0 to |rects|
        invariant forall x, y :: 0 <= x < countGrid.Length0 && 0 <= y < countGrid.Length1 ==>
          countGrid[x, y] == Saturate(old(countGrid[x, y]) + CoverCount(rects[..i], (x, y)))
      {
        assert rects[..i + 1][..i] == rects[..i];
        if IsEmpty(rects[i]) {
          continue;
        }
        StampSlice(rects[i]);
      }
      assert rects[..|rects|] == rects;
    }

    /**
     * The slice `x ..= top_x, y ..= top_y` of one non-empty claim, each cell
     * incremented with saturation; every other cell keeps its value.
     */
    method StampSlice(r: Rect)
      requires Fits(r) && !IsEmpty(r)
      requires TopRight(r).0 < countGrid.Length0 && TopRight(r).1 < countGrid.Length1
      modifies countGrid
      ensures forall x, y :: 0 <= x < countGrid.Length0 && 0 <= y < countGrid.Length1 ==>
        countGrid[x, y] == if Covers(r, (x, y)) then SaturatingInc(old(countGrid[x, y])) else old(countGrid[x, y])
    {
      var (topX, topY) := TopRight(r);
      var x := r.x;
      while x <= topX
        invariant r.x <= x <= topX + 1
        invariant forall a, b :: 0 <= a < countGrid.Length0 && 0 <= b < countGrid.Length1 ==>
          countGrid[a, b] ==
            if r.x <= a < x && r.y <= b <= topY then SaturatingInc(old(countGrid[a, b])) else old(countGrid[a, b])
      {
        var y := r.y;
        while y <= topY
          invariant r.y <= y <= topY + 1
          invariant forall a, b :: 0 <= a < countGrid.Length0 && 0 <= b < countGrid.Length1 ==>
            countGrid[a, b] ==
              if (r.x <= a < x && r.y <= b <= topY) || (a == x && r.y <= b < y)
              then SaturatingInc(old(countGrid[a, b])) else old(countGrid[a, b])
        {
          countGrid[x, y] := SaturatingInc(countGrid[x, y]);
          y := y + 1;
        }
        x := x + 1;
      }
    }

    /** Cells of column x below h holding more than one. */
    function ColumnOverlap(x: nat, h: nat): (n: nat)
      reads countGrid
      requires Valid() && x < countGrid.Length0 && h <= countGrid.Length1
      ensures n == |ContestedColumn(rects, x, h)|
    {
      if h == 0 then 0
      else
        ContestedColumnSize(rects, x, h - 1);
        assert countGrid[x, h - 1] > 1 <==> CoverCount(rects, (x, h - 1)) > 1;
        ColumnOverlap(x, h - 1) + (if countGrid[x, h - 1] > 1 then 1 else 0)
    }

    /** Cells of the first w columns holding more than one. */
    function GridOverlap(w: nat): (n: nat)
      reads countGrid
      requires Valid() && w <= countGrid.Length0
      ensures n == |ContestedCells(rects, w, countGrid.Length1)|
    {
      if w == 0 then 0
      else
        ContestedCellsStep(rects, w - 1, countGrid.Length1);
        GridOverlap(w - 1) + ColumnOverlap(w - 1, countGrid.Length1)
    }

    /**
     * `overlap_area`: the number of grid cells whose counter exceeds one,
     * which is the number of cells that two or more claims cover.
     */
    function OverlapArea(): (area: nat)
      reads countGrid
      requires Valid()
      ensures area == |ContestedCells(rects, GridWidth(rects), GridHeight(rects))|
      ensures rects == [] ==> area == 0
    {
      GridOverlap(countGrid.Length0)
    }

    /** `iter_coords().all(|(x, y)| count(x, y) == 1)` over a list of in-grid cells. */
    function AllCountOne(cells: seq<Cell>): (b: bool)
      reads countGrid
      requires forall k :: 0 <= k < |cells| ==> cells[k].0 < countGrid.Length0 && cells[k].1 < countGrid.Length1
      ensures b <==> forall k :: 0 <= k < |cells| ==> countGrid[cells[k].0, cells[k].1] == 1
    {
      cells == [] || (countGrid[cells[0].0, cells[0].1] == 1 && AllCountOne(cells[1..]))
    }

    /** The grid check of one input claim agrees with the sole-claimant property. */
    lemma CheckIsSoleClaimant(i: nat)
      requires Valid() && i < |rects|
      ensures var cells := IterCoords(rects[i]);
        (forall k :: 0 <= k < |cells| ==> cells[k].0 < countGrid.Length0 && cells[k].1 < countGrid.Length1)
        && (AllCountOne(cells) <==> SoleClaimant(rects, rects[i]))
    {
      var r, cells := rects[i], IterCoords(rects[i]);
      forall k | 0 <= k < |cells|
        ensures cells[k].0 < countGrid.Length0 && cells[k].1 < countGrid.Length1
        ensures countGrid[cells[k].0, cells[k].1] == 1 <==> CoverCount(rects, cells[k]) == 1
      {
        IterCoordsCells(r, cells[k]);
        CoveredCellsInGrid(rects, i, cells[k]);
      }
      if AllCountOne(cells) {
        forall c | Covers(r, c)
          ensures CoverCount(rects, c) == 1
        {
          IterCoordsCells(r, c);
          var k :| 0 <= k < |cells| && cells[k] == c;
        }
      } else {
        var k :| 0 <= k < |cells| && countGrid[cells[k].0, cells[k].1] != 1;
        IterCoordsCells(r, cells[k]);
      }
    }

    /** The claims from index k on that pass the grid check, in input order. */
    function NonOverlappingFrom(k: nat): (out: seq<Rect>)
      reads countGrid
      requires Valid() && k <= |rects|
      ensures out == SoleClaimants(rects, rects[k..])
      decreases |rects| - k
    {
      if k == |rects| then []
      else
        CheckIsSoleClaimant(k);
        assert rects[k..][1..] == rects[k + 1..];
        (if AllCountOne(IterCoords(rects[k])) then [rects[k]] else []) + NonOverlappingFrom(k + 1)
    }

    /**
     * `iter_non_overlapping_rects`: in input order, the claims whose every
     * cell has count exactly one; empty claims are always among them.
     */
    function NonOverlappingRects(): (out: seq<Rect>)
      reads countGrid
      requires Valid()
      ensures out == SoleClaimants(rects, rects)
    {
      assert rects[0..] == rects;
      NonOverlappingFrom(0)
    }
  }

  /** The overlap area of the source's first grid test, stated through the grid itself. */
  method OverlapsAreaScenario() returns (area: nat)
    ensures area == 4
  {
    var overlaps := new Overlaps(ExampleClaims());
    OverlapExampleArea();
    area := overlaps.OverlapArea();
  }

  /** The sole claimants of the source's first grid test, stated through the grid itself. */
  method OverlapsSoleScenario() returns (sole: seq<Rect>)
    ensures sole == [Rect(3, 5, 5, 2, 2)]
  {
    var overlaps := new Overlaps(ExampleClaims());
    OverlapExampleSole();
    sole := overlaps.NonOverlappingRects();
  }

  /** Without claims the grid is empty and nothing overlaps. */
  method NoClaimsScenario() returns (area: nat)
    ensures area == 0
  {
    var overlaps := new Overlaps([]);
    area := overlaps.OverlapArea();
  }

  /** A unit claim beside an empty claim at the same corner: no overlap, and both claims are kept. */
  method ZeroSizeScenario() returns (area: nat, sole: seq<Rect>)
    ensures area == 0 && sole == [Rect(1, 1, 1, 1, 1), Rect(2, 1, 1, 0, 0)]
  {
    var overlaps := new Overlaps([Rect(1, 1, 1, 1, 1), Rect(2, 1, 1, 0, 0)]);
    ZeroSizeExample();
    area := overlaps.OverlapArea();
    sole := overlaps.NonOverlappingRects();
  }
}
