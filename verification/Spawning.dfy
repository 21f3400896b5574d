/** The spawn generators, and the sweep that lets each of them spawn under one budget. */
module Spawning {
  import opened Basics
  import MapData

  const MAXNPC_PER_ONTIMER := 20

  function Min(a: nat, b: nat): nat {
    if a <= b then a else b
  }

  /** The random number generator, as its contract. */
  method Random(aMin: nat, aMax: nat) returns (r: nat)
    requires aMin <= aMax
    ensures aMin <= r <= aMax
  {
    r :| aMin <= r <= aMax;
  }

  // ---- the grid ----

  /** The squares of a generator: their side, and how many fit on each axis. */
  datatype Grid = Grid(side: nat, columns: nat, rows: nat)

  predicate Divided(g: Grid) {
    g.columns * g.rows > 1
  }

  /** mMaxNPC */
  function Count(g: Grid): nat {
    if g.columns * g.rows < 1 then 1 else g.columns * g.rows
  }

  /** The grid the constructor computes; a generator without one has a side of zero. */
  function GridOf(maxNpc: uint16, boundCX: uint16, boundCY: uint16): Grid {
    if maxNpc < 1 then Grid(0, 1, 1) else Grid(maxNpc, boundCX / maxNpc, boundCY / maxNpc)
  }

  /** The next square's number. */
  function NextIdx(g: Grid, idx: nat): nat {
    if idx + 1 >= Count(g) then 0 else idx + 1
  }

  /** The number after some calls. */
  function IdxAfter(g: Grid, idx: nat, calls: nat): nat {
    if calls == 0 then idx else NextIdx(g, IdxAfter(g, idx, calls - 1))
  }

  function Square(g: Grid, idx: nat): (nat, nat)
    requires g.columns > 0
  {
    (idx % g.columns, idx / g.columns)
  }

  lemma GridFits(maxNpc: uint16, boundCX: uint16, boundCY: uint16)
    ensures maxNpc >= 1 ==> var g := GridOf(maxNpc, boundCX, boundCY); g.side * g.columns <= boundCX && g.side * g.rows <= boundCY
  {
  }

  /** So many squares fit on an axis, and no more. */
  predicate Fits(side: nat, n: nat, extent: nat) {
    side * n <= extent < side * (n + 1)
  }

  lemma GridIsFull(maxNpc: uint16, boundCX: uint16, boundCY: uint16)
    requires maxNpc >= 1
    ensures var g := GridOf(maxNpc, boundCX, boundCY);
            g.side == maxNpc && Fits(maxNpc, g.columns, boundCX) && Fits(maxNpc, g.rows, boundCY)
    ensures Count(GridOf(0, boundCX, boundCY)) == 1
  {
    QuotientFits(maxNpc, boundCX);
    QuotientFits(maxNpc, boundCY);
    hide Fits;
  }

  lemma QuotientFits(side: nat, extent: nat)
    requires side > 0
    ensures Fits(side, extent / side, extent)
  {
    assert extent == side * (extent / side) + extent % side;
    assert side * (extent / side + 1) == side * (extent / side) + side;
  }

  /** Only one number of squares fits. */
  lemma FitsIsUnique(side: nat, n: nat, m: nat, extent: nat)
    requires Fits(side, n, extent) && Fits(side, m, extent)
    ensures n == m
  {
    if n < m {
      Scale(side, n + 1, m);
    } else if m < n {
      Scale(side, m + 1, n);
    }
  }

  /** The number of squares is that of the columns and rows that fit, and at least one. */
  lemma CountIsFull(maxNpc: uint16, boundCX: uint16, boundCY: uint16)
    ensures forall columns: nat, rows: nat :: Fits(maxNpc, columns, boundCX) && Fits(maxNpc, rows, boundCY) ==>
              Count(GridOf(maxNpc, boundCX, boundCY)) == if columns * rows < 1 then 1 else columns * rows
  {
    forall columns: nat, rows: nat | Fits(maxNpc, columns, boundCX) && Fits(maxNpc, rows, boundCY)
      ensures Count(GridOf(maxNpc, boundCX, boundCY)) == if columns * rows < 1 then 1 else columns * rows
    {
      if maxNpc >= 1 {
        GridIsFull(maxNpc, boundCX, boundCY);
        var g := GridOf(maxNpc, boundCX, boundCY);
        FitsIsUnique(maxNpc, columns, g.columns, boundCX);
        FitsIsUnique(maxNpc, rows, g.rows, boundCY);
      }
    }
  }

  lemma SquareInGrid(g: Grid, idx: nat)
    requires Divided(g) && idx < Count(g)
    ensures g.columns > 0 && Square(g, idx).0 < g.columns && Square(g, idx).1 < g.rows
  {
    var (i, j) := Square(g, idx);
    if j >= g.rows {
      Scale(g.columns, g.rows, j);
    }
  }

  lemma Scale(c: nat, a: nat, b: nat)
    requires a <= b
    ensures c * a <= c * b
  {
  }

  /** Squares are numbered row by row. */
  lemma NumberOfSquare(g: Grid, i: nat, j: nat)
    requires i < g.columns && j < g.rows
    ensures j * g.columns + i < g.columns * g.rows
    ensures Square(g, j * g.columns + i) == (i, j)
  {
    Scale(g.columns, j + 1, g.rows);
    DivModUnique(j, g.columns, i);
  }

  lemma {:induction false} IdxCycles(g: Grid, idx: nat, calls: nat)
    requires idx <= Count(g) && 1 <= calls <= Count(g)
    ensures var n := Count(g); var base := Min(idx, n - 1);
            IdxAfter(g, idx, calls) == if base + calls < n then base + calls else base + calls - n
  {
    if calls == 1 {
      assert IdxAfter(g, idx, 1) == NextIdx(g, IdxAfter(g, idx, 0));
    } else {
      IdxCycles(g, idx, calls - 1);
    }
  }

  lemma SquareIsItsNumber(g: Grid, idx: nat)
    requires g.columns > 0
    ensures Square(g, idx).1 * g.columns + Square(g, idx).0 == idx
  {
  }

  /** A point of a square lies inside the extent. */
  lemma OffsetFits(side: nat, i: nat, columns: nat, r: nat)
    requires i < columns && r <= side
    ensures side * i + r <= side * columns
  {
    Scale(side, i + 1, columns);
    assert side * (i + 1) == side * i + side;
  }

  /**
    * From any start the constructor may draw, as many calls as there are squares visit every square,
    * and visit it once only.
    */
  lemma EachSquareOnce(g: Grid, idx: nat, i: nat, j: nat) returns (k: nat)
    requires Divided(g) && idx <= Count(g) && i < g.columns && j < g.rows
    ensures 1 <= k <= Count(g) && Square(g, IdxAfter(g, idx, k)) == (i, j)
    ensures forall l :: 1 <= l <= Count(g) && Square(g, IdxAfter(g, idx, l)) == (i, j) ==> l == k
  {
    var n, target := Count(g), j * g.columns + i;
    NumberOfSquare(g, i, j);
    SquareIsItsNumber(g, target);
    hide Square;
    var base := Min(idx, n - 1);
    k := if target > base then target - base else target + n - base;
    IdxCycles(g, idx, k);
    forall l | 1 <= l <= n && Square(g, IdxAfter(g, idx, l)) == (i, j)
      ensures l == k
    {
      IdxCycles(g, idx, l);
      SquareIsItsNumber(g, IdxAfter(g, idx, l));
    }
  }

  /** A draw lands between the bound and the bound plus the extent exactly when it does not pass 65,535. */
  lemma InBoundsUnlessWrapped(bound: uint16, extent: uint16, d: nat)
    requires d <= extent
    ensures bound <= Wrap16(bound + d) <= bound + extent <==> bound + d < 0x1_0000
  {
    if bound + d >= 0x1_0000 {
      assert Wrap16(bound + d) == bound + d - 0x1_0000;
    }
  }

  // ---- where a generator draws ----

  datatype Point = Point(x: uint16, y: uint16)

  /** The cells of the map in its turn, where every access is unchecked. */
  datatype Ground = Ground(cells: seq<MapData.Cell>, width: uint16) {
    function Look(p: Point): Option<MapData.Cell> {
      MapData.LookAt(cells, width, p.x, p.y)
    }

    predicate Stands(p: Point) {
      Look(p).Some? && Look(p).value.accessible
    }
  }

  /** The cells lie row by row; one can stand on an accessible one. */
  lemma LookIs(g: Ground, p: Point)
    ensures g.Look(p) == if p.x + p.y * g.width < |g.cells| then Some(g.cells[p.x + p.y * g.width]) else None
    ensures g.Stands(p) <==> p.x + p.y * g.width < |g.cells| && g.cells[p.x + p.y * g.width].accessible
  {
  }

  /** The fields of a generator that say where: the bounds, the extents, and the side of a square. */
  datatype Area = Area(boundX: uint16, boundY: uint16, extentX: uint16, extentY: uint16, side: uint16) {
    function Squares(): Grid {
      GridOf(side, extentX, extentY)
    }

    /** The largest offsets a draw can have. */
    function FarX(): nat {
      if Divided(Squares()) then side * Squares().columns else extentX
    }

    function FarY(): nat {
      if Divided(Squares()) then side * Squares().rows else extentY
    }

    /** The offsets findGenPos may draw: in any of the squares, or anywhere without a grid. */
    ghost predicate MayDraw(dx: nat, dy: nat) {
      if Divided(Squares())
      then exists i: nat, j: nat :: i < Squares().columns && j < Squares().rows && InSquare(side, i, j, dx, dy)
      else dx <= extentX && dy <= extentY
    }

    function At(dx: nat, dy: nat): Point {
      Point(Wrap16(boundX + dx), Wrap16(boundY + dy))
    }

    /** Between the bounds and the bounds plus the extents. */
    predicate Inside(p: Point) {
      boundX <= p.x <= boundX + extentX && boundY <= p.y <= boundY + extentY
    }

    /** A position findGenPos may draw. */
    ghost predicate Drawn(p: Point) {
      exists dx: nat, dy: nat :: MayDraw(dx, dy) && p == At(dx, dy)
    }

    predicate Lands(p: Point, farX: nat, farY: nat, dx: nat, dy: nat) {
      dx <= farX && dy <= farY && p == At(dx, dy)
    }

    ghost predicate Within(p: Point, farX: nat, farY: nat) {
      exists dx: nat, dy: nat :: Lands(p, farX, farY, dx, dy)
    }

    /** A position some draw over the whole extents may have: every place a monster may get. */
    ghost predicate Reaches(p: Point) {
      Within(p, extentX, extentY)
    }

    /** A draw of findGenPos may fall where nobody can stand. */
    ghost predicate MayMiss(g: Ground) {
      exists p :: Drawn(p) && g.Look(p).Some? && !g.Stands(p)
    }

    /** The positions at which generate may look: the first draws and, if one of them may miss, the second. */
    ghost predicate MayLook(g: Ground, p: Point) {
      Drawn(p) || (MayMiss(g) && Reaches(p))
    }

    /** The position with the largest coordinates. */
    function Corner(farX: nat, farY: nat): Point {
      Point(Top(boundX, farX), Top(boundY, farY))
    }
  }

  /** The largest coordinate offsets up to `far` lead to, at sixteen bits. */
  function Top(bound: uint16, far: nat): uint16 {
    if bound + far < 0x1_0000 then bound + far else 0xFFFF
  }

  predicate InSquare(side: nat, i: nat, j: nat, dx: nat, dy: nat) {
    side * i <= dx <= side * i + side && side * j <= dy <= side * j + side
  }

  lemma FarFits(a: Area)
    ensures a.FarX() <= a.extentX && a.FarY() <= a.extentY
  {
    GridFits(a.side, a.extentX, a.extentY);
  }

  /** The largest offsets are those of the squares that fit, when there is more than one, and the extents otherwise. */
  lemma FarIs(a: Area, columns: nat, rows: nat)
    requires Fits(a.side, columns, a.extentX) && Fits(a.side, rows, a.extentY)
    ensures a.FarX() == if columns * rows > 1 then a.side * columns else a.extentX
    ensures a.FarY() == if columns * rows > 1 then a.side * rows else a.extentY
  {
    GridIsFull(a.side, a.extentX, a.extentY);
    FitsIsUnique(a.side, columns, a.Squares().columns, a.extentX);
    FitsIsUnique(a.side, rows, a.Squares().rows, a.extentY);
  }

  /** The square an offset falls into, on one axis. */
  lemma SquareOf(side: nat, n: nat, d: nat) returns (i: nat)
    requires n > 0 && d <= side * n
    ensures i < n && side * i <= d <= side * i + side
  {
    if d == side * n {
      i := n - 1;
      OneLess(side, n);
    } else {
      i := d / side;
      assert side * (d / side) + d % side == d;
      if i >= n {
        Scale(side, n, i);
      }
    }
  }

  lemma OneLess(side: nat, n: nat)
    requires n > 0
    ensures side * (n - 1) + side == side * n
  {
  }

  lemma ProductOfZero(a: nat, b: nat)
    ensures a == 0 || b == 0 ==> a * b == 0
  {
  }

  /** The squares leave no gap: any two offsets up to the largest ones may be drawn together, and no others. */
  lemma MayDrawIff(a: Area, dx: nat, dy: nat)
    ensures a.MayDraw(dx, dy) <==> dx <= a.FarX() && dy <= a.FarY()
  {
    var g := a.Squares();
    if Divided(g) {
      assert g.columns > 0 && g.rows > 0 by {
        ProductOfZero(g.columns, g.rows);
      }
      hide GridOf, Divided;
      if dx <= a.FarX() && dy <= a.FarY() {
        var i := SquareOf(a.side, g.columns, dx);
        var j := SquareOf(a.side, g.rows, dy);
        assert InSquare(a.side, i, j, dx, dy);
      }
      if i: nat, j: nat :| i < g.columns && j < g.rows && InSquare(a.side, i, j, dx, dy) {
        OffsetFits(a.side, i, g.columns, a.side);
        OffsetFits(a.side, j, g.rows, a.side);
      }
    }
  }

  lemma DrawnIff(a: Area, p: Point)
    ensures a.Drawn(p) <==> a.Within(p, a.FarX(), a.FarY())
    ensures a.Drawn(p) ==> a.Reaches(p)
  {
    FarFits(a);
    hide Area.MayDraw, Area.FarX, Area.FarY;
    if dx: nat, dy: nat :| a.MayDraw(dx, dy) && p == a.At(dx, dy) {
      MayDrawIff(a, dx, dy);
      assert a.Lands(p, a.FarX(), a.FarY(), dx, dy) && a.Lands(p, a.extentX, a.extentY, dx, dy);
    }
    if dx: nat, dy: nat :| a.Lands(p, a.FarX(), a.FarY(), dx, dy) {
      MayDrawIff(a, dx, dy);
    }
  }

  /** The positions offsets lead to lie within the bounds if and only if the largest ones do not pass 65,535. */
  lemma WithinInsideIff(a: Area, farX: nat, farY: nat)
    requires farX <= a.extentX && farY <= a.extentY
    ensures (forall p :: a.Within(p, farX, farY) ==> a.Inside(p))
            <==> a.boundX + farX < 0x1_0000 && a.boundY + farY < 0x1_0000
  {
    hide Wrap16;
    InBoundsUnlessWrapped(a.boundX, a.extentX, farX);
    InBoundsUnlessWrapped(a.boundY, a.extentY, farY);
    var far := a.At(farX, farY);
    assert a.Lands(far, farX, farY, farX, farY);
    assert a.Within(far, farX, farY);
    forall p | a.Within(p, farX, farY)
      ensures a.boundX + farX < 0x1_0000 && a.boundY + farY < 0x1_0000 ==> a.Inside(p)
    {
      var dx: nat, dy: nat :| a.Lands(p, farX, farY, dx, dy);
      InBoundsUnlessWrapped(a.boundX, a.extentX, dx);
      InBoundsUnlessWrapped(a.boundY, a.extentY, dy);
    }
  }

  /**
    * Every position findGenPos may draw lies within the bounds if and only if the bound plus the largest offset does
    * not pass 65,535, on either axis.
    */
  lemma DrawsStayInsideIff(a: Area)
    ensures (forall p :: a.Drawn(p) ==> a.Inside(p))
            <==> a.boundX + a.FarX() < 0x1_0000 && a.boundY + a.FarY() < 0x1_0000
  {
    FarFits(a);
    WithinInsideIff(a, a.FarX(), a.FarY());
    hide Area.Drawn, Area.Within;
    forall p
      ensures a.Drawn(p) <==> a.Within(p, a.FarX(), a.FarY())
    {
      DrawnIff(a, p);
    }
  }

  /** A generator whose draws leave its bounds: a hundred cells from 65,500 on, with no grid. */
  lemma SomeDrawLeaves()
    ensures var a := Area(65500, 0, 100, 0, 0); a.MayDraw(36, 0) && !a.Inside(a.At(36, 0)) && a.At(36, 0) == Point(0, 0)
  {
  }

  /**
    * The second draw is over the whole extents, which a grid need not fill: every place a monster may get lies within
    * the bounds if and only if the bound plus the extent does not pass 65,535, on either axis.
    */
  lemma MonstersStayInsideIff(a: Area)
    ensures (forall p :: a.Reaches(p) ==> a.Inside(p))
            <==> a.boundX + a.extentX < 0x1_0000 && a.boundY + a.extentY < 0x1_0000
  {
    WithinInsideIff(a, a.extentX, a.extentY);
  }

  /** A generator whose first draws stay within its bounds and whose second draw does not. */
  lemma SecondDrawLeaves()
    ensures var a := Area(65400, 0, 139, 79, 40);
            (forall p :: a.Drawn(p) ==> a.Inside(p)) && a.Reaches(Point(3, 0)) && !a.Inside(Point(3, 0))
  {
    var a := Area(65400, 0, 139, 79, 40);
    assert a.FarX() == 120 && a.FarY() == 40;
    DrawsStayInsideIff(a);
    assert a.Lands(Point(3, 0), 139, 79, 139, 0);
  }

  lemma TopIsHighest(bound: uint16, far: nat, d: nat)
    requires d <= far <= 0xFFFF
    ensures Wrap16(bound + d) <= Top(bound, far)
    ensures bound <= Top(bound, far) <= bound + far && Wrap16(Top(bound, far)) == Top(bound, far)
  {
  }

  /** Every position offsets lead to has a cell if and only if the one with the largest coordinates has. */
  lemma WithinLookIff(a: Area, g: Ground, farX: uint16, farY: uint16)
    ensures (forall p :: a.Within(p, farX, farY) ==> g.Look(p).Some?) <==> g.Look(a.Corner(farX, farY)).Some?
  {
    hide Wrap16, Top;
    TopIsHighest(a.boundX, farX, 0);
    TopIsHighest(a.boundY, farY, 0);
    var corner := a.Corner(farX, farY);
    assert a.Lands(corner, farX, farY, corner.x - a.boundX, corner.y - a.boundY);
    forall p | a.Within(p, farX, farY)
      ensures g.Look(corner).Some? ==> g.Look(p).Some?
    {
      var dx: nat, dy: nat :| a.Lands(p, farX, farY, dx, dy);
      TopIsHighest(a.boundX, farX, dx);
      TopIsHighest(a.boundY, farY, dy);
      Scale(g.width, p.y, corner.y);
    }
  }

  /**
    * generate never looks outside the cells, whatever it draws, if and only if the largest first draw has a cell and,
    * when a first draw may miss, so does the largest position of all.
    */
  lemma LooksStayInsideIff(a: Area, g: Ground)
    ensures var first, last := a.Corner(a.FarX(), a.FarY()), a.Corner(a.extentX, a.extentY);
            (forall p :: a.MayLook(g, p) ==> p.x + p.y * g.width < |g.cells|)
            <==> first.x + first.y * g.width < |g.cells| && (a.MayMiss(g) ==> last.x + last.y * g.width < |g.cells|)
  {
    FarFits(a);
    forall p: Point
      ensures g.Look(p).Some? <==> p.x + p.y * g.width < |g.cells|
    {
      LookIs(g, p);
    }
    WithinLookIff(a, g, a.FarX(), a.FarY());
    WithinLookIff(a, g, a.extentX, a.extentY);
    hide Area.MayMiss, Area.Drawn, Area.Within, Area.FarX, Area.FarY, Ground.Look;
    forall p
      ensures a.Drawn(p) <==> a.Within(p, a.FarX(), a.FarY())
    {
      DrawnIff(a, p);
    }
  }

  /** One draw of findGenPos. */
  lemma DrawIsInside(a: Area, dx: nat, dy: nat)
    requires a.MayDraw(dx, dy)
    ensures a.Drawn(a.At(dx, dy)) && a.Reaches(a.At(dx, dy))
    ensures a.boundX + a.FarX() < 0x1_0000 && a.boundY + a.FarY() < 0x1_0000 ==> a.Inside(a.At(dx, dy))
  {
    hide Area.MayDraw, Area.FarX, Area.FarY;
    DrawnIff(a, a.At(dx, dy));
    DrawsStayInsideIff(a);
  }

  // ---- the generator ----

  /** What a call depends on besides the generator: the map's activity, the timer, and the cells. */
  datatype Surroundings = Surroundings(active: bool, due: bool, ground: Ground)

  /** What an attempt to place a monster comes to; nothing is said of the source once it looked outside the cells. */
  datatype Attempt = Placed(p: Point) | Missed | Undefined(p: Point)

  class Generator {
    const mBoundX: uint16
    const mBoundY: uint16
    const mBoundCX: uint16
    const mBoundCY: uint16
    const mGrid: uint16
    const mMaxPerGen: uint16
    const mMaxNPC: nat
    var mGenAmount: nat
    var mCurGen: nat
    var mIdxLastGen: nat

    ghost function Place(): Area {
      Area(mBoundX, mBoundY, mBoundCX, mBoundCY, mGrid)
    }

    ghost function Squares(): Grid {
      Place().Squares()
    }

    ghost predicate Valid()
      reads this
    {
      && mMaxNPC == Count(Squares())
      && mIdxLastGen <= mMaxNPC
      && mCurGen <= mMaxPerGen
    }

    /** What is ever spawned when each call asks for at most so many. */
    ghost function Limit(amount: nat): nat {
      (if mMaxNPC >= 1 then mMaxNPC - 1 else 0) + Min(amount, mMaxPerGen)
    }

    constructor (boundX: uint16, boundY: uint16, boundCX: uint16, boundCY: uint16, maxNpc: uint16, maxPerGen: uint16)
      ensures Valid() && mGenAmount == 0 && mMaxNPC >= 1
      ensures mBoundX == boundX && mBoundY == boundY && mBoundCX == boundCX && mBoundCY == boundCY
      ensures mGrid == maxNpc && mMaxPerGen == maxPerGen
      ensures maxNpc == 0 ==> mMaxNPC == 1
      ensures forall columns: nat, rows: nat :: Fits(maxNpc, columns, boundCX) && Fits(maxNpc, rows, boundCY) ==>
                mMaxNPC == if columns * rows < 1 then 1 else columns * rows
    {
      var count := if maxNpc < 1 then 1 else (boundCX / maxNpc) * (boundCY / maxNpc);
      if count < 1 {
        count := 1;
      }
      var start := Random(0, count);
      mBoundX, mBoundY, mBoundCX, mBoundCY := boundX, boundY, boundCX, boundCY;
      mGrid, mMaxPerGen, mMaxNPC := maxNpc, maxPerGen, count;
      mGenAmount, mCurGen, mIdxLastGen := 0, 0, start;
      new;
      CountIsFull(maxNpc, boundCX, boundCY);
      hide Fits, GridOf;
    }

    /** The square of the number just drawn, and the offset in it. */
    method GridOffset() returns (dx: nat, dy: nat)
      requires Valid() && Divided(Squares()) && mIdxLastGen < mMaxNPC
      ensures Squares().columns > 0 && dx <= mBoundCX && dy <= mBoundCY
      ensures var (i, j) := Square(Squares(), mIdxLastGen);
              i < Squares().columns && j < Squares().rows && InSquare(mGrid, i, j, dx, dy)
    {
      GridFits(mGrid, mBoundCX, mBoundCY);
      SquareInGrid(Squares(), mIdxLastGen);
      var gridX := mBoundCX / mGrid;
      var rx := Random(0, mGrid);
      var ry := Random(0, mGrid);
      var i, j := mIdxLastGen % gridX, mIdxLastGen / gridX;
      OffsetFits(mGrid, i, Squares().columns, rx);
      OffsetFits(mGrid, j, Squares().rows, ry);
      dx := mGrid * i + rx;
      dy := mGrid * j + ry;
    }

    /** A position inside the bounds, wrapped at sixteen bits; with a grid, in the next square. */
    method FindGenPos() returns (x: uint16, y: uint16, ghost dx: nat, ghost dy: nat)
      requires Valid()
      modifies `mIdxLastGen
      ensures Valid()
      ensures Point(x, y) == Place().At(dx, dy) && dx <= mBoundCX && dy <= mBoundCY
      ensures mIdxLastGen == if Divided(Squares()) then NextIdx(Squares(), old(mIdxLastGen)) else old(mIdxLastGen)
      ensures Divided(Squares()) ==>
                && Squares().columns > 0
                && var (i, j) := Square(Squares(), mIdxLastGen); InSquare(mGrid, i, j, dx, dy)
      ensures Place().MayDraw(dx, dy) && Place().Drawn(Point(x, y)) && Place().Reaches(Point(x, y))
      ensures mBoundX + Place().FarX() < 0x1_0000 && mBoundY + Place().FarY() < 0x1_0000 ==>
                mBoundX <= x <= mBoundX + mBoundCX && mBoundY <= y <= mBoundY + mBoundCY
    {
      var ox, oy: nat;
      if mMaxNPC <= 1 {
        ox := Random(0, mBoundCX);
        oy := Random(0, mBoundCY);
      } else {
        mIdxLastGen := mIdxLastGen + 1;
        if mIdxLastGen >= mMaxNPC {
          mIdxLastGen := 0;
        }
        ox, oy := GridOffset();
      }
      x, y, dx, dy := Wrap16(mBoundX + ox), Wrap16(mBoundY + oy), ox, oy;
      DrawIsInside(Place(), dx, dy);
    }

    /** One attempt to place a monster: a second draw when nobody can stand on the first. */
    method FindPlace(ground: Ground) returns (a: Attempt)
      requires Valid()
      modifies `mIdxLastGen
      ensures Valid()
      ensures a.Placed? ==> ground.Stands(a.p) && Place().Reaches(a.p)
      ensures a.Undefined? ==> Place().MayLook(ground, a.p) && ground.Look(a.p).None?
      ensures (forall p :: Place().Drawn(p) ==> ground.Stands(p)) ==> a.Placed?
    {
      hide Area.MayDraw, Area.FarX, Area.FarY, GridOf, MapData.LookAt, Wrap16;
      var x, y, dx, dy := FindGenPos();
      var first := Point(x, y);
      var cell := ground.Look(first);
      if cell.None? {
        return Undefined(first);
      }
      if cell.value.accessible {
        return Placed(first);
      }
      var ox := Random(0, mBoundCX);
      var oy := Random(0, mBoundCY);
      var second := Point(Wrap16(mBoundX + ox), Wrap16(mBoundY + oy));
      assert Place().Lands(second, mBoundCX, mBoundCY, ox, oy);
      cell := ground.Look(second);
      a := if cell.None? then Undefined(second) else if cell.value.accessible then Placed(second) else Missed;
    }

    /**
      * Generator::generate, with the places of the monsters it made. It ends where it looks outside the cells, which is
      * at a position it may look at; LooksStayInsideIff says when there is none without a cell.
      */
    method Generate(aAmount: nat, aInitializing: bool, s: Surroundings)
      returns (generated: nat, places: seq<Point>, outside: Option<Point>)
      requires Valid()
      modifies this
      ensures Valid() && mGenAmount == old(mGenAmount) + generated && generated <= aAmount
      ensures |places| == generated && forall p :: p in places ==> s.ground.Stands(p) && Place().Reaches(p)
      ensures outside.Some? ==> Place().MayLook(s.ground, outside.value) && s.ground.Look(outside.value).None?
      ensures generated > 0 ==> mGenAmount <= Limit(aAmount)
      ensures var waits := (!aInitializing && !s.active) || old(mGenAmount) >= mMaxNPC;
              var quota := if s.due then mMaxPerGen else old(mCurGen);
              && (waits ==> generated == 0 && mCurGen == old(mCurGen) && outside.None?)
              && (!waits ==> generated <= Min(aAmount, quota) && mCurGen == quota - generated)
              && (!waits && (forall p :: Place().Drawn(p) ==> s.ground.Stands(p)) ==>
                    generated == Min(aAmount, quota) && outside.None?)
    {
      generated, places, outside := 0, [], None;
      if !aInitializing && !s.active {
        return;
      }
      if mGenAmount >= mMaxNPC {
        return;
      }
      if s.due {
        mCurGen := mMaxPerGen;
      }
      if mCurGen <= 0 {
        return;
      }
      hide Area.Drawn, Area.Reaches, Area.MayLook, Ground.Stands, Ground.Look, GridOf;
      ghost var quota := mCurGen;
      for i := 0 to aAmount
        invariant mGenAmount == old(mGenAmount) + generated && generated <= i
        invariant mCurGen == quota - generated > 0
        invariant Valid() && outside.None?
        invariant |places| == generated && forall p :: p in places ==> s.ground.Stands(p) && Place().Reaches(p)
        invariant (forall p :: Place().Drawn(p) ==> s.ground.Stands(p)) ==> generated == i
      {
        var a := FindPlace(s.ground);
        if a.Undefined? {
          outside := Some(a.p);
          return;
        }
        if a.Missed? {
          continue;
        }
        places := places + [a.p];
        mCurGen := mCurGen - 1;
        mGenAmount := mGenAmount + 1;
        generated := generated + 1;
        if mCurGen <= 0 {
          break;
        }
      }
    }
  }

  // ---- the sweep ----

  function Sum(amounts: seq<nat>): nat {
    if amounts == [] then 0 else Sum(amounts[..|amounts| - 1]) + amounts[|amounts| - 1]
  }

  lemma {:induction false} SumAfterGrowth(amounts: seq<nat>, i: nat, by_: nat)
    requires i < |amounts|
    ensures Sum(amounts[i := amounts[i] + by_]) == Sum(amounts) + by_
  {
    var n := |amounts| - 1;
    if i == n {
      assert amounts[i := amounts[i] + by_][..n] == amounts[..n];
    } else {
      SumAfterGrowth(amounts[..n], i, by_);
      assert amounts[i := amounts[i] + by_][..n] == amounts[..n][i := amounts[i] + by_];
    }
  }

  lemma {:induction false} SumBelow(amounts: seq<nat>, limits: seq<nat>)
    requires |amounts| == |limits| && forall i :: 0 <= i < |amounts| ==> amounts[i] <= limits[i]
    ensures Sum(amounts) <= Sum(limits)
  {
    if amounts == [] {
    } else {
      SumBelow(amounts[..|amounts| - 1], limits[..|limits| - 1]);
    }
  }

  ghost function Amounts(gens: seq<Generator>): seq<nat>
    reads gens
  {
    seq(|gens|, i requires 0 <= i < |gens| reads gens => gens[i].mGenAmount)
  }

  ghost function Limits(gens: seq<Generator>): seq<nat> {
    seq(|gens|, i requires 0 <= i < |gens| => gens[i].Limit(MAXNPC_PER_ONTIMER))
  }

  /** Each generator is listed once, and has stayed within its limit. */
  ghost predicate Listed(gens: seq<Generator>)
    reads gens
  {
    && (forall i :: 0 <= i < |gens| ==> gens[i].Valid() && gens[i].mGenAmount <= gens[i].Limit(MAXNPC_PER_ONTIMER))
    && (forall i, j :: 0 <= i < j < |gens| ==> gens[i] != gens[j])
  }

  /** All the monsters there can ever be. */
  lemma TotalBounded(gens: seq<Generator>)
    requires Listed(gens)
    ensures Sum(Amounts(gens)) <= Sum(Limits(gens))
  {
    SumBelow(Amounts(gens), Limits(gens));
  }

  lemma LimitGrows(g: Generator, amount: nat)
    requires amount <= MAXNPC_PER_ONTIMER
    ensures g.Limit(amount) <= g.Limit(MAXNPC_PER_ONTIMER)
  {
  }

  /** The generator a sweep starts with. */
  function First(start: nat, count: nat): nat {
    if start >= count then 0 else start
  }

  /** A generator may look outside the cells. */
  ghost predicate MayLookOutside(g: Generator, s: Surroundings) {
    exists p :: g.Place().MayLook(s.ground, p) && s.ground.Look(p).None?
  }

  /** One generator's turn in a sweep: no other generator's amount changes. */
  method TakeTurn(gens: seq<Generator>, index: nat, maxNpc: nat, initializing: bool, s: Surroundings)
    returns (left: nat, defined: bool)
    requires Listed(gens) && index < |gens| && 1 <= maxNpc <= MAXNPC_PER_ONTIMER
    modifies gens
    ensures Listed(gens) && left <= maxNpc
    ensures Amounts(gens) == old(Amounts(gens))[index := old(Amounts(gens))[index] + (maxNpc - left)]
    ensures Sum(Amounts(gens)) == Sum(old(Amounts(gens))) + (maxNpc - left)
    ensures !defined ==> MayLookOutside(gens[index], s)
  {
    hide Area.MayLook, Ground.Look, Ground.Stands, Area.Reaches, Area.Drawn, GridOf, Sum, Generator.Place, Generator.Limit;
    LimitGrows(gens[index], maxNpc);
    ghost var before := Amounts(gens);
    var generated, _, outside := gens[index].Generate(maxNpc, initializing, s);
    assert Amounts(gens) == before[index := before[index] + generated];
    SumAfterGrowth(before, index, generated);
    left := maxNpc - generated;
    defined := outside.None?;
  }

  /**
    * The inner loop of World::regenerateMonsters, from where the last sweep stopped: at most 20 monsters, and the
    * budget never below zero. A sweep that used it up did so at the returned index, where the next one starts; one
    * that had some left ends at the last generator or is stopped, and the amounts outside its stretch stay.
    */
  method Sweep(gens: seq<Generator>, start: nat, initializing: bool, env: nat -> Surroundings, stopping: nat -> bool)
    returns (index: nat, maxNpc: nat, defined: bool)
    requires Listed(gens)
    modifies gens
    ensures Listed(gens) && maxNpc <= 20 && Sum(Amounts(gens)) == Sum(old(Amounts(gens))) + (20 - maxNpc)
    ensures gens != [] ==> index < |gens|
    ensures !defined ==> index < |gens| && MayLookOutside(gens[index], env(index))
    ensures maxNpc == 0 ==>
              && First(start, |gens|) <= index < |gens| && Amounts(gens)[index] > old(Amounts(gens))[index]
              && Amounts(gens)[index + 1..] == old(Amounts(gens))[index + 1..]
    ensures defined && maxNpc > 0 && 0 < index < |gens| ==> stopping(index) && Amounts(gens)[index..] == old(Amounts(gens))[index..]
    ensures Amounts(gens)[..First(start, |gens|)] == old(Amounts(gens))[..First(start, |gens|)]
  {
    hide Listed, Sum, Generator.Place, MayLookOutside;
    maxNpc, defined := MAXNPC_PER_ONTIMER, true;
    index := if start >= |gens| then 0 else start;
    ghost var before := Amounts(gens);
    while index < |gens| && !stopping(index)
      invariant Listed(gens) && defined && 1 <= maxNpc <= MAXNPC_PER_ONTIMER && First(start, |gens|) <= index <= |gens|
      invariant Sum(Amounts(gens)) == Sum(before) + (MAXNPC_PER_ONTIMER - maxNpc)
      invariant forall k :: 0 <= k < |gens| && (k < First(start, |gens|) || k >= index) ==> Amounts(gens)[k] == before[k]
      decreases |gens| - index
    {
      maxNpc, defined := TakeTurn(gens, index, maxNpc, initializing, env(index));
      if !defined || maxNpc <= 0 {
        break;
      }
      index := index + 1;
    }
    if index >= |gens| {
      index := 0;
    }
  }

  /** However many sweeps there are, they spawn a bounded number of monsters in all, and no generator passes its limit. */
  method Sweeps(gens: seq<Generator>, rounds: nat, initializing: nat -> bool, env: nat -> nat -> Surroundings,
                stopping: nat -> nat -> bool)
    returns (spawned: nat)
    requires Listed(gens)
    modifies gens
    ensures Listed(gens) && Sum(Amounts(gens)) == Sum(old(Amounts(gens))) + spawned
    ensures forall i :: 0 <= i < |gens| ==> gens[i].mGenAmount <= gens[i].mMaxNPC - 1 + Min(20, gens[i].mMaxPerGen)
    ensures spawned <= Sum(Limits(gens)) - Sum(old(Amounts(gens)))
  {
    hide Amounts, Limits, Sum;
    spawned := 0;
    var index := 0;
    for round := 0 to rounds
      invariant Listed(gens) && Sum(Amounts(gens)) == Sum(old(Amounts(gens))) + spawned
    {
      var maxNpc, defined;
      index, maxNpc, defined := Sweep(gens, index, initializing(round), env(round), stopping(round));
      spawned := spawned + (MAXNPC_PER_ONTIMER - maxNpc);
      if !defined {
        break;
      }
    }
    TotalBounded(gens);
  }
}
