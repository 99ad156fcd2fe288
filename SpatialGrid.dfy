/** A uniform-grid spatial index: a `width` x `height` array of buckets of
    entities, kept consistent with a map from each entity to the cell it was
    last seen in, and a box query over the buckets. Positions are exact reals. */
module Spatial {

  /** A position in the plane (the source's `Vector2`, without float rounding). */
  datatype Point = Point(x: real, y: real)

  /** A grid cell: `col` indexes the first dimension of the buckets, `row` the second. */
  datatype Cell = Cell(col: int, row: int)

  /** The cell recorded for an entity that is not on the grid. */
  const Outside := Cell(-1, -1)

  type Positive = r: real | r > 0.0 witness 1.0

  /** The grid's configuration: origin, cell size and number of columns and rows. */
  datatype Layout = Layout(x: real, y: real, cellWidth: Positive, cellHeight: Positive, width: nat, height: nat)

  // ---------------------------------------------------------------------------
  // Cells and positions

  predicate IsInsideGrid(g: Layout, c: Cell)
  {
    0 <= c.col < g.width && 0 <= c.row < g.height
  }

  lemma OutsideIsNeverInside(g: Layout)
    ensures !IsInsideGrid(g, Outside)
    ensures forall c: Cell :: IsInsideGrid(g, c) ==> c != Outside
  {
  }

  /** The column (or row) whose half-open band `[origin + i*size, origin + (i+1)*size)` holds `v`. */
  predicate InBand(origin: real, size: real, i: int, v: real)
  {
    origin + i as real * size <= v < origin + (i + 1) as real * size
  }

  function GetPositionInGrid(g: Layout, p: Point): Cell
  {
    Cell(((p.x - g.x) / g.cellWidth).Floor, ((p.y - g.y) / g.cellHeight).Floor)
  }

  /** Scaling by a positive factor preserves `<=`. */
  lemma ScaleLe(a: real, b: real, w: Positive, aw: real, bw: real)
    requires aw == a * w && bw == b * w
    ensures a <= b <==> aw <= bw
  {
    assert bw - aw == (b - a) * w;
  }

  /** Scaling by a positive factor preserves `<`. */
  lemma ScaleLt(a: real, b: real, w: Positive, aw: real, bw: real)
    requires aw == a * w && bw == b * w
    ensures a < b <==> aw < bw
  {
    assert bw - aw == (b - a) * w;
  }

  /** `q` lies in band `i` exactly when its multiple `v == q * w` lies in band `i` scaled by `w`. */
  lemma FloorBand(q: real, v: real, w: Positive, i: int)
    requires v == q * w
    ensures q.Floor == i <==> i as real * w <= v < (i + 1) as real * w
  {
    var f := q.Floor;
    var lo, hi := i as real, (i + 1) as real;
    if f == i {
      assert lo <= q < hi;
      ScaleLe(lo, q, w, lo * w, v);
      ScaleLt(q, hi, w, v, hi * w);
    } else if f > i {
      assert hi <= q;
      ScaleLe(hi, q, w, hi * w, v);
    } else {
      assert q < lo;
      ScaleLt(q, lo, w, v, lo * w);
    }
  }

  lemma FloorOfQuotient(v: real, w: Positive, i: int)
    ensures (v / w).Floor == i <==> i as real * w <= v < (i + 1) as real * w
  {
    FloorBand(v / w, v, w, i);
  }

  /** The point-to-cell map picks exactly the cell whose bands hold the point. */
  lemma PositionInGridIsTheBand(g: Layout, p: Point, c: Cell)
    ensures GetPositionInGrid(g, p) == c
            <==> InBand(g.x, g.cellWidth, c.col, p.x) && InBand(g.y, g.cellHeight, c.row, p.y)
  {
    FloorOfQuotient(p.x - g.x, g.cellWidth, c.col);
    FloorOfQuotient(p.y - g.y, g.cellHeight, c.row);
  }

  lemma FloorOfQuotientMonotone(a: real, b: real, w: Positive)
    requires a <= b
    ensures (a / w).Floor <= (b / w).Floor
  {
    var qa, qb := a / w, b / w;
    assert qa * w == a && qb * w == b;
    ScaleLe(qa, qb, w, a, b);
  }

  /** `Util.Clamp`: inclusive clamping of `v` into `[lo, hi]`. */
  function Clamp(v: int, lo: int, hi: int): (r: int)
    requires lo <= hi
    ensures lo <= r <= hi
    ensures lo <= v <= hi ==> r == v
    ensures v < lo ==> r == lo
    ensures hi < v ==> r == hi
  {
    if v < lo then lo else if v > hi then hi else v
  }

  /** A cell clamped into `[0, width] x [0, height]`: grid cells are kept, others moved
      to the nearest edge, which may be the column `width` or the row `height` just
      past the grid. */
  function ClampCell(g: Layout, c: Cell): (r: Cell)
    ensures 0 <= r.col <= g.width && 0 <= r.row <= g.height
    ensures IsInsideGrid(g, c) ==> r == c
  {
    Cell(Clamp(c.col, 0, g.width), Clamp(c.row, 0, g.height))
  }

  // ---------------------------------------------------------------------------
  // Bucket bookkeeping, as a function of the map from entities to cells

  /** The entities a consistent grid keeps in the bucket of cell `c`. */
  function Bucket<E>(m: map<E, Cell>, c: Cell): set<E>
  {
    set e | e in m && m[e] == c
  }

  /** The map `lastPositions` after `UpdateEntity` sees `e` in cell `c`. */
  function Moved<E(!new)>(g: Layout, m: map<E, Cell>, e: E, c: Cell): (r: map<E, Cell>)
    ensures IsInsideGrid(g, c) ==> e in r && r[e] == c
    ensures !IsInsideGrid(g, c) ==> e !in r
    ensures forall d :: d != e ==> (d in r <==> d in m)
    ensures forall d :: d != e && d in m ==> r[d] == m[d]
  {
    if IsInsideGrid(g, c) then m[e := c] else m - {e}
  }

  /** When the entity's cell has not changed (or it stays off the grid) the map is unchanged. */
  lemma MovedToSameCellIsNoOp<E(!new)>(g: Layout, m: map<E, Cell>, e: E, c: Cell)
    requires forall d :: d in m ==> IsInsideGrid(g, m[d])
    requires (if e in m then m[e] else Outside) == c
    ensures Moved(g, m, e, c) == m
  {
    if e in m {
      assert m[e := c] == m;
    } else {
      assert m - {e} == m;
    }
  }

  lemma BucketAfterMove<E(!new)>(g: Layout, m: map<E, Cell>, e: E, c: Cell, d: Cell)
    ensures Bucket(Moved(g, m, e, c), d)
            == if IsInsideGrid(g, c) && d == c then Bucket(m, d) + {e} else Bucket(m, d) - {e}
  {
  }

  /** `lastPositions` after `UpdateEntity` has run on each of `ents` in turn, from an empty map. */
  function Tracked<E(!new)>(g: Layout, ents: seq<E>, position: E -> Point): (r: map<E, Cell>)
    ensures forall e :: e in r ==> e in ents && IsInsideGrid(g, r[e])
  {
    if ents == [] then map[]
    else
      var e := ents[|ents| - 1];
      Moved(g, Tracked(g, ents[..|ents| - 1], position), e, GetPositionInGrid(g, position(e)))
  }

  /** After registering `ents`, an entity is tracked iff it was registered and its
      cell is inside the grid, and then its recorded cell is its current cell. */
  lemma {:induction false} TrackedExactly<E(!new)>(g: Layout, ents: seq<E>, position: E -> Point, e: E)
    ensures e in Tracked(g, ents, position)
            <==> e in ents && IsInsideGrid(g, GetPositionInGrid(g, position(e)))
    ensures e in Tracked(g, ents, position)
            ==> Tracked(g, ents, position)[e] == GetPositionInGrid(g, position(e))
  {
    if ents != [] {
      var init := ents[..|ents| - 1];
      TrackedExactly(g, init, position, e);
      assert ents == init + [ents[|ents| - 1]];
      assert e in ents <==> e in init || e == ents[|ents| - 1];
    }
  }

  /** After registering `ents`, the bucket of a grid cell holds exactly the registered
      entities whose current position falls in that cell. */
  lemma TrackedBuckets<E(!new)>(g: Layout, ents: seq<E>, position: E -> Point, c: Cell)
    requires IsInsideGrid(g, c)
    ensures Bucket(Tracked(g, ents, position), c)
            == set e | e in ents && GetPositionInGrid(g, position(e)) == c
  {
    forall e ensures e in Bucket(Tracked(g, ents, position), c)
                     <==> e in ents && GetPositionInGrid(g, position(e)) == c {
      TrackedExactly(g, ents, position, e);
    }
  }

  // ---------------------------------------------------------------------------
  // The query pipeline

  /** `Util.Generate(n, k => k + 1).TakeWhile(k => k < limit && k <= last)`. */
  function CountWhile(n: int, limit: int, last: int): (r: seq<int>)
    decreases limit - n
    ensures forall i :: 0 <= i < |r| ==> r[i] == n + i
    ensures forall k :: k in r <==> n <= k < limit && k <= last
  {
    if n < limit && n <= last then [n] + CountWhile(n + 1, limit, last) else []
  }

  /** `rows.Select(row => (col, row))`. */
  function CellsOfColumn(col: int, rows: seq<int>): (r: seq<Cell>)
    ensures forall c :: c in r <==> c.col == col && c.row in rows
  {
    if rows == [] then [] else [Cell(col, rows[0])] + CellsOfColumn(col, rows[1..])
  }

  /** `cols.SelectMany(col => rows.Select(row => (col, row)))`. */
  function CellProduct(cols: seq<int>, rows: seq<int>): (r: seq<Cell>)
    ensures forall c :: c in r <==> c.col in cols && c.row in rows
  {
    if cols == [] then [] else CellsOfColumn(cols[0], rows) + CellProduct(cols[1..], rows)
  }

  function Min(a: real, b: real): real { if a <= b then a else b }
  function Max(a: real, b: real): real { if a <= b then b else a }

  /** The lower-left corner of the box spanned by two corners. */
  function Lower(a: Point, b: Point): (r: Point)
    ensures r.x <= a.x && r.x <= b.x && r.y <= a.y && r.y <= b.y
    ensures (r.x == a.x || r.x == b.x) && (r.y == a.y || r.y == b.y)
  {
    Point(Min(a.x, b.x), Min(a.y, b.y))
  }

  /** The upper-right corner of the box spanned by two corners. */
  function Upper(a: Point, b: Point): (r: Point)
    ensures r.x >= a.x && r.x >= b.x && r.y >= a.y && r.y >= b.y
    ensures (r.x == a.x || r.x == b.x) && (r.y == a.y || r.y == b.y)
  {
    Point(Max(a.x, b.x), Max(a.y, b.y))
  }

  predicate InBox(p: Point, from: Point, to: Point)
  {
    from.x <= p.x <= to.x && from.y <= p.y <= to.y
  }

  /** The clamped cell of the box's lower-left corner. */
  function FromCoord(g: Layout, aabbFrom: Point, aabbTo: Point): Cell
  {
    ClampCell(g, GetPositionInGrid(g, Lower(aabbFrom, aabbTo)))
  }

  /** The clamped cell of the box's upper-right corner. */
  function ToCoord(g: Layout, aabbFrom: Point, aabbTo: Point): Cell
  {
    ClampCell(g, GetPositionInGrid(g, Upper(aabbFrom, aabbTo)))
  }

  /** The cells `Query` visits for the box spanned by `aabbFrom` and `aabbTo`: those
      of the grid between the two clamped corner cells, none when both are off the grid. */
  function QueryCells(g: Layout, aabbFrom: Point, aabbTo: Point): (r: seq<Cell>)
    ensures forall c :: c in r ==> IsInsideGrid(g, c)
    ensures forall c :: c in r <==>
              && (IsInsideGrid(g, FromCoord(g, aabbFrom, aabbTo)) || IsInsideGrid(g, ToCoord(g, aabbFrom, aabbTo)))
              && FromCoord(g, aabbFrom, aabbTo).col <= c.col <= ToCoord(g, aabbFrom, aabbTo).col
              && FromCoord(g, aabbFrom, aabbTo).row <= c.row <= ToCoord(g, aabbFrom, aabbTo).row
              && c.col < g.width && c.row < g.height
  {
    var fromCoord := FromCoord(g, aabbFrom, aabbTo);
    var toCoord := ToCoord(g, aabbFrom, aabbTo);
    if !IsInsideGrid(g, fromCoord) && !IsInsideGrid(g, toCoord) then []
    else
      var cols := CountWhile(fromCoord.col, g.width, toCoord.col);
      var rows := CountWhile(fromCoord.row, g.height, toCoord.row);
      CellProduct(cols, rows)
  }

  // ---------------------------------------------------------------------------
  // The grid object

  class SpatialGrid<E(==, !new)> {
    const layout: Layout

    /** Last known cell of each entity on the grid; entities off the grid have no entry. */
    var lastPositions: map<E, Cell>

    /** The buckets, indexed `[col, row]`. */
    var buckets: array2<set<E>>

    /** Each entity is in exactly the bucket `lastPositions` names, and in none if unmapped. */
    ghost predicate Valid()
      reads this, buckets
    {
      && buckets.Length0 == layout.width
      && buckets.Length1 == layout.height
      && (forall e :: e in lastPositions ==> IsInsideGrid(layout, lastPositions[e]))
      && (forall i, j :: 0 <= i < layout.width && 0 <= j < layout.height ==>
            buckets[i, j] == Bucket(lastPositions, Cell(i, j)))
    }

    /** The component's field initialisers: no entity is tracked and no bucket is allocated yet. */
    constructor (layout: Layout)
      ensures this.layout == layout && lastPositions == map[]
    {
      this.layout := layout;
      lastPositions := map[];
      buckets := new set<E>[0, 0];
    }

    /** Allocates a `width` x `height` array of empty buckets, then registers each of `ents`. */
    method Generate(ents: seq<E>, position: E -> Point)
      requires lastPositions == map[]
      modifies this
      ensures Valid() && fresh(buckets)
      ensures lastPositions == Tracked(layout, ents, position)
      ensures forall i, j :: 0 <= i < layout.width && 0 <= j < layout.height ==>
                buckets[i, j] == set e | e in ents && GetPositionInGrid(layout, position(e)) == Cell(i, j)
    {
      var b := new set<E>[layout.width, layout.height];
      for i := 0 to layout.width
        modifies b
        invariant forall i', j :: 0 <= i' < i && 0 <= j < layout.height ==> b[i', j] == {}
      {
        for j := 0 to layout.height
          modifies b
          invariant forall i', j' :: 0 <= i' < i && 0 <= j' < layout.height ==> b[i', j'] == {}
          invariant forall j' :: 0 <= j' < j ==> b[i, j'] == {}
        {
          b[i, j] := {};
        }
      }
      buckets := b;
      for k := 0 to |ents|
        invariant Valid() && buckets == b
        invariant lastPositions == Tracked(layout, ents[..k], position)
      {
        assert ents[..k + 1][..k] == ents[..k];
        UpdateEntity(ents[k], position(ents[k]));
      }
      assert ents[..|ents|] == ents;
      forall i, j | 0 <= i < layout.width && 0 <= j < layout.height
        ensures buckets[i, j] == set e | e in ents && GetPositionInGrid(layout, position(e)) == Cell(i, j)
      {
        TrackedBuckets(layout, ents, position, Cell(i, j));
      }
    }

    /** Moves `entity`, now at `pos`, to the bucket of its current cell, or drops it
        from the grid when that cell is outside. */
    method UpdateEntity(entity: E, pos: Point)
      requires Valid()
      modifies this, buckets
      ensures Valid() && buckets == old(buckets)
      ensures lastPositions == Moved(layout, old(lastPositions), entity, GetPositionInGrid(layout, pos))
      ensures forall i, j :: 0 <= i < layout.width && 0 <= j < layout.height ==>
                buckets[i, j] == if Cell(i, j) == GetPositionInGrid(layout, pos)
                                 then old(buckets[i, j]) + {entity}
                                 else old(buckets[i, j]) - {entity}
    {
      var lastPos := if entity in lastPositions then lastPositions[entity] else Outside;
      var currentPos := GetPositionInGrid(layout, pos);
      ghost var m := lastPositions;

      if lastPos == currentPos {
        MovedToSameCellIsNoOp(layout, m, entity, currentPos);
        forall i, j | 0 <= i < layout.width && 0 <= j < layout.height
          ensures buckets[i, j] == if Cell(i, j) == currentPos then buckets[i, j] + {entity}
                                   else buckets[i, j] - {entity}
        {
          BucketAfterMove(layout, m, entity, currentPos, Cell(i, j));
        }
        return;
      }

      if IsInsideGrid(layout, lastPos) {
        buckets[lastPos.col, lastPos.row] := buckets[lastPos.col, lastPos.row] - {entity};
      }

      if IsInsideGrid(layout, currentPos) {
        buckets[currentPos.col, currentPos.row] := buckets[currentPos.col, currentPos.row] + {entity};
        lastPositions := lastPositions[entity := currentPos];
      } else {
        lastPositions := lastPositions - {entity};
      }

      forall i, j | 0 <= i < layout.width && 0 <= j < layout.height
        ensures buckets[i, j] == Bucket(lastPositions, Cell(i, j))
      {
        BucketAfterMove(layout, m, entity, currentPos, Cell(i, j));
      }
    }

    /** The union of the buckets of `cells`. */
    function Gather(cells: seq<Cell>): (r: set<E>)
      requires Valid()
      requires forall c :: c in cells ==> IsInsideGrid(layout, c)
      reads this, buckets
      ensures forall e :: e in r <==> e in lastPositions && lastPositions[e] in cells
    {
      if cells == [] then {}
      else
        assert cells[0] in cells;
        assert IsInsideGrid(layout, cells[0]);
        assert buckets.Length0 == layout.width;
        buckets[cells[0].col, cells[0].row] + Gather(cells[1..])
    }

    /** The entities in the buckets of the cells the box spans whose position lies in
        the closed box and passes `filterByPosition`. */
    function Query(aabbFrom: Point, aabbTo: Point, position: E -> Point, filterByPosition: Point -> bool): (r: set<E>)
      requires Valid()
      reads this, buckets
      ensures forall e :: e in r ==>
                && e in lastPositions
                && InBox(position(e), Lower(aabbFrom, aabbTo), Upper(aabbFrom, aabbTo))
                && filterByPosition(position(e))
    {
      var from := Lower(aabbFrom, aabbTo);
      var to := Upper(aabbFrom, aabbTo);
      var cells := QueryCells(layout, aabbFrom, aabbTo);
      set e | e in Gather(cells) && InBox(position(e), from, to) && filterByPosition(position(e))
    }
  }

  // ---------------------------------------------------------------------------
  // Properties of the query

  /** The query does not depend on which two opposite corners name the box. */
  lemma QueryIsSymmetric<E(!new)>(grid: SpatialGrid<E>, a: Point, b: Point, position: E -> Point, filter: Point -> bool)
    requires grid.Valid()
    ensures grid.Query(a, b, position, filter) == grid.Query(b, a, position, filter)
  {
  }

  /** An entity whose recorded cell is its current cell is found by every query
      whose box holds it and whose filter accepts it. */
  lemma QueryFindsTrackedEntity<E(!new)>(grid: SpatialGrid<E>, a: Point, b: Point, position: E -> Point,
                                   filter: Point -> bool, e: E)
    requires grid.Valid()
    requires e in grid.lastPositions && grid.lastPositions[e] == GetPositionInGrid(grid.layout, position(e))
    requires InBox(position(e), Lower(a, b), Upper(a, b)) && filter(position(e))
    ensures e in grid.Query(a, b, position, filter)
  {
    var g := grid.layout;
    var p, from, to := position(e), Lower(a, b), Upper(a, b);
    var c := grid.lastPositions[e];
    var fromCell, toCell := GetPositionInGrid(g, from), GetPositionInGrid(g, to);
    FloorOfQuotientMonotone(from.x - g.x, p.x - g.x, g.cellWidth);
    FloorOfQuotientMonotone(p.x - g.x, to.x - g.x, g.cellWidth);
    FloorOfQuotientMonotone(from.y - g.y, p.y - g.y, g.cellHeight);
    FloorOfQuotientMonotone(p.y - g.y, to.y - g.y, g.cellHeight);
    assert fromCell.col <= c.col <= toCell.col && fromCell.row <= c.row <= toCell.row;
    assert IsInsideGrid(g, FromCoord(g, a, b));
    assert c in QueryCells(g, a, b);
  }

  /** A box that starts past the grid's last column or last row finds nothing. */
  lemma QueryPastTheGridIsEmpty<E(!new)>(grid: SpatialGrid<E>, a: Point, b: Point, position: E -> Point, filter: Point -> bool)
    requires grid.Valid()
    requires GetPositionInGrid(grid.layout, Lower(a, b)).col >= grid.layout.width
             || GetPositionInGrid(grid.layout, Lower(a, b)).row >= grid.layout.height
    ensures grid.Query(a, b, position, filter) == {}
  {
    var g := grid.layout;
    FloorOfQuotientMonotone(Lower(a, b).x - g.x, Upper(a, b).x - g.x, g.cellWidth);
    FloorOfQuotientMonotone(Lower(a, b).y - g.y, Upper(a, b).y - g.y, g.cellHeight);
  }
}
