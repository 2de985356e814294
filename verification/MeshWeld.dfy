/** The vertex welder of MeshAlgWeld.cpp: a spatial grid of 32 cells a side that
    finds the nearest new vertex without looking at all of them. */
module MeshWeld {

  const GRID_RES := 32

  datatype Vector3 = Vector3(x: real, y: real, z: real)

  function Square(a: real): real {
    a * a
  }

  function SquaredDistance(p: Vector3, q: Vector3): real {
    Square(p.x - q.x) + Square(p.y - q.y) + Square(p.z - q.z)
  }

  /** fuzzyEq(a, 0). */
  predicate FuzzyZero(a: real) {
    a == 0.0 || (if a < 0.0 then -a else a) <= 0.00001 * ((if a < 0.0 then -a else a) + 1.0)
  }

  /** Up to one part in 99999 away from zero, on either side. */
  lemma FuzzyZeroIff(a: real)
    ensures FuzzyZero(a) <==> -1.0 <= 99999.0 * a <= 1.0
  {
  }

  function Clamp(v: int, low: int, high: int): int
    requires low <= high
  {
    if v <= low then low else if v >= high then high else v
  }

  /** The grid index of one ordinate. */
  function Cell(v: real, offset: real, scale: real): (c: int)
    ensures 0 <= c < GRID_RES
  {
    Clamp(((v - offset) * scale * 32.0).Floor, 0, GRID_RES - 1)
  }

  /** Cell c is where x lies of 32 unit steps; what lies off them belongs to the first or the last. */
  predicate InCell(x: real, c: int) {
    if x < 0.0 then c == 0 else if x >= 32.0 then c == 31 else c as real <= x < c as real + 1.0
  }

  lemma ClampedFloor(x: real)
    ensures InCell(x, Clamp(x.Floor, 0, 31))
  {
  }

  /** A side of the grid is cut into 32 equal cells. */
  lemma CellHolds(v: real, offset: real, scale: real)
    ensures InCell((v - offset) * scale * 32.0, Cell(v, offset, scale))
  {
    hide InCell, Clamp;
    ClampedFloor((v - offset) * scale * 32.0);
  }

  function Magnitude(a: real): real {
    if a < 0.0 then -a else a
  }

  // ---- the geometry of one axis

  lemma CellMonotone(u: real, v: real, offset: real, scale: real)
    requires u <= v && scale > 0.0
    ensures Cell(u, offset, scale) <= Cell(v, offset, scale)
  {
    var a, b := (u - offset) * scale, (v - offset) * scale;
    assert b - a == (v - u) * scale;
    assert (v - u) * scale >= 0.0;
    assert a * 32.0 <= b * 32.0;
  }

  /** Moving by less than a cell moves the index by at most one. */
  lemma CellStep(u: real, d: real, offset: real, scale: real)
    requires 0.0 <= d && scale > 0.0 && d * scale * 32.0 <= 1.0
    ensures Cell(u + d, offset, scale) <= Cell(u, offset, scale) + 1
  {
    var a, b := (u - offset) * scale, (u + d - offset) * scale;
    assert b - a == d * scale;
    assert b * 32.0 <= a * 32.0 + 1.0;
  }

  lemma ProductPositive(x: real, y: real)
    requires x > 0.0 && y > 0.0
    ensures x * y > 0.0
  {
  }

  lemma SquareOrder(a: real, r: real)
    requires Square(a) <= Square(r)
    ensures Magnitude(a) <= Magnitude(r)
  {
    var m, n := Magnitude(a), Magnitude(r);
    assert (m - n) * (m + n) == m * m - n * n;
    if m > n {
      ProductPositive(m - n, m + n);
    }
  }

  /** Between p and p + m there are at most two cells, those of p and of p + m. */
  lemma TwoCells(p: real, q: real, m: real, offset: real, scale: real)
    requires scale > 0.0 && 0.0 <= m && m * scale * 32.0 <= 1.0 && p <= q <= p + m
    ensures Cell(q, offset, scale) == Cell(p, offset, scale) || Cell(q, offset, scale) == Cell(p + m, offset, scale)
  {
    CellMonotone(p, q, offset, scale);
    CellMonotone(q, p + m, offset, scale);
    CellStep(p, m, offset, scale);
  }

  /** The ordinates at which a vertex is registered along one axis: d is -1, 0 or 1. */
  function Shifted(p: real, d: int, radius: real): real {
    p + d as real * radius
  }

  lemma ShiftedValues(p: real, radius: real)
    ensures Shifted(p, -1, radius) == p - radius && Shifted(p, 0, radius) == p && Shifted(p, 1, radius) == p + radius
  {
  }

  /** A query within radius of a stored ordinate falls in the cell of one of its three shifts. */
  lemma NearCell(p: real, q: real, radius: real, offset: real, scale: real) returns (d: int)
    requires scale > 0.0 && Magnitude(radius) * scale * 32.0 <= 1.0
    requires Square(p - q) <= Square(radius)
    ensures -1 <= d <= 1 && Cell(Shifted(p, d, radius), offset, scale) == Cell(q, offset, scale)
  {
    var m := Magnitude(radius);
    SquareOrder(p - q, radius);
    ShiftedValues(p, radius);
    if p <= q {
      TwoCells(p, q, m, offset, scale);
      d := if Cell(q, offset, scale) == Cell(p, offset, scale) then 0 else if radius >= 0.0 then 1 else -1;
    } else {
      TwoCells(p - m, q, m, offset, scale);
      d := if Cell(q, offset, scale) == Cell(p, offset, scale) then 0 else if radius >= 0.0 then -1 else 1;
    }
  }

  /** One axis of a squared distance is no more than the whole. */
  lemma SquareNonNegative(a: real)
    ensures Square(a) >= 0.0
  {
  }

  lemma AxesWithin(p: Vector3, q: Vector3, radius: real)
    requires SquaredDistance(p, q) <= radius * radius
    ensures Square(p.x - q.x) <= Square(radius) && Square(p.y - q.y) <= Square(radius) && Square(p.z - q.z) <= Square(radius)
  {
    SquareNonNegative(p.x - q.x);
    SquareNonNegative(p.y - q.y);
    SquareNonNegative(p.z - q.z);
  }

  // ---- what the index has to agree with: a scan of all vertices

  predicate Near(p: Vector3, q: Vector3, radius: real) {
    SquaredDistance(p, q) <= radius * radius
  }

  /** i is the first of the vertices closest to q. */
  ghost predicate IsClosest(vertices: seq<Vector3>, q: Vector3, i: int) {
    && 0 <= i < |vertices|
    && forall j :: 0 <= j < |vertices| ==>
      if j < i then SquaredDistance(vertices[i], q) < SquaredDistance(vertices[j], q)
      else SquaredDistance(vertices[i], q) <= SquaredDistance(vertices[j], q)
  }

  ghost predicate SomeNear(vertices: seq<Vector3>, q: Vector3, radius: real) {
    exists i :: 0 <= i < |vertices| && Near(vertices[i], q, radius)
  }

  // ---- lists of vertex indices

  ghost predicate Increasing(list: seq<int>) {
    forall i, j :: 0 <= i < j < |list| ==> list[i] < list[j]
  }

  /** The list names existing vertices in order, among them all that are near q. */
  ghost predicate Covers(list: seq<int>, vertices: seq<Vector3>, q: Vector3, radius: real) {
    && Increasing(list)
    && (forall i :: i in list ==> 0 <= i < |vertices|)
    && forall i :: 0 <= i < |vertices| && Near(vertices[i], q, radius) ==> i in list
  }

  /** k is the position of the first vertex in the list that is closest to q among those listed. */
  ghost predicate FirstInList(list: seq<int>, n: int, vertices: seq<Vector3>, q: Vector3, k: int) {
    && 0 <= k < n <= |list|
    && forall j :: 0 <= j < n && 0 <= list[j] < |vertices| && 0 <= list[k] < |vertices| ==>
      if j < k then SquaredDistance(vertices[list[k]], q) < SquaredDistance(vertices[list[j]], q)
      else SquaredDistance(vertices[list[k]], q) <= SquaredDistance(vertices[list[j]], q)
  }

  /** Scanning a covering list finds what scanning all vertices would, ties included. */
  lemma ListScanIsFullScan(list: seq<int>, vertices: seq<Vector3>, q: Vector3, radius: real, k: int)
    requires Covers(list, vertices, q, radius) && FirstInList(list, |list|, vertices, q, k)
    ensures list[k] in list && 0 <= list[k] < |vertices|
    ensures Near(vertices[list[k]], q, radius) ==> IsClosest(vertices, q, list[k])
    ensures !Near(vertices[list[k]], q, radius) ==> !SomeNear(vertices, q, radius)
  {
    assert list[k] in list;
    forall j | 0 <= j < |vertices| && Near(vertices[j], q, radius)
      ensures if j < list[k] then SquaredDistance(vertices[list[k]], q) < SquaredDistance(vertices[j], q)
              else SquaredDistance(vertices[list[k]], q) <= SquaredDistance(vertices[j], q)
    {
      assert j in list;
      var m :| 0 <= m < |list| && list[m] == j;
    }
  }

  // ---- the grid

  type Cell3 = (int, int, int)

  /** How positions become cells: subtracting the offset and scaling puts all old ones between 0 and 1. */
  datatype Frame = Frame(offset: Vector3, scale: Vector3, radius: real) {
    /** No cell is narrower than the radius. */
    predicate Valid() {
      && scale.x > 0.0 && scale.y > 0.0 && scale.z > 0.0
      && Magnitude(radius) * scale.x * 32.0 <= 1.0
      && Magnitude(radius) * scale.y * 32.0 <= 1.0
      && Magnitude(radius) * scale.z * 32.0 <= 1.0
    }

    function ToGridCoords(v: Vector3): (c: Cell3)
      ensures 0 <= c.0 < GRID_RES && 0 <= c.1 < GRID_RES && 0 <= c.2 < GRID_RES
    {
      (Cell(v.x, offset.x, scale.x), Cell(v.y, offset.y, scale.y), Cell(v.z, offset.z, scale.z))
    }

    /** The cell in which a vertex is registered for one of the 27 offsets. */
    function NeighborCell(v: Vector3, dx: int, dy: int, dz: int): (c: Cell3)
      ensures 0 <= c.0 < GRID_RES && 0 <= c.1 < GRID_RES && 0 <= c.2 < GRID_RES
    {
      ToGridCoords(Vector3(Shifted(v.x, dx, radius), Shifted(v.y, dy, radius), Shifted(v.z, dz, radius)))
    }

    ghost predicate IsNeighbor(v: Vector3, c: Cell3) {
      exists dx, dy, dz :: -1 <= dx <= 1 && -1 <= dy <= 1 && -1 <= dz <= 1 && NeighborCell(v, dx, dy, dz) == c
    }

    /** A vertex near the query is registered in the query's cell. */
    lemma NearIsNeighbor(v: Vector3, q: Vector3)
      requires Valid() && Near(v, q, radius)
      ensures IsNeighbor(v, ToGridCoords(q))
    {
      AxesWithin(v, q, radius);
      var dx := NearCell(v.x, q.x, radius, offset.x, scale.x);
      var dy := NearCell(v.y, q.y, radius, offset.y, scale.y);
      var dz := NearCell(v.z, q.z, radius, offset.z, scale.z);
      assert NeighborCell(v, dx, dy, dz) == ToGridCoords(q);
    }
  }

  // ---- bounds

  predicate OnUnit(v: real, offset: real, scale: real) {
    0.0 <= (v - offset) * scale <= 1.0
  }

  /** The factor that brings the extent of one axis to one, or leaves it where there is none. */
  function AxisScale(low: real, high: real): (s: real)
    requires low <= high
    ensures s > 0.0
    ensures forall v :: low <= v <= high ==> OnUnit(v, low, s)
  {
    var extent := high - low;
    if FuzzyZero(extent) then 1.0
    else
      var s := 1.0 / extent;
      ScaleIntoUnit(low, high, s);
      s
  }

  lemma ScaleIntoUnit(low: real, high: real, s: real)
    requires low < high && s == 1.0 / (high - low)
    ensures s > 0.0 && forall v :: low <= v <= high ==> OnUnit(v, low, s)
  {
    var e := high - low;
    assert s * e == 1.0;
    forall v | low <= v <= high ensures OnUnit(v, low, s) {
      assert (v - low) * s <= e * s;
    }
  }

  function Min(a: real, b: real): real {
    if a <= b then a else b
  }

  function Max(a: real, b: real): real {
    if a >= b then a else b
  }

  predicate Below(a: Vector3, b: Vector3) {
    a.x <= b.x && a.y <= b.y && a.z <= b.z
  }

  predicate Within(v: Vector3, low: Vector3, high: Vector3) {
    Below(low, v) && Below(v, high)
  }

  /** low and high bound the vertices tightly; both are zero where there is none. */
  ghost predicate AreBounds(vertices: seq<Vector3>, low: Vector3, high: Vector3) {
    && Below(low, high)
    && (vertices == [] ==> low == high == Vector3(0.0, 0.0, 0.0))
    && (forall i :: 0 <= i < |vertices| ==> Within(vertices[i], low, high))
    && (vertices != [] ==>
      && (exists i, j :: 0 <= i < |vertices| && 0 <= j < |vertices| && vertices[i].x == low.x && vertices[j].x == high.x)
      && (exists i, j :: 0 <= i < |vertices| && 0 <= j < |vertices| && vertices[i].y == low.y && vertices[j].y == high.y)
      && (exists i, j :: 0 <= i < |vertices| && 0 <= j < |vertices| && vertices[i].z == low.z && vertices[j].z == high.z))
  }

  function FrameOf(low: Vector3, high: Vector3, radius: real): Frame
    requires Below(low, high)
  {
    Frame(low, Vector3(AxisScale(low.x, high.x), AxisScale(low.y, high.y), AxisScale(low.z, high.z)), radius)
  }

  /** The radius is less than one cell of the grid over these vertices: required by the source, not checked. */
  ghost predicate RadiusFits(vertices: seq<Vector3>, radius: real) {
    forall low, high :: AreBounds(vertices, low, high) ==> FrameOf(low, high, radius).Valid()
  }

  lemma FirstBounds(vertices: seq<Vector3>)
    ensures if vertices == [] then AreBounds([], Vector3(0.0, 0.0, 0.0), Vector3(0.0, 0.0, 0.0))
            else AreBounds(vertices[..1], vertices[0], vertices[0])
  {
    if vertices != [] {
      assert vertices[..1][0] == vertices[0];
    }
  }

  lemma BoundsGrow(vertices: seq<Vector3>, v: Vector3, low: Vector3, high: Vector3)
    requires vertices != [] && AreBounds(vertices, low, high)
    ensures AreBounds(vertices + [v], Vector3(Min(low.x, v.x), Min(low.y, v.y), Min(low.z, v.z)),
              Vector3(Max(high.x, v.x), Max(high.y, v.y), Max(high.z, v.z)))
  {
    var low', high' := Vector3(Min(low.x, v.x), Min(low.y, v.y), Min(low.z, v.z)),
      Vector3(Max(high.x, v.x), Max(high.y, v.y), Max(high.z, v.z));
    var more, n := vertices + [v], |vertices|;
    forall i | 0 <= i < |more| ensures Within(more[i], low', high') {
      assert i < n ==> Within(vertices[i], low, high);
    }
    var a, b :| 0 <= a < n && 0 <= b < n && vertices[a].x == low.x && vertices[b].x == high.x;
    assert more[if low'.x == low.x then a else n].x == low'.x && more[if high'.x == high.x then b else n].x == high'.x;
    var c, d :| 0 <= c < n && 0 <= d < n && vertices[c].y == low.y && vertices[d].y == high.y;
    assert more[if low'.y == low.y then c else n].y == low'.y && more[if high'.y == high.y then d else n].y == high'.y;
    var e, f :| 0 <= e < n && 0 <= f < n && vertices[e].z == low.z && vertices[f].z == high.z;
    assert more[if low'.z == low.z then e else n].z == low'.z && more[if high'.z == high.z then f else n].z == high'.z;
  }

  class Welder {
    const oldVertexArray: seq<Vector3>
    var newVertexArray: seq<Vector3>
    var toNew: seq<int>
    var toOld: seq<int>
    const frame: Frame
    const grid: array3<seq<int>>

    ghost predicate Shape() {
      grid.Length0 == GRID_RES && grid.Length1 == GRID_RES && grid.Length2 == GRID_RES
    }

    ghost predicate CellOk(c: Cell3)
      requires Shape() && 0 <= c.0 < GRID_RES && 0 <= c.1 < GRID_RES && 0 <= c.2 < GRID_RES
      reads this`newVertexArray, grid
    {
      ListOk(grid[c.0, c.1, c.2], newVertexArray, frame, c)
    }

    /** Every new vertex is listed, in order, in each cell it is registered in. */
    ghost predicate Valid()
      reads this`newVertexArray, grid
    {
      && Shape() && frame.Valid()
      && forall x, y, z :: 0 <= x < GRID_RES && 0 <= y < GRID_RES && 0 <= z < GRID_RES ==> CellOk((x, y, z))
    }

    constructor (vertices: seq<Vector3>, radius: real)
      ensures oldVertexArray == vertices && newVertexArray == [] && frame.radius == radius
      ensures Shape() && fresh(grid) && (RadiusFits(vertices, radius) ==> Valid())
      ensures forall i :: 0 <= i < |vertices| ==>
        && OnUnit(vertices[i].x, frame.offset.x, frame.scale.x)
        && OnUnit(vertices[i].y, frame.offset.y, frame.scale.y)
        && OnUnit(vertices[i].z, frame.offset.z, frame.scale.z)
    {
      var minBound, maxBound := Bounds(vertices);
      oldVertexArray, newVertexArray, toNew, toOld := vertices, [], [], [];
      frame := FrameOf(minBound, maxBound, radius);
      grid := new seq<int>[GRID_RES, GRID_RES, GRID_RES]((x, y, z) => []);
      new;
      assert forall i :: 0 <= i < |vertices| ==> Within(vertices[i], minBound, maxBound);
    }

    static method Bounds(vertices: seq<Vector3>) returns (minBound: Vector3, maxBound: Vector3)
      ensures AreBounds(vertices, minBound, maxBound)
    {
      hide Min, Max, AreBounds;
      FirstBounds(vertices);
      if vertices == [] {
        return Vector3(0.0, 0.0, 0.0), Vector3(0.0, 0.0, 0.0);
      }
      minBound, maxBound := vertices[0], vertices[0];
      for i := 1 to |vertices|
        invariant AreBounds(vertices[..i], minBound, maxBound)
      {
        var v := vertices[i];
        ghost var low, high := minBound, maxBound;
        minBound := Vector3(Min(minBound.x, v.x), Min(minBound.y, v.y), Min(minBound.z, v.z));
        maxBound := Vector3(Max(maxBound.x, v.x), Max(maxBound.y, v.y), Max(maxBound.z, v.z));
        BoundsGrow(vertices[..i], v, low, high);
        assert vertices[..i + 1] == vertices[..i] + [v];
      }
      assert vertices[..|vertices|] == vertices;
    }

    /** The closest vertex in the query's cell, if there is any. */
    method ScanCell(vertex: Vector3, list: seq<int>) returns (closestIndex: int, k: int)
      requires forall i :: i in list ==> 0 <= i < |newVertexArray|
      ensures list == [] ==> closestIndex == -1
      ensures list != [] ==> FirstInList(list, |list|, newVertexArray, vertex, k) && closestIndex == list[k]
    {
      closestIndex, k := -1, -1;
      var distanceSquared := 0.0;
      for i := 0 to |list|
        invariant i == 0 ==> closestIndex == -1
        invariant i > 0 ==> FirstInList(list, i, newVertexArray, vertex, k) && closestIndex == list[k]
        invariant i > 0 ==> list[k] in list && distanceSquared == SquaredDistance(newVertexArray[closestIndex], vertex)
      {
        assert list[i] in list;
        var d := SquaredDistance(newVertexArray[list[i]], vertex);
        if closestIndex == -1 || d < distanceSquared {
          distanceSquared := d;
          closestIndex, k := list[i], i;
        }
      }
    }

    /** The cells in which a new vertex has to be registered. */
    method Neighbors(vertex: Vector3) returns (neighbors: set<Cell3>)
      ensures forall c :: c in neighbors <==> frame.IsNeighbor(vertex, c)
      ensures forall c :: c in neighbors ==> 0 <= c.0 < GRID_RES && 0 <= c.1 < GRID_RES && 0 <= c.2 < GRID_RES
    {
      neighbors := {};
      for dx := -1 to 2
        invariant forall c :: c in neighbors <==> NeighborUpTo(frame, vertex, c, dx, -1, -1)
      {
        for dy := -1 to 2
          invariant forall c :: c in neighbors <==> NeighborUpTo(frame, vertex, c, dx, dy, -1)
        {
          for dz := -1 to 2
            invariant forall c :: c in neighbors <==> NeighborUpTo(frame, vertex, c, dx, dy, dz)
          {
            neighbors := neighbors + {frame.NeighborCell(vertex, dx, dy, dz)};
          }
        }
      }
    }

    /** Stores a new index in every cell its vertex is registered in, whatever their order. */
    method Register(vertex: Vector3, newIndex: int)
      requires Shape()
      modifies grid
      ensures forall x, y, z :: 0 <= x < GRID_RES && 0 <= y < GRID_RES && 0 <= z < GRID_RES ==>
        grid[x, y, z] == old(grid[x, y, z]) + (if frame.IsNeighbor(vertex, (x, y, z)) then [newIndex] else [])
    {
      var neighbors := Neighbors(vertex);
      var waiting := neighbors;
      while waiting != {}
        invariant waiting <= neighbors
        invariant forall x, y, z :: 0 <= x < GRID_RES && 0 <= y < GRID_RES && 0 <= z < GRID_RES ==>
          grid[x, y, z] == old(grid[x, y, z])
            + (if (x, y, z) in neighbors && (x, y, z) !in waiting then [newIndex] else [])
        decreases |waiting|
      {
        var c := Choose(waiting);
        grid[c.0, c.1, c.2] := grid[c.0, c.1, c.2] + [newIndex];
        waiting := waiting - {c};
      }
    }

    /** Searching a covering list decides whether there is a near vertex, and finds the closest. */
    method SearchList(vertex: Vector3, list: seq<int>) returns (found: bool, index: int)
      requires Covers(list, newVertexArray, vertex, frame.radius)
      ensures found <==> SomeNear(newVertexArray, vertex, frame.radius)
      ensures found ==> IsClosest(newVertexArray, vertex, index) && Near(newVertexArray[index], vertex, frame.radius)
    {
      var k;
      index, k := ScanCell(vertex, list);
      if list == [] {
        return false, index;
      }
      ListScanIsFullScan(list, newVertexArray, vertex, frame.radius, k);
      found := SquaredDistance(newVertexArray[index], vertex) <= frame.radius * frame.radius;
    }

    /** The search of getIndex: the cell of the query stands for all vertices. */
    method FindNear(vertex: Vector3) returns (found: bool, index: int)
      requires Valid()
      ensures found <==> SomeNear(newVertexArray, vertex, frame.radius)
      ensures found ==> IsClosest(newVertexArray, vertex, index) && Near(newVertexArray[index], vertex, frame.radius)
    {
      var c := frame.ToGridCoords(vertex);
      assert CellOk((c.0, c.1, c.2));
      CellListCovers(grid[c.0, c.1, c.2], newVertexArray, frame, vertex);
      found, index := SearchList(vertex, grid[c.0, c.1, c.2]);
    }

    /** Appends a new vertex and registers it. */
    method AddVertex(vertex: Vector3)
      requires Valid()
      modifies this`newVertexArray, grid
      ensures Valid() && newVertexArray == old(newVertexArray) + [vertex]
    {
      ghost var vertices := newVertexArray;
      Register(vertex, |newVertexArray|);
      newVertexArray := newVertexArray + [vertex];
      forall x, y, z | 0 <= x < GRID_RES && 0 <= y < GRID_RES && 0 <= z < GRID_RES ensures CellOk((x, y, z)) {
        assert old(CellOk((x, y, z)));
        ListGrows(old(grid[x, y, z]), vertices, frame, (x, y, z), vertex);
      }
    }

    /** Finds the new vertex that stands for a position; a position with none nearby becomes one itself. */
    method GetIndex(vertex: Vector3) returns (index: int)
      requires Valid()
      modifies this`newVertexArray, grid
      ensures Valid()
      ensures SomeNear(old(newVertexArray), vertex, frame.radius) ==>
        && newVertexArray == old(newVertexArray)
        && IsClosest(newVertexArray, vertex, index) && Near(newVertexArray[index], vertex, frame.radius)
      ensures !SomeNear(old(newVertexArray), vertex, frame.radius) ==>
        newVertexArray == old(newVertexArray) + [vertex] && index == |old(newVertexArray)|
    {
      var found;
      found, index := FindNear(vertex);
      if !found {
        index := |newVertexArray|;
        AddVertex(vertex);
      }
    }

    /** First pass: primes the vertex positions. */
    method Prime() returns (ghost source: seq<int>)
      requires Valid() && newVertexArray == []
      modifies this`newVertexArray, grid
      ensures Valid() && IsNet(newVertexArray, frame.radius)
      ensures forall i :: 0 <= i < |oldVertexArray| ==> SomeNear(newVertexArray, oldVertexArray[i], frame.radius)
      ensures |source| == |newVertexArray| && forall n :: 0 <= n < |newVertexArray| ==>
        0 <= source[n] < |oldVertexArray| && newVertexArray[n] == oldVertexArray[source[n]]
    {
      source := [];
      for i := 0 to |oldVertexArray|
        invariant Valid() && IsNet(newVertexArray, frame.radius)
        invariant forall k :: 0 <= k < i ==> SomeNear(newVertexArray, oldVertexArray[k], frame.radius)
        invariant |source| == |newVertexArray| && forall n :: 0 <= n < |newVertexArray| ==>
          0 <= source[n] < |oldVertexArray| && newVertexArray[n] == oldVertexArray[source[n]]
      {
        ghost var before := newVertexArray;
        var index := GetIndex(oldVertexArray[i]);
        if newVertexArray != before {
          source := source + [i];
          SelfNear(oldVertexArray[i], frame.radius);
        }
        forall k | 0 <= k <= i ensures SomeNear(newVertexArray, oldVertexArray[k], frame.radius) {
          if k < i {
            NearStays(before, newVertexArray, oldVertexArray[k], frame.radius);
          } else {
            assert Near(newVertexArray[index], oldVertexArray[i], frame.radius);
          }
        }
      }
    }

    /** The official remapping: every vertex to the closest new one, every new one to the last old one mapped to it. */
    method Weld()
      requires Valid() && newVertexArray == []
      modifies this, grid
      ensures Valid() && IsWelded(oldVertexArray, frame.radius, newVertexArray, toNew, toOld)
    {
      ghost var source := Prime();
      Remap();
      assert toNew[..|toNew|] == toNew;
      forall n | 0 <= n < |toOld| ensures n in toNew {
        ExactIsClosest(newVertexArray, n, frame.radius, toNew[source[n]]);
        assert toNew[source[n]] == n;
      }
    }

    /** Second pass: it adds no vertex. */
    method Remap()
      requires Valid()
      requires forall i :: 0 <= i < |oldVertexArray| ==> SomeNear(newVertexArray, oldVertexArray[i], frame.radius)
      modifies this, grid
      ensures Valid() && newVertexArray == old(newVertexArray)
      ensures |toNew| == |oldVertexArray| && |toOld| == |newVertexArray|
      ensures forall i :: 0 <= i < |toNew| ==>
        IsClosest(newVertexArray, oldVertexArray[i], toNew[i]) && Near(newVertexArray[toNew[i]], oldVertexArray[i], frame.radius)
      ensures forall n :: 0 <= n < |toOld| && n in toNew ==> IsLastMapped(toNew, n, toOld[n])
    {
      hide SquaredDistance, IsLastMapped, Increasing, ListOk;
      toNew := seq(|oldVertexArray|, _ => 0);
      toOld := seq(|newVertexArray|, _ => 0);
      for oi := 0 to |oldVertexArray|
        invariant Valid() && newVertexArray == old(newVertexArray)
        invariant |toNew| == |oldVertexArray| && |toOld| == |newVertexArray|
        invariant forall i :: 0 <= i < oi ==>
          IsClosest(newVertexArray, oldVertexArray[i], toNew[i]) && Near(newVertexArray[toNew[i]], oldVertexArray[i], frame.radius)
        invariant forall n :: 0 <= n < |toOld| && n in toNew[..oi] ==> IsLastMapped(toNew[..oi], n, toOld[n])
      {
        var index := GetIndex(oldVertexArray[oi]);
        ghost var before := toNew;
        toNew := toNew[oi := index];
        toOld := toOld[toNew[oi] := oi];
        assert toNew[..oi] == before[..oi];
        LastMappedGrows(toNew, oi);
      }
      assert toNew[..|toNew|] == toNew;
    }
  }

  /** No two vertices are near each other. */
  ghost predicate IsNet(vertices: seq<Vector3>, radius: real) {
    forall i, j :: 0 <= i < j < |vertices| ==> !Near(vertices[i], vertices[j], radius)
  }

  /** What welding promises: a net of old positions, every old vertex mapped to the closest
      new one, which is near, and every new one to the last old one mapped to it. */
  ghost predicate IsWelded(
    vertices: seq<Vector3>, radius: real, newVertices: seq<Vector3>, toNew: seq<int>, toOld: seq<int>) {
    && IsNet(newVertices, radius)
    && (forall n :: 0 <= n < |newVertices| ==> newVertices[n] in vertices)
    && |toNew| == |vertices| && |toOld| == |newVertices|
    && (forall i :: 0 <= i < |toNew| ==>
          IsClosest(newVertices, vertices[i], toNew[i]) && Near(newVertices[toNew[i]], vertices[i], radius))
    && forall n :: 0 <= n < |toOld| ==> IsLastMapped(toNew, n, toOld[n])
  }

  /** i is the last old vertex mapped to n. */
  ghost predicate IsLastMapped(toNew: seq<int>, n: int, i: int) {
    0 <= i < |toNew| && toNew[i] == n && forall k :: i < k < |toNew| ==> toNew[k] != n
  }

  lemma LastMappedGrows(toNew: seq<int>, oi: nat)
    requires oi < |toNew|
    ensures IsLastMapped(toNew[..oi + 1], toNew[oi], oi)
    ensures forall n, i :: IsLastMapped(toNew[..oi], n, i) && n != toNew[oi] ==> IsLastMapped(toNew[..oi + 1], n, i)
    ensures forall n :: n in toNew[..oi + 1] && n != toNew[oi] ==> n in toNew[..oi]
  {
    assert toNew[..oi + 1] == toNew[..oi] + [toNew[oi]];
  }

  lemma SelfNear(v: Vector3, radius: real)
    ensures SquaredDistance(v, v) == 0.0 && Near(v, v, radius)
  {
    SquareNonNegative(radius);
  }

  lemma NearStays(before: seq<Vector3>, after: seq<Vector3>, q: Vector3, radius: real)
    requires before <= after && SomeNear(before, q, radius)
    ensures SomeNear(after, q, radius)
  {
    var i :| 0 <= i < |before| && Near(before[i], q, radius);
    assert Near(after[i], q, radius);
  }

  /** In a net the vertex closest to one of its own positions is that vertex. */
  lemma ExactIsClosest(vertices: seq<Vector3>, n: int, radius: real, m: int)
    requires IsNet(vertices, radius)
    requires 0 <= n < |vertices| && IsClosest(vertices, vertices[n], m)
    ensures m == n
  {
    SelfNear(vertices[n], radius);
    DistanceSymmetric(vertices[m], vertices[n]);
    SquareNonNegative(radius);
  }

  lemma DistanceSymmetric(p: Vector3, q: Vector3)
    ensures SquaredDistance(p, q) == SquaredDistance(q, p)
  {
    SquareOfNegative(p.x - q.x);
    SquareOfNegative(p.y - q.y);
    SquareOfNegative(p.z - q.z);
  }

  lemma SquareOfNegative(a: real)
    ensures Square(-a) == Square(a)
  {
  }

  method Choose<T>(s: set<T>) returns (x: T)
    requires s != {}
    ensures x in s
  {
    x :| x in s;
  }

  lemma ListGrows(list: seq<int>, vertices: seq<Vector3>, frame: Frame, c: Cell3, vertex: Vector3)
    requires ListOk(list, vertices, frame, c)
    ensures ListOk(list + (if frame.IsNeighbor(vertex, c) then [|vertices|] else []), vertices + [vertex], frame, c)
  {
    var list' := list + (if frame.IsNeighbor(vertex, c) then [|vertices|] else []);
    forall i | i in list' ensures 0 <= i < |vertices| + 1 {
      assert i in list || i == |vertices|;
    }
    forall i | 0 <= i < |list| ensures list[i] < |vertices| {
      assert list[i] in list;
    }
  }

  /** c is the cell of one of the offsets before (dx, dy, dz). */
  ghost predicate NeighborUpTo(frame: Frame, v: Vector3, c: Cell3, dx: int, dy: int, dz: int) {
    exists x, y, z :: -1 <= x <= 1 && -1 <= y <= 1 && -1 <= z <= 1 && frame.NeighborCell(v, x, y, z) == c
      && (x < dx || (x == dx && (y < dy || (y == dy && z < dz))))
  }

  ghost predicate ListOk(list: seq<int>, vertices: seq<Vector3>, frame: Frame, c: Cell3) {
    && Increasing(list)
    && (forall i :: i in list ==> 0 <= i < |vertices|)
    && forall i :: 0 <= i < |vertices| && frame.IsNeighbor(vertices[i], c) ==> i in list
  }

  lemma CellListCovers(list: seq<int>, vertices: seq<Vector3>, frame: Frame, q: Vector3)
    requires frame.Valid() && ListOk(list, vertices, frame, frame.ToGridCoords(q))
    ensures Covers(list, vertices, q, frame.radius)
  {
    forall i | 0 <= i < |vertices| && Near(vertices[i], q, frame.radius) ensures i in list {
      frame.NearIsNeighbor(vertices[i], q);
    }
  }

  // ---- what callers can rely on

  lemma AxisTriangle(a: real, b: real, c: real)
    ensures Square(a - c) <= 2.0 * Square(a - b) + 2.0 * Square(b - c)
  {
    var d, e := a - b, b - c;
    assert a - c == d + e;
    assert (d + e) * (d + e) + (d - e) * (d - e) == 2.0 * (d * d) + 2.0 * (e * e);
    SquareNonNegative(d - e);
  }

  /** Two points near a common one are within twice the radius of each other. */
  lemma NearCommon(p: Vector3, m: Vector3, q: Vector3, radius: real)
    requires Near(m, p, radius) && Near(m, q, radius)
    ensures SquaredDistance(p, q) <= 4.0 * (radius * radius)
  {
    AxisTriangle(p.x, m.x, q.x);
    AxisTriangle(p.y, m.y, q.y);
    AxisTriangle(p.z, m.z, q.z);
    DistanceSymmetric(m, p);
  }

  function Canonical(toNew: seq<int>, toOld: seq<int>, v: int): int
    requires 0 <= v < |toNew| && 0 <= toNew[v] < |toOld|
  {
    toOld[toNew[v]]
  }

  /** Round-tripping through both maps chooses one representative per new vertex, never far away. */
  lemma CanonicalIsRepresentative(
    vertices: seq<Vector3>, radius: real, newVertices: seq<Vector3>, toNew: seq<int>, toOld: seq<int>, v: int)
    requires IsWelded(vertices, radius, newVertices, toNew, toOld) && 0 <= v < |vertices|
    ensures 0 <= toNew[v] < |toOld| && 0 <= Canonical(toNew, toOld, v) < |vertices|
    ensures toNew[Canonical(toNew, toOld, v)] == toNew[v]
    ensures Canonical(toNew, toOld, Canonical(toNew, toOld, v)) == Canonical(toNew, toOld, v)
    ensures SquaredDistance(vertices[v], vertices[Canonical(toNew, toOld, v)]) <= 4.0 * (radius * radius)
  {
    var n := toNew[v];
    assert IsClosest(newVertices, vertices[v], n);
    var c := toOld[n];
    assert IsLastMapped(toNew, n, c);
    NearCommon(vertices[v], newVertices[n], vertices[c], radius);
  }

  /** Vertices share a representative exactly when they share a new vertex; colocated ones always do. */
  lemma SameCanonical(
    vertices: seq<Vector3>, radius: real, newVertices: seq<Vector3>, toNew: seq<int>, toOld: seq<int>, u: int, v: int)
    requires IsWelded(vertices, radius, newVertices, toNew, toOld) && 0 <= u < |vertices| && 0 <= v < |vertices|
    ensures 0 <= toNew[u] < |toOld| && 0 <= toNew[v] < |toOld|
    ensures Canonical(toNew, toOld, u) == Canonical(toNew, toOld, v) <==> toNew[u] == toNew[v]
    ensures vertices[u] == vertices[v] ==> toNew[u] == toNew[v]
    ensures toNew[u] == toNew[v] ==> SquaredDistance(vertices[u], vertices[v]) <= 4.0 * (radius * radius)
  {
    CanonicalIsRepresentative(vertices, radius, newVertices, toNew, toOld, u);
    CanonicalIsRepresentative(vertices, radius, newVertices, toNew, toOld, v);
    assert IsClosest(newVertices, vertices[u], toNew[u]) && IsClosest(newVertices, vertices[v], toNew[v]);
    if toNew[u] == toNew[v] {
      NearCommon(vertices[u], newVertices[toNew[u]], vertices[v], radius);
    }
  }

  /** The two equations of the documentation: both maps would be exact. */
  ghost predicate DocumentedMaps(
    vertices: seq<Vector3>, newVertices: seq<Vector3>, toNew: seq<int>, toOld: seq<int>) {
    && (forall n :: 0 <= n < |toOld| && n < |newVertices| && 0 <= toOld[n] < |vertices| ==>
          vertices[toOld[n]] == newVertices[n])
    && forall i :: 0 <= i < |toNew| && i < |vertices| && 0 <= toNew[i] < |newVertices| ==>
          vertices[i] == newVertices[toNew[i]]
  }

  /** No two different old positions are near each other. */
  ghost predicate NearOnlyIfEqual(vertices: seq<Vector3>, radius: real) {
    forall i, j :: 0 <= i < |vertices| && 0 <= j < |vertices| && Near(vertices[i], vertices[j], radius) ==>
      vertices[i] == vertices[j]
  }

  /** The documented equations hold exactly when there is nothing to weld but identical positions. */
  lemma DocumentedMapsIff(
    vertices: seq<Vector3>, radius: real, newVertices: seq<Vector3>, toNew: seq<int>, toOld: seq<int>)
    requires IsWelded(vertices, radius, newVertices, toNew, toOld)
    ensures DocumentedMaps(vertices, newVertices, toNew, toOld) <==> NearOnlyIfEqual(vertices, radius)
  {
    forall i | 0 <= i < |toNew| ensures 0 <= toNew[i] < |newVertices| {
      assert IsClosest(newVertices, vertices[i], toNew[i]);
    }
    if DocumentedMaps(vertices, newVertices, toNew, toOld) {
      forall i, j | 0 <= i < |vertices| && 0 <= j < |vertices| && Near(vertices[i], vertices[j], radius)
        ensures vertices[i] == vertices[j]
      {
        var m, n := toNew[i], toNew[j];
        assert vertices[i] == newVertices[m] && vertices[j] == newVertices[n];
        DistanceSymmetric(newVertices[m], newVertices[n]);
      }
    }
    if NearOnlyIfEqual(vertices, radius) {
      forall i | 0 <= i < |toNew| ensures vertices[i] == newVertices[toNew[i]] {
        assert newVertices[toNew[i]] in vertices;
        var k :| 0 <= k < |vertices| && vertices[k] == newVertices[toNew[i]];
      }
      forall n | 0 <= n < |toOld| ensures vertices[toOld[n]] == newVertices[n] {
        assert IsLastMapped(toNew, n, toOld[n]);
      }
    }
  }

  /** c is the first vertex that is near v. */
  ghost predicate IsFirstNear(vertices: seq<Vector3>, radius: real, v: int, c: int) {
    && 0 <= v < |vertices| && 0 <= c < |vertices| && Near(vertices[c], vertices[v], radius)
    && forall k :: 0 <= k < c ==> !Near(vertices[k], vertices[v], radius)
  }

  /** What a comment says of the representatives. */
  ghost predicate CanonicalIsFirst(vertices: seq<Vector3>, radius: real, toNew: seq<int>, toOld: seq<int>) {
    forall v :: 0 <= v < |vertices| ==>
      && v < |toNew| && 0 <= toNew[v] < |toOld|
      && IsFirstNear(vertices, radius, v, Canonical(toNew, toOld, v))
  }

  /** The representative is the first vertex nearby exactly when there is nothing to weld at all: the
      second pass overwrites, and so keeps the last one. */
  lemma FirstOccurrenceIff(
    vertices: seq<Vector3>, radius: real, newVertices: seq<Vector3>, toNew: seq<int>, toOld: seq<int>)
    requires IsWelded(vertices, radius, newVertices, toNew, toOld)
    ensures CanonicalIsFirst(vertices, radius, toNew, toOld) <==> IsNet(vertices, radius)
  {
    forall v | 0 <= v < |vertices|
      ensures 0 <= toNew[v] < |toOld| && v <= Canonical(toNew, toOld, v) < |vertices|
    {
      assert IsClosest(newVertices, vertices[v], toNew[v]);
      assert IsLastMapped(toNew, toNew[v], toOld[toNew[v]]);
    }
    if CanonicalIsFirst(vertices, radius, toNew, toOld) {
      forall i, j | 0 <= i < j < |vertices| ensures !Near(vertices[i], vertices[j], radius) {
        assert IsFirstNear(vertices, radius, j, Canonical(toNew, toOld, j));
      }
    }
    if IsNet(vertices, radius) {
      forall v | 0 <= v < |vertices| ensures IsFirstNear(vertices, radius, v, Canonical(toNew, toOld, v)) {
        NetIsItsOwnRepresentative(vertices, radius, newVertices, toNew, toOld, v);
        SelfNear(vertices[v], radius);
      }
    }
  }

  /** With nothing to weld every vertex represents itself. */
  lemma NetIsItsOwnRepresentative(
    vertices: seq<Vector3>, radius: real, newVertices: seq<Vector3>, toNew: seq<int>, toOld: seq<int>, v: int)
    requires IsWelded(vertices, radius, newVertices, toNew, toOld) && 0 <= v < |vertices| && IsNet(vertices, radius)
    ensures 0 <= toNew[v] < |toOld| && Canonical(toNew, toOld, v) == v
  {
    var n := toNew[v];
    assert IsClosest(newVertices, vertices[v], n);
    var c := toOld[n];
    assert IsLastMapped(toNew, n, c);
    assert newVertices[n] in vertices;
    var w :| 0 <= w < |vertices| && vertices[w] == newVertices[n];
    assert Near(vertices[w], vertices[v], radius) && Near(vertices[w], vertices[c], radius);
    DistanceSymmetric(vertices[w], vertices[v]);
    DistanceSymmetric(vertices[w], vertices[c]);
  }

  /** Two different vertices near each other, and one far from both: the second overwrites the first in
      toOld, is not where the new vertex is, and represents the first. */
  lemma DocumentedMapsCanFail(p: Vector3, q: Vector3, far: Vector3, radius: real)
    requires Near(p, q, radius) && p != q && !Near(p, far, radius) && !Near(far, q, radius)
    ensures IsWelded([p, q, far], radius, [p, far], [0, 0, 1], [1, 2])
    ensures !DocumentedMaps([p, q, far], [p, far], [0, 0, 1], [1, 2])
    ensures !CanonicalIsFirst([p, q, far], radius, [0, 0, 1], [1, 2])
  {
    var vertices, newVertices, toNew, toOld := [p, q, far], [p, far], [0, 0, 1], [1, 2];
    SelfNear(p, radius);
    SelfNear(far, radius);
    DistanceSymmetric(p, far);
    assert SquaredDistance(p, far) > 0.0 by { SquareNonNegative(radius); }
    assert IsClosest(newVertices, p, 0) && IsClosest(newVertices, q, 0) && IsClosest(newVertices, far, 1);
    assert IsLastMapped(toNew, 0, 1) && IsLastMapped(toNew, 1, 2);
    assert newVertices[0] == vertices[0] && newVertices[1] == vertices[2];
    assert IsWelded(vertices, radius, newVertices, toNew, toOld);
    assert vertices[toOld[0]] == q;
    assert Near(vertices[0], vertices[1], radius);
    FirstOccurrenceIff(vertices, radius, newVertices, toNew, toOld);
  }

  /** Such vertices fit the grid: a hundredth apart, with a third one a hundred away. */
  lemma DocumentedMapsDoFail()
    ensures var vertices := [Vector3(0.0, 0.0, 0.0), Vector3(0.01, 0.0, 0.0), Vector3(100.0, 0.0, 0.0)];
      var newVertices := [Vector3(0.0, 0.0, 0.0), Vector3(100.0, 0.0, 0.0)];
      && RadiusFits(vertices, 0.03) && IsWelded(vertices, 0.03, newVertices, [0, 0, 1], [1, 2])
      && !DocumentedMaps(vertices, newVertices, [0, 0, 1], [1, 2])
      && !CanonicalIsFirst(vertices, 0.03, [0, 0, 1], [1, 2])
  {
    var p, q, far := Vector3(0.0, 0.0, 0.0), Vector3(0.01, 0.0, 0.0), Vector3(100.0, 0.0, 0.0);
    var vertices := [p, q, far];
    assert SquaredDistance(p, q) == 0.01 * 0.01;
    assert SquaredDistance(p, far) == 100.0 * 100.0;
    assert SquaredDistance(far, q) == 99.99 * 99.99;
    DocumentedMapsCanFail(p, q, far, 0.03);
    FarApartFits();
  }

  lemma FarApartFits()
    ensures RadiusFits([Vector3(0.0, 0.0, 0.0), Vector3(0.01, 0.0, 0.0), Vector3(100.0, 0.0, 0.0)], 0.03)
  {
    var vertices := [Vector3(0.0, 0.0, 0.0), Vector3(0.01, 0.0, 0.0), Vector3(100.0, 0.0, 0.0)];
    forall low, high | AreBounds(vertices, low, high) ensures FrameOf(low, high, 0.03).Valid() {
      assert Within(vertices[0], low, high) && Within(vertices[1], low, high) && Within(vertices[2], low, high);
    }
  }
}
