/** Packing a grid of heights into bytes or words, with a bound on what that loses. */
module Heights {
  const ADT_GRID_SIZE := 128

  datatype Config = Config(
    allowHeightLimit: bool, useMinHeight: real, allowFloatToInt: bool,
    flatHeightDeltaLimit: real, floatToInt8Limit: real, floatToInt16Limit: real)

  /** How the heights of a grid are stored. */
  datatype Packing = Flat | Int8 | Int16 | Float

  datatype Header = Header(packing: Packing, gridHeight: real, gridMaxHeight: real)

  /** A height after the limit on deep places. */
  function Limited(c: Config, h: real): real {
    if c.allowHeightLimit && h < c.useMinHeight then c.useMinHeight else h
  }

  function SelectUInt8StepStore(maxDiff: real): real
    requires maxDiff != 0.0
  {
    255.0 / maxDiff
  }

  function SelectUInt16StepStore(maxDiff: real): real
    requires maxDiff != 0.0
  {
    65535.0 / maxDiff
  }

  /** Conversion to an integer after rounding to the nearest one. */
  function Stored(d: real, step: real): int {
    (d * step + 0.5).Floor
  }

  function Recovered(gridHeight: real, n: int, step: real): real
    requires step != 0.0
  {
    gridHeight + n as real / step
  }

  function Abs(x: real): (r: real)
    ensures r >= 0.0 && (r == x || r == -x)
  {
    if x < 0.0 then -x else x
  }

  // ----- What one stored height loses -----

  lemma Scale(d: real, diff: real, levels: real)
    requires 0.0 <= d <= diff && diff > 0.0 && levels > 0.0
    ensures 0.0 <= d * (levels / diff) <= levels
    ensures d * (levels / diff) / (levels / diff) == d
  {
    var step := levels / diff;
    assert step > 0.0;
    assert step * diff == levels;
    assert d * step >= 0.0;
    assert (diff - d) * step >= 0.0;
  }

  lemma DivideOrder(x: real, y: real, step: real)
    requires step > 0.0 && x <= y
    ensures x / step <= y / step
  {
    var u, v := x / step, y / step;
    assert u * step == x && v * step == y;
    if u > v {
      PositiveProduct(u - v, step);
    }
  }

  lemma PositiveProduct(a: real, b: real)
    requires a > 0.0 && b > 0.0
    ensures a * b > 0.0
  {
  }

  lemma HalfStep(diff: real, levels: real)
    requires diff > 0.0 && levels > 0.0
    ensures 0.5 / (levels / diff) == diff / (2.0 * levels)
  {
    var step := levels / diff;
    assert step * diff == levels;
    assert diff / (2.0 * levels) * step == 0.5 by {
      assert diff * step == levels;
      assert diff / (2.0 * levels) * (2.0 * levels) == diff;
    }
  }

  /** A stored height fits its integer and is recovered within half a step. */
  lemma StoredIsClose(d: real, diff: real, levels: int)
    requires 0.0 <= d <= diff && diff > 0.0 && levels > 0
    ensures var step := levels as real / diff;
      && step > 0.0 && 0 <= Stored(d, step) <= levels
      && Abs(Stored(d, step) as real / step - d) <= diff / (2.0 * levels as real)
  {
    var step := levels as real / diff;
    Scale(d, diff, levels as real);
    var n := Stored(d, step);
    assert d * step - 0.5 <= n as real <= d * step + 0.5;
    DivideOrder(n as real, d * step + 0.5, step);
    DivideOrder(d * step - 0.5, n as real, step);
    SplitQuotient(d * step, 0.5, step);
    HalfStep(diff, levels as real);
  }

  lemma SplitQuotient(x: real, y: real, step: real)
    requires step > 0.0
    ensures (x + y) / step == x / step + y / step && (x - y) / step == x / step - y / step
  {
  }

  /** The lowest and the highest point are stored exactly, and order is kept. */
  lemma StoredKeepsOrder(d: real, e: real, diff: real, levels: int)
    requires 0.0 <= d <= e <= diff && diff > 0.0 && levels > 0
    ensures var step := levels as real / diff;
      && Stored(0.0, step) == 0 && Stored(diff, step) == levels && Stored(d, step) <= Stored(e, step)
  {
    var step := levels as real / diff;
    assert step > 0.0 && diff * step == levels as real;
    assert (e - d) * step >= 0.0;
    assert d * step + 0.5 <= e * step + 0.5;
  }

  // ----- The grid -----

  /** Cell (i, j) comes before (y, x) in a scan by rows. */
  predicate Scanned(i: int, j: int, y: int, x: int) {
    i < y || (i == y && j < x)
  }

  ghost predicate Attained(v: array2<real>, h: real)
    reads v
  {
    exists i, j :: 0 <= i < v.Length0 && 0 <= j < v.Length1 && v[i, j] == h
  }

  /** Widens given bounds to all heights of a grid, and no further. */
  method ScanBounds(v: array2<real>, highest: real, lowest: real) returns (maxHeight: real, minHeight: real)
    ensures forall i, j :: 0 <= i < v.Length0 && 0 <= j < v.Length1 ==> minHeight <= v[i, j] <= maxHeight
    ensures maxHeight >= highest && minHeight <= lowest
    ensures maxHeight == highest || Attained(v, maxHeight)
    ensures minHeight == lowest || Attained(v, minHeight)
  {
    maxHeight, minHeight := highest, lowest;
    var y := 0;
    while y < v.Length0
      invariant 0 <= y <= v.Length0
      invariant forall i, j :: 0 <= i < y && 0 <= j < v.Length1 ==> minHeight <= v[i, j] <= maxHeight
      invariant maxHeight >= highest && minHeight <= lowest
      invariant maxHeight == highest || Attained(v, maxHeight)
      invariant minHeight == lowest || Attained(v, minHeight)
    {
      var x := 0;
      while x < v.Length1
        invariant 0 <= x <= v.Length1
        invariant forall i, j :: 0 <= i < y && 0 <= j < v.Length1 ==> minHeight <= v[i, j] <= maxHeight
        invariant forall j :: 0 <= j < x ==> minHeight <= v[y, j] <= maxHeight
        invariant maxHeight >= highest && minHeight <= lowest
        invariant maxHeight == highest || Attained(v, maxHeight)
        invariant minHeight == lowest || Attained(v, minHeight)
      {
        var h := v[y, x];
        assert Attained(v, h);
        if maxHeight < h {
          maxHeight := h;
        }
        if minHeight > h {
          minHeight := h;
        }
        x := x + 1;
      }
      y := y + 1;
    }
  }

  /** Lifts every height below the limit up to it, in place. */
  method LimitHeights(v: array2<real>, low: real)
    modifies v
    ensures forall i, j :: 0 <= i < v.Length0 && 0 <= j < v.Length1 ==>
      v[i, j] == if old(v[i, j]) < low then low else old(v[i, j])
    ensures forall h :: old(Attained(v, h)) ==> Attained(v, if h < low then low else h)
  {
    var y := 0;
    while y < v.Length0
      invariant 0 <= y <= v.Length0
      invariant forall i, j :: 0 <= i < v.Length0 && 0 <= j < v.Length1 ==>
        v[i, j] == if i < y && old(v[i, j]) < low then low else old(v[i, j])
    {
      var x := 0;
      while x < v.Length1
        invariant 0 <= x <= v.Length1
        invariant forall i, j :: 0 <= i < v.Length0 && 0 <= j < v.Length1 ==>
          v[i, j] == if Scanned(i, j, y, x) && old(v[i, j]) < low then low else old(v[i, j])
      {
        if v[y, x] < low {
          v[y, x] := low;
        }
        x := x + 1;
      }
      y := y + 1;
    }
    forall h | old(Attained(v, h))
      ensures Attained(v, if h < low then low else h)
    {
      var i, j :| 0 <= i < v.Length0 && 0 <= j < v.Length1 && old(v[i, j]) == h;
      assert v[i, j] == if h < low then low else h;
    }
  }

  lemma PackedIsClose(h: real, minHeight: real, maxHeight: real, levels: int)
    requires minHeight <= h <= maxHeight && minHeight < maxHeight && levels > 0
    ensures CloseTo(h, Stored(h - minHeight, levels as real / (maxHeight - minHeight)), minHeight, maxHeight, levels)
  {
    StoredIsClose(h - minHeight, maxHeight - minHeight, levels);
  }

  /** Every height as the nearest number of steps above the lowest. */
  method PackHeights(v: array2<real>, out: array2<int>, minHeight: real, maxHeight: real, levels: int)
    requires out.Length0 == v.Length0 && out.Length1 == v.Length1 && levels > 0 && minHeight < maxHeight
    requires forall i, j :: 0 <= i < v.Length0 && 0 <= j < v.Length1 ==> minHeight <= v[i, j] <= maxHeight
    modifies out
    ensures forall i, j :: 0 <= i < v.Length0 && 0 <= j < v.Length1 ==>
      CloseTo(v[i, j], out[i, j], minHeight, maxHeight, levels)
  {
    var step := levels as real / (maxHeight - minHeight);
    var y := 0;
    while y < v.Length0
      invariant 0 <= y <= v.Length0
      invariant forall i, j :: 0 <= i < y && 0 <= j < v.Length1 ==>
        CloseTo(v[i, j], out[i, j], minHeight, maxHeight, levels)
    {
      var x := 0;
      while x < v.Length1
        invariant 0 <= x <= v.Length1
        invariant forall i, j :: 0 <= i < y && 0 <= j < v.Length1 ==>
          CloseTo(v[i, j], out[i, j], minHeight, maxHeight, levels)
        invariant forall j :: 0 <= j < x ==> CloseTo(v[y, j], out[y, j], minHeight, maxHeight, levels)
      {
        PackedIsClose(v[y, x], minHeight, maxHeight, levels);
        out[y, x] := Stored(v[y, x] - minHeight, step);
        x := x + 1;
      }
      y := y + 1;
    }
  }

  /** n fits in `levels` and gives height h back within half a step. */
  ghost predicate CloseTo(h: real, n: int, minHeight: real, maxHeight: real, levels: int)
    requires minHeight < maxHeight && levels > 0
  {
    var diff := maxHeight - minHeight;
    && 0 <= n <= levels && levels as real / diff > 0.0
    && Abs(Recovered(minHeight, n, levels as real / diff) - h) <= diff / (2.0 * levels as real)
  }

  class HeightMap {
    const V8: array2<real>
    const V9: array2<real>
    const uint8_V8: array2<int>
    const uint8_V9: array2<int>
    const uint16_V8: array2<int>
    const uint16_V9: array2<int>

    predicate Shaped() {
      && V8.Length0 == V8.Length1 == ADT_GRID_SIZE && V9.Length0 == V9.Length1 == ADT_GRID_SIZE + 1
      && uint8_V8.Length0 == uint8_V8.Length1 == ADT_GRID_SIZE
      && uint8_V9.Length0 == uint8_V9.Length1 == ADT_GRID_SIZE + 1
      && uint16_V8.Length0 == uint16_V8.Length1 == ADT_GRID_SIZE
      && uint16_V9.Length0 == uint16_V9.Length1 == ADT_GRID_SIZE + 1
      && V8 != V9 && uint8_V8 != uint8_V9 && uint16_V8 != uint16_V9
      && uint8_V8 != uint16_V8 && uint8_V8 != uint16_V9 && uint8_V9 != uint16_V8 && uint8_V9 != uint16_V9
    }

    constructor ()
      ensures Shaped() && V8.Length0 == 128 && V9.Length0 == 129
      ensures fresh(V8) && fresh(V9) && fresh(uint8_V8) && fresh(uint8_V9) && fresh(uint16_V8) && fresh(uint16_V9)
    {
      V8 := new real[ADT_GRID_SIZE, ADT_GRID_SIZE];
      V9 := new real[ADT_GRID_SIZE + 1, ADT_GRID_SIZE + 1];
      uint8_V8 := new int[ADT_GRID_SIZE, ADT_GRID_SIZE];
      uint8_V9 := new int[ADT_GRID_SIZE + 1, ADT_GRID_SIZE + 1];
      uint16_V8 := new int[ADT_GRID_SIZE, ADT_GRID_SIZE];
      uint16_V9 := new int[ADT_GRID_SIZE + 1, ADT_GRID_SIZE + 1];
    }

    /** The heights a grid is stored with: those before, after the limit. */
    twostate predicate HeightsLimited(c: Config, v: array2<real>)
      reads v
    {
      forall y, x :: 0 <= y < v.Length0 && 0 <= x < v.Length1 ==> v[y, x] == Limited(c, old(v[y, x]))
    }

    ghost predicate Bounded(v: array2<real>, low: real, high: real)
      reads v
    {
      forall y, x :: 0 <= y < v.Length0 && 0 <= x < v.Length1 ==> low <= v[y, x] <= high
    }

    ghost predicate Packed(v: array2<real>, out: array2<int>, h: Header, levels: int)
      requires out.Length0 == v.Length0 && out.Length1 == v.Length1 && h.gridHeight < h.gridMaxHeight && levels > 0
      reads v, out
    {
      forall y, x :: 0 <= y < v.Length0 && 0 <= x < v.Length1 ==>
        CloseTo(v[y, x], out[y, x], h.gridHeight, h.gridMaxHeight, levels)
    }

    /** A height of one of the two grids. */
    ghost predicate IsHeight(h: real)
      reads V8, V9
    {
      Attained(V8, h) || Attained(V9, h)
    }

    /** Both grids have one height only. */
    ghost predicate AllEqual()
      reads V8, V9
    {
      forall g, h :: IsHeight(g) && IsHeight(h) ==> g == h
    }

    /** All heights are ones the map format allows. */
    ghost predicate Sane()
      reads V8, V9
    {
      Bounded(V8, -20000.0, 20000.0) && Bounded(V9, -20000.0, 20000.0)
    }

    /** The range of both grids before the limit. */
    method FindRange() returns (maxHeight: real, minHeight: real)
      requires Shaped()
      ensures Bounded(V8, minHeight, maxHeight) && Bounded(V9, minHeight, maxHeight)
      ensures maxHeight >= -20000.0 && (maxHeight == -20000.0 || IsHeight(maxHeight))
      ensures minHeight <= 20000.0 && (minHeight == 20000.0 || IsHeight(minHeight))
      ensures Sane() ==> IsHeight(maxHeight) && IsHeight(minHeight)
    {
      maxHeight, minHeight := -20000.0, 20000.0;
      maxHeight, minHeight := ScanBounds(V8, maxHeight, minHeight);
      maxHeight, minHeight := ScanBounds(V9, maxHeight, minHeight);
      assert minHeight <= V8[0, 0] <= maxHeight;
    }

    /** The range of both grids after the limit, which is applied in place. */
    method LimitRange(c: Config) returns (maxHeight: real, minHeight: real)
      requires Shaped()
      modifies V8, V9
      ensures HeightsLimited(c, V8) && HeightsLimited(c, V9)
      ensures Bounded(V8, minHeight, maxHeight) && Bounded(V9, minHeight, maxHeight)
      ensures minHeight <= maxHeight
      ensures old(Sane()) ==> IsHeight(maxHeight) && IsHeight(minHeight)
    {
      maxHeight, minHeight := FindRange();
      assert minHeight <= V8[0, 0] <= maxHeight;
      if c.allowHeightLimit && minHeight < c.useMinHeight {
        LimitHeights(V8, c.useMinHeight);
        LimitHeights(V9, c.useMinHeight);
        minHeight := c.useMinHeight;
        if maxHeight < c.useMinHeight {
          maxHeight := c.useMinHeight;
        }
      }
    }

    /** Chooses the cheapest packing the settings allow and fills in its arrays. */
    method PackGrid(c: Config) returns (h: Header)
      requires Shaped()
      modifies V8, V9, uint8_V8, uint8_V9, uint16_V8, uint16_V9
      ensures HeightsLimited(c, V8) && HeightsLimited(c, V9)
      ensures Bounded(V8, h.gridHeight, h.gridMaxHeight) && Bounded(V9, h.gridHeight, h.gridMaxHeight)
      ensures old(Sane()) ==> IsHeight(h.gridHeight) && IsHeight(h.gridMaxHeight)
      ensures old(Sane()) ==> (h.gridHeight == h.gridMaxHeight <==> AllEqual())
      ensures !c.allowFloatToInt ==> h.packing == if h.gridHeight == h.gridMaxHeight then Flat else Float
      ensures c.allowFloatToInt ==> var range := h.gridMaxHeight - h.gridHeight;
        && (h.packing.Flat? <==> range == 0.0 || range < c.flatHeightDeltaLimit)
        && (h.packing.Int8? <==> !h.packing.Flat? && range < c.floatToInt8Limit)
        && (h.packing.Int16? <==> !h.packing.Flat? && !h.packing.Int8? && range < c.floatToInt16Limit)
      ensures h.packing.Int8? || h.packing.Int16? ==> h.gridHeight < h.gridMaxHeight
      ensures h.packing.Int8? ==> Packed(V8, uint8_V8, h, 255) && Packed(V9, uint8_V9, h, 255)
      ensures h.packing.Int16? ==> Packed(V8, uint16_V8, h, 65535) && Packed(V9, uint16_V9, h, 65535)
      ensures GridReadsBack(c, h, V8, uint8_V8, uint16_V8) && GridReadsBack(c, h, V9, uint8_V9, uint16_V9)
      ensures !c.allowFloatToInt ==> ReadsBackExactly(h, V8, uint8_V8, uint16_V8) && ReadsBackExactly(h, V9, uint8_V9, uint16_V9)
    {
      hide CloseTo, Limited, ReadsBack;
      var maxHeight, minHeight := LimitRange(c);
      h := Header(ChoosePacking(c, minHeight, maxHeight), minHeight, maxHeight);
      match h.packing {
      case Flat =>
      case Int8 =>
        PackHeights(V8, uint8_V8, minHeight, maxHeight, 255);
        PackHeights(V9, uint8_V9, minHeight, maxHeight, 255);
      case Int16 =>
        PackHeights(V8, uint16_V8, minHeight, maxHeight, 65535);
        PackHeights(V9, uint16_V9, minHeight, maxHeight, 65535);
      case Float =>
      }
      if old(Sane()) {
        OneHeight(minHeight, maxHeight);
      }
      AllReadBack(c, h, V8, uint8_V8, uint16_V8);
      AllReadBack(c, h, V9, uint8_V9, uint16_V9);
    }

    /** Every cell of a grid is recovered from the header and what is stored for it. */
    ghost predicate GridReadsBack(c: Config, h: Header, v: array2<real>, bytes: array2<int>, words: array2<int>)
      requires bytes.Length0 == v.Length0 == words.Length0 && bytes.Length1 == v.Length1 == words.Length1
      requires h.packing.Int8? || h.packing.Int16? ==> h.gridHeight < h.gridMaxHeight
      reads v, bytes, words
    {
      forall y, x :: 0 <= y < v.Length0 && 0 <= x < v.Length1 ==> ReadsBack(c, h, v[y, x], bytes[y, x], words[y, x])
    }

    ghost predicate ReadsBackExactly(h: Header, v: array2<real>, bytes: array2<int>, words: array2<int>)
      requires bytes.Length0 == v.Length0 == words.Length0 && bytes.Length1 == v.Length1 == words.Length1
      requires h.packing.Int8? || h.packing.Int16? ==> h.gridHeight < h.gridMaxHeight
      reads v, bytes, words
    {
      forall y, x :: 0 <= y < v.Length0 && 0 <= x < v.Length1 ==>
        ReadBack(h, v[y, x], bytes[y, x], words[y, x]) == v[y, x]
    }

    lemma OneHeight(low: real, high: real)
      requires Bounded(V8, low, high) && Bounded(V9, low, high) && IsHeight(low) && IsHeight(high)
      ensures low == high <==> AllEqual()
    {
    }

    lemma AllReadBack(c: Config, h: Header, v: array2<real>, bytes: array2<int>, words: array2<int>)
      requires bytes.Length0 == v.Length0 == words.Length0 && bytes.Length1 == v.Length1 == words.Length1
      requires h.packing == ChoosePacking(c, h.gridHeight, h.gridMaxHeight) && Bounded(v, h.gridHeight, h.gridMaxHeight)
      requires h.packing.Int8? || h.packing.Int16? ==> h.gridHeight < h.gridMaxHeight
      requires h.packing.Int8? ==> Packed(v, bytes, h, 255)
      requires h.packing.Int16? ==> Packed(v, words, h, 65535)
      ensures GridReadsBack(c, h, v, bytes, words)
    {
      hide ReadsBack, CloseTo, ChoosePacking;
      forall y, x | 0 <= y < v.Length0 && 0 <= x < v.Length1 ensures ReadsBack(c, h, v[y, x], bytes[y, x], words[y, x]) {
        ReadBackIsClose(c, h, v[y, x], bytes[y, x], words[y, x]);
      }
    }
  }

  /** Which packing a range of heights gets. */
  function ChoosePacking(c: Config, minHeight: real, maxHeight: real): Packing {
    if maxHeight == minHeight then Flat
    else if c.allowFloatToInt && maxHeight - minHeight < c.flatHeightDeltaLimit then Flat
    else if c.allowFloatToInt && maxHeight - minHeight < c.floatToInt8Limit then Int8
    else if c.allowFloatToInt && maxHeight - minHeight < c.floatToInt16Limit then Int16
    else Float
  }

  /** What a reader gets for a height from the header and what is stored for it. */
  function ReadBack(h: Header, float: real, byte: int, word: int): real
    requires h.packing.Int8? || h.packing.Int16? ==> h.gridHeight < h.gridMaxHeight
  {
    match h.packing
    case Flat => h.gridHeight
    case Int8 => Recovered(h.gridHeight, byte, SelectUInt8StepStore(h.gridMaxHeight - h.gridHeight))
    case Int16 => Recovered(h.gridHeight, word, SelectUInt16StepStore(h.gridMaxHeight - h.gridHeight))
    case Float => float
  }

  /** A height is recovered exactly, or off by less than the flat limit, or by at most half a step of
      the range, and what is stored for it fits its type. */
  predicate ReadsBack(c: Config, h: Header, float: real, byte: int, word: int)
    requires h.packing.Int8? || h.packing.Int16? ==> h.gridHeight < h.gridMaxHeight
  {
    var off, diff := Abs(ReadBack(h, float, byte, word) - float), h.gridMaxHeight - h.gridHeight;
    match h.packing
    case Flat => off == 0.0 || (c.allowFloatToInt && off < c.flatHeightDeltaLimit)
    case Int8 => off <= diff / 510.0 && 0 <= byte <= 255 && diff < c.floatToInt8Limit
    case Int16 => off <= diff / 131070.0 && 0 <= word <= 65535 && diff < c.floatToInt16Limit
    case Float => off == 0.0
  }

  /** The most a height can be off by, under each packing the settings lead to. */
  lemma ReadBackIsClose(c: Config, h: Header, float: real, byte: int, word: int)
    requires h.packing == ChoosePacking(c, h.gridHeight, h.gridMaxHeight)
    requires h.gridHeight <= float <= h.gridMaxHeight
    requires h.packing.Int8? || h.packing.Int16? ==> h.gridHeight < h.gridMaxHeight
    requires h.packing.Int8? ==> CloseTo(float, byte, h.gridHeight, h.gridMaxHeight, 255)
    requires h.packing.Int16? ==> CloseTo(float, word, h.gridHeight, h.gridMaxHeight, 65535)
    ensures ReadsBack(c, h, float, byte, word)
  {
  }
}
