/**
 * Where a cell lies on the globe. The latitude bits of a hash, read as a
 * binary number, count the halvings that took the upper half. That number
 * is the cell's row, and likewise for longitude and the column. So the row
 * and column that CalculateAdjacent steps through are the position of the
 * box that Decode narrows down to.
 */
module Placement {
  import opened Alphabet
  import opened Codec
  import opened Sizes
  import opened Accuracy
  import opened Neighbours
  import opened Adjacency
  import opened Wrappers

  /** The latitude bits among the first `n` of `bits` (the odd positions), as a binary number. */
  function LatIndex(bits: seq<bool>, n: nat): nat
    requires n <= |bits|
    decreases n
  {
    if n == 0 then 0
    else if (n - 1) % 2 == 0 then LatIndex(bits, n - 1)
    else 2 * LatIndex(bits, n - 1) + Bit01(bits[n - 1])
  }

  /** The longitude bits among the first `n` of `bits` (the even positions), as a binary number. */
  function LonIndex(bits: seq<bool>, n: nat): nat
    requires n <= |bits|
    decreases n
  {
    if n == 0 then 0
    else if (n - 1) % 2 == 0 then 2 * LonIndex(bits, n - 1) + Bit01(bits[n - 1])
    else LonIndex(bits, n - 1)
  }

  /** Halving a range whose lower end sits `k` widths above `base` puts it `2k` or `2k + 1` new widths above. */
  lemma {:induction false} HalfCorner(iv: Interval, base: real, k: nat, bit: bool)
    requires iv.lo == base + k as real * iv.Width()
    ensures Half(iv, bit).lo == base + (2 * k + Bit01(bit)) as real * Half(iv, bit).Width()
  {
    var w := Half(iv, bit).Width();
    assert iv.Width() == 2.0 * w;
    assert k as real * iv.Width() == (2 * k) as real * w;
  }

  /** The corner of box `b` sits `lat` and `lon` cell widths from the south-west corner of the globe. */
  predicate CornerAt(b: Box, lat: int, lon: int) {
    b.lat.lo == -90.0 + lat as real * b.lat.Width() && b.lon.lo == -180.0 + lon as real * b.lon.Width()
  }

  /**
   * After `n` bits, the box's lower corner lies LatIndex widths above the
   * south pole and LonIndex widths east of the antimeridian.
   */
  lemma {:induction false} ReplayCorner(bits: seq<bool>, n: nat)
    requires n <= |bits|
    ensures CornerAt(Replay(bits, n), LatIndex(bits, n), LonIndex(bits, n))
    decreases n
  {
    if n > 0 {
      ReplayCorner(bits, n - 1);
      StepCorner(Replay(bits, n - 1), LatIndex(bits, n - 1), LonIndex(bits, n - 1), (n - 1) % 2 == 0, bits[n - 1]);
    }
  }

  /** One bisection doubles the index on the halved axis and adds the bit; the other axis keeps both. */
  lemma {:induction false} StepCorner(b: Box, lat: nat, lon: nat, lonTurn: bool, bit: bool)
    requires CornerAt(b, lat, lon)
    ensures lonTurn ==> CornerAt(Step(b, lonTurn, bit), lat, 2 * lon + Bit01(bit))
    ensures !lonTurn ==> CornerAt(Step(b, lonTurn, bit), 2 * lat + Bit01(bit), lon)
  {
    if lonTurn {
      HalfCorner(b.lon, -180.0, lon, bit);
    } else {
      HalfCorner(b.lat, -90.0, lat, bit);
    }
  }

  /**
   * The three-bit part `Major` and the two-bit part `Minor` of a symbol are
   * its bits at the weights 16, 4, 1 and 8, 2. `Major` is the latitude part
   * for an even length and the longitude part for an odd length.
   */
  lemma {:induction false} SymbolParts(v: int)
    requires 0 <= v < 32
    ensures Major(v as bv5) as int == 4 * Bit01(BitSet(v, 16)) + 2 * Bit01(BitSet(v, 4)) + Bit01(BitSet(v, 1))
    ensures Minor(v as bv5) as int == 2 * Bit01(BitSet(v, 8)) + Bit01(BitSet(v, 2))
  {
    assert v == 0 || v == 1 || v == 2 || v == 3 || v == 4 || v == 5 || v == 6 || v == 7
      || v == 8 || v == 9 || v == 10 || v == 11 || v == 12 || v == 13 || v == 14 || v == 15
      || v == 16 || v == 17 || v == 18 || v == 19 || v == 20 || v == 21 || v == 22 || v == 23
      || v == 24 || v == 25 || v == 26 || v == 27 || v == 28 || v == 29 || v == 30 || v == 31;
  }

  /** Five bits from a longitude turn: three longitude bits and two latitude bits. */
  lemma {:induction false} FiveFromLon(bits: seq<bool>, m: nat)
    requires m % 2 == 0 && m + 5 <= |bits|
    ensures LatIndex(bits, m + 5) == 4 * LatIndex(bits, m) + 2 * Bit01(bits[m + 1]) + Bit01(bits[m + 3])
    ensures LonIndex(bits, m + 5) == 8 * LonIndex(bits, m) + 4 * Bit01(bits[m]) + 2 * Bit01(bits[m + 2]) + Bit01(bits[m + 4])
  {
    assert LatIndex(bits, m + 1) == LatIndex(bits, m);
    assert LatIndex(bits, m + 2) == 2 * LatIndex(bits, m + 1) + Bit01(bits[m + 1]);
    assert LatIndex(bits, m + 3) == LatIndex(bits, m + 2);
    assert LatIndex(bits, m + 4) == 2 * LatIndex(bits, m + 3) + Bit01(bits[m + 3]);
    assert LatIndex(bits, m + 5) == LatIndex(bits, m + 4);
    assert LonIndex(bits, m + 1) == 2 * LonIndex(bits, m) + Bit01(bits[m]);
    assert LonIndex(bits, m + 2) == LonIndex(bits, m + 1);
    assert LonIndex(bits, m + 3) == 2 * LonIndex(bits, m + 2) + Bit01(bits[m + 2]);
    assert LonIndex(bits, m + 4) == LonIndex(bits, m + 3);
    assert LonIndex(bits, m + 5) == 2 * LonIndex(bits, m + 4) + Bit01(bits[m + 4]);
  }

  /** Five bits from a latitude turn: three latitude bits and two longitude bits. */
  lemma {:induction false} FiveFromLat(bits: seq<bool>, m: nat)
    requires m % 2 == 1 && m + 5 <= |bits|
    ensures LatIndex(bits, m + 5) == 8 * LatIndex(bits, m) + 4 * Bit01(bits[m]) + 2 * Bit01(bits[m + 2]) + Bit01(bits[m + 4])
    ensures LonIndex(bits, m + 5) == 4 * LonIndex(bits, m) + 2 * Bit01(bits[m + 1]) + Bit01(bits[m + 3])
  {
    assert LatIndex(bits, m + 1) == 2 * LatIndex(bits, m) + Bit01(bits[m]);
    assert LatIndex(bits, m + 2) == LatIndex(bits, m + 1);
    assert LatIndex(bits, m + 3) == 2 * LatIndex(bits, m + 2) + Bit01(bits[m + 2]);
    assert LatIndex(bits, m + 4) == LatIndex(bits, m + 3);
    assert LatIndex(bits, m + 5) == 2 * LatIndex(bits, m + 4) + Bit01(bits[m + 4]);
    assert LonIndex(bits, m + 1) == LonIndex(bits, m);
    assert LonIndex(bits, m + 2) == 2 * LonIndex(bits, m + 1) + Bit01(bits[m + 1]);
    assert LonIndex(bits, m + 3) == LonIndex(bits, m + 2);
    assert LonIndex(bits, m + 4) == 2 * LonIndex(bits, m + 3) + Bit01(bits[m + 3]);
    assert LonIndex(bits, m + 5) == LonIndex(bits, m + 4);
  }

  /** The bits of character `i` of a hash, at their places in the hash's bits. */
  lemma {:induction false} HashGroup(h: string, i: nat)
    requires i < |h|
    ensures 5 * i + 5 <= |HashBits(h)|
    ensures HashBits(h)[5 * i] == BitSet(ValueOf(h[i]), 16) && HashBits(h)[5 * i + 1] == BitSet(ValueOf(h[i]), 8)
    ensures HashBits(h)[5 * i + 2] == BitSet(ValueOf(h[i]), 4) && HashBits(h)[5 * i + 3] == BitSet(ValueOf(h[i]), 2)
    ensures HashBits(h)[5 * i + 4] == BitSet(ValueOf(h[i]), 1)
  {
    HashBitsAt(h, i, 0);
    HashBitsAt(h, i, 1);
    HashBitsAt(h, i, 2);
    HashBitsAt(h, i, 3);
    HashBitsAt(h, i, 4);
  }

  /**
   * The `i`th character, with symbol value `v`, shifts the latitude and
   * longitude indices by its parts: the parts a hash of `i` characters ends with.
   */
  lemma {:induction false} CharIndex(bits: seq<bool>, i: nat, v: int)
    requires 1 <= i && 5 * i <= |bits| && 0 <= v < 32
    requires bits[5 * (i - 1)] == BitSet(v, 16) && bits[5 * (i - 1) + 1] == BitSet(v, 8)
    requires bits[5 * (i - 1) + 2] == BitSet(v, 4) && bits[5 * (i - 1) + 3] == BitSet(v, 2)
    requires bits[5 * (i - 1) + 4] == BitSet(v, 1)
    ensures LatIndex(bits, 5 * i) == LatIndex(bits, 5 * (i - 1)) * LatCount(i % 2) + LatPart(i % 2, v as bv5) as int
    ensures LonIndex(bits, 5 * i) == LonIndex(bits, 5 * (i - 1)) * LonCount(i % 2) + LonPart(i % 2, v as bv5) as int
  {
    var m, t, x := 5 * (i - 1), i % 2, v as bv5;
    assert m + 5 == 5 * i;
    assert (t == 1) == (m % 2 == 0) by {
      Parity(i - 1, 0);
      NextParity(i - 1);
    }
    if t == 1 {
      GroupFromLon(bits, m, v);
      assert LatCount(t) == 4 && LonCount(t) == 8 && LatPart(t, x) == Minor(x) && LonPart(t, x) == Major(x);
    } else {
      GroupFromLat(bits, m, v);
      assert LatCount(t) == 8 && LonCount(t) == 4 && LatPart(t, x) == Major(x) && LonPart(t, x) == Minor(x);
    }
  }

  /** The five bits of symbol `v`, from a longitude turn: its minor part adds to the latitude, its major part to the longitude. */
  lemma {:induction false} GroupFromLon(bits: seq<bool>, m: nat, v: int)
    requires m % 2 == 0 && m + 5 <= |bits| && 0 <= v < 32
    requires bits[m] == BitSet(v, 16) && bits[m + 1] == BitSet(v, 8) && bits[m + 2] == BitSet(v, 4)
    requires bits[m + 3] == BitSet(v, 2) && bits[m + 4] == BitSet(v, 1)
    ensures LatIndex(bits, m + 5) == 4 * LatIndex(bits, m) + Minor(v as bv5) as int
    ensures LonIndex(bits, m + 5) == 8 * LonIndex(bits, m) + Major(v as bv5) as int
  {
    FiveFromLon(bits, m);
    SymbolParts(v);
  }

  /** The five bits of symbol `v`, from a latitude turn: its major part adds to the latitude, its minor part to the longitude. */
  lemma {:induction false} GroupFromLat(bits: seq<bool>, m: nat, v: int)
    requires m % 2 == 1 && m + 5 <= |bits| && 0 <= v < 32
    requires bits[m] == BitSet(v, 16) && bits[m + 1] == BitSet(v, 8) && bits[m + 2] == BitSet(v, 4)
    requires bits[m + 3] == BitSet(v, 2) && bits[m + 4] == BitSet(v, 1)
    ensures LatIndex(bits, m + 5) == 8 * LatIndex(bits, m) + Major(v as bv5) as int
    ensures LonIndex(bits, m + 5) == 4 * LonIndex(bits, m) + Minor(v as bv5) as int
  {
    FiveFromLat(bits, m);
    SymbolParts(v);
  }

  /** The indices after `n` bits depend on those bits only. */
  lemma {:induction false} IndexPrefix(a: seq<bool>, b: seq<bool>, n: nat)
    requires n <= |a| && n <= |b| && a[..n] == b[..n]
    ensures LatIndex(a, n) == LatIndex(b, n) && LonIndex(a, n) == LonIndex(b, n)
    decreases n
  {
    if n > 0 {
      assert a[..n - 1] == a[..n][..n - 1] && b[..n - 1] == b[..n][..n - 1];
      assert a[n - 1] == a[..n][n - 1] && b[n - 1] == b[..n][n - 1];
      IndexPrefix(a, b, n - 1);
    }
  }

  /** The indices after all but the last character are those of the hash without it. */
  lemma {:induction false} HashIndexPrefix(h: string)
    requires |h| > 0
    ensures LatIndex(HashBits(h), 5 * (|h| - 1)) == LatIndex(HashBits(h[..|h| - 1]), 5 * (|h| - 1))
    ensures LonIndex(HashBits(h), 5 * (|h| - 1)) == LonIndex(HashBits(h[..|h| - 1]), 5 * (|h| - 1))
  {
    var p, k := h[..|h| - 1], 5 * (|h| - 1);
    assert HashBits(h)[..k] == HashBits(p)[..k];
    IndexPrefix(HashBits(h), HashBits(p), k);
  }

  /** The last character of a valid hash shifts its indices by the parts Row and Column add for it. */
  lemma {:induction false} HashIndexLast(h: string)
    requires ValidHash(h) && |h| > 0
    ensures LatIndex(HashBits(h), 5 * |h|)
      == LatIndex(HashBits(h), 5 * (|h| - 1)) * LatCount(|h| % 2) + LatPart(|h| % 2, ValueOf(h[|h| - 1]) as bv5) as int
    ensures LonIndex(HashBits(h), 5 * |h|)
      == LonIndex(HashBits(h), 5 * (|h| - 1)) * LonCount(|h| % 2) + LonPart(|h| % 2, ValueOf(h[|h| - 1]) as bv5) as int
  {
    HashGroup(h, |h| - 1);
    CharIndex(HashBits(h), |h|, ValueOf(h[|h| - 1]));
  }

  /** The latitude and longitude bits of a hash, read as numbers, are its row and its column. */
  lemma {:induction false} HashIndex(h: string)
    requires ValidHash(h)
    ensures LatIndex(HashBits(h), 5 * |h|) == Row(h)
    ensures LonIndex(HashBits(h), 5 * |h|) == Column(h)
    decreases |h|
  {
    if |h| > 0 {
      var p := h[..|h| - 1];
      ValidPrefix(h, |h| - 1);
      HashIndex(p);
      HashIndexPrefix(h);
      HashIndexLast(h);
    }
  }

  /**
   * Decode's box is cell (Row, Column) of the grid of its length: its
   * corner lies Row cell heights north of the south pole and Column cell
   * widths east of the antimeridian.
   */
  lemma {:induction false} DecodeCorner(h: string)
    requires ValidHash(h)
    ensures CornerAt(DecodeBox(h), Row(h), Column(h))
    ensures DecodeBox(h).lat.Width() == CellSize(|h|).height && DecodeBox(h).lon.Width() == CellSize(|h|).width
  {
    var bits, n := HashBits(h), 5 * |h|;
    var b := DecodeBox(h);
    assert b == Replay(bits, n) by { DecodeBoxReplays(h); }
    assert CornerAt(Replay(bits, n), LatIndex(bits, n), LonIndex(bits, n)) by { ReplayCorner(bits, n); }
    assert LatIndex(bits, n) == Row(h) && LonIndex(bits, n) == Column(h) by {
      HashIndex(h);
    }
    DecodeBoxSize(h);
  }

  /** Moving `delta` cells of size `w` from index `k` moves the corner by `delta * w`. */
  lemma {:induction false} ShiftCorner(base: real, k: int, delta: int, w: real)
    ensures base + (k + delta) as real * w == (base + k as real * w) + delta as real * w
  {
  }

  /** Box `b` is box `a` moved by `dr` of its heights north and `dc` of its widths east. */
  predicate Apart(a: Box, b: Box, dr: int, dc: int) {
    && b.lat.Width() == a.lat.Width() && b.lon.Width() == a.lon.Width()
    && b.lat.lo == a.lat.lo + dr as real * a.lat.Width()
    && b.lon.lo == a.lon.lo + dc as real * a.lon.Width()
  }

  /** Two boxes of one size whose cells lie `dr` rows and `dc` columns apart. */
  lemma {:induction false} ShiftedBox(a: Box, b: Box, size: Extent, row: int, column: int, row': int, column': int, dr: int, dc: int)
    requires CornerAt(a, row, column) && CornerAt(b, row', column') && row' == row + dr && column' == column + dc
    requires a.lat.Width() == size.height && a.lon.Width() == size.width
    requires b.lat.Width() == size.height && b.lon.Width() == size.width
    ensures Apart(a, b, dr, dc)
  {
    ShiftCorner(-90.0, row, dr, size.height);
    ShiftCorner(-180.0, column, dc, size.width);
  }

  /** Two valid hashes of one length whose rows and columns differ by `dr` and `dc` decode to boxes that far apart. */
  lemma {:induction false} CellBoxes(h: string, g: string, dr: int, dc: int)
    requires ValidHash(h) && ValidHash(g) && |g| == |h|
    requires Row(g) == Row(h) + dr && Column(g) == Column(h) + dc
    ensures Apart(DecodeBox(h), DecodeBox(g), dr, dc)
  {
    DecodeCorner(h);
    DecodeCorner(g);
    ShiftedBox(DecodeBox(h), DecodeBox(g), CellSize(|h|), Row(h), Column(h), Row(g), Column(g), dr, dc);
  }

  /**
   * CalculateAdjacent's result decodes to the cell one step away in its
   * direction: a box of the same size, its corner moved by one cell height
   * north or south, or by one cell width east or west.
   */
  lemma {:induction false} AdjacentBoxes(h: string, d: Direction)
    requires ValidHash(h) && |h| > 0 && Adjacent(h, d).Ok?
    ensures Apart(DecodeBox(h), DecodeBox(Adjacent(h, d).value), LatDelta(d), LonDelta(d))
  {
    AdjacentCell(h, d);
    CellBoxes(h, Adjacent(h, d).value, LatDelta(d), LonDelta(d));
  }

  // ------------------------------------------------------------ the grid covers the globe

  /** The grid's count of rows or columns, `Cells(e)`, is 2 to the power `e`. */
  lemma {:induction false} CellsPow2(e: nat)
    ensures Cells(e) as real == Pow2(e)
    decreases e
  {
    if e > 0 {
      CellsPow2(e - 1);
    }
  }

  /** `count` pieces of size `piece` make up `total` exactly. */
  predicate Covers(count: nat, piece: real, total: real) {
    count as real * piece == total
  }

  /**
   * The rows of the `n`-character grid, each a cell high, span the 180
   * degrees of latitude, and its columns the 360 degrees of longitude.
   */
  lemma {:induction false} GridCoversGlobe(n: nat)
    ensures Covers(Cells(LatBits(n)), CellSize(n).height, 180.0)
    ensures Covers(Cells(LonBits(n)), CellSize(n).width, 360.0)
  {
    Spans(Cells(LatBits(n)), LatBits(n), CellSize(n).height, 180.0);
    Spans(Cells(LonBits(n)), LonBits(n), CellSize(n).width, 360.0);
  }

  /** `2^e` pieces of `a / 2^e` make `a`. */
  lemma {:induction false} Spans(count: nat, e: nat, piece: real, a: real)
    requires count == Cells(e) && piece == a / Pow2(e)
    ensures Covers(count, piece, a)
  {
    CellsPow2(e);
  }
}
