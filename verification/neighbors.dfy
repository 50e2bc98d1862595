/**
 * The lookup tables CalculateAdjacent steps with, and the geometry they
 * encode.
 *
 * A character's five bits interleave two coordinates, one bit at a time.
 * The coordinate the character starts with gets three bits (bits 4, 2 and 0,
 * the "major" part) and the other gets two (bits 3 and 1, the "minor" part).
 * The last character of an even-length hash starts with a latitude bit, and
 * that of an odd-length hash with a longitude bit. So within one character
 * the 32 symbols form an 8 x 4 grid (latitude x longitude) for type 0 (even
 * length) and a 4 x 8 grid for type 1 (odd length). Moving one cell in a
 * direction steps one part by one and wraps at the grid's edge. A wrap is
 * exactly the case where the prefix of the hash has to move as well.
 *
 * The reference below computes that step on the symbol's value, as a 5-bit
 * vector. Each table of Geohash.cs is proved to agree with it entry by entry.
 */
module Neighbours {
  import opened Alphabet

  /** The four directions, numbered as the `Direction` enum. */
  datatype Direction = Top | Right | Bottom | Left {
    function Index(): int {
      match this
      case Top => 0
      case Right => 1
      case Bottom => 2
      case Left => 3
    }

    function Opposite(): Direction {
      match this
      case Top => Bottom
      case Right => Left
      case Bottom => Top
      case Left => Right
    }

    /** The same move with latitude and longitude exchanged. */
    function Transposed(): Direction {
      match this
      case Top => Right
      case Right => Top
      case Bottom => Left
      case Left => Bottom
    }
  }

  /**
   * The rows of `Neighbors` for type 0 (even length). The character at
   * position i of the row for direction dir is the one whose neighbour in
   * direction dir, within the character's grid, is `Base32[i]`.
   */
  const TopRow: string := "p0r21436x8zb9dcf5h7kjnmqesgutwvy"
  const RightRow: string := "bc01fg45238967deuvhjyznpkmstqrwx"
  const BottomRow: string := "14365h7k9dcfesgujnmqp0r2twvyx8zb"
  const LeftRow: string := "238967debc01fg45kmstqrwxuvhjyznp"

  /** `Neighbors[type][dir]`; the type 1 rows are the type 0 rows of the transposed direction. */
  const Neighbors: seq<seq<string>> := [
    [TopRow, RightRow, BottomRow, LeftRow],
    [RightRow, TopRow, LeftRow, BottomRow]
  ]

  /** The rows of `Borders` for type 0: the characters on the grid's edge in each direction. */
  const TopBorder: string := "prxz"
  const RightBorder: string := "bcfguvyz"
  const BottomBorder: string := "028b"
  const LeftBorder: string := "0145hjnp"

  /** `Borders[type][dir]`; again the type 1 rows are the type 0 rows transposed. */
  const Borders: seq<seq<string>> := [
    [TopBorder, RightBorder, BottomBorder, LeftBorder],
    [RightBorder, TopBorder, LeftBorder, BottomBorder]
  ]

  /** `Neighbors[type][dir]`. */
  function NeighborRow(t: int, d: Direction): (row: string)
    requires t == 0 || t == 1
    ensures |row| == 32
  {
    NeighborsAt(t, d, 0);
    Neighbors[t][d.Index()]
  }

  /** `Borders[type][dir]`. */
  function BorderRow(t: int, d: Direction): string
    requires t == 0 || t == 1
  {
    Borders[t][d.Index()]
  }

  // ------------------------------------------------------------ reference

  /** The three-bit part of a symbol: bits 4, 2 and 0. */
  function Major(v: bv5): bv5 {
    ((v >> 2) & 4) | ((v >> 1) & 2) | (v & 1)
  }

  /** The two-bit part of a symbol: bits 3 and 1. */
  function Minor(v: bv5): bv5 {
    ((v >> 2) & 2) | ((v >> 1) & 1)
  }

  /** The symbol with the given major and minor parts. */
  function Compose(major: bv5, minor: bv5): bv5 {
    ((major & 4) << 2) | ((minor & 2) << 2) | ((major & 2) << 1) | ((minor & 1) << 1) | (major & 1)
  }

  /** The latitude part of a symbol that ends a hash of type `t`. */
  function LatPart(t: int, v: bv5): bv5 {
    if t == 0 then Major(v) else Minor(v)
  }

  /** The longitude part of a symbol that ends a hash of type `t`. */
  function LonPart(t: int, v: bv5): bv5 {
    if t == 0 then Minor(v) else Major(v)
  }

  /** The symbol of type `t` with the given parts. */
  function Pack(t: int, lat: bv5, lon: bv5): bv5 {
    if t == 0 then Compose(lat, lon) else Compose(lon, lat)
  }

  /** The greatest latitude part of type `t`; also the mask that wraps it. */
  function LatEdge(t: int): bv5 {
    if t == 0 then 7 else 3
  }

  /** The greatest longitude part of type `t`; also the mask that wraps it. */
  function LonEdge(t: int): bv5 {
    if t == 0 then 3 else 7
  }

  /** The latitude step of a direction, modulo 32. */
  function LatStep(d: Direction): bv5 {
    match d
    case Top => 1
    case Bottom => 31
    case _ => 0
  }

  /** The longitude step of a direction, modulo 32. */
  function LonStep(d: Direction): bv5 {
    match d
    case Right => 1
    case Left => 31
    case _ => 0
  }

  /** The symbol one cell from `v` in direction `d`, wrapping round the grid of type `t`. */
  function Move(t: int, v: bv5, d: Direction): bv5 {
    Pack(t, (LatPart(t, v) + LatStep(d)) & LatEdge(t), (LonPart(t, v) + LonStep(d)) & LonEdge(t))
  }

  /** Whether `v` lies on the edge of its grid that `d` points at, so that the move wraps. */
  predicate Wraps(t: int, v: bv5, d: Direction) {
    match d
    case Top => LatPart(t, v) == LatEdge(t)
    case Bottom => LatPart(t, v) == 0
    case Right => LonPart(t, v) == LonEdge(t)
    case Left => LonPart(t, v) == 0
  }

  /** The symbol on edge `d` of the grid of type `t` at position `k` along that edge. */
  function Edge(t: int, d: Direction, k: bv5): bv5 {
    match d
    case Top => Pack(t, LatEdge(t), k)
    case Bottom => Pack(t, 0, k)
    case Right => Pack(t, k, LonEdge(t))
    case Left => Pack(t, k, 0)
  }

  /** The position of `v` along the edge `d` points at. */
  function Along(t: int, v: bv5, d: Direction): bv5 {
    if d == Top || d == Bottom then LonPart(t, v) else LatPart(t, v)
  }

  /** The number of symbols on edge `d` of the grid of type `t`. */
  function EdgeLength(t: int, d: Direction): int {
    if d == Top || d == Bottom then LonEdge(t) as int + 1 else LatEdge(t) as int + 1
  }

  // ------------------------------------------------------------ geometry

  /** A symbol is the pack of its parts, and the parts of a pack are what was packed. */
  lemma {:induction false} PackParts(t: int, v: bv5, lat: bv5, lon: bv5)
    requires lat <= LatEdge(t) && lon <= LonEdge(t)
    ensures Pack(t, LatPart(t, v), LonPart(t, v)) == v
    ensures LatPart(t, Pack(t, lat, lon)) == lat && LonPart(t, Pack(t, lat, lon)) == lon
    ensures LatPart(t, v) <= LatEdge(t) && LonPart(t, v) <= LonEdge(t)
  {
  }

  /** Moving back undoes a move. */
  lemma {:induction false} MoveBack(t: int, v: bv5, d: Direction)
    ensures Move(t, Move(t, v, d), d.Opposite()) == v
  {
  }

  /** The step of a direction in latitude, in cells. */
  function LatDelta(d: Direction): int {
    match d
    case Top => 1
    case Bottom => -1
    case _ => 0
  }

  /** The step of a direction in longitude, in cells. */
  function LonDelta(d: Direction): int {
    match d
    case Right => 1
    case Left => -1
    case _ => 0
  }

  /** A part `x` of a grid whose greatest part is `edge`, stepped by `delta` and wrapped. */
  function Shift(x: int, edge: int, delta: int): int {
    if x + delta < 0 then edge else if x + delta > edge then 0 else x + delta
  }

  /** A move steps each part by the direction's delta, wrapping round the grid. */
  lemma {:induction false} MoveParts(t: int, v: bv5, d: Direction)
    ensures LatPart(t, Move(t, v, d)) as int == Shift(LatPart(t, v) as int, LatEdge(t) as int, LatDelta(d))
    ensures LonPart(t, Move(t, v, d)) as int == Shift(LonPart(t, v) as int, LonEdge(t) as int, LonDelta(d))
  {
  }

  /** A move wraps exactly when stepping a part would leave the grid. */
  lemma {:induction false} WrapsOutside(t: int, v: bv5, d: Direction)
    ensures Wraps(t, v, d) <==>
      !(0 <= LatPart(t, v) as int + LatDelta(d) <= LatEdge(t) as int
        && 0 <= LonPart(t, v) as int + LonDelta(d) <= LonEdge(t) as int)
  {
  }

  /** The two types are each other's transpose. */
  lemma {:induction false} Transpose(v: bv5, d: Direction)
    ensures Move(1, v, d) == Move(0, v, d.Transposed())
    ensures Wraps(1, v, d) == Wraps(0, v, d.Transposed())
    ensures d.Opposite().Transposed() == d.Transposed().Opposite()
  {
  }

  /** The edge symbols are exactly the symbols a move wraps on. */
  lemma {:induction false} EdgeWraps(t: int, v: bv5, d: Direction, k: bv5)
    requires t == 0 || t == 1
    ensures (k as int) < EdgeLength(t, d) ==> Wraps(t, Edge(t, d, k), d) && Along(t, Edge(t, d, k), d) == k
    ensures Wraps(t, v, d) ==> (Along(t, v, d) as int) < EdgeLength(t, d) && Edge(t, d, Along(t, v, d)) == v
  {
  }

  // ------------------------------------------------------------ tables

  /**
   * Entries `k` to `m - 1` of `row` are, each, the symbol one move in
   * direction `d` from the symbol whose value is the entry's position.
   */
  predicate RowFrom(t: int, d: Direction, row: string, k: nat, m: nat)
    decreases m - k
  {
    k >= m || (k < |row| && k < 32 && row[k] == Symbol(Move(t, k as bv5, d) as int) && RowFrom(t, d, row, k + 1, m))
  }

  lemma {:induction false} RowFromAt(t: int, d: Direction, row: string, k: nat, m: nat, i: nat)
    requires RowFrom(t, d, row, k, m) && k <= i < m
    ensures i < |row| && i < 32 && row[i] == Symbol(Move(t, i as bv5, d) as int)
    decreases i - k
  {
    if k < i {
      RowFromAt(t, d, row, k + 1, m, i);
    }
  }

  // The even-type tables, four entries at a time, by evaluation.

  lemma {:induction false} EvenTop0()
    ensures RowFrom(0, Bottom, TopRow, 0, 4)
  {
  }

  lemma {:induction false} EvenTop4()
    ensures RowFrom(0, Bottom, TopRow, 4, 8)
  {
  }

  lemma {:induction false} EvenTop8()
    ensures RowFrom(0, Bottom, TopRow, 8, 12)
  {
  }

  lemma {:induction false} EvenTop12()
    ensures RowFrom(0, Bottom, TopRow, 12, 16)
  {
  }

  lemma {:induction false} EvenTop16()
    ensures RowFrom(0, Bottom, TopRow, 16, 20)
  {
  }

  lemma {:induction false} EvenTop20()
    ensures RowFrom(0, Bottom, TopRow, 20, 24)
  {
  }

  lemma {:induction false} EvenTop24()
    ensures RowFrom(0, Bottom, TopRow, 24, 28)
  {
  }

  lemma {:induction false} EvenTop28()
    ensures RowFrom(0, Bottom, TopRow, 28, 32)
  {
  }

  lemma {:induction false} EvenRight0()
    ensures RowFrom(0, Left, RightRow, 0, 4)
  {
  }

  lemma {:induction false} EvenRight4()
    ensures RowFrom(0, Left, RightRow, 4, 8)
  {
  }

  lemma {:induction false} EvenRight8()
    ensures RowFrom(0, Left, RightRow, 8, 12)
  {
  }

  lemma {:induction false} EvenRight12()
    ensures RowFrom(0, Left, RightRow, 12, 16)
  {
  }

  lemma {:induction false} EvenRight16()
    ensures RowFrom(0, Left, RightRow, 16, 20)
  {
  }

  lemma {:induction false} EvenRight20()
    ensures RowFrom(0, Left, RightRow, 20, 24)
  {
  }

  lemma {:induction false} EvenRight24()
    ensures RowFrom(0, Left, RightRow, 24, 28)
  {
  }

  lemma {:induction false} EvenRight28()
    ensures RowFrom(0, Left, RightRow, 28, 32)
  {
  }

  lemma {:induction false} EvenBottom0()
    ensures RowFrom(0, Top, BottomRow, 0, 4)
  {
  }

  lemma {:induction false} EvenBottom4()
    ensures RowFrom(0, Top, BottomRow, 4, 8)
  {
  }

  lemma {:induction false} EvenBottom8()
    ensures RowFrom(0, Top, BottomRow, 8, 12)
  {
  }

  lemma {:induction false} EvenBottom12()
    ensures RowFrom(0, Top, BottomRow, 12, 16)
  {
  }

  lemma {:induction false} EvenBottom16()
    ensures RowFrom(0, Top, BottomRow, 16, 20)
  {
  }

  lemma {:induction false} EvenBottom20()
    ensures RowFrom(0, Top, BottomRow, 20, 24)
  {
  }

  lemma {:induction false} EvenBottom24()
    ensures RowFrom(0, Top, BottomRow, 24, 28)
  {
  }

  lemma {:induction false} EvenBottom28()
    ensures RowFrom(0, Top, BottomRow, 28, 32)
  {
  }

  lemma {:induction false} EvenLeft0()
    ensures RowFrom(0, Right, LeftRow, 0, 4)
  {
  }

  lemma {:induction false} EvenLeft4()
    ensures RowFrom(0, Right, LeftRow, 4, 8)
  {
  }

  lemma {:induction false} EvenLeft8()
    ensures RowFrom(0, Right, LeftRow, 8, 12)
  {
  }

  lemma {:induction false} EvenLeft12()
    ensures RowFrom(0, Right, LeftRow, 12, 16)
  {
  }

  lemma {:induction false} EvenLeft16()
    ensures RowFrom(0, Right, LeftRow, 16, 20)
  {
  }

  lemma {:induction false} EvenLeft20()
    ensures RowFrom(0, Right, LeftRow, 20, 24)
  {
  }

  lemma {:induction false} EvenLeft24()
    ensures RowFrom(0, Right, LeftRow, 24, 28)
  {
  }

  lemma {:induction false} EvenLeft28()
    ensures RowFrom(0, Right, LeftRow, 28, 32)
  {
  }

  /** Every entry of the type 0 rows, from the chunks above. */
  lemma {:induction false} EvenRowAt(d: Direction, i: nat)
    requires i < 32
    ensures |Neighbors[0][d.Index()]| == 32
    ensures Neighbors[0][d.Index()][i] == Symbol(Move(0, i as bv5, d.Opposite()) as int)
  {
    match d
    case Top => TopRowAt(i);
    case Right => RightRowAt(i);
    case Bottom => BottomRowAt(i);
    case Left => LeftRowAt(i);
  }

  lemma {:induction false} TopRowAt(i: nat)
    requires i < 32
    ensures |TopRow| == 32 && TopRow[i] == Symbol(Move(0, i as bv5, Bottom) as int)
  {
    if i < 4 {
      EvenTop0();
      RowFromAt(0, Bottom, TopRow, 0, 4, i);
    } else if i < 8 {
      EvenTop4();
      RowFromAt(0, Bottom, TopRow, 4, 8, i);
    } else if i < 12 {
      EvenTop8();
      RowFromAt(0, Bottom, TopRow, 8, 12, i);
    } else if i < 16 {
      EvenTop12();
      RowFromAt(0, Bottom, TopRow, 12, 16, i);
    } else if i < 20 {
      EvenTop16();
      RowFromAt(0, Bottom, TopRow, 16, 20, i);
    } else if i < 24 {
      EvenTop20();
      RowFromAt(0, Bottom, TopRow, 20, 24, i);
    } else if i < 28 {
      EvenTop24();
      RowFromAt(0, Bottom, TopRow, 24, 28, i);
    } else {
      EvenTop28();
      RowFromAt(0, Bottom, TopRow, 28, 32, i);
    }
  }

  lemma {:induction false} RightRowAt(i: nat)
    requires i < 32
    ensures |RightRow| == 32 && RightRow[i] == Symbol(Move(0, i as bv5, Left) as int)
  {
    if i < 4 {
      EvenRight0();
      RowFromAt(0, Left, RightRow, 0, 4, i);
    } else if i < 8 {
      EvenRight4();
      RowFromAt(0, Left, RightRow, 4, 8, i);
    } else if i < 12 {
      EvenRight8();
      RowFromAt(0, Left, RightRow, 8, 12, i);
    } else if i < 16 {
      EvenRight12();
      RowFromAt(0, Left, RightRow, 12, 16, i);
    } else if i < 20 {
      EvenRight16();
      RowFromAt(0, Left, RightRow, 16, 20, i);
    } else if i < 24 {
      EvenRight20();
      RowFromAt(0, Left, RightRow, 20, 24, i);
    } else if i < 28 {
      EvenRight24();
      RowFromAt(0, Left, RightRow, 24, 28, i);
    } else {
      EvenRight28();
      RowFromAt(0, Left, RightRow, 28, 32, i);
    }
  }

  lemma {:induction false} BottomRowAt(i: nat)
    requires i < 32
    ensures |BottomRow| == 32 && BottomRow[i] == Symbol(Move(0, i as bv5, Top) as int)
  {
    if i < 4 {
      EvenBottom0();
      RowFromAt(0, Top, BottomRow, 0, 4, i);
    } else if i < 8 {
      EvenBottom4();
      RowFromAt(0, Top, BottomRow, 4, 8, i);
    } else if i < 12 {
      EvenBottom8();
      RowFromAt(0, Top, BottomRow, 8, 12, i);
    } else if i < 16 {
      EvenBottom12();
      RowFromAt(0, Top, BottomRow, 12, 16, i);
    } else if i < 20 {
      EvenBottom16();
      RowFromAt(0, Top, BottomRow, 16, 20, i);
    } else if i < 24 {
      EvenBottom20();
      RowFromAt(0, Top, BottomRow, 20, 24, i);
    } else if i < 28 {
      EvenBottom24();
      RowFromAt(0, Top, BottomRow, 24, 28, i);
    } else {
      EvenBottom28();
      RowFromAt(0, Top, BottomRow, 28, 32, i);
    }
  }

  lemma {:induction false} LeftRowAt(i: nat)
    requires i < 32
    ensures |LeftRow| == 32 && LeftRow[i] == Symbol(Move(0, i as bv5, Right) as int)
  {
    if i < 4 {
      EvenLeft0();
      RowFromAt(0, Right, LeftRow, 0, 4, i);
    } else if i < 8 {
      EvenLeft4();
      RowFromAt(0, Right, LeftRow, 4, 8, i);
    } else if i < 12 {
      EvenLeft8();
      RowFromAt(0, Right, LeftRow, 8, 12, i);
    } else if i < 16 {
      EvenLeft12();
      RowFromAt(0, Right, LeftRow, 12, 16, i);
    } else if i < 20 {
      EvenLeft16();
      RowFromAt(0, Right, LeftRow, 16, 20, i);
    } else if i < 24 {
      EvenLeft20();
      RowFromAt(0, Right, LeftRow, 20, 24, i);
    } else if i < 28 {
      EvenLeft24();
      RowFromAt(0, Right, LeftRow, 24, 28, i);
    } else {
      EvenLeft28();
      RowFromAt(0, Right, LeftRow, 28, 32, i);
    }
  }

  /**
   * Every row of `Neighbors` agrees with the reference: the character at
   * position i of the row for direction d is the symbol one move from i in
   * the opposite direction.
   */
  lemma {:induction false} NeighborsAt(t: int, d: Direction, i: nat)
    requires (t == 0 || t == 1) && i < 32
    ensures |Neighbors[t][d.Index()]| == 32
    ensures Neighbors[t][d.Index()][i] == Symbol(Move(t, i as bv5, d.Opposite()) as int)
  {
    if t == 0 {
      EvenRowAt(d, i);
    } else {
      OddRowAt(d, i);
    }
  }

  /** The type 1 rows are the type 0 rows of the transposed directions, and agree with the reference. */
  lemma {:induction false} OddRowAt(d: Direction, i: nat)
    requires i < 32
    ensures |Neighbors[1][d.Index()]| == 32
    ensures Neighbors[1][d.Index()][i] == Symbol(Move(1, i as bv5, d.Opposite()) as int)
  {
    assert Neighbors[1][d.Index()] == Neighbors[0][d.Transposed().Index()];
    EvenRowAt(d.Transposed(), i);
    Transpose(i as bv5, d.Opposite());
  }


  /** Entries `k` onwards of `row` are, in order, the symbols along edge `d` of the grid of type `t`. */
  predicate BorderFrom(t: int, d: Direction, row: string, k: nat)
    decreases |row| - k
  {
    k >= |row| || (k < 32 && row[k] == Symbol(Edge(t, d, k as bv5) as int) && BorderFrom(t, d, row, k + 1))
  }

  lemma {:induction false} BorderFromAt(t: int, d: Direction, row: string, k: nat, i: nat)
    requires BorderFrom(t, d, row, k) && k <= i < |row|
    ensures i < 32 && row[i] == Symbol(Edge(t, d, i as bv5) as int)
    decreases i - k
  {
    if k < i {
      BorderFromAt(t, d, row, k + 1, i);
    }
  }

  /** The type 0 borders, by evaluation. */
  lemma {:induction false} EvenBorders()
    ensures |TopBorder| == 4 && BorderFrom(0, Top, TopBorder, 0)
    ensures |RightBorder| == 8 && BorderFrom(0, Right, RightBorder, 0)
    ensures |BottomBorder| == 4 && BorderFrom(0, Bottom, BottomBorder, 0)
    ensures |LeftBorder| == 8 && BorderFrom(0, Left, LeftBorder, 0)
  {
  }

  /** Every row of `Borders` lists the edge that its direction points at, in order along the edge. */
  lemma {:induction false} BordersAt(t: int, d: Direction, k: nat)
    requires t == 0 || t == 1
    ensures |Borders[t][d.Index()]| == EdgeLength(t, d)
    ensures k < EdgeLength(t, d) ==> Borders[t][d.Index()][k] == Symbol(Edge(t, d, k as bv5) as int)
  {
    EvenBorders();
    var d0 := if t == 0 then d else d.Transposed();
    var row := Borders[t][d.Index()];
    assert row == Borders[0][d0.Index()];
    if k < |row| {
      match d0
      case Top => BorderFromAt(0, Top, TopBorder, 0, k);
      case Right => BorderFromAt(0, Right, RightBorder, 0, k);
      case Bottom => BorderFromAt(0, Bottom, BottomBorder, 0, k);
      case Left => BorderFromAt(0, Left, LeftBorder, 0, k);
      assert Edge(t, d, k as bv5) == Edge(0, d0, k as bv5);
    }
  }

  /** `row` is a row of `Neighbors` as the reference describes it. */
  predicate IsNeighborRow(t: int, d: Direction, row: string) {
    |row| == 32 && forall i :: 0 <= i < 32 ==> row[i] == Symbol(Move(t, i as bv5, d.Opposite()) as int)
  }

  /** `row` is a row of `Borders` as the reference describes it. */
  predicate IsBorderRow(t: int, d: Direction, row: string) {
    |row| == EdgeLength(t, d) && forall k :: 0 <= k < |row| ==> row[k] == Symbol(Edge(t, d, k as bv5) as int)
  }

  lemma {:induction false} NeighborsRow(t: int, d: Direction)
    requires t == 0 || t == 1
    ensures IsNeighborRow(t, d, Neighbors[t][d.Index()])
  {
    NeighborsAt(t, d, 0);
    forall i | 0 <= i < 32
      ensures Neighbors[t][d.Index()][i] == Symbol(Move(t, i as bv5, d.Opposite()) as int)
    {
      NeighborsAt(t, d, i);
    }
  }

  lemma {:induction false} BordersRow(t: int, d: Direction)
    requires t == 0 || t == 1
    ensures IsBorderRow(t, d, Borders[t][d.Index()])
  {
    BordersAt(t, d, 0);
    forall k | 0 <= k < |Borders[t][d.Index()]|
      ensures Borders[t][d.Index()][k] == Symbol(Edge(t, d, k as bv5) as int)
    {
      BordersAt(t, d, k);
    }
  }

  /** A value below 32 survives the round trip through five bits. */
  lemma {:induction false} FiveBits(i: int)
    requires 0 <= i < 32
    ensures (i as bv5) as int == i
  {
  }

  /** Distinct positions of a row hold symbols of distinct values. */
  lemma {:induction false} RowEntriesDiffer(t: int, d: Direction, i: int, j: int)
    requires 0 <= i < j < 32
    ensures Move(t, i as bv5, d) != Move(t, j as bv5, d)
  {
    FiveBits(i);
    FiveBits(j);
    MoveBack(t, i as bv5, d);
    MoveBack(t, j as bv5, d);
  }

  /** No character occurs twice in a row of `Neighbors`. */
  lemma {:induction false} NeighborRowDistinct(t: int, d: Direction, row: string)
    requires IsNeighborRow(t, d, row)
    ensures Distinct(row)
  {
    forall i, j | 0 <= i < j < |row|
      ensures row[i] != row[j]
    {
      var a, b := Move(t, i as bv5, d.Opposite()), Move(t, j as bv5, d.Opposite());
      RowEntriesDiffer(t, d.Opposite(), i, j);
      SymbolValue(a as int, ' ');
      SymbolValue(b as int, ' ');
    }
  }

  /** A row of `Neighbors` maps each character of the alphabet to the value of its neighbour. */
  lemma {:induction false} NeighborRowIndex(t: int, d: Direction, row: string, c: char)
    requires IsNeighborRow(t, d, row)
    ensures IndexOf(row, c) == if ValueOf(c) == -1 then -1 else Move(t, ValueOf(c) as bv5, d) as int
  {
    IndexOfSpec(row, c);
    if ValueOf(c) == -1 {
      forall i | 0 <= i < |row|
        ensures row[i] != c
      {
        SymbolValue(Move(t, i as bv5, d.Opposite()) as int, ' ');
      }
    } else {
      var v := ValueOf(c) as bv5;
      var k := Move(t, v, d) as int;
      MoveBack(t, v, d);
      FiveBits(ValueOf(c));
      SymbolValue(0, c);
      assert row[k] == c;
      NeighborRowDistinct(t, d, row);
      IndexOfDistinct(row, k);
    }
  }

  /**
   * The table lookup of CalculateAdjacent, `Neighbors[type][dir].IndexOf(c)`,
   * finds the value of the neighbour of `c` in direction `dir`, and finds
   * nothing for a character outside the alphabet.
   */
  lemma {:induction false} NeighborIndex(t: int, d: Direction, c: char)
    requires t == 0 || t == 1
    ensures IndexOf(NeighborRow(t, d), c) == if ValueOf(c) == -1 then -1 else Move(t, ValueOf(c) as bv5, d) as int
  {
    NeighborsRow(t, d);
    NeighborRowIndex(t, d, NeighborRow(t, d), c);
  }

  /** A row of `Borders` holds exactly the characters whose move wraps. */
  lemma {:induction false} BorderRowMember(t: int, d: Direction, row: string, c: char)
    requires IsBorderRow(t, d, row) && (t == 0 || t == 1)
    ensures IndexOf(row, c) != -1 <==> ValueOf(c) != -1 && Wraps(t, ValueOf(c) as bv5, d)
  {
    IndexOfSpec(row, c);
    var k := IndexOf(row, c);
    if k != -1 {
      EdgeWraps(t, 0, d, k as bv5);
      FiveBits(k);
      SymbolValue(Edge(t, d, k as bv5) as int, ' ');
    }
    if ValueOf(c) != -1 && Wraps(t, ValueOf(c) as bv5, d) {
      var v := ValueOf(c) as bv5;
      EdgeWraps(t, v, d, 0);
      var j := Along(t, v, d) as int;
      FiveBits(ValueOf(c));
      SymbolValue(0, c);
      assert row[j] == c;
    }
  }

  /**
   * The border test of CalculateAdjacent, `Borders[type][dir].IndexOf(c) != -1`,
   * holds exactly for the characters of the alphabet whose move in
   * direction `dir` wraps round the grid.
   */
  lemma {:induction false} BorderMember(t: int, d: Direction, c: char)
    requires t == 0 || t == 1
    ensures IndexOf(BorderRow(t, d), c) != -1 <==> ValueOf(c) != -1 && Wraps(t, ValueOf(c) as bv5, d)
  {
    BordersRow(t, d);
    BorderRowMember(t, d, BorderRow(t, d), c);
  }
}
