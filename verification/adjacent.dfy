/**
 * CalculateAdjacent: the hash of the cell next to a hash's cell, of the same
 * length, found by the table lookups of `Geohash.CalculateAdjacent`. The reference is the
 * cell's position in the grid of all cells of that length. Moving one step
 * changes the row or the column by one, and the hash ceases to exist off the
 * edge of the world.
 */
module Adjacency {
  import opened Wrappers
  import opened Alphabet
  import opened Neighbours
  import opened Codec

  /**
   * What makes CalculateAdjacent throw. EmptyHash is `hash[hash.Length - 1]`
   * on an empty string. That includes the recursion running out of
   * characters, which happens when the move leaves the world. UnknownCharacter
   * is `Base32[-1]`: the last character is in no row of the table.
   */
  datatype AdjacentError = EmptyHash | UnknownCharacter

  /**
   * CalculateAdjacent as written. It lower-cases the hash. If the last
   * character lies on the border the direction points at, it moves the
   * prefix first. Then it replaces the last character by its neighbour
   * from the table.
   */
  function Adjacent(hash: string, direction: Direction): (r: Result<string, AdjacentError>)
    ensures r.Ok? ==> |r.value| == |hash|
    decreases |hash|
  {
    var h := ToLower(hash);
    if |h| == 0 then Err(EmptyHash)
    else
      var lastChr := h[|h| - 1];
      var t := |h| % 2;
      var nHash := h[..|h| - 1];
      var prefix :- if IndexOf(BorderRow(t, direction), lastChr) != -1 then Adjacent(nHash, direction) else Ok(nHash);
      var i := IndexOf(NeighborRow(t, direction), lastChr);
      if i == -1 then Err(UnknownCharacter) else Ok(prefix + [Base32[i]])
  }

  // ------------------------------------------------------------ the grid

  /** 2 to the power `e`. */
  function Cells(e: nat): (r: nat)
    ensures r >= 1
  {
    if e == 0 then 1 else 2 * Cells(e - 1)
  }

  /** The number of latitude bits in a hash of `n` characters. */
  function LatBits(n: nat): nat {
    5 * n / 2
  }

  /** The number of longitude bits in a hash of `n` characters. */
  function LonBits(n: nat): nat {
    (5 * n + 1) / 2
  }

  /** The number of latitude and longitude parts of the last symbol of a hash of type `t`. */
  function LatCount(t: int): (r: int)
    ensures r == LatEdge(t) as int + 1
  {
    if t == 0 then 8 else 4
  }

  function LonCount(t: int): (r: int)
    ensures r == LonEdge(t) as int + 1
  {
    if t == 0 then 4 else 8
  }

  /** The row of a hash's cell among the cells of its length, counted from the south. */
  function Row(h: string): int
    requires ValidHash(h)
  {
    if |h| == 0 then 0
    else Row(h[..|h| - 1]) * LatCount(|h| % 2) + LatPart(|h| % 2, ValueOf(h[|h| - 1]) as bv5) as int
  }

  /** The column of a hash's cell among the cells of its length, counted from the west. */
  function Column(h: string): int
    requires ValidHash(h)
  {
    if |h| == 0 then 0
    else Column(h[..|h| - 1]) * LonCount(|h| % 2) + LonPart(|h| % 2, ValueOf(h[|h| - 1]) as bv5) as int
  }

  /** Whether a row and a column name a cell of the grid of `n`-character hashes. */
  predicate InGrid(n: nat, row: int, column: int) {
    0 <= row < Cells(LatBits(n)) && 0 <= column < Cells(LonBits(n))
  }

  /** One more character multiplies the rows and the columns by the parts of its last symbol. */
  lemma {:induction false} CellsStep(n: nat)
    requires n >= 1
    ensures Cells(LatBits(n)) == Cells(LatBits(n - 1)) * LatCount(n % 2)
    ensures Cells(LonBits(n)) == Cells(LonBits(n - 1)) * LonCount(n % 2)
  {
    BitsStep(n);
    CellsPlus(LatBits(n - 1));
    CellsPlus(LonBits(n - 1));
  }

  /** An even-length hash ends with three latitude bits and two longitude bits; an odd one the other way round. */
  lemma {:induction false} BitsStep(n: nat)
    requires n >= 1
    ensures n % 2 == 0 ==> LatBits(n) == LatBits(n - 1) + 3 && LonBits(n) == LonBits(n - 1) + 2
    ensures n % 2 == 1 ==> LatBits(n) == LatBits(n - 1) + 2 && LonBits(n) == LonBits(n - 1) + 3
  {
    var q := n / 2;
    if n % 2 == 0 {
      DivUnique(5 * n, 2, 5 * q, 0);
      DivUnique(5 * n + 1, 2, 5 * q, 1);
      DivUnique(5 * (n - 1), 2, 5 * q - 3, 1);
      DivUnique(5 * (n - 1) + 1, 2, 5 * q - 2, 0);
    } else {
      DivUnique(5 * n, 2, 5 * q + 2, 1);
      DivUnique(5 * n + 1, 2, 5 * q + 3, 0);
      DivUnique(5 * (n - 1), 2, 5 * q, 0);
      DivUnique(5 * (n - 1) + 1, 2, 5 * q, 1);
    }
  }

  lemma {:induction false} CellsPlus(e: nat)
    ensures Cells(e + 2) == 4 * Cells(e) && Cells(e + 3) == 8 * Cells(e)
  {
    assert Cells(e + 1) == 2 * Cells(e);
    assert Cells(e + 2) == 2 * Cells(e + 1);
    assert Cells(e + 3) == 2 * Cells(e + 2);
  }

  /** Every valid hash names a cell of the grid of its length. */
  lemma {:induction false} GridBounds(h: string)
    requires ValidHash(h)
    ensures InGrid(|h|, Row(h), Column(h))
    decreases |h|
  {
    if |h| > 0 {
      var n, t := |h|, |h| % 2;
      var v := ValueOf(h[n - 1]) as bv5;
      GridBounds(h[..n - 1]);
      CellsStep(n);
      PackParts(t, v, 0, 0);
      DigitBelow(Row(h[..n - 1]), Cells(LatBits(n - 1)), LatPart(t, v) as int, LatCount(t));
      DigitBelow(Column(h[..n - 1]), Cells(LonBits(n - 1)), LonPart(t, v) as int, LonCount(t));
    }
  }

  /** A number written with a last digit in base `c` stays below the bound times `c`. */
  lemma {:induction false} DigitBelow(x: int, bound: int, a: int, c: int)
    requires c == 4 || c == 8
    requires 0 <= x < bound && 0 <= a < c
    ensures 0 <= x * c + a < bound * c
  {
  }

  /**
   * One coordinate of a move, digit by digit. The prefix `x` is among
   * `bound` values, and the last digit is `a` in base `c`. The move steps
   * the number by `delta` and replaces the last digit by its shifted value.
   * If the step stays within the digit, the prefix keeps its value and the
   * result is in range. If it wraps, the prefix itself moves by `delta`, and
   * the result is in range exactly when the moved prefix is.
   */
  lemma {:induction false} AxisStep(x: int, bound: int, a: int, c: int, delta: int)
    requires c == 4 || c == 8
    requires 0 <= x < bound && 0 <= a < c && -1 <= delta <= 1
    ensures 0 <= a + delta < c ==>
      0 <= x * c + a + delta < bound * c && x * c + Shift(a, c - 1, delta) == x * c + a + delta
    ensures !(0 <= a + delta < c) ==>
      ((0 <= x * c + a + delta < bound * c) <==> (0 <= x + delta < bound))
      && (x + delta) * c + Shift(a, c - 1, delta) == x * c + a + delta
  {
    if 0 <= a + delta < c {
      DigitBelow(x, bound, a + delta, c);
    } else if a + delta < 0 {
      assert (x - 1) * c + c - 1 == x * c - 1;
      if x >= 1 {
        DigitBelow(x - 1, bound, c - 1, c);
      }
    } else {
      assert (x + 1) * c == x * c + c;
      if x + 1 < bound {
        DigitBelow(x + 1, bound, 0, c);
      } else {
        assert (x + 1) * c >= bound * c;
      }
    }
  }

  /** A valid hash is already lower case. */
  lemma {:induction false} LowerValid(h: string)
    requires ValidHash(h)
    ensures ToLower(h) == h
  {
  }

  /** The symbol of a value read back gives the value. */
  lemma {:induction false} SymbolOfMove(m: bv5)
    ensures ValueOf(Symbol(m as int)) == m as int
    ensures (ValueOf(Symbol(m as int)) as bv5) == m
  {
    SymbolValue(m as int, ' ');
  }

  /** A valid hash extended by a symbol: the row and column gain that symbol's parts as their last digit. */
  lemma {:induction false} GridAppend(q: string, c: char)
    requires ValidHash(q) && ValueOf(c) != -1
    ensures ValidHash(q + [c])
    ensures var t := (|q| + 1) % 2;
      Row(q + [c]) == Row(q) * LatCount(t) + LatPart(t, ValueOf(c) as bv5) as int
      && Column(q + [c]) == Column(q) * LonCount(t) + LonPart(t, ValueOf(c) as bv5) as int
  {
    assert (q + [c])[..|q|] == q;
  }

  /** GridAppend for the symbol of a value. */
  lemma {:induction false} AppendValue(q: string, m: bv5)
    requires ValidHash(q)
    ensures ValidHash(q + [Symbol(m as int)])
    ensures var t := (|q| + 1) % 2;
      Row(q + [Symbol(m as int)]) == Row(q) * LatCount(t) + LatPart(t, m) as int
      && Column(q + [Symbol(m as int)]) == Column(q) * LonCount(t) + LonPart(t, m) as int
  {
    SymbolOfMove(m);
    GridAppend(q, Symbol(m as int));
  }

  /**
   * CalculateAdjacent without its tables, on a valid hash. The prefix moves
   * exactly when the last symbol's move wraps. The last symbol becomes the
   * symbol one move away.
   */
  lemma {:induction false} AdjacentUnfold(h: string, d: Direction)
    requires ValidHash(h) && |h| > 0
    ensures var n := |h|;
      var t := n % 2;
      var prefix := if IndexOf(BorderRow(t, d), h[n - 1]) != -1 then Adjacent(h[..n - 1], d) else Ok(h[..n - 1]);
      var i := IndexOf(NeighborRow(t, d), h[n - 1]);
      Adjacent(h, d) == if prefix.Err? then Err(prefix.error) else if i == -1 then Err(UnknownCharacter) else Ok(prefix.value + [Base32[i]])
  {
    LowerValid(h);
  }

  lemma {:induction false} AdjacentLast(h: string, d: Direction)
    requires ValidHash(h) && |h| > 0
    ensures var n := |h|;
      var t := n % 2;
      var v := ValueOf(h[n - 1]) as bv5;
      !Wraps(t, v, d) ==> Adjacent(h, d) == Ok(h[..n - 1] + [Symbol(Move(t, v, d) as int)])
    ensures var n := |h|;
      var t := n % 2;
      var v := ValueOf(h[n - 1]) as bv5;
      var prefix := Adjacent(h[..n - 1], d);
      Wraps(t, v, d) ==>
        Adjacent(h, d) == if prefix.Err? then Err(prefix.error) else Ok(prefix.value + [Symbol(Move(t, v, d) as int)])
  {
    if Wraps(|h| % 2, ValueOf(h[|h| - 1]) as bv5, d) {
      AdjacentAcross(h, d);
    } else {
      AdjacentInside(h, d);
    }
  }

  /** The entry of the last character of a valid hash in the neighbour row is the symbol of its move. */
  lemma {:induction false} LastNeighbour(h: string, d: Direction)
    requires ValidHash(h) && |h| > 0
    ensures var t := |h| % 2;
      var m := Move(t, ValueOf(h[|h| - 1]) as bv5, d) as int;
      IndexOf(NeighborRow(t, d), h[|h| - 1]) == m && Base32[m] == Symbol(m)
  {
    var t := |h| % 2;
    var c := h[|h| - 1];
    NeighborIndex(t, d, c);
    SymbolIsBase32(Move(t, ValueOf(c) as bv5, d) as int);
  }

  /** The last character of a valid hash is in the border row exactly when its move wraps. */
  lemma {:induction false} LastBorder(h: string, d: Direction)
    requires ValidHash(h) && |h| > 0
    ensures Wraps(|h| % 2, ValueOf(h[|h| - 1]) as bv5, d) ==> IndexOf(BorderRow(|h| % 2, d), h[|h| - 1]) != -1
    ensures !Wraps(|h| % 2, ValueOf(h[|h| - 1]) as bv5, d) ==> IndexOf(BorderRow(|h| % 2, d), h[|h| - 1]) == -1
  {
    var c := h[|h| - 1];
    assert ValueOf(c) != -1;
    BorderMember(|h| % 2, d, c);
  }

  /** The unfolding of Adjacent when the last character is off the border. */
  lemma {:induction false} UnfoldInside(h: string, d: Direction)
    requires ValidHash(h) && |h| > 0 && IndexOf(BorderRow(|h| % 2, d), h[|h| - 1]) == -1
    requires var t := |h| % 2;
      var m := Move(t, ValueOf(h[|h| - 1]) as bv5, d) as int;
      IndexOf(NeighborRow(t, d), h[|h| - 1]) == m && Base32[m] == Symbol(m)
    ensures Adjacent(h, d) == Ok(h[..|h| - 1] + [Symbol(Move(|h| % 2, ValueOf(h[|h| - 1]) as bv5, d) as int)])
  {
    AdjacentUnfold(h, d);
  }

  /** The unfolding of Adjacent when the last character is on the border. */
  lemma {:induction false} UnfoldAcross(h: string, d: Direction)
    requires ValidHash(h) && |h| > 0 && IndexOf(BorderRow(|h| % 2, d), h[|h| - 1]) != -1
    requires var t := |h| % 2;
      var m := Move(t, ValueOf(h[|h| - 1]) as bv5, d) as int;
      IndexOf(NeighborRow(t, d), h[|h| - 1]) == m && Base32[m] == Symbol(m)
    ensures var prefix := Adjacent(h[..|h| - 1], d);
      Adjacent(h, d) == if prefix.Err? then Err(prefix.error)
        else Ok(prefix.value + [Symbol(Move(|h| % 2, ValueOf(h[|h| - 1]) as bv5, d) as int)])
  {
    AdjacentUnfold(h, d);
  }

  /** AdjacentLast when the last symbol's move stays within its grid. */
  lemma {:induction false} AdjacentInside(h: string, d: Direction)
    requires ValidHash(h) && |h| > 0 && !Wraps(|h| % 2, ValueOf(h[|h| - 1]) as bv5, d)
    ensures Adjacent(h, d) == Ok(h[..|h| - 1] + [Symbol(Move(|h| % 2, ValueOf(h[|h| - 1]) as bv5, d) as int)])
  {
    LastNeighbour(h, d);
    LastBorder(h, d);
    UnfoldInside(h, d);
  }

  /** AdjacentLast when the last symbol's move wraps. */
  lemma {:induction false} AdjacentAcross(h: string, d: Direction)
    requires ValidHash(h) && |h| > 0 && Wraps(|h| % 2, ValueOf(h[|h| - 1]) as bv5, d)
    ensures var prefix := Adjacent(h[..|h| - 1], d);
      Adjacent(h, d) == if prefix.Err? then Err(prefix.error)
        else Ok(prefix.value + [Symbol(Move(|h| % 2, ValueOf(h[|h| - 1]) as bv5, d) as int)])
  {
    LastNeighbour(h, d);
    LastBorder(h, d);
    UnfoldAcross(h, d);
  }

  /**
   * The move in terms of the grid. The neighbour exists exactly when the
   * neighbouring row and column are still in the grid. Then it is a valid
   * hash of the same length whose cell is one step away in the direction.
   * Otherwise the move falls off the edge of the world, and the only error
   * is the recursion running out of characters.
   */
  predicate MovesOneCell(h: string, d: Direction)
    requires ValidHash(h) && |h| > 0
  {
    var r := Adjacent(h, d);
    (r.Ok? ==> InGrid(|h|, Row(h) + LatDelta(d), Column(h) + LonDelta(d)))
    && (InGrid(|h|, Row(h) + LatDelta(d), Column(h) + LonDelta(d)) ==> r.Ok?)
    && (r.Ok? ==>
          ValidHash(r.value) && |r.value| == |h|
          && Row(r.value) == Row(h) + LatDelta(d) && Column(r.value) == Column(h) + LonDelta(d))
    && (r.Err? ==> r.error == EmptyHash)
  }

  /** CalculateAdjacent moves a valid hash one cell, or reports that it left the world. */
  lemma {:induction false} AdjacentCell(h: string, d: Direction)
    requires ValidHash(h) && |h| > 0
    ensures Adjacent(h, d).Ok? ==> InGrid(|h|, Row(h) + LatDelta(d), Column(h) + LonDelta(d))
    ensures InGrid(|h|, Row(h) + LatDelta(d), Column(h) + LonDelta(d)) ==> Adjacent(h, d).Ok?
    ensures Adjacent(h, d).Ok? ==>
      ValidHash(Adjacent(h, d).value) && |Adjacent(h, d).value| == |h|
      && Row(Adjacent(h, d).value) == Row(h) + LatDelta(d) && Column(Adjacent(h, d).value) == Column(h) + LonDelta(d)
    ensures Adjacent(h, d).Err? ==> Adjacent(h, d).error == EmptyHash
  {
    CellMove(h, d);
  }

  /** The induction behind AdjacentCell, on the length of the hash. */
  lemma {:induction false} CellMove(h: string, d: Direction)
    requires ValidHash(h) && |h| > 0
    ensures MovesOneCell(h, d)
    decreases |h|
  {
    var n := |h|;
    if !Wraps(n % 2, ValueOf(h[n - 1]) as bv5, d) {
      StepInside(h, d);
    } else if n == 1 {
      StepOffWorld(h, d);
    } else {
      CellMove(h[..n - 1], d);
      StepAcross(h, d);
    }
  }

  /** A valid hash is its prefix's cell refined by the parts of its last symbol. */
  lemma {:induction false} PrefixFacts(h: string)
    requires ValidHash(h) && |h| > 0
    ensures var n := |h|;
      var t := n % 2;
      var p := h[..n - 1];
      var v := ValueOf(h[n - 1]) as bv5;
      ValidHash(p) && InGrid(n - 1, Row(p), Column(p))
      && Row(h) == Row(p) * LatCount(t) + LatPart(t, v) as int
      && Column(h) == Column(p) * LonCount(t) + LonPart(t, v) as int
      && Cells(LatBits(n)) == Cells(LatBits(n - 1)) * LatCount(t)
      && Cells(LonBits(n)) == Cells(LonBits(n - 1)) * LonCount(t)
  {
    GridBounds(h[..|h| - 1]);
    CellsStep(|h|);
  }

  /** The move of one symbol, as digits: each part steps by the direction's delta and wraps at the edge. */
  lemma {:induction false} SymbolFacts(t: int, v: bv5, d: Direction)
    requires t == 0 || t == 1
    ensures var m := Move(t, v, d);
      ValueOf(Symbol(m as int)) != -1 && ValueOf(Symbol(m as int)) as bv5 == m
      && 0 <= LatPart(t, v) as int < LatCount(t) && 0 <= LonPart(t, v) as int < LonCount(t)
      && LatPart(t, m) as int == Shift(LatPart(t, v) as int, LatCount(t) - 1, LatDelta(d))
      && LonPart(t, m) as int == Shift(LonPart(t, v) as int, LonCount(t) - 1, LonDelta(d))
      && (Wraps(t, v, d) <==> !(0 <= LatPart(t, v) as int + LatDelta(d) < LatCount(t)
                                && 0 <= LonPart(t, v) as int + LonDelta(d) < LonCount(t)))
  {
    PackParts(t, v, 0, 0);
    MoveParts(t, v, d);
    WrapsOutside(t, v, d);
    SymbolOfMove(Move(t, v, d));
  }

  /** One coordinate of a move, as plain numbers: the new row is the old one moved by `delta`. */
  lemma {:induction false} AxisAssemble(x: int, bound: int, a: int, c: int, delta: int, x2: int, whole: int, moved: int)
    requires c == 4 || c == 8
    requires 0 <= x < bound && 0 <= a < c && -1 <= delta <= 1
    requires whole == x * c + a
    requires 0 <= a + delta < c ==> x2 == x
    requires !(0 <= a + delta < c) ==> x2 == x + delta
    requires moved == x2 * c + Shift(a, c - 1, delta)
    ensures moved == whole + delta
  {
    AxisStep(x, bound, a, c, delta);
  }

  /** Every direction moves along one axis only. */
  lemma {:induction false} OneAxis(d: Direction)
    ensures (LatDelta(d) == 0) != (LonDelta(d) == 0)
    ensures -1 <= LatDelta(d) <= 1 && -1 <= LonDelta(d) <= 1
  {
  }

  /**
   * The row of a hash moved along a direction stays in the grid exactly when
   * the last symbol's move does not wrap, or the prefix's row moved the same
   * way stays in the grid of the shorter hashes.
   */
  lemma {:induction false} RowBound(h: string, d: Direction)
    requires ValidHash(h) && |h| > 0
    ensures var n := |h|;
      (0 <= Row(h) + LatDelta(d) < Cells(LatBits(n))) ==>
        (!Wraps(n % 2, ValueOf(h[n - 1]) as bv5, d) || 0 <= Row(h[..n - 1]) + LatDelta(d) < Cells(LatBits(n - 1)))
    ensures var n := |h|;
      (!Wraps(n % 2, ValueOf(h[n - 1]) as bv5, d) || 0 <= Row(h[..n - 1]) + LatDelta(d) < Cells(LatBits(n - 1))) ==>
        (0 <= Row(h) + LatDelta(d) < Cells(LatBits(n)))
  {
    var n := |h|;
    var t := n % 2;
    var v := ValueOf(h[n - 1]) as bv5;
    var x, bound, a, c := Row(h[..n - 1]), Cells(LatBits(n - 1)), LatPart(t, v) as int, LatCount(t);
    assert (c == 4 || c == 8) && 0 <= a < c by {
      SymbolFacts(t, v, d);
    }
    assert 0 <= x < bound && Row(h) == x * c + a && Cells(LatBits(n)) == bound * c by {
      PrefixFacts(h);
    }
    WrapsAlong(t, v, d);
    OneAxis(d);
    AxisStep(x, bound, a, c, LatDelta(d));
  }


  /** The column counterpart of RowBound. */
  lemma {:induction false} ColumnBound(h: string, d: Direction)
    requires ValidHash(h) && |h| > 0
    ensures var n := |h|;
      (0 <= Column(h) + LonDelta(d) < Cells(LonBits(n))) ==>
        (!Wraps(n % 2, ValueOf(h[n - 1]) as bv5, d) || 0 <= Column(h[..n - 1]) + LonDelta(d) < Cells(LonBits(n - 1)))
    ensures var n := |h|;
      (!Wraps(n % 2, ValueOf(h[n - 1]) as bv5, d) || 0 <= Column(h[..n - 1]) + LonDelta(d) < Cells(LonBits(n - 1))) ==>
        (0 <= Column(h) + LonDelta(d) < Cells(LonBits(n)))
  {
    var n := |h|;
    var t := n % 2;
    var v := ValueOf(h[n - 1]) as bv5;
    var x, bound, a, c := Column(h[..n - 1]), Cells(LonBits(n - 1)), LonPart(t, v) as int, LonCount(t);
    assert (c == 4 || c == 8) && 0 <= a < c by {
      SymbolFacts(t, v, d);
    }
    assert 0 <= x < bound && Column(h) == x * c + a && Cells(LonBits(n)) == bound * c by {
      PrefixFacts(h);
    }
    WrapsAlong(t, v, d);
    OneAxis(d);
    AxisStep(x, bound, a, c, LonDelta(d));
  }


  /** The hash `h` with its last symbol moved, after the prefix `q`. */
  function Moved(h: string, d: Direction, q: string): (r: string)
    requires ValidHash(h) && |h| > 0
    ensures |r| == |q| + 1
  {
    q + [Symbol(Move(|h| % 2, ValueOf(h[|h| - 1]) as bv5, d) as int)]
  }

  /** The row of a valid hash as digits: its prefix's row followed by the latitude part of its last symbol. */
  lemma {:induction false} RowOfHash(h: string)
    requires ValidHash(h) && |h| > 0
    ensures var n := |h|;
      var t := n % 2;
      var a := LatPart(t, ValueOf(h[n - 1]) as bv5) as int;
      var c := LatCount(t);
      (c == 4 || c == 8) && 0 <= a < c
      && 0 <= Row(h[..n - 1]) < Cells(LatBits(n - 1)) && Row(h) == Row(h[..n - 1]) * c + a
  {
    var n := |h|;
    PackParts(n % 2, ValueOf(h[n - 1]) as bv5, 0, 0);
    GridBounds(h[..n - 1]);
  }

  /**
   * The row of the moved hash as digits: the prefix `q` followed by the
   * latitude part of the moved symbol, which is the old part shifted by the
   * direction's step.
   */
  lemma {:induction false} RowOfMoved(h: string, d: Direction, q: string)
    requires ValidHash(h) && |h| > 0 && ValidHash(q) && |q| == |h| - 1
    ensures var n := |h|;
      var t := n % 2;
      var a := LatPart(t, ValueOf(h[n - 1]) as bv5) as int;
      ValidHash(Moved(h, d, q)) && Row(Moved(h, d, q)) == Row(q) * LatCount(t) + Shift(a, LatCount(t) - 1, LatDelta(d))
  {
    var n := |h|;
    var t := n % 2;
    var v := ValueOf(h[n - 1]) as bv5;
    var m := Move(t, v, d);
    assert LatPart(t, m) as int == Shift(LatPart(t, v) as int, LatCount(t) - 1, LatDelta(d)) by {
      MoveParts(t, v, d);
    }
    assert (|q| + 1) % 2 == t;
    AppendValue(q, m);
  }

  /** The column of a valid hash as digits: its prefix's column followed by the longitude part of its last symbol. */
  lemma {:induction false} ColumnOfHash(h: string)
    requires ValidHash(h) && |h| > 0
    ensures var n := |h|;
      var t := n % 2;
      var a := LonPart(t, ValueOf(h[n - 1]) as bv5) as int;
      var c := LonCount(t);
      (c == 4 || c == 8) && 0 <= a < c
      && 0 <= Column(h[..n - 1]) < Cells(LonBits(n - 1)) && Column(h) == Column(h[..n - 1]) * c + a
  {
    var n := |h|;
    PackParts(n % 2, ValueOf(h[n - 1]) as bv5, 0, 0);
    GridBounds(h[..n - 1]);
  }

  /**
   * The column of the moved hash as digits: the prefix `q` followed by the
   * longitude part of the moved symbol, which is the old part shifted by the
   * direction's step.
   */
  lemma {:induction false} ColumnOfMoved(h: string, d: Direction, q: string)
    requires ValidHash(h) && |h| > 0 && ValidHash(q) && |q| == |h| - 1
    ensures var n := |h|;
      var t := n % 2;
      var a := LonPart(t, ValueOf(h[n - 1]) as bv5) as int;
      ValidHash(Moved(h, d, q)) && Column(Moved(h, d, q)) == Column(q) * LonCount(t) + Shift(a, LonCount(t) - 1, LonDelta(d))
  {
    var n := |h|;
    var t := n % 2;
    var v := ValueOf(h[n - 1]) as bv5;
    var m := Move(t, v, d);
    assert LonPart(t, m) as int == Shift(LonPart(t, v) as int, LonCount(t) - 1, LonDelta(d)) by {
      MoveParts(t, v, d);
    }
    assert (|q| + 1) % 2 == t;
    AppendValue(q, m);
  }

  /**
   * Whether the last symbol's move wraps, read off one axis: it wraps along
   * the axis that moves when that axis's part leaves its range.
   */
  lemma {:induction false} WrapsAlong(t: int, v: bv5, d: Direction)
    requires t == 0 || t == 1
    ensures LatDelta(d) != 0 ==> (Wraps(t, v, d) <==> !(0 <= LatPart(t, v) as int + LatDelta(d) < LatCount(t)))
    ensures LonDelta(d) != 0 ==> (Wraps(t, v, d) <==> !(0 <= LonPart(t, v) as int + LonDelta(d) < LonCount(t)))
    ensures LatDelta(d) == 0 ==> 0 <= LatPart(t, v) as int + LatDelta(d) < LatCount(t)
    ensures LonDelta(d) == 0 ==> 0 <= LonPart(t, v) as int + LonDelta(d) < LonCount(t)
  {
    SymbolFacts(t, v, d);
  }

  /**
   * The row of the moved hash: when the prefix has moved as the wrap
   * demands, the last symbol's move completes a move of one row.
   */
  lemma {:induction false} RowAppend(h: string, d: Direction, q: string)
    requires ValidHash(h) && |h| > 0 && ValidHash(q) && |q| == |h| - 1
    requires Row(q) == Row(h[..|h| - 1]) + if Wraps(|h| % 2, ValueOf(h[|h| - 1]) as bv5, d) then LatDelta(d) else 0
    ensures ValidHash(Moved(h, d, q))
    ensures Row(Moved(h, d, q)) == Row(h) + LatDelta(d)
  {
    var n := |h|;
    var t := n % 2;
    var v := ValueOf(h[n - 1]) as bv5;
    var x, a, c, delta := Row(h[..n - 1]), LatPart(t, v) as int, LatCount(t), LatDelta(d);
    assert (c == 4 || c == 8) && 0 <= a < c && 0 <= x < Cells(LatBits(n - 1)) && Row(h) == x * c + a by {
      RowOfHash(h);
    }
    assert ValidHash(Moved(h, d, q)) && Row(Moved(h, d, q)) == Row(q) * c + Shift(a, c - 1, delta) by {
      RowOfMoved(h, d, q);
    }
    assert -1 <= delta <= 1 && (0 <= a + delta < c ==> Row(q) == x) && (!(0 <= a + delta < c) ==> Row(q) == x + delta) by {
      WrapsAlong(t, v, d);
      OneAxis(d);
    }
    AxisAssemble(x, Cells(LatBits(n - 1)), a, c, delta, Row(q), Row(h), Row(Moved(h, d, q)));
  }

  /** The column counterpart of RowAppend. */
  lemma {:induction false} ColumnAppend(h: string, d: Direction, q: string)
    requires ValidHash(h) && |h| > 0 && ValidHash(q) && |q| == |h| - 1
    requires Column(q) == Column(h[..|h| - 1]) + if Wraps(|h| % 2, ValueOf(h[|h| - 1]) as bv5, d) then LonDelta(d) else 0
    ensures ValidHash(Moved(h, d, q))
    ensures Column(Moved(h, d, q)) == Column(h) + LonDelta(d)
  {
    var n := |h|;
    var t := n % 2;
    var v := ValueOf(h[n - 1]) as bv5;
    var x, a, c, delta := Column(h[..n - 1]), LonPart(t, v) as int, LonCount(t), LonDelta(d);
    assert (c == 4 || c == 8) && 0 <= a < c && 0 <= x < Cells(LonBits(n - 1)) && Column(h) == x * c + a by {
      ColumnOfHash(h);
    }
    assert ValidHash(Moved(h, d, q)) && Column(Moved(h, d, q)) == Column(q) * c + Shift(a, c - 1, delta) by {
      ColumnOfMoved(h, d, q);
    }
    assert -1 <= delta <= 1 && (0 <= a + delta < c ==> Column(q) == x) && (!(0 <= a + delta < c) ==> Column(q) == x + delta) by {
      WrapsAlong(t, v, d);
      OneAxis(d);
    }
    AxisAssemble(x, Cells(LonBits(n - 1)), a, c, delta, Column(q), Column(h), Column(Moved(h, d, q)));
  }

  /** A move within the last symbol's grid: the prefix stays, and the cell stays in the world. */
  lemma {:induction false} StepInside(h: string, d: Direction)
    requires ValidHash(h) && |h| > 0 && !Wraps(|h| % 2, ValueOf(h[|h| - 1]) as bv5, d)
    ensures MovesOneCell(h, d)
  {
    var p := h[..|h| - 1];
    assert Adjacent(h, d) == Ok(Moved(h, d, p)) by {
      AdjacentInside(h, d);
    }
    assert ValidHash(p) by {
      PrefixFacts(h);
    }
    RowBound(h, d);
    ColumnBound(h, d);
    RowAppend(h, d, p);
    ColumnAppend(h, d, p);
  }

  /** A one-character hash on the edge its move points at: the move leaves the world. */
  lemma {:induction false} StepOffWorld(h: string, d: Direction)
    requires ValidHash(h) && |h| == 1 && Wraps(1, ValueOf(h[0]) as bv5, d)
    ensures MovesOneCell(h, d)
  {
    assert Adjacent(h, d) == Err(EmptyHash) by {
      AdjacentAcross(h, d);
      assert h[..0] == [];
    }
    OffWorld(h, d);
  }

  /** The cell of a one-character hash on the edge its move points at has no neighbour that way. */
  lemma {:induction false} OffWorld(h: string, d: Direction)
    requires ValidHash(h) && |h| == 1 && Wraps(1, ValueOf(h[0]) as bv5, d)
    ensures !InGrid(1, Row(h) + LatDelta(d), Column(h) + LonDelta(d))
  {
    assert Row(h[..0]) == 0 && Column(h[..0]) == 0 && Cells(LatBits(0)) == 1 && Cells(LonBits(0)) == 1;
    OneAxis(d);
    RowBound(h, d);
    ColumnBound(h, d);
  }

  /** A move across the edge of the last symbol's grid: the prefix moves the same way. */
  lemma {:induction false} StepAcross(h: string, d: Direction)
    requires ValidHash(h) && |h| > 1 && Wraps(|h| % 2, ValueOf(h[|h| - 1]) as bv5, d)
    requires MovesOneCell(h[..|h| - 1], d)
    ensures MovesOneCell(h, d)
  {
    if Adjacent(h[..|h| - 1], d).Ok? {
      StepAcrossFound(h, d);
    } else {
      StepAcrossLost(h, d);
    }
  }

  /** StepAcross when the prefix has a neighbour: appending the moved symbol gives the neighbour of the whole. */
  lemma {:induction false} StepAcrossFound(h: string, d: Direction)
    requires ValidHash(h) && |h| > 1 && Wraps(|h| % 2, ValueOf(h[|h| - 1]) as bv5, d)
    requires MovesOneCell(h[..|h| - 1], d) && Adjacent(h[..|h| - 1], d).Ok?
    ensures MovesOneCell(h, d)
  {
    var n := |h|;
    var p := h[..n - 1];
    var q := Adjacent(p, d).value;
    assert |p| == n - 1;
    RowBound(h, d);
    ColumnBound(h, d);
    assert Adjacent(h, d) == Ok(Moved(h, d, q)) by {
      AdjacentAcross(h, d);
    }
    RowAppend(h, d, q);
    ColumnAppend(h, d, q);
  }

  /** StepAcross when the prefix has no neighbour: neither has the whole. */
  lemma {:induction false} StepAcrossLost(h: string, d: Direction)
    requires ValidHash(h) && |h| > 1 && Wraps(|h| % 2, ValueOf(h[|h| - 1]) as bv5, d)
    requires MovesOneCell(h[..|h| - 1], d) && Adjacent(h[..|h| - 1], d).Err?
    ensures MovesOneCell(h, d)
  {
    var n := |h|;
    var p := h[..n - 1];
    assert |p| == n - 1;
    RowBound(h, d);
    ColumnBound(h, d);
    assert Adjacent(h, d) == Err(Adjacent(p, d).error) by {
      AdjacentAcross(h, d);
    }
  }

  // ------------------------------------------------------------ consequences

  /** A number written with a last digit in base `c` determines its prefix and its digit. */
  lemma {:induction false} DigitUnique(x1: int, a1: int, x2: int, a2: int, c: int)
    requires c == 4 || c == 8
    requires 0 <= a1 < c && 0 <= a2 < c && x1 * c + a1 == x2 * c + a2
    ensures x1 == x2 && a1 == a2
  {
  }

  /** Two valid hashes of one length in the same row have prefixes in the same row and equal last latitude parts. */
  lemma {:induction false} RowUnique(a: string, b: string)
    requires ValidHash(a) && ValidHash(b) && |a| == |b| > 0 && Row(a) == Row(b)
    ensures var t := |a| % 2;
      LatPart(t, ValueOf(a[|a| - 1]) as bv5) == LatPart(t, ValueOf(b[|b| - 1]) as bv5)
      && Row(a[..|a| - 1]) == Row(b[..|b| - 1])
  {
    var n := |a|;
    var t := n % 2;
    var va, vb := ValueOf(a[n - 1]) as bv5, ValueOf(b[n - 1]) as bv5;
    PackParts(t, va, 0, 0);
    PackParts(t, vb, 0, 0);
    DigitUnique(Row(a[..n - 1]), LatPart(t, va) as int, Row(b[..n - 1]), LatPart(t, vb) as int, LatCount(t));
  }

  /** The column counterpart of RowUnique. */
  lemma {:induction false} ColumnUnique(a: string, b: string)
    requires ValidHash(a) && ValidHash(b) && |a| == |b| > 0 && Column(a) == Column(b)
    ensures var t := |a| % 2;
      LonPart(t, ValueOf(a[|a| - 1]) as bv5) == LonPart(t, ValueOf(b[|b| - 1]) as bv5)
      && Column(a[..|a| - 1]) == Column(b[..|b| - 1])
  {
    var n := |a|;
    var t := n % 2;
    var va, vb := ValueOf(a[n - 1]) as bv5, ValueOf(b[n - 1]) as bv5;
    PackParts(t, va, 0, 0);
    PackParts(t, vb, 0, 0);
    DigitUnique(Column(a[..n - 1]), LonPart(t, va) as int, Column(b[..n - 1]), LonPart(t, vb) as int, LonCount(t));
  }

  /** A symbol is determined by its two parts. */
  lemma {:induction false} PartsDetermine(t: int, v: bv5, w: bv5)
    requires LatPart(t, v) == LatPart(t, w) && LonPart(t, v) == LonPart(t, w)
    ensures v == w
  {
    PackParts(t, v, 0, 0);
    PackParts(t, w, 0, 0);
  }

  /** Two valid hashes of one length in the same cell end with the same symbol. */
  lemma {:induction false} LastUnique(t: int, c1: char, c2: char)
    requires ValueOf(c1) != -1 && ValueOf(c2) != -1
    requires LatPart(t, ValueOf(c1) as bv5) == LatPart(t, ValueOf(c2) as bv5)
    requires LonPart(t, ValueOf(c1) as bv5) == LonPart(t, ValueOf(c2) as bv5)
    ensures c1 == c2
  {
    PartsDetermine(t, ValueOf(c1) as bv5, ValueOf(c2) as bv5);
    SymbolDetermined(c1, c2);
  }

  /** Two characters of the alphabet with the same value are the same character. */
  lemma {:induction false} SymbolDetermined(c1: char, c2: char)
    requires ValueOf(c1) != -1 && ValueOf(c2) != -1 && ValueOf(c1) as bv5 == ValueOf(c2) as bv5
    ensures c1 == c2
  {
    assert ValueOf(c1) == ValueOf(c2) by {
      FiveBits(ValueOf(c1));
      FiveBits(ValueOf(c2));
    }
    SymbolValue(0, c1);
    SymbolValue(0, c2);
  }

  /** A valid hash is the only one of its length naming its cell. */
  lemma {:induction false} CellUnique(a: string, b: string)
    requires ValidHash(a) && ValidHash(b) && |a| == |b|
    requires Row(a) == Row(b) && Column(a) == Column(b)
    ensures a == b
    decreases |a|
  {
    var n := |a|;
    if n > 0 {
      var pa, pb := a[..n - 1], b[..n - 1];
      assert a[n - 1] == b[n - 1] && Row(pa) == Row(pb) && Column(pa) == Column(pb) by {
        RowUnique(a, b);
        ColumnUnique(a, b);
        LastUnique(n % 2, a[n - 1], b[n - 1]);
      }
      assert ValidHash(pa) && ValidHash(pb);
      CellUnique(pa, pb);
      assert a == pa + [a[n - 1]] && b == pb + [b[n - 1]];
    }
  }

  /** Opposite directions step by opposite amounts. */
  lemma {:induction false} OppositeDelta(d: Direction)
    ensures LatDelta(d.Opposite()) == -LatDelta(d) && LonDelta(d.Opposite()) == -LonDelta(d)
  {
  }

  /**
   * Moving back: whenever a valid hash has a neighbour in a direction, the
   * neighbour's neighbour in the opposite direction is the hash itself.
   */
  lemma {:induction false} AdjacentBack(h: string, d: Direction)
    requires ValidHash(h) && |h| > 0 && Adjacent(h, d).Ok?
    ensures Adjacent(Adjacent(h, d).value, d.Opposite()) == Ok(h)
  {
    var r := Adjacent(h, d).value;
    assert ValidHash(r) && |r| == |h| && Row(r) == Row(h) + LatDelta(d) && Column(r) == Column(h) + LonDelta(d) by {
      AdjacentCell(h, d);
    }
    MoveBackCell(h, r, d);
  }

  /** A hash one cell from `h` in direction `d` has `h` as its neighbour in the opposite direction. */
  lemma {:induction false} MoveBackCell(h: string, r: string, d: Direction)
    requires ValidHash(h) && ValidHash(r) && |r| == |h| > 0
    requires Row(r) == Row(h) + LatDelta(d) && Column(r) == Column(h) + LonDelta(d)
    ensures Adjacent(r, d.Opposite()) == Ok(h)
  {
    assert InGrid(|r|, Row(r) + LatDelta(d.Opposite()), Column(r) + LonDelta(d.Opposite())) by {
      GridBounds(h);
      OppositeDelta(d);
    }
    var back := Adjacent(r, d.Opposite());
    assert back.Ok? && ValidHash(back.value) && |back.value| == |h|
      && Row(back.value) == Row(h) && Column(back.value) == Column(h) by {
      OppositeDelta(d);
      AdjacentCell(r, d.Opposite());
    }
    CellUnique(back.value, h);
  }

  /** Lower-casing twice is lower-casing once. */
  lemma {:induction false} ToLowerTwice(s: string)
    ensures ToLower(ToLower(s)) == ToLower(s)
  {
    assert forall i :: 0 <= i < |s| ==> LowerChar(LowerChar(s[i])) == LowerChar(s[i]);
  }

  /** CalculateAdjacent does not see the case of its input. */
  lemma {:induction false} AdjacentIgnoresCase(hash: string, d: Direction)
    ensures Adjacent(hash, d) == Adjacent(ToLower(hash), d)
  {
    ToLowerTwice(hash);
  }

  /**
   * The two ways CalculateAdjacent throws at the first call: an empty hash,
   * and a last character outside the alphabet once lower-cased.
   */
  lemma {:induction false} AdjacentFails(hash: string, d: Direction)
    ensures |hash| == 0 ==> Adjacent(hash, d) == Err(EmptyHash)
    ensures |hash| > 0 && ValueOf(LowerChar(hash[|hash| - 1])) == -1 ==> Adjacent(hash, d) == Err(UnknownCharacter)
  {
    if |hash| > 0 {
      var h := ToLower(hash);
      var c := h[|h| - 1];
      var t := |h| % 2;
      BorderMember(t, d, c);
      NeighborIndex(t, d, c);
    }
  }
}
