/**
 * Angular size of a geohash cell: the figure CalculateAngularSize reports
 * for a hash of a given length, and the size of the cell such a hash
 * actually denotes.
 */
module Sizes {

  /** A height (latitude span) and a width (longitude span), in degrees. */
  datatype Extent = Extent(height: real, width: real)

  /** 2 to the power `e`, exactly. */
  function Pow2(e: nat): (r: real)
    ensures r >= 1.0
    decreases e
  {
    if e == 0 then 1.0 else 2.0 * Pow2(e - 1)
  }

  /** `Math.Pow(2.0, e)` for an integer exponent, which may be negative. */
  function Pow2Int(e: int): (r: real)
    ensures r > 0.0
  {
    if e >= 0 then Pow2(e) else 1.0 / Pow2(-e)
  }

  /** The exponent CalculateAngularSize uses for a hash of `bits` characters. */
  function SizePower(bits: nat): nat {
    (5 * bits + bits % 2) / 2
  }

  /**
   * CalculateAngularSize as written: the height is 180 / 2^power and the
   * width 180 / 2^(power - 1), with power = (5n + n % 2) / 2 for n characters.
   * Whatever the length, the width is twice the height.
   */
  function AngularSize(geoHash: string): (r: Extent)
    ensures r.width == 2.0 * r.height && r.height > 0.0
  {
    var bits := |geoHash|;
    var power := SizePower(bits);
    ReportedShape(power);
    Extent(180.0 / Pow2(power), 180.0 / Pow2Int(power - 1))
  }

  /**
   * The extent of the cell an `n`-character hash denotes: its 5n bits give
   * the latitude 5n / 2 halvings of 180 degrees and the longitude the
   * remaining (5n + 1) / 2 halvings of 360 degrees.
   */
  function CellSize(n: nat): Extent {
    Extent(180.0 / Pow2(5 * n / 2), 360.0 / Pow2((5 * n + 1) / 2))
  }

  /** A bigger exponent gives a bigger power. */
  lemma {:induction false} Pow2Monotone(a: nat, b: nat)
    requires a <= b
    ensures Pow2(a) <= Pow2(b)
    decreases b
  {
    if a < b {
      Pow2Monotone(a, b - 1);
    }
  }

  /** Dividing by a bigger positive number gives less. */
  lemma {:induction false} DivAntitone(x: real, p: real, q: real)
    requires x > 0.0 && 0.0 < p <= q
    ensures x / q <= x / p
  {
  }

  /** Dividing by twice a positive number gives half. */
  lemma {:induction false} DivDouble(x: real, p: real)
    requires p > 0.0
    ensures x / (2.0 * p) == (x / p) / 2.0
  {
    assert (x / p) / 2.0 * (2.0 * p) == x;
  }

  /** A quotient of positive numbers is positive. */
  lemma {:induction false} DivPositive(x: real, p: real)
    requires x > 0.0 && p > 0.0
    ensures x / p > 0.0
  {
  }

  /** With one halving fewer, the span is twice as big; both are positive. */
  lemma {:induction false} ReportedShape(power: nat)
    ensures 180.0 / Pow2Int(power - 1) == 2.0 * (180.0 / Pow2(power))
    ensures 180.0 / Pow2(power) > 0.0
  {
    DivPositive(180.0, Pow2(power));
    if power == 0 {
      assert Pow2Int(-1) == 0.5;
    } else {
      DivDouble(180.0, Pow2(power - 1));
    }
  }

  /** The reported size depends on nothing but the length of the hash. */
  lemma {:induction false} AngularSizeOfLength(a: string, b: string)
    requires |a| == |b|
    ensures AngularSize(a) == AngularSize(b)
    ensures AngularSize(a) == AngularSize(seq(|a|, i => '0'))
  {
  }

  /** A longer hash never reports a bigger size. */
  lemma {:induction false} AngularSizeShrinks(a: string, b: string)
    requires |a| <= |b|
    ensures AngularSize(b).height <= AngularSize(a).height
    ensures AngularSize(b).width <= AngularSize(a).width
  {
    var pa, pb := SizePower(|a|), SizePower(|b|);
    assert pa <= pb;
    Pow2Monotone(pa, pb);
    DivAntitone(180.0, Pow2(pa), Pow2(pb));
  }

  /** One character reports 22.5 degrees by 45. */
  lemma {:induction false} AngularSizeOfOneChar(geoHash: string)
    requires |geoHash| == 1
    ensures AngularSize(geoHash) == Extent(22.5, 45.0)
  {
    assert SizePower(1) == 3;
    assert Pow2(3) == 8.0 && Pow2Int(2) == 4.0;
  }

  /** The exponent of the reported size against the halvings of each axis. */
  lemma {:induction false} SizePowerCases(n: nat)
    ensures n % 2 == 0 ==> SizePower(n) == 5 * n / 2 == (5 * n + 1) / 2
    ensures n % 2 == 1 ==> SizePower(n) == 5 * n / 2 + 1 == (5 * n + 1) / 2
  {
  }

  /**
   * For an even number of characters the reported size is the cell's; for an
   * odd number the reported height is half the cell's height.
   */
  lemma {:induction false} AngularSizeAgainstCell(geoHash: string)
    ensures AngularSize(geoHash).width == CellSize(|geoHash|).width
    ensures |geoHash| % 2 == 0 ==> AngularSize(geoHash).height == CellSize(|geoHash|).height
    ensures |geoHash| % 2 == 1 ==> 2.0 * AngularSize(geoHash).height == CellSize(|geoHash|).height
  {
    var n := |geoHash|;
    var e := 5 * n / 2;
    SizePowerCases(n);
    Halving(e);
  }

  /** One more halving halves 180 degrees again; 360 degrees is twice 180. */
  lemma {:induction false} Halving(e: nat)
    ensures 180.0 / Pow2(e + 1) == (180.0 / Pow2(e)) / 2.0
    ensures 360.0 / Pow2(e) == 2.0 * (180.0 / Pow2(e))
    ensures 360.0 / Pow2(e + 1) == 180.0 / Pow2(e)
  {
    DivDouble(180.0, Pow2(e));
    DivDouble(360.0, Pow2(e));
    assert 180.0 / Pow2(e) * Pow2(e) == 180.0;
  }

  /** The cell of a one-character hash is 45 degrees by 45, twice the reported height. */
  lemma {:induction false} OneCharCell(geoHash: string)
    requires |geoHash| == 1
    ensures CellSize(|geoHash|) == Extent(45.0, 45.0)
    ensures AngularSize(geoHash).height == 22.5 != CellSize(|geoHash|).height
  {
    AngularSizeOfOneChar(geoHash);
    assert Pow2(2) == 4.0 && Pow2(3) == 8.0;
  }
}
