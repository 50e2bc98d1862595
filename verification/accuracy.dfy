/**
 * What a geohash pins down: the size of the cell a hash decodes to, that an
 * encoded position lies in its cell, the decoding error this leaves, and
 * that encoding the centre of a cell gives the cell's hash back.
 */
module Accuracy {
  import opened Alphabet
  import opened Locations
  import opened Sizes
  import opened Codec

  /** Both ranges of the box are non-degenerate. */
  predicate Proper(b: Box) {
    b.lat.lo < b.lat.hi && b.lon.lo < b.lon.hi
  }

  function Abs(x: real): real {
    if x < 0.0 then -x else x
  }

  // ------------------------------------------------------------ bisection

  /**
   * A bisection halves the range it works on, nests inside it and leaves the
   * other range alone.
   */
  lemma {:induction false} StepHalves(b: Box, lonTurn: bool, bit: bool)
    ensures var s := Step(b, lonTurn, bit);
      (lonTurn ==> s.lon.Width() == b.lon.Width() / 2.0 && s.lat == b.lat)
      && (!lonTurn ==> s.lat.Width() == b.lat.Width() / 2.0 && s.lon == b.lon)
      && (Proper(b) ==> Proper(s) && s.Within(b))
  {
  }

  /** The half the encoder keeps still holds the position. */
  lemma {:induction false} StepKeeps(loc: Location, b: Box, lonTurn: bool)
    requires b.Contains(loc)
    ensures Step(b, lonTurn, NextBit(loc, b, lonTurn)).Contains(loc)
  {
  }

  /**
   * After `n` bits the latitude range has been halved `n / 2` times and the
   * longitude range `(n + 1) / 2` times, whatever the bits.
   */
  lemma {:induction false} ReplaySize(bits: seq<bool>, n: nat)
    requires n <= |bits|
    ensures Replay(bits, n).lat.Width() == 180.0 / Pow2(n / 2)
    ensures Replay(bits, n).lon.Width() == 360.0 / Pow2((n + 1) / 2)
    decreases n
  {
    if n > 0 {
      ReplaySize(bits, n - 1);
      StepHalves(Replay(bits, n - 1), (n - 1) % 2 == 0, bits[n - 1]);
      DivDouble(180.0, Pow2((n - 1) / 2));
      DivDouble(360.0, Pow2(n / 2));
    }
  }

  /** Every box a replay passes through is non-degenerate. */
  lemma {:induction false} ReplayProper(bits: seq<bool>, n: nat)
    requires n <= |bits|
    ensures Proper(Replay(bits, n))
  {
    var b := Replay(bits, n);
    ReplaySize(bits, n);
    DivPositive(180.0, Pow2(n / 2));
    DivPositive(360.0, Pow2((n + 1) / 2));
    assert b.lat.Width() > 0.0 && b.lon.Width() > 0.0;
  }

  /** A later box of a replay lies within every earlier one. */
  lemma {:induction false} ReplayNested(bits: seq<bool>, k: nat, n: nat)
    requires k <= n <= |bits|
    ensures Replay(bits, n).Within(Replay(bits, k))
    decreases n - k
  {
    if k < n {
      ReplayNested(bits, k, n - 1);
      ReplayProper(bits, n - 1);
      StepHalves(Replay(bits, n - 1), (n - 1) % 2 == 0, bits[n - 1]);
    }
  }

  /** A position in the encoder's range lies in the box of the bits the encoder emits for it. */
  lemma {:induction false} EncodeContains(loc: Location, n: nat)
    requires InRange(loc)
    ensures Replay(EncodeBits(loc, n), n).Contains(loc)
    decreases n
  {
    if n > 0 {
      var prev := EncodeBits(loc, n - 1);
      var all := EncodeBits(loc, n);
      EncodeContains(loc, n - 1);
      EncodeBitsPrefix(loc, n - 1, n);
      ReplayPrefix(all, prev, n - 1);
      StepKeeps(loc, Replay(prev, n - 1), (n - 1) % 2 == 0);
    }
  }

  // ------------------------------------------------------------ cells

  /** The cell of an `n`-character hash has the size CellSize(n), whatever its characters. */
  lemma {:induction false} DecodeBoxSize(h: string)
    ensures DecodeBox(h).lat.Width() == CellSize(|h|).height
    ensures DecodeBox(h).lon.Width() == CellSize(|h|).width
  {
    var n := 5 * |h|;
    var b := Replay(HashBits(h), n);
    assert DecodeBox(h) == b by {
      DecodeBoxReplays(h);
    }
    assert b.lat.Width() == 180.0 / Pow2(n / 2) && b.lon.Width() == 360.0 / Pow2((n + 1) / 2) by {
      ReplaySize(HashBits(h), n);
    }
  }

  /** The cell of a one-character hash is 45 degrees high, twice what CalculateAngularSize reports. */
  lemma {:induction false} OneCharCellHeight(h: string)
    requires |h| == 1
    ensures DecodeBox(h).lat.Width() == 45.0
    ensures AngularSize(h).height == 22.5
  {
    DecodeBoxSize(h);
    OneCharCell(h);
  }

  /** The cell of the hash the encoder produces holds the position encoded. */
  lemma {:induction false} EncodedCellContains(loc: Location, n: nat)
    requires InRange(loc)
    ensures DecodeBox(EncodeHash(loc, n)).Contains(loc)
  {
    var bits := EncodeBits(loc, 5 * n);
    DecodeBoxReplays(EncodeHash(loc, n));
    CharsHashBits(bits, n);
    assert bits[..5 * n] == bits;
    EncodeContains(loc, 5 * n);
  }

  /** The centre of an interval is at most half its width from any point of it. */
  lemma {:induction false} CenterError(iv: Interval, x: real)
    requires iv.Contains(x)
    ensures Abs(iv.Mid() - x) <= iv.Width() / 2.0
  {
  }

  /**
   * Round trip: for a position in range, decoding its n-character hash is off
   * by at most half the cell's height in latitude and half its width in longitude.
   */
  lemma {:induction false} RoundTripError(loc: Location, n: nat)
    requires InRange(loc)
    ensures Abs(Decoded(EncodeHash(loc, n)).latitude - loc.latitude) <= CellSize(n).height / 2.0
    ensures Abs(Decoded(EncodeHash(loc, n)).longitude - loc.longitude) <= CellSize(n).width / 2.0
  {
    var h := EncodeHash(loc, n);
    EncodeHashValid(loc, n);
    EncodedCellContains(loc, n);
    DecodeBoxSize(h);
    CenterError(DecodeBox(h).lat, loc.latitude);
    CenterError(DecodeBox(h).lon, loc.longitude);
  }

  /**
   * The decoding error stays within the size CalculateAngularSize reports
   * (with equality possible in latitude for an odd length, where the
   * reported height is half the cell's).
   */
  lemma {:induction false} RoundTripWithinAngularSize(loc: Location, n: nat)
    requires InRange(loc)
    ensures var h := EncodeHash(loc, n);
      Abs(Decoded(h).latitude - loc.latitude) <= AngularSize(h).height
      && Abs(Decoded(h).longitude - loc.longitude) <= AngularSize(h).width / 2.0
  {
    var h := EncodeHash(loc, n);
    EncodeHashValid(loc, n);
    RoundTripError(loc, n);
    AngularSizeAgainstCell(h);
  }

  /** For an even length the reported height is the cell's, so the latitude error stays strictly below it. */
  lemma {:induction false} RoundTripStrictEven(loc: Location, n: nat)
    requires InRange(loc) && n % 2 == 0
    ensures var h := EncodeHash(loc, n);
      Abs(Decoded(h).latitude - loc.latitude) < AngularSize(h).height
  {
    var h := EncodeHash(loc, n);
    EncodeHashValid(loc, n);
    RoundTripError(loc, n);
    AngularSizeAgainstCell(h);
  }

  /**
   * For an odd length the latitude error can reach the reported height: the
   * hash of (0, 0) at one character is "7", whose centre lies 22.5 degrees
   * south, and 22.5 is the height reported for it.
   */
  lemma {:induction false} RoundTripAtReportedHeight()
    ensures EncodeHash(Location(0.0, 0.0), 1) == "7"
    ensures Abs(Decoded("7").latitude - 0.0) == AngularSize("7").height
  {
    SevenHash();
    SevenError();
  }

  /** The one-character hash of (0, 0) is "7". */
  lemma {:induction false} SevenHash()
    ensures EncodeHash(Location(0.0, 0.0), 1) == "7"
  {
    SevenBits();
    assert [false, false, true, true, true][0..5] == [false, false, true, true, true];
  }

  /** "7" decodes to latitude -22.5, the height reported for one character away from 0. */
  lemma {:induction false} SevenError()
    ensures Abs(Decoded("7").latitude - 0.0) == AngularSize("7").height
  {
    SevenBox();
    AngularSizeOfOneChar("7");
  }

  /** The encoder's five bits for (0, 0): west, south, then east, north and east of each midpoint. */
  lemma {:induction false} SevenBits()
    ensures EncodeBits(Location(0.0, 0.0), 5) == [false, false, true, true, true]
  {
    var loc := Location(0.0, 0.0);
    assert EncodeBits(loc, 1) == [false] by {
      assert Replay([], 0) == World;
    }
    assert EncodeBits(loc, 2) == [false, false] by {
      assert Replay([false], 1).lat == Interval(-90.0, 90.0);
    }
    assert EncodeBits(loc, 3) == [false, false, true] by {
      assert Replay([false, false], 2).lon == Interval(-180.0, 0.0);
    }
    assert EncodeBits(loc, 4) == [false, false, true, true] by {
      assert Replay([false, false, true], 3).lat == Interval(-90.0, 0.0);
    }
    assert Replay([false, false, true, true], 4).lon == Interval(-90.0, 0.0);
  }

  /** The cell of "7" spans latitudes -45 to 0. */
  lemma {:induction false} SevenBox()
    ensures DecodeBox("7").lat == Interval(-45.0, 0.0)
  {
    var bits := [false, false, true, true, true];
    assert HashBits("7") == bits by {
      assert "7"[..0] == "";
      assert ValueOf('7') == 7;
    }
    DecodeBoxReplays("7");
    assert Replay(bits, 2).lat == Interval(-90.0, 0.0);
    assert Replay(bits, 4).lat == Interval(-45.0, 0.0);
  }

  // ------------------------------------------------------------ centres

  /** The centre of a non-degenerate box lies strictly inside it. */
  lemma {:induction false} CenterInside(b: Box)
    requires Proper(b)
    ensures b.lat.lo < b.Center().latitude < b.lat.hi
    ensures b.lon.lo < b.Center().longitude < b.lon.hi
  {
  }

  /** The encoder, run on the centre of the box of `bits`, chooses bit `k` of `bits`. */
  lemma {:induction false} CenterChooses(bits: seq<bool>, k: nat)
    requires k < |bits|
    ensures BitChosen(Replay(bits, |bits|).Center(), bits, k)
  {
    var n := |bits|;
    var c := Replay(bits, n).Center();
    ReplayProper(bits, n);
    CenterInside(Replay(bits, n));
    ReplayNested(bits, k + 1, n);
    assert Replay(bits, k + 1) == Step(Replay(bits, k), k % 2 == 0, bits[k]);
  }

  /** The bits of a cell are exactly the bits the encoder emits for its centre. */
  lemma {:induction false} CenterEncodes(bits: seq<bool>)
    ensures Encodes(Replay(bits, |bits|).Center(), bits)
  {
    forall k | 0 <= k < |bits|
      ensures BitChosen(Replay(bits, |bits|).Center(), bits, k)
    {
      CenterChooses(bits, k);
    }
  }

  /** Encoding the decoded centre of a valid hash, at the hash's length, gives the hash back. */
  lemma {:induction false} EncodeDecoded(h: string)
    requires ValidHash(h)
    ensures EncodeHash(Decoded(h), |h|) == h
  {
    var bits := HashBits(h);
    var c := Decoded(h);
    DecodeBoxReplays(h);
    CenterEncodes(bits);
    EncodesUnique(c, bits);
    HashBitsChars(h);
  }
}
