/**
 * The geohash codec: interleaved bisection of the longitude and latitude
 * ranges, five bits per symbol, longitude first.
 */
module Codec {
  import opened Alphabet
  import opened Locations

  /** A closed range [lo, hi] of degrees that a bisection works on. */
  datatype Interval = Interval(lo: real, hi: real) {

    function Mid(): real {
      (lo + hi) / 2.0
    }

    function Width(): real {
      hi - lo
    }

    predicate Contains(x: real) {
      lo <= x <= hi
    }

    predicate Within(outer: Interval) {
      outer.lo <= lo && hi <= outer.hi
    }
  }

  /** The latitude and longitude ranges a hash (or a prefix of its bits) pins down. */
  datatype Box = Box(lat: Interval, lon: Interval) {

    predicate Contains(loc: Location) {
      lat.Contains(loc.latitude) && lon.Contains(loc.longitude)
    }

    predicate Within(outer: Box) {
      lat.Within(outer.lat) && lon.Within(outer.lon)
    }

    function Center(): Location {
      Location(lat.Mid(), lon.Mid())
    }
  }

  /** The whole globe: the ranges every encode and decode start from. */
  const World: Box := Box(Interval(-90.0, 90.0), Interval(-180.0, 180.0))

  /** Keep the upper half of `iv` when `upper`, the lower half otherwise. */
  function Half(iv: Interval, upper: bool): Interval {
    if upper then Interval(iv.Mid(), iv.hi) else Interval(iv.lo, iv.Mid())
  }

  /**
   * RefineInterval: a set bit of `cd` under the single-bit `mask` moves the
   * lower end to the midpoint, a clear bit moves the upper end there.
   */
  function RefineInterval(interval: Interval, cd: int, mask: int): (r: Interval)
    requires IsWeight(mask)
    ensures r.Width() == interval.Width() / 2.0
    ensures interval.lo <= interval.hi ==> r.Within(interval)
    ensures BitSet(cd, mask) ==> r.lo == interval.Mid() && r.hi == interval.hi
    ensures !BitSet(cd, mask) ==> r.lo == interval.lo && r.hi == interval.Mid()
  {
    Half(interval, BitSet(cd, mask))
  }

  /**
   * One bisection: of the longitude range on a longitude turn, of the latitude
   * range otherwise. Bit number `k` of a hash is a longitude turn when `k` is even.
   */
  function Step(b: Box, lonTurn: bool, bit: bool): Box {
    if lonTurn then b.(lon := Half(b.lon, bit)) else b.(lat := Half(b.lat, bit))
  }

  /** The box reached by applying the first `n` of `bits` in order, starting from the whole globe. */
  function Replay(bits: seq<bool>, n: nat): Box
    requires n <= |bits|
    decreases n
  {
    if n == 0 then World else Step(Replay(bits, n - 1), (n - 1) % 2 == 0, bits[n - 1])
  }

  /** Only the first `n` bits matter. */
  lemma {:induction false} ReplayPrefix(a: seq<bool>, b: seq<bool>, n: nat)
    requires n <= |a| && n <= |b| && a[..n] == b[..n]
    ensures Replay(a, n) == Replay(b, n)
    decreases n
  {
    if n > 0 {
      assert a[..n - 1] == a[..n][..n - 1] && b[..n - 1] == b[..n][..n - 1];
      assert a[n - 1] == a[..n][n - 1] && b[n - 1] == b[..n][n - 1];
      ReplayPrefix(a, b, n - 1);
    }
  }

  /** Every character is one of the 32 symbols (see Alphabet.InAlphabet). */
  predicate ValidHash(h: string) {
    forall i :: 0 <= i < |h| ==> ValueOf(h[i]) != -1
  }

  // ---------------------------------------------------------------- decode

  /** The bits a hash carries; an unknown character reads as IndexOf's -1, all bits set. */
  function HashBits(h: string): (r: seq<bool>)
    ensures |r| == 5 * |h|
    decreases |h|
  {
    if |h| == 0 then []
    else HashBits(h[..|h| - 1]) + CharBits(ValueOf(h[|h| - 1]))
  }

  /** Bit `j` of character `i` is bit `5 * i + j` of the hash. */
  lemma {:induction false} HashBitsAt(h: string, i: int, j: int)
    requires 0 <= i < |h| && 0 <= j < 5
    ensures HashBits(h)[5 * i + j] == BitSet(ValueOf(h[i]), Bits[j])
    decreases |h|
  {
    var p := h[..|h| - 1];
    CharBitsAt(ValueOf(h[i]), j);
    if i < |h| - 1 {
      assert p[i] == h[i];
      HashBitsAt(p, i, j);
    }
  }

  /** The number of bits a symbol carries. */
  const CharWidth: nat := 5

  /**
   * The box after the first `j` bits of the symbol value `cd`, starting from
   * box `b`; the symbol's first bit is a longitude turn when `lonFirst`.
   */
  function CharStep(b: Box, lonFirst: bool, cd: int, j: nat): Box
    requires j <= 5
    decreases j
  {
    if j == 0 then b
    else Step(CharStep(b, lonFirst, cd, j - 1), lonFirst == ((j - 1) % 2 == 0), BitSet(cd, Bits[j - 1]))
  }

  /** The box after the first `i` characters of `h`. */
  function DecodePrefix(h: string, i: nat): Box
    requires i <= |h|
    decreases i
  {
    if i == 0 then World else CharStep(DecodePrefix(h, i - 1), (i - 1) % 2 == 0, ValueOf(h[i - 1]), CharWidth)
  }

  /** The cell a hash denotes. */
  function DecodeBox(h: string): Box {
    DecodePrefix(h, |h|)
  }

  /** Decode: the centre of the cell. */
  function Decoded(h: string): Location {
    DecodeBox(h).Center()
  }

  /** Decode, as `Geohash.Decode`'s loop over the characters of the hash. */
  method Decode(geohash: string) returns (latitude: real, longitude: real)
    ensures Location(latitude, longitude) == Decoded(geohash)
  {
    var even := true;
    var lat := Interval(-90.0, 90.0);
    var lon := Interval(-180.0, 180.0);
    var i := 0;
    while i < |geohash|
      invariant 0 <= i <= |geohash|
      invariant even == (i % 2 == 0)
      invariant Box(lat, lon) == DecodePrefix(geohash, i)
    {
      var cd := ValueOf(geohash[i]);  // IndexOf(Base32, geohash[i]), by IndexOfBase32
      lat, lon, even := DecodeChar(lat, lon, even, cd);
      NextParity(i);
      i := i + 1;
    }
    latitude := lat.Mid();
    longitude := lon.Mid();
  }

  /**
   * `Geohash.Decode`'s inner loop: the five bits of the symbol value `cd`, most
   * significant first, each refining the longitude range on a longitude turn
   * and the latitude range otherwise.
   */
  method DecodeChar(lat: Interval, lon: Interval, even: bool, cd: int) returns (lat': Interval, lon': Interval, even': bool)
    ensures Box(lat', lon') == CharStep(Box(lat, lon), even, cd, CharWidth)
    ensures even' == !even
  {
    lat', lon', even' := lat, lon, even;
    var j := 0;
    while j < 5
      invariant 0 <= j <= 5
      invariant even' == (even == (j % 2 == 0))
      invariant Box(lat', lon') == CharStep(Box(lat, lon), even, cd, j)
    {
      var mask := Bits[j];
      BitsAreWeights(j);
      if even' {
        lon' := RefineInterval(lon', cd, mask);
      } else {
        lat' := RefineInterval(lat', cd, mask);
      }
      even' := !even';
      j := j + 1;
    }
  }

  /** The character-by-character decode replays exactly the bits of the hash. */
  lemma {:induction false} DecodePrefixReplays(h: string, i: nat)
    requires i <= |h|
    ensures DecodePrefix(h, i) == Replay(HashBits(h), 5 * i)
    decreases i
  {
    if i > 0 {
      DecodePrefixReplays(h, i - 1);
      CharReplays(h, i);
    }
  }

  /** Character `i - 1` takes the box of the bits before it to that of the bits up to its end. */
  lemma {:induction false} CharReplays(h: string, i: nat)
    requires 0 < i <= |h|
    ensures CharStep(Replay(HashBits(h), 5 * (i - 1)), (i - 1) % 2 == 0, ValueOf(h[i - 1]), CharWidth) == Replay(HashBits(h), 5 * i)
  {
    CharStepReplays(h, i - 1, CharWidth);
    assert 5 * (i - 1) + CharWidth == 5 * i;
  }

  lemma {:induction false} CharStepReplays(h: string, i: nat, j: nat)
    requires i < |h| && j <= 5
    ensures CharStep(Replay(HashBits(h), 5 * i), i % 2 == 0, ValueOf(h[i]), j) == Replay(HashBits(h), 5 * i + j)
    decreases j
  {
    if j > 0 {
      CharStepReplays(h, i, j - 1);
      HashBitsAt(h, i, j - 1);
      Parity(i, j - 1);
    }
  }

  /**
   * The encoder's loop after `k` of the `5 * n` bits `all`: `bit` of them belong
   * to the symbol being built, whose partial value is `ch`, the symbols before
   * it are `geohash`, `b` is the box the `k` bits pin down and `even` says
   * whether the next bit is a longitude turn.
   */
  predicate EncoderState(all: seq<bool>, n: nat, k: nat, bit: int, geohash: string, ch: int, b: Box, even: bool) {
    |all| == 5 * n && |geohash| <= n && (|geohash| == n ==> bit == 0)
    && 0 <= bit < 5 && k == 5 * |geohash| + bit
    && even == (k % 2 == 0)
    && b == Replay(all, k)
    && geohash == Chars(all, |geohash|)
    && ch == GroupValue(all[k - bit..k])
  }

  /** One pass of the encoder's loop: the box and the partial symbol take in bit `k`. */
  lemma {:induction false} EncoderBit(loc: Location, all: seq<bool>, n: nat, k: nat, bit: int, geohash: string, ch: int, b: Box, even: bool, ch': int, b': Box)
    requires EncoderState(all, n, k, bit, geohash, ch, b, even) && |geohash| < n && Encodes(loc, all)
    requires b' == Step(b, even, NextBit(loc, b, even))
    requires ch' == (if NextBit(loc, b, even) then BitOr(ch, Bits[bit]) else ch)
    ensures k + 1 <= |all| && b' == Replay(all, k + 1) && !even == ((k + 1) % 2 == 0)
    ensures ch' == GroupValue(all[k - bit..k + 1]) && 0 <= ch' < 32
  {
    assert BitChosen(loc, all, k);
    GroupValueAppend(all, k - bit, k);
    NextWeightClear(all[k - bit..k]);
    NextParity(k);
    GroupValueBelow(all[k - bit..k + 1]);
  }

  /** One pass of the encoder's loop keeps its state in step with the bits. */
  lemma {:induction false} EncoderAdvance(loc: Location, all: seq<bool>, n: nat, k: nat, bit: int, geohash: string, ch: int, b: Box, even: bool, ch': int, b': Box)
    requires EncoderState(all, n, k, bit, geohash, ch, b, even) && |geohash| < n && Encodes(loc, all)
    requires b' == Step(b, even, NextBit(loc, b, even))
    requires ch' == (if NextBit(loc, b, even) then BitOr(ch, Bits[bit]) else ch)
    ensures bit < 4 ==> EncoderState(all, n, k + 1, bit + 1, geohash, ch', b', !even)
    ensures 0 <= ch' < 32
    ensures bit == 4 ==> EncoderState(all, n, k + 1, 0, geohash + [Symbol(ch')], 0, b', !even)
  {
    EncoderBit(loc, all, n, k, bit, geohash, ch, b, even, ch', b');
    if bit == 4 {
      var m := |geohash| + 1;
      assert all[k - bit..k + 1] == all[5 * m - 5..5 * m];
      assert geohash + [Symbol(ch')] == Chars(all, m);
      assert |all[k + 1..k + 1]| == 0;
    }
  }

  /** Consecutive bits alternate between longitude and latitude. */
  lemma {:induction false} NextParity(k: int)
    ensures ((k + 1) % 2 == 0) == !(k % 2 == 0)
  {
  }

  /** Bit `5 * i + j` is a longitude turn when `i` and `j` have the same parity. */
  lemma {:induction false} Parity(i: int, j: int)
    ensures ((5 * i + j) % 2 == 0) == ((i % 2 == 0) == (j % 2 == 0))
  {
    assert 5 * i + j == 2 * (2 * i) + (i + j);
  }

  lemma {:induction false} DecodeBoxReplays(h: string)
    ensures DecodeBox(h) == Replay(HashBits(h), 5 * |h|)
  {
    DecodePrefixReplays(h, |h|);
  }

  /** The bits of a character the alphabet does not contain are those of 'z'. */
  lemma {:induction false} HashBitsUnknown(h: string, i: int)
    requires 0 <= i < |h| && ValueOf(h[i]) == -1
    ensures HashBits(h[i := 'z']) == HashBits(h)
    decreases |h|
  {
    var h' := h[i := 'z'];
    var m := |h|;
    assert h'[m - 1] == (if i == m - 1 then 'z' else h[m - 1]);
    if i == m - 1 {
      assert h'[..m - 1] == h[..m - 1];
      assert CharBits(-1) == CharBits(31);
    } else {
      assert h'[..m - 1] == h[..m - 1][i := 'z'];
      HashBitsUnknown(h[..m - 1], i);
    }
  }

  /** Decode reads a character outside the alphabet (an upper-case letter, say) as 'z'. */
  lemma {:induction false} DecodeUnknown(h: string, i: int)
    requires 0 <= i < |h| && ValueOf(h[i]) == -1
    ensures DecodeBox(h) == DecodeBox(h[i := 'z'])
  {
    DecodeBoxReplays(h);
    DecodeBoxReplays(h[i := 'z']);
    HashBitsUnknown(h, i);
  }

  // ---------------------------------------------------------------- encode

  /** The bit the encoder emits at position `k`, given the box so far: is the coordinate above the midpoint? */
  function NextBit(loc: Location, b: Box, lonTurn: bool): bool {
    if lonTurn then loc.longitude > b.lon.Mid() else loc.latitude > b.lat.Mid()
  }

  /** The first `n` bits the encoder emits for `loc`. */
  function EncodeBits(loc: Location, n: nat): (r: seq<bool>)
    ensures |r| == n
    decreases n
  {
    if n == 0 then []
    else
      var prev := EncodeBits(loc, n - 1);
      prev + [NextBit(loc, Replay(prev, n - 1), (n - 1) % 2 == 0)]
  }

  /** The first `m` symbols packed from groups of five bits, most significant first. */
  function Chars(bits: seq<bool>, m: nat): (r: string)
    requires 5 * m <= |bits|
    ensures |r| == m
    decreases m
  {
    if m == 0 then ""
    else Chars(bits, m - 1) + [Symbol(GroupValue(bits[5 * m - 5..5 * m]))]
  }

  /** Packing only ever produces symbols of the alphabet. */
  lemma {:induction false} CharsValid(bits: seq<bool>, m: nat)
    requires 5 * m <= |bits|
    ensures ValidHash(Chars(bits, m))
    decreases m
  {
    if m > 0 {
      CharsValid(bits, m - 1);
      SymbolValue(GroupValue(bits[5 * m - 5..5 * m]), ' ');
    }
  }

  /** Packing looks at the first `5 * m` bits only. */
  lemma {:induction false} CharsPrefix(a: seq<bool>, b: seq<bool>, m: nat)
    requires 5 * m <= |a| && 5 * m <= |b| && a[..5 * m] == b[..5 * m]
    ensures Chars(a, m) == Chars(b, m)
    decreases m
  {
    if m > 0 {
      assert a[..5 * m - 5] == a[..5 * m][..5 * m - 5] && b[..5 * m - 5] == b[..5 * m][..5 * m - 5];
      assert a[5 * m - 5..5 * m] == a[..5 * m][5 * m - 5..5 * m] && b[5 * m - 5..5 * m] == b[..5 * m][5 * m - 5..5 * m];
      CharsPrefix(a, b, m - 1);
    }
  }

  /** Unpacking the packed symbols gives back the bits packed. */
  lemma {:induction false} CharsHashBits(bits: seq<bool>, m: nat)
    requires 5 * m <= |bits|
    ensures HashBits(Chars(bits, m)) == bits[..5 * m]
    decreases m
  {
    if m > 0 {
      var h := Chars(bits, m);
      var g := bits[5 * m - 5..5 * m];
      CharsHashBits(bits, m - 1);
      CharsLast(bits, m);
      SymbolBits(g);
      SliceSplit(bits, 5 * m - 5, 5 * m);
      assert HashBits(h) == HashBits(h[..m - 1]) + CharBits(ValueOf(h[m - 1]));
    }
  }

  /** The last packed symbol is that of the last group. */
  lemma {:induction false} CharsLast(bits: seq<bool>, m: nat)
    requires 0 < m && 5 * m <= |bits|
    ensures Chars(bits, m)[..m - 1] == Chars(bits, m - 1)
    ensures Chars(bits, m)[m - 1] == Symbol(GroupValue(bits[5 * m - 5..5 * m]))
  {
  }

  /** A group of five bits survives packing into a symbol and unpacking. */
  lemma {:induction false} SymbolBits(g: seq<bool>)
    requires |g| == 5
    ensures 0 <= GroupValue(g) < 32 && CharBits(ValueOf(Symbol(GroupValue(g)))) == g
  {
    GroupValueBelow(g);
    SymbolValue(GroupValue(g), ' ');
    CharBitsOfGroupValue(g);
  }

  lemma {:induction false} SameLastAndPrefix<T>(a: seq<T>, b: seq<T>)
    requires |a| == |b| > 0 && a[..|a| - 1] == b[..|b| - 1] && a[|a| - 1] == b[|b| - 1]
    ensures a == b
  {
    SplitLast(a);
    SplitLast(b);
  }

  lemma {:induction false} SliceSplit<T>(s: seq<T>, i: nat, j: nat)
    requires i <= j <= |s|
    ensures s[..j] == s[..i] + s[i..j]
  {
  }

  /** Packing the bits of a valid hash gives back the hash. */
  lemma {:induction false} HashBitsChars(h: string)
    requires ValidHash(h)
    ensures Chars(HashBits(h), |h|) == h
    decreases |h|
  {
    var m := |h|;
    if m > 0 {
      var p := h[..m - 1];
      ValidPrefix(h, m - 1);
      HashBitsChars(p);
      LastGroup(h);
      PrefixGroups(h);
      SymbolValue(0, h[m - 1]);
      CharsLast(HashBits(h), m);
      SameLastAndPrefix(Chars(HashBits(h), m), h);
    }
  }

  /** The last five bits of a hash pack back into the value of its last symbol. */
  lemma {:induction false} LastGroup(h: string)
    requires |h| > 0 && ValueOf(h[|h| - 1]) != -1
    ensures var m := |h|; GroupValue(HashBits(h)[5 * m - 5..5 * m]) == ValueOf(h[m - 1])
  {
    HashBitsLast(h);
    GroupValueOfCharBits(ValueOf(h[|h| - 1]));
  }

  /** The symbols packed from a hash's bits, but the last, are those packed from its prefix's bits. */
  lemma {:induction false} PrefixGroups(h: string)
    requires |h| > 0
    ensures var m := |h|; Chars(HashBits(h), m - 1) == Chars(HashBits(h[..m - 1]), m - 1)
  {
    var m := |h|;
    HashBitsLast(h);
    CharsPrefix(HashBits(h), HashBits(h[..m - 1]), m - 1);
  }

  /** A prefix of a valid hash is valid. */
  lemma {:induction false} ValidPrefix(h: string, k: nat)
    requires ValidHash(h) && k <= |h|
    ensures ValidHash(h[..k])
  {
    forall i | 0 <= i < k
      ensures ValueOf(h[..k][i]) != -1
    {
      assert h[..k][i] == h[i];
    }
  }

  /** The bits of a hash are those of its prefix followed by those of its last symbol. */
  lemma {:induction false} HashBitsLast(h: string)
    requires |h| > 0
    ensures var m := |h|; HashBits(h)[..5 * (m - 1)] == HashBits(h[..m - 1]) == HashBits(h[..m - 1])[..5 * (m - 1)]
    ensures var m := |h|; HashBits(h)[5 * m - 5..5 * m] == CharBits(ValueOf(h[m - 1]))
  {
  }

  /** The hash of `n` symbols the encoder produces for `loc`. */
  function EncodeHash(loc: Location, n: nat): string {
    Chars(EncodeBits(loc, 5 * n), n)
  }

  /** An encoded hash has the length asked for and only symbols of the alphabet. */
  lemma {:induction false} EncodeHashValid(loc: Location, n: nat)
    ensures |EncodeHash(loc, n)| == n && ValidHash(EncodeHash(loc, n))
  {
    CharsValid(EncodeBits(loc, 5 * n), n);
  }

  /** A requested precision outside 1..20 is replaced by 12. */
  function EffectivePrecision(precision: int): (n: int)
    ensures 1 <= n <= 20
    ensures 1 <= precision <= 20 ==> n == precision
    ensures !(1 <= precision <= 20) ==> n == 12
  {
    if precision < 1 || precision > 20 then 12 else precision
  }

  lemma {:induction false} EncodeBitsPrefix(loc: Location, m: nat, n: nat)
    requires m <= n
    ensures EncodeBits(loc, n)[..m] == EncodeBits(loc, m)
    decreases n - m
  {
    if m < n {
      EncodeBitsPrefix(loc, m, n - 1);
      var prev := EncodeBits(loc, n - 1);
      var all := EncodeBits(loc, n);
      assert all == prev + [NextBit(loc, Replay(prev, n - 1), (n - 1) % 2 == 0)];
      assert all[..m] == prev[..m];
    }
  }

  /** Bit `k` of a longer encoding is the encoder's choice in the box of the bits before it. */
  lemma {:induction false} EncodeBitsAt(loc: Location, n: nat, k: nat)
    requires k < n
    ensures EncodeBits(loc, n)[k] == NextBit(loc, Replay(EncodeBits(loc, n), k), k % 2 == 0)
  {
    var all := EncodeBits(loc, n);
    var pre := EncodeBits(loc, k);
    EncodeBitsPrefix(loc, k + 1, n);
    EncodeBitsPrefix(loc, k, n);
    EncodeBitsLast(loc, k);
    PrefixIndex(all, EncodeBits(loc, k + 1), k);
    assert pre[..k] == pre;
    ReplayPrefix(all, pre, k);
  }

  /** `bits` is what the encoder emits for `loc`: every bit says whether the coordinate lies above the midpoint of the box before it. */
  predicate Encodes(loc: Location, bits: seq<bool>) {
    forall k :: 0 <= k < |bits| ==> BitChosen(loc, bits, k)
  }

  /** Bit `k` is the encoder's choice in the box of the bits before it. */
  predicate BitChosen(loc: Location, bits: seq<bool>, k: nat)
    requires k < |bits|
  {
    bits[k] == NextBit(loc, Replay(bits, k), k % 2 == 0)
  }

  /** The encoder's bits satisfy the bit-by-bit description. */
  lemma {:induction false} EncodeBitsEncodes(loc: Location, n: nat)
    ensures Encodes(loc, EncodeBits(loc, n))
  {
    forall k | 0 <= k < n
      ensures BitChosen(loc, EncodeBits(loc, n), k)
    {
      EncodeBitsAt(loc, n, k);
    }
  }

  /** ... and are the only sequence of their length that does. */
  lemma {:induction false} EncodesUnique(loc: Location, bits: seq<bool>)
    requires Encodes(loc, bits)
    ensures bits == EncodeBits(loc, |bits|)
    decreases |bits|
  {
    if |bits| > 0 {
      var n := |bits|;
      var prev := bits[..n - 1];
      assert Encodes(loc, prev) by {
        forall k | 0 <= k < |prev|
          ensures BitChosen(loc, prev, k)
        {
          assert BitChosen(loc, bits, k);
          assert prev[..k] == bits[..k];
          ReplayPrefix(prev, bits, k);
        }
      }
      EncodesUnique(loc, prev);
      assert prev[..n - 1] == bits[..n - 1];
      ReplayPrefix(prev, bits, n - 1);
      assert BitChosen(loc, bits, n - 1);
      SplitLast(bits);
    }
  }

  lemma {:induction false} SplitLast<T>(s: seq<T>)
    requires |s| > 0
    ensures s == s[..|s| - 1] + [s[|s| - 1]]
  {
  }

  /** A sequence of `n` bits that the encoder would emit for `loc`. */
  lemma {:induction false} EncodingOf(loc: Location, n: nat) returns (bits: seq<bool>)
    ensures |bits| == n && Encodes(loc, bits)
  {
    bits := EncodeBits(loc, n);
    EncodeBitsEncodes(loc, n);
  }

  lemma {:induction false} EncodeBitsLast(loc: Location, k: nat)
    ensures EncodeBits(loc, k + 1)[k] == NextBit(loc, Replay(EncodeBits(loc, k), k), k % 2 == 0)
  {
  }

  lemma {:induction false} PrefixIndex<T>(a: seq<T>, p: seq<T>, k: nat)
    requires k < |p| <= |a| && a[..|p|] == p
    ensures a[k] == p[k]
  {
    assert a[k] == a[..|p|][k];
  }

  lemma {:induction false} GroupValueAppend(bits: seq<bool>, from: nat, k: nat)
    requires from <= k < |bits| && k - from < 5
    ensures GroupValue(bits[from..k + 1])
      == GroupValue(bits[from..k]) + (if bits[k] then Bits[k - from] else 0)
  {
    assert bits[from..k + 1][..k - from] == bits[from..k];
  }


  /**
   * One pass of the encoder's loop: bisect the longitude range on a longitude
   * turn, the latitude range otherwise, keeping the half the coordinate lies in
   * (the upper one only when it is strictly above the midpoint), and set the
   * symbol bit of weight `Bits[bit]` when the upper half was kept.
   */
  method EncodeBit(latitude: real, longitude: real, lat: Interval, lon: Interval, even: bool, ch: int, bit: int)
    returns (lat': Interval, lon': Interval, ch': int)
    requires 0 <= bit < 5
    ensures var up := NextBit(Location(latitude, longitude), Box(lat, lon), even);
      Box(lat', lon') == Step(Box(lat, lon), even, up)
      && ch' == (if up then BitOr(ch, Bits[bit]) else ch)
  {
    lat', lon', ch' := lat, lon, ch;
    var mid;
    if even {
      mid := lon.Mid();
      if longitude > mid {
        ch' := BitOr(ch, Bits[bit]);
        lon' := Interval(mid, lon.hi);
      } else {
        lon' := Interval(lon.lo, mid);
      }
    } else {
      mid := lat.Mid();
      if latitude > mid {
        ch' := BitOr(ch, Bits[bit]);
        lat' := Interval(mid, lat.hi);
      } else {
        lat' := Interval(lat.lo, mid);
      }
    }
  }

  /** The encoder's state before its first pass, over the bits it is going to emit. */
  lemma {:induction false} EncoderStart(loc: Location, n: nat) returns (all: seq<bool>)
    ensures Encodes(loc, all) && EncoderState(all, n, 0, 0, "", 0, World, true)
  {
    all := EncodingOf(loc, 5 * n);
    assert all[0..0] == [];
  }

  /** When the loop stops, the symbols packed are the encoder's hash. */
  lemma {:induction false} EncodeFinish(loc: Location, all: seq<bool>, n: nat, k: nat, bit: int, geohash: string, ch: int, b: Box, even: bool)
    requires Encodes(loc, all) && EncoderState(all, n, k, bit, geohash, ch, b, even) && |geohash| >= n
    ensures geohash == EncodeHash(loc, n)
  {
    EncodesUnique(loc, all);
  }

  /**
   * One pass of the encoder's loop: a bisection, then either the next bit of
   * the symbol or, after its fifth bit, the symbol appended and a fresh one started.
   */
  method EncodeRound(latitude: real, longitude: real, lat: Interval, lon: Interval, even: bool, ch: int, bit: int, geohash: string,
                     ghost all: seq<bool>, ghost n: nat, ghost k: nat)
    returns (lat': Interval, lon': Interval, even': bool, ch': int, bit': int, geohash': string)
    requires EncoderState(all, n, k, bit, geohash, ch, Box(lat, lon), even) && |geohash| < n
    requires Encodes(Location(latitude, longitude), all)
    ensures EncoderState(all, n, k + 1, bit', geohash', ch', Box(lat', lon'), even')
  {
    lat', lon', ch' := EncodeBit(latitude, longitude, lat, lon, even, ch, bit);
    EncoderAdvance(Location(latitude, longitude), all, n, k, bit, geohash, ch, Box(lat, lon), even, ch', Box(lat', lon'));
    even' := !even;
    if bit < 4 {
      bit' := bit + 1;
      geohash' := geohash;
    } else {
      geohash' := geohash + [Symbol(ch')];  // Base32[ch'], by SymbolIsBase32
      bit' := 0;
      ch' := 0;
    }
  }

  /**
   * Encode, as `Geohash.Encode`'s loop: one bisection per iteration, a symbol every
   * fifth. A call without a precision uses 12, `Encode`'s default argument.
   */
  method Encode(latitude: real, longitude: real, precision: int := 12) returns (geohash: string)
    ensures |geohash| == EffectivePrecision(precision)
    ensures geohash == EncodeHash(Location(latitude, longitude), EffectivePrecision(precision))
  {
    var even := true;
    var bit := 0;
    var ch := 0;
    geohash := "";
    var lat := Interval(-90.0, 90.0);
    var lon := Interval(-180.0, 180.0);
    var n := precision;
    if n < 1 || n > 20 {
      n := 12;
    }
    ghost var loc := Location(latitude, longitude);
    ghost var all := EncoderStart(loc, n);
    ghost var k := 0;
    while |geohash| < n
      invariant EncoderState(all, n, k, bit, geohash, ch, Box(lat, lon), even)
      decreases 5 * n - k
    {
      lat, lon, even, ch, bit, geohash := EncodeRound(latitude, longitude, lat, lon, even, ch, bit, geohash, all, n, k);
      k := k + 1;
    }
    EncodeFinish(loc, all, n, k, bit, geohash, ch, Box(lat, lon), even);
  }
}
