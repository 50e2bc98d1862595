/**
 * The geohash alphabet, the bit weights of a character and the bit-level
 * helpers the codec and the neighbour resolver share.
 */
module Alphabet {

  /** The 32 symbols; a symbol's position is the 5-bit value it carries. */
  const Base32: string := "0123456789bcdefghjkmnpqrstuvwxyz"

  /** The weights of the five bits of a symbol, most significant first. */
  const Bits: seq<int> := [16, 8, 4, 2, 1]

  /** Position of the first occurrence of `c` in `s`, or -1 (String.IndexOf). */
  function IndexOf(s: string, c: char): (r: int)
    ensures -1 <= r < |s|
  {
    if |s| == 0 then -1
    else if s[0] == c then 0
    else
      var k := IndexOf(s[1..], c);
      if k == -1 then -1 else k + 1
  }

  /** IndexOf finds the first occurrence, and reports -1 exactly when there is none. */
  lemma {:induction false} IndexOfSpec(s: string, c: char)
    ensures IndexOf(s, c) == -1 <==> c !in s
    ensures 0 <= IndexOf(s, c) ==> s[IndexOf(s, c)] == c
    ensures forall j :: 0 <= j < IndexOf(s, c) ==> s[j] != c
    decreases |s|
  {
    if |s| > 0 && s[0] != c {
      IndexOfSpec(s[1..], c);
      assert c in s <==> c in s[1..] by {
        assert s == [s[0]] + s[1..];
      }
      var k := IndexOf(s[1..], c);
      forall j | 0 <= j < IndexOf(s, c)
        ensures s[j] != c
      {
        if j > 0 {
          assert s[j] == s[1..][j - 1];
        }
      }
    }
  }

  /** No symbol occurs twice. */
  predicate Distinct(s: string) {
    forall i, j :: 0 <= i < j < |s| ==> s[i] != s[j]
  }

  lemma {:induction false} IndexOfDistinct(s: string, k: int)
    requires Distinct(s) && 0 <= k < |s|
    ensures IndexOf(s, s[k]) == k
  {
    IndexOfSpec(s, s[k]);
  }

  /** No symbol of the alphabet occurs twice. */
  lemma {:induction false} Base32Distinct()
    ensures |Base32| == 32
    ensures Distinct(Base32)
  {
    forall i, j | 0 <= i < j < |Base32|
      ensures Base32[i] != Base32[j]
    {
      SymbolIsBase32(i);
      SymbolIsBase32(j);
      SymbolValue(i, Base32[i]);
      SymbolValue(j, Base32[j]);
    }
  }

  /**
   * `Base32[v]` in closed form: the alphabet is the digits followed by the
   * lower-case letters without a, i, l and o.
   */
  function Symbol(v: int): char
    requires 0 <= v < 32
  {
    if v < 10 then ('0' as int + v) as char
    else if v < 17 then ('b' as int + v - 10) as char
    else if v < 19 then ('j' as int + v - 17) as char
    else if v < 21 then ('m' as int + v - 19) as char
    else ('p' as int + v - 21) as char
  }

  /** `IndexOf(Base32, c)` in closed form: the value a character carries, or -1. */
  function ValueOf(c: char): (r: int)
    ensures -1 <= r < 32
  {
    if '0' <= c <= '9' then c as int - '0' as int
    else if 'b' <= c <= 'h' then c as int - 'b' as int + 10
    else if 'j' <= c <= 'k' then c as int - 'j' as int + 17
    else if 'm' <= c <= 'n' then c as int - 'm' as int + 19
    else if 'p' <= c <= 'z' then c as int - 'p' as int + 21
    else -1
  }

  /** The closed form agrees with the table. */
  lemma {:induction false} SymbolIsBase32(v: int)
    requires 0 <= v < 32
    ensures |Base32| == 32 && Base32[v] == Symbol(v)
  {
  }

  /** Symbol and ValueOf are inverse on the alphabet. */
  lemma {:induction false} SymbolValue(v: int, c: char)
    ensures 0 <= v < 32 ==> ValueOf(Symbol(v)) == v
    ensures ValueOf(c) != -1 ==> Symbol(ValueOf(c)) == c
  {
  }

  /** The alphabet lookup of Geohash.cs, `IndexOf(Base32, c)`, is ValueOf. */
  lemma {:induction false} IndexOfBase32(c: char)
    ensures IndexOf(Base32, c) == ValueOf(c)
  {
    IndexOfSpec(Base32, c);
    SymbolValue(0, c);
    if ValueOf(c) != -1 {
      SymbolIsBase32(ValueOf(c));
      Base32Distinct();
      IndexOfDistinct(Base32, ValueOf(c));
    } else {
      forall i | 0 <= i < |Base32|
        ensures Base32[i] != c
      {
        SymbolIsBase32(i);
        SymbolValue(i, c);
      }
    }
  }

  /** ValueOf recognises exactly the characters of the alphabet. */
  lemma {:induction false} InAlphabet(c: char)
    ensures ValueOf(c) != -1 <==> c in Base32
  {
    IndexOfBase32(c);
    IndexOfSpec(Base32, c);
  }

  /** The single-bit masks the codec tests and sets: the entries of `Bits`. */
  predicate IsWeight(w: int) {
    w == 16 || w == 8 || w == 4 || w == 2 || w == 1
  }

  lemma {:induction false} BitsAreWeights(j: int)
    requires 0 <= j < 5
    ensures IsWeight(Bits[j])
  {
  }

  /** `(v & w) != 0` for a single-bit mask `w`, in two's complement (floor division). */
  predicate BitSet(v: int, w: int)
    requires IsWeight(w)
  {
    if w == 16 then (v / 16) % 2 == 1
    else if w == 8 then (v / 8) % 2 == 1
    else if w == 4 then (v / 4) % 2 == 1
    else if w == 2 then (v / 2) % 2 == 1
    else v % 2 == 1
  }

  /** Euclidean division is unique. */
  lemma {:induction false} DivUnique(x: int, w: int, q: int, r: int)
    requires w > 0 && x == w * q + r && 0 <= r < w
    ensures x / w == q
  {
    var q', r' := x / w, x % w;
    assert w * (q' - q) == r - r';
    if q' > q {
      MulAtLeast(w, q' - q);
    } else if q' < q {
      MulAtLeast(w, q - q');
    }
  }

  lemma {:induction false} MulAtLeast(w: int, d: int)
    requires w > 0 && d >= 1
    ensures w * d >= w
  {
  }

  /** The bit of weight `w` in `w * (2 * hi + d) + lo`, with `lo` below `w`, is the digit `d`. */
  lemma {:induction false} DigitAt(v: int, w: int, hi: int, d: int, lo: int)
    requires IsWeight(w) && 0 <= d <= 1 && 0 <= lo < w
    requires v == w * (2 * hi + d) + lo
    ensures BitSet(v, w) <==> d == 1
  {
    DivUnique(v, w, 2 * hi + d, lo);
    DivUnique(2 * hi + d, 2, hi, d);
  }

  /** `v | w` for a single-bit mask `w`, in two's complement. */
  function BitOr(v: int, w: int): (r: int)
    requires IsWeight(w)
    ensures BitSet(r, w)
    ensures !BitSet(v, w) ==> r == v + w
    ensures BitSet(v, w) ==> r == v
  {
    if BitSet(v, w) then v else SetClearBit(v, w); v + w
  }

  /** Adding a clear weight sets exactly that bit. */
  lemma {:induction false} SetClearBit(v: int, w: int)
    requires IsWeight(w) && !BitSet(v, w)
    ensures BitSet(v + w, w)
  {
    var q, lo := v / w, v % w;
    DivUnique(q, 2, q / 2, q % 2);
    DigitAt(v, w, q / 2, q % 2, lo);
    DigitAt(v + w, w, q / 2, 1, lo);
  }

  /** The five bits a symbol value carries, most significant first. */
  function CharBits(cd: int): (r: seq<bool>)
    ensures |r| == 5
  {
    [BitSet(cd, 16), BitSet(cd, 8), BitSet(cd, 4), BitSet(cd, 2), BitSet(cd, 1)]
  }

  lemma {:induction false} CharBitsAt(cd: int, j: int)
    requires 0 <= j < 5
    ensures CharBits(cd)[j] == BitSet(cd, Bits[j])
  {
  }

  /** Weight of the bit after the first `k` of a symbol; `Units[k] == 2 * Bits[k]`. */
  const Units: seq<int> := [32, 16, 8, 4, 2, 1]

  /** The value packed from the first `|g|` bits of a symbol, most significant first. */
  function GroupValue(g: seq<bool>): (r: int)
    requires |g| <= 5
    ensures 0 <= r && r + Units[|g|] <= 32
    decreases |g|
  {
    if |g| == 0 then 0
    else GroupValue(g[..|g| - 1]) + (if g[|g| - 1] then Bits[|g| - 1] else 0)
  }

  /** A group of at most five bits is worth a symbol value. */
  lemma {:induction false} GroupValueBelow(g: seq<bool>)
    requires |g| <= 5
    ensures 0 <= GroupValue(g) < 32
  {
    assert Units[|g|] >= 1;
  }

  function Bit01(b: bool): int {
    if b then 1 else 0
  }

  /** The plain binary number `g` spells, most significant bit first. */
  function Binary(g: seq<bool>): (r: int)
    ensures r >= 0
    decreases |g|
  {
    if |g| == 0 then 0 else 2 * Binary(g[..|g| - 1]) + Bit01(g[|g| - 1])
  }

  /** The first `k` bits of a symbol are worth `Units[k]` per unit of their binary value. */
  lemma {:induction false} GroupValueScaled(g: seq<bool>)
    requires |g| <= 5
    ensures |g| == 0 ==> GroupValue(g) == 0
    ensures |g| == 1 ==> GroupValue(g) == 16 * Binary(g)
    ensures |g| == 2 ==> GroupValue(g) == 8 * Binary(g)
    ensures |g| == 3 ==> GroupValue(g) == 4 * Binary(g)
    ensures |g| == 4 ==> GroupValue(g) == 2 * Binary(g)
    ensures |g| == 5 ==> GroupValue(g) == Binary(g)
    decreases |g|
  {
    if |g| > 0 {
      GroupValueScaled(g[..|g| - 1]);
    }
  }

  /** While a symbol is being packed, the weight of its next bit is still clear. */
  lemma {:induction false} NextWeightClear(g: seq<bool>)
    requires |g| < 5
    ensures !BitSet(GroupValue(g), Bits[|g|])
  {
    GroupValueScaled(g);
    var k := |g|;
    var b := Binary(g);
    if k == 0 {
      DigitAt(GroupValue(g), 16, b, 0, 0);
    } else if k == 1 {
      DigitAt(GroupValue(g), 8, b, 0, 0);
    } else if k == 2 {
      DigitAt(GroupValue(g), 4, b, 0, 0);
    } else if k == 3 {
      DigitAt(GroupValue(g), 2, b, 0, 0);
    } else {
      DigitAt(GroupValue(g), 1, b, 0, 0);
    }
  }

  lemma {:induction false} GroupValueSum(g: seq<bool>)
    requires |g| == 5
    ensures GroupValue(g) == 16 * Bit01(g[0]) + 8 * Bit01(g[1])
      + 4 * Bit01(g[2]) + 2 * Bit01(g[3]) + Bit01(g[4])
  {
    assert g[..4][..3] == g[..3] && g[..3][..2] == g[..2] && g[..2][..1] == g[..1];
    assert g[..1][..0] == [];
    assert GroupValue(g[..1]) == 16 * Bit01(g[0]);
    assert GroupValue(g[..2]) == GroupValue(g[..1]) + 8 * Bit01(g[1]);
    assert GroupValue(g[..3]) == GroupValue(g[..2]) + 4 * Bit01(g[2]);
    assert GroupValue(g[..4]) == GroupValue(g[..3]) + 2 * Bit01(g[3]);
  }

  /** Packing a full group and unpacking it again gives back the same bits. */
  lemma {:induction false} CharBitsOfGroupValue(g: seq<bool>)
    requires |g| == 5
    ensures CharBits(GroupValue(g)) == g
  {
    GroupValueSum(g);
    var v := GroupValue(g);
    var a, b, c, d, e := Bit01(g[0]), Bit01(g[1]), Bit01(g[2]), Bit01(g[3]), Bit01(g[4]);
    DigitAt(v, 16, 0, a, 8 * b + 4 * c + 2 * d + e);
    DigitAt(v, 8, a, b, 4 * c + 2 * d + e);
    DigitAt(v, 4, 2 * a + b, c, 2 * d + e);
    DigitAt(v, 2, 4 * a + 2 * b + c, d, e);
    DigitAt(v, 1, 8 * a + 4 * b + 2 * c + d, e, 0);
    var r := CharBits(v);
    assert r[0] == g[0] && r[1] == g[1] && r[2] == g[2] && r[3] == g[3] && r[4] == g[4];
  }

  /** Unpacking a value of 0..31 and packing it again gives back the same value. */
  lemma {:induction false} GroupValueOfCharBits(v: int)
    requires 0 <= v < 32
    ensures GroupValue(CharBits(v)) == v
  {
    var a := if v >= 16 then 1 else 0;
    var b := if v - 16 * a >= 8 then 1 else 0;
    var c := if v - 16 * a - 8 * b >= 4 then 1 else 0;
    var d := if v - 16 * a - 8 * b - 4 * c >= 2 then 1 else 0;
    var e := v - 16 * a - 8 * b - 4 * c - 2 * d;
    var g := [a == 1, b == 1, c == 1, d == 1, e == 1];
    GroupValueSum(g);
    CharBitsOfGroupValue(g);
  }

  /** Lower-casing of the ASCII letters; every other character is kept. */
  function ToLower(s: string): (r: string)
    ensures |r| == |s|
    ensures forall i :: 0 <= i < |s| ==> r[i] == LowerChar(s[i])
  {
    if |s| == 0 then [] else ToLower(s[..|s| - 1]) + [LowerChar(s[|s| - 1])]
  }

  function LowerChar(c: char): char {
    if 'A' <= c <= 'Z' then (c as int - 'A' as int + 'a' as int) as char else c
  }
}
