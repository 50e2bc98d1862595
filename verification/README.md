# geohash-net in Dafny

A model of the `Geohash` class of geohash-net (`geohash-net/Geohash.cs`) and of
the `Location` record it works with. The model has the following parts:

- **Encode.** The interleaved bisection of the longitude and latitude ranges.
  Longitude comes first. Each step emits a bit, and every five bits make a
  symbol of the Base32 alphabet `0123456789bcdefghjkmnpqrstuvwxyz`. A precision
  outside 1..20 becomes 12. A call without a precision uses 12, the default
  argument of `Encode`.
- **Decode.** The same bisection driven by the bits of the hash, returning the
  centre of the cell. A character outside the alphabet has `IndexOf` = -1,
  whose bits are all set, so it decodes like `z`.
- **RefineInterval.** One bisection step of a range.
- **CalculateAdjacent.** The neighbour of a hash in one of four directions.
  It uses the `Neighbors` and `Borders` lookup tables and recurses on the
  prefix when the last character lies on the border. Both of its exceptions
  are modelled as error values: `hash[hash.Length - 1]` on an empty string,
  and `Base32[-1]` for a character in no table row.
- **CalculateAngularSize.** The height and width in degrees reported for a
  hash of a given length.

Coordinates are exact `real`s. Strings are `seq<char>`. The project has nine
modules:

| module | file | contents |
|---|---|---|
| `Wrappers` | wrappers.dfy | the `Result` type for the operations that throw |
| `Locations` | location.dfy | `Location` |
| `Alphabet` | alphabet.dfy | `Base32`, `Bits`, `IndexOf`, the bit test `cd & mask`, `ch \|= mask`, `ToLower` |
| `Codec` | codec.dfy | `RefineInterval`, `Decode`, `Encode` and a functional reference for both, as replays of a bit sequence |
| `Sizes` | size.dfy | `CalculateAngularSize` and the true size of a cell |
| `Accuracy` | accuracy.dfy | containment, decoding error and the decode/encode round trip |
| `Neighbours` | neighbors.dfy | the lookup tables, checked entry by entry against a reference move on the 5-bit symbol value |
| `Adjacency` | adjacent.dfy | `CalculateAdjacent`, and its meaning as a move of one cell in the grid of all cells of a given length |
| `Placement` | placement.dfy | the row and column of a hash as the position of its decoded box, and `CalculateAdjacent` as a move of one cell on the globe |

The grid reference works as follows. Within a symbol, the latitude and the
longitude get three and two bits, or two and three. An even-length hash
gives an 8 x 4 grid and an odd-length hash a 4 x 8 grid. The row and the
column of a hash are its latitude and longitude digits in those bases, read
from the first character on. They are also the hash's latitude and
longitude bits read as binary numbers, so the decoded box of a hash is cell
(row, column) counted from the south-west corner of the globe. A neighbour table row holds, at position i, the
symbol one step from i in the opposite direction. A border row lists the
edge of the grid that its direction points at.

The second half of the `Neighbors` table (odd lengths) repeats the rows of
the first half with latitude and longitude exchanged. The model writes it
with the same named rows, in the order of Geohash.cs.

`Encode` replaces a precision outside 1..20 by 12 (`geohash-net/Geohash.cs:133`).
Only `CalculateAdjacent` lower-cases its input (`geohash-net/Geohash.cs:70`).
`Decode` (`geohash-net/Geohash.cs:96-121`) reads an upper-case letter as a
character outside the alphabet.

## Model

| member | source | states |
|---|---|---|
| Codec.RefineInterval | geohash-net/Geohash.cs:84-94 | the result is half as wide as the input; a set bit keeps the upper half and a clear bit the lower half; on a proper interval the result lies within the input |
| Codec.DecodeChar | geohash-net/Geohash.cs:104-117 | the five bits of one symbol, most significant first, refine the longitude range on a longitude turn and the latitude range otherwise; the parity flips |
| Codec.Decode | geohash-net/Geohash.cs:96-121 | the loop over the characters returns the centre of the box obtained by replaying the hash's bits from the whole globe |
| Codec.DecodePrefixReplays | geohash-net/Geohash.cs:98-118 | decoding the first i characters is the same as replaying the first 5i bits of the hash, alternating longitude and latitude |
| Codec.DecodeUnknown | geohash-net/Geohash.cs:104-107 | a character outside the alphabet (IndexOf gives -1) decodes exactly as 'z' |
| Codec.EffectivePrecision | geohash-net/Geohash.cs:133 | the precision used is between 1 and 20; a precision in range is kept, and any other becomes 12 |
| Codec.EncodeBit | geohash-net/Geohash.cs:139-160 | one bisection step of the encoder: it keeps the half holding the coordinate (upper only when strictly above the midpoint) and sets the current bit of the symbol exactly then |
| Codec.EncodeRound | geohash-net/Geohash.cs:137-170 | one pass of the encoder loop preserves the encoder invariant: the ranges are the replay of the bits so far, the finished symbols are their groups of five, and `ch` holds the pending bits |
| Codec.Encode | geohash-net/Geohash.cs:123-173 | the loop emits exactly the effective precision's number of characters, and they are the symbols of the bits the bisection chooses for the position |
| Codec.EncodesUnique | geohash-net/Geohash.cs:139-160 | only one bit sequence of a given length is chosen by the bisection for a position |
| Codec.EncodeBitsPrefix | geohash-net/Geohash.cs:135-171 | the bits chosen for a longer hash start with the bits chosen for a shorter one |
| Codec.CharsHashBits | geohash-net/Geohash.cs:104-107 | the bits the decoder reads from the symbols made of a bit sequence are that sequence |
| Codec.HashBitsChars | geohash-net/Geohash.cs:163-170 | the symbols made of the decoder's bits of a valid hash are the hash |
| Codec.EncodeHashValid | geohash-net/Geohash.cs:167 | the encoder's output has the requested length and only characters of the alphabet |
| Alphabet.IndexOfSpec | geohash-net/Geohash.cs:104 | `IndexOf` is -1 exactly when the character is absent, and otherwise gives its first position |
| Alphabet.IndexOf | geohash-net/Geohash.cs:104 | the position found is -1 or an index of the string; Alphabet.IndexOfSpec states which |
| Alphabet.DigitAt | geohash-net/Geohash.cs:86 | `(cd & mask) != 0` for a single-bit mask is the binary digit of `cd` at that weight |
| Alphabet.IndexOfBase32 | geohash-net/Geohash.cs:46 | the position of a character in Base32 is its symbol value, -1 outside the alphabet |
| Alphabet.InAlphabet | geohash-net/Geohash.cs:46 | a character has a symbol value exactly when it occurs in Base32 |
| Alphabet.SymbolValue | geohash-net/Geohash.cs:46 | symbol and value are inverse on the 32 symbols |
| Alphabet.Base32Distinct | geohash-net/Geohash.cs:46 | the alphabet has 32 distinct characters |
| Alphabet.BitOr | geohash-net/Geohash.cs:144 | `ch \|= mask` sets the mask's bit, adding the mask when the bit was clear and changing nothing otherwise |
| Alphabet.CharBitsOfGroupValue | geohash-net/Geohash.cs:47 | five bits packed with the weights 16, 8, 4, 2, 1 give back the same bits when read through those weights |
| Alphabet.GroupValueOfCharBits | geohash-net/Geohash.cs:47 | reading the five bits of a symbol value and packing them again gives the value |
| Alphabet.ToLower | geohash-net/Geohash.cs:70 | lower-casing keeps the length and maps each character by itself |
| Sizes.AngularSize | geohash-net/Geohash.cs:201-209 | the reported width is twice the reported height, and both are positive |
| Sizes.AngularSizeOfLength | geohash-net/Geohash.cs:202 | the reported size depends only on the length of the hash |
| Sizes.AngularSizeShrinks | geohash-net/Geohash.cs:201-209 | a longer hash never reports a larger height or width |
| Sizes.AngularSizeOfOneChar | geohash-net-unit-tests/BoundingBoxSize.cs:64-73 | a one-character hash reports 22.5 by 45 degrees |
| Sizes.AngularSizeAgainstCell | geohash-net/Geohash.cs:203-206 | the reported width is the cell's width; the height is the cell's for an even length and half of it for an odd length |
| Sizes.OneCharCell | geohash-net/Geohash.cs:203-205 | the cell of one character is 45 by 45 degrees, and the reported height of 22.5 differs from it |
| Accuracy.ReplaySize | geohash-net/Geohash.cs:84-94 | after n bits, whatever they are, the latitude range has been halved n/2 times and the longitude range (n+1)/2 times |
| Accuracy.ReplayNested | geohash-net/Geohash.cs:84-94 | each box of a bisection lies within every earlier one |
| Accuracy.StepHalves | geohash-net/Geohash.cs:139-160 | one bisection halves the range it works on, nests inside it on a proper box and leaves the other range alone |
| Accuracy.StepKeeps | geohash-net/Geohash.cs:139-160 | the half the encoder keeps still holds the position |
| Accuracy.EncodeContains | geohash-net/Geohash.cs:135-171 | a position in range lies in the box of the bits the encoder chooses for it |
| Accuracy.EncodedCellContains | geohash-net/Geohash.cs:123-173 | a position in range lies in the cell its hash decodes to |
| Accuracy.DecodeBoxSize | geohash-net/Geohash.cs:96-121 | the cell of an n-character hash has the true cell size for n characters, whatever the characters |
| Accuracy.OneCharCellHeight | geohash-net/Geohash.cs:201-209 | a one-character cell is 45 degrees high while the reported height is 22.5 |
| Accuracy.RoundTripError | geohash-net-unit-tests/Accuracy.cs:82-120 | decoding the hash of a position in range is off by at most half the cell height in latitude and half the cell width in longitude |
| Accuracy.RoundTripWithinAngularSize | geohash-net-unit-tests/Accuracy.cs:88-119 | the decoding error is within the reported height in latitude and within half the reported width in longitude |
| Accuracy.RoundTripStrictEven | geohash-net-unit-tests/Accuracy.cs:118 | for an even length (the tests at 6, 8, 10 and 12 characters), the latitude error is strictly below the reported height |
| Accuracy.RoundTripAtReportedHeight | geohash-net-unit-tests/Accuracy.cs:118 | for an odd length the strict bound can fail: (0, 0) at one character encodes to "7", whose decoded latitude is off by 22.5, exactly the reported height |
| Accuracy.CenterEncodes | geohash-net/Geohash.cs:139-160 | the encoder, run on the centre of the box of a bit sequence, chooses exactly that sequence |
| Accuracy.EncodeDecoded | geohash-net/Geohash.cs:96-173 | encoding the decoded centre of a valid hash at the hash's length gives the hash back |
| Neighbours.NeighborsAt | geohash-net/Geohash.cs:49-61 | entry i of the neighbour row for a direction is the symbol one step from i in the opposite direction, for both types |
| Neighbours.BordersAt | geohash-net/Geohash.cs:63-66 | each border row lists, in order, the symbols on the grid edge that its direction points at |
| Neighbours.Transpose | geohash-net/Geohash.cs:55-60 | a move in the odd-length grid is the even-length move with latitude and longitude exchanged |
| Neighbours.MoveParts | geohash-net/Geohash.cs:49-61 | a move steps the latitude or longitude part of the symbol by one and wraps to the other edge |
| Neighbours.WrapsOutside | geohash-net/Geohash.cs:63-66 | a move wraps exactly when the stepped part leaves the grid of the symbol |
| Neighbours.MoveBack | geohash-net/Geohash.cs:49-61 | a move followed by the opposite move gives the symbol back |
| Neighbours.NeighborIndex | geohash-net/Geohash.cs:81 | looking a character up in the neighbour row gives the value of its neighbour, and -1 outside the alphabet |
| Neighbours.BorderMember | geohash-net/Geohash.cs:77 | a character is in the border row exactly when it is in the alphabet and its move wraps |
| Adjacency.Adjacent | geohash-net/Geohash.cs:68-82 | a neighbour, when one is found, has the length of the hash |
| Adjacency.AdjacentLast | geohash-net/Geohash.cs:72-81 | off the border only the last character changes, to the moved symbol; on the border the prefix's neighbour (or its error) comes first, followed by the moved symbol |
| Adjacency.AdjacentInside | geohash-net/Geohash.cs:77-81 | when the last symbol's move does not wrap, the prefix is kept and the last character becomes the moved symbol |
| Adjacency.AdjacentAcross | geohash-net/Geohash.cs:77-81 | when the last symbol's move wraps, the result is the prefix's neighbour followed by the moved symbol, or the prefix's error |
| Adjacency.AdjacentCell | geohash-net/Geohash.cs:68-82 | for a valid non-empty hash, a neighbour is found exactly when the next cell is inside the world; it is a valid hash of the same length one row or column away; the only failure is running out of characters |
| Adjacency.CellUnique | geohash-net/Geohash.cs:102-118 | two valid hashes of one length naming the same row and column are equal |
| Adjacency.AdjacentBack | geohash-net/Geohash.cs:68-82 | whenever a valid hash has a neighbour, the neighbour's neighbour in the opposite direction is the hash |
| Adjacency.MoveBackCell | geohash-net/Geohash.cs:68-82 | any valid hash one cell away in a direction has the original hash as its neighbour in the opposite direction |
| Adjacency.AdjacentIgnoresCase | geohash-net/Geohash.cs:70 | the result is the same for a hash and for its lower-cased form |
| Placement.ReplayCorner | geohash-net/Geohash.cs:84-94 | after n bits, the box's south-west corner lies as many box heights north of -90 as its latitude bits read in binary, and as many box widths east of -180 as its longitude bits |
| Placement.SymbolParts | geohash-net/Geohash.cs:105-116 | the three-bit part `Major` and the two-bit part `Minor` of a symbol are its bits at the weights 16, 4, 1 and 8, 2; `Major` is the latitude part for an even length and the longitude part for an odd length |
| Placement.CharIndex | geohash-net/Geohash.cs:104-117 | the five bits of one symbol extend the latitude and longitude numbers by the parts Row and Column add for it, three bits to one axis and two to the other by parity |
| Placement.HashIndex | geohash-net/Geohash.cs:102-118 | the latitude bits of a valid hash, read in binary, are its row, and its longitude bits its column |
| Placement.DecodeCorner | geohash-net/Geohash.cs:96-121 | the decoded box of a valid hash has the cell size of its length, with its south-west corner at row cell heights north of -90 and column cell widths east of -180 |
| Placement.CellBoxes | geohash-net/Geohash.cs:96-121 | two valid hashes of one length whose rows and columns differ by dr and dc decode to boxes of one size, dr heights and dc widths apart |
| Placement.AdjacentBoxes | geohash-net/Geohash.cs:68-82 | a neighbour found by CalculateAdjacent decodes to the box of the same size one cell height north or south, or one cell width east or west, of the hash's box |
| Placement.CellsPow2 | geohash-net/Geohash.cs:98-118 | the count `Cells(e)` of rows (e the 5n/2 latitude bits of n characters) or columns (e the (5n+1)/2 longitude bits) is exactly 2^e, one per value of those bits |
| Placement.GridCoversGlobe | geohash-net/Geohash.cs:98-118 | the rows of the n-character grid, each one cell high, fill the 180 degrees from -90 to 90, and its columns fill the 360 degrees from -180 to 180 |
| Adjacency.AdjacentFails | geohash-net/Geohash.cs:72-81 | an empty hash fails at the last-character read; a last character outside the alphabet once lower-cased fails at the Base32 lookup |

## Left out

- CalculateSize and DegreeToRadian (`geohash-net/Geohash.cs:215-232`) and `LocationExtensions.ToRadian` compute metres with cosines of doubles; no real trigonometry is modelled.
- IEEE double rounding: midpoints and divisions are exact reals. So the exact equality asserted in `geohash-net-unit-tests/Test.cs` is not modelled. Nor are long hashes, where doubles stop halving exactly. Beyond about 20 characters, the midpoints of `Decode` round. From 410 characters, `Math.Pow(2.0, power)` in `CalculateAngularSize` overflows to infinity and the reported size becomes 0, where the model's `Sizes.AngularSize` stays positive.
- Calls that pass a `Location` to `Encode` or read `Latitude`/`Longitude` from `Decode`, as the unit tests do: those overloads are not part of this model. `Decode` returns the pair as two outputs.
- `Location` has mutable properties and a parameterless constructor; the model is an immutable datatype.
- Alphabet.ToLower, Adjacency.AdjacentIgnoresCase: `String.ToLower` is culture-aware, and the model lower-cases ASCII letters only. So a non-ASCII character that .NET lower-cases into the alphabet is treated differently. For example, the Kelvin sign U+212A becomes 'k' in Geohash.cs and is read as 'k' there. In the model it stays outside the alphabet and decodes like 'z'.
- The cast `(Direction) dir` of an arbitrary integer: only the four named directions are modelled.
- Null strings and the resulting NullReferenceException are not modelled.
- Codec.Decode, Codec.Encode: look symbols up with the closed forms `ValueOf` and `Symbol` rather than `Base32.IndexOf` and `Base32[...]`. Alphabet.IndexOfBase32 and Alphabet.SymbolIsBase32 prove the two equal.
- Codec.RefineInterval: models `cd & mask` for the single-bit masks of `Bits` only, since no other mask is ever passed.
- Adjacency.AdjacentCell: does not state anything for a hash containing characters outside the alphabet, beyond the last-character case covered by Adjacency.AdjacentFails.
- Codec.Decode, Codec.DecodeUnknown, Sizes.AngularSize, Adjacency.Adjacent: a model character is a Unicode scalar value, while a C# `char` is a UTF-16 code unit. A character outside the Basic Multilingual Plane is one character here and two surrogates in Geohash.cs, so `Length`, the last character and the decoded bits differ for such strings. Every character of the alphabet is in the Basic Multilingual Plane.
- Accuracy.RoundTripWithinAngularSize: bounds the error by `<=`, not the unit test's strict `<`. For an odd length the latitude error can equal the reported height (Accuracy.RoundTripAtReportedHeight), because that height is half the cell height, which is also the largest error (Accuracy.RoundTripError). The Reykjavik tests at 5, 7 and 9 characters (`geohash-net-unit-tests/Accuracy.cs:13`, 25 and 37) are exactly the cases where only `<=` holds. Their strict assertion holds only if the sample lies off the latitude grid lines. Accuracy.RoundTripStrictEven gives `<` for every even length, which covers the tests at 6, 8, 10 and 12 characters.
- `geohash-net-test/Program.cs`, a console driver, is not part of this model.

## Findings

| source | as written | input that shows it | evidently intended | confidence | as-written member | corrected member |
|---|---|---|---|---|---|---|
| geohash-net/Geohash.cs:203-205 | the height is 180 / 2^((5n + n % 2) / 2) for n characters | any hash of one character, e.g. the hash of (0, 0) at precision 1: reported height 22.5, cell height 45 | the height of the cell (the documented "box height"), 180 / 2^(5n / 2), which differs for every odd n; the unit test at geohash-net-unit-tests/BoundingBoxSize.cs:64-73 pins the as-written 22.5. For the same reason, the strict round-trip bound in the accuracy tests at 5, 7 and 9 characters (geohash-net-unit-tests/Accuracy.cs:118) has no margin: the largest latitude error equals the reported height (Accuracy.RoundTripAtReportedHeight) | medium, not executed | Accuracy.OneCharCellHeight | Sizes.CellSize, proved to be the decoded cell's size by Accuracy.DecodeBoxSize |
