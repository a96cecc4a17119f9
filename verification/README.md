# Quadkey codec: integer core

A Dafny model of the integer half of the `Quadkey` codec in `src/lib.rs`
(Bing Maps Tile System quadkeys). It covers:

- encoding a tile to a quadkey (`tile_to_quadkey`);
- decoding a quadkey to a tile (`quadkey_to_tile`);
- the nine neighbours of a quadkey (`neighbors`);
- the conversions between pixels and 256-pixel tiles (`pixel_to_tile`, `tile_to_pixel`);
- the integer tails of `encode` (pixel, then tile, then quadkey) and of
  `decode` (quadkey, then tile, then pixel corner).

A quadkey of length `p` names one tile of the `2^p` by `2^p` grid at zoom
level `p`. Its character `k` is `'0'` plus the column bit plus twice the row
bit, taken at bit `p - 1 - k` of the tile indices.

Modules:

- `Bits`: powers of two, bits of unbounded integers (two's-complement
  reading), the `i32` range and setting one bit of an `i32`.
- `Quadkey`: the tile and quadkey codec and its round trips.
- `Neighborhood`: `neighbors`.
- `Pixels`: pixel and tile conversions.
- `Vectors`: concrete cases.

Behaviour follows a build with overflow checks, which is how the test
suite runs. The source panics in three places, and each becomes a `Failure`
value of a `Result`:

- `InvalidDigit`: a quadkey character outside `'0'..'3'`.
- `ShiftOverflow`: a mask `1 << n` with `n >= 32` on an `i32`.
- `ArithmeticOverflow`: an `i32` sum or product that overflows.

Tile indices are unbounded integers. The `i32` range and the
two's-complement reinterpretation (`ToI32`) are written out where the
source reaches them:

- A 32-character quadkey whose first character is '1' or '3' sets bit 31
  of the column, and one whose first character is '2' or '3' sets bit 31 of
  the row, so that index decodes to a negative `i32`.
- `neighbors` can overflow on `tile +/- 1`.
- `tile_to_pixel` can overflow on `tile * 256`.

Rust's `/` truncates toward zero, so in `pixel_to_tile` a pixel in
(-256, 0) maps to tile 0. `TruncDiv` models the truncation.

## Model

| member | source | states |
|---|---|---|
| Quadkey.Digit | src/lib.rs:112-120 | The digit of a level is one of '0'..'3'. Its column bit is bit `level` of `x` and its row bit is bit `level` of `y`. |
| Quadkey.DigitDetermined | src/lib.rs:112-120 | Two quadkey digits that carry the same column bit and the same row bit are equal, so a digit and its bit pair determine each other. |
| Quadkey.TileToQuadkey | src/lib.rs:108-124 | The key has exactly `p` characters, all quadkey digits. |
| Quadkey.TileToQuadkeyDigit | src/lib.rs:111-120 | Character `k` of the key carries bit `p - 1 - k` of the column and of the row: the most significant level comes first. |
| Quadkey.TileToQuadkeyLoop | src/lib.rs:108-124 | The source's loop computes exactly the functional encoding. The loop runs `i` from `p` down to 1, tests bit `i - 1` of both indices (the source's mask `1 << (i - 1)`, whose `&` with an `i32` is nonzero exactly when that bit is set), adds 1 and 2 to '0', and pushes. |
| Quadkey.CheckedTileToQuadkey | src/lib.rs:108-124 | Encoding fails, with a shift overflow, exactly when the precision exceeds 32. Otherwise it yields a `p`-digit key that decodes to the tile reduced to the grid. |
| Quadkey.SameLowBitsSameQuadkey | src/lib.rs:111-120 | Tiles that agree on their low `p` bits have the same key at level `p`. |
| Quadkey.AxisBitsDigit | src/lib.rs:131-143 | In the value gathered for an axis, character `k` sets bit `|q| - 1 - k`. |
| Quadkey.QuadkeyToTile | src/lib.rs:126-146 | Decoding fails with a shift overflow exactly when the key is longer than 32. Otherwise it fails exactly when some character is not a quadkey digit, and then with an invalid digit. On success the precision is the length and both indices are `i32`. Below length 32 both indices lie in `[0, 2^p)`. |
| Quadkey.QuadkeyToTileLoop | src/lib.rs:126-146 | The source's loop computes exactly the functional decoding, errors included. It computes the mask before reading the character, so an over-long key is a shift overflow even when its first character is invalid. It ORs the mask into the column for '1' and '3' and into the row for '2' and '3', and stops with an invalid digit on any other character. |
| Bits.SetBit | src/lib.rs:135-141 | ORing the mask `1 << n` into an `i32` sets bit `n` and keeps each of the other 32 bits. |
| Quadkey.DecodedBit | src/lib.rs:131-143 | Bit `|q| - 1 - k` of the decoded column is set exactly when character `k` is '1' or '3'. The same bit of the row is set exactly when it is '2' or '3'. |
| Quadkey.FullWidthSign | src/lib.rs:126-146 | At length 32 the decoded column is negative exactly when the first character is '1' or '3', and the row exactly when it is '2' or '3'. |
| Quadkey.AxisBitsFitI32 | src/lib.rs:127-145 | Below length 32 the gathered bits never reach the `i32` sign bit. |
| Quadkey.AxisBitsOfTileToQuadkey | src/lib.rs:108-146 | Reading the axis bits back from an encoded key gives the tile index modulo `2^p`, for every integer index, negative ones included. |
| Quadkey.RoundTrip | src/lib.rs:108-146 | Decoding the encoding of any tile at level `p <= 32` gives both indices reduced modulo `2^p` and reinterpreted as `i32`, at precision `p`. |
| Quadkey.ExactRoundTrip | src/lib.rs:108-146 | A tile inside the grid (indices in `[0, 2^p)`) survives encode then decode unchanged. |
| Quadkey.FullWidthRoundTrip | src/lib.rs:108-146 | At precision 32 every `i32` tile survives encode then decode, negative indices included. |
| Quadkey.ReverseRoundTrip | src/lib.rs:108-146 | Every quadkey that decodes successfully is re-encoded to itself. |
| Quadkey.PrefixIsAncestor | src/lib.rs:108-124 | The first `k` characters of a level-`p` key are the key, at level `k`, of the tile with both indices shifted right by `p - k` bits. |
| Quadkey.SplitQuadkey | src/lib.rs:108-124 | The key at level `a + b` is the key of the ancestor `b` levels up followed by the key of the tile's position inside that ancestor (indices modulo `2^b`). |
| Quadkey.PrefixDecodesToAncestor | src/lib.rs:126-146 | A prefix of a valid key shorter than 32 decodes to the key's tile shifted right by the number of dropped levels. |
| Neighborhood.Neighbors | src/lib.rs:29-53 | A failed decode fails `neighbors` with the same error. Otherwise `neighbors` fails, with an arithmetic overflow, exactly when some `tile +/- 1` leaves the `i32` range. On success there are nine keys, each as long as the input and made of quadkey digits. |
| Neighborhood.NeighborList | src/lib.rs:32-50 | There are nine entries in row-major order: entry `k` is the key, at the same precision, of the tile at column offset `k % 3 - 1` and row offset `k / 3 - 1`. So the rows run from the one above to the one below, each from west to east. |
| Neighborhood.NoOverflowBelow31 | src/lib.rs:29-50 | A valid quadkey of at most 30 characters always has its nine neighbours: the offsets never overflow. |
| Neighborhood.NeighborIsOffsetTile | src/lib.rs:43-50 | Entry `k` of the result is the encoding of the decoded tile plus offset `k`. |
| Neighborhood.CentreIsSelf | src/lib.rs:32-50 | Entry 4, offset (0, 0), is the input quadkey itself. |
| Neighborhood.NeighborDecodes | src/lib.rs:29-53 | Entry `k` decodes to the offset tile reduced modulo `2^p` on both axes. A neighbour off one edge of the grid is the tile at the opposite edge. |
| Neighborhood.InGridNeighborDecodes | src/lib.rs:29-53 | A neighbour that stays inside the grid decodes to exactly the offset tile. |
| Neighborhood.WestEdgeWraps | src/lib.rs:29-53 | For a key of 1 to 30 levels in column 0, each western neighbour decodes to the last column, `2^p - 1`. No bounds check is made. |
| Pixels.TruncDiv | src/lib.rs:94-99 | The quotient brackets the dividend from below for non-negative input and from above for negative input, so it rounds toward zero. |
| Pixels.PixelToTile | src/lib.rs:94-99 | A non-negative pixel lies in the 256-pixel span of its tile. A negative one lies in the span mirrored about zero, because of the truncating division. |
| Pixels.TileToPixel | src/lib.rs:101-106 | The corner exists exactly when both products by 256 fit an `i32`, and otherwise the result is an arithmetic overflow. The corner is a multiple of 256 and maps back to the same tile. |
| Pixels.PixelInItsTile | src/lib.rs:94-106 | A non-negative pixel lies in the 256 by 256 block whose corner is the corner of its tile. |
| Pixels.TileCorner | src/lib.rs:94-106 | The corner of the tile that `pixel_to_tile` gives for a non-negative pixel is the pixel rounded down to a multiple of 256. |
| Pixels.PixelToQuadkey | src/lib.rs:14-16 | The key for a pixel has `p` quadkey digits. |
| Pixels.QuadkeyToPixel | src/lib.rs:20-22 | A decoding error propagates unchanged. After a successful decode the call fails, with an arithmetic overflow, exactly when the decoded column or row times 256 leaves the `i32` range. Otherwise the result is the corner `(x * 256, y * 256)`, which maps back to the decoded tile. |
| Pixels.ShallowQuadkeyHasPixel | src/lib.rs:20-22 | Every valid quadkey of at most 23 levels has a pixel corner in the `i32` range. |
| Pixels.DeepEastQuadkeyOverflows | src/lib.rs:20-22 | A valid quadkey of 24 to 31 levels that starts in the eastern half ('1' or '3') has no pixel corner: `x * 256` overflows. |
| Pixels.PixelToQuadkeyFindsTile | src/lib.rs:14-16 | A non-negative pixel inside the level-`p` raster is encoded as a key that decodes to the tile `pixel_to_tile` gives for it. |
| Pixels.PixelQuadkeyRoundTrip | src/lib.rs:14-22 | Encoding a pixel and decoding the key gives the pixel rounded down to a multiple of 256 on both axes. |
| Vectors.TileToQuadkeyVector | tests/lib.rs:114-121 | Tile (114, 403) at level 10 encodes to "0221130032". |
| Vectors.QuadkeyToTileVector | tests/lib.rs:124-131 | "0221130032" decodes to tile (114, 403) at precision 10. |
| Vectors.PixelTileVector | tests/lib.rs:94-111 | Pixel (29297, 103227) lies in tile (114, 403), whose corner is (29184, 103168). |
| Vectors.PixelToQuadkeyVector | src/lib.rs:14-16 | The integer tail of `encode` takes pixel (29297, 103227) at level 10 to "0221130032". |
| Vectors.InteriorNeighborsVector | src/lib.rs:29-53 | The neighbours of "03" are the nine tiles around (1, 1) in row-major order. |
| Vectors.DecodeTestKeyVector | tests/lib.rs:17-24 | "0221130032013320" decodes to tile (7324, 25806) at precision 16, the precision the decode test expects. |
| Vectors.DeepNeighborsVector | tests/lib.rs:26-42 | The neighbours of "0221130032013320" are the nine keys the test lists, in its order. |
| Vectors.CornerNeighborsVector | src/lib.rs:29-53 | The neighbours of "0" show every off-grid offset wrapping round to the opposite edge. |
| Vectors.InvalidDigitVectors | src/lib.rs:133-142 | "5" and "02x1" fail to decode with an invalid digit, and `neighbors` fails on "02x1" in the same way. |

## Left out

- `clip`, `map_size`, `ground_resolution`, `coordinates_to_pixel` and `pixel_to_coordinates`: floating-point arithmetic and transcendental functions are not modelled.
- The floating stages of `encode` and `decode` are left out. `encode` turns coordinates into a pixel and `decode` turns a pixel into coordinates. Only the integer tails are modelled, as `PixelToQuadkey` and `QuadkeyToPixel`.
- Builds without overflow checks: the model does not cover their wrap-around arithmetic and masked shift amounts. It follows the checked build that the tests use.
- Panic messages are not modelled. A panic is a `Failure` carrying its kind only.
- TileToQuadkey: requires `p <= 32`. Beyond that the source's first mask overflows the shift. That error path is modelled separately by `CheckedTileToQuadkey`.
- TileToQuadkeyLoop: requires `p <= 32`, for the same reason as `TileToQuadkey`.
- PixelToQuadkey: requires `p <= 32`. At larger precisions `encode` fails earlier, in `map_size`'s `1 << precision`, which belongs to the floating stage.
- QuadkeyToTile: uses the length in characters. The source's `len()` counts UTF-8 bytes. For a key that holds a non-ASCII character, the two can report different panic kinds (a shift overflow instead of an invalid digit). Both are failures.
- The `encode`/`decode` cases of the test suite (tests/lib.rs:7-24) are left out because they go through the floating stages. Only their integer part is proved: the key "0221130032013320" decodes to tile (7324, 25806) at precision 16 (`Vectors.DecodeTestKeyVector`).
