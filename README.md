# Ascede image engine and tracked allocator in Dafny

This project models two parts of the Ascede C game library:

- The CPU image engine of `src/rtextures.c`. It covers:
  - the pixel codec (Color_GetPixel, Color_SetPixel, Color_AlphaBlend, Color_GetPixelDataSize);
  - the operations that make, copy, crop, flip, rotate, resize, recolour, dither and draw into an `Image` held in memory;
  - the private helpers LoadImageColors, LoadImagePalette, GetImageAlphaBorder, GetImageColor and Glyph_GetIndex.
- The tracked allocator of `src/ascmem.c`: a table of 128 live pointers and a 32-bit unsigned count of the blocks in use.

An `Image` is a class (`Images.Image`) with the fields `data`, `width`, `height`, `mipmaps` and `format`.

- `data` is a byte array. It is `null` when the image has no buffer.
- The C functions that take an `Image *` are methods that change those fields. They allocate a fresh array where the C code allocates a new buffer.
- Every method is specified against functions on sequences:
  - `View()` sees the base level as rows of cells;
  - `LoadedColors` / `ColorsOf` give the colours LoadImageColors decodes;
  - `PlotAll` draws a list of points;
  - `Dithered` gives the dithered colours.
- Lemmas prove what the operations promise: involutions, round trips, coverage, bounds, and the first-match behaviour of the searches.

Floating-point arithmetic is not modelled. The conversions between floats and bytes, the float encoders, the `stbir` resampler and the format conversion are fields of a `Colors.FloatOps` value that every operation receives. The integer paths follow the code as written, including the 16.16 fixed-point nearest-neighbour map and its flat read index, the Bresenham and midpoint loops, the integer alpha blend with its byte casts, and the packed 16-bit layouts with their masks and scale factors.

Two assumptions fix what the C code leaves to headers and hardware that are not part of this model:

- The pixel-format tags follow raylib's enumeration order: 1 = GRAYSCALE … 10 = R32G32B32A32, 11 = DXT1_RGB … 21 = ASTC_8x8_RGBA.
- An `unsigned short` pixel is stored little-endian (`Bytes.Word`).

The allocator is the class `AscMem.Allocator`. Its fields are the `pool` array of 128 slots, where 0 is NULL, the counter `inUse`, and a flag `exited` that records `ASC_ERROR`'s `exit(-1)`. What `malloc`, `calloc` and `realloc` return is a parameter of each method. Every method is proved equal to a function on `PoolState` values, and the lemmas about those functions state what the table keeps track of.

Where the model of the code as written does not do what it evidently means to do, the operations still follow the code as written. A lemma exhibits the discrepancy on a concrete input, and the evidently intended definition is a separate member with its property proved (see "## Findings").

## Model

| member | source | states |
|---|---|---|
| Bytes.Word | src/rtextures.c:3034-3057 | a 16-bit pixel word lies in [0, 65536) and its low and high bytes are the two stored bytes |
| Bytes.WordBytes | src/rtextures.c:1272 | the two bytes written for a 16-bit word read back as that word |
| Bytes.CopyBytes | src/rtextures.c:619 | memcpy of n bytes: the target range equals the source range and every other byte is kept |
| Bytes.Fit | src/rtextures.c:1130-1132 | the caller's buffer of n bytes holds the first n bytes of a result, zero-padded past its end |
| PixelFormats.BytesPerPixelTable | src/rtextures.c:3176-3218 | bytes per pixel of every uncompressed format (1, 2, 3, 4, 12, 16), and 0 for unknown tags |
| PixelFormats.UncompressedSize | src/rtextures.c:3176-3218 | outside block compression the data size is width*height*bytesPerPixel, so a buffer is a grid of cells |
| PixelFormats.SmallBlockSizes | src/rtextures.c:3207-3215 | an image smaller than 4x4 takes one block of 8 bytes (DXT1) or 16 bytes (DXT3 to ASTC 4x4) |
| PixelFormats.SmallBlockCovers | src/rtextures.c:3176-3218 | the block minimum never allocates less than width*height*bpp/8 |
| PixelFormats.SizeMonotone | src/rtextures.c:3176-3218 | the data size never shrinks when a dimension grows |
| PixelFormats.MipLevelsLog | src/rtextures.c:1112-1126 | the halving chain from (w, h) has 1 + floor(log2(max(w, h))) levels |
| PixelFormats.MipChainShift | src/rtextures.c:602-612 | the first k+n levels are the first k levels followed by n levels from level k |
| PixelFormats.MipAfterClosedForm | src/rtextures.c:606-611 | k clamped halvings give max(d / 2^k, 1) |
| PixelFormats.MipChainEndsAtOne | src/rtextures.c:1113-1120 | the last level of the counted chain is 1x1 |
| PixelFormats.CopySize | src/rtextures.c:598-612 | Image_Copy's size loop sums the data size of the declared mipmap levels |
| PixelFormats.CountMipLevels | src/rtextures.c:1107-1126 | the counting loop yields the level count and the byte size of the whole chain |
| Colors.UChar | src/rtextures.c:3063 | a float-to-byte cast of an integral value in range is exact |
| Colors.TintBound | src/rtextures.c:2976-2979 | a tinted channel is at most 254, and a full tint of 255 lowers a non-zero channel by exactly one |
| Colors.TintedAlphaBelowOpaque | src/rtextures.c:2979-2985 | the tinted alpha never reaches 255, so the opaque shortcut never fires |
| Colors.BlendAlphaRange | src/rtextures.c:2988-2989 | the blended alpha lies between the source alpha + 1 and 255, and is at least the destination alpha |
| Colors.AlphaBlendAlpha | src/rtextures.c:2984-2997 | a transparent tinted source keeps dst; otherwise the result's alpha is above the tinted source alpha and at least the destination alpha |
| Colors.BlendOverTransparent | src/rtextures.c:2986-2996 | over a transparent destination the blend yields the tinted source with alpha one higher |
| Colors.BlendQuotientLower | src/rtextures.c:2993-2995 | a blended channel quotient is at least the smaller of the two input channels |
| Colors.SaturatedChannel | src/rtextures.c:2993-2995 | one saturated channel is at least the smaller input and equals the as-written cast when it fits in a byte |
| Colors.SaturatedBlendBetween | src/rtextures.c:2984-2997 | the saturated blend never darkens a channel below both inputs and agrees with the as-written blend when no quotient exceeds 255 |
| Colors.BlendWrapsWhiteOnWhite | src/rtextures.c:2993 | white over alpha-1 white: the as-written red channel wraps to 124, the saturated one is 255 |
| Colors.PackedFieldsRoundTrip | src/rtextures.c:3034-3057 | the decoders' shifts and masks recover every field of the 565, 5551 and 4444 layouts |
| Colors.DecodersDiffer565 | src/rtextures.c:1878-1887 | LoadImageColors' `255/31` integer factors decode R5G6B5 darker than Color_GetPixel by an exact amount (248 against 255 for full red) |
| Colors.GetPixelBlueTakesAlphaBit | src/rtextures.c:3046 | Color_GetPixel as written decodes the R5G5B5A1 word 1 (opaque black, bytes [1, 0]) with blue 8 |
| Colors.GetPixel5551FixedFields | src/rtextures.c:3042-3049 | with the blue field masked after the shift, each field of a packed 5551 word decodes on its own |
| Colors.LoadedR32ReadsFirstPixel | src/rtextures.c:1916-1922 | LoadImageColors as written decodes every R32 pixel from the first float; other formats are unaffected |
| Colors.LoadedMatchesImageColor | src/rtextures.c:1834-1948 | the corrected LoadImageColors decode and GetImageColor agree on every pixel of every uncompressed format; the decode as written agrees outside R32 and gives every R32 pixel the colour of pixel 0 |
| Colors.SetPixel | src/rtextures.c:3094-3172 | Color_SetPixel writes exactly one pixel's bytes for the formats it handles and nothing for the others |
| Colors.SetPixelRoundTrip | src/rtextures.c:3094-3172 | set-then-get is exact in R8G8B8A8 and exact but opaque in R8G8B8 |
| Colors.GetPixel | src/rtextures.c:3026-3091 | Color_GetPixel: one pixel decoded from its bytes in each uncompressed format, R5G5B5A1 blue as written; `Blank` for the others |
| Colors.GetPixelPacked | src/rtextures.c:3034-3057 | the 16-bit layouts of Color_GetPixel: each field scaled by `*255/max`, R5G5B5A1 blue taken from the low five bits |
| Colors.LoadedPacked | src/rtextures.c:1868-1897 | the 16-bit layouts of LoadImageColors and GetImageColor: fields multiplied by the integer quotients 255/31, 255/63 and 255/15 |
| Colors.LoadedPixel | src/rtextures.c:1849-1944 | pixel i as LoadImageColors decodes it as written: R32 always reads the first float, R32G32B32A32 reads its first float into all four channels |
| Colors.LoadedPixelFixed | src/rtextures.c:1916-1922 | the R32 case reading pixel i's own float |
| Colors.ImageColorAt | src/rtextures.c:2060-2160 | GetImageColor's decode of pixel y*width + x, with each case's own index arithmetic |
| Colors.AlphaBlend | src/rtextures.c:2971-2998 | Color_AlphaBlend as written: each blended channel quotient cast to a byte |
| Colors.AlphaBlendSaturated | src/rtextures.c:2971-2998 | the blend with each channel saturated at 255 |
| Grids.Grid | src/rtextures.c:1281-1411 | a buffer seen as `height` rows of `width` cells |
| Grids.GridCells | src/rtextures.c:1281-1411 | cell (x, y) of the grid is bytes (y*w + x)*bpp … +bpp of the buffer |
| Grids.FlipVInvolution | src/rtextures.c:1281-1302 | flipping vertically twice restores the grid |
| Grids.FlipHInvolution | src/rtextures.c:1305-1347 | flipping horizontally twice restores the grid |
| Grids.FlipShapes | src/rtextures.c:1281-1411 | the flips keep the shape and the quarter turns swap width and height |
| Grids.RotateInverse | src/rtextures.c:1350-1411 | a clockwise turn and a counter-clockwise turn undo each other, in either order |
| Grids.HalfTurn | src/rtextures.c:1350-1379 | two clockwise turns are both flips |
| Grids.GridInjective | src/rtextures.c:1281-1411 | buffers of exactly w*h cells with equal grids are equal: the view loses nothing |
| Grids.BlockStep | src/rtextures.c:678-682 | one memcpy per row extends the copied block by a row |
| Grids.BlockIsSubGrid | src/rtextures.c:673-682 | a block copied into a whole buffer is that sub-grid of the source |
| Grids.CopyRows | src/rtextures.c:678-682 | the row-by-row memcpy loop copies the block and keeps every cell outside it |
| Images.Image.constructor | src/rtextures.c:574-589 | a new image holds the given buffer, size, mipmap count and format |
| Images.Flatten | src/rtextures.c:1581-1582 | an array of colours read as R8G8B8A8 bytes is 4 bytes per colour |
| Images.LoadedColors | src/rtextures.c:1834-1948 | LoadImageColors as written yields one colour per pixel |
| Images.FlattenRoundTrip | src/rtextures.c:1898-1906 | decoding the bytes of a colour array as R8G8B8A8 gives the array back |
| Images.Gen | src/rtextures.c:574-589 | Image_Gen: a fresh width x height R8G8B8A8 image, one level, every pixel the colour |
| Images.Copy | src/rtextures.c:594-628 | Image_Copy: a fresh image with the same fields whose buffer is the declared mip chain, and the same base view |
| Images.FromImage | src/rtextures.c:631-649 | Image_FromImage: a fresh one-level image whose view is the rectangle of the source view |
| Images.DecodeStep | src/rtextures.c:1849-1944 | one pass of the decode switch as written yields pixel i and the read index of pixel i+1, which the R32 case never advances |
| Images.LoadColors | src/rtextures.c:1834-1948 | no array for an image without pixels; otherwise w*h colours, which are the pixels as LoadImageColors decodes them as written, in every uncompressed format |
| Formatting.Resize | src/rtextures.c:1690-1738 | Image_Resize: the new size in the same format; for the four byte formats the resampler's output fills the buffer |
| Formatting.FirstMipLevelAgrees | src/rtextures.c:1138-1139 | the unclamped first level w/2 x h/2 agrees with the clamped one exactly when both dimensions are at least 2 |
| Formatting.FirstMipLevelUnclamped | src/rtextures.c:1138-1140 | a 1x4 image gets a 0-byte first level where its chain reserved 8 bytes |
| Formatting.LevelPlacement | src/rtextures.c:1143-1161 | with the clamped first level, the i-th level written starts after the first i levels and ends inside the chain |
| Formatting.GeneratedMipmapsAgree | src/rtextures.c:1151 | the fixed count is the number of levels in the buffer; the `mipmaps++` count agrees with it exactly when the image had one level |
| Formatting.MipmapsOvercount | src/rtextures.c:1128-1151 | a 4x4 image with 2 levels ends with mipmaps 4 where the chain has 3 levels and 84 of 88 bytes |
| Formatting.Realloc | src/rtextures.c:1130-1132 | realloc: a fresh buffer of the new size that keeps the old bytes it can hold |
| Formatting.WriteLevel | src/rtextures.c:1147-1150 | one pass: the working copy is resized to the level and its bytes land at the offset, the bytes around them kept; a level of no bytes leaves the buffer as it was |
| Formatting.LoopStep | src/rtextures.c:1136-1161 | one pass of the generation loop writes inside the chain after the base level, writes no bytes on an image one pixel wide or high, and the next pass starts where it ends at the halved size |
| Formatting.FillLevels | src/rtextures.c:1136-1161 | the generation loop, from the unclamped first level w/2 x h/2, leaves the base level untouched, and the whole buffer on an image one pixel wide or high |
| Formatting.GenMipmaps | src/rtextures.c:1102-1166 | nothing changes for an empty image or one with enough levels; otherwise the buffer is the full chain with the base level kept, and mipmaps grows from its old value by one per generated level (by none on a 1 x 1 image) |
| Formatting.Reencode | src/rtextures.c:704-877 | the new buffer holds the converted base level for uncompressed targets, and is null for others |
| Formatting.SetFormat | src/rtextures.c:704-877 | Image_SetFormat's guards, the converted base level, and the regenerated chain when the image had mipmaps |
| Nearest.NNSourceFixed | src/rtextures.c:1758-1761 | the index map kept inside the source, equal to the as-written map wherever that is inside |
| Nearest.NNSourceMonotone | src/rtextures.c:1750-1759 | the 16.16 index map is monotone |
| Nearest.NNSourceOutOfBounds | src/rtextures.c:1750-1761 | 1 pixel wide scaled to 257: target column 256 reads source column 1, past the only column |
| Nearest.NNSourceInBounds | src/rtextures.c:1750-1761 | when the last target coordinate reads inside the source, every coordinate does, and the clamp changes nothing |
| Nearest.NNDownscaleInBounds | src/rtextures.c:1750-1761 | shrinking always reads inside the source |
| Nearest.NNIndexInside | src/rtextures.c:1754-1761 | when the last target pixel's flat read index is inside the colours, every target pixel's is |
| Nearest.NNIndexFixed | src/rtextures.c:1758-1761 | where both coordinates stay inside the source, the flat index is the cell of the clamped map |
| Nearest.NNReadsNextRow | src/rtextures.c:1758-1761 | a 1x3 image scaled to 257x2: target (0, 256) reads flat index 1, the first pixel of the next row |
| Nearest.NNSameSizeInside | src/rtextures.c:1750-1761 | at the same size (below 65536) every read is inside |
| Nearest.NNProductBound | src/rtextures.c:1750-1759 | `x*ratio` stays below `(size << 16) + newSize` |
| Nearest.NNNoOverflow | src/rtextures.c:1747-1761 | under the definedness condition, `size << 16`, `x*ratio` and the target index fit a 32-bit `int` |
| Nearest.NNSameSize | src/rtextures.c:1750-1758 | at the same size every coordinate maps to itself |
| Nearest.NNColorsSameSize | src/rtextures.c:1754-1763 | scaling to the same size gives the colours back |
| Nearest.ResizeNNSameSizeIdentity | src/rtextures.c:1741-1777 | a same-size nearest-neighbour resize of an R8G8B8A8 image gives its base level back byte for byte |
| Nearest.NNAt | src/rtextures.c:1761 | target pixel (x, y) is the colour at the as-written flat index y2*width + x2, both indices inside their arrays |
| Nearest.ScaleRow | src/rtextures.c:1756-1762 | one target row holds the colours at the as-written flat indices and every other entry is kept |
| Nearest.ScaleRows | src/rtextures.c:1754-1763 | the scan fills the whole target array with the colours at the as-written flat indices |
| Nearest.ScaleColors | src/rtextures.c:1747-1763 | a fresh newWidth x newHeight array holding the colours at the as-written flat indices |
| Nearest.ResizeNN | src/rtextures.c:1741-1777 | Image_ResizeNN: new size, same format, and the colours read at the as-written flat indices of the as-written decode, stored back in that format |
| Geometry.CopyCell | src/rtextures.c:1325 | the per-byte loop copies one cell and keeps all others |
| Geometry.MapCells | src/rtextures.c:1317-1327 | the nested scan copies each source cell to its target cell |
| Geometry.MirrorView | src/rtextures.c:1317-1327 | the mirrored scan produces the horizontal flip of the grid |
| Geometry.TurnCWView | src/rtextures.c:1362-1369 | the clockwise scan produces the quarter turn clockwise |
| Geometry.TurnCCWView | src/rtextures.c:1394-1401 | the counter-clockwise scan produces the quarter turn counter-clockwise |
| Geometry.RowsReversedView | src/rtextures.c:1293-1297 | copying row h-1-i to row i produces the vertical flip |
| Geometry.FlipVertical | src/rtextures.c:1281-1302 | Image_FlipV: same fields, fresh buffer, view is the vertical flip |
| Geometry.FlipHorizontal | src/rtextures.c:1305-1347 | Image_FlipH: same fields, fresh buffer, view is the horizontal flip |
| Geometry.RotateClockwise | src/rtextures.c:1350-1379 | Image_RotateCW: width and height swap, view is the clockwise turn |
| Geometry.RotateCounterClockwise | src/rtextures.c:1382-1411 | Image_RotateCCW: width and height swap, view is the counter-clockwise turn |
| Geometry.ClampCrop | src/rtextures.c:659-662 | the clamped crop spans the intersection of the rectangle with the image on each axis |
| Geometry.CropInside | src/rtextures.c:659-667 | the clamped rectangle lies inside the image |
| Geometry.Crop | src/rtextures.c:653-701 | Image_Crop: the view becomes the clamped sub-grid, in a fresh buffer of exactly width x height x bytes-per-pixel bytes that leaves the image valid; nothing changes when the crop misses the image |
| Geometry.CanvasAxis | src/rtextures.c:1793-1810 | the copied run starts at max(offset, 0) and ends at min(offset + size, newSize) |
| Geometry.AxisCovers | src/rtextures.c:1793-1810 | a new position is in the run exactly when it holds a cell of the shifted old axis |
| Geometry.CanvasView | src/rtextures.c:1812-1823 | the zeroed canvas with the block copied in is the shifted old grid, with zero cells elsewhere |
| Geometry.ResizeCanvas | src/rtextures.c:1781-1830 | Image_ResizeCanvas: the new size, and the view is the old view shifted by the offset over zero bytes |
| ColorOps.FlattenLoaded | src/rtextures.c:1898-1906 | decoding R8G8B8A8 bytes and laying the colours out again gives the bytes back |
| ColorOps.MapColors | src/rtextures.c:1460-1468 | the per-pixel loop applies the change to every colour |
| ColorOps.ColorBytes | src/rtextures.c:1473-1474 | the colour array becomes the R8G8B8A8 buffer |
| ColorOps.AdoptColors | src/rtextures.c:1470-1476 | the colours are stored back in the image's original format |
| ColorOps.InvertedTwice | src/rtextures.c:1464-1466 | inverting twice restores the colours, and inversion keeps alpha |
| ColorOps.InvertTwiceRestores | src/rtextures.c:1453-1477 | inverting an R8G8B8A8 image twice gives its base level back byte for byte |
| ColorOps.ColorInvert | src/rtextures.c:1453-1477 | Image_ColorInvert: the colours LoadImageColors decodes as written, inverted, stored back in the original format |
| ColorOps.ClampOffset | src/rtextures.c:1550-1551 | the offset is clamped to [-255, 255] |
| ColorOps.BrightnessFloor | src/rtextures.c:1563-1570 | a channel pushed below 0 becomes 1 as written, above channel 0 pushed by -1 which becomes 0 |
| ColorOps.BrightChannelFixedSaturates | src/rtextures.c:1559-1570 | the corrected channel is monotone and differs from the as-written one only below 0 |
| ColorOps.BrightChannelUndo | src/rtextures.c:1559-1570 | an offset that does not saturate is undone by the opposite offset, as written and corrected, and offset 0 changes nothing |
| ColorOps.BrightenedUndo | src/rtextures.c:1559-1575 | brightening colours whose channels stay in range, then applying the opposite offset, gives them back; length and alpha are kept |
| ColorOps.ColorBrightness | src/rtextures.c:1545-1585 | Image_ColorBrightness: the colours brightened as written (a channel below 0 becomes 1) stored back in the original format |
| ColorOps.ReplacedExactly | src/rtextures.c:1595-1610 | exactly the pixels equal to the colour become the replacement |
| ColorOps.ReplaceBack | src/rtextures.c:1595-1610 | replacing back restores the colours when the replacement did not occur before |
| ColorOps.ColorReplace | src/rtextures.c:1588-1619 | Image_ColorReplace: the colours LoadImageColors decodes as written, with every match replaced, stored back in the original format |
| ColorOps.PremultipliedExtremes | src/rtextures.c:1072-1087 | premultiplying keeps alpha, clears transparent pixels, keeps opaque ones, and is idempotent on both |
| ColorOps.AlphaPremultiply | src/rtextures.c:1064-1096 | Image_AlphaPremultiply: the colours LoadImageColors decodes as written, premultiplied, stored back in the original format |
| Alpha.FillCell | src/rtextures.c:941-942 | one selected cell is overwritten with the fill and every other cell kept |
| Alpha.ClearCells | src/rtextures.c:937-1005 | each of the first n cells that the threshold test selects holds the fill, the others are kept |
| Alpha.ClearedIdempotent | src/rtextures.c:923-1010 | clearing twice with the same colour and threshold is clearing once |
| Alpha.Clear5551 | src/rtextures.c:950-959 | the as-written R5G5B5A1 word is a 16-bit value |
| Alpha.Clear4444 | src/rtextures.c:967-976 | the as-written R4G4B4A4 word is a 16-bit value |
| Alpha.Clear5551FixedFields | src/rtextures.c:946-962 | the corrected R5G5B5A1 word holds every channel scaled to its own field |
| Alpha.Clear4444FixedFields | src/rtextures.c:963-979 | the corrected R4G4B4A4 word holds every channel scaled to its own field |
| Alpha.Clear5551ScalesByLevels | src/rtextures.c:950 | red 8 gives the field 24 as written (8*31 truncated) and 1 when scaled by 31/255 |
| Alpha.Clear4444ScalesByLevels | src/rtextures.c:967 | red 16 gives the field 0 as written and 1 when scaled by 15/255 |
| Alpha.ClearFill | src/rtextures.c:934-1006 | the fill of a cleared pixel is one pixel's bytes, the packed formats' words as written |
| Alpha.ClearFillDecodes | src/rtextures.c:934-993 | the R8G8B8A8 fill decodes to the colour and the gray-alpha fill to its gray; a filled R8G8B8A8 cell is selected again iff its alpha is at most the threshold |
| Alpha.AlphaClear | src/rtextures.c:923-1010 | Image_AlphaClear: the base level's selected pixels hold the fill, every other byte is kept |
| AlphaBorder.Border | src/rtextures.c:2020-2057 | the border is the zero rectangle or lies inside the image |
| AlphaBorder.ScanContains | src/rtextures.c:2033-2045 | every pixel above the threshold lies within the running bounds |
| AlphaBorder.ScanNone | src/rtextures.c:2028-2048 | the bounds stay at their start exactly when no pixel is above the threshold |
| AlphaBorder.ScanXMinAt | src/rtextures.c:2037-2039 | the column minimum is the column of a pixel above the threshold |
| AlphaBorder.ScanYMinAt | src/rtextures.c:2037-2041 | the row minimum is the row of a pixel above the threshold |
| AlphaBorder.ScanXMaxAt | src/rtextures.c:2037-2040 | the column maximum is the column of a pixel above the threshold |
| AlphaBorder.ScanYMaxAt | src/rtextures.c:2037-2042 | the row maximum is the row of a pixel above the threshold |
| AlphaBorder.BorderBlank | src/rtextures.c:2048-2051 | with nothing above the threshold the border is the zero rectangle |
| AlphaBorder.BorderBox | src/rtextures.c:2020-2057 | otherwise the border lies inside the image, holds every pixel above the threshold, and each edge runs through one |
| AlphaBorder.ScanLine | src/rtextures.c:2035-2044 | one row of the scan updates the bounds as the reference scan does |
| AlphaBorder.ScanColors | src/rtextures.c:2028-2051 | the scan over all rows yields the border |
| AlphaBorder.ImageAlphaBorder | src/rtextures.c:2020-2057 | GetImageAlphaBorder: a rectangle inside the image or zero, and in uncompressed formats the border of its colours |
| AlphaBorder.ClampInside | src/rtextures.c:910-919 | a rectangle inside the image is kept exactly by Image_Crop |
| AlphaBorder.AlphaCrop | src/rtextures.c:910-919 | Image_AlphaCrop: the view becomes the border's sub-grid, in a buffer of exactly that size that leaves the image valid, or nothing changes when the border is zero |
| Palette.PaletteOf | src/rtextures.c:1966-1996 | the palette never holds more than maxPaletteSize colours |
| Palette.PaletteSound | src/rtextures.c:1966-1996 | palette entries are distinct visible colours of the image and, while it is not full, every visible colour is in it |
| Palette.PaletteFull | src/rtextures.c:1989-1993 | once full, later pixels do not change the palette |
| Palette.InPalette | src/rtextures.c:1970-1980 | the search finds the colour iff it is among the palette's entries |
| Palette.CollectPalette | src/rtextures.c:1962-1996 | the array starts with the palette, then `Blank` entries, with the count of filled entries |
| Palette.LoadPalette | src/rtextures.c:1952-2004 | LoadImagePalette: null and count 0 without pixels; otherwise the palette of the colours LoadImageColors decodes as written |
| Palette.PixelColor | src/rtextures.c:2060-2160 | outside the image the colour is `Blank` |
| Palette.GetImageColor | src/rtextures.c:2060-2160 | GetImageColor is `Blank` outside the image |
| Palette.GetImageColorLoaded | src/rtextures.c:2060-2160 | inside the image, outside R32, GetImageColor is the pixel LoadImageColors decodes; in R32 every decoded pixel is GetImageColor at (0, 0) |
| Dither.Truncate | src/rtextures.c:1225-1228 | the top bpp bits of a channel fit in bpp bits and do not exceed the channel |
| Dither.QuantError | src/rtextures.c:1232-1234 | the lost precision is below 2^(8-bpp) |
| Dither.Spread | src/rtextures.c:1241-1264 | spreading an error never lowers a channel |
| Dither.Neighbours | src/rtextures.c:1239-1265 | the neighbours that receive error lie ahead of the pixel, within the next row |
| Dither.Diffuse | src/rtextures.c:1239-1265 | sharing errors keeps the length and leaves earlier pixels as they were |
| Dither.DiffuseRaises | src/rtextures.c:1239-1265 | sharing errors only raises channels and keeps alpha |
| Dither.Step | src/rtextures.c:1222-1265 | one step keeps earlier pixels and quantises pixel i |
| Dither.StepRaises | src/rtextures.c:1239-1265 | one step only raises the later pixels |
| Dither.DitheredFits | src/rtextures.c:1218-1274 | after the scan every pixel's channels fit their bit counts |
| Dither.DitherWordBelow | src/rtextures.c:1272 | the composed fields stay below 2^(rBpp+gBpp+bBpp+aBpp) |
| Dither.DitherWordFits | src/rtextures.c:1182-1272 | for splits of at most 16 bits the word fits an `unsigned short` |
| Dither.DitherFormat | src/rtextures.c:1198-1205 | the recorded format is R5G6B5, R5G5B5A1 or R4G4B4A4 exactly for their splits, and 0 otherwise |
| Dither.DitherWordKnown | src/rtextures.c:1198-1200 | for the three known splits the stored word is that format's packed word |
| Dither.DitherPixel | src/rtextures.c:1222-1265 | the scan body quantises pixel i and applies the step to the array |
| Dither.DitherLineScan | src/rtextures.c:1220-1273 | one row of the scan follows the reference row and stores each pixel's word |
| Dither.DitherRow | src/rtextures.c:1218-1274 | row y of the scan follows the reference rows |
| Dither.DitherScan | src/rtextures.c:1218-1274 | the whole scan yields the dithered colours and stores their words |
| Dither.DitheredValid | src/rtextures.c:1208 | the 2-byte-per-pixel buffer is valid for the recorded format |
| Dither.Dither | src/rtextures.c:1171-1278 | Image_Dither: the guards, the recorded format, and a fresh 16-bit buffer holding the dithered words of the colours LoadImageColors decodes as written |
| Shapes.ClearPoints | src/rtextures.c:2169 | Image_Clear visits w*h points |
| Shapes.ClearCovers | src/rtextures.c:2169 | every pixel of the image is among the points Image_Clear draws |
| Shapes.RectMembers | src/rtextures.c:2439-2451 | a point is drawn by Image_DrawRectangleRec exactly when it lies in the rectangle |
| Shapes.WalkPoints | src/rtextures.c:2292-2380 | the walk visits one point per major coordinate |
| Shapes.PenInvariant | src/rtextures.c:2292-2380 | the Bresenham decision value follows its closed form and stays in range |
| Shapes.PenEnd | src/rtextures.c:2292-2380 | after all steps the pen has made exactly the needed moves along the minor axis |
| Shapes.LineLength | src/rtextures.c:2292-2380 | Image_DrawLine draws max(|dx|, |dy|) + 1 pixels |
| Shapes.LineEnds | src/rtextures.c:2292-2380 | the line starts at one endpoint and ends at the other |
| Shapes.LineConnected | src/rtextures.c:2292-2380 | consecutive points are neighbours and no pixel is drawn twice |
| Shapes.Octants | src/rtextures.c:2396-2403 | eight points per arc point |
| Shapes.CircleStart | src/rtextures.c:2391-2392 | the loop starts at (0, r) with decision value 3 - 2r, which is its closed form |
| Shapes.CirclePoints | src/rtextures.c:2389-2413 | the four axis points at distance r are drawn; nothing for a negative radius |
| Shapes.OctantsSymmetric | src/rtextures.c:2396-2403 | the eight points are closed under the three reflections |
| Shapes.CircleSymmetric | src/rtextures.c:2389-2413 | the drawn circle is symmetric under both mirrors and the diagonal |
| Shapes.CircleBounded | src/rtextures.c:2389-2413 | every pixel drawn lies within the radius along both axes |
| Shapes.ArcStepReached | src/rtextures.c:2404-2411 | each pass keeps the decision value at its closed form; y drops exactly when it was positive |
| Drawing.PixelBytes | src/rtextures.c:2179-2282 | one pixel's bytes for each uncompressed format and none for others; R8G8B8A8 decodes back to the colour, R8G8B8 to the opaque colour |
| Drawing.PlotAllSnoc | src/rtextures.c:2169 | drawing one more point extends the drawn list |
| Drawing.PutCell | src/rtextures.c:2179-2282 | writing one cell changes that cell and no other |
| Drawing.PlotPixel | src/rtextures.c:2174-2283 | Image_DrawPixel changes the pixel at p, when inside the image, and no other |
| Drawing.PlotInside | src/rtextures.c:2174-2283 | inside the image Image_DrawPixel overwrites exactly the pixel's cell with the colour's bytes, which fits in the buffer |
| Drawing.PlotBeyond | src/rtextures.c:2174-2283 | Image_DrawPixel never touches bytes past the base level |
| Drawing.PlotAllPixels | src/rtextures.c:2174-2283 | drawing a list of points sets exactly the listed pixels inside the image |
| Drawing.PlotAllBeyond | src/rtextures.c:2174-2283 | drawing any list of points leaves the bytes past the base level unchanged |
| Drawing.PlotAllIgnored | src/rtextures.c:2179-2282 | a format Image_DrawPixel does not handle leaves the buffer as it is |
| Drawing.PlotAllNoPixels | src/rtextures.c:2177 | an image without pixels is left as it is |
| Drawing.PutBytes | src/rtextures.c:2179-2282 | the buffer becomes the byte sequence with the written range replaced |
| Drawing.DrawPixel | src/rtextures.c:2174-2283 | Image_DrawPixel: the buffer becomes the plotted buffer |
| Drawing.Cleared | src/rtextures.c:2167-2170 | after Image_Clear every base-level pixel holds the colour's bytes and the rest is kept |
| Drawing.Clear | src/rtextures.c:2167-2170 | Image_Clear draws its points in order |
| Drawing.RectangleDrawn | src/rtextures.c:2434-2452 | after Image_DrawRectangleRec exactly the pixels in the rectangle hold the colour |
| Drawing.DrawSpan | src/rtextures.c:2447-2450 | one row of the rectangle is drawn in order |
| Drawing.DrawRectangleRec | src/rtextures.c:2434-2452 | Image_DrawRectangleRec draws the rectangle's points row by row |
| Drawing.WalkPixel | src/rtextures.c:2292-2380 | one pass of the line loop draws the pixel the pen reaches |
| Drawing.DrawLine | src/rtextures.c:2292-2380 | Image_DrawLine draws the line's points in order |
| Drawing.DrawOctants | src/rtextures.c:2396-2403 | one pass of the circle loop draws its eight points |
| Drawing.CirclePass | src/rtextures.c:2394-2412 | one pass draws the eight points and advances the arc along its closed form |
| Drawing.DrawCircle | src/rtextures.c:2389-2413 | Image_DrawCircle draws the circle's points in order |
| Glyphs.SearchFromFinds | src/rtextures.c:4014-4021 | the search from i finds the first matching glyph at or after i, or the fallback |
| Glyphs.GlyphIndexFirst | src/rtextures.c:4003-4027 | Glyph_GetIndex returns the first glyph whose codepoint matches, and 63 when none does |
| Glyphs.FallbackIndex | src/rtextures.c:4005-4012 | the fallback is 63 and names a glyph only in fonts with more than 63 glyphs |
| Glyphs.GetGlyphIndex | src/rtextures.c:4003-4027 | the loop computes the reference index |
| Blit.ClipAxisInside | src/rtextures.c:2514-2531 | both clips cover the destination's part of the rectangle and read inside the source |
| Blit.ClipAxisFixedKeepsOffset | src/rtextures.c:2514-2519 | the corrected clip keeps the translation between source and destination |
| Blit.ClipAxisOffset | src/rtextures.c:2514-2519 | the clip as written keeps it only when dst.x >= 0 or src.x == 0 |
| Blit.ClipAxisReadsWrongColumn | src/rtextures.c:2516 | srcRec.x 2 at dstRec.x -1: as written column 1 is read, corrected column 3 |
| Blit.ClipAxisNegativeLength | src/rtextures.c:2514-2520 | a rectangle left of the image clips to width -7 |
| Blit.PlanOf | src/rtextures.c:2496-2531 | the plan resizes exactly when the clamped source size differs from the destination size |
| Blit.PlanInside | src/rtextures.c:2496-2531 | the plan lies inside both images; the block starts at the destination corner clamped to 0, and its source start is minus the destination start on an axis where that is negative, so the translation is kept exactly where the destination start is not negative or the source start is 0 |
| Blit.ZeroWidthSource | src/rtextures.c:2503-2554 | a zero-width destination or source gives a resized source of width 0 |
| Blit.StrideBytes | src/rtextures.c:2550-2554 | stride / width is the pixel size for every non-zero width |
| Blit.DrawnCell | src/rtextures.c:2568-2581 | the drawn cell (as-written decode and wrapping blend) keeps the destination cell's size and leaves formats without an encoder alone |
| Blit.FastPathAgrees | src/rtextures.c:2565 | the memcpy fast path writes what the per-pixel path would |
| Blit.TransparentTintKeeps | src/rtextures.c:2574 | a transparent tint leaves an R8G8B8A8 pixel as it was |
| Blit.BlendedCells | src/rtextures.c:2559-2586 | every cell of the block is DrawnCell of its old bytes and its source cell; every other cell is kept |
| Blit.BlendRow | src/rtextures.c:2568-2581 | one row of the block is drawn pixel by pixel with the as-written decode and wrapping blend; the rest of the buffer is kept |
| Blit.BlendRows | src/rtextures.c:2559-2586 | the per-pixel path draws the whole block with the as-written cells; the rest of the buffer is kept |
| Blit.ModeOf | src/rtextures.c:2545-2548 | the fast path is taken exactly for equal formats without alpha under an opaque tint |
| Blit.Prepare | src/rtextures.c:2496-2531 | the source drawn from: the image itself, or the resized cut rectangle; and the plan, clipped as written |
| Blit.DrawBlock | src/rtextures.c:2550-2586 | the block is drawn by the plan as written, by the copy path or the as-written cells |
| Blit.Draw | src/rtextures.c:2481-2590 | Image_Draw: nothing changes for empty images or compressed targets; otherwise the block is drawn from the prepared source |
| AscMem.Initial | src/ascmem.c:3-4 | the table starts empty with nothing in use |
| AscMem.CountFull | src/ascmem.c:20-25 | every slot holds a pointer exactly when the count of non-null slots is 128 |
| AscMem.FirstNull | src/ascmem.c:20-25 | the lowest empty slot, or none |
| AscMem.FirstMatch | src/ascmem.c:65-69 | the lowest slot holding the pointer, or none |
| AscMem.Allocate | src/ascmem.c:8-27 | ASC_MALLOC as written: exits iff more than 128 are in use or malloc failed, otherwise counts and records the block |
| AscMem.Reallocate | src/ascmem.c:48-62 | ASC_REALLOC exits iff the pointer is not in the table or realloc failed; the table and count never change |
| AscMem.Release | src/ascmem.c:63-78 | ASC_FREE: NULL does nothing, an unknown pointer exits, otherwise its first slot is cleared and the count drops |
| AscMem.ReleaseAll | src/ascmem.c:79-86 | ASC_FREEALL keeps the table as it is |
| AscMem.SweepFrees | src/ascmem.c:79-86 | ASC_FREEALL frees min(count, live slots) pointers from the table and counts down by that many |
| AscMem.AllocateTracked | src/ascmem.c:8-27 | below 128 in use, a successful allocation records its block and keeps the count equal to the live slots |
| AscMem.ReleaseTracked | src/ascmem.c:63-78 | a free that does not exit keeps the count equal to the live slots |
| AscMem.ReallocateMoved | src/ascmem.c:48-62 | a moved block is not recorded: the old address stays and freeing the new one exits |
| AscMem.ReallocateNull | src/ascmem.c:48-62 | realloc of NULL succeeds iff some slot is empty and realloc succeeded |
| AscMem.ReleaseAfterFreeAll | src/ascmem.c:63-86 | a free after ASC_FREEALL wraps the count to 2^32-1 and the next allocation exits |
| AscMem.FullPoolAllocates | src/ascmem.c:9 | with the table full, the 129th block is handed out, counted and recorded nowhere |
| AscMem.AllocateFixed | src/ascmem.c:9-12 | with `>=` the allocation exits iff 128 are in use or malloc failed |
| AscMem.AllocateFixedTracked | src/ascmem.c:8-27 | with `>=` every successful allocation records its block and keeps the count equal to the live slots |
| AscMem.Allocator.constructor | src/ascmem.c:3-4 | the zero-initialised globals |
| AscMem.Allocator.Track | src/ascmem.c:20-25 | the slot scan stores the pointer in the lowest empty slot |
| AscMem.Allocator.Malloc | src/ascmem.c:8-27 | ASC_MALLOC moves the state as the as-written allocation function does, `pointerinuse > 128` included |
| AscMem.Allocator.Calloc | src/ascmem.c:28-47 | ASC_CALLOC does the same bookkeeping as written |
| AscMem.Allocator.Realloc | src/ascmem.c:48-62 | ASC_REALLOC moves the state as the reallocation function does |
| AscMem.Allocator.Free | src/ascmem.c:63-78 | ASC_FREE moves the state as the release function does |
| AscMem.Allocator.FreeAll | src/ascmem.c:79-86 | ASC_FREEALL moves the state and frees the pointers as the sweep does |

## Left out

- Floating point: float products, divisions and casts are fields of `Colors.FloatOps`. This covers the threshold scaling, the R32 formats, the premultiply product, the float encoders of Color_SetPixel and Image_DrawPixel, Image_SetFormat's conversion, and the `stbir` resampler of Image_Resize. No property of their values is claimed.
- Rectangles have integer fields. Image_Draw, Image_Crop and Image_FromImage truncate float rectangles with `(int)`, and fractional coordinates are not modelled.
- Block-compressed formats: the operations on them are modelled only through their guards.
- 32-bit overflow of `int` sizes and offsets is not modelled, except where it is written out: the 16.16 map of Image_ResizeNN, `unsigned int` in Color_AlphaBlend, and `pointerinuse` in ascmem.c.
- File I/O, the loaders and exporters (LoadDDS, LoadPKM, LoadKTX, SaveKTX, LoadPVR, LoadASTC, Image_Load*, Image_Export*), textures and render textures, the GPU calls, text rendering (Image_FromText, Image_FromTextEx, Image_DrawText, Image_DrawTextEx), and Image_LoadDataNormalized: these are outside the modelled core.
- Image_ToPOT, Image_AlphaMask, Image_ColorTint, Image_ColorGrayscale and Image_ColorContrast: these are float paths into Image_SetFormat or Image_Draw and are not modelled on their own.
- The vector and integer wrappers (Image_DrawPixelV, Image_DrawLineV, Image_DrawCircleV, Image_DrawRectangle, Image_DrawRectangleV) only convert their arguments and are not modelled.
- The image engine allocates with `new` rather than through `AscMem.Allocator`. Allocation failure of ASC_MALLOC inside rtextures.c is therefore not modelled.
- Formatting.Resize: for formats other than the four byte formats, the contents of the new buffer are not specified.
- Formatting.GenMipmaps: states the kept base level, the chain size and the mipmap count, not the bytes of the generated levels. On an image one pixel wide or high with more than two levels, the first level is empty, Image_Resize then leaves the working copy empty, and the next memcpy reads past it. That read is undefined, and the requires `MipsDefined` excludes it. A mipmap count of 0 or less is accepted only on a 1 x 1 image (`CopyDefined`): there the chain is the base level alone, the buffer is reallocated to it and the count is left as it was. On a larger image Image_Copy makes a working copy of 0 bytes, from which the first Image_Resize reads, which is undefined. The requires `!IsCompressed(image.format)` is not a guard of the C code. On a block format, the switch of Image_Resize writes nothing into the buffer it allocates, so each generated level would be a copy of uninitialised bytes. Mipmap generation for a block-compressed image is not modelled.
- Formatting.SetFormat, ColorOps.AdoptColors, ColorOps.ColorInvert, ColorOps.ColorBrightness, ColorOps.ColorReplace, ColorOps.AlphaPremultiply and Nearest.ResizeNN: these regenerate the mipmaps through Image_GenMipmaps. They require the same condition (`ColorOps.StoresBackDefined`) wherever they do so.
- Nearest.ResizeNN: requires `NNDefined`, which covers three things. The target size is at least 1, because the ratios divide by it. The `int` products do not overflow. The last target pixel's flat read index `y2*width + x2` stays inside the source colours (`NNReadsInside`); outside that, the C code reads past the colour array, which is undefined.
- Geometry.Crop: requires `CropDefined`, that the clamped rectangle of a crop that goes ahead has no negative width or height. This excludes a rectangle wholly to the left of or above the image, such as (-20, 0, 10, 10) on a 10x10 image. There the C code does one of three things:
  - With one side negative and the other positive, the size passed to ASC_MALLOC is negative, so the allocation fails and ASC_ERROR exits.
  - With one side negative and the other 0, such as (-20, 0, 10, 0), the size is 0. Whether ASC_MALLOC(0) returns NULL is up to the C library; when it returns a pointer, no row is copied and the image is left -10 x 0.
  - With both sides negative, the product is positive, no row is copied, and the image is left -10 x -10.
  The model's `Image` has natural-number sizes and no exit flag, so none of these outcomes is modelled.
- Geometry.ResizeCanvas: requires `CanvasDefined`, that the column run has a length of at least 0 whenever rows are copied. This excludes, for example, offsetX > newWidth or offsetX < -width. On those inputs the C code passes a negative length to memcpy at src/rtextures.c:1821, which is undefined.
- Palette.LoadPalette and Palette.CollectPalette: require maxPaletteSize >= 1. With maxPaletteSize 0, the C code allocates a 0-byte palette. The first visible pixel is then written to `palette[0]`, which is undefined. On an image without visible pixels the C returns that empty palette with count 0, a case the model does not cover.
- Images.FromImage: requires the rectangle to lie inside the source. Outside it, the C code's memcpy reads outside the source buffer, which is undefined.
- Formatting.SetFormat: the converted bytes come from the format-conversion oracle.
- Dither.Dither: bit counts are taken in 0..8. The `|` of the fields is modelled as a sum, which is equal only when fields do not overlap, and splits over 16 bits are refused. The mipmap count is kept although only the base level is rebuilt, as written.
- Palette.GetImageColor has no caller inside rtextures.c. It is modelled as a function and tied to LoadImageColors.
- Drawing.PixelBytes: the float-computed bytes of the formats other than R8G8B8 and R8G8B8A8 come from the encoder oracle.
- Blit.Draw:
  - the source and destination are assumed to be distinct buffers;
  - the source is not compressed;
  - only the base level is drawn;
  - the clamped source rectangle and the destination rectangle must have non-negative sizes (their requires).
  - a clip that leaves no width or no height draws nothing. On that input the C code's copy path passes a negative size to memcpy, which is undefined, so the model takes the evidently intended skip (see "## Findings").
- Shapes.CirclePoints: the points are not proved close to the true circle; only symmetry, boundedness and the axis points are proved.
- AscMem.Allocator: no method may be called after `exited` is set, because `exit(-1)` ends the program. The contents of the blocks are not modelled. Pointers are abstract non-zero numbers.

## Findings

| source | as written | input that shows it | evidently intended | confidence | as-written member | corrected member |
|---|---|---|---|---|---|---|
| src/rtextures.c:2516 | `srcRec.x = -dstRec.x` drops the source rectangle's own x | srcRec.x = 2, dstRec.x = -1: column 1 is read for destination column 0 | `srcRec.x -= dstRec.x`, keeping the source-destination translation | not executed | Blit.ClipAxisReadsWrongColumn | Blit.ClipAxisFixedKeepsOffset |
| src/rtextures.c:2514-2520 | a rectangle wholly left of the image clips to a negative width, which is passed to memcpy | dstRec.x = -10, width 3: width -7 | skip the draw when nothing is left | not executed | Blit.ClipAxisNegativeLength | Blit.Draw |
| src/rtextures.c:2551-2554 | `strideSrc/(srcPtr->width)` divides by a resized source width of 0 | 2x2 source drawn into a 0-wide destination rectangle | skip an empty source before dividing | not executed | Blit.ZeroWidthSource | Blit.StrideBytes |
| src/rtextures.c:2993-2995 | the channel quotient is cast to `unsigned char` and wraps | white (alpha 1) under white (alpha 2): red 124 | saturate at 255 | not executed | Colors.BlendWrapsWhiteOnWhite | Colors.SaturatedBlendBetween |
| src/rtextures.c:3046 | R5G5B5A1 blue takes the low 5 bits, including the alpha bit | opaque black decodes with blue 8 | `(w >> 1) & 0x1F` | not executed | Colors.GetPixelBlueTakesAlphaBit | Colors.GetPixel5551FixedFields |
| src/rtextures.c:1916-1922 | the R32 case never advances k | any R32 image of 2 or more pixels: every pixel decodes from the first float | `k += 1` per pixel | not executed | Colors.LoadedR32ReadsFirstPixel | Colors.LoadedMatchesImageColor |
| src/rtextures.c:1138-1139 | the first mip level is w/2 x h/2 without the clamp to 1 | 1x4 image: a 0x2 level of 0 bytes where 8 were reserved | clamp both to at least 1, as the counting loop does | not executed | Formatting.FirstMipLevelUnclamped | Formatting.LevelPlacement |
| src/rtextures.c:1151 | `mipmaps++` starts from the old mipmap count | 4x4 image with 2 levels: mipmaps 4 for a 3-level chain | mipmaps ends at the level count | not executed | Formatting.MipmapsOvercount | Formatting.GeneratedMipmapsAgree |
| src/rtextures.c:1563-1570 | a channel pushed below 0 becomes 1 | channel 0 with brightness -1: 1; channel 1: 0 | clamp to 0 | not executed | ColorOps.BrightnessFloor | ColorOps.BrightChannelFixedSaturates |
| src/rtextures.c:1758-1761 | the +1 on the ratio can map past the last source column, so the flat index `y2*width + x2` reads into the next row | 1x3 image scaled to 257x2: target (0, 256) reads source pixel (1, 0), the first of the next row | stay inside the source row | not executed | Nearest.NNReadsNextRow | Nearest.NNIndexFixed |
| src/rtextures.c:950-952,967-970 | channels are scaled by 31 or 15 instead of 31/255 or 15/255 | R5G5B5A1 red 8: field 24 instead of 1 | scale each 0..255 channel to its field | not executed | Alpha.Clear5551ScalesByLevels | Alpha.Clear5551FixedFields |
| src/ascmem.c:9 | `pointerinuse > 128` lets a 129th allocation through | 128 blocks live: the next block is counted and recorded nowhere | `>= 128` | not executed | AscMem.FullPoolAllocates | AscMem.AllocateFixedTracked |

The model also records three behaviours that are kept as written, each proved:

- The two R5G6B5 decoders differ: LoadImageColors multiplies by the integer `255/31`, giving 248 for full red where Color_GetPixel gives 255 (`Colors.DecodersDiffer565`).
- LoadImageColors reads channel 0 of an R32G32B32A32 pixel into all four channels.
- ASC_FREEALL never clears the table (`AscMem.ReleaseAfterFreeAll`).
