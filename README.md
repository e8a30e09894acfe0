# TGA image core, modelled in Dafny

This project models the image core of a small software renderer. The core is
`TGAImage`, an image held in a heap buffer of `width * height * bytespp` bytes.
It covers pixel access (`get`, `set`, `clear`), in-place flips, nearest-neighbour
scaling, and reading and writing Truevision TGA files. Files are either
uncompressed (types 2 and 3) or run-length encoded (types 10 and 11). The model
also includes the templated vector and matrix algebra of `geometry.hpp`.

Structure:

- `tga_color.dfy` (module `TgaColor`): `TGAColor`. Its four raw bytes are stored
  b, g, r, a, and its 32-bit `val` is derived from them little-endian.
- `tga_layout.dfy` (`TgaLayout`): the row-major buffer layout. Byte `b` of pixel
  `(x, y)` is at `(x + y * width) * bytespp + b`. It also holds the arithmetic for
  scan-line offsets.
- `tga_raster.dfy` (`TgaRaster`): the buffer as a value.
  - `get`, `set` and `clear` are functions.
  - The two flips are reference functions.
  - Lemmas cover the partial states of the flip loops.
- `tga_scale.dfy`, `tga_scale_state.dfy` (`TgaScale`, `TgaScaleState`): `scale`.
  - On each axis, an error accumulator picks the source column (row) of every new
    column (row).
  - `Scaled` is the resulting buffer.
  - The loop states of the source's four nested loops are predicates over them.
- `tga_rle.dfy` (`TgaRle`): `loadRLEData` as a decoder from a byte stream, and
  `unloadRLEData` as an encoder into packets. The round trip is proved.
- `tga_header.dfy` (`TgaHeader`): the packed 18-byte header.
  - `char` fields are signed and `short` fields are little-endian.
  - The reader's acceptance test, storage kind and flip bits.
  - The header the writer produces.
- `tga_file.dfy` (`TgaFile`): `readTGAFile` and `writeTGAFile` as functions from
  and to the bytes of a file. Writing and reading back is the identity.
- `tga_image.dfy` (`TgaImage`): the class `Image`.
  - It has fields `data: array?<byte>`, `width`, `height` and `bytespp`.
  - Its methods update the buffer in place with the source's loops: the
    packet-by-packet RLE reader and writer, the scan-line memmoves of `flipVertically`, the
    get/set swaps of `flipHorizontally`, and the four loops of `scale`.
  - Each method is proved against the value-level functions above.
  - Stream input is the unread rest of a `seq<byte>`. Stream output is the
    returned bytes.
- `geometry.dfy` (`Geometry`): vectors and matrices as sequences of reals.
  - `vec2`, `vec3` and `vec4` are datatypes with their indexing.
  - Also covered: dot product, the arithmetic operators, `cross`, `normalized`,
    transpose, the products, cofactors, determinant by expansion along the first
    row, `invertTranspose` and `invert`.

The getters `getWidth`, `getHeight` and `getBytesPP` are the functions
`Image.Width`, `Image.Height` and `Image.BytesPP`. They return the fields and
carry no contract of their own.

## Model

| member | source | states |
|---|---|---|
| TgaColor.Val | src/tgaimage.hpp:28-36 | the `val` sharing storage with the raw bytes is an unsigned 32-bit value |
| TgaColor.Default | src/tgaimage.cpp:7 | the default colour has value 0 and one byte per pixel |
| TgaColor.FromRGBA | src/tgaimage.cpp:9-13 | the RGBA constructor stores b, g, r, a, so `val` is b + 256·g + 65536·r + 2^24·a, with four bytes per pixel |
| TgaColor.LittleEndian | src/tgaimage.hpp:28-36 | the four bytes of a 32-bit value, least significant first, recombine to that value |
| TgaColor.FromValue | src/tgaimage.cpp:15 | TGAColor(v, bpp) holds v converted to unsigned int (v mod 2^32) and the given bpp |
| TgaColor.FromBytes | src/tgaimage.cpp:19-22 | the byte constructor copies exactly the first bpp bytes and leaves the rest of the union zero |
| TgaColor.FromBytesOfRaw | src/tgaimage.cpp:19-22 | rebuilding a colour from its own raw bytes and bpp gives the same colour |
| TgaHeader.SignedChar | src/tgaimage.hpp:10-21 | a char field is a signed byte in [-128, 128) congruent to the stored byte |
| TgaHeader.SignedShort | src/tgaimage.hpp:13-19 | two little-endian bytes read as a short lie in the 16-bit signed range |
| TgaHeader.ShortBytes | src/tgaimage.cpp:158-159 | the two bytes stored for an int assigned to a short field hold the value mod 2^16 |
| TgaHeader.ToShort | src/tgaimage.cpp:158-159 | an int assigned to a short is the 16-bit value congruent to it, and unchanged when it already fits |
| TgaHeader.ShortRoundTrip | src/tgaimage.cpp:158-159 | writing a short field and reading it back gives the truncated value |
| TgaHeader.ParseHeader | src/tgaimage.cpp:75-83 | reading the header succeeds exactly when at least 18 bytes are available |
| TgaHeader.HeaderBytes | src/tgaimage.cpp:163 | a written header is exactly 18 bytes |
| TgaHeader.HeaderRoundTrip | src/tgaimage.hpp:7-23 | a header written then read back, whatever follows it, is the same header |
| TgaHeader.BytesRoundTrip | src/tgaimage.hpp:7-23 | 18 bytes read as a header and written back are the same bytes |
| TgaHeader.BytesPerPixel | src/tgaimage.cpp:87 | `bitsPerPixel >> 3` on a signed char lies in [-16, 16) |
| TgaHeader.Acceptable | src/tgaimage.cpp:89-95 | the reader accepts positive sizes and 1, 3 or 4 bytes per pixel; used by TgaFile.Read, and DepthRule and WriterHeaderAccepted state which headers pass |
| TgaHeader.StorageOf | src/tgaimage.cpp:100-126 | types 2 and 3 are raw and 10 and 11 run-length; every other type is unknown (both directions) |
| TgaHeader.FlipsRows | src/tgaimage.cpp:128 | a clear bit 5 of the descriptor asks for a vertical flip after reading; WriterHeaderAccepted states the written header asks for none |
| TgaHeader.FlipsColumns | src/tgaimage.cpp:131 | a set bit 4 asks for a horizontal flip after reading; WriterHeaderAccepted states the written header asks for none |
| TgaHeader.WriterTypeCode | src/tgaimage.cpp:160-161 | the written type is run-length exactly when rle is asked for, and a grayscale type exactly for one byte per pixel |
| TgaHeader.WriterHeader | src/tgaimage.cpp:155-162 | the written header has every short field in range |
| TgaHeader.WriterHeaderAccepted | src/tgaimage.cpp:85-132 | the header writeTGAFile writes for a readable image passes the reader's checks, with the same sizes, pixel size and storage, and asks for no flip |
| TgaHeader.DepthRule | src/tgaimage.cpp:87-95 | for every header, the depth check passes exactly for bitsPerPixel 8 to 15 or 24 to 39, and the header is accepted exactly when its sizes are also positive |
| TgaFile.ReadPixels | src/tgaimage.cpp:97-126 | the pixel data read after an accepted header fills the buffer exactly, and an unknown type reads nothing |
| TgaFile.PixelData | src/tgaimage.cpp:172-191 | the pixel data writeTGAFile writes, the buffer or its RLE packets; stated by WriteThenRead |
| TgaFile.Write | src/tgaimage.cpp:139-222 | the bytes writeTGAFile writes: header, pixel data, trailer; WriteThenRead states that the reader gets the image back |
| TgaFile.Read | src/tgaimage.cpp:59-137 | a successful read has a header of at least 18 bytes that passes the checks, and a buffer of exactly width·height·bytespp bytes |
| TgaFile.WriteThenRead | src/tgaimage.cpp:59-222 | an image the reader accepts reads back from what writeTGAFile writes, raw or RLE, with the same sizes, pixel size and bytes |
| TgaLayout.IndexInBuffer | src/tgaimage.cpp:324 | every byte get or set addresses inside the image lies inside the buffer |
| TgaLayout.IndexInjective | src/tgaimage.cpp:332 | distinct (pixel, byte) pairs occupy distinct buffer positions |
| TgaLayout.Coords | src/tgaimage.cpp:324 | every buffer position is byte c.2 of pixel (c.0, c.1) inside the image |
| TgaRaster.Zeroed | src/tgaimage.cpp:42 | memset leaves n bytes, all zero |
| TgaRaster.PixelAt | src/tgaimage.cpp:319-325 | get inside the image returns the pixel's bpp bytes, zero beyond, with bpp bytes per pixel; outside it returns the default colour |
| TgaRaster.Put | src/tgaimage.cpp:327-334 | set keeps the buffer's size |
| TgaRaster.PixelsDetermine | src/tgaimage.cpp:319-325 | two buffers of the same size with equal pixels everywhere are equal |
| TgaRaster.GetAfterSet | src/tgaimage.cpp:319-334 | after set(x, y, c), get(x, y) is the colour of c's first bpp bytes |
| TgaRaster.SetLeavesOthers | src/tgaimage.cpp:327-334 | set changes no other pixel |
| TgaRaster.SetOwnColour | src/tgaimage.cpp:319-334 | setting a pixel to what get returns for it changes nothing |
| TgaRaster.GetAfterTwoSets | src/tgaimage.cpp:235-238 | after two sets, get returns the most recent set at that pixel, else the old pixel |
| TgaRaster.PutSlices | src/tgaimage.cpp:332 | inside the image, set is the buffer with the pixel's bpp bytes replaced by c's |
| TgaRaster.PutOutside | src/tgaimage.cpp:329-330 | set outside the image changes nothing |
| TgaRaster.ClearedPixel | src/tgaimage.cpp:344 | after clear, every pixel reads as value 0 with the image's bpp |
| TgaRaster.MirrorV | src/tgaimage.cpp:256-257 | the row-mirrored position of a buffer byte is a buffer position |
| TgaRaster.MirrorH | src/tgaimage.cpp:236 | the column-mirrored position of a buffer byte is a buffer position |
| TgaRaster.FlipV | src/tgaimage.cpp:245-265 | the vertical flip keeps the buffer's size |
| TgaRaster.FlipH | src/tgaimage.cpp:224-243 | the horizontal flip keeps the buffer's size |
| TgaRaster.FlipVAt | src/tgaimage.cpp:245-265 | byte b of pixel (x, y) after the vertical flip is byte b of pixel (x, h-1-y) before |
| TgaRaster.FlipHAt | src/tgaimage.cpp:224-243 | byte b of pixel (x, y) after the horizontal flip is byte b of pixel (w-1-x, y) before |
| TgaRaster.FlipVPixel | src/tgaimage.cpp:245-265 | after flipVertically, get(x, y) is the old get(x, h-1-y) |
| TgaRaster.FlipHPixel | src/tgaimage.cpp:224-243 | after flipHorizontally, get(x, y) is the old get(w-1-x, y) |
| TgaRaster.FlipVTwice | src/tgaimage.cpp:245-265 | flipping vertically twice restores the buffer |
| TgaRaster.FlipVTwicePixel | src/tgaimage.cpp:245-265 | flipping vertically twice restores every pixel get returns |
| TgaRaster.FlipHTwice | src/tgaimage.cpp:224-243 | flipping horizontally twice restores the buffer |
| TgaRaster.FlipHTwicePixel | src/tgaimage.cpp:224-243 | flipping horizontally twice restores every pixel get returns |
| TgaRaster.FlipVMiddleRow | src/tgaimage.cpp:252-254 | with an odd height, the middle row stays where it is |
| TgaRaster.FlipHMiddleColumn | src/tgaimage.cpp:229-231 | with an odd width, the middle column stays where it is |
| TgaRaster.LineOfReplaced | src/tgaimage.cpp:258-260 | a memmove of one scan line over line i changes line i and no other |
| TgaRaster.LinesDetermine | src/tgaimage.cpp:250 | buffers of h scan lines that agree line by line are equal |
| TgaRaster.FlipVByte | src/tgaimage.cpp:254-261 | byte c of line y after the flip is byte c of line h-1-y |
| TgaRaster.FlipVLines | src/tgaimage.cpp:254-261 | after flipVertically, scan line y is the old line h-1-y |
| TgaRaster.SwappedLinesLines | src/tgaimage.cpp:256-260 | the three memmoves of one step trade lines i and h-1-i and leave every other line alone |
| TgaRaster.FlippedBelowAdvance | src/tgaimage.cpp:254-261 | one step of the row loop extends the exchanged lines from i to i + 1 |
| TgaRaster.FlippedBelowDone | src/tgaimage.cpp:252-261 | once the lines below h/2 are exchanged, the buffer is the vertical flip |
| TgaRaster.FlipHPartial | src/tgaimage.cpp:231-240 | the buffer part-way through the column and row loops of flipHorizontally keeps its size |
| TgaRaster.FlipHPartialPixel | src/tgaimage.cpp:231-240 | part-way through, the pixels already exchanged show their mirror and the others are unchanged |
| TgaRaster.FlipHPartialStart | src/tgaimage.cpp:231 | before the loops the buffer is unchanged |
| TgaRaster.FlipHPartialNextColumn | src/tgaimage.cpp:233 | finishing the rows of column i is starting column i + 1 |
| TgaRaster.FlipHPartialDone | src/tgaimage.cpp:229-231 | after the columns below w/2, the buffer is the horizontal flip, with an odd middle column left in place |
| TgaRaster.FlipHPartialAdvance | src/tgaimage.cpp:235-238 | one row step exchanges exactly pixels (i, j) and (w-1-i, j) |
| TgaRaster.AdvanceMovesPixel | src/tgaimage.cpp:235-238 | each of the two pixels of a row step receives the colour the other held |
| TgaRaster.AdvanceKeepsPixel | src/tgaimage.cpp:235-238 | a row step leaves every other pixel alone |
| TgaRaster.SwapByPuts | src/tgaimage.cpp:235-238 | setting each of two distinct pixels to the other's colour exchanges them and nothing else |
| TgaRaster.SwapByPutsIs | src/tgaimage.cpp:235-238 | any buffer showing two pixels exchanged is the one the two sets leave |
| TgaRaster.FlipHStep | src/tgaimage.cpp:235-238 | the get, get, set, set of one row step advances the partial horizontal flip by one row |
| TgaScale.PicksOrdered | src/tgaimage.cpp:285-295 | the accumulator copies source indices from j on, in ascending order |
| TgaScale.DrainOrdered | src/tgaimage.cpp:290-295 | the copies still due for index j, and those after it, are ascending and in range |
| TgaScale.PicksCount | src/tgaimage.cpp:285-295 | with the error in [0, n), the number k of copies satisfies k·n ≤ err + (n-j)·m < k·n + n |
| TgaScale.DrainCount | src/tgaimage.cpp:290-295 | the same count for the copies due from inside the inner while loop |
| TgaScale.PicksBound | src/tgaimage.cpp:281-295 | whatever the starting error, k copies never exceed (err + (n-j)·m)/n |
| TgaScale.DrainBound | src/tgaimage.cpp:290-295 | the same bound from inside the inner while loop |
| TgaScale.PicksExact | src/tgaimage.cpp:281-295 | starting the error in [0, n), a walk over n source indices copies exactly m of them, ascending |
| TgaScale.ColumnPicksAsWritten | src/tgaimage.cpp:281-295 | the columns the code copies, with errX starting at width - w, are ascending source columns |
| TgaScale.AsWrittenDropsColumns | src/tgaimage.cpp:281 | when enlarging the width, fewer than w new columns are written; width 2 to 3 copies columns [0, 1] only |
| TgaScale.ColumnPicks | src/tgaimage.cpp:281-295 | the corrected picks: exactly w ascending source columns, the same as the code's whenever w ≤ width |
| TgaScale.RowPicks | src/tgaimage.cpp:277-309 | errY starting at 0 gives exactly h ascending source rows |
| TgaScale.Span | src/tgaimage.cpp:285 | the indices j, …, n-1 in order |
| TgaScale.SameSizePicks | src/tgaimage.cpp:285-295 | scaling an axis to its own size copies every index once, in order |
| TgaScale.PixelBytes | src/tgaimage.cpp:294 | the bytes of one pixel are bpp bytes |
| TgaScale.LineOf | src/tgaimage.cpp:285-296 | a new scan line holds one pixel per picked column |
| TgaScale.LineOfSnoc | src/tgaimage.cpp:290-295 | one more picked column appends that source pixel's bytes to the line |
| TgaScale.LinesOf | src/tgaimage.cpp:279-310 | the new buffer holds one line per picked row |
| TgaScale.LinesOfSnoc | src/tgaimage.cpp:301-309 | one more picked row appends that row's line |
| TgaScale.Scaled | src/tgaimage.cpp:267-317 | the scaled buffer, built from the corrected column picks, has exactly w·h·bpp bytes |
| TgaScale.LineSlice | src/tgaimage.cpp:293-294 | pixel x of a new line holds the source pixel of picked column x |
| TgaScale.LinesSlice | src/tgaimage.cpp:308 | line y of the new buffer is the line of picked row y |
| TgaScale.ScaledPixel | src/tgaimage.cpp:267-317 | new pixel (x, y) is the old pixel at column ColumnPicks[x] and row RowPicks[y], with the corrected column picks |
| TgaScale.PixelOfLines | src/tgaimage.cpp:279-310 | pixel (x, y) of a buffer of lines is the source pixel (cols[x], rows[y]) |
| TgaScale.LinesPixelSlice | src/tgaimage.cpp:279-310 | the bytes of that pixel sit x pixels into line y |
| TgaScale.PixelBytesAt | src/tgaimage.cpp:294 | a pixel's bytes start x pixels into scan line y |
| TgaScale.PixelAtBytes | src/tgaimage.cpp:324 | inside the image, get returns the colour of the pixel's bytes |
| TgaScale.ScaleSameSize | src/tgaimage.cpp:267-317 | scaling an image to its own size leaves it as it is |
| TgaScaleState.RepeatedParts | src/tgaimage.cpp:303-305 | the line copy keeps everything up to the end of the current line and repeats it next |
| TgaScaleState.DrainedStep | src/tgaimage.cpp:301-309 | one pass of the row drain loop advances by one line and one row pick, with errY reduced by height |
| TgaScaleState.PassesBelow | src/tgaimage.cpp:301-309 | the drain loop makes at most errY/height passes |
| TgaScaleState.TwoPassesLeft | src/tgaimage.cpp:303 | with errY ≥ 2·height, the loop still has two lines to write, so the repeat fits |
| TgaImage.MoveBytes | src/tgaimage.cpp:258-260 | memmove of n bytes: those n bytes replaced by the source's, everything else unchanged, overlap included |
| TgaImage.SwapLines | src/tgaimage.cpp:256-260 | the three memmoves through the line buffer trade two scan lines |
| TgaImage.SwapMoves | src/tgaimage.cpp:258-260 | the three moves, composed, are the exchange of the two lines |
| TgaImage.ScaleLine | src/tgaimage.cpp:281-296 | the column loop writes the new line of row i at nScanLine and nothing else |
| TgaImage.ColumnLoopStart | src/tgaimage.cpp:281-283 | the column loop starts with nothing written and every pick due |
| TgaImage.ColumnLoopDone | src/tgaimage.cpp:285-296 | after the last source column the whole new line is written |
| TgaImage.ScaleColumn | src/tgaimage.cpp:287-295 | one pass of the column loop keeps the loop's invariant |
| TgaImage.SourcePixel | src/tgaimage.cpp:294 | `data + oScanLine + ox` addresses source pixel (j, i) |
| TgaImage.CopyColumn | src/tgaimage.cpp:290-295 | the inner while loop copies pixel (j, i) once per time errX reaches width, and ends with errX < width |
| TgaImage.ScaleLineStep | src/tgaimage.cpp:294 | writing a pixel right after a partly built line extends that line |
| TgaImage.RepeatLine | src/tgaimage.cpp:303-305 | the memcpy repeats the line at nScanLine into the next line |
| TgaImage.RoomForTwoLines | src/tgaimage.cpp:303-305 | when errY holds two steps, the new buffer has room for two more lines |
| TgaImage.NextRowPick | src/tgaimage.cpp:307-308 | emitting old row i once more is one step of the row picks |
| TgaImage.NextRowLines | src/tgaimage.cpp:308 | the lines written so far, followed by row i's line, are the lines of the row picks so far plus i |
| TgaImage.RowRoom | src/tgaimage.cpp:303-305 | when errY holds two steps, the line at nScanLine can be repeated in bounds |
| TgaImage.RowDrainStep | src/tgaimage.cpp:301-309 | one pass of the row drain loop keeps its invariant |
| TgaImage.RowLinesStep | src/tgaimage.cpp:301-309 | one pass extends the written lines by row i's line |
| TgaImage.DrainKeeps | src/tgaimage.cpp:301-309 | the state the drain loop leaves is again a loop state, with errY below height |
| TgaImage.DrainRoom | src/tgaimage.cpp:301-309 | every pass of the drain loop has a free new line |
| TgaImage.DrainLines | src/tgaimage.cpp:301-309 | the drain loop leaves the buffer, the next free line and errY that `Drained` and `DrainedState` define |
| TgaImage.CopyRows | src/tgaimage.cpp:298-309 | after the drain loop, errY < height, and the lines of every row pick so far are written |
| TgaImage.ScaleRow | src/tgaimage.cpp:279-310 | one pass of the row loop keeps the row loop's invariant |
| TgaImage.RowLoopRoom | src/tgaimage.cpp:279-299 | before old row i, the next new line fits and oScanLine addresses row i |
| TgaImage.RowLoopStart | src/tgaimage.cpp:273-277 | the row loop starts with nothing written |
| TgaImage.RowLoopDone | src/tgaimage.cpp:279-310 | after the last old row, the buffer has one new line per row pick |
| TgaImage.ScaleRows | src/tgaimage.cpp:279-310 | the row loop fills the new buffer with the lines of the picked rows over the picked columns |
| TgaImage.ScaleBuffer | src/tgaimage.cpp:272-310 | the resampled buffer is `Scaled` of the old pixels |
| TgaImage.StorePixel | src/tgaimage.cpp:395-396 | storing a decoded pixel appends its bytes right after those already stored |
| TgaImage.LoadLiteral | src/tgaimage.cpp:381-406 | a raw packet's pixels are read and stored as the decoder defines, failing on a short stream or a full buffer |
| TgaImage.LoadRepeat | src/tgaimage.cpp:407-431 | a repeat packet's pixel is stored as many times as the decoder defines, failing on a full buffer |
| TgaImage.LoadPacket | src/tgaimage.cpp:371-432 | one packet, header and pixels, is read as the decoder defines |
| TgaImage.LoadedResult | src/tgaimage.cpp:364-435 | when decoding stops, the buffer holds the decoded bytes followed by its old bytes |
| TgaImage.LoadRLE | src/tgaimage.cpp:364-435 | loadRLEData succeeds as the decoder does, and leaves the decoded bytes at the buffer's start with the rest untouched |
| TgaImage.SamePixels | src/tgaimage.cpp:454-456 | the byte comparison tells whether two neighbouring pixels are equal |
| TgaImage.ScanChunk | src/tgaimage.cpp:445-473 | the scan gives the length and kind of the packet `Scan` defines at that pixel |
| TgaImage.PacketPayload | src/tgaimage.cpp:475-485 | the header byte and the bytes written after it are those of the chunk's packet |
| TgaImage.NextPacket | src/tgaimage.cpp:443-492 | one pass of the outer loop writes the packet of the chunk at currentPixel and moves past the chunk |
| TgaImage.UnloadRLE | src/tgaimage.cpp:437-494 | unloadRLEData writes exactly the packets the encoder defines |
| TgaImage.Image.constructor | src/tgaimage.cpp:35 | the default image has no buffer and all sizes zero |
| TgaImage.Image.Sized | src/tgaimage.cpp:37-43 | the sized constructor stores the sizes and a fresh, zeroed buffer of w·h·bpp bytes |
| TgaImage.Image.Get | src/tgaimage.cpp:319-325 | get returns the default colour without a buffer, otherwise `PixelAt` |
| TgaImage.Image.Set | src/tgaimage.cpp:327-334 | set succeeds exactly inside the image with a buffer, and changes the buffer as `Put` does |
| TgaImage.Image.Clear | src/tgaimage.cpp:344 | clear zeroes every byte of the buffer |
| TgaImage.Image.Scale | src/tgaimage.cpp:267-317 | scale fails without change for a size below one or no buffer; otherwise it installs a fresh w × h buffer equal to `Scaled` |
| TgaImage.Image.FlipVertically | src/tgaimage.cpp:245-265 | flipVertically fails without a buffer; otherwise the buffer becomes `FlipV` of the old one |
| TgaImage.Image.FlipHorizontally | src/tgaimage.cpp:224-243 | flipHorizontally fails without a buffer; otherwise the buffer becomes `FlipH` of the old one |
| TgaImage.Image.LoadRLEData | src/tgaimage.cpp:364-435 | success exactly when the decoder succeeds for width·height pixels; the decoded bytes fill the buffer from its start |
| TgaImage.Image.UnloadRLEData | src/tgaimage.cpp:437-494 | the bytes written are the encoding of the buffer; an image with no buffer and no pixels writes nothing |
| TgaImage.Image.ReadTGAFile | src/tgaimage.cpp:59-137 | succeeds exactly when `TgaFile.Read` does, and then holds its image in a fresh buffer. Otherwise: a short header leaves no buffer and the sizes as they were; a rejected header leaves no buffer and the sizes it gave; an accepted header whose pixel read fails leaves a buffer and the sizes it gave |
| TgaImage.Image.LoadPixels | src/tgaimage.cpp:97-126 | allocates a fresh buffer of the size the header gives, leaves the sizes alone, and succeeds exactly when `TgaFile.ReadPixels` does, holding its pixels then |
| TgaImage.Image.ReadRawData | src/tgaimage.cpp:101-109 | succeeds exactly when the stream holds at least a buffer's worth of bytes, and then the buffer is exactly the first bytes of the stream |
| TgaImage.Image.WriteTGAFile | src/tgaimage.cpp:139-222 | the bytes written are `TgaFile.Write` of the image: header, raw or RLE pixel data, then the trailer; an image with no buffer and no pixels is its header followed by the trailer; `rle` defaults to true |
| TgaRle.Decode | src/tgaimage.cpp:364-435 | loadRLEData with the pixel count checked before each store; its meaning is stated by DecodeWithinBuffer, DecodeStep, DecodeSerialized and RoundTrip |
| TgaRle.Expand | src/tgaimage.cpp:381-431 | the rest of one packet, then the packets after it; stated by ExpandWithinBuffer, LiteralStep, ExpandLiteral and ExpandRepeat |
| TgaRle.DecodeAsWritten | src/tgaimage.cpp:364-435 | loadRLEData as written, storing each pixel before the count check; stated by OverrunExample and AsWrittenOverrunsByOnePixel |
| TgaRle.ExpandAsWritten | src/tgaimage.cpp:381-431 | the same for the rest of a packet; stated by ExpandAsWrittenOverruns |
| TgaRle.Encode | src/tgaimage.cpp:437-494 | the packets unloadRLEData writes for a buffer; RoundTrip states that decoding them restores the buffer |
| TgaRle.Count | src/tgaimage.cpp:381-383 | a packet stands for 1 to 128 pixels |
| TgaRle.DecodeWithinBuffer | src/tgaimage.cpp:364-435 | decoding stores whole pixels, never more than the buffer has room for, and fills it exactly on success |
| TgaRle.ExpandWithinBuffer | src/tgaimage.cpp:381-431 | the same for the rest of a packet |
| TgaRle.DecodeStep | src/tgaimage.cpp:373-416 | a header below 128 starts header+1 literal pixels; otherwise one pixel repeated header-127 times, failing before storing when that pixel is cut short |
| TgaRle.LiteralStep | src/tgaimage.cpp:385-404 | each literal pixel is read in full and stored while the buffer has room; a short read or a full buffer fails |
| TgaRle.LoadedStore | src/tgaimage.cpp:395-396 | storing a pixel after the stored ones puts its bytes next |
| TgaRle.OverrunExample | src/tgaimage.cpp:395-404 | on a 1-pixel, 1-byte buffer with stream [1, 7, 8], the code stores pixel [8] past the buffer's end; the corrected decoder stops after [7] |
| TgaRle.AsWrittenOverrunsByOnePixel | src/tgaimage.cpp:395-429 | the code and the corrected decoder agree on success, and differ only by the code storing exactly one pixel past the buffer on failure |
| TgaRle.ExpandAsWrittenOverruns | src/tgaimage.cpp:395-429 | the same for the rest of a packet |
| TgaRle.ExpandLiteral | src/tgaimage.cpp:385-405 | a raw packet's payload decodes to its pixels, followed by the decoding of what comes after |
| TgaRle.ExpandRepeat | src/tgaimage.cpp:418-430 | a repeat packet decodes to n copies of its pixel |
| TgaRle.DecodePacket | src/tgaimage.cpp:371-431 | a well-formed packet decodes to the pixels it stands for |
| TgaRle.DecodeSerialized | src/tgaimage.cpp:364-435 | well-formed packets covering exactly the pixels left decode successfully to their pixels, whatever follows them |
| TgaRle.Scan | src/tgaimage.cpp:447-473 | the chunk found has 1 to 128 pixels within the image; a repeat chunk has at least 2 |
| TgaRle.ScanShape | src/tgaimage.cpp:450-473 | a raw chunk's pixels each differ from the next; a repeat chunk's pixels are all equal |
| TgaRle.ScanNext | src/tgaimage.cpp:450-472 | one iteration of the scan loop: the first comparison fixes the kind; an equal pair ends a raw chunk one pixel early; a differing pair ends a repeat chunk |
| TgaRle.ChunkPacket | src/tgaimage.cpp:475-485 | the packet stands for the chunk's length and never has header 128 |
| TgaRle.ChunkPixels | src/tgaimage.cpp:443-485 | the packet written at a pixel is well formed and stands for exactly its chunk's pixels |
| TgaRle.RawChunk | src/tgaimage.cpp:476-485 | a raw chunk's packet carries the chunk's pixels |
| TgaRle.RepeatChunk | src/tgaimage.cpp:476-485 | a repeat chunk's packet carries its first pixel, which stands for all of them |
| TgaRle.ConsWellFormed | src/tgaimage.cpp:443-492 | one more well-formed packet keeps the packet list well formed |
| TgaRle.ChunksUnfold | src/tgaimage.cpp:443-475 | the first packet written from a pixel on is that of the chunk there |
| TgaRle.ChunksWellFormed | src/tgaimage.cpp:443-492 | every packet written is well formed |
| TgaRle.ChunksCount | src/tgaimage.cpp:443-492 | the packets written from pixel p stand for exactly the pixels left |
| TgaRle.CountStep | src/tgaimage.cpp:475 | each packet advances currentPixel by its run length |
| TgaRle.ChunksExpansion | src/tgaimage.cpp:443-492 | the packets written from pixel p expand to exactly the pixels from p to the end |
| TgaRle.ExpansionStep | src/tgaimage.cpp:475-485 | the expansion is the first packet's pixels followed by the rest |
| TgaRle.PacketRoundTrip | src/tgaimage.cpp:364-494 | decoding the packets written for a pixel list gives back the pixels, whatever follows |
| TgaRle.PixelList | src/tgaimage.cpp:445-446 | a buffer of np pixels splits into np pixels of bpp bytes |
| TgaRle.FlattenPixelList | src/tgaimage.cpp:445-446 | the pixels of a buffer, laid end to end, are the buffer |
| TgaRle.PixelAtByte | src/tgaimage.cpp:456 | pixel k of a buffer is the bpp bytes at k·bpp |
| TgaRle.FlattenSpan | src/tgaimage.cpp:484-485 | the bytes of pixels p to q-1 are the buffer from byte p·bpp to q·bpp |
| TgaRle.SerializeCons | src/tgaimage.cpp:476-485 | a packet is written as its header byte followed by its payload |
| TgaRle.ChunksStep | src/tgaimage.cpp:443-492 | the stream from pixel p on is the packet at p followed by the stream after its chunk |
| TgaRle.NextPixelBytes | src/tgaimage.cpp:456-458 | currentByte + bytespp is the start of the next pixel |
| TgaRle.SameAt | src/tgaimage.cpp:454-456 | comparing neighbouring pixels' bytes compares the pixels |
| TgaRle.ChunkBytes | src/tgaimage.cpp:484-485 | the bytes written after the header are the packet's payload |
| TgaRle.ChunksWritten | src/tgaimage.cpp:475-485 | each pass writes the next packet of the encoding |
| TgaRle.RoundTrip | src/tgaimage.cpp:364-494 | loadRLEData on what unloadRLEData wrote, whatever follows it, succeeds and restores the buffer |
| Geometry.Vec2.At | src/geometry.hpp:84-94 | indices 0 and 1 of a vec2 are x and y |
| Geometry.Vec3.At | src/geometry.hpp:104-114 | indices 0, 1, 2 of a vec3 are x, y, z |
| Geometry.Vec4.At | src/geometry.hpp:125-135 | indices 0 to 3 of a vec4 are x, y, z, w |
| Geometry.Vec4.XY | src/geometry.hpp:137 | xy() is the first two coordinates |
| Geometry.Vec4.XYZ | src/geometry.hpp:139 | xyz() is the first three coordinates |
| Geometry.DotFrom | src/geometry.hpp:25-31 | the terms k to n-1 of the dot product, summed from the last; DotFromComm, DotFromAdd and DotFromScale state its algebra |
| Geometry.Dot | src/geometry.hpp:25-31 | the dot product; DotLoop states the source's loop computes it, DotComm, DotAddLeft and DotScaleLeft its algebra |
| Geometry.DotLoop | src/geometry.hpp:25-31 | the loop summing from the last index down computes the dot product |
| Geometry.Add | src/geometry.hpp:33-39 | the sum is taken coordinate by coordinate |
| Geometry.Sub | src/geometry.hpp:41-47 | the difference is taken coordinate by coordinate |
| Geometry.Scale | src/geometry.hpp:49-55 | every coordinate is multiplied by the scalar |
| Geometry.ScaleLeft | src/geometry.hpp:57-61 | a scalar on the left keeps the length and multiplies every coordinate by it, as on the right |
| Geometry.Div | src/geometry.hpp:63-69 | every coordinate is divided by a nonzero scalar |
| Geometry.DotComm | src/geometry.hpp:25-31 | the dot product is symmetric |
| Geometry.DotAddLeft | src/geometry.hpp:25-39 | the dot product distributes over +. |
| Geometry.DotScaleLeft | src/geometry.hpp:25-55 | scaling a factor scales the dot product |
| Geometry.SubAddCancel | src/geometry.hpp:33-47 | (u + v) - v is u |
| Geometry.DivScaleCancel | src/geometry.hpp:49-69 | (v · s) / s is v for nonzero s |
| Geometry.Dot3 | src/geometry.hpp:25-31 | unfolds the dot product of 3-vectors into its three terms, for CrossOrthogonal |
| Geometry.Cross | src/geometry.hpp:163-167 | the component formula of cross; CrossOrthogonal, AdjugateRow0-2 and TripleIsExpansion state what it computes |
| Geometry.CrossOrthogonal | src/geometry.hpp:163-167 | cross(a, b) is orthogonal to a and to b |
| Geometry.Normalized | src/geometry.hpp:152-161 | for len the norm of v (non-negative, len · len = v · v), normalized keeps v unchanged when len is 0, and otherwise gives the vector that scaled by len is v |
| Geometry.NormalizedIsUnit | src/geometry.hpp:146-161 | a nonzero vector normalized by its norm has squared norm 1 |
| Geometry.Transpose | src/geometry.hpp:214-222 | entry (i, j) of the transpose is entry (j, i) |
| Geometry.TransposeInvolution | src/geometry.hpp:214-222 | transposing twice gives the matrix back |
| Geometry.MatMul | src/geometry.hpp:239-249 | the product of an r1×c1 and a c1×c2 matrix is r1×c2 |
| Geometry.MatMulEntry | src/geometry.hpp:239-249 | entry (i, j) of the product is row i of lhs dotted with column j of rhs |
| Geometry.MatVec | src/geometry.hpp:231-237 | mat·vec has one entry per row, row i dotted with the vector; MatVecIsProduct ties it to the matrix product |
| Geometry.VecMat | src/geometry.hpp:225-229 | vec·mat has one entry per column; VecMatIsTransposedProduct ties it to the transpose |
| Geometry.MatVecIsProduct | src/geometry.hpp:231-237 | mat·vec is the product with the vector as a column matrix |
| Geometry.VecMatIsTransposedProduct | src/geometry.hpp:225-229 | vec·mat is the transpose applied to the vector |
| Geometry.TransposeOfProduct | src/geometry.hpp:214-249 | the transpose of a product is the product of the transposes, in reverse order |
| Geometry.MatAdd | src/geometry.hpp:267-277 | matrix + is entry by entry |
| Geometry.MatSub | src/geometry.hpp:279-289 | matrix - is entry by entry |
| Geometry.MatScale | src/geometry.hpp:251-257 | mat·scalar keeps the shape and multiplies entry (i, j) by the scalar |
| Geometry.MatDiv | src/geometry.hpp:259-265 | mat/scalar divides every entry by a nonzero scalar |
| Geometry.MatVecOfScaled | src/geometry.hpp:231-257 | a scaled matrix applied to a vector is the scaled product: (m·s)·v = (m·v)·s |
| Geometry.MatDivScaleCancel | src/geometry.hpp:251-265 | (m·s)/s is m for nonzero s |
| Geometry.MatSubAddCancel | src/geometry.hpp:267-289 | (A + B) - B is A |
| Geometry.Submatrix | src/geometry.hpp:191-197 | the submatrix drops one row and one column |
| Geometry.SubmatrixIsMinor | src/geometry.hpp:191-197 | the index-shift loop removes exactly row `row` and column `col` |
| Geometry.Det | src/geometry.hpp:298-313 | det(): the sole entry of a 1×1 matrix, otherwise the first-row expansion; Det2, Det3, DetSwapRows and DetTranspose1-3 state its values |
| Geometry.DetSum | src/geometry.hpp:303-305 | the countdown loop of the expansion, terms k to n-1; DivisorIsDetSum ties it to invertTranspose's divisor |
| Geometry.Cofactor | src/geometry.hpp:191-200 | the submatrix's determinant, negated when row + col is odd; CofactorSign, Cofactor3 and TransposeCofactor state its values |
| Geometry.CofactorSign | src/geometry.hpp:199 | unfolds cofactor's definition: the minor, negated at odd positions |
| Geometry.Minor2 | src/geometry.hpp:191-199 | a 2×2 matrix's minor is the entry left over |
| Geometry.Det2 | src/geometry.hpp:298-313 | the determinant of a 2×2 matrix is ad - bc |
| Geometry.Det3 | src/geometry.hpp:298-313 | the determinant of a 3×3 matrix is the rule of Sarrus |
| Geometry.DetByMinors3 | src/geometry.hpp:298-306 | expansion along the first row, written with the three minors |
| Geometry.DetByCofactors2 | src/geometry.hpp:298-313 | unfolds det() of a 2×2 matrix into its two first-row terms, for Det2 |
| Geometry.DetByCofactors3 | src/geometry.hpp:298-313 | unfolds det() of a 3×3 matrix into its three first-row terms, for Det3 |
| Geometry.DetSwapRows | src/geometry.hpp:298-313 | exchanging two rows of a 2×2 or 3×3 matrix negates the determinant |
| Geometry.AdjugateTranspose | src/geometry.hpp:202-207 | entry (i, j) of the adjugate transpose is cofactor (i, j) |
| Geometry.DivisorIsDet | src/geometry.hpp:209 | for n ≥ 2 the divisor `adjugateTranspose[0] * rows[0]` is the determinant det() computes |
| Geometry.InvertTranspose | src/geometry.hpp:202-210 | entry (i, j) of invertTranspose is cofactor (i, j) over the determinant |
| Geometry.Invert | src/geometry.hpp:212 | entry (i, j) of invert is cofactor (j, i) over the determinant; InvertIsInverse2 and InvertIsInverse3 prove it the two-sided inverse for sizes 2 and 3 |
| Geometry.Invert2 | src/geometry.hpp:189-212 | invert of [[a, b], [c, e]] is [[e, -b], [-c, a]] / (ae - bc) |
| Geometry.IdentityByEntries | src/geometry.hpp:239-249 | a square matrix with the identity's entries is the identity |
| Geometry.ProductEntry | src/geometry.hpp:202-249 | entry (i, j) of m·invert is 1 or 0 once row i of m paired with cofactor row j gives det or 0 |
| Geometry.ScaledTransposeColumn | src/geometry.hpp:209-212 | column j of invert is cofactor row j divided by the determinant |
| Geometry.RightInverseByAdjugate | src/geometry.hpp:202-249 | when every row paired with its own cofactor row gives det and with another's gives 0, m·invert(m) is the identity |
| Geometry.TransposeIdentity | src/geometry.hpp:214-222 | the identity is its own transpose |
| Geometry.InvertOfTranspose | src/geometry.hpp:202-222 | when the transpose keeps det and mirrors the cofactors, invert of the transpose is the transpose of invert |
| Geometry.LeftInverseByTranspose | src/geometry.hpp:202-249 | under the same conditions, a right inverse of the transpose makes invert(m)·m the identity |
| Geometry.SubmatrixOfTranspose | src/geometry.hpp:191-222 | the (i, j) submatrix of the transpose is the transpose of the (j, i) submatrix |
| Geometry.TransposeCofactor | src/geometry.hpp:191-222 | cofactor (i, j) of the transpose is cofactor (j, i), once transposing keeps the submatrix's determinant |
| Geometry.DetTranspose1 | src/geometry.hpp:309-313 | transposing a 1×1 matrix keeps det |
| Geometry.DetTranspose2 | src/geometry.hpp:298-313 | transposing a 2×2 matrix keeps det |
| Geometry.DetTranspose3 | src/geometry.hpp:298-313 | transposing a 3×3 matrix keeps det |
| Geometry.QuarterTurnDots | src/geometry.hpp:25-31 | a 2-vector dotted with another turned a quarter either way is a 2×2 expansion |
| Geometry.AdjugateRows2 | src/geometry.hpp:191-212 | for 2×2, row i paired with cofactor row j gives det when i = j and 0 otherwise |
| Geometry.TransposeCofactors2 | src/geometry.hpp:191-222 | every cofactor (i, j) of a 2×2 transpose is cofactor (j, i) |
| Geometry.InvertIsInverse2 | src/geometry.hpp:189-249 | a 2×2 matrix with nonzero determinant times its invert, on either side, is the identity |
| Geometry.Cofactor3 | src/geometry.hpp:191-200 | cofactor (i, j) of a 3×3 matrix is the 2×2 determinant of the kept rows and columns, negated at odd positions |
| Geometry.AsVec3 | src/geometry.hpp:100-114 | a 3-element sequence as a vec3 with those coordinates |
| Geometry.AdjugateRow0 | src/geometry.hpp:163-207 | the cofactors of row 0 of a 3×3 matrix are the cross product of rows 1 and 2 |
| Geometry.AdjugateRow1 | src/geometry.hpp:163-207 | the cofactors of row 1 are the cross product of rows 2 and 0 |
| Geometry.AdjugateRow2 | src/geometry.hpp:163-207 | the cofactors of row 2 are the cross product of rows 0 and 1 |
| Geometry.TripleIsExpansion | src/geometry.hpp:163-167 | p · (q × r) is the first-row expansion of the matrix with rows p, q, r |
| Geometry.AdjugateRows3 | src/geometry.hpp:191-212 | for 3×3, row i paired with cofactor row j gives det when i = j and 0 otherwise |
| Geometry.TransposeCofactors3 | src/geometry.hpp:191-222 | every cofactor (i, j) of a 3×3 transpose is cofactor (j, i) |
| Geometry.InvertIsInverse3 | src/geometry.hpp:189-249 | a 3×3 matrix with nonzero determinant times its invert, on either side, is the identity |

## Left out

- File and stream handling. Opening, closing and the `good()` checks become
  "the bytes run out" on input. Output cannot fail, so `WriteTGAFile` returns
  its bytes rather than a success flag. The `std::cerr` messages are not
  modelled, nor is the size line readTGAFile prints (src/tgaimage.cpp:134).
- The copy constructor, `operator=` and the destructor of TGAImage
  (lines 45-57 and 346-362), and `buffer()` (line 342). They copy or release
  memory and have nothing to prove beyond what a fresh `Sized` image shows.
  The copy constructor and `operator=` of TGAColor (lines 17 and 24-33) copy
  the colour value and are left out.
- Byte order and `char` signedness are fixed: the union and the header are
  little-endian, and `char` is signed, as on the x86 targets of the source.
- Integer widths of the buffer arithmetic. `width * height * bytespp` and the
  `unsigned long` offsets are unbounded integers; a product over 2^31 that
  overflows `int` in the source is not modelled. Header `short` fields are
  truncated explicitly (`ToShort`).
- `new unsigned char[n]` without memset (scale's `tData`, readTGAFile's buffer)
  is allocated without an initializer, so its contents are arbitrary, like the
  source's uninitialised buffer, and no contract states them. The sized
  constructor's buffer is zeroed, as its memset does.
- TgaImage.Image.Sized: requires `0 <= w, h` and `1 <= bpp <= 4`. The source does
  not check. A negative size overflows the allocation, and a bpp above 4
  overruns the four-byte colour union in `get` and `set`. A bpp of 0 is left
  out because the image invariant every method relies on ties a buffer to 1 to
  4 bytes per pixel; the reader never builds such an image, as it accepts only
  1, 3 and 4.
- TgaImage.Image.Clear: requires a buffer or a zero-byte size. Memset of a
  nonzero size on a null pointer is undefined behaviour.
- TgaImage.Image.Scale: when the old width or height is 0, the contents of the
  new buffer are not stated. The source's loops then write nothing into an
  uninitialised buffer.
- TgaImage.Image.Scale: uses the corrected column picks of the Findings row, with
  errX starting at max(width - w, 0) where line 281 starts it at width - w. So
  does every member it rests on: TgaImage.ScaleLine, TgaImage.ColumnLoopStart,
  TgaScaleState.ColumnsOf, TgaImage.ScaleRow, TgaImage.ScaleRows,
  TgaImage.ScaleBuffer, TgaScale.Scaled and TgaScale.ScaledPixel. They agree with
  the code whenever w ≤ width. When w > width they differ: the code writes fewer
  columns, and the ones it writes are shifted. Width 2 scaled to 5 picks source
  columns [0, 1, 1] in the code and [0, 0, 1, 1, 1] in the model.
  TgaScale.ColumnPicksAsWritten and TgaScale.AsWrittenDropsColumns model the
  code's picks.
- TgaScale.ScaledPixel: states the pixels of the corrected scale, not the code's
  when w > width (see TgaImage.Image.Scale above).
- TgaScale.Scaled: built from the corrected column picks (see TgaImage.Image.Scale).
- TgaImage.ScaleLine and TgaImage.ColumnLoopStart: start errX at the corrected
  value, so the column loop they prove is the code's only when w ≤ width.
- TgaImage.ScaleRow, TgaImage.ScaleRows and TgaImage.ScaleBuffer: fill the new
  buffer with the corrected column picks, not the code's when w > width.
- TgaImage.Image.LoadRLEData: the class, like TgaImage.LoadLiteral,
  TgaImage.LoadRepeat and TgaImage.LoadRLE, checks for room before it stores a
  pixel, while the code of lines 395-404 and 420-429 stores first. The code's
  write of one pixel past the end of the buffer (Findings row) is not
  represented. TgaRle.AsWrittenOverrunsByOnePixel shows that the bytes inside
  the buffer and the success flag agree with the code.
- TgaImage.Image.ReadTGAFile: after a failed pixel read, the contents of the
  partly filled buffer are not stated. The source's buffer is then
  partly written.
- TgaImage.Image.WriteTGAFile and TgaImage.Image.UnloadRLEData: require a
  buffer unless width · height is 0. With no buffer and a nonzero byte size
  the source reads through the null pointer. An image with no buffer,
  pixels, and 0 bytes per pixel is also excluded, although the source writes
  it without reading the buffer.
- The image ID field after the header (`idLength` bytes) is not skipped by the
  reader, in the source or in the model. Colour-mapped types are rejected as
  unknown.
- Geometry uses unbounded reals, not IEEE `double`. Rounding, infinities and
  NaN are not modelled.
- Geometry.Normalized: takes the vector's length as an argument, required to be
  non-negative with `len * len` equal to the squared norm, because Dafny has
  no square root on reals.
  `NormalizedIsUnit` proves the unit length.
- Geometry.Div and Geometry.MatDiv: require a nonzero divisor. Division by
  zero in `double` gives infinities or NaN.
- Geometry.InvertTranspose and Geometry.Invert: require a square matrix of size
  at least 2 with a nonzero determinant. The source divides by zero otherwise.
- Geometry.Invert: the two-sided inverse is proved for sizes 2 and 3 only
  (InvertIsInverse2 and InvertIsInverse3). For larger sizes the expansion of
  det along any row and the transposition of det are not proved, so no
  inverse property is stated there.
- Geometry.DetSwapRows: covers sizes 2 and 3; exchanging rows of a 4×4 or
  larger matrix is not proved.
- The determinant of a 0×0 matrix, which the template cannot instantiate, is 0.
- The `operator<<` overloads for vectors and matrices (src/geometry.hpp:71-76,
  291-296) print text and are left out.
- The vector and matrix templates are generic sequences of reals. Their fixed
  sizes are carried as `requires` on lengths rather than in the type.
- model.cpp, gl.cpp, main.cpp and the other renderer files are not part of this
  model.

## Findings

| source | as written | input that shows it | evidently intended | confidence | as-written member | corrected member |
|---|---|---|---|---|---|---|
| src/tgaimage.cpp:395-404, 420-429 | loadRLEData stores a pixel, then checks whether too many pixels were read | a 1×1 image with 1 byte per pixel and the packet stream [1, 7, 8] (a raw packet of two pixels): the second pixel is written to `data[1]`, one byte past the buffer | check for room before storing, so a packet that overflows fails without writing outside the buffer | not executed | TgaRle.AsWrittenOverrunsByOnePixel | TgaRle.DecodeWithinBuffer |
| src/tgaimage.cpp:281-295 | errX starts at width - w, which is negative when w > width, so enlarging the width copies fewer than w columns, shifted to the left, and leaves the rest of each new line uninitialised | width 2 scaled to w = 3: the column loop copies source columns [0, 1] and leaves new column 2 unwritten; scaled to w = 5 it copies [0, 1, 1] where [0, 0, 1, 1, 1] is meant | every new column gets a source pixel, e.g. errX starting at max(width - w, 0), which agrees with the code whenever w ≤ width | not executed | TgaScale.AsWrittenDropsColumns | TgaScale.ColumnPicks |
