# nextgame core, modelled in Dafny

This project models the deterministic core of nextgame, a voxel game engine
with a content pipeline, and proves properties of the model:

- **Atlas generator** (`tools/atlasgen.py`):
  - the binary-tree rectangle packer `ImagePack.insert`, as a tree value and as a class that mutates its nodes;
  - the image sort comparator and the stable sort it drives;
  - the fit test;
  - the power-of-two grow/shrink size search;
  - `common_prefix`.
- **Font generator** (`tools/fontgen.py`): the shelf packer with its fit test, the size search, the glyph placement loop, and the code-point order of the output table.
- **C++ engine libraries**:
  - the UTF-8 codec (`source/Core/UTF8.cpp`);
  - the run-length voxel compressor, decompressor, appender and iterator (`source/Geometry/RLE.h`);
  - `BitArray`;
  - the path cleaner `clean_path` (`source/OS/IO.cpp`);
  - the growable `String`, the binary min-`Heap` and the bucketed `HashMap`;
  - the little-endian `ByteReader`/`ByteWriter`;
  - the packed `TermboxCell`;
  - the voxel index helpers of `Geometry/Global.h` and the chunk range of `Map/Position.cpp`;
  - the glyph lookup of `GUI/Font.cpp`;
  - the event-handler registry (`OOP/EventManager.cpp`);
  - the integer voxel CSG operations of `Geometry/HermiteField.cpp`;
  - the `Rect` helpers of `Math/Rect.h`.

Where the source works by changing state step by step, the model does too.
State the source updates in place is kept in classes: `ImagePack`,
`BitArray`, `Str`, `Heap`, `HashMap`, `ByteReader`/`ByteWriter`,
`RleField`, `RleIterator`, `EventManager` and `HermiteField`. Loops become
`while` loops with invariants. Each method is proved against a pure
specification function, and the properties the source promises are proved
as lemmas about those functions. Pure helpers such as comparators, masks,
index arithmetic and the UTF-8 decoder are functions.

Integers are unbounded. Where a C++ width matters it is written out
explicitly: 32-bit runes, unsigned 16-bit RLE offsets, 8-bit bytes and
edges, the terminal cell's bit fields, and the byte reader's sizes.

## Model

| member | source | states |
|---|---|---|
| TexSize.NextPowerOf2Smallest | tools/atlasgen.py:89-96 | for 1 <= v <= 2^32, next_power_of_2(v) is a power of two with v <= r < 2v, i.e. the smallest power of two at or above v |
| TexSize.SmearBits | tools/atlasgen.py:90-95 | after the five or-shift steps, bit i of the result is set exactly when some bit of x in [i, i+32) is set |
| TexSize.SmearBelow | tools/atlasgen.py:90-95 | smearing a number whose top bit is k-1 gives 2^k - 1 |
| TexSize.SmearStep | tools/atlasgen.py:91-95 | one `v \|= v >> m` step doubles the window of bits or'ed into each position |
| TexSize.ISqrt | tools/atlasgen.py:103 | int(math.sqrt(n)) is the integer r with r*r <= n < (r+1)*(r+1) |
| TexSize.HalveNBound | tools/atlasgen.py:83-87 | halving a non-negative size a times, a no more than the size, takes off at least a |
| TexSize.HalvingsReachZero | tools/atlasgen.py:83-87 | from a non-negative (s, s), 2s alternating halvings reach (0, 0) |
| TexSize.HalvingsStayZero | tools/atlasgen.py:83-87 | once the halvings reach (0, 0) every later step stays at (0, 0) |
| TexSize.HalvingsClosedForm | tools/atlasgen.py:83-87 | after n alternating shrink steps from (s, s) the width has been halved n/2 times and the height (n+1)/2 times |
| TexSize.HalveNPow2 | tools/atlasgen.py:83-87 | halving a power of two 2^k a times (a <= k) gives exactly 2^(k-a), so floor halving loses nothing on the sizes the search produces |
| StableSort.Sort | tools/atlasgen.py:73 | the in-place sort leaves the array equal to the stable insertion order SortSpec of its old contents |
| StableSort.InsertInto | tools/atlasgen.py:73 | moving a[i] left into the sorted prefix gives InsertSorted of the prefix and a[i], followed by the untouched rest |
| StableSort.InsertSortedSplit | tools/atlasgen.py:73 | the inserted element lands after every element it does not sort before and before the ones it sorts before |
| StableSort.SortSpecPermutes | tools/atlasgen.py:73 | sorting is a permutation of its input |
| StableSort.SortSpecAdjacent | tools/atlasgen.py:73 | for an asymmetric relation, no element of the result sorts before its left neighbour |
| StableSort.SortSpecSorted | tools/atlasgen.py:73 | for a consistent relation, no element of the result sorts before any earlier one |
| StableSort.SortSpecStable | tools/atlasgen.py:73 | elements of an equivalence class keep their input order (stability) |
| AtlasSort.Sign | tools/atlasgen.py:61-62 | cmp(a, b) is -1, 0 or 1 with the sign of a - b |
| AtlasSort.CmpRule | tools/atlasgen.py:63-71 | two landscape images sort by descending height, two portrait ones by descending width, any other pair by descending area |
| AtlasSort.CmpAntisymmetric | tools/atlasgen.py:61-71 | image_info_cmp(a, b) == -image_info_cmp(b, a) |
| AtlasSort.CmpNotTransitive | tools/atlasgen.py:63-71 | three concrete images on which the comparator's order is cyclic, so it is not a consistent order in general |
| AtlasSort.LessAsymmetric | tools/atlasgen.py:63-73 | the "sorts before" relation the sort sees is asymmetric |
| AtlasSort.LandscapeConsistent | tools/atlasgen.py:66-67 | on landscape images only, the order is consistent (a weak order by height) |
| AtlasSort.PortraitConsistent | tools/atlasgen.py:68-69 | on portrait images only, the order is consistent (a weak order by width) |
| AtlasSort.SortImages | tools/atlasgen.py:58-73 | sort_images permutes the images, leaves no image sorting before its left neighbour, and is the stable order of the comparator |
| AtlasPack.LeafRefuses | tools/atlasgen.py:29-30 | a leaf returns None and is unchanged when the request is wider or taller than it, or it is filled |
| AtlasPack.ExactFill | tools/atlasgen.py:32-34 | an exact-size request fills the leaf and returns its whole rect; any later request to it fails |
| AtlasPack.LeftFirst | tools/atlasgen.py:23-27 | a split node returns the left child's result when it succeeds, and only otherwise asks the right child |
| AtlasPack.SplitGutter | tools/atlasgen.py:36-45 | the two children of a split are the rects of lines 40-45, have non-negative size, lie in the parent, and are one pixel apart |
| AtlasPack.InsertFailUnchanged | tools/atlasgen.py:21-47 | a failed insert changes no node |
| AtlasPack.InsertFreshLeafSucceeds | tools/atlasgen.py:29-47 | a request that fits an empty leaf always succeeds |
| AtlasPack.UsedInside | tools/atlasgen.py:21-47 | every filled rect lies inside the tree's rect |
| AtlasPack.InsertPlaces | tools/atlasgen.py:21-47 | a successful insert returns a w x h rect inside the node's rect that overlaps no rect returned before, and it is the one new filled rect; the tree stays well-formed |
| AtlasPack.InsertShape | tools/atlasgen.py:21-47 | the new tree is well-formed with the same rect; the returned rect is w x h and inside it |
| AtlasPack.InsertUsed | tools/atlasgen.py:21-47 | a successful insert fills exactly the returned rect |
| AtlasPack.InsertApart | tools/atlasgen.py:21-47 | the returned rect is new and disjoint from every rect filled before |
| AtlasPackObj.ImagePack.constructor | tools/atlasgen.py:15-19 | a new node is an empty leaf over its rect |
| AtlasPackObj.ImagePack.Insert | tools/atlasgen.py:21-47 | the mutating insert leaves the node tree and result equal to the tree-value Insert of the old tree |
| AtlasPackObj.ImagePack.InsertChildren | tools/atlasgen.py:23-27 | insert into an inner node, as Insert |
| AtlasPackObj.ImagePack.InsertLeaf | tools/atlasgen.py:28-47 | insert into a leaf (reject, fill, or split and recurse left), as Insert |
| AtlasGen.CheckImagesFit | tools/atlasgen.py:75-81 | check_images_fit is true exactly when packing every image in turn into a fresh w x h packer succeeds |
| AtlasGen.PackAllPlaces | tools/atlasgen.py:75-81 | when every image fits, image i gets a rect of its own size inside the texture, and the rects are pairwise disjoint |
| AtlasGen.FitsPositiveSize | tools/atlasgen.py:75-81 | a texture that takes a non-empty image is at least 1 x 1 |
| AtlasGen.TotalArea | tools/atlasgen.py:99-101 | the area loop sums w*h over the images |
| AtlasGen.Shrink | tools/atlasgen.py:115-125 | when the shrink loop stops, it is at the size after n alternating halvings such that every size up to it fits and the next does not; it returns no size exactly when every size of the halving sequence fits, the case where the loop never ends |
| AtlasGen.CalculateAtlasDims | tools/atlasgen.py:98-127 | for any images: no size when the total area is negative (math.sqrt raises); if the first guess (next power of two of the square root of the total area) fails, the width doubles and then the height when that still fails; otherwise the last size of the shrink sequence that fits, or no size exactly when the shrink loop never ends |
| AtlasGen.PositiveImagesStop | tools/atlasgen.py:115-125 | with at least one image and every image at least 1 x 1, the shrink loop ends from any starting size |
| AtlasGen.NoImagesNeverStop | tools/atlasgen.py:98-125 | with no images the first guess is 0 and every size fits, so the shrink loop never ends |
| AtlasGen.TrimTo | tools/atlasgen.py:131-133 | trimming p against b gives a common prefix of both that every common prefix is a prefix of |
| AtlasGen.LcpLongest | tools/atlasgen.py:129-133 | the trimmed prefix is a prefix of every name and the longest such |
| AtlasGen.RFind | tools/atlasgen.py:135 | str.rfind: -1 or the index of the last occurrence of c |
| AtlasGen.CommonPrefix | tools/atlasgen.py:129-139 | common_prefix is the length of the names' longest common prefix, cut back to just after its last separator |
| FontGen.RunStep | tools/fontgen.py:102-110 | the cursor after glyph k is the placement of glyph k advanced by its width plus one |
| FontGen.RowRule | tools/fontgen.py:103-107 | a glyph wraps exactly when x + width > w; the next row starts at y + line_height + 1 and the row height is the running maximum |
| FontGen.CheckGlyphsFit | tools/fontgen.py:98-111 | check_glyphs_fit as written: true exactly when no row, once raised to a glyph's height, passes h |
| FontGen.WideGlyphPassesCheck | tools/fontgen.py:98-111 | a 4 x 1 glyph passes the check for a 2 x 2 texture, yet is placed at x = 0 and overruns the width |
| FontGen.CheckGlyphsFitFixed | tools/fontgen.py:98-111 | the corrected check: additionally no glyph is wider than w |
| FontGen.PlaceGlyphs | tools/fontgen.py:169-180 | glyph k is drawn at the cursor the row rule gives for it, the same rule as the fit check |
| FontGen.RowsInvariant | tools/fontgen.py:169-180 | every glyph placed so far is on the cursor's row left of it, or on an earlier row above it |
| FontGen.PlacedApart | tools/fontgen.py:169-180 | two placed glyphs never overlap |
| FontGen.PlacementsInBounds | tools/fontgen.py:98-111 | under the corrected check, a size that fits gives every glyph a place inside the texture, apart from every other glyph |
| FontGen.TotalArea | tools/fontgen.py:120-122 | the area loop sums width*height |
| FontGen.FitsPositiveSize | tools/fontgen.py:98-111 | a texture that takes an inked glyph is at least 1 x 1 |
| FontGen.Shrink | tools/fontgen.py:136-146 | under the chosen check (the program's, or the corrected one), the shrink loop stops at the last size of the halving sequence that passes, and returns no size exactly when every size passes, the case where the loop never ends |
| FontGen.CalculateFontDims | tools/fontgen.py:119-148 | with check_glyphs_fit as written, for any glyphs: no size when the total area is negative; grow the width, then the height, when the first guess fails; otherwise shrink to the last size that passes, or no size exactly when the shrink loop never ends |
| FontGen.CalculateFontDimsFixed | tools/fontgen.py:119-148 | the same search with the corrected check; a size found on the shrink path takes every glyph, so PlacementsInBounds applies to it |
| FontGen.InkedShrinkStops | tools/fontgen.py:136-146 | with non-negative sizes and a glyph of at least 1 x 1, the shrink loop ends under either check |
| FontGen.NoGlyphsNeverStop | tools/fontgen.py:119-146 | with no glyphs the first guess is 0 and every size passes, so the shrink loop never ends |
| FontGen.WideGlyphSizedTooSmall | tools/fontgen.py:119-148 | the program sizes the texture for one 4 x 1 glyph as 2 x 2, which the glyph does not fit |
| FontGen.SortGlyphs | tools/fontgen.py:150-155 | the glyphs end in the stable order of "taller first" |
| FontGen.GlyphOrder | tools/fontgen.py:150-155 | the sorted glyphs are a permutation, by non-increasing height, and glyphs of equal height keep their order |
| FontGen.SortByCode | tools/fontgen.py:198 | the output glyphs end in the stable order of their code points |
| FontGen.EncodingTable | tools/fontgen.py:207-209 | one table entry per output glyph |
| FontGen.EncodingTableSorted | tools/fontgen.py:198-209 | the table written from the code-sorted glyphs is sorted by code point, and entry i is (code point of glyph i, i) |
| Utf8.DecodeRune | source/Core/UTF8.cpp:34-45 | decoding empty input gives (RUNE_ERROR, 0); a byte below 0x80 decodes to itself with size 1; a step has size at most min(4, length); (RUNE_ERROR, 1) is exactly a size-1 step on a non-ASCII byte |
| Utf8.EncodeDecoded | source/Core/UTF8.cpp:34-119 | a multi-byte decode that is not an error yields a valid rune (no surrogate, nothing above U+10FFFF) whose encoding is exactly the bytes consumed, so overlong 2-, 3- and 4-byte forms never decode to a rune |
| Utf8.DecodeEncode | source/Core/UTF8.cpp:34-119 | decoding the encoding of a valid rune, followed by any bytes, gives the rune, its encoded length and no incomplete flag |
| Utf8.ValidRuneRoundTrip | source/Core/UTF8.cpp:169-204 | a rune survives encode then decode, with the encoded length, exactly when it is valid |
| Utf8.EncodeInvalid | source/Core/UTF8.cpp:183-189 | a negative rune, a surrogate or a value above U+10FFFF is encoded as RUNE_ERROR, the bytes EF BF BD |
| Utf8.EncodeRune | source/Core/UTF8.cpp:169-204 | encode_rune writes Encode(r) to the front of the slice, returns its length, and leaves the rest of the slice alone |
| Utf8.RuneLength | source/Core/UTF8.cpp:220-237 | rune_length is -1 for negatives, surrogates and values above RUNE_MAX, and otherwise the length of the rune's encoding |
| Utf8.FullRune | source/Core/UTF8.cpp:121-124 | when full_rune holds, appending bytes does not change the decoded rune; otherwise the input is shorter than 4 bytes and decodes to RUNE_ERROR with size 0 or 1 |
| Utf8.LongSequenceShape | source/Core/UTF8.cpp:239-242 | a step longer than one byte starts at a rune_start byte and every later byte it consumes is not a rune_start |
| Utf8.StepsSplit | source/Core/UTF8.cpp:206-218 | forward stepping, for any decoder that advances and reads only its own bytes, splits at every step boundary |
| Utf8.StartIsBoundary | source/Core/UTF8.cpp:239-242 | for a decoder whose later bytes are never starts, every start byte is a step boundary |
| Utf8.LastOfSteps | source/Core/UTF8.cpp:206-218 | the last forward step of non-empty input starts at a boundary and reaches the end |
| Utf8.RunesSplit | source/Core/UTF8.cpp:206-218 | forward decoding splits at every boundary |
| Utf8.RuneStartIsBoundary | source/Core/UTF8.cpp:239-242 | forward decoding never steps over a byte that can start a rune |
| Utf8.ScanBack | source/Core/UTF8.cpp:152-156 | the backward scan stops at the first rune_start byte at or above lim, or at lim - 1 when there is none |
| Utf8.DecodeLast | source/Core/UTF8.cpp:132-167 | decode_last_rune of empty input is (RUNE_ERROR, 0), and otherwise a step of size 1 up to the input length |
| Utf8.DecodeLastIsLastStep | source/Core/UTF8.cpp:132-167 | decoding backwards from the end gives exactly the last step of forward decoding |
| Utf8.BackwardEqualsForward | source/Core/UTF8.cpp:132-167 | repeatedly decoding the last rune and cutting it off yields the same runes, sizes and hence offsets as forward decoding |
| Utf8.DecodeLastRune | source/Core/UTF8.cpp:132-167 | the loop version of decode_last_rune returns DecodeLast: (RUNE_ERROR, 0) on empty input, otherwise the last rune of forward decoding |
| Utf8.RuneCount | source/Core/UTF8.cpp:206-218 | rune_count is the number of forward decoding steps |
| Utf8.Valid | source/Core/UTF8.cpp:244-262 | valid is true exactly when no non-ASCII position of the forward walk decodes with size 1 |
| Utf8.WellFormedIsEncoding | source/Core/UTF8.cpp:244-262 | a valid byte string is exactly the encoding of the runes it decodes to, and every one of them is a valid rune |
| Utf8.EncodingIsWellFormed | source/Core/UTF8.cpp:169-262 | encoding a sequence of valid runes gives a valid string that decodes back to them |
| Rle.MakeSeqFields | source/Geometry/RLE.h:67-75 | a header built from a 16-bit offset and a 15-bit data offset reads both back, and the compressed flag reads back as given |
| Rle.DataOffset | source/Geometry/RLE.h:74 | data_offset() is the stored value with bit 15 masked off, so it lies in [0, 2^15) |
| Rle.Expand | source/Geometry/RLE.h:60-79 | the field an encoding stands for is as long as the offsets it spans |
| Rle.ExpandAt | source/Geometry/RLE.h:94 | element j of run i sits in the field at the run's offset plus j |
| Rle.ExpandOfCover | source/Geometry/RLE.h:60-79 | an encoding whose runs stand for consecutive slices of a field expands to that field |
| Rle.OffsetsIncrease | source/Geometry/RLE.h:62 | header offsets strictly increase in a well-formed encoding |
| RleCompress.SplitRuns | source/Geometry/RLE.h:17-51 | the run splitter reports non-empty runs that cut the field in order, alternate in kind starting with a compressed run, with each compressed run constant and each element of an uncompressed run after the first differing from its predecessor |
| RleCompress.CountRuns | source/Geometry/RLE.h:236-250 | the first pass counts one header per run and one data element per compressed run or num per uncompressed one |
| RleCompress.WritePass | source/Geometry/RLE.h:254-275 | the second pass writes the header of every run and the data pieces of all runs in order |
| RleCompress.WriteRun | source/Geometry/RLE.h:258-274 | the callback for one run writes its header and its piece and advances the cursors by the stored width |
| RleCompress.CopyPiece | source/Geometry/RLE.h:260-273 | a compressed run stores its first element, an uncompressed run all of its elements, after the data already written |
| RleCompress.CopyRange | source/Geometry/RLE.h:262-263 | the copy loop puts s[srci..srci+num] at datai and leaves the earlier data alone |
| RleCompress.WriteSentinel | source/Geometry/RLE.h:276 | the sentinel header carries the field length and no flag |
| RleCompress.HeaderAt | source/Geometry/RLE.h:258-276 | header i carries the offset of run i, the data position of its piece and its kind; the sentinel carries no flag |
| RleCompress.EncodedWellFormed | source/Geometry/RLE.h:234-277 | the headers and data rle_compress writes are well formed and span the whole field |
| RleCompress.Roundtrip | source/Geometry/RLE.h:234-277 | the encoding written for a split of the field expands back to the field |
| RleCompress.Compress | source/Geometry/RLE.h:234-277 | rle_compress returns fresh header and data vectors written from the runs of the splitter, and for a field shorter than 2^15 they are well formed and expand to the field |
| RleCompress.CompressResult | source/Geometry/RLE.h:234-277 | what the two passes leave behind is the payload of the runs, and below 2^15 elements it is a well-formed encoding of the input |
| RleAppend.CloseFacts | source/Geometry/HermiteField.cpp:262-266 | finalize adds one header, at the field volume, with no flag, and keeps the others |
| RleAppend.AppendFirst | source/Geometry/RLE.h:187-192 | the first append opens one compressed run holding the element |
| RleAppend.AppendNewRun | source/Geometry/RLE.h:196-204 | an append that opens a new run keeps the encoding well formed and adds exactly the element to the field |
| RleAppend.AppendGrow | source/Geometry/RLE.h:196-207 | an append that lengthens the last run keeps the encoding well formed and adds exactly the element |
| RleAppend.AppendExtends | source/Geometry/RLE.h:185-209 | rle_append at offset n on a field of n elements gives a well-formed field of n + 1 elements: the old field followed by elem |
| RleAppend.AppendStep | source/Geometry/HermiteField.cpp:254-258 | one round of the sub-field loop extends the encoded prefix of s by s[k], while offsets fit 16 bits and the data vector is below 2^15 |
| RleAppend.RleField.constructor | source/Geometry/HermiteField.h:45-50 | a new field has no headers and no data |
| RleAppend.RleField.Append | source/Geometry/RLE.h:185-209 | rle_append changes the vectors as AppendTo; an element equal to the last of a compressed run adds nothing to either vector |
| RleAppend.RleField.Finalize | source/Geometry/HermiteField.cpp:262-266 | finalize appends the sentinel at the volume and leaves the data alone |
| RleAppend.RleField.AppendAll | source/Geometry/HermiteField.cpp:250-260 | for any s, the data vector never outgrows the field; appending every element of s in order and finalizing gives a well-formed encoding of s whenever |s| < 2^16 and the data vector stays below 2^15, which covers the 33 x 33 x 33 sub-fields the engine builds when their data stays below 2^15 |
| RleOps.ValueAt | source/Geometry/RLE.h:94 | element j of run i is the run's one stored element when compressed and its j-th stored element otherwise |
| RleOps.NextRun | source/Geometry/RLE.h:115 | the data of run i + 1 starts right after the data of run i |
| RleOps.Decompress | source/Geometry/RLE.h:279-301 | rle_decompress fills the output slice with the whole field |
| RleOps.FillRun | source/Geometry/RLE.h:288-293 | the compressed case writes the run's stored element up to the next header's offset |
| RleOps.CopyRun | source/Geometry/RLE.h:294-299 | the uncompressed case copies the run's stored elements up to the next header's offset |
| RleOps.FindRun | source/Geometry/RLE.h:214-225 | the binary search returns the header whose run holds offset, or the sentinel exactly when offset is the field length |
| RleOps.Find | source/Geometry/RLE.h:211-231 | rle_find returns a valid iterator standing at offset |
| RleOps.RleIterator.constructor | source/Geometry/RLE.h:92 | a new iterator stands at the start of the field |
| RleOps.RleIterator.PosBound | source/Geometry/RLE.h:85-178 | the iterator's position lies in [0, field length], and is below the length exactly when it is not on the sentinel |
| RleOps.RleIterator.Get | source/Geometry/RLE.h:94 | operator* is the field element at the iterator's position |
| RleOps.RleIterator.CanSkipSame | source/Geometry/RLE.h:138-146 | the can_skip elements from the current one on all equal it |
| RleOps.RleIterator.NextSeq | source/Geometry/RLE.h:114-118 | moving past the end of a run advances the header, the data by the run's width, and keeps the position |
| RleOps.RleIterator.SkipOne | source/Geometry/RLE.h:107-119 | skip_one moves one element forward |
| RleOps.RleIterator.Skip | source/Geometry/RLE.h:121-136 | skip(nskip) moves nskip elements forward |
| RleOps.RleIterator.Read | source/Geometry/RLE.h:148-177 | read fills out with the next out.Length elements of the field and moves past them |
| RleOps.RleIterator.ReadRun | source/Geometry/RLE.h:152-173 | one pass of read's outer loop copies elements of the current run until out is full or the run ends |
| RleOps.RleIterator.ReadSame | source/Geometry/RLE.h:156-161 | the compressed inner loop copies the run's one stored element |
| RleOps.RleIterator.ReadEach | source/Geometry/RLE.h:162-167 | the uncompressed inner loop copies the run's stored elements in order |
| RleRoundTrip.CompressDecompress | source/Geometry/HermiteField.cpp:244-271 | decompressing what rle_compress writes for a field shorter than 2^15 gives the field back |
| BitArrays.MaskBits | source/Core/BitArray.cpp:31-33 | the mask has bit k set exactly when bit_offset <= k < bit_offset + to_set, including the 0xFFFFFFFF case |
| BitArrays.OneBitUpdate | source/Core/BitArray.h:59-81 | or-ing 1 << b sets bit b only, and-ing its complement clears bit b only, and-ing it tests bit b |
| BitArrays.WordCount | source/Core/BitArray.h:52 | uint32_length is the ceiling of len / 32 |
| BitArrays.BitsOf | source/Core/BitArray.h:59-65 | the bit view of the words has exactly len bits |
| BitArrays.RangeOredBits | source/Core/BitArray.cpp:16-46 | or-ing the words of a range sets exactly the bits in [beg, end) and keeps every other bit |
| BitArrays.ApplyBits | source/Core/BitArray.cpp:67-98 | the word operators &=, \|= and ^= act on every bit position independently |
| BitArrays.Combine | source/Core/BitArray.cpp:67-98 | the first n words are combined with the other array's words and the rest are kept |
| BitArrays.CombineBits | source/Core/BitArray.cpp:67-98 | after a word-wise operation over n words every bit in them is the operation of the two bits, and later bits are kept |
| BitArrays.MinWords | source/Core/BitArray.cpp:69-71 | the loop bound is the smaller of the two uint32 lengths |
| BitArrays.SingleBitChange | source/Core/BitArray.h:67-81 | updating one bit of one word changes exactly that bit of the bit view |
| BitArrays.AddRow | source/Core/BitArray.cpp:48-55 | after one more row the set bits are those of the first i + 1 rows |
| BitArrays.BitArray.constructor | source/Core/BitArray.h:13-20 | BitArray(n) holds n zero bits in fresh zeroed words |
| BitArrays.BitArray.Uint32Length | source/Core/BitArray.h:52 | uint32_length() is the number of words, the ceiling of len / 32 |
| BitArrays.BitArray.TestBit | source/Core/BitArray.h:59-65 | test_bit(idx) is bit idx of the contents |
| BitArrays.BitArray.Set | source/Core/BitArray.cpp:4-8 | set() makes every bit true |
| BitArrays.BitArray.Clear | source/Core/BitArray.cpp:10-14 | clear() makes every bit false |
| BitArrays.BitArray.SetBit | source/Core/BitArray.h:67-73 | set_bit(idx) sets bit idx and changes nothing else |
| BitArrays.BitArray.ClearBit | source/Core/BitArray.h:75-81 | clear_bit(idx) clears bit idx and changes nothing else |
| BitArrays.BitArray.SetBitRange | source/Core/BitArray.cpp:16-46 | set_bit_range(beg, end) sets the bits in [beg, end) and keeps every other bit |
| BitArrays.BitArray.OrMask | source/Core/BitArray.cpp:34-43 | one m_data[offset++] \|= mask step sets bits [off, off + cnt) of one word |
| BitArrays.BitArray.SetBitRange2D | source/Core/BitArray.cpp:48-55 | set_bit_range_2d sets exactly the h rows of w bits starting at y * img_w + x, img_w apart |
| BitArrays.BitArray.SetRow | source/Core/BitArray.cpp:51-54 | one row of set_bit_range_2d |
| BitArrays.BitArray.CopyFrom | source/Core/BitArray.cpp:57-65 | copy_from gives this the other array's length, words and bits |
| BitArrays.BitArray.CombineWith | source/Core/BitArray.cpp:67-98 | the loop shared by the three operators combines the first min(uint32 lengths) words |
| BitArrays.BitArray.And | source/Core/BitArray.cpp:67-76 | &= ands every bit below both lengths and keeps the bits past the other array's words |
| BitArrays.BitArray.Or | source/Core/BitArray.cpp:78-87 | \|= ors every bit below both lengths and keeps the bits past the other array's words |
| BitArrays.BitArray.Xor | source/Core/BitArray.cpp:89-98 | ^= xors every bit below both lengths and keeps the bits past the other array's words |
| PathClean.ElementsShape | source/OS/IO.cpp:203-231 | every element is non-empty and free of '/' |
| PathClean.ReduceReachable | source/OS/IO.cpp:206-230 | reducing elements from a reachable stack keeps names proper and a rooted stack free of ".." |
| PathClean.JoinSnoc | source/OS/IO.cpp:224-226 | appending an element to a non-empty list adds one slash and the element |
| PathClean.RenderLonger | source/OS/IO.cpp:210-214 | a stack with names renders longer than its ".." part, which is where dotdot points |
| PathClean.CleanPath | source/OS/IO.cpp:185-236 | clean_path returns Clean(p), and a non-empty input never grows |
| PathClean.InvInit | source/OS/IO.cpp:194-201 | before the loop nothing is written and r, dst and dotdot skip a root slash |
| PathClean.SkipStep | source/OS/IO.cpp:204-207 | a slash or a "." element is read past without writing |
| PathClean.InvDone | source/OS/IO.cpp:232-235 | after the loop the written text is the cleaned path, "." when nothing was written |
| PathClean.DotDot | source/OS/IO.cpp:208-222 | the ".." branch pops a name, keeps ".." in a relative path with no names, or drops it at the root |
| PathClean.PopName | source/OS/IO.cpp:210-214 | backing dst up over the last name leaves the text of the stack without it |
| PathClean.BackUp | source/OS/IO.cpp:211-214 | the backward scan stops at the slash before the last name, or at dotdot |
| PathClean.PopShape | source/OS/IO.cpp:211-214 | the text of a stack ends with its last name after a slash, or right at dotdot |
| PathClean.RootStep | source/OS/IO.cpp:208-222 | ".." with no names in a rooted path changes nothing |
| PathClean.DotDotElement | source/OS/IO.cpp:208-209 | the element at r is ".." and the reduction continues with its Push |
| PathClean.WriteUp | source/OS/IO.cpp:216-221 | writes "/.." after earlier text or ".." at the start, and nothing else |
| PathClean.UpStep | source/OS/IO.cpp:215-221 | a kept ".." adds one to the stack's ups and moves dotdot to the end of the text |
| PathClean.CopyName | source/OS/IO.cpp:223-230 | a name element is appended to the text, after a slash unless nothing precedes it |
| PathClean.NameElement | source/OS/IO.cpp:223-229 | the element at r is a proper name, ends at a slash or the end, and dst leaves room for the slash |
| PathClean.WriteName | source/OS/IO.cpp:224-229 | writes the optional slash and the k characters of the name, leaving the unread input in place |
| PathClean.CopyChars | source/OS/IO.cpp:227-229 | the copy loop moves the name to dst and leaves the unread input in place |
| PathClean.NameStep | source/OS/IO.cpp:223-230 | after a name is copied the text renders the stack with it pushed |
| PathCleanFacts.ElementsSep | source/OS/IO.cpp:203-205 | a separating '/' splits the element list |
| PathCleanFacts.ElementsJoin | source/OS/IO.cpp:203-231 | splitting a slash-joined list of proper elements gives the list back |
| PathCleanFacts.JoinShape | source/OS/IO.cpp:224-226 | a joined text starts and ends with a non-slash and has no "//" |
| PathCleanFacts.RenderShape | source/OS/IO.cpp:185-236 | a reachable stack renders with single slashes, a leading '/' exactly when rooted, a trailing '/' only for "/", and splits back into its elements |
| PathCleanFacts.ReduceAppend | source/OS/IO.cpp:203-231 | reducing a list is reducing its halves in turn |
| PathCleanFacts.ReduceStack | source/OS/IO.cpp:203-231 | reducing the elements of a reachable stack rebuilds it |
| PathCleanFacts.CleanShape | source/OS/IO.cpp:185-236 | the cleaned path is non-empty, has no "//", ends in '/' only when it is "/", is rooted exactly when the input is, and is a reachable stack's text |
| PathCleanFacts.CleanNoDot | source/OS/IO.cpp:206-207 | no "." element survives cleaning except the result "." itself |
| PathCleanFacts.CleanUpsFirst | source/OS/IO.cpp:208-222 | ".." elements precede every name, and a rooted result has none |
| PathCleanFacts.CleanIdempotent | source/OS/IO.cpp:185-236 | cleaning a cleaned path changes nothing |
| PathCleanCases.CleanRelativeUps | tests/OS/TestIO.cpp:56 | "abc/def/../../.." cleans to ".." |
| PathCleanCases.CleanRootedUps | tests/OS/TestIO.cpp:57 | "/abc/def/../../.." cleans to "/" |
| PathCleanCases.CleanDotAndUp | tests/OS/TestIO.cpp:61 | "abc/./../def" cleans to "def" |
| Strings.Inserted | source/Core/String.cpp:204-220 | the text with t inserted at idx: the head, then t, then the tail |
| Strings.Removed | source/Core/String.cpp:227-238 | the text without [b, e): the head, then what followed e |
| Strings.InsertThenRemove | source/Core/String.cpp:204-238 | removing what was inserted gives the text back |
| Strings.InsertAtEnd | source/Core/String.cpp:222-225 | inserting at the end is appending |
| Strings.Str.constructor | source/Core/String.cpp:60-62 | the empty string, with capacity 0 and a terminator |
| Strings.Str.FromSlice | source/Core/String.cpp:72-80 | a copy of the slice, with capacity its length and a terminator |
| Strings.Str.NewSize | source/Core/String.cpp:6-10 | _new_size is max(2 * cap, requested) |
| Strings.Str.MemMove | source/Core/String.cpp:35 | memmove copies n characters from src over dst as if through a buffer and changes nothing else |
| Strings.Str.Write | source/Core/String.cpp:27 | memcpy puts s at position at and changes nothing else |
| Strings.Str.Reserve | source/Core/String.cpp:151-166 | reserve never lowers the capacity, raises it to n when below, keeps the text, and reallocates only when it grows |
| Strings.Str.EnsureCapacity | source/Core/String.cpp:12-16 | _ensure_capacity leaves room for n more characters, grown by _new_size only when short, and keeps the text |
| Strings.Str.Shrink | source/Core/String.cpp:168-183 | shrink makes the capacity equal to the length and keeps the text |
| Strings.Str.Clear | source/Core/String.cpp:144-149 | clear empties the text and keeps the capacity and buffer |
| Strings.Str.Resize | source/Core/String.cpp:185-202 | resize(n, elem) truncates to n characters, or pads with elem up to n |
| Strings.Str.ResizeUninit | source/Core/String.cpp:278-292 | resize(n) truncates to n characters, or keeps the text as a prefix of n characters |
| Strings.Str.Insert | source/Core/String.cpp:204-220 | insert(idx, s) of an outside slice gives Inserted, growing the capacity by _new_size when needed |
| Strings.Str.OpenGap | source/Core/String.cpp:214-217 | the tail moves right by \|s\| and s fills the gap |
| Strings.Str.Append | source/Core/String.cpp:222-225 | append(s) adds s at the end |
| Strings.Str.InsertChar | source/Core/String.cpp:266-276 | insert(idx, elem) puts one character at idx and shifts the tail right |
| Strings.Str.PutChar | source/Core/String.cpp:269-274 | the buffer work of inserting one character |
| Strings.Str.AppendChar | source/Core/String.cpp:259-264 | append(elem) adds one character at the end |
| Strings.Str.Remove | source/Core/String.cpp:227-238 | remove(begin, end) deletes [begin, end) and keeps the capacity |
| Strings.Str.CloseGap | source/Core/String.cpp:232-236 | the characters from end on move left to begin |
| Strings.Str.RemoveAt | source/Core/String.cpp:247-257 | remove(idx) deletes the character at idx and keeps the capacity |
| Strings.Str.InsertSub | source/Core/String.cpp:204-213 | inserting a piece of this very string, through the corrected SelfInsert, gives Inserted with the piece as it was before the call |
| Strings.Str.SelfInsert | source/Core/String.cpp:18-50 | the corrected _self_insert inserts the old piece [sidx, sidx + slen) at idx, for every placement of the piece |
| Strings.Str.CopyToEnd | source/Core/String.cpp:26-31 | at the end the piece is copied straight after the text |
| Strings.Str.ShiftAndCopy | source/Core/String.cpp:35-49 | the tail shift followed by the copy from the piece's new place |
| Strings.Str.CopyShifted | source/Core/String.cpp:40-48 | a piece at or after idx is copied from where the shift moved it |
| Strings.Str.CopySplit | source/Core/String.cpp:42-48 | a piece that starts before idx is copied in two halves, the first from where it was and the rest from where the shift moved it |
| Strings.Str.SelfInsertAsWritten | source/Core/String.cpp:18-50 | _self_insert as written is correct exactly when idx is the end, the piece starts at or after idx, or the piece reaches idx; otherwise its second memmove gets a negative length |
| Strings.Str.SelfInsertNegativeLength | source/Core/String.cpp:43-48 | "aabbcc".insert(4, sub(0, 2)) takes the failing path of the code as written |
| Heaps.Parent | source/Core/Heap.h:12 | (j-1)/2 with C's truncating division: 0 for the root, otherwise the slot whose children include j |
| Heaps.Swap | source/Core/Heap.h:15-35 | std::swap exchanges two slots, keeps the others and so keeps the multiset |
| Heaps.RootMin | source/Core/Heap.h:5-70 | the root of an ordered heap is no greater than any element |
| Heaps.UpStep | source/Core/Heap.h:11-17 | one swap of _up moves the single violation one level toward the root |
| Heaps.UpDone | source/Core/Heap.h:13-14 | when _up stops the whole heap is ordered |
| Heaps.LesserChild | source/Core/Heap.h:23-31 | _down picks the lesser child below n, preferring j2 on ties |
| Heaps.DownStep | source/Core/Heap.h:32-36 | one swap of _down moves the single violation one level down |
| Heaps.DownDone | source/Core/Heap.h:24-33 | when _down stops the prefix [0, n) is ordered |
| Heaps.PopStart | source/Core/Heap.h:63-64 | swapping the root with the last slot leaves the rest ordered except at the root |
| Heaps.PopEnd | source/Core/Heap.h:65-68 | after _down the last slot holds a minimum of the old heap and the rest is an ordered heap of the remaining elements |
| Heaps.Heap.constructor | source/Core/Heap.h:5-7 | a new heap is empty |
| Heaps.Heap.Up | source/Core/Heap.h:9-18 | _up restores the heap order and keeps the elements |
| Heaps.Heap.Down | source/Core/Heap.h:20-38 | _down(i, n) orders the prefix [0, n), keeps the elements and leaves slots from n on alone |
| Heaps.Heap.Push | source/Core/Heap.h:44-59 | push adds x to the elements and keeps the heap ordered |
| Heaps.Heap.Pop | source/Core/Heap.h:61-69 | pop removes and returns an element no greater than any other, and keeps the heap ordered |
| Heaps.HeapSort | tests/Core/TestHeap.cpp:6-24 | pushing a sequence and popping until empty yields it in ascending order, as a permutation |
| HashChains.Pattern | source/Core/HashMap.h:194 | compute_hash's signed int read as its 32-bit pattern |
| HashChains.TopOf | source/Core/HashMap.h:197-199 | the top-hash byte is the pattern's highest byte, or 1 when that is 0, so a stored top is never the empty mark 0 |
| HashChains.IndexOf | source/Core/HashMap.h:195 | hash & ((1 << B) - 1) is a bucket index below 2^B |
| HashChains.Bit | source/Core/HashMap.h:96 | hash & newbit, as 0 or 1 |
| HashChains.IndexSplit | source/Core/HashMap.h:80-96 | after doubling, a key of bucket i goes to bucket i or to bucket i + 2^B by that bit |
| HashChains.ChainMapKeys | source/Core/HashMap.h:201-219 | a key is held by a chain exactly when some full slot holds it |
| HashChains.ChainMapAt | source/Core/HashMap.h:206-213 | in a chain without repeats, each full slot's value is the one held for its key |
| HashChains.NotHeld | source/Core/HashMap.h:201-220 | if no full slot with the key's top byte holds the key, the chain does not hold it |
| HashChains.Put | source/Core/HashMap.h:402-408 | storing a new key in an empty slot adds exactly that key and one full slot |
| HashChains.Erase | source/Core/HashMap.h:318-321 | emptying a full slot drops exactly its key and one full slot |
| HashChains.TableAfterPut | source/Core/HashMap.h:345-410 | a table whose chain for key now holds (key, v) gives v for key and the old value for every other key |
| HashChains.TableAfterErase | source/Core/HashMap.h:309-322 | a table whose chain for key has lost it gives nothing for key and the old value for every other key |
| HashChains.TableStore | source/Core/HashMap.h:376-408 | storing into the chain of key's bucket keeps the table well formed and changes only key's value |
| HashChains.GrowTable | source/Core/HashMap.h:126-150 | the doubled table is well formed and every key has the value it had |
| HashChains.DealtMap | source/Core/HashMap.h:90-121 | each side of a split holds, without repeats, the part of the chain's map whose hash has that bit |
| HashChains.DealtCount | source/Core/HashMap.h:90-121 | every full slot goes to exactly one side |
| HashChains.TakeDone | source/Core/HashMap.h:90-123 | at the end of the chain each side is a well-formed chain for its new bucket holding its part |
| HashSplits.SplitChain | source/Core/HashMap.h:80-124 | _split_bucket deals chain i into the chains of buckets i and i + 2^B |
| HashSplits.Deal | source/Core/HashMap.h:91-121 | one slot of the chain goes to the side its hash bit names |
| HashSplits.Place | source/Core/HashMap.h:97-119 | a slot is written at the side's cursor, after linking a new overflow bucket when the current one is full |
| HashSplits.SplitAll | source/Core/HashMap.h:134-148 | the grow loop splits each old chain in turn |
| HashSplits.Doubled | source/Core/HashMap.h:126-150 | the table _grow builds has twice the buckets, the same count, and the same value for every key |
| HashMaps.HashMap.constructor | source/Core/HashMap.h:230-244 | HashMap(hint) is empty, and B is the least with hint <= 6.5 * 2^B (0 when hint <= 8) |
| HashMaps.HashMap.Find | source/Core/HashMap.h:201-219 | the chain scan finds the first full slot with the key's top byte that holds key, or reports that none does |
| HashMaps.HashMap.Lookup | source/Core/HashMap.h:187-221 | _lookup finds nothing exactly when the key is not held, and otherwise the slot holding it in its bucket's chain |
| HashMaps.HashMap.Get | source/Core/HashMap.h:272-284 | get returns the value held for key, or nothing |
| HashMaps.HashMap.GetOrDefault | source/Core/HashMap.h:302-307 | get_or_default returns the held value, or def for an absent key |
| HashMaps.HashMap.Remove | source/Core/HashMap.h:309-322 | remove makes key absent, leaves every other key alone, and decrements the count only if key was present |
| HashMaps.HashMap.Clear | source/Core/HashMap.h:324-343 | clear makes the count 0 and every key absent, keeping the number of buckets |
| HashMaps.HashMap.Scan | source/Core/HashMap.h:365-386 | insert's scan finds the slot holding key or, before it, the first empty slot |
| HashMaps.HashMap.Insert | source/Core/HashMap.h:345-410 | after insert(k, v) get(k) is v, every other key is unchanged, and the count grows only when k was absent |
| HashMaps.HashMap.Attempt | source/Core/HashMap.h:354-409 | one pass from the again label either stores the key or, at load 6.5 and at least 8 keys, doubles the table keeping every value |
| HashMaps.HashMap.Store | source/Core/HashMap.h:365-409 | one pass over a table: overwrite, grow when full, or store in the first free slot or a new overflow bucket |
| HashMaps.HashMap.Grow | source/Core/HashMap.h:126-150 | _grow adds one to B and keeps the count and every key's value |
| HashMaps.InsertGetRemove | tests/Core/TestHashMap.cpp:8-30 | a new map is empty, holds one key after insert, finds its value and misses another key, and remove empties it again |
| ByteIO.IntType.Size | source/Core/ByteIO.cpp:24-46 | sizeof(T) of the eight integer types is 1, 2, 4 or 8 |
| ByteIO.Le | source/Core/ByteIO.cpp:24-46 | the little-endian value of n bytes, below 256^n |
| ByteIO.Bytes | source/Core/ByteIO.cpp:136-143 | the bytes written for v: n of them, least significant first |
| ByteIO.AsType | source/Core/ByteIO.cpp:87-94 | the read value as type T: in T's range and congruent to the unsigned value modulo 256^sizeof(T) |
| ByteIO.LeBytes | source/Core/ByteIO.cpp:24-143 | reading the bytes written for v gives v modulo 256^n |
| ByteIO.BytesLe | source/Core/ByteIO.cpp:24-143 | writing the value read from n bytes gives the same bytes |
| ByteIO.ValueRoundTrip | source/Core/ByteIO.cpp:24-143 | a value of type T survives writing and reading back as T |
| ByteIO.BytesOfRead | source/Core/ByteIO.cpp:24-143 | the bytes of the value read from b are b |
| ByteIO.BytesInjective | source/Core/ByteIO.cpp:136-143 | two values of one type with the same bytes are equal |
| ByteIO.Error.constructor | source/Core/ByteIO.cpp:14 | a new error is clear |
| ByteIO.ByteReader.constructor | source/Core/ByteIO.h:26 | a reader over the given bytes |
| ByteIO.ByteReader.ReadInt | source/Core/ByteIO.cpp:10-51 | read_int returns 0 when the error is set, sets it and consumes nothing when fewer than sizeof(T) bytes remain, and otherwise consumes exactly the bytes of the returned value |
| ByteIO.ByteReader.Read | source/Core/ByteIO.cpp:98-109 | read fills out with the next bytes and consumes them, or sets the error and changes nothing when too few remain |
| ByteIO.ByteWriter.constructor | source/Core/ByteIO.h:33-34 | a new writer holds no bytes |
| ByteIO.ByteWriter.WriteInt | source/Core/ByteIO.cpp:136-143 | write_uint8 ... write_int64 append the sizeof(T) little-endian bytes of v |
| ByteIO.ByteWriter.Write | source/Core/ByteIO.cpp:148 | write appends the bytes |
| ByteIO.ByteWriter.WriteString | source/Core/ByteIO.cpp:147 | write_string appends one byte per character |
| ByteIO.WriteThenRead | source/Core/ByteIO.cpp:10-143 | an integer written by a fresh writer is read back unchanged, with the error clear and nothing left |
| TermboxCells.RuneOf | source/GUI/TermboxCell.h:34 | rune() is the low 21 bits |
| TermboxCells.AttrOf | source/GUI/TermboxCell.h:35 | attr() is bits 21-25, a value below 32 |
| TermboxCells.AlphaOf | source/GUI/TermboxCell.h:36 | the six alpha bits 26-31 that bg_a() divides by 63 |
| TermboxCells.MakeCell | source/GUI/TermboxCell.h:27-32 | the constructor keeps rune mod 2^21, attr mod 32 and alpha mod 64, each readable back, and the two colours |
| TermboxCells.FieldsOf | source/GUI/TermboxCell.h:12-16 | the three masks cover disjoint bits, so a word built from in-range fields reads each back |
| TermboxCells.Unpack | source/GUI/TermboxCell.h:12-16 | every word is the sum of its three fields in place |
| TermboxCells.SameIff | source/GUI/TermboxCell.h:39-46 | two cells are == exactly when rune, attributes, alpha and both colours agree, and != is its negation |
| TermboxCells.FullAttributes | source/GUI/TermboxCell.h:5-35 | a cell built with all five attribute bits reports them all and differs from the same cell without them |
| Global.Offset3d | source/Geometry/Global.h:12-15 | offset_3d of a point of the box lies in [0, volume) |
| Global.PlaneBound | source/Geometry/Global.h:12-25 | a point of a sx x sy plane has a row-major offset below sx*sy |
| Global.BoxBound | source/Geometry/Global.h:12-15 | a layer z below sz and an offset in a plane give an offset below the box's volume |
| Global.Offset3dInverse | source/Geometry/Global.h:12-15 | offset_3d is one-to-one on the box: the point is recovered from its offset |
| Global.Offset3dOnto | source/Geometry/Global.h:12-15 | every offset in [0, volume) is the offset of a point of the box |
| Global.CRem | source/Geometry/Global.h:19 | C's truncating %: the Euclidean remainder for non-negative operands, and below the divisor in magnitude |
| Global.CDiv | source/Geometry/Global.h:19 | C's truncating /, which with CRem reassembles the dividend |
| Global.Offset3dSlab | source/Geometry/Global.h:17-20 | for z >= 0, offset_3d_slab is offset_3d at layer z mod 2 of a two-layer box, so it stays below 2*x*y |
| Global.Offset2d | source/Geometry/Global.h:22-25 | offset_2d of a point of the rectangle lies in [0, x*y) |
| Global.Offset2dInverse | source/Geometry/Global.h:22-25 | the point is recovered from its offset_2d |
| Global.LodFactor | source/Geometry/Global.h:27-30 | lod_factor(lod) is 2^lod |
| Global.ShlIsPow2 | source/Geometry/Global.h:29 | shifting 1 left n times is 2^n |
| Global.OffsetForLod | source/Geometry/Global.h:32-38 | offset_for_lod(lod, largest) doubles once per level and returns 2^(largest - lod) |
| Global.LodScale | source/Geometry/Global.h:27-38 | offset_for_lod times lod_factor(lod) is lod_factor(largest) |
| Global.Rel22 | source/Geometry/Global.h:52-55 | each coordinate of rel22(n) is 0 or 1 |
| Global.Rel22Digits | source/Geometry/Global.h:50-55 | for n in [0, 8) the coordinates are n's binary digits |
| Global.Rel22Onto | source/Geometry/Global.h:50-55 | every corner of the 2x2x2 block is rel22 of its number |
| Positions.FloorDiv | source/Map/Position.cpp:12-13 | floor_div's quotient q satisfies b*q <= a < b*q + b |
| Positions.LowChunk | source/Map/Position.cpp:12-18 | the lower chunk on an axis is floor((v - 1) / CHUNK_SIZE) |
| Positions.HighChunk | source/Map/Position.cpp:13-21 | the upper chunk on an axis is floor(v / CHUNK_SIZE): the increment is never taken |
| Positions.AffectedChunks | source/Map/Position.cpp:9-24 | affected_chunks' ends, relative to basechunk, in closed form per axis |
| Positions.FloorDivMonotone | source/Map/Position.cpp:12-13 | floor division keeps the order of dividends |
| Positions.AffectedOrdered | source/Map/Position.cpp:9-24 | for vmin <= v <= vmax the chunk of v lies between the two ends, so vmin <= vmax gives min <= max |
| Positions.LowerFace | source/Map/Position.cpp:14-21 | the lower end is one below vmin's chunk exactly when vmin is on a chunk's lower face; the upper end is vmax's chunk |
| Rects.Rect.constructor | source/Math/Rect.h:14 | Rect(x, y, w, h) stores the four fields |
| Rects.Rect.FromVecs | source/Math/Rect.h:15-16 | Rect(base, size) stores base as x, y and size as w, h |
| Rects.Rect.SetX2 | source/Math/Rect.h:18-20 | after set_x2(v), x2() is v and x, y, h are unchanged |
| Rects.Rect.SetY2 | source/Math/Rect.h:19-21 | after set_y2(v), y2() is v and x, y, w are unchanged |
| Rects.Equal | source/Math/Rect.h:23-27 | == holds exactly when the four indexed components agree, and then x2 and y2 agree |
| Rects.NotEqual | source/Math/Rect.h:28 | != is the negation of == |
| Rects.IsPointInside | source/Math/Rect.h:30-37 | p is inside exactly when x <= p.x < x + w and y <= p.y < y + h; an empty rectangle holds no point |
| Fonts.FindSpec | source/GUI/Font.cpp:23-35 | the reference lookup finds nothing exactly when no entry is for r, and otherwise returns the index of an entry for r |
| Fonts.FindSkip | source/GUI/Font.cpp:27 | on a sorted table, entries below r can be skipped, as lower_bound does |
| Fonts.FindGlyph | source/GUI/Font.cpp:23-35 | find_glyph's binary search agrees with the reference lookup on a table sorted by code point |
| Fonts.FoundGlyphIsForCode | source/GUI/Font.cpp:23-35 | on the table fontgen writes, which is sorted, a found glyph was drawn for the code point asked for |
| Fonts.CheckMagic | source/GUI/Font.cpp:44-49 | fewer than four bytes or a wrong magic is an error; otherwise reading continues after the magic |
| Fonts.MagicRoundTrip | source/GUI/Font.cpp:44-49 | a file made of the magic and a body passes the check with the body left to read |
| Events.FirstOf | source/OOP/EventManager.cpp:54-75 | the position of the receiver's first handler, or the length when there is none |
| Events.QuickRemove | source/OOP/EventManager.cpp:72-84 | quick_remove drops one element: the list is one shorter and its multiset loses exactly v[i] |
| Events.Fired | source/OOP/EventManager.cpp:92-99 | fire makes at most one call per handler |
| Events.RegisteredSpec | source/OOP/EventManager.cpp:53-60 | registering keeps receivers distinct, replaces the receiver's entry instead of adding a second one, and keeps every other handler |
| Events.QuickRemoveDistinct | source/OOP/EventManager.cpp:72-84 | quick_remove keeps the receivers distinct |
| Events.UnregisteredSpec | source/OOP/EventManager.cpp:63-77 | a null receiver clears the list; any other loses its one handler and nothing else |
| Events.NoOtherHandler | source/OOP/EventManager.cpp:70-75 | with distinct receivers, the receiver's handler at i is the only one of its kind |
| Events.FiredSpec | source/OOP/EventManager.cpp:92-99 | a null receiver fires every handler, any other only its own (at most one when receivers are distinct), each with the event; nothing fires exactly when no handler passes |
| Events.NothingFiredAfterRemoval | source/OOP/EventManager.cpp:79-99 | after the receiver's handlers are gone, firing for it calls nothing |
| Events.EventManager.constructor | source/OOP/EventManager.h:43-46 | a new manager has no handler lists |
| Events.EventManager.RegisterHandler | source/OOP/EventManager.cpp:42-61 | the table grows to at least event_id + 1 lists, only event_id's list changes and it becomes the registered list |
| Events.EventManager.UnregisterHandler | source/OOP/EventManager.cpp:63-77 | only event_id's list changes, to the unregistered list |
| Events.EventManager.UnregisterHandlers | source/OOP/EventManager.cpp:79-90 | every list loses all the receiver's handlers and keeps every other |
| Events.EventManager.Fire | source/OOP/EventManager.cpp:92-99 | the calls made are those of the reference Fired on event_id's list |
| Events.RemoveFirst | source/OOP/EventManager.cpp:69-75 | the loop of unregister_handler leaves the unregistered list |
| Events.RemoveAll | source/OOP/EventManager.cpp:81-88 | the inner loop of unregister_handlers removes every handler of the receiver and keeps the multiplicity of every other |
| HermiteFields.DownOffset | source/Geometry/HermiteField.cpp:147-166 | the cell one lower on axis i lies offsets2[i] before p in the flat data |
| HermiteFields.NeighbourDone | source/Geometry/HermiteField.cpp:29-47 | in the z, y, x order of the passes a lower neighbour has already taken its final value when a cell is visited |
| HermiteFields.StepIsClosed | source/Geometry/HermiteField.cpp:29-59 | the step the loop takes on the field as it stands is the cell's final value |
| HermiteFields.StepKeeps | source/Geometry/HermiteField.cpp:29-59 | writing the step's value moves a part-done pass on by one cell and leaves every other cell as it was |
| HermiteFields.OffsetsDiffer | source/Geometry/HermiteField.h:22-23 | get() of two different points of the field are different cells |
| HermiteFields.PassRow | source/Geometry/HermiteField.cpp:31 | the innermost loop of a pass visits one row |
| HermiteFields.PassPlane | source/Geometry/HermiteField.cpp:30 | the middle loop of a pass visits one plane |
| HermiteFields.Finished | source/Geometry/HermiteField.cpp:29-59 | after a whole pass each cell of the box holds its final value and every cell outside it is unchanged |
| HermiteFields.Pass | source/Geometry/HermiteField.cpp:29-191 | the triple loop over the box placed at the offset: cells inside take their final value, every other cell is unchanged |
| HermiteFields.HermiteField.constructor | source/Geometry/HermiteField.cpp:17-19 | a field of the given size holds one cell per voxel |
| HermiteFields.HermiteField.Resize | source/Geometry/HermiteField.cpp:21-25 | resize sets the size and keeps the leading cells of the data, which takes the new volume |
| HermiteFields.ApplyUnion | source/Geometry/HermiteField.cpp:27-60 | apply_union: cells under the brush take the union value, every other cell is unchanged |
| HermiteFields.ApplyDifference | source/Geometry/HermiteField.cpp:62-129 | apply_difference: cells under the brush take the difference value of its two passes, every other cell is unchanged |
| HermiteFields.MaterialStep | source/Geometry/HermiteField.cpp:119-128 | the second pass of apply_difference clears the material under solid brush and changes nothing else |
| HermiteFields.ApplyPaint | source/Geometry/HermiteField.cpp:131-143 | apply_paint: cells under the brush take the paint value, every other cell is unchanged |
| HermiteFields.ReduceField | source/Geometry/HermiteField.cpp:145-178 | reduce_field rewrites every cell of fnew to its reduced value |
| HermiteFields.CubeDrawn | source/Geometry/HermiteField.cpp:185-203 | the drawing pass over a field of air leaves the cube |
| HermiteFields.CubeStep | source/Geometry/HermiteField.cpp:192-202 | one step of the drawing pass on a cell of air gives the cube's cell |
| HermiteFields.CreateHermiteCube | source/Geometry/HermiteField.cpp:180-204 | create_hermite_cube: the location is center - size/2 (truncating), the field is size + 2 a side, solid strictly inside, air on the boundary, with half-edge crossings on layers 1 and size + 1 |
| HermiteFacts.Unfold | source/Geometry/HermiteField.cpp:34-47 | a cell's final value is the step applied to its old value and its lower neighbours' final values |
| HermiteFacts.UnionStep | source/Geometry/HermiteField.cpp:34-58 | one union step: the material and edge i |
| HermiteFacts.UnionMaterial | source/Geometry/HermiteField.cpp:36-37 | union copies a solid brush material, otherwise keeps the field's, and never turns ground into air |
| HermiteFacts.UnionEdges | source/Geometry/HermiteField.cpp:39-58 | an edge on the brush's lower face or not crossed by the brush keeps its crossing; a crossed one takes the brush's crossing when the merged surface crosses it, else 0 |
| HermiteFacts.PaintStep | source/Geometry/HermiteField.cpp:138-141 | one paint step |
| HermiteFacts.PaintOnlyRecolours | source/Geometry/HermiteField.cpp:131-143 | paint leaves every edge alone and changes the material only where both brush and field are solid, to the brush's |
| HermiteFacts.DiffEdgesStep | source/Geometry/HermiteField.cpp:69-117 | one step of the edge pass of apply_difference keeps the material |
| HermiteFacts.DifferenceCarves | source/Geometry/HermiteField.cpp:62-129 | after difference a cell under solid brush is air, every other cell keeps its material, and an edge the brush does not cross keeps its crossing |
| HermiteFacts.AirBrushChangesNothing | source/Geometry/HermiteField.cpp:27-143 | with an all-air brush, union, difference and paint leave every cell as it was |
| HermiteFacts.ReduceStep | source/Geometry/HermiteField.cpp:152-176 | one reduce step: the material of fine cell 2p, and edge i |
| HermiteFacts.ReduceReads | source/Geometry/HermiteField.cpp:147-175 | the flat offsets read are the fine cells 2p - e_i and 2p - 2e_i, and the edge is chosen from them |
| HermiteFacts.ReduceHalves | source/Geometry/HermiteField.cpp:145-178 | reduce_field takes the material of cell 2p; the edge on axis i is 0 where p[i] is 0 or the surface does not cross; otherwise the crossing lands in the lower or upper half of the coarse edge by which fine edge it was on |
| HermiteFacts.CubeCrossingsOnSurface | source/Geometry/HermiteField.cpp:194-202 | in a cube of at least three voxels a side, an edge inside the other two axes carries the half edge exactly when its ends differ in being air |

## Left out

- Image and file work in the tools (PIL, cairo, argparse, writing the atlas and font files), the texture-coordinate conversion of `tools/common.py` (floating point), and the rest of `Font_FromFile` after the magic check (file reading and PNG decoding): I/O and foreign libraries.
- Floating-point code: `chunk_size`, `point_to_chunk`, `world_to_chunk` and the `Map::Position` constructor, `create_hermite_sphere`, `ByteReader::read_float`/`read_fp` and `ByteWriter::write_float`, the float division in `TermboxCell::bg_a`, and the float product `(uint32_t)(bg_alpha * 63)` in the `TermboxCell` constructor (TermboxCells.MakeCell takes that integer as given).
- The compressed reader and writer variants of ByteIO (LZ4): a foreign library.
- `HashMapIter`, `Vector` itself, `Math/Vec.h` and `Math/Utils.h`: these files are not part of this model. `Vector::quick_remove` is taken to move the last element into the freed slot and drop the last slot, and `floor_div` to be floor division.
- Object ownership: `EventHandler`'s `own_data` deletion and move semantics, and the single-`EventManager` check that calls `die`. Callbacks and receivers are integer addresses, and a call is recorded instead of made.
- Memory allocation: allocation failure is not modelled. C++ `int` overflow is not modelled either, except where a width is written out (runes, RLE offsets, bytes, cell bit fields).
- Python sizes divided with `/` are floats; the model keeps them as integers halved with floor. The fit tests compare integers against them, so only the floor matters.
- StableSort.Sort: stands in for Python's `list.sort` (Timsort) with a stable insertion sort. Both give the same order when the "sorts before" relation is a consistent one, which holds for the font generator's keys. AtlasSort.CmpNotTransitive shows the atlas comparator is not one on mixed images, so there the order Timsort produces may differ.
- AtlasSort.SortImages: the contract is stated against the insertion-sort order, for the reason given for StableSort.Sort.
- AtlasGen.CalculateAtlasDims: returns no size where the source never returns. With no images, or a single 0 x 0 image, the first guess is 0, every size passes and the shrink loop never ends. A negative area would make math.sqrt raise. AtlasGen.Shrink and FontGen.CalculateFontDims follow the same rule.
- AtlasGen.CommonPrefix: requires at least one image, as the source indexes `images[0]`.
- TexSize.ISqrt: takes int(math.sqrt(n)) as the exact floor root. math.sqrt rounds through a double, so above 2^52 the two can differ; for example n = (2^27+1)^2 - 1 gives 2^27+1. Total areas that large are not modelled.
- Global.OffsetForLod: requires lod <= largest; with a larger lod the source's loop only stops after the counter overflows.
- Global.Offset3dSlab: states the offset only for z >= 0; for negative z the truncating % gives a layer of -1, and only the formula is modelled.
- BitArrays.BitArray.constructor: a word is modelled as its 32 bits, a sequence of booleans, instead of a 32-bit integer. Bitwise operators act bit by bit on these.
- HermiteFields.HermiteField.constructor: new cells are air, and `resize` pads with air. The default value of `Vector<HermiteData>` cells lives in `Vector.h`, which is not part of this model.
- HermiteFields.ApplyUnion: requires the brush to be a different field from the target; the source does not exclude aliasing, but a field applied to itself is not modelled. The same holds for HermiteFields.ApplyDifference, HermiteFields.ApplyPaint and HermiteFields.ReduceField.
- Strings.Str.InsertSub: goes through the corrected SelfInsert, not `_self_insert` as written; the code as written is Strings.Str.SelfInsertAsWritten (see "## Findings").
- ByteIO.ByteWriter.WriteInt: appends the little-endian bytes of v. The source appends the host's own representation, so the model assumes a little-endian host. read_int assembles bytes with explicit shifts and does not depend on the host.
- ByteIO.ByteReader.ReadInt: the error's message text is not modelled.
- Fonts.FindGlyph: returns the glyph's index instead of a pointer to the glyph.
- Heaps.Heap.Push: elements are integers under `<`, instead of any type with `operator<`.
- HashMaps.HashMap.constructor: `compute_hash` is the function the map is made with, and keys are compared with `==`.
- RleAppend.RleField.AppendAll: states nothing about a field of 2^16 or more elements, where the 16-bit header offsets wrap, nor about one whose data vector reaches 2^15, where a data offset collides with the compressed flag.
- RleCompress.Compress: proves the round trip only for fields of fewer than 2^15 elements. The real limit is on the data vector (below 2^15) and on the offsets (below 2^16), not on the number of elements; the element bound is a simpler sufficient one. It covers every field the engine compresses: only the lod 1 and lod 2 fields, of 17 x 17 x 17 and 9 x 9 x 9 elements (`source/Map/Chunk.cpp:20-27`, `source/Map/Generator.cpp:94-102`). RleRoundTrip.CompressDecompress requires the same bound.

## Findings

| source | as written | input that shows it | evidently intended | confidence | as-written member | corrected member |
|---|---|---|---|---|---|---|
| tools/fontgen.py:98-111 | `check_glyphs_fit` wraps a glyph onto a new row when it passes the width, but never checks that the glyph fits in the width at all | a single 4 x 1 glyph and a 2 x 2 texture: the check passes, and the glyph is drawn 2 pixels past the right edge | every glyph is also at most as wide as the texture, so every placement lies inside it | high (not executed) | FontGen.WideGlyphSizedTooSmall | FontGen.CalculateFontDimsFixed |
| source/Core/String.cpp:43-48 | `_self_insert` copies the piece in two parts around the insertion point; when the whole piece lies before that point, the second `memmove` gets a negative length | "aabbcc".insert(4, sub(0, 2)): the piece ends before index 4, lhslen becomes 4 > 2 and the second length is -2 | a piece lying before the insertion point is not moved by the shift and is copied in one part, giving "aabbaacc" | high (not executed) | Strings.Str.SelfInsertNegativeLength | Strings.Str.SelfInsert |

The packed terminal cell's comment describes six attribute bits and five alpha bits. The masks in `source/GUI/TermboxCell.h:12-16` use five attribute bits and six alpha bits. The model follows the masks.
