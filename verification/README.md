# banzai's bzip2 encoder, modelled in Dafny

banzai is a bzip2 encoder. It cuts its input into blocks and passes each
block through five stages:

1. **RLE1.** Runs of 4 to 255 equal bytes become four literals and a count byte.
2. **BWT.** The block is sorted by the Burrows–Wheeler transform.
3. **MTF and RLE2.** The sorted bytes are named, move-to-front coded, and their zero runs are written as RUNA/RUNB digits.
4. **Huffman coding.** The result is coded with two to six tables. A selector picks one table for every segment of 50 symbols.
5. **Bitstream.** The bits are written to an MSB-first bit writer, inside bzip2's stream header, block headers, symbol map and footer. The stream carries a combined CRC.

The repository has two generations of most stages:
- `lib/` streams from a reader;
- `src/` encodes a buffer;
- the two Python scripts under `debug/` are the authors' reference coders for RLE1 and the BWT.

The model follows the repository's files:

| Dafny module (file) | source |
|---|---|
| `Rle1Reference` (rle1_reference.dfy) | debug/rle1.py: the RLE1 reference coder, its decoder, and the round trip |
| `RleSlice` (rle_slice.dfy) | src/rle.rs: `rle_one` on a slice, with its `BoundedBuffer` |
| `RleStream` (rle_stream.dfy) | lib/rle.rs: `rle_one` on a reader, with `InputStream` and its margin call |
| `BwtReference` (bwt_reference.dfy) | debug/bwt.py: the naive BWT by sorting the suffixes of the doubled line |
| `BwtBuckets` (bwt_buckets.dfy) | src/bwt.rs: the buckets, `tail_push`/`head_push`, and `bwt` up to where the source stops |
| `MtfSpec`, `MtfLib`, `MtfSrc` (mtf_*.dfy) | the move-to-front/RLE2 code and its decoder; `mtf_and_rle` of lib/mtf.rs and of src/mtf.rs |
| `FreqQueue`, `HuffmanTree`, `HuffmanBuild` | the frequency queue, the tree, and `build_table_from_freqs` of both huffman.rs files |
| `HuffmanSelect`, `HuffmanSelectors`, `HuffmanLengths`, `HuffmanCodes`, `HuffmanSymbols`, `HuffmanEncode` | `encode` of both huffman.rs files: initial tables, refinement, selector, length and symbol fields |
| `BitWriter` (out_stream.dfy) | src/out.rs: `OutputStream` |
| `StreamFormat` (stream_format.dfy) | the header, symbol-map and footer writers of lib/lib.rs and src/lib.rs, and the stream CRC |
| `BlockFrame`, `BzipStream` | one block's bits and a whole stream's bits, with readers that undo them |
| `EncodeSrc` (encode_src.dfy) | `encode` of src/lib.rs |
| `EncodeLib` (encode_lib.dfy) | `encode` of lib/lib.rs |

`Bytes` and `Seqs` (bytes.dfy, seqs.dfy) hold shared arithmetic and sequence lemmas.

**How the model is written**
- Code that updates state becomes classes with `modifies` frames:
  - the bit writer, the bounded buffer, the reader and the input stream;
  - the buckets, the frequency queue and the tree.
- Every loop of the source becomes a method with invariants.
- Each method is proved against a specification function:
  - `Rle1Spec` for RLE1;
  - `BlockCode` for MTF/RLE2;
  - `Complete` (Kraft's equality) for code lengths;
  - `BitsOf`/`BytesToBits` for the bit writer;
  - `FrameBits`/`StreamOf` for the stream.

**What is proved about those functions**
- RLE1 decodes back.
- The BWT output is a sorted permutation.
- The MTF code decodes back.
- The canonical codewords are prefix-free.
- A block's fields, and a whole stream, read back to what was written.

## Model

| member | source | states |
|---|---|---|
| Rle1Reference.Rle1 | debug/rle1.py:11-36 | the reference coder's loop returns `Rle1Spec(data)`, the piece-by-piece code of its input |
| Rle1Reference.ScanSpec | debug/rle1.py:11-36 | flushing the coder's state after any input gives `Rle1Spec`: the per-byte step and the piece coding agree |
| Rle1Reference.RoundTrip | debug/rle1.py:11-36 | decoding the RLE1 code of any input gives the input back |
| Rle1Reference.RepCode | debug/rle1.py:23-31 | a run of `n` equal bytes is coded as pieces of 255, then the remainder |
| Rle1Reference.ShortAndLongRuns | debug/rle1.py:16-34 | runs of 1 to 3 bytes are copied; runs of 4 to 255 become four literals and `len - 4` |
| Rle1Reference.SplitAt256 | debug/rle1.py:28-31 | a run of 256 is four literals, the count 251 and one more literal |
| Rle1Reference.AppendDistinct | debug/rle1.py:16-21 | the code splits where two different bytes meet |
| Rle1Reference.LengthMonotone | debug/rle1.py:11-36 | appending input never shortens the code |
| Rle1Reference.VectorFour | src/rle.rs:172-175 | four equal bytes code to four literals and 0 |
| Rle1Reference.VectorFull | src/rle.rs:177-180 | 255 equal bytes code to four literals and 251 |
| Rle1Reference.VectorOverFull | src/rle.rs:182-185 | 259 equal bytes code to a full piece, then four literals and 0 |
| Rle1Reference.VectorTwoPieces | src/rle.rs:187-190 | 500 equal bytes code to a full piece, then four literals and 241 |
| Rle1Reference.VectorThreeRuns | src/rle.rs:192-195 | three runs of four different bytes give three pieces of four |
| RleSlice.BoundedBuffer.constructor | src/rle.rs:11-16 | a buffer with the given bound and no bytes |
| RleSlice.BoundedBuffer.Push | src/rle.rs:19-23 | appends the byte and lowers the bound by one; the source asserts room |
| RleSlice.RleOne | src/rle.rs:27-156 | the output is `Rle1Spec` of the consumed prefix and fits `100000 * level - 1` bytes; fewer bytes are consumed only when the output is within one byte of full; some byte is consumed from non-empty input; input whose code fits is consumed whole |
| RleSlice.StoppedCode | src/rle.rs:27-156 | wherever the coder stops, its buffer is the reference code of the prefix it read, with the same bounds as `RleOne` |
| RleStream.Reader.Take | lib/rle.rs:43-56 | `fill_buf` then `consume`: the bytes returned and the rest are the old rest; empty exactly at the end of the data |
| RleStream.InputStream.Init | lib/rle.rs:43-56 | one chunk is appended to `raw`; the bytes held plus the reader's rest are unchanged; the reader is empty when nothing was added |
| RleStream.InputStream.MarginCall | lib/rle.rs:58-84 | reads until 256 bytes past `i` are held, or the input ends; returns 256, or the bytes left when the input ends sooner, and nothing is lost |
| RleStream.RleOne | lib/rle.rs:95-241 | the same code and bounds as `RleSlice.RleOne` over the held bytes followed by the reader's rest; the consumed prefix, the remainder and the reader's rest make up the whole input; the checksum is that of the consumed prefix; empty input gives the empty result |
| RleStream.Finish | lib/rle.rs:231-241 | where the streaming coder stops, it returns the reference code of the consumed bytes and loses nothing |
| RleStream.BoundStop | lib/rle.rs:124-129 | a stop with room for one byte, on the last held byte, consumes every held byte while the reader still holds a byte, so the remainder is `None` |
| BwtReference.Bwt | debug/bwt.py:5-27 | the output is the byte before each rotation in sorted rotation order, a permutation of the line; the pointer is the place of offset 0, or -1 for an empty line |
| BwtReference.Sort | debug/bwt.py:13 | the library sort returns a sorted permutation of its input |
| BwtReference.Walk | debug/bwt.py:15-23 | walking the sorted suffixes emits each offset below the line length once, in order, with the byte before it |
| BwtReference.RotationsSorted | debug/bwt.py:10-13 | the rotations are visited in non-decreasing order |
| BwtReference.EqualRotationsLargerFirst | debug/bwt.py:10-13 | of two equal rotations, the larger offset comes first |
| BwtReference.SameBytePointer | debug/bwt.py:17-21 | a line of one repeated byte puts the pointer last |
| BwtReference.PredPerm | debug/bwt.py:15-23 | the emitted bytes are a permutation of the line |
| BwtBuckets.Buckets.Build | src/bwt.rs:75-87 | fresh buckets over the data: every present byte listed in increasing order with its count, all pointers 0 |
| BwtBuckets.Buckets.Layout | src/bwt.rs:63-73 | counts every byte and lists the bytes present in increasing order |
| BwtBuckets.Buckets.Rebuild | src/bwt.rs:89-98 | (corrected) lays the buckets out afresh, sizing the pointers like the counts |
| BwtBuckets.Buckets.RebuildAsWritten | src/bwt.rs:89-98 | as written: the counts are right but the pointer list is left empty, so the buckets are not usable |
| BwtBuckets.Buckets.SetPtrsToBucketHeads | src/bwt.rs:47-53 | each present byte's pointer is the sum of the counts of the smaller present bytes; other pointers are unchanged |
| BwtBuckets.Buckets.SetPtrsToBucketTails | src/bwt.rs:55-61 | each present byte's pointer is the last slot of its bucket; other pointers are unchanged |
| BwtBuckets.TailPush | src/bwt.rs:102-106 | writes `i` at the bucket's pointer and moves the pointer left, stopping at 0; nothing else changes |
| BwtBuckets.HeadPush | src/bwt.rs:109-113 | writes `i` at the bucket's pointer and moves the pointer right; nothing else changes |
| BwtBuckets.SortUnstable | src/bwt.rs:72 | a non-decreasing permutation, strictly increasing when the input has no repeats |
| BwtBuckets.KindIsSuffixOrder | src/bwt.rs:154-166 | the S/L type of a position says whether its suffix is smaller than the next one |
| BwtBuckets.InsertLms | src/bwt.rs:148-168 | the positions pushed are exactly the leftmost-S positions, from the right; each pointer moves left once per push into its bucket; every changed slot holds a pushed position in its byte's bucket tail; every slot outside the tails is unchanged |
| BwtBuckets.Bwt | src/bwt.rs:120-177 | the early returns for blocks of length 0 and 1 and for over-long blocks, exactly; otherwise the doubled block is bucketed and its leftmost-S positions pushed, every non-zero slot of the suffix array being one of them |
| MtfSpec.NameRoundTrip | lib/mtf.rs:17-24 | a present byte's name is below the number of names and maps back to the byte |
| MtfSpec.NamesOrdered | lib/mtf.rs:17-24 | names follow byte order |
| MtfSpec.NamesContiguous | lib/mtf.rs:17-24 | every name below the number of names belongs to a present byte |
| MtfSpec.MoveToFrontPerm | lib/mtf.rs:85-100 | moving an entry to the front only reorders the recency list |
| MtfSpec.RunDigitsValue | lib/mtf.rs:46-65 | the RUNA/RUNB digits of a run of `z` zeros denote `z` in bijective base 2 |
| MtfSpec.DecodeEncode | lib/mtf.rs:69-113 | the move-to-front decoder undoes the code of any name sequence |
| MtfSpec.EncodeShape | lib/mtf.rs:106-113 | every symbol is below N + 2, EOB is last and only last, and the code is at most one symbol longer than the block |
| MtfSpec.BlockRoundTrip | lib/mtf.rs:14-121 | the code of a block has the shape of EncodeShape; decoding it and mapping names back gives the block when every byte is marked present |
| MtfSpec.CodeVector | lib/mtf.rs:69-113 | a small block of our own codes to the expected symbols: a move to the front, a run coded as RUNA, and EOB |
| MtfLib.ShiftBack | lib/mtf.rs:86-97 | the swap loop moves each entry back one place until the name is met and returns its index |
| MtfLib.EncodeNames | lib/mtf.rs:69-104 | the main loop produces the code of the block's names, less the run still pending, and counts every symbol |
| MtfLib.NameBytes | lib/mtf.rs:17-24 | each present byte gets its name in byte order, others 0 |
| MtfLib.MtfAndRle | lib/mtf.rs:14-121 | the output is `BlockCode` of the block, the symbol count is the number of names plus 2, and `freqs` counts every symbol of the output |
| MtfSrc.Shift | src/mtf.rs:66-80 | writes the name to the front, shifts the list back to it, and appends its index plus one, counted |
| MtfSrc.MtfAndRle | src/mtf.rs:10-98 | the same contract as `MtfLib.MtfAndRle` |
| FreqQueue.Add | lib/huffman.rs:147-158 | tying two subtrees adds their frequencies and goes one level deeper than the deeper one; the result ranks after both |
| FreqQueue.AddComm | lib/huffman.rs:147-158 | tying is symmetric |
| FreqQueue.FrequencyQueue.New | lib/huffman.rs:171-180 | a heap holding exactly the initial entries `freqs[s] / scaling + 1` of every symbol |
| FreqQueue.FrequencyQueue.Len | src/huffman.rs:223-225 | the number of queued entries |
| FreqQueue.FrequencyQueue.Insert | lib/huffman.rs:196-222 | the entry is sifted up; the entries are the old ones plus the new one, and a heap stays a heap |
| FreqQueue.FrequencyQueue.Extract | lib/huffman.rs:225-267 | (corrected) removes and returns the root; the rest is the old entries less the root; a heap stays a heap and the root ranks no later than any entry |
| FreqQueue.FrequencyQueue.ExtractAsWritten | src/huffman.rs:184-220 | as written: removes and returns the root, keeping the other entries, but descends into the larger child |
| FreqQueue.LargerChildBreaksHeap | src/huffman.rs:204-210 | the heap [1, 2, 3, 4] is no longer a heap after extracting into the larger child; the correct descent keeps it one |
| FreqQueue.ScalingSaturates | lib/huffman.rs:175-177 | once `scaling` exceeds every frequency, every symbol enters with frequency 1 and doubling `scaling` changes nothing |
| HuffmanTree.Tree.WithNLeaves | lib/huffman.rs:36-55 | the root and `n` leaves, none with children |
| HuffmanTree.Tree.Tie | lib/huffman.rs:60-74 | ties two nodes under the root when all `2n - 1` nodes exist, otherwise under a new node; returns its id |
| HuffmanTree.Tree.CodingLengths | lib/huffman.rs:78-102 | the lengths are the depths of the leaves below the root, at their symbols' places, and the longest is the deepest |
| HuffmanTree.Kraft | lib/huffman.rs:78-102 | Kraft's equality for a tree whose inner nodes have two children |
| HuffmanTree.FullTreeLengths | lib/huffman.rs:78-102 | the leaf depths of a tree with leaves 1..n form a complete code |
| HuffmanBuild.WeightsStart | lib/huffman.rs:171-179 | every entry of a new queue is a leaf of height 0 and weight at least 1, and at most 1 once every frequency is scaled to zero |
| HuffmanBuild.TieBound | lib/huffman.rs:147-158 | tying the two lightest entries gives a subtree whose height `h` and weight `w` have Fib(h + 2) <= w (Huffman's Fibonacci bound) |
| HuffmanBuild.TakenLightest | lib/huffman.rs:280-281 | the two entries taken out are distinct, were queued, the first weighs no more than the second, and everything queued afterwards weighs no less than the second or is the new tie |
| HuffmanBuild.WeightsTie | lib/huffman.rs:280-289 | a round that queues its tie keeps every queued subtree within the Fibonacci bound |
| HuffmanBuild.WeightsRoot | lib/huffman.rs:283-288 | the round that fills the root leaves a tree whose longest length `l` has Fib(l + 2) <= n when every symbol weighs 1 |
| HuffmanBuild.MaxDepthHeight | lib/huffman.rs:78-102 | the longest code length is at most the height of the tree |
| HuffmanBuild.FibPastMaxLen | lib/huffman.rs:293-296 | a longest length above 17 needs Fib(l + 2) > 258, more weight than 258 symbols of weight 1 have |
| HuffmanBuild.Round | lib/huffman.rs:280-289 | one round takes out the two lightest entries and ties them; it keeps the forest and the Fibonacci bound, and when it fills the root the tree holds every leaf once |
| HuffmanBuild.Attempt | lib/huffman.rs:276-292 | one attempt's lengths form a complete code, whichever extraction is used; with lib's extraction and every symbol of weight 1 the longest length `l` has Fib(l + 2) <= n |
| HuffmanBuild.BuildTable | lib/huffman.rs:271-298 | a table found is usable (complete, no length above 17); for up to 258 symbols a table is always found; the ghost `last` is a power of two, and a `None` result happens only at the first `scaling` that exceeds every frequency |
| HuffmanBuild.BuildTableAsWritten | src/huffman.rs:228-253 | as written: the one attempt with scaling 1 and larger-child extraction gives a complete code; the result is `None` exactly when its longest length exceeds 17 |
| HuffmanBuild.ScalingIgnored | src/huffman.rs:229-233 | the queue of src's retries, built with scaling 1, differs from lib's queue at the same `scaling` as soon as one frequency is at least 2 |
| HuffmanSelect.NumTables | lib/huffman.rs:318-326 | two to six tables, at most three for up to 258 symbols |
| HuffmanSelect.ScanStopsBy | lib/huffman.rs:342-351 | a scan that meets a stopping symbol ends there or earlier, never running off the table |
| HuffmanSelect.Scan | lib/huffman.rs:342-351 | the chunk ends at the first symbol whose summed frequency reaches the target, or at the last symbol; `None` when the scan would run off the frequency table |
| HuffmanSelect.NextChunk | lib/huffman.rs:339-362 | the chunk of one table: the scan towards an even share of what is left, less its last symbol on an odd internal table |
| HuffmanSelect.ChunkTable | lib/huffman.rs:364-373 | length 15 on the chunk, 0 elsewhere |
| HuffmanSelect.InitialTables | lib/huffman.rs:333-376 | the chunks are those `Layout` lays out table by table; they split the symbols into consecutive non-empty chunks, each table short exactly on its own chunk; `None` exactly when a scan runs off the table or a chunk takes more than is left |
| HuffmanSelect.TwoTablesLaidOut | lib/huffman.rs:333-376 | two tables are always laid out when the frequencies sum to the input size and EOB has frequency 1 |
| HuffmanSelect.SumCounts | lib/huffman.rs:335 | frequencies that count the symbols sum to how many symbols there are below the bound |
| HuffmanSelect.BlockLaidOut | lib/huffman.rs:333-376 | a block's symbol frequencies, ending in a single EOB, always lay out two tables |
| HuffmanSelect.CostBound | lib/huffman.rs:427-434 | a segment's cost stays far below `usize::MAX` |
| HuffmanSelect.BestTable | lib/huffman.rs:424-439 | the table picked is the first of the cheapest |
| HuffmanSelect.BestTableSrc | src/huffman.rs:348-366 | src's per-table sums pick the same first cheapest table |
| HuffmanSelect.Pass | lib/huffman.rs:412-454 | every segment picks its first cheapest table and credits its symbols to it; the picks become the selectors only in the final round |
| HuffmanSelect.Rebuild | lib/huffman.rs:456-459 | every table is rebuilt from its credited frequencies into a usable table; for up to 258 symbols this always succeeds |
| HuffmanSelect.Refine | src/huffman.rs:331-385 | four rounds, resetting the frequencies each time; the tables are usable and the selectors are the picks of the last round under the tables it started from; always succeeds for up to 258 symbols |
| HuffmanSelect.RefineAsWritten | lib/huffman.rs:399-460 | as written: zeroing the tables instead of the frequencies makes every selector 0; always succeeds for up to 258 symbols |
| HuffmanSelect.ZeroBest | lib/huffman.rs:403-409 | under all-zero tables the first cheapest table is table 0 |
| HuffmanSelectors.SelectorsRoundTrip | lib/huffman.rs:471-503 | the move-to-front unary selector bits decode back to the selectors |
| HuffmanSelectors.WriteNumTables | lib/huffman.rs:465 | the number of tables on 3 bits |
| HuffmanSelectors.WriteSelectorCount | lib/huffman.rs:467-469 | the number of selectors on 15 bits |
| HuffmanSelectors.WriteSelectorCountSrc | src/huffman.rs:389-392 | src's 7-bit high byte and 8-bit low byte give the same 15 bits |
| HuffmanSelectors.MakeIdxCodes | lib/huffman.rs:475-483 | recency index `i` gets the unary code of `i` |
| HuffmanSelectors.WriteSelectors | lib/huffman.rs:485-503 | every selector, move-to-front coded over the table numbers, is written in unary |
| HuffmanLengths.WriteDelta | lib/huffman.rs:519-540 | the delta steps from the last length to the next: `10` up, `11` down, then `0` |
| HuffmanLengths.WriteTable | lib/huffman.rs:509-545 | writes a table's lengths and returns its smallest and largest length |
| HuffmanLengths.TableRoundTrip | lib/huffman.rs:509-545 | the coded lengths decode back to the table |
| HuffmanCodes.Codewords | lib/huffman.rs:547-561 | every symbol gets its length and its canonical codeword |
| HuffmanCodes.CodeFits | lib/huffman.rs:547-561 | under a complete code every codeword fits its length |
| HuffmanCodes.PrefixFree | lib/huffman.rs:547-561 | no codeword begins another |
| HuffmanSymbols.WriteSymbols | lib/huffman.rs:564-573 | every symbol is written with its codeword under its segment's table |
| HuffmanSymbols.UsableRoundTrip | lib/huffman.rs:564-573 | under a usable table a codeword reads back as its symbol |
| HuffmanSymbols.SymbolsRoundTrip | lib/huffman.rs:564-573 | the symbol bits decode back to the symbols |
| HuffmanEncode.TablesRoundTrip | lib/huffman.rs:505-562 | all tables' coded lengths decode back to the tables |
| HuffmanEncode.BlockRoundTrip | lib/huffman.rs:462-573 | the whole Huffman stage decodes back to its selectors, tables and symbols |
| HuffmanEncode.WriteBlock | lib/huffman.rs:462-573 | every field of the Huffman stage, in order |
| HuffmanEncode.Encode | src/huffman.rs:263-488 | for up to 258 symbols it succeeds exactly when the initial tables can be laid out; when it succeeds, the number of tables is right; the tables are usable; the selectors are the last round's picks; and the bits written decode back to the stage |
| BitWriter.OutputStream.constructor | src/out.rs:14-20 | an empty writer |
| BitWriter.OutputStream.WriteBits | src/out.rs:31-55 | appends exactly the low `numBits` bits of `chunk`; the pending bit count advances mod 8 |
| BitWriter.OutputStream.WriteByte | src/out.rs:79-81 | appends the byte's 8 bits |
| BitWriter.OutputStream.WriteBitsU32 | src/out.rs:58-76 | (corrected) appends the low `numBits` bits of a `u32`, for every `numBits` up to 32 |
| BitWriter.OutputStream.WriteBitsU32AsWritten | src/out.rs:58-76 | as written: succeeds exactly when `numBits < 32`, and then appends those bits; otherwise nothing is written |
| BitWriter.OutputStream.WriteBytes | src/out.rs:84-104 | appends the bytes' bits, at a byte boundary or across it |
| BitWriter.OutputStream.Close | src/out.rs:22-28 | writes the pending bits as one zero-padded byte; the bytes written are all bits so far, padded |
| StreamFormat.WriteStreamHeader | lib/lib.rs:18-22 | writes `BZh` and the level digit |
| StreamFormat.StreamHeaderRoundTrip | lib/lib.rs:18-22 | the header reads back as its level |
| StreamFormat.WriteBlockHeader | lib/lib.rs:24-36 | writes the block magic, the CRC, a clear randomised bit and the pointer's low three bytes |
| StreamFormat.BlockHeaderRoundTrip | lib/lib.rs:24-36 | the header reads back as the CRC and the pointer mod 2^24 |
| StreamFormat.SymMapWords | lib/lib.rs:40-57 | the first-level word flags the used sectors, and the kept words are those sectors' flags |
| StreamFormat.WriteSymMap | lib/lib.rs:39-64 | writes the two-level symbol map; the source asserts that some byte is present |
| StreamFormat.SymMapRoundTrip | lib/lib.rs:39-64 | the map reads back as the 256 presence flags |
| StreamFormat.WriteStreamFooter | lib/lib.rs:66-70 | writes the footer magic and the stream CRC |
| StreamFormat.FooterRoundTrip | lib/lib.rs:66-70 | the footer reads back as its CRC |
| StreamFormat.MagicsDiffer | lib/lib.rs:29 | a reader can tell a block from the footer by the first byte |
| StreamFormat.RotateRoundTrip | lib/lib.rs:108 | the stream CRC's rotation loses no bit |
| StreamFormat.CombineRecover | lib/lib.rs:108 | a block CRC is recovered from the stream CRCs before and after it |
| StreamFormat.BlockCrcRecovered | src/lib.rs:97 | every block CRC is determined by the running stream CRCs |
| BlockFrame.WriteFront | src/lib.rs:99-102 | the block is sorted, its bytes marked, and the block header and symbol map written |
| BlockFrame.WriteBack | src/lib.rs:104-106 | the sorted block's MTF code and its Huffman stage, with the source's `mtf`/`huffman` pair; it always succeeds for a block of at most 197 byte values |
| BlockFrame.WriteFrame | src/lib.rs:92-106 | one block's frame: its bits are `FrameBits` of a frame coded from the block with the given CRC; it always succeeds when the sorted block holds at most 197 byte values |
| BlockFrame.FrameRoundTrip | src/lib.rs:99-106 | a frame reads back as its CRC, pointer, presence marks and Huffman stage |
| BlockFrame.FrameRecovers | src/lib.rs:92-106 | a frame's symbols give back the sorted bytes, a permutation of the RLE1 code, which decodes to the block |
| BlockFrame.FewSegments | src/huffman.rs:389-392 | a block's selectors fit the 15-bit count |
| BzipStream.FramesRoundTrip | src/lib.rs:89-109 | frames written one after another read back one after another, up to the footer |
| BzipStream.StreamRoundTrip | src/lib.rs:84-112 | a stream reads back as its level, every frame's contents and the combined CRC |
| BzipStream.Finish | src/lib.rs:111-112 | the footer carries the stream CRC of the frames and the output is the stream padded to a byte |
| EncodeSrc.Block | src/lib.rs:90-108 | one pass of the loop codes the next block of the rest; every block but the last fills its RLE1 buffer to within one byte |
| EncodeSrc.Step | src/lib.rs:89-109 | one pass keeps the loop's account: the frames cover the consumed input, are coded and carry the running CRC |
| EncodeSrc.Encode | src/lib.rs:75-115 | when it succeeds, the frames cover the whole input in order, each coded from its block with its checksum; the output is their stream padded to a byte |
| EncodeLib.Cut | lib/lib.rs:102-105 | the streaming `rle_one` codes the next block of the bytes left over plus the reader; it codes nothing only when nothing is left |
| EncodeLib.AccountSnoc | lib/lib.rs:107-119 | one more frame keeps the loop's account: the frames and the rest are the input, with the CRC and the bits advanced |
| EncodeLib.Pass | lib/lib.rs:101-126 | one pass cuts a block and, if it codes anything, writes its frame; the account moves past it and the bytes left shrink |
| EncodeLib.LoopAsWritten | lib/lib.rs:100-126 | the loop as written: on exit the frames cover the input up to what the reader still holds |
| EncodeLib.EncodeAsWritten | lib/lib.rs:84-132 | as written: the frames cover the first `consumed` bytes; the reader keeps the rest; the output is their stream |
| EncodeLib.Loop | lib/lib.rs:100-126 | (corrected) the loop ends only on a pass that codes nothing; the frames then cover the whole input |
| EncodeLib.Encode | lib/lib.rs:84-132 | (corrected) the frames cover the whole input, the reader is left empty, and the output is their stream padded to a byte |

## Left out

- BlockFrame.WriteFront: sorts with `BwtReference.Bwt` (the transform of debug/bwt.py), not with src/bwt.rs. Its contract is stated on that transform.
  - `bwt` in src/bwt.rs stops at `unimplemented!()` after the leftmost-S scan and returns a tuple.
  - src/lib.rs:101-104 reads `.ptr`, `.bwt` and `.has_byte` from the result.
  - lib/bwt.rs is not part of this model.
- SA-IS in src/bwt.rs past the leftmost-S scan (the induced sorts): the source does not contain it (`unimplemented!()`).
- The CRC32 of a block (`crc32::checksum`) is a function parameter `checksum`. crc32.rs is not part of this model.
- `BufRead::fill_buf`/`consume` are stood in for by `RleStream.Reader`, which hands out fixed-size chunks of a byte sequence. I/O errors are not modelled.
- The `BufWriter` behind `OutputStream` is the sequence `written`; flushing is not modelled.
- Panics in the source are preconditions in the model:
  - `write_bits` shifting a `u8` by 8 (`strandBits + numBits > 0`);
  - the `write_sym_map` assertion that some byte is present;
  - `0..=2 => panic!` in huffman `encode` (`numSyms > 2`);
  - `sigma[sigma.len() - 1]` on empty data in the bucket layout of src/bwt.rs:84 and :96 (`|data| > 0`);
  - the asserts on `level`;
  - `extract` from an empty queue;
  - `push` on a full `BoundedBuffer`.
- Where a panic depends on data computed inside a loop, the model returns `None` or `ok == false` instead:
  - the initial chunk scan running off the frequency table;
  - the `usize` underflow `freq_remaining -= freq_acc`;
  - an attempt that loops for ever.
- HuffmanBuild.BuildTable: `None` is excluded only for alphabets of up to 258 symbols, the most a block has; for larger alphabets (which the source never builds) the model stops where the source would keep doubling `scaling`.
- HuffmanEncode.Encode: `ok` is shown only for blocks of at most 197 byte values (two tables, `HuffmanSelect.BlockLaidOut`). With three tables the initial chunk scan of `HuffmanSelect.InitialTables` can run off the frequency table when the earlier chunks take every symbol before the last table is reached; the source's unchecked index then panics. For such blocks the model states exactly when `ok` holds (`HuffmanSelect.InitialOk`) but does not show that it does.
- EncodeSrc.Encode and EncodeLib.Encode: `ok` is not stated in terms of the input. A block's byte values include the run lengths of its RLE1 code, so the 197-value bound of `BlockFrame.WriteFrame` is not carried up to the stream.
- HuffmanSelect.Refine: the final tables are not tied to the last round's frequencies, because `Attempt` is specified by completeness of its code only.
- HuffmanEncode.Encode: both forms (`src` true or false) use the corrected members:
  - `HuffmanSelect.Refine`, which resets the frequencies every round;
  - `HuffmanBuild.BuildTable`, which rescales;
  - `FreqQueue.FrequencyQueue.Extract`, which keeps the heap.
  
  Neither form uses the as-written `RefineAsWritten`, `BuildTableAsWritten` or `ExtractAsWritten` (see "## Findings"). `src` selects only src's cost sums and src's selector-count split.
- EncodeSrc.Encode and EncodeLib.Encode: `ok` is false only where a block's initial Huffman tables cannot be laid out, which takes more than 197 byte values in the block. The output is the stream of the corrected encoder.
- HuffmanEncode.Encode: requires fewer than 2^15 segments; `BlockFrame.FewSegments` shows that every block meets this.
- The Huffman table of a `u8` length is a `nat`; lengths are below 32 wherever they are written, so no truncation arises.
- `usize` and `u32` overflow of the counters and of `consumed` is not modelled; the bounds of a block keep them small.
- `encode_file` (lib/lib.rs:141-153), the command-line front ends (src/main.rs, crates/bnz) and the fuzz targets are not part of this model: they are file and argument handling.
- MtfSpec.CodeVector: the smoke test of lib/mtf.rs:139-157 (110 bytes, 65 symbols) is not proved; a 4-byte block stands in, because unfolding the code over the test's 40-name recency list is beyond what the verifier evaluates in reasonable time.
- BwtReference.Bwt: debug/bwt.py reads its line as a Python `str` and sorts code points; the model transforms bytes, as the Rust coder does, so the two agree only for lines of one-byte characters.
- The debug printing of the Huffman tree (`str_node`, `print`) and the argument and file handling of the Python scripts (`input`, `print`) are left out; the transform their `main` functions compute is modelled.
- The read-side functions (`ReadFrame`, `ReadStream`, `Decode`, …) are written for the round-trip lemmas; the repository has no decoder.

## Findings

| source | as written | input that shows it | evidently intended | confidence | as-written member | corrected member |
|---|---|---|---|---|---|---|
| src/out.rs:65 | `bptr = 3 - num_full_bytes` on `usize` | `num_bits == 32`: `3 - 4` underflows | all 32 bits of the word written | not executed | BitWriter.OutputStream.WriteBitsU32AsWritten | BitWriter.OutputStream.WriteBitsU32 |
| src/huffman.rs:205 | the sift-down follows the child of larger priority | the heap [1, 2, 3, 4]: after extracting 1 the queue is [3, 2, 4], and 3 is extracted before 2 | descend into the smaller child, keeping the heap | not executed | FreqQueue.FrequencyQueue.ExtractAsWritten, FreqQueue.LargerChildBreaksHeap | FreqQueue.FrequencyQueue.Extract |
| src/huffman.rs:233 | every retry builds its queue with scaling 1 | any frequency list whose first attempt has a length above 17: each retry repeats it, for ever | retry with the frequencies divided by `scaling` | not executed | HuffmanBuild.BuildTableAsWritten, HuffmanBuild.ScalingIgnored | HuffmanBuild.BuildTable |
| lib/huffman.rs:403-409 | from the second round on the tables' lengths are zeroed, not the table frequencies | any block: every segment then costs 0 under every table and picks table 0 | reset the credited frequencies before each round | not executed | HuffmanSelect.RefineAsWritten, HuffmanSelect.ZeroBest | HuffmanSelect.Refine |
| src/bwt.rs:94 | `self.sizes.resize` a second time, leaving `bptrs` empty | any rebuild: the next `set_ptrs_to_bucket_*` indexes an empty vector | `self.bptrs.resize(max_sigma_size, 0)` | not executed | BwtBuckets.Buckets.RebuildAsWritten | BwtBuckets.Buckets.Rebuild |
| lib/lib.rs:122-125 | the loop stops when `rle_one` hands back no remainder, taken as the end of the input | a block that stops with room for one byte on the last byte held, while the reader has more (lib/rle.rs:124-129, 231) | stop only when a pass consumes nothing | not executed | EncodeLib.EncodeAsWritten, EncodeLib.LoopAsWritten, RleStream.BoundStop | EncodeLib.Encode, EncodeLib.Loop |
