# webstore codecs: DEFLATE, the ZIP name index, and padded Z85

This project models the two codecs that the webstore relies on and the name search of its ZIP reader,
and proves what they are for.

**DEFLATE and zlib** (`src/miniz.c`, RFC 1950 and RFC 1951). `InflateSpec` is a decoder written from the
format alone, on bit strings. Everything else is measured against it. Its tables and codes are pinned by the
laws that RFC 1951 gives for them, by its example of a code, and by a whole stream worked through
(`FormatExamples`).

- The compressor is modelled from `tdefl_compress` down to `TDEFL_PUT_BITS`: both parsers, both match
  finders, the token buffer with its flag bytes, the radix sort, the in-place Huffman construction, the
  length limiter, the dynamic header with its run-length code, both emitters, the stored fallback and the
  static retry, all kinds of flush, and the delivery of the bytes into buffers of any size. What a caller
  gets after any sequence of calls decodes to what went in; what follows a full flush decodes by itself. It
  really compresses: every position since the last full flush is in the hash chains, the search gives back the
  longest of the latest ones that hash alike, what the parser does with it is stated step by step, and the
  whole result fits the bound of `mz_compressBound`.
- The decompressor is modelled from `mz_uncompress` down to `TINFL_HUFF_BITBUF_FILL`, as the state machine
  that can be suspended at every read and every write. `InflateReads` defines what it takes a stream for,
  whatever the stream is, and the machine is proved to do exactly that for every chunking: what it puts out,
  when it is done, and when it refuses. `FormatReading.Exactly` compares that reading with the format's: they
  differ where the code takes a liberty (`InflateReads.Liberty`), and nowhere else.
- `Uncompress.SquashRestore` joins the two.

**The ZIP name index** (`src/miniz.c`): the heap sort of the index array, the binary search over it, and
the linear scan that it stands in for.

**Padded Z85** (`src/z85.c`, ZeroMQ RFC 32): division by a reciprocal, the two tables, the padding, the
size bounds, and the server's validator (`src/webstore_node.c`).

Code that works step by step is a method over arrays and class fields, proved against a function; lemmas
about the function say what it means. `Word16`, `Byte` and `Wrap32` write the source's integer widths out.
The settings a program is built with are the fields of `Settings.Platform`, so each theorem holds for every
choice of variants.

Facts worth knowing that the proofs brought up:

- A dynamic block always fits the output buffer (`FlushBlock.DynamicFits`), so the static retry of
  `tdefl_flush_block`, which the source calls extremely unlikely if not impossible, is never needed
  after a dynamic block. The proof goes through Huffman's theorem and
  a bound on what the limiter can cost: at most 1/270 of a bit for each symbol of the text and each symbol
  of the alphabet.
- `mz_deflateBound`, of which the source says that a true bound is tricky to compute, is one
  (`Compressor.CompressMem`), unless only fixed codes are asked for, which may need 114 bytes for 100. It comes
  down to this: a dynamic code never costs more than 8.69 bits a symbol, even after the limiter
  (`FlatCost.FlatCode`), no match costs more than its bytes would, and a block that goes out by itself stands
  for 16000 bytes at least.
- A position whose number is a multiple of 65536 ends the hash chain that it stands in, since 0 is the end's
  mark: `ChainSearch.InReach` leaves out such positions and those behind them.
- `mz_uncompress` accepts some streams that the format refuses. `Uncompress.Uncompress` says which: those with
  a window above 32768 bytes, which is not looked at when the output goes straight into the caller's buffer
  (`Liberties.WindowLiberty`: to be told by the first byte); those with the unused symbols 286, 287, 30 and 31,
  which are matches of length 0 and of distance 0 (the latter puts out what the buffer held before); and those
  that read from a gap of an incomplete code, which gives symbol 0. `Liberties` has a stream for the first two,
  and a match for the third. Behind such a gap the look-ahead may be left a few bytes too long, so that the
  count of bytes consumed is exact only for streams without one.

## Model

| member | source | states |
|---|---|---|
| RadixSort.RadixSortSyms | src/miniz.c:732-763 | The result is sorted by the whole 16-bit key and stable, whether or not the pass over the high byte is skipped. |
| MinRedundancy.CalculateMinimumRedundancy | src/miniz.c:766-819 | For sorted positive weights below 2^16 in total, the three in-place passes leave code lengths that do not increase along the array, have Kraft sum exactly one and at most 32 bits, are no dearer than any prefix code's, and are long only for rare symbols. |
| MergeTree.DepthBound | src/miniz.c:776-797 | With a total weight below 2^16, no internal node of a tree joined greedily is deeper than 21, which keeps the table of length counts in range. |
| MergeTree.LeafWeight | src/miniz.c:766-819 | A symbol with a code of l bits weighs at most the whole divided by the (l-1)st Fibonacci number. |
| CodeSizeLimit.EnforceMaxCodeSize | src/miniz.c:826-848 | From the counts of a full code with at most 2^limit words: the same number of words of at most `limit` bits, no count negative, Kraft sum exactly one; counts below the lowest split class are untouched, and the lengthening in all is at most twice the number of words. |
| CodeSizeLimit.SplitOne | src/miniz.c:836-847 | A round always finds a code to split, keeps the number of codes, and takes one unit off the Kraft sum. |
| LimitCost.LimitedCost | src/miniz.c:826-848 | Limiting the lengths to 15 bits costs at most n/270 of a bit for each symbol of the text, n being the number of codes. |
| FlatCost.FlatCode | src/miniz.c:826-901 | Also when limited to 15 bits, a code for 286 symbols at most costs no more than 8.69 bits for each symbol of the text. |
| HuffTable.Table.Optimize | src/miniz.c:850-901 | A symbol gets a code exactly when its count is not zero; the code is complete unless at most one symbol is used; the codes stored are the canonical ones, reversed for sending; with the limit 15 no prefix code is much shorter, and for 286 symbols at most a symbol of the text costs 8.69 bits on average at most. |
| HuffTable.CloseToCheapest | src/miniz.c:850-901 | The lengths that the symbols are given in the order of the sort are nearly as cheap as those of any prefix code for the alphabet. |
| HuffTable.ReverseCode | src/miniz.c:896-899 | Sending the reversed code least significant bit first sends the code most significant bit first. |
| Canonical.PrefixFree | src/miniz.c:887-900 | With a Kraft sum of at most one, no canonical code is a prefix of another. |
| Canonical.DecodeCode | src/miniz.c:887-900 | The symbol at the front of a stream that starts with a symbol's code is that symbol. |
| Canonical.DecodeTotal | src/miniz.c:887-900 | A complete code decodes every stream of 15 bits or more. |
| FormatExamples.CanonicalExample | src/miniz.c:887-900 | For the lengths 3, 3, 3, 3, 3, 2, 4, 4 of section 3.2.2 of RFC 1951 the codes are those given there. |
| CodeLengthRle.PackCodeSizes | src/miniz.c:921-965 | The operations are those of the runs: zeros by the longest operation that fits, another length once and then by repeats of three to six, and what is too short for one as it is; unpacking them gives the sizes back; they are no longer than the sizes; the counts are the operations' counts. |
| DynamicHeader.DecodeHeader | src/miniz.c:1031-1053 | The decoder reads the two alphabets' lengths back from the header that is sent. |
| BlockStart.StartDynamicBlock | src/miniz.c:969-1054 | The header sent is a valid one for lengths that give every token and the end of the block a code; none of the three tables has an entry at its end that could be left out, and the lengths go out run by run; header and body together stay within a fixed number of bits, whatever the token buffer holds, and within 8.7 bits for each byte that the tokens stand for, when each match is worth its bits. |
| BlockStart.StartStaticBlock | src/miniz.c:1056-1077 | The fixed lengths of section 3.2.6 of RFC 1951 and their codes are in place. |
| FixedCode.FixedComplete | src/miniz.c:1058-1074 | Both fixed codes are complete. |
| FixedCode.FixedLitCode | src/miniz.c:1058-1074 | The codes of literals and lengths are the four ranges of section 3.2.6 of RFC 1951. |
| FixedCode.FixedDistCode | src/miniz.c:1072-1074 | A fixed distance code is the symbol in five bits. |
| BitWriter.Writer.PutBits | src/miniz.c:903-919 | The bits sent grow by exactly the field; bytes already put out stay; what does not fit the buffer is dropped, and only that. |
| BitWriter.Writer.Rewind | src/miniz.c:1267-1269 | Going back to a saved position restores the state of that position. |
| BitWriter.SameOutput | src/miniz.c:1081-1220 | Two writers with room that were sent the same bits hold the same bytes and the same residual bits. |
| Tokens.LengthTables | src/miniz.c:665-684 | For every match length the symbol and the extra bits of the tables add up to the length under the base table of the decoder; symbol 285 stands for 258, and 258 for no other. |
| Tokens.LengthLaw | src/miniz.c:2383-2384 | The decoder's table starts at 3, each symbol up to 284 starts where the one before ends, every fourth has an extra bit more, and 285 is 258 without any. |
| Tokens.DistanceTables | src/miniz.c:686-726 | The same for every distance. |
| Tokens.DistanceLaw | src/miniz.c:2385-2386 | The decoder's table starts at 1, each symbol starts where the one before ends, every second one from symbol 4 on has an extra bit more, and the last ends at 32768. |
| InflateSpec.SwizzleLaw | src/miniz.c:2387 | The order of the code lengths is 16, 17, 18, 0, 8, and then from the middle outwards. |
| LzCodes.CodeBuffer.RecordLiteral | src/miniz.c:1668-1679 | The token buffer grows by the literal, and the counts with it. |
| LzCodes.CodeBuffer.RecordMatch | src/miniz.c:1681-1709 | The token buffer grows by the match, and both counts with it. |
| LzCodes.CodeBuffer.Seal | src/miniz.c:1247-1248 | After the fix-up the buffer holds exactly the layout of the tokens, whatever stale bits the flag byte held. |
| LzCodes.ReadLayout | src/miniz.c:1180-1213 | Reading the layout flag by flag gives the tokens back. |
| LzCodes.LayoutCost | src/miniz.c:1286-1292 | The static cost of the tokens is at most 31/25 of the bits that they take in the buffer. |
| Emitter.CompressLzCodes | src/miniz.c:1175-1220 | The bits sent grow by the codes of all tokens and the end of the block; it reports success exactly when they fit. |
| Emitter.CompressLzCodesFast | src/miniz.c:1081-1173 | The same for the emitter with the 64-bit register, which never holds more than 64 bits; when it fails it has moved nothing. |
| Emitter.EmittersAgree | src/miniz.c:1081-1220 | From the same start and the same token buffer both emitters report the same, and on success leave the same bytes and the same residual bits. |
| BlockSize.BodyFits | src/miniz.c:1223-1230 | The body of a dynamic block has at most 674960 bits, whatever the token buffer holds. |
| BlockSize.BodyShort | src/miniz.c:1223-1230 | It has at most 8.7 bits for each byte that the tokens stand for, and 8.7 more, when each match is worth its bits. |
| FlushBlock.StaticFits | src/miniz.c:1286-1292 | A static block stays far below the end of the output buffer, so the result of the retry may be ignored. |
| FlushBlock.DynamicFits | src/miniz.c:1271-1292 | So does a dynamic block. |
| BlockRoundTrip.DynamicBlockDecodes | src/miniz.c:2486-2689 | A dynamic block decodes to what its tokens stand for. |
| BlockRoundTrip.StaticBlockDecodes | src/miniz.c:2473-2485 | So does a static block. |
| BlockRoundTrip.StoredBlockDecodes | src/miniz.c:2429-2467 | A stored block decodes to its data. |
| FlushBlock.FlushMeans | src/miniz.c:1232-1366 | What a flush adds, of whatever kind, takes a decoder past the data of its tokens; the last one ends the stream with them. |
| FlushBlock.Output.SendBlock | src/miniz.c:1256-1292 | Which way is taken (compressed, stored after going back, static retry) is told by what the compressed block would take; the bits are those of a possible block for the tokens, and they fit. |
| FlushBlock.Output.FlushBlock | src/miniz.c:1232-1366 | The stream grows by header, block and the end of the flush, the block being the one that the sizes ask for; no byte is lost, and the bytes put out with the bits carried over are the whole stream; token buffer and counts start anew. |
| FlushBlock.ChoiceCheap | src/miniz.c:1253-1292 | The block chosen takes 8.8 bits for each byte of its data and a constant at most, with fixed codes only 9.1. |
| FlushBlock.FlushCheap | src/miniz.c:1232-1366 | So does the whole flush, with header, padding and checksum; one of 16000 bytes or more needs no constant. |
| Window.PutByte | src/miniz.c:1733-1734 | Writing a byte and its mirror keeps the dictionary in step with the last 32768 bytes of the source. |
| Window.WinAt | src/miniz.c:1733-1734 | Up to 258 bytes from any position can be read without wrapping. |
| MatchFinder.FindMatch | src/miniz.c:1438-1480 | The byte variant computes the search function, for chains of any contents; it ends by the number of probes. |
| MatchFinder.FindMatchWords | src/miniz.c:1385-1436 | The word variant computes the same function. |
| MatchFinder.FindSound | src/miniz.c:1385-1480 | What the search gives back is what it was given, or a longer match within both bounds that really repeats at its distance. |
| MatchFinder.FindLongest | src/miniz.c:1385-1480 | It is the first of the longest candidates of the chain: as many entries as there are probes, less one, are looked at, if the chain goes on so far, and at most three times as many; none that is looked at agrees any further. |
| HashChains.Roll | src/miniz.c:1720-1760 | Rolling the hash on by a byte is hashing the last three bytes. |
| HashChains.HoldingOn | src/miniz.c:1736-1737 | Putting in a position keeps that each chain starts at the latest position of its hash, and that each of the last 32768 positions leads to the latest before it that hashes alike. |
| ChainSearch.OnChain | src/miniz.c:1385-1480 | The chain of a position visits the positions before it that hash alike, the latest first, as far as they are in reach. |
| ChainSearch.SearchReaches | src/miniz.c:1385-1480 | None of the latest positions that hash alike, as many as there are probes, less one, agrees with this one any further than what the search gives back. |
| LazyParser.Parser.Refill | src/miniz.c:1720-1762 | The source bytes taken go into the window and the lookahead, every position whose three bytes are there into its chain, and the dictionary makes room for them. |
| LazyParser.Parser.ChooseMatch | src/miniz.c:1765-1796 | It is the match that the two laws below describe; it is one of the source at the current position, within the dictionary. |
| LazyParser.Parser.ChosenIsLongest | src/miniz.c:1765-1795 | The match is the first of the longest candidates of the chain, if one is longer than the saved match, and is given up exactly if it is of three bytes and 8192 or more away, at a distance equal to the slot, or short and filtered. |
| LazyParser.Parser.ChosenIsRun | src/miniz.c:1770-1786 | When only runs are looked for, it is the run of the last byte as far as it goes, from three bytes on. |
| LazyParser.Parser.ParseStep | src/miniz.c:1764-1841 | What a step records, saves and moves over, for the match chosen: with nothing saved, a literal exactly when there is no match, the match exactly when matches are greedy or it has 128 bytes, and else it is saved; with a match saved, that one exactly when the new one is no longer, and else a literal, and the new one saved or recorded. It keeps the invariant that the recorded tokens stand for the source up to the lookahead, less one byte while a match is saved. |
| Parsing.StepParses | src/miniz.c:1764-1841 | Any step so described, for a real match, keeps the tokens in step with the source. |
| Parsing.StepThrifty | src/miniz.c:1764-1841 | It keeps that no match costs more than its bytes, that the dictionary reaches back far enough for the stored fallback unless the block is large, and that nothing from before the last full flush is needed. |
| Parsing.Drained | src/miniz.c:1711-1854 | Nothing is saved once the lookahead is empty: the tokens stand for all of the source. |
| Parsing.Flushed | src/miniz.c:1711-1854 | The position of the last flush, the tokens' length and the saved byte add up to the lookahead's position. |
| FastParser.FillFast | src/miniz.c:1501-1520 | The block copies keep the window in step with the source, and the lookahead is full or the source is used up. |
| FastParser.RunLength | src/miniz.c:1535-1543 | The word-wise comparison gives the number of bytes that agree, at most 258, and 0 for the position itself. |
| FastParser.Probe | src/miniz.c:1524-1577 | The one candidate is taken exactly when it is within the dictionary, starts with the same three bytes, and is not of three bytes from 8192 or more away; it is then a match of the source, as long as the two agree and the lookahead goes; the current position takes its place in the table. |
| FastParser.FastStep | src/miniz.c:1524-1596 | A step of the parser of level 1 records that match, or a literal exactly when there is none, and keeps the same invariant. |
| Compressor.Deflater.CompressNormal | src/miniz.c:1711-1854 | Every byte offered is parsed, and with a flush the lookahead too, unless bytes wait for room; the stream decodes to what was flushed. |
| Compressor.Deflater.CompressFast | src/miniz.c:1494-1666 | The same promise for the parser of level 1. |
| Compressor.Sink.FlushOutput | src/miniz.c:1856-1875 | Every byte is delivered once and in order; bytes wait only when the caller's buffer is full. |
| Compressor.Deflater.constructor | src/miniz.c:1951-1984 | The state after `tdefl_init`, for a dictionary and chains of any contents. |
| Compressor.Deflater.Compress | src/miniz.c:1877-1943 | One call with any input and any room: exactly which calls are refused and which are done; that all is consumed unless bytes wait and the room is used up; that what is delivered continues what was delivered, and the source grows by what was consumed; that at the end what was delivered decodes to the source; that after a sync or full flush with nothing waiting before or behind it what was delivered takes a decoder to all of the source so far and on to whatever bytes follow; that at the end what was delivered after the last such full flush decodes by itself to what was taken in since; and how much is put out at most, in any run. |
| Compressor.Deflater.LongestChosen | src/miniz.c:1385-1795 | In every state of every run, but at level 1 and when only runs are looked for: the match chosen is at least as long as any that starts at one of the latest positions that hash alike, as many as there are probes for, unless it is dropped. |
| Compressor.CompressMem | src/miniz.c:303-340 | One call with everything and a request to finish: done if the room is that of `mz_deflateBound` (or its counterpart for fixed codes), and else unless the room is used up; then the result is within the bound and decodes to the input. |
| StreamRoundTrip.StreamFlush | src/miniz.c:1271-1352 | A flush in mid-stream appends its data to what the stream decodes to. |
| StreamRoundTrip.StreamEnd | src/miniz.c:1294-1330 | The last flush, with padding and checksum, gives a stream of whole bytes that decodes to everything flushed. |
| StreamRoundTrip.RestartEnd | src/miniz.c:1934-1939 | From the end of a full flush on, the stream decodes by itself to what was taken in since. |
| FormatExamples.ExampleDecodes | src/miniz.c:2409-2799 | The zlib stream 78 DA 4B 4C 4A 4E 49 84 62 00 1E 00 04 9F, and its block by itself, stand for the text abcdabcdabcd. |
| Adler32.Sum | src/miniz.c:39-65 | The sum deferred over blocks of 5552 bytes is the sum reduced at every byte, for every start value and every length, and nothing exceeds 32 bits. |
| Adler32.Adler | src/miniz.c:39-65 | The same for the whole call; a null pointer gives 1. |
| Adler32.ChecksumConcat | src/miniz.c:1926-1927 | Updates over consecutive pieces give the checksum of the whole. |
| Adler32.ChecksumClosed | src/miniz.c:39-65 | The checksum of a text is given by its sum and its sum weighted by position, modulo 65521. |
| DecodeTable.Table.Build | src/miniz.c:2511-2572 | The table is accepted exactly when its code is complete or has one symbol at most; then it is right for the code; every index into the tree is in range. |
| DecodeTable.Table.Decode | src/miniz.c:2365-2377 | A buffer that starts with a symbol's code gives the symbol and its length; the walk ends within 15 bits. |
| DecodeTable.Table.Enough | src/miniz.c:2316-2345 | The test of the fill loop: yes only when a lookup ends within the bits that are there, and no only when every code that fits is longer and the bits have not left the way of every code. |
| BitReader.Reader.GetBits | src/miniz.c:2286-2310 | A field is read exactly when it is there; 8 times the bytes taken in, less the bits held, stays the number of bits decoded. |
| Gaps.NoGaps | src/miniz.c:2511-2572 | With a complete code every lookup gives the symbol that the format says, and none where the format has none. |
| BitReader.GapIs | src/miniz.c:2347-2377 | Where no code stands at the front, the lookup gives symbol 0: of the bits walked if the tree was entered, and else of no bits, with 15 bits in the buffer. |
| BitReader.Reader.Fill | src/miniz.c:2316-2345 | Bytes are taken in one by one, and no more than the next code needs; a suspended fill goes on where it stopped. |
| BitReader.Reader.HuffDecode | src/miniz.c:2347-2377 | The next symbol as a lookup reads it, whatever the bits are and however they come in; when there is none, it suspends, and at the end of the input the stream has none. |
| BitReader.Reader.PutBack | src/miniz.c:2774-2782 | Whole bytes of look-ahead go back, and the stream behind the buffer stays the same. |
| MatchCopy.CopyRun | src/miniz.c:2707-2769 | The copy by eight and the copy by three write the target range only, and, when the source is the distance before the target or behind it, what the copy byte by byte writes. |
| OutputBuffer.RunHeld | src/miniz.c:2690-2706 | A run copied in the buffer, a ring or not, is what the reading says, with the bytes that the buffer held before where the output does not reach; after it the buffer holds the output. |
| InflateReads.CopyIsMatch | src/miniz.c:2707-2769 | For a distance within the output that is the match of the format. |
| InflateSteps.HeadGo | src/miniz.c:2425-2440 | What follows a block's three head bits is what is expected in the state that the inflater goes to. |
| InflateSteps.SymbolGo | src/miniz.c:2606-2689 | The same for a symbol of a block's body, with the liberty that it takes if it is from a gap or an unused one. |
| InflateSteps.DistanceGo | src/miniz.c:2697-2706 | The same for a distance symbol. |
| InflateSteps.SymbolAlike | src/miniz.c:2606-2730 | What is read does not depend on the bytes put out. |
| InflateSteps.WholeGrows | src/miniz.c:2381-2850 | In every state the output so far is a beginning of what the stream stands for, and a proper one when a byte is to be put out next. |
| Inflater.Inflater.constructor | src/miniz.c:2409-2425 | The state after `tinfl_init`, for every stream and every output buffer, a ring of any size or not, whatever it holds. |
| Inflater.Inflater.Step | src/miniz.c:2409-2816 | Every step keeps what is expected of the stream, makes progress, or waits for the caller for the reason it gives. |
| Inflater.Inflater.Decompress | src/miniz.c:2381-2850 | One call with any chunk: what is put out continues the output, which stays a beginning of what the code takes the stream for; failed means that it takes it for nothing; done and mismatch mean that all of it is put out, that nothing behind the stream was consumed (but behind a gap), and that the checksum decided between the two; a stream that stands for something is never answered with failed, nor with a call for more input behind its end. |
| Inflater.Output.CopyMatchRun | src/miniz.c:2707-2769 | A match that does not reach the end of the buffer appends what the reading says to the output. |
| FormatReading.Exactly | src/miniz.c:2381-2850 | What the code takes without a liberty is a valid stream and stands for the same data; every valid stream is taken so, unless the buffer is a ring of less than 32768 bytes. |
| FormatReading.BodyFormat | src/miniz.c:2602-2763 | The same for a block's body with any two codes. |
| FormatReading.TrailingReads | src/miniz.c:2785-2795 | The checksum register that starts at 1 ends as the four bytes behind the last block. |
| Liberties.WindowLiberty | src/miniz.c:2413-2425 | A window above 32768 bytes is passed over exactly when the first byte claims it, and never for a ring; a match from before the output, or from further back than the buffer, only in a ring. |
| Liberties.BlockWithin | src/miniz.c:2427-2763 | A stored block takes no liberty, and one with the fixed codes none from a gap. |
| Liberties.BodyWithin | src/miniz.c:2602-2763 | A body with complete codes reads nothing from a gap. |
| Liberties.WideTaken | src/miniz.c:2413-2425 | A stream of eleven bytes that claims a window of 65536: the format refuses it, and the code takes it for the empty text, with its checksum. |
| Liberties.WideAlone | src/miniz.c:2413-2425 | Its two header bytes alone are refused. |
| Liberties.UnusedTaken | src/miniz.c:2383-2386 | A raw stream of three bytes with the symbols 286 and 30: the format refuses it, and the code takes it for the empty text. |
| Liberties.GapTaken | src/miniz.c:2316-2377 | With a code of one symbol and one bit, the other bit is symbol 0 of no bits if 15 bits are there, and no symbol if not. |
| Liberties.GapMatch | src/miniz.c:2697-2706 | A match whose distance is read from such a gap repeats the last byte and uses no bits for its distance. |
| Uncompress.InflateOnce | src/miniz.c:454-478 | One call into the caller's buffer: it succeeds exactly when the code takes the stream, with its checksum, and there is room for what it stands for; what is put out is that, or as much of it as there is room for; it complains of the room only when that is used up and too small. |
| Uncompress.Uncompress | src/miniz.c:550-578 | The same for the whole call; a valid stream gives its data if there is room and is refused if there is not; what is accepted is valid exactly when no liberty is taken. |
| Uncompress.SquashRestore | src/compression.c:22-69 | Compressing is done when the room is that of `mz_compressBound`; whenever it is done, restoring gives the input back, for every input, every setting and every platform. |
| ZipIndex.Directory.FilenameLess | src/miniz.c:3413-3430 | It decides the order of the folded names, a proper prefix first. |
| ZipIndex.FoldAlike | src/miniz.c:3102 | Two bytes fold alike exactly when they are equal or the two cases of a letter from A to Z. |
| ZipIndex.BeforeTotal | src/miniz.c:3413-3430 | That order is total. |
| ZipIndex.Directory.Sift | src/miniz.c:3456-3490 | Sinking an element repairs the heap, rearranges the indices, and touches none outside. |
| ZipIndex.Directory.Sort | src/miniz.c:3442-3492 | The indices come out sorted by folded name, and are the same ones. |
| ZipIndex.Directory.FilenameCompare | src/miniz.c:4244-4258 | It is 0 exactly for equal folded names, and otherwise gives their order. |
| ZipIndex.Directory.BinarySearch | src/miniz.c:4260-4301 | Something is found exactly when an entry has the folded name, cut to the length that 32 bits give, and what is found has it. |
| ZipIndex.Directory.LinearScan | src/miniz.c:4331-4374 | The first entry with the folded name is found exactly when there is one. |
| ZipIndex.Directory.IndexAndFind | src/miniz.c:3443-3492 | Index, sort and search together find a name, cut to the length that 32 bits give, exactly when an entry has it. |
| ZipIndex.SearchAgrees | src/miniz.c:4313-4376 | Search and scan agree on every name, exactly as long as a name of more than 65535 bytes does not match an entry when its length is cut to 32 bits. |
| ZipIndex.SearchFindsTooMuch | src/miniz.c:4313-4376 | Where they differ: a name of 2^32 bytes, in a directory with an empty entry name, is found by the search and not by the scan. |
| Z85.Div85Exact | src/z85.c:46 | The multiplication by the reciprocal fits 64 bits and divides every 32-bit number by 85 exactly. |
| Z85.TablesInverse | src/z85.c:48-75 | The decoder's table undoes the encoder's. |
| Z85.CharRows | src/z85.c:48-59 | All 85 characters are those of ZeroMQ RFC 32, digit by digit. |
| Z85.HelloWorld | src/z85.c:77-98 | The eight bytes 86 4F D2 6F B5 59 F7 5B of that RFC encode to HelloWorld. |
| Z85.EncodeUnsafe | src/z85.c:77-98 | The loop writes the code of the source, and touches nothing else. |
| Z85.DecodeUnsafe | src/z85.c:100-123 | The loop writes what the code stands for, and touches nothing else. |
| Z85.GroupRoundTrip | src/z85.c:77-123 | Decoding an encoded group gives it back. |
| Z85.GroupCanonical | src/z85.c:77-123 | Encoding a decoded group gives it back exactly when it has only the encoder's characters and its value is below 2^32. |
| Z85.PaddedRoundTrip | src/z85.c:167-255 | Decoding an encoding with padding gives every byte string back. |
| Z85.PaddedParts | src/z85.c:177-208 | The padded encoding of a string that is not empty is a digit for the number of bytes in its last group, the whole groups, and the rest filled up with zeros. |
| Z85.EncodeWithPadding | src/z85.c:177-208 | The method writes the padded encoding and its length; null pointers give 0. |
| Z85.DecodeWithPadding | src/z85.c:210-255 | The method writes the decoded bytes and their number; null pointers and wrong sizes give 0. |
| Z85.EncodedLength | src/z85.c:157-162 | The bound is the exact length of the encoding, exactly when it does not overflow. |
| Z85.DecodedLength | src/z85.c:164-175 | The bound is no less than the number of decoded bytes unless it overflows; for a legal size and tail count it is that number, exactly when it does not. |
| Z85.Validate | src/webstore_node.c:54-61 | Data are refused exactly when a character is not one of the encoder's. |
| Z85.EncodingAccepted | src/webstore_node.c:204-212 | Every encoding of a non-empty string passes the server's length check and validator. |

## Left out

- Inflater.Inflater.Decompress: in a ring that is shorter than the distance of a match, the bytes put out from that match on are not promised, since the copies by words then read what they have just written; all else is. An empty ring is excluded. The checksum promise ends with a call that failed for want of input, since the source does not add that call's output to the checksum.
- Compressor.Deflater.Compress: a zlib header goes out again after 2^32 blocks, when the 32-bit block index wraps; the promise that the stream decodes holds for up to 2^32 blocks (`Compressor.OneHeader`).
- Compressor.CompressMem: the arithmetic of `mz_deflateBound` is on unbounded numbers; a 32-bit `mz_ulong` would wrap it for inputs of 39 million bytes and more.
- The callback output of the compressor (`m_pPut_buf_func`) and writing blocks straight into the caller's buffer (src/miniz.c:1241): the model always goes through the internal buffer.
- What the table of level 1 holds, beyond that each step puts its own position in.
- The 32-bit bit buffer of the inflater: the model is the 64-bit one of src/miniz.h:877-884.
- `TINFL_FLAG_COMPUTE_ADLER32`: the model always computes the checksum, which only zlib streams compare.
- Tables given as constants in the source are given by formulas or shorter tables where their entries follow a rule.
- Parts of one C structure are several classes here (`Output`, `Parser`, `Sink`, `Table`, `Reader`), and the variables that the source keeps in registers during a call are fields.
- `|` of disjoint bits and shifts are written as additions, divisions and multiplications by powers of two.
- Failing allocations, the streaming wrappers `mz_deflate` and `mz_inflate` beyond one call, and the length check against 2^32 in `mz_compress2` and `mz_uncompress`.
- Reading and writing ZIP archives beyond the name index: flags, comments, and which of several entries with the same folded name is found.
- `isalnum` is that of the C locale.
- Z85.DecodeUnsafe: characters outside the decoder's table, which it would index past its end, are excluded; the server validates before it decodes.
- Z85.DecodeWithPadding: the same, and an input of a single character, for which it would read ahead of its input.
- The HTTP server, the store behind it and the client scripts.
