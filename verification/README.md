# Verified models of the codec and of the network stack

The project models five components of the repository and proves what they are for. A part that updates buffers, tables
or state in place is a method or a class here as it is in the source, and is proved against a specification function;
the properties of that function are lemmas beside it.

**DEFLATE (LodePNG).** `Bits` holds bit streams. `Tries`, `Canonical`, `HuffmanTable` and `Huffman` hold the canonical
codes of section 3.2.2 of RFC 1951: a code tree is the common meaning of the encoder's list of words and of the
decoder's table. `CoinSort`, `PackageMerge`, `MergeOptimal` and `CodeLengths` are the choice of code lengths, proved
optimal. `Tokens` and `Lz77` are the search for repetitions, `RunLengths` the coding of code lengths. `InflateSpec` is
the inflater as a function of the bits, with the source's error codes, and `Inflater` the loops over buffers that
compute it. `BlockBits` says what the bits of blocks read as, `FixedCode` gives the words of the fixed codes, `Deflater`
writes blocks, and `DeflateStream` writes streams
and closes the round trip. `Adler` is the checksum of section 8.2 of RFC 1950.

**PNG scanlines (LodePNG).** `Filters` holds the five filters of clause 9 of the PNG specification and their inverses,
in place. `Adam7` and `Interlace` hold the seven passes of clause 8 and the two copying procedures.

**Cuckoo hash table.** `Cuckoo` has nine tables, an insertion that evicts at most twelve entries, and the finite map that
they stand for.

**RoCEv2 reliable transport.** `Psn` holds 24-bit packet numbers and their windows. `RxIbh` is the receive side
(`rx_ibh_fsm` with `state_table`), `TxIbh` the numbering on the send side (`meta_merger`, `generate_ibh` with
`state_table`). `LocalReq` cuts requests into packets, `RxExh` (`rx_exh_fsm` with `msn_table`) turns packets into memory
writes, and `Delivery` goes all the way from one side's requests to the other side's memory. `ReadResponse` answers reads,
`ReadAccepted` shows that the requester takes the answers as new, `ReadArrival` follows one answer into the requester's
memory, and `ReadQueue` all of them, with the addresses that the requests left in the queue. `Intruder`, `WriteIntruder` and
`ReadIntruder` say what another packet in the middle of a write or of an answer does. `PkgArbiter` cuts the memory's burst.
Both sides are modelled as built without pointer chasing. Processes that share FIFOs are steps of one class; `Run` carries
out any schedule of them, and `Settle` says what happens once nothing more arrives: whether everything is carried out, or
where it stops.

**AXI stream adapters.** `AxiShift` has the two byte shifters, `AxiWidth` the two width converters, each as a state
machine of one step per call, with a pipeline of both under every schedule of stalls.

The project's own names for what the source only implies: `FirstCode` and `CanonCode` are the canonical assignment,
`Inflate` the meaning of a bit stream, `Expand` the meaning of tokens, `Follows` the meaning of one operation of the hash
table, `Genuine` the histories that the receive side can have, `Tiles` memory writes that lie one behind the other.

What is false of the code, with the exact condition:

- A dynamic stream without LZ77 stores behind the end of its list exactly when the input is longer than 65535 bytes
  (`WritesOutside`), and a fixed stream divides by zero exactly when the input is empty (`DividesByZero`).
  `DeflateStream.Deflatev` and `DeflateStream.RoundTrip` say so with their result `ok` and hold in all other cases.
- The code lengths of an alphabet of exactly one symbol are stored behind the end of the list
  (`CodeLengths.HuffmanCodeLengths`, again with `ok`).
- The state machine of the responder never leaves the packet of a write of no bytes, nor that of a read that chases
  pointers where that is not compiled in. What arrived is carried out completely if and only if there is no such packet,
  and otherwise exactly up to the first one (`RxExh.Responder.Settle`); nothing ever follows (`RxExh.Responder.Run`). The
  requester itself sends such a packet for a write of length 0 (`RxExh.EmptyWriteStalls`).
- The window of duplicates starts at the number of the setup and never moves (`resp_old_outstanding` is only written at
  setup). It is right exactly as long as fewer than 2^24 packets were accepted, or one less than a multiple of 2^24
  (`RxIbh.DuplicatesExact`); when the numbers have gone round once it is empty (`RxIbh.WindowEmpty`), and there are
  histories in which they have (`RxIbh.WindowBecomesEmpty`).
- A read request that is not new leaves a decision in the FIFO of drop decisions although it has no payload. The
  decisions match the payloads exactly when every read request is new (`RxIbh.DecisionsMatch`). From every history in
  which they still match it takes one read request with any other number than the expected one: the next write is
  accepted, and its payload gets the read's decision, which is to drop it exactly if the read's number lies outside the
  window of duplicates (`RxIbh.ReadTakesTurn`, with `RxIbh.RepeatedReadMisleads` and `RxIbh.AcceptedWriteDropped` as cases).
- The window of acknowledgements accepts exactly the outstanding numbers if and only if there are any
  (`Psn.AckExact`, `RxIbh.AckOfEntry`, `RxIbh.AckExactInHistory`); with nothing outstanding it accepts every number
  (`Psn.NothingOutstanding`, `RxIbh.AckOfIdleEntry`).
- The packet count of a read has 22 bits. It is right exactly for lengths up to 0x3F_FFFF packets
  (`ReadResponse.CountFits`); that is every 32-bit length exactly if packets have at least 1025 bytes
  (`ReadResponse.EveryLengthFits`).
- A write in progress, or the answer to a read, and another packet of its queue pair share one address. It covers its
  range if and only if that packet leaves the address alone, which its opcode and fields show
  (`WriteIntruder.IntruderExact`, `ReadIntruder.IntruderExact`, `Intruder.Harmless`): read responses, requests to read and
  other writes in general do not.
- Every read leaves its local address in the queue, but the other side answers only reads that have bytes, and a read
  that chases pointers does not even leave. The address stays, and the answer to a later read goes there: of reads of 0 and
  of 64 bytes, the second one's bytes land at the address of the first (`ReadQueue.EmptyReadShifts`). All answers reach the
  ranges that their reads named if and only if the i-th read with an answer names the address of the i-th read, for every
  i answered (`ReadQueue.AnswersExact`), in particular when no read without an answer comes before one with
  (`ReadQueue.NoneSkipped`).
- Inserting a key that the hash table holds is not an update. The tables stand for a map afterwards if and only if the
  key was absent, or the insertion failed and lost one of its two pairs (`Cuckoo.MapAfterInsert`,
  `Cuckoo.MapAfterLoss`); the tables before the call determine which, as the chain of evictions is a function of them
  (`Cuckoo.MapAfterTrials`). When a cell is free for the key, lookups go on to answer with the old value exactly if the last
  free table comes before the last one that holds the key (`Cuckoo.OldValueSurvives`); with no free cell the answer is
  that of the tables that `Trials` computes.

Where the code and its comments differ, the model follows the code: `searchCodeIndex` gives the last index, not 0, for a
value below the first base; an unusable distance symbol always gives error 18, because the test looks at the
literal/length symbol; a stored stream of no data is empty, and the inflater then reports error 52.

## Model

| member | source | states |
|---|---|---|
| Bits.AddBitToStream | common/includes/lodepng/lodepng.cpp:396-403 | The stream of bits grows by exactly this bit; bytes before its start stay, unused bits of the last byte are 0. |
| Bits.AddBitsToStream | common/includes/lodepng/lodepng.cpp:405-413 | The stream grows by the low bits of the value, least significant first. |
| Bits.AddBitsToStreamReversed | common/includes/lodepng/lodepng.cpp:415-424 | The stream grows by the low bits of the value, most significant first. |
| Bits.ReadBitsFromStream | common/includes/lodepng/lodepng.cpp:439-448 | Inside the buffer the result is the number that those bits denote, and the pointer moves on by their count. |
| Bits.ReadBack | common/includes/lodepng/lodepng.cpp:405-448 | A number of n bits that the writer wrote is read back. |
| Bits.BytesBitsInjective | common/includes/lodepng/lodepng.cpp:429-437 | The bits of a buffer determine its bytes. |
| Bits.UcVector.PushBack | common/includes/lodepng/lodepng.cpp:167-172 | The vector grows by one element at the end. |
| Tries.PrefixFree | common/includes/lodepng/lodepng.cpp:597-637 | No word of a code tree is a prefix of another. |
| Tries.WalkReadsWord | common/includes/lodepng/lodepng.cpp:943-969 | A word at the read position decodes to its symbol, and nothing but the word is consumed. |
| Tries.WalkFoundWord | common/includes/lodepng/lodepng.cpp:943-969 | Whatever decodes was the word of a leaf: the converse. |
| Tries.InternalBound | common/includes/lodepng/lodepng.cpp:529-590 | A code tree has at most one node fewer than there are symbols: the table is never too small. |
| Canonical.FilledFits | common/includes/lodepng/lodepng.cpp:597-637 | With Kraft sum 1, the words and what lies below them never need more than the 2^l nodes of a level. |
| Canonical.CanonTrieOfWords | common/includes/lodepng/lodepng.cpp:597-637 | For every complete set of lengths, the canonical words are exactly the paths of one tree: each present symbol has its leaf, and each leaf its symbol. |
| Canonical.SameLengthInOrder | common/includes/lodepng/lodepng.cpp:597-637 | The first rule of section 3.2.2 of RFC 1951: codes of one length have consecutive values, in the order of their symbols. |
| Canonical.ShorterFirst | common/includes/lodepng/lodepng.cpp:597-637 | The second one: whatever begins with a shorter code word comes before every longer one. |
| Canonical.PadLengths | common/includes/lodepng/lodepng.cpp:1147-1153 | Zero lengths at the end change neither the words nor completeness, so a trimmed code and the reader's padded one agree. |
| Huffman.RawFirstIs | common/includes/lodepng/lodepng.cpp:618-622 | Although the count of absent symbols is not set to 0, the first code of a length only differs from the canonical one by a multiple of 2^length. |
| Huffman.RawCodeIsCanonical | common/includes/lodepng/lodepng.cpp:615-627 | The low bits of the code that the source gives a present symbol are its canonical code. |
| Huffman.RawCodeFits | common/includes/lodepng/lodepng.cpp:615-627 | No code leaves 32 bits, for any lengths of up to 288 symbols. |
| Huffman.MakeFromLengths2 | common/includes/lodepng/lodepng.cpp:597-637 | For a complete code there is no error, the low bits of the words are canonical, and the table is that of the code tree; in any case the sizes are right. |
| HuffmanTable.Make2DTree | common/includes/lodepng/lodepng.cpp:529-590 | For the words of a tree the result is 0 and the table represents that tree, node by node; otherwise the only other result is 55. |
| HuffmanTable.AllInserted | common/includes/lodepng/lodepng.cpp:529-590 | A table that holds every word of a tree represents the tree. |
| HuffmanTable.ClearUnfilled | common/includes/lodepng/lodepng.cpp:584-587 | Entries that were never filled become 0, and no other entry changes. |
| Huffman.HuffmanDecodeSymbol | common/includes/lodepng/lodepng.cpp:943-969 | On every input: the symbol whose word stands at the bit pointer, which moves behind the word, or the value for a failure if the input ends first. |
| Huffman.AddHuffmanSymbol | common/includes/lodepng/lodepng.cpp:1396-1401 | The stream grows by the canonical word of the symbol. |
| Huffman.WordDecodes | common/includes/lodepng/lodepng.cpp:943-969 | The word of a present symbol decodes to that symbol and advances by its length, wherever it stands. |
| Huffman.DecodedWord | common/includes/lodepng/lodepng.cpp:943-969 | What decodes is the word of a present symbol. |
| CoinSort.SortCoins | common/includes/lodepng/lodepng.cpp:704-726 | The combsort ends; the first coins are then ordered by weight and a permutation of what they were, and the others stay. |
| CoinSort.NextGap | common/includes/lodepng/lodepng.cpp:709-713 | The gap shrinks until it is 1 and stays there. |
| CoinSort.Exchange | common/includes/lodepng/lodepng.cpp:715-723 | An exchange permutes the coins and raises a potential, which is why the sort ends. |
| PackageMerge.RowLength | common/includes/lodepng/lodepng.cpp:790-840 | Every row holds fewer than twice as many coins as there are present symbols, and the last row has the coins that are counted. |
| PackageMerge.CheapestPrefix | common/includes/lodepng/lodepng.cpp:843-850 | The first coins of an ascending row cost no more than any other choice of as many. |
| PackageMerge.RowHonest | common/includes/lodepng/lodepng.cpp:802-840 | No symbol is used twice at one level, and every coin of row j is worth 2^j. |
| MergeOptimal.RowIsCheapest | common/includes/lodepng/lodepng.cpp:802-840 | In every row, the cheapest coins of some number cost no more than the coins that any code would choose there. |
| MergeOptimal.CheapestIsComplete | common/includes/lodepng/lodepng.cpp:745-859 | An admissible code that nothing beats has Kraft sum exactly 1. |
| MergeOptimal.PackageMergeCorrect | common/includes/lodepng/lodepng.cpp:745-859 | Lengths counted on the last row are within 1..maxbitlen for present symbols and 0 for others, form a complete code, and no admissible code is cheaper, whatever the order of equal coins. |
| MergeOptimal.CostIsSize | common/includes/lodepng/lodepng.cpp:745-859 | The cost that is minimal is the number of bits of any text in which the symbols occur as often as the frequencies say. |
| CodeLengths.AppendSymbolCoins | common/includes/lodepng/lodepng.cpp:728-743 | The coins of the present symbols stand at the given place; the coins before are kept, those behind are empty. |
| CodeLengths.MergeCoins | common/includes/lodepng/lodepng.cpp:826-832 | A row receives the coins of the row before, merged two by two. |
| CodeLengths.MakeRows | common/includes/lodepng/lodepng.cpp:790-841 | The loops over rows build exactly the rows of package-merge. |
| CodeLengths.CountSymbols | common/includes/lodepng/lodepng.cpp:843-850 | Every length is the number of times the symbol occurs in the counted coins. |
| CodeLengths.HuffmanCodeLengths | common/includes/lodepng/lodepng.cpp:745-859 | For any frequencies that fit the depth: a complete code in which every symbol that occurs has a word, of minimal total length if at least two occur; error 80 for an empty alphabet, and ok is false exactly for an alphabet of one symbol, where the source writes behind its list. |
| Tokens.SearchCodeIndex | common/includes/lodepng/lodepng.cpp:1406-1424 | The index of the largest base that is at most the value; the last index if there is none. |
| Tokens.CopyAt | common/includes/lodepng/lodepng.cpp:1239-1256 | A copy repeats the last bytes over and over, also when it runs into its own output. |
| Tokens.CopyMatches | common/includes/lodepng/lodepng.cpp:1239-1256 | Where a text repeats itself, a copy reproduces it. |
| Tokens.TokenFits | common/includes/lodepng/lodepng.cpp:1427-1443 | Every length 3..258 and distance 1..32768 has a symbol, and what is left fits the symbol's extra bits. |
| Tokens.LengthTable | common/includes/lodepng/lodepng.cpp:463-475 | Section 3.2.5 of RFC 1951: eight lengths without extra bits, then four for each number of bits, each where the one before ends, and 258. |
| Tokens.DistanceTable | common/includes/lodepng/lodepng.cpp:477-485 | The distances: four without extra bits, then two for each number of bits. |
| Tokens.OneLengthSymbol | common/includes/lodepng/lodepng.cpp:463-475 | Every length below 258 has exactly one symbol and one value of its extra bits. |
| Tokens.OneDistanceSymbol | common/includes/lodepng/lodepng.cpp:477-485 | And so has every distance. |
| Lz77.Hash.constructor | common/includes/lodepng/lodepng.cpp:1470-1491 | The fresh hash is consistent with no position entered. |
| Lz77.Hash.UpdateHashChain | common/includes/lodepng/lodepng.cpp:1526-1532 | Exactly the slot of the position changes, and it is linked to the head of its chain before. |
| Lz77.Hash.Enter | common/includes/lodepng/lodepng.cpp:1577-1583 | Entering a position, even twice, keeps the chain consistent and the stored runs of zeros true. |
| Lz77.CountZeros | common/includes/lodepng/lodepng.cpp:1513-1523 | The number of zero bytes at a position, at most 258, and no fewer than there are. |
| Lz77.SlotDistance | common/includes/lodepng/lodepng.cpp:1609-1615 | The offset computed from circular slots is the distance to the position that the slot stands for. |
| Lz77.LongestMatch | common/includes/lodepng/lodepng.cpp:1585-1656 | What is found is the first longest match on the slots of the chain that are visited, up to the first one that is long enough. Whatever the chain holds, it repeats earlier bytes, its length is at most 258 and stays in the input, and its distance is below the window and inside the text so far. |
| Lz77.BestIsLongest | common/includes/lodepng/lodepng.cpp:1605-1654 | The match comes from one of the visited slots, and none of them has a longer one, unless the search was content before the end. |
| Lz77.CompareFrom | common/includes/lodepng/lodepng.cpp:1628-1637 | The comparison stops exactly at the first difference or at the end. |
| Lz77.AddLengthDistance | common/includes/lodepng/lodepng.cpp:1427-1443 | The four values that stand for the copy are appended. |
| Lz77.Emit | common/includes/lodepng/lodepng.cpp:1683-1708 | A literal or the match is written, the position moves behind it, and the tokens still cover the text; short and far matches become literals. |
| Lz77.EncodeLZ77 | common/includes/lodepng/lodepng.cpp:1543-1714 | The values stand for tokens that expand, after the preceding bytes, to exactly the range of the input, with lengths 3..258 and distances inside the window, for any state the hash was left in; no error is returned. |
| RunLengths.EncodeRuns | common/includes/lodepng/lodepng.cpp:1925-1967 | For any list of lengths 0..15: valid runs, with repeat fields that fit and something to repeat, that expand to the list. |
| RunLengths.EncodeZeros | common/includes/lodepng/lodepng.cpp:1933-1947 | A run of zeros is coded by code 17 or 18 and continues the coded prefix. |
| RunLengths.EncodeRepeats | common/includes/lodepng/lodepng.cpp:1948-1962 | A run of equal lengths is coded by the length and code 16, and continues the coded prefix; leftovers are left for later. |
| InflateSpec.OrderPlace | common/includes/lodepng/lodepng.cpp:487-488 | The order of the code length code lengths is a permutation. |
| InflateSpec.OrderIs | common/includes/lodepng/lodepng.cpp:487-488 | The order itself: the three repeat codes, 0, and then outwards from 8, the larger one first. |
| InflateSpec.FixedComplete | common/includes/lodepng/lodepng.cpp:896-935 | The fixed codes have 288 and 32 symbols and are complete. |
| FixedCode.LiteralWords | common/includes/lodepng/lodepng.cpp:896-917 | The table of section 3.2.6 of RFC 1951 as words: 00110000 to 10111111 for 0..143, 110010000 to 111111111 for 144..255, 0000000 to 0010111 for 256..279, 11000000 to 11000111 for 280..287. |
| FixedCode.DistanceWords | common/includes/lodepng/lodepng.cpp:919-935 | A distance symbol is its five bits. |
| FixedCode.FixedLiteral | common/includes/lodepng/lodepng.cpp:1172-1190 | Where the word of a literal stands in a fixed block, that byte is read. |
| FixedCode.FixedEnd | common/includes/lodepng/lodepng.cpp:1172-1265 | Seven zeros end a fixed block. |
| FixedCode.FixedCopy | common/includes/lodepng/lodepng.cpp:1193-1256 | A length word, extra bits, five bits and extra bits are read as the copy of that length and distance. |
| FixedCode.OneLetter | common/includes/lodepng/lodepng.cpp:1317-1366 | The stream 4B 04 00 inflates to the one byte 97. |
| InflateSpec.StreamErrors | common/includes/lodepng/lodepng.cpp:1341-1357 | Error 52 where a block's first bits are missing, 20 for a block type that does not exist. |
| InflateSpec.StoredErrors | common/includes/lodepng/lodepng.cpp:1274-1312 | Error 52, 21 or 23, each in exactly its case, and else the stored bytes. |
| InflateSpec.BlockErrors | common/includes/lodepng/lodepng.cpp:1172-1262 | Error 11 or 52 in the data of a block. |
| InflateSpec.CopyErrors | common/includes/lodepng/lodepng.cpp:1206-1236 | Error 51 or 18 in a copy. |
| InflateSpec.RunErrors | common/includes/lodepng/lodepng.cpp:1048-1124 | Error 11, 16, 50, 54, 13, 14 or 15 in the code lengths. |
| InflateSpec.HeaderErrors | common/includes/lodepng/lodepng.cpp:992-1131 | Error 49 or 64 in the header. |
| InflateSpec.ReadClCode | common/includes/lodepng/lodepng.cpp:1004-1034 | What it reads is in range and complete when it succeeds, and moves on inside the input. |
| Inflater.ReadLengths | common/includes/lodepng/lodepng.cpp:1048-1139 | The loop over symbols 0..18 fills both length arrays with the list that the bits describe, across the border of the alphabets, or gives the error that the bits call for. |
| Inflater.AppendLengths | common/includes/lodepng/lodepng.cpp:1059-1128 | Repeated lengths go to the array that each index belongs to, up to the announced total. |
| Inflater.GetTreeInflateDynamic | common/includes/lodepng/lodepng.cpp:986-1164 | For complete codes both trees are the canonical ones of the lengths in the header; a malformed header gives its error. |
| Inflater.GenerateFixedLitLenTree | common/includes/lodepng/lodepng.cpp:896-918 | The tree of the fixed literal/length code, without error. |
| Inflater.GenerateFixedDistanceTree | common/includes/lodepng/lodepng.cpp:921-935 | The tree of the fixed distance code, without error. |
| Inflater.CopyForward | common/includes/lodepng/lodepng.cpp:1250-1256 | The loop that wraps at the place where the copy started gives the copy, also when it overlaps itself. |
| Inflater.ReadLengthDistance | common/includes/lodepng/lodepng.cpp:1207-1237 | The copy that follows a length symbol, or its error. |
| Inflater.InflateSymbols | common/includes/lodepng/lodepng.cpp:1186-1266 | Literals and copies up to the end code, appended to what was there, or the error the bits call for, whatever the buffer holds behind the position. |
| Inflater.InflateHuffmanBlock | common/includes/lodepng/lodepng.cpp:1167-1272 | The same for a whole fixed or dynamic block. |
| Inflater.CopyStored | common/includes/lodepng/lodepng.cpp:1303-1307 | Exactly the given bytes are appended at the position. |
| Inflater.InflateNoCompression | common/includes/lodepng/lodepng.cpp:1274-1312 | The bytes of a stored block, or error 21, 23 or 52. |
| Inflater.Inflatev | common/includes/lodepng/lodepng.cpp:1314-1357 | The output holds exactly the bytes that the stream describes and nothing else, or the error is the one that the stream calls for. |
| BlockBits.SymbolAt | common/includes/lodepng/lodepng.cpp:943-969 | The word of a present symbol is read as that symbol, at any position. |
| BlockBits.TokenReads | common/includes/lodepng/lodepng.cpp:1186-1266 | The bits of a token read as that token when something follows. |
| BlockBits.TokensRead | common/includes/lodepng/lodepng.cpp:1186-1266 | The bits of tokens read as what the tokens expand to. |
| BlockBits.DataReads | common/includes/lodepng/lodepng.cpp:1186-1266 | Tokens and the end code read as a whole block. |
| BlockBits.RunReads | common/includes/lodepng/lodepng.cpp:1050-1139 | The bits of one run read as that run. |
| BlockBits.RunsRead | common/includes/lodepng/lodepng.cpp:1050-1139 | The bits of runs read as the list that the runs expand to. |
| BlockBits.ClBitsRead | common/includes/lodepng/lodepng.cpp:1024-1029 | The code length code lengths are read back, those that were cut off as 0. |
| BlockBits.HeaderReads | common/includes/lodepng/lodepng.cpp:986-1164 | A header gives back both lists of code lengths, also where a run crosses from one to the other. |
| BlockBits.FixedBody | common/includes/lodepng/lodepng.cpp:1167-1272 | The bits of a fixed block read as its tokens, wherever they stand. |
| BlockBits.DynamicBody | common/includes/lodepng/lodepng.cpp:1167-1272 | Header and data of a dynamic block read as its tokens, wherever they stand. |
| BlockBits.OneBlockMore | common/includes/lodepng/lodepng.cpp:1327-1350 | A stream of blocks that reads as some bytes, and one block more, read as those bytes and the block's. |
| Deflater.MakeFromFrequencies | common/includes/lodepng/lodepng.cpp:862-884 | A complete code, in which every symbol that occurs has a word, no cheaper one exists for the alphabet that is left, and only absent symbols at the end are cut off. |
| Deflater.CountFrequencies | common/includes/lodepng/lodepng.cpp:1887-1898 | Every count is the number of occurrences of the symbol in the tokens; the end code counts once. |
| Deflater.WriteToken | common/includes/lodepng/lodepng.cpp:1768-1792 | The stream grows by the bits of one token. |
| Deflater.WriteLZ77data | common/includes/lodepng/lodepng.cpp:1761-1794 | The stream grows by the bits of all tokens, in order. |
| Deflater.LiteralsExpand | common/includes/lodepng/lodepng.cpp:1874-1880 | Literals expand to their bytes. |
| Deflater.DeflateFixed | common/includes/lodepng/lodepng.cpp:2083-2145 | The stream grows by a block head and a body that reads as the bytes from datapos to dataend after those before; the hash stays consistent. |
| Deflater.DynamicValues | common/includes/lodepng/lodepng.cpp:1862-1880 | The values stand for tokens that cover the block, unless LZ77 is off and the block does not start at 0: then they are stored behind the end of the list. |
| Deflater.CountRuns | common/includes/lodepng/lodepng.cpp:1973-1979 | Every count is the number of occurrences of the symbol in the runs; repeat fields do not count. |
| Deflater.WriteRuns | common/includes/lodepng/lodepng.cpp:2037-2051 | The stream grows by the bits of all runs. |
| Deflater.ClOrder | common/includes/lodepng/lodepng.cpp:1989-1999 | The code length code lengths in header order, without zeros at the end, at least four. |
| Deflater.WriteHeader | common/includes/lodepng/lodepng.cpp:2022-2051 | The stream grows by a header that carries both lists of lengths. |
| Deflater.TokenTrees | common/includes/lodepng/lodepng.cpp:1887-1909 | Two complete codes in which every symbol of the tokens, and the end code, has a word. |
| Deflater.LengthTree | common/includes/lodepng/lodepng.cpp:1917-1999 | The runs stand for the lengths of both alphabets, and each of their symbols has a word in a complete code of at most 7 bits. |
| Deflater.DeflateDynamic | common/includes/lodepng/lodepng.cpp:1797-2081 | The stream grows by a block head and a body that reads as the bytes from datapos to dataend after those before, exactly where the source stays inside its list. |
| DeflateStream.StoredBlockMore | common/includes/lodepng/lodepng.cpp:1725-1751 | A stored block behind a stream reads as its bytes behind those of the stream. |
| DeflateStream.StoredLayout | common/includes/lodepng/lodepng.cpp:1717-1760 | A stored block: BFINAL in a byte of its own, LEN and its complement with the low byte first, then the bytes. |
| DeflateStream.HeadBits | common/includes/lodepng/lodepng.cpp:2104-2106 | The header of a block: the last one or not, then the type with its low bit first. |
| DeflateStream.DeflateNoCompression | common/includes/lodepng/lodepng.cpp:1718-1754 | For non-empty data the bytes inflate to the data, in blocks of at most 65535 bytes; for empty data nothing is written. |
| DeflateStream.DeflateBlock | common/includes/lodepng/lodepng.cpp:2177-2190 | One block more keeps the invariant of the stream: it reads as the input up to the end of the block. |
| DeflateStream.BlockCount | common/includes/lodepng/lodepng.cpp:2169-2171 | The blocks cover the input, and each but the last is full. |
| DeflateStream.Deflatev | common/includes/lodepng/lodepng.cpp:2147-2195 | For every setting the appended bytes inflate to the data, with error 0, exactly where the source neither leaves its buffers nor divides by zero; error 61 for an unknown type. The stream is one block for fixed codes, and for dynamic ones as many as the block size demands, all of the type that the settings name; stored blocks take 5 bytes more than their data. |
| DeflateStream.RoundTrip | common/includes/lodepng/lodepng.cpp:1314-2195 | Deflating and inflating gives back the data with error 0, for stored, fixed and dynamic, one block or many, wherever the source neither leaves its buffers nor divides by zero; a stored stream of nothing gives error 52. |
| Adler.SumsAppend | common/includes/lodepng/lodepng.cpp:2230-2248 | The checksum of a text in two parts: the second continues the first. |
| Adler.SumsOfByte | common/includes/lodepng/lodepng.cpp:2236-2242 | The sums of one byte, modulo 65521; with the law above they determine those of every text. |
| Adler.Deferred | common/includes/lodepng/lodepng.cpp:2238-2244 | Leaving out the modulus does not change the residues. |
| Adler.NoOverflow | common/includes/lodepng/lodepng.cpp:2236-2242 | In 5550 steps, from any 16-bit values, neither sum leaves 32 bits. |
| Adler.UpdateAdler32 | common/includes/lodepng/lodepng.cpp:2230-2248 | With the modulus once per 5550 bytes and all sums in 32 bits, the result is that of the modulus after every byte. |
| Adler.Adler32 | common/includes/lodepng/lodepng.cpp:2251-2253 | The checksum of RFC 1950, started from 1. |
| Filters.PaethPredictor | common/includes/lodepng/lodepng.cpp:4133-4144 | The predictor of the PNG specification, with its order of ties. |
| Filters.ShortcutIsPrediction | common/includes/lodepng/lodepng.cpp:4289-4347 | What the source computes in the first pixel and in the first line is the general prediction with zeros. |
| Filters.Reconstruction | common/includes/lodepng/lodepng.cpp:4274-4350 | The five equations of clause 9.2 of the PNG specification for a reconstructed byte, from the bytes to the left, above and to the upper left, 0 outside; the fourth one by distances. |
| Filters.Filtering | common/includes/lodepng/lodepng.cpp:5570-5650 | The five equations for a filtered byte. |
| Filters.UnfilterFilter | common/includes/lodepng/lodepng.cpp:4274-4352 | Unfiltering undoes filtering, for every line, line before, pixel width and type. |
| Filters.FilterUnfilter | common/includes/lodepng/lodepng.cpp:5570-5640 | Filtering undoes unfiltering. |
| Filters.FilterScanline | common/includes/lodepng/lodepng.cpp:5570-5640 | The filtered line is the specification's, and nothing else changes. |
| Filters.UnfilterScanline | common/includes/lodepng/lodepng.cpp:4274-4352 | The reconstructed line is the specification's, also when it is written over the filtered bytes; error 36 for an unknown type. |
| Filters.UnfilterImage | common/includes/lodepng/lodepng.cpp:4354-4391 | The image of all lines, or error 36, also when input and output are one buffer. |
| Filters.FilterImage | common/includes/lodepng/lodepng.cpp:5657-5840 | All lines, each behind its type; error 31 for pixels of no bits. |
| Filters.ImageRoundTrip | common/includes/lodepng/lodepng.cpp:4354-4391 | Unfiltering undoes filtering on whole images, for every choice of a type per line. |
| Filters.ReconstructedLine | common/includes/lodepng/lodepng.cpp:4354-4400 | Every line of a reconstructed image comes from its own filtered bytes and type and from the line above. |
| Filters.BadExact | common/includes/lodepng/lodepng.cpp:4354-4400 | There is no image exactly if some line has a type above 4. |
| Filters.FilteredLine | common/includes/lodepng/lodepng.cpp:5657-5715 | Every line of a filtered image is its type and its own filtered bytes, with the line above. |
| Filters.RoundTripInPlace | common/includes/lodepng/lodepng.cpp:4354-4391 | An image that is filtered into a buffer and unfiltered in that buffer comes back. |
| Adam7.CountIs | common/includes/lodepng/lodepng.cpp:4180-4187 | The rounded quotient is the number of rows or columns of a pass. |
| Adam7.InPassIs | common/includes/lodepng/lodepng.cpp:4180-4187 | A position is inside its reduced image exactly if its pixel is inside the image. |
| Adam7.SpotOfPixel | common/includes/lodepng/lodepng.cpp:4148-4187 | Every pixel has a position in a pass... |
| Adam7.SpotUnique | common/includes/lodepng/lodepng.cpp:4148-4187 | ... and only one: the passes are a bijection. |
| Adam7.AreasSum | common/includes/lodepng/lodepng.cpp:4180-4187 | The passes hold w * h pixels in all. |
| Adam7.FirstPasses | common/includes/lodepng/lodepng.cpp:4148-4151 | What clause 8.2 is for: a pixel lies in the first 1, 2, 3, 4, 5, 6 passes exactly if its row and its column are multiples of 8 and 8, 8 and 4, 4 and 4, 4 and 2, 2 and 2, 2 and 1. |
| Adam7.PassInOrder | common/includes/lodepng/lodepng.cpp:4148-4151 | Inside a pass the pixels keep the order of their rows and of their columns. |
| Adam7.EmptyPass | common/includes/lodepng/lodepng.cpp:4180-4187 | A pass without columns has no rows and the other way round; else its width and height count the columns and rows that it takes from the image. |
| Interlace.PlaceFits | common/includes/lodepng/lodepng.cpp:4404-4453 | Every pixel lies inside both buffers, in bytes and in bits. |
| Interlace.PlacesDisjoint | common/includes/lodepng/lodepng.cpp:4404-4453 | Different pixels do not overlap, in either buffer. |
| Interlace.PixelOfUnit | common/includes/lodepng/lodepng.cpp:4404-4453 | Every byte or bit of an image belongs to a pixel. |
| Interlace.PlaceIs | common/includes/lodepng/lodepng.cpp:4404-4450 | Where a pixel stands in either buffer: row by row, in the image or in the reduced image of its pass. |
| Interlace.InterlacedOrder | common/includes/lodepng/lodepng.cpp:5940-5990 | Earlier passes come first, and inside a pass the pixels in the order of the image. |
| Interlace.GetPassValues | common/includes/lodepng/lodepng.cpp:4168-4202 | Widths, heights and byte offsets of all passes; a pass without pixels has neither width nor height. |
| Interlace.SetBitOfReversedStream | common/includes/lodepng/lodepng.cpp:2566-2576 | Exactly one bit of the buffer changes, to the given value. |
| Interlace.SetBitOfReversedStream0 | common/includes/lodepng/lodepng.cpp:2554-2563 | The same where the bit is 0 before. |
| Interlace.ReadBitFromReversedStream | common/includes/lodepng/lodepng.cpp:2532-2539 | The bit at the pointer, most significant bit of every byte first. |
| Interlace.MovePixels | common/includes/lodepng/lodepng.cpp:4404-4453 | After all loops every pixel stands at its place, in either direction and at every depth. |
| Interlace.Adam7Interlace | common/includes/lodepng/lodepng.cpp:5940-5987 | Every pixel stands at its interlaced place. |
| Interlace.Adam7Deinterlace | common/includes/lodepng/lodepng.cpp:4404-4453 | Every pixel stands at its plain place, given an output of zeros for pixels smaller than a byte. |
| Interlace.DeinterlaceInterlace | common/includes/lodepng/lodepng.cpp:4404-4453 | An image that was interlaced and deinterlaced has its pixels back, byte by byte or bit by bit. |
| Interlace.RoundTrip | common/includes/lodepng/lodepng.cpp:4404-4453 | The two procedures one after the other give the image back, for every size and depth. |
| Cuckoo.CellUpdate | fpga-network-stack/hls/hash_table/hash_table.cpp:148-153 | Overwriting one cell exchanges, in the multiset of held pairs, what it held for what it now holds. |
| Cuckoo.HashTable.constructor | fpga-network-stack/hls/hash_table/hash_table.cpp:35-35 | Empty tables hold nothing. |
| Cuckoo.HashTable.LookupKey | fpga-network-stack/hls/hash_table/hash_table.cpp:57-89 | A hit exactly if the key is held, with the value in the last table that holds it; nothing changes. |
| Cuckoo.HashTable.RemoveKey | fpga-network-stack/hls/hash_table/hash_table.cpp:168-197 | Success exactly if the key was held; afterwards no entry has it, and all others stay. |
| Cuckoo.HashTable.Trial | fpga-network-stack/hls/hash_table/hash_table.cpp:118-157 | One trial: the entry goes into the last table with a free cell for it, or takes the place of the victim at its computed table, which is the next entry; no other cell changes, and every entry stands where its hash says. |
| Cuckoo.TrialsConserve | fpga-network-stack/hls/hash_table/hash_table.cpp:116-158 | For every chain of evictions: on success all old entries and the new one, on failure all but the last victim. |
| Cuckoo.HashTable.InsertPair | fpga-network-stack/hls/hash_table/hash_table.cpp:93-165 | On success the pair is added and nothing else changes; on failure exactly one pair is lost and the number of entries is unchanged. Tables and success are those of the chain of trials, and the failure counter wraps at 16 bits. |
| Cuckoo.HashTable.Run | fpga-network-stack/hls/hash_table/hash_table.cpp:200-234 | Any mix of operations: each reply and each next content is what the operation allows. |
| Cuckoo.StepRefines | fpga-network-stack/hls/hash_table/hash_table.cpp:57-197 | One operation on the tables is one on a finite map; a failed insertion costs exactly one key with its value. |
| Cuckoo.RunRefinesMap | fpga-network-stack/hls/hash_table/hash_table.cpp:57-234 | Over every run from empty tables in which only absent keys are inserted, the tables are a finite map, and every reply is the map's. |
| Cuckoo.MapAfterInsert | fpga-network-stack/hls/hash_table/hash_table.cpp:93-165 | After a successful insertion the pairs are those of a map if and only if the key was absent. |
| Cuckoo.MapAfterLoss | fpga-network-stack/hls/hash_table/hash_table.cpp:93-165 | After a failed one they are those of a map if and only if the key was absent or one of its two pairs is the one that was lost. |
| Cuckoo.MapAfterTrials | fpga-network-stack/hls/hash_table/hash_table.cpp:93-165 | From the tables before the call: they stand for a map afterwards if and only if the key was absent, or the chain of evictions fails and its last victim is a pair of that key. |
| Cuckoo.InsertIntoFree | fpga-network-stack/hls/hash_table/hash_table.cpp:118-136 | With a free cell the insertion ends in the last free table, and nothing else changes. |
| Cuckoo.LastFreeIs | fpga-network-stack/hls/hash_table/hash_table.cpp:118-136 | The table that takes the entry is free for the key, and all tables behind it are occupied. |
| Cuckoo.LastMatchIs | fpga-network-stack/hls/hash_table/hash_table.cpp:68-86 | The table that answers a lookup holds the key, and no table behind it does. |
| Cuckoo.OldValueSurvives | fpga-network-stack/hls/hash_table/hash_table.cpp:68-86 | A key that is held is inserted while a cell is free: a lookup answers with the new value exactly if the last free table is behind the last one that holds the key, and with the old one otherwise. |
| Psn.AckWindow | fpga-network-stack/hls/ib_transport_protocol/ib_transport_protocol.cpp:321-322 | The comparisons accept an acknowledgement exactly in the modular window from the oldest unacknowledged number to the last one sent. |
| Psn.DuplicateWindow | fpga-network-stack/hls/ib_transport_protocol/ib_transport_protocol.cpp:362-365 | The comparisons call a packet a duplicate exactly in the modular window before the expected number. |
| Psn.NothingOutstanding | fpga-network-stack/hls/ib_transport_protocol/ib_transport_protocol.cpp:321-322 | With nothing outstanding every number passes as an acknowledgement. |
| Psn.AckExact | fpga-network-stack/hls/ib_transport_protocol/ib_transport_protocol.cpp:321-322 | The window accepts exactly the numbers that were sent and not acknowledged if and only if there are any. |
| Psn.RequestVerdict | fpga-network-stack/hls/ib_transport_protocol/ib_transport_protocol.cpp:321-431 | A request is new exactly at the expected number, a duplicate exactly in the window, and otherwise invalid: exactly one of the three. |
| Psn.AckVerdict | fpga-network-stack/hls/ib_transport_protocol/ib_transport_protocol.cpp:321-431 | An acknowledgement is new exactly in its window. |
| RxIbh.Receiver.constructor | fpga-network-stack/hls/ib_transport_protocol/state_table.cpp:90-103 | After the setup the table agrees with the empty history. |
| RxIbh.Receiver.StateTable | fpga-network-stack/hls/ib_transport_protocol/state_table.cpp:49-89 | One step serves the receive side first, answers or changes exactly one entry, and keeps the table in agreement with the history. |
| RxIbh.Receiver.RxIbhFsm | fpga-network-stack/hls/ib_transport_protocol/ib_transport_protocol.cpp:291-437 | One step takes the next packet or judges the one at hand; verdict, acknowledgement, forwarding and drop decisions are those that the history demands. |
| RxIbh.Receiver.Handle | fpga-network-stack/hls/ib_transport_protocol/ib_transport_protocol.cpp:321-431 | The switch over the verdicts: acknowledgement, table update, decisions and count for every opcode. |
| RxIbh.Receiver.Run | fpga-network-stack/hls/ib_transport_protocol/ib_transport_protocol.cpp:264-437 | For every schedule of arrivals and steps, the history stays one of those that the rules allow, and grows. |
| RxIbh.Receiver.Settle | fpga-network-stack/hls/ib_transport_protocol/ib_transport_protocol.cpp:291-437 | No deadlock: when arrivals end, every packet that arrived is judged, once, in order. |
| RxIbh.LogNext | fpga-network-stack/hls/ib_transport_protocol/ib_transport_protocol.cpp:321-431 | The table's answer is right, so one packet more keeps the history genuine and the table in agreement. |
| RxIbh.GaplessChain | fpga-network-stack/hls/ib_transport_protocol/ib_transport_protocol.cpp:321-341 | For any arrivals with losses, repeats and reordering: accepted requests form a chain of numbers without a gap, from the number of the setup on, each starting where the packets of the one before end. |
| RxIbh.OneNakBetweenAccepted | fpga-network-stack/hls/ib_transport_protocol/ib_transport_protocol.cpp:402-431 | Between two negative acknowledgements of a queue pair a request is accepted. |
| RxIbh.RejectionIsAnswered | fpga-network-stack/hls/ib_transport_protocol/ib_transport_protocol.cpp:402-431 | Every rejected request is answered, by itself or by an earlier one since the last accepted request. |
| RxIbh.NakIsRejection | fpga-network-stack/hls/ib_transport_protocol/ib_transport_protocol.cpp:402-431 | A negative acknowledgement is only sent for a rejected request, and only if none was sent since the last accepted one. |
| RxIbh.CoveredAre | fpga-network-stack/hls/ib_transport_protocol/state_table.cpp:65-76 | The numbers of accepted packets are those that follow the number of the setup, as many as were accepted. |
| RxIbh.DuplicatesExact | fpga-network-stack/hls/ib_transport_protocol/ib_transport_protocol.cpp:362-365 | The window holds exactly the numbers of accepted packets if and only if fewer than 2^24 were accepted, or one less than a multiple of it. |
| RxIbh.WindowEmpty | fpga-network-stack/hls/ib_transport_protocol/ib_transport_protocol.cpp:362-365 | After 2^24 accepted packets every number was used and none is in the window. |
| RxIbh.ManyWrites | fpga-network-stack/hls/ib_transport_protocol/ib_transport_protocol.cpp:321-341 | There are histories with any number of accepted packets. |
| RxIbh.WindowBecomesEmpty | fpga-network-stack/hls/ib_transport_protocol/ib_transport_protocol.cpp:362-365 | So there is one after which every number was used and none is in the window. |
| RxIbh.DecisionsMatch | fpga-network-stack/hls/ib_transport_protocol/ib_transport_protocol.cpp:328-412 | The drop decisions match the packets with payload, in order, if and only if every read request is new. |
| RxIbh.ReadTakesTurn | fpga-network-stack/hls/ib_transport_protocol/ib_transport_protocol.cpp:328-412 | From every history that a run can have: a read with any number but the expected one, and then the expected write. The write is accepted and its payload gets the read's decision; it is dropped exactly if the read lies outside the window. |
| RxIbh.RepeatedReadMisleads | fpga-network-stack/hls/ib_transport_protocol/ib_transport_protocol.cpp:367-377 | A case of it that a run can have: a read, the same read again and a write. |
| RxIbh.AcceptedWriteDropped | fpga-network-stack/hls/ib_transport_protocol/ib_transport_protocol.cpp:402-412 | Another one: a read from the future and a write, which is accepted and loses its payload. |
| RxIbh.ResponseNext | fpga-network-stack/hls/ib_transport_protocol/ib_transport_protocol.cpp:321-341 | The request side of the table agrees with the history of responses: the next one is new exactly at the number after the last accepted one. |
| RxIbh.AckOfEntry | fpga-network-stack/hls/ib_transport_protocol/state_table.cpp:65-76 | Judged with the answer from an entry, as long as something is outstanding, an acknowledgement is new exactly if its number is one from the oldest unacknowledged one up to the one before the next request. |
| RxIbh.AckOfIdleEntry | fpga-network-stack/hls/ib_transport_protocol/state_table.cpp:65-76 | With nothing outstanding every acknowledgement is new. |
| RxIbh.AckExactInHistory | fpga-network-stack/hls/ib_transport_protocol/ib_transport_protocol.cpp:321-341 | The same in every history of a run, where the next request's number is one that the send side had when the table was read; a new one moves the oldest unacknowledged number behind it, also if it skips some. |
| RxIbh.Fate | fpga-network-stack/hls/ib_transport_protocol/ib_transport_protocol.cpp:321-431 | For every verdict: the acknowledgement, whether the header goes on, the decision on the packet, and the count. |
| RxIbh.NakNames | fpga-network-stack/hls/ib_transport_protocol/ib_transport_protocol.cpp:410-425 | A negative acknowledgement names the number behind the last accepted request. |
| RxIbh.DuplicateWasAccepted | fpga-network-stack/hls/ib_transport_protocol/ib_transport_protocol.cpp:362-365 | As long as fewer than 2^24 packets were accepted, a request with another number than the expected one is a duplicate exactly if it was accepted before. |
| TxIbh.Sender.MergeLocal | fpga-network-stack/hls/ib_transport_protocol/ib_transport_protocol.cpp:1774-1795 | A local event goes on with one packet, or for a read with ceil(length / PMTU) packets in 22 bits. |
| TxIbh.Sender.MetaMerger | fpga-network-stack/hls/ib_transport_protocol/ib_transport_protocol.cpp:1759-1795 | One step takes from the first input that has something, acknowledgements first, and feeds both outputs; each input keeps its order. |
| TxIbh.Sender.GenerateIbh | fpga-network-stack/hls/ib_transport_protocol/ib_transport_protocol.cpp:927-979 | One step takes a packet or numbers the one at hand, and keeps the table's next number in agreement with what was numbered. |
| TxIbh.Sender.TakePsn | fpga-network-stack/hls/ib_transport_protocol/ib_transport_protocol.cpp:954-977 | A request gets the table's number and moves it on by its packets; an acknowledgement gets the number before the expected one. |
| TxIbh.Sender.StateTable | fpga-network-stack/hls/ib_transport_protocol/state_table.cpp:78-89 | One step serves the send side. |
| TxIbh.Sender.Run | fpga-network-stack/hls/ib_transport_protocol/ib_transport_protocol.cpp:905-980 | For every schedule, also with changes by the receive side in between, headers are those that the order of the packets demands. |
| TxIbh.Sender.Settle | fpga-network-stack/hls/ib_transport_protocol/ib_transport_protocol.cpp:1744-1806 | No deadlock: everything that arrived leaves with a header, and the number in it is the one behind those of all local events before it on its queue pair, or the one that it came with. |
| TxIbh.HeadersAre | fpga-network-stack/hls/ib_transport_protocol/ib_transport_protocol.cpp:927-979 | A local event gets the number of the setup and behind it the numbers that the local events before it take; a read response and an acknowledgement with a number get that one. |
| TxIbh.FirstRequest | fpga-network-stack/hls/ib_transport_protocol/ib_transport_protocol.cpp:954-977 | The first request of a queue pair has the number of the setup. |
| TxIbh.NextRequest | fpga-network-stack/hls/ib_transport_protocol/ib_transport_protocol.cpp:1780-1784 | The next request of a queue pair has the number one further on behind a packet of a write, and behind a read as many further on as its answer has packets, in 22 bits. |
| TxIbh.SentIsChain | fpga-network-stack/hls/ib_transport_protocol/ib_transport_protocol.cpp:905-980 | For every run, the requests of a queue pair are numbered without a gap, from the number of the setup on. |
| TxIbh.ChainIsAccepted | fpga-network-stack/hls/ib_transport_protocol/ib_transport_protocol.cpp:321-341 | A receiver that gets a chain of requests in order takes each of them as new, whatever else arrives in between. |
| TxIbh.SentIsAccepted | fpga-network-stack/hls/ib_transport_protocol/ib_transport_protocol.cpp:321-341 | Both sides together: what one side numbered, the other accepts completely when nothing is lost or reordered, and both then expect the same number. |
| LocalReq.LocalReqHandler.Step | fpga-network-stack/hls/ib_transport_protocol/ib_transport_protocol.cpp:1605-1706 | One step gives at most one packet event, none only for a read that chases pointers; the events are the segments of the requests in order, a write asks the memory once for all its bytes, and a read leaves its local address. |
| LocalReq.LocalReqHandler.TakeRequest | fpga-network-stack/hls/ib_transport_protocol/ib_transport_protocol.cpp:1619-1682 | The first event of a request, or none for a read that chases pointers; every read leaves its local address. |
| LocalReq.LocalReqHandler.Generate | fpga-network-stack/hls/ib_transport_protocol/ib_transport_protocol.cpp:1684-1704 | The next event of a write. |
| LocalReq.SegmentsAre | fpga-network-stack/hls/ib_transport_protocol/ib_transport_protocol.cpp:1652-1704 | A write of length > 0 gives ceil(length / PMTU) packets: ONLY, or FIRST MIDDLE* LAST; each names where its bytes go, the first one the whole length, and the lengths are full but for the last. |
| LocalReq.ReadSegments | fpga-network-stack/hls/ib_transport_protocol/ib_transport_protocol.cpp:1633-1646 | A read is one packet, and one that chases pointers none. |
| RxExh.Responder.MsnTable | fpga-network-stack/hls/ib_transport_protocol/msn_table.cpp:50-63 | One step answers or changes exactly one entry. |
| RxExh.Responder.RxExhFsm | fpga-network-stack/hls/ib_transport_protocol/ib_transport_protocol.cpp:550-779 | One step of the packet at hand; no packet is lost, memory writes, acknowledgements and read requests are those of the packets carried out. With a packet that stalls it changes nothing. |
| RxExh.Responder.Act | fpga-network-stack/hls/ib_transport_protocol/ib_transport_protocol.cpp:596-775 | The switch over the opcodes: address, length and table update of every packet, in 32- and 64-bit arithmetic, and on which packets it stays. |
| RxExh.Responder.Run | fpga-network-stack/hls/ib_transport_protocol/ib_transport_protocol.cpp:516-779 | For every schedule of arrivals and steps, what has been sent on is what the packets carried out demand; once stuck, nothing more is. |
| RxExh.Responder.Settle | fpga-network-stack/hls/ib_transport_protocol/ib_transport_protocol.cpp:550-779 | When arrivals end, exactly the packets before the first one that stalls are carried out, in order: all of them if and only if none stalls. |
| RxExh.MessageNumber | fpga-network-stack/hls/ib_transport_protocol/ib_transport_protocol.cpp:596-775 | Message numbers count the packets of writes, the reads with bytes and the middle packets of answers. |
| RxExh.AddressLeft | fpga-network-stack/hls/ib_transport_protocol/ib_transport_protocol.cpp:635-752 | What the packets that go on, reads and responses write, and the address and remaining length that they leave. |
| RxExh.PartIsOneCommand | fpga-network-stack/hls/ib_transport_protocol/ib_transport_protocol.cpp:598-633 | A partial write is one command of its whole length on the custom route; a write's first packet is its payload at the named address, and leaves address and length of the rest. |
| RxExh.WireLengths | fpga-network-stack/hls/ib_transport_protocol/ib_transport_protocol.cpp:1088-1190 | The length of every packet on the wire is that of its headers, its payload and the checksum. |
| RxExh.OnlyOwnPackets | fpga-network-stack/hls/ib_transport_protocol/msn_table.cpp:50-63 | Packets of other queue pairs and acknowledgements change neither address nor writes of a queue pair. |
| RxExh.TilesCoverOnce | fpga-network-stack/hls/ib_transport_protocol/ib_transport_protocol.cpp:598-676 | Writes that lie one behind the other write every byte of the range exactly once, and no other. |
| RxExh.WriteTiles | fpga-network-stack/hls/ib_transport_protocol/ib_transport_protocol.cpp:598-676 | For every length > 0, the packets of a write make the responder write exactly the named range, piece behind piece, whatever the queue pair did before; the remaining length is 0 at the end. |
| RxExh.WriteArrives | fpga-network-stack/hls/ib_transport_protocol/ib_transport_protocol.cpp:598-676 | The same in the middle of any traffic of other queue pairs and of acknowledgements. |
| RxExh.SelectIsOwn | fpga-network-stack/hls/ib_transport_protocol/ib_transport_protocol.cpp:598-676 | What the packets of a queue pair write is what of the memory writes in the FIFO belongs to it, in order. |
| RxExh.WriteInMemory | fpga-network-stack/hls/ib_transport_protocol/ib_transport_protocol.cpp:598-676 | In the FIFO, the memory writes of a write's queue pair end with those of the write, and these cover its range. |
| RxExh.SettleWrite | fpga-network-stack/hls/ib_transport_protocol/ib_transport_protocol.cpp:550-779 | From arrival to memory: once the packets of a write have arrived and none stalls, the process ends with memory writes that cover its range. |
| RxExh.EmptyWriteStalls | fpga-network-stack/hls/ib_transport_protocol/ib_transport_protocol.cpp:598-633 | The packet that the requester sends for a write of no bytes stalls the responder. |
| RxExh.WritesPass | fpga-network-stack/hls/ib_transport_protocol/ib_transport_protocol.cpp:596-676 | The packets of a write all pass if and only if it has bytes. |
| Intruder.RestFrom | fpga-network-stack/hls/ib_transport_protocol/ib_transport_protocol.cpp:635-752 | Packets that go on, of a write or of an answer, are written from the address in the table, wherever that is, packet behind packet. |
| Intruder.AddressIs | fpga-network-stack/hls/ib_transport_protocol/ib_transport_protocol.cpp:596-752 | The address that every opcode leaves in the table. |
| Intruder.HarmlessIs | fpga-network-stack/hls/ib_transport_protocol/ib_transport_protocol.cpp:596-752 | A packet leaves the address alone if and only if its opcode and fields say so. |
| Intruder.CutAnywhere | fpga-network-stack/hls/ib_transport_protocol/ib_transport_protocol.cpp:596-752 | Wherever the packets that write a range are cut, the address in the table is where the rest of the range starts. |
| Intruder.Disturbed | fpga-network-stack/hls/ib_transport_protocol/ib_transport_protocol.cpp:596-752 | A packet of the queue pair at the cut: the rest is written from the address that it leaves, and the range is covered if and only if it is harmless. |
| WriteIntruder.IntruderExact | fpga-network-stack/hls/ib_transport_protocol/ib_transport_protocol.cpp:596-752 | For every write of several packets, every place in it and every packet of its queue pair put there: the rest is written from the address that packet leaves, and the write covers its range if and only if the packet is harmless. |
| ReadIntruder.IntruderExact | fpga-network-stack/hls/ib_transport_protocol/ib_transport_protocol.cpp:596-752 | The same for every answer to a read of several packets. |
| WriteIntruder.ResponseIntrudes | fpga-network-stack/hls/ib_transport_protocol/ib_transport_protocol.cpp:709-742 | A case of it: a read response between the two packets of a write. |
| ReadResponse.ReadRequestHandler.Step | fpga-network-stack/hls/ib_transport_protocol/ib_transport_protocol.cpp:852-900 | One step gives one packet event; the events are the packets of the requests in order, and the memory is asked once per request. |
| ReadResponse.ResponsesAre | fpga-network-stack/hls/ib_transport_protocol/ib_transport_protocol.cpp:837-900 | A read of length > 0 gives ceil(length / PMTU) packets with consecutive numbers; ONLY, or FIRST MIDDLE* LAST; all but the last are full, and the lengths add up to the request. |
| ReadResponse.CountFits | fpga-network-stack/hls/ib_transport_protocol/ib_transport_protocol.cpp:1780-1784 | The 22-bit count is ceil(length / PMTU) if and only if the length is at most 0x3F_FFFF packets. |
| ReadResponse.EveryLengthFits | fpga-network-stack/hls/ib_transport_protocol/ib_transport_protocol.cpp:167-170 | Every 32-bit length is counted if and only if packets have at least 1025 bytes. |
| ReadResponse.CountLost | fpga-network-stack/hls/ib_transport_protocol/ib_transport_protocol.cpp:1780-1784 | With packets of 1024 bytes there is a 32-bit length that counts as no packet. |
| ReadAccepted.ConsecutiveAreAccepted | fpga-network-stack/hls/ib_transport_protocol/ib_transport_protocol.cpp:321-341 | For every history: responses numbered on from the number that the requester waits for are all taken as new, whatever else arrives in between, and it then waits for the next one. |
| ReadAccepted.BothSidesCount | fpga-network-stack/hls/ib_transport_protocol/ib_transport_protocol.cpp:1780-1795 | The responses to a read, whose number is that of its header, are all taken as new, and afterwards the requester waits for exactly the number in the header of its next request if and only if the 24-bit packet count fits 22 bits, as for all lengths up to 0x3F_FFFF packets. |
| ReadArrival.OneResponse | fpga-network-stack/hls/ib_transport_protocol/ib_transport_protocol.cpp:709-752 | A response packet is written at the local address or where the one before ended, with its payload's length. |
| ReadArrival.ResponseLengths | fpga-network-stack/hls/ib_transport_protocol/ib_transport_protocol.cpp:1284-1298 | The same for responses, whose middle packets have no extension header. |
| ReadArrival.ReadTiles | fpga-network-stack/hls/ib_transport_protocol/ib_transport_protocol.cpp:709-752 | For every length > 0, the responses to a read are written one behind the other and cover exactly the local range. |
| ReadArrival.ReadArrives | fpga-network-stack/hls/ib_transport_protocol/ib_transport_protocol.cpp:709-752 | The same in the middle of any traffic of other queue pairs and of acknowledgements. |
| ReadArrival.ReadInMemory | fpga-network-stack/hls/ib_transport_protocol/ib_transport_protocol.cpp:709-752 | In the FIFO, the memory writes of the reader's queue pair end with those of the read, and these cover its range. |
| ReadQueue.QueueIsReads | fpga-network-stack/hls/ib_transport_protocol/ib_transport_protocol.cpp:1619-1650 | The addresses left for a queue pair are the local addresses of all its reads, in order. |
| ReadQueue.PassingIsServed | fpga-network-stack/hls/ib_transport_protocol/ib_transport_protocol.cpp:678-707 | What the other side answers of all that was sent: exactly the reads with bytes before the first empty write, in order. |
| ReadQueue.AllPopped | fpga-network-stack/hls/ib_transport_protocol/ib_transport_protocol.cpp:563-568 | Answers take one address each, with their first packet, in order, whatever comes between them. |
| ReadQueue.AnswersTile | fpga-network-stack/hls/ib_transport_protocol/ib_transport_protocol.cpp:709-752 | Every answer is written to the address that it took and covers a range of its length from there, whatever comes between them. |
| ReadQueue.AnswersExact | fpga-network-stack/hls/ib_transport_protocol/ib_transport_protocol.cpp:709-752 | From the requests to the memory: answer i is written to the address of the i-th read that was requested. So all answers reach the ranges that their own reads named if and only if these addresses are those of the reads that are answered. |
| ReadQueue.NoneSkipped | fpga-network-stack/hls/ib_transport_protocol/ib_transport_protocol.cpp:1633-1650 | When no read without an answer comes before one with, the reads that are answered are the first reads. |
| ReadQueue.EmptyReadShifts | fpga-network-stack/hls/ib_transport_protocol/ib_transport_protocol.cpp:686-693 | A read of no bytes, and one of 64: the answer to the second is written to the address of the first. |
| Delivery.ForwardedArePassedOn | fpga-network-stack/hls/ib_transport_protocol/ib_transport_protocol.cpp:328-377 | The packets that reach the responder are those whose headers the sequence check passes on, in order. |
| Delivery.AllGoOn | fpga-network-stack/hls/ib_transport_protocol/ib_transport_protocol.cpp:321-341 | Where every request is new, all packets of the queue pair go on. |
| Delivery.EventsAreRequests | fpga-network-stack/hls/ib_transport_protocol/ib_transport_protocol.cpp:1605-1706 | The packet events of a queue pair are the segments of its own requests, in order. |
| Delivery.RequestsDone | fpga-network-stack/hls/ib_transport_protocol/ib_transport_protocol.cpp:596-752 | The packets of a queue pair's requests, with whatever numbers, write every write to its range, one request after the other. |
| Delivery.SentIsInMemory | fpga-network-stack/hls/ib_transport_protocol/ib_transport_protocol.cpp:516-779 | From one side's requests through numbering, sequence check and responder: what it sent for a queue pair is in the other side's memory, every write complete and in order, when nothing is lost or reordered. |
| PkgArbiter.Arbiter.Step | fpga-network-stack/hls/ib_transport_protocol/ib_transport_protocol.cpp:2074-2214 | One step; what was sent is the announced bursts cut into packets, word by word, on the route that the place in the burst demands, whenever words and announcements arrive. |
| PkgArbiter.Arbiter.Settle | fpga-network-stack/hls/ib_transport_protocol/ib_transport_protocol.cpp:2146-2214 | Once all words have arrived every burst is sent to its end, and no word is lost. |
| PkgArbiter.Arbiter.SendOn | fpga-network-stack/hls/ib_transport_protocol/ib_transport_protocol.cpp:2146-2214 | The word at hand: where it goes, whether it ends a packet, and the next state, in the widths of the counters. |
| PkgArbiter.CutWord | fpga-network-stack/hls/ib_transport_protocol/ib_transport_protocol.cpp:2146-2214 | Each word is sent with its data; a packet ends behind every PMTU_WORDS words and behind the last one, and goes raw exactly if it is neither the first nor the last. |
| PkgArbiter.CeilCeil | fpga-network-stack/hls/ib_transport_protocol/ib_transport_protocol.cpp:2146-2214 | Counting words and then packets of words is counting packets of bytes. |
| PkgArbiter.CutsMatchEvents | fpga-network-stack/hls/ib_transport_protocol/ib_transport_protocol.cpp:2146-2214 | The burst of a read is cut into as many packets as there are events, and each word goes the way that its event's opcode demands: MIDDLE raw, the others to the header stage. |
| AxiShift.LeftShifter.Step | fpga-network-stack/hls/axi_utils.hpp:564-631 | One call; the words sent, and the remainder if one is due, are the shifted stream of the words taken, for every pattern of stalls. |
| AxiShift.RightShifter.Step | fpga-network-stack/hls/axi_utils.hpp:489-560 | The same for the right shift. |
| AxiShift.LeftShiftBytes | fpga-network-stack/hls/axi_utils.hpp:564-631 | Left shift puts offset filler bytes in front of a packet and changes none of its bytes. |
| AxiShift.LeftShiftPacket | fpga-network-stack/hls/axi_utils.hpp:564-631 | The shifted packet is well-formed and one packet. |
| AxiShift.LeftShiftWhole | fpga-network-stack/hls/axi_utils.hpp:564-631 | A packet from its start: offset zeros, then its bytes. |
| AxiShift.RightShiftWhole | fpga-network-stack/hls/axi_utils.hpp:489-560 | Right shift takes the first offset bytes of a packet away and changes none of the others. |
| AxiShift.RightAfterLeft | fpga-network-stack/hls/axi_utils.hpp:489-631 | Right after left by the same offset is the identity on streams of well-formed packets, for every word size and offset below it. |
| AxiShift.RightInParts | fpga-network-stack/hls/axi_utils.hpp:489-560 | Packets are shifted one by one: nothing goes from one to the next. |
| AxiShift.ShiftThereAndBack | fpga-network-stack/hls/axi_utils.hpp:489-631 | A left shifter feeding a right shifter gives back every stream of packets, for every schedule of arrivals, hand-overs and steps. |
| AxiWidth.Widener.Step | fpga-network-stack/hls/axi_utils.hpp:316-343 | One call; the wide words written hold the words taken, D each or fewer at the end of a packet, and the others wait. |
| AxiWidth.Narrower.Step | fpga-network-stack/hls/axi_utils.hpp:346-406 | One call; what was written is the parts of the wide words taken, less those still to come. |
| AxiWidth.PackedBytes | fpga-network-stack/hls/axi_utils.hpp:316-343 | A wide word holds the bytes of its words in order, and ends a packet where the last of them does. |
| AxiWidth.PartsOfPacked | fpga-network-stack/hls/axi_utils.hpp:346-406 | Unpacking a wide word gives the words that were packed, with data, keep and last. |
| AxiWidth.NarrowAfterWide | fpga-network-stack/hls/axi_utils.hpp:316-406 | Narrowing what was widened gives back the stream. |
| AxiWidth.WidenAndNarrow | fpga-network-stack/hls/axi_utils.hpp:316-406 | A widener feeding a narrower gives back every stream of packets exactly, for every schedule of arrivals, hand-overs and steps. |

## Left out

- Lz77.EncodeLZ77: states what the tokens mean, not how short they are.
- Lz77.GetHash: only states that the value is in range; the chain is right for any hash.
- Inflater.Inflatev: says nothing about inputs on which the source reads behind its buffer, or whose codes are incomplete or oversubscribed (the value Undef of the specification): the source then walks a table that is no tree.
- HuffmanTable.Make2DTree: says what the table is for complete prefix codes only, for the same reason.
- CodeLengths.HuffmanCodeLengths: the weights of coins are exact naturals and not floats, so rounding of weights is not modelled; there are at most as many symbols as words of maxbitlen bits.
- DeflateStream.Deflatev: sizes are below 2^32, as the source's unsigned sums need, and the window has 1 to 32768 bytes, as its settings demand.
- DeflateStream.RoundTrip: the same sizes and windows.
- Huffman.MakeFromLengths2: for an incomplete code only the sizes and the words are stated.
- InflateSpec.ReadClCode: an incomplete code for the code lengths is left undefined.
- Inflater.GetTreeInflateDynamic: says nothing for incomplete codes, like Inflatev.
- Filters.UnfilterImage: the line size w * bpp + 7 fits 32 bits, as in the source.
- Filters.FilterImage: models the strategy with given types per line; the strategies that choose types only differ in the choice, and the round trip is proved for every choice.
- Filters.FilterScanline: one loop that chooses the predictor per byte, instead of a loop per case of type, first line and first pixel.
- Interlace.MovePixels: one loop nest for both directions and both depths, instead of four copies of it.
- Interlace.GetPassValues: without the byte offsets of the filtered and padded passes, which only serve the padding around the round trip; images of up to 2^32 bits.
- Cuckoo.HashTable.constructor: the tabulation hashes are an arbitrary function into the addresses; the victim's index depends on the hash as in the source.
- Cuckoo.RunRefinesMap: insertions of keys that are present are excluded, because the tables are then no map (MapAfterInsert).
- RxIbh.Receiver.StateTable: requests to set up a queue pair are left out.
- RxIbh.Receiver.Run: all queue pairs are set up before the run; a setup during a run is not modelled.
- TxIbh.Sender.Run: the receive side appears as arbitrary changes of the entries that leave the next number alone, which is all that it writes; an acknowledgement without a number gets one that depends on these changes.
- TxIbh.Sender.MetaMerger: the request for the connection data, which only looks up addresses, is left out, and so is the path of retransmitted events.
- RxExh.Responder.RxExhFsm: as it is where reads that chase pointers are not compiled in; the FIFOs that steer the payload through split and shift are left out.
- ReadArrival.ReadTiles: the local address is a parameter here; ReadQueue.AnswersExact connects it with the queue.
- ReadArrival.ReadArrives: the same.
- ReadArrival.ReadInMemory: the same.
- LocalReq.LocalReqHandler.TakeRequest: as it is where pointer chasing is not compiled in, like the responder.
- ReadQueue.AnswersExact: both sides use the same number for a queue pair, as the connection table is not modelled; answers to one queue pair arrive in the order of its reads.
- Delivery.SentIsInMemory: the queue pair gets requests only, so that no answer moves the address of a write in progress; that case is WriteIntruder.IntruderExact.
- PkgArbiter.Arbiter.Step: models bursts from memory that answer reads; the paths for writes and for streams, and the raw state on a burst of exactly one packet of a write, are left out.
- AxiShift.RightShifter.Step: models words without a destination; the routed form copies a destination from a word it has not read.
- Retransmission and its timer, which are compiled out, and the packet atomicity of fair_pkg_merger, which does not hold as written.
- PNG chunks, colour conversion, file input and output, failing allocations, and the filter strategies' scores: they would only add easy members.
- Host programs, logging, DHCP, ARP, the echo server and frame padding.
- Pipeline timing, FIFO depths and hardware bits outside the keep flags.
- The hash functions' tables, the connection table and the configuration header of the packet size: the packet size is a parameter.
