# Proofs about the base library

A Dafny model of the parts of the library that are algorithms rather than wrappers, with proofs
of what they promise.  One module per component:

- **HttpBody, HttpBodyLaws**: the resumable body decoder of the HTTP parser.  A machine that takes
  one byte at a time is the specification; the class with bulk copies, marks and buffer ends
  refines it.  The central law is that cutting a body into calls does not change what is parsed.
  It holds exactly as long as no call but the last ends too far inside a chunk-size line, since the
  overflow of header bytes is looked at only at the end of a buffer.
- **HttpBodyLines**: which size lines are taken and which are refused, on the bytes alone.
- **HttpBodySplits**: the condition on cuts, on the bytes of an encoded stream alone.
- **HttpUrl, HttpUrlGrammar, UrlCharacters**: the URL splitter, two chained character machines that
  give ranges of fields.  They are measured against a grammar with character sets of its own: what
  is accepted, with a schema, without one, or for CONNECT, is exactly what belongs to it.
- **Heap, TopN**: the bounded priority container with its three states and spare slot.  It holds
  the best of all that was pushed.
- **DistributionSampler**: the alias table, over exact reals.  Each item is drawn with exactly its
  share.
- **ExactUniform, WeightedPicker**: rejection sampling and the binary tree of sums.  Every element
  is picked by a number of draws proportional to its weight, and exactly how many is stated.
- **Path, PathForms**: the in-place path cleaner against a stack of components, and what that gives
  without the stack: the one clean path with the same meaning.
- **Crc32c, Crc32cVectors**: slicing by four against division of polynomials over GF(2), the terms
  of the divisor, and the vectors of RFC 3720.
- **Coding, FileCursor, InputBuffer, BufferedInputStream**: varints, and the two read-ahead caches
  against a bare position in a file.
- **Leveldb**: the index of the log database against the stored map and against a restart.
- **Arena**: the block allocator.  What it gives out is aligned and apart.
- **RefCounted**: the two-step Unref under every interleaving, and the handles.
- **Histogram, CEscape, Numbers**: percentiles over exact reals, the C escaping pair, and printing
  and parsing of integers.
- **Arithmetic, BinaryDigits, Bytes, Digits, Options**: what several of them share.

## Where the code and its promises part

- A body cut inside a chunk-size line of more than 80 KB fails in two calls and not in one
  (`HttpBodyLaws.LongExtensionExists`).  The exact conditions are `HttpBodySplits.EncodedSplit`, for
  one way to cut an encoded stream, and `HttpBodySplits.EverySplitAgrees`, for all.
- Bytes from 128 on pass for the digit 0 in a chunk size (`HttpBodyLines.HighBytePasses`; exactly when
  a line that is taken is none by the RFC is `HttpBodyLines.HighBytesPass`), and the two bytes behind
  the data of a chunk are not looked at (`HttpBodyLaws.DataEnd`).
- `InputBuffer::ReadVarint32` on five continuation bytes says OUT_OF_RANGE without moving if they
  are buffered, and DATA_LOSS after consuming them if not (`InputBuffer.BufferingShows`).
- `ReadLine` of both readers on a last line of carriage returns alone consumes it and says
  OUT_OF_RANGE, though the file was not at its end (`FileCursor.LoneReturnIsRefused`); exactly when is
  `FileCursor.RefusedLine`.
- `LeveldbDatabase` accepts a negative sequence number and stores it under the key of 0, after which
  it cannot be opened again (`Leveldb.NegativeNumberIsFatal`, `Leveldb.KeyRoundTrip`), unless an entry
  0 was there before; for whole runs of writes see `Leveldb.WriteAndRestart`.
- `Arena::GetMemory` asserts that no more remains than a block holds; a new block that is rounded
  up to its alignment breaks that (`Arena.RunIntoAssertion`; `Arena.Fits` is the condition under
  which `Arena.ServeAll` shows it safe).
- `http_parser_parse_url` lets strtoul read on behind the buffer (`HttpUrlGrammar.PortReadsOn`; exactly
  when it shows is `HttpUrl.PortIsItsRange`), and takes several `#` before a fragment.
- `CUnescape` sees a hexadecimal escape only modulo 2^32 (`CEscape.HexCheckIsRight`).
- Moving a const `scoped_refptr` copies it: the overload for const rvalues keeps the argument's
  reference (`RefCounted.ScopedRefptr.MoveAssignConst`).  An ordinary move gives it up
  (`RefCounted.ScopedRefptr.MoveAssign`).

## Model

| member | source | states |
|---|---|---|
| HttpBody.StepKeepsValid | base/http/http_parser.cc:1845-2010 | One byte in a body or chunk state keeps content_length within 0..INT64_MAX and positive where bytes of the body are owed |
| HttpBody.RunKeepsValid | base/http/http_parser.cc:1845-2010 | So does a whole run, whatever the bytes |
| HttpBody.RunConcat | base/http/http_parser.cc:1845-2010 | A run over two strings is the run over the first and then, if it was consumed, over the second |
| HttpBody.BulkStep | base/http/http_parser.cc:1845-1884 | Copying n bytes of a body at once is n steps of the one-byte machine: same state, bytes owed, notifications |
| HttpBody.BulkJump | base/http/http_parser.cc:1849-1878 | The jump p += to_read - 1 leaves the run over the rest of the buffer what it was byte by byte |
| HttpBody.HttpParser.BodyRound | base/http/http_parser.cc:1845-1884 | One visit to s_body_identity, s_chunk_data or s_body_identity_eof, with its bulk copy and mark, equals the bytewise run up to there |
| HttpBody.HttpParser.SizeRound | base/http/http_parser.cc:1897-1941 | One byte of a chunk size: hexadecimal value accumulated, or the error for a bad digit or a size above INT64_MAX |
| HttpBody.HttpParser.Scan | base/http/http_parser.cc:645-2016 | The whole loop over a buffer equals the bytewise run from the old state |
| HttpBody.HttpParser.Finish | base/http/http_parser.cc:2018-2060 | After the loop: nread and the check for header overflow, and the pending body mark delivered |
| HttpBody.HttpParser.Execute | base/http/http_parser.cc:569-615 | http_parser_execute: new state, bytes consumed and notifications are those of the bytewise machine with the end-of-buffer check; the error and the empty-buffer cases exactly |
| HttpBodyLaws.TwoCallsAreOne | base/http/http_parser.cc:2018-2033 | Two calls give what one call on the joined buffer gives, when the first does not end in a header overflow |
| HttpBodyLaws.SplitInvariance | base/http/http_parser.cc:1845-2033 | For any split of any bytes into non-empty pieces the outcome (state, notifications, count consumed) is that of one call if and only if no merged prefix ends in an overflow |
| HttpBodyLaws.QuietMeans | base/http/http_parser.cc:2018-2033 | Those prefixes, cut by cut: what comes before each cut, run in one call from the start |
| HttpBodyLaws.LongExtension | base/http/http_parser.cc:2018-2033 | The failing family: a size line with a long extension, cut at its CR, overflows in two calls and not in one |
| HttpBodyLaws.LongExtensionExists | base/http/http_parser.cc:2018-2033 | A concrete body on which a split changes the outcome |
| HttpBodyLaws.SizeDigits | base/http/http_parser.cc:1912-1941 | Any digits of a chunk size are read as their value if that is at most INT64_MAX and refused as HPE_HUGE_CHUNK_SIZE exactly otherwise |
| HttpBodyLaws.DataEnd | base/http/http_parser.cc:1995-2010 | Any two bytes behind the data of a chunk end it |
| HttpBodyLines.BadDigitIsRefused | base/http/http_parser.cc:1897-1930 | Behind digits of a value up to INT64_MAX, or none, a byte that is no digit stops the run there with HPE_INVALID_CHUNK_SIZE, unless there was a digit and it is CR, ; or a space |
| HttpBodyLines.LineDecided | base/http/http_parser.cc:1897-1972 | Every line of any bytes up to its CR, with the byte behind it: too large, refused at the first byte that may not stand there, or taken as a chunk of its value |
| HttpBodyLines.TakenLinesAreLines | base/http/http_parser.cc:1897-1972 | A line without bytes from 128 on is taken as a chunk of n if and only if it is a size line of value n by section 3.6.1 of RFC 2616, n at most INT64_MAX |
| HttpBodyLines.HighBytesPass | base/http/http_parser.cc:191-200 | A line that is taken is one by the RFC if and only if none of its digits is a byte from 128 on |
| HttpBodyLines.HighBytePasses | base/http/http_parser.cc:191-200 | The bytes 49 and 200 are taken as the size 16 |
| HttpBodyLines.HeaderLimit | base/http/http_parser.cc:2018-2033 | A call that ends in the extension of a size line overflows if and only if more than 81920 bytes are counted, modulo 2^32 |
| HttpBodyLaws.ChunkedRoundTrip | base/http/http_parser.cc:1897-2010 | Every list of non-empty chunks encoded after section 3.6.1 of RFC 2616 is decoded to its chunk notifications and payload, and the parser waits for the trailer |
| HttpBodySplits.CountAt | base/http/http_parser.cc:1897-2010 | At every position of an encoded stream the decoder has consumed what comes before without an error, and its header count is told by the bytes: those of the size line it is in, with what was counted before |
| HttpBodySplits.NoisyAt | base/http/http_parser.cc:2018-2033 | A call that ends at a position of the stream overflows if and only if that count, modulo 2^32, is above HTTP_MAX_HEADER_SIZE |
| HttpBodySplits.EncodedSplit | base/http/http_parser.cc:1845-2033 | One way to cut an encoded stream agrees with one call if and only if no cut lies more than HTTP_MAX_HEADER_SIZE counted bytes into a size line |
| HttpBodySplits.EverySplitAgrees | base/http/http_parser.cc:1845-2033 | Every way to cut it agrees with one call if and only if every size line, with the count before it, stays within HTTP_MAX_HEADER_SIZE up to its last byte |
| HttpBodySplits.EveryIdentitySplitAgrees | base/http/http_parser.cc:1845-1884 | A body that is not chunked agrees however it is cut |
| HttpBodySplits.ChunkedStreamDelivered | base/http/http_parser.cc:1897-2010 | However a stream with such lines is cut, the payload is delivered whole and in order and the parser waits for the trailer, with an error exactly if the last line has passed the limit |
| HttpBodySplits.IdentityDelivered | base/http/http_parser.cc:1845-1884 | However a body of known length, or a part of it, is cut, it is delivered byte for byte, and the message is complete exactly with its last byte |
| HttpBodySplits.UntilEofDelivered | base/http/http_parser.cc:1880-1884 | So is a body that goes to the end of the stream |
| HttpBodySplits.NoBodyDelivered | base/http/http_parser.cc:1886-1895 | Without a body the message is complete with the next byte |
| Heap.PushHeap | base/gtl/top_n.h:222-227 | std::push_heap written as a sift-up: a heap of the same elements |
| Heap.PopHeap | base/gtl/top_n.h:214-227 | std::pop_heap written as a sift-down: the front last, a heap of the others |
| Heap.SiftDown | base/gtl/top_n.h:214-219 | A sift-down extends a heap by its root and permutes |
| Heap.MakeHeap | base/gtl/top_n.h:214-219 | std::make_heap: a heap of the same elements |
| Heap.SortHeap | base/gtl/top_n.h:288-296 | std::sort_heap: sorted, and a permutation |
| Heap.FrontIsLast | base/gtl/top_n.h:200-231 | No element of a heap comes after its front in the comparator's order |
| TopN.TopN.PushFlat | base/gtl/top_n.h:200-220 | A push while not heap sorted: appended below the limit; at the limit the heap is made, the candidate placed and the worst returned |
| TopN.TopN.PushFull | base/gtl/top_n.h:221-231 | A push into the heap with the junk slot: what leaves is the worst of the held and the new |
| TopN.TopN.Push | base/gtl/top_n.h:193-231 | Held and dropped together are all that was pushed; something is dropped exactly when the container is full |
| TopN.TopN.PeekBottom | base/gtl/top_n.h:233-253 | The worst held element, in every state, held elements unchanged |
| TopN.TopN.Extract | base/gtl/top_n.h:255-266 | Sorted, the held elements, and place by place equivalent to the best of everything pushed |
| TopN.TopN.ExtractUnsorted | base/gtl/top_n.h:268-277 | Exactly the held elements, without the junk slot |
| TopN.TopN.ExtractNondestructive | base/gtl/top_n.h:286-296 | Sorted, the held elements, equivalent to the best pushed; the container is unchanged |
| TopN.TopN.ExtractUnsortedNondestructive | base/gtl/top_n.h:305-313 | Exactly the held elements |
| TopN.TopN.Reset | base/gtl/top_n.h:315-320 | An empty container again |
| TopN.SelectionGrows | base/gtl/top_n.h:200-213 | Below the limit a push keeps the selection: held are all pushed |
| TopN.SelectionTurns | base/gtl/top_n.h:214-231 | At the limit, dropping a worst element keeps: no dropped element is better than a held one |
| TopN.SelectionIsBest | base/gtl/top_n.h:255-296 | A sorted selection is, up to equivalence, the first min(pushed, limit) of a sort of everything pushed |
| TopN.PlaceIsBest | base/gtl/top_n.h:255-296 | Place by place: the i-th held and the i-th best are equivalent |
| DistributionSampler.DistributionSampler.constructor | base/random/distribution_sampler.cc:9-76 | For non-negative weights with positive sum, a table that realises the weights |
| DistributionSampler.DistributionSampler.Classify | base/random/distribution_sampler.cc:30-39 | Scaled weights on the stacks high and low: at least 1 and below 1 |
| DistributionSampler.DistributionSampler.PairOne | base/random/distribution_sampler.cc:42-58 | One round: the last low column is filled from the last high one |
| DistributionSampler.DistributionSampler.PairUp | base/random/distribution_sampler.cc:42-58 | The pairing loop ends, low is empty, and every item still has its mass |
| DistributionSampler.RoundKeepsMasses | base/random/distribution_sampler.cc:42-58 | A round conserves the probability mass of every item |
| DistributionSampler.PairingRound | base/random/distribution_sampler.cc:42-58 | A round keeps the invariant: masses, stacks and alternatives |
| DistributionSampler.PairingEnds | base/random/distribution_sampler.cc:60-76 | When a stack runs out low is empty and all of high is exactly 1 |
| DistributionSampler.FinishedRealises | base/random/distribution_sampler.cc:60-76 | The finished table gives every item n times its weight over the sum, with alternatives in range |
| DistributionSampler.DistributionSampler.Sample | base/random/distribution_sampler.h:36-44 | The item of a draw: its column's part of [0, 1) or its alternative's, and always in range |
| DistributionSampler.ProbabilityIsShare | base/random/distribution_sampler.h:36-44 | Over a uniform column and a uniform r, the measure of the draws that give item i is its share of the table |
| DistributionSampler.SamplingIsExact | base/random/distribution_sampler.h:25-44 | That measure is exactly weight over sum of weights |
| ExactUniform.ExactUniformInt | base/random/exact_uniform_int.h:12-63 | The first draw that is not rejected, reduced to 0..n; every earlier draw was a rejected one |
| ExactUniform.DrawsAreFair | base/random/exact_uniform_int.h:20-61 | Of the 2^bits draws exactly q * (b - a) give a value in a..b, q being floor((2^bits - 1) / n), or 2^bits / n for a power of two |
| ExactUniform.OthersDoNotDivide | base/random/exact_uniform_int.h:31-33 | Only powers of two divide 2^bits: rem is never n |
| ExactUniform.RejectsLessThanOneRound | base/random/exact_uniform_int.h:26-36 | Fewer than n draws are rejected |
| ExactUniform.DrawGives | base/random/exact_uniform_int.h:20-61 | A draw that is taken is a multiple of n and its value below n |
| ExactUniform.DrawsTaken | base/random/exact_uniform_int.h:26-61 | The draws taken are exactly the last q * n |
| BinaryDigits.MaskTest | base/random/exact_uniform_int.h:21 | n & (n - 1) is 0 exactly for powers of two |
| BinaryDigits.Masked | base/random/exact_uniform_int.h:23 | For a power of two, & (n - 1) is the remainder by n |
| WeightedPicker.WeightedPicker.constructor | base/random/weighted_picker.cc:11-28 | Levels enough for N, every weight 1, a tree of sums |
| WeightedPicker.WeightedPicker.SetWeight | base/random/weighted_picker.cc:118-128 | One weight changed and no other; every node is still the sum of its children |
| WeightedPicker.AddFromLeaf | base/random/weighted_picker.cc:122-128 | Adding a difference along the path to the root makes the tree of the changed leaves |
| WeightedPicker.WeightedPicker.RebuildTreeWeights | base/random/weighted_picker.cc:152-160 | Every inner node becomes the sum of its children, the leaves stay |
| WeightedPicker.WeightedPicker.SetAllWeights | base/random/weighted_picker.cc:130-138 | Every weight as given, those beyond N zero, a tree of sums |
| WeightedPicker.WeightedPicker.SetWeightsFromArray | base/random/weighted_picker.cc:140-150 | The weights of the array, resized |
| WeightedPicker.WeightedPicker.Append | base/random/weighted_picker.cc:162-165 | The old weights and one more |
| WeightedPicker.WeightedPicker.Resize | base/random/weighted_picker.cc:167-200 | Surviving weights stay, new ones are zero, in place or in a larger tree |
| WeightedPicker.RootIsSum | base/random/weighted_picker.cc:85-92 | Every level sums to the root |
| WeightedPicker.WeightedPicker.PickAt | base/random/weighted_picker.cc:94-116 | The element whose stretch of the prefix sums holds the index; -1 outside the total |
| WeightedPicker.CoversOnce | base/random/weighted_picker.cc:94-116 | That element is the only one |
| WeightedPicker.WeightedPicker.Pick | base/random/weighted_picker.cc:37-92 | -1 for a zero total; otherwise the element that the first accepted draw picks |
| WeightedPicker.PickIsFair | base/random/weighted_picker.cc:37-116 | Exactly w_i * q of the 2^bits draws pick element i, q as for the total of the weights |
| Path.CleanPath | base/io/path.cc:92-171 | The in-place rewrite equals the component-stack normaliser on the text up to its first NUL |
| Path.Round | base/io/path.cc:106-157 | One component: both cursors keep their places, the written part is the stack's rendering |
| Path.Backtrack | base/io/path.cc:124-140 | Going back over the last component written pops it from the stack |
| Path.FoldIsNormal | base/io/path.cc:92-171 | No "." or empty component is left, and ".." only at the front of a relative path |
| Path.SplitJoin | base/io/path.cc:92-171 | Splitting a rendered stack gives the stack back |
| Path.CleanIsIdempotent | base/io/path.cc:92-171 | Cleaning a clean path changes nothing |
| Path.CleanKeepsMeaning | base/io/path.cc:92-171 | A path and its clean form lead to the same place from every directory |
| PathForms.OneCleanForm | base/io/path.h:52-59 | The clean path is the one and only path in clean form that leads where the given one leads, from every directory: t is CleanPath(s) if and only if t is in clean form and resolves as s does |
| PathForms.JoinSplit | base/io/path.cc:92-171 | Joining undoes splitting, for every text |
| PathForms.WalkNormal | base/io/path.cc:92-171 | A clean stack leads up by its ".." components and then down the others |
| Crc32c.Extend | base/hash/crc32c.cc:194-241 | For every address and length the CRC32C of section 12.1 of RFC 3720, bit by bit |
| Crc32c.BitsLinear | base/hash/crc32c.cc:201-212 | The bitwise step is linear over xor |
| Crc32c.Step1IsByte | base/hash/crc32c.cc:200-204 | STEP1 is eight bitwise steps |
| Crc32c.TablesAreBits | base/hash/crc32c.cc:206-212 | The four tables together are 32 bitwise steps of a word |
| Crc32c.Step4IsFourBytes | base/hash/crc32c.cc:206-212 | STEP4 is four STEP1s |
| Crc32c.ChecksumConcat | base/hash/crc32c.h:10-15 | Extending by two strings is extending by their concatenation |
| Crc32c.StepsDivide | base/hash/crc32c.cc:194-241 | n bit steps are a division by the polynomial: the number plus a carry-less multiple of the polynomial is the register, shifted up n digits |
| Crc32c.CrcIsRemainder | base/hash/crc32c.cc:194-241 | The checksum is the remainder of the message, less than 2^32, after division by the polynomial of degree 32 |
| Crc32c.CollisionsAre | base/hash/crc32c.cc:194-241 | Two messages of one length collide exactly when their difference is a carry-less multiple of the polynomial |
| Crc32c.BurstDetected | base/hash/crc32c.cc:194-241 | Every error burst of at most 32 bits changes the checksum |
| Crc32cVectors.ZerosVector | base/hash/crc32c_unittest.cc:9-12 | 32 bytes of zeros have the checksum 0x8A9136AA of section B.4 of RFC 3720 |
| Crc32cVectors.OnesVector | base/hash/crc32c_unittest.cc:14-15 | 32 bytes of ones have 0x62A8AB43 |
| Crc32cVectors.AscendingVector | base/hash/crc32c_unittest.cc:17-20 | The bytes 0 to 31 have 0x46DD794E |
| Crc32cVectors.DivisorIsCastagnoli | base/hash/crc32c.cc:194-241 | The terms of the divisor, by their exponents, as in section 12.1 of RFC 3720 |
| Coding.EncodeVarint32 | base/coding.cc:58-84 | The five-branch ladder writes the encoding, and nothing behind it |
| Coding.EncodeVarint64 | base/coding.cc:92-101 | The loop writes the encoding, and nothing behind it |
| Coding.PutVarint32 | base/coding.cc:86-90 | Appends the encoding; five bytes are enough |
| Coding.PutVarint64 | base/coding.cc:103-107 | Appends the encoding; ten bytes are enough |
| Coding.VarintLength | base/coding.cc:109-116 | The length of the encoding |
| Coding.GetVarint32Ptr | base/coding.h:39-49 | With its one-byte shortcut, the number that starts the bytes, cut to 32 bits, and where it ends; nothing if there is none of at most five bytes |
| Coding.GetVarint32PtrFallback | base/coding.cc:118-134 | The same, by the loop |
| Coding.GetVarint64Ptr | base/coding.cc:148-163 | The same for ten bytes and 64 bits |
| Coding.OneGroup | base/coding.cc:121-126 | One turn of a reading loop: `\|` of the shifted group is a sum modulo the width |
| Coding.ValueMeans | base/coding.cc:118-134 | A number is found exactly where groups that continue end in one that does not, and it is the value of the groups |
| Coding.FailureMeans | base/coding.cc:118-134 | None is found exactly where the data end inside a number or too many groups continue |
| Coding.RoundTrip | base/coding.cc:58-163 | Reading an encoding gives the number and stops at its end, whatever follows |
| Coding.EncodingIsShortest | base/coding.cc:109-116 | No other bytes that read as the number are as short |
| Coding.EncodingAt | base/coding.cc:58-101 | The bytes of an encoding: seven digits of the number each, the top bit on all but the last, and no more bytes than the number needs |
| FileCursor.ReadInPieces | base/io/inputstream_interface.h:18-21 | Two reads through a plain position give what one would: bytes, position, first failure |
| FileCursor.SkipThenRead | base/io/inputstream_interface.h:18-27 | Skipping is reading without looking |
| FileCursor.StringsAreTheFile | base/io/buffered_inputstream.h:55-61 | All strings with their newlines, joined, are the file without carriage returns |
| FileCursor.LinesAreTheFile | base/io/inputbuffer.h:25-32 | All lines, each ended, are the file without carriage returns, its last line ended |
| FileCursor.RefusedLine | base/io/inputbuffer.cc:29-55 | A line is refused as out of range if and only if nothing but carriage returns is left; they are consumed |
| FileCursor.LoneReturnIsRefused | base/io/inputbuffer.cc:29-55 | A file of one carriage return is consumed and refused |
| FileCursor.ReadMeans | base/io/inputstream_interface.h:18-21 | Which bytes a plain read gives, how many, its status and the position after it |
| FileCursor.LinesOfBytes | base/io/inputbuffer.cc:29-55 | The lines of the bytes 97 9 98 13 10 99 |
| FileCursor.SeeksAgree | base/io/inputbuffer.cc:141-159 | The two rules for Seek agree from a position in the file exactly on positions in the file |
| FileCursor.ReadersAgree | base/io/inputbuffer.cc:141-159 | Both readers answer any calls alike as long as none seeks past the end |
| InputBuffer.InputBuffer.FillBuffer | base/io/inputbuffer.cc:17-27 | The position stays; the buffer holds the next bytes; out of range exactly if short |
| InputBuffer.InputBuffer.ReadNBytesInto | base/io/inputbuffer.cc:70-99 | Status, bytes and position of a plain read |
| InputBuffer.InputBuffer.ReadNBytes | base/io/inputbuffer.cc:57-68 | The same, into a string |
| InputBuffer.InputBuffer.ReadLine | base/io/inputbuffer.cc:29-55 | Status, text and position of a plain line |
| InputBuffer.InputBuffer.SkipNBytes | base/io/inputbuffer.cc:115-139 | Status and position of a plain skip |
| InputBuffer.InputBuffer.Seek | base/io/inputbuffer.cc:141-159 | Anywhere from 0 on, inside the buffer or not |
| InputBuffer.InputBuffer.ReadVarint32 | base/io/inputbuffer.h:85-96 | The fast path and the fallback give the number of the file at the position; the failures exactly |
| InputBuffer.InputBuffer.ReadVarint32Fallback | base/io/inputbuffer.cc:101-113 | Byte by byte: the number, the end of the file, or a loss of data after five bytes |
| InputBuffer.BufferingShows | base/io/inputbuffer.h:85-96 | How much is buffered shows in the answer if and only if five bytes in a row ask for more |
| InputBuffer.AnswersAre | base/io/inputbuffer.h:85-96 | The answer of ReadVarint32 by the bytes of the file: a number, the end inside one, or five bytes that all ask for more |
| InputBuffer.NextNumber | base/io/inputbuffer.h:85-96 | In a file of encodings each call reads the next number, and then the end, for every state of the buffer |
| InputBuffer.ReadVarints | base/io/inputbuffer.h:85-96 | Reading until a failure gives the list that was put, and then OUT_OF_RANGE, for every buffer size |
| InputBuffer.PerformAll | base/io/inputbuffer.cc:17-159 | Any sequence of calls is answered as by a plain position, for every buffer size |
| BufferedInputStream.RandomAccessInputStream.ReadNBytes | base/io/random_inputstream.cc:17-43 | Status, bytes and position of a plain read |
| BufferedInputStream.RandomAccessInputStream.SkipNBytes | base/io/inputstream_interface.cc:11-23 | Skipping in 8 MB reads is one plain skip |
| BufferedInputStream.BufferedInputStream.FillBuffer | base/io/buffered_inputstream.cc:27-32 | The position stays; the buffer holds the next bytes |
| BufferedInputStream.BufferedInputStream.ReadLineHelper | base/io/buffered_inputstream.cc:34-61 | Status, text and position of a plain line, with or without its newline |
| BufferedInputStream.BufferedInputStream.ReadLine | base/io/buffered_inputstream.cc:144-146 | The line without its newline |
| BufferedInputStream.BufferedInputStream.ReadLineAsString | base/io/buffered_inputstream.cc:148-152 | The line with its newline, whatever the status |
| BufferedInputStream.BufferedInputStream.ReadNBytes | base/io/buffered_inputstream.cc:63-94 | Status, bytes and position of a plain read |
| BufferedInputStream.BufferedInputStream.SkipNBytes | base/io/buffered_inputstream.cc:96-114 | Status and position of a plain skip, within the buffer or past it |
| BufferedInputStream.BufferedInputStream.Seek | base/io/buffered_inputstream.cc:120-135 | Status and position of a skip, from the start if need be |
| BufferedInputStream.BufferedInputStream.Reset | base/io/buffered_inputstream.cc:137-142 | The start of the file |
| BufferedInputStream.PerformAll | base/io/buffered_inputstream.cc:27-152 | Any sequence of read, line, skip, seek and reset calls is answered as by a plain position, for every buffer size |
| Leveldb.IndexToKey | log/leveldb_database.cc:29-38 | The prefix and sixteen hexadecimal digits, zeros for a negative number |
| Leveldb.KeyToIndex | log/leveldb_database.cc:40-51 | The number of a key, nothing where a CHECK aborts |
| Leveldb.HexDecode | base/string_encode.cc:145-209 | The bytes of digit pairs, or nothing |
| Leveldb.KeyRoundTrip | log/leveldb_database.cc:29-51 | KeyToIndex inverts IndexToKey if and only if the number is not negative |
| Leveldb.KeysInOrder | log/leveldb_database.cc:29-38 | The order of keys is the order of numbers |
| Leveldb.KeySpelled | log/leveldb_database.cc:29-38 | A key is entry- and sixteen digits, each by its code |
| Leveldb.KeyOfTen | log/leveldb_database.cc:29-38 | The key of 10 is entry-000000000000000a |
| Leveldb.TopBitIsSign | log/leveldb_database.cc:40-51 | Sixteen times f is the key of -1 |
| Leveldb.PairDecodes | base/string_encode.cc:76-87 | A pair of characters decodes exactly if both are digits or letters; hexadecimal digits to their byte, G1 to 1 |
| Leveldb.LeveldbDatabase.InsertEntryMapping | log/leveldb_database.cc:196-211 | The index of a ledger becomes that of the ledger with one more entry, and the CHECK does not fire |
| Leveldb.LeveldbDatabase.BuildIndex | log/leveldb_database.cc:173-194 | From a well-formed store the index of its entries, no CHECK firing; it succeeds only if every key stands for its entry's number |
| Leveldb.LeveldbDatabase.CreateSequencedEntry | log/leveldb_database.cc:101-124 | Result, store and index for every entry, also after negative numbers: the entry is stored exactly if its key is free, and the index follows |
| Leveldb.WriteIsLedgerWrite | log/leveldb_database.cc:101-124 | For a number that is not negative: the first entry of a number stays, another one is refused, the same one is answered OK |
| Leveldb.NegativeWrite | log/leveldb_database.cc:101-124 | A negative number is refused if an entry 0 is there, and otherwise takes its key, after which a key contradicts its entry |
| Leveldb.LeveldbDatabase.LookupByHash | log/leveldb_database.cc:126-147 | The entry of the lowest number with the hash, or none has it; the CHECK does not fire |
| Leveldb.LeveldbDatabase.LookupByIndex | log/leveldb_database.cc:149-167 | The entry of the number, or none; a negative number is taken for 0 and fails the CHECK |
| Leveldb.IndexIsUnique | log/leveldb_database.cc:196-211 | A ledger has one index: contiguous size, sparse set, hash map |
| Leveldb.FirstWriterStays | log/leveldb_database.cc:101-124 | The first entry written with a number that is not negative is the one kept |
| Leveldb.OnlyWrittenNumbers | log/leveldb_database.cc:101-124 | A number never written, or negative, is not kept |
| Leveldb.RunOfWrites | log/leveldb_database.cc:101-211 | For any list of writes to a new store, negative numbers included: its keys agree with its entries if and only if no negative number comes before the first entry numbered 0, and it then holds the first writers |
| Leveldb.WriteAndRestart | log/leveldb_database.cc:84-211 | For any list of writes a restart succeeds if and only if no negative number comes before the first entry numbered 0; the index it builds is the one kept |
| Leveldb.NegativeNumberIsFatal | log/leveldb_database.cc:101-124 | One entry with a negative number is accepted, and the store cannot be opened again |
| Leveldb.Iterator.GetNextEntry | log/leveldb_database.cc:63-79 | The entry at the iterator, which moves to the next key |
| Leveldb.Scan | log/leveldb_database.cc:54-79 | Every entry from the start on, once, in the order of numbers, no CHECK firing |
| Arena.GCD | base/arena.cc:98-105 | The loop computes the recursive gcd |
| Arena.GcdIsGreatest | base/arena.cc:98-105 | It is a common divisor that every common divisor divides |
| Arena.LeastCommonMultiple | base/arena.cc:107-115 | A common multiple that divides every common multiple, for all positive numbers |
| Arena.LcmOfPowers | base/arena.cc:145-148 | Of two powers of two it is the larger |
| Arena.AdjustedIs | base/arena.cc:143-146 | The alignment of a block: 1 for 1, otherwise at least 8, as asked above that |
| Arena.AdjustedSizeIs | base/arena.cc:150-157 | The size of a block: rounded up to the next multiple of its alignment exactly if it is larger |
| Arena.Arena.constructor | base/arena.cc:25-38 | One block, nothing given out |
| Arena.Arena.SatisfyAlignment | base/arena.cc:49-61 | Moves to the next multiple exactly if that leaves something, and otherwise nowhere |
| Arena.Arena.AllocNewBlock | base/arena.cc:125-175 | A fresh block, aligned and rounded up, among the first sixteen or in the vector; aborts exactly above 2^20 |
| Arena.Arena.MakeNewBlock | base/arena.cc:87-92 | The new block is the free tail; the CHECK on its alignment never fires |
| Arena.Arena.GetMemoryFallback | base/arena.cc:185-212 | Null, abort or an aligned range, exactly when; large objects have their own block; the last CHECK never fires |
| Arena.Arena.GetMemory | base/arena.h:45-54 | The same with the fast path and the assertion; the new range is apart from all given and from the tail |
| Arena.Arena.FreeBlocks | base/arena.cc:225-240 | Each block but the first is freed, once |
| Arena.Arena.Reset | base/arena.cc:68-79 | Nothing is given out, the first block is empty; the CHECK never fires |
| Arena.Arena.Destroy | base/arena.cc:40-45 | Every block is freed, once |
| Arena.TailGives | base/arena.cc:206-211 | Giving out the beginning of the tail keeps the given ranges inside blocks and apart |
| Arena.NewTail | base/arena.cc:87-92 | So does a fresh block as the new tail |
| Arena.BlockGiven | base/arena.cc:193-197 | So does a fresh block given out |
| Arena.ServeAll | base/arena.cc:185-212 | Any run of requests: no abort, all ranges aligned as asked, apart from each other and from all given since the last Reset |
| Arena.RunIntoAssertion | base/arena.h:46 | With any alignment whose rounding of a block adds two bytes or more, one-byte requests end in the failing assertion |
| RefCounted.StepKeepsCount | base/ref_counted.h:18-33 | One atomic step of any thread: the count is the number of references out, and an Unref returns true exactly if it was the last |
| RefCounted.RunCounts | base/ref_counted.h:15-33 | So in every state of every interleaving |
| RefCounted.OnlyTheLastUnrefIsTrue | base/ref_counted.h:23-33 | In every interleaving an Unref returns true exactly when no reference is left, and no step follows it |
| RefCounted.ScopedRefptr.constructor | base/ref_counted.h:93-99 | Takes over a reference that no handle holds, whatever other references and handles the object has; every count is its number of handles again |
| RefCounted.NewObject | base/ref_counted.h:15-17 | A new object comes with one such reference |
| RefCounted.ScopedRefptr.Copy | base/ref_counted.h:101-105 | One handle and one reference more; every count is its number of handles |
| RefCounted.ScopedRefptr.Move | base/ref_counted.h:116-118 | The reference goes over, the counts stay |
| RefCounted.ScopedRefptr.Destroy | base/ref_counted.h:126-130 | One handle and one reference less; an object is deleted with its last handle |
| RefCounted.ScopedRefptr.AssignRaw | base/ref_counted.h:136-146 | Counts right also when a handle is assigned what it has |
| RefCounted.ScopedRefptr.Assign | base/ref_counted.h:148-150 | The same from a handle |
| RefCounted.ScopedRefptr.MoveAssignConst | base/ref_counted.h:157-160 | The overload that only a const rvalue reaches copies: the argument keeps its reference |
| RefCounted.ScopedRefptr.MoveAssign | base/ref_counted.h:162-166 | The argument gives its reference up, to this handle; a move to itself changes nothing |
| RefCounted.ScopedRefptr.Swap | base/ref_counted.h:168-176 | Two handles change places, the counts stay |
| HttpUrl.HttpParserUrl.SplitFields | base/http/http_parser.cc:2238-2307 | The loop: ranges and set of fields are those of the characters' labels; the default case is never reached |
| HttpUrl.HttpParserUrl.ParseHost | base/http/http_parser.cc:2164-2235 | Fields of the authority, or a refusal exactly if the machine dies or ends where a host may not |
| HttpUrl.HttpParserUrl.ParseUrl | base/http/http_parser.cc:2238-2335 | Accepted exactly when; then ranges, set of fields and port |
| HttpUrl.ExtentCovers | base/http/http_parser.cc:2252-2306 | A field's range has exactly the characters that belong to it |
| HttpUrl.UrlIsOrdered | base/http/http_parser.cc:422-566 | parse_url_char never goes back: fields are unbroken and in order |
| HttpUrl.HostIsOrdered | base/http/http_parser.cc:2099-2161 | Nor does http_parse_host_char |
| HttpUrl.FieldsInOrder | base/http/http_parser.cc:2238-2335 | Fields are in bounds and apart, in the order schema, userinfo, host, port, path, query, fragment |
| HttpUrl.SchemaNeedsHost | base/http/http_parser.cc:2309-2315 | An accepted URL with a schema has a host that is not empty |
| HttpUrl.PortIsItsRange | base/http/http_parser.cc:2322-2334 | The port is at most 65535, and the value of its range if and only if the range does not end the buffer before more digits in memory, or all those digits are zeros |
| UrlCharacters.UserinfoCharacter | base/http/http_parser.cc:372-382 | What the parser takes in user information is the userinfo of RFC 3986 |
| UrlCharacters.HostCharacter | base/http/http_parser.cc:384-392 | What it takes in a host are the unreserved characters but ~ |
| UrlCharacters.PathCharacter | base/http/http_parser.cc:208-240 | What it takes in a path: pchar and /, the other printable characters but ? and #, tab, form feed, and all from 128 on |
| HttpUrlGrammar.PortReadsOn | base/http/http_parser.cc:2322-2334 | http://a:1 with a 2 in memory behind it has the range 1 and the port 12 |
| HttpUrlGrammar.UrlIsSplit | base/http/http_parser.cc:2238-2335 | A URL by the grammar, or a target of CONNECT, is split into its parts and accepted unless its port is too large |
| HttpUrlGrammar.AcceptedAreUrls | base/http/http_parser.cc:2238-2335 | What is accepted with a schema is a URL by the grammar, and the other way round |
| HttpUrlGrammar.AcceptedTargets | base/http/http_parser.cc:2317-2335 | What CONNECT accepts is a host and a port, and the other way round |
| HttpUrlGrammar.PathIsSplit | base/http/http_parser.cc:2238-2335 | A path by the grammar is split into path, query and fragment |
| HttpUrlGrammar.AcceptedPaths | base/http/http_parser.cc:2238-2335 | What is accepted without a schema is empty or a path by the grammar, and the other way round |
| Histogram.Histogram.Clear | base/histogram.cc:51-61 | The figures of no samples |
| Histogram.Histogram.Add | base/histogram.cc:63-74 | The figures of the samples and one more: counts per bucket, least, largest, number, sums |
| Histogram.Histogram.Percentile | base/histogram.cc:86-117 | Interpolated in the bucket that the threshold falls in; the largest sample above 100 |
| Histogram.Histogram.Average | base/histogram.cc:119-122 | The mean of the samples |
| Histogram.Histogram.Variance | base/histogram.cc:124-128 | Times the square of the number: the number times the sum of squares less the square of the sum; never negative, so the root exists |
| Histogram.PercentileInBounds | base/histogram.cc:97-112 | A percentile lies within its bucket and between the least and the largest sample |
| Histogram.PercentileGrows | base/histogram.cc:86-117 | Percentiles do not fall as p grows |
| Histogram.PercentileEnds | base/histogram.cc:86-117 | The 0th is the least sample and the 100th the largest |
| Histogram.PercentileIsNearItsSample | base/histogram.cc:86-117 | A percentile is within the limits of the bucket that holds the sample of that rank |
| Histogram.PercentilesAreLinear | base/histogram.cc:79-117 | Of two percentiles in one bucket the difference is in proportion to that of their thresholds as the width of the bucket, narrowed to the least and the largest sample, to its samples; at the last threshold it is the upper bound |
| Histogram.VarianceIsPositive | base/histogram.cc:124-128 | The square of a sum is at most the number times the sum of squares |
| CEscape.Escape | base/strings/str_util.cc:13-53 | The concatenation of the bytes' escapes |
| CEscape.UnescapeInternal | base/strings/str_util.cc:72-183 | The bytes that the source stands for, or its first error, also in place; never more than the source has |
| CEscape.Unescape | base/strings/str_util.cc:186-195 | The same for strings |
| CEscape.EscapedIsRead | base/strings/str_util.cc:36-45 | What follows an escape is never read as part of it |
| CEscape.UnescapeUndoesEscape | base/strings/str_util.cc:13-195 | For every string of bytes |
| CEscape.EscapedIsPrintable | base/strings/str_util.cc:13-53 | An escaped string is printable and at most four times as long |
| CEscape.UnescapedIsNoLonger | base/strings/str_util.cc:72-183 | Unescaping never lengthens |
| CEscape.HexCheckIsRight | base/strings/str_util.cc:151-171 | The check that a hexadecimal escape is a byte is right if and only if the number is below 2^32 or its remainder modulo 2^32 is not a byte |
| CEscape.TooManyHexDigits | base/strings/str_util.cc:151-171 | Nine digits that it lets pass |
| CEscape.EscapesAre | base/strings/str_util.cc:13-53 | What each byte becomes: itself, a letter escape, a backslash before it, or three octal digits |
| CEscape.LettersAreRead | base/strings/str_util.cc:90-123 | The eleven escapes of one character, by their codes |
| CEscape.UnknownIsRefused | base/strings/str_util.cc:86-177 | A backslash before any other byte that begins no number is an unknown escape; at the end it is refused too |
| CEscape.OctalsAreRead | base/strings/str_util.cc:124-147 | One to three octal digits are read as their value, or refused exactly above 255 |
| CEscape.HexIsRead | base/strings/str_util.cc:148-171 | One or two hexadecimal digits are read as their value |
| CEscape.HexNeedsDigit | base/strings/str_util.cc:150-156 | Without a hexadecimal digit behind it x is refused |
| CEscape.PlainIsRead | base/strings/str_util.cc:83-85 | A byte that is no backslash stands for itself |
| Numbers.SafeStrto64 | base/strings/numbers.cc:182-221 | Accepts exactly the numerals in range, and gives their value; no product, sum or difference overflows |
| Numbers.SafeStrtou64 | base/strings/numbers.cc:223-242 | The same, unsigned |
| Numbers.SafeStrto32 | base/strings/numbers.cc:244-272 | The same for 32 bits |
| Numbers.SafeStrtou32 | base/strings/numbers.cc:274-292 | The same, unsigned |
| Numbers.FastInt32ToBufferLeft | base/strings/numbers.cc:97-107 | The numeral of every 32-bit number with its sign, and a NUL; nothing else written |
| Numbers.FastInt64ToBufferLeft | base/strings/numbers.cc:120-127 | The same for 64 bits |
| Numbers.FastIntToBufferLeft | base/strings/numbers.cc:97-127 | The same for both widths |
| Numbers.ModularNegation | base/strings/numbers.cc:97-127 | Converting and negating modulo the width gives the absolute value, for the least number too |
| Numbers.FastUIntToBufferLeft | base/strings/numbers.cc:129-138 | The digits in order and a NUL, nothing else written |
| Numbers.PrintedIsParsed | base/strings/numbers.cc:97-292 | Parsing what was printed gives the number back |
| Numbers.SpelledIsNumeral | base/strings/numbers.cc:172-221 | A text of blanks (9 to 13 and 32), perhaps a minus, digits and blanks, is a numeral of the value of its digits |
| Numbers.NumeralIsSpelled | base/strings/numbers.cc:172-221 | Every numeral is such a text |
| Numbers.NoZeroInFront | base/strings/numbers.cc:97-138 | What is printed has no zero in front, zero itself apart |
| Numbers.PrintedHasSign | base/strings/numbers.cc:97-107 | A negative number is printed with a minus in front |
| Numbers.OverflowTest | base/strings/str_util.cc:284-288 | new_v / 8 < v holds exactly when v * 10 + digit does not fit 64 bits |
| Numbers.ConsumeLeadingDigits | base/strings/str_util.cc:275-298 | The value of the leading digits, refused exactly if there are none or they do not fit |

## Left out

- HTTP header states, upgrade, pause and callbacks that fail; the rest of a buffer after the body states are left.
- URLs longer than 65535 characters, whose 16-bit offsets wrap, and strict mode.
- HttpUrl.HttpParserUrl.ParseUrl: a structure used before may be passed in, but not with a range left in its host, which the original would divide for a URL without an authority.
- std::sort is a heap sort in the model, and the heap operations of the standard library are written out; iterator access and reserve of TopN.
- HttpBody.HttpParser.Execute: stops where the body states are left; what the same call of the original goes on to parse behind them is not modelled.  Notifications of a piece of a body are compared byte by byte, since how a body is cut into notifications depends on the calls.
- The limit of TopN and the sizes of Arena, WeightedPicker levels apart, are unbounded numbers: size_t arithmetic does not wrap.
- Floating-point rounding in the sampler and the histogram; the default bucket limits, ToString and the square root of StandardDeviation.
- Random generators are lists or values of draws; that a rejection loop ends is a matter of chance and not stated.
- The 1024 literals of the CRC tables: the tables are defined by their recurrence.  Masking of checksums.
- File errors other than the end of the file, and files that change while read; a buffer size of zero; results left in place by a read of a negative count in RandomAccessInputStream.
- Serialisation of log entries: an entry is a value with a number, a hash and the rest.  Locks, filter policy and other LevelDB internals.
- Leveldb.LeveldbDatabase.BuildIndex: for a store whose keys spell a number in another way than IndexToKey does, says only that it fails if a key contradicts its entry; the database itself never writes such keys.
- A contiguous size beyond the range of int64.
- malloc that fails; it is a free choice of a range apart from those in use.
- Memory orderings weaker than sequential consistency, and a count beyond its integer type.
- The unsigned 32-bit printer, which is the 64-bit one with a smaller argument.
- The product in LeastCommonMultiple and the size of an array are unbounded; for the powers of two that reach it the product is the larger of the two.
- isspace and isprint outside the C locale.
- Histogram samples at or above the last limit, for which the original writes past its buckets.
- edit_distance.h, the skipping of the Philox generator, base64, UTF-8, bitmaps, inlined vectors, thread pool, logging, Env and the network servers.
