# Verified models of a cloud-storage client library

These modules model the self-contained algorithms and state machines of the client's C library
(`src/psync`) and prove what they promise. Code that changes things in place is modelled by classes,
arrays, linked nodes and loops; each such method is proved to compute a function of its inputs or of the
old state, and lemmas prove what that function means. Protocols shared by several threads are state
machines whose steps are the critical sections; a schedule of steps is an interleaving.

| module | subject |
|---|---|
| `Common`, `Octets` | options, minimum and maximum, little-endian numbers |
| `Bytes`, `SectorCrypto`, `SectorCoder`, `SectorModes`, `SectorBinding`, `TextCrypto`, `TextBinding` | sector and name encryption (`pcrypto.c`) |
| `Crc32c`, `CrcPolynomial`, `StreamHash`, `FastHash` | CRC32C and the streaming 256-bit hash (`pcrc32c.c`) |
| `MergeOrder`, `ListSort`, `ListExtract` | merge sort and extraction on linked lists (`plist.c`) |
| `IntervalTree`, `Overlay`, `OpenFileLife` | interval tree, sparse write overlay, life of an open file (`pintervaltree.c`, `pfs.c`) |
| `ApiResult`, `ApiRender` | the two-pass reply parser, and a writer for it (`papi.c`) |
| `DeflateRing` | ring and overflow buffer around a compressor (`pcompression.c`) |
| `Download`, `DownloadSuccess`, `DownloadThread` | the multiplexed download protocol (`pasyncnet.c`) |
| `CacheSteps`, `CacheStack`, `Cache` | the concurrent cache (`pcache.c`) |
| `SyncPlan` | grouping and planning when a folder moves (`pdiff.c`) |
| `FolderPath` | path printing and lookup (`pfolder.c`) |

What the code is given from outside is a parameter: the block cipher is any pair of inverse functions on
16-byte blocks, SHA-512, SHA-1 and the cache's string hash are any functions, the compressor is any state
machine that keeps zlib's rules, disk operations succeed or fail freely. Tables of
the CRC code are defined by their meaning: entry i of table k is the register after byte i and k zero
bytes, and entry i of chunk table k is what byte i at place k of the register becomes after 1360 zero bytes.

The rules of zlib are these. One call takes at most the input and gives at most the room it was offered.
`Z_BUF_ERROR` means that it did neither. Deflating ends only when asked to finish. And calls with 4096 bytes of
room or more cannot all be filled for ever from one input; nothing of the kind is asked of shorter runs, which
deflate may fill with one flush marker after another. The ring offers short runs, but only the buffer that is
built when a flush overflows is filled in a loop, and its runs have 4096 bytes or more.

Where the code does not do what one would expect, the model follows the code and the exact condition is proved:

- HMAC keys longer than one block of 128 bytes are cut, where section 2 of RFC 2104 hashes them: the code
  computes that HMAC, for every hash and message, exactly for keys of at most 128 bytes
  (`SectorCrypto.HmacIsStandardIff`, with a failing hash in `SectorCrypto.SpoiledDigestDiffers`). The keys that
  `pcloudcrypto.c` makes have 128 bytes.
- Encoding a sector onto its own buffer is right for every key and text of a length exactly when that
  length is below 16 or a multiple of 16 (`SectorCoder.OntoItselfIff`, with a failing text in
  `SectorCoder.OverlappingEncodeFails`); decoding onto itself is always right.
- `psync_interval_tree_remove` with `from >= to` doubles the interval that has `from` strictly inside it
  and otherwise changes nothing (`IntervalTree.BackwardRemovalIsHarmlessIff`, failing in
  `IntervalTree.BackwardRemovalDoubles`).
- A download that the server refuses with code 2^32 - 100 is reported as a success, because 100 is added
  to a 32-bit code (`Download.RefusalReportedAsSuccess`); success means a complete file in every other case
  (`Download.CallOk`, `Download.ExactlyOnce`).
- A place of the move plan gets no task when the old parent's row has no local folder
  (`SyncPlan.EveryPlaceHasTask`, failing in `SyncPlan.PlaceWithoutTask`).
- The assertion in a ring read that wraps around holds only when the read drains the ring
  (`DeflateRing.WrappedReadAssertion`, failing in `DeflateRing.WrappedReadFails`); the model is of builds without assertions.
- The reply parser reads past the end of a truncated reply exactly when its sizing pass reaches the tag of an
  array or hash that is the last byte (`ApiResult.CalcRetLen`, `ApiResult.OpensWithTag`).
- While a write timer's callback drops its reference, a new timer may already be armed, so both count
  (`OpenFileLife.RefcntIsRight`).

## Model

| member | source | states |
|---|---|---|
| SectorCrypto.SectorRoundTrip | src/psync/pcrypto.c:447-590 | for every key, sector id, random block and text of any length, what the encoder makes is accepted and opens to the same text and random block |
| SectorCrypto.AcceptedIsEncoded | src/psync/pcrypto.c:518-590 | whatever is accepted is reproduced exactly by encoding the recovered text with the recovered random block |
| SectorCrypto.AcceptedIffEncoded | src/psync/pcrypto.c:447-590 | the accepted inputs are exactly the image of the encoder |
| SectorBinding.TagBinds | src/psync/pcrypto.c:457-461 | a text, sector id and random block that carry the tag of others are accepted under every key if and only if all three are the same |
| SectorBinding.SectorIdBinds | src/psync/pcrypto.c:584-589 | an encoded sector is accepted at another sector id under every key if and only if it is the same id |
| SectorBinding.HmacKeyBinds | src/psync/pcrypto.c:584-589 | an encoded sector is accepted with another HMAC key, whatever cipher and hash, if and only if both make one key block |
| SectorBinding.RecordHolds | src/psync/pcrypto.c:462-482 | what the two blocks of the auth record hold once decrypted, with the tag as RFC 2104 defines it over text, sector id and random block |
| SectorModes.ChainIsCbc | src/psync/pcrypto.c:483-506 | every block is chained as section 6.2 of SP 800-38A says |
| SectorModes.BodyIsCs2 | src/psync/pcrypto.c:471-515 | a ragged body is variant CBC-CS2 of the Addendum to SP 800-38A: padded, chained, the last two blocks exchanged and the last one cut |
| SectorCrypto.BodyRoundTrip | src/psync/pcrypto.c:483-515 | decoding undoes the chained and stolen body for every length of a block or more |
| SectorCrypto.BodyRoundTripBack | src/psync/pcrypto.c:549-583 | encoding undoes the decoded body, so the body is a bijection |
| SectorCrypto.HmacContext.constructor | src/psync/pcrypto.c:40-56 | the context has absorbed the inner key block and keeps the outer one |
| SectorCrypto.HmacContext.Update | src/psync/pcrypto.c:58-60 | feeding bytes extends the message that was absorbed |
| SectorCrypto.HmacContext.Final | src/psync/pcrypto.c:62-66 | the incremental form gives the HMAC of all that was fed, as the one-shot form does |
| SectorCrypto.HmacIsStandardIff | src/psync/pcrypto.c:40-88 | the HMAC is that of RFC 2104, for every hash and message, exactly for keys of at most one hash block |
| SectorCrypto.KeyBlocksAgreeIff | src/psync/pcrypto.c:40-51 | exactly when the cut key block is the one RFC 2104 prescribes |
| SectorCoder.EncodeSector | src/psync/pcrypto.c:447-516 | the in-place loops write exactly the specified ciphertext and auth record; onto the text itself they write the overlapping form |
| SectorCoder.OverlappingEncodeIsRightIff | src/psync/pcrypto.c:507-515 | exactly which ciphertexts come out right when the buffer is encoded onto itself: those whose ragged tail repeats the stolen bytes |
| SectorCoder.OntoItselfIff | src/psync/pcrypto.c:447-516 | for a length, encoding onto itself is right for every key, text, sector and random block if and only if the length is below 16 or a multiple of 16 |
| SectorCoder.OverlappingEncodeFails | src/psync/pcrypto.c:507-515 | a text of any ragged length that comes out wrong |
| SectorCoder.DecodeSector | src/psync/pcrypto.c:518-590 | writes the opened text, also onto its own input, and returns 0 exactly when the tag agrees, which by SectorBinding binds text, sector id, random block and key |
| SectorCoder.UnchainFourSteps | src/psync/pcrypto.c:549-558 | one turn of the four-block loop is four turns of the one-block loop |
| SectorCoder.DecodeFours | src/psync/pcrypto.c:549-558 | the four-block loop decodes the same prefix as block-by-block chaining, and leaves the rest of a shared buffer readable |
| SectorCoder.DecodeStolen | src/psync/pcrypto.c:571-583 | the stolen block and the rest come out right even when input and output are one buffer |
| SectorCoder.MemcmpConst | src/psync/pcrypto.c:438-445 | the branch-free comparison is 0 exactly for equal strings and 1 otherwise |
| SectorCoder.ComputeTag | src/psync/pcrypto.c:457-461 | the tag is the first block of the HMAC, fed piece by piece; what it binds is SectorBinding.TagBinds |
| TextCrypto.TextRoundTrip | src/psync/pcrypto.c:233-356 | every NUL-free name of at least one byte decodes to itself, padding check included, in both forms |
| TextCrypto.EncodeTextInjective | src/psync/pcrypto.c:247-280 | two names with one encoding are one name |
| TextCrypto.TextImage | src/psync/pcrypto.c:282-356 | exactly which ciphertexts are encodings of names |
| TextCrypto.EncodeName | src/psync/pcrypto.c:247-280 | the block loop computes the specified encoding |
| TextCrypto.DecodeName | src/psync/pcrypto.c:282-356 | the decoder computes the specified decoding and refuses exactly what it refuses |
| TextCrypto.PaddingIsClean | src/psync/pcrypto.c:301-309 | the scan behind the text accepts exactly clean padding |
| TextCrypto.CopyPad | src/psync/pcrypto.c:233-245 | taken until nothing is left, the blocks are the padded text: each block and the padding of what it leaves make up the padding of the text |
| TextBinding.FirstBlockBinds | src/psync/pcrypto.c:265-279 | the first cipher blocks of two long names agree under every key if and only if the names are the same |
| TextBinding.LongNameIsCbc | src/psync/pcrypto.c:265-279 | a long name is chained block by block from the HMAC of what is behind its first block |
| TextBinding.ShortNameKeyBinds | src/psync/pcrypto.c:257-264 | a short name is encoded alike under two HMAC keys, whatever the cipher, if and only if the keys begin alike |
| Crc32c.Superpose | src/psync/pcrc32c.c:601-603 | the register over a text is the start value moved over as many zeros, plus the register from zero |
| Crc32c.CrcConcat | src/psync/pcrc32c.c:340-381 | the register over two texts goes on where the first ended |
| CrcPolynomial.CrcIsRemainder | src/psync/pcrc32c.c:340-381 | the register over every string, read bit by bit, is the remainder of the message times x^32 by the generator polynomial of RFC 3720, written by its exponents and divided on lists of coefficients |
| CrcPolynomial.DivisionIdentity | src/psync/pcrc32c.c:340-381 | that division is one: dividend = quotient times divisor plus a shorter remainder |
| CrcPolynomial.FirstTableEntry | src/psync/pcrc32c.c:31-31 | the table's entry for byte 1 is the number that the code has there |
| CrcPolynomial.PolyIsGenerator | src/psync/pcrc32c.c:29-31 | the constant of the register steps is that polynomial without its leading coefficient, lowest bit first |
| Crc32c.Slice1IsFeed | src/psync/pcrc32c.c:333-335 | the table step is eight polynomial steps |
| Crc32c.Slice8IsCrc | src/psync/pcrc32c.c:309-319 | slicing by eight is eight single bytes, for every register and text |
| Crc32c.ShiftChunkIsZeros | src/psync/pcrc32c.c:563-572 | four lookups move the register over 1360 zero bytes |
| Crc32c.ChunksCombine | src/psync/pcrc32c.c:601-603 | two registers of neighbouring chunks combine to the register of both |
| Crc32c.Unrolled64 | src/psync/pcrc32c.c:351-369 | the unrolled body is 64 single bytes |
| Crc32c.CrcSw | src/psync/pcrc32c.c:340-381 | the table build is the byte-at-a-time register for every start value, length and alignment; by CrcPolynomial.CrcIsRemainder that is CRC32C |
| Crc32c.ThreeChunks | src/psync/pcrc32c.c:588-604 | three interleaved registers combine to the register over all three chunks |
| Crc32c.CrcHw | src/psync/pcrc32c.c:574-627 | the instruction build is the same register for 4- and 8-byte words, every length and alignment; by CrcPolynomial.CrcIsRemainder that is CRC32C |
| StreamHash.Context.constructor | src/psync/pcrc32c.c:657-665 | a new context stands for the empty message |
| StreamHash.Context.Update | src/psync/pcrc32c.c:800-863 | whatever was fed before, the context stands for the longer message, although the fill count lives in the last buffer byte |
| StreamHash.Context.UpdateShort | src/psync/pcrc32c.c:815-819 | a short piece only fills the buffer |
| StreamHash.Context.UpdateLong | src/psync/pcrc32c.c:844-863 | a long piece completes the buffered block, takes whole blocks and keeps the rest |
| StreamHash.Context.Final | src/psync/pcrc32c.c:865-889 | the result is a function of the message alone |
| StreamHash.HashPieces | src/psync/pcrc32c.c:800-889 | every way to split a message into updates gives the hash of the whole |
| StreamHash.HashSeesEverything | src/psync/pcrc32c.c:800-868 | what the block function and the end of the hash get to see is the whole message and its length modulo 2^64 |
| StreamHash.AbsorbConcat | src/psync/pcrc32c.c:835-839 | absorbing whole blocks goes on where it stopped |
| FastHash.Crc64Agree | src/psync/pcrc32c.c:775-798 | the table form and the instruction form of the 64-bit CRC step agree for every register and word |
| FastHash.BuildsAgree | src/psync/pcrc32c.c:800-889 | both builds hash every message alike |
| ListSort.Sort | src/psync/plist.c:23-93 | the nodes end in one consistent ring of next and prev links, in the order of the bottom-up merge sort; stable and sorted for every total preorder; for any comparison it terminates with the same nodes |
| ListSort.PassList | src/psync/plist.c:32-82 | one pass relinks the chain into merged pairs of runs and counts the merges |
| ListSort.MergeRuns | src/psync/plist.c:44-76 | the inner loop links the merge of two runs behind what is done |
| ListSort.RingFrom | src/psync/plist.c:84-92 | backward links and the ring are restored |
| MergeOrder.SortIsStable | src/psync/plist.c:23-93 | the result is sorted and keeps the order of equivalent elements |
| MergeOrder.SortPermutes | src/psync/plist.c:23-93 | the result is a permutation for every comparison function |
| MergeOrder.MergeStable | src/psync/plist.c:44-76 | merging keeps, for every class, the left run's elements before the right run's |
| MergeOrder.PassDoublesRuns | src/psync/plist.c:32-82 | a pass over sorted runs leaves sorted runs of twice the length |
| ListExtract.ExtractRepeating | src/psync/plist.c:95-119 | both lists and both targets are rings again, holding what the extraction keeps and moves out |
| ListExtract.RepeatingExtracted | src/psync/plist.c:95-119 | for every class the minimum of the two counts leaves each list, no element of one stays equivalent to one of the other, nothing is lost or doubled |
| ListExtract.PairsMatch | src/psync/plist.c:103-117 | the elements moved out are equivalent pair by pair |
| ListExtract.ExtractsMinimum | src/psync/plist.c:99-118 | of every class exactly the first min(count1, count2) elements leave sorted lists |
| ListExtract.NothingCommonStays | src/psync/plist.c:99-118 | what stays in one list is equivalent to nothing that stays in the other |
| ListExtract.NothingLost | src/psync/plist.c:99-118 | kept and extracted elements together are the old list |
| ListExtract.ExtractSorted | src/psync/plist.c:99-118 | the walk with two cursors computes the extraction while it deletes under them |
| ListExtract.Del | src/psync/plist.h:51-55 | unlinking a node leaves the ring of the others |
| ListExtract.AddTail | src/psync/plist.h:47-47 | a node added at the tail makes the ring longer by it |
| IntervalTree.CanonicalUnique | src/psync/pintervaltree.c:45-153 | one set of points has one canonical list of intervals |
| IntervalTree.Intervals.FirstContainingOrAfter | src/psync/pintervaltree.h:63-79 | the descent finds the least interval that ends after the point, or none |
| IntervalTree.Intervals.ConsumeIntervals | src/psync/pintervaltree.c:45-59 | an extended interval swallows all it reaches; the points stay the same and the list is canonical again |
| IntervalTree.Intervals.Add | src/psync/pintervaltree.c:61-104 | exactly set union, and the list stays canonical |
| IntervalTree.Intervals.GrowNode | src/psync/pintervaltree.c:71-76 | extending a node that holds or touches the start is set union |
| IntervalTree.Intervals.AddNode | src/psync/pintervaltree.c:84-96 | a new node in its place that swallows what it reaches is set union |
| IntervalTree.Intervals.TrimNode | src/psync/pintervaltree.c:110-127 | what the removal loop does to one node, split, cut, delete or stop |
| IntervalTree.Intervals.Remove | src/psync/pintervaltree.c:106-128 | exactly set difference for from < to, canonical; the exact behaviour otherwise |
| IntervalTree.BackwardRemovalIsHarmlessIff | src/psync/pintervaltree.c:106-128 | removing with from >= to leaves the list alone exactly if no interval has from strictly inside |
| IntervalTree.BackwardRemovalDoubles | src/psync/pintervaltree.c:110-115 | an interval from 0 to 10 becomes two that overlap |
| IntervalTree.Intervals.CutEnd | src/psync/pintervaltree.c:135-153 | exactly the intersection with the points before the end, canonical |
| Overlay.OpenFile.constructor | src/psync/pfs.c:966-977 | a session starts with the remote file as it is |
| Overlay.OpenFile.CheckSizeOk | src/psync/pfs.c:1915-1936 | a file that is too short is seen with a zero-filled gap, recorded as written |
| Overlay.OpenFile.WriteModified | src/psync/pfs.c:2226-2244 | what is seen is the plain file after the write; uncovered offsets stay original ones |
| Overlay.OpenFile.Ftruncate | src/psync/pfs.c:2896-2924 | what is seen is the plain file cut or zero-filled to the size |
| Overlay.OpenFile.AppendRecord | src/psync/pfs.c:1926-1932 | index and tree go on describing the same points |
| Overlay.LoadIntervalTree | src/psync/pfs.c:990-1020 | loading in batches gives the canonical tree of the index |
| Overlay.ReloadRebuilds | src/psync/pfs.c:990-1043 | an index rebuilds the tree of the session that wrote it |
| Overlay.RunSession | src/psync/pfs.c:2226-2244 | every run of writes and truncates equals the same run on a plain file, byte for byte the last writer's, original or zero, and its index reloads to the same tree |
| Overlay.FileAfter | src/psync/pfs.c:2226-2244 | after any run each byte and the length are what the last op that concerns them says, with zeros in gaps and behind cuts |
| Overlay.LastWriterWins | src/psync/pfs.c:2226-2244 | a byte is that of the last write that stores it, unless the file was cut before it afterwards |
| Overlay.UnwrittenByte | src/psync/pfs.c:2896-2924 | a byte that no write stored since the last cut before it is the original one if there was no such cut, or else 0 |
| OpenFileLife.NextKeeps | src/psync/pfs.c:1552-1784 | every step of every holder keeps the count, the timer and the freeing in order, calls through one handle side by side included |
| OpenFileLife.RefcntIsRight | src/psync/pfs.c:1552-1784 | in every interleaving the count is handles, running reads, a set timer, callbacks behind the lock and release threads; the only registered timer is the file's own |
| OpenFileLife.FreedExactlyOnce | src/psync/pfs.c:1567-1635 | freed at most once, exactly when no holder remains, never with a timer set |
| OpenFileLife.GoneForGood | src/psync/pfs.c:1625-1635 | once nobody holds the file nothing can change it again |
| OpenFileLife.FlushLeavesReference | src/psync/pfs.c:1747-1753 | a flush that cancels the timer never drops the last reference |
| OpenFileLife.WriteIsRemembered | src/psync/pfs.c:1687-1756 | a write takes the next number and counts as not released; after it a timer is pending, and it goes only when the file is released for upload or has nothing to upload |
| OpenFileLife.EveryWriteIsReleased | src/psync/pfs.c:1687-1756 | after any run in which encryption works and the flags are not changed from outside, the last write has been released for upload, or a timer is set whose firing releases it and starts the thread |
| OpenFileLife.OpenFile.constructor | src/psync/pfs.c:966-978 | a new file has the one reference of its first handle |
| OpenFileLife.OpenFile.DecRefcnt | src/psync/pfs.c:1625-1635 | the last reference takes the file out of the tree |
| OpenFileLife.OpenFile.IncWriteidLocked | src/psync/pfs.c:1892-1913 | a write arms a timer, restarts a waiting one without a new reference, and leaves a running one |
| OpenFileLife.OpenFile.Flush | src/psync/pfs.c:1723-1755 | the locked part of a flush; the assertion on the count holds |
| OpenFileLife.OpenFile.WriteTimer | src/psync/pfs.c:1687-1721 | the locked part of the timer callback, and whether it starts a release thread |
| OpenFileLife.OpenFile.TimerStop | src/psync/ptimer.c:189-205 | only a registered timer is stopped; it is freed unless it is running |
| OpenFileLife.OpenFile.Take | src/psync/pfs.c:1552-1784 | every step that some holder may take is done by the code and keeps the invariant |
| ApiResult.CalcRetLen | src/psync/papi.c:143-243 | the sizing pass accepts exactly the well-formed replies whose back-references point backwards, reports their end, arena size and number of strings, and reads past the end exactly when it reaches an array or hash tag that is the last byte |
| ApiResult.OpensWithTag | src/psync/papi.c:200-218 | only a reply that ends in the tag of an array or hash is read past its end |
| ApiResult.BuildFits | src/psync/papi.c:245-365 | the building pass writes at most the computed arena, exactly that when all hash keys are strings, and stays 8-byte aligned |
| ApiResult.ObjectsHaveTheirPlaces | src/psync/papi.c:245-365 | every object lies inside the computed arena at an 8-aligned offset, no two overlap, and strings, which alone are shared, overlap nothing but themselves |
| ApiResult.BuildLays | src/psync/papi.c:245-365 | what is allocated tiles the used part of the arena, and what the result keeps of it stands there in order |
| ApiResult.BuildRegisters | src/psync/papi.c:253-283 | every string in a result is one that was registered |
| ApiResult.BuildMeans | src/psync/papi.c:245-365 | the tree built is the reply with every back-reference replaced by the string it names, and strings are registered in order |
| ApiResult.DoParse | src/psync/papi.c:245-365 | the building pass consumes the same bytes, fills the string table with the specified strings, and never meets an unknown type |
| ApiResult.ParseReference | src/psync/papi.c:272-283 | a back-reference names a slot that is already filled |
| ApiResult.ParseArray | src/psync/papi.c:300-324 | elements are built in order behind one another |
| ApiResult.ParseHash | src/psync/papi.c:325-355 | pairs are built in order, and those without a string key are left out |
| ApiResult.ParseResult | src/psync/papi.c:367-385 | accepted replies are built to their meaning inside an arena of the computed size; all others give nothing |
| ApiRender.RenderedParses | src/psync/papi.c:143-243 | every value written out with the numeric tags of the format is read back as what was written, wherever it stands |
| ApiRender.StringParses | src/psync/papi.c:150-167 | strings behind lengths of one to four bytes |
| ApiRender.NumberParses | src/psync/papi.c:184-190 | numbers of one to eight bytes |
| ApiRender.ReferenceParses | src/psync/papi.c:168-183 | back-references of one to four bytes |
| ApiRender.ParseWritten | src/psync/papi.c:367-385 | parsing a written reply gives what was written, with its references resolved |
| DeflateRing.FreeRunIsUnread | src/psync/pcompression.c:70-83 | the space handed to the compressor holds no unread byte |
| DeflateRing.WindowGrows | src/psync/pcompression.c:99-112 | what the compressor writes there is appended to the unread bytes |
| DeflateRing.WindowHead | src/psync/pcompression.c:224-231 | the one or two copies of a read are the first unread bytes |
| DeflateRing.WrappedReadAssertion | src/psync/pcompression.c:226-230 | the assertion in a read around the end of the ring holds exactly when the read drains the ring |
| DeflateRing.WrappedReadFails | src/psync/pcompression.c:226-230 | the assertion fails for 150 of 200 bytes from place 4000 |
| DeflateRing.Deflate.SetOutBuff | src/psync/pcompression.c:70-83 | refuses exactly when the ring is full; otherwise a free run that is never empty |
| DeflateRing.Deflate.FinishFlush | src/psync/pcompression.c:115-152 | the doubling buffer ends and holds all that came out during it; it is dropped only when the compressor fails or ends |
| DeflateRing.Deflate.Write | src/psync/pcompression.c:154-178 | FIFO order is kept, the result is how much was taken, full is reported exactly when ring or overflow block, and a flush that succeeds asked the compressor for it in every call and ended with room unused |
| DeflateRing.Deflate.Read | src/psync/pcompression.c:180-240 | FIFO order is kept; when nothing is pending the end of data is reported exactly if the compressor has ended the stream, and no-data otherwise |
| DeflateRing.Run | src/psync/pcompression.c:154-240 | in every interleaving without errors, bytes read, then ring, then overflow are the bytes put out, in order |
| Download.ExactlyOnce | src/psync/pasyncnet.c:192-627 | in every run each command is answered with an error or gets exactly one callback, success only for complete files with the right checksum or the wrapping refusal, and no stream is left |
| DownloadSuccess.GoodDownloadSucceeds | src/psync/pasyncnet.c:275-369 | a header record written field by field and a file behind it, cut into frames and reads in any way with strange frames between them, lead on a working disk to exactly one call: success with that size, hash, checksum and content, the file kept |
| DownloadSuccess.HeaderParses | src/psync/pasyncnet.c:317-321 | what a stream reads of a header record is what was written field by field |
| DownloadSuccess.HeaderFailures | src/psync/pasyncnet.c:322-361 | the code for a refusal, and for a local file that cannot be opened |
| DownloadSuccess.BodyFailures | src/psync/pasyncnet.c:275-307 | the codes for more bytes than announced, a full disk, a failing disk and a wrong checksum |
| DownloadSuccess.EndFailure | src/psync/pasyncnet.c:529-543 | the code for a connection that ends first |
| Download.ConsumeConcat | src/psync/pasyncnet.c:480-497 | bytes that come in parts do what they would do together |
| Download.ConsumeFrames | src/psync/pasyncnet.c:551-584 | a wire of frames is dispatched frame by frame, whole and in order |
| Download.LengthBound | src/psync/pasyncnet.c:575-584 | a payload never exceeds the 64 KiB buffer |
| Download.ClosedStaysClosed | src/psync/pasyncnet.c:192-206 | a closed stream's number never comes back, so its later frames are thrown away |
| Download.RefusalReportedAsSuccess | src/psync/pasyncnet.c:322-323 | the server's code 2^32 - 100 reaches the callback as success, with no file |
| Download.BodyKeeps | src/psync/pasyncnet.c:275-307 | handling file data keeps one callback per request and honest success |
| Download.HeadersKeep | src/psync/pasyncnet.c:309-369 | handling a header record keeps them too; that the record is read rightly is DownloadSuccess.HeaderParses |
| Download.HandleKeeps | src/psync/pasyncnet.c:429-478 | commands keep them, refused ones without a stream or callback |
| DownloadThread.Thread.HandleDecompressedData | src/psync/pasyncnet.c:480-497 | reads of any size lead to the same state, within the buffer |
| DownloadThread.Thread.ProcessStreamData | src/psync/pasyncnet.c:551-573 | a full payload goes to its stream or is thrown away, and the reader starts over |
| DownloadThread.Thread.ProcessStreamHeader | src/psync/pasyncnet.c:575-584 | a header sets up its payload inside the buffer |
| DownloadThread.Thread.ProcessFileDownloadData | src/psync/pasyncnet.c:275-307 | takes the body step, with the write loop |
| DownloadThread.Thread.ProcessFileDownloadHeaders | src/psync/pasyncnet.c:309-369 | takes the header step, of which DownloadSuccess says what it does with a record on the wire |
| DownloadThread.Thread.FileDownloadSendError | src/psync/pasyncnet.c:229-261 | one callback, and the stream is gone |
| DownloadThread.Thread.HandleCommand | src/psync/pasyncnet.c:447-478 | answers a command with the byte the caller acts on |
| DownloadThread.Thread.FreeStreams | src/psync/pasyncnet.c:529-543 | every active stream that is left is told of a network error |
| DownloadThread.Thread.Serve | src/psync/pasyncnet.c:586-627 | the whole thread ends with one callback for each accepted request and none for the others |
| CacheSteps.LockOfHash | src/psync/pcache.c:26-27 | the lock of a 32-bit hash, with wrap-around, is the lock of its bucket |
| CacheSteps.StepStaysUnderLock | src/psync/pcache.c:83-249 | a step changes only buckets whose lock it holds |
| CacheSteps.NextKeeps | src/psync/pcache.c:83-249 | every step keeps each value in one place, each element in its bucket and each timer with its element |
| CacheSteps.EachValueOnce | src/psync/pcache.c:83-249 | in every interleaving each added value is in the cache, handed out, freed or about to be freed, as often as it was added |
| CacheStack.HandedIsReturned | src/psync/pcache.c:83-108 | the record of values handed out is what the gets of a run returned, in order |
| CacheStack.ReturnedAtMostOnce | src/psync/pcache.c:83-249 | in every interleaving a value is returned and freed together at most as often as it was added |
| CacheStack.LastInFirstOut | src/psync/pcache.c:83-169 | after an add that the limit admits and any steps that do not touch the key, the next get returns that value and the one after it what a get would have returned before |
| CacheStack.GetPops | src/psync/pcache.c:95-104 | a get takes the top off the key's stack |
| CacheStack.AddPushes | src/psync/pcache.c:151-168 | an add that the limit admits puts its value on top |
| CacheStack.QuietStep | src/psync/pcache.c:83-249 | steps on other keys leave a key's stack alone |
| CacheSteps.CalledFinds | src/psync/pcache.c:128-136 | the timer thread always finds the element it was called for |
| CacheSteps.NeverMoreThanLimit | src/psync/pcache.c:151-161 | a key always added with limits from 1 to n never has more than n elements |
| CacheSteps.CleanFromLeaves | src/psync/pcache.c:224-249 | a cleaning leaves of each bucket what was not wanted or is expiring |
| CacheSteps.DelRound | src/psync/pcache.c:176-200 | rounds of deletion amount to cleaning the bucket of that key |
| Cache.Table.Get | src/psync/pcache.c:83-108 | hands out the newest value of the key that is not expiring, takes it out of the cache, and records it once |
| Cache.Table.Has | src/psync/pcache.c:110-126 | true exactly when the key is anywhere in the cache |
| Cache.Table.CacheTimer | src/psync/pcache.c:128-136 | takes its own element out and nothing else |
| Cache.Table.Add | src/psync/pcache.c:138-169 | adds at the head, or refuses at the limit and leaves the value to be freed |
| Cache.Table.EnoughOf | src/psync/pcache.c:151-161 | the counting loop that stops at the limit decides whether the limit is reached |
| Cache.Table.Del | src/psync/pcache.c:176-200 | frees every value of the key that is not expiring, in order |
| Cache.Table.CleanAll | src/psync/pcache.c:202-218 | what stays is expiring already |
| Cache.Table.CleanStartingWithOneOf | src/psync/pcache.c:224-249 | bucket after bucket loses exactly what starts with a prefix and is not expiring |
| SyncPlan.GroupResultsByCol | src/psync/pdiff.c:577-599 | both tables are permuted in place; rows with a common value form matching prefixes and no later rows match |
| SyncPlan.MatchHere | src/psync/pdiff.c:585-598 | a match is always behind the pairs found, so the swaps disturb none of them |
| SyncPlan.MoveIsRight | src/psync/pdiff.c:714-783 | each place gives one rename, deletion or creation; afterwards the folder is local in exactly the right syncs, and a sync of both parents keeps its local folder |
| SyncPlan.EveryPlaceHasTask | src/psync/pdiff.c:723-783 | every row gets its task exactly when every old row has a local folder |
| SyncPlan.FolderEndsBelowItsParent | src/psync/pdiff.c:714-783 | once the tasks are carried out the folder is, in every sync of its new parent, directly below the new parent's local folder there, and gone from the others |
| SyncPlan.PlaceWithoutTask | src/psync/pdiff.c:724-736 | one row in each table and no local folder lead to no task |
| SyncPlan.BuildPlan | src/psync/pdiff.c:723-783 | the three loops with one counter take the steps of all places in order |
| SyncPlan.ModifyFolder | src/psync/pdiff.c:714-783 | grouping and planning together, for rows in any order and names to ignore |
| FolderPath.LookupOfPrinted | src/psync/pfolder.c:47-92 | looking up the printed path of a folder gives that folder |
| FolderPath.PrintedOfLookup | src/psync/pfolder.c:346-372 | printing a looked-up path gives it back without repeated and trailing slashes |
| FolderPath.SameFolderSamePath | src/psync/pfolder.c:47-92 | two paths lead to one folder exactly when they differ in superfluous slashes only |
| FolderPath.NormalFindsTheSame | src/psync/pfolder.c:57-82 | superfluous slashes make no difference to what is found, or to whether anything is |
| FolderPath.SlashedComponents | src/psync/pfolder.c:54-82 | the components of a path, printed, are the path without superfluous slashes |
| FolderPath.GetFolderidByPath | src/psync/pfolder.c:47-92 | the cursor loop walks exactly the components of the path |
| FolderPath.AddPathToList | src/psync/pfolder.c:206-240 | the list is an empty string and the names from the root down, or an error when a folder is missing |
| FolderPath.JoinStringList | src/psync/pfolder.c:315-344 | the buffer holds the joined text and its NUL, and is never overrun |
| FolderPath.GetPathByFolderid | src/psync/pfolder.c:346-372 | prints the path of a folder, "/" for the root |

## Left out

- AES, SHA-512, SHA-1 and zlib themselves: they are not in these files, so they are parameters.
- The counter mode of `pcrypto.c`, `psync_crypto_sign_auth_sector` and the second sector format behind a compile-time switch: they would add only easier members.
- Scratch blocks of the AES calls and the choice between aligned and unaligned copies: blocks are values.
- Empty text in `psync_crypto_aes256_encode_text`: callers never encode an empty name.
- FastHash: the mixing steps and constants of the 256-bit hash are the model's definition; nothing is claimed about how well they mix.
- The hardware CRC instruction is taken by its meaning; `psync_fast_hash256_init_seed` is not modelled.
- IntervalTree.Intervals: tree nodes are values, not linked cells, and any rebalancing is allowed, so parent links and sharing of nodes are not captured.
- Offsets and sizes of 64 bits are unbounded numbers in `IntervalTree`, `Overlay`, `SyncPlan` and `FolderPath`; their overflow is not modelled.
- Overlay.OpenFile.WriteModified: writes are not empty and not cut short, no I/O error happens, and the session does not go on across an upload; encrypted and new files have their own code, which is not modelled.
- OpenFileLife: timers of encrypted files and the page cache's reads are holders like any other; what they do with the file is not modelled, and the count is unbounded.
- ApiResult.CalcRetLen: a read past the end is reported as an outcome of its own, without a value for the byte behind the end.
- ApiResult: hash keys are compared by the caller, so lookups in a result are not modelled; addresses are offsets into the arena, and a hash key is its text.
- DeflateRing.Deflate.Write: nothing is claimed about order for `PSYNC_DEFLATE_FLUSH_END`, whose last overflow the code drops; `psync_deflate_pending` is not modelled, nor builds in which a failed assertion stops the program.
- DownloadThread.Thread.ProcessFileDownloadData: a write that stores nothing of a non-empty buffer without reporting an error, after which the code tries again, is taken as a failed write.
- Download: stream numbers are unbounded, so the wrap after 2^32 requests on one connection is not captured; sending requests, sockets, TLS and the local socket pair either work or end the thread; the database rows written for a header are left out.
- CacheSteps: the string hash is any function of the key, and a callback that frees a value does not call the cache.
- CacheSteps.Step: a step is one critical section, so the memory model below the mutexes is not captured.
- SyncPlan: rows are separate sequences rather than one flat buffer; other tables of the database are left out.
- FolderPath: the database is a map from folder numbers to parent and name; a table with cycles, on which printing does not end, is excluded.
- Quota, contacts, accounts, the user interface, upload and download scheduling: plumbing around foreign calls.
