# LatencyDesk: verified protocol cores

LatencyDesk is a remote desktop with a very short path from screen to screen. This project
models the parts of it that are codecs, parsers, bounded queues and ownership protocols, and
proves what they promise. Everything here is Dafny 4.11; `dafny verify dfyconfig.toml` checks
the whole project.

What is modelled, and the main result of each part:

- **Exact frames over datagrams** (`PackBits`, `ExactFrame`, `MediaWire`, `Tiling`,
  `Reassembly`, `ReassemblyRuns`, `Provenance`, `Acceptance`, `Delivery`, `EndToEnd`,
  `ReassemblerObject`). A frame
  that is encoded, cut into datagrams and delivered in any order, with duplicates and other
  traffic, comes back on the last missing datagram and on no earlier one
  (`EndToEnd.FrameSurvivesDelivery`), and every byte ever returned was carried by an accepted
  datagram (`Provenance.EveryByteWasCarried`), and no packet taken for a returned frame is
  contradicted by it (`Acceptance.FrameContradictsNothing`). The PackBits encoder can cut a literal of 129
  bytes, whose control byte means a run to the decoder; the round trip holds exactly when it
  does not (`PackBits.RoundTripExactly`).
- **The H.264 byte and bit layer** (`Rbsp`, `ExpGolomb`, `SliceHeader`, `AnnexB`,
  `StartCodes`). The
  unescaping does not reset its zero count after an emulation byte, so its inverse differs from
  the escaping of ITU-T H.264 on exactly one family of payloads
  (`Rbsp.EscapingsAgreeExactly`). Length-prefixed units survive conversion to a byte stream
  and back under an exact condition on their lengths (`AnnexB.SurvivesExactly`).
- **Input that must not be lost** (`InputQueue`, `MotionFate`, `Input`, `Viewer`,
  `ViewerWire`, `HostInput`, `HostActions`, `InputPath`). The event queue refines a FIFO that
  latches (`InputQueue.FollowsFifo`), and every motion it does not deliver has met one of three
  fates (`MotionFate.EveryEventTold`); what the UI holds is
  what the host holds once everything has drained (`InputPath.HostHoldsWhatUiHolds`); and the
  platform follows the host's reconciler except in one exactly stated case
  (`HostInput.PlatformFollowsExactly`). Motion and wheel events come out once and in order
  (`HostActions.EveryMotionOnce`).
- **Ownership** (`CallbackGate`, `DdaLease`, `SurfacePool`). No wakeup is lost at the shutdown
  gate, no captured frame is given back while the GPU may be reading it, and a stale surface
  token is refused until the generations come round.
- **Dependency cycles** (`CycleSearch`). The recursive search is sound, complete and ends.

`Bytes` and `Ordering` hold what the parts share: byte and word types, results, big-endian
numbers, orders, maxima and subsequences.

Code that changes things in place is modelled as methods and classes, each proved against a
function of the old state; the theorems about whole runs are stated on those functions.
Exceptions and error returns are result values. The clock, the network, the window system and
the graphics driver appear only through what they report, as parameters that may take any value.

## Model

| member | source | states |
|---|---|---|
| PackBits.RoundTripExactly | scripts/reference_lab.py:83-136 | for every byte string, decoding the encoding at its own length gives it back if and only if the encoder cuts no literal of 129 bytes |
| PackBits.OversizeLiteralCorrupts | scripts/reference_lab.py:96-126 | with such a literal, decoding fails or puts three copies of the literal's first byte where the data has three bytes that are not all alike |
| PackBits.PairAcrossLimit | scripts/reference_lab.py:96-108 | a whole family of inputs on which the round trip fails: no equal neighbours up to byte 127, then a pair across the limit of 128 |
| PackBits.ExpansionBound | scripts/reference_lab.py:83-110 | n bytes encode to at most n + n/128 + 1 bytes |
| PackBits.LiteralStopsAtRun | scripts/reference_lab.py:96-106 | a literal that ends early and before the end of the data is followed by a run of at least three |
| PackBits.RunIsLongest | scripts/reference_lab.py:87-89 | the counted run repeats one byte, and is maximal up to 130 and the end of the data |
| PackBits.RunAtIsLongest | scripts/reference_lab.py:87-89 | at every position the run counted there repeats one byte, and ends at another byte, at the end or at 130 |
| PackBits.BlocksExactly | scripts/reference_lab.py:86-109 | a block that begins with three equal bytes is the longest run of them up to 130; any other is a literal that ends at the first place that is the end, or before three equal bytes, or 128 or more bytes on and not within a pair |
| PackBits.LiteralIsGreedy | scripts/reference_lab.py:96-106 | the literal takes no three equal bytes and passes no place where it may end |
| PackBits.DecodesExactly | scripts/reference_lab.py:113-136 | the decoder returns data if and only if the payload writes it as runs of 3 to 130 and literals of 1 to 128 bytes and its length is the expected one |
| PackBits.DecodeRefuses | scripts/reference_lab.py:113-136 | whatever is refused has, behind runs and literals that were read, the fault its error names: a run without its byte, a run or literal without room, a literal cut short, or the wrong length at the end |
| PackBits.ReadsBack | scripts/reference_lab.py:113-133 | the decoder reads every block that is not an oversize literal back to the bytes it came from |
| PackBits.ReadsOversize | scripts/reference_lab.py:107-126 | the control byte of a 129-byte literal is read as a run of three, and the decoder goes on two bytes later |
| PackBits.DecodeExtends | scripts/reference_lab.py:113-136 | a successful decode has exactly the expected length and keeps everything decoded before |
| PackBits.EncodePackBits | scripts/reference_lab.py:83-110 | the cursor loops compute the encoding the theorems are about |
| PackBits.DecodePackBits | scripts/reference_lab.py:113-136 | the cursor loop computes the decoding the theorems are about, errors included |
| PackBits.CountRun | scripts/reference_lab.py:87-89 | the counting loop finds the run |
| PackBits.ScanLiteral | scripts/reference_lab.py:96-106 | the nested scan finds the end of the literal |
| ExactFrame.ExactRoundTrip | scripts/reference_lab.py:139-171 | an encoded frame decodes to its sequence and pixels if and only if width and height are positive, the pixels are width * 4 * height bytes and no 129-byte literal is cut |
| ExactFrame.AcceptsExactly | scripts/reference_lab.py:159-171 | a byte string decodes to a sequence and pixels if and only if it is the 44-byte header of a positive geometry, with the length and the FNV-1a checksum of these pixels, and a payload that decodes to them |
| ExactFrame.OneByteTells | scripts/reference_lab.py:56-61 | two strings that differ in exactly one byte have different checksums |
| ExactFrame.DamagedByteRefused | scripts/reference_lab.py:159-171 | a frame whose payload decodes to pixels with one byte changed, under the checksum of the original, is refused |
| ExactFrame.FnvOfLetterA | scripts/reference_lab.py:56-61 | the published check value of FNV-1a: one letter a gives AF63DC4C8601EC8C |
| ExactFrame.LayoutOfFields | scripts/reference_lab.py:159-161 | a header with the fixed first eight bytes is the packing of the fields read from it |
| ExactFrame.EncodesExactly | scripts/reference_lab.py:139-155 | an image is encoded if and only if width times four, height, both lengths and the sequence fit their fields; pixels of up to FE000000 (hex) bytes always do |
| ExactFrame.HeaderRefusedExactly | scripts/reference_lab.py:159-168 | which strings are refused as truncated, for their header and for their payload length |
| ExactFrame.FieldsOfLayout | scripts/reference_lab.py:139-161 | reading the fixed header back gives the packed fields, whatever follows |
| ExactFrame.Checksum | scripts/reference_lab.py:56-61 | the loop computes the 64-bit FNV-1a fold, with its truncation |
| MediaWire.EncodeThenDecode | native/common/media_wire.hpp:78-150 | the header encodes exactly when it is valid, and decoding the 44 bytes with anything behind them gives it back |
| MediaWire.DecodeThenEncode | native/common/media_wire.hpp:107-150 | an accepted header encodes to the very bytes it was decoded from |
| MediaWire.ParsersAgree | scripts/reference_lab.py:202-216 | on datagrams of 44 + fragment length bytes the C++ header decoder and the Python parser accept the same inputs with the same fields, except that only the C++ side refuses keyframe with parity |
| MediaWire.RefusalsAgree | scripts/reference_lab.py:202-216 | on the same datagrams both sides refuse for the same reason: each of the five errors of the Python parser stands for the same one to four errors of the C++ decoder |
| MediaWire.SentHeader | scripts/reference_lab.py:174-189 | every datagram sent has kind 1 and bytes 0 and 5 as its flags, and the C++ decoder reads it as stream 1, epoch 1, without dependency, with the frame's number and length and the fragment's offset and length |
| MediaWire.ParsePacket | scripts/reference_lab.py:174-216 | a packet built for a chunk inside the frame parses back to its key, frame length, offset and payload |
| MediaWire.EncodeInto | native/common/media_wire.hpp:107-122 | writing the fields into a fixed array gives the header layout, or the error of the first failing check |
| MediaWire.DecodeFrom | native/common/media_wire.hpp:124-150 | the reads and checks in the source's order give the decoded header or its error |
| MediaWire.ParseMedia | scripts/reference_lab.py:202-216 | a parsed packet has a nonempty payload that lies inside a frame within the limits |
| Bytes.WriteBigEndian | native/common/media_wire.hpp:34-52 | the store loop writes the big-endian digits at the offset and nothing else |
| Bytes.ReadBigEndian | native/common/media_wire.hpp:54-76 | the accumulating loop reads the big-endian value |
| Bytes.DecodeBigEndian | native/common/media_wire.hpp:34-76 | reading what was written gives the value, for every value the width can hold |
| Bytes.EncodeBigEndian | native/common/media_wire.hpp:34-76 | writing what was read gives the bytes |
| Tiling.FullExactly | scripts/reference_lab.py:256-264 | fragments that are nonempty, inside a range and pairwise apart have the range's length in total if and only if they cover every position of it |
| Tiling.NoGap | scripts/reference_lab.py:263-273 | fragments whose lengths add up to the range follow each other in offset order without a gap |
| Tiling.AssembleInOrder | scripts/reference_lab.py:265-275 | assembling them gives a frame of that length in which every byte is the byte some fragment carried for its position |
| Reassembly.PacketKeeps | scripts/reference_lab.py:233-275 | every packet keeps the invariant (accounting, nonempty disjoint fragments inside the frame, incomplete), never ends in a gap, and hits the capacity error if and only if no frame is allowed at all |
| Reassembly.EvictKeeps | scripts/reference_lab.py:239-242 | eviction keeps the accounting and every surviving frame, and stops with room or with nothing left |
| Reassembly.AdmitKeeps | scripts/reference_lab.py:238-247 | after eviction there is room for an allowed frame if and only if at least one frame is allowed |
| Reassembly.StoreKeeps | scripts/reference_lab.py:251-275 | storing a fragment keeps the invariant, and the only errors are conflict and overlap; which of them, and when, is stated by Acceptance.StoreExactly |
| Reassembly.FinishKeeps | scripts/reference_lab.py:263-275 | a complete frame leaves the table, carries its frame number and is assembled from its fragments |
| Reassembly.DropKeeps | scripts/reference_lab.py:281-284 | dropping a key, present or not, keeps the accounting |
| ReassemblyRuns.ReachableStates | scripts/reference_lab.py:225-284 | in every state reachable by any datagrams and discards, reserved is the sum of the held frame lengths and within its limit, every held frame is incomplete and tiled without overlap, and neither gap nor (with a frame allowed) capacity can be reported |
| ReassemblyRuns.DiscardForgets | scripts/reference_lab.py:277-279 | after a discard, whatever was fed before, the reassembler is as new except for its high-water mark |
| ReassemblyRuns.RecordIsRun | scripts/reference_lab.py:233-284 | every state and every sequence of operations has a recorded run, which ends where running the operations ends |
| ReassemblyRuns.EvictsShortestPrefix | scripts/reference_lab.py:239-242 | eviction removes exactly the shortest prefix of the held keys, in their order, whose removal leaves room for the frame in count and bytes, or everything if none does; every shorter prefix leaves no room |
| ReassemblyRuns.DropsSmallest | scripts/reference_lab.py:239-242 | removing the least key n times removes the n smallest keys and nothing else |
| ReassemblyRuns.SmallestIsPrefix | scripts/reference_lab.py:240 | the keys removed are all below the keys kept, in lexicographic order |
| ReassemblyRuns.PrefixIsSmallest | scripts/reference_lab.py:240 | a prefix of the keys is determined by its size |
| ReassemblyRuns.HighWaterExact | scripts/reference_lab.py:230-247 | over every run the recorded maximum is the maximum of every value that reserved took on, inside operations too |
| Provenance.EveryByteWasCarried | scripts/reference_lab.py:202-284 | over every run of arbitrary byte strings, every byte of every returned frame was carried for that position by a datagram of the same key and frame length, accepted since that key was last opened |
| Provenance.FragmentOrigin | scripts/reference_lab.py:251-263 | every fragment held was carried by an accepted datagram, and its key was held ever since |
| Acceptance.FrameContradictsNothing | scripts/reference_lab.py:233-275 | over every run of arbitrary byte strings, a returned frame agrees on all its positions with every packet of its key that was taken while the key was held |
| Acceptance.PacketExactly | scripts/reference_lab.py:233-275 | the outcome and the new state of every packet, each error included, told from what is held: budget, capacity, another length, another byte or extent at a held position, completion, or waiting |
| Acceptance.HeldRefusedExactly | scripts/reference_lab.py:248-263 | a packet of a held key is refused if and only if its frame is over budget, has another length, or carries another byte or extent for a held position; then, unless it was over budget, that key is gone and every other frame is as it was |
| Acceptance.StoreExactly | scripts/reference_lab.py:251-275 | a packet of a held frame is a conflict, an overlap, the completion or one more fragment, told from the positions held: complete if and only if every position is covered, and then with every held byte in its place |
| Acceptance.CompleteAgrees | scripts/reference_lab.py:263-275 | a returned frame has the bytes of the packet that completed it and of everything held before |
| Delivery.ReturnedOnLastChunk | scripts/reference_lab.py:233-275 | for any cutting of a frame, delivered in any order with repeats and other keys between, the frame is returned on the last missing chunk and nothing before |
| Delivery.CompleteExactly | scripts/reference_lab.py:263-264 | the received chunks add up to the frame if and only if all have arrived |
| Delivery.AssemblesTo | scripts/reference_lab.py:265-275 | assembling all chunks of a cutting gives the frame |
| Delivery.OtherPacket | scripts/reference_lab.py:233-275 | a packet of another key leaves a held frame as it was, or evicts it |
| EndToEnd.FrameSurvivesDelivery | scripts/reference_lab.py:139-284 | encode, fragment, deliver in any order with duplicates and with other traffic and discards that do not cost the frame: it is returned on the last missing datagram and on no earlier one, and decodes to the sequence and pixels exactly when no 129-byte literal was cut |
| EndToEnd.AnyOrderWillDo | scripts/reference_lab.py:192-275 | the datagrams of any frame, given to a new reassembler in any order and any number of times each, return the frame when the last missing one arrives and nothing before |
| EndToEnd.Reassembles | scripts/reference_lab.py:192-284 | the same for the bytes of any frame within the limits and any fragment size of 1 to 16384 |
| EndToEnd.SendsEachChunk | scripts/reference_lab.py:192-199 | every chunk is sent, and every datagram sent is that of a chunk |
| EndToEnd.SendsInOrder | scripts/reference_lab.py:196-199 | the datagrams are as many as the chunks, and datagram i is the one at offset i times the fragment size |
| EndToEnd.ChunksCut | scripts/reference_lab.py:196-199 | the chunks are disjoint pieces of the frame at their own offsets |
| EndToEnd.ChunksCover | scripts/reference_lab.py:196-199 | every byte of the frame is in a chunk |
| EndToEnd.SentParses | scripts/reference_lab.py:174-216 | every datagram sent is parsed to its chunk |
| EndToEnd.FragmentsExactly | scripts/reference_lab.py:192-199 | a frame is cut if and only if it has 1 to 16777216 bytes, the MTU is 45 to 16428 and the number fits 64 bits; a number that does not is the other error |
| ReassemblerObject.Reassembler.constructor | scripts/reference_lab.py:226-231 | an empty table |
| ReassemblerObject.Reassembler.IngestDatagram | scripts/reference_lab.py:233-275 | the method keeps the invariant, and its outcome and new state are the ones all run theorems speak of |
| ReassemblerObject.Reassembler.EvictFor | scripts/reference_lab.py:239-242 | the loop evicts |
| ReassemblerObject.Reassembler.StorePacket | scripts/reference_lab.py:251-275 | duplicates, conflicts, overlaps and completion, with the frame table updated in place, as stated by Acceptance.StoreExactly |
| ReassemblerObject.Reassembler.DropKey | scripts/reference_lab.py:281-284 | removes the key and its reservation |
| ReassemblerObject.Reassembler.DiscardAll | scripts/reference_lab.py:277-279 | empties the table, keeps the limits and the maximum |
| ReassemblerObject.AssembleFrame | scripts/reference_lab.py:265-275 | the copy into an output array in offset order gives the assembled frame, or the gap |
| ReassemblerObject.MeetsAny | scripts/reference_lab.py:256-261 | the scan reports an overlap exactly when some held fragment meets the new one |
| ReassemblerObject.SumLengths | scripts/reference_lab.py:263 | the sum over the fragments in any order is their total length |
| CycleSearch.CycleFailures | scripts/source_sanity.py:206-229 | on every finite graph the search ends, every finding is a cycle of the graph without repeated nodes, every closed walk uses the closing edge of some finding, no edge closes two findings, nothing is found if and only if the graph is acyclic, and the findings stand in the lexicographic order of the walks from keys that led to them; targets need not be keys |
| CycleSearch.EmptyExactly | scripts/source_sanity.py:206-229 | once every node is finished, no finding and acyclic are the same |
| CycleSearch.ClosedWalkIsCut | scripts/source_sanity.py:206-229 | a closed walk none of whose edges closes a finding would have to finish before itself |
| CycleSearch.Search.Visit | scripts/source_sanity.py:212-225 | one visit keeps the colours, the path and the findings consistent, and afterwards the node is finished or the edge to it closes a recorded cycle |
| CycleSearch.ReportKeeps | scripts/source_sanity.py:215-218 | the path from the node's first position, closed by the node, is a cycle of the graph |
| CycleSearch.LeaveKeeps | scripts/source_sanity.py:223-225 | a node whose targets are all settled can be finished |
| CycleSearch.SortedNames | scripts/source_sanity.py:221-228 | the names in lexicographic order, each once |
| CycleSearch.TrailsNext | scripts/source_sanity.py:221-228 | every walk already recorded comes before any walk through a later name |
| CycleSearch.EachClosedOnce | scripts/source_sanity.py:212-225 | each node is entered on one walk, so no edge closes two findings |
| Rbsp.UnescapeExactly | native/windows/mf_h264_probe.cpp:648-680 | unescaping accepts e with result r if and only if both are within their bounds and e is the escaping of r that puts 03 before every byte at most 3 after two or more zeros |
| Rbsp.UnescapeRefuses | native/windows/mf_h264_probe.cpp:648-680 | whatever is refused although it is short enough has, behind the escaping of what was read, the fault its error names: a missing 03, a 03 without its byte, or one byte too many |
| Rbsp.EscapingsAgreeExactly | native/windows/mf_h264_probe.cpp:648-680 | that escaping is the one of section 7.3.1 of ITU-T H.264 if and only if r has no three zeros followed by a byte at most 3 |
| Rbsp.ReadsStandardExactly | native/windows/mf_h264_probe.cpp:648-680 | within the bounds, a payload escaped by section 7.4.1 of ITU-T H.264 is read back if and only if it has no such run and does not end in a zero |
| Rbsp.StandardRefused | native/windows/mf_h264_probe.cpp:658-661 | a concrete standard payload, 00 00 03 00 01, that is refused |
| Rbsp.StandardMisread | native/windows/mf_h264_probe.cpp:658-667 | a concrete standard payload, 00 00 03 00 03 01, that is accepted with one byte missing |
| Rbsp.AcceptsStandardExactly | native/windows/mf_h264_probe.cpp:648-680 | a standard payload within the bounds is accepted, rightly or not, if and only if where the two counts of zeros part a byte at most 3 is a 3 followed by another byte at most 3, and it does not end there |
| Rbsp.UnescapeRbsp | native/windows/mf_h264_probe.cpp:648-680 | the loop with its saturating zero count and its flag computes the unescaping, errors included |
| ExpGolomb.UeReadsCode | native/windows/mf_h264_probe.cpp:621-633 | anywhere in a bit string the reader reads the code of v and consumes exactly its bits, for every v up to 2^32 - 2, and reports overflow for every larger v |
| ExpGolomb.UeReadsOnlyCodes | native/windows/mf_h264_probe.cpp:621-633 | whatever the reader accepts is the code of the value it returns, which is at most 2^32 - 2 |
| SliceHeader.ClassIsRead | native/windows/mf_h264_probe.cpp:682-706 | for every header of three codes with any tail, packed, escaped and followed by any number of zero bytes, the parser returns P for the slice types 0 and 5, B for 1 and 6, I for 2 and 7, SP for 3 and 8, SI for 4 and 9, and refuses a type above 9 |
| SliceHeader.StandardClassIsRead | native/windows/mf_h264_probe.cpp:682-706 | the same classes for payloads escaped by the standard, where the two escapings agree |
| SliceHeader.SliceParsesExactly | native/windows/mf_h264_probe.cpp:682-706 | the parser returns P if and only if the payload is, up to zero bytes behind it, the escaping of three codes and a tail (of at least 8 bits for IDR) whose slice type is 0 or 5; B likewise for 1 or 6, I for 2 or 7, SP for 3 or 8, SI for 4 or 9 |
| SliceHeader.ClassOf | native/windows/mf_h264_probe.cpp:697-705 | the five classes of the ten slice types, two each, as table 7-6 of ITU-T H.264 has them |
| SliceHeader.NoDataExactly | native/windows/mf_h264_probe.cpp:682-685 | there is no data if and only if every byte is zero |
| SliceHeader.ParsesHeader | native/windows/mf_h264_probe.cpp:686-705 | three codes in a row are read, and the middle one decides the class by the table above or is refused above 9 |
| SliceHeader.AcceptsOnlyHeaders | native/windows/mf_h264_probe.cpp:686-705 | whatever bits are accepted are three codes and a tail |
| SliceHeader.BitAt | native/windows/mf_h264_probe.cpp:613-619 | bit k of a byte string is the shifted and masked bit of byte k/8 |
| SliceHeader.UnpackPacked | native/windows/mf_h264_probe.cpp:613-619 | packing bits into bytes and reading them gives the bits |
| SliceHeader.BitReader.ReadBit | native/windows/mf_h264_probe.cpp:613-619 | the next bit, advancing by one, or truncation without advancing |
| SliceHeader.BitReader.ReadUe | native/windows/mf_h264_probe.cpp:621-633 | the two loops read one code; no step exceeds 32 bits; after an error the position is the end, or 32 bits on |
| SliceHeader.BitReader.RequireBits | native/windows/mf_h264_probe.cpp:634-639 | succeeds if and only if position and count together stay within the bits |
| SliceHeader.ParseSliceClass | native/windows/mf_h264_probe.cpp:682-706 | the method returns what the theorems are about, errors included |
| AnnexB.SurvivesExactly | native/windows/mf_h264_encoder.cpp:585-608 | converting nonempty units from their 4-byte length-prefixed form and splitting the result gives the units back if and only if there are at most 2048, none embeds 00 00 01, and the first length is neither 1 nor 256 to 511, unless all lengths are 1 |
| AnnexB.LengthTakenForCode | native/windows/mf_h264_encoder.cpp:587-591 | one clean unit of 256 bytes does not survive |
| AnnexB.StreamSplitsExactly | native/windows/mf_h264_probe.cpp:708-748 | a stream of four-byte start codes splits into its units if and only if there are at most 2048 and none embeds a start code |
| AnnexB.LooksLikeStreamExactly | native/windows/mf_h264_encoder.cpp:587-591 | prefixed data is taken for a stream if and only if its first length is 1 or 256 to 511 |
| AnnexB.SameFormExactly | native/windows/mf_h264_encoder.cpp:587-607 | prefixed form and stream form are the same bytes if and only if every unit has one byte |
| AnnexB.ConvertsPrefixed | native/windows/mf_h264_encoder.cpp:593-608 | from any offset, the loop turns the remaining prefixed units into a stream |
| AnnexB.ConvertsExactly | native/windows/mf_h264_encoder.cpp:593-608 | data that does not begin like a start code is converted if and only if it is nonempty length-prefixed units, and then to their stream |
| AnnexB.ConvertsOnlyPrefixed | native/windows/mf_h264_encoder.cpp:596-608 | whatever the loop accepts from an offset on is length-prefixed units |
| AnnexB.ConvertByLengthSplits | native/windows/mf_h264_encoder.cpp:547-584 | with a length list, the converted sample splits into the cut and stripped units if and only if none of them embeds a start code |
| AnnexB.LengthsAcceptedExactly | native/windows/mf_h264_encoder.cpp:547-584 | a length list is accepted if and only if it has 1 to 2048 lengths, all positive and summing to the data, and no piece is a bare start code |
| AnnexB.SplitsStream | native/windows/mf_h264_probe.cpp:708-748 | splitting finds exactly the units of a clean stream |
| AnnexB.UnitsAreClean | native/windows/mf_h264_probe.cpp:708-748 | no unit found embeds a start code, and the bytes that are not in a unit are three or four for each unit |
| AnnexB.FullCodesAreStream | native/windows/mf_h264_probe.cpp:708-748 | if four bytes per unit account for all bytes, the input is the stream of the units |
| AnnexB.FindStarts | native/windows/mf_h264_probe.cpp:714-732 | the scan finds every start code, four bytes before three, up to the limit |
| AnnexB.SplitAnnexB | native/windows/mf_h264_probe.cpp:708-748 | the method returns the split the theorems are about, errors included |
| StartCodes.SplitsExactly | native/windows/mf_h264_probe.cpp:708-748 | for every byte string, from where 00 00 01 occurs: more than 2048 occurrences are too many units; else a nonzero byte before the first is leading garbage; else one that nothing follows is an empty unit; else the units are what lies between, a zero before an occurrence counting to the code |
| StartCodes.UnitsAre | native/windows/mf_h264_probe.cpp:714-746 | there is one unit for each occurrence, in order |
| AnnexB.ConvertToAnnexB | native/windows/mf_h264_encoder.cpp:585-608 | the method returns the conversion the theorems are about, refusals included |
| AnnexB.ConvertWithLengths | native/windows/mf_h264_encoder.cpp:547-584 | the loop over the length list cuts, strips and joins, refusing the same lists |
| InputQueue.FollowsFifo | native/windows/input_event_queue.hpp:36-74 | over every run of pushes and pops, the queue seen on transitions only is a FIFO of capacity 64 that latches on overflow, and delivers what that FIFO delivers |
| InputQueue.RunFaithful | native/windows/input_event_queue.hpp:36-74 | before the latch no transition is lost, doubled or reordered, and delivered plus queued is a subsequence of what was pushed |
| InputQueue.LatchesExactly | native/windows/input_event_queue.hpp:50-62 | a push latches if and only if the queue is latched or 64 transitions are undelivered and the event is another |
| InputQueue.OnlyTheMarker | native/windows/input_event_queue.hpp:37-39 | after the latch the overflow marker is delivered once, by the first pop, and nothing else ever |
| MotionFate.EveryEventTold | native/windows/input_event_queue.hpp:36-74 | over every run that has not latched, delivered and then queued are pushed events at increasing positions; an event is missing if and only if it is a motion that was last in the queue when a newer one came, that met a full queue ending in a transition, or that was the oldest motion when a transition met a full queue; and a motion that is there was the newest before the next transition, until it was delivered |
| MotionFate.NewestMissing | native/windows/input_event_queue.hpp:41-64 | the newest motion before a transition or the end is missing only if a full queue refused it or gave it up for a transition |
| MotionFate.NewestQueued | native/windows/input_event_queue.hpp:41-49 | after pushing a motion into an open queue it is the last one queued, unless 64 events are queued and the last is a transition, and then nothing changes |
| MotionFate.QueueBefore | native/windows/input_event_queue.hpp:36-65 | what these fates call the queue before a push is the queue of the run so far |
| MotionFate.NewestKept | native/windows/input_event_queue.hpp:41-64 | every push and pop keeps that the motions there are the newest of their stretch |
| MotionFate.ToldKept | native/windows/input_event_queue.hpp:36-74 | every push and pop keeps that exactly the three fates account for what is missing |
| InputQueue.RunCoalesces | native/windows/input_event_queue.hpp:41-64 | in every reachable state no two motions stand next to each other; which of them stays is stated by MotionFate.EveryEventTold |
| InputQueue.PushRefines | native/windows/input_event_queue.hpp:36-65 | one push is one push of the abstract FIFO, or none for a motion; what happens to motions is stated by MotionFate.EveryEventTold |
| InputQueue.PopRefines | native/windows/input_event_queue.hpp:67-74 | one pop is one pop of the abstract FIFO, or none where a motion is delivered |
| InputQueue.InputEventQueue.PushEvent | native/windows/input_event_queue.hpp:36-65 | the in-place updates of deque and latch, which are the ones the run theorems here and in MotionFate speak of |
| InputQueue.InputEventQueue.PopEvent | native/windows/input_event_queue.hpp:67-74 | takes the first event, if any |
| Viewer.RunKeeps | apps/client/src/software_viewer.rs:62-99 | in every interleaving of UI and network task: the events accepted and pending fold to the UI's held state, the network task's state is the fold of what it took, the messages sent fold to it, pending and channel stay within 256 and 128, and before the first coalescing no discrete event is lost or reordered |
| Viewer.Converges | apps/client/src/software_viewer.rs:233-410 | once drained, the network task's held state and the fold of all messages are the UI's held state |
| Viewer.StopReleases | apps/client/src/software_viewer.rs:429-434 | a clean stop sends the last message of the run, whatever follows, and leaves a receiver of all messages holding nothing |
| Viewer.UiAheadKept | apps/client/src/software_viewer.rs:72-80 | overflow coalescing and full-channel retries keep what the pending events will bring about |
| Viewer.NetBehindKept | apps/client/src/software_viewer.rs:385-388 | the network task applies each accepted event once, in order |
| Viewer.LosslessKept | apps/client/src/software_viewer.rs:57-99 | no step loses, doubles or reorders a discrete event unless it coalesces |
| Viewer.SamplingTracksKeys | apps/client/src/software_viewer.rs:282-319 | one pass over the keyboard, in any order of the sets, leaves exactly the usages of the keys that are down |
| Viewer.UiHoldsKeysDown | apps/client/src/software_viewer.rs:282-319 | in every run, interleaved with anything, whose key events come from passes over the keyboard, the UI holds the usages of the keys that are down |
| Viewer.UsageIdentifiesKey | apps/client/src/software_viewer.rs:451-503 | no two keys share a usage |
| Viewer.UsageExactly | apps/client/src/software_viewer.rs:451-503 | keys and usages determine each other: letters 04 to 1d, digits 1e to 27, enter to space 28 to 2c, arrows 4f to 52, left control, shift and alt e0 to e2 (hex), and no other |
| ViewerWire.EverythingArrives | apps/client/src/software_viewer.rs:233-410 | from every state the running viewer can reach, some further sends and receives lead to one in which a receiver of all messages holds what the UI held and the last motion it saw is the newest move |
| ViewerWire.NewestMotionKept | apps/client/src/software_viewer.rs:40-54 | in every interleaving the motions that got into the channel and the one that waits are moves in order, none twice, and while the viewer runs the last of them is the newest move |
| ViewerWire.WireCarriesTaken | apps/client/src/software_viewer.rs:385-410 | in every run the messages, snapshots and releases apart, are the events the network task took, each once and in order |
| ViewerWire.CoalescesExactly | apps/client/src/software_viewer.rs:72-80 | the queue was folded into a snapshot if and only if a discrete event met 256 pending ones |
| ViewerWire.TickSends | apps/client/src/software_viewer.rs:396-404 | every tick sends a snapshot of what a receiver of all messages so far would hold |
| Viewer.PendingReliableInput.constructor | apps/client/src/software_viewer.rs:63-68 | empty, with room for at least one event |
| Viewer.PendingReliableInput.Push | apps/client/src/software_viewer.rs:72-80 | appends, or replaces everything by one snapshot and says so |
| Viewer.FlushIsSteps | apps/client/src/software_viewer.rs:82-99 | a flush of the open channel is one send step of the system for each pending event, and loses none |
| Viewer.PendingReliableInput.Flush | apps/client/src/software_viewer.rs:82-99 | moves as many events as fit, in order, keeps the rest, and fails exactly when the channel is closed with something to send, at the cost of one event |
| Viewer.Channel.TrySend | apps/client/src/software_viewer.rs:47-54 | a bounded channel refuses when closed or full and otherwise appends |
| HostInput.PlatformFollowsExactly | crates/input/src/lib.rs:377-415 | a platform that held what the reconciler held still does after a message, if and only if the message is not a press of a code or button out of range that opens a newer epoch while something is held; there the release actions are lost with the error |
| HostInput.ReleasesLost | crates/input/src/lib.rs:391-399 | direct calls into that case, which no decoded message reaches: a key stays down on the platform that the reconciler has forgotten |
| HostInput.PlatformInSync | crates/input/src/lib.rs:377-438 | over every run of messages, disconnects and release plans, of any epochs, codes and order, the platform holds what the reconciler says after every operation, if and only if no operation runs into that case |
| HostInput.CarriedNeverLose | crates/input/src/lib.rs:377-438 | runs of messages that the wire can carry never run into it |
| HostInput.ActionsReconcile | crates/input/src/lib.rs:487-511 | the actions of a snapshot take any held state to the snapshot |
| HostInput.FreshApplies | crates/input/src/lib.rs:445-485 | a fresh event's actions have the effect of the event on what is held; it is refused if and only if it is a press out of range, which changes nothing; the actions themselves are stated by HostActions.FreshCarriesOut |
| HostInput.DisconnectRetires | crates/input/src/lib.rs:421-426 | after a disconnect nothing is held, and no message of that or an older epoch has any effect |
| HostInput.HostFollows | crates/input/src/lib.rs:377-438 | after any messages of any epochs, codes and order, with any losses and repeats, and any disconnects and release plans, the reconciler holds the fold of the newest epoch's effects: its usable messages with a higher number than all before, and its release plans; or nothing once it was disconnected |
| HostInput.EveryRun | crates/input/src/lib.rs:377-438 | the same for every run of a new host, without any condition |
| HostActions.EveryMotionOnce | crates/input/src/lib.rs:377-485 | over every run of a new host, the motion and wheel events it emits are those of the applied messages, each once and in order; applied is a message without a press out of range that opens an epoch, or is of the newest one, not disconnected since, with a higher number than every usable one of it |
| HostActions.EveryStepEmits | crates/input/src/lib.rs:377-438 | what every operation of every run emits: nothing for a message that is not applied, a motion or wheel event as it is, and otherwise each key and button on which the states before and after differ, once, keys first and ascending, with everything held released first where an epoch opens |
| HostActions.EveryOutcome | crates/input/src/lib.rs:377-415 | every message of every run is applied, stale in its epoch or stale in its number exactly under the stated conditions on the messages before it |
| HostActions.FreshCarriesOut | crates/input/src/lib.rs:445-485 | one event not refused emits itself if it is a motion or wheel event, and otherwise exactly the differences it makes |
| HostActions.ActionsDiffer | crates/input/src/lib.rs:487-511 | the actions of a snapshot are every key and button on which the states differ, once, in ascending order, and nothing else |
| HostInput.SnapshotRepairs | crates/input/src/lib.rs:377-438 | whatever was lost, reordered or out of range, a newest message that is a snapshot decides what is held, unless a release plan or disconnect follows |
| HostInput.HostFollowsInOrder | crates/input/src/lib.rs:406-414 | a session of any length, delivered in order with any repeats, leaves the fold of the messages arrived, up to the last with a number of its own |
| HostInput.InputReconciler.ApplyMessage | crates/input/src/lib.rs:377-415 | the method's branches in place give the outcome and state the theorems are about |
| HostInput.InputReconciler.ReconcileSnapshot | crates/input/src/lib.rs:487-511 | the two loops emit exactly the differences, keys before buttons |
| HostInput.InputReconciler.ApplyFresh | crates/input/src/lib.rs:445-485 | leaves the state alone on error, and otherwise gives the state and the actions that HostActions.FreshCarriesOut states |
| HostInput.InputReconciler.DisconnectReleasePlan | crates/input/src/lib.rs:421-426 | releases everything held, retires the epoch and forgets the sequence |
| InputPath.HostHoldsWhatUiHolds | apps/client/src/software_viewer.rs:233-410 | from the UI through channel, wire and reconciler, for sessions of every length: once everything is drained and delivered, with repeats, the host holds what the UI holds if and only if the first 2^64 - 1 messages fold to what all of them fold to, and always in sessions of fewer than 2^64 messages |
| InputPath.HostHoldsKeysDown | apps/client/src/software_viewer.rs:233-410 | from keyboard to host: once drained and delivered, the host holds the usages of the keys that are down |
| InputPath.HostFollowsWire | apps/client/src/software_viewer.rs:378-435 | in every state of every run, a host that was given all messages holds the fold of the first 2^64 - 1 of them |
| InputPath.StopReleasesHost | apps/client/src/software_viewer.rs:429-434 | after a clean stop of a session of fewer than 2^64 messages the host holds nothing |
| InputPath.LateKeyLost | apps/client/src/software_viewer.rs:388-404 | the limit is sharp: after 2^64 - 1 snapshots a key press is message 2^64, and the host does not hold it |
| CallbackGate.NoLostWakeup | native/common/callback_gate.hpp:49-72 | for any number of threads and any interleaving, with spurious wakeups, the active count is the number of live leases and no waiter sleeps in a closed and drained gate |
| CallbackGate.DrainedForever | native/common/callback_gate.hpp:49-72 | once closed and drained no callback is ever active again |
| CallbackGate.WaitAfterCloseIsFinal | native/common/callback_gate.hpp:56-65 | if a wait returns while the gate is closed, no callback runs from then on |
| CallbackGate.WaitersCanReturn | native/common/callback_gate.hpp:62-65 | in a closed gate without leases every waiter has returned or does with its next check |
| CallbackGate.LastLeaveWakesExactly | native/common/callback_gate.hpp:68-72 | in every reachable state, the leaving of the last callback leaves no sleeper if and only if the gate is closed or nobody slept |
| CallbackGate.LeasesExactly | native/common/callback_gate.hpp:18-72 | after every run, a lease is granted if and only if the gate was never told to close, is live until it is released or moved, and no step changes another lease |
| CallbackGate.LooksExactly | native/common/callback_gate.hpp:62-65 | after every run, the look of a waiter that is not asleep returns if and only if no lease is live, and else it sleeps |
| CallbackGate.WakesExactly | native/common/callback_gate.hpp:56-72 | after every run, a sleeper wakes if and only if it wakes spuriously or the step leaves the gate closed and drained |
| CallbackGate.ClosedExactly | native/common/callback_gate.hpp:56-60 | the gate is closed if and only if it was told to close |
| CallbackGate.OpenGateLosesWakeup | native/common/callback_gate.hpp:62-72 | a run into the other case: the gate is open, the last callback leaves, and a waiter sleeps on |
| CallbackGate.WakesSleepers | native/common/callback_gate.hpp:56-72 | whichever step drains the gate wakes every sleeper, and nobody falls asleep in a drained gate |
| CallbackGate.CountKept | native/common/callback_gate.hpp:18-71 | entering, leaving and moving a lease keep count and leases equal |
| CallbackGate.TryEnterGate | native/common/callback_gate.hpp:49-54 | a lease with a live grant on the gate, or none once the gate is closed |
| CallbackGate.Lease.constructor | native/common/callback_gate.hpp:33 | a lease of a granted entry |
| CallbackGate.Gate.Enter | native/common/callback_gate.hpp:49-54 | a refused or granted entry is that step of the system |
| CallbackGate.Gate.Shut | native/common/callback_gate.hpp:56-60 | closing is that step, and notifies exactly when it has to |
| CallbackGate.Gate.Leave | native/common/callback_gate.hpp:68-72 | leaving with a live lease is that step; the count does not fall below zero |
| CallbackGate.Gate.Look | native/common/callback_gate.hpp:62-65 | a waiter's look at the count is that step, and sees whether leases are left |
| CallbackGate.Lease.ReleaseLease | native/common/callback_gate.hpp:35-40 | a lease leaves the gate once |
| CallbackGate.Lease.MoveAssign | native/common/callback_gate.hpp:20-26 | the old grant is given up and the other's taken over; assigning a lease to itself does nothing |
| DdaLease.MakeAll | native/windows/dda_capture_source.cpp:48-362 | any sequence of public calls on a new source with any native failures: every native call is permitted when it is made, no guard on the copy state fires, and the process ends only where a frame could not be given back |
| DdaLease.LawfulMeans | native/windows/dda_capture_source.cpp:188-316 | what permitted means over a whole log: no frame is given back after the GPU was told to read it without proof in between, and none is acquired while another is out |
| DdaLease.Make | native/windows/dda_capture_source.cpp:48-362 | every public call keeps: a frame is outstanding exactly when the pending texture is set, nothing is being read, and no copy is recorded as begun |
| DdaLease.DdaCaptureSource.DetachOwned | native/windows/dda_capture_source.cpp:154-316 | returns if and only if every native call on the chosen path succeeded, and then read, waited and gave back, in this order; however it fails the frame is no longer pending, and the source is still usable if and only if the work begun was proven finished and the frame given back |
| DdaLease.DdaCaptureSource.TryDetach | native/windows/dda_capture_source.cpp:174-282 | the copy, the conversion and the staged conversion: which states an exception can leave behind |
| DdaLease.DdaCaptureSource.FinishDetach | native/windows/dda_capture_source.cpp:195-199 | waits, records the proof, then gives the frame back |
| DdaLease.DdaCaptureSource.Poll | native/windows/dda_capture_source.cpp:81-113 | a frame becomes pending exactly when it arrived and could be read; one that cannot be read is given back at once; the native calls made |
| DdaLease.DdaCaptureSource.Start | native/windows/dda_capture_source.cpp:48-79 | refuses a second start, and is ready exactly when everything was created |
| DdaLease.DdaCaptureSource.DiscardPending | native/windows/dda_capture_source.cpp:318-323 | gives the pending frame back with one call; a failure leaves it pending |
| DdaLease.DdaCaptureSource.Stop | native/windows/dda_capture_source.cpp:347-354 | gives a pending frame back before letting everything go; ends the process if that fails |
| DdaLease.DdaCaptureSource.ReleasePending | native/windows/dda_capture_source.cpp:356-362 | a failed release changes nothing |
| DdaLease.DdaCaptureSource.DestroyUnusable | native/windows/dda_capture_source.cpp:325-345 | lets everything go and leaves a state in which only start and stop do anything |
| DdaLease.CopyIsAsAsked | native/windows/dda_capture_source.cpp:160-282 | a copy that completes has the frame's own format and size, or is NV12 of even size through the video processor, with every call of its path successful |
| DdaLease.FormatsByLetters | native/windows/dda_capture_source.cpp:160-172 | three formats may be given by their four letters, and zero stands for the frame's own value |
| DdaLease.PollOutcomes | native/windows/dda_capture_source.cpp:88-113 | polling ends the process if and only if a frame was acquired, cannot be used and cannot be given back |
| SurfacePool.PoolAccount | scripts/surface_reference.py:30-87 | over every run of acquisitions and releases with any sizes and tokens: reserved is the sum of the occupied sizes and within the total, acquisitions less releases are the surfaces in use, and both high-water marks are the exact maxima of the run |
| SurfacePool.AcceptedExactly | scripts/surface_reference.py:53-77 | a token issued in the run is accepted if and only if its slot is occupied and has been acquired a multiple of 2^64 - 1 times since |
| SurfacePool.ReleasedStaysRefused | scripts/surface_reference.py:53-77 | in every run, an outstanding token is accepted when released, and then refused in every later state until its slot has been acquired 2^64 - 1 more times |
| SurfacePool.OutstandingExactly | scripts/surface_reference.py:45-77 | in every run, an issue is live if and only if its token is outstanding by the operations and their results alone |
| SurfacePool.AcquiredIsLive | scripts/surface_reference.py:45-64 | a granted acquisition makes a live issue of the token it returns |
| SurfacePool.OccupiedIsOutstanding | scripts/surface_reference.py:45-77 | in every run from an empty pool, each occupied slot is that of an outstanding token |
| SurfacePool.StaleAccepted | scripts/surface_reference.py:53-77 | the limit is sharp: in a pool of one slot, after 2^64 - 1 further acquisitions the first token is accepted again |
| SurfacePool.FirstRoundReleases | scripts/surface_reference.py:66-77 | the first round of that run has released that token |
| SurfacePool.LiveTokens | scripts/surface_reference.py:45-77 | in every run, outstanding tokens (returned by an acquisition and not named by a release since) are for different slots, and each is accepted |
| SurfacePool.LiveUntilReleased | scripts/surface_reference.py:45-77 | a live token stays live until it is itself released, and that release succeeds |
| SurfacePool.AcquiresExactly | scripts/surface_reference.py:45-64 | an acquisition is refused if and only if the size is out of range, does not fit into what is left, or every slot is occupied; a refusal is only counted; a grant takes the lowest free slot, in its next generation, and changes no other |
| SurfacePool.ReleasesExactly | scripts/surface_reference.py:66-77 | a release is accepted if and only if its token names an occupied slot of this pool in its generation; it frees that slot and nothing else, and a refused one changes nothing |
| SurfacePool.GenerationStep | scripts/surface_reference.py:53-56 | one acquisition takes the generation of n acquisitions to that of n + 1, which lies in 1 to 2^64 - 1 |
| SurfacePool.AcquireKeeps | scripts/surface_reference.py:45-64 | every acquisition, granted or refused, keeps the pool's own assertions |
| SurfacePool.ReleaseKeeps | scripts/surface_reference.py:66-77 | every release, accepted or refused, keeps them |
| SurfacePool.NewPool | scripts/surface_reference.py:31-43 | a pool exists exactly for configurations in range, and starts empty |
| SurfacePool.SurfacePoolObject.AcquireSurface | scripts/surface_reference.py:45-64 | the checks, the search for the first free slot and the updates in place |
| SurfacePool.SurfacePoolObject.ReleaseSurface | scripts/surface_reference.py:66-77 | accepts the token's slot back in place, or changes nothing |
| SurfacePool.SurfacePoolObject.FindFree | scripts/surface_reference.py:49 | the first free slot, or none |

## Left out

- Where code and prose differ the code is followed: the PackBits literal limit is the loop's (up to 129 bytes, not 128), and unescaping is the loop's, not that of ITU-T H.264.
- ExactFrame.DamagedByteRefused: one changed byte; nothing is claimed about which changes of several bytes FNV-1a detects.
- The text of messages (`dependency cycle: a -> b`, error strings) is not modelled; findings are node sequences and errors are constructors.
- AnnexB.ConvertToAnnexB: the sample's attribute lookup is a parameter (with or without a length list), and a null pointer is not modelled.
- InputQueue.InputEventQueue.PushEvent: calls are one at a time; the caller's lock is not modelled.
- Viewer.Channel.TrySend: stands for the runtime's bounded channel, whose own implementation is not part of the source.
- Viewer.RunKeeps: the UI loop's window, presentation and timing are left out; its sends are single steps that interleave freely with the network task, which covers the loop's fixed order. A send that fails on the network is a stop without the final release.
- The byte encoding of input messages is left out; it would only add another fixed layout. Its limits on absolute motions (a point inside a nonempty area) do not matter to what is held.
- CallbackGate.Gate.Enter: the active count is unbounded, where the source's would wrap after 2^64 simultaneous leases; the mutex is the atomicity of each step.
- DdaLease.DdaCaptureSource.DetachOwned: device, textures and views are present or absent only; the caches of the video processor and the pooled texture are one success or failure, and the pixels of the owned frame are not modelled.
- Rbsp.AcceptsStandardExactly: payloads shorter than the limit of 4 MiB; at the limit itself the final 03 may not fit.
- DdaLease.DdaCaptureSource.Poll: reading the metadata is one success or failure.
- SurfacePool.NewPool: a refused configuration is a null result where the source raises an error.
- The Windows Graphics Capture source, the Media Foundation encoder and decoder, the native bridge, PipeWire and X11 capture, transport, discovery and encryption, the command-line programs and the benchmark scripts are left out: they are calls into foreign interfaces, or would only repeat the cores above.
