# MAVLink codec, Iridium link and log readers

A Dafny model of the code that moves drone telemetry: the MAVLink 1 and 2 runtime that the Python generator emits,
the native parser beside it, the receiving and log-reading loop, the Iridium short-burst messages, the simulated
modem, the relay that reposts messages, the DataFlash log reader and the mission walker. Each object that changes
state is a class whose methods are proved against functions of its old state; what the code is for is proved about
those functions, over all inputs and all runs.

`dafny verify dfyconfig.toml` checks the project.

## How it is organised

| files | what they model |
|---|---|
| Bytes | byte sequences and fixed-width integers, shared by all |
| Crc, KnownSums | the X.25 checksum, as the loop in the code and as the shift register of Appendix C.2 of RFC 1662; its check value and a known crc_extra |
| Layout, Schema, Wire, WireBytes, Payload | from a message definition to a wire layout and schema checksum, and what that checksum is of; struct packing of one field, and its bytes; packing, un-sorting and regrouping of all fields |
| Frame, FrameBytes, FrameMessage, Extensions, SignedRuns | one frame with header, trimming, checksum and signature; the same byte by byte, and which frames are accepted as what; programs with and without extension fields; signing over whole runs |
| Stream, StrictStream, MavLink | the incremental parser as a function of unconsumed bytes and what it does to any stream, robust and not; the message and connection objects |
| Native, NativeStream, Agreement, FloatPatterns | the byte-at-a-time parser in C, what it finds in any stream, where it agrees with the Python one, and which floats compare equal |
| Receive, PortRuns, TimedLog, Loss, MavFile | the receiving loop over short and empty reads, what messages do to the receiver, time-stamped logs, packet counting; the port and log file objects |
| Iridium, IridiumWire, SbdMessage, Sbd | information elements and their bytes, whole messages fed byte by byte, and their objects |
| Modem, ModemWrite, ModemSession, Simulator | the modem's state machine, its write and read commands, its sessions and other commands, and its object |
| Relay, RelayResponses, RelayProgress | reposting threads around one lock, as atomic steps; what responses do to messages; that nothing gets stuck |
| DataFlash, DataFlashFormats, DataFlashLog, DataFlashReader | one record of the self-describing log, what formats mean, the log read to its end, and the reader object |
| Mission, MissionPath, WaypointLoader | missions with jumps, the lists that are drawn, and the loader object |

## Conventions

- Python 2 semantics throughout: byte strings are compared with `chr(0)`, integer division floors, negative indexes
  count from the end, `int()` of a string allows spaces and a sign.
- Exceptions are results: an error value, `None`, or a flag that says a handler raised.
- Floating-point fields are patterns of 4 or 8 bytes, looked into only where two of them are compared. Times of logs
  are whole microseconds.
- A `Link` carries what a connection never changes. SHA-256 is any function from bytes to 32 bytes. The checksum and
  the `crc_extra` constants are functions too, and `UsesX25` says that they are the program's; what is proved about
  frames does not depend on them, except where two parsers or two programs compute them separately.
- Clocks, random numbers, read sizes, thread schedules, user callbacks and network responses are inputs, so every
  statement holds for all of them.
- Several theorems take the function that handles one item as a parameter (a frame decoder, an element reader, a
  byte handler, a record parser) and are then stated for the program's own.

## Where the code does less than one might expect

- A signature on a version 1 frame cannot be marked in its header, so such a frame is refused:
  `Frame.PackThenDecode` holds for exactly the frames that can mark it.
- The two parsers read three kinds of fields differently, and a message that holds a NaN is not equal to itself:
  `Native.ValuesAgreeExactly`, `Agreement.ParsersAgree`, `Agreement.NaNIsUnequal`.
- Values that pack accepts but that are out of the range of their field come back changed:
  `Frame.IdentityExactlyInRange`.
- A version 1 frame of less than 12 bytes right after a version 2 frame makes the parser read ahead, and
  in a log the record after it is lost; so is a record after a damaged frame whose time is more than three days from
  the last good one: `Receive.FirstRequest`, `Receive.ReadsAhead`, `TimedLog.ReadsBackExactly`.
- Two different schemas can feed the checksum the same bytes, if an array has 117 elements, the code of a `u`:
  `Schema.SameSchemaExactly`.
- Packet loss is exact only up to 255 packets in a row: `Loss.ReceivedPlusLostIsSent`.
- The time that a stream of signed frames is compared with stays the first one, and a frame that claims the stream sets
  it even if its signature is wrong: `SignedRuns.EntryIsFirstClaim`, `SignedRuns.FirstClaimDecides`.
- An Iridium message without elements is never reported complete, and an IMEI that is not 15 bytes long is printed
  into something else: `SbdMessage.PrintThenParse`.
- A payload whose bytes add up to 65536 or more can neither be written to nor read from the modem:
  `ModemWrite.ChecksumExists`.
- A jump out of the mission makes the walk raise or never end: `Mission.ViewListCompletes` and the two examples.
- A DataFlash message of length 0 makes the reader return it for ever, already in its constructor if it comes before
  what a clock is made of, so that no reader results: `DataFlashLog.StuckExactly`, `DataFlashLog.ZeroFileSticks`,
  `DataFlashLog.ZeroFileNeverOpens`.
- Rewinding a DataFlash reader keeps the formats it has met, so a record can be read by a format that the file gives
  only later: `DataFlashLog.FileSaysExactly`, `DataFlashLog.LateFormat`.

## Model

| member | source | states |
|---|---|---|
| Crc.StepIsEightShifts | pymavlink/generator/mavcrc.py:18-21 | One byte of the table-free loop is eight clocks of the reflected 0x8408 shift register of Appendix C.2 of RFC 1662, with the byte folded in first |
| Crc.NoMaskNeeded | pymavlink/generator/mavcrc.py:19-22 | In 32-bit arithmetic the unmasked loop body never leaves 16 bits and equals the 16-bit step, for every register and byte |
| Crc.Chains | pymavlink/generator/mavcrc.py:15-22 | Accumulating a buffer in two parts from any register is accumulating the whole |
| Crc.X25Crc.constructor | pymavlink/generator/mavcrc.py:7-13 | A new object holds the register after the whole initial buffer |
| Crc.X25Crc.Add | pymavlink/generator/mavcrc.py:15-22 | accumulate moves the register from any known state to that state after the buffer, without a mask |
| Crc.X25Crc.AddMasked | pymavlink/mavutil.py:1691-1704 | The copy that masks after every byte computes the same register |
| Crc.X25Crc.Value | pymavlink/generator/mavcrc.py:22 | The integer compared and packed is the register, below 65536 |
| Crc.StepKeepsApart | pymavlink/generator/mavcrc.py:18-21 | The same byte never merges two different registers |
| Crc.StepDetects | pymavlink/generator/mavcrc.py:18-21 | Two different bytes fed to the same register give different registers |
| Crc.TwoStepsDetect | pymavlink/generator/mavcrc.py:18-21 | Two adjacent bytes are determined by the register before and after them |
| Crc.SuffixKeepsApart | pymavlink/generator/mavcrc.py:15-22 | No common suffix brings two different registers back together |
| Crc.AdjacentDamageIsDetected | pymavlink/generator/mavcrc.py:15-22 | Two messages of one length that agree outside two adjacent positions and have the same checksum are the same message |
| KnownSums.CheckValues | pymavlink/generator/mavcrc.py:7-22 | The checksum of nothing is 0xFFFF and that of the nine digits "123456789" is 0x6F91 |
| Layout.SortIsStable | pymavlink/generator/mavparse.py:326-332 | The sort descends in element size, is a permutation, and keeps every size class in declaration order |
| Layout.LayoutTiles | pymavlink/generator/mavparse.py:344-349 | Field ranges follow one another without gap or overlap from 0 to the wire length, and every base field starts at a multiple of its element size |
| Layout.OrderedIsPermutation | pymavlink/generator/mavparse.py:326-332 | The ordered fields are the declared fields, extensions included |
| Layout.OrderedTotal | pymavlink/generator/mavparse.py:344-349 | The wire length does not depend on the sort |
| Layout.OrderMapIsPermutation | pymavlink/generator/mavgen_python.py:835-843 | With distinct names order_map sends each declared field to its own place among the ordered fields, and is a permutation |
| Layout.ExtensionsKeepLayout | pymavlink/generator/mavparse.py:326-349 | Adding extension fields changes neither crc_extra nor the offset of any field there was, and puts the new fields last |
| Layout.MessageChecksum | pymavlink/generator/mavparse.py:387-402 | Driving the CRC object over the name and the base fields in wire order and folding its halves gives the schema checksum |
| Layout.MavType.CollectFields | pymavlink/generator/mavparse.py:335-343 | The first loop collects all names and flat lengths in declaration order |
| Layout.MavType.PlaceField | pymavlink/generator/mavparse.py:345-353 | One turn of the layout loop places one more field and keeps every earlier one |
| Layout.MavType.PlaceFields | pymavlink/generator/mavparse.py:344-353 | The layout loop succeeds exactly when no name holds a bracket, and then every offset, wire_length and wire_min_length is the prefix sum it should be |
| Layout.MavType.LayOut | pymavlink/generator/mavparse.py:317-365 | The whole layout of a message succeeds exactly when it has at most 64 fields and no name with a bracket, and leaves the lists, offsets and lengths of the ordered fields |
| Layout.MavType.OrderAll | pymavlink/generator/mavgen_python.py:835-840 | The first loop of generate finds each declared name among the ordered ones and collects the array lengths in wire order |
| Layout.MavType.MapOrder | pymavlink/generator/mavgen_python.py:835-840 | What it finds is order_map |
| Layout.MavType.MapLengths | pymavlink/generator/mavgen_python.py:841-843 | Writing through order_map leaves in len_map the flat counts in wire order |
| Schema.SameSchemaExactly | pymavlink/generator/mavparse.py:387-402 | Definitions whose names hold no blank and whose array lengths are below 256 feed the checksum the same bytes if and only if their names and, field by field, the names, types and array lengths of the base fields agree; the one exception is an array of length 117 before a signed type where the other has no array before the unsigned one |
| Schema.StatusTextIsFed | pymavlink/generator/mavparse.py:387-402 | STATUSTEXT feeds "STATUSTEXT uint8_t severity char text " and one byte 50 |
| Schema.SortedIsFed | pymavlink/generator/mavparse.py:387-402 | A message with an extension field and fields that the sort moves feeds the sorted base fields only |
| KnownSums.AuthKeyExtra | pymavlink/mavlink.py:3822-3830 | From its definition AUTH_KEY gets the crc_extra 119 that the generated dialect has for it |
| Wire.AtomRoundTrip | pymavlink/generator/mavgen_python.py:310-319 | Every number, float pattern or character that struct.pack accepts is unpacked again |
| Wire.AtomReprint | pymavlink/generator/mavgen_python.py:718-722 | Every byte pattern of the right length is the encoding of what it decodes to |
| Wire.AtomsRoundTrip | pymavlink/generator/mavgen_python.py:310-319 | The same for the elements of an array |
| Wire.FieldRoundTrip | pymavlink/generator/mavgen_python.py:310-319 | Packing a field, unpacking its share of the flat tuple and regrouping gives the value, strings cut to the field and ended at their first NUL |
| Wire.SurvivesExactlyInRange | pymavlink/generator/mavgen_python.py:310-319 | struct.pack accepts a value and it comes back as it was if and only if it is a string without NUL of at most the length of the field, one character that is not NUL, a number in the range of the type, a float pattern of its size, or a list of exactly the array length of those |
| WireBytes.ItemsExactly | pymavlink/generator/mavgen_python.py:310-319 | struct.pack accepts an item and writes these bytes if and only if they have the size of the type and are the float pattern or character, or spell, low byte first, the number in two's complement, which is in the range of the type; sizes and ranges as literals |
| WireBytes.ReadsExactly | pymavlink/generator/mavgen_python.py:718-722 | struct.unpack reads an item from bytes of the size of its type if and only if they are those bytes |
| WireBytes.FieldsExactly | pymavlink/generator/mavgen_python.py:310-319 | A field packs to a string filled up with zeros or cut, to as many items of a list as the array has, or to one item, and to nothing else |
| Payload.SumOfOnes | pymavlink/generator/mavgen_python.py:728-731 | When the flat counts add up to their number, each is 1 and every prefix sum is its index: the branch without arrays is the one with arrays |
| Payload.UnpackedShare | pymavlink/generator/mavgen_python.py:737-743 | The prefix sums of len_map cut the flat tuple into exactly each field's own values |
| Payload.PackedShare | pymavlink/generator/mavgen_python.py:310-319 | Each field's slice of the packed payload is that field packed alone |
| Payload.PackSucceeds | pymavlink/generator/mavgen_python.py:310-319 | The generated pack accepts the values of a message if and only if struct.pack accepts each of them for its own field |
| Payload.UnpackFinds | pymavlink/generator/mavgen_python.py:724-748 | Entry i of the decoded list is built from the bytes of declared field i and no others |
| Payload.FieldsRoundTrip | pymavlink/generator/mavgen_python.py:724-749 | Whatever values a generated pack accepts, decode gives back in declaration order, normalised |
| Payload.UnsortScalars | pymavlink/generator/mavgen_python.py:728-731 | The loop for messages without arrays agrees with regrouping by prefix sums |
| Payload.UnsortArrays | pymavlink/generator/mavgen_python.py:733-743 | The loop for messages with arrays regroups the flat tuple by prefix sums |
| Payload.TerminateAll | pymavlink/generator/mavgen_python.py:745-748 | The last loop ends every string at its first NUL and changes nothing else |
| Payload.DecodeFields | pymavlink/generator/mavgen_python.py:718-749 | Unpacking, un-sorting and string termination compute the values the laws above are about |
| Frame.TrimFits | pymavlink/generator/mavgen_python.py:202-209 | Trailing zeros cut from a payload are restored by zero extension, for any payload and size |
| Frame.HeaderRoundTrip | pymavlink/generator/mavgen_python.py:632-649 | Every header that packs is read back, in version 1 without its flags |
| Frame.AssembledPasses | pymavlink/generator/mavgen_python.py:630-680 | Header, payload, checksum and signature block pass every check of decode and are cut apart where they were joined |
| Frame.UnsignedPasses | pymavlink/generator/mavgen_python.py:202-222 | The same for what pack builds, trimmed or not, with or without the signed flag |
| Frame.PackedShape | pymavlink/generator/mavgen_python.py:202-225 | A packed frame is the unsigned frame, followed by a 13-byte signature block exactly when signing and not forced to version 1 |
| Frame.PacksExactly | pymavlink/generator/mavgen_python.py:193-225 | pack succeeds if and only if each value is accepted for its field, fewer than 256 payload bytes are sent, sequence number, system and component are bytes, the id fits the version and, when signing, the link id is a byte, the timestamp is below 2 to the 64 and there is a key |
| Frame.PackThenDecode | pymavlink/generator/mavgen_python.py:202-225 | Any accepted values come back from the packed frame in declaration order with id, sequence number, system and component, and the frame passes decode if and only if its header can mark the signature it carries |
| Frame.UnmarkedFails | pymavlink/generator/mavgen_python.py:223-224 | A version 1 frame that is signed is refused for its length |
| Frame.DecodeWithoutKey | pymavlink/generator/mavgen_python.py:630-762 | A receiver without a key accepts exactly the frames of that law and gets those values |
| Frame.SurviveExactlyInRange | pymavlink/generator/mavgen_python.py:310-319 | A message packs and every value survives if and only if each value is in the range of its field |
| Frame.IdentityExactlyInRange | pymavlink/generator/mavgen_python.py:202-762 | decode of a packed frame returns exactly the values that were packed if and only if each is in the range of its field |
| FrameBytes.TrimCutsZeros | pymavlink/generator/mavgen_python.py:203-208 | The trimmed payload is the payload without its trailing zero bytes, but never without its first byte |
| FrameBytes.TrimmedIsUnique | pymavlink/generator/mavgen_python.py:203-208 | There is only one payload of that kind |
| FrameBytes.PackedBytes | pymavlink/generator/mavgen_python.py:193-225 | What pack writes at every offset of both versions, which bytes the checksum is of, and in the signature block the link id, 48 bits of time and the first six bytes of the hash of the key and all bytes before them |
| FrameBytes.PassesExactly | pymavlink/generator/mavgen_python.py:631-680 | decode finds no fault if and only if a buffer starts with one of the two markers, has exactly the announced length, carries a known id and ends in the checksum of the bytes between, whatever flags announce |
| FrameBytes.AcceptsExactly | pymavlink/generator/mavgen_python.py:682-707 | An undamaged frame is accepted if and only if there is no key, it is rightly signed (block, acceptable time, the hash the key gives), or the callback lets its id through; it is marked as signed in the second case only; and every counter and the clock after it |
| FrameBytes.RefusesDamaged | pymavlink/generator/mavgen_python.py:631-680 | Any other buffer is refused and changes no signing state |
| FrameBytes.DamageIsRefused | pymavlink/generator/mavgen_python.py:668-680 | A frame damaged in one or two adjacent bytes between length, flags and id and the checksum is refused |
| FrameMessage.DamageIsNamed | pymavlink/generator/mavgen_python.py:631-680 | The error is that of the first check that fails: empty, short, marker, length, id, checksum |
| FrameMessage.TableExactly | pymavlink/generator/mavgen_python.py:600-613 | A stream is entered with the time of its first frame of acceptable time, rightly hashed or not, when there is a key, and nothing else changes the table |
| FrameMessage.AcceptedIsMessage | pymavlink/generator/mavgen_python.py:709-762 | Every attribute of the message is what its bytes of the frame say, the link id only if rightly signed |
| FrameMessage.FrameIsOnePiece | pymavlink/generator/mavgen_python.py:551-562 | An undamaged frame at the front of a stream is cut off right behind its last byte |
| FrameMessage.FlagsExactly | pymavlink/generator/mavgen_python.py:564-567 | The incremental parser refuses a version 2 frame with any flag but the signature flag and changes nothing; every other frame it decodes |
| Extensions.BasePart | pymavlink/generator/mavgen_python.py:202-209 | The base part of a packed newer message is the packed older message |
| Extensions.OldReadsNew | pymavlink/generator/mavgen_python.py:709-717 | An older program reads a newer packet, signed or not, as exactly its own fields |
| Extensions.NewReadsOld | pymavlink/generator/mavgen_python.py:709-717 | A newer program reads an older packet as the common fields and zeros for the rest |
| Extensions.ZeroValueIsZero | pymavlink/generator/mavgen_python.py:711-713 | A field that was not sent reads as 0, an empty string or a list of zeros |
| Extensions.CrossPasses | pymavlink/generator/mavparse.py:387-402 | A frame of one definition passes the checks of a program with the other, because the schema checksum ignores extensions |
| MavLink.Message.TrimPayload | pymavlink/generator/mavgen_python.py:203-208 | The trimming loop stops at the last non-zero byte but leaves one byte |
| MavLink.Message.ComputeCrc | pymavlink/generator/mavgen_python.py:218-221 | The CRC object fed the frame without its marker and then the extra byte holds the checksum that decode recomputes |
| MavLink.Message.Pack | pymavlink/generator/mavgen_python.py:202-225 | pack succeeds exactly when the specified frame exists and leaves it in the buffer, with the signing state moved on |
| MavLink.Message.Sign | pymavlink/generator/mavgen_python.py:193-200 | sign_packet appends the specified block and moves the timestamp on by one, or changes no signing state |
| MavLink.Connection.constructor | pymavlink/generator/mavgen_python.py:421-447 | A new object parses from an empty buffer expecting 8 bytes |
| MavLink.Connection.Send | pymavlink/generator/mavgen_python.py:466-474 | send writes the packed frame and counts modulo 256, or where packing raises writes and counts nothing |
| MavLink.Connection.CheckSignature | pymavlink/generator/mavgen_python.py:591-628 | check_signature returns and leaves in the stream table and clock what the specification says, on every path |
| MavLink.Connection.AskUser | pymavlink/generator/mavgen_python.py:694-705 | The callback decides about packets without a good signature and is counted |
| MavLink.Connection.Authenticate | pymavlink/generator/mavgen_python.py:682-707 | The signature part of decode accepts, counts and changes the signing state as specified |
| MavLink.Connection.CheckFrame | pymavlink/generator/mavgen_python.py:631-680 | The checks up to the CRC find the specified first fault |
| MavLink.Connection.Decode | pymavlink/generator/mavgen_python.py:630-762 | decode returns the specified message or error and signing state |
| MavLink.Connection.FitPayload | pymavlink/generator/mavgen_python.py:709-717 | A short payload is zero-extended and a long one cut |
| MavLink.Connection.DecodeValues | pymavlink/generator/mavgen_python.py:709-749 | A payload, zero-extended or cut to size, is unpacked and un-sorted into its values |
| MavLink.Connection.BuildMessage | pymavlink/generator/mavgen_python.py:750-762 | The message object carries header, values, checksum, link id and buffers of its frame |
| MavLink.Connection.BytesNeeded | pymavlink/generator/mavgen_python.py:479-488 | bytes_needed is what is missing of the expected length, and at least 1 |
| MavLink.Connection.SkipByte | pymavlink/generator/mavgen_python.py:537-549 | A byte that starts no frame is consumed, as BAD_DATA, silently or with one exception |
| MavLink.Connection.DecodeFrame | pymavlink/generator/mavgen_python.py:564-567 | A frame of version 2 with unknown incompatibility flags is refused before it is decoded |
| MavLink.Connection.Deliver | pymavlink/generator/mavgen_python.py:563-575 | A decoded message is returned; an error is BAD_DATA and counted in robust mode and raised otherwise |
| MavLink.Connection.TakeFrame | pymavlink/generator/mavgen_python.py:559-575 | A complete frame is consumed and decoded, and errors are BAD_DATA or raised |
| MavLink.Connection.ParseCharLegacy | pymavlink/generator/mavgen_python.py:531-576 | One parsing step over buffer and index is the step over the unconsumed bytes |
| MavLink.Connection.ParseChar | pymavlink/generator/mavgen_python.py:500-529 | parse_char with its counters and buffer reset is that step after appending its bytes |
| MavLink.Connection.ParseLoop | pymavlink/generator/mavgen_python.py:583-589 | The loop of parse_buffer collects every message that is complete and terminates |
| MavLink.Connection.ParseBuffer | pymavlink/generator/mavgen_python.py:578-589 | parse_buffer returns all complete messages, None when there are none, and loses its list when an exception ends it |
| Stream.ParseTakesNextPiece | pymavlink/generator/mavgen_python.py:531-576 | One robust step takes exactly the next frame or stray byte of the stream, or nothing |
| Stream.DrainIsSplit | pymavlink/generator/mavgen_python.py:578-589 | The parser refines the recursive split of the stream into frames and stray bytes, whatever the signing state |
| Stream.NextPieceIsStable | pymavlink/generator/mavgen_python.py:551-562 | More input never changes a frame that is complete |
| Stream.SplitResumes | pymavlink/generator/mavgen_python.py:551-562 | Splitting can stop after any byte and go on with the rest |
| Stream.FeedIsSplit | pymavlink/generator/mavgen_python.py:578-589 | One parse_buffer call gives the messages, signing state and rest of everything received so far |
| Stream.ChunksDoNotMatter | pymavlink/generator/mavgen_python.py:500-589 | However a stream is cut into parse_buffer calls, with or without a key, messages in order, signing state, rest and byte count are those of the whole stream |
| Stream.BytesAreConserved | pymavlink/generator/mavgen_python.py:500-576 | The buffers of all messages, BAD_DATA included, followed by what is left are the input |
| Stream.ParseLegacy | pymavlink/generator/mavgen_python.py:531-576 | A step that returns a message shortens the unconsumed bytes, and a robust step never raises |
| Stream.Drain | pymavlink/generator/mavgen_python.py:584-588 | expected_length stays at least 8 and the byte count is unchanged by draining |
| StrictStream.StrictReads | pymavlink/generator/mavgen_python.py:531-576 | Not robust, one call a piece: decoded frames are returned as by the robust parser, one exception is raised for each other frame and for each run of stray bytes, later bytes of a run are dropped silently, and only the runs are counted as errors |
| StrictStream.RobustCounts | pymavlink/generator/mavgen_python.py:500-576 | The robust parser counts one error for each BAD_DATA message and one packet for each message |
| StrictStream.ExpectsAfterPiece | pymavlink/generator/mavgen_python.py:537-562 | After a piece the shortest frame is expected, of the version of the frame before it |
| StrictStream.AsksForTheRest | pymavlink/generator/mavgen_python.py:479-488 | With three bytes of an incomplete frame bytes_needed is exactly what is missing of it |
| StrictStream.AnnouncedIs | pymavlink/generator/mavgen_python.py:551-558 | The first three bytes announce 8 bytes and the payload in version 1, and 12, or 25 with a signature block, and the payload in version 2 |
| Native.NativeConnection.ParseByte | pymavlink/mavnative/mavnative.c:147-313 | The switch over parse states changes buffers, index and checksum as the specified machine step, for every state and byte |
| Native.NativeConnection.ParseHeaderByte | pymavlink/mavnative/mavnative.c:170-237 | The cases for the five header bytes, the length byte among them, are that step |
| Native.NativeConnection.ParsePayloadByte | pymavlink/mavnative/mavnative.c:238-247 | The payload case is that step |
| Native.NativeConnection.ParseFirstSum | pymavlink/mavnative/mavnative.c:248-271 | The case of the first checksum byte, with its extra byte and its resynchronising on a start byte, is that step |
| Native.NativeConnection.ParseLastSum | pymavlink/mavnative/mavnative.c:272-293 | The case of the second checksum byte, completing the message or resynchronising, is that step |
| Native.NativeConnection.ParseBuffer | pymavlink/mavnative/mavnative.c:778-815 | The loop over a buffer returns the machine at every completed message, in order |
| Native.ExpectedLengthIsExact | pymavlink/mavnative/mavnative.c:670-714 | Once the length byte is in, get_expectedlength is exactly the number of bytes left in the frame, and after the start byte it is 7, which never exceeds it |
| Native.FrameByte | pymavlink/mavnative/mavnative.c:147-313 | Each byte of a valid frame keeps the machine at its place in the frame, and only the last completes a message |
| Native.RunFrame | pymavlink/mavnative/mavnative.c:147-313 | A valid frame that reaches an idle machine completes exactly one message whatever follows it |
| Native.ExpectedAtRest | pymavlink/mavnative/mavnative.c:670-714 | Between frames get_expectedlength is the length of the shortest frame |
| NativeStream.RunIsScan | pymavlink/mavnative/mavnative.c:147-313 | On every stream, damaged frames among them, an idle machine completes exactly the frames that a scanner of whole frames finds which reads a checksum byte that does not match as the first byte of what follows; the bytes kept with each and both counters agree too |
| NativeStream.AfterDamage | pymavlink/mavnative/mavnative.c:248-293 | A frame whose checksum byte at k does not match completes nothing, and leaves the machine idle, or as after a start byte if that byte is one |
| NativeStream.DamagedFrameIsDropped | pymavlink/mavnative/mavnative.c:248-293 | If it is none, what follows is read as by an idle machine |
| NativeStream.NextFrameIsFound | pymavlink/mavnative/mavnative.c:248-293 | In particular a good frame that follows is the first message |
| NativeStream.FrameAtDamageIsFound | pymavlink/mavnative/mavnative.c:248-293 | If it is one, a good frame that starts with that very byte is the first message, kept with the bytes of the damaged frame before it |
| Native.ValuesAgreeExactly | pymavlink/mavnative/mavnative.c:515-601 | The native parser reads the same value as the Python one from the same bytes if and only if the field is not an array of one, a NUL character or an unsigned number of at least 2 to the 63 |
| Agreement.PythonReads | pymavlink/generator/mavgen_python.py:531-576 | On valid frames among bytes that start none, the robust Python parser returns one message per frame once BAD_DATA is dropped |
| Agreement.NativeReads | pymavlink/mavnative/mavnative.c:147-313 | On the same stream the native machine completes one message per frame |
| Agreement.FieldCompares | pymavlink/generator/mavgen_python.py:157-181 | The values that the two parsers read from the same bytes of a field are equal in Python if and only if the field is not one of those read differently and holds no NaN |
| Agreement.MessagesCompare | pymavlink/generator/mavgen_python.py:157-181 | The two messages of one frame compare equal under __eq__ if and only if no field is read differently and none holds a NaN |
| Agreement.NaNIsUnequal | pymavlink/generator/mavgen_python.py:163-167 | A float field holding a quiet NaN is read the same by both and yet makes the messages unequal |
| FloatPatterns.NaNExactly | pymavlink/generator/mavgen_python.py:163-167 | Which patterns compare unequal to themselves: those whose magnitude as a number is above that of infinity, in both sizes |
| FloatPatterns.ZeroExactly | pymavlink/generator/mavgen_python.py:163-167 | Which patterns compare equal although they differ: those whose magnitude is zero |
| Agreement.ParsersAgree | pymavlink/generator/mavgen_python.py:531-576 | On any stream of valid frames among bytes that start none, both parsers return the messages of the same frames in the same order and from the same bytes, equal exactly where no field is read differently and none holds a NaN |
| Receive.ReceiveLoop | pymavlink/mavutil.py:304-331 | The loop of recv_msg returns with a message, having consumed something, or when nothing is complete and a read yields nothing; it terminates |
| Receive.RecvReadsAll | pymavlink/mavutil.py:304-331 | For any bytes, noise among them, and any pattern of short and empty reads, recv_msg called again and again, also after it returned None, returns exactly the messages of the whole stream, whatever link id it adopts meanwhile |
| Receive.LoopTakes | pymavlink/mavutil.py:304-331 | Each call takes exactly the next frame or stray byte of what is pending, or keeps every pending byte for a later call; at the end of the source None means that nothing complete is left |
| Receive.DecoderIgnoresLinkId | pymavlink/generator/mavgen_python.py:591-707 | Decoding neither depends on the link id that post_message adopts nor changes it |
| Receive.NeverPastTheFrame | pymavlink/generator/mavgen_python.py:479-488 | Inside a frame bytes_needed never exceeds what is left of it, unless the frame is the end of the source |
| Receive.RecvFrame | pymavlink/mavutil.py:304-331 | For any pattern of short and empty reads recv_msg returns the message of the frame having read exactly to its end, or returns None at an empty read, still inside the frame with nothing lost |
| Receive.FirstRequest | pymavlink/generator/mavgen_python.py:551-562 | The first request of a frame stays within it if and only if it is not a version 1 frame of less than 12 bytes after a version 2 frame |
| Receive.ReadsAhead | pymavlink/generator/mavgen_python.py:551-562 | In that case the frame is still returned, but the next bytes of the source are already taken |
| Receive.KeptApartSuffices | pymavlink/generator/mavgen_python.py:551-562 | If no version 1 frame directly follows a version 2 frame nothing is read ahead |
| Receive.RecvFrames | pymavlink/mavutil.py:304-331 | A stream of delimited frames is read back frame by frame, for any pattern of short and empty reads |
| MavFile.File.ReceiveLoop | pymavlink/mavutil.py:306-331 | The loop over the stateful parser and source returns and leaves what the specification says |
| MavFile.File.CountMessage | pymavlink/mavutil.py:245-261 | The sequence part of post_message leaves the specified counts and last sequence numbers |
| MavFile.File.PostMessage | pymavlink/mavutil.py:224-294 | post_message counts, aims at the sender of a heartbeat, and adopts the link id of a signed message of the target when it has none |
| PortRuns.TargetExactly | pymavlink/mavutil.py:264-266 | After any messages the target is the sender of the last HEARTBEAT whose component is not 154, or what it was before |
| PortRuns.LinkExactly | pymavlink/mavutil.py:288-294 | The link id is the one the port had if not zero, else the first one that is not zero in a rightly signed message from what was the target after it |
| PortRuns.CountsExactly | pymavlink/mavutil.py:245-261 | mav_count is the number of messages other than BAD_DATA that do not come from system 51, component 68 |
| MavFile.File.RecvMsg | pymavlink/mavutil.py:304-331 | recv_msg receives, counts and adopts as specified, and counts nothing when it returns None |
| MavFile.LogFile.ScanTimestamp | pymavlink/mavutil.py:1078-1090 | scan_timestamp moves its window and the file as specified |
| MavFile.LogFile.PreMessage | pymavlink/mavutil.py:1092-1118 | pre_message takes a time off the file, or scans for one after damaged data |
| MavFile.LogFile.PostMessage | pymavlink/mavutil.py:1120-1130 | post_message does what its base does and remembers the message, and its time unless it is BAD_DATA |
| MavFile.LogFile.RecvMsg | pymavlink/mavutil.py:304-331 | recv_msg of a log returns the specified stamped message and leaves the specified state |
| TimedLog.LogReadsBack | pymavlink/mavutil.py:1092-1118 | A log of times and frames is read back record for record with each record's own time and link number, whatever short frames or damaged frames it holds, as long as nothing is read ahead before the last record and no record after a damaged frame is more than three days from the last good one |
| TimedLog.NextIsLost | pymavlink/mavutil.py:1092-1118 | After a short version 1 frame that follows a version 2 frame, and is not the last, the next message is the first byte of the next record's time, as BAD_DATA |
| TimedLog.FarTimeIsLost | pymavlink/mavutil.py:1078-1113 | A record after a damaged frame whose time is more than three days from the last good one is not read back: the scan goes on to a later time or to the end of the file |
| TimedLog.ReadsBackExactly | pymavlink/mavutil.py:1078-1118 | With times whose first byte starts no frame, a log is read back if and only if nothing is read ahead before its last record and no record after a damaged frame is more than three days from the last good one |
| TimedLog.KeptApartReadsBack | pymavlink/mavutil.py:1092-1118 | So is every log of good frames in which no version 1 frame directly follows a version 2 frame |
| TimedLog.GoodIsCalm | pymavlink/mavutil.py:1110-1113 | Without damaged frames the scan for times is never entered |
| TimedLog.CutTimeIsDropped | pymavlink/mavutil.py:1104-1107 | A time cut short by the end of the file is consumed, changes neither time nor link number, and no message comes of it |
| TimedLog.ScanFindsFirst | pymavlink/mavutil.py:1078-1090 | scan_timestamp stops at the first offset whose time is within three days of the last one, or at the end of the file |
| Loss.LastSeqs | pymavlink/mavutil.py:250-260 | What is remembered of each sender is the number of its last packet modulo 256, and only of senders heard |
| Loss.MissedIsTheGap | pymavlink/mavutil.py:254-258 | The difference computed from two remainders is the gap between the packet numbers modulo 256 |
| Loss.MissedBound | pymavlink/mavutil.py:254-258 | It never exceeds the gap, and is the gap if and only if at most 255 packets are missing |
| Loss.ReceivedPlusLostIsSent | pymavlink/mavutil.py:245-261 | However the senders interleave, mav_count plus mav_loss is at most the sum over senders of packets sent from first to last received, and equal to it if and only if no sender lost more than 255 in a row; radio and BAD_DATA aside |
| SignedRuns.TimeOfBlock | pymavlink/generator/mavgen_python.py:595-598 | The two words read from a signature block are the signer's timestamp, below 2 to the 48 |
| SignedRuns.PackedIsAuthentic | pymavlink/generator/mavgen_python.py:193-200 | A packed signed frame carries the signer's stream, timestamp and signature as check_signature reads them, and moves the signer on by one tick |
| SignedRuns.SendTicks | pymavlink/generator/mavgen_python.py:193-200 | A signed send moves the timestamp on by one and changes nothing else of the signing state |
| SignedRuns.ActsAreSuch | pymavlink/generator/mavgen_python.py:466-474 | Sending and decoding keep what an object signs with, move its clock only forward, by one for each frame, and write authentic frames |
| SignedRuns.RunIsAuthentic | pymavlink/generator/mavgen_python.py:466-474 | Each frame that a run of send and decode calls writes is authentic and carries the timestamp its object then had |
| SignedRuns.RunRises | pymavlink/generator/mavgen_python.py:466-474 | The timestamps of the frames of a run rise, whatever its object hears in between |
| SignedRuns.UndisturbedRun | pymavlink/generator/mavgen_python.py:466-474 | They are consecutive if it hears nothing |
| SignedRuns.ClockNeverDecreases | pymavlink/generator/mavgen_python.py:625-628 | No buffer, however malformed, moves the receiver's timestamp back or changes its key, and an accepted signature is never ahead of it |
| SignedRuns.DecodeKeepsSigner | pymavlink/generator/mavgen_python.py:591-707 | Decoding changes neither link id, key nor whether an object signs |
| SignedRuns.EntryIsFirstClaim | pymavlink/generator/mavgen_python.py:600-613 | Whatever buffer arrives, a stream that has an entry keeps it, and a new one gets the time of an undamaged frame that claims it and is at most 6000000 ticks behind the clock, whether its signature is right or not |
| SignedRuns.AuthenticAccepted | pymavlink/generator/mavgen_python.py:591-628 | An authentic frame is accepted as signed if and only if its time is above its stream's entry or, for a new stream, at most 6000000 ticks behind the clock; the entry stays the first time |
| SignedRuns.KnownStreamAccepted | pymavlink/generator/mavgen_python.py:591-628 | Once a stream has an entry, all its frames that arrive in order are accepted, whatever else arrives or is sent, if and only if the first of them is later than the entry |
| SignedRuns.RunAccepted | pymavlink/generator/mavgen_python.py:591-628 | A receiver, whatever it has heard, accepts every frame of a run that arrives in order, with any losses, any other frames and any signed sends of its own in between, if and only if the time of the first to arrive is acceptable when it does |
| SignedRuns.FirstClaimDecides | pymavlink/generator/mavgen_python.py:600-622 | A frame that claims a new stream before first contact, rightly signed or not, leaves the stream new if it is too old; else the run is accepted if and only if its first frame to arrive is later than that one |
| SignedRuns.SentRunAccepted | pymavlink/generator/mavgen_python.py:466-628 | The same from one object's send and decode calls to another's decode and send calls |
| SignedRuns.ClockIsAboveAll | pymavlink/generator/mavgen_python.py:625-628 | Over any run of buffers the timestamp never decreases and ends at or above every accepted time |
| Iridium.BodyLengthIs | _old_scs/iridium.py:43-44 | The two length bytes are the number struct reads and writes |
| Iridium.PrintThenRead | _old_scs/iridium.py:150-162 | Any element that prints and has a 15-byte IMEI, if any, is parsed back from what it prints |
| Iridium.ReadThenPrint | _old_scs/iridium.py:123-143 | Any bytes that parse to an element that can be printed are what it prints |
| Iridium.ReadIsCovered | _old_scs/iridium.py:293-310 | The fields of a parsed element are consecutive slices of its bytes, up to the end |
| IridiumWire.ReadsExactly | _old_scs/iridium.py:123-441 | For each of the eight element classes, location and MO confirmation included: parse accepts bytes and reads these attributes if and only if tag, length and every attribute stand at their offsets, high byte first, an angle in degrees and thousandths of minutes with its sign bit |
| IridiumWire.PrintsExactly | _old_scs/iridium.py:150-162 | What prepareRaw of an element with a printer leaves are those bytes |
| IridiumWire.NextExactly | _old_scs/iridium.py:37-75 | At an index of a complete message: truncated, too long, an unknown tag, or bytes that are no element of their class, in this order, or else the element that the bytes are, and where it ends |
| IridiumWire.FirstBytesExactly | _old_scs/iridium.py:14-24 | A message whose first byte is not 1 raises at that byte; the next two are its length |
| SbdMessage.PrintThenParse | _old_scs/iridium.py:14-30 | Feeding what prepareRaw prints returns True at exactly the last byte with the same elements if and only if there is an element and every IMEI has 15 bytes |
| SbdMessage.ParseThenPrint | _old_scs/iridium.py:77-90 | Any bytes that are accepted at their last byte and hold only printable elements are what prepareRaw prints for those elements |
| SbdMessage.CompletesIsMessage | _old_scs/iridium.py:14-30 | True comes at the last byte only for revision 1 and a length field that is the length of the body |
| SbdMessage.SlicesTile | _old_scs/iridium.py:32-75 | When parsing succeeds the slices of the elements tile the body, each is what its element is read from, and every IMEI has 15 bytes |
| SbdMessage.PrintedShape | _old_scs/iridium.py:77-90 | A printed message is revision, body length and the printed elements back to back |
| SbdMessage.EmptyBodyNeverCompletes | _old_scs/iridium.py:23-28 | After a header that announces an empty body no byte ever returns True |
| SbdMessage.FeedConcat | _old_scs/iridium.py:14-30 | Feeding bytes in two parts is feeding them all |
| Sbd.Element.Parse | _old_scs/iridium.py:123-148 | parse fills in the specified element or returns False, for every class and any bytes |
| Sbd.Element.PrepareRaw | _old_scs/iridium.py:150-162 | prepareRaw writes the specified bytes slice by slice, or raises |
| Sbd.IridiumMessage.ParseByte | _old_scs/iridium.py:14-30 | parseByte returns and leaves what the specified step says, exceptions included |
| Sbd.IridiumMessage.ParseIEs | _old_scs/iridium.py:32-35 | The loop appends the elements found up to the end or an exception, and leaves the index there |
| Sbd.IridiumMessage.ParseNextIe | _old_scs/iridium.py:37-75 | parseNextIe returns a new element and moves the index past it, or raises and leaves it |
| Sbd.IridiumMessage.PrepareRaw | _old_scs/iridium.py:77-90 | The two loops print every element and copy it into place, also when one element object is in the list twice |
| Modem.IdleHoldsNoRing | simulator.py:185-190 | In every reachable state an idle modem has no ring held back |
| Modem.EventsAreAtoms | simulator.py:144-168 | A run of received data, web messages and timers is the same as its bytes one by one, up to an exception |
| Modem.ResponseUninterrupted | simulator.py:260-295 | Between the carriage return of a command and the end of its response, binary data included, a ring can only be the last thing sent, by a modem that is idle again |
| Modem.StepQueue | simulator.py:210-222 | Each step takes at most the oldest message, only in a good session, and holds it for reading |
| Modem.NothingLostInQueue | simulator.py:139-142 | Over any run the messages taken followed by the queue are the messages queued before followed by those that arrived, in order |
| ModemWrite.WriteStores | simulator.py:144-168 | A write command with its length, payload and two checksum bytes, in any chunking and with web messages and timers in between, ends idle with READY, a result and OK, and stores exactly the payload if and only if the two bytes sum it up |
| ModemWrite.ChecksumExists | simulator.py:149-152 | Two bytes can sum up a payload if and only if its bytes add up to less than 65536, as up to 257 bytes always do |
| ModemWrite.DecimalParses | simulator.py:235-237 | A length written in decimal is understood as that number |
| ModemWrite.ReadIsWritable | simulator.py:246-258 | The data and checksum that reading sends are always accepted by a modem told to expect that many bytes |
| ModemSession.SessionExactly | simulator.py:210-233 | AT+SBDIX and AT+SBDIXA: a good session posts what was written, takes the oldest message of the queue or none, and reports 0, whether it holds a message, its length and how many are left; a failed one posts and takes nothing and reports 32 and the same figures |
| ModemSession.WrittenIsPosted | simulator.py:144-229 | A payload written with its checksum, in any chunking, is exactly what a session posts if it is good, and stays written |
| ModemSession.AcknowledgedOnly | simulator.py:260-268 | AT, AT&K0 and ATE0 are answered with OK and change nothing |
| ModemSession.SignalExactly | simulator.py:192-202 | AT+CSQ answers +CSQ:5 or +CSQ:0, and draws a random number unless ideal |
| ModemSession.DropExactly | simulator.py:204-208 | AT+SBDD0 empties what was written and answers 0 |
| ModemSession.ReadExactly | simulator.py:246-258 | AT+SBDRB sends length, message, sum of its bytes and a line end, each number with its high byte first, and raises without sending anything if and only if the length or the sum does not fit two bytes |
| ModemSession.UnknownExactly | simulator.py:281-282 | Any other line is not answered and changes nothing |
| ModemSession.NoNumberExactly | simulator.py:235-240 | AT+SBDWB without a number answers 3 and leaves the modem in the command state |
| ModemSession.RingsExactly | simulator.py:139-190 | A message from the web is queued; it is announced at once if the modem is idle and kept for later otherwise; the timer is set, and announces it again |
| ModemSession.NumeralParses | simulator.py:235-237 | Spaces, perhaps a sign and more spaces, decimal digits and spaces are read as that number |
| ModemSession.ParsesNumeral | simulator.py:235-237 | And nothing else is read as a number |
| Simulator.IridiumSimulator.ChangeState | simulator.py:291-295 | Changing to idle sends the ring held back and clears it; other changes only change the state |
| Simulator.IridiumSimulator.SendRing | simulator.py:185-190 | A ring is sent when idle and held back otherwise |
| Simulator.IridiumSimulator.OnWebReceive | simulator.py:139-142 | A web message is queued last and announced |
| Simulator.IridiumSimulator.OnTimer | simulator.py:179-183 | The timer rings again only while armed |
| Simulator.IridiumSimulator.DoSbdix | simulator.py:210-229 | A session posts, takes from the queue and reports as specified |
| Simulator.IridiumSimulator.DoSbdwb | simulator.py:235-244 | The write command starts binary mode, or reports 3 and stays in the command state |
| Simulator.IridiumSimulator.DoSbdrb | simulator.py:246-258 | The read command sends length, message and sum, or raises |
| Simulator.IridiumSimulator.OnCommand | simulator.py:260-282 | Every command leaves the specified state and output |
| Simulator.IridiumSimulator.WriteByte | simulator.py:146-162 | A byte in binary mode is stored, and the last one is checked |
| Simulator.IridiumSimulator.OnSerialReceive | simulator.py:144-168 | The loop over received data does what its bytes do one by one, up to an exception |
| Relay.NothingLostOrDoubled | relay.py:100-147 | Under every interleaving of posts, responses and wake-ups, at every atomic step, each submitted index is in exactly one place, and no other index is anywhere |
| Relay.PopAlwaysFinds | relay.py:100-102 | The pop of a response always finds its request |
| Relay.EveryRequestIsSeenTo | relay.py:139-147 | A request waits for a response if and only if exactly one thread or the network will see to it |
| Relay.RequestsCarryTheirOwnData | relay.py:139-147 | Every request body ever built decodes to the data submitted under its own index, although all threads write to one dictionary |
| Relay.SectionsExclude | relay.py:140-146 | While one thread has the lock no step of another touches what the lock protects |
| Relay.PostSectionRuns | relay.py:140-146 | The four steps of a locked section have the effect of the section as a whole |
| Relay.HexRoundTrip | relay.py:130 | What one side encodes in hexadecimal the other side decodes |
| Relay.HexDigits | relay.py:142 | Each byte is encoded as two lower-case digits, the high one first |
| Relay.UnhexExactly | relay.py:130 | Decoding succeeds if and only if the length is even and every byte is a digit of either case, and encoding gives the text back in lower case |
| Relay.AnswerSectionRuns | relay.py:100-116 | The steps of __on_message_sent after it has the lock do to the table, the threads and the confirmed messages exactly what its contract says, and raise exactly when the request is not there |
| RelayResponses.ConfirmedExactly | relay.py:100-116 | Under every interleaving a message is confirmed if and only if a response without an error to a request for it has been handled |
| RelayResponses.RepostedExactly | relay.py:100-120 | Under every interleaving exactly one thread is about to post a message if and only if each of its requests so far was answered with an error and that was handled; otherwise none is |
| RelayResponses.HandlingStep | relay.py:109-116 | The step that handles an error leaves a new thread that sleeps on the index of that request and the data submitted under it, and the one that handles a success confirms the index |
| RelayProgress.SubmittedInOrder | relay.py:139-147 | Index i carries the i-th message that was submitted |
| RelayProgress.LockIsFreed | relay.py:100-147 | From every reachable state the lock is free after at most four steps of the thread that has it |
| RelayProgress.CanBeConfirmed | relay.py:100-147 | From every reachable state and for every message submitted some continuation confirms it |
| Relay.InvStep | relay.py:100-147 | Each atomic step keeps the invariant: one owner of the lock, own data, one place per index, one agent per request |
| Relay.IridiumInterface.PostMessage | relay.py:139-147 | The locked section stores a new request with this index and data, and a body made from this data |
| Relay.IridiumInterface.OnMessageSent | relay.py:100-116 | The locked section removes exactly the answered request, reports one that is not there, and reposts the index and data of the request on an error |
| DataFlash.UsualDeclaration | pymavlink/DFReader.py:579-585 | A format record of the usual layout declares the type, length, name, format and columns at their places in its body, cut at their first NUL, or raises for an unknown format character |
| DataFlash.ParsesNext | pymavlink/DFReader.py:527-594 | From a balanced state _parse_next returns a record that lies ahead, as long as its format says, passes over nothing readable, and keeps offset plus remaining at the length of the data |
| DataFlash.SeekFinds | pymavlink/DFReader.py:533-578 | Skipping and retrying after bad bodies pass over no head whose body could be read |
| DataFlash.NothingExactly | pymavlink/DFReader.py:527-578 | _parse_next returns None if and only if, after the last bad body it passes over, no known head is left, or the first one follows bad bytes or has a bad body with fewer than 528 bytes left, or is cut off by the end of the data; nothing readable lies before |
| DataFlash.ZeroLengthRepeats | pymavlink/DFReader.py:527-594 | A record of length 0 that was returned once is returned again by the next call, which leaves the reader as it is |
| DataFlash.NothingLeaves | pymavlink/DFReader.py:527-572 | Where offset and remaining stand after a call that returns None, for each of its reasons |
| DataFlash.RaisedLeaves | pymavlink/DFReader.py:563-594 | After an exception out of a format record the reader stands behind its head, with the formats it had |
| DataFlashFormats.SizesExactly | pymavlink/DFReader.py:17-37 | The nineteen format characters and the size of each as literals; no other character has a size |
| DataFlashFormats.StructSizeIsSum | pymavlink/DFReader.py:50-67 | A format has a size if and only if each character before its first NUL is one of them, and it is their sum |
| DataFlashFormats.ElementIs | pymavlink/DFReader.py:17-37 | Which characters stand for signed and unsigned numbers, floats and strings, and what their bytes say |
| DataFlashFormats.DeclaredIsRead | pymavlink/DFReader.py:527-594 | A file that starts with a format record and a record of the type it declares, whatever follows: both are returned, the second with the format just declared |
| DataFlashFormats.FloatIsRead | pymavlink/DFReader.py:17-37 | In particular a record of type 0x41, length 7 and format "f", for any four bytes |
| DataFlashLog.DrainPlaces | pymavlink/DFReader.py:527-594 | Each message starts with the two head bytes and has the type and length of the latest earlier format record for its type, or of the format known before the reading began |
| DataFlashLog.DrainOrders | pymavlink/DFReader.py:587-588 | Messages occupy disjoint, increasing ranges |
| DataFlashLog.DrainEnds | pymavlink/DFReader.py:527-594 | Draining terminates on any bytes if no format record read declares the length 0 |
| DataFlashLog.StuckForever | pymavlink/DFReader.py:587-588 | When it does not, the last message has length 0 and leaves the reader exactly as it was |
| DataFlashLog.StuckExactly | pymavlink/DFReader.py:527-594 | Draining does not terminate if and only if some message it returns has length 0 |
| DataFlashLog.ZeroFileSticks | pymavlink/DFReader.py:527-594 | A file of one format record that declares length 0 and one message of that type is such a file |
| DataFlashLog.ZeroFileNeverOpens | pymavlink/DFReader.py:346-431 | On that file the clock pass of the constructor never ends: however many messages it reads, it stays at offset 89, where every call returns the same message without a name |
| DataFlashLog.LogIsRead | pymavlink/DFReader.py:521-594 | Any file read from its start by a reader that kept any formats: messages are placed and ordered as above, and reading ends if and only if none has length 0 |
| DataFlashLog.FileSaysExactly | pymavlink/DFReader.py:510-525 | The format records of the file itself, and the initial format, say what every message is if and only if each message's type is declared before it or was known to the reader as it is to a new one |
| DataFlashLog.LateFormat | pymavlink/DFReader.py:510-525 | A file with a record before the format record of its type: the clock pass learns the format and the next pass returns a message that no earlier record describes |
| DataFlashReader.DFReaderBinary.Open | pymavlink/DFReader.py:505-519 | A constructed reader stands at the start of the data with the formats its clock pass has met, or the pass ended in an exception |
| DataFlashReader.DFReaderBinary.Rewind | pymavlink/DFReader.py:521-525 | _rewind goes back to the start and keeps the formats |
| DataFlashReader.DFReaderBinary.ClockPass | pymavlink/DFReader.py:363-418 | The loop of init_clock is the specified pass over the messages, wherever it stops |
| DataFlashReader.DFReaderBinary.InitClock | pymavlink/DFReader.py:346-431 | init_clock leaves the reader rewound with the formats that were met |
| DataFlashReader.DFReaderBinary.SkipBad | pymavlink/DFReader.py:536-544 | The skip loop stops at the first head of a known type or at the end of the data |
| DataFlashReader.DFReaderBinary.FindBody | pymavlink/DFReader.py:529-564 | Up to the body, offset and remaining move as specified on every path |
| DataFlashReader.DFReaderBinary.Take | pymavlink/DFReader.py:579-588 | A body that fits extends the format table or not, and moves offset and remaining past it |
| DataFlashReader.DFReaderBinary.ParseNext | pymavlink/DFReader.py:527-594 | The recursive method returns and leaves what the specification says |
| Mission.ViewListCompletes | pymavlink/mavwp.py:383-391 | view_list ends with exactly the indexes of the mission done if and only if every DO_JUMP target is one of them |
| Mission.GoodMissionIsDrawn | pymavlink/mavwp.py:333-391 | Then, cyclic jumps included, each index became done exactly once, every location waypoint with nonzero coordinates that is no jump is in some list, and everything listed exists and has coordinates |
| Mission.ViewGood | pymavlink/mavwp.py:383-391 | The loop completes the done set from any part of the mission's indexes |
| Mission.FollowGrows | pymavlink/mavwp.py:346-361 | A walk adds to the done set only indexes that were not done, each once |
| Mission.JumpPastTheEnd | pymavlink/mavwp.py:353-356 | A jump past the end makes view_list raise |
| Mission.JumpBeforeTheStart | pymavlink/mavwp.py:353-358 | A jump to a negative index that Python counts from the end makes view_list loop for ever |
| MissionPath.FollowsPath | pymavlink/mavwp.py:346-362 | A walk passes from each waypoint to the next one or to the target of a jump, through indexes not done before, until it is past the end or at an index that is done; its list is what the waypoints passed append, in that order, and the index it stops at; it raises exactly at a jump to no waypoint |
| MissionPath.ViewIsLegs | pymavlink/mavwp.py:383-391 | view_list returns the lists of such walks one after the other, each from the first index not done, without the empty ones |
| MissionPath.TargetIsCut | pymavlink/mavwp.py:354 | The target of a jump is its parameter cut towards zero |
| MissionPath.TripIsDrawn | pymavlink/mavwp.py:333-381 | For a mission with a jump back: the lists, the closing index, and the points with x before y |
| WaypointLoader.MAVWPLoader.ViewIndexes | pymavlink/mavwp.py:333-362 | view_indexes returns the specified list and done set, or raises |
| WaypointLoader.MAVWPLoader.ViewList | pymavlink/mavwp.py:383-391 | The loop of view_list gives the specified lists, raises, or is reported where it would never end |
| WaypointLoader.MAVWPLoader.PolygonList | pymavlink/mavwp.py:364-381 | polygon_list gives the coordinates of exactly the lists of view_list, and raises or loops when it does |

## Left out

- Text output of the generators, XML reading, protocol 0.9 and big-endian formats: string handling or paths without
  sorting and `crc_extra`.
- Sockets, serial ports, MQTT, HTTP, printing and logging: only the steps they cause are modelled.
- MavFile.File.ReceiveLoop: does not model the protocol switch of `auto_mavlink_version` on the first byte of a port,
  which replaces the parser by one of another dialect.
- MavFile.File.RecvMsg: does not model that switch, nor the writing of a log; a record is eight bytes of time and the
  frame, as `TimedLog.EntryBytes` says.
- MavFile.File.PostMessage: does not model parameters, flight mode, uptime and hooks, which copy message fields into
  attributes and dictionaries that neither the receiver nor the counters read.
- MavFile.LogFile.PreMessage: does not model `notimestamps` and the planner format, which replace the times or the
  record header by other ones.
- MavFile.LogFile.PostMessage: does not model the newline after a record of the planner format.
- MavFile.LogFile.RecvMsg: does not model these formats and the protocol switch.
- Python objects, reference counts and the fixed array behind `bytes` in the native parser: the bytes kept for a
  message are a growing sequence, and messages of ids that are not in the dialect are not turned into objects.
- The 64-bit overflow of `PyLong_FromLong` on platforms whose `long` has 32 bits.
- Calls of the native parser through `parse_char`: the two parsers are compared on the same stream, not inside one
  object.
- The NaN and infinite values of `param1`, for which `int()` raises, and rounding of coordinates: coordinates and
  parameters of waypoints are real numbers.
- The cleanup of dead threads in `__on_message_sent`, which removes from the list it iterates over: it concerns no
  message.
- The credentials in a request body and its url encoding: a body is the hexadecimal data under fixed credentials.
- Cached fields of information elements that failed to parse: the exception discards the element.
- The default IMEI and session status of a new information element, which cannot be printed until they are set.
- DataFlashReader.DFReaderBinary.Take: a record of a format that is named FMT and whose first element is a
  floating-point number, or whose second is not a length, ends the model with its own result.
- DataFlashReader.DFReaderBinary.ParseNext: does not model `_add_msg`, which runs when offset and remaining have moved
  and can raise, for instance for a format named MSG without a column Message, nor the recursion limit of Python.
- DataFlashReader.DFReaderBinary.ClockPass: which message gives the clock is not computed; the number of messages the
  pass reads is an input.
- DataFlashReader.DFReaderBinary.InitClock: the clock that is chosen is not computed.
- DataFlashReader.DFReaderBinary.Open: gives a reader for each number of messages, also where the pass never ends;
  `DataFlashLog.ZeroFileNeverOpens` is such a file.
- Scaling, column names and clocks of DataFlash messages: a message is its start, format and body.
- Mission.ViewListCompletes: the done set, which Python shares between calls, is passed and returned.
- Stream.ChunksDoNotMatter: stated for robust parsing only, because an exception otherwise drops messages already
  parsed; `StrictStream.StrictReads` says what single calls do then.
- Native.ExpectedLengthIsExact: states nothing after a failed checksum, where the bytes kept no longer start at a frame.
