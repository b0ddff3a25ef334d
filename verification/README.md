# Verification of the FakerNet data path

This project models, in Dafny, the data path and the command servers of the FakerNet data
acquisition code, and proves what the programs promise about them:

- the ring buffer and the streaming event builders of `data_builder.c` (CERES and FONTUS
  format), and the generator of `fake_data_gen.c` as the encoder they have to invert;
- the CRC-32 of `crc32.c` (the one in section 8 of RFC 1952), with the combination of two
  CRCs, and the CRC-8 of `crc8.c`;
- the request parser (Redis serialization protocol, arrays of bulk strings and inline
  commands) and the reply queue of `networking.c`;
- the event registry of `zipper.c`;
- the protocol between the manager in `zookeeper.c` and its builders;
- the string and integer codecs of `sds.c` and `util.c`, and the linked list of `adlist.c`.

`dafny verify dfyconfig.toml` checks everything.

## How it is organised

Programs that update state in place are modelled as classes and methods over arrays, fields
and linked nodes (`RingBuffer`, `CeresBuilder`, `FontusBuilder`, `FakeDataGen`, `RespClient`, `ReplyQueue`,
`Zipper`, `IpcPipe`, `List`). Each method is proved to do what a pure specification does, and
the properties are proved about the specification: `CeresParser` and `FontusParser` take one 32-bit word
at a time, and `Resync` says, for both, how runs go on after the flag for lost synchronisation has been
cleared; `RespProtocol` goes one step at a time, `Zippers.State` one payload or one turn of the main
loop at a time, and `ManagerProtocol.Builder` one step of the manager, the pipes or the child.
What a specification means is then stated without it, in terms of what is on the wire, on the
line or in the file: `CeresWire` and `FontusLayout` for the bytes and words of an event,
`QuotedLines` and `RespLines` for the characters of a line, `EventFiles.IsHeaderAt` for the bytes
of a saved event, and `ManagerProtocol.AccountOf` for what the clients of a builder are told.

What is read from a socket, a pipe or the clock is a parameter, so a statement holds for
every way the environment can behave. Sizes that the code fixes with `#define` are constants
here, except for the size of the ring buffer, which is any whole number of words greater
than a header. The host is little-endian, except where a statement says that it holds for
either byte order. `hide` statements keep proofs small; they do not change what is stated.

## Findings

Where the code does not do what its comments say, the model follows the code:

- A header that does not check is thrown away, but the 20 bytes it counted in the event
  buffer stay counted. After the next successful search an event is published with the bad
  header in front of it and 20 extra bytes. `CeresEvents.EventIsPublished` says exactly when an
  event is published as it was sent, and `CeresEvents.BadHeadersSpoilTheNextEvent` what any
  number of bad headers does.
- The search for an event compares the marker lowest byte first. The marker of CERES is the
  same backwards, that of FONTUS is not: once a FONTUS builder has lost its place it never
  publishes anything again (`FontusParser.NeverRecovers`, `FontusBuilders.FontusBuilder.Run`).
- `pop32` loses the first of four bytes that go round the end of the ring buffer and reverses
  the others (`RingBuffers.RoundTheEndIsRight`); with aligned words none ever do.
- A negative second sample of a pair spills its sign over the first one, so the word that is
  stored is `0xFFFF` in its upper half (`CeresCodec.SignSpill`). A channel survives encoding
  and decoding exactly when all differences fit fourteen bits (`CeresCodec.RoundTrip`). When they
  do not, what is stored and published does not even agree modulo 2^14, although the decoder's
  samples do (`CeresCodec.WrapSpoilsUpperHalf`); `CeresCodec.StoredModulo14Bits` and
  `FakeData.EncodeThenBuildModulo14Bits` say exactly when it does.
- `produce_data` without samples returns one word too many for each channel
  (`FakeDataGen.ProduceData`), and the builder loses its place in what it emits
  (`FakeData.ZeroLengthReels`).
- Releasing a completely full ring buffer of which nothing has been read empties it: the three
  pointers are equal, as in an empty one (`RingBuffers.RingBuffer.UpdateEventReadPointer`,
  `RingBuffers.RingBuffer.FindEventStart`). `CeresBuilders.FullBufferIsLost` is a run that comes to it.
- A search for an event that finds nothing also skips the last three bytes, which may be the
  start of a marker (`RingBuffers.RingBuffer.FindEventStart`).
- An event of FONTUS without samples is never completed: the builder takes every word that
  follows (`FontusEvents.ZeroLengthIsStuck`).
- A compressed word read where fewer than three sample pairs remain makes a channel too long,
  and the event longer than it counts (`CeresLayout.CompleteEvent`).
- A request argument of 32 KiB or more is copied before its line end is cut off, and up to its
  first NUL only. No read asks for more than what is missing of it, so each of them is alone in the
  query buffer when it is complete, and arrives wrong (`RespEncoding.BigArgumentIsWrong`,
  `RespProtocol.ReadTakesCStrings`): requests arrive as they were sent exactly when no argument is
  that big (`RespEncoding.RequestsAreRead`).
- Requests depend on how they are cut into segments exactly when a line is found too big
  before its end has arrived (`RespProtocol.Segmentation`).
- A piece of a reply longer than 16368 bytes that needs a new block makes the block record
  less room than it is filled with. The room that is left is then a huge unsigned number, and a longer
  reply than its memory holds is written beyond it (`ReplyQueues.ReplyQueue.AddReplyProtoToList`).
- A complete event whose slot is taken before it is saved is written with the payload of the
  other event; a repeated payload for a waiting event frees its payloads twice; an event that
  is completed while the stack is full is dropped (`Zippers.CollisionSavesAnotherPayload`,
  `Zippers.RepeatIsFreedTwice`, `Zippers.FullStackDropsEvent`). `Zippers.RunIsRight` says exactly
  which runs go well, and `Zippers.BadPayloadsCanCome` that the others do occur.
- When a client disconnects, the head of the command list is tested instead of the node
  visited (`ManagerProtocol.DisconnectIsRight` says when that is right). A head that an earlier
  disconnection has set to NULL is dereferenced by the next one
  (`ManagerProtocol.SecondDisconnectionCrashes`, `ManagerProtocol.DisconnectCrashes`).

## Model

| member | source | states |
|---|---|---|
| `CeresBuilders.CeresBuilder.BuildAll` | fakernet_code/data_builder.c:1793-1923 | segmentation independence: for every size of the ring buffer and every sequence of delivery sizes, a stream on which the one-shot parse does not fail leaves the builder exactly where that parse ends, with the same events published; on the way what is published is a prefix of them, the ring buffer stays word-aligned with the read pointer ahead only by an unfinished header, and the loop ends |
| `CeresBuilders.CeresBuilder.Run` | fakernet_code/data_builder.c:1793-1923 | the main loop on any stream, bad headers, bad words and searches included, whatever the sizes of the deliveries: turns are taken until all of the stream is delivered and used; the builder is then where parsing pieces of the stream in order leads, each one after a piece whose parse failed, from the first marker that the search finds on, and what it published is what these parses publish; a run stops early only when a piece begins off the word boundaries or bad headers have filled the event buffer |
| `Resync.PiecesBeginAtFirstMarker` | fakernet_code/data_builder.c:802-857 | in every such run, for both formats and however the stream is delivered: a piece begins at a marker, and no word between where the search for it began and that is the marker, unless a full ring buffer was dropped |
| `CeresBuilders.CeresBuilder.ReelingTurn` | fakernet_code/data_builder.c:1857-1868 | a turn while reeling pulls what there is room for and looks through the unread bytes up to the end of the buffer: the flag is cleared if and only if they hold the marker, and then what is unread starts with the first one; otherwise they are gone; nothing else changes, the count of the event buffer included |
| `CeresBuilders.CeresBuilder.ParsingTurn` | fakernet_code/data_builder.c:1793-1923 | a turn while not reeling lengthens the piece that is being parsed; if that fails, the search will begin right behind a bad header, or where the bytes of the body began to be read, never behind the word that failed |
| `CeresBuilders.FullBufferIsLost` | fakernet_code/data_builder.c:290-306 | a run from the start that loses a full ring buffer: a bad header, then a delivery of the size of the ring buffer that begins with the marker; whatever follows it, nothing of it is left and nothing is published |
| `CeresHeaderCrcs.CrcFromBytes` | fakernet_code/data_builder.c:633-655 | the walk over the bytes of a field, downwards on a host that keeps the lowest byte first, gives the CRC-8 of that field from its highest byte on |
| `CeresHeaderCrcs.CalcCeresHeaderCrc` | fakernet_code/data_builder.c:1062-1069 | three chained walks over the fields in memory, the device number and the final 0x55 give, on hosts of either byte order, the CRC-8 of wire bytes 4 to 18 in order |
| `CeresBuilders.CeresBuilder.CeresReadProc` | fakernet_code/data_builder.c:1329-1500 | for any state and any readable bytes: the words taken from the ring buffer drive the word-at-a-time parser to the same event in progress and event buffer; the reeling flag is set only if that parser fails on the readable bytes; progress is made whenever a word is readable |
| `CeresBuilders.CeresBuilder.Iterate` | fakernet_code/data_builder.c:1793-1923 | one turn of the main loop while not reeling, for any delivery: what was unread or arrived has been parsed up to a point, what is left unread is what lies behind it, unless the parse failed; then the flag is set, the builder is where that parse ended, and at least what is behind the word that failed is unread |
| `CeresBuilders.CeresBuilder.Turn` | fakernet_code/data_builder.c:1793-1923 | on a stream that parses the builder stays in step with the parse of the bytes it has used, never reels, and uses more bytes whenever some are there |
| `CeresBuilders.CeresBuilder.PullFromFpga` | fakernet_code/data_builder.c:515-570 | what arrives, cut to the contiguous free space, is appended to the unread bytes; that space is not empty unless the ring buffer is full |
| `CeresBuilders.CeresBuilder.ReadBody` | fakernet_code/data_builder.c:1378-1499 | the waveform loop consumes whole words only, releases exactly what it consumed, and stops at the end of an event |
| `CeresBuilders.CeresBuilder.ReadHeader` | fakernet_code/data_builder.c:1341-1354 | the header loop resumes at the word it stopped at; between calls the read pointer is ahead only by the bytes of the unfinished header |
| `CeresBuilders.CeresBuilder.ReadCheckedHeader` | fakernet_code/data_builder.c:1341-1368 | a complete header goes on to the waveforms exactly when the CRC-8 calculated from its fields in memory and its marker are right; otherwise the event is trashed, the header is consumed, and the builder is where the failed parse of the stream is |
| `CeresBuilders.CeresBuilder.ReadCompressed` | fakernet_code/data_builder.c:1423-1448 | the loop over six five-bit differences stashes the three sample pairs of the specification, oldest in the highest bits |
| `CeresBuilders.CeresBuilder.ReadUncompressed` | fakernet_code/data_builder.c:1449-1474 | one sample pair, the first sample absolute at the start of a channel |
| `CeresBuilders.CeresBuilder.ReadWord` | fakernet_code/data_builder.c:1386-1484 | one word after the header does to the event buffer and the event in progress what the specification does |
| `CeresBuilders.CeresBuilder.StashWithReorder` | fakernet_code/data_builder.c:780-800 | the word lands in the slot of its permuted channel, as a marker if it is the first, and nothing else of the event buffer changes; CeresWire.EventOnTheWire says in terms of the published bytes which slot that is |
| `CeresBuilders.CeresBuilder.PublishEvent` | fakernet_code/data_builder.c:1894-1921 | a completed event is published with the bytes that were counted, and the event buffer is cleared |
| `FontusBuilders.FontusBuilder.BuildAll` | fakernet_code/data_builder.c:1793-1923 | segmentation independence for FONTUS, for every ring buffer size and every sequence of delivery sizes, as for CERES |
| `FontusBuilders.FontusBuilder.Run` | fakernet_code/data_builder.c:1793-1923 | the same for FONTUS, and once the builder has been reeling nothing more is ever published, unless a full ring buffer was dropped |
| `FontusBuilders.FontusBuilder.ReelingTurn` | fakernet_code/data_builder.c:1857-1868 | as for CERES |
| `FontusParser.NeverRecovers` | fakernet_code/data_builder.c:834-837 | a search compares the marker of FONTUS backwards, so what it finds is never the start of an event: pieces parsed after a resynchronisation publish nothing |
| `FontusBuilders.FontusBuilder.FontusReadProc` | fakernet_code/data_builder.c:1156-1255 | the words taken from the ring buffer drive the word-at-a-time parser of FONTUS to the same state; the reeling flag is set only if that parser fails on the readable bytes; which words those are is in FontusLayout.HeaderIsChecked and FontusLayout.MarkerDecides |
| `FontusHeaders.CalcHeaderCrc` | fakernet_code/data_builder.c:1044-1060 | storing each field at its own offset with its own byte swap, and taking the CRC of that, gives the CRC-32 of wire bytes 4 to 47 |
| `FontusHeaders.PutHeaderFields` | fakernet_code/fake_data_gen.c:87-121 | the nine stores of 1, 2, 4 and 8 bytes, at offsets 0, 4, 12, 14, 15, 16, 20, 28 and 36, leave the 44 header bytes in network order and change nothing else |
| `FontusEvents.EventIsPublished` | fakernet_code/data_builder.c:1193-1249 | a well-formed event is published, as a verbatim copy of its words and with its header, if and only if it has samples |
| `FontusEvents.PublishedVerbatim` | fakernet_code/data_builder.c:1193-1249 | whatever is published from a clean start is byte for byte what came in, and its header is the one those words spell |
| `FontusLayout.ExactlyEvents` | fakernet_code/data_builder.c:1156-1255 | from a clean start, words are published as one event byte for byte, and nothing else, if and only if the first is 0xF00FF00F, the thirteenth is the CRC-32 of the eleven between, the length n in the fifth is not zero, there are 17 + 4 * n of them, and words 13, 14 + n, 15 + 2 * n and 16 + 3 * n are 0xFF00FF00, 0xFF01FF01, 0xFF02FF02 and 0xFF03FF03 |
| `FontusLayout.CompletedIsEvent` | fakernet_code/data_builder.c:1193-1249 | whatever words complete an event are of that form |
| `FontusLayout.FirstPublished` | fakernet_code/data_builder.c:1156-1255 | from a clean start, whatever comes, the first event that is published is the words of an event, from the first word on |
| `FontusLayout.MarkerDecides` | fakernet_code/data_builder.c:1208-1220 | when the marker of a waveform is due it is taken, and any other word sets the flag, clears the count and publishes nothing |
| `FontusLayout.HeaderIsChecked` | fakernet_code/data_builder.c:1182-1190 | thirteen words set the flag if and only if the first is not the marker or the last is not the CRC-32 of the words between; nothing is published, and their 52 bytes stay counted |
| `FontusLayout.WordsBack` | fakernet_code/data_builder.c:1086-1141 | the header that thirteen words make spells exactly those words |
| `FontusEvents.ZeroLengthIsStuck` | fakernet_code/data_builder.c:1229-1240 | without samples the builder takes every further word and never completes the event |
| `FontusEvents.HeaderRoundTrip` | fakernet_code/data_builder.c:1086-1141 | the thirteen header words carry the whole header, whatever the struct held before |
| `FontusEvents.HeaderOnTheWire` | fakernet_code/data_builder.c:1044-1060 | the bytes the header CRC is taken of are wire bytes 4 to 47, in order |
| `FontusEvents.ProduceFontusData` | fakernet_code/fake_data_gen.c:61-138 | the generator, field by field and word by word, leaves exactly the event on the wire in the buffer |
| `FontusEvents.EncodeThenBuild` | fakernet_code/fake_data_gen.c:61-138 | what the generator emits is published as it was sent if and only if it has samples |
| `CeresParser.FeedAllConcat` | fakernet_code/data_builder.c:1329-1500 | parsing two strings of words one after the other is parsing them joined |
| `CeresParser.FeedAllGrows` | fakernet_code/data_builder.c:1329-1500 | published events are never taken back |
| `CeresParser.CountFits` | fakernet_code/data_builder.c:1370-1375 | no event of a sixteen-bit length can outgrow the event buffer, so the branch for an event that is too large is dead |
| `CeresParser.OffsetFits` | fakernet_code/data_builder.c:795-798 | every slot that can be stashed at, including those of an overlong channel, lies in the event buffer |
| `CeresEvents.EventIsPublished` | fakernet_code/data_builder.c:1356-1494 | an event of compressed and uncompressed words in any order is published as it was sent (header, then every channel, decoded, in its permuted place under its own marker, and exactly 20 + 64 * (length + 2) bytes) if and only if nothing was counted before it and no compressed word has pairs to spare |
| `CeresWire.EventOnTheWire` | fakernet_code/data_builder.c:1356-1494 | the same in bytes: the published event is marker, number, clock, length, device byte and CRC in network order, and if the device byte is even channel c lies at byte 20 + 4 * (length + 2) * (4 * (c / 4) + 3 - c % 4), if it is odd at 20 + 4 * (length + 2) * (15 - c), behind 0xFF, its place, 0xFF, its place, each if and only if nothing was counted before it and no compressed word had pairs to spare |
| `CeresWire.InPlaceIs` | fakernet_code/data_builder.c:108-109 | the two order tables put every channel where the parity of the device byte says, in closed form |
| `CeresWire.MarkerDecides` | fakernet_code/data_builder.c:1395-1410 | when the marker of channel c is due, the bytes 0xFF, c, 0xFF, c are taken, and any other word sets the flag, clears the count and publishes nothing |
| `CeresWire.OthersAreTaken` | fakernet_code/data_builder.c:1413-1490 | when a sample or a CRC is due, no word sets the flag |
| `CeresWire.MarkIsStored` | fakernet_code/data_builder.c:1415-1474 | every word stored for a sample word has its top bit set if that word has, and otherwise exactly if one of the two samples is negative as a sixteen-bit number |
| `CeresEvents.StaleBytesArePublished` | fakernet_code/data_builder.c:1360-1368 | what is counted when an event starts is published in front of it, and counted on top |
| `CeresEvents.BadHeaderStaysCounted` | fakernet_code/data_builder.c:1356-1368 | five words of a header that does not check set the flag; when the next turn clears it, an event can start with 20 bytes counted, and these words are there |
| `CeresEvents.BadHeadersSpoilTheNextEvent` | fakernet_code/data_builder.c:1356-1368 | after any number of bad headers, each followed by a turn that finds an event, the next event is published as it was sent if and only if there was none; otherwise it is 20 bytes longer for each, with the first bad header in front |
| `CeresEvents.HeaderRoundTrip` | fakernet_code/data_builder.c:1300-1326 | the five header words carry the whole header, whatever the struct held before |
| `CeresEvents.HeaderWordsBack` | fakernet_code/data_builder.c:1300-1326 | and no other words make the same header |
| `CeresEvents.HeaderCrcCoversWireBytes` | fakernet_code/data_builder.c:1356-1359 | a header is accepted exactly when its marker is right and its last byte is the CRC-8 of wire bytes 4 to 18 in order |
| `CeresEvents.NewChannelIsInvolution` | fakernet_code/data_builder.c:108-109 | both channel orders are their own inverses |
| `CeresEvents.ChannelsApart` | fakernet_code/data_builder.c:795-798 | different channels have disjoint slots |
| `CeresLayout.SlotsAreABijection` | fakernet_code/data_builder.c:780-800 | every word behind the header is the slot of exactly one word of one channel |
| `CeresLayout.CompleteEvent` | fakernet_code/data_builder.c:1395-1491 | for any stream, compressed words included: the words of a completed event are sixteen channels in order; it has written each of its 16 * (length + 2) slots exactly once, and counted four bytes for each, if and only if compressed words were used only where three pairs remained; then every slot k opens with the marker of channel k |
| `CeresLayout.CompletedIsPublished` | fakernet_code/data_builder.c:1341-1494 | whatever words complete an event behind a good header are an event on the wire, and it is published as it was sent if and only if nothing was counted before it and no compressed word overran its channel |
| `CeresLayout.OnlyItsPlaces` | fakernet_code/data_builder.c:1395-1491 | a word after the header changes only the slots of its own samples |
| `CeresCodec.RoundTrip` | fakernet_code/fake_data_gen.c:190-222 | a channel of fourteen-bit samples encoded by produce_data and decoded by ceres_read_proc comes back exactly if and only if every successive difference lies in -8192..8191 |
| `CeresCodec.DeltaFields` | fakernet_code/fake_data_gen.c:195-222 | what the generator writes for a pair, in bits 16 to 29 and 0 to 13 and without a mark: at the start the first sample and its difference to the second, and then the two successive differences, each of fourteen bits |
| `CeresCodec.DecodeIsRightModulo14Bits` | fakernet_code/data_builder.c:1449-1474 | without any bound on the differences, the samples in the decoder's registers agree with the encoded ones modulo 2^14 |
| `CeresCodec.DecodeIsOffByWraps` | fakernet_code/data_builder.c:1449-1474 | these samples are the encoded ones plus 2^14 times the net number of differences that wrapped so far |
| `CeresCodec.StoredModulo14Bits` | fakernet_code/data_builder.c:1468-1472 | of the word that is stored, the lower half always agrees with its sample modulo 2^14; the upper half does if and only if the net number of wraps so far is 0 or 1 modulo 4, or the first sample is all ones |
| `CeresCodec.WrapSpoilsUpperHalf` | fakernet_code/data_builder.c:1468-1472 | the samples 0 and 8192 are stored with the first one lost |
| `CeresCodec.DecodeIsExact` | fakernet_code/data_builder.c:1449-1474 | the samples themselves come back exactly up to a point just when the differences fit up to it |
| `CeresCodec.SignSpill` | fakernet_code/data_builder.c:1468-1472 | a negative second sample overwrites the first one of its word |
| `CeresCodec.CompressedIsExact` | fakernet_code/data_builder.c:1423-1448 | six samples packed into a compressed word come back exactly if and only if all their differences lie in -16..15 |
| `CeresCodec.CompressedPairs` | fakernet_code/data_builder.c:1423-1448 | the three pairs stashed for a compressed word are its six samples in order, the highest bits first |
| `CeresCodec.PlainPairs` | fakernet_code/data_builder.c:1449-1474 | without compressed words each word is one pair, and the pairs are those of the sample loop |
| `CeresChecks.CeresValidateCrcs` | fakernet_code/data_builder.c:1510-1528 | returns 0 exactly when the CRC behind each of the 16 slots is the CRC-32 of its samples |
| `CeresChecks.CalculateWaveformCrcs` | fakernet_code/data_builder.c:1071-1084 | the walk over the slots compares each channel's own samples with its own CRC |
| `CeresChecks.DamagedPairIsFlagged` | fakernet_code/data_builder.c:1510-1528 | changing any one 32-bit sample pair, or a stored CRC, of an event that checks makes it fail |
| `FakeData.EncodeThenBuild` | fakernet_code/fake_data_gen.c:140-227 | for fourteen-bit waveforms, the encoding (with at least one sample, what the generator emits) is published as exactly its header, the original samples in permuted slots, and CRCs that check, if and only if every successive difference fits its field |
| `FakeData.EncodeThenBuildModulo14Bits` | fakernet_code/fake_data_gen.c:140-227 | whatever the differences, an encoded event is published, with all of its samples right modulo 2^14 if and only if in every channel the net number of wraps is 0 or 1 modulo 4 at each second sample whose first one is not all ones |
| `FakeData.ZeroLengthReels` | fakernet_code/fake_data_gen.c:199-227 | what the generator emits for an event without samples always sets the flag, and is never published, whatever was in its buffer before |
| `FakeData.EncodeAllThenBuild` | fakernet_code/fake_data_gen.c:140-227 | a run of encoded events is published one for one and in order |
| `FakeData.StreamOfEvents` | fakernet_code/data_builder.c:1793-1923 | the bytes of such a run meet the premises of BuildAll, so any delivery of them builds exactly these events |
| `FakeData.FakeHeaderIsGood` | fakernet_code/fake_data_gen.c:165-171 | the generator's header CRC-8 is the one the builder expects |
| `FakeDataGen.ProduceData` | fakernet_code/fake_data_gen.c:140-227 | the two passes over the buffer leave exactly the encoding of the event in it if there is a sample; otherwise marker, coded CRC and whatever the buffer held there for each channel, one word more than the encoding |
| `FakeDataGen.DeltaEncode` | fakernet_code/fake_data_gen.c:193-222 | the in-place second pass replaces each word by its delta-coded form although it overwrites the words it computes the next difference from |
| `FakeDataGen.PutSamples` | fakernet_code/fake_data_gen.c:181-189 | two little-endian 16-bit stores and a 32-bit byte swap put the second sample into the upper half of a big-endian word |
| `FakeDataGen.WriteHeader` | fakernet_code/fake_data_gen.c:144-171 | the header bytes on the wire, with the CRC-8 of the 15 bytes before it |
| `RingBuffers.RingBuffer.UpdateWritePointer` | fakernet_code/data_builder.c:256-288 | received bytes are appended to the queue; with writes bounded by the contiguous space neither the wrap-around nor the overwrite branch is reached |
| `RingBuffers.RingBuffer.Receive` | fakernet_code/data_builder.c:515-550 | writing at the write pointer overwrites nothing that is retained |
| `RingBuffers.RingBuffer.UpdateReadPointer` | fakernet_code/data_builder.c:308-336 | moves over bytes of the queue in order, round the end if need be; reading too far is never reached |
| `RingBuffers.RingBuffer.UpdateEventReadPointer` | fakernet_code/data_builder.c:290-306 | releases exactly what has been read, except that a full buffer of which nothing has been read is emptied |
| `RingBuffers.RingBuffer.ContiguousReadable` | fakernet_code/data_builder.c:206-232 | what is left before the end of the buffer of the unread bytes; full, empty and all-read are told apart |
| `RingBuffers.RingBuffer.Readable` | fakernet_code/data_builder.c:234-254 | the number of unread bytes |
| `RingBuffers.RingBuffer.ContiguousSpaceAvailable` | fakernet_code/data_builder.c:171-185 | the free space up to the end of the buffer or the oldest retained byte |
| `RingBuffers.RingBuffer.Pop32` | fakernet_code/data_builder.c:745-778 | when four bytes are unread they are consumed: aligned or contiguous they are the next big-endian word, and round the end of the buffer they come out of the byte-wise branch as the next row says |
| `RingBuffers.RoundTheEndIsRight` | fakernet_code/data_builder.c:760-774 | the byte-wise branch loses the first byte and reverses the others, so it is right if and only if the first byte is zero and the second is the fourth |
| `RingBuffers.RingBuffer.FindEventStart` | fakernet_code/data_builder.c:802-857 | on any valid ring buffer, aligned or not: 1 exactly when the block searched holds the marker, and then the unread bytes start at the first one; what is dropped otherwise is stated byte for byte |
| `Resync.FirstMarker` | fakernet_code/data_builder.c:821-837 | the first place where the four marker bytes match, lowest byte first |
| `Crc32.Crc32Z` | fakernet_code/crc32.c:69-93 | the eight-fold unrolled table loop is the bitwise shift register of polynomial 0xEDB88320 over exactly the given bytes; NULL gives 0 |
| `Crc32.CheckValue` | fakernet_code/crc32.c:68-95 | the CRC of the nine characters 1 to 9 is 0xCBF43926, the check value published for it |
| `Crc32.TableStepIsBitwise` | fakernet_code/crc32.c:64-65 | one table step is eight shifts of the register, for every state and byte |
| `CrcTable.TableIsBitwise` | fakernet_code/crc32.c:56-65 | every entry of the literal table is its index shifted eight times |
| `Crc32.CrcContinues` | fakernet_code/crc32.c:69-93 | a CRC fed back in continues where it stopped |
| `Crc32.UpdateInjective` | fakernet_code/crc32.c:64-93 | each step is injective in the state, so different states stay different under the same bytes |
| `Crc32.BurstIsDetected` | fakernet_code/crc32.c:69-93 | strings of any length that differ only within a window of at most four bytes have different CRCs |
| `Crc32.SliceByFour` | fakernet_code/crc32.c:115-121 | the slice-by-four step on a little-endian word, with the entries of tables 0 to 3 as shipped, is four table steps |
| `Crc32.TablesAreSlices` | fakernet_code/crc32.h:15-234 | every entry of tables 0 to 3 is its index shifted by 8, 16, 24 and 32 bits |
| `Crc32Combine.Crc32Combine` | fakernet_code/crc32.c:219-269 | combining the CRCs of any two byte strings gives the CRC of their concatenation; the loop over the bits of the length ends |
| `Crc32Combine.Gf2MatrixTimes` | fakernet_code/crc32.c:195-207 | the loop over the bits of the vector is the matrix product over GF(2) |
| `Crc32Combine.Gf2MatrixSquare` | fakernet_code/crc32.c:210-216 | row by row, the square of a matrix |
| `Crc32Combine.SquareComposes` | fakernet_code/crc32.c:210-216 | the square of an operator is that operator applied twice |
| `Crc32Combine.OneZeroBit` | fakernet_code/crc32.c:228-236 | the rows set up at the start are the operator for one zero bit |
| `Crc32Combine.CrcOfConcat` | fakernet_code/crc32.c:219-269 | the CRC of a concatenation is the first CRC advanced by as many zero bytes as the second string has, plus the second CRC |
| `Crc8.Table.Init` | fakernet_code/crc8.c:22-33 | every table entry is its index shifted eight times through the polynomial 0x07 |
| `Crc8.Table.Append` | fakernet_code/crc8.c:38-48 | appending a byte is eight shifts of the register, whether or not the table was filled before |
| `Crc8.CheckValue` | fakernet_code/crc8.c:14-48 | the CRC of the nine characters 1 to 9 is 0xA1, the check value published for it |
| `RespProtocol.Segmentation` | fakernet_code/networking.c:348-407 | feeding two segments gives the same commands and the same client state as feeding them joined, if and only if the first did not end in a line refused as too big whose end the second one brings |
| `RespProtocol.Segments` | fakernet_code/networking.c:348-407 | the same for any number of segments, when no line is refused as too big |
| `RespProtocol.FastSegmentation` | fakernet_code/networking.c:348-407 | the same for the code with its shortcut, when no argument is big |
| `RespProtocol.ReadTakesCStrings` | fakernet_code/networking.c:223-275 | a read never asks for more than the rest of a big argument that is awaited, so every big argument goes through the shortcut: a read does what the plain form does that takes each of them as a C string |
| `RespProtocol.ReadSegmentation` | fakernet_code/networking.c:223-275 | two reads as the code makes them do what one read of both together does, big arguments or not, if and only if the first did not end in a line refused as too big whose end the second one brings |
| `RespProtocol.ShortcutIsRight` | fakernet_code/networking.c:559-572 | the shortcut for big arguments gives what copying gives if and only if the first NUL of the buffer is the byte behind the argument |
| `RespProtocol.ThinRun` | fakernet_code/networking.c:450-583 | without big arguments the shortcut is never taken, and processing is that of the plain form |
| `RespProtocol.RunIsDone` | fakernet_code/networking.c:348-407 | processing stops only where nothing more can be done before more input arrives, and it does stop |
| `RespEncoding.RequestsArrive` | fakernet_code/networking.c:450-583 | any requests within the limits of the server, encoded canonically and cut into segments in any way, are dispatched exactly as sent with nothing left over, by the plain form, and by the code when no argument is big |
| `RespEncoding.RequestsAreRead` | fakernet_code/networking.c:223-275 | the code, for any requests within the limits of the server, however its reads cut them: every big argument is dispatched as what is in front of its first NUL, or if it has none, as itself and its line end, and all others as sent; so requests arrive as sent if and only if no argument is big |
| `RespLines.InlineRequestReads` | fakernet_code/networking.c:290-346 | quoted arguments on a line of their own are dispatched as one request, exactly as they were quoted |
| `RespEncoding.BigArgumentIsWrong` | fakernet_code/networking.c:559-572 | a big argument that is alone in the buffer is dispatched wrong, whatever it is |
| `RespClients.RespClient.ReadQuery` | fakernet_code/networking.c:223-275 | as much of what is there as one read asks for is appended to the query buffer and processed as the specification says, errors and the shortcut included |
| `RespClients.RespClient.ReadLength` | fakernet_code/networking.c:223-245 | 16 KiB, or what is missing of a big argument and its line end when that is less |
| `RespLines.ReadSizeIs` | fakernet_code/networking.c:223-240 | 16 KiB, or what an argument of 32 KiB or more still lacks with its two bytes, if that is less |
| `RespClients.RespClient.ReadAll` | fakernet_code/networking.c:223-275 | a whole stream, however much of it is there each time, is cut into reads of the sizes the code asks for, and the client is where they lead one after the other |
| `RespClients.RespClient.ProcessInputBuffer` | fakernet_code/networking.c:348-407 | runs until more input is needed, and leaves the unread rest at the front of the query buffer |
| `RespClients.RespClient.ProcessMultibulkBuffer` | fakernet_code/networking.c:450-583 | resumes at the argument it stopped at; the assertions about the request in progress hold |
| `RespClients.RespClient.ProcessInlineBuffer` | fakernet_code/networking.c:290-346 | a line split into its arguments, or an error, or nothing before the line is complete; RespLines says which for every line |
| `RespLines.WordsAreDispatched` | fakernet_code/networking.c:290-346 | words on a line of their own, plain or quoted, ended by CR LF or by LF alone, are dispatched as one request of exactly their values, and blanks alone as none |
| `RespLines.UnbalancedLine` | fakernet_code/networking.c:317-321 | a line with an open quote, or with something right behind a closing one, ends the connection with that error |
| `RespLines.KeepsRest` | fakernet_code/networking.c:335-342 | of the arguments of a line the empty ones are dropped, and the others are cut at their first NUL |
| `RespLines.CountLine` | fakernet_code/networking.c:466-500 | a star and a line: not the decimal form of a 64-bit integer, or one above 1048576, is an error; zero and below are taken as nothing; any other is the number of arguments |
| `RespLines.LengthLine` | fakernet_code/networking.c:505-545 | the line of an argument: without a dollar sign it is an error that names its first byte; a length that is not the decimal form of an integer from 0 to 512 MiB is an error; any other is the length |
| `RespLines.ArgumentIsTaken` | fakernet_code/networking.c:550-580 | an argument of n bytes is taken with the two bytes behind it, copied exactly, or as a C string if it is of 32 KiB or more and all there is; the last one completes the request |
| `RespLines.InlineUnfinished` | fakernet_code/networking.c:299-306 | input without the end of a line is waited for, and an error beyond 64 KiB |
| `RespClients.RespClient.ReadBulk` | fakernet_code/networking.c:552-575 | the shortcut is taken exactly when a big argument and its line end are all that is unread |
| `ReplyQueues.ReplyQueue.AddReplyProto` | fakernet_code/networking.c:133-138 | replies queue up behind each other, whichever of the two buffers they go to, as long as the last block has the memory for what is appended to it |
| `ReplyQueues.ReplyQueue.AddReplyToBuffer` | fakernet_code/networking.c:60-75 | the static buffer is used only while the list is empty, so it always precedes it |
| `ReplyQueues.ReplyQueue.AddReplyProtoToList` | fakernet_code/networking.c:77-114 | the reply is appended, also to a block that records less room than it is filled with, as far as its memory goes; a block records less just when the part that needs a new block is longer than 16368 bytes |
| `ReplyQueues.ReplyQueue.WriteToClient` | fakernet_code/networking.c:899-969 | for any sequence of short writes: what was sent, followed by what is still queued, is what was ever queued; the count of reply bytes is zero when the list is empty; everything goes out if every write takes something and there are enough of them |
| `ReplyQueues.ReplyQueue.Interleave` | fakernet_code/networking.c:899-969 | over any interleaving of replies and writes, however short the writes are: what went out, followed by what is still queued, is all replies in the order in which they were added |
| `ReplyQueues.ReplyQueue.WriteBlock` | fakernet_code/networking.c:920-943 | a block that is fully sent is dropped, and the byte count stays the sum of the block sizes |
| `Zippers.EveryEventIsSavedOnce` | fakernet_code/zipper.c:956-977 | over every run that meets the premises: an event is saved or waiting exactly when all devices of the mask have sent it, saved once, with exactly the payloads received for that number; every payload is freed once or still in its slot |
| `Zippers.RunRefines` | fakernet_code/zipper.c:213-256 | over every run that meets the premises the registry stands for an unbounded map from event numbers to payloads |
| `Zippers.ArriveRefines` | fakernet_code/zipper.c:213-256 | taking a payload does to the slot what it does to the map, if its device has not sent that number, no other live event has its slot, and the stack has room |
| `Zippers.ArriveIsRight` | fakernet_code/zipper.c:213-256 | a payload leaves the slots in step with the map, and every payload held or freed, if and only if its device has not sent that number for a live event, no other live event has its slot, and the stack has room if it completes its event |
| `Zippers.RunIsRight` | fakernet_code/zipper.c:213-256 | over any run of distinct payloads, served in any order with the turns of the main loop: the registry is right throughout if and only if each payload could be taken when it came |
| `Zippers.BadPayloadsCanCome` | fakernet_code/zipper.c:186-256 | for every mask a run from the start, without a bad payload on the way, leads to a waiting event that a repeat or another event with its slot can follow, and to a full stack that one event too many can follow |
| `Zippers.FullStackDropsEvent` | fakernet_code/zipper.c:186-200 | an event completed while the stack is full stays in its slot and is not flagged |
| `Zippers.MissingPayloadEnds` | fakernet_code/zipper.c:370-377 | a complete event whose slot has lost the payload of a device of the mask ends the program: it is popped, and nothing is freed or saved |
| `Zippers.ServeRefines` | fakernet_code/zipper.c:956-977 | popping, saving and freeing an event does to the slot what it does to the map |
| `Zippers.SavedIsRight` | fakernet_code/zipper.c:309-400 | what is saved is complete and of that event exactly when its slot still is that of the complete event |
| `Zippers.Run` | fakernet_code/zipper.c:213-256 | in every run, collisions included, every set bit of a slot refers to a payload of its device for the slot's current event number |
| `Zippers.CollisionSavesAnotherPayload` | fakernet_code/zipper.c:245-253 | if a waiting event loses its slot it is saved as incomplete, with the other event's payload |
| `Zippers.RepeatIsFreedTwice` | fakernet_code/zipper.c:240-255 | a repeated payload for a waiting event gets the event saved and its payloads freed twice |
| `Zippers.Zipper.RegisterWaveform` | fakernet_code/zipper.c:213-256 | the update of the slot, of the ready stack and of the last number seen, or the freeing of a payload outside the mask |
| `Zippers.Zipper.SaveEvent` | fakernet_code/zipper.c:309-400 | behind what is in the file come sixteen bytes with the event number in network order, zero exactly if all devices of the mask are in the slot, the version, and a bit for each device of the slot; then the payloads of the mask with FONTUS first and the others in ascending order; when a payload is missing, those in front of it are written and the program ends |
| `EventFiles.HeaderReadsBack` | fakernet_code/zipper.c:318-351 | from the sixteen header bytes the event number is read back, the status, the version, and for each of the 64 bits whether its device is in the mask |
| `Zippers.Zipper.FreeEvent` | fakernet_code/zipper.c:402-425 | frees the payloads of the mask and empties the slot |
| `Zippers.Zipper.ServeEvent` | fakernet_code/zipper.c:956-977 | the turn of the main loop over one event: its header, with its own number, is at the end of what was in the file, and its payloads sixteen bytes on; as long as the program goes on, the file is the saved events one behind the other |
| `Zippers.EventsInFile` | fakernet_code/zipper.c:309-400 | in every run each saved event is in the file right behind those saved before it: its number, its status, the version, a bit for each of its devices, and sixteen bytes on its payloads |
| `Zippers.PayloadInBytes` | fakernet_code/zipper.c:357-392 | each payload lies in the file right behind those of the devices in front of it |
| `Zippers.Zipper.WrittenAre` | fakernet_code/zipper.c:370-377 | what is written is the payload of one device of the mask after the other, up to the first one that is missing |
| `ManagerProtocol.RepliesMatchCommands` | fakernet_code/zookeeper.c:151-211 | over every interleaving of manager, pipes and child: at most one command is outstanding, the k-th reply goes to the client of the k-th command and carries its code, no response comes without a command, and when the builder is gone every accepted command has had exactly one reply |
| `ManagerProtocol.EveryCommandIsAnswered` | fakernet_code/zookeeper.c:151-369 | over every interleaving, told from the steps alone: the commands accepted are exactly those that were issued while a builder ran, in order; each is answered once, in order, with its own code and the number that the child responded to it, or with the error once the builder is gone; and a builder runs from a start until it is stopped, or until its death is read |
| `ManagerProtocol.AcceptedAre` | fakernet_code/zookeeper.c:360-369 | the books that this is told from accept the requests that come while a builder runs, and no others |
| `ManagerProtocol.StepIsOk` | fakernet_code/zookeeper.c:106-235 | every step keeps the one outstanding command the head of the queue, wherever it is on its way |
| `ManagerProtocol.HeadIsAnswered` | fakernet_code/data_builder.c:1815-1856 | the head of the queue is answered as soon as the child and the manager have had a turn |
| `ManagerProtocol.DisconnectIsRight` | fakernet_code/zookeeper.c:307-345 | a disconnected client is forgotten, and nobody else, without a NULL dereference, if and only if the head of the list is not NULL already, no command but the head is the client's own, and the head is not, or is the only one |
| `ManagerProtocol.DisconnectCrashes` | fakernet_code/zookeeper.c:307-345 | NULL is dereferenced if and only if the head is NULL already, or is the client's own and not the only command |
| `ManagerProtocol.SecondDisconnectionCrashes` | fakernet_code/zookeeper.c:307-345 | after the client of the only command has disconnected as it is meant to, the disconnection of any client dereferences NULL |
| `ManagerProtocol.DisconnectAllIsRight` | fakernet_code/zookeeper.c:307-345 | over all builders it is right if and only if it is right for each |
| `ManagerProtocol.IpcPipe.SendManagerCommandAsync` | fakernet_code/zookeeper.c:213-235 | walking to the end of the linked list appends the command to those that wait, whatever waits already; it is sent at once only when nothing was queued |
| `ManagerProtocol.IpcPipe.ChildReadProc` | fakernet_code/zookeeper.c:151-209 | the head gets the response and the next command is sent, or at the end of the file everything is cleaned up |
| `ManagerProtocol.IpcPipe.CleanUpChildProcessPipes` | fakernet_code/zookeeper.c:106-135 | every command left in the list gets an error, in order |
| `ManagerProtocol.IpcPipe.ServeManager` | fakernet_code/data_builder.c:1542-1590 | a known command is answered with its own code, an unknown one not at all |
| `ManagerProtocol.IpcPipe.StartBuilder` | fakernet_code/zookeeper.c:237-277 | a second builder of the same number is never started |
| `ManagerProtocol.IpcPipe.StopBuilder` | fakernet_code/zookeeper.c:279-305 | stopping cleans up after a running builder, and does nothing otherwise |
| `ManagerProtocol.IpcPipe.IssueCommand` | fakernet_code/zookeeper.c:360-369 | a command is accepted exactly when the builder is running, and is then behind those that wait |
| `QuotedStrings.QuotingRoundTrip` | fakernet_code/sds.c:950-951 | splitting the space-joined quoted forms of any list of byte strings gives back exactly that list |
| `QuotedStrings.QuotedReadsBack` | fakernet_code/sds.c:958-1066 | a quoted form reads back as its string from any place of a line, whatever was read before it |
| `QuotedStrings.EscapeReadsBack` | fakernet_code/sds.c:883-906 | every byte's escape is taken back as one byte, look-alikes of hexadecimal escapes included |
| `QuotedStrings.Sdssplitargs` | fakernet_code/sds.c:958-1066 | the nested loops compute the specification on every line, NULL included; QuotedLines.EveryLine says what that is |
| `QuotedLines.EveryLine` | fakernet_code/sds.c:958-1066 | every line is of exactly one kind: words with blanks around them, each of them plain characters, or a part in double or single quotes behind such, and then the result is their values, in order; or a quoted part with something else than a blank right behind it, or a quote left open, and then the result is NULL |
| `QuotedLines.LineReads` | fakernet_code/sds.c:958-1066 | any list of words, plain, in double quotes with escapes, and in single quotes with a backslash before a quote, in any order and with any blanks between and around them, is split into exactly their values |
| `QuotedLines.BadlyClosed` | fakernet_code/sds.c:999-1003 | a closing quote with anything but a blank or the end behind it makes the result NULL, whatever precedes and follows |
| `QuotedLines.LeftOpen` | fakernet_code/sds.c:1004-1006 | a quote that is left open makes the result NULL, also when the line ends in a backslash |
| `QuotedLines.EscapeIs` | fakernet_code/sds.c:883-906 | how sdscatrepr writes each of the 256 bytes |
| `QuotedLines.ReprOfPlain` | fakernet_code/sds.c:883-906 | what is printable and has neither quotes nor backslashes is only put between two quotes |
| `QuotedStrings.Sdscatrepr` | fakernet_code/sds.c:883-906 | appends the quoted form |
| `QuotedStrings.HexDigit` | fakernet_code/sds.c:910-940 | is_hex_digit and hex_digit_to_int invert the hexadecimal digits |
| `IntegerStrings.String2ll` | fakernet_code/util.c:77-140 | accepts a string if and only if it is what some 64-bit integer prints as, and finds that integer |
| `IntegerStrings.Ll2string` | fakernet_code/util.c:154-206 | prints the decimal form, terminated, or nothing when it does not fit, for every 64-bit integer |
| `IntegerStrings.PutDigits` | fakernet_code/util.c:186-201 | the loop over two digits at a time fills exactly the digits of the number and changes nothing else |
| `IntegerStrings.Digits10IsLength` | fakernet_code/util.c:45-64 | digits10 is the number of digits printed, for every number |
| `IntegerStrings.PrintInjective` | fakernet_code/util.c:154-206 | different integers print differently |
| `IntegerStrings.AcceptedIsPrinted` | fakernet_code/util.c:63-76 | the canonical strings without overflow are exactly the printed ones |
| `IntegerStrings.TwoDigitsAre` | fakernet_code/util.c:155-160 | each pair in the table of digits is the decimal form of its index |
| `IntegerStrings.Sdsll2str` | fakernet_code/sds.c:449-478 | prints the same bytes as ll2string, except at LLONG_MIN, by reversing in place |
| `LinkedLists.List.AddNodeHead` | fakernet_code/adlist.c:87-104 | the value goes in front of the sequence |
| `LinkedLists.List.AddNodeTail` | fakernet_code/adlist.c:113-131 | the value goes behind the sequence |
| `LinkedLists.List.InsertNode` | fakernet_code/adlist.c:133-160 | the value goes before or after the given node |
| `LinkedLists.List.DelNode` | fakernet_code/adlist.c:166-178 | exactly the given node is gone from the sequence |
| `LinkedLists.List.Rotate` | fakernet_code/adlist.c:329-342 | the last node becomes the first |
| `LinkedLists.List.Join` | fakernet_code/adlist.c:346-361 | the sequences are concatenated and the other list is left empty but valid |
| `LinkedLists.List.Index` | fakernet_code/adlist.c:314-326 | the node at the index, counted from the tail when negative, or NULL |
| `LinkedLists.List.Dup` | fakernet_code/adlist.c:249-278 | a fresh list of the same values, or of what the dup method makes of them, or none if that fails on one of them; the original is not changed |
| `LinkedLists.DuplicatesAre` | fakernet_code/adlist.c:249-278 | without a dup method the copies are the values; with one they are what it makes of each, and there is no copy just when it fails on some value |
| `LinkedLists.List.ListNext` | fakernet_code/adlist.c:228-239 | the node the iterator is at, which moves on to its neighbour in its direction |
| `LinkedLists.List.Sweep` | fakernet_code/adlist.c:213-239 | a listNext loop, in either direction, that deletes any choice of the nodes it is at visits every original element once, in order, and leaves exactly the others |
| `LinkedLists.List.Drain` | fakernet_code/networking.c:988-1017 | with every node deleted on the way, all values are visited in order and the list is empty |

## Left out

- CeresBuilders.CeresBuilder.Run: what follows a search that ends off the word boundaries, and a count of the event buffer that bad headers without a good one in between (more than 300000 of them) have run up so far that an event of the greatest length would no longer fit; the code goes on, and writes beyond the event buffer once they have filled it. Where the pieces begin and end depends on the deliveries, because a body word that is not the expected marker returns without releasing anything; the segmentation statements proper (`BuildAll`) are for streams on which the one-shot parse does not fail.
- FontusBuilders.FontusBuilder.Run: the same, with more than 180000 bad headers.
- CeresEvents.BadHeaderStaysCounted: counts beyond that bound, and so for CeresEvents.BadHeadersSpoilTheNextEvent.
- Deliveries that are not whole words: the FPGA sends multiples of four bytes, and the loop over the body relies on it.
- `ring_buffer_space_available`: it returns what is occupied, not what is free, in one of its branches; it is only reached behind a branch that is always taken first.
- The loops around the slice-by-four step of `crc32.c`, which are compiled only with `BYFOUR`, and its tables for big-endian hosts.
- Widths: byte counts, pointers and lengths are unbounded integers where the code uses `size_t` or `int` and the model bounds them by the buffers; sample and register arithmetic has the width of the code.
- CeresBuilders.CeresBuilder.BuildAll: the contents of the event in progress before its first event are zeros, where the C `static` variable is filled by `start_event`, which leaves the header undefined; the header is fully overwritten before it is used.
- FakeDataGen.ProduceData: lengths are those of the sixteen-bit length field; the pseudo-random samples and the clock are parameters.
- Publishing to Redis, the files that the builders write, logging, statistics and the heartbeat.
- RespClients.RespClient.ReadQuery: the limit on the size of the query buffer, and clients that are freed or that a command closes; every dispatched command leaves the client as it is.
- ReplyQueues.ReplyQueue.AddReplyProto: appending more to a last block than its memory holds, which is written beyond it; the limit on the memory of a client's replies, and errors of the connection.
- Zippers.Zipper.RegisterWaveform: device numbers of 31 and more, for which the filter shifts an `int` too far; bit words are sets of bit positions; `last_seen_event` only decides about a log line.
- Zippers.Zipper.SaveEvent: a failing write, which ends the program like a missing payload does; so does writing a payload of no bytes, which no builder publishes. The file is never full, and is not changed for another one.
- ManagerProtocol.RepliesMatchCommands: clients stay connected; a `ManagerIO` goes over a pipe in one piece, since it is smaller than what a pipe writes atomically.
- IntegerStrings.Sdsll2str: LLONG_MIN, whose negation is undefined in C.
- LinkedLists.List.Dup: the `free` and `match` methods, and failing allocation.
- Sockets, `select`, signals, `fork` and `waitpid`, the register wrappers and command tables, the event loop, and the Python scripts.
