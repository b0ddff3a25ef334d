/**
 The CERES event format as a pure state machine that takes one 32-bit word at a
 time. It is the specification of ceres_read_proc and of the part of the main loop
 of data_builder.c that publishes a completed event and clears the event buffer.
 */
module CeresParser {
  import opened Words
  import opened Resync
  import opened Arithmetic16
  import Crc8

  const CERES_MAGIC_VALUE: bv32 := 0xFFFFFFFF
  const CERES_HEADER_SIZE: nat := 20
  const NUM_CHANNELS: nat := 16
  const EVENT_BUFFER_SIZE: nat := 10 * 1024 * 1024

  // ----- Trigger header -----

  datatype Header = Header(
    magicNumber: bv32, trigNumber: bv32, clock: bv64, length: bv16, deviceNumber: bv8, crc: bv8)
  {
    /** Sample pairs in each channel. */
    function Length(): (n: nat)
      ensures n < 0x1_0000
    {
      length as nat
    }

    function IsEven(): bool { deviceNumber % 2 == 0 }
  }

  const BLANK_HEADER := Header(0, 0, 0, 0, 0, 0)

  /** A field of 64 bits, filled by halves. */
  function WithHigh(was: bv64, word: bv32): bv64 { (was & 0x0000_0000_FFFF_FFFF) | ((word as bv64) << 32) }

  function WithLow(was: bv64, word: bv32): bv64 { (was & 0xFFFF_FFFF_0000_0000) | word as bv64 }

  /** ceres_interpret_header_word. */
  function InterpretHeaderWord(h: Header, word: bv32, which: nat): Header {
    match which
    case 0 => h.(magicNumber := word)
    case 1 => h.(trigNumber := word)
    case 2 => h.(clock := WithHigh(h.clock, word))
    case 3 => h.(clock := WithLow(h.clock, word))
    case 4 => h.(length := ((word & 0xFFFF_0000) >> 16) as bv16,
                 deviceNumber := ((word & 0xFF00) >> 8) as bv8,
                 crc := (word & 0xFF) as bv8)
    case _ => h
  }

  function HighWord(clock: bv64): bv32 { (clock >> 32) as bv32 }

  function LowWord(clock: bv64): bv32 { (clock & 0xFFFF_FFFF) as bv32 }

  function HighByte(length: bv16): bv8 { (length >> 8) as bv8 }

  function LowByte(length: bv16): bv8 { (length & 0xFF) as bv8 }

  /** The bytes of a 64-bit field, most significant first. */
  function LongBytes(w: bv64): (s: seq<bv8>)
    ensures |s| == 8
  {
    ToBytes(HighWord(w)) + ToBytes(LowWord(w))
  }

  /** The bytes of a 16-bit field, most significant first. */
  function ShortBytes(w: bv16): (s: seq<bv8>)
    ensures |s| == 2
  {
    [HighByte(w), LowByte(w)]
  }

  /** Trigger number, clock, length and device number, each in network order. */
  function HeaderCrcBytes(h: Header): seq<bv8> {
    ToBytes(h.trigNumber) + ToBytes(HighWord(h.clock)) + ToBytes(LowWord(h.clock))
    + [HighByte(h.length), LowByte(h.length), h.deviceNumber]
  }

  function HeaderCrc(h: Header): bv8 {
    Crc8.Crc(HeaderCrcBytes(h))
  }

  predicate GoodHeader(h: Header) {
    h.crc == HeaderCrc(h) && h.magicNumber == CERES_MAGIC_VALUE
  }

  // ----- Samples -----

  function Asr2(x: bv16): bv16 {
    (x >> 2) | (if x & 0x8000 != 0 then 0xC000 else 0)
  }

  function Low16(w: bv32): bv16 { (w & 0xFFFF) as bv16 }

  function ValidBit(w: bv32): bv16 { if w & 0x8000_0000 != 0 then 0x8000 else 0 }

  predicate IsCompressed(w: bv32) { w & 0x4000_0000 != 0 }

  /** Two samples in one word; the lower one is sign extended by the promotion to int. */
  function SamplePair(valid: bv16, first: bv16, second: bv16): bv32 {
    (((first | valid) as bv32) << 16) | second as bv32 | (if second & 0x8000 != 0 then 0xFFFF_0000 else 0)
  }

  /** The fourteen-bit signed difference in the upper half of an uncompressed word. */
  function UpperDelta(w: bv32): bv16 { Asr2(Low16(w >> 14)) }

  function LowerDelta(w: bv32): bv16 { Asr2(Low16((w & 0x3FFF) << 2)) }

  /** The sample in the upper half of an uncompressed word: absolute at the start of a channel. */
  function UpperSample(w: bv32, prev: bv16, atStart: bool): bv16 {
    if atStart then Low16((w >> 16) & 0x3FFF) else Plus(prev, UpperDelta(w))
  }

  function LowerSample(w: bv32, prev: bv16): bv16 {
    Plus(prev, LowerDelta(w))
  }

  /** The `i`-th five-bit signed difference of a compressed word. */
  function SmallDelta(w: bv32, i: nat): bv16
    requires i < 6
  {
    SignExtend5(SmallField(w, i))
  }

  /** The `i`-th five-bit field of a compressed word, from the lowest bits on. */
  function SmallField(w: bv32, i: nat): bv16
    requires i < 6
  {
    Low5(Shr(w, 5 * i))
  }

  function Shr(w: bv32, n: nat): bv32
    requires n <= 32
  {
    w >> n
  }

  function Low5(w: bv32): bv16 { Low16(w & 0x1F) }

  function SignExtend5(x: bv16): bv16 { if x & 0x10 != 0 then x | 0xFFE0 else x }

  // ----- Layout of the event buffer -----

  const CHANNEL_ORDER_XEM1: seq<nat> := [3, 2, 1, 0, 7, 6, 5, 4, 11, 10, 9, 8, 15, 14, 13, 12]
  const CHANNEL_ORDER_XEM2: seq<nat> := [15, 14, 13, 12, 11, 10, 9, 8, 7, 6, 5, 4, 3, 2, 1, 0]

  function NewChannel(isXem1: bool, channel: nat): (c: nat)
    requires channel < NUM_CHANNELS
    ensures c < NUM_CHANNELS
  {
    if isXem1 then CHANNEL_ORDER_XEM1[channel] else CHANNEL_ORDER_XEM2[channel]
  }

  /** The word that opens a channel: 0xFFxxFFxx. */
  function ChannelMarker(channel: nat): bv32
    requires channel < NUM_CHANNELS
  {
    0xFF00_FF00 | (channel as bv32 << 16) | channel as bv32
  }

  function Offset(newChannel: nat, length: nat, isample: nat): nat {
    CERES_HEADER_SIZE + newChannel * ((length + 2) * 4) + isample * 4
  }

  lemma OffsetFits(newChannel: nat, length: nat, isample: nat)
    requires newChannel < NUM_CHANNELS && length < 0x1_0000 && isample <= length + 3
    ensures Offset(newChannel, length, isample) + 4 <= EVENT_BUFFER_SIZE
  {
    assert newChannel * ((length + 2) * 4) <= 15 * ((length + 2) * 4);
  }

  // ----- The state machine -----

  datatype EventInProgress = EventInProgress(
    header: Header, headerBytesRead: nat, currentChannel: nat,
    wfHeaderRead: bool, samplesRead: nat, wfCrcRead: bool, prevSample: bv16)

  /** start_event. */
  const START_EVENT := EventInProgress(BLANK_HEADER, 0, 0, false, 0, false, 0)

  /** A published event: its header and the bytes of the event buffer that were counted. */
  datatype Event = Event(header: Header, bytes: seq<bv8>)

  datatype Parser = Parser(
    ev: EventInProgress, data: seq<bv8>, numBytes: nat, reeling: bool, published: seq<Event>)

  /** Bytes that trashed headers may leave counted without the counter outgrowing the buffer. */
  const MAX_STALE: nat := EVENT_BUFFER_SIZE - CERES_HEADER_SIZE - 64 * 0x1_0003

  /** Words written so far to the channel area; a channel takes at most length + 4 of them. */
  ghost function MaxStashed(ev: EventInProgress): nat {
    ev.currentChannel * (ev.header.Length() + 4) + if ev.wfHeaderRead then 1 + ev.samplesRead else 0
  }

  ghost predicate EventOk(ev: EventInProgress, numBytes: nat) {
    && ev.headerBytesRead % 4 == 0
    && if ev.headerBytesRead < CERES_HEADER_SIZE then
         && ev.currentChannel == 0 && !ev.wfHeaderRead && ev.samplesRead == 0 && ev.prevSample == 0
         && numBytes <= MAX_STALE + ev.headerBytesRead
       else
         && ev.headerBytesRead == CERES_HEADER_SIZE
         && GoodHeader(ev.header)
         && ev.currentChannel <= NUM_CHANNELS
         && ev.samplesRead <= ev.header.Length() + 2
         && (ev.wfHeaderRead ==> !ev.wfCrcRead && ev.currentChannel < NUM_CHANNELS)
         && (!ev.wfHeaderRead ==> ev.samplesRead == 0 && ev.prevSample == 0)
         && numBytes <= MAX_STALE + CERES_HEADER_SIZE + 4 * MaxStashed(ev)
  }

  ghost predicate Ok(p: Parser) {
    && |p.data| == EVENT_BUFFER_SIZE
    && (p.reeling ==> p.ev == START_EVENT)
    && (!p.reeling ==> EventOk(p.ev, p.numBytes) && p.ev.currentChannel < NUM_CHANNELS)
  }

  lemma CountFits(ev: EventInProgress, numBytes: nat)
    requires EventOk(ev, numBytes)
    ensures numBytes <= EVENT_BUFFER_SIZE
  {
    hide Header.Length, GoodHeader;
    if ev.headerBytesRead == CERES_HEADER_SIZE {
      TimesBelow(ev.currentChannel, if ev.wfHeaderRead then 15 else 16, ev.header.Length() + 4);
    }
  }

  lemma TimesBelow(a: nat, b: nat, n: nat)
    requires a <= b
    ensures a * n <= b * n
  {
  }

  /** stash_with_reorder: the word goes to its channel's permuted slot, and is counted. */
  function Stash(p: Parser, word: bv32, isample: nat): (r: Parser)
    requires |p.data| == EVENT_BUFFER_SIZE && p.ev.currentChannel < NUM_CHANNELS
    requires isample <= p.ev.header.Length() + 3
    ensures r == p.(data := r.data, numBytes := p.numBytes + 4) && |r.data| == EVENT_BUFFER_SIZE
  {
    var c := NewChannel(p.ev.header.IsEven(), p.ev.currentChannel);
    OffsetFits(c, p.ev.header.Length(), isample);
    var stored := if isample == 0 then ChannelMarker(c) else word;
    p.(data := StoreWord(p.data, Offset(c, p.ev.header.Length(), isample), stored), numBytes := p.numBytes + 4)
  }

  /** One sample pair: stash it behind the ones already read. */
  function StashPair(p: Parser, valid: bv16, first: bv16, second: bv16): (r: Parser)
    requires |p.data| == EVENT_BUFFER_SIZE && p.ev.currentChannel < NUM_CHANNELS
    requires p.ev.samplesRead < p.ev.header.Length() + 2
    ensures r == p.(data := r.data, numBytes := p.numBytes + 4,
                    ev := p.ev.(samplesRead := p.ev.samplesRead + 1, prevSample := second))
    ensures |r.data| == EVENT_BUFFER_SIZE
  {
    var q := p.(ev := p.ev.(samplesRead := p.ev.samplesRead + 1, prevSample := second));
    Stash(q, SamplePair(valid, first, second), q.ev.samplesRead)
  }

  /** The first `n` of the three sample pairs packed as six differences, highest bits first. */
  function FeedCompressed(p: Parser, w: bv32, n: nat): (r: Parser)
    requires |p.data| == EVENT_BUFFER_SIZE && p.ev.currentChannel < NUM_CHANNELS
    requires p.ev.samplesRead < p.ev.header.Length() && n <= 3
    ensures r == p.(data := r.data, numBytes := p.numBytes + 4 * n,
                    ev := p.ev.(samplesRead := p.ev.samplesRead + n, prevSample := r.ev.prevSample))
    ensures |r.data| == EVENT_BUFFER_SIZE
    decreases n
  {
    hide SmallDelta, ValidBit, StashPair, Plus;
    if n == 0 then p
    else
      var q := FeedCompressed(p, w, n - 1);
      var first := Plus(q.ev.prevSample, SmallDelta(w, 7 - 2 * n));
      StashPair(q, ValidBit(w), first, Plus(first, SmallDelta(w, 6 - 2 * n)))
  }

  function FeedUncompressed(p: Parser, w: bv32): (r: Parser)
    requires |p.data| == EVENT_BUFFER_SIZE && p.ev.currentChannel < NUM_CHANNELS
    requires p.ev.samplesRead < p.ev.header.Length()
    ensures r == p.(data := r.data, numBytes := p.numBytes + 4,
                    ev := p.ev.(samplesRead := p.ev.samplesRead + 1, prevSample := r.ev.prevSample))
    ensures |r.data| == EVENT_BUFFER_SIZE
  {
    hide UpperSample, LowerSample, ValidBit, StashPair;
    var first := UpperSample(w, p.ev.prevSample, p.ev.samplesRead == 0);
    StashPair(p, ValidBit(w), first, LowerSample(w, first))
  }

  /** A header word goes to the event buffer behind what is counted already. */
  function TakeHeaderWord(p: Parser, w: bv32): (r: Parser)
    requires Ok(p) && !p.reeling && p.ev.headerBytesRead < CERES_HEADER_SIZE
    ensures r.published == p.published && !r.reeling
    ensures r.ev.headerBytesRead == p.ev.headerBytesRead + 4 <= CERES_HEADER_SIZE
    ensures r.ev.headerBytesRead < CERES_HEADER_SIZE ==> Ok(r)
  {
    p.(ev := p.ev.(header := InterpretHeaderWord(p.ev.header, w, p.ev.headerBytesRead / 4),
                   headerBytesRead := p.ev.headerBytesRead + 4),
       data := StoreWord(p.data, p.numBytes, w), numBytes := p.numBytes + 4)
  }

  /** A complete header that does not check trashes the event; what it counted stays counted. */
  function CheckHeader(p: Parser): Parser {
    if p.ev.headerBytesRead == CERES_HEADER_SIZE && !GoodHeader(p.ev.header) then
      p.(ev := START_EVENT, reeling := true)
    else
      p
  }

  function FeedHeader(p: Parser, w: bv32): (r: Parser)
    requires Ok(p) && !p.reeling && p.ev.headerBytesRead < CERES_HEADER_SIZE
    ensures Ok(r) && r.published == p.published
  {
    hide GoodHeader, InterpretHeaderWord;
    CheckHeader(TakeHeaderWord(p, w))
  }

  /** A word after the header: channel marker, samples, or channel CRC. */
  function FeedBody(p: Parser, w: bv32): (r: Parser)
    requires Ok(p) && !p.reeling && p.ev.headerBytesRead == CERES_HEADER_SIZE
    ensures |r.data| == EVENT_BUFFER_SIZE && r.published == p.published
    ensures if r.reeling then r.ev == START_EVENT else EventOk(r.ev, r.numBytes) && r.ev.headerBytesRead == CERES_HEADER_SIZE
  {
    hide ChannelMarker, IsCompressed, Stash, FeedCompressed, FeedUncompressed, GoodHeader, Header.Length;
    if !p.ev.wfHeaderRead then
      if w != ChannelMarker(p.ev.currentChannel) then
        p.(ev := START_EVENT, numBytes := 0, reeling := true)
      else
        var q := Stash(p, w, 0);
        q.(ev := q.ev.(wfHeaderRead := true, wfCrcRead := false, samplesRead := 0))
    else if p.ev.samplesRead < p.ev.header.Length() then
      if IsCompressed(w) then FeedCompressed(p, w, 3) else FeedUncompressed(p, w)
    else if !p.ev.wfCrcRead then
      var q := Stash(p, w, p.ev.samplesRead + 1);
      NextChannel(p.ev.currentChannel, p.ev.header.Length() + 4);
      q.(ev := q.ev.(currentChannel := q.ev.currentChannel + 1, samplesRead := 0, wfCrcRead := true,
                     wfHeaderRead := false, prevSample := 0))
    else p
  }

  lemma NextChannel(channel: nat, n: nat)
    ensures (channel + 1) * n == channel * n + n
  {
  }

  /** The main loop's half: publish a completed event and clear the event buffer. */
  function Publish(p: Parser): (r: Parser)
    requires |p.data| == EVENT_BUFFER_SIZE && EventOk(p.ev, p.numBytes)
    ensures Ok(r) && r.reeling == p.reeling
  {
    CountFits(p.ev, p.numBytes);
    p.(ev := START_EVENT, numBytes := 0, published := p.published + [Event(p.ev.header, p.data[..p.numBytes])])
  }

  predicate Complete(p: Parser) { p.ev.currentChannel == NUM_CHANNELS }

  /** One word through the builder. Once reeling, nothing more is parsed. */
  function Feed(p: Parser, w: bv32): (r: Parser)
    requires Ok(p)
    ensures Ok(r)
  {
    if p.reeling then p
    else if p.ev.headerBytesRead < CERES_HEADER_SIZE then FeedHeader(p, w)
    else
      var q := FeedBody(p, w);
      if Complete(q) then Publish(q) else q
  }

  /**
   A turn of the main loop while reeling, when it finds the start of an event: the flag is cleared.
   What trashed headers have counted stays counted.
   */
  function Resume(p: Parser): (r: Parser)
    requires Ok(p) && p.reeling && p.numBytes <= MAX_STALE
    ensures Ok(r) && !r.reeling
  {
    p.(reeling := false)
  }

  /** A string of words through the builder: the one-shot parse. */
  function FeedAll(p: Parser, ws: seq<bv32>): (r: Parser)
    requires Ok(p)
    ensures Ok(r)
    decreases |ws|
  {
    if ws == [] then p else Feed(FeedAll(p, ws[..|ws| - 1]), ws[|ws| - 1])
  }

  lemma {:induction false} FeedAllConcat(p: Parser, a: seq<bv32>, b: seq<bv32>)
    requires Ok(p)
    ensures FeedAll(p, a + b) == FeedAll(FeedAll(p, a), b)
    decreases |b|
  {
    hide Feed, Ok;
    if b == [] {
      assert a + b == a;
    } else {
      var n := |b| - 1;
      assert (a + b)[..|a + b| - 1] == a + b[..n];
      FeedAllConcat(p, a, b[..n]);
    }
  }

  /** Published events are never taken back, and reeling is absorbing. */
  lemma {:induction false} FeedAllGrows(p: Parser, ws: seq<bv32>)
    requires Ok(p)
    ensures p.published <= FeedAll(p, ws).published
    ensures p.reeling ==> FeedAll(p, ws) == p
    decreases |ws|
  {
    if ws != [] {
      FeedAllGrows(p, ws[..|ws| - 1]);
      FeedGrows(FeedAll(p, ws[..|ws| - 1]), ws[|ws| - 1]);
    }
  }

  lemma {:induction false} FeedGrows(p: Parser, w: bv32)
    requires Ok(p)
    ensures p.published <= Feed(p, w).published
    ensures p.reeling ==> Feed(p, w) == p
  {
  }

  /** One more word of a byte stream. */
  lemma {:induction false} FeedNext(p: Parser, stream: seq<bv8>, n: nat)
    requires Ok(p) && Whole(n) && n + 4 <= |stream|
    ensures FeedAll(p, WordsOf(stream[..n + 4])) == Feed(FeedAll(p, WordsOf(stream[..n])), WordAt(stream, n))
  {
    hide Feed, Ok, BigEndian;
    assert stream[..n + 4] == stream[..n] + stream[n..n + 4];
    WordsConcat(stream[..n], stream[n..n + 4]);
    assert WordsOf(stream[n..n + 4]) == [WordAt(stream, n)];
    assert (WordsOf(stream[..n]) + [WordAt(stream, n)])[..n / 4] == WordsOf(stream[..n]);
  }

  lemma {:induction false} FeedNone(p: Parser, stream: seq<bv8>)
    requires Ok(p)
    ensures FeedAll(p, WordsOf(stream[..0])) == p
    ensures !p.reeling ==> CheckHeader(p) == p
  {
    hide GoodHeader;
  }

  /** Reeling after part of a stream is reeling after all of it. */
  lemma {:induction false} ReelingStays(p: Parser, stream: seq<bv8>, n: nat)
    requires Ok(p) && Whole(n) && n <= |stream|
    requires FeedAll(p, WordsOf(stream[..n])).reeling
    ensures FeedAll(p, WordsOf(stream)) == FeedAll(p, WordsOf(stream[..n]))
  {
    hide Ok, FeedAll;
    FeedSplit(p, stream, n);
    FeedAllGrows(FeedAll(p, WordsOf(stream[..n])), WordsOf(stream[n..]));
  }

  lemma {:induction false} FeedSplit(p: Parser, stream: seq<bv8>, n: nat)
    requires Ok(p) && Whole(n) && n <= |stream|
    ensures FeedAll(p, WordsOf(stream)) == FeedAll(FeedAll(p, WordsOf(stream[..n])), WordsOf(stream[n..]))
  {
    hide Ok, FeedAll;
    assert stream == stream[..n] + stream[n..];
    WordsConcat(stream[..n], stream[n..]);
    FeedAllConcat(p, WordsOf(stream[..n]), WordsOf(stream[n..]));
  }

  /** Parsing on from `used` is parsing from the start. */
  lemma {:induction false} FeedOn(p: Parser, stream: seq<bv8>, used: nat, delivered: nat, n: nat)
    requires Ok(p) && used + n <= delivered <= |stream| && Whole(used)
    ensures FeedAll(FeedAll(p, WordsOf(stream[..used])), WordsOf(stream[used..delivered][..n])) == FeedAll(p, WordsOf(stream[..used + n]))
  {
    hide Ok, FeedAll, WordsOf;
    FeedSplit(p, stream[..used + n], used);
    assert stream[..used + n][..used] == stream[..used] && stream[..used + n][used..] == stream[used..delivered][..n];
  }

  /** What the parse of a part of the stream has published is a prefix of what the whole parse publishes. */
  lemma {:induction false} PublishedSoFar(p: Parser, stream: seq<bv8>, n: nat)
    requires Ok(p) && Whole(n) && n <= |stream|
    ensures FeedAll(p, WordsOf(stream[..n])).published <= FeedAll(p, WordsOf(stream)).published
  {
    hide Ok, FeedAll, WordsOf;
    FeedSplit(p, stream, n);
    FeedAllGrows(FeedAll(p, WordsOf(stream[..n])), WordsOf(stream[n..]));
  }

  // ----- Runs with resynchronisation -----

  ghost predicate CanResume(p: Parser) {
    Ok(p) && p.reeling && p.numBytes <= MAX_STALE
  }

  ghost function Parse(p: Parser, ws: seq<bv32>): Parser {
    if Ok(p) then FeedAll(p, ws) else p
  }

  /** The builder as the search sees it. */
  ghost function Ceres(): Machine<Parser> {
    Machine(
      Parse, (p: Parser) => p.reeling, (p: Parser) => p.ev.headerBytesRead == CERES_HEADER_SIZE,
      CanResume, (p: Parser) => p.(reeling := false), CERES_MAGIC_VALUE)
  }

  lemma {:induction false} CeresIsMachine()
    ensures IsMachine(Ceres())
  {
    hide Ok, FeedAll;
    forall p | true ensures Parse(p, []) == p {
      if Ok(p) {
        FeedNone(p, []);
        assert WordsOf([][..0]) == [];
      }
    }
    forall p, a, b | true ensures Parse(p, a + b) == Parse(Parse(p, a), b) {
      if Ok(p) {
        FeedAllConcat(p, a, b);
      }
    }
    forall p: Parser, ws | p.reeling ensures Parse(p, ws) == p {
      if Ok(p) {
        FeedAllGrows(p, ws);
      }
    }
  }

  lemma CeresMeans(p: Parser, stream: seq<bv8>)
    ensures Ok(p) ==> Parsed(Ceres(), p, stream) == FeedAll(p, WordsOf(stream))
    ensures Ceres().reeling(p) == p.reeling && Ceres().canResume(p) == CanResume(p)
    ensures Ceres().inBody(p) == (p.ev.headerBytesRead == CERES_HEADER_SIZE)
    ensures CanResume(p) ==> Ceres().resume(p) == Resume(p)
    ensures Ceres().marker == CERES_MAGIC_VALUE
  {
    hide Ok, FeedAll, WordsOf;
  }

  lemma {:induction false} NextIsFine(p: Parser, stream: seq<bv8>, n: nat)
    requires Ok(p) && Whole(n) && n + 4 <= |stream| && !FeedAll(p, WordsOf(stream[..n])).reeling
    ensures NotPast(Ceres(), p, stream, n + 4)
  {
    hide Ok, FeedAll, WordsOf, Ceres, Parsed, NotPast, Whole;
    CeresMeans(p, stream[..n]);
    CeresMeans(FeedAll(p, WordsOf(stream[..n])), []);
    NextIsNotPast(Ceres(), p, stream, n);
  }

  lemma {:induction false} AllIsFine(p: Parser, stream: seq<bv8>, n: nat)
    requires Ok(p) && Whole(n) && n <= |stream| && !FeedAll(p, WordsOf(stream[..n])).reeling
    ensures NotPast(Ceres(), p, stream, n)
  {
    hide Ok, FeedAll, WordsOf, Ceres, Parsed, NotPast, Whole, IsMachine;
    CeresIsMachine();
    CeresMeans(p, stream[..n]);
    CeresMeans(FeedAll(p, WordsOf(stream[..n])), []);
    FineIsNotPast(Ceres(), p, stream, n);
  }

  /** After a bad word of a body the search begins where the body began to be read, at the latest behind it. */
  lemma {:induction false} BodySearches(p: Parser, stream: seq<bv8>, n: nat)
    requires Ok(p) && Whole(n) && n <= |stream| && !FeedAll(p, WordsOf(stream[..n])).reeling
    requires n == |stream| || FeedAll(p, WordsOf(stream[..n])).ev.headerBytesRead == CERES_HEADER_SIZE
    ensures SearchesFrom(Ceres(), p, stream, n)
  {
    hide Ok, FeedAll, WordsOf, Ceres, Parsed, NotPast, Whole;
    AllIsFine(p, stream, n);
    CeresMeans(p, stream[..n]);
    CeresMeans(FeedAll(p, WordsOf(stream[..n])), []);
    assert n == |stream| ==> stream[..n] == stream;
  }

  /** After a bad header, right behind it. */
  lemma {:induction false} HeaderSearches(p: Parser, stream: seq<bv8>, n: nat)
    requires Ok(p) && NotPast(Ceres(), p, stream, n) && FeedAll(p, WordsOf(stream[..n])).reeling
    ensures SearchesFrom(Ceres(), p, stream, n)
  {
    assert n <= |stream|;
    hide Ok, FeedAll, WordsOf, Ceres, Parsed, NotPast, Whole;
    CeresMeans(p, stream[..n]);
    CeresMeans(FeedAll(p, WordsOf(stream[..n])), []);
  }

  lemma ResumeIsOk(m: Parser)
    requires CanResume(m)
    ensures Ok(Resume(m)) && m.ev == START_EVENT && Resume(m).published == m.published
  {
  }

  /** A turn that parses `n` more bytes and leaves those from `kept` on unread lengthens the last piece. */
  lemma {:induction false} ReachesFeeding(start: Parser, net: seq<bv8>, size: nat, pieces: seq<Piece>, q: Parser, n: nat, kept: nat)
    returns (pieces': seq<Piece>)
    requires Ok(start) && !start.reeling && pieces != [] && Reaches(Ceres(), start, net, size, pieces, q) && Ok(q) && !q.reeling
    requires kept <= n && Whole(n) && UsedIn(pieces) + n <= |net| && SearchesFrom(Ceres(), q, net[UsedIn(pieces)..UsedIn(pieces) + n], kept)
    requires !FeedAll(q, WordsOf(net[UsedIn(pieces)..UsedIn(pieces) + n])).reeling ==> kept == n
    ensures pieces' != [] && UsedIn(pieces') == UsedIn(pieces) + kept
    ensures Reaches(Ceres(), start, net, size, pieces', FeedAll(q, WordsOf(net[UsedIn(pieces)..UsedIn(pieces) + n])))
  {
    hide Ok, FeedAll, WordsOf, Ceres, Parsed, SearchesFrom, Whole, IsMachine, Reaches, UsedIn;
    var arrived := net[UsedIn(pieces)..UsedIn(pieces) + n];
    CeresIsMachine();
    CeresMeans(start, []);
    CeresMeans(q, arrived);
    CeresMeans(FeedAll(q, WordsOf(arrived)), []);
    pieces' := ReachesOn(Ceres(), start, net, size, pieces, q, n, kept);
  }

  /** All four bytes of the marker are the same, so it does not matter in which order they are compared. */
  lemma MarkerIsMagic(net: seq<bv8>, j: nat)
    requires j + 4 <= |net|
    ensures MarkerAt(net, j, CERES_MAGIC_VALUE) == (WordAt(net, j) == CERES_MAGIC_VALUE)
  {
    BigEndianOfBytes(CERES_MAGIC_VALUE);
    BytesOfBigEndian(net[j], net[j + 1], net[j + 2], net[j + 3]);
    var s := ToBytes(CERES_MAGIC_VALUE);
    assert s[0] == 0xFF && s[1] == 0xFF && s[2] == 0xFF && s[3] == 0xFF;
  }

  /** However often the builder resynchronises, what it has published stays published. */
  lemma {:induction false} ReachesGrows(start: Parser, net: seq<bv8>, size: nat, pieces: seq<Piece>, q: Parser)
    requires Ok(start) && Reaches(Ceres(), start, net, size, pieces, q)
    ensures start.published <= q.published && Ok(q)
    decreases |pieces|
  {
    hide FeedAll, WordsOf, Whole, Begins, SearchesFrom, Ok, Resume, Ceres;
    var n := |pieces| - 1;
    var piece := pieces[n];
    var m := start;
    if n > 0 {
      m :| Ceres().canResume(m) && Reaches(Ceres(), start, net, size, pieces[..n], m) && Parses(Ceres(), Ceres().resume(m), net, piece, q);
      ReachesGrows(start, net, size, pieces[..n], m);
      CeresMeans(m, []);
      ResumeIsOk(m);
      m := Resume(m);
    }
    CeresMeans(m, net[piece.from..piece.to]);
    FeedAllGrows(m, WordsOf(net[piece.from..piece.to]));
  }
}
