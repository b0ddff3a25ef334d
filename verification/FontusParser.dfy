/**
 The FONTUS event format as a pure state machine that takes one 32-bit word at a time:
 the specification of fontus_read_proc and of the part of the main loop that publishes a
 completed event and clears the event buffer.
 */
module FontusParser {
  import opened Words
  import opened Resync
  import Ceres = CeresParser
  import Crc32

  const FONTUS_MAGIC_VALUE: bv32 := 0xF00F_F00F
  const FONTUS_HEADER_SIZE: nat := 52
  const NUM_WAVEFORMS: nat := 4
  const EVENT_BUFFER_SIZE: nat := Ceres.EVENT_BUFFER_SIZE

  datatype Header = Header(
    magicNumber: bv32, trigNumber: bv32, clock: bv64, length: bv16, deviceNumber: bv8, triggerFlags: bv8,
    selfTriggerWord: bv32, beamTriggerTime: bv64, ledTriggerTime: bv64, ctTime: bv64, crc: bv32)
  {
    /** Samples in each waveform. */
    function Length(): (n: nat)
      ensures n < 0x1_0000
    {
      length as nat
    }
  }

  const BLANK_HEADER := Header(0, 0, 0, 0, 0, 0, 0, 0, 0, 0, 0)

  function LengthOf(word: bv32): bv16 { ((word & 0xFFFF_0000) >> 16) as bv16 }

  function DeviceOf(word: bv32): bv8 { ((word & 0xFF00) >> 8) as bv8 }

  function FlagsOf(word: bv32): bv8 { (word & 0xFF) as bv8 }

  /** fontus_interpret_header_word. */
  function InterpretHeaderWord(h: Header, word: bv32, which: nat): Header {
    match which
    case 0 => h.(magicNumber := word)
    case 1 => h.(trigNumber := word)
    case 2 => h.(clock := Ceres.WithHigh(h.clock, word))
    case 3 => h.(clock := Ceres.WithLow(h.clock, word))
    case 4 => h.(length := LengthOf(word), deviceNumber := DeviceOf(word), triggerFlags := FlagsOf(word))
    case 5 => h.(selfTriggerWord := word)
    case 6 => h.(beamTriggerTime := Ceres.WithHigh(h.beamTriggerTime, word))
    case 7 => h.(beamTriggerTime := Ceres.WithLow(h.beamTriggerTime, word))
    case 8 => h.(ledTriggerTime := Ceres.WithHigh(h.ledTriggerTime, word))
    case 9 => h.(ledTriggerTime := Ceres.WithLow(h.ledTriggerTime, word))
    case 10 => h.(ctTime := Ceres.WithHigh(h.ctTime, word))
    case 11 => h.(ctTime := Ceres.WithLow(h.ctTime, word))
    case 12 => h.(crc := word)
    case _ => h
  }

  /** The bytes that calc_fontus_header_crc lays out. */
  function HeaderCrcBytes(h: Header): (s: seq<bv8>)
    ensures |s| == 44
  {
    ToBytes(h.trigNumber) + ToBytes(Ceres.HighWord(h.clock)) + ToBytes(Ceres.LowWord(h.clock))
    + [Ceres.HighByte(h.length), Ceres.LowByte(h.length), h.deviceNumber, h.triggerFlags]
    + ToBytes(h.selfTriggerWord)
    + ToBytes(Ceres.HighWord(h.beamTriggerTime)) + ToBytes(Ceres.LowWord(h.beamTriggerTime))
    + ToBytes(Ceres.HighWord(h.ledTriggerTime)) + ToBytes(Ceres.LowWord(h.ledTriggerTime))
    + ToBytes(Ceres.HighWord(h.ctTime)) + ToBytes(Ceres.LowWord(h.ctTime))
  }

  ghost predicate GoodHeader(h: Header) {
    h.crc == Crc32.Crc(0, HeaderCrcBytes(h)) && h.magicNumber == FONTUS_MAGIC_VALUE
  }

  /** The word that opens a waveform: 0xFFxxFFxx. */
  function ChannelMarker(channel: nat): bv32
    requires channel < NUM_WAVEFORMS
  {
    Ceres.ChannelMarker(channel)
  }

  function Offset(channel: nat, length: nat, isample: nat): nat {
    FONTUS_HEADER_SIZE + channel * ((length + 1) * 4) + isample * 4
  }

  lemma OffsetFits(channel: nat, length: nat, isample: nat)
    requires channel < NUM_WAVEFORMS && isample <= length < 0x1_0000
    ensures Offset(channel, length, isample) + 4 <= EVENT_BUFFER_SIZE
  {
    Ceres.TimesBelow(channel, 3, (length + 1) * 4);
  }

  // ----- The state machine -----

  datatype EventInProgress = EventInProgress(
    header: Header, headerBytesRead: nat, currentChannel: nat, wfHeaderRead: bool, samplesRead: nat)

  /** start_event. */
  const START_EVENT := EventInProgress(BLANK_HEADER, 0, 0, false, 0)

  datatype Event = Event(header: Header, bytes: seq<bv8>)

  datatype Parser = Parser(
    ev: EventInProgress, data: seq<bv8>, numBytes: nat, reeling: bool, published: seq<Event>)

  /** Bytes that trashed headers may leave counted without the counter outgrowing the buffer. */
  const MAX_STALE: nat := EVENT_BUFFER_SIZE - FONTUS_HEADER_SIZE - 16 * 0x1_0000

  /** Words behind the header that have been stored. */
  ghost function Stored(ev: EventInProgress): nat {
    ev.currentChannel * (ev.header.Length() + 1) + if ev.wfHeaderRead then ev.samplesRead else 0
  }

  ghost predicate EventOk(ev: EventInProgress, numBytes: nat) {
    && ev.headerBytesRead % 4 == 0
    && if ev.headerBytesRead < FONTUS_HEADER_SIZE then
         && ev.currentChannel == 0 && !ev.wfHeaderRead && ev.samplesRead == 0
         && numBytes <= MAX_STALE + ev.headerBytesRead
       else
         && ev.headerBytesRead == FONTUS_HEADER_SIZE
         && GoodHeader(ev.header)
         && ev.currentChannel <= NUM_WAVEFORMS
         && (ev.wfHeaderRead ==> ev.currentChannel < NUM_WAVEFORMS && 1 <= ev.samplesRead && (ev.samplesRead <= ev.header.Length() || ev.samplesRead == 1))
         && (!ev.wfHeaderRead ==> ev.samplesRead == 0)
         && numBytes <= MAX_STALE + FONTUS_HEADER_SIZE + 4 * Stored(ev)
  }

  ghost predicate Ok(p: Parser) {
    && |p.data| == EVENT_BUFFER_SIZE
    && (p.reeling ==> p.ev == START_EVENT)
    && (!p.reeling ==> EventOk(p.ev, p.numBytes) && p.ev.currentChannel < NUM_WAVEFORMS)
  }

  lemma CountFits(ev: EventInProgress, numBytes: nat)
    requires EventOk(ev, numBytes)
    ensures numBytes <= EVENT_BUFFER_SIZE
  {
    hide Header.Length, GoodHeader;
    if ev.headerBytesRead == FONTUS_HEADER_SIZE {
      Ceres.TimesBelow(ev.currentChannel, if ev.wfHeaderRead then 3 else 4, ev.header.Length() + 1);
    }
  }

  /** A word is stored at its place in the event buffer, and counted. */
  function Store(p: Parser, word: bv32, isample: nat): (r: Parser)
    requires |p.data| == EVENT_BUFFER_SIZE && p.ev.currentChannel < NUM_WAVEFORMS && isample <= p.ev.header.Length()
    ensures r == p.(data := r.data, numBytes := p.numBytes + 4) && |r.data| == EVENT_BUFFER_SIZE
  {
    OffsetFits(p.ev.currentChannel, p.ev.header.Length(), isample);
    p.(data := StoreWord(p.data, Offset(p.ev.currentChannel, p.ev.header.Length(), isample), word), numBytes := p.numBytes + 4)
  }

  /** A header word goes to the event buffer behind what is counted already. */
  function TakeHeaderWord(p: Parser, w: bv32): (r: Parser)
    requires Ok(p) && !p.reeling && p.ev.headerBytesRead < FONTUS_HEADER_SIZE
    ensures r.published == p.published && !r.reeling
    ensures r.ev.headerBytesRead == p.ev.headerBytesRead + 4 <= FONTUS_HEADER_SIZE
    ensures r.ev.headerBytesRead < FONTUS_HEADER_SIZE ==> Ok(r)
  {
    p.(ev := p.ev.(header := InterpretHeaderWord(p.ev.header, w, p.ev.headerBytesRead / 4),
                   headerBytesRead := p.ev.headerBytesRead + 4),
       data := StoreWord(p.data, p.numBytes, w), numBytes := p.numBytes + 4)
  }

  /** A complete header that does not check trashes the event; what it counted stays counted. */
  ghost function CheckHeader(p: Parser): Parser {
    if p.ev.headerBytesRead == FONTUS_HEADER_SIZE && !GoodHeader(p.ev.header) then
      p.(ev := START_EVENT, reeling := true)
    else
      p
  }

  ghost function FeedHeader(p: Parser, w: bv32): (r: Parser)
    requires Ok(p) && !p.reeling && p.ev.headerBytesRead < FONTUS_HEADER_SIZE
    ensures Ok(r) && r.published == p.published
  {
    hide GoodHeader, InterpretHeaderWord;
    CheckHeader(TakeHeaderWord(p, w))
  }

  /** A word after the header: the marker of a waveform, or a sample. Without samples no waveform ever ends. */
  function FeedBody(p: Parser, w: bv32): (r: Parser)
    requires Ok(p) && !p.reeling && p.ev.headerBytesRead == FONTUS_HEADER_SIZE
    ensures |r.data| == EVENT_BUFFER_SIZE && r.published == p.published
    ensures if r.reeling then r.ev == START_EVENT else EventOk(r.ev, r.numBytes) && r.ev.headerBytesRead == FONTUS_HEADER_SIZE
  {
    hide ChannelMarker, Store, GoodHeader, Header.Length;
    if !p.ev.wfHeaderRead then
      if w != ChannelMarker(p.ev.currentChannel) then
        p.(ev := START_EVENT, numBytes := 0, reeling := true)
      else
        var q := Store(p, w, 0);
        q.(ev := q.ev.(wfHeaderRead := true, samplesRead := 1))
    else if p.ev.samplesRead <= p.ev.header.Length() then
      var q := Store(p, w, p.ev.samplesRead);
      Ceres.NextChannel(p.ev.currentChannel, p.ev.header.Length() + 1);
      if p.ev.samplesRead == p.ev.header.Length() then
        q.(ev := q.ev.(currentChannel := q.ev.currentChannel + 1, samplesRead := 0, wfHeaderRead := false))
      else
        q.(ev := q.ev.(samplesRead := q.ev.samplesRead + 1))
    else p
  }

  /** The main loop's half: publish a completed event and clear the event buffer. */
  function Publish(p: Parser): (r: Parser)
    requires |p.data| == EVENT_BUFFER_SIZE && EventOk(p.ev, p.numBytes)
    ensures Ok(r) && r.reeling == p.reeling
  {
    CountFits(p.ev, p.numBytes);
    p.(ev := START_EVENT, numBytes := 0, published := p.published + [Event(p.ev.header, p.data[..p.numBytes])])
  }

  predicate Complete(p: Parser) { p.ev.currentChannel == NUM_WAVEFORMS }

  /** One word through the builder. Once reeling, nothing more is parsed. */
  ghost function Feed(p: Parser, w: bv32): (r: Parser)
    requires Ok(p)
    ensures Ok(r)
  {
    if p.reeling then p
    else if p.ev.headerBytesRead < FONTUS_HEADER_SIZE then FeedHeader(p, w)
    else
      var q := FeedBody(p, w);
      if Complete(q) then Publish(q) else q
  }

  /**
   A turn of the main loop while reeling, when it finds the start of an event: the flag is cleared.
   What trashed headers have counted stays counted.
   */
  function Resume(p: Parser): (r: Parser)
    requires Ok(p) && p.reeling && p.numBytes <= MAX_STALE
    ensures Ok(r) && !r.reeling
  {
    p.(reeling := false)
  }

  /** A string of words through the builder: the one-shot parse. */
  ghost function FeedAll(p: Parser, ws: seq<bv32>): (r: Parser)
    requires Ok(p)
    ensures Ok(r)
    decreases |ws|
  {
    if ws == [] then p else Feed(FeedAll(p, ws[..|ws| - 1]), ws[|ws| - 1])
  }

  lemma {:induction false} FeedAllConcat(p: Parser, a: seq<bv32>, b: seq<bv32>)
    requires Ok(p)
    ensures FeedAll(p, a + b) == FeedAll(FeedAll(p, a), b)
    decreases |b|
  {
    hide Feed, Ok;
    if b == [] {
      assert a + b == a;
    } else {
      var n := |b| - 1;
      assert (a + b)[..|a + b| - 1] == a + b[..n];
      FeedAllConcat(p, a, b[..n]);
    }
  }

  /** Published events are never taken back, and reeling is absorbing. */
  lemma {:induction false} FeedAllGrows(p: Parser, ws: seq<bv32>)
    requires Ok(p)
    ensures p.published <= FeedAll(p, ws).published
    ensures p.reeling ==> FeedAll(p, ws) == p
    decreases |ws|
  {
    if ws != [] {
      FeedAllGrows(p, ws[..|ws| - 1]);
      FeedGrows(FeedAll(p, ws[..|ws| - 1]), ws[|ws| - 1]);
    }
  }

  lemma {:induction false} FeedGrows(p: Parser, w: bv32)
    requires Ok(p)
    ensures p.published <= Feed(p, w).published
    ensures p.reeling ==> Feed(p, w) == p
  {
  }

  /** One more word of a byte stream. */
  lemma {:induction false} FeedNext(p: Parser, stream: seq<bv8>, n: nat)
    requires Ok(p) && Whole(n) && n + 4 <= |stream|
    ensures FeedAll(p, WordsOf(stream[..n + 4])) == Feed(FeedAll(p, WordsOf(stream[..n])), WordAt(stream, n))
  {
    hide Feed, Ok, BigEndian;
    assert stream[..n + 4] == stream[..n] + stream[n..n + 4];
    WordsConcat(stream[..n], stream[n..n + 4]);
    assert WordsOf(stream[n..n + 4]) == [WordAt(stream, n)];
    assert (WordsOf(stream[..n]) + [WordAt(stream, n)])[..n / 4] == WordsOf(stream[..n]);
  }

  lemma {:induction false} FeedNone(p: Parser, stream: seq<bv8>)
    requires Ok(p)
    ensures FeedAll(p, WordsOf(stream[..0])) == p
    ensures !p.reeling ==> CheckHeader(p) == p
  {
    hide GoodHeader;
  }

  /** Reeling after part of a stream is reeling after all of it. */
  lemma {:induction false} ReelingStays(p: Parser, stream: seq<bv8>, n: nat)
    requires Ok(p) && Whole(n) && n <= |stream|
    requires FeedAll(p, WordsOf(stream[..n])).reeling
    ensures FeedAll(p, WordsOf(stream)) == FeedAll(p, WordsOf(stream[..n]))
  {
    hide Ok, FeedAll;
    FeedSplit(p, stream, n);
    FeedAllGrows(FeedAll(p, WordsOf(stream[..n])), WordsOf(stream[n..]));
  }

  lemma {:induction false} FeedSplit(p: Parser, stream: seq<bv8>, n: nat)
    requires Ok(p) && Whole(n) && n <= |stream|
    ensures FeedAll(p, WordsOf(stream)) == FeedAll(FeedAll(p, WordsOf(stream[..n])), WordsOf(stream[n..]))
  {
    hide Ok, FeedAll;
    assert stream == stream[..n] + stream[n..];
    WordsConcat(stream[..n], stream[n..]);
    FeedAllConcat(p, WordsOf(stream[..n]), WordsOf(stream[n..]));
  }

  /** Parsing on from `used` is parsing from the start. */
  lemma {:induction false} FeedOn(p: Parser, stream: seq<bv8>, used: nat, delivered: nat, n: nat)
    requires Ok(p) && used + n <= delivered <= |stream| && Whole(used)
    ensures FeedAll(FeedAll(p, WordsOf(stream[..used])), WordsOf(stream[used..delivered][..n])) == FeedAll(p, WordsOf(stream[..used + n]))
  {
    hide Ok, FeedAll, WordsOf;
    FeedSplit(p, stream[..used + n], used);
    assert stream[..used + n][..used] == stream[..used] && stream[..used + n][used..] == stream[used..delivered][..n];
  }

  /** What the parse of a part of the stream has published is a prefix of what the whole parse publishes. */
  lemma {:induction false} PublishedSoFar(p: Parser, stream: seq<bv8>, n: nat)
    requires Ok(p) && Whole(n) && n <= |stream|
    ensures FeedAll(p, WordsOf(stream[..n])).published <= FeedAll(p, WordsOf(stream)).published
  {
    hide Ok, FeedAll, WordsOf;
    FeedSplit(p, stream, n);
    FeedAllGrows(FeedAll(p, WordsOf(stream[..n])), WordsOf(stream[n..]));
  }

  // ----- Runs with resynchronisation -----

  /** The word at which a search ends: the bytes of the marker are compared lowest first. */
  const FOUND_WORD: bv32 := 0x0FF0_0FF0

  ghost predicate CanResume(p: Parser) {
    Ok(p) && p.reeling && p.numBytes <= MAX_STALE
  }

  ghost function Parse(p: Parser, ws: seq<bv32>): Parser {
    if Ok(p) then FeedAll(p, ws) else p
  }

  /** The builder as the search sees it. */
  ghost function Fontus(): Machine<Parser> {
    Machine(
      Parse, (p: Parser) => p.reeling, (p: Parser) => p.ev.headerBytesRead == FONTUS_HEADER_SIZE,
      CanResume, (p: Parser) => p.(reeling := false), FONTUS_MAGIC_VALUE)
  }

  lemma {:induction false} FontusIsMachine()
    ensures IsMachine(Fontus())
  {
    hide Ok, FeedAll;
    forall p | true ensures Parse(p, []) == p {
      if Ok(p) {
        FeedNone(p, []);
        assert WordsOf([][..0]) == [];
      }
    }
    forall p, a, b | true ensures Parse(p, a + b) == Parse(Parse(p, a), b) {
      if Ok(p) {
        FeedAllConcat(p, a, b);
      }
    }
    forall p: Parser, ws | p.reeling ensures Parse(p, ws) == p {
      if Ok(p) {
        FeedAllGrows(p, ws);
      }
    }
  }

  lemma FontusMeans(p: Parser, stream: seq<bv8>)
    ensures Ok(p) ==> Parsed(Fontus(), p, stream) == FeedAll(p, WordsOf(stream))
    ensures Fontus().reeling(p) == p.reeling && Fontus().canResume(p) == CanResume(p)
    ensures Fontus().inBody(p) == (p.ev.headerBytesRead == FONTUS_HEADER_SIZE)
    ensures CanResume(p) ==> Fontus().resume(p) == Resume(p)
    ensures Fontus().marker == FONTUS_MAGIC_VALUE
  {
    hide Ok, FeedAll, WordsOf;
  }

  lemma {:induction false} NextIsFine(p: Parser, stream: seq<bv8>, n: nat)
    requires Ok(p) && Whole(n) && n + 4 <= |stream| && !FeedAll(p, WordsOf(stream[..n])).reeling
    ensures NotPast(Fontus(), p, stream, n + 4)
  {
    hide Ok, FeedAll, WordsOf, Fontus, Parsed, NotPast, Whole;
    FontusMeans(p, stream[..n]);
    FontusMeans(FeedAll(p, WordsOf(stream[..n])), []);
    NextIsNotPast(Fontus(), p, stream, n);
  }

  lemma {:induction false} AllIsFine(p: Parser, stream: seq<bv8>, n: nat)
    requires Ok(p) && Whole(n) && n <= |stream| && !FeedAll(p, WordsOf(stream[..n])).reeling
    ensures NotPast(Fontus(), p, stream, n)
  {
    hide Ok, FeedAll, WordsOf, Fontus, Parsed, NotPast, Whole, IsMachine;
    FontusIsMachine();
    FontusMeans(p, stream[..n]);
    FontusMeans(FeedAll(p, WordsOf(stream[..n])), []);
    FineIsNotPast(Fontus(), p, stream, n);
  }

  /** After a bad word of a body the search begins where the body began to be read, at the latest behind it. */
  lemma {:induction false} BodySearches(p: Parser, stream: seq<bv8>, n: nat)
    requires Ok(p) && Whole(n) && n <= |stream| && !FeedAll(p, WordsOf(stream[..n])).reeling
    requires n == |stream| || FeedAll(p, WordsOf(stream[..n])).ev.headerBytesRead == FONTUS_HEADER_SIZE
    ensures SearchesFrom(Fontus(), p, stream, n)
  {
    hide Ok, FeedAll, WordsOf, Fontus, Parsed, NotPast, Whole;
    AllIsFine(p, stream, n);
    FontusMeans(p, stream[..n]);
    FontusMeans(FeedAll(p, WordsOf(stream[..n])), []);
    assert n == |stream| ==> stream[..n] == stream;
  }

  /** After a bad header, right behind it. */
  lemma {:induction false} HeaderSearches(p: Parser, stream: seq<bv8>, n: nat)
    requires Ok(p) && NotPast(Fontus(), p, stream, n) && FeedAll(p, WordsOf(stream[..n])).reeling
    ensures SearchesFrom(Fontus(), p, stream, n)
  {
    assert n <= |stream|;
    hide Ok, FeedAll, WordsOf, Fontus, Parsed, NotPast, Whole;
    FontusMeans(p, stream[..n]);
    FontusMeans(FeedAll(p, WordsOf(stream[..n])), []);
  }

  lemma ResumeIsOk(m: Parser)
    requires CanResume(m)
    ensures Ok(Resume(m)) && m.ev == START_EVENT && Resume(m).published == m.published
  {
  }

  /** A turn that parses `n` more bytes and leaves those from `kept` on unread lengthens the last piece. */
  lemma {:induction false} ReachesFeeding(start: Parser, net: seq<bv8>, size: nat, pieces: seq<Piece>, q: Parser, n: nat, kept: nat)
    returns (pieces': seq<Piece>)
    requires Ok(start) && !start.reeling && pieces != [] && Reaches(Fontus(), start, net, size, pieces, q) && Ok(q) && !q.reeling
    requires kept <= n && Whole(n) && UsedIn(pieces) + n <= |net| && SearchesFrom(Fontus(), q, net[UsedIn(pieces)..UsedIn(pieces) + n], kept)
    requires !FeedAll(q, WordsOf(net[UsedIn(pieces)..UsedIn(pieces) + n])).reeling ==> kept == n
    ensures pieces' != [] && UsedIn(pieces') == UsedIn(pieces) + kept
    ensures Reaches(Fontus(), start, net, size, pieces', FeedAll(q, WordsOf(net[UsedIn(pieces)..UsedIn(pieces) + n])))
  {
    hide Ok, FeedAll, WordsOf, Fontus, Parsed, SearchesFrom, Whole, IsMachine, Reaches, UsedIn;
    var arrived := net[UsedIn(pieces)..UsedIn(pieces) + n];
    FontusIsMachine();
    FontusMeans(start, []);
    FontusMeans(q, arrived);
    FontusMeans(FeedAll(q, WordsOf(arrived)), []);
    pieces' := ReachesOn(Fontus(), start, net, size, pieces, q, n, kept);
  }

  /** However often the builder resynchronises, what it has published stays published. */
  lemma {:induction false} ReachesGrows(start: Parser, net: seq<bv8>, size: nat, pieces: seq<Piece>, q: Parser)
    requires Ok(start) && Reaches(Fontus(), start, net, size, pieces, q)
    ensures start.published <= q.published && Ok(q)
    decreases |pieces|
  {
    hide FeedAll, WordsOf, Whole, Begins, SearchesFrom, Ok, Resume, Fontus;
    var n := |pieces| - 1;
    var piece := pieces[n];
    var m := start;
    if n > 0 {
      m :| Fontus().canResume(m) && Reaches(Fontus(), start, net, size, pieces[..n], m) && Parses(Fontus(), Fontus().resume(m), net, piece, q);
      ReachesGrows(start, net, size, pieces[..n], m);
      FontusMeans(m, []);
      ResumeIsOk(m);
      m := Resume(m);
    }
    FontusMeans(m, net[piece.from..piece.to]);
    FeedAllGrows(m, WordsOf(net[piece.from..piece.to]));
  }

  /** Some words of a header whose marker is wrong: nothing is published, and the thirteenth word sets the flag. */
  ghost predicate InWrongHeader(p: Parser, q: Parser, magic: bv32, n: nat) {
    && q.published == p.published
    && (if n < 13 then !q.reeling && q.ev.headerBytesRead == 4 * n && (n > 0 ==> q.ev.header.magicNumber == magic)
        else q.reeling)
  }

  lemma {:induction false} WrongHeaderStep(p: Parser, q: Parser, magic: bv32, n: nat, w: bv32)
    requires Ok(q) && InWrongHeader(p, q, magic, n) && magic != FONTUS_MAGIC_VALUE && (n == 0 ==> w == magic)
    ensures InWrongHeader(p, Feed(q, w), magic, n + 1)
  {
    hide StoreWord, Ceres.WithHigh, Ceres.WithLow, LengthOf, DeviceOf, FlagsOf, HeaderCrcBytes, Crc32.Crc, FeedBody;
  }

  /** What starts with anything but the marker is never published. */
  lemma {:induction false} WrongStart(p: Parser, ws: seq<bv32>)
    requires Ok(p) && !p.reeling && p.ev == START_EVENT && (ws != [] ==> ws[0] != FONTUS_MAGIC_VALUE)
    ensures InWrongHeader(p, FeedAll(p, ws), if ws == [] then 0 else ws[0], |ws|)
    decreases |ws|
  {
    hide Feed, EventOk;
    if ws != [] {
      hide InWrongHeader;
      var n := |ws| - 1;
      WrongStart(p, ws[..n]);
      WrongHeaderStep(p, FeedAll(p, ws[..n]), ws[0], n, ws[n]);
    }
  }

  /** The bytes of the marker are compared lowest first, so what is found is not the marker. */
  lemma MarkerIsBackwards(net: seq<bv8>, j: nat)
    requires j + 4 <= |net|
    ensures MarkerAt(net, j, FONTUS_MAGIC_VALUE) == (WordAt(net, j) == FOUND_WORD)
  {
    BigEndianOfBytes(FOUND_WORD);
    BytesOfBigEndian(net[j], net[j + 1], net[j + 2], net[j + 3]);
    var s := ToBytes(FOUND_WORD);
    assert s[0] == 0x0F && s[1] == 0xF0 && s[2] == 0x0F && s[3] == 0xF0;
  }

  /**
   The marker of FONTUS is not the same backwards, so a search never ends at the start of an event:
   once the flag has been set nothing is published any more.
   */
  lemma {:induction false} NeverRecovers(start: Parser, net: seq<bv8>, size: nat, pieces: seq<Piece>, q: Parser)
    requires Ok(start) && Reaches(Fontus(), start, net, size, pieces, q)
    requires forall i :: 0 < i < |pieces| ==> !pieces[i].dropped
    ensures pieces != [] && pieces[0].to <= |net| && q.published == FeedAll(start, WordsOf(net[..pieces[0].to])).published
    decreases |pieces|
  {
    hide FeedAll, WordsOf, Whole, Begins, SearchesFrom, Ok, Resume, Fontus;
    var n := |pieces| - 1;
    var piece := pieces[n];
    if n == 0 {
      FontusMeans(start, net[piece.from..piece.to]);
      assert net[0..piece.to] == net[..piece.to];
    } else {
      var m :| Fontus().canResume(m) && Reaches(Fontus(), start, net, size, pieces[..n], m) && Parses(Fontus(), Fontus().resume(m), net, piece, q);
      FontusMeans(m, []);
      NeverRecovers(start, net, size, pieces[..n], m);
      FoundPieceIsLost(net, size, pieces[n - 1].Used(), piece, m, q);
    }
  }

  lemma {:induction false} FoundPieceIsLost(net: seq<bv8>, size: nat, used: nat, piece: Piece, m: Parser, q: Parser)
    requires CanResume(m) && Parses(Fontus(), Resume(m), net, piece, q)
    requires Begins(net, size, used, piece, FONTUS_MAGIC_VALUE) && !piece.dropped
    ensures q.published == m.published
  {
    BeginsAtMarker(net, size, used, piece, FONTUS_MAGIC_VALUE);
    MarkerIsBackwards(net, piece.from);
    hide Begins, BigEndian, FeedAll, Ok, SearchesFrom, Fontus;
    ResumeIsOk(m);
    FontusMeans(Resume(m), net[piece.from..piece.to]);
    var ws := WordsOf(net[piece.from..piece.to]);
    assert ws != [] ==> ws[0] == WordAt(net, piece.from);
    WrongStart(Resume(m), ws);
  }
}
