/**
 The CERES half of data_builder.c in its own form: the ring buffer, the event buffer
 and the event in progress, updated in place by resumable loops, against the
 word-at-a-time state machine of CeresParser.
 */
module CeresBuilders {
  import opened Words
  import opened Buffers
  import opened Resync
  import opened RingBuffers
  import opened CeresParser
  import opened CeresEvents
  import opened CeresHeaderCrcs
  import Crc8
  import opened Arithmetic16

  /** What one iteration of the sample loop of ceres_read_proc leaves in sample_pair. */
  function ShiftIn(pair: bv32, sample: bv16): bv32 {
    (pair << 16) | (sample as bv32) | (if sample & 0x8000 != 0 then 0xFFFF_0000 else 0)
  }

  function Mark(sample: bv16, valid: bv16): bv16 { sample | valid }

  lemma ShiftInTwice(pair: bv32, valid: bv16, first: bv16, second: bv16)
    ensures ShiftIn(ShiftIn(pair, Mark(first, valid)), second) == SamplePair(valid, first, second)
  {
  }

  class CeresBuilder {
    const ring: RingBuffer
    const eventData: array<bv8>
    const crcTable: Crc8.Table
    var numBytes: nat
    var ev: EventInProgress
    var reeling: bool
    var published: seq<Event>

    ghost function View(): Parser
      reads this, eventData
    {
      Parser(ev, eventData[..], numBytes, reeling, published)
    }

    ghost predicate Valid()
      reads this, eventData, ring, ring.buffer
    {
      && eventData != ring.buffer
      && ring.Valid() && ring.Aligned() && ring.Size() > CERES_HEADER_SIZE
      && Ok(View())
    }

    /** Between calls the read pointer is ahead only by the bytes of an unfinished header. */
    ghost predicate BetweenCalls()
      reads this, ring
    {
      ring.ahead == if ev.headerBytesRead < CERES_HEADER_SIZE then ev.headerBytesRead else 0
    }

    /** The table of crc8.c is in order, and nobody else's memory. */
    ghost predicate TableOk()
      reads crcTable, crcTable.entries
    {
      crcTable.Valid() && crcTable.entries != eventData && crcTable.entries != ring.buffer
    }

    constructor (ringSize: nat)
      requires Whole(ringSize) && ringSize > CERES_HEADER_SIZE
      ensures Valid() && TableOk() && BetweenCalls()
      ensures fresh(ring) && fresh(ring.buffer) && fresh(eventData) && fresh(crcTable) && fresh(crcTable.entries)
      ensures ring.Unread() == [] && !reeling && published == [] && ev == START_EVENT && numBytes == 0
      ensures ring.Size() == ringSize
    {
      ring := new RingBuffer(ringSize);
      eventData := new bv8[EVENT_BUFFER_SIZE];
      crcTable := new Crc8.Table();
      numBytes, ev, reeling, published := 0, START_EVENT, false, [];
    }

    /** stash_with_reorder for the channel and event in progress. */
    method StashWithReorder(word: bv32, isample: nat)
      requires eventData.Length == EVENT_BUFFER_SIZE && ev.currentChannel < NUM_CHANNELS
      requires isample <= ev.header.Length() + 3
      modifies this`numBytes, eventData
      ensures View() == Stash(old(View()), word, isample)
    {
      hide ChannelMarker, StoreWord, Offset;
      var channel := NewChannel(ev.header.IsEven(), ev.currentChannel);
      OffsetFits(channel, ev.header.Length(), isample);
      var stored := if isample == 0 then ChannelMarker(channel) else word;
      SpliceIsStore(eventData[..], Offset(channel, ev.header.Length(), isample), stored);
      PutWord(eventData, Offset(channel, ev.header.Length(), isample), stored);
      numBytes := numBytes + 4;
    }

    /** stash_with_reorder for a decoded pair, counting it first. */
    method StashNextPair(pair: bv32, ghost valid: bv16, ghost first: bv16)
      requires CanReadMore(View())
      requires pair == SamplePair(valid, first, ev.prevSample)
      modifies this, eventData
      ensures View() == StashPair(old(View()), valid, first, old(ev.prevSample))
    {
      hide Stash, SamplePair;
      ev := ev.(samplesRead := ev.samplesRead + 1);
      StashWithReorder(pair, ev.samplesRead);
    }

    static ghost predicate CanReadMore(p: Parser) {
      |p.data| == EVENT_BUFFER_SIZE && p.ev.currentChannel < NUM_CHANNELS && p.ev.samplesRead < p.ev.header.Length() + 2
    }

    /** `n` of the three pairs are stashed, and if `half` the first sample of the next is in `pair`. */
    ghost predicate Decoding(start: Parser, word: bv32, n: nat, half: bool, pair: bv32, before: bv32)
      requires CanReadSamples(start) && n <= (if half then 2 else 3)
      reads this, eventData
    {
      var q := FeedCompressed(start, word, n);
      if half then
        var first := Plus(q.ev.prevSample, SmallDelta(word, 5 - 2 * n));
        View() == q.(ev := q.ev.(prevSample := first)) && pair == ShiftIn(before, Mark(first, ValidBit(word)))
      else
        View() == q
    }

    static ghost predicate CanReadSamples(p: Parser) {
      |p.data| == EVENT_BUFFER_SIZE && p.ev.currentChannel < NUM_CHANNELS && p.ev.samplesRead < p.ev.header.Length()
    }

    /** An odd difference starts a pair. */
    method ReadFirstDelta(word: bv32, i: nat, pair: bv32, ghost start: Parser, ghost n: nat, ghost before: bv32) returns (r: bv32)
      requires CanReadSamples(start) && n < 3 && i == 5 - 2 * n && Decoding(start, word, n, false, pair, before)
      modifies this
      ensures Decoding(start, word, n, true, r, pair)
    {
      hide SmallDelta, ValidBit, ShiftIn, CanReadSamples, FeedCompressed, Plus, Mark;
      var sample := Plus(ev.prevSample, SmallDelta(word, i));
      ev := ev.(prevSample := sample);
      r := ShiftIn(pair, Mark(sample, ValidBit(word)));
    }

    /** An even difference completes a pair, which is stashed. */
    method ReadSecondDelta(word: bv32, i: nat, pair: bv32, ghost start: Parser, ghost n: nat, ghost before: bv32) returns (r: bv32)
      requires CanReadSamples(start) && n < 3 && i == 4 - 2 * n && Decoding(start, word, n, true, pair, before)
      modifies this, eventData
      ensures Decoding(start, word, n + 1, false, r, pair)
    {
      hide StashPair, SmallDelta, ValidBit, SamplePair, ShiftIn, Header.Length, Plus, Mark, FeedCompressed;
      ghost var q := FeedCompressed(start, word, n);
      ghost var first := Plus(q.ev.prevSample, SmallDelta(word, 5 - 2 * n));
      var sample := Plus(ev.prevSample, SmallDelta(word, i));
      ev := ev.(prevSample := sample);
      ShiftInTwice(before, ValidBit(word), first, sample);
      r := ShiftIn(pair, sample);
      StashNextPair(r, ValidBit(word), first);
      StashIgnoresPrevious(q, ValidBit(word), first, sample);
      CompressedNext(start, word, n + 1);
    }

    static lemma {:induction false} CompressedNext(p: Parser, w: bv32, n: nat)
      requires CanReadSamples(p) && 1 <= n <= 3
      ensures
        var q := FeedCompressed(p, w, n - 1);
        var first := Plus(q.ev.prevSample, SmallDelta(w, 7 - 2 * n));
        FeedCompressed(p, w, n) == StashPair(q, ValidBit(w), first, Plus(first, SmallDelta(w, 6 - 2 * n)))
    {
      hide SmallDelta, StashPair, Plus, ValidBit;
    }

    static lemma StashIgnoresPrevious(q: Parser, valid: bv16, first: bv16, second: bv16)
      requires CanReadMore(q)
      ensures StashPair(q.(ev := q.ev.(prevSample := second)), valid, first, second) == StashPair(q, valid, first, second)
    {
      hide SamplePair, Stash;
    }

    /** Six five-bit differences; every second one completes a pair. */
    method ReadCompressed(word: bv32)
      requires CanReadSamples(View())
      modifies this, eventData
      ensures View() == FeedCompressed(old(View()), word, 3)
    {
      hide Decoding, FeedCompressed, CanReadSamples;
      ghost var start, before: bv32, n: nat := View(), 0, 0;
      var pair: bv32 := 0;
      NothingDecoded(word, pair, before);
      for i := 6 downto 0
        invariant i == 6 - 2 * n || i == 5 - 2 * n
        invariant n <= (if i == 6 - 2 * n then 3 else 2) && Decoding(start, word, n, i == 5 - 2 * n, pair, before)
      {
        ghost var shifted := pair;
        if i % 2 == 1 {
          pair := ReadFirstDelta(word, i, pair, start, n, before);
        } else {
          pair := ReadSecondDelta(word, i, pair, start, n, before);
          n := n + 1;
        }
        before := shifted;
      }
      AllDecoded(start, word, pair, before);
    }

    lemma {:induction false} NothingDecoded(word: bv32, pair: bv32, before: bv32)
      requires CanReadSamples(View())
      ensures Decoding(View(), word, 0, false, pair, before)
    {
    }

    lemma {:induction false} AllDecoded(start: Parser, word: bv32, pair: bv32, before: bv32)
      requires CanReadSamples(start) && Decoding(start, word, 3, false, pair, before)
      ensures View() == FeedCompressed(start, word, 3)
    {
      hide FeedCompressed;
    }

    /** Two fourteen-bit differences, the first absolute at the start of a channel. */
    method ReadUncompressed(word: bv32)
      requires CanReadSamples(View())
      modifies this, eventData
      ensures View() == FeedUncompressed(old(View()), word)
    {
      hide StashPair, UpperSample, LowerSample, ValidBit, SamplePair, ShiftIn, Header.Length, Mark;
      ghost var start := View();
      var first := UpperSample(word, ev.prevSample, ev.samplesRead == 0);
      ev := ev.(prevSample := first);
      var pair := ShiftIn(0, Mark(first, ValidBit(word)));
      var second := LowerSample(word, ev.prevSample);
      ev := ev.(prevSample := second);
      ShiftInTwice(0, ValidBit(word), first, second);
      pair := ShiftIn(pair, second);
      StashNextPair(pair, ValidBit(word), first);
      StashIgnoresPrevious(start, ValidBit(word), first, second);
    }

    /** The body of the waveform loop: channel marker, samples, or channel CRC. */
    method ReadWord(word: bv32) returns (bad: bool)
      requires Ok(View()) && !reeling && ev.headerBytesRead == CERES_HEADER_SIZE
      modifies this, eventData
      ensures View() == FeedBody(old(View()), word)
      ensures bad == reeling
    {
      hide GoodHeader, ChannelMarker, IsCompressed, FeedCompressed, FeedUncompressed, Stash, Header.Length;
      bad := false;
      if !ev.wfHeaderRead {
        if word != ChannelMarker(ev.currentChannel) {
          reeling := true;
          numBytes := 0;
          ev := START_EVENT;
          return true;
        }
        StashWithReorder(word, 0);
        ev := ev.(wfHeaderRead := true, wfCrcRead := false, samplesRead := 0);
      } else if ev.samplesRead < ev.header.Length() {
        if IsCompressed(word) {
          ReadCompressed(word);
        } else {
          ReadUncompressed(word);
        }
      } else if !ev.wfCrcRead {
        StashWithReorder(word, ev.samplesRead + 1);
        ev := ev.(currentChannel := ev.currentChannel + 1, samplesRead := 0, wfCrcRead := true,
                  wfHeaderRead := false, prevSample := 0);
      }
    }

    /** One turn of the header loop. */
    method ReadHeaderWord() returns (ok: bool)
      requires Valid() && !reeling && ring.Settled() && ev.headerBytesRead < CERES_HEADER_SIZE
      modifies this, eventData, ring
      ensures ring.Valid() && ring.Aligned()
      ensures ok <==> |old(ring.Unread())| >= 4
      ensures ring.Unread() == if ok then old(ring.Unread())[4..] else old(ring.Unread())
      ensures ring.ahead == old(ring.ahead) + if ok then 4 else 0
      ensures View() == if ok then TakeHeaderWord(old(View()), WordAt(old(ring.Unread()), 0)) else old(View())
    {
      hide GoodHeader, InterpretHeaderWord, BigEndian, StoreWord, ring.Aligned, RingBuffer.Valid;
      var val;
      ok, val := ring.Pop32();
      if !ok {
        return;
      }
      SpliceIsStore(eventData[..], numBytes, val);
      PutWord(eventData, numBytes, val);
      numBytes := numBytes + 4;
      ev := ev.(header := InterpretHeaderWord(ev.header, val, ev.headerBytesRead / 4),
                headerBytesRead := ev.headerBytesRead + 4);
    }

    /** The first `n` bytes of `stream` have been read, and fed to `start`. */
    ghost predicate HasRead(start: Parser, stream: seq<bv8>, n: nat)
      requires Ok(start)
      reads this, eventData
    {
      NotPast(Ceres(), start, stream, n) && CheckHeader(View()) == FeedAll(start, WordsOf(stream[..n]))
    }

    /** In the header loop: what is gone from the front of `stream` has been read. */
    ghost predicate InHeader(start: Parser, stream: seq<bv8>)
      requires Ok(start)
      reads this, eventData, ring, ring.buffer
    {
      && ring.Valid() && ring.Aligned() && ring.Settled() && ring.Size() > CERES_HEADER_SIZE && eventData != ring.buffer && !reeling
      && |ring.Unread()| <= |stream| <= ring.Size() && ring.Unread() == stream[|stream| - |ring.Unread()|..]
      && HasRead(start, stream, |stream| - |ring.Unread()|)
      && ev.headerBytesRead <= CERES_HEADER_SIZE
      && (ev.headerBytesRead < CERES_HEADER_SIZE ==> BetweenCalls() && Ok(View()))
    }

    static lemma {:induction false} HeaderWordRead(p: Parser, start: Parser, stream: seq<bv8>, n: nat)
      requires Ok(p) && Ok(start) && !p.reeling && p.ev.headerBytesRead < CERES_HEADER_SIZE
      requires Whole(n) && n + 4 <= |stream|
      requires CheckHeader(p) == FeedAll(start, WordsOf(stream[..n]))
      ensures NotPast(Ceres(), start, stream, n + 4) && CheckHeader(TakeHeaderWord(p, WordAt(stream, n))) == FeedAll(start, WordsOf(stream[..n + 4]))
    {
      assert CheckHeader(p) == p;
      hide GoodHeader, InterpretHeaderWord, BigEndian, StoreWord, FeedAll, FeedBody, TakeHeaderWord, CheckHeader, NotPast, SearchesFrom, Ceres;
      FeedNext(start, stream, n);
      NextIsFine(start, stream, n);
    }

    /** `p` has taken the word behind the first `n` bytes of `stream`. */
    lemma {:induction false} ThenInHeader(start: Parser, stream: seq<bv8>, p: Parser, n: nat)
      requires Ok(start) && Ok(p) && !p.reeling && p.ev.headerBytesRead < CERES_HEADER_SIZE
      requires ring.Valid() && ring.Aligned() && ring.Size() > CERES_HEADER_SIZE && eventData != ring.buffer
      requires Whole(n) && n + 4 <= |stream| <= ring.Size() && CheckHeader(p) == FeedAll(start, WordsOf(stream[..n]))
      requires ring.Unread() == stream[n..][4..] && ring.ahead == p.ev.headerBytesRead + 4
      requires View() == TakeHeaderWord(p, WordAt(stream[n..], 0))
      ensures InHeader(start, stream) && ev.headerBytesRead == p.ev.headerBytesRead + 4
    {
      hide GoodHeader, TakeHeaderWord, CheckHeader, FeedAll, RingBuffer.Valid, RingBuffer.Aligned, WordsOf, Whole, EventOk, WordAt, RingBuffer.Unread, Ok;
      HeaderWordRead(p, start, stream, n);
      NextWord(stream, n);
    }

    static lemma NextWord(stream: seq<bv8>, n: nat)
      requires n + 4 <= |stream|
      ensures stream[n..][4..] == stream[n + 4..] && WordAt(stream[n..], 0) == WordAt(stream, n)
    {
      hide BigEndian;
    }

    /** One turn of the header loop, on the way through `stream`. */
    method ReadHeaderWordOf(ghost start: Parser, ghost stream: seq<bv8>) returns (ok: bool)
      requires Ok(start) && InHeader(start, stream) && ev.headerBytesRead < CERES_HEADER_SIZE
      modifies this, eventData, ring
      ensures InHeader(start, stream)
      ensures ev.headerBytesRead == old(ev).headerBytesRead + if ok then 4 else 0
      ensures |old(ring.Unread())| == |ring.Unread()| + if ok then 4 else 0
      ensures !ok ==> |ring.Unread()| < 4
    {
      hide GoodHeader, TakeHeaderWord, CheckHeader, FeedAll, RingBuffer.Valid, RingBuffer.Aligned, WordsOf, Whole, EventOk, BigEndian;
      ghost var p := View();
      ghost var n := |stream| - |ring.Unread()|;
      ok := ReadHeaderWord();
      if ok {
        ThenInHeader(start, stream, p, n);
      }
    }

    lemma {:induction false} HeaderStarts()
      requires Valid() && BetweenCalls() && !reeling
      ensures InHeader(View(), ring.Unread())
    {
      hide GoodHeader, FeedAll, RingBuffer.Valid;
      FeedNone(View(), ring.Unread());
    }

    /** The header loop: true once all five words are in; they are not checked yet. */
    method ReadHeader() returns (complete: bool)
      requires Valid() && BetweenCalls() && !reeling
      modifies this, eventData, ring
      ensures InHeader(old(View()), old(ring.Unread()))
      ensures complete <==> ev.headerBytesRead == CERES_HEADER_SIZE
      ensures !complete ==> |ring.Unread()| < 4
      ensures |old(ring.Unread())| == |ring.Unread()| + ev.headerBytesRead - old(ev).headerBytesRead
    {
      hide InHeader, Ok, BetweenCalls, RingBuffer.Valid;
      ghost var start, stream := View(), ring.Unread();
      HeaderStarts();
      HeaderHasRoom(start, stream);
      while ev.headerBytesRead < CERES_HEADER_SIZE
        invariant InHeader(start, stream) && ev.headerBytesRead <= CERES_HEADER_SIZE && ring.ahead <= |ring.contents|
        invariant |stream| == |ring.Unread()| + ev.headerBytesRead - old(ev).headerBytesRead
        decreases CERES_HEADER_SIZE - ev.headerBytesRead
      {
        var ok := ReadHeaderWordOf(start, stream);
        HeaderHasRoom(start, stream);
        if !ok {
          return false;
        }
      }
      complete := true;
    }

    lemma HeaderHasRoom(start: Parser, stream: seq<bv8>)
      requires Ok(start) && InHeader(start, stream)
      ensures ev.headerBytesRead <= CERES_HEADER_SIZE && ring.ahead <= |ring.contents|
    {
      hide Ok;
    }

    lemma ReelingIsViewed()
      ensures View().reeling == reeling && View().ev == ev
    {
    }

    /** What View() becomes once the main loop has published the completed event `hdr`. */
    ghost function AfterPublish(hdr: Header): Parser
      requires numBytes <= eventData.Length
      reads this, eventData
    {
      Parser(START_EVENT, eventData[..], 0, reeling, published + [Event(hdr, eventData[..numBytes])])
    }

    /** `start` has been fed the first `n` bytes of `stream`, and a completed event awaits publication if `ready`. */
    ghost predicate HasFed(start: Parser, stream: seq<bv8>, n: nat, ready: bool, hdr: Header)
      requires Ok(start)
      reads this, eventData
    {
      && Whole(n) && n <= |stream|
      && (ready ==> numBytes <= eventData.Length)
      && FeedAll(start, WordsOf(stream[..n])) == if ready then AfterPublish(hdr) else View()
    }

    /** One turn of the waveform loop, and the check for the end of the event. */
    method ReadAndCheckEnd(word: bv32, ghost start: Parser, ghost stream: seq<bv8>, ghost n: nat)
      returns (ready: bool, bad: bool, hdr: Header)
      requires Ok(View()) && !reeling && ev.headerBytesRead == CERES_HEADER_SIZE
      requires Ok(start) && n + 4 <= |stream| && HasFed(start, stream, n, false, BLANK_HEADER)
      requires word == WordAt(stream, n)
      modifies this, eventData
      ensures HasFed(start, stream, n + 4, ready, hdr) && bad == reeling
      ensures if ready then !bad && ev == START_EVENT else Ok(View())
      ensures !ready ==> hdr == BLANK_HEADER
      ensures !ready && !bad ==> ev.headerBytesRead == CERES_HEADER_SIZE
    {
      hide GoodHeader, FeedAll, FeedBody, Header.Length, BigEndian, FeedHeader, Whole;
      WholeSum(n, 4);
      FeedNext(start, stream, n);
      ghost var p := View();
      bad := ReadWord(word);
      ready, hdr := false, BLANK_HEADER;
      if !bad && ev.currentChannel == NUM_CHANNELS {
        CountFits(ev, numBytes);
        assert eventData[..][..numBytes] == eventData[..numBytes];
        hdr, ready := ev.header, true;
        ev := START_EVENT;
      }
    }

    /** Once reeling, the rest of the stream makes no difference. */
    lemma {:induction false} BadWordSpoilsStream(start: Parser, stream: seq<bv8>, n: nat, hdr: Header)
      requires Ok(start) && HasFed(start, stream, n, false, hdr) && reeling
      ensures View() == FeedAll(start, WordsOf(stream))
    {
      hide Ok, FeedAll;
      ReelingStays(start, stream, n);
    }

    lemma {:induction false} NothingFed(stream: seq<bv8>)
      requires Ok(View()) && !reeling
      ensures HasFed(View(), stream, 0, false, BLANK_HEADER)
    {
      hide Ok;
      FeedNone(View(), stream);
    }

    /** The waveform loop over the contiguous readable bytes. */
    method ReadWaveforms(bytesInBuffer: nat, ghost start: Parser, ghost stream: seq<bv8>)
      returns (bytesRead: nat, ready: bool, hdr: Header)
      requires ring.Valid() && ring.Settled() && eventData != ring.buffer && stream == ring.Unread()
      requires bytesInBuffer == ring.ContiguousReadable() && Whole(bytesInBuffer)
      requires Ok(View()) && start == View() && !reeling && ev.headerBytesRead == CERES_HEADER_SIZE
      modifies this, eventData
      ensures Whole(bytesRead) && bytesRead <= bytesInBuffer
      ensures if ready then !reeling && ev == START_EVENT else Ok(View())
      ensures !reeling ==> HasFed(start, stream, bytesRead, ready, hdr) && (bytesInBuffer > 0 ==> bytesRead > 0)
      ensures !reeling && !ready ==> ev.headerBytesRead == CERES_HEADER_SIZE
      ensures reeling ==> View() == FeedAll(start, WordsOf(stream))
    {
      hide GoodHeader, FeedAll, RingBuffer.Valid, RingBuffer.ContiguousReadable, Ok, View, Whole, HasFed, WordAt, RingBuffer.PeekWord, WordsOf;
      bytesRead, ready, hdr := 0, false, BLANK_HEADER;
      var bad := false;
      NothingFed(stream);
      ZeroIsWhole();
      while bytesRead + 3 <= bytesInBuffer
        invariant Whole(bytesRead) && bytesRead <= bytesInBuffer && !ready && !bad && hdr == BLANK_HEADER
        invariant Ok(View()) && !reeling && ev.headerBytesRead == CERES_HEADER_SIZE
        invariant HasFed(start, stream, bytesRead, false, BLANK_HEADER)
        decreases bytesInBuffer - bytesRead
      {
        WholeRoom(bytesRead, bytesInBuffer);
        var word := ring.PeekWord(bytesRead);
        ready, bad, hdr := ReadAndCheckEnd(word, start, stream, bytesRead);
        WholeSum(bytesRead, 4);
        bytesRead := bytesRead + 4;
        if bad {
          BadWordSpoilsStream(start, stream, bytesRead, hdr);
          return;
        }
        if ready {
          break;
        }
      }
      WholeRoom(0, bytesInBuffer);
    }

    /** The waveform loop, then the ring buffer update. */
    method ReadBody() returns (ready: bool, hdr: Header)
      requires Valid() && ring.Settled() && !reeling && ev.headerBytesRead == CERES_HEADER_SIZE
      modifies this, eventData, ring
      ensures ring.Valid() && ring.Aligned() && ring.Settled()
      ensures if ready then !reeling && ev == START_EVENT else Ok(View())
      ensures !reeling ==>
        var n := |old(ring.Unread())| - |ring.Unread()|;
        && ring.ahead == 0 && 0 <= n && ring.Unread() == old(ring.Unread())[n..]
        && HasFed(old(View()), old(ring.Unread()), n, ready, hdr)
        && (old(ring.Unread()) != [] ==> n > 0)
        && (!ready ==> ev.headerBytesRead == CERES_HEADER_SIZE)
      ensures reeling ==> ring.Unread() == old(ring.Unread()) && View() == FeedAll(old(View()), WordsOf(old(ring.Unread())))
    {
      hide GoodHeader, FeedAll, RingBuffer.Valid, RingBuffer.ContiguousReadable, Ok, View, Whole, HasFed, WordsOf, RingBuffer.Aligned;
      ghost var start, stream := View(), ring.Unread();
      ring.AlignedBlock();
      var bytesRead;
      bytesRead, ready, hdr := ReadWaveforms(ring.ContiguousReadable(), start, stream);
      if reeling {
        return;
      }
      ring.ReadAndRelease(bytesRead);
    }

    /** ceres_handle_bad_header: the event is trashed, but what it counted stays counted. */
    method HandleBadHeader()
      requires eventData.Length == EVENT_BUFFER_SIZE
      modifies this`ev, this`reeling
      ensures Ok(View()) && View() == old(View()).(ev := START_EVENT, reeling := true)
    {
      reeling := true;
      ev := START_EVENT;
    }

    /** The bad-header branch: the header is released from the ring buffer as well. */
    method TrashEvent()
      requires eventData.Length == EVENT_BUFFER_SIZE && eventData != ring.buffer
      requires ring.Valid() && ring.Aligned() && |ring.Unread()| < ring.Size()
      modifies this`ev, this`reeling, ring
      ensures Ok(View()) && View() == old(View()).(ev := START_EVENT, reeling := true)
      ensures ring.Valid() && ring.Aligned() && ring.Settled() && ring.Unread() == old(ring.Unread()) && ring.ahead == 0
    {
      hide RingBuffer.Valid, Ok;
      HandleBadHeader();
      ring.ReleaseWords();
    }

    /** What is gone from the front of `stream` has been fed to `start`. */
    ghost predicate Consumed(start: Parser, stream: seq<bv8>, ready: bool, hdr: Header)
      requires Ok(start)
      reads this, eventData, ring, ring.buffer
    {
      && ring.Valid() && |ring.Unread()| <= |stream|
      && ring.Unread() == stream[|stream| - |ring.Unread()|..]
      && HasFed(start, stream, |stream| - |ring.Unread()|, ready, hdr)
    }

    /**
     The parse of `stream` has failed: the flag is set, and at least what is behind the word that failed is unread.
     A bad header is released from the ring buffer.
     */
    ghost predicate Failed(start: Parser, stream: seq<bv8>)
      requires Ok(start)
      reads this, eventData, ring, ring.buffer
    {
      && ring.Valid() && ring.Aligned() && ring.Settled()
      && |ring.Unread()| <= |stream| && ring.Unread() == stream[|stream| - |ring.Unread()|..]
      && reeling && Ok(View()) && View() == FeedAll(start, WordsOf(stream))
      && SearchesFrom(Ceres(), start, stream, |stream| - |ring.Unread()|)
      && (FeedAll(start, WordsOf(stream[..|stream| - |ring.Unread()|])).reeling ==> ring.ahead == 0)
    }

    lemma {:induction false} ConsumedIs(start: Parser, stream: seq<bv8>, n: nat, ready: bool, hdr: Header)
      requires Ok(start) && ring.Valid() && n <= |stream| && ring.Unread() == stream[n..]
      requires HasFed(start, stream, n, ready, hdr)
      ensures Consumed(start, stream, ready, hdr)
    {
      hide HasFed, RingBuffer.Valid, Ok;
    }

    /** Calculate the CRC of a complete header, and compare. */
    method HeaderChecks() returns (good: bool)
      requires TableOk()
      modifies crcTable, crcTable.entries
      ensures TableOk() && good == GoodHeader(ev.header)
    {
      hide HeaderCrc, Flatten, Crc8.Crc;
      var crc := CalcCeresHeaderCrc(ev.header, true, crcTable);
      good := ev.header.crc == crc && ev.header.magicNumber == CERES_MAGIC_VALUE;
    }

    /** All of the header is in: check it. */
    method CheckReadHeader(ghost start: Parser, ghost stream: seq<bv8>) returns (good: bool)
      requires Ok(start) && !start.reeling && InHeader(start, stream) && TableOk() && ev.headerBytesRead == CERES_HEADER_SIZE
      requires eventData.Length == EVENT_BUFFER_SIZE && eventData != ring.buffer
      modifies this`ev, this`reeling, ring, crcTable, crcTable.entries
      ensures ring.Valid() && ring.Aligned() && ring.Settled() && Ok(View()) && TableOk()
      ensures ring.Unread() == old(ring.Unread())
      ensures if good then !reeling && ev == old(ev) && Consumed(start, stream, false, BLANK_HEADER) else reeling && Failed(start, stream)
    {
      hide GoodHeader, FeedAll, RingBuffer.Valid, HasFed, InHeader, WordsOf, RingBuffer.Aligned, Ok, Whole, Consumed, BetweenCalls, Crc8.Table.Valid, NotPast, SearchesFrom, Ceres, HasRead;
      HeaderIsFed(start, stream);
      good := HeaderChecks();
      if !good {
        TrashEvent();
      }
    }

    /** The first half of ceres_read_proc: true if a good header is in and the waveforms are next. */
    method ReadCheckedHeader() returns (complete: bool)
      requires Valid() && TableOk() && BetweenCalls() && !reeling
      modifies this, eventData, ring, crcTable, crcTable.entries
      ensures ring.Valid() && ring.Aligned() && ring.Settled() && Ok(View()) && TableOk()
      ensures !reeling ==> Consumed(old(View()), old(ring.Unread()), false, BLANK_HEADER)
      ensures complete ==> !reeling && ev.headerBytesRead == CERES_HEADER_SIZE
      ensures !complete && !reeling ==> BetweenCalls() && |ring.Unread()| < 4
      ensures reeling ==> Failed(old(View()), old(ring.Unread()))
      ensures |ring.Unread()| <= |old(ring.Unread())|
      ensures old(ev).headerBytesRead < CERES_HEADER_SIZE && |old(ring.Unread())| >= 4 ==> |ring.Unread()| < |old(ring.Unread())|
    {
      ghost var start, stream := View(), ring.Unread();
      assert !start.reeling && eventData.Length == EVENT_BUFFER_SIZE && eventData != ring.buffer && ev.headerBytesRead <= CERES_HEADER_SIZE;
      hide GoodHeader, FeedAll, RingBuffer.Valid, HasFed, InHeader, WordsOf, RingBuffer.Aligned, Ok, Whole, Consumed, BetweenCalls, Crc8.Table.Valid, NotPast, SearchesFrom, Ceres, View, Failed;
      complete := ReadHeader();
      if complete {
        complete := CheckReadHeader(start, stream);
      } else {
        HeaderIsFed(start, stream);
      }
    }

    /** The second half of ceres_read_proc, behind a good header. */
    method ReadRest(ghost start: Parser, ghost stream: seq<bv8>) returns (ready: bool, hdr: Header)
      requires Valid() && ring.Settled() && !reeling && ev.headerBytesRead == CERES_HEADER_SIZE
      requires Ok(start) && Consumed(start, stream, false, BLANK_HEADER)
      modifies this, eventData, ring
      ensures ring.Valid() && ring.Aligned() && ring.Settled()
      ensures if ready then !reeling && ev == START_EVENT else Ok(View())
      ensures !reeling ==> BetweenCalls() && Consumed(start, stream, ready, hdr) && (old(ring.Unread()) != [] ==> |ring.Unread()| < |old(ring.Unread())|)
      ensures !reeling && !ready ==> ev.headerBytesRead == CERES_HEADER_SIZE
      ensures |ring.Unread()| <= |old(ring.Unread())|
      ensures reeling ==> Failed(start, stream)
    {
      hide GoodHeader, FeedAll, RingBuffer.Valid, HasFed, WordsOf, RingBuffer.Aligned, View, Ok, Consumed, Header.Length, RingBuffer.Unread, Whole;
      if (ev.header.Length() + 2) * 4 * NUM_CHANNELS > EVENT_BUFFER_SIZE {
        // A sixteen-bit length never makes an event too large.
        assert false;
      }
      ghost var middle, rest := View(), ring.Unread();
      ReelingIsViewed();
      ConsumedMeans(start, stream, false, BLANK_HEADER);
      ready, hdr := ReadBody();
      BodyConsumed(start, middle, stream, rest, ready, hdr);
    }

    /**
     ceres_read_proc. Unless it sets the reeling flag, the words it consumes from the ring buffer
     take the builder exactly where the word-at-a-time parser goes; it sets the flag only
     when that parser would have failed on the bytes that were readable.
     */
    method CeresReadProc() returns (ready: bool, hdr: Header)
      requires Valid() && TableOk() && BetweenCalls() && !reeling
      modifies this, eventData, ring, crcTable, crcTable.entries
      ensures ring.Valid() && ring.Aligned() && ring.Settled() && TableOk()
      ensures if ready then !reeling && ev == START_EVENT else Ok(View())
      ensures !reeling ==> BetweenCalls() && Consumed(old(View()), old(ring.Unread()), ready, hdr)
      ensures |ring.Unread()| <= |old(ring.Unread())|
      ensures !reeling && !ready && ev.headerBytesRead < CERES_HEADER_SIZE ==> |ring.Unread()| < 4
      ensures (!reeling || old(ev).headerBytesRead < CERES_HEADER_SIZE) && |old(ring.Unread())| >= 4 ==>
        |ring.Unread()| < |old(ring.Unread())|
      ensures reeling ==> Failed(old(View()), old(ring.Unread()))
    {
      hide GoodHeader, FeedAll, RingBuffer.Valid, HasFed, WordsOf, RingBuffer.Aligned, View, Ok, Consumed, BetweenCalls, Whole;
      ghost var start, stream := View(), ring.Unread();
      var complete := ReadCheckedHeader();
      if !reeling {
        ConsumedMeans(start, stream, false, BLANK_HEADER);
      }
      if !complete {
        return false, BLANK_HEADER;
      }
      ready, hdr := ReadRest(start, stream);
    }

    lemma {:induction false} FailedMeans(start: Parser, stream: seq<bv8>)
      requires Ok(start) && Failed(start, stream)
      ensures FeedAll(start, WordsOf(stream)).reeling
      ensures |ring.Unread()| <= |stream| && SearchesFrom(Ceres(), start, stream, |stream| - |ring.Unread()|)
      ensures FeedAll(start, WordsOf(stream[..|stream| - |ring.Unread()|])).reeling ==> ring.ahead == 0
    {
      hide FeedAll, RingBuffer.Valid, Ok, WordsOf, NotPast, SearchesFrom, Ceres;
    }

    lemma {:induction false} ConsumedMeans(start: Parser, stream: seq<bv8>, ready: bool, hdr: Header)
      requires Ok(start) && Consumed(start, stream, ready, hdr)
      ensures |ring.Unread()| <= |stream| && ring.Unread() == stream[|stream| - |ring.Unread()|..]
      ensures ready ==> numBytes <= eventData.Length
      ensures !ready ==>
        var n := |stream| - |ring.Unread()|;
        Whole(n) && View() == FeedAll(start, WordsOf(stream[..n])) && Ok(View())
    {
      hide FeedAll, RingBuffer.Valid;
    }

    /** The header was consumed up to `rest`, and the waveform loop went on from there. */
    lemma {:induction false} BodyConsumed(start: Parser, middle: Parser, stream: seq<bv8>, rest: seq<bv8>, ready: bool, hdr: Header)
      requires Ok(start) && ring.Valid() && |rest| <= |stream|
      requires Whole(|stream| - |rest|) && rest == stream[|stream| - |rest|..]
      requires middle == FeedAll(start, WordsOf(stream[..|stream| - |rest|])) && !middle.reeling && middle.ev.headerBytesRead == CERES_HEADER_SIZE
      requires !reeling ==> |ring.Unread()| <= |rest| && ring.Unread() == rest[|rest| - |ring.Unread()|..]
      requires !reeling ==> HasFed(middle, rest, |rest| - |ring.Unread()|, ready, hdr)
      requires reeling ==> ring.Unread() == rest && View() == FeedAll(middle, WordsOf(rest))
      ensures !reeling ==> Consumed(start, stream, ready, hdr)
      ensures reeling ==>
        && ring.Unread() == stream[|stream| - |ring.Unread()|..] && View() == FeedAll(start, WordsOf(stream))
        && SearchesFrom(Ceres(), start, stream, |stream| - |ring.Unread()|)
        && !FeedAll(start, WordsOf(stream[..|stream| - |ring.Unread()|])).reeling
    {
      hide Ok, FeedAll, HasFed, RingBuffer.Valid, Consumed, NotPast, SearchesFrom, Ceres;
      var n := |stream| - |rest|;
      if reeling {
        FeedSplit(start, stream, n);
        BodySearches(start, stream, n);
      } else {
        var m := |rest| - |ring.Unread()|;
        ThenFed(start, middle, stream, n, m, ready, hdr);
        assert stream[n..][m..] == stream[n + m..];
        ConsumedIs(start, stream, n + m, ready, hdr);
      }
    }

    /** After the header loop: either the bytes read are fed, or the header they completed is bad. */
    lemma {:induction false} HeaderIsFed(start: Parser, stream: seq<bv8>)
      requires Ok(start) && !start.reeling && InHeader(start, stream)
      ensures ring.Valid() && ring.Aligned() && ring.Settled() && ring.Size() > CERES_HEADER_SIZE
      ensures ev.headerBytesRead < CERES_HEADER_SIZE ==> BetweenCalls()
      ensures ev.headerBytesRead == CERES_HEADER_SIZE && !GoodHeader(ev.header) ==>
        && |ring.Unread()| < ring.Size() && |ring.Unread()| <= |stream| && ring.Unread() == stream[|stream| - |ring.Unread()|..]
        && View().(ev := START_EVENT, reeling := true) == FeedAll(start, WordsOf(stream))
        && SearchesFrom(Ceres(), start, stream, |stream| - |ring.Unread()|)
      ensures ev.headerBytesRead < CERES_HEADER_SIZE || GoodHeader(ev.header) ==>
        !reeling && Ok(View()) && Consumed(start, stream, false, BLANK_HEADER)
    {
      hide FeedAll, WordsOf, RingBuffer.Valid, Header.Length, HeaderCrc;
      var n := |stream| - |ring.Unread()|;
      FeedNone(start, stream);
      if ev.headerBytesRead == CERES_HEADER_SIZE && !GoodHeader(ev.header) {
        assert FeedAll(start, WordsOf(stream[..n])).reeling;
        ReelingStays(start, stream, n);
        assert n > 0;
        WholeIsAWord(n);
      }
    }

    lemma {:induction false} ThenFed(start: Parser, middle: Parser, stream: seq<bv8>, n: nat, m: nat, ready: bool, hdr: Header)
      requires Ok(start) && Whole(n) && n <= |stream| && middle == FeedAll(start, WordsOf(stream[..n]))
      requires HasFed(middle, stream[n..], m, ready, hdr)
      ensures HasFed(start, stream, n + m, ready, hdr)
    {
      hide Ok, FeedAll;
      FeedSplit(start, stream[..n + m], n);
      assert stream[..n + m][..n] == stream[..n] && stream[..n + m][n..] == stream[n..][..m];
    }

    // ----- The main loop -----

    /** pull_from_fpga: recvmsg delivers the next `n` bytes, cut to the contiguous free space. */
    method PullFromFpga(net: seq<bv8>, n: nat) returns (pulled: nat)
      requires Valid() && n <= |net| && Whole(n) && ring.Settled()
      modifies ring, ring.buffer
      ensures Valid() && pulled == Min(n, old(ring.Space())) && Whole(pulled)
      ensures ring.ahead == old(ring.ahead) && ring.readPointer == old(ring.readPointer)
      ensures ring.Unread() == old(ring.Unread()) + net[..pulled]
      ensures n > 0 && |old(ring.contents)| < ring.Size() ==> pulled > 0
    {
      hide Ok, RingBuffer.Stores;
      var space := ring.ContiguousSpaceAvailable();
      if space <= 0 {
        return 0;
      }
      pulled := Min(n, space);
      ring.AlignedSpace(space, n);
      ring.Receive(net[..pulled]);
    }

    /** Pull, read, and publish a completed event. */
    method PullAndRead(net: seq<bv8>, n: nat) returns (pulled: nat)
      requires Valid() && TableOk() && BetweenCalls() && !reeling && n <= |net| && Whole(n)
      modifies this, eventData, ring, ring.buffer, crcTable, crcTable.entries
      ensures pulled == Min(n, old(ring.Space())) && Whole(pulled) && ring.Valid() && TableOk()
      ensures !reeling ==>
        && Valid() && BetweenCalls()
        && Consumed(old(View()), old(ring.Unread()) + net[..pulled], false, BLANK_HEADER)
      ensures n > 0 ==> old(ring.Unread()) != [] || pulled > 0
      ensures |ring.Unread()| <= |old(ring.Unread())| + pulled
      ensures !reeling && 0 < ev.headerBytesRead < CERES_HEADER_SIZE ==> |ring.Unread()| < 4
      ensures (!reeling || old(ev).headerBytesRead < CERES_HEADER_SIZE) && |old(ring.Unread())| + pulled >= 4 ==>
        |ring.Unread()| < |old(ring.Unread())| + pulled
      ensures reeling ==> Failed(old(View()), old(ring.Unread()) + net[..pulled])
    {
      hide RingBuffer.Valid, FeedAll, Ok, View, WordsOf, Whole, AfterPublish, RingBuffer.Aligned, Consumed;
      ghost var start := View();
      pulled := PullFromFpga(net, n);
      ghost var arrived := ring.Unread();
      var ready, hdr := CeresReadProc();
      ConsumedIsOk(start, arrived, ready, hdr);
      if ready {
        PublishEvent(hdr, start, arrived);
      }
    }

    /**
     One turn of the main loop while it is not reeling. The first `parsed` of the bytes that were unread or
     arrived have been parsed, and those from `kept` on are unread: the same ones, unless the parse failed; then
     at least everything behind the word that failed.
     */
    method Iterate(net: seq<bv8>, n: nat) returns (pulled: nat, ghost parsed: nat, ghost kept: nat)
      requires Valid() && TableOk() && BetweenCalls() && !reeling && n <= |net| && Whole(n)
      modifies this, eventData, ring, ring.buffer, crcTable, crcTable.entries
      ensures Valid() && TableOk() && ring.Settled() && pulled == Min(n, old(ring.Space())) && Whole(pulled)
      ensures
        var arrived := old(ring.Unread()) + net[..pulled];
        && parsed <= |arrived| && Whole(parsed) && View() == FeedAll(old(View()), WordsOf(arrived[..parsed]))
        && kept <= parsed && ring.Unread() == arrived[kept..] && (n > 0 ==> arrived != [])
        && SearchesFrom(Ceres(), old(View()), arrived[..parsed], kept)
        && (if reeling then FeedAll(old(View()), WordsOf(arrived[..kept])).reeling ==> ring.ahead == 0 else BetweenCalls() && parsed == kept)
        && (!reeling && 0 < ev.headerBytesRead < CERES_HEADER_SIZE ==> |ring.Unread()| < 4)
        && (|arrived| >= 4 && (!reeling || old(ev).headerBytesRead < CERES_HEADER_SIZE) ==> kept > 0)
    {
      hide RingBuffer.Valid, FeedAll, Ok, WordsOf, Whole, View, RingBuffer.Aligned, RingBuffer.Unread, Crc8.Table.Valid, RingBuffer.ContiguousReadable, Consumed, NotPast, SearchesFrom, Ceres;
      ghost var start, unread := View(), ring.Unread();
      ring.AlignedBlock();
      pulled := PullAndRead(net, n);
      WholeSum(|unread|, pulled);
      ghost var arrived := unread + net[..pulled];
      if reeling {
        FailedMeans(start, arrived);
        parsed := |arrived|;
        assert arrived[..parsed] == arrived;
      } else {
        ConsumedMeans(start, arrived, false, BLANK_HEADER);
        parsed := |arrived| - |ring.Unread()|;
        assert arrived[..parsed][..parsed] == arrived[..parsed];
        ReelingIsViewed();
        BodySearches(start, arrived[..parsed], parsed);
      }
      kept := |arrived| - |ring.Unread()|;
    }

    lemma {:induction false} ConsumedIsOk(start: Parser, stream: seq<bv8>, ready: bool, hdr: Header)
      requires Ok(start)
      ensures Consumed(start, stream, ready, hdr) && ready ==> numBytes <= eventData.Length
      ensures Consumed(start, stream, ready, hdr) && !ready ==> Ok(View()) && Consumed(start, stream, false, BLANK_HEADER)
    {
      hide FeedAll, WordsOf, RingBuffer.Valid, Ok;
    }

    /** publish_event, then clear the event buffer. */
    method PublishEvent(hdr: Header, ghost start: Parser, ghost stream: seq<bv8>)
      requires numBytes <= eventData.Length && ev == START_EVENT
      requires Ok(start) && Consumed(start, stream, true, hdr)
      modifies this`published, this`numBytes
      ensures Ok(View()) && Consumed(start, stream, false, BLANK_HEADER)
    {
      hide FeedAll, WordsOf, RingBuffer.Valid, Ok;
      published := published + [Event(hdr, eventData[..numBytes])];
      numBytes := 0;
    }

    /**
     find_event_start has looked through `block`, the front of the `unread` bytes. The flag is cleared if and only if
     it holds the marker; then what is unread starts with the first one. Otherwise the block is gone.
     Only when the marker is the first of the bytes that fill the whole ring buffer are they all lost.
     */
    ghost predicate Looked(unread: seq<bv8>, block: seq<bv8>)
      reads this, ring, ring.buffer
    {
      && ring.Valid() && block <= unread && Whole(|block|) && (unread != [] ==> |block| >= 4)
      && var i := FirstMarker(block, CERES_MAGIC_VALUE);
      && (reeling <==> i == |block|)
      && if reeling then ring.Unread() == unread[|block|..]
         else ring.ahead == 0 && ring.Unread() == if i == 0 && |unread| == ring.Size() then [] else unread[i..]
    }

    /**
     A turn of the main loop while reeling: pull, and search the contiguous block for an event. Nothing else
     changes; what trashed headers counted stays counted.
     */
    method ReelingTurn(net: seq<bv8>, n: nat) returns (pulled: nat, ghost block: seq<bv8>)
      requires Valid() && ring.Settled() && reeling && n <= |net| && Whole(n)
      modifies this`reeling, ring, ring.buffer
      ensures ring.Valid() && ring.Settled()
      ensures pulled == Min(n, old(ring.Space())) && Whole(pulled) && (n > 0 ==> old(ring.Unread()) != [] || pulled > 0)
      ensures View() == old(View()).(reeling := reeling)
      ensures |block| == Min(|old(ring.Unread())| + pulled, ring.Size() - old(ring.readPointer))
      ensures Looked(old(ring.Unread()) + net[..pulled], block)
      ensures reeling || Whole(ring.readPointer) || Whole(FirstMarker(block, CERES_MAGIC_VALUE)) ==> ring.Aligned()
    {
      hide RingBuffer.Valid, RingBuffer.Aligned, Ok, Whole, Looked, FirstMarker;
      pulled := PullFromFpga(net, n);
      block := Search();
    }

    /** find_event_start, and what becomes of the flag. */
    method Search() returns (ghost block: seq<bv8>)
      requires Valid() && ring.Settled() && reeling
      modifies this`reeling, ring
      ensures ring.Valid() && ring.Settled()
      ensures View() == old(View()).(reeling := reeling)
      ensures |block| == Min(|old(ring.Unread())|, ring.Size() - old(ring.readPointer))
      ensures Looked(old(ring.Unread()), block)
      ensures reeling || Whole(ring.readPointer) || Whole(FirstMarker(block, CERES_MAGIC_VALUE)) ==> ring.Aligned()
    {
      hide RingBuffer.Valid, RingBuffer.Aligned, Ok, RingBuffer.ContiguousReadable, Whole, FirstMarker, MarkerAt;
      ring.AlignedBlock();
      WholeIsAWord(ring.ContiguousReadable());
      block := ring.Searched();
      var found := ring.FindEventStart(CERES_MAGIC_VALUE);
      reeling := !found;
    }

    /** The builder is where parsing the first `used` bytes of `net` leads, and holds the ones up to `delivered`. */
    ghost predicate InStep(start: Parser, net: seq<bv8>, used: nat, delivered: nat)
      requires Ok(start)
      reads this, eventData, ring, ring.buffer
    {
      && Valid() && BetweenCalls() && !reeling
      && used <= delivered <= |net| && Whole(used) && Whole(delivered)
      && ring.Unread() == net[used..delivered]
      && View() == FeedAll(start, WordsOf(net[..used]))
    }

    /** One turn of the main loop on a stream that parses: it stays in step, and makes progress. */
    method Turn(net: seq<bv8>, delivered: nat, n: nat, ghost start: Parser, ghost used: nat)
      returns (delivered': nat, ghost used': nat)
      requires Ok(start) && TableOk() && InStep(start, net, used, delivered) && !FeedAll(start, WordsOf(net)).reeling
      requires n <= |net| - delivered && Whole(n)
      modifies this, eventData, ring, ring.buffer, crcTable, crcTable.entries
      ensures TableOk() && InStep(start, net, used', delivered') && used <= used' && delivered <= delivered'
      ensures (used < delivered || n > 0) ==> used < used'
    {
      hide RingBuffer.Valid, FeedAll, Ok, WordsOf, Whole, RingBuffer.Aligned, RingBuffer.Unread, BetweenCalls;
      ghost var parsed, kept;
      var pulled;
      pulled, parsed, kept := Iterate(net[delivered..], n);
      delivered' := delivered + pulled;
      WholeSum(delivered, pulled);
      WholeSum(delivered', used);
      ghost var arrived := net[used..delivered'];
      SliceMore(net, used, delivered, pulled);
      WholeIsAWord(|arrived|);
      FeedOn(start, net, used, delivered', parsed);
      WholeSum(used, parsed);
      if reeling {
        ReelingStays(start, net, used + parsed);
      }
      used' := used + kept;
    }

    /**
     Segmentation independence. Whatever the sizes of the deliveries, once the main loop has drained
     a stream on which the one-shot parse does not fail, the builder is where that parse ends:
     it never went reeling, and it published exactly the events of the one-shot parse. At every
     turn on the way, what it had published was a prefix of them.
     */
    method BuildAll(net: seq<bv8>, sizes: seq<nat>)
      requires Valid() && TableOk() && BetweenCalls() && !reeling && ring.Unread() == []
      requires Whole(|net|) && forall i :: 0 <= i < |sizes| ==> Whole(sizes[i])
      requires !FeedAll(View(), WordsOf(net)).reeling
      modifies this, eventData, ring, ring.buffer, crcTable, crcTable.entries
      ensures Valid() && TableOk() && BetweenCalls() && ring.Unread() == []
      ensures View() == FeedAll(old(View()), WordsOf(net))
    {
      hide RingBuffer.Valid, FeedAll, Ok, WordsOf, Whole, RingBuffer.Aligned, RingBuffer.Unread, View, InStep, BetweenCalls;
      ghost var start, used: nat := View(), 0;
      var delivered: nat, turn: nat := 0, 0;
      InStepStarts(net);
      InStepMeans(start, net, used, delivered);
      PublishedSoFar(start, net, used);
      while delivered < |net| || ring.Readable() > 0
        invariant TableOk() && InStep(start, net, used, delivered)
        invariant used <= delivered <= |net| && Whole(delivered) && ring.Valid() && ring.Settled() && ring.Readable() == delivered - used
        invariant View() == FeedAll(start, WordsOf(net[..used])) && published <= FeedAll(start, WordsOf(net)).published
        invariant Valid() && BetweenCalls() && (used == delivered ==> ring.Unread() == [])
        decreases if turn < |sizes| then |sizes| - turn else 0, |net| - used
      {
        var n := if turn < |sizes| then Min(sizes[turn], |net| - delivered) else |net| - delivered;
        WholeSum(|net|, delivered);
        delivered, used := Turn(net, delivered, n, start, used);
        turn := turn + 1;
        InStepMeans(start, net, used, delivered);
        PublishedSoFar(start, net, used);
      }
      assert net[..used] == net;
    }

    lemma {:induction false} InStepStarts(net: seq<bv8>)
      requires Valid() && BetweenCalls() && !reeling && ring.Unread() == []
      ensures InStep(View(), net, 0, 0)
    {
      hide RingBuffer.Valid, FeedAll, Ok, WordsOf;
      FeedNone(View(), net);
      assert net[0..0] == [];
    }

    lemma InStepMeans(start: Parser, net: seq<bv8>, used: nat, delivered: nat)
      requires Ok(start) && InStep(start, net, used, delivered)
      ensures Valid() && BetweenCalls() && ring.Settled() && used <= delivered <= |net| && Whole(used) && Whole(delivered)
      ensures ring.Readable() == delivered - used && (used == delivered ==> ring.Unread() == [])
      ensures View() == FeedAll(start, WordsOf(net[..used])) && published == View().published
    {
      hide RingBuffer.Valid, FeedAll, Ok, WordsOf, Whole;
    }

    /**
     Somewhere in a run on any stream: the pieces of the stream lead to the builder, and the ring buffer
     holds what has been delivered of the rest.
     */
    ghost predicate Held(start: Parser, net: seq<bv8>, pieces: seq<Piece>, delivered: nat)
      requires Ok(start)
      reads this, eventData, ring, ring.buffer
    {
      && ring.Valid() && !start.reeling && delivered <= |net| && Whole(delivered)
      && pieces != [] && Reaches(Ceres(), start, net, ring.Size(), pieces, View())
      && UsedIn(pieces) <= delivered && ring.Unread() == net[UsedIn(pieces)..delivered]
    }

    /** The run can go on. */
    ghost predicate InRun(start: Parser, net: seq<bv8>, pieces: seq<Piece>, delivered: nat)
      requires Ok(start)
      reads this, eventData, ring, ring.buffer
    {
      Valid() && ring.Settled() && (!reeling ==> BetweenCalls()) && Held(start, net, pieces, delivered)
    }

    /** A body leads to the search at least, the search to a header at least, and in a header every turn uses some bytes. */
    ghost function Phase(): nat
      reads this
    {
      if reeling then 1 else if ev.headerBytesRead < CERES_HEADER_SIZE then 0 else 2
    }

    /** A turn that parses lengthens the last piece. */
    method ParsingTurn(net: seq<bv8>, delivered: nat, n: nat, ghost start: Parser, ghost pieces: seq<Piece>)
      returns (delivered': nat, ghost pieces': seq<Piece>)
      requires Ok(start) && TableOk() && InRun(start, net, pieces, delivered) && !reeling
      requires n <= |net| - delivered && Whole(n)
      modifies this, eventData, ring, ring.buffer, crcTable, crcTable.entries
      ensures TableOk() && InRun(start, net, pieces', delivered') && delivered <= delivered' && UsedIn(pieces) <= UsedIn(pieces')
      ensures UsedIn(pieces) < delivered || n > 0 ==> UsedIn(pieces) < UsedIn(pieces') || Phase() < old(Phase())
    {
      hide RingBuffer.Valid, FeedAll, Ok, WordsOf, Whole, View, RingBuffer.Aligned, RingBuffer.Unread, Reaches, Ceres, IsMachine, Crc8.Table.Valid, Parses, NotPast, SearchesFrom, Held, UsedIn;
      HeldMeans(start, net, pieces, delivered);
      ghost var middle, used := View(), UsedIn(pieces);
      ring.AlignedBlock();
      ghost var parsed, kept;
      var pulled;
      pulled, parsed, kept := Iterate(net[delivered..], n);
      delivered' := delivered + pulled;
      WholeSum(delivered, pulled);
      SliceMore(net, used, delivered, pulled);
      WholeSum(|net[used..delivered]|, pulled);
      WholeIsAWord(|net[used..delivered']|);
      pieces' := AfterParse(start, net, pieces, delivered', middle, parsed, kept);
    }

    lemma HeldMeans(start: Parser, net: seq<bv8>, pieces: seq<Piece>, delivered: nat)
      requires Ok(start) && Held(start, net, pieces, delivered)
      ensures pieces != [] && UsedIn(pieces) <= delivered <= |net| && Whole(delivered) && !start.reeling && ring.Valid()
      ensures Reaches(Ceres(), start, net, ring.Size(), pieces, View()) && View().reeling == reeling
      ensures ring.Unread() == net[UsedIn(pieces)..delivered]
    {
      hide Ok, Reaches, RingBuffer.Valid, Ceres;
    }

    /** What was parsed lengthens the last piece. */
    lemma {:induction false} AfterParse(
      start: Parser, net: seq<bv8>, pieces: seq<Piece>, delivered: nat, q: Parser, parsed: nat, kept: nat)
      returns (pieces': seq<Piece>)
      requires Ok(start) && !start.reeling && pieces != [] && Reaches(Ceres(), start, net, ring.Size(), pieces, q) && Ok(q) && !q.reeling
      requires UsedIn(pieces) <= delivered <= |net| && Whole(delivered) && ring.Valid()
      requires
        var arrived := net[UsedIn(pieces)..delivered];
        && kept <= parsed <= |arrived| && Whole(parsed) && View() == FeedAll(q, WordsOf(arrived[..parsed]))
        && ring.Unread() == arrived[kept..] && SearchesFrom(Ceres(), q, arrived[..parsed], kept) && (!reeling ==> parsed == kept)
      ensures pieces' != [] && Held(start, net, pieces', delivered) && UsedIn(pieces') == UsedIn(pieces) + kept
    {
      hide RingBuffer.Valid, FeedAll, Ok, WordsOf, Whole, View, RingBuffer.Unread, Reaches, Ceres, NotPast, SearchesFrom, UsedIn;
      ReelingIsViewed();
      assert net[UsedIn(pieces)..delivered][..parsed] == net[UsedIn(pieces)..UsedIn(pieces) + parsed];
      pieces' := ReachesFeeding(start, net, ring.Size(), pieces, q, parsed, kept);
    }

    /** A turn that searches begins a new piece if it finds an event; `aligned` unless that is off the word boundaries. */
    method SearchingTurn(net: seq<bv8>, delivered: nat, n: nat, ghost start: Parser, ghost pieces: seq<Piece>)
      returns (delivered': nat, aligned: bool, ghost pieces': seq<Piece>)
      requires Ok(start) && InRun(start, net, pieces, delivered) && reeling && numBytes <= MAX_STALE
      requires n <= |net| - delivered && Whole(n)
      modifies this`reeling, ring, ring.buffer
      ensures Held(start, net, pieces', delivered') && delivered <= delivered' && UsedIn(pieces) <= UsedIn(pieces')
      ensures pieces' != []
      ensures if aligned then InRun(start, net, pieces', delivered') else !Whole(pieces'[|pieces'| - 1].from)
      ensures UsedIn(pieces) < delivered || n > 0 ==> UsedIn(pieces) < UsedIn(pieces') || Phase() < old(Phase())
    {
      hide RingBuffer.Valid, FeedAll, Ok, WordsOf, Whole, RingBuffer.Aligned, RingBuffer.Unread, Reaches, Ceres, IsMachine, RingBuffer.ContiguousReadable, FirstMarker;
      ghost var middle, used := View(), UsedIn(pieces);
      ring.AlignedBlock();
      ResumeIsOk(middle);
      ghost var block;
      var pulled;
      pulled, block := ReelingTurn(net[delivered..], n);
      delivered' := delivered + pulled;
      WholeSum(delivered, pulled);
      WholeSum(delivered, |net[used..delivered]|);
      SliceMore(net, used, delivered, pulled);
      aligned := reeling || Whole(ring.readPointer);
      pieces' := AfterSearch(start, net, pieces, delivered', middle, block);
      if ring.Aligned() {
        ring.AlignedReadPointer();
      }
    }

    /** Whether the search found a marker or not. */
    lemma {:induction false} AfterSearch(start: Parser, net: seq<bv8>, pieces: seq<Piece>, delivered: nat, q: Parser, block: seq<bv8>)
      returns (pieces': seq<Piece>)
      requires Ok(start) && !start.reeling && pieces != [] && CanResume(q) && Reaches(Ceres(), start, net, ring.Size(), pieces, q)
      requires UsedIn(pieces) <= delivered <= |net| && Whole(delivered) && Whole(UsedIn(pieces)) && View() == q.(reeling := reeling)
      requires Looked(net[UsedIn(pieces)..delivered], block)
      ensures pieces' != [] && Held(start, net, pieces', delivered) && UsedIn(pieces) <= UsedIn(pieces')
      ensures UsedIn(pieces) < delivered ==> UsedIn(pieces) < UsedIn(pieces') || !reeling
      ensures !reeling && Whole(pieces'[|pieces'| - 1].from) ==> Whole(FirstMarker(block, CERES_MAGIC_VALUE))
    {
      hide RingBuffer.Valid, FeedAll, Ok, WordsOf, RingBuffer.Unread, Reaches, Ceres, IsMachine, FirstMarker, View, UsedIn, Whole;
      ReelingIsViewed();
      if reeling {
        pieces' := SearchedInVain(start, net, pieces, delivered, q, block);
      } else {
        pieces' := FoundAgain(start, net, pieces, delivered, q, block);
        if Whole(pieces'[|pieces'| - 1].from) {
          WholeSum(pieces'[|pieces'| - 1].from, UsedIn(pieces));
        }
      }
    }

    /** The search went on. */
    lemma {:induction false} SearchedInVain(start: Parser, net: seq<bv8>, pieces: seq<Piece>, delivered: nat, q: Parser, block: seq<bv8>)
      returns (pieces': seq<Piece>)
      requires Ok(start) && !start.reeling && pieces != [] && Reaches(Ceres(), start, net, ring.Size(), pieces, q)
      requires UsedIn(pieces) <= delivered <= |net| && reeling && q == View()
      requires Looked(net[UsedIn(pieces)..delivered], block)
      ensures pieces' != [] && Reaches(Ceres(), start, net, ring.Size(), pieces', q) && UsedIn(pieces') == UsedIn(pieces) + |block| <= delivered
      ensures ring.Unread() == net[UsedIn(pieces')..delivered]
    {
      hide RingBuffer.Valid, FeedAll, Ok, WordsOf, RingBuffer.Unread, Reaches, Ceres, IsMachine, FirstMarker, Parses;
      var used := UsedIn(pieces);
      if block == [] {
        return pieces;
      }
      var b := Block(used, used + |block|);
      assert net[b.from..b.to] == block;
      ReelingIsViewed();
      CeresIsMachine();
      CeresMeans(start, []);
      CeresMeans(q, []);
      pieces' := ReachesSearching(Ceres(), start, net, ring.Size(), pieces, q, b);
    }

    /** The search found a marker. */
    lemma {:induction false} FoundAgain(start: Parser, net: seq<bv8>, pieces: seq<Piece>, delivered: nat, q: Parser, block: seq<bv8>)
      returns (pieces': seq<Piece>)
      requires Ok(start) && !start.reeling && pieces != [] && CanResume(q) && Reaches(Ceres(), start, net, ring.Size(), pieces, q)
      requires UsedIn(pieces) <= delivered <= |net| && !reeling && View() == Resume(q)
      requires Looked(net[UsedIn(pieces)..delivered], block)
      ensures pieces' != [] && Reaches(Ceres(), start, net, ring.Size(), pieces', View()) && UsedIn(pieces) <= UsedIn(pieces') <= delivered
      ensures ring.Unread() == net[UsedIn(pieces')..delivered]
      ensures Whole(pieces'[|pieces'| - 1].from - UsedIn(pieces)) ==> Whole(FirstMarker(block, CERES_MAGIC_VALUE))
    {
      hide RingBuffer.Valid, FeedAll, Ok, WordsOf, RingBuffer.Unread, Reaches, Ceres, IsMachine, FirstMarker, Resume, View, CanResume, Whole, UsedIn;
      CeresIsMachine();
      CeresMeans(q, []);
      pieces' := ReachesFound(Ceres(), start, net, ring.Size(), pieces, q, delivered, block);
      ZeroIsWhole();
    }

    lemma {:induction false} RunStarts(net: seq<bv8>)
      requires Valid() && BetweenCalls() && !reeling && ring.Unread() == []
      ensures InRun(View(), net, [FIRST_PIECE], 0)
    {
      hide FeedAll, Ok, WordsOf, RingBuffer.Aligned, Reaches, Ceres, IsMachine, RingBuffer.Valid;
      CeresIsMachine();
      CeresMeans(View(), []);
      ReachesFirst(Ceres(), View(), net, ring.Size());
      assert net[0..0] == [];
    }

    lemma InRunMeans(start: Parser, net: seq<bv8>, pieces: seq<Piece>, delivered: nat)
      requires Ok(start) && InRun(start, net, pieces, delivered)
      ensures delivered <= |net| && Whole(delivered) && Held(start, net, pieces, delivered)
      ensures pieces != [] && UsedIn(pieces) <= delivered
      ensures ring.Valid() && ring.Settled() && |ring.Unread()| == delivered - UsedIn(pieces)
      ensures ring.Readable() == delivered - UsedIn(pieces)
    {
      hide Ok, Reaches, Ceres, IsMachine, RingBuffer.Valid;
    }

    /** All of the stream has been delivered and used; or the code is where this model does not follow it. */
    ghost predicate RunIsOver(net: seq<bv8>, pieces: seq<Piece>, delivered: nat)
      requires pieces != []
      reads this
    {
      || (UsedIn(pieces) == delivered == |net|)
      || !Whole(pieces[|pieces| - 1].from)
      || (reeling && numBytes > MAX_STALE)
    }

    /** Turns of the main loop, parsing or searching, until the stream is used up. */
    method Turns(net: seq<bv8>, sizes: seq<nat>, ghost start: Parser, ghost begun: seq<Piece>)
      returns (delivered: nat, ghost pieces: seq<Piece>)
      requires Ok(start) && TableOk() && InRun(start, net, begun, 0)
      requires Whole(|net|) && forall i :: 0 <= i < |sizes| ==> Whole(sizes[i])
      modifies this, eventData, ring, ring.buffer, crcTable, crcTable.entries
      ensures Held(start, net, pieces, delivered) && pieces != [] && RunIsOver(net, pieces, delivered)
    {
      hide RingBuffer.Valid, FeedAll, Ok, WordsOf, Whole, RingBuffer.Aligned, RingBuffer.Unread, Reaches, Ceres, IsMachine, Crc8.Table.Valid, View, InRun, Held, Valid, BetweenCalls, UsedIn;
      var turn: nat := 0;
      delivered, pieces := 0, begun;
      InRunMeans(start, net, pieces, delivered);
      while delivered < |net| || ring.Readable() > 0
        invariant TableOk() && InRun(start, net, pieces, delivered)
        invariant delivered <= |net| && Whole(delivered) && Held(start, net, pieces, delivered)
        invariant pieces != [] && UsedIn(pieces) <= delivered
        invariant ring.Valid() && ring.Settled() && ring.Readable() == delivered - UsedIn(pieces)
        decreases if turn < |sizes| then |sizes| - turn else 0, |net| - UsedIn(pieces), Phase()
      {
        var n := if turn < |sizes| then Min(sizes[turn], |net| - delivered) else |net| - delivered;
        WholeSum(|net|, delivered);
        turn := turn + 1;
        InRunMeans(start, net, pieces, delivered);
        if !reeling {
          delivered, pieces := ParsingTurn(net, delivered, n, start, pieces);
        } else if numBytes <= MAX_STALE {
          var aligned;
          delivered, aligned, pieces := SearchingTurn(net, delivered, n, start, pieces);
          if !aligned {
            return;
          }
        } else {
          return;
        }
        InRunMeans(start, net, pieces, delivered);
      }
    }

    /**
     The main loop on any stream, bad headers and bad words included, whatever the sizes of the deliveries: turns
     are taken until all of the stream has been delivered and used. The builder is then where parsing pieces of the
     stream leads, one after the other, each but the first from the first marker that the search finds on, with the
     flag set and cleared in between. What it published is what these parses publish. The run ends
     early when a piece begins off the word boundaries, or when trashed headers have filled the event buffer.
     */
    method Run(net: seq<bv8>, sizes: seq<nat>) returns (delivered: nat, ghost pieces: seq<Piece>)
      requires Valid() && TableOk() && BetweenCalls() && !reeling && ring.Unread() == []
      requires Whole(|net|) && forall i :: 0 <= i < |sizes| ==> Whole(sizes[i])
      modifies this, eventData, ring, ring.buffer, crcTable, crcTable.entries
      ensures Held(old(View()), net, pieces, delivered) && pieces != [] && RunIsOver(net, pieces, delivered)
      ensures old(published) <= published
    {
      hide RingBuffer.Valid, FeedAll, Ok, WordsOf, Whole, RingBuffer.Aligned, RingBuffer.Unread, Reaches, Ceres, IsMachine, Crc8.Table.Valid, InRun, BetweenCalls, RunIsOver;
      ghost var start := View();
      RunStarts(net);
      delivered, pieces := Turns(net, sizes, start, [FIRST_PIECE]);
      ReachesGrows(start, net, ring.Size(), pieces, View());
    }
  }

  /** A ring buffer that retains nothing has room up to its end. */
  lemma EmptyHasRoom(ring: RingBuffer)
    requires ring.Valid() && ring.contents == []
    ensures ring.Space() == ring.Size() == Min(ring.Size(), ring.Size()) == ring.Size() - ring.readPointer
  {
    hide RingBuffer.Stores;
  }

  /** A turn that has nothing but a bad header to read sets the flag, and the search will begin behind it. */
  lemma {:induction false} BadHeaderIsSkipped(p: Parser, bad: seq<bv8>, parsed: nat, kept: nat)
    requires AtEvent(p) && |bad| == CERES_HEADER_SIZE && !GoodHeader(InterpretHeader(BLANK_HEADER, WordsOf(bad)))
    requires p.numBytes == 0 && kept <= parsed <= CERES_HEADER_SIZE && Whole(parsed) && SearchesFrom(Ceres(), p, bad[..parsed], kept)
    requires
      var q := FeedAll(p, WordsOf(bad[..parsed]));
      q.reeling || (kept == parsed > 0 && (0 < q.ev.headerBytesRead < CERES_HEADER_SIZE ==> CERES_HEADER_SIZE - kept < 4))
    ensures parsed == kept == CERES_HEADER_SIZE
    ensures FeedAll(p, WordsOf(bad[..kept])).reeling && FeedAll(p, WordsOf(bad[..kept])).published == p.published
  {
    hide GoodHeader, InterpretHeader, FeedAll, WordsOf, Ceres, Ok, Parsed;
    PartOfBadHeader(p, bad, parsed);
    PartOfBadHeader(p, bad, kept);
    CeresMeans(p, bad[..parsed]);
    CeresMeans(p, bad[..parsed][..kept]);
    assert bad[..parsed][..kept] == bad[..kept];
    CeresMeans(FeedAll(p, WordsOf(bad[..parsed])), []);
    CeresMeans(FeedAll(p, WordsOf(bad[..kept])), []);
  }

  /** A builder that has read a bad header. */
  method StartReeling(ringSize: nat, bad: seq<bv8>) returns (builder: CeresBuilder)
    requires Whole(ringSize) && CERES_HEADER_SIZE < ringSize
    requires |bad| == CERES_HEADER_SIZE && !GoodHeader(InterpretHeader(BLANK_HEADER, WordsOf(bad)))
    ensures fresh(builder) && fresh(builder.ring) && fresh(builder.ring.buffer) && builder.ring.Size() == ringSize
    ensures builder.Valid() && builder.ring.Valid() && builder.ring.Settled() && builder.reeling && builder.published == []
    ensures builder.ring.contents == [] && builder.ring.Unread() == []
  {
    builder := new CeresBuilder(ringSize);
    hide RingBuffer.Valid, FeedAll, Ok, WordsOf, RingBuffer.Aligned, GoodHeader, InterpretHeader, Ceres, SearchesFrom;
    EmptyHasRoom(builder.ring);
    ghost var start := builder.View();
    assert AtEvent(start);
    assert bad[..CERES_HEADER_SIZE] == bad && [] + bad == bad;
    ghost var parsed, kept;
    var pulled;
    pulled, parsed, kept := builder.Iterate(bad, CERES_HEADER_SIZE);
    BadHeaderIsSkipped(start, bad, parsed, kept);
  }

  lemma MarkerInFront(net: seq<bv8>)
    requires |net| >= 4 && WordAt(net, 0) == CERES_MAGIC_VALUE
    ensures FirstMarker(net, CERES_MAGIC_VALUE) == 0
  {
    MarkerIsMagic(net, 0);
    hide MarkerAt;
  }

  lemma AllIsLost(builder: CeresBuilder, net: seq<bv8>, block: seq<bv8>)
    requires 4 <= |net| == |block| && WordAt(net, 0) == CERES_MAGIC_VALUE
    requires builder.Looked(net, block) && builder.ring.Size() == |net|
    ensures builder.ring.Valid() && !builder.reeling && builder.ring.Unread() == []
  {
    hide RingBuffer.Valid, FirstMarker, WordAt, MarkerAt;
    assert block == net;
    MarkerInFront(net);
  }

  /** While reeling with an empty ring buffer, a delivery that fills it and begins with the marker is lost. */
  method FillAndSearch(builder: CeresBuilder, net: seq<bv8>)
    requires builder.Valid() && builder.ring.Valid() && builder.ring.Settled() && builder.reeling && builder.ring.contents == []
    requires Whole(|net|) && 4 <= |net| == builder.ring.Size() && WordAt(net, 0) == CERES_MAGIC_VALUE
    modifies builder`reeling, builder.ring, builder.ring.buffer
    ensures builder.ring.Valid() && !builder.reeling && builder.ring.Unread() == []
  {
    hide RingBuffer.Valid, RingBuffer.Aligned, FirstMarker, WordAt, MarkerAt, Ok, Whole, CeresBuilder.View, CeresBuilder.Looked, CeresBuilder.Valid;
    EmptyHasRoom(builder.ring);
    assert builder.ring.Unread() == [] && [] + net[..|net|] == net;
    ghost var block;
    var pulled;
    pulled, block := builder.ReelingTurn(net, |net|);
    AllIsLost(builder, net, block);
  }

  /**
   A run that loses a full ring buffer. A bad header sets the flag; the next delivery fills the ring buffer, and
   begins with the marker, perhaps with whole good events. The search finds the marker, and all of it is gone.
   */
  method FullBufferIsLost(ringSize: nat, bad: seq<bv8>, net: seq<bv8>) returns (builder: CeresBuilder)
    requires Whole(ringSize) && CERES_HEADER_SIZE < ringSize == |net| && WordAt(net, 0) == CERES_MAGIC_VALUE
    requires |bad| == CERES_HEADER_SIZE && !GoodHeader(InterpretHeader(BLANK_HEADER, WordsOf(bad)))
    ensures fresh(builder) && builder.ring.Valid() && builder.ring.Size() == |net|
    ensures !builder.reeling && builder.published == [] && builder.ring.Unread() == []
  {
    builder := StartReeling(ringSize, bad);
    hide *;
    FillAndSearch(builder, net);
  }
}
