/**
 The FONTUS half of data_builder.c in its own form: the ring buffer, the event buffer
 and the event in progress, updated in place by resumable loops, against the
 word-at-a-time state machine of FontusParser.
 */
module FontusBuilders {
  import opened Words
  import opened Buffers
  import opened Resync
  import opened RingBuffers
  import opened FontusHeaders
  import opened FontusParser
  import Ceres = CeresParser
  import Crc32

  class FontusBuilder {
    const ring: RingBuffer
    const eventData: array<bv8>
    var numBytes: nat
    var ev: EventInProgress
    var reeling: bool
    var published: seq<Event>

    ghost function View(): Parser
      reads this, eventData
    {
      Parser(ev, eventData[..], numBytes, reeling, published)
    }

    ghost predicate Valid()
      reads this, eventData, ring, ring.buffer
    {
      && eventData != ring.buffer
      && ring.Valid() && ring.Aligned() && ring.Size() > FONTUS_HEADER_SIZE
      && Ok(View())
    }

    /** Between calls the read pointer is ahead only by the bytes of an unfinished header. */
    ghost predicate BetweenCalls()
      reads this, ring
    {
      ring.ahead == if ev.headerBytesRead < FONTUS_HEADER_SIZE then ev.headerBytesRead else 0
    }

    constructor (ringSize: nat)
      requires Whole(ringSize) && ringSize > FONTUS_HEADER_SIZE
      ensures Valid() && BetweenCalls() && fresh(ring) && fresh(ring.buffer) && fresh(eventData)
      ensures ring.Unread() == [] && !reeling && published == [] && ev == START_EVENT && numBytes == 0
      ensures ring.Size() == ringSize
    {
      ring := new RingBuffer(ringSize);
      eventData := new bv8[EVENT_BUFFER_SIZE];
      numBytes, ev, reeling, published := 0, START_EVENT, false, [];
    }

    /** Store a word at its place, and count it. */
    method StoreSample(word: bv32, isample: nat)
      requires eventData.Length == EVENT_BUFFER_SIZE && ev.currentChannel < NUM_WAVEFORMS
      requires isample <= ev.header.Length()
      modifies this`numBytes, eventData
      ensures View() == Store(old(View()), word, isample)
    {
      hide StoreWord, Offset;
      OffsetFits(ev.currentChannel, ev.header.Length(), isample);
      SpliceIsStore(eventData[..], Offset(ev.currentChannel, ev.header.Length(), isample), word);
      PutWord(eventData, Offset(ev.currentChannel, ev.header.Length(), isample), word);
      numBytes := numBytes + 4;
    }

    /** The body of the waveform loop: the marker of a waveform, or a sample. */
    method ReadWord(word: bv32) returns (bad: bool)
      requires Ok(View()) && !reeling && ev.headerBytesRead == FONTUS_HEADER_SIZE
      modifies this, eventData
      ensures View() == FeedBody(old(View()), word)
      ensures bad == reeling
    {
      hide GoodHeader, ChannelMarker, Store, Header.Length;
      bad := false;
      if !ev.wfHeaderRead {
        if word != ChannelMarker(ev.currentChannel) {
          reeling := true;
          numBytes := 0;
          ev := START_EVENT;
          return true;
        }
        StoreSample(word, 0);
        ev := ev.(wfHeaderRead := true, samplesRead := 1);
      } else if ev.samplesRead <= ev.header.Length() {
        StoreSample(word, ev.samplesRead);
        if ev.samplesRead == ev.header.Length() {
          ev := ev.(currentChannel := ev.currentChannel + 1, samplesRead := 0, wfHeaderRead := false);
        } else {
          ev := ev.(samplesRead := ev.samplesRead + 1);
        }
      }
    }

    /** One turn of the header loop. */
    method ReadHeaderWord() returns (ok: bool)
      requires Valid() && !reeling && ring.Settled() && ev.headerBytesRead < FONTUS_HEADER_SIZE
      modifies this, eventData, ring
      ensures ring.Valid() && ring.Aligned()
      ensures ok <==> |old(ring.Unread())| >= 4
      ensures ring.Unread() == if ok then old(ring.Unread())[4..] else old(ring.Unread())
      ensures ring.ahead == old(ring.ahead) + if ok then 4 else 0
      ensures View() == if ok then TakeHeaderWord(old(View()), WordAt(old(ring.Unread()), 0)) else old(View())
    {
      hide GoodHeader, InterpretHeaderWord, BigEndian, StoreWord, ring.Aligned, RingBuffer.Valid;
      var val;
      ok, val := ring.Pop32();
      if !ok {
        return;
      }
      SpliceIsStore(eventData[..], numBytes, val);
      PutWord(eventData, numBytes, val);
      numBytes := numBytes + 4;
      ev := ev.(header := InterpretHeaderWord(ev.header, val, ev.headerBytesRead / 4),
                headerBytesRead := ev.headerBytesRead + 4);
    }

    /** The first `n` bytes of `stream` have been read, and fed to `start`. */
    ghost predicate HasRead(start: Parser, stream: seq<bv8>, n: nat)
      requires Ok(start)
      reads this, eventData
    {
      NotPast(Fontus(), start, stream, n) && CheckHeader(View()) == FeedAll(start, WordsOf(stream[..n]))
    }

    /** In the header loop: what is gone from the front of `stream` has been read. */
    ghost predicate InHeader(start: Parser, stream: seq<bv8>)
      requires Ok(start)
      reads this, eventData, ring, ring.buffer
    {
      && ring.Valid() && ring.Aligned() && ring.Settled() && ring.Size() > FONTUS_HEADER_SIZE && eventData != ring.buffer && !reeling
      && |ring.Unread()| <= |stream| <= ring.Size() && ring.Unread() == stream[|stream| - |ring.Unread()|..]
      && HasRead(start, stream, |stream| - |ring.Unread()|)
      && ev.headerBytesRead <= FONTUS_HEADER_SIZE
      && (ev.headerBytesRead < FONTUS_HEADER_SIZE ==> BetweenCalls() && Ok(View()))
    }

    static lemma {:induction false} HeaderWordRead(p: Parser, start: Parser, stream: seq<bv8>, n: nat)
      requires Ok(p) && Ok(start) && !p.reeling && p.ev.headerBytesRead < FONTUS_HEADER_SIZE
      requires Whole(n) && n + 4 <= |stream|
      requires CheckHeader(p) == FeedAll(start, WordsOf(stream[..n]))
      ensures NotPast(Fontus(), start, stream, n + 4) && CheckHeader(TakeHeaderWord(p, WordAt(stream, n))) == FeedAll(start, WordsOf(stream[..n + 4]))
    {
      assert CheckHeader(p) == p;
      hide GoodHeader, InterpretHeaderWord, BigEndian, StoreWord, FeedAll, FeedBody, TakeHeaderWord, CheckHeader, NotPast, SearchesFrom, Fontus;
      FeedNext(start, stream, n);
      NextIsFine(start, stream, n);
    }

    /** `p` has taken the word behind the first `n` bytes of `stream`. */
    lemma {:induction false} ThenInHeader(start: Parser, stream: seq<bv8>, p: Parser, n: nat)
      requires Ok(start) && Ok(p) && !p.reeling && p.ev.headerBytesRead < FONTUS_HEADER_SIZE
      requires ring.Valid() && ring.Aligned() && ring.Size() > FONTUS_HEADER_SIZE && eventData != ring.buffer
      requires Whole(n) && n + 4 <= |stream| <= ring.Size() && CheckHeader(p) == FeedAll(start, WordsOf(stream[..n]))
      requires ring.Unread() == stream[n..][4..] && ring.ahead == p.ev.headerBytesRead + 4
      requires View() == TakeHeaderWord(p, WordAt(stream[n..], 0))
      ensures InHeader(start, stream) && ev.headerBytesRead == p.ev.headerBytesRead + 4
    {
      hide GoodHeader, TakeHeaderWord, CheckHeader, FeedAll, RingBuffer.Valid, RingBuffer.Aligned, WordsOf, Whole, EventOk, WordAt, RingBuffer.Unread, Ok;
      HeaderWordRead(p, start, stream, n);
      NextWord(stream, n);
    }

    static lemma NextWord(stream: seq<bv8>, n: nat)
      requires n + 4 <= |stream|
      ensures stream[n..][4..] == stream[n + 4..] && WordAt(stream[n..], 0) == WordAt(stream, n)
    {
      hide BigEndian;
    }

    /** One turn of the header loop, on the way through `stream`. */
    method ReadHeaderWordOf(ghost start: Parser, ghost stream: seq<bv8>) returns (ok: bool)
      requires Ok(start) && InHeader(start, stream) && ev.headerBytesRead < FONTUS_HEADER_SIZE
      modifies this, eventData, ring
      ensures InHeader(start, stream)
      ensures ev.headerBytesRead == old(ev).headerBytesRead + if ok then 4 else 0
      ensures |old(ring.Unread())| == |ring.Unread()| + if ok then 4 else 0
      ensures !ok ==> |ring.Unread()| < 4
    {
      hide GoodHeader, TakeHeaderWord, CheckHeader, FeedAll, RingBuffer.Valid, RingBuffer.Aligned, WordsOf, Whole, EventOk, BigEndian;
      ghost var p := View();
      ghost var n := |stream| - |ring.Unread()|;
      ok := ReadHeaderWord();
      if ok {
        ThenInHeader(start, stream, p, n);
      }
    }

    lemma {:induction false} HeaderStarts()
      requires Valid() && BetweenCalls() && !reeling
      ensures InHeader(View(), ring.Unread())
    {
      hide GoodHeader, FeedAll, RingBuffer.Valid;
      FeedNone(View(), ring.Unread());
    }

    /** The header loop: true once all thirteen words are in; they are not checked yet. */
    method ReadHeader() returns (complete: bool)
      requires Valid() && BetweenCalls() && !reeling
      modifies this, eventData, ring
      ensures InHeader(old(View()), old(ring.Unread()))
      ensures complete <==> ev.headerBytesRead == FONTUS_HEADER_SIZE
      ensures !complete ==> |ring.Unread()| < 4
      ensures |old(ring.Unread())| == |ring.Unread()| + ev.headerBytesRead - old(ev).headerBytesRead
    {
      hide InHeader, Ok, BetweenCalls, RingBuffer.Valid;
      ghost var start, stream := View(), ring.Unread();
      HeaderStarts();
      HeaderHasRoom(start, stream);
      while ev.headerBytesRead < FONTUS_HEADER_SIZE
        invariant InHeader(start, stream) && ev.headerBytesRead <= FONTUS_HEADER_SIZE && ring.ahead <= |ring.contents|
        invariant |stream| == |ring.Unread()| + ev.headerBytesRead - old(ev).headerBytesRead
        decreases FONTUS_HEADER_SIZE - ev.headerBytesRead
      {
        var ok := ReadHeaderWordOf(start, stream);
        HeaderHasRoom(start, stream);
        if !ok {
          return false;
        }
      }
      complete := true;
    }

    lemma HeaderHasRoom(start: Parser, stream: seq<bv8>)
      requires Ok(start) && InHeader(start, stream)
      ensures ev.headerBytesRead <= FONTUS_HEADER_SIZE && ring.ahead <= |ring.contents|
    {
      hide Ok;
    }

    lemma ReelingIsViewed()
      ensures View().reeling == reeling && View().ev == ev
    {
    }

    /** What View() becomes once the main loop has published the completed event `hdr`. */
    ghost function AfterPublish(hdr: Header): Parser
      requires numBytes <= eventData.Length
      reads this, eventData
    {
      Parser(START_EVENT, eventData[..], 0, reeling, published + [Event(hdr, eventData[..numBytes])])
    }

    /** `start` has been fed the first `n` bytes of `stream`, and a completed event awaits publication if `ready`. */
    ghost predicate HasFed(start: Parser, stream: seq<bv8>, n: nat, ready: bool, hdr: Header)
      requires Ok(start)
      reads this, eventData
    {
      && Whole(n) && n <= |stream|
      && (ready ==> numBytes <= eventData.Length)
      && FeedAll(start, WordsOf(stream[..n])) == if ready then AfterPublish(hdr) else View()
    }

    /** One turn of the waveform loop, and the check for the end of the event. */
    method ReadAndCheckEnd(word: bv32, ghost start: Parser, ghost stream: seq<bv8>, ghost n: nat)
      returns (ready: bool, bad: bool, hdr: Header)
      requires Ok(View()) && !reeling && ev.headerBytesRead == FONTUS_HEADER_SIZE
      requires Ok(start) && n + 4 <= |stream| && HasFed(start, stream, n, false, BLANK_HEADER)
      requires word == WordAt(stream, n)
      modifies this, eventData
      ensures HasFed(start, stream, n + 4, ready, hdr) && bad == reeling
      ensures if ready then !bad && ev == START_EVENT else Ok(View())
      ensures !ready ==> hdr == BLANK_HEADER
      ensures !ready && !bad ==> ev.headerBytesRead == FONTUS_HEADER_SIZE
    {
      hide GoodHeader, FeedAll, FeedBody, Header.Length, BigEndian, FeedHeader, Whole;
      WholeSum(n, 4);
      FeedNext(start, stream, n);
      ghost var p := View();
      bad := ReadWord(word);
      ready, hdr := false, BLANK_HEADER;
      if !bad && ev.currentChannel == NUM_WAVEFORMS {
        CountFits(ev, numBytes);
        assert eventData[..][..numBytes] == eventData[..numBytes];
        hdr, ready := ev.header, true;
        ev := START_EVENT;
      }
    }

    /** Once reeling, the rest of the stream makes no difference. */
    lemma {:induction false} BadWordSpoilsStream(start: Parser, stream: seq<bv8>, n: nat, hdr: Header)
      requires Ok(start) && HasFed(start, stream, n, false, hdr) && reeling
      ensures View() == FeedAll(start, WordsOf(stream))
    {
      hide Ok, FeedAll;
      ReelingStays(start, stream, n);
    }

    lemma {:induction false} NothingFed(stream: seq<bv8>)
      requires Ok(View()) && !reeling
      ensures HasFed(View(), stream, 0, false, BLANK_HEADER)
    {
      hide Ok;
      FeedNone(View(), stream);
    }

    /** The waveform loop over the contiguous readable bytes. */
    method ReadWaveforms(bytesInBuffer: nat, ghost start: Parser, ghost stream: seq<bv8>)
      returns (bytesRead: nat, ready: bool, hdr: Header)
      requires ring.Valid() && ring.Settled() && eventData != ring.buffer && stream == ring.Unread()
      requires bytesInBuffer == ring.ContiguousReadable() && Whole(bytesInBuffer)
      requires Ok(View()) && start == View() && !reeling && ev.headerBytesRead == FONTUS_HEADER_SIZE
      modifies this, eventData
      ensures Whole(bytesRead) && bytesRead <= bytesInBuffer
      ensures if ready then !reeling && ev == START_EVENT else Ok(View())
      ensures !reeling ==> HasFed(start, stream, bytesRead, ready, hdr) && (bytesInBuffer > 0 ==> bytesRead > 0)
      ensures !reeling && !ready ==> ev.headerBytesRead == FONTUS_HEADER_SIZE
      ensures reeling ==> View() == FeedAll(start, WordsOf(stream))
    {
      hide GoodHeader, FeedAll, RingBuffer.Valid, RingBuffer.ContiguousReadable, Ok, View, Whole, HasFed, WordAt, RingBuffer.PeekWord, WordsOf;
      bytesRead, ready, hdr := 0, false, BLANK_HEADER;
      var bad := false;
      NothingFed(stream);
      ZeroIsWhole();
      while bytesRead + 3 <= bytesInBuffer
        invariant Whole(bytesRead) && bytesRead <= bytesInBuffer && !ready && !bad && hdr == BLANK_HEADER
        invariant Ok(View()) && !reeling && ev.headerBytesRead == FONTUS_HEADER_SIZE
        invariant HasFed(start, stream, bytesRead, false, BLANK_HEADER)
        decreases bytesInBuffer - bytesRead
      {
        WholeRoom(bytesRead, bytesInBuffer);
        var word := ring.PeekWord(bytesRead);
        ready, bad, hdr := ReadAndCheckEnd(word, start, stream, bytesRead);
        WholeSum(bytesRead, 4);
        bytesRead := bytesRead + 4;
        if bad {
          BadWordSpoilsStream(start, stream, bytesRead, hdr);
          return;
        }
        if ready {
          break;
        }
      }
      WholeRoom(0, bytesInBuffer);
    }

    /** The waveform loop, then the ring buffer update. */
    method ReadBody() returns (ready: bool, hdr: Header)
      requires Valid() && ring.Settled() && !reeling && ev.headerBytesRead == FONTUS_HEADER_SIZE
      modifies this, eventData, ring
      ensures ring.Valid() && ring.Aligned() && ring.Settled()
      ensures if ready then !reeling && ev == START_EVENT else Ok(View())
      ensures !reeling ==>
        var n := |old(ring.Unread())| - |ring.Unread()|;
        && ring.ahead == 0 && 0 <= n && ring.Unread() == old(ring.Unread())[n..]
        && HasFed(old(View()), old(ring.Unread()), n, ready, hdr)
        && (old(ring.Unread()) != [] ==> n > 0)
        && (!ready ==> ev.headerBytesRead == FONTUS_HEADER_SIZE)
      ensures reeling ==> ring.Unread() == old(ring.Unread()) && View() == FeedAll(old(View()), WordsOf(old(ring.Unread())))
    {
      hide GoodHeader, FeedAll, RingBuffer.Valid, RingBuffer.ContiguousReadable, Ok, View, Whole, HasFed, WordsOf, RingBuffer.Aligned;
      ghost var start, stream := View(), ring.Unread();
      ring.AlignedBlock();
      var bytesRead;
      bytesRead, ready, hdr := ReadWaveforms(ring.ContiguousReadable(), start, stream);
      if reeling {
        return;
      }
      ring.ReadAndRelease(bytesRead);
    }

    /** fontus_handle_bad_header: the event is trashed, but what it counted stays counted. */
    method HandleBadHeader()
      requires eventData.Length == EVENT_BUFFER_SIZE
      modifies this`ev, this`reeling
      ensures Ok(View()) && View() == old(View()).(ev := START_EVENT, reeling := true)
    {
      reeling := true;
      ev := START_EVENT;
    }

    /** The bad-header branch: the header is released from the ring buffer as well. */
    method TrashEvent()
      requires eventData.Length == EVENT_BUFFER_SIZE && eventData != ring.buffer
      requires ring.Valid() && ring.Aligned() && |ring.Unread()| < ring.Size()
      modifies this`ev, this`reeling, ring
      ensures Ok(View()) && View() == old(View()).(ev := START_EVENT, reeling := true)
      ensures ring.Valid() && ring.Aligned() && ring.Settled() && ring.Unread() == old(ring.Unread())
    {
      hide RingBuffer.Valid, Ok;
      HandleBadHeader();
      ring.ReleaseWords();
    }

    /** What is gone from the front of `stream` has been fed to `start`. */
    ghost predicate Consumed(start: Parser, stream: seq<bv8>, ready: bool, hdr: Header)
      requires Ok(start)
      reads this, eventData, ring, ring.buffer
    {
      && ring.Valid() && |ring.Unread()| <= |stream|
      && ring.Unread() == stream[|stream| - |ring.Unread()|..]
      && HasFed(start, stream, |stream| - |ring.Unread()|, ready, hdr)
    }

    /** The parse of `stream` has failed: the flag is set, and at least what is behind the word that failed is unread. */
    ghost predicate Failed(start: Parser, stream: seq<bv8>)
      requires Ok(start)
      reads this, eventData, ring, ring.buffer
    {
      && ring.Valid() && ring.Aligned() && ring.Settled()
      && |ring.Unread()| <= |stream| && ring.Unread() == stream[|stream| - |ring.Unread()|..]
      && reeling && Ok(View()) && View() == FeedAll(start, WordsOf(stream))
      && SearchesFrom(Fontus(), start, stream, |stream| - |ring.Unread()|)
    }

    lemma {:induction false} ConsumedIs(start: Parser, stream: seq<bv8>, n: nat, ready: bool, hdr: Header)
      requires Ok(start) && ring.Valid() && n <= |stream| && ring.Unread() == stream[n..]
      requires HasFed(start, stream, n, ready, hdr)
      ensures Consumed(start, stream, ready, hdr)
    {
      hide HasFed, RingBuffer.Valid, Ok;
    }

    static lemma HeaderChecks(h: Header, crc: bv32)
      requires crc == Crc32.Crc(0, HeaderCrcBytes(h))
      ensures GoodHeader(h) <==> h.crc == crc && h.magicNumber == FONTUS_MAGIC_VALUE
    {
    }

    /** All of the header is in: check it. */
    method CheckReadHeader(ghost start: Parser, ghost stream: seq<bv8>) returns (good: bool)
      requires Ok(start) && !start.reeling && InHeader(start, stream) && ev.headerBytesRead == FONTUS_HEADER_SIZE
      requires eventData.Length == EVENT_BUFFER_SIZE && eventData != ring.buffer
      modifies this`ev, this`reeling, ring
      ensures ring.Valid() && ring.Aligned() && ring.Settled() && Ok(View())
      ensures ring.Unread() == old(ring.Unread())
      ensures if good then !reeling && ev == old(ev) && Consumed(start, stream, false, BLANK_HEADER) else reeling && Failed(start, stream)
    {
      hide GoodHeader, FeedAll, RingBuffer.Valid, HasFed, InHeader, WordsOf, RingBuffer.Aligned, Ok, Whole, Consumed, BetweenCalls, NotPast, SearchesFrom, Fontus, HasRead;
      HeaderIsFed(start, stream);
      var crc := CalcHeaderCrc(ev.header);
      HeaderChecks(ev.header, crc);
      good := ev.header.crc == crc && ev.header.magicNumber == FONTUS_MAGIC_VALUE;
      if !good {
        TrashEvent();
      }
    }

    /** The first half of fontus_read_proc: true if a good header is in and the waveforms are next. */
    method ReadCheckedHeader() returns (complete: bool)
      requires Valid() && BetweenCalls() && !reeling
      modifies this, eventData, ring
      ensures ring.Valid() && ring.Aligned() && ring.Settled() && Ok(View())
      ensures !reeling ==> Consumed(old(View()), old(ring.Unread()), false, BLANK_HEADER)
      ensures complete ==> !reeling && ev.headerBytesRead == FONTUS_HEADER_SIZE
      ensures !complete && !reeling ==> BetweenCalls() && |ring.Unread()| < 4
      ensures reeling ==> Failed(old(View()), old(ring.Unread()))
      ensures |ring.Unread()| <= |old(ring.Unread())|
      ensures old(ev).headerBytesRead < FONTUS_HEADER_SIZE && |old(ring.Unread())| >= 4 ==> |ring.Unread()| < |old(ring.Unread())|
    {
      ghost var start, stream := View(), ring.Unread();
      assert !start.reeling && eventData.Length == EVENT_BUFFER_SIZE && eventData != ring.buffer && ev.headerBytesRead <= FONTUS_HEADER_SIZE;
      hide GoodHeader, FeedAll, RingBuffer.Valid, HasFed, InHeader, WordsOf, RingBuffer.Aligned, Ok, Whole, Consumed, BetweenCalls, NotPast, SearchesFrom, Fontus, View, Failed;
      complete := ReadHeader();
      if complete {
        complete := CheckReadHeader(start, stream);
      } else {
        HeaderIsFed(start, stream);
      }
    }

    /** The second half of fontus_read_proc, behind a good header. */
    method ReadRest(ghost start: Parser, ghost stream: seq<bv8>) returns (ready: bool, hdr: Header)
      requires Valid() && ring.Settled() && !reeling && ev.headerBytesRead == FONTUS_HEADER_SIZE
      requires Ok(start) && Consumed(start, stream, false, BLANK_HEADER)
      modifies this, eventData, ring
      ensures ring.Valid() && ring.Aligned() && ring.Settled()
      ensures if ready then !reeling && ev == START_EVENT else Ok(View())
      ensures !reeling ==> BetweenCalls() && Consumed(start, stream, ready, hdr) && (old(ring.Unread()) != [] ==> |ring.Unread()| < |old(ring.Unread())|)
      ensures |ring.Unread()| <= |old(ring.Unread())|
      ensures reeling ==> Failed(start, stream)
    {
      hide GoodHeader, FeedAll, RingBuffer.Valid, HasFed, WordsOf, RingBuffer.Aligned, View, Ok, Consumed, Header.Length, RingBuffer.Unread, Whole;
      ghost var middle, rest := View(), ring.Unread();
      ReelingIsViewed();
      ConsumedMeans(start, stream, false, BLANK_HEADER);
      ready, hdr := ReadBody();
      BodyConsumed(start, middle, stream, rest, ready, hdr);
    }

    /**
     fontus_read_proc. Unless it sets the reeling flag, the words it consumes from the ring buffer
     take the builder exactly where the word-at-a-time parser goes; it sets the flag only
     when that parser would have failed on the bytes that were readable.
     */
    method FontusReadProc() returns (ready: bool, hdr: Header)
      requires Valid() && BetweenCalls() && !reeling
      modifies this, eventData, ring
      ensures ring.Valid() && ring.Aligned() && ring.Settled()
      ensures if ready then !reeling && ev == START_EVENT else Ok(View())
      ensures !reeling ==> BetweenCalls() && Consumed(old(View()), old(ring.Unread()), ready, hdr)
      ensures |ring.Unread()| <= |old(ring.Unread())|
      ensures (!reeling || old(ev).headerBytesRead < FONTUS_HEADER_SIZE) && |old(ring.Unread())| >= 4 ==>
        |ring.Unread()| < |old(ring.Unread())|
      ensures reeling ==> Failed(old(View()), old(ring.Unread()))
    {
      hide GoodHeader, FeedAll, RingBuffer.Valid, HasFed, WordsOf, RingBuffer.Aligned, View, Ok, Consumed, BetweenCalls, Whole;
      ghost var start, stream := View(), ring.Unread();
      var complete := ReadCheckedHeader();
      if !reeling {
        ConsumedMeans(start, stream, false, BLANK_HEADER);
      }
      if !complete {
        return false, BLANK_HEADER;
      }
      ready, hdr := ReadRest(start, stream);
    }

    lemma {:induction false} FailedMeans(start: Parser, stream: seq<bv8>)
      requires Ok(start) && Failed(start, stream)
      ensures FeedAll(start, WordsOf(stream)).reeling
      ensures |ring.Unread()| <= |stream| && SearchesFrom(Fontus(), start, stream, |stream| - |ring.Unread()|)
    {
      hide FeedAll, RingBuffer.Valid, Ok, WordsOf, NotPast, SearchesFrom, Fontus;
    }

    lemma {:induction false} ConsumedMeans(start: Parser, stream: seq<bv8>, ready: bool, hdr: Header)
      requires Ok(start) && Consumed(start, stream, ready, hdr)
      ensures |ring.Unread()| <= |stream| && ring.Unread() == stream[|stream| - |ring.Unread()|..]
      ensures ready ==> numBytes <= eventData.Length
      ensures !ready ==>
        var n := |stream| - |ring.Unread()|;
        Whole(n) && View() == FeedAll(start, WordsOf(stream[..n])) && Ok(View())
    {
      hide FeedAll, RingBuffer.Valid;
    }

    /** The header was consumed up to `rest`, and the waveform loop went on from there. */
    lemma {:induction false} BodyConsumed(start: Parser, middle: Parser, stream: seq<bv8>, rest: seq<bv8>, ready: bool, hdr: Header)
      requires Ok(start) && ring.Valid() && |rest| <= |stream|
      requires Whole(|stream| - |rest|) && rest == stream[|stream| - |rest|..]
      requires middle == FeedAll(start, WordsOf(stream[..|stream| - |rest|])) && !middle.reeling && middle.ev.headerBytesRead == FONTUS_HEADER_SIZE
      requires !reeling ==> |ring.Unread()| <= |rest| && ring.Unread() == rest[|rest| - |ring.Unread()|..]
      requires !reeling ==> HasFed(middle, rest, |rest| - |ring.Unread()|, ready, hdr)
      requires reeling ==> ring.Unread() == rest && View() == FeedAll(middle, WordsOf(rest))
      ensures !reeling ==> Consumed(start, stream, ready, hdr)
      ensures reeling ==>
        && ring.Unread() == stream[|stream| - |ring.Unread()|..] && View() == FeedAll(start, WordsOf(stream))
        && SearchesFrom(Fontus(), start, stream, |stream| - |ring.Unread()|)
    {
      hide Ok, FeedAll, HasFed, RingBuffer.Valid, Consumed, NotPast, SearchesFrom, Fontus;
      var n := |stream| - |rest|;
      if reeling {
        FeedSplit(start, stream, n);
        BodySearches(start, stream, n);
      } else {
        var m := |rest| - |ring.Unread()|;
        ThenFed(start, middle, stream, n, m, ready, hdr);
        assert stream[n..][m..] == stream[n + m..];
        ConsumedIs(start, stream, n + m, ready, hdr);
      }
    }

    /** After the header loop: either the bytes read are fed, or the header they completed is bad. */
    lemma {:induction false} HeaderIsFed(start: Parser, stream: seq<bv8>)
      requires Ok(start) && !start.reeling && InHeader(start, stream)
      ensures ring.Valid() && ring.Aligned() && ring.Settled() && ring.Size() > FONTUS_HEADER_SIZE
      ensures ev.headerBytesRead < FONTUS_HEADER_SIZE ==> BetweenCalls()
      ensures ev.headerBytesRead == FONTUS_HEADER_SIZE && !GoodHeader(ev.header) ==>
        && |ring.Unread()| < ring.Size() && |ring.Unread()| <= |stream| && ring.Unread() == stream[|stream| - |ring.Unread()|..]
        && View().(ev := START_EVENT, reeling := true) == FeedAll(start, WordsOf(stream))
        && SearchesFrom(Fontus(), start, stream, |stream| - |ring.Unread()|)
      ensures ev.headerBytesRead < FONTUS_HEADER_SIZE || GoodHeader(ev.header) ==>
        !reeling && Ok(View()) && Consumed(start, stream, false, BLANK_HEADER)
    {
      hide FeedAll, WordsOf, RingBuffer.Valid, Header.Length, HeaderCrcBytes, Crc32.Crc;
      var n := |stream| - |ring.Unread()|;
      FeedNone(start, stream);
      if ev.headerBytesRead == FONTUS_HEADER_SIZE && !GoodHeader(ev.header) {
        assert FeedAll(start, WordsOf(stream[..n])).reeling;
        ReelingStays(start, stream, n);
        assert n > 0;
        WholeIsAWord(n);
      }
    }

    lemma {:induction false} ThenFed(start: Parser, middle: Parser, stream: seq<bv8>, n: nat, m: nat, ready: bool, hdr: Header)
      requires Ok(start) && Whole(n) && n <= |stream| && middle == FeedAll(start, WordsOf(stream[..n]))
      requires HasFed(middle, stream[n..], m, ready, hdr)
      ensures HasFed(start, stream, n + m, ready, hdr)
    {
      hide Ok, FeedAll;
      FeedSplit(start, stream[..n + m], n);
      assert stream[..n + m][..n] == stream[..n] && stream[..n + m][n..] == stream[n..][..m];
    }

    // ----- The main loop -----

    /** pull_from_fpga: recvmsg delivers the next `n` bytes, cut to the contiguous free space. */
    method PullFromFpga(net: seq<bv8>, n: nat) returns (pulled: nat)
      requires Valid() && n <= |net| && Whole(n) && ring.Settled()
      modifies ring, ring.buffer
      ensures Valid() && pulled == Min(n, old(ring.Space())) && Whole(pulled)
      ensures ring.ahead == old(ring.ahead) && ring.readPointer == old(ring.readPointer)
      ensures ring.Unread() == old(ring.Unread()) + net[..pulled]
      ensures n > 0 && |old(ring.contents)| < ring.Size() ==> pulled > 0
    {
      hide Ok, RingBuffer.Stores;
      var space := ring.ContiguousSpaceAvailable();
      if space <= 0 {
        return 0;
      }
      pulled := Min(n, space);
      ring.AlignedSpace(space, n);
      ring.Receive(net[..pulled]);
    }

    /** Pull, read, and publish a completed event. */
    method PullAndRead(net: seq<bv8>, n: nat) returns (pulled: nat)
      requires Valid() && BetweenCalls() && !reeling && n <= |net| && Whole(n)
      modifies this, eventData, ring, ring.buffer
      ensures pulled == Min(n, old(ring.Space())) && Whole(pulled) && ring.Valid()
      ensures !reeling ==>
        && Valid() && BetweenCalls()
        && Consumed(old(View()), old(ring.Unread()) + net[..pulled], false, BLANK_HEADER)
      ensures n > 0 ==> old(ring.Unread()) != [] || pulled > 0
      ensures |ring.Unread()| <= |old(ring.Unread())| + pulled
      ensures (!reeling || old(ev).headerBytesRead < FONTUS_HEADER_SIZE) && |old(ring.Unread())| + pulled >= 4 ==>
        |ring.Unread()| < |old(ring.Unread())| + pulled
      ensures reeling ==> Failed(old(View()), old(ring.Unread()) + net[..pulled])
    {
      hide RingBuffer.Valid, FeedAll, Ok, View, WordsOf, Whole, AfterPublish, RingBuffer.Aligned, Consumed;
      ghost var start := View();
      pulled := PullFromFpga(net, n);
      ghost var arrived := ring.Unread();
      var ready, hdr := FontusReadProc();
      ConsumedIsOk(start, arrived, ready, hdr);
      if ready {
        PublishEvent(hdr, start, arrived);
      }
    }

    /**
     One turn of the main loop while it is not reeling. The first `parsed` of the bytes that were unread or
     arrived have been parsed, and those from `kept` on are unread: the same ones, unless the parse failed; then
     at least everything behind the word that failed.
     */
    method Iterate(net: seq<bv8>, n: nat) returns (pulled: nat, ghost parsed: nat, ghost kept: nat)
      requires Valid() && BetweenCalls() && !reeling && n <= |net| && Whole(n)
      modifies this, eventData, ring, ring.buffer
      ensures Valid() && ring.Settled() && pulled == Min(n, old(ring.Space())) && Whole(pulled)
      ensures
        var arrived := old(ring.Unread()) + net[..pulled];
        && parsed <= |arrived| && Whole(parsed) && View() == FeedAll(old(View()), WordsOf(arrived[..parsed]))
        && kept <= parsed && ring.Unread() == arrived[kept..] && (n > 0 ==> arrived != [])
        && SearchesFrom(Fontus(), old(View()), arrived[..parsed], kept)
        && (!reeling ==> BetweenCalls() && parsed == kept)
        && (|arrived| >= 4 && (!reeling || old(ev).headerBytesRead < FONTUS_HEADER_SIZE) ==> kept > 0)
    {
      hide RingBuffer.Valid, FeedAll, Ok, WordsOf, Whole, View, RingBuffer.Aligned, RingBuffer.Unread, RingBuffer.ContiguousReadable, Consumed, NotPast, SearchesFrom, Fontus;
      ghost var start, unread := View(), ring.Unread();
      ring.AlignedBlock();
      pulled := PullAndRead(net, n);
      WholeSum(|unread|, pulled);
      ghost var arrived := unread + net[..pulled];
      if reeling {
        FailedMeans(start, arrived);
        parsed := |arrived|;
        assert arrived[..parsed] == arrived;
      } else {
        ConsumedMeans(start, arrived, false, BLANK_HEADER);
        parsed := |arrived| - |ring.Unread()|;
        assert arrived[..parsed][..parsed] == arrived[..parsed];
        ReelingIsViewed();
        BodySearches(start, arrived[..parsed], parsed);
      }
      kept := |arrived| - |ring.Unread()|;
    }

    lemma {:induction false} ConsumedIsOk(start: Parser, stream: seq<bv8>, ready: bool, hdr: Header)
      requires Ok(start)
      ensures Consumed(start, stream, ready, hdr) && ready ==> numBytes <= eventData.Length
      ensures Consumed(start, stream, ready, hdr) && !ready ==> Ok(View()) && Consumed(start, stream, false, BLANK_HEADER)
    {
      hide FeedAll, WordsOf, RingBuffer.Valid, Ok;
    }

    /** publish_event, then clear the event buffer. */
    method PublishEvent(hdr: Header, ghost start: Parser, ghost stream: seq<bv8>)
      requires numBytes <= eventData.Length && ev == START_EVENT
      requires Ok(start) && Consumed(start, stream, true, hdr)
      modifies this`published, this`numBytes
      ensures Ok(View()) && Consumed(start, stream, false, BLANK_HEADER)
    {
      hide FeedAll, WordsOf, RingBuffer.Valid, Ok;
      published := published + [Event(hdr, eventData[..numBytes])];
      numBytes := 0;
    }

    /**
     find_event_start has looked through `block`, the front of the `unread` bytes. The flag is cleared if and only if
     it holds the marker; then what is unread starts with the first one. Otherwise the block is gone.
     Only when the marker is the first of the bytes that fill the whole ring buffer are they all lost.
     */
    ghost predicate Looked(unread: seq<bv8>, block: seq<bv8>)
      reads this, ring, ring.buffer
    {
      && ring.Valid() && block <= unread && Whole(|block|) && (unread != [] ==> |block| >= 4)
      && var i := FirstMarker(block, FONTUS_MAGIC_VALUE);
      && (reeling <==> i == |block|)
      && if reeling then ring.Unread() == unread[|block|..]
         else ring.ahead == 0 && ring.Unread() == if i == 0 && |unread| == ring.Size() then [] else unread[i..]
    }

    /**
     A turn of the main loop while reeling: pull, and search the contiguous block for an event. Nothing else
     changes; what trashed headers counted stays counted.
     */
    method ReelingTurn(net: seq<bv8>, n: nat) returns (pulled: nat, ghost block: seq<bv8>)
      requires Valid() && ring.Settled() && reeling && n <= |net| && Whole(n)
      modifies this`reeling, ring, ring.buffer
      ensures ring.Valid() && ring.Settled()
      ensures pulled == Min(n, old(ring.Space())) && Whole(pulled) && (n > 0 ==> old(ring.Unread()) != [] || pulled > 0)
      ensures View() == old(View()).(reeling := reeling)
      ensures |block| == Min(|old(ring.Unread())| + pulled, ring.Size() - old(ring.readPointer))
      ensures Looked(old(ring.Unread()) + net[..pulled], block)
      ensures reeling || Whole(ring.readPointer) || Whole(FirstMarker(block, FONTUS_MAGIC_VALUE)) ==> ring.Aligned()
    {
      hide RingBuffer.Valid, RingBuffer.Aligned, Ok, Whole, Looked, FirstMarker;
      pulled := PullFromFpga(net, n);
      block := Search();
    }

    /** find_event_start, and what becomes of the flag. */
    method Search() returns (ghost block: seq<bv8>)
      requires Valid() && ring.Settled() && reeling
      modifies this`reeling, ring
      ensures ring.Valid() && ring.Settled()
      ensures View() == old(View()).(reeling := reeling)
      ensures |block| == Min(|old(ring.Unread())|, ring.Size() - old(ring.readPointer))
      ensures Looked(old(ring.Unread()), block)
      ensures reeling || Whole(ring.readPointer) || Whole(FirstMarker(block, FONTUS_MAGIC_VALUE)) ==> ring.Aligned()
    {
      hide RingBuffer.Valid, RingBuffer.Aligned, Ok, RingBuffer.ContiguousReadable, Whole, FirstMarker, MarkerAt;
      ring.AlignedBlock();
      WholeIsAWord(ring.ContiguousReadable());
      block := ring.Searched();
      var found := ring.FindEventStart(FONTUS_MAGIC_VALUE);
      reeling := !found;
    }

    /** The builder is where parsing the first `used` bytes of `net` leads, and holds the ones up to `delivered`. */
    ghost predicate InStep(start: Parser, net: seq<bv8>, used: nat, delivered: nat)
      requires Ok(start)
      reads this, eventData, ring, ring.buffer
    {
      && Valid() && BetweenCalls() && !reeling
      && used <= delivered <= |net| && Whole(used) && Whole(delivered)
      && ring.Unread() == net[used..delivered]
      && View() == FeedAll(start, WordsOf(net[..used]))
    }

    /** One turn of the main loop on a stream that parses: it stays in step, and makes progress. */
    method Turn(net: seq<bv8>, delivered: nat, n: nat, ghost start: Parser, ghost used: nat)
      returns (delivered': nat, ghost used': nat)
      requires Ok(start) && InStep(start, net, used, delivered) && !FeedAll(start, WordsOf(net)).reeling
      requires n <= |net| - delivered && Whole(n)
      modifies this, eventData, ring, ring.buffer
      ensures InStep(start, net, used', delivered') && used <= used' && delivered <= delivered'
      ensures (used < delivered || n > 0) ==> used < used'
    {
      hide RingBuffer.Valid, FeedAll, Ok, WordsOf, Whole, RingBuffer.Aligned, RingBuffer.Unread, BetweenCalls;
      ghost var parsed, kept;
      var pulled;
      pulled, parsed, kept := Iterate(net[delivered..], n);
      delivered' := delivered + pulled;
      WholeSum(delivered, pulled);
      WholeSum(delivered', used);
      ghost var arrived := net[used..delivered'];
      SliceMore(net, used, delivered, pulled);
      WholeIsAWord(|arrived|);
      FeedOn(start, net, used, delivered', parsed);
      WholeSum(used, parsed);
      if reeling {
        ReelingStays(start, net, used + parsed);
      }
      used' := used + kept;
    }

    /**
     Segmentation independence. Whatever the sizes of the deliveries, once the main loop has drained
     a stream on which the one-shot parse does not fail, the builder is where that parse ends:
     it never went reeling, and it published exactly the events of the one-shot parse. At every
     turn on the way, what it had published was a prefix of them.
     */
    method BuildAll(net: seq<bv8>, sizes: seq<nat>)
      requires Valid() && BetweenCalls() && !reeling && ring.Unread() == []
      requires Whole(|net|) && forall i :: 0 <= i < |sizes| ==> Whole(sizes[i])
      requires !FeedAll(View(), WordsOf(net)).reeling
      modifies this, eventData, ring, ring.buffer
      ensures Valid() && BetweenCalls() && ring.Unread() == []
      ensures View() == FeedAll(old(View()), WordsOf(net))
    {
      hide RingBuffer.Valid, FeedAll, Ok, WordsOf, Whole, RingBuffer.Aligned, RingBuffer.Unread, View, InStep, BetweenCalls;
      ghost var start, used: nat := View(), 0;
      var delivered: nat, turn: nat := 0, 0;
      InStepStarts(net);
      InStepMeans(start, net, used, delivered);
      PublishedSoFar(start, net, used);
      while delivered < |net| || ring.Readable() > 0
        invariant InStep(start, net, used, delivered)
        invariant used <= delivered <= |net| && Whole(delivered) && ring.Valid() && ring.Settled() && ring.Readable() == delivered - used
        invariant View() == FeedAll(start, WordsOf(net[..used])) && published <= FeedAll(start, WordsOf(net)).published
        invariant Valid() && BetweenCalls() && (used == delivered ==> ring.Unread() == [])
        decreases if turn < |sizes| then |sizes| - turn else 0, |net| - used
      {
        var n := if turn < |sizes| then Min(sizes[turn], |net| - delivered) else |net| - delivered;
        WholeSum(|net|, delivered);
        delivered, used := Turn(net, delivered, n, start, used);
        turn := turn + 1;
        InStepMeans(start, net, used, delivered);
        PublishedSoFar(start, net, used);
      }
      assert net[..used] == net;
    }

    lemma {:induction false} InStepStarts(net: seq<bv8>)
      requires Valid() && BetweenCalls() && !reeling && ring.Unread() == []
      ensures InStep(View(), net, 0, 0)
    {
      hide RingBuffer.Valid, FeedAll, Ok, WordsOf;
      FeedNone(View(), net);
      assert net[0..0] == [];
    }

    lemma InStepMeans(start: Parser, net: seq<bv8>, used: nat, delivered: nat)
      requires Ok(start) && InStep(start, net, used, delivered)
      ensures Valid() && BetweenCalls() && ring.Settled() && used <= delivered <= |net| && Whole(used) && Whole(delivered)
      ensures ring.Readable() == delivered - used && (used == delivered ==> ring.Unread() == [])
      ensures View() == FeedAll(start, WordsOf(net[..used])) && published == View().published
    {
      hide RingBuffer.Valid, FeedAll, Ok, WordsOf, Whole;
    }

    /**
     Somewhere in a run on any stream: the pieces of the stream lead to the builder, and the ring buffer
     holds what has been delivered of the rest.
     */
    ghost predicate Held(start: Parser, net: seq<bv8>, pieces: seq<Piece>, delivered: nat)
      requires Ok(start)
      reads this, eventData, ring, ring.buffer
    {
      && ring.Valid() && !start.reeling && delivered <= |net| && Whole(delivered)
      && pieces != [] && Reaches(Fontus(), start, net, ring.Size(), pieces, View())
      && UsedIn(pieces) <= delivered && ring.Unread() == net[UsedIn(pieces)..delivered]
    }

    /** The run can go on. */
    ghost predicate InRun(start: Parser, net: seq<bv8>, pieces: seq<Piece>, delivered: nat)
      requires Ok(start)
      reads this, eventData, ring, ring.buffer
    {
      Valid() && ring.Settled() && (!reeling ==> BetweenCalls()) && Held(start, net, pieces, delivered)
    }

    /** A body leads to the search at least, the search to a header at least, and in a header every turn uses some bytes. */
    ghost function Phase(): nat
      reads this
    {
      if reeling then 1 else if ev.headerBytesRead < FONTUS_HEADER_SIZE then 0 else 2
    }

    /** A turn that parses lengthens the last piece. */
    method ParsingTurn(net: seq<bv8>, delivered: nat, n: nat, ghost start: Parser, ghost pieces: seq<Piece>)
      returns (delivered': nat, ghost pieces': seq<Piece>)
      requires Ok(start) && InRun(start, net, pieces, delivered) && !reeling
      requires n <= |net| - delivered && Whole(n)
      modifies this, eventData, ring, ring.buffer
      ensures InRun(start, net, pieces', delivered') && delivered <= delivered' && UsedIn(pieces) <= UsedIn(pieces')
      ensures UsedIn(pieces) < delivered || n > 0 ==> UsedIn(pieces) < UsedIn(pieces') || Phase() < old(Phase())
    {
      hide RingBuffer.Valid, FeedAll, Ok, WordsOf, Whole, View, RingBuffer.Aligned, RingBuffer.Unread, Reaches, Fontus, IsMachine, Parses, NotPast, SearchesFrom, Held, UsedIn;
      HeldMeans(start, net, pieces, delivered);
      ghost var middle, used := View(), UsedIn(pieces);
      ring.AlignedBlock();
      ghost var parsed, kept;
      var pulled;
      pulled, parsed, kept := Iterate(net[delivered..], n);
      delivered' := delivered + pulled;
      WholeSum(delivered, pulled);
      SliceMore(net, used, delivered, pulled);
      WholeSum(|net[used..delivered]|, pulled);
      WholeIsAWord(|net[used..delivered']|);
      pieces' := AfterParse(start, net, pieces, delivered', middle, parsed, kept);
    }

    lemma HeldMeans(start: Parser, net: seq<bv8>, pieces: seq<Piece>, delivered: nat)
      requires Ok(start) && Held(start, net, pieces, delivered)
      ensures pieces != [] && UsedIn(pieces) <= delivered <= |net| && Whole(delivered) && !start.reeling && ring.Valid()
      ensures Reaches(Fontus(), start, net, ring.Size(), pieces, View()) && View().reeling == reeling
      ensures ring.Unread() == net[UsedIn(pieces)..delivered]
    {
      hide Ok, Reaches, RingBuffer.Valid, Fontus;
    }

    /** What was parsed lengthens the last piece. */
    lemma {:induction false} AfterParse(
      start: Parser, net: seq<bv8>, pieces: seq<Piece>, delivered: nat, q: Parser, parsed: nat, kept: nat)
      returns (pieces': seq<Piece>)
      requires Ok(start) && !start.reeling && pieces != [] && Reaches(Fontus(), start, net, ring.Size(), pieces, q) && Ok(q) && !q.reeling
      requires UsedIn(pieces) <= delivered <= |net| && Whole(delivered) && ring.Valid()
      requires
        var arrived := net[UsedIn(pieces)..delivered];
        && kept <= parsed <= |arrived| && Whole(parsed) && View() == FeedAll(q, WordsOf(arrived[..parsed]))
        && ring.Unread() == arrived[kept..] && SearchesFrom(Fontus(), q, arrived[..parsed], kept) && (!reeling ==> parsed == kept)
      ensures pieces' != [] && Held(start, net, pieces', delivered) && UsedIn(pieces') == UsedIn(pieces) + kept
    {
      hide RingBuffer.Valid, FeedAll, Ok, WordsOf, Whole, View, RingBuffer.Unread, Reaches, Fontus, NotPast, SearchesFrom, UsedIn;
      ReelingIsViewed();
      assert net[UsedIn(pieces)..delivered][..parsed] == net[UsedIn(pieces)..UsedIn(pieces) + parsed];
      pieces' := ReachesFeeding(start, net, ring.Size(), pieces, q, parsed, kept);
    }

    /** A turn that searches begins a new piece if it finds an event; `aligned` unless that is off the word boundaries. */
    method SearchingTurn(net: seq<bv8>, delivered: nat, n: nat, ghost start: Parser, ghost pieces: seq<Piece>)
      returns (delivered': nat, aligned: bool, ghost pieces': seq<Piece>)
      requires Ok(start) && InRun(start, net, pieces, delivered) && reeling && numBytes <= MAX_STALE
      requires n <= |net| - delivered && Whole(n)
      modifies this`reeling, ring, ring.buffer
      ensures Held(start, net, pieces', delivered') && delivered <= delivered' && UsedIn(pieces) <= UsedIn(pieces')
      ensures pieces' != []
      ensures if aligned then InRun(start, net, pieces', delivered') else !Whole(pieces'[|pieces'| - 1].from)
      ensures UsedIn(pieces) < delivered || n > 0 ==> UsedIn(pieces) < UsedIn(pieces') || Phase() < old(Phase())
    {
      hide RingBuffer.Valid, FeedAll, Ok, WordsOf, Whole, RingBuffer.Aligned, RingBuffer.Unread, Reaches, Fontus, IsMachine, RingBuffer.ContiguousReadable, FirstMarker;
      ghost var middle, used := View(), UsedIn(pieces);
      ring.AlignedBlock();
      ResumeIsOk(middle);
      ghost var block;
      var pulled;
      pulled, block := ReelingTurn(net[delivered..], n);
      delivered' := delivered + pulled;
      WholeSum(delivered, pulled);
      WholeSum(delivered, |net[used..delivered]|);
      SliceMore(net, used, delivered, pulled);
      aligned := reeling || Whole(ring.readPointer);
      pieces' := AfterSearch(start, net, pieces, delivered', middle, block);
      if ring.Aligned() {
        ring.AlignedReadPointer();
      }
    }

    /** Whether the search found a marker or not. */
    lemma {:induction false} AfterSearch(start: Parser, net: seq<bv8>, pieces: seq<Piece>, delivered: nat, q: Parser, block: seq<bv8>)
      returns (pieces': seq<Piece>)
      requires Ok(start) && !start.reeling && pieces != [] && CanResume(q) && Reaches(Fontus(), start, net, ring.Size(), pieces, q)
      requires UsedIn(pieces) <= delivered <= |net| && Whole(delivered) && Whole(UsedIn(pieces)) && View() == q.(reeling := reeling)
      requires Looked(net[UsedIn(pieces)..delivered], block)
      ensures pieces' != [] && Held(start, net, pieces', delivered) && UsedIn(pieces) <= UsedIn(pieces')
      ensures UsedIn(pieces) < delivered ==> UsedIn(pieces) < UsedIn(pieces') || !reeling
      ensures !reeling && Whole(pieces'[|pieces'| - 1].from) ==> Whole(FirstMarker(block, FONTUS_MAGIC_VALUE))
    {
      hide RingBuffer.Valid, FeedAll, Ok, WordsOf, RingBuffer.Unread, Reaches, Fontus, IsMachine, FirstMarker, View, UsedIn, Whole;
      ReelingIsViewed();
      if reeling {
        pieces' := SearchedInVain(start, net, pieces, delivered, q, block);
      } else {
        pieces' := FoundAgain(start, net, pieces, delivered, q, block);
        if Whole(pieces'[|pieces'| - 1].from) {
          WholeSum(pieces'[|pieces'| - 1].from, UsedIn(pieces));
        }
      }
    }

    /** The search went on. */
    lemma {:induction false} SearchedInVain(start: Parser, net: seq<bv8>, pieces: seq<Piece>, delivered: nat, q: Parser, block: seq<bv8>)
      returns (pieces': seq<Piece>)
      requires Ok(start) && !start.reeling && pieces != [] && Reaches(Fontus(), start, net, ring.Size(), pieces, q)
      requires UsedIn(pieces) <= delivered <= |net| && reeling && q == View()
      requires Looked(net[UsedIn(pieces)..delivered], block)
      ensures pieces' != [] && Reaches(Fontus(), start, net, ring.Size(), pieces', q) && UsedIn(pieces') == UsedIn(pieces) + |block| <= delivered
      ensures ring.Unread() == net[UsedIn(pieces')..delivered]
    {
      hide RingBuffer.Valid, FeedAll, Ok, WordsOf, RingBuffer.Unread, Reaches, Fontus, IsMachine, FirstMarker, Parses;
      var used := UsedIn(pieces);
      if block == [] {
        return pieces;
      }
      var b := Block(used, used + |block|);
      assert net[b.from..b.to] == block;
      ReelingIsViewed();
      FontusIsMachine();
      FontusMeans(start, []);
      FontusMeans(q, []);
      pieces' := ReachesSearching(Fontus(), start, net, ring.Size(), pieces, q, b);
    }

    /** The search found a marker. */
    lemma {:induction false} FoundAgain(start: Parser, net: seq<bv8>, pieces: seq<Piece>, delivered: nat, q: Parser, block: seq<bv8>)
      returns (pieces': seq<Piece>)
      requires Ok(start) && !start.reeling && pieces != [] && CanResume(q) && Reaches(Fontus(), start, net, ring.Size(), pieces, q)
      requires UsedIn(pieces) <= delivered <= |net| && !reeling && View() == Resume(q)
      requires Looked(net[UsedIn(pieces)..delivered], block)
      ensures pieces' != [] && Reaches(Fontus(), start, net, ring.Size(), pieces', View()) && UsedIn(pieces) <= UsedIn(pieces') <= delivered
      ensures ring.Unread() == net[UsedIn(pieces')..delivered]
      ensures Whole(pieces'[|pieces'| - 1].from - UsedIn(pieces)) ==> Whole(FirstMarker(block, FONTUS_MAGIC_VALUE))
    {
      hide RingBuffer.Valid, FeedAll, Ok, WordsOf, RingBuffer.Unread, Reaches, Fontus, IsMachine, FirstMarker, Resume, View, CanResume, Whole, UsedIn;
      FontusIsMachine();
      FontusMeans(q, []);
      pieces' := ReachesFound(Fontus(), start, net, ring.Size(), pieces, q, delivered, block);
      ZeroIsWhole();
    }

    lemma {:induction false} RunStarts(net: seq<bv8>)
      requires Valid() && BetweenCalls() && !reeling && ring.Unread() == []
      ensures InRun(View(), net, [FIRST_PIECE], 0)
    {
      hide FeedAll, Ok, WordsOf, RingBuffer.Aligned, Reaches, Fontus, IsMachine, RingBuffer.Valid;
      FontusIsMachine();
      FontusMeans(View(), []);
      ReachesFirst(Fontus(), View(), net, ring.Size());
      assert net[0..0] == [];
    }

    lemma InRunMeans(start: Parser, net: seq<bv8>, pieces: seq<Piece>, delivered: nat)
      requires Ok(start) && InRun(start, net, pieces, delivered)
      ensures delivered <= |net| && Whole(delivered) && Held(start, net, pieces, delivered)
      ensures pieces != [] && UsedIn(pieces) <= delivered
      ensures ring.Valid() && ring.Settled() && |ring.Unread()| == delivered - UsedIn(pieces)
      ensures ring.Readable() == delivered - UsedIn(pieces)
    {
      hide Ok, Reaches, Fontus, IsMachine, RingBuffer.Valid;
    }

    /** All of the stream has been delivered and used; or the code is where this model does not follow it. */
    ghost predicate RunIsOver(net: seq<bv8>, pieces: seq<Piece>, delivered: nat)
      requires pieces != []
      reads this
    {
      || (UsedIn(pieces) == delivered == |net|)
      || !Whole(pieces[|pieces| - 1].from)
      || (reeling && numBytes > MAX_STALE)
    }

    /** Turns of the main loop, parsing or searching, until the stream is used up. */
    method Turns(net: seq<bv8>, sizes: seq<nat>, ghost start: Parser, ghost begun: seq<Piece>)
      returns (delivered: nat, ghost pieces: seq<Piece>)
      requires Ok(start) && InRun(start, net, begun, 0)
      requires Whole(|net|) && forall i :: 0 <= i < |sizes| ==> Whole(sizes[i])
      modifies this, eventData, ring, ring.buffer
      ensures Held(start, net, pieces, delivered) && pieces != [] && RunIsOver(net, pieces, delivered)
    {
      hide RingBuffer.Valid, FeedAll, Ok, WordsOf, Whole, RingBuffer.Aligned, RingBuffer.Unread, Reaches, Fontus, IsMachine, View, InRun, Held, Valid, BetweenCalls, UsedIn;
      var turn: nat := 0;
      delivered, pieces := 0, begun;
      InRunMeans(start, net, pieces, delivered);
      while delivered < |net| || ring.Readable() > 0
        invariant InRun(start, net, pieces, delivered)
        invariant delivered <= |net| && Whole(delivered) && Held(start, net, pieces, delivered)
        invariant pieces != [] && UsedIn(pieces) <= delivered
        invariant ring.Valid() && ring.Settled() && ring.Readable() == delivered - UsedIn(pieces)
        decreases if turn < |sizes| then |sizes| - turn else 0, |net| - UsedIn(pieces), Phase()
      {
        var n := if turn < |sizes| then Min(sizes[turn], |net| - delivered) else |net| - delivered;
        WholeSum(|net|, delivered);
        turn := turn + 1;
        InRunMeans(start, net, pieces, delivered);
        if !reeling {
          delivered, pieces := ParsingTurn(net, delivered, n, start, pieces);
        } else if numBytes <= MAX_STALE {
          var aligned;
          delivered, aligned, pieces := SearchingTurn(net, delivered, n, start, pieces);
          if !aligned {
            return;
          }
        } else {
          return;
        }
        InRunMeans(start, net, pieces, delivered);
      }
    }

    /**
     The main loop on any stream, bad headers and bad words included, whatever the sizes of the deliveries: turns
     are taken until all of the stream has been delivered and used. The builder is then where parsing pieces of the
     stream leads, as for CERES. Unless a full ring buffer was dropped, only the first piece publishes anything: once
     reeling, the builder never finds an event again.
     */
    method Run(net: seq<bv8>, sizes: seq<nat>) returns (delivered: nat, ghost pieces: seq<Piece>)
      requires Valid() && BetweenCalls() && !reeling && ring.Unread() == []
      requires Whole(|net|) && forall i :: 0 <= i < |sizes| ==> Whole(sizes[i])
      modifies this, eventData, ring, ring.buffer
      ensures Held(old(View()), net, pieces, delivered) && pieces != [] && RunIsOver(net, pieces, delivered)
      ensures old(published) <= published
      ensures (forall i :: 0 < i < |pieces| ==> !pieces[i].dropped) ==>
        pieces[0].to <= |net| && published == FeedAll(old(View()), WordsOf(net[..pieces[0].to])).published
    {
      hide RingBuffer.Valid, FeedAll, Ok, WordsOf, Whole, RingBuffer.Aligned, RingBuffer.Unread, Reaches, Fontus, IsMachine, InRun, BetweenCalls, RunIsOver;
      ghost var start := View();
      RunStarts(net);
      delivered, pieces := Turns(net, sizes, start, [FIRST_PIECE]);
      ReachesGrows(start, net, ring.Size(), pieces, View());
      if forall i :: 0 < i < |pieces| ==> !pieces[i].dropped {
        NeverRecovers(start, net, ring.Size(), pieces, View());
      }
    }
  }
}
