/**
 Whole FONTUS events: whatever is published is a verbatim copy of the words it was made
 of, and an event of the generator is published exactly when it has samples.
 */
module FontusEvents {
  import opened Words
  import opened FontusParser
  import Ceres = CeresParser
  import Events = CeresEvents
  import opened Buffers
  import opened FakeDataGen
  import opened FontusHeaders
  import Crc32

  // ----- Wire format -----

  function LengthWord(h: Header): bv32 {
    (h.length as bv32 << 16) | (h.deviceNumber as bv32 << 8) | h.triggerFlags as bv32
  }

  /** The thirteen header words, as fontus_interpret_header_word takes them apart. */
  function HeaderWords(h: Header): (ws: seq<bv32>)
    ensures |ws| == 13
  {
    [h.magicNumber, h.trigNumber, Ceres.HighWord(h.clock), Ceres.LowWord(h.clock), LengthWord(h), h.selfTriggerWord,
     Ceres.HighWord(h.beamTriggerTime), Ceres.LowWord(h.beamTriggerTime), Ceres.HighWord(h.ledTriggerTime),
     Ceres.LowWord(h.ledTriggerTime), Ceres.HighWord(h.ctTime), Ceres.LowWord(h.ctTime), h.crc]
  }

  function WaveformsWords(waves: seq<seq<bv32>>, k: nat): seq<bv32>
    requires k <= |waves| == NUM_WAVEFORMS
  {
    if k == 0 then [] else WaveformsWords(waves, k - 1) + [ChannelMarker(k - 1)] + waves[k - 1]
  }

  function EventWords(h: Header, waves: seq<seq<bv32>>): seq<bv32>
    requires |waves| == NUM_WAVEFORMS
  {
    HeaderWords(h) + WaveformsWords(waves, NUM_WAVEFORMS)
  }

  ghost predicate AreWaves(waves: seq<seq<bv32>>, length: nat) {
    |waves| == NUM_WAVEFORMS && forall c :: 0 <= c < NUM_WAVEFORMS ==> |waves[c]| == length
  }

  // ----- Header -----

  /** What `n` header words make of a struct. */
  function HeaderFrom(before: Header, ws: seq<bv32>, n: nat): Header
    requires n <= |ws|
  {
    if n == 0 then before else InterpretHeaderWord(HeaderFrom(before, ws, n - 1), ws[n - 1], n - 1)
  }

  function HeaderAfter(ws: seq<bv32>, n: nat): Header
    requires n <= |ws|
  {
    HeaderFrom(BLANK_HEADER, ws, n)
  }

  lemma HighAndLow(was: bv64, t: bv64)
    ensures Ceres.WithLow(Ceres.WithHigh(was, Ceres.HighWord(t)), Ceres.LowWord(t)) == t
  {
  }

  lemma LengthWordFields(h: Header)
    ensures LengthOf(LengthWord(h)) == h.length && DeviceOf(LengthWord(h)) == h.deviceNumber && FlagsOf(LengthWord(h)) == h.triggerFlags
  {
  }

  /** What the first five header words carry. */
  function FirstFields(before: Header, h: Header): Header {
    before.(magicNumber := h.magicNumber, trigNumber := h.trigNumber, clock := h.clock,
            length := h.length, deviceNumber := h.deviceNumber, triggerFlags := h.triggerFlags)
  }

  lemma {:induction false} ClockRead(before: Header, h: Header)
    ensures HeaderFrom(before, HeaderWords(h), 4) == before.(magicNumber := h.magicNumber, trigNumber := h.trigNumber, clock := h.clock)
  {
    hide Ceres.WithHigh, Ceres.WithLow, LengthOf, DeviceOf, FlagsOf, LengthWord, Ceres.HighWord, Ceres.LowWord, HeaderFrom;
    HighAndLow(before.clock, h.clock);
    var ws := HeaderWords(h);
    FromNone(before, ws);
    FromNext(before, ws, 0);
    FromNext(before, ws, 1);
    FromNext(before, ws, 2);
    FromNext(before, ws, 3);
  }

  lemma {:induction false} FirstFieldsRead(before: Header, h: Header)
    ensures HeaderFrom(before, HeaderWords(h), 5) == FirstFields(before, h)
  {
    hide Ceres.WithHigh, Ceres.WithLow, LengthOf, DeviceOf, FlagsOf, LengthWord, Ceres.HighWord, Ceres.LowWord, HeaderFrom;
    LengthWordFields(h);
    ClockRead(before, h);
    FromNext(before, HeaderWords(h), 4);
  }

  /** What the next three add. */
  function MiddleFields(before: Header, h: Header): Header {
    FirstFields(before, h).(selfTriggerWord := h.selfTriggerWord, beamTriggerTime := h.beamTriggerTime)
  }

  lemma {:induction false} MiddleFieldsRead(before: Header, h: Header)
    ensures HeaderFrom(before, HeaderWords(h), 8) == MiddleFields(before, h)
  {
    hide Ceres.WithHigh, Ceres.WithLow, LengthOf, DeviceOf, FlagsOf, LengthWord, Ceres.HighWord, Ceres.LowWord, HeaderFrom;
    HighAndLow(before.beamTriggerTime, h.beamTriggerTime);
    var ws := HeaderWords(h);
    FirstFieldsRead(before, h);
    FromNext(before, ws, 5);
    FromNext(before, ws, 6);
    FromNext(before, ws, 7);
  }

  /** The header words carry the whole header, whatever the struct held before. */
  lemma {:induction false} HeaderRoundTrip(before: Header, h: Header)
    ensures HeaderFrom(before, HeaderWords(h), 13) == h
  {
    hide Ceres.WithHigh, Ceres.WithLow, LengthOf, DeviceOf, FlagsOf, LengthWord, Ceres.HighWord, Ceres.LowWord, HeaderFrom;
    HighAndLow(before.ledTriggerTime, h.ledTriggerTime);
    HighAndLow(before.ctTime, h.ctTime);
    var ws := HeaderWords(h);
    MiddleFieldsRead(before, h);
    FromNext(before, ws, 8);
    FromNext(before, ws, 9);
    FromNext(before, ws, 10);
    FromNext(before, ws, 11);
    FromNext(before, ws, 12);
  }

  lemma {:induction false} FromNone(before: Header, ws: seq<bv32>)
    ensures HeaderFrom(before, ws, 0) == before
  {
  }

  lemma {:induction false} FromNext(before: Header, ws: seq<bv32>, n: nat)
    requires n < |ws|
    ensures HeaderFrom(before, ws, n + 1) == InterpretHeaderWord(HeaderFrom(before, ws, n), ws[n], n)
  {
    hide InterpretHeaderWord;
  }

  lemma {:induction false} AfterNone(ws: seq<bv32>)
    ensures HeaderAfter(ws, 0) == BLANK_HEADER
  {
  }

  lemma {:induction false} AfterNext(ws: seq<bv32>, n: nat)
    requires n < |ws|
    ensures HeaderAfter(ws, n + 1) == InterpretHeaderWord(HeaderAfter(ws, n), ws[n], n)
  {
    hide InterpretHeaderWord, HeaderFrom;
    FromNext(BLANK_HEADER, ws, n);
  }

  lemma {:induction false} WordsMakeHeader(h: Header)
    ensures HeaderAfter(HeaderWords(h), 13) == h
  {
    hide HeaderFrom, HeaderWords;
    HeaderRoundTrip(BLANK_HEADER, h);
  }

  // ----- Copying -----

  /** Between events, with nothing counted. */
  ghost predicate Clean(p: Parser) {
    Ok(p) && !p.reeling && p.ev == START_EVENT && p.numBytes == 0
  }

  /** The words of the event so far have been copied to the front of the event buffer, and the header made of them. */
  ghost predicate Copied(q: Parser, ws: seq<bv32>) {
    && |q.data| == EVENT_BUFFER_SIZE && !q.reeling
    && q.numBytes == 4 * |ws| <= EVENT_BUFFER_SIZE && q.data[..q.numBytes] == Flatten(ws)
    && q.ev.headerBytesRead <= FONTUS_HEADER_SIZE
    && (q.ev.headerBytesRead < FONTUS_HEADER_SIZE ==> q.numBytes == q.ev.headerBytesRead && q.ev.header == HeaderAfter(ws, |ws|))
    && (q.ev.headerBytesRead == FONTUS_HEADER_SIZE ==>
          |ws| == 13 + Stored(q.ev) && q.ev.header == HeaderAfter(ws, 13))
  }

  lemma StoredAtEnd(data: seq<bv8>, ws: seq<bv32>, w: bv32)
    requires 4 * |ws| + 4 <= |data| && data[..4 * |ws|] == Flatten(ws)
    ensures StoreWord(data, 4 * |ws|, w)[..4 * |ws| + 4] == Flatten(ws + [w])
  {
    hide ToBytes, Flatten;
    FlattenOne(w);
    FlattenConcat(ws, [w]);
  }

  lemma {:induction false} HeaderAfterPrefix(ws: seq<bv32>, w: bv32, n: nat)
    requires n <= |ws|
    ensures HeaderAfter(ws + [w], n) == HeaderAfter(ws, n)
    decreases n
  {
    hide InterpretHeaderWord;
    if n > 0 {
      HeaderAfterPrefix(ws, w, n - 1);
    }
  }

  lemma {:induction false} CopyHeaderWord(q: Parser, ws: seq<bv32>, w: bv32)
    requires Ok(q) && Copied(q, ws) && q.ev.headerBytesRead < FONTUS_HEADER_SIZE && !FeedHeader(q, w).reeling
    ensures Copied(FeedHeader(q, w), ws + [w])
  {
    hide GoodHeader, InterpretHeaderWord, StoreWord, Flatten, HeaderAfter;
    StoredAtEnd(q.data, ws, w);
    HeaderAfterPrefix(ws, w, |ws|);
    AfterNext(ws + [w], |ws|);
    assert (ws + [w])[|ws|] == w;
  }

  /** The place of the next word is where the copy ends. */
  lemma PlaceIsEnd(ev: EventInProgress, isample: nat)
    requires isample == if ev.wfHeaderRead then ev.samplesRead else 0
    ensures Offset(ev.currentChannel, ev.header.Length(), isample) == FONTUS_HEADER_SIZE + 4 * Stored(ev)
  {
    hide Header.Length;
  }

  lemma {:induction false} CopyBodyWord(q: Parser, ws: seq<bv32>, w: bv32)
    requires Ok(q) && Copied(q, ws) && q.ev.headerBytesRead == FONTUS_HEADER_SIZE && !FeedBody(q, w).reeling
    requires q.ev.header.Length() > 0
    ensures Copied(FeedBody(q, w), ws + [w])
  {
    hide GoodHeader, StoreWord, Flatten, HeaderAfter, ChannelMarker, Header.Length, Offset, Stored;
    var isample := if q.ev.wfHeaderRead then q.ev.samplesRead else 0;
    PlaceIsEnd(q.ev, isample);
    OffsetFits(q.ev.currentChannel, q.ev.header.Length(), isample);
    StoredAtEnd(q.data, ws, w);
    HeaderAfterPrefix(ws, w, 13);
    StoredNext(q.ev, FeedBody(q, w).ev);
  }

  lemma StoredNext(a: EventInProgress, b: EventInProgress)
    requires a.header.Length() > 0 && (a.wfHeaderRead ==> 1 <= a.samplesRead <= a.header.Length())
    requires b == if !a.wfHeaderRead then a.(wfHeaderRead := true, samplesRead := 1)
                  else if a.samplesRead == a.header.Length() then a.(currentChannel := a.currentChannel + 1, samplesRead := 0, wfHeaderRead := false)
                  else a.(samplesRead := a.samplesRead + 1)
    ensures Stored(b) == Stored(a) + 1
  {
    hide Header.Length;
    Ceres.NextChannel(a.currentChannel, a.header.Length() + 1);
  }

  /** The event after `ws`, just before it is published when it is complete. */
  ghost function After(p: Parser, ws: seq<bv32>): (q: Parser)
    decreases |ws|
  {
    if ws == [] then p
    else
      var q := After(p, ws[..|ws| - 1]);
      if !Ok(q) || q.reeling then q
      else if q.ev.headerBytesRead < FONTUS_HEADER_SIZE then FeedHeader(q, ws[|ws| - 1])
      else FeedBody(q, ws[|ws| - 1])
  }

  /** All words belong to one event, which has samples. */
  ghost predicate IsOneEvent(p: Parser, ws: seq<bv32>)
    decreases |ws|
  {
    if ws == [] then Ok(p)
    else
      var q := After(p, ws[..|ws| - 1]);
      && IsOneEvent(p, ws[..|ws| - 1]) && Ok(q) && !After(p, ws).reeling
      && (q.ev.headerBytesRead == FONTUS_HEADER_SIZE ==> q.ev.header.Length() > 0)
  }

  lemma {:induction false} CopiedSoFar(p: Parser, ws: seq<bv32>)
    requires Clean(p) && IsOneEvent(p, ws)
    ensures Copied(After(p, ws), ws) && After(p, ws).published == p.published
    decreases |ws|
  {
    hide FeedHeader, FeedBody, EventOk;
    if ws == [] {
      AfterNone([]);
    } else {
      hide Copied, Ok;
      var n := |ws| - 1;
      var q := After(p, ws[..n]);
      CopiedSoFar(p, ws[..n]);
      assert ws[..n] + [ws[n]] == ws;
      CopiedMeans(q, ws[..n]);
      if q.ev.headerBytesRead < FONTUS_HEADER_SIZE {
        CopyHeaderWord(q, ws[..n], ws[n]);
      } else {
        CopyBodyWord(q, ws[..n], ws[n]);
      }
    }
  }

  lemma CopiedMeans(q: Parser, ws: seq<bv32>)
    requires Copied(q, ws)
    ensures q.ev.headerBytesRead <= FONTUS_HEADER_SIZE && !q.reeling
  {
    hide EventOk;
  }

  /** As long as an event is in progress, the builder is where After says. */
  lemma {:induction false} FeedIsAfter(p: Parser, ws: seq<bv32>)
    requires Clean(p) && IsOneEvent(p, ws)
    ensures !Complete(After(p, ws)) ==> Ok(After(p, ws)) && FeedAll(p, ws) == After(p, ws)
    ensures Complete(After(p, ws)) ==>
      |After(p, ws).data| == EVENT_BUFFER_SIZE && EventOk(After(p, ws).ev, After(p, ws).numBytes) && FeedAll(p, ws) == Publish(After(p, ws))
    decreases |ws|
  {
    hide EventOk, Publish, GoodHeader, InterpretHeaderWord, ChannelMarker, Store, StoreWord, Header.Length;
    if ws != [] {
      var n := |ws| - 1;
      FeedIsAfter(p, ws[..n]);
      CopiedSoFar(p, ws[..n]);
      CopiedMeans(After(p, ws[..n]), ws[..n]);
      hide FeedHeader, FeedBody;
      if After(p, ws[..n]).ev.headerBytesRead < FONTUS_HEADER_SIZE {
        HeaderIsNotComplete(After(p, ws[..n]), ws[n]);
      }
    }
  }

  lemma {:induction false} HeaderIsNotComplete(q: Parser, w: bv32)
    requires Ok(q) && !q.reeling && q.ev.headerBytesRead < FONTUS_HEADER_SIZE
    ensures !Complete(FeedHeader(q, w))
  {
    hide GoodHeader, InterpretHeaderWord, StoreWord;
  }

  /** `q` is `p` after the event made of `ws` has been published as it came. */
  ghost predicate PublishedCopy(p: Parser, q: Parser, ws: seq<bv32>) {
    && |ws| >= 13 && Clean(q)
    && q.published == p.published + [Event(HeaderAfter(ws, 13), Flatten(ws))]
  }

  /**
   Whatever is published from a clean start is a verbatim copy of the words that made it up, and its header
   is the one that they spell.
   */
  lemma {:induction false} PublishedVerbatim(p: Parser, ws: seq<bv32>)
    requires Clean(p) && IsOneEvent(p, ws) && Complete(After(p, ws))
    ensures PublishedCopy(p, FeedAll(p, ws), ws)
  {
    CopiedSoFar(p, ws);
    FeedIsAfter(p, ws);
    hide FeedAll, HeaderAfter, Flatten, After, IsOneEvent, Header.Length, GoodHeader;
    var q := After(p, ws);
    CountFits(q.ev, q.numBytes);
    assert q.ev.headerBytesRead == FONTUS_HEADER_SIZE by { CompleteHasHeader(q); }
  }

  lemma CompleteHasHeader(q: Parser)
    requires Complete(q) && EventOk(q.ev, q.numBytes)
    ensures q.ev.headerBytesRead == FONTUS_HEADER_SIZE
  {
  }

  // ----- Well-formed events -----

  lemma {:induction false} AfterAppend(p: Parser, ws: seq<bv32>, w: bv32)
    requires Ok(After(p, ws)) && !After(p, ws).reeling
    ensures After(p, ws + [w]) ==
      if After(p, ws).ev.headerBytesRead < FONTUS_HEADER_SIZE then FeedHeader(After(p, ws), w) else FeedBody(After(p, ws), w)
    ensures
      (IsOneEvent(p, ws) && !After(p, ws + [w]).reeling
       && (After(p, ws).ev.headerBytesRead == FONTUS_HEADER_SIZE ==> After(p, ws).ev.header.Length() > 0))
      ==> IsOneEvent(p, ws + [w])
  {
    hide FeedHeader, FeedBody, Ok;
    assert (ws + [w])[..|ws|] == ws && (ws + [w])[|ws|] == w;
  }

  function InHeader(h: Header, n: nat): EventInProgress { START_EVENT.(header := h, headerBytesRead := 4 * n) }

  function AtWave(h: Header, c: nat): EventInProgress { EventInProgress(h, FONTUS_HEADER_SIZE, c, false, 0) }

  /** The builder has read `ws` of one event and is at `ev` now, with more to come unless the event is complete. */
  ghost predicate IsAt(p: Parser, ws: seq<bv32>, ev: EventInProgress) {
    && IsOneEvent(p, ws) && After(p, ws).ev == ev && !After(p, ws).reeling
    && (ev.currentChannel < NUM_WAVEFORMS ==> Ok(After(p, ws)))
  }

  lemma {:induction false} HeaderStep(q: Parser, w: bv32, h: Header, n: nat)
    requires Ok(q) && !q.reeling && n < 13 && q.ev == InHeader(h, n)
    requires n == 12 ==> GoodHeader(InterpretHeaderWord(h, w, n))
    ensures !FeedHeader(q, w).reeling && FeedHeader(q, w).ev == InHeader(InterpretHeaderWord(h, w, n), n + 1)
  {
    hide GoodHeader, InterpretHeaderWord, StoreWord;
  }

  lemma {:induction false} HeaderRead(p: Parser, ws: seq<bv32>, n: nat)
    requires Clean(p) && n <= |ws| == 13 && (n == 13 ==> GoodHeader(HeaderAfter(ws, 13)))
    ensures IsAt(p, ws[..n], InHeader(HeaderAfter(ws, n), n))
    decreases n
  {
    hide GoodHeader, InterpretHeaderWord, FeedHeader, FeedBody, HeaderAfter, EventOk;
    if n == 0 {
      AfterNone(ws);
    } else {
      HeaderRead(p, ws, n - 1);
      AfterNext(ws, n - 1);
      HeaderStep(After(p, ws[..n - 1]), ws[n - 1], HeaderAfter(ws, n - 1), n - 1);
      AfterAppend(p, ws[..n - 1], ws[n - 1]);
      assert ws[..n - 1] + [ws[n - 1]] == ws[..n];
    }
  }

  /** The event in progress after one more word that belongs there. */
  function NextEv(ev: EventInProgress): EventInProgress {
    if !ev.wfHeaderRead then ev.(wfHeaderRead := true, samplesRead := 1)
    else if ev.samplesRead == ev.header.Length() then ev.(currentChannel := ev.currentChannel + 1, samplesRead := 0, wfHeaderRead := false)
    else ev.(samplesRead := ev.samplesRead + 1)
  }

  lemma {:induction false} BodyStep(p: Parser, ws: seq<bv32>, w: bv32, ev: EventInProgress)
    requires IsAt(p, ws, ev) && ev.headerBytesRead == FONTUS_HEADER_SIZE && ev.currentChannel < NUM_WAVEFORMS
    requires ev.header.Length() > 0 && (!ev.wfHeaderRead ==> w == ChannelMarker(ev.currentChannel))
    ensures IsAt(p, ws + [w], NextEv(ev))
  {
    hide GoodHeader, Store, ChannelMarker, Header.Length, FeedHeader;
    AfterAppend(p, ws, w);
  }

  lemma {:induction false} WaveRead(p: Parser, base: seq<bv32>, h: Header, c: nat, wave: seq<bv32>, k: nat)
    requires c < NUM_WAVEFORMS && IsAt(p, base, AtWave(h, c)) && k <= |wave| == h.Length() && k > 0
    ensures IsAt(p, base + [ChannelMarker(c)] + wave[..k],
                 if k == |wave| then AtWave(h, c + 1) else EventInProgress(h, FONTUS_HEADER_SIZE, c, true, k + 1))
    decreases k
  {
    hide IsAt, ChannelMarker, Header.Length;
    var before := base + [ChannelMarker(c)] + wave[..k - 1];
    if k == 1 {
      BodyStep(p, base, ChannelMarker(c), AtWave(h, c));
      assert before == base + [ChannelMarker(c)];
    } else {
      WaveRead(p, base, h, c, wave, k - 1);
    }
    BodyStep(p, before, wave[k - 1], EventInProgress(h, FONTUS_HEADER_SIZE, c, true, k));
    assert before + [wave[k - 1]] == base + [ChannelMarker(c)] + wave[..k];
  }

  lemma {:induction false} WavesRead(p: Parser, h: Header, waves: seq<seq<bv32>>, k: nat)
    requires Clean(p) && GoodHeader(h) && AreWaves(waves, h.Length()) && h.Length() > 0 && k <= NUM_WAVEFORMS
    ensures IsAt(p, HeaderWords(h) + WaveformsWords(waves, k), AtWave(h, k))
    decreases k
  {
    hide IsAt, ChannelMarker, Header.Length, HeaderWords, Clean, GoodHeader;
    var hw := HeaderWords(h);
    if k == 0 {
      WordsMakeHeader(h);
      HeaderRead(p, hw, 13);
      assert hw[..13] == hw && hw + [] == hw;
      assert WaveformsWords(waves, 0) == [];
    } else {
      WavesRead(p, h, waves, k - 1);
      var base := hw + WaveformsWords(waves, k - 1);
      var wave := waves[k - 1];
      WaveRead(p, base, h, k - 1, wave, |wave|);
      assert wave[..|wave|] == wave;
      assert hw + WaveformsWords(waves, k) == base + [ChannelMarker(k - 1)] + wave;
    }
  }

  /** Without samples the first waveform never ends: the builder takes every word and does nothing. */
  lemma {:induction false} ZeroLengthIsStuck(p: Parser, ws: seq<bv32>)
    requires Ok(p) && !p.reeling && p.ev.headerBytesRead == FONTUS_HEADER_SIZE && p.ev.wfHeaderRead && p.ev.header.Length() == 0
    ensures FeedAll(p, ws) == p
    decreases |ws|
  {
    hide GoodHeader, Header.Length;
    if ws != [] {
      ZeroLengthIsStuck(p, ws[..|ws| - 1]);
    }
  }

  lemma {:induction false} EmptyWaves(waves: seq<seq<bv32>>)
    requires AreWaves(waves, 0)
    ensures WaveformsWords(waves, NUM_WAVEFORMS) == [ChannelMarker(0)] + [ChannelMarker(1), ChannelMarker(2), ChannelMarker(3)]
  {
    hide ChannelMarker;
    assert WaveformsWords(waves, 1) == WaveformsWords(waves, 0) + [ChannelMarker(0)] + waves[0] == [ChannelMarker(0)];
    assert WaveformsWords(waves, 2) == WaveformsWords(waves, 1) + [ChannelMarker(1)] + waves[1];
    assert WaveformsWords(waves, 3) == WaveformsWords(waves, 2) + [ChannelMarker(2)] + waves[2];
    assert WaveformsWords(waves, 4) == WaveformsWords(waves, 3) + [ChannelMarker(3)] + waves[3];
  }

  lemma {:induction false} HeaderIsFed(p: Parser, h: Header)
    requires Clean(p) && GoodHeader(h)
    ensures
      var q := FeedAll(p, HeaderWords(h));
      q.ev == InHeader(h, 13) && !q.reeling && q.published == p.published
  {
    hide HeaderWords, HeaderAfter, FeedBody, FeedHeader, EventOk, GoodHeader, FeedAll;
    var hw := HeaderWords(h);
    WordsMakeHeader(h);
    HeaderRead(p, hw, 13);
    assert hw[..13] == hw;
    FeedIsAfter(p, hw);
    CopiedSoFar(p, hw);
  }

  lemma {:induction false} ZeroLengthIsNotPublished(p: Parser, h: Header, waves: seq<seq<bv32>>)
    requires Clean(p) && GoodHeader(h) && AreWaves(waves, 0) && h.Length() == 0
    ensures FeedAll(p, EventWords(h, waves)).published == p.published
  {
    hide WaveformsWords, ChannelMarker, HeaderWords, FeedAll, EventOk, GoodHeader;
    EmptyWaves(waves);
    HeaderIsFed(p, h);
    var q := FeedAll(p, HeaderWords(h));
    var rest := [ChannelMarker(1), ChannelMarker(2), ChannelMarker(3)];
    FeedAllConcat(p, HeaderWords(h), [ChannelMarker(0)] + rest);
    FeedAllConcat(q, [ChannelMarker(0)], rest);
    FirstMarkerStays(q);
    ZeroLengthIsStuck(FeedAll(q, [ChannelMarker(0)]), rest);
  }

  lemma {:induction false} FirstMarkerStays(q: Parser)
    requires Ok(q) && !q.reeling && q.ev.headerBytesRead == FONTUS_HEADER_SIZE && q.ev.currentChannel == 0 && !q.ev.wfHeaderRead
    ensures
      var r := FeedAll(q, [ChannelMarker(0)]);
      !r.reeling && r.ev == q.ev.(wfHeaderRead := true, samplesRead := 1) && r.published == q.published
  {
    hide GoodHeader, Header.Length, ChannelMarker, Store;
    assert [ChannelMarker(0)][..0] == [];
    assert FeedAll(q, []) == q;
    assert FeedAll(q, [ChannelMarker(0)]) == Feed(FeedAll(q, [ChannelMarker(0)][..0]), ChannelMarker(0));
  }

  /** A well-formed event is published, as a verbatim copy with its header, exactly when it has samples. */
  lemma {:induction false} EventIsPublished(p: Parser, h: Header, waves: seq<seq<bv32>>)
    requires Clean(p) && GoodHeader(h) && AreWaves(waves, h.Length())
    ensures h.Length() > 0 ==> PublishedCopy(p, FeedAll(p, EventWords(h, waves)), EventWords(h, waves)) && HeaderAfter(EventWords(h, waves), 13) == h
    ensures h.Length() == 0 ==> FeedAll(p, EventWords(h, waves)).published == p.published
  {
    hide PublishedCopy, HeaderWords, WaveformsWords, GoodHeader, Header.Length, FeedAll, HeaderAfter, EventOk;
    if h.Length() == 0 {
      ZeroLengthIsNotPublished(p, h, waves);
    } else {
      WavesRead(p, h, waves, NUM_WAVEFORMS);
      hide IsOneEvent, After;
      PublishedVerbatim(p, EventWords(h, waves));
      WordsMakeHeader(h);
      HeaderAfterFront(HeaderWords(h), WaveformsWords(waves, NUM_WAVEFORMS), 13);
    }
  }

  lemma {:induction false} HeaderAfterFront(a: seq<bv32>, b: seq<bv32>, n: nat)
    requires n <= |a|
    ensures HeaderAfter(a + b, n) == HeaderAfter(a, n)
    decreases n
  {
    hide InterpretHeaderWord;
    if n > 0 {
      HeaderAfterFront(a, b, n - 1);
    }
  }

  // ----- The generator -----

  /** The header that produce_fontus_data sends. */
  ghost function FakeHeader(number: bv32, length: bv16): Header {
    var h := Header(FONTUS_MAGIC_VALUE, number, 0, length, 0, 0, 0, 0, 0, 0, 0);
    h.(crc := Crc32.Crc(0, HeaderCrcBytes(h)))
  }

  lemma FakeHeaderIsGood(number: bv32, length: bv16)
    ensures GoodHeader(FakeHeader(number, length))
  {
    hide Crc32.Crc;
    var h := Header(FONTUS_MAGIC_VALUE, number, 0, length, 0, 0, 0, 0, 0, 0, 0);
    CrcIsNotCovered(h, Crc32.Crc(0, HeaderCrcBytes(h)));
  }

  lemma CrcIsNotCovered(h: Header, crc: bv32)
    ensures HeaderCrcBytes(h.(crc := crc)) == HeaderCrcBytes(h)
  {
    hide ToBytes, Ceres.HighWord, Ceres.LowWord, Ceres.HighByte, Ceres.LowByte;
  }

  lemma LengthWordBytes(h: Header)
    ensures ToBytes(LengthWord(h)) == [Ceres.HighByte(h.length), Ceres.LowByte(h.length), h.deviceNumber, h.triggerFlags]
  {
  }

  lemma Append5(p: seq<bv8>, a: seq<bv8>, b: seq<bv8>, c: seq<bv8>, d: seq<bv8>, e: seq<bv8>)
    ensures p + (a + b + c + d + e) == p + a + b + c + d + e
  {
  }

  /** The eleven header words between the marker and the CRC. */
  function CoveredWords(h: Header): (ws: seq<bv32>)
    ensures |ws| == 11
  {
    [h.trigNumber, Ceres.HighWord(h.clock), Ceres.LowWord(h.clock), LengthWord(h), h.selfTriggerWord]
    + [Ceres.HighWord(h.beamTriggerTime), Ceres.LowWord(h.beamTriggerTime), Ceres.HighWord(h.ledTriggerTime),
       Ceres.LowWord(h.ledTriggerTime), Ceres.HighWord(h.ctTime)] + [Ceres.LowWord(h.ctTime)]
  }

  lemma {:induction false} CoveredBytes(h: Header)
    ensures Flatten(CoveredWords(h)) == HeaderCrcBytes(h)
  {
    hide ToBytes, Flatten, LengthWord, Ceres.HighWord, Ceres.LowWord, Ceres.HighByte, Ceres.LowByte;
    LengthWordBytes(h);
    var a := [h.trigNumber, Ceres.HighWord(h.clock), Ceres.LowWord(h.clock), LengthWord(h), h.selfTriggerWord];
    var b := [Ceres.HighWord(h.beamTriggerTime), Ceres.LowWord(h.beamTriggerTime), Ceres.HighWord(h.ledTriggerTime),
              Ceres.LowWord(h.ledTriggerTime), Ceres.HighWord(h.ctTime)];
    var c := [Ceres.LowWord(h.ctTime)];
    Events.FlattenFive(a[0], a[1], a[2], a[3], a[4]);
    Events.FlattenFive(b[0], b[1], b[2], b[3], b[4]);
    FlattenOne(c[0]);
    FlattenConcat(a + b, c);
    FlattenConcat(a, b);
    Append5(Flatten(a), ToBytes(b[0]), ToBytes(b[1]), ToBytes(b[2]), ToBytes(b[3]), ToBytes(b[4]));
  }

  lemma SplitThirteen<T>(a: T, b: T, c: T, d: T, e: T, f: T, g: T, h: T, i: T, j: T, k: T, l: T, m: T)
    ensures [a, b, c, d, e, f, g, h, i, j, k, l, m] == [a] + ([b, c, d, e, f] + [g, h, i, j, k] + [l]) + [m]
  {
  }

  lemma SplitHeaderWords(h: Header)
    ensures HeaderWords(h) == [h.magicNumber] + CoveredWords(h) + [h.crc]
  {
    hide LengthWord, Ceres.HighWord, Ceres.LowWord;
    SplitThirteen(h.magicNumber, h.trigNumber, Ceres.HighWord(h.clock), Ceres.LowWord(h.clock), LengthWord(h), h.selfTriggerWord,
                  Ceres.HighWord(h.beamTriggerTime), Ceres.LowWord(h.beamTriggerTime), Ceres.HighWord(h.ledTriggerTime),
                  Ceres.LowWord(h.ledTriggerTime), Ceres.HighWord(h.ctTime), Ceres.LowWord(h.ctTime), h.crc);
  }

  /** The header CRC covers the eleven header words between the marker and itself. */
  lemma {:induction false} HeaderOnTheWire(h: Header)
    ensures Flatten(HeaderWords(h)) == ToBytes(h.magicNumber) + HeaderCrcBytes(h) + ToBytes(h.crc)
  {
    SplitHeaderWords(h);
    CoveredBytes(h);
    FlattenOne(h.magicNumber);
    FlattenOne(h.crc);
    hide ToBytes, Flatten, HeaderWords, CoveredWords, HeaderCrcBytes;
    FlattenConcat([h.magicNumber], CoveredWords(h));
    FlattenConcat([h.magicNumber] + CoveredWords(h), [h.crc]);
  }

  /** Copy words to the buffer, each as htonl of its value. */
  method PutWords(buffer: array<bv8>, at: nat, ws: seq<bv32>)
    requires at + 4 * |ws| <= buffer.Length
    modifies buffer
    ensures buffer[..at + 4 * |ws|] == old(buffer[..at]) + Flatten(ws)
  {
    hide ToBytes, Flatten, Splice;
    assert Flatten(ws[..0]) == [] by { FlattenNothing(ws); }
    for j := 0 to |ws|
      invariant buffer[..at + 4 * j] == old(buffer[..at]) + Flatten(ws[..j])
    {
      ghost var done := buffer[..at + 4 * j];
      PutWord(buffer, at + 4 * j, ws[j]);
      FlattenNext(ws, j);
      assert buffer[..at + 4 * (j + 1)] == buffer[..][..at + 4 * j + 4] == done + ToBytes(ws[j]);
    }
    assert ws[..|ws|] == ws;
  }

  lemma {:induction false} FlattenNothing(ws: seq<bv32>)
    ensures Flatten(ws[..0]) == []
  {
  }

  /** The header: marker and fields, then the CRC of what has been written behind the marker. */
  method WriteHeader(buffer: array<bv8>, number: bv32, length: bv16)
    requires buffer.Length >= FONTUS_HEADER_SIZE
    modifies buffer
    ensures buffer[..FONTUS_HEADER_SIZE] == Flatten(HeaderWords(FakeHeader(number, length)))
  {
    var h := Header(FONTUS_MAGIC_VALUE, number, 0, length, 0, 0, 0, 0, 0, 0, 0);
    assert FakeHeader(number, length) == h.(crc := Crc32.Crc(0, HeaderCrcBytes(h)));
    hide ToBytes, Flatten, HeaderWords, HeaderCrcBytes, Crc32.Crc, FakeHeader, Splice;
    ghost var was := buffer[..];
    PutWord(buffer, 0, h.magicNumber);
    PutHeaderFields(buffer, 4, h);
    SpliceOn(was, 0, ToBytes(h.magicNumber), HeaderCrcBytes(h));
    assert buffer[..48] == buffer[..][..48] == ToBytes(h.magicNumber) + HeaderCrcBytes(h);
    var crc := Crc32.Crc32Z(0, buffer, 4, 44);
    assert buffer[4..48] == buffer[..48][4..] == HeaderCrcBytes(h);
    PutWord(buffer, 48, crc);
    HeaderOnTheWire(FakeHeader(number, length));
    CrcIsNotCovered(h, crc);
    assert buffer[..52] == buffer[..][..52] == ToBytes(h.magicNumber) + HeaderCrcBytes(h) + ToBytes(crc);
  }

  lemma {:induction false} WaveformsNext(h: Header, waves: seq<seq<bv32>>, k: nat)
    requires k < |waves| == NUM_WAVEFORMS
    ensures Flatten(HeaderWords(h) + WaveformsWords(waves, k + 1))
         == Flatten(HeaderWords(h) + WaveformsWords(waves, k)) + Flatten([ChannelMarker(k)] + waves[k])
  {
    hide Flatten, HeaderWords, ChannelMarker;
    var a, b := HeaderWords(h) + WaveformsWords(waves, k), [ChannelMarker(k)] + waves[k];
    FlattenConcat(a, b);
    assert HeaderWords(h) + WaveformsWords(waves, k + 1) == a + b;
  }

  /** produce_fontus_data: the bytes of the event on the wire, whose samples are parameters. */
  method ProduceFontusData(buffer: array<bv8>, number: bv32, length: bv16, waves: seq<seq<bv32>>) returns (n: nat)
    requires AreWaves(waves, FakeHeader(number, length).Length())
    requires FONTUS_HEADER_SIZE + 16 * (FakeHeader(number, length).Length() + 1) <= buffer.Length
    modifies buffer
    ensures n == FONTUS_HEADER_SIZE + 16 * (FakeHeader(number, length).Length() + 1)
    ensures buffer[..n] == Flatten(EventWords(FakeHeader(number, length), waves))
  {
    ghost var h, size := FakeHeader(number, length), 4 * (FakeHeader(number, length).Length() + 1);
    hide Flatten, HeaderWords, WaveformsWords, ChannelMarker, FakeHeader, Header.Length;
    WriteHeader(buffer, number, length);
    NoWaveforms(waves);
    assert HeaderWords(h) + [] == HeaderWords(h);
    n := FONTUS_HEADER_SIZE;
    for ichan := 0 to NUM_WAVEFORMS
      invariant n == FONTUS_HEADER_SIZE + ichan * size
      invariant buffer[..n] == Flatten(HeaderWords(h) + WaveformsWords(waves, ichan))
    {
      WaveformsNext(h, waves, ichan);
      Ceres.NextChannel(ichan, size);
      Ceres.TimesBelow(ichan + 1, NUM_WAVEFORMS, size);
      PutWords(buffer, n, [ChannelMarker(ichan)] + waves[ichan]);
      n := n + 4 + 4 * |waves[ichan]|;
    }
  }

  lemma NoWaveforms(waves: seq<seq<bv32>>)
    requires |waves| == NUM_WAVEFORMS
    ensures WaveformsWords(waves, 0) == []
  {
  }

  /** What the generator emits is published as a verbatim copy exactly when it has samples. */
  lemma {:induction false} EncodeThenBuild(p: Parser, number: bv32, length: bv16, waves: seq<seq<bv32>>)
    requires Clean(p) && AreWaves(waves, FakeHeader(number, length).Length())
    ensures
      var ws := EventWords(FakeHeader(number, length), waves);
      var q := FeedAll(p, WordsOf(Flatten(ws)));
      if FakeHeader(number, length).Length() > 0 then q.published == p.published + [Event(FakeHeader(number, length), Flatten(ws))]
      else q.published == p.published
  {
    FakeHeaderIsGood(number, length);
    hide HeaderWords, WaveformsWords, GoodHeader, FeedAll, HeaderAfter, Flatten, WordsOf, FakeHeader, Clean, Header.Length;
    var h := FakeHeader(number, length);
    EventIsPublished(p, h, waves);
    WordsOfFlatten(EventWords(h, waves));
  }
}
