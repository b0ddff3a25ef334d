/**
 Where the words of any CERES event go, compressed words included: which slots of the
 event buffer are written, in which order, and when every slot is written exactly once.
 */
module CeresLayout {
  import opened Words
  import opened CeresParser
  import opened CeresCodec
  import opened CeresEvents
  import opened Arithmetic16

  /** A word of a channel as received: its marker is word 0, its CRC the one behind its samples. */
  datatype Place = Place(channel: nat, isample: nat)

  ghost predicate InBody(p: Parser) {
    Ok(p) && !p.reeling && p.ev.headerBytesRead == CERES_HEADER_SIZE
  }

  /** The places that FeedBody stashes at, in order. */
  function Writes(ev: EventInProgress, w: bv32): seq<Place> {
    var c, s := ev.currentChannel, ev.samplesRead;
    if !ev.wfHeaderRead then [Place(c, 0)]
    else if s < ev.header.Length() && IsCompressed(w) then [Place(c, s + 1), Place(c, s + 2), Place(c, s + 3)]
    else [Place(c, s + 1)]
  }

  // ----- Slots -----

  /** The places of one event that has `n` words in each channel, channel by channel. */
  function Places(channels: nat, n: nat): (ps: seq<Place>)
    ensures |ps| == channels * n
  {
    if channels == 0 then [] else
      NextChannel(channels - 1, n);
      Places(channels - 1, n) + ChannelPlaces(channels - 1, n)
  }

  function ChannelPlaces(c: nat, n: nat): (ps: seq<Place>)
    ensures |ps| == n
  {
    seq(n, i requires 0 <= i < n => Place(c, i))
  }

  function SlotOf(h: Header, at: Place): nat
    requires at.channel < NUM_CHANNELS
  {
    Offset(NewChannel(h.IsEven(), at.channel), h.Length(), at.isample)
  }

  /** The place whose word belongs at the `k`-th word behind the header. */
  function PlaceOf(h: Header, k: nat): (at: Place)
    requires k < 16 * (h.Length() + 2)
    ensures at.channel < NUM_CHANNELS && at.isample < h.Length() + 2
  {
    hide NewChannel, Header.Length;
    QuotientFits(k, NUM_CHANNELS, h.Length() + 2);
    Place(NewChannel(h.IsEven(), k / (h.Length() + 2)), k % (h.Length() + 2))
  }

  lemma QuotientFits(k: nat, m: nat, n: nat)
    requires 0 < n && k < m * n
    ensures 0 <= k / n < m && k == (k / n) * n + k % n && 0 <= k % n < n
  {
    assert k == n * (k / n) + k % n;
    if k / n >= m {
      TimesBelow(m, k / n, n);
    }
  }

  lemma QuotientIs(q: nat, r: nat, n: nat)
    requires r < n
    ensures (q * n + r) / n == q && (q * n + r) % n == r
  {
    var k := q * n + r;
    assert k == n * (k / n) + k % n;
    if k / n < q {
      TimesBelow(k / n + 1, q, n);
      NextChannel(k / n, n);
    } else if k / n > q {
      TimesBelow(q + 1, k / n, n);
      NextChannel(q, n);
    }
  }

  /** The reorder is a bijection: every word behind the header belongs to exactly one place. */
  lemma SlotsAreABijection(h: Header, at: Place, k: nat)
    requires at.channel < NUM_CHANNELS && at.isample < h.Length() + 2 && k < 16 * (h.Length() + 2)
    ensures SlotOf(h, at) == CERES_HEADER_SIZE + 4 * k <==> at == PlaceOf(h, k)
  {
    hide NewChannel, Header.Length, Offset;
    var n, c := h.Length() + 2, NewChannel(h.IsEven(), at.channel);
    SlotNumber(h, at);
    QuotientFits(k, NUM_CHANNELS, n);
    QuotientIs(c, at.isample, n);
    NewChannelIsInvolution(h.IsEven(), at.channel);
    NewChannelIsInvolution(h.IsEven(), k / n);
    hide SlotOf;
    if c == k / n && at.isample == k % n {
      assert k == c * n + at.isample;
    }
  }

  lemma SlotNumber(h: Header, at: Place)
    requires at.channel < NUM_CHANNELS
    ensures SlotOf(h, at) == CERES_HEADER_SIZE + 4 * (NewChannel(h.IsEven(), at.channel) * (h.Length() + 2) + at.isample)
  {
    hide NewChannel, Header.Length;
  }

  // ----- Runs -----

  /** The event after `ws`, just before it is published when it is complete. */
  ghost function After(p: Parser, ws: seq<bv32>): (q: Parser)
    decreases |ws|
  {
    if ws == [] then p
    else
      var q := After(p, ws[..|ws| - 1]);
      if InBody(q) then FeedBody(q, ws[|ws| - 1]) else q
  }

  /** Every word of `ws` is parsed as part of one event. */
  ghost predicate Runs(p: Parser, ws: seq<bv32>)
    decreases |ws|
  {
    if ws == [] then InBody(p)
    else
      var q := After(p, ws[..|ws| - 1]);
      Runs(p, ws[..|ws| - 1]) && InBody(q) && !FeedBody(q, ws[|ws| - 1]).reeling
  }

  /** All places written, in order. */
  ghost function Log(p: Parser, ws: seq<bv32>): seq<Place>
    decreases |ws|
  {
    if ws == [] then [] else
      Log(p, ws[..|ws| - 1]) + Writes(After(p, ws[..|ws| - 1]).ev, ws[|ws| - 1])
  }

  /** A compressed word holds three pairs, and fewer are left to read. */
  predicate Overruns(ev: EventInProgress, w: bv32) {
    ev.wfHeaderRead && ev.samplesRead < ev.header.Length() < ev.samplesRead + 3 && IsCompressed(w)
  }

  ghost predicate Overrun(p: Parser, ws: seq<bv32>)
    decreases |ws|
  {
    ws != [] && (Overrun(p, ws[..|ws| - 1]) || Overruns(After(p, ws[..|ws| - 1]).ev, ws[|ws| - 1]))
  }

  /** The places written so far, when nothing overran. */
  ghost function Expected(ev: EventInProgress): seq<Place> {
    Places(ev.currentChannel, ev.header.Length() + 2) + if ev.wfHeaderRead then ChannelPlaces(ev.currentChannel, ev.samplesRead + 1) else []
  }

  /** Words written beyond that number. */
  ghost function Surplus(ev: EventInProgress, written: nat): int {
    written - ev.currentChannel * (ev.header.Length() + 2) - if ev.wfHeaderRead then ev.samplesRead + 1 else 0
  }

  /** Some channel so far was, or is bound to be, too long. */
  ghost predicate TooLong(ev: EventInProgress, written: nat) {
    Surplus(ev, written) > 0 || (ev.wfHeaderRead && ev.samplesRead > ev.header.Length())
  }

  /** What FeedBody does to the event in progress when the word is taken; the last sample is left open. */
  ghost predicate StepsTo(ev: EventInProgress, ev': EventInProgress, w: bv32) {
    if !ev.wfHeaderRead then
      && ev.currentChannel < NUM_CHANNELS && w == ChannelMarker(ev.currentChannel)
      && ev' == ev.(wfHeaderRead := true, wfCrcRead := false, samplesRead := 0)
    else if ev.samplesRead < ev.header.Length() then
      ev' == ev.(samplesRead := ev.samplesRead + |Writes(ev, w)|, prevSample := ev'.prevSample)
    else
      ev' == ev.(currentChannel := ev.currentChannel + 1, samplesRead := 0, wfCrcRead := true, wfHeaderRead := false, prevSample := 0)
  }

  lemma {:induction false} BodyStep(p: Parser, w: bv32)
    requires InBody(p) && !FeedBody(p, w).reeling
    ensures FeedBody(p, w).numBytes == p.numBytes + 4 * |Writes(p.ev, w)|
    ensures FeedBody(p, w).ev.header == p.ev.header && StepsTo(p.ev, FeedBody(p, w).ev, w)
  {
    hide GoodHeader, Header.Length, ChannelMarker, Stash, IsCompressed, FeedCompressed, FeedUncompressed;
  }

  lemma {:induction false} CountStep(ev: EventInProgress, ev': EventInProgress, w: bv32, written: nat)
    requires ev.wfHeaderRead || ev.samplesRead == 0
    requires StepsTo(ev, ev', w)
    requires Surplus(ev, written) >= 0
    ensures Surplus(ev', written + |Writes(ev, w)|) >= 0
    ensures TooLong(ev', written + |Writes(ev, w)|) <==> TooLong(ev, written) || Overruns(ev, w)
    ensures !TooLong(ev', written + |Writes(ev, w)|) ==> Expected(ev') == Expected(ev) + Writes(ev, w)
  {
    hide Header.Length, IsCompressed, ChannelMarker;
    NextChannel(ev.currentChannel, ev.header.Length() + 2);
  }

  ghost predicate Tallied(p: Parser, q: Parser, log: seq<Place>, over: bool) {
    && q.ev.header == p.ev.header
    && q.numBytes == p.numBytes + 4 * |log|
    && Surplus(q.ev, |log|) >= 0
    && (TooLong(q.ev, |log|) <==> over)
    && (!over ==> log == Expected(q.ev))
  }

  lemma {:induction false} TallyStep(p: Parser, q: Parser, log: seq<Place>, over: bool, w: bv32)
    requires Tallied(p, q, log, over) && InBody(q) && !FeedBody(q, w).reeling
    ensures Tallied(p, FeedBody(q, w), log + Writes(q.ev, w), over || Overruns(q.ev, w))
  {
    hide FeedBody, Writes, Overruns, GoodHeader, TooLong, Surplus, Expected;
    BodyStep(q, w);
    CountStep(q.ev, FeedBody(q, w).ev, w, |log|);
  }

  lemma {:induction false} Tally(p: Parser, ws: seq<bv32>)
    requires Runs(p, ws) && p.ev.currentChannel == 0 && !p.ev.wfHeaderRead
    ensures Tallied(p, After(p, ws), Log(p, ws), Overrun(p, ws))
    decreases |ws|
  {
    hide FeedBody, Writes, Overruns, GoodHeader;
    if ws != [] {
      hide Tallied;
      Tally(p, ws[..|ws| - 1]);
      TallyStep(p, After(p, ws[..|ws| - 1]), Log(p, ws[..|ws| - 1]), Overrun(p, ws[..|ws| - 1]), ws[|ws| - 1]);
    }
  }

  // ----- A run is channels -----

  /** `ws` is the channels before the one in progress, and what has come of that one. */
  ghost predicate IsSplit(ev: EventInProgress, ws: seq<bv32>, channels: seq<Channel>, samples: seq<bv32>) {
    var k, n := ev.currentChannel, ev.header.Length();
    && k <= |channels| == NUM_CHANNELS
    && (forall c :: 0 <= c < k ==> IsRead(channels[c], n))
    && if ev.wfHeaderRead then
         && k < NUM_CHANNELS && ws == ChannelsWords(channels, k) + ([ChannelMarker(k)] + samples)
         && ev.samplesRead == |Stashed(samples)|
         && (samples != [] ==> |Stashed(samples[..|samples| - 1])| < n)
       else
         ws == ChannelsWords(channels, k)
  }

  lemma {:induction false} ChannelsWordsSame(a: seq<Channel>, b: seq<Channel>, k: nat)
    requires k <= |a| == |b| == NUM_CHANNELS && a[..k] == b[..k]
    ensures ChannelsWords(a, k) == ChannelsWords(b, k)
    decreases k
  {
    if k > 0 {
      hide ChannelWords;
      assert a[..k][..k - 1] == b[..k][..k - 1] && a[..k][k - 1] == b[..k][k - 1];
      assert a[..k - 1] == a[..k][..k - 1] && b[..k - 1] == b[..k][..k - 1];
      ChannelsWordsSame(a, b, k - 1);
    }
  }

  lemma {:induction false} SamplesNext(samples: seq<bv32>, w: bv32)
    ensures |Stashed(samples + [w])| == |Stashed(samples)| + if IsCompressed(w) then 3 else 1
    ensures (samples + [w])[..|samples + [w]| - 1] == samples
  {
    hide IsCompressed, ValidBit, PairWords, WordPairs;
    assert (samples + [w])[..|samples|] == samples;
    StashedNext(samples + [w]);
  }

  /** The marker opens a channel. */
  lemma {:induction false} SplitMarker(ev: EventInProgress, ws: seq<bv32>, channels: seq<Channel>, samples: seq<bv32>)
    requires IsSplit(ev, ws, channels, samples) && !ev.wfHeaderRead && ev.currentChannel < NUM_CHANNELS
    ensures IsSplit(ev.(wfHeaderRead := true, wfCrcRead := false, samplesRead := 0), ws + [ChannelMarker(ev.currentChannel)], channels, [])
  {
    hide Header.Length, ChannelMarker, IsRead, ChannelsWords;
    assert [ChannelMarker(ev.currentChannel)] + [] == [ChannelMarker(ev.currentChannel)];
  }

  /** One more sample word, while pairs are missing. */
  lemma {:induction false} SplitSample(ev: EventInProgress, ws: seq<bv32>, channels: seq<Channel>, samples: seq<bv32>, w: bv32, prev: bv16)
    requires IsSplit(ev, ws, channels, samples) && ev.wfHeaderRead && ev.samplesRead < ev.header.Length()
    ensures IsSplit(ev.(samplesRead := ev.samplesRead + |Writes(ev, w)|, prevSample := prev), ws + [w], channels, samples + [w])
  {
    hide Header.Length, ChannelMarker, IsRead, ChannelsWords, Stashed, Pairs, IsCompressed;
    SamplesNext(samples, w);
    Behind(ChannelsWords(channels, ev.currentChannel), [ChannelMarker(ev.currentChannel)], samples, w);
  }

  lemma Behind(a: seq<bv32>, b: seq<bv32>, c: seq<bv32>, w: bv32)
    ensures a + (b + c) + [w] == a + (b + (c + [w]))
    ensures a + (b + c) + [w] == a + (b + c + [w])
  {
  }

  /** The CRC completes a channel. */
  lemma {:induction false} SplitCrc(ev: EventInProgress, ws: seq<bv32>, channels: seq<Channel>, samples: seq<bv32>, w: bv32)
    returns (channels': seq<Channel>)
    requires IsSplit(ev, ws, channels, samples) && ev.wfHeaderRead && ev.samplesRead >= ev.header.Length()
    ensures IsSplit(ev.(currentChannel := ev.currentChannel + 1, samplesRead := 0, wfCrcRead := true, wfHeaderRead := false, prevSample := 0),
                    ws + [w], channels', [])
  {
    hide Header.Length, ChannelMarker, Stashed, Pairs;
    var k := ev.currentChannel;
    channels' := channels[k := Channel(samples, w)];
    ChannelsWordsSame(channels, channels', k);
    Behind(ChannelsWords(channels, k), [ChannelMarker(k)], samples, w);
    assert ChannelsWords(channels', k + 1) == ChannelsWords(channels', k) + ChannelWords(k, channels'[k]);
  }

  lemma {:induction false} SplitStep(ev: EventInProgress, ev': EventInProgress, ws: seq<bv32>, channels: seq<Channel>, samples: seq<bv32>, w: bv32)
    returns (channels': seq<Channel>, samples': seq<bv32>)
    requires IsSplit(ev, ws, channels, samples) && StepsTo(ev, ev', w)
    ensures IsSplit(ev', ws + [w], channels', samples')
  {
    hide Header.Length, ChannelMarker, IsSplit, Writes;
    channels', samples' := channels, [];
    if !ev.wfHeaderRead {
      SplitMarker(ev, ws, channels, samples);
    } else if ev.samplesRead < ev.header.Length() {
      samples' := samples + [w];
      SplitSample(ev, ws, channels, samples, w, ev'.prevSample);
    } else {
      channels' := SplitCrc(ev, ws, channels, samples, w);
    }
  }

  lemma {:induction false} NoChannels(ev: EventInProgress) returns (channels: seq<Channel>)
    requires ev.currentChannel == 0 && !ev.wfHeaderRead
    ensures IsSplit(ev, [], channels, [])
  {
    hide IsRead, Header.Length;
    channels := seq(NUM_CHANNELS, i => Channel([], 0));
    assert ChannelsWords(channels, 0) == [];
  }

  /** However a run goes, its words are channels in order. */
  lemma {:induction false} RunIsChannels(p: Parser, ws: seq<bv32>) returns (channels: seq<Channel>, samples: seq<bv32>)
    requires Runs(p, ws) && p.ev.currentChannel == 0 && !p.ev.wfHeaderRead
    ensures After(p, ws).ev.header == p.ev.header && IsSplit(After(p, ws).ev, ws, channels, samples)
    decreases |ws|
  {
    hide FeedBody, GoodHeader, IsSplit, StepsTo, Header.Length, EventOk;
    if ws == [] {
      channels := NoChannels(p.ev);
      samples := [];
    } else {
      var n := |ws| - 1;
      channels, samples := RunIsChannels(p, ws[..n]);
      BodyStep(After(p, ws[..n]), ws[n]);
      channels, samples := SplitStep(After(p, ws[..n]).ev, After(p, ws).ev, ws[..n], channels, samples, ws[n]);
      assert ws[..n] + [ws[n]] == ws;
    }
  }

  lemma {:induction false} AfterIsFeedAll(p: Parser, ws: seq<bv32>)
    requires Ok(p) && Runs(p, ws) && InBody(After(p, ws))
    ensures FeedAll(p, ws) == After(p, ws)
    decreases |ws|
  {
    hide FeedBody, GoodHeader, Header.Length, EventOk;
    if ws != [] {
      AfterIsFeedAll(p, ws[..|ws| - 1]);
    }
  }

  /** Just before it is published, a run that completes an event has stored all sixteen channels. */
  lemma {:induction false} CompleteRun(p: Parser, ws: seq<bv32>) returns (channels: seq<Channel>)
    requires Runs(p, ws) && AtFirstChannel(p) && Complete(After(p, ws))
    ensures |channels| == NUM_CHANNELS && AreRead(channels, p.ev.header.Length()) && ws == ChannelsWords(channels, NUM_CHANNELS)
    ensures ChannelsDone(p, After(p, ws), channels, NUM_CHANNELS)
  {
    hide Header.Length, ChannelMarker, FeedBody, GoodHeader, Stashed, Pairs, IsRead, FeedAll, ChannelsWords, ChannelsDone, EventOk, Log;
    var samples;
    channels, samples := RunIsChannels(p, ws);
    CompleteIsBetweenChannels(p, ws);
    var q, r := FeedAllChannels(p, channels);
    AfterIsFeedAll(p, ws[..|ws| - 1]);
  }

  /** Every slot opens with the marker of its own number. */
  ghost predicate SlotsAreMarked(data: seq<bv8>, length: nat) {
    forall k :: 0 <= k < NUM_CHANNELS ==>
      Offset(k, length, 0) + 4 <= |data| && WordAt(data, Offset(k, length, 0)) == ChannelMarker(k)
  }

  lemma {:induction false} StoredAreMarked(data: seq<bv8>, h: Header, channels: seq<Channel>)
    requires |channels| == NUM_CHANNELS && forall c :: 0 <= c < NUM_CHANNELS ==> Stored(data, h, c, channels[c])
    ensures SlotsAreMarked(data, h.Length())
  {
    hide Header.Length, ChannelMarker, NewChannel, Offset, WordAt, Stashed;
    forall k | 0 <= k < NUM_CHANNELS
      ensures Offset(k, h.Length(), 0) + 4 <= |data| && WordAt(data, Offset(k, h.Length(), 0)) == ChannelMarker(k)
    {
      var c := NewChannel(h.IsEven(), k);
      NewChannelIsInvolution(h.IsEven(), k);
      assert Stored(data, h, c, channels[c]);
    }
  }

  /**
   The words of any completed event are sixteen channels in order. It has written every one of its
   16 * (length + 2) words exactly once, and counted four bytes for each, if and only if compressed
   words were used only where three pairs remained; then every slot opens with its own marker.
   */
  lemma {:induction false} CompleteEvent(p: Parser, ws: seq<bv32>) returns (channels: seq<Channel>)
    requires Runs(p, ws) && AtFirstChannel(p) && Complete(After(p, ws))
    ensures |channels| == NUM_CHANNELS && AreRead(channels, p.ev.header.Length()) && ws == ChannelsWords(channels, NUM_CHANNELS)
    ensures AllFit(channels, NUM_CHANNELS, p.ev.header.Length()) <==> !Overrun(p, ws)
    ensures Log(p, ws) == Places(NUM_CHANNELS, p.ev.header.Length() + 2) <==> !Overrun(p, ws)
    ensures After(p, ws).numBytes == p.numBytes + 64 * (p.ev.header.Length() + 2) <==> !Overrun(p, ws)
    ensures !Overrun(p, ws) ==> SlotsAreMarked(After(p, ws).data, p.ev.header.Length())
  {
    hide Log, Header.Length, Runs, After, FeedBody, EventOk, Overrun, AllFit, AreRead, Stored, Total, Places, ChannelsWords, SlotsAreMarked, SameOutside, GoodHeader;
    CompleteCounts(p, ws);
    channels := CompleteRun(p, ws);
    TotalIs(channels, NUM_CHANNELS, p.ev.header.Length());
    if !Overrun(p, ws) {
      StoredAreMarked(After(p, ws).data, p.ev.header, channels);
    }
  }

  lemma {:induction false} CompleteCounts(p: Parser, ws: seq<bv32>)
    requires Runs(p, ws) && p.ev.currentChannel == 0 && !p.ev.wfHeaderRead
    requires Complete(After(p, ws))
    ensures Log(p, ws) == Places(NUM_CHANNELS, p.ev.header.Length() + 2) <==> !Overrun(p, ws)
    ensures After(p, ws).numBytes == p.numBytes + 64 * (p.ev.header.Length() + 2) <==> !Overrun(p, ws)
  {
    hide Log, Header.Length, Runs, After, FeedBody, EventOk;
    Tally(p, ws);
    var ev := After(p, ws).ev;
    CompleteIsBetweenChannels(p, ws);
  }

  /**
   Whatever completes an event behind a good header is that event on the wire, and it is published as
   it was sent if and only if nothing was counted before it and no compressed word overran its channel.
   */
  lemma {:induction false} CompletedIsPublished(p: Parser, hw: seq<bv32>, ws: seq<bv32>) returns (channels: seq<Channel>)
    requires AtEvent(p) && |hw| == 5 && GoodHeader(InterpretHeader(BLANK_HEADER, hw))
    requires Runs(FeedAll(p, hw), ws) && Complete(After(FeedAll(p, hw), ws))
    ensures
      var h := InterpretHeader(BLANK_HEADER, hw);
      && AreRead(channels, h.Length()) && hw + ws == EventWords(h, channels)
      && (PublishedOne(p, FeedAll(p, hw + ws), h, channels) <==> p.numBytes == 0 && !Overrun(FeedAll(p, hw), ws))
  {
    hide Header.Length, Runs, After, EventOk, Overrun, AllFit, GoodHeader, InterpretHeaderWord, Ok, WordAt, IsRead, FeedAll, ChannelsWords, HeaderWords;
    var h := InterpretHeader(BLANK_HEADER, hw);
    HeaderAfterFive(hw);
    var m := FeedHeaderWords(p, hw, 5);
    assert hw[..5] == hw;
    assert FeedAll(p, hw) == m;
    HeaderWordsBack(BLANK_HEADER, hw);
    channels := CompleteEvent(m, ws);
    EventIsPublished(p, h, channels);
  }

  lemma {:induction false} CompleteIsBetweenChannels(p: Parser, ws: seq<bv32>)
    requires Runs(p, ws) && Complete(After(p, ws))
    ensures !After(p, ws).ev.wfHeaderRead && ws != []
  {
    hide FeedBody, GoodHeader, Header.Length;
    if ws != [] {
      BodyStep(After(p, ws[..|ws| - 1]), ws[|ws| - 1]);
    }
  }

  // ----- Nothing else is written -----

  lemma {:induction false} PairWrites(p: Parser, valid: bv16, first: bv16, second: bv16)
    requires |p.data| == EVENT_BUFFER_SIZE && p.ev.currentChannel < NUM_CHANNELS && p.ev.samplesRead < p.ev.header.Length() + 2
    ensures
      var o := Slot(p.ev, p.ev.samplesRead + 1);
      SameOutside(p.data, StashPair(p, valid, first, second).data, o, o + 4)
  {
    hide SameOutside, Stash, Header.Length, SamplePair, Offset, NewChannel;
    var q := p.(ev := p.ev.(samplesRead := p.ev.samplesRead + 1, prevSample := second));
    StashWrites(q, SamplePair(valid, first, second), q.ev.samplesRead);
  }

  lemma {:induction false} CompressedWrites(p: Parser, w: bv32, n: nat)
    requires |p.data| == EVENT_BUFFER_SIZE && p.ev.currentChannel < NUM_CHANNELS
    requires p.ev.samplesRead < p.ev.header.Length() && n <= 3
    ensures
      var o := Slot(p.ev, p.ev.samplesRead + 1);
      SameOutside(p.data, FeedCompressed(p, w, n).data, o, o + 4 * n)
    decreases n
  {
    hide StashPair, Header.Length, SmallDelta, Plus, ValidBit, Slot, WordAt;
    if n > 0 {
      hide SameOutside;
      CompressedWrites(p, w, n - 1);
      var q := FeedCompressed(p, w, n - 1);
      var first := Plus(q.ev.prevSample, SmallDelta(w, 7 - 2 * n));
      PairWrites(q, ValidBit(w), first, Plus(first, SmallDelta(w, 6 - 2 * n)));
      SameSlot(q.ev, p.ev, p.ev.samplesRead + n);
      SlotNext(p.ev, p.ev.samplesRead + 1);
      SlotNext(p.ev, p.ev.samplesRead + n);
      var o := Slot(p.ev, p.ev.samplesRead + 1);
      SameOutsideGrows(p.data, q.data, FeedCompressed(p, w, n).data, o, o + 4 * (n - 1), o + 4 * n);
    }
  }

  /** The byte at which FeedBody starts writing. */
  function FirstWritten(ev: EventInProgress): nat
    requires ev.currentChannel < NUM_CHANNELS
  {
    Slot(ev, if ev.wfHeaderRead then ev.samplesRead + 1 else 0)
  }

  /** FeedBody writes the slots of its places, one behind the other, and changes nothing else. */
  lemma {:induction false} OnlyItsPlaces(p: Parser, w: bv32)
    requires InBody(p) && !FeedBody(p, w).reeling
    ensures SameOutside(p.data, FeedBody(p, w).data, FirstWritten(p.ev), FirstWritten(p.ev) + 4 * |Writes(p.ev, w)|)
    ensures forall i {:trigger Writes(p.ev, w)[i]} :: 0 <= i < |Writes(p.ev, w)| ==>
              SlotOf(p.ev.header, Writes(p.ev, w)[i]) == FirstWritten(p.ev) + 4 * i
  {
    hide FeedCompressed, StashPair, Stash, ChannelMarker, IsCompressed, GoodHeader, Header.Length, SameOutside, WordAt, NewChannel, UpperSample, LowerSample, ValidBit;
    var s := p.ev.samplesRead;
    if !p.ev.wfHeaderRead {
      StashWrites(p, w, 0);
    } else if s < p.ev.header.Length() {
      CompressedWrites(p, w, 3);
      var first := UpperSample(w, p.ev.prevSample, s == 0);
      PairWrites(p, ValidBit(w), first, LowerSample(w, first));
    } else {
      StashWrites(p, w, s + 1);
    }
  }
}
