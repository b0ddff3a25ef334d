/**
 Whole CERES events: what the builder publishes for a well-formed event, word by word
 of the event buffer, and how the output slots are filled.
 */
module CeresEvents {
  import opened Words
  import opened CeresParser
  import opened CeresCodec
  import Crc8

  // ----- Wire format -----

  /** The five header words, as ceres_interpret_header_word takes them apart. */
  function HeaderWords(h: Header): (ws: seq<bv32>)
    ensures |ws| == 5
  {
    [h.magicNumber, h.trigNumber, HighWord(h.clock), LowWord(h.clock), LastHeaderWord(h)]
  }

  function LastHeaderWord(h: Header): bv32 {
    (h.length as bv32 << 16) | (h.deviceNumber as bv32 << 8) | h.crc as bv32
  }

  /** The samples of one channel, as they are on the wire, and its CRC. */
  datatype Channel = Channel(samples: seq<bv32>, crc: bv32)

  function ChannelWords(c: nat, channel: Channel): seq<bv32>
    requires c < NUM_CHANNELS
  {
    [ChannelMarker(c)] + channel.samples + [channel.crc]
  }

  /** The sample words, compressed or not, are those taken for a channel of that length: as long as pairs are missing. */
  ghost predicate IsRead(channel: Channel, length: nat) {
    var ws := channel.samples;
    if ws == [] then length == 0 else |Stashed(ws[..|ws| - 1])| < length <= |Stashed(ws)|
  }

  /** No word has pairs to spare. */
  ghost predicate Fits(channel: Channel, length: nat) {
    |Stashed(channel.samples)| == length
  }

  lemma {:induction false} FitsIsRead(channel: Channel, length: nat)
    requires Fits(channel, length)
    ensures IsRead(channel, length)
  {
    hide Stashed, Pairs, ValidBit, WordPairs, PairWords;
    if channel.samples != [] {
      StashedNext(channel.samples);
    }
  }

  // ----- Header -----

  function InterpretHeader(h: Header, ws: seq<bv32>): Header
    requires |ws| == 5
  {
    InterpretHeaderWord(InterpretHeaderWord(InterpretHeaderWord(InterpretHeaderWord(InterpretHeaderWord(h,
      ws[0], 0), ws[1], 1), ws[2], 2), ws[3], 3), ws[4], 4)
  }

  lemma ClockWords(was: bv64, clock: bv64)
    ensures
      WithLow(WithHigh(was, HighWord(clock)), LowWord(clock)) == clock
  {
  }

  lemma LastWordFields(length: bv16, device: bv8, crc: bv8)
    ensures
      var w := (length as bv32 << 16) | (device as bv32 << 8) | crc as bv32;
      && ((w & 0xFFFF_0000) >> 16) as bv16 == length
      && ((w & 0xFF00) >> 8) as bv8 == device
      && (w & 0xFF) as bv8 == crc
  {
  }

  /** The header words carry the whole header, whatever the struct held before. */
  lemma HeaderRoundTrip(before: Header, h: Header)
    ensures InterpretHeader(before, HeaderWords(h)) == h
  {
    ClockWords(before.clock, h.clock);
    LastWordFields(h.length, h.deviceNumber, h.crc);
  }

  lemma ClockOf(was: bv64, hi: bv32, lo: bv32)
    ensures
      var clock := WithLow(WithHigh(was, hi), lo);
      HighWord(clock) == hi && LowWord(clock) == lo
  {
  }

  lemma LastWordOf(w: bv32)
    ensures (((w & 0xFFFF_0000) >> 16) as bv16 as bv32 << 16) | (((w & 0xFF00) >> 8) as bv8 as bv32 << 8) | (w & 0xFF) as bv8 as bv32 == w
  {
  }

  lemma FirstWordsIn(h: Header, magic: bv32, trig: bv32)
    ensures
      var r := InterpretHeaderWord(InterpretHeaderWord(h, magic, 0), trig, 1);
      r.magicNumber == magic && r.trigNumber == trig
  {
  }

  lemma ClockIn(h: Header, hi: bv32, lo: bv32)
    ensures
      var r := InterpretHeaderWord(InterpretHeaderWord(h, hi, 2), lo, 3);
      r.magicNumber == h.magicNumber && r.trigNumber == h.trigNumber && HighWord(r.clock) == hi && LowWord(r.clock) == lo
  {
    hide HighWord, LowWord, WithHigh, WithLow;
    ClockOf(h.clock, hi, lo);
  }

  lemma LastWordIn(h: Header, w: bv32)
    ensures
      var r := InterpretHeaderWord(h, w, 4);
      r.magicNumber == h.magicNumber && r.trigNumber == h.trigNumber && r.clock == h.clock && LastHeaderWord(r) == w
  {
    LastWordOf(w);
  }

  /** And the header is spelt by no other words. */
  lemma HeaderWordsBack(before: Header, ws: seq<bv32>)
    requires |ws| == 5
    ensures HeaderWords(InterpretHeader(before, ws)) == ws
  {
    hide InterpretHeaderWord, HighWord, LowWord, LastHeaderWord;
    FirstWordsIn(before, ws[0], ws[1]);
    var h := InterpretHeaderWord(InterpretHeaderWord(before, ws[0], 0), ws[1], 1);
    ClockIn(h, ws[2], ws[3]);
    LastWordIn(InterpretHeaderWord(InterpretHeaderWord(h, ws[2], 2), ws[3], 3), ws[4]);
  }

  lemma LastWordBytes(h: Header)
    ensures ToBytes(LastHeaderWord(h)) == [HighByte(h.length), LowByte(h.length), h.deviceNumber, h.crc]
  {
  }

  lemma {:induction false} FlattenFive(a: bv32, b: bv32, c: bv32, d: bv32, e: bv32)
    ensures Flatten([a, b, c, d, e]) == ToBytes(a) + ToBytes(b) + ToBytes(c) + ToBytes(d) + ToBytes(e)
  {
    FlattenOne(a);
    FlattenOne(b);
    FlattenOne(c);
    FlattenOne(d);
    FlattenOne(e);
    hide ToBytes, Flatten;
    FlattenConcat([a], [b]);
    FlattenConcat([a, b], [c]);
    FlattenConcat([a, b, c], [d]);
    FlattenConcat([a, b, c, d], [e]);
    assert [a] + [b] == [a, b] && [a, b] + [c] == [a, b, c];
    assert [a, b, c] + [d] == [a, b, c, d] && [a, b, c, d] + [e] == [a, b, c, d, e];
  }

  /** The header as it is on the wire. */
  lemma {:induction false} HeaderOnTheWire(h: Header)
    ensures Flatten(HeaderWords(h)) == ToBytes(h.magicNumber) + HeaderCrcBytes(h) + [h.crc]
  {
    hide ToBytes, Flatten, HighWord, LowWord, HighByte, LowByte, LastHeaderWord;
    LastWordBytes(h);
    FlattenFive(h.magicNumber, h.trigNumber, HighWord(h.clock), LowWord(h.clock), LastHeaderWord(h));
  }

  /** The header CRC is the CRC-8 of the fifteen header bytes on the wire between the marker and itself. */
  lemma {:induction false} HeaderCrcCoversWireBytes(h: Header)
    ensures HeaderCrcBytes(h) == Flatten(HeaderWords(h))[4..19] && Flatten(HeaderWords(h))[19] == h.crc
    ensures GoodHeader(h) <==> h.magicNumber == CERES_MAGIC_VALUE && h.crc == Crc8.Crc(Flatten(HeaderWords(h))[4..19])
  {
    hide Flatten, HeaderWords, Crc8.Crc;
    HeaderOnTheWire(h);
  }

  // ----- Event buffer -----

  /** The two buffers agree on every word that does not touch the bytes from `lo` to `hi`. */
  ghost predicate SameOutside(d: seq<bv8>, d': seq<bv8>, lo: nat, hi: nat) {
    && |d| == |d'|
    && forall o :: 0 <= o && o + 4 <= |d| && (o + 4 <= lo || hi <= o) ==> WordAt(d', o) == WordAt(d, o)
  }

  lemma StoreSameOutside(d: seq<bv8>, o: nat, w: bv32)
    requires o + 4 <= |d|
    ensures WordAt(StoreWord(d, o, w), o) == w
    ensures SameOutside(d, StoreWord(d, o, w), o, o + 4)
  {
    hide WordAt, StoreWord;
    WordAtStoreWord(d, o, w, o);
    forall o' | 0 <= o' && o' + 4 <= |d| && (o' + 4 <= o || o + 4 <= o')
      ensures WordAt(StoreWord(d, o, w), o') == WordAt(d, o')
    {
      WordAtStoreWord(d, o, w, o');
    }
  }

  /** Where slot `j` of the channel in progress is. */
  function Slot(ev: EventInProgress, j: nat): nat
    requires ev.currentChannel < NUM_CHANNELS
  {
    Offset(NewChannel(ev.header.IsEven(), ev.currentChannel), ev.header.Length(), j)
  }

  lemma SlotNext(ev: EventInProgress, j: nat)
    requires ev.currentChannel < NUM_CHANNELS
    ensures Slot(ev, j) == Slot(ev, 0) + 4 * j
    ensures j <= ev.header.Length() + 3 ==> Slot(ev, j) + 4 <= EVENT_BUFFER_SIZE
  {
    hide NewChannel, Header.Length;
    if j <= ev.header.Length() + 3 {
      OffsetFits(NewChannel(ev.header.IsEven(), ev.currentChannel), ev.header.Length(), j);
    }
  }

  lemma StashWrites(p: Parser, word: bv32, isample: nat)
    requires |p.data| == EVENT_BUFFER_SIZE && p.ev.currentChannel < NUM_CHANNELS
    requires isample <= p.ev.header.Length() + 3
    ensures
      var q, o := Stash(p, word, isample), Slot(p.ev, isample);
      && o + 4 <= EVENT_BUFFER_SIZE
      && WordAt(q.data, o) == (if isample == 0 then ChannelMarker(NewChannel(p.ev.header.IsEven(), p.ev.currentChannel)) else word)
      && SameOutside(p.data, q.data, o, o + 4)
  {
    hide ChannelMarker, StoreWord, Offset, WordAt, Header.Length, NewChannel, SameOutside;
    var c := NewChannel(p.ev.header.IsEven(), p.ev.currentChannel);
    OffsetFits(c, p.ev.header.Length(), isample);
    StoreSameOutside(p.data, Slot(p.ev, isample), if isample == 0 then ChannelMarker(c) else word);
  }

  // ----- One channel -----

  /** The parser is about to read the samples of a channel. */
  ghost predicate AtSamples(p: Parser) {
    && Ok(p) && !p.reeling && p.ev.headerBytesRead == CERES_HEADER_SIZE
    && p.ev.wfHeaderRead && p.ev.samplesRead == 0 && p.ev.prevSample == 0 && p.ev.currentChannel < NUM_CHANNELS
  }

  /** `q` is `p` after sample words of a channel that put `pw` in the event buffer. */
  ghost predicate SamplesStored(p: Parser, q: Parser, pw: seq<bv32>, last: bv16)
    requires AtSamples(p)
  {
    var n := |pw|;
    && |q.data| == EVENT_BUFFER_SIZE && n <= p.ev.header.Length() + 2
    && q == p.(data := q.data, numBytes := p.numBytes + 4 * n, ev := p.ev.(samplesRead := n, prevSample := last))
    && SameOutside(p.data, q.data, Slot(p.ev, 1), Slot(p.ev, n + 1))
    && Slot(p.ev, n + 1) + 4 <= EVENT_BUFFER_SIZE
    && forall j {:trigger pw[j]} :: 0 <= j < n ==> WordAt(q.data, Slot(p.ev, 1) + 4 * j) == pw[j]
  }

  lemma SameOutsideGrows(d: seq<bv8>, d': seq<bv8>, d'': seq<bv8>, lo: nat, mid: nat, hi: nat)
    requires lo <= mid <= hi && SameOutside(d, d', lo, mid) && SameOutside(d', d'', mid, hi)
    ensures SameOutside(d, d'', lo, hi)
  {
    hide WordAt;
  }

  /** One more pair behind those of `pw`. */
  lemma {:induction false} StorePair(p: Parser, q: Parser, pw: seq<bv32>, last: bv16, valid: bv16, pair: Pair)
    requires AtSamples(p) && SamplesStored(p, q, pw, last) && |pw| < p.ev.header.Length() + 2
    ensures SamplesStored(p, StashPair(q, valid, pair.first, pair.second), pw + [SamplePair(valid, pair.first, pair.second)], pair.second)
  {
    hide GoodHeader, Header.Length, WordAt, Slot, Stash, SamplePair, SameOutside, Ok;
    var n, word := |pw|, SamplePair(valid, pair.first, pair.second);
    var next := q.(ev := q.ev.(samplesRead := n + 1, prevSample := pair.second));
    var r := Stash(next, word, n + 1);
    StashWrites(next, word, n + 1);
    SameSlot(next.ev, p.ev, n + 1);
    SlotNext(p.ev, 1);
    SlotNext(p.ev, n + 1);
    SlotNext(p.ev, n + 2);
    SameOutsideGrows(p.data, q.data, r.data, Slot(p.ev, 1), Slot(p.ev, n + 1), Slot(p.ev, n + 2));
    var all := pw + [word];
    forall j {:trigger all[j]} | 0 <= j < n + 1
      ensures WordAt(r.data, Slot(p.ev, 1) + 4 * j) == all[j]
    {
      if j < n {
        StillThere(q.data, r.data, Slot(p.ev, n + 1), Slot(p.ev, n + 1) + 4, Slot(p.ev, 1) + 4 * j);
        assert pw[j] == all[j];
      }
    }
  }

  /** The three pairs of a compressed word. */
  lemma {:induction false} StoreCompressed(p: Parser, q: Parser, pw: seq<bv32>, last: bv16, w: bv32)
    requires AtSamples(p) && SamplesStored(p, q, pw, last) && |pw| < p.ev.header.Length() && IsCompressed(w)
    ensures
      var ps := WordPairs(w, last, pw == []);
      SamplesStored(p, FeedCompressed(q, w, 3), pw + PairWords(ValidBit(w), ps), LastSample(ps))
  {
    hide SmallSample, SamplePair, ValidBit, IsCompressed, SamplesStored, StashPair, FeedCompressed, Header.Length, AtSamples;
    var ps, v := WordPairs(w, last, pw == []), ValidBit(w);
    CanCompress(p, q, pw, last, w);
    var a, b, c := SamplePair(v, ps[0].first, ps[0].second), SamplePair(v, ps[1].first, ps[1].second), SamplePair(v, ps[2].first, ps[2].second);
    var q1 := StashPair(q, v, ps[0].first, ps[0].second);
    StorePair(p, q, pw, last, v, ps[0]);
    var q2 := StashPair(q1, v, ps[1].first, ps[1].second);
    StorePair(p, q1, pw + [a], ps[0].second, v, ps[1]);
    StorePair(p, q2, pw + [a] + [b], ps[1].second, v, ps[2]);
    assert pw + [a] + [b] + [c] == pw + PairWords(v, ps);
  }

  lemma {:induction false} CanCompress(p: Parser, q: Parser, pw: seq<bv32>, last: bv16, w: bv32)
    requires AtSamples(p) && SamplesStored(p, q, pw, last) && |pw| < p.ev.header.Length()
    ensures |q.data| == EVENT_BUFFER_SIZE && q.ev.currentChannel < NUM_CHANNELS
    ensures q.ev.samplesRead == |pw| && q.ev.header.Length() == p.ev.header.Length() && q.ev.prevSample == last
    ensures
      var v := ValidBit(w);
      FeedCompressed(q, w, 3) ==
        StashPair(StashPair(StashPair(q, v, SmallSample(w, last, 0), SmallSample(w, last, 1)),
                            v, SmallSample(w, last, 2), SmallSample(w, last, 3)),
                  v, SmallSample(w, last, 4), SmallSample(w, last, 5))
  {
    hide SmallSample, ValidBit, StashPair, FeedCompressed, Header.Length, SameOutside, Slot, Ok, WordAt;
    CompressedPairs(q, w);
  }

  /** A sample word is stashed, and nothing else happens. */
  lemma {:induction false} FeedSample(q: Parser, w: bv32)
    requires Ok(q) && !q.reeling && q.ev.headerBytesRead == CERES_HEADER_SIZE && q.ev.wfHeaderRead
    requires q.ev.samplesRead < q.ev.header.Length()
    ensures Feed(q, w) == if IsCompressed(w) then FeedCompressed(q, w, 3) else FeedUncompressed(q, w)
  {
    hide GoodHeader, IsCompressed, Header.Length, FeedUncompressed, FeedCompressed;
  }

  lemma {:induction false} StoreWordSamples(p: Parser, q: Parser, pw: seq<bv32>, last: bv16, w: bv32)
    requires AtSamples(p) && Ok(q) && SamplesStored(p, q, pw, last) && |pw| < p.ev.header.Length()
    ensures
      var ps := WordPairs(w, last, pw == []);
      SamplesStored(p, Feed(q, w), pw + PairWords(ValidBit(w), ps), LastSample(ps))
  {
    hide GoodHeader, IsCompressed, Header.Length, WordAt, Slot, UpperSample, LowerSample, SamplePair, ValidBit, SameOutside, Ok, FeedBody, FeedHeader, Feed, FeedCompressed, SmallSample, StashPair;
    FeedSample(q, w);
    hide SamplesStored;
    if IsCompressed(w) {
      StoreCompressed(p, q, pw, last, w);
    } else {
      var ps, v := WordPairs(w, last, pw == []), ValidBit(w);
      StorePair(p, q, pw, last, v, ps[0]);
      assert PairWords(v, ps) == [SamplePair(v, ps[0].first, ps[0].second)];
    }
  }

  lemma {:induction false} StashedNext(ws: seq<bv32>)
    requires ws != []
    ensures
      var n := |ws| - 1;
      var before := Stashed(ws[..n]);
      var ps := WordPairs(ws[n], LastSample(Pairs(ws[..n])), before == []);
      && Stashed(ws) == before + PairWords(ValidBit(ws[n]), ps)
      && |before| < |Stashed(ws)|
      && LastSample(Pairs(ws)) == LastSample(ps)
  {
    hide WordPairs, ValidBit, PairWords;
  }

  lemma {:induction false} FeedSamples(p: Parser, ws: seq<bv32>)
    requires AtSamples(p) && (ws != [] ==> |Stashed(ws[..|ws| - 1])| < p.ev.header.Length())
    ensures SamplesStored(p, FeedAll(p, ws), Stashed(ws), LastSample(Pairs(ws)))
    decreases |ws|
  {
    hide GoodHeader, Header.Length, WordAt, Slot, EventOk, WordPairs, ValidBit, PairWords, Stashed, Pairs;
    if ws == [] {
      SlotNext(p.ev, 1);
    } else {
      hide SameOutside, SamplesStored, Feed;
      var n := |ws| - 1;
      StashedNext(ws);
      if n > 0 {
        StashedNext(ws[..n]);
      }
      FeedSamples(p, ws[..n]);
      StoreWordSamples(p, FeedAll(p, ws[..n]), Stashed(ws[..n]), LastSample(Pairs(ws[..n])), ws[n]);
    }
  }

  lemma StillThere(d: seq<bv8>, d': seq<bv8>, lo: nat, hi: nat, o: nat)
    requires SameOutside(d, d', lo, hi) && o + 4 <= |d| && (o + 4 <= lo || hi <= o)
    ensures WordAt(d', o) == WordAt(d, o)
  {
  }

  lemma SameSlot(a: EventInProgress, b: EventInProgress, j: nat)
    requires a.currentChannel == b.currentChannel < NUM_CHANNELS && a.header == b.header
    ensures Slot(a, j) == Slot(b, j)
  {
  }

  /** The parser is about to read the marker of a channel. */
  ghost predicate AtChannel(p: Parser) {
    && Ok(p) && !p.reeling && p.ev.headerBytesRead == CERES_HEADER_SIZE
    && !p.ev.wfHeaderRead && p.ev.currentChannel < NUM_CHANNELS && |p.data| == EVENT_BUFFER_SIZE
  }

  /** The channel with the marker of `slot` lies at byte `base`: marker, sample pairs, CRC. */
  ghost predicate StoredAt(data: seq<bv8>, base: nat, slot: nat, channel: Channel)
    requires slot < NUM_CHANNELS
  {
    var pw := Stashed(channel.samples);
    && base + 4 * (|pw| + 2) <= |data|
    && WordAt(data, base) == ChannelMarker(slot)
    && (forall j {:trigger pw[j]} :: 0 <= j < |pw| ==> WordAt(data, base + 4 + 4 * j) == pw[j])
    && WordAt(data, base + 4 * (|pw| + 1)) == channel.crc
  }

  lemma {:induction false} FeedMarker(p: Parser)
    requires AtChannel(p)
    ensures
      var q := Feed(p, ChannelMarker(p.ev.currentChannel));
      && AtSamples(q) && q == p.(data := q.data, numBytes := p.numBytes + 4, ev := p.ev.(wfHeaderRead := true, wfCrcRead := false))
      && q.data == Stash(p, ChannelMarker(p.ev.currentChannel), 0).data
  {
    hide GoodHeader, Header.Length, ChannelMarker, Stash;
  }

  lemma {:induction false} FeedCrc(q: Parser, crc: bv32)
    requires Ok(q) && !q.reeling && q.ev.headerBytesRead == CERES_HEADER_SIZE && q.ev.wfHeaderRead
    requires q.ev.currentChannel < NUM_CHANNELS && q.ev.samplesRead >= q.ev.header.Length()
    ensures
      var r := FeedBody(q, crc);
      && r.data == Stash(q, crc, q.ev.samplesRead + 1).data
      && r == q.(data := r.data, numBytes := q.numBytes + 4,
                 ev := q.ev.(currentChannel := q.ev.currentChannel + 1, samplesRead := 0, wfCrcRead := true,
                             wfHeaderRead := false, prevSample := 0))
      && Feed(q, crc) == (if Complete(r) then Publish(r) else r)
  {
    hide GoodHeader, Header.Length, ChannelMarker, Stash;
  }

  /** `r` is `p` after one more channel. */
  ghost predicate ChannelDone(p: Parser, r: Parser, channel: Channel)
    requires p.ev.currentChannel < NUM_CHANNELS
  {
    var n := |Stashed(channel.samples)|;
    && |r.data| == EVENT_BUFFER_SIZE
    && r == p.(data := r.data, numBytes := p.numBytes + 4 * (n + 2),
               ev := p.ev.(currentChannel := p.ev.currentChannel + 1, wfCrcRead := true))
    && StoredAt(r.data, Slot(p.ev, 0), NewChannel(p.ev.header.IsEven(), p.ev.currentChannel), channel)
    && SameOutside(p.data, r.data, Slot(p.ev, 0), Slot(p.ev, 0) + 4 * (n + 2))
  }

  /** One channel: marker, samples and CRC go to its permuted place, one behind the other, and nothing else changes. */
  lemma {:induction false} FeedChannel(p: Parser, channel: Channel) returns (q: Parser, r: Parser)
    requires AtChannel(p) && IsRead(channel, p.ev.header.Length())
    ensures Ok(q) && !q.reeling && q.ev.headerBytesRead == CERES_HEADER_SIZE && r == FeedBody(q, channel.crc)
    ensures q == FeedAll(p, [ChannelMarker(p.ev.currentChannel)] + channel.samples) && ChannelDone(p, r, channel)
    ensures FeedAll(p, ChannelWords(p.ev.currentChannel, channel)) == if Complete(r) then Publish(r) else r
  {
    hide GoodHeader, Header.Length, ChannelMarker, Stash, FeedBody, WordAt, Slot, SameOutside, Feed, FeedAll, Stashed, Pairs, NewChannel, Ok, EventOk, StoredAt;
    var marker, ws, n := ChannelMarker(p.ev.currentChannel), channel.samples, |Stashed(channel.samples)|;
    var m := Feed(p, marker);
    FeedMarker(p);
    StashWrites(p, marker, 0);
    q := FeedAll(m, ws);
    FeedSamples(m, ws);
    r := FeedBody(q, channel.crc);
    FeedCrc(q, channel.crc);
    StashWrites(q, channel.crc, n + 1);
    var base := Slot(p.ev, 0);
    SameSlot(m.ev, p.ev, 1);
    SameSlot(m.ev, p.ev, n + 1);
    SameSlot(q.ev, p.ev, n + 1);
    SlotNext(p.ev, 1);
    SlotNext(p.ev, n + 1);
    ChannelIsStored(p.data, m.data, q.data, r.data, base, NewChannel(p.ev.header.IsEven(), p.ev.currentChannel), channel);
    FeedThree(p, marker, ws, channel.crc);
  }

  lemma {:induction false} FeedThree(p: Parser, first: bv32, ws: seq<bv32>, last: bv32)
    requires Ok(p)
    ensures FeedAll(p, [first] + ws) == FeedAll(Feed(p, first), ws)
    ensures FeedAll(p, [first] + ws + [last]) == Feed(FeedAll(Feed(p, first), ws), last)
  {
    hide Ok, Feed;
    assert FeedAll(p, [first]) == Feed(p, first) by {
      assert [first][..0] == [];
    }
    FeedAllConcat(p, [first], ws);
    FeedAllConcat(p, [first] + ws, [last]);
    assert FeedAll(FeedAll(p, [first] + ws), [last]) == Feed(FeedAll(p, [first] + ws), last) by {
      assert [last][..0] == [];
    }
  }

  /** Marker, samples and CRC written one after the other make a stored channel. */
  lemma ChannelIsStored(d0: seq<bv8>, d1: seq<bv8>, d2: seq<bv8>, d3: seq<bv8>, base: nat, slot: nat, channel: Channel)
    requires
      var n := |Stashed(channel.samples)|;
      && slot < NUM_CHANNELS && base + 4 * (n + 2) <= |d0| == |d1| == |d2| == |d3|
      && SameOutside(d0, d1, base, base + 4) && WordAt(d1, base) == ChannelMarker(slot)
      && SameOutside(d1, d2, base + 4, base + 4 * (n + 1))
      && SameOutside(d2, d3, base + 4 * (n + 1), base + 4 * (n + 2))
      && WordAt(d3, base + 4 * (n + 1)) == channel.crc
    requires var pw := Stashed(channel.samples);
      forall j {:trigger pw[j]} :: 0 <= j < |pw| ==> WordAt(d2, base + 4 + 4 * j) == pw[j]
    ensures StoredAt(d3, base, slot, channel)
    ensures SameOutside(d0, d3, base, base + 4 * (|Stashed(channel.samples)| + 2))
  {
    hide ChannelMarker, WordAt, SameOutside, Stashed;
    var pw := Stashed(channel.samples);
    var n := |pw|;
    SameOutsideGrows(d0, d1, d2, base, base + 4, base + 4 * (n + 1));
    SameOutsideGrows(d0, d2, d3, base, base + 4 * (n + 1), base + 4 * (n + 2));
    StillThere(d1, d2, base + 4, base + 4 * (n + 1), base);
    StillThere(d2, d3, base + 4 * (n + 1), base + 4 * (n + 2), base);
    forall j {:trigger pw[j]} | 0 <= j < n
      ensures WordAt(d3, base + 4 + 4 * j) == pw[j]
    {
      StillThere(d2, d3, base + 4 * (n + 1), base + 4 * (n + 2), base + 4 + 4 * j);
    }
  }

  // ----- The header -----

  /** The parser is about to read an event; trashed headers may have left bytes counted. */
  ghost predicate AtEvent(p: Parser) {
    Ok(p) && !p.reeling && p.ev == START_EVENT && p.numBytes <= MAX_STALE && |p.data| == EVENT_BUFFER_SIZE
  }

  function HeaderAfter(ws: seq<bv32>, n: nat): Header
    requires n <= |ws|
  {
    if n == 0 then BLANK_HEADER else InterpretHeaderWord(HeaderAfter(ws, n - 1), ws[n - 1], n - 1)
  }

  lemma {:induction false} HeaderAfterFive(ws: seq<bv32>)
    requires |ws| == 5
    ensures HeaderAfter(ws, 5) == InterpretHeader(BLANK_HEADER, ws)
  {
    hide InterpretHeaderWord;
    HeaderAfterNone(ws);
    assert HeaderAfter(ws, 1) == InterpretHeaderWord(BLANK_HEADER, ws[0], 0);
    assert HeaderAfter(ws, 2) == InterpretHeaderWord(HeaderAfter(ws, 1), ws[1], 1);
    assert HeaderAfter(ws, 3) == InterpretHeaderWord(HeaderAfter(ws, 2), ws[2], 2);
    assert HeaderAfter(ws, 4) == InterpretHeaderWord(HeaderAfter(ws, 3), ws[3], 3);
    assert HeaderAfter(ws, 5) == InterpretHeaderWord(HeaderAfter(ws, 4), ws[4], 4);
  }

  lemma {:induction false} HeaderAfterAll(h: Header)
    ensures HeaderAfter(HeaderWords(h), 5) == h
  {
    hide HeaderAfter, HeaderWords, InterpretHeader;
    HeaderAfterFive(HeaderWords(h));
    HeaderRoundTrip(BLANK_HEADER, h);
  }

  /** `q` is `p` after `n` header words. */
  ghost predicate HeaderRead(p: Parser, q: Parser, ws: seq<bv32>, n: nat)
    requires AtEvent(p) && n <= |ws| == 5
  {
    && |q.data| == EVENT_BUFFER_SIZE
    && q == p.(data := q.data, numBytes := p.numBytes + 4 * n,
               ev := START_EVENT.(header := HeaderAfter(ws, n), headerBytesRead := 4 * n))
    && SameOutside(p.data, q.data, p.numBytes, p.numBytes + 4 * n)
    && forall i {:trigger ws[i]} :: 0 <= i < n ==> WordAt(q.data, p.numBytes + 4 * i) == ws[i]
  }

  /** The header words, up to the check of the last one. */
  lemma {:induction false} FeedHeaderWords(p: Parser, ws: seq<bv32>, n: nat) returns (q: Parser)
    requires AtEvent(p) && n <= |ws| == 5
    ensures HeaderRead(p, q, ws, n) && FeedAll(p, ws[..n]) == CheckHeader(q)
    decreases n
  {
    hide GoodHeader, InterpretHeaderWord, WordAt, HeaderAfter;
    if n == 0 {
      q := p;
      assert HeaderAfter(ws, 0) == BLANK_HEADER by { HeaderAfterNone(ws); }
    } else {
      q := FeedHeaderWords(p, ws, n - 1);
      assert ws[..n][..n - 1] == ws[..n - 1];
      q := FeedHeaderWord(p, q, ws, n - 1);
    }
  }

  lemma HeaderAfterNone(ws: seq<bv32>)
    ensures HeaderAfter(ws, 0) == BLANK_HEADER
  {
  }

  lemma {:induction false} FeedHeaderWord(p: Parser, q: Parser, ws: seq<bv32>, n: nat) returns (r: Parser)
    requires AtEvent(p) && n < |ws| == 5 && HeaderRead(p, q, ws, n)
    ensures CheckHeader(q) == q && Ok(q)
    ensures HeaderRead(p, r, ws, n + 1) && Feed(q, ws[n]) == CheckHeader(r)
  {
    hide GoodHeader, InterpretHeaderWord, WordAt, StoreWord, SameOutside, FeedBody;
    var o := p.numBytes + 4 * n;
    r := TakeHeaderWord(q, ws[n]);
    assert HeaderAfter(ws, n + 1) == InterpretHeaderWord(HeaderAfter(ws, n), ws[n], n);
    assert r.data == StoreWord(q.data, o, ws[n]);
    StoreSameOutside(q.data, o, ws[n]);
    SameOutsideGrows(p.data, q.data, r.data, p.numBytes, o, o + 4);
    forall i {:trigger ws[i]} | 0 <= i < n + 1
      ensures WordAt(r.data, p.numBytes + 4 * i) == ws[i]
    {
      if i < n {
        StillThere(q.data, r.data, o, o + 4, p.numBytes + 4 * i);
      }
    }
  }

  // ----- All channels -----

  /** Both channel orders are their own inverses, so every slot is the place of exactly one channel. */
  lemma NewChannelIsInvolution(isXem1: bool, c: nat)
    requires c < NUM_CHANNELS
    ensures NewChannel(isXem1, NewChannel(isXem1, c)) == c
  {
  }

  lemma ChannelsApart(isXem1: bool, length: nat, a: nat, b: nat)
    requires a < NUM_CHANNELS && b < NUM_CHANNELS && a != b
    ensures
      var x, y := Offset(NewChannel(isXem1, a), length, 0), Offset(NewChannel(isXem1, b), length, 0);
      x + 4 * (length + 2) <= y || y + 4 * (length + 2) <= x
  {
    hide NewChannel;
    NewChannelIsInvolution(isXem1, a);
    NewChannelIsInvolution(isXem1, b);
    var x, y := NewChannel(isXem1, a), NewChannel(isXem1, b);
    if x < y {
      TimesBelow(x + 1, y, (length + 2) * 4);
    } else {
      TimesBelow(y + 1, x, (length + 2) * 4);
    }
  }

  lemma ChannelInBuffer(isXem1: bool, length: nat, c: nat)
    requires c < NUM_CHANNELS
    ensures 20 <= Offset(NewChannel(isXem1, c), length, 0)
    ensures Offset(NewChannel(isXem1, c), length, 0) + 4 * (length + 2) <= 20 + 64 * (length + 2)
  {
    hide NewChannel;
    TimesBelow(NewChannel(isXem1, c) + 1, NUM_CHANNELS, (length + 2) * 4);
  }

  /** The first `k` channels, one after the other. */
  function ChannelsWords(channels: seq<Channel>, k: nat): seq<bv32>
    requires k <= |channels| == NUM_CHANNELS
  {
    if k == 0 then [] else ChannelsWords(channels, k - 1) + ChannelWords(k - 1, channels[k - 1])
  }

  /** Channel `c` lies in its permuted place. */
  ghost predicate Stored(data: seq<bv8>, h: Header, c: nat, channel: Channel)
    requires c < NUM_CHANNELS
  {
    StoredAt(data, Offset(NewChannel(h.IsEven(), c), h.Length(), 0), NewChannel(h.IsEven(), c), channel)
  }

  ghost predicate AreRead(channels: seq<Channel>, length: nat) {
    |channels| == NUM_CHANNELS && forall c :: 0 <= c < NUM_CHANNELS ==> IsRead(channels[c], length)
  }

  /** No word of the first `k` channels has pairs to spare. */
  ghost predicate AllFit(channels: seq<Channel>, k: nat, length: nat)
    requires k <= |channels|
  {
    forall c :: 0 <= c < k ==> Fits(channels[c], length)
  }

  lemma {:induction false} FittingAreRead(channels: seq<Channel>, length: nat)
    requires |channels| == NUM_CHANNELS && AllFit(channels, NUM_CHANNELS, length)
    ensures AreRead(channels, length)
  {
    hide Fits, IsRead;
    forall c | 0 <= c < NUM_CHANNELS
      ensures IsRead(channels[c], length)
    {
      FitsIsRead(channels[c], length);
    }
  }

  /** The words that the first `k` channels put in the event buffer. */
  ghost function Total(channels: seq<Channel>, k: nat): nat
    requires k <= |channels|
  {
    if k == 0 then 0 else Total(channels, k - 1) + |Stashed(channels[k - 1].samples)| + 2
  }

  /** They are at least what the length asks for, and no more just when no word has pairs to spare. */
  lemma {:induction false} TotalIs(channels: seq<Channel>, k: nat, length: nat)
    requires AreRead(channels, length) && k <= NUM_CHANNELS
    ensures Total(channels, k) >= k * (length + 2)
    ensures Total(channels, k) == k * (length + 2) <==> AllFit(channels, k, length)
    decreases k
  {
    hide Stashed, Pairs;
    if k > 0 {
      TotalIs(channels, k - 1, length);
      NextChannel(k - 1, length + 2);
      assert IsRead(channels[k - 1], length);
      assert AllFit(channels, k, length) <==> AllFit(channels, k - 1, length) && Fits(channels[k - 1], length);
    }
  }

  /** Behind the last byte that channels of that length, the overlong ones included, can reach. */
  function EndOfChannels(length: nat): nat { CERES_HEADER_SIZE + 64 * (length + 2) + 8 }

  /** `q` is `p` after `k` channels. */
  ghost predicate ChannelsDone(p: Parser, q: Parser, channels: seq<Channel>, k: nat)
    requires k <= |channels| == NUM_CHANNELS
  {
    var n := p.ev.header.Length();
    && |q.data| == EVENT_BUFFER_SIZE
    && q == p.(data := q.data, numBytes := p.numBytes + 4 * Total(channels, k),
               ev := p.ev.(currentChannel := k, wfCrcRead := k > 0))
    && (AllFit(channels, k, n) ==> forall c :: 0 <= c < k ==> Stored(q.data, p.ev.header, c, channels[c]))
    && SameOutside(p.data, q.data, CERES_HEADER_SIZE, EndOfChannels(n))
  }

  /** A stored channel survives writes that stay out of it. */
  lemma StoredStays(d: seq<bv8>, d': seq<bv8>, base: nat, slot: nat, channel: Channel, lo: nat, hi: nat)
    requires slot < NUM_CHANNELS && |d| == |d'| && StoredAt(d, base, slot, channel)
    requires base + 4 * (|Stashed(channel.samples)| + 2) <= lo || hi <= base
    requires SameOutside(d, d', lo, hi)
    ensures StoredAt(d', base, slot, channel)
  {
    hide WordAt, ChannelMarker, Stashed, SameOutside;
    var pw := Stashed(channel.samples);
    StillThere(d, d', lo, hi, base);
    StillThere(d, d', lo, hi, base + 4 * (|pw| + 1));
    forall j {:trigger pw[j]} | 0 <= j < |pw|
      ensures WordAt(d', base + 4 + 4 * j) == pw[j]
    {
      StillThere(d, d', lo, hi, base + 4 + 4 * j);
    }
  }

  lemma SameOutsideWithin(d: seq<bv8>, d': seq<bv8>, d'': seq<bv8>, lo: nat, hi: nat, lo': nat, hi': nat)
    requires SameOutside(d, d', lo, hi) && SameOutside(d', d'', lo', hi') && lo <= lo' && hi' <= hi
    ensures SameOutside(d, d'', lo, hi)
  {
    hide WordAt;
  }

  /** One more channel after the first `k`. */
  lemma {:induction false} ChannelAdded(p: Parser, q: Parser, r: Parser, channels: seq<Channel>, k: nat)
    requires AreRead(channels, p.ev.header.Length()) && k < NUM_CHANNELS && p.ev.currentChannel == 0
    requires ChannelsDone(p, q, channels, k) && ChannelDone(q, r, channels[k])
    ensures ChannelsDone(p, r, channels, k + 1)
  {
    hide NewChannel, Offset, Header.Length, SameOutside, StoredAt, Stashed, Pairs;
    var h, n, m := p.ev.header, p.ev.header.Length(), |Stashed(channels[k].samples)|;
    ChannelInBuffer(h.IsEven(), n, k);
    ReadAtMost(channels[k], n);
    SameOutsideWithin(p.data, q.data, r.data, CERES_HEADER_SIZE, EndOfChannels(n), Slot(q.ev, 0), Slot(q.ev, 0) + 4 * (m + 2));
    if AllFit(channels, k + 1, n) {
      AllStored(p, q, r, channels, k);
    }
  }

  lemma {:induction false} ReadAtMost(channel: Channel, length: nat)
    requires IsRead(channel, length)
    ensures |Stashed(channel.samples)| <= length + 2
  {
    hide Stashed, Pairs, ValidBit, WordPairs, PairWords;
    if channel.samples != [] {
      StashedNext(channel.samples);
    }
  }

  lemma {:induction false} AllStored(p: Parser, q: Parser, r: Parser, channels: seq<Channel>, k: nat)
    requires |channels| == NUM_CHANNELS && k < NUM_CHANNELS && AllFit(channels, k + 1, p.ev.header.Length())
    requires p.ev.currentChannel == 0 && ChannelsDone(p, q, channels, k) && ChannelDone(q, r, channels[k])
    ensures forall c :: 0 <= c < k + 1 ==> Stored(r.data, p.ev.header, c, channels[c])
  {
    hide NewChannel, Offset, Header.Length, SameOutside, StoredAt, Stashed, Pairs;
    var h, n := p.ev.header, p.ev.header.Length();
    assert Fits(channels[k], n);
    forall c | 0 <= c < k + 1
      ensures Stored(r.data, h, c, channels[c])
    {
      if c < k {
        ChannelsApart(h.IsEven(), n, c, k);
        StoredStays(q.data, r.data, Offset(NewChannel(h.IsEven(), c), n, 0), NewChannel(h.IsEven(), c), channels[c],
                    Slot(q.ev, 0), Slot(q.ev, 0) + 4 * (n + 2));
      }
    }
  }

  /** A good header has been read, and nothing behind it. */
  ghost predicate AtFirstChannel(p: Parser) {
    AtChannel(p) && p.ev.currentChannel == 0 && !p.ev.wfCrcRead
  }

  lemma {:induction false} FeedChannels(p: Parser, channels: seq<Channel>, k: nat)
    requires AtFirstChannel(p)
    requires AreRead(channels, p.ev.header.Length()) && k < NUM_CHANNELS
    ensures ChannelsDone(p, FeedAll(p, ChannelsWords(channels, k)), channels, k)
    decreases k
  {
    hide GoodHeader, Header.Length, Feed, Stored, EventOk, ChannelWords, FeedBody, NewChannel, StoredAt, Stashed, Pairs, IsRead, Fits, Slot, WordAt;
    if k > 0 {
      hide SameOutside, AllFit;
      FeedChannels(p, channels, k - 1);
      var q := FeedAll(p, ChannelsWords(channels, k - 1));
      var before, r := FeedChannel(q, channels[k - 1]);
      ChannelAdded(p, q, r, channels, k - 1);
      FeedAllConcat(p, ChannelsWords(channels, k - 1), ChannelWords(k - 1, channels[k - 1]));
    }
  }

  /** All sixteen channels, up to publication; `q` is the parser before the last word. */
  lemma {:induction false} FeedAllChannels(p: Parser, channels: seq<Channel>) returns (q: Parser, r: Parser)
    requires AtFirstChannel(p) && AreRead(channels, p.ev.header.Length())
    ensures Ok(q) && !q.reeling && q.ev.headerBytesRead == CERES_HEADER_SIZE && r == FeedBody(q, channels[15].crc)
    ensures ChannelsDone(p, r, channels, NUM_CHANNELS) && EventOk(r.ev, r.numBytes)
    ensures
      var ws := ChannelsWords(channels, NUM_CHANNELS);
      && ws != [] && ws[|ws| - 1] == channels[15].crc && q == FeedAll(p, ws[..|ws| - 1])
      && FeedAll(p, ws) == Publish(r)
  {
    hide GoodHeader, Header.Length, Feed, FeedAll, Stored, FeedBody, WordAt, Publish, Stashed, Pairs, Fits, IsRead, Slot, StoredAt, NewChannel, AllFit, Total, EndOfChannels, ChannelMarker, Ok, EventOk;
    var m := FeedAll(p, ChannelsWords(channels, 15));
    FeedChannels(p, channels, 15);
    q, r := FeedChannel(m, channels[15]);
    ChannelAdded(p, m, r, channels, 15);
    FeedBodyOk(q, channels[15].crc);
    var most, rest := ChannelsWords(channels, 15), [ChannelMarker(15)] + channels[15].samples;
    FeedAllConcat(p, most, ChannelWords(15, channels[15]));
    FeedAllConcat(p, most, rest);
    var ws := ChannelsWords(channels, NUM_CHANNELS);
    assert ws == most + rest + [channels[15].crc];
    assert ws[..|ws| - 1] == most + rest;
  }

  // ----- A whole event -----

  function EventWords(h: Header, channels: seq<Channel>): seq<bv32>
    requires |channels| == NUM_CHANNELS
  {
    HeaderWords(h) + ChannelsWords(channels, NUM_CHANNELS)
  }

  /** The published bytes: the header in front, every channel in its permuted place, and nothing more. */
  ghost predicate IsEventImage(bytes: seq<bv8>, h: Header, channels: seq<Channel>)
    requires |channels| == NUM_CHANNELS
  {
    && |bytes| == CERES_HEADER_SIZE + 64 * (h.Length() + 2)
    && (forall i {:trigger HeaderWords(h)[i]} :: 0 <= i < 5 ==> WordAt(bytes, 4 * i) == HeaderWords(h)[i])
    && forall c :: 0 <= c < NUM_CHANNELS ==> Stored(bytes, h, c, channels[c])
  }

  /** The event buffer just before an event is published; `d` is what it was after the header. */
  ghost predicate EventRead(p: Parser, d: seq<bv8>, r: Parser, h: Header, channels: seq<Channel>)
    requires AtEvent(p) && |channels| == NUM_CHANNELS
  {
    && |r.data| == EVENT_BUFFER_SIZE && r.ev.header == h && !r.reeling && r.published == p.published
    && r.numBytes == p.numBytes + CERES_HEADER_SIZE + 4 * Total(channels, NUM_CHANNELS)
    && (AllFit(channels, NUM_CHANNELS, h.Length()) ==> forall c :: 0 <= c < NUM_CHANNELS ==> Stored(r.data, h, c, channels[c]))
    && |d| == EVENT_BUFFER_SIZE
    && SameOutside(p.data, d, p.numBytes, p.numBytes + 20)
    && SameOutside(d, r.data, CERES_HEADER_SIZE, EndOfChannels(h.Length()))
    && forall i {:trigger HeaderWords(h)[i]} :: 0 <= i < 5 ==> WordAt(d, p.numBytes + 4 * i) == HeaderWords(h)[i]
  }

  /** An event, from wherever it starts to its publication. */
  lemma {:induction false} FeedEvent(p: Parser, h: Header, channels: seq<Channel>) returns (d: seq<bv8>, r: Parser)
    requires AtEvent(p) && GoodHeader(h) && AreRead(channels, h.Length())
    ensures EventRead(p, d, r, h, channels) && EventOk(r.ev, r.numBytes)
    ensures FeedAll(p, EventWords(h, channels)) == Publish(r)
  {
    hide GoodHeader, Header.Length, Feed, Stored, FeedBody, HeaderAfter, WordAt, Publish, HeaderWords, Stashed, Pairs, Fits, IsRead, Slot, StoredAt, ChannelWords, NewChannel, AllFit, Total, EndOfChannels;
    var hw := HeaderWords(h);
    HeaderAfterAll(h);
    var m := FeedHeaderWords(p, hw, 5);
    d := m.data;
    assert hw[..5] == hw;
    assert FeedAll(p, hw) == m;
    var q;
    q, r := FeedAllChannels(m, channels);
    FeedAllConcat(p, hw, ChannelsWords(channels, 16));
  }

  lemma FeedBodyOk(q: Parser, w: bv32)
    requires Ok(q) && !q.reeling && q.ev.headerBytesRead == CERES_HEADER_SIZE && !FeedBody(q, w).reeling
    ensures EventOk(FeedBody(q, w).ev, FeedBody(q, w).numBytes)
  {
    hide FeedBody;
  }

  lemma WordAtPrefix(d: seq<bv8>, n: nat, o: nat)
    requires o + 4 <= n <= |d|
    ensures WordAt(d[..n], o) == WordAt(d, o)
  {
  }

  lemma StoredInPrefix(d: seq<bv8>, n: nat, base: nat, slot: nat, channel: Channel)
    requires slot < NUM_CHANNELS && n <= |d| && StoredAt(d, base, slot, channel)
    requires base + 4 * (|Stashed(channel.samples)| + 2) <= n
    ensures StoredAt(d[..n], base, slot, channel)
  {
    hide WordAt, ChannelMarker, Stashed;
    var pw := Stashed(channel.samples);
    WordAtPrefix(d, n, base);
    WordAtPrefix(d, n, base + 4 * (|pw| + 1));
    forall j {:trigger pw[j]} | 0 <= j < |pw|
      ensures WordAt(d[..n], base + 4 + 4 * j) == pw[j]
    {
      WordAtPrefix(d, n, base + 4 + 4 * j);
    }
  }

  /** A parser between events with nothing counted: the state after every published event. */
  ghost predicate Clean(p: Parser) { AtEvent(p) && p.numBytes == 0 }

  /** `q` is `p` after one more event `h`, `channels` has been published. */
  ghost predicate PublishedOne(p: Parser, q: Parser, h: Header, channels: seq<Channel>)
    requires |channels| == NUM_CHANNELS
  {
    && Clean(q)
    && |q.published| == |p.published| + 1 && p.published <= q.published
    && q.published[|p.published|].header == h
    && IsEventImage(q.published[|p.published|].bytes, h, channels)
  }

  /** With nothing counted before it, an event without pairs to spare is published as it was sent. */
  lemma {:induction false} FittingIsPublished(p: Parser, h: Header, channels: seq<Channel>)
    requires Clean(p) && GoodHeader(h) && |channels| == NUM_CHANNELS && AllFit(channels, NUM_CHANNELS, h.Length())
    ensures PublishedOne(p, FeedAll(p, EventWords(h, channels)), h, channels)
  {
    FittingAreRead(channels, h.Length());
    TotalIs(channels, NUM_CHANNELS, h.Length());
    hide GoodHeader, Header.Length, EventWords, WordAt, NewChannel, StoredAt, HeaderWords, FeedAll, Offset, SameOutside, EventOk, AllFit, AreRead, Stashed, Pairs, Total, EndOfChannels, Stored;
    var d, r := FeedEvent(p, h, channels);
    CountFits(r.ev, r.numBytes);
    var bytes := r.data[..r.numBytes];
    forall i {:trigger HeaderWords(h)[i]} | 0 <= i < 5
      ensures WordAt(bytes, 4 * i) == HeaderWords(h)[i]
    {
      StillThere(d, r.data, CERES_HEADER_SIZE, EndOfChannels(h.Length()), 4 * i);
      WordAtPrefix(r.data, r.numBytes, 4 * i);
    }
    forall c | 0 <= c < NUM_CHANNELS
      ensures Stored(bytes, h, c, channels[c])
    {
      FitsInPrefix(r, h, channels, c);
    }
  }

  lemma {:induction false} FitsInPrefix(r: Parser, h: Header, channels: seq<Channel>, c: nat)
    requires |channels| == NUM_CHANNELS && c < NUM_CHANNELS && AllFit(channels, NUM_CHANNELS, h.Length())
    requires CERES_HEADER_SIZE + 64 * (h.Length() + 2) <= r.numBytes <= |r.data| && Stored(r.data, h, c, channels[c])
    ensures Stored(r.data[..r.numBytes], h, c, channels[c])
  {
    hide Header.Length, WordAt, NewChannel, StoredAt, Offset, Stashed, Pairs;
    assert Fits(channels[c], h.Length());
    ChannelInBuffer(h.IsEven(), h.Length(), c);
    StoredInPrefix(r.data, r.numBytes, Offset(NewChannel(h.IsEven(), c), h.Length(), 0), NewChannel(h.IsEven(), c), channels[c]);
  }

  /** Bytes counted before an event, if any, are published on top of it, and in front. */
  ghost predicate PublishedStale(p: Parser, q: Parser, h: Header, channels: seq<Channel>)
    requires |p.data| >= 20 && |channels| == NUM_CHANNELS
  {
    && q.reeling == p.reeling && q.numBytes == 0
    && |q.published| == |p.published| + 1 && p.published <= q.published
    && q.published[|p.published|].header == h
    && var bytes := q.published[|p.published|].bytes;
    && |bytes| == p.numBytes + CERES_HEADER_SIZE + 4 * Total(channels, NUM_CHANNELS)
    && (p.numBytes >= CERES_HEADER_SIZE ==> forall o :: 0 <= o <= 16 ==> WordAt(bytes, o) == WordAt(p.data, o))
  }

  lemma {:induction false} StaleBytesArePublished(p: Parser, h: Header, channels: seq<Channel>)
    requires AtEvent(p) && GoodHeader(h) && AreRead(channels, h.Length())
    ensures PublishedStale(p, FeedAll(p, EventWords(h, channels)), h, channels)
  {
    hide GoodHeader, Header.Length, EventWords, WordAt, Stored, HeaderWords, FeedAll, SameOutside, EventOk, AllFit, AreRead, Total;
    var d, r := FeedEvent(p, h, channels);
    CountFits(r.ev, r.numBytes);
    var bytes := r.data[..r.numBytes];
    if p.numBytes >= CERES_HEADER_SIZE {
      forall o | 0 <= o <= 16
        ensures WordAt(bytes, o) == WordAt(p.data, o)
      {
        StillThere(p.data, d, p.numBytes, p.numBytes + 20, o);
        StillThere(d, r.data, CERES_HEADER_SIZE, EndOfChannels(h.Length()), o);
        WordAtPrefix(r.data, r.numBytes, o);
      }
    }
  }

  /**
   An event is published as it was sent, its header, then each channel, decoded, in its permuted
   place, in exactly 20 + 64 * (length + 2) bytes, if and only if nothing was counted before it and
   compressed words are used only where three pairs are missing.
   */
  lemma {:induction false} EventIsPublished(p: Parser, h: Header, channels: seq<Channel>)
    requires AtEvent(p) && GoodHeader(h) && AreRead(channels, h.Length())
    ensures PublishedOne(p, FeedAll(p, EventWords(h, channels)), h, channels)
       <==> p.numBytes == 0 && AllFit(channels, NUM_CHANNELS, h.Length())
  {
    assert |channels| == NUM_CHANNELS;
    hide GoodHeader, Header.Length, EventWords, Stored, HeaderWords, FeedAll, AllFit, AreRead, Ok, WordAt, Total;
    StaleBytesArePublished(p, h, channels);
    TotalIs(channels, NUM_CHANNELS, h.Length());
    if p.numBytes == 0 && AllFit(channels, NUM_CHANNELS, h.Length()) {
      FittingIsPublished(p, h, channels);
    }
  }

  // ----- After a bad header -----

  /** `q` is where a bad header and the next turn that finds an event lead. */
  ghost predicate HeaderTrashed(p: Parser, q: Parser, bad: seq<bv32>)
    requires |bad| == 5
  {
    && AtEvent(q) && q.published == p.published && q.numBytes == p.numBytes + CERES_HEADER_SIZE
    && |p.data| == EVENT_BUFFER_SIZE && SameOutside(p.data, q.data, p.numBytes, p.numBytes + 20)
    && forall i {:trigger bad[i]} :: 0 <= i < 5 ==> WordAt(q.data, p.numBytes + 4 * i) == bad[i]
  }

  /** A header that does not check sets the flag; once it is cleared, the header is still counted. */
  lemma {:induction false} BadHeaderStaysCounted(p: Parser, bad: seq<bv32>)
    requires AtEvent(p) && |bad| == 5 && !GoodHeader(InterpretHeader(BLANK_HEADER, bad))
    requires p.numBytes + CERES_HEADER_SIZE <= MAX_STALE
    ensures FeedAll(p, bad).reeling && FeedAll(p, bad).numBytes == p.numBytes + CERES_HEADER_SIZE
    ensures HeaderTrashed(p, Resume(FeedAll(p, bad)), bad)
  {
    hide GoodHeader, InterpretHeaderWord, WordAt, SameOutside, FeedAll;
    HeaderAfterFive(bad);
    var q := FeedHeaderWords(p, bad, 5);
    assert bad[..5] == bad;
  }

  /** Only the last word of a bad header sets the flag. */
  lemma {:induction false} PartOfBadHeader(p: Parser, bad: seq<bv8>, n: nat)
    requires AtEvent(p) && |bad| == CERES_HEADER_SIZE && !GoodHeader(InterpretHeader(BLANK_HEADER, WordsOf(bad)))
    requires p.numBytes + CERES_HEADER_SIZE <= MAX_STALE && Whole(n) && n <= CERES_HEADER_SIZE
    ensures
      var q := FeedAll(p, WordsOf(bad[..n]));
      q.published == p.published && if n < CERES_HEADER_SIZE then !q.reeling && q.ev.headerBytesRead == n else q.reeling
  {
    hide GoodHeader, InterpretHeader, BigEndian, SameOutside, FeedAll, Ok;
    var ws := WordsOf(bad);
    assert WordsOf(bad[..n]) == ws[..n / 4];
    hide WordAt;
    var q := FeedHeaderWords(p, ws, n / 4);
    if n == CERES_HEADER_SIZE {
      assert ws[..5] == ws;
      BadHeaderStaysCounted(p, ws);
    }
  }

  /** Where any number of bad headers leads, each followed by a turn that finds the next one. */
  ghost function AfterBadHeaders(p: Parser, bads: seq<seq<bv32>>): (q: Parser)
    requires AtEvent(p) && p.numBytes + CERES_HEADER_SIZE * |bads| <= MAX_STALE
    requires forall i :: 0 <= i < |bads| ==> |bads[i]| == 5 && !GoodHeader(InterpretHeader(BLANK_HEADER, bads[i]))
    ensures AtEvent(q) && q.published == p.published
    ensures q.numBytes == p.numBytes + CERES_HEADER_SIZE * |bads|
    decreases |bads|
  {
    hide GoodHeader, InterpretHeader, Ok;
    if bads == [] then p else
      var n := |bads| - 1;
      var before := AfterBadHeaders(p, bads[..n]);
      BadHeaderStaysCounted(before, bads[n]);
      Resume(FeedAll(before, bads[n]))
  }

  /** Between events without bad headers, the event that follows is published as sent; after any bad header, it is not. */
  lemma {:induction false} BadHeadersSpoilTheNextEvent(p: Parser, bads: seq<seq<bv32>>, h: Header, channels: seq<Channel>)
    requires Clean(p) && CERES_HEADER_SIZE * |bads| <= MAX_STALE
    requires forall i :: 0 <= i < |bads| ==> |bads[i]| == 5 && !GoodHeader(InterpretHeader(BLANK_HEADER, bads[i]))
    requires GoodHeader(h) && |channels| == NUM_CHANNELS && AllFit(channels, NUM_CHANNELS, h.Length())
    ensures
      var q := AfterBadHeaders(p, bads);
      var r := FeedAll(q, EventWords(h, channels));
      && (PublishedOne(q, r, h, channels) <==> bads == [])
      && |r.published| == |p.published| + 1
      && var bytes := r.published[|p.published|].bytes;
      && |bytes| == CERES_HEADER_SIZE * |bads| + CERES_HEADER_SIZE + 64 * (h.Length() + 2)
      && (|bads| > 0 ==> forall i {:trigger bads[0][i]} :: 0 <= i < 5 ==> WordAt(bytes, 4 * i) == bads[0][i])
  {
    hide GoodHeader, Header.Length, EventWords, Stored, HeaderWords, FeedAll, Ok, WordAt, Total, InterpretHeader, AfterBadHeaders, PublishedOne, AllFit, AreRead;
    var q := AfterBadHeaders(p, bads);
    FittingAreRead(channels, h.Length());
    TotalIs(channels, NUM_CHANNELS, h.Length());
    EventIsPublished(q, h, channels);
    StaleBytesArePublished(q, h, channels);
    if |bads| > 0 {
      FirstBadHeaderInFront(p, bads);
    }
  }

  lemma {:induction false} FirstBadHeaderInFront(p: Parser, bads: seq<seq<bv32>>)
    requires Clean(p) && 0 < |bads| && CERES_HEADER_SIZE * |bads| <= MAX_STALE
    requires forall i :: 0 <= i < |bads| ==> |bads[i]| == 5 && !GoodHeader(InterpretHeader(BLANK_HEADER, bads[i]))
    ensures forall i {:trigger bads[0][i]} :: 0 <= i < 5 ==> WordAt(AfterBadHeaders(p, bads).data, 4 * i) == bads[0][i]
    decreases |bads|
  {
    hide GoodHeader, InterpretHeader, Ok, WordAt, SameOutside, FeedAll, Resume;
    var n := |bads| - 1;
    var before := AfterBadHeaders(p, bads[..n]);
    BadHeaderStaysCounted(before, bads[n]);
    if n == 0 {
      assert before == p;
    } else {
      FirstBadHeaderInFront(p, bads[..n]);
      forall i {:trigger bads[0][i]} | 0 <= i < 5
        ensures WordAt(AfterBadHeaders(p, bads).data, 4 * i) == bads[0][i]
      {
        assert bads[..n][0][i] == bads[0][i];
        StillThere(before.data, AfterBadHeaders(p, bads).data, before.numBytes, before.numBytes + 20, 4 * i);
      }
    }
  }
}
