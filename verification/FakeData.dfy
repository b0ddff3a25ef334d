/**
 fake_data_gen.c as the encoder that the builder must invert: what produce_data emits is
 published as the samples it was made from, and passes ceres_validate_crcs.
 */
module FakeData {
  import opened Words
  import opened CeresParser
  import opened CeresCodec
  import opened CeresEvents
  import opened CeresChecks
  import opened CeresWire
  import Crc32

  /** What produce_data is given: one word of two fourteen-bit samples per pair and channel. */
  datatype FakeEvent = FakeEvent(number: bv32, timeticks: bv64, deviceId: bv8, length: bv16, waves: seq<seq<bv32>>)

  ghost predicate IsFakeEvent(e: FakeEvent) {
    |e.waves| == NUM_CHANNELS && forall c :: 0 <= c < NUM_CHANNELS ==> |e.waves[c]| == FakeHeader(e).Length()
  }

  ghost predicate IsFourteenBit(wave: seq<bv32>) {
    forall j :: 0 <= j < |wave| ==> IsSamplePair(wave[j])
  }

  /** All samples are fourteen-bit. */
  ghost predicate AreFourteenBit(e: FakeEvent)
    requires IsFakeEvent(e)
  {
    forall c :: 0 <= c < NUM_CHANNELS ==> IsFourteenBit(e.waves[c])
  }

  /** Every difference fits its field. */
  ghost predicate IsSmooth(e: FakeEvent)
    requires IsFakeEvent(e)
  {
    forall c :: 0 <= c < NUM_CHANNELS ==> Smooth(e.waves[c])
  }

  function FakeHeader(e: FakeEvent): Header {
    var h := Header(CERES_MAGIC_VALUE, e.number, e.timeticks, e.length, e.deviceId, 0);
    h.(crc := HeaderCrc(h))
  }

  ghost function FakeChannel(wave: seq<bv32>): Channel {
    Channel(Deltas(wave), Crc32.Crc(0, Flatten(wave)))
  }

  ghost function FakeChannels(e: FakeEvent): (cs: seq<Channel>)
    requires |e.waves| == NUM_CHANNELS
    ensures |cs| == NUM_CHANNELS
  {
    seq(NUM_CHANNELS, c requires 0 <= c < NUM_CHANNELS => FakeChannel(e.waves[c]))
  }

  /** The words produce_data puts on the wire. */
  ghost function Encode(e: FakeEvent): seq<bv32>
    requires |e.waves| == NUM_CHANNELS
  {
    EventWords(FakeHeader(e), FakeChannels(e))
  }

  lemma {:induction false} FakeEventIsWellFormed(e: FakeEvent)
    requires IsFakeEvent(e)
    ensures GoodHeader(FakeHeader(e)) && AllFit(FakeChannels(e), NUM_CHANNELS, FakeHeader(e).Length())
  {
    FakeHeaderIsGood(e);
    hide GoodHeader, FakeHeader, Deltas, Stashed, Pairs, Header.Length;
    forall c | 0 <= c < NUM_CHANNELS
      ensures Fits(FakeChannels(e)[c], FakeHeader(e).Length())
    {
      DeltasArePlain(e.waves[c]);
      PlainPairs(Deltas(e.waves[c]));
    }
  }

  lemma FakeHeaderIsGood(e: FakeEvent)
    ensures GoodHeader(FakeHeader(e))
  {
    hide HeaderCrc;
    var h := Header(CERES_MAGIC_VALUE, e.number, e.timeticks, e.length, e.deviceId, 0);
    CrcIsNotCovered(h, HeaderCrc(h));
  }

  lemma CrcIsNotCovered(h: Header, crc: bv8)
    ensures HeaderCrc(h.(crc := crc)) == HeaderCrc(h)
  {
    hide Crc8.Crc, ToBytes, HighWord, LowWord, HighByte, LowByte;
    assert HeaderCrcBytes(h.(crc := crc)) == HeaderCrcBytes(h);
  }

  lemma FakeHeaderIs(e: FakeEvent)
    ensures
      var h := FakeHeader(e);
      h.magicNumber == 0xFFFF_FFFF && h.trigNumber == e.number && h.clock == e.timeticks && h.length == e.length && h.deviceNumber == e.deviceId
  {
    hide HeaderCrc;
  }

  // ----- Encode, then build -----

  /** The published event holds the samples that were encoded. */
  ghost predicate HoldsSamples(bytes: seq<bv8>, e: FakeEvent)
    requires IsFakeEvent(e)
  {
    var h := FakeHeader(e);
    && |bytes| == CERES_HEADER_SIZE + 64 * (h.Length() + 2)
    && IsHeaderOf(bytes, h)
    && forall c :: 0 <= c < NUM_CHANNELS ==> HoldsWave(bytes, h, c, e.waves[c])
  }

  /** Channel `c` is in the place that the device number says: its marker, its samples, and their CRC. */
  ghost predicate HoldsWave(bytes: seq<bv8>, h: Header, c: nat, wave: seq<bv32>)
    requires c < NUM_CHANNELS
  {
    IsInPlace(bytes, h.deviceNumber, c, wave, Crc32.Crc(0, Flatten(wave)))
  }

  lemma HeldWaveChecks(bytes: seq<bv8>, h: Header, c: nat, wave: seq<bv32>)
    requires c < NUM_CHANNELS && HoldsWave(bytes, h, c, wave)
    ensures SlotChecks(bytes, |wave|, NewChannel(h.IsEven(), c))
  {
    hide WordAt, ChannelMarker, NewChannel, Offset, IsInPlace, Crc32.Crc;
    InPlaceIs(bytes, h, c, wave, Crc32.Crc(0, Flatten(wave)));
    var o := Offset(NewChannel(h.IsEven(), c), |wave|, 0);
    SlotBytes(bytes, o + 4, wave, |wave|);
    assert wave[..|wave|] == wave;
    assert o + 4 + 4 * |wave| == o + 4 * (|wave| + 1);
  }

  /** An event that holds the samples it was encoded from passes ceres_validate_crcs. */
  lemma HeldSamplesCheck(bytes: seq<bv8>, e: FakeEvent)
    requires IsFakeEvent(e) && HoldsSamples(bytes, e)
    ensures Checks(bytes, FakeHeader(e).Length())
  {
    hide HoldsWave, IsHeaderOf, SlotChecks, NewChannel, FakeHeader, Header.Length, HeaderWords, WordAt;
    var h := FakeHeader(e);
    forall k | 0 <= k < NUM_CHANNELS
      ensures SlotChecks(bytes, h.Length(), k)
    {
      var c := NewChannel(h.IsEven(), k);
      NewChannelIsInvolution(h.IsEven(), k);
      HeldWaveChecks(bytes, h, c, e.waves[c]);
    }
  }

  /** A published event is the encoded one: header, samples in their permuted slots, CRCs that check. */
  ghost predicate IsBuilt(published: Event, e: FakeEvent)
    requires IsFakeEvent(e)
  {
    && published.header == FakeHeader(e)
    && published.header.trigNumber == e.number && published.header.clock == e.timeticks
    && published.header.length == e.length && published.header.deviceNumber == e.deviceId
    && HoldsSamples(published.bytes, e)
    && Checks(published.bytes, FakeHeader(e).Length())
  }

  /**
   Encode, then build: one event is published, and it is the event encoded, with CRCs that check,
   if and only if every difference fits its field.
   */
  lemma {:induction false} EncodeThenBuild(p: Parser, e: FakeEvent)
    requires Clean(p) && IsFakeEvent(e) && AreFourteenBit(e)
    ensures
      var q := FeedAll(p, Encode(e));
      && Clean(q)
      && |q.published| == |p.published| + 1 && p.published <= q.published
      && (IsBuilt(q.published[|p.published|], e) <==> IsSmooth(e))
  {
    hide GoodHeader, FakeHeader, Header.Length, HeaderWords, WordAt, FeedAll, EventWords, HoldsWave, IsHeaderOf, Stored, AllFit, FakeChannel, EventOk, Checks, IsFourteenBit, Smooth;
    var h := FakeHeader(e);
    FakeEventIsWellFormed(e);
    FittingIsPublished(p, h, FakeChannels(e));
    FakeHeaderIs(e);
    var bytes := FeedAll(p, Encode(e)).published[|p.published|].bytes;
    HeaderIs(bytes, h);
    forall c | 0 <= c < NUM_CHANNELS
      ensures HoldsWave(bytes, h, c, e.waves[c]) <==> Smooth(e.waves[c])
    {
      assert FakeChannels(e)[c] == FakeChannel(e.waves[c]);
      WaveIsHeld(bytes, h, c, e.waves[c]);
    }
    if IsSmooth(e) {
      HeldSamplesCheck(bytes, e);
    }
  }

  /** What a stored channel holds are the samples that were encoded just when every difference fits. */
  lemma {:induction false} WaveIsHeld(bytes: seq<bv8>, h: Header, c: nat, wave: seq<bv32>)
    requires c < NUM_CHANNELS && |wave| == h.Length() && IsFourteenBit(wave)
    requires Stored(bytes, h, c, FakeChannel(wave))
    ensures HoldsWave(bytes, h, c, wave) <==> Smooth(wave)
  {
    hide WordAt, ChannelMarker, NewChannel, Offset, IsInPlace, Crc32.Crc, Header.Length, Deltas, Stashed, Pairs, Smooth, IsSamplePair;
    InPlaceIs(bytes, h, c, wave, Crc32.Crc(0, Flatten(wave)));
    RoundTrip(wave);
    var pw, o := Stashed(Deltas(wave)), Offset(NewChannel(h.IsEven(), c), |wave|, 0);
    forall j {:trigger wave[j]} | 0 <= j < |wave|
      ensures WordAt(bytes, o + 4 + 4 * j) == pw[j]
    {
    }
    if HoldsWave(bytes, h, c, wave) {
      forall j | 0 <= j < |wave|
        ensures pw[j] == wave[j]
      {
      }
    }
  }

  // ----- Differences that do not fit -----

  /** The words stored for channel `c` agree with its samples modulo 2^14, in both halves. */
  ghost predicate WaveAgrees(bytes: seq<bv8>, h: Header, c: nat, wave: seq<bv32>)
    requires c < NUM_CHANNELS
  {
    var o := 20 + 4 * (|wave| + 2) * Place(h.deviceNumber, c);
    && o + 4 * (|wave| + 2) <= |bytes|
    && forall j {:trigger wave[j]} :: 0 <= j < |wave| ==> AgreesModulo14Bits(WordAt(bytes, o + 4 + 4 * j), wave[j])
  }

  /** No second sample has spilt over a first one to which it makes a difference. */
  ghost predicate NeverSpills(wave: seq<bv32>) {
    forall j :: 0 <= j < |wave| ==> KeepsUpper(wave, j)
  }

  ghost predicate SamplesAgree(bytes: seq<bv8>, e: FakeEvent)
    requires IsFakeEvent(e)
  {
    forall c :: 0 <= c < NUM_CHANNELS ==> WaveAgrees(bytes, FakeHeader(e), c, e.waves[c])
  }

  ghost predicate EventNeverSpills(e: FakeEvent)
    requires IsFakeEvent(e)
  {
    forall c :: 0 <= c < NUM_CHANNELS ==> NeverSpills(e.waves[c])
  }

  lemma {:induction false} WaveAgreesIfKept(bytes: seq<bv8>, h: Header, c: nat, wave: seq<bv32>)
    requires c < NUM_CHANNELS && |wave| == h.Length() && Stored(bytes, h, c, FakeChannel(wave))
    ensures WaveAgrees(bytes, h, c, wave) <==> NeverSpills(wave)
  {
    hide WordAt, ChannelMarker, NewChannel, Offset, Crc32.Crc, Header.Length, Deltas, Stashed, Pairs, AgreesModulo14Bits, KeepsUpper, SameModulo14Bits;
    DeltasArePlain(wave);
    PlainPairs(Deltas(wave));
    PlaceIs(h, c);
    OffsetIs(NewChannel(h.IsEven(), c), |wave|);
    hide Place;
    var pw, o := Stashed(Deltas(wave)), Offset(NewChannel(h.IsEven(), c), |wave|, 0);
    forall j {:trigger wave[j]} | 0 <= j < |wave|
      ensures WordAt(bytes, o + 4 + 4 * j) == pw[j] && (AgreesModulo14Bits(pw[j], wave[j]) <==> KeepsUpper(wave, j))
    {
      StoredModulo14Bits(wave, j);
    }
    if WaveAgrees(bytes, h, c, wave) {
      forall j | 0 <= j < |wave|
        ensures KeepsUpper(wave, j)
      {
        assert AgreesModulo14Bits(WordAt(bytes, o + 4 + 4 * j), wave[j]);
      }
    }
  }

  /**
   Whatever its differences, an encoded event is published; all of its samples are there modulo 2^14
   if and only if in every channel the net number of wraps is 0 or 1 modulo 4 at each second sample
   whose first sample is not all ones.
   */
  lemma {:induction false} EncodeThenBuildModulo14Bits(p: Parser, e: FakeEvent)
    requires Clean(p) && IsFakeEvent(e)
    ensures
      var q := FeedAll(p, Encode(e));
      && Clean(q)
      && |q.published| == |p.published| + 1 && p.published <= q.published
      && q.published[|p.published|].header == FakeHeader(e)
      && (SamplesAgree(q.published[|p.published|].bytes, e) <==> EventNeverSpills(e))
  {
    hide GoodHeader, FakeHeader, Header.Length, HeaderWords, WordAt, FeedAll, EventWords, WaveAgrees, Stored, AllFit, FakeChannel, EventOk, NeverSpills;
    var h := FakeHeader(e);
    FakeEventIsWellFormed(e);
    FittingIsPublished(p, h, FakeChannels(e));
    var bytes := FeedAll(p, Encode(e)).published[|p.published|].bytes;
    forall c | 0 <= c < NUM_CHANNELS
      ensures WaveAgrees(bytes, h, c, e.waves[c]) <==> NeverSpills(e.waves[c])
    {
      assert FakeChannels(e)[c] == FakeChannel(e.waves[c]);
      WaveAgreesIfKept(bytes, h, c, e.waves[c]);
    }
  }

  // ----- Without samples -----

  /**
   What produce_data emits for channel `c` without samples: the CRC, delta-coded in the place of a sample,
   and a word that it does not write.
   */
  ghost function EmptyChannelWords(c: nat, left: bv32): seq<bv32>
    requires c < NUM_CHANNELS
  {
    [ChannelMarker(c), Delta([Crc32.Crc(0, [])], 0), left]
  }

  ghost function EmptyChannels(left: seq<bv32>, k: nat): seq<bv32>
    requires k <= |left| == NUM_CHANNELS
  {
    if k == 0 then [] else EmptyChannels(left, k - 1) + EmptyChannelWords(k - 1, left[k - 1])
  }

  ghost function ZeroLengthWords(e: FakeEvent, left: seq<bv32>): seq<bv32>
    requires |left| == NUM_CHANNELS
  {
    HeaderWords(FakeHeader(e)) + EmptyChannels(left, NUM_CHANNELS)
  }

  lemma {:induction false} CodedCrcIsZero()
    ensures Delta([Crc32.Crc(0, [])], 0) == 0
  {
    assert Crc32.Crc(0, []) == 0;
  }

  lemma MarkerIsNotZero(c: nat)
    requires c < NUM_CHANNELS
    ensures ChannelMarker(c) != 0
  {
  }

  lemma {:induction false} EmptyChannelsStart(left: seq<bv32>, k: nat)
    requires 2 <= k <= |left| == NUM_CHANNELS
    ensures |EmptyChannels(left, k)| >= 6
    ensures EmptyChannels(left, k)[..6] == EmptyChannelWords(0, left[0]) + EmptyChannelWords(1, left[1])
    decreases k
  {
    hide ChannelMarker, Delta, Crc32.Crc;
    if k == 2 {
      assert EmptyChannels(left, 1) == EmptyChannels(left, 0) + EmptyChannelWords(0, left[0]);
      assert EmptyChannels(left, 0) == [];
    } else {
      EmptyChannelsStart(left, k - 1);
    }
  }

  /** A word where a marker of another value is due sets the flag. */
  lemma {:induction false} WrongMarkerReels(p: Parser, w: bv32)
    requires AtChannel(p) && w != ChannelMarker(p.ev.currentChannel)
    ensures Feed(p, w).reeling && Feed(p, w).published == p.published
  {
    hide GoodHeader, Header.Length, ChannelMarker, Stash;
  }

  /** A channel without samples is a marker and a CRC. */
  lemma {:induction false} EmptyChannelIsRead(p: Parser, crc: bv32)
    requires AtChannel(p) && p.ev.header.Length() == 0 && p.ev.currentChannel < NUM_CHANNELS - 1
    ensures
      var r := FeedAll(p, [ChannelMarker(p.ev.currentChannel), crc]);
      && AtChannel(r) && r.ev.currentChannel == p.ev.currentChannel + 1 && r.ev.header == p.ev.header && r.published == p.published
  {
    hide GoodHeader, Header.Length, ChannelMarker, Stash, FeedBody, WordAt, Slot, SameOutside, Feed, FeedAll, Stashed, Pairs, NewChannel, EventOk, StoredAt;
    var q, r := FeedChannel(p, Channel([], crc));
    FeedBodyOk(q, crc);
    assert ChannelWords(p.ev.currentChannel, Channel([], crc)) == [ChannelMarker(p.ev.currentChannel), crc];
  }

  /**
   An event that produce_data emits without samples is never published, whatever was in the buffer before: the
   builder loses its place in the second or third channel.
   */
  lemma {:induction false} ZeroLengthReels(p: Parser, e: FakeEvent, left: seq<bv32>)
    requires Clean(p) && FakeHeader(e).Length() == 0 && |left| == NUM_CHANNELS
    ensures FeedAll(p, ZeroLengthWords(e, left)).reeling && FeedAll(p, ZeroLengthWords(e, left)).published == p.published
  {
    FakeHeaderIsGood(e);
    CodedCrcIsZero();
    MarkerIsNotZero(2);
    hide GoodHeader, FakeHeader, Header.Length, ChannelMarker, Delta, Crc32.Crc, Feed, FeedAll, EmptyChannels, HeaderWords, EventOk, WordAt, HeaderAfter;
    var hw, ws := HeaderWords(FakeHeader(e)), EmptyChannels(left, NUM_CHANNELS);
    HeaderAfterAll(FakeHeader(e));
    var m := FeedHeaderWords(p, hw, 5);
    assert hw[..5] == hw;
    EmptyChannelsStart(left, NUM_CHANNELS);
    FeedAllConcat(p, hw, ws);
    LosesItsPlace(m, left[0], left[1], ws);
  }

  lemma {:induction false} LosesItsPlace(m: Parser, x: bv32, y: bv32, ws: seq<bv32>)
    requires AtFirstChannel(m) && m.ev.header.Length() == 0 && ChannelMarker(2) != 0
    requires |ws| >= 6 && ws[..6] == [ChannelMarker(0), 0, x] + [ChannelMarker(1), 0, y]
    ensures FeedAll(m, ws).reeling && FeedAll(m, ws).published == m.published
  {
    hide GoodHeader, Header.Length, ChannelMarker, Feed, FeedAll, EventOk;
    EmptyChannelIsRead(m, 0);
    var r := FeedAll(m, [ChannelMarker(0), 0]);
    if x != ChannelMarker(1) {
      WrongMarkerReels(r, x);
      ReelsFrom(m, [ChannelMarker(0), 0], x, ws);
    } else {
      EmptyChannelIsRead(r, ChannelMarker(1));
      FeedAllConcat(m, [ChannelMarker(0), 0], [ChannelMarker(1), ChannelMarker(1)]);
      var front := [ChannelMarker(0), 0] + [ChannelMarker(1), ChannelMarker(1)];
      WrongMarkerReels(FeedAll(m, front), 0);
      ReelsFrom(m, front, 0, ws);
    }
  }

  lemma {:induction false} ReelsFrom(p: Parser, front: seq<bv32>, w: bv32, ws: seq<bv32>)
    requires Ok(p) && |front| < |ws| && ws[..|front|] == front && ws[|front|] == w
    requires Feed(FeedAll(p, front), w).reeling && Feed(FeedAll(p, front), w).published == p.published
    ensures FeedAll(p, ws).reeling && FeedAll(p, ws).published == p.published
  {
    hide Ok, Feed;
    var n := |front| + 1;
    assert ws == ws[..n] + ws[n..];
    FeedAllConcat(p, ws[..n], ws[n..]);
    assert ws[..n][..n - 1] == front;
    FeedAllGrows(FeedAll(p, ws[..n]), ws[n..]);
  }

  // ----- A run of events -----

  ghost predicate AreFakeEvents(es: seq<FakeEvent>) {
    forall i :: 0 <= i < |es| ==> IsFakeEvent(es[i]) && AreFourteenBit(es[i]) && IsSmooth(es[i])
  }

  ghost function EncodeAll(es: seq<FakeEvent>): seq<bv32>
    requires AreFakeEvents(es)
    decreases |es|
  {
    if es == [] then [] else EncodeAll(es[..|es| - 1]) + Encode(es[|es| - 1])
  }

  /** A run of encoded events is published one for one and in order. */
  lemma {:induction false} EncodeAllThenBuild(p: Parser, es: seq<FakeEvent>)
    requires Clean(p) && AreFakeEvents(es)
    ensures
      var q := FeedAll(p, EncodeAll(es));
      && Clean(q)
      && |q.published| == |p.published| + |es| && p.published <= q.published
      && forall i :: 0 <= i < |es| ==> IsBuilt(q.published[|p.published| + i], es[i])
    decreases |es|
  {
    hide FeedAll, FakeHeader, IsSmooth, AreFourteenBit, Encode, EventOk, IsBuilt;
    if es == [] {
      FeedNothing(p);
    } else {
      var n := |es| - 1;
      EncodeAllThenBuild(p, es[..n]);
      var q := FeedAll(p, EncodeAll(es[..n]));
      EncodeThenBuild(q, es[n]);
      FeedAllConcat(p, EncodeAll(es[..n]), Encode(es[n]));
    }
  }

  lemma {:induction false} FeedNothing(p: Parser)
    requires Ok(p)
    ensures FeedAll(p, []) == p
  {
  }

  /**
   The byte stream of a run of encoded events meets what CeresBuilder.BuildAll asks of its input,
   and what BuildAll then publishes, however the stream is delivered, is that run of events.
   */
  lemma {:induction false} StreamOfEvents(p: Parser, es: seq<FakeEvent>)
    requires Clean(p) && AreFakeEvents(es)
    ensures
      var net := Flatten(EncodeAll(es));
      var q := FeedAll(p, WordsOf(net));
      && Whole(|net|) && !q.reeling
      && |q.published| == |p.published| + |es|
      && forall i :: 0 <= i < |es| ==> IsBuilt(q.published[|p.published| + i], es[i])
  {
    hide FeedAll, IsBuilt, EncodeAll, Flatten, WordsOf, AreFakeEvents;
    EncodeAllThenBuild(p, es);
    WordsOfFlatten(EncodeAll(es));
  }
}
