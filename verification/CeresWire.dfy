/** A published CERES event, byte for byte, in terms of the bytes themselves. */
module CeresWire {
  import opened Words
  import opened CeresParser
  import opened CeresCodec
  import opened CeresEvents

  /** The place among the sixteen of channel `c`: a board with an even number turns every four round, an odd one all. */
  function Place(device: bv8, c: nat): (k: nat)
    requires c < 16
    ensures k < 16
  {
    if device & 1 == 0 then 4 * (c / 4) + 3 - c % 4 else 15 - c
  }

  function NetworkOrder(w: bv32): (s: seq<bv8>)
    ensures |s| == 4
  {
    [(w >> 24) as bv8, ((w >> 16) & 0xFF) as bv8, ((w >> 8) & 0xFF) as bv8, (w & 0xFF) as bv8]
  }

  function Upper(w: bv64): bv32 { (w >> 32) as bv32 }

  function Lower(w: bv64): bv32 { (w & 0xFFFF_FFFF) as bv32 }

  /** What lies at `o` is channel data for place `k`: 0xFF, the place, 0xFF, the place; the pairs; and the CRC. */
  ghost predicate IsChannelAt(bytes: seq<bv8>, o: nat, k: nat, pairs: seq<bv32>, crc: bv32)
    requires k < 16
  {
    && o + 4 * |pairs| + 8 <= |bytes|
    && bytes[o..o + 4] == [0xFF, k as bv8, 0xFF, k as bv8]
    && (forall j {:trigger pairs[j]} :: 0 <= j < |pairs| ==> bytes[o + 4 + 4 * j..o + 8 + 4 * j] == NetworkOrder(pairs[j]))
    && bytes[o + 4 + 4 * |pairs|..o + 8 + 4 * |pairs|] == NetworkOrder(crc)
  }

  /** Channel `c` of a board is in its place. */
  ghost predicate IsInPlace(bytes: seq<bv8>, device: bv8, c: nat, pairs: seq<bv32>, crc: bv32)
    requires c < 16
  {
    IsChannelAt(bytes, 20 + 4 * (|pairs| + 2) * Place(device, c), Place(device, c), pairs, crc)
  }

  /** The first twenty bytes: marker, trigger number, clock, length, device number and CRC. */
  ghost predicate IsHeaderOf(bytes: seq<bv8>, h: Header) {
    && |bytes| >= 20
    && bytes[..4] == [0xFF, 0xFF, 0xFF, 0xFF]
    && bytes[4..8] == NetworkOrder(h.trigNumber)
    && bytes[8..12] == NetworkOrder(Upper(h.clock))
    && bytes[12..16] == NetworkOrder(Lower(h.clock))
    && bytes[16..20] == [(h.length >> 8) as bv8, (h.length & 0xFF) as bv8, h.deviceNumber, h.crc]
  }

  /** A whole event, in 20 + 64 * (length + 2) bytes. */
  ghost predicate IsOnTheWire(bytes: seq<bv8>, h: Header, channels: seq<Channel>)
    requires |channels| == 16
  {
    && |bytes| == 20 + 64 * (h.length as nat + 2)
    && IsHeaderOf(bytes, h)
    && forall c {:trigger channels[c]} :: 0 <= c < 16 ==> IsInPlace(bytes, bytes[18], c, Stashed(channels[c].samples), channels[c].crc)
  }

  // ----- The same in words -----

  lemma WordIs(bytes: seq<bv8>, o: nat, w: bv32)
    requires o + 4 <= |bytes|
    ensures WordAt(bytes, o) == w <==> bytes[o..o + 4] == NetworkOrder(w)
  {
    BytesOfBigEndian(bytes[o], bytes[o + 1], bytes[o + 2], bytes[o + 3]);
    BigEndianOfBytes(w);
    hide BigEndian;
    assert NetworkOrder(w) == ToBytes(w);
    hide ToBytes, NetworkOrder;
    assert bytes[o..o + 4] == [bytes[o], bytes[o + 1], bytes[o + 2], bytes[o + 3]];
  }

  lemma MarkerIs(k: nat)
    requires k < 16
    ensures NetworkOrder(ChannelMarker(k)) == [0xFF, k as bv8, 0xFF, k as bv8]
  {
    assert k == 0 || k == 1 || k == 2 || k == 3 || k == 4 || k == 5 || k == 6 || k == 7
        || k == 8 || k == 9 || k == 10 || k == 11 || k == 12 || k == 13 || k == 14 || k == 15;
  }

  lemma EvenIs(h: Header)
    ensures h.IsEven() <==> h.deviceNumber & 1 == 0
  {
  }

  lemma PlaceIs(h: Header, c: nat)
    requires c < 16
    ensures Place(h.deviceNumber, c) == NewChannel(h.IsEven(), c)
  {
    EvenIs(h);
    hide Header.IsEven;
    assert c == 0 || c == 1 || c == 2 || c == 3 || c == 4 || c == 5 || c == 6 || c == 7
        || c == 8 || c == 9 || c == 10 || c == 11 || c == 12 || c == 13 || c == 14 || c == 15;
  }

  lemma OffsetIs(k: nat, length: nat)
    ensures Offset(k, length, 0) == 20 + 4 * (length + 2) * k
  {
  }

  /** The words of a channel that lie at `o`. */
  ghost predicate AreWordsAt(bytes: seq<bv8>, o: nat, k: nat, pairs: seq<bv32>, crc: bv32)
    requires k < 16
  {
    && o + 4 * (|pairs| + 2) <= |bytes|
    && WordAt(bytes, o) == ChannelMarker(k)
    && (forall j {:trigger pairs[j]} :: 0 <= j < |pairs| ==> WordAt(bytes, o + 4 + 4 * j) == pairs[j])
    && WordAt(bytes, o + 4 * (|pairs| + 1)) == crc
  }

  lemma {:induction false} WordsAtAre(bytes: seq<bv8>, o: nat, k: nat, pairs: seq<bv32>, crc: bv32)
    requires k < 16
    ensures AreWordsAt(bytes, o, k, pairs, crc) <==> IsChannelAt(bytes, o, k, pairs, crc)
  {
    hide WordAt, ChannelMarker, NetworkOrder;
    if o + 4 * |pairs| + 8 <= |bytes| {
      MarkerIs(k);
      WordIs(bytes, o, ChannelMarker(k));
      WordIs(bytes, o + 4 + 4 * |pairs|, crc);
      forall j {:trigger pairs[j]} | 0 <= j < |pairs|
        ensures WordAt(bytes, o + 4 + 4 * j) == pairs[j] <==> bytes[o + 4 + 4 * j..o + 8 + 4 * j] == NetworkOrder(pairs[j])
      {
        WordIs(bytes, o + 4 + 4 * j, pairs[j]);
      }
    }
  }

  /** In its place, told by the order tables. */
  lemma {:induction false} InPlaceIs(bytes: seq<bv8>, h: Header, c: nat, pairs: seq<bv32>, crc: bv32)
    requires c < 16
    ensures
      IsInPlace(bytes, h.deviceNumber, c, pairs, crc)
      <==> AreWordsAt(bytes, Offset(NewChannel(h.IsEven(), c), |pairs|, 0), NewChannel(h.IsEven(), c), pairs, crc)
  {
    hide Place, NewChannel, Offset, IsChannelAt, AreWordsAt;
    PlaceIs(h, c);
    OffsetIs(NewChannel(h.IsEven(), c), |pairs|);
    WordsAtAre(bytes, Offset(NewChannel(h.IsEven(), c), |pairs|, 0), NewChannel(h.IsEven(), c), pairs, crc);
  }

  lemma LastWordIs(h: Header)
    ensures NetworkOrder(LastHeaderWord(h)) == [(h.length >> 8) as bv8, (h.length & 0xFF) as bv8, h.deviceNumber, h.crc]
    ensures NetworkOrder(0xFFFF_FFFF) == [0xFF, 0xFF, 0xFF, 0xFF]
  {
  }

  ghost predicate AreHeaderWords(bytes: seq<bv8>, h: Header) {
    |bytes| >= 20 && forall i {:trigger HeaderWords(h)[i]} :: 0 <= i < 5 ==> WordAt(bytes, 4 * i) == HeaderWords(h)[i]
  }

  lemma FiveWords(h: Header)
    ensures
      var ws := HeaderWords(h);
      && ws[0] == h.magicNumber && ws[1] == h.trigNumber && ws[2] == Upper(h.clock)
      && ws[3] == Lower(h.clock) && ws[4] == LastHeaderWord(h)
  {
    hide LastHeaderWord;
  }

  lemma {:induction false} BytesOfWords(bytes: seq<bv8>, h: Header)
    requires AreHeaderWords(bytes, h)
    ensures bytes[0..4] == NetworkOrder(HeaderWords(h)[0]) && bytes[4..8] == NetworkOrder(HeaderWords(h)[1])
    ensures bytes[8..12] == NetworkOrder(HeaderWords(h)[2]) && bytes[12..16] == NetworkOrder(HeaderWords(h)[3])
    ensures bytes[16..20] == NetworkOrder(HeaderWords(h)[4])
  {
    hide WordAt, NetworkOrder, HeaderWords;
    assert WordAt(bytes, 4 * 0) == HeaderWords(h)[0] && WordAt(bytes, 4 * 1) == HeaderWords(h)[1] && WordAt(bytes, 4 * 2) == HeaderWords(h)[2]
        && WordAt(bytes, 4 * 3) == HeaderWords(h)[3] && WordAt(bytes, 4 * 4) == HeaderWords(h)[4];
    WordIs(bytes, 0, HeaderWords(h)[0]);
    WordIs(bytes, 4, HeaderWords(h)[1]);
    WordIs(bytes, 8, HeaderWords(h)[2]);
    WordIs(bytes, 12, HeaderWords(h)[3]);
    WordIs(bytes, 16, HeaderWords(h)[4]);
  }

  lemma {:induction false} HeaderIs(bytes: seq<bv8>, h: Header)
    requires h.magicNumber == 0xFFFF_FFFF && AreHeaderWords(bytes, h)
    ensures IsHeaderOf(bytes, h)
  {
    FiveWords(h);
    LastWordIs(h);
    hide NetworkOrder, LastHeaderWord, HeaderWords, Upper, Lower;
    BytesOfWords(bytes, h);
    hide AreHeaderWords;
    assert bytes[..4] == bytes[0..4];
  }

  lemma {:induction false} ImageIsOnTheWire(bytes: seq<bv8>, h: Header, channels: seq<Channel>)
    requires h.magicNumber == 0xFFFF_FFFF && |channels| == NUM_CHANNELS && AllFit(channels, NUM_CHANNELS, h.Length())
    requires IsEventImage(bytes, h, channels)
    ensures IsOnTheWire(bytes, h, channels)
  {
    hide HeaderWords, WordAt, NewChannel, Offset, IsInPlace, Stashed, NetworkOrder, IsHeaderOf, Header.IsEven;
    HeaderIs(bytes, h);
    DeviceByte(bytes, h);
    forall c {:trigger channels[c]} | 0 <= c < 16
      ensures IsInPlace(bytes, h.deviceNumber, c, Stashed(channels[c].samples), channels[c].crc)
    {
      assert Stored(bytes, h, c, channels[c]);
      assert Fits(channels[c], h.Length());
      InPlaceIs(bytes, h, c, Stashed(channels[c].samples), channels[c].crc);
    }
  }

  lemma DeviceByte(bytes: seq<bv8>, h: Header)
    requires IsHeaderOf(bytes, h)
    ensures bytes[18] == h.deviceNumber
  {
    hide NetworkOrder;
    assert bytes[18] == bytes[16..20][2];
  }

  /**
   A well-formed event is published, whatever was counted before it; and its bytes are those of the event, each
   channel in the place that the device number says, if and only if nothing was counted before it and compressed
   words are used only where three pairs are missing.
   */
  lemma {:induction false} EventOnTheWire(p: Parser, h: Header, channels: seq<Channel>)
    requires AtEvent(p) && GoodHeader(h) && AreRead(channels, h.Length())
    ensures
      var q := FeedAll(p, EventWords(h, channels));
      && |q.published| == |p.published| + 1 && p.published <= q.published && q.published[|p.published|].header == h
      && (IsOnTheWire(q.published[|p.published|].bytes, h, channels) <==> p.numBytes == 0 && AllFit(channels, 16, h.Length()))
  {
    assert |channels| == NUM_CHANNELS && h.magicNumber == 0xFFFF_FFFF;
    hide GoodHeader, EventWords, FeedAll, AllFit, AreRead, Ok, WordAt, Total, IsEventImage, IsHeaderOf, IsInPlace;
    StaleBytesArePublished(p, h, channels);
    TotalIs(channels, NUM_CHANNELS, h.Length());
    if p.numBytes == 0 && AllFit(channels, NUM_CHANNELS, h.Length()) {
      FittingIsPublished(p, h, channels);
      ImageIsOnTheWire(FeedAll(p, EventWords(h, channels)).published[|p.published|].bytes, h, channels);
    }
  }

  // ----- Markers -----

  /**
   When the marker of a channel is due, it is taken, and any other word gives the event up: nothing is published,
   and nothing stays counted.
   */
  lemma {:induction false} MarkerDecides(p: Parser, w: bv32)
    requires AtChannel(p)
    ensures
      var c := p.ev.currentChannel;
      && Feed(p, w).published == p.published
      && (Feed(p, w).reeling <==> NetworkOrder(w) != [0xFF, c as bv8, 0xFF, c as bv8])
      && (Feed(p, w).reeling ==> Feed(p, w) == p.(ev := START_EVENT, numBytes := 0, reeling := true))
      && (!Feed(p, w).reeling ==>
            Feed(p, w).numBytes == p.numBytes + 4 && Feed(p, w).ev == p.ev.(wfHeaderRead := true, wfCrcRead := false, samplesRead := 0))
  {
    MarkerIs(p.ev.currentChannel);
    if NetworkOrder(w) == NetworkOrder(ChannelMarker(p.ev.currentChannel)) {
      SameWord(w, ChannelMarker(p.ev.currentChannel));
    }
    hide ChannelMarker, StoreWord, NetworkOrder, GoodHeader, Header.Length, NewChannel;
  }

  lemma SameWord(a: bv32, b: bv32)
    requires NetworkOrder(a) == NetworkOrder(b)
    ensures a == b
  {
    BigEndianOfBytes(a);
    BigEndianOfBytes(b);
    hide BigEndian;
    assert NetworkOrder(a) == ToBytes(a) && NetworkOrder(b) == ToBytes(b);
  }

  /** When a sample or a CRC is due, any word is one. */
  lemma {:induction false} OthersAreTaken(p: Parser, w: bv32)
    requires Ok(p) && !p.reeling && p.ev.headerBytesRead == CERES_HEADER_SIZE && p.ev.wfHeaderRead
    ensures !Feed(p, w).reeling
  {
    hide ChannelMarker, StoreWord, GoodHeader, Header.Length, NewChannel, IsCompressed, FeedCompressed, FeedUncompressed, Stash;
  }

  // ----- The mark of a valid word -----

  lemma TopBitOfPair(w: bv32, first: bv16, second: bv16)
    ensures SamplePair(ValidBit(w), first, second) & 0x8000_0000 != 0
       <==> w & 0x8000_0000 != 0 || first & 0x8000 != 0 || second & 0x8000 != 0
  {
  }

  /** Stored words and pairs are not changed by what follows them. */
  lemma {:induction false} StashedGrow(ws: seq<bv32>, n: nat)
    requires n <= |ws|
    ensures Stashed(ws[..n]) <= Stashed(ws) && Pairs(ws[..n]) <= Pairs(ws)
    decreases |ws|
  {
    hide WordPairs, ValidBit, PairWords;
    if n == |ws| {
      assert ws[..n] == ws;
    } else {
      StashedGrow(ws[..|ws| - 1], n);
      assert ws[..|ws| - 1][..n] == ws[..n];
    }
  }

  /**
   The words stored for word `n` of a channel have the top bit if that word has it, and else only if one of their
   two samples is negative as sixteen bits.
   */
  lemma {:induction false} MarkIsStored(ws: seq<bv32>, n: nat, j: nat)
    requires n < |ws| && |Stashed(ws[..n])| <= j < |Stashed(ws[..n + 1])|
    ensures j < |Stashed(ws)| == |Pairs(ws)|
    ensures Stashed(ws)[j] & 0x8000_0000 != 0
       <==> ws[n] & 0x8000_0000 != 0 || Pairs(ws)[j].first & 0x8000 != 0 || Pairs(ws)[j].second & 0x8000 != 0
  {
    var a, b := ws[..n], ws[..n + 1];
    assert b[..n] == a && b[n] == ws[n];
    StashedGrow(ws, n + 1);
    LastStored(b, j);
    assert Stashed(ws)[j] == Stashed(b)[j] && Pairs(ws)[j] == Pairs(b)[j];
    TopBitOfPair(ws[n], Pairs(b)[j].first, Pairs(b)[j].second);
  }

  lemma {:induction false} LastStored(ws: seq<bv32>, j: nat)
    requires ws != [] && |Stashed(ws[..|ws| - 1])| <= j < |Stashed(ws)|
    ensures Stashed(ws)[j] == SamplePair(ValidBit(ws[|ws| - 1]), Pairs(ws)[j].first, Pairs(ws)[j].second)
  {
    hide WordPairs, ValidBit, SamplePair;
  }
}
