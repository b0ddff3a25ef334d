/**
 FONTUS events on the wire: which words make the builder publish an event, told by the words alone, and
 what it does with a header or a marker that is not the one expected.
 */
module FontusLayout {
  import opened Words
  import opened FontusParser
  import opened FontusEvents
  import Ceres = CeresParser
  import Crc32

  // ----- Header words -----

  function Joined(a: bv32, b: bv32): bv64 { Ceres.WithLow(Ceres.WithHigh(0, a), b) }

  lemma JoinedBack(a: bv32, b: bv32)
    ensures Ceres.HighWord(Joined(a, b)) == a && Ceres.LowWord(Joined(a, b)) == b
  {
  }

  lemma LengthWordBack(w: bv32)
    ensures (LengthOf(w) as bv32 << 16) | (DeviceOf(w) as bv32 << 8) | FlagsOf(w) as bv32 == w
    ensures LengthOf(w) == (w >> 16) as bv16
  {
  }

  lemma {:induction false} FirstHalf(ws: seq<bv32>)
    requires |ws| >= 13
    ensures
      HeaderAfter(ws, 8) == BLANK_HEADER.(
        magicNumber := ws[0], trigNumber := ws[1], clock := Ceres.WithLow(Ceres.WithHigh(0, ws[2]), ws[3]),
        length := LengthOf(ws[4]), deviceNumber := DeviceOf(ws[4]), triggerFlags := FlagsOf(ws[4]), selfTriggerWord := ws[5],
        beamTriggerTime := Ceres.WithLow(Ceres.WithHigh(0, ws[6]), ws[7]))
  {
    hide Ceres.WithHigh, Ceres.WithLow, LengthOf, DeviceOf, FlagsOf, HeaderAfter;
    AfterNone(ws);
    AfterNext(ws, 0);
    AfterNext(ws, 1);
    AfterNext(ws, 2);
    AfterNext(ws, 3);
    AfterNext(ws, 4);
    AfterNext(ws, 5);
    AfterNext(ws, 6);
    AfterNext(ws, 7);
  }

  lemma {:induction false} LedTimeRead(ws: seq<bv32>)
    requires |ws| >= 13
    ensures HeaderAfter(ws, 10) ==
      var h := HeaderAfter(ws, 8); h.(ledTriggerTime := Ceres.WithLow(Ceres.WithHigh(h.ledTriggerTime, ws[8]), ws[9]))
  {
    hide Ceres.WithHigh, Ceres.WithLow, LengthOf, DeviceOf, FlagsOf, HeaderAfter;
    AfterNext(ws, 8);
    AfterNext(ws, 9);
  }

  lemma {:induction false} CtTimeRead(ws: seq<bv32>)
    requires |ws| >= 13
    ensures HeaderAfter(ws, 13) ==
      var h := HeaderAfter(ws, 10); h.(ctTime := Ceres.WithLow(Ceres.WithHigh(h.ctTime, ws[10]), ws[11]), crc := ws[12])
  {
    hide Ceres.WithHigh, Ceres.WithLow, LengthOf, DeviceOf, FlagsOf, HeaderAfter;
    AfterNext(ws, 10);
    AfterNext(ws, 11);
    AfterNext(ws, 12);
  }

  lemma {:induction false} HeaderIs(ws: seq<bv32>)
    requires |ws| >= 13
    ensures HeaderAfter(ws, 13) == Header(
      ws[0], ws[1], Joined(ws[2], ws[3]), LengthOf(ws[4]), DeviceOf(ws[4]), FlagsOf(ws[4]), ws[5],
      Joined(ws[6], ws[7]), Joined(ws[8], ws[9]), Joined(ws[10], ws[11]), ws[12])
  {
    hide Ceres.WithHigh, Ceres.WithLow, LengthOf, DeviceOf, FlagsOf, HeaderAfter;
    FirstHalf(ws);
    LedTimeRead(ws);
    CtTimeRead(ws);
  }

  lemma Thirteen(ws: seq<bv32>)
    requires |ws| >= 13
    ensures ws[..13] == [ws[0], ws[1], ws[2], ws[3], ws[4], ws[5], ws[6], ws[7], ws[8], ws[9], ws[10], ws[11], ws[12]]
    ensures ws[..13] == [ws[0]] + ws[1..12] + [ws[12]] && |ws[1..12]| == 11
  {
  }

  lemma {:induction false} WordsOfHeader(ws: seq<bv32>, h: Header)
    requires |ws| >= 13
    requires h == Header(
      ws[0], ws[1], Joined(ws[2], ws[3]), LengthOf(ws[4]), DeviceOf(ws[4]), FlagsOf(ws[4]), ws[5],
      Joined(ws[6], ws[7]), Joined(ws[8], ws[9]), Joined(ws[10], ws[11]), ws[12])
    ensures HeaderWords(h) == [ws[0], ws[1], ws[2], ws[3], ws[4], ws[5], ws[6], ws[7], ws[8], ws[9], ws[10], ws[11], ws[12]]
  {
    hide Joined, Ceres.HighWord, Ceres.LowWord, LengthOf, DeviceOf, FlagsOf;
    JoinedBack(ws[2], ws[3]);
    JoinedBack(ws[6], ws[7]);
    JoinedBack(ws[8], ws[9]);
    JoinedBack(ws[10], ws[11]);
    LengthWordBack(ws[4]);
  }

  /** The header that thirteen words make spells those words. */
  lemma {:induction false} WordsBack(ws: seq<bv32>)
    requires |ws| >= 13
    ensures HeaderWords(HeaderAfter(ws, 13)) == ws[..13]
    ensures HeaderAfter(ws, 13).magicNumber == ws[0] && HeaderAfter(ws, 13).crc == ws[12]
    ensures HeaderAfter(ws, 13).length == (ws[4] >> 16) as bv16
  {
    hide Joined, LengthOf, DeviceOf, FlagsOf, HeaderAfter, HeaderWords;
    HeaderIs(ws);
    WordsOfHeader(ws, HeaderAfter(ws, 13));
    Thirteen(ws);
    LengthWordBack(ws[4]);
  }

  lemma Between<T>(a: T, b: seq<T>, c: T, d: seq<T>)
    requires [a] + b + [c] == [a] + d + [c]
    ensures b == d
  {
    assert ([a] + b + [c])[1..|[a] + b + [c]| - 1] == b;
    assert ([a] + d + [c])[1..|[a] + d + [c]| - 1] == d;
  }

  /** The header is accepted if and only if the marker is there and the last word is the CRC of the words between. */
  ghost predicate IsHeader(ws: seq<bv32>)
    requires |ws| >= 13
  {
    ws[0] == 0xF00F_F00F && ws[12] == Crc32.Crc(0, Flatten(ws[1..12]))
  }

  lemma {:induction false} GoodIs(ws: seq<bv32>)
    requires |ws| >= 13
    ensures GoodHeader(HeaderAfter(ws, 13)) <==> IsHeader(ws)
  {
    var h := HeaderAfter(ws, 13);
    WordsBack(ws);
    SplitHeaderWords(h);
    CoveredBytes(h);
    hide HeaderAfter, HeaderWords, CoveredWords, HeaderCrcBytes, Flatten, Crc32.Crc;
    Thirteen(ws);
    Between(ws[0], ws[1..12], ws[12], CoveredWords(h));
  }

  /**
   A header from a clean start, told by its words. If it is not accepted nothing is published and the flag is set,
   and its 52 bytes stay counted.
   */
  lemma {:induction false} HeaderIsChecked(p: Parser, hw: seq<bv32>)
    requires Clean(p) && |hw| == 13
    ensures
      var q := FeedAll(p, hw);
      && q.published == p.published && q.numBytes == 52
      && (q.reeling <==> !(hw[0] == 0xF00F_F00F && hw[12] == Crc32.Crc(0, Flatten(hw[1..12]))))
  {
    hide InterpretHeaderWord, HeaderAfter, FeedBody, FeedAll, Flatten, EventOk, GoodHeader, FeedHeader, Crc32.Crc;
    GoodIs(hw);
    HeaderRead(p, hw, 12);
    FeedIsAfter(p, hw[..12]);
    CopiedSoFar(p, hw[..12]);
    AfterNext(hw, 12);
    HeaderAfterFront(hw[..12], hw[12..], 12);
    assert hw[..12] + hw[12..] == hw;
    LastHeaderWord(After(p, hw[..12]), hw[12]);
    FeedOne(p, hw);
  }

  lemma {:induction false} FeedOne(p: Parser, ws: seq<bv32>)
    requires Ok(p) && ws != []
    ensures FeedAll(p, ws) == Feed(FeedAll(p, ws[..|ws| - 1]), ws[|ws| - 1])
  {
    hide Feed, Ok;
  }

  lemma {:induction false} LastHeaderWord(q: Parser, w: bv32)
    requires Ok(q) && !q.reeling && q.ev.headerBytesRead == 48
    ensures
      var h := InterpretHeaderWord(q.ev.header, w, 12);
      && Feed(q, w).published == q.published && Feed(q, w).numBytes == q.numBytes + 4
      && (Feed(q, w).reeling <==> !GoodHeader(h))
  {
    hide InterpretHeaderWord, StoreWord, GoodHeader;
  }

  // ----- Markers -----

  /** The word that opens waveform `c`. */
  function Opening(c: nat): bv32
    requires c < 4
  {
    [0xFF00_FF00, 0xFF01_FF01, 0xFF02_FF02, 0xFF03_FF03][c]
  }

  lemma OpeningIs(c: nat)
    requires c < NUM_WAVEFORMS
    ensures Opening(c) == ChannelMarker(c)
  {
    assert c == 0 || c == 1 || c == 2 || c == 3;
  }

  /** When a marker is due, it is taken, and any other word gives the event up: nothing is published, and nothing stays counted. */
  lemma {:induction false} MarkerDecides(p: Parser, w: bv32)
    requires Ok(p) && !p.reeling && p.ev.headerBytesRead == FONTUS_HEADER_SIZE && !p.ev.wfHeaderRead
    ensures
      var marker := [0xFF00_FF00, 0xFF01_FF01, 0xFF02_FF02, 0xFF03_FF03][p.ev.currentChannel];
      && Feed(p, w).published == p.published
      && (Feed(p, w).reeling <==> w != marker)
      && (w != marker ==> Feed(p, w) == p.(ev := START_EVENT, numBytes := 0, reeling := true))
      && (w == marker ==> Feed(p, w).ev == p.ev.(wfHeaderRead := true, samplesRead := 1) && Feed(p, w).numBytes == p.numBytes + 4)
  {
    OpeningIs(p.ev.currentChannel);
    hide ChannelMarker, StoreWord, GoodHeader, Header.Length;
  }

  /** When a sample is due, any word is one. */
  lemma {:induction false} SampleIsTaken(p: Parser, w: bv32)
    requires Ok(p) && !p.reeling && p.ev.headerBytesRead == FONTUS_HEADER_SIZE && p.ev.wfHeaderRead
    ensures !Feed(p, w).reeling
  {
    hide ChannelMarker, StoreWord, GoodHeader, Header.Length;
  }

  // ----- Events -----

  /** Where waveform `c` starts, counted in words. */
  function Start(c: nat, n: nat): nat { 13 + c * (n + 1) }

  /** The first `k` waveforms in the words `ws` of an event of `n` samples are opened by their markers. */
  ghost predicate AreOpened(ws: seq<bv32>, n: nat, k: nat) {
    k <= 4 && forall c :: 0 <= c < k ==> Start(c, n) < |ws| && ws[Start(c, n)] == Opening(c)
  }

  function Opened(ev: EventInProgress): nat { ev.currentChannel + if ev.wfHeaderRead then 1 else 0 }

  lemma {:induction false} OpenedNext(ws: seq<bv32>, w: bv32, n: nat, k: nat)
    requires AreOpened(ws, n, k)
    ensures AreOpened(ws + [w], n, k)
    ensures k < 4 && |ws| == Start(k, n) && w == Opening(k) ==> AreOpened(ws + [w], n, k + 1)
  {
    hide Opening, Start;
  }

  lemma {:induction false} OpenedStep(q: Parser, ws: seq<bv32>, w: bv32)
    requires Ok(q) && !q.reeling && q.ev.headerBytesRead == FONTUS_HEADER_SIZE && !FeedBody(q, w).reeling
    requires |ws| == 13 + Stored(q.ev) && AreOpened(ws, q.ev.header.Length(), Opened(q.ev)) && q.ev.header.Length() > 0
    ensures AreOpened(ws + [w], q.ev.header.Length(), Opened(FeedBody(q, w).ev)) && FeedBody(q, w).ev.header == q.ev.header
  {
    OpenedNext(ws, w, q.ev.header.Length(), Opened(q.ev));
    OpeningIs(q.ev.currentChannel);
    hide AreOpened, ChannelMarker, Opening, StoreWord, GoodHeader, Header.Length;
  }

  lemma {:induction false} OpenedSoFar(p: Parser, ws: seq<bv32>)
    requires Clean(p) && IsOneEvent(p, ws)
    ensures
      var ev := After(p, ws).ev;
      ev.headerBytesRead == FONTUS_HEADER_SIZE ==> GoodHeader(ev.header) && AreOpened(ws, ev.header.Length(), Opened(ev))
    decreases |ws|
  {
    hide FeedBody, FeedHeader, GoodHeader, AreOpened, Header.Length, Stored, HeaderAfter, Flatten;
    if ws != [] {
      var n := |ws| - 1;
      var q := After(p, ws[..n]);
      OpenedSoFar(p, ws[..n]);
      CopiedSoFar(p, ws[..n]);
      assert ws[..n] + [ws[n]] == ws;
      if q.ev.headerBytesRead < FONTUS_HEADER_SIZE {
        HeaderOpensNone(q, ws[n], ws);
      } else {
        OpenedStep(q, ws[..n], ws[n]);
        StaysGood(q, ws[n]);
      }
    }
  }

  lemma {:induction false} HeaderOpensNone(q: Parser, w: bv32, ws: seq<bv32>)
    requires Ok(q) && !q.reeling && q.ev.headerBytesRead < FONTUS_HEADER_SIZE && !FeedHeader(q, w).reeling
    ensures
      var ev := FeedHeader(q, w).ev;
      ev.headerBytesRead == FONTUS_HEADER_SIZE ==> GoodHeader(ev.header) && AreOpened(ws, ev.header.Length(), Opened(ev))
  {
    hide GoodHeader, InterpretHeaderWord, StoreWord, Header.Length;
  }

  lemma {:induction false} StaysGood(q: Parser, w: bv32)
    requires Ok(q) && !q.reeling && q.ev.headerBytesRead == FONTUS_HEADER_SIZE && !FeedBody(q, w).reeling
    ensures GoodHeader(FeedBody(q, w).ev.header) && FeedBody(q, w).ev.headerBytesRead == FONTUS_HEADER_SIZE
  {
    hide GoodHeader, StoreWord, ChannelMarker, Header.Length;
  }

  /** The upper half of a word as a number. */
  function UpperHalf(w: bv32): nat { ((w >> 16) as bv16) as nat }

  /** Four waveforms of `n` samples behind the header, each behind its marker. */
  ghost predicate AreMarked(ws: seq<bv32>, n: nat) {
    && |ws| == 17 + 4 * n
    && ws[13] == 0xFF00_FF00 && ws[14 + n] == 0xFF01_FF01 && ws[15 + 2 * n] == 0xFF02_FF02 && ws[16 + 3 * n] == 0xFF03_FF03
  }

  /** The words of one event with samples. */
  ghost predicate IsEvent(ws: seq<bv32>) {
    |ws| >= 13 && IsHeader(ws) && UpperHalf(ws[4]) > 0 && AreMarked(ws, UpperHalf(ws[4]))
  }

  lemma MarkedLength(ws: seq<bv32>, n: nat)
    requires AreMarked(ws, n)
    ensures |ws| == 17 + 4 * n
  {
  }

  lemma FourStarts(n: nat)
    ensures Start(0, n) == 13 && Start(1, n) == 14 + n && Start(2, n) == 15 + 2 * n && Start(3, n) == 16 + 3 * n
  {
  }

  lemma {:induction false} LengthIs(ws: seq<bv32>)
    requires |ws| >= 13
    ensures HeaderAfter(ws, 13).Length() == UpperHalf(ws[4])
  {
    hide HeaderAfter, HeaderWords;
    WordsBack(ws);
  }

  lemma {:induction false} FourOpened(ws: seq<bv32>, n: nat)
    requires |ws| == 17 + 4 * n
    ensures AreOpened(ws, n, 4) <==> AreMarked(ws, n)
  {
    FourStarts(n);
    hide Start;
    assert Opening(0) == 0xFF00_FF00 && Opening(1) == 0xFF01_FF01 && Opening(2) == 0xFF02_FF02 && Opening(3) == 0xFF03_FF03;
    hide Opening;
    if AreOpened(ws, n, 4) {
      assert ws[Start(0, n)] == Opening(0) && ws[Start(1, n)] == Opening(1) && ws[Start(2, n)] == Opening(2) && ws[Start(3, n)] == Opening(3);
    } else {
      var c :| 0 <= c < 4 && !(Start(c, n) < |ws| && ws[Start(c, n)] == Opening(c));
      assert c == 0 || c == 1 || c == 2 || c == 3;
    }
  }

  lemma {:induction false} OpenedIsEvent(ws: seq<bv32>)
    requires |ws| >= 13
    requires
      var n := HeaderAfter(ws, 13).Length();
      GoodHeader(HeaderAfter(ws, 13)) && n > 0 && |ws| == 13 + 4 * (n + 1) && AreOpened(ws, n, 4)
    ensures IsEvent(ws)
  {
    GoodIs(ws);
    LengthIs(ws);
    FourOpened(ws, HeaderAfter(ws, 13).Length());
    hide IsHeader, HeaderAfter, GoodHeader, Header.Length, AreOpened, AreMarked, UpperHalf;
  }

  /** Whatever words complete an event are of that form. */
  lemma {:induction false} CompletedIsEvent(p: Parser, ws: seq<bv32>)
    requires Clean(p) && IsOneEvent(p, ws) && Complete(After(p, ws))
    ensures IsEvent(ws)
  {
    CopiedSoFar(p, ws);
    OpenedSoFar(p, ws);
    FeedIsAfter(p, ws);
    CompleteHasSamples(p, ws);
    var ev := After(p, ws).ev;
    assert ev.headerBytesRead == FONTUS_HEADER_SIZE && Opened(ev) == 4 by {
      hide Header.Length, GoodHeader, AreOpened, Flatten, HeaderAfter, IsOneEvent, After;
    }
    hide IsEvent, IsOneEvent, After, AreOpened, GoodHeader, Header.Length, HeaderAfter, EventOk, Flatten, FeedAll, Publish;
    assert Stored(ev) == 4 * (ev.header.Length() + 1);
    OpenedIsEvent(ws);
  }

  lemma {:induction false} CompleteHasSamples(p: Parser, ws: seq<bv32>)
    requires Clean(p) && IsOneEvent(p, ws) && Complete(After(p, ws))
    ensures After(p, ws).ev.header.Length() > 0
  {
    hide Header.Length, GoodHeader, FeedHeader, FeedBody;
    if ws != [] {
      var n := |ws| - 1;
      var q := After(p, ws[..n]);
      CopiedSoFar(p, ws[..n]);
      if q.ev.headerBytesRead < FONTUS_HEADER_SIZE {
        HeaderIsNotComplete(q, ws[n]);
      } else {
        SameHeader(q, ws[n]);
      }
    }
  }

  lemma {:induction false} SameHeader(q: Parser, w: bv32)
    requires Ok(q) && !q.reeling && q.ev.headerBytesRead == FONTUS_HEADER_SIZE && !FeedBody(q, w).reeling
    ensures FeedBody(q, w).ev.header == q.ev.header
  {
    hide GoodHeader, StoreWord, ChannelMarker, Header.Length;
  }

  /** Until something is published, the words are those of one event in progress, or nothing will be published any more. */
  lemma {:induction false} InProgress(p: Parser, ws: seq<bv32>)
    requires Clean(p) && FeedAll(p, ws).published == p.published
    ensures FeedAll(p, ws) == After(p, ws)
    ensures IsOneEvent(p, ws) || IsStuck(After(p, ws))
    decreases |ws|
  {
    hide Header.Length, GoodHeader, FeedHeader, FeedBody, EventOk, Publish;
    if ws != [] {
      var n := |ws| - 1;
      FeedOne(p, ws);
      FeedGrows(FeedAll(p, ws[..n]), ws[n]);
      FeedAllGrows(p, ws[..n]);
      InProgress(p, ws[..n]);
      NextInProgress(After(p, ws[..n]), ws[n]);
    }
  }

  /** Reeling, or behind the header of an event without samples. */
  ghost predicate IsStuck(q: Parser) {
    q.reeling || (q.ev.headerBytesRead == FONTUS_HEADER_SIZE && q.ev.header.Length() == 0)
  }

  lemma {:induction false} NextInProgress(q: Parser, w: bv32)
    requires Ok(q) && Feed(q, w).published == q.published
    ensures !q.reeling && q.ev.headerBytesRead < FONTUS_HEADER_SIZE ==> Feed(q, w) == FeedHeader(q, w)
    ensures !q.reeling && q.ev.headerBytesRead >= FONTUS_HEADER_SIZE ==>
      q.ev.headerBytesRead == FONTUS_HEADER_SIZE && Feed(q, w) == FeedBody(q, w)
    ensures IsStuck(q) ==> IsStuck(Feed(q, w))
  {
    hide Header.Length, GoodHeader, InterpretHeaderWord, StoreWord, ChannelMarker;
  }

  // ----- Exactly the events are published -----

  /** The words from the `k`-th waveform on, as one waveform behind the other. */
  lemma {:induction false} WavesOf(ws: seq<bv32>, n: nat) returns (waves: seq<seq<bv32>>)
    requires |ws| == 17 + 4 * n && AreOpened(ws, n, 4)
    ensures AreWaves(waves, n) && ws == ws[..13] + WaveformsWords(waves, NUM_WAVEFORMS)
  {
    waves := [ws[14..14 + n], ws[15 + n..15 + 2 * n], ws[16 + 2 * n..16 + 3 * n], ws[17 + 3 * n..]];
    WaveAt(ws, n, waves, 0);
    WaveAt(ws, n, waves, 1);
    WaveAt(ws, n, waves, 2);
    WaveAt(ws, n, waves, 3);
    NoWaveforms(waves);
  }

  lemma {:induction false} WaveAt(ws: seq<bv32>, n: nat, waves: seq<seq<bv32>>, c: nat)
    requires c < 4 && |ws| == 17 + 4 * n && AreOpened(ws, n, 4) && AreWaves(waves, n)
    requires Start(c, n) + 1 + n <= |ws| && waves[c] == ws[Start(c, n) + 1..Start(c, n) + 1 + n]
    requires ws[..Start(c, n)] == ws[..13] + WaveformsWords(waves, c)
    ensures ws[..Start(c, n) + 1 + n] == ws[..13] + WaveformsWords(waves, c + 1)
  {
    OpeningIs(c);
    hide Opening, ChannelMarker, Start;
    assert ws[..Start(c, n) + 1 + n] == ws[..Start(c, n)] + [ws[Start(c, n)]] + waves[c];
  }

  /** A published event is the words it came as, and its words are those of an event. */
  lemma {:induction false} FirstPublished(p: Parser, ws: seq<bv32>) returns (k: nat)
    requires Clean(p) && FeedAll(p, ws).published != p.published
    ensures k <= |ws| && IsEvent(ws[..k]) && PublishedCopy(p, FeedAll(p, ws[..k]), ws[..k])
    decreases |ws|
  {
    hide Header.Length, GoodHeader, FeedHeader, FeedBody, EventOk, Publish, IsEvent, PublishedCopy;
    if ws != [] {
      var n := |ws| - 1;
      if FeedAll(p, ws[..n]).published != p.published {
        k := FirstPublished(p, ws[..n]);
        assert ws[..n][..k] == ws[..k];
      } else {
        k := |ws|;
        assert ws[..k] == ws;
        InProgress(p, ws[..n]);
        FeedOne(p, ws);
        Publishes(After(p, ws[..n]), ws[n]);
        assert ws[..n] + [ws[n]] == ws;
        AfterAppend(p, ws[..n], ws[n]);
        CompletedIsEvent(p, ws);
        PublishedVerbatim(p, ws);
      }
    }
  }

  lemma {:induction false} Publishes(q: Parser, w: bv32)
    requires Ok(q) && Feed(q, w).published != q.published
    ensures !q.reeling && q.ev.headerBytesRead == FONTUS_HEADER_SIZE && Complete(FeedBody(q, w)) && !FeedBody(q, w).reeling
    ensures !IsStuck(q)
  {
    hide Header.Length, GoodHeader, InterpretHeaderWord, StoreWord, ChannelMarker;
  }

  /**
   From a clean start, words are published as one event, byte for byte, and nothing else, if and only if they
   are the words of an event.
   */
  lemma {:induction false} ExactlyEvents(p: Parser, ws: seq<bv32>)
    requires Clean(p)
    ensures
      (exists h :: FeedAll(p, ws).published == p.published + [Event(h, Flatten(ws))]) <==> IsEvent(ws)
  {
    hide IsEvent, Clean, Ok, FeedAll, Flatten, HeaderAfter;
    CleanIsOk(p);
    if IsEvent(ws) {
      EventIsTaken(p, ws);
      assert FeedAll(p, ws).published == p.published + [Event(HeaderAfter(ws, 13), Flatten(ws))];
    }
    if exists h :: FeedAll(p, ws).published == p.published + [Event(h, Flatten(ws))] {
      var h :| FeedAll(p, ws).published == p.published + [Event(h, Flatten(ws))];
      Longer(p.published, Event(h, Flatten(ws)));
      var k := FirstPublished(p, ws);
      WholeIsFirst(p, ws, k, h);
    }
  }

  lemma Longer<T>(s: seq<T>, x: T)
    ensures s + [x] != s
  {
    assert |s + [x]| > |s|;
  }

  lemma {:induction false} WholeIsFirst(p: Parser, ws: seq<bv32>, k: nat, h: Header)
    requires Clean(p) && k <= |ws| && PublishedCopy(p, FeedAll(p, ws[..k]), ws[..k])
    requires FeedAll(p, ws).published == p.published + [Event(h, Flatten(ws))]
    ensures ws[..k] == ws
  {
    hide Clean, FeedAll, Flatten, HeaderAfter, Ok;
    assert ws == ws[..k] + ws[k..];
    CleanIsOk(p);
    FeedAllConcat(p, ws[..k], ws[k..]);
    FeedAllGrows(FeedAll(p, ws[..k]), ws[k..]);
    var m := |p.published|;
    assert FeedAll(p, ws[..k]).published[m] == Event(HeaderAfter(ws[..k], 13), Flatten(ws[..k]));
    assert FeedAll(p, ws).published[m] == Event(h, Flatten(ws));
    assert |Flatten(ws[..k])| == |Flatten(ws)|;
  }

  lemma CleanIsOk(p: Parser)
    requires Clean(p)
    ensures Ok(p)
  {
  }

  lemma {:induction false} EventIsTaken(p: Parser, ws: seq<bv32>)
    requires Clean(p) && IsEvent(ws)
    ensures PublishedCopy(p, FeedAll(p, ws), ws)
  {
    hide Clean, FeedAll, Flatten, HeaderAfter, GoodHeader, Header.Length, AreOpened, AreMarked, PublishedCopy, HeaderWords, UpperHalf, IsHeader;
    var h := HeaderAfter(ws, 13);
    var n := h.Length();
    LengthIs(ws);
    GoodIs(ws);
    MarkedLength(ws, n);
    FourOpened(ws, n);
    var waves := WavesOf(ws, n);
    WordsBack(ws);
    EventIsPublished(p, h, waves);
  }
}
