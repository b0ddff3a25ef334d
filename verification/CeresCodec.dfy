/**
 The delta coding of a channel: what produce_data of fake_data_gen.c writes, what
 ceres_read_proc of data_builder.c makes of it, and exactly when the two agree.
 */
module CeresCodec {
  import opened CeresParser
  import opened Arithmetic16

  // ----- Encoder -----

  function Upper(w: bv32): bv16 { Low16((w >> 16) & 0x3FFF) }

  function Lower(w: bv32): bv16 { Low16(w & 0x3FFF) }

  /** Two fourteen-bit fields in one word; the valid and compression bits stay clear. */
  function Join(first: bv16, second: bv16): bv32 {
    ((first & 0x3FFF) as bv32 << 16) | (second & 0x3FFF) as bv32
  }

  /** The delta-coded form of pair `j` of a channel. */
  function Delta(wave: seq<bv32>, j: nat): bv32
    requires j < |wave|
  {
    var first := if j == 0 then Upper(wave[j]) else Minus(Upper(wave[j]), Lower(wave[j - 1]));
    Join(first, Minus(Lower(wave[j]), Upper(wave[j])))
  }

  function Deltas(wave: seq<bv32>): (ws: seq<bv32>)
    ensures |ws| == |wave|
  {
    seq(|wave|, j requires 0 <= j < |wave| => Delta(wave, j))
  }

  // ----- Decoder -----

  datatype Pair = Pair(first: bv16, second: bv16)

  /** What the sample loop of ceres_read_proc makes of word `j` of a channel of uncompressed words. */
  function Decode(ws: seq<bv32>, j: nat): Pair
    requires j < |ws|
  {
    var prev := if j == 0 then 0 else Decode(ws, j - 1).second;
    var first := UpperSample(ws[j], prev, j == 0);
    Pair(first, LowerSample(ws[j], first))
  }

  /** The word it puts in the event buffer. */
  function Decoded(ws: seq<bv32>, j: nat): bv32
    requires j < |ws|
  {
    SamplePair(ValidBit(ws[j]), Decode(ws, j).first, Decode(ws, j).second)
  }

  // ----- Channels -----

  /** The sample pairs that one word adds behind the sample `prev`: three, if it is compressed. */
  function WordPairs(w: bv32, prev: bv16, atStart: bool): (ps: seq<Pair>)
    ensures |ps| == if IsCompressed(w) then 3 else 1
  {
    if IsCompressed(w) then
      [Pair(SmallSample(w, prev, 0), SmallSample(w, prev, 1)), Pair(SmallSample(w, prev, 2), SmallSample(w, prev, 3)),
       Pair(SmallSample(w, prev, 4), SmallSample(w, prev, 5))]
    else
      var first := UpperSample(w, prev, atStart);
      [Pair(first, LowerSample(w, first))]
  }

  function LastSample(ps: seq<Pair>): bv16 {
    if ps == [] then 0 else ps[|ps| - 1].second
  }

  /** The sample pairs of a channel of compressed and uncompressed words in any order. */
  function Pairs(ws: seq<bv32>): (ps: seq<Pair>)
    ensures |ps| >= |ws| && (ws == [] ==> ps == [])
  {
    if ws == [] then [] else
      var before := Pairs(ws[..|ws| - 1]);
      before + WordPairs(ws[|ws| - 1], LastSample(before), before == [])
  }

  function PairWords(valid: bv16, ps: seq<Pair>): (pw: seq<bv32>)
    ensures |pw| == |ps|
  {
    seq(|ps|, i requires 0 <= i < |ps| => SamplePair(valid, ps[i].first, ps[i].second))
  }

  /** What such a channel puts in the event buffer: one word for each pair, marked as valid like the word it came in. */
  function Stashed(ws: seq<bv32>): (pw: seq<bv32>)
    ensures |pw| == |Pairs(ws)|
  {
    if ws == [] then [] else
      var n := |ws| - 1;
      var before := Pairs(ws[..n]);
      Stashed(ws[..n]) + PairWords(ValidBit(ws[n]), WordPairs(ws[n], LastSample(before), before == []))
  }

  lemma {:induction false} DecodePrefix(ws: seq<bv32>, n: nat, j: nat)
    requires j < n <= |ws|
    ensures Decode(ws[..n], j) == Decode(ws, j)
    decreases j
  {
    hide UpperSample, LowerSample;
    if j > 0 {
      DecodePrefix(ws, n, j - 1);
    }
  }

  /** Without compressed words every word is one pair. */
  lemma {:induction false} PlainPairs(ws: seq<bv32>)
    requires forall j :: 0 <= j < |ws| ==> !IsCompressed(ws[j])
    ensures |Pairs(ws)| == |ws|
    ensures forall j {:trigger Decode(ws, j)} :: 0 <= j < |ws| ==> Pairs(ws)[j] == Decode(ws, j)
    ensures forall j {:trigger Decoded(ws, j)} :: 0 <= j < |ws| ==> Stashed(ws)[j] == Decoded(ws, j)
  {
    hide UpperSample, LowerSample, SamplePair, ValidBit, IsCompressed, Decode;
    if ws != [] {
      var n := |ws| - 1;
      PlainPairs(ws[..n]);
      forall j | 0 <= j < n
        ensures Decode(ws[..n], j) == Decode(ws, j) && Decoded(ws[..n], j) == Decoded(ws, j)
      {
        DecodePrefix(ws, n, j);
      }
      PlainLast(ws, Pairs(ws[..n]));
    }
  }

  lemma PlainLast(ws: seq<bv32>, before: seq<Pair>)
    requires ws != [] && |before| == |ws| - 1 && !IsCompressed(ws[|ws| - 1])
    requires |ws| > 1 ==> before[|ws| - 2] == Decode(ws, |ws| - 2)
    ensures WordPairs(ws[|ws| - 1], LastSample(before), before == []) == [Decode(ws, |ws| - 1)]
  {
    hide UpperSample, LowerSample, IsCompressed;
  }

  // ----- Agreement -----

  /** Both samples of the pair are fourteen-bit. */
  predicate IsSamplePair(w: bv32) { w & 0xC000_C000 == 0 }

  /** The sixteen-bit difference from `a` to `b`, read as signed, is in -8192..8191. */
  predicate Close(a: bv16, b: bv16) { FitsField(Minus(b, a)) }

  predicate FitsField(d: bv16) { d < 0x2000 || d >= 0xE000 }

  /** Both samples of pair `j` are close to the ones before them. */
  predicate SmoothAt(wave: seq<bv32>, j: nat)
    requires j < |wave|
  {
    && Close(Upper(wave[j]), Lower(wave[j]))
    && (j > 0 ==> Close(Lower(wave[j - 1]), Upper(wave[j])))
  }

  ghost predicate Smooth(wave: seq<bv32>) {
    forall j :: 0 <= j < |wave| ==> SmoothAt(wave, j)
  }

  predicate SameModulo14Bits(x: bv16, y: bv16) { x & 0x3FFF == y & 0x3FFF }

  predicate Negative14(d: bv16) { d & 0x2000 != 0 }

  function Sext14(d: bv16): bv16 { Asr2((d & 0x3FFF) << 2) }

  lemma Sext14OfNegative(d: bv16)
    requires Negative14(d)
    ensures Sext14(d) == d <==> FitsField(d)
    ensures SameModulo14Bits(Sext14(d), d)
  {
  }

  lemma Sext14OfPositive(d: bv16)
    requires !Negative14(d)
    ensures Sext14(d) == d <==> FitsField(d)
    ensures SameModulo14Bits(Sext14(d), d)
  {
  }

  lemma Sext14Fits(d: bv16)
    ensures Sext14(d) == d <==> FitsField(d)
    ensures SameModulo14Bits(Sext14(d), d)
  {
    hide *;
    if Negative14(d) {
      Sext14OfNegative(d);
    } else {
      Sext14OfPositive(d);
    }
  }

  lemma UpperFieldOfJoin(first: bv16, second: bv16)
    ensures Low16(Join(first, second) >> 14) == (first & 0x3FFF) << 2
  {
  }

  lemma LowerFieldOfJoin(first: bv16, second: bv16)
    ensures Low16((Join(first, second) & 0x3FFF) << 2) == (second & 0x3FFF) << 2
  {
  }

  lemma FieldsOfJoin(first: bv16, second: bv16)
    ensures UpperDelta(Join(first, second)) == Sext14(first)
    ensures LowerDelta(Join(first, second)) == Sext14(second)
  {
    hide Asr2, Low16, Join;
    UpperFieldOfJoin(first, second);
    LowerFieldOfJoin(first, second);
  }

  lemma JoinIsPlain(first: bv16, second: bv16)
    ensures !IsCompressed(Join(first, second)) && ValidBit(Join(first, second)) == 0
    ensures UpperSample(Join(first, second), 0, true) == first & 0x3FFF
  {
  }

  lemma PlusModulo(a: bv16, a': bv16, x: bv16, x': bv16)
    requires SameModulo14Bits(a, a') && SameModulo14Bits(x, x')
    ensures SameModulo14Bits(Plus(a, x), Plus(a', x'))
  {
  }

  /** Adding back a difference that went through a fourteen-bit field. */
  lemma AddBack(a: bv16, b: bv16, a': bv16)
    requires SameModulo14Bits(a, a')
    ensures Plus(a, Sext14(Minus(b, a))) == b <==> Close(a, b)
    ensures SameModulo14Bits(Plus(a', Sext14(Minus(b, a))), b)
  {
    hide Plus, Minus, Sext14, FitsField, SameModulo14Bits;
    var d := Minus(b, a);
    Sext14Fits(d);
    PlusMinus(a, b);
    if Plus(a, Sext14(d)) == b {
      PlusInjective(a, Sext14(d), d);
    }
    SameModuloSymmetric(a, a');
    PlusModulo(a', a, Sext14(d), d);
  }

  lemma SameModuloSymmetric(x: bv16, y: bv16)
    requires SameModulo14Bits(x, y)
    ensures SameModulo14Bits(y, x)
  {
  }

  lemma DeltaOf(wave: seq<bv32>, j: nat)
    requires j < |wave|
    ensures
      var w := Deltas(wave)[j];
      var upper, lower := Upper(wave[j]), Lower(wave[j]);
      && !IsCompressed(w) && ValidBit(w) == 0
      && (j == 0 ==> UpperSample(w, 0, true) == upper)
      && (j > 0 ==> UpperDelta(w) == Sext14(Minus(upper, Lower(wave[j - 1]))))
      && LowerDelta(w) == Sext14(Minus(lower, upper))
  {
    hide Join, UpperDelta, LowerDelta, Sext14, IsCompressed, ValidBit, Upper, Lower, Minus, UpperSample;
    var upper, lower := Upper(wave[j]), Lower(wave[j]);
    var first := if j == 0 then upper else Minus(upper, Lower(wave[j - 1]));
    FieldsOfJoin(first, Minus(lower, upper));
    JoinIsPlain(first, Minus(lower, upper));
    UpperIs14Bit(wave[j]);
  }

  lemma UpperIs14Bit(w: bv32)
    ensures Upper(w) & 0x3FFF == Upper(w) && Lower(w) & 0x3FFF == Lower(w)
  {
  }

  /** Without any bound on the differences, decoded samples are right modulo 2^14. */
  lemma {:induction false} DecodeIsRightModulo14Bits(wave: seq<bv32>, j: nat)
    requires j < |wave|
    ensures SameModulo14Bits(Decode(Deltas(wave), j).first, Upper(wave[j]))
    ensures SameModulo14Bits(Decode(Deltas(wave), j).second, Lower(wave[j]))
    decreases j
  {
    hide SameModulo14Bits, UpperDelta, LowerDelta, Sext14, Upper, Lower, Minus, Plus, Deltas, Low16;
    var w, d := Deltas(wave)[j], Decode(Deltas(wave), j);
    DeltaOf(wave, j);
    if j == 0 {
      AlwaysSame(Upper(wave[0]));
      FirstUpper(w);
    } else {
      DecodeIsRightModulo14Bits(wave, j - 1);
      var prev := Decode(Deltas(wave), j - 1).second;
      SameModuloSymmetric(prev, Lower(wave[j - 1]));
      AddBack(Lower(wave[j - 1]), Upper(wave[j]), prev);
    }
    SameModuloSymmetric(d.first, Upper(wave[j]));
    AddBack(Upper(wave[j]), Lower(wave[j]), d.first);
  }

  lemma FirstUpper(w: bv32)
    ensures UpperSample(w, 0, true) == Low16((w >> 16) & 0x3FFF)
  {
  }

  lemma AlwaysSame(x: bv16)
    ensures SameModulo14Bits(x, x)
  {
  }

  function Original(w: bv32): Pair { Pair(Upper(w), Lower(w)) }

  /** After an exact start, a pair decodes to the samples that were encoded just when it is smooth. */
  lemma DecodeStep(wave: seq<bv32>, j: nat)
    requires j < |wave|
    requires j > 0 ==> Decode(Deltas(wave), j - 1) == Original(wave[j - 1])
    ensures Decode(Deltas(wave), j) == Original(wave[j]) <==> SmoothAt(wave, j)
  {
    hide UpperDelta, LowerDelta, Sext14, Upper, Lower, Minus, Plus, Deltas, Low16, SameModulo14Bits, Close;
    var upper, lower := Upper(wave[j]), Lower(wave[j]);
    DeltaOf(wave, j);
    AlwaysSame(upper);
    AddBack(upper, lower, upper);
    if j == 0 {
      FirstUpper(Deltas(wave)[0]);
    } else {
      AlwaysSame(Lower(wave[j - 1]));
      AddBack(Lower(wave[j - 1]), upper, Lower(wave[j - 1]));
    }
  }

  /** A channel decodes to the samples that were encoded just when it is smooth. */
  lemma {:induction false} DecodeIsExact(wave: seq<bv32>, n: nat)
    requires n <= |wave|
    ensures (forall j :: 0 <= j < n ==> Decode(Deltas(wave), j) == Original(wave[j]))
       <==> (forall j :: 0 <= j < n ==> SmoothAt(wave, j))
    decreases n
  {
    hide Deltas, Decode, Original, SmoothAt;
    if n > 0 {
      DecodeIsExact(wave, n - 1);
      if forall j :: 0 <= j < n - 1 ==> Decode(Deltas(wave), j) == Original(wave[j]) {
        DecodeStep(wave, n - 1);
      }
    }
  }

  predicate IsNegative(x: bv16) { x & 0x8000 != 0 }

  lemma OriginalPairWord(w: bv32)
    requires IsSamplePair(w)
    ensures SamplePair(0, Upper(w), Lower(w)) == w
    ensures Upper(w) == Low16(w >> 16) && Lower(w) == Low16(w)
  {
  }

  lemma PairWordHalves(first: bv16, second: bv16)
    requires !IsNegative(second)
    ensures Low16(SamplePair(0, first, second) >> 16) == first
    ensures Low16(SamplePair(0, first, second)) == second
  {
  }

  /** A negative second sample spills its sign over the first one. */
  lemma SignSpill(first: bv16, second: bv16)
    requires IsNegative(second)
    ensures SamplePair(0, first, second) >> 16 == 0xFFFF
    ensures !IsSamplePair(SamplePair(0, first, second))
  {
  }

  lemma PairWord(w: bv32, p: Pair)
    requires IsSamplePair(w)
    ensures SamplePair(0, p.first, p.second) == w <==> p == Original(w)
  {
    hide SamplePair, Upper, Lower, IsSamplePair, Low16, IsNegative;
    OriginalPairWord(w);
    if SamplePair(0, p.first, p.second) == w {
      if IsNegative(p.second) {
        SignSpill(p.first, p.second);
      } else {
        PairWordHalves(p.first, p.second);
      }
    }
  }

  /**
   Encoding a channel of fourteen-bit samples and decoding it gives it back exactly when
   every difference between successive samples fits its fourteen-bit field.
   */
  lemma {:induction false} RoundTrip(wave: seq<bv32>)
    requires forall j :: 0 <= j < |wave| ==> IsSamplePair(wave[j])
    ensures |Stashed(Deltas(wave))| == |wave|
    ensures Stashed(Deltas(wave)) == wave <==> Smooth(wave)
  {
    hide Deltas, Decode, Original, SmoothAt, SamplePair, ValidBit, IsSamplePair, IsCompressed, UpperSample, UpperDelta, LowerDelta, Stashed, Pairs;
    DeltasArePlain(wave);
    PlainPairs(Deltas(wave));
    forall j | 0 <= j < |wave|
      ensures Stashed(Deltas(wave))[j] == wave[j] <==> Decode(Deltas(wave), j) == Original(wave[j])
    {
      DeltaOf(wave, j);
      PairWord(wave[j], Decode(Deltas(wave), j));
      assert Stashed(Deltas(wave))[j] == Decoded(Deltas(wave), j);
    }
    DecodeIsExact(wave, |wave|);
  }

  lemma DeltasArePlain(wave: seq<bv32>)
    ensures forall j :: 0 <= j < |wave| ==> !IsCompressed(Deltas(wave)[j])
  {
    hide IsCompressed, Deltas, Sext14, UpperSample, UpperDelta, LowerDelta, Upper, Lower, ValidBit;
    forall j | 0 <= j < |wave|
      ensures !IsCompressed(Deltas(wave)[j])
    {
      DeltaOf(wave, j);
    }
  }

  // ----- Without the bound on the differences -----

  /** What a difference from `a` to `b` that does not fit its field is off by, in units of 2^14. */
  function Wrap(a: bv16, b: bv16): int {
    if Close(a, b) then 0 else if a < b then -1 else 1
  }

  /** The net number of wraps up to the first sample of pair `j`. */
  function UpperWraps(wave: seq<bv32>, j: nat): int
    requires j < |wave|
    decreases j, 0
  {
    if j == 0 then 0 else LowerWraps(wave, j - 1) + Wrap(Lower(wave[j - 1]), Upper(wave[j]))
  }

  /** And up to its second sample. */
  function LowerWraps(wave: seq<bv32>, j: nat): int
    requires j < |wave|
    decreases j, 1
  {
    UpperWraps(wave, j) + Wrap(Upper(wave[j]), Lower(wave[j]))
  }

  /** `n` times 2^14, in sixteen bits. */
  function Quarters(n: int): bv16 {
    if n % 4 == 0 then 0 else if n % 4 == 1 then 0x4000 else if n % 4 == 2 then 0x8000 else 0xC000
  }

  lemma QuartersPlus(n: int, w: int)
    requires -1 <= w <= 1
    ensures Plus(Quarters(n), Quarters(w)) == Quarters(n + w)
  {
    assert n % 4 == 0 || n % 4 == 1 || n % 4 == 2 || n % 4 == 3;
  }

  predicate IsFourteenBits(x: bv16) { x <= 0x3FFF }

  lemma WrappedUp(a: bv16, b: bv16)
    requires IsFourteenBits(a) && IsFourteenBits(b) && !Close(a, b) && a < b
    ensures Sext14(Minus(b, a)) == Plus(Minus(b, a), 0xC000)
  {
  }

  lemma WrappedDown(a: bv16, b: bv16)
    requires IsFourteenBits(a) && IsFourteenBits(b) && !Close(a, b) && !(a < b)
    ensures Sext14(Minus(b, a)) == Plus(Minus(b, a), 0x4000)
  {
  }

  lemma PlusZero(x: bv16)
    ensures Plus(x, 0) == x
  {
  }

  /** A difference through a fourteen-bit field is off by its wrap. */
  lemma WrappedField(a: bv16, b: bv16)
    requires IsFourteenBits(a) && IsFourteenBits(b)
    ensures Sext14(Minus(b, a)) == Plus(Minus(b, a), Quarters(Wrap(a, b)))
  {
    Sext14Fits(Minus(b, a));
    PlusZero(Minus(b, a));
    if !Close(a, b) {
      if a < b {
        WrappedUp(a, b);
      } else {
        WrappedDown(a, b);
      }
    }
    hide Sext14, Minus, Plus, FitsField, SameModulo14Bits;
  }

  /** Adding it back to a sample that is off by `n` wraps. */
  lemma AddBackWrapped(a: bv16, b: bv16, n: int)
    requires IsFourteenBits(a) && IsFourteenBits(b)
    ensures Plus(Plus(a, Quarters(n)), Sext14(Minus(b, a))) == Plus(b, Quarters(n + Wrap(a, b)))
  {
    hide Sext14, Plus, Minus, Quarters, IsFourteenBits;
    WrappedField(a, b);
    hide Close;
    var d, q, w := Minus(b, a), Quarters(n), Quarters(Wrap(a, b));
    PlusAssociates(Plus(a, q), d, w);
    PlusSwaps(a, q, d);
    PlusMinus(a, b);
    PlusAssociates(b, q, w);
    QuartersPlus(n, Wrap(a, b));
  }

  lemma HalvesAreFourteenBits(w: bv32)
    ensures IsFourteenBits(Upper(w)) && IsFourteenBits(Lower(w))
  {
  }

  /** Decoded samples are the ones encoded, off by 2^14 for every wrap so far. */
  lemma {:induction false} DecodeIsOffByWraps(wave: seq<bv32>, j: nat)
    requires j < |wave|
    ensures Decode(Deltas(wave), j) == Pair(Plus(Upper(wave[j]), Quarters(UpperWraps(wave, j))), Plus(Lower(wave[j]), Quarters(LowerWraps(wave, j))))
    decreases j
  {
    hide UpperDelta, LowerDelta, Sext14, Upper, Lower, Minus, Plus, Deltas, Low16, Wrap, IsFourteenBits;
    DeltaOf(wave, j);
    HalvesAreFourteenBits(wave[j]);
    if j == 0 {
      FirstUpper(Deltas(wave)[0]);
      PlusZero(Upper(wave[0]));
    } else {
      HalvesAreFourteenBits(wave[j - 1]);
      DecodeIsOffByWraps(wave, j - 1);
      AddBackWrapped(Lower(wave[j - 1]), Upper(wave[j]), LowerWraps(wave, j - 1));
    }
    AddBackWrapped(Upper(wave[j]), Lower(wave[j]), UpperWraps(wave, j));
  }

  lemma SignOfQuarters(x: bv16, n: int)
    requires IsFourteenBits(x)
    ensures IsNegative(Plus(x, Quarters(n))) <==> n % 4 >= 2
  {
  }

  lemma LowerHalfStored(first: bv16, second: bv16)
    ensures Low16(SamplePair(0, first, second)) == second
  {
  }

  lemma UpperHalfStored(first: bv16, second: bv16)
    ensures Low16(SamplePair(0, first, second) >> 16) == if IsNegative(second) then 0xFFFF else first
  {
  }

  lemma SameAsAllOnes(x: bv16)
    requires IsFourteenBits(x)
    ensures SameModulo14Bits(0xFFFF, x) <==> x == 0x3FFF
  {
  }

  /** Both halves of a stored word agree with a pair of samples modulo 2^14. */
  predicate AgreesModulo14Bits(stored: bv32, original: bv32) {
    SameModulo14Bits(Low16(stored >> 16), Upper(original)) && SameModulo14Bits(Low16(stored), Lower(original))
  }

  /** The second sample of pair `j` does not spill over the first one, or makes no difference to it. */
  predicate KeepsUpper(wave: seq<bv32>, j: nat)
    requires j < |wave|
  {
    LowerWraps(wave, j) % 4 < 2 || Upper(wave[j]) == 0x3FFF
  }

  /**
   Without any bound on the differences, what is stored for a pair agrees with it modulo 2^14 in its lower half;
   in its upper half it agrees if and only if the net number of differences that wrapped so far is 0 or 1
   modulo 4, or the first sample is all ones.
   */
  lemma {:induction false} StoredModulo14Bits(wave: seq<bv32>, j: nat)
    requires j < |wave|
    ensures |Stashed(Deltas(wave))| == |wave|
    ensures
      var w := Stashed(Deltas(wave))[j];
      && SameModulo14Bits(Low16(w), Lower(wave[j]))
      && (AgreesModulo14Bits(w, wave[j]) <==> KeepsUpper(wave, j))
  {
    hide Deltas, Decode, SamplePair, ValidBit, IsCompressed, UpperSample, UpperDelta, LowerDelta, Stashed, Pairs, Plus, Low16, Quarters, Upper, Lower, SameModulo14Bits, IsNegative, UpperWraps, LowerWraps, IsFourteenBits;
    DeltasArePlain(wave);
    PlainPairs(Deltas(wave));
    DeltaOf(wave, j);
    var d := Decode(Deltas(wave), j);
    assert Stashed(Deltas(wave))[j] == Decoded(Deltas(wave), j) == SamplePair(0, d.first, d.second);
    LowerHalfStored(d.first, d.second);
    UpperHalfStored(d.first, d.second);
    DecodeIsRightModulo14Bits(wave, j);
    DecodeIsOffByWraps(wave, j);
    HalvesAreFourteenBits(wave[j]);
    SignOfQuarters(Lower(wave[j]), LowerWraps(wave, j));
    SameAsAllOnes(Upper(wave[j]));
  }

  /** A single step up of 8192 from zero is stored with its upper half lost. */
  lemma WrapSpoilsUpperHalf()
    ensures IsSamplePair(0x0000_2000) && Stashed(Deltas([0x0000_2000])) == [0xFFFF_E000]
    ensures !AgreesModulo14Bits(0xFFFF_E000, 0x0000_2000)
  {
    var wave: seq<bv32> := [0x0000_2000];
    StoredModulo14Bits(wave, 0);
    DeltasArePlain(wave);
    PlainPairs(Deltas(wave));
    assert Stashed(Deltas(wave))[0] == Decoded(Deltas(wave), 0) == 0xFFFF_E000;
  }

  // ----- Compressed words -----

  function Field5(d: bv16): bv32 { (d & 0x1F) as bv32 }

  /** Six five-bit fields, the first in the highest bits, with the compression bit set. */
  function PackSix(a: bv16, b: bv16, c: bv16, d: bv16, e: bv16, f: bv16): bv32 {
    0x4000_0000 | (Field5(a) << 25) | (Field5(b) << 20) | (Field5(c) << 15) | (Field5(d) << 10) | (Field5(e) << 5) | Field5(f)
  }

  function Pack(d: seq<bv16>): bv32
    requires |d| == 6
  {
    PackSix(d[0], d[1], d[2], d[3], d[4], d[5])
  }

  /** The difference, read as signed, is in -16..15. */
  predicate IsSmall(d: bv16) { d < 0x10 || d >= 0xFFF0 }

  function Mask5(d: bv16): bv16 { d & 0x1F }

  function Sext5(d: bv16): bv16 { SignExtend5(Mask5(d)) }

  lemma Sext5Fits(d: bv16)
    ensures Sext5(d) == d <==> IsSmall(d)
  {
  }

  function ShrLiteral(w: bv32, i: nat): bv32
    requires i < 6
  {
    match i
    case 0 => w
    case 1 => w >> 5
    case 2 => w >> 10
    case 3 => w >> 15
    case 4 => w >> 20
    case _ => w >> 25
  }

  lemma ShrLiterals(w: bv32)
    ensures Shr(w, 0) == ShrLiteral(w, 0) && Shr(w, 5) == ShrLiteral(w, 1) && Shr(w, 10) == ShrLiteral(w, 2)
    ensures Shr(w, 15) == ShrLiteral(w, 3) && Shr(w, 20) == ShrLiteral(w, 4) && Shr(w, 25) == ShrLiteral(w, 5)
  {
  }

  lemma FieldsOfPack(a: bv16, b: bv16, c: bv16, d: bv16, e: bv16, f: bv16)
    ensures
      var w := PackSix(a, b, c, d, e, f);
      && Low5(ShrLiteral(w, 5)) == Mask5(a) && Low5(ShrLiteral(w, 4)) == Mask5(b) && Low5(ShrLiteral(w, 3)) == Mask5(c)
      && Low5(ShrLiteral(w, 2)) == Mask5(d) && Low5(ShrLiteral(w, 1)) == Mask5(e) && Low5(ShrLiteral(w, 0)) == Mask5(f)
      && IsCompressed(w) && ValidBit(w) == 0
  {
  }

  lemma PackedFields(d: seq<bv16>, k: nat)
    requires |d| == 6 && k < 6
    ensures SmallDelta(Pack(d), 5 - k) == Sext5(d[k])
    ensures IsCompressed(Pack(d)) && ValidBit(Pack(d)) == 0
  {
    hide Shr, ShrLiteral, Low5, PackSix, SignExtend5, Mask5, IsCompressed, ValidBit;
    ShrLiterals(Pack(d));
    FieldsOfPack(d[0], d[1], d[2], d[3], d[4], d[5]);
    assert k == 0 || k == 1 || k == 2 || k == 3 || k == 4 || k == 5;
  }

  /** Sample `k` of a compressed word: all differences up to it, added to the sample before the word. */
  function SmallSample(w: bv32, prev: bv16, k: nat): bv16
    requires k < 6
  {
    Plus(if k == 0 then prev else SmallSample(w, prev, k - 1), SmallDelta(w, 5 - k))
  }

  /** The differences between six samples, and between the first of them and the one before. */
  function Differences(prev: bv16, s: seq<bv16>): (d: seq<bv16>)
    ensures |d| == |s|
  {
    seq(|s|, k requires 0 <= k < |s| => Minus(s[k], if k == 0 then prev else s[k - 1]))
  }

  lemma {:induction false} SmallSampleStep(prev: bv16, s: seq<bv16>, k: nat)
    requires |s| == 6 && k < 6
    requires k > 0 ==> SmallSample(Pack(Differences(prev, s)), prev, k - 1) == s[k - 1]
    ensures SmallSample(Pack(Differences(prev, s)), prev, k) == s[k] <==> IsSmall(Differences(prev, s)[k])
  {
    hide Pack, SmallDelta, Sext5, Plus, Minus, IsSmall;
    var d := Differences(prev, s);
    var before := if k == 0 then prev else s[k - 1];
    PackedFields(d, k);
    Sext5Fits(d[k]);
    PlusMinus(before, s[k]);
    if Plus(before, Sext5(d[k])) == s[k] {
      PlusInjective(before, Sext5(d[k]), d[k]);
    }
  }

  /** Six samples packed into a compressed word come back exactly when all their differences are small. */
  lemma {:induction false} CompressedIsExact(prev: bv16, s: seq<bv16>, n: nat)
    requires |s| == 6 && n <= 6
    ensures (forall k :: 0 <= k < n ==> SmallSample(Pack(Differences(prev, s)), prev, k) == s[k])
       <==> (forall k :: 0 <= k < n ==> IsSmall(Differences(prev, s)[k]))
    decreases n
  {
    hide Pack, SmallSample, IsSmall, Differences;
    if n > 0 {
      CompressedIsExact(prev, s, n - 1);
      if forall k :: 0 <= k < n - 1 ==> SmallSample(Pack(Differences(prev, s)), prev, k) == s[k] {
        SmallSampleStep(prev, s, n - 1);
      }
    }
  }

  /** The three pairs that a compressed word stashes are its six samples in order. */
  lemma {:induction false} CompressedPairs(p: Parser, w: bv32)
    requires |p.data| == EVENT_BUFFER_SIZE && p.ev.currentChannel < NUM_CHANNELS && p.ev.samplesRead < p.ev.header.Length()
    ensures
      var v, prev := ValidBit(w), p.ev.prevSample;
      FeedCompressed(p, w, 3) ==
        StashPair(StashPair(StashPair(p, v, SmallSample(w, prev, 0), SmallSample(w, prev, 1)),
                            v, SmallSample(w, prev, 2), SmallSample(w, prev, 3)),
                  v, SmallSample(w, prev, 4), SmallSample(w, prev, 5))
  {
    hide StashPair, SmallDelta, Plus, ValidBit, Header.Length;
    assert FeedCompressed(p, w, 0) == p;
  }

  // ----- The fields of a word -----

  /** Bits 16 to 29 of a word, and bits 0 to 13. */
  function HighField(w: bv32): bv16 { ((w >> 16) & 0x3FFF) as bv16 }

  function LowField(w: bv32): bv16 { (w & 0x3FFF) as bv16 }

  function Low14(x: bv16): bv16 { x & 0x3FFF }

  /**
   What the generator writes for pair `j`, in those fields and without a mark: the first sample at the start, and
   else its difference from the sample before it; and the difference between the two.
   */
  lemma {:induction false} DeltaFields(wave: seq<bv32>, j: nat)
    requires j < |wave|
    ensures HighField(Deltas(wave)[j]) == if j == 0 then HighField(wave[0]) else Low14(Minus(HighField(wave[j]), LowField(wave[j - 1])))
    ensures LowField(Deltas(wave)[j]) == Low14(Minus(LowField(wave[j]), HighField(wave[j])))
    ensures IsSamplePair(Deltas(wave)[j])
  {
    var first := if j == 0 then Upper(wave[j]) else Minus(Upper(wave[j]), Lower(wave[j - 1]));
    var second := Minus(Lower(wave[j]), Upper(wave[j]));
    assert Deltas(wave)[j] == Join(first, second);
    hide HighField, LowField, Upper, Lower, Join, Low14, Minus, Delta, IsSamplePair;
    FieldsJoined(first, second);
    FieldsAre(wave[j]);
    if j > 0 {
      FieldsAre(wave[j - 1]);
    }
  }

  lemma FieldsAre(w: bv32)
    ensures Upper(w) == HighField(w) && Lower(w) == LowField(w) && Low14(HighField(w)) == HighField(w)
  {
  }

  lemma FieldsJoined(first: bv16, second: bv16)
    ensures
      var w := Join(first, second);
      HighField(w) == Low14(first) && LowField(w) == Low14(second) && IsSamplePair(w)
  {
  }

  /** Six differences in one word, from the highest bits down, with bit 30 as the mark of such a word. */
  lemma PackIs(a: bv16, b: bv16, c: bv16, d: bv16, e: bv16, f: bv16)
    ensures
      var w := PackSix(a, b, c, d, e, f);
      && w & 0x4000_0000 != 0
      && ((w >> 25) & 0x1F) as bv16 == a & 0x1F && ((w >> 20) & 0x1F) as bv16 == b & 0x1F && ((w >> 15) & 0x1F) as bv16 == c & 0x1F
      && ((w >> 10) & 0x1F) as bv16 == d & 0x1F && ((w >> 5) & 0x1F) as bv16 == e & 0x1F && (w & 0x1F) as bv16 == f & 0x1F
  {
  }

  /** The word that a pair is stored as: a negative second sample fills the upper half. */
  lemma PairIsStored(valid: bv16, first: bv16, second: bv16)
    ensures second & 0x8000 == 0 ==> SamplePair(valid, first, second) == ((first | valid) as bv32 << 16) | second as bv32
    ensures second & 0x8000 != 0 ==> SamplePair(valid, first, second) == 0xFFFF_0000 | second as bv32
  {
  }
}
