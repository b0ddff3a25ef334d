/**
 produce_data of fake_data_gen.c in its own form: one pass over the output buffer that
 writes the header and the raw samples, and a second one over each channel that
 delta-encodes it in place, behind the CRC of the raw samples.
 */
module FakeDataGen {
  import opened Words
  import opened Buffers
  import opened CeresParser
  import opened CeresCodec
  import opened CeresEvents
  import opened CeresChecks
  import opened FakeData
  import opened Arithmetic16
  import Crc8
  import Crc32

  function Half(upper: bv16, lower: bv16): bv32 { (upper as bv32 << 16) | lower as bv32 }

  lemma HalfBytes(upper: bv16, lower: bv16)
    ensures ToBytes(Half(upper, lower)) == [HighByte(upper), LowByte(upper), HighByte(lower), LowByte(lower)]
  {
  }

  lemma JoinIsHalf(upper: bv16, lower: bv16)
    ensures Join(upper, lower) == Half(upper & 0x3FFF, lower & 0x3FFF)
  {
  }

  lemma HalvesOf(w: bv32)
    ensures Half(Low16(w >> 16), Low16(w)) == w
  {
  }

  /** Two samples as the little-endian host stores them, then htonl of the word they make. */
  method PutSamples(buffer: array<bv8>, at: nat, w: bv32)
    requires at + 4 <= buffer.Length
    modifies buffer
    ensures buffer[..] == Splice(old(buffer[..]), at, ToBytes(w))
  {
    var first, second := Low16(w), Low16(w >> 16);
    HalvesOf(w);
    HalfBytes(second, first);
    hide HighByte, LowByte, Low16, ToBytes, Half;
    buffer[at], buffer[at + 1] := LowByte(first), HighByte(first);
    buffer[at + 2], buffer[at + 3] := LowByte(second), HighByte(second);
    buffer[at], buffer[at + 1], buffer[at + 2], buffer[at + 3] :=
      buffer[at + 3], buffer[at + 2], buffer[at + 1], buffer[at];
  }

  /** Two fourteen-bit fields, each stored as htons of its sample. */
  method PutFields(buffer: array<bv8>, at: nat, upper: bv16, lower: bv16)
    requires at + 4 <= buffer.Length
    modifies buffer
    ensures buffer[..] == Splice(old(buffer[..]), at, ToBytes(Join(upper, lower)))
  {
    var a, b := upper & 0x3FFF, lower & 0x3FFF;
    JoinIsHalf(upper, lower);
    HalfBytes(a, b);
    hide HighByte, LowByte, ToBytes, Half, Join;
    buffer[at], buffer[at + 1] := HighByte(a), LowByte(a);
    buffer[at + 2], buffer[at + 3] := HighByte(b), LowByte(b);
  }

  /** The header CRC over the bytes that have been written after the marker. */
  method WireCrc(buffer: array<bv8>, table: Crc8.Table) returns (crc: bv8)
    requires buffer.Length >= 19 && table.Valid() && buffer != table.entries
    modifies table, table.entries
    ensures table.Valid() && crc == Crc8.Crc(buffer[4..19])
  {
    hide Crc8.ByteStep;
    crc := 0;
    for i := 0 to 15
      invariant table.Valid() && crc == Crc8.Update(0, buffer[4..4 + i])
    {
      crc := table.Append(crc, buffer[i + 4]);
      assert buffer[4..4 + i + 1] == buffer[4..4 + i] + [buffer[i + 4]];
    }
    crc := crc ^ 0x55;
  }

  /** Marker, trigger number and clock. */
  method WriteFirstFields(buffer: array<bv8>, h: Header)
    requires buffer.Length >= 20
    modifies buffer
    ensures buffer[..16] == ToBytes(h.magicNumber) + ToBytes(h.trigNumber) + ToBytes(HighWord(h.clock)) + ToBytes(LowWord(h.clock))
    ensures buffer[16..] == old(buffer[16..])
  {
    ghost var was, m, t, u, v := buffer[..], ToBytes(h.magicNumber), ToBytes(h.trigNumber), ToBytes(HighWord(h.clock)), ToBytes(LowWord(h.clock));
    hide ToBytes, HighWord, LowWord, Splice;
    PutWord(buffer, 0, h.magicNumber);
    PutWord(buffer, 4, h.trigNumber);
    SpliceOn(was, 0, m, t);
    PutWord(buffer, 8, HighWord(h.clock));
    SpliceOn(was, 0, m + t, u);
    PutWord(buffer, 12, LowWord(h.clock));
    SpliceOn(was, 0, m + t + u, v);
    assert buffer[..][..16] == was[..0] + (m + t + u + v) == m + t + u + v;
    assert buffer[..][16..] == was[16..];
  }

  /** Marker, trigger number, clock, length and device number. */
  method WriteFields(buffer: array<bv8>, h: Header)
    requires buffer.Length >= 20
    modifies buffer
    ensures buffer[..19] == ToBytes(h.magicNumber) + HeaderCrcBytes(h) && buffer[19..] == old(buffer[19..])
  {
    hide ToBytes, HighByte, LowByte, HighWord, LowWord;
    WriteFirstFields(buffer, h);
    ghost var clock, tail := buffer[..16], buffer[16..];
    buffer[16], buffer[17] := HighByte(h.length), LowByte(h.length);
    buffer[18] := h.deviceNumber;
    assert buffer[19..] == tail[3..] == old(buffer[16..])[3..];
    assert buffer[..19] == clock + [HighByte(h.length), LowByte(h.length), h.deviceNumber];
  }

  method WriteHeader(buffer: array<bv8>, e: FakeEvent, table: Crc8.Table)
    requires buffer.Length >= 20 && table.Valid() && buffer != table.entries
    modifies buffer, table, table.entries
    ensures table.Valid() && buffer[..20] == Flatten(HeaderWords(FakeHeader(e))) && buffer[20..] == old(buffer[20..])
  {
    hide ToBytes, HeaderCrcBytes, Flatten, HeaderWords, Crc8.Crc;
    var h := Header(0xFFFFFFFF, e.number, e.timeticks, e.length, e.deviceId, 0);
    WriteFields(buffer, h);
    assert buffer[4..19] == buffer[..19][4..] == HeaderCrcBytes(h);
    var crc := WireCrc(buffer, table);
    assert buffer[20..] == buffer[19..][1..] == old(buffer[19..])[1..];
    buffer[19] := crc;
    SameFields(h, crc);
    HeaderOnTheWire(FakeHeader(e));
    assert buffer[..20] == buffer[..19] + [buffer[19]];
  }

  lemma SameFields(h: Header, crc: bv8)
    ensures HeaderCrcBytes(h.(crc := crc)) == HeaderCrcBytes(h)
  {
    hide ToBytes, HighWord, LowWord, HighByte, LowByte;
  }

  lemma {:induction false} FlattenNext(ws: seq<bv32>, j: nat)
    requires j < |ws|
    ensures Flatten(ws[..j + 1]) == Flatten(ws[..j]) + ToBytes(ws[j])
  {
    hide ToBytes;
    assert ws[..j + 1][..j] == ws[..j];
  }

  /** The first loop over a channel: the raw samples. */
  method WriteSamples(buffer: array<bv8>, at: nat, wave: seq<bv32>)
    requires at + 4 * |wave| <= buffer.Length
    modifies buffer
    ensures buffer[..] == Splice(old(buffer[..]), at, Flatten(wave))
  {
    hide ToBytes, Flatten, Splice;
    ghost var was := buffer[..];
    SpliceNothing(was, at, wave);
    for j := 0 to |wave|
      invariant buffer[..] == Splice(was, at, Flatten(wave[..j]))
    {
      PutSamples(buffer, at + 4 * j, wave[j]);
      SpliceOn(was, at, Flatten(wave[..j]), ToBytes(wave[j]));
      FlattenNext(wave, j);
    }
    assert wave[..|wave|] == wave;
  }

  lemma {:induction false} SpliceNothing(s: seq<bv8>, at: nat, ws: seq<bv32>)
    requires at <= |s|
    ensures Splice(s, at, Flatten(ws[..0])) == s
  {
  }

  /** Word `j` of a region that holds `ws` is still there when only the words before it were rewritten. */
  lemma {:induction false} NotYetRewritten(s: seq<bv8>, at: nat, ws: seq<bv32>, done: seq<bv32>, j: nat)
    requires at + 4 * |ws| <= |s| && s[at..at + 4 * |ws|] == Flatten(ws)
    requires |done| == j < |ws|
    ensures WordAt(Splice(s, at, Flatten(done)), at + 4 * j) == ws[j]
  {
    hide BigEndian, ToBytes;
    WordsOfFlatten(ws);
    hide Flatten, WordsOf;
    var r := Splice(s, at, Flatten(done));
    WordOfIndex(Flatten(ws), j);
    assert r[at + 4 * j..][..4] == s[at + 4 * j..][..4];
    assert s[at..at + 4 * |ws|][4 * j..][..4] == s[at + 4 * j..][..4];
    SameBytesSameWord(r, at + 4 * j, Flatten(ws), 4 * j);
  }

  lemma SameBytesSameWord(s: seq<bv8>, i: nat, t: seq<bv8>, j: nat)
    requires i + 4 <= |s| && j + 4 <= |t| && s[i..][..4] == t[j..][..4]
    ensures WordAt(s, i) == WordAt(t, j)
  {
    hide BigEndian;
    var a, b := s[i..][..4], t[j..][..4];
    assert a[0] == s[i] && a[1] == s[i + 1] && a[2] == s[i + 2] && a[3] == s[i + 3];
    assert b[0] == t[j] && b[1] == t[j + 1] && b[2] == t[j + 2] && b[3] == t[j + 3];
  }

  lemma WordOfIndex(s: seq<bv8>, j: nat)
    requires j < |s| / 4
    ensures WordsOf(s)[j] == WordAt(s, 4 * j)
  {
    hide BigEndian;
  }

  /** The first `j` words of `ws`, which lay at `at` in `was`, have been replaced by their delta-coded forms. */
  ghost predicate Coded(now: seq<bv8>, was: seq<bv8>, at: nat, ws: seq<bv32>, j: nat) {
    && at + 4 * |ws| <= |was| && j <= |ws| && was[at..at + 4 * |ws|] == Flatten(ws)
    && now == Splice(was, at, Flatten(Deltas(ws)[..j]))
  }

  lemma {:induction false} CodedNext(now: seq<bv8>, was: seq<bv8>, at: nat, ws: seq<bv32>, j: nat)
    requires Coded(now, was, at, ws, j) && j < |ws|
    ensures WordAt(now, at + 4 * j) == ws[j]
    ensures Coded(Splice(now, at + 4 * j, ToBytes(Delta(ws, j))), was, at, ws, j + 1)
  {
    hide ToBytes, Flatten, Splice, Delta, WordAt;
    var ds := Deltas(ws);
    NotYetRewritten(was, at, ws, ds[..j], j);
    SpliceOn(was, at, Flatten(ds[..j]), ToBytes(ds[j]));
    FlattenNext(ds, j);
  }

  /** One turn of the second loop: both differences of a pair. */
  method DeltaEncodePair(buffer: array<bv8>, at: nat, j: nat, prev: bv16, ghost was: seq<bv8>, ghost ws: seq<bv32>) returns (sample: bv16)
    requires 0 < j < |ws| && Coded(buffer[..], was, at, ws, j) && prev == Lower(ws[j - 1])
    requires at + 4 * j + 4 <= buffer.Length
    modifies buffer
    ensures Coded(buffer[..], was, at, ws, j + 1) && sample == Lower(ws[j])
  {
    hide Coded, ToBytes, Splice, Join, Upper, Lower, Minus, WordAt;
    CodedNext(buffer[..], was, at, ws, j);
    var word := GetWord(buffer, at + 4 * j);
    sample := Upper(word);
    var difference, before := Minus(sample, prev), sample;
    sample := Lower(word);
    PutFields(buffer, at + 4 * j, difference, Minus(sample, before));
  }

  /** The second loop over a channel: replace its words by their delta-coded forms, first to last. */
  method DeltaEncode(buffer: array<bv8>, at: nat, len: nat, ghost ws: seq<bv32>)
    requires |ws| == if len == 0 then 1 else len
    requires at + 4 * |ws| <= buffer.Length && buffer[at..at + 4 * |ws|] == Flatten(ws)
    modifies buffer
    ensures buffer[..] == Splice(old(buffer[..]), at, Flatten(Deltas(ws)))
  {
    hide ToBytes, Flatten, Splice, Join, Upper, Lower, Minus, WordAt;
    ghost var was := buffer[..];
    SpliceNothing(was, at, Deltas(ws));
    CodedNext(was, was, at, ws, 0);
    var word := GetWord(buffer, at);
    var prev, sample := Upper(word), Lower(word);
    PutFields(buffer, at, prev, Minus(sample, prev));
    prev := sample;
    var j := 1;
    while j < len
      invariant 1 <= j <= |ws| && prev == Lower(ws[j - 1])
      invariant Coded(buffer[..], was, at, ws, j)
    {
      prev := DeltaEncodePair(buffer, at, j, prev, was, ws);
      j := j + 1;
    }
    assert Deltas(ws)[..|ws|] == Deltas(ws);
  }

  // ----- A channel -----

  /** Words produce_data writes for a channel: one too many when there are no samples. */
  function ChannelSize(len: nat): nat { (if len == 0 then 1 else len) + 2 }

  lemma MarkerBytes(i: nat)
    requires i < NUM_CHANNELS
    ensures ToBytes(ChannelMarker(i)) == [0xFF, i as bv8, 0xFF, i as bv8]
  {
    assert i == 0 || i == 1 || i == 2 || i == 3 || i == 4 || i == 5 || i == 6 || i == 7
        || i == 8 || i == 9 || i == 10 || i == 11 || i == 12 || i == 13 || i == 14 || i == 15;
  }

  lemma SpliceOver(s: seq<bv8>, at: nat, a: seq<bv8>, b: seq<bv8>, c: seq<bv8>, b': seq<bv8>)
    requires at + |a| + |b| + |c| <= |s| && |b| == |b'|
    ensures Splice(Splice(s, at, a + b + c), at + |a|, b') == Splice(s, at, a + b' + c)
    ensures Splice(s, at, a + b + c)[at + |a|..at + |a| + |b|] == b
  {
  }

  lemma {:induction false} ChannelBytes(i: nat, channel: Channel)
    requires i < NUM_CHANNELS
    ensures Flatten(ChannelWords(i, channel)) == ToBytes(ChannelMarker(i)) + Flatten(channel.samples) + ToBytes(channel.crc)
  {
    FlattenOne(ChannelMarker(i));
    FlattenOne(channel.crc);
    hide ToBytes, Flatten, ChannelMarker;
    FlattenConcat([ChannelMarker(i)] + channel.samples, [channel.crc]);
    FlattenConcat([ChannelMarker(i)], channel.samples);
  }

  /** Marker, samples, and the CRC of the samples. */
  method WriteRaw(buffer: array<bv8>, at: nat, i: nat, wave: seq<bv32>) returns (crc: bv32)
    requires i < NUM_CHANNELS && at + 4 * (|wave| + 2) <= buffer.Length
    modifies buffer
    ensures crc == Crc32.Crc(0, Flatten(wave))
    ensures buffer[..] == Splice(old(buffer[..]), at, ToBytes(ChannelMarker(i)) + Flatten(wave) + ToBytes(crc))
  {
    MarkerBytes(i);
    hide ToBytes, Flatten, ChannelMarker, Splice, Crc32.Crc;
    ghost var was, marker := buffer[..], ToBytes(ChannelMarker(i));
    buffer[at], buffer[at + 1], buffer[at + 2], buffer[at + 3] := 0xFF, i as bv8, 0xFF, i as bv8;
    assert buffer[..] == Splice(was, at, marker) by { SpliceIs(was, at, marker, buffer[..]); }
    WriteSamples(buffer, at + 4, wave);
    SpliceOn(was, at, marker, Flatten(wave));
    crc := Crc32.Crc32Z(0, buffer, at + 4, 4 * |wave|);
    assert buffer[at + 4..at + 4 + 4 * |wave|] == Flatten(wave) by {
      assert buffer[at + 4..at + 4 + 4 * |wave|] == buffer[..][at + 4..at + 4 + 4 * |wave|];
    }
    PutWord(buffer, at + 4 + 4 * |wave|, crc);
    SpliceOn(was, at, marker + Flatten(wave), ToBytes(crc));
  }

  lemma SpliceIs(s: seq<bv8>, at: nat, t: seq<bv8>, r: seq<bv8>)
    requires at + |t| <= |s| == |r|
    requires r[..at] == s[..at] && r[at..at + |t|] == t && r[at + |t|..] == s[at + |t|..]
    ensures r == Splice(s, at, t)
  {
  }

  /** One channel, up to the delta coding in place. */
  method WriteChannel(buffer: array<bv8>, at: nat, i: nat, wave: seq<bv32>) returns (next: nat)
    requires i < NUM_CHANNELS && at + 4 * ChannelSize(|wave|) <= buffer.Length
    modifies buffer
    ensures next == at + 4 * ChannelSize(|wave|)
    ensures buffer[..at] == old(buffer[..at])
    ensures buffer[next..] == old(buffer[next..])
    ensures wave != [] ==> buffer[..next] == old(buffer[..at]) + Flatten(ChannelWords(i, FakeChannel(wave)))
    ensures wave == [] ==> buffer[..next] == old(buffer[..at]) + Flatten(EmptyChannelWords(i, WordAt(old(buffer[..]), at + 8)))
  {
    hide ToBytes, Flatten, ChannelMarker, Splice, Crc32.Crc, Deltas, ChannelWords;
    ghost var was, marker := buffer[..], ToBytes(ChannelMarker(i));
    var crc := WriteRaw(buffer, at, i, wave);
    ghost var ws := if wave == [] then [crc] else wave;
    if wave == [] {
      FlattenOne(crc);
      EmptyChannel(was, at, marker, Flatten(wave), ToBytes(crc));
    }
    SpliceOver(was, at, marker, Flatten(wave), ToBytes(crc), Flatten(wave));
    assert buffer[at + 4..at + 4 + 4 * |ws|] == buffer[..][at + 4..at + 4 + 4 * |ws|];
    DeltaEncode(buffer, at + 4, |wave|, ws);
    next := at + 4 + 4 * (if |wave| == 0 then 1 else |wave|) + 4;
    if wave != [] {
      SpliceOver(was, at, marker, Flatten(wave), ToBytes(crc), Flatten(Deltas(wave)));
      ChannelBytes(i, FakeChannel(wave));
    } else {
      EmptyChannelWritten(was, at, i, crc, buffer[..]);
    }
    TailOfSplice(was, at, marker + Flatten(wave) + ToBytes(crc), next);
    TailOfSplice(Splice(was, at, marker + Flatten(wave) + ToBytes(crc)), at + 4, Flatten(Deltas(ws)), next);
    assert buffer[next..] == buffer[..][next..] == was[next..];
    assert buffer[..at] == buffer[..][..at] == was[..at];
    assert buffer[..next] == buffer[..][..next] == buffer[..at] + buffer[..][at..next];
  }

  /** Without samples the CRC is what gets delta-coded. */
  lemma EmptyChannel(s: seq<bv8>, at: nat, marker: seq<bv8>, none: seq<bv8>, crc: seq<bv8>)
    requires at + |marker| + |crc| <= |s| && none == []
    ensures Splice(s, at, marker + none + crc)[at + |marker|..at + |marker| + |crc|] == crc
  {
  }

  lemma {:induction false} EmptyChannelBytes(i: nat, left: bv32)
    requires i < NUM_CHANNELS
    ensures Flatten(EmptyChannelWords(i, left)) == ToBytes(ChannelMarker(i)) + ToBytes(Delta([Crc32.Crc(0, [])], 0)) + ToBytes(left)
  {
    hide ToBytes, ChannelMarker, Delta, Crc32.Crc;
    var a, b := ChannelMarker(i), Delta([Crc32.Crc(0, [])], 0);
    FlattenOne(a);
    FlattenOne(b);
    FlattenOne(left);
    hide Flatten;
    FlattenConcat([a], [b]);
    FlattenConcat([a] + [b], [left]);
    assert EmptyChannelWords(i, left) == [a] + [b] + [left];
  }

  lemma WordBytes(s: seq<bv8>, at: nat)
    requires at + 4 <= |s|
    ensures s[at..][..4] == ToBytes(WordAt(s, at))
  {
    BytesOfBigEndian(s[at], s[at + 1], s[at + 2], s[at + 3]);
    hide BigEndian, ToBytes;
    assert s[at..][..4] == [s[at], s[at + 1], s[at + 2], s[at + 3]];
  }

  lemma FrontOfSplice(s: seq<bv8>, at: nat, t: seq<bv8>, n: nat)
    requires at + |t| + n <= |s|
    ensures Splice(s, at, t)[..at + |t| + n] == s[..at] + (t + s[at + |t|..][..n])
  {
  }

  lemma TailOfSplice(s: seq<bv8>, at: nat, t: seq<bv8>, n: nat)
    requires at + |t| <= n <= |s|
    ensures Splice(s, at, t)[n..] == s[n..]
  {
  }

  /** The CRC has been coded in place. */
  lemma {:induction false} CodedCrc(was: seq<bv8>, at: nat, marker: seq<bv8>, crc: bv32)
    requires |marker| == 4 && at + 12 <= |was|
    ensures Splice(Splice(was, at, marker + Flatten([]) + ToBytes(crc)), at + 4, Flatten(Deltas([crc]))) == Splice(was, at, marker + ToBytes(Delta([crc], 0)))
  {
    hide ToBytes, Delta;
    assert Flatten([]) == [];
    assert Deltas([crc]) == [Delta([crc], 0)];
    FlattenOne(Delta([crc], 0));
    hide Flatten, Splice;
    SpliceOver(was, at, marker, ToBytes(crc), [], ToBytes(Delta([crc], 0)));
    assert marker + [] + ToBytes(crc) == marker + ToBytes(crc) + [];
    assert marker + ToBytes(Delta([crc], 0)) + [] == marker + ToBytes(Delta([crc], 0));
  }

  /** Without samples: marker, coded CRC, and the word that was there. */
  lemma {:induction false} EmptyChannelWritten(was: seq<bv8>, at: nat, i: nat, crc: bv32, now: seq<bv8>)
    requires i < NUM_CHANNELS && at + 12 <= |was| && crc == Crc32.Crc(0, Flatten([]))
    requires now == Splice(Splice(was, at, ToBytes(ChannelMarker(i)) + Flatten([]) + ToBytes(crc)), at + 4, Flatten(Deltas([crc])))
    ensures now[..at + 12] == was[..at] + Flatten(EmptyChannelWords(i, WordAt(was, at + 8)))
  {
    CodedCrc(was, at, ToBytes(ChannelMarker(i)), crc);
    assert Flatten([]) == [];
    EmptyChannelBytes(i, WordAt(was, at + 8));
    WordBytes(was, at + 8);
    hide ToBytes, ChannelMarker, Delta, Crc32.Crc, WordAt, Flatten, Splice, EmptyChannelWords, Deltas;
    FrontOfSplice(was, at, ToBytes(ChannelMarker(i)) + ToBytes(Delta([crc], 0)), 4);
  }

  // ----- A whole event -----

  lemma {:induction false} ChannelsNext(channels: seq<Channel>, k: nat)
    requires k < |channels| == NUM_CHANNELS
    ensures Flatten(ChannelsWords(channels, k + 1)) == Flatten(ChannelsWords(channels, k)) + Flatten(ChannelWords(k, channels[k]))
  {
    hide ChannelWords, Flatten;
    FlattenConcat(ChannelsWords(channels, k), ChannelWords(k, channels[k]));
  }

  lemma {:induction false} ChannelsSize(channels: seq<Channel>, n: nat, k: nat)
    requires k <= |channels| == NUM_CHANNELS
    requires forall c :: 0 <= c < NUM_CHANNELS ==> |channels[c].samples| == n
    ensures |ChannelsWords(channels, k)| == k * (n + 2)
    decreases k
  {
    hide ChannelMarker;
    if k > 0 {
      ChannelsSize(channels, n, k - 1);
      NextChannel(k - 1, n + 2);
    }
  }

  lemma {:induction false} EncodedSize(e: FakeEvent)
    requires IsFakeEvent(e)
    ensures |Flatten(Encode(e))| == 20 + 64 * (FakeHeader(e).Length() + 2)
    ensures Flatten(Encode(e)) == Flatten(HeaderWords(FakeHeader(e))) + Flatten(ChannelsWords(FakeChannels(e), NUM_CHANNELS))
  {
    hide FakeHeader, Header.Length, Flatten, ChannelsWords, HeaderWords;
    ChannelsSize(FakeChannels(e), FakeHeader(e).Length(), NUM_CHANNELS);
    FlattenConcat(HeaderWords(FakeHeader(e)), ChannelsWords(FakeChannels(e), NUM_CHANNELS));
  }

  /** The bytes of the header and the first `k` channels. */
  ghost function UpTo(e: FakeEvent, k: nat): seq<bv8>
    requires |e.waves| == NUM_CHANNELS && k <= NUM_CHANNELS
  {
    Flatten(HeaderWords(FakeHeader(e))) + Flatten(ChannelsWords(FakeChannels(e), k))
  }

  lemma {:induction false} UpToNext(e: FakeEvent, k: nat)
    requires |e.waves| == NUM_CHANNELS && k < NUM_CHANNELS
    ensures UpTo(e, 0) == Flatten(HeaderWords(FakeHeader(e)))
    ensures UpTo(e, k + 1) == UpTo(e, k) + Flatten(ChannelWords(k, FakeChannel(e.waves[k])))
  {
    hide HeaderWords, FakeHeader, ChannelWords, FakeChannel;
    assert ChannelsWords(FakeChannels(e), 0) == [];
    ChannelsNext(FakeChannels(e), k);
  }

  /** The words that the sixteen channels without samples leave as they were. */
  ghost function LeftOver(s: seq<bv8>): (left: seq<bv32>)
    requires |s| >= 20 + 12 * NUM_CHANNELS
    ensures |left| == NUM_CHANNELS
  {
    seq(NUM_CHANNELS, c requires 0 <= c < NUM_CHANNELS => WordAt(s, 20 + 12 * c + 8))
  }

  /** The bytes of the header and the first `k` channels without samples. */
  ghost function UpToEmpty(e: FakeEvent, left: seq<bv32>, k: nat): seq<bv8>
    requires |left| == NUM_CHANNELS && k <= NUM_CHANNELS
  {
    Flatten(HeaderWords(FakeHeader(e))) + Flatten(EmptyChannels(left, k))
  }

  lemma {:induction false} UpToEmptyNext(e: FakeEvent, left: seq<bv32>, k: nat)
    requires |left| == NUM_CHANNELS && k < NUM_CHANNELS
    ensures UpToEmpty(e, left, 0) == Flatten(HeaderWords(FakeHeader(e)))
    ensures UpToEmpty(e, left, k + 1) == UpToEmpty(e, left, k) + Flatten(EmptyChannelWords(k, left[k]))
    ensures UpToEmpty(e, left, NUM_CHANNELS) == Flatten(ZeroLengthWords(e, left))
  {
    hide HeaderWords, FakeHeader, EmptyChannelWords;
    assert EmptyChannels(left, 0) == [];
    assert EmptyChannels(left, k + 1) == EmptyChannels(left, k) + EmptyChannelWords(k, left[k]);
    hide EmptyChannels;
    FlattenConcat(EmptyChannels(left, k), EmptyChannelWords(k, left[k]));
    FlattenConcat(HeaderWords(FakeHeader(e)), EmptyChannels(left, NUM_CHANNELS));
  }

  lemma SameWordBehind(a: seq<bv8>, b: seq<bv8>, n: nat, at: nat)
    requires n <= at && at + 4 <= |a| == |b| && a[n..] == b[n..]
    ensures WordAt(a, at) == WordAt(b, at)
  {
    hide BigEndian;
    assert a[at] == a[n..][at - n] && a[at + 1] == a[n..][at + 1 - n] && a[at + 2] == a[n..][at + 2 - n] && a[at + 3] == a[n..][at + 3 - n];
    assert b[at] == b[n..][at - n] && b[at + 1] == b[n..][at + 1 - n] && b[at + 2] == b[n..][at + 2 - n] && b[at + 3] == b[n..][at + 3 - n];
  }

  /** The header and the first `i` channels without samples are in the buffer, and nothing behind them is changed. */
  ghost predicate EmptySoFar(was: seq<bv8>, now: seq<bv8>, e: FakeEvent, i: nat) {
    && i <= NUM_CHANNELS && |was| == |now| >= 20 + 12 * NUM_CHANNELS
    && now[..20 + 12 * i] == UpToEmpty(e, LeftOver(was), i) && now[20 + 12 * i..] == was[20 + 12 * i..]
  }

  lemma {:induction false} EmptyStep(was: seq<bv8>, before: seq<bv8>, now: seq<bv8>, e: FakeEvent, i: nat)
    requires EmptySoFar(was, before, e, i) && i < NUM_CHANNELS && |now| == |was|
    requires
      var at := 20 + 12 * i;
      && now[..at + 12] == before[..at] + Flatten(EmptyChannelWords(i, WordAt(before, at + 8)))
      && now[at + 12..] == before[at + 12..]
    ensures EmptySoFar(was, now, e, i + 1)
  {
    hide Flatten, EmptyChannelWords, UpToEmpty, WordAt;
    var at := 20 + 12 * i;
    SameWordBehind(before, was, at, at + 8);
    UpToEmptyNext(e, LeftOver(was), i);
    assert LeftOver(was)[i] == WordAt(was, at + 8);
    assert now[at + 12..] == before[at..][12..] == was[at..][12..];
  }

  lemma {:induction false} EmptyIsWritten(was: seq<bv8>, now: seq<bv8>, e: FakeEvent)
    requires EmptySoFar(was, now, e, NUM_CHANNELS)
    ensures now[..20 + 12 * NUM_CHANNELS] == Flatten(ZeroLengthWords(e, LeftOver(was)))
  {
    hide Flatten, ZeroLengthWords, UpToEmpty;
    UpToEmptyNext(e, LeftOver(was), 0);
  }

  lemma {:induction false} EmptyStarts(was: seq<bv8>, now: seq<bv8>, e: FakeEvent)
    requires |was| == |now| >= 20 + 12 * NUM_CHANNELS && now[20..] == was[20..] && now[..20] == Flatten(HeaderWords(FakeHeader(e)))
    ensures EmptySoFar(was, now, e, 0)
  {
    hide Flatten, HeaderWords, FakeHeader, WordAt;
    UpToEmptyNext(e, LeftOver(was), 0);
  }

  /** How much the header and the first `i` channels take. */
  function Written(len: nat, i: nat): nat { 20 + i * (4 * ChannelSize(len)) }

  lemma {:induction false} WrittenNext(len: nat, i: nat)
    ensures Written(len, i + 1) == Written(len, i) + 4 * ChannelSize(len)
    ensures Written(0, i) == 20 + 12 * i
    ensures Written(len, 0) == 20 && Written(len, NUM_CHANNELS) == 20 + 64 * ChannelSize(len)
    ensures i < NUM_CHANNELS ==> Written(len, i + 1) <= Written(len, NUM_CHANNELS)
  {
    NextChannel(i, 4 * ChannelSize(len));
    if i < NUM_CHANNELS {
      TimesBelow(i + 1, NUM_CHANNELS, 4 * ChannelSize(len));
    }
  }

  /** Header and the first `i` channels are written, `n` bytes of the buffer `was`. */
  ghost predicate SoFar(was: seq<bv8>, now: seq<bv8>, e: FakeEvent, i: nat, n: nat) {
    var len := FakeHeader(e).Length();
    && |e.waves| == NUM_CHANNELS && i <= NUM_CHANNELS && n == Written(len, i) <= |now|
    && (len > 0 ==> now[..n] == UpTo(e, i))
    && (len == 0 ==> EmptySoFar(was, now, e, i))
  }

  /** One more channel has been written behind the first `n` bytes. */
  ghost predicate ChannelAdded(before: seq<bv8>, now: seq<bv8>, i: nat, wave: seq<bv32>, n: nat, next: nat)
    requires i < NUM_CHANNELS
  {
    && n <= next == n + 4 * ChannelSize(|wave|) <= |before| == |now|
    && now[next..] == before[next..]
    && now[..next] == before[..n] + if wave == [] then Flatten(EmptyChannelWords(i, WordAt(before, n + 8))) else Flatten(ChannelWords(i, FakeChannel(wave)))
  }

  lemma {:induction false} OneMoreFull(before: seq<bv8>, now: seq<bv8>, e: FakeEvent, i: nat, n: nat, next: nat)
    requires |e.waves| == NUM_CHANNELS && i < NUM_CHANNELS && e.waves[i] != [] && n <= |before| && before[..n] == UpTo(e, i)
    requires ChannelAdded(before, now, i, e.waves[i], n, next)
    ensures now[..next] == UpTo(e, i + 1)
  {
    hide Flatten, FakeChannel, ChannelWords, UpTo, ChannelSize, WordAt, EmptyChannelWords;
    UpToNext(e, i);
  }

  lemma {:induction false} OneMoreEmpty(was: seq<bv8>, before: seq<bv8>, now: seq<bv8>, e: FakeEvent, i: nat, next: nat)
    requires i < NUM_CHANNELS && EmptySoFar(was, before, e, i) && ChannelAdded(before, now, i, [], 20 + 12 * i, next)
    ensures EmptySoFar(was, now, e, i + 1)
  {
    assert ChannelSize(0) == 3;
    assert next == 20 + 12 * i + 12;
    hide Flatten, FakeChannel, ChannelWords, UpToEmpty, ChannelSize, WordAt, EmptyChannelWords, LeftOver;
    EmptyStep(was, before, now, e, i);
  }

  lemma {:induction false} OneMoreChannel(was: seq<bv8>, before: seq<bv8>, now: seq<bv8>, e: FakeEvent, i: nat, n: nat, next: nat)
    requires IsFakeEvent(e) && i < NUM_CHANNELS && SoFar(was, before, e, i, n)
    requires ChannelAdded(before, now, i, e.waves[i], n, next)
    ensures SoFar(was, now, e, i + 1, next)
  {
    NextFits(was, before, e, i, n);
    WrittenNext(FakeHeader(e).Length(), i);
    hide Flatten, FakeHeader, FakeChannel, ChannelWords, Header.Length, UpTo, WordAt, EmptyChannelWords, EmptySoFar, IsFakeEvent, Written, ChannelSize;
    if FakeHeader(e).Length() == 0 {
      assert e.waves[i] == [];
      OneMoreEmpty(was, before, now, e, i, next);
    } else {
      OneMoreFull(before, now, e, i, n, next);
    }
  }

  lemma {:induction false} NextFits(was: seq<bv8>, now: seq<bv8>, e: FakeEvent, i: nat, n: nat)
    requires IsFakeEvent(e) && i < NUM_CHANNELS && SoFar(was, now, e, i, n)
    ensures |e.waves| == NUM_CHANNELS && |e.waves[i]| == FakeHeader(e).Length()
    ensures 20 + 64 * ChannelSize(FakeHeader(e).Length()) <= |now| ==> n + 4 * ChannelSize(|e.waves[i]|) <= |now|
  {
    hide Flatten, FakeHeader, Header.Length, UpTo, ChannelSize, EmptySoFar, Written;
    WrittenNext(FakeHeader(e).Length(), i);
  }

  lemma AddedIs(before: seq<bv8>, now: seq<bv8>, i: nat, wave: seq<bv32>, n: nat, next: nat)
    requires i < NUM_CHANNELS && n <= next == n + 4 * ChannelSize(|wave|) <= |before| == |now|
    requires now[next..] == before[next..]
    requires wave != [] ==> now[..next] == before[..n] + Flatten(ChannelWords(i, FakeChannel(wave)))
    requires wave == [] ==> now[..next] == before[..n] + Flatten(EmptyChannelWords(i, WordAt(before, n + 8)))
    ensures ChannelAdded(before, now, i, wave, n, next)
  {
    hide Flatten, ChannelWords, FakeChannel, EmptyChannelWords, WordAt, ChannelSize;
  }

  /** One more channel. */
  method WriteNext(buffer: array<bv8>, ghost was: seq<bv8>, e: FakeEvent, i: nat, n: nat) returns (next: nat)
    requires IsFakeEvent(e) && i < NUM_CHANNELS && SoFar(was, buffer[..], e, i, n)
    requires 20 + 64 * ChannelSize(FakeHeader(e).Length()) <= buffer.Length
    modifies buffer
    ensures SoFar(was, buffer[..], e, i + 1, next)
  {
    ghost var before := buffer[..];
    NextFits(was, before, e, i, n);
    hide *;
    next := WriteChannel(buffer, n, i, e.waves[i]);
    AddedIs(before, buffer[..], i, e.waves[i], n, next);
    OneMoreChannel(was, before, buffer[..], e, i, n, next);
  }

  /**
   produce_data. What it leaves in the buffer is the event on the wire, unless there are no
   samples: then it returns one word more than that for every channel, and what the buffer held there before.
   */
  method ProduceData(buffer: array<bv8>, e: FakeEvent, table: Crc8.Table) returns (n: nat)
    requires IsFakeEvent(e) && table.Valid() && buffer != table.entries
    requires 20 + 64 * ChannelSize(FakeHeader(e).Length()) <= buffer.Length
    modifies buffer, table, table.entries
    ensures n == 20 + 64 * ChannelSize(FakeHeader(e).Length())
    ensures FakeHeader(e).Length() > 0 ==> buffer[..n] == Flatten(Encode(e))
    ensures FakeHeader(e).Length() == 0 ==> buffer[..n] == Flatten(ZeroLengthWords(e, LeftOver(old(buffer[..]))))
    ensures n == |Flatten(Encode(e))| <==> FakeHeader(e).Length() > 0
  {
    hide Flatten, SoFar, FakeHeader, Header.Length, Encode, ChannelSize, LeftOver, ZeroLengthWords, HeaderWords;
    ghost var was := buffer[..];
    WriteHeader(buffer, e, table);
    HeaderSoFar(was, buffer[..], e);
    n := 20;
    for i := 0 to NUM_CHANNELS
      invariant SoFar(was, buffer[..], e, i, n)
    {
      n := WriteNext(buffer, was, e, i, n);
    }
    AllSoFar(was, buffer[..], e, n);
  }

  lemma {:induction false} HeaderSoFar(was: seq<bv8>, now: seq<bv8>, e: FakeEvent)
    requires IsFakeEvent(e) && 20 + 64 * ChannelSize(FakeHeader(e).Length()) <= |was| == |now|
    requires now[..20] == Flatten(HeaderWords(FakeHeader(e))) && now[20..] == was[20..]
    ensures SoFar(was, now, e, 0, 20)
  {
    hide Flatten, HeaderWords, FakeHeader, Header.Length, Written;
    WrittenNext(FakeHeader(e).Length(), 0);
    UpToNext(e, 0);
    if FakeHeader(e).Length() == 0 {
      EmptyStarts(was, now, e);
    }
  }

  lemma {:induction false} AllSoFar(was: seq<bv8>, now: seq<bv8>, e: FakeEvent, n: nat)
    requires IsFakeEvent(e) && SoFar(was, now, e, NUM_CHANNELS, n)
    ensures n == 20 + 64 * ChannelSize(FakeHeader(e).Length())
    ensures FakeHeader(e).Length() > 0 ==> now[..n] == Flatten(Encode(e))
    ensures FakeHeader(e).Length() == 0 ==> |was| >= 20 + 12 * NUM_CHANNELS && now[..n] == Flatten(ZeroLengthWords(e, LeftOver(was)))
    ensures n == |Flatten(Encode(e))| <==> FakeHeader(e).Length() > 0
  {
    hide Flatten, FakeHeader, Header.Length, Encode, LeftOver, ZeroLengthWords, UpTo, UpToEmpty, Written;
    WrittenNext(FakeHeader(e).Length(), NUM_CHANNELS);
    WholeEvent(e);
    if FakeHeader(e).Length() == 0 {
      EmptyIsWritten(was, now, e);
    }
  }

  lemma {:induction false} WholeEvent(e: FakeEvent)
    requires IsFakeEvent(e)
    ensures UpTo(e, NUM_CHANNELS) == Flatten(Encode(e))
    ensures 20 + 64 * ChannelSize(FakeHeader(e).Length()) == |Flatten(Encode(e))| <==> FakeHeader(e).Length() > 0
  {
    hide FakeHeader, Flatten, Encode, Header.Length, ChannelsWords, HeaderWords;
    EncodedSize(e);
  }
}
