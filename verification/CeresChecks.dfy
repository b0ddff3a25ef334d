/** The CRC check of a published CERES event: ceres_validate_crcs of data_builder.c. */
module CeresChecks {
  import opened Words
  import opened CeresParser
  import opened CeresEvents
  import Crc32

  /** The CRC behind the samples of slot `k` is the CRC of their bytes. */
  ghost predicate SlotChecks(data: seq<bv8>, length: nat, k: nat) {
    var o := Offset(k, length, 0);
    && o + 4 * (length + 2) <= |data|
    && WordAt(data, o + 4 * (length + 1)) == Crc32.Crc(0, data[o + 4..o + 4 * (length + 1)])
  }

  ghost predicate Checks(data: seq<bv8>, length: nat) {
    forall k :: 0 <= k < NUM_CHANNELS ==> SlotChecks(data, length, k)
  }

  lemma SlotInEvent(length: nat, k: nat)
    requires k < NUM_CHANNELS
    ensures Offset(k, length, 0) + 4 * (length + 2) <= 20 + 64 * (length + 2)
    ensures Offset(k, length, 0) + 4 * (length + 2) == Offset(k + 1, length, 0)
  {
    TimesBelow(k + 1, NUM_CHANNELS, (length + 2) * 4);
  }

  /** ntohl of the four bytes at `at`. */
  method GetWord(data: array<bv8>, at: nat) returns (w: bv32)
    requires at + 4 <= data.Length
    ensures w == WordAt(data[..], at)
  {
    hide BigEndian;
    w := BigEndian(data[at], data[at + 1], data[at + 2], data[at + 3]);
  }

  /** calculate_waveform_crcs: walk over the slots, computing the CRC of each and fetching the one behind it. */
  method CalculateWaveformCrcs(data: array<bv8>, length: nat, calculated: array<bv32>, given: array<bv32>)
    requires 20 + 64 * (length + 2) <= data.Length
    requires calculated.Length == given.Length == NUM_CHANNELS && calculated != given
    modifies calculated, given
    ensures forall k :: 0 <= k < NUM_CHANNELS ==> (calculated[k] == given[k] <==> SlotChecks(data[..], length, k))
  {
    hide Crc32.Crc, WordAt, Offset;
    var start := 24;
    StartOfSlots(length);
    for i := 0 to NUM_CHANNELS
      invariant start == Offset(i, length, 0) + 4
      invariant forall k :: 0 <= k < i ==> (calculated[k] == given[k] <==> SlotChecks(data[..], length, k))
    {
      SlotInEvent(length, i);
      calculated[i] := Crc32.Crc32Z(0, data, start, 4 * length);
      given[i] := GetWord(data, start + 4 * length);
      assert data[start..start + 4 * length] == data[..][start..start + 4 * length];
      start := start + 4 * (length + 2);
    }
  }

  lemma StartOfSlots(length: nat)
    ensures Offset(0, length, 0) == 20
  {
  }

  /** ceres_validate_crcs: 0 exactly when the CRC behind every slot is the CRC of its samples. */
  method CeresValidateCrcs(data: array<bv8>, length: nat) returns (ret: nat)
    requires 20 + 64 * (length + 2) <= data.Length
    ensures ret == if Checks(data[..], length) then 0 else 1
  {
    hide SlotChecks;
    var calculated, given := new bv32[NUM_CHANNELS], new bv32[NUM_CHANNELS];
    CalculateWaveformCrcs(data, length, calculated, given);
    ret := 0;
    for i := 0 to NUM_CHANNELS
      invariant ret == 0 <==> forall k :: 0 <= k < i ==> SlotChecks(data[..], length, k)
      invariant ret <= 1
    {
      if calculated[i] != given[i] {
        ret := 1;
      }
    }
  }

  /** A slot holds these samples and this CRC. */
  lemma {:induction false} SlotBytes(data: seq<bv8>, o: nat, wave: seq<bv32>, n: nat)
    requires n <= |wave| && o + 4 * |wave| <= |data|
    requires forall j {:trigger wave[j]} :: 0 <= j < |wave| ==> WordAt(data, o + 4 * j) == wave[j]
    ensures data[o..o + 4 * n] == Flatten(wave[..n])
    decreases n
  {
    if n > 0 {
      hide BigEndian, ToBytes;
      SlotBytes(data, o, wave, n - 1);
      var i := o + 4 * (n - 1);
      assert WordAt(data, i) == wave[n - 1];
      BytesOfBigEndian(data[i], data[i + 1], data[i + 2], data[i + 3]);
      assert data[o..o + 4 * n] == data[o..i] + [data[i], data[i + 1], data[i + 2], data[i + 3]];
      assert wave[..n][..n - 1] == wave[..n - 1];
    }
  }

  lemma SameWord(data: seq<bv8>, at: nat, w: bv32)
    requires at + 4 <= |data|
    ensures data[at..at + 4] == ToBytes(w) ==> WordAt(data, at) == w
  {
    BigEndianOfBytes(w);
    hide BigEndian, ToBytes;
    var was := data[at..at + 4];
    assert WordAt(data, at) == BigEndian(was[0], was[1], was[2], was[3]);
  }

  lemma DamagedSlice(data: seq<bv8>, lo: nat, at: nat, hi: nat, w: bv32)
    requires lo <= at <= hi && at + 4 <= |data| && hi <= |data|
    ensures at == hi ==> StoreWord(data, at, w)[lo..hi] == data[lo..hi]
    ensures at + 4 <= hi ==> StoreWord(data, at, w)[lo..hi] == data[lo..at] + ToBytes(w) + data[at + 4..hi]
    ensures at + 4 <= hi ==> data[lo..hi] == data[lo..at] + data[at..at + 4] + data[at + 4..hi]
  {
    hide ToBytes;
  }

  /** Damage to any one sample pair, or to a stored CRC, makes the event fail its check. */
  lemma DamagedPairIsFlagged(data: seq<bv8>, length: nat, k: nat, j: nat, w: bv32)
    requires k < NUM_CHANNELS && SlotChecks(data, length, k) && 1 <= j <= length + 1
    requires w != WordAt(data, Offset(k, length, j))
    ensures !Checks(StoreWord(data, Offset(k, length, j), w), length)
  {
    var o, at := Offset(k, length, 0), Offset(k, length, j);
    assert at == o + 4 * j;
    hide Offset, BigEndian, ToBytes, Crc32.Crc;
    var damaged := StoreWord(data, at, w);
    WordAtStoreWord(data, at, w, o + 4 * (length + 1));
    DamagedSlice(data, o + 4, at, o + 4 * (length + 1), w);
    if j <= length {
      SameWord(data, at, w);
      Crc32.BurstIsDetected(0, data[o + 4..at], data[at..at + 4], ToBytes(w), data[at + 4..o + 4 * (length + 1)]);
    }
    assert !SlotChecks(damaged, length, k);
  }
}
