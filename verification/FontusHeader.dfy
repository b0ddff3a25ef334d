/** The header fields of FONTUS, laid out in a buffer store by store, and the CRC-32 of that. */
module FontusHeaders {
  import opened Words
  import opened Buffers
  import opened FontusParser
  import Ceres = CeresParser
  import Crc32

  /** Store htonll(w): on a little-endian host the swapped upper half comes first. */
  method PutLong(buffer: array<bv8>, at: nat, w: bv64)
    requires at + 8 <= buffer.Length
    modifies buffer
    ensures buffer[..] == Splice(old(buffer[..]), at, Ceres.LongBytes(w))
  {
    hide ToBytes, Splice, Ceres.HighWord, Ceres.LowWord;
    ghost var was := buffer[..];
    PutWord(buffer, at, Ceres.HighWord(w));
    PutWord(buffer, at + 4, Ceres.LowWord(w));
    SpliceOn(was, at, ToBytes(Ceres.HighWord(w)), ToBytes(Ceres.LowWord(w)));
  }

  /** Store htons(w). */
  method PutShort(buffer: array<bv8>, at: nat, w: bv16)
    requires at + 2 <= buffer.Length
    modifies buffer
    ensures buffer[..] == Splice(old(buffer[..]), at, Ceres.ShortBytes(w))
  {
    hide Ceres.HighByte, Ceres.LowByte;
    buffer[at], buffer[at + 1] := Ceres.HighByte(w), Ceres.LowByte(w);
  }

  method PutByte(buffer: array<bv8>, at: nat, b: bv8)
    requires at + 1 <= buffer.Length
    modifies buffer
    ensures buffer[..] == Splice(old(buffer[..]), at, [b])
  {
    buffer[at] := b;
  }

  lemma Together(x: seq<bv8>, a: seq<bv8>, b: seq<bv8>)
    ensures x + a + b == x + (a + b)
  {
  }

  lemma FourBytes(x: seq<bv8>, a: bv8, b: bv8, c: bv8, d: bv8)
    ensures x + [a, b, c, d] == x + [a, b] + [c] + [d]
  {
  }

  lemma FieldsAreBytes(h: Header)
    ensures HeaderCrcBytes(h) ==
      ToBytes(h.trigNumber) + Ceres.LongBytes(h.clock) + Ceres.ShortBytes(h.length) + [h.deviceNumber] + [h.triggerFlags] + ToBytes(h.selfTriggerWord)
      + (Ceres.LongBytes(h.beamTriggerTime) + Ceres.LongBytes(h.ledTriggerTime) + Ceres.LongBytes(h.ctTime))
  {
    hide ToBytes, Ceres.HighWord, Ceres.LowWord, Ceres.HighByte, Ceres.LowByte;
    var clock := ToBytes(h.trigNumber) + Ceres.LongBytes(h.clock);
    Together(ToBytes(h.trigNumber), ToBytes(Ceres.HighWord(h.clock)), ToBytes(Ceres.LowWord(h.clock)));
    FourBytes(clock, Ceres.HighByte(h.length), Ceres.LowByte(h.length), h.deviceNumber, h.triggerFlags);
    var x := clock + Ceres.ShortBytes(h.length) + [h.deviceNumber] + [h.triggerFlags] + ToBytes(h.selfTriggerWord);
    var beam, led, ct := Ceres.LongBytes(h.beamTriggerTime), Ceres.LongBytes(h.ledTriggerTime), Ceres.LongBytes(h.ctTime);
    Together(x, ToBytes(Ceres.HighWord(h.beamTriggerTime)), ToBytes(Ceres.LowWord(h.beamTriggerTime)));
    Together(x + beam, ToBytes(Ceres.HighWord(h.ledTriggerTime)), ToBytes(Ceres.LowWord(h.ledTriggerTime)));
    Together(x + beam + led, ToBytes(Ceres.HighWord(h.ctTime)), ToBytes(Ceres.LowWord(h.ctTime)));
    Together(x, beam, led);
    Together(x, beam + led, ct);
  }

  /** Trigger number to self trigger word: the first twenty bytes. */
  method PutFirstFields(buffer: array<bv8>, at: nat, h: Header)
    requires at + 20 <= buffer.Length
    modifies buffer
    ensures buffer[..] == Splice(old(buffer[..]), at,
      ToBytes(h.trigNumber) + Ceres.LongBytes(h.clock) + Ceres.ShortBytes(h.length) + [h.deviceNumber] + [h.triggerFlags] + ToBytes(h.selfTriggerWord))
  {
    ghost var was, t, u := buffer[..], ToBytes(h.trigNumber), Ceres.LongBytes(h.clock);
    hide ToBytes, Splice, Ceres.HighWord, Ceres.LowWord, Ceres.HighByte, Ceres.LowByte;
    PutWord(buffer, at, h.trigNumber);
    PutLong(buffer, at + 4, h.clock);
    SpliceOn(was, at, t, u);
    PutShort(buffer, at + 12, h.length);
    SpliceOn(was, at, t + u, Ceres.ShortBytes(h.length));
    PutByte(buffer, at + 14, h.deviceNumber);
    SpliceOn(was, at, t + u + Ceres.ShortBytes(h.length), [h.deviceNumber]);
    PutByte(buffer, at + 15, h.triggerFlags);
    SpliceOn(was, at, t + u + Ceres.ShortBytes(h.length) + [h.deviceNumber], [h.triggerFlags]);
    PutWord(buffer, at + 16, h.selfTriggerWord);
    SpliceOn(was, at, t + u + Ceres.ShortBytes(h.length) + [h.deviceNumber] + [h.triggerFlags], ToBytes(h.selfTriggerWord));
  }

  /** The three trigger times: twenty-four bytes. */
  method PutTimes(buffer: array<bv8>, at: nat, h: Header)
    requires at + 24 <= buffer.Length
    modifies buffer
    ensures buffer[..] == Splice(old(buffer[..]), at, Ceres.LongBytes(h.beamTriggerTime) + Ceres.LongBytes(h.ledTriggerTime) + Ceres.LongBytes(h.ctTime))
  {
    hide ToBytes, Splice, Ceres.HighWord, Ceres.LowWord;
    ghost var was := buffer[..];
    PutLong(buffer, at, h.beamTriggerTime);
    PutLong(buffer, at + 8, h.ledTriggerTime);
    SpliceOn(was, at, Ceres.LongBytes(h.beamTriggerTime), Ceres.LongBytes(h.ledTriggerTime));
    PutLong(buffer, at + 16, h.ctTime);
    SpliceOn(was, at, Ceres.LongBytes(h.beamTriggerTime) + Ceres.LongBytes(h.ledTriggerTime), Ceres.LongBytes(h.ctTime));
  }

  /** All fields between the marker and the CRC, each at its own offset. */
  method PutHeaderFields(buffer: array<bv8>, at: nat, h: Header)
    requires at + 44 <= buffer.Length
    modifies buffer
    ensures buffer[..] == Splice(old(buffer[..]), at, HeaderCrcBytes(h))
  {
    hide ToBytes, Splice, Ceres.LongBytes, Ceres.ShortBytes, HeaderCrcBytes;
    ghost var was := buffer[..];
    PutFirstFields(buffer, at, h);
    PutTimes(buffer, at + 20, h);
    FieldsAreBytes(h);
    SpliceOn(was, at, ToBytes(h.trigNumber) + Ceres.LongBytes(h.clock) + Ceres.ShortBytes(h.length) + [h.deviceNumber] + [h.triggerFlags] + ToBytes(h.selfTriggerWord),
             Ceres.LongBytes(h.beamTriggerTime) + Ceres.LongBytes(h.ledTriggerTime) + Ceres.LongBytes(h.ctTime));
  }

  /** calc_fontus_header_crc: lay the fields out again, and take the CRC of that. */
  method CalcHeaderCrc(h: Header) returns (crc: bv32)
    ensures crc == Crc32.Crc(0, HeaderCrcBytes(h))
  {
    hide HeaderCrcBytes, Crc32.Crc, Splice;
    var buffer := new bv8[44];
    PutHeaderFields(buffer, 0, h);
    crc := Crc32.Crc32Z(0, buffer, 0, 44);
    assert buffer[0..0 + 44] == buffer[..][0..44] == HeaderCrcBytes(h);
  }
}
