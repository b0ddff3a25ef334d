/**
 calc_ceres_header_crc of data_builder.c: a CRC-8 over fields in memory, each walked so that
 it becomes the CRC of the header on the wire, on hosts of either byte order.
 */
module CeresHeaderCrcs {
  import opened Words
  import opened CeresParser
  import opened CeresEvents
  import Crc8

  // ----- Fields in memory -----

  /** The memory of a field with these bytes, highest first: a swapped host keeps the lowest byte first. */
  function InMemory(isSwapped: bool, top: seq<bv8>): (s: seq<bv8>)
    ensures |s| == |top|
  {
    if isSwapped then seq(|top|, i requires 0 <= i < |top| => top[|top| - 1 - i]) else top
  }

  function Reversed(s: seq<bv8>): (r: seq<bv8>)
    ensures |r| == |s|
  {
    if s == [] then [] else Reversed(s[1..]) + [s[0]]
  }

  lemma {:induction false} ReversedFrom(s: seq<bv8>, i: nat)
    requires 0 < i <= |s|
    ensures Reversed(s[i - 1..]) == Reversed(s[i..]) + [s[i - 1]]
  {
    assert s[i - 1..][1..] == s[i..];
  }

  lemma {:induction false} ReversedAt(s: seq<bv8>, k: nat)
    requires k < |s|
    ensures Reversed(s)[k] == s[|s| - 1 - k]
    decreases s
  {
    if k < |s| - 1 {
      ReversedAt(s[1..], k);
    }
  }

  /** What crc_from_bytes walks over. */
  function Walked(isSwapped: bool, bytes: seq<bv8>): seq<bv8> {
    if isSwapped then Reversed(bytes) else bytes
  }

  /** Whatever the byte order of the host, that is the field from its highest byte on. */
  lemma {:induction false} WalkedFromTheTop(isSwapped: bool, top: seq<bv8>)
    ensures Walked(isSwapped, InMemory(isSwapped, top)) == top
  {
    hide Reversed;
    if isSwapped {
      var s := InMemory(isSwapped, top);
      forall k | 0 <= k < |top|
        ensures Reversed(s)[k] == top[k]
      {
        ReversedAt(s, k);
      }
    }
  }

  // ----- The CRC -----

  /** crc_from_bytes: on a swapped host from the last byte to the first. */
  method CrcFromBytes(bytes: seq<bv8>, init: bv8, isSwapped: bool, table: Crc8.Table) returns (crc: bv8)
    requires table.Valid()
    modifies table, table.entries
    ensures table.Valid() && crc == Crc8.Update(init, Walked(isSwapped, bytes))
  {
    hide Crc8.ByteStep;
    crc := init;
    if isSwapped {
      for i := |bytes| downto 0
        invariant table.Valid() && crc == Crc8.Update(init, Reversed(bytes[i..]))
      {
        crc := table.Append(crc, bytes[i]);
        ReversedFrom(bytes, i + 1);
        assert (Reversed(bytes[i + 1..]) + [bytes[i]])[..|bytes| - 1 - i] == Reversed(bytes[i + 1..]);
      }
      assert bytes[0..] == bytes;
    } else {
      for i := 0 to |bytes|
        invariant table.Valid() && crc == Crc8.Update(init, bytes[..i])
      {
        crc := table.Append(crc, bytes[i]);
        assert bytes[..i + 1][..i] == bytes[..i];
      }
      assert bytes[..|bytes|] == bytes;
    }
  }

  /** crc_from_bytes on a field. */
  method CrcFromField(ghost top: seq<bv8>, bytes: seq<bv8>, init: bv8, isSwapped: bool, table: Crc8.Table) returns (crc: bv8)
    requires table.Valid() && bytes == InMemory(isSwapped, top)
    modifies table, table.entries
    ensures table.Valid() && crc == Crc8.Update(init, top)
  {
    hide Walked, InMemory;
    WalkedFromTheTop(isSwapped, top);
    crc := CrcFromBytes(bytes, init, isSwapped, table);
  }

  /**
   calc_ceres_header_crc: on a host of either byte order, the CRC-8 of the fifteen bytes that
   lie between the marker and the CRC on the wire.
   */
  method CalcCeresHeaderCrc(h: Header, isSwapped: bool, table: Crc8.Table) returns (crc: bv8)
    requires table.Valid()
    modifies table, table.entries
    ensures table.Valid() && crc == HeaderCrc(h) && crc == Crc8.Crc(Flatten(HeaderWords(h))[4..19])
  {
    ghost var length := ShortBytes(h.length);
    assert HeaderCrcBytes(h) == ToBytes(h.trigNumber) + LongBytes(h.clock) + length + [h.deviceNumber] by {
      hide ToBytes, HighWord, LowWord, HighByte, LowByte;
    }
    hide Crc8.ByteStep, Crc8.Update, Crc8.Table.Valid, InMemory, ToBytes, LongBytes, ShortBytes, Flatten, HeaderWords, HeaderCrcBytes;
    crc := 0;
    crc := CrcFromField(ToBytes(h.trigNumber), InMemory(isSwapped, ToBytes(h.trigNumber)), crc, isSwapped, table);
    crc := CrcFromField(LongBytes(h.clock), InMemory(isSwapped, LongBytes(h.clock)), crc, isSwapped, table);
    crc := CrcFromField(length, InMemory(isSwapped, ShortBytes(h.length)), crc, isSwapped, table);
    crc := table.Append(crc, h.deviceNumber);
    ChainedCrc(ToBytes(h.trigNumber), LongBytes(h.clock), length, h.deviceNumber);
    HeaderCrcCoversWireBytes(h);
    crc := crc ^ 0x55;
  }

  lemma {:induction false} ChainedCrc(a: seq<bv8>, b: seq<bv8>, c: seq<bv8>, d: bv8)
    ensures Crc8.ByteStep(Crc8.Update(Crc8.Update(Crc8.Update(0, a), b), c), d) == Crc8.Update(0, a + b + c + [d])
  {
    hide Crc8.ByteStep;
    Crc8.UpdateConcat(0, a, b);
    Crc8.UpdateConcat(0, a + b, c);
    assert (a + b + c + [d])[..|a + b + c|] == a + b + c;
  }
}
