/** The bytes of the header that zipper.c writes in front of the payloads of an event. */
module EventFiles {
  /** The lowest byte of a number. */
  function LowByte(n: nat): bv8 { (n % 0x100) as bv8 }

  lemma NextByte(b: bv8)
    requires b != 255
    ensures (b + 1) as nat == b as nat + 1
  {
  }

  lemma LastByte(b: bv8)
    ensures b as nat == 255 ==> b == 255
    ensures (b as nat) as bv8 == b
  {
  }

  /** There is a byte for every number below 256. */
  lemma {:induction false} ByteOf(n: nat) returns (b: bv8)
    requires n < 0x100
    ensures b as nat == n
  {
    if n == 0 {
      b := 0;
    } else {
      b := ByteOf(n - 1);
      LastByte(b);
      NextByte(b);
      b := b + 1;
    }
  }

  lemma ByteBack(n: nat)
    requires n < 0x100
    ensures (n as bv8) as nat == n
  {
    var b := ByteOf(n);
    LastByte(b);
  }

  lemma LowByteIs(n: nat)
    ensures LowByte(n) as nat == n % 0x100
  {
    ByteBack(n % 0x100);
  }

  /** htonl of an event number. */
  function NumberBytes(n: nat): (s: seq<bv8>)
    ensures |s| == 4
  {
    [LowByte(n / 0x100_0000), LowByte(n / 0x1_0000), LowByte(n / 0x100), LowByte(n)]
  }

  /** htons. */
  function ShortBytes(n: nat): (s: seq<bv8>)
    ensures |s| == 2
  {
    [LowByte(n / 0x100), LowByte(n)]
  }

  /** Eight bits of the device mask, those of `first` and the devices behind it; the lowest bit is that of `first`. */
  function MaskByte(mask: set<nat>, first: nat): bv8 {
    (if first in mask then 1 else 0) | (if first + 1 in mask then 2 else 0)
    | (if first + 2 in mask then 4 else 0) | (if first + 3 in mask then 8 else 0)
    | (if first + 4 in mask then 16 else 0) | (if first + 5 in mask then 32 else 0)
    | (if first + 6 in mask then 64 else 0) | (if first + 7 in mask then 128 else 0)
  }

  /** htonll of the bit word. */
  function MaskBytes(mask: set<nat>): (s: seq<bv8>)
    ensures |s| == 8
  {
    [MaskByte(mask, 56), MaskByte(mask, 48), MaskByte(mask, 40), MaskByte(mask, 32),
     MaskByte(mask, 24), MaskByte(mask, 16), MaskByte(mask, 8), MaskByte(mask, 0)]
  }

  /** Event number, status, version, and device mask. */
  function HeaderBytes(number: nat, status: nat, version: nat, mask: set<nat>): (s: seq<bv8>)
    ensures |s| == 16
  {
    NumberBytes(number) + ShortBytes(status) + ShortBytes(version) + MaskBytes(mask)
  }

  /** What a reader makes of four bytes. */
  function NumberAt(s: seq<bv8>, i: nat): nat
    requires i + 4 <= |s|
  {
    s[i] as nat * 0x100_0000 + s[i + 1] as nat * 0x1_0000 + s[i + 2] as nat * 0x100 + s[i + 3] as nat
  }

  lemma NumberIsBytes(n: nat)
    ensures NumberAt(NumberBytes(n), 0) == n % 0x1_0000_0000
  {
    LowByteIs(n / 0x100_0000);
    LowByteIs(n / 0x1_0000);
    LowByteIs(n / 0x100);
    LowByteIs(n);
    hide LowByte;
    FourDigits(n);
  }

  lemma FourDigits(n: nat)
    ensures n % 0x1_0000_0000 ==
      n / 0x100_0000 % 0x100 * 0x100_0000 + n / 0x1_0000 % 0x100 * 0x1_0000 + n / 0x100 % 0x100 * 0x100 + n % 0x100
  {
    var a, b, c, d := n / 0x100, n / 0x1_0000, n / 0x100_0000, n / 0x1_0000_0000;
    assert b == a / 0x100 && c == b / 0x100 && d == c / 0x100;
  }

  predicate Bit(b: bv8, i: nat)
    requires i < 8
  {
    (b >> i) & 1 == 1
  }

  lemma MaskByteBits(mask: set<nat>, first: nat, i: nat)
    requires i < 8
    ensures Bit(MaskByte(mask, first), i) <==> first + i in mask
  {
    var b := MaskByte(mask, first);
    assert ((b >> 0) & 1 == 1 <==> first in mask) && ((b >> 1) & 1 == 1 <==> first + 1 in mask);
    assert ((b >> 2) & 1 == 1 <==> first + 2 in mask) && ((b >> 3) & 1 == 1 <==> first + 3 in mask);
    assert ((b >> 4) & 1 == 1 <==> first + 4 in mask) && ((b >> 5) & 1 == 1 <==> first + 5 in mask);
    assert ((b >> 6) & 1 == 1 <==> first + 6 in mask) && ((b >> 7) & 1 == 1 <==> first + 7 in mask);
    assert i == 0 || i == 1 || i == 2 || i == 3 || i == 4 || i == 5 || i == 6 || i == 7;
  }

  lemma MaskByteOf(mask: set<nat>, d: nat)
    requires d < 64
    ensures MaskBytes(mask)[7 - d / 8] == MaskByte(mask, 8 * (d / 8))
  {
    hide MaskByte;
    var k := d / 8;
    assert k == 0 || k == 1 || k == 2 || k == 3 || k == 4 || k == 5 || k == 6 || k == 7;
  }

  lemma DeviceReadsBack(number: nat, status: nat, version: nat, mask: set<nat>, d: nat)
    requires d < 64
    ensures Bit(HeaderBytes(number, status, version, mask)[15 - d / 8], d % 8) <==> d in mask
  {
    hide MaskByte, MaskBytes, Bit, NumberBytes, ShortBytes;
    MaskByteOf(mask, d);
    MaskByteBits(mask, 8 * (d / 8), d % 8);
    assert HeaderBytes(number, status, version, mask)[15 - d / 8] == MaskBytes(mask)[7 - d / 8];
  }

  /**
   What lies in the file from `at` on is the header of event `number`, in network order: its number, zero if it is
   complete or else one, the version, which is one, and a bit for each of its devices.
   */
  ghost predicate IsHeaderAt(file: seq<bv8>, at: nat, number: nat, complete: bool, devices: set<nat>) {
    && at + 16 <= |file|
    && file[at] as nat * 0x100_0000 + file[at + 1] as nat * 0x1_0000 + file[at + 2] as nat * 0x100 + file[at + 3] as nat == number % 0x1_0000_0000
    && file[at + 4] == 0 && file[at + 5] == (if complete then 0 else 1)
    && file[at + 6] == 0 && file[at + 7] == 1
    && forall d :: 0 <= d < 64 ==> ((file[at + 15 - d / 8] >> (d % 8)) & 1 == 1 <==> d in devices)
  }

  lemma FieldsReadBack(number: nat, complete: bool, mask: set<nat>)
    ensures
      var s := HeaderBytes(number, if complete then 0 else 1, 1, mask);
      && NumberAt(s, 0) == number % 0x1_0000_0000
      && s[4] == 0 && s[5] == (if complete then 0 else 1) && s[6] == 0 && s[7] == 1
  {
    NumberIsBytes(number);
    hide NumberBytes, MaskBytes;
    var s, t := HeaderBytes(number, if complete then 0 else 1, 1, mask), NumberBytes(number);
    assert s[0] == t[0] && s[1] == t[1] && s[2] == t[2] && s[3] == t[3];
  }

  /** The header bytes can be read back. */
  lemma HeaderReadsBack(number: nat, complete: bool, mask: set<nat>)
    ensures IsHeaderAt(HeaderBytes(number, if complete then 0 else 1, 1, mask), 0, number, complete, mask)
  {
    hide HeaderBytes, Bit;
    FieldsReadBack(number, complete, mask);
    var s := HeaderBytes(number, if complete then 0 else 1, 1, mask);
    forall d | 0 <= d < 64
      ensures (s[0 + 15 - d / 8] >> (d % 8)) & 1 == 1 <==> d in mask
    {
      DeviceReadsBack(number, if complete then 0 else 1, 1, mask, d);
      BitIs(s[15 - d / 8], d % 8);
    }
  }

  lemma BitIs(b: bv8, i: nat)
    requires i < 8
    ensures Bit(b, i) <==> (b >> i) & 1 == 1
  {
  }

  /** It stays readable in a file, whatever is in front of it and behind it, and what is behind it starts 16 bytes on. */
  lemma HeaderInFile(before: seq<bv8>, header: seq<bv8>, behind: seq<bv8>, number: nat, complete: bool, mask: set<nat>)
    requires |header| == 16 && IsHeaderAt(header, 0, number, complete, mask)
    ensures IsHeaderAt(before + header + behind, |before|, number, complete, mask)
    ensures (before + header + behind)[|before| + 16..] == behind
  {
    var file, at := before + header + behind, |before|;
    assert forall i :: 0 <= i < 16 ==> file[at + i] == header[i];
    assert file[at + 0] == header[0];
    forall d | 0 <= d < 64
      ensures (file[at + 15 - d / 8] >> (d % 8)) & 1 == 1 <==> d in mask
    {
      assert header[0 + 15 - d / 8] == file[at + (15 - d / 8)];
    }
  }
}
