/**
 crc32.c: the table-driven CRC-32 against the bitwise shift register of
 section 8 of RFC 1952, and crc32_combine_ against the CRC of a concatenation.
 */
module Crc32 {
  import opened CrcTable
  import opened SliceTables

  // ----- Specification -----

  function Xor(a: bv32, b: bv32): bv32 { a ^ b }

  function Word(b: bv8): bv32 { b as bv32 }

  /** The register after shifting in one byte, least significant bit first. */
  function ByteStep(c: bv32, b: bv8): bv32 {
    Step8(Xor(c, Word(b)))
  }

  /** The register after shifting in the bytes of `s`. */
  ghost function Update(c: bv32, s: seq<bv8>): bv32
    decreases |s|
  {
    if s == [] then c else Update(ByteStep(c, s[0]), s[1..])
  }

  /** The CRC-32 of `s`, continued from the CRC-32 `crc` of what came before. */
  ghost function Crc(crc: bv32, s: seq<bv8>): bv32 {
    Xor(Update(Xor(crc, 0xFFFFFFFF), s), 0xFFFFFFFF)
  }

  /** The check value that is published for this CRC: that of the nine characters 1 to 9. */
  lemma {:induction false} CheckValue()
    ensures Crc(0, [0x31, 0x32, 0x33, 0x34, 0x35, 0x36, 0x37, 0x38, 0x39]) == 0xCBF4_3926
  {
    CheckFirst();
    CheckLast();
    hide ByteStep;
    var s := [0x31, 0x32, 0x33, 0x34, 0x35, 0x36, 0x37, 0x38, 0x39];
    UpdateNine(0xFFFF_FFFF, s);
    assert Xor(0, 0xFFFF_FFFF) == 0xFFFF_FFFF && Xor(0x340BC6D9, 0xFFFF_FFFF) == 0xCBF4_3926;
  }

  lemma CheckFirst()
    ensures ByteStep(ByteStep(ByteStep(ByteStep(0xFFFF_FFFF, 0x31), 0x32), 0x33), 0x34) == 0x641C1F5C
  {
  }

  lemma CheckLast()
    ensures ByteStep(ByteStep(ByteStep(ByteStep(ByteStep(0x641C1F5C, 0x35), 0x36), 0x37), 0x38), 0x39) == 0x340BC6D9
  {
  }

  lemma {:induction false} UpdateNine(c: bv32, s: seq<bv8>)
    requires |s| == 9
    ensures Update(c, s) ==
      ByteStep(ByteStep(ByteStep(ByteStep(ByteStep(ByteStep(ByteStep(ByteStep(ByteStep(c, s[0]), s[1]), s[2]), s[3]), s[4]), s[5]), s[6]), s[7]), s[8])
  {
    hide ByteStep;
    UpdateThree(c, s);
    UpdateThree(ByteStep(ByteStep(ByteStep(c, s[0]), s[1]), s[2]), s[3..]);
    var six := ByteStep(ByteStep(ByteStep(ByteStep(ByteStep(ByteStep(c, s[0]), s[1]), s[2]), s[3]), s[4]), s[5]);
    assert s[3..][3..] == s[6..] && s[6..][3..] == [];
    UpdateThree(six, s[6..]);
  }

  lemma {:induction false} UpdateThree(c: bv32, s: seq<bv8>)
    requires |s| >= 3
    ensures Update(c, s) == Update(ByteStep(ByteStep(ByteStep(c, s[0]), s[1]), s[2]), s[3..])
  {
    hide ByteStep;
    assert s[1..][1..] == s[2..] && s[2..][1..] == s[3..];
    assert Update(c, s) == Update(ByteStep(c, s[0]), s[1..]);
    assert Update(ByteStep(c, s[0]), s[1..]) == Update(ByteStep(ByteStep(c, s[0]), s[1..][0]), s[1..][1..]);
    assert Update(ByteStep(ByteStep(c, s[0]), s[1]), s[2..]) == Update(ByteStep(ByteStep(ByteStep(c, s[0]), s[1]), s[2..][0]), s[2..][1..]);
  }

  /** The register after `k` zero bits: a linear operator over GF(2). */
  ghost function StepN(k: nat, c: bv32): bv32
    decreases k
  {
    if k == 0 then c else StepN(k - 1, Step(c))
  }

  predicate LowBit(v: bv32) { v & 1 == 1 }

  // ----- Exclusive or -----

  lemma XorCommutes(a: bv32, b: bv32)
    ensures Xor(a, b) == Xor(b, a)
  {
  }

  lemma XorAssociates(a: bv32, b: bv32, c: bv32)
    ensures Xor(Xor(a, b), c) == Xor(a, Xor(b, c))
  {
  }

  lemma XorCancels(a: bv32, b: bv32)
    ensures Xor(Xor(a, b), b) == a
  {
  }

  lemma XorSwapMiddle(a: bv32, b: bv32, c: bv32, d: bv32)
    ensures Xor(Xor(a, b), Xor(c, d)) == Xor(Xor(a, c), Xor(b, d))
  {
    hide Xor;
    XorAssociates(Xor(a, b), c, d);
    XorAssociates(a, b, c);
    XorCommutes(b, c);
    XorAssociates(a, c, b);
    XorAssociates(Xor(a, c), b, d);
  }

  // ----- Linearity of the register -----

  lemma StepLinearEvenEven(a: bv32, b: bv32)
    requires !LowBit(a) && !LowBit(b)
    ensures Step(Xor(a, b)) == Xor(Step(a), Step(b))
  {
  }

  lemma StepLinearOddEven(a: bv32, b: bv32)
    requires LowBit(a) && !LowBit(b)
    ensures Step(Xor(a, b)) == Xor(Step(a), Step(b))
  {
  }

  lemma StepLinearOddOdd(a: bv32, b: bv32)
    requires LowBit(a) && LowBit(b)
    ensures Step(Xor(a, b)) == Xor(Step(a), Step(b))
  {
  }

  lemma StepLinear(a: bv32, b: bv32)
    ensures Step(Xor(a, b)) == Xor(Step(a), Step(b))
  {
    hide *;
    if LowBit(a) && LowBit(b) {
      StepLinearOddOdd(a, b);
    } else if LowBit(a) {
      StepLinearOddEven(a, b);
    } else if LowBit(b) {
      StepLinearOddEven(b, a);
      XorCommutes(a, b);
      XorCommutes(Step(a), Step(b));
    } else {
      StepLinearEvenEven(a, b);
    }
  }

  lemma {:induction false} StepNLinear(k: nat, a: bv32, b: bv32)
    ensures StepN(k, Xor(a, b)) == Xor(StepN(k, a), StepN(k, b))
    decreases k
  {
    hide Step, Xor;
    if k > 0 {
      StepLinear(a, b);
      StepNLinear(k - 1, Step(a), Step(b));
    }
  }

  lemma {:induction false} StepNCompose(j: nat, k: nat, c: bv32)
    ensures StepN(k, StepN(j, c)) == StepN(j + k, c)
    decreases j
  {
    hide Step;
    if j > 0 {
      StepNCompose(j - 1, k, Step(c));
    }
  }

  lemma Step8IsStepN(c: bv32)
    ensures Step8(c) == StepN(8, c)
  {
    hide Step;
    var c2 := Step(Step(c));
    var c4 := Step(Step(c2));
    var c6 := Step(Step(c4));
    assert StepN(8, c) == StepN(6, c2);
    assert StepN(6, c2) == StepN(4, c4);
    assert StepN(4, c4) == StepN(2, c6);
  }

  lemma Step8Linear(a: bv32, b: bv32)
    ensures Step8(Xor(a, b)) == Xor(Step8(a), Step8(b))
  {
    hide *;
    Step8IsStepN(a);
    Step8IsStepN(b);
    Step8IsStepN(Xor(a, b));
    StepNLinear(8, a, b);
  }

  function LowByte(c: bv32): bv8 { (c & 0xFF) as bv8 }

  function HighBits(c: bv32): bv32 { c & 0xFFFFFF00 }

  function Shr8(c: bv32): bv32 { c >> 8 }

  /** Eight shifts only move bits that start above the low byte. */
  lemma Step8OfHighBits(c: bv32)
    ensures Step8(HighBits(c)) == Shr8(c)
  {
  }

  lemma SplitLowByte(c: bv32)
    ensures c == Xor(Word(LowByte(c)), HighBits(c))
  {
  }

  lemma Shr8DropsByte(c: bv32, b: bv8)
    ensures Shr8(Xor(c, Word(b))) == Shr8(c)
  {
  }

  /** One DO1 of crc32.c is eight shifts of the register. */
  lemma TableStepIsBitwise(c: bv32, b: bv8)
    ensures Xor(Lookup(LowByte(Xor(c, Word(b)))), Shr8(c)) == ByteStep(c, b)
  {
    hide Step8, Lookup, Xor, LowByte, HighBits, Shr8, Word;
    var x := Xor(c, Word(b));
    SplitLowByte(x);
    Shr8DropsByte(c, b);
    TableEntry(LowByte(x));
    Step8OfHighBits(x);
    Step8Linear(Word(LowByte(x)), HighBits(x));
  }

  lemma TableEntry(i: bv8)
    ensures Lookup(i) == Step8(Word(i))
  {
    hide Lookup, Step8;
    TableIsBitwise(i);
  }

  // ----- crc32_z -----

  lemma {:induction false} UpdateConcat(c: bv32, a: seq<bv8>, b: seq<bv8>)
    ensures Update(c, a + b) == Update(Update(c, a), b)
    decreases |a|
  {
    hide ByteStep;
    if a == [] {
      assert a + b == b;
    } else {
      assert (a + b)[1..] == a[1..] + b;
      UpdateConcat(ByteStep(c, a[0]), a[1..], b);
    }
  }

  lemma UpdateAppend(c: bv32, s: seq<bv8>, b: bv8)
    ensures Update(c, s + [b]) == ByteStep(Update(c, s), b)
  {
    hide ByteStep;
    UpdateConcat(c, s, [b]);
    assert Update(ByteStep(Update(c, s), b), [b][1..]) == ByteStep(Update(c, s), b);
  }

  /** DO1: one table step on the byte at `i`. */
  method Do1(crc: bv32, buf: array<bv8>, i: nat, ghost init: bv32, ghost start: nat) returns (r: bv32)
    requires start <= i < buf.Length
    requires crc == Update(init, buf[start..i])
    ensures r == Update(init, buf[start..i + 1])
  {
    hide ByteStep, Lookup, Xor, LowByte, Shr8, Word;
    r := Xor(Lookup(LowByte(Xor(crc, Word(buf[i])))), Shr8(crc));
    TableStepIsBitwise(crc, buf[i]);
    assert buf[start..i + 1] == buf[start..i] + [buf[i]];
    UpdateAppend(init, buf[start..i], buf[i]);
  }

  /** crc32_z on the `len` bytes at `start`: eight table steps a turn, then one a turn. */
  method Crc32Z(crc: bv32, buf: array?<bv8>, start: nat, len: nat) returns (r: bv32)
    requires buf != null ==> start + len <= buf.Length
    ensures r == if buf == null then 0 else Crc(crc, buf[start..start + len])
  {
    hide ByteStep;
    if buf == null {
      return 0;
    }
    var init := Xor(crc, 0xFFFFFFFF);
    var c, left, i := init, len, start;
    while left >= 8
      invariant i + left == start + len && start <= i
      invariant c == Update(init, buf[start..i])
    {
      c := Do1(c, buf, i, init, start);
      c := Do1(c, buf, i + 1, init, start);
      c := Do1(c, buf, i + 2, init, start);
      c := Do1(c, buf, i + 3, init, start);
      c := Do1(c, buf, i + 4, init, start);
      c := Do1(c, buf, i + 5, init, start);
      c := Do1(c, buf, i + 6, init, start);
      c := Do1(c, buf, i + 7, init, start);
      i, left := i + 8, left - 8;
    }
    while left > 0
      invariant i + left == start + len && start <= i
      invariant c == Update(init, buf[start..i])
    {
      c := Do1(c, buf, i, init, start);
      i, left := i + 1, left - 1;
    }
    r := Xor(c, 0xFFFFFFFF);
  }

  /** Feeding a CRC back in continues it: the streaming use of crc32_z. */
  lemma CrcContinues(crc: bv32, a: seq<bv8>, b: seq<bv8>)
    ensures Crc(Crc(crc, a), b) == Crc(crc, a + b)
  {
    hide ByteStep, Xor;
    var init := Xor(crc, 0xFFFFFFFF);
    UpdateConcat(init, a, b);
    XorCancels(Update(init, a), 0xFFFFFFFF);
  }

  // ----- Injectivity: what damage a CRC cannot miss -----

  lemma StepInjective(a: bv32, b: bv32)
    requires Step(a) == Step(b)
    ensures a == b
  {
  }

  lemma {:induction false} StepNInjective(k: nat, a: bv32, b: bv32)
    requires StepN(k, a) == StepN(k, b)
    ensures a == b
    decreases k
  {
    if k > 0 {
      hide Step;
      StepNInjective(k - 1, Step(a), Step(b));
      StepInjective(a, b);
    }
  }

  lemma ByteStepInjective(c: bv32, d: bv32, b: bv8)
    requires ByteStep(c, b) == ByteStep(d, b)
    ensures c == d
  {
    hide Step8, Xor;
    var w := Word(b);
    Step8IsStepN(Xor(c, w));
    Step8IsStepN(Xor(d, w));
    StepNInjective(8, Xor(c, w), Xor(d, w));
    XorCancels(c, w);
    XorCancels(d, w);
  }

  lemma {:induction false} UpdateInjective(c: bv32, d: bv32, s: seq<bv8>)
    requires Update(c, s) == Update(d, s)
    ensures c == d
    decreases |s|
  {
    hide ByteStep;
    if s != [] {
      UpdateInjective(ByteStep(c, s[0]), ByteStep(d, s[0]), s[1..]);
      ByteStepInjective(c, d, s[0]);
    }
  }

  function Shl8(v: bv32): bv32 { v << 8 }

  predicate TopByteClear(v: bv32) { v & 0xFF000000 == 0 }

  /** The word whose lowest byte is `b` and whose other bytes are those of `v`. */
  function Push(b: bv8, v: bv32): bv32 { Xor(Word(b), Shl8(v)) }

  /** Four bytes in the order the register takes them. */
  function LittleEndian(b0: bv8, b1: bv8, b2: bv8, b3: bv8): bv32 {
    Push(b0, Push(b1, Push(b2, Word(b3))))
  }

  lemma PushInjective(b: bv8, v: bv32, d: bv8, w: bv32)
    requires TopByteClear(v) && TopByteClear(w)
    requires Push(b, v) == Push(d, w)
    ensures b == d && v == w
  {
    hide Push;
    PopPush(b, v);
    PopPush(d, w);
  }

  lemma PopPush(b: bv8, v: bv32)
    requires TopByteClear(v)
    ensures LowByte(Push(b, v)) == b && Shr8(Push(b, v)) == v
  {
  }

  lemma PushHasRoom(b1: bv8, b2: bv8, b3: bv8)
    ensures TopByteClear(Word(b3)) && TopByteClear(Push(b2, Word(b3))) && TopByteClear(Push(b1, Push(b2, Word(b3))))
  {
  }

  lemma Step8OfShifted(v: bv32)
    requires TopByteClear(v)
    ensures Step8(Shl8(v)) == v
  {
  }

  /** Shifting a byte out of the register leaves the rest of the word xored in. */
  lemma Step8OfPush(c: bv32, b: bv8, v: bv32)
    requires TopByteClear(v)
    ensures Step8(Xor(c, Push(b, v))) == Xor(ByteStep(c, b), v)
  {
    hide Xor, Step8, Word, Shl8, TopByteClear;
    XorAssociates(c, Word(b), Shl8(v));
    Step8Linear(Xor(c, Word(b)), Shl8(v));
    Step8OfShifted(v);
  }

  lemma FourStep8s(c: bv32)
    ensures Step8(Step8(Step8(Step8(c)))) == StepN(32, c)
  {
    hide *;
    Step8IsStepN(c);
    Step8IsStepN(Step8(c));
    Step8IsStepN(Step8(Step8(c)));
    Step8IsStepN(Step8(Step8(Step8(c))));
    StepNCompose(8, 8, c);
    StepNCompose(16, 8, c);
    StepNCompose(24, 8, c);
  }

  lemma UpdateOfFour(c: bv32, b0: bv8, b1: bv8, b2: bv8, b3: bv8)
    ensures Update(c, [b0, b1, b2, b3]) == ByteStep(ByteStep(ByteStep(ByteStep(c, b0), b1), b2), b3)
  {
    hide ByteStep;
    UpdateAppend(c, [b0, b1, b2], b3);
    UpdateAppend(c, [b0, b1], b2);
    UpdateAppend(c, [b0], b1);
    UpdateAppend(c, [], b0);
    assert [b0, b1, b2] + [b3] == [b0, b1, b2, b3];
    assert [b0, b1] + [b2] == [b0, b1, b2];
    assert [b0] + [b1] == [b0, b1];
    assert [] + [b0] == [b0];
  }

  /** Four table steps are thirty-two shifts of the register xored with the word. */
  lemma UpdateOfWord(c: bv32, b0: bv8, b1: bv8, b2: bv8, b3: bv8)
    ensures Update(c, [b0, b1, b2, b3]) == StepN(32, Xor(c, LittleEndian(b0, b1, b2, b3)))
  {
    hide Step8, Xor, StepN, Word, Push, Update, TopByteClear;
    var v3 := Word(b3);
    var v2 := Push(b2, v3);
    var v1 := Push(b1, v2);
    var y1 := ByteStep(c, b0);
    var y2 := ByteStep(y1, b1);
    UpdateOfFour(c, b0, b1, b2, b3);
    PushHasRoom(b1, b2, b3);
    Step8OfPush(c, b0, v1);
    Step8OfPush(y1, b1, v2);
    Step8OfPush(y2, b2, v3);
    FourStep8s(Xor(c, Push(b0, v1)));
  }

  lemma WordDamageIsSeen(c: bv32, w: seq<bv8>, w': seq<bv8>)
    requires |w| == |w'| == 4
    requires Update(c, w) == Update(c, w')
    ensures w == w'
  {
    hide Xor, Update, StepN, Push, Word, TopByteClear;
    var v, v' := LittleEndian(w[0], w[1], w[2], w[3]), LittleEndian(w'[0], w'[1], w'[2], w'[3]);
    assert w == [w[0], w[1], w[2], w[3]] && w' == [w'[0], w'[1], w'[2], w'[3]];
    UpdateOfWord(c, w[0], w[1], w[2], w[3]);
    UpdateOfWord(c, w'[0], w'[1], w'[2], w'[3]);
    StepNInjective(32, Xor(c, v), Xor(c, v'));
    XorCommutes(c, v);
    XorCommutes(c, v');
    XorCancels(v, c);
    XorCancels(v', c);
    PushHasRoom(w[1], w[2], w[3]);
    PushHasRoom(w'[1], w'[2], w'[3]);
    PushInjective(w[0], Push(w[1], Push(w[2], Word(w[3]))), w'[0], Push(w'[1], Push(w'[2], Word(w'[3]))));
    PushInjective(w[1], Push(w[2], Word(w[3])), w'[1], Push(w'[2], Word(w'[3])));
    PushInjective(w[2], Word(w[3]), w'[2], Word(w'[3]));
    WordInjective(w[3], w'[3]);
  }

  lemma WordInjective(b: bv8, d: bv8)
    requires Word(b) == Word(d)
    ensures b == d
  {
  }

  /**
   Burst detection: damage confined to at most four consecutive bytes, anywhere in a
   string of any length, changes its CRC.
   */
  lemma BurstIsDetected(crc: bv32, before: seq<bv8>, w: seq<bv8>, w': seq<bv8>, after: seq<bv8>)
    requires |w| == |w'| <= 4 && w != w'
    ensures Crc(crc, before + w + after) != Crc(crc, before + w' + after)
  {
    hide Xor, ByteStep;
    var init := Xor(crc, 0xFFFFFFFF);
    if Crc(crc, before + w + after) == Crc(crc, before + w' + after) {
      var c := Update(init, before);
      XorCancels(Update(init, before + w + after), 0xFFFFFFFF);
      XorCancels(Update(init, before + w' + after), 0xFFFFFFFF);
      UpdateConcat(init, before + w, after);
      UpdateConcat(init, before + w', after);
      UpdateConcat(init, before, w);
      UpdateConcat(init, before, w');
      UpdateInjective(Update(c, w), Update(c, w'), after);
      var pad := seq(4 - |w|, i => 0 as bv8);
      UpdateConcat(c, w, pad);
      UpdateConcat(c, w', pad);
      assert (w + pad)[..|w|] == w && (w' + pad)[..|w|] == w';
      WordDamageIsSeen(c, w + pad, w' + pad);
    }
  }

  // ----- Slice by four -----

  /** Entry `b` of the `k`-th table: the byte followed by `k` zero bytes. */
  ghost function Slice(k: nat, b: bv8): bv32 { StepN(8 * (k + 1), Word(b)) }

  lemma {:induction false} SliceStep(n: nat, b: bv8, v: bv32)
    requires TopByteClear(v)
    ensures StepN(8 + n, Push(b, v)) == Xor(StepN(8 + n, Word(b)), StepN(n, v))
  {
    hide StepN, Step8, Xor, Word, Shl8, TopByteClear;
    StepNLinear(8 + n, Word(b), Shl8(v));
    StepNCompose(8, n, Shl8(v));
    Step8IsStepN(Shl8(v));
    Step8OfShifted(v);
  }

  lemma BytesOfWord(x: bv32)
    ensures x == LittleEndian(LowByte(x), LowByte(Shr8(x)), LowByte(Shr8(Shr8(x))), LowByte(Shr8(Shr8(Shr8(x)))))
  {
  }

  /** The shipped tables are these slices, entry by entry. */
  lemma {:induction false} TablesAreSlices(b: bv8)
    ensures Lookup(b) == Slice(0, b) && Lookup1(b) == Slice(1, b) && Lookup2(b) == Slice(2, b) && Lookup3(b) == Slice(3, b)
  {
    hide StepN, Step8, Lookup, Lookup1, Lookup2, Lookup3;
    TableIsBitwise(b);
    Table1IsShifted(b);
    Table2IsShifted(b);
    Table3IsShifted(b);
    Step8IsStepN(Word(b));
    Step8IsStepN(Lookup(b));
    Step8IsStepN(Lookup1(b));
    Step8IsStepN(Lookup2(b));
    StepNCompose(8, 8, Word(b));
    StepNCompose(16, 8, Word(b));
    StepNCompose(24, 8, Word(b));
  }

  /** The slice-by-four step on a little-endian word, with the shipped tables, is four table steps on its bytes. */
  lemma {:induction false} SliceByFour(c: bv32, b0: bv8, b1: bv8, b2: bv8, b3: bv8)
    ensures
      var x := Xor(c, LittleEndian(b0, b1, b2, b3));
      Update(c, [b0, b1, b2, b3]) ==
        Xor(Lookup3(LowByte(x)), Xor(Lookup2(LowByte(Shr8(x))), Xor(Lookup1(LowByte(Shr8(Shr8(x)))), Lookup(LowByte(Shr8(Shr8(Shr8(x))))))))
  {
    hide StepN, Xor, Word, Update, Push, TopByteClear, LowByte, Shr8, Lookup, Lookup1, Lookup2, Lookup3;
    var x := Xor(c, LittleEndian(b0, b1, b2, b3));
    UpdateOfWord(c, b0, b1, b2, b3);
    BytesOfWord(x);
    var a0, a1, a2, a3 := LowByte(x), LowByte(Shr8(x)), LowByte(Shr8(Shr8(x))), LowByte(Shr8(Shr8(Shr8(x))));
    TablesAreSlices(a0);
    TablesAreSlices(a1);
    TablesAreSlices(a2);
    TablesAreSlices(a3);
    PushHasRoom(a1, a2, a3);
    SliceStep(24, a0, Push(a1, Push(a2, Word(a3))));
    SliceStep(16, a1, Push(a2, Word(a3)));
    SliceStep(8, a2, Word(a3));
  }
}
