/** crc8.c: the table built by init_crc8 against the bitwise CRC-8 with polynomial 0x07. */
module Crc8 {
  /** One shift of the CRC-8 register (polynomial x^8 + x^2 + x + 1, as in ITU-T I.432.1 header error control). */
  function Step(c: bv8): bv8 {
    (c << 1) ^ (if c & 0x80 != 0 then 0x07 else 0)
  }

  ghost function StepN(k: nat, c: bv8): bv8
    decreases k
  {
    if k == 0 then c else Step(StepN(k - 1, c))
  }

  function ByteStep(c: bv8, m: bv8): bv8 {
    Step(Step(Step(Step(Step(Step(Step(Step(c ^ m))))))))
  }

  /** The CRC of `s` continued from `c`. */
  function Update(c: bv8, s: seq<bv8>): bv8
    decreases |s|
  {
    if s == [] then c else ByteStep(Update(c, s[..|s| - 1]), s[|s| - 1])
  }

  lemma {:induction false} UpdateConcat(c: bv8, a: seq<bv8>, b: seq<bv8>)
    ensures Update(c, a + b) == Update(Update(c, a), b)
    decreases |b|
  {
    hide ByteStep;
    if b == [] {
      assert a + b == a;
    } else {
      var n := |b| - 1;
      assert (a + b)[..|a + b| - 1] == a + b[..n];
      UpdateConcat(c, a, b[..n]);
    }
  }

  /** The whole CRC of `s`: the register starts at zero, and 0x55 is added at the end. */
  function Crc(s: seq<bv8>): bv8 {
    Update(0, s) ^ 0x55
  }

  /** The check value that is published for this CRC: that of the nine characters 1 to 9. */
  lemma {:induction false} CheckValue()
    ensures Crc([0x31, 0x32, 0x33, 0x34, 0x35, 0x36, 0x37, 0x38, 0x39]) == 0xA1
  {
    var s := [0x31, 0x32, 0x33, 0x34, 0x35, 0x36, 0x37, 0x38, 0x39];
    UpdateThree(0, s);
    UpdateThree(0, s[..6]);
    UpdateThree(0, s[..3]);
    assert s[..6][..3] == s[..3] && s[..3][..0] == [];
    hide Update;
    CheckRegisters();
  }

  lemma CheckRegisters()
    ensures ByteStep(ByteStep(ByteStep(0, 0x31), 0x32), 0x33) == 0xC0
    ensures ByteStep(ByteStep(ByteStep(0xC0, 0x34), 0x35), 0x36) == 0xFD
    ensures ByteStep(ByteStep(ByteStep(0xFD, 0x37), 0x38), 0x39) == 0xA1 ^ 0x55
  {
  }

  lemma {:induction false} UpdateThree(c: bv8, s: seq<bv8>)
    requires |s| >= 3
    ensures
      var n := |s| - 3;
      Update(c, s) == ByteStep(ByteStep(ByteStep(Update(c, s[..n]), s[n]), s[n + 1]), s[n + 2])
  {
    hide ByteStep;
    var n := |s| - 3;
    assert s[..n + 2][..n + 1] == s[..n + 1] && s[..n + 1][..n] == s[..n];
    assert Update(c, s) == ByteStep(Update(c, s[..n + 2]), s[n + 2]);
    assert Update(c, s[..n + 2]) == ByteStep(Update(c, s[..n + 1]), s[n + 1]);
    assert Update(c, s[..n + 1]) == ByteStep(Update(c, s[..n]), s[n]);
  }

  lemma ByteStepIsStepN(c: bv8, m: bv8)
    ensures ByteStep(c, m) == StepN(8, c ^ m)
  {
    hide Step;
    assert StepN(4, c ^ m) == Step(Step(Step(Step(c ^ m))));
  }

  /** The lookup table and the flag that says whether it has been filled. */
  class Table {
    const entries: array<bv8>
    var made: bool

    ghost predicate Valid()
      reads this, entries
    {
      entries.Length == 256 && (made ==> forall i :: 0 <= i < 256 ==> entries[i] == StepN(8, i as bv8))
    }

    constructor ()
      ensures Valid() && fresh(entries)
    {
      entries := new bv8[256];
      made := false;
    }

    /** init_crc8: eight shifts of every byte value. */
    method Init()
      requires entries.Length == 256
      modifies entries
      ensures forall i :: 0 <= i < 256 ==> entries[i] == StepN(8, i as bv8)
    {
      hide Step;
      for i := 0 to 256
        invariant forall n :: 0 <= n < i ==> entries[n] == StepN(8, n as bv8)
      {
        var crc := i as bv8;
        for j := 0 to 8
          invariant crc == StepN(j, i as bv8)
        {
          crc := Step(crc);
        }
        entries[i] := crc;
      }
    }

    /** crc8: append one byte to the CRC, filling the table on first use. */
    method Append(crc: bv8, m: bv8) returns (r: bv8)
      requires Valid()
      modifies this, entries
      ensures Valid()
      ensures r == ByteStep(crc, m)
    {
      hide Step, ByteStep;
      if !made {
        Init();
        made := true;
      }
      r := entries[(crc ^ m) as int];
      ByteStepIsStepN(crc, m);
    }
  }
}
