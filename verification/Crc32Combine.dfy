/**
 crc32_combine_ of crc32.c: repeated squaring of the GF(2) matrix that appends
 zero bits, against the CRC of a concatenation.
 */
module Crc32Combine {
  import opened CrcTable
  import opened Crc32

  // ----- GF(2) matrices -----

  function Half(v: bv32): bv32 { v >> 1 }

  function Pick(row: bv32, take: bool): bv32 { if take then row else 0 }

  /** gf2_matrix_times: the xor of the rows of `mat` picked by the bits of `vec`. */
  ghost function Times(mat: seq<bv32>, vec: bv32): bv32
    decreases |mat|
  {
    if mat == [] then 0 else Xor(Pick(mat[0], LowBit(vec)), Times(mat[1..], Half(vec)))
  }

  lemma HalfLinear(a: bv32, b: bv32)
    ensures Half(Xor(a, b)) == Xor(Half(a), Half(b))
    ensures LowBit(Xor(a, b)) == (LowBit(a) != LowBit(b))
  {
  }

  lemma PickLinear(row: bv32, x: bool, y: bool)
    ensures Pick(row, x != y) == Xor(Pick(row, x), Pick(row, y))
  {
    if x {
      if y {} else {}
    } else {
      if y {} else {}
    }
  }

  lemma {:induction false} TimesLinear(mat: seq<bv32>, a: bv32, b: bv32)
    ensures Times(mat, Xor(a, b)) == Xor(Times(mat, a), Times(mat, b))
    decreases |mat|
  {
    if mat == [] {
      assert Xor(0, 0) == 0;
    } else {
      hide Xor, LowBit, Half, Pick;
      HalfLinear(a, b);
      PickLinear(mat[0], LowBit(a), LowBit(b));
      TimesLinear(mat[1..], Half(a), Half(b));
      XorSwapMiddle(Pick(mat[0], LowBit(a)), Pick(mat[0], LowBit(b)), Times(mat[1..], Half(a)), Times(mat[1..], Half(b)));
    }
  }

  lemma {:induction false} TimesZero(mat: seq<bv32>)
    ensures Times(mat, 0) == 0
    decreases |mat|
  {
    if mat != [] {
      TimesZero(mat[1..]);
      assert Half(0) == 0 && Xor(Pick(mat[0], LowBit(0)), 0) == 0;
    }
  }

  ghost function Halves(n: nat, v: bv32): bv32
    decreases n
  {
    if n == 0 then v else Halves(n - 1, Half(v))
  }

  lemma EightHalves(n: nat, v: bv32)
    ensures Halves(n + 8, v) == Halves(n, v >> 8)
  {
    var v2 := Half(Half(v));
    var v4 := Half(Half(v2));
    var v6 := Half(Half(v4));
    assert Half(Half(v6)) == v >> 8;
    hide Half;
    assert Halves(n + 8, v) == Halves(n + 6, v2);
    assert Halves(n + 6, v2) == Halves(n + 4, v4);
    assert Halves(n + 4, v4) == Halves(n + 2, v6);
    assert Halves(n + 2, v6) == Halves(n, Half(Half(v6)));
  }

  /** A 32-bit vector is spent after 32 rows, so the row pointer never leaves the matrix. */
  lemma VectorIsSpent(v: bv32)
    ensures Halves(32, v) == 0
  {
    assert ((v >> 8) >> 8) >> 8 >> 8 == 0;
    EightHalves(24, v);
    EightHalves(16, v >> 8);
    EightHalves(8, (v >> 8) >> 8);
    EightHalves(0, ((v >> 8) >> 8) >> 8);
  }

  /** gf2_matrix_times: stops as soon as no bits are left. */
  method Gf2MatrixTimes(mat: array<bv32>, vec: bv32) returns (sum: bv32)
    requires mat.Length == 32
    ensures sum == Times(mat[..], vec)
  {
    hide Xor, Half, Pick, Halves;
    sum := 0;
    var v, row := vec, 0;
    VectorIsSpent(vec);
    assert Xor(0, Times(mat[..], vec)) == Times(mat[..], vec) by { XorCancels(0, Times(mat[..], vec)); XorZero(Times(mat[..], vec)); }
    while v != 0
      invariant row <= 32
      invariant Halves(32 - row, v) == 0
      invariant Xor(sum, Times(mat[row..], v)) == Times(mat[..], vec)
      decreases 32 - row
    {
      SpentStep(32 - row, v);
      ghost var rest := Times(mat[row + 1..], Half(v));
      assert mat[row..][1..] == mat[row + 1..];
      XorAssociates(sum, Pick(mat[row], LowBit(v)), rest);
      sum := Xor(sum, Pick(mat[row], LowBit(v)));
      v := Half(v);
      row := row + 1;
    }
    TimesZero(mat[row..]);
    XorZero(sum);
  }

  lemma XorZero(a: bv32)
    ensures Xor(a, 0) == a == Xor(0, a)
  {
  }

  lemma SpentStep(n: nat, v: bv32)
    requires Halves(n, v) == 0 && v != 0
    ensures n > 0 && Halves(n - 1, Half(v)) == 0
  {
  }

  ghost predicate IsSquareOf(sq: seq<bv32>, mat: seq<bv32>) {
    |sq| == |mat| && forall n :: 0 <= n < |mat| ==> sq[n] == Times(mat, mat[n])
  }

  /** gf2_matrix_square. */
  method Gf2MatrixSquare(square: array<bv32>, mat: array<bv32>)
    requires square.Length == mat.Length == 32 && square != mat
    modifies square
    ensures IsSquareOf(square[..], mat[..])
  {
    hide Times;
    for n := 0 to 32
      invariant mat[..] == old(mat[..])
      invariant forall j :: 0 <= j < n ==> square[j] == Times(mat[..], mat[j])
    {
      square[n] := Gf2MatrixTimes(mat, mat[n]);
    }
  }

  /** Times the square is times the matrix twice, row by row from row `k`. */
  lemma {:induction false} SquareComposes(sq: seq<bv32>, mat: seq<bv32>, k: nat, v: bv32)
    requires IsSquareOf(sq, mat) && k <= |mat|
    ensures Times(sq[k..], v) == Times(mat, Times(mat[k..], v))
    decreases |mat| - k
  {
    hide Xor, Half, Pick, LowBit;
    if k == |mat| {
      TimesZero(mat);
    } else {
      var take, rest := LowBit(v), Times(mat[k + 1..], Half(v));
      assert sq[k..][1..] == sq[k + 1..] && mat[k..][1..] == mat[k + 1..];
      SquareComposes(sq, mat, k + 1, Half(v));
      TimesLinear(mat, Pick(mat[k], take), rest);
      assert Times(mat, Pick(mat[k], take)) == Pick(Times(mat, mat[k]), take) by {
        TimesZero(mat);
        PickCases(mat[k], take);
        PickCases(Times(mat, mat[k]), take);
      }
    }
  }

  lemma PickCases(row: bv32, take: bool)
    ensures Pick(row, take) == if take then row else 0
  {
  }

  /** `mat` is the operator that appends `k` zero bits. */
  ghost predicate IsZerosOperator(mat: seq<bv32>, k: nat) {
    |mat| == 32 && forall v :: Times(mat, v) == StepN(k, v)
  }

  lemma SquareDoublesZeros(sq: seq<bv32>, mat: seq<bv32>, k: nat)
    requires IsZerosOperator(mat, k) && IsSquareOf(sq, mat)
    ensures IsZerosOperator(sq, 2 * k)
  {
    hide Times, StepN;
    forall v ensures Times(sq, v) == StepN(2 * k, v) {
      assert sq[0..] == sq && mat[0..] == mat;
      SquareComposes(sq, mat, 0, v);
      StepNCompose(k, k, v);
    }
  }

  // ----- The operator for one zero bit -----

  function Double(v: bv32): bv32 { v << 1 }

  ghost function Shl(n: nat, v: bv32): bv32
    decreases n
  {
    if n == 0 then v else Double(Shl(n - 1, v))
  }

  lemma DoubleLinear(a: bv32, b: bv32)
    ensures Double(Xor(a, b)) == Xor(Double(a), Double(b))
    ensures Double(0) == 0
  {
  }

  lemma {:induction false} ShlLinear(n: nat, a: bv32, b: bv32)
    ensures Shl(n, Xor(a, b)) == Xor(Shl(n, a), Shl(n, b))
    ensures Shl(n, 0) == 0
    ensures Shl(n, Double(a)) == Double(Shl(n, a))
    decreases n
  {
    hide Xor, Double;
    if n > 0 {
      ShlLinear(n - 1, a, b);
      DoubleLinear(Shl(n - 1, a), Shl(n - 1, b));
    }
  }

  lemma SplitEven(v: bv32)
    requires !LowBit(v)
    ensures v == Double(Half(v))
  {
  }

  lemma SplitOdd(v: bv32)
    requires LowBit(v)
    ensures v == Xor(1, Double(Half(v)))
  {
  }

  lemma SplitLowBit(v: bv32)
    ensures v == Xor(Pick(1, LowBit(v)), Double(Half(v)))
  {
    hide Xor, Double, Half, LowBit;
    if LowBit(v) {
      SplitOdd(v);
    } else {
      SplitEven(v);
      XorZero(Double(Half(v)));
    }
  }

  /** Rows 1, 2, 4, ... copy a vector that fits in them. */
  lemma {:induction false} UnitRows(rows: seq<bv32>, j: nat, v: bv32)
    requires j <= |rows| && forall n :: 0 <= n < |rows| ==> rows[n] == Shl(n, 1)
    requires Halves(|rows| - j, v) == 0
    ensures Times(rows[j..], v) == Shl(j, v)
    decreases |rows| - j
  {
    hide Xor, Half, Pick, LowBit, Double;
    ShlLinear(j, Pick(1, LowBit(v)), Double(Half(v)));
    if j < |rows| {
      var take := LowBit(v);
      assert rows[j..][1..] == rows[j + 1..];
      UnitRows(rows, j + 1, Half(v));
      SplitLowBit(v);
      ShlLinear(j, Half(v), 0);
      PickCases(Shl(j, 1), take);
      PickCases(1, take);
    }
  }

  lemma StepAsXor(v: bv32)
    ensures Step(v) == Xor(Pick(0xEDB88320, LowBit(v)), Half(v))
  {
    if v & 1 == 1 {
      XorCommutes(v >> 1, 0xEDB88320);
    } else {
      XorZero(v >> 1);
    }
  }

  lemma OneZeroBit(odd: seq<bv32>)
    requires |odd| == 32 && odd[0] == 0xEDB88320
    requires forall n :: 1 <= n < 32 ==> odd[n] == Shl(n - 1, 1)
    ensures IsZerosOperator(odd, 1)
  {
    hide Xor, Half, Pick, LowBit, Double, Step, Shl;
    forall v ensures Times(odd, v) == StepN(1, v) {
      VectorIsSpent(v);
      var rows := odd[1..];
      UnitRows(rows, 0, Half(v));
      assert rows[0..] == rows;
      assert Shl(0, Half(v)) == Half(v) by { ShlZero(Half(v)); }
      StepAsXor(v);
    }
  }

  lemma ShlZero(v: bv32)
    ensures Shl(0, v) == v
  {
  }

  lemma ApplyLowBit(k: nat, len: nat, crc: bv32)
    ensures StepN(k * len, crc) == StepN(2 * k * (len / 2), if len % 2 == 1 then StepN(k, crc) else crc)
  {
    hide StepN;
    var h := len / 2;
    if len % 2 == 1 {
      assert k * len == k + 2 * k * h by {
        assert len == 2 * h + 1;
      }
      StepNCompose(k, 2 * k * h, crc);
    } else {
      assert k * len == 2 * k * h by {
        assert len == 2 * h;
      }
    }
  }

  /** The CRC of a concatenation from the CRCs of its parts. */
  lemma CrcOfConcat(a: seq<bv8>, b: seq<bv8>)
    ensures Crc(0, a + b) == Xor(StepN(8 * |b|, Crc(0, a)), Crc(0, b))
  {
    hide Xor, Update, StepN;
    var ones: bv32 := 0xFFFFFFFF;
    var init := Xor(0, ones);
    var u := Update(init, a);
    var crc1 := Xor(u, ones);
    XorZero(ones);
    UpdateConcat(init, a, b);
    XorCancels(u, ones);
    XorCommutes(crc1, ones);
    UpdateOfSum(ones, crc1, b);
    var z, w := StepN(8 * |b|, crc1), Update(ones, b);
    XorCommutes(w, z);
    XorAssociates(z, w, ones);
  }

  /** What the starting register contributes is independent of the bytes. */
  lemma {:induction false} UpdateOfSum(c: bv32, d: bv32, s: seq<bv8>)
    ensures Update(Xor(c, d), s) == Xor(Update(c, s), StepN(8 * |s|, d))
    decreases |s|
  {
    hide Xor, Step8, StepN;
    if s == [] {
      assert StepN(0, d) == d by { StepNZero(d); }
    } else {
      var b := Word(s[0]);
      XorAssociates(c, d, b);
      XorCommutes(d, b);
      XorAssociates(c, b, d);
      Step8Linear(Xor(c, b), d);
      UpdateOfSum(ByteStep(c, s[0]), Step8(d), s[1..]);
      Step8IsStepN(d);
      StepNCompose(8, 8 * |s[1..]|, d);
    }
  }

  lemma StepNZero(c: bv32)
    ensures StepN(0, c) == c
  {
  }

  /** crc32_combine_: repeated squaring of the zeros operator, even and odd by turns. */
  method Crc32Combine(crc1: bv32, crc2: bv32, len2: int) returns (r: bv32)
    ensures r == if len2 <= 0 then crc1 else Xor(StepN(8 * len2, crc1), crc2)
    ensures forall a, b :: Crc(0, a) == crc1 && Crc(0, b) == crc2 && |b| == len2 ==> r == Crc(0, a + b)
  {
    hide Xor, StepN, Times, Update, Shl, Step, Step8, Double, Crc;
    forall a, b | Crc(0, a) == crc1 && Crc(0, b) == crc2
      ensures Crc(0, a + b) == if |b| <= 0 then crc1 else Xor(StepN(8 * |b|, crc1), crc2)
    {
      CrcOfConcat(a, b);
      if |b| == 0 {
        assert a + b == a;
      }
    }
    if len2 <= 0 {
      return crc1;
    }
    var even, odd := new bv32[32], new bv32[32];
    odd[0] := 0xEDB88320;
    var row: bv32 := 1;
    ShlZero(1);
    for n := 1 to 32
      invariant odd[0] == 0xEDB88320
      invariant row == Shl(n - 1, 1)
      invariant forall j :: 1 <= j < n ==> odd[j] == Shl(j - 1, 1)
    {
      odd[n] := row;
      row := Double(row);
      ShlNext(n - 1, 1);
    }
    OneZeroBit(odd[..]);
    Gf2MatrixSquare(even, odd);
    SquareDoublesZeros(even[..], odd[..], 1);
    Gf2MatrixSquare(odd, even);
    SquareDoublesZeros(odd[..], even[..], 2);
    ghost var k: nat := 4;
    var crc, len := crc1, len2;
    while true
      invariant len > 0
      invariant IsZerosOperator(odd[..], k)
      invariant StepN(2 * k * len, crc) == StepN(8 * len2, crc1)
      decreases len
    {
      Gf2MatrixSquare(even, odd);
      SquareDoublesZeros(even[..], odd[..], k);
      ApplyLowBit(2 * k, len, crc);
      if len % 2 == 1 {
        crc := Gf2MatrixTimes(even, crc);
      }
      len := len / 2;
      if len == 0 {
        break;
      }
      Gf2MatrixSquare(odd, even);
      SquareDoublesZeros(odd[..], even[..], 2 * k);
      ApplyLowBit(4 * k, len, crc);
      if len % 2 == 1 {
        crc := Gf2MatrixTimes(odd, crc);
      }
      len := len / 2;
      k := 4 * k;
      if len == 0 {
        break;
      }
    }
    StepNZero(crc);
    r := Xor(crc, crc2);
  }

  lemma ShlNext(n: nat, v: bv32)
    ensures Shl(n + 1, v) == Double(Shl(n, v))
  {
  }
}
