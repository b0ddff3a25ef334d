/**
 Bytes and 32-bit words. Everything on the wire, and everything in the event
 buffer, is big-endian; the host of data_builder.c is little-endian.
 */
module Words {
  /** A whole number of 32-bit words. */
  predicate Whole(n: int) { n % 4 == 0 }

  lemma WholeSum(a: int, b: int)
    requires Whole(a) && Whole(b)
    ensures Whole(a + b) && Whole(a - b)
  {
  }

  lemma ZeroIsWhole()
    ensures Whole(0) && Whole(4)
  {
  }

  lemma WholeRoom(a: int, b: int)
    requires Whole(a) && Whole(b)
    ensures a < b ==> a + 4 <= b
  {
  }

  lemma WholeIsAWord(n: nat)
    requires Whole(n)
    ensures n == 0 || n >= 4
  {
  }

  function BigEndian(b0: bv8, b1: bv8, b2: bv8, b3: bv8): bv32 {
    (b0 as bv32 << 24) | (b1 as bv32 << 16) | (b2 as bv32 << 8) | b3 as bv32
  }

  /** The four bytes of `w`, most significant first: what storing htonl(w) leaves in memory. */
  function ToBytes(w: bv32): (s: seq<bv8>)
    ensures |s| == 4
  {
    [(w >> 24) as bv8, ((w >> 16) & 0xFF) as bv8, ((w >> 8) & 0xFF) as bv8, (w & 0xFF) as bv8]
  }

  lemma BigEndianOfBytes(w: bv32)
    ensures var s := ToBytes(w); BigEndian(s[0], s[1], s[2], s[3]) == w
  {
  }

  lemma BytesOfBigEndian(b0: bv8, b1: bv8, b2: bv8, b3: bv8)
    ensures ToBytes(BigEndian(b0, b1, b2, b3)) == [b0, b1, b2, b3]
  {
  }

  function WordAt(s: seq<bv8>, i: nat): bv32
    requires i + 4 <= |s|
  {
    BigEndian(s[i], s[i + 1], s[i + 2], s[i + 3])
  }

  function StoreWord(s: seq<bv8>, i: nat, w: bv32): (r: seq<bv8>)
    requires i + 4 <= |s|
    ensures |r| == |s|
  {
    s[..i] + ToBytes(w) + s[i + 4..]
  }

  /** A stored word reads back, and leaves every word it does not overlap alone. */
  lemma WordAtStoreWord(s: seq<bv8>, i: nat, w: bv32, j: nat)
    requires i + 4 <= |s| && j + 4 <= |s|
    requires i == j || i + 4 <= j || j + 4 <= i
    ensures WordAt(StoreWord(s, i, w), j) == if i == j then w else WordAt(s, j)
  {
    BigEndianOfBytes(w);
    hide BigEndian, ToBytes;
    if i == j {
      assert StoreWord(s, i, w)[i..i + 4] == ToBytes(w);
    }
  }

  /** The whole words of a byte string. */
  function WordsOf(s: seq<bv8>): (ws: seq<bv32>)
    ensures |ws| == |s| / 4
  {
    seq(|s| / 4, i requires 0 <= i < |s| / 4 => WordAt(s, 4 * i))
  }

  lemma SliceMore(net: seq<bv8>, from: nat, mid: nat, n: nat)
    requires from <= mid <= mid + n <= |net|
    ensures net[from..mid + n] == net[from..mid] + net[mid..][..n]
  {
  }

  lemma WordsConcat(a: seq<bv8>, b: seq<bv8>)
    requires Whole(|a|)
    ensures WordsOf(a + b) == WordsOf(a) + WordsOf(b)
  {
    hide BigEndian;
    assert |a + b| / 4 == |a| / 4 + |b| / 4;
    forall i | 0 <= i < |a + b| / 4
      ensures WordsOf(a + b)[i] == (WordsOf(a) + WordsOf(b))[i]
    {
      if i >= |a| / 4 {
        assert 4 * i - |a| == 4 * (i - |a| / 4);
      }
    }
  }

  /** The bytes of a string of words. */
  function Flatten(ws: seq<bv32>): (s: seq<bv8>)
    ensures |s| == 4 * |ws|
  {
    if ws == [] then [] else Flatten(ws[..|ws| - 1]) + ToBytes(ws[|ws| - 1])
  }

  lemma FlattenOne(w: bv32)
    ensures Flatten([w]) == ToBytes(w)
  {
    hide ToBytes;
    assert [w][..0] == [];
    assert Flatten([w]) == Flatten([]) + ToBytes(w);
  }

  lemma {:induction false} FlattenConcat(a: seq<bv32>, b: seq<bv32>)
    ensures Flatten(a + b) == Flatten(a) + Flatten(b)
  {
    hide ToBytes;
    if b == [] {
      assert a + b == a;
    } else {
      var n := |b| - 1;
      assert (a + b)[..|a + b| - 1] == a + b[..n];
      FlattenConcat(a, b[..n]);
    }
  }

  lemma {:induction false} WordsOfFlatten(ws: seq<bv32>)
    ensures WordsOf(Flatten(ws)) == ws
  {
    if ws != [] {
      hide BigEndian, ToBytes;
      var n := |ws| - 1;
      WordsOfFlatten(ws[..n]);
      WordsConcat(Flatten(ws[..n]), ToBytes(ws[n]));
      BigEndianOfBytes(ws[n]);
      assert WordsOf(ToBytes(ws[n])) == [ws[n]];
    }
  }
}
