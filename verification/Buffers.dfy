/** Big-endian stores into a byte buffer. */
module Buffers {
  import opened Words

  /** `s` with `t` written over it from `at` on. */
  function Splice(s: seq<bv8>, at: nat, t: seq<bv8>): (r: seq<bv8>)
    requires at + |t| <= |s|
    ensures |r| == |s| && r[..at + |t|] == s[..at] + t && r[at..at + |t|] == t && r[at + |t|..] == s[at + |t|..]
  {
    s[..at] + t + s[at + |t|..]
  }

  lemma SpliceOn(s: seq<bv8>, at: nat, t: seq<bv8>, u: seq<bv8>)
    requires at + |t| + |u| <= |s|
    ensures Splice(Splice(s, at, t), at + |t|, u) == Splice(s, at, t + u)
  {
  }

  lemma SpliceIsStore(s: seq<bv8>, at: nat, w: bv32)
    requires at + 4 <= |s|
    ensures Splice(s, at, ToBytes(w)) == StoreWord(s, at, w)
  {
  }

  /** Store htonl(w). */
  method PutWord(buffer: array<bv8>, at: nat, w: bv32)
    requires at + 4 <= buffer.Length
    modifies buffer
    ensures buffer[..] == Splice(old(buffer[..]), at, ToBytes(w))
  {
    hide ToBytes;
    var s := ToBytes(w);
    buffer[at], buffer[at + 1], buffer[at + 2], buffer[at + 3] := s[0], s[1], s[2], s[3];
  }
}
