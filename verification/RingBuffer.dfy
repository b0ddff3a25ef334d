/**
 The three-pointer ring buffer of data_builder.c, as a refinement of a byte queue.
 The ghost fields are the queue: the bytes between the event read pointer and the
 write pointer, oldest first, and how many of them the read pointer has passed.
 */
module RingBuffers {
  import opened Words
  import opened Resync

  function Min(a: int, b: int): int { if a <= b then a else b }

  /** One byte into the lowest byte of the register, which then moves up. */
  function TakeByte(val: bv32, b: bv8): bv32 { (val | b as bv32) << 8 }

  function Gather(s: seq<bv8>): bv32 {
    if s == [] then 0 else TakeByte(Gather(s[..|s| - 1]), s[|s| - 1])
  }

  /** ntohl on a little-endian host. */
  function Swap(w: bv32): bv32 {
    BigEndian((w & 0xFF) as bv8, ((w >> 8) & 0xFF) as bv8, ((w >> 16) & 0xFF) as bv8, (w >> 24) as bv8)
  }

  /** What pop32 makes of four bytes that go round the end of the buffer. */
  function RoundTheEnd(s: seq<bv8>): bv32
    requires |s| == 4
  {
    Swap(Gather(s))
  }

  lemma TakeFour(a: bv8, b: bv8, c: bv8, d: bv8)
    ensures TakeByte(TakeByte(TakeByte(TakeByte(0, a), b), c), d) == BigEndian(b, c, d, 0)
  {
  }

  lemma SwapIs(a: bv8, b: bv8, c: bv8, d: bv8)
    ensures Swap(BigEndian(a, b, c, d)) == BigEndian(d, c, b, a)
  {
  }

  lemma {:induction false} GatherFour(s: seq<bv8>)
    requires |s| == 4
    ensures Gather(s) == BigEndian(s[1], s[2], s[3], 0)
  {
    TakeFour(s[0], s[1], s[2], s[3]);
    hide TakeByte, BigEndian;
    assert s[..3][..2] == s[..2] && s[..2][..1] == s[..1] && s[..1][..0] == [];
    assert Gather(s[..1]) == TakeByte(Gather([]), s[0]);
    assert Gather(s[..2]) == TakeByte(Gather(s[..1]), s[1]);
    assert Gather(s[..3]) == TakeByte(Gather(s[..2]), s[2]);
  }

  lemma BigEndianInjective(a: bv8, b: bv8, c: bv8, d: bv8, a': bv8, b': bv8, c': bv8, d': bv8)
    requires BigEndian(a, b, c, d) == BigEndian(a', b', c', d')
    ensures a == a' && b == b' && c == c' && d == d'
  {
    BytesOfBigEndian(a, b, c, d);
    BytesOfBigEndian(a', b', c', d');
    hide BigEndian, ToBytes;
    var s, s' := [a, b, c, d], [a', b', c', d'];
    assert s == s';
    assert s[0] == s'[0] && s[1] == s'[1] && s[2] == s'[2] && s[3] == s'[3];
  }

  /** Round the end pop32 loses the first byte and reverses the others: it is right only by accident. */
  lemma {:induction false} RoundTheEndIsRight(s: seq<bv8>)
    requires |s| == 4
    ensures RoundTheEnd(s) == BigEndian(0, s[3], s[2], s[1])
    ensures RoundTheEnd(s) == WordAt(s, 0) <==> s[0] == 0 && s[1] == s[3]
  {
    GatherFour(s);
    SwapIs(s[1], s[2], s[3], 0);
    hide BigEndian, Gather, Swap;
    if RoundTheEnd(s) == WordAt(s, 0) {
      BigEndianInjective(0, s[3], s[2], s[1], s[0], s[1], s[2], s[3]);
    }
  }

  class RingBuffer {
    const buffer: array<bv8>
    var eventReadPointer: nat
    var readPointer: nat
    var writePointer: nat
    var isEmpty: bool

    ghost var contents: seq<bv8>
    ghost var ahead: nat

    /** BUFFER_SIZE. */
    function Size(): nat { buffer.Length }

    ghost function Unread(): seq<bv8>
      requires ahead <= |contents|
      reads this
    {
      contents[ahead..]
    }

    ghost predicate Valid()
      reads this, buffer
      ensures Valid() ==> ahead <= |contents| <= Size()
    {
      && PointersOk(Size(), eventReadPointer, readPointer, writePointer, isEmpty, ahead, |contents|)
      && Stores(buffer[..], eventReadPointer, contents)
    }

    /** The pointers of a buffer that retains `retained` bytes, `ahead` of them already read. */
    static ghost predicate PointersOk(size: nat, erp: nat, rp: nat, wp: nat, empty: bool, ahead: nat, retained: nat) {
      && erp < size && rp < size && wp < size
      && ahead <= retained <= size
      && rp == (if erp + ahead < size then erp + ahead else erp + ahead - size)
      && wp == (if erp + retained < size then erp + retained else erp + retained - size)
      && (empty <==> retained == 0)
      && (empty ==> erp == rp == wp == 0)
    }

    /** `data` lies in `ring` from `start` on, going round the end. */
    static ghost predicate Stores(ring: seq<bv8>, start: nat, data: seq<bv8>)
      requires start < |ring| && |data| <= |ring|
    {
      forall j :: 0 <= j < |data| ==> data[j] == ring[if start + j < |ring| then start + j else start + j - |ring|]
    }

    /** The read pointer has not lapped the event read pointer, so "all read" cannot look like "full". */
    ghost predicate Settled()
      reads this
    {
      ahead < Size()
    }

    /** Whole 32-bit words: no word straddles the end of the buffer. */
    ghost predicate Aligned()
      reads this
    {
      Whole(Size()) && Whole(eventReadPointer) && Whole(ahead) && Whole(|contents|)
    }

    constructor (size: nat)
      requires 0 < size
      ensures Valid() && Settled() && fresh(buffer) && Size() == size
      ensures contents == [] && ahead == 0 && eventReadPointer == 0
    {
      buffer := new bv8[size];
      eventReadPointer, readPointer, writePointer, isEmpty := 0, 0, 0, true;
      contents, ahead := [], 0;
    }

    /** The contiguous free space: up to the end of the buffer, or to the oldest byte. */
    ghost function Space(): nat
      requires Valid()
      reads this, buffer
    {
      Min(Size() - |contents|, Size() - writePointer)
    }

    method ContiguousSpaceAvailable() returns (n: nat)
      requires Valid()
      modifies this
      ensures Valid() && contents == old(contents) && ahead == old(ahead)
      ensures eventReadPointer == old(eventReadPointer) && readPointer == old(readPointer)
      ensures writePointer == old(writePointer) && isEmpty == old(isEmpty)
      ensures n == Space() == Min(Size() - |contents|, Size() - writePointer)
    {
      if isEmpty {
        eventReadPointer, readPointer, writePointer := 0, 0, 0;
        return Size();
      }
      if writePointer == eventReadPointer {
        return 0;
      }
      if writePointer < eventReadPointer {
        return eventReadPointer - writePointer;
      }
      return Size() - writePointer;
    }

    function ContiguousReadable(): (n: nat)
      requires Valid() && Settled()
      reads this, buffer
      ensures n == Min(|contents| - ahead, Size() - readPointer)
      ensures n == 0 <==> ahead == |contents|
    {
      hide Stores;
      if isEmpty then 0
      else if readPointer == writePointer && eventReadPointer == writePointer then Size() - readPointer
      else if readPointer == writePointer then 0
      else if writePointer < readPointer then Size() - readPointer
      else writePointer - readPointer
    }

    function Readable(): (n: nat)
      requires Valid() && Settled()
      reads this, buffer
      ensures n == |contents| - ahead
    {
      hide Stores;
      if isEmpty then 0
      else if readPointer == writePointer && eventReadPointer == writePointer then Size()
      else if readPointer == writePointer then 0
      else if readPointer > writePointer then writePointer + (Size() - readPointer)
      else writePointer - readPointer
    }

    /** The bytes of the readable contiguous block are the next bytes of the queue. */
    lemma ReadableByte(i: nat)
      requires Valid() && i < |contents| - ahead && readPointer + i < Size()
      ensures buffer[readPointer + i] == Unread()[i]
    {
      assert Unread()[i] == contents[ahead + i];
    }

    /** The big-endian word `i` bytes into the readable contiguous block. */
    function PeekWord(i: nat): (w: bv32)
      requires Valid() && i + 4 <= |Unread()| && readPointer + i + 4 <= Size()
      reads this, buffer
      ensures w == WordAt(Unread(), i)
    {
      hide Stores, PointersOk, BigEndian;
      ReadableByte(i);
      ReadableByte(i + 1);
      ReadableByte(i + 2);
      ReadableByte(i + 3);
      WordAt(buffer[..], readPointer + i)
    }

    /** `data` has already been copied to the write pointer; account for it. */
    method UpdateWritePointer(nbytes: nat, ghost data: seq<bv8>)
      requires Valid() && nbytes == |data|
      requires nbytes <= Space()
      requires buffer[writePointer..writePointer + nbytes] == data
      modifies this
      ensures Valid()
      ensures contents == old(contents) + data && ahead == old(ahead)
      ensures eventReadPointer == old(eventReadPointer) && readPointer == old(readPointer)
    {
      hide Stores;
      if nbytes == 0 {
        assert contents + data == contents;
        return;
      }
      var space := ContiguousSpaceAvailable();
      StoresMore(buffer[..], eventReadPointer, contents, data, writePointer);
      if nbytes <= space {
        writePointer := writePointer + nbytes;
      } else {
        // Neither the wrap-around write nor the overwrite error is ever reached.
        assert false;
      }
      isEmpty := false;
      if writePointer == Size() {
        writePointer := 0;
      }
      contents := contents + data;
    }

    static lemma StoresMore(ring: seq<bv8>, start: nat, data: seq<bv8>, more: seq<bv8>, at: nat)
      requires start < |ring| && |data| + |more| <= |ring| && at + |more| <= |ring|
      requires Stores(ring, start, data)
      requires at == if start + |data| < |ring| then start + |data| else start + |data| - |ring|
      requires ring[at..at + |more|] == more
      ensures Stores(ring, start, data + more)
    {
      forall j | |data| <= j < |data| + |more|
        ensures (data + more)[j] == ring[if start + j < |ring| then start + j else start + j - |ring|]
      {
        assert more[j - |data|] == ring[at..at + |more|][j - |data|];
      }
    }

    static lemma StoresElsewhere(ring: seq<bv8>, ring': seq<bv8>, start: nat, data: seq<bv8>, at: nat, n: nat)
      requires start < |ring| == |ring'| && |data| + n <= |ring| && at + n <= |ring|
      requires at == if start + |data| < |ring| then start + |data| else start + |data| - |ring|
      requires forall j :: 0 <= j < |ring| && !(at <= j < at + n) ==> ring[j] == ring'[j]
      requires Stores(ring, start, data)
      ensures Stores(ring', start, data)
    {
    }

    /** recvmsg into the contiguous free space, then the pointer update of pull_from_fpga. */
    method Receive(data: seq<bv8>)
      requires Valid()
      requires |data| <= Space()
      modifies this, buffer
      ensures Valid()
      ensures contents == old(contents) + data && ahead == old(ahead)
      ensures eventReadPointer == old(eventReadPointer) && readPointer == old(readPointer)
    {
      hide Stores;
      for i := 0 to |data|
        modifies buffer
        invariant forall j :: 0 <= j < Size() && !(writePointer <= j < writePointer + |data|) ==> buffer[j] == old(buffer[j])
        invariant buffer[writePointer..writePointer + i] == data[..i]
      {
        buffer[writePointer + i] := data[i];
      }
      StoresElsewhere(old(buffer[..]), buffer[..], eventReadPointer, contents, writePointer, |data|);
      UpdateWritePointer(|data|, data);
    }

    method UpdateReadPointer(nbytes: nat)
      requires Valid() && nbytes <= |contents| - ahead
      modifies this
      ensures Valid()
      ensures contents == old(contents) && ahead == old(ahead) + nbytes
      ensures eventReadPointer == old(eventReadPointer) && writePointer == old(writePointer)
    {
      hide Stores;
      if nbytes == 0 {
        return;
      }
      if nbytes <= ContiguousReadable() {
        readPointer := readPointer + nbytes;
      } else if nbytes <= Readable() {
        readPointer := nbytes - (Size() - readPointer);
      } else {
        // Reading past the write pointer is never reached.
        assert false;
      }
      if readPointer == Size() {
        readPointer := 0;
      }
      ahead := ahead + nbytes;
    }

    static lemma StoresLess(ring: seq<bv8>, start: nat, data: seq<bv8>, n: nat, start': nat)
      requires start < |ring| && n <= |data| <= |ring|
      requires start' == if start + n < |ring| then start + n else start + n - |ring|
      requires Stores(ring, start, data)
      ensures start' < |ring| && Stores(ring, start', data[n..])
      ensures Stores(ring, 0, [])
    {
    }

    /**
     Release everything up to the read pointer. When the buffer is completely full and
     nothing past the event read pointer has been read, the three pointers are equal and
     the code takes the full buffer for an empty one: all of it is dropped.
     */
    method UpdateEventReadPointer()
      requires Valid()
      modifies this
      ensures Valid() && ahead == 0
      ensures contents == if |old(Unread())| == Size() then [] else old(Unread())
      ensures eventReadPointer == 0 || eventReadPointer == old(readPointer)
      ensures writePointer == 0 || writePointer == old(writePointer)
    {
      hide Stores;
      StoresLess(buffer[..], eventReadPointer, contents, ahead, readPointer);
      contents, ahead := contents[ahead..], 0;
      eventReadPointer := readPointer;
      if eventReadPointer == writePointer {
        readPointer, eventReadPointer, writePointer := 0, 0, 0;
        isEmpty := true;
        contents := [];
      }
    }

    lemma AlignedReadPointer()
      requires Valid() && Aligned()
      ensures Whole(readPointer)
    {
      hide Stores, Whole;
      WholeSum(eventReadPointer, ahead);
      WholeSum(eventReadPointer + ahead, Size());
    }

    lemma AlignedWritePointer()
      requires Valid() && Whole(Size()) && Whole(eventReadPointer) && Whole(|contents|)
      ensures Whole(writePointer)
    {
      hide Stores, Whole;
      WholeSum(eventReadPointer, |contents|);
      WholeSum(eventReadPointer + |contents|, Size());
    }

    /** With everything read released, aligned pointers mean aligned words. */
    lemma AlignedAgain()
      requires Valid() && Whole(Size()) && ahead == 0 && Whole(readPointer) && Whole(writePointer)
      ensures Aligned()
    {
      hide Stores, Whole;
      WholeSum(writePointer, eventReadPointer);
      WholeSum(writePointer, Size());
      WholeSum(writePointer + Size(), eventReadPointer);
      ZeroIsWhole();
    }

    lemma AlignedBlock()
      requires Valid() && Settled() && Aligned()
      ensures Whole(readPointer) && Whole(ContiguousReadable()) && Whole(|Unread()|)
    {
      hide Stores, ContiguousReadable, Whole;
      AlignedReadPointer();
      WholeSum(|contents|, ahead);
      WholeSum(Size(), readPointer);
    }

    /** The contiguous free space is a whole number of words. */
    lemma AlignedSpace(space: nat, n: nat)
      requires Valid() && Aligned() && space == Space() && Whole(n)
      ensures Whole(Min(n, space)) && Whole(|contents| + Min(n, space))
    {
      hide Stores, Whole;
      WholeSum(eventReadPointer, |contents|);
      WholeSum(eventReadPointer + |contents|, Size());
      WholeSum(Size(), |contents|);
      WholeSum(Size(), writePointer);
      WholeSum(|contents|, Min(n, space));
    }

    /** The byte-wise branch of pop32, up to ntohl: `n` bytes from the read pointer, then the rest from the start. */
    method GatherRoundTheEnd(n: nat) returns (val: bv32)
      requires Valid() && n < 4 <= |Unread()| && readPointer + n == Size()
      ensures val == Gather(Unread()[..4])
    {
      hide Stores;
      val := 0;
      for i := 0 to n
        invariant val == Gather(Unread()[..i])
      {
        ReadableByte(i);
        val := TakeByte(val, buffer[readPointer + i]);
        assert Unread()[..i + 1][..i] == Unread()[..i];
      }
      for i := 0 to 4 - n
        invariant val == Gather(Unread()[..n + i])
      {
        WrappedByte(n + i);
        val := TakeByte(val, buffer[i]);
        assert Unread()[..n + i + 1][..n + i] == Unread()[..n + i];
      }
    }

    lemma WrappedByte(i: nat)
      requires Valid() && i < |contents| - ahead && Size() <= readPointer + i
      ensures buffer[readPointer + i - Size()] == Unread()[i]
    {
      assert Unread()[i] == contents[ahead + i];
    }

    /**
     pop32: the next big-endian word, when four bytes are readable. Round the end of the buffer the
     bytes come out in the wrong order and the first one is lost, but an aligned word never lies there.
     */
    method Pop32() returns (ok: bool, val: bv32)
      requires Valid() && Settled()
      modifies this
      ensures Valid() && (old(Aligned()) ==> Aligned()) && eventReadPointer == old(eventReadPointer) && contents == old(contents)
      ensures ok <==> |old(Unread())| >= 4
      ensures ahead == old(ahead) + if ok then 4 else 0
      ensures ok ==> val == if old(ContiguousReadable()) >= 4 then WordAt(old(Unread()), 0) else RoundTheEnd(old(Unread())[..4])
      ensures ok && old(Aligned()) ==> val == WordAt(old(Unread()), 0)
    {
      hide Stores, BigEndian, Gather, Swap;
      var contiguous, total := ContiguousReadable(), Readable();
      if total < 4 {
        return false, 0;
      }
      ghost var wasAligned := Aligned();
      if wasAligned {
        AlignedBlock();
        WholeSum(ahead, 4);
      }
      if contiguous >= 4 {
        val := PeekWord(0);
      } else {
        val := GatherRoundTheEnd(contiguous);
        val := Swap(val);
      }
      UpdateReadPointer(4);
      ok := true;
    }

    /** Releasing what has been read keeps the words aligned. */
    method ReleaseWords()
      requires Valid() && Aligned() && |Unread()| < Size()
      modifies this
      ensures Valid() && Aligned() && ahead == 0
      ensures Unread() == contents == old(Unread())
    {
      hide Stores;
      AlignedReadPointer();
      WholeSum(|contents|, ahead);
      UpdateEventReadPointer();
    }

    /** Move the read pointer over `nbytes` bytes and release everything up to it. */
    method ReadAndRelease(nbytes: nat)
      requires Valid() && Aligned() && Whole(nbytes) && nbytes <= |Unread()|
      requires nbytes == 0 ==> |Unread()| < Size()
      modifies this
      ensures Valid() && Aligned() && ahead == 0
      ensures Unread() == contents == old(Unread())[nbytes..]
    {
      hide Stores, Whole;
      WholeSum(ahead, nbytes);
      UpdateReadPointer(nbytes);
      ReleaseWords();
    }

    // ----- Resynchronisation -----

    /** Bytes skipped without looking: a tail too short for the marker, when more follows at the start. */
    ghost function SearchedFrom(): nat
      requires Valid() && Settled()
      reads this, buffer
    {
      if ContiguousReadable() < 4 then ContiguousReadable() else 0
    }

    /** The contiguous block that find_event_start looks through. */
    ghost function Searched(): seq<bv8>
      requires Valid() && Settled()
      reads this, buffer
    {
      var n := ContiguousReadable();
      if n < 4 then Unread()[n..] else Unread()[..n]
    }

    /** find_event_start: look for the bytes of `marker`, lowest byte first, from the read pointer on. */
    method FindEventStart(marker: bv32) returns (found: bool)
      requires Valid() && Settled()
      modifies this
      ensures Valid()
      ensures found <==> FirstMarker(old(Searched()), marker) < |old(Searched())|
      ensures found ==>
        var at := old(SearchedFrom()) + FirstMarker(old(Searched()), marker);
        && ahead == 0
        && contents == if at == 0 && |old(Unread())| == Size() then [] else old(Unread())[at..]
      ensures !found ==>
        if |old(Searched())| < 4 then contents == old(contents) && ahead == old(ahead)
        else ahead == 0 && contents == old(Unread())[old(SearchedFrom()) + |old(Searched())|..]
      ensures old(Aligned()) && (!found || Whole(readPointer) || Whole(FirstMarker(old(Searched()), marker))) ==> Aligned()
    {
      hide Stores, FirstMarker, MarkerAt, Whole;
      ghost var wasAligned := Aligned();
      if wasAligned {
        AlignedBlock();
        WholeIsAWord(ContiguousReadable());
      }
      var contiguous, total := ContiguousReadable(), Readable();
      if contiguous < 4 && total - contiguous < 4 {
        NoRoomForMarker(Searched(), marker);
        return false;
      }
      ghost var skipped := SearchedFrom();
      if contiguous < 4 {
        UpdateReadPointer(contiguous);
        contiguous := total - contiguous;
      }
      assert Unread()[..contiguous] == old(Searched());
      found := SkipToMarker(marker, contiguous);
      if wasAligned {
        if Whole(ahead - old(ahead)) {
          WholeSum(old(ahead), ahead - old(ahead));
          AlignedReadPointer();
        }
        AlignedWritePointer();
        ZeroIsWhole();
      }
      UpdateEventReadPointer();
      if wasAligned && Whole(readPointer) {
        AlignedAgain();
      }
    }

    /** The search loop of find_event_start over the `contiguous` readable bytes at the read pointer. */
    method SkipToMarker(marker: bv32, contiguous: nat) returns (found: bool)
      requires Valid() && 4 <= contiguous <= |Unread()| && readPointer + contiguous <= Size()
      modifies this
      ensures Valid() && contents == old(contents)
      ensures eventReadPointer == old(eventReadPointer) && writePointer == old(writePointer)
      ensures found <==> FirstMarker(old(Unread())[..contiguous], marker) < contiguous
      ensures ahead == old(ahead) + FirstMarker(old(Unread())[..contiguous], marker)
    {
      hide Stores, FirstMarker;
      found := false;
      var i := 0;
      ghost var block := Unread()[..contiguous];
      while i < contiguous - 3
        invariant Valid() && contents == old(contents) && ahead == old(ahead) + i
        invariant eventReadPointer == old(eventReadPointer) && writePointer == old(writePointer)
        invariant i <= contiguous - 3
        invariant readPointer == old(readPointer) + i
        invariant forall j :: 0 <= j < i ==> !MarkerAt(block, j, marker)
      {
        if MarkerHere(marker, block, i) {
          found := true;
          break;
        }
        UpdateReadPointer(1);
        i := i + 1;
      }
      FirstMarkerIs(block, marker, i, found);
      if !found {
        UpdateReadPointer(3);
      }
    }

    predicate MarkerHere(marker: bv32, ghost block: seq<bv8>, ghost i: nat)
      requires Valid() && readPointer + 4 <= Size()
      requires i + 4 <= |block| && |Unread()| >= 4 && Unread()[..4] == block[i..i + 4]
      reads this, buffer
      ensures MarkerHere(marker, block, i) == MarkerAt(block, i, marker)
    {
      hide Stores;
      ReadableByte(0);
      ReadableByte(1);
      ReadableByte(2);
      ReadableByte(3);
      var four := block[i..i + 4];
      assert four[0] == block[i] && four[1] == block[i + 1] && four[2] == block[i + 2] && four[3] == block[i + 3];
      MarkerAt(buffer[..], readPointer, marker)
    }
  }
}
