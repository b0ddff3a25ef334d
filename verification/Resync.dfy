/**
 The search for the start of an event while reeling, as a fact about the byte stream: which blocks of it
 were looked through, and where the next piece that is parsed begins.
 */
module Resync {
  import opened Words

  predicate MarkerAt(s: seq<bv8>, i: nat, marker: bv32)
    requires i + 4 <= |s|
  {
    && s[i] == (marker & 0xFF) as bv8
    && s[i + 1] == ((marker & 0xFF00) >> 8) as bv8
    && s[i + 2] == ((marker & 0xFF0000) >> 16) as bv8
    && s[i + 3] == ((marker & 0xFF000000) >> 24) as bv8
  }

  /** Where the first marker of `s` starts, or |s| when it holds none. */
  ghost function FirstMarker(s: seq<bv8>, marker: bv32): (i: nat)
    ensures i == |s| || (i + 4 <= |s| && MarkerAt(s, i, marker))
    ensures forall j :: 0 <= j < i && j + 4 <= |s| ==> !MarkerAt(s, j, marker)
    decreases |s|
  {
    if |s| < 4 then |s|
    else if MarkerAt(s, 0, marker) then 0
    else
      var i := FirstMarker(s[1..], marker);
      assert forall j :: 0 < j && j + 4 <= |s| ==> MarkerAt(s, j, marker) == MarkerAt(s[1..], j - 1, marker);
      i + 1
  }

  lemma NoRoomForMarker(s: seq<bv8>, marker: bv32)
    requires |s| < 4
    ensures FirstMarker(s, marker) == |s|
  {
  }

  lemma FirstMarkerIs(s: seq<bv8>, marker: bv32, i: nat, found: bool)
    requires i + 3 <= |s|
    requires forall j :: 0 <= j < i ==> !MarkerAt(s, j, marker)
    requires if found then i + 4 <= |s| && MarkerAt(s, i, marker) else i + 3 == |s|
    ensures FirstMarker(s, marker) == if found then i else |s|
  {
    hide MarkerAt;
    var first := FirstMarker(s, marker);
  }

  // ----- The blocks of the stream that were searched -----

  /** The bytes of the stream that one call of find_event_start looked through. */
  datatype Block = Block(from: nat, to: nat)

  /** Where the search goes on that began at `from` and has been through `blocks`. */
  function After(from: nat, blocks: seq<Block>): nat {
    if blocks == [] then from else blocks[|blocks| - 1].to
  }

  /** A block begins where the bytes begin that are unread, and is a whole number of words, at least one. */
  ghost predicate IsBlock(net: seq<bv8>, at: nat, b: Block) {
    b.from == at && at + 4 <= b.to <= |net| && Whole(b.to - b.from)
  }

  /** Where in the block the first marker starts, or its length when it holds none. */
  ghost function FirstIn(net: seq<bv8>, b: Block, marker: bv32): (i: nat)
    requires b.from <= b.to <= |net|
    ensures i <= b.to - b.from
  {
    FirstMarker(net[b.from..b.to], marker)
  }

  /** From `from` on, one block behind the other, and none of them holds the marker. */
  ghost predicate InVain(net: seq<bv8>, from: nat, blocks: seq<Block>, marker: bv32) {
    blocks != [] ==>
      var n := |blocks| - 1;
      && IsBlock(net, After(from, blocks[..n]), blocks[n]) && FirstIn(net, blocks[n], marker) == blocks[n].to - blocks[n].from
      && InVain(net, from, blocks[..n], marker)
  }

  /**
   A stretch of the stream that was parsed in one go. `block` is the block in which its marker was found; when all of a
   full ring buffer was `dropped` on the way, the piece begins behind that. If its parse failed, the search
   for the next one began at `again`, and has been through `blocks` in vain.
   */
  datatype Piece = Piece(block: Block, dropped: bool, from: nat, to: nat, again: nat, blocks: seq<Block>) {
    /** How much of the stream has been used. */
    function Used(): nat { After(again, blocks) }
  }

  /** The piece that begins with the stream, and the one that begins at `from`; nothing of either is parsed yet. */
  const FIRST_PIECE := Piece(Block(0, 0), false, 0, 0, 0, [])

  function NewPiece(block: Block, dropped: bool, from: nat): Piece { Piece(block, dropped, from, from, from, []) }

  /**
   With the bytes from `used` on unread, the search finds the first marker of its block, and the piece begins there;
   unless it is the first of the bytes that fill the ring buffer, which are all dropped then.
   */
  ghost predicate Begins(net: seq<bv8>, size: nat, used: nat, piece: Piece, marker: bv32) {
    && IsBlock(net, used, piece.block)
    && var i := FirstIn(net, piece.block, marker);
    && i < piece.block.to - used
    && if piece.dropped then i == 0 && piece.block.to <= used + size == piece.from <= |net| else piece.from == used + i
  }

  function UsedIn(pieces: seq<Piece>): nat
    requires pieces != []
  {
    pieces[|pieces| - 1].Used()
  }

  lemma {:induction false} InVainMore(net: seq<bv8>, from: nat, blocks: seq<Block>, b: Block, marker: bv32)
    requires InVain(net, from, blocks, marker) && IsBlock(net, After(from, blocks), b) && FirstIn(net, b, marker) == b.to - b.from
    ensures InVain(net, from, blocks + [b], marker)
  {
    assert (blocks + [b])[..|blocks|] == blocks;
  }

  /** The search only goes forward. */
  lemma {:induction false} InVainOn(net: seq<bv8>, from: nat, blocks: seq<Block>, marker: bv32)
    requires InVain(net, from, blocks, marker)
    ensures from <= After(from, blocks) && (from <= |net| ==> After(from, blocks) <= |net|)
    decreases |blocks|
  {
    if blocks != [] {
      InVainOn(net, from, blocks[..|blocks| - 1], marker);
    }
  }

  /** A piece begins at a marker. */
  lemma BeginsAtMarker(net: seq<bv8>, size: nat, used: nat, piece: Piece, marker: bv32)
    requires Begins(net, size, used, piece, marker) && !piece.dropped
    ensures piece.from + 4 <= |net| && MarkerAt(net, piece.from, marker)
  {
    hide MarkerAt;
    InBlock(net, piece.block, piece.from, marker);
  }

  lemma InBlock(net: seq<bv8>, b: Block, j: nat, marker: bv32)
    requires b.from <= j && j + 4 <= b.to <= |net|
    ensures MarkerAt(net[b.from..b.to], j - b.from, marker) == MarkerAt(net, j, marker)
  {
    var s, i := net[b.from..b.to], j - b.from;
    assert s[i] == net[j] && s[i + 1] == net[j + 1] && s[i + 2] == net[j + 2] && s[i + 3] == net[j + 3];
  }

  lemma NoneBefore(net: seq<bv8>, b: Block, j: nat, marker: bv32)
    requires b.from <= j && j + 4 <= b.to <= |net| && j < b.from + FirstIn(net, b, marker)
    ensures !MarkerAt(net, j, marker)
  {
    hide MarkerAt;
    InBlock(net, b, j, marker);
  }

  /** However the blocks were cut: no word that was searched in vain is the marker. */
  lemma {:induction false} NoWordIsMarker(net: seq<bv8>, from: nat, blocks: seq<Block>, j: nat, marker: bv32)
    requires from <= |net| && InVain(net, from, blocks, marker) && from <= j < After(from, blocks) && Whole(j - from)
    ensures j + 4 <= |net| && !MarkerAt(net, j, marker)
    ensures Whole(After(from, blocks) - from)
    decreases |blocks|
  {
    hide MarkerAt, FirstIn, Whole;
    var n := |blocks| - 1;
    var at := After(from, blocks[..n]);
    InVainWhole(net, from, blocks, marker);
    InVainWhole(net, from, blocks[..n], marker);
    WholeSum(j - from, at - from);
    if j < at {
      NoWordIsMarker(net, from, blocks[..n], j, marker);
    } else {
      WholeSum(blocks[n].to - at, j - at);
      WholeRoom(0, blocks[n].to - j);
      ZeroIsWhole();
      NoneBefore(net, blocks[n], j, marker);
    }
  }

  lemma {:induction false} InVainWhole(net: seq<bv8>, from: nat, blocks: seq<Block>, marker: bv32)
    requires InVain(net, from, blocks, marker)
    ensures Whole(After(from, blocks) - from)
    decreases |blocks|
  {
    hide FirstIn, Whole;
    ZeroIsWhole();
    if blocks != [] {
      var n := |blocks| - 1;
      InVainWhole(net, from, blocks[..n], marker);
      WholeSum(blocks[n].to - blocks[n].from, After(from, blocks[..n]) - from);
    }
  }

  /**
   Whatever the deliveries: from where the search began, no word before the next piece is the marker.
   */
  lemma {:induction false} FirstMarkerIsFound(net: seq<bv8>, size: nat, last: Piece, next: Piece, j: nat, marker: bv32)
    requires last.again <= |net| && InVain(net, last.again, last.blocks, marker) && Begins(net, size, last.Used(), next, marker)
    requires last.again <= j < (if next.dropped then next.block.from else next.from) && Whole(j - last.again)
    ensures j + 4 <= |net| && !MarkerAt(net, j, marker)
  {
    hide MarkerAt, FirstMarker, Whole;
    var used := last.Used();
    InVainWhole(net, last.again, last.blocks, marker);
    if j < used {
      NoWordIsMarker(net, last.again, last.blocks, j, marker);
    } else {
      WholeSum(j - last.again, used - last.again);
      WholeSum(next.block.to - used, j - used);
      WholeRoom(0, next.block.to - j);
      ZeroIsWhole();
      NoneBefore(net, next.block, j, marker);
    }
  }

  /** The piece that begins where the search through `block`, the front of the unread bytes up to `delivered`, found the marker. */
  function Found(used: nat, delivered: nat, size: nat, length: nat, i: nat): Piece
    requires used <= delivered
  {
    var dropped := i == 0 && delivered - used == size;
    NewPiece(Block(used, used + length), dropped, if dropped then delivered else used + i)
  }

  lemma FoundBegins(net: seq<bv8>, size: nat, used: nat, delivered: nat, block: seq<bv8>, marker: bv32)
    requires used <= delivered <= |net| && 4 <= |block| && block <= net[used..delivered] && Whole(|block|)
    requires FirstMarker(block, marker) < |block|
    ensures Begins(net, size, used, Found(used, delivered, size, |block|, FirstMarker(block, marker)), marker)
  {
    hide FirstMarker, MarkerAt;
    assert net[used..used + |block|] == block;
  }

  // ----- Runs of a parser with resynchronisation -----

  /** A parser that takes words and has the reeling flag: what the search needs to know of it. */
  datatype Machine<!P> = Machine(
    parse: (P, seq<bv32>) -> P, reeling: P -> bool, inBody: P -> bool, canResume: P -> bool, resume: P -> P, marker: bv32)

  /** Words are parsed one after the other, none once the flag is set; resuming clears it. */
  ghost predicate IsMachine<P(!new)>(mc: Machine<P>) {
    && (forall p :: mc.parse(p, []) == p)
    && (forall p, a, b :: mc.parse(p, a + b) == mc.parse(mc.parse(p, a), b))
    && (forall p, ws :: mc.reeling(p) ==> mc.parse(p, ws) == p)
    && (forall p :: mc.canResume(p) ==> mc.reeling(p) && !mc.reeling(mc.resume(p)))
  }

  /** The one-shot parse of a stream. */
  ghost function Parsed<P>(mc: Machine<P>, p: P, stream: seq<bv8>): P {
    mc.parse(p, WordsOf(stream))
  }

  lemma {:induction false} ParsedNothing<P(!new)>(mc: Machine<P>, p: P, net: seq<bv8>, at: nat)
    requires IsMachine(mc) && at <= |net|
    ensures Parsed(mc, p, net[at..at]) == p
  {
    assert WordsOf(net[at..at]) == [];
  }

  lemma {:induction false} ParsedSplit<P(!new)>(mc: Machine<P>, p: P, net: seq<bv8>, from: nat, mid: nat, to: nat)
    requires IsMachine(mc) && from <= mid <= to <= |net| && Whole(mid - from)
    ensures Parsed(mc, p, net[from..to]) == Parsed(mc, Parsed(mc, p, net[from..mid]), net[mid..to])
  {
    hide WordsOf, Whole;
    assert net[from..to] == net[from..mid] + net[mid..to];
    WordsConcat(net[from..mid], net[mid..to]);
    assert mc.parse(p, WordsOf(net[from..mid]) + WordsOf(net[mid..to])) == mc.parse(mc.parse(p, WordsOf(net[from..mid])), WordsOf(net[mid..to]));
  }

  lemma ParsedStays<P(!new)>(mc: Machine<P>, p: P, stream: seq<bv8>)
    requires IsMachine(mc) && mc.reeling(p)
    ensures Parsed(mc, p, stream) == p
  {
  }

  lemma ResumeClears<P(!new)>(mc: Machine<P>, p: P)
    requires IsMachine(mc) && mc.canResume(p)
    ensures mc.reeling(p) && !mc.reeling(mc.resume(p))
  {
  }

  /** The first `n` bytes of `stream` end at most behind the word on which its parse fails. */
  ghost predicate NotPast<P>(mc: Machine<P>, p: P, stream: seq<bv8>, n: nat) {
    && Whole(n) && n <= |stream|
    && (n >= 4 ==> !mc.reeling(Parsed(mc, p, stream[..n - 4])))
  }

  /** If the parse of `stream` fails, the search begins right behind the word that failed, or before it within a body. */
  ghost predicate SearchesFrom<P>(mc: Machine<P>, p: P, stream: seq<bv8>, n: nat) {
    && NotPast(mc, p, stream, n)
    && (mc.reeling(Parsed(mc, p, stream)) ==> mc.reeling(Parsed(mc, p, stream[..n])) || mc.inBody(Parsed(mc, p, stream[..n])))
  }

  /** Parsing the piece leads from `p` to `q`. If that fails, the search for the next one has been in vain so far. */
  ghost predicate Parses<P>(mc: Machine<P>, p: P, net: seq<bv8>, piece: Piece, q: P) {
    && piece.from <= piece.again <= piece.to <= |net| && Whole(piece.to - piece.from)
    && q == Parsed(mc, p, net[piece.from..piece.to])
    && if mc.reeling(q) then
         SearchesFrom(mc, p, net[piece.from..piece.to], piece.again - piece.from) && InVain(net, piece.again, piece.blocks, mc.marker)
       else
         piece.again == piece.to && piece.blocks == []
  }

  /**
   The pieces of the stream, in order, lead from `start` to `q`, with a ring buffer of `size` bytes: the first one
   begins with the stream; every other one follows one whose parse failed, where the search found the first marker.
   */
  ghost predicate Reaches<P(!new)>(mc: Machine<P>, start: P, net: seq<bv8>, size: nat, pieces: seq<Piece>, q: P)
    decreases |pieces|
  {
    pieces != [] &&
    var n := |pieces| - 1;
    if n == 0 then
      pieces[n].from == 0 && Parses(mc, start, net, pieces[n], q)
    else
      && Begins(net, size, pieces[n - 1].Used(), pieces[n], mc.marker)
      && exists m :: mc.canResume(m) && Reaches(mc, start, net, size, pieces[..n], m) && Parses(mc, mc.resume(m), net, pieces[n], q)
  }

  ghost predicate SameStart(a: Piece, b: Piece) {
    a.block == b.block && a.dropped == b.dropped && a.from == b.from
  }

  function Replaced(pieces: seq<Piece>, piece: Piece): seq<Piece>
    requires pieces != []
  {
    pieces[|pieces| - 1 := piece]
  }

  /** Where the last piece was begun, and that it may be replaced by what became of it. */
  lemma {:induction false} LastPiece<P(!new)>(mc: Machine<P>, start: P, net: seq<bv8>, size: nat, pieces: seq<Piece>, q: P) returns (p: P)
    requires IsMachine(mc) && !mc.reeling(start) && Reaches(mc, start, net, size, pieces, q)
    ensures pieces != [] && !mc.reeling(p) && Parses(mc, p, net, pieces[|pieces| - 1], q)
    ensures forall piece, r {:trigger Parses(mc, p, net, piece, r)} ::
      SameStart(pieces[|pieces| - 1], piece) && Parses(mc, p, net, piece, r) ==> Reaches(mc, start, net, size, Replaced(pieces, piece), r)
  {
    hide Parses, IsMachine, Begins;
    var n := |pieces| - 1;
    if n == 0 {
      p := start;
    } else {
      var m :| mc.canResume(m) && Reaches(mc, start, net, size, pieces[..n], m) && Parses(mc, mc.resume(m), net, pieces[n], q);
      ResumeClears(mc, m);
      p := mc.resume(m);
      forall piece, r | SameStart(pieces[n], piece) && Parses(mc, p, net, piece, r)
        ensures Reaches(mc, start, net, size, Replaced(pieces, piece), r)
      {
        ReachesReplaced(mc, start, net, size, pieces, m, piece, r);
      }
    }
  }

  lemma {:induction false} ReachesReplaced<P(!new)>(
    mc: Machine<P>, start: P, net: seq<bv8>, size: nat, pieces: seq<Piece>, m: P, piece: Piece, r: P)
    requires |pieces| > 1 && SameStart(pieces[|pieces| - 1], piece)
    requires mc.canResume(m) && Reaches(mc, start, net, size, pieces[..|pieces| - 1], m) && Parses(mc, mc.resume(m), net, piece, r)
    requires Begins(net, size, pieces[|pieces| - 2].Used(), pieces[|pieces| - 1], mc.marker)
    ensures Reaches(mc, start, net, size, Replaced(pieces, piece), r)
  {
    hide Parses, FirstIn, IsBlock;
    var n := |pieces| - 1;
    var now := Replaced(pieces, piece);
    assert now[..n] == pieces[..n] && now[n - 1] == pieces[n - 1];
    assert mc.canResume(m) && Reaches(mc, start, net, size, now[..n], m) && Parses(mc, mc.resume(m), net, now[n], r);
  }

  /** The piece goes on: `n` more bytes are parsed, and those from `kept` on are unread. */
  lemma {:induction false} ParsesOn<P(!new)>(mc: Machine<P>, p: P, net: seq<bv8>, piece: Piece, middle: P, n: nat, kept: nat)
    requires IsMachine(mc) && Parses(mc, p, net, piece, middle) && !mc.reeling(middle)
    requires kept <= n && Whole(n) && piece.to + n <= |net| && SearchesFrom(mc, middle, net[piece.to..piece.to + n], kept)
    requires
      var r := Parsed(mc, middle, net[piece.to..piece.to + n]);
      !mc.reeling(r) ==> kept == n
    ensures
      var r := Parsed(mc, middle, net[piece.to..piece.to + n]);
      Parses(mc, p, net, piece.(to := piece.to + n, again := piece.to + kept), r)
  {
    hide IsMachine, Parsed, Whole, SearchesFrom;
    var to := piece.to + n;
    WholeSum(piece.to - piece.from, n);
    ParsedSplit(mc, p, net, piece.from, piece.to, to);
    SearchesFromOn(mc, p, net, piece.from, piece.to, to, kept);
    assert InVain(net, piece.to + kept, [], mc.marker);
  }

  lemma {:induction false} NotPastOn<P(!new)>(mc: Machine<P>, p: P, net: seq<bv8>, from: nat, mid: nat, to: nat, n: nat)
    requires IsMachine(mc) && from <= mid <= to <= |net| && Whole(mid - from)
    requires !mc.reeling(Parsed(mc, p, net[from..mid])) && NotPast(mc, Parsed(mc, p, net[from..mid]), net[mid..to], n)
    ensures NotPast(mc, p, net[from..to], mid - from + n)
  {
    hide IsMachine, Parsed;
    if n >= 4 {
      ParsedSplit(mc, p, net, from, mid, mid + n - 4);
      assert net[mid..to][..n - 4] == net[mid..mid + n - 4];
      assert net[from..to][..mid - from + n - 4] == net[from..mid + n - 4];
    } else {
      assert n == 0;
      assert net[from..to][..mid - from] == net[from..mid];
      FineIsNotPast(mc, p, net[from..to], mid - from);
    }
  }

  lemma {:induction false} SearchesFromOn<P(!new)>(mc: Machine<P>, p: P, net: seq<bv8>, from: nat, mid: nat, to: nat, n: nat)
    requires IsMachine(mc) && from <= mid <= to <= |net| && Whole(mid - from)
    requires !mc.reeling(Parsed(mc, p, net[from..mid])) && SearchesFrom(mc, Parsed(mc, p, net[from..mid]), net[mid..to], n)
    ensures SearchesFrom(mc, p, net[from..to], mid - from + n)
  {
    assert n <= to - mid;
    hide IsMachine, Parsed, NotPast, Whole;
    NotPastOn(mc, p, net, from, mid, to, n);
    ParsedSplit(mc, p, net, from, mid, to);
    ParsedFront(mc, p, net, from, mid, to, n);
  }

  lemma {:induction false} ParsedFront<P(!new)>(mc: Machine<P>, p: P, net: seq<bv8>, from: nat, mid: nat, to: nat, n: nat)
    requires IsMachine(mc) && from <= mid <= mid + n <= to <= |net| && Whole(mid - from)
    ensures Parsed(mc, p, net[from..to][..mid - from + n]) == Parsed(mc, Parsed(mc, p, net[from..mid]), net[mid..to][..n])
  {
    hide IsMachine, Parsed, Whole;
    ParsedSplit(mc, p, net, from, mid, mid + n);
    assert net[mid..to][..n] == net[mid..mid + n];
    assert net[from..to][..mid - from + n] == net[from..mid + n];
  }

  /** Where nothing has failed yet, the failing word is not passed. */
  lemma {:induction false} FineIsNotPast<P(!new)>(mc: Machine<P>, p: P, stream: seq<bv8>, n: nat)
    requires IsMachine(mc) && Whole(n) && n <= |stream| && !mc.reeling(Parsed(mc, p, stream[..n]))
    ensures NotPast(mc, p, stream, n)
  {
    hide IsMachine, Parsed;
    if n >= 4 {
      ParsedSplit(mc, p, stream, 0, n - 4, n);
      assert stream[0..n] == stream[..n] && stream[0..n - 4] == stream[..n - 4];
      if mc.reeling(Parsed(mc, p, stream[..n - 4])) {
        ParsedStays(mc, Parsed(mc, p, stream[..n - 4]), stream[n - 4..n]);
      }
    }
  }

  lemma NextIsNotPast<P>(mc: Machine<P>, p: P, stream: seq<bv8>, n: nat)
    requires Whole(n) && n + 4 <= |stream| && !mc.reeling(Parsed(mc, p, stream[..n]))
    ensures NotPast(mc, p, stream, n + 4)
  {
    hide Parsed;
  }

  /** The search goes on: one more block in vain. */
  lemma {:induction false} SearchesOn<P>(mc: Machine<P>, p: P, net: seq<bv8>, piece: Piece, q: P, b: Block)
    requires Parses(mc, p, net, piece, q) && mc.reeling(q)
    requires IsBlock(net, piece.Used(), b) && FirstIn(net, b, mc.marker) == b.to - b.from
    ensures Parses(mc, p, net, piece.(blocks := piece.blocks + [b]), q)
  {
    hide Parsed, SearchesFrom, FirstMarker, Whole;
    InVainMore(net, piece.again, piece.blocks, b, mc.marker);
  }

  /** A turn that parses `n` more bytes and leaves those from `kept` on unread lengthens the last piece. */
  lemma {:induction false} ReachesOn<P(!new)>(
    mc: Machine<P>, start: P, net: seq<bv8>, size: nat, pieces: seq<Piece>, q: P, n: nat, kept: nat)
    returns (pieces': seq<Piece>)
    requires IsMachine(mc) && !mc.reeling(start) && Reaches(mc, start, net, size, pieces, q) && !mc.reeling(q)
    requires kept <= n && Whole(n) && UsedIn(pieces) + n <= |net| && SearchesFrom(mc, q, net[UsedIn(pieces)..UsedIn(pieces) + n], kept)
    requires !mc.reeling(Parsed(mc, q, net[UsedIn(pieces)..UsedIn(pieces) + n])) ==> kept == n
    ensures pieces' != [] && UsedIn(pieces') == UsedIn(pieces) + kept
    ensures Reaches(mc, start, net, size, pieces', Parsed(mc, q, net[UsedIn(pieces)..UsedIn(pieces) + n]))
  {
    hide IsMachine, Parsed, SearchesFrom, Whole, Reaches;
    var p := LastPiece(mc, start, net, size, pieces, q);
    var last := pieces[|pieces| - 1];
    assert last.to == last.again && last.blocks == [];
    ParsesOn(mc, p, net, last, q, n, kept);
    pieces' := Replaced(pieces, last.(to := last.to + n, again := last.to + kept));
  }

  /** A turn that searches in vain: one more block. */
  lemma {:induction false} ReachesSearching<P(!new)>(
    mc: Machine<P>, start: P, net: seq<bv8>, size: nat, pieces: seq<Piece>, q: P, b: Block)
    returns (pieces': seq<Piece>)
    requires IsMachine(mc) && !mc.reeling(start) && Reaches(mc, start, net, size, pieces, q) && mc.reeling(q)
    requires IsBlock(net, UsedIn(pieces), b) && FirstIn(net, b, mc.marker) == b.to - b.from
    ensures pieces' != [] && UsedIn(pieces') == b.to && Reaches(mc, start, net, size, pieces', q)
  {
    hide IsMachine, Reaches, Parses;
    var p := LastPiece(mc, start, net, size, pieces, q);
    var last := pieces[|pieces| - 1];
    SearchesOn(mc, p, net, last, q, b);
    pieces' := Replaced(pieces, last.(blocks := last.blocks + [b]));
  }

  /** Of a piece that only begins, nothing is parsed. */
  lemma {:induction false} ParsesNothing<P(!new)>(mc: Machine<P>, p: P, net: seq<bv8>, piece: Piece)
    requires IsMachine(mc) && !mc.reeling(p) && piece.from == piece.to == piece.again <= |net| && piece.blocks == []
    ensures Parses(mc, p, net, piece, p)
  {
    hide IsMachine, Parsed;
    ParsedNothing(mc, p, net, piece.from);
  }

  /** The flag is cleared, and a new piece begins. */
  lemma {:induction false} ReachesAgain<P(!new)>(mc: Machine<P>, start: P, net: seq<bv8>, size: nat, pieces: seq<Piece>, q: P, piece: Piece)
    requires IsMachine(mc) && mc.canResume(q) && Reaches(mc, start, net, size, pieces, q)
    requires piece.from == piece.to == piece.again && piece.blocks == []
    requires Begins(net, size, pieces[|pieces| - 1].Used(), piece, mc.marker)
    ensures Reaches(mc, start, net, size, pieces + [piece], mc.resume(q))
  {
    var more := pieces + [piece];
    assert more[..|pieces|] == pieces && more[|pieces| - 1] == pieces[|pieces| - 1];
    hide Whole, FirstIn, Parses, IsMachine;
    ResumeClears(mc, q);
    ParsesNothing(mc, mc.resume(q), net, piece);
    assert mc.canResume(q) && Reaches(mc, start, net, size, more[..|pieces|], q) && Parses(mc, mc.resume(q), net, more[|pieces|], mc.resume(q));
  }

  /** A turn that finds the marker in the block it searches begins a new piece. */
  lemma {:induction false} ReachesFound<P(!new)>(
    mc: Machine<P>, start: P, net: seq<bv8>, size: nat, pieces: seq<Piece>, q: P, delivered: nat, block: seq<bv8>)
    returns (pieces': seq<Piece>)
    requires IsMachine(mc) && mc.canResume(q) && pieces != [] && Reaches(mc, start, net, size, pieces, q)
    requires UsedIn(pieces) <= delivered <= |net| && 4 <= |block| && Whole(|block|) && block <= net[UsedIn(pieces)..delivered]
    requires FirstMarker(block, mc.marker) < |block|
    ensures pieces' != [] && Reaches(mc, start, net, size, pieces', mc.resume(q))
    ensures
      var used, i := UsedIn(pieces), FirstMarker(block, mc.marker);
      UsedIn(pieces') == pieces'[|pieces'| - 1].from == if i == 0 && delivered - used == size then delivered else used + i
  {
    hide IsMachine, Reaches, Begins, FirstMarker;
    var used := UsedIn(pieces);
    var piece := Found(used, delivered, size, |block|, FirstMarker(block, mc.marker));
    FoundBegins(net, size, used, delivered, block, mc.marker);
    ReachesAgain(mc, start, net, size, pieces, q, piece);
    pieces' := pieces + [piece];
  }

  lemma {:induction false} ReachesFirst<P(!new)>(mc: Machine<P>, start: P, net: seq<bv8>, size: nat)
    requires IsMachine(mc) && !mc.reeling(start)
    ensures Reaches(mc, start, net, size, [FIRST_PIECE], start)
  {
    hide Parses;
    ParsesNothing(mc, start, net, FIRST_PIECE);
  }

  /**
   `next` begins at a marker, unless a full ring buffer was dropped; and no word between the place where
   the search for it began and that is the marker.
   */
  ghost predicate BeginsAtFirstMarker(net: seq<bv8>, last: Piece, next: Piece, marker: bv32) {
    && last.from <= last.again <= next.from
    && (!next.dropped ==> next.from + 4 <= |net| && MarkerAt(net, next.from, marker))
    && forall j :: last.again <= j < (if next.dropped then next.block.from else next.from) && Whole(j - last.again) ==>
         j + 4 <= |net| && !MarkerAt(net, j, marker)
  }

  lemma {:induction false} FirstMarkerBegins<P>(mc: Machine<P>, p: P, net: seq<bv8>, size: nat, last: Piece, q: P, next: Piece)
    requires Parses(mc, p, net, last, q) && mc.reeling(q) && Begins(net, size, last.Used(), next, mc.marker)
    ensures BeginsAtFirstMarker(net, last, next, mc.marker)
  {
    InVainOn(net, last.again, last.blocks, mc.marker);
    if !next.dropped {
      BeginsAtMarker(net, size, last.Used(), next, mc.marker);
    }
    hide *;
    forall j | last.again <= j < (if next.dropped then next.block.from else next.from) && Whole(j - last.again)
      ensures j + 4 <= |net| && !MarkerAt(net, j, mc.marker)
    {
      FirstMarkerIsFound(net, size, last, next, j, mc.marker);
    }
  }

  /** However the stream is delivered, every piece but the first begins at the first marker behind the place where the search began. */
  lemma {:induction false} PiecesBeginAtFirstMarker<P(!new)>(mc: Machine<P>, start: P, net: seq<bv8>, size: nat, pieces: seq<Piece>, q: P, i: nat)
    requires IsMachine(mc) && !mc.reeling(start) && Reaches(mc, start, net, size, pieces, q) && 0 < i < |pieces|
    ensures BeginsAtFirstMarker(net, pieces[i - 1], pieces[i], mc.marker)
    decreases |pieces|
  {
    hide Parses, Begins, BeginsAtFirstMarker, IsMachine;
    var n := |pieces| - 1;
    var m :| mc.canResume(m) && Reaches(mc, start, net, size, pieces[..n], m) && Parses(mc, mc.resume(m), net, pieces[n], q);
    if i < n {
      PiecesBeginAtFirstMarker(mc, start, net, size, pieces[..n], m, i);
    } else {
      ResumeClears(mc, m);
      var p := LastPiece(mc, start, net, size, pieces[..n], m);
      FirstMarkerBegins(mc, p, net, size, pieces[n - 1], m, pieces[n]);
    }
  }
}
