/**
 The reply side of networking.c: the static buffer and the list of reply blocks of a
 client, drained by partial writes.
 */
module ReplyQueues {
  const PROTO_REPLY_CHUNK_BYTES: nat := 16 * 1024

  /** sizeof(clientReplyBlock) without its data: two size_t. */
  const BLOCK_OVERHEAD: nat := 16

  /** The longest piece that a new block records as fitting. */
  const MAX_PIECE: nat := PROTO_REPLY_CHUNK_BYTES - BLOCK_OVERHEAD

  /** clientReplyBlock: `used` is the length of `data`. */
  datatype Block = Block(size: nat, data: string)

  function Flat(blocks: seq<Block>): string {
    if blocks == [] then "" else blocks[0].data + Flat(blocks[1..])
  }

  function Sizes(blocks: seq<Block>): nat {
    if blocks == [] then 0 else blocks[0].size + Sizes(blocks[1..])
  }

  lemma {:induction false} Appended(blocks: seq<Block>, b: Block)
    ensures Flat(blocks + [b]) == Flat(blocks) + b.data && Sizes(blocks + [b]) == Sizes(blocks) + b.size
    decreases |blocks|
  {
    if blocks == [] {
      assert [b][1..] == [];
      assert Flat([b][1..]) == "" && Sizes([b][1..]) == 0;
      assert [] + [b] == [b];
    } else {
      Appended(blocks[1..], b);
      assert (blocks + [b])[1..] == blocks[1..] + [b];
    }
  }

  lemma DropAppend(a: string, n: nat, s: string)
    requires n <= |a|
    ensures (a + s)[n..] == a[n..] + s
  {
  }

  lemma Associate(a: string, b: string, c: string)
    ensures a + b + c == a + (b + c)
  {
  }

  predicate NoneEmpty(blocks: seq<Block>) {
    forall i :: 0 <= i < |blocks| ==> blocks[i].data != ""
  }

  /** How much fits in the last block. */
  function Room(blocks: seq<Block>): int {
    if blocks == [] then 0 else blocks[|blocks| - 1].size - |blocks[|blocks| - 1].data|
  }

  /** The same as the code computes it, in a size_t: of a block that is filled beyond its recorded size, nearly 2^64. */
  function Avail(blocks: seq<Block>): nat
    requires blocks != [] ==> |blocks[|blocks| - 1].data| <= blocks[|blocks| - 1].size + BLOCK_OVERHEAD
  {
    if Room(blocks) >= 0 then Room(blocks) else 0x1_0000_0000_0000_0000 + Room(blocks)
  }

  /** No block is filled beyond the memory it has, BLOCK_OVERHEAD bytes more than it records. */
  predicate InMemory(blocks: seq<Block>) {
    forall i :: 0 <= i < |blocks| ==> |blocks[i].data| <= blocks[i].size + BLOCK_OVERHEAD
  }

  /** Appending `n` bytes does not write beyond the memory of the last block. */
  predicate Fits(blocks: seq<Block>, n: nat) {
    Room(blocks) >= 0 || n <= Room(blocks) + BLOCK_OVERHEAD
  }

  /** The list with `s` behind what is in it: the last block is filled first. */
  lemma {:induction false} TailFilled(blocks: seq<Block>, copied: string)
    requires blocks != []
    ensures
      var tail := blocks[|blocks| - 1];
      var more := blocks[..|blocks| - 1] + [Block(tail.size, tail.data + copied)];
      && Flat(more) == Flat(blocks) + copied && Sizes(more) == Sizes(blocks)
      && (NoneEmpty(blocks) ==> NoneEmpty(more))
  {
    hide Flat, Sizes;
    var front, tail := blocks[..|blocks| - 1], blocks[|blocks| - 1];
    Appended(front, tail);
    assert front + [tail] == blocks;
    Appended(front, Block(tail.size, tail.data + copied));
    Associate(Flat(front), tail.data, copied);
  }

  function Min(a: int, b: int): int { if a < b then a else b }

  class ReplyQueue {
    const buf: array<char>
    var bufpos: nat
    var sentlen: nat
    var reply: seq<Block>
    var replyBytes: nat
    var closeAfterReply: bool
    var replyOff: bool

    /** Everything queued so far, and everything written to the connection so far. */
    ghost var queued: string
    ghost var sent: string

    /** The static buffer, and behind it the list. */
    ghost function Content(): string
      requires bufpos <= buf.Length
      reads this, buf
    {
      buf[..bufpos] + Flat(reply)
    }

    /** What is being written comes first; `sentlen` bytes of it are out already. */
    predicate InProgress()
      reads this
    {
      if bufpos > 0 then sentlen < bufpos else if reply != [] then sentlen < |reply[0].data| else sentlen == 0
    }

    ghost predicate Valid()
      reads this, buf
    {
      && buf.Length == PROTO_REPLY_CHUNK_BYTES && bufpos <= buf.Length
      && replyBytes == Sizes(reply) && NoneEmpty(reply) && InMemory(reply)
      && InProgress() && sentlen <= |Content()|
      && queued == sent + Content()[sentlen..]
    }

    /** The last block has the room that it says it has. */
    ghost predicate Sound()
      reads this
    {
      reply != [] ==> |reply[|reply| - 1].data| <= reply[|reply| - 1].size
    }

    constructor ()
      ensures Valid() && Sound() && fresh(buf) && queued == "" && reply == []
      ensures !closeAfterReply && !replyOff
    {
      buf := new char[PROTO_REPLY_CHUNK_BYTES];
      bufpos, sentlen, reply, replyBytes, closeAfterReply, replyOff := 0, 0, [], 0, false, false;
      queued, sent := "", "";
    }

    /** memcpy to the free part of the static buffer. */
    method Copy(s: string)
      requires bufpos + |s| <= buf.Length
      modifies buf
      ensures buf[..bufpos + |s|] == old(buf[..bufpos]) + s
    {
      forall i | 0 <= i < |s| {
        buf[bufpos + i] := s[i];
      }
    }

    /** _addReplyToBuffer: C_OK when the reply went to the static buffer, or is dropped because the connection is closing. */
    method AddReplyToBuffer(s: string) returns (ok: bool)
      requires Valid()
      modifies this`bufpos, this`queued, buf
      ensures Valid()
      ensures ok <==> closeAfterReply || (reply == [] && |s| <= 16384 - old(bufpos))
      ensures queued == old(queued) + if ok && !closeAfterReply then s else ""
    {
      hide Flat, Sizes;
      var available := buf.Length - bufpos;
      if closeAfterReply {
        return true;
      }
      if |reply| > 0 {
        return false;
      }
      if |s| > available {
        return false;
      }
      assert Flat(reply) == "" by { FlatOfNone(); }
      ghost var was := Content();
      Copy(s);
      bufpos := bufpos + |s|;
      assert Content() == was + s;
      DropAppend(was, sentlen, s);
      queued := queued + s;
      Associate(sent, was[sentlen..], s);
      ok := true;
    }

    /** Append to the last block what fits there. */
    method AddToTail(s: string) returns (rest: string)
      requires Valid() && Fits(reply, |s|) && reply != []
      modifies this`reply, this`queued
      ensures Valid() && (Sound() <==> old(Sound()))
      ensures |rest| == if |s| <= Avail(old(reply)) then 0 else |s| - Avail(old(reply))
      ensures queued + rest == old(queued) + s
    {
      hide Flat, Sizes;
      ghost var was := Content();
      var tail, front := reply[|reply| - 1], reply[..|reply| - 1];
      var avail := Avail(reply);
      var copied := s[..Min(avail, |s|)];
      TailFilled(reply, copied);
      Associate(buf[..bufpos], Flat(reply), copied);
      reply := front + [Block(tail.size, tail.data + copied)];
      rest := s[|copied|..];
      DropAppend(was, sentlen, copied);
      Associate(sent, was[sentlen..], copied);
      Associate(queued, copied, rest);
      assert copied + rest == s;
      queued := queued + copied;
    }

    /** A new block for what did not fit. */
    method AddBlock(s: string)
      requires Valid() && s != "" && (bufpos > 0 || reply != [] || sentlen == 0)
      modifies this`reply, this`replyBytes, this`queued
      ensures Valid() && queued == old(queued) + s
      ensures Sound() <==> |s| <= 16368
    {
      hide Flat, Sizes;
      ghost var was := Content();
      var size := if |s| < PROTO_REPLY_CHUNK_BYTES then PROTO_REPLY_CHUNK_BYTES else |s|;
      var block := Block(size - BLOCK_OVERHEAD, s);
      Appended(reply, block);
      Associate(buf[..bufpos], Flat(reply), s);
      reply := reply + [block];
      replyBytes := replyBytes + block.size;
      DropAppend(was, sentlen, s);
      Associate(sent, was[sentlen..], s);
      queued := queued + s;
    }

    /**
     _addReplyProtoToList. A block is recorded with less room than it is filled with just when the
     part of the reply that needs a new block is longer than MAX_PIECE. To such a block as much can still be
     appended as its memory holds; more than that writes beyond it.
     */
    method AddReplyProtoToList(s: string)
      requires Valid() && (closeAfterReply || Fits(reply, |s|))
      modifies this`reply, this`replyBytes, this`queued
      ensures Valid()
      ensures queued == old(queued) + if closeAfterReply then "" else s
      ensures Sound() <==> if closeAfterReply || |s| <= Avail(old(reply)) then old(Sound()) else |s| - Avail(old(reply)) <= MAX_PIECE
    {
      hide Valid;
      assert queued + "" == queued;
      if closeAfterReply {
        return;
      }
      var rest := s;
      if |reply| > 0 {
        rest := AddToTail(s);
      }
      if |rest| > 0 {
        assert InProgress() by { InProgressIfValid(); }
        AddBlock(rest);
      } else {
        assert queued + rest == queued;
      }
    }

    lemma SoundFits(n: nat)
      requires Sound()
      ensures Fits(reply, n)
    {
    }

    lemma InProgressIfValid()
      requires Valid()
      ensures InProgress()
    {
    }

    /** addReplyProto: replies are queued behind each other, whichever way they go. */
    method AddReplyProto(s: string)
      requires Valid() && (replyOff || closeAfterReply || Fits(reply, |s|))
      modifies this, buf
      ensures Valid()
      ensures queued == old(queued) + if replyOff || closeAfterReply then "" else s
      ensures old(Sound()) && |s| <= MAX_PIECE ==> Sound()
      ensures sent == old(sent) && closeAfterReply == old(closeAfterReply) && replyOff == old(replyOff)
    {
      hide Valid;
      assert queued + "" == queued;
      if replyOff {
        return;
      }
      var ok := AddReplyToBuffer(s);
      if !ok {
        AddReplyProtoToList(s);
      }
    }

    // ----- Writing -----

    lemma AllSent()
      requires Valid()
      ensures |sent| <= |queued| && (|sent| == |queued| ==> sent == queued)
      ensures bufpos == 0 && reply == [] <==> sent == queued
      ensures bufpos == 0 && reply == [] ==> sentlen == 0
    {
      FirstBlock(reply);
      hide Flat, Sizes;
      assert queued[..|sent|] == sent;
    }

    /** connWrite of at most what the connection takes, from the static buffer. */
    method WriteBuffer(budget: int) returns (n: int)
      requires Valid() && bufpos > 0
      modifies this`sentlen, this`bufpos, this`sent
      ensures Valid() && n == Min(budget, old(bufpos - sentlen)) && (budget >= 1 ==> n >= 1)
      ensures if n <= 0 then sent == old(sent) else sent == old(sent) + old(buf[..bufpos][sentlen..][..n])
      ensures n > 0 ==> |sent| == |old(sent)| + n
    {
      hide Flat, Sizes, NoneEmpty;
      n := Min(budget, bufpos - sentlen);
      if n <= 0 {
        return;
      }
      ghost var front := buf[..bufpos];
      Written(sent, front, Flat(reply), sentlen, n);
      sent := sent + front[sentlen..][..n];
      sentlen := sentlen + n;
      if sentlen == bufpos {
        FirstBlock(reply);
        bufpos := 0;
        sentlen := 0;
      }
    }

    lemma NoBuffer()
      requires bufpos == 0
      ensures Content() == Flat(reply)
    {
    }

    /** The same from the first block of the list, which is dropped when all of it is out. */
    method WriteBlock(budget: int) returns (n: int)
      requires Valid() && bufpos == 0 && reply != []
      modifies this`sentlen, this`reply, this`replyBytes, this`sent
      ensures Valid() && n == Min(budget, |old(reply)[0].data| - old(sentlen)) && (budget >= 1 ==> n >= 1)
      ensures if n <= 0 then sent == old(sent) else sent == old(sent) + old(reply[0].data[sentlen..][..n])
      ensures n > 0 ==> |sent| == |old(sent)| + n
      ensures reply == old(reply) || reply == old(reply)[1..]
    {
      hide Flat, Sizes, NoneEmpty, Content;
      var o := reply[0];
      n := Min(budget, |o.data| - sentlen);
      if n <= 0 {
        return;
      }
      FirstBlock(reply);
      FirstBlock(reply[1..]);
      NoBuffer();
      Written(sent, o.data, Flat(reply[1..]), sentlen, n);
      sent := sent + o.data[sentlen..][..n];
      sentlen := sentlen + n;
      NoBuffer();
      if sentlen == |o.data| {
        replyBytes := replyBytes - o.size;
        reply := reply[1..];
        sentlen := 0;
        NoBuffer();
        if |reply| == 0 {
          assert replyBytes == 0;
        }
      }
    }

    /**
     writeToClient, where `takes` is what successive calls of connWrite are ready to take (at the end
     of it, nothing). Whatever that is, what goes out continues what went out before.
     */
    method WriteToClient(takes: seq<int>) returns (closed: bool)
      requires Valid()
      modifies this
      ensures Valid() && queued == old(queued) && old(sent) <= sent
      ensures old(Sound()) ==> Sound()
      ensures (forall i :: 0 <= i < |takes| ==> takes[i] >= 1) && |takes| >= |queued| - |old(sent)| ==> sent == queued
      ensures closed <==> closeAfterReply && sent == queued
      ensures closeAfterReply == old(closeAfterReply) && replyOff == old(replyOff)
    {
      hide Valid, Content;
      var k := 0;
      while bufpos > 0 || |reply| > 0
        invariant Valid() && queued == old(queued) && old(sent) <= sent && k <= |takes|
        invariant old(Sound()) ==> Sound()
        invariant closeAfterReply == old(closeAfterReply) && replyOff == old(replyOff)
        invariant (forall i :: 0 <= i < |takes| ==> takes[i] >= 1) ==> |sent| >= |old(sent)| + k
        decreases |takes| - k
      {
        if k == |takes| {
          break;
        }
        var nwritten;
        if bufpos > 0 {
          nwritten := WriteBuffer(takes[k]);
        } else {
          nwritten := WriteBlock(takes[k]);
        }
        k := k + 1;
        if nwritten <= 0 {
          break;
        }
      }
      AllSent();
      if bufpos == 0 && |reply| == 0 {
        sentlen := 0;
        closed := closeAfterReply;
      } else {
        closed := false;
      }
    }

    /**
     Any interleaving of replies and writes, however short the writes are: what is out is always a front
     part of all replies, in the order in which they were added, and the rest of them is still queued.
     */
    method Interleave(ops: seq<Op>)
      requires Valid() && Sound() && !closeAfterReply && !replyOff && sent == queued == ""
      requires forall i :: 0 <= i < |ops| && ops[i].Add? ==> |ops[i].reply| <= MAX_PIECE
      modifies this, buf
      ensures Valid() && Sound()
      ensures queued == Replies(ops) && sent + Content()[sentlen..] == Replies(ops)
      ensures ops != [] && ops[|ops| - 1].Write? && TakesAll(ops[|ops| - 1].takes, |Replies(ops)|) ==> sent == Replies(ops)
    {
      hide Valid, Content, Sound, Replies;
      NoReplies();
      for k := 0 to |ops|
        invariant Valid() && Sound() && !closeAfterReply && !replyOff
        invariant queued == Replies(ops[..k])
        invariant k > 0 && ops[k - 1].Write? && TakesAll(ops[k - 1].takes, |queued|) ==> sent == queued
      {
        RepliesNext(ops, k);
        match ops[k]
        case Add(s) =>
          SoundFits(|s|);
          AddReplyProto(s);
        case Write(takes) =>
          var closed := WriteToClient(takes);
      }
      assert ops[..|ops|] == ops;
      QueuedIsSentAndContent();
    }

    lemma QueuedIsSentAndContent()
      requires Valid()
      ensures bufpos <= buf.Length && sentlen <= |Content()| && queued == sent + Content()[sentlen..]
    {
      hide Content;
    }
  }

  datatype Op = Add(reply: string) | Write(takes: seq<int>)

  /** Every call of connWrite takes something, and there are enough of them for `n` bytes. */
  predicate TakesAll(takes: seq<int>, n: nat) {
    |takes| >= n && forall i :: 0 <= i < |takes| ==> takes[i] >= 1
  }

  /** All replies, in the order in which they are added. */
  function Replies(ops: seq<Op>): string {
    if ops == [] then ""
    else Replies(ops[..|ops| - 1]) + if ops[|ops| - 1].Add? then ops[|ops| - 1].reply else ""
  }

  lemma {:induction false} NoReplies()
    ensures Replies([]) == ""
  {
  }

  lemma {:induction false} RepliesNext(ops: seq<Op>, k: nat)
    requires k < |ops|
    ensures Replies(ops[..k + 1]) == if ops[k].Add? then Replies(ops[..k]) + ops[k].reply else Replies(ops[..k])
  {
    assert ops[..k + 1][..k] == ops[..k];
  }

  /** `n` more bytes of the part in front, then the rest of it, then what is behind it. */
  lemma Written(sent: string, front: string, behind: string, sentlen: nat, n: nat)
    requires sentlen + n <= |front|
    ensures sent + (front + behind)[sentlen..] == sent + front[sentlen..][..n] + (front + behind)[sentlen + n..]
    ensures sentlen + n == |front| ==> (front + behind)[sentlen + n..] == behind
  {
    assert (front + behind)[sentlen..] == front[sentlen..][..n] + (front + behind)[sentlen + n..];
  }

  lemma FirstBlock(blocks: seq<Block>)
    ensures blocks == [] ==> Flat(blocks) == "" && Sizes(blocks) == 0
    ensures blocks != [] ==> Flat(blocks) == blocks[0].data + Flat(blocks[1..]) && Sizes(blocks) == blocks[0].size + Sizes(blocks[1..])
    ensures blocks != [] && NoneEmpty(blocks) ==> NoneEmpty(blocks[1..]) && blocks[0].data != ""
  {
  }

  lemma FlatOfNone()
    ensures Flat([]) == ""
  {
  }
}
