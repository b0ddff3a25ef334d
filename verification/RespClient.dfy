/**
 The request side of networking.c in its own form: the query buffer, qb_pos and the
 request in progress, updated in place, against the state machine of RespProtocol.
 */
module RespClients {
  import opened IntegerStrings
  import opened Options
  import opened QuotedStrings
  import opened RespProtocol

  class RespClient {
    var querybuf: string
    var qbPos: nat
    var reqtype: ReqType
    var multibulklen: nat
    var bulklen: int
    var argv: seq<string>
    var dispatched: seq<seq<string>>
    var error: Option<ProtocolError>

    ghost function View(): Client
      requires qbPos <= |querybuf|
      reads this
    {
      Client(querybuf[qbPos..], reqtype, multibulklen, bulklen, argv, dispatched, error, false)
    }

    /** A big argument that is awaited, or is all there is, starts the query buffer. */
    ghost predicate Valid()
      reads this
    {
      && qbPos <= |querybuf| && View().Valid()
      && (bulklen >= PROTO_MBULK_BIG_ARG && |querybuf| - qbPos <= bulklen + 2 ==> qbPos == 0)
    }

    constructor ()
      ensures Valid() && View() == NEW_CLIENT && qbPos == 0
    {
      querybuf, qbPos, reqtype, multibulklen, bulklen := "", 0, Unknown, 0, -1;
      argv, dispatched, error := [], [], None;
    }

    /** setProtocolError: reply with the error, and close. */
    method SetProtocolError(e: ProtocolError)
      modifies this`error
      ensures error == Some(e)
    {
      error := Some(e);
    }

    method ResetClient()
      requires qbPos <= |querybuf|
      modifies this`argv, this`reqtype, this`multibulklen, this`bulklen
      ensures View() == Reset(old(View()))
    {
      argv := [];
      reqtype := Unknown;
      multibulklen := 0;
      bulklen := -1;
    }

    /** processInlineBuffer: C_OK when a whole line has been split into arguments. */
    method ProcessInlineBuffer() returns (ok: bool)
      requires Valid() && error.None? && reqtype == Inline && qbPos < |querybuf|
      modifies this
      ensures qbPos <= |querybuf|
      ensures ok ==> InlineStep(old(View())) == Go(Finish(View())) && qbPos > old(qbPos) && querybuf == old(querybuf) && bulklen == -1
      ensures !ok ==> InlineStep(old(View())) == Stop(View()) && Valid()
    {
      hide Find, SplitArgs, NonEmpty, CString;
      var newline := Find(querybuf[qbPos..], '\n');
      if newline < 0 {
        if |querybuf| - qbPos > PROTO_INLINE_MAX_SIZE {
          SetProtocolError(TooBigInline);
        }
        return false;
      }
      var linefeedChars := 1;
      if newline != 0 && querybuf[qbPos + newline - 1] == '\r' {
        newline := newline - 1;
        linefeedChars := 2;
      }
      var aux := querybuf[qbPos..][..newline];
      var args := Sdssplitargs(aux);
      if args.None? {
        SetProtocolError(UnbalancedQuotes);
        return false;
      }
      qbPos := qbPos + newline + linefeedChars;
      argv := [];
      NonEmptyOfPrefix(args.value, 0);
      for j := 0 to |args.value|
        modifies this`argv
        invariant argv == NonEmpty(args.value[..j])
      {
        NonEmptyOfPrefix(args.value, j);
        if args.value[j] != "" {
          argv := argv + [CString(args.value[j])];
        }
      }
      assert args.value[..|args.value|] == args.value;
      assert querybuf[qbPos..] == old(View()).input[newline + linefeedChars..];
      ok := true;
    }

    static lemma {:induction false} NonEmptyOfPrefix(args: seq<string>, j: nat)
      requires j <= |args|
      ensures NonEmpty(args[..0]) == []
      ensures j < |args| ==> NonEmpty(args[..j + 1]) == NonEmpty(args[..j]) + if args[j] == "" then [] else [CString(args[j])]
      decreases |args|
    {
      hide CString;
      if j == 0 {
        if j < |args| {
          assert args[..1][1..] == [];
        }
      } else if j < |args| {
        NonEmptyOfPrefix(args[1..], j - 1);
        assert args[..j + 1][1..] == args[1..][..j] && args[..j][1..] == args[1..][..j - 1];
      }
    }

    /** string2ll, as a function of the string. */
    static method ReadInteger(s: string) returns (ok: bool, value: int)
      ensures ToInteger(s) == if ok then Some(value) else None
    {
      ok, value := String2ll(s);
      AcceptedIsPrinted(s);
      if ok {
        PrintInjective(value, Signed(s));
      }
    }

    /** The number of arguments. Not `ok` is C_ERR. */
    method ReadCount() returns (ok: bool)
      requires Valid() && error.None? && reqtype == Multibulk && multibulklen == 0
      modifies this
      ensures !ok ==> Valid() && CountStep(old(View())) == Stop(View())
      ensures qbPos <= |querybuf|
      ensures ok ==> CountStep(old(View())) == Go(if multibulklen == 0 then Finish(View()) else View())
      ensures ok ==> argv == [] && bulklen == -1 && error.None? && reqtype == Multibulk
      ensures multibulklen > 0 ==> Valid()
    {
      hide Find, CString, ToInteger, Finish;
      var newline := Find(querybuf[qbPos..], '\r');
      if newline < 0 {
        if |querybuf| - qbPos > PROTO_INLINE_MAX_SIZE {
          SetProtocolError(TooBigCount);
        }
        return false;
      }
      if newline > |querybuf| - qbPos - 2 {
        return false;
      }
      assert querybuf[qbPos] == '*';
      var valid, ll := ReadInteger(querybuf[qbPos..][1..newline]);
      if !valid || ll > MAX_MULTIBULK_LEN {
        SetProtocolError(InvalidMultibulkLength);
        return false;
      }
      assert querybuf[qbPos..][newline + 2..] == querybuf[qbPos + newline + 2..];
      qbPos := qbPos + newline + 2;
      if ll > 0 {
        multibulklen := ll;
        argv := [];
      }
      ok := true;
    }

    /** The length of an argument; a big one is moved to the start of the query buffer unless more is behind it. */
    method ReadBulkCount() returns (ok: bool)
      requires Valid() && error.None? && reqtype == Multibulk && multibulklen > 0 && bulklen == -1
      modifies this
      ensures Valid()
      ensures !ok ==> BulkCountStep(old(View())) == Stop(View())
      ensures ok ==> BulkCountStep(old(View())) == Go(View()) && bulklen >= 0
      ensures ok ==> error.None? && reqtype == Multibulk && multibulklen == old(multibulklen)
    {
      hide Find, CString, ToInteger, Finish;
      var newline := Find(querybuf[qbPos..], '\r');
      if newline < 0 {
        if |querybuf| - qbPos > PROTO_INLINE_MAX_SIZE {
          SetProtocolError(TooBigBulkCount);
        }
        return false;
      }
      if newline > |querybuf| - qbPos - 2 {
        return false;
      }
      if querybuf[qbPos] != '$' {
        SetProtocolError(ExpectedDollar(querybuf[qbPos]));
        return false;
      }
      var valid, ll := ReadInteger(querybuf[qbPos..][1..newline]);
      if !valid || ll < 0 || ll > PROTO_MAX_BULK_LEN {
        SetProtocolError(InvalidBulkLength);
        return false;
      }
      assert querybuf[qbPos..][newline + 2..] == querybuf[qbPos + newline + 2..];
      qbPos := qbPos + newline + 2;
      if ll >= PROTO_MBULK_BIG_ARG {
        if |querybuf| - qbPos <= ll + 2 {
          querybuf := querybuf[qbPos..];
          qbPos := 0;
        }
      }
      bulklen := ll;
      ok := true;
    }

    /** What FastStep makes of a complete argument, before the request is finished. */
    static ghost function Taken(c: Client): Client
      requires c.bulklen >= 0 && c.multibulklen > 0 && |c.input| >= c.bulklen + 2
    {
      var arg := if IsShortcut(c) then CString(c.input) else c.input[..c.bulklen];
      c.(input := c.input[c.bulklen + 2..], argv := c.argv + [arg], bulklen := -1, multibulklen := c.multibulklen - 1)
    }

    /** One argument: the whole query buffer without copying it when it holds nothing else, or a copy of a part of it. */
    method ReadBulk() returns (ok: bool)
      requires Valid() && error.None? && reqtype == Multibulk && multibulklen > 0 && bulklen >= 0
      modifies this
      ensures qbPos <= |querybuf|
      ensures ok <==> |old(View()).input| >= old(bulklen) + 2
      ensures View() == if ok then Taken(old(View())) else old(View())
      ensures !ok ==> qbPos == old(qbPos) && querybuf == old(querybuf)
      ensures ok ==> bulklen == -1 && multibulklen == old(multibulklen) - 1 && error.None? && reqtype == Multibulk
      ensures ok && multibulklen > 0 ==> Valid()
    {
      hide CString;
      if |querybuf| - qbPos < bulklen + 2 {
        return false;
      }
      if qbPos == 0 && bulklen >= PROTO_MBULK_BIG_ARG && |querybuf| == bulklen + 2 {
        argv := argv + [CString(querybuf)];
        querybuf := "";
      } else {
        argv := argv + [querybuf[qbPos..][..bulklen]];
        assert querybuf[qbPos..][bulklen + 2..] == querybuf[qbPos + bulklen + 2..];
        qbPos := qbPos + bulklen + 2;
      }
      bulklen := -1;
      multibulklen := multibulklen - 1;
      ok := true;
    }

    static lemma FastStepOfLines(c: Client)
      requires c.Valid() && c.error.None? && c.reqtype != Unknown && c.bulklen == -1
      ensures c.reqtype == Inline && c.input != "" ==> FastStep(c) == InlineStep(c)
      ensures c.reqtype == Multibulk && c.multibulklen == 0 ==> FastStep(c) == CountStep(c)
      ensures c.reqtype == Multibulk && c.multibulklen > 0 ==> FastStep(c) == BulkCountStep(c)
    {
      hide SplitArgs, ToInteger, CString;
    }

    static lemma FastStepOfBulk(c: Client)
      requires c.Valid() && c.error.None? && c.multibulklen > 0 && c.bulklen >= 0 && !c.asCString
      ensures |c.input| < c.bulklen + 2 ==> FastStep(c) == Stop(c)
      ensures |c.input| >= c.bulklen + 2 ==> FastStep(c) == Go(if Taken(c).multibulklen == 0 then Finish(Taken(c)) else Taken(c))
    {
      hide CString, Finish;
      if IsShortcut(c) {
        assert c.input[c.bulklen + 2..] == "";
      }
    }

    static lemma Stuck(c: Client)
      requires c.Valid() && (c.input == "" || c.error.Some?)
      ensures FastStep(c) == Stop(c) && FastRun(c) == c
    {
      FastRunUnfolds(c);
    }

    /** Running `start` leads to what running `c` leads to, and `c` is further on. */
    static ghost predicate Further(start: Client, c: Client) {
      start.Valid() && c.Valid() && FastRun(start) == FastRun(c) && Rank(c) <= Rank(start)
    }

    static lemma {:induction false} StepFurther(start: Client, c: Client)
      requires Further(start, c)
      ensures FastStep(c).Go? ==> Further(start, FastStep(c).c) && Rank(FastStep(c).c) < Rank(start)
      ensures FastStep(c).Stop? ==> FastRun(start) == FastStep(c).c
    {
      hide FastStep, FastRun;
      FastRunUnfolds(c);
    }

    /** processMultibulkBuffer: C_OK when a request is ready, which may be an empty one. */
    method ProcessMultibulkBuffer() returns (ok: bool)
      requires Valid() && error.None? && reqtype == Multibulk
      modifies this
      ensures qbPos <= |querybuf|
      ensures ok ==> Further(old(View()), Finish(View())) && Rank(Finish(View())) < Rank(old(View())) && bulklen == -1
      ensures !ok ==> Valid() && View() == FastRun(old(View()))
    {
      hide FastStep, FastRun, Find, CString, Taken, CountStep, BulkCountStep, Further, Finish, Rank;
      ghost var start := View();
      FurtherFromHere(start);
      if multibulklen == 0 {
        FastStepOfLines(View());
        StepFurther(start, View());
        ok := ReadCount();
        if !ok || multibulklen == 0 {
          return;
        }
      }
      while multibulklen > 0
        invariant qbPos <= |querybuf| && error.None? && reqtype == Multibulk
        invariant multibulklen > 0 ==> Valid() && Further(start, View())
        invariant multibulklen == 0 ==> bulklen == -1 && Further(start, Finish(View())) && Rank(Finish(View())) < Rank(start)
        decreases multibulklen
      {
        if bulklen == -1 {
          FastStepOfLines(View());
          StepFurther(start, View());
          ok := ReadBulkCount();
          if !ok {
            break;
          }
        }
        FastStepOfBulk(View());
        StepFurther(start, View());
        ok := ReadBulk();
        if !ok {
          break;
        }
      }
      ok := multibulklen == 0;
    }

    static lemma FurtherFromHere(c: Client)
      requires c.Valid()
      ensures Further(c, c)
    {
      hide FastRun;
    }

    static lemma FurtherYet(a: Client, b: Client, c: Client)
      requires Further(a, b) && Further(b, c)
      ensures Further(a, c)
    {
      hide FastRun, Client.Valid;
    }

    /** The reset after a request, whether processCommand was called or not. */
    method FinishRequest()
      requires qbPos <= |querybuf| && bulklen == -1 && Finish(View()).Valid()
      modifies this
      ensures Valid() && View() == Finish(old(View()))
    {
      if argv != [] {
        dispatched := dispatched + [argv];
      }
      ResetClient();
    }

    /** One turn of the loop of processInputBuffer. */
    method ProcessRequest() returns (ok: bool)
      requires Valid() && error.None? && qbPos < |querybuf|
      modifies this
      ensures Valid()
      ensures ok ==> Further(old(View()), View()) && Rank(View()) < Rank(old(View()))
      ensures !ok ==> View() == FastRun(old(View()))
    {
      hide FastStep, FastRun, Find, CString, InlineStep, Further, Finish, Rank;
      ghost var start := View();
      FurtherFromHere(start);
      if reqtype == Unknown {
        TypeIsFound(start);
        StepFurther(start, start);
        reqtype := if querybuf[qbPos] == '*' then Multibulk else Inline;
      }
      ghost var typed := View();
      if reqtype == Inline {
        FastStepOfLines(typed);
        StepFurther(start, typed);
        ok := ProcessInlineBuffer();
        if !ok {
          return;
        }
        ghost var finished := Finish(View());
        StepShrinks(typed);
        assert Rank(finished) < Rank(start) by { FurtherRank(start, typed); }
      } else {
        ok := ProcessMultibulkBuffer();
        FurtherRank(start, typed);
        if !ok {
          return;
        }
        FurtherYet(start, typed, Finish(View()));
      }
      FurtherIsValid(start, Finish(View()));
      FinishRequest();
    }

    static lemma FurtherIsValid(a: Client, c: Client)
      requires Further(a, c)
      ensures c.Valid()
    {
      hide FastRun;
    }

    static lemma FurtherRank(a: Client, c: Client)
      requires Further(a, c)
      ensures Rank(c) <= Rank(a) && FastRun(a) == FastRun(c)
    {
      hide FastRun, Rank, Client.Valid;
    }

    static lemma StepShrinks(c: Client)
      requires c.Valid()
      ensures FastStep(c).Go? ==> Rank(FastStep(c).c) < Rank(c)
    {
      hide FastStep;
    }

    static lemma TypeIsFound(c: Client)
      requires c.Valid() && c.error.None? && c.input != "" && c.reqtype == Unknown
      ensures FastStep(c) == Go(c.(reqtype := if c.input[0] == '*' then Multibulk else Inline))
    {
    }

    /** processInputBuffer: everything that can be processed is, and the rest is moved to the front. */
    method ProcessInputBuffer()
      requires Valid()
      modifies this
      ensures Valid() && qbPos == 0
      ensures View() == FastRun(old(View()))
    {
      hide FastRun, Rank, Further;
      ghost var start := View();
      FurtherFromHere(start);
      while qbPos < |querybuf| && error.None?
        invariant Valid() && Further(start, View())
        decreases Rank(View())
      {
        ghost var before := View();
        var ok := ProcessRequest();
        if !ok {
          FurtherRank(start, before);
          TrimBuffer();
          return;
        }
        FurtherYet(start, before, View());
      }
      FurtherRank(start, View());
      Stuck(View());
      TrimBuffer();
    }

    method TrimBuffer()
      requires Valid()
      modifies this`querybuf, this`qbPos
      ensures Valid() && qbPos == 0 && View() == old(View())
    {
      if qbPos > 0 {
        querybuf := querybuf[qbPos..];
        qbPos := 0;
      }
    }

    /** How much readQueryFromClient asks for. */
    method ReadLength() returns (readlen: nat)
      requires Valid() && qbPos == 0
      ensures readlen == ReadSize(View())
    {
      assert querybuf[0..] == querybuf;
      readlen := PROTO_IOBUF_LEN;
      if reqtype == Multibulk && multibulklen != 0 && bulklen != -1 && bulklen >= PROTO_MBULK_BIG_ARG {
        var remaining := bulklen + 2 - |querybuf|;
        if remaining > 0 && remaining < readlen {
          readlen := remaining;
        }
      }
    }

    /** readQueryFromClient: append as much of `offered` as it asks for to the query buffer, and process that. */
    method ReadQuery(offered: string) returns (nread: nat)
      requires Valid() && qbPos == 0
      modifies this
      ensures Valid() && qbPos == 0
      ensures nread <= |offered| && nread <= ReadSize(old(View())) && (nread == |offered| || nread == ReadSize(old(View())))
      ensures View() == FastFeed(old(View()), offered[..nread])
    {
      hide FastRun, ReadSize;
      var readlen := ReadLength();
      nread := if |offered| < readlen then |offered| else readlen;
      assert querybuf[0..] == querybuf && (querybuf + offered[..nread])[0..] == querybuf + offered[..nread];
      querybuf := querybuf + offered[..nread];
      ProcessInputBuffer();
    }

    /**
     Reading a whole stream, however much of it is there each time: the reads cut it in a way that the code can
     meet, and leave the client where they lead, one after the other.
     */
    method ReadAll(net: string, sizes: seq<nat>) returns (ghost segments: seq<string>)
      requires Valid() && qbPos == 0 && forall i :: 0 <= i < |sizes| ==> sizes[i] > 0
      modifies this
      ensures Valid() && qbPos == 0
      ensures Concat(segments) == net && AreReads(old(View()), segments)
      ensures View() == FastFeedEach(old(View()), segments)
    {
      hide FastFeed, ReadSize, Client.Valid;
      ghost var start := View();
      segments := [];
      var done: nat, turn: nat := 0, 0;
      NoReads(start);
      while done < |net|
        invariant Valid() && qbPos == 0 && done <= |net| && ReadSoFar(start, View(), net[..done], segments)
        decreases |net| - done
      {
        var n := if turn < |sizes| && sizes[turn] < |net| - done then sizes[turn] else |net| - done;
        ghost var before := View();
        var offered := net[done..][..n];
        var nread := ReadQuery(offered);
        OneMoreRead(start, before, net[..done], segments, offered[..nread]);
        ReadFurther(net, done, n, nread);
        segments := segments + [offered[..nread]];
        done := done + nread;
        turn := turn + 1;
      }
      assert net[..|net|] == net;
    }

    /** These reads lead from `start` to `c`. */
    static ghost predicate ReadSoFar(start: Client, c: Client, read: string, segments: seq<string>) {
      start.Valid() && Concat(segments) == read && AreReads(start, segments) && c == FastFeedEach(start, segments)
    }

    static lemma {:induction false} NoReads(start: Client)
      requires start.Valid()
      ensures ReadSoFar(start, start, "", [])
    {
    }

    static lemma ReadFurther(net: string, done: nat, n: nat, nread: nat)
      requires nread <= n && done + n <= |net|
      ensures net[..done] + net[done..][..n][..nread] == net[..done + nread]
    {
    }

    static lemma {:induction false} OneRead(start: Client, data: string)
      requires start.Valid() && |data| <= ReadSize(start)
      ensures ReadSoFar(start, FastFeed(start, data), data, [data])
    {
      hide FastFeed, ReadSize, Client.Valid;
      assert [data][1..] == [];
      NoReads(FastFeed(start, data));
      assert data + "" == data;
    }

    static lemma {:induction false} OneMoreRead(start: Client, c: Client, read: string, segments: seq<string>, data: string)
      requires ReadSoFar(start, c, read, segments) && c.Valid() && |data| <= ReadSize(c)
      ensures ReadSoFar(start, FastFeed(c, data), read + data, segments + [data])
      decreases |segments|
    {
      hide FastFeed, ReadSize, Client.Valid;
      if segments == [] {
        OneRead(start, data);
        assert read == "" && read + data == data && segments + [data] == [data];
      } else {
        var more := segments + [data];
        assert more[0] == segments[0] && more[1..] == segments[1..] + [data];
        OneMoreRead(FastFeed(start, segments[0]), c, Concat(segments[1..]), segments[1..], data);
        assert segments[0] + (Concat(segments[1..]) + data) == read + data;
      }
    }
  }
}
