/**
 The request side of the Redis serialization protocol as networking.c reads it: a pure
 state machine over the unread input of one client, and what follows about the way its
 bytes are cut into TCP segments.
 */
module RespProtocol {
  import opened IntegerStrings
  import opened Options
  import opened QuotedStrings

  const PROTO_INLINE_MAX_SIZE: nat := 64 * 1024
  const PROTO_MBULK_BIG_ARG: nat := 32 * 1024
  const PROTO_IOBUF_LEN: nat := 16 * 1024
  const PROTO_MAX_BULK_LEN: nat := 512 * 1024 * 1024
  const MAX_MULTIBULK_LEN: nat := 1024 * 1024

  const NUL := '\0'

  datatype ReqType = Unknown | Inline | Multibulk

  datatype ProtocolError =
    | TooBigInline | TooBigCount | TooBigBulkCount
    | UnbalancedQuotes | InvalidMultibulkLength | ExpectedDollar(got: char) | InvalidBulkLength

  /**
   `input` is the query buffer from qb_pos on; `dispatched` the commands handed to processCommand. A big argument
   is copied, or if `asCString`, taken as a C string together with the two bytes behind it.
   */
  datatype Client = Client(
    input: string, reqtype: ReqType, multibulklen: nat, bulklen: int, argv: seq<string>,
    dispatched: seq<seq<string>>, error: Option<ProtocolError>, asCString: bool)
  {
    ghost predicate Valid() {
      && -1 <= bulklen
      && (multibulklen == 0 ==> bulklen == -1 && argv == [])
      && (reqtype != Multibulk ==> multibulklen == 0)
      && (reqtype == Multibulk && multibulklen == 0 ==> input != "" && input[0] == '*')
    }

    /** More input has arrived. */
    function With(more: string): Client { this.(input := input + more) }
  }

  const NEW_CLIENT := Client("", Unknown, 0, -1, [], [], None, false)

  // ----- Lines -----

  /** strchr: where `ch` first is, before any NUL; -1 for NULL. */
  function Find(s: string, ch: char): (r: int)
    ensures -1 <= r < |s|
    ensures r >= 0 ==> s[r] == ch
  {
    if s == "" then -1
    else if s[0] == ch then 0
    else if s[0] == NUL then -1
    else
      var r := Find(s[1..], ch);
      if r < 0 then -1 else r + 1
  }

  /** A character that has been found stays where it is when more arrives. */
  lemma {:induction false} FindExtends(s: string, more: string, ch: char)
    ensures Find(s, ch) >= 0 ==> Find(s + more, ch) == Find(s, ch)
    ensures Find(s, ch) < 0 ==> Find(s + more, ch) < 0 || Find(s + more, ch) >= |s|
    decreases |s|
  {
    if s != "" {
      assert (s + more)[1..] == s[1..] + more;
      FindExtends(s[1..], more, ch);
    }
  }

  lemma {:induction false} FindAfter(a: string, ch: char, rest: string)
    requires ch !in a && NUL !in a
    ensures Find(a + [ch] + rest, ch) == |a|
    decreases |a|
  {
    if a != "" {
      assert (a + [ch] + rest)[1..] == a[1..] + [ch] + rest;
      FindAfter(a[1..], ch, rest);
    }
  }

  /** The part of `s` that a C function sees. */
  function CString(s: string): string {
    if s == "" || s[0] == NUL then "" else [s[0]] + CString(s[1..])
  }

  /** The arguments that are not empty, as sdsnew copies them. */
  function NonEmpty(args: seq<string>): seq<string> {
    if args == [] then []
    else if args[0] == "" then NonEmpty(args[1..])
    else [CString(args[0])] + NonEmpty(args[1..])
  }

  function ToInteger(s: string): Option<int> {
    if IsAccepted(s) then Some(Signed(s)) else None
  }

  // ----- Steps -----

  /** A step goes on, or processing stops until more input arrives. */
  datatype Outcome = Go(c: Client) | Stop(c: Client)

  function Reset(c: Client): Client {
    c.(reqtype := Unknown, multibulklen := 0, bulklen := -1, argv := [])
  }

  /** processCommand on what has been read, and then the client is reset; nothing is executed for an empty request. */
  function Finish(c: Client): Client {
    Reset(if c.argv == [] then c else c.(dispatched := c.dispatched + [c.argv]))
  }

  function Fail(c: Client, e: ProtocolError): Outcome { Stop(c.(error := Some(e))) }

  /** No end of line in the input: wait for it, unless there is too much without one already. */
  function NoLine(c: Client, e: ProtocolError): Outcome {
    if |c.input| > PROTO_INLINE_MAX_SIZE then Fail(c, e) else Stop(c)
  }

  /** processInlineBuffer. */
  function InlineStep(c: Client): Outcome {
    var newline := Find(c.input, '\n');
    if newline < 0 then NoLine(c, TooBigInline)
    else
      var end := if newline > 0 && c.input[newline - 1] == '\r' then newline - 1 else newline;
      match SplitArgs(c.input[..end])
      case None => Fail(c, UnbalancedQuotes)
      case Some(args) => Go(Finish(c.(input := c.input[newline + 1..], argv := NonEmpty(args))))
  }

  /** The number of arguments: the first part of processMultibulkBuffer. */
  function CountStep(c: Client): Outcome
    requires c.input != "" && c.input[0] == '*'
  {
    var newline := Find(c.input, '\r');
    if newline < 0 then NoLine(c, TooBigCount)
    else if newline > |c.input| - 2 then Stop(c)
    else
      match ToInteger(c.input[1..newline])
      case None => Fail(c, InvalidMultibulkLength)
      case Some(ll) =>
        if ll > MAX_MULTIBULK_LEN then Fail(c, InvalidMultibulkLength)
        else
          var r := c.(input := c.input[newline + 2..]);
          Go(if ll <= 0 then Finish(r) else r.(multibulklen := ll))
  }

  /** The length of an argument. */
  function BulkCountStep(c: Client): Outcome {
    var newline := Find(c.input, '\r');
    if newline < 0 then NoLine(c, TooBigBulkCount)
    else if newline > |c.input| - 2 then Stop(c)
    else if c.input[0] != '$' then Fail(c, ExpectedDollar(c.input[0]))
    else
      match ToInteger(c.input[1..newline])
      case None => Fail(c, InvalidBulkLength)
      case Some(ll) =>
        if ll < 0 || ll > PROTO_MAX_BULK_LEN then Fail(c, InvalidBulkLength)
        else Go(c.(input := c.input[newline + 2..], bulklen := ll))
  }

  /** The argument of `n` bytes at the front of the input. */
  function Argument(s: string, n: nat, asCString: bool): string
    requires n + 2 <= |s|
  {
    if asCString && n >= PROTO_MBULK_BIG_ARG then CString(s[..n + 2]) else s[..n]
  }

  /** One argument, and the two bytes behind it, whatever they are. */
  function BulkStep(c: Client): Outcome
    requires c.bulklen >= 0 && c.multibulklen > 0
  {
    hide CString;
    if |c.input| < c.bulklen + 2 then Stop(c)
    else
      var r := c.(input := c.input[c.bulklen + 2..], argv := c.argv + [Argument(c.input, c.bulklen, c.asCString)],
                  bulklen := -1, multibulklen := c.multibulklen - 1);
      Go(if r.multibulklen == 0 then Finish(r) else r)
  }

  function Step(c: Client): (o: Outcome)
    requires c.Valid()
    ensures o.c.Valid()
    ensures o.Go? ==> |o.c.input| < |c.input| || (o.c == c.(reqtype := o.c.reqtype) && c.reqtype == Unknown != o.c.reqtype)
    ensures o.Stop? ==> o.c == c.(error := o.c.error)
  {
    hide SplitArgs, ToInteger;
    if c.error.Some? || c.input == "" then Stop(c)
    else if c.reqtype == Unknown then Go(c.(reqtype := if c.input[0] == '*' then Multibulk else Inline))
    else if c.reqtype == Inline then InlineStep(c)
    else if c.multibulklen == 0 then CountStep(c)
    else if c.bulklen == -1 then BulkCountStep(c)
    else BulkStep(c)
  }

  /** Steps left at most. */
  function Rank(c: Client): nat { 2 * |c.input| + if c.reqtype == Unknown then 1 else 0 }

  /** processInputBuffer: step until more input is needed, or an error closes the connection. */
  function Run(c: Client): (r: Client)
    requires c.Valid()
    ensures r.Valid() && |r.input| <= |c.input|
    decreases Rank(c)
  {
    hide Step;
    match Step(c)
    case Stop(r) => r
    case Go(d) => Run(d)
  }

  /** One segment arrives. */
  function Feed(c: Client, data: string): (r: Client)
    requires c.Valid()
    ensures r.Valid()
  {
    Run(c.With(data))
  }

  // ----- More input -----

  predicate IsTooBig(e: Option<ProtocolError>) {
    e == Some(TooBigInline) || e == Some(TooBigCount) || e == Some(TooBigBulkCount)
  }

  function Terminator(e: Option<ProtocolError>): char { if e == Some(TooBigInline) then '\n' else '\r' }

  lemma DropExtends(s: string, more: string, n: nat)
    requires n <= |s|
    ensures (s + more)[n..] == s[n..] + more && (s + more)[..n] == s[..n]
  {
  }

  lemma SliceExtends(s: string, more: string, m: nat, n: nat)
    requires m <= n <= |s|
    ensures (s + more)[m..n] == s[m..n]
  {
  }

  lemma FinishWith(c: Client, more: string)
    ensures Finish(c.With(more)) == Finish(c).With(more)
  {
  }

  lemma InlineExtends(c: Client, more: string)
    requires InlineStep(c).Go?
    ensures InlineStep(c.With(more)) == Go(InlineStep(c).c.With(more))
  {
    hide SplitArgs, NonEmpty, Find, Finish;
    var s, newline := c.input, Find(c.input, '\n');
    FindExtends(s, more, '\n');
    DropExtends(s, more, newline + 1);
    DropExtends(s, more, newline);
    if newline > 0 {
      DropExtends(s, more, newline - 1);
    }
    var end := if newline > 0 && s[newline - 1] == '\r' then newline - 1 else newline;
    FinishWith(c.(input := s[newline + 1..], argv := NonEmpty(SplitArgs(s[..end]).value)), more);
  }

  lemma CountExtends(c: Client, more: string)
    requires c.input != "" && c.input[0] == '*' && CountStep(c).Go?
    ensures CountStep(c.With(more)) == Go(CountStep(c).c.With(more))
  {
    hide ToInteger, Find, Finish;
    var s, newline := c.input, Find(c.input, '\r');
    FindExtends(s, more, '\r');
    DropExtends(s, more, newline + 2);
    SliceExtends(s, more, 1, newline);
    FinishWith(c.(input := s[newline + 2..]), more);
  }

  lemma BulkCountExtends(c: Client, more: string)
    requires BulkCountStep(c).Go?
    ensures BulkCountStep(c.With(more)) == Go(BulkCountStep(c).c.With(more))
  {
    hide ToInteger, Find;
    var s, newline := c.input, Find(c.input, '\r');
    FindExtends(s, more, '\r');
    DropExtends(s, more, newline + 2);
    SliceExtends(s, more, 1, newline);
  }

  lemma BulkExtends(c: Client, more: string)
    requires c.bulklen >= 0 && c.multibulklen > 0 && BulkStep(c).Go?
    ensures BulkStep(c.With(more)) == Go(BulkStep(c).c.With(more))
  {
    hide Finish, CString;
    var s := c.input;
    DropExtends(s, more, c.bulklen + 2);
    DropExtends(s, more, c.bulklen);
    FinishWith(c.(input := s[c.bulklen + 2..], argv := c.argv + [Argument(s, c.bulklen, c.asCString)], bulklen := -1, multibulklen := c.multibulklen - 1), more);
  }

  /** A step that goes on does the same with more input. */
  lemma StepExtends(c: Client, more: string)
    requires c.Valid() && Step(c).Go?
    ensures c.With(more).Valid() && Step(c.With(more)) == Go(Step(c).c.With(more))
  {
    hide InlineStep, CountStep, BulkCountStep, BulkStep;
    assert c.With(more).Valid();
    if c.reqtype == Inline {
      InlineExtends(c, more);
    } else if c.reqtype == Multibulk && c.multibulklen == 0 {
      CountExtends(c, more);
    } else if c.reqtype == Multibulk && c.bulklen == -1 {
      BulkCountExtends(c, more);
    } else if c.reqtype == Multibulk {
      BulkExtends(c, more);
    }
  }

  /** An error stays the error with more input, unless it is that a line was too big and its end has come. */
  lemma ErrorExtends(c: Client, more: string)
    requires c.Valid() && c.error.None? && Step(c).Stop? && Step(c).c.error.Some?
    ensures c.With(more).Valid()
    ensures
      var r := Step(c).c;
      Step(c.With(more)) == Stop(r.With(more)) <==> !(IsTooBig(r.error) && Find(r.input + more, Terminator(r.error)) >= 0)
  {
    hide SplitArgs, ToInteger, NonEmpty, Find;
    var s := c.input;
    FindExtends(s, more, '\n');
    FindExtends(s, more, '\r');
    if c.reqtype == Inline {
      var newline := Find(s, '\n');
      if newline >= 0 {
        DropExtends(s, more, newline);
        if newline > 0 {
          DropExtends(s, more, newline - 1);
        }
      }
    } else if c.reqtype == Multibulk && c.bulklen == -1 {
      var newline := Find(s, '\r');
      if newline >= 1 {
        SliceExtends(s, more, 1, newline);
      }
    }
  }

  /** A line that was too big has ended after all with `more`. */
  predicate LateLine(r: Client, more: string) {
    IsTooBig(r.error) && Find(r.input + more, Terminator(r.error)) >= 0
  }

  lemma {:induction false} RunUnfolds(c: Client)
    requires c.Valid()
    ensures Run(c) == if Step(c).Go? then Run(Step(c).c) else Step(c).c
  {
    hide Step;
  }

  lemma WithWith(c: Client, a: string, b: string)
    ensures c.With(a).With(b) == c.With(a + b)
    ensures c.With("") == c
  {
    assert c.input + a + b == c.input + (a + b);
  }

  /** Running on, with more input, from where a run stopped is running with all of it from the start, or not. */
  lemma {:induction false} RunOn(c: Client, more: string)
    requires c.Valid() && c.With(more).Valid() && Run(c).With(more).Valid()
    ensures Run(Run(c).With(more)) == Run(c.With(more)) <==> c.error.Some? || !LateLine(Run(c), more)
    decreases Rank(c)
  {
    hide Step, Run, LateLine, Client.Valid;
    RunUnfolds(c);
    var r := Step(c).c;
    if c.error.Some? {
      StuckOnError(c);
    } else if Step(c).Go? {
      StepExtends(c, more);
      RunUnfolds(c.With(more));
      StepKeepsGoing(c);
      RunOn(r, more);
    } else if r.error.None? {
      assert r == c by { StopWithoutError(c); }
      NotLate(r, more);
    } else {
      StoppedRun(c, more);
    }
  }

  lemma StuckOnError(c: Client)
    requires c.Valid() && c.error.Some?
    ensures Step(c) == Stop(c) && Run(c) == c
  {
  }

  lemma StepKeepsGoing(c: Client)
    requires c.Valid() && Step(c).Go?
    ensures c.error.None? && Step(c).c.error.None? && Rank(Step(c).c) < Rank(c)
  {
  }

  lemma StopWithoutError(c: Client)
    requires c.Valid() && Step(c).Stop? && Step(c).c.error.None?
    ensures Step(c).c == c
  {
    if c.error.Some? {
      StuckOnError(c);
    }
    hide Step;
  }

  lemma NotLate(r: Client, more: string)
    requires r.error.None?
    ensures !LateLine(r, more)
  {
  }

  lemma ErrorIsTyped(c: Client)
    requires c.Valid() && c.error.None? && Step(c).Stop? && Step(c).c.error.Some?
    ensures c.reqtype != Unknown
  {
  }

  lemma StoppedRun(c: Client, more: string)
    requires c.Valid() && c.With(more).Valid() && c.error.None? && Step(c).Stop? && Step(c).c.error.Some?
    ensures
      var r := Step(c).c;
      r.With(more).Valid() && (Run(r.With(more)) == Run(c.With(more)) <==> !LateLine(r, more))
  {
    var r := Step(c).c;
    ErrorExtends(c, more);
    hide Step, Run, Find, SplitArgs;
    assert r.With(more).Valid();
    StuckOnError(r.With(more));
    RunUnfolds(c.With(more));
    var o := Step(c.With(more));
    if o.Go? {
      ErrorIsTyped(c);
      assert |Run(o.c).input| < |r.With(more).input|;
    }
  }

  /**
   Segmentation independence. Two segments leave the client where one leaves it that is both of them
   together, with the same commands dispatched, unless the first one was refused because its last line had
   grown too big without an end, and the second one ends that line.
   */
  lemma {:induction false} Segmentation(c: Client, a: string, b: string)
    requires c.Valid() && c.error.None?
    ensures Feed(Feed(c, a), b) == Feed(c, a + b) <==> !LateLine(Feed(c, a), b)
  {
    hide Step, Run, LateLine;
    WithWith(c, a, b);
    RunOn(c.With(a), b);
  }

  function Concat(segments: seq<string>): string {
    if segments == [] then "" else segments[0] + Concat(segments[1..])
  }

  function FeedEach(c: Client, segments: seq<string>): (r: Client)
    requires c.Valid()
    ensures r.Valid()
    decreases |segments|
  {
    hide Feed;
    if segments == [] then c else FeedEach(Feed(c, segments[0]), segments[1..])
  }

  /** Once refused, always refused. */
  lemma {:induction false} ErrorStays(c: Client, segments: seq<string>)
    requires c.Valid() && c.error.Some?
    ensures FeedEach(c, segments).error == c.error
    decreases |segments|
  {
    hide Step, Run;
    if segments != [] {
      StuckOnError(c.With(segments[0]));
      ErrorStays(Feed(c, segments[0]), segments[1..]);
    }
  }

  /** Any number of segments, when no line was found too big. */
  lemma {:induction false} Segments(c: Client, segments: seq<string>)
    requires c.Valid() && c.error.None? && Run(c) == c
    requires !IsTooBig(FeedEach(c, segments).error)
    ensures FeedEach(c, segments) == Feed(c, Concat(segments))
    decreases |segments|
  {
    hide Step, Run;
    if segments == [] {
      WithWith(c, "", "");
    } else {
      var r, rest := Feed(c, segments[0]), segments[1..];
      Segmentation(c, segments[0], Concat(rest));
      if r.error.Some? {
        ErrorStays(r, rest);
        FeedsNothing(r, rest);
      } else {
        RunIsDone(c.With(segments[0]));
        Segments(r, rest);
      }
    }
  }

  lemma {:induction false} FeedsNothing(r: Client, segments: seq<string>)
    requires r.Valid() && r.error.Some?
    ensures FeedEach(r, segments) == Feed(r, Concat(segments)) == r.With(Concat(segments))
    decreases |segments|
  {
    hide Step, Run;
    StuckOnError(r.With(Concat(segments)));
    if segments == [] {
      WithWith(r, "", "");
    } else {
      StuckOnError(r.With(segments[0]));
      FeedsNothing(r.With(segments[0]), segments[1..]);
      WithWith(r, segments[0], Concat(segments[1..]));
    }
  }

  /** Nothing more happens after a run until more input arrives. */
  lemma {:induction false} RunIsDone(c: Client)
    requires c.Valid()
    ensures Run(Run(c)) == Run(c)
    decreases Rank(c)
  {
    hide Step;
    RunUnfolds(c);
    if Step(c).Go? {
      StepKeepsGoing(c);
      RunIsDone(Step(c).c);
    } else if Step(c).c.error.Some? {
      StuckOnError(Step(c).c);
    } else {
      StopWithoutError(c);
    }
  }

  // ----- The shortcut for big arguments -----

  /** The query buffer holds nothing but a big argument and the two bytes behind it. */
  predicate IsShortcut(c: Client) {
    && c.error.None? && c.reqtype == Multibulk && c.multibulklen > 0
    && c.bulklen >= PROTO_MBULK_BIG_ARG && |c.input| == c.bulklen + 2
  }

  /**
   What processMultibulkBuffer does: where Step copies the argument, the shortcut takes the whole
   buffer as a C string, before the two bytes behind the argument are removed from it.
   */
  function FastStep(c: Client): (o: Outcome)
    requires c.Valid()
    ensures o.c.Valid()
    ensures o.Go? ==> Rank(o.c) < Rank(c)
    ensures o.Stop? ==> o == Step(c)
  {
    hide InlineStep, CountStep, BulkCountStep, CString;
    if IsShortcut(c) then
      var r := c.(input := "", argv := c.argv + [CString(c.input)], bulklen := -1, multibulklen := c.multibulklen - 1);
      Go(if r.multibulklen == 0 then Finish(r) else r)
    else Step(c)
  }

  function FastRun(c: Client): (r: Client)
    requires c.Valid()
    ensures r.Valid()
    decreases Rank(c)
  {
    hide FastStep;
    match FastStep(c)
    case Stop(r) => r
    case Go(d) => FastRun(d)
  }

  function FastFeed(c: Client, data: string): (r: Client)
    requires c.Valid()
    ensures r.Valid()
  {
    FastRun(c.With(data))
  }

  function FastFeedEach(c: Client, segments: seq<string>): (r: Client)
    requires c.Valid()
    ensures r.Valid()
    decreases |segments|
  {
    hide FastFeed;
    if segments == [] then c else FastFeedEach(FastFeed(c, segments[0]), segments[1..])
  }

  /** The shortcut gets an argument right exactly when its first NUL is the byte behind it. */
  lemma ShortcutIsRight(c: Client)
    requires c.Valid() && IsShortcut(c) && !c.asCString
    ensures FastStep(c) == Step(c) <==> c.input[c.bulklen] == NUL && NUL !in c.input[..c.bulklen]
  {
    hide CString;
    CStringOf(c.input, c.bulklen);
    assert c.input[c.bulklen + 2..] == "";
    SameArg(c.argv, CString(c.input), c.input[..c.bulklen]);
    SameArgs(c.dispatched, c.argv + [CString(c.input)], c.argv + [c.input[..c.bulklen]]);
  }

  lemma SameArg(args: seq<string>, a: string, b: string)
    ensures args + [a] == args + [b] <==> a == b
  {
    assert (args + [a])[|args|] == a && (args + [b])[|args|] == b;
  }

  lemma SameArgs(cmds: seq<seq<string>>, a: seq<string>, b: seq<string>)
    ensures cmds + [a] == cmds + [b] <==> a == b
  {
    assert (cmds + [a])[|cmds|] == a && (cmds + [b])[|cmds|] == b;
  }

  lemma {:induction false} CStringOf(s: string, n: nat)
    requires n < |s|
    ensures CString(s) == s[..n] <==> s[n] == NUL && NUL !in s[..n]
    decreases n
  {
    if n == 0 {
    } else if s[0] == NUL {
      assert s[0] in s[..n];
    } else {
      CStringOf(s[1..], n - 1);
      assert s[..n] == [s[0]] + s[1..][..n - 1];
      assert CString(s) == [s[0]] + CString(s[1..]);
      assert CString(s)[1..] == CString(s[1..]) && s[..n][1..] == s[1..][..n - 1];
    }
  }

  /** No argument on the way is big. */
  ghost predicate RunIsThin(c: Client)
    requires c.Valid()
    decreases Rank(c)
  {
    hide Step;
    c.bulklen < PROTO_MBULK_BIG_ARG && (Step(c).Go? ==> RunIsThin(Step(c).c))
  }

  /** The shortcut changes nothing for small arguments. */
  lemma {:induction false} ThinRun(c: Client)
    requires c.Valid() && RunIsThin(c)
    ensures FastRun(c) == Run(c)
    decreases Rank(c)
  {
    NotAShortcut(c);
    hide Step, FastStep, Run;
    RunUnfolds(c);
    if Step(c).Go? {
      StepKeepsGoing(c);
      ThinRun(Step(c).c);
    }
  }

  lemma NotAShortcut(c: Client)
    requires c.Valid() && c.bulklen < PROTO_MBULK_BIG_ARG
    ensures FastStep(c) == Step(c)
  {
    hide Step;
  }

  lemma {:induction false} ThinPrefix(c: Client, more: string)
    requires c.Valid() && c.With(more).Valid() && RunIsThin(c.With(more))
    ensures RunIsThin(c)
    ensures Run(c).With(more).Valid() ==> RunIsThin(Run(c).With(more))
    decreases Rank(c)
  {
    hide Step, Run, Client.Valid;
    RunUnfolds(c);
    if c.error.Some? {
      StuckOnError(c);
    } else if Step(c).Go? {
      StepExtends(c, more);
      StepKeepsGoing(c);
      ThinPrefix(Step(c).c, more);
    } else if Step(c).c.error.None? {
      StopWithoutError(c);
    } else if Step(c).c.With(more).Valid() {
      StuckOnError(Step(c).c.With(more));
    }
  }

  /** Segmentation independence with the shortcut in place, as long as arguments are not big. */
  lemma {:induction false} FastSegmentation(c: Client, a: string, b: string)
    requires c.Valid() && c.error.None? && RunIsThin(c.With(a + b))
    ensures FastFeed(FastFeed(c, a), b) == FastFeed(c, a + b) <==> !LateLine(FastFeed(c, a), b)
  {
    hide Run, FastRun, RunIsThin, LateLine;
    WithWith(c, a, b);
    ThinPrefix(c.With(a), b);
    ThinRun(c.With(a));
    ThinRun(c.With(a + b));
    ThinRun(Feed(c, a).With(b));
    Segmentation(c, a, b);
  }

  // ----- Reads -----

  /** What readQueryFromClient asks for: never more than a big argument that is awaited still lacks. */
  function ReadSize(c: Client): (n: nat)
    ensures 0 < n <= PROTO_IOBUF_LEN
  {
    if c.reqtype == Multibulk && c.multibulklen > 0 && c.bulklen >= PROTO_MBULK_BIG_ARG then
      var remaining := c.bulklen + 2 - |c.input|;
      if 0 < remaining < PROTO_IOBUF_LEN then remaining else PROTO_IOBUF_LEN
    else
      PROTO_IOBUF_LEN
  }

  /** Segments as they can be read, each from the state that the ones before it leave. */
  ghost predicate AreReads(c: Client, segments: seq<string>)
    requires c.Valid()
    decreases |segments|
  {
    hide FastFeed;
    segments != [] ==> |segments[0]| <= ReadSize(c) && AreReads(FastFeed(c, segments[0]), segments[1..])
  }

  /** The client of the plain machine that takes every big argument as a C string. */
  function AsCStrings(c: Client): Client { c.(asCString := true) }

  /** Nothing can be done before more arrives. */
  predicate IsWaiting(c: Client)
    requires c.Valid()
  {
    FastStep(c) == Stop(c)
  }

  /** A big argument, if one is awaited, is not followed by anything. */
  predicate IsNarrow(c: Client) {
    c.bulklen >= PROTO_MBULK_BIG_ARG ==> |c.input| <= c.bulklen + 2
  }

  lemma {:induction false} NarrowStep(c: Client)
    requires c.Valid() && !c.asCString && IsNarrow(c)
    ensures AsCStrings(c).Valid()
    ensures
      var o, w := FastStep(c), Step(AsCStrings(c));
      (o.Go? <==> w.Go?) && AsCStrings(o.c) == w.c
  {
    hide Find, SplitArgs, NonEmpty, ToInteger, CString;
    if IsShortcut(c) {
      assert c.input[..c.bulklen + 2] == c.input && c.input[c.bulklen + 2..] == "";
    }
  }

  lemma {:induction false} FastStepShrinks(c: Client)
    requires c.Valid()
    ensures |FastStep(c).c.input| <= |c.input| && FastStep(c).c.asCString == c.asCString
    ensures FastStep(c).Stop? ==> FastStep(c).c == c.(error := FastStep(c).c.error)
  {
    hide SplitArgs, NonEmpty, ToInteger, CString, Find;
  }

  lemma {:induction false} InlineUsesOld(c: Client, data: string)
    requires c.Valid() && c.error.None? && IsWaiting(c) && c.With(data).Valid() && c.input != "" && c.reqtype == Inline
    ensures var o := FastStep(c.With(data)); o.Go? ==> |o.c.input| <= |data|
  {
    hide SplitArgs, NonEmpty, ToInteger, CString, Find, CountStep, BulkCountStep, BulkStep;
    FindExtends(c.input, data, '\n');
  }

  lemma {:induction false} CountUsesOld(c: Client, data: string)
    requires c.Valid() && c.error.None? && IsWaiting(c) && c.With(data).Valid() && c.input != "" && c.reqtype == Multibulk && c.multibulklen == 0
    ensures var o := FastStep(c.With(data)); o.Go? ==> |o.c.input| <= |data|
  {
    hide SplitArgs, NonEmpty, ToInteger, CString, Find, InlineStep, BulkCountStep, BulkStep;
    FindExtends(c.input, data, '\r');
  }

  lemma {:induction false} BulkCountUsesOld(c: Client, data: string)
    requires c.Valid() && c.error.None? && IsWaiting(c) && c.With(data).Valid() && c.input != "" && c.reqtype == Multibulk && c.multibulklen != 0 && c.bulklen == -1
    ensures var o := FastStep(c.With(data)); o.Go? ==> |o.c.input| <= |data|
  {
    hide SplitArgs, NonEmpty, ToInteger, CString, Find, InlineStep, CountStep, BulkStep;
    FindExtends(c.input, data, '\r');
  }

  lemma {:induction false} BulkUsesOld(c: Client, data: string)
    requires c.Valid() && c.error.None? && IsWaiting(c) && c.With(data).Valid() && c.input != "" && c.reqtype == Multibulk && c.multibulklen != 0 && c.bulklen != -1
    ensures var o := FastStep(c.With(data)); o.Go? ==> |o.c.input| <= |data|
  {
    hide SplitArgs, NonEmpty, ToInteger, CString, Find, InlineStep, CountStep, BulkCountStep;
  }

  /** The first step with more input leaves at most what is new. */
  lemma {:induction false} StepUsesOld(c: Client, data: string)
    requires c.Valid() && c.error.None? && IsWaiting(c) && c.With(data).Valid()
    ensures var o := FastStep(c.With(data)); o.Go? ==> |o.c.input| <= |data|
  {
    assert c.input != "" ==> c.reqtype != Unknown;
    hide FastStep, IsWaiting;
    if c.input == "" {
      FastStepShrinks(c.With(data));
    } else if c.reqtype == Inline {
      InlineUsesOld(c, data);
    } else if c.multibulklen == 0 {
      CountUsesOld(c, data);
    } else if c.bulklen == -1 {
      BulkCountUsesOld(c, data);
    } else {
      BulkUsesOld(c, data);
    }
  }

  lemma {:induction false} FastRunUnfolds(c: Client)
    requires c.Valid()
    ensures FastRun(c) == if FastStep(c).Go? then FastRun(FastStep(c).c) else FastStep(c).c
  {
    hide FastStep;
  }

  /** With no more unread than one read brings, every big argument is still incomplete. */
  lemma {:induction false} SmallRun(c: Client)
    requires c.Valid() && !c.asCString && |c.input| <= PROTO_IOBUF_LEN
    ensures AsCStrings(c).Valid() && AsCStrings(FastRun(c)) == Run(AsCStrings(c))
    decreases Rank(c)
  {
    NarrowStep(c);
    FastStepShrinks(c);
    hide Step, FastStep, Run, FastRun;
    RunUnfolds(AsCStrings(c));
    FastRunUnfolds(c);
    if FastStep(c).Go? {
      SmallRun(FastStep(c).c);
    }
  }

  /** A run ends where nothing can be done, or with an error. */
  lemma {:induction false} FastRunStops(c: Client)
    requires c.Valid()
    ensures IsWaiting(FastRun(c)) && FastRun(c).asCString == c.asCString
    decreases Rank(c)
  {
    FastStepShrinks(c);
    FastRunUnfolds(c);
    hide FastStep, FastRun;
    if FastStep(c).Go? {
      FastRunStops(FastStep(c).c);
    } else {
      StoppedIsWaiting(c);
    }
  }

  lemma {:induction false} StoppedIsWaiting(c: Client)
    requires c.Valid() && FastStep(c).Stop?
    ensures IsWaiting(FastStep(c).c)
  {
    hide SplitArgs, NonEmpty, ToInteger, CString, Find;
  }

  lemma {:induction false} ReadIsNarrow(c: Client, data: string)
    requires c.Valid() && c.error.None? && IsWaiting(c) && |data| <= ReadSize(c)
    ensures c.With(data).Valid() && IsNarrow(c.With(data))
  {
  }

  /**
   What the code makes of a read is what the machine makes of it that takes every big argument as a C string:
   a read never brings more than the argument that is awaited, so each of them goes through the shortcut.
   */
  lemma {:induction false} ReadTakesCStrings(c: Client, data: string)
    requires c.Valid() && !c.asCString && IsWaiting(c) && |data| <= ReadSize(c)
    ensures AsCStrings(c).Valid() && AsCStrings(FastFeed(c, data)) == Feed(AsCStrings(c), data)
    ensures IsWaiting(FastFeed(c, data)) && !FastFeed(c, data).asCString
  {
    var d := c.With(data);
    FastRunStops(d);
    hide Run, FastRun;
    if c.error.Some? {
      StuckOnError(AsCStrings(d));
      FastRunUnfolds(d);
    } else {
      ReadIsNarrow(c, data);
      NarrowStep(d);
      StepUsesOld(c, data);
      FastStepShrinks(d);
      hide Step, FastStep;
      RunUnfolds(AsCStrings(d));
      FastRunUnfolds(d);
      if FastStep(d).Go? {
        SmallRun(FastStep(d).c);
      }
    }
  }

  /** The same for any number of reads. */
  lemma {:induction false} ReadsTakeCStrings(c: Client, segments: seq<string>)
    requires c.Valid() && !c.asCString && IsWaiting(c) && AreReads(c, segments)
    ensures AsCStrings(c).Valid() && AsCStrings(FastFeedEach(c, segments)) == FeedEach(AsCStrings(c), segments)
    decreases |segments|
  {
    hide Feed, FastFeed, Step, FastStep, ReadSize;
    if segments != [] {
      ReadTakesCStrings(c, segments[0]);
      ReadsTakeCStrings(FastFeed(c, segments[0]), segments[1..]);
    }
  }

  /**
   Two reads of the code leave the client where one read leaves it that is both of them together, big arguments or
   not, unless the first was refused because of a line that had grown too big, and the second one ends that line.
   */
  lemma {:induction false} ReadSegmentation(c: Client, a: string, b: string)
    requires c.Valid() && !c.asCString && c.error.None? && IsWaiting(c)
    requires |a + b| <= ReadSize(c) && |b| <= ReadSize(FastFeed(c, a))
    ensures FastFeed(FastFeed(c, a), b) == FastFeed(c, a + b) <==> !LateLine(FastFeed(c, a), b)
  {
    ReadTakesCStrings(c, a);
    ReadTakesCStrings(c, a + b);
    ReadTakesCStrings(FastFeed(c, a), b);
    hide FastFeed, Feed, LateLine, FastStep, ReadSize;
    Segmentation(AsCStrings(c), a, b);
    SameLateLine(FastFeed(c, a), b);
  }

  lemma SameLateLine(r: Client, more: string)
    ensures LateLine(AsCStrings(r), more) == LateLine(r, more)
  {
  }
}
