/** The canonical form of requests, and that it parses back however it is cut into segments. */
module RespEncoding {
  import opened IntegerStrings
  import opened Options
  import opened QuotedStrings
  import opened RespProtocol

  const CRLF := "\r\n"

  /** A line of a marker and a number. */
  function Line(marker: char, n: nat): string { [marker] + Print(n) + CRLF }

  function EncodeArg(a: string): string { Line('$', |a|) + (a + CRLF) }

  function EncodeArgs(args: seq<string>): string {
    if args == [] then "" else EncodeArg(args[0]) + EncodeArgs(args[1..])
  }

  /** An array of bulk strings. */
  function Encode(args: seq<string>): string { Line('*', |args|) + EncodeArgs(args) }

  function EncodeAll(cmds: seq<seq<string>>): string {
    if cmds == [] then "" else Encode(cmds[0]) + EncodeAll(cmds[1..])
  }

  ghost predicate AreArguments(args: seq<string>, limit: nat) {
    forall i :: 0 <= i < |args| ==> |args[i]| < limit
  }

  const ANY_LENGTH: nat := PROTO_MAX_BULK_LEN + 1

  /** Within the limits of the server, and arguments shorter than `limit`. */
  ghost predicate IsRequest(args: seq<string>, limit: nat) {
    1 <= |args| <= MAX_MULTIBULK_LEN && AreArguments(args, limit)
  }

  ghost predicate AreRequests(cmds: seq<seq<string>>, limit: nat) {
    forall i :: 0 <= i < |cmds| ==> IsRequest(cmds[i], limit)
  }

  /** Between requests. */
  predicate IsIdle(c: Client) {
    c.error.None? && c == Reset(c)
  }

  // ----- Lines -----

  lemma {:induction false} PrintIsPlain(n: nat)
    ensures '\r' !in Print(n) && NUL !in Print(n)
  {
    DecimalIsCanonical(n);
  }

  lemma {:induction false} ReadsBack(n: nat)
    requires n <= LLONG_MAX
    ensures ToInteger(Print(n)) == Some(n)
  {
    AcceptedIsPrinted(Print(n));
    assert Prints(Print(n), n);
    PrintInjective(n, Signed(Print(n)));
  }

  lemma {:induction false} LineIsShortEnough(marker: char, n: nat)
    requires n <= PROTO_MAX_BULK_LEN
    ensures |Line(marker, n)| <= 15
  {
    Digits10IsLength(n);
    hide Decimal;
  }

  /** The line in front of the input. */
  lemma {:induction false} LineReads(marker: char, n: nat, rest: string)
    requires n <= LLONG_MAX && marker != '\r' && marker != NUL
    ensures
      var s := Line(marker, n) + rest;
      var newline := Find(s, '\r');
      && newline == 1 + |Print(n)| <= |s| - 2 && |Line(marker, n)| == newline + 2
      && s[0] == marker && s[1..newline] == Print(n) && s[newline + 2..] == rest
      && ToInteger(s[1..newline]) == Some(n)
  {
    hide Print, ToInteger, Find;
    var s := Line(marker, n) + rest;
    PrintIsPlain(n);
    ReadsBack(n);
    FindAfter([marker] + Print(n), '\r', "\n" + rest);
    assert s == [marker] + Print(n) + ['\r'] + ("\n" + rest);
  }

  // ----- Short lines -----

  /** Where the next line is needed, it is there and not too long. */
  predicate LineIsShort(c: Client) {
    && (c.reqtype == Inline ==> 0 <= Find(c.input, '\n') <= PROTO_INLINE_MAX_SIZE)
    && (c.reqtype == Multibulk && c.bulklen == -1 ==> 0 <= Find(c.input, '\r') <= PROTO_INLINE_MAX_SIZE)
  }

  /** All lines on the way are short, and all arguments shorter than `limit`. */
  ghost predicate RunIsShort(c: Client, limit: nat)
    requires c.Valid()
    decreases Rank(c)
  {
    hide Step, LineIsShort;
    && (c.error.None? && c.input != "" ==> LineIsShort(c))
    && c.bulklen < limit
    && (Step(c).Go? ==> RunIsShort(Step(c).c, limit))
  }

  lemma TooBigHasNoLine(c: Client)
    requires c.Valid() && c.error.None? && Step(c).Stop? && IsTooBig(Step(c).c.error)
    ensures |c.input| > PROTO_INLINE_MAX_SIZE && (c.reqtype == Inline || (c.reqtype == Multibulk && c.bulklen == -1))
    ensures Find(c.input, if c.reqtype == Inline then '\n' else '\r') < 0
  {
    hide SplitArgs, ToInteger, Find, NonEmpty;
  }

  /** No prefix of such input is refused because of a line that is too big. */
  lemma {:induction false} ShortLinesPass(c: Client, more: string, limit: nat)
    requires c.Valid() && c.error.None? && c.With(more).Valid() && RunIsShort(c.With(more), limit)
    ensures !IsTooBig(Run(c).error)
    ensures Run(c).error.None? && Run(c).With(more).Valid() ==> RunIsShort(Run(c).With(more), limit)
    ensures limit <= PROTO_MBULK_BIG_ARG ==> RunIsThin(c)
    decreases Rank(c)
  {
    hide Step, Run, Client.Valid, Find;
    RunUnfolds(c);
    if Step(c).Go? {
      StepExtends(c, more);
      StepKeepsGoing(c);
      ShortLinesPass(Step(c).c, more, limit);
    } else if Step(c).c.error.None? {
      StopWithoutError(c);
    } else if IsTooBig(Step(c).c.error) {
      TooBigHasNoLine(c);
      FindExtends(c.input, more, '\n');
      FindExtends(c.input, more, '\r');
      assert false;
    }
  }

  // ----- Requests -----

  lemma {:induction false} CountReads(c: Client, n: nat, rest: string)
    requires c.Valid() && c.error.None? && c.reqtype == Multibulk && c.multibulklen == 0
    requires c.input == Line('*', n) + rest && 1 <= n <= MAX_MULTIBULK_LEN
    ensures Step(c) == Go(c.(input := rest, multibulklen := n)) && LineIsShort(c)
  {
    hide Line, ToInteger, Find, Finish;
    LineReads('*', n, rest);
    LineIsShortEnough('*', n);
  }

  lemma {:induction false} BulkCountReads(c: Client, n: nat, rest: string)
    requires c.Valid() && c.error.None? && c.reqtype == Multibulk && c.multibulklen > 0 && c.bulklen == -1
    requires c.input == Line('$', n) + rest && n <= PROTO_MAX_BULK_LEN
    ensures Step(c) == Go(c.(input := rest, bulklen := n)) && LineIsShort(c)
  {
    hide Line, ToInteger, Find, Finish;
    LineReads('$', n, rest);
    LineIsShortEnough('$', n);
  }

  /** What is dispatched for an argument. */
  function Taken(a: string, asCString: bool): string {
    if asCString && |a| >= PROTO_MBULK_BIG_ARG then CString(a + CRLF) else a
  }

  function AllTaken(args: seq<string>, asCString: bool): (r: seq<string>)
    ensures |r| == |args|
  {
    seq(|args|, i requires 0 <= i < |args| => Taken(args[i], asCString))
  }

  function RequestsTaken(cmds: seq<seq<string>>, asCString: bool): (r: seq<seq<string>>)
    ensures |r| == |cmds|
  {
    seq(|cmds|, i requires 0 <= i < |cmds| => AllTaken(cmds[i], asCString))
  }

  lemma AllTakenNext(args: seq<string>, asCString: bool)
    requires args != []
    ensures AllTaken(args, asCString) == [Taken(args[0], asCString)] + AllTaken(args[1..], asCString)
  {
    hide Taken;
  }

  lemma RequestsTakenNext(cmds: seq<seq<string>>, asCString: bool)
    requires cmds != []
    ensures RequestsTaken(cmds, asCString) == [AllTaken(cmds[0], asCString)] + RequestsTaken(cmds[1..], asCString)
  {
    hide AllTaken;
  }

  /** The client after one more argument. */
  function WithArg(c: Client, a: string, rest: string): Client
    requires c.multibulklen > 0
  {
    var r := c.(input := rest, argv := c.argv + [a], bulklen := -1, multibulklen := c.multibulklen - 1);
    if r.multibulklen == 0 then Finish(r) else r
  }

  lemma {:induction false} BulkReads(c: Client, a: string, rest: string)
    requires c.Valid() && c.error.None? && c.reqtype == Multibulk && c.multibulklen > 0 && c.bulklen == |a|
    requires c.input == a + CRLF + rest
    ensures Step(c) == Go(WithArg(c, Taken(a, c.asCString), rest))
  {
    hide Finish, CString;
    assert c.input[..|a|] == a && c.input[|a| + 2..] == rest && c.input[..|a| + 2] == a + CRLF;
  }

  /** `d` is where running `c` leads, and everything on the way is short if it is from there on. */
  ghost predicate LeadsTo(c: Client, d: Client, limit: nat) {
    c.Valid() && d.Valid() && Run(c) == Run(d) && (RunIsShort(d, limit) ==> RunIsShort(c, limit))
  }

  lemma {:induction false} OneStep(c: Client, d: Client, limit: nat)
    requires c.Valid() && Step(c) == Go(d) && LineIsShort(c) && c.bulklen < limit
    ensures LeadsTo(c, d, limit)
  {
    hide Step, Run, LineIsShort;
    RunUnfolds(c);
  }

  lemma {:induction false} ArgReads(c: Client, a: string, rest: string, limit: nat)
    requires c.Valid() && c.error.None? && c.reqtype == Multibulk && c.multibulklen > 0 && c.bulklen == -1
    requires c.input == EncodeArg(a) + rest && |a| < limit <= ANY_LENGTH
    ensures LeadsTo(c, WithArg(c, Taken(a, c.asCString), rest), limit)
  {
    hide Step, Run, Line, RunIsShort, Find, Taken;
    assert c.input == Line('$', |a|) + (a + CRLF + rest);
    BulkCountReads(c, |a|, a + CRLF + rest);
    var d := c.(input := a + CRLF + rest, bulklen := |a|);
    BulkReads(d, a, rest);
    OneStep(c, d, limit);
    OneStep(d, WithArg(d, Taken(a, c.asCString), rest), limit);
  }

  lemma {:induction false} ArgsRead(c: Client, args: seq<string>, rest: string, limit: nat)
    requires c.Valid() && c.error.None? && c.reqtype == Multibulk && c.multibulklen == |args| > 0 && c.bulklen == -1
    requires c.input == EncodeArgs(args) + rest && AreArguments(args, limit) && limit <= ANY_LENGTH
    ensures LeadsTo(c, Finish(c.(input := rest, multibulklen := 0, argv := c.argv + AllTaken(args, c.asCString))), limit)
    decreases |args|
  {
    hide LeadsTo, EncodeArg, Finish, Taken, AllTaken;
    AllTakenNext(args, c.asCString);
    var first, others := Taken(args[0], c.asCString), AllTaken(args[1..], c.asCString);
    var tail := EncodeArgs(args[1..]) + rest;
    assert c.input == EncodeArg(args[0]) + tail;
    ArgReads(c, args[0], tail, limit);
    assert c.argv + [first] + others == c.argv + AllTaken(args, c.asCString);
    if |args| == 1 {
      assert tail == rest && others == [] && c.argv + AllTaken(args, c.asCString) == c.argv + [first];
    } else {
      var d := WithArg(c, first, tail);
      assert d.Valid();
      ArgsRead(d, args[1..], rest, limit);
      Onward(c, d, Finish(c.(input := rest, multibulklen := 0, argv := c.argv + AllTaken(args, c.asCString))), limit);
    }
  }

  lemma Onward(c: Client, d: Client, e: Client, limit: nat)
    requires LeadsTo(c, d, limit) && LeadsTo(d, e, limit)
    ensures LeadsTo(c, e, limit)
  {
    hide Run, RunIsShort, Client.Valid;
  }

  lemma {:induction false} RequestReads(c: Client, args: seq<string>, rest: string, limit: nat)
    requires c.Valid() && IsIdle(c) && c.input == Encode(args) + rest && IsRequest(args, limit) && limit <= ANY_LENGTH
    ensures LeadsTo(c, c.(input := rest, dispatched := c.dispatched + [AllTaken(args, c.asCString)]), limit)
  {
    hide LeadsTo, EncodeArgs, Print, AreArguments, Taken;
    var taken := AllTaken(args, c.asCString);
    var d := c.(reqtype := Multibulk);
    assert c.input == Line('*', |args|) + (EncodeArgs(args) + rest);
    assert c.input[0] == '*';
    assert Step(c) == Go(d);
    OneStep(c, d, limit);
    CountReads(d, |args|, EncodeArgs(args) + rest);
    var e := d.(input := EncodeArgs(args) + rest, multibulklen := |args|);
    OneStep(d, e, limit);
    ArgsRead(e, args, rest, limit);
    assert [] + taken == taken;
    Onward(c, d, e, limit);
    Onward(c, e, c.(input := rest, dispatched := c.dispatched + [taken]), limit);
  }

  lemma {:induction false} RequestsRead(c: Client, cmds: seq<seq<string>>, limit: nat)
    requires c.Valid() && IsIdle(c) && c.input == EncodeAll(cmds) && AreRequests(cmds, limit) && limit <= ANY_LENGTH
    ensures LeadsTo(c, c.(input := "", dispatched := c.dispatched + RequestsTaken(cmds, c.asCString)), limit)
    decreases |cmds|
  {
    hide LeadsTo, Encode, IsRequest, AllTaken;
    var taken := RequestsTaken(cmds, c.asCString);
    if cmds == [] {
      assert c.dispatched + taken == c.dispatched;
      LeadsToItself(c, limit);
    } else {
      RequestsTakenNext(cmds, c.asCString);
      var first := AllTaken(cmds[0], c.asCString);
      var d := c.(input := EncodeAll(cmds[1..]), dispatched := c.dispatched + [first]);
      RequestReads(c, cmds[0], EncodeAll(cmds[1..]), limit);
      RequestsRead(d, cmds[1..], limit);
      assert c.dispatched + [first] + RequestsTaken(cmds[1..], c.asCString) == c.dispatched + taken;
      Onward(c, d, c.(input := "", dispatched := c.dispatched + taken), limit);
    }
  }

  lemma LeadsToItself(c: Client, limit: nat)
    requires c.Valid()
    ensures LeadsTo(c, c, limit)
  {
    hide Run, RunIsShort, Client.Valid;
  }

  lemma {:induction false} NothingToRead(c: Client, limit: nat)
    requires c.Valid() && c.input == "" && limit > 0
    ensures Run(c) == c
    ensures IsIdle(c) ==> RunIsShort(c, limit)
  {
    RunUnfolds(c);
  }

  /** Such input never has a line that is too big, and with small arguments the shortcut is not taken. */
  lemma {:induction false} SegmentsPass(c: Client, segments: seq<string>, limit: nat)
    requires c.Valid() && c.error.None? && RunIsShort(c.With(Concat(segments)), limit)
    ensures !IsTooBig(FeedEach(c, segments).error)
    ensures limit <= PROTO_MBULK_BIG_ARG && FeedEach(c, segments).error.None? ==> FastFeedEach(c, segments) == FeedEach(c, segments)
    decreases |segments|
  {
    hide Step, Run, RunIsShort, IsTooBig, FastRun, FastStep, RunIsThin;
    if segments == [] {
      assert !IsTooBig(c.error) by { NoneIsNotTooBig(c); }
    } else {
      var rest := Concat(segments[1..]);
      WithWith(c, segments[0], rest);
      ShortLinesPass(c.With(segments[0]), rest, limit);
      if limit <= PROTO_MBULK_BIG_ARG {
        ThinRun(c.With(segments[0]));
      }
      var r := Feed(c, segments[0]);
      if r.error.Some? {
        ErrorStays(r, segments[1..]);
      } else {
        SegmentsPass(r, segments[1..], limit);
      }
    }
  }

  lemma NoneIsNotTooBig(c: Client)
    requires c.error.None?
    ensures !IsTooBig(c.error)
  {
  }

  /** A big argument is never taken as it is. */
  lemma {:induction false} BigIsTakenWrong(a: string)
    requires |a| >= PROTO_MBULK_BIG_ARG
    ensures Taken(a, true) != a
  {
    hide CString;
    CStringOf(a + CRLF, |a|);
    assert (a + CRLF)[..|a|] == a && (a + CRLF)[|a|] == '\r';
  }

  /** No argument of any request is big. */
  ghost predicate AreSmall(cmds: seq<seq<string>>) {
    forall i, j :: 0 <= i < |cmds| && 0 <= j < |cmds[i]| ==> |cmds[i][j]| < PROTO_MBULK_BIG_ARG
  }

  lemma {:induction false} TakenAsTheyAre(cmds: seq<seq<string>>)
    ensures RequestsTaken(cmds, false) == cmds
    ensures RequestsTaken(cmds, true) == cmds <==> AreSmall(cmds)
  {
    hide Taken;
    forall i | 0 <= i < |cmds|
      ensures AllTaken(cmds[i], true) == cmds[i] <==> forall j :: 0 <= j < |cmds[i]| ==> |cmds[i][j]| < PROTO_MBULK_BIG_ARG
      ensures AllTaken(cmds[i], false) == cmds[i]
    {
      OneTaken(cmds[i]);
    }
    var taken := RequestsTaken(cmds, true);
    if taken == cmds {
      forall i | 0 <= i < |cmds|
        ensures AllTaken(cmds[i], true) == cmds[i]
      {
        assert taken[i] == cmds[i];
      }
    }
  }

  lemma {:induction false} OneTaken(args: seq<string>)
    ensures AllTaken(args, true) == args <==> forall j :: 0 <= j < |args| ==> |args[j]| < PROTO_MBULK_BIG_ARG
    ensures AllTaken(args, false) == args
  {
    forall j | 0 <= j < |args|
      ensures AllTaken(args, true)[j] == args[j] <==> |args[j]| < PROTO_MBULK_BIG_ARG
      ensures AllTaken(args, false)[j] == args[j]
    {
      if |args[j]| >= PROTO_MBULK_BIG_ARG {
        BigIsTakenWrong(args[j]);
      }
    }
    hide CString;
    if AllTaken(args, true) == args {
      forall j | 0 <= j < |args|
        ensures |args[j]| < PROTO_MBULK_BIG_ARG
      {
        assert AllTaken(args, true)[j] == args[j];
      }
    }
  }

  /**
   Any requests within the limits, encoded and cut into segments in any way, are dispatched with every
   argument as the machine takes it, that is, as it was sent unless it is big and taken as a C string; and
   nothing is left over. The shortcut makes no difference to arguments that are not big.
   */
  lemma {:induction false} RequestsArrive(c: Client, cmds: seq<seq<string>>, segments: seq<string>, limit: nat)
    requires c.Valid() && IsIdle(c) && c.input == "" && AreRequests(cmds, limit) && 0 < limit <= ANY_LENGTH
    requires Concat(segments) == EncodeAll(cmds)
    ensures FeedEach(c, segments) == c.(dispatched := c.dispatched + RequestsTaken(cmds, c.asCString))
    ensures !c.asCString ==> FeedEach(c, segments) == c.(dispatched := c.dispatched + cmds)
    ensures limit <= PROTO_MBULK_BIG_ARG ==> FastFeedEach(c, segments) == FeedEach(c, segments) == c.(dispatched := c.dispatched + cmds)
  {
    TakenAsTheyAre(cmds);
    assert limit <= PROTO_MBULK_BIG_ARG ==> AreSmall(cmds);
    hide Step, Run, RunIsShort, EncodeAll, AreRequests, Concat, FastFeedEach, RequestsTaken, AreSmall;
    var d := c.With(Concat(segments));
    assert d.input == EncodeAll(cmds);
    RequestsRead(d, cmds, limit);
    NothingToRead(c, limit);
    NothingToRead(c.(dispatched := c.dispatched + RequestsTaken(cmds, c.asCString)), limit);
    SegmentsPass(c, segments, limit);
    Segments(c, segments);
  }

  /**
   The code, with its shortcut and its own limit on what one read asks for: any requests within the limits of the
   server, however the reads cut them, are dispatched with every big argument replaced by what is in front of its
   first NUL, or if it has none, by itself and its line end. They arrive as they were sent if and only if
   no argument is big.
   */
  lemma {:induction false} RequestsAreRead(c: Client, cmds: seq<seq<string>>, segments: seq<string>)
    requires c.Valid() && IsIdle(c) && c.input == "" && !c.asCString && AreRequests(cmds, ANY_LENGTH)
    requires Concat(segments) == EncodeAll(cmds) && AreReads(c, segments)
    ensures FastFeedEach(c, segments) == c.(dispatched := c.dispatched + RequestsTaken(cmds, true))
    ensures FastFeedEach(c, segments) == c.(dispatched := c.dispatched + cmds) <==> AreSmall(cmds)
  {
    assert IsWaiting(c);
    hide FastFeedEach, FeedEach, FastStep, EncodeAll, AreRequests, Concat, RequestsTaken, AreReads, AreSmall;
    ReadsTakeCStrings(c, segments);
    RequestsArrive(AsCStrings(c), cmds, segments, ANY_LENGTH);
    TakenAsTheyAre(cmds);
    var r := FastFeedEach(c, segments);
    OfPlain(c, segments);
    assert r == AsCStrings(r).(asCString := false);
    SameAfter(c.dispatched, RequestsTaken(cmds, true), cmds);
  }

  lemma {:induction false} OfPlain(c: Client, segments: seq<string>)
    requires c.Valid()
    ensures FastFeedEach(c, segments).asCString == c.asCString
    decreases |segments|
  {
    hide FastRun, FastFeed;
    if segments != [] {
      FastRunStops(c.With(segments[0]));
      assert FastFeed(c, segments[0]) == FastRun(c.With(segments[0])) by { FastFeedIs(c, segments[0]); }
      OfPlain(FastFeed(c, segments[0]), segments[1..]);
    }
  }

  lemma FastFeedIs(c: Client, data: string)
    requires c.Valid()
    ensures FastFeed(c, data) == FastRun(c.With(data))
  {
  }

  lemma SameAfter<T>(a: seq<T>, b: seq<T>, c: seq<T>)
    ensures a + b == a + c <==> b == c
  {
    assert (a + b)[|a|..] == b && (a + c)[|a|..] == c;
  }

  /** A big argument that has just arrived, with nothing behind it, is dispatched wrong, whatever it is. */
  lemma {:induction false} BigArgumentIsWrong(c: Client, a: string)
    requires c.Valid() && c.error.None? && c.reqtype == Multibulk && c.multibulklen > 0 && !c.asCString
    requires c.bulklen == |a| >= PROTO_MBULK_BIG_ARG && c.input == a + CRLF
    ensures FastStep(c) != Step(c)
  {
    hide Step, FastStep;
    ShortcutIsRight(c);
    assert c.input[|a|] == '\r';
  }

  // ----- Inline requests -----

  ghost predicate IsPlain(s: string) {
    forall i :: 0 <= i < |s| ==> IsPrintable(s[i])
  }

  lemma EscapeIsPlain(c: char)
    requires IsByte(c)
    ensures IsPlain(Escape(c))
  {
  }

  lemma PlainConcat(a: string, b: string)
    requires IsPlain(a) && IsPlain(b)
    ensures IsPlain(a + b)
  {
  }

  lemma {:induction false} EscapeAllIsPlain(s: string)
    requires AreBytes(s)
    ensures IsPlain(EscapeAll(s))
    decreases |s|
  {
    hide Escape, IsPlain;
    if s == "" {
      assert IsPlain("") by { EmptyIsPlain(); }
    } else {
      EscapeIsPlain(s[0]);
      EscapeAllIsPlain(s[1..]);
      PlainConcat(Escape(s[0]), EscapeAll(s[1..]));
    }
  }

  lemma EmptyIsPlain()
    ensures IsPlain("") && IsPlain("\"") && IsPlain(" ")
  {
  }

  lemma {:induction false} JoinReprIsPlain(args: seq<string>)
    requires AreArgs(args)
    ensures IsPlain(JoinRepr(args))
    ensures args != [] ==> JoinRepr(args) != "" && JoinRepr(args)[0] == '"'
    decreases |args|
  {
    hide EscapeAll, IsPlain;
    EmptyIsPlain();
    if args != [] {
      EscapeAllIsPlain(args[0]);
      PlainConcat("\"", EscapeAll(args[0]));
      PlainConcat("\"" + EscapeAll(args[0]), "\"");
      if |args| > 1 {
        JoinReprIsPlain(args[1..]);
        PlainConcat(Repr(args[0]), " ");
        PlainConcat(Repr(args[0]) + " ", JoinRepr(args[1..]));
      }
    }
  }

  lemma PlainHasNoEnd(s: string)
    requires IsPlain(s)
    ensures '\n' !in s && '\r' !in s && NUL !in s
  {
  }

  /** Arguments that an inline request can carry: at least a byte each, and no NUL. */
  ghost predicate AreInline(args: seq<string>) {
    AreArgs(args) && forall i :: 0 <= i < |args| ==> args[i] != "" && NUL !in args[i]
  }

  lemma {:induction false} WholeCString(s: string)
    requires NUL !in s
    ensures CString(s) == s
    decreases |s|
  {
    if s != "" {
      WholeCString(s[1..]);
      assert s == [s[0]] + s[1..];
    }
  }

  /** Arguments that are not empty and have no NUL are all kept. */
  lemma {:induction false} KeepsAll(args: seq<string>)
    requires forall i :: 0 <= i < |args| ==> args[i] != "" && NUL !in args[i]
    ensures NonEmpty(args) == args
    decreases |args|
  {
    hide CString;
    if args != [] {
      WholeCString(args[0]);
      KeepsAll(args[1..]);
      assert args == [args[0]] + args[1..];
    }
  }
}
