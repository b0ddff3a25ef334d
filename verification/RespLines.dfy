/** What the reader of networking.c makes of one line of a request, by the bytes of the line. */
module RespLines {
  import opened IntegerStrings
  import opened Options
  import opened QuotedStrings
  import opened RespProtocol
  import opened RespEncoding
  import Q = QuotedLines

  // ----- Inline requests -----

  /** A line of no other request: its end is the first newline, and it does not start as an array. */
  predicate IsInlineLine(line: string) {
    '\n' !in line && NUL !in line && (line == "" || line[0] != '*')
  }

  /** The line ends at LF, or CR LF; a CR belongs to the end. */
  predicate IsLineEnd(line: string, end: string) {
    end == "\r\n" || (end == "\n" && (line == "" || line[|line| - 1] != '\r'))
  }

  lemma {:induction false} LineEnds(line: string, end: string, rest: string)
    requires '\n' !in line && NUL !in line && IsLineEnd(line, end)
    ensures
      var s := line + end + rest;
      && Find(s, '\n') == |line| + |end| - 1 && s[|line| + |end|..] == rest && s[..|line|] == line
      && (|end| == 2 ==> s[|line|] == '\r') && (|end| == 1 && line != "" ==> s[|line| - 1] != '\r')
  {
    hide Find;
    var s := line + end + rest;
    if end == "\n" {
      assert s == line + ['\n'] + rest;
      FindAfter(line, '\n', rest);
    } else {
      assert s == line + "\r" + ['\n'] + rest;
      FindAfter(line + "\r", '\n', rest);
    }
  }

  /** processInlineBuffer on a whole line. */
  lemma {:induction false} LineIsSplit(c: Client, line: string, end: string, rest: string)
    requires IsInlineLine(line) && IsLineEnd(line, end) && c.input == line + end + rest
    ensures
      InlineStep(c) == match SplitArgs(line)
        case None => Fail(c, UnbalancedQuotes)
        case Some(args) => Go(Finish(c.(input := rest, argv := NonEmpty(args))))
  {
    hide SplitArgs, NonEmpty, Finish, Find;
    LineEnds(line, end, rest);
    assert |end| == 1 || |end| == 2;
    var newline := Find(c.input, '\n');
    var cut := if newline > 0 && c.input[newline - 1] == '\r' then newline - 1 else newline;
    assert cut == |line| && c.input[..cut] == line && c.input[newline + 1..] == rest;
  }

  /** An inline line as one step. */
  lemma {:induction false} InlineLine(c: Client, line: string, end: string, rest: string)
    requires c.Valid() && IsIdle(c) && IsInlineLine(line) && IsLineEnd(line, end) && c.input == line + end + rest
    ensures
      Run(c) == match SplitArgs(line)
        case None => c.(reqtype := Inline, error := Some(UnbalancedQuotes))
        case Some(args) => Run(Finish(c.(reqtype := Inline, input := rest, argv := NonEmpty(args))))
  {
    hide SplitArgs, NonEmpty, Finish, Find, CountStep, BulkCountStep, BulkStep, Run, IsLineEnd, IsInlineLine;
    FirstOf(line, end, rest);
    var d := c.(reqtype := Inline);
    assert Step(c) == Go(d);
    assert Step(d) == InlineStep(d);
    LineIsSplit(d, line, end, rest);
    hide Step, InlineStep;
    RunUnfolds(c);
    RunUnfolds(d);
  }

  lemma FirstOf(line: string, end: string, rest: string)
    requires IsInlineLine(line) && IsLineEnd(line, end)
    ensures line + end + rest != "" && (line + end + rest)[0] != '*'
  {
  }

  /**
   Words on a line of their own, ended by CR LF or by LF alone, are dispatched as one request of their values;
   no words are no request.
   */
  lemma {:induction false} WordsAreDispatched(c: Client, blanks: string, words: seq<Q.Word>, end: string, rest: string)
    requires c.Valid() && IsIdle(c) && Q.AreBlank(blanks) && Q.AreWords(words)
    requires
      var line := blanks + Q.LineOf(words);
      IsInlineLine(line) && IsLineEnd(line, end) && c.input == line + end + rest
    requires forall i :: 0 <= i < |Q.ArgsOf(words)| ==> Q.ArgsOf(words)[i] != "" && NUL !in Q.ArgsOf(words)[i]
    ensures Run(c) == Run(c.(input := rest, dispatched := if words == [] then c.dispatched else c.dispatched + [Q.ArgsOf(words)]))
  {
    hide SplitArgs, NonEmpty, Q.AreWords, Q.AreBlank, Q.LineOf, Run, IsInlineLine, IsLineEnd;
    var line := blanks + Q.LineOf(words);
    InlineLine(c, line, end, rest);
    assert line + "" == line;
    Q.LineReads(blanks, words, "");
    KeepsAll(Q.ArgsOf(words));
    hide Q.ArgsOf;
    ArgsOfNone(words);
  }

  lemma ArgsOfNone(words: seq<Q.Word>)
    requires Q.AreWords(words)
    ensures Q.ArgsOf(words) == [] <==> words == []
  {
  }

  lemma {:induction false} CutAtNul(a: string, tail: string)
    requires NUL !in a
    ensures CString(a + [NUL] + tail) == a
  {
    CStringOf(a + [NUL] + tail, |a|);
    assert (a + [NUL] + tail)[..|a|] == a;
  }

  lemma {:induction false} KeepsEach(a: seq<string>, b: seq<string>)
    ensures NonEmpty(a + b) == NonEmpty(a) + NonEmpty(b)
    decreases |a|
  {
    hide CString;
    if a == [] {
      assert a + b == b;
    } else {
      KeepsEach(a[1..], b);
      assert (a + b)[0] == a[0] && (a + b)[1..] == a[1..] + b;
    }
  }

  lemma KeepsOne(arg: string)
    ensures NonEmpty([arg]) == if arg == "" then [] else [CString(arg)]
  {
    hide CString;
    assert [arg][1..] == [] && NonEmpty([]) == [];
  }

  /** An empty argument is dropped, and another is cut at its first NUL. */
  lemma {:induction false} KeepsRest(before: seq<string>, a: string, tail: string, after: seq<string>)
    requires NUL !in a
    ensures NonEmpty(before + [""] + after) == NonEmpty(before) + NonEmpty(after)
    ensures NonEmpty(before + [a + [NUL] + tail] + after) == NonEmpty(before) + [a] + NonEmpty(after)
  {
    hide NonEmpty, CString;
    CutAtNul(a, tail);
    KeepsOne("");
    KeepsOne(a + [NUL] + tail);
    KeepsEach(before, [""]);
    KeepsEach(before + [""], after);
    KeepsEach(before, [a + [NUL] + tail]);
    KeepsEach(before + [a + [NUL] + tail], after);
  }

  /** Quoted arguments on a line of their own are dispatched as one request, exactly as they were quoted. */
  lemma {:induction false} InlineRequestReads(c: Client, args: seq<string>, rest: string)
    requires c.Valid() && IsIdle(c) && args != [] && AreInline(args)
    requires c.input == JoinRepr(args) + CRLF + rest
    ensures Run(c) == Run(c.(input := rest, dispatched := c.dispatched + [args]))
  {
    hide JoinRepr, SplitArgs, NonEmpty, IsPlain, Run;
    JoinReprIsPlain(args);
    PlainHasNoEnd(JoinRepr(args));
    InlineLine(c, JoinRepr(args), CRLF, rest);
    QuotingRoundTrip(args);
    KeepsAll(args);
  }

  /** A line with a quote left open, or with something right behind a closing quote, ends the connection. */
  lemma {:induction false} UnbalancedLine(c: Client, blanks: string, f: Q.Form, end: string, rest: string)
    requires c.Valid() && IsIdle(c) && Q.AreBlank(blanks) && Q.IsForm(f) && !f.Good?
    requires
      var line := blanks + Q.TextOf(f);
      IsInlineLine(line) && IsLineEnd(line, end) && c.input == line + end + rest
    ensures Run(c) == c.(reqtype := Inline, error := Some(UnbalancedQuotes))
  {
    hide SplitArgs, Q.IsForm, Q.AreBlank, Q.TextOf, Run, IsInlineLine, IsLineEnd;
    InlineLine(c, blanks + Q.TextOf(f), end, rest);
    Q.FormReads(blanks, f);
  }

  // ----- Lines of a multibulk request -----

  /** A line without CR, that a CR and another byte end. */
  predicate IsBulkLine(line: string) { '\r' !in line && NUL !in line }

  lemma {:induction false} BulkLineEnds(line: string, x: char, rest: string)
    requires IsBulkLine(line)
    ensures
      var s := line + ['\r', x] + rest;
      Find(s, '\r') == |line| && |line| <= |s| - 2 && s[|line| + 2..] == rest && s[..|line|] == line
      && (line != "" ==> s[0] == line[0] && s[1..|line|] == line[1..]) && (line == "" ==> s[0] == '\r')
  {
    hide Find;
    var s := line + ['\r', x] + rest;
    FindAfter(line, '\r', [x] + rest);
    assert s == line + ['\r'] + ([x] + rest);
  }

  lemma IntegerOf(s: string)
    ensures match ToInteger(s) case Some(v) => Print(v) == s && IsInt64(v) case None => forall v :: IsInt64(v) ==> Print(v) != s
  {
    hide Print;
    AcceptedIsPrinted(s);
    forall v | IsInt64(v) && Print(v) == s ensures ToInteger(s).Some? {
      assert Prints(s, v);
    }
  }

  lemma IntegerIs(s: string, v: int)
    requires IsInt64(v) && Print(v) == s
    ensures ToInteger(s) == Some(v)
  {
    hide Print;
    IntegerOf(s);
    assert Print(ToInteger(s).value) == Print(v);
    PrintInjective(ToInteger(s).value, v);
  }

  /** The first line of a request: a star and the number of arguments. */
  lemma {:induction false} CountLine(c: Client, s: string, x: char, rest: string)
    requires c.Valid() && IsIdle(c) && IsBulkLine(s) && c.input == "*" + s + ['\r', x] + rest
    ensures (forall v :: IsInt64(v) ==> Print(v) != s) ==> Run(c) == c.(reqtype := Multibulk, error := Some(InvalidMultibulkLength))
    ensures forall v :: IsInt64(v) && Print(v) == s ==>
      Run(c) == if v > 1048576 then c.(reqtype := Multibulk, error := Some(InvalidMultibulkLength))
                else if v <= 0 then Run(c.(input := rest))
                else Run(c.(reqtype := Multibulk, input := rest, multibulklen := v))
  {
    hide Find, Print, ToInteger, BulkCountStep, BulkStep, InlineStep, Run, IsInt64;
    assert IsBulkLine("*" + s);
    BulkLineEnds("*" + s, x, rest);
    assert ("*" + s)[1..] == s;
    IntegerOf(s);
    forall v | IsInt64(v) && Print(v) == s ensures ToInteger(s) == Some(v) {
      IntegerIs(s, v);
    }
    var d := c.(reqtype := Multibulk);
    assert Step(c) == Go(d);
    assert Step(d) == CountStep(d);
    hide Step;
    RunUnfolds(c);
    RunUnfolds(d);
  }

  /** The line of an argument: a dollar sign and its length. */
  lemma {:induction false} LengthLine(c: Client, line: string, x: char, rest: string)
    requires c.Valid() && c.error.None? && c.reqtype == Multibulk && c.multibulklen > 0 && c.bulklen == -1
    requires IsBulkLine(line) && c.input == line + ['\r', x] + rest
    ensures line == "" ==> Run(c) == c.(error := Some(ExpectedDollar('\r')))
    ensures line != "" && line[0] != '$' ==> Run(c) == c.(error := Some(ExpectedDollar(line[0])))
    ensures line != "" && line[0] == '$' && (forall v :: IsInt64(v) ==> Print(v) != line[1..]) ==> Run(c) == c.(error := Some(InvalidBulkLength))
    ensures line != "" && line[0] == '$' ==> forall v :: IsInt64(v) && Print(v) == line[1..] ==>
      Run(c) == if v < 0 || v > 536870912 then c.(error := Some(InvalidBulkLength)) else Run(c.(input := rest, bulklen := v))
  {
    hide Find, Print, ToInteger, CountStep, BulkStep, InlineStep, Run, IsInt64;
    BulkLineEnds(line, x, rest);
    if line != "" {
      IntegerOf(line[1..]);
      forall v | IsInt64(v) && Print(v) == line[1..] ensures ToInteger(line[1..]) == Some(v) {
        IntegerIs(line[1..], v);
      }
    }
    assert Step(c) == BulkCountStep(c);
    hide Step;
    RunUnfolds(c);
  }

  /**
   An argument of `n` bytes with two more behind it, whatever they are: it is copied, unless it is of 32 KiB or more
   and all there is, and then it is taken as a C string. The last argument completes the request.
   */
  lemma {:induction false} ArgumentIsTaken(c: Client, n: nat)
    requires c.Valid() && c.error.None? && c.reqtype == Multibulk && c.multibulklen > 0 && c.bulklen == n && !c.asCString
    requires |c.input| >= n + 2
    ensures
      var a := if n >= 32768 && |c.input| == n + 2 then CString(c.input) else c.input[..n];
      FastStep(c) == Go(
        if c.multibulklen == 1 then
          c.(input := c.input[n + 2..], reqtype := Unknown, multibulklen := 0, bulklen := -1, argv := [],
             dispatched := c.dispatched + [c.argv + [a]])
        else
          c.(input := c.input[n + 2..], multibulklen := c.multibulklen - 1, bulklen := -1, argv := c.argv + [a]))
  {
    hide CString, InlineStep, CountStep, BulkCountStep;
    assert |c.input| == n + 2 ==> c.input[n + 2..] == "";
  }

  /** A read asks for 16 KiB, or for what an argument of 32 KiB or more still lacks with its two bytes, if that is less. */
  lemma ReadSizeIs(c: Client)
    ensures
      var lacks := c.bulklen + 2 - |c.input|;
      ReadSize(c) == if c.reqtype == Multibulk && c.multibulklen > 0 && c.bulklen >= 32768 && 0 < lacks < 16384 then lacks else 16384
  {
  }

  // ----- No line yet -----

  /** Without the end of a line, input is waited for, up to 64 KiB of it. */
  lemma {:induction false} InlineUnfinished(c: Client)
    requires c.Valid() && IsIdle(c) && c.input != "" && c.input[0] != '*' && '\n' !in c.input
    ensures Run(c) == c.(reqtype := Inline, error := if |c.input| > 65536 then Some(TooBigInline) else None)
  {
    hide Find, SplitArgs, NonEmpty, CountStep, BulkCountStep, BulkStep, Run;
    var d := c.(reqtype := Inline);
    assert Step(c) == Go(d);
    assert Step(d) == InlineStep(d);
    RunUnfolds(c);
    RunUnfolds(d);
  }

  lemma {:induction false} CountUnfinished(c: Client)
    requires c.Valid() && IsIdle(c) && c.input != "" && c.input[0] == '*' && '\r' !in c.input
    ensures Run(c) == c.(reqtype := Multibulk, error := if |c.input| > 65536 then Some(TooBigCount) else None)
  {
    hide Find, ToInteger, InlineStep, BulkCountStep, BulkStep, Run;
    var d := c.(reqtype := Multibulk);
    assert Step(c) == Go(d);
    assert Step(d) == CountStep(d);
    RunUnfolds(c);
    RunUnfolds(d);
  }

  lemma {:induction false} LengthUnfinished(c: Client)
    requires c.Valid() && c.error.None? && c.reqtype == Multibulk && c.multibulklen > 0 && c.bulklen == -1
    requires c.input != "" && '\r' !in c.input
    ensures Run(c) == c.(error := if |c.input| > 65536 then Some(TooBigBulkCount) else None)
  {
    hide Find, ToInteger, InlineStep, CountStep, BulkStep, Run;
    assert Step(c) == BulkCountStep(c);
    RunUnfolds(c);
  }

  lemma {:induction false} TwoArgs(a: string, b: string)
    ensures EncodeArgs([a, b]) == EncodeArg(a) + EncodeArg(b)
  {
    hide EncodeArg;
    assert [a, b][1..] == [b] && [b][1..] == [];
    assert EncodeArgs([b]) == EncodeArg(b) + EncodeArgs([b][1..]);
  }

  /** The canonical form on the wire, on an example. */
  lemma {:induction false} EncodeExample()
    ensures Encode(["STATUS", "12"]) == "*2\r\n$6\r\nSTATUS\r\n$2\r\n12\r\n"
  {
    assert Print(2) == "2" && Print(6) == "6";
    hide Print, EncodeArgs;
    TwoArgs("STATUS", "12");
    assert EncodeArg("STATUS") == "$6\r\nSTATUS\r\n";
  }
}
