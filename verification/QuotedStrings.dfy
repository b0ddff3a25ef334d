/** Quoted arguments on a line: sdscatrepr and sdssplitargs of sds.c. Characters are the 256 bytes of the C locale. */
module QuotedStrings {
  import opened Options

  predicate IsByte(c: char) { c as int < 256 }

  predicate AreBytes(s: string) {
    forall i :: 0 <= i < |s| ==> IsByte(s[i])
  }

  predicate IsPrintable(c: char) { ' ' <= c <= '~' }

  predicate IsSpace(c: char) { c == ' ' || 9 <= c as int <= 13 }

  const ALERT := 7 as char
  const BACKSPACE := 8 as char

  // ----- Hexadecimal digits -----

  /** is_hex_digit. */
  predicate IsHexDigit(c: char) { '0' <= c <= '9' || 'a' <= c <= 'f' || 'A' <= c <= 'F' }

  /** hex_digit_to_int. */
  function HexDigitToInt(c: char): (d: nat)
    ensures d < 16
  {
    if '0' <= c <= '9' then c as int - '0' as int
    else if 'a' <= c <= 'f' then c as int - 'a' as int + 10
    else if 'A' <= c <= 'F' then c as int - 'A' as int + 10
    else 0
  }

  function HexDigit(d: nat): (c: char)
    requires d < 16
    ensures IsHexDigit(c) && HexDigitToInt(c) == d
  {
    if d < 10 then ('0' as int + d) as char else ('a' as int + d - 10) as char
  }

  // ----- sdscatrepr -----

  /** How one byte is written between double quotes. */
  function Escape(c: char): (e: string)
    requires IsByte(c)
    ensures 0 < |e|
  {
    if c == '\\' || c == '"' then ['\\', c]
    else if c == '\n' then "\\n"
    else if c == '\r' then "\\r"
    else if c == '\t' then "\\t"
    else if c == ALERT then "\\a"
    else if c == BACKSPACE then "\\b"
    else if IsPrintable(c) then [c]
    else ['\\', 'x', HexDigit(c as int / 16), HexDigit(c as int % 16)]
  }

  function EscapeAll(s: string): string
    requires AreBytes(s)
  {
    if s == "" then "" else Escape(s[0]) + EscapeAll(s[1..])
  }

  function Repr(s: string): string
    requires AreBytes(s)
  {
    "\"" + EscapeAll(s) + "\""
  }

  lemma {:induction false} EscapeAllAppend(s: string, c: char)
    requires AreBytes(s) && IsByte(c)
    ensures EscapeAll(s + [c]) == EscapeAll(s) + Escape(c)
    decreases |s|
  {
    hide Escape;
    if s == "" {
      assert EscapeAll([c]) == Escape(c) + EscapeAll([c][1..]);
    } else {
      EscapeAllAppend(s[1..], c);
      assert (s + [c])[1..] == s[1..] + [c];
    }
  }

  /** sdscatrepr: append the quoted form of `p` to `s`. */
  method Sdscatrepr(s: string, p: string) returns (r: string)
    requires AreBytes(p)
    ensures r == s + Repr(p)
  {
    hide Escape;
    r := s + "\"";
    for i := 0 to |p|
      invariant r == s + "\"" + EscapeAll(p[..i])
    {
      EscapeAllAppend(p[..i], p[i]);
      assert p[..i + 1] == p[..i] + [p[i]];
      r := r + Escape(p[i]);
    }
    assert p[..|p|] == p;
    r := r + "\"";
  }

  // ----- sdssplitargs -----

  /** A C string: the terminator, and whatever is beyond it, reads as NUL. */
  function At(line: string, p: nat): char {
    if p < |line| then line[p] else '\0'
  }

  datatype Mode = Bare | Double | Single

  /** The byte that a backslash followed by `c` stands for. */
  function Unescape(c: char): char {
    if c == 'n' then '\n'
    else if c == 'r' then '\r'
    else if c == 't' then '\t'
    else if c == 'b' then BACKSPACE
    else if c == 'a' then ALERT
    else c
  }

  function HexByte(hi: char, lo: char): char {
    (HexDigitToInt(hi) * 16 + HexDigitToInt(lo)) as char
  }

  predicate IsHexEscape(line: string, p: nat): (yes: bool)
    ensures yes ==> At(line, p) == '\\' && At(line, p + 3) != '\0'
  {
    At(line, p) == '\\' && At(line, p + 1) == 'x' && IsHexDigit(At(line, p + 2)) && IsHexDigit(At(line, p + 3))
  }

  /** A closing quote must be followed by a space or nothing at all. */
  predicate MayClose(line: string, p: nat) {
    At(line, p + 1) == '\0' || IsSpace(At(line, p + 1))
  }

  /** What the character at `p` does to a token: the token goes on in some mode at some place, ends there, or is wrong. */
  datatype Next = More(mode: Mode, current: string, p: nat) | Done(token: string, p: nat) | Wrong

  function Advance(line: string, mode: Mode, current: string, p: nat): (n: Next)
    ensures n.More? ==> p < n.p && p < |line|
    ensures n.Done? ==> n.p >= p
    ensures n.Done? && At(line, p) != '\0' ==> n.p > p
  {
    var c := At(line, p);
    match mode
    case Double =>
      if IsHexEscape(line, p) then More(Double, current + [HexByte(At(line, p + 2), At(line, p + 3))], p + 4)
      else if c == '\\' && At(line, p + 1) != '\0' then More(Double, current + [Unescape(At(line, p + 1))], p + 2)
      else if c == '"' then if MayClose(line, p) then Done(current, p + 1) else Wrong
      else if c == '\0' then Wrong
      else More(Double, current + [c], p + 1)
    case Single =>
      if c == '\\' && At(line, p + 1) == '\'' then More(Single, current + ['\''], p + 2)
      else if c == '\'' then if MayClose(line, p) then Done(current, p + 1) else Wrong
      else if c == '\0' then Wrong
      else More(Single, current + [c], p + 1)
    case Bare =>
      if c == ' ' || c == '\n' || c == '\r' || c == '\t' then Done(current, p + 1)
      else if c == '\0' then Done(current, p)
      else if c == '"' then More(Double, current, p + 1)
      else if c == '\'' then More(Single, current, p + 1)
      else More(Bare, current + [c], p + 1)
  }

  /** The rest of a token from `p` on. */
  function Token(line: string, mode: Mode, current: string, p: nat): (n: Next)
    ensures !n.More?
    ensures n.Done? ==> n.p >= p
    decreases if p <= |line| then |line| - p else 0
  {
    hide IsHexEscape, Unescape, HexByte, MayClose, IsSpace;
    var n := Advance(line, mode, current, p);
    if n.More? then Token(line, n.mode, n.current, n.p) else n
  }

  function SkipBlanks(line: string, p: nat): (q: nat)
    ensures q >= p && !IsSpace(At(line, q))
    decreases if p <= |line| then |line| - p else 0
  {
    if p < |line| && IsSpace(line[p]) then SkipBlanks(line, p + 1) else p
  }

  /** A token that starts on a character takes at least that. */
  lemma {:induction false} TokenTakesSome(line: string, p: nat)
    requires At(line, p) != '\0' && !IsSpace(At(line, p))
    ensures Token(line, Bare, "", p).Done? ==> Token(line, Bare, "", p).p > p
  {
    hide IsHexEscape, Unescape, HexByte, MayClose;
    assert Advance(line, Bare, "", p).More?;
  }

  /** All tokens from `p` on; None when a quote is not closed or a closed one is followed by something else. */
  function SplitFrom(line: string, p: nat): Option<seq<string>>
    decreases if p <= |line| then |line| - p else 0
  {
    hide Token, IsSpace;
    var q := SkipBlanks(line, p);
    if At(line, q) == '\0' then Some([])
    else
      var n := Token(line, Bare, "", q);
      TokenTakesSome(line, q);
      if n.Wrong? then None
      else
        match SplitFrom(line, n.p)
        case None => None
        case Some(rest) => Some([n.token] + rest)
  }

  function SplitArgs(line: string): Option<seq<string>> { SplitFrom(line, 0) }

  /** `vector` in front of what is still to come. */
  function InFront(vector: seq<string>, rest: Option<seq<string>>): Option<seq<string>> {
    match rest
    case None => None
    case Some(args) => Some(vector + args)
  }

  lemma InFrontOf(vector: seq<string>, rest: Option<seq<string>>, token: string)
    ensures InFront([], rest) == rest
    ensures InFront(vector, Some([])) == Some(vector)
    ensures InFront(vector, InFront([token], rest)) == InFront(vector + [token], rest)
  {
    if rest.Some? {
      assert vector + ([token] + rest.value) == vector + [token] + rest.value;
      assert [] + rest.value == rest.value;
    }
    assert vector + [] == vector;
  }

  lemma NoneInFront(vector: seq<string>)
    ensures InFront(vector, None) == None
  {
  }

  lemma {:induction false} SplitStep(line: string, p: nat)
    ensures
      var q := SkipBlanks(line, p);
      var n := Token(line, Bare, "", q);
      SplitFrom(line, p) == if At(line, q) == '\0' then Some([]) else if n.Wrong? then None else InFront([n.token], SplitFrom(line, n.p))
  {
    hide Token, IsSpace;
    if At(line, SkipBlanks(line, p)) != '\0' {
      TokenTakesSome(line, SkipBlanks(line, p));
    }
  }

  /** The loop over the characters of one token. */
  method GetToken(line: string, start: nat) returns (ok: bool, current: string, p: nat)
    ensures if ok then Token(line, Bare, "", start) == Done(current, p) else Token(line, Bare, "", start) == Wrong
  {
    hide IsHexEscape, HexByte, Unescape, MayClose, IsSpace;
    var inq, insq, done := false, false, false;
    current, p := "", start;
    while !done
      invariant !(inq && insq)
      invariant Token(line, Bare, "", start) ==
        if done then Done(current, p) else Token(line, if inq then Double else if insq then Single else Bare, current, p)
      decreases !done, if p <= |line| then |line| - p else 0
    {
      if inq {
        if IsHexEscape(line, p) {
          current := current + [HexByte(At(line, p + 2), At(line, p + 3))];
          p := p + 3;
        } else if At(line, p) == '\\' && At(line, p + 1) != '\0' {
          p := p + 1;
          current := current + [Unescape(At(line, p))];
        } else if At(line, p) == '"' {
          if !MayClose(line, p) {
            return false, current, p;
          }
          done := true;
        } else if At(line, p) == '\0' {
          return false, current, p;
        } else {
          current := current + [At(line, p)];
        }
      } else if insq {
        if At(line, p) == '\\' && At(line, p + 1) == '\'' {
          p := p + 1;
          current := current + ['\''];
        } else if At(line, p) == '\'' {
          if !MayClose(line, p) {
            return false, current, p;
          }
          done := true;
        } else if At(line, p) == '\0' {
          return false, current, p;
        } else {
          current := current + [At(line, p)];
        }
      } else {
        match At(line, p) {
          case ' ' => done := true;
          case '\n' => done := true;
          case '\r' => done := true;
          case '\t' => done := true;
          case '\0' => done := true;
          case '"' => inq := true;
          case '\'' => insq := true;
          case c => current := current + [c];
        }
      }
      if At(line, p) != '\0' {
        p := p + 1;
      }
    }
    ok := true;
  }

  /** sdssplitargs: NULL is None. */
  method Sdssplitargs(line: string) returns (r: Option<seq<string>>)
    ensures r == SplitArgs(line)
  {
    hide Token, InFront, SplitFrom;
    var vector, p := [], 0;
    InFrontOf([], SplitFrom(line, 0), "");
    while true
      invariant SplitArgs(line) == InFront(vector, SplitFrom(line, p))
      decreases if p <= |line| then |line| - p else 0
    {
      ghost var before := p;
      SplitStep(line, p);
      while At(line, p) != '\0' && IsSpace(At(line, p))
        invariant before <= p && SkipBlanks(line, p) == SkipBlanks(line, before)
        decreases if p <= |line| then |line| - p else 0
      {
        p := p + 1;
      }
      if At(line, p) == '\0' {
        InFrontOf(vector, None, "");
        return Some(vector);
      }
      TokenTakesSome(line, p);
      var ok, current;
      ok, current, p := GetToken(line, p);
      if !ok {
        assert InFront(vector, None) == None by { NoneInFront(vector); }
        return None;
      }
      InFrontOf(vector, SplitFrom(line, p), current);
      vector := vector + [current];
    }
  }

  // ----- Quoting round trip -----

  /** The quoted form of a byte reads back as the byte, whatever follows. */
  lemma EscapeReadsBack(line: string, p: nat, c: char, current: string)
    requires IsByte(c) && p + |Escape(c)| <= |line| && line[p..p + |Escape(c)|] == Escape(c)
    ensures Advance(line, Double, current, p) == More(Double, current + [c], p + |Escape(c)|)
  {
    var e := Escape(c);
    assert line[p] == e[0];
    if |e| > 1 {
      assert line[p + 1] == e[1];
    }
    if |e| > 2 {
      assert line[p + 2] == e[2] && line[p + 3] == e[3];
    }
  }

  lemma {:induction false} QuotedReadsBack(line: string, p: nat, s: string, tail: string, current: string)
    requires AreBytes(s) && p <= |line| && line[p..] == EscapeAll(s) + "\"" + tail
    requires tail == "" || tail[0] == ' '
    ensures Token(line, Double, current, p) == Done(current + s, p + |EscapeAll(s)| + 1)
    decreases |s|
  {
    hide Escape, IsHexEscape, HexByte, Unescape;
    if s == "" {
      assert line[p] == line[p..][0] && (tail != "" ==> line[p + 1] == line[p..][1]);
      assert !IsHexEscape(line, p) by { NotAnEscape(line, p); }
      assert current + s == current;
    } else {
      var e := Escape(s[0]);
      Regroup(e, EscapeAll(s[1..]), "\"", tail);
      SuffixSplits(line, p, e, EscapeAll(s[1..]) + "\"" + tail);
      EscapeReadsBack(line, p, s[0], current);
      QuotedReadsBack(line, p + |e|, s[1..], tail, current + [s[0]]);
      assert current + [s[0]] + s[1..] == current + s;
    }
  }

  lemma NotAnEscape(line: string, p: nat)
    requires At(line, p) != '\\'
    ensures !IsHexEscape(line, p)
  {
  }

  lemma Regroup(a: string, b: string, c: string, d: string)
    ensures a + b + c + d == a + (b + c + d)
  {
  }

  lemma SuffixSplits(line: string, p: nat, a: string, b: string)
    requires p <= |line| && line[p..] == a + b
    ensures p + |a| <= |line| && line[p..p + |a|] == a && line[p + |a|..] == b
  {
    assert line[p..p + |a|] == line[p..][..|a|] && line[p + |a|..] == line[p..][|a|..];
  }

  predicate AreArgs(args: seq<string>) {
    forall i :: 0 <= i < |args| ==> AreBytes(args[i])
  }

  /** The quoted forms of `args`, joined by single spaces. */
  function JoinRepr(args: seq<string>): string
    requires AreArgs(args)
  {
    if args == [] then ""
    else if |args| == 1 then Repr(args[0])
    else Repr(args[0]) + " " + JoinRepr(args[1..])
  }

  lemma {:induction false} ReprToken(line: string, p: nat, s: string, tail: string)
    requires AreBytes(s) && p <= |line| && line[p..] == Repr(s) + tail
    requires tail == "" || tail[0] == ' '
    ensures SkipBlanks(line, p) == p && At(line, p) == '"'
    ensures Token(line, Bare, "", p) == Done(s, p + |Repr(s)|)
  {
    hide EscapeAll;
    assert line[p] == line[p..][0];
    assert line[p + 1..] == line[p..][1..] == EscapeAll(s) + "\"" + tail;
    assert Advance(line, Bare, "", p) == More(Double, "", p + 1);
    QuotedReadsBack(line, p + 1, s, tail, "");
    assert "" + s == s;
  }

  lemma AtEnd(line: string, p: nat)
    requires p >= |line|
    ensures SkipBlanks(line, p) == p
  {
  }

  lemma {:induction false} SkipsBlank(line: string, p: nat)
    requires p < |line| && line[p] == ' '
    ensures SkipBlanks(line, p) == SkipBlanks(line, p + 1)
  {
  }

  lemma PutInFront(args: seq<string>)
    requires args != []
    ensures InFront([args[0]], Some(args[1..])) == Some(args)
  {
    assert [args[0]] + args[1..] == args;
  }

  lemma {:induction false} SplitSkips(line: string, p: nat)
    requires p < |line| && line[p] == ' '
    ensures SplitFrom(line, p) == SplitFrom(line, p + 1)
  {
    hide Token, InFront;
    SkipsBlank(line, p);
  }

  lemma {:induction false} SplitQuotedFrom(line: string, p: nat, args: seq<string>)
    requires AreArgs(args) && p <= |line| && line[p..] == JoinRepr(args)
    ensures SplitFrom(line, p) == Some(args)
    decreases |args|
  {
    hide Token, Repr, SplitFrom, SkipBlanks, InFront;
    SplitStep(line, p);
    if args == [] {
      AtEnd(line, p);
    } else {
      var rest := args[1..];
      var tail := if rest == [] then "" else " " + JoinRepr(rest);
      var q := p + |Repr(args[0])|;
      assert line[p..] == Repr(args[0]) + tail;
      ReprToken(line, p, args[0], tail);
      SuffixSplits(line, p, Repr(args[0]), tail);
      if rest == [] {
        SplitQuotedFrom(line, q, rest);
      } else {
        SuffixSplits(line, q, " ", JoinRepr(rest));
        SplitSkips(line, q);
        SplitQuotedFrom(line, q + 1, rest);
      }
      PutInFront(args);
    }
  }

  /** Splitting the space-joined quoted forms of any byte strings gives back exactly those strings. */
  lemma {:induction false} QuotingRoundTrip(args: seq<string>)
    requires AreArgs(args)
    ensures SplitArgs(JoinRepr(args)) == Some(args)
  {
    hide JoinRepr, SplitFrom;
    var line := JoinRepr(args);
    assert line[0..] == line;
    SplitQuotedFrom(line, 0, args);
  }
}
