/**
 The lines that sdssplitargs of sds.c splits, in terms of the characters on them: words with blanks around
 them, where a word is plain characters, or plain characters and a part in double or single quotes.
 */
module QuotedLines {
  import opened Options
  import opened QuotedStrings

  // ----- Words and their values -----

  /** Between quotes: a character for itself, \x and two hexadecimal digits, or another character behind a backslash. */
  datatype Item = Plain(c: char) | Hex(hi: nat, lo: nat, hiCapital: bool, loCapital: bool) | Escaped(c: char) {
    predicate IsHexSmall() { Hex? ==> hi < 16 && lo < 16 }

    function Text(): string
      requires IsHexSmall()
    {
      match this
      case Plain(c) => [c]
      case Hex(hi, lo, hiCapital, loCapital) => ['\\', 'x', Digit(hi, hiCapital), Digit(lo, loCapital)]
      case Escaped(c) => ['\\', c]
    }

    function Value(): char
      requires IsHexSmall()
    {
      match this
      case Plain(c) => c
      case Hex(hi, lo, _, _) => (16 * hi + lo) as char
      case Escaped(c) =>
        if c == 'n' then 10 as char
        else if c == 'r' then 13 as char
        else if c == 't' then 9 as char
        else if c == 'b' then 8 as char
        else if c == 'a' then 7 as char
        else c
    }
  }

  function Digit(d: nat, capital: bool): char
    requires d < 16
  {
    if capital then "0123456789ABCDEF"[d] else "0123456789abcdef"[d]
  }

  predicate IsDigit(c: char) { c in "0123456789abcdefABCDEF" }

  datatype Quote = Doubly | Singly {
    function Mark(): char { if Doubly? then '"' else '\'' }
  }

  /** What an item may be, given the text behind it. */
  predicate Fits(quote: Quote, i: Item, tail: string) {
    match i
    case Plain(c) => c != '\0' && c != quote.Mark() && (c == '\\' ==> quote.Singly? && (tail == "" || tail[0] != '\''))
    case Hex(hi, lo, _, _) => quote.Doubly? && hi < 16 && lo < 16
    case Escaped(c) =>
      if quote.Singly? then c == '\''
      else c != '\0' && !(c == 'x' && |tail| >= 2 && IsDigit(tail[0]) && IsDigit(tail[1]))
  }

  predicate AreSmall(items: seq<Item>) {
    forall i :: 0 <= i < |items| ==> items[i].IsHexSmall()
  }

  function Text(items: seq<Item>): string
    requires AreSmall(items)
  {
    if items == [] then "" else items[0].Text() + Text(items[1..])
  }

  function Values(items: seq<Item>): string
    requires AreSmall(items)
  {
    if items == [] then "" else [items[0].Value()] + Values(items[1..])
  }

  predicate AllFit(quote: Quote, items: seq<Item>, tail: string)
    requires AreSmall(items)
  {
    items == [] || (Fits(quote, items[0], Text(items[1..]) + tail) && AllFit(quote, items[1..], tail))
  }

  // ----- An item is read as its value -----

  lemma DigitIs(d: nat, capital: bool)
    requires d < 16
    ensures IsHexDigit(Digit(d, capital)) && HexDigitToInt(Digit(d, capital)) == d && Digit(d, capital) != '\0'
  {
  }

  lemma DigitsAre(c: char)
    ensures IsHexDigit(c) <==> IsDigit(c)
  {
  }

  lemma CharsAt(line: string, p: nat, text: string, tail: string)
    requires p <= |line| && line[p..] == text + tail
    ensures p + |text| <= |line| && line[p + |text|..] == tail
    ensures forall k :: 0 <= k < |text| ==> At(line, p + k) == text[k]
    ensures forall k: nat :: At(tail, k) == At(line, p + |text| + k)
  {
    assert forall k :: 0 <= k < |text| ==> line[p + k] == line[p..][k];
    forall k: nat ensures At(tail, k) == At(line, p + |text| + k) {
      if k < |tail| {
        assert line[p + |text| + k] == line[p..][|text| + k];
      }
    }
  }

  lemma HexReads(line: string, p: nat, i: Item, tail: string, current: string)
    requires i.Hex? && i.IsHexSmall() && p <= |line| && line[p..] == i.Text() + tail
    ensures Advance(line, Double, current, p) == More(Double, current + [i.Value()], p + 4)
  {
    CharsAt(line, p, i.Text(), tail);
    DigitIs(i.hi, i.hiCapital);
    DigitIs(i.lo, i.loCapital);
    assert At(line, p + 0) == '\\' && At(line, p + 1) == 'x' && At(line, p + 2) == Digit(i.hi, i.hiCapital) && At(line, p + 3) == Digit(i.lo, i.loCapital);
  }

  lemma EscapedReads(line: string, p: nat, i: Item, tail: string, current: string)
    requires i.Escaped? && Fits(Doubly, i, tail) && p <= |line| && line[p..] == i.Text() + tail
    ensures Advance(line, Double, current, p) == More(Double, current + [i.Value()], p + 2)
  {
    CharsAt(line, p, i.Text(), tail);
    assert At(line, p + 0) == '\\' && At(line, p + 1) == i.c;
    if i.c == 'x' {
      DigitsAre(At(line, p + 2));
      DigitsAre(At(line, p + 3));
      assert At(line, p + 2) == At(tail, 0) && At(line, p + 3) == At(tail, 1);
    }
  }

  lemma PlainReads(line: string, p: nat, quote: Quote, i: Item, tail: string, current: string)
    requires i.Plain? && Fits(quote, i, tail) && p <= |line| && line[p..] == i.Text() + tail
    ensures Advance(line, if quote.Doubly? then Double else Single, current, p)
      == More(if quote.Doubly? then Double else Single, current + [i.Value()], p + 1)
  {
    CharsAt(line, p, i.Text(), tail);
    assert At(line, p + 0) == i.c && At(line, p + 1) == At(tail, 0);
  }

  lemma ItemReads(line: string, p: nat, quote: Quote, i: Item, tail: string, current: string)
    requires Fits(quote, i, tail) && p <= |line| && line[p..] == i.Text() + tail
    ensures Advance(line, if quote.Doubly? then Double else Single, current, p)
      == More(if quote.Doubly? then Double else Single, current + [i.Value()], p + |i.Text()|)
  {
    if i.Plain? {
      PlainReads(line, p, quote, i, tail, current);
    } else if i.Hex? {
      HexReads(line, p, i, tail, current);
    } else if quote.Doubly? {
      EscapedReads(line, p, i, tail, current);
    } else {
      CharsAt(line, p, i.Text(), tail);
      assert At(line, p + 0) == '\\' && At(line, p + 1) == '\'';
    }
  }

  lemma TokenMoves(line: string, mode: Mode, current: string, p: nat)
    ensures
      var n := Advance(line, mode, current, p);
      Token(line, mode, current, p) == if n.More? then Token(line, n.mode, n.current, n.p) else n
  {
    hide Advance;
  }

  lemma {:induction false} ItemsRead(line: string, p: nat, quote: Quote, items: seq<Item>, tail: string, current: string)
    requires AreSmall(items) && AllFit(quote, items, tail) && p <= |line| && line[p..] == Text(items) + tail
    ensures
      var mode := if quote.Doubly? then Double else Single;
      Token(line, mode, current, p) == Token(line, mode, current + Values(items), p + |Text(items)|)
    decreases |items|
  {
    hide Advance, Token, Fits, Item.Text, Item.Value, Item.IsHexSmall;
    if items == [] {
      assert current + "" == current;
    } else {
      var first, rest := items[0], items[1..];
      Assoc(first.Text(), Text(rest), tail);
      assert line[p..] == first.Text() + (Text(rest) + tail);
      TokenMoves(line, if quote.Doubly? then Double else Single, current, p);
      ItemReads(line, p, quote, first, Text(rest) + tail, current);
      Behind(line, p, first.Text(), Text(rest) + tail);
      ItemsRead(line, p + |first.Text()|, quote, rest, tail, current + [first.Value()]);
      OnTop(current, first.Value(), Values(rest));
    }
  }

  lemma Behind(line: string, p: nat, text: string, tail: string)
    requires p <= |line| && line[p..] == text + tail
    ensures p + |text| <= |line| && line[p + |text|..] == tail
  {
    CharsAt(line, p, text, tail);
  }

  lemma Assoc(a: string, b: string, c: string)
    ensures a + b + c == a + (b + c)
  {
  }

  lemma OnTop(a: string, c: char, b: string)
    ensures a + [c] + b == a + ([c] + b)
  {
  }

  // ----- Words on a line -----

  datatype Part = Part(quote: Quote, items: seq<Item>)

  /** Plain characters, a quoted part if there is one, and the blanks behind it. */
  datatype Word = Word(bare: string, quoted: Option<Part>, blanks: string)

  /** isspace in the C locale. */
  predicate IsBlank(c: char) { c == ' ' || 9 <= c as int <= 13 }

  predicate AreBlank(s: string) {
    forall i :: 0 <= i < |s| ==> IsBlank(s[i])
  }

  /** The blanks that end a word: vertical tab and form feed do not. */
  predicate IsEnd(c: char) { c == ' ' || c as int == 9 || c as int == 10 || c as int == 13 }

  predicate IsBare(s: string) {
    forall i :: 0 <= i < |s| ==> !IsEnd(s[i]) && s[i] != '"' && s[i] != '\'' && s[i] != '\0'
  }

  predicate IsStart(s: string) {
    IsBare(s) && (s == "" || !IsBlank(s[0]))
  }

  predicate IsPart(part: Part) {
    AreSmall(part.items) && AllFit(part.quote, part.items, [part.quote.Mark()])
  }

  predicate IsWord(w: Word) {
    && IsStart(w.bare) && AreBlank(w.blanks)
    && if w.quoted.Some? then IsPart(w.quoted.value) else w.bare != "" && (w.blanks != "" ==> IsEnd(w.blanks[0]))
  }

  function Quoted(part: Part): string
    requires AreSmall(part.items)
  {
    [part.quote.Mark()] + Text(part.items) + [part.quote.Mark()]
  }

  function Written(w: Word): string
    requires IsWord(w)
  {
    w.bare + if w.quoted.Some? then Quoted(w.quoted.value) else ""
  }

  function ValueOf(w: Word): string
    requires IsWord(w)
  {
    w.bare + if w.quoted.Some? then Values(w.quoted.value.items) else ""
  }

  predicate AreWords(words: seq<Word>) {
    && (forall i :: 0 <= i < |words| ==> IsWord(words[i]))
    && forall i :: 0 <= i < |words| - 1 ==> words[i].blanks != ""
  }

  function LineOf(words: seq<Word>): string
    requires AreWords(words)
  {
    if words == [] then "" else Written(words[0]) + words[0].blanks + LineOf(words[1..])
  }

  function ArgsOf(words: seq<Word>): seq<string>
    requires AreWords(words)
  {
    if words == [] then [] else [ValueOf(words[0])] + ArgsOf(words[1..])
  }

  // ----- A word is read as its value -----

  lemma {:induction false} BareReads(line: string, p: nat, s: string, tail: string, current: string)
    requires IsBare(s) && p <= |line| && line[p..] == s + tail
    ensures Token(line, Bare, current, p) == Token(line, Bare, current + s, p + |s|)
    decreases |s|
  {
    hide Token;
    if s == "" {
      assert current + s == current;
    } else {
      assert s + tail == [s[0]] + (s[1..] + tail);
      CharsAt(line, p, [s[0]], s[1..] + tail);
      assert At(line, p + 0) == s[0];
      TokenMoves(line, Bare, current, p);
      BareReads(line, p + 1, s[1..], tail, current + [s[0]]);
      assert current + [s[0]] + s[1..] == current + s;
    }
  }

  lemma FitsFurther(quote: Quote, i: Item, tail: string, more: string)
    requires Fits(quote, i, tail + [quote.Mark()])
    ensures Fits(quote, i, tail + ([quote.Mark()] + more))
  {
    var a, b := tail + [quote.Mark()], tail + ([quote.Mark()] + more);
    assert a[0] == b[0];
    if |a| >= 2 {
      assert a[1] == b[1];
    }
  }

  lemma {:induction false} AllFitFurther(quote: Quote, items: seq<Item>, more: string)
    requires AreSmall(items) && AllFit(quote, items, [quote.Mark()])
    ensures AllFit(quote, items, [quote.Mark()] + more)
    decreases |items|
  {
    hide Fits;
    if items != [] {
      FitsFurther(quote, items[0], Text(items[1..]), more);
      AllFitFurther(quote, items[1..], more);
    }
  }

  /** An opening quote, and what is between the quotes. */
  lemma {:induction false} OpeningReads(line: string, p: nat, quote: Quote, items: seq<Item>, tail: string, current: string)
    requires AreSmall(items) && AllFit(quote, items, tail) && p <= |line| && line[p..] == [quote.Mark()] + Text(items) + tail
    ensures
      Token(line, Bare, current, p)
      == Token(line, if quote.Doubly? then Double else Single, current + Values(items), p + 1 + |Text(items)|)
  {
    hide Token, Text, Values, AllFit, AreSmall;
    Assoc([quote.Mark()], Text(items), tail);
    CharsAt(line, p, [quote.Mark()], Text(items) + tail);
    assert At(line, p + 0) == quote.Mark();
    TokenMoves(line, Bare, current, p);
    ItemsRead(line, p + 1, quote, items, tail, current);
  }

  /** A closing quote ends the word if a blank or nothing follows; anything else there is wrong. */
  lemma ClosingReads(line: string, p: nat, quote: Quote, tail: string, current: string)
    requires p <= |line| && line[p..] == [quote.Mark()] + tail
    ensures
      Token(line, if quote.Doubly? then Double else Single, current, p)
      == if At(tail, 0) == '\0' || IsBlank(At(tail, 0)) then Done(current, p + 1) else Wrong
  {
    hide Token;
    CharsAt(line, p, [quote.Mark()], tail);
    assert At(line, p + 0) == quote.Mark() && At(line, p + 1) == At(tail, 0);
    TokenMoves(line, if quote.Doubly? then Double else Single, current, p);
  }

  lemma {:induction false} QuotedReads(line: string, p: nat, part: Part, tail: string, current: string)
    requires IsPart(part) && p <= |line| && line[p..] == Quoted(part) + tail
    ensures
      Token(line, Bare, current, p)
      == if At(tail, 0) == '\0' || IsBlank(At(tail, 0)) then Done(current + Values(part.items), p + |Quoted(part)|) else Wrong
  {
    hide Token, Text, Values, AllFit, AreSmall, IsBlank, At;
    var mark := [part.quote.Mark()];
    AllFitFurther(part.quote, part.items, tail);
    Assoc(mark + Text(part.items), mark, tail);
    OpeningReads(line, p, part.quote, part.items, mark + tail, current);
    Behind(line, p, mark + Text(part.items), mark + tail);
    ClosingReads(line, p + 1 + |Text(part.items)|, part.quote, tail, current + Values(part.items));
  }

  // ----- Lines -----

  lemma {:induction false} QuotedWordReads(line: string, p: nat, w: Word, tail: string)
    requires IsWord(w) && w.quoted.Some? && p <= |line| && line[p..] == Written(w) + tail
    ensures
      Token(line, Bare, "", p)
      == if At(tail, 0) == '\0' || IsBlank(At(tail, 0)) then Done(ValueOf(w), p + |Written(w)|) else Wrong
  {
    hide Token, Text, Values, AllFit, AreSmall, Quoted, At, IsBlank, AreBlank;
    var part := w.quoted.value;
    Assoc(w.bare, Quoted(part), tail);
    BareReads(line, p, w.bare, Quoted(part) + tail, "");
    Behind(line, p, w.bare, Quoted(part) + tail);
    assert "" + w.bare == w.bare;
    QuotedReads(line, p + |w.bare|, part, tail, w.bare);
  }

  lemma {:induction false} BareWordReads(line: string, p: nat, s: string, tail: string)
    requires IsBare(s) && p <= |line| && line[p..] == s + tail
    requires At(tail, 0) == '\0' || IsEnd(At(tail, 0))
    ensures
      var n := Token(line, Bare, "", p);
      n.Done? && n.token == s && SplitFrom(line, n.p) == SplitFrom(line, p + |s|)
  {
    hide Token, SplitFrom, IsBare;
    BareReads(line, p, s, tail, "");
    CharsAt(line, p, s, tail);
    assert At(line, p + |s| + 0) == At(tail, 0);
    TokenMoves(line, Bare, "" + s, p + |s|);
    if At(tail, 0) != '\0' {
      SkipsOne(line, p + |s|);
    }
  }

  lemma StartIs(w: Word)
    requires IsWord(w)
    ensures Written(w) != "" && Written(w)[0] != '\0' && !IsSpace(Written(w)[0])
  {
    hide Text;
  }

  /** A word, if its last character is followed by a blank or nothing as the case may be, is one argument. */
  lemma {:induction false} WordReads(line: string, p: nat, w: Word, tail: string)
    requires IsWord(w) && p <= |line| && line[p..] == Written(w) + tail
    requires At(tail, 0) == '\0' || (if w.quoted.Some? then IsBlank(At(tail, 0)) else IsEnd(At(tail, 0)))
    ensures At(line, p) != '\0' && !IsSpace(At(line, p))
    ensures
      var n := Token(line, Bare, "", p);
      n.Done? && n.token == ValueOf(w) && SplitFrom(line, n.p) == SplitFrom(line, p + |Written(w)|)
  {
    hide Token, SplitFrom, Quoted, Values, IsPart, IsBlank, IsEnd, IsSpace, At, AreBlank;
    StartIs(w);
    CharsAt(line, p, Written(w), tail);
    assert At(line, p + 0) == Written(w)[0];
    if w.quoted.Some? {
      QuotedWordReads(line, p, w, tail);
    } else {
      assert Written(w) == w.bare == ValueOf(w);
      BareWordReads(line, p, w.bare, tail);
    }
  }

  lemma SkipsOne(line: string, p: nat)
    requires p < |line| && IsBlank(line[p])
    ensures SplitFrom(line, p) == SplitFrom(line, p + 1)
  {
    hide Token, InFront;
    assert SkipBlanks(line, p) == SkipBlanks(line, p + 1);
  }

  lemma {:induction false} SkipsAll(line: string, p: nat, blanks: string, tail: string)
    requires AreBlank(blanks) && p <= |line| && line[p..] == blanks + tail
    ensures SplitFrom(line, p) == SplitFrom(line, p + |blanks|)
    decreases |blanks|
  {
    hide SplitFrom;
    if blanks != "" {
      assert line[p] == line[p..][0];
      SkipsOne(line, p);
      assert blanks + tail == [blanks[0]] + (blanks[1..] + tail);
      Behind(line, p, [blanks[0]], blanks[1..] + tail);
      SkipsAll(line, p + 1, blanks[1..], tail);
    }
  }

  lemma SplitAt(line: string, p: nat)
    requires At(line, p) == '\0' || !IsSpace(At(line, p))
    ensures
      var n := Token(line, Bare, "", p);
      SplitFrom(line, p) == if At(line, p) == '\0' then Some([]) else if n.Wrong? then None else InFront([n.token], SplitFrom(line, n.p))
  {
    hide Token, InFront, SplitFrom;
    SplitStep(line, p);
  }

  /** The words on a line are its first arguments, if the last of them is followed by a blank or nothing. */
  lemma {:induction false} WordsRead(line: string, p: nat, words: seq<Word>, tail: string)
    requires AreWords(words) && p <= |line| && line[p..] == LineOf(words) + tail
    requires words == [] || words[|words| - 1].blanks != "" || At(tail, 0) == '\0'
    ensures SplitFrom(line, p) == InFront(ArgsOf(words), SplitFrom(line, p + |LineOf(words)|))
    decreases |words|
  {
    hide SplitFrom, InFront, Token, IsWord, Written, ValueOf, At;
    if words == [] {
      InFrontOf([], SplitFrom(line, p), "");
    } else {
      var w, rest := words[0], words[1..];
      var behind := LineOf(rest) + tail;
      Assoc(Written(w), w.blanks, LineOf(rest));
      Assoc(Written(w), w.blanks + LineOf(rest), tail);
      Assoc(w.blanks, LineOf(rest), tail);
      Follows(w, rest, tail);
      WordReads(line, p, w, w.blanks + behind);
      SplitAt(line, p);
      Behind(line, p, Written(w), w.blanks + behind);
      BlanksAre(w);
      SkipsAll(line, p + |Written(w)|, w.blanks, behind);
      Behind(line, p + |Written(w)|, w.blanks, behind);
      WordsRead(line, p + |Written(w)| + |w.blanks|, rest, tail);
      InFrontFirst(ValueOf(w), ArgsOf(rest), SplitFrom(line, p + |LineOf(words)|));
    }
  }

  lemma BlanksAre(w: Word)
    requires IsWord(w)
    ensures AreBlank(w.blanks)
  {
  }

  lemma InFrontFirst(first: string, args: seq<string>, rest: Option<seq<string>>)
    ensures InFront([first], InFront(args, rest)) == InFront([first] + args, rest)
  {
    if rest.Some? {
      assert [first] + (args + rest.value) == [first] + args + rest.value;
    }
  }

  lemma Follows(w: Word, rest: seq<Word>, tail: string)
    requires AreWords([w] + rest)
    requires ([w] + rest)[|rest|].blanks != "" || At(tail, 0) == '\0'
    ensures AreWords(rest)
    ensures
      var c := At(w.blanks + (LineOf(rest) + tail), 0);
      c == '\0' || (if w.quoted.Some? then IsBlank(c) else IsEnd(c))
  {
    assert ([w] + rest)[0] == w && ([w] + rest)[1..] == rest;
    if w.blanks != "" {
      assert IsBlank(w.blanks[0]);
    } else if rest == [] {
      assert LineOf(rest) + tail == tail;
    }
  }

  /**
   Words with blanks around them, up to the end of the line, are split into their values: plain ones, those in
   double quotes with their escapes, and those in single quotes, in any order.
   */
  lemma {:induction false} LineReads(blanks: string, words: seq<Word>, end: string)
    requires AreBlank(blanks) && AreWords(words) && (end == "" || end[0] == '\0')
    ensures SplitArgs(blanks + LineOf(words) + end) == Some(ArgsOf(words))
  {
    hide SplitFrom, InFront, AreWords, AreBlank, LineOf, ArgsOf;
    var line := LeadRead(blanks, words, end);
    SplitAt(line, |blanks| + |LineOf(words)|);
    InFrontOf(ArgsOf(words), None, "");
  }

  lemma {:induction false} LeadRead(blanks: string, words: seq<Word>, tail: string) returns (line: string)
    requires AreBlank(blanks) && AreWords(words)
    requires words == [] || words[|words| - 1].blanks != "" || At(tail, 0) == '\0'
    ensures line == blanks + LineOf(words) + tail && line[|blanks| + |LineOf(words)|..] == tail
    ensures At(line, |blanks| + |LineOf(words)|) == At(tail, 0)
    ensures SplitArgs(line) == InFront(ArgsOf(words), SplitFrom(line, |blanks| + |LineOf(words)|))
  {
    hide SplitFrom, InFront, AreWords, AreBlank, LineOf, ArgsOf, At;
    line := blanks + LineOf(words) + tail;
    Assoc(blanks, LineOf(words), tail);
    assert line[0..] == line;
    SkipsAll(line, 0, blanks, LineOf(words) + tail);
    Behind(line, 0, blanks, LineOf(words) + tail);
    WordsRead(line, |blanks|, words, tail);
    CharsAt(line, |blanks|, LineOf(words), tail);
    assert At(tail, 0) == At(line, |blanks| + |LineOf(words)| + 0);
  }

  /** A word that is wrong makes the line wrong. */
  lemma {:induction false} WrongWord(blanks: string, words: seq<Word>, tail: string) returns (line: string, p: nat)
    requires AreBlank(blanks) && AreWords(words) && (words == [] || words[|words| - 1].blanks != "")
    requires At(tail, 0) != '\0' && !IsSpace(At(tail, 0))
    ensures line == blanks + LineOf(words) + tail && p <= |line| && line[p..] == tail
    ensures Token(line, Bare, "", p).Wrong? ==> SplitArgs(line) == None
  {
    hide Token, SplitFrom, InFront, AreWords, AreBlank, LineOf, ArgsOf, At, IsSpace;
    line := LeadRead(blanks, words, tail);
    p := |blanks| + |LineOf(words)|;
    SplitAt(line, p);
    NoneInFront(ArgsOf(words));
  }

  /** A quoted part that is followed by anything but a blank or the end of the line makes the line wrong. */
  lemma {:induction false} BadlyClosed(blanks: string, words: seq<Word>, w: Word, tail: string)
    requires AreBlank(blanks) && AreWords(words) && (words == [] || words[|words| - 1].blanks != "")
    requires IsWord(w) && w.quoted.Some? && tail != "" && tail[0] != '\0' && !IsBlank(tail[0])
    ensures SplitArgs(blanks + LineOf(words) + (Written(w) + tail)) == None
  {
    StartIs(w);
    hide Token, AreWords, IsWord, AreBlank, LineOf, Written, SplitArgs, IsSpace;
    var line, p := WrongWord(blanks, words, Written(w) + tail);
    QuotedWordReads(line, p, w, tail);
  }

  /** A quote that is left open makes the line wrong, also if its last character is a backslash. */
  lemma {:induction false} LeftOpen(blanks: string, words: seq<Word>, bare: string, quote: Quote, items: seq<Item>, last: string)
    requires AreBlank(blanks) && AreWords(words) && (words == [] || words[|words| - 1].blanks != "")
    requires IsStart(bare) && AreSmall(items) && AllFit(quote, items, last)
    requires last == "" || last[0] == '\0' || (quote.Doubly? && last[0] == '\\' && (|last| == 1 || last[1] == '\0'))
    ensures SplitArgs(blanks + LineOf(words) + (bare + ([quote.Mark()] + Text(items) + last))) == None
  {
    hide Token, AreWords, AreBlank, LineOf, SplitArgs, IsSpace, Text, AllFit, AreSmall, IsStart;
    var part := [quote.Mark()] + Text(items) + last;
    OpenStart(bare, part);
    var line, p := WrongWord(blanks, words, bare + part);
    BareReads(line, p, bare, part, "");
    Behind(line, p, bare, part);
    OpenReads(line, p + |bare|, quote, items, last, "" + bare);
  }

  lemma {:induction false} OpenReads(line: string, p: nat, quote: Quote, items: seq<Item>, last: string, current: string)
    requires AreSmall(items) && AllFit(quote, items, last) && p <= |line| && line[p..] == [quote.Mark()] + Text(items) + last
    requires last == "" || last[0] == '\0' || (quote.Doubly? && last[0] == '\\' && (|last| == 1 || last[1] == '\0'))
    ensures Token(line, Bare, current, p) == Wrong
  {
    hide Token, Text, Values, AllFit, AreSmall;
    OpeningReads(line, p, quote, items, last, current);
    Behind(line, p, [quote.Mark()] + Text(items), last);
    OpenEnds(line, p + 1 + |Text(items)|, quote, last, current + Values(items));
  }

  lemma OpenStart(bare: string, part: string)
    requires IsStart(bare) && part != "" && (part[0] == '"' || part[0] == '\'')
    ensures IsBare(bare) && At(bare + part, 0) != '\0' && !IsSpace(At(bare + part, 0))
  {
  }

  lemma {:induction false} OpenEnds(line: string, p: nat, quote: Quote, last: string, current: string)
    requires p <= |line| && line[p..] == last
    requires last == "" || last[0] == '\0' || (quote.Doubly? && last[0] == '\\' && (|last| == 1 || last[1] == '\0'))
    ensures Token(line, if quote.Doubly? then Double else Single, current, p) == Wrong
  {
    hide Token;
    var mode := if quote.Doubly? then Double else Single;
    CharsAt(line, p, "", last);
    assert At(last, 0) == At(line, p + |""| + 0) && At(last, 1) == At(line, p + |""| + 1);
    TokenMoves(line, mode, current, p);
    if last != "" && last[0] != '\0' {
      TokenMoves(line, mode, current + ['\\'], p + 1);
    }
  }

  // ----- How sdscatrepr writes a byte -----

  /** A printable character as itself, but for the quote and the backslash; a control character by its letter, or in hexadecimal. */
  lemma EscapeIs(c: char)
    requires IsByte(c)
    ensures
      var n := c as int;
      Escape(c) ==
        if c == '"' then "\\\""
        else if c == '\\' then "\\\\"
        else if 32 <= n <= 126 then [c]
        else if n == 7 then "\\a"
        else if n == 8 then "\\b"
        else if n == 9 then "\\t"
        else if n == 10 then "\\n"
        else if n == 13 then "\\r"
        else ['\\', 'x', "0123456789abcdef"[n / 16], "0123456789abcdef"[n % 16]]
  {
  }

  /** What is printable, and has neither quotes nor backslashes, stands between two quotes as it is. */
  lemma {:induction false} ReprOfPlain(s: string)
    requires forall i :: 0 <= i < |s| ==> ' ' <= s[i] <= '~' && s[i] != '"' && s[i] != '\\'
    ensures AreBytes(s) && Repr(s) == "\"" + s + "\""
  {
    PlainEscapes(s);
  }

  lemma {:induction false} PlainEscapes(s: string)
    requires forall i :: 0 <= i < |s| ==> ' ' <= s[i] <= '~' && s[i] != '"' && s[i] != '\\'
    ensures AreBytes(s) && EscapeAll(s) == s
    decreases |s|
  {
    if s != "" {
      PlainEscapes(s[1..]);
      assert s == [s[0]] + s[1..];
      assert Escape(s[0]) == [s[0]];
    }
  }

  // ----- Every line is of one of these forms -----

  /** Words up to the end; words, and a quoted part with something right behind it; or words, and a quote left open. */
  datatype Form =
    | Good(words: seq<Word>, end: string)
    | Followed(words: seq<Word>, w: Word, tail: string)
    | Open(words: seq<Word>, bare: string, quote: Quote, items: seq<Item>, last: string)

  predicate IsOver(s: string) { s == "" || s[0] == '\0' }

  /** No closing quote comes, and no item. */
  predicate IsOpen(quote: Quote, last: string) {
    IsOver(last) || (quote.Doubly? && last[0] == '\\' && (|last| == 1 || last[1] == '\0'))
  }

  predicate IsForm(f: Form) {
    && AreWords(f.words)
    && (f.words == [] || f.words[|f.words| - 1].blanks != "" || f.Good?)
    && match f
       case Good(_, end) => IsOver(end)
       case Followed(_, w, tail) => IsWord(w) && w.quoted.Some? && !IsOver(tail) && !IsBlank(tail[0])
       case Open(_, bare, quote, items, last) => IsStart(bare) && AreSmall(items) && AllFit(quote, items, last) && IsOpen(quote, last)
  }

  function Rest(f: Form): string
    requires IsForm(f)
  {
    match f
    case Good(_, end) => end
    case Followed(_, w, tail) => Written(w) + tail
    case Open(_, bare, quote, items, last) => bare + ([quote.Mark()] + Text(items) + last)
  }

  function TextOf(f: Form): string
    requires IsForm(f)
  {
    LineOf(f.words) + Rest(f)
  }

  lemma {:induction false} BlanksOf(s: string) returns (blanks: string, rest: string)
    ensures s == blanks + rest && AreBlank(blanks) && (IsOver(rest) || !IsBlank(rest[0]))
    ensures s != "" && IsBlank(s[0]) ==> blanks != "" && blanks[0] == s[0]
    decreases |s|
  {
    if s == "" || !IsBlank(s[0]) {
      blanks, rest := "", s;
    } else {
      blanks, rest := BlanksOf(s[1..]);
      assert s == [s[0]] + s[1..];
      blanks := [s[0]] + blanks;
    }
  }

  lemma {:induction false} BareOf(s: string) returns (bare: string, rest: string)
    ensures s == bare + rest && IsBare(bare)
    ensures IsOver(rest) || IsEnd(rest[0]) || rest[0] == '"' || rest[0] == '\''
    decreases |s|
  {
    if s == "" || IsEnd(s[0]) || s[0] == '"' || s[0] == '\'' || s[0] == '\0' {
      bare, rest := "", s;
    } else {
      bare, rest := BareOf(s[1..]);
      assert s == [s[0]] + s[1..];
      bare := [s[0]] + bare;
    }
  }

  function DigitValue(c: char): (d: nat)
    requires IsDigit(c)
    ensures d < 16 && Digit(d, 'A' <= c <= 'F') == c
  {
    if '0' <= c <= '9' then c as int - '0' as int
    else if 'a' <= c <= 'f' then c as int - 'a' as int + 10
    else c as int - 'A' as int + 10
  }

  /** Between quotes there is an item, unless the quote is closed or left open. */
  lemma {:induction false} ItemOf(quote: Quote, s: string) returns (i: Item, rest: string)
    requires !IsOpen(quote, s) && s[0] != quote.Mark()
    ensures Fits(quote, i, rest) && s == i.Text() + rest && i.Text() != ""
  {
    if quote.Doubly? && s[0] == '\\' {
      if s[1] == 'x' && |s| >= 4 && IsDigit(s[2]) && IsDigit(s[3]) {
        i := Hex(DigitValue(s[2]), DigitValue(s[3]), 'A' <= s[2] <= 'F', 'A' <= s[3] <= 'F');
        rest := s[4..];
        assert s == [s[0], s[1], s[2], s[3]] + s[4..];
      } else {
        i, rest := Escaped(s[1]), s[2..];
        assert s == [s[0], s[1]] + s[2..];
      }
    } else if quote.Singly? && s[0] == '\\' && |s| >= 2 && s[1] == '\'' {
      i, rest := Escaped(s[1]), s[2..];
      assert s == [s[0], s[1]] + s[2..];
    } else {
      i, rest := Plain(s[0]), s[1..];
      assert s == [s[0]] + s[1..];
    }
  }

  lemma {:induction false} ItemsOf(quote: Quote, s: string) returns (items: seq<Item>, last: string)
    ensures AreSmall(items) && AllFit(quote, items, last) && s == Text(items) + last
    ensures IsOpen(quote, last) || last[0] == quote.Mark()
    decreases |s|
  {
    hide Fits, Item.Text;
    if IsOpen(quote, s) || s[0] == quote.Mark() {
      items, last := [], s;
    } else {
      var i, rest := ItemOf(quote, s);
      items, last := ItemsOf(quote, rest);
      FitsSmall(quote, i, rest);
      Assoc(i.Text(), Text(items), last);
      assert ([i] + items)[1..] == items;
      items := [i] + items;
    }
  }

  lemma FitsSmall(quote: Quote, i: Item, tail: string)
    requires Fits(quote, i, tail)
    ensures i.IsHexSmall()
  {
  }

  lemma FitsAlready(quote: Quote, i: Item, tail: string, more: string)
    requires Fits(quote, i, tail + ([quote.Mark()] + more))
    ensures Fits(quote, i, tail + [quote.Mark()])
  {
    var a, b := tail + [quote.Mark()], tail + ([quote.Mark()] + more);
    assert a[0] == b[0];
    if |a| >= 2 {
      assert a[1] == b[1];
    }
  }

  lemma {:induction false} AllFitAlready(quote: Quote, items: seq<Item>, more: string)
    requires AreSmall(items) && AllFit(quote, items, [quote.Mark()] + more)
    ensures AllFit(quote, items, [quote.Mark()])
    decreases |items|
  {
    hide Fits;
    if items != [] {
      FitsAlready(quote, items[0], Text(items[1..]), more);
      AllFitAlready(quote, items[1..], more);
    }
  }

  function WithWord(w: Word, f: Form): Form { f.(words := [w] + f.words) }

  lemma WithWordIs(w: Word, f: Form)
    requires IsWord(w) && IsForm(f) && w.blanks != ""
    ensures IsForm(WithWord(w, f)) && TextOf(WithWord(w, f)) == Written(w) + (w.blanks + TextOf(f))
  {
    hide IsWord, Written, Rest;
    var words := [w] + f.words;
    assert words[1..] == f.words;
    assert forall i :: 0 < i < |words| ==> words[i] == f.words[i - 1];
    assert LineOf(words) == Written(w) + w.blanks + LineOf(f.words);
    RestStays(w, f);
    Assoc(Written(w) + w.blanks, LineOf(f.words), Rest(f));
    Assoc(Written(w), w.blanks, LineOf(f.words) + Rest(f));
  }

  lemma RestStays(w: Word, f: Form)
    requires IsForm(f) && IsForm(WithWord(w, f))
    ensures Rest(WithWord(w, f)) == Rest(f)
  {
  }

  /** A word and the blanks behind it in front of a line. */
  lemma {:induction false} MoreWords(bare: string, quoted: Option<Part>, blanks: string, f: Form) returns (g: Form)
    requires IsForm(f) && AreBlank(blanks) && blanks != "" && IsWord(Word(bare, quoted, blanks))
    ensures IsForm(g) && TextOf(g) == Written(Word(bare, quoted, blanks)) + (blanks + TextOf(f))
  {
    hide IsWord, Written, Rest, LineOf;
    WithWordIs(Word(bare, quoted, blanks), f);
    g := WithWord(Word(bare, quoted, blanks), f);
  }

  lemma OneWord(w: Word, end: string)
    requires IsWord(w) && w.blanks == "" && IsOver(end)
    ensures IsForm(Good([w], end)) && TextOf(Good([w], end)) == Written(w) + end
  {
    hide IsWord, Written;
    assert [w][1..] == [] && LineOf([]) == "";
    assert LineOf([w]) == Written(w) + w.blanks + LineOf([w][1..]);
    assert Written(w) + "" + "" == Written(w);
  }

  lemma OnlyRest(f: Form)
    requires IsForm(f) && f.words == []
    ensures TextOf(f) == Rest(f)
  {
    hide Rest;
    assert LineOf([]) == "";
  }

  lemma {:induction false} FormOf(s: string) returns (blanks: string, f: Form)
    ensures AreBlank(blanks) && IsForm(f) && s == blanks + TextOf(f)
    ensures s != "" && IsBlank(s[0]) ==> blanks != "" && blanks[0] == s[0]
    decreases |s|, 2
  {
    hide AreBlank, IsForm, TextOf, IsStart;
    var rest;
    blanks, rest := BlanksOf(s);
    if IsOver(rest) {
      f := Good([], rest);
      EmptyForm(rest);
    } else {
      f := WordsFrom(rest);
    }
  }

  lemma EmptyForm(end: string)
    requires IsOver(end)
    ensures IsForm(Good([], end)) && TextOf(Good([], end)) == end
  {
    assert IsForm(Good([], end));
    OnlyRest(Good([], end));
  }

  lemma StartsBare(bare: string, s: string, rest: string)
    requires s == bare + rest && IsBare(bare) && s != "" && !IsBlank(s[0])
    ensures IsStart(bare)
  {
  }

  lemma {:induction false} WordsFrom(s: string) returns (f: Form)
    requires !IsOver(s) && !IsBlank(s[0])
    ensures IsForm(f) && s == TextOf(f)
    decreases |s|, 1
  {
    hide AreBlank, IsForm, TextOf, IsStart, IsBare, IsPart, Written, AreSmall, AllFit, Text;
    var bare, rest := BareOf(s);
    StartsBare(bare, s, rest);
    if IsOver(rest) {
      BareIsWord(bare, "");
      OneWord(Word(bare, None, ""), rest);
      f := Good([Word(bare, None, "")], rest);
    } else if IsEnd(rest[0]) {
      var blanks, more := FormOf(rest);
      BareIsWord(bare, blanks);
      f := MoreWords(bare, None, blanks, more);
    } else {
      f := QuotedFrom(s, bare, rest);
    }
  }

  lemma BareIsWord(bare: string, blanks: string)
    requires IsStart(bare) && bare != "" && AreBlank(blanks) && (blanks != "" ==> IsEnd(blanks[0]))
    ensures IsWord(Word(bare, None, blanks)) && Written(Word(bare, None, blanks)) == bare
  {
  }

  lemma QuotedIsWord(bare: string, quote: Quote, items: seq<Item>, blanks: string, tail: string)
    requires IsStart(bare) && AreSmall(items) && AllFit(quote, items, [quote.Mark()] + tail) && AreBlank(blanks)
    ensures IsWord(Word(bare, Some(Part(quote, items)), blanks))
    ensures Written(Word(bare, Some(Part(quote, items)), blanks)) + tail == bare + ([quote.Mark()] + Text(items) + ([quote.Mark()] + tail))
  {
    AllFitAlready(quote, items, tail);
    hide AllFit, AreSmall, Text, IsStart, AreBlank;
    Assoc([quote.Mark()] + Text(items), [quote.Mark()], tail);
    Assoc(bare, [quote.Mark()] + Text(items) + [quote.Mark()], tail);
  }

  lemma {:induction false} QuotedFrom(s: string, bare: string, rest: string) returns (f: Form)
    requires s == bare + rest && IsStart(bare) && rest != "" && (rest[0] == '"' || rest[0] == '\'')
    ensures IsForm(f) && s == TextOf(f)
    decreases |s|, 0
  {
    hide AreBlank, IsForm, TextOf, IsStart, IsPart, Written, AreSmall, AllFit, Text;
    var quote := if rest[0] == '"' then Doubly else Singly;
    var items, last := ItemsOf(quote, rest[1..]);
    assert rest == [quote.Mark()] + Text(items) + last by { Assoc([quote.Mark()], Text(items), last); }
    if IsOpen(quote, last) {
      f := Open([], bare, quote, items, last);
      OpenIsForm(bare, quote, items, last);
    } else {
      var tail := last[1..];
      assert last == [quote.Mark()] + tail;
      f := ClosedFrom(s, bare, quote, items, tail);
    }
  }

  lemma OpenIsForm(bare: string, quote: Quote, items: seq<Item>, last: string)
    requires IsStart(bare) && AreSmall(items) && AllFit(quote, items, last) && IsOpen(quote, last)
    ensures IsForm(Open([], bare, quote, items, last))
    ensures TextOf(Open([], bare, quote, items, last)) == bare + ([quote.Mark()] + Text(items) + last)
  {
    hide IsStart, AreSmall, AllFit, IsOpen, Text;
    OnlyRest(Open([], bare, quote, items, last));
  }

  lemma {:induction false} ClosedFrom(s: string, bare: string, quote: Quote, items: seq<Item>, tail: string) returns (f: Form)
    requires IsStart(bare) && AreSmall(items) && AllFit(quote, items, [quote.Mark()] + tail)
    requires s == bare + ([quote.Mark()] + Text(items) + ([quote.Mark()] + tail))
    ensures IsForm(f) && s == TextOf(f)
    decreases |tail|, 3
  {
    hide AreBlank, IsForm, TextOf, IsStart, IsPart, IsWord, Written, AreSmall, AllFit, Text, Rest;
    var part := Some(Part(quote, items));
    assert AreBlank("") by { NoBlanks(); }
    QuotedIsWord(bare, quote, items, "", tail);
    if IsOver(tail) {
      OneWord(Word(bare, part, ""), tail);
      f := Good([Word(bare, part, "")], tail);
    } else if IsBlank(tail[0]) {
      var blanks, more := FormOf(tail);
      QuotedIsWord(bare, quote, items, blanks, tail);
      f := MoreWords(bare, part, blanks, more);
    } else {
      f := Followed([], Word(bare, part, ""), tail);
      FollowedIsForm(Word(bare, part, ""), tail);
    }
  }

  lemma NoBlanks()
    ensures AreBlank("")
  {
  }

  lemma FollowedIsForm(w: Word, tail: string)
    requires IsWord(w) && w.quoted.Some? && !IsOver(tail) && !IsBlank(tail[0])
    ensures IsForm(Followed([], w, tail)) && TextOf(Followed([], w, tail)) == Written(w) + tail
  {
    hide IsWord, Written;
    OnlyRest(Followed([], w, tail));
  }

  /** The three forms decide the result. */
  lemma {:induction false} FormReads(blanks: string, f: Form)
    requires AreBlank(blanks) && IsForm(f)
    ensures SplitArgs(blanks + TextOf(f)) == if f.Good? then Some(ArgsOf(f.words)) else None
  {
    hide AreBlank, AreWords, IsWord, LineOf, ArgsOf, SplitArgs, IsStart, AreSmall, AllFit, Written;
    Assoc(blanks, LineOf(f.words), Rest(f));
    match f
    case Good(words, end) => LineReads(blanks, words, end);
    case Followed(words, w, tail) => BadlyClosed(blanks, words, w, tail);
    case Open(words, bare, quote, items, last) => LeftOpen(blanks, words, bare, quote, items, last);
  }

  /**
   sdssplitargs, for every line: it is words with blanks around them, and then the result is their values; or a
   quoted part is followed by something else than a blank, or a quote is left open, and then there is no result.
   */
  lemma {:induction false} EveryLine(line: string) returns (blanks: string, f: Form)
    ensures AreBlank(blanks) && IsForm(f) && line == blanks + TextOf(f)
    ensures SplitArgs(line) == if f.Good? then Some(ArgsOf(f.words)) else None
  {
    blanks, f := FormOf(line);
    hide AreBlank, IsForm, TextOf, ArgsOf, SplitArgs;
    FormReads(blanks, f);
  }
}
