/** Integers as text: digits10, string2ll and ll2string of util.c, sdsll2str of sds.c. */
module IntegerStrings {
  const LLONG_MAX: int := 0x7FFF_FFFF_FFFF_FFFF
  const LLONG_MIN: int := -0x8000_0000_0000_0000
  const ULLONG_MAX: nat := 0xFFFF_FFFF_FFFF_FFFF

  predicate IsInt64(v: int) { LLONG_MIN <= v <= LLONG_MAX }

  predicate IsDigit(c: char) { '0' <= c <= '9' }

  function Digit(d: nat): (c: char)
    requires d < 10
    ensures IsDigit(c) && Value(c) == d
  {
    ('0' as int + d) as char
  }

  function Value(c: char): (d: nat)
    requires IsDigit(c)
    ensures d < 10
  {
    c as int - '0' as int
  }

  /** The decimal digits of `v`, without leading zeros. */
  function Decimal(v: nat): (s: string)
    ensures 0 < |s|
  {
    if v < 10 then [Digit(v)] else Decimal(v / 10) + [Digit(v % 10)]
  }

  /** The decimal form of `v`. */
  function Print(v: int): (s: string)
    ensures 0 < |s|
  {
    if v < 0 then "-" + Decimal(-v) else Decimal(v)
  }

  /** Decimal forms of numbers of each sign. */
  lemma {:induction false} PrintExamples()
    ensures Print(0) == "0" && Print(1024) == "1024" && Print(-37) == "-37"
  {
    assert Decimal(10) == Decimal(1) + "0" && Decimal(102) == Decimal(10) + "2" && Decimal(1024) == Decimal(102) + "4";
    assert Decimal(37) == Decimal(3) + "7";
  }

  // ----- Reading digits back -----

  predicate AreDigits(s: string) {
    forall i :: 0 <= i < |s| ==> IsDigit(s[i])
  }

  function Number(s: string): nat
    requires AreDigits(s)
  {
    if s == "" then 0 else 10 * Number(s[..|s| - 1]) + Value(s[|s| - 1])
  }

  /** Digits that do not start with a zero, unless they are just "0". */
  predicate IsCanonical(s: string) {
    s != "" && AreDigits(s) && (s[0] == '0' ==> |s| == 1)
  }

  lemma DecimalIsCanonical(v: nat)
    ensures IsCanonical(Decimal(v)) && Number(Decimal(v)) == v
    ensures Decimal(v)[0] == '0' ==> v == 0
  {
    if v >= 10 {
      DecimalIsCanonical(v / 10);
      assert Decimal(v)[..|Decimal(v)| - 1] == Decimal(v / 10);
    }
  }

  lemma {:induction false} CanonicalIsDecimal(s: string)
    requires IsCanonical(s)
    ensures Decimal(Number(s)) == s
    ensures s[0] != '0' ==> Number(s) > 0
    decreases |s|
  {
    if |s| == 1 {
      assert Number(s[..0]) == 0;
    } else {
      var t := s[..|s| - 1];
      assert t[0] == s[0];
      CanonicalIsDecimal(t);
      DecimalNext(Number(t), Value(s[|s| - 1]));
      assert s == t + [s[|s| - 1]];
    }
  }

  lemma DecimalNext(n: nat, d: nat)
    requires 0 < n && d < 10
    ensures Decimal(10 * n + d) == Decimal(n) + [Digit(d)]
  {
    assert (10 * n + d) / 10 == n && (10 * n + d) % 10 == d;
  }

  lemma PrintInjective(v: int, w: int)
    requires Print(v) == Print(w)
    ensures v == w
  {
    DecimalIsCanonical(if v < 0 then -v else v);
    DecimalIsCanonical(if w < 0 then -w else w);
    if v < 0 && w < 0 {
      assert Print(v)[1..] == Decimal(-v) && Print(w)[1..] == Decimal(-w);
    }
  }

  lemma {:induction false} NumberGrows(s: string, n: nat)
    requires AreDigits(s) && n <= |s|
    ensures Number(s) >= Number(s[..n])
    ensures n < |s| ==> Number(s) >= 10 * Number(s[..n])
    ensures n < |s| ==> Number(s) >= 10 * Number(s[..n]) + (if n + 1 == |s| then Value(s[n]) else 0)
    decreases |s|
  {
    if n == |s| {
      assert s[..n] == s;
    } else {
      NumberGrows(s[..|s| - 1], n);
      assert s[..|s| - 1][..n] == s[..n];
      if n + 1 == |s| {
        assert s[..n] == s[..|s| - 1];
      }
    }
  }

  // ----- string2ll -----

  /** What string2ll stores, when it accepts. */
  ghost predicate Prints(s: string, v: int) { IsInt64(v) && Print(v) == s }

  predicate IsNegative(s: string) { s != "" && s[0] == '-' }

  function Digits(s: string): string { if IsNegative(s) then s[1..] else s }

  /** The value of an accepted string. */
  function Signed(s: string): int
    requires AreDigits(Digits(s))
  {
    if IsNegative(s) then 0 - Number(Digits(s)) else Number(Digits(s))
  }

  /** What string2ll looks for: canonical digits, no negative zero, and no overflow. */
  predicate IsAccepted(s: string) {
    && IsCanonical(Digits(s))
    && (IsNegative(s) ==> Digits(s)[0] != '0')
    && IsInt64(Signed(s))
  }

  lemma AcceptedIsPrinted(s: string)
    ensures IsAccepted(s) <==> exists v :: Prints(s, v)
    ensures IsAccepted(s) ==> Prints(s, Signed(s))
  {
    forall v | Prints(s, v) ensures IsAccepted(s) {
      DecimalIsCanonical(if v < 0 then -v else v);
    }
    if IsAccepted(s) {
      CanonicalIsDecimal(Digits(s));
      assert Prints(s, Signed(s)) by {
        if IsNegative(s) {
          assert s == "-" + Digits(s);
        }
      }
    }
  }

  /** string2ll: accepts a string exactly when it is what some 64-bit integer prints as, and finds that integer. */
  method String2ll(s: string) returns (ok: bool, value: int)
    ensures ok <==> exists v :: Prints(s, v)
    ensures ok ==> Prints(s, value)
  {
    hide Print, Prints;
    AcceptedIsPrinted(s);
    ok, value := ReadInteger(s);
  }

  method ReadInteger(s: string) returns (ok: bool, value: int)
    ensures ok == IsAccepted(s)
    ensures ok ==> value == Signed(s)
  {
    ok, value := false, 0;
    if |s| == 0 {
      return;
    }
    if |s| == 1 && s[0] == '0' {
      assert Number(s[..0]) == 0 && Number(s) == 10 * Number(s[..0]) + Value(s[0]);
      return true, 0;
    }
    var plen, negative := 0, false;
    if s[0] == '-' {
      negative := true;
      plen := 1;
      if plen == |s| {
        return;
      }
    }
    ghost var digits := Digits(s);
    assert digits[0] == s[plen];
    if !('1' <= s[plen] <= '9') {
      return;
    }
    var inRange, v := ReadDigits(s, plen, digits);
    if !inRange {
      return;
    }
    var magnitude: int := v;
    if negative {
      if v > -(LLONG_MIN + 1) + 1 {
        return;
      }
      value := -magnitude;
    } else {
      if v > LLONG_MAX {
        return;
      }
      value := magnitude;
    }
    ok := true;
  }

  /** The digit loop: all the rest of the string has to be digits, and not overflow 64 bits. */
  method ReadDigits(s: string, first: nat, ghost digits: string) returns (ok: bool, v: nat)
    requires first < |s| && digits == s[first..] && IsDigit(s[first])
    ensures ok <==> AreDigits(digits) && Number(digits) <= ULLONG_MAX
    ensures ok ==> v == Number(digits)
  {
    v := Value(s[first]);
    var plen := first + 1;
    assert digits[..1] == [s[first]] && Number([s[first]][..0]) == 0;
    while plen < |s| && IsDigit(s[plen])
      invariant first < plen <= |s| && v <= ULLONG_MAX
      invariant AreDigits(digits[..plen - first]) && v == Number(digits[..plen - first])
    {
      ghost var n := plen - first;
      assert digits[..n + 1][..n] == digits[..n];
      if AreDigits(digits) {
        NumberGrows(digits, n);
        NumberGrows(digits, n + 1);
      }
      if v > ULLONG_MAX / 10 {
        return false, v;
      }
      v := v * 10;
      if v > ULLONG_MAX - Value(s[plen]) {
        return false, v;
      }
      v := v + Value(s[plen]);
      plen := plen + 1;
    }
    if plen < |s| {
      assert digits[plen - first] == s[plen];
      return false, v;
    }
    assert digits[..plen - first] == digits;
    ok := true;
  }

  // ----- digits10 -----

  function Digits10(v: nat): (n: nat) {
    if v < 10 then 1
    else if v < 100 then 2
    else if v < 1000 then 3
    else if v < 1000000000000 then
      if v < 100000000 then
        if v < 1000000 then
          if v < 10000 then 4 else 5 + if v >= 100000 then 1 else 0
        else 7 + if v >= 10000000 then 1 else 0
      else if v < 10000000000 then 9 + if v >= 1000000000 then 1 else 0
      else 11 + if v >= 100000000000 then 1 else 0
    else 12 + Digits10(v / 1000000000000)
  }

  lemma {:induction false} DropThreeDigits(v: nat)
    requires v >= 1000
    ensures |Decimal(v)| == 3 + |Decimal(v / 1000)|
  {
    assert |Decimal(v)| == 1 + |Decimal(v / 10)|;
    assert |Decimal(v / 10)| == 1 + |Decimal(v / 10 / 10)|;
    assert |Decimal(v / 100)| == 1 + |Decimal(v / 100 / 10)|;
  }

  lemma {:induction false} FewDigits(v: nat)
    requires v < 1000
    ensures |Decimal(v)| == if v < 10 then 1 else if v < 100 then 2 else 3
  {
    if v >= 100 {
      assert |Decimal(v)| == 1 + |Decimal(v / 10)|;
      assert |Decimal(v / 10)| == 1 + |Decimal(v / 10 / 10)|;
    } else if v >= 10 {
      assert |Decimal(v)| == 1 + |Decimal(v / 10)|;
    }
  }

  /** digits10 is the number of digits that get printed. */
  lemma {:induction false} Digits10IsLength(v: nat)
    ensures Digits10(v) == |Decimal(v)|
    decreases v
  {
    hide Decimal;
    if v < 1000 {
      FewDigits(v);
    } else {
      DropThreeDigits(v);
      var v3 := v / 1000;
      if v3 < 1000 {
        FewDigits(v3);
      } else {
        DropThreeDigits(v3);
        var v6 := v3 / 1000;
        if v6 < 1000 {
          FewDigits(v6);
        } else {
          DropThreeDigits(v6);
          var v9 := v6 / 1000;
          if v9 < 1000 {
            FewDigits(v9);
          } else {
            DropThreeDigits(v9);
            assert v9 / 1000 == v / 1000000000000;
            Digits10IsLength(v9 / 1000);
          }
        }
      }
    }
  }

  // ----- ll2string -----

  /** Two digits for every number below 100, twenty numbers to a row. */
  const DIGITS_0 := "0001020304050607080910111213141516171819"
  const DIGITS_20 := "2021222324252627282930313233343536373839"
  const DIGITS_40 := "4041424344454647484950515253545556575859"
  const DIGITS_60 := "6061626364656667686970717273747576777879"
  const DIGITS_80 := "8081828384858687888990919293949596979899"

  function Row(r: nat): (row: string)
    requires r < 5
    ensures |row| == 40
  {
    if r == 0 then DIGITS_0 else if r == 1 then DIGITS_20 else if r == 2 then DIGITS_40 else if r == 3 then DIGITS_60 else DIGITS_80
  }

  function TwoDigits(i: nat): (two: string)
    requires i < 100
    ensures |two| == 2
  {
    [Row(i / 20)[2 * (i % 20)], Row(i / 20)[2 * (i % 20) + 1]]
  }

  lemma RowFrom0(k: nat)
    requires k < 20
    ensures DIGITS_0[2 * k] == (if k < 10 then '0' else '1') && DIGITS_0[2 * k + 1] == Digit(if k < 10 then k else k - 10)
  {
    if k < 10 {
      assert k == 0 || k == 1 || k == 2 || k == 3 || k == 4 || k == 5 || k == 6 || k == 7 || k == 8 || k == 9;
    } else {
      assert k == 10 || k == 11 || k == 12 || k == 13 || k == 14 || k == 15 || k == 16 || k == 17 || k == 18 || k == 19;
    }
  }

  lemma RowFrom20(k: nat)
    requires k < 20
    ensures DIGITS_20[2 * k] == (if k < 10 then '2' else '3') && DIGITS_20[2 * k + 1] == Digit(if k < 10 then k else k - 10)
  {
    if k < 10 {
      assert k == 0 || k == 1 || k == 2 || k == 3 || k == 4 || k == 5 || k == 6 || k == 7 || k == 8 || k == 9;
    } else {
      assert k == 10 || k == 11 || k == 12 || k == 13 || k == 14 || k == 15 || k == 16 || k == 17 || k == 18 || k == 19;
    }
  }

  lemma RowFrom40(k: nat)
    requires k < 20
    ensures DIGITS_40[2 * k] == (if k < 10 then '4' else '5') && DIGITS_40[2 * k + 1] == Digit(if k < 10 then k else k - 10)
  {
    if k < 10 {
      assert k == 0 || k == 1 || k == 2 || k == 3 || k == 4 || k == 5 || k == 6 || k == 7 || k == 8 || k == 9;
    } else {
      assert k == 10 || k == 11 || k == 12 || k == 13 || k == 14 || k == 15 || k == 16 || k == 17 || k == 18 || k == 19;
    }
  }

  lemma RowFrom60(k: nat)
    requires k < 20
    ensures DIGITS_60[2 * k] == (if k < 10 then '6' else '7') && DIGITS_60[2 * k + 1] == Digit(if k < 10 then k else k - 10)
  {
    if k < 10 {
      assert k == 0 || k == 1 || k == 2 || k == 3 || k == 4 || k == 5 || k == 6 || k == 7 || k == 8 || k == 9;
    } else {
      assert k == 10 || k == 11 || k == 12 || k == 13 || k == 14 || k == 15 || k == 16 || k == 17 || k == 18 || k == 19;
    }
  }

  lemma RowFrom80(k: nat)
    requires k < 20
    ensures DIGITS_80[2 * k] == (if k < 10 then '8' else '9') && DIGITS_80[2 * k + 1] == Digit(if k < 10 then k else k - 10)
  {
    if k < 10 {
      assert k == 0 || k == 1 || k == 2 || k == 3 || k == 4 || k == 5 || k == 6 || k == 7 || k == 8 || k == 9;
    } else {
      assert k == 10 || k == 11 || k == 12 || k == 13 || k == 14 || k == 15 || k == 16 || k == 17 || k == 18 || k == 19;
    }
  }

  lemma RowIs(r: nat, k: nat)
    requires r < 5 && k < 20
    ensures Row(r)[2 * k] == Digit(2 * r + if k < 10 then 0 else 1) && Row(r)[2 * k + 1] == Digit(if k < 10 then k else k - 10)
  {
    if r == 0 {
      RowFrom0(k);
    } else if r == 1 {
      RowFrom20(k);
    } else if r == 2 {
      RowFrom40(k);
    } else if r == 3 {
      RowFrom60(k);
    } else {
      RowFrom80(k);
    }
  }

  lemma TwoDigitsAre(i: nat)
    requires i < 100
    ensures TwoDigits(i) == [Digit(i / 10), Digit(i % 10)]
  {
    hide Row, Digit;
    var r, k := i / 20, i % 20;
    RowIs(r, k);
    assert i == 20 * r + k;
    assert i / 10 == 2 * r + (if k < 10 then 0 else 1) && i % 10 == if k < 10 then k else k - 10;
  }

  lemma {:induction false} DecimalByTwo(v: nat)
    requires v >= 100
    ensures Decimal(v) == Decimal(v / 100) + TwoDigits(v % 100)
  {
    hide TwoDigits, Digit;
    TwoDigitsAre(v % 100);
    assert Decimal(v) == Decimal(v / 10) + [Digit(v % 10)];
    assert Decimal(v / 10) == Decimal(v / 10 / 10) + [Digit(v / 10 % 10)];
    assert v / 10 / 10 == v / 100 && v % 100 / 10 == v / 10 % 10 && v % 100 % 10 == v % 10;
  }

  method PutTwo(dst: array<char>, at: nat, i: nat)
    requires at + 2 <= dst.Length && i < 100
    modifies dst
    ensures dst[..] == old(dst[..at]) + TwoDigits(i) + old(dst[at + 2..])
  {
    hide TwoDigits;
    dst[at + 1] := TwoDigits(i)[1];
    dst[at] := TwoDigits(i)[0];
  }

  /** The digits of `v` behind those of `value` are in place at the end of the region before `end`. */
  ghost predicate Filling(now: string, was: string, start: nat, end: nat, v: nat, value: nat, done: string) {
    && end <= |was| && end - |done| == start + |Decimal(value)|
    && Decimal(value) + done == Decimal(v)
    && now == was[..end - |done|] + done + was[end..]
  }

  lemma {:induction false} FillTwo(now: string, was: string, start: nat, end: nat, v: nat, value: nat, done: string)
    requires Filling(now, was, start, end, v, value, done) && value >= 100
    ensures start + 2 <= end - |done| <= |now|
    ensures
      var at, two := end - |done| - 2, TwoDigits(value % 100);
      Filling(now[..at] + two + now[at + 2..], was, start, end, v, value / 100, two + done)
  {
    DecimalByTwo(value);
    hide Decimal, TwoDigits;
    var at, two := end - |done| - 2, TwoDigits(value % 100);
    Regroup(Decimal(value / 100), two, done, "");
    assert now[..at] == was[..at] && now[at + 2..] == done + was[end..];
    Regroup(was[..at], two, done, was[end..]);
  }

  lemma Regroup(a: string, b: string, c: string, d: string)
    ensures a + (b + c) == a + b + c && a + b + (c + d) == a + (b + c) + d
  {
  }

  lemma {:induction false} FillLast(now: string, was: string, start: nat, end: nat, v: nat, value: nat, done: string)
    requires Filling(now, was, start, end, v, value, done) && value < 100
    ensures start + (if value < 10 then 1 else 2) == end - |done| <= |now|
    ensures now[..start] + (if value < 10 then [Digit(value)] else TwoDigits(value)) + now[end - |done|..]
         == was[..start] + Decimal(v) + was[end..]
  {
    LastDigits(value);
    hide Decimal, TwoDigits, Digit;
  }

  lemma {:induction false} FillFirst(was: string, start: nat, end: nat, v: nat)
    requires end == start + |Decimal(v)| <= |was|
    ensures Filling(was, was, start, end, v, v, "")
  {
    hide Decimal;
  }

  /** The digit loop of ll2string: two digits a turn, from the end, and then the last one or two. */
  method PutDigits(dst: array<char>, start: nat, end: nat, v: nat)
    requires end == start + |Decimal(v)| <= dst.Length
    modifies dst
    ensures dst[..] == old(dst[..start]) + Decimal(v) + old(dst[end..])
  {
    hide Decimal, TwoDigits, Digit, Filling;
    ghost var was, done := dst[..], "";
    FillFirst(was, start, end, v);
    var value, next := v, end - 1;
    while value >= 100
      invariant next + 1 == end - |done| && Filling(dst[..], was, start, end, v, value, done)
    {
      FillTwo(dst[..], was, start, end, v, value, done);
      var i := value % 100;
      value := value / 100;
      PutTwo(dst, next - 1, i);
      done := TwoDigits(i) + done;
      next := next - 2;
    }
    FillLast(dst[..], was, start, end, v, value, done);
    ghost var now := dst[..];
    if value < 10 {
      dst[next] := Digit(value);
      assert dst[..] == now[..start] + [Digit(value)] + now[next + 1..];
    } else {
      PutTwo(dst, next - 1, value);
    }
  }

  /** ll2string: the decimal form in `dst`, terminated, or nothing at all when it does not fit. */
  method Ll2string(dst: array<char>, dstlen: nat, svalue: int) returns (length: nat)
    requires IsInt64(svalue) && dstlen <= dst.Length
    modifies dst
    ensures length == if |Print(svalue)| >= dstlen then 0 else |Print(svalue)|
    ensures length > 0 ==> dst[..] == Print(svalue) + "\0" + old(dst[length + 1..])
    ensures length == 0 ==> dst[..] == old(dst[..])
  {
    hide Decimal, Digits10, TwoDigits, Row;
    var negative := svalue < 0;
    var value: nat := if svalue >= 0 then svalue else if svalue != LLONG_MIN then -svalue else LLONG_MAX + 1;
    var sign := if negative then 1 else 0;
    length := Digits10(value) + sign;
    Digits10IsLength(value);
    if length >= dstlen {
      return 0;
    }
    dst[length] := '\0';
    assert dst[length..] == "\0" + old(dst[length + 1..]);
    PutDigits(dst, sign, length, value);
    if negative {
      dst[0] := '-';
      assert dst[..] == "-" + Decimal(value) + "\0" + old(dst[length + 1..]);
    }
  }

  lemma {:induction false} LastDigits(v: nat)
    requires v < 100
    ensures Decimal(v) == if v < 10 then [Digit(v)] else TwoDigits(v)
  {
    hide TwoDigits, Digit;
    TwoDigitsAre(v);
  }

  // ----- sdsll2str -----

  function Reversed(s: string): (r: string)
    ensures |r| == |s| && forall i :: 0 <= i < |s| ==> r[i] == s[|s| - 1 - i]
  {
    seq(|s|, i requires 0 <= i < |s| => s[|s| - 1 - i])
  }

  lemma ReversedMore(s: string, c: char)
    ensures Reversed(s + [c]) == [c] + Reversed(s)
  {
  }

  /** The do-while loop of sdsll2str: digits from the last to the first. */
  method PutReversed(s: array<char>, value: nat) returns (l: nat)
    requires |Decimal(value)| <= s.Length
    modifies s
    ensures l == |Decimal(value)| && Reversed(s[..l]) == Decimal(value)
  {
    hide Digit, Reversed;
    var v := value;
    l := 0;
    assert Reversed(s[..0]) == "";
    while true
      invariant l + |Decimal(v)| == |Decimal(value)|
      invariant Decimal(v) + Reversed(s[..l]) == Decimal(value)
      decreases v
    {
      ghost var written := s[..l];
      s[l] := Digit(v % 10);
      assert s[..l + 1] == written + [Digit(v % 10)];
      ReversedMore(written, Digit(v % 10));
      l := l + 1;
      if v / 10 == 0 {
        return;
      }
      v := v / 10;
    }
  }

  /** The reversal in place that both sdsll2str and sdsull2str end with. */
  method Reverse(s: array<char>, l: nat)
    requires 0 < l <= s.Length
    modifies s
    ensures s[..l] == Reversed(old(s[..l])) && s[l..] == old(s[l..])
  {
    ghost var was := s[..l];
    var i, j := 0, l - 1;
    while i < j
      invariant 0 <= i <= j + 1 && i + j == l - 1
      invariant forall k :: 0 <= k < i ==> s[k] == was[l - 1 - k] && s[l - 1 - k] == was[k]
      invariant forall k :: i <= k <= j ==> s[k] == was[k]
      invariant s[l..] == old(s[l..])
    {
      s[i], s[j] := s[j], s[i];
      i, j := i + 1, j - 1;
    }
  }

  /** sdsll2str: the digits reversed, the sign, and then the whole turned round. */
  method Sdsll2str(s: array<char>, value: int) returns (l: nat)
    requires IsInt64(value) && value != LLONG_MIN && s.Length >= 21
    modifies s
    ensures l == |Print(value)| < s.Length
    ensures s[..l] == Print(value) && s[l] == '\0'
  {
    hide Decimal, Reversed;
    var v: nat := if value < 0 then -value else value;
    AtMost20Digits(v);
    l := PutReversed(s, v);
    ghost var digits := s[..l];
    if value < 0 {
      s[l] := '-';
      l := l + 1;
      assert s[..l] == digits + ['-'];
      ReversedMore(digits, '-');
    }
    s[l] := '\0';
    assert s[..l] == if value < 0 then digits + ['-'] else digits;
    Reverse(s, l);
    assert s[l] == s[l..][0];
  }

  lemma {:induction false} AtMost20Digits(v: nat)
    requires v <= ULLONG_MAX
    ensures |Decimal(v)| <= 19 || (v >= 1_0000_0000_0000_0000_000 && |Decimal(v)| == 20)
  {
    Digits10IsLength(v);
    hide Decimal;
    if v >= 1000000000000 {
      assert v / 1000000000000 <= 18446744;
    }
  }
}
