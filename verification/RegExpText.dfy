// Reading and printing integers as testRegExp.cpp does with sscanf.
module RegExpText {
  import opened Common

  const NUL: char := 0 as char
  const QUOTE: char := '"'
  const BACKSLASH: char := '\\'

  // What C reads at the start of a NUL-terminated text.
  function Head(s: string): char {
    if |s| == 0 then NUL else s[0]
  }

  function Next(s: string): string {
    if |s| == 0 then "" else s[1..]
  }

  // ---------------------------------------------------------------- digits

  predicate IsDigit(c: char) {
    '0' <= c <= '9'
  }

  function DigitValue(c: char): nat
    requires IsDigit(c)
  {
    c as int - '0' as int
  }

  // Reads digits as long as there are any: the number so far and the text behind them.
  function ReadDigits(s: string, value: nat): (nat, string)
    decreases |s|
  {
    if |s| == 0 || !IsDigit(s[0]) then (value, s) else ReadDigits(s[1..], value * 10 + DigitValue(s[0]))
  }

  predicate IsSpace(c: char) {
    c == ' ' || c == '\t' || c == '\n' || c == '\r' || c as int == 11 || c as int == 12
  }

  function SkipSpaces(s: string): (r: string)
    ensures |r| <= |s|
  {
    if |s| != 0 && IsSpace(s[0]) then SkipSpaces(s[1..]) else s
  }

  // sscanf's %d: the number and the text behind it.
  function ReadInt(s: string): Option<(int, string)> {
    var t := SkipSpaces(s);
    var digits := if Head(t) == '-' || Head(t) == '+' then t[1..] else t;
    if !IsDigit(Head(digits)) then None
    else
      var (size, rest) := ReadDigits(digits, 0);
      Some((if Head(t) == '-' then 0 - size else size, rest))
  }

  // sscanf's "%d, %d" with two conversions.
  function ReadPair(s: string): Option<(int, int)> {
    var first := ReadInt(s);
    if first.None? || Head(first.value.1) != ',' then None
    else
      var second := ReadInt(first.value.1[1..]);
      if second.None? then None else Some((first.value.0, second.value.0))
  }

  // ---------------------------------------------------------------- printing integers

  function Digit(n: nat): char
    requires n < 10
  {
    ('0' as int + n) as char
  }

  function Decimal(n: nat): (r: string)
    ensures r != "" && IsDigit(r[0])
  {
    if n < 10 then [Digit(n)] else Decimal(n / 10) + [Digit(n % 10)]
  }

  function PrintInt(n: int): string {
    if n < 0 then "-" + Decimal(-n) else Decimal(n)
  }

  // Reading a printed number continues behind it with its value.
  lemma {:induction false} ReadDecimal(n: nat, rest: string)
    ensures ReadDigits(Decimal(n) + rest, 0) == ReadDigits(rest, n)
    decreases n
  {
    if n < 10 {
      assert ([Digit(n)] + rest)[1..] == rest;
    } else {
      var d := Digit(n % 10);
      assert Decimal(n) + rest == Decimal(n / 10) + ([d] + rest);
      ReadDecimal(n / 10, [d] + rest);
      assert ([d] + rest)[1..] == rest;
    }
  }

  lemma ReadSpaced(s: string)
    ensures ReadInt([' '] + s) == ReadInt(s)
  {
    assert ([' '] + s)[1..] == s;
  }

  // Reading a printed integer gives it back and stops behind it.
  lemma ReadPrinted(n: int, rest: string)
    requires !IsDigit(Head(rest))
    ensures ReadInt(PrintInt(n) + rest) == Some((n, rest))
  {
    var s := PrintInt(n) + rest;
    if n < 0 {
      ReadDecimal(-n, rest);
      assert s[1..] == Decimal(-n) + rest;
    } else {
      ReadDecimal(n, rest);
    }
    assert SkipSpaces(s) == s;
  }

  lemma {:induction false} DecimalIsDigits(n: nat, i: nat)
    requires i < |Decimal(n)|
    ensures IsDigit(Decimal(n)[i])
    decreases n
  {
    if n >= 10 && i < |Decimal(n)| - 1 {
      DecimalIsDigits(n / 10, i);
    }
  }

  // ---------------------------------------------------------------- which texts are integers

  ghost predicate Blank(s: string) {
    forall i | 0 <= i < |s| :: IsSpace(s[i])
  }

  ghost predicate AllDigits(s: string) {
    forall i | 0 <= i < |s| :: IsDigit(s[i])
  }

  // The value of a digit string by position, the last digit counting once.
  ghost function Positional(digits: string): nat
    requires AllDigits(digits)
  {
    if |digits| == 0 then 0
    else Positional(digits[..|digits| - 1]) * 10 + DigitValue(digits[|digits| - 1])
  }

  // Blanks, an optional sign and at least one digit.
  ghost predicate Parts(blanks: string, sign: string, digits: string, n: int) {
    && Blank(blanks) && AllDigits(digits) && |digits| > 0
    && (if sign == "-" then n == 0 - Positional(digits) else (sign == "" || sign == "+") && n == Positional(digits))
  }

  ghost predicate Numeral(text: string, n: int) {
    exists blanks, sign, digits :: text == blanks + (sign + digits) && Parts(blanks, sign, digits, n)
  }

  lemma {:induction false} SkipBlanks(blanks: string, s: string)
    requires Blank(blanks) && !IsSpace(Head(s))
    ensures SkipSpaces(blanks + s) == s
    decreases |blanks|
  {
    if |blanks| == 0 {
      assert blanks + s == s;
    } else {
      assert (blanks + s)[1..] == blanks[1..] + s;
      SkipBlanks(blanks[1..], s);
    }
  }

  lemma {:induction false} SkipSplits(s: string) returns (blanks: string)
    ensures s == blanks + SkipSpaces(s) && Blank(blanks) && !IsSpace(Head(SkipSpaces(s)))
    decreases |s|
  {
    if |s| != 0 && IsSpace(s[0]) {
      var more := SkipSplits(s[1..]);
      blanks := [s[0]] + more;
    } else {
      blanks := "";
    }
  }

  lemma PositionalNext(digits: string, c: char)
    requires AllDigits(digits) && IsDigit(c)
    ensures AllDigits(digits + [c]) && Positional(digits + [c]) == Positional(digits) * 10 + DigitValue(c)
  {
    assert (digits + [c])[..|digits|] == digits;
  }

  lemma {:induction false} ReadDigitsAll(done: string, digits: string, rest: string)
    requires AllDigits(done) && AllDigits(digits) && !IsDigit(Head(rest))
    ensures AllDigits(done + digits)
    ensures ReadDigits(digits + rest, Positional(done)) == (Positional(done + digits), rest)
    decreases |digits|
  {
    if |digits| == 0 {
      assert digits + rest == rest && done + digits == done;
    } else {
      assert (digits + rest)[1..] == digits[1..] + rest;
      PositionalNext(done, digits[0]);
      ReadDigitsAll(done + [digits[0]], digits[1..], rest);
      assert done + [digits[0]] + digits[1..] == done + digits;
    }
  }

  lemma {:induction false} ReadDigitsSplits(done: string, s: string) returns (digits: string)
    requires AllDigits(done)
    ensures AllDigits(digits) && AllDigits(done + digits)
    ensures var (value, rest) := ReadDigits(s, Positional(done));
            s == digits + rest && !IsDigit(Head(rest)) && value == Positional(done + digits)
    ensures IsDigit(Head(s)) ==> |digits| > 0
    decreases |s|
  {
    if |s| == 0 || !IsDigit(s[0]) {
      digits := "";
      assert done + digits == done && digits + s == s;
    } else {
      PositionalNext(done, s[0]);
      var more := ReadDigitsSplits(done + [s[0]], s[1..]);
      digits := [s[0]] + more;
      assert done + [s[0]] + more == done + digits;
    }
  }

  lemma ReadParts(blanks: string, sign: string, digits: string, n: int, rest: string)
    requires Parts(blanks, sign, digits, n) && !IsDigit(Head(rest))
    ensures ReadInt(blanks + (sign + digits) + rest) == Some((n, rest))
  {
    var t, d := sign + digits + rest, digits + rest;
    assert blanks + (sign + digits) + rest == blanks + t;
    assert t[..|sign|] == sign && t[|sign|..] == d && d[0] == digits[0];
    assert !IsSpace(Head(t));
    SkipBlanks(blanks, t);
    ReadDigitsAll("", digits, rest);
    assert "" + digits == digits;
  }

  // Behind the blanks.
  lemma FindSigned(t: string, n: int, rest: string) returns (sign: string, digits: string)
    requires !IsSpace(Head(t)) && ReadInt(t) == Some((n, rest))
    ensures Parts("", sign, digits, n) && t == sign + (digits + rest) && !IsDigit(Head(rest))
  {
    assert SkipSpaces(t) == t;
    sign := if Head(t) == '-' || Head(t) == '+' then [t[0]] else "";
    var d := t[|sign|..];
    assert t == sign + d;
    digits := ReadDigitsSplits("", d);
    assert "" + digits == digits;
  }

  lemma FindParts(s: string, n: int, rest: string) returns (blanks: string, sign: string, digits: string)
    requires ReadInt(s) == Some((n, rest))
    ensures Parts(blanks, sign, digits, n) && s == blanks + (sign + digits) + rest && !IsDigit(Head(rest))
  {
    blanks := SkipSplits(s);
    var t := SkipSpaces(s);
    assert SkipSpaces(t) == t;
    sign, digits := FindSigned(t, n, rest);
    Regroup(blanks, sign, digits, rest);
  }

  lemma Regroup(a: string, b: string, c: string, d: string)
    ensures a + (b + (c + d)) == a + (b + c) + d
  {
  }

  // sscanf's %d reads n and stops before rest exactly if the text is a numeral for n and then rest,
  // which goes on with no digit.
  lemma ReadIntIff(s: string, n: int, rest: string)
    ensures ReadInt(s) == Some((n, rest)) <==>
            exists text :: s == text + rest && Numeral(text, n) && !IsDigit(Head(rest))
  {
    if ReadInt(s) == Some((n, rest)) {
      var blanks, sign, digits := FindParts(s, n, rest);
      assert Numeral(blanks + (sign + digits), n);
    }
    forall text | s == text + rest && Numeral(text, n) && !IsDigit(Head(rest)) ensures ReadInt(s) == Some((n, rest)) {
      var blanks, sign, digits :| text == blanks + (sign + digits) && Parts(blanks, sign, digits, n);
      ReadParts(blanks, sign, digits, n, rest);
    }
  }

  // Two numerals with a comma behind the first.
  lemma ReadPairIff(s: string, a: int, b: int)
    ensures ReadPair(s) == Some((a, b)) <==>
            exists first, second, rest ::
              s == first + ([','] + (second + rest)) && Numeral(first, a) && Numeral(second, b) && !IsDigit(Head(rest))
  {
    if ReadPair(s) == Some((a, b)) {
      var rest1 := ReadInt(s).value.1;
      ReadIntIff(s, a, rest1);
      var first :| s == first + rest1 && Numeral(first, a);
      var rest := ReadInt(rest1[1..]).value.1;
      ReadIntIff(rest1[1..], b, rest);
      var second :| rest1[1..] == second + rest && Numeral(second, b);
      assert rest1 == [','] + (second + rest);
    }
    forall first, second, rest |
      s == first + ([','] + (second + rest)) && Numeral(first, a) && Numeral(second, b) && !IsDigit(Head(rest))
      ensures ReadPair(s) == Some((a, b))
    {
      var tail := second + rest;
      ReadIntIff(s, a, [','] + tail);
      assert ([','] + tail)[1..] == tail;
      ReadIntIff(tail, b, rest);
    }
  }
}
