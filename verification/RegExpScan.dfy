// scanString: a quoted text with escapes, and its printer.
module RegExpScan {
  import opened Common
  import opened RegExpText

  // UTF-16 code units.
  type Unit = u: nat | u < 0x1_0000

  // UChar c = buffer[i] with a signed char: bytes above 127 come out at the top of the range.
  function ToUnit(c: char): Unit {
    var n := c as int % 0x100;
    if n < 0x80 then n else 0xff00 + n
  }

  // ---------------------------------------------------------------- hexadecimal

  predicate IsHex(c: char) {
    IsDigit(c) || 'a' <= c <= 'f' || 'A' <= c <= 'F'
  }

  function HexValue(c: char): (n: nat)
    requires IsHex(c)
    ensures n < 16
  {
    if IsDigit(c) then DigitValue(c)
    else if 'a' <= c <= 'f' then c as int - 'a' as int + 10
    else c as int - 'A' as int + 10
  }

  // At most `width` hexadecimal digits.
  function ReadHex(s: string, width: nat, value: nat): nat
    decreases width
  {
    if width == 0 || |s| == 0 || !IsHex(s[0]) then value
    else ReadHex(s[1..], width - 1, value * 16 + HexValue(s[0]))
  }

  // An optional 0x and at least one digit, in `width` characters. A 0x without a digit behind it is
  // not a number (section 7.21.6.2 of C11).
  function HexNumber(s: string, width: nat): Option<nat> {
    var prefixed := width >= 2 && Head(s) == '0' && (Head(Next(s)) == 'x' || Head(Next(s)) == 'X');
    var digits, left := if prefixed then s[2..] else s, if prefixed then width - 2 else width;
    if left == 0 || !IsHex(Head(digits)) then None else Some(ReadHex(digits, left, 0))
  }

  // sscanf's %04x cut to a code unit: blanks, then four characters for sign, prefix and digits. A
  // negative number wraps around.
  function HexField(s: string): Option<Unit> {
    var t := SkipSpaces(s);
    if Head(t) == '-' || Head(t) == '+' then
      var size := HexNumber(t[1..], 3);
      if size.None? then None
      else Some(if Head(t) == '-' then (0 - size.value) % 0x1_0000 else size.value % 0x1_0000)
    else
      var size := HexNumber(t, 4);
      if size.None? then None else Some(size.value % 0x1_0000)
  }

  // ---------------------------------------------------------------- scanning

  function Unescape(c: char): Unit {
    match c
    case '0' => 0
    case 'a' => 7
    case 'b' => 8
    case 'f' => 12
    case 'n' => 10
    case 'r' => 13
    case 't' => 9
    case 'v' => 11
    case _ => ToUnit(c)
  }

  // The units before an unescaped `term`, and the text from it on.
  datatype Scanned = Scanned(found: bool, built: seq<Unit>, rest: string)

  function Scan(s: string, term: char, escape: bool, built: seq<Unit>): (r: Scanned)
    ensures |r.rest| <= |s|
    decreases |s|
  {
    if |s| == 0 then Scanned(false, built, "")
    else if escape then
      if s[0] == 'u' then
        if |s| <= 4 || HexField(s[1..]).None? then Scanned(false, built, "")
        else Scan(s[5..], term, false, built + [HexField(s[1..]).value])
      else Scan(s[1..], term, false, built + [Unescape(s[0])])
    else if s[0] == term then Scanned(true, built, s)
    else if s[0] == BACKSLASH then Scan(s[1..], term, true, built)
    else Scan(s[1..], term, false, built + [ToUnit(s[0])])
  }

  // What is left is the end of the text, from the terminator on.
  lemma {:induction false} ScanRest(s: string, term: char, escape: bool, built: seq<Unit>)
    ensures var r := Scan(s, term, escape, built);
            r.found ==> r.rest != "" && r.rest[0] == term && r.rest == s[|s| - |r.rest|..]
    decreases |s|
  {
    if |s| != 0 {
      if escape {
        if s[0] == 'u' {
          if |s| > 4 && HexField(s[1..]).Some? {
            ScanRest(s[5..], term, false, built + [HexField(s[1..]).value]);
          }
        } else {
          ScanRest(s[1..], term, false, built + [Unescape(s[0])]);
        }
      } else if s[0] == BACKSLASH && s[0] != term {
        ScanRest(s[1..], term, true, built);
      } else if s[0] != term {
        ScanRest(s[1..], term, false, built + [ToUnit(s[0])]);
      }
    }
  }

  method ScanString(buffer: string, term: char) returns (position: int, built: seq<Unit>)
    ensures var r := Scan(buffer, term, false, []);
            built == r.built && position == if r.found then |buffer| - |r.rest| else -1
  {
    built := [];
    var escape, i := false, 0;
    while i < |buffer|
      invariant i <= |buffer|
      invariant Scan(buffer[i..], term, escape, built) == Scan(buffer, term, false, [])
    {
      var c := buffer[i];
      if escape {
        if c == 'u' {
          if i + 4 >= |buffer| {
            return -1, built;
          }
          var field := HexField(buffer[i + 1..]);
          if field.None? {
            return -1, built;
          }
          built := built + [field.value];
          i := i + 4;
        } else {
          built := built + [Unescape(c)];
        }
        escape := false;
      } else {
        if c == term {
          return i, built;
        }
        if c == BACKSLASH {
          escape := true;
        } else {
          built := built + [ToUnit(c)];
        }
      }
      i := i + 1;
    }
    return -1, built;
  }

  // ---------------------------------------------------------------- printing

  function HexDigit(n: nat): (c: char)
    requires n < 16
    ensures IsHex(c) && HexValue(c) == n
  {
    if n < 10 then Digit(n) else ('a' as int + (n - 10)) as char
  }

  function Hex4(u: Unit): string {
    [HexDigit(u / 0x1000), HexDigit(u / 0x100 % 16), HexDigit(u / 0x10 % 16), HexDigit(u % 16)]
  }

  function EscapeUnit(u: Unit): string {
    if u == 0 then [BACKSLASH, '0']
    else if u == 7 then [BACKSLASH, 'a']
    else if u == 8 then [BACKSLASH, 'b']
    else if u == 9 then [BACKSLASH, 't']
    else if u == 10 then [BACKSLASH, 'n']
    else if u == 11 then [BACKSLASH, 'v']
    else if u == 12 then [BACKSLASH, 'f']
    else if u == 13 then [BACKSLASH, 'r']
    else if u == QUOTE as int || u == BACKSLASH as int then [BACKSLASH, u as char]
    else if 0x20 <= u < 0x7f then [u as char]
    else [BACKSLASH, 'u'] + Hex4(u)
  }

  function EscapeAll(units: seq<Unit>): string {
    if units == [] then "" else EscapeUnit(units[0]) + EscapeAll(units[1..])
  }

  lemma ReadHexStep(d: nat, rest: string, width: nat, value: nat)
    requires d < 16
    ensures ReadHex([HexDigit(d)] + rest, width + 1, value) == ReadHex(rest, width, value * 16 + d)
  {
    assert ([HexDigit(d)] + rest)[1..] == rest;
  }

  lemma HexPlaces(u: Unit, a: nat, b: nat, c: nat, d: nat)
    requires a == u / 0x1000 && b == u / 0x100 % 16 && c == u / 0x10 % 16 && d == u % 16
    ensures ((a * 16 + b) * 16 + c) * 16 + d == u
  {
    var u1, u2 := u / 0x10, u / 0x100;
    assert u1 / 16 == u2 && u2 / 16 == a;
  }

  lemma ReadHex4(u: Unit, rest: string)
    ensures ReadHex(Hex4(u) + rest, 4, 0) == u
  {
    var a, b, c, d := u / 0x1000, u / 0x100 % 16, u / 0x10 % 16, u % 16;
    var s3 := [HexDigit(d)] + rest;
    var s2 := [HexDigit(c)] + s3;
    var s1 := [HexDigit(b)] + s2;
    assert Hex4(u) + rest == [HexDigit(a)] + s1;
    ReadHexStep(a, s1, 3, 0);
    ReadHexStep(b, s2, 2, a);
    ReadHexStep(c, s3, 1, a * 16 + b);
    ReadHexStep(d, rest, 0, (a * 16 + b) * 16 + c);
    HexPlaces(u, a, b, c, d);
  }

  // Four digits are read as they are: they start with neither blank nor sign nor 0x.
  lemma HexRoundTrip(u: Unit, rest: string)
    ensures HexField(Hex4(u) + rest) == Some(u)
  {
    var s := Hex4(u) + rest;
    ReadHex4(u, rest);
    assert s[0] == HexDigit(u / 0x1000) && s[1] == HexDigit(u / 0x100 % 16);
    DigitsStart(s);
  }

  lemma DigitsStart(s: string)
    requires |s| >= 2 && IsHex(s[0]) && IsHex(s[1])
    ensures HexField(s) == Some(ReadHex(s, 4, 0) % 0x1_0000)
  {
    assert SkipSpaces(s) == s;
    assert Next(s)[0] == s[1];
  }

  lemma ScanPlain(c: char, rest: string, built: seq<Unit>)
    requires c != QUOTE && c != BACKSLASH
    ensures Scan([c] + rest, QUOTE, false, built) == Scan(rest, QUOTE, false, built + [ToUnit(c)])
  {
    assert ([c] + rest)[1..] == rest;
  }

  lemma ScanSimpleEscape(c: char, rest: string, built: seq<Unit>)
    requires c != 'u'
    ensures Scan([BACKSLASH, c] + rest, QUOTE, false, built) == Scan(rest, QUOTE, false, built + [Unescape(c)])
  {
    assert ([BACKSLASH, c] + rest)[1..] == [c] + rest && ([c] + rest)[1..] == rest;
  }

  lemma ScanHexDigits(body: string, built: seq<Unit>)
    requires |body| >= 4 && HexField(body).Some?
    ensures Scan(['u'] + body, QUOTE, true, built) == Scan(body[4..], QUOTE, false, built + [HexField(body).value])
  {
    var t := ['u'] + body;
    assert t[1..] == body && t[5..] == body[4..];
  }

  lemma ScanHexEscape(hex: string, rest: string, built: seq<Unit>, u: Unit)
    requires |hex| == 4 && HexField(hex + rest) == Some(u)
    ensures Scan([BACKSLASH, 'u'] + hex + rest, QUOTE, false, built) == Scan(rest, QUOTE, false, built + [u])
  {
    var s, body := [BACKSLASH, 'u'] + hex + rest, hex + rest;
    assert s[1..] == ['u'] + body && body[4..] == rest;
    ScanHexDigits(body, built);
  }

  // text is one of the three forms in which u can be written.
  ghost predicate Writes(text: string, u: Unit) {
    || (|text| == 1 && text[0] != QUOTE && text[0] != BACKSLASH && ToUnit(text[0]) == u)
    || (|text| == 2 && text == [BACKSLASH, text[1]] && text[1] != 'u' && Unescape(text[1]) == u)
    || text == [BACKSLASH, 'u'] + Hex4(u)
  }

  lemma EscapeWrites(u: Unit)
    ensures Writes(EscapeUnit(u), u)
  {
  }

  // Scanning one written unit appends that unit.
  lemma ScanWritten(text: string, u: Unit, rest: string, built: seq<Unit>)
    requires Writes(text, u)
    ensures Scan(text + rest, QUOTE, false, built) == Scan(rest, QUOTE, false, built + [u])
  {
    if |text| == 1 {
      assert text == [text[0]];
      ScanPlain(text[0], rest, built);
    } else if |text| == 2 {
      ScanSimpleEscape(text[1], rest, built);
    } else {
      HexRoundTrip(u, rest);
      ScanHexEscape(Hex4(u), rest, built, u);
    }
  }

  lemma ScanOne(u: Unit, rest: string, built: seq<Unit>)
    ensures Scan(EscapeUnit(u) + rest, QUOTE, false, built) == Scan(rest, QUOTE, false, built + [u])
  {
    EscapeWrites(u);
    ScanWritten(EscapeUnit(u), u, rest, built);
  }

  // text is scanned from `built` on to the same end as rest is from `longer` on.
  ghost predicate ScansOn(text: string, built: seq<Unit>, rest: string, longer: seq<Unit>) {
    Scan(text, QUOTE, false, built) == Scan(rest, QUOTE, false, longer)
  }

  lemma {:induction false} ScanAll(units: seq<Unit>, tail: string, built: seq<Unit>)
    ensures ScansOn(EscapeAll(units) + tail, built, tail, built + units)
    decreases |units|
  {
    if units == [] {
      assert EscapeAll(units) + tail == tail;
      assert built + units == built;
    } else {
      var u, rest := units[0], units[1..];
      var more := EscapeAll(rest) + tail;
      assert EscapeAll(units) + tail == EscapeUnit(u) + more;
      assert ScansOn(EscapeUnit(u) + more, built, more, built + [u]) by {
        ScanOne(u, more, built);
      }
      ScanAll(rest, tail, built + [u]);
      assert built + [u] + rest == built + units;
    }
  }

  // Scanning a printed text finds its closing quote and the text.
  lemma ScanPrinted(units: seq<Unit>, tail: string, built: seq<Unit>)
    requires tail != "" && tail[0] == QUOTE
    ensures Scan(EscapeAll(units) + tail, QUOTE, false, built) == Scanned(true, built + units, tail)
  {
    ScanAll(units, tail, built);
  }
}
