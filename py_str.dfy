/** The parts of Python's string semantics that the modelled code relies on:
    `str()` of an integer, `int()` of a string in base 10, `repr()` of a
    string, ASCII `upper()`/`lower()`, `endswith` and two-argument
    `posixpath.join`. */
module PyStr {
  import opened Wrappers

  predicate IsDigit(c: char) { '0' <= c <= '9' }

  predicate AllDigits(s: string) { forall i :: 0 <= i < |s| ==> IsDigit(s[i]) }

  function DigitValue(c: char): nat
    requires IsDigit(c)
  {
    c as int - '0' as int
  }

  function DigitChar(d: nat): (c: char)
    requires d < 10
    ensures IsDigit(c) && DigitValue(c) == d
  {
    ('0' as int + d) as char
  }

  /** `str(n)` of a non-negative integer: its decimal numeral. */
  function NatToStr(n: nat): (s: string)
    ensures |s| >= 1 && AllDigits(s)
  {
    if n < 10 then [DigitChar(n)] else NatToStr(n / 10) + [DigitChar(n % 10)]
  }

  /** `str(i)` of any integer. */
  function IntToStr(i: int): (s: string)
    ensures |s| >= 1
    ensures i < 0 <==> s[0] == '-'
  {
    if i < 0 then "-" + NatToStr(-i) else NatToStr(i)
  }

  /** The value of a numeral made of digits only, most significant digit first. */
  function NumeralValue(s: string): nat
    requires AllDigits(s)
  {
    if s == [] then 0 else 10 * NumeralValue(s[..|s| - 1]) + DigitValue(s[|s| - 1])
  }

  lemma {:induction false} NatToStrValue(n: nat)
    ensures NumeralValue(NatToStr(n)) == n
  {
    if n >= 10 {
      NatToStrValue(n / 10);
      var s := NatToStr(n);
      assert s[..|s| - 1] == NatToStr(n / 10);
    }
  }

  /** The characters Python treats as white space in the ASCII range
      (`str.isspace`): tab, line feed, vertical tab, form feed, carriage
      return, the four separators 0x1C-0x1F, and space. */
  predicate IsSpace(c: char) { '\t' <= c <= '\r' || '\U{1C}' <= c <= ' ' }

  function LStrip(s: string): (r: string)
    ensures |r| <= |s| && r == s[|s| - |r|..]
    ensures r == [] || !IsSpace(r[0])
  {
    if s != [] && IsSpace(s[0]) then LStrip(s[1..]) else s
  }

  function RStrip(s: string): (r: string)
    ensures |r| <= |s| && r == s[..|r|]
    ensures r == [] || !IsSpace(r[|r| - 1])
  {
    if s != [] && IsSpace(s[|s| - 1]) then RStrip(s[..|s| - 1]) else s
  }

  /** `s.strip()`. */
  function Strip(s: string): string { RStrip(LStrip(s)) }

  /** The digit part Python's `int()` accepts in base 10: digits, with single
      underscores allowed between two digits. */
  predicate IsDecimalBody(s: string)
  {
    && |s| >= 1
    && IsDigit(s[0]) && IsDigit(s[|s| - 1])
    && (forall i :: 0 <= i < |s| ==> IsDigit(s[i]) || s[i] == '_')
    && (forall i :: 0 <= i < |s| - 1 ==> s[i] == '_' ==> s[i + 1] != '_')
  }

  function RemoveUnderscores(s: string): (r: string)
    requires forall i :: 0 <= i < |s| ==> IsDigit(s[i]) || s[i] == '_'
    ensures AllDigits(r) && |r| <= |s|
  {
    if s == [] then []
    else (if s[0] == '_' then [] else [s[0]]) + RemoveUnderscores(s[1..])
  }

  /** `int(s)` for a string `s`: `Some(value)`, or `None` where Python raises
      ValueError. Surrounding white space is ignored, one sign is allowed. */
  function ParseInt(s: string): (r: Option<int>)
    ensures r.Some? ==> |Strip(s)| >= 1
  {
    var t := Strip(s);
    var signed := |t| > 0 && (t[0] == '+' || t[0] == '-');
    var body := if signed then t[1..] else t;
    if IsDecimalBody(body) then
      var magnitude: int := NumeralValue(RemoveUnderscores(body));
      Some(if signed && t[0] == '-' then -magnitude else magnitude)
    else None
  }

  lemma NoSpaceStrip(s: string)
    requires s != [] && !IsSpace(s[0]) && !IsSpace(s[|s| - 1])
    ensures Strip(s) == s
  {
  }

  lemma {:induction false} RemoveUnderscoresOfDigits(s: string)
    requires AllDigits(s)
    ensures RemoveUnderscores(s) == s
  {
    if s != [] {
      RemoveUnderscoresOfDigits(s[1..]);
    }
  }

  /** `int(str(i)) == i`. */
  lemma ParseIntOfIntToStr(i: int)
    ensures ParseInt(IntToStr(i)) == Some(i)
  {
    var n: nat := if i < 0 then -i else i;
    var digits := NatToStr(n);
    RemoveUnderscoresOfDigits(digits);
    NatToStrValue(n);
    assert IsDecimalBody(digits);
    var s := IntToStr(i);
    assert !IsSpace(s[0]) && !IsSpace(s[|s| - 1]);
    NoSpaceStrip(s);
    if i < 0 {
      assert s == "-" + digits && s[1..] == digits;
    } else {
      assert s == digits && s[0] != '+' && s[0] != '-';
    }
  }

  /** Different integers have different numerals. */
  lemma IntToStrInjective(i: int, j: int)
    requires IntToStr(i) == IntToStr(j)
    ensures i == j
  {
    ParseIntOfIntToStr(i);
    ParseIntOfIntToStr(j);
  }

  function HexDigit(d: nat): char
    requires d < 16
  {
    "0123456789abcdef"[d]
  }

  /** The escape Python's `repr` writes for one character inside quotes `q`. */
  function EscapeChar(c: char, q: char): string
  {
    if c == q || c == '\\' then ['\\', c]
    else if c == '\t' then "\\t"
    else if c == '\n' then "\\n"
    else if c == '\r' then "\\r"
    else if c < ' ' || c == '\U{7F}' then
      "\\x" + [HexDigit(c as int / 16), HexDigit(c as int % 16)]
    else [c]
  }

  function Escape(s: string, q: char): string
  {
    if s == [] then [] else EscapeChar(s[0], q) + Escape(s[1..], q)
  }

  /** `repr(s)` of a string: single quotes unless `s` holds a single quote and
      no double quote, with backslash escapes for the quote, the backslash
      and the ASCII control characters. */
  function Repr(s: string): (r: string)
    ensures |r| >= 2 && r[0] == r[|r| - 1] && (r[0] == '\'' || r[0] == '"')
  {
    var q := if '\'' in s && '"' !in s then '"' else '\'';
    [q] + Escape(s, q) + [q]
  }

  lemma {:induction false} EscapePlain(s: string, q: char)
    requires forall i :: 0 <= i < |s| ==> ' ' <= s[i] < '\U{7F}' && s[i] != q && s[i] != '\\'
    ensures Escape(s, q) == s
  {
    if s != [] {
      EscapePlain(s[1..], q);
    }
  }

  /** A string without quotes, backslashes or control characters is shown
      between single quotes unchanged. */
  lemma ReprPlain(s: string)
    requires forall i :: 0 <= i < |s| ==> ' ' <= s[i] < '\U{7F}' && s[i] != '\'' && s[i] != '"' && s[i] != '\\'
    ensures Repr(s) == "'" + s + "'"
  {
    assert '\'' !in s;
    EscapePlain(s, '\'');
  }

  function UpperChar(c: char): char
  {
    if 'a' <= c <= 'z' then (c as int - 32) as char else c
  }

  function LowerChar(c: char): char
  {
    if 'A' <= c <= 'Z' then (c as int + 32) as char else c
  }

  /** `s.upper()` on ASCII letters. */
  function Upper(s: string): (r: string)
    ensures |r| == |s| && forall i :: 0 <= i < |s| ==> r[i] == UpperChar(s[i])
  {
    seq(|s|, i requires 0 <= i < |s| => UpperChar(s[i]))
  }

  /** `s.lower()` on ASCII letters. */
  function Lower(s: string): (r: string)
    ensures |r| == |s| && forall i :: 0 <= i < |s| ==> r[i] == LowerChar(s[i])
  {
    seq(|s|, i requires 0 <= i < |s| => LowerChar(s[i]))
  }

  predicate EndsWith(s: string, suffix: string)
  {
    |suffix| <= |s| && s[|s| - |suffix|..] == suffix
  }

  predicate StartsWith(s: string, prefix: string)
  {
    |prefix| <= |s| && s[..|prefix|] == prefix
  }

  /** `posixpath.join(a, b)`: an absolute `b` replaces `a`; otherwise `b` is
      appended after a separating slash unless `a` is empty or already ends
      with one. */
  function Join(a: string, b: string): (r: string)
    ensures StartsWith(b, "/") ==> r == b
    ensures !StartsWith(b, "/") ==> EndsWith(r, b) && StartsWith(r, a)
  {
    if StartsWith(b, "/") then b
    else if a == [] || EndsWith(a, "/") then a + b
    else a + "/" + b
  }
}
