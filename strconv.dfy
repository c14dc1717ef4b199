/**
 * Decimal integer and boolean conversions of Go's `strconv` package, as the modelled
 * code uses them: `Itoa` (error codes, ports, pool sizes), `Atoi` and `ParseBool`
 * (environment lookups). Go's `int` is taken to be 64 bits wide.
 */
module Strconv {
  import opened Wrappers

  const MinInt64: int := -0x8000_0000_0000_0000
  const MaxInt64: int := 0x7FFF_FFFF_FFFF_FFFF

  predicate IsDigit(c: char) { '0' <= c <= '9' }

  predicate AllDigits(s: string) { forall i :: 0 <= i < |s| ==> IsDigit(s[i]) }

  function DigitChar(d: nat): (c: char)
    requires d < 10
    ensures IsDigit(c) && c as int - '0' as int == d
  {
    ('0' as int + d) as char
  }

  /** The value of a string of decimal digits, most significant first. */
  function DigitsValue(s: string): nat
    requires AllDigits(s)
  {
    if s == [] then 0
    else DigitsValue(s[..|s| - 1]) * 10 + (s[|s| - 1] as int - '0' as int)
  }

  /** The shortest decimal rendering of `n`. */
  function NatToDigits(n: nat): (s: string)
    ensures |s| > 0 && AllDigits(s)
    ensures s[0] == '0' ==> n == 0
  {
    if n < 10 then [DigitChar(n)]
    else NatToDigits(n / 10) + [DigitChar(n % 10)]
  }

  lemma {:induction false} DigitsRoundTrip(n: nat)
    ensures DigitsValue(NatToDigits(n)) == n
  {
    if n >= 10 {
      DigitsRoundTrip(n / 10);
      var s := NatToDigits(n);
      assert s[..|s| - 1] == NatToDigits(n / 10);
    }
  }

  /** `strconv.Itoa`: an optional minus sign followed by the shortest decimal digits. */
  function Itoa(n: int): (s: string)
    ensures |s| > 0
    ensures n < 0 <==> s[0] == '-'
  {
    if n < 0 then "-" + NatToDigits(-n) else NatToDigits(n)
  }

  /** `Itoa` writes only digits and a leading minus sign. */
  lemma ItoaChars(n: int, c: char)
    requires c != '-' && !IsDigit(c)
    ensures c !in Itoa(n)
  {
    var s := Itoa(n);
    forall i | 0 <= i < |s| ensures s[i] != c {
      if n < 0 && i > 0 {
        assert s[i] == NatToDigits(-n)[i - 1];
      }
    }
  }

  datatype NumError = ErrSyntax | ErrRange

  /** The optional sign of a numeral and the digits after it. */
  function Unsigned(s: string): string
  {
    if |s| > 0 && (s[0] == '-' || s[0] == '+') then s[1..] else s
  }

  predicate WellFormed(s: string)
  {
    |Unsigned(s)| > 0 && AllDigits(Unsigned(s))
  }

  function SignedValue(s: string): int
    requires WellFormed(s)
  {
    var v: int := DigitsValue(Unsigned(s));
    if s[0] == '-' then -v else v
  }

  const MaxUint64: int := 0xFFFF_FFFF_FFFF_FFFF

  /** The number of decimal digits `s` starts with. */
  function DigitPrefix(s: string): (k: nat)
    ensures k <= |s| && AllDigits(s[..k])
    ensures k < |s| ==> !IsDigit(s[k])
    ensures AllDigits(s) ==> k == |s|
  {
    if s == [] || !IsDigit(s[0]) then 0
    else
      var k := 1 + DigitPrefix(s[1..]);
      assert forall i :: 0 < i < k ==> s[..k][i] == s[1..][..k - 1][i - 1];
      assert AllDigits(s) ==> AllDigits(s[1..]) by {
        if AllDigits(s) {
          forall i | 0 <= i < |s[1..]| ensures IsDigit(s[1..][i]) { assert s[1..][i] == s[i + 1]; }
        }
      }
      k
  }

  /**
   * The digits before the first other character are already worth more than 64 bits
   * hold. `ParseUint` checks the range digit by digit, so it reports a range error for
   * such text before it reaches the character that is not a digit.
   */
  predicate LeadOverflows(s: string)
  {
    var u := Unsigned(s);
    DigitsValue(u[..DigitPrefix(u)]) > MaxUint64
  }

  /**
   * `strconv.Atoi`: an optional sign and at least one decimal digit (no underscores,
   * no spaces) is a number; a range error when it is outside 64 bits, or when the digits
   * before a bad character already overflow 64 unsigned bits; a syntax error otherwise.
   * Short text takes Go's fast path, which agrees: fewer than 19 digits never overflow.
   */
  function Atoi(s: string): (r: Result<int, NumError>)
    ensures r == Failure(ErrSyntax) <==> !WellFormed(s) && !LeadOverflows(s)
    ensures r.Success? <==> WellFormed(s) && MinInt64 <= SignedValue(s) <= MaxInt64
    ensures r.Success? ==> MinInt64 <= r.value <= MaxInt64 && r.value == SignedValue(s)
    ensures r.Success? && s != [] && s[0] == '-' ==> r.value <= 0
    ensures r.Success? && s != [] && s[0] != '-' ==> r.value >= 0
  {
    assert WellFormed(s) ==> Unsigned(s)[..DigitPrefix(Unsigned(s))] == Unsigned(s);
    if LeadOverflows(s) then Failure(ErrRange)
    else if !WellFormed(s) then Failure(ErrSyntax)
    else
      var v := SignedValue(s);
      if MinInt64 <= v <= MaxInt64 then Success(v) else Failure(ErrRange)
  }

  /** Reading more digits never lowers the value. */
  lemma {:induction false} DigitsValuePrefix(s: string, j: nat)
    requires AllDigits(s) && j <= |s|
    ensures AllDigits(s[..j]) && DigitsValue(s[..j]) <= DigitsValue(s)
    decreases |s|
  {
    assert AllDigits(s[..j]) by {
      forall i | 0 <= i < j ensures IsDigit(s[..j][i]) { assert s[..j][i] == s[i]; }
    }
    if j < |s| {
      var p := s[..|s| - 1];
      assert AllDigits(p) by {
        forall i | 0 <= i < |p| ensures IsDigit(p[i]) { assert p[i] == s[i]; }
      }
      DigitsValuePrefix(p, j);
      assert p[..j] == s[..j];
    } else {
      assert s[..j] == s;
    }
  }

  /**
   * Digits worth more than 64 unsigned bits, followed by anything at all, are a range
   * error, as `ParseUint` reports the overflow before it looks further.
   */
  lemma AtoiOverflowFirst(d: string, rest: string)
    requires |d| > 0 && AllDigits(d) && DigitsValue(d) > MaxUint64
    ensures Atoi(d + rest) == Failure(ErrRange)
  {
    var u := d + rest;
    assert Unsigned(u) == u by { assert IsDigit(u[0]); }
    var k := DigitPrefix(u);
    assert k >= |d| by {
      assert forall i :: 0 <= i < |d| ==> u[i] == d[i];
    }
    var w := u[..k];
    assert w[..|d|] == d;
    DigitsValuePrefix(w, |d|);
  }

  /** `Atoi` reads back what `Itoa` writes, for every 64-bit integer. */
  lemma AtoiItoa(n: int)
    requires MinInt64 <= n <= MaxInt64
    ensures Atoi(Itoa(n)) == Success(n)
  {
    var s := Itoa(n);
    if n < 0 {
      DigitsRoundTrip(-n);
      assert Unsigned(s) == NatToDigits(-n);
    } else {
      DigitsRoundTrip(n);
      assert Unsigned(s) == NatToDigits(n);
    }
  }

  /** A leading zero does not change the value `Atoi` reads. */
  lemma AtoiLeadingZero(s: string)
    requires |s| > 0 && AllDigits(s)
    ensures Atoi("0" + s) == Atoi(s)
  {
    LeadingZeroValue(s);
    assert Unsigned("0" + s) == "0" + s;
    assert Unsigned(s) == s;
  }

  lemma {:induction false} LeadingZeroValue(s: string)
    requires AllDigits(s)
    ensures AllDigits("0" + s) && DigitsValue("0" + s) == DigitsValue(s)
  {
    if s != [] {
      var t := "0" + s;
      assert t[..|t| - 1] == "0" + s[..|s| - 1];
      LeadingZeroValue(s[..|s| - 1]);
    }
  }

  /** `strconv.ParseBool`: the six spellings of each truth value, a syntax error otherwise. */
  function ParseBool(s: string): (r: Result<bool, NumError>)
    ensures r.Failure? ==> r.error == ErrSyntax
    ensures r == Success(true) <==> s in {"1", "t", "T", "TRUE", "true", "True"}
    ensures r == Success(false) <==> s in {"0", "f", "F", "FALSE", "false", "False"}
  {
    if s in {"1", "t", "T", "TRUE", "true", "True"} then Success(true)
    else if s in {"0", "f", "F", "FALSE", "false", "False"} then Success(false)
    else Failure(ErrSyntax)
  }

  /** `strconv.FormatBool`, the inverse used to state what `ParseBool` accepts. */
  function FormatBool(b: bool): string
  {
    if b then "true" else "false"
  }

  lemma ParseFormatBool(b: bool)
    ensures ParseBool(FormatBool(b)) == Success(b)
  {
  }

  /** The lower-case hexadecimal digit of `d`, as `strconv` writes it. */
  function HexDigit(d: nat): (c: char)
    requires d < 16
  {
    if d < 10 then ('0' as int + d) as char else ('a' as int + d - 10) as char
  }

  /** The value of a lower-case hexadecimal digit. */
  function HexValue(c: char): Option<nat>
  {
    if '0' <= c <= '9' then Some(c as int - '0' as int)
    else if 'a' <= c <= 'f' then Some(c as int - 'a' as int + 10)
    else None
  }

  lemma HexDigitValue(d: nat)
    requires d < 16
    ensures HexValue(HexDigit(d)) == Some(d)
  {
  }

  /**
   * `strconv.IsPrint` on Latin-1: space through `~`, and U+00A1 through U+00FF except the
   * soft hyphen U+00AD. Characters above U+00FF are all taken as printable.
   */
  predicate IsPrint(c: char)
  {
    if c as int < 0x100 then 0x20 <= c as int < 0x7F || (0xA1 <= c as int && c as int != 0xAD)
    else true
  }

  /** The single-letter escapes `strconv.Quote` writes, by code point. */
  function LetterEscape(n: int): Option<char>
  {
    if n == 7 then Some('a') else if n == 8 then Some('b') else if n == 12 then Some('f')
    else if n == 10 then Some('n') else if n == 13 then Some('r') else if n == 9 then Some('t')
    else if n == 11 then Some('v') else None
  }

  /** The code point a single-letter escape stands for. */
  function LetterUnescape(e: char): Option<int>
  {
    if e == 'a' then Some(7) else if e == 'b' then Some(8) else if e == 'f' then Some(12)
    else if e == 'n' then Some(10) else if e == 'r' then Some(13) else if e == 't' then Some(9)
    else if e == 'v' then Some(11) else None
  }

  /**
   * How `strconv.Quote` writes one character between the double quotes: `"` and `\` get a
   * backslash, printable characters are copied, the seven control characters with a letter
   * escape get it, other ASCII controls and DEL become `\xhh`, and the other unprintable
   * Latin-1 characters become `\u00hh`.
   */
  function QuoteChar(c: char): string
  {
    var n := c as int;
    if c == '"' || c == '\\' then ['\\', c]
    else if IsPrint(c) then [c]
    else if LetterEscape(n).Some? then ['\\', LetterEscape(n).value]
    else if n < 0x20 || n == 0x7F then ['\\', 'x', HexDigit(n / 16), HexDigit(n % 16)]
    else ['\\', 'u', '0', '0', HexDigit(n / 16 % 16), HexDigit(n % 16)]
  }

  function QuoteBody(s: string): string
  {
    if s == [] then [] else QuoteChar(s[0]) + QuoteBody(s[1..])
  }

  /** `strconv.Quote`: the escaped characters between double quotes. */
  function Quote(s: string): string
  {
    "\"" + QuoteBody(s) + "\""
  }

  function Prepend(c: char, r: Option<string>): Option<string>
  {
    if r.Some? then Some([c] + r.value) else None
  }

  /** The value of four hexadecimal digits, when they are. */
  function Hex4(t: string): Option<nat>
    requires |t| == 4
  {
    if HexValue(t[0]).Some? && HexValue(t[1]).Some? && HexValue(t[2]).Some? && HexValue(t[3]).Some? then
      Some(((HexValue(t[0]).value * 16 + HexValue(t[1]).value) * 16 + HexValue(t[2]).value) * 16 + HexValue(t[3]).value)
    else None
  }

  /**
   * The decoding of what `QuoteBody` writes: a bare `"` is refused, and every escape
   * `QuoteChar` uses is read back to its character.
   */
  function UnquoteBody(t: string): Option<string>
    decreases |t|
  {
    if t == [] then Some([])
    else if t[0] == '"' then None
    else if t[0] != '\\' then Prepend(t[0], UnquoteBody(t[1..]))
    else if |t| < 2 then None
    else if t[1] == '"' || t[1] == '\\' then Prepend(t[1], UnquoteBody(t[2..]))
    else if LetterUnescape(t[1]).Some? then Prepend(LetterUnescape(t[1]).value as char, UnquoteBody(t[2..]))
    else if t[1] == 'x' && |t| >= 4 && HexValue(t[2]).Some? && HexValue(t[3]).Some? then
      Prepend((HexValue(t[2]).value * 16 + HexValue(t[3]).value) as char, UnquoteBody(t[4..]))
    else if t[1] == 'u' && |t| >= 6 && Hex4(t[2..6]).Some? && (Hex4(t[2..6]).value < 0xD800 || 0xE000 <= Hex4(t[2..6]).value) then
      Prepend(Hex4(t[2..6]).value as char, UnquoteBody(t[6..]))
    else None
  }

  /** Decoding the escape of one character gives that character back. */
  lemma UnquoteChar(c: char, t: string)
    ensures UnquoteBody(QuoteChar(c) + t) == Prepend(c, UnquoteBody(t))
  {
    var n := c as int;
    var q := QuoteChar(c);
    var u := q + t;
    if c == '"' || c == '\\' {
      assert u[2..] == t;
    } else if IsPrint(c) {
      assert u[1..] == t;
    } else if LetterEscape(n).Some? {
      assert u[2..] == t;
    } else if n < 0x20 || n == 0x7F {
      HexDigitValue(n / 16);
      HexDigitValue(n % 16);
      assert u[4..] == t;
    } else {
      HexDigitValue(n / 16 % 16);
      HexDigitValue(n % 16);
      assert u[2..6] == q[2..6];
      assert u[6..] == t;
    }
  }

  /** `Quote` loses nothing: its body decodes back to the quoted string. */
  lemma {:induction false} UnquoteQuote(s: string)
    ensures UnquoteBody(QuoteBody(s)) == Some(s)
  {
    if s != [] {
      UnquoteQuote(s[1..]);
      UnquoteChar(s[0], QuoteBody(s[1..]));
      assert [s[0]] + s[1..] == s;
    }
  }

  /** A string of printable characters other than `"` and `\` is quoted as it stands. */
  lemma {:induction false} QuotePlain(s: string)
    requires forall i :: 0 <= i < |s| ==> IsPrint(s[i]) && s[i] != '"' && s[i] != '\\'
    ensures Quote(s) == "\"" + s + "\""
    ensures QuoteBody(s) == s
  {
    if s != [] {
      QuotePlain(s[1..]);
      assert [s[0]] + s[1..] == s;
    }
  }

  /** The escapes of a double quote, a backslash and a newline. */
  lemma QuoteEscapes()
    ensures Quote("a\"b") == "\"a\\\"b\""
    ensures Quote("\\") == "\"\\\\\""
    ensures Quote("\n") == "\"\\n\""
  {
    assert QuoteBody("a\"b") == "a" + QuoteBody("\"b");
    assert QuoteBody("\"b") == "\\\"" + QuoteBody("b");
  }
}
