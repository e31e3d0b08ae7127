/**
 * The part of Go's strconv package that procfs relies on: Atoi (a directory
 * name as a pid), Itoa (a pid as a directory name) and Quote (the %q verb of
 * fmt, used in one error message). Go's int is taken to be 64 bits wide.
 */
module Strconv {
  import opened Wrappers

  const MinInt: int := -0x8000_0000_0000_0000
  const MaxInt: int := 0x7FFF_FFFF_FFFF_FFFF

  predicate IsDigit(c: char) {
    '0' <= c <= '9'
  }

  predicate AllDigits(s: string) {
    forall i :: 0 <= i < |s| ==> IsDigit(s[i])
  }

  /** The value of a run of decimal digits; leading zeros are allowed. */
  function DigitsValue(d: string): nat
    requires AllDigits(d)
  {
    if d == [] then 0
    else DigitsValue(d[..|d| - 1]) * 10 + (d[|d| - 1] as int - '0' as int)
  }

  /**
   * strconv.Atoi: an optional '+' or '-', then one or more decimal digits,
   * whose value must fit in a 64-bit int. Anything else is an error (None).
   */
  function Atoi(s: string): (r: Option<int>)
    ensures r.Some? ==> MinInt <= r.value <= MaxInt
    ensures r.Some? ==> s != [] && (IsDigit(s[0]) || (|s| >= 2 && (s[0] == '+' || s[0] == '-')))
    ensures r.Some? ==> forall i :: 0 < i < |s| ==> IsDigit(s[i])
  {
    var signed := |s| > 0 && (s[0] == '+' || s[0] == '-');
    var body := if signed then s[1..] else s;
    if body == [] || !AllDigits(body) then None
    else
      assert forall i :: 0 < i < |s| ==> s[i] == (if signed then body[i - 1] else body[i]);
      var v: int := if signed && s[0] == '-' then 0 - DigitsValue(body) else DigitsValue(body);
      if MinInt <= v <= MaxInt then Some(v) else None
  }

  /**
   * Atoi accepts every optional sign followed by one or more digits whose
   * value fits in 64 bits, and gives that value; it rejects the numeral when
   * the value does not fit. Leading zeros are allowed.
   */
  lemma AtoiSignedDigits(sign: string, d: string)
    requires sign == "" || sign == "+" || sign == "-"
    requires d != [] && AllDigits(d)
    ensures var v := if sign == "-" then 0 - DigitsValue(d) else DigitsValue(d);
      Atoi(sign + d) == if MinInt <= v <= MaxInt then Some(v) else None
  {
    var s := sign + d;
    if sign == "" {
      assert s == d;
    } else {
      assert s[0] == sign[0] && s[1..] == d;
    }
  }

  function DigitChar(d: nat): (c: char)
    requires d < 10
    ensures IsDigit(c) && c as int - '0' as int == d
  {
    ('0' as int + d) as char
  }

  /** The shortest decimal numeral of `n`: no leading zeros, and it reads back as `n`. */
  function Digits(n: nat): (s: string)
    ensures s != [] && AllDigits(s)
    ensures |s| > 1 ==> s[0] != '0'
    ensures DigitsValue(s) == n
  {
    if n < 10 then [DigitChar(n)]
    else
      var s := Digits(n / 10) + [DigitChar(n % 10)];
      assert s[..|s| - 1] == Digits(n / 10);
      s
  }

  /** strconv.Itoa: the decimal numeral of `n`, with a '-' when it is negative. */
  function Itoa(n: int): (s: string)
    ensures s != [] && (s[0] == '-' <==> n < 0)
    ensures var d := if n < 0 then s[1..] else s;
      d != [] && AllDigits(d) && (|d| > 1 ==> d[0] != '0')
      && (if n < 0 then 0 - DigitsValue(d) else DigitsValue(d)) == n
  {
    if n < 0 then
      var s := "-" + Digits(0 - n);
      assert s[1..] == Digits(0 - n);
      s
    else Digits(n)
  }

  /** Atoi reads back every int that Itoa writes. */
  lemma AtoiItoa(n: int)
    requires MinInt <= n <= MaxInt
    ensures Atoi(Itoa(n)) == Some(n)
  {
    if n < 0 {
      assert Itoa(n)[1..] == Digits(0 - n);
    }
  }

  /** strconv.IsPrint, exact on the first 256 code points; see the README for the rest. */
  predicate IsPrint(c: char) {
    var n := c as int;
    (0x20 <= n <= 0x7E) || (0xA1 <= n <= 0xFF && n != 0xAD) || n > 0xFF
  }

  function HexDigit(d: nat): char
    requires d < 16
  {
    "0123456789abcdef"[d]
  }

  /** How strconv.Quote writes one character between the double quotes. */
  function QuoteChar(c: char): string {
    var n := c as int;
    if c == '"' || c == '\\' then ['\\', c]
    else if IsPrint(c) then [c]
    else if n == 0x07 then "\\a"
    else if n == 0x08 then "\\b"
    else if n == 0x0C then "\\f"
    else if n == 0x0A then "\\n"
    else if n == 0x0D then "\\r"
    else if n == 0x09 then "\\t"
    else if n == 0x0B then "\\v"
    else if n < 0x20 || n == 0x7F then ['\\', 'x', HexDigit(n / 16), HexDigit(n % 16)]
    else ['\\', 'u', HexDigit(n / 0x1000 % 16), HexDigit(n / 0x100 % 16), HexDigit(n / 16 % 16), HexDigit(n % 16)]
  }

  function QuoteBody(s: string): string {
    if s == [] then [] else QuoteChar(s[0]) + QuoteBody(s[1..])
  }

  /** strconv.Quote, which is what fmt's %q verb prints for a string. */
  function Quote(s: string): string {
    "\"" + QuoteBody(s) + "\""
  }

  /** A character Quote copies unchanged. */
  predicate IsPlain(c: char) {
    IsPrint(c) && c != '"' && c != '\\'
  }

  /** Quoting a string of plain characters only adds the two double quotes. */
  lemma {:induction false} QuotePlain(s: string)
    requires forall i :: 0 <= i < |s| ==> IsPlain(s[i])
    ensures Quote(s) == "\"" + s + "\""
  {
    QuoteBodyPlain(s);
  }

  lemma {:induction false} QuoteBodyPlain(s: string)
    requires forall i :: 0 <= i < |s| ==> IsPlain(s[i])
    ensures QuoteBody(s) == s
  {
    if s != [] {
      QuoteBodyPlain(s[1..]);
      assert s == [s[0]] + s[1..];
    }
  }

  /** The value of a hexadecimal digit of either case, or None. */
  function HexValue(c: char): (r: Option<nat>)
    ensures r.Some? ==> r.value < 16
  {
    if '0' <= c <= '9' then Some(c as int - '0' as int)
    else if 'a' <= c <= 'f' then Some(c as int - 'a' as int + 10)
    else if 'A' <= c <= 'F' then Some(c as int - 'A' as int + 10)
    else None
  }

  /** The value of a run of hexadecimal digits, or None when one of them is not a digit. */
  function HexNumber(h: string): Option<nat> {
    if h == [] then Some(0)
    else match (HexNumber(h[..|h| - 1]), HexValue(h[|h| - 1]))
      case (Some(v), Some(d)) => Some(v * 16 + d)
      case _ => None
  }

  /** The character with code point `v`, or None when `v` is a surrogate or too large. */
  function CodePoint(v: nat): Option<char> {
    if v < 0xD800 || 0xE000 <= v < 0x11_0000 then Some(v as char) else None
  }

  /** The character a `\x` or `\u` escape of `width` hex digits at the front of `t` stands for. */
  function HexEscape(t: string, width: nat): Option<(char, nat)> {
    if |t| < width then None
    else match HexNumber(t[..width])
      case None => None
      case Some(v) => match CodePoint(v)
        case None => None
        case Some(c) => Some((c, 2 + width))
  }

  /**
   * Reads one character at the front of a quoted body `b`: the character and
   * how many characters of `b` stand for it, or None when `b` starts with a
   * bare double quote or a malformed escape.
   */
  function Unescape(b: string): (r: Option<(char, nat)>)
    requires b != []
    ensures r.Some? ==> 1 <= r.value.1 <= |b|
  {
    if b[0] == '"' then None
    else if b[0] != '\\' then Some((b[0], 1))
    else if |b| < 2 then None
    else match b[1]
      case '"' => Some(('"', 2))
      case '\\' => Some(('\\', 2))
      case 'a' => Some((0x07 as char, 2))
      case 'b' => Some((0x08 as char, 2))
      case 'f' => Some((0x0C as char, 2))
      case 'n' => Some((0x0A as char, 2))
      case 'r' => Some((0x0D as char, 2))
      case 't' => Some((0x09 as char, 2))
      case 'v' => Some((0x0B as char, 2))
      case 'x' => HexEscape(b[2..], 2)
      case 'u' => HexEscape(b[2..], 4)
      case _ => None
  }

  /** Decodes the text between the double quotes, escape by escape. */
  function UnquoteBody(b: string): Option<string>
    decreases |b|
  {
    if b == [] then Some([])
    else match Unescape(b)
      case None => None
      case Some((c, k)) => match UnquoteBody(b[k..])
        case None => None
        case Some(rest) => Some([c] + rest)
  }

  /** Reads a double-quoted string back: the decoder of what Quote writes. */
  function Unquote(q: string): Option<string> {
    if |q| >= 2 && q[0] == '"' && q[|q| - 1] == '"' then UnquoteBody(q[1..|q| - 1]) else None
  }

  lemma HexDigitValue(d: nat)
    requires d < 16
    ensures HexValue(HexDigit(d)) == Some(d)
  {
  }

  lemma HexTwo(hi: nat, lo: nat)
    requires hi < 16 && lo < 16
    ensures HexNumber([HexDigit(hi), HexDigit(lo)]) == Some(hi * 16 + lo)
  {
    var h := [HexDigit(hi), HexDigit(lo)];
    HexDigitValue(hi);
    HexDigitValue(lo);
    assert h[..1][..0] == [];
    assert HexNumber(h[..1]) == Some(hi);
  }

  lemma HexFour(hi: nat, lo: nat)
    requires hi < 16 && lo < 16
    ensures HexNumber([HexDigit(0), HexDigit(0), HexDigit(hi), HexDigit(lo)]) == Some(hi * 16 + lo)
  {
    var h := [HexDigit(0), HexDigit(0), HexDigit(hi), HexDigit(lo)];
    HexDigitValue(0);
    HexDigitValue(hi);
    HexDigitValue(lo);
    assert h[..1][..0] == [];
    assert h[..2][..1] == h[..1];
    assert h[..3][..2] == h[..2];
    assert HexNumber(h[..1]) == Some(0);
    assert HexNumber(h[..2]) == Some(0);
    assert HexNumber(h[..3]) == Some(hi);
  }

  lemma UnescapeTwoDigits(hi: nat, lo: nat, rest: string)
    requires hi < 8 && lo < 16
    ensures Unescape(['\\', 'x', HexDigit(hi), HexDigit(lo)] + rest) == Some(((hi * 16 + lo) as char, 4))
  {
    var b := ['\\', 'x', HexDigit(hi), HexDigit(lo)] + rest;
    HexTwo(hi, lo);
    assert b[2..][..2] == [HexDigit(hi), HexDigit(lo)];
  }

  lemma UnescapeFourDigits(hi: nat, lo: nat, rest: string)
    requires hi < 16 && lo < 16
    ensures Unescape(['\\', 'u', HexDigit(0), HexDigit(0), HexDigit(hi), HexDigit(lo)] + rest)
         == Some(((hi * 16 + lo) as char, 6))
  {
    var b := ['\\', 'u', HexDigit(0), HexDigit(0), HexDigit(hi), HexDigit(lo)] + rest;
    HexFour(hi, lo);
    assert b[2..][..4] == [HexDigit(0), HexDigit(0), HexDigit(hi), HexDigit(lo)];
  }

  /** The escape Quote writes for `c` is read back as `c`, whatever follows it. */
  lemma UnescapeQuoteChar(c: char, rest: string)
    ensures Unescape(QuoteChar(c) + rest) == Some((c, |QuoteChar(c)|))
  {
    var n := c as int;
    if c == '"' || c == '\\' || IsPrint(c) || n in {0x07, 0x08, 0x09, 0x0A, 0x0B, 0x0C, 0x0D} {
    } else if n < 0x20 || n == 0x7F {
      var hi, lo := n / 16, n % 16;
      assert QuoteChar(c) == ['\\', 'x', HexDigit(hi), HexDigit(lo)];
      UnescapeTwoDigits(hi, lo, rest);
    } else {
      // Only code points up to U+00FF are not printable, so the first two of the four digits are 0.
      var hi, lo := n / 16, n % 16;
      assert n < 0x100 && n / 0x1000 % 16 == 0 && n / 0x100 % 16 == 0 && n / 16 % 16 == hi;
      assert QuoteChar(c) == ['\\', 'u', HexDigit(0), HexDigit(0), HexDigit(hi), HexDigit(lo)];
      UnescapeFourDigits(hi, lo, rest);
    }
  }

  lemma {:induction false} UnquoteQuoteBody(s: string)
    ensures UnquoteBody(QuoteBody(s)) == Some(s)
  {
    if s != [] {
      var q := QuoteChar(s[0]);
      var b := q + QuoteBody(s[1..]);
      UnescapeQuoteChar(s[0], QuoteBody(s[1..]));
      assert b[|q|..] == QuoteBody(s[1..]);
      UnquoteQuoteBody(s[1..]);
      assert s == [s[0]] + s[1..];
    }
  }

  /** Quote loses nothing: reading its output back gives the original string. */
  lemma UnquoteQuote(s: string)
    ensures Unquote(Quote(s)) == Some(s)
  {
    var q := Quote(s);
    assert q[1..|q| - 1] == QuoteBody(s);
    UnquoteQuoteBody(s);
  }

  /** Every character Quote writes for one input character starts with a backslash or is that character. */
  lemma QuoteCharShape(c: char)
    ensures QuoteChar(c) == [c] <==> IsPlain(c)
    ensures !IsPlain(c) ==> |QuoteChar(c)| >= 2 && QuoteChar(c)[0] == '\\'
  {
  }
}
