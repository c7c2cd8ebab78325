/**
 * The few pieces of Rust's standard library the game relies on, stated over
 * Dafny strings (sequences of Unicode scalar values): `char::to_ascii_uppercase`,
 * `str::len` (a UTF-8 byte count), `str::lines`, `Iterator::position` and the
 * decimal `Display` of an unsigned integer.
 */
module Strings {
  import opened Wrappers

  /** `char::MIN`, the value the scorer writes over an answer letter it has consumed. */
  const NUL: char := '\0'

  predicate IsAsciiLower(c: char) {
    'a' <= c <= 'z'
  }

  /** `char::to_ascii_uppercase`: folds 'a'..'z' to 'A'..'Z' and leaves every other character alone. */
  function ToAsciiUpper(c: char): (u: char)
    ensures !IsAsciiLower(u)
    ensures IsAsciiLower(c) ==> u as int + 32 == c as int
    ensures !IsAsciiLower(c) ==> u == c
  {
    if IsAsciiLower(c) then (c as int - 32) as char else c
  }

  /** A string that ASCII upper-casing leaves as it is. */
  predicate UpperFixed(s: string) {
    forall i :: 0 <= i < |s| ==> ToAsciiUpper(s[i]) == s[i]
  }

  /** `str::to_ascii_uppercase`. */
  function UpperString(s: string): (u: string)
    ensures |u| == |s|
    ensures forall i :: 0 <= i < |s| ==> u[i] == ToAsciiUpper(s[i])
    ensures UpperFixed(u)
  {
    seq(|s|, i requires 0 <= i < |s| => ToAsciiUpper(s[i]))
  }

  /** `Iterator::position`: the first index whose element satisfies `p`. */
  function FirstIndexWhere<T>(s: seq<T>, p: T -> bool): (r: Option<nat>)
    ensures r.Some? ==> r.value < |s| && p(s[r.value]) && forall j :: 0 <= j < r.value ==> !p(s[j])
    ensures r.None? ==> forall j :: 0 <= j < |s| ==> !p(s[j])
  {
    if |s| == 0 then None
    else if p(s[0]) then Some(0)
    else match FirstIndexWhere(s[1..], p)
      case None => None
      case Some(k) => Some(k + 1)
  }

  /** The first index holding `x`. */
  function FirstIndex<T(==)>(s: seq<T>, x: T): (r: Option<nat>)
    ensures r.Some? ==> r.value < |s| && s[r.value] == x && forall j :: 0 <= j < r.value ==> s[j] != x
    ensures r.None? ==> x !in s
  {
    if |s| == 0 then None
    else if s[0] == x then Some(0)
    else match FirstIndex(s[1..], x)
      case None => None
      case Some(k) => Some(k + 1)
  }

  /** Number of bytes UTF-8 uses for `c`. */
  function Utf8Width(c: char): nat {
    if c as int < 0x80 then 1
    else if c as int < 0x800 then 2
    else if c as int < 0x1_0000 then 3
    else 4
  }

  predicate IsAscii(s: string) {
    forall i :: 0 <= i < |s| ==> s[i] as int < 0x80
  }

  /** `str::len`: the length of the UTF-8 encoding, which equals the character count exactly for ASCII. */
  function ByteLen(s: string): (n: nat)
    ensures |s| <= n <= 4 * |s|
    ensures IsAscii(s) ==> n == |s|
  {
    if s == [] then 0 else Utf8Width(s[0]) + ByteLen(s[1..])
  }

  predicate EndsWithCR(s: string) {
    |s| > 0 && s[|s| - 1] == '\r'
  }

  /** Drops one '\r' that stood just before a '\n'. */
  function StripCarriageReturn(s: string): (t: string)
    ensures !EndsWithCR(s) ==> t == s
    ensures EndsWithCR(s) ==> s == t + "\r"
  {
    if EndsWithCR(s) then s[..|s| - 1] else s
  }

  /**
   * `str::lines`: splits at '\n' and at "\r\n", drops the terminators, and yields no
   * empty last line for a text that ends with a terminator (or is empty). A '\r' that
   * is not followed by '\n' stays in its line.
   */
  function Lines(text: string): (ls: seq<string>)
    ensures forall l :: l in ls ==> '\n' !in l
    decreases |text|
  {
    if text == [] then []
    else match FirstIndex(text, '\n')
      case None => [text]
      case Some(p) => [StripCarriageReturn(text[..p])] + Lines(text[p + 1..])
  }

  /** Joins lines, ending each with "\n" or with "\r\n". */
  function Unlines(ls: seq<string>, crlf: bool): string {
    if ls == [] then [] else ls[0] + (if crlf then "\r\n" else "\n") + Unlines(ls[1..], crlf)
  }

  /** The first line of a text is everything before its first '\n', less one '\r'. */
  lemma LinesOfCons(body: string, rest: string)
    requires '\n' !in body
    ensures Lines(body + "\n" + rest) == [StripCarriageReturn(body)] + Lines(rest)
  {
    var text := body + "\n" + rest;
    assert text[|body|] == '\n';
    assert forall j :: 0 <= j < |body| ==> text[j] == body[j];
    assert FirstIndex(text, '\n') == Some(|body|);
    assert text[..|body|] == body;
    assert text[|body| + 1..] == rest;
  }

  /** `Lines` undoes `Unlines` for lines that hold no terminator of their own. */
  lemma {:induction false} LinesOfUnlines(ls: seq<string>, crlf: bool)
    requires forall l :: l in ls ==> '\n' !in l
    requires !crlf ==> forall l :: l in ls ==> !EndsWithCR(l)
    ensures Lines(Unlines(ls, crlf)) == ls
  {
    if ls != [] {
      var line := ls[0];
      assert line in ls;
      var body := if crlf then line + "\r" else line;
      var rest := Unlines(ls[1..], crlf);
      assert Unlines(ls, crlf) == body + "\n" + rest;
      assert '\n' !in body by {
        if crlf {
          assert forall j :: 0 <= j < |body| ==> j < |line| || body[j] == '\r';
        }
      }
      LinesOfCons(body, rest);
      if crlf {
        var t := StripCarriageReturn(body);
        assert |t| == |line| && forall j :: 0 <= j < |t| ==> t[j] == body[j] == line[j];
      }
      LinesOfUnlines(ls[1..], crlf);
    }
  }

  /** Dropping the terminator of the last line, "\n" or "\r\n", yields the same lines. */
  lemma {:induction false} FinalTerminatorOptional(text: string)
    requires text != [] && text[|text| - 1] != '\n' && !EndsWithCR(text)
    ensures Lines(text + "\n") == Lines(text)
    ensures Lines(text + "\r\n") == Lines(text)
    decreases |text|
  {
    match FirstIndex(text, '\n')
    case None =>
      TerminatedLine(text);
    case Some(p) =>
      var body, tail := text[..p], text[p + 1..];
      assert text == body + "\n" + tail;
      FirstLineSplit(body, tail);
      assert tail != [] && tail[|tail| - 1] == text[|text| - 1];
      FinalTerminatorOptional(tail);
  }

  /** A line with no '\n' reads as that one line, with or without a terminator. */
  lemma TerminatedLine(text: string)
    requires text != [] && '\n' !in text && !EndsWithCR(text)
    ensures Lines(text) == Lines(text + "\n") == Lines(text + "\r\n") == [text]
  {
    LinesOfCons(text, "");
    assert text + "\n" + "" == text + "\n";
    CrlfTerminatedLine(text);
  }

  lemma CrlfTerminatedLine(text: string)
    requires '\n' !in text
    ensures Lines(text + "\r\n") == [text]
  {
    var body := text + "\r";
    assert '\n' !in body;
    LinesOfCons(body, "");
    assert body + "\n" + "" == text + "\r\n";
    assert body[..|body| - 1] == text;
  }

  /** Appending to a text after its first line leaves that first line alone. */
  lemma FirstLineSplit(body: string, tail: string)
    requires '\n' !in body
    ensures Lines(body + "\n" + tail) == [StripCarriageReturn(body)] + Lines(tail)
    ensures Lines(body + "\n" + tail + "\n") == [StripCarriageReturn(body)] + Lines(tail + "\n")
    ensures Lines(body + "\n" + tail + "\r\n") == [StripCarriageReturn(body)] + Lines(tail + "\r\n")
  {
    assert body + "\n" + tail + "\n" == body + "\n" + (tail + "\n");
    assert body + "\n" + tail + "\r\n" == body + "\n" + (tail + "\r\n");
    LinesOfCons(body, tail);
    LinesOfCons(body, tail + "\n");
    LinesOfCons(body, tail + "\r\n");
  }

  predicate IsDigit(c: char) {
    '0' <= c <= '9'
  }

  predicate AllDigits(s: string) {
    forall i :: 0 <= i < |s| ==> IsDigit(s[i])
  }

  function DigitChar(d: nat): (c: char)
    requires d < 10
    ensures IsDigit(c) && c as int - '0' as int == d
  {
    (d + '0' as int) as char
  }

  /** A numeral as `{}` writes one: at least one digit, and no leading zero unless it is "0". */
  predicate Canonical(s: string) {
    s != [] && AllDigits(s) && (s[0] == '0' ==> |s| == 1)
  }

  /** The `{}` rendering of an unsigned integer: its decimal digits, no sign, no padding. */
  function Decimal(n: nat): (s: string)
    ensures Canonical(s)
    ensures s[0] == '0' <==> n == 0
  {
    if n < 10 then [DigitChar(n)] else Decimal(n / 10) + [DigitChar(n % 10)]
  }

  function ParseDecimal(s: string): nat
    requires AllDigits(s)
  {
    if s == [] then 0 else 10 * ParseDecimal(s[..|s| - 1]) + (s[|s| - 1] as int - '0' as int)
  }

  lemma {:induction false} DecimalRoundTrip(n: nat)
    ensures ParseDecimal(Decimal(n)) == n
  {
    if n >= 10 {
      var s := Decimal(n);
      assert s[..|s| - 1] == Decimal(n / 10);
      DecimalRoundTrip(n / 10);
    }
  }

  /** A numeral whose first digit is not 0 denotes a positive number. */
  lemma {:induction false} ParsePositive(s: string)
    requires s != [] && AllDigits(s) && s[0] != '0'
    ensures ParseDecimal(s) > 0
  {
    if |s| > 1 {
      ParsePositive(s[..|s| - 1]);
    }
  }

  /** Every canonical numeral is the rendering of the number it denotes. */
  lemma {:induction false} DecimalOfParse(s: string)
    requires Canonical(s)
    ensures Decimal(ParseDecimal(s)) == s
  {
    if |s| > 1 {
      var front := s[..|s| - 1];
      ParsePositive(front);
      DecimalOfParse(front);
      var n := ParseDecimal(s);
      assert n / 10 == ParseDecimal(front) && n % 10 == s[|s| - 1] as int - '0' as int;
      assert s == front + [s[|s| - 1]];
    }
  }

  /** Length of the longest all-digit suffix of `s`. */
  function TrailingDigits(s: string): (d: nat)
    ensures d <= |s|
    ensures forall i :: |s| - d <= i < |s| ==> IsDigit(s[i])
    ensures d < |s| ==> !IsDigit(s[|s| - d - 1])
  {
    if s == [] || !IsDigit(s[|s| - 1]) then 0 else TrailingDigits(s[..|s| - 1]) + 1
  }

  lemma TrailingDigitsOfConcat(a: string, ds: string)
    requires a != [] && !IsDigit(a[|a| - 1]) && AllDigits(ds)
    ensures TrailingDigits(a + ds) == |ds|
  {
    var s := a + ds;
    var d := TrailingDigits(s);
    assert s[|a| - 1] == a[|a| - 1];
  }
}
