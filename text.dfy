/**
 * The text primitives the request handling of ledsrv.cpp relies on:
 * boost::split with boost::is_space, boost::iequals, std::stoi and
 * std::to_string, all in the "C" locale.
 */
module Text {

  // ---------------------------------------------------------------------------
  // Splitting on whitespace

  /** std::isspace in the "C" locale, which boost::is_space applies: space, \t, \n, \v, \f and \r. */
  predicate IsSpace(c: char) {
    c == ' ' || c == '\t' || c == '\n' || c == '\U{000B}' || c == '\U{000C}' || c == '\r'
  }

  predicate NoSpace(s: string) {
    forall i :: 0 <= i < |s| ==> !IsSpace(s[i])
  }

  /**
   * boost::split(tokens, s, boost::is_space()) without token compression:
   * every single whitespace character ends a token, so two adjacent
   * separators, or a separator at either end, give an empty token, and the
   * empty string gives one empty token.
   */
  function Split(s: string): (tokens: seq<string>)
    ensures |tokens| >= 1
    ensures forall i :: 0 <= i < |tokens| ==> NoSpace(tokens[i])
    decreases |s|
  {
    if s == [] then [""]
    else if IsSpace(s[0]) then [""] + Split(s[1..])
    else
      var rest := Split(s[1..]);
      [[s[0]] + rest[0]] + rest[1..]
  }

  /** The whitespace characters of s, in order: the separators Split cuts at. */
  function Separators(s: string): (seps: string)
    ensures forall i :: 0 <= i < |seps| ==> IsSpace(seps[i])
    decreases |s|
  {
    if s == [] then []
    else (if IsSpace(s[0]) then [s[0]] else []) + Separators(s[1..])
  }

  /** tokens[0] + seps[0] + tokens[1] + ... + seps[n-1] + tokens[n]. */
  function Interleave(tokens: seq<string>, seps: string): string
    requires |tokens| == |seps| + 1
    decreases |seps|
  {
    if seps == [] then tokens[0]
    else tokens[0] + [seps[0]] + Interleave(tokens[1..], seps[1..])
  }

  /** Split loses nothing: one more token than separators, and putting the separators back gives the input. */
  lemma {:induction false} SplitRoundTrip(s: string)
    ensures |Split(s)| == |Separators(s)| + 1
    ensures Interleave(Split(s), Separators(s)) == s
    decreases |s|
  {
    if s == [] {
    } else if IsSpace(s[0]) {
      SplitRoundTrip(s[1..]);
      assert Split(s)[1..] == Split(s[1..]);
      assert Separators(s) == [s[0]] + Separators(s[1..]);
      assert s == [s[0]] + s[1..];
    } else {
      SplitRoundTrip(s[1..]);
      var rest := Split(s[1..]);
      assert Separators(s) == Separators(s[1..]);
      assert Split(s) == [[s[0]] + rest[0]] + rest[1..];
      InterleavePrepend(s[0], rest, Separators(s[1..]));
      assert s == [s[0]] + s[1..];
    }
  }

  /** A character glued to the front of the first token comes out in front of the interleaving. */
  lemma InterleavePrepend(c: char, tokens: seq<string>, seps: string)
    requires |tokens| == |seps| + 1
    ensures Interleave([[c] + tokens[0]] + tokens[1..], seps) == [c] + Interleave(tokens, seps)
  {
    var glued := [[c] + tokens[0]] + tokens[1..];
    assert glued[0] == [c] + tokens[0];
    if seps != [] {
      assert glued[1..] == tokens[1..];
      assert [c] + tokens[0] + [seps[0]] + Interleave(tokens[1..], seps[1..])
        == [c] + (tokens[0] + [seps[0]] + Interleave(tokens[1..], seps[1..]));
    }
  }

  /** A whitespace-free word in front of some text becomes part of the text's first token. */
  lemma {:induction false} SplitAfterWord(w: string, rest: string)
    requires NoSpace(w)
    ensures Split(w + rest) == [w + Split(rest)[0]] + Split(rest)[1..]
    decreases |w|
  {
    var r := Split(rest);
    if w == [] {
      assert w + rest == rest;
      assert w + r[0] == r[0];
      assert r == [r[0]] + r[1..];
    } else {
      SplitAfterWord(w[1..], rest);
      assert (w + rest)[0] == w[0] && !IsSpace(w[0]);
      assert (w + rest)[1..] == w[1..] + rest;
      var inner := Split(w[1..] + rest);
      assert inner[0] == w[1..] + r[0] && inner[1..] == r[1..];
      assert Split(w + rest) == [[w[0]] + inner[0]] + inner[1..];
      assert [w[0]] + (w[1..] + r[0]) == w + r[0];
    }
  }

  /** Conversely, whitespace-free tokens joined by whitespace characters split back into themselves. */
  lemma {:induction false} SplitInterleave(tokens: seq<string>, seps: string)
    requires |tokens| == |seps| + 1
    requires forall i :: 0 <= i < |tokens| ==> NoSpace(tokens[i])
    requires forall i :: 0 <= i < |seps| ==> IsSpace(seps[i])
    ensures Split(Interleave(tokens, seps)) == tokens
    decreases |seps|
  {
    if seps == [] {
      SplitAfterWord(tokens[0], "");
      assert tokens[0] + "" == tokens[0];
    } else {
      var tail := Interleave(tokens[1..], seps[1..]);
      SplitInterleave(tokens[1..], seps[1..]);
      assert ([seps[0]] + tail)[1..] == tail;
      assert Split([seps[0]] + tail) == [""] + Split(tail);
      SplitAfterWord(tokens[0], [seps[0]] + tail);
      assert Interleave(tokens, seps) == tokens[0] + ([seps[0]] + tail);
      assert tokens[0] + "" == tokens[0];
      assert Split(Interleave(tokens, seps)) == [tokens[0]] + tokens[1..];
      assert tokens == [tokens[0]] + tokens[1..];
    }
  }

  /** A whitespace character at the end adds one empty token. */
  lemma {:induction false} SplitTrailingSeparator(s: string, c: char)
    requires IsSpace(c)
    ensures Split(s + [c]) == Split(s) + [""]
    decreases |s|
  {
    if s == [] {
      assert s + [c] == [c];
    } else {
      SplitTrailingSeparator(s[1..], c);
      assert (s + [c])[1..] == s[1..] + [c];
      assert (s + [c])[0] == s[0];
      if !IsSpace(s[0]) {
        var q := Split(s[1..]);
        assert (q + [""])[0] == q[0] && (q + [""])[1..] == q[1..] + [""];
      }
    }
  }

  /** A request written as one word splits into that word alone. */
  lemma SplitOneWord(a: string)
    requires NoSpace(a)
    ensures Split(a) == [a]
  {
    SplitInterleave([a], "");
  }

  // ---------------------------------------------------------------------------
  // Case-insensitive comparison

  /** std::toupper in the "C" locale: only the letters a..z change. */
  function Upper(c: char): char {
    if 'a' <= c <= 'z' then (c as int - 32) as char else c
  }

  /** boost::iequals: the same length and the same characters after Upper. */
  predicate IEquals(a: string, b: string) {
    |a| == |b| && forall i :: 0 <= i < |a| ==> Upper(a[i]) == Upper(b[i])
  }

  /** Equality up to case is symmetric. */
  lemma IEqualsSymmetric(a: string, b: string)
    requires IEquals(a, b)
    ensures IEquals(b, a)
  {
  }

  /** Strings equal up to case are equal up to case to the same strings. */
  lemma IEqualsAgree(a: string, b: string, w: string)
    requires IEquals(a, b)
    ensures IEquals(a, w) <==> IEquals(b, w)
  {
  }

  // ---------------------------------------------------------------------------
  // Decimal numbers

  predicate IsDigit(c: char) {
    '0' <= c <= '9'
  }

  predicate AllDigits(s: string) {
    forall i :: 0 <= i < |s| ==> IsDigit(s[i])
  }

  function DigitChar(d: nat): char
    requires d < 10
  {
    ('0' as int + d) as char
  }

  function DigitValue(c: char): nat
    requires IsDigit(c)
  {
    c as int - '0' as int
  }

  /** std::to_string of an unsigned value: its decimal digits, without sign or leading zero. */
  function NatToString(n: nat): (s: string)
    ensures |s| >= 1 && AllDigits(s)
    ensures s[0] == '0' ==> n == 0
    decreases n
  {
    if n < 10 then [DigitChar(n)] else NatToString(n / 10) + [DigitChar(n % 10)]
  }

  /** The value of a string of decimal digits, most significant first. */
  function DigitsValue(d: string): nat
    requires AllDigits(d)
    decreases |d|
  {
    if d == [] then 0 else DigitsValue(d[..|d| - 1]) * 10 + DigitValue(d[|d| - 1])
  }

  lemma {:induction false} DigitsValueOfNatToString(n: nat)
    ensures DigitsValue(NatToString(n)) == n
    decreases n
  {
    if n >= 10 {
      DigitsValueOfNatToString(n / 10);
      var s := NatToString(n);
      assert s[..|s| - 1] == NatToString(n / 10);
    }
  }

  /** The longest prefix of s made of decimal digits. */
  function LeadingDigits(s: string): (d: string)
    ensures |d| <= |s| && d == s[..|d|] && AllDigits(d)
    ensures |d| < |s| ==> !IsDigit(s[|d|])
    decreases |s|
  {
    if s != [] && IsDigit(s[0]) then [s[0]] + LeadingDigits(s[1..]) else []
  }

  /** s without its leading whitespace, as strtol skips it. */
  function SkipSpaces(s: string): (t: string)
    ensures |t| <= |s| && t == s[|s| - |t|..]
    ensures t != [] ==> !IsSpace(t[0])
    decreases |s|
  {
    if s != [] && IsSpace(s[0]) then SkipSpaces(s[1..]) else s
  }

  /** t without a leading '+' or '-'. */
  function Unsigned(t: string): string {
    if t != [] && (t[0] == '+' || t[0] == '-') then t[1..] else t
  }

  /** The range of a 32-bit int, the type std::stoi returns. */
  const IntMin: int := -0x8000_0000
  const IntMax: int := 0x7FFF_FFFF

  /** The two exceptions std::stoi throws. */
  datatype StoiError = InvalidArgument | OutOfRange

  datatype StoiResult = Parsed(value: int) | Threw(error: StoiError)

  /**
   * std::stoi(s) in base 10: leading whitespace is skipped, then an optional
   * sign, then the longest run of decimal digits; whatever follows is
   * ignored. No digit at all throws invalid_argument; a value outside the
   * range of int throws out_of_range.
   */
  function Stoi(s: string): (r: StoiResult)
    ensures r.Parsed? ==> IntMin <= r.value <= IntMax
    ensures r.Threw? && r.error == InvalidArgument <==> LeadingDigits(Unsigned(SkipSpaces(s))) == []
  {
    var t := SkipSpaces(s);
    var digits := LeadingDigits(Unsigned(t));
    if digits == [] then Threw(InvalidArgument)
    else
      var magnitude: int := DigitsValue(digits);
      var v := if t[0] == '-' then -magnitude else magnitude;
      if v < IntMin || v > IntMax then Threw(OutOfRange) else Parsed(v)
  }

  /** std::stoi reads back what std::to_string writes when an int can hold it, and throws out_of_range otherwise. */
  lemma StoiOfNatToString(n: nat)
    ensures Stoi(NatToString(n)) == if n <= IntMax then Parsed(n) else Threw(OutOfRange)
  {
    var s := NatToString(n);
    assert !IsSpace(s[0]) && s[0] != '+' && s[0] != '-';
    assert SkipSpaces(s) == s;
    assert Unsigned(s) == s;
    LeadingDigitsOfDigits(s);
    DigitsValueOfNatToString(n);
  }

  /** A minus sign in front of the digits negates the value, down to the smallest int. */
  lemma StoiOfNegated(n: nat)
    ensures Stoi("-" + NatToString(n)) == if n <= -IntMin then Parsed(-(n as int)) else Threw(OutOfRange)
  {
    var d := NatToString(n);
    var s := "-" + d;
    assert !IsSpace(s[0]);
    assert SkipSpaces(s) == s;
    assert Unsigned(s) == d;
    LeadingDigitsOfDigits(d);
    DigitsValueOfNatToString(n);
  }

  /**
   * std::stoi ignores whatever follows the first run of digits: a numeral
   * with an optional sign reads the same, value or exception, with any text
   * behind it that does not start with a digit.
   */
  lemma StoiStopsAtNonDigit(sign: string, d: string, rest: string)
    requires sign == "" || sign == "+" || sign == "-"
    requires d != [] && AllDigits(d)
    requires rest == [] || !IsDigit(rest[0])
    ensures Stoi(sign + d + rest) == Stoi(sign + d)
  {
    var p := sign + d;
    var s := sign + (d + rest);
    assert sign + d + rest == s;
    var first := if sign == "" then d[0] else sign[0];
    assert s[0] == first && p[0] == first && !IsSpace(first);
    assert p[|sign|..] == d && s[|sign|..] == d + rest;
    assert Unsigned(p) == d && Unsigned(s) == d + rest;
    LeadingDigitsPrefix(d, rest);
    LeadingDigitsOfDigits(d);
    StoiAgree(s, p);
  }

  /** std::stoi depends only on the first character and the run of digits after the sign, when no whitespace comes first. */
  lemma StoiAgree(s: string, p: string)
    requires s != [] && p != [] && s[0] == p[0] && !IsSpace(p[0])
    requires LeadingDigits(Unsigned(s)) == LeadingDigits(Unsigned(p))
    ensures Stoi(s) == Stoi(p)
  {
    assert SkipSpaces(s) == s && SkipSpaces(p) == p;
  }

  /** The run of digits ends where the first non-digit starts. */
  lemma {:induction false} LeadingDigitsPrefix(d: string, rest: string)
    requires AllDigits(d)
    requires rest == [] || !IsDigit(rest[0])
    ensures LeadingDigits(d + rest) == d
    decreases |d|
  {
    if d == [] {
      assert d + rest == rest;
    } else {
      LeadingDigitsPrefix(d[1..], rest);
      assert (d + rest)[1..] == d[1..] + rest;
      assert d == [d[0]] + d[1..];
    }
  }

  lemma LeadingDigitsOfDigits(s: string)
    requires AllDigits(s)
    ensures LeadingDigits(s) == s
  {
    LeadingDigitsPrefix(s, []);
    assert s + [] == s;
  }

  /** An argument that starts with neither whitespace, a sign nor a digit makes std::stoi throw invalid_argument, as does an empty one. */
  lemma StoiRejectsNonNumeric(s: string)
    requires s == [] || (!IsSpace(s[0]) && !IsDigit(s[0]) && s[0] != '+' && s[0] != '-')
    ensures Stoi(s) == Threw(InvalidArgument)
  {
    assert SkipSpaces(s) == s;
    assert Unsigned(s) == s;
  }
}
