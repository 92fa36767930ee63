/** The Python string operations the code generators and the mesh parsers
    rely on: `str.join`, `str.find` with slicing, `str.strip`, `str.split`,
    `%d` formatting and `int()` parsing. */
module Strings {
  import opened Wrappers

  /** `sep.join(parts)`. */
  function Join(sep: string, parts: seq<string>): string
    decreases |parts|
  {
    if |parts| == 0 then ""
    else if |parts| == 1 then parts[0]
    else parts[0] + sep + Join(sep, parts[1..])
  }

  /** `[s] * n`. */
  function Repeat(n: nat, s: string): (r: seq<string>)
    ensures |r| == n
    ensures forall i :: 0 <= i < n ==> r[i] == s
  {
    if n == 0 then [] else Repeat(n - 1, s) + [s]
  }

  /** Joining one more part appends the separator and the part. */
  lemma {:induction false} JoinSnoc(sep: string, parts: seq<string>, last: string)
    requires |parts| > 0
    ensures Join(sep, parts + [last]) == Join(sep, parts) + sep + last
    decreases |parts|
  {
    if |parts| == 1 {
      assert parts + [last] == [parts[0], last];
      assert [parts[0], last][1..] == [last];
    } else {
      assert (parts + [last])[1..] == parts[1..] + [last];
      JoinSnoc(sep, parts[1..], last);
    }
  }

  /** A character occurring in no part and not in the separator does not
      occur in the joined string. */
  lemma {:induction false} JoinAvoids(sep: string, parts: seq<string>, c: char)
    requires c !in sep
    requires forall i :: 0 <= i < |parts| ==> c !in parts[i]
    ensures c !in Join(sep, parts)
    decreases |parts|
  {
    if |parts| > 1 {
      JoinAvoids(sep, parts[1..], c);
    }
  }

  predicate IsDigit(c: char) {
    '0' <= c <= '9'
  }

  function DigitChar(d: nat): (c: char)
    requires d < 10
    ensures IsDigit(c)
  {
    ['0', '1', '2', '3', '4', '5', '6', '7', '8', '9'][d]
  }

  function DigitValue(c: char): (d: int)
    ensures IsDigit(c) ==> 0 <= d < 10
  {
    (c as int) - ('0' as int)
  }

  /** Every character is a decimal digit. */
  predicate AllDigits(s: string)
    decreases |s|
  {
    |s| == 0 || (AllDigits(s[..|s| - 1]) && IsDigit(s[|s| - 1]))
  }

  lemma {:induction false} AllDigitsIff(s: string)
    ensures AllDigits(s) <==> forall i :: 0 <= i < |s| ==> IsDigit(s[i])
    decreases |s|
  {
    if |s| > 0 {
      var init := s[..|s| - 1];
      AllDigitsIff(init);
      assert forall i :: 0 <= i < |init| ==> init[i] == s[i];
    }
  }

  /** Decimal text of a natural number, as `%d` / `str()` print it. */
  function NatToString(n: nat): (s: string)
    ensures |s| > 0
    ensures forall i :: 0 <= i < |s| ==> IsDigit(s[i])
  {
    if n < 10 then [DigitChar(n)] else NatToString(n / 10) + [DigitChar(n % 10)]
  }

  /** `%d` / `str()` of any integer. */
  function IntToString(n: int): (s: string)
    ensures |s| > 0
    ensures '{' !in s
  {
    if n < 0 then "-" + NatToString(-n) else NatToString(n)
  }

  /** Value of a non-empty string of decimal digits. */
  function DigitsValue(s: string): int
  {
    if |s| == 0 then 0 else 10 * DigitsValue(s[..|s| - 1]) + DigitValue(s[|s| - 1])
  }

  /** Reading the printed digits back gives the number again, so the printed
      form of distinct numbers differs. */
  lemma {:induction false} NatToStringRoundTrip(n: nat)
    ensures DigitsValue(NatToString(n)) == n
  {
    var s := NatToString(n);
    if n >= 10 {
      NatToStringRoundTrip(n / 10);
      assert s[..|s| - 1] == NatToString(n / 10);
    }
  }

  lemma NatToStringInjective(a: nat, b: nat)
    requires NatToString(a) == NatToString(b)
    ensures a == b
  {
    NatToStringRoundTrip(a);
    NatToStringRoundTrip(b);
  }

  /** `s.find(c)`: the first index of `c`, or -1. */
  function Find(s: string, c: char): (k: int)
    ensures -1 <= k < |s|
    ensures k == -1 <==> c !in s
    ensures k >= 0 ==> s[k] == c && c !in s[..k]
  {
    if |s| == 0 then -1
    else if s[0] == c then 0
    else
      var k := Find(s[1..], c);
      assert s[1..][..if k >= 0 then k else 0] == s[1..if k >= 0 then k + 1 else 1];
      if k == -1 then -1 else k + 1
  }

  /** Python's `s[:k]`, including the negative-index case. */
  function PyPrefix(s: string, k: int): string {
    if k >= 0 then s[..if k <= |s| then k else |s|]
    else s[..if |s| + k >= 0 then |s| + k else 0]
  }

  /** The whitespace characters `str.strip` and `str.split` remove. */
  predicate IsSpace(c: char) {
    c == ' ' || c == '\t' || c == '\n' || c == '\r' || c as int == 11 || c as int == 12
  }

  function TrimLeft(s: string): (r: string)
    ensures |r| <= |s| && r == s[|s| - |r|..]
    ensures |r| > 0 ==> !IsSpace(r[0])
    ensures forall i :: 0 <= i < |s| - |r| ==> IsSpace(s[i])
  {
    if |s| > 0 && IsSpace(s[0]) then
      var r := TrimLeft(s[1..]);
      assert s[1..][|s| - 1 - |r|..] == s[|s| - |r|..];
      assert forall i :: 1 <= i < |s| ==> s[i] == s[1..][i - 1];
      r
    else s
  }

  function TrimRight(s: string): (r: string)
    ensures |r| <= |s| && r == s[..|r|]
    ensures |r| > 0 ==> !IsSpace(r[|r| - 1])
    ensures forall i :: |r| <= i < |s| ==> IsSpace(s[i])
  {
    if |s| > 0 && IsSpace(s[|s| - 1]) then TrimRight(s[..|s| - 1]) else s
  }

  /** `s.strip()`. */
  function Strip(s: string): string {
    TrimRight(TrimLeft(s))
  }

  /** A string with non-space first and last characters is its own strip. */
  lemma StripUnpadded(s: string)
    requires |s| > 0 && !IsSpace(s[0]) && !IsSpace(s[|s| - 1])
    ensures Strip(s) == s
  {
    assert TrimLeft(s) == s;
  }

  /** `s.split(c)` for a one-character separator `c`. */
  function SplitOn(s: string, c: char): (r: seq<string>)
    ensures |r| >= 1
    decreases |s|
  {
    var k := Find(s, c);
    if k == -1 then [s] else [s[..k]] + SplitOn(s[k + 1..], c)
  }

  /** Splitting on a separator that occurs in no part undoes the join. */
  lemma {:induction false} SplitOnJoin(parts: seq<string>, c: char)
    requires |parts| >= 1
    requires forall i :: 0 <= i < |parts| ==> c !in parts[i]
    ensures SplitOn(Join([c], parts), c) == parts
    decreases |parts|
  {
    if |parts| == 1 {
      assert Find(parts[0], c) == -1;
    } else {
      var rest := Join([c], parts[1..]);
      assert Join([c], parts) == parts[0] + [c] + rest;
      SplitOnAfter(parts[0], c, rest);
      SplitOnJoin(parts[1..], c);
      assert parts == [parts[0]] + parts[1..];
    }
  }

  /** A part without the separator comes off the front of a split. */
  lemma SplitOnAfter(p: string, c: char, rest: string)
    requires c !in p
    ensures SplitOn(p + [c] + rest, c) == [p] + SplitOn(rest, c)
  {
    var s := p + [c] + rest;
    FindAfterPrefix(p, c, rest);
    assert s[..|p|] == p;
    assert s[|p| + 1..] == rest;
  }

  lemma FindAfterPrefix(p: string, c: char, rest: string)
    requires c !in p
    ensures Find(p + [c] + rest, c) == |p|
  {
    var s := p + [c] + rest;
    assert s[|p|] == c;
    assert s[..|p|] == p;
  }

  /** `s.split()`: the maximal runs of non-whitespace characters, read
      from left to right; `word` is the run read so far. */
  function SplitRuns(s: string, word: string): seq<string>
    decreases |s|
  {
    if |s| == 0 then Flush(word)
    else if IsSpace(s[0]) then Flush(word) + SplitRuns(s[1..], "")
    else SplitRuns(s[1..], word + [s[0]])
  }

  /** The run read so far, when there is one. */
  function Flush(word: string): seq<string> {
    if |word| == 0 then [] else [word]
  }

  function Split(s: string): seq<string> {
    SplitRuns(s, "")
  }

  /** Reading whitespace-free text extends the run in progress. */
  lemma {:induction false} RunsThroughWord(w: string, rest: string, word: string)
    requires forall i :: 0 <= i < |w| ==> !IsSpace(w[i])
    ensures SplitRuns(w + rest, word) == SplitRuns(rest, word + w)
    decreases |w|
  {
    if |w| == 0 {
      assert w + rest == rest;
      assert word + w == word;
    } else {
      var s := w + rest;
      assert s[0] == w[0];
      assert s[1..] == w[1..] + rest;
      RunsThroughWord(w[1..], rest, word + [w[0]]);
      assert word + [w[0]] + w[1..] == word + w;
    }
  }

  /** Text without whitespace splits into itself alone. */
  lemma SplitWord(w: string)
    requires |w| > 0
    requires forall i :: 0 <= i < |w| ==> !IsSpace(w[i])
    ensures Split(w) == [w]
  {
    RunsThroughWord(w, "", "");
    assert w + "" == w;
    assert "" + w == w;
  }

  /** A whitespace-free word and a space split off the word, whatever
      follows. */
  lemma SplitAfterWord(w: string, rest: string)
    requires |w| > 0
    requires forall i :: 0 <= i < |w| ==> !IsSpace(w[i])
    ensures Split(w + " " + rest) == [w] + Split(rest)
  {
    assert w + " " + rest == w + (" " + rest);
    RunsThroughWord(w, " " + rest, "");
    assert "" + w == w;
    assert (" " + rest)[1..] == rest;
  }

  /** `int(tok)` on a whitespace-free token: an optional sign and decimal
      digits. */
  function ParseInt(tok: string): Option<int> {
    if |tok| > 0 && (tok[0] == '-' || tok[0] == '+') then
      var body := tok[1..];
      if |body| > 0 && AllDigits(body) then
        Some(if tok[0] == '-' then -DigitsValue(body) else DigitsValue(body))
      else None
    else if |tok| > 0 && AllDigits(tok) then
      Some(DigitsValue(tok))
    else None
  }

  lemma ParseIntOfNat(n: nat)
    ensures ParseInt(NatToString(n)) == Some(n)
  {
    NatToStringRoundTrip(n);
    ParseDigits(NatToString(n));
  }

  /** `int(str(n))` is `n`. */
  lemma ParseIntOfInt(n: int)
    ensures ParseInt(IntToString(n)) == Some(n)
  {
    if n < 0 {
      var m: nat := -n;
      assert IntToString(n) == "-" + NatToString(m);
      ParseIntOfNegative(m);
    } else {
      ParseIntOfNat(n);
    }
  }

  /** The text of a negative number reads back as the number. */
  lemma ParseIntOfNegative(m: nat)
    ensures ParseInt("-" + NatToString(m)) == Some(-(m as int))
  {
    NatToStringRoundTrip(m);
    ParseNegative(NatToString(m));
  }

  /** Digits alone read as their value. */
  lemma ParseDigits(digits: string)
    requires |digits| > 0 && forall i :: 0 <= i < |digits| ==> IsDigit(digits[i])
    ensures ParseInt(digits) == Some(DigitsValue(digits))
  {
    AllDigitsIff(digits);
    assert IsDigit(digits[0]);
  }

  /** A minus sign before digits negates their value. */
  lemma ParseNegative(digits: string)
    requires |digits| > 0 && forall i :: 0 <= i < |digits| ==> IsDigit(digits[i])
    ensures ParseInt("-" + digits) == Some(-DigitsValue(digits))
  {
    AllDigitsIff(digits);
    assert ("-" + digits)[1..] == digits;
  }

  /** Parses each token with `ParseInt`; `None` when any token is not an
      integer (Python raises `ValueError`). */
  function ParseInts(toks: seq<string>): (r: Option<seq<int>>)
    ensures r.Some? ==> |r.value| == |toks|
  {
    if |toks| == 0 then Some([])
    else match (ParseInt(toks[0]), ParseInts(toks[1..]))
      case (Some(v), Some(vs)) => Some([v] + vs)
      case _ => None
  }

  /** Value of the digits after a decimal point: `0.d1d2...`. */
  function FractionValue(s: string): real
  {
    if |s| == 0 then 0.0 else (DigitValue(s[0]) as real + FractionValue(s[1..])) / 10.0
  }

  /** The position of the first exponent marker, `e` or `E`, or -1. */
  function FindExponent(s: string): (k: int)
    ensures -1 <= k < |s|
    ensures k == -1 <==> 'e' !in s && 'E' !in s
    ensures k >= 0 ==> (s[k] == 'e' || s[k] == 'E') && 'e' !in s[..k] && 'E' !in s[..k]
  {
    if |s| == 0 then -1
    else if s[0] == 'e' || s[0] == 'E' then 0
    else
      var k := FindExponent(s[1..]);
      assert s[1..][..if k >= 0 then k else 0] == s[1..if k >= 0 then k + 1 else 1];
      if k == -1 then -1 else k + 1
  }

  /** `10 ** n` for a natural `n`. */
  function TenTo(n: nat): (r: real)
    ensures r >= 1.0
  {
    if n == 0 then 1.0 else 10.0 * TenTo(n - 1)
  }

  /** The scale an exponent `e` stands for: `10 ** e`, also for negative
      `e`. */
  function ExponentScale(e: int): (r: real)
    ensures r > 0.0
  {
    if e >= 0 then TenTo(e) else 1.0 / TenTo(-e)
  }

  /** The digits around an optional decimal point, with at least one
      digit. */
  function ParseMantissa(m: string): Option<real> {
    var dot := Find(m, '.');
    var whole := if dot >= 0 then m[..dot] else m;
    var frac := if dot >= 0 then m[dot + 1..] else "";
    if |whole| + |frac| > 0 && AllDigits(whole) && AllDigits(frac) then
      Some(DigitsValue(whole) as real + FractionValue(frac))
    else None
  }

  /** A mantissa, then optionally `e` or `E` and a signed integer
      exponent. */
  function ParseUnsigned(body: string): Option<real> {
    var ex := FindExponent(body);
    if ex < 0 then ParseMantissa(body)
    else Scaled(ParseMantissa(body[..ex]), ParseInt(body[ex + 1..]))
  }

  /** A mantissa times ten to an exponent, when both were read. */
  function Scaled(mantissa: Option<real>, exponent: Option<int>): Option<real> {
    if mantissa.Some? && exponent.Some? then Some(ScaleBy(mantissa.value, exponent.value)) else None
  }

  /** `x * 10 ** e`. */
  function ScaleBy(x: real, e: int): real {
    x * ExponentScale(e)
  }

  /** `float(tok)` on decimal notation: an optional sign, digits, an
      optional point and more digits, with at least one digit, then
      optionally `e` or `E` and a signed integer exponent. The words `inf`
      and `nan` are not read. */
  function ParseReal(tok: string): Option<real> {
    var neg := |tok| > 0 && tok[0] == '-';
    var body := if |tok| > 0 && (tok[0] == '-' || tok[0] == '+') then tok[1..] else tok;
    match ParseUnsigned(body)
    case None => None
    case Some(v) => Some(if neg then -v else v)
  }

  /** A mantissa without a marker, the marker and the rest: the number is
      the mantissa scaled by the rest read as an integer exponent. */
  lemma UnsignedWithExponent(m: string, marker: char, x: string)
    requires marker == 'e' || marker == 'E'
    requires 'e' !in m && 'E' !in m
    ensures ParseUnsigned(m + [marker] + x) == Scaled(ParseMantissa(m), ParseInt(x))
  {
    var s := m + [marker] + x;
    var k := FindExponent(s);
    assert s[|m|] == marker && s[|m|] in s;
    forall j | 0 <= j < |m|
      ensures s[j] != 'e' && s[j] != 'E'
    {
      assert s[j] == m[j] && m[j] in m;
    }
    forall j | 0 <= j < k
      ensures s[j] != 'e' && s[j] != 'E'
    {
      assert s[j] == s[..k][j] && s[..k][j] in s[..k];
    }
    assert k == |m|;
    assert s[..k] == m && s[k + 1..] == x;
  }

  /** The digits of a natural number hold neither a point nor an exponent
      marker, and read as a mantissa of the number's value. */
  lemma MantissaOfNat(n: nat)
    ensures var digits := NatToString(n);
      && '.' !in digits && 'e' !in digits && 'E' !in digits
      && ParseMantissa(digits) == Some(n as real)
  {
    var digits := NatToString(n);
    forall i | 0 <= i < |digits|
      ensures digits[i] != '.' && digits[i] != 'e' && digits[i] != 'E'
    {
      assert IsDigit(digits[i]);
    }
    NatToStringRoundTrip(n);
    AllDigitsIff(digits);
    AllDigitsIff("");
  }

  /** `float('%de%d' % (n, e))`, and the same with `E`: a natural
      mantissa and an integer exponent read back as `n * 10 ** e`. */
  lemma ExponentFormRoundTrip(n: nat, marker: char, e: int)
    requires marker == 'e' || marker == 'E'
    ensures ParseReal(NatToString(n) + [marker] + IntToString(e)) == Some(ScaleBy(n as real, e))
  {
    var digits := NatToString(n);
    var tok := digits + [marker] + IntToString(e);
    MantissaOfNat(n);
    UnsignedWithExponent(digits, marker, IntToString(e));
    ParseIntOfInt(e);
    assert tok[0] == digits[0] && IsDigit(digits[0]);
    UnsignedToken(tok);
    assert ParseUnsigned(tok) == Scaled(Some(n as real), Some(e));
  }

  /** A token that does not start with a sign reads as its unsigned
      value. */
  lemma UnsignedToken(tok: string)
    requires |tok| > 0 && tok[0] != '-' && tok[0] != '+'
    ensures ParseReal(tok) == ParseUnsigned(tok)
  {
  }

  /** A marker without exponent digits after it makes the token unreadable,
      whatever mantissa precedes it. */
  lemma MissingExponent(m: string, marker: char, sign: string)
    requires marker == 'e' || marker == 'E'
    requires 'e' !in m && 'E' !in m
    requires sign == "" || sign == "+" || sign == "-"
    ensures ParseUnsigned(m + [marker] + sign) == None
  {
    UnsignedWithExponent(m, marker, sign);
    assert sign == "+" || sign == "-" ==> sign[1..] == "";
  }

  function ParseReals(toks: seq<string>): (r: Option<seq<real>>)
    ensures r.Some? ==> |r.value| == |toks|
  {
    if |toks| == 0 then Some([])
    else match (ParseReal(toks[0]), ParseReals(toks[1..]))
      case (Some(v), Some(vs)) => Some([v] + vs)
      case _ => None
  }

  /** `c.upper()` for one character (ASCII letters only). */
  function UpperChar(c: char): char {
    if 'a' <= c <= 'z' then ((c as int) - 32) as char else c
  }

  /** `c.lower()` for one character (ASCII letters only). */
  function LowerChar(c: char): char {
    if 'A' <= c <= 'Z' then ((c as int) + 32) as char else c
  }

  function Upper(s: string): (r: string)
    ensures |r| == |s|
    ensures forall i :: 0 <= i < |s| ==> r[i] == UpperChar(s[i])
  {
    seq(|s|, i requires 0 <= i < |s| => UpperChar(s[i]))
  }

  function Lower(s: string): (r: string)
    ensures |r| == |s|
    ensures forall i :: 0 <= i < |s| ==> r[i] == LowerChar(s[i])
  {
    seq(|s|, i requires 0 <= i < |s| => LowerChar(s[i]))
  }

  predicate StartsWith(s: string, prefix: string) {
    |prefix| <= |s| && s[..|prefix|] == prefix
  }
}
