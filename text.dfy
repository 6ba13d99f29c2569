/** The string operations the parameter readers use: Python's substring test
    `pat in s`, the first and second pieces of `s.split(pat)`, and the decimal
    literals that `int()` accepts on Python 2 and on Python 3. */
module Text {
  import opened Wrappers

  /** `pat` occurs in `s` starting at index i. */
  predicate OccursAt(s: string, pat: string, i: nat) {
    i + |pat| <= |s| && s[i..i + |pat|] == pat
  }

  /** Index of the first occurrence of `pat` in `s`. */
  function Find(s: string, pat: string): Option<nat>
    decreases |s|
  {
    if |s| < |pat| then None
    else if s[..|pat|] == pat then Some(0)
    else match Find(s[1..], pat)
      case None => None
      case Some(i) => Some(i + 1)
  }

  /** Python's `pat in s`. */
  predicate Contains(s: string, pat: string) {
    Find(s, pat).Some?
  }

  /** `s.split(pat)[0]`: the text before the first occurrence, or all of `s`. */
  function Before(s: string, pat: string): (r: string)
    ensures |r| <= |s|
  {
    match Find(s, pat)
    case None => s
    case Some(i) => FindBound(s, pat); s[..i]
  }

  /** The text after the first occurrence of `pat` (empty when there is none). */
  function After(s: string, pat: string): (r: string)
    ensures |r| <= |s|
  {
    match Find(s, pat)
    case None => []
    case Some(i) => FindBound(s, pat); s[i + |pat|..]
  }

  lemma {:induction false} FindBound(s: string, pat: string)
    ensures Find(s, pat).Some? ==> Find(s, pat).value + |pat| <= |s|
    decreases |s|
  {
    if |s| >= |pat| && s[..|pat|] != pat {
      FindBound(s[1..], pat);
    }
  }

  /** Find returns the first occurrence, and None exactly when there is none. */
  lemma {:induction false} FindIsFirst(s: string, pat: string)
    ensures Find(s, pat).Some? ==>
              OccursAt(s, pat, Find(s, pat).value) &&
              forall j :: 0 <= j < Find(s, pat).value ==> !OccursAt(s, pat, j)
    ensures Find(s, pat).None? ==> forall j :: 0 <= j <= |s| ==> !OccursAt(s, pat, j)
    decreases |s|
  {
    if |s| >= |pat| && s[..|pat|] != pat {
      FindIsFirst(s[1..], pat);
      forall j | 1 <= j <= |s|
        ensures OccursAt(s, pat, j) <==> OccursAt(s[1..], pat, j - 1)
      {
        if j + |pat| <= |s| {
          assert s[j..j + |pat|] == s[1..][j - 1..j - 1 + |pat|];
        }
      }
    }
  }

  /** Python's `s.split(pat)` pieces around the first occurrence reassemble `s`. */
  lemma SplitReassembles(s: string, pat: string)
    requires Contains(s, pat)
    ensures Before(s, pat) + pat + After(s, pat) == s
  {
    FindIsFirst(s, pat);
    var i := Find(s, pat).value;
    assert s == s[..i] + s[i..i + |pat|] + s[i + |pat|..];
  }

  /** The interpreter whose int() is meant: twgen.py runs on Python 2 and
      twiddle_generator.py on Python 3, and their int() differ in what they
      skip as whitespace. */
  datatype Interpreter = Python2 | Python3

  /** The whitespace int() skips. Python 2 uses the C library's isspace() in
      the C locale: blank, tab, line feed, vertical tab, form feed and carriage
      return. Python 3 skips the same six, and before that turns every
      non-ASCII character for which str.isspace() holds into a blank; ASCII
      characters stay as they are, so U+001C-U+001F are not skipped. */
  predicate IsSpace(py: Interpreter, c: char) {
    c == ' ' || '\t' <= c <= '\r' ||
    (py == Python3 &&
     (c == '\U{85}' || c == '\U{A0}' || c == '\U{1680}' ||
      '\U{2000}' <= c <= '\U{200A}' || c == '\U{2028}' || c == '\U{2029}' ||
      c == '\U{202F}' || c == '\U{205F}' || c == '\U{3000}'))
  }

  predicate IsDigit(c: char) {
    '0' <= c <= '9'
  }

  predicate AllSpace(py: Interpreter, s: string) {
    forall i :: 0 <= i < |s| ==> IsSpace(py, s[i])
  }

  predicate AllDigits(s: string) {
    forall i :: 0 <= i < |s| ==> IsDigit(s[i])
  }

  function TrimLeft(py: Interpreter, s: string): string {
    if s != [] && IsSpace(py, s[0]) then TrimLeft(py, s[1..]) else s
  }

  function TrimRight(py: Interpreter, s: string): string {
    if s != [] && IsSpace(py, s[|s| - 1]) then TrimRight(py, s[..|s| - 1]) else s
  }

  function Strip(py: Interpreter, s: string): string {
    TrimRight(py, TrimLeft(py, s))
  }

  function DigitValue(c: char): nat
    requires IsDigit(c)
  {
    (c as int - '0' as int)
  }

  function DecimalValue(d: string): nat
    requires AllDigits(d)
  {
    if d == [] then 0 else 10 * DecimalValue(d[..|d| - 1]) + DigitValue(d[|d| - 1])
  }

  /** int() on a base-10 literal: surrounding whitespace, an optional sign,
      then at least one decimal digit; anything else is a ValueError. Python 2
      also skips whitespace between the sign and the digits (its strtol skips
      it before the sign and its strtoul again after it); Python 3 does not. */
  function ParseInt(py: Interpreter, s: string): Option<int> {
    ParseSigned(py, Strip(py, s))
  }

  /** The literal once the surrounding whitespace is gone. */
  function ParseSigned(py: Interpreter, t: string): Option<int> {
    if t == [] then None
    else
      var negative := t[0] == '-';
      var unsigned := if t[0] == '-' || t[0] == '+' then t[1..] else t;
      var digits := if py == Python2 then TrimLeft(py, unsigned) else unsigned;
      if digits == [] || !AllDigits(digits) then None
      else if negative then Some(-(DecimalValue(digits) as int))
      else Some(DecimalValue(digits) as int)
  }

  function DigitChar(d: nat): char
    requires d < 10
  {
    ('0' as int + d) as char
  }

  /** The decimal text of a natural number, without leading zeros. */
  function ShowNat(n: nat): string {
    if n < 10 then [DigitChar(n)] else ShowNat(n / 10) + [DigitChar(n % 10)]
  }

  /** Python's str() of an integer. */
  function ShowInt(v: int): string {
    if v < 0 then "-" + ShowNat(-v) else ShowNat(v)
  }

  lemma {:induction false} ShowNatDigits(n: nat)
    ensures ShowNat(n) != [] && AllDigits(ShowNat(n))
    ensures DecimalValue(ShowNat(n)) == n
  {
    if n >= 10 {
      ShowNatDigits(n / 10);
      var d := ShowNat(n);
      assert d[..|d| - 1] == ShowNat(n / 10);
    }
  }

  lemma {:induction false} TrimLeftSpaces(py: Interpreter, pre: string, t: string)
    requires AllSpace(py, pre)
    requires t != [] && !IsSpace(py, t[0])
    ensures TrimLeft(py, pre + t) == t
  {
    if pre != [] {
      assert (pre + t)[1..] == pre[1..] + t;
      TrimLeftSpaces(py, pre[1..], t);
    }
  }

  lemma {:induction false} TrimRightSpaces(py: Interpreter, t: string, post: string)
    requires AllSpace(py, post)
    requires t != [] && !IsSpace(py, t[|t| - 1])
    ensures TrimRight(py, t + post) == t
  {
    if post != [] {
      assert (t + post)[..|t + post| - 1] == t + post[..|post| - 1];
      TrimRightSpaces(py, t, post[..|post| - 1]);
    } else {
      assert t + post == t;
    }
  }

  /** int() reads back the decimal text of any integer, whatever whitespace surrounds it. */
  lemma ParseShowInt(py: Interpreter, v: int, pre: string, post: string)
    requires AllSpace(py, pre) && AllSpace(py, post)
    ensures ParseInt(py, pre + ShowInt(v) + post) == Some(v)
  {
    var t := ShowInt(v);
    ShowNatDigits(if v < 0 then -v else v);
    NotSpace(py, t[0]);
    NotSpace(py, t[|t| - 1]);
    StripSpaced(py, pre, t, post);
    if v < 0 {
      assert t[1..] == ShowNat(-v);
      NotSpace(py, t[1]);
    } else {
      NotSpace(py, t[0]);
    }
  }

  /** Signs and digits are not whitespace. */
  lemma NotSpace(py: Interpreter, c: char)
    requires IsDigit(c) || c == '-' || c == '+'
    ensures !IsSpace(py, c)
  {
  }

  /** Whitespace between a sign and the digits: Python 2's int() skips it and
      reads the signed number, Python 3's rejects the literal. */
  lemma SpaceAfterSign(sign: char, gap: string, n: nat, pre: string, post: string)
    requires sign == '-' || sign == '+'
    requires AllSpace(Python2, pre) && AllSpace(Python2, gap) && AllSpace(Python2, post)
    ensures ParseInt(Python2, pre + [sign] + gap + ShowNat(n) + post)
         == Some(if sign == '-' then -(n as int) else n)
    ensures gap != [] ==> ParseInt(Python3, pre + [sign] + gap + ShowNat(n) + post).None?
  {
    ShowNatDigits(n);
    StripSignGap(Python2, sign, gap, ShowNat(n), pre, post);
    SignGapPython2(sign, gap, ShowNat(n));
    StripSignGap(Python3, sign, gap, ShowNat(n), pre, post);
    if gap != [] {
      SignGapPython3(sign, gap, ShowNat(n));
    }
  }

  /** The whitespace around a sign, a gap and digits is what Strip removes. */
  lemma StripSignGap(py: Interpreter, sign: char, gap: string, d: string, pre: string, post: string)
    requires sign == '-' || sign == '+'
    requires AllSpace(Python2, pre) && AllSpace(Python2, post) && d != [] && AllDigits(d)
    ensures Strip(py, pre + [sign] + gap + d + post) == [sign] + gap + d
  {
    var body := [sign] + gap + d;
    assert pre + [sign] + gap + d + post == pre + body + post;
    assert body[0] == sign && body[|body| - 1] == d[|d| - 1];
    NotSpace(py, sign);
    NotSpace(py, d[|d| - 1]);
    SpaceWidens(py, pre);
    SpaceWidens(py, post);
    StripSpaced(py, pre, body, post);
  }

  lemma SignGapPython2(sign: char, gap: string, d: string)
    requires sign == '-' || sign == '+'
    requires AllSpace(Python2, gap) && d != [] && AllDigits(d)
    ensures ParseSigned(Python2, [sign] + gap + d)
         == Some(if sign == '-' then -(DecimalValue(d) as int) else DecimalValue(d))
  {
    var t := [sign] + gap + d;
    assert t[1..] == gap + d;
    NotSpace(Python2, d[0]);
    TrimLeftSpaces(Python2, gap, d);
  }

  lemma SignGapPython3(sign: char, gap: string, d: string)
    requires sign == '-' || sign == '+'
    requires AllSpace(Python2, gap) && gap != []
    ensures ParseSigned(Python3, [sign] + gap + d).None?
  {
    var t := [sign] + gap + d;
    assert t[1..][0] == gap[0];
  }

  /** Strip removes exactly the whitespace around a text that starts and ends
      with something else. */
  lemma StripSpaced(py: Interpreter, pre: string, body: string, post: string)
    requires AllSpace(py, pre) && AllSpace(py, post)
    requires body != [] && !IsSpace(py, body[0]) && !IsSpace(py, body[|body| - 1])
    ensures Strip(py, pre + body + post) == body
  {
    assert pre + body + post == pre + (body + post);
    TrimLeftSpaces(py, pre, body + post);
    TrimRightSpaces(py, body, post);
  }

  /** The Python 2 whitespace is Python 3 whitespace too. */
  lemma SpaceWidens(py: Interpreter, s: string)
    requires AllSpace(Python2, s)
    ensures AllSpace(py, s)
  {
  }

  /** A no-break space before the digits is whitespace to Python 3's int()
      only; an ASCII separator such as U+001C is whitespace to neither. */
  lemma NonAsciiSpace()
    ensures ParseInt(Python3, "\U{A0}5") == Some(5)
    ensures ParseInt(Python2, "\U{A0}5").None?
    ensures ParseInt(Python3, "\U{1C}5").None? && ParseInt(Python2, "\U{1C}5").None?
  {
    assert "\U{A0}5" == "\U{A0}" + ShowInt(5) + "";
    ParseShowInt(Python3, 5, "\U{A0}", "");
    assert "\U{A0}5" == ['\U{A0}'] + "5" && "\U{1C}5" == ['\U{1C}'] + "5";
    LeadRejected(Python2, '\U{A0}', "5");
    LeadRejected(Python3, '\U{1C}', "5");
    LeadRejected(Python2, '\U{1C}', "5");
  }

  /** A leading character that is neither whitespace, a sign nor a digit
      makes int() reject the text. */
  lemma LeadRejected(py: Interpreter, c: char, d: string)
    requires !IsSpace(py, c) && !IsDigit(c) && c != '-' && c != '+'
    requires d != [] && AllDigits(d)
    ensures ParseInt(py, [c] + d).None?
  {
    var t := [c] + d;
    assert t[|t| - 1] == d[|d| - 1];
    NotSpace(py, d[|d| - 1]);
    assert [] + t + [] == t;
    StripSpaced(py, [], t, []);
  }
}
