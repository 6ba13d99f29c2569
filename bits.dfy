/** Binary digit strings, most significant digit first, as both generators
    build them: Python's bin() digits, "0"-padding, bitwise complement and the
    unsigned and two's-complement readings of a digit string. */
module Bits {

  function Pow2(n: nat): (r: nat)
    ensures r >= 1
  {
    if n == 0 then 1 else 2 * Pow2(n - 1)
  }

  predicate IsBits(s: string) {
    forall i :: 0 <= i < |s| ==> s[i] == '0' || s[i] == '1'
  }

  function Bit(c: char): nat {
    if c == '1' then 1 else 0
  }

  function DigitOf(b: nat): char {
    if b % 2 == 1 then '1' else '0'
  }

  /** Unsigned value of a digit string; any character other than '1' reads as 0. */
  function Value(s: string): nat {
    if s == [] then 0 else (if s[0] == '1' then Pow2(|s| - 1) else 0) + Value(s[1..])
  }

  /** Two's-complement reading of a digit string of its own length. */
  function Signed(s: string): int {
    if s == [] then 0 else Value(s) - (if s[0] == '1' then Pow2(|s|) else 0)
  }

  /** Python's `c * n` on a one-character string: empty when n <= 0. */
  function Repeat(c: char, n: int): (r: string)
    ensures |r| == if n <= 0 then 0 else n
    ensures forall i :: 0 <= i < |r| ==> r[i] == c
  {
    if n <= 0 then [] else [c] + Repeat(c, n - 1)
  }

  /** Left padding with '0' up to width w; a longer string is left as it is. */
  function ZeroPad(s: string, w: int): string {
    Repeat('0', w - |s|) + s
  }

  /** '1' becomes '0', every other character becomes '1'. */
  function Complement(s: string): (r: string)
    ensures |r| == |s| && IsBits(r)
    ensures forall i :: 0 <= i < |s| ==> (r[i] == '0' <==> s[i] == '1')
  {
    seq(|s|, i requires 0 <= i < |s| => if s[i] == '1' then '0' else '1')
  }

  /** The digits of Python's bin(n) after the "0b" prefix. */
  function ToBinary(n: nat): string {
    if n < 2 then [DigitOf(n)] else ToBinary(n / 2) + [DigitOf(n % 2)]
  }

  lemma Pow2Byte()
    ensures Pow2(7) == 128 && Pow2(8) == 256
  {
  }

  lemma Pow2Add(a: nat, b: nat)
    ensures Pow2(a + b) == Pow2(a) * Pow2(b)
  {
    if a > 0 {
      Pow2Add(a - 1, b);
    }
  }

  lemma Pow2Monotone(a: nat, b: nat)
    requires a <= b
    ensures Pow2(a) <= Pow2(b)
  {
    if a < b {
      Pow2Monotone(a, b - 1);
    }
  }

  lemma {:induction false} ValueBound(s: string)
    ensures Value(s) < Pow2(|s|)
  {
    if s != [] {
      ValueBound(s[1..]);
    }
  }

  /** Appending a digit doubles the value and adds the digit. */
  lemma {:induction false} ValueSnoc(s: string, c: char)
    ensures Value(s + [c]) == 2 * Value(s) + Bit(c)
  {
    if s == [] {
      assert [c][1..] == [];
    } else {
      assert (s + [c])[1..] == s[1..] + [c];
      ValueSnoc(s[1..], c);
    }
  }

  /** Leading characters that read as 0 do not change the value. */
  lemma {:induction false} ValueZeroPrefix(k: int, s: string)
    ensures Value(Repeat('0', k) + s) == Value(s)
  {
    if k > 0 {
      var t := Repeat('0', k) + s;
      assert t == ['0'] + (Repeat('0', k - 1) + s);
      assert t[1..] == Repeat('0', k - 1) + s;
      ValueZeroPrefix(k - 1, s);
      assert Value(t) == Value(t[1..]);
    } else {
      assert Repeat('0', k) + s == s;
    }
  }

  lemma {:induction false} ComplementValue(s: string)
    requires IsBits(s)
    ensures Value(s) + Value(Complement(s)) == Pow2(|s|) - 1
  {
    if s != [] {
      assert Complement(s)[1..] == Complement(s[1..]);
      ComplementValue(s[1..]);
    }
  }

  /** bin(n): a digit string of value n with no leading zero (except "0" itself). */
  lemma {:induction false} ToBinaryCorrect(n: nat)
    ensures IsBits(ToBinary(n)) && |ToBinary(n)| >= 1
    ensures Value(ToBinary(n)) == n
    ensures n >= 1 ==> ToBinary(n)[0] == '1'
    ensures n == 0 ==> ToBinary(n) == "0"
    ensures n < Pow2(|ToBinary(n)|)
    ensures n >= 1 ==> Pow2(|ToBinary(n)| - 1) <= n
  {
    if n >= 2 {
      var s := ToBinary(n / 2);
      ToBinaryCorrect(n / 2);
      ValueSnoc(s, DigitOf(n % 2));
      assert ToBinary(n) == s + [DigitOf(n % 2)];
      assert Bit(DigitOf(n % 2)) == n % 2;
    }
  }

  /** bin(n) fits in w digits exactly when n < 2^w. */
  lemma ToBinaryFits(n: nat, w: nat)
    requires w >= 1
    ensures |ToBinary(n)| <= w <==> n < Pow2(w)
  {
    ToBinaryCorrect(n);
    var l := |ToBinary(n)|;
    if l <= w {
      Pow2Monotone(l, w);
    } else {
      Pow2Monotone(w, l - 1);
    }
  }

  /** A digit string of width w >= 1 leads with '1' exactly when its value is at least 2^(w-1). */
  lemma LeadingDigit(s: string)
    requires IsBits(s) && |s| >= 1
    ensures s[0] == '1' <==> Value(s) >= Pow2(|s| - 1)
  {
    ValueBound(s[1..]);
  }

  /** Zero-padding bin(n) to w digits gives exactly w digits of value n when n < 2^w. */
  lemma ZeroPadBinary(n: nat, w: nat)
    requires w >= 1 && n < Pow2(w)
    ensures |ZeroPad(ToBinary(n), w)| == w
    ensures IsBits(ZeroPad(ToBinary(n), w))
    ensures Value(ZeroPad(ToBinary(n), w)) == n
  {
    ToBinaryCorrect(n);
    ToBinaryFits(n, w);
    ValueZeroPrefix(w - |ToBinary(n)|, ToBinary(n));
  }
  /** Prefixing '1's to a digit string that starts with '1' keeps its
      two's-complement reading: sign extension. */
  lemma {:induction false} SignExtend(k: nat, s: string)
    requires |s| >= 1 && s[0] == '1'
    ensures Signed(Repeat('1', k) + s) == Signed(s)
  {
    if k > 0 {
      var t := Repeat('1', k - 1) + s;
      SignExtend(k - 1, s);
      assert Repeat('1', k) + s == ['1'] + t;
      var u := ['1'] + t;
      assert u[1..] == t;
      assert Value(u) == Pow2(|t|) + Value(t);
      assert Pow2(|u|) == 2 * Pow2(|t|);
      assert t[0] == '1';
      assert Signed(u) == Value(u) - Pow2(|u|);
      assert Signed(t) == Value(t) - Pow2(|t|);
    } else {
      assert Repeat('1', k) + s == s;
    }
  }

  /** Two digit strings of one length with one value are the same string. */
  lemma {:induction false} ValueInjective(s: string, t: string)
    requires IsBits(s) && IsBits(t) && |s| == |t| && Value(s) == Value(t)
    ensures s == t
  {
    if |s| > 0 {
      LeadingDigit(s);
      LeadingDigit(t);
      assert s[0] == t[0];
      assert IsBits(s[1..]) && IsBits(t[1..]);
      ValueInjective(s[1..], t[1..]);
      assert s == [s[0]] + s[1..] && t == [t[0]] + t[1..];
    }
  }
}
