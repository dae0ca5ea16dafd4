/** Python string behaviour the inventory logic relies on: `str` of an
    integer, `zfill`, Latin-1 `lower`/`upper`, and the substring test `in`. */
module Text {

  predicate IsDigit(c: char) { '0' <= c <= '9' }

  predicate IsDigits(s: string) { forall i :: 0 <= i < |s| ==> IsDigit(s[i]) }

  function DigitChar(d: nat): (c: char)
    requires d < 10
    ensures IsDigit(c)
  {
    ('0' as int + d) as char
  }

  function DigitValue(c: char): nat
    requires IsDigit(c)
  {
    c as int - '0' as int
  }

  /** `str(n)` for n >= 0: the shortest decimal numeral, without sign or padding. */
  function NatStr(n: nat): (s: string)
    ensures 1 <= |s| && IsDigits(s)
    ensures '-' !in s
    ensures n > 0 ==> s[0] != '0'
    decreases n
  {
    if n < 10 then [DigitChar(n)] else NatStr(n / 10) + [DigitChar(n % 10)]
  }

  /** `str(i)` for any integer: a leading '-' exactly for negatives. */
  function IntStr(i: int): (s: string)
    ensures 1 <= |s|
    ensures s[0] == '-' <==> i < 0
  {
    if i < 0 then "-" + NatStr(-i) else NatStr(i)
  }

  /** The number a numeral denotes in base 10 (leading zeros allowed). */
  function DigitsValue(s: string): nat
    requires IsDigits(s)
    decreases |s|
  {
    if s == [] then 0 else DigitsValue(s[..|s| - 1]) * 10 + DigitValue(s[|s| - 1])
  }

  /** Reading back what `str` wrote gives the number. */
  lemma {:induction false} NatStrValue(n: nat)
    ensures DigitsValue(NatStr(n)) == n
    decreases n
  {
    if n >= 10 {
      NatStrValue(n / 10);
      var s := NatStr(n);
      assert s[..|s| - 1] == NatStr(n / 10);
    }
  }

  lemma NatStrInjective(a: nat, b: nat)
    requires NatStr(a) == NatStr(b)
    ensures a == b
  {
    NatStrValue(a);
    NatStrValue(b);
  }

  lemma IntStrInjective(a: int, b: int)
    requires IntStr(a) == IntStr(b)
    ensures a == b
  {
    if a < 0 {
      assert IntStr(a)[1..] == NatStr(-a);
      assert IntStr(b)[1..] == NatStr(-b);
      NatStrInjective(-a, -b);
    } else {
      NatStrInjective(a, b);
    }
  }

  function Pow10(e: nat): nat
  {
    if e == 0 then 1 else 10 * Pow10(e - 1)
  }

  /** A number below 10^e has at most e digits. */
  lemma {:induction false} NatStrWidth(n: nat, e: nat)
    requires 1 <= e && n < Pow10(e)
    ensures |NatStr(n)| <= e
    decreases e
  {
    if n >= 10 {
      assert Pow10(1) == 10;
      NatStrWidth(n / 10, e - 1);
    }
  }

  function Zeros(k: nat): (z: string)
    ensures |z| == k && IsDigits(z)
  {
    seq(k, _ => '0')
  }

  /** `s.zfill(w)` for an unsigned numeral: pad on the left with '0' up to width w. */
  function ZFill(s: string, w: nat): string
  {
    if |s| >= w then s else Zeros(w - |s|) + s
  }

  /** `zfill` reaches width w, keeps s as its tail and puts only '0' before it. */
  lemma ZFillPads(s: string, w: nat)
    ensures |ZFill(s, w)| == if |s| >= w then |s| else w
    ensures ZFill(s, w)[|ZFill(s, w)| - |s|..] == s
    ensures forall i :: 0 <= i < |ZFill(s, w)| - |s| ==> ZFill(s, w)[i] == '0'
  {
  }

  lemma {:induction false} ZerosValue(k: nat)
    ensures DigitsValue(Zeros(k)) == 0
    decreases k
  {
    if k > 0 {
      assert Zeros(k)[..k - 1] == Zeros(k - 1);
      ZerosValue(k - 1);
    }
  }

  /** Leading zeros do not change the value of a numeral. */
  lemma {:induction false} LeadingZerosValue(k: nat, s: string)
    requires IsDigits(s)
    ensures IsDigits(Zeros(k) + s) && DigitsValue(Zeros(k) + s) == DigitsValue(s)
    decreases |s|
  {
    var z := Zeros(k) + s;
    if s == [] {
      assert z == Zeros(k);
      ZerosValue(k);
    } else {
      assert z[..|z| - 1] == Zeros(k) + s[..|s| - 1];
      LeadingZerosValue(k, s[..|s| - 1]);
    }
  }

  /** `str(k).zfill(6)` for a draw k in 1..999999: six digits that read back as k. */
  function PaddedCode(k: int): (c: string)
    requires 1 <= k <= 999999
    ensures |c| == 6 && IsDigits(c) && DigitsValue(c) == k
  {
    assert Pow10(6) == 1000000;
    NatStrWidth(k, 6);
    NatStrValue(k);
    LeadingZerosValue(6 - |NatStr(k)|, NatStr(k));
    assert ZFill(NatStr(k), 6) == Zeros(6 - |NatStr(k)|) + NatStr(k);
    ZFill(NatStr(k), 6)
  }

  /** Distinct draws give distinct codes. */
  lemma PaddedCodeInjective(a: int, b: int)
    requires 1 <= a <= 999999 && 1 <= b <= 999999
    requires PaddedCode(a) == PaddedCode(b)
    ensures a == b
  {
  }

  /** Python's `c.lower()` on the Latin-1 letters (`A`-`Z`, `À`-`Þ` except `×`)
      and on `Ÿ`, the upper case of `ÿ`; every other character is kept. */
  function LowerChar(c: char): char
  {
    if 'A' <= c <= 'Z' then (c as int + 32) as char
    else if '\U{00C0}' <= c <= '\U{00DE}' && c != '\U{00D7}' then (c as int + 32) as char
    else if c == '\U{0178}' then '\U{00FF}'
    else c
  }

  /** Python's `c.upper()` on the Latin-1 letters whose upper case is one
      character (`a`-`z`, `à`-`þ` except `÷`, and `ÿ`); every other
      character is kept. */
  function UpperChar(c: char): char
  {
    if 'a' <= c <= 'z' then (c as int - 32) as char
    else if '\U{00E0}' <= c <= '\U{00FE}' && c != '\U{00F7}' then (c as int - 32) as char
    else if c == '\U{00FF}' then '\U{0178}'
    else c
  }

  /** `s.lower()`. */
  function Lower(s: string): (r: string)
    ensures |r| == |s|
    ensures forall i :: 0 <= i < |s| ==> r[i] == LowerChar(s[i])
  {
    seq(|s|, i requires 0 <= i < |s| => LowerChar(s[i]))
  }

  /** `s.upper()`. */
  function Upper(s: string): (r: string)
    ensures |r| == |s|
    ensures forall i :: 0 <= i < |s| ==> r[i] == UpperChar(s[i])
  {
    seq(|s|, i requires 0 <= i < |s| => UpperChar(s[i]))
  }

  /** Lower-casing forgets the case the text was typed in. */
  lemma LowerForgetsCase(s: string)
    ensures Lower(Lower(s)) == Lower(s)
    ensures Lower(Upper(s)) == Lower(s)
  {
  }

  /** Numerals have no case. */
  lemma LowerOfDigits(s: string)
    requires IsDigits(s)
    ensures Lower(s) == s
  {
  }

  /** t occurs in s starting at position i. */
  predicate OccursAt(t: string, s: string, i: int)
    requires 0 <= i <= |s| - |t|
  {
    s[i..i + |t|] == t
  }

  /** `t in s` for strings: t occurs as a contiguous piece of s. */
  predicate IsSubstring(t: string, s: string)
  {
    exists i :: 0 <= i <= |s| - |t| && OccursAt(t, s, i)
  }
}
