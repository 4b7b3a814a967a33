/** Numbers as text: their digits in base 10 or, in capitals, 16. */
module Numerals {
  predicate IsSpace(c: char) {
    c == ' ' || c == '\t' || c == '\n' || c == '\U{0B}' || c == '\U{0C}' || c == '\r'
  }

  function DigitValue(c: char): nat {
    if '0' <= c <= '9' then (c - '0') as nat
    else if 'a' <= c <= 'f' then (c - 'a') as nat + 10
    else if 'A' <= c <= 'F' then (c - 'A') as nat + 10
    else 99
  }

  function DigitChar(d: nat): char
    requires d < 16
  {
    if d < 10 then '0' + d as char else 'A' + (d - 10) as char
  }

  lemma DigitCharValue(d: nat)
    requires d < 16
    ensures DigitValue(DigitChar(d)) == d && !IsSpace(DigitChar(d))
  {
  }

  function Numeral(n: nat, base: nat): (s: string)
    requires base == 10 || base == 16
    ensures s != "" && forall i :: 0 <= i < |s| ==> DigitValue(s[i]) < base && !IsSpace(s[i])
  {
    var last := if base == 10 then n % 10 else n % 16;
    DigitCharValue(last);
    if n < base then [DigitChar(last)]
    else Numeral(if base == 10 then n / 10 else n / 16, base) + [DigitChar(last)]
  }

  /** Different numbers have different numerals. */
  lemma {:induction false} NumeralsDiffer(m: nat, n: nat, base: nat)
    requires (base == 10 || base == 16) && Numeral(m, base) == Numeral(n, base)
    ensures m == n
  {
    hide DigitChar;
    var s, p, q := Numeral(m, base), if base == 10 then m / 10 else m / 16, if base == 10 then n / 10 else n / 16;
    DigitCharValue(if base == 10 then m % 10 else m % 16);
    DigitCharValue(if base == 10 then n % 10 else n % 16);
    if m >= base && n >= base {
      assert s[..|s| - 1] == Numeral(p, base) && s[..|s| - 1] == Numeral(q, base);
      NumeralsDiffer(p, q, base);
    }
  }

  function Power(base: nat, k: nat): nat
    requires base == 10 || base == 16
  {
    if k == 0 then 1 else (if base == 10 then 10 else 16) * Power(base, k - 1)
  }

  /** A number below the k-th power of the base has at most k digits. */
  lemma {:induction false} NumeralLength(n: nat, base: nat, k: nat)
    requires (base == 10 || base == 16) && n < Power(base, k) && k > 0
    ensures |Numeral(n, base)| <= k
  {
    if n >= base {
      NumeralLength(if base == 10 then n / 10 else n / 16, base, k - 1);
    }
  }
}
