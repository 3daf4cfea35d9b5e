/** Decimal text of whole numbers: what `%lu` prints and what the digit loops read. */
module Decimal {

  predicate IsDigit(c: char) {
    '0' <= c <= '9'
  }

  function DigitOf(d: nat): (c: char)
    requires d < 10
    ensures IsDigit(c) && c as int - '0' as int == d
  {
    ('0' as int + d) as char
  }

  predicate AllDigits(s: string) {
    forall i | 0 <= i < |s| :: IsDigit(s[i])
  }

  function Digits(n: nat): (s: string)
    ensures s != "" && AllDigits(s)
    ensures s[0] == '0' ==> n == 0 && |s| == 1
  {
    if n < 10 then [DigitOf(n)] else Digits(n / 10) + [DigitOf(n % 10)]
  }

  /** Horner's rule over `10 * acc + (c - '0')`, for any characters from '0' upwards. */
  function Horner(acc: nat, s: string): nat
    requires forall i | 0 <= i < |s| :: '0' <= s[i]
    decreases s
  {
    if s == "" then acc else Horner(10 * acc + (s[0] as int - '0' as int), s[1..])
  }

  lemma {:induction false} HornerAppend(acc: nat, s: string, c: char)
    requires forall i | 0 <= i < |s| :: '0' <= s[i]
    requires '0' <= c
    ensures Horner(acc, s + [c]) == 10 * Horner(acc, s) + (c as int - '0' as int)
    decreases s
  {
    if s == "" {
      assert s + [c] == [c];
    } else {
      assert (s + [c])[1..] == s[1..] + [c];
      HornerAppend(10 * acc + (s[0] as int - '0' as int), s[1..], c);
    }
  }

  /** Reading the digits of a number gives the number back. */
  lemma {:induction false} ReadDigits(n: nat)
    ensures Horner(0, Digits(n)) == n
  {
    if n < 10 {
      assert Digits(n)[1..] == "";
    } else {
      ReadDigits(n / 10);
      HornerAppend(0, Digits(n / 10), DigitOf(n % 10));
    }
  }

  /** Digits without a leading zero are the digits of their number. */
  lemma {:induction false} DigitsOfHorner(s: string)
    requires s != "" && AllDigits(s) && (s[0] == '0' ==> |s| == 1)
    ensures Digits(Horner(0, s)) == s
    decreases |s|
  {
    var front, c := s[..|s| - 1], s[|s| - 1];
    assert s == front + [c];
    HornerAppend(0, front, c);
    if front == "" {
      assert Horner(0, front) == 0;
    } else {
      assert front[0] == s[0];
      DigitsOfHorner(front);
    }
  }

  /** A number below 10^k has at most k digits. */
  lemma {:induction false} DigitsLength(n: nat, k: nat)
    requires 0 < k && n < Power10(k)
    ensures |Digits(n)| <= k
  {
    if n >= 10 {
      assert k > 1;
      DigitsLength(n / 10, k - 1);
    }
  }

  function Power10(k: nat): (p: nat)
    ensures p > 0
  {
    if k == 0 then 1 else 10 * Power10(k - 1)
  }
}
