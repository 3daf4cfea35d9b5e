/**
 C strings: a `char` stands for one byte, and a string never contains its own
 terminator.  Case folding is `tolower` in the "C" locale, and `Cmp` has the sign
 that `strcmp` returns.
 */
module CString {

  const NUL: char := '\0'

  predicate NulFree(s: string) {
    NUL !in s
  }

  function ToLower(c: char): char {
    if 'A' <= c <= 'Z' then (c as int + 32) as char else c
  }

  function Lower(s: string): (r: string)
    ensures |r| == |s|
  {
    seq(|s|, i requires 0 <= i < |s| => ToLower(s[i]))
  }

  /** What a comparison looks at: the bytes themselves, or their lower case. */
  function Fold(s: string, caseSensitive: bool): (r: string)
    ensures |r| == |s|
  {
    if caseSensitive then s else Lower(s)
  }

  /** The sign of `strcmp(a, b)`. */
  function Cmp(a: string, b: string): int {
    if a == "" then (if b == "" then 0 else -1)
    else if b == "" then 1
    else if a[0] != b[0] then a[0] as int - b[0] as int
    else Cmp(a[1..], b[1..])
  }

  /** `compare_strings`: `strcmp`, or the loop over `tolower` of both strings. */
  function CompareStrings(a: string, b: string, caseSensitive: bool): int {
    Cmp(Fold(a, caseSensitive), Fold(b, caseSensitive))
  }

  lemma {:induction false} CmpZero(a: string, b: string)
    ensures Cmp(a, b) == 0 <==> a == b
  {
    if a != "" && b != "" && a[0] == b[0] {
      CmpZero(a[1..], b[1..]);
      assert a == [a[0]] + a[1..] && b == [b[0]] + b[1..];
    }
  }

  lemma {:induction false} CmpOpposite(a: string, b: string)
    ensures Cmp(a, b) < 0 <==> 0 < Cmp(b, a)
  {
    if a != "" && b != "" && a[0] == b[0] {
      CmpOpposite(a[1..], b[1..]);
    }
  }

  lemma {:induction false} CmpTransitive(a: string, b: string, c: string)
    requires Cmp(a, b) <= 0 && Cmp(b, c) <= 0
    ensures Cmp(a, c) <= 0
    ensures Cmp(a, b) < 0 || Cmp(b, c) < 0 ==> Cmp(a, c) < 0
  {
    if a != "" && b != "" && c != "" && a[0] == b[0] == c[0] {
      CmpTransitive(a[1..], b[1..], c[1..]);
    }
  }
}
