/**
 Byte strings, decimal numerals in ASCII, and taking equal concatenations apart.
 */
module Strings {
  type Byte = b: int | 0 <= b < 256
  type Bytes = seq<Byte>
  type Digit = d: int | 48 <= d <= 57 witness 48

  predicate IsDigit(c: int) { 48 <= c <= 57 }

  function Digits(n: nat): (t: seq<Digit>)
    ensures t != []
  {
    if n < 10 then [48 + n] else Digits(n / 10) + [48 + n % 10]
  }

  /** The number that a run of digits denotes. */
  function Value(t: seq<int>): int {
    if t == [] then 0 else 10 * Value(t[..|t| - 1]) + t[|t| - 1] - 48
  }

  lemma {:induction false} ValueOfDigits(n: nat)
    ensures Value(Digits(n)) == n
  {
    if n < 10 {
      assert Digits(n)[..0] == [];
    } else {
      ValueOfDigits(n / 10);
      assert Digits(n)[..|Digits(n)| - 1] == Digits(n / 10);
    }
  }

  lemma SplitEqual<T>(x: seq<T>, y: seq<T>, r: seq<T>, r': seq<T>)
    requires x + r == y + r' && |x| == |y|
    ensures x == y && r == r'
  {
    assert x == (x + r)[..|x|] && y == (y + r')[..|y|];
    assert r == (x + r)[|x|..] && r' == (y + r')[|y|..];
  }
}
