/** Shared basics. */
module Basics {

  datatype Option<T> = None | Some(value: T)

  lemma Associative<T>(a: seq<T>, b: seq<T>, c: seq<T>)
    ensures a + (b + c) == a + b + c
  {}

  lemma SamePrefix<T>(a: seq<T>, b: seq<T>, c: seq<T>)
    ensures a + b == a + c <==> b == c
  {
    assert (a + b)[|a|..] == b;
    assert (a + c)[|a|..] == c;
  }

  /** A number in decimal. */
  function Decimal(n: nat): string {
    (if n < 10 then "" else Decimal(n / 10)) + ['0' + (n % 10) as char]
  }

  const CAPITALS := "ABCDEFGHIJKLMNOPQRSTUVWXYZ"
  const LETTERS := "abcdefghijklmnopqrstuvwxyz"
  const DIGITS := "0123456789"

  lemma LettersAre()
    ensures forall k :: 0 <= k < 26 ==> LETTERS[k] as int == 'a' as int + k
  {}

  lemma CapitalsAre()
    ensures forall k :: 0 <= k < 26 ==> CAPITALS[k] as int == 'A' as int + k
  {}

  lemma DigitsAre()
    ensures forall k :: 0 <= k < 10 ==> DIGITS[k] as int == '0' as int + k
  {}

  lemma Runs(c: char)
    ensures 'a' <= c <= 'z' <==> c in LETTERS
    ensures 'A' <= c <= 'Z' <==> c in CAPITALS
    ensures '0' <= c <= '9' <==> c in DIGITS
  {
    LettersAre();
    CapitalsAre();
    DigitsAre();
    if 'a' <= c <= 'z' { assert LETTERS[c as int - 'a' as int] == c; }
    if 'A' <= c <= 'Z' { assert CAPITALS[c as int - 'A' as int] == c; }
    if '0' <= c <= '9' { assert DIGITS[c as int - '0' as int] == c; }
  }
}
