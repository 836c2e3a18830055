/** The text `fmt` prints for `%d` on a non-negative number. */
module Decimal {
  import opened ByteStrings

  const ZERO: byte := 48
  const NINE: byte := 57

  predicate IsDigit(b: byte) {
    ZERO <= b <= NINE
  }

  predicate AllDigits(s: Bytes) {
    forall i :: 0 <= i < |s| ==> IsDigit(s[i])
  }

  function Format(n: nat): (s: Bytes)
    ensures s != [] && AllDigits(s)
  {
    if n < 10 then [n as byte + ZERO]
    else Format(n / 10) + [(n % 10) as byte + ZERO]
  }

  /** Base-ten value of a digit string, as `strconv` reads it. */
  function Value(s: Bytes): nat
    requires AllDigits(s)
  {
    if s == [] then 0
    else Value(s[..|s| - 1]) * 10 + (s[|s| - 1] - ZERO) as nat
  }

  /** Reading back a printed number yields the number. */
  lemma {:induction false} ValueOfFormat(n: nat)
    ensures Value(Format(n)) == n
  {
    if n >= 10 {
      ValueOfFormat(n / 10);
      var s := Format(n);
      assert s[..|s| - 1] == Format(n / 10);
    } else {
      assert Format(n)[..0] == [];
    }
  }
}
