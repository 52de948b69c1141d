/** C strings: a string here holds the characters before the terminator. */
module CStrings {
  /** Character i of a C string; the terminator follows the last one. */
  function CharAt(s: string, i: nat): char { if i < |s| then s[i] else '\0' }

  /** The decimal digits of a number, the highest first. */
  function Decimal(n: nat): (s: string)
    ensures s != ""
  {
    if n < 10 then ["0123456789"[n]] else Decimal(n / 10) + ["0123456789"[n % 10]]
  }

  predicate AllDigits(s: string) { forall i :: 0 <= i < |s| ==> '0' <= s[i] <= '9' }

  lemma DecimalDigit(d: nat)
    requires d < 10
    ensures '0' <= "0123456789"[d] <= '9' && ("0123456789"[d] - '0') as nat == d
  {
  }

  lemma {:induction false} DecimalIsDigits(n: nat)
    ensures AllDigits(Decimal(n))
  {
    DecimalDigit(n % 10);
    if n < 10 {
    } else {
      DecimalIsDigits(n / 10);
    }
  }
}
