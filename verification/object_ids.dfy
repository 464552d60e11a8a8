/**
 * Store-assigned announcement identifiers.
 *
 * The announcement store gives every inserted document a fresh key and the
 * service hands that key to callers as a lower-case hexadecimal string.  Here
 * a key is the hexadecimal form of a counter value; FromHex reads it back, and
 * the round trip FromHex(ToHex(n)) == n is what makes a new key unused.
 */
module ObjectIds {

  predicate IsHexChar(c: char) {
    '0' <= c <= '9' || 'a' <= c <= 'f'
  }

  predicate IsHex(s: string) {
    forall i :: 0 <= i < |s| ==> IsHexChar(s[i])
  }

  /** The character for one hexadecimal digit. */
  function HexDigit(d: nat): (c: char)
    requires d < 16
    ensures IsHexChar(c)
    ensures d < 10 ==> '0' <= c <= '9'
  {
    if d < 10 then ('0' as int + d) as char else ('a' as int + d - 10) as char
  }

  /** The value of one hexadecimal character. */
  function DigitValue(c: char): (d: nat)
    requires IsHexChar(c)
    ensures d < 16
    ensures HexDigit(d) == c
  {
    if c <= '9' then c as int - '0' as int else c as int - 'a' as int + 10
  }

  lemma DigitRoundTrip(d: nat)
    requires d < 16
    ensures DigitValue(HexDigit(d)) == d
  {
  }

  /** The shortest hexadecimal spelling of n. */
  function ToHex(n: nat): (s: string)
    ensures |s| >= 1 && IsHex(s)
    ensures |s| > 1 ==> s[0] != '0'
    decreases n
  {
    if n < 16 then [HexDigit(n)] else ToHex(n / 16) + [HexDigit(n % 16)]
  }

  /** The number a hexadecimal string spells, most significant digit first. */
  function FromHex(s: string): nat
    requires IsHex(s)
  {
    if s == [] then 0 else 16 * FromHex(s[..|s| - 1]) + DigitValue(s[|s| - 1])
  }

  /** Reading back the spelling of n gives n. */
  lemma {:induction false} FromHexToHex(n: nat)
    ensures FromHex(ToHex(n)) == n
    decreases n
  {
    var s := ToHex(n);
    if n < 16 {
      DigitRoundTrip(n);
      assert s[..|s| - 1] == [];
    } else {
      assert s[..|s| - 1] == ToHex(n / 16);
      FromHexToHex(n / 16);
      DigitRoundTrip(n % 16);
    }
  }

  /** Distinct counter values never share a key. */
  lemma ToHexInjective(m: nat, n: nat)
    requires ToHex(m) == ToHex(n)
    ensures m == n
  {
    FromHexToHex(m);
    FromHexToHex(n);
  }
}
