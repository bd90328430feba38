/**
 The pieces of the Kotlin standard library that the form screen applies to
 field text: `Char.isDigit`, `String.all`, `String.toIntOrNull`,
 `String.toFloatOrNull` (on digit strings) and the elvis operator `?:`.
 `IntToString` is a decimal rendering used only to state that
 `toIntOrNull` reads it back.

 Characters are treated as ASCII: `isDigit` is `'0'..'9'`.  Kotlin's own
 `isDigit` (and the digit test inside `toIntOrNull`) also accepts the other
 Unicode decimal digits; this model does not.
 */
module KotlinText {

  /** A nullable value: `None` is Kotlin's `null`. */
  datatype Option<+T> = None | Some(value: T) {

    /** Kotlin's elvis operator `this ?: default`. */
    function GetOr(default: T): (r: T)
      ensures Some? ==> r == value
      ensures None? ==> r == default
    {
      match this
      case Some(v) => v
      case None => default
    }
  }

  /** The bounds of Kotlin's 32-bit `Int`. */
  const IntMin: int := -0x8000_0000
  const IntMax: int := 0x7fff_ffff

  predicate IsDigit(c: char) {
    '0' <= c <= '9'
  }

  function DigitValue(c: char): (d: nat)
    requires IsDigit(c)
    ensures d < 10
  {
    (c as int) - ('0' as int)
  }

  function DigitChar(d: nat): (c: char)
    requires d < 10
    ensures IsDigit(c) && DigitValue(c) == d
  {
    ('0' as int + d) as char
  }

  /** `s.all { it.isDigit() }`, checked front to back; vacuously true of "". */
  function AllDigits(s: string): (r: bool)
    ensures r <==> forall i | 0 <= i < |s| :: IsDigit(s[i])
  {
    if s == [] then true else IsDigit(s[0]) && AllDigits(s[1..])
  }

  /** The numeric value of a digit string, most significant digit first; "" has value 0. */
  function DecimalValue(s: string): nat
    requires AllDigits(s)
  {
    if s == [] then 0 else 10 * DecimalValue(s[..|s| - 1]) + DigitValue(s[|s| - 1])
  }

  function Pow10(k: nat): (p: nat)
    ensures p >= 1
  {
    if k == 0 then 1 else 10 * Pow10(k - 1)
  }

  /**
   `s.toIntOrNull()`: an optional leading `-` or `+` followed by at least one
   digit, whose value lies in the `Int` range; `null` for everything else,
   including "", a lone sign and any value that does not fit in 32 bits.
   */
  function ToIntOrNull(s: string): (r: Option<int>)
    ensures r.Some? ==> s != [] && IntMin <= r.value <= IntMax
    ensures AllDigits(s) ==> (r.Some? <==> s != [] && DecimalValue(s) <= IntMax)
    ensures AllDigits(s) && r.Some? ==> r.value == DecimalValue(s)
    ensures r.Some? && r.value < 0 ==> s[0] == '-'
    ensures r.Some? ==> AllDigits(s) || ((s[0] == '-' || s[0] == '+') && |s| > 1 && AllDigits(s[1..]))
  {
    if s == [] then None
    else if s[0] == '-' || s[0] == '+' then
      if |s| == 1 || !AllDigits(s[1..]) then None
      else
        var magnitude: int := DecimalValue(s[1..]);
        var v: int := if s[0] == '-' then -magnitude else magnitude;
        if IntMin <= v <= IntMax then Some(v) else None
    else if AllDigits(s) && DecimalValue(s) <= IntMax then Some(DecimalValue(s))
    else None
  }

  /**
   `s.toFloatOrNull()` on a digit string, computed exactly: `null` for "",
   otherwise the string's value.  Other float syntaxes (a decimal point, an
   exponent, `NaN`, a sign) never reach it on the form screen.
   */
  function DigitsToFloatOrNull(s: string): (r: Option<real>)
    requires AllDigits(s)
    ensures r.None? <==> s == []
    ensures r.Some? ==> r.value == DecimalValue(s) as real
  {
    if s == [] then None else Some(DecimalValue(s) as real)
  }

  /** The shortest decimal rendering of a natural number. */
  function NatToDecimal(n: nat): (s: string)
    ensures s != [] && AllDigits(s)
    ensures n == 0 <==> s == "0"
    ensures s[0] != '0' || s == "0"
    decreases n
  {
    if n < 10 then [DigitChar(n)] else NatToDecimal(n / 10) + [DigitChar(n % 10)]
  }

  /** `n.toString()` for a Kotlin `Int`. */
  function IntToString(n: int): (s: string)
    requires IntMin <= n <= IntMax
    ensures s != []
    ensures n < 0 <==> s[0] == '-'
  {
    if n < 0 then "-" + NatToDecimal(-n) else NatToDecimal(n)
  }

  // ---------------------------------------------------------------------------
  // Properties of digit strings and of parsing

  /** Reading back the decimal rendering of `n` gives `n`. */
  lemma {:induction false} DecimalValueOfNatToDecimal(n: nat)
    ensures DecimalValue(NatToDecimal(n)) == n
    decreases n
  {
    var s := NatToDecimal(n);
    if n < 10 {
      assert s[..|s| - 1] == [];
    } else {
      var p := NatToDecimal(n / 10);
      assert s[..|s| - 1] == p;
      DecimalValueOfNatToDecimal(n / 10);
    }
  }

  /** `toIntOrNull` inverts `toString` on every `Int`. */
  lemma ToIntOrNullOfIntToString(n: int)
    requires IntMin <= n <= IntMax
    ensures ToIntOrNull(IntToString(n)) == Some(n)
  {
    var s := IntToString(n);
    if n < 0 {
      assert s[1..] == NatToDecimal(-n);
      DecimalValueOfNatToDecimal(-n);
    } else {
      DecimalValueOfNatToDecimal(n);
    }
  }

  /** A leading zero does not change the value of a digit string. */
  lemma {:induction false} LeadingZeroIgnored(s: string)
    requires AllDigits(s)
    ensures AllDigits("0" + s) && DecimalValue("0" + s) == DecimalValue(s)
    decreases |s|
  {
    var t := "0" + s;
    assert forall i | 0 <= i < |t| :: IsDigit(t[i]) by {
      forall i | 0 <= i < |t| ensures IsDigit(t[i]) {
        if i > 0 { assert t[i] == s[i - 1]; }
      }
    }
    if s != [] {
      var p := s[..|s| - 1];
      assert t[..|t| - 1] == "0" + p;
      assert t[|t| - 1] == s[|s| - 1];
      LeadingZeroIgnored(p);
    }
  }

  /** A string of `k` digits has a value below `10^k`. */
  lemma {:induction false} DecimalValueBelowPow10(s: string)
    requires AllDigits(s)
    ensures DecimalValue(s) < Pow10(|s|)
    decreases |s|
  {
    if s != [] {
      DecimalValueBelowPow10(s[..|s| - 1]);
    }
  }

  /** A string of `k` digits whose first digit is not zero has a value of at least `10^(k-1)`. */
  lemma {:induction false} DecimalValueAtLeastPow10(s: string)
    requires AllDigits(s) && s != [] && s[0] != '0'
    ensures DecimalValue(s) >= Pow10(|s| - 1)
    decreases |s|
  {
    if |s| > 1 {
      var p := s[..|s| - 1];
      assert p[0] == s[0];
      DecimalValueAtLeastPow10(p);
    }
  }

  lemma {:induction false} Pow10Monotone(j: nat, k: nat)
    requires j <= k
    ensures Pow10(j) <= Pow10(k)
    decreases k
  {
    if j < k {
      Pow10Monotone(j, k - 1);
    }
  }

  /** Every non-empty digit string of at most nine digits parses to its value. */
  lemma ShortDigitStringParses(s: string)
    requires AllDigits(s) && 0 < |s| <= 9
    ensures ToIntOrNull(s) == Some(DecimalValue(s))
  {
    DecimalValueBelowPow10(s);
    Pow10Monotone(|s|, 9);
    assert Pow10(9) == 1_000_000_000;
  }

  /**
   A digit string of eleven or more digits without a leading zero does not
   fit in an `Int`, so `toIntOrNull` yields `null`.
   */
  lemma LongDigitStringOverflows(s: string)
    requires AllDigits(s) && |s| >= 11 && s[0] != '0'
    ensures ToIntOrNull(s) == None
  {
    DecimalValueAtLeastPow10(s);
    Pow10Monotone(10, |s| - 1);
    assert Pow10(10) == 10_000_000_000;
  }
}
