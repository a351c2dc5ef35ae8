/** Decimal digits: std::to_string and strtoul. */
module Decimal {
  import opened Octets

  predicate IsDigits(s: Text) {
    forall k :: 0 <= k < |s| ==> '0' <= s[k] <= '9'
  }

  /** strtoul, base 10. */
  function Value(digits: Text): nat
    requires IsDigits(digits)
  {
    if digits == [] then 0
    else 10 * Value(digits[..|digits| - 1]) + (digits[|digits| - 1] as int - '0' as int)
  }

  /** std::to_string. */
  function ToString(n: nat): (r: Text)
    ensures IsDigits(r) && r != []
  {
    var last: Text := [(n % 10 + '0' as int) as char];
    if n < 10 then last else ToString(n / 10) + last
  }

  lemma {:induction false} ValueOfToString(n: nat)
    ensures Value(ToString(n)) == n
  {
    var last: Text := [(n % 10 + '0' as int) as char];
    if n < 10 {
      assert last[..0] == [];
    } else {
      ValueOfToString(n / 10);
      assert (ToString(n / 10) + last)[..|ToString(n / 10)|] == ToString(n / 10);
    }
  }

  /** Without leading zeros, but for a single one. */
  function Stripped(digits: Text): (r: Text)
    ensures |r| <= |digits| && (r == digits <==> |digits| <= 1 || digits[0] != '0')
  {
    if |digits| <= 1 || digits[0] != '0' then digits else Stripped(digits[1..])
  }

  predicate IsZero(digits: Text) {
    |digits| == 1 && digits[0] == '0'
  }

  lemma {:induction false} StrippedSnoc(digits: Text, last: Octet)
    requires IsDigits(digits) && digits != []
    ensures Stripped(digits + [last]) == if IsZero(Stripped(digits)) then [last] else Stripped(digits) + [last]
  {
    var more := digits + [last];
    if digits[0] == '0' {
      assert more[1..] == digits[1..] + [last];
      if |digits| == 1 {
        assert more[1..] == [last];
      } else {
        StrippedSnoc(digits[1..], last);
      }
    }
  }

  lemma {:induction false} ToStringOfValue(digits: Text)
    requires IsDigits(digits) && digits != []
    ensures ToString(Value(digits)) == Stripped(digits)
  {
    var init, last := digits[..|digits| - 1], digits[|digits| - 1];
    if init == [] {
      OneDigit(digits);
    } else {
      ToStringOfValue(init);
      assert digits == init + [last];
      StrippedSnoc(init, last);
      NextDigit(Value(init), last);
    }
  }

  lemma OneDigit(digits: Text)
    requires IsDigits(digits) && |digits| == 1
    ensures ToString(Value(digits)) == digits
  {
    var none: Text := [];
    assert digits[..0] == none && Value(none) == 0;
  }

  lemma NextDigit(n: nat, last: Octet)
    requires '0' <= last <= '9'
    ensures ToString(10 * n + (last as int - '0' as int)) ==
            if IsZero(ToString(n)) then [last] else ToString(n) + [last]
  {
    ZeroDigit(n);
  }

  lemma ZeroDigit(n: nat)
    ensures IsZero(ToString(n)) <==> n == 0
  {
    if IsZero(ToString(n)) {
      assert ToString(n) == ToString(0);
      ValueOfToString(n);
      ValueOfToString(0);
    }
  }

  /** Digits have the same value exactly when they differ in leading zeros only. */
  lemma SameValueIff(a: Text, b: Text)
    requires IsDigits(a) && IsDigits(b) && a != [] && b != []
    ensures Value(a) == Value(b) <==> Stripped(a) == Stripped(b)
  {
    ToStringOfValue(a);
    ToStringOfValue(b);
    ValueOfToString(Value(a));
    ValueOfToString(Value(b));
  }
}
