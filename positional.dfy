/**
 * Positional notation: the value of a digit sequence in a base (fromBase) and
 * the digits of a natural number in a base (toBase), most significant first.
 */
module Positional {

  /** The value of `digits` read in `base`, most significant digit first (Horner's rule). */
  function Value(digits: seq<nat>, base: nat): nat
  {
    if digits == [] then 0 else Value(digits[..|digits| - 1], base) * base + digits[|digits| - 1]
  }

  /** Appending a digit multiplies the value by the base and adds the digit. */
  lemma ValueSnoc(digits: seq<nat>, d: nat, base: nat)
    ensures Value(digits + [d], base) == Value(digits, base) * base + d
  {
    assert (digits + [d])[..|digits|] == digits;
  }

  /** Every digit of `digits` is a digit of `base`. */
  predicate AllBelow(digits: seq<nat>, base: nat)
  {
    forall i :: 0 <= i < |digits| ==> digits[i] < base
  }

  /** The canonical representation: at least one digit, all below the base, no leading zero unless it is the single digit 0. */
  predicate Canonical(digits: seq<nat>, base: nat)
  {
    |digits| >= 1 && AllBelow(digits, base) && (|digits| > 1 ==> digits[0] != 0)
  }

  /** Euclidean division by a base of at least 2. */
  lemma DivBasics(n: nat, base: nat)
    requires base >= 2
    ensures n == (n / base) * base + n % base && 0 <= n % base < base
  {
  }

  /** A positive multiple of `b` is at least `b`. */
  lemma MulAtLeast(k: int, b: nat)
    requires k >= 1
    ensures k * b >= b
  {
    assert k * b == (k - 1) * b + b;
  }

  /** A number of at least one base has a non-zero quotient, smaller than itself. */
  lemma QuotientBounds(n: nat, base: nat)
    requires base >= 2 && n >= base
    ensures 1 <= n / base < n
  {
    var q, r := n / base, n % base;
    DivBasics(n, base);
    if q != 0 {
      MulAtLeast(q, base);
      MulAtLeastTwice(q, base);
    }
  }

  /** Multiplying by a base of at least 2 at least doubles. */
  lemma MulAtLeastTwice(q: nat, base: nat)
    requires base >= 2
    ensures q * base >= 2 * q
  {
    assert q * base == q * (base - 2) + 2 * q;
    assert q * (base - 2) >= 0;
  }

  /** The digits of `n` in `base`, most significant first; 0 is [0]. */
  function ToDigits(n: nat, base: nat): (r: seq<nat>)
    requires base >= 2
    ensures Canonical(r, base)
    ensures r[0] == 0 <==> n == 0
    decreases n
  {
    if n < base then [n]
    else
      QuotientBounds(n, base);
      DivBasics(n, base);
      ToDigits(n / base, base) + [n % base]
  }

  /** Reading the digits of `n` gives back `n`. */
  lemma {:induction false} ValueOfToDigits(n: nat, base: nat)
    requires base >= 2
    ensures Value(ToDigits(n, base), base) == n
  {
    if n >= base {
      var q, d := n / base, n % base;
      assert ToDigits(n, base) == ToDigits(q, base) + [d];
      QuotientBounds(n, base);
      ValueOfToDigits(q, base);
      ValueSnoc(ToDigits(q, base), d, base);
      DivBasics(n, base);
    }
  }

  /** A sequence whose first digit is non-zero has a positive value. */
  lemma {:induction false} ValuePositive(digits: seq<nat>, base: nat)
    requires base >= 1 && |digits| >= 1 && digits[0] != 0
    ensures Value(digits, base) > 0
  {
    var n := |digits|;
    if n > 1 {
      ValuePositive(digits[..n - 1], base);
      assert Value(digits[..n - 1], base) * base >= Value(digits[..n - 1], base);
    }
  }

  /** Division by the base undoes appending a digit. */
  lemma DivModDigit(q: nat, d: nat, base: nat)
    requires base >= 2 && d < base
    ensures (q * base + d) / base == q && (q * base + d) % base == d
  {
    var n := q * base + d;
    DivBasics(n, base);
    var q', r' := n / base, n % base;
    assert q' * base + r' == q * base + d;
    assert (q' - q) * base == d - r';
    if q' > q {
      MulAtLeast(q' - q, base);
    } else if q' < q {
      MulAtLeast(q - q', base);
    }
  }

  /** Every canonical representation is the one `ToDigits` produces: the two conversions are inverse. */
  lemma {:induction false} ToDigitsOfValue(digits: seq<nat>, base: nat)
    requires base >= 2 && Canonical(digits, base)
    ensures ToDigits(Value(digits, base), base) == digits
  {
    var n := |digits|;
    if n == 1 {
      assert digits[..0] == [];
    } else {
      var init, last := digits[..n - 1], digits[n - 1];
      assert digits == init + [last];
      assert Canonical(init, base) by {
        assert forall i :: 0 <= i < |init| ==> init[i] == digits[i];
      }
      ToDigitsOfValue(init, base);
      ValuePositive(init, base);
      var q := Value(init, base);
      ValueSnoc(init, last, base);
      DivModDigit(q, last, base);
      MulAtLeast(q, base);
    }
  }

  /** fromBase: accumulates `result * base + digit` over the digits. */
  method FromBase(digits: seq<nat>, base: nat) returns (result: nat)
    ensures result == Value(digits, base)
  {
    result := 0;
    for i := 0 to |digits|
      invariant result == Value(digits[..i], base)
    {
      assert digits[..i + 1] == digits[..i] + [digits[i]];
      ValueSnoc(digits[..i], digits[i], base);
      result := result * base + digits[i];
    }
    assert digits[..|digits|] == digits;
  }

  /** toBase: 0 is [0]; otherwise repeatedly prepends `num % base` and divides; a negative number gives []. */
  method ToBase(num: int, base: nat) returns (digits: seq<nat>)
    requires base >= 2
    ensures num >= 0 ==> digits == ToDigits(num, base)
    ensures num < 0 ==> digits == []
  {
    if num == 0 {
      return [0];
    }
    ghost var original := num;
    digits := [];
    var n := num;
    while n > 0
      invariant original > 0 ==> n >= 0
      invariant original > 0 && n > 0 ==> ToDigits(original, base) == ToDigits(n, base) + digits
      invariant original > 0 && n == 0 ==> ToDigits(original, base) == digits
      invariant original < 0 ==> n == original && digits == []
      decreases n
    {
      if n < base {
        DivModDigit(0, n, base);
        assert ToDigits(n, base) == [n % base];
      } else {
        QuotientBounds(n, base);
        assert ToDigits(n, base) == ToDigits(n / base, base) + [n % base];
      }
      digits := [n % base] + digits;
      n := n / base;
    }
  }

  /** The value of the empty sequence is 0. */
  lemma ValueOfEmpty(base: nat)
    ensures Value([], base) == 0
  {
  }
}
