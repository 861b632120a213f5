/**
 * The polydivisible predicate: every prefix of length k, read in the base,
 * is divisible by k.
 */
module Divisibility {
  import opened Positional

  /** `digits` is non-empty and each prefix of length k (1 <= k <= |digits|) has a value divisible by k. */
  predicate Polydivisible(digits: seq<nat>, base: nat)
  {
    |digits| > 0 && forall k :: 1 <= k <= |digits| ==> Value(digits[..k], base) % k == 0
  }

  /** isPolydivisible: builds each prefix value as `prev * base + digit` and stops at the first prefix of length k not divisible by k. */
  method IsPolydivisible(digits: seq<nat>, base: nat) returns (r: bool)
    ensures r == Polydivisible(digits, base)
  {
    if |digits| == 0 {
      return false;
    }
    var prefixValue := 0;
    for k := 1 to |digits| + 1
      invariant prefixValue == Value(digits[..k - 1], base)
      invariant forall j :: 1 <= j < k ==> Value(digits[..j], base) % j == 0
    {
      assert digits[..k] == digits[..k - 1] + [digits[k - 1]];
      ValueSnoc(digits[..k - 1], digits[k - 1], base);
      prefixValue := prefixValue * base + digits[k - 1];
      if prefixValue % k != 0 {
        return false;
      }
    }
    return true;
  }

  /** The empty sequence is not polydivisible; every single digit is. */
  lemma PolydivisibleShort(d: nat, base: nat)
    ensures !Polydivisible([], base)
    ensures Polydivisible([d], base)
  {
    assert [d][..1] == [d];
    ValueSnoc([], d, base);
  }

  /**
   * The incremental rule the enumerator relies on: appending a digit keeps a
   * sequence polydivisible exactly when the new, longer prefix is divisible by its length.
   */
  lemma PolydivisibleSnoc(digits: seq<nat>, d: nat, base: nat)
    ensures Polydivisible(digits + [d], base) <==>
      (digits == [] || Polydivisible(digits, base)) && Value(digits + [d], base) % (|digits| + 1) == 0
  {
    var ext := digits + [d];
    assert ext[..|ext|] == ext;
    forall k | 1 <= k <= |digits|
      ensures ext[..k] == digits[..k]
    {
    }
  }

  /** Every non-empty prefix of a polydivisible sequence is polydivisible. */
  lemma PolydivisiblePrefix(digits: seq<nat>, n: nat, base: nat)
    requires Polydivisible(digits, base) && 1 <= n <= |digits|
    ensures Polydivisible(digits[..n], base)
  {
    forall k | 1 <= k <= n
      ensures Value(digits[..n][..k], base) % k == 0
    {
      assert digits[..n][..k] == digits[..k];
    }
  }
}
