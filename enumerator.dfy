/**
 * generate: the depth-first, pruned backtracking search for every
 * polydivisible sequence of at most `maxLength` digits without a leading zero.
 *
 * `Subtree` and `Branches` describe, as pure functions, the list the search
 * emits from one node; the class `Search` is the search itself, with the
 * digit buffer it pushes to and pops from and the results it appends to.
 */
module Enumerator {
  import opened Positional
  import opened Divisibility

  /** The search tries digit `d` after `prefix`: never a leading zero, and the extended prefix must be divisible by its length. */
  predicate Accepts(prefix: seq<nat>, d: nat, base: nat)
  {
    !(|prefix| == 0 && d == 0) && Value(prefix + [d], base) % (|prefix| + 1) == 0
  }

  /** What the search emits from node `prefix`: the node itself unless it is empty, then, below the length limit, its branches in digit order. */
  function Subtree(prefix: seq<nat>, base: nat, maxLength: nat): seq<seq<nat>>
    requires |prefix| <= maxLength
    decreases maxLength - |prefix|, 1, 0
  {
    (if |prefix| > 0 then [prefix] else [])
    + (if |prefix| == maxLength then [] else Branches(prefix, base, maxLength, base))
  }

  /** What the search emits below `prefix` while trying the digits 0 .. n-1 in ascending order. */
  function Branches(prefix: seq<nat>, base: nat, maxLength: nat, n: nat): seq<seq<nat>>
    requires |prefix| < maxLength
    decreases maxLength - |prefix|, 0, n
  {
    if n == 0 then []
    else
      Branches(prefix, base, maxLength, n - 1)
      + (if Accepts(prefix, n - 1, base) then Subtree(prefix + [n - 1], base, maxLength) else [])
  }

  /** The full output of generate(base, maxLength). */
  function Enumeration(base: nat, maxLength: nat): seq<seq<nat>>
  {
    Subtree([], base, maxLength)
  }

  /** The k-th digit of `s` (1-based) is a digit of the base that the search accepts after the k-1 digits before it. */
  predicate AcceptedAt(s: seq<nat>, k: nat, base: nat)
    requires 1 <= k <= |s|
  {
    s[k - 1] < base && Accepts(s[..k - 1], s[k - 1], base)
  }

  /** `s` is a node the search reaches from `prefix`: it extends `prefix` within the length limit and every added digit is accepted. */
  predicate Reachable(prefix: seq<nat>, s: seq<nat>, base: nat, maxLength: nat)
  {
    0 < |s| && |prefix| <= |s| <= maxLength && s[..|prefix|] == prefix
    && forall k :: |prefix| < k <= |s| ==> AcceptedAt(s, k, base)
  }

  /** The nodes emitted from `prefix` are exactly the nodes reachable from it. */
  lemma {:induction false} SubtreeMembers(prefix: seq<nat>, base: nat, maxLength: nat, s: seq<nat>)
    requires |prefix| <= maxLength
    ensures s in Subtree(prefix, base, maxLength) <==> Reachable(prefix, s, base, maxLength)
    decreases maxLength - |prefix|, 1, 0
  {
    if |prefix| < maxLength {
      BranchesMembers(prefix, base, maxLength, base, s);
    }
    if s == prefix && |prefix| > 0 {
      assert s[..|prefix|] == prefix;
    }
    if Reachable(prefix, s, base, maxLength) {
      if |s| == |prefix| {
        assert s == s[..|prefix|];
      } else {
        assert AcceptedAt(s, |prefix| + 1, base);
      }
    }
  }

  /** Reaching `s` through digit `d` after `prefix` is reaching it from `prefix + [d]` once the search accepts `d`. */
  lemma ReachableStep(prefix: seq<nat>, d: nat, s: seq<nat>, base: nat, maxLength: nat)
    requires d < base
    ensures Reachable(prefix, s, base, maxLength) && |s| > |prefix| && s[|prefix|] == d <==>
      Accepts(prefix, d, base) && Reachable(prefix + [d], s, base, maxLength)
  {
    var p := |prefix|;
    if Reachable(prefix, s, base, maxLength) && |s| > p && s[p] == d {
      assert s[..p + 1] == prefix + [d] by {
        assert s[..p + 1] == s[..p] + [s[p]];
      }
      assert AcceptedAt(s, p + 1, base);
    }
    if Accepts(prefix, d, base) && Reachable(prefix + [d], s, base, maxLength) {
      assert s[..p + 1] == prefix + [d];
      assert s[..p] == s[..p + 1][..p];
      assert s[p] == d;
      assert AcceptedAt(s, p + 1, base);
    }
  }

  /** The nodes emitted while trying digits below `n` are the reachable proper extensions whose next digit is below `n`. */
  lemma {:induction false} BranchesMembers(prefix: seq<nat>, base: nat, maxLength: nat, n: nat, s: seq<nat>)
    requires |prefix| < maxLength && n <= base
    ensures s in Branches(prefix, base, maxLength, n) <==>
      Reachable(prefix, s, base, maxLength) && |s| > |prefix| && s[|prefix|] < n
    decreases maxLength - |prefix|, 0, n
  {
    if n > 0 {
      var d := n - 1;
      var earlier := Branches(prefix, base, maxLength, d);
      var below := if Accepts(prefix, d, base) then Subtree(prefix + [d], base, maxLength) else [];
      assert Branches(prefix, base, maxLength, n) == earlier + below;
      var p := |prefix|;
      assert s in earlier <==> Reachable(prefix, s, base, maxLength) && |s| > p && s[p] < d by {
        BranchesMembers(prefix, base, maxLength, d, s);
      }
      assert s in below <==> Reachable(prefix, s, base, maxLength) && |s| > p && s[p] == d by {
        ReachableStep(prefix, d, s, base, maxLength);
        if Accepts(prefix, d, base) {
          SubtreeMembers(prefix + [d], base, maxLength, s);
        }
      }
      assert s in earlier + below <==> s in earlier || s in below;
    }
  }

  /** Digit k is accepted exactly when it is a digit of the base, not a leading zero, and the length-k prefix is divisible by k. */
  lemma AcceptedAtIff(s: seq<nat>, k: nat, base: nat)
    requires 1 <= k <= |s|
    ensures AcceptedAt(s, k, base) <==>
      s[k - 1] < base && (k == 1 ==> s[0] != 0) && Value(s[..k], base) % k == 0
  {
    assert s[..k - 1] + [s[k - 1]] == s[..k];
  }

  /** Every digit of a non-empty sequence is accepted exactly when it has no leading zero, uses only digits of the base and is polydivisible. */
  lemma AllAcceptedIff(s: seq<nat>, base: nat)
    requires |s| >= 1
    ensures (forall k :: 0 < k <= |s| ==> AcceptedAt(s, k, base)) <==>
      s[0] != 0 && AllBelow(s, base) && Polydivisible(s, base)
  {
    if forall k :: 0 < k <= |s| ==> AcceptedAt(s, k, base) {
      AcceptedAtIff(s, 1, base);
      forall i | 0 <= i < |s|
        ensures s[i] < base
      {
        AcceptedAtIff(s, i + 1, base);
      }
      forall k | 1 <= k <= |s|
        ensures Value(s[..k], base) % k == 0
      {
        AcceptedAtIff(s, k, base);
      }
    }
    if s[0] != 0 && AllBelow(s, base) && Polydivisible(s, base) {
      forall k | 0 < k <= |s|
        ensures AcceptedAt(s, k, base)
      {
        AcceptedAtIff(s, k, base);
      }
    }
  }

  /** Soundness and completeness: generate emits exactly the polydivisible sequences of 1 .. maxLength digits of the base without a leading zero. */
  lemma EnumerationMembers(base: nat, maxLength: nat, s: seq<nat>)
    ensures s in Enumeration(base, maxLength) <==>
      1 <= |s| <= maxLength && s[0] != 0 && AllBelow(s, base) && Polydivisible(s, base)
  {
    SubtreeMembers([], base, maxLength, s);
    if 1 <= |s| {
      AllAcceptedIff(s, base);
      assert s[..0] == [];
    }
  }

  /**
   * The pre-order on digit sequences: `a` comes before `b` when `a` is a
   * proper prefix of `b`, or when at the first position where they differ
   * the digit of `a` is smaller.
   */
  predicate Precedes(a: seq<nat>, b: seq<nat>)
  {
    b != [] && (a == [] || a[0] < b[0] || (a[0] == b[0] && Precedes(a[1..], b[1..])))
  }

  /** A sequence comes before each of its proper extensions. */
  lemma {:induction false} PrecedesExtension(a: seq<nat>, b: seq<nat>)
    requires |a| < |b| && b[..|a|] == a
    ensures Precedes(a, b)
  {
    if a != [] {
      assert a[0] == b[0];
      assert b[1..][..|a| - 1] == a[1..];
      PrecedesExtension(a[1..], b[1..]);
    }
  }

  /** Two sequences that agree on their first i digits are ordered by digit i. */
  lemma {:induction false} PrecedesBranch(a: seq<nat>, b: seq<nat>, i: nat)
    requires i < |a| && i < |b| && a[..i] == b[..i] && a[i] < b[i]
    ensures Precedes(a, b)
  {
    if i > 0 {
      assert a[0] == a[..i][0] == b[..i][0] == b[0];
      assert a[1..][..i - 1] == a[..i][1..] == b[..i][1..] == b[1..][..i - 1];
      PrecedesBranch(a[1..], b[1..], i - 1);
    }
  }

  /** No sequence comes before itself. */
  lemma {:induction false} PrecedesIrreflexive(a: seq<nat>)
    ensures !Precedes(a, a)
  {
    if a != [] {
      PrecedesIrreflexive(a[1..]);
    }
  }

  /** Two sequences are never each before the other. */
  lemma {:induction false} PrecedesAsymmetric(a: seq<nat>, b: seq<nat>)
    ensures !(Precedes(a, b) && Precedes(b, a))
  {
    if a != [] && b != [] {
      PrecedesAsymmetric(a[1..], b[1..]);
    }
  }

  /** Every earlier element of `xs` comes before every later one. */
  predicate Sorted(xs: seq<seq<nat>>)
  {
    forall i, j :: 0 <= i < j < |xs| ==> Precedes(xs[i], xs[j])
  }

  /** Concatenating two sorted lists, each element of the first before each of the second, gives a sorted list. */
  lemma SortedConcat(xs: seq<seq<nat>>, ys: seq<seq<nat>>)
    requires Sorted(xs) && Sorted(ys)
    requires forall a, b :: a in xs && b in ys ==> Precedes(a, b)
    ensures Sorted(xs + ys)
  {
    var zs := xs + ys;
    forall i, j | 0 <= i < j < |zs|
      ensures Precedes(zs[i], zs[j])
    {
      if j < |xs| {
        assert zs[i] == xs[i] && zs[j] == xs[j];
      } else if i >= |xs| {
        assert zs[i] == ys[i - |xs|] && zs[j] == ys[j - |xs|];
      } else {
        assert zs[i] in xs && zs[j] in ys;
      }
    }
  }

  /** What is emitted while trying the digits below d comes before what is emitted below digit d. */
  lemma EarlierBranchFirst(prefix: seq<nat>, base: nat, maxLength: nat, d: nat, a: seq<nat>, b: seq<nat>)
    requires |prefix| < maxLength && d < base && Accepts(prefix, d, base)
    requires a in Branches(prefix, base, maxLength, d) && b in Subtree(prefix + [d], base, maxLength)
    ensures Precedes(a, b)
  {
    var p := |prefix|;
    BranchesMembers(prefix, base, maxLength, d, a);
    SubtreeMembers(prefix + [d], base, maxLength, b);
    assert b[..p] == b[..p + 1][..p];
    assert b[p] == (prefix + [d])[p];
    PrecedesBranch(a, b, p);
  }

  /** The list emitted from a node is in pre-order. */
  lemma {:induction false} SubtreeSorted(prefix: seq<nat>, base: nat, maxLength: nat)
    requires |prefix| <= maxLength
    ensures Sorted(Subtree(prefix, base, maxLength))
    decreases maxLength - |prefix|, 1, 0
  {
    var head: seq<seq<nat>> := if |prefix| > 0 then [prefix] else [];
    if |prefix| < maxLength {
      var rest := Branches(prefix, base, maxLength, base);
      BranchesSorted(prefix, base, maxLength, base);
      forall a, b | a in head && b in rest
        ensures Precedes(a, b)
      {
        BranchesMembers(prefix, base, maxLength, base, b);
        PrecedesExtension(prefix, b);
      }
      SortedConcat(head, rest);
    }
  }

  /** The list emitted while trying digits below `n` is in pre-order. */
  lemma {:induction false} BranchesSorted(prefix: seq<nat>, base: nat, maxLength: nat, n: nat)
    requires |prefix| < maxLength && n <= base
    ensures Sorted(Branches(prefix, base, maxLength, n))
    decreases maxLength - |prefix|, 0, n
  {
    if n > 0 {
      var d := n - 1;
      var earlier := Branches(prefix, base, maxLength, d);
      BranchesSorted(prefix, base, maxLength, d);
      if Accepts(prefix, d, base) {
        var later := Subtree(prefix + [d], base, maxLength);
        SubtreeSorted(prefix + [d], base, maxLength);
        forall a, b | a in earlier && b in later
          ensures Precedes(a, b)
        {
          EarlierBranchFirst(prefix, base, maxLength, d, a, b);
        }
        SortedConcat(earlier, later);
      } else {
        assert Branches(prefix, base, maxLength, n) == earlier;
      }
    }
  }

  /** The emission order of generate is exactly the pre-order: element i comes before element j in pre-order iff i < j. */
  lemma EnumerationOrder(base: nat, maxLength: nat, i: nat, j: nat)
    requires i < |Enumeration(base, maxLength)| && j < |Enumeration(base, maxLength)|
    ensures Precedes(Enumeration(base, maxLength)[i], Enumeration(base, maxLength)[j]) <==> i < j
  {
    var e := Enumeration(base, maxLength);
    SubtreeSorted([], base, maxLength);
    if j < i {
      PrecedesAsymmetric(e[i], e[j]);
    } else if i == j {
      PrecedesIrreflexive(e[i]);
    }
  }

  /** generate never emits the same sequence twice. */
  lemma EnumerationDistinct(base: nat, maxLength: nat, i: nat, j: nat)
    requires i < j < |Enumeration(base, maxLength)|
    ensures Enumeration(base, maxLength)[i] != Enumeration(base, maxLength)[j]
  {
    EnumerationOrder(base, maxLength, i, j);
    PrecedesIrreflexive(Enumeration(base, maxLength)[i]);
  }

  /** Prefix closure: the one-digit-shorter prefix of an emitted sequence is emitted, and earlier. */
  lemma EnumerationPrefixFirst(base: nat, maxLength: nat, j: nat)
    requires j < |Enumeration(base, maxLength)| && |Enumeration(base, maxLength)[j]| > 1
    ensures exists i :: 0 <= i < j && Enumeration(base, maxLength)[i] == Enumeration(base, maxLength)[j][..|Enumeration(base, maxLength)[j]| - 1]
  {
    var e := Enumeration(base, maxLength);
    var s := e[j];
    var p := s[..|s| - 1];
    EnumerationMembers(base, maxLength, s);
    PolydivisiblePrefix(s, |s| - 1, base);
    EnumerationMembers(base, maxLength, p);
    var i :| 0 <= i < |e| && e[i] == p;
    PrecedesExtension(p, s);
    EnumerationOrder(base, maxLength, i, j);
  }

  /** Siblings come out in ascending digit order: of two emitted sequences that first differ at position k, the smaller digit is emitted first. */
  lemma EnumerationSiblings(base: nat, maxLength: nat, i: nat, j: nat, k: nat)
    requires i < |Enumeration(base, maxLength)| && j < |Enumeration(base, maxLength)|
    requires k < |Enumeration(base, maxLength)[i]| && k < |Enumeration(base, maxLength)[j]|
    requires Enumeration(base, maxLength)[i][..k] == Enumeration(base, maxLength)[j][..k]
    requires Enumeration(base, maxLength)[i][k] < Enumeration(base, maxLength)[j][k]
    ensures i < j
  {
    var e := Enumeration(base, maxLength);
    PrecedesBranch(e[i], e[j], k);
    EnumerationOrder(base, maxLength, i, j);
  }

  /** With one digit allowed, trying the digits below n emits [1], [2], ..., [n-1]: every non-zero digit, in ascending order. */
  lemma {:induction false} BranchesLength1(base: nat, n: nat)
    requires n >= 1
    ensures |Branches([], base, 1, n)| == n - 1
    ensures forall i :: 0 <= i < n - 1 ==> Branches([], base, 1, n)[i] == [i + 1]
  {
    if n > 1 {
      var d := n - 1;
      BranchesLength1(base, d);
      assert Accepts([], d, base) by {
        assert Value([] + [d], base) % 1 == 0;
      }
      assert Subtree([d], base, 1) == [[d]];
      assert Branches([], base, 1, n) == Branches([], base, 1, d) + [[d]];
    }
  }

  /** generate(base, 1) is [[1], [2], ..., [base-1]]: every non-zero digit, in ascending order. */
  lemma EnumerationLength1(base: nat)
    requires base >= 1
    ensures |Enumeration(base, 1)| == base - 1
    ensures forall i :: 0 <= i < base - 1 ==> Enumeration(base, 1)[i] == [i + 1]
  {
    BranchesLength1(base, base);
    assert Enumeration(base, 1) == Branches([], base, 1, base);
  }

  /** Up to four digits or more in base 10, 1232 is emitted after 1, 12 and 123. */
  lemma Enumeration1232(maxLength: nat, i: nat, j: nat)
    requires i < |Enumeration(10, maxLength)| && j < |Enumeration(10, maxLength)|
    requires Enumeration(10, maxLength)[i] in {[1], [1, 2], [1, 2, 3]} && Enumeration(10, maxLength)[j] == [1, 2, 3, 2]
    ensures i < j
  {
    var e := Enumeration(10, maxLength);
    PrecedesExtension(e[i], e[j]);
    EnumerationOrder(10, maxLength, i, j);
  }

  /** 1, 12, 123 and 1232 are polydivisible in base 10. */
  lemma Polydivisible1232()
    ensures Polydivisible([1], 10) && Polydivisible([1, 2], 10)
    ensures Polydivisible([1, 2, 3], 10) && Polydivisible([1, 2, 3, 2], 10)
  {
    assert Value([1], 10) == 1 by {
      ValueSnoc([], 1, 10);
      assert [] + [1] == [1];
    }
    assert Value([1, 2], 10) == 12 by {
      ValueSnoc([1], 2, 10);
      assert [1] + [2] == [1, 2];
    }
    assert Value([1, 2, 3], 10) == 123 by {
      ValueSnoc([1, 2], 3, 10);
      assert [1, 2] + [3] == [1, 2, 3];
    }
    assert Value([1, 2, 3, 2], 10) == 1232 by {
      ValueSnoc([1, 2, 3], 2, 10);
      assert [1, 2, 3] + [2] == [1, 2, 3, 2];
    }
    assert Polydivisible([1], 10) by {
      PolydivisibleShort(1, 10);
    }
    assert Polydivisible([1, 2], 10) by {
      PolydivisibleSnoc([1], 2, 10);
      assert [1] + [2] == [1, 2];
    }
    assert Polydivisible([1, 2, 3], 10) by {
      PolydivisibleSnoc([1, 2], 3, 10);
      assert [1, 2] + [3] == [1, 2, 3];
    }
    assert Polydivisible([1, 2, 3, 2], 10) by {
      PolydivisibleSnoc([1, 2, 3], 2, 10);
      assert [1, 2, 3] + [2] == [1, 2, 3, 2];
    }
  }

  /** generate(10, maxLength) emits 1, 12, 123 and 1232 once maxLength reaches 4. */
  lemma Enumeration1232Members(maxLength: nat)
    requires maxLength >= 4
    ensures [1] in Enumeration(10, maxLength) && [1, 2] in Enumeration(10, maxLength)
    ensures [1, 2, 3] in Enumeration(10, maxLength) && [1, 2, 3, 2] in Enumeration(10, maxLength)
  {
    Polydivisible1232();
    EnumerationMembers(10, maxLength, [1]);
    EnumerationMembers(10, maxLength, [1, 2]);
    EnumerationMembers(10, maxLength, [1, 2, 3]);
    EnumerationMembers(10, maxLength, [1, 2, 3, 2]);
  }

  /** Concatenation is associative (proved apart, so that the search's proof need not). */
  lemma AppendAssociative<T>(a: seq<T>, b: seq<T>, c: seq<T>)
    ensures (a + b) + c == a + (b + c)
  {
  }

  /** One more digit tried: the branches grow by the subtree of digit d exactly when the extended prefix, of value w and length m, is divisible by m. */
  lemma BranchesStep(prefix: seq<nat>, base: nat, maxLength: nat, d: nat, w: nat, m: nat)
    requires |prefix| < maxLength && !(|prefix| == 0 && d == 0)
    requires w == Value(prefix + [d], base) && m == |prefix| + 1
    ensures w % m == 0 ==>
      Branches(prefix, base, maxLength, d + 1) == Branches(prefix, base, maxLength, d) + Subtree(prefix + [d], base, maxLength)
    ensures w % m != 0 ==> Branches(prefix, base, maxLength, d + 1) == Branches(prefix, base, maxLength, d)
  {
    assert Branches(prefix, base, maxLength, d) + [] == Branches(prefix, base, maxLength, d);
  }

  /** The search never starts with the digit 0. */
  lemma LeadingZeroSkipped(prefix: seq<nat>, base: nat, maxLength: nat)
    requires |prefix| == 0 < maxLength
    ensures Branches(prefix, base, maxLength, 1) == Branches(prefix, base, maxLength, 0) == []
  {
  }

  /** The state of one run of generate: the digit buffer the search pushes to and pops from, and the results emitted so far. */
  class Search {
    const base: nat
    const maxLength: nat
    var currentDigits: seq<nat>
    var results: seq<seq<nat>>

    constructor (base: nat, maxLength: nat)
      ensures this.base == base && this.maxLength == maxLength
      ensures currentDigits == [] && results == []
    {
      this.base := base;
      this.maxLength := maxLength;
      currentDigits := [];
      results := [];
    }

    /**
     * backtrack: emits the current digits (unless empty), then tries each
     * digit in ascending order, recursing on every accepted one; it leaves the
     * buffer as it found it and only appends to the results.
     */
    method Backtrack(currentValue: nat)
      requires |currentDigits| <= maxLength
      requires currentValue == Value(currentDigits, base)
      modifies this
      ensures currentDigits == old(currentDigits)
      ensures results == old(results) + Subtree(old(currentDigits), base, maxLength)
      decreases maxLength - |currentDigits|
    {
      var length := |currentDigits|;
      ghost var here: seq<seq<nat>> := if length > 0 then [currentDigits] else [];
      if length > 0 {
        results := results + [currentDigits];
      }
      assert results == old(results) + here;
      if length >= maxLength {
        return;
      }
      ghost var emitted, start := results, currentDigits;
      ghost var tried: seq<seq<nat>> := [];
      for digit: nat := 0 to base
        invariant currentDigits == start
        invariant tried == Branches(start, base, maxLength, digit)
        invariant results == emitted + tried
      {
        if length == 0 && digit == 0 {
          LeadingZeroSkipped(start, base, maxLength);
          continue;
        }
        var newValue := currentValue * base + digit;
        var newLength := length + 1;
        ValueSnoc(start, digit, base);
        BranchesStep(start, base, maxLength, digit, newValue, newLength);
        if newValue % newLength == 0 {
          currentDigits := currentDigits + [digit];
          Backtrack(newValue);
          assert currentDigits[..|currentDigits| - 1] == start;
          currentDigits := currentDigits[..|currentDigits| - 1];
          AppendAssociative(emitted, tried, Subtree(start + [digit], base, maxLength));
          tried := tried + Subtree(start + [digit], base, maxLength);
        }
      }
      AppendAssociative(old(results), here, tried);
    }
  }

  /** generate: runs the search from the empty prefix and returns everything it emitted. */
  method Generate(base: nat, maxLength: nat) returns (results: seq<seq<nat>>)
    ensures results == Enumeration(base, maxLength)
  {
    var search := new Search(base, maxLength);
    search.Backtrack(0);
    results := search.results;
  }
}
