/**
 * `GameUpdater.compareVersions`: dotted version strings compared component
 * by component, numerically, a missing component counting as 0.
 */
module Versions {
  import opened Strings

  /** `Number(s) || 0`: the value of a decimal component, and 0 for anything `Number` reads as NaN. */
  function ComponentValue(s: string): nat {
    if AllDigits(s) then DecimalValue(s) else 0
  }

  /** `v.split('.').map(Number)`, with NaN already read as 0. */
  function Components(v: string): (r: seq<nat>)
    ensures |r| == |Split(v, '.')|
  {
    var pieces := Split(v, '.');
    seq(|pieces|, i requires 0 <= i < |pieces| => ComponentValue(pieces[i]))
  }

  /** `parts[i] || 0`. */
  function At(parts: seq<nat>, i: nat): nat {
    if i < |parts| then parts[i] else 0
  }

  function Longest(p: seq<nat>, q: seq<nat>): nat {
    if |p| > |q| then |p| else |q|
  }

  /** The comparison from component `i` on. */
  function OrderFrom(p: seq<nat>, q: seq<nat>, i: nat): (r: int)
    ensures r == -1 || r == 0 || r == 1
    decreases Longest(p, q) - i
  {
    if i >= Longest(p, q) then 0
    else if At(p, i) > At(q, i) then 1
    else if At(p, i) < At(q, i) then -1
    else OrderFrom(p, q, i + 1)
  }

  /** 1 when `p` is the later version, -1 when `q` is, 0 when they are the same version. */
  function VersionOrder(p: seq<nat>, q: seq<nat>): int {
    OrderFrom(p, q, 0)
  }

  /** The order of two version strings. */
  function CompareVersionStrings(v1: string, v2: string): int {
    VersionOrder(Components(v1), Components(v2))
  }

  /** The loop of `compareVersions`, over `Math.max(parts1.length, parts2.length)` components. */
  method CompareVersions(v1: string, v2: string) returns (r: int)
    ensures r == CompareVersionStrings(v1, v2)
  {
    var parts1 := Components(v1);
    var parts2 := Components(v2);
    var n := if |parts1| > |parts2| then |parts1| else |parts2|;
    var i := 0;
    while i < n
      invariant 0 <= i <= n
      invariant OrderFrom(parts1, parts2, 0) == OrderFrom(parts1, parts2, i)
    {
      var val1 := if i < |parts1| then parts1[i] else 0;
      var val2 := if i < |parts2| then parts2[i] else 0;
      if val1 > val2 {
        return 1;
      }
      if val1 < val2 {
        return -1;
      }
      i := i + 1;
    }
    return 0;
  }

  // ----- Properties -----

  ghost predicate SameFrom(p: seq<nat>, q: seq<nat>, i: nat) {
    forall j: nat :: i <= j ==> At(p, j) == At(q, j)
  }

  ghost predicate FirstDifferenceGreater(p: seq<nat>, q: seq<nat>, i: nat) {
    exists k: nat :: i <= k && (forall j: nat :: i <= j < k ==> At(p, j) == At(q, j)) && At(p, k) > At(q, k)
  }

  lemma {:induction false} OrderFromZero(p: seq<nat>, q: seq<nat>, i: nat)
    ensures OrderFrom(p, q, i) == 0 <==> SameFrom(p, q, i)
    decreases Longest(p, q) - i
  {
    if i < Longest(p, q) && At(p, i) == At(q, i) {
      OrderFromZero(p, q, i + 1);
      if SameFrom(p, q, i + 1) {
        assert SameFrom(p, q, i);
      }
    }
  }

  lemma {:induction false} OrderFromOne(p: seq<nat>, q: seq<nat>, i: nat)
    ensures OrderFrom(p, q, i) == 1 <==> FirstDifferenceGreater(p, q, i)
    decreases Longest(p, q) - i
  {
    if i >= Longest(p, q) {
      assert forall k: nat :: i <= k ==> At(p, k) == 0 && At(q, k) == 0;
    } else if At(p, i) > At(q, i) {
      assert FirstDifferenceGreater(p, q, i);
    } else if At(p, i) == At(q, i) {
      OrderFromOne(p, q, i + 1);
      if FirstDifferenceGreater(p, q, i + 1) {
        var k: nat :| i + 1 <= k && (forall j: nat :: i + 1 <= j < k ==> At(p, j) == At(q, j)) && At(p, k) > At(q, k);
        assert FirstDifferenceGreater(p, q, i);
      }
      if FirstDifferenceGreater(p, q, i) {
        var k: nat :| i <= k && (forall j: nat :: i <= j < k ==> At(p, j) == At(q, j)) && At(p, k) > At(q, k);
        assert k != i;
        assert FirstDifferenceGreater(p, q, i + 1);
      }
    }
  }

  lemma {:induction false} OrderFromSwap(p: seq<nat>, q: seq<nat>, i: nat)
    ensures OrderFrom(q, p, i) == -OrderFrom(p, q, i)
    decreases Longest(p, q) - i
  {
    if i < Longest(p, q) && At(p, i) == At(q, i) {
      OrderFromSwap(p, q, i + 1);
    }
  }

  lemma OrderFromDecided(p: seq<nat>, q: seq<nat>, i: nat)
    ensures OrderFrom(p, q, i) == 0 <==> SameFrom(p, q, i)
    ensures OrderFrom(p, q, i) == 1 <==> FirstDifferenceGreater(p, q, i)
    ensures OrderFrom(p, q, i) == -1 <==> FirstDifferenceGreater(q, p, i)
  {
    OrderFromZero(p, q, i);
    OrderFromOne(p, q, i);
    OrderFromOne(q, p, i);
    OrderFromSwap(p, q, i);
  }

  /**
   * The first differing component decides: the result is 0 exactly when the
   * versions agree on every component (missing ones read as 0), and 1 exactly
   * when, at the first component where they differ, `p`'s is the larger.
   */
  lemma FirstDifferenceDecides(p: seq<nat>, q: seq<nat>)
    ensures VersionOrder(p, q) == 0 <==> (forall j: nat :: At(p, j) == At(q, j))
    ensures VersionOrder(p, q) == 1 <==> FirstDifferenceGreater(p, q, 0)
    ensures VersionOrder(p, q) == -1 <==> FirstDifferenceGreater(q, p, 0)
  {
    OrderFromDecided(p, q, 0);
  }

  /** Swapping the arguments negates the result. */
  lemma {:induction false} VersionOrderAntisymmetric(p: seq<nat>, q: seq<nat>)
    ensures VersionOrder(q, p) == -VersionOrder(p, q)
  {
    OrderFromSwap(p, q, 0);
  }

  /** Trailing zero components do not change a version: `1.0` equals `1.0.0`. */
  lemma TrailingZeroIgnored(p: seq<nat>, q: seq<nat>)
    ensures VersionOrder(p + [0], q) == VersionOrder(p, q)
  {
    assert forall j: nat :: At(p + [0], j) == At(p, j);
    OrderFromDecided(p + [0], q, 0);
    OrderFromDecided(p, q, 0);
    if FirstDifferenceGreater(p, q, 0) {
      var k: nat :| 0 <= k && (forall j: nat :: 0 <= j < k ==> At(p, j) == At(q, j)) && At(p, k) > At(q, k);
      assert At(p + [0], k) == At(p, k);
      assert FirstDifferenceGreater(p + [0], q, 0);
    }
    if FirstDifferenceGreater(p + [0], q, 0) {
      var k: nat :| 0 <= k && (forall j: nat :: 0 <= j < k ==> At(p + [0], j) == At(q, j)) && At(p + [0], k) > At(q, k);
      assert FirstDifferenceGreater(p, q, 0);
    }
    if FirstDifferenceGreater(q, p, 0) {
      var k: nat :| 0 <= k && (forall j: nat :: 0 <= j < k ==> At(q, j) == At(p, j)) && At(q, k) > At(p, k);
      assert At(p + [0], k) == At(p, k);
      assert FirstDifferenceGreater(q, p + [0], 0);
    }
    if FirstDifferenceGreater(q, p + [0], 0) {
      var k: nat :| 0 <= k && (forall j: nat :: 0 <= j < k ==> At(q, j) == At(p + [0], j)) && At(q, k) > At(p + [0], k);
      assert FirstDifferenceGreater(q, p, 0);
    }
  }

  /** A version of three one-digit components reads as those three numbers. */
  lemma ComponentsOfDigits(a: char, b: char, c: char)
    requires IsDigit(a) && IsDigit(b) && IsDigit(c)
    ensures Components([a, '.', b, '.', c]) == [a as int - '0' as int, b as int - '0' as int, c as int - '0' as int]
  {
    SplitConcat([a], [b, '.', c], '.');
    SplitConcat([b], [c], '.');
    assert [a] + ['.'] + [b, '.', c] == [a, '.', b, '.', c] && [b] + ['.'] + [c] == [b, '.', c];
    SplitWithoutSeparator([a], '.');
    SplitWithoutSeparator([b], '.');
    SplitWithoutSeparator([c], '.');
    assert Split([a, '.', b, '.', c], '.') == [[a], [b], [c]];
    DigitValue(a);
    DigitValue(b);
    DigitValue(c);
  }

  lemma DigitValue(a: char)
    requires IsDigit(a)
    ensures ComponentValue([a]) == a as int - '0' as int
  {
    assert AllDigits([a]) && [a][..0] == [] && [a][0] == a;
    assert DecimalValue([a]) == DecimalValue([]) * 10 + (a as int - '0' as int);
  }

  /** The source's unit tests on versions of equal length: the later version first. */
  lemma UnitTestGreater()
    ensures CompareVersionStrings("1.0.1", "1.0.0") == 1
    ensures CompareVersionStrings("2.0.0", "1.9.9") == 1
  {
    ComponentsOfDigits('1', '0', '1');
    ComponentsOfDigits('1', '0', '0');
    ComponentsOfDigits('2', '0', '0');
    ComponentsOfDigits('1', '9', '9');
  }

  /** The same tests with the earlier version first. */
  lemma UnitTestLess()
    ensures CompareVersionStrings("1.0.0", "1.0.1") == -1
    ensures CompareVersionStrings("0.9.9", "1.0.0") == -1
  {
    ComponentsOfDigits('1', '0', '1');
    ComponentsOfDigits('1', '0', '0');
    ComponentsOfDigits('0', '9', '9');
  }

  lemma UnitTestEqual()
    ensures CompareVersionStrings("1.0.0", "1.0.0") == 0
  {
    ComponentsOfDigits('1', '0', '0');
  }

  lemma ComponentsOfOneZeroZero()
    ensures Components("1.0.0") == [1, 0, 0]
  {
    ComponentsOfDigits('1', '0', '0');
  }

  lemma ComponentsOfOneZero()
    ensures Components("1.0") == [1, 0]
  {
    SplitConcat("1", "0", '.');
    assert "1" + ['.'] + "0" == "1.0";
    SplitWithoutSeparator("1", '.');
    SplitWithoutSeparator("0", '.');
    assert Split("1.0", '.') == ["1", "0"];
    assert ComponentValue("1") == 1 && ComponentValue("0") == 0;
  }

  /** The source's unit tests on versions of different lengths. */
  lemma UnitTestDifferentLengths()
    ensures CompareVersionStrings("1.0", "1.0.0") == 0
    ensures CompareVersionStrings("1.0.1", "1.0") == 1
  {
    ComponentsOfOneZeroZero();
    ComponentsOfOneZero();
    assert [1, 0] + [0] == [1, 0, 0];
    TrailingZeroIgnored([1, 0], [1, 0]);
  }
}
