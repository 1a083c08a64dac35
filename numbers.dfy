/**
 * Integer helpers (number.go), instantiated at mathematical integers.
 *
 * Go's `Abs`, `Min` and `Max` are generic over every integer and float
 * type; this module models the integer instantiation with unbounded `int`,
 * so fixed-width wrap-around (Abs of the most negative value) is not modelled.
 */
module Numbers {

  /** Abs: `-x` for negative `x`, otherwise `x`. */
  function Abs(x: int): (r: int)
    ensures r >= 0
    ensures r == x || r == -x
  {
    if x < 0 then -x else x
  }

  /** Abs is idempotent and ignores the sign of its argument. */
  lemma AbsIdempotentAndEven(x: int)
    ensures Abs(Abs(x)) == Abs(x)
    ensures Abs(-x) == Abs(x)
    ensures Abs(-5) == 5 && Abs(5) == 5
  {
  }

  /**
   * The running minimum of a non-empty sequence, folded left to right as
   * the loop in Min does: the best so far is replaced only by a strictly
   * smaller element.
   */
  function Least(s: seq<int>): (m: int)
    requires s != []
    ensures m in s
    ensures forall i :: 0 <= i < |s| ==> m <= s[i]
  {
    if |s| == 1 then s[0]
    else
      var best := Least(s[..|s| - 1]);
      if s[|s| - 1] < best then s[|s| - 1] else best
  }

  /** The running maximum of a non-empty sequence, folded left to right. */
  function Greatest(s: seq<int>): (m: int)
    requires s != []
    ensures m in s
    ensures forall i :: 0 <= i < |s| ==> s[i] <= m
  {
    if |s| == 1 then s[0]
    else
      var best := Greatest(s[..|s| - 1]);
      if s[|s| - 1] > best then s[|s| - 1] else best
  }

  /** Min: 0 for no numbers, otherwise the smallest of them. */
  method Min(numbers: seq<int>) returns (res: int)
    ensures numbers == [] ==> res == 0
    ensures numbers != [] ==> res == Least(numbers)
    ensures numbers != [] ==> res in numbers && forall i :: 0 <= i < |numbers| ==> res <= numbers[i]
  {
    if |numbers| == 0 {
      return 0;
    }
    res := numbers[0];
    for i := 0 to |numbers|
      invariant i == 0 ==> res == numbers[0]
      invariant i > 0 ==> res == Least(numbers[..i])
    {
      assert numbers[..i + 1][..i] == numbers[..i];
      if numbers[i] < res {
        res := numbers[i];
      }
    }
    assert numbers[..|numbers|] == numbers;
  }

  /** Max: 0 for no numbers, otherwise the largest of them. */
  method Max(numbers: seq<int>) returns (res: int)
    ensures numbers == [] ==> res == 0
    ensures numbers != [] ==> res == Greatest(numbers)
    ensures numbers != [] ==> res in numbers && forall i :: 0 <= i < |numbers| ==> numbers[i] <= res
  {
    if |numbers| == 0 {
      return 0;
    }
    res := numbers[0];
    for i := 0 to |numbers|
      invariant i == 0 ==> res == numbers[0]
      invariant i > 0 ==> res == Greatest(numbers[..i])
    {
      assert numbers[..i + 1][..i] == numbers[..i];
      if numbers[i] > res {
        res := numbers[i];
      }
    }
    assert numbers[..|numbers|] == numbers;
  }

  /** On the same non-empty input the minimum never exceeds the maximum. */
  lemma LeastAtMostGreatest(s: seq<int>)
    requires s != []
    ensures Least(s) <= Greatest(s)
  {
    assert Least(s) <= s[0] <= Greatest(s);
  }

  /** The minimum and maximum are determined by membership and the bound alone. */
  lemma LeastIsUnique(s: seq<int>, m: int)
    requires m in s && forall i :: 0 <= i < |s| ==> m <= s[i]
    ensures m == Least(s)
  {
    var k :| 0 <= k < |s| && s[k] == Least(s);
    var j :| 0 <= j < |s| && s[j] == m;
  }

  /** The worked example: Min(5, 3, 9) is 3 and Max(5, 3, 9) is 9. */
  lemma MinMaxExample()
    ensures Least([5, 3, 9]) == 3 && Greatest([5, 3, 9]) == 9
  {
    LeastIsUnique([5, 3, 9], 3);
    assert [5, 3, 9][..2] == [5, 3];
    assert [5, 3][..1] == [5];
  }
}
