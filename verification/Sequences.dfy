/** Sequences with one element taken out or replaced. */
module Sequences {

  function Without<T>(s: seq<T>, i: nat): (r: seq<T>)
    requires i < |s|
    ensures |r| == |s| - 1
  {
    s[..i] + s[i + 1..]
  }

  /** What is left was there before, and what was there is left unless it is what was taken out. */
  lemma {:induction false} WithoutKeeps<T>(s: seq<T>, i: nat)
    requires i < |s|
    ensures forall x | x in Without(s, i) :: x in s
    ensures forall x | x in s && x != s[i] :: x in Without(s, i)
  {
    forall x | x in s && x != s[i]
      ensures x in Without(s, i)
    {
      var j :| 0 <= j < |s| && s[j] == x;
      assert if j < i then Without(s, i)[j] == x else Without(s, i)[j - 1] == x;
    }
  }

  lemma {:induction false} ReplacedKeeps<T>(s: seq<T>, i: nat, x: T)
    requires i < |s|
    ensures x in s[i := x]
    ensures forall y | y in s[i := x] :: y == x || y in s
    ensures forall y | y in s && y != s[i] :: y in s[i := x]
  {
    assert s[i := x][i] == x;
    forall y | y in s && y != s[i]
      ensures y in s[i := x]
    {
      var j :| 0 <= j < |s| && s[j] == y;
      assert s[i := x][j] == y;
    }
  }
}
