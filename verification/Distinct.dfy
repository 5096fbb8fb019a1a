/** Counting with sequences that have no repetition. */
module Distinct {

  ghost predicate NoRepeat<T>(s: seq<T>) {
    forall i, j :: 0 <= i < j < |s| ==> s[i] != s[j]
  }

  /** Distinct elements drawn from a list are at most as many as the list is long, and when
      they are as many, the list holds nothing else. */
  lemma {:induction false} Exhausts<T(!new)>(s: seq<T>, whole: seq<T>)
    requires NoRepeat(s) && forall i :: 0 <= i < |s| ==> s[i] in whole
    ensures |s| <= |whole|
    ensures |s| == |whole| ==> forall x :: x in whole ==> x in s
  {
    if s != [] {
      var last := s[|s| - 1];
      var j :| 0 <= j < |whole| && whole[j] == last;
      Removed(whole, j);
      Exhausts(s[..|s| - 1], whole[..j] + whole[j + 1..]);
    }
  }

  lemma Removed<T(!new)>(whole: seq<T>, j: nat)
    requires j < |whole|
    ensures var rest := whole[..j] + whole[j + 1..];
            forall x :: x in whole && x != whole[j] ==> x in rest
  {
    var rest := whole[..j] + whole[j + 1..];
    forall x | x in whole && x != whole[j] ensures x in rest {
      var i :| 0 <= i < |whole| && whole[i] == x;
      assert i < j ==> rest[i] == x;
      assert i > j ==> rest[i - 1] == x;
    }
  }
}
