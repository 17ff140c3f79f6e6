/** Small concepts that several modules share. */
module Basics {

  /** One past the largest uint32_t. */
  const U32 := 0x1_0000_0000

  datatype Option<+T> = None | Some(value: T)

  function MinOf(a: int, b: int): int { if a < b then a else b }

  function MaxOf(a: int, b: int): int { if a < b then b else a }

  ghost predicate Distinct<T>(s: seq<T>) {
    forall i, j :: 0 <= i < j < |s| ==> s[i] != s[j]
  }

  ghost function SetOf<T>(s: seq<T>): set<T> { set x | x in s }

  /** A sequence has as many different elements as positions exactly if it repeats none. */
  lemma {:induction false} SetOfDistinct<T>(s: seq<T>)
    ensures |SetOf(s)| <= |s|
    ensures |SetOf(s)| == |s| <==> Distinct(s)
  {
    if s == [] {
      assert SetOf(s) == {};
    } else {
      var n := |s| - 1;
      var rest := s[..n];
      SetOfDistinct(rest);
      assert SetOf(s) == SetOf(rest) + {s[n]};
      if s[n] in rest {
        assert SetOf(s) == SetOf(rest);
        var i :| 0 <= i < n && rest[i] == s[n];
        assert s[i] == s[n];
      } else {
        assert |SetOf(s)| == |SetOf(rest)| + 1;
        assert forall i :: 0 <= i < n ==> s[i] == rest[i] && s[i] != s[n];
      }
    }
  }

  lemma SubsetSize<T>(a: set<T>, b: set<T>)
    requires a <= b
    ensures |a| <= |b| && (|a| == |b| ==> a == b)
  {
    assert b == a + (b - a);
  }
}
