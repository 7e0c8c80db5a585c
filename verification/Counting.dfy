/** Sizes of sets and of sequences without repeats. */
module Counting {
  lemma {:induction false} SubsetSize<T>(a: set<T>, b: set<T>)
    requires a <= b
    ensures |a| <= |b|
    ensures |a| == |b| ==> a == b
    decreases |a|
  {
    if a != {} {
      var x :| x in a;
      SubsetSize(a - {x}, b - {x});
      assert a == (a - {x}) + {x} && b == (b - {x}) + {x};
    }
  }

  ghost predicate NoRepeats<T(!new)>(s: seq<T>) {
    forall i, j | 0 <= i < j < |s| :: s[i] != s[j]
  }

  ghost function SetOf<T(!new)>(s: seq<T>): set<T> {
    set x | x in s
  }

  lemma {:induction false} SetOfSize<T(!new)>(s: seq<T>)
    ensures |SetOf(s)| <= |s|
    ensures |SetOf(s)| == |s| <==> NoRepeats(s)
    decreases |s|
  {
    if s == [] {
      assert SetOf(s) == {};
    } else {
      var init, last := s[..|s| - 1], s[|s| - 1];
      SetOfSize(init);
      assert s == init + [last];
      assert SetOf(s) == SetOf(init) + {last};
      if last in init {
        var i :| 0 <= i < |init| && init[i] == last;
        assert SetOf(s) == SetOf(init) && s[i] == s[|s| - 1];
      } else {
        assert NoRepeats(s) <==> NoRepeats(init);
      }
    }
  }

  /** A sequence without repeats that is no shorter than another, and all in it, has
      the same elements, and the other has no repeats either. */
  lemma SameElements<T(!new)>(a: seq<T>, b: seq<T>)
    requires NoRepeats(a) && (forall x <- a :: x in b) && |b| <= |a|
    ensures |a| == |b| && NoRepeats(b) && forall x <- b :: x in a
  {
    SetOfSize(a);
    SetOfSize(b);
    SubsetSize(SetOf(a), SetOf(b));
    assert forall x <- b :: x in SetOf(b);
  }
}
