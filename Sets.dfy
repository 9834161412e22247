/** Set facts shared by the skill, lesson and job computations. */
module Sets {

  /** Python's set(list): the distinct elements of a sequence. */
  function Elems<T>(s: seq<T>): set<T>
  {
    set x | x in s
  }

  /** A subset is no larger, and is as large only when it is the whole set. */
  lemma {:induction false} SubsetCard<T>(a: set<T>, b: set<T>)
    ensures a <= b ==> |a| <= |b| && (|a| == |b| <==> a == b)
    decreases b
  {
    if a <= b && b != {} {
      var y :| y in b;
      SubsetCard(a - {y}, b - {y});
      if y in a {
        assert |a - {y}| == |a| - 1;
        assert a == (a - {y}) + {y} && b == (b - {y}) + {y};
      } else {
        assert a - {y} == a;
      }
    }
  }

  /** Splitting a set by membership in another: the two parts add up. */
  lemma SplitCard<T>(a: set<T>, b: set<T>)
    ensures |a - b| + |a * b| == |a|
  {
    assert (a - b) + (a * b) == a;
    assert (a - b) * (a * b) == {};
  }

  /** A sequence has no elements exactly when it is empty. */
  lemma ElemsEmpty<T>(s: seq<T>)
    ensures Elems(s) == {} <==> s == []
  {
    if s != [] {
      assert s[0] in Elems(s);
    }
  }
}
