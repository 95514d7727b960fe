/** Duplicate-free lists and the sets that bound them. */
module Lists {
  ghost predicate NoDup<T>(s: seq<T>) {
    forall i, j :: 0 <= i < j < |s| ==> s[i] != s[j]
  }

  lemma {:induction false} DistinctCount<T>(s: seq<T>, bound: set<T>)
    requires NoDup(s) && forall x :: x in s ==> x in bound
    ensures |s| <= |bound|
    ensures |s| == |bound| ==> forall x :: x in bound ==> x in s
  {
    if s != [] {
      var last := s[|s| - 1];
      var init := s[..|s| - 1];
      assert s == init + [last];
      forall x | x in init ensures x in bound - {last} {
        var i :| 0 <= i < |init| && init[i] == x;
        assert s[i] == x;
      }
      DistinctCount(init, bound - {last});
    } else if |bound| == 0 {
      assert bound == {};
    }
  }

  function SetOf<T>(s: seq<T>): set<T> {
    set x | x in s
  }

  lemma {:induction false} SetIsNotLarger<T>(s: seq<T>)
    ensures |SetOf(s)| <= |s|
  {
    if s != [] {
      SetIsNotLarger(s[..|s| - 1]);
      assert SetOf(s) == SetOf(s[..|s| - 1]) + {s[|s| - 1]};
    }
  }

  lemma {:induction false} CountDistinct<T>(s: seq<T>, x: T)
    requires NoDup(s)
    ensures multiset(s)[x] == if x in s then 1 else 0
  {
    if s != [] {
      var init := s[..|s| - 1];
      assert s == init + [s[|s| - 1]];
      CountDistinct(init, x);
    }
  }

  /** Two duplicate-free lists with the same elements are equally long. */
  lemma {:induction false} SameElementsSameLength<T>(s: seq<T>, t: seq<T>)
    requires NoDup(s) && NoDup(t) && forall x :: x in s <==> x in t
    ensures |s| == |t|
  {
    DistinctCount(s, SetOf(t));
    DistinctCount(t, SetOf(s));
    SetIsNotLarger(s);
    SetIsNotLarger(t);
  }
}
