/** `Array.prototype.sort`, which is stable: `le(a, b)` says the comparator returns at most zero on `(a, b)`. */
module StableSort {
  import opened Collections

  ghost predicate TotalPreorder<T(!new)>(le: (T, T) -> bool) {
    && (forall a, b :: le(a, b) || le(b, a))
    && (forall a, b, c :: le(a, b) && le(b, c) ==> le(a, c))
  }

  ghost predicate Sorted<T>(s: seq<T>, le: (T, T) -> bool) {
    forall i, j :: 0 <= i < j < |s| ==> le(s[i], s[j])
  }

  /** The elements of `s` the comparator cannot tell from `x`, in their order in `s`. */
  ghost function Ties<T>(s: seq<T>, x: T, le: (T, T) -> bool): seq<T> {
    if s == [] then []
    else (if le(x, s[0]) && le(s[0], x) then [s[0]] else []) + Ties(s[1..], x, le)
  }

  /** What a stable sort promises: the result is ordered, and ties keep their order (so it is also a permutation). */
  ghost predicate IsStableSort<T(!new)>(s: seq<T>, r: seq<T>, le: (T, T) -> bool) {
    Sorted(r, le) && forall x :: Ties(s, x, le) == Ties(r, x, le)
  }

  function Insert<T>(s: seq<T>, x: T, le: (T, T) -> bool): seq<T> {
    if s == [] then [x]
    else if le(s[|s| - 1], x) then s + [x]
    else Insert(s[..|s| - 1], x, le) + [s[|s| - 1]]
  }

  function Sort<T>(s: seq<T>, le: (T, T) -> bool): seq<T> {
    if s == [] then [] else Insert(Sort(s[..|s| - 1], le), s[|s| - 1], le)
  }

  /** Where `Insert` puts the new element: behind a predecessor that is not greater, ahead of only greater ones. */
  lemma {:induction false} InsertAt<T>(s: seq<T>, x: T, le: (T, T) -> bool) returns (p: nat)
    ensures p <= |s| && Insert(s, x, le) == AddAt(s, p, x)
    ensures p > 0 ==> le(s[p - 1], x)
    ensures forall i :: p <= i < |s| ==> !le(s[i], x)
  {
    if s == [] || le(s[|s| - 1], x) {
      p := |s|;
    } else {
      p := InsertAt(s[..|s| - 1], x, le);
      assert s[p..] == s[..|s| - 1][p..] + [s[|s| - 1]];
      assert s[..|s| - 1][..p] == s[..p];
    }
  }

  lemma InsertPermutes<T>(s: seq<T>, x: T, le: (T, T) -> bool)
    ensures multiset(Insert(s, x, le)) == multiset(s) + multiset{x}
  {
    hide Insert;
    var p := InsertAt(s, x, le);
    assert s == s[..p] + s[p..];
  }

  lemma {:induction false} SortPermutes<T>(s: seq<T>, le: (T, T) -> bool)
    ensures multiset(Sort(s, le)) == multiset(s)
  {
    hide Insert;
    if s == [] {
    } else {
      var init, last := s[..|s| - 1], s[|s| - 1];
      SortPermutes(init, le);
      InsertPermutes(Sort(init, le), last, le);
      assert s == init + [last];
    }
  }

  lemma SortLength<T>(s: seq<T>, le: (T, T) -> bool)
    ensures |Sort(s, le)| == |s|
  {
    SortPermutes(s, le);
    assert |multiset(Sort(s, le))| == |multiset(s)|;
  }

  lemma SortMember<T>(s: seq<T>, le: (T, T) -> bool, x: T)
    ensures x in Sort(s, le) <==> x in s
  {
    SortPermutes(s, le);
    assert x in multiset(Sort(s, le)) <==> x in multiset(s);
  }

  lemma {:induction false} SortOfSorted<T>(s: seq<T>, le: (T, T) -> bool)
    requires Sorted(s, le)
    ensures Sort(s, le) == s
  {
    if s == [] {
    } else {
      var init, last := s[..|s| - 1], s[|s| - 1];
      SortOfSorted(init, le);
      assert init != [] ==> le(init[|init| - 1], last);
    }
  }

  lemma {:induction false} TiesConcat<T>(a: seq<T>, b: seq<T>, x: T, le: (T, T) -> bool)
    ensures Ties(a + b, x, le) == Ties(a, x, le) + Ties(b, x, le)
  {
    if a == [] {
      assert a + b == b;
    } else {
      assert (a + b)[1..] == a[1..] + b;
      TiesConcat(a[1..], b, x, le);
    }
  }

  lemma {:induction false} NoTies<T(!new)>(s: seq<T>, x: T, y: T, le: (T, T) -> bool)
    requires TotalPreorder(le) && le(x, y) && le(y, x)
    requires forall i :: 0 <= i < |s| ==> !le(s[i], x)
    ensures Ties(s, y, le) == []
  {
    if s == [] {
    } else {
      assert !le(s[0], x) && !le(s[0], y);
      NoTies(s[1..], x, y, le);
    }
  }

  lemma InsertSorted<T(!new)>(s: seq<T>, x: T, le: (T, T) -> bool)
    requires TotalPreorder(le) && Sorted(s, le)
    ensures Sorted(Insert(s, x, le), le)
  {
    hide Insert, AddAt;
    var p := InsertAt(s, x, le);
    forall i | 0 <= i < p ensures le(s[i], x) {
      assert i == p - 1 || le(s[i], s[p - 1]);
    }
  }

  lemma InsertTies<T(!new)>(s: seq<T>, x: T, y: T, le: (T, T) -> bool)
    requires TotalPreorder(le)
    ensures Ties(Insert(s, x, le), y, le) == Ties(s, y, le) + Ties([x], y, le)
  {
    hide Insert;
    var p := InsertAt(s, x, le);
    var front, back := s[..p], s[p..];
    assert s == front + back;
    TiesConcat(front + [x], back, y, le);
    TiesConcat(front, [x], y, le);
    TiesConcat(front, back, y, le);
    if le(x, y) && le(y, x) {
      NoTies(back, x, y, le);
    } else {
      assert Ties([x], y, le) == [];
    }
  }

  /** `Sort` is a stable sort of its argument. */
  lemma {:induction false} SortIsStable<T(!new)>(s: seq<T>, le: (T, T) -> bool)
    requires TotalPreorder(le)
    ensures IsStableSort(s, Sort(s, le), le)
  {
    if s == [] {
    } else {
      var init, last := s[..|s| - 1], s[|s| - 1];
      SortIsStable(init, le);
      InsertSorted(Sort(init, le), last, le);
      forall x ensures Ties(s, x, le) == Ties(Sort(s, le), x, le) {
        TiesConcat(init, [last], x, le);
        InsertTies(Sort(init, le), last, x, le);
        assert s == init + [last];
      }
    }
  }

  lemma {:induction false} TiesMember<T>(s: seq<T>, x: T, le: (T, T) -> bool)
    ensures forall y :: y in Ties(s, x, le) ==> y in s
    ensures x in s && le(x, x) ==> x in Ties(s, x, le)
  {
    if s == [] {
    } else {
      TiesMember(s[1..], x, le);
    }
  }

  /** There is only one: every stable sort gives the same sequence, so `Sort` is what any engine returns. */
  lemma {:induction false} StableSortIsUnique<T(!new)>(r1: seq<T>, r2: seq<T>, le: (T, T) -> bool)
    requires TotalPreorder(le) && Sorted(r1, le) && Sorted(r2, le)
    requires forall x :: Ties(r1, x, le) == Ties(r2, x, le)
    ensures r1 == r2
  {
    if r1 == [] || r2 == [] {
      if r1 != [] { TiesMember(r1, r1[0], le); }
      if r2 != [] { TiesMember(r2, r2[0], le); }
    } else {
      var a, b := r1[0], r2[0];
      TiesMember(r1, a, le);
      TiesMember(r2, a, le);
      TiesMember(r1, b, le);
      TiesMember(r2, b, le);
      assert a in r2 && b in r1;
      assert le(a, b) && le(b, a);
      assert Ties(r1, a, le)[0] == a && Ties(r2, a, le)[0] == b;
      assert r1 == [a] + r1[1..] && r2 == [b] + r2[1..];
      forall x ensures Ties(r1[1..], x, le) == Ties(r2[1..], x, le) {
        assert Ties(r1, x, le) == Ties(r2, x, le);
        TiesConcat([a], r1[1..], x, le);
        TiesConcat([b], r2[1..], x, le);
        var head, tail1, tail2 := Ties([a], x, le), Ties(r1[1..], x, le), Ties(r2[1..], x, le);
        assert tail1 == (head + tail1)[|head|..] && tail2 == (head + tail2)[|head|..];
      }
      StableSortIsUnique(r1[1..], r2[1..], le);
    }
  }

  /** `a` is put ahead of `b`: the sort says so, or it cannot tell and `q` does. */
  ghost predicate Ranked<T>(a: T, b: T, le: (T, T) -> bool, q: (T, T) -> bool) {
    le(a, b) && (le(b, a) ==> q(a, b))
  }

  /** Elements that come in the order `q` come out sorted, with ties still in the order `q`. */
  lemma {:induction false} SortKeepsOrder<T>(s: seq<T>, le: (T, T) -> bool, q: (T, T) -> bool)
    requires forall i, j :: 0 <= i < j < |s| ==> q(s[i], s[j])
    requires forall a, b, c :: a in s && b in s && c in s && le(a, b) && le(b, c) ==> le(a, c)
    requires forall a, b :: a in s && b in s ==> le(a, b) || le(b, a)
    ensures forall i, j :: 0 <= i < j < |Sort(s, le)| ==> Ranked(Sort(s, le)[i], Sort(s, le)[j], le, q)
  {
    if s == [] {
    } else {
      var init, last := s[..|s| - 1], s[|s| - 1];
      SortKeepsOrder(init, le, q);
      forall x | x in Sort(init, le) ensures x in init { SortMember(init, le, x); }
      InsertRanked(Sort(init, le), init, last, le, q);
    }
  }

  lemma InsertRanked<T>(before: seq<T>, init: seq<T>, last: T, le: (T, T) -> bool, q: (T, T) -> bool)
    requires forall i, j :: 0 <= i < j < |before| ==> Ranked(before[i], before[j], le, q)
    requires forall x :: x in before ==> x in init
    requires forall i :: 0 <= i < |init| ==> q(init[i], last)
    requires forall a, b, c :: a in init + [last] && b in init + [last] && c in init + [last] ==>
               (le(a, b) && le(b, c) ==> le(a, c))
    requires forall a, b :: a in init + [last] && b in init + [last] ==> le(a, b) || le(b, a)
    ensures forall i, j :: 0 <= i < j < |Insert(before, last, le)| ==>
              Ranked(Insert(before, last, le)[i], Insert(before, last, le)[j], le, q)
  {
    hide Insert, AddAt;
    var p := InsertAt(before, last, le);
    forall i | 0 <= i < |before|
      ensures before[i] in init + [last] && q(before[i], last) && (i < p ==> le(before[i], last))
    {
      assert before[i] in before;
      if i + 1 < p {
        assert before[p - 1] in before && Ranked(before[i], before[p - 1], le, q);
      }
    }
  }
}
