/**
 * Option and Result, the JavaScript `Map` with its iteration order, and the few sequence operations the models share.
 */
module Collections {
  datatype Option<+T> = None | Some(value: T) {
    function GetOr(default: T): T {
      if Some? then value else default
    }
  }

  datatype Result<+T, +E> = Ok(value: T) | Err(error: E)

  /** `Array.prototype.filter`. */
  function Filter<T>(s: seq<T>, keep: T -> bool): seq<T> {
    if s == [] then []
    else Filter(s[..|s| - 1], keep) + (if keep(s[|s| - 1]) then [s[|s| - 1]] else [])
  }

  /** `Array.prototype.map`. */
  function Map<T, U>(s: seq<T>, f: T -> U): (r: seq<U>)
    ensures |r| == |s| && forall i :: 0 <= i < |s| ==> r[i] == f(s[i])
  {
    if s == [] then [] else Map(s[..|s| - 1], f) + [f(s[|s| - 1])]
  }

  /** `Array.prototype.findIndex`: the first position that satisfies the test. */
  function FindIndex<T>(s: seq<T>, test: T -> bool): (r: Option<nat>)
    ensures r.Some? ==> r.value < |s| && test(s[r.value]) && forall i :: 0 <= i < r.value ==> !test(s[i])
    ensures r.None? ==> forall i :: 0 <= i < |s| ==> !test(s[i])
  {
    if s == [] then None
    else if test(s[0]) then Some(0)
    else
      var rest := FindIndex(s[1..], test);
      if rest.Some? then Some(rest.value + 1) else None
  }

  /** `s.splice(at, 1)`: what is left. */
  function RemoveAt<T>(s: seq<T>, at: nat): (r: seq<T>)
    requires at < |s|
    ensures |r| == |s| - 1
    ensures forall k :: 0 <= k < at ==> r[k] == s[k]
    ensures forall k :: at <= k < |r| ==> r[k] == s[k + 1]
  {
    s[..at] + s[at + 1..]
  }

  /** `s.splice(at, 0, x)`. */
  function AddAt<T>(s: seq<T>, at: nat, x: T): (r: seq<T>)
    requires at <= |s|
    ensures |r| == |s| + 1 && r[at] == x
    ensures forall k :: 0 <= k < at ==> r[k] == s[k]
    ensures forall k :: at < k < |r| ==> r[k] == s[k - 1]
  {
    s[..at] + [x] + s[at..]
  }

  lemma TakeNext<T>(s: seq<T>, n: nat)
    requires n < |s|
    ensures s[..n + 1] == s[..n] + [s[n]]
  {}

  lemma SplitAt<T>(s: seq<T>, at: nat)
    requires at < |s|
    ensures s == s[..at] + [s[at]] + s[at + 1..]
  {}

  lemma TakeAll<T>(s: seq<T>)
    ensures s[..|s|] == s
  {}

  ghost predicate NoDup<T>(s: seq<T>) {
    forall i, j :: 0 <= i < j < |s| ==> s[i] != s[j]
  }

  /** One end of `Array.prototype.slice`: negative positions count from the end, and both ends are clamped. */
  function SliceEnd(at: int, length: nat): (r: nat)
    ensures r <= length
  {
    if at < 0 then (if length + at < 0 then 0 else length + at) else if at > length then length else at
  }

  /** `s.slice(from, to)`. */
  function JsSlice<T>(s: seq<T>, from: int, to: int): seq<T> {
    var lo, hi := SliceEnd(from, |s|), SliceEnd(to, |s|);
    if lo < hi then s[lo..hi] else []
  }

  lemma {:induction false} FilterConcat<T>(a: seq<T>, b: seq<T>, keep: T -> bool)
    ensures Filter(a + b, keep) == Filter(a, keep) + Filter(b, keep)
  {
    if b == [] {
      assert a + b == a;
    } else {
      var n := |b| - 1;
      assert (a + b)[..|a + b| - 1] == a + b[..n];
      FilterConcat(a, b[..n], keep);
    }
  }

  lemma {:induction false} FilterMember<T>(s: seq<T>, keep: T -> bool, x: T)
    ensures x in Filter(s, keep) <==> x in s && keep(x)
  {
    if s == [] {
    } else {
      FilterMember(s[..|s| - 1], keep, x);
      assert s == s[..|s| - 1] + [s[|s| - 1]];
    }
  }

  lemma {:induction false} FilterTwice<T>(s: seq<T>, p: T -> bool, q: T -> bool, both: T -> bool)
    requires forall x :: x in s ==> (both(x) <==> p(x) && q(x))
    ensures Filter(Filter(s, p), q) == Filter(s, both)
  {
    if s == [] {
    } else {
      var init, last := s[..|s| - 1], s[|s| - 1];
      FilterTwice(init, p, q, both);
      if p(last) {
        assert Filter(s, p)[..|Filter(s, p)| - 1] == Filter(init, p);
      } else {
        assert Filter(s, p) == Filter(init, p);
      }
    }
  }

  lemma {:induction false} FilterAgree<T>(s: seq<T>, p: T -> bool, q: T -> bool)
    requires forall x :: x in s ==> (p(x) <==> q(x))
    ensures Filter(s, p) == Filter(s, q)
  {
    if s == [] {
    } else {
      FilterAgree(s[..|s| - 1], p, q);
    }
  }

  /** Filtering keeps an order: what holds of every two elements in sequence still does. */
  lemma {:induction false} FilterOrdered<T>(s: seq<T>, keep: T -> bool, before: (T, T) -> bool)
    requires forall i, j :: 0 <= i < j < |s| ==> before(s[i], s[j])
    ensures forall i, j :: 0 <= i < j < |Filter(s, keep)| ==> before(Filter(s, keep)[i], Filter(s, keep)[j])
  {
    if s == [] {
    } else {
      var init, last := s[..|s| - 1], s[|s| - 1];
      FilterOrdered(init, keep, before);
      forall i | 0 <= i < |Filter(init, keep)| ensures before(Filter(init, keep)[i], last) {
        FilterMember(init, keep, Filter(init, keep)[i]);
      }
    }
  }

  lemma FilterNoDup<T>(s: seq<T>, keep: T -> bool)
    requires NoDup(s)
    ensures NoDup(Filter(s, keep))
  {
    FilterOrdered(s, keep, (a, b) => a != b);
  }

  /** Every key but `k`. */
  function Other<K(==)>(k: K): K -> bool {
    x => x != k
  }

  /** A JavaScript `Map`: iteration follows first insertion, and re-setting a key keeps its place. */
  datatype JsMap<K(==), V> = JsMap(order: seq<K>, items: map<K, V>) {
    ghost predicate Valid() {
      NoDup(order) && (forall k :: k in order ==> k in items) && (forall k :: k in items ==> k in order)
    }

    function Set(k: K, v: V): JsMap<K, V> {
      JsMap(if k in items then order else order + [k], items[k := v])
    }

    function Delete(k: K): JsMap<K, V> {
      JsMap(Filter(order, Other(k)), items - {k})
    }

    function Size(): nat {
      |order|
    }

    lemma SetValid(k: K, v: V)
      requires Valid()
      ensures Set(k, v).Valid()
    {}

    lemma DeleteValid(k: K)
      requires Valid()
      ensures Delete(k).Valid()
      ensures Delete(k).Size() == Size() - if k in items then 1 else 0
    {
      FilterNoDup(order, Other(k));
      forall x | x in Delete(k).order ensures x in Delete(k).items {
        FilterMember(order, Other(k), x);
      }
      forall x | x in Delete(k).items ensures x in Delete(k).order {
        FilterMember(order, Other(k), x);
      }
      FilterWithout(order, k);
    }
  }

  /** Dropping one key of a duplicate-free list shortens it by one, or leaves it alone. */
  lemma {:induction false} FilterWithout<K>(order: seq<K>, k: K)
    requires NoDup(order)
    ensures k in order ==> |Filter(order, Other(k))| == |order| - 1
    ensures k !in order ==> Filter(order, Other(k)) == order
  {
    if order == [] {
    } else {
      var init, last := order[..|order| - 1], order[|order| - 1];
      FilterWithout(init, k);
      assert order == init + [last];
    }
  }

}
