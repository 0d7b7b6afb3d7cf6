/** Hand-maintained inverted lists: for every key, the ids filed under it, in order, and no empty list. */
module Postings {
  import opened Collections

  datatype Posting<I, K> = Posting(id: I, keys: seq<K>)

  /** File an id under a key, once. */
  function Push<I(==), K>(index: map<K, seq<I>>, k: K, id: I): map<K, seq<I>> {
    var list := if k in index then index[k] else [];
    index[k := if id in list then list else list + [id]]
  }

  /** Take an id out from under a key, and the key with it if nothing is left. */
  function Drop<I(==), K>(index: map<K, seq<I>>, k: K, id: I): map<K, seq<I>> {
    if k !in index then index
    else
      var list := Filter(index[k], Other(id));
      if list == [] then index - {k} else index[k := list]
  }

  function PushAll<I(==), K>(index: map<K, seq<I>>, keys: seq<K>, id: I): map<K, seq<I>> {
    if keys == [] then index else Push(PushAll(index, keys[..|keys| - 1], id), keys[|keys| - 1], id)
  }

  function DropAll<I(==), K>(index: map<K, seq<I>>, keys: seq<K>, id: I): map<K, seq<I>> {
    if keys == [] then index else Drop(DropAll(index, keys[..|keys| - 1], id), keys[|keys| - 1], id)
  }

  lemma PushOne<I, K>(index: map<K, seq<I>>, k: K, id: I)
    ensures PushAll(index, [k], id) == Push(index, k, id)
    ensures PushAll(index, [], id) == index
  {
    assert [k][..0] == [];
  }

  lemma DropSingle<I, K>(index: map<K, seq<I>>, k: K, id: I)
    ensures DropAll(index, [k], id) == Drop(index, k, id)
    ensures DropAll(index, [], id) == index
  {
    assert [k][..0] == [];
  }

  /** File everything from scratch. */
  function Rebuild<I(==), K>(postings: seq<Posting<I, K>>): map<K, seq<I>> {
    if postings == [] then map[]
    else
      var last := postings[|postings| - 1];
      PushAll(Rebuild(postings[..|postings| - 1]), last.keys, last.id)
  }

  function Lookup<I, K>(index: map<K, seq<I>>, k: K): seq<I> {
    if k in index then index[k] else []
  }

  /** The reference: the ids of the postings that carry the key, in order. */
  ghost function ListFor<I, K>(postings: seq<Posting<I, K>>, k: K): seq<I> {
    if postings == [] then []
    else
      var last := postings[|postings| - 1];
      ListFor(postings[..|postings| - 1], k) + (if k in last.keys then [last.id] else [])
  }

  ghost predicate Exact<I, K(!new)>(index: map<K, seq<I>>, postings: seq<Posting<I, K>>) {
    && NoEmpty(index)
    && (forall k :: Lookup(index, k) == ListFor(postings, k))
  }

  ghost predicate DistinctIds<I, K>(postings: seq<Posting<I, K>>) {
    forall i, j :: 0 <= i < j < |postings| ==> postings[i].id != postings[j].id
  }

  /** An exact index is the only one. */
  lemma ExactIsUnique<I, K(!new)>(a: map<K, seq<I>>, b: map<K, seq<I>>, postings: seq<Posting<I, K>>)
    requires Exact(a, postings) && Exact(b, postings)
    ensures a == b
  {
    forall k ensures k in a <==> k in b {
      assert Lookup(a, k) == Lookup(b, k);
    }
    forall k | k in a ensures a[k] == b[k] {
      assert Lookup(a, k) == Lookup(b, k);
    }
  }

  ghost predicate NoEmpty<I, K>(index: map<K, seq<I>>) {
    forall k :: k in index ==> index[k] != []
  }

  lemma PushLookup<I, K(!new)>(index: map<K, seq<I>>, k: K, id: I)
    requires NoEmpty(index)
    ensures NoEmpty(Push(index, k, id))
    ensures forall x :: Lookup(Push(index, k, id), x) ==
                        Lookup(index, x) + (if x == k && id !in Lookup(index, k) then [id] else [])
  {}

  lemma {:induction false} PushAllLookup<I, K(!new)>(index: map<K, seq<I>>, keys: seq<K>, id: I)
    requires NoEmpty(index)
    requires forall k :: id !in Lookup(index, k)
    ensures NoEmpty(PushAll(index, keys, id))
    ensures forall k :: Lookup(PushAll(index, keys, id), k) == Lookup(index, k) + (if k in keys then [id] else [])
  {
    hide Push, Lookup, NoEmpty;
    if keys == [] {
    } else {
      var init, last := keys[..|keys| - 1], keys[|keys| - 1];
      PushAllLookup(index, init, id);
      PushLookup(PushAll(index, init, id), last, id);
      assert forall k :: k in keys <==> k in init || k == last;
    }
  }

  lemma DropLookup<I, K(!new)>(index: map<K, seq<I>>, k: K, id: I)
    requires NoEmpty(index)
    ensures NoEmpty(Drop(index, k, id))
    ensures forall x ::
              Lookup(Drop(index, k, id), x) == if x == k then Filter(Lookup(index, x), Other(id)) else Lookup(index, x)
  {}

  lemma {:induction false} DropAllLookup<I, K(!new)>(index: map<K, seq<I>>, keys: seq<K>, id: I)
    requires NoEmpty(index)
    ensures NoEmpty(DropAll(index, keys, id))
    ensures forall k :: Lookup(DropAll(index, keys, id), k) ==
                        if k in keys then Filter(Lookup(index, k), Other(id)) else Lookup(index, k)
  {
    hide Drop, Lookup, NoEmpty, Filter;
    if keys == [] {
    } else {
      var init, last := keys[..|keys| - 1], keys[|keys| - 1];
      DropAllLookup(index, init, id);
      DropLookup(DropAll(index, init, id), last, id);
      assert forall k :: k in keys <==> k in init || k == last;
      FilterTwice(Lookup(index, last), Other(id), Other(id), Other(id));
    }
  }

  lemma {:induction false} ListForMember<I, K>(postings: seq<Posting<I, K>>, k: K, id: I)
    ensures id in ListFor(postings, k) <==>
            exists i :: 0 <= i < |postings| && postings[i].id == id && k in postings[i].keys
  {
    if postings == [] {
    } else {
      ListForMember(postings[..|postings| - 1], k, id);
    }
  }

  lemma {:induction false} ListForConcat<I, K>(a: seq<Posting<I, K>>, b: seq<Posting<I, K>>, k: K)
    ensures ListFor(a + b, k) == ListFor(a, k) + ListFor(b, k)
  {
    if b == [] {
      assert a + b == a;
    } else {
      assert (a + b)[..|a + b| - 1] == a + b[..|b| - 1];
      ListForConcat(a, b[..|b| - 1], k);
    }
  }

  /** Filing a new posting keeps the index exact, however its keys repeat. */
  lemma PushExact<I, K(!new)>(index: map<K, seq<I>>, postings: seq<Posting<I, K>>, p: Posting<I, K>)
    requires Exact(index, postings) && forall i :: 0 <= i < |postings| ==> postings[i].id != p.id
    ensures Exact(PushAll(index, p.keys, p.id), postings + [p])
  {
    forall k ensures p.id !in Lookup(index, k) {
      ListForMember(postings, k, p.id);
    }
    PushAllLookup(index, p.keys, p.id);
    assert (postings + [p])[..|postings|] == postings;
  }

  /** Taking a posting out keeps the index exact. */
  lemma DropExact<I, K(!new)>(index: map<K, seq<I>>, postings: seq<Posting<I, K>>, at: nat)
    requires Exact(index, postings) && DistinctIds(postings) && at < |postings|
    ensures Exact(DropAll(index, postings[at].keys, postings[at].id), RemoveAt(postings, at))
  {
    hide RemoveAt, Filter, DropAll;
    var p := postings[at];
    DropAllLookup(index, p.keys, p.id);
    forall k ensures Lookup(DropAll(index, p.keys, p.id), k) == ListFor(RemoveAt(postings, at), k) {
      DropOne(postings, at, k);
      assert Lookup(index, k) == ListFor(postings, k);
    }
  }

  lemma DropOne<I, K>(postings: seq<Posting<I, K>>, at: nat, k: K)
    requires DistinctIds(postings) && at < |postings|
    ensures Filter(ListFor(postings, k), Other(postings[at].id)) == ListFor(RemoveAt(postings, at), k)
    ensures k !in postings[at].keys ==> ListFor(postings, k) == ListFor(RemoveAt(postings, at), k)
  {
    hide ListFor, Filter;
    var p := postings[at];
    var front, back := postings[..at], postings[at + 1..];
    SplitAt(postings, at);
    ListOfOne(p, k);
    ListForConcat(front + [p], back, k);
    ListForConcat(front, [p], k);
    ListForConcat(front, back, k);
    Untouched(front, k, p.id);
    Untouched(back, k, p.id);
    DropMiddle(ListFor(front, k), ListFor([p], k), ListFor(back, k), p.id);
  }

  lemma ListOfOne<I, K>(p: Posting<I, K>, k: K)
    ensures ListFor([p], k) == if k in p.keys then [p.id] else []
  {}

  lemma DropMiddle<I>(front: seq<I>, middle: seq<I>, back: seq<I>, id: I)
    requires middle == [] || middle == [id]
    requires Filter(front, Other(id)) == front && Filter(back, Other(id)) == back
    ensures Filter(front + middle + back, Other(id)) == front + back
    ensures middle == [] ==> front + middle + back == front + back
  {
    FilterConcat(front + middle, back, Other(id));
    FilterConcat(front, middle, Other(id));
    assert Filter(middle, Other(id)) == [];
  }

  lemma Untouched<I, K>(postings: seq<Posting<I, K>>, k: K, id: I)
    requires forall i :: 0 <= i < |postings| ==> postings[i].id != id
    ensures Filter(ListFor(postings, k), Other(id)) == ListFor(postings, k)
  {
    ListForMember(postings, k, id);
    NothingToDrop(ListFor(postings, k), id);
  }

  lemma {:induction false} NothingToDrop<I>(ids: seq<I>, id: I)
    requires id !in ids
    ensures Filter(ids, Other(id)) == ids
  {
    if ids == [] {
    } else {
      NothingToDrop(ids[..|ids| - 1], id);
      assert ids == ids[..|ids| - 1] + [ids[|ids| - 1]];
    }
  }

  /** Rebuilding gives the exact index. */
  lemma {:induction false} RebuildExact<I, K(!new)>(postings: seq<Posting<I, K>>)
    requires DistinctIds(postings)
    ensures Exact(Rebuild(postings), postings)
  {
    if postings == [] {
    } else {
      var init, last := postings[..|postings| - 1], postings[|postings| - 1];
      RebuildExact(init);
      PushExact(Rebuild(init), init, last);
      assert postings == init + [last];
    }
  }
}
