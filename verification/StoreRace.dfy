/**
 * Storing documents under interleaved submissions: the quota and duplicate tests come before the awaits that register.
 */
module StoreRace {
  import opened Collections
  import opened Documents

  datatype Doc = Doc(id: DocumentId, checksum: string, size: nat)

  datatype Admission = QuotaExceeded | Duplicate(id: DocumentId) | Admitted

  function Total(docs: seq<Doc>): nat {
    if docs == [] then 0 else Total(docs[..|docs| - 1]) + docs[|docs| - 1].size
  }

  function Copy(checksum: string): Doc -> bool {
    (d: Doc) => d.checksum == checksum
  }

  function Copies(docs: seq<Doc>, checksum: string): nat {
    |Filter(docs, Copy(checksum))|
  }

  /** What `peak` stores past the tests at once can add to the quota, none of them larger than `largest`. */
  function Excess(peak: nat, largest: nat): nat {
    if peak == 0 then 0 else (peak - 1) * largest
  }

  ghost predicate Within(docs: seq<Doc>, largest: nat) {
    forall i :: 0 <= i < |docs| ==> docs[i].size <= largest
  }

  /** Ids are fresh. */
  ghost predicate NewId(docs: seq<Doc>, id: DocumentId) {
    forall i :: 0 <= i < |docs| ==> docs[i].id != id
  }

  /**
   * Registered documents and stores past the tests, with the most of them ever at once and the largest ever admitted.
   */
  ghost predicate Bounded(live: seq<Doc>, flight: seq<Doc>, peak: nat, largest: nat, quota: nat) {
    && |flight| <= peak && Within(live, largest) && Within(flight, largest)
    && Total(live) + Total(flight) <= quota + Excess(peak, largest)
    && forall checksum :: Copies(live, checksum) + Copies(flight, checksum) <= peak
  }

  // Sums and counts

  lemma AddOne(docs: seq<Doc>, d: Doc)
    ensures Total(docs + [d]) == Total(docs) + d.size
    ensures forall checksum ::
              Copies(docs + [d], checksum) == Copies(docs, checksum) + if d.checksum == checksum then 1 else 0
  {
    assert (docs + [d])[..|docs|] == docs;
  }

  lemma {:induction false} TakeOne(docs: seq<Doc>, at: nat)
    requires at < |docs|
    ensures Total(RemoveAt(docs, at)) == Total(docs) - docs[at].size
    ensures forall checksum ::
              Copies(RemoveAt(docs, at), checksum) == Copies(docs,
                                                             checksum) - if docs[at].checksum == checksum then 1 else 0
  {
    hide Total, Copies;
    var init, last := docs[..|docs| - 1], docs[|docs| - 1];
    assert docs == init + [last];
    AddOne(init, last);
    if at == |init| {
      assert RemoveAt(docs, at) == init;
    } else {
      TakeOne(init, at);
      assert RemoveAt(docs, at) == RemoveAt(init, at) + [last];
      AddOne(RemoveAt(init, at), last);
    }
  }

  lemma {:induction false} TotalWithin(docs: seq<Doc>, largest: nat)
    requires Within(docs, largest)
    ensures Total(docs) <= |docs| * largest
  {
    if docs == [] {
    } else {
      TotalWithin(docs[..|docs| - 1], largest);
      assert |docs| * largest == (|docs| - 1) * largest + largest;
    }
  }

  lemma {:induction false} CopiesAtMost(docs: seq<Doc>, checksum: string)
    ensures Copies(docs, checksum) <= |docs|
  {
    if docs == [] {
    } else {
      CopiesAtMost(docs[..|docs| - 1], checksum);
    }
  }

  lemma {:induction false} NoCopy(docs: seq<Doc>, checksum: string)
    requires forall i :: 0 <= i < |docs| ==> docs[i].checksum != checksum
    ensures Copies(docs, checksum) == 0
  {
    if docs == [] {
    } else {
      NoCopy(docs[..|docs| - 1], checksum);
    }
  }

  lemma ExcessGrows(flight: nat, peak: nat, small: nat, large: nat)
    requires flight < peak && small <= large
    ensures flight * large <= Excess(peak, large) && Excess(peak, small) <= Excess(peak, large)
  {
    Times(flight, peak - 1, large);
    Times(small, large, peak - 1);
  }

  lemma Times(a: nat, b: nat, c: nat)
    requires a <= b
    ensures a * c <= b * c
  {}

  /** Passing the tests keeps the bounds, however many have passed before. */
  lemma AdmitBounded(live: seq<Doc>, flight: seq<Doc>, peak: nat, largest: nat, quota: nat, d: Doc)
    requires Bounded(live, flight, peak, largest, quota)
    requires Total(live) + d.size <= quota && forall i :: 0 <= i < |live| ==> live[i].checksum != d.checksum
    ensures Bounded(live, flight + [d], Max(peak, |flight| + 1), Max(largest, d.size), quota)
  {
    hide Total, Copies, Excess;
    var flight', peak', largest' := flight + [d], Max(peak, |flight| + 1), Max(largest, d.size);
    AddOne(flight, d);
    NoCopy(live, d.checksum);
    CopiesAtMost(flight', d.checksum);
    TotalWithin(flight, largest');
    ExcessGrows(|flight|, peak', largest, largest');
  }

  function Max(a: nat, b: nat): nat {
    if a < b then b else a
  }

  lemma LandBounded(live: seq<Doc>, flight: seq<Doc>, peak: nat, largest: nat, quota: nat, at: nat)
    requires Bounded(live, flight, peak, largest, quota) && at < |flight|
    ensures Bounded(live + [flight[at]], RemoveAt(flight, at), peak, largest, quota)
  {
    hide Total, Copies, Excess, RemoveAt;
    TakeOne(flight, at);
    AddOne(live, flight[at]);
  }

  lemma FailBounded(live: seq<Doc>, flight: seq<Doc>, peak: nat, largest: nat, quota: nat, at: nat)
    requires Bounded(live, flight, peak, largest, quota) && at < |flight|
    ensures Bounded(live, RemoveAt(flight, at), peak, largest, quota)
  {
    hide Total, Copies, Excess, RemoveAt;
    TakeOne(flight, at);
  }

  lemma DeleteBounded(live: seq<Doc>, flight: seq<Doc>, peak: nat, largest: nat, quota: nat, at: nat)
    requires Bounded(live, flight, peak, largest, quota) && at < |live|
    ensures Bounded(RemoveAt(live, at), flight, peak, largest, quota)
  {
    hide Total, Copies, Excess, RemoveAt;
    TakeOne(live, at);
  }

  /** One method per synchronous segment of a store: between them any other segment may run. */
  class ConcurrentStore {
    const quotaBytes: nat

    /** The registered documents, in order. */
    var live: seq<Doc>

    /** Stores past the tests and not registered yet; the most at once so far; the largest admitted so far. */
    ghost var flight: seq<Doc>
    ghost var peak: nat
    ghost var largest: nat

    ghost predicate Valid()
      reads this
    {
      Bounded(live, flight, peak, largest, quotaBytes)
    }

    constructor (quotaBytes: nat)
      ensures Valid() && this.quotaBytes == quotaBytes && live == [] && flight == [] && peak == 0 && largest == 0
    {
      this.quotaBytes := quotaBytes;
      live, flight, peak, largest := [], [], 0, 0;
    }

    /** Quota, then duplicates, up to the first await. */
    method Test(d: Doc) returns (r: Admission)
      requires Valid() && NewId(live, d.id) && NewId(flight, d.id)
      modifies this`flight, this`peak, this`largest
      ensures Valid()
      ensures r.QuotaExceeded? <==> Total(live) + d.size > quotaBytes
      ensures r.Admitted? <==>
                Total(live) + d.size <= quotaBytes && forall i :: 0 <= i < |live| ==> live[i].checksum != d.checksum
      ensures r.Duplicate? ==> exists i :: 0 <= i < |live| && live[i].id == r.id && live[i].checksum == d.checksum
      ensures flight == if r.Admitted? then old(flight) + [d] else old(flight)
      ensures peak == if r.Admitted? then Max(old(peak), |flight|) else old(peak)
      ensures largest == if r.Admitted? then Max(old(largest), d.size) else old(largest)
    {
      hide Bounded, Total;
      if Total(live) + d.size > quotaBytes {
        r := Admission.QuotaExceeded;
      } else {
        var existing := FindIndex(live, Copy(d.checksum));
        if existing.Some? {
          r := Duplicate(live[existing.value].id);
        } else {
          AdmitBounded(live, flight, peak, largest, quotaBytes, d);
          r := Admitted;
          flight, peak, largest := flight + [d], Max(peak, |flight| + 1), Max(largest, d.size);
        }
      }
    }

    /** The record is set after the upload and the file have been written, without another test. */
    method Land(at: nat, d: Doc)
      requires Valid() && at < |flight| && flight[at] == d
      modifies this`live, this`flight
      ensures Valid() && live == old(live) + [d] && flight == RemoveAt(old(flight), at)
    {
      hide Bounded, RemoveAt;
      LandBounded(live, flight, peak, largest, quotaBytes, at);
      live, flight := live + [d], RemoveAt(flight, at);
    }

    /** The upload is refused or a write fails. */
    ghost method Fail(at: nat)
      requires Valid() && at < |flight|
      modifies this`flight
      ensures Valid() && flight == RemoveAt(old(flight), at)
    {
      hide Bounded, RemoveAt;
      FailBounded(live, flight, peak, largest, quotaBytes, at);
      flight := RemoveAt(flight, at);
    }

    method Delete(at: nat)
      requires Valid() && at < |live|
      modifies this`live
      ensures Valid() && live == RemoveAt(old(live), at)
    {
      hide Bounded, RemoveAt;
      DeleteBounded(live, flight, peak, largest, quotaBytes, at);
      live := RemoveAt(live, at);
    }
  }

  /**
   * With at most `f` stores ever past the tests at once, no content is registered more than `f` times and the quota is
   * exceeded by at most `f - 1` documents of the largest size; so one at a time keeps both promises.
   */
  lemma StoresBounded(s: ConcurrentStore, f: nat, checksum: string)
    requires s.Valid() && s.peak <= f && f >= 1
    ensures Copies(s.live, checksum) <= f && Total(s.live) <= s.quotaBytes + (f - 1) * s.largest
  {
    if s.peak > 0 {
      Times(s.peak - 1, f - 1, s.largest);
    }
  }

  /** Stores of one content, under consecutive ids. */
  ghost predicate Alike(docs: seq<Doc>, first: nat, checksum: string, size: nat) {
    forall j :: 0 <= j < |docs| ==> docs[j] == Doc(DocumentId(first + j), checksum, size)
  }

  lemma NoneAlike(checksum: string, size: nat)
    ensures Alike([], 0, checksum, size)
  {}

  lemma OneMoreAlike(docs: seq<Doc>, checksum: string, size: nat)
    requires Alike(docs, 0, checksum, size)
    ensures NewId(docs, DocumentId(|docs|))
    ensures Alike(docs + [Doc(DocumentId(|docs|), checksum, size)], 0, checksum, size)
  {}

  lemma OneLessAlike(docs: seq<Doc>, first: nat, checksum: string, size: nat)
    requires Alike(docs, first, checksum, size) && docs != []
    ensures docs[0] == Doc(DocumentId(first), checksum, size) && Alike(RemoveAt(docs, 0), first + 1, checksum, size)
  {}

  /** Both bounds are reached at once, for every `f`, content and size. */
  method ReachBounds(checksum: string, size: nat, f: nat) returns (s: ConcurrentStore)
    requires f >= 1
    ensures fresh(s) && s.Valid() && s.quotaBytes == size && s.peak == f && s.largest == size
    ensures Copies(s.live, checksum) == f && Total(s.live) == s.quotaBytes + (f - 1) * s.largest
  {
    hide Bounded, Total, Copies, RemoveAt, Alike;
    s := new ConcurrentStore(size);
    NothingStored(checksum);
    NoneAlike(checksum, size);
    for i := 0 to f
      invariant fresh(s) && s.Valid() && s.quotaBytes == size && s.live == [] && |s.flight| == s.peak == i
      invariant Alike(s.flight, 0, checksum, size)
      invariant s.largest == if i == 0 then 0 else size
    {
      OneMoreAlike(s.flight, checksum, size);
      var r := s.Test(Doc(DocumentId(i), checksum, size));
    }
    for i := 0 to f
      invariant fresh(s) && s.Valid() && s.quotaBytes == size && s.peak == f && s.largest == size
      invariant |s.flight| == f - i
      invariant Alike(s.flight, i, checksum, size)
      invariant Copies(s.live, checksum) == i && Total(s.live) == i * size
    {
      var d := Doc(DocumentId(i), checksum, size);
      OneLessAlike(s.flight, i, checksum, size);
      AddOne(s.live, d);
      s.Land(0, d);
    }
  }

  lemma NothingStored(checksum: string)
    ensures Total([]) == 0 && Copies([], checksum) == 0
  {}
}
