/** The audit trail of uploads: one index by upload, one by document, and the index file they are reloaded from. */
module UploadHistory {
  import opened Collections
  import opened StableSort
  import opened Documents
  import P = Postings

  const MAX_USER_CONTEXT_BYTES: nat := 1024

  function ByDocument(u: Upload): P.Posting<UploadId, DocumentId> {
    P.Posting(u.uploadId, [u.documentId])
  }

  /** The uploads in the order they were recorded. */
  function Recorded(uploads: JsMap<UploadId, Upload>): (r: seq<Upload>)
    requires uploads.Valid()
    ensures |r| == |uploads.order| && forall i :: 0 <= i < |r| ==> r[i] == uploads.items[uploads.order[i]]
  {
    seq(|uploads.order|, i requires 0 <= i < |uploads.order| => uploads.items[uploads.order[i]])
  }

  predicate NewestUploadFirst(a: Upload, b: Upload) {
    a.uploadedAt >= b.uploadedAt
  }

  predicate OldestUploadFirst(a: Upload, b: Upload) {
    a.uploadedAt <= b.uploadedAt
  }

  /** The uploads recorded for a document, in order. */
  function UploadsOf(all: seq<Upload>, documentId: DocumentId): seq<Upload> {
    Filter(all, (u: Upload) => u.documentId == documentId)
  }

  /** The count is the number of recorded uploads of the document, and the date that of the earliest one. */
  ghost predicate Tells(all: seq<Upload>, documentId: DocumentId, count: nat, first: Option<int>) {
    var mine := UploadsOf(all, documentId);
    && count == |mine| && (first.None? <==> mine == [])
    && (first.Some? ==>
          && (forall u :: u in mine ==> first.value <= u.uploadedAt)
          && exists u :: u in mine && u.uploadedAt == first.value)
  }

  function IdOf(u: Upload): UploadId { u.uploadId }

  lemma {:induction false} GroupedIds(all: seq<Upload>, documentId: DocumentId)
    ensures P.ListFor(Map(all, ByDocument), documentId) == Map(UploadsOf(all, documentId), IdOf)
  {
    if all == [] {
    } else {
      var init := all[..|all| - 1];
      GroupedIds(init, documentId);
      assert Map(all, ByDocument)[..|all| - 1] == Map(init, ByDocument);
    }
  }

  class UploadHistoryManager {
    var uploadIndex: JsMap<UploadId, Upload>
    var documentUploads: map<DocumentId, seq<UploadId>>
    /** The index file: its entries in the order they were written. */
    var indexFile: seq<Upload>

    ghost predicate Valid()
      reads this
    {
      && uploadIndex.Valid()
      && (forall id :: id in uploadIndex.items ==> uploadIndex.items[id].uploadId == id)
      && P.Exact(documentUploads, Map(Recorded(uploadIndex), ByDocument))
      && indexFile == Recorded(uploadIndex)
    }

    /** Everything recorded so far. */
    ghost function All(): seq<Upload>
      requires Valid()
      reads this
    {
      Recorded(uploadIndex)
    }

    constructor (indexFile: seq<Upload>)
      ensures uploadIndex == JsMap([], map[]) && documentUploads == map[] && this.indexFile == indexFile
    {
      uploadIndex, documentUploads := JsMap([], map[]), map[];
      this.indexFile := indexFile;
    }

    /** File one upload under its document, as recording and reloading both do. */
    method File(u: Upload)
      requires uploadIndex.Valid() && u.uploadId !in uploadIndex.items
      requires forall id :: id in uploadIndex.items ==> uploadIndex.items[id].uploadId == id
      requires P.Exact(documentUploads, Map(Recorded(uploadIndex), ByDocument))
      modifies this`uploadIndex, this`documentUploads
      ensures uploadIndex == old(uploadIndex).Set(u.uploadId, u) && uploadIndex.Valid()
      ensures forall id :: id in uploadIndex.items ==> uploadIndex.items[id].uploadId == id
      ensures Recorded(uploadIndex) == old(Recorded(uploadIndex)) + [u]
      ensures P.Exact(documentUploads, Map(Recorded(uploadIndex), ByDocument))
    {
      hide P.Exact, P.Lookup, Recorded, Map, JsMap.Valid;
      FileExact(uploadIndex, documentUploads, u);
      uploadIndex := uploadIndex.Set(u.uploadId, u);
      var uploads := P.Lookup(documentUploads, u.documentId);
      documentUploads := documentUploads[u.documentId := uploads + [u.uploadId]];
    }

    /** Load the index file into a fresh manager. */
    method Initialize()
      requires uploadIndex == JsMap([], map[]) && documentUploads == map[]
      requires forall i, j :: 0 <= i < j < |indexFile| ==> indexFile[i].uploadId != indexFile[j].uploadId
      modifies this`uploadIndex, this`documentUploads
      ensures Valid() && All() == indexFile
    {
      hide P.Exact, Recorded, Map, JsMap.Valid, JsMap.Set;
      NothingRecorded(uploadIndex);
      for i := 0 to |indexFile|
        invariant uploadIndex.Valid() && Recorded(uploadIndex) == indexFile[..i]
        invariant forall id :: id in uploadIndex.items ==> uploadIndex.items[id].uploadId == id
        invariant P.Exact(documentUploads, Map(Recorded(uploadIndex), ByDocument))
      {
        TakeNext(indexFile, i);
        NotYetFiled(uploadIndex, indexFile, i);
        File(indexFile[i]);
      }
      TakeAll(indexFile);
    }

    method RecordUpload(u: Upload, contextBytes: nat) returns (r: Result<Upload, StoreError>)
      requires Valid() && u.uploadId !in uploadIndex.items
      modifies this
      ensures Valid()
      ensures r == if contextBytes > 1024 then Err(ContextTooLarge) else Ok(u)
      ensures All() == if r.Ok? then old(All()) + [u] else old(All())
    {
      hide P.Exact, Recorded, Map, JsMap.Valid;
      if contextBytes > MAX_USER_CONTEXT_BYTES {
        r := Err(ContextTooLarge);
      } else {
        File(u);
        indexFile := Recorded(uploadIndex);
        r := Ok(u);
      }
    }

    /** The uploads of a document, newest first. */
    function GetUploadHistory(documentId: DocumentId): seq<Upload>
      requires Valid()
      reads this
    {
      Sort(Present(P.Lookup(documentUploads, documentId)), NewestUploadFirst)
    }

    function Present(ids: seq<UploadId>): seq<Upload>
      reads this
    {
      if ids == [] then []
      else
        var last := ids[|ids| - 1];
        Present(ids[..|ids| - 1]) + if last in uploadIndex.items then [uploadIndex.items[last]] else []
    }

    function GetUploadCount(documentId: DocumentId): nat
      reads this
    {
      |P.Lookup(documentUploads, documentId)|
    }

    function GetFirstUploadDate(documentId: DocumentId): Option<int>
      requires Valid()
      reads this
    {
      var uploads := GetUploadHistory(documentId);
      if uploads == [] then None
      else
        SortLength(uploads, OldestUploadFirst);
        Some(Sort(uploads, OldestUploadFirst)[0].uploadedAt)
    }

    /** The count is the number of recorded uploads of that document, and the history is those uploads, newest first. */
    lemma HistoryIsGrouping(documentId: DocumentId)
      requires Valid()
      ensures GetUploadCount(documentId) == |UploadsOf(All(), documentId)|
      ensures IsStableSort(UploadsOf(All(), documentId), GetUploadHistory(documentId), NewestUploadFirst)
      ensures forall i, j :: 0 <= i < j < |GetUploadHistory(documentId)| ==>
                GetUploadHistory(documentId)[i].uploadedAt >= GetUploadHistory(documentId)[j].uploadedAt
      ensures multiset(GetUploadHistory(documentId)) == multiset(UploadsOf(All(), documentId))
    {
      SortPermutes(UploadsOf(All(), documentId), NewestUploadFirst);
      PresentHistory(documentId);
      SortIsStable(UploadsOf(All(), documentId), NewestUploadFirst);
    }

    lemma PresentHistory(documentId: DocumentId)
      requires Valid()
      ensures Present(P.Lookup(documentUploads, documentId)) == UploadsOf(All(), documentId)
      ensures |P.Lookup(documentUploads, documentId)| == |UploadsOf(All(), documentId)|
    {
      hide Filter, Present, Recorded, P.ListFor, P.NoEmpty, P.Lookup, UploadsOf;
      var mine := UploadsOf(All(), documentId);
      GroupedIds(All(), documentId);
      assert P.Lookup(documentUploads, documentId) == Map(mine, IdOf);
      UploadsIndexed(uploadIndex, documentId);
      PresentAll(mine);
    }

    lemma {:induction false} PresentAll(us: seq<Upload>)
      requires forall i :: 0 <= i < |us| ==>
              us[i].uploadId in uploadIndex.items && uploadIndex.items[us[i].uploadId] == us[i]
      ensures Present(Map(us, IdOf)) == us
    {
      if us == [] {
      } else {
        PresentAll(us[..|us| - 1]);
        assert Map(us, IdOf)[..|us| - 1] == Map(us[..|us| - 1], IdOf);
        assert us == us[..|us| - 1] + [us[|us| - 1]];
      }
    }

    /** What a duplicate upload is told about its document is the truth. */
    lemma HistoryTells(documentId: DocumentId)
      requires Valid()
      ensures Tells(All(), documentId, GetUploadCount(documentId), GetFirstUploadDate(documentId))
    {
      hide UploadsOf, GetUploadHistory;
      HistoryIsGrouping(documentId);
      FirstUploadIsEarliest(documentId);
    }

    /** The first upload date is the earliest of the document's uploads, and there is one iff it was uploaded. */
    lemma FirstUploadIsEarliest(documentId: DocumentId)
      requires Valid()
      ensures GetFirstUploadDate(documentId).None? <==> UploadsOf(All(), documentId) == []
      ensures forall u :: u in UploadsOf(All(), documentId) ==> GetFirstUploadDate(documentId).value <= u.uploadedAt
      ensures GetFirstUploadDate(documentId).Some? ==>
                exists u :: u in UploadsOf(All(), documentId) && u.uploadedAt == GetFirstUploadDate(documentId).value
    {
      hide Filter, Present, Sort;
      var mine := UploadsOf(All(), documentId);
      var newest := GetUploadHistory(documentId);
      PresentHistory(documentId);
      SortPermutes(mine, NewestUploadFirst);
      SortPermutes(newest, OldestUploadFirst);
      SortLength(mine, NewestUploadFirst);
      var oldest := Sort(newest, OldestUploadFirst);
      SortIsStable(newest, OldestUploadFirst);
      assert multiset(oldest) == multiset(mine);
      if mine != [] {
        SortLength(newest, OldestUploadFirst);
        assert oldest[0] in multiset(oldest);
        assert oldest[0] in mine;
        forall u | u in mine ensures oldest[0].uploadedAt <= u.uploadedAt {
          assert u in multiset(mine);
          assert u in multiset(oldest);
          var i :| 0 <= i < |oldest| && oldest[i] == u;
        }
      }
    }
  }

  lemma UploadsIndexed(uploads: JsMap<UploadId, Upload>, documentId: DocumentId)
    requires uploads.Valid() && forall id :: id in uploads.items ==> uploads.items[id].uploadId == id
    ensures forall u :: u in UploadsOf(Recorded(uploads), documentId) ==>
            u.uploadId in uploads.items && uploads.items[u.uploadId] == u
  {
    forall u | u in UploadsOf(Recorded(uploads), documentId)
      ensures u.uploadId in uploads.items && uploads.items[u.uploadId] == u
    {
      FilterMember(Recorded(uploads), (v: Upload) => v.documentId == documentId, u);
      var j :| 0 <= j < |uploads.order| && Recorded(uploads)[j] == u;
    }
  }

  lemma NothingRecorded(uploads: JsMap<UploadId, Upload>)
    requires uploads == JsMap([], map[])
    ensures uploads.Valid() && Recorded(uploads) == [] && P.Exact(map[], Map(Recorded(uploads), ByDocument))
  {}

  lemma NotYetFiled(uploads: JsMap<UploadId, Upload>, file: seq<Upload>, n: nat)
    requires uploads.Valid() && n < |file| && Recorded(uploads) == file[..n]
    requires forall id :: id in uploads.items ==> uploads.items[id].uploadId == id
    requires forall i, j :: 0 <= i < j < |file| ==> file[i].uploadId != file[j].uploadId
    ensures file[n].uploadId !in uploads.items
  {
    forall id | id in uploads.items ensures id != file[n].uploadId {
      var j :| 0 <= j < |uploads.order| && uploads.order[j] == id;
      assert Recorded(uploads)[j] == file[j];
    }
  }

  /** Filing a new upload appends it to the record and to its document's list only. */
  lemma FileExact(uploads: JsMap<UploadId, Upload>, index: map<DocumentId, seq<UploadId>>, u: Upload)
    requires uploads.Valid() && u.uploadId !in uploads.items
    requires forall id :: id in uploads.items ==> uploads.items[id].uploadId == id
    requires P.Exact(index, Map(Recorded(uploads), ByDocument))
    ensures uploads.Set(u.uploadId, u).Valid()
    ensures Recorded(uploads.Set(u.uploadId, u)) == Recorded(uploads) + [u]
    ensures P.Exact(index[u.documentId := P.Lookup(index, u.documentId) + [u.uploadId]],
                    Map(Recorded(uploads.Set(u.uploadId, u)), ByDocument))
  {
    hide P.Exact, P.Lookup, P.PushAll, Recorded, Map, JsMap.Valid;
    RecordNext(uploads, u);
    MapNext(Recorded(uploads), u);
    P.PushExact(index, Map(Recorded(uploads), ByDocument), ByDocument(u));
    PushIsAppend(index, Map(Recorded(uploads), ByDocument), u);
  }

  lemma RecordNext(uploads: JsMap<UploadId, Upload>, u: Upload)
    requires uploads.Valid() && u.uploadId !in uploads.items
    requires forall id :: id in uploads.items ==> uploads.items[id].uploadId == id
    ensures uploads.Set(u.uploadId, u).Valid()
    ensures Recorded(uploads.Set(u.uploadId, u)) == Recorded(uploads) + [u]
    ensures forall i :: 0 <= i < |Recorded(uploads)| ==> Map(Recorded(uploads), ByDocument)[i].id != u.uploadId
  {
    uploads.SetValid(u.uploadId, u);
    forall i | 0 <= i < |Recorded(uploads)| ensures Recorded(uploads)[i].uploadId != u.uploadId {
      assert uploads.order[i] in uploads.items;
    }
  }

  lemma MapNext(us: seq<Upload>, u: Upload)
    ensures Map(us + [u], ByDocument) == Map(us, ByDocument) + [ByDocument(u)]
  {}

  lemma PushIsAppend(index: map<DocumentId, seq<UploadId>>, postings: seq<P.Posting<UploadId, DocumentId>>, u: Upload)
    requires P.Exact(index, postings) && forall i :: 0 <= i < |postings| ==> postings[i].id != u.uploadId
    ensures P.PushAll(index, [u.documentId], u.uploadId)
            == index[u.documentId := P.Lookup(index, u.documentId) + [u.uploadId]]
  {
    assert P.Lookup(index, u.documentId) == P.ListFor(postings, u.documentId);
    P.ListForMember(postings, u.documentId, u.uploadId);
    assert [u.documentId][..0] == [];
  }

  /** Saving and reloading into a fresh manager gives back both indexes. */
  method Reload(m: UploadHistoryManager) returns (n: UploadHistoryManager)
    requires m.Valid()
    ensures fresh(n) && n.Valid() && n.uploadIndex == m.uploadIndex && n.documentUploads == m.documentUploads
  {
    n := new UploadHistoryManager(m.indexFile);
    n.Initialize();
    SameRecord(m.uploadIndex, n.uploadIndex);
    P.ExactIsUnique(m.documentUploads, n.documentUploads, Map(m.indexFile, ByDocument));
  }

  lemma SameRecord(a: JsMap<UploadId, Upload>, b: JsMap<UploadId, Upload>)
    requires a.Valid() && b.Valid() && Recorded(a) == Recorded(b)
    requires forall id :: id in a.items ==> a.items[id].uploadId == id
    requires forall id :: id in b.items ==> b.items[id].uploadId == id
    ensures a == b
  {
    assert |a.order| == |b.order|;
    forall i | 0 <= i < |a.order| ensures a.order[i] == b.order[i] && a.items[a.order[i]] == b.items[b.order[i]] {
      assert Recorded(a)[i] == Recorded(b)[i];
    }
    assert a.order == b.order;
    assert a.items == b.items;
  }
}
