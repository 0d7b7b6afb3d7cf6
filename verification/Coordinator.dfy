/** Cache-aside reads and write-through updates: the cache in front of the document store. */
module Coordinator {
  import opened Collections
  import opened Documents
  import C = DocumentCache
  import D = Datastore
  import H = UploadHistory

  /** A cached document is the one the store would hand out now, metadata record included. */
  ghost predicate Coherent(cache: JsMap<DocumentId, C.CacheEntry<StoredDocument>>, metadata: D.Metadata,
                           files: map<DocumentId, Parsed>) {
    forall id :: id in cache.items ==>
      && id in metadata.items && id in files
      && cache.items[id].document == StoredDocument(id, files[id], metadata.items[id])
  }

  lemma KnownHaveFiles(s: D.Shelves, lower: string -> string, quotaBytes: nat)
    requires D.Consistent(s, lower, quotaBytes)
    ensures s.metadata.items.Keys <= s.files.Keys && s.metadata.items.Keys <= s.born.Keys
  {}

  /** A new document disturbs no cached one: its id was never used. */
  lemma AddedCoherent(cache: JsMap<DocumentId, C.CacheEntry<StoredDocument>>, s: D.Shelves, lower: string -> string,
                      quotaBytes: nat,
                      d: DocumentMetadata, parsed: Parsed)
    requires D.Consistent(s, lower, quotaBytes) && Coherent(cache, s.metadata, s.files) && d.info.id !in s.born
    ensures Coherent(cache, D.Added(s, lower, d, parsed).metadata, D.Added(s, lower, d, parsed).files)
  {
    hide D.Infos, D.TotalSize;
  }

  lemma StoredCoherent(cache: JsMap<DocumentId, C.CacheEntry<StoredDocument>>, before: D.Shelves, after: D.Shelves,
                       lower: string -> string,
                       quotaBytes: nat, newId: DocumentId, created: bool, parsed: Parsed)
    requires D.Consistent(before, lower, quotaBytes) && Coherent(cache, before.metadata, before.files)
    requires newId !in before.born
    requires if created then newId in after.metadata.items && after.metadata.items[newId].info.id == newId
                             && after == D.Added(before, lower, after.metadata.items[newId], parsed)
             else after == before
    ensures Coherent(cache, after.metadata, after.files)
  {
    hide D.Added, Coherent, D.Consistent;
    if created { AddedCoherent(cache, before, lower, quotaBytes, after.metadata.items[newId], parsed); }
  }

  lemma UpdatedCoherent(cache: JsMap<DocumentId, C.CacheEntry<StoredDocument>>, before: D.Shelves, after: D.Shelves,
                        lower: string -> string,
                        quotaBytes: nat, id: DocumentId, result: DocumentId, newId: DocumentId,
                        created: bool, parsed: Parsed)
    requires D.Consistent(before, lower, quotaBytes) && Coherent(cache, before.metadata, before.files)
    requires newId !in before.born
    requires D.UpdatedTo(before, after, lower, id, result, created, parsed)
    requires created ==> result == newId && after.metadata.items[newId].info.id == newId
    ensures Coherent(cache, after.metadata, after.files)
  {
    hide D.Added, Coherent, D.Consistent;
    if created { AddedCoherent(cache, before, lower, quotaBytes, after.metadata.items[newId], parsed); }
  }

  /** A deleted document may only be missed by its own cache entry. */
  lemma DroppedCoherent(cache: JsMap<DocumentId, C.CacheEntry<StoredDocument>>, s: D.Shelves, lower: string -> string,
                        id: DocumentId, unlinked: bool)
    requires Coherent(cache, s.metadata, s.files) && id in s.metadata.items
    ensures Coherent(cache.Delete(id), D.Dropped(s, lower, id, unlinked).metadata,
                     D.Dropped(s, lower, id, unlinked).files)
  {}

  /** Dropping entries, or adding what the store hands out, keeps the rest coherent. */
  lemma FewerCoherent(cache: JsMap<DocumentId, C.CacheEntry<StoredDocument>>, metadata: D.Metadata,
                      files: map<DocumentId, Parsed>, id: DocumentId)
    requires Coherent(cache, metadata, files)
    ensures Coherent(cache.Delete(id), metadata, files)
  {}

  class DocumentCoordinator {
    const datastore: D.DatastoreManager
    const cache: C.DocumentCache<DocumentId, StoredDocument>

    ghost predicate Valid()
      reads this, datastore, datastore.uploads, datastore.metadata.items.Values, cache
    {
      datastore.Valid() && cache.Valid() && Coherent(cache.cache, datastore.metadata, datastore.files)
    }

    constructor (datastore: D.DatastoreManager, cacheMaxSize: nat, now: int)
      requires datastore.Valid()
      ensures Valid() && this.datastore == datastore && fresh(cache) && cache.MAX_SIZE == cacheMaxSize
    {
      this.datastore := datastore;
      cache := new C.DocumentCache(cacheMaxSize, now);
    }

    /** Whatever the clock says and whatever has been evicted, the answer is the store's. */
    method GetDocument(id: DocumentId, now: int, later: int) returns (r: Option<StoredDocument>)
      requires Valid()
      modifies cache
      ensures Valid() && r == datastore.GetDocument(id)
    {
      hide D.Consistent, C.InStep, H.UploadHistoryManager.Valid, D.Mirrors, JsMap.Valid, C.RefGet, C.RefSet;
      hide C.RefAnswer;
      KnownHaveFiles(datastore.Here(), datastore.lower, datastore.quotaBytes);
      r := cache.Get(id, now);
      if r.None? {
        r := datastore.GetDocument(id);
        if r.Some? {
          cache.Set(id, r.value, later);
        }
      }
    }

    /** Write through: the store first, then the cache. */
    method StoreDocument(content: string, format: Format, o: Options, newId: DocumentId, uploadId: UploadId, now: int)
      returns (r: Result<StoreResult, StoreError>)
      requires Valid() && newId !in datastore.born && uploadId !in datastore.uploads.uploadIndex.items
      modifies datastore, datastore.uploads, cache
      ensures Valid()
      ensures r.Err? ==> datastore.Here() == old(datastore.Here()) && cache.cache == old(cache.cache)
      ensures r.Ok? ==> r.value.documentId in cache.cache.items
                        && datastore.GetDocument(r.value.documentId)
                           == Some(cache.cache.items[r.value.documentId].document)
      ensures old(datastore.Refusal(content, format, o.contextBytes)) == if r.Err? then Some(r.error) else None
      ensures r.Ok? ==> D.HasContent(datastore.metadata, r.value.documentId, datastore.sha256(content))
      ensures r.Ok? && !r.value.created ==> datastore.Here() == old(datastore.Here())
      ensures r.Ok? && r.value.created ==>
                && r.value.documentId == newId
                && datastore.Here() == D.Added(old(datastore.Here()), datastore.lower, datastore.metadata.items[newId],
                                               datastore.parse(format, content).GetOr(D.NOTHING))
      ensures r.Ok? ==> D.ReadsKept(old(datastore.Here()), datastore.Here())
      ensures r.Ok? && r.value.created ==>
                && datastore.parse(format, content).Some?
                && datastore.GetDocument(newId)
                   == Some(StoredDocument(newId, datastore.parse(format, content).value,
                                          datastore.metadata.items[newId]))
                && D.NewlyStored(old(datastore.Here()), datastore.Here(), datastore.lower, newId, content, format,
                                 datastore.sha256(content), o, datastore.parse(format, content).value)
    {
      hide D.Consistent, C.InStep, H.UploadHistoryManager.Valid, D.Mirrors, JsMap.Valid, C.RefSet, D.Added, Coherent;
      hide D.NewlyStored, D.ReadsKept, D.Read, D.DatastoreManager.Refusal;
      ghost var before := datastore.Here();
      r := datastore.StoreDocument(content, format, o, newId, uploadId, now);
      if r.Ok? {
        D.InOrder(datastore.Here(), datastore.lower, datastore.quotaBytes);
        ghost var parsed := datastore.parse(format, content).GetOr(D.NOTHING);
        StoredCoherent(cache.cache, before, datastore.Here(), datastore.lower, datastore.quotaBytes, newId,
                       r.value.created, parsed);
        CacheLatest(r.value.documentId, now);
      }
    }

    /** Put what the store hands out into the cache. */
    method CacheLatest(id: DocumentId, now: int)
      requires Valid() && id in datastore.metadata.items
      modifies cache
      ensures Valid() && id in cache.cache.items
      ensures datastore.GetDocument(id) == Some(cache.cache.items[id].document)
    {
      hide D.Consistent, C.InStep, H.UploadHistoryManager.Valid, D.Mirrors, JsMap.Valid, C.RefSet;
      KnownHaveFiles(datastore.Here(), datastore.lower, datastore.quotaBytes);
      var doc := datastore.GetDocument(id);
      if doc.Some? {
        cache.Set(id, doc.value, now);
      }
    }

    /** Update the store, forget the old version, cache the new one. */
    method UpdateDocument(id: DocumentId, content: string, format: Format, o: Options,
                          newId: DocumentId, uploadId: UploadId, now: int) returns (r: Result<DocumentId, StoreError>)
      requires Valid() && newId !in datastore.born && uploadId !in datastore.uploads.uploadIndex.items
      modifies datastore, datastore.uploads, datastore.metadata.items.Values, cache
      ensures r.Err? ==> datastore.Here() == old(datastore.Here()) && cache.cache == old(cache.cache)
      ensures r.Ok? ==> r.value in cache.cache.items
                        && datastore.GetDocument(r.value) == Some(cache.cache.items[r.value].document)
      ensures old(datastore.UpdateRefusal(id, content, format, o.contextBytes)) ==
              if r.Err? then Some(r.error) else None
      ensures r.Ok? ==> D.UpdatedTo(old(datastore.Here()), datastore.Here(), datastore.lower, id, r.value,
                                    !old(D.Known(datastore.metadata, datastore.sha256(content))),
                                    datastore.parse(format, content).GetOr(D.NOTHING))
      ensures r.Ok? ==> D.ReadsKept(old(datastore.Here()), datastore.Here())
      ensures r.Ok? && !old(D.Known(datastore.metadata, datastore.sha256(content))) ==>
                && r.value == newId
                && D.NewVersion(old(datastore.Here()), datastore.Here(), datastore.lower, newId, id, content, format,
                                datastore.sha256(content), o, datastore.parse(format, content).GetOr(D.NOTHING))
      ensures Valid()
    {
      hide D.Consistent, C.InStep, H.UploadHistoryManager.Valid, D.Mirrors, JsMap.Valid, D.Added, Coherent;
      hide D.UpdatedTo, D.Known, D.NewVersion, D.ReadsKept, D.Read, D.DatastoreManager.UpdateRefusal;
      ghost var before := datastore.Here();
      r := datastore.UpdateDocument(id, content, format, o, newId, uploadId, now);
      if r.Ok? {
        D.InOrder(datastore.Here(), datastore.lower, datastore.quotaBytes);
        ghost var parsed := datastore.parse(format, content).GetOr(D.NOTHING);
        UpdatedCoherent(cache.cache, before, datastore.Here(), datastore.lower, datastore.quotaBytes, id, r.value,
                        newId,
                        !D.Known(before.metadata, datastore.sha256(content)), parsed);
        FewerCoherent(cache.cache, datastore.metadata, datastore.files, id);
        cache.Invalidate(id);
        CacheLatest(r.value, now);
      }
    }

    /** Delete from the store, then from the cache. */
    method DeleteDocument(id: DocumentId, unlinked: bool) returns (r: Result<(), StoreError>)
      requires Valid()
      modifies datastore, cache
      ensures Valid()
      ensures r.Err? ==> datastore.Here() == old(datastore.Here()) && cache.cache == old(cache.cache)
      ensures r.Ok? ==> id !in cache.cache.items && datastore.GetDocument(id) == None
      ensures r == if id in old(datastore.metadata.items) then Ok(()) else Err(NotFound)
      ensures r.Ok? ==> datastore.Here() == D.Dropped(old(datastore.Here()), datastore.lower, id, unlinked)
      ensures r.Ok? ==> forall x :: x in old(datastore.metadata.items) && x != id ==>
                datastore.GetDocument(x) == old(datastore.GetDocument(x))
    {
      hide D.Consistent, C.InStep, H.UploadHistoryManager.Valid, D.Mirrors, JsMap.Valid, Coherent;
      ghost var before := datastore.Here();
      r := datastore.DeleteDocument(id, unlinked);
      if r.Ok? {
        DroppedCoherent(cache.cache, before, datastore.lower, id, unlinked);
        cache.Invalidate(id);
      }
    }

    /** The cache's own timer may sweep it between operations. */
    method SweepCache(now: int)
      requires Valid()
      modifies cache
      ensures Valid()
    {
      hide D.Consistent, C.InStep, H.UploadHistoryManager.Valid, JsMap.Valid;
      cache.Sweep(now);
    }
  }

  /** A new document is read back as it was parsed, whatever the clock says at the read. */
  method StoreThenRead(c: DocumentCoordinator, content: string, format: Format, o: Options, newId: DocumentId,
                       uploadId: UploadId, now: int, readAt: int, later: int)
    returns (r: Result<StoreResult, StoreError>, d: Option<StoredDocument>)
    requires c.Valid() && newId !in c.datastore.born && uploadId !in c.datastore.uploads.uploadIndex.items
    modifies c.datastore, c.datastore.uploads, c.cache
    ensures c.Valid()
    ensures r.Ok? && r.value.created ==>
              && r.value.documentId == newId && newId in c.datastore.metadata.items
              && c.datastore.parse(format, content).Some?
              && d == Some(StoredDocument(newId, c.datastore.parse(format, content).value,
                                          c.datastore.metadata.items[newId]))
    ensures r.Ok? && !r.value.created ==>
              && r.value.documentId in old(c.datastore.metadata.items)
              && r.value.documentId in old(c.datastore.contents)
              && d == Some(StoredDocument(r.value.documentId, old(c.datastore.contents)[r.value.documentId],
                                          old(c.datastore.metadata.items)[r.value.documentId]))
  {
    hide D.Consistent, C.InStep, H.UploadHistoryManager.Valid, D.Mirrors, JsMap.Valid, D.Added, Coherent;
    hide D.NewlyStored, D.ReadsKept, D.Read, D.DatastoreManager.Refusal, D.DatastoreManager.GetDocument;
    r := c.StoreDocument(content, format, o, newId, uploadId, now);
    d := None;
    if r.Ok? {
      if !r.value.created { c.datastore.ReadAsStored(r.value.documentId); }
      d := c.GetDocument(r.value.documentId, readAt, later);
    }
  }

  /** A new version is read back as it was parsed, with what the update did not say taken from the old record. */
  method UpdateThenRead(c: DocumentCoordinator, id: DocumentId, content: string, format: Format, o: Options,
                        newId: DocumentId, uploadId: UploadId, now: int, readAt: int, later: int)
    returns (r: Result<DocumentId, StoreError>, d: Option<StoredDocument>)
    requires c.Valid() && newId !in c.datastore.born && uploadId !in c.datastore.uploads.uploadIndex.items
    modifies c.datastore, c.datastore.uploads, c.datastore.metadata.items.Values, c.cache
    ensures c.Valid()
    ensures r.Ok? && !old(D.Known(c.datastore.metadata, c.datastore.sha256(content))) ==>
              && r == Ok(newId) && d.Some? && id in old(c.datastore.metadata.items)
              && d.value.id == newId && d.value.content == c.datastore.parse(format, content).GetOr(D.NOTHING)
              && D.TakesOver(d.value.metadata.info, o, old(c.datastore.metadata.items)[id].info)
              && D.FromContent(d.value.metadata.info, content, format, c.datastore.sha256(content), d.value.content)
  {
    hide D.Consistent, C.InStep, H.UploadHistoryManager.Valid, D.Mirrors, JsMap.Valid, D.Added, Coherent;
    hide D.TakesOver, D.FromContent, D.ReadsKept, D.Filed, D.Known, D.UpdatedTo, D.DatastoreManager.UpdateRefusal;
    r := c.UpdateDocument(id, content, format, o, newId, uploadId, now);
    d := None;
    if r.Ok? {
      d := c.GetDocument(r.value, readAt, later);
    }
  }
}
