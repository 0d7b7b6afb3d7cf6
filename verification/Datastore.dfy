/** The permanent document store: metadata, files, search index, dedup by checksum, quota and version links. */
module Datastore {
  import opened Collections
  import opened Documents
  import opened StableSort
  import opened VersionLinks
  import H = UploadHistory
  import P = Postings
  import S = SearchIndex

  type Metadata = JsMap<DocumentId, DocumentMetadata>

  /** The map is keyed by the ids of the records in it. */
  ghost predicate Keyed(m: Metadata) {
    m.Valid() && forall id :: id in m.items ==> m.items[id].info.id == id
  }

  /** What the records say, in the map's order. */
  ghost function Infos(m: Metadata): (r: seq<Info>)
    requires m.Valid()
    ensures |r| == |m.order| && forall i :: 0 <= i < |r| ==> r[i] == m.items[m.order[i]].info
  {
    seq(|m.order|, i requires 0 <= i < |m.order| => m.items[m.order[i]].info)
  }

  function TotalSize(infos: seq<Info>): nat {
    if infos == [] then 0 else TotalSize(infos[..|infos| - 1]) + infos[|infos| - 1].size
  }

  ghost predicate DistinctChecksums(infos: seq<Info>) {
    forall i, j :: 0 <= i < j < |infos| ==> infos[i].checksum != infos[j].checksum
  }

  lemma InfosDistinct(m: Metadata)
    requires Keyed(m)
    ensures S.DistinctIds(Infos(m))
  {
    forall i, j | 0 <= i < j < |m.order| ensures Infos(m)[i].id != Infos(m)[j].id {
      assert m.order[i] in m.items && m.order[j] in m.items;
    }
  }

  lemma InfosSet(m: Metadata, d: DocumentMetadata)
    requires Keyed(m) && d.info.id !in m.items
    ensures Keyed(m.Set(d.info.id, d)) && Infos(m.Set(d.info.id, d)) == Infos(m) + [d.info]
    ensures forall i :: 0 <= i < |Infos(m)| ==> Infos(m)[i].id != d.info.id
  {
    m.SetValid(d.info.id, d);
    forall i | 0 <= i < |Infos(m)| ensures Infos(m)[i].id != d.info.id {
      assert m.order[i] in m.items;
    }
    var after := m.Set(d.info.id, d);
    forall i | 0 <= i < |m.order| ensures Infos(after)[i] == Infos(m)[i] {
      assert m.order[i] in m.items;
    }
  }

  /** Deleting a record takes its one line out of the listing. */
  lemma InfosDelete(m: Metadata, id: DocumentId) returns (at: nat)
    requires Keyed(m) && id in m.items
    ensures Keyed(m.Delete(id)) && at < |Infos(m)| && Infos(m)[at] == m.items[id].info
    ensures Infos(m.Delete(id)) == RemoveAt(Infos(m), at)
  {
    hide Filter, RemoveAt, Infos;
    at :| 0 <= at < |m.order| && m.order[at] == id;
    m.DeleteValid(id);
    FilterOne(m.order, at);
    DeletedAt(m, m.Delete(id), at);
  }

  lemma DeletedAt(m: Metadata, after: Metadata, at: nat)
    requires m.Valid() && after.Valid() && at < |m.order|
    requires after.order == RemoveAt(m.order, at) && forall x :: x in after.items ==>
            x in m.items && after.items[x] == m.items[x]
    ensures Infos(after) == RemoveAt(Infos(m), at)
  {
    hide RemoveAt, Infos;
    forall i | 0 <= i < |after.order| ensures Infos(after)[i] == RemoveAt(Infos(m), at)[i] {
      assert after.order[i] in after.items;
    }
  }

  lemma FilterOne<K>(s: seq<K>, at: nat)
    requires NoDup(s) && at < |s|
    ensures Filter(s, Other(s[at])) == RemoveAt(s, at)
  {
    hide Filter;
    var front, back, k := s[..at], s[at + 1..], s[at];
    SplitAt(s, at);
    FilterWithout(front, k);
    FilterWithout(back, k);
    P.DropMiddle(front, [k], back, k);
  }

  lemma {:induction false} TotalSizeConcat(a: seq<Info>, b: seq<Info>)
    ensures TotalSize(a + b) == TotalSize(a) + TotalSize(b)
  {
    if b == [] {
      assert a + b == a;
    } else {
      assert (a + b)[..|a + b| - 1] == a + b[..|b| - 1];
      TotalSizeConcat(a, b[..|b| - 1]);
    }
  }

  lemma RemoveKeeps(infos: seq<Info>, at: nat)
    requires at < |infos|
    ensures TotalSize(RemoveAt(infos, at)) == TotalSize(infos) - infos[at].size
    ensures DistinctChecksums(infos) ==> DistinctChecksums(RemoveAt(infos, at))
  {
    hide TotalSize;
    var front, back := infos[..at], infos[at + 1..];
    SplitAt(infos, at);
    TotalSizeConcat(front + [infos[at]], back);
    TotalSizeConcat(front, [infos[at]]);
    TotalSizeConcat(front, back);
    TotalOne(infos[at]);
  }

  lemma TotalOne(info: Info)
    ensures TotalSize([info]) == info.size
  {}

  /** The record a new document gets. */
  function NewInfo(id: DocumentId, content: string, format: Format, o: Options, parsed: Parsed,
                   checksum: string): Info {
    var title := if parsed.title != "" then parsed.title else "Untitled API";
    Info(id,
         if o.name != "" then o.name else if title != "" then title else o.filename,
         if parsed.apiVersion != "" then parsed.apiVersion else "0.0.0",
         title, o.filename, format, |content|, checksum, o.tags.GetOr([]), o.organization, o.owner, o.description)
  }

  /** What a record takes from the content. */
  ghost predicate FromContent(info: Info, content: string, format: Format, checksum: string, parsed: Parsed) {
    && info.size == |content| && info.format == format && info.checksum == checksum
    && (if parsed.title == "" then info.title == "Untitled API" else info.title == parsed.title)
    && (if parsed.apiVersion == "" then info.version == "0.0.0" else info.version == parsed.apiVersion)
  }

  /** What a new document's record takes from what was given; without a name it is called after its title. */
  ghost predicate AsGiven(info: Info, o: Options) {
    && info.filename == o.filename && info.organization == o.organization
    && info.owner == o.owner && info.description == o.description
    && info.name == (if o.name == "" then info.title else o.name)
    && info.tags == (if o.tags == None then [] else o.tags.value)
  }

  /** What a new version takes over from the old record: every field that is not given. */
  ghost predicate TakesOver(info: Info, o: Options, was: Info) {
    && info.filename == (if o.filename == "" then was.filename else o.filename)
    && info.organization == (if o.organization == "" then was.organization else o.organization)
    && info.owner == (if o.owner == "" then was.owner else o.owner)
    && info.description == (if o.description == "" then was.description else o.description)
    && info.name == (if o.name != "" then o.name else if was.name != "" then was.name else info.title)
    && info.tags == (if o.tags == None then was.tags else o.tags.value)
  }

  /** The fields of the store, ghost fields included. */
  datatype Shelves = Shelves(
    metadata: Metadata,
    index: S.SearchIndex,
    files: map<DocumentId, Parsed>,
    contents: map<DocumentId, Parsed>,
    born: map<DocumentId, nat>,
    births: nat,
    links: map<DocumentId, Link>)

  /** A live document's file holds what the document was stored with. */
  ghost predicate Kept(s: Shelves) {
    forall id :: id in s.metadata.items ==> id in s.files && id in s.contents && s.files[id] == s.contents[id]
  }

  ghost predicate Consistent(s: Shelves, lower: string -> string, quotaBytes: nat) {
    && Keyed(s.metadata)
    && S.Exact(s.index, lower, Infos(s.metadata))
    && DistinctChecksums(Infos(s.metadata))
    && TotalSize(Infos(s.metadata)) <= quotaBytes
    && Kept(s)
    && s.metadata.items.Keys <= s.born.Keys && s.contents.Keys == s.born.Keys
    && (forall id :: id in s.born ==> s.born[id] < s.births)
  }

  /** What registering a new document does to the fields. */
  ghost function Added(s: Shelves, lower: string -> string, d: DocumentMetadata, parsed: Parsed): Shelves {
    var id := d.info.id;
    Shelves(s.metadata.Set(id, d), S.Updated(s.index, lower, d.info), s.files[id := parsed],
            s.contents[id := parsed], s.born[id := s.births], s.births + 1, s.links[id := Link([], true)])
  }

  /** What deleting a document does to the fields; the file stays behind if it cannot be unlinked. */
  ghost function Dropped(s: Shelves, lower: string -> string, id: DocumentId, unlinked: bool): Shelves
    requires id in s.metadata.items
  {
    s.(metadata := s.metadata.Delete(id), index := S.Removed(s.index, lower, s.metadata.items[id].info),
       files := if unlinked then s.files - {id} else s.files, links := s.links - {id})
  }

  ghost predicate Known(m: Metadata, checksum: string) {
    exists id :: id in m.items && m.items[id].info.checksum == checksum
  }

  lemma KnownIffListed(m: Metadata, checksum: string)
    requires Keyed(m)
    ensures Known(m, checksum) <==> exists i :: 0 <= i < |Infos(m)| && Infos(m)[i].checksum == checksum
  {
    if Known(m, checksum) {
      var id :| id in m.items && m.items[id].info.checksum == checksum;
      var i :| 0 <= i < |m.order| && m.order[i] == id;
      assert Infos(m)[i].checksum == checksum;
    }
    if i :| 0 <= i < |Infos(m)| && Infos(m)[i].checksum == checksum {
      assert m.order[i] in m.items;
    }
  }

  lemma OneMoreChecksum(infos: seq<Info>, info: Info)
    requires DistinctChecksums(infos) && forall i :: 0 <= i < |infos| ==> infos[i].checksum != info.checksum
    ensures DistinctChecksums(infos + [info])
  {}

  lemma AddConsistent(s: Shelves, lower: string -> string, quotaBytes: nat, d: DocumentMetadata, parsed: Parsed)
    requires Consistent(s, lower, quotaBytes) && d.info.id !in s.born
    requires TotalSize(Infos(s.metadata)) + d.info.size <= quotaBytes && !Known(s.metadata, d.info.checksum)
    ensures Consistent(Added(s, lower, d, parsed), lower, quotaBytes)
  {
    hide S.Exact, S.Updated, Infos, TotalSize, DistinctChecksums, Known, Keyed;
    InOrder(s, lower, quotaBytes);
    NotLive(s, lower, quotaBytes, d.info.id);
    InfosSet(s.metadata, d);
    KnownIffListed(s.metadata, d.info.checksum);
    OneMoreChecksum(Infos(s.metadata), d.info);
    S.UpdatedExact(s.index, lower, Infos(s.metadata), d.info);
    TotalSizeConcat(Infos(s.metadata), [d.info]);
    TotalOne(d.info);
  }

  /** What the store hands out for an id: the content of its file, and its record. */
  ghost function Read(s: Shelves, id: DocumentId): Option<StoredDocument> {
    if id in s.metadata.items && id in s.files then Some(StoredDocument(id, s.files[id], s.metadata.items[id]))
    else None
  }

  /** A new document is read back with the content it was stored with, and every other one as before. */
  lemma AddedReads(s: Shelves, lower: string -> string, quotaBytes: nat, d: DocumentMetadata, parsed: Parsed)
    requires Consistent(s, lower, quotaBytes) && d.info.id !in s.born
    ensures var after := Added(s, lower, d, parsed);
            && Read(after, d.info.id) == Some(StoredDocument(d.info.id, parsed, d))
            && after.contents == s.contents[d.info.id := parsed]
            && ReadsKept(s, after)
  {
    hide S.Updated, S.Exact, Infos, TotalSize, DistinctChecksums;
  }

  lemma DropConsistent(s: Shelves, lower: string -> string, quotaBytes: nat, id: DocumentId, unlinked: bool)
    requires Consistent(s, lower, quotaBytes) && id in s.metadata.items
    ensures Consistent(Dropped(s, lower, id, unlinked), lower, quotaBytes)
  {
    hide S.Exact, S.Removed, Infos, TotalSize, RemoveAt;
    var at := InfosDelete(s.metadata, id);
    InfosDistinct(s.metadata);
    S.RemovedExact(s.index, lower, Infos(s.metadata), at);
    RemoveKeeps(Infos(s.metadata), at);
  }

  /** The links are what the records hold right now. */
  ghost predicate Mirrors(links: map<DocumentId, Link>, m: Metadata)
    reads m.items.Values
  {
    && links.Keys == m.items.Keys
    && forall id :: id in m.items ==> links[id] == Link(m.items[id].previousVersions, m.items[id].isLatest)
  }

  lemma HistorySound(s: Shelves, id: DocumentId)
    requires Lineage(s.links, s.born) && id in s.links
    ensures NewestFirst([id] + Filter(s.links[id].previousVersions, Live(s.links)), s.born)
  {
    assert Sound(id, s.links, s.born);
    HistoryNewestFirst(id, s.links, s.born);
  }

  lemma InOrder(s: Shelves, lower: string -> string, quotaBytes: nat)
    requires Consistent(s, lower, quotaBytes)
    ensures Keyed(s.metadata)
  {}

  lemma NotLive(s: Shelves, lower: string -> string, quotaBytes: nat, id: DocumentId)
    requires Consistent(s, lower, quotaBytes) && id !in s.born
    ensures id !in s.metadata.items
  {}

  ghost predicate HasContent(m: Metadata, id: DocumentId, checksum: string) {
    id in m.items && m.items[id].info.checksum == checksum
  }

  function Ids(records: seq<DocumentMetadata>): seq<DocumentId> {
    if records == [] then [] else Ids(records[..|records| - 1]) + [records[|records| - 1].info.id]
  }

  function Or(given: string, otherwise: string): string {
    if given != "" then given else otherwise
  }

  /** What an update does not say is taken from the old version. */
  function Merged(o: Options, previous: Info): Options {
    Options(Or(o.filename, previous.filename), Or(o.name, previous.name), Some(o.tags.GetOr(previous.tags)),
            Or(o.owner, previous.owner),
            Or(o.organization, previous.organization), Or(o.description, previous.description), o.contextBytes)
  }

  /** The new document is read back with its content, recorded as given, and found by its fields. */
  ghost predicate NewlyStored(before: Shelves, after: Shelves, lower: string -> string, newId: DocumentId,
                              content: string, format: Format, checksum: string, o: Options, parsed: Parsed) {
    && newId in after.metadata.items && after.metadata.items[newId].info.id == newId
    && Read(after, newId) == Some(StoredDocument(newId, parsed, after.metadata.items[newId]))
    && after.contents == before.contents[newId := parsed]
    && FromContent(after.metadata.items[newId].info, content, format, checksum, parsed)
    && AsGiven(after.metadata.items[newId].info, o)
    && Filed(after.index, lower, after.metadata.items[newId].info)
  }

  /** The same for a new version: what is not given is the old record's. */
  ghost predicate NewVersion(before: Shelves, after: Shelves, lower: string -> string, newId: DocumentId,
                             id: DocumentId, content: string, format: Format, checksum: string, o: Options,
                             parsed: Parsed) {
    && id in before.metadata.items && newId in after.metadata.items && after.metadata.items[newId].info.id == newId
    && Read(after, newId) == Some(StoredDocument(newId, parsed, after.metadata.items[newId]))
    && after.contents == before.contents[newId := parsed]
    && FromContent(after.metadata.items[newId].info, content, format, checksum, parsed)
    && TakesOver(after.metadata.items[newId].info, o, before.metadata.items[id].info)
    && Filed(after.index, lower, after.metadata.items[newId].info)
  }

  /** Every document that was there is read as before. */
  ghost predicate ReadsKept(before: Shelves, after: Shelves) {
    forall x :: x in before.metadata.items ==> Read(after, x) == Read(before, x)
  }

  lemma RecordStored(before: Shelves, after: Shelves, lower: string -> string, quotaBytes: nat, newId: DocumentId,
                     content: string, format: Format, checksum: string, o: Options, parsed: Parsed)
    requires Consistent(before, lower, quotaBytes) && Consistent(after, lower, quotaBytes) && newId !in before.born
    requires newId in after.metadata.items && after == Added(before, lower, after.metadata.items[newId], parsed)
    requires after.metadata.items[newId].info == NewInfo(newId, content, format, o, parsed, checksum)
    ensures NewlyStored(before, after, lower, newId, content, format, checksum, o, parsed)
    ensures ReadsKept(before, after)
  {
    hide Consistent, Filed, FromContent, AsGiven, NewInfo, ReadsKept, Added, Read;
    NewRecord(newId, content, format, o, parsed, checksum);
    AddedReads(before, lower, quotaBytes, after.metadata.items[newId], parsed);
    LiveIsFiled(after, lower, quotaBytes, newId);
  }

  lemma VersionStored(before: Shelves, stored: Shelves, after: Shelves, lower: string -> string, newId: DocumentId,
                      id: DocumentId, content: string, format: Format, checksum: string, o: Options, parsed: Parsed)
    requires id in before.metadata.items && after == stored.(links := after.links)
    requires NewlyStored(before, stored, lower, newId, content, format, checksum,
                         Merged(o, before.metadata.items[id].info), parsed)
    ensures NewVersion(before, after, lower, newId, id, content, format, checksum, o, parsed)
  {
    hide Filed, FromContent, AsGiven, TakesOver, Merged;
    MergedTakesOver(after.metadata.items[newId].info, o, before.metadata.items[id].info);
  }

  lemma SameReads(s: Shelves)
    ensures ReadsKept(s, s)
  {}

  lemma LinkedReads(before: Shelves, stored: Shelves, after: Shelves)
    requires ReadsKept(before, stored) && after == stored.(links := after.links)
    ensures ReadsKept(before, after)
  {}

  lemma MergedTakesOver(info: Info, o: Options, was: Info)
    requires AsGiven(info, Merged(o, was))
    ensures TakesOver(info, o, was)
  {}

  lemma NewRecord(id: DocumentId, content: string, format: Format, o: Options, parsed: Parsed, checksum: string)
    ensures var info := NewInfo(id, content, format, o, parsed, checksum);
            info.id == id && FromContent(info, content, format, checksum, parsed) && AsGiven(info, o)
  {}

  /** A live record is found under its name, its organization, each of its tags and its version, in lower case. */
  ghost predicate Filed(index: S.SearchIndex, lower: string -> string, info: Info) {
    && info.id in P.Lookup(index.byName, lower(info.name))
    && (info.organization != "" ==> info.id in P.Lookup(index.byOrg, lower(info.organization)))
    && (forall t :: t in info.tags ==> info.id in P.Lookup(index.byTag, lower(t)))
    && info.id in P.Lookup(index.byVersion, lower(info.version))
  }

  lemma LiveIsFiled(s: Shelves, lower: string -> string, quotaBytes: nat, id: DocumentId)
    requires Consistent(s, lower, quotaBytes) && id in s.metadata.items
    ensures Filed(s.index, lower, s.metadata.items[id].info)
  {
    hide S.Exact, TotalSize, DistinctChecksums, P.Lookup;
    var info := s.metadata.items[id].info;
    var i :| 0 <= i < |s.metadata.order| && s.metadata.order[i] == id;
    assert Infos(s.metadata)[i] == info;
    S.FiledUnder(s.index, lower, Infos(s.metadata), lower(info.name), id);
    S.FiledUnder(s.index, lower, Infos(s.metadata), lower(info.organization), id);
    S.FiledUnder(s.index, lower, Infos(s.metadata), lower(info.version), id);
    forall t | t in info.tags ensures id in P.Lookup(s.index.byTag, lower(t)) {
      S.FiledUnder(s.index, lower, Infos(s.metadata), lower(t), id);
    }
  }

  /** What an accepted update does to the fields: store, then link. */
  ghost predicate UpdatedTo(before: Shelves, after: Shelves, lower: string -> string,
                            id: DocumentId, newId: DocumentId, created: bool, parsed: Parsed) {
    && newId in after.metadata.items
    && var stored := if created then Added(before, lower, after.metadata.items[newId], parsed) else before;
       id in stored.links && newId in stored.links && after == stored.(links := Linked(stored.links, id, newId))
  }

  /**
   * After an update the lineage is intact exactly when the content was new or the known document fits as the next
   * version.
   */
  ghost predicate LineageAfterUpdate(before: Shelves, after: Shelves, id: DocumentId, newId: DocumentId,
                                     created: bool) {
    Lineage(before.links, before.born) && id in before.links && (created || newId in before.links) ==>
      (Lineage(after.links, after.born) <==> created || LinkFits(before.links, before.born, id, newId))
  }

  lemma UpdateLineage(before: Shelves, after: Shelves, lower: string -> string, quotaBytes: nat,
                      id: DocumentId, newId: DocumentId, created: bool, parsed: Parsed)
    requires Consistent(before, lower, quotaBytes) && UpdatedTo(before, after, lower, id, newId, created, parsed)
    requires before.links.Keys == before.metadata.items.Keys
    requires created ==> newId !in before.born && after.metadata.items[newId].info.id == newId
    ensures LineageAfterUpdate(before, after, id, newId, created)
  {
    hide S.Exact, S.Updated, Infos, TotalSize, Lineage, LinkFits, Linked;
    if Lineage(before.links, before.born) && id in before.links && (created || newId in before.links) {
      if created {
        StoreKeeps(before.links, before.born, newId, before.births);
        NewContentFits(before.links, before.born, id, newId, before.births);
        LinkKeepsLineage(before.links[newId := Link([], true)], before.born[newId := before.births], id, newId);
      } else {
        LinkKeepsLineage(before.links, before.born, id, newId);
      }
    }
  }

  lemma AddedLineage(s: Shelves, lower: string -> string, quotaBytes: nat, d: DocumentMetadata, parsed: Parsed)
    requires Consistent(s, lower, quotaBytes) && s.links.Keys == s.metadata.items.Keys && d.info.id !in s.born
    requires Lineage(s.links, s.born)
    ensures Lineage(Added(s, lower, d, parsed).links, Added(s, lower, d, parsed).born)
  {
    hide S.Exact, S.Updated, Infos, TotalSize, Lineage;
    StoreKeeps(s.links, s.born, d.info.id, s.births);
  }

  /** Linking touches nothing else that has to be in order. */
  lemma StoredLinks(before: Shelves, s: Shelves, lower: string -> string, quotaBytes: nat,
                    id: DocumentId, newId: DocumentId, created: bool, parsed: Parsed)
    requires Consistent(s, lower, quotaBytes)
    requires before.links.Keys == before.metadata.items.Keys && id in before.metadata.items && newId in s.metadata.items
    requires if created then s.metadata.items[newId].info.id == newId
            && s == Added(before, lower, s.metadata.items[newId], parsed)
             else s == before
    ensures id in s.metadata.items && id in s.links && newId in s.links
    ensures Consistent(s.(links := Linked(s.links, id, newId)), lower, quotaBytes)
  {
    hide S.Exact, Infos, TotalSize, S.Updated, Linked;
  }

  /** The record that is being replaced is still the store's after the new one has come in. */
  lemma StillThere(before: Shelves, s: Shelves, lower: string -> string, id: DocumentId, newId: DocumentId,
                   created: bool, parsed: Parsed)
    requires id in before.metadata.items && newId in s.metadata.items
    requires if created then s.metadata.items[newId].info.id == newId && newId !in before.metadata.items
                             && s == Added(before, lower, s.metadata.items[newId], parsed)
             else s == before
    ensures id in s.metadata.items && s.metadata.items[id] == before.metadata.items[id]
  {
    hide S.Updated;
  }

  const NOTHING: Parsed := Parsed(false, "", "", "")

  class DatastoreManager {
    const quotaBytes: nat
    const parse: (Format, string) -> Option<Parsed>
    const sha256: string -> string
    const lower: string -> string
    const uploads: H.UploadHistoryManager

    var metadata: Metadata
    var searchIndex: S.SearchIndex
    var files: map<DocumentId, Parsed>

    /** When each document was created. */
    ghost var born: map<DocumentId, nat>
    /** What each document was stored with, also after it is deleted. */
    ghost var contents: map<DocumentId, Parsed>
    ghost var births: nat
    /** The version links the records hold. */
    ghost var links: map<DocumentId, Link>

    ghost predicate Valid()
      reads this, uploads, metadata.items.Values
    {
      && uploads.Valid()
      && Consistent(Here(), lower, quotaBytes)
      && Mirrors(links, metadata)
    }

    ghost function Here(): Shelves
      reads this
    {
      Shelves(metadata, searchIndex, files, contents, born, births, links)
    }

    /** Every list of previous versions runs strictly back in time, and what is listed is superseded. */
    ghost predicate Lineal()
      reads this
    {
      Lineage(links, born)
    }

    constructor (quotaBytes: nat, parse: (Format, string) -> Option<Parsed>, sha256: string -> string,
                 lower: string -> string)
      ensures Valid() && fresh(uploads) && metadata == JsMap([], map[]) && uploads.All() == [] && Lineal()
      ensures this.quotaBytes == quotaBytes && this.parse == parse && this.sha256 == sha256 && this.lower == lower
    {
      this.quotaBytes, this.parse, this.sha256, this.lower := quotaBytes, parse, sha256, lower;
      var history := new H.UploadHistoryManager([]);
      history.Initialize();
      uploads := history;
      metadata, searchIndex, files := JsMap([], map[]), S.EMPTY, map[];
      contents, born, births, links := map[], map[], 0, map[];
      new;
      S.RebuiltExact(lower, []);
    }

    /** A manager over the files of another one, before any of its indexes has been checked. */
    constructor Open(ds: DatastoreManager, metadata: Metadata, searchIndex: S.SearchIndex,
                     uploads: H.UploadHistoryManager)
      ensures quotaBytes == ds.quotaBytes && parse == ds.parse && sha256 == ds.sha256 && lower == ds.lower
      ensures this.uploads == uploads
      ensures Here() == ds.Here().(metadata := metadata, index := searchIndex)
    {
      quotaBytes, parse, sha256, lower, this.uploads := ds.quotaBytes, ds.parse, ds.sha256, ds.lower, uploads;
      this.metadata, this.searchIndex, files := metadata, searchIndex, ds.files;
      contents, born, births, links := ds.contents, ds.born, ds.births, ds.links;
    }

    method GetCurrentStorageSize() returns (total: nat)
      requires metadata.Valid()
      ensures total == TotalSize(Infos(metadata))
    {
      total := 0;
      for i := 0 to |metadata.order|
        invariant total == TotalSize(Infos(metadata)[..i])
      {
        total := total + metadata.items[metadata.order[i]].info.size;
        assert Infos(metadata)[..i + 1][..i] == Infos(metadata)[..i];
      }
      TakeAll(Infos(metadata));
    }

    method FindByChecksum(checksum: string) returns (r: Option<DocumentId>)
      requires Keyed(metadata)
      ensures r.Some? <==> Known(metadata, checksum)
      ensures r.Some? ==> r.value in metadata.items && metadata.items[r.value].info.checksum == checksum
    {
      r := None;
      var i := 0;
      while i < |metadata.order| && r.None?
        invariant 0 <= i <= |metadata.order|
        invariant r.None? ==> forall j :: 0 <= j < i ==> Infos(metadata)[j].checksum != checksum
        invariant r.Some? ==> 0 < i && r.value == metadata.order[i - 1] && Infos(metadata)[i - 1].checksum == checksum
      {
        if metadata.items[metadata.order[i]].info.checksum == checksum {
          r := Some(metadata.order[i]);
        }
        i := i + 1;
      }
      KnownIffListed(metadata, checksum);
    }

    /** File the record under its name, organization, tags and version; ids already there are not repeated. */
    method UpdateSearchIndex(searchIndex: S.SearchIndex, info: Info) returns (index: S.SearchIndex)
      ensures index == S.Updated(searchIndex, lower, info)
    {
      hide P.Push;
      var byName := P.Push(searchIndex.byName, lower(info.name), info.id);
      P.PushOne(searchIndex.byName, lower(info.name), info.id);
      var byOrg := searchIndex.byOrg;
      if info.organization != "" {
        byOrg := P.Push(byOrg, lower(info.organization), info.id);
        P.PushOne(searchIndex.byOrg, lower(info.organization), info.id);
      }
      var byTag := searchIndex.byTag;
      ghost var keys := Map(info.tags, lower);
      for i := 0 to |info.tags|
        invariant byTag == P.PushAll(searchIndex.byTag, keys[..i], info.id)
      {
        byTag := P.Push(byTag, lower(info.tags[i]), info.id);
        assert keys[..i + 1][..i] == keys[..i];
      }
      TakeAll(keys);
      var byVersion := P.Push(searchIndex.byVersion, lower(info.version), info.id);
      P.PushOne(searchIndex.byVersion, lower(info.version), info.id);
      index := S.SearchIndex(byName, byOrg, byTag, byVersion);
    }

    method RemoveFromSearchIndex(searchIndex: S.SearchIndex, info: Info) returns (index: S.SearchIndex)
      ensures index == S.Removed(searchIndex, lower, info)
    {
      hide P.Drop;
      var byName := P.Drop(searchIndex.byName, lower(info.name), info.id);
      P.DropSingle(searchIndex.byName, lower(info.name), info.id);
      var byOrg := searchIndex.byOrg;
      if info.organization != "" {
        byOrg := P.Drop(byOrg, lower(info.organization), info.id);
        P.DropSingle(searchIndex.byOrg, lower(info.organization), info.id);
      }
      var byTag := searchIndex.byTag;
      ghost var keys := Map(info.tags, lower);
      for i := 0 to |info.tags|
        invariant byTag == P.DropAll(searchIndex.byTag, keys[..i], info.id)
      {
        byTag := P.Drop(byTag, lower(info.tags[i]), info.id);
        assert keys[..i + 1][..i] == keys[..i];
      }
      TakeAll(keys);
      var byVersion := P.Drop(searchIndex.byVersion, lower(info.version), info.id);
      P.DropSingle(searchIndex.byVersion, lower(info.version), info.id);
      index := S.SearchIndex(byName, byOrg, byTag, byVersion);
    }

    /** Start over from the metadata; on a store in order this changes nothing. */
    method RebuildSearchIndex() returns (index: S.SearchIndex)
      requires metadata.Valid()
      ensures index == S.Rebuilt(lower, Infos(metadata))
      ensures Keyed(metadata) ==> (S.Exact(searchIndex, lower, Infos(metadata)) <==> index == searchIndex)
    {
      hide S.Updated, S.Exact;
      if Keyed(metadata) {
        InfosDistinct(metadata);
        S.ExactIffRebuilt(searchIndex, lower, Infos(metadata));
      }
      index := S.EMPTY;
      for i := 0 to |metadata.order|
        invariant index == S.Rebuilt(lower, Infos(metadata)[..i])
      {
        index := UpdateSearchIndex(index, metadata.items[metadata.order[i]].info);
        assert Infos(metadata)[..i + 1][..i] == Infos(metadata)[..i];
      }
      TakeAll(Infos(metadata));
    }

    /** Read the index file, or build the index anew if there is none. */
    method LoadSearchIndex(file: Option<S.SearchIndex>)
      requires metadata.Valid()
      modifies this`searchIndex
      ensures searchIndex == if file.Some? then file.value else S.Rebuilt(lower, Infos(metadata))
    {
      hide S.Rebuilt, S.Exact, Infos, JsMap.Valid;
      if file.Some? {
        searchIndex := file.value;
      } else {
        searchIndex := RebuildSearchIndex();
      }
    }

    /** Why a store is refused, in the order the checks are made; a duplicate counts against the quota as well. */
    ghost function Refusal(content: string, format: Format, contextBytes: nat): Option<StoreError>
      requires metadata.Valid()
      reads this
    {
      if TotalSize(Infos(metadata)) + |content| > quotaBytes then Some(QuotaExceeded)
      else if parse(format, content).None? then Some(ParseFailed)
      else if !parse(format, content).value.isOpenApi then Some(NotOpenApi)
      else if contextBytes > 1024 then Some(ContextTooLarge)
      else None
    }

    method StoreDocument(content: string, format: Format, o: Options, newId: DocumentId, uploadId: UploadId, now: int)
      returns (r: Result<StoreResult, StoreError>)
      requires Valid() && newId !in born && uploadId !in uploads.uploadIndex.items
      modifies this, uploads
      ensures Valid()
      ensures old(Refusal(content, format, o.contextBytes)) == if r.Err? then Some(r.error) else None
      ensures r.Err? ==> Here() == old(Here()) && uploads.All() == old(uploads.All())
      ensures r.Ok? ==> HasContent(metadata, r.value.documentId, sha256(content))
      ensures r.Ok? ==> r.value.uploadId == uploadId && r.value.created == !old(Known(metadata, sha256(content)))
      ensures r.Ok? ==>
                uploads.All() == old(uploads.All()) + [Upload(uploadId, r.value.documentId, now, o.filename, |content|)]
      ensures r.Ok? && !r.value.created ==>
                && Here() == old(Here())
                && H.Tells(uploads.All(), r.value.documentId, r.value.uploadCount, r.value.existingSince)
      ensures r.Ok? && r.value.created ==>
                && r.value == StoreResult(newId, uploadId, true, 1, None)
                && newId in metadata.items && fresh(metadata.items[newId])
                && metadata.items[newId].info.id == newId
                && Here() == Added(old(Here()), lower, metadata.items[newId], parse(format, content).GetOr(NOTHING))
      ensures r.Ok? && r.value.created ==>
                && parse(format, content).Some?
                && NewlyStored(old(Here()), Here(), lower, newId, content, format, sha256(content), o,
                               parse(format, content).value)
                && GetDocument(newId)
                   == Some(StoredDocument(newId, parse(format, content).value, metadata.items[newId]))
                && contents == old(contents)[newId := parse(format, content).value]
      ensures r.Ok? ==> ReadsKept(old(Here()), Here())
      ensures old(Lineal()) ==> Lineal()
    {
      hide Consistent, Infos, TotalSize, Mirrors, Added, Known, H.UploadHistoryManager.Valid, P.Exact, Lineage;
      hide ReadsKept;
      InOrder(Here(), lower, quotaBytes);
      var currentSize := GetCurrentStorageSize();
      if currentSize + |content| > quotaBytes {
        r := Err(QuotaExceeded);
      } else {
        var parsed := parse(format, content);
        if parsed.None? {
          r := Err(ParseFailed);
        } else if !parsed.value.isOpenApi {
          r := Err(NotOpenApi);
        } else {
          r := StoreParsed(parsed.value, content, format, o, newId, uploadId, now);
        }
      }
    }

    /** Deduplicate by checksum, record the upload either way, and register what is new. */
    method StoreParsed(parsed: Parsed, content: string, format: Format, o: Options, newId: DocumentId,
                       uploadId: UploadId, now: int)
      returns (r: Result<StoreResult, StoreError>)
      requires Valid() && newId !in born && uploadId !in uploads.uploadIndex.items
      requires TotalSize(Infos(metadata)) + |content| <= quotaBytes
      modifies this, uploads
      ensures Valid()
      ensures if o.contextBytes > 1024 then r == Err(ContextTooLarge) else r.Ok?
      ensures r.Err? ==> Here() == old(Here()) && uploads.All() == old(uploads.All())
      ensures r.Ok? ==> HasContent(metadata, r.value.documentId, sha256(content))
      ensures r.Ok? ==> r.value.uploadId == uploadId && r.value.created == !old(Known(metadata, sha256(content)))
      ensures r.Ok? ==>
                uploads.All() == old(uploads.All()) + [Upload(uploadId, r.value.documentId, now, o.filename, |content|)]
      ensures r.Ok? && !r.value.created ==>
                && Here() == old(Here())
                && H.Tells(uploads.All(), r.value.documentId, r.value.uploadCount, r.value.existingSince)
      ensures r.Ok? && r.value.created ==>
                && r.value == StoreResult(newId, uploadId, true, 1, None)
                && newId in metadata.items && fresh(metadata.items[newId])
                && metadata.items[newId].info.id == newId
                && NewlyStored(old(Here()), Here(), lower, newId, content, format, sha256(content), o, parsed)
                && Here() == Added(old(Here()), lower, metadata.items[newId], parsed)
      ensures r.Ok? ==> ReadsKept(old(Here()), Here())
      ensures old(Lineal()) ==> Lineal()
    {
      hide Consistent, Infos, TotalSize, Mirrors, Added, Known, H.UploadHistoryManager.Valid, H.Tells, Lineage;
      hide ReadsKept, NewlyStored, Keyed, JsMap.Valid;
      InOrder(Here(), lower, quotaBytes);
      var checksum := sha256(content);
      var existing := FindByChecksum(checksum);
      var documentId := if existing.Some? then existing.value else newId;
      var upload := uploads.RecordUpload(Upload(uploadId, documentId, now, o.filename, |content|), o.contextBytes);
      if upload.Err? {
        r := Err(upload.error);
      } else if existing.Some? {
        uploads.HistoryTells(documentId);
        SameReads(Here());
        r := Ok(StoreResult(documentId, uploadId, false, uploads.GetUploadCount(documentId),
                            uploads.GetFirstUploadDate(documentId)));
      } else {
        RegisterNew(newId, content, format, o, parsed, checksum);
        r := Ok(StoreResult(documentId, uploadId, true, 1, None));
      }
    }

    /** Make the record of a new document and save it. */
    method RegisterNew(newId: DocumentId, content: string, format: Format, o: Options, parsed: Parsed,
                       checksum: string)
      requires Valid() && newId !in born && TotalSize(Infos(metadata)) + |content| <= quotaBytes
      requires !Known(metadata, checksum)
      modifies this
      ensures Valid() && newId in metadata.items && fresh(metadata.items[newId])
      ensures Here() == Added(old(Here()), lower, metadata.items[newId], parsed)
      ensures HasContent(metadata, newId, checksum)
      ensures NewlyStored(old(Here()), Here(), lower, newId, content, format, checksum, o, parsed)
      ensures ReadsKept(old(Here()), Here()) && metadata.items[newId].info.id == newId
      ensures old(Lineal()) ==> Lineal()
    {
      hide Consistent, Infos, TotalSize, Mirrors, Added, Known, H.UploadHistoryManager.Valid, Lineage;
      hide ReadsKept, NewlyStored;
      ghost var before := Here();
      Register(NewInfo(newId, content, format, o, parsed, checksum), parsed);
      RecordStored(before, Here(), lower, quotaBytes, newId, content, format, checksum, o, parsed);
    }

    /** Save a new document: its file, its record, and its lines in the search index. */
    method Register(info: Info, parsed: Parsed)
      requires Valid() && info.id !in born && TotalSize(Infos(metadata)) + info.size <= quotaBytes
      requires !Known(metadata, info.checksum)
      modifies this
      ensures Valid() && info.id in metadata.items && fresh(metadata.items[info.id])
      ensures metadata.items[info.id].info == info
      ensures Here() == Added(old(Here()), lower, metadata.items[info.id], parsed)
      ensures old(Lineal()) ==> Lineal()
    {
      hide Consistent, Known, H.UploadHistoryManager.Valid, Infos, TotalSize, S.Updated, JsMap.Valid, Lineage, Read;
      NotLive(Here(), lower, quotaBytes, info.id);
      var record := new DocumentMetadata(info);
      AddConsistent(Here(), lower, quotaBytes, record, parsed);
      if Lineal() { AddedLineage(Here(), lower, quotaBytes, record, parsed); }
      AddRecord(record, parsed);
    }

    method AddRecord(record: DocumentMetadata, parsed: Parsed)
      modifies this
      ensures Here() == Added(old(Here()), lower, record, parsed)
    {
      files := files[record.info.id := parsed];
      metadata := metadata.Set(record.info.id, record);
      searchIndex := UpdateSearchIndex(searchIndex, record.info);
      links := links[record.info.id := Link([], true)];
      contents := contents[record.info.id := parsed];
      born, births := born[record.info.id := births], births + 1;
    }

    /** Store the content as a new version, link it to what it replaces, and mark the old version as superseded. */
    method UpdateDocument(id: DocumentId, content: string, format: Format, o: Options,
                          newId: DocumentId, uploadId: UploadId, now: int) returns (r: Result<DocumentId, StoreError>)
      requires Valid() && newId !in born && uploadId !in uploads.uploadIndex.items
      modifies this, uploads, metadata.items.Values
      ensures Valid()
      ensures old(UpdateRefusal(id, content, format, o.contextBytes)) == if r.Err? then Some(r.error) else None
      ensures r.Err? ==> Here() == old(Here()) && uploads.All() == old(uploads.All())
      ensures r.Ok? ==> UpdatedTo(old(Here()), Here(), lower, id, r.value, !old(Known(metadata, sha256(content))),
                                  parse(format, content).GetOr(NOTHING))
      ensures r.Ok? ==> HasContent(metadata, r.value, sha256(content))
      ensures r.Ok? && !old(Known(metadata, sha256(content))) ==>
                r.value == newId && newId in metadata.items && fresh(metadata.items[newId])
      ensures r.Ok? ==> LineageAfterUpdate(old(Here()), Here(), id, r.value, !old(Known(metadata, sha256(content))))
      ensures r.Ok? ==> ReadsKept(old(Here()), Here())
      ensures r.Ok? && old(Known(metadata, sha256(content))) ==> contents == old(contents)
      ensures r.Ok? && !old(Known(metadata, sha256(content))) ==>
                NewVersion(old(Here()), Here(), lower, newId, id, content, format, sha256(content), o,
                           parse(format, content).GetOr(NOTHING))
    {
      assert forall info :: Merged(o, info).contextBytes == o.contextBytes;
      hide Consistent, Infos, TotalSize, Known, Added, NewInfo, H.UploadHistoryManager.Valid, H.Tells, Merged, Linked;
      hide HasContent, Refusal, LineageAfterUpdate, UpdatedTo, Lineage, NewlyStored, NewVersion, ReadsKept;
      InOrder(Here(), lower, quotaBytes);
      ghost var before, parsed := Here(), parse(format, content).GetOr(NOTHING);
      if id !in metadata.items {
        r := Err(NotFound);
      } else {
        var oldMeta := metadata.items[id];
        var result := StoreDocument(content, format, Merged(o, oldMeta.info), newId, uploadId, now);
        if result.Err? {
          r := Err(result.error);
        } else {
          ghost var stored := Here();
          StillThere(before, Here(), lower, id, result.value.documentId, result.value.created, parsed);
          Supersede(oldMeta, metadata.items[result.value.documentId], before, result.value.created, parsed);
          UpdateLineage(before, Here(), lower, quotaBytes, id, result.value.documentId, result.value.created, parsed);
          r := Ok(result.value.documentId);
          if result.value.created {
            VersionStored(before, stored, Here(), lower, newId, id, content, format, sha256(content), o, parsed);
          }
          LinkedReads(before, stored, Here());
        }
      }
    }

    method Supersede(oldMeta: DocumentMetadata, newMeta: DocumentMetadata, ghost before: Shelves, ghost created: bool,
                     ghost parsed: Parsed)
      requires Valid()
      requires newMeta.info.id in metadata.items && metadata.items[newMeta.info.id] == newMeta
      requires oldMeta.info.id in metadata.items && metadata.items[oldMeta.info.id] == oldMeta
      requires Consistent(before, lower, quotaBytes) && before.links.Keys == before.metadata.items.Keys
      requires oldMeta.info.id in before.metadata.items
      requires if created then newMeta.info.id !in before.born && Here() == Added(before, lower, newMeta, parsed)
              else Here() == before
      modifies this`links, oldMeta`isLatest, newMeta`previousVersions
      ensures Valid() && metadata == old(metadata)
      ensures UpdatedTo(before, Here(), lower, oldMeta.info.id, newMeta.info.id, created, parsed)
    {
      hide Consistent, H.UploadHistoryManager.Valid, S.Updated;
      StoredLinks(before, Here(), lower, quotaBytes, oldMeta.info.id, newMeta.info.id, created, parsed);
      InOrder(Here(), lower, quotaBytes);
      LinkVersions(oldMeta, newMeta);
    }

    ghost function UpdateRefusal(id: DocumentId, content: string, format: Format, contextBytes: nat): Option<StoreError>
      requires metadata.Valid()
      reads this
    {
      if id !in metadata.items then Some(NotFound) else Refusal(content, format, contextBytes)
    }

    method LinkVersions(oldMeta: DocumentMetadata, newMeta: DocumentMetadata)
      requires Keyed(metadata) && Mirrors(links, metadata)
      requires oldMeta.info.id in metadata.items && metadata.items[oldMeta.info.id] == oldMeta
      requires newMeta.info.id in metadata.items && metadata.items[newMeta.info.id] == newMeta
      modifies this`links, oldMeta`isLatest, newMeta`previousVersions
      ensures Mirrors(links, metadata) && links == Linked(old(links), oldMeta.info.id, newMeta.info.id)
    {
      ghost var newId, oldId := newMeta.info.id, oldMeta.info.id;
      forall x | x in metadata.items
        ensures (metadata.items[x] == newMeta <==> x == newId) && (metadata.items[x] == oldMeta <==> x == oldId)
      {
        assert metadata.items[x].info.id == x;
      }
      hide Keyed, JsMap.Valid;
      newMeta.previousVersions := [oldMeta.info.id] + oldMeta.previousVersions;
      oldMeta.isLatest := false;
      links := Linked(links, oldMeta.info.id, newMeta.info.id);
    }

    /** Remove the file, the record and the index lines; a file that cannot be removed is left behind. */
    method DeleteDocument(id: DocumentId, unlinked: bool) returns (r: Result<(), StoreError>)
      requires Valid()
      modifies this
      ensures Valid()
      ensures r == if id in old(metadata.items) then Ok(()) else Err(NotFound)
      ensures Here() == if r.Ok? then Dropped(old(Here()), lower, id, unlinked) else old(Here())
      ensures contents == old(contents)
      ensures r.Ok? ==>
                && GetDocument(id) == None && files == (if unlinked then old(files) - {id} else old(files))
                && forall x :: x in old(metadata.items) && x != id ==> GetDocument(x) == old(GetDocument(x))
      ensures old(Lineal()) ==> Lineal()
    {
      hide Consistent, H.UploadHistoryManager.Valid;
      if id !in metadata.items {
        r := Err(NotFound);
      } else {
        DropConsistent(Here(), lower, quotaBytes, id, unlinked);
        if Lineal() { DeleteKeeps(links, born, id); }
        DropRecord(id, unlinked);
        r := Ok(());
      }
    }

    method DropRecord(id: DocumentId, unlinked: bool)
      requires id in metadata.items
      modifies this
      ensures Here() == Dropped(old(Here()), lower, id, unlinked)
    {
      var meta := metadata.items[id];
      if unlinked {
        files := files - {id};
      }
      metadata := metadata.Delete(id);
      searchIndex := RemoveFromSearchIndex(searchIndex, meta.info);
      links := links - {id};
    }

    /** The stored document: its content from the file, and the very record the store keeps. */
    function GetDocument(id: DocumentId): (r: Option<StoredDocument>)
      reads this
      ensures r == Read(Here(), id)
    {
      if id in metadata.items && id in files then Some(StoredDocument(id, files[id], metadata.items[id])) else None
    }

    /** Over every run, a live document is read back with the content it was stored with. */
    lemma ReadAsStored(id: DocumentId)
      requires Valid() && id in metadata.items
      ensures id in contents && GetDocument(id) == Some(StoredDocument(id, contents[id], metadata.items[id]))
    {
      hide S.Exact, Infos, TotalSize, DistinctChecksums;
    }

    /** The document, then its live previous versions; strictly newest first as long as the lineage is intact. */
    method GetVersionHistory(id: DocumentId) returns (versions: seq<DocumentMetadata>)
      requires Valid()
      ensures id !in metadata.items ==> versions == []
      ensures id in metadata.items ==>
                && |versions| > 0 && (forall v :: v in versions ==>
                    v.info.id in metadata.items && v == metadata.items[v.info.id])
                && Ids(versions) == [id] + Filter(metadata.items[id].previousVersions, Live(links))
      ensures id in metadata.items ==> forall x :: x in Ids(versions) <==>
                x == id || (x in metadata.items[id].previousVersions && x in metadata.items)
      ensures id in metadata.items && Lineal() ==> NewestFirst(Ids(versions), born)
    {
      hide Consistent, Lineage, NewestFirst, H.UploadHistoryManager.Valid;
      InOrder(Here(), lower, quotaBytes);
      versions := [];
      if id in metadata.items {
        var meta := metadata.items[id];
        var prev := meta.previousVersions;
        versions := [meta];
        for i := 0 to |prev|
          invariant |versions| > 0 && forall v :: v in versions ==>
                  v.info.id in metadata.items && v == metadata.items[v.info.id]
          invariant Ids(versions) == [id] + Filter(prev[..i], Live(links))
        {
          assert prev[..i + 1][..i] == prev[..i];
          if prev[i] in metadata.items {
            versions := versions + [metadata.items[prev[i]]];
          }
        }
        TakeAll(prev);
        forall x ensures x in Ids(versions) <==> x == id || (x in prev && x in metadata.items) {
          FilterMember(prev, Live(links), x);
        }
        if Lineal() { HistorySound(Here(), id); }
      }
    }
  }

  lemma OneOfChecksum(s: Shelves, lower: string -> string, quotaBytes: nat, a: DocumentId, b: DocumentId,
                      checksum: string)
    requires Consistent(s, lower, quotaBytes) && HasContent(s.metadata, a, checksum)
    requires HasContent(s.metadata, b, checksum)
    ensures a == b
  {
    hide S.Exact, TotalSize;
    var i :| 0 <= i < |s.metadata.order| && s.metadata.order[i] == a;
    var j :| 0 <= j < |s.metadata.order| && s.metadata.order[j] == b;
    assert Infos(s.metadata)[i].checksum == Infos(s.metadata)[j].checksum;
  }

  lemma OlderDoesNotFit(before: Shelves, after: Shelves, a: DocumentId, b: DocumentId)
    requires Lineage(before.links, before.born) && a in before.links && b in before.links
    requires a in before.born && b in before.born && before.born[b] <= before.born[a]
    requires LineageAfterUpdate(before, after, a, b, false)
    ensures !Lineage(after.links, after.born)
  {
    hide Lineage;
  }

  /** A run that fails, from any store in order: updating a document with the content of an older one, or its own. */
  method UpdateWithOlder(ds: DatastoreManager, a: DocumentId, b: DocumentId, content: string, format: Format,
                         o: Options,
                         newId: DocumentId, uploadId: UploadId, now: int) returns (r: Result<DocumentId, StoreError>)
    requires ds.Valid() && ds.Lineal() && newId !in ds.born && uploadId !in ds.uploads.uploadIndex.items
    requires a in ds.metadata.items && HasContent(ds.metadata, b, ds.sha256(content))
    requires a in ds.born && b in ds.born && ds.born[b] <= ds.born[a]
    requires ds.UpdateRefusal(a, content, format, o.contextBytes) == None
    modifies ds, ds.uploads, ds.metadata.items.Values
    ensures ds.Valid() && r == Ok(b) && !ds.Lineal()
  {
    hide Consistent, Mirrors, Lineage, LineageAfterUpdate, H.UploadHistoryManager.Valid;
    hide DatastoreManager.UpdateRefusal, Linked;
    ghost var before := ds.Here();
    assert Known(ds.metadata, ds.sha256(content));
    assert before.links.Keys == before.metadata.items.Keys by { LinkedRecords(ds); }
    r := ds.UpdateDocument(a, content, format, o, newId, uploadId, now);
    OneOfChecksum(before, ds.lower, ds.quotaBytes, r.value, b, ds.sha256(content));
    OlderDoesNotFit(before, ds.Here(), a, b);
  }

  lemma LinkedRecords(ds: DatastoreManager)
    requires ds.Valid()
    ensures ds.links.Keys == ds.metadata.items.Keys
  {}

  // Starting again from the files

  /** A new record that says the same. */
  twostate predicate CopyOf(d: DocumentMetadata, new c: DocumentMetadata)
    reads d, c
  {
    fresh(c) && c.info == d.info && c.previousVersions == d.previousVersions && c.isLatest == d.isLatest
  }

  method CopyRecord(d: DocumentMetadata) returns (c: DocumentMetadata)
    ensures CopyOf(d, c)
  {
    c := new DocumentMetadata(d.info);
    c.previousVersions, c.isLatest := d.previousVersions, d.isLatest;
  }

  /** Read the metadata file: one new record an entry, in the order they were saved. */
  method LoadMetadata(m: Metadata, ghost links: map<DocumentId, Link>) returns (c: Metadata)
    requires m.Valid() && Mirrors(links, m)
    ensures c.Valid() && c.order == m.order && c.items.Keys == m.items.Keys && Mirrors(links, c)
    ensures forall id :: id in c.items ==> fresh(c.items[id]) && c.items[id].info == m.items[id].info
  {
    hide JsMap.Valid;
    c := JsMap([], map[]);
    NothingLoaded(c, m);
    for i := 0 to |m.order|
      invariant c.Valid() && c.order == m.order[..i]
      invariant forall id :: id in c.items ==> id in m.items && CopyOf(m.items[id], c.items[id])
    {
      NextEntry(c, m, i);
      var id := m.order[i];
      var record := CopyRecord(m.items[id]);
      c.SetValid(id, record);
      c := c.Set(id, record);
    }
    AllLoaded(c, m);
  }

  lemma NothingLoaded(c: Metadata, m: Metadata)
    requires c == JsMap([], map[])
    ensures c.Valid() && c.order == m.order[..0]
  {}

  lemma NextEntry(c: Metadata, m: Metadata, i: nat)
    requires c.Valid() && m.Valid() && i < |m.order| && c.order == m.order[..i]
    ensures m.order[i] in m.items && m.order[i] !in c.items && c.order + [m.order[i]] == m.order[..i + 1]
  {}

  lemma AllLoaded(c: Metadata, m: Metadata)
    requires c.Valid() && m.Valid() && c.order == m.order[..|m.order|]
    ensures c.order == m.order && c.items.Keys == m.items.Keys
  {}

  lemma SameInfos(s: Shelves, c: Metadata, lower: string -> string, quotaBytes: nat)
    requires Consistent(s, lower, quotaBytes) && c.Valid() && c.order == s.metadata.order
    requires c.items.Keys == s.metadata.items.Keys
    requires forall id :: id in c.items ==> c.items[id].info == s.metadata.items[id].info
    ensures Infos(c) == Infos(s.metadata) && Consistent(s.(metadata := c), lower, quotaBytes)
  {
    hide S.Exact, TotalSize, DistinctChecksums;
    assert Infos(c) == Infos(s.metadata);
  }

  /** Starting again, with the index file or without it, gives the same records, index, lineage and upload history. */
  method Restart(ds: DatastoreManager, indexFile: bool) returns (n: DatastoreManager)
    requires ds.Valid()
    ensures ds.Valid() && fresh(n) && n.Valid()
    ensures n.metadata.order == ds.metadata.order && Infos(n.metadata) == Infos(ds.metadata)
    ensures forall id :: id in n.metadata.items ==> fresh(n.metadata.items[id])
    ensures n.Here() == ds.Here().(metadata := n.metadata)
    ensures forall id :: id in ds.metadata.items ==>
              && id in ds.contents && id in n.metadata.items
              && n.GetDocument(id) == Some(StoredDocument(id, ds.contents[id], n.metadata.items[id]))
              && n.metadata.items[id].info == ds.metadata.items[id].info
    ensures n.uploads.uploadIndex == ds.uploads.uploadIndex && n.uploads.documentUploads == ds.uploads.documentUploads
  {
    hide Consistent, Infos, H.UploadHistoryManager.Valid, CopyOf, Keyed, DatastoreManager.GetDocument;
    var uploads := H.Reload(ds.uploads);
    n := OpenFiles(ds, indexFile, uploads);
    forall id | id in ds.metadata.items
      ensures id in ds.contents && id in n.metadata.items
      ensures n.GetDocument(id) == Some(StoredDocument(id, ds.contents[id], n.metadata.items[id]))
      ensures n.metadata.items[id].info == ds.metadata.items[id].info
    {
      InOrder(ds.Here(), ds.lower, ds.quotaBytes);
      InOrder(n.Here(), n.lower, n.quotaBytes);
      SameInfo(ds.metadata, n.metadata, id);
      n.ReadAsStored(id);
    }
  }

  lemma SameInfo(m: Metadata, n: Metadata, id: DocumentId)
    requires Keyed(m) && Keyed(n) && m.order == n.order && Infos(m) == Infos(n) && id in m.items
    ensures id in n.items && n.items[id].info == m.items[id].info
  {
    var i :| 0 <= i < |m.order| && m.order[i] == id;
    assert Infos(m)[i] == Infos(n)[i];
  }

  method OpenFiles(ds: DatastoreManager, indexFile: bool, uploads: H.UploadHistoryManager) returns (n: DatastoreManager)
    requires ds.Valid() && uploads.Valid()
    ensures ds.Valid() && fresh(n) && n.Valid()
    ensures n.metadata.order == ds.metadata.order && Infos(n.metadata) == Infos(ds.metadata)
    ensures forall id :: id in n.metadata.items ==> fresh(n.metadata.items[id])
    ensures n.Here() == ds.Here().(metadata := n.metadata) && n.uploads == uploads
  {
    hide Consistent, Infos, H.UploadHistoryManager.Valid, S.Exact, S.Rebuilt, Keyed, JsMap.Valid;
    Startable(ds.Here(), ds.lower, ds.quotaBytes);
    var metadata := LoadMetadata(ds.metadata, ds.links);
    SameInfos(ds.Here(), metadata, ds.lower, ds.quotaBytes);
    RebuiltAgain(ds.Here(), ds.lower, ds.quotaBytes);
    n := new DatastoreManager.Open(ds, metadata, S.EMPTY, uploads);
    var file := if indexFile then Some(ds.searchIndex) else None;
    n.LoadSearchIndex(file);
  }

  lemma Startable(s: Shelves, lower: string -> string, quotaBytes: nat)
    requires Consistent(s, lower, quotaBytes)
    ensures s.metadata.Valid()
  {}

  lemma RebuiltAgain(s: Shelves, lower: string -> string, quotaBytes: nat)
    requires Consistent(s, lower, quotaBytes)
    ensures S.Rebuilt(lower, Infos(s.metadata)) == s.index
  {
    InfosDistinct(s.metadata);
    S.ExactIffRebuilt(s.index, lower, Infos(s.metadata));
  }
}
