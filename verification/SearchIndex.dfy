/** The document search index: four inverted lists, by lower-cased name, organization, tag and version. */
module SearchIndex {
  import opened Collections
  import opened Documents
  import P = Postings

  datatype Dimension = ByName | ByOrg | ByTag | ByVersion

  type Lists = map<string, seq<DocumentId>>

  datatype SearchIndex = SearchIndex(byName: Lists, byOrg: Lists, byTag: Lists, byVersion: Lists)

  const EMPTY: SearchIndex := SearchIndex(map[], map[], map[], map[])

  function KeysOf(d: Dimension, lower: string -> string, info: Info): seq<string> {
    match d
    case ByName => [lower(info.name)]
    case ByOrg => if info.organization != "" then [lower(info.organization)] else []
    case ByTag => Map(info.tags, lower)
    case ByVersion => [lower(info.version)]
  }

  function PostingOf(d: Dimension, lower: string -> string): Info -> P.Posting<DocumentId, string> {
    (info: Info) => P.Posting(info.id, KeysOf(d, lower, info))
  }

  function Get(index: SearchIndex, d: Dimension): Lists {
    match d
    case ByName => index.byName
    case ByOrg => index.byOrg
    case ByTag => index.byTag
    case ByVersion => index.byVersion
  }

  function Updated(index: SearchIndex, lower: string -> string, info: Info): SearchIndex {
    SearchIndex(
      P.PushAll(index.byName, KeysOf(ByName, lower, info), info.id),
      P.PushAll(index.byOrg, KeysOf(ByOrg, lower, info), info.id),
      P.PushAll(index.byTag, KeysOf(ByTag, lower, info), info.id),
      P.PushAll(index.byVersion, KeysOf(ByVersion, lower, info), info.id))
  }

  function Removed(index: SearchIndex, lower: string -> string, info: Info): SearchIndex {
    SearchIndex(
      P.DropAll(index.byName, KeysOf(ByName, lower, info), info.id),
      P.DropAll(index.byOrg, KeysOf(ByOrg, lower, info), info.id),
      P.DropAll(index.byTag, KeysOf(ByTag, lower, info), info.id),
      P.DropAll(index.byVersion, KeysOf(ByVersion, lower, info), info.id))
  }

  /** What a rebuild from the metadata gives. */
  function Rebuilt(lower: string -> string, infos: seq<Info>): SearchIndex {
    if infos == [] then EMPTY else Updated(Rebuilt(lower, infos[..|infos| - 1]), lower, infos[|infos| - 1])
  }

  /** For every dimension and key, the ids of the documents that carry the key, in metadata order, and no empty list. */
  ghost predicate Exact(index: SearchIndex, lower: string -> string, infos: seq<Info>) {
    forall d: Dimension :: P.Exact(Get(index, d), Map(infos, PostingOf(d, lower)))
  }

  /**
   * Who is filed where, field by field: under its name, its organization if it has one, each of its tags, and its
   * version, all in lower case; and nowhere else.
   */
  lemma FiledUnder(index: SearchIndex, lower: string -> string, infos: seq<Info>, k: string, id: DocumentId)
    requires Exact(index, lower, infos)
    ensures id in P.Lookup(index.byName, k) <==>
            exists i :: 0 <= i < |infos| && infos[i].id == id && lower(infos[i].name) == k
    ensures id in P.Lookup(index.byOrg, k) <==>
            exists i :: 0 <= i < |infos| && infos[i].id == id && infos[i].organization != ""
                        && lower(infos[i].organization) == k
    ensures id in P.Lookup(index.byTag, k) <==>
            exists i, t :: 0 <= i < |infos| && infos[i].id == id && t in infos[i].tags && lower(t) == k
    ensures id in P.Lookup(index.byVersion, k) <==>
            exists i :: 0 <= i < |infos| && infos[i].id == id && lower(infos[i].version) == k
  {
    hide P.Exact, P.ListFor, P.Lookup;
    CarriersFiled(index, lower, infos, ByName, k, id);
    CarriersFiled(index, lower, infos, ByOrg, k, id);
    CarriersFiled(index, lower, infos, ByVersion, k, id);
    TaggedFiled(index, lower, infos, k, id);
  }

  lemma CarriersFiled(index: SearchIndex, lower: string -> string, infos: seq<Info>, d: Dimension, k: string,
                      id: DocumentId)
    requires Exact(index, lower, infos)
    ensures id in P.Lookup(Get(index, d), k) <==>
            exists i :: 0 <= i < |infos| && infos[i].id == id && k in KeysOf(d, lower, infos[i])
  {
    hide KeysOf, P.ListFor;
    assert P.Exact(Get(index, d), Map(infos, PostingOf(d, lower)));
    P.ListForMember(Map(infos, PostingOf(d, lower)), k, id);
  }

  lemma TaggedFiled(index: SearchIndex, lower: string -> string, infos: seq<Info>, k: string, id: DocumentId)
    requires Exact(index, lower, infos)
    ensures id in P.Lookup(index.byTag, k) <==>
            exists i, t :: 0 <= i < |infos| && infos[i].id == id && t in infos[i].tags && lower(t) == k
  {
    hide P.Exact, P.ListFor, P.Lookup;
    CarriersFiled(index, lower, infos, ByTag, k, id);
    forall i | 0 <= i < |infos|
      ensures k in KeysOf(ByTag, lower, infos[i]) <==> exists t :: t in infos[i].tags && lower(t) == k
    {
      MapMember(infos[i].tags, lower, k);
    }
  }

  lemma MapMember(tags: seq<string>, lower: string -> string, k: string)
    ensures k in Map(tags, lower) <==> exists t :: t in tags && lower(t) == k
  {
    if t :| t in tags && lower(t) == k {
      var i :| 0 <= i < |tags| && tags[i] == t;
      assert Map(tags, lower)[i] == k;
    }
  }

  ghost predicate DistinctIds(infos: seq<Info>) {
    forall i, j :: 0 <= i < j < |infos| ==> infos[i].id != infos[j].id
  }

  lemma UpdatedExact(index: SearchIndex, lower: string -> string, infos: seq<Info>, info: Info)
    requires Exact(index, lower, infos) && forall i :: 0 <= i < |infos| ==> infos[i].id != info.id
    ensures Exact(Updated(index, lower, info), lower, infos + [info])
  {
    hide P.Exact, P.PushAll, KeysOf;
    forall d: Dimension ensures P.Exact(Get(Updated(index, lower, info), d), Map(infos + [info], PostingOf(d, lower))) {
      var postings := Map(infos, PostingOf(d, lower));
      P.PushExact(Get(index, d), postings, PostingOf(d, lower)(info));
      assert (infos + [info])[..|infos|] == infos;
    }
  }

  lemma RemovedExact(index: SearchIndex, lower: string -> string, infos: seq<Info>, at: nat)
    requires Exact(index, lower, infos) && DistinctIds(infos) && at < |infos|
    ensures Exact(Removed(index, lower, infos[at]), lower, RemoveAt(infos, at))
  {
    hide P.Exact, P.DropAll, KeysOf, RemoveAt;
    forall d: Dimension
      ensures P.Exact(Get(Removed(index, lower, infos[at]), d), Map(RemoveAt(infos, at), PostingOf(d, lower)))
    {
      var postings := Map(infos, PostingOf(d, lower));
      P.DropExact(Get(index, d), postings, at);
      assert Map(RemoveAt(infos, at), PostingOf(d, lower)) == RemoveAt(postings, at);
    }
  }

  lemma {:induction false} RebuiltExact(lower: string -> string, infos: seq<Info>)
    requires DistinctIds(infos)
    ensures Exact(Rebuilt(lower, infos), lower, infos)
  {
    hide Updated;
    if infos == [] {
    } else {
      var init, last := infos[..|infos| - 1], infos[|infos| - 1];
      RebuiltExact(lower, init);
      UpdatedExact(Rebuilt(lower, init), lower, init, last);
      assert infos == init + [last];
    }
  }

  /** An exact index is what a rebuild gives, and the other way round. */
  lemma ExactIffRebuilt(index: SearchIndex, lower: string -> string, infos: seq<Info>)
    requires DistinctIds(infos)
    ensures Exact(index, lower, infos) <==> index == Rebuilt(lower, infos)
  {
    hide P.Exact, Rebuilt, Updated, KeysOf, Map;
    var rebuilt := Rebuilt(lower, infos);
    RebuiltExact(lower, infos);
    if Exact(index, lower, infos) {
      forall d: Dimension ensures Get(index, d) == Get(rebuilt, d) {
        P.ExactIsUnique(Get(index, d), Get(rebuilt, d), Map(infos, PostingOf(d, lower)));
      }
      assert Get(index, ByName) == Get(rebuilt, ByName) && Get(index, ByOrg) == Get(rebuilt, ByOrg);
      assert Get(index, ByTag) == Get(rebuilt, ByTag) && Get(index, ByVersion) == Get(rebuilt, ByVersion);
    }
  }

  /** A run of stores and deletes, as far as the index is concerned. */
  datatype Change = Stored(info: Info) | Deleted(id: DocumentId)

  function HasId(id: DocumentId): Info -> bool {
    (info: Info) => info.id == id
  }

  function InfosAfter(run: seq<Change>): seq<Info> {
    if run == [] then []
    else
      var infos := InfosAfter(run[..|run| - 1]);
      match run[|run| - 1]
      case Stored(info) => if FindIndex(infos, HasId(info.id)).Some? then infos else infos + [info]
      case Deleted(id) => var at := FindIndex(infos, HasId(id)); if at.Some? then RemoveAt(infos, at.value) else infos
  }

  function IndexAfter(lower: string -> string, run: seq<Change>): SearchIndex {
    if run == [] then EMPTY
    else
      var infos, index := InfosAfter(run[..|run| - 1]), IndexAfter(lower, run[..|run| - 1]);
      match run[|run| - 1]
      case Stored(info) => if FindIndex(infos, HasId(info.id)).Some? then index else Updated(index, lower, info)
      case Deleted(id) =>
        var at := FindIndex(infos, HasId(id));
        if at.Some? then Removed(index, lower, infos[at.value]) else index
  }

  /** Over every run, the index kept up step by step is the index a rebuild would give at the end. */
  lemma {:induction false} IncrementalIsRebuild(lower: string -> string, run: seq<Change>)
    ensures DistinctIds(InfosAfter(run))
    ensures IndexAfter(lower, run) == Rebuilt(lower, InfosAfter(run))
  {
    hide Updated, Removed, Exact, Rebuilt;
    if run == [] {
      RebuiltEmpty(lower);
    } else {
      var before, infos := run[..|run| - 1], InfosAfter(run[..|run| - 1]);
      IncrementalIsRebuild(lower, before);
      ExactIffRebuilt(IndexAfter(lower, before), lower, infos);
      match run[|run| - 1]
      case Stored(info) =>
        if FindIndex(infos, HasId(info.id)).None? {
          UpdatedExact(IndexAfter(lower, before), lower, infos, info);
          ExactIffRebuilt(IndexAfter(lower, run), lower, infos + [info]);
        }
      case Deleted(id) =>
        if FindIndex(infos, HasId(id)).Some? {
          RemovedExact(IndexAfter(lower, before), lower, infos, FindIndex(infos, HasId(id)).value);
          ExactIffRebuilt(IndexAfter(lower, run), lower, RemoveAt(infos, FindIndex(infos, HasId(id)).value));
        }
    }
  }

  lemma RebuiltEmpty(lower: string -> string)
    ensures Rebuilt(lower, []) == EMPTY
  {}
}
