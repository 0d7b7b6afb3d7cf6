/** The version links between documents: who lists whom as a previous version, and who is latest. */
module VersionLinks {
  import opened Collections
  import opened Documents

  datatype Link = Link(previousVersions: seq<DocumentId>, isLatest: bool)

  /** Every id was created, each one strictly before the one ahead of it. */
  ghost predicate NewestFirst<I>(ids: seq<I>, born: map<I, nat>) {
    && (forall i :: 0 <= i < |ids| ==> ids[i] in born)
    && (forall i, j :: 0 <= i < j < |ids| ==> born[ids[i]] > born[ids[j]])
  }

  lemma Prepend<I>(id: I, ids: seq<I>, born: map<I, nat>)
    requires id in born && NewestFirst(ids, born) && forall i :: 0 <= i < |ids| ==> born[ids[i]] < born[id]
    ensures NewestFirst([id] + ids, born)
  {}

  /**
   * A document's list runs strictly back in time; what it lists that is still live is superseded, and lists the rest.
   */
  ghost predicate Sound(id: DocumentId, links: map<DocumentId, Link>, born: map<DocumentId, nat>)
    requires id in links
  {
    var prev := links[id].previousVersions;
    && id in born && NewestFirst(prev, born)
    && (forall i :: 0 <= i < |prev| ==> born[prev[i]] < born[id])
    && forall i :: 0 <= i < |prev| && prev[i] in links ==>
         !links[prev[i]].isLatest && links[prev[i]].previousVersions == prev[i + 1..]
  }

  ghost predicate Lineage(links: map<DocumentId, Link>, born: map<DocumentId, nat>) {
    forall id :: id in links ==> Sound(id, links, born)
  }

  /** What linking `newId` as the new version of `id` does, also when the two are the same document. */
  function Linked(links: map<DocumentId, Link>, id: DocumentId, newId: DocumentId): map<DocumentId, Link>
    requires id in links && newId in links
  {
    var newer := links[newId := links[newId].(previousVersions := [id] + links[id].previousVersions)];
    newer[id := newer[id].(isLatest := false)]
  }

  /** No list repeats an id or contains its owner. */
  lemma NoRepeats(id: DocumentId, links: map<DocumentId, Link>, born: map<DocumentId, nat>)
    requires id in links && Sound(id, links, born)
    ensures NoDup(links[id].previousVersions) && id !in links[id].previousVersions
  {
    var prev := links[id].previousVersions;
    forall i, j | 0 <= i < j < |prev| ensures prev[i] != prev[j] {
      assert born[prev[i]] > born[prev[j]];
    }
  }

  lemma StoreKeeps(links: map<DocumentId, Link>, born: map<DocumentId, nat>, newId: DocumentId, now: nat)
    requires newId !in born && newId !in links
    ensures Lineage(links, born) ==> Lineage(links[newId := Link([], true)], born[newId := now])
  {
    if Lineage(links, born) {
      var links', born' := links[newId := Link([], true)], born[newId := now];
      forall id | id in links' ensures Sound(id, links', born') {
        if id != newId {
          assert Sound(id, links, born);
        }
      }
    }
  }

  lemma DeleteKeeps(links: map<DocumentId, Link>, born: map<DocumentId, nat>, gone: DocumentId)
    requires Lineage(links, born)
    ensures Lineage(links - {gone}, born)
  {
    forall id | id in links - {gone} ensures Sound(id, links - {gone}, born) {
      assert Sound(id, links, born);
    }
  }

  /**
   * What a caller has to look at before linking: the new version was created after the document it replaces, and
   * nobody lists it yet, or it already has the very list it is about to get.
   */
  ghost predicate LinkFits(links: map<DocumentId, Link>, born: map<DocumentId, nat>, id: DocumentId, newId: DocumentId)
    requires id in links && newId in links
  {
    && id in born && newId in born && born[id] < born[newId]
    && (Unlisted(links, newId) || links[newId].previousVersions == [id] + links[id].previousVersions)
  }

  ghost predicate Unlisted(links: map<DocumentId, Link>, id: DocumentId) {
    forall x :: x in links ==> id !in links[x].previousVersions
  }

  /** Linking keeps the lineage exactly when it fits. */
  lemma LinkKeepsLineage(links: map<DocumentId, Link>, born: map<DocumentId, nat>, id: DocumentId, newId: DocumentId)
    requires Lineage(links, born) && id in links && newId in links
    ensures Lineage(Linked(links, id, newId), born) <==> LinkFits(links, born, id, newId)
  {
    hide Lineage, LinkFits;
    if LinkFits(links, born, id, newId) {
      FittingLinkKeeps(links, born, id, newId);
    }
    if Lineage(Linked(links, id, newId), born) {
      KeptLinkFits(links, born, id, newId);
    }
  }

  lemma FittingLinkKeeps(links: map<DocumentId, Link>, born: map<DocumentId, nat>, id: DocumentId, newId: DocumentId)
    requires Lineage(links, born) && id in links && newId in links && LinkFits(links, born, id, newId)
    ensures Lineage(Linked(links, id, newId), born)
  {
    var after, list := Linked(links, id, newId), [id] + links[id].previousVersions;
    assert Sound(id, links, born) && Sound(newId, links, born);
    forall x | x in after ensures Sound(x, after, born) {
      assert Sound(x, links, born);
      if x == newId {
        Prepend(id, links[id].previousVersions, born);
        assert list[1..] == links[id].previousVersions;
        forall i | 0 <= i < |list| && list[i] in after
          ensures !after[list[i]].isLatest && after[list[i]].previousVersions == list[i + 1..]
        {
          if i > 0 {
            assert list[i] == links[id].previousVersions[i - 1];
          }
        }
      } else {
        assert after[x].previousVersions == links[x].previousVersions;
      }
    }
  }

  lemma KeptLinkFits(links: map<DocumentId, Link>, born: map<DocumentId, nat>, id: DocumentId, newId: DocumentId)
    requires Lineage(links, born) && id in links && newId in links && Lineage(Linked(links, id, newId), born)
    ensures LinkFits(links, born, id, newId)
  {
    var after := Linked(links, id, newId);
    assert Sound(newId, after, born) && after[newId].previousVersions[0] == id;
    if x :| x in links && newId in links[x].previousVersions {
      assert Sound(x, links, born) && Sound(x, after, born);
      NoRepeats(x, links, born);
      var i :| 0 <= i < |links[x].previousVersions| && links[x].previousVersions[i] == newId;
      assert after[x].previousVersions == links[x].previousVersions;
    }
  }

  /** A document just created always fits. */
  lemma NewContentFits(links: map<DocumentId, Link>, born: map<DocumentId, nat>, id: DocumentId, newId: DocumentId,
                       now: nat)
    requires Lineage(links, born) && id in links && newId !in born && forall x :: x in born ==> born[x] < now
    ensures LinkFits(links[newId := Link([], true)], born[newId := now], id, newId)
  {
    assert Sound(id, links, born);
    forall x | x in links ensures newId !in links[x].previousVersions {
      assert Sound(x, links, born);
    }
  }

  /**
   * Updating the newer of two unrelated documents with the older one's content: no list repeats, yet history runs
   * backwards.
   */
  lemma OlderContentReversesHistory(a: DocumentId, b: DocumentId)
    requires a != b
    ensures var links, born := map[b := Link([], true), a := Link([], true)], map[b := 0, a := 1];
            var after := Linked(links, a, b);
            && Lineage(links, born) && !Lineage(after, born)
            && b !in after[b].previousVersions && NoDup(after[b].previousVersions)
            && [b] + after[b].previousVersions == [b, a] && born[b] < born[a]
  {
    var links, born := map[b := Link([], true), a := Link([], true)], map[b := 0, a := 1];
    assert Sound(a, links, born) && Sound(b, links, born);
    LinkKeepsLineage(links, born, a, b);
  }

  /** The live part of a sound history still runs strictly back in time. */
  lemma HistoryNewestFirst(id: DocumentId, links: map<DocumentId, Link>, born: map<DocumentId, nat>)
    requires id in links && Sound(id, links, born)
    ensures NewestFirst([id] + Filter(links[id].previousVersions, Live(links)), born)
  {
    var prev := links[id].previousVersions;
    var later := (a: DocumentId, b: DocumentId) => a in born && b in born && born[a] > born[b];
    FilterOrdered(prev, Live(links), later);
    var kept := Filter(prev, Live(links));
    forall i | 0 <= i < |kept| ensures kept[i] in born && born[kept[i]] < born[id] {
      FilterMember(prev, Live(links), kept[i]);
      var j :| 0 <= j < |prev| && prev[j] == kept[i];
    }
    forall i, j | 0 <= i < j < |kept| ensures born[kept[i]] > born[kept[j]] {
      assert later(kept[i], kept[j]);
    }
    Prepend(id, kept, born);
  }

  function Live(links: map<DocumentId, Link>): DocumentId -> bool {
    (id: DocumentId) => id in links
  }
}
