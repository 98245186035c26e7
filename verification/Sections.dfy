/** Turning selected section identifiers into response sections, capped by max_sections:
    internal/handler/query.go and query_multi.go, and the same loops in internal/connecthandler/query.go. */
module Sections {

  datatype Section = Section(
    id: string, parentId: string, title: string, summary: string, tokenCount: int, contentRef: string)

  /** The sections that can be found by identifier. */
  type Tree = map<string, Section>

  /** What reading a reference yields; nothing for a reference that cannot be opened. */
  type Storage = map<string, string>

  datatype Payload = Payload(
    id: string, parentId: string, title: string, summary: string, tokenCount: int, content: string)

  function FetchContent(storage: Storage, ref: string): string {
    if ref == "" then "" else if ref in storage then storage[ref] else ""
  }

  function Fill(storage: Storage, s: Section): Payload {
    Payload(s.id, s.parentId, s.title, s.summary, s.tokenCount, FetchContent(storage, s.contentRef))
  }

  /** A response section shows a section and what the storage holds under its reference, if it holds anything. */
  predicate Shows(storage: Storage, s: Section, p: Payload) {
    && p.id == s.id && p.parentId == s.parentId && p.title == s.title && p.summary == s.summary
    && p.tokenCount == s.tokenCount
    && (s.contentRef != "" && s.contentRef in storage ==> p.content == storage[s.contentRef])
    && (s.contentRef == "" || s.contentRef !in storage ==> p.content == "")
  }

  /** The response sections show, in order, the sections whose identifiers are at these positions. */
  ghost predicate Picks(t: Tree, storage: Storage, ids: seq<string>, at: seq<nat>, ps: seq<Payload>) {
    && |at| == |ps| && (forall j, k :: 0 <= j < k < |at| ==> at[j] < at[k])
    && forall k :: 0 <= k < |at| ==> at[k] < |ids| && ids[at[k]] in t && Shows(storage, t[ids[at[k]]], ps[k])
  }

  /** The sections found for the first n identifiers, in their order. */
  function Found(t: Tree, storage: Storage, ids: seq<string>, n: nat): (ps: seq<Payload>)
    requires n <= |ids|
    ensures |ps| <= n
  {
    if n == 0 then []
    else Found(t, storage, ids, n - 1) + (if ids[n - 1] in t then [Fill(storage, t[ids[n - 1]])] else [])
  }

  lemma PicksOneMore(t: Tree, storage: Storage, ids: seq<string>, at: seq<nat>, ps: seq<Payload>, i: nat)
    requires Picks(t, storage, ids, at, ps) && i < |ids| && ids[i] in t
    requires forall j :: j in at ==> j < i
    ensures Picks(t, storage, ids, at + [i], ps + [Fill(storage, t[ids[i]])])
  {
    assert forall k :: 0 <= k < |at| ==> at[k] in at;
  }

  /** Every identifier that is found yields one response section that shows its section, in their order. */
  lemma {:induction false} FoundPicks(t: Tree, storage: Storage, ids: seq<string>, n: nat) returns (at: seq<nat>)
    requires n <= |ids|
    ensures Picks(t, storage, ids, at, Found(t, storage, ids, n))
    ensures forall i :: i in at <==> 0 <= i < n && ids[i] in t
  {
    at := [];
    if n > 0 {
      at := FoundPicks(t, storage, ids, n - 1);
      assert Found(t, storage, ids, n)
          == Found(t, storage, ids, n - 1) + if ids[n - 1] in t then [Fill(storage, t[ids[n - 1]])] else [];
      if ids[n - 1] in t {
        PicksOneMore(t, storage, ids, at, Found(t, storage, ids, n - 1), n - 1);
        at := at + [n - 1];
      }
    }
  }

  /** At most max of them; no cap unless max is positive. */
  function Capped<T>(s: seq<T>, max: int): (r: seq<T>)
    ensures r <= s && |r| == if 0 < max < |s| then max else |s|
  {
    if max > 0 && |s| > max then s[..max] else s
  }

  /** Single-document queries cap the identifiers first. */
  method SelectSingle(t: Tree, storage: Storage, selected: seq<string>, max: int) returns (sections: seq<Payload>)
    ensures var ids := Capped(selected, max); sections == Found(t, storage, ids, |ids|)
  {
    var ids := selected;
    if max > 0 && |ids| > max {
      ids := ids[..max];
    }
    sections := [];
    for i := 0 to |ids|
      invariant sections == Found(t, storage, ids, i)
    {
      if ids[i] !in t {
        continue;
      }
      var sec := t[ids[i]];
      var content := "";
      if sec.contentRef != "" {
        if sec.contentRef in storage {
          content := storage[sec.contentRef];
        }
      }
      sections := sections + [Payload(sec.id, sec.parentId, sec.title, sec.summary, sec.tokenCount, content)];
    }
  }

  lemma CapReached(t: Tree, storage: Storage, ids: seq<string>, n: nat, max: int)
    requires n <= |ids| && |Found(t, storage, ids, n)| == max
    ensures max > 0 ==> Capped(Found(t, storage, ids, |ids|), max) == Found(t, storage, ids, n)
  {
    FoundGrows(t, storage, ids, n, |ids|);
  }

  /** Multi-document queries stop at the cap while they collect what they find. */
  method SelectMulti(t: Tree, storage: Storage, ids: seq<string>, max: int) returns (sections: seq<Payload>)
    ensures sections == Capped(Found(t, storage, ids, |ids|), max)
  {
    sections := [];
    for i := 0 to |ids|
      invariant sections == Found(t, storage, ids, i)
      invariant max > 0 ==> |sections| < max
    {
      if ids[i] !in t {
        continue;
      }
      var sec := t[ids[i]];
      var content := FetchContent(storage, sec.contentRef);
      sections := sections + [Payload(sec.id, sec.parentId, sec.title, sec.summary, sec.tokenCount, content)];
      if max > 0 && |sections| >= max {
        CapReached(t, storage, ids, i + 1, max);
        break;
      }
    }
  }

  datatype DocumentResult = DocumentResult(tree: Tree, selected: seq<string>)
  datatype DocumentSections = DocumentSections(documentId: string, sections: seq<Payload>)

  /** Every document of the result once, in the unspecified order of a map. */
  method SelectDocuments(result: map<string, DocumentResult>, storage: Storage, max: int)
    returns (docs: seq<DocumentSections>)
    ensures |docs| == |result|
    ensures forall i, j :: 0 <= i < j < |docs| ==> docs[i].documentId != docs[j].documentId
    ensures forall i :: 0 <= i < |docs| ==>
              docs[i].documentId in result &&
              var r := result[docs[i].documentId];
              docs[i].sections == Capped(Found(r.tree, storage, r.selected, |r.selected|), max)
  {
    docs := [];
    var todo := result.Keys;
    while todo != {}
      invariant todo <= result.Keys && |docs| + |todo| == |result|
      invariant forall i, j :: 0 <= i < j < |docs| ==> docs[i].documentId != docs[j].documentId
      invariant forall i :: 0 <= i < |docs| ==>
                  docs[i].documentId in result && docs[i].documentId !in todo &&
                  var r := result[docs[i].documentId];
                  docs[i].sections == Capped(Found(r.tree, storage, r.selected, |r.selected|), max)
      decreases todo
    {
      var docId :| docId in todo;
      var sections := SelectMulti(result[docId].tree, storage, result[docId].selected, max);
      docs := docs + [DocumentSections(docId, sections)];
      todo := todo - {docId};
    }
  }

  // ----- The two orders of capping -----

  predicate AllFound(t: Tree, ids: seq<string>, i: nat, j: nat)
    requires i <= j <= |ids|
  {
    forall k :: i <= k < j ==> ids[k] in t
  }

  predicate NoneFound(t: Tree, ids: seq<string>, i: nat, j: nat)
    requires i <= j <= |ids|
  {
    forall k :: i <= k < j ==> ids[k] !in t
  }

  lemma {:induction false} FoundGrows(t: Tree, storage: Storage, ids: seq<string>, i: nat, j: nat)
    requires i <= j <= |ids|
    ensures Found(t, storage, ids, i) <= Found(t, storage, ids, j)
    ensures |Found(t, storage, ids, i)| == |Found(t, storage, ids, j)| <==> NoneFound(t, ids, i, j)
    decreases j
  {
    if i < j {
      FoundGrows(t, storage, ids, i, j - 1);
    }
  }

  lemma {:induction false} FoundAll(t: Tree, storage: Storage, ids: seq<string>, n: nat)
    requires n <= |ids|
    ensures |Found(t, storage, ids, n)| == n <==> AllFound(t, ids, 0, n)
  {
    if n > 0 {
      FoundAll(t, storage, ids, n - 1);
    }
  }

  lemma {:induction false} FoundPrefix(t: Tree, storage: Storage, ids: seq<string>, more: seq<string>, n: nat)
    requires n <= |ids| && ids <= more
    ensures Found(t, storage, ids, n) == Found(t, storage, more, n)
  {
    if n > 0 {
      FoundPrefix(t, storage, ids, more, n - 1);
    }
  }

  /** Capping first never returns a section that capping last would not, and keeps the order. */
  lemma CapFirstIsPrefix(t: Tree, storage: Storage, ids: seq<string>, max: int)
    ensures var first := Capped(ids, max);
            Found(t, storage, first, |first|) <= Capped(Found(t, storage, ids, |ids|), max)
  {
    if max > 0 && |ids| > max {
      FoundPrefix(t, storage, ids[..max], ids, max);
      FoundGrows(t, storage, ids, max, |ids|);
    }
  }

  /** Both orders agree exactly when there is nothing to cap, or all identifiers up to the cap are found,
      or none after it is. */
  lemma CapOrdersAgreeIff(t: Tree, storage: Storage, ids: seq<string>, max: int)
    ensures (var first := Capped(ids, max);
             Found(t, storage, first, |first|) == Capped(Found(t, storage, ids, |ids|), max))
       <==> (max <= 0 || |ids| <= max || AllFound(t, ids, 0, max) || NoneFound(t, ids, max, |ids|))
  {
    if max > 0 && |ids| > max {
      FoundPrefix(t, storage, ids[..max], ids, max);
      FoundGrows(t, storage, ids, max, |ids|);
      FoundAll(t, storage, ids, max);
    }
  }
}
