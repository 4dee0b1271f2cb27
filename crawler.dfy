/**
 * The critical section of the crawler: recording one fetched page, its id, its edge to the page
 * that linked to it, the connectivity-matrix cell of that edge, the edges to already-known pages
 * it links to, and the queue entries for the links not seen yet.
 *
 * The HTTP fetch and HTML parsing happen before the lock and are an input record here; the
 * worker threads, the lock itself and the progress bar are not part of this model.
 */
module Crawling {
  import opened Wrappers
  import opened Seqs

  /** The fields of one crawled page, as the crawler constructs it. */
  datatype Page = Page(
    id: nat,
    title: string,
    url: string,
    lastModified: string,
    links: seq<string>,
    childrenId: seq<nat>,
    parentsId: seq<nat>,
    text: string,
    pagerank: real,
    size: nat,
    freqWords: map<string, nat>)

  /** What the parser returns for a fetched URL. */
  datatype Fetched = Fetched(title: string, lastModified: string, links: seq<string>, originalPage: string, size: nat)

  /** A work item: a URL and the id of the page that linked to it (none for the seed URL). */
  datatype QueueItem = QueueItem(url: string, parent: Option<nat>)

  /** The page record created for `url` with id `id`: no edges yet, PageRank not computed (-1.0). */
  function NewPage(id: nat, url: string, fetched: Fetched): (p: Page)
    ensures p.id == id && p.url == url && p.links == fetched.links
    ensures p.childrenId == [] && p.parentsId == [] && p.pagerank == -1.0
  {
    Page(id, fetched.title, url, fetched.lastModified, fetched.links, [], [], fetched.originalPage, -1.0, fetched.size, map[])
  }

  /** Page `k` carries id `k`. */
  predicate IdsAreIndices(pages: seq<Page>)
  {
    forall k | 0 <= k < |pages| :: pages[k].id == k
  }

  /** Every child and parent id names a page. */
  predicate EdgesInRange(pages: seq<Page>)
  {
    forall k | 0 <= k < |pages| ::
      (forall c | c in pages[k].childrenId :: c < |pages|) && (forall p | p in pages[k].parentsId :: p < |pages|)
  }

  /** `j` is listed among `i`'s children exactly as often as `i` among `j`'s parents. */
  predicate EdgesPaired(pages: seq<Page>)
  {
    forall i: nat, j: nat | i < |pages| && j < |pages| :: Count(pages[i].childrenId, j) == Count(pages[j].parentsId, i)
  }

  predicate WellLinked(pages: seq<Page>)
  {
    IdsAreIndices(pages) && EdgesInRange(pages) && EdgesPaired(pages)
  }

  /** `from`'s children gain `to` and `to`'s parents gain `from`; nothing else changes. */
  function AddEdge(pages: seq<Page>, from: nat, to: nat): (r: seq<Page>)
    requires from < |pages| && to < |pages|
    ensures |r| == |pages|
    ensures forall k | 0 <= k < |r| ::
      r[k] == pages[k].(childrenId := pages[k].childrenId + (if k == from then [to] else []),
                        parentsId := pages[k].parentsId + (if k == to then [from] else []))
  {
    var withChild := pages[from := pages[from].(childrenId := pages[from].childrenId + [to])];
    withChild[to := withChild[to].(parentsId := withChild[to].parentsId + [from])]
  }

  lemma CountSnoc(s: seq<nat>, x: nat, y: nat)
    ensures Count(s + [x], y) == Count(s, y) + (if x == y then 1 else 0)
  {
    assert (s + [x])[..|s|] == s;
  }

  /** Adding an edge between two existing pages keeps the pages well linked. */
  lemma AddEdgeWellLinked(pages: seq<Page>, from: nat, to: nat)
    requires WellLinked(pages) && from < |pages| && to < |pages|
    ensures WellLinked(AddEdge(pages, from, to))
  {
    AddEdgeInRange(pages, from, to);
    AddEdgePaired(pages, from, to);
  }

  /** The edge lists of page `k` after `AddEdge`. */
  lemma AddEdgeAt(pages: seq<Page>, from: nat, to: nat, k: nat)
    requires from < |pages| && to < |pages| && k < |pages|
    ensures AddEdge(pages, from, to)[k].id == pages[k].id
    ensures AddEdge(pages, from, to)[k].childrenId == pages[k].childrenId + (if k == from then [to] else [])
    ensures AddEdge(pages, from, to)[k].parentsId == pages[k].parentsId + (if k == to then [from] else [])
  {
  }

  lemma AddEdgeInRange(pages: seq<Page>, from: nat, to: nat)
    requires IdsAreIndices(pages) && EdgesInRange(pages) && from < |pages| && to < |pages|
    ensures IdsAreIndices(AddEdge(pages, from, to)) && EdgesInRange(AddEdge(pages, from, to))
  {
    var r := AddEdge(pages, from, to);
    forall k | 0 <= k < |r|
      ensures r[k].id == k
      ensures (forall c | c in r[k].childrenId :: c < |r|) && (forall p | p in r[k].parentsId :: p < |r|)
    {
      AddEdgeAt(pages, from, to, k);
    }
  }

  lemma AddEdgePaired(pages: seq<Page>, from: nat, to: nat)
    requires EdgesPaired(pages) && from < |pages| && to < |pages|
    ensures EdgesPaired(AddEdge(pages, from, to))
  {
    var r := AddEdge(pages, from, to);
    forall i: nat, j: nat | i < |r| && j < |r|
      ensures Count(r[i].childrenId, j) == Count(r[j].parentsId, i)
    {
      AddEdgeAt(pages, from, to, i);
      AddEdgeAt(pages, from, to, j);
      if i == from {
        CountSnoc(pages[i].childrenId, to, j);
      } else {
        assert r[i].childrenId == pages[i].childrenId + [];
      }
      if j == to {
        CountSnoc(pages[j].parentsId, from, i);
      } else {
        assert r[j].parentsId == pages[j].parentsId + [];
      }
    }
  }

  /** `b` is `a` with possibly more edges: same pages, same ids, each edge list only extended at its end. */
  predicate Extends(a: seq<Page>, b: seq<Page>)
  {
    |a| <= |b| && forall k | 0 <= k < |a| :: b[k].id == a[k].id && a[k].childrenId <= b[k].childrenId
  }

  lemma ExtendsTransitive(a: seq<Page>, b: seq<Page>, c: seq<Page>)
    requires Extends(a, b) && Extends(b, c)
    ensures Extends(a, c)
  {
    forall k | 0 <= k < |a|
      ensures a[k].childrenId <= c[k].childrenId
    {
      assert a[k].childrenId == b[k].childrenId[..|a[k].childrenId|];
      assert b[k].childrenId == c[k].childrenId[..|b[k].childrenId|];
    }
  }

  lemma PrefixMember(a: seq<nat>, b: seq<nat>, x: nat)
    requires a <= b && x in a
    ensures x in b
  {
    var k :| 0 <= k < |a| && a[k] == x;
    assert b[k] == x;
  }

  /** The page list after line 38 and, when there is a parent, lines 51-53. */
  function Created(pages: seq<Page>, url: string, parentId: Option<nat>, fetched: Fetched): (r: seq<Page>)
    requires parentId.Some? ==> parentId.value < |pages|
    ensures |r| == |pages| + 1
  {
    var appended := pages + [NewPage(|pages|, url, fetched)];
    if parentId.Some? then AddEdge(appended, parentId.value, |pages|) else appended
  }

  /** Creating the page keeps the list well linked and only extends the old pages. */
  lemma CreatedWellLinked(pages: seq<Page>, url: string, parentId: Option<nat>, fetched: Fetched)
    requires WellLinked(pages) && (parentId.Some? ==> parentId.value < |pages|)
    ensures WellLinked(Created(pages, url, parentId, fetched))
    ensures Extends(pages, Created(pages, url, parentId, fetched))
    ensures Created(pages, url, parentId, fetched)[|pages|].parentsId == if parentId.Some? then [parentId.value] else []
    ensures parentId.Some? ==> |pages| in Created(pages, url, parentId, fetched)[parentId.value].childrenId
  {
    var appended := pages + [NewPage(|pages|, url, fetched)];
    AppendWellLinked(pages, NewPage(|pages|, url, fetched));
    if parentId.Some? {
      AddEdgeWellLinked(appended, parentId.value, |pages|);
      AddEdgeAt(appended, parentId.value, |pages|, parentId.value);
      AddEdgeAt(appended, parentId.value, |pages|, |pages|);
      AddEdgeExtends(appended, parentId.value, |pages|);
      ExtendsTransitive(pages, appended, AddEdge(appended, parentId.value, |pages|));
    }
  }

  /** Appending a page with the next id and no edges keeps the list well linked. */
  lemma AppendWellLinked(pages: seq<Page>, p: Page)
    requires WellLinked(pages) && p.id == |pages| && p.childrenId == [] && p.parentsId == []
    ensures WellLinked(pages + [p]) && Extends(pages, pages + [p])
  {
    var appended := pages + [p];
    assert forall k | 0 <= k < |pages| :: appended[k] == pages[k];
    AppendPaired(pages, p);
  }

  lemma AppendPaired(pages: seq<Page>, p: Page)
    requires EdgesInRange(pages) && EdgesPaired(pages) && p.childrenId == [] && p.parentsId == []
    ensures EdgesPaired(pages + [p])
  {
    var appended := pages + [p];
    forall i: nat, j: nat | i < |appended| && j < |appended|
      ensures Count(appended[i].childrenId, j) == Count(appended[j].parentsId, i)
    {
      if i == |pages| || j == |pages| {
        if i < |pages| {
          assert Count(appended[i].childrenId, j) == 0 by {
            assert appended[i] == pages[i] && j == |pages|;
            assert j !in pages[i].childrenId;
            CountAbsent(appended[i].childrenId, j);
          }
        }
        if j < |pages| {
          assert Count(appended[j].parentsId, i) == 0 by {
            assert appended[j] == pages[j] && i == |pages|;
            assert i !in pages[j].parentsId;
            CountAbsent(appended[j].parentsId, i);
          }
        }
      } else {
        assert appended[i] == pages[i] && appended[j] == pages[j];
      }
    }
  }

  lemma {:induction false} CountAbsent(s: seq<nat>, x: nat)
    requires x !in s
    ensures Count(s, x) == 0
    decreases |s|
  {
    if s != [] {
      CountAbsent(s[..|s| - 1], x);
    }
  }

  /** The page list after the known links of `links` have been turned into edges from `pageId`. */
  function LinkAll(pages: seq<Page>, pageToId: map<string, nat>, pageId: nat, links: seq<string>): (r: seq<Page>)
    requires pageId < |pages| && forall u | u in pageToId :: pageToId[u] < |pages|
    ensures |r| == |pages|
  {
    if links == [] then pages
    else
      var prev := LinkAll(pages, pageToId, pageId, links[..|links| - 1]);
      var link := links[|links| - 1];
      if link in pageToId then AddEdge(prev, pageId, pageToId[link]) else prev
  }

  /** The ids of the known links, in link order. */
  function KnownTargets(links: seq<string>, pageToId: map<string, nat>): (r: seq<nat>)
    ensures forall k | 0 <= k < |r| :: r[k] in pageToId.Values
    ensures |r| == |Selected(links, l => l in pageToId)|
    ensures forall k | 0 <= k < |r| ::
      links[Selected(links, l => l in pageToId)[k]] in pageToId && r[k] == pageToId[links[Selected(links, l => l in pageToId)[k]]]
  {
    if links == [] then []
    else
      var prev := KnownTargets(links[..|links| - 1], pageToId);
      assert forall i | 0 <= i < |links| - 1 :: links[..|links| - 1][i] == links[i];
      var link := links[|links| - 1];
      if link in pageToId then prev + [pageToId[link]] else prev
  }

  lemma AddEdgeExtends(pages: seq<Page>, from: nat, to: nat)
    requires from < |pages| && to < |pages|
    ensures Extends(pages, AddEdge(pages, from, to))
  {
  }

  /** Linking keeps the pages well linked and only extends edge lists. */
  lemma {:induction false} LinkAllWellLinked(pages: seq<Page>, pageToId: map<string, nat>, pageId: nat, links: seq<string>)
    requires WellLinked(pages)
    requires pageId < |pages| && forall u | u in pageToId :: pageToId[u] < |pages|
    ensures WellLinked(LinkAll(pages, pageToId, pageId, links))
    ensures Extends(pages, LinkAll(pages, pageToId, pageId, links))
    decreases |links|
  {
    if links != [] {
      var init := links[..|links| - 1];
      var prev := LinkAll(pages, pageToId, pageId, init);
      LinkAllWellLinked(pages, pageToId, pageId, init);
      var link := links[|links| - 1];
      if link in pageToId {
        AddEdgeWellLinked(prev, pageId, pageToId[link]);
        AddEdgeExtends(prev, pageId, pageToId[link]);
        ExtendsTransitive(pages, prev, AddEdge(prev, pageId, pageToId[link]));
      }
    }
  }

  /** The new page's children gain exactly the ids of the known links, in link order. */
  lemma {:induction false} LinkAllChildren(pages: seq<Page>, pageToId: map<string, nat>, pageId: nat, links: seq<string>)
    requires pageId < |pages| && forall u | u in pageToId :: pageToId[u] < |pages|
    ensures LinkAll(pages, pageToId, pageId, links)[pageId].childrenId == pages[pageId].childrenId + KnownTargets(links, pageToId)
    decreases |links|
  {
    if links == [] {
      assert pages[pageId].childrenId + [] == pages[pageId].childrenId;
    } else {
      var init := links[..|links| - 1];
      LinkAllChildren(pages, pageToId, pageId, init);
      var prev := LinkAll(pages, pageToId, pageId, init);
      var link := links[|links| - 1];
      if link in pageToId {
        assert AddEdge(prev, pageId, pageToId[link])[pageId].childrenId == prev[pageId].childrenId + [pageToId[link]];
      }
    }
  }

  /** The queue entries for the links not yet known, each with `pageId` as its parent, in link order. */
  function Enqueued(links: seq<string>, pageToId: map<string, nat>, pageId: nat): (r: seq<QueueItem>)
    ensures forall k | 0 <= k < |r| :: r[k].url in links && r[k].url !in pageToId && r[k].parent == Some(pageId)
    ensures forall l | l in links && l !in pageToId :: QueueItem(l, Some(pageId)) in r
  {
    if links == [] then []
    else
      var init := links[..|links| - 1];
      var prev := Enqueued(init, pageToId, pageId);
      var link := links[|links| - 1];
      assert forall l | l in links :: l in init || l == link;
      if link !in pageToId then prev + [QueueItem(link, Some(pageId))] else prev
  }

  /** Every id the URL map hands out names one of the first `n` pages. */
  predicate KnownIdsBelow(pageToId: map<string, nat>, n: nat)
  {
    forall u | u in pageToId :: pageToId[u] < n
  }

  /** Every queued parent id names one of the first `n` pages. */
  predicate QueuedParentsBelow(queue: seq<QueueItem>, n: nat)
  {
    forall k | 0 <= k < |queue| :: queue[k].parent.Some? ==> queue[k].parent.value < n
  }

  /** Mapping a URL to the next id keeps every id below the new page count. */
  lemma KnownIdsGrow(pageToId: map<string, nat>, url: string, n: nat)
    requires KnownIdsBelow(pageToId, n)
    ensures KnownIdsBelow(pageToId[url := n], n + 1)
  {
  }

  lemma QueuedParentsAppend(queue: seq<QueueItem>, extra: seq<QueueItem>, n: nat, m: nat)
    requires QueuedParentsBelow(queue, n) && QueuedParentsBelow(extra, m) && n <= m
    ensures QueuedParentsBelow(queue + extra, m)
  {
  }

  class Crawler {
    /** The pages in id order. */
    var pages: seq<Page>
    /** URL to page id; the latest page created for a URL wins. */
    var pageToId: map<string, nat>
    /** The pending work items, oldest first. */
    var urlQueue: seq<QueueItem>
    /** `connectivity_matrix[i, j]` is 1.0 when page `i` was the parent through which `j` was reached. */
    var matrix: array2<real>
    const initialUrl: string
    const maxPages: nat

    ghost predicate Valid()
      reads this, matrix
    {
      && WellLinked(pages)
      && KnownIdsBelow(pageToId, |pages|)
      && QueuedParentsBelow(urlQueue, |pages|)
      && matrix.Length0 == matrix.Length1
      && MatrixRecordsEdges(pages)
    }

    /** Every non-zero matrix cell (i, j) is an edge of `ps`: j is among i's children. */
    ghost predicate MatrixRecordsEdges(ps: seq<Page>)
      reads this, matrix
    {
      forall i, j | 0 <= i < matrix.Length0 && 0 <= j < matrix.Length1 ::
        matrix[i, j] != 0.0 ==> i < |ps| && j < |ps| && j in ps[i].childrenId
    }

    /** A crawler with no page, no work and no matrix yet. */
    constructor (initialUrl: string, maxPages: nat := 300)
      ensures Valid() && fresh(matrix) && matrix.Length0 == 0 && matrix.Length1 == 0
      ensures this.initialUrl == initialUrl && this.maxPages == maxPages
      ensures pages == [] && pageToId == map[] && urlQueue == []
    {
      this.initialUrl := initialUrl;
      this.maxPages := maxPages;
      pages, pageToId, urlQueue := [], map[], [];
      matrix := new real[0, 0];
    }

    /** The start of a crawl: an all-zero max_pages x max_pages matrix and the seed URL queued without a parent. */
    method Seed()
      requires Valid()
      modifies this
      ensures Valid() && fresh(matrix)
      ensures matrix.Length0 == maxPages && matrix.Length1 == maxPages
      ensures forall i, j | 0 <= i < maxPages && 0 <= j < maxPages :: matrix[i, j] == 0.0
      ensures pages == old(pages) && pageToId == old(pageToId)
      ensures urlQueue == old(urlQueue) + [QueueItem(initialUrl, None)]
    {
      matrix := new real[maxPages, maxPages]((i, j) => 0.0);
      urlQueue := urlQueue + [QueueItem(initialUrl, None)];
    }

    /**
     * The locked section of `crawl` for `url`, reached from `parentId`, with the parsed page
     * `fetched`. The new page takes the next id and `url` is mapped to it, whether or not the
     * URL was known. When there is a parent and the new id is outside the matrix, the matrix
     * write fails (`ok` is false): the page and its parent edge are recorded, its links are not.
     * Otherwise each unknown link is queued with the new page as parent and each known link
     * becomes a child/parent edge pair.
     */
    method Crawl(url: string, parentId: Option<nat>, fetched: Fetched) returns (ok: bool)
      requires Valid()
      requires parentId.Some? ==> parentId.value < |pages|
      modifies this, matrix
      ensures Valid() && matrix == old(matrix)
      ensures ok <==> parentId.None? || old(|pages|) < matrix.Length1
      ensures |pages| == old(|pages|) + 1
      ensures pageToId == old(pageToId)[url := old(|pages|)]
      ensures pages == if ok then LinkAll(Created(old(pages), url, parentId, fetched), pageToId, old(|pages|), fetched.links)
                       else Created(old(pages), url, parentId, fetched)
      ensures urlQueue == old(urlQueue) + if ok then Enqueued(fetched.links, pageToId, old(|pages|)) else []
      ensures forall i, j | 0 <= i < matrix.Length0 && 0 <= j < matrix.Length1 ::
        matrix[i, j] == if ok && parentId == Some(i) && j == old(|pages|) then 1.0 else old(matrix[i, j])
    {
      var pageId := CreatePage(url, parentId, fetched);
      if parentId.Some? {
        if pageId >= matrix.Length1 {
          ok := false;
          return;
        }
        MarkEdge(parentId.value, pageId);
      }
      RecordLinks(pageId, fetched.links);
      ok := true;
    }

    /** Lines 35-53: the new page takes the next id, `url` maps to it, and the parent edge is recorded. */
    method CreatePage(url: string, parentId: Option<nat>, fetched: Fetched) returns (pageId: nat)
      requires Valid()
      requires parentId.Some? ==> parentId.value < |pages|
      modifies this
      ensures Valid() && matrix == old(matrix) && urlQueue == old(urlQueue)
      ensures pageId == old(|pages|)
      ensures pageToId == old(pageToId)[url := pageId]
      ensures pages == Created(old(pages), url, parentId, fetched)
      ensures parentId.Some? ==> pageId in pages[parentId.value].childrenId
    {
      pageId := |pages|;
      ghost var oldPages := pages;
      CreatedWellLinked(pages, url, parentId, fetched);
      KnownIdsGrow(pageToId, url, pageId);
      QueuedParentsAppend(urlQueue, [], pageId, pageId + 1);
      assert urlQueue + [] == urlQueue;
      pageToId := pageToId[url := pageId];
      pages := Created(pages, url, parentId, fetched);
      MatrixStillValid(oldPages, pages);
    }

    /** `connectivity_matrix[parent_id, page_id] = 1` for an edge the page list already holds. */
    method MarkEdge(parent: nat, child: nat)
      requires Valid()
      requires parent < matrix.Length0 && child < matrix.Length1
      requires parent < |pages| && child < |pages| && child in pages[parent].childrenId
      modifies matrix
      ensures Valid()
      ensures forall i, j | 0 <= i < matrix.Length0 && 0 <= j < matrix.Length1 ::
        matrix[i, j] == if i == parent && j == child then 1.0 else old(matrix[i, j])
    {
      matrix[parent, child] := 1.0;
    }

    /** Lines 55-61: the unknown links are queued with `pageId` as parent, the known ones become edges. */
    method RecordLinks(pageId: nat, links: seq<string>)
      requires Valid() && pageId < |pages|
      modifies this
      ensures Valid()
      ensures pageToId == old(pageToId) && matrix == old(matrix)
      ensures pages == LinkAll(old(pages), pageToId, pageId, links)
      ensures urlQueue == old(urlQueue) + Enqueued(links, pageToId, pageId)
    {
      ghost var before := pages;
      for i := 0 to |links|
        invariant pageToId == old(pageToId) && matrix == old(matrix)
        invariant pages == LinkAll(before, pageToId, pageId, links[..i])
        invariant urlQueue == old(urlQueue) + Enqueued(links[..i], pageToId, pageId)
      {
        assert links[..i + 1][..i] == links[..i];
        var link := links[i];
        if link !in pageToId {
          urlQueue := urlQueue + [QueueItem(link, Some(pageId))];
        } else {
          var nextPageId := pageToId[link];
          pages := AddEdge(pages, pageId, nextPageId);
        }
      }
      assert links[..|links|] == links;
      LinkAllWellLinked(before, pageToId, pageId, links);
      MatrixStillValid(before, pages);
      QueuedParentsAppend(old(urlQueue), Enqueued(links, pageToId, pageId), |before|, |pages|);
    }

    /** The matrix facts of `Valid` survive any extension of the page list. */
    lemma MatrixStillValid(before: seq<Page>, after: seq<Page>)
      requires Extends(before, after) && MatrixRecordsEdges(before)
      ensures MatrixRecordsEdges(after)
    {
      forall i, j | 0 <= i < matrix.Length0 && 0 <= j < matrix.Length1 && matrix[i, j] != 0.0
        ensures j in after[i].childrenId
      {
        PrefixMember(before[i].childrenId, after[i].childrenId, j);
      }
    }
  }
}
