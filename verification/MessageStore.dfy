/** The message store: message blocks and the indexes that find them. */
module MessageStore {
  import opened Text
  import opened Order
  import opened Results
  import opened Queries
  import opened Index
  import opened IndexStore
  import opened QueryTheorems
  import opened Paging

  /** The index items a query retrieves, with the extra item of a full page. */
  ghost function Retrieved(live: Live, q: Query): seq<IndexItem>
    requires AllCids(live)
  {
    if q.IsConcise() then Cut(Listing(live, Selection(live, q.sets), q.sort), q.pagination)
    else
      var walk := Walk(live, q);
      Expand(walk[..StopAt(walk, q.sets, Limit(q), 0)], q.sets)
  }

  function PageLimit(q: Query): nat
  {
    if Limit(q).Some? then Limit(q).value else 0
  }

  lemma {:induction false} ExpandSortable(walk: seq<IndexItem>, sets: seq<MatchSet>, f: FieldName)
    requires Sortable(walk, f)
    ensures Sortable(Expand(walk, sets), f)
  {
    if walk != [] { ExpandSortable(walk[..|walk| - 1], sets, f); }
  }

  lemma ListingSortable(live: Live, chosen: set<string>, sort: Sort)
    requires AllCids(live)
    ensures Sortable(Listing(live, chosen, sort), sort.Field()) && Distinct(Listing(live, chosen, sort))
  {
    var r := Answer(live, chosen, sort.Field());
    assert forall i :: 0 <= i < |r| ==> r[i] in Elements(r);
    AnswerDistinct(live, chosen, sort.Field());
    ReversedListing(ItemsOf(live, r), sort.Field());
  }

  lemma ReversedListing(items: seq<IndexItem>, f: FieldName)
    requires Sortable(items, f) && Distinct(items)
    ensures Sortable(Reversed(items), f) && Distinct(Reversed(items))
  {
  }

  /** Everything retrieved has a value for the sort field and is live. */
  lemma RetrievedSortable(live: Live, q: Query)
    requires AllCids(live)
    ensures Sortable(Retrieved(live, q), q.sort.Field())
  {
    if q.IsConcise() {
      ListingSortable(live, Selection(live, q.sets), q.sort);
    } else {
      WalkDistinct(live, q);
      var walk := Walk(live, q);
      ExpandSortable(walk[..StopAt(walk, q.sets, Limit(q), 0)], q.sets, q.sort.Field());
    }
  }

  /** One page of a query and the cursor of the next. */
  ghost function StorePage(live: Live, q: Query): (seq<IndexItem>, Option<Cursor>)
    requires AllCids(live)
  {
    RetrievedSortable(live, q);
    SplitPage(Retrieved(live, q), PageLimit(q), q.sort.Field())
  }

  // ----- following cursors -------------------------------------------------

  function AtPage(q: Query, limit: nat, cursor: Option<Cursor>): Query
  {
    q.(pagination := Paged(limit, cursor))
  }

  /** What a cursor gets: a page, and the cursor of the next. */
  type Pager = Option<Cursor> -> (seq<IndexItem>, Option<Cursor>)

  ghost function StorePager(live: Live, q: Query, limit: nat): Pager
    requires AllCids(live)
  {
    cursor => StorePage(live, AtPage(q, limit, cursor))
  }

  /** The pages are what a pager returns when cursors are followed to the end. */
  ghost predicate FollowsPager(pager: Pager, cursor: Option<Cursor>, pages: seq<seq<IndexItem>>)
    decreases |pages|
  {
    && pages != []
    && var (page, next) := pager(cursor);
       && pages[0] == page
       && if |pages| == 1 then next.None? else next.Some? && FollowsPager(pager, next, pages[1..])
  }

  /** The pages are what the store returns when cursors are followed to the end. */
  ghost predicate FollowsStore(live: Live, q: Query, limit: nat, cursor: Option<Cursor>, pages: seq<seq<IndexItem>>)
    requires AllCids(live)
  {
    FollowsPager(StorePager(live, q, limit), cursor, pages)
  }

  /** Paging works for concise queries, and for walks with exclusive sets. */
  ghost predicate Pageable(live: Live, q: Query)
  {
    q.IsConcise() || Exclusive(live, q.sets, q.sort.Field())
  }

  /** The cursor is none or that of a result. */
  ghost predicate OwnCursor(items: seq<IndexItem>, f: FieldName, cursor: Option<Cursor>)
    requires Sortable(items, f)
  {
    cursor.Some? ==> exists i :: 0 <= i < |items| && cursor.value == CursorAt(items, f, i)
  }

  lemma StopUnlimited(walk: seq<IndexItem>, sets: seq<MatchSet>, from: nat)
    requires from <= |walk|
    ensures StopAt(walk, sets, None, from) == |walk|
    decreases |walk| - from
  {
  }

  lemma UnpagedDistinct(live: Live, q: Query)
    requires AllCids(live) && Pageable(live, q) && q.pagination.None?
    ensures Distinct(Retrieved(live, q)) && Sortable(Retrieved(live, q), q.sort.Field())
    ensures !q.IsConcise() ==> Retrieved(live, q) == Expand(Walk(live, q), q.sets)
  {
    RetrievedSortable(live, q);
    if q.IsConcise() {
      ListingSortable(live, Selection(live, q.sets), q.sort);
    } else {
      var walk := Walk(live, q);
      StopUnlimited(walk, q.sets, 0);
      assert walk[..|walk|] == walk;
      FullDistinctSortable(live, q);
    }
  }

  /** A page of the store is that page of the unpaged result. */
  lemma StorePageIs(live: Live, q: Query, limit: nat, cursor: Option<Cursor>)
    requires AllCids(live) && Pageable(live, q) && q.pagination.None?
    requires Sortable(Retrieved(live, q), q.sort.Field()) && OwnCursor(Retrieved(live, q), q.sort.Field(), cursor)
    ensures StorePage(live, AtPage(q, limit, cursor)) == FetchPage(Retrieved(live, q), q.sort.Field(), limit, cursor)
  {
    UnpagedDistinct(live, q);
    if !q.IsConcise() {
      if cursor.None? {
        FirstWalkPage(live, q, limit);
      } else {
        var i :| 0 <= i < |Retrieved(live, q)| && cursor.value == CursorAt(Retrieved(live, q), q.sort.Field(), i);
        NextWalkPage(live, q, limit, i);
      }
    }
  }

  // The same, for a listing and a position in it.
  predicate FollowsFrom(all: seq<IndexItem>, limit: nat, s: nat, pages: seq<seq<IndexItem>>)
    requires s <= |all|
    decreases |pages|
  {
    && pages != []
    && if s + limit < |all| then
         pages[0] == all[s..s + limit] && FollowsFrom(all, limit, s + limit, pages[1..])
       else pages == [all[s..]]
  }

  lemma {:induction false} FollowsFromIff(all: seq<IndexItem>, limit: nat, s: nat, pages: seq<seq<IndexItem>>)
    requires s <= |all| && limit >= 1
    ensures FollowsFrom(all, limit, s, pages) <==> pages == Chunks(all, limit, s)
    decreases |pages|
  {
    if pages != [] && s + limit < |all| {
      FollowsFromIff(all, limit, s + limit, pages[1..]);
      HeadTail(pages, all[s..s + limit], Chunks(all, limit, s + limit));
    }
  }

  lemma HeadTail<T>(s: seq<T>, x: T, rest: seq<T>)
    requires s != []
    ensures s == [x] + rest <==> s[0] == x && s[1..] == rest
  {
    assert s == [s[0]] + s[1..];
    assert ([x] + rest)[1..] == rest;
  }

  /** A pager that serves the pages of a listing. */
  ghost predicate Serves(pager: Pager, all: seq<IndexItem>, f: FieldName, limit: nat, cursor: Option<Cursor>)
    requires Sortable(all, f)
  {
    OwnCursor(all, f, cursor) ==> pager(cursor) == FetchPage(all, f, limit, cursor)
  }

  lemma {:induction false} FollowsListing(pager: Pager, all: seq<IndexItem>, f: FieldName, limit: nat,
                                          cursor: Option<Cursor>,
                                          pages: seq<seq<IndexItem>>)
    requires limit >= 1 && Sortable(all, f) && Distinct(all) && OwnCursor(all, f, cursor)
    requires forall c :: Serves(pager, all, f, limit, c)
    ensures FollowsPager(pager, cursor, pages) <==> FollowsFrom(all, limit, Start(all, cursor), pages)
    decreases |pages|
  {
    var s := Start(all, cursor);
    if s + limit < |all| {
      ServedPage(pager, all, f, limit, cursor, pages, s);
      if |pages| > 1 { FollowsListing(pager, all, f, limit, Some(CursorAt(all, f, s + limit)), pages[1..]); }
      if |pages| > 0 { OneMorePage(all, limit, s, pages); }
    } else {
      LastServed(pager, all, f, limit, cursor, pages);
    }
  }

  lemma ServedPage(pager: Pager, all: seq<IndexItem>, f: FieldName, limit: nat, cursor: Option<Cursor>,
                   pages: seq<seq<IndexItem>>, s: nat)
    requires limit >= 1 && Sortable(all, f) && Distinct(all)
    requires OwnCursor(all, f, cursor) && Serves(pager, all, f, limit, cursor)
    requires s == Start(all, cursor) && s + limit < |all|
    ensures var next := Some(CursorAt(all, f, s + limit));
            && Start(all, next) == s + limit && OwnCursor(all, f, next)
            && (FollowsPager(pager, cursor, pages) <==>
                  |pages| > 1 && pages[0] == all[s..s + limit] && FollowsPager(pager, next, pages[1..]))
  {
    PageStep(all, f, limit, cursor);
    PagerStep(pager, cursor, pages, all[s..s + limit], Some(CursorAt(all, f, s + limit)));
  }

  lemma LastServed(pager: Pager, all: seq<IndexItem>, f: FieldName, limit: nat, cursor: Option<Cursor>,
                   pages: seq<seq<IndexItem>>)
    requires limit >= 1 && Sortable(all, f) && Distinct(all)
    requires OwnCursor(all, f, cursor) && Serves(pager, all, f, limit, cursor)
    requires Start(all, cursor) + limit >= |all|
    ensures FollowsPager(pager, cursor, pages) <==> FollowsFrom(all, limit, Start(all, cursor), pages)
  {
    var s := Start(all, cursor);
    PageStep(all, f, limit, cursor);
    PagerStep(pager, cursor, pages, all[s..], None);
  }

  lemma PagerStep(pager: Pager, cursor: Option<Cursor>, pages: seq<seq<IndexItem>>, page: seq<IndexItem>,
                  next: Option<Cursor>)
    requires pager(cursor) == (page, next)
    ensures next.None? ==> (FollowsPager(pager, cursor, pages) <==> pages == [page])
    ensures next.Some? ==> (FollowsPager(pager, cursor, pages) <==>
              |pages| > 1 && pages[0] == page && FollowsPager(pager, next, pages[1..]))
  {
  }

  lemma OneMorePage(all: seq<IndexItem>, limit: nat, s: nat, pages: seq<seq<IndexItem>>)
    requires s + limit < |all| && pages != []
    ensures FollowsFrom(all, limit, s, pages) <==>
            pages[0] == all[s..s + limit] && FollowsFrom(all, limit, s + limit, pages[1..])
    ensures FollowsFrom(all, limit, s, pages) ==> |pages| > 1
  {
  }

  lemma CursorsFollowed(live: Live, q: Query, limit: nat, pages: seq<seq<IndexItem>>)
    requires AllCids(live) && Pageable(live, q) && q.pagination.None? && limit >= 1
    ensures FollowsStore(live, q, limit, None, pages) <==> pages == Chunks(Retrieved(live, q), limit, 0)
  {
    var all := Retrieved(live, q);
    UnpagedDistinct(live, q);
    forall c ensures Serves(StorePager(live, q, limit), all, q.sort.Field(), limit, c) {
      if OwnCursor(all, q.sort.Field(), c) { StorePageIs(live, q, limit, c); }
    }
    FollowsListing(StorePager(live, q, limit), all, q.sort.Field(), limit, None, pages);
    FollowsFromIff(all, limit, 0, pages);
  }

  /** On an unchanged store, following cursors yields the unpaged result exactly
      once and in order; it ends, and every page but the last is full. */
  lemma CursorsCoverResult(live: Live, q: Query, limit: nat, pages: seq<seq<IndexItem>>)
    requires AllCids(live) && Pageable(live, q) && q.pagination.None? && limit >= 1
    ensures FollowsStore(live, q, limit, None, Chunks(Retrieved(live, q), limit, 0))
    ensures FollowsStore(live, q, limit, None, pages) ==>
              && Flatten(pages) == Retrieved(live, q)
              && pages != [] && |pages[|pages| - 1]| <= limit
              && forall i :: 0 <= i < |pages| - 1 ==> |pages[i]| == limit
  {
    CursorsFollowed(live, q, limit, pages);
    CursorsFollowed(live, q, limit, Chunks(Retrieved(live, q), limit, 0));
    if FollowsStore(live, q, limit, None, pages) { ChunksAreFull(Retrieved(live, q), limit, pages); }
  }

  lemma ChunksAreFull(all: seq<IndexItem>, limit: nat, pages: seq<seq<IndexItem>>)
    requires limit >= 1 && pages == Chunks(all, limit, 0)
    ensures Flatten(pages) == all && pages != [] && |pages[|pages| - 1]| <= limit
    ensures forall i :: 0 <= i < |pages| - 1 ==> |pages[i]| == limit
  {
    ChunksCover(all, limit, 0);
    assert all[0..] == all;
  }

  // ----- results as a set --------------------------------------------------

  /** The set's scan, if it is used, does not overlook the message. */
  ghost predicate Reaches(ms: MatchSet, fields: Fields)
  {
    Backed(ms) && (Accepts(ms, fields) ==> !Overlooked(ms, fields))
  }

  /** Whatever its sort, limit and cursor, a query returns only messages that some
      set accepts. */
  lemma RetrievedOnly(live: Live, q: Query, c: string)
    requires AllCids(live) && c in live && q.sets != []
    ensures IndexItem(c, live[c]) in Retrieved(live, q) ==>
            exists i :: 0 <= i < |q.sets| && Accepts(q.sets[i], live[c])
  {
    var item := IndexItem(c, live[c]);
    if q.IsConcise() {
      ListingMembers(live, Selection(live, q.sets), q.sort, c);
      CutMembers(Listing(live, Selection(live, q.sets), q.sort), q.pagination, item);
    } else {
      var walk := Walk(live, q);
      ExpandMembers(walk[..StopAt(walk, q.sets, Limit(q), 0)], q.sets, item);
      CopiesPositive(q.sets, live[c]);
    }
  }

  lemma CutMembers(items: seq<IndexItem>, pagination: Option<Pagination>, item: IndexItem)
    ensures item in Cut(items, pagination) ==> item in items
  {
  }

  /** As a set, an unpaged query returns the messages some set accepts that have
      the sort field, whichever strategy runs it. */
  lemma RetrievedMembers(live: Live, q: Query, c: string)
    requires AllCids(live) && c in live && q.sets != [] && q.pagination.None?
    requires q.IsConcise() ==> forall i :: 0 <= i < |q.sets| ==> Reaches(q.sets[i], live[c])
    ensures IndexItem(c, live[c]) in Retrieved(live, q) <==>
            q.sort.Field() in live[c] && exists i :: 0 <= i < |q.sets| && Accepts(q.sets[i], live[c])
  {
    if q.IsConcise() {
      ListingMembers(live, Selection(live, q.sets), q.sort, c);
      SelectedIff(live, q.sets, c);
    } else {
      var walk := Walk(live, q);
      StopUnlimited(walk, q.sets, 0);
      assert walk[..|walk|] == walk;
      FullMembers(live, q, c);
    }
  }

  // ----- the store ---------------------------------------------------------

  class MessageStore<M> {
    var blocks: map<string, M>
    const index: Indexes

    ghost predicate Valid()
      reads this, index
    {
      index.Valid() && blocks.Keys == index.live.Keys
    }

    constructor ()
      ensures Valid() && fresh(index) && blocks == map[] && index.live == map[]
    {
      blocks := map[];
      index := new Indexes();
    }

    method Put(cid: string, message: M, fields: Fields)
      requires Valid() && IsCid(cid) && REVERSE !in fields
      modifies this, index
      ensures Valid()
      ensures blocks == old(blocks)[cid := message] && index.live == old(index.live)[cid := fields]
    {
      blocks := blocks - {cid};
      blocks := blocks[cid := message];
      index.Insert(cid, fields);
    }

    /** Finds exactly the messages that queries can find. */
    method Get(cid: string) returns (r: Option<M>)
      requires Valid()
      ensures r.Some? <==> cid in index.live
      ensures r.Some? ==> r.value == blocks[cid]
    {
      r := if cid in blocks then Some(blocks[cid]) else None;
    }

    method Delete(cid: string)
      requires Valid()
      modifies this, index
      ensures Valid() && blocks == old(blocks) - {cid} && index.live == old(index.live) - {cid}
    {
      index.Delete(cid);
      blocks := blocks - {cid};
    }

    method Fetch(items: seq<IndexItem>) returns (r: Result<seq<M>>)
      ensures AllLive(items, blocks.Keys) ==> r.Ok?
      ensures r.Ok? ==> |r.value| == |items|
      ensures r.Ok? ==> forall i :: 0 <= i < |items| ==>
                items[i].messageCid in blocks && r.value[i] == blocks[items[i].messageCid]
    {
      var entries: seq<M> := [];
      var i := 0;
      while i < |items|
        invariant 0 <= i <= |items| && |entries| == i
        invariant forall k :: 0 <= k < i ==> items[k].messageCid in blocks && entries[k] == blocks[items[k].messageCid]
      {
        if items[i].messageCid !in blocks {
          return Err(MissingBlock);
        }
        entries := entries + [blocks[items[i].messageCid]];
        i := i + 1;
      }
      r := Ok(entries);
    }

    /** The messages of a page and the cursor of the next one. */
    method Query(q: Query) returns (r: Result<(seq<M>, Option<Cursor>)>)
      requires Valid() && IndexesFields(q)
      requires Uniform(index.live, q.sort.Field())
      ensures r.Ok? ==>
                var (page, next) := StorePage(index.live, q);
                && r.value.1 == next
                && |r.value.0| == |page|
                && forall i :: 0 <= i < |page| ==>
                     page[i].messageCid in blocks && r.value.0[i] == blocks[page[i].messageCid]
      ensures r.Err? ==> exists i, c :: ScanFault(q, index.live, i, c) || WalkFault(q, index.live, i, c)
    {
      var found := index.Query(q);
      if found.Err? {
        return Err(found.error);
      }
      RetrievedSortable(index.live, q);
      RetrievedLive(index.live, q);
      var (results, cursor) := SplitPage(found.value, PageLimit(q), q.sort.Field());
      var entries := Fetch(results);
      r := Ok((entries.value, cursor));
    }
  }

  ghost predicate AllLive(items: seq<IndexItem>, cids: set<string>)
  {
    forall i :: 0 <= i < |items| ==> items[i].messageCid in cids
  }

  lemma {:induction false} ExpandLive(walk: seq<IndexItem>, sets: seq<MatchSet>, cids: set<string>)
    requires AllLive(walk, cids)
    ensures AllLive(Expand(walk, sets), cids)
  {
    if walk != [] { ExpandLive(walk[..|walk| - 1], sets, cids); }
  }

  lemma ListingLive(live: Live, chosen: set<string>, sort: Sort)
    requires AllCids(live)
    ensures AllLive(Listing(live, chosen, sort), live.Keys)
  {
  }

  lemma WalkLive(live: Live, q: Query, n: nat)
    requires AllCids(live) && n <= |Walk(live, q)|
    ensures AllLive(Expand(Walk(live, q)[..n], q.sets), live.Keys)
  {
    WalkDistinct(live, q);
    ExpandLive(Walk(live, q)[..n], q.sets, live.Keys);
  }

  /** Every retrieved message is live, so none is without its block. */
  lemma RetrievedLive(live: Live, q: Query)
    requires AllCids(live)
    ensures AllLive(Retrieved(live, q), live.Keys)
  {
    if q.IsConcise() {
      ListingLive(live, Selection(live, q.sets), q.sort);
    } else {
      WalkLive(live, q, StopAt(Walk(live, q), q.sets, Limit(q), 0));
    }
  }
}
