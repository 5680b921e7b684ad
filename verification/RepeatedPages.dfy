/** Paging a walk whose match sets overlap. */
module RepeatedPages {
  import opened Text
  import opened Order
  import opened Results
  import opened Queries
  import opened Index
  import opened IndexStore
  import opened QueryTheorems
  import opened Paging
  import opened MessageStore

  /** Following cursors yields the unpaged result, in full pages but for the last. */
  ghost predicate Covers(live: Live, q: Query, limit: nat, pages: seq<seq<IndexItem>>)
    requires AllCids(live)
  {
    && FollowsStore(live, q, limit, None, pages) && Flatten(pages) == Retrieved(live, q)
    && pages != [] && |pages[|pages| - 1]| <= limit
    && forall i :: 0 <= i < |pages| - 1 ==> |pages[i]| == limit
  }

  ghost predicate IsCoverable(live: Live, q: Query, limit: nat)
    requires AllCids(live)
  {
    exists pages :: Covers(live, q, limit, pages)
  }

  /** A pager never gets past an item: a page of one that starts with the item
      leads to the cursor of the same item. */
  ghost predicate StuckAt(pager: Pager, item: IndexItem, at: Cursor, cursor: Option<Cursor>)
  {
    var (page, next) := pager(cursor);
    page != [] && page[0] == item ==> next.Some? && (|page| == 1 ==> next == Some(at))
  }

  lemma {:induction false} NeverPast(pager: Pager, item: IndexItem, at: Cursor, cursor: Option<Cursor>,
                                     pages: seq<seq<IndexItem>>)
    requires forall c :: StuckAt(pager, item, at, c)
    requires pager(Some(at)).0 != [] && pager(Some(at)).0[0] == item
    requires FollowsPager(pager, cursor, pages)
    requires |pages[|pages| - 1]| <= 1 && forall i :: 0 <= i < |pages| - 1 ==> |pages[i]| == 1
    ensures item !in Flatten(pages)
    decreases |pages|
  {
    var rest := pages[1..];
    assert StuckAt(pager, item, at, cursor);
    assert Flatten(pages) == pages[0] + Flatten(rest);
    if rest != [] {
      assert rest[|rest| - 1] == pages[|pages| - 1];
      NeverPast(pager, item, at, pager(cursor).1, rest);
      assert Flatten(rest) == rest[0] + Flatten(rest[1..]);
    }
  }

  /** An item listed twice is repeated wherever a list starts with it. */
  lemma {:induction false} StartsTwice(walk: seq<IndexItem>, sets: seq<MatchSet>, item: IndexItem)
    requires Listed(sets, item.fields) >= 2 && Expand(walk, sets) != [] && Expand(walk, sets)[0] == item
    ensures |Expand(walk, sets)| >= 2 && Expand(walk, sets)[1] == item
  {
    var n := |walk| - 1;
    var front := Expand(walk[..n], sets);
    if front != [] { StartsTwice(walk[..n], sets, item); }
  }

  function CursorOf(item: IndexItem, f: FieldName): Cursor
    requires f in item.fields
  {
    Cursor(item.messageCid, item.fields[f])
  }

  lemma WalkIsStuck(live: Live, q: Query, item: IndexItem, cursor: Option<Cursor>)
    requires AllCids(live) && !q.IsConcise() && Listed(q.sets, item.fields) >= 2 && q.sort.Field() in item.fields
    ensures StuckAt(StorePager(live, q, 1), item, CursorOf(item, q.sort.Field()), cursor)
  {
    var paged := AtPage(q, 1, cursor);
    var walk := Walk(live, paged);
    var items := Expand(walk[..StopAt(walk, q.sets, Limit(paged), 0)], q.sets);
    RetrievedSortable(live, paged);
    assert Retrieved(live, paged) == items;
    if items != [] && items[0] == item { StartsTwice(walk[..StopAt(walk, q.sets, Limit(paged), 0)], q.sets, item); }
  }

  /** From the cursor of a message on, the walk starts with that message. */
  lemma WalkStartsAt(live: Live, q: Query, c: string)
    requires AllCids(live) && c in live && q.sort.Field() in live[c]
    requires StartKey(q) == Some(Key(live[c][q.sort.Field()], c))
    ensures Walk(live, q) != [] && Walk(live, q)[0] == IndexItem(c, live[c])
  {
    var f := q.sort.Field();
    var start := Key(live[c][f], c);
    var chosen := WalkKeys(live, f, Some(start));
    var r, keys := Answer(live, chosen, f), SortKeys(live, chosen, f);
    LessIrreflexive(start);
    assert c in Elements(r);
    var i :| 0 <= i < |r| && r[i] == c;
    assert r[0] in Elements(r);
  }

  lemma ItemReturns(live: Live, q: Query, c: string)
    requires AllCids(live) && !q.IsConcise() && c in live && q.sort.Field() in live[c]
    requires Listed(q.sets, live[c]) >= 2
    ensures var item := IndexItem(c, live[c]);
            var page := StorePager(live, q, 1)(Some(CursorOf(item, q.sort.Field()))).0;
            page != [] && page[0] == item
  {
    var item := IndexItem(c, live[c]);
    var paged := AtPage(q, 1, Some(CursorOf(item, q.sort.Field())));
    var walk := Walk(live, paged);
    var stop := StopAt(walk, q.sets, Some(1), 0);
    WalkStartsAt(live, paged, c);
    RetrievedSortable(live, paged);
    TakesFirst(walk, q.sets);
    FirstIsListed(walk[..stop], q.sets);
    StartsTwice(walk[..stop], q.sets, item);
  }

  lemma TakesFirst(walk: seq<IndexItem>, sets: seq<MatchSet>)
    requires walk != []
    ensures StopAt(walk, sets, Some(1), 0) >= 1
  {
    assert walk[..0] == [];
    assert Expand([], sets) == [];
  }

  lemma {:induction false} FirstIsListed(walk: seq<IndexItem>, sets: seq<MatchSet>)
    requires walk != [] && Listed(sets, walk[0].fields) >= 1
    ensures Expand(walk, sets) != [] && Expand(walk, sets)[0] == walk[0]
  {
    var n := |walk| - 1;
    if n > 0 {
      FirstIsListed(walk[..n], sets);
    } else {
      assert walk[..0] == [];
    }
  }

  /** A walk with an item that two sets accept is not covered by pages of one. */
  lemma OverlapNotCovered(live: Live, q: Query, c: string, pages: seq<seq<IndexItem>>)
    requires AllCids(live) && !q.IsConcise() && q.pagination.None?
    requires c in live && q.sort.Field() in live[c] && Listed(q.sets, live[c]) >= 2
    ensures !Covers(live, q, 1, pages)
  {
    if Covers(live, q, 1, pages) {
      var item := IndexItem(c, live[c]);
      var at := CursorOf(item, q.sort.Field());
      ItemIsRetrieved(live, q, c);
      forall cursor ensures StuckAt(StorePager(live, q, 1), item, at, cursor) { WalkIsStuck(live, q, item, cursor); }
      ItemReturns(live, q, c);
      NeverPast(StorePager(live, q, 1), item, at, None, pages);
    }
  }

  lemma ItemIsRetrieved(live: Live, q: Query, c: string)
    requires AllCids(live) && !q.IsConcise() && q.pagination.None?
    requires c in live && q.sort.Field() in live[c] && Listed(q.sets, live[c]) >= 2
    ensures IndexItem(c, live[c]) in Retrieved(live, q)
  {
    var walk := Walk(live, q);
    StopUnlimited(walk, q.sets, 0);
    assert walk[..|walk|] == walk;
    WantedIff(live, q.sets, c);
    FullMembers(live, q, c);
  }

  /** Following cursors covers the result of a walk for every limit exactly when no
      message is accepted by two sets. */
  lemma WalkPagingIff(live: Live, q: Query)
    requires AllCids(live) && !q.IsConcise() && q.pagination.None?
    ensures (forall limit: nat :: limit >= 1 ==> IsCoverable(live, q, limit)) <==>
            Exclusive(live, q.sets, q.sort.Field())
  {
    if Exclusive(live, q.sets, q.sort.Field()) {
      forall limit: nat | limit >= 1 ensures IsCoverable(live, q, limit) {
        var pages := Chunks(Retrieved(live, q), limit, 0);
        CursorsCoverResult(live, q, limit, pages);
        assert Covers(live, q, limit, pages);
      }
    } else {
      var c :| c in live && q.sort.Field() in live[c] && Listed(q.sets, live[c]) > 1;
      forall pages ensures !Covers(live, q, 1, pages) { OverlapNotCovered(live, q, c, pages); }
      assert !IsCoverable(live, q, 1);
    }
  }
}
