/** Cursors: following them from the first page lists a result once, in order. */
module Paging {
  import opened Text
  import opened Order
  import opened Results
  import opened Queries
  import opened Index
  import opened IndexStore
  import opened QueryTheorems

  predicate Sortable(items: seq<IndexItem>, f: FieldName)
  {
    forall i :: 0 <= i < |items| ==> f in items[i].fields
  }

  function CursorAt(items: seq<IndexItem>, f: FieldName, i: nat): Cursor
    requires i < |items| && Sortable(items, f)
  {
    Cursor(items[i].messageCid, items[i].fields[f])
  }

  /** Takes the extra item off a page that is over its limit, as the next cursor. */
  function SplitPage(results: seq<IndexItem>, limit: nat, f: FieldName): (seq<IndexItem>, Option<Cursor>)
    requires Sortable(results, f)
  {
    if 0 < limit < |results| then
      var n := |results| - 1;
      (results[..n], Some(CursorAt(results, f, n)))
    else (results, None)
  }

  function Paged(limit: nat, cursor: Option<Cursor>): Option<Pagination>
  {
    Some(Pagination(Some(limit), cursor))
  }

  /** One page of a listing, and the cursor of the next. */
  function FetchPage(items: seq<IndexItem>, f: FieldName, limit: nat, cursor: Option<Cursor>)
    : (seq<IndexItem>, Option<Cursor>)
    requires Sortable(items, f)
  {
    SplitPage(Cut(items, Paged(limit, cursor)), limit, f)
  }

  lemma StartAtCursor(items: seq<IndexItem>, f: FieldName, i: nat)
    requires i < |items| && Sortable(items, f) && Distinct(items)
    ensures Start(items, Some(CursorAt(items, f, i))) == i
  {
  }

  lemma PageIs(items: seq<IndexItem>, f: FieldName, limit: nat, cursor: Option<Cursor>)
    requires Sortable(items, f) && limit >= 1
    ensures var s := Start(items, cursor);
            FetchPage(items, f, limit, cursor) ==
              if s + limit < |items| then (items[s..s + limit], Some(CursorAt(items, f, s + limit)))
              else (items[s..], None)
  {
    var s := Start(items, cursor);
    var cut := Cut(items, Paged(limit, cursor));
    if s + limit < |items| {
      assert cut == items[s..s + limit + 1];
      assert cut[..limit] == items[s..s + limit];
    } else {
      assert cut == items[s..];
    }
  }

  lemma PageStep(items: seq<IndexItem>, f: FieldName, limit: nat, cursor: Option<Cursor>)
    requires Sortable(items, f) && Distinct(items) && limit >= 1
    ensures var s := Start(items, cursor);
            if s + limit < |items| then
              var next := Some(CursorAt(items, f, s + limit));
              FetchPage(items, f, limit, cursor) == (items[s..s + limit], next) && Start(items, next) == s + limit
            else FetchPage(items, f, limit, cursor) == (items[s..], None)
  {
    PageIs(items, f, limit, cursor);
    var s := Start(items, cursor);
    if s + limit < |items| { StartAtCursor(items, f, s + limit); }
  }

  function Flatten(pages: seq<seq<IndexItem>>): seq<IndexItem>
  {
    if pages == [] then [] else pages[0] + Flatten(pages[1..])
  }

  // The listing from position `s` on, cut into pages.
  function Chunks(items: seq<IndexItem>, limit: nat, s: nat): (pages: seq<seq<IndexItem>>)
    requires limit >= 1 && s <= |items|
    ensures pages != [] && |pages[|pages| - 1]| <= limit
    ensures forall i :: 0 <= i < |pages| - 1 ==> |pages[i]| == limit
    decreases |items| - s
  {
    if s + limit < |items| then [items[s..s + limit]] + Chunks(items, limit, s + limit) else [items[s..]]
  }

  lemma {:induction false} ChunksCover(items: seq<IndexItem>, limit: nat, s: nat)
    requires limit >= 1 && s <= |items|
    ensures Flatten(Chunks(items, limit, s)) == items[s..]
    decreases |items| - s
  {
    if s + limit < |items| {
      ChunksCover(items, limit, s + limit);
      assert items[s..] == items[s..s + limit] + items[s + limit..];
    } else {
      assert Flatten([items[s..]]) == items[s..] + Flatten([]);
    }
  }

  // ----- pages of the sort-index walk -------------------------------------

  lemma {:induction false} StopTakes(walk: seq<IndexItem>, sets: seq<MatchSet>, limit: nat, from: nat)
    requires from <= |walk| && |Expand(walk[..from], sets)| <= limit + 1
    requires forall i :: 0 <= i < |walk| ==> Listed(sets, walk[i].fields) <= 1
    ensures var all := Expand(walk, sets);
            Expand(walk[..StopAt(walk, sets, Some(limit), from)], sets) ==
              if |all| <= limit + 1 then all else all[..limit + 1]
    decreases |walk| - from
  {
    ExpandPrefix(walk, sets, from);
    if from == |walk| {
      assert walk[..from] == walk;
    } else if !PageFull(walk[..from], sets, Some(limit)) {
      assert walk[..from + 1][..from] == walk[..from];
      StopTakes(walk, sets, limit, from + 1);
    }
  }

  /** Answering from the key of the i-th result on drops the first i results. */
  lemma AnswerFrom(live: Live, wanted: set<string>, f: FieldName, i: nat)
    requires AllCids(live) && i < |Answer(live, wanted, f)|
    ensures var r := Answer(live, wanted, f);
            f in live[r[i]] &&
            Answer(live, WalkKeys(live, f, Some(Key(live[r[i]][f], r[i]))) * wanted, f) == r[i..]
  {
    var r, keys := Answer(live, wanted, f), SortKeys(live, wanted, f);
    assert r[i] in Elements(r);
    ArrangeFrom(keys, i);
    var chosen := WalkKeys(live, f, Some(keys[r[i]])) * wanted;
    assert SortKeys(live, chosen, f) == KeysFrom(keys, keys[r[i]]);
  }

  lemma WalkFromCursor(live: Live, paged: Query, i: nat)
    requires AllCids(live) && Exclusive(live, paged.sets, paged.sort.Field())
    requires var f, r := paged.sort.Field(), Answer(live, Wanted(live, paged.sets), paged.sort.Field());
             i < |r| && f in live[r[i]] && StartKey(paged) == Some(Key(live[r[i]][f], r[i]))
    ensures var r := Answer(live, Wanted(live, paged.sets), paged.sort.Field());
            Expand(Walk(live, paged), paged.sets) == ItemsOf(live, r)[i..]
  {
    var f, wanted := paged.sort.Field(), Wanted(live, paged.sets);
    ExpandIsAnswer(live, paged.sets, WalkKeys(live, f, StartKey(paged)), f);
    AnswerFrom(live, wanted, f, i);
    var r := Answer(live, wanted, f);
    assert ItemsOf(live, r)[i..] == ItemsOf(live, r[i..]);
  }

  lemma FullDistinctSortable(live: Live, q: Query)
    requires AllCids(live) && Exclusive(live, q.sets, q.sort.Field()) && q.pagination.None?
    ensures Distinct(Expand(Walk(live, q), q.sets)) && Sortable(Expand(Walk(live, q), q.sets), q.sort.Field())
  {
    var f, wanted := q.sort.Field(), Wanted(live, q.sets);
    FullIsSorted(live, q);
    AnswerDistinct(live, wanted, f);
    var r := Answer(live, wanted, f);
    assert forall i :: 0 <= i < |r| ==> r[i] in Elements(r);
  }

  lemma WalkTakes(live: Live, q: Query, limit: nat)
    requires AllCids(live) && Exclusive(live, q.sets, q.sort.Field())
    ensures var walk := Walk(live, q);
            var all := Expand(walk, q.sets);
            Expand(walk[..StopAt(walk, q.sets, Some(limit), 0)], q.sets) ==
              if |all| <= limit + 1 then all else all[..limit + 1]
  {
    WalkDistinct(live, q);
    StopTakes(Walk(live, q), q.sets, limit, 0);
  }

  /** With exclusive sets the first page of the walk is that page of its listing. */
  lemma FirstWalkPage(live: Live, q: Query, limit: nat)
    requires AllCids(live) && Exclusive(live, q.sets, q.sort.Field()) && q.pagination.None?
    ensures var paged := q.(pagination := Paged(limit, None));
            var walk := Walk(live, paged);
            Expand(walk[..StopAt(walk, q.sets, Some(limit), 0)], q.sets)
            == Cut(Expand(Walk(live, q), q.sets), paged.pagination)
  {
    WalkTakes(live, q.(pagination := Paged(limit, None)), limit);
  }

  lemma CutAt(items: seq<IndexItem>, f: FieldName, limit: nat, i: nat)
    requires i < |items| && Sortable(items, f) && Distinct(items)
    ensures var rest := items[i..];
            Cut(items, Paged(limit, Some(CursorAt(items, f, i)))) ==
              if |rest| <= limit + 1 then rest else rest[..limit + 1]
  {
    StartAtCursor(items, f, i);
  }

  /** With exclusive sets any later page of the walk is that page of its listing. */
  lemma NextWalkPage(live: Live, q: Query, limit: nat, i: nat)
    requires AllCids(live) && Exclusive(live, q.sets, q.sort.Field()) && q.pagination.None?
    requires i < |Expand(Walk(live, q), q.sets)| && Sortable(Expand(Walk(live, q), q.sets), q.sort.Field())
    ensures var all := Expand(Walk(live, q), q.sets);
            var paged := q.(pagination := Paged(limit, Some(CursorAt(all, q.sort.Field(), i))));
            var walk := Walk(live, paged);
            Expand(walk[..StopAt(walk, q.sets, Some(limit), 0)], q.sets) == Cut(all, paged.pagination)
  {
    var f, all := q.sort.Field(), Expand(Walk(live, q), q.sets);
    var paged := q.(pagination := Paged(limit, Some(CursorAt(all, f, i))));
    FullDistinctSortable(live, q);
    CutAt(all, f, limit, i);
    FullIsSorted(live, q);
    WalkFromCursor(live, paged, i);
    WalkTakes(live, paged, limit);
  }
}
