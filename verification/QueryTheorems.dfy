/** What the two query strategies return, compared with filter-and-sort. */
module QueryTheorems {
  import opened Text
  import opened Order
  import opened Results
  import opened Queries
  import opened Index
  import opened IndexStore

  // ----- the prefix scan ---------------------------------------------------

  /** The set repeats its index as a matcher, as sets compiled from filters do. */
  ghost predicate Backed(ms: MatchSet)
  {
    ms.index.Some? && exists i :: 0 <= i < |ms.inner| && Backs(ms.inner[i], ms.index.value.0, ms.index.value.1)
  }

  predicate Backs(m: Matcher, f: FieldName, v: string)
  {
    m.field == f && (m.on == Equal(v) || m.on == Prefix(v))
  }

  /** The indexed value goes on with the greatest character after the prefix. */
  predicate Overlooked(ms: MatchSet, fields: Fields)
  {
    && ms.index.Some? && ms.index.value.0 in fields
    && var value, v := fields[ms.index.value.0], ms.index.value.1;
       |v| < |value| && StartsWith(value, v) && value[|v|] == MAX
  }

  /** The scan reaches an accepted message exactly when it is not overlooked. */
  lemma ScanReaches(ms: MatchSet, c: string, fields: Fields)
    requires Backed(ms) && Accepts(ms, fields) && IsCid(c)
    ensures Scanned(ms, c, fields) <==> !Overlooked(ms, fields)
  {
    var (f, v) := ms.index.value;
    AcceptsIff(ms.inner, fields);
    var i :| 0 <= i < |ms.inner| && Backs(ms.inner[i], f, v);
    assert Holds(ms.inner[i], fields);
    ScanFindsKey(v, fields[f], c);
  }

  /** The live messages that some set accepts. */
  ghost function Satisfying(live: Live, sets: seq<MatchSet>): set<string>
  {
    set c | c in live && exists i :: 0 <= i < |sets| && Accepts(sets[i], live[c])
  }

  lemma SelectedIff(live: Live, sets: seq<MatchSet>, c: string)
    requires c in live && IsCid(c) && forall i :: 0 <= i < |sets| ==> Backed(sets[i])
    ensures c in Selection(live, sets) <==>
            exists i :: 0 <= i < |sets| && Accepts(sets[i], live[c]) && !Overlooked(sets[i], live[c])
  {
    if c in Selection(live, sets) {
      var i :| 0 <= i < |sets| && Picked(sets[i], c, live[c]);
      ScanReaches(sets[i], c, live[c]);
    }
    if i :| 0 <= i < |sets| && Accepts(sets[i], live[c]) && !Overlooked(sets[i], live[c]) {
      ScanReaches(sets[i], c, live[c]);
      assert Picked(sets[i], c, live[c]);
    }
  }

  /** The scan strategy selects every satisfying message exactly when each has
      an accepting set that does not overlook it. */
  lemma SelectionExactIff(live: Live, sets: seq<MatchSet>)
    requires AllCids(live) && forall i :: 0 <= i < |sets| ==> Backed(sets[i])
    ensures Selection(live, sets) <= Satisfying(live, sets)
    ensures Selection(live, sets) == Satisfying(live, sets) <==>
            forall c :: c in Satisfying(live, sets) ==>
              exists i :: 0 <= i < |sets| && Accepts(sets[i], live[c]) && !Overlooked(sets[i], live[c])
  {
    forall c | c in live
      ensures c in Selection(live, sets) <==>
              exists i :: 0 <= i < |sets| && Accepts(sets[i], live[c]) && !Overlooked(sets[i], live[c])
    {
      SelectedIff(live, sets, c);
    }
  }

  /** A set backed by an equality never overlooks a message. */
  lemma EqualityNeverOverlooks(ms: MatchSet, fields: Fields, i: nat)
    requires ms.index.Some? && i < |ms.inner|
    requires ms.inner[i] == Matcher(ms.index.value.0, Equal(ms.index.value.1))
    requires Accepts(ms, fields)
    ensures !Overlooked(ms, fields)
  {
    AcceptsIff(ms.inner, fields);
    assert Holds(ms.inner[i], fields);
  }

  // ----- the sort-index walk ----------------------------------------------

  /** No message in the sort index is accepted by two sets. */
  ghost predicate Exclusive(live: Live, sets: seq<MatchSet>, f: FieldName)
  {
    forall c :: c in live && f in live[c] ==> Listed(sets, live[c]) <= 1
  }

  /** What an unpaged query should return: with no sets, everything. */
  ghost function Wanted(live: Live, sets: seq<MatchSet>): set<string>
  {
    if sets == [] then live.Keys else Satisfying(live, sets)
  }

  lemma {:induction false} CopiesPositive(sets: seq<MatchSet>, fields: Fields)
    ensures Copies(sets, fields) > 0 <==> exists i :: 0 <= i < |sets| && Accepts(sets[i], fields)
  {
    if sets != [] {
      var n := |sets| - 1;
      CopiesPositive(sets[..n], fields);
      if i :| 0 <= i < n && Accepts(sets[i], fields) { assert Accepts(sets[..n][i], fields); }
      if i :| 0 <= i < n && Accepts(sets[..n][i], fields) { assert Accepts(sets[i], fields); }
    }
  }

  lemma WantedIff(live: Live, sets: seq<MatchSet>, c: string)
    requires c in live
    ensures c in Wanted(live, sets) <==> Listed(sets, live[c]) > 0
  {
    CopiesPositive(sets, live[c]);
  }

  ghost function Keep(live: Live, cids: seq<string>, wanted: set<string>): (r: seq<string>)
    requires forall i :: 0 <= i < |cids| ==> cids[i] in live
    ensures forall i :: 0 <= i < |r| ==> r[i] in live
    ensures Elements(r) == Elements(cids) * wanted
  {
    if cids == [] then []
    else
      var n := |cids| - 1;
      var front := Keep(live, cids[..n], wanted);
      assert cids == cids[..n] + [cids[n]];
      assert Elements(front + [cids[n]]) == Elements(front) + {cids[n]};
      if cids[n] in wanted then front + [cids[n]] else front
  }

  lemma {:induction false} KeepAscending(live: Live, keys: map<string, string>, cids: seq<string>, wanted: set<string>)
    requires forall i :: 0 <= i < |cids| ==> cids[i] in live
    requires AscendingBy(keys, cids)
    ensures AscendingBy(keys, Keep(live, cids, wanted))
  {
    if cids != [] {
      var n := |cids| - 1;
      KeepAscending(live, keys, cids[..n], wanted);
      var front := Keep(live, cids[..n], wanted);
      forall i | 0 <= i < |front| ensures front[i] in keys && Less(keys[front[i]], keys[cids[n]]) {
        assert front[i] in Elements(front);
        var j :| 0 <= j < n && cids[..n][j] == front[i];
      }
    }
  }

  /** A live message is listed once if it is wanted, and not at all if it is not. */
  ghost predicate ListsWanted(live: Live, sets: seq<MatchSet>, wanted: set<string>, c: string)
  {
    c in live && Listed(sets, live[c]) == if c in wanted then 1 else 0
  }

  lemma {:induction false} ExpandKeeps(live: Live, sets: seq<MatchSet>, cids: seq<string>, wanted: set<string>)
    requires forall i :: 0 <= i < |cids| ==> cids[i] in live
    requires forall i :: 0 <= i < |cids| ==> ListsWanted(live, sets, wanted, cids[i])
    ensures Expand(ItemsOf(live, cids), sets) == ItemsOf(live, Keep(live, cids, wanted))
  {
    if cids != [] {
      var n := |cids| - 1;
      var front, c := cids[..n], cids[n];
      assert cids == front + [c] && ListsWanted(live, sets, wanted, c);
      ExpandKeeps(live, sets, front, wanted);
      ExpandKeepsOne(live, sets, front, c, wanted);
    }
  }

  lemma ExpandKeepsOne(live: Live, sets: seq<MatchSet>, front: seq<string>, c: string, wanted: set<string>)
    requires (forall i :: 0 <= i < |front| ==> front[i] in live) && ListsWanted(live, sets, wanted, c)
    requires Expand(ItemsOf(live, front), sets) == ItemsOf(live, Keep(live, front, wanted))
    ensures Expand(ItemsOf(live, front + [c]), sets) == ItemsOf(live, Keep(live, front + [c], wanted))
  {
    ItemsOfPush(live, front, c);
    ExpandPush(ItemsOf(live, front), IndexItem(c, live[c]), sets);
    KeepPush(live, front, c, wanted);
    if c in wanted { ItemsOfPush(live, Keep(live, front, wanted), c); }
  }

  lemma KeepPush(live: Live, front: seq<string>, c: string, wanted: set<string>)
    requires c in live && forall i :: 0 <= i < |front| ==> front[i] in live
    ensures Keep(live, front + [c], wanted) ==
            if c in wanted then Keep(live, front, wanted) + [c] else Keep(live, front, wanted)
  {
    assert (front + [c])[..|front|] == front;
  }

  lemma ExpandPush(items: seq<IndexItem>, item: IndexItem, sets: seq<MatchSet>)
    requires Listed(sets, item.fields) <= 1
    ensures Expand(items + [item], sets) == Expand(items, sets) + if Listed(sets, item.fields) == 1 then [item] else []
  {
    assert (items + [item])[..|items|] == items;
    assert Repeat(item, 0) == [];
    assert Repeat(item, 1) == [item];
  }

  lemma ItemsOfPush(live: Live, cids: seq<string>, c: string)
    requires c in live && forall i :: 0 <= i < |cids| ==> cids[i] in live
    ensures ItemsOf(live, cids + [c]) == ItemsOf(live, cids) + [IndexItem(c, live[c])]
  {
  }

  /** With exclusive sets, walking part of the sort index is filter-and-sort. */
  lemma ExpandIsAnswer(live: Live, sets: seq<MatchSet>, chosen: set<string>, f: FieldName)
    requires AllCids(live) && Exclusive(live, sets, f)
    ensures Expand(ItemsOf(live, Answer(live, chosen, f)), sets)
         == ItemsOf(live, Answer(live, chosen * Wanted(live, sets), f))
  {
    var wanted := Wanted(live, sets);
    var r, keys, few := Answer(live, chosen, f), SortKeys(live, chosen, f), SortKeys(live, chosen * wanted, f);
    forall i | 0 <= i < |r| ensures ListsWanted(live, sets, wanted, r[i]) {
      assert r[i] in Elements(r);
      WantedIff(live, sets, r[i]);
    }
    ExpandKeeps(live, sets, r, wanted);
    KeepAscending(live, keys, r, wanted);
    KeptIsAnswer(keys, few, Keep(live, r, wanted));
  }

  lemma KeptIsAnswer(keys: map<string, string>, few: map<string, string>, kept: seq<string>)
    requires Injective(few) && AscendingBy(keys, kept) && Elements(kept) == few.Keys
    requires forall c :: c in few ==> c in keys && few[c] == keys[c]
    ensures kept == Arrange(few)
  {
    forall i | 0 <= i < |kept| ensures kept[i] in few && few[kept[i]] == keys[kept[i]] {
      assert kept[i] in Elements(kept);
    }
    ArrangeUnique(few, kept);
  }

  /** An unpaged walk with exclusive sets returns the wanted messages that have
      the sort field, each once, ascending by (sort value, CID). */
  lemma FullIsSorted(live: Live, q: Query)
    requires AllCids(live) && Exclusive(live, q.sets, q.sort.Field()) && StartKey(q).None?
    ensures Expand(Walk(live, q), q.sets) == ItemsOf(live, Answer(live, Wanted(live, q.sets), q.sort.Field()))
  {
    var f := q.sort.Field();
    var chosen, wanted := WalkKeys(live, f, None), Wanted(live, q.sets);
    ExpandIsAnswer(live, q.sets, chosen, f);
    assert SortKeys(live, chosen * wanted, f) == SortKeys(live, wanted, f);
  }

  ghost predicate Distinct(items: seq<IndexItem>)
  {
    forall i, j :: 0 <= i < j < |items| ==> items[i].messageCid != items[j].messageCid
  }

  lemma AnswerDistinct(live: Live, chosen: set<string>, f: FieldName)
    requires AllCids(live)
    ensures Distinct(ItemsOf(live, Answer(live, chosen, f)))
  {
    NoRepeats(SortKeys(live, chosen, f), Answer(live, chosen, f));
  }

  lemma ExpandRepeats(walk: seq<IndexItem>, sets: seq<MatchSet>, i: nat)
    requires i < |walk|
    ensures Listed(sets, walk[i].fields) >= 2 ==>
              var all := Expand(walk, sets);
              exists k :: 0 <= k < |all| - 1 && all[k] == all[k + 1]
  {
    var front, item, n := walk[..i + 1], walk[i], Listed(sets, walk[i].fields);
    ExpandPrefix(walk, sets, i + 1);
    assert front[..i] == walk[..i];
    var before, all := Expand(walk[..i], sets), Expand(walk, sets);
    assert before + Repeat(item, n) <= all;
    if n >= 2 {
      var k := |before|;
      assert all[k] == (before + Repeat(item, n))[k] == item;
      assert all[k + 1] == (before + Repeat(item, n))[k + 1] == item;
    }
  }

  /** The walk lists every message at most once exactly when its sets are exclusive. */
  lemma FullDistinctIff(live: Live, q: Query)
    requires AllCids(live) && StartKey(q).None?
    ensures Distinct(Expand(Walk(live, q), q.sets)) <==> Exclusive(live, q.sets, q.sort.Field())
  {
    var f := q.sort.Field();
    var walk, r := Walk(live, q), Answer(live, WalkKeys(live, f, None), f);
    if Distinct(Expand(walk, q.sets)) {
      forall c | c in live && f in live[c] ensures Listed(q.sets, live[c]) <= 1 {
        assert c in Elements(r);
        var i :| 0 <= i < |r| && r[i] == c;
        ExpandRepeats(walk, q.sets, i);
        assert walk[i].fields == live[c];
      }
    }
    if Exclusive(live, q.sets, f) {
      FullIsSorted(live, q);
      AnswerDistinct(live, Wanted(live, q.sets), f);
    }
  }

  /** The walk ignores a descending sort: it returns the requested listing
      exactly when the sort is ascending or there is at most one result. */
  lemma FullDirectionIff(live: Live, q: Query)
    requires AllCids(live) && Exclusive(live, q.sets, q.sort.Field()) && StartKey(q).None?
    ensures Expand(Walk(live, q), q.sets) == Listing(live, Wanted(live, q.sets), q.sort)
       <==> q.sort.IsAscending() || |Answer(live, Wanted(live, q.sets), q.sort.Field())| <= 1
  {
    var items := ItemsOf(live, Answer(live, Wanted(live, q.sets), q.sort.Field()));
    FullIsSorted(live, q);
    AnswerDistinct(live, Wanted(live, q.sets), q.sort.Field());
    assert |items| >= 2 ==> Reversed(items)[0].messageCid != items[0].messageCid;
    assert |items| <= 1 ==> Reversed(items) == items;
  }

  /** A set accepts the message, and its scan reaches it. */
  ghost predicate Reached(sets: seq<MatchSet>, fields: Fields)
  {
    exists i :: 0 <= i < |sets| && Accepts(sets[i], fields) && !Overlooked(sets[i], fields)
  }

  /** The two strategies agree on an unpaged ascending query with exclusive sets
      exactly when each message that satisfies a set and has the sort field is
      reached by the scan of a set that accepts it. */
  lemma StrategiesAgreeIff(live: Live, q: Query)
    requires AllCids(live) && q.IsConcise() && q.sort.IsAscending() && q.pagination.None?
    requires Exclusive(live, q.sets, q.sort.Field())
    requires forall i :: 0 <= i < |q.sets| ==> Backed(q.sets[i])
    ensures Cut(Listing(live, Selection(live, q.sets), q.sort), q.pagination) == Expand(Walk(live, q), q.sets) <==>
            forall c :: c in Satisfying(live, q.sets) && q.sort.Field() in live[c] ==> Reached(q.sets, live[c])
  {
    var f, selected, wanted := q.sort.Field(), Selection(live, q.sets), Satisfying(live, q.sets);
    FullIsSorted(live, q);
    SameAnswerIff(live, selected, wanted, f);
    forall c | c in wanted ensures c in selected <==> Reached(q.sets, live[c]) { SelectedIff(live, q.sets, c); }
    SelectionExactIff(live, q.sets);
  }

  /** Two choices of messages have one answer exactly when they have the same
      messages among those with the sort field. */
  lemma SameAnswerIff(live: Live, a: set<string>, b: set<string>, f: FieldName)
    requires AllCids(live)
    ensures ItemsOf(live, Answer(live, a, f)) == ItemsOf(live, Answer(live, b, f)) <==>
            forall c :: c in live && f in live[c] ==> (c in a <==> c in b)
  {
    if ItemsOf(live, Answer(live, a, f)) == ItemsOf(live, Answer(live, b, f)) {
      forall c | c in live && f in live[c] ensures c in a <==> c in b {
        AnswerMembers(live, a, f, c);
        AnswerMembers(live, b, f, c);
      }
    }
    if forall c :: c in live && f in live[c] ==> (c in a <==> c in b) {
      assert SortKeys(live, a, f) == SortKeys(live, b, f);
    }
  }

  lemma {:induction false} ExpandMembers(walk: seq<IndexItem>, sets: seq<MatchSet>, item: IndexItem)
    ensures item in Expand(walk, sets) <==> item in walk && Listed(sets, item.fields) > 0
  {
    if walk != [] {
      var n := |walk| - 1;
      ExpandMembers(walk[..n], sets, item);
      assert walk == walk[..n] + [walk[n]];
      var k := Listed(sets, walk[n].fields);
      assert item in Repeat(walk[n], k) <==> item == walk[n] && k > 0 by {
        if k > 0 { assert Repeat(walk[n], k)[0] == walk[n]; }
      }
    }
  }

  /** As a set, an unpaged walk returns the wanted messages with the sort field. */
  lemma FullMembers(live: Live, q: Query, c: string)
    requires AllCids(live) && StartKey(q).None? && c in live
    ensures IndexItem(c, live[c]) in Expand(Walk(live, q), q.sets) <==>
            c in Wanted(live, q.sets) && q.sort.Field() in live[c]
  {
    var f := q.sort.Field();
    var r := Answer(live, WalkKeys(live, f, None), f);
    ExpandMembers(Walk(live, q), q.sets, IndexItem(c, live[c]));
    WantedIff(live, q.sets, c);
    if f in live[c] {
      assert c in Elements(r);
      var i :| 0 <= i < |r| && r[i] == c;
      assert Walk(live, q)[i] == IndexItem(c, live[c]);
    }
    if i :| 0 <= i < |r| && Walk(live, q)[i] == IndexItem(c, live[c]) { assert r[i] in Elements(r); }
  }

  lemma AnswerMembers(live: Live, chosen: set<string>, f: FieldName, c: string)
    requires AllCids(live) && c in live
    ensures IndexItem(c, live[c]) in ItemsOf(live, Answer(live, chosen, f)) <==> c in chosen && f in live[c]
  {
    var r := Answer(live, chosen, f);
    var items := ItemsOf(live, r);
    assert c in r <==> c in Elements(r);
    if i :| 0 <= i < |r| && r[i] == c { assert items[i] == IndexItem(c, live[c]); }
    if i :| 0 <= i < |items| && items[i] == IndexItem(c, live[c]) { assert r[i] == c; }
  }

  lemma ReversedMembers<T>(s: seq<T>, x: T)
    ensures x in Reversed(s) <==> x in s
  {
    if i :| 0 <= i < |s| && s[i] == x { assert Reversed(s)[|s| - 1 - i] == x; }
  }

  /** As a set, a listing holds the chosen messages with the sort field. */
  lemma ListingMembers(live: Live, chosen: set<string>, sort: Sort, c: string)
    requires AllCids(live) && c in live
    ensures IndexItem(c, live[c]) in Listing(live, chosen, sort) <==> c in chosen && sort.Field() in live[c]
  {
    AnswerMembers(live, chosen, sort.Field(), c);
    ReversedMembers(ItemsOf(live, Answer(live, chosen, sort.Field())), IndexItem(c, live[c]));
  }
}
