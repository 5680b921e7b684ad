/** The order in which records queries return stored writes, for each sort. */
module SortOrders {
  import opened Text
  import opened Order
  import opened Results
  import opened Timestamps
  import opened Queries
  import opened Messages
  import opened Index
  import opened IndexStore
  import opened QueryTheorems
  import opened MessageStore
  import opened RecordQueries
  import opened Visibility
  import opened QueryPaths

  /** By date, and for equal dates by CID. */
  predicate DatedFirst(t: Instant, c: string, u: Instant, d: string)
  {
    t.Ordinal() < u.Ordinal() || (t == u && Less(c, d))
  }

  predicate CreatedFirst(a: Write, c: string, b: Write, d: string)
  {
    DatedFirst(a.descriptor.dateCreated, c, b.descriptor.dateCreated, d)
  }

  predicate PublishedFirst(a: Write, c: string, b: Write, d: string)
  {
    && a.descriptor.datePublished.Some? && b.descriptor.datePublished.Some?
    && DatedFirst(a.descriptor.datePublished.value, c, b.descriptor.datePublished.value, d)
  }

  predicate StampedFirst(a: Write, c: string, b: Write, d: string)
  {
    DatedFirst(a.descriptor.base.timestamp, c, b.descriptor.base.timestamp, d)
  }

  /** One write comes before another in the listing for a sort: by the date that
      the sort names, the other way round for descending sorts if the query turns
      its results round. */
  predicate ListedFirst(sort: Sort, turned: bool, a: Write, c: string, b: Write, d: string)
  {
    match sort
    case CreatedAsc => CreatedFirst(a, c, b, d)
    case CreatedDesc => if turned then CreatedFirst(b, d, a, c) else CreatedFirst(a, c, b, d)
    case PublishedAsc => PublishedFirst(a, c, b, d)
    case PublishedDesc => if turned then PublishedFirst(b, d, a, c) else PublishedFirst(a, c, b, d)
    case TimestampAsc => StampedFirst(a, c, b, d)
    case TimestampDesc => if turned then StampedFirst(b, d, a, c) else StampedFirst(a, c, b, d)
  }

  lemma TextOrderIsDateOrder(t: Instant, c: string, u: Instant, d: string)
    requires Less(Format(t), Format(u)) || (Format(t) == Format(u) && Less(c, d))
    ensures DatedFirst(t, c, u, d)
  {
    FormatOrder(t, u);
    if Format(t) == Format(u) { FormatInjective(t, u); }
  }

  /** The sorted answer is in the order of the dates that the sort names. */
  lemma AnswerByDate(s: Store, chosen: set<string>, sort: Sort, i: nat, j: nat)
    requires Addressed(s) && i < j < |Answer(Flat(s), chosen, sort.Field())|
    requires var r := Answer(Flat(s), chosen, sort.Field()); s[r[i]].StoredWrite? && s[r[j]].StoredWrite?
    ensures var r := Answer(Flat(s), chosen, sort.Field());
            ListedFirst(sort, false, s[r[i]].write, r[i], s[r[j]].write, r[j])
  {
    var r := Answer(Flat(s), chosen, sort.Field());
    StoreUniform(s, sort);
    AnswerOrdered(Flat(s), chosen, sort.Field(), i, j);
    assert r[i] in Elements(r) && r[j] in Elements(r);
    ByField(s[r[i]], r[i], s[r[j]], r[j], sort);
  }

  /** The order of the sort field's texts is the order of the dates. */
  lemma ByField(m: Stored, c: string, n: Stored, d: string, sort: Sort)
    requires m.StoredWrite? && n.StoredWrite? && sort.Field() in m.Fields() && sort.Field() in n.Fields()
    requires var x, y := m.Fields()[sort.Field()], n.Fields()[sort.Field()]; Less(x, y) || (x == y && Less(c, d))
    ensures ListedFirst(sort, false, m.write, c, n.write, d)
  {
    DateText(m, sort);
    DateText(n, sort);
    TextOrderIsDateOrder(DateOf(sort, m.write).value, c, DateOf(sort, n.write).value, d);
  }

  /** The date that a sort names. */
  function DateOf(sort: Sort, w: Write): Option<Instant>
  {
    match sort
    case CreatedAsc | CreatedDesc => Some(w.descriptor.dateCreated)
    case PublishedAsc | PublishedDesc => w.descriptor.datePublished
    case TimestampAsc | TimestampDesc => Some(w.descriptor.base.timestamp)
  }

  lemma DateText(m: Stored, sort: Sort)
    requires m.StoredWrite? && sort.Field() in m.Fields()
    ensures DateOf(sort, m.write).Some? && m.Fields()[sort.Field()] == Format(DateOf(sort, m.write).value)
  {
    FieldIs(m, sort.Field());
  }

  lemma TurnedRound(sort: Sort, a: Write, c: string, b: Write, d: string)
    requires ListedFirst(sort, false, a, c, b, d)
    ensures sort.CreatedDesc? || sort.PublishedDesc? || sort.TimestampDesc? ==> ListedFirst(sort, true, b, d, a, c)
    ensures sort.CreatedAsc? || sort.PublishedAsc? || sort.TimestampAsc? ==> ListedFirst(sort, true, a, c, b, d)
  {
  }

  /** The places of two items before their sequence was turned round, or not. */
  lemma PlacesBefore(items: seq<IndexItem>, turned: bool, i: nat, j: nat) returns (x: nat, y: nat)
    requires i < j < |items|
    ensures x < y < |items|
    ensures !turned ==> items[i] == items[x] && items[j] == items[y]
    ensures turned ==> Reversed(items)[i] == items[y] && Reversed(items)[j] == items[x]
  {
    x, y := i, j;
    if turned { x, y := |items| - 1 - j, |items| - 1 - i; }
  }

  lemma PlacesOf(live: Live, cids: seq<string>, sort: Sort, i: nat, j: nat) returns (x: nat, y: nat)
    requires (forall k :: 0 <= k < |cids| ==> cids[k] in live) && i < j < |cids|
    ensures x < y < |cids|
    ensures sort.CreatedAsc? || sort.PublishedAsc? || sort.TimestampAsc? ==>
      ItemsOf(live, cids)[i].messageCid == cids[x] && ItemsOf(live, cids)[j].messageCid == cids[y]
    ensures sort.CreatedDesc? || sort.PublishedDesc? || sort.TimestampDesc? ==>
      Reversed(ItemsOf(live, cids))[i].messageCid == cids[y] && Reversed(ItemsOf(live, cids))[j].messageCid == cids[x]
  {
    x, y := PlacesBefore(ItemsOf(live, cids), !sort.IsAscending(), i, j);
  }

  /** The places in the sorted answer that two listed items come from. */
  lemma PlacesInAnswer(live: Live, chosen: set<string>, sort: Sort, i: nat, j: nat) returns (x: nat, y: nat)
    requires AllCids(live) && i < j < |Listing(live, chosen, sort)|
    ensures var r, items := Answer(live, chosen, sort.Field()), Listing(live, chosen, sort);
            && x < y < |r|
            && (if sort.CreatedAsc? || sort.PublishedAsc? || sort.TimestampAsc?
                then items[i].messageCid == r[x] && items[j].messageCid == r[y]
                else items[i].messageCid == r[y] && items[j].messageCid == r[x])
  {
    x, y := PlacesOf(live, Answer(live, chosen, sort.Field()), sort, i, j);
  }

  /** Two listed writes, at places of the sorted answer, are in the order of the sort. */
  lemma PlacedInOrder(s: Store, chosen: set<string>, sort: Sort, x: nat, y: nat)
    requires Addressed(s) && x < y < |Answer(Flat(s), chosen, sort.Field())|
    requires var r := Answer(Flat(s), chosen, sort.Field()); s[r[x]].StoredWrite? && s[r[y]].StoredWrite?
    ensures var r := Answer(Flat(s), chosen, sort.Field());
            if sort.CreatedAsc? || sort.PublishedAsc? || sort.TimestampAsc?
            then ListedFirst(sort, true, s[r[x]].write, r[x], s[r[y]].write, r[y])
            else ListedFirst(sort, true, s[r[y]].write, r[y], s[r[x]].write, r[x])
  {
    var r := Answer(Flat(s), chosen, sort.Field());
    AnswerByDate(s, chosen, sort, x, y);
    TurnedRound(sort, s[r[x]].write, r[x], s[r[y]].write, r[y]);
  }

  /** A listing is in the order of its sort. */
  lemma ListingOrder(s: Store, chosen: set<string>, sort: Sort, i: nat, j: nat)
    requires Addressed(s) && i < j < |Listing(Flat(s), chosen, sort)|
    requires var r := Listing(Flat(s), chosen, sort);
             && r[i].messageCid in s && s[r[i].messageCid].StoredWrite?
             && r[j].messageCid in s && s[r[j].messageCid].StoredWrite?
    ensures var r := Listing(Flat(s), chosen, sort);
            var c, d := r[i].messageCid, r[j].messageCid;
            ListedFirst(sort, true, s[c].write, c, s[d].write, d)
  {
    var x, y := PlacesInAnswer(Flat(s), chosen, sort, i, j);
    PlacedInOrder(s, chosen, sort, x, y);
  }

  /** A concise query returns writes in the order of its sort. */
  lemma ConciseOrder(s: Store, q: Query, i: nat, j: nat)
    requires Addressed(s) && q.IsConcise() && q.pagination.None? && i < j < |Retrieved(Flat(s), q)|
    requires var r := Retrieved(Flat(s), q);
             && r[i].messageCid in s && s[r[i].messageCid].StoredWrite?
             && r[j].messageCid in s && s[r[j].messageCid].StoredWrite?
    ensures var r := Retrieved(Flat(s), q);
            var c, d := r[i].messageCid, r[j].messageCid;
            ListedFirst(q.sort, true, s[c].write, c, s[d].write, d)
  {
    ListingOrder(s, Selection(Flat(s), q.sets), q.sort, i, j);
  }

  /** The places in a walk that two listed items come from. */
  lemma {:induction false} PlacesInWalk(walk: seq<IndexItem>, sets: seq<MatchSet>, i: nat, j: nat)
    returns (p: nat, q: nat)
    requires i < j < |Expand(walk, sets)|
    ensures p <= q < |walk| && Expand(walk, sets)[i] == walk[p] && Expand(walk, sets)[j] == walk[q]
  {
    var n := |walk| - 1;
    var front := Expand(walk[..n], sets);
    if j < |front| {
      p, q := PlacesInWalk(walk[..n], sets, i, j);
    } else if i < |front| {
      q := n;
      p := PlaceInWalk(walk[..n], sets, i);
    } else {
      p, q := n, n;
    }
  }

  lemma {:induction false} PlaceInWalk(walk: seq<IndexItem>, sets: seq<MatchSet>, i: nat) returns (p: nat)
    requires i < |Expand(walk, sets)|
    ensures p < |walk| && Expand(walk, sets)[i] == walk[p]
  {
    var n := |walk| - 1;
    if i < |Expand(walk[..n], sets)| { p := PlaceInWalk(walk[..n], sets, i); } else { p := n; }
  }

  /** A walk returns writes in ascending order of the date its sort names, also for
      descending sorts; only repeats of one message are not ordered. */
  lemma WalkOrder(s: Store, q: Query, i: nat, j: nat)
    requires Addressed(s) && !q.IsConcise() && q.pagination.None? && i < j < |Retrieved(Flat(s), q)|
    requires var r := Retrieved(Flat(s), q);
             && r[i].messageCid in s && s[r[i].messageCid].StoredWrite?
             && r[j].messageCid in s && s[r[j].messageCid].StoredWrite?
    ensures var r := Retrieved(Flat(s), q);
            var c, d := r[i].messageCid, r[j].messageCid;
            c == d || ListedFirst(q.sort, false, s[c].write, c, s[d].write, d)
  {
    var f := q.sort.Field();
    var walk := Walk(Flat(s), q);
    StopUnlimited(walk, q.sets, 0);
    assert walk[..|walk|] == walk;
    var x, y := PlacesInWalk(walk, q.sets, i, j);
    if x < y { AnswerByDate(s, WalkKeys(Flat(s), f, None), q.sort, x, y); }
  }

  /** The item is the live message of its CID. */
  ghost predicate IsLiveItem(live: Live, item: IndexItem)
  {
    item.messageCid in live && item.fields == live[item.messageCid]
  }

  lemma ListedAreLive(live: Live, chosen: set<string>, sort: Sort, item: IndexItem)
    requires AllCids(live) && item in Listing(live, chosen, sort)
    ensures IsLiveItem(live, item)
  {
    ReversedMembers(ItemsOf(live, Answer(live, chosen, sort.Field())), item);
  }

  lemma WalkedAreLive(live: Live, q: Query, n: nat, item: IndexItem)
    requires AllCids(live) && n <= |Walk(live, q)| && item in Expand(Walk(live, q)[..n], q.sets)
    ensures IsLiveItem(live, item)
  {
    ExpandMembers(Walk(live, q)[..n], q.sets, item);
  }

  lemma RetrievedAreLive(live: Live, q: Query, item: IndexItem)
    requires AllCids(live) && item in Retrieved(live, q)
    ensures IsLiveItem(live, item)
  {
    if q.IsConcise() {
      CutMembers(Listing(live, Selection(live, q.sets), q.sort), q.pagination, item);
      ListedAreLive(live, Selection(live, q.sets), q.sort, item);
    } else {
      WalkedAreLive(live, q, StopAt(Walk(live, q), q.sets, Limit(q), 0), item);
    }
  }

  lemma AnswerIsWrite(s: Store, q: RecordsQuery, owner: string, i: nat)
    requires Addressed(s) && StoreQuery(q, owner).Ok? && i < |Retrieved(Flat(s), StoreQuery(q, owner).value)|
    ensures var c := Retrieved(Flat(s), StoreQuery(q, owner).value)[i].messageCid; c in s && s[c].StoredWrite?
  {
    var query := StoreQuery(q, owner).value;
    var item := Retrieved(Flat(s), query)[i];
    RetrievedAreLive(Flat(s), query, item);
    assert item == IndexItem(item.messageCid, s[item.messageCid].Fields());
    AnswersAreCurrent(s, q, owner, item.messageCid);
  }

  function SortAsked(q: RecordsQuery): Sort
  {
    match q.sort
    case None => TimestampAsc
    case Some(sort) => sort
  }

  /** The unpaged answer to any records query, by whomever: its writes are in the
      order of the date that the sort asked for names, then of their CIDs; for
      descending sorts in the opposite order if the query is concise, and in the
      ascending order if it is walked, where a message may be repeated. */
  lemma AnswersInOrder(s: Store, q: RecordsQuery, owner: string, i: nat, j: nat)
    requires Addressed(s) && q.pagination.None? && StoreQuery(q, owner).Ok?
    requires i < j < |Retrieved(Flat(s), StoreQuery(q, owner).value)|
    ensures var query := StoreQuery(q, owner).value;
            var r := Retrieved(Flat(s), query);
            var c, d := r[i].messageCid, r[j].messageCid;
            && c in s && d in s && s[c].StoredWrite? && s[d].StoredWrite?
            && ((c == d && !query.IsConcise()) ||
                ListedFirst(SortAsked(q), query.IsConcise(), s[c].write, c, s[d].write, d))
  {
    var query := StoreQuery(q, owner).value;
    assert query.sort == SortAsked(q) && query.pagination.None?;
    AnswerIsWrite(s, q, owner, i);
    AnswerIsWrite(s, q, owner, j);
    if query.IsConcise() { ConciseOrder(s, query, i, j); } else { WalkOrder(s, query, i, j); }
  }
}
