/** The store query that is run for each kind of records query: for published
    records only, for the owner, and for anyone else. */
module QueryPaths {
  import opened Results
  import opened Queries
  import opened Messages
  import opened IndexStore
  import opened QueryTheorems
  import opened RepeatedPages
  import opened Filters
  import opened RecordQueries
  import opened Visibility

  // ----- the query for one filter -----------------------------------------

  const VERB: Matcher := Matcher(Method, Equal(WriteMethod.Text()))
  const FLAG: Matcher := Matcher(Initial, Equal(BoolText(false)))

  /** The match set of a records query's own filter. */
  function DirectSet(f: RecordsFilter): MatchSet
  {
    MatchSet([VERB] + Compile(f) + [FLAG], AsConcise(f))
  }

  function DirectQuery(q: RecordsQuery, f: RecordsFilter): Query
  {
    Query([DirectSet(f)], SortOf(q), q.pagination)
  }

  /** The order of a set's matchers does not matter for what it accepts. */
  lemma DirectIsBuilt(f: RecordsFilter, fields: Fields)
    ensures Accepts(DirectSet(f), fields) <==> Accepts(BuildSet(f, Some(WriteMethod), false), fields)
    ensures Overlooked(DirectSet(f), fields) <==> Overlooked(BuildSet(f, Some(WriteMethod), false), fields)
  {
    var direct, built := DirectSet(f).inner, BuildSet(f, Some(WriteMethod), false).inner;
    AcceptsIff(direct, fields);
    AcceptsIff(built, fields);
    AllHoldConcat([VERB] + Compile(f), [FLAG], fields);
    AllHoldConcat([VERB], Compile(f), fields);
    assert built == [VERB] + [FLAG] + Compile(f);
    AllHoldConcat([VERB] + [FLAG], Compile(f), fields);
    AllHoldConcat([VERB], [FLAG], fields);
  }

  lemma DirectBacked(f: RecordsFilter)
    requires AsConcise(f).Some?
    ensures Backed(DirectSet(f))
  {
    IndexCompiled(f);
    var ms := DirectSet(f);
    var (field, v) := AsConcise(f).value;
    var m := Matcher(field, if field == ContextId then Prefix(v) else Equal(v));
    assert m in ms.inner;
    var i :| 0 <= i < |ms.inner| && ms.inner[i] == m;
    assert Backs(ms.inner[i], field, v);
  }

  /** Whatever its sort, limit and cursor, the query returns only current writes
      that match its filter. */
  lemma DirectOnly(s: Store, q: RecordsQuery, f: RecordsFilter, c: string)
    requires Addressed(s) && c in s
    ensures Returned(s, DirectQuery(q, f), c) ==> IsCurrent(s[c]) && Matching(f, s[c].write)
  {
    ReturnedOnly(s, DirectQuery(q, f), c);
    DirectIsBuilt(f, s[c].Fields());
    SetAccepts(f, s[c]);
  }

  /** Unpaged, it returns a message, under either strategy, exactly when it is a
      current write that matches the filter and has the sort field, and the scan
      does not miss it. */
  lemma DirectReturns(s: Store, q: RecordsQuery, f: RecordsFilter, c: string)
    requires Addressed(s) && c in s && q.pagination.None?
    ensures Returned(s, DirectQuery(q, f), c) <==>
            && IsCurrent(s[c]) && Matching(f, s[c].write) && s[c].Field(SortOf(q).Field()).Some?
            && !MissedByScan(f, s[c].write)
  {
    SetAccepts(f, s[c]);
    if DirectQuery(q, f).IsConcise() {
      ConciseDirect(s, q, f, c);
    } else {
      WalkedDirect(s, q, f, c);
    }
  }

  lemma ConciseDirect(s: Store, q: RecordsQuery, f: RecordsFilter, c: string)
    requires Addressed(s) && c in s && q.pagination.None? && DirectQuery(q, f).IsConcise()
    ensures Returned(s, DirectQuery(q, f), c) <==>
            && s[c].Field(SortOf(q).Field()).Some? && Accepts(BuildSet(f, Some(WriteMethod), false), s[c].Fields())
            && !(s[c].StoredWrite? && MissedByScan(f, s[c].write))
  {
    assert DirectQuery(q, f).sets[0] == DirectSet(f);
    DirectBacked(f);
    ReturnedReached(s, DirectQuery(q, f), c);
    OneReached(DirectSet(f), s[c].Fields());
    DirectIsBuilt(f, s[c].Fields());
    if Accepts(BuildSet(f, Some(WriteMethod), false), s[c].Fields()) {
      SetAccepts(f, s[c]);
      OverlookedIff(f, s[c]);
    }
  }

  lemma WalkedDirect(s: Store, q: RecordsQuery, f: RecordsFilter, c: string)
    requires Addressed(s) && c in s && q.pagination.None? && !DirectQuery(q, f).IsConcise()
    ensures Returned(s, DirectQuery(q, f), c) <==>
            s[c].Field(SortOf(q).Field()).Some? && Accepts(BuildSet(f, Some(WriteMethod), false), s[c].Fields())
    ensures forall w :: !MissedByScan(f, w)
  {
    assert DirectQuery(q, f).sets[0] == DirectSet(f);
    ReturnedIff(s, DirectQuery(q, f), c);
    OneAccepts(DirectSet(f), s[c].Fields());
    DirectIsBuilt(f, s[c].Fields());
  }

  lemma OneReached(ms: MatchSet, fields: Fields)
    ensures Reached([ms], fields) <==> Accepts(ms, fields) && !Overlooked(ms, fields)
  {
    assert [ms][0] == ms;
  }

  lemma OneAccepts(ms: MatchSet, fields: Fields)
    ensures SomeAccepts([ms], fields) <==> Accepts(ms, fields)
  {
    assert [ms][0] == ms;
  }

  // ----- the three kinds ---------------------------------------------------

  /** The store query that is run. An unsigned query for unpublished records is
      refused. */
  function StoreQuery(q: RecordsQuery, owner: string): Result<Query>
  {
    if OnlyPublished(q) then Ok(DirectQuery(q, q.filter.(published := Some(true))))
    else if q.requester.None? then Err(Forbidden)
    else if q.requester.value == owner then Ok(DirectQuery(q, q.filter))
    else Ok(NonOwnerQuery(q))
  }

  /** The message is returned for the query. */
  ghost predicate IsAnswer(s: Store, q: RecordsQuery, owner: string, c: string)
    requires Addressed(s) && c in s
  {
    StoreQuery(q, owner).Ok? && Returned(s, StoreQuery(q, owner).value, c)
  }

  /** Whatever is asked by whomever, only current writes are returned. */
  lemma AnswersAreCurrent(s: Store, q: RecordsQuery, owner: string, c: string)
    requires Addressed(s) && c in s
    ensures IsAnswer(s, q, owner, c) ==> IsCurrent(s[c])
  {
    if OnlyPublished(q) {
      DirectOnly(s, q, q.filter.(published := Some(true)), c);
    } else if q.requester == Some(owner) {
      DirectOnly(s, q, q.filter, c);
    } else if q.requester.Some? {
      ReturnedOnly(s, NonOwnerQuery(q), c);
      SetsAccept(q, s[c]);
    }
  }

  /** An unsigned query, and one for published records only, returns nothing that
      is not published. */
  lemma PublishedOnly(s: Store, q: RecordsQuery, owner: string, c: string)
    requires Addressed(s) && c in s && (OnlyPublished(q) || q.requester.None?)
    ensures IsAnswer(s, q, owner, c) ==> IsCurrent(s[c]) && s[c].write.IsPublished()
  {
    DirectOnly(s, q, q.filter.(published := Some(true)), c);
  }

  /** The owner gets exactly the current writes that match the filter and have the
      sort field, but for those whose context the scan misses. */
  lemma OwnerReturns(s: Store, q: RecordsQuery, owner: string, c: string)
    requires Addressed(s) && c in s && q.requester == Some(owner) && !OnlyPublished(q) && q.pagination.None?
    ensures IsAnswer(s, q, owner, c) <==>
            && IsCurrent(s[c]) && Matching(q.filter, s[c].write) && s[c].Field(SortOf(q).Field()).Some?
            && !MissedByScan(q.filter, s[c].write)
  {
    DirectReturns(s, q, q.filter, c);
  }

  /** The write is published, or the requester is the owner or may see it. */
  predicate IsShown(requester: Option<string>, owner: string, w: Write)
  {
    w.IsPublished() || (requester.Some? && (requester.value == owner || MaySee(requester.value, w)))
  }

  /** Whoever asks, signed or not, and without a role: what is returned is
      published, or the requester is the owner, its author or its recipient. */
  lemma EveryQuerySound(s: Store, q: RecordsQuery, owner: string, c: string)
    requires Addressed(s) && c in s && !q.withRole
    ensures IsAnswer(s, q, owner, c) ==> IsCurrent(s[c]) && IsShown(q.requester, owner, s[c].write)
  {
    AnswersAreCurrent(s, q, owner, c);
    if OnlyPublished(q) {
      PublishedOnly(s, q, owner, c);
    } else if q.requester.Some? && q.requester.value != owner {
      NonOwnerSound(s, q, c);
    }
  }

  // ----- paging for non-owners --------------------------------------------

  /** Two of the rewritten filters match the write. */
  predicate MatchedTwice(q: RecordsQuery, w: Write)
    requires q.requester.Some?
  {
    var f, r := q.filter, q.requester.value;
    || (Matching(ByAuthor(f, r), w) && Matching(ByRecipient(f, r), w))
    || (q.withRole && Matching(f.(published := Some(false)), w)
        && (Matching(ByAuthor(f, r), w) || Matching(ByRecipient(f, r), w)))
  }

  lemma {:induction false} CopiesAtMostOne(sets: seq<MatchSet>, fields: Fields)
    ensures Copies(sets, fields) <= 1 <==>
            forall i, j :: 0 <= i < j < |sets| ==> !(Accepts(sets[i], fields) && Accepts(sets[j], fields))
  {
    if sets != [] {
      var n := |sets| - 1;
      CopiesAtMostOne(sets[..n], fields);
      CopiesPositive(sets[..n], fields);
      if i :| 0 <= i < n && Accepts(sets[..n][i], fields) {
        assert Accepts(sets[i], fields);
      }
      assert forall i :: 0 <= i < n ==> sets[..n][i] == sets[i];
    }
  }

  /** Pairs of filters are never matched at once, unless the write is matched twice. */
  lemma PairsMatched(q: RecordsQuery, w: Write)
    requires q.requester.Some?
    ensures var filters := NonOwnerFilters(q.filter, q.requester.value, q.withRole);
            MatchedTwice(q, w) <==>
            exists i, j :: 0 <= i < j < |filters| && Matching(filters[i], w) && Matching(filters[j], w)
  {
    var f, r := q.filter, q.requester.value;
    var filters := NonOwnerFilters(f, r, q.withRole);
    var k := if f.published.None? then 1 else 0;
    assert filters[k] == ByAuthor(f, r) && filters[k + 1] == ByRecipient(f, r);
    assert q.withRole ==> filters[k + 2] == f.(published := Some(false));
    assert k == 1 ==> filters[0] == f.(published := Some(true));
    assert |filters| == k + if q.withRole then 3 else 2;
    if i, j :| 0 <= i < j < |filters| && Matching(filters[i], w) && Matching(filters[j], w) {
      assert i >= k;
    }
  }

  lemma ListedTwiceIff(q: RecordsQuery, m: Stored)
    requires q.requester.Some?
    ensures Listed(NonOwnerQuery(q).sets, m.Fields()) >= 2 <==> IsCurrent(m) && MatchedTwice(q, m.write)
  {
    var filters, sets := NonOwnerFilters(q.filter, q.requester.value, q.withRole), NonOwnerQuery(q).sets;
    CopiesAtMostOne(sets, m.Fields());
    forall i | 0 <= i < |sets|
      ensures Accepts(sets[i], m.Fields()) <==> IsCurrent(m) && Matching(filters[i], m.write)
    {
      SetAccepts(filters[i], m);
    }
    if m.StoredWrite? { PairsMatched(q, m.write); }
  }

  /** Following cursors through a non-owner query that is walked covers its result
      for every limit exactly when no current record is matched by two of its
      filters, as one is that the requester wrote to themselves. */
  lemma NonOwnerPagingIff(s: Store, q: RecordsQuery)
    requires Addressed(s) && IsNonOwner(q) && q.pagination.None? && !NonOwnerQuery(q).IsConcise()
    ensures (forall limit: nat :: limit >= 1 ==> IsCoverable(Flat(s), NonOwnerQuery(q), limit)) <==>
            forall c :: c in s && IsCurrent(s[c]) ==> !MatchedTwice(q, s[c].write)
  {
    var query, f := NonOwnerQuery(q), SortOf(q).Field();
    WalkPagingIff(Flat(s), query);
    forall c | c in s
      ensures f in Flat(s)[c] && Listed(query.sets, Flat(s)[c]) > 1 <==> IsCurrent(s[c]) && MatchedTwice(q, s[c].write)
    {
      ListedTwiceIff(q, s[c]);
      FieldIs(s[c], f);
      if s[c].StoredWrite? { WriteSorts(q, s[c]); }
    }
  }
}
