/** Records queries: which store query is run for whom, and what it reveals. */
module Visibility {
  import opened Text
  import opened Results
  import opened Queries
  import opened Messages
  import opened IndexStore
  import opened QueryTheorems
  import opened Filters
  import opened RecordQueries

  /** A records query message; `requester` is the author, if it is signed. */
  datatype RecordsQuery = RecordsQuery(
    filter: RecordsFilter,
    sort: Option<Sort>,
    pagination: Option<Pagination>,
    requester: Option<string>,
    withRole: bool)

  /** Whether the query asks for published records only. */
  predicate OnlyPublished(q: RecordsQuery)
  {
    if q.filter.published.Some? then q.filter.published.value
    else
      || q.filter.datePublished.Some?
      || q.sort == Some(PublishedAsc) || q.sort == Some(PublishedDesc)
      || q.requester.None?
  }

  /** Unpublished records are not sorted by publication date. */
  predicate IsValid(q: RecordsQuery)
  {
    q.filter.published == Some(false) ==> q.sort != Some(PublishedAsc) && q.sort != Some(PublishedDesc)
  }

  /** The filters of a query by someone other than the owner: published records,
      and unpublished ones written by or addressed to the requester. */
  function NonOwnerFilters(f: RecordsFilter, requester: string, withRole: bool): seq<RecordsFilter>
  {
    (if f.published.None? then [f.(published := Some(true))] else [])
    + [ByAuthor(f, requester), ByRecipient(f, requester)]
    + (if withRole then [f.(published := Some(false))] else [])
  }

  function ByAuthor(f: RecordsFilter, requester: string): RecordsFilter
  {
    f.(author := Some([requester]), published := Some(false))
  }

  function ByRecipient(f: RecordsFilter, requester: string): RecordsFilter
  {
    f.(recipient := Some([requester]), published := Some(false))
  }

  function SortOf(q: RecordsQuery): Sort
  {
    if q.sort.Some? then q.sort.value else TimestampAsc
  }

  function NonOwnerQuery(q: RecordsQuery): Query
    requires q.requester.Some?
  {
    Query(BuildSets(NonOwnerFilters(q.filter, q.requester.value, q.withRole), Some(WriteMethod), false),
          SortOf(q), q.pagination)
  }

  /** What a non-owner may see of a record: nothing, unless it is published or
      the requester is its author or recipient. */
  predicate MaySee(requester: string, w: Write)
  {
    w.IsPublished() || w.authorization.author == requester || w.descriptor.recipient == Some(requester)
  }

  /** The scan for the filter's context misses the write: the query looks the
      context up, and the write's goes on with the greatest character. */
  predicate MissedByScan(f: RecordsFilter, w: Write)
  {
    && f.recordId.None? && f.protocolPath.None? && f.contextId.Some? && f.contextId.value != ""
    && w.contextId.Some?
    && var v, value := f.contextId.value, w.contextId.value;
       |v| < |value| && StartsWith(value, v) && value[|v|] == MAX
  }

  lemma OverlookedIff(g: RecordsFilter, m: Stored)
    requires m.StoredWrite? && AsConcise(g).Some? && AsConcise(g).value.1 != ""
    requires Accepts(BuildSet(g, Some(WriteMethod), false), m.Fields())
    ensures Overlooked(BuildSet(g, Some(WriteMethod), false), m.Fields()) <==> MissedByScan(g, m.write)
  {
    if AsConcise(g).value.0 == ContextId {
      FieldIs(m, ContextId);
    } else {
      OnlyContextOverlooks(g, Some(WriteMethod), false, m.Fields());
    }
  }

  /** The rewritten filters all use the index that the filter itself would use. */
  lemma SameIndex(f: RecordsFilter, requester: string, withRole: bool, i: nat)
    requires i < |NonOwnerFilters(f, requester, withRole)|
    ensures var g := NonOwnerFilters(f, requester, withRole)[i];
            AsConcise(g) == AsConcise(f) && forall w :: MissedByScan(g, w) == MissedByScan(f, w)
  {
  }

  /** Some filter of the non-owner query matches the write. */
  ghost predicate Revealed(q: RecordsQuery, w: Write)
    requires q.requester.Some?
  {
    exists g :: g in NonOwnerFilters(q.filter, q.requester.value, q.withRole) && Matching(g, w)
  }

  /** A signed, valid query that is not for published records only. */
  predicate IsNonOwner(q: RecordsQuery)
  {
    q.requester.Some? && IsValid(q) && !OnlyPublished(q)
  }

  lemma SetsAccept(q: RecordsQuery, m: Stored)
    requires q.requester.Some?
    ensures SomeAccepts(NonOwnerQuery(q).sets, m.Fields()) <==> IsCurrent(m) && Revealed(q, m.write)
  {
    var filters := NonOwnerFilters(q.filter, q.requester.value, q.withRole);
    SomeSetAccepts(filters, NonOwnerQuery(q).sets, m);
  }

  lemma WriteSorts(q: RecordsQuery, m: Stored)
    requires IsNonOwner(q) && m.StoredWrite?
    ensures m.Field(NonOwnerQuery(q).sort.Field()).Some?
  {
  }

  /** An unpaged non-owner query returns a record, under either strategy, exactly
      when it is current, one of the query's filters matches it, and the scan does
      not miss it. */
  lemma NonOwnerReturns(s: Store, q: RecordsQuery, c: string)
    requires Addressed(s) && c in s && IsNonOwner(q) && q.pagination.None?
    ensures Returned(s, NonOwnerQuery(q), c) <==>
            IsCurrent(s[c]) && Revealed(q, s[c].write) && !MissedByScan(q.filter, s[c].write)
  {
    SetsAccept(q, s[c]);
    if s[c].StoredWrite? { WriteSorts(q, s[c]); }
    if NonOwnerQuery(q).IsConcise() {
      ConciseReturns(s, q, c);
    } else {
      ReturnedIff(s, NonOwnerQuery(q), c);
      NotConcise(q);
    }
  }

  lemma NotConcise(q: RecordsQuery)
    requires q.requester.Some? && !NonOwnerQuery(q).IsConcise()
    ensures forall w :: !MissedByScan(q.filter, w)
  {
    var sets := NonOwnerQuery(q).sets;
    var i :| 0 <= i < |sets| && (sets[i].index.None? || sets[i].index.value.1 == "");
    SameIndex(q.filter, q.requester.value, q.withRole, i);
  }

  lemma ConciseReturns(s: Store, q: RecordsQuery, c: string)
    requires Addressed(s) && c in s && q.requester.Some? && q.pagination.None? && NonOwnerQuery(q).IsConcise()
    ensures Returned(s, NonOwnerQuery(q), c) <==>
            && s[c].Field(SortOf(q).Field()).Some? && SomeAccepts(NonOwnerQuery(q).sets, s[c].Fields())
            && !(s[c].StoredWrite? && MissedByScan(q.filter, s[c].write))
  {
    var sets, filters := NonOwnerQuery(q).sets, NonOwnerFilters(q.filter, q.requester.value, q.withRole);
    forall i | 0 <= i < |sets| ensures Backed(sets[i]) { BuildSetBacked(filters[i], Some(WriteMethod), false); }
    ReturnedReached(s, NonOwnerQuery(q), c);
    forall i | 0 <= i < |sets| && Accepts(sets[i], s[c].Fields())
      ensures s[c].StoredWrite? && (Overlooked(sets[i], s[c].Fields()) <==> MissedByScan(q.filter, s[c].write))
    {
      SetAccepts(filters[i], s[c]);
      SameIndex(q.filter, q.requester.value, q.withRole, i);
      OverlookedIff(filters[i], s[c]);
    }
  }

  /** Without a role, a matched write is one the requester may see. */
  lemma RevealedSound(q: RecordsQuery, w: Write)
    requires q.requester.Some? && !q.withRole
    ensures Revealed(q, w) ==> MaySee(q.requester.value, w)
  {
  }

  lemma FilterList(f: RecordsFilter, requester: string, withRole: bool)
    ensures var filters := NonOwnerFilters(f, requester, withRole);
            && (f.published.None? ==> f.(published := Some(true)) in filters)
            && ByAuthor(f, requester) in filters && ByRecipient(f, requester) in filters
  {
  }

  lemma MatchingByAuthor(f: RecordsFilter, requester: string, w: Write)
    requires !w.IsPublished() && w.authorization.author == requester
    requires Matching(f.(author := None, published := None), w)
    ensures Matching(ByAuthor(f, requester), w)
  {
  }

  lemma MatchingByRecipient(f: RecordsFilter, requester: string, w: Write)
    requires !w.IsPublished() && w.descriptor.recipient == Some(requester)
    requires Matching(f.(recipient := None, published := None), w)
    ensures Matching(ByRecipient(f, requester), w)
  {
  }

  /** A write that matches the filter and that the requester may see is matched. */
  lemma RevealedComplete(q: RecordsQuery, w: Write)
    requires IsNonOwner(q) && Matching(q.filter, w) && MaySee(q.requester.value, w)
    ensures Revealed(q, w)
  {
    var f, r := q.filter, q.requester.value;
    FilterList(f, r, q.withRole);
    if w.IsPublished() {
      MatchingPublished(f, w);
      RevealedBy(q, f.(published := Some(true)), w);
    } else if w.authorization.author == r {
      MatchingByAuthor(f, r, w);
      RevealedBy(q, ByAuthor(f, r), w);
    } else {
      MatchingByRecipient(f, r, w);
      RevealedBy(q, ByRecipient(f, r), w);
    }
  }

  lemma RevealedBy(q: RecordsQuery, g: RecordsFilter, w: Write)
    requires q.requester.Some? && g in NonOwnerFilters(q.filter, q.requester.value, q.withRole) && Matching(g, w)
    ensures Revealed(q, w)
  {
  }

  lemma MatchingPublished(f: RecordsFilter, w: Write)
    requires w.IsPublished() && Matching(f, w)
    ensures Matching(f.(published := Some(true)), w) && f.published != Some(false)
  {
  }

  /** Without a role, nothing is returned that the requester may not see, whatever
      sort, limit and cursor the requester sends. */
  lemma NonOwnerSound(s: Store, q: RecordsQuery, c: string)
    requires Addressed(s) && c in s && q.requester.Some? && !q.withRole
    ensures Returned(s, NonOwnerQuery(q), c) ==> IsCurrent(s[c]) && MaySee(q.requester.value, s[c].write)
  {
    ReturnedOnly(s, NonOwnerQuery(q), c);
    SetsAccept(q, s[c]);
    if s[c].StoredWrite? { RevealedSound(q, s[c].write); }
  }

  /** Everything current that matches the filter and that the requester may see
      is returned, exactly if the scan does not miss it. */
  lemma NonOwnerComplete(s: Store, q: RecordsQuery, c: string)
    requires Addressed(s) && c in s && IsNonOwner(q) && q.pagination.None?
    requires IsCurrent(s[c]) && Matching(q.filter, s[c].write) && MaySee(q.requester.value, s[c].write)
    ensures Returned(s, NonOwnerQuery(q), c) <==> !MissedByScan(q.filter, s[c].write)
  {
    NonOwnerReturns(s, q, c);
    RevealedComplete(q, s[c].write);
  }

  /** The filter asks for authors other than the requester, who wrote the record. */
  predicate BypassesAuthors(f: RecordsFilter, requester: string, w: Write)
  {
    && f.author.Some? && requester !in f.author.value
    && w.authorization.author == requester && Matching(f.(author := None), w)
  }

  /** The filter asks for recipients other than the requester, who is the record's. */
  predicate BypassesRecipients(f: RecordsFilter, requester: string, w: Write)
  {
    && f.recipient.Some? && requester !in f.recipient.value
    && w.descriptor.recipient == Some(requester) && Matching(f.(recipient := None), w)
  }

  /** A write that the filter does not match is revealed exactly when it is not
      published and its author or its recipient is the requester, whom the filter
      does not ask for, and all else in the filter matches. */
  lemma FilterBypassedIff(q: RecordsQuery, w: Write)
    requires IsNonOwner(q)
    ensures Revealed(q, w) && !Matching(q.filter, w) <==>
            && !w.IsPublished()
            && (BypassesAuthors(q.filter, q.requester.value, w) || BypassesRecipients(q.filter, q.requester.value, w))
  {
    var f, r := q.filter, q.requester.value;
    FilterList(f, r, q.withRole);
    if Revealed(q, w) && !Matching(f, w) {
      var g :| g in NonOwnerFilters(f, r, q.withRole) && Matching(g, w);
      OnlyBypasses(f, r, q.withRole, g, w);
    }
    if !w.IsPublished() && BypassesAuthors(f, r, w) {
      MatchingByAuthor(f, r, w);
      RevealedBy(q, ByAuthor(f, r), w);
    }
    if !w.IsPublished() && BypassesRecipients(f, r, w) {
      MatchingByRecipient(f, r, w);
      RevealedBy(q, ByRecipient(f, r), w);
    }
  }

  lemma OnlyBypasses(f: RecordsFilter, requester: string, withRole: bool, g: RecordsFilter, w: Write)
    requires f.published != Some(true) && g in NonOwnerFilters(f, requester, withRole)
    requires Matching(g, w) && !Matching(f, w)
    ensures !w.IsPublished() && (BypassesAuthors(f, requester, w) || BypassesRecipients(f, requester, w))
  {
    SameButPublished(f, w);
    if g == ByAuthor(f, requester) {
      OtherAuthor(f, requester, w);
    } else if g == ByRecipient(f, requester) {
      OtherRecipient(f, requester, w);
    }
  }

  lemma SameButPublished(f: RecordsFilter, w: Write)
    ensures f.published.None? && Matching(f.(published := Some(true)), w) ==> Matching(f, w)
    ensures f.published != Some(true) && Matching(f.(published := Some(false)), w) ==> Matching(f, w)
  {
  }

  lemma OtherAuthor(f: RecordsFilter, requester: string, w: Write)
    requires f.published != Some(true) && Matching(ByAuthor(f, requester), w) && !Matching(f, w)
    ensures !w.IsPublished() && BypassesAuthors(f, requester, w)
  {
    assert w.authorization.author in [requester];
  }

  lemma OtherRecipient(f: RecordsFilter, requester: string, w: Write)
    requires f.published != Some(true) && Matching(ByRecipient(f, requester), w) && !Matching(f, w)
    ensures !w.IsPublished() && BypassesRecipients(f, requester, w)
  {
    RestMatches(f, requester, w);
    if f.recipient.None? || requester in f.recipient.value { AskedMatches(f, requester, w); }
  }

  lemma AskedMatches(f: RecordsFilter, requester: string, w: Write)
    requires f.published != Some(true) && Matching(ByRecipient(f, requester), w)
    requires f.recipient.None? || requester in f.recipient.value
    ensures Matching(f, w)
  {
    RestMatches(f, requester, w);
  }

  lemma RestMatches(f: RecordsFilter, requester: string, w: Write)
    requires f.published != Some(true) && Matching(ByRecipient(f, requester), w)
    ensures !w.IsPublished() && w.descriptor.recipient == Some(requester) && Matching(f.(recipient := None), w)
  {
    assert w.descriptor.recipient.value in [requester];
  }
}
