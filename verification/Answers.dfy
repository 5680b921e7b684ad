/** Which records a records query returns, whoever asks. */
module Answers {
  import opened Results
  import opened Queries
  import opened Messages
  import opened Filters
  import opened RecordQueries
  import opened Visibility
  import opened QueryPaths

  /** The query is for published records: it says so, or it does not say and asks
      for a publication date, sorts by it, or is not signed. */
  predicate AsksPublished(q: RecordsQuery)
  {
    || q.filter.published == Some(true)
    || (q.filter.published == None
        && (q.filter.datePublished.Some? || q.sort == Some(PublishedAsc) || q.sort == Some(PublishedDesc)
            || q.requester == None))
  }

  /** The record is one that the query asks for and that its requester is given: of
      published records all that match; else the owner gets all that match, and
      another requester, of unpublished records, those written or addressed by or to
      them for which the rest of the filter matches, and with a role all that match. */
  predicate IsGiven(q: RecordsQuery, owner: string, w: Write)
  {
    if AsksPublished(q) then w.descriptor.published == Some(true) && Matching(q.filter.(published := None), w)
    else
      && q.requester.Some?
      && var r := q.requester.value;
         if r == owner then Matching(q.filter, w)
         else if w.descriptor.published == Some(true) then Matching(q.filter, w)
         else
           || (w.authorization.author == r && Matching(q.filter.(author := None), w))
           || (w.descriptor.recipient == Some(r) && Matching(q.filter.(recipient := None), w))
           || (q.withRole && Matching(q.filter, w))
  }

  lemma AuthorPart(f: RecordsFilter, r: string, w: Write)
    requires f.published != Some(true) && !w.IsPublished()
    ensures Matching(ByAuthor(f, r), w) <==> w.authorization.author == r && Matching(f.(author := None), w)
    ensures Matching(ByRecipient(f, r), w) <==>
            w.descriptor.recipient == Some(r) && Matching(f.(recipient := None), w)
    ensures Matching(f.(published := Some(false)), w) <==> Matching(f, w)
  {
    assert w.authorization.author in [r] <==> w.authorization.author == r;
    if w.descriptor.recipient.Some? {
      assert w.descriptor.recipient.value in [r] <==> w.descriptor.recipient.value == r;
    }
  }

  lemma RevealedIff(q: RecordsQuery, w: Write)
    requires IsNonOwner(q)
    ensures var f, r := q.filter, q.requester.value;
            Revealed(q, w) <==>
            if w.IsPublished() then Matching(f, w)
            else
              || (w.authorization.author == r && Matching(f.(author := None), w))
              || (w.descriptor.recipient == Some(r) && Matching(f.(recipient := None), w))
              || (q.withRole && Matching(f, w))
  {
    var f, r := q.filter, q.requester.value;
    var filters := NonOwnerFilters(f, r, q.withRole);
    FilterList(f, r, q.withRole);
    if w.IsPublished() {
      if Matching(f, w) {
        MatchingPublished(f, w);
        RevealedBy(q, f.(published := Some(true)), w);
      }
      SameButPublished(f, w);
    } else {
      AuthorPart(f, r, w);
      if Matching(ByAuthor(f, r), w) { RevealedBy(q, ByAuthor(f, r), w); }
      if Matching(ByRecipient(f, r), w) { RevealedBy(q, ByRecipient(f, r), w); }
      if q.withRole && Matching(f, w) { RevealedBy(q, f.(published := Some(false)), w); }
    }
  }

  /** The write has the date that the query sorts by. */
  predicate HasSortDate(q: RecordsQuery, w: Write)
  {
    q.sort == Some(PublishedAsc) || q.sort == Some(PublishedDesc) ==> w.descriptor.datePublished.Some?
  }

  lemma SortDateIff(q: RecordsQuery, m: Stored)
    requires m.StoredWrite?
    ensures m.Field(SortOf(q).Field()).Some? <==> HasSortDate(q, m.write)
  {
  }

  lemma PublishedPart(f: RecordsFilter, w: Write)
    ensures Matching(f.(published := Some(true)), w) <==>
            w.descriptor.published == Some(true) && Matching(f.(published := None), w)
    ensures MissedByScan(f.(published := Some(true)), w) <==> MissedByScan(f, w)
  {
  }

  lemma PublishedAnswer(s: Store, q: RecordsQuery, owner: string, c: string)
    requires Addressed(s) && c in s && q.pagination.None? && AsksPublished(q)
    ensures IsAnswer(s, q, owner, c) <==> IsListed(q, owner, s[c])
  {
    DirectReturns(s, q, q.filter.(published := Some(true)), c);
    assert OnlyPublished(q);
    if s[c].StoredWrite? {
      PublishedPart(q.filter, s[c].write);
      SortDateIff(q, s[c]);
    }
  }

  lemma OwnAnswer(s: Store, q: RecordsQuery, owner: string, c: string)
    requires Addressed(s) && c in s && q.pagination.None? && !AsksPublished(q) && q.requester == Some(owner)
    ensures IsAnswer(s, q, owner, c) <==> IsListed(q, owner, s[c])
  {
    OwnerReturns(s, q, owner, c);
    if s[c].StoredWrite? { SortDateIff(q, s[c]); }
  }

  lemma OthersAnswer(s: Store, q: RecordsQuery, owner: string, c: string)
    requires Addressed(s) && c in s && q.pagination.None? && !AsksPublished(q)
    requires q.requester.Some? && q.requester.value != owner && IsValid(q)
    ensures IsAnswer(s, q, owner, c) <==> IsListed(q, owner, s[c])
  {
    NonOwnerReturns(s, q, c);
    if s[c].StoredWrite? { RevealedIff(q, s[c].write); }
  }

  /** A current write that the requester is given and that has the date the query
      sorts by, and whose context the scan does not miss. */
  predicate IsListed(q: RecordsQuery, owner: string, m: Stored)
  {
    && IsCurrent(m) && IsGiven(q, owner, m.write) && HasSortDate(q, m.write)
    && !MissedByScan(q.filter, m.write)
  }

  /** The unpaged answer to any valid records query, by whomever, holds exactly the
      current writes that the requester is given and that have the date the query
      sorts by, but for those whose context the scan misses. */
  lemma AnswerIff(s: Store, q: RecordsQuery, owner: string, c: string)
    requires Addressed(s) && c in s && q.pagination.None?
    requires q.filter.published == Some(false) ==> q.sort != Some(PublishedAsc) && q.sort != Some(PublishedDesc)
    ensures IsAnswer(s, q, owner, c) <==> IsListed(q, owner, s[c])
  {
    if AsksPublished(q) {
      PublishedAnswer(s, q, owner, c);
    } else if q.requester == Some(owner) {
      OwnAnswer(s, q, owner, c);
    } else if q.requester.Some? {
      OthersAnswer(s, q, owner, c);
    }
  }
}
