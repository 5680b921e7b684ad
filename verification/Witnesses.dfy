/** Inputs on which a property one might expect of the code fails. Each belongs
    to a theorem that says exactly when the property holds. */
module Witnesses {
  import opened Text
  import opened Order
  import opened Results
  import opened Timestamps
  import opened Queries
  import opened Messages
  import opened Index
  import opened IndexStore
  import opened QueryTheorems
  import opened MessageStore
  import opened Filters
  import opened RecordQueries
  import opened NodeState
  import opened Writes
  import opened Deletes
  import opened Lifecycle
  import opened Deletion
  import opened Visibility
  import opened Revocation
  import opened Retention
  import opened RoleRecords
  import Rules
  import opened Runs

  /** A context that goes on with U+10FFFF matches its prefix, but the scan for
      the prefix does not find it. */
  lemma ScanOverlooks(cid: string)
    requires IsCid(cid)
    ensures var ms := MatchSet([Matcher(ContextId, Prefix("a"))], Some((ContextId, "a")));
            var fields := map[ContextId := "a" + [MAX]];
            Accepts(ms, fields) && !Scanned(ms, cid, fields)
  {
    var ms := MatchSet([Matcher(ContextId, Prefix("a"))], Some((ContextId, "a")));
    var fields := map[ContextId := "a" + [MAX]];
    AcceptsIff(ms.inner, fields);
    assert ms.inner[0] == Matcher(ContextId, Prefix("a"));
    assert ("a" + [MAX])[..1] == "a";
    assert Holds(ms.inner[0], fields);
    assert Backs(ms.inner[0], ContextId, "a") && Backed(ms);
    ScanReaches(ms, cid, fields);
  }

  /** A message that two sets accept is listed twice by the sort-index walk. */
  lemma WalkRepeats(item: IndexItem)
    ensures var all := MatchSet([], None); Expand([item], [all, all]) == [item, item]
  {
    var all := MatchSet([], None);
    assert Accepts(all, item.fields);
    assert [all, all][..1] == [all] && [all][..0] == [];
    assert Copies([all], item.fields) == 1 && Copies([all, all], item.fields) == 2;
    assert [item][..0] == [];
    assert Expand([], [all, all]) == [];
    assert Repeat(item, 2) == [item, item];
  }

  /** A filter on the empty recipient matches a write that has none, but its
      compiled form does not. */
  lemma MeaningsDiffer(w: Write)
    requires w.descriptor.recipient.None?
    ensures var q := ANY.(recipient := Some([""]));
            IsMatch(q, w) && !AllHold(Compile(q), WriteFields(w))
  {
    var q := ANY.(recipient := Some([""]));
    assert Compile(q)[1] == Matcher(Recipient, OneOf([""]));
    assert !Holds(Compile(q)[1], WriteFields(w));
  }

  /** A delete dated like the record's only write is stored, and the write stays
      current: queries still return the record. */
  lemma DeleteWithoutEffect(env: Env, w: Write, d: Delete)
    requires IsInitial(env, w) && d.recordId == w.recordId && d.base.timestamp == w.Timestamp()
    requires env.writeCid(w) != env.deleteCid(d)
    ensures var st := State(map[env.writeCid(w) := StoredWrite(w, false)], {env.writeCid(w)}, {});
            && DeleteApplies(env, st, DeleteRequest(d, true))
            && DeleteStep(env, st, DeleteRequest(d, true)).messages ==
                 st.messages[env.deleteCid(d) := StoredDelete(d, w)]
  {
    var c, m := env.writeCid(w), StoredWrite(w, false);
    var st := State(map[c := m], {c}, {});
    assert RecordCids(st.messages, w.recordId) == {c} && UnarchivedCids(st.messages, w.recordId) == {c};
    ExistingOne(st.messages, w.recordId, c);
    assert Elements([c]) == {c};
    ByTimeUnique(st.messages, UnarchivedCids(st.messages, w.recordId), [c]);
    assert !Before(m.Timestamp(), d.base.timestamp);
    var marked := Marked(env, st, d, w);
    assert [c][1..] == [];
    assert Cleared(env, marked, d, st.messages, []) == marked;
    assert Cleared(env, marked, d, st.messages, [c]) == marked;
  }

  /** A record whose initial write was sent again, signed anew, keeps both initial
      writes when it is deleted: three messages in all. */
  lemma DeleteKeepsBoth(env: Env, st: State, v: Write, w: Write, d: Delete)
    requires IsInitial(env, v) && IsInitial(env, w) && v.recordId == w.recordId == d.recordId
    requires v.Timestamp() == w.Timestamp() && Before(w.Timestamp(), d.base.timestamp)
    requires Less(env.writeCid(v), env.writeCid(w)) && env.deleteCid(d) !in {env.writeCid(v), env.writeCid(w)}
    requires st.messages == map[env.writeCid(v) := StoredWrite(v, true), env.writeCid(w) := StoredWrite(w, false)]
    ensures DeleteApplies(env, st, DeleteRequest(d, true))
    ensures DeleteStep(env, st, DeleteRequest(d, true)).messages ==
            map[env.writeCid(v) := StoredWrite(v, true), env.writeCid(w) := StoredWrite(w, true),
                env.deleteCid(d) := StoredDelete(d, v)]
  {
    var b, c, s := env.writeCid(v), env.writeCid(w), st.messages;
    LessIrreflexive(b);
    BothListed(s, w.recordId, b, c);
    assert !Before(d.base.timestamp, w.Timestamp());
    BothCleared(env, st, v, w, d);
  }

  lemma BothCleared(env: Env, st: State, v: Write, w: Write, d: Delete)
    requires IsInitial(env, v) && IsInitial(env, w) && env.writeCid(v) != env.writeCid(w)
    requires v.Timestamp() == w.Timestamp() && Before(w.Timestamp(), d.base.timestamp)
    requires env.deleteCid(d) !in {env.writeCid(v), env.writeCid(w)}
    requires st.messages == map[env.writeCid(v) := StoredWrite(v, true), env.writeCid(w) := StoredWrite(w, false)]
    ensures Cleared(env, Marked(env, st, d, v), d, st.messages, [env.writeCid(v), env.writeCid(w)]).messages ==
            map[env.writeCid(v) := StoredWrite(v, true), env.writeCid(w) := StoredWrite(w, true),
                env.deleteCid(d) := StoredDelete(d, v)]
  {
    ClearedShort(env, Marked(env, st, d, v), d, st.messages, [env.writeCid(v), env.writeCid(w)]);
  }

  lemma BothListed(s: Store, recordId: string, b: string, c: string)
    requires s.Keys == {b, c} && InRecord(s[b], recordId) && InRecord(s[c], recordId)
    requires Older(s[b], b, s[c], c) && b != c && !IsUnarchived(s[b]) && IsUnarchived(s[c])
    ensures Existing(s, recordId) == [b, c] && Unarchived(s, recordId) == [c]
  {
    assert RecordCids(s, recordId) == {b, c} && UnarchivedCids(s, recordId) == {c};
    ExistingTwo(s, recordId, b, c);
    assert Elements([c]) == {c};
    ByTimeUnique(s, UnarchivedCids(s, recordId), [c]);
  }

  lemma TwoInOrder(live: Live, a: string, b: string, f: FieldName)
    requires AllCids(live) && live.Keys == {a, b} && f in live[a] && f in live[b]
    requires |live[a][f]| == |live[b][f]| && Less(live[a][f], live[b][f])
    ensures Answer(live, live.Keys, f) == [a, b]
  {
    var keys := SortKeys(live, live.Keys, f);
    KeyOrder(live[a][f], a, live[b][f], b);
    assert keys.Keys == {a, b};
    assert Elements([a, b]) == {a, b};
    assert keys[a] == Key(live[a][f], a) && keys[b] == Key(live[b][f], b);
    ArrangeUnique(keys, [a, b]);
  }

  /** Of any two messages, a walk asked for the newest first lists the older first. */
  lemma WalkIgnoresDescending(live: Live, a: string, b: string)
    requires AllCids(live) && live.Keys == {a, b} && MessageTimestamp in live[a] && MessageTimestamp in live[b]
    requires |live[a][MessageTimestamp]| == |live[b][MessageTimestamp]|
    requires Less(live[a][MessageTimestamp], live[b][MessageTimestamp])
    ensures Retrieved(live, Query([], TimestampDesc, None)) == [IndexItem(a, live[a]), IndexItem(b, live[b])]
  {
    var q := Query([], TimestampDesc, None);
    WholeWalk(live, q);
    FullIsSorted(live, q);
    TwoInOrder(live, a, b, MessageTimestamp);
  }

  lemma WholeWalk(live: Live, q: Query)
    requires AllCids(live) && !q.IsConcise() && q.pagination.None?
    ensures Retrieved(live, q) == Expand(Walk(live, q), q.sets)
  {
    var walk := Walk(live, q);
    StopUnlimited(walk, q.sets, 0);
    assert walk[..|walk|] == walk;
  }

  /** A requester gets a record of their own that the filter does not ask for. */
  lemma OwnRecordBypassesFilter(w: Write, c: string)
    requires IsCid(c) && w.authorization.author == "bob" && !w.IsPublished()
    requires w.descriptor.base.interface == RecordsInterface && w.descriptor.base.verb == WriteMethod
    ensures var q := RecordsQuery(ANY.(author := Some(["alice"])), None, None, Some("bob"), false);
            Returned(map[c := StoredWrite(w, false)], NonOwnerQuery(q), c) && !Matching(q.filter, w)
  {
    var q := RecordsQuery(ANY.(author := Some(["alice"])), None, None, Some("bob"), false);
    assert "bob" !in ["alice"] by { assert "bob"[0] != "alice"[0]; }
    assert BypassesAuthors(q.filter, "bob", w);
    FilterBypassedIff(q, w);
    NonOwnerReturns(map[c := StoredWrite(w, false)], q, c);
  }

  lemma CurrentOne(s: Store, q: RecordsFilter, c: string)
    requires CurrentCids(s, q) == {c}
    ensures Current(s, q) == [c]
  {
    assert c in CurrentCids(s, q);
    assert Elements([c]) == {c};
    ByTimeUnique(s, CurrentCids(s, q), [c]);
  }

  const PASSED: Checks := Checks(true, true, false, true, true)

  /** A plain write by the owner. */
  predicate ByOwner(env: Env, w: Write)
  {
    && w.authorization.author == env.owner && w.authorization.recordOwner.None?
    && w.descriptor.base.interface == RecordsInterface && w.descriptor.base.verb == WriteMethod
  }

  /** The second update in a row that takes over large data loses it. */
  lemma UpdateLosesData(env: Env, i: Write, u: Write, w: Write)
    requires IsInitial(env, i) && !IsInitial(env, w) && ByOwner(env, w) && i.recordId == u.recordId == w.recordId
    requires w.descriptor.protocol.None? && SameImmutables(w.descriptor, i.descriptor)
    requires Before(i.Timestamp(), u.Timestamp()) && Before(u.Timestamp(), w.Timestamp())
    requires u.descriptor.dataCid == w.descriptor.dataCid && u.descriptor.dataSize == w.descriptor.dataSize
    requires w.descriptor.dataSize > MAX_ENCODED_SIZE
    requires env.writeCid(i) != env.writeCid(u)
    ensures var a, b := env.writeCid(i), env.writeCid(u);
            var st := State(map[a := StoredWrite(i, true), b := StoredWrite(u, false)], {a, b}, {DataKey(w)});
            var req := WriteRequest(w, None, PASSED);
            Accepted(env, st, req) && DataKey(w) !in WriteStep(env, st, req).data
  {
    var a, b := env.writeCid(i), env.writeCid(u);
    var s := map[a := StoredWrite(i, true), b := StoredWrite(u, false)];
    var st := State(s, {a, b}, {DataKey(w)});
    assert RecordCids(s, w.recordId) == {a, b};
    ExistingTwo(s, w.recordId, a, b);
    TakenOverIff(env, st, WriteRequest(w, None, PASSED));
  }

  /** Data that an initial write held of itself, without a stream, becomes current
      with an update that has no stream either. */
  lemma UnstreamedBecomesCurrent(env: Env, i: Write, w: Write)
    requires SoundHashes(env) && IsInitial(env, i) && ByOwner(env, i) && i.Timestamp() == i.descriptor.dateCreated
    requires i.encodedData.Some? && i.descriptor.protocol.None? && i.descriptor.dataSize <= MAX_ENCODED_SIZE
    requires !IsInitial(env, w) && ByOwner(env, w) && w.recordId == i.recordId && Before(i.Timestamp(), w.Timestamp())
    requires SameImmutables(w.descriptor, i.descriptor)
    requires w.descriptor.dataCid == i.descriptor.dataCid && w.descriptor.dataSize == i.descriptor.dataSize
    ensures var reqs := [WriteIt(WriteRequest(i, None, PASSED)), WriteIt(WriteRequest(w, None, PASSED))];
            var s, c := Run(env, EMPTY, reqs).messages, env.writeCid(w);
            c in s && s[c] == StoredWrite(w.(encodedData := i.encodedData), false)
  {
    var first, second := WriteRequest(i, None, PASSED), WriteRequest(w, None, PASSED);
    var reqs := [WriteIt(first), WriteIt(second)];
    var a := env.writeCid(i);
    assert RecordCids(EMPTY.messages, i.recordId) == {};
    ElementsEmpty(Existing(EMPTY.messages, i.recordId));
    assert Accepted(env, EMPTY, first);
    var st := WriteStep(env, EMPTY, first);
    assert st.messages == map[a := StoredWrite(i, true)];
    assert reqs[..1] == [WriteIt(first)] && reqs[..1][..0] == [];
    assert Run(env, EMPTY, reqs[..1][..0]) == EMPTY;
    assert Run(env, EMPTY, reqs[..1]) == st;
    assert RecordCids(st.messages, w.recordId) == {a};
    ExistingOne(st.messages, w.recordId, a);
    assert Accepted(env, st, second);
    RunKeyed(env, reqs[..1]);
    AcceptedIsNew(env, st, second);
    WriteIsStored(env, st, second);
  }

  /** A revocation by the owner whose protocol tag is a number. */
  predicate OddRevocation(env: Env, grant: Write, rev: Write)
  {
    && ByOwner(env, rev) && IsInitial(env, rev) && rev.Timestamp() == rev.descriptor.dateCreated && IsRevocation(rev)
    && rev.descriptor.parentId == Some(grant.recordId) && rev.recordId != grant.recordId
    && rev.descriptor.tags == Some(map["protocol" := NumberTag(1)])
    && rev.contextId.Some? && grant.contextId.Some? && StartsWith(rev.contextId.value, grant.contextId.value)
  }

  /** A grant for the empty protocol. */
  predicate EmptyProtocolGrant(env: Env, grant: Write)
  {
    && IsCurrent(StoredWrite(grant, false)) && grant.encodedData.Some? && env.decodeGrant(grant.encodedData.value).Some?
    && env.decodeGrant(grant.encodedData.value).value.scope.ScopeProtocol() == Some("")
    && grant.descriptor.protocol == Some(PERMISSIONS) && grant.descriptor.protocolPath == Some("grant")
  }

  /** The only message of the grant's record is the grant. */
  ghost predicate HoldsGrant(s: Store, grant: Write, g: string)
  {
    && g in s && s[g] == StoredWrite(grant, false)
    && forall c :: c in s && c != g ==> !InRecord(s[c], grant.recordId)
  }

  lemma {:induction false} LastAppended(path: string, name: string)
    requires '/' !in name
    ensures LastSegment(path + "/" + name) == name
  {
    var whole := path + "/" + name;
    assert whole[|path|] == '/';
    if path == "" {
      assert whole[1..] == name;
    } else {
      assert whole[1..] == path[1..] + "/" + name;
      LastAppended(path[1..], name);
    }
  }

  lemma OddRevocationPath(env: Env, s: Store, grant: Write, rev: Write, g: string)
    requires EmptyProtocolGrant(env, grant) && OddRevocation(env, grant, rev) && HoldsGrant(s, grant, g)
    ensures PathVerified(s, rev)
  {
    GrantIsParent(env, s, grant, rev, g);
    RevocationContinues(rev, grant);
  }

  lemma GrantIsParent(env: Env, s: Store, grant: Write, rev: Write, g: string)
    requires EmptyProtocolGrant(env, grant) && OddRevocation(env, grant, rev) && HoldsGrant(s, grant, g)
    ensures Current(s, ParentFilter(rev)) == [g]
  {
    assert CurrentCids(s, ParentFilter(rev)) == {g};
    CurrentOne(s, ParentFilter(rev), g);
  }

  lemma RevocationContinues(rev: Write, grant: Write)
    requires grant.descriptor.protocolPath == Some("grant") && rev.descriptor.protocolPath == Some(REVOCATION_PATH)
    requires rev.contextId.Some? && grant.contextId.Some? && StartsWith(rev.contextId.value, grant.contextId.value)
    ensures ContinuesPath(rev, grant)
  {
    LastAppended("grant", "revocation");
    assert "grant" + "/" + "revocation" == REVOCATION_PATH;
  }

  lemma OddRevocationTag(env: Env, s: Store, grant: Write, rev: Write, g: string)
    requires EmptyProtocolGrant(env, grant) && OddRevocation(env, grant, rev) && HoldsGrant(s, grant, g)
    ensures RevocationVerified(env, s, rev) && !CanRevoke(env, s, rev)
  {
    assert CurrentCids(s, RecordFilter(grant.recordId)) == {g};
    CurrentOne(s, RecordFilter(grant.recordId), g);
    assert FetchGrant(env, s, grant.recordId) == GrantOf(env, grant);
    assert TagText(rev, "protocol") == None;
  }

  /** A revocation that stops halfway: it is stored and current, and yet a write
      that someone else created under the grant after it is still there. */
  lemma RevocationStopsHalfway(env: Env, st: State, grant: Write, rev: Write, late: Write, stream: string)
    requires EmptyProtocolGrant(env, grant) && OddRevocation(env, grant, rev)
    requires Offends(env, StoredWrite(late, false), grant.recordId, rev.Timestamp())
    requires late.recordId != grant.recordId && late.recordId != rev.recordId
    requires env.writeCid(grant) != env.writeCid(late) && env.writeCid(rev) !in st.messages
    requires st.messages == map[env.writeCid(grant) := StoredWrite(grant, false),
                                env.writeCid(late) := StoredWrite(late, false)]
    ensures var req, c := WriteRequest(rev, Some(stream), PASSED), env.writeCid(late);
            && Accepted(env, st, req) && !Applied(env, st, req).1
            && var after := WriteStep(env, st, req).messages;
               && env.writeCid(rev) in after && Revokes(after[env.writeCid(rev)], grant.recordId)
               && c in after && after[c] == StoredWrite(late, false)
  {
    var g, s := env.writeCid(grant), st.messages;
    assert RecordCids(s, rev.recordId) == {};
    assert HoldsGrant(s, grant, g);
    OddRevocationAccepted(env, st, grant, rev, g, stream);
    OddRevocationStops(env, st, grant, rev, g, stream);
  }

  lemma OddRevocationAccepted(env: Env, st: State, grant: Write, rev: Write, g: string, stream: string)
    requires EmptyProtocolGrant(env, grant) && OddRevocation(env, grant, rev) && HoldsGrant(st.messages, grant, g)
    requires RecordCids(st.messages, rev.recordId) == {}
    ensures Accepted(env, st, WriteRequest(rev, Some(stream), PASSED))
    ensures Existing(st.messages, rev.recordId) == []
  {
    OddRevocationPath(env, st.messages, grant, rev, g);
    OddRevocationTag(env, st.messages, grant, rev, g);
    assert Elements(Existing(st.messages, rev.recordId)) == {};
    ElementsEmpty(Existing(st.messages, rev.recordId));
  }

  lemma OddRevocationStops(env: Env, st: State, grant: Write, rev: Write, g: string, stream: string)
    requires EmptyProtocolGrant(env, grant) && OddRevocation(env, grant, rev) && HoldsGrant(st.messages, grant, g)
    requires Existing(st.messages, rev.recordId) == [] && env.writeCid(rev) !in st.messages
    ensures var req := WriteRequest(rev, Some(stream), PASSED);
            && !Applied(env, st, req).1 && NewMessage(env, st, req).write.descriptor == rev.descriptor
            && Applied(env, st, req).0.messages == st.messages[env.writeCid(rev) := NewMessage(env, st, req)]
  {
    var req := WriteRequest(rev, Some(stream), PASSED);
    NewMessageOf(env, st, req);
    var after := st.messages[env.writeCid(rev) := NewMessage(env, st, req)];
    assert Replaced(env, st, req).0.messages == after;
    OddRevocationTag(env, after, grant, rev, g);
  }

  /** A record's initial write is accepted again when it is signed anew and has a
      greater CID. */
  lemma SecondInitialAccepted(env: Env, st: State, v: Write, archived: bool, w: Write, stream: string)
    requires IsInitial(env, w) && ByOwner(env, w) && w.Timestamp() == w.descriptor.dateCreated
    requires IsInitial(env, v) && v.recordId == w.recordId
    requires v.descriptor == w.descriptor && w.descriptor.protocol.None?
    requires Less(env.writeCid(v), env.writeCid(w))
    requires st.messages == map[env.writeCid(v) := StoredWrite(v, archived)]
    ensures Accepted(env, st, WriteRequest(w, Some(stream), PASSED))
  {
    var c := env.writeCid(v);
    assert RecordCids(st.messages, w.recordId) == {c};
    ExistingOne(st.messages, w.recordId, c);
  }

  /** A delete can be acknowledged in vain: a record with an update and an earlier
      delete dated like it has three messages, which no delete touches again. */
  lemma DeleteInVain(env: Env, st: State, i: Write, w: Write, e: Delete, d: Delete)
    requires i.recordId == w.recordId == e.recordId == d.recordId
    requires Before(i.Timestamp(), w.Timestamp()) && w.Timestamp() == e.base.timestamp
    requires Before(w.Timestamp(), d.base.timestamp) && Less(env.writeCid(w), env.deleteCid(e))
    requires env.writeCid(i) != env.writeCid(w) && env.writeCid(i) != env.deleteCid(e)
    requires st.messages == map[env.writeCid(i) := StoredWrite(i, true), env.writeCid(w) := StoredWrite(w, false),
                                env.deleteCid(e) := StoredDelete(e, i)]
    ensures DeleteAdmitted(st, DeleteRequest(d, true)) && DeleteStep(env, st, DeleteRequest(d, true)) == st
  {
    var a, b, c, s := env.writeCid(i), env.writeCid(w), env.deleteCid(e), st.messages;
    LessIrreflexive(b);
    assert {a, b, c} <= RecordCids(s, d.recordId);
    ThreeMessages(s, d.recordId, a, b, c);
    assert UnarchivedCids(s, d.recordId) == {b, c};
    assert Elements([b, c]) == {b, c};
    ByTimeUnique(s, UnarchivedCids(s, d.recordId), [b, c]);
    assert !Before(d.base.timestamp, w.Timestamp());
  }

  lemma {:induction false} NeverEnds(pager: Pager, item: IndexItem, at: Cursor, cursor: Option<Cursor>,
                                     pages: seq<seq<IndexItem>>)
    requires cursor == None || cursor == Some(at)
    requires pager(None) == ([item], Some(at)) && pager(Some(at)) == ([item], Some(at))
    ensures !FollowsPager(pager, cursor, pages)
    decreases |pages|
  {
    if |pages| > 1 { NeverEnds(pager, item, at, Some(at), pages[1..]); }
  }

  /** A message that two sets accept is on every page of one: following cursors
      never ends. */
  lemma PagingNeverEnds(fields: Fields, c: string, pages: seq<seq<IndexItem>>)
    requires IsCid(c) && MessageTimestamp in fields
    ensures var all := MatchSet([], None);
            !FollowsStore(map[c := fields], Query([all, all], TimestampAsc, None), 1, None, pages)
  {
    var all, live, item := MatchSet([], None), map[c := fields], IndexItem(c, fields);
    var q := Query([all, all], TimestampAsc, None);
    var at := Cursor(c, fields[MessageTimestamp]);
    SamePage(live, c, q, None);
    SamePage(live, c, q, Some(at));
    NeverEnds(StorePager(live, q, 1), item, at, None, pages);
  }

  lemma SamePage(live: Live, c: string, q: Query, cursor: Option<Cursor>)
    requires live.Keys == {c} && IsCid(c) && MessageTimestamp in live[c]
    requires q == Query([MatchSet([], None), MatchSet([], None)], TimestampAsc, None)
    requires cursor.Some? ==> cursor.value == Cursor(c, live[c][MessageTimestamp])
    ensures StorePage(live, AtPage(q, 1, cursor)) ==
            ([IndexItem(c, live[c])], Some(Cursor(c, live[c][MessageTimestamp])))
  {
    var paged, item := AtPage(q, 1, cursor), IndexItem(c, live[c]);
    OnlyWalk(live, c, paged);
    WalkRepeats(item);
    var walk := Walk(live, paged);
    assert walk[..0] == [] && walk[..1] == walk;
    assert Expand([], q.sets) == [];
    assert Retrieved(live, paged) == [item, item];
    RetrievedSortable(live, paged);
    assert [item, item][..1] == [item];
  }

  lemma OnlyWalk(live: Live, c: string, q: Query)
    requires live.Keys == {c} && IsCid(c) && q.sort.Field() in live[c]
    requires StartKey(q).Some? ==> StartKey(q).value == Key(live[c][q.sort.Field()], c)
    ensures Walk(live, q) == [IndexItem(c, live[c])]
  {
    var f := q.sort.Field();
    LessIrreflexive(Key(live[c][f], c));
    var chosen := WalkKeys(live, f, StartKey(q));
    assert chosen == {c};
    var keys := SortKeys(live, chosen, f);
    assert keys.Keys == {c};
    assert Elements([c]) == {c};
    ArrangeUnique(keys, [c]);
  }

  /** A root record at a path, as the owner creates it. */
  predicate RootRecord(env: Env, w: Write, protocol: string, path: string, recipient: string)
  {
    && ByOwner(env, w) && IsInitial(env, w) && w.Timestamp() == w.descriptor.dateCreated
    && w.descriptor.protocol == Some(protocol) && w.descriptor.protocolPath == Some(path) && '/' !in path
    && w.descriptor.recipient == Some(recipient) && w.descriptor.parentId.None?
    && w.contextId == Some(w.recordId) && '/' !in w.recordId
  }

  /** Two records for one role: if the path of two root records is not that of a
      role when the second comes, both are accepted and current. */
  lemma TwoRoleRecords(env: Env, st: State, v: Write, w: Write, protocol: string, path: string, recipient: string,
                       stream: string)
    requires SoundHashes(env)
    requires RootRecord(env, v, protocol, path, recipient) && RootRecord(env, w, protocol, path, recipient)
    requires v.recordId != w.recordId && st.messages == map[env.writeCid(v) := StoredWrite(v, false)]
    ensures var req := WriteRequest(w, Some(stream), PASSED);
            && Clashes(env, st, WriteIt(req), env.writeCid(w), env.writeCid(v))
            && !OneRecord(WriteStep(env, st, req).messages, env.writeCid(w), env.writeCid(v))
  {
    var req, c := WriteRequest(w, Some(stream), PASSED), env.writeCid(v);
    assert '/' in REVOCATION_PATH by { assert REVOCATION_PATH[5] == '/'; }
    assert !IsRevocation(w);
    assert RecordCids(st.messages, w.recordId) == {};
    assert Elements(Existing(st.messages, w.recordId)) == {};
    ElementsEmpty(Existing(st.messages, w.recordId));
    CidText(env, StoredWrite(v, false));
    ClashMakesTwo(env, st, req, c);
  }

  /** A definition with a role `r` and a rule set `u` that names it. */
  function NamesItsRole(on: bool): Rules.Definition
  {
    var role := Rules.RuleSet(Some(on), [], None, true, None, map[]);
    var rule := Rules.ActionRule(None, Some("r"), None, {Rules.Create});
    var user := Rules.RuleSet(None, [rule], None, true, None, map[]);
    Rules.Definition("p", {}, Rules.RuleSet(None, [], None, true, None, map["r" := role, "u" := user]))
  }

  /** A valid definition can name a role that is switched off. */
  lemma RoleSwitchedOff(on: bool)
    ensures Rules.IsValid(NamesItsRole(on)) && (Rules.CanInvoke("r", NamesItsRole(on).root) <==> on)
  {
    var root := NamesItsRole(on).root;
    assert Rules.IsRole(root, ["r"]);
    assert ["r"][..0] == [] && Rules.PathText([]) == "";
    assert Rules.PathText([] + ["r"]) == "r";
    assert Rules.NamesRole(root, [], "r");
    assert Rules.FirstSlash("r") == 1 by { assert "r"[1..] == ""; }
  }

  /** A revocation by the owner that names the grant it revokes as its own. */
  predicate SelfRevocation(env: Env, grant: Write, rev: Write)
  {
    && ByOwner(env, rev) && IsInitial(env, rev) && rev.Timestamp() == rev.descriptor.dateCreated && IsRevocation(rev)
    && rev.descriptor.parentId == Some(grant.recordId) && rev.recordId != grant.recordId
    && rev.descriptor.tags.None? && rev.authorization.grantId == Some(grant.recordId)
    && rev.contextId.Some? && grant.contextId.Some? && StartsWith(rev.contextId.value, grant.contextId.value)
  }

  lemma SelfRevocationPath(env: Env, s: Store, grant: Write, rev: Write, g: string)
    requires EmptyProtocolGrant(env, grant) && SelfRevocation(env, grant, rev) && HoldsGrant(s, grant, g)
    ensures PathVerified(s, rev)
  {
    assert CurrentCids(s, ParentFilter(rev)) == {g};
    CurrentOne(s, ParentFilter(rev), g);
    RevocationContinues(rev, grant);
  }

  lemma SelfRevocationGrant(env: Env, s: Store, grant: Write, rev: Write, g: string)
    requires EmptyProtocolGrant(env, grant) && SelfRevocation(env, grant, rev) && HoldsGrant(s, grant, g)
    ensures RevocationVerified(env, s, rev) && CanRevoke(env, s, rev)
  {
    assert CurrentCids(s, RecordFilter(grant.recordId)) == {g};
    CurrentOne(s, RecordFilter(grant.recordId), g);
    assert FetchGrant(env, s, grant.recordId) == GrantOf(env, grant);
  }

  lemma SelfRevocationAccepted(env: Env, st: State, grant: Write, rev: Write, g: string, stream: string)
    requires EmptyProtocolGrant(env, grant) && SelfRevocation(env, grant, rev) && HoldsGrant(st.messages, grant, g)
    requires RecordCids(st.messages, rev.recordId) == {}
    ensures Accepted(env, st, WriteRequest(rev, Some(stream), PASSED))
    ensures Existing(st.messages, rev.recordId) == []
  {
    SelfRevocationPath(env, st.messages, grant, rev, g);
    SelfRevocationGrant(env, st.messages, grant, rev, g);
    assert Elements(Existing(st.messages, rev.recordId)) == {};
    ElementsEmpty(Existing(st.messages, rev.recordId));
  }

  lemma SelfRevocationRemoves(env: Env, st: State, grant: Write, rev: Write, g: string, stream: string)
    requires EmptyProtocolGrant(env, grant) && SelfRevocation(env, grant, rev) && HoldsGrant(st.messages, grant, g)
    requires Existing(st.messages, rev.recordId) == [] && env.writeCid(rev) !in st.messages
    ensures env.writeCid(rev) !in Applied(env, st, WriteRequest(rev, Some(stream), PASSED)).0.messages
  {
    var req, r := WriteRequest(rev, Some(stream), PASSED), env.writeCid(rev);
    NewMessageOf(env, st, req);
    var after := st.messages[r := NewMessage(env, st, req)];
    assert Replaced(env, st, req).0.messages == after && Replaced(env, st, req).1;
    SelfRevocationGrant(env, after, grant, rev, g);
    assert r in CreatedUnder(after, grant.recordId, rev.Timestamp());
  }

  /** A revocation that invokes the grant it revokes removes itself. */
  lemma RevocationRemovesItself(env: Env, st: State, grant: Write, rev: Write, stream: string)
    requires EmptyProtocolGrant(env, grant) && SelfRevocation(env, grant, rev)
    requires env.writeCid(rev) !in st.messages
    requires st.messages == map[env.writeCid(grant) := StoredWrite(grant, false)]
    ensures var req := WriteRequest(rev, Some(stream), PASSED);
            Accepted(env, st, req) && env.writeCid(rev) !in WriteStep(env, st, req).messages
  {
    var g := env.writeCid(grant);
    assert HoldsGrant(st.messages, grant, g);
    assert RecordCids(st.messages, rev.recordId) == {};
    SelfRevocationAccepted(env, st, grant, rev, g, stream);
    SelfRevocationRemoves(env, st, grant, rev, g, stream);
  }
}
