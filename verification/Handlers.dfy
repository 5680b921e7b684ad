/** The handlers of a node, which run against the index store step by step. */
module Handlers {
  import opened Text
  import opened Order
  import opened Results
  import opened Timestamps
  import opened Queries
  import opened Messages
  import opened MessageStore
  import opened Filters
  import opened RecordQueries
  import opened NodeState
  import opened Writes
  import opened Deletes
  import opened Runs
  import opened StoreLink

  datatype Status = AcceptedStatus | NoContent

  // ----- listings of messages ---------------------------------------------

  /** The messages listed by their CIDs. */
  function MessagesOf(s: Store, cids: seq<string>): (entries: seq<Stored>)
    requires forall i :: 0 <= i < |cids| ==> cids[i] in s
    ensures |entries| == |cids| && forall i :: 0 <= i < |cids| ==> entries[i] == s[cids[i]]
  {
    seq(|cids|, i requires 0 <= i < |cids| => s[cids[i]])
  }

  // ----- entries -----------------------------------------------------------

  /** The entries are messages fetched from a store, under their own CIDs. */
  ghost predicate Fetched(env: Env, entries: seq<Stored>, s: Store, cids: seq<string>)
  {
    && |entries| == |cids|
    && forall i :: 0 <= i < |cids| ==> cids[i] in s && entries[i] == s[cids[i]] && CidOf(env, entries[i]) == cids[i]
  }

  lemma FetchedAll(env: Env, s: Store, cids: seq<string>)
    requires WellKeyed(env, s) && forall i :: 0 <= i < |cids| ==> cids[i] in s
    ensures Fetched(env, MessagesOf(s, cids), s, cids)
  {
  }

  /** The state without the given messages and their events. */
  function Removed(st: State, gone: set<string>): State
  {
    State(st.messages - gone, st.events - gone, st.data)
  }

  lemma RemovedNext(st: State, cids: seq<string>, i: nat)
    requires i < |cids|
    ensures Removed(Removed(st, Elements(cids[..i])), {cids[i]}) == Removed(st, Elements(cids[..i + 1]))
  {
    assert cids[..i + 1] == cids[..i] + [cids[i]];
    assert Elements(cids[..i + 1]) == Elements(cids[..i]) + {cids[i]};
  }

  /** Checks that all current writes that match a filter are of one record. */
  method CheckSameRecord(entries: seq<Stored>, recordId: string, ghost s: Store, ghost q: RecordsFilter)
    returns (ok: bool)
    requires entries == MessagesOf(s, Current(s, q))
    ensures ok <==> forall c :: c in CurrentCids(s, q) ==> s[c].write.recordId == recordId
  {
    ghost var cids := Current(s, q);
    var i := 0;
    while i < |entries|
      invariant 0 <= i <= |entries|
      invariant forall j :: 0 <= j < i ==> cids[j] in CurrentCids(s, q) && s[cids[j]].write.recordId == recordId
    {
      assert cids[i] in CurrentCids(s, q);
      if entries[i].write.recordId != recordId {
        return false;
      }
      i := i + 1;
    }
    forall c | c in CurrentCids(s, q) ensures s[c].write.recordId == recordId { assert c in Elements(cids); }
    return true;
  }

  /** Checks that a write may follow the record's messages. */
  method CheckFollows(env: Env, w: Write, existing: seq<Stored>, ghost s: Store) returns (fault: Option<Error>)
    requires Fetched(env, existing, s, Existing(s, w.recordId))
    ensures fault.None? <==> Follows(env, s, w)
  {
    if existing == [] {
      return if IsInitial(env, w) then None else Some(Unexpected);
    }
    var earliest, latest := existing[0], existing[|existing| - 1];
    if !earliest.StoredWrite? || !IsInitial(env, earliest.write) {
      return Some(Unexpected);
    }
    if !SameImmutables(w.descriptor, earliest.write.descriptor) {
      return Some(Unexpected);
    }
    if Before(w.Timestamp(), latest.Timestamp()) {
      return Some(Conflict);
    }
    if w.Timestamp() == latest.Timestamp() && !Less(CidOf(env, latest), env.writeCid(w)) {
      return Some(Conflict);
    }
    BeforeTotal(w.Timestamp(), latest.Timestamp());
    if latest.StoredDelete? {
      return Some(Unexpected);
    }
    return None;
  }

  /** Checks that a delete is admitted. */
  method CheckDelete(req: DeleteRequest, entries: seq<Stored>, ghost st: State) returns (fault: Option<Error>)
    requires entries == MessagesOf(st.messages, Unarchived(st.messages, req.delete.recordId))
    ensures fault.None? <==> DeleteAdmitted(st, req)
  {
    if entries == [] || !entries[0].StoredWrite? {
      return Some(NotFound);
    }
    if !req.authorized {
      return Some(Forbidden);
    }
    return if Before(req.delete.base.timestamp, entries[0].Timestamp()) then Some(Conflict) else None;
  }

  /** Checks that the delete task can go ahead. */
  method CheckTask(env: Env, d: Delete, entries: seq<Stored>, ghost st: State) returns (admitted: bool)
    requires entries == MessagesOf(st.messages, Existing(st.messages, d.recordId))
    ensures admitted <==> TaskAdmitted(env, st, d)
  {
    if entries == [] || |entries| > 2 {
      return false;
    }
    if Before(d.base.timestamp, entries[|entries| - 1].Timestamp()) {
      return false;
    }
    return entries[0].StoredWrite? && IsInitial(env, entries[0].write);
  }

  /** Checks that a configure is the latest of its protocol. */
  method CheckLatest(env: Env, c: Configure, existing: seq<Stored>, ghost s: Store) returns (latest: bool)
    requires Fetched(env, existing, s, Configs(s, c.protocol))
    ensures latest <==> ConfigureLatest(env, s, c)
  {
    if existing == [] {
      return true;
    }
    var last := existing[|existing| - 1];
    if Before(c.base.timestamp, last.Timestamp()) {
      return false;
    }
    return !(c.base.timestamp == last.Timestamp() && Less(env.configureCid(c), CidOf(env, last)));
  }

  lemma BeforeTotal(a: Instant, b: Instant)
    ensures Before(a, b) || Before(b, a) || a == b
  {
    if a.Ordinal() == b.Ordinal() { OrdinalInjective(a, b); }
  }

  // ----- the node ----------------------------------------------------------

  class Node {
    const store: MessageStore<Stored>
    var events: set<string>
    var data: set<(string, string)>

    ghost predicate Valid()
      reads this, store, store.index
    {
      && store.Valid() && store.index.live == Flat(store.blocks)
      && Addressed(store.blocks) && RecordsOnly(store.blocks)
    }

    ghost function Now(): State
      reads this, store
    {
      State(store.blocks, events, data)
    }

    constructor ()
      ensures Valid() && Now() == EMPTY && fresh(store) && fresh(store.index)
    {
      store := new MessageStore<Stored>();
      events := {};
      data := {};
    }

    /** Runs a query of one match set. It cannot fail, and lists the messages that
        the set selects, oldest first. */
    method Find(ms: MatchSet, ghost chosen: set<string>) returns (entries: seq<Stored>)
      requires Valid() && chosen <= store.blocks.Keys && Selects(store.blocks, ms, chosen)
      ensures entries == MessagesOf(store.blocks, ByTime(store.blocks, chosen))
    {
      StoreUniform(store.blocks, TimestampAsc);
      NeverFaulty(store.blocks, ms);
      var r := store.Query(TimeQuery(ms));
      QueryIsByTime(store.blocks, ms);
      entries := r.value.0;
    }

    /** Stores a message under its CID, with its indexes. */
    method Keep(env: Env, m: Stored)
      requires Valid() && SoundHashes(env) && WellKeyed(env, store.blocks)
      requires m.StoredWrite? ==> m.write.descriptor.base.interface == RecordsInterface
      modifies store, store.index
      ensures Valid() && WellKeyed(env, store.blocks)
      ensures store.blocks == old(store.blocks)[CidOf(env, m) := m]
    {
      CidText(env, m);
      FieldIs(m, MessageCid);
      AlwaysIndexed(m);
      store.Put(CidOf(env, m), m, m.Fields());
    }

    /** Deletes a message. */
    method Drop(cid: string)
      requires Valid()
      modifies store, store.index
      ensures Valid() && store.blocks == old(store.blocks) - {cid}
    {
      store.Delete(cid);
    }

    // ----- authorization and integrity -------------------------------------

    /** The current writes that match a filter, oldest first. */
    method CurrentEntries(q: RecordsFilter) returns (entries: seq<Stored>)
      requires Valid() && IsTextual(q)
      ensures entries == MessagesOf(store.blocks, Current(store.blocks, q))
    {
      CurrentSetSelects(store.blocks, q);
      entries := Find(BuildSet(q, Some(WriteMethod), false), CurrentCids(store.blocks, q));
    }

    /** The grant held by the current write of a record. */
    method FindGrant(env: Env, grantId: string) returns (grant: Option<Grant>)
      requires Valid()
      ensures grant == FetchGrant(env, store.blocks, grantId)
    {
      var entries := CurrentEntries(RecordFilter(grantId));
      if entries == [] {
        return None;
      }
      assert Current(store.blocks, RecordFilter(grantId))[0] in CurrentCids(store.blocks, RecordFilter(grantId));
      return GrantOf(env, entries[0].write);
    }

    /** Checks a grant's time frame and its revocations. */
    method CheckInForce(grant: Grant, t: Instant) returns (ok: bool)
      requires Valid()
      ensures ok <==> IsInForce(store.blocks, grant, t)
    {
      if Before(t, grant.dateGranted) || !Before(t, grant.data.dateExpires) {
        return false;
      }
      var revocations := CurrentEntries(RevocationFilter(grant.id));
      return revocations != [] ==> !Before(revocations[0].Timestamp(), t);
    }

    /** Checks a write against the grant it invokes. */
    method CheckGrant(env: Env, grantId: string, w: Write) returns (ok: bool)
      requires Valid()
      ensures ok <==> GrantPermits(env, store.blocks, grantId, w)
    {
      var grant := FindGrant(env, grantId);
      if grant.None? {
        return false;
      }
      var g := grant.value;
      if w.authorization.author != g.grantee || env.owner != g.grantor {
        return false;
      }
      if w.descriptor.base.interface != g.data.scope.ScopeInterface() || w.descriptor.base.verb != g.data.scope.verb {
        return false;
      }
      ok := CheckInForce(g, w.Timestamp());
      ok := ok && InScope(g, w) && MeetsConditions(g, w);
    }

    /** Authorizes a write. */
    method Authorize(env: Env, req: WriteRequest) returns (ok: bool)
      requires Valid()
      ensures ok <==> Authorized(env, store.blocks, req)
    {
      var a := req.write.authorization;
      if (a.recordOwner.Some? && a.recordOwner.value != env.owner) || !req.checks.delegates {
        return false;
      }
      if a.recordOwner.Some? || a.author == env.owner {
        return true;
      }
      if a.grantId.Some? {
        ok := CheckGrant(env, a.grantId.value, req.write);
        return;
      }
      return req.write.descriptor.protocol.Some? && req.checks.protocolPermits;
    }

    /** Verifies that a protocol record's path continues its parent's. */
    method VerifyPath(w: Write) returns (ok: bool)
      requires Valid()
      ensures ok <==> PathVerified(store.blocks, w)
    {
      var d := w.descriptor;
      if d.protocolPath.None? {
        return false;
      }
      if d.parentId.None? {
        return '/' !in d.protocolPath.value;
      }
      var entries := CurrentEntries(ParentFilter(w));
      if entries == [] {
        return false;
      }
      assert Current(store.blocks, ParentFilter(w))[0] in CurrentCids(store.blocks, ParentFilter(w));
      return ContinuesPath(w, entries[0].write);
    }

    /** Verifies that a role record's recipient has no other such record. */
    method VerifyRole(w: Write) returns (ok: bool)
      requires Valid()
      ensures ok <==> RoleVerified(store.blocks, w)
    {
      if w.descriptor.recipient.None? || w.descriptor.protocol.None? || w.descriptor.protocolPath.None? {
        return false;
      }
      var entries := CurrentEntries(RoleFilter(w));
      ok := CheckSameRecord(entries, w.recordId, store.blocks, RoleFilter(w));
    }

    /** Verifies a revocation against the grant it names. */
    method VerifyRevocation(env: Env, w: Write) returns (ok: bool)
      requires Valid()
      ensures ok <==> RevocationVerified(env, store.blocks, w)
    {
      if !IsRevocation(w) {
        return true;
      }
      if w.descriptor.parentId.None? {
        return false;
      }
      var grant := FindGrant(env, w.descriptor.parentId.value);
      if grant.None? {
        return false;
      }
      return w.descriptor.tags.Some? ==>
        grant.value.data.scope.ScopeProtocol() == Some(OrEmpty(TagText(w, "protocol")));
    }

    /** Verifies a write's integrity. */
    method VerifyIntegrity(env: Env, req: WriteRequest) returns (ok: bool)
      requires Valid()
      ensures ok <==> Intact(env, store.blocks, req)
    {
      var w := req.write;
      if w.descriptor.base.interface != RecordsInterface || w.descriptor.base.verb != WriteMethod {
        return false;
      }
      if !SoundlyInitial(env, w) {
        return false;
      }
      if w.descriptor.protocol.Some? {
        ok := VerifyPath(w);
        if ok && req.checks.role { ok := VerifyRole(w); }
        if ok { ok := VerifyRevocation(env, w); }
        if !ok {
          return;
        }
      }
      return req.checks.integrity;
    }

    // ----- write -----------------------------------------------------------

    /** The messages of a record, oldest first. */
    method ExistingEntries(recordId: string) returns (entries: seq<Stored>)
      requires Valid()
      ensures entries == MessagesOf(store.blocks, Existing(store.blocks, recordId))
    {
      RecordSetSelects(store.blocks, recordId, true);
      entries := Find(RecordSet(recordId), RecordCids(store.blocks, recordId));
    }

    /** Takes the data of a write from its stream, or from the latest message. */
    method TakeData(env: Env, req: WriteRequest, existing: seq<Stored>) returns (r: Result<Write>)
      requires existing == MessagesOf(store.blocks, Existing(store.blocks, req.write.recordId))
      modifies this`data
      ensures r.Ok? <==> DataAvailable(env, old(Now()), req)
      ensures r.Ok? ==> r.value == WithData(env, old(Now()), req)
      ensures data == if req.stream.Some? && req.write.descriptor.dataSize > MAX_ENCODED_SIZE
                      then old(data) + {DataKey(req.write)} else old(data)
    {
      var w := req.write;
      if req.stream.Some? {
        if w.descriptor.dataSize <= MAX_ENCODED_SIZE {
          if !req.checks.stream {
            return Err(Unexpected);
          }
          return Ok(w.(encodedData := req.stream));
        }
        data := data + {DataKey(w)};
        return if req.checks.stream then Ok(w) else Err(Unexpected);
      }
      if IsInitial(env, w) {
        return Ok(w);
      }
      if existing == [] || !existing[|existing| - 1].StoredWrite? {
        return Err(Unexpected);
      }
      var latest := existing[|existing| - 1].write;
      if latest.descriptor.dataCid != w.descriptor.dataCid || latest.descriptor.dataSize != w.descriptor.dataSize {
        return Err(Unexpected);
      }
      if latest.descriptor.dataSize > MAX_ENCODED_SIZE {
        return if DataKey(w) in data then Ok(w) else Err(Unexpected);
      }
      if latest.encodedData.None? {
        return Err(Unexpected);
      }
      return Ok(w.(encodedData := latest.encodedData));
    }

    /** Deletes earlier updates, with their events and data. */
    method PurgeUpdates(env: Env, entries: seq<Stored>, ghost fetched: Store, ghost cids: seq<string>)
      returns (done: bool)
      requires Valid() && SoundHashes(env) && WellKeyed(env, store.blocks) && Fetched(env, entries, fetched, cids)
      modifies this, store, store.index
      ensures Valid() && WellKeyed(env, store.blocks)
      ensures (Now(), done) == Purged(old(Now()), fetched, cids)
    {
      var i := 0;
      while i < |entries|
        invariant 0 <= i <= |entries|
        invariant Valid() && WellKeyed(env, store.blocks)
        invariant Purged(Now(), fetched, cids[i..]) == Purged(old(Now()), fetched, cids)
      {
        assert cids[i..][0] == cids[i] && cids[i..][1..] == cids[i + 1..];
        if !entries[i].StoredWrite? {
          return false;
        }
        var w := entries[i].write;
        Drop(env.writeCid(w));
        data := data - {DataKey(w)};
        events := events - {env.writeCid(w)};
        i := i + 1;
      }
      return true;
    }

    /** Archives the initial write and deletes the updates after it. */
    method ReplaceEarlier(env: Env, w: Write, newData: bool, existing: seq<Stored>, ghost fetched: Store)
      returns (done: bool)
      requires Valid() && SoundHashes(env) && WellKeyed(env, store.blocks)
      requires Fetched(env, existing, fetched, Existing(fetched, w.recordId))
      requires existing != [] && existing[0].StoredWrite?
      requires existing[0].write.descriptor.base.interface == RecordsInterface
      modifies this, store, store.index
      ensures Valid() && WellKeyed(env, store.blocks)
      ensures var r := Existing(fetched, w.recordId);
              (Now(), done) == Purged(InitialArchived(old(Now()), r[0], existing[0], newData), fetched, r[1..])
    {
      var initial := existing[0].write;
      Keep(env, StoredWrite(initial, true));
      events := events + {env.writeCid(initial)};
      if initial.descriptor.dataCid != "" && newData { data := data - {DataKey(initial)}; }
      assert Now() == InitialArchived(old(Now()), Existing(fetched, w.recordId)[0], existing[0], newData);
      done := PurgeUpdates(env, existing[1..], fetched, Existing(fetched, w.recordId)[1..]);
    }

    /** Deletes what was written under a grant from its revocation on. */
    method RevokeGrants(env: Env, w: Write) returns (done: bool)
      requires Valid() && WellKeyed(env, store.blocks)
      modifies this, store, store.index
      ensures Valid() && (Now(), done) == Revoked(env, old(Now()), w)
    {
      done := MayRevoke(env, w);
      if !done {
        return;
      }
      ghost var gone := CreatedUnder(store.blocks, w.descriptor.parentId.value, w.Timestamp());
      var entries := GrantedEntries(w.descriptor.parentId.value, w.Timestamp());
      FetchedAll(env, store.blocks, ByTime(store.blocks, gone));
      RemoveAll(env, entries, store.blocks, ByTime(store.blocks, gone));
    }

    /** The writes that invoke a grant and were created at or after a time. */
    method GrantedEntries(grantId: string, t: Instant) returns (entries: seq<Stored>)
      requires Valid()
      ensures entries == MessagesOf(store.blocks, ByTime(store.blocks, CreatedUnder(store.blocks, grantId, t)))
    {
      GrantedSetSelects(store.blocks, grantId, t);
      entries := Find(GrantedSet(grantId, t), CreatedUnder(store.blocks, grantId, t));
    }

    /** Checks a revocation against the grant it revokes. */
    method MayRevoke(env: Env, w: Write) returns (ok: bool)
      requires Valid()
      ensures ok <==> CanRevoke(env, store.blocks, w)
    {
      if w.descriptor.parentId.None? {
        return false;
      }
      var grant := FindGrant(env, w.descriptor.parentId.value);
      if grant.None? {
        return false;
      }
      return w.descriptor.tags.Some? && "protocol" in w.descriptor.tags.value ==>
        TagText(w, "protocol") == grant.value.data.scope.ScopeProtocol();
    }

    /** Deletes the listed messages and their events. */
    method RemoveAll(env: Env, entries: seq<Stored>, ghost fetched: Store, ghost cids: seq<string>)
      requires Valid() && WellKeyed(env, store.blocks) && Fetched(env, entries, fetched, cids)
      modifies this, store, store.index
      ensures Valid() && WellKeyed(env, store.blocks)
      ensures Now() == Removed(old(Now()), Elements(cids))
    {
      var i := 0;
      while i < |entries|
        invariant 0 <= i <= |entries|
        invariant Valid() && WellKeyed(env, store.blocks)
        invariant Now() == Removed(old(Now()), Elements(cids[..i]))
      {
        var cid := CidOf(env, entries[i]);
        Drop(cid);
        events := events - {cid};
        RemovedNext(old(Now()), cids, i);
        i := i + 1;
      }
      assert cids[..i] == cids;
    }

    /** Handles a records write. */
    method HandleWrite(env: Env, req: WriteRequest) returns (r: Result<Status>)
      requires Valid() && SoundHashes(env) && WellKeyed(env, store.blocks)
      modifies this, store, store.index
      ensures Valid() && WellKeyed(env, store.blocks) && Now() == WriteStep(env, old(Now()), req)
      ensures r.Ok? <==> Accepted(env, old(Now()), req) && Applied(env, old(Now()), req).1
      ensures r.Ok? ==> (r.value == NoContent <==> BornArchived(env, req))
    {
      StepKeyed(env, Now(), WriteIt(req));
      var authorized := Authorize(env, req);
      if !authorized {
        return Err(Forbidden);
      }
      var intact := VerifyIntegrity(env, req);
      if !intact {
        return Err(Unexpected);
      }
      r := HandleIntact(env, req);
    }

    /** Handles a write that is authorized and intact. */
    method HandleIntact(env: Env, req: WriteRequest) returns (r: Result<Status>)
      requires Valid() && SoundHashes(env) && WellKeyed(env, store.blocks)
      requires Authorized(env, store.blocks, req) && Intact(env, store.blocks, req)
      modifies this, store, store.index
      ensures Valid() && Now() == WriteStep(env, old(Now()), req)
      ensures r.Ok? <==> Accepted(env, old(Now()), req) && Applied(env, old(Now()), req).1
      ensures r.Ok? ==> (r.value == NoContent <==> BornArchived(env, req))
    {
      var existing := ExistingEntries(req.write.recordId);
      ghost var fetched := store.blocks;
      FetchedAll(env, fetched, Existing(fetched, req.write.recordId));
      var fault := CheckFollows(env, req.write, existing, fetched);
      if fault.Some? {
        return Err(fault.value);
      }
      var taken := TakeData(env, req, existing);
      if taken.Err? {
        return Err(taken.error);
      }
      var done := Admit(env, req, taken.value, existing, fetched, old(Now()));
      if !done {
        return Err(Unexpected);
      }
      return Ok(if BornArchived(env, req) then NoContent else AcceptedStatus);
    }

    /** Stores an admitted write and replaces what it follows. */
    method Admit(env: Env, req: WriteRequest, w: Write, existing: seq<Stored>, ghost fetched: Store,
                 ghost before: State)
      returns (done: bool)
      requires Valid() && SoundHashes(env) && WellKeyed(env, store.blocks)
      requires fetched == before.messages == store.blocks
      requires events == before.events && data == Saved(env, before, req).data
      requires Fetched(env, existing, fetched, Existing(fetched, req.write.recordId))
      requires w == WithData(env, before, req) && Intact(env, fetched, req) && Follows(env, fetched, req.write)
      modifies this, store, store.index
      ensures Valid() && (Now(), done) == Applied(env, before, req)
    {
      WrittenCid(env, before, req);
      assert w.descriptor == Body(w).descriptor == Body(req.write).descriptor;
      Keep(env, StoredWrite(w, BornArchived(env, req)));
      events := events + {env.writeCid(req.write)};
      assert Now() == Saved(env, before, req);
      done := true;
      if existing != [] {
        done := ReplaceEarlier(env, req.write, req.stream.Some?, existing, fetched);
      }
      assert (Now(), done) == Replaced(env, before, req);
      if done && IsRevocation(req.write) {
        done := RevokeGrants(env, req.write);
      }
    }

    // ----- delete ----------------------------------------------------------

    /** Handles a records delete. The outcome of the delete task is ignored. */
    method HandleDelete(env: Env, req: DeleteRequest) returns (r: Result<Status>)
      requires Valid() && SoundHashes(env) && WellKeyed(env, store.blocks)
      modifies this, store, store.index
      ensures Valid() && WellKeyed(env, store.blocks) && Now() == DeleteStep(env, old(Now()), req)
      ensures r.Ok? <==> DeleteAdmitted(old(Now()), req)
    {
      StepKeyed(env, Now(), DeleteIt(req));
      var entries := UnarchivedEntries(req.delete.recordId);
      var fault := CheckDelete(req, entries, Now());
      if fault.Some? {
        return Err(fault.value);
      }
      RunDelete(env, req.delete);
      return Ok(AcceptedStatus);
    }

    /** The messages of a record that are not archived, oldest first. */
    method UnarchivedEntries(recordId: string) returns (entries: seq<Stored>)
      requires Valid()
      ensures entries == MessagesOf(store.blocks, Unarchived(store.blocks, recordId))
    {
      RecordSetSelects(store.blocks, recordId, false);
      entries := Find(UnarchivedSet(recordId), UnarchivedCids(store.blocks, recordId));
    }

    /** Stores the delete and clears away what is older. */
    method RunDelete(env: Env, d: Delete)
      requires Valid() && SoundHashes(env) && WellKeyed(env, store.blocks)
      modifies this, store, store.index
      ensures Valid()
      ensures Now() == if TaskAdmitted(env, old(Now()), d) then TaskDone(env, old(Now()), d) else old(Now())
    {
      var entries := ExistingEntries(d.recordId);
      ghost var cids, fetched := Existing(store.blocks, d.recordId), store.blocks;
      FetchedAll(env, fetched, cids);
      var admitted := CheckTask(env, d, entries, Now());
      if !admitted {
        return;
      }
      Keep(env, StoredDelete(d, entries[0].write));
      events := events + {env.deleteCid(d)};
      DeleteEarlier(env, d, entries, fetched, cids);
    }

    /** Deletes the messages older than a delete, but archives initial writes. */
    method DeleteEarlier(env: Env, d: Delete, entries: seq<Stored>, ghost fetched: Store, ghost cids: seq<string>)
      requires Valid() && SoundHashes(env) && WellKeyed(env, store.blocks)
      requires Fetched(env, entries, fetched, cids) && RecordsOnly(fetched)
      modifies this, store, store.index
      ensures Valid() && Now() == Cleared(env, old(Now()), d, fetched, cids)
    {
      var i := 0;
      while i < |entries|
        invariant 0 <= i <= |entries|
        invariant Valid() && WellKeyed(env, store.blocks)
        invariant Cleared(env, Now(), d, fetched, cids[i..]) == Cleared(env, old(Now()), d, fetched, cids)
      {
        var entry := entries[i];
        assert cids[i..][0] == cids[i] && cids[i..][1..] == cids[i + 1..];
        if Before(entry.Timestamp(), d.base.timestamp) {
          if !entry.StoredWrite? {
            return;
          }
          ghost var before := Now();
          DeleteOne(env, entry);
          assert Now() == Aged(env, before, cids[i], entry);
        }
        i := i + 1;
      }
    }

    method DeleteOne(env: Env, entry: Stored)
      requires Valid() && SoundHashes(env) && WellKeyed(env, store.blocks) && entry.StoredWrite?
      requires entry.write.descriptor.base.interface == RecordsInterface
      modifies this, store, store.index
      ensures Valid() && WellKeyed(env, store.blocks)
      ensures Now() == Aged(env, old(Now()), CidOf(env, entry), entry)
    {
      data := data - {DataKey(entry.write)};
      if IsInitial(env, entry.write) {
        Keep(env, StoredWrite(entry.write, true));
      } else {
        Drop(CidOf(env, entry));
        events := events - {CidOf(env, entry)};
      }
    }

    // ----- configure -------------------------------------------------------

    /** Handles a protocols configure. */
    method HandleConfigure(env: Env, req: ConfigureRequest) returns (r: Result<Status>)
      requires Valid() && SoundHashes(env) && WellKeyed(env, store.blocks)
      modifies this, store, store.index
      ensures Valid() && WellKeyed(env, store.blocks) && Now() == ConfigureStep(env, old(Now()), req)
      ensures r.Ok? <==> ConfigureAccepted(env, old(store.blocks), req)
    {
      StepKeyed(env, Now(), ConfigureIt(req));
      var c := req.configure;
      if !req.admitted || c.base.interface != ProtocolsInterface || c.base.verb != ConfigureMethod {
        return Err(Unexpected);
      }
      var existing := Configurations(env, c.protocol);
      var latest := CheckLatest(env, c, existing, store.blocks);
      if !latest {
        return Err(Conflict);
      }
      ReplaceConfigs(env, c, existing);
      return Ok(AcceptedStatus);
    }

    /** The stored configurations of a protocol, oldest first. */
    method Configurations(env: Env, protocol: string) returns (existing: seq<Stored>)
      requires Valid() && WellKeyed(env, store.blocks)
      ensures Fetched(env, existing, store.blocks, Configs(store.blocks, protocol))
    {
      ConfigSetSelects(store.blocks, protocol);
      existing := Find(ConfigSet(protocol), ConfigCids(store.blocks, protocol));
      FetchedAll(env, store.blocks, Configs(store.blocks, protocol));
    }

    /** Removes the stored configurations and stores the new one. */
    method ReplaceConfigs(env: Env, c: Configure, existing: seq<Stored>)
      requires Valid() && SoundHashes(env) && WellKeyed(env, store.blocks)
      requires Fetched(env, existing, store.blocks, Configs(store.blocks, c.protocol))
      modifies this, store, store.index
      ensures Valid()
      ensures var gone, cid := ConfigCids(old(store.blocks), c.protocol), env.configureCid(c);
              Now() == State((old(store.blocks) - gone)[cid := StoredConfigure(c)],
                             old(events) - gone + {cid}, old(data))
    {
      RemoveAll(env, existing, store.blocks, Configs(store.blocks, c.protocol));
      Keep(env, StoredConfigure(c));
      events := events + {env.configureCid(c)};
    }
  }
}
