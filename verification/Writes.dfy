/** Handling a records write: the checks, and what accepting it does. */
module Writes {
  import opened Text
  import opened Results
  import opened Timestamps
  import opened Messages
  import opened Filters
  import opened RecordQueries
  import opened NodeState

  const MAX_ENCODED_SIZE: nat := 30_000

  /** The outcomes of checks outside the model: delegated grants; protocol rules
      for the author; whether the protocol's rule set at the write's path is a
      role; record types, sizes, tags and the signature payload; and the stream's
      CID, size and, for grants, its schema. */
  datatype Checks = Checks(delegates: bool, protocolPermits: bool, role: bool, integrity: bool, stream: bool)

  /** An incoming write; `stream` is the encoded form of its data, if it has any. */
  datatype WriteRequest = WriteRequest(write: Write, stream: Option<string>, checks: Checks)

  // ----- checks ------------------------------------------------------------

  predicate Authorized(env: Env, s: Store, req: WriteRequest)
  {
    var w, a := req.write, req.write.authorization;
    && (a.recordOwner.Some? ==> a.recordOwner.value == env.owner)
    && req.checks.delegates
    && (|| a.recordOwner.Some?
        || a.author == env.owner
        || if a.grantId.Some? then GrantPermits(env, s, a.grantId.value, w)
           else w.descriptor.protocol.Some? && req.checks.protocolPermits)
  }

  predicate GrantPermits(env: Env, s: Store, grantId: string, w: Write)
  {
    var grant := FetchGrant(env, s, grantId);
    grant.Some? && PermitsWrite(s, grant.value, env.owner, w)
  }

  /** The part of a path after its last slash. */
  function LastSegment(path: string): (last: string)
    ensures |last| <= |path| && ('/' in path ==> |last| < |path|)
  {
    if '/' !in path then path else LastSegment(path[1..])
  }

  /** The path continues that of the parent, which must be a current record of
      the same protocol. A record without a parent has a path of one segment. */
  predicate PathVerified(s: Store, w: Write)
  {
    var d := w.descriptor;
    && d.protocolPath.Some?
    && if d.parentId.None? then '/' !in d.protocolPath.value
       else
         var entries := Current(s, ParentFilter(w));
         entries != [] && ContinuesPath(w, s[entries[0]].write)
  }

  function ParentFilter(w: Write): RecordsFilter
  {
    ANY.(recordId := w.descriptor.parentId, protocol := w.descriptor.protocol)
  }

  /** The path and the context of a write go on from those of its parent. */
  predicate ContinuesPath(w: Write, parent: Write)
    requires w.descriptor.protocolPath.Some?
  {
    var path := w.descriptor.protocolPath.value;
    && parent.descriptor.protocolPath.Some?
    && parent.descriptor.protocolPath.value + "/" + LastSegment(path) == path
    && parent.contextId.Some? && w.contextId.Some?
    && StartsWith(w.contextId.value, parent.contextId.value)
  }

  /** The part of a context before its last slash, if it has one. */
  function ParentContext(context: string): Option<string>
  {
    if '/' !in context then None else Some(context[..|context| - |LastSegment(context)| - 1])
  }

  /** The role records that a role record must not be added to. */
  function RoleFilter(w: Write): RecordsFilter
  {
    ANY.(protocol := w.descriptor.protocol,
         protocolPath := w.descriptor.protocolPath,
         recipient := Some([OrEmpty(w.descriptor.recipient)]),
         contextId := if w.contextId.Some? then ParentContext(w.contextId.value) else None)
  }

  /** A role record has a recipient, who has no other such record in its context. */
  predicate RoleVerified(s: Store, w: Write)
  {
    && w.descriptor.recipient.Some? && w.descriptor.protocol.Some? && w.descriptor.protocolPath.Some?
    && forall c :: c in CurrentCids(s, RoleFilter(w)) ==> s[c].write.recordId == w.recordId
  }

  predicate IsRevocation(w: Write)
  {
    w.descriptor.protocol == Some(PERMISSIONS) && w.descriptor.protocolPath == Some(REVOCATION_PATH)
  }

  function TagText(w: Write, name: string): Option<string>
  {
    var tags := w.descriptor.tags;
    if tags.Some? && name in tags.value && tags.value[name].TextTag? then Some(tags.value[name].text) else None
  }

  /** A revocation names a grant, and its protocol tag is the grant's. */
  predicate RevocationVerified(env: Env, s: Store, w: Write)
  {
    IsRevocation(w) ==>
      && w.descriptor.parentId.Some?
      && var grant := FetchGrant(env, s, w.descriptor.parentId.value);
         && grant.Some?
         && (w.descriptor.tags.Some? ==>
               grant.value.data.scope.ScopeProtocol() == Some(OrEmpty(TagText(w, "protocol"))))
  }

  /** An initial write is dated at its creation, and the context of a protocol's
      root record is the record itself. */
  predicate SoundlyInitial(env: Env, w: Write)
  {
    IsInitial(env, w) ==>
      && w.Timestamp() == w.descriptor.dateCreated
      && (w.descriptor.protocol.Some? && w.descriptor.parentId.None? ==> w.contextId == Some(w.recordId))
  }

  predicate Intact(env: Env, s: Store, req: WriteRequest)
  {
    var w := req.write;
    && w.descriptor.base.interface == RecordsInterface && w.descriptor.base.verb == WriteMethod
    && SoundlyInitial(env, w)
    && (w.descriptor.protocol.Some? ==>
          PathVerified(s, w) && (req.checks.role ==> RoleVerified(s, w)) && RevocationVerified(env, s, w))
    && req.checks.integrity
  }

  /** The properties no update may change. */
  predicate SameImmutables(a: WriteDescriptor, b: WriteDescriptor)
  {
    && a.base.interface == b.base.interface && a.base.verb == b.base.verb
    && a.protocol == b.protocol && a.protocolPath == b.protocolPath
    && a.recipient == b.recipient && a.schema == b.schema
    && a.parentId == b.parentId && a.dateCreated == b.dateCreated
  }

  /** The write is newer than a stored message, by timestamp and then by CID. */
  predicate Newer(env: Env, w: Write, m: Stored, c: string)
  {
    Older(m, c, StoredWrite(w, false), env.writeCid(w))
  }

  /** The write may follow the record's messages. */
  predicate Follows(env: Env, s: Store, w: Write)
  {
    var existing := Existing(s, w.recordId);
    if existing == [] then IsInitial(env, w)
    else
      var earliest, latest := s[existing[0]], s[existing[|existing| - 1]];
      && earliest.StoredWrite? && IsInitial(env, earliest.write)
      && SameImmutables(w.descriptor, earliest.write.descriptor)
      && Newer(env, w, latest, existing[|existing| - 1])
      && !latest.StoredDelete?
  }

  /** Data is there: in the stream, or with the message it is taken over from. */
  predicate DataAvailable(env: Env, st: State, req: WriteRequest)
  {
    var w := req.write;
    if req.stream.Some? then req.checks.stream
    else if IsInitial(env, w) then true
    else
      var existing := Existing(st.messages, w.recordId);
      && existing != []
      && var latest := st.messages[existing[|existing| - 1]];
         && latest.StoredWrite?
         && latest.write.descriptor.dataCid == w.descriptor.dataCid
         && latest.write.descriptor.dataSize == w.descriptor.dataSize
         && if w.descriptor.dataSize > MAX_ENCODED_SIZE then (w.recordId, w.descriptor.dataCid) in st.data
            else latest.write.encodedData.Some?
  }

  predicate Accepted(env: Env, st: State, req: WriteRequest)
  {
    && Authorized(env, st.messages, req)
    && Intact(env, st.messages, req)
    && Follows(env, st.messages, req.write)
    && DataAvailable(env, st, req)
  }

  // ----- effect ------------------------------------------------------------

  /** The message as stored, with its small data encoded in it. */
  function WithData(env: Env, st: State, req: WriteRequest): (w: Write)
    ensures Body(w) == Body(req.write)
  {
    var w := req.write;
    if w.descriptor.dataSize > MAX_ENCODED_SIZE then w
    else if req.stream.Some? then w.(encodedData := req.stream)
    else if IsInitial(env, w) then w
    else
      var existing := Existing(st.messages, w.recordId);
      if existing == [] then w
      else
        var latest := st.messages[existing[|existing| - 1]];
        if latest.StoredWrite? then w.(encodedData := latest.write.encodedData) else w
  }

  function Archived(m: Stored): Stored
  {
    if m.StoredWrite? then m.(archived := true) else m
  }

  /** An initial write without data is archived at once. */
  predicate BornArchived(env: Env, req: WriteRequest)
  {
    req.stream.None? && IsInitial(env, req.write)
  }

  function DataKey(w: Write): (string, string)
  {
    (w.recordId, w.descriptor.dataCid)
  }

  /** Stores the write, and large stream data with it. */
  function Saved(env: Env, st: State, req: WriteRequest): State
  {
    var w, cid := req.write, env.writeCid(req.write);
    State(
      st.messages[cid := StoredWrite(WithData(env, st, req), BornArchived(env, req))],
      st.events + {cid},
      if req.stream.Some? && w.descriptor.dataSize > MAX_ENCODED_SIZE then st.data + {DataKey(w)} else st.data)
  }

  /** Archives the record's initial write. New data replaces the initial data. */
  function InitialArchived(st: State, c: string, m: Stored, newData: bool): State
    requires m.StoredWrite?
  {
    State(
      st.messages[c := Archived(m)],
      st.events + {c},
      if m.write.descriptor.dataCid != "" && newData then st.data - {DataKey(m.write)} else st.data)
  }

  /** Deletes earlier updates with their data; a message that is not a write
      ends the loop with an error. */
  function Purged(st: State, fetched: Store, cids: seq<string>): (State, bool)
    requires forall i :: 0 <= i < |cids| ==> cids[i] in fetched
    decreases |cids|
  {
    if cids == [] then (st, true)
    else if !fetched[cids[0]].StoredWrite? then (st, false)
    else
      var rest := State(st.messages - {cids[0]}, st.events - {cids[0]}, st.data - {DataKey(fetched[cids[0]].write)});
      Purged(rest, fetched, cids[1..])
  }

  /** The stored writes that invoke a grant and were created at or after a time. */
  function CreatedUnder(s: Store, grantId: string, t: Instant): set<string>
  {
    set c | c in s && InvokedAfter(s[c], grantId, t)
  }

  predicate InvokedAfter(m: Stored, grantId: string, t: Instant)
  {
    && m.StoredWrite?
    && m.write.descriptor.base.interface == RecordsInterface && m.write.descriptor.base.verb == WriteMethod
    && m.write.authorization.grantId == Some(grantId)
    && !Before(m.write.descriptor.dateCreated, t)
  }

  predicate CanRevoke(env: Env, s: Store, w: Write)
  {
    && w.descriptor.parentId.Some?
    && var grant := FetchGrant(env, s, w.descriptor.parentId.value);
       && grant.Some?
       && (w.descriptor.tags.Some? && "protocol" in w.descriptor.tags.value ==>
             TagText(w, "protocol") == grant.value.data.scope.ScopeProtocol())
  }

  /** Deletes the messages created under a grant at or after its revocation. */
  function Revoked(env: Env, st: State, w: Write): (State, bool)
  {
    if !CanRevoke(env, st.messages, w) then (st, false)
    else
      var gone := CreatedUnder(st.messages, w.descriptor.parentId.value, w.Timestamp());
      (State(st.messages - gone, st.events - gone, st.data), true)
  }

  /** The stored write and the record's earlier messages, before any revocation. */
  function Replaced(env: Env, st: State, req: WriteRequest): (State, bool)
  {
    var existing := Existing(st.messages, req.write.recordId);
    var saved := Saved(env, st, req);
    if existing == [] then (saved, true)
    else if !st.messages[existing[0]].StoredWrite? then (saved, false)
    else
      var initial := InitialArchived(saved, existing[0], st.messages[existing[0]], req.stream.Some?);
      Purged(initial, st.messages, existing[1..])
  }

  lemma {:induction false} PurgedShrinks(st: State, fetched: Store, cids: seq<string>, c: string)
    requires forall i :: 0 <= i < |cids| ==> cids[i] in fetched
    requires c in Purged(st, fetched, cids).0.messages
    ensures c in st.messages && Purged(st, fetched, cids).0.messages[c] == st.messages[c]
    decreases |cids|
  {
    if cids != [] && fetched[cids[0]].StoredWrite? {
      var rest := State(st.messages - {cids[0]}, st.events - {cids[0]}, st.data - {DataKey(fetched[cids[0]].write)});
      PurgedShrinks(rest, fetched, cids[1..], c);
    }
  }

  /** A message left by a write is the write, the archived first message of its
      record, or unchanged. */
  lemma ReplacedMessage(env: Env, st: State, req: WriteRequest, c: string)
    requires c in Replaced(env, st, req).0.messages
    ensures var after, existing := Replaced(env, st, req).0.messages, Existing(st.messages, req.write.recordId);
            || (c == env.writeCid(req.write) && after[c] == StoredWrite(WithData(env, st, req), BornArchived(env, req)))
            || (existing != [] && c == existing[0]
                && st.messages[c].StoredWrite? && after[c] == Archived(st.messages[c]))
            || (c in st.messages && after[c] == st.messages[c])
  {
    var existing := Existing(st.messages, req.write.recordId);
    var saved := Saved(env, st, req);
    if existing != [] && st.messages[existing[0]].StoredWrite? {
      var first := existing[0];
      var initial := InitialArchived(saved, first, st.messages[first], req.stream.Some?);
      PurgedShrinks(initial, st.messages, existing[1..], c);
      assert initial.messages == saved.messages[first := Archived(st.messages[first])];
    }
  }

  /** What accepting a write does, and whether its handling completed. */
  function Applied(env: Env, st: State, req: WriteRequest): (State, bool)
  {
    var (replaced, done) := Replaced(env, st, req);
    if done && IsRevocation(req.write) then Revoked(env, replaced, req.write) else (replaced, done)
  }

  /** A large stream is stored before its CID and size are compared. */
  predicate LeavesData(env: Env, st: State, req: WriteRequest)
  {
    && Authorized(env, st.messages, req) && Intact(env, st.messages, req) && Follows(env, st.messages, req.write)
    && req.stream.Some? && !req.checks.stream && req.write.descriptor.dataSize > MAX_ENCODED_SIZE
  }

  /** The state after a write is handled. A rejected write stores no message. */
  function WriteStep(env: Env, st: State, req: WriteRequest): State
  {
    if Accepted(env, st, req) then Applied(env, st, req).0
    else if LeavesData(env, st, req) then st.(data := st.data + {DataKey(req.write)})
    else st
  }
}
