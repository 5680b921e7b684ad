/** Who may write: what authorization asks of the stored messages and of the write
    itself, and that a refused request changes nothing. */
module Authorizations {
  import opened Order
  import opened Results
  import opened Timestamps
  import opened Messages
  import opened RecordQueries
  import opened NodeState
  import opened Writes
  import opened Deletes
  import opened Runs

  // ----- what a grant asks for --------------------------------------------

  /** A records write that is stored and not archived. */
  predicate IsLive(m: Stored)
  {
    && m.StoredWrite? && !m.archived
    && m.write.descriptor.base.interface == RecordsInterface && m.write.descriptor.base.verb == WriteMethod
  }

  /** The message is the oldest live write of a record. */
  ghost predicate HoldsRecord(s: Store, recordId: string, c: string)
  {
    && c in s && IsLive(s[c]) && s[c].write.recordId == recordId
    && forall d :: d in s && IsLive(s[d]) && s[d].write.recordId == recordId && d != c ==> Older(s[c], c, s[d], d)
  }

  /** The message is a live revocation of a grant. */
  predicate RevokesGrant(m: Stored, grantId: string)
  {
    && IsLive(m) && m.write.descriptor.parentId == Some(grantId)
    && m.write.descriptor.protocolPath == Some("grant/revocation")
  }

  /** The data of a grant covers a write: its verb and protocol, its context or
      path, its publication and its time. */
  predicate Covers(data: GrantData, granted: Instant, w: Write)
  {
    && granted.Ordinal() <= w.Timestamp().Ordinal() < data.dateExpires.Ordinal()
    && (match data.scope
        case OtherScope(_, _, _) => false
        case RecordsScope(verb, protocol, limit) =>
          && w.descriptor.base.interface == RecordsInterface && w.descriptor.base.verb == verb
          && w.descriptor.protocol == Some(protocol)
          && match limit
             case NoLimit => true
             case InContext(c) => w.contextId.Some? && |c| <= |w.contextId.value| && w.contextId.value[..|c|] == c
             case AtPath(p) => w.descriptor.protocolPath == Some(p))
    && (data.publication.Required? ==> w.descriptor.published == Some(true))
    && (data.publication.Prohibited? ==> w.descriptor.published != Some(true))
  }

  /** A stored grant licenses a write: the owner signed it for the write's author,
      its data covers the write, and no live revocation of it is dated before the
      write. */
  ghost predicate Licenses(env: Env, s: Store, grant: Write, w: Write)
  {
    && grant.authorization.signer == env.owner
    && w.authorization.author == (if grant.descriptor.recipient.Some? then grant.descriptor.recipient.value else "")
    && grant.encodedData.Some?
    && env.decodeGrant(grant.encodedData.value).Some?
    && Covers(env.decodeGrant(grant.encodedData.value).value, grant.descriptor.dateCreated, w)
    && forall d :: d in s && RevokesGrant(s[d], grant.recordId) ==>
         s[d].Timestamp().Ordinal() >= w.Timestamp().Ordinal()
  }

  lemma HolderIsFirst(s: Store, recordId: string)
    ensures var entries := Current(s, RecordFilter(recordId));
            && (entries != [] ==> HoldsRecord(s, recordId, entries[0]))
            && (forall c :: HoldsRecord(s, recordId, c) ==> entries != [] && c == entries[0])
  {
    var q := RecordFilter(recordId);
    var entries := Current(s, q);
    forall c ensures c in CurrentCids(s, q) <==> c in s && IsLive(s[c]) && s[c].write.recordId == recordId {}
    if entries != [] { FirstIsHolder(s, recordId, entries); }
    forall c | HoldsRecord(s, recordId, c) ensures entries != [] && c == entries[0] {
      assert c in Elements(entries);
      if c != entries[0] { OlderTotal(s[c], c, s[entries[0]], entries[0]); }
    }
  }

  lemma FirstIsHolder(s: Store, recordId: string, entries: seq<string>)
    requires entries != [] && OldestFirst(s, CurrentCids(s, RecordFilter(recordId)), entries)
    requires forall c :: c in CurrentCids(s, RecordFilter(recordId)) <==>
      c in s && IsLive(s[c]) && s[c].write.recordId == recordId
    ensures HoldsRecord(s, recordId, entries[0])
  {
    var q := RecordFilter(recordId);
    assert entries[0] in CurrentCids(s, q);
    forall d | d in s && IsLive(s[d]) && s[d].write.recordId == recordId && d != entries[0]
      ensures Older(s[entries[0]], entries[0], s[d], d)
    {
      assert d in CurrentCids(s, q) && d in Elements(entries);
      var i :| 0 <= i < |entries| && entries[i] == d;
    }
  }

  /** Not being after the oldest revocation is not being after any. */
  lemma NotRevokedIff(s: Store, grantId: string, t: Instant)
    ensures var r := Revocations(s, grantId);
            (r != [] ==> !Before(s[r[0]].Timestamp(), t)) <==>
            forall d :: d in s && RevokesGrant(s[d], grantId) ==> s[d].Timestamp().Ordinal() >= t.Ordinal()
  {
    var q, r := RevocationFilter(grantId), Revocations(s, grantId);
    forall d ensures d in CurrentCids(s, q) <==> d in s && RevokesGrant(s[d], grantId) {}
    if r != [] { assert r[0] in CurrentCids(s, q); }
    forall d | d in s && RevokesGrant(s[d], grantId) ensures r != [] && !Before(s[d].Timestamp(), s[r[0]].Timestamp()) {
      assert d in Elements(r);
      var i :| 0 <= i < |r| && r[i] == d;
      if i > 0 { OlderNotAfter(s[r[0]], r[0], s[d], d); }
    }
  }

  lemma CoversIff(s: Store, g: Grant, w: Write)
    ensures PermitsWrite(s, g, g.grantor, w) <==>
            && w.authorization.author == g.grantee && Covers(g.data, g.dateGranted, w)
            && forall d :: d in s && RevokesGrant(s[d], g.id) ==> s[d].Timestamp().Ordinal() >= w.Timestamp().Ordinal()
  {
    NotRevokedIff(s, g.id, w.Timestamp());
  }

  /** A write may invoke a grant exactly when the oldest live write of the grant's
      record licenses it. */
  lemma GrantPermitsIff(env: Env, s: Store, grantId: string, w: Write)
    ensures GrantPermits(env, s, grantId, w) <==>
            exists c :: HoldsRecord(s, grantId, c) && Licenses(env, s, s[c].write, w)
  {
    var entries := Current(s, RecordFilter(grantId));
    HolderIsFirst(s, grantId);
    if entries != [] {
      var grant := s[entries[0]].write;
      if GrantOf(env, grant).Some? { CoversIff(s, GrantOf(env, grant).value, w); }
      assert GrantPermits(env, s, grantId, w) <==> Licenses(env, s, grant, w);
    }
  }

  // ----- who is authorized -------------------------------------------------

  /** The write is not the owner's, neither by its author nor by a second
      signature. */
  predicate IsForeign(env: Env, w: Write)
  {
    w.authorization.author != env.owner && w.authorization.recordOwner.None?
  }

  /** A foreign write that invokes a grant is authorized exactly when the grant
      licenses it, whatever its protocol says. */
  lemma ForeignWithGrantIff(env: Env, s: Store, req: WriteRequest, grantId: string)
    requires IsForeign(env, req.write) && req.write.authorization.grantId == Some(grantId)
    ensures Authorized(env, s, req) <==>
            && req.checks.delegates
            && exists c :: HoldsRecord(s, grantId, c) && Licenses(env, s, s[c].write, req.write)
  {
    GrantPermitsIff(env, s, grantId, req.write);
  }

  /** A foreign write that invokes no grant is authorized exactly when it has a
      protocol and the protocol permits it. */
  lemma ForeignWithoutGrantIff(env: Env, s: Store, req: WriteRequest)
    requires IsForeign(env, req.write) && req.write.authorization.grantId.None?
    ensures Authorized(env, s, req) <==>
            req.checks.delegates && req.write.descriptor.protocol.Some? && req.checks.protocolPermits
  {
  }

  /** The owner's writes are authorized, and those with another owner's signature
      are not. */
  lemma OwnIff(env: Env, s: Store, req: WriteRequest)
    requires !IsForeign(env, req.write)
    ensures var second := req.write.authorization.recordOwner;
            Authorized(env, s, req) <==> req.checks.delegates && (second.Some? ==> second.value == env.owner)
  {
  }

  /** In every reachable state, each foreign write was accepted in a state in which
      a grant licensed it or its protocol permitted it. */
  ghost predicate WasLicensed(env: Env, reqs: seq<Request>, w: Write)
  {
    exists i :: 0 <= i < |reqs| && LicensedAt(env, reqs, i, w)
  }

  ghost predicate LicensedAt(env: Env, reqs: seq<Request>, i: nat, w: Write)
    requires i < |reqs|
  {
    var s := Run(env, EMPTY, reqs[..i]).messages;
    && reqs[i].WriteIt? && Body(reqs[i].write.write) == Body(w)
    && if w.authorization.grantId.Some? then
         exists c :: HoldsRecord(s, w.authorization.grantId.value, c)
                     && Licenses(env, s, s[c].write, reqs[i].write.write)
       else w.descriptor.protocol.Some? && reqs[i].write.checks.protocolPermits
  }

  lemma SameAuthorization(v: Write, w: Write)
    requires Body(v) == Body(w)
    ensures v.authorization == w.authorization && v.descriptor == w.descriptor && v.recordId == w.recordId
    ensures v.contextId == w.contextId
  {
    assert Body(v).authorization == v.authorization && Body(v).descriptor == v.descriptor;
    assert Body(v).recordId == v.recordId && Body(v).contextId == v.contextId;
    assert Body(w).authorization == w.authorization && Body(w).descriptor == w.descriptor;
    assert Body(w).recordId == w.recordId && Body(w).contextId == w.contextId;
  }

  lemma {:induction false} LicensedBefore(env: Env, reqs: seq<Request>, w: Write)
    requires reqs != [] && WasLicensed(env, reqs[..|reqs| - 1], w)
    ensures WasLicensed(env, reqs, w)
  {
    var n := |reqs| - 1;
    var i :| 0 <= i < n && LicensedAt(env, reqs[..n], i, w);
    assert reqs[..n][..i] == reqs[..i];
    assert LicensedAt(env, reqs, i, w);
  }

  lemma AcceptedIsLicensed(env: Env, reqs: seq<Request>, w: Write)
    requires reqs != [] && reqs[|reqs| - 1].WriteIt?
    requires Accepted(env, Run(env, EMPTY, reqs[..|reqs| - 1]), reqs[|reqs| - 1].write)
    requires Body(reqs[|reqs| - 1].write.write) == Body(w) && IsForeign(env, w)
    ensures WasLicensed(env, reqs, w)
  {
    var n := |reqs| - 1;
    var s, req := Run(env, EMPTY, reqs[..n]).messages, reqs[n].write;
    SameAuthorization(req.write, w);
    if w.authorization.grantId.Some? { ForeignWithGrantIff(env, s, req, w.authorization.grantId.value); }
    assert LicensedAt(env, reqs, n, w);
  }

  /** Every foreign write that any run has stored was licensed when it came. */
  lemma {:induction false} StoredWereLicensed(env: Env, reqs: seq<Request>, c: string)
    requires SoundHashes(env) && c in Run(env, EMPTY, reqs).messages
    ensures var m := Run(env, EMPTY, reqs).messages[c];
            m.StoredWrite? && IsForeign(env, m.write) ==> WasLicensed(env, reqs, m.write)
    decreases |reqs|
  {
    if reqs != [] {
      var n := |reqs| - 1;
      var st, m := Run(env, EMPTY, reqs[..n]), Run(env, EMPTY, reqs).messages[c];
      RunKeyed(env, reqs[..n]);
      StepExplained(env, st, reqs[n], c);
      if m.StoredWrite? && IsForeign(env, m.write) {
        if Kept(st.messages, Run(env, EMPTY, reqs).messages, c) {
          StoredWereLicensed(env, reqs[..n], c);
          LicensedBefore(env, reqs, m.write);
        } else {
          AcceptedIsLicensed(env, reqs, m.write);
        }
      }
    }
  }

  // ----- refusals ----------------------------------------------------------

  /** A request that fails one of the checks outside the model stores and removes
      no message; only a stream that does not fit its write can leave data. */
  predicate FailsChecks(req: Request)
  {
    match req
    case WriteIt(r) => !r.checks.delegates || !r.checks.integrity || (r.stream.Some? && !r.checks.stream)
    case DeleteIt(r) => !r.authorized
    case ConfigureIt(r) => !r.admitted
  }

  lemma RefusedChangesNothing(env: Env, st: State, req: Request)
    requires FailsChecks(req)
    ensures Step(env, st, req).messages == st.messages && Step(env, st, req).events == st.events
    ensures Step(env, st, req).data == st.data || (req.WriteIt? && req.write.stream.Some? && !req.write.checks.stream
              && Step(env, st, req).data == st.data + {(req.write.write.recordId, req.write.write.descriptor.dataCid)})
  {
  }
}
