/** Grant revocation over whole runs, and the agreement of the event log with the
    message store. */
module Revocation {
  import opened Order
  import opened Results
  import opened Timestamps
  import opened Messages
  import opened RecordQueries
  import opened NodeState
  import opened Writes
  import opened Deletes
  import opened Runs

  /** A current revocation of a grant. */
  predicate Revokes(m: Stored, grantId: string)
  {
    IsCurrent(m) && IsRevocation(m.write) && m.write.descriptor.parentId == Some(grantId)
  }

  /** A write by someone other than the owner, not signed by the owner, that
      invokes a grant and was created after a time. */
  predicate Offends(env: Env, m: Stored, grantId: string, t: Instant)
  {
    && m.StoredWrite?
    && m.write.authorization.author != env.owner && m.write.authorization.recordOwner.None?
    && m.write.authorization.grantId == Some(grantId)
    && Before(t, m.write.descriptor.dateCreated)
  }

  ghost predicate HeldTo(env: Env, s: Store, r: string, c: string)
    requires r in s && c in s
  {
    s[r].StoredWrite? && s[r].write.descriptor.parentId.Some? && Revokes(s[r], s[r].write.descriptor.parentId.value) ==>
      !Offends(env, s[c], s[r].write.descriptor.parentId.value, s[r].Timestamp())
  }

  /** If the message is a stored current revocation, no stored write offends
      against it. */
  ghost predicate IsEffective(env: Env, s: Store, r: string)
  {
    r in s ==> forall c :: c in s ==> HeldTo(env, s, r, c)
  }

  /** A write permitted by a grant is not dated after any current revocation of it. */
  lemma PermittedBeforeRevocation(env: Env, s: Store, w: Write, grantId: string, r: string)
    requires GrantPermits(env, s, grantId, w) && r in s && Revokes(s[r], grantId)
    ensures !Before(s[r].Timestamp(), w.Timestamp())
  {
    var g := FetchGrant(env, s, grantId).value;
    var holders := Current(s, RecordFilter(grantId));
    assert g.id == grantId by { assert holders[0] in CurrentCids(s, RecordFilter(grantId)); }
    var q := RevocationFilter(grantId);
    var list := Revocations(s, grantId);
    assert r in CurrentCids(s, q);
    assert r in Elements(list);
    var i :| 0 <= i < |list| && list[i] == r;
    if i > 0 { OlderNotAfter(s[list[0]], list[0], s[r], r); }
  }

  lemma AcceptedDoesNotOffend(env: Env, st: State, req: WriteRequest, grantId: string, r: string)
    requires Dated(env, st.messages) && Accepted(env, st, req)
    requires r in st.messages && Revokes(st.messages[r], grantId)
    ensures !Offends(env, StoredWrite(WithData(env, st, req), BornArchived(env, req)), grantId,
                     st.messages[r].Timestamp())
  {
    var w, v := req.write, WithData(env, st, req);
    AcceptedDated(env, st, req);
    assert Body(v).descriptor == w.descriptor && Body(v).authorization == w.authorization;
    var a := w.authorization;
    if a.author != env.owner && a.recordOwner.None? && a.grantId == Some(grantId) {
      PermittedBeforeRevocation(env, st.messages, w, grantId, r);
    }
  }

  /** Handling a revocation removes every write that offends against it. */
  lemma RevokedDoesNotOffend(env: Env, st: State, req: WriteRequest, c: string)
    requires IsRevocation(req.write) && Applied(env, st, req).1
    requires c in Applied(env, st, req).0.messages && DatedAt(env, Applied(env, st, req).0.messages[c])
    ensures req.write.descriptor.parentId.Some?
    ensures !Offends(env, Applied(env, st, req).0.messages[c], req.write.descriptor.parentId.value,
                     req.write.Timestamp())
  {
    var replaced := Replaced(env, st, req).0;
    var gone := CreatedUnder(replaced.messages, req.write.descriptor.parentId.value, req.write.Timestamp());
    assert c !in gone && c in replaced.messages;
  }

  /** If the step is an accepted revocation, its handling runs to its end. */
  predicate Completes(env: Env, st: State, req: Request)
  {
    req.WriteIt? && Accepted(env, st, req.write) && IsRevocation(req.write.write) ==> Applied(env, st, req.write).1
  }

  lemma KeptRevokes(before: Store, after: Store, r: string, grantId: string)
    requires r in after && Kept(before, after, r) && Revokes(after[r], grantId)
    ensures Revokes(before[r], grantId) && before[r] == after[r]
  {
  }

  /** The step is a write that would be stored under the given CID. */
  predicate Brings(env: Env, req: Request, r: string)
  {
    req.WriteIt? && env.writeCid(req.write.write) == r
  }

  lemma PairHeld(env: Env, st: State, req: Request, r: string, c: string)
    requires SoundHashes(env) && WellKeyed(env, st.messages) && Dated(env, st.messages)
    requires IsEffective(env, st.messages, r) && (Brings(env, req, r) ==> Completes(env, st, req))
    requires r in Step(env, st, req).messages && c in Step(env, st, req).messages
    ensures HeldTo(env, Step(env, st, req).messages, r, c)
  {
    var s, after := st.messages, Step(env, st, req).messages;
    if after[r].StoredWrite? && after[r].write.descriptor.parentId.Some? {
      var g := after[r].write.descriptor.parentId.value;
      if Revokes(after[r], g) {
        StepExplained(env, st, req, r);
        if Kept(s, after, r) {
          KeptRevokes(s, after, r, g);
          KeptStillHeld(env, st, req, r, c, g);
        } else {
          WrittenCid(env, st, req.write);
          StepDated(env, st, req);
          NewRevocationHolds(env, st, req.write, r, c);
        }
      }
    }
  }

  lemma KeptStillHeld(env: Env, st: State, req: Request, r: string, c: string, g: string)
    requires SoundHashes(env) && WellKeyed(env, st.messages)
    requires Dated(env, st.messages) && IsEffective(env, st.messages, r)
    requires r in st.messages && Revokes(st.messages[r], g) && c in Step(env, st, req).messages
    ensures !Offends(env, Step(env, st, req).messages[c], g, st.messages[r].Timestamp())
  {
    StepExplained(env, st, req, c);
    if Kept(st.messages, Step(env, st, req).messages, c) {
      assert HeldTo(env, st.messages, r, c);
    } else if req.WriteIt? {
      AcceptedDoesNotOffend(env, st, req.write, g, r);
    }
  }

  lemma NewRevocationHolds(env: Env, st: State, req: WriteRequest, r: string, c: string)
    requires Accepted(env, st, req) && (IsRevocation(req.write) ==> Applied(env, st, req).1)
    requires Dated(env, WriteStep(env, st, req).messages)
    requires r in WriteStep(env, st, req).messages && c in WriteStep(env, st, req).messages
    requires WriteStep(env, st, req).messages[r] == StoredWrite(WithData(env, st, req), BornArchived(env, req))
    ensures HeldTo(env, WriteStep(env, st, req).messages, r, c)
  {
    var v := WithData(env, st, req);
    assert Body(v).descriptor == Body(req.write).descriptor;
    if IsRevocation(req.write) { RevokedDoesNotOffend(env, st, req, c); }
  }

  /** A step keeps a current revocation effective, and makes one effective that it
      brings, if it handles that to the end. */
  lemma StepKeepsEffective(env: Env, st: State, req: Request, r: string)
    requires SoundHashes(env) && WellKeyed(env, st.messages) && Dated(env, st.messages)
    requires IsEffective(env, st.messages, r) && (Brings(env, req, r) ==> Completes(env, st, req))
    ensures IsEffective(env, Step(env, st, req).messages, r)
  {
    var after := Step(env, st, req).messages;
    forall c | r in after && c in after ensures HeldTo(env, after, r, c) {
      PairHeld(env, st, req, r, c);
    }
  }

  /** Whenever the run brings the message, it is handled to the end. */
  ghost predicate IsCompleted(env: Env, reqs: seq<Request>, r: string)
  {
    forall i :: 0 <= i < |reqs| && Brings(env, reqs[i], r) ==> Completes(env, Run(env, EMPTY, reqs[..i]), reqs[i])
  }

  lemma {:induction false} RunKeepsEffective(env: Env, reqs: seq<Request>, r: string)
    requires SoundHashes(env) && IsCompleted(env, reqs, r)
    ensures var s := Run(env, EMPTY, reqs).messages;
            WellKeyed(env, s) && Dated(env, s) && IsEffective(env, s, r)
    decreases |reqs|
  {
    if reqs != [] {
      var n := |reqs| - 1;
      assert forall i :: 0 <= i < n ==> reqs[..n][..i] == reqs[..i];
      RunKeepsEffective(env, reqs[..n], r);
      var st := Run(env, EMPTY, reqs[..n]);
      StepKeyed(env, st, reqs[n]);
      StepDated(env, st, reqs[n]);
      StepKeepsEffective(env, st, reqs[n], r);
    }
  }

  /** In every reachable state, as long as a revocation of a grant that was handled
      to the end is stored and current, no stored write by a non-owner without an
      owner signature invokes the grant and was created after the revocation. What
      became of other revocations does not matter. */
  lemma NoWriteAfterRevocation(env: Env, reqs: seq<Request>, r: string, c: string, grantId: string)
    requires SoundHashes(env) && IsCompleted(env, reqs, r)
    requires r in Run(env, EMPTY, reqs).messages && c in Run(env, EMPTY, reqs).messages
    requires Revokes(Run(env, EMPTY, reqs).messages[r], grantId)
    ensures var s := Run(env, EMPTY, reqs).messages; !Offends(env, s[c], grantId, s[r].Timestamp())
  {
    RunKeepsEffective(env, reqs, r);
    assert HeldTo(env, Run(env, EMPTY, reqs).messages, r, c);
  }

  // ----- the event log -----------------------------------------------------

  predicate Logged(st: State)
  {
    st.events == st.messages.Keys
  }

  lemma {:induction false} PurgedLogged(st: State, fetched: Store, cids: seq<string>)
    requires Logged(st) && forall i :: 0 <= i < |cids| ==> cids[i] in fetched
    ensures Logged(Purged(st, fetched, cids).0)
    decreases |cids|
  {
    if cids != [] && fetched[cids[0]].StoredWrite? {
      var rest := State(st.messages - {cids[0]}, st.events - {cids[0]}, st.data - {DataKey(fetched[cids[0]].write)});
      PurgedLogged(rest, fetched, cids[1..]);
    }
  }

  lemma AppliedLogged(env: Env, st: State, req: WriteRequest)
    requires Logged(st)
    ensures Logged(Applied(env, st, req).0)
  {
    ReplacedLogged(env, st, req);
  }

  lemma ReplacedLogged(env: Env, st: State, req: WriteRequest)
    requires Logged(st)
    ensures Logged(Replaced(env, st, req).0)
  {
    var existing := Existing(st.messages, req.write.recordId);
    var saved := Saved(env, st, req);
    assert Logged(saved);
    if existing != [] && st.messages[existing[0]].StoredWrite? {
      var initial := InitialArchived(saved, existing[0], st.messages[existing[0]], req.stream.Some?);
      assert Logged(initial);
      PurgedLogged(initial, st.messages, existing[1..]);
    }
  }

  lemma {:induction false} ClearedLogged(env: Env, st: State, d: Delete, fetched: Store, cids: seq<string>)
    requires Logged(st) && forall i :: 0 <= i < |cids| ==> cids[i] in fetched && cids[i] in st.messages
    requires forall i, j :: 0 <= i < j < |cids| ==> cids[i] != cids[j]
    ensures Logged(Cleared(env, st, d, fetched, cids))
    decreases |cids|
  {
    if cids != [] {
      var m := fetched[cids[0]];
      if !Before(m.Timestamp(), d.base.timestamp) {
        ClearedLogged(env, st, d, fetched, cids[1..]);
      } else if m.StoredWrite? {
        ClearedLogged(env, Aged(env, st, cids[0], m), d, fetched, cids[1..]);
      }
    }
  }

  /** Every step keeps the event log and the message store in agreement. */
  lemma StepLogged(env: Env, st: State, req: Request)
    requires Logged(st)
    ensures Logged(Step(env, st, req))
  {
    match req
    case WriteIt(r) => AppliedLogged(env, st, r);
    case DeleteIt(r) =>
      if DeleteApplies(env, st, r) {
        var entries := Existing(st.messages, r.delete.recordId);
        OldestFirstDistinct(st.messages, RecordCids(st.messages, r.delete.recordId), entries);
        ClearedLogged(env, Marked(env, st, r.delete, st.messages[entries[0]].write), r.delete, st.messages, entries);
      }
    case ConfigureIt(r) =>
  }

  /** In every reachable state the event log holds exactly the stored messages. */
  lemma {:induction false} EventLogAgrees(env: Env, reqs: seq<Request>)
    ensures Run(env, EMPTY, reqs).events == Run(env, EMPTY, reqs).messages.Keys
    decreases |reqs|
  {
    if reqs != [] {
      var n := |reqs| - 1;
      EventLogAgrees(env, reqs[..n]);
      StepLogged(env, Run(env, EMPTY, reqs[..n]), reqs[n]);
    }
  }
}
