/** When the handling of an accepted grant revocation runs to its end. */
module Completion {
  import opened Results
  import opened Messages
  import opened RecordQueries
  import opened NodeState
  import opened Writes
  import opened Deletes
  import opened Runs
  import opened Revocation
  import opened Lifecycle
  import opened Ancestry

  // ----- fetching the grant -----------------------------------------------

  /** A grant is fetched from the messages of its own record. */
  lemma FetchGrantSame(env: Env, s: Store, t: Store, grantId: string)
    requires SameRecord(s, t, grantId)
    ensures FetchGrant(env, s, grantId) == FetchGrant(env, t, grantId)
  {
    var q := RecordFilter(grantId);
    forall c ensures (c in CurrentCids(s, q) <==> c in CurrentCids(t, q)) && (c in CurrentCids(s, q) ==> s[c] == t[c]) {
      assert SameAt(s, t, grantId, c);
    }
    assert CurrentCids(s, q) == CurrentCids(t, q);
    var r := Current(s, q);
    assert forall i :: 0 <= i < |r| ==> r[i] in CurrentCids(s, q);
    ByTimeUnique(t, CurrentCids(t, q), r);
  }

  // ----- a revocation is never its own grant ------------------------------

  lemma NotItsOwnParent(env: Env, st: State, req: WriteRequest)
    requires SoundHashes(env) && AllRooted(env, st.messages) && Accepted(env, st, req)
    requires req.write.descriptor.protocol.Some?
    ensures req.write.descriptor.parentId != Some(req.write.recordId)
  {
    if req.write.descriptor.parentId.Some? {
      var d := AcceptedHasOrigin(env, st, req);
      var e := ParentAt(env, st, req);
      if req.write.descriptor.parentId.value == req.write.recordId { OriginUnique(env, req.write.recordId, d, e); }
    }
  }

  // ----- when handling completes ------------------------------------------

  /** No delete is among the messages that the write replaces. */
  predicate NoDeletes(s: Store, recordId: string)
  {
    var r := Existing(s, recordId);
    forall i :: 1 <= i < |r| ==> s[r[i]].StoredWrite?
  }

  /** The revocation's protocol tag is not text, and the grant is for the empty
      protocol: the two comparisons of tag and scope then disagree. */
  predicate OddTag(env: Env, s: Store, w: Write)
  {
    && w.descriptor.parentId.Some? && w.descriptor.tags.Some? && "protocol" in w.descriptor.tags.value
    && !w.descriptor.tags.value["protocol"].TextTag?
    && var grant := FetchGrant(env, s, w.descriptor.parentId.value);
       grant.Some? && grant.value.data.scope.ScopeProtocol() == Some("")
  }

  lemma {:induction false} PurgedDoneIff(st: State, fetched: Store, cids: seq<string>)
    requires forall i :: 0 <= i < |cids| ==> cids[i] in fetched
    ensures Purged(st, fetched, cids).1 <==> forall i :: 0 <= i < |cids| ==> fetched[cids[i]].StoredWrite?
    decreases |cids|
  {
    if cids != [] && fetched[cids[0]].StoredWrite? {
      var rest := State(st.messages - {cids[0]}, st.events - {cids[0]}, st.data - {DataKey(fetched[cids[0]].write)});
      PurgedDoneIff(rest, fetched, cids[1..]);
      assert forall i :: 1 <= i < |cids| ==> cids[i] == cids[1..][i - 1];
    }
  }

  lemma ReplacedDoneIff(env: Env, st: State, req: WriteRequest)
    requires Follows(env, st.messages, req.write)
    ensures Replaced(env, st, req).1 <==> NoDeletes(st.messages, req.write.recordId)
  {
    var s, r := st.messages, Existing(st.messages, req.write.recordId);
    if r != [] {
      var initial := InitialArchived(Saved(env, st, req), r[0], s[r[0]], req.stream.Some?);
      PurgedDoneIff(initial, s, r[1..]);
      TailWrites(s, r);
    }
  }

  lemma TailWrites(s: Store, r: seq<string>)
    requires r != [] && forall i :: 0 <= i < |r| ==> r[i] in s
    ensures (forall i :: 0 <= i < |r[1..]| ==> s[r[1..][i]].StoredWrite?) <==>
            (forall i :: 1 <= i < |r| ==> s[r[i]].StoredWrite?)
  {
    assert forall i :: 1 <= i < |r| ==> r[i] == r[1..][i - 1];
    assert forall i :: 0 <= i < |r[1..]| ==> r[1..][i] == r[i + 1];
  }

  /** The handling of an accepted revocation runs to its end exactly when no delete
      is among the messages it replaces and its protocol tag is not an odd one. In
      no reachable state is a revocation its own grant: see NotItsOwnParent. */
  lemma RevocationCompletesIff(env: Env, st: State, req: WriteRequest)
    requires SoundHashes(env) && WellKeyed(env, st.messages) && Accepted(env, st, req)
    requires IsRevocation(req.write) && req.write.descriptor.parentId != Some(req.write.recordId)
    ensures Applied(env, st, req).1 <==>
            NoDeletes(st.messages, req.write.recordId) && !OddTag(env, st.messages, req.write)
  {
    var s, w, after := st.messages, req.write, Replaced(env, st, req).0.messages;
    ReplacedDoneIff(env, st, req);
    AcceptedIsNew(env, st, req);
    OtherRecords(env, st, req, w.descriptor.parentId.value);
    FetchGrantSame(env, s, after, w.descriptor.parentId.value);
    TagsAgree(env, s, w);
  }

  /** A verified revocation can revoke unless its tag is odd. */
  lemma TagsAgree(env: Env, s: Store, w: Write)
    requires IsRevocation(w) && RevocationVerified(env, s, w)
    ensures CanRevoke(env, s, w) <==> !OddTag(env, s, w)
  {
  }

  /** If the step is an accepted revocation, nothing stands in its way. */
  predicate Unhindered(env: Env, st: State, req: Request)
  {
    req.WriteIt? && Accepted(env, st, req.write) && IsRevocation(req.write.write) ==>
      NoDeletes(st.messages, req.write.write.recordId) && !OddTag(env, st.messages, req.write.write)
  }

  lemma CompletesIffUnhindered(env: Env, reqs: seq<Request>, req: Request)
    requires SoundHashes(env)
    ensures Completes(env, Run(env, EMPTY, reqs), req) <==> Unhindered(env, Run(env, EMPTY, reqs), req)
  {
    var st := Run(env, EMPTY, reqs);
    RunKeyed(env, reqs);
    RunRooted(env, reqs);
    if req.WriteIt? && Accepted(env, st, req.write) && IsRevocation(req.write.write) {
      NotItsOwnParent(env, st, req.write);
      RevocationCompletesIff(env, st, req.write);
    }
  }

  /** A revocation is handled to its end whenever a run brings it exactly when it
      meets, in the states it arrives in, conditions that can be checked
      beforehand. So the hypothesis of NoWriteAfterRevocation is about what is
      stored, not about what handling it does. */
  lemma IsCompletedIff(env: Env, reqs: seq<Request>, r: string)
    requires SoundHashes(env)
    ensures IsCompleted(env, reqs, r) <==>
            forall i :: 0 <= i < |reqs| && Brings(env, reqs[i], r) ==>
              Unhindered(env, Run(env, EMPTY, reqs[..i]), reqs[i])
  {
    forall i | 0 <= i < |reqs|
      ensures Completes(env, Run(env, EMPTY, reqs[..i]), reqs[i]) <==>
              Unhindered(env, Run(env, EMPTY, reqs[..i]), reqs[i])
    {
      CompletesIffUnhindered(env, reqs[..i], reqs[i]);
    }
  }
}
