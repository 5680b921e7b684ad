/** Runs of a node, and what each step leaves of the messages before it. */
module Runs {
  import opened Text
  import opened Order
  import opened Results
  import opened Timestamps
  import opened Messages
  import opened RecordQueries
  import opened NodeState
  import opened Writes
  import opened Deletes

  // ----- the effect of a step on one message ------------------------------

  /** A message that was there before: unchanged, or a write now archived. */
  predicate Kept(before: Store, after: Store, c: string)
    requires c in after
  {
    c in before && (after[c] == before[c] || (before[c].StoredWrite? && after[c] == Archived(before[c])))
  }

  lemma LastIsNewest(s: Store, recordId: string, c: string)
    requires c in s && InRecord(s[c], recordId)
    ensures var existing := Existing(s, recordId);
            && existing != []
            && var last := existing[|existing| - 1];
               c == last || Older(s[c], c, s[last], last)
  {
    var existing := Existing(s, recordId);
    assert c in Elements(existing);
    var i :| 0 <= i < |existing| && existing[i] == c;
  }

  lemma StoredUnderWriteCid(env: Env, s: Store, w: Write)
    requires SoundHashes(env) && WellKeyed(env, s) && env.writeCid(w) in s
    ensures s[env.writeCid(w)].StoredWrite? && Body(s[env.writeCid(w)].write) == Body(w)
  {
    var m := s[env.writeCid(w)];
    assert CidOf(env, m) == env.writeCid(w);
    match m
    case StoredWrite(v, _) => assert WriteHash(env, v, w);
    case StoredDelete(d, _) => SomeConfigure(env, w, d);
    case StoredConfigure(c) => SomeDelete(env, w, c);
  }

  // Each pair of kinds is apart, whatever the third message is.

  lemma SomeConfigure(env: Env, w: Write, d: Delete)
    requires SoundHashes(env)
    ensures env.writeCid(w) != env.deleteCid(d)
  {
    var c := Configure(d.base, "", false, "", d.authorization);
    assert KindsApart(env, w, d, c);
  }

  lemma SomeDelete(env: Env, w: Write, c: Configure)
    requires SoundHashes(env)
    ensures env.writeCid(w) != env.configureCid(c)
  {
    var d := Delete(c.base, "", false, c.authorization);
    assert KindsApart(env, w, d, c);
  }

  lemma SomeWrite(env: Env, d: Delete, c: Configure)
    requires SoundHashes(env)
    ensures env.deleteCid(d) != env.configureCid(c)
  {
    var descriptor := WriteDescriptor(d.base, None, None, None, None, None, None, "", 0, "",
                                      d.base.timestamp, None, None);
    var w := Write(descriptor, d.authorization, "", None, None, None);
    assert KindsApart(env, w, d, c);
  }

  /** An accepted write is not stored already. */
  lemma AcceptedIsNew(env: Env, st: State, req: WriteRequest)
    requires SoundHashes(env) && WellKeyed(env, st.messages) && Accepted(env, st, req)
    ensures env.writeCid(req.write) !in st.messages
  {
    var s, w, c := st.messages, req.write, env.writeCid(req.write);
    if c in s {
      StoredUnderWriteCid(env, s, w);
      assert Body(w).recordId == w.recordId && Body(w).descriptor == w.descriptor;
      assert Body(s[c].write).recordId == s[c].write.recordId && Body(s[c].write).descriptor == s[c].write.descriptor;
      LastIsNewest(s, w.recordId, c);
      NotOlderThanItself(s, w.recordId, c);
    }
  }

  lemma NotOlderThanItself(s: Store, recordId: string, c: string)
    requires c in s && InRecord(s[c], recordId)
    ensures var existing := Existing(s, recordId);
            existing != [] && !Older(s[existing[|existing| - 1]], existing[|existing| - 1], s[c], c)
  {
    LastIsNewest(s, recordId, c);
    var existing := Existing(s, recordId);
    var last := existing[|existing| - 1];
    if c == last { LessIrreflexive(c); } else { OlderTotal(s[c], c, s[last], last); }
  }

  /** A message is the new write, or was there before. */
  predicate WriteOutcome(env: Env, st: State, req: WriteRequest, after: Store, c: string)
    requires c in after
  {
    if c == env.writeCid(req.write) then after[c] == StoredWrite(WithData(env, st, req), BornArchived(env, req))
    else Kept(st.messages, after, c)
  }

  /** After a write, a message is the write itself or was there before. */
  lemma WriteEffect(env: Env, st: State, req: WriteRequest, c: string)
    requires env.writeCid(req.write) !in st.messages
    requires c in Applied(env, st, req).0.messages
    ensures WriteOutcome(env, st, req, Applied(env, st, req).0.messages, c)
  {
    ReplacedMessage(env, st, req, c);
  }

  lemma {:induction false} ClearedEffect(env: Env, st: State, d: Delete, fetched: Store, cids: seq<string>, c: string)
    requires forall i :: 0 <= i < |cids| ==> cids[i] in fetched
    requires c in Cleared(env, st, d, fetched, cids).messages
    ensures var after := Cleared(env, st, d, fetched, cids).messages;
            || (c in st.messages && after[c] == st.messages[c])
            || (c in cids && fetched[c].StoredWrite? && after[c] == Archived(fetched[c]))
    decreases |cids|
  {
    if cids != [] {
      var m := fetched[cids[0]];
      if !Before(m.Timestamp(), d.base.timestamp) {
        ClearedEffect(env, st, d, fetched, cids[1..], c);
      } else if m.StoredWrite? {
        ClearedEffect(env, Aged(env, st, cids[0], m), d, fetched, cids[1..], c);
      }
    }
  }

  /** After a delete, a message is the delete itself or was there before. */
  lemma DeleteEffect(env: Env, st: State, req: DeleteRequest, c: string)
    requires DeleteApplies(env, st, req)
    requires c in DeleteStep(env, st, req).messages && c != env.deleteCid(req.delete)
    ensures Kept(st.messages, DeleteStep(env, st, req).messages, c)
  {
    var d := req.delete;
    var entries := Existing(st.messages, d.recordId);
    ClearedEffect(env, Marked(env, st, d, st.messages[entries[0]].write), d, st.messages, entries, c);
  }

  // ----- runs --------------------------------------------------------------

  function Run(env: Env, st: State, reqs: seq<Request>): State
    decreases |reqs|
  {
    if reqs == [] then st else Step(env, Run(env, st, reqs[..|reqs| - 1]), reqs[|reqs| - 1])
  }

  // ----- the effect of any step -------------------------------------------

  /** The message that a step brings into the store. */
  predicate Introduced(env: Env, st: State, req: Request, m: Stored)
  {
    match req
    case WriteIt(r) => Accepted(env, st, r) && m == StoredWrite(WithData(env, st, r), BornArchived(env, r))
    case DeleteIt(r) => m.StoredDelete? && m.delete == r.delete
    case ConfigureIt(r) => m == StoredConfigure(r.configure)
  }

  /** A message after a step was there before it, or is the step's own. */
  predicate Explained(env: Env, st: State, req: Request, after: Store, c: string)
    requires c in after
  {
    Kept(st.messages, after, c) || (Introduced(env, st, req, after[c]) && CidOf(env, after[c]) == c)
  }

  lemma {:induction false} ClearedKeeps(env: Env, st: State, d: Delete, fetched: Store, cids: seq<string>, c: string)
    requires forall i :: 0 <= i < |cids| ==> cids[i] in fetched
    requires c in st.messages && c !in cids
    ensures c in Cleared(env, st, d, fetched, cids).messages
         && Cleared(env, st, d, fetched, cids).messages[c] == st.messages[c]
    decreases |cids|
  {
    if cids != [] {
      var m := fetched[cids[0]];
      if !Before(m.Timestamp(), d.base.timestamp) {
        ClearedKeeps(env, st, d, fetched, cids[1..], c);
      } else if m.StoredWrite? {
        ClearedKeeps(env, Aged(env, st, cids[0], m), d, fetched, cids[1..], c);
      }
    }
  }

  lemma StoredUnderDeleteCid(env: Env, s: Store, d: Delete)
    requires SoundHashes(env) && WellKeyed(env, s) && env.deleteCid(d) in s
    ensures s[env.deleteCid(d)].StoredDelete? && s[env.deleteCid(d)].delete == d
  {
    var m := s[env.deleteCid(d)];
    assert CidOf(env, m) == env.deleteCid(d);
    match m
    case StoredWrite(w, _) => SomeConfigure(env, w, d);
    case StoredDelete(e, _) => assert DeleteHash(env, e, d);
    case StoredConfigure(c) => SomeWrite(env, d, c);
  }

  lemma StoredUnderConfigureCid(env: Env, s: Store, c: Configure)
    requires SoundHashes(env) && WellKeyed(env, s) && env.configureCid(c) in s
    ensures s[env.configureCid(c)] == StoredConfigure(c)
  {
    var m := s[env.configureCid(c)];
    assert CidOf(env, m) == env.configureCid(c);
    match m
    case StoredWrite(w, _) => SomeDelete(env, w, c);
    case StoredDelete(d, _) => SomeWrite(env, d, c);
    case StoredConfigure(e) => assert ConfigureHash(env, e, c);
  }

  /** An applied delete is stored, whatever else it removes. */
  lemma DeleteStays(env: Env, st: State, req: DeleteRequest)
    requires SoundHashes(env) && WellKeyed(env, st.messages) && DeleteApplies(env, st, req)
    requires env.deleteCid(req.delete) in DeleteStep(env, st, req).messages
    ensures var m := DeleteStep(env, st, req).messages[env.deleteCid(req.delete)];
            m.StoredDelete? && m.delete == req.delete
  {
    var d, c := req.delete, env.deleteCid(req.delete);
    var entries := Existing(st.messages, d.recordId);
    ClearedEffect(env, Marked(env, st, d, st.messages[entries[0]].write), d, st.messages, entries, c);
    if c in st.messages { StoredUnderDeleteCid(env, st.messages, d); }
  }

  lemma WriteExplained(env: Env, st: State, req: WriteRequest, c: string)
    requires SoundHashes(env) && WellKeyed(env, st.messages) && c in WriteStep(env, st, req).messages
    ensures Explained(env, st, WriteIt(req), WriteStep(env, st, req).messages, c)
  {
    if Accepted(env, st, req) {
      AcceptedIsNew(env, st, req);
      WriteEffect(env, st, req, c);
      WrittenCid(env, st, req);
    }
  }

  lemma WrittenCid(env: Env, st: State, req: WriteRequest)
    requires SoundHashes(env)
    ensures env.writeCid(WithData(env, st, req)) == env.writeCid(req.write)
  {
    var v, w := WithData(env, st, req), req.write;
    assert WriteHash(env, w, v) && WriteHash(env, v, w);
  }

  lemma DeleteExplained(env: Env, st: State, req: DeleteRequest, c: string)
    requires SoundHashes(env) && WellKeyed(env, st.messages) && c in DeleteStep(env, st, req).messages
    ensures Explained(env, st, DeleteIt(req), DeleteStep(env, st, req).messages, c)
  {
    if DeleteApplies(env, st, req) {
      if c == env.deleteCid(req.delete) { DeleteStays(env, st, req); } else { DeleteEffect(env, st, req, c); }
    }
  }

  /** Every step explains every message it leaves. */
  lemma StepExplained(env: Env, st: State, req: Request, c: string)
    requires SoundHashes(env) && WellKeyed(env, st.messages) && c in Step(env, st, req).messages
    ensures Explained(env, st, req, Step(env, st, req).messages, c)
  {
    match req
    case WriteIt(r) => WriteExplained(env, st, r, c);
    case DeleteIt(r) => DeleteExplained(env, st, r, c);
    case ConfigureIt(r) =>
  }

  // ----- messages stay under their own CIDs -------------------------------

  lemma CidText(env: Env, m: Stored)
    requires SoundHashes(env)
    ensures IsCid(CidOf(env, m))
  {
    match m
    case StoredWrite(w, _) => assert WriteHash(env, w, w);
    case StoredDelete(d, _) => assert DeleteHash(env, d, d);
    case StoredConfigure(c) => assert ConfigureHash(env, c, c);
  }

  lemma StepKeyed(env: Env, st: State, req: Request)
    requires SoundHashes(env) && WellKeyed(env, st.messages)
    ensures WellKeyed(env, Step(env, st, req).messages)
  {
    var after := Step(env, st, req).messages;
    forall c | c in after ensures CidOf(env, after[c]) == c && IsCid(c) {
      StepExplained(env, st, req, c);
      CidText(env, after[c]);
    }
  }

  lemma {:induction false} RunKeyed(env: Env, reqs: seq<Request>)
    requires SoundHashes(env)
    ensures WellKeyed(env, Run(env, EMPTY, reqs).messages)
    decreases |reqs|
  {
    if reqs != [] {
      var n := |reqs| - 1;
      RunKeyed(env, reqs[..n]);
      StepKeyed(env, Run(env, EMPTY, reqs[..n]), reqs[n]);
    }
  }

  // ----- dates -------------------------------------------------------------

  /** A stored write is a records write, is not dated before its creation, and is
      dated at its creation if it is initial. */
  predicate DatedAt(env: Env, m: Stored)
  {
    m.StoredWrite? ==>
      && m.write.descriptor.base.interface == RecordsInterface && m.write.descriptor.base.verb == WriteMethod
      && !Before(m.Timestamp(), m.write.descriptor.dateCreated)
      && (IsInitial(env, m.write) ==> m.Timestamp() == m.write.descriptor.dateCreated)
  }

  ghost predicate Dated(env: Env, s: Store)
  {
    forall c :: c in s ==> DatedAt(env, s[c])
  }

  lemma OlderNotAfter(a: Stored, ca: string, b: Stored, cb: string)
    requires Older(a, ca, b, cb)
    ensures !Before(b.Timestamp(), a.Timestamp())
  {
  }

  /** An accepted write is not dated before its record's creation. */
  lemma AcceptedDated(env: Env, st: State, req: WriteRequest)
    requires Dated(env, st.messages) && Accepted(env, st, req)
    ensures DatedAt(env, StoredWrite(WithData(env, st, req), BornArchived(env, req)))
  {
    var s, w := st.messages, req.write;
    var existing := Existing(s, w.recordId);
    var v := WithData(env, st, req);
    assert Body(v).descriptor == Body(w).descriptor && Body(v).recordId == w.recordId;
    assert Body(v).authorization == w.authorization;
    if existing != [] {
      var first, last := existing[0], existing[|existing| - 1];
      assert DatedAt(env, s[first]);
      if |existing| > 1 { OlderNotAfter(s[first], first, s[last], last); }
      OlderNotAfter(s[last], last, StoredWrite(w, false), env.writeCid(w));
    }
  }

  lemma StepDated(env: Env, st: State, req: Request)
    requires SoundHashes(env) && WellKeyed(env, st.messages) && Dated(env, st.messages)
    ensures Dated(env, Step(env, st, req).messages)
  {
    var after := Step(env, st, req).messages;
    forall c | c in after ensures DatedAt(env, after[c]) {
      StepExplained(env, st, req, c);
      if !Kept(st.messages, after, c) && req.WriteIt? { AcceptedDated(env, st, req.write); }
    }
  }
}
