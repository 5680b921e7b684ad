/** Deletion: what a delete leaves of its record, and that it is terminal. */
module Deletion {
  import opened Order
  import opened Results
  import opened Timestamps
  import opened Queries
  import opened Messages
  import opened Filters
  import opened RecordQueries
  import opened Visibility
  import opened QueryPaths
  import opened NodeState
  import opened Writes
  import opened Deletes
  import opened Runs
  import opened Lifecycle

  // ----- what a delete leaves ----------------------------------------------

  /** The delete is strictly later than the record's latest message. */
  predicate StrictlyLater(s: Store, d: Delete)
  {
    var r := Existing(s, d.recordId);
    r != [] && Before(s[r[|r| - 1]].Timestamp(), d.base.timestamp)
  }

  /** A write that is not strictly older than the delete is left as it is. */
  lemma {:induction false} ClearedSkips(env: Env, st: State, d: Delete, fetched: Store, cids: seq<string>, c: string)
    requires forall i :: 0 <= i < |cids| ==> cids[i] in fetched
    requires c in st.messages && c in fetched && !Before(fetched[c].Timestamp(), d.base.timestamp)
    ensures c in Cleared(env, st, d, fetched, cids).messages
         && Cleared(env, st, d, fetched, cids).messages[c] == st.messages[c]
    decreases |cids|
  {
    if cids != [] {
      var m := fetched[cids[0]];
      if !Before(m.Timestamp(), d.base.timestamp) {
        ClearedSkips(env, st, d, fetched, cids[1..], c);
      } else if m.StoredWrite? {
        ClearedSkips(env, Aged(env, st, cids[0], m), d, fetched, cids[1..], c);
      }
    }
  }

  /** Every write before the first delete in the list that is strictly older is
      archived or removed. */
  lemma {:induction false} ClearedArchives(env: Env, st: State, d: Delete, fetched: Store, cids: seq<string>, k: nat)
    requires forall i :: 0 <= i < |cids| ==>
      cids[i] in fetched && Before(fetched[cids[i]].Timestamp(), d.base.timestamp)
    requires forall i, j :: 0 <= i < j < |cids| ==> cids[i] != cids[j]
    requires k < |cids| && forall i :: 0 <= i <= k ==> fetched[cids[i]].StoredWrite?
    ensures var after := Cleared(env, st, d, fetched, cids).messages;
            cids[k] in after ==> after[cids[k]] == Archived(fetched[cids[k]])
    decreases |cids|
  {
    var rest := Aged(env, st, cids[0], fetched[cids[0]]);
    if k == 0 {
      if cids[0] in Cleared(env, rest, d, fetched, cids[1..]).messages {
        ClearedEffect(env, rest, d, fetched, cids[1..], cids[0]);
      }
    } else {
      ClearedArchives(env, rest, d, fetched, cids[1..], k - 1);
    }
  }

  lemma EntriesBefore(s: Store, d: Delete, i: nat)
    requires StrictlyLater(s, d) && i < |Existing(s, d.recordId)|
    ensures Before(s[Existing(s, d.recordId)[i]].Timestamp(), d.base.timestamp)
  {
    var r := Existing(s, d.recordId);
    var last := r[|r| - 1];
    if i < |r| - 1 {
      assert Older(s[r[i]], r[i], s[last], last);
      OlderNotAfter(s[r[i]], r[i], s[last], last);
      BeforeChain(s[r[i]].Timestamp(), s[last].Timestamp(), d.base.timestamp);
    }
  }

  lemma BeforeChain(a: Instant, b: Instant, c: Instant)
    requires !Before(b, a) && Before(b, c)
    ensures Before(a, c)
  {
  }

  // ----- deleted records ---------------------------------------------------

  /** The record's latest message is a delete and none of its writes is current. */
  ghost predicate IsDeleted(s: Store, recordId: string)
  {
    exists c :: DeletedBy(s, recordId, c)
  }

  ghost predicate DeletedBy(s: Store, recordId: string, c: string)
  {
    && c in s && s[c].StoredDelete? && s[c].delete.recordId == recordId
    && forall d :: d in s && InRecord(s[d], recordId) && d != c ==> Gone(s, d, c)
  }

  ghost predicate Gone(s: Store, d: string, c: string)
  {
    d in s && c in s && Older(s[d], d, s[c], c) && (s[d].StoredWrite? ==> s[d].archived)
  }

  lemma DeletedLast(s: Store, recordId: string, c: string)
    requires DeletedBy(s, recordId, c)
    ensures var r := Existing(s, recordId); r != [] && r[|r| - 1] == c
  {
    LastIsNewest(s, recordId, c);
    var r := Existing(s, recordId);
    var last := r[|r| - 1];
    if last != c {
      assert Gone(s, last, c);
      OlderTotal(s[last], last, s[c], c);
    }
  }

  /** Every write to a deleted record is rejected. */
  lemma DeletedRejectsWrite(env: Env, st: State, req: WriteRequest)
    requires IsDeleted(st.messages, req.write.recordId)
    ensures !Follows(env, st.messages, req.write)
  {
    var c :| DeletedBy(st.messages, req.write.recordId, c);
    DeletedLast(st.messages, req.write.recordId, c);
  }

  /** Every delete of a deleted record, pruning or not, is rejected. */
  lemma DeletedRejectsDelete(st: State, req: DeleteRequest)
    requires IsDeleted(st.messages, req.delete.recordId)
    ensures !DeleteAdmitted(st, req)
  {
    var s, id := st.messages, req.delete.recordId;
    var c :| DeletedBy(s, id, c);
    var r := Unarchived(s, id);
    if r != [] && r[0] != c { assert Gone(s, r[0], c); }
  }

  /** A current write is not of a deleted record. */
  lemma CurrentNotDeleted(s: Store, recordId: string, c: string)
    requires IsDeleted(s, recordId) && c in s && IsCurrent(s[c])
    ensures !InRecord(s[c], recordId)
  {
    var d :| DeletedBy(s, recordId, d);
    assert InRecord(s[c], recordId) && c != d ==> Gone(s, c, d);
  }

  /** No records query returns a deleted record: by whomever, for published records
      or not, whatever its filter, sort, limit and cursor, under either strategy. */
  lemma DeletedNotFound(s: Store, recordId: string, q: RecordsQuery, owner: string, c: string)
    requires Addressed(s) && IsDeleted(s, recordId) && c in s
    ensures IsAnswer(s, q, owner, c) ==> !InRecord(s[c], recordId)
  {
    AnswersAreCurrent(s, q, owner, c);
    if IsCurrent(s[c]) { CurrentNotDeleted(s, recordId, c); }
  }

  /** Nor does any query that is built from filters for current writes. */
  lemma DeletedNotSelected(s: Store, recordId: string, filters: seq<RecordsFilter>, sort: Sort,
                           page: Option<Pagination>, c: string)
    requires Addressed(s) && IsDeleted(s, recordId) && filters != [] && c in s
    ensures Returned(s, Query(BuildSets(filters, Some(WriteMethod), false), sort, page), c) ==>
      !InRecord(s[c], recordId)
  {
    var sets := BuildSets(filters, Some(WriteMethod), false);
    ReturnedOnly(s, Query(sets, sort, page), c);
    SomeSetAccepts(filters, sets, s[c]);
    if IsCurrent(s[c]) { CurrentNotDeleted(s, recordId, c); }
  }

  // ----- deletion is terminal ----------------------------------------------

  lemma {:induction false} PurgedKeepsDeletes(st: State, fetched: Store, cids: seq<string>, c: string)
    requires forall i :: 0 <= i < |cids| ==> cids[i] in fetched
    requires c in st.messages && c in fetched && fetched[c].StoredDelete?
    ensures c in Purged(st, fetched, cids).0.messages && Purged(st, fetched, cids).0.messages[c] == st.messages[c]
    decreases |cids|
  {
    if cids != [] && fetched[cids[0]].StoredWrite? {
      var rest := State(st.messages - {cids[0]}, st.events - {cids[0]}, st.data - {DataKey(fetched[cids[0]].write)});
      PurgedKeepsDeletes(rest, fetched, cids[1..], c);
    }
  }

  lemma WriteKeepsDeletes(env: Env, st: State, req: WriteRequest, c: string)
    requires env.writeCid(req.write) !in st.messages
    requires c in st.messages && st.messages[c].StoredDelete?
    ensures c in Applied(env, st, req).0.messages && Applied(env, st, req).0.messages[c] == st.messages[c]
  {
    var existing := Existing(st.messages, req.write.recordId);
    var saved := Saved(env, st, req);
    if existing != [] && st.messages[existing[0]].StoredWrite? {
      var initial := InitialArchived(saved, existing[0], st.messages[existing[0]], req.stream.Some?);
      PurgedKeepsDeletes(initial, st.messages, existing[1..], c);
    }
  }

  lemma {:induction false} ClearedKeepsDeletes(env: Env, st: State, d: Delete, fetched: Store, cids: seq<string>,
                                               c: string)
    requires forall i :: 0 <= i < |cids| ==> cids[i] in fetched
    requires c in st.messages && (c in fetched ==> fetched[c].StoredDelete?)
    ensures c in Cleared(env, st, d, fetched, cids).messages
         && Cleared(env, st, d, fetched, cids).messages[c] == st.messages[c]
    decreases |cids|
  {
    if cids != [] {
      var m := fetched[cids[0]];
      if !Before(m.Timestamp(), d.base.timestamp) {
        ClearedKeepsDeletes(env, st, d, fetched, cids[1..], c);
      } else if m.StoredWrite? {
        ClearedKeepsDeletes(env, Aged(env, st, cids[0], m), d, fetched, cids[1..], c);
      }
    }
  }

  /** No step on another record removes or changes a stored delete. */
  lemma DeletesStay(env: Env, st: State, req: Request, c: string)
    requires SoundHashes(env) && WellKeyed(env, st.messages)
    requires c in st.messages && st.messages[c].StoredDelete?
    requires req.DeleteIt? ==> req.delete.delete.recordId != st.messages[c].delete.recordId
    ensures c in Step(env, st, req).messages && Step(env, st, req).messages[c] == st.messages[c]
  {
    match req
    case WriteIt(r) =>
      if Accepted(env, st, r) {
        AcceptedIsNew(env, st, r);
        WriteKeepsDeletes(env, st, r, c);
      }
    case DeleteIt(r) =>
      if DeleteApplies(env, st, r) {
        if c == env.deleteCid(r.delete) { StoredUnderDeleteCid(env, st.messages, r.delete); }
        var entries := Existing(st.messages, r.delete.recordId);
        var marked := Marked(env, st, r.delete, st.messages[entries[0]].write);
        ClearedKeepsDeletes(env, marked, r.delete, st.messages, entries, c);
      }
    case ConfigureIt(r) =>
      assert CidOf(env, st.messages[c]) == c;
      SomeWrite(env, st.messages[c].delete, r.configure);
  }

  predicate Targets(req: Request, recordId: string)
  {
    (req.WriteIt? && req.write.write.recordId == recordId) || (req.DeleteIt? && req.delete.delete.recordId == recordId)
  }

  /** A step aimed at a deleted record changes nothing at all. */
  lemma DeletedRejects(env: Env, st: State, req: Request, recordId: string)
    requires IsDeleted(st.messages, recordId) && Targets(req, recordId)
    ensures Step(env, st, req) == st
  {
    if req.WriteIt? {
      DeletedRejectsWrite(env, st, req.write);
    } else {
      DeletedRejectsDelete(st, req.delete);
    }
  }

  lemma IntroducedInTarget(env: Env, st: State, req: Request, m: Stored, recordId: string)
    requires Introduced(env, st, req, m) && InRecord(m, recordId)
    ensures Targets(req, recordId)
  {
    if req.WriteIt? { NewMessageOf(env, st, req.write); }
  }

  /** Deletion survives every step. */
  lemma DeletedStays(env: Env, st: State, req: Request, recordId: string, c: string)
    requires SoundHashes(env) && WellKeyed(env, st.messages) && DeletedBy(st.messages, recordId, c)
    ensures DeletedBy(Step(env, st, req).messages, recordId, c)
  {
    if Targets(req, recordId) {
      DeletedRejects(env, st, req, recordId);
    } else {
      DeletesStay(env, st, req, c);
      var s, after := st.messages, Step(env, st, req).messages;
      forall d | d in after && InRecord(after[d], recordId) && d != c ensures Gone(after, d, c) {
        StepExplained(env, st, req, d);
        if !Kept(s, after, d) { IntroducedInTarget(env, st, req, after[d], recordId); }
        assert Gone(s, d, c);
      }
    }
  }

  /** Deletion is terminal: in every later state of any run the record is still
      deleted, and every message for it is rejected without effect. */
  lemma DeletionIsTerminal(env: Env, st: State, reqs: seq<Request>, recordId: string)
    requires SoundHashes(env) && WellKeyed(env, st.messages) && IsDeleted(st.messages, recordId)
    ensures WellKeyed(env, Run(env, st, reqs).messages) && IsDeleted(Run(env, st, reqs).messages, recordId)
    ensures forall req :: Targets(req, recordId) ==> Step(env, Run(env, st, reqs), req) == Run(env, st, reqs)
  {
    RunStaysDeleted(env, st, reqs, recordId);
    forall req | Targets(req, recordId) ensures Step(env, Run(env, st, reqs), req) == Run(env, st, reqs) {
      DeletedRejects(env, Run(env, st, reqs), req, recordId);
    }
  }

  lemma {:induction false} RunStaysDeleted(env: Env, st: State, reqs: seq<Request>, recordId: string)
    requires SoundHashes(env) && WellKeyed(env, st.messages) && IsDeleted(st.messages, recordId)
    ensures WellKeyed(env, Run(env, st, reqs).messages) && IsDeleted(Run(env, st, reqs).messages, recordId)
    decreases |reqs|
  {
    if reqs != [] {
      var n := |reqs| - 1;
      RunStaysDeleted(env, st, reqs[..n], recordId);
      var before := Run(env, st, reqs[..n]);
      var c :| DeletedBy(before.messages, recordId, c);
      StepKeyed(env, before, reqs[n]);
      DeletedStays(env, before, reqs[n], recordId, c);
    }
  }

  // ----- when a delete takes effect ---------------------------------------

  lemma DeleteStored(env: Env, st: State, req: DeleteRequest)
    requires SoundHashes(env) && WellKeyed(env, st.messages) && DeleteApplies(env, st, req)
    ensures var c, after := env.deleteCid(req.delete), DeleteStep(env, st, req).messages;
            c in after && after[c].StoredDelete? && after[c].delete == req.delete
  {
    var d, c := req.delete, env.deleteCid(req.delete);
    var entries := Existing(st.messages, d.recordId);
    if c in st.messages { StoredUnderDeleteCid(env, st.messages, d); }
    ClearedKeepsDeletes(env, Marked(env, st, d, st.messages[entries[0]].write), d, st.messages, entries, c);
  }

  lemma OlderEntryGone(env: Env, st: State, req: DeleteRequest, c: string)
    requires DeleteApplies(env, st, req) && StrictlyLater(st.messages, req.delete)
    requires c in DeleteStep(env, st, req).messages && c != env.deleteCid(req.delete)
    requires InRecord(DeleteStep(env, st, req).messages[c], req.delete.recordId)
    ensures var m := DeleteStep(env, st, req).messages[c];
            Before(m.Timestamp(), req.delete.base.timestamp) && (m.StoredWrite? ==> m.archived)
  {
    var s, d, after := st.messages, req.delete, DeleteStep(env, st, req).messages;
    DeleteEffect(env, st, req, c);
    var k := PositionOf(s, d.recordId, c);
    EntriesBefore(s, d, k);
    if after[c].StoredWrite? { OlderWriteArchived(env, st, d, k); }
  }

  lemma PositionOf(s: Store, recordId: string, c: string) returns (k: nat)
    requires c in s && InRecord(s[c], recordId)
    ensures k < |Existing(s, recordId)| && Existing(s, recordId)[k] == c
  {
    assert c in Elements(Existing(s, recordId));
    k :| 0 <= k < |Existing(s, recordId)| && Existing(s, recordId)[k] == c;
  }

  lemma OlderWriteArchived(env: Env, st: State, d: Delete, k: nat)
    requires TaskAdmitted(env, st, d) && StrictlyLater(st.messages, d) && k < |Existing(st.messages, d.recordId)|
    requires st.messages[Existing(st.messages, d.recordId)[k]].StoredWrite?
    ensures var c, after := Existing(st.messages, d.recordId)[k], TaskDone(env, st, d).messages;
            c in after ==> after[c].StoredWrite? && after[c].archived
  {
    var s := st.messages;
    var entries := Existing(s, d.recordId);
    OldestFirstDistinct(s, RecordCids(s, d.recordId), entries);
    forall i | 0 <= i < |entries| ensures Before(s[entries[i]].Timestamp(), d.base.timestamp) {
      EntriesBefore(s, d, i);
    }
    assert k == 0 || k == 1;
    ClearedArchives(env, Marked(env, st, d, s[entries[0]].write), d, s, entries, k);
  }

  predicate ClearedBefore(m: Stored, d: Delete)
  {
    Before(m.Timestamp(), d.base.timestamp) && (m.StoredWrite? ==> m.archived)
  }

  lemma AllGone(s: Store, d: Delete, c: string)
    requires c in s && s[c].StoredDelete? && s[c].delete == d
    requires forall x :: x in s && InRecord(s[x], d.recordId) && x != c ==> ClearedBefore(s[x], d)
    ensures DeletedBy(s, d.recordId, c)
  {
    forall x | x in s && InRecord(s[x], d.recordId) && x != c ensures Gone(s, x, c) {
      assert ClearedBefore(s[x], d);
    }
  }

  /** A delete that is strictly later than the record's latest message deletes it. */
  lemma StrictDeleteDeletes(env: Env, st: State, req: DeleteRequest)
    requires SoundHashes(env) && WellKeyed(env, st.messages) && DeleteApplies(env, st, req)
    requires StrictlyLater(st.messages, req.delete)
    ensures DeletedBy(DeleteStep(env, st, req).messages, req.delete.recordId, env.deleteCid(req.delete))
  {
    var c, after := env.deleteCid(req.delete), DeleteStep(env, st, req).messages;
    DeleteStored(env, st, req);
    forall d | d in after && InRecord(after[d], req.delete.recordId) && d != c
      ensures ClearedBefore(after[d], req.delete) {
      OlderEntryGone(env, st, req, d);
    }
    AllGone(after, req.delete, c);
  }

  /** In a tidy store, the record's last message is the write to be deleted. */
  lemma TidyLatest(env: Env, st: State, req: DeleteRequest)
    requires TidyRecord(env, st.messages, req.delete.recordId) && DeleteApplies(env, st, req)
    ensures var r := Existing(st.messages, req.delete.recordId);
            r != [] && st.messages[r[|r| - 1]].StoredWrite? && !st.messages[r[|r| - 1]].archived
  {
    var s, id := st.messages, req.delete.recordId;
    var r, u := Existing(s, id), Unarchived(s, id);
    assert u[0] in UnarchivedCids(s, id);
    assert u[0] in RecordCids(s, id) && u[0] in Elements(r);
    var k :| 0 <= k < |r| && r[k] == u[0];
  }

  /** A delete of a tidy record that is acknowledged is applied. */
  lemma AcknowledgedIsApplied(env: Env, st: State, req: DeleteRequest)
    requires TidyRecord(env, st.messages, req.delete.recordId) && DeleteAdmitted(st, req)
    ensures DeleteApplies(env, st, req)
  {
    var s, id := st.messages, req.delete.recordId;
    var r, u := Existing(s, id), Unarchived(s, id);
    assert u[0] in UnarchivedCids(s, id);
    assert u[0] in RecordCids(s, id) && u[0] in Elements(r);
    assert r[|r| - 1] == u[0];
  }

  /** In a tidy store, an applied delete deletes its record exactly when it is
      strictly later than the record's latest message. */
  lemma DeletesIff(env: Env, st: State, req: DeleteRequest)
    requires SoundHashes(env) && WellKeyed(env, st.messages) && DeleteApplies(env, st, req)
    requires TidyRecord(env, st.messages, req.delete.recordId)
    ensures IsDeleted(DeleteStep(env, st, req).messages, req.delete.recordId) <==>
            StrictlyLater(st.messages, req.delete)
  {
    var s, d, after := st.messages, req.delete, DeleteStep(env, st, req).messages;
    if StrictlyLater(s, d) {
      StrictDeleteDeletes(env, st, req);
    } else {
      LateLeavesLatest(env, st, req);
      var r := Existing(s, d.recordId);
      NotDeleted(after, d.recordId, r[|r| - 1]);
    }
  }

  /** A record with a current write is not deleted. */
  lemma NotDeleted(s: Store, recordId: string, c: string)
    requires c in s && InRecord(s[c], recordId) && s[c].StoredWrite? && !s[c].archived
    ensures !IsDeleted(s, recordId)
  {
    forall d ensures !DeletedBy(s, recordId, d) {
      assert DeletedBy(s, recordId, d) && c != d ==> Gone(s, c, d);
    }
  }

  /** A delete that is not strictly later than the record's latest write leaves
      that write as it is. */
  lemma LateLeavesLatest(env: Env, st: State, req: DeleteRequest)
    requires SoundHashes(env) && WellKeyed(env, st.messages) && DeleteApplies(env, st, req)
    requires TidyRecord(env, st.messages, req.delete.recordId) && !StrictlyLater(st.messages, req.delete)
    ensures var r, after := Existing(st.messages, req.delete.recordId), DeleteStep(env, st, req).messages;
            && r != []
            && var last := r[|r| - 1];
               && last in after && after[last].StoredWrite? && !after[last].archived
               && InRecord(after[last], req.delete.recordId)
  {
    var s, d := st.messages, req.delete;
    TidyLatest(env, st, req);
    TidyDeleteIsNew(env, st, req);
    var r := Existing(s, d.recordId);
    var last := r[|r| - 1];
    assert last in RecordCids(s, d.recordId);
    ClearedSkips(env, Marked(env, st, d, s[r[0]].write), d, s, r, last);
  }

  /** The delete is strictly later than its record's latest message, and that is
      no second initial write. */
  predicate RegularDelete(env: Env, s: Store, d: Delete)
  {
    StrictlyLater(s, d) && !TwiceInitial(env, s, d.recordId)
  }

  /** The record has a second initial write: its first message, signed anew. */
  predicate TwiceInitial(env: Env, s: Store, recordId: string)
  {
    var r := Existing(s, recordId);
    |r| == 2 && s[r[1]].StoredWrite? && IsInitial(env, s[r[1]].write)
  }

  /** In a tidy store, an applied delete keeps all records tidy exactly when it is
      strictly later than its record's latest message, and the record has no
      second initial write, which the delete would keep as well. */
  lemma DeleteTidyIff(env: Env, st: State, req: DeleteRequest)
    requires SoundHashes(env) && WellKeyed(env, st.messages) && Tidy(env, st.messages) && DeleteApplies(env, st, req)
    ensures Tidy(env, DeleteStep(env, st, req).messages) <==> RegularDelete(env, st.messages, req.delete)
  {
    var s, d, after := st.messages, req.delete, DeleteStep(env, st, req).messages;
    assert TidyRecord(env, s, d.recordId);
    forall recordId | recordId != d.recordId ensures TidyRecord(env, after, recordId) {
      assert TidyRecord(env, s, recordId);
      DeleteOtherRecords(env, st, req, recordId);
      TidySame(env, s, after, recordId);
    }
    if !StrictlyLater(s, d) {
      LateDeleteUntidy(env, st, req);
    } else if TwiceInitial(env, s, d.recordId) {
      TwiceInitialUntidy(env, st, req);
    } else {
      StrictDeleteTidy(env, st, req);
    }
  }

  lemma TwiceInitialUntidy(env: Env, st: State, req: DeleteRequest)
    requires SoundHashes(env) && WellKeyed(env, st.messages) && DeleteApplies(env, st, req)
    requires TidyRecord(env, st.messages, req.delete.recordId)
    requires StrictlyLater(st.messages, req.delete) && TwiceInitial(env, st.messages, req.delete.recordId)
    ensures !TidyRecord(env, DeleteStep(env, st, req).messages, req.delete.recordId)
  {
    TidyDeleteIsNew(env, st, req);
    TwiceInitialKept(env, st, req.delete);
  }

  lemma TwiceInitialKept(env: Env, st: State, d: Delete)
    requires TaskAdmitted(env, st, d) && env.deleteCid(d) !in st.messages
    requires StrictlyLater(st.messages, d) && TwiceInitial(env, st.messages, d.recordId)
    ensures |Existing(TaskDone(env, st, d).messages, d.recordId)| >= 3
  {
    var s, c, after := st.messages, env.deleteCid(d), TaskDone(env, st, d).messages;
    var r := Existing(s, d.recordId);
    OldestFirstDistinct(s, RecordCids(s, d.recordId), r);
    forall i | 0 <= i < |r| ensures InRecord(s[r[i]], d.recordId) && Before(s[r[i]].Timestamp(), d.base.timestamp) {
      assert r[i] in RecordCids(s, d.recordId);
      EntriesBefore(s, d, i);
    }
    var marked := Marked(env, st, d, s[r[0]].write);
    ClearedShort(env, marked, d, s, r);
    assert after == marked.messages[r[0] := Archived(s[r[0]])][r[1] := Archived(s[r[1]])];
    ThreeMessages(after, d.recordId, r[0], r[1], c);
  }

  lemma ThreeMessages(s: Store, recordId: string, a: string, b: string, c: string)
    requires a != b && b != c && a != c && {a, b, c} <= RecordCids(s, recordId)
    ensures |Existing(s, recordId)| >= 3
  {
    var r := Existing(s, recordId);
    assert a in Elements(r) && b in Elements(r) && c in Elements(r);
    var i :| 0 <= i < |r| && r[i] == a;
    var j :| 0 <= j < |r| && r[j] == b;
    var k :| 0 <= k < |r| && r[k] == c;
  }

  lemma DeleteOtherRecords(env: Env, st: State, req: DeleteRequest, recordId: string)
    requires SoundHashes(env) && WellKeyed(env, st.messages) && DeleteApplies(env, st, req)
    requires recordId != req.delete.recordId
    ensures SameRecord(st.messages, DeleteStep(env, st, req).messages, recordId)
  {
    var s, after := st.messages, DeleteStep(env, st, req).messages;
    forall c ensures SameAt(s, after, recordId, c) {
      if c in s && InRecord(s[c], recordId) { OtherStays(env, st, req, recordId, c); }
      if c in after && InRecord(after[c], recordId) { OtherWasThere(env, st, req, recordId, c); }
    }
  }

  lemma OtherStays(env: Env, st: State, req: DeleteRequest, recordId: string, c: string)
    requires SoundHashes(env) && WellKeyed(env, st.messages) && DeleteApplies(env, st, req)
    requires recordId != req.delete.recordId && c in st.messages && InRecord(st.messages[c], recordId)
    ensures c in DeleteStep(env, st, req).messages && DeleteStep(env, st, req).messages[c] == st.messages[c]
  {
    var s, d := st.messages, req.delete;
    var r := Existing(s, d.recordId);
    if env.deleteCid(d) in s { StoredUnderDeleteCid(env, s, d); }
    assert c !in r by { assert forall k :: 0 <= k < |r| ==> InRecord(s[r[k]], d.recordId); }
    ClearedKeeps(env, Marked(env, st, d, s[r[0]].write), d, s, r, c);
  }

  lemma OtherWasThere(env: Env, st: State, req: DeleteRequest, recordId: string, c: string)
    requires SoundHashes(env) && WellKeyed(env, st.messages) && DeleteApplies(env, st, req)
    requires recordId != req.delete.recordId
    requires c in DeleteStep(env, st, req).messages && InRecord(DeleteStep(env, st, req).messages[c], recordId)
    ensures c in st.messages && DeleteStep(env, st, req).messages[c] == st.messages[c]
  {
    var s, d := st.messages, req.delete;
    var r := Existing(s, d.recordId);
    DeleteStored(env, st, req);
    ClearedEffect(env, Marked(env, st, d, s[r[0]].write), d, s, r, c);
    assert forall k :: 0 <= k < |r| ==> InRecord(s[r[k]], d.recordId);
  }

  lemma StrictDeleteTidy(env: Env, st: State, req: DeleteRequest)
    requires SoundHashes(env) && WellKeyed(env, st.messages) && DeleteApplies(env, st, req)
    requires TidyRecord(env, st.messages, req.delete.recordId) && RegularDelete(env, st.messages, req.delete)
    ensures TidyRecord(env, DeleteStep(env, st, req).messages, req.delete.recordId)
  {
    var s, d, after := st.messages, req.delete, DeleteStep(env, st, req).messages;
    var r, c := Existing(s, d.recordId), env.deleteCid(d);
    TidyLatest(env, st, req);
    StrictClosed(env, st, req);
    DeleteStored(env, st, req);
    EntriesBefore(s, d, 0);
    ExistingTwo(after, d.recordId, r[0], c);
  }

  lemma ClearedShort(env: Env, st: State, d: Delete, fetched: Store, cids: seq<string>)
    requires 1 <= |cids| <= 2
    requires forall i :: 0 <= i < |cids| ==>
      cids[i] in fetched && fetched[cids[i]].StoredWrite? && Before(fetched[cids[i]].Timestamp(), d.base.timestamp)
    ensures Cleared(env, st, d, fetched, cids) ==
            (if |cids| == 1 then Aged(env, st, cids[0], fetched[cids[0]])
             else Aged(env, Aged(env, st, cids[0], fetched[cids[0]]), cids[1], fetched[cids[1]]))
  {
    var once := Aged(env, st, cids[0], fetched[cids[0]]);
    if |cids| == 1 {
      assert cids[1..] == [];
    } else {
      assert cids[1..] == [cids[1]];
      ClearedOne(env, once, d, fetched, cids[1]);
    }
  }

  lemma ClearedOne(env: Env, st: State, d: Delete, fetched: Store, c: string)
    requires c in fetched && fetched[c].StoredWrite? && Before(fetched[c].Timestamp(), d.base.timestamp)
    ensures Cleared(env, st, d, fetched, [c]) == Aged(env, st, c, fetched[c])
  {
    assert [c][1..] == [];
  }

  lemma TidyDeleteIsNew(env: Env, st: State, req: DeleteRequest)
    requires SoundHashes(env) && WellKeyed(env, st.messages) && DeleteApplies(env, st, req)
    requires TidyRecord(env, st.messages, req.delete.recordId)
    ensures env.deleteCid(req.delete) !in st.messages
  {
    var s, d, c := st.messages, req.delete, env.deleteCid(req.delete);
    var r := Existing(s, d.recordId);
    TidyLatest(env, st, req);
    assert forall k :: 0 <= k < |r| ==> s[r[k]].StoredWrite?;
    forall x | x in RecordCids(s, d.recordId) ensures s[x].StoredWrite? { assert x in Elements(r); }
    assert c in s && s[c].StoredDelete? && s[c].delete == d ==> c in RecordCids(s, d.recordId);
    if c in s { StoredUnderDeleteCid(env, s, d); }
  }

  /** A regular delete of a tidy record leaves the initial write, archived, and
      itself. */
  lemma StrictClosed(env: Env, st: State, req: DeleteRequest)
    requires SoundHashes(env) && WellKeyed(env, st.messages) && DeleteApplies(env, st, req)
    requires TidyRecord(env, st.messages, req.delete.recordId) && RegularDelete(env, st.messages, req.delete)
    ensures var r, c := Existing(st.messages, req.delete.recordId), env.deleteCid(req.delete);
            var after := DeleteStep(env, st, req).messages;
            && RecordCids(after, req.delete.recordId) == {r[0], c}
            && r[0] in after && after[r[0]] == Archived(st.messages[r[0]])
  {
    var s, d, c := st.messages, req.delete, env.deleteCid(req.delete);
    var r := Existing(s, d.recordId);
    TidyLatest(env, st, req);
    StrictMessages(env, st, req);
    StrictCids(env, st, req);
  }

  lemma StrictMessages(env: Env, st: State, req: DeleteRequest)
    requires SoundHashes(env) && WellKeyed(env, st.messages) && DeleteApplies(env, st, req)
    requires TidyRecord(env, st.messages, req.delete.recordId) && RegularDelete(env, st.messages, req.delete)
    ensures var s, r, c := st.messages, Existing(st.messages, req.delete.recordId), env.deleteCid(req.delete);
            DeleteStep(env, st, req).messages ==
              s[c := StoredDelete(req.delete, s[r[0]].write)][r[0] := Archived(s[r[0]])]
              - (if |r| == 2 then {r[1]} else {})
  {
    var s, d, r := st.messages, req.delete, Existing(st.messages, req.delete.recordId);
    TidyLatest(env, st, req);
    forall i | 0 <= i < |r| ensures Before(s[r[i]].Timestamp(), d.base.timestamp) { EntriesBefore(s, d, i); }
    ClearedShort(env, Marked(env, st, d, s[r[0]].write), d, s, r);
  }

  lemma StrictCids(env: Env, st: State, req: DeleteRequest)
    requires SoundHashes(env) && WellKeyed(env, st.messages) && DeleteApplies(env, st, req)
    requires TidyRecord(env, st.messages, req.delete.recordId) && RegularDelete(env, st.messages, req.delete)
    ensures var r, c := Existing(st.messages, req.delete.recordId), env.deleteCid(req.delete);
            var after := DeleteStep(env, st, req).messages;
            RecordCids(after, req.delete.recordId) == {r[0], c} && r[0] != c
  {
    var s, d, c := st.messages, req.delete, env.deleteCid(req.delete);
    var r := Existing(s, d.recordId);
    StrictMessages(env, st, req);
    TidyDeleteIsNew(env, st, req);
    RemainingCids(s, d, c, s[r[0]].write);
  }

  lemma RemainingCids(s: Store, d: Delete, c: string, initial: Write)
    requires c !in s && 1 <= |Existing(s, d.recordId)| <= 2
    ensures var r := Existing(s, d.recordId);
            && r[0] != c
            && RecordCids(s[c := StoredDelete(d, initial)][r[0] := Archived(s[r[0]])]
                          - (if |r| == 2 then {r[1]} else {}), d.recordId)
               == {r[0], c}
  {
    var r := Existing(s, d.recordId);
    OldestFirstDistinct(s, RecordCids(s, d.recordId), r);
    forall x | x in s && InRecord(s[x], d.recordId) ensures x in r { assert x in Elements(r); }
    assert InRecord(s[r[0]], d.recordId);
  }

  lemma LateDeleteUntidy(env: Env, st: State, req: DeleteRequest)
    requires SoundHashes(env) && WellKeyed(env, st.messages) && DeleteApplies(env, st, req)
    requires TidyRecord(env, st.messages, req.delete.recordId) && !StrictlyLater(st.messages, req.delete)
    ensures !TidyRecord(env, DeleteStep(env, st, req).messages, req.delete.recordId)
  {
    var s, d, c, after := st.messages, req.delete, env.deleteCid(req.delete), DeleteStep(env, st, req).messages;
    LateLeavesLatest(env, st, req);
    var r := Existing(s, d.recordId);
    var last := r[|r| - 1];
    DeleteStored(env, st, req);
    var t := Existing(after, d.recordId);
    assert last in RecordCids(after, d.recordId) && c in RecordCids(after, d.recordId);
    assert last in Elements(t) && c in Elements(t);
    var i :| 0 <= i < |t| && t[i] == last;
    var j :| 0 <= j < |t| && t[j] == c;
    assert i != j && (|t| == 2 ==> t[0] == last || t[0] == c);
  }
}
