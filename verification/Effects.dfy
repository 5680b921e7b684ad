/** What an accepted message does to the stored messages and data: exactly which
    of them go, which are archived and which stay. */
module Effects {
  import opened Order
  import opened Results
  import opened Timestamps
  import opened Messages
  import opened RecordQueries
  import opened NodeState
  import opened Writes
  import opened Deletes
  import opened Runs
  import opened Deletion
  import opened Retention
  import opened Admissions

  // ----- writes ------------------------------------------------------------

  /** Purging gets to the message. */
  ghost predicate IsReached(fetched: Store, cids: seq<string>, c: string)
    requires forall i :: 0 <= i < |cids| ==> cids[i] in fetched
  {
    exists i :: 0 <= i < |cids| && cids[i] == c && AllWrites(fetched, cids[..i + 1])
  }

  lemma ReachedNext(fetched: Store, cids: seq<string>, c: string)
    requires cids != [] && forall i :: 0 <= i < |cids| ==> cids[i] in fetched
    ensures IsReached(fetched, cids, c) <==>
            fetched[cids[0]].StoredWrite? && (c == cids[0] || IsReached(fetched, cids[1..], c))
  {
    assert cids[..1] == [cids[0]];
    if IsReached(fetched, cids, c) {
      var i :| 0 <= i < |cids| && cids[i] == c && AllWrites(fetched, cids[..i + 1]);
      assert cids[..i + 1][0] == cids[0];
      if i > 0 {
        var all, rest := cids[..i + 1], cids[1..][..i];
        forall j | 0 <= j < |rest| ensures fetched[rest[j]].StoredWrite? { assert rest[j] == all[j + 1]; }
        assert cids[1..][i - 1] == c && AllWrites(fetched, cids[1..][..i - 1 + 1]);
      }
    }
    if fetched[cids[0]].StoredWrite? && IsReached(fetched, cids[1..], c) {
      var i :| 0 <= i < |cids[1..]| && cids[1..][i] == c && AllWrites(fetched, cids[1..][..i + 1]);
      assert cids[..i + 2] == [cids[0]] + cids[1..][..i + 1];
      assert cids[i + 1] == c && AllWrites(fetched, cids[..i + 1 + 1]);
    }
  }

  /** Purging removes exactly the messages it gets to. */
  lemma {:induction false} PurgedIff(st: State, fetched: Store, cids: seq<string>, c: string)
    requires forall i :: 0 <= i < |cids| ==> cids[i] in fetched
    ensures c in Purged(st, fetched, cids).0.messages <==> c in st.messages && !IsReached(fetched, cids, c)
    decreases |cids|
  {
    if cids != [] {
      ReachedNext(fetched, cids, c);
      if fetched[cids[0]].StoredWrite? {
        var rest := State(st.messages - {cids[0]}, st.events - {cids[0]}, st.data - {DataKey(fetched[cids[0]].write)});
        PurgedIff(rest, fetched, cids[1..], c);
      }
    }
  }

  /** The message is of the record, is not its earliest, and neither it nor any
      older one of the record is a delete. */
  ghost predicate IsOutdated(s: Store, recordId: string, c: string)
  {
    && c in s && OfRecord(s[c], recordId) && !IsEarliest(s, recordId, c)
    && forall d :: d in s && OfRecord(s[d], recordId) && (d == c || Older(s[d], d, s[c], c)) ==> s[d].StoredWrite?
  }

  lemma ReachedIsOutdated(s: Store, recordId: string, c: string)
    requires var r := Existing(s, recordId); r != [] && s[r[0]].StoredWrite?
    requires IsReached(s, Existing(s, recordId)[1..], c)
    ensures IsOutdated(s, recordId, c)
  {
    var r := Existing(s, recordId);
    var rest := r[1..];
    var i :| 0 <= i < |rest| && rest[i] == c && AllWrites(s, rest[..i + 1]);
    assert r[i + 1] == c && c in RecordCids(s, recordId);
    OldestFirstDistinct(s, RecordCids(s, recordId), r);
    ExistingEnds(s, recordId);
    forall d | d in s && OfRecord(s[d], recordId) && (d == c || Older(s[d], d, s[c], c)) ensures s[d].StoredWrite? {
      OlderIsWrite(s, recordId, i + 1, d);
    }
  }

  lemma OutdatedIsReached(s: Store, recordId: string, c: string)
    requires IsOutdated(s, recordId, c) && Existing(s, recordId) != []
    ensures IsReached(s, Existing(s, recordId)[1..], c)
  {
    var r := Existing(s, recordId);
    var rest := r[1..];
    assert c in RecordCids(s, recordId) && c in Elements(r);
    var k :| 0 <= k < |r| && r[k] == c;
    FirstIsEarliest(s, recordId);
    UpToOutdated(s, recordId, k);
    assert rest[k - 1] == c && AllWrites(s, rest[..k - 1 + 1]);
  }

  lemma FirstIsEarliest(s: Store, recordId: string)
    requires Existing(s, recordId) != []
    ensures IsEarliest(s, recordId, Existing(s, recordId)[0])
  {
    ExistingEnds(s, recordId);
  }

  lemma UpToOutdated(s: Store, recordId: string, k: nat)
    requires k < |Existing(s, recordId)| && IsOutdated(s, recordId, Existing(s, recordId)[k])
    ensures AllWrites(s, Existing(s, recordId)[1..][..k])
  {
    var r := Existing(s, recordId);
    forall j | 1 <= j <= k ensures s[r[j]].StoredWrite? {
      assert r[j] in RecordCids(s, recordId);
      assert j == k || Older(s[r[j]], r[j], s[r[k]], r[k]);
    }
    assert forall j :: 0 <= j < k ==> r[1..][..k][j] == r[j + 1];
  }

  lemma OutdatedIff(s: Store, recordId: string, c: string)
    requires var r := Existing(s, recordId); r != [] && s[r[0]].StoredWrite?
    ensures IsReached(s, Existing(s, recordId)[1..], c) <==> IsOutdated(s, recordId, c)
  {
    if IsReached(s, Existing(s, recordId)[1..], c) { ReachedIsOutdated(s, recordId, c); }
    if IsOutdated(s, recordId, c) { OutdatedIsReached(s, recordId, c); }
  }

  lemma OlderIsWrite(s: Store, recordId: string, k: nat, d: string)
    requires var r := Existing(s, recordId);
             && 0 < k < |r| && s[r[0]].StoredWrite? && AllWrites(s, r[1..][..k])
             && d in s && OfRecord(s[d], recordId) && (d == r[k] || Older(s[d], d, s[r[k]], r[k]))
    ensures s[d].StoredWrite?
  {
    var r := Existing(s, recordId);
    assert d in RecordCids(s, recordId) && d in Elements(r);
    var j :| 0 <= j < |r| && r[j] == d;
    if j > k {
      OldestFirstDistinct(s, RecordCids(s, recordId), r);
      OlderTotal(s[d], d, s[r[k]], r[k]);
    } else if j > 0 {
      assert r[1..][..k][j - 1] == d;
    }
  }

  /** An accepted write, unless it is a revocation, removes exactly the outdated
      messages of its record, archives the earliest, and stores itself, archived if
      it is an initial write without data; all else stays as it is. */
  lemma WriteEffectIs(env: Env, st: State, req: WriteRequest, c: string)
    requires SoundHashes(env) && WellKeyed(env, st.messages) && Accepted(env, st, req) && !IsRevocation(req.write)
    ensures var s, after, w := st.messages, WriteStep(env, st, req).messages, req.write;
            && (c in after <==> c == env.writeCid(w) || (c in s && !IsOutdated(s, w.recordId, c)))
            && (c == env.writeCid(w) ==>
                  && after[c].StoredWrite? && after[c].write.(encodedData := None) == w.(encodedData := None)
                  && (after[c].archived <==> req.stream == None && IsInitial(env, w)))
            && (c in after && c != env.writeCid(w) ==>
                  after[c] == if s[c].StoredWrite? && IsEarliest(s, w.recordId, c) then s[c].(archived := true)
                              else s[c])
  {
    ReplacedExactly(env, st, req, c);
  }

  /** The same of any accepted write, before a revocation does its work. */
  lemma ReplacedExactly(env: Env, st: State, req: WriteRequest, c: string)
    requires SoundHashes(env) && WellKeyed(env, st.messages) && Accepted(env, st, req)
    ensures var s, after, w := st.messages, Replaced(env, st, req).0.messages, req.write;
            && (c in after <==> c == env.writeCid(w) || (c in s && !IsOutdated(s, w.recordId, c)))
            && (c == env.writeCid(w) ==>
                  && after[c].StoredWrite? && after[c].write.(encodedData := None) == w.(encodedData := None)
                  && (after[c].archived <==> req.stream == None && IsInitial(env, w)))
            && (c in after && c != env.writeCid(w) ==>
                  after[c] == if s[c].StoredWrite? && IsEarliest(s, w.recordId, c) then s[c].(archived := true)
                              else s[c])
  {
    var s, w := st.messages, req.write;
    var r, saved := Existing(s, w.recordId), Saved(env, st, req);
    AcceptedIsNew(env, st, req);
    ExistingEnds(s, w.recordId);
    if r != [] {
      var initial := InitialArchived(saved, r[0], s[r[0]], req.stream.Some?);
      assert r[0] in RecordCids(s, w.recordId);
      PurgedIff(initial, s, r[1..], c);
      OutdatedIff(s, w.recordId, c);
      if c in Replaced(env, st, req).0.messages { PurgedShrinks(initial, s, r[1..], c); }
    }
  }

  /** The write invokes a grant and was created at or after a time. */
  predicate IsUnderGrant(w: Write, grantId: string, t: Instant)
  {
    && w.descriptor.base.interface == RecordsInterface && w.descriptor.base.verb == WriteMethod
    && w.authorization.grantId == Some(grantId) && t.Ordinal() <= w.descriptor.dateCreated.Ordinal()
  }

  /** A revocation that is handled to its end also removes exactly the writes that
      were created under the grant at or after its time, itself among them. */
  lemma RevocationEffectIs(env: Env, st: State, req: WriteRequest, c: string)
    requires SoundHashes(env) && WellKeyed(env, st.messages) && Accepted(env, st, req)
    requires IsGrantRevocation(req.write) && Applied(env, st, req).1
    ensures var s, after, w := st.messages, WriteStep(env, st, req).messages, req.write;
            && w.descriptor.parentId.Some?
            && var grantId, t := w.descriptor.parentId.value, w.Timestamp();
               && (c in after <==>
                     if c == env.writeCid(w) then !IsUnderGrant(w, grantId, t)
                     else c in s && !IsOutdated(s, w.recordId, c)
                          && !(s[c].StoredWrite? && IsUnderGrant(s[c].write, grantId, t)))
               && (c in after && c != env.writeCid(w) ==>
                     after[c] == if s[c].StoredWrite? && IsEarliest(s, w.recordId, c) then s[c].(archived := true)
                                 else s[c])
  {
    var replaced, w := Replaced(env, st, req).0.messages, req.write;
    ReplacedExactly(env, st, req, c);
    if c == env.writeCid(w) { SameFields(replaced[c].write, w); }
    RevokedExactly(env, st, req);
  }

  lemma RevokedExactly(env: Env, st: State, req: WriteRequest)
    requires Accepted(env, st, req) && IsGrantRevocation(req.write) && Applied(env, st, req).1
    ensures req.write.descriptor.parentId.Some?
    ensures var before, after := Replaced(env, st, req).0.messages, WriteStep(env, st, req).messages;
            var grantId, t := req.write.descriptor.parentId.value, req.write.Timestamp();
            forall c ::
              && (c in after <==>
                    c in before && !(before[c].StoredWrite? && IsUnderGrant(before[c].write, grantId, t)))
              && (c in after ==> after[c] == before[c])
  {
  }

  lemma SameFields(v: Write, w: Write)
    requires v.(encodedData := None) == w.(encodedData := None)
    ensures v.descriptor == w.descriptor && v.authorization == w.authorization && v.recordId == w.recordId
  {
    var a, b := v.(encodedData := None), w.(encodedData := None);
    assert a.descriptor == b.descriptor && a.authorization == b.authorization && a.recordId == b.recordId;
  }

  // ----- deletes -----------------------------------------------------------

  /** The message is a write of the record, dated strictly before the delete. */
  predicate IsAged(s: Store, d: Delete, c: string)
  {
    && c in s && s[c].StoredWrite? && s[c].write.recordId == d.recordId
    && s[c].Timestamp().Ordinal() < d.base.timestamp.Ordinal()
  }

  predicate IsAgedUpdate(env: Env, s: Store, d: Delete, c: string)
  {
    IsAged(s, d, c) && env.entryId(s[c].write.descriptor, s[c].write.authorization.author) != s[c].write.recordId
  }

  /** Clearing a list in which only the last may be a delete. */
  lemma {:induction false} ClearedExactly(env: Env, st: State, d: Delete, s: Store, cids: seq<string>)
    requires forall i :: 0 <= i < |cids| ==> cids[i] in s && OfRecord(s[cids[i]], d.recordId)
    requires forall i :: 0 <= i < |cids| - 1 ==> s[cids[i]].StoredWrite?
    ensures var after := Cleared(env, st, d, s, cids);
            && (forall c :: c in after.events <==> c in st.events && !(c in cids && IsAgedUpdate(env, s, d, c)))
            && (forall id, k :: (id, k) in after.data <==>
                  (id, k) in st.data && !exists c :: c in cids && IsAged(s, d, c) && (id, k) == DataKey(s[c].write))
    decreases |cids|
  {
    if cids != [] {
      var m := s[cids[0]];
      assert forall c :: c in cids <==> c == cids[0] || c in cids[1..];
      if !Before(m.Timestamp(), d.base.timestamp) {
        ClearedExactly(env, st, d, s, cids[1..]);
      } else if m.StoredWrite? {
        ClearedExactly(env, Aged(env, st, cids[0], m), d, s, cids[1..]);
      } else {
        assert |cids| == 1;
      }
    }
  }

  lemma {:induction false} ClearedMessages(env: Env, st: State, d: Delete, s: Store, cids: seq<string>, c: string)
    requires forall i :: 0 <= i < |cids| ==> cids[i] in s && OfRecord(s[cids[i]], d.recordId)
    requires forall i :: 0 <= i < |cids| - 1 ==> s[cids[i]].StoredWrite?
    requires forall i, j :: 0 <= i < j < |cids| ==> cids[i] != cids[j]
    requires c in cids ==> c in st.messages && st.messages[c] == s[c]
    ensures var after := Cleared(env, st, d, s, cids).messages;
            && (c in after <==> c in st.messages && !(c in cids && IsAgedUpdate(env, s, d, c)))
            && (c in after ==> after[c] == if c in cids && IsAged(s, d, c) then Archived(s[c]) else st.messages[c])
    decreases |cids|
  {
    if cids != [] {
      var m := s[cids[0]];
      assert forall c :: c in cids <==> c == cids[0] || c in cids[1..];
      if !Before(m.Timestamp(), d.base.timestamp) {
        ClearedMessages(env, st, d, s, cids[1..], c);
      } else if m.StoredWrite? {
        ClearedMessages(env, Aged(env, st, cids[0], m), d, s, cids[1..], c);
      } else {
        assert |cids| == 1;
      }
    }
  }

  lemma DeleteList(env: Env, st: State, d: Delete)
    requires TaskAdmitted(env, st, d)
    ensures var s, r := st.messages, Existing(st.messages, d.recordId);
            && (forall i :: 0 <= i < |r| ==> r[i] in s && OfRecord(s[r[i]], d.recordId))
            && (forall i :: 0 <= i < |r| - 1 ==> s[r[i]].StoredWrite?)
            && (forall i, j :: 0 <= i < j < |r| ==> r[i] != r[j])
            && (forall c :: IsAged(s, d, c) ==> c in r)
  {
    var s, r := st.messages, Existing(st.messages, d.recordId);
    OldestFirstDistinct(s, RecordCids(s, d.recordId), r);
    forall i | 0 <= i < |r| ensures OfRecord(s[r[i]], d.recordId) { assert r[i] in RecordCids(s, d.recordId); }
    forall c | IsAged(s, d, c) ensures c in r { assert c in RecordCids(s, d.recordId) && c in Elements(r); }
  }

  /** A delete that takes effect is stored with the record's initial write, removes
      exactly the updates that are dated strictly before it and archives the initial
      writes that are; all else stays as it is. */
  lemma DeleteEffectIs(env: Env, st: State, req: DeleteRequest, c: string)
    requires SoundHashes(env) && WellKeyed(env, st.messages) && DeleteApplies(env, st, req)
    ensures var s, after, d := st.messages, DeleteStep(env, st, req).messages, req.delete;
            && (c in after <==> c == env.deleteCid(d) || (c in s && !IsAgedUpdate(env, s, d, c)))
            && (c == env.deleteCid(d) ==>
                  && after[c].StoredDelete? && after[c].delete == d
                  && exists first :: IsEarliest(s, d.recordId, first)
                                     && s[first].StoredWrite? && s[first].write == after[c].initial)
            && (c in after && c != env.deleteCid(d) ==>
                  after[c] == if IsAged(s, d, c) then s[c].(archived := true) else s[c])
  {
    var s, d, cid := st.messages, req.delete, env.deleteCid(req.delete);
    var r := Existing(s, d.recordId);
    var marked := Marked(env, st, d, s[r[0]].write);
    DeleteList(env, st, d);
    FirstIsEarliest(s, d.recordId);
    if cid in s { StoredUnderDeleteCid(env, s, d); }
    if c == cid {
      ClearedKeepsDeletes(env, marked, d, s, r, c);
    } else {
      ClearedMessages(env, marked, d, s, r, c);
    }
  }

  /** It removes exactly the data of the writes of its record that are dated strictly
      before it, and the log forgets exactly the updates it removes. */
  lemma DeleteDataIs(env: Env, st: State, req: DeleteRequest)
    requires DeleteApplies(env, st, req)
    ensures var s, after, d := st.messages, DeleteStep(env, st, req), req.delete;
            && (forall id, k :: (id, k) in after.data <==>
                  && (id, k) in st.data
                  && !(id == d.recordId && exists c :: IsAged(s, d, c) && s[c].write.descriptor.dataCid == k))
            && (forall c :: c in after.events <==>
                  (c == env.deleteCid(d) || c in st.events) && !IsAgedUpdate(env, s, d, c))
  {
    var s, d := st.messages, req.delete;
    var r := Existing(s, d.recordId);
    DeleteList(env, st, d);
    ClearedExactly(env, Marked(env, st, d, s[r[0]].write), d, s, r);
  }

  // ----- the data of a written record -------------------------------------

  /** After an accepted write, the data store holds a piece of data of the record
      exactly when it was there or came with the write, the earliest message does
      not refer to it or no new data came, and no outdated message refers to it. */
  lemma WriteDataIs(env: Env, st: State, req: WriteRequest, k: string)
    requires Accepted(env, st, req)
    ensures var s, w := st.messages, req.write;
            (w.recordId, k) in WriteStep(env, st, req).data <==>
            && ((w.recordId, k) in st.data
                || (req.stream.Some? && w.descriptor.dataSize > 30_000 && k == w.descriptor.dataCid))
            && !(req.stream.Some? && k != "" && exists c :: IsEarliest(s, w.recordId, c) && RefersTo(s[c], k))
            && !exists c :: IsOutdated(s, w.recordId, c) && RefersTo(s[c], k)
  {
    var s, w := st.messages, req.write;
    var r := Existing(s, w.recordId);
    assert WriteStep(env, st, req).data == Replaced(env, st, req).0.data;
    ExistingEnds(s, w.recordId);
    if r != [] {
      forall i | 0 <= i < |r| ensures InRecord(s[r[i]], w.recordId) { RecordWrites(s, w.recordId, i); }
      var initial := InitialArchived(Saved(env, st, req), r[0], s[r[0]], req.stream.Some?);
      PurgedData(initial, s, r[1..], w.recordId, k);
      PurgesIff(s, w.recordId, k);
    }
  }

  lemma PurgesReached(s: Store, cids: seq<string>, k: string)
    requires forall i :: 0 <= i < |cids| ==> cids[i] in s
    ensures (exists i :: 0 <= i < |cids| && Purges(s, cids, i, k)) <==>
            exists c :: c in s && IsReached(s, cids, c) && RefersTo(s[c], k)
  {
    if i :| 0 <= i < |cids| && Purges(s, cids, i, k) {
      assert IsReached(s, cids, cids[i]);
    }
    if c :| c in s && IsReached(s, cids, c) && RefersTo(s[c], k) {
      var i :| 0 <= i < |cids| && cids[i] == c && AllWrites(s, cids[..i + 1]);
      assert Purges(s, cids, i, k);
    }
  }

  lemma PurgesIff(s: Store, recordId: string, k: string)
    requires var r := Existing(s, recordId); r != [] && s[r[0]].StoredWrite?
    ensures var rest := Existing(s, recordId)[1..];
            (exists i :: 0 <= i < |rest| && Purges(s, rest, i, k)) <==>
            exists c :: IsOutdated(s, recordId, c) && RefersTo(s[c], k)
  {
    var rest := Existing(s, recordId)[1..];
    PurgesReached(s, rest, k);
    forall c ensures IsReached(s, rest, c) <==> IsOutdated(s, recordId, c) { OutdatedIff(s, recordId, c); }
  }
}
