/** Whether a write's data, when it is too large to be kept in the message, is
    still there once the write has been handled. */
module Retention {
  import opened Messages
  import opened RecordQueries
  import opened NodeState
  import opened Writes

  predicate RefersTo(m: Stored, dataCid: string)
  {
    m.StoredWrite? && m.write.descriptor.dataCid == dataCid
  }

  predicate AllWrites(s: Store, cids: seq<string>)
    requires forall i :: 0 <= i < |cids| ==> cids[i] in s
  {
    forall i :: 0 <= i < |cids| ==> s[cids[i]].StoredWrite?
  }

  /** Purging gets to the i-th message, and it refers to the data. */
  predicate Purges(s: Store, cids: seq<string>, i: nat, dataCid: string)
    requires i < |cids| && forall j :: 0 <= j < |cids| ==> cids[j] in s
  {
    AllWrites(s, cids[..i + 1]) && RefersTo(s[cids[i]], dataCid)
  }

  lemma PurgesNext(s: Store, cids: seq<string>, i: nat, dataCid: string)
    requires i + 1 < |cids| && (forall j :: 0 <= j < |cids| ==> cids[j] in s) && s[cids[0]].StoredWrite?
    ensures Purges(s, cids, i + 1, dataCid) <==> Purges(s, cids[1..], i, dataCid)
  {
    var all, rest := cids[..i + 2], cids[1..][..i + 1];
    assert all == [cids[0]] + rest;
    if AllWrites(s, all) {
      forall j | 0 <= j < |rest| ensures s[rest[j]].StoredWrite? { assert rest[j] == all[j + 1]; }
    }
  }

  /** Purging removes exactly the data referred to by the writes it gets to. */
  lemma {:induction false} PurgedData(st: State, fetched: Store, cids: seq<string>, recordId: string, dataCid: string)
    requires forall i :: 0 <= i < |cids| ==> cids[i] in fetched && InRecord(fetched[cids[i]], recordId)
    ensures (recordId, dataCid) in Purged(st, fetched, cids).0.data <==>
            (recordId, dataCid) in st.data && forall i :: 0 <= i < |cids| ==> !Purges(fetched, cids, i, dataCid)
    decreases |cids|
  {
    if cids != [] {
      var m := fetched[cids[0]];
      assert cids[..1] == [cids[0]];
      if m.StoredWrite? {
        var rest := State(st.messages - {cids[0]}, st.events - {cids[0]}, st.data - {DataKey(m.write)});
        PurgedData(rest, fetched, cids[1..], recordId, dataCid);
        forall i | 0 <= i < |cids| - 1
          ensures Purges(fetched, cids, i + 1, dataCid) <==> Purges(fetched, cids[1..], i, dataCid)
        {
          PurgesNext(fetched, cids, i, dataCid);
        }
        NoPurge(fetched, cids, dataCid);
      } else {
        forall i | 0 <= i < |cids| ensures !Purges(fetched, cids, i, dataCid) { assert cids[..i + 1][0] == cids[0]; }
      }
    }
  }

  lemma NoPurge(s: Store, cids: seq<string>, dataCid: string)
    requires cids != [] && (forall j :: 0 <= j < |cids| ==> cids[j] in s) && s[cids[0]].StoredWrite?
    requires forall i :: 0 <= i < |cids| - 1 ==> (Purges(s, cids, i + 1, dataCid) <==> Purges(s, cids[1..], i, dataCid))
    ensures (forall i :: 0 <= i < |cids| ==> !Purges(s, cids, i, dataCid)) <==>
            !RefersTo(s[cids[0]], dataCid) && forall i :: 0 <= i < |cids[1..]| ==> !Purges(s, cids[1..], i, dataCid)
  {
    assert cids[..1] == [cids[0]];
    assert Purges(s, cids, 0, dataCid) <==> RefersTo(s[cids[0]], dataCid);
    if forall i :: 0 <= i < |cids| ==> !Purges(s, cids, i, dataCid) {
      forall i | 0 <= i < |cids[1..]| ensures !Purges(s, cids[1..], i, dataCid) {
        assert !Purges(s, cids, i + 1, dataCid);
      }
    }
    if !RefersTo(s[cids[0]], dataCid) && forall i :: 0 <= i < |cids[1..]| ==> !Purges(s, cids[1..], i, dataCid) {
      forall i | 0 <= i < |cids| ensures !Purges(s, cids, i, dataCid) {
        if i > 0 {
          assert !Purges(s, cids[1..], i - 1, dataCid);
          assert Purges(s, cids, i - 1 + 1, dataCid) == Purges(s, cids, i, dataCid);
        }
      }
    }
  }

  lemma RecordWrites(s: Store, recordId: string, i: nat)
    requires i < |Existing(s, recordId)|
    ensures InRecord(s[Existing(s, recordId)[i]], recordId)
  {
    assert Existing(s, recordId)[i] in RecordCids(s, recordId);
  }

  /** The initial write's data, which new data replaces. */
  predicate ReplacesInitial(s: Store, r: seq<string>, req: WriteRequest)
    requires forall i :: 0 <= i < |r| ==> r[i] in s
  {
    r != [] && req.stream.Some? && req.write.descriptor.dataCid != "" && RefersTo(s[r[0]], req.write.descriptor.dataCid)
  }

  lemma ReplacedData(env: Env, st: State, req: WriteRequest)
    requires Existing(st.messages, req.write.recordId) != [] && Follows(env, st.messages, req.write)
    ensures var s, r, cid := st.messages, Existing(st.messages, req.write.recordId), req.write.descriptor.dataCid;
            DataKey(req.write) in Replaced(env, st, req).0.data <==>
              && DataKey(req.write) in Saved(env, st, req).data && !ReplacesInitial(s, r, req)
              && forall i :: 0 <= i < |r[1..]| ==> !Purges(s, r[1..], i, cid)
  {
    var s, id, cid := st.messages, req.write.recordId, req.write.descriptor.dataCid;
    var r := Existing(s, id);
    forall i | 0 <= i < |r| ensures InRecord(s[r[i]], id) { RecordWrites(s, id, i); }
    var initial := InitialArchived(Saved(env, st, req), r[0], s[r[0]], req.stream.Some?);
    PurgedData(initial, s, r[1..], id, cid);
  }

  /** Once an accepted write of large data has been handled, the data it refers to
      is in the data store exactly when it came with the write or was there, it
      does not replace equal data of the initial write, and no update that is
      purged refers to it. Any other write loses its own data. */
  lemma LargeDataKeptIff(env: Env, st: State, req: WriteRequest)
    requires Accepted(env, st, req) && req.write.descriptor.dataSize > MAX_ENCODED_SIZE
    ensures var s, r, cid := st.messages, Existing(st.messages, req.write.recordId), req.write.descriptor.dataCid;
            DataKey(req.write) in WriteStep(env, st, req).data <==>
              && (req.stream.Some? || DataKey(req.write) in st.data)
              && !ReplacesInitial(s, r, req)
              && (r != [] ==> forall i :: 0 <= i < |r[1..]| ==> !Purges(s, r[1..], i, cid))
  {
    assert WriteStep(env, st, req).data == Replaced(env, st, req).0.data;
    if Existing(st.messages, req.write.recordId) != [] { ReplacedData(env, st, req); }
  }

  /** An update without data loses the data it takes over from another update. */
  lemma TakenOverIff(env: Env, st: State, req: WriteRequest)
    requires Accepted(env, st, req) && req.write.descriptor.dataSize > MAX_ENCODED_SIZE
    requires req.stream.None? && !IsInitial(env, req.write) && |Existing(st.messages, req.write.recordId)| <= 2
    ensures DataKey(req.write) in WriteStep(env, st, req).data <==> |Existing(st.messages, req.write.recordId)| == 1
  {
    var s, r, cid := st.messages, Existing(st.messages, req.write.recordId), req.write.descriptor.dataCid;
    LargeDataKeptIff(env, st, req);
    if |r| == 2 {
      assert r[1..][..1] == [r[1]];
      assert Purges(s, r[1..], 0, cid);
    }
  }

  /** Handling a write leaves the data of all other records alone. */
  lemma OtherDataStays(env: Env, st: State, req: WriteRequest, recordId: string, dataCid: string)
    requires recordId != req.write.recordId
    ensures (recordId, dataCid) in WriteStep(env, st, req).data <==> (recordId, dataCid) in st.data
  {
    if Accepted(env, st, req) {
      assert Applied(env, st, req).0.data == Replaced(env, st, req).0.data;
      ReplacedOthers(env, st, req, recordId, dataCid);
    }
  }

  lemma ReplacedOthers(env: Env, st: State, req: WriteRequest, recordId: string, dataCid: string)
    requires recordId != req.write.recordId
    ensures (recordId, dataCid) in Replaced(env, st, req).0.data <==> (recordId, dataCid) in st.data
  {
    var s, r, id := st.messages, Existing(st.messages, req.write.recordId), req.write.recordId;
    if r != [] && s[r[0]].StoredWrite? {
      forall i | 0 <= i < |r| ensures InRecord(s[r[i]], id) { RecordWrites(s, id, i); }
      var initial := InitialArchived(Saved(env, st, req), r[0], s[r[0]], req.stream.Some?);
      PurgedOthers(initial, s, r[1..], id, recordId, dataCid);
    }
  }

  lemma {:induction false} PurgedOthers(st: State, fetched: Store, cids: seq<string>, id: string, recordId: string,
                                        dataCid: string)
    requires forall i :: 0 <= i < |cids| ==> cids[i] in fetched && InRecord(fetched[cids[i]], id)
    requires recordId != id
    ensures (recordId, dataCid) in Purged(st, fetched, cids).0.data <==> (recordId, dataCid) in st.data
    decreases |cids|
  {
    if cids != [] && fetched[cids[0]].StoredWrite? {
      var rest := State(st.messages - {cids[0]}, st.events - {cids[0]}, st.data - {DataKey(fetched[cids[0]].write)});
      PurgedOthers(rest, fetched, cids[1..], id, recordId, dataCid);
    }
  }
}
