/** The lifecycle of a record: what every write and delete keeps of it. */
module Lifecycle {
  import opened Order
  import opened Messages
  import opened RecordQueries
  import opened NodeState
  import opened Writes
  import opened Runs

  // ----- listings ----------------------------------------------------------

  lemma {:induction false} ByTimeUnique(s: Store, chosen: set<string>, r: seq<string>)
    requires chosen <= s.Keys && OldestFirst(s, chosen, r)
    ensures r == ByTime(s, chosen)
  {
    OneListingByTime(s, chosen, r, ByTime(s, chosen));
  }

  lemma {:induction false} OneListingByTime(s: Store, chosen: set<string>, r: seq<string>, t: seq<string>)
    requires OldestFirst(s, chosen, r) && OldestFirst(s, chosen, t)
    ensures r == t
    decreases |r|
  {
    ElementsEmpty(r);
    ElementsEmpty(t);
    if r != [] {
      SameHead(s, chosen, r, t);
      TailByTime(s, chosen, r);
      TailByTime(s, chosen, t);
      OneListingByTime(s, chosen - {r[0]}, r[1..], t[1..]);
      assert r == [r[0]] + r[1..] && t == [t[0]] + t[1..];
    }
  }

  lemma {:induction false} SameHead(s: Store, chosen: set<string>, r: seq<string>, t: seq<string>)
    requires OldestFirst(s, chosen, r) && OldestFirst(s, chosen, t) && r != [] && t != []
    ensures r[0] == t[0]
  {
    assert r[0] in Elements(t) && t[0] in Elements(r);
    var i :| 0 <= i < |t| && t[i] == r[0];
    var j :| 0 <= j < |r| && r[j] == t[0];
    if r[0] != t[0] { OlderTotal(s[r[0]], r[0], s[t[0]], t[0]); }
  }

  lemma {:induction false} TailByTime(s: Store, chosen: set<string>, r: seq<string>)
    requires OldestFirst(s, chosen, r) && r != []
    ensures OldestFirst(s, chosen - {r[0]}, r[1..])
  {
    var rest := r[1..];
    OldestFirstDistinct(s, chosen, r);
    assert forall j :: 0 <= j < |rest| ==> rest[j] == r[j + 1] && rest[j] != r[0];
    assert r == [r[0]] + rest;
    assert Elements(rest) == chosen - {r[0]};
  }

  /** Two stores hold the same messages of a record. */
  ghost predicate SameRecord(s: Store, t: Store, recordId: string)
  {
    forall c :: SameAt(s, t, recordId, c)
  }

  ghost predicate SameAt(s: Store, t: Store, recordId: string, c: string)
  {
    && (c in s && InRecord(s[c], recordId) ==> c in t && t[c] == s[c])
    && (c in t && InRecord(t[c], recordId) ==> c in s && s[c] == t[c])
  }

  lemma ExistingSame(s: Store, t: Store, recordId: string)
    requires SameRecord(s, t, recordId)
    ensures Existing(s, recordId) == Existing(t, recordId)
    ensures forall c :: c in Existing(s, recordId) ==> c in s && c in t && s[c] == t[c]
  {
    forall c ensures c in RecordCids(s, recordId) <==> c in RecordCids(t, recordId) {
      assert SameAt(s, t, recordId, c);
    }
    assert RecordCids(s, recordId) == RecordCids(t, recordId);
    var r := Existing(s, recordId);
    forall i | 0 <= i < |r| ensures r[i] in t && t[r[i]] == s[r[i]] {
      assert SameAt(s, t, recordId, r[i]);
    }
    ByTimeUnique(t, RecordCids(t, recordId), r);
  }

  lemma ExistingOne(s: Store, recordId: string, c: string)
    requires RecordCids(s, recordId) == {c}
    ensures Existing(s, recordId) == [c]
  {
    assert c in RecordCids(s, recordId);
    assert Elements([c]) == {c};
    ByTimeUnique(s, RecordCids(s, recordId), [c]);
  }

  lemma ExistingTwo(s: Store, recordId: string, c: string, d: string)
    requires RecordCids(s, recordId) == {c, d} && c in s && d in s && Older(s[c], c, s[d], d)
    ensures Existing(s, recordId) == [c, d]
  {
    assert c in RecordCids(s, recordId) && d in RecordCids(s, recordId);
    assert Elements([c, d]) == {c, d};
    ByTimeUnique(s, RecordCids(s, recordId), [c, d]);
  }

  // ----- tidy records ------------------------------------------------------

  /** A record has at most two messages; the earliest is its initial write. Of
      two, the first is archived and the second is a delete or a write that
      agrees with it. So at most one message is not archived. */
  ghost predicate TidyRecord(env: Env, s: Store, recordId: string)
  {
    var r := Existing(s, recordId);
    && |r| <= 2
    && (r != [] ==> s[r[0]].StoredWrite? && IsInitial(env, s[r[0]].write))
    && (|r| == 2 ==> s[r[0]].archived && (s[r[1]].StoredWrite? ==>
          SameImmutables(s[r[1]].write.descriptor, s[r[0]].write.descriptor)))
  }

  ghost predicate Tidy(env: Env, s: Store)
  {
    forall recordId :: TidyRecord(env, s, recordId)
  }

  lemma TidySame(env: Env, s: Store, t: Store, recordId: string)
    requires SameRecord(s, t, recordId)
    ensures TidyRecord(env, s, recordId) <==> TidyRecord(env, t, recordId)
  {
    ExistingSame(s, t, recordId);
    var r := Existing(s, recordId);
    if |r| > 0 { assert r[0] in r; }
    if |r| > 1 { assert r[1] in r; }
  }

  // ----- accepting a write -------------------------------------------------

  function NewMessage(env: Env, st: State, req: WriteRequest): Stored
  {
    StoredWrite(WithData(env, st, req), BornArchived(env, req))
  }

  lemma PurgedOne(st: State, fetched: Store, c: string)
    requires c in fetched && fetched[c].StoredWrite?
    ensures Purged(st, fetched, [c]) ==
            (State(st.messages - {c}, st.events - {c}, st.data - {DataKey(fetched[c].write)}), true)
  {
    assert [c][1..] == [];
  }

  /** On a record of at most two messages an accepted write leaves the initial
      write, archived, and itself. */
  lemma ReplacedShort(env: Env, st: State, req: WriteRequest)
    requires Follows(env, st.messages, req.write) && |Existing(st.messages, req.write.recordId)| <= 2
    ensures var r, cid := Existing(st.messages, req.write.recordId), env.writeCid(req.write);
            && Replaced(env, st, req).1
            && Replaced(env, st, req).0.messages ==
               (if r == [] then st.messages[cid := NewMessage(env, st, req)]
                else st.messages[cid := NewMessage(env, st, req)][r[0] := Archived(st.messages[r[0]])]
                     - (if |r| == 2 then {r[1]} else {}))
  {
    var r := Existing(st.messages, req.write.recordId);
    if r != [] {
      var initial := InitialArchived(Saved(env, st, req), r[0], st.messages[r[0]], req.stream.Some?);
      if |r| == 2 {
        assert InRecord(st.messages[r[1]], req.write.recordId);
        PurgedOne(initial, st.messages, r[1]);
        assert r[1..] == [r[1]];
      }
    }
  }

  lemma NewMessageOf(env: Env, st: State, req: WriteRequest)
    ensures var m := NewMessage(env, st, req);
            && m.write.recordId == req.write.recordId && m.write.descriptor == req.write.descriptor
            && m.write.authorization == req.write.authorization
            && (IsInitial(env, m.write) <==> IsInitial(env, req.write))
  {
    var v := WithData(env, st, req);
    assert Body(v).descriptor == req.write.descriptor && Body(v).recordId == req.write.recordId;
    assert Body(v).authorization == req.write.authorization;
  }

  lemma {:induction false} PurgedKeeps(st: State, fetched: Store, cids: seq<string>, c: string)
    requires forall i :: 0 <= i < |cids| ==> cids[i] in fetched
    requires c in st.messages && c !in cids
    ensures c in Purged(st, fetched, cids).0.messages && Purged(st, fetched, cids).0.messages[c] == st.messages[c]
    decreases |cids|
  {
    if cids != [] && fetched[cids[0]].StoredWrite? {
      var rest := State(st.messages - {cids[0]}, st.events - {cids[0]}, st.data - {DataKey(fetched[cids[0]].write)});
      PurgedKeeps(rest, fetched, cids[1..], c);
    }
  }

  lemma ReplacedKeeps(env: Env, st: State, req: WriteRequest, c: string)
    requires c in st.messages && !InRecord(st.messages[c], req.write.recordId)
    requires env.writeCid(req.write) !in st.messages
    ensures c in Replaced(env, st, req).0.messages && Replaced(env, st, req).0.messages[c] == st.messages[c]
  {
    var r := Existing(st.messages, req.write.recordId);
    assert c !in RecordCids(st.messages, req.write.recordId);
    assert c !in Elements(r);
    if r != [] && st.messages[r[0]].StoredWrite? {
      assert r[0] in Elements(r);
      var initial := InitialArchived(Saved(env, st, req), r[0], st.messages[r[0]], req.stream.Some?);
      PurgedKeeps(initial, st.messages, r[1..], c);
    }
  }

  /** A write leaves the messages of all other records as they are. */
  lemma OtherRecords(env: Env, st: State, req: WriteRequest, recordId: string)
    requires recordId != req.write.recordId && env.writeCid(req.write) !in st.messages
    ensures SameRecord(st.messages, Replaced(env, st, req).0.messages, recordId)
  {
    var s, after := st.messages, Replaced(env, st, req).0.messages;
    forall c ensures SameAt(s, after, recordId, c) {
      if c in s && InRecord(s[c], recordId) { ReplacedKeeps(env, st, req, c); }
      if c in after && InRecord(after[c], recordId) { BackFrom(env, st, req, recordId, c); }
    }
  }

  lemma BackFrom(env: Env, st: State, req: WriteRequest, recordId: string, c: string)
    requires recordId != req.write.recordId
    requires c in Replaced(env, st, req).0.messages && InRecord(Replaced(env, st, req).0.messages[c], recordId)
    ensures c in st.messages && Replaced(env, st, req).0.messages[c] == st.messages[c]
  {
    ReplacedMessage(env, st, req, c);
    NewMessageOf(env, st, req);
    var r := Existing(st.messages, req.write.recordId);
    assert r != [] ==> r[0] in RecordCids(st.messages, req.write.recordId);
  }

  lemma WrittenCids(env: Env, st: State, req: WriteRequest)
    requires Follows(env, st.messages, req.write) && |Existing(st.messages, req.write.recordId)| <= 2
    requires env.writeCid(req.write) !in st.messages
    ensures var r, cid := Existing(st.messages, req.write.recordId), env.writeCid(req.write);
            var after := Replaced(env, st, req).0.messages;
            RecordCids(after, req.write.recordId) == if r == [] then {cid} else {r[0], cid}
  {
    var s, id := st.messages, req.write.recordId;
    var r, after := Existing(s, id), Replaced(env, st, req).0.messages;
    ReplacedShort(env, st, req);
    NewMessageOf(env, st, req);
    OldestFirstDistinct(s, RecordCids(s, id), r);
    forall c | c in s && InRecord(s[c], id) ensures c in r { assert c in Elements(r); }
    if r != [] { assert InRecord(s[r[0]], id); }
  }

  /** The record after an accepted write: the write, after the initial one. */
  lemma WrittenRecord(env: Env, st: State, req: WriteRequest)
    requires Follows(env, st.messages, req.write) && |Existing(st.messages, req.write.recordId)| <= 2
    requires env.writeCid(req.write) !in st.messages
    ensures var r, cid := Existing(st.messages, req.write.recordId), env.writeCid(req.write);
            var after := Replaced(env, st, req).0.messages;
            && Existing(after, req.write.recordId) == (if r == [] then [cid] else [r[0], cid])
            && cid in after && after[cid] == NewMessage(env, st, req)
            && (r != [] ==> r[0] in after && after[r[0]] == Archived(st.messages[r[0]]))
  {
    var s, w, cid := st.messages, req.write, env.writeCid(req.write);
    var r, after := Existing(s, w.recordId), Replaced(env, st, req).0.messages;
    ReplacedShort(env, st, req);
    NewMessageOf(env, st, req);
    WrittenCids(env, st, req);
    if r == [] {
      ExistingOne(after, w.recordId, cid);
    } else {
      OldestFirstDistinct(s, RecordCids(s, w.recordId), r);
      var first, last := r[0], r[|r| - 1];
      if |r| == 2 { OlderTransitive(s[first], first, s[last], last, StoredWrite(w, false), cid); }
      ExistingTwo(after, w.recordId, first, cid);
    }
  }

  /** An accepted write that is no revocation keeps all records tidy. */
  lemma WriteKeepsTidy(env: Env, st: State, req: WriteRequest)
    requires SoundHashes(env) && WellKeyed(env, st.messages) && Tidy(env, st.messages)
    requires Accepted(env, st, req) && !IsRevocation(req.write)
    ensures Tidy(env, WriteStep(env, st, req).messages)
  {
    var s, w := st.messages, req.write;
    assert TidyRecord(env, s, w.recordId);
    AcceptedIsNew(env, st, req);
    WrittenRecord(env, st, req);
    NewMessageOf(env, st, req);
    ReplacedShort(env, st, req);
    var after := Replaced(env, st, req).0.messages;
    forall recordId | recordId != w.recordId ensures TidyRecord(env, after, recordId) {
      OtherRecords(env, st, req, recordId);
      TidySame(env, s, after, recordId);
    }
    assert TidyRecord(env, after, w.recordId);
  }
}
