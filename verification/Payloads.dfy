/** Small data, which is kept in messages: where the data of a stored write came
    from. */
module Payloads {
  import opened Results
  import opened Messages
  import opened RecordQueries
  import opened NodeState
  import opened Writes
  import opened Deletes
  import opened Runs
  import opened Lifecycle
  import opened RoleRecords
  import opened Admissions

  predicate IsSmall(w: Write)
  {
    w.descriptor.dataSize <= MAX_ENCODED_SIZE
  }

  /** The last message of a record holds the data that an update goes on with. */
  ghost predicate TakesOver(s: Store, w: Write, data: Option<string>)
  {
    var r := Existing(s, w.recordId);
    && r != [] && s[r[|r| - 1]].StoredWrite?
    && var latest := s[r[|r| - 1]].write;
       && latest.encodedData == data && data.Some?
       && latest.descriptor.dataCid == w.descriptor.dataCid && latest.descriptor.dataSize == w.descriptor.dataSize
  }

  /** The data with which a small write is stored: that of its stream; without one,
      that of the message it follows; and for an initial write without a stream
      what the message itself held. */
  lemma AcceptedHolds(env: Env, st: State, req: WriteRequest)
    requires Accepted(env, st, req) && IsSmall(req.write)
    ensures var data := NewMessage(env, st, req).write.encodedData;
            && (req.stream.Some? ==> data == req.stream)
            && (req.stream.None? && !IsInitial(env, req.write) ==> TakesOver(st.messages, req.write, data))
            && (req.stream.None? && IsInitial(env, req.write) ==> data == req.write.encodedData)
  {
  }

  /** After an accepted small write that is no revocation, the message stored under
      its CID holds the stream if there is one, and otherwise, if it is an update,
      the data of the record's last message, which is there. */
  lemma SmallDataStored(env: Env, st: State, req: WriteRequest)
    requires SoundHashes(env) && WellKeyed(env, st.messages) && Accepted(env, st, req)
    requires IsSmall(req.write) && !IsRevocation(req.write)
    ensures var c, after := env.writeCid(req.write), WriteStep(env, st, req).messages;
            && c in after && after[c].StoredWrite?
            && (req.stream.Some? ==> after[c].write.encodedData == req.stream)
            && (req.stream.None? && !IsInitial(env, req.write) ==>
                  TakesOver(st.messages, req.write, after[c].write.encodedData))
  {
    AcceptedIsNew(env, st, req);
    WriteIsStored(env, st, req);
    AcceptedHolds(env, st, req);
  }

  // ----- runs --------------------------------------------------------------

  /** An accepted write of the record brought the data, for the same data CID and
      size: in its stream, or in an initial write without one. */
  ghost predicate BroughtAt(env: Env, reqs: seq<Request>, i: nat, w: Write, streamed: bool)
    requires i < |reqs|
  {
    && reqs[i].WriteIt? && Accepted(env, Run(env, EMPTY, reqs[..i]), reqs[i].write)
    && var v := reqs[i].write.write;
       && v.recordId == w.recordId && v.descriptor.dataCid == w.descriptor.dataCid
       && v.descriptor.dataSize == w.descriptor.dataSize
       && if streamed then reqs[i].write.stream == w.encodedData
          else reqs[i].write.stream.None? && IsInitial(env, v) && v.encodedData == w.encodedData
  }

  ghost predicate WasBrought(env: Env, reqs: seq<Request>, w: Write)
  {
    exists i, streamed :: 0 <= i < |reqs| && BroughtAt(env, reqs, i, w, streamed)
  }

  /** A small write has the data that an accepted write of its record brought, and
      if it is current it has some. */
  ghost predicate IsSourced(env: Env, reqs: seq<Request>, m: Stored)
  {
    m.StoredWrite? && IsSmall(m.write) ==>
      (m.write.encodedData.Some? ==> WasBrought(env, reqs, m.write)) && (!m.archived ==> m.write.encodedData.Some?)
  }

  lemma {:induction false} BroughtBefore(env: Env, reqs: seq<Request>, v: Write, w: Write)
    requires reqs != [] && WasBrought(env, reqs[..|reqs| - 1], v)
    requires v.recordId == w.recordId && v.encodedData == w.encodedData
    requires v.descriptor.dataCid == w.descriptor.dataCid && v.descriptor.dataSize == w.descriptor.dataSize
    ensures WasBrought(env, reqs, w)
  {
    var n := |reqs| - 1;
    var i, streamed :| 0 <= i < n && BroughtAt(env, reqs[..n], i, v, streamed);
    assert reqs[..n][..i] == reqs[..i];
    assert BroughtAt(env, reqs, i, w, streamed);
  }

  lemma NewIsSourced(env: Env, reqs: seq<Request>)
    requires reqs != [] && reqs[|reqs| - 1].WriteIt?
    requires Accepted(env, Run(env, EMPTY, reqs[..|reqs| - 1]), reqs[|reqs| - 1].write)
    requires var s := Run(env, EMPTY, reqs[..|reqs| - 1]).messages;
             var r := Existing(s, reqs[|reqs| - 1].write.write.recordId);
             r != [] ==> IsSourced(env, reqs[..|reqs| - 1], s[r[|r| - 1]])
    ensures IsSourced(env, reqs, NewMessage(env, Run(env, EMPTY, reqs[..|reqs| - 1]), reqs[|reqs| - 1].write))
  {
    var n := |reqs| - 1;
    var st, req := Run(env, EMPTY, reqs[..n]), reqs[n].write;
    var m := NewMessage(env, st, req);
    NewMessageOf(env, st, req);
    if IsSmall(req.write) {
      AcceptedHolds(env, st, req);
      if req.stream.None? && !IsInitial(env, req.write) {
        var r := Existing(st.messages, req.write.recordId);
        assert r[|r| - 1] in RecordCids(st.messages, req.write.recordId);
        BroughtBefore(env, reqs, st.messages[r[|r| - 1]].write, m.write);
      } else {
        assert BroughtAt(env, reqs, n, m.write, req.stream.Some?);
      }
    }
  }

  lemma StillSourced(env: Env, reqs: seq<Request>, m: Stored, after: Stored)
    requires reqs != [] && IsSourced(env, reqs[..|reqs| - 1], m)
    requires after == m || (m.StoredWrite? && after == Archived(m))
    ensures IsSourced(env, reqs, after)
  {
    if m.StoredWrite? && IsSmall(m.write) && m.write.encodedData.Some? { BroughtBefore(env, reqs, m.write, m.write); }
  }

  /** On every run, every stored small write has its data from an accepted write of
      its record, and current ones have some. */
  lemma {:induction false} RunSourced(env: Env, reqs: seq<Request>, c: string)
    requires SoundHashes(env) && c in Run(env, EMPTY, reqs).messages
    ensures IsSourced(env, reqs, Run(env, EMPTY, reqs).messages[c])
    decreases |reqs|
  {
    if reqs != [] {
      var n := |reqs| - 1;
      var st, after := Run(env, EMPTY, reqs[..n]), Run(env, EMPTY, reqs).messages;
      RunKeyed(env, reqs[..n]);
      StepExplained(env, st, reqs[n], c);
      if Kept(st.messages, after, c) {
        RunSourced(env, reqs[..n], c);
        StillSourced(env, reqs, st.messages[c], after[c]);
      } else if reqs[n].WriteIt? {
        var r := Existing(st.messages, reqs[n].write.write.recordId);
        if r != [] { RunSourced(env, reqs[..n], r[|r| - 1]); }
        NewIsSourced(env, reqs);
      }
    }
  }

  // ----- data that came in streams ----------------------------------------

  /** An accepted write of the record brought the data in its stream. */
  ghost predicate CameStreamed(env: Env, reqs: seq<Request>, w: Write)
  {
    exists i :: 0 <= i < |reqs| && BroughtAt(env, reqs, i, w, true)
  }

  /** If the message is a current small write, its data is there and was streamed. */
  ghost predicate IsStreamed(env: Env, reqs: seq<Request>, m: Stored)
  {
    m.StoredWrite? && !m.archived && IsSmall(m.write) ==>
      m.write.encodedData.Some? && CameStreamed(env, reqs, m.write)
  }

  ghost predicate AllStreamed(env: Env, reqs: seq<Request>)
  {
    forall c :: c in Run(env, EMPTY, reqs).messages ==> IsStreamed(env, reqs, Run(env, EMPTY, reqs).messages[c])
  }

  /** The step's write is an update without a stream, and stays in the store. */
  ghost predicate IsBareUpdate(env: Env, st: State, req: Request)
  {
    && req.WriteIt? && Accepted(env, st, req.write) && IsSmall(req.write.write)
    && req.write.stream.None? && !IsInitial(env, req.write.write)
    && env.writeCid(req.write.write) in WriteStep(env, st, req.write).messages
  }

  /** The step's update takes over what the record's latest message, archived and so
      without a stream, held of itself: no stream has brought that data. */
  ghost predicate TakesUnstreamed(env: Env, reqs: seq<Request>)
    requires reqs != []
  {
    var st, req := Run(env, EMPTY, reqs[..|reqs| - 1]), reqs[|reqs| - 1];
    && IsBareUpdate(env, st, req)
    && exists c :: IsLatest(st.messages, req.write.write.recordId, c) && st.messages[c].StoredWrite?
                   && st.messages[c].archived && !CameStreamed(env, reqs[..|reqs| - 1], st.messages[c].write)
  }

  predicate SameData(v: Write, w: Write)
  {
    && v.recordId == w.recordId && v.encodedData == w.encodedData
    && v.descriptor.dataCid == w.descriptor.dataCid && v.descriptor.dataSize == w.descriptor.dataSize
  }

  lemma BroughtShift(env: Env, reqs: seq<Request>, n: nat, i: nat, v: Write, w: Write)
    requires i < n <= |reqs| && SameData(v, w)
    ensures BroughtAt(env, reqs[..n], i, v, true) <==> BroughtAt(env, reqs, i, w, true)
  {
    assert reqs[..n][..i] == reqs[..i];
  }

  lemma StreamedBefore(env: Env, reqs: seq<Request>, v: Write, w: Write)
    requires reqs != [] && SameData(v, w) && CameStreamed(env, reqs[..|reqs| - 1], v)
    ensures CameStreamed(env, reqs, w)
  {
    var n := |reqs| - 1;
    var i :| 0 <= i < n && BroughtAt(env, reqs[..n], i, v, true);
    BroughtShift(env, reqs, n, i, v, w);
  }

  lemma BroughtInStream(env: Env, reqs: seq<Request>, i: nat, w: Write)
    requires i < |reqs| && BroughtAt(env, reqs, i, w, true) && w.encodedData.Some?
    requires reqs[|reqs| - 1].WriteIt? && reqs[|reqs| - 1].write.stream.None?
    ensures i < |reqs| - 1
  {
  }

  lemma StreamedShift(env: Env, reqs: seq<Request>, i: nat, v: Write, w: Write)
    requires i < |reqs| - 1 && SameData(v, w) && BroughtAt(env, reqs, i, w, true)
    ensures CameStreamed(env, reqs[..|reqs| - 1], v)
  {
    BroughtShift(env, reqs, |reqs| - 1, i, v, w);
    assert BroughtAt(env, reqs[..|reqs| - 1], i, v, true);
  }

  lemma NotStreamedNow(env: Env, reqs: seq<Request>, v: Write, w: Write)
    requires reqs != [] && SameData(v, w) && CameStreamed(env, reqs, w) && w.encodedData.Some?
    requires reqs[|reqs| - 1].WriteIt? && reqs[|reqs| - 1].write.stream.None?
    ensures CameStreamed(env, reqs[..|reqs| - 1], v)
  {
    var i :| 0 <= i < |reqs| && BroughtAt(env, reqs, i, w, true);
    BroughtInStream(env, reqs, i, w);
    StreamedShift(env, reqs, i, v, w);
  }

  /** A bare update's message holds the data of the record's latest message. */
  lemma BareUpdateHolds(env: Env, reqs: seq<Request>) returns (c: string)
    requires reqs != []
    requires var st, req := Run(env, EMPTY, reqs[..|reqs| - 1]), reqs[|reqs| - 1];
             && req.WriteIt? && Accepted(env, st, req.write) && IsSmall(req.write.write)
             && req.write.stream.None? && !IsInitial(env, req.write.write)
    ensures var st, req := Run(env, EMPTY, reqs[..|reqs| - 1]), reqs[|reqs| - 1];
            var m := NewMessage(env, st, req.write);
            && IsLatest(st.messages, req.write.write.recordId, c) && st.messages[c].StoredWrite?
            && IsSmall(st.messages[c].write) && !m.archived && IsSmall(m.write) && m.write.encodedData.Some?
            && (CameStreamed(env, reqs[..|reqs| - 1], st.messages[c].write) <==> CameStreamed(env, reqs, m.write))
  {
    var st, req := Run(env, EMPTY, reqs[..|reqs| - 1]), reqs[|reqs| - 1].write;
    var r := Existing(st.messages, req.write.recordId);
    AcceptedHolds(env, st, req);
    NewMessageOf(env, st, req);
    ExistingEnds(st.messages, req.write.recordId);
    c := r[|r| - 1];
    var v, w := st.messages[c].write, NewMessage(env, st, req).write;
    assert SameData(v, w) by { assert c in RecordCids(st.messages, req.write.recordId); }
    if CameStreamed(env, reqs[..|reqs| - 1], v) { StreamedBefore(env, reqs, v, w); }
    if CameStreamed(env, reqs, w) { NotStreamedNow(env, reqs, v, w); }
  }

  lemma LatestUnique(s: Store, recordId: string, c: string, d: string)
    requires IsLatest(s, recordId, c) && IsLatest(s, recordId, d)
    ensures c == d
  {
    if c != d { OlderTotal(s[c], c, s[d], d); }
  }

  lemma NewIsStreamed(env: Env, reqs: seq<Request>)
    requires reqs != [] && reqs[|reqs| - 1].WriteIt? && AllStreamed(env, reqs[..|reqs| - 1])
    requires Accepted(env, Run(env, EMPTY, reqs[..|reqs| - 1]), reqs[|reqs| - 1].write)
    requires env.writeCid(reqs[|reqs| - 1].write.write) in Run(env, EMPTY, reqs).messages
    requires !TakesUnstreamed(env, reqs)
    ensures IsStreamed(env, reqs, NewMessage(env, Run(env, EMPTY, reqs[..|reqs| - 1]), reqs[|reqs| - 1].write))
  {
    var n := |reqs| - 1;
    var st, req := Run(env, EMPTY, reqs[..n]), reqs[n].write;
    var m := NewMessage(env, st, req);
    NewMessageOf(env, st, req);
    if IsSmall(req.write) && !m.archived {
      if req.stream.Some? {
        AcceptedHolds(env, st, req);
        assert BroughtAt(env, reqs, n, m.write, true);
      } else {
        var c := BareUpdateHolds(env, reqs);
        assert IsStreamed(env, reqs[..n], st.messages[c]);
      }
    }
  }

  /** From a state whose data was streamed, a step leads to such a state exactly when
      it does not take over unstreamed data. */
  lemma StepStreamedIff(env: Env, reqs: seq<Request>)
    requires SoundHashes(env) && reqs != [] && AllStreamed(env, reqs[..|reqs| - 1])
    ensures AllStreamed(env, reqs) <==> !TakesUnstreamed(env, reqs)
  {
    var n := |reqs| - 1;
    var st, after := Run(env, EMPTY, reqs[..n]), Run(env, EMPTY, reqs).messages;
    RunKeyed(env, reqs[..n]);
    if !TakesUnstreamed(env, reqs) {
      forall c | c in after ensures IsStreamed(env, reqs, after[c]) {
        StepExplained(env, st, reqs[n], c);
        if Kept(st.messages, after, c) {
          assert IsStreamed(env, reqs[..n], st.messages[c]);
          if after[c].StoredWrite? && CameStreamed(env, reqs[..n], st.messages[c].write) {
            StreamedBefore(env, reqs, st.messages[c].write, after[c].write);
          }
        } else if reqs[n].WriteIt? {
          WrittenCid(env, st, reqs[n].write);
          NewIsStreamed(env, reqs);
        }
      }
    } else {
      UnstreamedIsTaken(env, reqs);
    }
  }

  lemma NewIsUnstreamed(env: Env, reqs: seq<Request>)
    requires reqs != [] && TakesUnstreamed(env, reqs)
    ensures !IsStreamed(env, reqs, NewMessage(env, Run(env, EMPTY, reqs[..|reqs| - 1]), reqs[|reqs| - 1].write))
  {
    var n := |reqs| - 1;
    var st, req := Run(env, EMPTY, reqs[..n]), reqs[n].write;
    var d := BareUpdateHolds(env, reqs);
    var c :| IsLatest(st.messages, req.write.recordId, c) && st.messages[c].StoredWrite?
             && st.messages[c].archived && !CameStreamed(env, reqs[..n], st.messages[c].write);
    LatestUnique(st.messages, req.write.recordId, c, d);
  }

  lemma StoredAsNew(env: Env, st: State, req: WriteRequest)
    requires SoundHashes(env) && WellKeyed(env, st.messages) && Accepted(env, st, req)
    requires env.writeCid(req.write) in WriteStep(env, st, req).messages
    ensures WriteStep(env, st, req).messages[env.writeCid(req.write)] == NewMessage(env, st, req)
  {
    AcceptedIsNew(env, st, req);
    WriteIsStored(env, st, req);
  }

  lemma UnstreamedIsTaken(env: Env, reqs: seq<Request>)
    requires SoundHashes(env) && reqs != [] && TakesUnstreamed(env, reqs)
    ensures !AllStreamed(env, reqs)
  {
    var n := |reqs| - 1;
    var st, req := Run(env, EMPTY, reqs[..n]), reqs[n].write;
    NewIsUnstreamed(env, reqs);
    RunKeyed(env, reqs[..n]);
    StoredAsNew(env, st, req);
    assert Run(env, EMPTY, reqs).messages == WriteStep(env, st, req).messages;
    assert env.writeCid(req.write) in Run(env, EMPTY, reqs).messages;
  }

  predicate Begins(begun: seq<Request>, reqs: seq<Request>)
  {
    |begun| <= |reqs| && begun == reqs[..|begun|]
  }

  ghost predicate AlwaysStreamed(env: Env, reqs: seq<Request>)
  {
    forall begun :: Begins(begun, reqs) ==> AllStreamed(env, begun)
  }

  ghost predicate NeverUnstreamed(env: Env, reqs: seq<Request>)
  {
    forall begun :: Begins(begun, reqs) && begun != [] ==> !TakesUnstreamed(env, begun)
  }

  lemma PrefixNext(begun: seq<Request>, reqs: seq<Request>)
    requires reqs != []
    ensures Begins(begun, reqs) <==> begun == reqs || Begins(begun, reqs[..|reqs| - 1])
  {
    if begun <= reqs && |begun| == |reqs| { assert begun == reqs; }
  }

  lemma PrefixesNext(env: Env, reqs: seq<Request>)
    requires reqs != []
    ensures AlwaysStreamed(env, reqs) <==> AlwaysStreamed(env, reqs[..|reqs| - 1]) && AllStreamed(env, reqs)
    ensures NeverUnstreamed(env, reqs) <==> NeverUnstreamed(env, reqs[..|reqs| - 1]) && !TakesUnstreamed(env, reqs)
  {
    forall begun ensures Begins(begun, reqs) <==> begun == reqs || Begins(begun, reqs[..|reqs| - 1]) {
      PrefixNext(begun, reqs);
    }
  }

  lemma StreamedOnIff(env: Env, reqs: seq<Request>)
    requires SoundHashes(env) && reqs != [] && AlwaysStreamed(env, reqs[..|reqs| - 1])
    ensures AllStreamed(env, reqs) <==> !TakesUnstreamed(env, reqs)
  {
    assert Begins(reqs[..|reqs| - 1], reqs[..|reqs| - 1]);
    StepStreamedIff(env, reqs);
  }

  lemma NothingUnstreamed(env: Env)
    ensures AlwaysStreamed(env, []) && NeverUnstreamed(env, [])
  {
    forall begun | Begins(begun, []) ensures begun == [] {}
    assert AllStreamed(env, []);
  }

  /** Along a run the data of all current small writes is there and came in streams,
      in all its states, exactly when no step takes over unstreamed data. */
  lemma {:induction false} RunStreamedIff(env: Env, reqs: seq<Request>)
    requires SoundHashes(env)
    ensures AlwaysStreamed(env, reqs) <==> NeverUnstreamed(env, reqs)
    decreases |reqs|
  {
    if reqs == [] {
      NothingUnstreamed(env);
    } else {
      var front := reqs[..|reqs| - 1];
      RunStreamedIff(env, front);
      PrefixesNext(env, reqs);
      if AlwaysStreamed(env, front) { StreamedOnIff(env, reqs); }
    }
  }
}
