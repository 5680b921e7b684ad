/** The lifecycle of records over whole runs. */
module TidyRuns {
  import opened Order
  import opened Messages
  import opened RecordQueries
  import opened NodeState
  import opened Writes
  import opened Deletes
  import opened Runs
  import opened Lifecycle
  import opened Deletion
  import opened Admissions

  /** The step is no applied delete that is dated like its record's latest
      message, or whose record has a second initial write. */
  predicate Regular(env: Env, st: State, req: Request)
  {
    match req
    case DeleteIt(r) => DeleteApplies(env, st, r) ==> RegularDelete(env, st.messages, r.delete)
    case _ => true
  }

  predicate IsRevocationOf(req: Request)
  {
    req.WriteIt? && IsRevocation(req.write.write)
  }

  lemma ConfigureSameRecords(env: Env, st: State, req: ConfigureRequest, recordId: string)
    requires SoundHashes(env) && WellKeyed(env, st.messages)
    ensures SameRecord(st.messages, ConfigureStep(env, st, req).messages, recordId)
  {
    var s, after, cid := st.messages, ConfigureStep(env, st, req).messages, env.configureCid(req.configure);
    forall c ensures SameAt(s, after, recordId, c) {
      if c in s && InRecord(s[c], recordId) {
        assert CidOf(env, s[c]) == c;
        NotConfigureCid(env, s[c], req.configure);
      }
    }
  }

  lemma NotConfigureCid(env: Env, m: Stored, c: Configure)
    requires SoundHashes(env) && !m.StoredConfigure?
    ensures CidOf(env, m) != env.configureCid(c)
  {
    if m.StoredWrite? { SomeDelete(env, m.write, c); } else { SomeWrite(env, m.delete, c); }
  }

  /** From tidy records, a step that is no revocation leaves tidy records exactly
      when it is regular. */
  lemma StepTidyIff(env: Env, st: State, req: Request)
    requires SoundHashes(env) && WellKeyed(env, st.messages) && Tidy(env, st.messages) && !IsRevocationOf(req)
    ensures Tidy(env, Step(env, st, req).messages) <==> Regular(env, st, req)
  {
    match req
    case WriteIt(r) => if Accepted(env, st, r) { WriteKeepsTidy(env, st, r); }
    case DeleteIt(r) => if DeleteApplies(env, st, r) { DeleteTidyIff(env, st, r); }
    case ConfigureIt(r) =>
      var s, after := st.messages, ConfigureStep(env, st, r).messages;
      forall recordId ensures TidyRecord(env, after, recordId) {
        assert TidyRecord(env, s, recordId);
        ConfigureSameRecords(env, st, r, recordId);
        TidySame(env, s, after, recordId);
      }
  }

  /** Every step of the run is regular in the state it meets. */
  ghost predicate RegularRun(env: Env, reqs: seq<Request>)
    decreases |reqs|
  {
    reqs != [] ==>
      var n := |reqs| - 1; RegularRun(env, reqs[..n]) && Regular(env, Run(env, EMPTY, reqs[..n]), reqs[n])
  }

  /** The records are tidy after every step of the run. */
  ghost predicate AlwaysTidy(env: Env, reqs: seq<Request>)
    decreases |reqs|
  {
    Tidy(env, Run(env, EMPTY, reqs).messages) && (reqs != [] ==> AlwaysTidy(env, reqs[..|reqs| - 1]))
  }

  lemma EmptyTidy(env: Env)
    ensures Tidy(env, EMPTY.messages)
  {
    forall recordId ensures TidyRecord(env, EMPTY.messages, recordId) {
      var r := Existing(EMPTY.messages, recordId);
      assert Elements(r) == {};
      ElementsEmpty(r);
    }
  }

  /** Without revocations, the records are tidy throughout a run exactly when
      each of its steps is regular. */
  lemma {:induction false} RunTidyIff(env: Env, reqs: seq<Request>)
    requires SoundHashes(env) && forall i :: 0 <= i < |reqs| ==> !IsRevocationOf(reqs[i])
    ensures AlwaysTidy(env, reqs) <==> RegularRun(env, reqs)
    decreases |reqs|
  {
    if reqs == [] {
      EmptyTidy(env);
    } else {
      var n := |reqs| - 1;
      RunTidyIff(env, reqs[..n]);
      if AlwaysTidy(env, reqs[..n]) { LastTidyIff(env, reqs); }
    }
  }

  lemma LastTidyIff(env: Env, reqs: seq<Request>)
    requires SoundHashes(env) && reqs != [] && !IsRevocationOf(reqs[|reqs| - 1])
    requires AlwaysTidy(env, reqs[..|reqs| - 1])
    ensures var n := |reqs| - 1;
            Tidy(env, Run(env, EMPTY, reqs).messages) <==> Regular(env, Run(env, EMPTY, reqs[..n]), reqs[n])
  {
    var n := |reqs| - 1;
    var st := Run(env, EMPTY, reqs[..n]);
    RunKeyed(env, reqs[..n]);
    StepTidyIff(env, st, reqs[n]);
  }

  /** An initial write with which all writes of the record agree. */
  ghost predicate InitialOf(env: Env, s: Store, recordId: string, c: string)
    requires c in s
  {
    && s[c].StoredWrite? && IsInitial(env, s[c].write)
    && forall d :: d in RecordCids(s, recordId) && s[d].StoredWrite? ==>
         Agrees(s[d].write.descriptor, s[c].write.descriptor)
  }

  /** In every state of a regular run: two messages of a record that are both
      unarchived are the same message; a record has no third message; its oldest
      message is its initial write; and every write of the record agrees with
      that one on all that updates may not change. */
  lemma RecordsStayTidy(env: Env, reqs: seq<Request>, recordId: string)
    requires SoundHashes(env) && RegularRun(env, reqs) && forall i :: 0 <= i < |reqs| ==> !IsRevocationOf(reqs[i])
    ensures var s := Run(env, EMPTY, reqs).messages;
            && |UnarchivedCids(s, recordId)| <= 1
            && |RecordCids(s, recordId)| <= 2
            && forall c :: IsOldest(s, RecordCids(s, recordId), c) ==> InitialOf(env, s, recordId, c)
  {
    RunTidyIff(env, reqs);
    var s := Run(env, EMPTY, reqs).messages;
    assert TidyRecord(env, s, recordId);
    TidyCounts(env, s, recordId);
    forall c | IsOldest(s, RecordCids(s, recordId), c)
      ensures InitialOf(env, s, recordId, c)
    {
      TidyOldest(env, s, recordId, c);
    }
  }

  lemma ListedCids(s: Store, recordId: string)
    requires |Existing(s, recordId)| <= 2
    ensures var r := Existing(s, recordId);
            RecordCids(s, recordId) == if r == [] then {} else if |r| == 1 then {r[0]} else {r[0], r[1]}
  {
    var r := Existing(s, recordId);
    assert Elements(r) == if r == [] then {} else if |r| == 1 then {r[0]} else {r[0], r[1]};
  }

  lemma TidyCounts(env: Env, s: Store, recordId: string)
    requires TidyRecord(env, s, recordId)
    ensures |RecordCids(s, recordId)| <= 2 && |UnarchivedCids(s, recordId)| <= 1
  {
    var r := Existing(s, recordId);
    ListedCids(s, recordId);
    assert UnarchivedCids(s, recordId) <= RecordCids(s, recordId);
    if |r| == 1 {
      Smaller(UnarchivedCids(s, recordId), {r[0]});
    } else if |r| == 2 {
      assert r[0] !in UnarchivedCids(s, recordId);
      Smaller(UnarchivedCids(s, recordId), {r[1]});
    }
  }

  lemma {:induction false} Smaller(a: set<string>, b: set<string>)
    requires a <= b
    ensures |a| <= |b|
  {
    if a != {} {
      var x :| x in a;
      Smaller(a - {x}, b - {x});
    }
  }

  lemma TidyOldest(env: Env, s: Store, recordId: string, c: string)
    requires TidyRecord(env, s, recordId) && IsOldest(s, RecordCids(s, recordId), c)
    ensures InitialOf(env, s, recordId, c)
  {
    var r := Existing(s, recordId);
    ListedCids(s, recordId);
    if |r| == 2 { OlderTotal(s[r[0]], r[0], s[r[1]], r[1]); OldestFirstDistinct(s, RecordCids(s, recordId), r); }
  }

  /** On such runs, every delete that is acknowledged is applied. */
  lemma AcknowledgedDeletesApply(env: Env, reqs: seq<Request>, req: DeleteRequest)
    requires SoundHashes(env) && RegularRun(env, reqs) && forall i :: 0 <= i < |reqs| ==> !IsRevocationOf(reqs[i])
    requires DeleteAdmitted(Run(env, EMPTY, reqs), req)
    ensures DeleteApplies(env, Run(env, EMPTY, reqs), req)
  {
    RunTidyIff(env, reqs);
    assert TidyRecord(env, Run(env, EMPTY, reqs).messages, req.delete.recordId);
    AcknowledgedIsApplied(env, Run(env, EMPTY, reqs), req);
  }
}
