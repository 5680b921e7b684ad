/** Role records: in one context, a recipient has a role at most once. */
module RoleRecords {
  import opened Results
  import opened Messages
  import opened Filters
  import opened RecordQueries
  import opened NodeState
  import opened Writes
  import opened Deletes
  import opened Runs
  import opened Revocation
  import opened Lifecycle

  function ContextAbove(w: Write): Option<string>
  {
    if w.contextId.Some? then ParentContext(w.contextId.value) else None
  }

  /** The writes are role records of one recipient for one role in one context. */
  predicate SameRole(a: Write, b: Write)
  {
    && a.descriptor.protocol == b.descriptor.protocol
    && a.descriptor.protocolPath == b.descriptor.protocolPath
    && a.descriptor.recipient == b.descriptor.recipient
    && ContextAbove(a) == ContextAbove(b)
  }

  /** A verified role record is of the same record as every current one like it. */
  lemma VerifiedRoleIsOnly(s: Store, w: Write, c: string)
    requires RoleVerified(s, w) && c in s && IsCurrent(s[c]) && SameRole(s[c].write, w)
    ensures s[c].write.recordId == w.recordId
  {
    var v, q := s[c].write, RoleFilter(w);
    assert OrEmpty(v.descriptor.recipient) in q.recipient.value;
    assert q.contextId.Some? ==> v.contextId.Some? && v.contextId.value[..|q.contextId.value|] == q.contextId.value;
    assert c in CurrentCids(s, q);
  }

  /** Two stored messages are not current role records of two records for the same
      role. */
  ghost predicate OneRecord(s: Store, c: string, d: string)
  {
    c in s && d in s && IsCurrent(s[c]) && IsCurrent(s[d]) && SameRole(s[c].write, s[d].write) ==>
      s[c].write.recordId == s[d].write.recordId
  }

  lemma OneRecordSymmetric(s: Store, c: string, d: string)
    requires OneRecord(s, c, d)
    ensures OneRecord(s, d, c)
  {
  }

  // ----- one step ----------------------------------------------------------

  /** An accepted write brings a current message while another is a current one
      of another record for the same role. */
  predicate ClashesWith(env: Env, st: State, req: WriteRequest, d: string)
  {
    && Accepted(env, st, req) && !BornArchived(env, req)
    && d in st.messages && IsCurrent(st.messages[d]) && SameRole(st.messages[d].write, req.write)
    && st.messages[d].write.recordId != req.write.recordId
  }

  /** The step brings one of the two messages, and clashes with the other. */
  predicate Clashes(env: Env, st: State, req: Request, c: string, d: string)
  {
    || (Brings(env, req, c) && ClashesWith(env, st, req.write, d))
    || (Brings(env, req, d) && ClashesWith(env, st, req.write, c))
  }

  /** A protocol write that is checked as a role record clashes with nothing. */
  lemma CheckedNeverClashes(env: Env, st: State, req: WriteRequest, d: string)
    requires req.write.descriptor.protocol.Some? && req.checks.role
    ensures !ClashesWith(env, st, req, d)
  {
    if Accepted(env, st, req) && d in st.messages && IsCurrent(st.messages[d])
       && SameRole(st.messages[d].write, req.write)
    {
      VerifiedRoleIsOnly(st.messages, req.write, d);
    }
  }

  /** A new message and one that was there are of one record, unless they clash. */
  lemma NewIsOneRecord(env: Env, st: State, req: Request, c: string, d: string)
    requires SoundHashes(env) && WellKeyed(env, st.messages)
    requires c in Step(env, st, req).messages && d in Step(env, st, req).messages
    requires !Kept(st.messages, Step(env, st, req).messages, c) && Kept(st.messages, Step(env, st, req).messages, d)
    requires Brings(env, req, c) ==> !ClashesWith(env, st, req.write, d)
    ensures OneRecord(Step(env, st, req).messages, c, d)
  {
    var after := Step(env, st, req).messages;
    StepExplained(env, st, req, c);
    if req.WriteIt? && IsCurrent(after[c]) && IsCurrent(after[d]) && SameRole(after[c].write, after[d].write) {
      WrittenCid(env, st, req.write);
      NewMessageOf(env, st, req.write);
      assert Body(after[c].write).contextId == req.write.write.contextId;
    }
  }

  lemma BothNewAreOne(env: Env, st: State, req: Request, c: string, d: string)
    requires SoundHashes(env) && WellKeyed(env, st.messages)
    requires c in Step(env, st, req).messages && d in Step(env, st, req).messages
    requires !Kept(st.messages, Step(env, st, req).messages, c) && !Kept(st.messages, Step(env, st, req).messages, d)
    ensures OneRecord(Step(env, st, req).messages, c, d)
  {
    StepExplained(env, st, req, c);
    StepExplained(env, st, req, d);
  }

  /** A step that does not clash adds no second current record for a role. */
  lemma StepKeepsOneRecord(env: Env, st: State, req: Request, c: string, d: string)
    requires SoundHashes(env) && WellKeyed(env, st.messages) && OneRecord(st.messages, c, d)
    requires !Clashes(env, st, req, c, d)
    ensures OneRecord(Step(env, st, req).messages, c, d)
  {
    var s, after := st.messages, Step(env, st, req).messages;
    if c in after && d in after {
      if !Kept(s, after, c) && !Kept(s, after, d) {
        BothNewAreOne(env, st, req, c, d);
      } else if !Kept(s, after, c) {
        NewIsOneRecord(env, st, req, c, d);
      } else if !Kept(s, after, d) {
        NewIsOneRecord(env, st, req, d, c);
        OneRecordSymmetric(after, d, c);
      }
    }
  }

  /** An accepted write is stored as it was made ready. */
  lemma WriteIsStored(env: Env, st: State, req: WriteRequest)
    requires env.writeCid(req.write) !in st.messages
    ensures var c, after := env.writeCid(req.write), Replaced(env, st, req).0.messages;
            c in after && after[c] == NewMessage(env, st, req)
  {
    var s, c, r := st.messages, env.writeCid(req.write), Existing(st.messages, req.write.recordId);
    if r != [] && s[r[0]].StoredWrite? {
      var initial := InitialArchived(Saved(env, st, req), r[0], s[r[0]], req.stream.Some?);
      PurgedKeeps(initial, s, r[1..], c);
    }
  }

  /** A write that clashes, and is no revocation, makes a second current record. */
  lemma ClashMakesTwo(env: Env, st: State, req: WriteRequest, d: string)
    requires SoundHashes(env) && WellKeyed(env, st.messages) && ClashesWith(env, st, req, d)
    requires !IsRevocation(req.write)
    ensures !OneRecord(WriteStep(env, st, req).messages, env.writeCid(req.write), d)
  {
    AcceptedIsNew(env, st, req);
    WriteIsStored(env, st, req);
    NewMessageOf(env, st, req);
    assert Body(NewMessage(env, st, req).write).contextId == req.write.contextId;
    ReplacedKeeps(env, st, req, d);
  }

  /** Where two messages are of one record, a step that brings neither as a
      revocation leaves them so exactly when it does not clash. */
  lemma StepOneRecordIff(env: Env, st: State, req: Request, c: string, d: string)
    requires SoundHashes(env) && WellKeyed(env, st.messages) && OneRecord(st.messages, c, d)
    requires Brings(env, req, c) || Brings(env, req, d) ==> !IsRevocation(req.write.write)
    ensures OneRecord(Step(env, st, req).messages, c, d) <==> !Clashes(env, st, req, c, d)
  {
    if !Clashes(env, st, req, c, d) {
      StepKeepsOneRecord(env, st, req, c, d);
    } else if Brings(env, req, c) && ClashesWith(env, st, req.write, d) {
      ClashMakesTwo(env, st, req.write, d);
    } else {
      ClashMakesTwo(env, st, req.write, c);
      if OneRecord(Step(env, st, req).messages, c, d) { OneRecordSymmetric(Step(env, st, req).messages, c, d); }
    }
  }

  // ----- runs --------------------------------------------------------------

  /** No step of the run clashes on the two messages. */
  ghost predicate NeverClashes(env: Env, reqs: seq<Request>, c: string, d: string)
    decreases |reqs|
  {
    reqs != [] ==>
      var n := |reqs| - 1;
      NeverClashes(env, reqs[..n], c, d) && !Clashes(env, Run(env, EMPTY, reqs[..n]), reqs[n], c, d)
  }

  /** The two messages are of one record after every step of the run. */
  ghost predicate AlwaysOneRecord(env: Env, reqs: seq<Request>, c: string, d: string)
    decreases |reqs|
  {
    && OneRecord(Run(env, EMPTY, reqs).messages, c, d)
    && (reqs != [] ==> AlwaysOneRecord(env, reqs[..|reqs| - 1], c, d))
  }

  /** On every run whose steps do not clash, revocations or not, the two messages
      are always of one record. */
  lemma {:induction false} RunKeepsOneRecord(env: Env, reqs: seq<Request>, c: string, d: string)
    requires SoundHashes(env) && NeverClashes(env, reqs, c, d)
    ensures AlwaysOneRecord(env, reqs, c, d)
    decreases |reqs|
  {
    if reqs != [] {
      var n := |reqs| - 1;
      RunKeepsOneRecord(env, reqs[..n], c, d);
      RunKeyed(env, reqs[..n]);
      StepKeepsOneRecord(env, Run(env, EMPTY, reqs[..n]), reqs[n], c, d);
    }
  }

  /** On a run that brings neither of two messages as a revocation, they are always
      of one record exactly when no step clashes. */
  lemma {:induction false} RunOneRecordIff(env: Env, reqs: seq<Request>, c: string, d: string)
    requires SoundHashes(env)
    requires forall i :: 0 <= i < |reqs| && (Brings(env, reqs[i], c) || Brings(env, reqs[i], d)) ==>
      !IsRevocation(reqs[i].write.write)
    ensures AlwaysOneRecord(env, reqs, c, d) <==> NeverClashes(env, reqs, c, d)
    decreases |reqs|
  {
    if reqs != [] {
      var n := |reqs| - 1;
      RunOneRecordIff(env, reqs[..n], c, d);
      RunKeyed(env, reqs[..n]);
      if AlwaysOneRecord(env, reqs[..n], c, d) {
        StepOneRecordIff(env, Run(env, EMPTY, reqs[..n]), reqs[n], c, d);
      }
    }
  }

  /** If the step brings one message while the other is current, it is a protocol
      write and checked as a role record. */
  predicate IsCheckedAgainst(env: Env, st: State, req: Request, c: string, d: string)
  {
    Brings(env, req, c) && d in st.messages && IsCurrent(st.messages[d]) ==>
      req.write.write.descriptor.protocol.Some? && req.write.checks.role
  }

  /** Each of the two messages is checked as a role record whenever the run brings
      it while the other is current. */
  ghost predicate IsCheckedThroughout(env: Env, reqs: seq<Request>, c: string, d: string)
    decreases |reqs|
  {
    reqs != [] ==>
      var n := |reqs| - 1;
      var st := Run(env, EMPTY, reqs[..n]);
      && IsCheckedThroughout(env, reqs[..n], c, d)
      && IsCheckedAgainst(env, st, reqs[n], c, d) && IsCheckedAgainst(env, st, reqs[n], d, c)
  }

  lemma {:induction false} CheckedRunNeverClashes(env: Env, reqs: seq<Request>, c: string, d: string)
    requires IsCheckedThroughout(env, reqs, c, d)
    ensures NeverClashes(env, reqs, c, d)
    decreases |reqs|
  {
    if reqs != [] {
      var n := |reqs| - 1;
      var st := Run(env, EMPTY, reqs[..n]);
      CheckedRunNeverClashes(env, reqs[..n], c, d);
      if Clashes(env, st, reqs[n], c, d) {
        CheckedNeverClashes(env, st, reqs[n].write, if Brings(env, reqs[n], c) then d else c);
        CheckedNeverClashes(env, st, reqs[n].write, c);
      }
    }
  }

  /** On every run, two current messages for one role of one recipient in one
      context are of one record, if each was checked as a role record when it came
      while the other was current. */
  lemma OneRoleRecord(env: Env, reqs: seq<Request>, c: string, d: string)
    requires SoundHashes(env) && IsCheckedThroughout(env, reqs, c, d)
    ensures OneRecord(Run(env, EMPTY, reqs).messages, c, d)
  {
    CheckedRunNeverClashes(env, reqs, c, d);
    RunKeepsOneRecord(env, reqs, c, d);
  }
}
