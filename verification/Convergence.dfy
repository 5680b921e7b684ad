/** Last writer wins: the order in which updates of a record, or configurations of
    a protocol, arrive does not matter. */
module Convergence {
  import opened Text
  import opened Order
  import opened Results
  import opened Messages
  import opened RecordQueries
  import opened NodeState
  import opened Writes
  import opened Deletes
  import opened Runs
  import opened Lifecycle

  // ----- updates of a record ----------------------------------------------

  function WriteRun(env: Env, st: State, reqs: seq<WriteRequest>): State
    decreases |reqs|
  {
    if reqs == [] then st else WriteStep(env, WriteRun(env, st, reqs[..|reqs| - 1]), reqs[|reqs| - 1])
  }

  /** The write is an authorized, intact, data-carrying update that agrees with
      the record's initial write on all that updates may not change. If it revokes
      a grant, it does not undo its own record. */
  predicate Update(env: Env, s: Store, initial: Write, req: WriteRequest)
  {
    && Authorized(env, s, req) && Intact(env, s, req)
    && req.stream.Some? && req.checks.stream
    && req.write.recordId == initial.recordId
    && SameImmutables(req.write.descriptor, initial.descriptor)
    && SparesOwn(req.write, initial)
  }

  /** A revocation does not remove messages of its own record: neither it nor the
      record's initial write invokes the grant that it revokes and was created at
      or after it. */
  predicate SparesOwn(w: Write, initial: Write)
  {
    IsRevocation(w) && w.descriptor.parentId.Some? ==>
      var grantId := w.descriptor.parentId.value;
      && !InvokedAfter(StoredWrite(w, false), grantId, w.Timestamp())
      && !InvokedAfter(StoredWrite(initial, true), grantId, w.Timestamp())
  }

  ghost predicate Updates(env: Env, st: State, initial: Write, reqs: seq<WriteRequest>)
    decreases |reqs|
  {
    reqs != [] ==>
      var n := |reqs| - 1;
      && Updates(env, st, initial, reqs[..n])
      && Update(env, WriteRun(env, st, reqs[..n]).messages, initial, reqs[n])
  }

  /** A data-carrying write as it is stored. */
  function Carried(req: WriteRequest): Stored
  {
    StoredWrite(
      if req.write.descriptor.dataSize > MAX_ENCODED_SIZE then req.write else req.write.(encodedData := req.stream),
      false)
  }

  /** An update is newer than another, or than the initial write. */
  predicate Beats(env: Env, req: WriteRequest, best: Option<WriteRequest>, initial: Stored, first: string)
  {
    match best
    case None => Newer(env, req.write, initial, first)
    case Some(b) => Newer(env, req.write, StoredWrite(b.write, false), env.writeCid(b.write))
  }

  lemma BeatsTransitive(env: Env, r: WriteRequest, b: WriteRequest, best: Option<WriteRequest>, initial: Stored,
                        first: string)
    requires Beats(env, b, best, initial, first) && Beats(env, r, Some(b), initial, first)
    ensures Beats(env, r, best, initial, first)
  {
    var (m, c) := if best.None? then (initial, first)
                  else (StoredWrite(best.value.write, false), env.writeCid(best.value.write));
    OlderTransitive(m, c, StoredWrite(b.write, false), env.writeCid(b.write),
                    StoredWrite(r.write, false), env.writeCid(r.write));
  }

  lemma BeatsItself(env: Env, r: WriteRequest, initial: Stored, first: string)
    ensures !Beats(env, r, Some(r), initial, first)
  {
    LessIrreflexive(env.writeCid(r.write));
  }

  /** The greatest of the updates by timestamp and CID that is newer than the
      initial write, or none if the initial write is the greatest. */
  function Winner(env: Env, initial: Stored, first: string, reqs: seq<WriteRequest>): (best: Option<WriteRequest>)
    ensures best.Some? ==> best.value in reqs && Beats(env, best.value, None, initial, first)
    ensures forall r :: r in reqs ==> !Beats(env, r, best, initial, first)
    decreases |reqs|
  {
    if reqs == [] then None
    else
      var r := reqs[|reqs| - 1];
      var best := Winner(env, initial, first, reqs[..|reqs| - 1]);
      assert forall q :: q in reqs ==> q == r || q in reqs[..|reqs| - 1];
      if Beats(env, r, best, initial, first) then
        BeatsItself(env, r, initial, first);
        assert forall q :: q in reqs && Beats(env, q, Some(r), initial, first) ==>
            Beats(env, q, best, initial, first) by {
          forall q | q in reqs && Beats(env, q, Some(r), initial, first) ensures Beats(env, q, best, initial, first) {
            BeatsTransitive(env, q, r, best, initial, first);
          }
        }
        assert best.Some? ==> Beats(env, r, None, initial, first) by {
          if best.Some? { BeatsTransitive(env, r, best.value, None, initial, first); }
        }
        Some(r)
      else best
  }

  /** The greatest update depends on which updates there are, not on their order. */
  lemma WinnerUnique(env: Env, initial: Stored, first: string, a: seq<WriteRequest>, b: seq<WriteRequest>)
    requires Elements(a) == Elements(b)
    ensures var v, w := Winner(env, initial, first, a), Winner(env, initial, first, b);
            v.Some? == w.Some? && (v.Some? ==> env.writeCid(v.value.write) == env.writeCid(w.value.write))
  {
    var v, w := Winner(env, initial, first, a), Winner(env, initial, first, b);
    assert forall r :: r in a <==> r in b by {
      forall r ensures r in a <==> r in b { assert r in a <==> r in Elements(a); assert r in b <==> r in Elements(b); }
    }
    if v.Some? && w.Some? && env.writeCid(v.value.write) != env.writeCid(w.value.write) {
      OlderTotal(StoredWrite(v.value.write, false), env.writeCid(v.value.write),
                 StoredWrite(w.value.write, false), env.writeCid(w.value.write));
    }
  }

  /** What is left of the record once the best update is in: the initial write,
      archived, and that update. */
  ghost predicate RecordSettled(env: Env, s: Store, first: string, best: Option<WriteRequest>, after: Store,
                                recordId: string)
    requires first in s
  {
    && first in after
    && match best
       case None => Existing(after, recordId) == [first] && after[first] == s[first]
       case Some(b) =>
         var c := env.writeCid(b.write);
         && Existing(after, recordId) == [first, c] && after[first] == Archived(s[first])
         && c in after && after[c] == Carried(b)
  }

  /** An update is accepted exactly when it is newer than the best so far. */
  lemma AcceptedIffBeats(env: Env, s: Store, first: string, best: Option<WriteRequest>, st: State, req: WriteRequest)
    requires first in s && s[first].StoredWrite? && IsInitial(env, s[first].write)
    requires RecordSettled(env, s, first, best, st.messages, s[first].write.recordId)
    requires Update(env, st.messages, s[first].write, req)
    ensures Accepted(env, st, req) <==> Beats(env, req, best, s[first], first)
  {
    if best.Some? { CarriedOf(best.value); }
  }

  lemma CarriedOf(req: WriteRequest)
    ensures Carried(req).write.descriptor == req.write.descriptor && Carried(req).write.recordId == req.write.recordId
    ensures Carried(req).write.authorization == req.write.authorization
  {
  }

  /** Before any revoking, an accepted update leaves the initial write and itself. */
  lemma ReplacedSettlesRecord(env: Env, s: Store, first: string, best: Option<WriteRequest>, st: State,
                              req: WriteRequest)
    requires SoundHashes(env) && WellKeyed(env, st.messages) && first in s && s[first].StoredWrite?
    requires RecordSettled(env, s, first, best, st.messages, s[first].write.recordId)
    requires Accepted(env, st, req) && req.stream.Some? && req.write.recordId == s[first].write.recordId
    ensures RecordSettled(env, s, first, Some(req), Replaced(env, st, req).0.messages, s[first].write.recordId)
    ensures Replaced(env, st, req).1
  {
    AcceptedIsNew(env, st, req);
    ReplacedShort(env, st, req);
    WrittenRecord(env, st, req);
    assert NewMessage(env, st, req) == Carried(req);
  }

  /** Revoking leaves a record's two messages exactly when it spares both. */
  lemma RevokedSettledIff(env: Env, s: Store, first: string, st: State, req: WriteRequest)
    requires first in s && s[first].StoredWrite? && req.write.recordId == s[first].write.recordId
    requires RecordSettled(env, s, first, Some(req), st.messages, s[first].write.recordId)
    requires IsRevocation(req.write)
    ensures var after := Revoked(env, st, req.write).0.messages;
            RecordSettled(env, s, first, Some(req), after, s[first].write.recordId) <==>
            SparesOwn(req.write, s[first].write) || !CanRevoke(env, st.messages, req.write)
  {
    var id, c, after := req.write.recordId, env.writeCid(req.write), Revoked(env, st, req.write).0.messages;
    CarriedOf(req);
    if CanRevoke(env, st.messages, req.write) {
      var gone := CreatedUnder(st.messages, req.write.descriptor.parentId.value, req.write.Timestamp());
      assert after == st.messages - gone;
      assert first in gone || c in gone <==> !SparesOwn(req.write, s[first].write);
      if SparesOwn(req.write, s[first].write) {
        forall x ensures SameAt(st.messages, after, id, x) {
          if x in RecordCids(st.messages, id) { assert x in Elements([first, c]); }
        }
        ExistingSame(st.messages, after, id);
      }
    }
  }

  /** An accepted update leaves the record with the initial write and itself
      exactly when it spares them, or is no revocation that gets to revoke. */
  lemma UpdateSettlesIff(env: Env, s: Store, first: string, best: Option<WriteRequest>, st: State, req: WriteRequest)
    requires SoundHashes(env) && WellKeyed(env, st.messages) && first in s && s[first].StoredWrite?
    requires RecordSettled(env, s, first, best, st.messages, s[first].write.recordId)
    requires Accepted(env, st, req) && req.stream.Some? && req.write.recordId == s[first].write.recordId
    ensures RecordSettled(env, s, first, Some(req), WriteStep(env, st, req).messages, s[first].write.recordId) <==>
            SparesOwn(req.write, s[first].write) || !CanRevoke(env, Replaced(env, st, req).0.messages, req.write)
  {
    ReplacedSettlesRecord(env, s, first, best, st, req);
    if IsRevocation(req.write) { RevokedSettledIff(env, s, first, Replaced(env, st, req).0, req); }
  }

  /** Whatever updates of a record arrive, in whatever order and however often, the
      record ends with its initial write and the greatest update only. */
  lemma {:induction false} UpdatesConverge(env: Env, st: State, first: string, reqs: seq<WriteRequest>)
    requires SoundHashes(env) && WellKeyed(env, st.messages)
    requires first in st.messages && st.messages[first].StoredWrite? && IsInitial(env, st.messages[first].write)
    requires Existing(st.messages, st.messages[first].write.recordId) == [first]
    requires Updates(env, st, st.messages[first].write, reqs)
    ensures WellKeyed(env, WriteRun(env, st, reqs).messages)
    ensures RecordSettled(env, st.messages, first, Winner(env, st.messages[first], first, reqs),
                          WriteRun(env, st, reqs).messages, st.messages[first].write.recordId)
    decreases |reqs|
  {
    if reqs != [] {
      var n := |reqs| - 1;
      UpdatesConverge(env, st, first, reqs[..n]);
      var mid, best := WriteRun(env, st, reqs[..n]), Winner(env, st.messages[first], first, reqs[..n]);
      AcceptedIffBeats(env, st.messages, first, best, mid, reqs[n]);
      StepKeyed(env, mid, WriteIt(reqs[n]));
      if Accepted(env, mid, reqs[n]) { UpdateSettlesIff(env, st.messages, first, best, mid, reqs[n]); }
    }
  }

  /** A message's CID determines the form it is stored in. */
  predicate OneFormPerCid(env: Env, reqs: seq<WriteRequest>)
  {
    forall i, j :: 0 <= i < |reqs| && 0 <= j < |reqs| && env.writeCid(reqs[i].write) == env.writeCid(reqs[j].write) ==>
      Carried(reqs[i]) == Carried(reqs[j])
  }

  lemma WinnersAgree(env: Env, initial: Stored, first: string, a: seq<WriteRequest>, b: seq<WriteRequest>)
    requires Elements(a) == Elements(b) && OneFormPerCid(env, a)
    ensures var v, w := Winner(env, initial, first, a), Winner(env, initial, first, b);
            && v.Some? == w.Some?
            && (v.Some? ==> env.writeCid(v.value.write) == env.writeCid(w.value.write))
            && (v.Some? ==> Carried(v.value) == Carried(w.value))
  {
    WinnerUnique(env, initial, first, a, b);
    var v, w := Winner(env, initial, first, a), Winner(env, initial, first, b);
    if v.Some? {
      assert v.value in a && w.value in Elements(b) && w.value in a;
    }
  }

  /** Two orders of the same updates leave the record with the same messages. */
  lemma OrderDoesNotMatter(env: Env, st: State, first: string, a: seq<WriteRequest>, b: seq<WriteRequest>)
    requires SoundHashes(env) && WellKeyed(env, st.messages)
    requires first in st.messages && st.messages[first].StoredWrite? && IsInitial(env, st.messages[first].write)
    requires Existing(st.messages, st.messages[first].write.recordId) == [first]
    requires Updates(env, st, st.messages[first].write, a) && Updates(env, st, st.messages[first].write, b)
    requires Elements(a) == Elements(b) && OneFormPerCid(env, a)
    ensures SameRecord(WriteRun(env, st, a).messages, WriteRun(env, st, b).messages, st.messages[first].write.recordId)
  {
    UpdatesConverge(env, st, first, a);
    UpdatesConverge(env, st, first, b);
    WinnersAgree(env, st.messages[first], first, a, b);
    var v, w := Winner(env, st.messages[first], first, a), Winner(env, st.messages[first], first, b);
    SettledAlike(env, st.messages, first, v, w, WriteRun(env, st, a).messages, WriteRun(env, st, b).messages);
  }

  lemma SettledAlike(env: Env, s: Store, first: string, v: Option<WriteRequest>, w: Option<WriteRequest>, x: Store,
                     y: Store)
    requires first in s && s[first].StoredWrite?
    requires RecordSettled(env, s, first, v, x, s[first].write.recordId)
    requires RecordSettled(env, s, first, w, y, s[first].write.recordId)
    requires v.Some? == w.Some?
    requires v.Some? ==>
      env.writeCid(v.value.write) == env.writeCid(w.value.write) && Carried(v.value) == Carried(w.value)
    ensures SameRecord(x, y, s[first].write.recordId)
  {
    var id := s[first].write.recordId;
    var r := Existing(x, id);
    assert Existing(y, id) == r && forall i :: 0 <= i < |r| ==> r[i] in x && r[i] in y && x[r[i]] == y[r[i]];
    forall c ensures SameAt(x, y, id, c) {
      if c in RecordCids(x, id) || c in RecordCids(y, id) { assert c in Elements(r); }
    }
  }

  // ----- updates that revoke nothing --------------------------------------

  /** The store once the best update is in: the initial write is archived. */
  function Settled(env: Env, s: Store, first: string, best: Option<WriteRequest>): Store
    requires first in s
  {
    match best
    case None => s
    case Some(b) => s[first := Archived(s[first])][env.writeCid(b.write) := Carried(b)]
  }

  ghost predicate StoreSettled(env: Env, s: Store, first: string, best: Option<WriteRequest>, after: Store)
    requires first in s
  {
    after == Settled(env, s, first, best) && (best.Some? ==> env.writeCid(best.value.write) !in s)
  }

  lemma ReplacedSettles(env: Env, s: Store, first: string, best: Option<WriteRequest>, st: State, req: WriteRequest)
    requires env.writeCid(req.write) !in st.messages && Follows(env, st.messages, req.write) && req.stream.Some?
    requires first in s && s[first].StoredWrite? && req.write.recordId == s[first].write.recordId
    requires RecordSettled(env, s, first, best, st.messages, s[first].write.recordId)
    requires StoreSettled(env, s, first, best, st.messages)
    ensures Replaced(env, st, req).0.messages == Settled(env, s, first, Some(req))
  {
    ReplacedShort(env, st, req);
    assert NewMessage(env, st, req) == Carried(req);
    if best.Some? {
      Overwritten(s, first, env.writeCid(best.value.write), Carried(best.value), env.writeCid(req.write), Carried(req));
    }
  }

  lemma Overwritten(s: Store, first: string, c: string, m: Stored, d: string, n: Stored)
    requires first in s && c !in s && d !in s && c != d
    ensures var a := s[first := Archived(s[first])];
            a[c := m][d := n][first := Archived(Archived(s[first]))] - {c} == a[d := n]
  {
  }

  /** If the record is no revocation, its updates leave the whole message store as
      it was but for the record. */
  lemma {:induction false} StoreConverges(env: Env, st: State, first: string, reqs: seq<WriteRequest>)
    requires SoundHashes(env) && WellKeyed(env, st.messages)
    requires first in st.messages && st.messages[first].StoredWrite? && IsInitial(env, st.messages[first].write)
    requires Existing(st.messages, st.messages[first].write.recordId) == [first]
    requires Updates(env, st, st.messages[first].write, reqs) && !IsRevocation(st.messages[first].write)
    ensures StoreSettled(env, st.messages, first, Winner(env, st.messages[first], first, reqs),
                         WriteRun(env, st, reqs).messages)
    decreases |reqs|
  {
    if reqs != [] {
      var n := |reqs| - 1;
      StoreConverges(env, st, first, reqs[..n]);
      UpdatesConverge(env, st, first, reqs[..n]);
      var mid, best := WriteRun(env, st, reqs[..n]), Winner(env, st.messages[first], first, reqs[..n]);
      AcceptedIffBeats(env, st.messages, first, best, mid, reqs[n]);
      if Accepted(env, mid, reqs[n]) {
        AcceptedIsNew(env, mid, reqs[n]);
        ReplacedSettles(env, st.messages, first, best, mid, reqs[n]);
      }
    }
  }

  /** Two orders of the same updates that revoke nothing end in the same store. */
  lemma StoreOrderDoesNotMatter(env: Env, st: State, first: string, a: seq<WriteRequest>, b: seq<WriteRequest>)
    requires SoundHashes(env) && WellKeyed(env, st.messages)
    requires first in st.messages && st.messages[first].StoredWrite? && IsInitial(env, st.messages[first].write)
    requires Existing(st.messages, st.messages[first].write.recordId) == [first]
    requires Updates(env, st, st.messages[first].write, a) && Updates(env, st, st.messages[first].write, b)
    requires Elements(a) == Elements(b) && OneFormPerCid(env, a) && !IsRevocation(st.messages[first].write)
    ensures WriteRun(env, st, a).messages == WriteRun(env, st, b).messages
  {
    StoreConverges(env, st, first, a);
    StoreConverges(env, st, first, b);
    WinnersAgree(env, st.messages[first], first, a, b);
  }

  // ----- configurations of a protocol -------------------------------------

  function ConfigureRun(env: Env, st: State, reqs: seq<ConfigureRequest>): State
    decreases |reqs|
  {
    if reqs == [] then st else ConfigureStep(env, ConfigureRun(env, st, reqs[..|reqs| - 1]), reqs[|reqs| - 1])
  }

  /** An authorized, valid configure of a protocol. */
  predicate Configures(req: ConfigureRequest, protocol: string)
  {
    && req.admitted && req.configure.protocol == protocol
    && req.configure.base.interface == ProtocolsInterface && req.configure.base.verb == ConfigureMethod
  }

  predicate ConfiguredBefore(env: Env, a: Configure, b: Configure)
  {
    Older(StoredConfigure(a), env.configureCid(a), StoredConfigure(b), env.configureCid(b))
  }

  predicate Greatest(env: Env, reqs: seq<ConfigureRequest>, c: Configure)
  {
    && (exists i :: 0 <= i < |reqs| && reqs[i].configure == c)
    && (forall i :: 0 <= i < |reqs| ==> reqs[i].configure == c || ConfiguredBefore(env, reqs[i].configure, c))
  }

  /** Exactly one configuration of the protocol is stored, and nothing else has
      changed. */
  ghost predicate OnlyConfiguration(env: Env, s: Store, after: Store, c: Configure)
  {
    && env.configureCid(c) !in s
    && after == s[env.configureCid(c) := StoredConfigure(c)]
    && ConfigCids(after, c.protocol) == {env.configureCid(c)}
  }

  lemma ConfigureApart(env: Env, a: Configure, b: Configure)
    requires SoundHashes(env) && a != b
    ensures ConfiguredBefore(env, a, b) || ConfiguredBefore(env, b, a)
    ensures !(ConfiguredBefore(env, a, b) && ConfiguredBefore(env, b, a))
  {
    assert ConfigureHash(env, a, b);
    OlderTotal(StoredConfigure(a), env.configureCid(a), StoredConfigure(b), env.configureCid(b));
  }

  lemma SingleConfig(s: Store, protocol: string, c: string)
    requires ConfigCids(s, protocol) == {c}
    ensures Configs(s, protocol) == [c]
  {
    assert c in ConfigCids(s, protocol);
    assert Elements([c]) == {c};
    ByTimeUnique(s, ConfigCids(s, protocol), [c]);
  }

  lemma NewConfig(env: Env, s: Store, c: Configure)
    requires SoundHashes(env) && WellKeyed(env, s) && ConfigCids(s, c.protocol) == {}
    requires c.base.interface == ProtocolsInterface
    ensures OnlyConfiguration(env, s, s[env.configureCid(c) := StoredConfigure(c)], c)
  {
    var cid := env.configureCid(c);
    assert cid !in ConfigCids(s, c.protocol);
    if cid in s { StoredUnderConfigureCid(env, s, c); }
    var after := s[cid := StoredConfigure(c)];
    forall x ensures x in ConfigCids(after, c.protocol) <==> x == cid {
      assert x !in ConfigCids(s, c.protocol);
    }
  }

  lemma ConfigureReplaces(env: Env, s: Store, st: State, best: Configure, req: ConfigureRequest)
    requires SoundHashes(env) && WellKeyed(env, s) && ConfigCids(s, best.protocol) == {}
    requires OnlyConfiguration(env, s, st.messages, best) && Configures(req, best.protocol)
    ensures OnlyConfiguration(env, s, ConfigureStep(env, st, req).messages,
                  if ConfiguredBefore(env, req.configure, best) then best else req.configure)
  {
    var c, r := env.configureCid(best), env.configureCid(req.configure);
    SingleConfig(st.messages, best.protocol, c);
    NewConfig(env, s, req.configure);
    if !ConfiguredBefore(env, req.configure, best) {
      assert st.messages - {c} == s;
    }
  }

  /** Whatever configures of a protocol arrive, in whatever order and however
      often, the store ends with exactly one, the greatest by timestamp and CID. */
  lemma {:induction false} ConfiguresConverge(env: Env, st: State, protocol: string, reqs: seq<ConfigureRequest>)
    returns (c: Configure)
    requires SoundHashes(env) && WellKeyed(env, st.messages) && ConfigCids(st.messages, protocol) == {}
    requires reqs != [] && forall i :: 0 <= i < |reqs| ==> Configures(reqs[i], protocol)
    ensures Greatest(env, reqs, c) && c.protocol == protocol
    ensures OnlyConfiguration(env, st.messages, ConfigureRun(env, st, reqs).messages, c)
    decreases |reqs|
  {
    var n := |reqs| - 1;
    var r := reqs[n].configure;
    if n == 0 {
      c := r;
      var existing := Configs(st.messages, protocol);
      ElementsEmpty(existing);
      assert ConfigureRun(env, st, []) == st && reqs[..0] == [];
      NewConfig(env, st.messages, c);
      assert st.messages - {} == st.messages;
    } else {
      var best := ConfiguresConverge(env, st, protocol, reqs[..n]);
      ConfigureReplaces(env, st.messages, ConfigureRun(env, st, reqs[..n]), best, reqs[n]);
      c := if ConfiguredBefore(env, r, best) then best else r;
      GreatestGrows(env, reqs, best);
    }
  }

  lemma GreatestGrows(env: Env, reqs: seq<ConfigureRequest>, best: Configure)
    requires SoundHashes(env) && reqs != [] && Greatest(env, reqs[..|reqs| - 1], best)
    ensures var r := reqs[|reqs| - 1].configure; Greatest(env, reqs, if ConfiguredBefore(env, r, best) then best else r)
  {
    var n := |reqs| - 1;
    var r := reqs[n].configure;
    assert forall i :: 0 <= i < n ==> reqs[..n][i] == reqs[i];
    var k :| 0 <= k < n && reqs[..n][k].configure == best;
    assert reqs[k].configure == best;
    if !ConfiguredBefore(env, r, best) && r != best {
      ConfigureApart(env, r, best);
      forall i | 0 <= i < |reqs| ensures reqs[i].configure == r || ConfiguredBefore(env, reqs[i].configure, r) {
        if i < n && reqs[i].configure != best {
          var a := reqs[i].configure;
          OlderTransitive(StoredConfigure(a), env.configureCid(a), StoredConfigure(best), env.configureCid(best),
                          StoredConfigure(r), env.configureCid(r));
        }
      }
    }
  }

  /** There is one greatest configure, so that the order cannot matter. */
  lemma GreatestUnique(env: Env, a: seq<ConfigureRequest>, b: seq<ConfigureRequest>, c: Configure, d: Configure)
    requires SoundHashes(env) && Greatest(env, a, c) && Greatest(env, b, d) && Elements(a) == Elements(b)
    ensures c == d
  {
    var i :| 0 <= i < |a| && a[i].configure == c;
    var j :| 0 <= j < |b| && b[j].configure == d;
    assert a[i] in Elements(b) && b[j] in Elements(a);
    if c != d { ConfigureApart(env, c, d); }
  }
}
