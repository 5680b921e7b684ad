/** Which messages a node accepts, said of the stored messages' own fields. */
module Admissions {
  import opened Text
  import opened Order
  import opened Results
  import opened Messages
  import opened RecordQueries
  import opened NodeState
  import opened Writes
  import opened Deletes
  import opened Paths
  import opened Ancestry
  import opened Authorizations

  // ----- oldest and newest messages ---------------------------------------

  /** A listing by time starts with the oldest of the messages and with no other. */
  lemma FirstIsOldest(s: Store, chosen: set<string>, r: seq<string>)
    requires chosen <= s.Keys && OldestFirst(s, chosen, r)
    ensures r != [] ==> IsOldest(s, chosen, r[0])
    ensures forall c :: IsOldest(s, chosen, c) ==> r != [] && c == r[0]
  {
    if r != [] {
      forall c | c in chosen && c != r[0] ensures Older(s[r[0]], r[0], s[c], c) {
        assert c in Elements(r);
        var i :| 0 <= i < |r| && r[i] == c;
      }
    }
    forall c | IsOldest(s, chosen, c) ensures r != [] && c == r[0] {
      assert c in Elements(r);
      if c != r[0] { OlderTotal(s[c], c, s[r[0]], r[0]); }
    }
  }

  // ----- paths -------------------------------------------------------------

  /** The path of a protocol record is one name longer than its parent's, whose
      context its own goes on from. */
  predicate GoesOn(parent: Write, w: Write)
  {
    && parent.descriptor.protocolPath.Some? && w.descriptor.protocolPath.Some?
    && parent.contextId.Some? && w.contextId.Some?
    && |parent.contextId.value| <= |w.contextId.value|
    && w.contextId.value[..|parent.contextId.value|] == parent.contextId.value
    && var above, path := Split(parent.descriptor.protocolPath.value), Split(w.descriptor.protocolPath.value);
       above == path[..|path| - 1]
  }

  predicate MayBeParent(m: Stored, w: Write)
  {
    && IsLive(m) && w.descriptor.parentId == Some(m.write.recordId)
    && w.descriptor.protocol.Some? && m.write.descriptor.protocol == w.descriptor.protocol
  }

  /** The message is the oldest live write of the parent in the same protocol. */
  ghost predicate HoldsParent(s: Store, w: Write, c: string)
  {
    && c in s && MayBeParent(s[c], w)
    && forall d :: d in s && MayBeParent(s[d], w) && d != c ==> Older(s[c], c, s[d], d)
  }

  /** A protocol record goes on from its parent's write, or has a path of one name. */
  ghost predicate IsPlaced(s: Store, w: Write)
  {
    if w.descriptor.parentId.Some? then exists c :: HoldsParent(s, w, c) && GoesOn(s[c].write, w)
    else w.descriptor.protocolPath.Some? && |Split(w.descriptor.protocolPath.value)| == 1
  }

  lemma OneSegment(path: string)
    ensures |Split(path)| == 1 <==> '/' !in path
  {
    JoinSplit(path);
    if '/' !in path { SplitSingle(path); }
  }

  lemma ContinuesIff(w: Write, parent: Write)
    requires w.descriptor.protocolPath.Some?
    ensures ContinuesPath(w, parent) <==> GoesOn(parent, w)
  {
    var path := w.descriptor.protocolPath.value;
    var segments := Split(path);
    LastIsSegment(path);
    if parent.descriptor.protocolPath.Some? {
      var above := parent.descriptor.protocolPath.value;
      SplitAppend(above, LastSegment(path));
      JoinSplit(path);
      JoinSplit(above + "/" + LastSegment(path));
      assert segments == segments[..|segments| - 1] + [LastSegment(path)];
    }
  }

  lemma ParentIsFirst(s: Store, w: Write)
    requires w.descriptor.parentId.Some? && w.descriptor.protocol.Some?
    ensures var entries := Current(s, ParentFilter(w));
            && (entries != [] ==> HoldsParent(s, w, entries[0]))
            && (forall c :: HoldsParent(s, w, c) ==> entries != [] && c == entries[0])
  {
    var chosen := CurrentCids(s, ParentFilter(w));
    forall c ensures c in chosen <==> c in s && MayBeParent(s[c], w) {}
    FirstIsOldest(s, chosen, Current(s, ParentFilter(w)));
    forall c | HoldsParent(s, w, c) ensures IsOldest(s, chosen, c) {}
  }

  lemma PlacedIff(s: Store, w: Write)
    requires w.descriptor.protocol.Some?
    ensures PathVerified(s, w) <==> IsPlaced(s, w)
  {
    if w.descriptor.parentId.Some? {
      ParentIsFirst(s, w);
      var entries := Current(s, ParentFilter(w));
      if entries != [] && w.descriptor.protocolPath.Some? { ContinuesIff(w, s[entries[0]].write); }
    } else if w.descriptor.protocolPath.Some? {
      OneSegment(w.descriptor.protocolPath.value);
    }
  }

  // ----- role records ------------------------------------------------------

  /** The context goes on from all but the last segment of another. */
  predicate BesideContext(context: string, other: string)
  {
    var segments := Split(other);
    var above := Join(segments[..|segments| - 1]);
    |above| <= |context| && context[..|above|] == above
  }

  /** The message is a live record at the role's path for the same recipient, beside
      the write's context if there is one above it. */
  predicate RivalsRole(m: Stored, w: Write)
  {
    && IsLive(m) && w.descriptor.recipient.Some?
    && m.write.descriptor.protocol == w.descriptor.protocol
    && m.write.descriptor.protocolPath == w.descriptor.protocolPath
    && m.write.descriptor.recipient == w.descriptor.recipient
    && (w.contextId.Some? && |Split(w.contextId.value)| > 1 ==>
          m.write.contextId.Some? && BesideContext(m.write.contextId.value, w.contextId.value))
  }

  /** A role record has a recipient and a path, and no rival of another record. */
  ghost predicate IsOnlyRole(s: Store, w: Write)
  {
    && w.descriptor.recipient.Some? && w.descriptor.protocolPath.Some?
    && forall c :: c in s && RivalsRole(s[c], w) ==> s[c].write.recordId == w.recordId
  }

  lemma {:induction false} BeforeLast(path: string)
    requires '/' in path
    ensures |LastSegment(path)| < |path|
    ensures path[..|path| - |LastSegment(path)| - 1] + "/" + LastSegment(path) == path
    decreases |path|
  {
    var rest := path[1..];
    assert path == [path[0]] + rest;
    if '/' in rest {
      BeforeLast(rest);
      assert path[..|path| - |LastSegment(path)| - 1] == [path[0]] + rest[..|rest| - |LastSegment(rest)| - 1];
    } else {
      assert LastSegment(path) == rest && path[0] == '/';
      assert path[..|path| - |rest| - 1] == "";
    }
  }

  lemma ContextAboveIs(context: string)
    ensures var segments := Split(context);
            ParentContext(context) == if |segments| > 1 then Some(Join(segments[..|segments| - 1])) else None
  {
    OneSegment(context);
    if '/' in context {
      var above, last := context[..|context| - |LastSegment(context)| - 1], LastSegment(context);
      BeforeLast(context);
      LastIsSegment(context);
      SplitAppend(above, last);
      assert Split(context)[..|Split(context)| - 1] == Split(above);
      JoinSplit(above);
    }
  }

  lemma RivalsIff(s: Store, w: Write, c: string)
    requires w.descriptor.protocol.Some? && w.descriptor.protocolPath.Some? && w.descriptor.recipient.Some?
    ensures c in CurrentCids(s, RoleFilter(w)) <==> c in s && RivalsRole(s[c], w)
  {
    if w.contextId.Some? { ContextAboveIs(w.contextId.value); }
  }

  lemma OnlyRoleIff(s: Store, w: Write)
    requires w.descriptor.protocol.Some?
    ensures RoleVerified(s, w) <==> IsOnlyRole(s, w)
  {
    if w.descriptor.protocolPath.Some? && w.descriptor.recipient.Some? {
      forall c ensures c in CurrentCids(s, RoleFilter(w)) <==> c in s && RivalsRole(s[c], w) { RivalsIff(s, w, c); }
    }
  }

  // ----- revocations -------------------------------------------------------

  predicate IsGrantRevocation(w: Write)
  {
    && w.descriptor.protocol == Some("https://vercre.website/dwn/permissions")
    && w.descriptor.protocolPath == Some("grant/revocation")
  }

  /** The protocol of the grant that a write holds in its data. */
  function GrantProtocol(env: Env, grant: Write): Option<string>
  {
    if grant.encodedData.None? || env.decodeGrant(grant.encodedData.value).None? then None
    else
      match env.decodeGrant(grant.encodedData.value).value.scope
      case RecordsScope(_, protocol, _) => Some(protocol)
      case OtherScope(_, _, protocol) => protocol
  }

  /** A revocation's parent holds a grant, for the protocol that the revocation's
      tag names if it has tags. */
  ghost predicate NamesGrant(env: Env, s: Store, w: Write)
  {
    && w.descriptor.parentId.Some?
    && exists c :: HoldsRecord(s, w.descriptor.parentId.value, c) && HoldsGrantFor(env, s[c].write, w)
  }

  predicate HoldsGrantFor(env: Env, grant: Write, w: Write)
  {
    && grant.encodedData.Some? && env.decodeGrant(grant.encodedData.value).Some?
    && match w.descriptor.tags
       case None => true
       case Some(tags) =>
         GrantProtocol(env, grant) ==
           Some(if "protocol" in tags && tags["protocol"].TextTag? then tags["protocol"].text else "")
  }

  lemma NamesGrantIff(env: Env, s: Store, w: Write)
    ensures RevocationVerified(env, s, w) <==> (IsGrantRevocation(w) ==> NamesGrant(env, s, w))
  {
    if IsRevocation(w) && w.descriptor.parentId.Some? {
      HolderIsFirst(s, w.descriptor.parentId.value);
      var entries := Current(s, RecordFilter(w.descriptor.parentId.value));
      if entries != [] {
        assert RevocationVerified(env, s, w) <==> HoldsGrantFor(env, s[entries[0]].write, w);
      }
    }
  }

  // ----- the write itself --------------------------------------------------

  /** The message is sound in itself and has its place in its protocol. */
  ghost predicate IsSound(env: Env, s: Store, req: WriteRequest)
  {
    var w, d := req.write, req.write.descriptor;
    && d.base.interface == RecordsInterface && d.base.verb == WriteMethod
    && (env.entryId(d, w.authorization.author) == w.recordId ==>
          && d.base.timestamp == d.dateCreated
          && (d.protocol.Some? && d.parentId == None ==> w.contextId == Some(w.recordId)))
    && (d.protocol.Some? ==>
          && IsPlaced(s, w)
          && (req.checks.role ==> IsOnlyRole(s, w))
          && (IsGrantRevocation(w) ==> NamesGrant(env, s, w)))
    && req.checks.integrity
  }

  lemma SoundIff(env: Env, s: Store, req: WriteRequest)
    ensures Intact(env, s, req) <==> IsSound(env, s, req)
  {
    if req.write.descriptor.protocol.Some? {
      PlacedIff(s, req.write);
      OnlyRoleIff(s, req.write);
      NamesGrantIff(env, s, req.write);
    }
  }

  // ----- the record's other messages --------------------------------------

  predicate OfRecord(m: Stored, recordId: string)
  {
    (m.StoredWrite? && m.write.recordId == recordId) || (m.StoredDelete? && m.delete.recordId == recordId)
  }

  ghost predicate IsEarliest(s: Store, recordId: string, c: string)
  {
    && c in s && OfRecord(s[c], recordId)
    && forall d :: d in s && OfRecord(s[d], recordId) && d != c ==> Older(s[c], c, s[d], d)
  }

  ghost predicate IsLatest(s: Store, recordId: string, c: string)
  {
    && c in s && OfRecord(s[c], recordId)
    && forall d :: d in s && OfRecord(s[d], recordId) && d != c ==> Older(s[d], d, s[c], c)
  }

  lemma ExistingEnds(s: Store, recordId: string)
    ensures var r := Existing(s, recordId);
            && (r == [] <==> forall c :: c in s ==> !OfRecord(s[c], recordId))
            && (r != [] ==> IsEarliest(s, recordId, r[0]) && IsLatest(s, recordId, r[|r| - 1]))
            && (forall c :: IsEarliest(s, recordId, c) ==> r != [] && c == r[0])
            && (forall c :: IsLatest(s, recordId, c) ==> r != [] && c == r[|r| - 1])
  {
    var chosen, r := RecordCids(s, recordId), Existing(s, recordId);
    forall c ensures c in chosen <==> c in s && OfRecord(s[c], recordId) {}
    FirstIsOldest(s, chosen, r);
    LastIsNewestOf(s, chosen, r);
    ElementsEmpty(r);
    forall c | IsEarliest(s, recordId, c) ensures IsOldest(s, chosen, c) {}
    forall c | IsLatest(s, recordId, c) ensures r != [] && c == r[|r| - 1] {
      assert c in Elements(r);
      if c != r[|r| - 1] { OlderTotal(s[c], c, s[r[|r| - 1]], r[|r| - 1]); }
    }
  }

  lemma LastIsNewestOf(s: Store, chosen: set<string>, r: seq<string>)
    requires chosen <= s.Keys && OldestFirst(s, chosen, r)
    ensures r != [] ==> forall c :: c in chosen && c != r[|r| - 1] ==> Older(s[c], c, s[r[|r| - 1]], r[|r| - 1])
  {
    if r != [] {
      forall c | c in chosen && c != r[|r| - 1] ensures Older(s[c], c, s[r[|r| - 1]], r[|r| - 1]) {
        assert c in Elements(r);
        var i :| 0 <= i < |r| && r[i] == c;
      }
    }
  }

  /** The initial write of a record is that of its earliest message: there is none if
      the record has no message, and it is an error if that message is another. */
  lemma InitialWriteIs(env: Env, s: Store, recordId: string)
    ensures InitialWrite(env, s, recordId) == Ok(None) <==> forall c :: c in s ==> !OfRecord(s[c], recordId)
    ensures forall c :: IsEarliest(s, recordId, c) ==>
              InitialWrite(env, s, recordId) ==
                if s[c].StoredWrite? && env.entryId(s[c].write.descriptor, s[c].write.authorization.author) == recordId
                then Ok(Some(s[c].write)) else Err(Unexpected)
  {
    ExistingEnds(s, recordId);
  }

  /** No update changes what the initial write says of these. */
  predicate Agrees(d: WriteDescriptor, initial: WriteDescriptor)
  {
    && d.protocol == initial.protocol && d.protocolPath == initial.protocolPath && d.parentId == initial.parentId
    && d.recipient == initial.recipient && d.schema == initial.schema && d.dateCreated == initial.dateCreated
    && d.base.interface == initial.base.interface && d.base.verb == initial.base.verb
  }

  /** The write is dated after the message, or at the same time with a greater CID. */
  predicate ComesAfter(env: Env, w: Write, m: Stored, c: string)
  {
    || m.Timestamp().Ordinal() < w.Timestamp().Ordinal()
    || (m.Timestamp() == w.Timestamp() && Less(c, env.writeCid(w)))
  }

  /** The write is the initial write of a new record; or it agrees with the record's
      earliest message, an initial write, and comes after its latest, no delete. */
  ghost predicate Succeeds(env: Env, s: Store, w: Write)
  {
    if forall c :: c in s ==> !OfRecord(s[c], w.recordId)
    then env.entryId(w.descriptor, w.authorization.author) == w.recordId
    else exists first, last :: IsEarliest(s, w.recordId, first) && IsLatest(s, w.recordId, last)
                               && FollowsBoth(env, s[first], s[last], last, w)
  }

  ghost predicate FollowsBoth(env: Env, first: Stored, last: Stored, c: string, w: Write)
  {
    && first.StoredWrite? && last.StoredWrite?
    && env.entryId(first.write.descriptor, first.write.authorization.author) == first.write.recordId
    && Agrees(w.descriptor, first.write.descriptor)
    && ComesAfter(env, w, last, c)
  }

  lemma SucceedsIff(env: Env, s: Store, w: Write)
    ensures Follows(env, s, w) <==> Succeeds(env, s, w)
  {
    var r := Existing(s, w.recordId);
    ExistingEnds(s, w.recordId);
    if r != [] {
      var first, last := s[r[0]], s[r[|r| - 1]];
      assert Follows(env, s, w) <==> FollowsBoth(env, first, last, r[|r| - 1], w);
    }
  }

  /** A message has the data that a write refers to: in the data store if it is
      large, and otherwise in itself. */
  predicate Supplies(st: State, m: Stored, w: Write)
  {
    && m.StoredWrite?
    && m.write.descriptor.dataCid == w.descriptor.dataCid && m.write.descriptor.dataSize == w.descriptor.dataSize
    && if w.descriptor.dataSize > 30_000 then (w.recordId, w.descriptor.dataCid) in st.data
       else m.write.encodedData.Some?
  }

  /** The data of a write came with it and fits, or is not needed as the write is
      initial, or the record's latest message has it. */
  ghost predicate HasData(env: Env, st: State, req: WriteRequest)
  {
    var w := req.write;
    if req.stream.Some? then req.checks.stream
    else
      || env.entryId(w.descriptor, w.authorization.author) == w.recordId
      || exists c :: IsLatest(st.messages, w.recordId, c) && Supplies(st, st.messages[c], w)
  }

  lemma HasDataIff(env: Env, st: State, req: WriteRequest)
    ensures DataAvailable(env, st, req) <==> HasData(env, st, req)
  {
    var s, w := st.messages, req.write;
    var r := Existing(s, w.recordId);
    ExistingEnds(s, w.recordId);
    if r != [] { assert IsLatest(s, w.recordId, r[|r| - 1]); }
  }

  // ----- acceptance --------------------------------------------------------

  /** The owner signed the write, or a grant licenses it, or its protocol permits
      it; and no second signature is anyone else's. */
  ghost predicate IsAllowed(env: Env, s: Store, req: WriteRequest)
  {
    var w, a := req.write, req.write.authorization;
    && req.checks.delegates
    && (a.recordOwner.Some? ==> a.recordOwner.value == env.owner)
    && (a.recordOwner == None && a.author != env.owner && a.grantId.Some? ==>
          exists c :: HoldsRecord(s, a.grantId.value, c) && Licenses(env, s, s[c].write, w))
    && (a.recordOwner == None && a.author != env.owner && a.grantId == None ==>
          w.descriptor.protocol.Some? && req.checks.protocolPermits)
  }

  lemma AllowedIff(env: Env, s: Store, req: WriteRequest)
    ensures Authorized(env, s, req) <==> IsAllowed(env, s, req)
  {
    if !IsForeign(env, req.write) {
      OwnIff(env, s, req);
    } else if req.write.authorization.grantId.Some? {
      ForeignWithGrantIff(env, s, req, req.write.authorization.grantId.value);
    } else {
      ForeignWithoutGrantIff(env, s, req);
    }
  }

  /** A write is accepted exactly when it is allowed, sound, a successor of what is
      stored of its record, and its data is there. */
  lemma AcceptedIff(env: Env, st: State, req: WriteRequest)
    ensures Accepted(env, st, req) <==>
            && IsAllowed(env, st.messages, req) && IsSound(env, st.messages, req)
            && Succeeds(env, st.messages, req.write) && HasData(env, st, req)
  {
    AllowedIff(env, st.messages, req);
    SoundIff(env, st.messages, req);
    SucceedsIff(env, st.messages, req.write);
    HasDataIff(env, st, req);
  }

  // ----- deletes -----------------------------------------------------------

  predicate IsPlain(m: Stored, recordId: string)
  {
    OfRecord(m, recordId) && !(m.StoredWrite? && m.archived)
  }

  ghost predicate IsOldestPlain(s: Store, recordId: string, c: string)
  {
    && c in s && IsPlain(s[c], recordId)
    && forall d :: d in s && IsPlain(s[d], recordId) && d != c ==> Older(s[c], c, s[d], d)
  }

  /** A delete is acknowledged exactly when it is authorized and the oldest message
      of its record that is not archived is a write, and not dated after it. */
  lemma AcknowledgedIff(st: State, req: DeleteRequest)
    ensures DeleteAdmitted(st, req) <==>
            && req.authorized
            && exists c :: && IsOldestPlain(st.messages, req.delete.recordId, c) && st.messages[c].StoredWrite?
                           && st.messages[c].Timestamp().Ordinal() <= req.delete.base.timestamp.Ordinal()
  {
    var s, id := st.messages, req.delete.recordId;
    var chosen, r := UnarchivedCids(s, id), Unarchived(s, id);
    forall c ensures c in chosen <==> c in s && IsPlain(s[c], id) {}
    FirstIsOldest(s, chosen, r);
    forall c ensures IsOldest(s, chosen, c) <==> IsOldestPlain(s, id, c) {}
  }

  /** A delete that is acknowledged takes effect exactly when the record has one
      message or two, the earliest an initial write and the latest not dated after
      the delete. */
  lemma AppliesIff(env: Env, st: State, req: DeleteRequest)
    ensures DeleteApplies(env, st, req) <==>
            && DeleteAdmitted(st, req)
            && exists first, last ::
                 && IsEarliest(st.messages, req.delete.recordId, first)
                 && IsLatest(st.messages, req.delete.recordId, last)
                 && MayDelete(env, st.messages, req.delete, first, last)
  {
    var s, id := st.messages, req.delete.recordId;
    var r := Existing(s, id);
    ExistingEnds(s, id);
    if r != [] {
      AtMostTwo(s, id);
      assert TaskAdmitted(env, st, req.delete) <==> MayDelete(env, s, req.delete, r[0], r[|r| - 1]);
    }
  }

  ghost predicate MayDelete(env: Env, s: Store, d: Delete, first: string, last: string)
    requires first in s && last in s
  {
    && s[first].StoredWrite?
    && env.entryId(s[first].write.descriptor, s[first].write.authorization.author) == s[first].write.recordId
    && s[last].Timestamp().Ordinal() <= d.base.timestamp.Ordinal()
    && forall c :: c in s && OfRecord(s[c], d.recordId) ==> c == first || c == last
  }

  lemma AtMostTwo(s: Store, recordId: string)
    requires Existing(s, recordId) != []
    ensures var r := Existing(s, recordId);
            |r| <= 2 <==> forall c :: c in s && OfRecord(s[c], recordId) ==> c == r[0] || c == r[|r| - 1]
  {
    var r := Existing(s, recordId);
    OldestFirstDistinct(s, RecordCids(s, recordId), r);
    if |r| <= 2 {
      forall c | c in s && OfRecord(s[c], recordId) ensures c == r[0] || c == r[|r| - 1] {
        assert c in Elements(r);
      }
    } else {
      assert r[1] in RecordCids(s, recordId);
    }
  }

  // ----- configures --------------------------------------------------------

  predicate IsConfigOf(m: Stored, protocol: string)
  {
    && m.StoredConfigure? && m.configure.protocol == protocol
    && m.configure.base.interface == ProtocolsInterface
  }

  /** A configure is accepted exactly when it is admitted, of the right kind, and no
      stored configuration of the protocol is later, or as late with a greater CID. */
  lemma ConfigureAcceptedIff(env: Env, s: Store, req: ConfigureRequest)
    ensures var conf := req.configure;
            ConfigureAccepted(env, s, req) <==>
            && req.admitted
            && conf.base.interface == ProtocolsInterface && conf.base.verb == ConfigureMethod
            && forall c :: c in s && IsConfigOf(s[c], conf.protocol) ==>
                 !Older(StoredConfigure(conf), env.configureCid(conf), s[c], c)
  {
    var conf := req.configure;
    var chosen, r := ConfigCids(s, conf.protocol), Configs(s, conf.protocol);
    forall c ensures c in chosen <==> c in s && IsConfigOf(s[c], conf.protocol) {}
    LastIsNewestOf(s, chosen, r);
    ElementsEmpty(r);
    if r != [] {
      var last := r[|r| - 1];
      assert last in chosen;
      forall c | c in chosen && Older(StoredConfigure(conf), env.configureCid(conf), s[c], c)
        ensures Older(StoredConfigure(conf), env.configureCid(conf), s[last], last)
      {
        if c != last { OlderTransitive(StoredConfigure(conf), env.configureCid(conf), s[c], c, s[last], last); }
      }
    }
  }
}
