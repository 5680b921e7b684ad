/** The ancestors of protocol records. */
module Ancestry {
  import opened Order
  import opened Results
  import opened Messages
  import opened RecordQueries
  import opened NodeState
  import opened Writes
  import opened Deletes
  import opened Runs
  import opened Lifecycle
  import opened Paths
  import Rules

  // ----- where records come from ------------------------------------------

  /** The descriptor is the one hashed into the record ID. */
  ghost predicate Originates(env: Env, recordId: string, d: WriteDescriptor)
  {
    exists author :: env.entryId(d, author) == recordId
  }

  lemma OriginUnique(env: Env, recordId: string, d: WriteDescriptor, e: WriteDescriptor)
    requires SoundHashes(env) && Originates(env, recordId, d) && Originates(env, recordId, e)
    ensures d == e
  {
    var a :| env.entryId(d, a) == recordId;
    var b :| env.entryId(e, b) == recordId;
    assert EntryHash(env, d, a, e, b);
  }

  /** The parent's descriptor: of the same protocol, with a path one segment shorter. */
  ghost predicate ParentOf(env: Env, d: WriteDescriptor, e: WriteDescriptor)
  {
    && d.parentId.Some? && Originates(env, d.parentId.value, e)
    && e.protocol == d.protocol && e.protocolPath.Some? && d.protocolPath.Some?
    && d.protocolPath.value == e.protocolPath.value + "/" + LastSegment(d.protocolPath.value)
  }

  /** A path fits the place of the record in its protocol's tree. */
  ghost predicate Placed(env: Env, d: WriteDescriptor)
  {
    && d.protocolPath.Some?
    && if d.parentId.None? then '/' !in d.protocolPath.value else exists e :: ParentOf(env, d, e)
  }

  ghost predicate HasOrigin(env: Env, w: Write, d: WriteDescriptor)
  {
    && Originates(env, w.recordId, d) && SameImmutables(w.descriptor, d)
    && (d.protocol.Some? ==> Placed(env, d))
  }

  /** The write agrees with the descriptor hashed into its record ID, which is
      well placed. */
  ghost predicate Rooted(env: Env, m: Stored)
  {
    m.StoredWrite? ==> exists d :: HasOrigin(env, m.write, d)
  }

  ghost predicate AllRooted(env: Env, s: Store)
  {
    forall c :: c in s ==> Rooted(env, s[c])
  }

  // ----- every reachable store is rooted ----------------------------------

  lemma PathPlaces(env: Env, s: Store, w: Write)
    requires AllRooted(env, s) && PathVerified(s, w) && w.descriptor.protocol.Some?
    ensures Placed(env, w.descriptor)
  {
    var d := w.descriptor;
    if d.parentId.Some? {
      var q := ParentFilter(w);
      var entries := Current(s, q);
      assert entries[0] in CurrentCids(s, q);
      var parent := s[entries[0]].write;
      assert Rooted(env, s[entries[0]]);
      var e :| HasOrigin(env, parent, e);
      assert ParentOf(env, d, e);
    }
  }

  lemma AcceptedHasOrigin(env: Env, st: State, req: WriteRequest) returns (d: WriteDescriptor)
    requires AllRooted(env, st.messages) && Accepted(env, st, req)
    ensures HasOrigin(env, req.write, d)
  {
    var s, w := st.messages, req.write;
    var existing := Existing(s, w.recordId);
    if existing == [] {
      d := w.descriptor;
      if d.protocol.Some? { PathPlaces(env, s, w); }
    } else {
      assert existing[0] in RecordCids(s, w.recordId);
      assert Rooted(env, s[existing[0]]);
      d :| HasOrigin(env, s[existing[0]].write, d);
    }
  }

  lemma StepRooted(env: Env, st: State, req: Request)
    requires SoundHashes(env) && WellKeyed(env, st.messages) && AllRooted(env, st.messages)
    ensures AllRooted(env, Step(env, st, req).messages)
  {
    var s, after := st.messages, Step(env, st, req).messages;
    forall c | c in after ensures Rooted(env, after[c]) {
      StepExplained(env, st, req, c);
      if Kept(s, after, c) {
        assert Rooted(env, s[c]);
        if after[c].StoredWrite? { StillRooted(env, s[c], after[c]); }
      } else if req.WriteIt? {
        var d := AcceptedHasOrigin(env, st, req.write);
        NewMessageOf(env, st, req.write);
        assert HasOrigin(env, after[c].write, d);
      }
    }
  }

  lemma StillRooted(env: Env, m: Stored, n: Stored)
    requires m.StoredWrite? && n.StoredWrite? && n.write == m.write && Rooted(env, m)
    ensures Rooted(env, n)
  {
  }

  /** On every run, every stored write agrees with the descriptor its record ID
      was hashed from, and protocol records continue their parents' paths. */
  lemma {:induction false} RunRooted(env: Env, reqs: seq<Request>)
    requires SoundHashes(env)
    ensures AllRooted(env, Run(env, EMPTY, reqs).messages)
    decreases |reqs|
  {
    if reqs != [] {
      var n := |reqs| - 1;
      RunRooted(env, reqs[..n]);
      RunKeyed(env, reqs[..n]);
      StepRooted(env, Run(env, EMPTY, reqs[..n]), reqs[n]);
    }
  }

  // ----- the walk ----------------------------------------------------------

  /** The record's earliest message, which must be its initial write. */
  function InitialWrite(env: Env, s: Store, recordId: string): Result<Option<Write>>
  {
    var existing := Existing(s, recordId);
    if existing == [] then Ok(None)
    else if s[existing[0]].StoredWrite? && IsInitial(env, s[existing[0]].write) then Ok(Some(s[existing[0]].write))
    else Err(Unexpected)
  }

  lemma InitialIsOrigin(env: Env, s: Store, recordId: string, w: Write, d: WriteDescriptor)
    requires SoundHashes(env) && AllRooted(env, s) && InitialWrite(env, s, recordId) == Ok(Some(w))
    requires Originates(env, recordId, d) && d.protocol.Some?
    ensures w.descriptor == d && w.recordId == recordId && Placed(env, d)
  {
    var existing := Existing(s, recordId);
    assert existing[0] in RecordCids(s, recordId);
    assert Originates(env, recordId, w.descriptor);
    OriginUnique(env, recordId, w.descriptor, d);
    assert Rooted(env, s[existing[0]]);
    var e :| HasOrigin(env, w, e);
    OriginUnique(env, recordId, d, e);
  }

  /** Going up from a record meets these initial writes and then gets to `next`. */
  ghost predicate Climbs(env: Env, s: Store, recordId: string, up: seq<Write>, next: Option<string>)
    decreases |up|
  {
    if up == [] then next == Some(recordId)
    else
      && InitialWrite(env, s, recordId) == Ok(Some(up[0]))
      && var parent := up[0].descriptor.parentId;
         if parent.None? then |up| == 1 && next == None else Climbs(env, s, parent.value, up[1..], next)
  }

  lemma {:induction false} ClimbOn(env: Env, s: Store, recordId: string, up: seq<Write>, next: string, w: Write)
    requires Climbs(env, s, recordId, up, Some(next)) && InitialWrite(env, s, next) == Ok(Some(w))
    ensures Climbs(env, s, recordId, up + [w], w.descriptor.parentId)
    decreases |up|
  {
    if up != [] {
      assert (up + [w])[1..] == up[1..] + [w];
      ClimbOn(env, s, up[0].descriptor.parentId.value, up[1..], next, w);
    } else {
      assert ([] + [w])[1..] == [];
    }
  }

  /** Where a climb is stuck, no climb gets to the root. */
  lemma {:induction false} StuckClimb(env: Env, s: Store, recordId: string, up: seq<Write>, next: string,
                                      whole: seq<Write>)
    requires Climbs(env, s, recordId, up, Some(next))
    requires InitialWrite(env, s, next).Ok? ==> InitialWrite(env, s, next).value.None?
    ensures !Climbs(env, s, recordId, whole, None)
    decreases |up|
  {
    if up != [] && whole != [] && whole[0] == up[0] {
      StuckClimb(env, s, up[0].descriptor.parentId.value, up[1..], next, whole[1..]);
    }
  }

  /** Where the climb is now, there is a record of the protocol. */
  ghost predicate At(env: Env, recordId: string, e: WriteDescriptor)
  {
    Originates(env, recordId, e) && e.protocol.Some? && e.protocolPath.Some?
  }

  /** A parent's path is strictly shorter, so that the walk ends. */
  lemma ParentShorter(env: Env, s: Store, recordId: string, w: Write, d: WriteDescriptor) returns (e: WriteDescriptor)
    requires SoundHashes(env) && AllRooted(env, s)
    requires InitialWrite(env, s, recordId) == Ok(Some(w)) && At(env, recordId, d)
    ensures w.descriptor.parentId.Some? ==>
      At(env, w.descriptor.parentId.value, e) && |e.protocolPath.value| < |d.protocolPath.value|
    ensures w.descriptor == d && (w.descriptor.parentId.Some? ==> ParentOf(env, d, e))
  {
    InitialIsOrigin(env, s, recordId, w, d);
    e := d;
    if d.parentId.Some? { e :| ParentOf(env, d, e); }
  }

  /** One initial write for each segment of the path, and the i-th has the first
      i segments as its path. */
  ghost predicate SpellsPath(chain: seq<Write>, protocol: Option<string>, path: string)
  {
    && |chain| == |Split(path)|
    && forall i :: 0 <= i < |chain| ==> Spells(chain[i], protocol, Split(path)[..i + 1])
  }

  ghost predicate Spells(w: Write, protocol: Option<string>, segments: seq<string>)
  {
    && w.descriptor.protocol == protocol
    && w.descriptor.protocolPath.Some? && Split(w.descriptor.protocolPath.value) == segments
  }

  /** Walks from a record of a protocol up to the root. The walk ends for every
      rooted store: with the whole chain if there is one, and otherwise with an
      error. */
  method AncestorChain(env: Env, s: Store, recordId: string, ghost d: WriteDescriptor) returns (r: Result<seq<Write>>)
    requires SoundHashes(env) && AllRooted(env, s) && At(env, recordId, d)
    ensures r.Ok? ==> Climbs(env, s, recordId, Reversed(r.value), None)
    ensures r.Ok? ==> SpellsPath(r.value, d.protocol, d.protocolPath.value)
    ensures r.Err? ==> forall up :: !Climbs(env, s, recordId, up, None)
  {
    var ancestors: seq<Write> := [];
    var current := Some(recordId);
    ghost var e := d;
    while current.Some?
      invariant Climbs(env, s, recordId, ancestors, current)
      invariant current.Some? ==> At(env, current.value, e)
      decreases if current.Some? then |e.protocolPath.value| + 1 else 0
    {
      var found := InitialWrite(env, s, current.value);
      if found.Err? || found.value.None? {
        forall up ensures !Climbs(env, s, recordId, up, None) {
          StuckClimb(env, s, recordId, ancestors, current.value, up);
        }
        return Err(if found.Err? then found.error else Forbidden);
      }
      var w := found.value.value;
      ClimbOn(env, s, recordId, ancestors, current.value, w);
      e := ParentShorter(env, s, current.value, w, e);
      ancestors := ancestors + [w];
      current := w.descriptor.parentId;
    }
    var chain := Reversed(ancestors);
    assert Reversed(chain) == ancestors;
    ClimbSpells(env, s, recordId, d, ancestors);
    return Ok(chain);
  }

  lemma {:induction false} LastIsSegment(path: string)
    ensures LastSegment(path) == Split(path)[|Split(path)| - 1] && '/' !in LastSegment(path)
    decreases |path|
  {
    if '/' !in path {
      SplitSingle(path);
    } else {
      LastIsSegment(path[1..]);
      assert path == [path[0]] + path[1..];
      JoinSplit(path[1..]);
    }
  }

  ghost predicate SpellsBack(up: seq<Write>, protocol: Option<string>, segments: seq<string>)
  {
    |up| == |segments| && forall i :: 0 <= i < |up| ==> Spells(up[i], protocol, segments[..|up| - i])
  }

  lemma SpellsMore(up: seq<Write>, protocol: Option<string>, segments: seq<string>, name: string)
    requires up != [] && SpellsBack(up[1..], protocol, segments) && Spells(up[0], protocol, segments + [name])
    ensures SpellsBack(up, protocol, segments + [name])
  {
    var n := |up|;
    assert (segments + [name])[..n] == segments + [name];
    forall i | 1 <= i < n ensures Spells(up[i], protocol, (segments + [name])[..n - i]) {
      assert Spells(up[1..][i - 1], protocol, segments[..n - i]);
      assert (segments + [name])[..n - i] == segments[..n - i];
    }
  }

  /** A climb to the root spells the path, backwards. */
  lemma {:induction false} ClimbSpells(env: Env, s: Store, recordId: string, d: WriteDescriptor, up: seq<Write>)
    requires SoundHashes(env) && AllRooted(env, s) && At(env, recordId, d) && Climbs(env, s, recordId, up, None)
    ensures SpellsBack(up, d.protocol, Split(d.protocolPath.value))
    decreases |up|
  {
    var path := d.protocolPath.value;
    var e := ParentShorter(env, s, recordId, up[0], d);
    if d.parentId.None? {
      InitialIsOrigin(env, s, recordId, up[0], d);
      SplitSingle(path);
    } else {
      ClimbSpells(env, s, d.parentId.value, e, up[1..]);
      LastIsSegment(path);
      SplitAppend(e.protocolPath.value, LastSegment(path));
      SpellsMore(up, d.protocol, Split(e.protocolPath.value), LastSegment(path));
    }
  }

  // ----- from any record --------------------------------------------------

  /** A record's ID comes after its parent's: nobody can hash an ID that is yet to
      be hashed into a descriptor. */
  ghost predicate AfterParent(env: Env, rank: string -> nat, d: WriteDescriptor, author: string)
  {
    d.parentId.Some? ==> rank(d.parentId.value) < rank(env.entryId(d, author))
  }

  /** If IDs come after those of parents, no walk goes on for ever, from whatever
      record it starts: of a protocol or not, from a stored record or from the
      parent named by a write that is still to be verified and may be rejected. */
  lemma {:induction false} ClimbIsBounded(env: Env, s: Store, recordId: string, up: seq<Write>, next: Option<string>,
                                          rank: string -> nat)
    requires (forall d, author :: AfterParent(env, rank, d, author)) && Climbs(env, s, recordId, up, next)
    ensures |up| <= rank(recordId) + 1
    decreases |up|
  {
    if up != [] && up[0].descriptor.parentId.Some? {
      assert Existing(s, recordId)[0] in RecordCids(s, recordId);
      assert AfterParent(env, rank, up[0].descriptor, up[0].authorization.author);
      ClimbIsBounded(env, s, up[0].descriptor.parentId.value, up[1..], next, rank);
    }
  }

  // ----- from stored records ----------------------------------------------

  /** The walk can start from every protocol record stored on any run, and from
      the parent of every protocol record accepted on any run. */
  lemma StoredAt(env: Env, s: Store, c: string) returns (d: WriteDescriptor)
    requires AllRooted(env, s) && c in s && s[c].StoredWrite? && s[c].write.descriptor.protocol.Some?
    ensures At(env, s[c].write.recordId, d) && d.protocolPath == s[c].write.descriptor.protocolPath
    ensures d.protocol == s[c].write.descriptor.protocol
  {
    assert Rooted(env, s[c]);
    d :| HasOrigin(env, s[c].write, d);
  }

  lemma ParentAt(env: Env, st: State, req: WriteRequest) returns (e: WriteDescriptor)
    requires AllRooted(env, st.messages) && Accepted(env, st, req)
    requires req.write.descriptor.protocol.Some? && req.write.descriptor.parentId.Some?
    ensures At(env, req.write.descriptor.parentId.value, e) && e.protocol == req.write.descriptor.protocol
    ensures Split(req.write.descriptor.protocolPath.value) ==
            Split(e.protocolPath.value) + [LastSegment(req.write.descriptor.protocolPath.value)]
  {
    var d := req.write.descriptor;
    PathPlaces(env, st.messages, req.write);
    e :| ParentOf(env, d, e);
    LastIsSegment(d.protocolPath.value);
    SplitAppend(e.protocolPath.value, LastSegment(d.protocolPath.value));
  }

  // ----- rules about ancestors --------------------------------------------

  /** The first ancestor at a path. */
  function FindAncestor(chain: seq<Write>, path: Option<string>): Option<Write>
  {
    if chain == [] then None
    else if chain[0].descriptor.protocolPath == path then Some(chain[0])
    else FindAncestor(chain[1..], path)
  }

  predicate IsActor(author: string, rule: Rules.ActionRule, ancestor: Write)
  {
    if rule.who == Some(Rules.Recipient) then Some(author) == ancestor.descriptor.recipient
    else author == ancestor.authorization.author
  }

  predicate PermitActor(author: string, rule: Rules.ActionRule, chain: seq<Write>)
  {
    var ancestor := FindAncestor(chain, rule.of);
    ancestor.Some? && IsActor(author, rule, ancestor.value)
  }

  lemma {:induction false} FindsFirst(chain: seq<Write>, path: Option<string>, k: nat)
    requires k < |chain| && chain[k].descriptor.protocolPath == path
    requires forall i :: 0 <= i < k ==> chain[i].descriptor.protocolPath != path
    ensures FindAncestor(chain, path) == Some(chain[k])
  {
    if k > 0 { FindsFirst(chain[1..], path, k - 1); }
  }

  lemma {:induction false} FindsNone(chain: seq<Write>, path: Option<string>)
    requires forall i :: 0 <= i < |chain| ==> chain[i].descriptor.protocolPath != path
    ensures FindAncestor(chain, path) == None
  {
    if chain != [] { FindsNone(chain[1..], path); }
  }

  /** No two ancestors have the same path. */
  lemma AncestorsApart(chain: seq<Write>, protocol: Option<string>, path: string, i: nat, j: nat)
    requires SpellsPath(chain, protocol, path) && i < j < |chain|
    ensures chain[i].descriptor.protocolPath != chain[j].descriptor.protocolPath
  {
    assert Spells(chain[i], protocol, Split(path)[..i + 1]) && Spells(chain[j], protocol, Split(path)[..j + 1]);
  }

  /** A rule about the ancestor at a path permits an author exactly when the path
      is an initial part of the record's, and the one ancestor there has the author
      as its recipient, for a recipient's rule, or else as its author. */
  lemma ActorOfAncestor(author: string, rule: Rules.ActionRule, chain: seq<Write>, protocol: Option<string>,
                        path: string)
    requires SpellsPath(chain, protocol, path)
    ensures PermitActor(author, rule, chain) <==>
            && rule.of.Some?
            && var n := |Split(rule.of.value)|;
               && n <= |chain| && Split(rule.of.value) == Split(path)[..n]
               && (if rule.who == Some(Rules.Recipient) then chain[n - 1].descriptor.recipient == Some(author)
                   else chain[n - 1].authorization.author == author)
  {
    if k :| 0 <= k < |chain| && chain[k].descriptor.protocolPath == rule.of {
      forall i | 0 <= i < k ensures chain[i].descriptor.protocolPath != rule.of {
        AncestorsApart(chain, protocol, path, i, k);
      }
      FindsFirst(chain, rule.of, k);
      assert Spells(chain[k], protocol, Split(path)[..k + 1]);
    } else {
      FindsNone(chain, rule.of);
      if rule.of.Some? && |Split(rule.of.value)| <= |chain| {
        var n := |Split(rule.of.value)|;
        assert Spells(chain[n - 1], protocol, Split(path)[..n]);
        if Split(rule.of.value) == Split(path)[..n] {
          JoinSplit(rule.of.value);
          JoinSplit(chain[n - 1].descriptor.protocolPath.value);
        }
      }
    }
  }
}
