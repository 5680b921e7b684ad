/** The state of a node and the queries its handlers make on it. */
module NodeState {
  import opened Text
  import opened Order
  import opened Results
  import opened Timestamps
  import opened Messages
  import opened Filters
  import opened RecordQueries

  /** Message blocks with their archive flags, the CIDs in the event log, and the
      (record, data CID) pairs in the data store. */
  datatype State = State(messages: Store, events: set<string>, data: set<(string, string)>)

  const EMPTY: State := State(map[], {}, {})

  // ----- hashing -----------------------------------------------------------

  /** What is outside the model: the node's owner, content hashing and the
      decoding of grant data. */
  datatype Env = Env(
    owner: string,
    entryId: (WriteDescriptor, string) -> string,
    writeCid: Write -> string,
    deleteCid: Delete -> string,
    configureCid: Configure -> string,
    decodeGrant: string -> Option<GrantData>)

  /** A write's CID does not cover its encoded data. */
  function Body(w: Write): Write
  {
    w.(encodedData := None)
  }

  ghost predicate WriteHash(env: Env, v: Write, w: Write)
  {
    && IsCid(env.writeCid(w)) && env.writeCid(w) == env.writeCid(Body(w))
    && (env.writeCid(v) == env.writeCid(w) ==> Body(v) == Body(w))
  }

  ghost predicate DeleteHash(env: Env, d: Delete, e: Delete)
  {
    IsCid(env.deleteCid(d)) && (env.deleteCid(d) == env.deleteCid(e) ==> d == e)
  }

  ghost predicate ConfigureHash(env: Env, c: Configure, d: Configure)
  {
    IsCid(env.configureCid(c)) && (env.configureCid(c) == env.configureCid(d) ==> c == d)
  }

  ghost predicate KindsApart(env: Env, w: Write, d: Delete, c: Configure)
  {
    env.writeCid(w) != env.deleteCid(d)
    && env.writeCid(w) != env.configureCid(c) && env.deleteCid(d) != env.configureCid(c)
  }

  ghost predicate EntryHash(env: Env, d: WriteDescriptor, a: string, e: WriteDescriptor, b: string)
  {
    env.entryId(d, a) == env.entryId(e, b) ==> d == e && a == b
  }

  /** Content hashes are injective, keep kinds of message apart, and have CID text. */
  ghost predicate SoundHashes(env: Env)
  {
    && (forall v, w :: WriteHash(env, v, w))
    && (forall d, e :: DeleteHash(env, d, e))
    && (forall c, d :: ConfigureHash(env, c, d))
    && (forall w, d, c :: KindsApart(env, w, d, c))
    && (forall d, a, e, b :: EntryHash(env, d, a, e, b))
  }

  function CidOf(env: Env, m: Stored): string
  {
    match m
    case StoredWrite(w, _) => env.writeCid(w)
    case StoredDelete(d, _) => env.deleteCid(d)
    case StoredConfigure(c) => env.configureCid(c)
  }

  /** Every message is stored under its own CID. */
  ghost predicate WellKeyed(env: Env, s: Store)
  {
    forall c :: c in s ==> CidOf(env, s[c]) == c && IsCid(c)
  }

  /** The record's first message: its ID is the hash of its own descriptor. */
  predicate IsInitial(env: Env, w: Write)
  {
    env.entryId(w.descriptor, w.authorization.author) == w.recordId
  }

  // ----- queries -----------------------------------------------------------

  predicate InRecord(m: Stored, recordId: string)
  {
    match m
    case StoredWrite(w, _) => w.recordId == recordId
    case StoredDelete(d, _) => d.recordId == recordId
    case StoredConfigure(_) => false
  }

  function TimeKey(m: Stored, c: string): string
  {
    Key(Format(m.Timestamp()), c)
  }

  /** One message is older than another: by timestamp, then by CID. */
  predicate Older(a: Stored, ca: string, b: Stored, cb: string)
  {
    Before(a.Timestamp(), b.Timestamp()) || (a.Timestamp() == b.Timestamp() && Less(ca, cb))
  }

  lemma OlderIsKeyOrder(a: Stored, ca: string, b: Stored, cb: string)
    ensures Older(a, ca, b, cb) <==> Less(TimeKey(a, ca), TimeKey(b, cb))
  {
    var x, y := a.Timestamp(), b.Timestamp();
    KeyOrder(Format(x), ca, Format(y), cb);
    FormatOrder(x, y);
    if Format(x) == Format(y) { FormatInjective(x, y); }
  }

  lemma OlderTransitive(a: Stored, ca: string, b: Stored, cb: string, d: Stored, cd: string)
    requires Older(a, ca, b, cb) && Older(b, cb, d, cd)
    ensures Older(a, ca, d, cd)
  {
    if a.Timestamp() == b.Timestamp() && b.Timestamp() == d.Timestamp() { LessTransitive(ca, cb, cd); }
  }

  lemma OlderTotal(a: Stored, ca: string, b: Stored, cb: string)
    requires ca != cb
    ensures Older(a, ca, b, cb) || Older(b, cb, a, ca)
    ensures !(Older(a, ca, b, cb) && Older(b, cb, a, ca))
  {
    LessTotal(ca, cb);
    if Less(ca, cb) { LessAsymmetric(ca, cb); }
    if a.Timestamp().Ordinal() == b.Timestamp().Ordinal() { OrdinalInjective(a.Timestamp(), b.Timestamp()); }
  }

  predicate IsOldest(s: Store, chosen: set<string>, m: string)
    requires chosen <= s.Keys
  {
    m in chosen && forall c :: c in chosen && c != m ==> Older(s[m], m, s[c], c)
  }

  lemma {:induction false} OldestExists(s: Store, chosen: set<string>) returns (m: string)
    requires chosen != {} && chosen <= s.Keys
    ensures IsOldest(s, chosen, m)
  {
    var e :| e in chosen;
    m := e;
    var rest := chosen - {e};
    assert forall c :: c in chosen ==> c == e || c in rest;
    if rest != {} {
      var n := OldestExists(s, rest);
      OlderTotal(s[e], e, s[n], n);
      m := if Older(s[n], n, s[e], e) then n else e;
      forall c | c in chosen && c != m ensures Older(s[m], m, s[c], c) {
        if m == e && c != n { OlderTransitive(s[e], e, s[n], n, s[c], c); }
      }
    }
  }

  /** The oldest of the chosen messages. */
  function Oldest(s: Store, chosen: set<string>): (m: string)
    requires chosen != {} && chosen <= s.Keys
    ensures IsOldest(s, chosen, m)
  {
    assert exists m :: m in chosen && IsOldest(s, chosen, m) by {
      var m := OldestExists(s, chosen);
    }
    assert forall m, n :: IsOldest(s, chosen, m) && IsOldest(s, chosen, n) ==> m == n by {
      forall m, n | IsOldest(s, chosen, m) && IsOldest(s, chosen, n) ensures m == n {
        if m != n { OlderTotal(s[m], m, s[n], n); }
      }
    }
    var m :| m in chosen && IsOldest(s, chosen, m);
    m
  }

  /** The order in which a query sorted by timestamp lists the chosen messages. */
  ghost predicate OldestFirst(s: Store, chosen: set<string>, r: seq<string>)
  {
    && Elements(r) == chosen
    && (forall i :: 0 <= i < |r| ==> r[i] in s && r[i] in chosen)
    && (forall i, j :: 0 <= i < j < |r| ==> Older(s[r[i]], r[i], s[r[j]], r[j]))
  }

  /** The chosen messages, oldest first. */
  function ByTime(s: Store, chosen: set<string>): (r: seq<string>)
    requires chosen <= s.Keys
    ensures OldestFirst(s, chosen, r)
  {
    if chosen == {} then []
    else
      var m := Oldest(s, chosen);
      var rest := ByTime(s, chosen - {m});
      assert Elements([m] + rest) == {m} + Elements(rest);
      [m] + rest
  }

  lemma OldestFirstDistinct(s: Store, chosen: set<string>, r: seq<string>)
    requires OldestFirst(s, chosen, r)
    ensures forall i, j :: 0 <= i < j < |r| ==> r[i] != r[j]
  {
    forall i, j | 0 <= i < j < |r| ensures r[i] != r[j] {
      if r[i] == r[j] { LessIrreflexive(r[i]); }
    }
  }

  function RecordCids(s: Store, recordId: string): set<string>
  {
    set c | c in s && InRecord(s[c], recordId)
  }

  /** All messages of a record, archived ones included, oldest first. */
  function Existing(s: Store, recordId: string): (r: seq<string>)
    ensures OldestFirst(s, RecordCids(s, recordId), r)
  {
    ByTime(s, RecordCids(s, recordId))
  }

  function CurrentCids(s: Store, q: RecordsFilter): set<string>
  {
    set c | c in s && IsCurrent(s[c]) && Matching(q, s[c].write)
  }

  /** The current writes that match a filter, oldest first. */
  function Current(s: Store, q: RecordsFilter): (r: seq<string>)
    ensures OldestFirst(s, CurrentCids(s, q), r)
  {
    ByTime(s, CurrentCids(s, q))
  }

  predicate IsUnarchived(m: Stored)
  {
    m.StoredWrite? ==> !m.archived
  }

  function UnarchivedCids(s: Store, recordId: string): set<string>
  {
    set c | c in s && InRecord(s[c], recordId) && IsUnarchived(s[c])
  }

  /** The record's messages that are not archived, oldest first. */
  function Unarchived(s: Store, recordId: string): (r: seq<string>)
    ensures OldestFirst(s, UnarchivedCids(s, recordId), r)
  {
    ByTime(s, UnarchivedCids(s, recordId))
  }

  // ----- grants ------------------------------------------------------------

  datatype ScopeLimit = NoLimit | InContext(context: string) | AtPath(path: string)

  datatype Scope =
    | RecordsScope(verb: MethodKind, protocol: string, limit: ScopeLimit)
    | OtherScope(interface: InterfaceKind, verb: MethodKind, anyProtocol: Option<string>)
  {
    function ScopeInterface(): InterfaceKind
    {
      if RecordsScope? then RecordsInterface else interface
    }

    function ScopeProtocol(): Option<string>
    {
      if RecordsScope? then Some(protocol) else anyProtocol
    }
  }

  datatype Publication = Optional | Required | Prohibited

  datatype GrantData = GrantData(dateExpires: Instant, scope: Scope, publication: Publication)

  datatype Grant = Grant(id: string, grantor: string, grantee: string, dateGranted: Instant, data: GrantData)

  const PERMISSIONS: string := "https://vercre.website/dwn/permissions"
  const REVOCATION_PATH: string := "grant/revocation"

  /** The grant held by the current write of a record. */
  function FetchGrant(env: Env, s: Store, grantId: string): Option<Grant>
  {
    var entries := Current(s, RecordFilter(grantId));
    if entries == [] then None else GrantOf(env, s[entries[0]].write)
  }

  /** The grant that a write's data holds. */
  function GrantOf(env: Env, w: Write): Option<Grant>
  {
    if w.encodedData.None? || env.decodeGrant(w.encodedData.value).None? then None
    else Some(Grant(w.recordId, w.authorization.signer, OrEmpty(w.descriptor.recipient), w.descriptor.dateCreated,
                    env.decodeGrant(w.encodedData.value).value))
  }

  function RecordFilter(recordId: string): RecordsFilter
  {
    ANY.(recordId := Some(recordId))
  }

  function RevocationFilter(grantId: string): RecordsFilter
  {
    ANY.(parentId := Some(grantId), protocolPath := Some(REVOCATION_PATH))
  }

  function Revocations(s: Store, grantId: string): seq<string>
  {
    Current(s, RevocationFilter(grantId))
  }

  /** The time is within the grant's, and not after its oldest current revocation. */
  predicate IsInForce(s: Store, g: Grant, t: Instant)
  {
    && !Before(t, g.dateGranted)
    && Before(t, g.data.dateExpires)
    && var revocations := Revocations(s, g.id);
       revocations != [] ==>
         !Before(s[revocations[0]].Timestamp(), t)
  }

  predicate InScope(g: Grant, w: Write)
  {
    && g.data.scope.RecordsScope?
    && w.descriptor.protocol == Some(g.data.scope.protocol)
    && match g.data.scope.limit
       case NoLimit => true
       case InContext(c) => w.contextId.Some? && StartsWith(w.contextId.value, c)
       case AtPath(p) => w.descriptor.protocolPath == Some(p)
  }

  predicate MeetsConditions(g: Grant, w: Write)
  {
    match g.data.publication
    case Optional => true
    case Required => w.IsPublished()
    case Prohibited => !w.IsPublished()
  }

  /** The grant allows the write. */
  predicate PermitsWrite(s: Store, g: Grant, grantor: string, w: Write)
  {
    && w.authorization.author == g.grantee
    && grantor == g.grantor
    && w.descriptor.base.interface == g.data.scope.ScopeInterface()
    && w.descriptor.base.verb == g.data.scope.verb
    && IsInForce(s, g, w.Timestamp())
    && InScope(g, w)
    && MeetsConditions(g, w)
  }
}
