/** The queries that handlers make of the store, and what the index store answers. */
module StoreLink {
  import opened Text
  import opened Order
  import opened Results
  import opened Timestamps
  import opened Queries
  import opened Messages
  import opened Index
  import opened IndexStore
  import opened QueryTheorems
  import opened MessageStore
  import opened Filters
  import opened RecordQueries
  import opened NodeState
  import opened Writes
  import opened Deletes

  /** A query with one match set, sorted by timestamp. */
  function TimeQuery(ms: MatchSet): Query
  {
    Query([ms], TimestampAsc, None)
  }

  function AcceptedCids(s: Store, ms: MatchSet): set<string>
  {
    set c | c in s && Accepts(ms, s[c].Fields())
  }

  /** If the set is looked up in an index, the scan overlooks no message. */
  ghost predicate Found(s: Store, ms: MatchSet)
  {
    TimeQuery(ms).IsConcise() ==> forall c :: c in s ==> Reaches(ms, s[c].Fields())
  }

  /** Sorting by timestamp key and CID is listing the oldest first. */
  lemma AnswerIsByTime(s: Store, chosen: set<string>)
    requires Addressed(s) && chosen <= s.Keys
    ensures Answer(Flat(s), chosen, MessageTimestamp) == ByTime(s, chosen)
  {
    var live, r := Flat(s), ByTime(s, chosen);
    var keys := SortKeys(live, chosen, MessageTimestamp);
    forall c | c in chosen ensures c in keys && keys[c] == TimeKey(s[c], c) {
      FieldIs(s[c], MessageTimestamp);
      AlwaysIndexed(s[c]);
    }
    assert keys.Keys == chosen;
    forall i, j | 0 <= i < j < |r| ensures Less(keys[r[i]], keys[r[j]]) {
      OlderIsKeyOrder(s[r[i]], r[i], s[r[j]], r[j]);
    }
    ArrangeUnique(keys, r);
  }

  lemma ListedOnce(ms: MatchSet, fields: Fields)
    ensures Listed([ms], fields) == if Accepts(ms, fields) then 1 else 0
  {
    assert [ms][..0] == [];
    assert Copies([], fields) == 0;
  }

  lemma OneSetWanted(live: Live, ms: MatchSet)
    ensures Wanted(live, [ms]) == set c | c in live && Accepts(ms, live[c])
    ensures forall f :: Exclusive(live, [ms], f)
  {
    forall c | c in live ensures Listed([ms], live[c]) <= 1 && (c in Wanted(live, [ms]) <==> Accepts(ms, live[c])) {
      ListedOnce(ms, live[c]);
      WantedIff(live, [ms], c);
    }
  }

  /** The full walk for one set lists what the set accepts, in order. */
  lemma WalkIsAnswer(live: Live, ms: MatchSet)
    requires AllCids(live) && !TimeQuery(ms).IsConcise()
    ensures Retrieved(live, TimeQuery(ms)) == ItemsOf(live, Answer(live, Wanted(live, [ms]), MessageTimestamp))
  {
    var q := TimeQuery(ms);
    var walk := Walk(live, q);
    OneSetWanted(live, ms);
    StopUnlimited(walk, q.sets, 0);
    assert walk[..|walk|] == walk;
    FullIsSorted(live, q);
  }

  lemma OneSetSelected(s: Store, ms: MatchSet)
    requires Addressed(s) && TimeQuery(ms).IsConcise() && Found(s, ms)
    ensures Selection(Flat(s), [ms]) == AcceptedCids(s, ms)
  {
    var live := Flat(s);
    forall c | c in live ensures c in Selection(live, [ms]) <==> Accepts(ms, s[c].Fields()) {
      assert Reaches(ms, s[c].Fields());
      SelectedIff(live, [ms], c);
      assert [ms][0] == ms;
    }
  }

  /** Whichever strategy runs the query, it lists the messages its set accepts,
      oldest first. */
  lemma QueryIsByTime(s: Store, ms: MatchSet)
    requires Addressed(s) && Found(s, ms)
    ensures Retrieved(Flat(s), TimeQuery(ms)) == ItemsOf(Flat(s), ByTime(s, AcceptedCids(s, ms)))
  {
    AnswerIsByTime(s, AcceptedCids(s, ms));
    RetrievedIsAnswer(s, ms, Flat(s), AcceptedCids(s, ms));
  }

  lemma RetrievedIsAnswer(s: Store, ms: MatchSet, live: Live, chosen: set<string>)
    requires Addressed(s) && Found(s, ms) && live == Flat(s) && chosen == AcceptedCids(s, ms)
    ensures Retrieved(live, TimeQuery(ms)) == ItemsOf(live, Answer(live, chosen, MessageTimestamp))
  {
    if TimeQuery(ms).IsConcise() {
      OneSetSelected(s, ms);
      ScanIsAnswer(live, ms);
    } else {
      OneSetWanted(live, ms);
      assert Wanted(live, [ms]) == chosen;
      WalkIsAnswer(live, ms);
    }
  }

  lemma ScanIsAnswer(live: Live, ms: MatchSet)
    requires AllCids(live) && TimeQuery(ms).IsConcise()
    ensures Retrieved(live, TimeQuery(ms)) == ItemsOf(live, Answer(live, Selection(live, [ms]), MessageTimestamp))
  {
  }

  // ----- queries that cannot fail -----------------------------------------

  /** Evaluating the set fails on no message. */
  ghost predicate Evaluates(s: Store, ms: MatchSet)
  {
    forall c :: c in s ==> EvalAll(ms.inner, s[c].Fields()).Ok?
  }

  /** The matchers compare text, so that none of them parses a value. */
  predicate AllText(inner: seq<Matcher>)
  {
    forall i :: 0 <= i < |inner| ==> !inner[i].on.InRange? && !inner[i].on.InDates?
  }

  lemma {:induction false} TextEvaluates(inner: seq<Matcher>, fields: Fields)
    requires AllText(inner)
    ensures EvalAll(inner, fields).Ok?
  {
    if inner != [] { TextEvaluates(inner[1..], fields); }
  }

  lemma TextSetEvaluates(s: Store, ms: MatchSet)
    requires AllText(ms.inner)
    ensures Evaluates(s, ms)
  {
    forall c | c in s ensures EvalAll(ms.inner, s[c].Fields()).Ok? { TextEvaluates(ms.inner, s[c].Fields()); }
  }

  /** Queries of stored messages never fail. */
  lemma NeverFaulty(s: Store, ms: MatchSet)
    requires Evaluates(s, ms)
    ensures forall i, c :: !ScanFault(TimeQuery(ms), Flat(s), i, c) && !WalkFault(TimeQuery(ms), Flat(s), i, c)
  {
    forall c | c in s ensures MessageTimestamp in Flat(s)[c] {
      FieldIs(s[c], MessageTimestamp);
      AlwaysIndexed(s[c]);
    }
    NoFault(Flat(s), ms);
  }

  lemma NoFault(live: Live, ms: MatchSet)
    requires forall c :: c in live ==> EvalAll(ms.inner, live[c]).Ok? && MessageTimestamp in live[c]
    ensures forall i, c :: !ScanFault(TimeQuery(ms), live, i, c) && !WalkFault(TimeQuery(ms), live, i, c)
  {
    var q := TimeQuery(ms);
    forall i, c ensures !ScanFault(q, live, i, c) && !WalkFault(q, live, i, c) {
      if 0 <= i < |q.sets| { assert q.sets[i] == ms; }
    }
  }

  /** Running the query of one set returns exactly the chosen messages. */
  ghost predicate Selects(s: Store, ms: MatchSet, chosen: set<string>)
  {
    && Found(s, ms) && Evaluates(s, ms) && AcceptedCids(s, ms) == chosen
    && (ms.index.Some? ==> ms.index.value.0 != REVERSE)
  }

  // ----- the queries of the handlers --------------------------------------

  /** All messages of a record, archived or not. */
  function RecordSet(recordId: string): MatchSet
  {
    BuildSet(RecordFilter(recordId), None, true)
  }

  /** The messages of a record that are not archived. */
  function UnarchivedSet(recordId: string): MatchSet
  {
    BuildSet(RecordFilter(recordId), None, false)
  }

  /** The configurations of a protocol. */
  function ConfigSet(protocol: string): MatchSet
  {
    MatchSet([Matcher(Interface, Equal(ProtocolsInterface.Text())), Matcher(Protocol, Equal(protocol))],
             Some((Protocol, "")))
  }

  /** The writes created under a grant from a time on. */
  function GrantedSet(grantId: string, t: Instant): MatchSet
  {
    MatchSet(
      [Matcher(Interface, Equal(RecordsInterface.Text())), Matcher(Method, Equal(WriteMethod.Text())),
       Matcher(PermissionGrantId, Equal(grantId)), Matcher(DateCreated, InDates(DateRange(Some(t), None)))],
      Some((Protocol, "")))
  }

  /** The filter asks for no range of sizes or dates, and is not looked up by
      its context. */
  predicate IsTextual(q: RecordsFilter)
  {
    && q.dataSize.None? && q.dateCreated.None? && q.datePublished.None? && q.dateUpdated.None?
    && (q.contextId.Some? ==> q.recordId.Some? || q.protocolPath.Some?)
  }

  lemma TextualSet(q: RecordsFilter, verb: Option<MethodKind>, archived: bool)
    requires IsTextual(q)
    ensures AllText(BuildSet(q, verb, archived).inner)
  {
    var kind := [Matcher(Interface, Equal(RecordsInterface.Text()))];
    PeopleTextual(q);
    PlacesTextual(q);
    assert AllText(Contents(q)) && AllText(Times(q));
    TextConcat(kind, People(q));
    TextConcat(kind + People(q), Places(q));
    TextConcat(kind + People(q) + Places(q), Contents(q));
    TextConcat(kind + People(q) + Places(q) + Contents(q), Times(q));
    FlagsTextual(q, verb, archived);
  }

  lemma TextConcat(a: seq<Matcher>, b: seq<Matcher>)
    requires AllText(a) && AllText(b)
    ensures AllText(a + b)
  {
  }

  lemma PeopleTextual(q: RecordsFilter)
    ensures AllText(People(q))
  {
  }

  lemma PlacesTextual(q: RecordsFilter)
    ensures AllText(Places(q))
  {
  }

  lemma FlagsTextual(q: RecordsFilter, verb: Option<MethodKind>, archived: bool)
    requires AllText(Compile(q))
    ensures AllText(BuildSet(q, verb, archived).inner)
  {
    var kind := if verb.Some? then [Matcher(Method, Equal(verb.value.Text()))] else [];
    var flag := if archived then [] else [Matcher(Initial, Equal(BoolText(false)))];
    TextConcat(kind, flag);
    TextConcat(kind + flag, Compile(q));
  }

  lemma FilterReady(s: Store, q: RecordsFilter, verb: Option<MethodKind>, archived: bool)
    requires IsTextual(q)
    ensures Found(s, BuildSet(q, verb, archived)) && Evaluates(s, BuildSet(q, verb, archived))
  {
    var ms := BuildSet(q, verb, archived);
    TextualSet(q, verb, archived);
    TextSetEvaluates(s, ms);
    if TimeQuery(ms).IsConcise() {
      assert [ms][0] == ms;
      BuildSetBacked(q, verb, archived);
      forall c | c in s ensures Reaches(ms, s[c].Fields()) {
        if Accepts(ms, s[c].Fields()) { OnlyContextOverlooks(q, verb, archived, s[c].Fields()); }
      }
    }
  }

  lemma RecordSetAccepts(recordId: string, m: Stored, archived: bool)
    requires m.StoredWrite? ==> m.write.descriptor.base.interface == RecordsInterface
    ensures Accepts(BuildSet(RecordFilter(recordId), None, archived), m.Fields()) <==>
            InRecord(m, recordId) && (archived || IsUnarchived(m))
  {
    var id, kind, flag := Matcher(RecordId, Equal(recordId)), Matcher(Interface, Equal(RecordsInterface.Text())),
                          Matcher(Initial, Equal(BoolText(false)));
    var ms := BuildSet(RecordFilter(recordId), None, archived);
    assert ms.inner == (if archived then [] else [flag]) + [kind, id];
    AcceptsIff(ms.inner, m.Fields());
    FieldIs(m, RecordId);
    FieldIs(m, Interface);
    FieldIs(m, Initial);
    if archived {
      assert ms.inner[0] == kind && ms.inner[1] == id;
    } else {
      assert ms.inner[0] == flag && ms.inner[1] == kind && ms.inner[2] == id;
    }
  }

  /** Every stored write is a records write. */
  ghost predicate RecordsOnly(s: Store)
  {
    forall c :: c in s && s[c].StoredWrite? ==> s[c].write.descriptor.base.interface == RecordsInterface
  }

  /** The query for a record's messages selects exactly those, and without
      archived ones exactly those that are not archived. */
  lemma RecordSetSelects(s: Store, recordId: string, archived: bool)
    requires RecordsOnly(s)
    ensures Selects(s, BuildSet(RecordFilter(recordId), None, archived),
                    if archived then RecordCids(s, recordId) else UnarchivedCids(s, recordId))
  {
    var ms := BuildSet(RecordFilter(recordId), None, archived);
    FilterReady(s, RecordFilter(recordId), None, archived);
    forall c | c in s
      ensures Accepts(ms, s[c].Fields()) <==> InRecord(s[c], recordId) && (archived || IsUnarchived(s[c]))
    {
      RecordSetAccepts(recordId, s[c], archived);
    }
  }

  /** The query for the current writes that match a filter selects exactly those. */
  lemma CurrentSetSelects(s: Store, q: RecordsFilter)
    requires IsTextual(q)
    ensures Selects(s, BuildSet(q, Some(WriteMethod), false), CurrentCids(s, q))
  {
    var ms := BuildSet(q, Some(WriteMethod), false);
    FilterReady(s, q, Some(WriteMethod), false);
    forall c | c in s ensures Accepts(ms, s[c].Fields()) <==> IsCurrent(s[c]) && Matching(q, s[c].write) {
      SetAccepts(q, s[c]);
    }
  }

  lemma InterfaceText(a: InterfaceKind, b: InterfaceKind)
    ensures a.Text() == b.Text() <==> a == b
  {
    assert "Records"[0] == 'R' && "Protocols"[0] == 'P' && "Messages"[0] == 'M';
  }

  lemma ConfigSetAccepts(s: Store, protocol: string, c: string)
    requires RecordsOnly(s) && c in s
    ensures Accepts(ConfigSet(protocol), s[c].Fields()) <==> c in ConfigCids(s, protocol)
  {
    var ms := ConfigSet(protocol);
    AcceptsIff(ms.inner, s[c].Fields());
    FieldIs(s[c], Interface);
    FieldIs(s[c], Protocol);
    InterfaceText(RecordsInterface, ProtocolsInterface);
    if s[c].StoredConfigure? { InterfaceText(s[c].configure.base.interface, ProtocolsInterface); }
    assert ms.inner[0].field == Interface && ms.inner[1].field == Protocol;
  }

  /** The query for a protocol's configurations selects exactly those. */
  lemma ConfigSetSelects(s: Store, protocol: string)
    requires RecordsOnly(s)
    ensures Selects(s, ConfigSet(protocol), ConfigCids(s, protocol))
  {
    var ms := ConfigSet(protocol);
    assert [ms][0] == ms;
    TextSetEvaluates(s, ms);
    forall c | c in s ensures Accepts(ms, s[c].Fields()) <==> c in ConfigCids(s, protocol) {
      ConfigSetAccepts(s, protocol, c);
    }
  }

  lemma GrantedAccepts(grantId: string, t: Instant, m: Stored)
    ensures Accepts(GrantedSet(grantId, t), m.Fields()) <==> InvokedAfter(m, grantId, t)
  {
    FourMatchers(grantId, t, m.Fields());
    IsRecordsWrite(m, m.Fields());
    CreatedUnderGrant(m, m.Fields(), grantId, t);
  }

  lemma FourMatchers(grantId: string, t: Instant, fields: Fields)
    ensures Accepts(GrantedSet(grantId, t), fields) <==>
            && Holds(Matcher(Interface, Equal(RecordsInterface.Text())), fields)
            && Holds(Matcher(Method, Equal(WriteMethod.Text())), fields)
            && Holds(Matcher(PermissionGrantId, Equal(grantId)), fields)
            && Holds(Matcher(DateCreated, InDates(DateRange(Some(t), None))), fields)
  {
    var inner := GrantedSet(grantId, t).inner;
    AcceptsIff(inner, fields);
    assert inner[0].field == Interface && inner[1].field == Method;
    assert inner[2].field == PermissionGrantId && inner[3].field == DateCreated;
  }

  lemma CreatedUnderGrant(m: Stored, fields: Fields, grantId: string, t: Instant)
    requires fields == m.Fields()
    ensures m.StoredConfigure? ==> !Holds(Matcher(PermissionGrantId, Equal(grantId)), fields)
    ensures m.StoredWrite? ==>
      (Holds(Matcher(PermissionGrantId, Equal(grantId)), fields) <==> m.write.authorization.grantId == Some(grantId))
    ensures m.StoredWrite? ==>
      (Holds(Matcher(DateCreated, InDates(DateRange(Some(t), None))), fields) <==>
       !Before(m.write.descriptor.dateCreated, t))
  {
    FieldIs(m, PermissionGrantId);
    FieldIs(m, DateCreated);
    if m.StoredWrite? { InstantRoundTrip(m.write.descriptor.dateCreated); }
  }

  lemma IsRecordsWrite(m: Stored, fields: Fields)
    requires fields == m.Fields()
    ensures m.StoredDelete? ==> !Holds(Matcher(Method, Equal(WriteMethod.Text())), fields)
    ensures m.StoredWrite? ==>
      (Holds(Matcher(Method, Equal(WriteMethod.Text())), fields) <==> m.write.descriptor.base.verb == WriteMethod)
    ensures m.StoredWrite? ==>
      (Holds(Matcher(Interface, Equal(RecordsInterface.Text())), fields) <==>
       m.write.descriptor.base.interface == RecordsInterface)
  {
    FieldIs(m, Interface);
    FieldIs(m, Method);
    VerbText(DeleteMethod);
    if m.StoredWrite? {
      InterfaceText(m.write.descriptor.base.interface, RecordsInterface);
      VerbText(m.write.descriptor.base.verb);
    }
  }

  lemma CreationParses(m: Stored, fields: Fields)
    requires fields == m.Fields()
    ensures DateCreated in fields ==> ParseInstant(fields[DateCreated]).Some?
  {
    FieldIs(m, DateCreated);
    CreationText(m);
  }

  lemma CreationText(m: Stored)
    ensures m.Field(DateCreated).Some? ==> ParseInstant(m.Field(DateCreated).value).Some?
  {
    match m
    case StoredWrite(w, _) => InstantRoundTrip(w.descriptor.dateCreated);
    case StoredDelete(_, w) => InstantRoundTrip(w.descriptor.dateCreated);
    case StoredConfigure(_) =>
  }

  lemma FourEvaluate(inner: seq<Matcher>, fields: Fields)
    requires |inner| == 4 && inner[0].on.Equal? && inner[1].on.Equal? && inner[2].on.Equal?
    requires inner[3].field == DateCreated && inner[3].on.InDates?
    requires DateCreated in fields ==> ParseInstant(fields[DateCreated]).Some?
    ensures EvalAll(inner, fields).Ok?
  {
    assert EvalAll([], fields) == Ok(true);
    assert inner[3..][1..] == [] && inner[3..][0] == inner[3];
    assert EvalAll(inner[3..], fields).Ok?;
    EvalHead(inner, 2, fields);
    EvalHead(inner, 1, fields);
    EvalHead(inner, 0, fields);
    assert inner[0..] == inner;
  }

  lemma EvalHead(inner: seq<Matcher>, i: nat, fields: Fields)
    requires i < |inner| && inner[i].on.Equal? && EvalAll(inner[i + 1..], fields).Ok?
    ensures EvalAll(inner[i..], fields).Ok?
  {
    assert inner[i..][1..] == inner[i + 1..];
  }

  lemma GrantedEvaluates(s: Store, grantId: string, t: Instant)
    ensures Evaluates(s, GrantedSet(grantId, t))
  {
    forall c | c in s ensures EvalAll(GrantedSet(grantId, t).inner, s[c].Fields()).Ok? {
      CreationParses(s[c], s[c].Fields());
      FourEvaluate(GrantedSet(grantId, t).inner, s[c].Fields());
    }
  }

  /** The query made by a revocation selects exactly the writes to remove. */
  lemma GrantedSetSelects(s: Store, grantId: string, t: Instant)
    ensures Selects(s, GrantedSet(grantId, t), CreatedUnder(s, grantId, t))
  {
    var ms := GrantedSet(grantId, t);
    assert [ms][0] == ms;
    GrantedEvaluates(s, grantId, t);
    forall c | c in s ensures Accepts(ms, s[c].Fields()) <==> InvokedAfter(s[c], grantId, t) {
      GrantedAccepts(grantId, t, s[c]);
    }
  }
}
