/** Record queries: the match sets built for filters, and what they select from
    a store of messages. */
module RecordQueries {
  import opened Text
  import opened Results
  import opened Queries
  import opened Messages
  import opened Index
  import opened IndexStore
  import opened QueryTheorems
  import opened MessageStore
  import opened Filters

  type Store = map<string, Stored>

  /** The indexes of a store of messages. */
  ghost function Flat(s: Store): Live
  {
    map c | c in s :: s[c].Fields()
  }

  ghost predicate Addressed(s: Store)
  {
    forall c :: c in s ==> IsCid(c)
  }

  /** Every index of stored messages has sort values of one width. */
  lemma StoreUniform(s: Store, sort: Sort)
    ensures Uniform(Flat(s), sort.Field())
  {
    var f := sort.Field();
    forall c | c in s && f in s[c].Fields() ensures |s[c].Fields()[f]| == 27 {
      FieldIs(s[c], f);
      SortWidth(s[c], f);
    }
  }

  // ----- match sets for filters -------------------------------------------

  /** The match set of one filter: a verb, whether archived writes count, and
      the filter's own matchers. */
  function BuildSet(q: RecordsFilter, verb: Option<MethodKind>, archived: bool): MatchSet
  {
    MatchSet(
      (if verb.Some? then [Matcher(Method, Equal(verb.value.Text()))] else [])
      + (if archived then [] else [Matcher(Initial, Equal(BoolText(false)))])
      + Compile(q),
      AsConcise(q))
  }

  function BuildSets(filters: seq<RecordsFilter>, verb: Option<MethodKind>, archived: bool): (sets: seq<MatchSet>)
    ensures |sets| == |filters| && forall i :: 0 <= i < |sets| ==> sets[i] == BuildSet(filters[i], verb, archived)
  {
    if filters == [] then [] else [BuildSet(filters[0], verb, archived)] + BuildSets(filters[1..], verb, archived)
  }

  lemma IndexCompiled(q: RecordsFilter)
    requires AsConcise(q).Some?
    ensures var (f, v) := AsConcise(q).value;
            Matcher(f, if f == ContextId then Prefix(v) else Equal(v)) in Compile(q)
  {
    var (f, v) := AsConcise(q).value;
    var m := Matcher(f, if f == ContextId then Prefix(v) else Equal(v));
    assert m in People(q) || m in Places(q);
  }

  /** A match set's index repeats one of its matchers. */
  lemma BuildSetBacked(q: RecordsFilter, verb: Option<MethodKind>, archived: bool)
    requires AsConcise(q).Some?
    ensures Backed(BuildSet(q, verb, archived))
  {
    IndexCompiled(q);
    var ms := BuildSet(q, verb, archived);
    var (f, v) := AsConcise(q).value;
    var m := Matcher(f, if f == ContextId then Prefix(v) else Equal(v));
    assert m in ms.inner;
    var i :| 0 <= i < |ms.inner| && ms.inner[i] == m;
    assert Backs(ms.inner[i], f, v);
  }

  /** Only a context prefix can make a scan overlook a message. */
  lemma OnlyContextOverlooks(q: RecordsFilter, verb: Option<MethodKind>, archived: bool, fields: Fields)
    requires AsConcise(q).Some? && AsConcise(q).value.0 != ContextId
    requires Accepts(BuildSet(q, verb, archived), fields)
    ensures !Overlooked(BuildSet(q, verb, archived), fields)
  {
    IndexCompiled(q);
    var ms := BuildSet(q, verb, archived);
    var (f, v) := AsConcise(q).value;
    assert Matcher(f, Equal(v)) in ms.inner;
    var i :| 0 <= i < |ms.inner| && ms.inner[i] == Matcher(f, Equal(v));
    EqualityNeverOverlooks(ms, fields, i);
  }

  // ----- current writes ----------------------------------------------------

  /** A records write that is not archived. */
  predicate IsCurrent(m: Stored)
  {
    && m.StoredWrite? && !m.archived
    && m.write.descriptor.base.interface == RecordsInterface
    && m.write.descriptor.base.verb == WriteMethod
  }

  predicate Matching(q: RecordsFilter, w: Write)
  {
    IsMatch(q, w) && HasFields(q, w)
  }

  lemma VerbText(a: MethodKind)
    ensures a.Text() == WriteMethod.Text() <==> a == WriteMethod
  {
    assert "Write"[0] == 'W';
    assert "Read"[0] != 'W' && "Query"[0] != 'W' && "Configure"[0] != 'W';
    assert "Subscribe"[0] != 'W' && "Delete"[0] != 'W';
  }

  lemma FlagsHold(m: Stored, fields: Fields)
    requires fields == m.Fields()
    ensures var verb, flag := Matcher(Method, Equal(WriteMethod.Text())), Matcher(Initial, Equal(BoolText(false)));
            Holds(verb, fields) && Holds(flag, fields) <==>
            m.StoredWrite? && !m.archived && m.write.descriptor.base.verb == WriteMethod
  {
    FieldIs(m, Method);
    FieldIs(m, Initial);
    VerbText(DeleteMethod);
    if m.StoredWrite? { VerbText(m.write.descriptor.base.verb); }
  }

  /** A set for writes, without archived ones, accepts exactly the current
      writes that match its filter. */
  lemma SetAccepts(q: RecordsFilter, m: Stored)
    ensures Accepts(BuildSet(q, Some(WriteMethod), false), m.Fields()) <==> IsCurrent(m) && Matching(q, m.write)
  {
    var fields := m.Fields();
    var flags := [Matcher(Method, Equal(WriteMethod.Text()))] + [Matcher(Initial, Equal(BoolText(false)))];
    AcceptsIff(BuildSet(q, Some(WriteMethod), false).inner, fields);
    AllHoldConcat(flags, Compile(q), fields);
    assert AllHold(flags, fields) <==> Holds(flags[0], fields) && Holds(flags[1], fields);
    FlagsHold(m, fields);
    if m.StoredWrite? {
      StoredFlattens(m.write, m.archived);
      CompiledHolds(q, m.write, fields);
    }
  }

  /** The store retrieves a message for a query, on the page asked for or as the
      first of the next. */
  ghost predicate Returned(s: Store, q: Query, c: string)
    requires Addressed(s) && c in s
  {
    IndexItem(c, s[c].Fields()) in Retrieved(Flat(s), q)
  }

  ghost predicate SomeAccepts(sets: seq<MatchSet>, fields: Fields)
  {
    exists i :: 0 <= i < |sets| && Accepts(sets[i], fields)
  }

  lemma ReturnedOnly(s: Store, q: Query, c: string)
    requires Addressed(s) && c in s && q.sets != []
    ensures Returned(s, q, c) ==> SomeAccepts(q.sets, s[c].Fields())
  {
    RetrievedOnly(Flat(s), q, c);
  }

  /** For a concise, unpaged query the message must also be reached by the scan. */
  lemma ReturnedReached(s: Store, q: Query, c: string)
    requires Addressed(s) && c in s && q.IsConcise() && q.pagination.None?
    requires forall i :: 0 <= i < |q.sets| ==> Backed(q.sets[i])
    ensures Returned(s, q, c) <==> s[c].Field(q.sort.Field()).Some? && Reached(q.sets, s[c].Fields())
  {
    ListingMembers(Flat(s), Selection(Flat(s), q.sets), q.sort, c);
    SelectedIff(Flat(s), q.sets, c);
    FieldIs(s[c], q.sort.Field());
  }

  lemma ReturnedIff(s: Store, q: Query, c: string)
    requires Addressed(s) && c in s && q.sets != [] && q.pagination.None?
    requires q.IsConcise() ==> forall i :: 0 <= i < |q.sets| ==> Reaches(q.sets[i], s[c].Fields())
    ensures Returned(s, q, c) <==>
            s[c].Field(q.sort.Field()).Some? && SomeAccepts(q.sets, s[c].Fields())
  {
    RetrievedMembers(Flat(s), q, c);
    FieldIs(s[c], q.sort.Field());
  }

  lemma SomeSetAccepts(filters: seq<RecordsFilter>, sets: seq<MatchSet>, m: Stored)
    requires sets == BuildSets(filters, Some(WriteMethod), false)
    ensures SomeAccepts(sets, m.Fields()) <==> IsCurrent(m) && exists g :: g in filters && Matching(g, m.write)
  {
    if i :| 0 <= i < |sets| && Accepts(sets[i], m.Fields()) {
      SetAccepts(filters[i], m);
      assert filters[i] in filters;
    }
    if g :| IsCurrent(m) && g in filters && Matching(g, m.write) {
      var i :| 0 <= i < |filters| && filters[i] == g;
      SetAccepts(g, m);
      assert Accepts(sets[i], m.Fields());
    }
  }
}
