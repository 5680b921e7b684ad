/** Records filters: their direct meaning, and their compilation to match sets. */
module Filters {
  import opened Text
  import opened Results
  import opened Timestamps
  import opened Queries
  import opened Messages

  datatype RecordsFilter = RecordsFilter(
    recordId: Option<string>,
    published: Option<bool>,
    author: Option<seq<string>>,
    recipient: Option<seq<string>>,
    protocol: Option<string>,
    protocolPath: Option<string>,
    contextId: Option<string>,
    schema: Option<string>,
    parentId: Option<string>,
    dataFormat: Option<string>,
    dataSize: Option<SizeRange>,
    dataCid: Option<string>,
    dateCreated: Option<DateRange>,
    datePublished: Option<DateRange>,
    dateUpdated: Option<DateRange>,
    attester: Option<string>)

  const ANY: RecordsFilter := RecordsFilter(None, None, None, None, None, None, None, None, None, None, None, None,
                                            None, None, None, None)

  function OrEmpty(o: Option<string>): string
  {
    if o.Some? then o.value else ""
  }

  // ----- direct meaning ----------------------------------------------------

  /** Whether a write event matches the filter. A missing recipient or context
      counts as empty text, a missing publication date as the epoch. */
  predicate IsMatch(q: RecordsFilter, w: Write)
  {
    var d := w.descriptor;
    && (q.author.Some? ==> w.authorization.author in q.author.value)
    && (q.attester.Some? ==> w.attester == q.attester)
    && (q.recipient.Some? ==> OrEmpty(d.recipient) in q.recipient.value)
    && (q.protocol.Some? ==> d.protocol == q.protocol)
    && (q.protocolPath.Some? ==> d.protocolPath == q.protocolPath)
    && (q.published.Some? ==> q.published.value == w.IsPublished())
    && (q.contextId.Some? ==> StartsWith(OrEmpty(w.contextId), q.contextId.value))
    && (q.schema.Some? ==> d.schema == q.schema)
    && (q.recordId.Some? ==> w.recordId == q.recordId.value)
    && (q.parentId.Some? ==> d.parentId == q.parentId)
    && (q.dataFormat.Some? ==> d.dataFormat == q.dataFormat.value)
    && (q.dataSize.Some? ==> q.dataSize.value.Contains(d.dataSize))
    && (q.dataCid.Some? ==> d.dataCid == q.dataCid.value)
    && (q.dateCreated.Some? ==> q.dateCreated.value.Contains(d.dateCreated))
    && (q.datePublished.Some? ==>
          q.datePublished.value.Contains(if d.datePublished.Some? then d.datePublished.value else EPOCH))
    && (q.dateUpdated.Some? ==> q.dateUpdated.value.Contains(d.base.timestamp))
  }

  /** The write has every field on which the two meanings treat absence differently. */
  predicate HasFields(q: RecordsFilter, w: Write)
  {
    && (q.recipient.Some? ==> w.descriptor.recipient.Some?)
    && (q.contextId.Some? ==> w.contextId.Some?)
    && (q.datePublished.Some? ==> w.descriptor.datePublished.Some?)
  }

  // ----- compilation -------------------------------------------------------

  function Eq(f: FieldName, o: Option<string>): seq<Matcher>
  {
    if o.Some? then [Matcher(f, Equal(o.value))] else []
  }

  function Among(f: FieldName, o: Option<seq<string>>): seq<Matcher>
  {
    if o.Some? then [Matcher(f, OneOf(o.value))] else []
  }

  function Dates(f: FieldName, o: Option<DateRange>): seq<Matcher>
  {
    if o.Some? then [Matcher(f, InDates(o.value))] else []
  }

  function People(q: RecordsFilter): seq<Matcher>
  {
    Eq(RecordId, q.recordId)
    + Eq(Published, if q.published.Some? then Some(BoolText(q.published.value)) else None)
    + Among(Author, q.author) + Among(Recipient, q.recipient)
  }

  function Places(q: RecordsFilter): seq<Matcher>
  {
    Eq(Protocol, q.protocol) + Eq(ProtocolPath, q.protocolPath)
    + (if q.contextId.Some? then [Matcher(ContextId, Prefix(q.contextId.value))] else [])
    + Eq(Schema, q.schema) + Eq(ParentId, q.parentId)
  }

  function Contents(q: RecordsFilter): seq<Matcher>
  {
    Eq(DataFormat, q.dataFormat)
    + (if q.dataSize.Some? then [Matcher(DataSize, InRange(q.dataSize.value))] else [])
    + Eq(DataCid, q.dataCid)
  }

  function Times(q: RecordsFilter): seq<Matcher>
  {
    Dates(DateCreated, q.dateCreated) + Dates(DatePublished, q.datePublished)
    + Dates(MessageTimestamp, q.dateUpdated) + Eq(Attester, q.attester)
  }

  /** The matchers of a filter, in the order they are evaluated. */
  function Compile(q: RecordsFilter): seq<Matcher>
  {
    [Matcher(Interface, Equal(RecordsInterface.Text()))] + People(q) + Places(q) + Contents(q) + Times(q)
  }

  /** The best index for the filter, in order of priority. */
  function AsConcise(q: RecordsFilter): Option<(FieldName, string)>
  {
    if q.recordId.Some? then Some((RecordId, q.recordId.value))
    else if q.protocolPath.Some? then Some((ProtocolPath, q.protocolPath.value))
    else if q.contextId.Some? then Some((ContextId, q.contextId.value))
    else if q.parentId.Some? then Some((ParentId, q.parentId.value))
    else if q.schema.Some? then Some((Schema, q.schema.value))
    else None
  }

  // ----- compilation preserves meaning ------------------------------------

  ghost predicate AllHold(ms: seq<Matcher>, fields: Fields)
  {
    forall i :: 0 <= i < |ms| ==> Holds(ms[i], fields)
  }

  lemma AllHoldConcat(a: seq<Matcher>, b: seq<Matcher>, fields: Fields)
    ensures AllHold(a + b, fields) <==> AllHold(a, fields) && AllHold(b, fields)
  {
    if AllHold(a + b, fields) {
      forall i | 0 <= i < |a| ensures Holds(a[i], fields) { assert (a + b)[i] == a[i]; }
      forall i | 0 <= i < |b| ensures Holds(b[i], fields) { assert (a + b)[|a| + i] == b[i]; }
    }
  }

  lemma AllHoldConcat4(a: seq<Matcher>, b: seq<Matcher>, c: seq<Matcher>, d: seq<Matcher>, fields: Fields)
    ensures AllHold(a + b + c + d, fields) <==>
            AllHold(a, fields) && AllHold(b, fields) && AllHold(c, fields) && AllHold(d, fields)
  {
    AllHoldConcat(a + b + c, d, fields);
    AllHoldConcat(a + b, c, fields);
    AllHoldConcat(a, b, fields);
  }

  // The field has the value, or neither is there.
  ghost predicate Has(fields: Fields, f: FieldName, value: Option<string>)
  {
    if value.Some? then f in fields && fields[f] == value.value else f !in fields
  }

  /** The fields are the flattened indexes of the write. */
  ghost predicate Flattens(fields: Fields, w: Write)
  {
    forall f :: f != Initial ==> Has(fields, f, WriteField(w, f))
  }

  lemma StoredFlattens(w: Write, archived: bool)
    ensures Flattens(StoredWrite(w, archived).Fields(), w)
  {
    forall f | f != Initial ensures Has(StoredWrite(w, archived).Fields(), f, WriteField(w, f)) {
      FieldIs(StoredWrite(w, archived), f);
    }
  }

  lemma EqHolds(f: FieldName, o: Option<string>, fields: Fields, value: Option<string>)
    requires Has(fields, f, value)
    ensures AllHold(Eq(f, o), fields) <==> (o.Some? ==> value == o)
  {
    if o.Some? { assert Eq(f, o)[0] == Matcher(f, Equal(o.value)); }
  }

  lemma AmongHolds(f: FieldName, o: Option<seq<string>>, fields: Fields, value: Option<string>)
    requires Has(fields, f, value)
    ensures AllHold(Among(f, o), fields) <==> (o.Some? ==> value.Some? && value.value in o.value)
  {
    if o.Some? { assert Among(f, o)[0] == Matcher(f, OneOf(o.value)); }
  }

  lemma DatesHold(f: FieldName, o: Option<DateRange>, fields: Fields, t: Option<Instant>)
    requires Has(fields, f, DateText(t))
    ensures AllHold(Dates(f, o), fields) <==> (o.Some? ==> t.Some? && o.value.Contains(t.value))
  {
    if o.Some? { assert Dates(f, o)[0] == Matcher(f, InDates(o.value)); }
    if t.Some? { InstantRoundTrip(t.value); }
  }

  lemma PeopleHold(q: RecordsFilter, w: Write, fields: Fields)
    requires Flattens(fields, w)
    ensures AllHold(People(q), fields) <==>
              && (q.recordId.Some? ==> w.recordId == q.recordId.value)
              && (q.published.Some? ==> q.published.value == w.IsPublished())
              && (q.author.Some? ==> w.authorization.author in q.author.value)
              && (q.recipient.Some? ==>
                    w.descriptor.recipient.Some? && w.descriptor.recipient.value in q.recipient.value)
  {
    var published := if q.published.Some? then Some(BoolText(q.published.value)) else None;
    AllHoldConcat4(Eq(RecordId, q.recordId), Eq(Published, published), Among(Author, q.author),
                   Among(Recipient, q.recipient), fields);
    EqHolds(RecordId, q.recordId, fields, WriteField(w, RecordId));
    EqHolds(Published, published, fields, WriteField(w, Published));
    AmongHolds(Author, q.author, fields, WriteField(w, Author));
    AmongHolds(Recipient, q.recipient, fields, WriteField(w, Recipient));
  }

  lemma PlacesHold(q: RecordsFilter, w: Write, fields: Fields)
    requires Flattens(fields, w)
    ensures AllHold(Places(q), fields) <==>
              && (q.protocol.Some? ==> w.descriptor.protocol == q.protocol)
              && (q.protocolPath.Some? ==> w.descriptor.protocolPath == q.protocolPath)
              && (q.contextId.Some? ==> w.contextId.Some? && StartsWith(w.contextId.value, q.contextId.value))
              && (q.schema.Some? ==> w.descriptor.schema == q.schema)
              && (q.parentId.Some? ==> w.descriptor.parentId == q.parentId)
  {
    var context := if q.contextId.Some? then [Matcher(ContextId, Prefix(q.contextId.value))] else [];
    var a, b, c := Eq(Protocol, q.protocol), Eq(ProtocolPath, q.protocolPath), Eq(Schema, q.schema);
    AllHoldConcat(a + b + context + c, Eq(ParentId, q.parentId), fields);
    AllHoldConcat4(a, b, context, c, fields);
    EqHolds(Protocol, q.protocol, fields, WriteField(w, Protocol));
    EqHolds(ProtocolPath, q.protocolPath, fields, WriteField(w, ProtocolPath));
    EqHolds(Schema, q.schema, fields, WriteField(w, Schema));
    EqHolds(ParentId, q.parentId, fields, WriteField(w, ParentId));
    assert Has(fields, ContextId, WriteField(w, ContextId));
    if q.contextId.Some? { assert context[0] == Matcher(ContextId, Prefix(q.contextId.value)); }
  }

  lemma ContentsHold(q: RecordsFilter, w: Write, fields: Fields)
    requires Flattens(fields, w)
    ensures AllHold(Contents(q), fields) <==>
              && (q.dataFormat.Some? ==> w.descriptor.dataFormat == q.dataFormat.value)
              && (q.dataSize.Some? ==> q.dataSize.value.Contains(w.descriptor.dataSize))
              && (q.dataCid.Some? ==> w.descriptor.dataCid == q.dataCid.value)
  {
    var size := if q.dataSize.Some? then [Matcher(DataSize, InRange(q.dataSize.value))] else [];
    var a, c := Eq(DataFormat, q.dataFormat), Eq(DataCid, q.dataCid);
    AllHoldConcat(a + size, c, fields);
    AllHoldConcat(a, size, fields);
    EqHolds(DataFormat, q.dataFormat, fields, WriteField(w, DataFormat));
    EqHolds(DataCid, q.dataCid, fields, WriteField(w, DataCid));
    assert Has(fields, DataSize, WriteField(w, DataSize));
    SizeRoundTrip(w.descriptor.dataSize);
    if q.dataSize.Some? { assert size[0] == Matcher(DataSize, InRange(q.dataSize.value)); }
  }

  lemma TimesHold(q: RecordsFilter, w: Write, fields: Fields)
    requires Flattens(fields, w)
    ensures AllHold(Times(q), fields) <==>
              && (q.dateCreated.Some? ==> q.dateCreated.value.Contains(w.descriptor.dateCreated))
              && (q.datePublished.Some? ==>
                    w.descriptor.datePublished.Some?
                    && q.datePublished.value.Contains(w.descriptor.datePublished.value))
              && (q.dateUpdated.Some? ==> q.dateUpdated.value.Contains(w.descriptor.base.timestamp))
              && (q.attester.Some? ==> w.attester == q.attester)
  {
    var d := w.descriptor;
    AllHoldConcat4(Dates(DateCreated, q.dateCreated), Dates(DatePublished, q.datePublished),
                   Dates(MessageTimestamp, q.dateUpdated), Eq(Attester, q.attester), fields);
    assert Has(fields, DateCreated, WriteField(w, DateCreated));
    assert Has(fields, DatePublished, WriteField(w, DatePublished));
    assert Has(fields, MessageTimestamp, WriteField(w, MessageTimestamp));
    DatesHold(DateCreated, q.dateCreated, fields, Some(d.dateCreated));
    DatesHold(DatePublished, q.datePublished, fields, d.datePublished);
    DatesHold(MessageTimestamp, q.dateUpdated, fields, Some(d.base.timestamp));
    EqHolds(Attester, q.attester, fields, WriteField(w, Attester));
  }

  lemma InterfaceHolds(w: Write, fields: Fields)
    requires Flattens(fields, w)
    ensures AllHold([Matcher(Interface, Equal(RecordsInterface.Text()))], fields) <==>
            w.descriptor.base.interface == RecordsInterface
  {
    assert Has(fields, Interface, WriteField(w, Interface));
    var m := Matcher(Interface, Equal(RecordsInterface.Text()));
    assert [m][0] == m;
    assert "Records"[0] != "Protocols"[0] && "Records"[0] != "Messages"[0];
  }

  lemma CompiledHolds(q: RecordsFilter, w: Write, fields: Fields)
    requires Flattens(fields, w)
    ensures AllHold(Compile(q), fields) <==>
              w.descriptor.base.interface == RecordsInterface && IsMatch(q, w) && HasFields(q, w)
  {
    var head := [Matcher(Interface, Equal(RecordsInterface.Text()))];
    AllHoldConcat(head + People(q) + Places(q) + Contents(q), Times(q), fields);
    AllHoldConcat4(head, People(q), Places(q), Contents(q), fields);
    InterfaceHolds(w, fields);
    PeopleHold(q, w, fields);
    PlacesHold(q, w, fields);
    ContentsHold(q, w, fields);
    TimesHold(q, w, fields);
  }

  /** On stored writes the compiled filter accepts exactly what the filter
      matches directly, among the writes that have the filtered fields. */
  lemma CompiledMeansDirect(q: RecordsFilter, w: Write, archived: bool)
    ensures EvalAll(Compile(q), StoredWrite(w, archived).Fields()) == Ok(true) <==>
              w.descriptor.base.interface == RecordsInterface && IsMatch(q, w) && HasFields(q, w)
  {
    StoredFlattens(w, archived);
    AcceptsIff(Compile(q), StoredWrite(w, archived).Fields());
    CompiledHolds(q, w, StoredWrite(w, archived).Fields());
  }

  /** The filter does not ask for an empty recipient or context, nor for a
      publication range that includes the epoch. */
  predicate Plain(q: RecordsFilter)
  {
    && (q.recipient.Some? ==> "" !in q.recipient.value)
    && (q.contextId.Some? ==> q.contextId.value != "")
    && (q.datePublished.Some? ==> !q.datePublished.value.Contains(EPOCH))
  }

  /** For plain filters the two meanings agree on every records write. */
  lemma PlainFiltersAgree(q: RecordsFilter, w: Write, archived: bool)
    requires w.descriptor.base.interface == RecordsInterface && Plain(q)
    ensures EvalAll(Compile(q), StoredWrite(w, archived).Fields()) == Ok(true) <==> IsMatch(q, w)
  {
    CompiledMeansDirect(q, w, archived);
  }
}
