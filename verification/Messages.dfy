/** The messages a node stores, and the index fields flattened from them. */
module Messages {
  import opened Results
  import opened Timestamps
  import opened Queries

  datatype InterfaceKind = RecordsInterface | ProtocolsInterface | MessagesInterface
  {
    function Text(): string
    {
      match this
      case RecordsInterface => "Records"
      case ProtocolsInterface => "Protocols"
      case MessagesInterface => "Messages"
    }
  }

  datatype MethodKind = ReadMethod | WriteMethod | QueryMethod | ConfigureMethod | SubscribeMethod | DeleteMethod
  {
    function Text(): string
    {
      match this
      case ReadMethod => "Read"
      case WriteMethod => "Write"
      case QueryMethod => "Query"
      case ConfigureMethod => "Configure"
      case SubscribeMethod => "Subscribe"
      case DeleteMethod => "Delete"
    }
  }

  function BoolText(b: bool): string
  {
    if b then "true" else "false"
  }

  datatype TagValue = EmptyTag | TextTag(text: string) | NumberTag(number: nat) | FlagTag(flag: bool)

  /** An unsigned machine integer. */
  type Usize = n: nat | n <= USIZE_MAX

  datatype Descriptor = Descriptor(interface: InterfaceKind, verb: MethodKind, timestamp: Instant)

  datatype WriteDescriptor = WriteDescriptor(
    base: Descriptor,
    protocol: Option<string>,
    protocolPath: Option<string>,
    recipient: Option<string>,
    schema: Option<string>,
    tags: Option<map<string, TagValue>>,
    parentId: Option<string>,
    dataCid: string,
    dataSize: Usize,
    dataFormat: string,
    dateCreated: Instant,
    published: Option<bool>,
    datePublished: Option<Instant>)

  /** What the handlers read off a verified authorization; `signature` stands
      for the rest of it. */
  datatype Authorization = Authorization(
    author: string,
    signer: string,
    recordOwner: Option<string>,
    grantId: Option<string>,
    protocolRole: Option<string>,
    signature: string)

  datatype Write = Write(
    descriptor: WriteDescriptor,
    authorization: Authorization,
    recordId: string,
    contextId: Option<string>,
    attester: Option<string>,
    encodedData: Option<string>)
  {
    predicate IsPublished()
    {
      descriptor.published == Some(true)
    }

    function Timestamp(): Instant
    {
      descriptor.base.timestamp
    }
  }

  datatype Delete = Delete(base: Descriptor, recordId: string, prune: bool, authorization: Authorization)

  datatype Configure = Configure(base: Descriptor, protocol: string, published: bool, body: string,
                                 authorization: Authorization)

  // ----- flattening --------------------------------------------------------

  function DateText(t: Option<Instant>): Option<string>
  {
    if t.Some? then Some(Format(t.value)) else None
  }

  /** The value a write is indexed with under a field, if any. */
  function WriteField(w: Write, f: FieldName): Option<string>
  {
    var d := w.descriptor;
    match f
    case Interface => Some(d.base.interface.Text())
    case Method => Some(d.base.verb.Text())
    case RecordId => Some(w.recordId)
    case ContextId => w.contextId
    case MessageTimestamp => Some(Format(d.base.timestamp))
    case Published => Some(BoolText(d.published == Some(true)))
    case DataFormat => Some(d.dataFormat)
    case DataCid => Some(d.dataCid)
    case DataSize => Some(PaddedSize(d.dataSize))
    case DateCreated => Some(Format(d.dateCreated))
    case Recipient => d.recipient
    case Protocol => d.protocol
    case ProtocolPath => d.protocolPath
    case Schema => d.schema
    case ParentId => d.parentId
    case DatePublished => DateText(d.datePublished)
    case Author => Some(w.authorization.author)
    case PermissionGrantId => w.authorization.grantId
    case Attester => w.attester
    case Tag(name) =>
      if d.tags.Some? && name in d.tags.value then
        Some(if d.tags.value[name].TextTag? then d.tags.value[name].text else "")
      else None
    case Initial => None
    case MessageCid => None
  }

  const PLAIN_FIELDS: set<FieldName> :=
    {Interface, Method, RecordId, ContextId, MessageTimestamp, Published, DataFormat, DataCid, DataSize, DateCreated,
     Recipient, Protocol, ProtocolPath, Schema, ParentId, DatePublished, Author, PermissionGrantId, Attester}

  function TagFields(w: Write): set<FieldName>
  {
    if w.descriptor.tags.Some? then set name | name in w.descriptor.tags.value :: Tag(name) else {}
  }

  /** The flattened indexes of a write. */
  function WriteFields(w: Write): (fields: Fields)
    ensures forall f :: f in fields <==> WriteField(w, f).Some?
    ensures forall f :: f in fields ==> fields[f] == WriteField(w, f).value
  {
    map f | f in PLAIN_FIELDS + TagFields(w) && WriteField(w, f).Some? :: WriteField(w, f).value
  }

  function StoredWriteField(w: Write, archived: bool, f: FieldName): Option<string>
  {
    if f == Initial then Some(BoolText(archived)) else WriteField(w, f)
  }

  /** The fields of a stored write, with the flag that archives it. */
  function StoredWriteFields(w: Write, archived: bool): (fields: Fields)
    ensures forall f :: f in fields <==> StoredWriteField(w, archived, f).Some?
    ensures forall f :: f in fields ==> fields[f] == StoredWriteField(w, archived, f).value
  {
    WriteFields(w)[Initial := BoolText(archived)]
  }

  /** The value a delete is indexed with under a field, if any. */
  function DeleteField(d: Delete, f: FieldName): Option<string>
  {
    match f
    case Interface => Some(RecordsInterface.Text())
    case Method => Some(DeleteMethod.Text())
    case RecordId => Some(d.recordId)
    case MessageTimestamp => Some(Format(d.base.timestamp))
    case Author => Some(d.authorization.author)
    case Initial => Some(BoolText(false))
    case _ => None
  }

  // The initial write's fields are added to those of the delete.
  function StoredDeleteField(d: Delete, initial: Write, f: FieldName): Option<string>
  {
    if DeleteField(d, f).Some? then DeleteField(d, f) else WriteField(initial, f)
  }

  /** A stored delete is searchable by the fields of the initial write as well;
      its own fields take precedence. */
  function StoredDeleteFields(d: Delete, initial: Write): (fields: Fields)
    ensures forall f :: f in fields <==> StoredDeleteField(d, initial, f).Some?
    ensures forall f :: f in fields ==> fields[f] == StoredDeleteField(d, initial, f).value
  {
    map f | f in PLAIN_FIELDS + {Initial} + TagFields(initial) && StoredDeleteField(d, initial, f).Some?
      :: StoredDeleteField(d, initial, f).value
  }

  /** The value a configure is indexed with under a field, if any. */
  function ConfigureField(c: Configure, f: FieldName): Option<string>
  {
    match f
    case Interface => Some(c.base.interface.Text())
    case Method => Some(c.base.verb.Text())
    case Protocol => Some(c.protocol)
    case Published => Some(BoolText(c.published))
    case MessageTimestamp => Some(Format(c.base.timestamp))
    case _ => None
  }

  /** The flattened indexes of a configure. */
  function ConfigureFields(c: Configure): (fields: Fields)
    ensures forall f :: f in fields <==> ConfigureField(c, f).Some?
    ensures forall f :: f in fields ==> fields[f] == ConfigureField(c, f).value
  {
    map f | f in PLAIN_FIELDS && ConfigureField(c, f).Some? :: ConfigureField(c, f).value
  }

  // ----- what is stored ----------------------------------------------------

  /** A message as it is stored. A write may be archived; a delete carries the
      initial write whose fields it is searchable by. */
  datatype Stored =
    | StoredWrite(write: Write, archived: bool)
    | StoredDelete(delete: Delete, initial: Write)
    | StoredConfigure(configure: Configure)
  {
    function Fields(): Queries.Fields
    {
      match this
      case StoredWrite(w, archived) => StoredWriteFields(w, archived)
      case StoredDelete(d, initial) => StoredDeleteFields(d, initial)
      case StoredConfigure(c) => ConfigureFields(c)
    }

    function Field(f: FieldName): Option<string>
    {
      match this
      case StoredWrite(w, archived) => StoredWriteField(w, archived, f)
      case StoredDelete(d, initial) => StoredDeleteField(d, initial, f)
      case StoredConfigure(c) => ConfigureField(c, f)
    }

    function Timestamp(): Instant
    {
      match this
      case StoredWrite(w, _) => w.descriptor.base.timestamp
      case StoredDelete(d, _) => d.base.timestamp
      case StoredConfigure(c) => c.base.timestamp
    }
  }

  lemma FieldIs(m: Stored, f: FieldName)
    ensures f in m.Fields() <==> m.Field(f).Some?
    ensures f in m.Fields() ==> m.Fields()[f] == m.Field(f).value
  {
  }

  /** Sort values are timestamps, so they all have one width. */
  lemma SortWidth(m: Stored, f: FieldName)
    requires f == DateCreated || f == DatePublished || f == MessageTimestamp
    ensures m.Field(f).Some? ==> |m.Field(f).value| == 27
  {
  }

  /** Every stored message is indexed by its timestamp, and never under the name
      of the reverse lookup. */
  lemma AlwaysIndexed(m: Stored)
    ensures m.Field(MessageTimestamp) == Some(Format(m.Timestamp()))
    ensures m.Field(MessageCid) == None
  {
  }
}
