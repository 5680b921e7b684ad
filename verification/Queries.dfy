/** Store queries: match sets OR-ed together, matchers AND-ed within a set. */
module Queries {
  import opened Text
  import opened Results
  import opened Timestamps

  /** The indexable fields of messages. Tags are indexed under their own names. */
  datatype FieldName =
    | Interface | Method | Initial | RecordId | ContextId | MessageTimestamp | Published | DataFormat | DataCid
    | DataSize | DateCreated | Recipient | Protocol | ProtocolPath | Schema | ParentId | DatePublished | Author
    | PermissionGrantId | Attester | Tag(name: string)
    | MessageCid  // reserved for the reverse lookup

  type Fields = map<FieldName, string>

  datatype Lower = GreaterThan(bound: nat) | AtLeast(bound: nat)
  datatype Upper = LessThan(bound: nat) | AtMost(bound: nat)

  datatype SizeRange = SizeRange(lower: Option<Lower>, upper: Option<Upper>)
  {
    predicate Contains(n: nat)
    {
      && (match lower
          case None => true
          case Some(GreaterThan(b)) => n > b
          case Some(AtLeast(b)) => n >= b)
      && (match upper
          case None => true
          case Some(LessThan(b)) => n < b
          case Some(AtMost(b)) => n <= b)
    }
  }

  // The lower bound is included, although its builder is called `gt`.
  datatype DateRange = DateRange(lower: Option<Instant>, upper: Option<Instant>)
  {
    predicate Contains(t: Instant)
    {
      && (lower.Some? ==> !Before(t, lower.value))
      && (upper.Some? ==> Before(t, upper.value))
    }
  }

  datatype MatchOn =
    | Equal(text: string)
    | Prefix(text: string)
    | OneOf(texts: seq<string>)
    | InRange(range: SizeRange)
    | InDates(dates: DateRange)

  datatype Matcher = Matcher(field: FieldName, on: MatchOn)
  {
    /** Whether an index value satisfies the matcher. */
    function IsMatch(value: string): Result<bool>
    {
      match on
      case Equal(t) => Ok(value == t)
      case Prefix(t) => Ok(StartsWith(value, t))
      case OneOf(ts) => Ok(value in ts)
      case InRange(range) =>
        (match ParseSize(value)
         case None => Err(BadSize)
         case Some(n) => Ok(range.Contains(n)))
      case InDates(dates) =>
        (match ParseInstant(value)
         case None => Err(BadDate)
         case Some(t) => Ok(dates.Contains(t)))
    }
  }

  /** The size is not below the least and not above the greatest of the range. */
  ghost predicate IsWithin(range: SizeRange, n: nat)
  {
    && (forall b: nat :: range.lower == Some(GreaterThan(b)) ==> b + 1 <= n)
    && (forall b: nat :: range.lower == Some(AtLeast(b)) ==> b <= n)
    && (forall b: nat :: range.upper == Some(LessThan(b)) ==> n + 1 <= b)
    && (forall b: nat :: range.upper == Some(AtMost(b)) ==> n <= b)
  }

  /** A range accepts the index value of a size exactly when the size is within it. */
  lemma SizeMatchIff(f: FieldName, range: SizeRange, n: nat)
    ensures range.Contains(n) <==> IsWithin(range, n)
    ensures n <= USIZE_MAX ==> Matcher(f, InRange(range)).IsMatch(PaddedSize(n)) == Ok(IsWithin(range, n))
    ensures n > USIZE_MAX ==> Matcher(f, InRange(range)).IsMatch(PaddedSize(n)) == Err(BadSize)
  {
    SizeRoundTrip(n);
    match range.lower
    case None =>
    case Some(l) => assert range.lower == Some(if l.GreaterThan? then GreaterThan(l.bound) else AtLeast(l.bound));
    match range.upper
    case None =>
    case Some(u) => assert range.upper == Some(if u.LessThan? then LessThan(u.bound) else AtMost(u.bound));
  }

  /** A range of dates accepts the index value of a date exactly when its text is not
      before that of the lower bound, and before that of the upper. */
  lemma DateMatchIff(f: FieldName, dates: DateRange, t: Instant)
    ensures Matcher(f, InDates(dates)).IsMatch(Format(t)) == Ok(dates.Contains(t))
    ensures dates.Contains(t) <==>
            && (dates.lower.Some? ==> dates.lower.value.Ordinal() <= t.Ordinal())
            && (dates.upper.Some? ==> t.Ordinal() < dates.upper.value.Ordinal())
    ensures dates.Contains(t) <==>
            && (dates.lower.Some? ==> !Less(Format(t), Format(dates.lower.value)))
            && (dates.upper.Some? ==> Less(Format(t), Format(dates.upper.value)))
  {
    InstantRoundTrip(t);
    if dates.lower.Some? { FormatOrder(t, dates.lower.value); }
    if dates.upper.Some? { FormatOrder(t, dates.upper.value); }
  }

  /** Evaluates matchers in order, stopping at the first that does not hold. */
  function EvalAll(inner: seq<Matcher>, fields: Fields): Result<bool>
  {
    if inner == [] then Ok(true)
    else if inner[0].field !in fields then Ok(false)
    else
      match inner[0].IsMatch(fields[inner[0].field])
      case Err(e) => Err(e)
      case Ok(false) => Ok(false)
      case Ok(true) => EvalAll(inner[1..], fields)
  }

  predicate Holds(m: Matcher, fields: Fields)
  {
    m.field in fields && m.IsMatch(fields[m.field]) == Ok(true)
  }

  /** A set accepts exactly when each of its matchers holds. */
  lemma {:induction false} AcceptsIff(inner: seq<Matcher>, fields: Fields)
    ensures EvalAll(inner, fields) == Ok(true) <==> forall i :: 0 <= i < |inner| ==> Holds(inner[i], fields)
  {
    if inner != [] {
      AcceptsIff(inner[1..], fields);
      assert inner == [inner[0]] + inner[1..];
      if Holds(inner[0], fields) {
        assert forall i :: 0 < i < |inner| ==> inner[i] == inner[1..][i - 1];
        assert (forall i :: 0 <= i < |inner| ==> Holds(inner[i], fields)) <==>
               (forall i :: 0 <= i < |inner[1..]| ==> Holds(inner[1..][i], fields)) by {
          if forall i :: 0 <= i < |inner| ==> Holds(inner[i], fields) {
            forall i | 0 <= i < |inner[1..]| ensures Holds(inner[1..][i], fields) {
              assert inner[1..][i] == inner[i + 1];
            }
          }
        }
      }
    }
  }

  /** The index chosen for a set (a field and a value) is optional. */
  datatype MatchSet = MatchSet(inner: seq<Matcher>, index: Option<(FieldName, string)>)

  datatype Sort = CreatedAsc | CreatedDesc | PublishedAsc | PublishedDesc | TimestampAsc | TimestampDesc
  {
    function Field(): FieldName
    {
      match this
      case CreatedAsc | CreatedDesc => DateCreated
      case PublishedAsc | PublishedDesc => DatePublished
      case TimestampAsc | TimestampDesc => MessageTimestamp
    }

    predicate IsAscending()
    {
      CreatedAsc? || PublishedAsc? || TimestampAsc?
    }
  }

  datatype Cursor = Cursor(messageCid: string, value: string)

  datatype Pagination = Pagination(limit: Option<nat>, cursor: Option<Cursor>)

  datatype Query = Query(sets: seq<MatchSet>, sort: Sort, pagination: Option<Pagination>)
  {
    /** Every set names an index and a non-empty value to look up in it. */
    predicate IsConcise()
    {
      sets != [] && forall i :: 0 <= i < |sets| ==> sets[i].index.Some? && sets[i].index.value.1 != ""
    }
  }
}
