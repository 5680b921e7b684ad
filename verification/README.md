# A verified model of a decentralized web node

The node stores messages of an owner's web node: record writes, record deletes
and protocol configurations. This project models the parts of it that are hard
to get right, and proves what each of them is for. All proofs are about the
model, for every input, every run or every reachable state.

**Index store and queries.** `Text`, `Order`, `Timestamps`, `Queries`, `Index`,
`IndexStore`, `QueryTheorems`, `Paging`, `MessageStore`, `Messages`, `Filters`,
`RecordQueries`, `RepeatedPages`, `Visibility`, `QueryPaths`, `Answers`,
`SortOrders`. Field indexes are ordered maps keyed by `value + NULL + message CID`.
A ghost map of live messages says what the indexes should hold; insert, delete and
both query strategies are methods with loops, proved against a plain filter and
sort of the live messages. On top: paging with cursors, the compilation of record
filters to matchers, and what the owner, other requesters and unsigned queries are
shown, and in which order.

**Record lifecycle.** `NodeState`, `Writes`, `Deletes` define one step of the node
as a function of its state: the messages with their archive flags, the event log
and the keys of the data store. `StoreLink` proves that the queries the handlers
build return, from the index store, what the steps assume, and `Handlers` holds
the handlers themselves, as methods of a class over the index store that are
proved to perform exactly these steps. `Runs`, `Revocation`, `Completion`,
`Lifecycle`, `Deletion`, `TidyRuns`, `Convergence` and `Retention` prove the
properties of steps and whole runs. `Authorizations`, `Admissions`, `Effects` and
`Payloads` say in the stored messages' own fields which messages are accepted, what
exactly accepting them does, and where small data comes from. A record is called
tidy when it has at most two messages, the first its initial write, and of two the
first is archived and the second is a delete or a write that keeps the immutable
properties.

**Protocol trees.** `Paths`, `Ancestry`, `RoleRecords`, `Rules`: the ancestor walk
and its termination, uniqueness of role records, role enumeration, lookup by
path, validation.

**Data store and keys.** `DataStore` models chunked, content-addressed data,
`HdKey` hierarchical keys and the labelling of a rule tree with public keys.

`Witnesses` holds inputs on which an expected property fails; each belongs to a
theorem that says exactly when the property holds.

## Assumptions

- Hashes are injective and keep kinds of messages apart, and the text of a CID
  does not contain U+100000 (`NodeState.SoundHashes`, `DataStore.SoundCodec`).
- Signatures, schemas, delegated grants, protocol rules for authors, whether a
  path is that of a role, and the comparison of a stream with its declared CID and
  size are arbitrary booleans in a request. Grants invoked by a write, its path
  and its uniqueness as a role record are modelled in full.
- Block encoding and base64 text decode to what was encoded; key expansion
  (sections 2.2 and 2.3 of RFC 5869) gives 32 bytes (`HdKey.SoundCrypto`).
- Storage operations and readers succeed. Steps are handled one at a time.
- Timestamps are instants in microseconds of the years 0 to 9999, in the 27
  character form of section 5.1 of RFC 3339 with a `Z` offset.
- Field names are an enumeration, with one reserved for the reverse lookup.

## What turned out not to hold

The code is modelled as it is. Where a property fails, the exact condition under
which it holds is proved.

- The prefix scan misses a value that continues the prefix with U+10FFFF
  (`ScanReaches`, `SelectionExactIff`); only context filters can meet this.
- The sort-index walk ignores a descending sort and lists a message once for each
  set that accepts it (`FullDirectionIff`, `FullDistinctIff`; `WalkIgnoresDescending`,
  `WalkRepeats`). Paging then repeats itself (`WalkPagingIff`, `NonOwnerPagingIff`;
  `PagingNeverEnds`).
- Compiled and direct filters treat an absent recipient, context or publication
  date differently (`CompiledMeansDirect`).
- A requester's own records are returned although the filter asks for other
  authors, and likewise for recipients (`FilterBypassedIff`; `OwnRecordBypassesFilter`).
- A delete dated like the latest write leaves that write current (`DeletesIff`),
  and breaks the bound of one unarchived message (`DeleteTidyIff`).
- A second initial write of a record, signed anew, is accepted; a later delete
  keeps both, which makes three messages (`DeleteTidyIff`; `SecondInitialAccepted`,
  `DeleteKeepsBoth`).
- A delete can be acknowledged and do nothing; for a tidy record it never is
  (`AcknowledgedIsApplied`; `DeleteInVain`).
- Large data can be lost to the update that refers to it (`LargeDataKeptIff`;
  `UpdateLosesData`).
- Small data need not have come in a stream: an initial write without one keeps the
  encoded data it came with, and an update can take it over (`RunStreamedIff`;
  `UnstreamedBecomesCurrent`).
- A revocation can stop halfway (`RevocationCompletesIff`; `RevocationStopsHalfway`).
- Updates of a revocation do not converge if it removes messages of its own record,
  because it invokes the grant it revokes (`UpdateSettlesIff`; `RevocationRemovesItself`).
- A path that becomes that of a role only later can have two role records for one
  recipient (`RunOneRecordIff`, `OneRoleRecord`; `TwoRoleRecords`).
- A rule set with `$role: false` is enumerated as a role and cannot be invoked
  (`NamedRoleInvocableIff`; `RoleSwitchedOff`).
- Ancestors are walked before a write's path is verified, so that the walk can
  meet records of no protocol, whose parents nothing verifies. It ends for protocol
  records by the path check alone (`AncestorChain`); for others it ends because an
  ID cannot be hashed before its parent's (`ClimbIsBounded`).
- Top-level names of a protocol's structure are not compared with its types, and
  the documentation's "only co-actions for recipients" is a test for any
  co-action; `Rules.MeetsRules` follows the code in both.

## Model

| member | source | states |
|---|---|---|
| `Text.RangeScan` | src/store/index.rs:290-294 | a key lies strictly between a prefix and the prefix with U+10FFFF appended exactly when it continues the prefix with a smaller character |
| `Text.KeyInjective` | src/store/index.rs:276-284 | `value + NULL + cid` determines both value and CID, whatever characters the value holds |
| `Text.KeyOrder` | src/store/index.rs:276-284 | for values of one width, key order is value order, then CID order |
| `Text.ScanFindsKey` | src/store/index.rs:290-294 | the prefix scan finds the key of a value that starts with the prefix exactly when the value does not go on with U+10FFFF |
| `Order.ArrangeUnique` | src/store/index.rs:174-178 | there is only one listing of a set of CIDs by ascending key, so that an ordered map's walk is determined |
| `Timestamps.SizeRoundTrip` | src/store.rs:339-359 | a data size survives zero-padding to ten digits and parsing, exactly when it fits a machine integer |
| `Timestamps.InstantRoundTrip` | src/store.rs:339-359 | an RFC 3339 timestamp in microseconds survives formatting and parsing |
| `Timestamps.FormatOrder` | src/records/write.rs:238-303 | string order of formatted timestamps is time order, both directions |
| `Timestamps.FormatInjective` | src/records/write.rs:238-303 | two timestamps with the same text are the same instant |
| `Index.KeyPresentIff` | src/store/index.rs:276-284 | a field index holds the key of a value and a CID exactly when that CID is live with that value |
| `Index.RemovalKeeps` | src/store/index.rs:75-91 | removing the keys that the reverse lookup names leaves indexes that represent exactly the other live messages, also when the lookup entry is stale |
| `Index.InsertionKeeps` | src/store/index.rs:25-60 | inserting a message's fields leaves indexes that represent the live messages with this one added or replaced |
| `Index.AnswerOrdered` | src/store/index.rs:167-178 | the reference answer is ordered by sort value, then by CID |
| `IndexStore.Indexes.constructor` | src/store/index.rs:97-113 | no index block represents no live message |
| `IndexStore.Indexes.Insert` | src/store/index.rs:25-60 | field by field, the indexes come to represent the old live messages with this one's fields replaced |
| `IndexStore.Indexes.Delete` | src/store/index.rs:75-91 | the indexes come to represent the live messages without this one; the reverse-lookup entry left behind does no harm |
| `IndexStore.MatchAll` | src/store/index.rs:158-166 | the loop over AND-ed matchers computes their conjunction, or the first error before one fails |
| `IndexStore.Indexes.CollectSet` | src/store/index.rs:142-172 | one match set adds exactly the messages that its scan reaches and its matchers accept, each once |
| `IndexStore.Indexes.QueryConcise` | src/store/index.rs:133-196 | the page cut out of the selected live messages sorted by (sort value, CID), reversed for descending sorts; an error only if a scanned message cannot be evaluated |
| `IndexStore.WalkItems` | src/store/index.rs:212-246 | the walk keeps an item once for each set that accepts it and stops once it holds limit + 1 items |
| `IndexStore.Indexes.QueryFull` | src/store/index.rs:200-248 | the walk of the sort index from the cursor key on, over the live messages in ascending order |
| `IndexStore.Indexes.Query` | src/store/index.rs:63-72 | the strategy is chosen by whether every match set names a non-empty index value, and each strategy meets its specification |
| `IndexStore.LowerBoundInOrder` | src/store/index.rs:286-288 | the sort index from a start key on lists the live messages from that key on, in order |
| `Queries.AcceptsIff` | src/store/index.rs:158-166 | evaluating a set in order succeeds exactly when every matcher holds |
| `Queries.SizeMatchIff` | src/lib.rs:232-250 | a size range accepts the index value of a size exactly when the size is at least the least and at most the greatest number of the range, and is an error for a size that does not fit |
| `Queries.DateMatchIff` | src/lib.rs:295-308 | a date range accepts the index value of a date exactly when it is at or after the lower bound and before the upper, as instants and as text |
| `QueryTheorems.ScanReaches` | src/store/index.rs:290-294 | the scan of a set's own index reaches an accepted message exactly when its value does not continue the prefix with U+10FFFF |
| `QueryTheorems.SelectionExactIff` | src/store/index.rs:133-172 | a concise query selects only satisfying messages, and selects all of them exactly when each is reached by a set that accepts it |
| `QueryTheorems.EqualityNeverOverlooks` | src/records.rs:133-150 | an index matched by equality never overlooks a message |
| `QueryTheorems.FullIsSorted` | src/store/index.rs:200-248 | for exclusive sets, the walk returns the satisfying messages sorted by (sort value, CID) |
| `QueryTheorems.FullDistinctIff` | src/store/index.rs:232-244 | the walk lists no message twice exactly when no live message satisfies two sets |
| `QueryTheorems.FullDirectionIff` | src/store/index.rs:213-218 | the walk gives the order asked for exactly when the sort is ascending or there are fewer than two results |
| `QueryTheorems.StrategiesAgreeIff` | src/store/index.rs:133-248 | for ascending sorts and exclusive sets, both strategies return the same list exactly when each message that satisfies a set and has the sort field is reached by the scan of a set that accepts it |
| `QueryTheorems.FullMembers` | src/store/index.rs:200-248 | as a set, the walk returns the live messages with the sort field that some set accepts |
| `Witnesses.ScanOverlooks` | src/store/index.rs:290-294 | an input on which the scan misses a message that its matcher accepts |
| `Witnesses.WalkRepeats` | src/store/index.rs:232-244 | an input on which the walk returns one message twice |
| `Witnesses.WalkIgnoresDescending` | src/store/index.rs:213-218 | of any two messages, a walk asked for the newest first returns the older first |
| `Paging.PageStep` | src/store/message.rs:21-40 | a page of a listing from a cursor: full with the cursor of the next item, or the rest and no cursor |
| `Paging.ChunksCover` | src/store/index.rs:181-193 | the pages cut from a listing are full but for the last, and joined together are the listing |
| `Paging.NextWalkPage` | src/store/index.rs:207-219 | the page of the walk from a cursor is that page of the unpaged walk |
| `MessageStore.CursorsCoverResult` | src/store/message.rs:21-49 | following cursors from the first page ends and yields the unpaged result exactly once and in order, with full pages but for the last; for concise queries, and for walks with exclusive sets |
| `RepeatedPages.WalkPagingIff` | src/store/index.rs:212-246 | following cursors covers the result of a walk for every limit exactly when no message is accepted by two sets |
| `Witnesses.PagingNeverEnds` | src/store/index.rs:212-246 | a message that two sets accept is on every page of one, so that following cursors never ends |
| `MessageStore.RetrievedMembers` | src/store/index.rs:63-72 | as a set, an unpaged query returns the messages some set accepts that have the sort field, under either strategy |
| `MessageStore.RetrievedOnly` | src/store/index.rs:63-72 | whatever the sort, the limit and the cursor, a query returns only messages that some set accepts |
| `MessageStore.MessageStore.Put` | src/store/message.rs:10-18 | block and indexes both come to hold the message and nothing else changes |
| `MessageStore.MessageStore.Delete` | src/store/message.rs:61-64 | block and indexes both lose the message and nothing else changes |
| `MessageStore.MessageStore.Query` | src/store/message.rs:21-49 | the messages of the page that the indexes give, and the cursor of the next; an error only for a message that cannot be evaluated, never for a missing block |
| `Messages.FieldIs` | src/records/write.rs:238-303 | the flattened indexes of a stored message hold exactly its fields, with the archive flag and, for deletes, the initial write's fields behind the delete's own |
| `Messages.SortWidth` | src/records.rs:339-349 | every sort value of every stored message has the same width |
| `Filters.CompiledMeansDirect` | src/store.rs:379-488 | the compiled matchers accept a write's indexes exactly when the direct filter accepts the write and the write has the recipient, context and publication date the filter asks about |
| `Filters.PlainFiltersAgree` | src/event.rs:103-206 | for filters that ask for no empty recipient or context and for no range of publication dates with the epoch, compiled and direct meaning agree on every records write |
| `Witnesses.MeaningsDiffer` | src/event.rs:103-206 | an input on which the compiled filter and the direct one differ |
| `RecordQueries.StoreUniform` | src/store/index.rs:167-171 | stored messages have sort values of one width, as the in-memory sort needs |
| `RecordQueries.BuildSetBacked` | src/store.rs:639-675 | the index a built match set is looked up in repeats one of its own matchers |
| `RecordQueries.OnlyContextOverlooks` | src/records.rs:133-150 | only a context filter can make a built query overlook a message |
| `RecordQueries.SetAccepts` | src/store.rs:639-675 | a set built for current writes accepts exactly the unarchived records writes that match the filter |
| `RecordQueries.ReturnedIff` | src/store/index.rs:63-72 | a stored message is returned exactly when some set accepts it and it has the sort field |
| `Visibility.NonOwnerReturns` | src/records/query.rs:245-284 | what an unpaged non-owner query returns, exactly: the current writes that one of the rewritten filters matches, except those whose context the scan misses |
| `Visibility.NonOwnerSound` | src/records/query.rs:245-284 | without a role, everything returned is published, written by the requester or addressed to the requester, whatever sort, limit and cursor the requester sends |
| `Visibility.NonOwnerComplete` | src/records/query.rs:245-284 | a current record that matches the filter and that the requester may see is returned, under either strategy, exactly when the scan does not miss its context |
| `Visibility.FilterBypassedIff` | src/records/query.rs:268-276 | a record that the filter does not match is revealed exactly when it is unpublished, its author or recipient is the requester, whom the filter does not ask for, and the rest of the filter matches |
| `Witnesses.OwnRecordBypassesFilter` | src/records/query.rs:268-276 | a requester gets a record of their own although the filter asks for another author |
| `QueryPaths.NonOwnerPagingIff` | src/records/query.rs:245-284 | cursors through a walked non-owner query cover its result for every limit exactly when no current record is matched by two of the rewritten filters |
| `QueryPaths.DirectIsBuilt` | src/store.rs:217-239 | the set made from a query's own filter accepts and overlooks what the built set does, although its matchers are in another order |
| `QueryPaths.DirectReturns` | src/store.rs:217-239 | what the unpaged query for one filter returns, exactly |
| `QueryPaths.AnswersAreCurrent` | src/records/query.rs:25-47 | whatever is asked by whomever, only current writes are returned, on any page |
| `QueryPaths.PublishedOnly` | src/records/query.rs:30-34 | an unsigned query, and one for published records only, returns nothing that is not published, on any page |
| `QueryPaths.OwnerReturns` | src/records/query.rs:41-43 | the owner gets exactly the current writes that match the filter and have the sort field, but for those whose context the scan misses |
| `QueryPaths.EveryQuerySound` | src/records/query.rs:25-47 | whoever asks without a role, what is returned is published, or the requester is the owner, its author or its recipient |
| `Answers.AnswerIff` | src/records/query.rs:25-47 | the unpaged answer to any valid query by anyone, exactly: for published records the published ones that match; for the owner all that match; for others the published ones that match, unpublished ones of their own or to them that match apart from author or recipient, and with a role all that match; but for those the scan misses |
| `Answers.RevealedIff` | src/records/query.rs:245-284 | what the rewritten filters of a non-owner query match, said of the record's own fields, with and without a role |
| `SortOrders.AnswersInOrder` | src/records.rs:331-349 | for any two places of an unpaged answer the writes are in the order of the creation, publication or message date that the sort names, then of their CIDs; descending sorts turn that round for concise queries and not for walked ones |
| `SortOrders.ConciseOrder` | src/store/index.rs:167-178 | a concise query returns writes by the date its sort names, ascending or descending |
| `SortOrders.WalkOrder` | src/store/index.rs:200-248 | a walk returns writes by the date its sort names, ascending whatever the sort, but for repeats of one message |
| `NodeState.OlderIsKeyOrder` | src/store/index.rs:276-279 | being older, by timestamp and CID, is the order of timestamp index keys |
| `NodeState.ByTime` | src/records/write.rs:860-870 | lists exactly the chosen messages, each strictly older than the next |
| `StoreLink.QueryIsByTime` | src/store/index.rs:63-72 | a handler's query of one match set returns the accepted messages oldest first, whichever strategy runs it |
| `StoreLink.RecordSetSelects` | src/store.rs:639-675 | the queries for all and for the unarchived messages of a record select exactly those, overlook none and cannot fail |
| `StoreLink.CurrentSetSelects` | src/store.rs:639-675 | a query for current writes by identifiers, paths or recipients selects exactly the matching current writes, overlooks none and cannot fail |
| `StoreLink.ConfigSetSelects` | src/store.rs:551-577 | the query for the configurations of a protocol selects exactly those |
| `StoreLink.GrantedSetSelects` | src/store.rs:708-741 | the query of a revocation selects exactly the writes that invoke the grant and were created at or after the revocation |
| `Handlers.Node.constructor` | src/provider.rs:24-43 | an empty node |
| `Handlers.Node.Find` | src/store/message.rs:21-49 | a handler's query never fails and returns the stored messages its set accepts, oldest first |
| `Handlers.Node.Keep` | src/store/message.rs:10-18 | the message is stored under its own CID with its indexes, and nothing else changes |
| `Handlers.Node.ExistingEntries` | src/records/write.rs:860-870 | the index store returns all messages of a record, oldest first |
| `Handlers.Node.UnarchivedEntries` | src/records/delete.rs:38-46 | the index store returns the unarchived messages of a record, oldest first |
| `Handlers.Node.CurrentEntries` | src/store/message.rs:21-49 | the index store returns the current writes that match a filter, oldest first |
| `Handlers.Node.Configurations` | src/protocols.rs:109-131 | the index store returns the configurations of a protocol, oldest first, under their own CIDs |
| `Handlers.Node.GrantedEntries` | src/records/write.rs:556-561 | the index store returns the writes to be removed by a revocation |
| `Handlers.Node.FindGrant` | src/grants.rs:24-53 | the grant that the state machine fetches is the one the index store returns |
| `Handlers.Node.CheckInForce` | src/grants/verify.rs:131-155 | a grant is in force exactly when the time is in its frame and not after its oldest current revocation |
| `Handlers.Node.CheckGrant` | src/grants/verify.rs:22-59 | a write passes exactly when the grant it invokes exists and permits it |
| `Handlers.Node.Authorize` | src/records/write.rs:328-382 | a write is authorized exactly as the state machine says: by the owner, by a grant or by its protocol |
| `Handlers.Node.VerifyPath` | src/records/integrity.rs:111-168 | the path is verified exactly when it continues that of the current parent record of the protocol, or is a root path |
| `Handlers.Node.VerifyRole` | src/records/integrity.rs:171-206 | a role record is verified exactly when every current record for the same role, recipient and parent context is the same record |
| `Handlers.Node.VerifyRevocation` | src/records/integrity.rs:251-280 | a revocation is verified exactly when it names a grant and its protocol tag is the grant's |
| `Handlers.Node.VerifyIntegrity` | src/records/write.rs:384-432 | a write is intact exactly when its dates, root context, path, role and revocation are verified and the checks outside the model pass |
| `Handlers.CheckFollows` | src/records/write.rs:42-73 | no fault exactly when the write may follow the record's messages: an initial write first, then newer writes that keep the immutable properties, until a delete |
| `Handlers.Node.TakeData` | src/records/write.rs:461-536 | data is available exactly as specified, is put into the message if small and into the data store if large |
| `Handlers.Node.PurgeUpdates` | src/records/write.rs:122-132 | earlier updates go, with their data and events, up to the first message that is not a write |
| `Handlers.Node.ReplaceEarlier` | src/records/write.rs:105-132 | the initial write is archived, its data dropped if new data came, and earlier updates go |
| `Handlers.Node.RevokeGrants` | src/records/write.rs:539-571 | exactly the messages created under the grant from the revocation on go, if the revocation fits the grant |
| `Handlers.Node.HandleWrite` | src/records/write.rs:34-148 | running the handler, with all its queries, against the index store is one write step of the state machine; it replies with success exactly when the write is accepted and handled to the end |
| `Handlers.CheckDelete` | src/records/delete.rs:38-68 | no fault exactly when the record's oldest unarchived message is a write, the delete is authorized and does not pre-date it |
| `Handlers.CheckTask` | src/records/delete.rs:207-233 | the delete task goes ahead exactly when the record has one or two messages, none later, and starts with its initial write |
| `Handlers.Node.HandleDelete` | src/records/delete.rs:34-83 | running the handler against the index store is one delete step of the state machine |
| `Handlers.Node.RunDelete` | src/records/delete.rs:207-254 | the delete is stored, then older messages are cleared; nothing happens if the delete task is not admitted |
| `Handlers.Node.DeleteEarlier` | src/records/delete.rs:326-351 | strictly older updates go, strictly older initial writes are archived, up to the first older message that is not a write |
| `Handlers.CheckLatest` | src/protocols/configure.rs:46-63 | a configure is rejected exactly when a stored one is later, or equally late with a greater CID |
| `Handlers.Node.HandleConfigure` | src/protocols/configure.rs:28-83 | running the handler against the index store is one configure step of the state machine |
| `Authorizations.GrantPermitsIff` | src/grants/verify.rs:22-59 | a write may invoke a grant exactly when the oldest current write of the grant's record is signed by the owner, has the write's author as recipient, holds grant data that covers the write's verb, protocol, context or path, publication and time, and no current revocation is dated before the write |
| `Authorizations.ForeignWithGrantIff` | src/records/write.rs:328-382 | a write that is not the owner's and invokes a grant is authorized exactly when that grant licenses it, whatever its protocol says |
| `Authorizations.ForeignWithoutGrantIff` | src/records/write.rs:328-382 | a write that is not the owner's and invokes no grant is authorized exactly when it has a protocol and the protocol permits it |
| `Authorizations.OwnIff` | src/records/write.rs:328-382 | a write by the owner, or with the owner's second signature, is authorized; one with another's second signature is not |
| `Authorizations.StoredWereLicensed` | src/records/write.rs:34-40 | on every run, each stored write that is not the owner's was licensed by a grant or permitted by its protocol in the state in which it came |
| `Authorizations.RefusedChangesNothing` | src/records/delete.rs:62-68 | a write, delete or configure that fails its outside checks changes no message and no event; only a large stream that does not fit its write leaves data |
| `Admissions.PlacedIff` | src/records/integrity.rs:111-168 | the path check passes exactly when the oldest current write of the parent in the same protocol has the path without its last name and a context that the write's begins with, or there is no parent and the path is one name |
| `Admissions.OnlyRoleIff` | src/records/integrity.rs:171-206 | the role check passes exactly when the record has a recipient and a path and every current record at that path for that recipient, beside its context, is the same record |
| `Admissions.NamesGrantIff` | src/records/integrity.rs:251-280 | the revocation check passes exactly when the oldest current write of the parent holds a grant, and its protocol is what the revocation's tag says if it has tags |
| `Admissions.SoundIff` | src/records/write.rs:384-432 | a write is intact exactly when its kind, its dates, the context of a root record, its path, its role and its revocation are as said of the stored messages' own fields |
| `Admissions.SucceedsIff` | src/records/write.rs:42-73 | a write may follow exactly when it is the initial write of a new record, or agrees with the record's earliest message, an initial write, and comes after its latest, which is no delete |
| `Admissions.HasDataIff` | src/records/write.rs:505-536 | data is available exactly when the stream fits, the write is initial, or the record's latest message has the same data CID and size and its data is there |
| `Admissions.AcceptedIff` | src/records/write.rs:34-86 | a write is accepted exactly when it is allowed, sound, a successor and has its data, all said of the stored messages' own fields |
| `Admissions.AcknowledgedIff` | src/records/delete.rs:38-68 | a delete is acknowledged exactly when it is authorized and the oldest unarchived message of its record is a write that is not dated after it |
| `Admissions.AppliesIff` | src/records/delete.rs:207-233 | an acknowledged delete takes effect exactly when its record has one or two messages, the earliest an initial write and the latest not dated after the delete |
| `Admissions.ConfigureAcceptedIff` | src/protocols/configure.rs:28-63 | a configure is accepted exactly when it is admitted, of the right kind, and no stored configuration of its protocol is later, or as late with a greater CID |
| `Admissions.InitialWriteIs` | src/records/write.rs:873-889 | the initial write that the ancestor walk fetches is the record's earliest message; none if there is no message, and an error if that message is no initial write |
| `Effects.WriteEffectIs` | src/records/write.rs:95-132 | an accepted write that is no revocation removes exactly the messages of its record after the earliest and before any delete, archives the earliest, stores itself, archived if initial and without data, and leaves all else |
| `Effects.WriteDataIs` | src/records/write.rs:105-132 | which data of the record is left by an accepted write, exactly: what was there or came with it, except what the earliest message refers to when new data came and what a removed update refers to |
| `Effects.RevocationEffectIs` | src/records/write.rs:539-571 | a revocation handled to its end also removes exactly the writes that invoke the grant and were created at or after the revocation's time, itself included |
| `Effects.DeleteEffectIs` | src/records/delete.rs:207-254 | a delete that takes effect is stored with the record's initial write, removes exactly the strictly older updates, archives the strictly older initial writes, and leaves all else |
| `Effects.DeleteDataIs` | src/records/delete.rs:326-351 | it removes exactly the data of the strictly older writes of its record, and the log loses exactly the removed updates |
| `Payloads.AcceptedHolds` | src/records/write.rs:461-536 | an accepted small write is stored with the data of its stream; without one, with that of the record's latest message, which is there and has the same CID and size; an initial write without a stream with what it held itself |
| `Payloads.SmallDataStored` | src/records/write.rs:461-536 | the same of the message found under the write's CID after the step |
| `Payloads.RunSourced` | src/records/write.rs:505-536 | on every run, the data of every stored small write was brought by an accepted write of its record for the same data CID and size, and current ones have data |
| `Payloads.StepStreamedIff` | src/records/write.rs:505-536 | a step keeps all current small data streamed exactly when it is no update that takes over data which an archived initial write held of itself and no stream brought |
| `Payloads.RunStreamedIff` | src/records/write.rs:505-536 | along a run, in all its states, the data of every current small write came as the stream of an accepted write of its record, exactly when no step takes over such data |
| `Witnesses.UnstreamedBecomesCurrent` | src/records/write.rs:74-98 | a run on which data that came in a message without a stream becomes current |
| `Writes.ReplacedMessage` | src/records/write.rs:95-132 | a message left by a write is the write, the record's archived first message, or unchanged |
| `Runs.AcceptedIsNew` | src/records/write.rs:59-69 | an accepted write is never one that is stored already |
| `Runs.StepExplained` | src/records/write.rs:95-132 | every message after any step was there before, perhaps archived now, or is the step's own under its own CID |
| `Runs.RunKeyed` | src/store/message.rs:10-18 | on every run every message is stored under its own CID |
| `Runs.AcceptedDated` | src/records/write.rs:384-388 | an accepted write is not dated before its record's creation, and an initial write is dated at it |
| `Runs.StepDated` | src/records/write.rs:384-388 | every step keeps every stored write dated at or after its record's creation |
| `Revocation.PermittedBeforeRevocation` | src/grants/verify.rs:131-155 | a write that a grant permits is not dated after any current revocation of it |
| `Revocation.RevokedDoesNotOffend` | src/records/write.rs:539-571 | handling a revocation removes every write created under the grant after it |
| `Revocation.StepKeepsEffective` | src/records/write.rs:34-148 | every step keeps a current revocation effective, and makes one effective that it brings and handles to the end |
| `Revocation.NoWriteAfterRevocation` | src/records/write.rs:539-571 | in every reachable state that holds a current revocation of a grant that was handled to the end, no write by a non-owner without owner signature invokes the grant and was created after the revocation, whatever became of other revocations |
| `Completion.RevocationCompletesIff` | src/records/write.rs:120-138 | an accepted revocation is handled to the end exactly when no delete is among the messages it replaces and its protocol tag is not a non-text tag for an empty-protocol grant |
| `Completion.IsCompletedIff` | src/records/write.rs:120-138 | a revocation is handled to the end whenever a run brings it exactly when it meets those conditions in the states it arrives in |
| `Witnesses.RevocationStopsHalfway` | src/records/write.rs:539-571 | an accepted revocation that stops halfway: it is current, and a write created under the grant after it is still stored |
| `Completion.NotItsOwnParent` | src/records/integrity.rs:111-151 | no accepted protocol record is its own parent |
| `Revocation.StepLogged` | src/store/event_log.rs:12-24 | every step, complete or not, keeps the event log and the message store holding the same CIDs |
| `Revocation.EventLogAgrees` | src/store/event_log.rs:12-24 | in every reachable state the event log holds exactly the stored message CIDs |
| `Lifecycle.OtherRecords` | src/records/write.rs:95-132 | a write leaves the messages of all other records as they are |
| `Lifecycle.WrittenRecord` | src/records/write.rs:95-132 | after an accepted write a record is the write alone, or the archived initial write followed by it |
| `Lifecycle.WriteKeepsTidy` | src/records/write.rs:42-132 | from tidy records, every accepted write that is no revocation leaves tidy records |
| `Deletion.DeleteTidyIff` | src/records/delete.rs:326-351 | from tidy records, an applied delete leaves tidy records exactly when it is strictly later than its record's latest message and the record has no second initial write |
| `Witnesses.SecondInitialAccepted` | src/records/write.rs:57-73 | a record's initial write is accepted again when it is signed anew and has a greater CID |
| `Witnesses.DeleteKeepsBoth` | src/records/delete.rs:334-342 | a record whose initial write was sent again, signed anew, keeps three messages when it is deleted |
| `TidyRuns.StepTidyIff` | src/records/write.rs:34-148 | from tidy records, a step that is no revocation leaves tidy records exactly when it is no irregular delete |
| `TidyRuns.RunTidyIff` | src/records/write.rs:34-148 | without revocations, records are tidy throughout a run exactly when each applied delete is strictly later than its record's latest message and meets no second initial write |
| `TidyRuns.RecordsStayTidy` | src/records/write.rs:435-453 | on such runs: at most one unarchived and two messages for each record, the oldest is its initial write, and every write agrees with it on protocol, path, recipient, schema, parent and creation date |
| `Deletion.DeletedRejectsWrite` | src/records/write.rs:59-73 | no write can follow a deleted record's messages |
| `Deletion.DeletedRejectsDelete` | src/records/delete.rs:46-62 | every delete of a deleted record, pruning or not, is rejected |
| `Deletion.DeletedNotFound` | src/records/query.rs:25-47 | no message of a deleted record is returned by any records query, by the owner, by anyone else or for published records, whatever its filter, sort, limit and cursor |
| `Deletion.DeletedNotSelected` | src/store.rs:639-675 | nor by any query built from filters for current writes |
| `Deletion.StrictDeleteDeletes` | src/records/delete.rs:326-351 | a delete strictly later than the record's latest message deletes it: all else in the record is older and archived |
| `Deletion.AcknowledgedIsApplied` | src/records/delete.rs:34-83 | a delete of a tidy record that is acknowledged is applied |
| `TidyRuns.AcknowledgedDeletesApply` | src/records/delete.rs:34-83 | on runs that keep records tidy, every delete that is acknowledged is applied |
| `Witnesses.DeleteInVain` | src/records/delete.rs:221-223 | a delete that is acknowledged and does nothing: the record has an update and an earlier delete dated like it |
| `Deletion.DeletesIff` | src/records/delete.rs:332-332 | from a tidy record, an applied delete deletes it exactly when it is strictly later than the latest message |
| `Witnesses.DeleteWithoutEffect` | src/records/delete.rs:332-332 | a delete dated like a record's only write is stored, and the write stays current |
| `Deletion.DeletesStay` | src/records/write.rs:122-132 | no step on another record removes or changes a stored delete |
| `Deletion.DeletionIsTerminal` | src/records/delete.rs:38-72 | once a record is deleted it stays so on every run, and every write or delete of it changes nothing at all |
| `Convergence.AcceptedIffBeats` | src/records/write.rs:57-73 | an authorized, compatible, data-carrying update is accepted exactly when it is newer than the best so far |
| `Convergence.Winner` | src/records/write.rs:59-69 | the winner is one of the updates, newer than the initial write, and no update is newer than it; if there is none, no update is newer than the initial write |
| `Convergence.UpdateSettlesIff` | src/records/write.rs:122-138 | an accepted update leaves the record with the initial write and itself exactly when it is no revocation that gets to remove one of them |
| `Convergence.UpdatesConverge` | src/records/write.rs:42-132 | whatever updates of a record arrive, revocations included, in any order and with repeats, the record ends with the initial write and the greatest of them by (timestamp, CID); a revocation must not undo its own record |
| `Convergence.StoreConverges` | src/records/write.rs:42-132 | if the record is no revocation, the whole message store ends as it was but for the initial write, archived, and the greatest update |
| `Convergence.OrderDoesNotMatter` | src/records/write.rs:42-132 | two orders of the same updates leave the record with the same messages |
| `Convergence.StoreOrderDoesNotMatter` | src/records/write.rs:42-132 | two orders of the same updates of a record that is no revocation end in the same message store |
| `Witnesses.RevocationRemovesItself` | src/records/write.rs:539-571 | a revocation that invokes the grant it revokes is accepted and removes itself |
| `Convergence.ConfiguresConverge` | src/protocols/configure.rs:36-76 | whatever configures of a protocol arrive, in any order and with repeats, exactly one is stored at the end, the greatest by (timestamp, CID) |
| `Convergence.GreatestUnique` | src/protocols/configure.rs:46-63 | the greatest configure does not depend on the order of arrival |
| `Retention.LargeDataKeptIff` | src/records/write.rs:105-132 | data too large for the message is there after an accepted write exactly when it came or was there, does not replace equal data of the initial write, and no purged update refers to it |
| `Retention.TakenOverIff` | src/records/write.rs:122-132 | an update without data keeps the large data it takes over exactly when the record had the initial write only |
| `Witnesses.UpdateLosesData` | src/records/write.rs:122-132 | the second update in a row that takes over large data is accepted and loses it |
| `Retention.OtherDataStays` | src/records/write.rs:105-132 | a write leaves the data of all other records alone |
| `Paths.SplitAppend` | src/records/integrity.rs:115-117 | appending a slash and a name appends one segment |
| `Paths.JoinSplit` | src/records/encryption.rs:370-383 | joining undoes splitting, for every path |
| `Ancestry.RunRooted` | src/records/write.rs:435-459 | on every run each stored write agrees with the descriptor its record ID was hashed from, and a protocol record's path continues its parent's by one segment |
| `Ancestry.ParentShorter` | src/records/integrity.rs:111-151 | the parent's path is strictly shorter, which is why the ancestor walk ends |
| `Ancestry.AncestorChain` | src/records/protocol.rs:235-253 | the walk ends; with one initial write for each path segment, the i-th having exactly the first i segments as its path, or with an error and then there is no such chain |
| `Ancestry.ClimbIsBounded` | src/records/protocol.rs:162-178 | if record IDs come after those of their parents, no walk goes on for ever, from whatever record it starts, also for a write that is rejected later |
| `Ancestry.StoredAt` | src/records/protocol.rs:162-178 | the walk can start from every protocol record in a reachable store |
| `Ancestry.ParentAt` | src/records/integrity.rs:111-151 | the walk can start from the parent of every accepted protocol record, whose path is one segment shorter |
| `Ancestry.AncestorsApart` | src/records/protocol.rs:307-320 | no two ancestors in a chain have the same path |
| `Ancestry.ActorOfAncestor` | src/records/protocol.rs:307-320 | a rule about an ancestor permits an author exactly when its `of` path is an initial part of the record's path and the one ancestor there has that author as its recipient, for a recipient's rule, and otherwise as its author |
| `RoleRecords.VerifiedRoleIsOnly` | src/records/integrity.rs:171-206 | every current record for the same role, recipient and parent context as a verified role record is the same record |
| `RoleRecords.CheckedNeverClashes` | src/records/integrity.rs:31-33 | a protocol write that is checked as a role record never comes while a current record of another ID has the role, recipient and parent context |
| `RoleRecords.StepOneRecordIff` | src/records/integrity.rs:31-33 | where two messages are of one record, a step that brings neither as a revocation leaves them so exactly when it does not bring one as current while the other is current, for the same role, of another record |
| `RoleRecords.RunOneRecordIff` | src/records/integrity.rs:171-206 | over a run that brings neither as a revocation, two messages for one role are of one record after every step exactly when no step brings one while the other clashes with it |
| `RoleRecords.OneRoleRecord` | src/records/integrity.rs:171-206 | on every run, two current messages for one role of one recipient in one parent context are of one record, if each was checked as a role record when it came while the other was current |
| `Witnesses.TwoRoleRecords` | src/records/integrity.rs:31-33 | two root records of the owner at one path for one recipient, both accepted and current because the path was not that of a role when the second came |
| `DataStore.ChunkStore.PutData` | src/store/data.rs:22-62 | chunks and root block are stored as specified; it succeeds exactly when all blocks fit, and returns the CID of the links and the length of the data |
| `DataStore.ChunkStore.GetData` | src/store/data.rs:65-103 | the data that the root block leads to |
| `DataStore.ChunkStore.DeleteData` | src/store/data.rs:105-110 | the root block of this owner, record and data CID goes, and no other block |
| `DataStore.GatherThere` | src/store/data.rs:86-99 | following links to chunks that are there gives the chunks joined together |
| `DataStore.RootKeeps` | src/store/data.rs:105-119 | neither storing nor removing a root block disturbs any chunk, shared or not |
| `DataStore.GetReturnsLastPut` | src/store/data.rs:22-110 | after any puts and deletes of any owners and records, a get returns exactly the data of the last successful put under its key, unless deleted since |
| `DataStore.EqualCidsEqualData` | src/store/data.rs:51-61 | puts that return equal CIDs stored equal data |
| `DataStore.CidIdentifiesData` | src/store/data.rs:31-61 | for data read from memory in chunks of 64 bytes, CIDs are equal exactly when the data is |
| `Rules.LookupFollowsPath` | src/protocols.rs:154-159 | cutting a path at its first slash, again and again, finds the rule set at the end of its segments |
| `Rules.IsRoleIff` | src/protocols/configure.rs:634-639 | segments lead to a listed role exactly when the rule set at their end is a role and none above it is |
| `Rules.RolePaths` | src/protocols/configure.rs:621-647 | fails exactly when the text of a path of rule sets that are no roles has more than ten segments, and otherwise adds exactly the paths to roles with no role above them, whatever the names |
| `Rules.TooDeepIff` | src/protocols/configure.rs:624-627 | for non-empty names without slashes, a tree is too deep exactly when a path of rule sets that are no roles has more than ten of them |
| `Rules.PathTextSegments` | src/protocols/configure.rs:633-637 | for non-empty names without slashes, the segments of a path's text are its names |
| `Rules.RoleResolves` | src/protocols.rs:154-159 | the path of a listed role is looked up to that role's rule set |
| `Rules.ValidateStructure` | src/protocols/configure.rs:496-508 | accepts exactly the trees that are not too deep and in which the rule set at every path meets the rules: an author's rule has `of` and one for anyone has none, a role's rule names a role of the tree and has all or none of the read-like actions, a recipient's rule without `of` has a co-action, update and delete come with create, no two rules are for one actor or role, sizes are in order, and names below the top are types |
| `Rules.ValidTopIff` | src/protocols/configure.rs:511-610 | the recursive checks down the tree succeed exactly when the rule set at every path meets the rules, in both directions |
| `Rules.AcceptedRolesResolve` | src/protocols/configure.rs:536-541 | in an accepted definition every role that any rule set at any path names resolves to a rule set that is enumerated as a role |
| `Rules.NamedRoleInvocableIff` | src/records/protocol.rs:110-115 | a role named in an accepted definition can be invoked exactly when it is not switched off at its path |
| `Witnesses.RoleSwitchedOff` | src/protocols/configure.rs:639-640 | an accepted definition that names a role with `$role: false`, which cannot be invoked |
| `HdKey.DeriveKey` | src/hd_key.rs:183-204 | the loop computes the derivation along the path, or fails at the first empty segment |
| `HdKey.DeriveSplits` | src/hd_key.rs:183-204 | deriving along a path in two stages is deriving along it at once |
| `HdKey.DerivesIff` | src/hd_key.rs:183-204 | derivation succeeds exactly when no segment is empty, and gives keys of full length |
| `HdKey.DeriveJwk` | src/hd_key.rs:121-174 | a descendant key for a relative path, or for a full path that goes through the ancestor; an error otherwise |
| `HdKey.DescendsIff` | src/hd_key.rs:121-174 | a key has a descendant exactly when it decodes to 32 bytes, a full path goes through its own and no segment below is empty; the descendant keeps root and scheme and has the whole path and the key pair derived along the rest of it |
| `HdKey.PathForIs` | src/records/encryption.rs:358-396 | the derivation path of a record in each scheme, and the missing fields for which there is none |
| `HdKey.ContextPathIff` | src/records/encryption.rs:384-390 | exactly the records whose context is a root record or goes on from it below a slash have the path of that root |
| `HdKey.SharedPathIff` | src/records/encryption.rs:358-396 | two records share a derivation path exactly when the scheme is one and they agree on what it groups records by |
| `HdKey.FullPathFromAnyAncestor` | src/hd_key.rs:121-174 | a full path leads from any key on the way to the same key as from the root |
| `HdKey.AddEncryption` | src/protocols/configure.rs:283-299 | labels every rule set below a node, or fails exactly when a name in the tree is empty |
| `HdKey.WithEncryption` | src/protocols/configure.rs:262-281 | succeeds exactly when the key is valid and neither the protocol nor any name is empty, and then returns the labelled definition |
| `HdKey.LabelIsDerived` | src/protocols/configure.rs:283-299 | the label at any path of the tree is the public key derived along it, and nothing but labels has changed |
| `HdKey.LabelDecryptsRecord` | src/records/encryption.rs:370-383 | the public key put at a record's path by the labelling is that of the key derived from the root along the path computed for decrypting the record |

## Left out

- Descendant pruning (`delete_children`, `purge`): the grouping map is never filled, so that pruning removes no child; the model's delete therefore ignores the prune flag.
- Tag filters and the indexes of tags that are not text: the two meanings differ there.
- Event-log queries and paging: only appending to and deleting from the event log are modelled, as a set of CIDs.
- Resumable tasks: the delete task runs at once, and its outcome is ignored as the handler does.
- Subscriptions, event streams, reads, message builders and replies beyond their status; the authorization of queries by grants and roles.
- Encryption and decryption of record data; only derivation paths and key labels are modelled.
- Protocol authorization as a whole: invoked roles and action rules are an arbitrary boolean in a request, except for the ancestor walk and the rule about an ancestor's author or recipient.
- Normalization of URIs: protocols and schemas are compared as they are stored.
- Decoding of small data: it is kept and compared as the text it is stored as.
- Handlers.Node.HandleWrite: the data store is the set of its keys here; the bytes are the subject of DataStore.
- Convergence.UpdatesConverge: states the retained messages, not the data store, because updates can drop data they refer to, see Retention.LargeDataKeptIff; and asks that a revocation does not undo its own record, which Convergence.UpdateSettlesIff proves to be needed.
- RoleRecords.StepOneRecordIff: is one-way only for a step that brings one of the two messages as a revocation, which may remove the other.
- Rules.RolePaths: states which paths are listed, not their order; the list is only searched.
- Revocation.NoWriteAfterRevocation: asks that the revocation itself was handled to the end, because one that stops halfway leaves later writes in place; Completion.IsCompletedIff says exactly when it is.
