/** The index store: insertion, deletion and the two query strategies. */
module IndexStore {
  import opened Text
  import opened Order
  import opened Results
  import opened Queries
  import opened Index

  // ----- selection ---------------------------------------------------------

  predicate Accepts(ms: MatchSet, fields: Fields)
  {
    EvalAll(ms.inner, fields) == Ok(true)
  }

  /** The set's index scan reaches the message. */
  predicate Scanned(ms: MatchSet, c: string, fields: Fields)
  {
    ms.index.Some? && ms.index.value.0 in fields && InScan(ms.index.value.1, Key(fields[ms.index.value.0], c))
  }

  ghost predicate Picked(ms: MatchSet, c: string, fields: Fields)
  {
    Scanned(ms, c, fields) && Accepts(ms, fields)
  }

  /** The messages some set both reaches and accepts. */
  ghost function Selection(live: Live, sets: seq<MatchSet>): set<string>
  {
    set c | c in live && exists i :: 0 <= i < |sets| && Picked(sets[i], c, live[c])
  }

  /** Evaluating the set on the message fails. */
  predicate Faulty(ms: MatchSet, fields: Fields, sortField: FieldName)
  {
    EvalAll(ms.inner, fields).Err? || (Accepts(ms, fields) && sortField !in fields)
  }

  ghost predicate ScanFault(q: Query, live: Live, i: int, c: string)
  {
    && 0 <= i < |q.sets| && c in live
    && Scanned(q.sets[i], c, live[c]) && Faulty(q.sets[i], live[c], q.sort.Field())
  }

  /** The sort keys of a concise query have no separator. */
  function ResultKey(value: string, cid: string): string
  {
    value + cid
  }

  ghost function ResultKeys(live: Live, matches: set<string>, f: FieldName): map<string, string>
  {
    map c | c in matches && c in live && f in live[c] :: ResultKey(live[c][f], c)
  }

  ghost predicate Gathered(results: Tree, matches: set<string>, live: Live, f: FieldName)
  {
    && (forall c :: c in matches ==> c in live && f in live[c])
    && Tagged(results, ResultKeys(live, matches, f), live)
  }

  // Results are kept in order as long as the sort values have one width.
  ghost predicate Collecting(results: Tree, matches: set<string>, live: Live, f: FieldName)
  {
    Uniform(live, f) ==> Gathered(results, matches, live, f)
  }

  lemma ResultKeyOrder(v1: string, c1: string, v2: string, c2: string)
    requires |v1| == |v2|
    ensures Less(ResultKey(v1, c1), ResultKey(v2, c2)) <==> Less(Key(v1, c1), Key(v2, c2))
    ensures ResultKey(v1, c1) == ResultKey(v2, c2) ==> v1 == v2 && c1 == c2
  {
    LessFixedWidth(v1, v2, c1, c2);
    KeyOrder(v1, c1, v2, c2);
    assert v1 == ResultKey(v1, c1)[..|v1|] && c1 == ResultKey(v1, c1)[|v1|..];
    assert v2 == ResultKey(v2, c2)[..|v2|] && c2 == ResultKey(v2, c2)[|v2|..];
  }

  lemma GatherOne(results: Tree, matches: set<string>, live: Live, f: FieldName, c: string)
    requires Gathered(results, matches, live, f) && Uniform(live, f)
    requires c in live && f in live[c]
    ensures Gathered(results[ResultKey(live[c][f], c) := IndexItem(c, live[c])], matches + {c}, live, f)
  {
    var keys, k := ResultKeys(live, matches, f), ResultKey(live[c][f], c);
    forall d | d in keys && keys[d] == k ensures d == c {
      ResultKeyOrder(live[d][f], d, live[c][f], c);
    }
    OneMoreKey(live, matches, f, c);
    TaggedOne(results, keys, live, c, k);
  }

  lemma OneMoreKey(live: Live, matches: set<string>, f: FieldName, c: string)
    requires c in live && f in live[c]
    ensures ResultKeys(live, matches + {c}, f) == ResultKeys(live, matches, f)[c := ResultKey(live[c][f], c)]
  {
  }

  /** Collected results, walked in key order, are the sorted answer. */
  lemma GatheredInOrder(results: Tree, matches: set<string>, live: Live, f: FieldName)
    requires Gathered(results, matches, live, f) && Uniform(live, f) && AllCids(live)
    ensures Values(results) == ItemsOf(live, Answer(live, matches, f))
  {
    var keys, order := ResultKeys(live, matches, f), SortKeys(live, matches, f);
    forall c, d | c in keys && d in keys && keys[c] == keys[d] ensures c == d {
      ResultKeyOrder(live[c][f], c, live[d][f], d);
    }
    ValuesInOrder(results, keys, live);
    var r := Arrange(keys);
    forall i | 0 <= i < |r| ensures r[i] in order { assert r[i] in keys; }
    forall i, j | 0 <= i < j < |r| ensures Less(order[r[i]], order[r[j]]) {
      ResultKeyOrder(live[r[i]][f], r[i], live[r[j]][f], r[j]);
    }
    assert keys.Keys == order.Keys;
    ArrangeUnique(order, r);
  }

  // ----- paging ------------------------------------------------------------

  function Position(items: seq<IndexItem>, cid: string): (p: nat)
    ensures p <= |items| && (p < |items| ==> items[p].messageCid == cid)
    ensures forall i :: 0 <= i < p ==> items[i].messageCid != cid
  {
    if items == [] then 0
    else if items[0].messageCid == cid then 0
    else
      var q := Position(items[1..], cid);
      assert forall i :: 0 < i < |items| ==> items[i] == items[1..][i - 1];
      1 + q
  }

  /** Where a page starts: at the cursor's item, or at the beginning. */
  function Start(items: seq<IndexItem>, cursor: Option<Cursor>): (p: nat)
    ensures p <= |items|
  {
    if cursor.None? then 0
    else
      var p := Position(items, cursor.value.messageCid);
      if p == |items| then 0 else p
  }

  /** A page and, when there is one, the first item after it. */
  function Cut(items: seq<IndexItem>, pagination: Option<Pagination>): seq<IndexItem>
  {
    match pagination
    case None => items
    case Some(p) =>
      var limit := if p.limit.Some? then p.limit.value else |items|;
      var start := Start(items, p.cursor);
      var end := if start + limit + 1 > |items| then |items| else start + limit + 1;
      items[start..end]
  }

  /** The unpaged list in the requested direction. */
  ghost function Listing(live: Live, chosen: set<string>, sort: Sort): seq<IndexItem>
    requires AllCids(live)
  {
    var items := ItemsOf(live, Answer(live, chosen, sort.Field()));
    if sort.IsAscending() then items else Reversed(items)
  }

  // ----- the sort-index walk ----------------------------------------------

  /** How often the walk lists an item: once for each set that accepts it. */
  function Copies(sets: seq<MatchSet>, fields: Fields): nat
  {
    if sets == [] then 0 else Copies(sets[..|sets| - 1], fields) + if Accepts(sets[|sets| - 1], fields) then 1 else 0
  }

  function Listed(sets: seq<MatchSet>, fields: Fields): nat
  {
    if sets == [] then 1 else Copies(sets, fields)
  }

  function Repeat(item: IndexItem, n: nat): (r: seq<IndexItem>)
    ensures |r| == n && forall i :: 0 <= i < n ==> r[i] == item
  {
    if n == 0 then [] else [item] + Repeat(item, n - 1)
  }

  /** The walk's output for a stretch of the sort index. */
  function Expand(walk: seq<IndexItem>, sets: seq<MatchSet>): seq<IndexItem>
  {
    if walk == [] then []
    else
      var last := walk[|walk| - 1];
      Expand(walk[..|walk| - 1], sets) + Repeat(last, Listed(sets, last.fields))
  }

  lemma {:induction false} ExpandPrefix(walk: seq<IndexItem>, sets: seq<MatchSet>, n: nat)
    requires n <= |walk|
    ensures Expand(walk[..n], sets) <= Expand(walk, sets)
    decreases |walk| - n
  {
    if n == |walk| {
      assert walk[..n] == walk;
    } else {
      ExpandPrefix(walk, sets, n + 1);
      assert walk[..n + 1][..n] == walk[..n];
    }
  }

  function StartKey(q: Query): Option<string>
  {
    if q.pagination.Some? && q.pagination.value.cursor.Some? then
      var cursor := q.pagination.value.cursor.value;
      Some(Key(cursor.value, cursor.messageCid))
    else None
  }

  function Limit(q: Query): Option<nat>
  {
    if q.pagination.Some? then q.pagination.value.limit else None
  }

  predicate PageFull(walk: seq<IndexItem>, sets: seq<MatchSet>, limit: Option<nat>)
  {
    limit.Some? && |Expand(walk, sets)| == limit.value + 1
  }

  /** Where the walk stops: once exactly limit + 1 items are listed, or at the end. */
  function StopAt(walk: seq<IndexItem>, sets: seq<MatchSet>, limit: Option<nat>, from: nat): (n: nat)
    requires from <= |walk|
    ensures from <= n <= |walk|
    decreases |walk| - from
  {
    if from == |walk| || PageFull(walk[..from], sets, limit) then from
    else StopAt(walk, sets, limit, from + 1)
  }

  /** The stretch of the sort index that a query walks. */
  ghost function Walk(live: Live, q: Query): seq<IndexItem>
    requires AllCids(live)
  {
    var f := q.sort.Field();
    ItemsOf(live, Answer(live, WalkKeys(live, f, StartKey(q)), f))
  }

  /** The keys of the sort index from a start key on. */
  ghost function WalkKeys(live: Live, f: FieldName, start: Option<string>): (chosen: set<string>)
  {
    set c | c in live && f in live[c] && (start.Some? ==> !Less(Key(live[c][f], c), start.value))
  }

  lemma LowerBoundInOrder(blocks: Blocks, live: Live, f: FieldName, start: Option<string>)
    requires Represents(blocks, live) && f != REVERSE && AllCids(live)
    ensures LowerBound(Items(blocks, f), start) == ItemsOf(live, Answer(live, WalkKeys(live, f, start), f))
  {
    var tree := Items(blocks, f);
    var part := map k | k in tree && (start.Some? ==> !Less(k, start.value)) :: tree[k];
    var keys := SortKeys(live, WalkKeys(live, f, start), f);
    forall k | k in part ensures Belongs(live, f, k, part[k]) {
      assert OnlyLive(blocks, live, f, k);
    }
    forall c | c in keys ensures keys[c] in part { assert Indexed(blocks, live, c, f); }
    ValuesInOrder(part, keys, live);
  }

  /** The scan of a set's index finds exactly the messages it reaches. */
  lemma MatchesContents(blocks: Blocks, live: Live, ms: MatchSet)
    requires Represents(blocks, live) && ms.index.Some? && ms.index.value.0 != REVERSE
    ensures var items := Matches(Items(blocks, ms.index.value.0), ms.index.value.1);
            && (forall i :: 0 <= i < |items| ==>
                  items[i].messageCid in live && items[i].fields == live[items[i].messageCid] &&
                  Scanned(ms, items[i].messageCid, items[i].fields))
            && (forall c :: c in live && Scanned(ms, c, live[c]) ==> IndexItem(c, live[c]) in items)
  {
    var (f, v) := ms.index.value;
    var tree := Items(blocks, f);
    var part := map k | k in tree && InScan(v, k) :: tree[k];
    var ks, items := SortedKeys(part.Keys), Values(part);
    forall i | 0 <= i < |items|
      ensures items[i].messageCid in live && items[i].fields == live[items[i].messageCid]
      ensures Scanned(ms, items[i].messageCid, items[i].fields)
    {
      assert ks[i] in Elements(ks) && ks[i] in part;
      assert OnlyLive(blocks, live, f, ks[i]);
    }
    forall c | c in live && Scanned(ms, c, live[c]) ensures IndexItem(c, live[c]) in items {
      var k := Key(live[c][f], c);
      assert Indexed(blocks, live, c, f);
      assert k in part && k in Elements(ks);
      var i :| 0 <= i < |ks| && ks[i] == k;
      assert items[i] == IndexItem(c, live[c]);
    }
  }

  lemma {:induction false} CopiesStep(sets: seq<MatchSet>, fields: Fields, n: nat)
    requires n < |sets|
    ensures Copies(sets[..n + 1], fields) == Copies(sets[..n], fields) + if Accepts(sets[n], fields) then 1 else 0
  {
    assert sets[..n + 1][..n] == sets[..n];
  }

  /** AND-s the matchers of a set over a message's fields. */
  method MatchAll(inner: seq<Matcher>, fields: Fields) returns (r: Result<bool>)
    ensures r == EvalAll(inner, fields)
  {
    var i := 0;
    while i < |inner|
      invariant 0 <= i <= |inner|
      invariant EvalAll(inner[i..], fields) == EvalAll(inner, fields)
    {
      var m := inner[i];
      assert inner[i..][1..] == inner[i + 1..];
      if m.field !in fields {
        return Ok(false);
      }
      var matched := m.IsMatch(fields[m.field]);
      if matched.Err? || !matched.value {
        return matched;
      }
      i := i + 1;
    }
    r := Ok(true);
  }

  /** Lists an item once for each match set that accepts it. */
  method PushMatches(items: seq<IndexItem>, item: IndexItem, sets: seq<MatchSet>) returns (r: Result<seq<IndexItem>>)
    ensures r.Ok? <==> forall i :: 0 <= i < |sets| ==> EvalAll(sets[i].inner, item.fields).Ok?
    ensures r.Ok? ==> r.value == items + Repeat(item, Copies(sets, item.fields))
  {
    var out := items;
    var i := 0;
    while i < |sets|
      invariant 0 <= i <= |sets|
      invariant forall j :: 0 <= j < i ==> EvalAll(sets[j].inner, item.fields).Ok?
      invariant out == items + Repeat(item, Copies(sets[..i], item.fields))
    {
      var accepted := MatchAll(sets[i].inner, item.fields);
      if accepted.Err? {
        return Err(accepted.error);
      }
      CopiesStep(sets, item.fields, i);
      if accepted.value {
        out := out + [item];
      }
      i := i + 1;
    }
    assert sets[..i] == sets;
    r := Ok(out);
  }

  /** Selects matching items from a stretch of the sort index until the page is full. */
  method WalkItems(walk: seq<IndexItem>, sets: seq<MatchSet>, limit: Option<nat>) returns (r: Result<seq<IndexItem>>)
    requires forall i, j :: 0 <= i < j < |walk| ==> walk[i].messageCid != walk[j].messageCid
    ensures r.Ok? ==> r.value == Expand(walk[..StopAt(walk, sets, limit, 0)], sets)
    ensures r.Err? ==> exists i, k :: 0 <= i < |walk| && 0 <= k < |sets| && EvalAll(sets[k].inner, walk[i].fields).Err?
  {
    var items: seq<IndexItem>, matches: set<string> := [], {};
    var i := 0;
    while i < |walk|
      invariant 0 <= i <= |walk|
      invariant items == Expand(walk[..i], sets)
      invariant StopAt(walk, sets, limit, i) == StopAt(walk, sets, limit, 0)
      invariant forall c :: c in matches ==> exists k :: 0 <= k < i && walk[k].messageCid == c
    {
      if limit.Some? && |items| == limit.value + 1 {
        break;
      }
      var item := walk[i];
      assert walk[..i + 1][..i] == walk[..i];
      if item.messageCid !in matches {
        if sets == [] {
          items := items + [item];
        } else {
          var pushed := PushMatches(items, item, sets);
          if pushed.Err? {
            return Err(pushed.error);
          }
          items := pushed.value;
        }
        matches := matches + {item.messageCid};
      }
      i := i + 1;
    }
    r := Ok(items);
  }

  lemma PickedAreCollected(ms: MatchSet, live: Live, items: seq<IndexItem>, found: set<string>)
    requires forall c :: c in live && Scanned(ms, c, live[c]) ==> IndexItem(c, live[c]) in items
    requires forall i :: 0 <= i < |items| && Accepts(ms, items[i].fields) ==> items[i].messageCid in found
    ensures forall c :: c in live && Picked(ms, c, live[c]) ==> c in found
  {
    forall c | c in live && Picked(ms, c, live[c]) ensures c in found {
      var i :| 0 <= i < |items| && items[i] == IndexItem(c, live[c]);
    }
  }

  ghost predicate IndexesFields(q: Query)
  {
    forall i :: 0 <= i < |q.sets| && q.sets[i].index.Some? ==> q.sets[i].index.value.0 != REVERSE
  }

  lemma SelectionStep(live: Live, sets: seq<MatchSet>, n: nat)
    requires n < |sets|
    ensures Selection(live, sets[..n + 1]) ==
            Selection(live, sets[..n]) + set c | c in live && Picked(sets[n], c, live[c])
  {
    forall c | c in live
      ensures c in Selection(live, sets[..n + 1]) <==>
              c in Selection(live, sets[..n]) || Picked(sets[n], c, live[c])
    {
      if c in Selection(live, sets[..n]) {
        var i :| 0 <= i < n && Picked(sets[..n][i], c, live[c]);
        assert Picked(sets[..n + 1][i], c, live[c]);
      }
      if Picked(sets[n], c, live[c]) { assert Picked(sets[..n + 1][n], c, live[c]); }
      if c in Selection(live, sets[..n + 1]) {
        var i :| 0 <= i < n + 1 && Picked(sets[..n + 1][i], c, live[c]);
        if i < n { assert Picked(sets[..n][i], c, live[c]); }
      }
    }
  }

  ghost predicate WalkFault(q: Query, live: Live, i: int, c: string)
  {
    0 <= i < |q.sets| && c in live && q.sort.Field() in live[c] && EvalAll(q.sets[i].inner, live[c]).Err?
  }

  /** The walk visits each message once, each with the sort field. */
  lemma WalkDistinct(live: Live, q: Query)
    requires AllCids(live)
    ensures var walk := Walk(live, q);
            && (forall i, j :: 0 <= i < j < |walk| ==> walk[i].messageCid != walk[j].messageCid)
            && (forall i :: 0 <= i < |walk| ==>
                  walk[i].messageCid in live && walk[i].fields == live[walk[i].messageCid] &&
                  q.sort.Field() in walk[i].fields)
  {
    var f := q.sort.Field();
    var chosen := WalkKeys(live, f, StartKey(q));
    var r := Answer(live, chosen, f);
    NoRepeats(SortKeys(live, chosen, f), r);
    assert forall i :: 0 <= i < |r| ==> r[i] in Elements(r);
  }

  class Indexes {
    var blocks: Blocks
    ghost var live: Live

    ghost predicate Valid()
      reads this
    {
      Represents(blocks, live) && AllCids(live)
    }

    constructor ()
      ensures Valid() && live == map[]
    {
      blocks := map[];
      live := map[];
    }

    method RemoveFields(cid: string, fields: Fields)
      modifies this`blocks
      ensures RemovedFrom(old(blocks), blocks, fields, fields.Keys, cid)
    {
      var todo := fields.Keys;
      while todo != {}
        invariant todo <= fields.Keys
        invariant RemovedFrom(old(blocks), blocks, fields, fields.Keys - todo, cid)
        decreases todo
      {
        var f :| f in todo;
        var index := Items(blocks, f);
        blocks := blocks[f := index - {Key(fields[f], cid)}];
        todo := todo - {f};
      }
      assert fields.Keys - todo == fields.Keys;
    }

    method InsertFields(cid: string, fields: Fields)
      modifies this`blocks
      ensures InsertedInto(old(blocks), blocks, fields, fields.Keys, cid)
    {
      var todo := fields.Keys;
      while todo != {}
        invariant todo <= fields.Keys
        invariant InsertedInto(old(blocks), blocks, fields, fields.Keys - todo, cid)
        decreases todo
      {
        var f :| f in todo;
        var index := Items(blocks, f);
        blocks := blocks[f := index[Key(fields[f], cid) := IndexItem(cid, fields)]];
        todo := todo - {f};
      }
      assert fields.Keys - todo == fields.Keys;
    }

    /** Removes a message from every field index it was put in. */
    method Delete(cid: string)
      requires Valid()
      modifies this
      ensures Valid() && live == old(live) - {cid}
    {
      var messages := Items(blocks, REVERSE);
      if cid in messages {
        var fields := messages[cid].fields;
        RemoveFields(cid, fields);
        RemovalKeeps(old(blocks), blocks, live, cid);
      } else {
        assert Traced(blocks, live, cid);
        assert live - {cid} == live;
      }
      live := live - {cid};
    }

    /** Replaces whatever was indexed for the message by its current fields. */
    method Insert(cid: string, fields: Fields)
      requires Valid() && IsCid(cid) && REVERSE !in fields
      modifies this
      ensures Valid() && live == old(live)[cid := fields]
    {
      Delete(cid);
      ghost var before, rest := blocks, live;
      InsertFields(cid, fields);
      ghost var middle := blocks;
      var lookup := Items(blocks, REVERSE);
      blocks := blocks[REVERSE := lookup[cid := IndexItem(cid, fields)]];
      InsertionKeeps(before, middle, blocks, rest, cid, fields);
      live := live[cid := fields];
    }

    /** Considers one scanned item for the results, unless it is among them. */
    method CollectItem(ms: MatchSet, f: FieldName, item: IndexItem, matches: set<string>, results: Tree)
      returns (r: Result<(set<string>, Tree)>)
      requires item.messageCid in live && item.fields == live[item.messageCid]
      requires Collecting(results, matches, live, f)
      ensures r.Ok? ==> r.value.0 == matches + if Accepts(ms, item.fields) then {item.messageCid} else {}
      ensures r.Ok? ==> Collecting(r.value.1, r.value.0, live, f)
      ensures r.Err? ==> Faulty(ms, item.fields, f)
    {
      // short circuit when previously matched
      if item.messageCid in matches {
        return Ok((matches, results));
      }
      var accepted := MatchAll(ms.inner, item.fields);
      if accepted.Err? {
        return Err(accepted.error);
      }
      if !accepted.value {
        return Ok((matches, results));
      }
      if f !in item.fields {
        return Err(MissingSortField);
      }
      if Uniform(live, f) { GatherOne(results, matches, live, f, item.messageCid); }
      r := Ok((matches + {item.messageCid}, results[ResultKey(item.fields[f], item.messageCid) := item]));
    }

    /** Considers the scanned items of one match set in turn. */
    method CollectItems(ms: MatchSet, f: FieldName, items: seq<IndexItem>, matches: set<string>, results: Tree)
      returns (r: Result<(set<string>, Tree)>)
      requires forall i :: 0 <= i < |items| ==>
        items[i].messageCid in live && items[i].fields == live[items[i].messageCid]
      requires Collecting(results, matches, live, f)
      ensures r.Ok? ==> matches <= r.value.0
      ensures r.Ok? ==> forall c :: c in r.value.0 ==>
                c in matches || exists i :: 0 <= i < |items| && items[i].messageCid == c && Accepts(ms, items[i].fields)
      ensures r.Ok? ==>
        forall i :: 0 <= i < |items| && Accepts(ms, items[i].fields) ==> items[i].messageCid in r.value.0
      ensures r.Ok? ==> Collecting(r.value.1, r.value.0, live, f)
      ensures r.Err? ==> exists i :: 0 <= i < |items| && Faulty(ms, items[i].fields, f)
    {
      var found, tree := matches, results;
      var j := 0;
      while j < |items|
        invariant 0 <= j <= |items|
        invariant matches <= found
        invariant forall c :: c in found ==>
          c in matches || exists i :: 0 <= i < j && items[i].messageCid == c && Accepts(ms, items[i].fields)
        invariant forall i :: 0 <= i < j && Accepts(ms, items[i].fields) ==> items[i].messageCid in found
        invariant Collecting(tree, found, live, f)
      {
        var step := CollectItem(ms, f, items[j], found, tree);
        if step.Err? {
          return Err(step.error);
        }
        found, tree := step.value.0, step.value.1;
        j := j + 1;
      }
      r := Ok((found, tree));
    }

    /** Adds to the results the messages that one match set reaches and accepts. */
    method CollectSet(ms: MatchSet, f: FieldName, matches: set<string>, results: Tree)
      returns (r: Result<(set<string>, Tree)>)
      requires Valid() && ms.index.Some? && ms.index.value.0 != REVERSE
      requires Collecting(results, matches, live, f)
      ensures r.Ok? ==> r.value.0 == matches + set c | c in live && Picked(ms, c, live[c])
      ensures r.Ok? ==> Collecting(r.value.1, r.value.0, live, f)
      ensures r.Err? ==> exists c :: c in live && Scanned(ms, c, live[c]) && Faulty(ms, live[c], f)
    {
      var items := Matches(Items(blocks, ms.index.value.0), ms.index.value.1);
      MatchesContents(blocks, live, ms);
      r := CollectItems(ms, f, items, matches, results);
      if r.Ok? { PickedAreCollected(ms, live, items, r.value.0); }
    }

    /** The prefix-scan strategy: scan, filter, then sort and page in memory. */
    method QueryConcise(q: Query) returns (r: Result<seq<IndexItem>>)
      requires Valid() && IndexesFields(q)
      ensures r.Ok? && Uniform(live, q.sort.Field()) ==>
                r.value == Cut(Listing(live, Selection(live, q.sets), q.sort), q.pagination)
      ensures r.Err? ==> exists i, c :: ScanFault(q, live, i, c)
    {
      var f := q.sort.Field();
      var matches: set<string>, results: Tree := {}, map[];
      var i := 0;
      while i < |q.sets|
        invariant 0 <= i <= |q.sets|
        invariant matches == Selection(live, q.sets[..i])
        invariant Collecting(results, matches, live, f)
      {
        SelectionStep(live, q.sets, i);
        if q.sets[i].index.Some? {
          var step := CollectSet(q.sets[i], f, matches, results);
          if step.Err? {
            ghost var c :| c in live && Scanned(q.sets[i], c, live[c]) && Faulty(q.sets[i], live[c], f);
            assert ScanFault(q, live, i, c);
            return Err(step.error);
          }
          matches, results := step.value.0, step.value.1;
        }
        i := i + 1;
      }
      assert q.sets[..i] == q.sets;
      var items := Values(results);
      if Uniform(live, f) { GatheredInOrder(results, matches, live, f); }
      if !q.sort.IsAscending() {
        items := Reversed(items);
      }
      r := Ok(Cut(items, q.pagination));
    }

    /** The sort-index walk, from the cursor on until the page is full. */
    method QueryFull(q: Query) returns (r: Result<seq<IndexItem>>)
      requires Valid()
      ensures r.Ok? ==>
                var walk := Walk(live, q);
                r.value == Expand(walk[..StopAt(walk, q.sets, Limit(q), 0)], q.sets)
      ensures r.Err? ==> exists i, c :: WalkFault(q, live, i, c)
    {
      var walk := LowerBound(Items(blocks, q.sort.Field()), StartKey(q));
      LowerBoundInOrder(blocks, live, q.sort.Field(), StartKey(q));
      WalkDistinct(live, q);
      assert walk == Walk(live, q);
      r := WalkItems(walk, q.sets, Limit(q));
      if r.Err? {
        ghost var i, k :| 0 <= i < |walk| && 0 <= k < |q.sets| && EvalAll(q.sets[k].inner, walk[i].fields).Err?;
        assert WalkFault(q, live, k, walk[i].messageCid);
      }
    }

    /** Runs a query with the strategy its match sets allow. */
    method Query(q: Query) returns (r: Result<seq<IndexItem>>)
      requires Valid() && IndexesFields(q)
      ensures r.Ok? && q.IsConcise() && Uniform(live, q.sort.Field()) ==>
                r.value == Cut(Listing(live, Selection(live, q.sets), q.sort), q.pagination)
      ensures r.Ok? && !q.IsConcise() ==>
                var walk := Walk(live, q);
                r.value == Expand(walk[..StopAt(walk, q.sets, Limit(q), 0)], q.sets)
      ensures r.Err? ==> exists i, c :: ScanFault(q, live, i, c) || WalkFault(q, live, i, c)
    {
      if q.IsConcise() {
        r := QueryConcise(q);
      } else {
        r := QueryFull(q);
      }
    }
  }
}
