/**
 The secondary indexes of one partition: for each field an ordered map from
 `value NULL cid` to the indexed message, and a reverse lookup from a CID to the
 fields last indexed for it.
 */
module Index {
  import opened Text
  import opened Order
  import opened Results
  import opened Queries

  datatype IndexItem = IndexItem(messageCid: string, fields: Fields)

  type Tree = map<string, IndexItem>
  type Blocks = map<FieldName, Tree>

  // The abstract contents: the fields of every message that is indexed.
  type Live = map<string, Fields>

  // The name under which the reverse lookup is stored. No message has a field
  // of this name.
  const REVERSE: FieldName := MessageCid

  /** The index of a field; a missing block is an empty index. */
  function Items(blocks: Blocks, field: FieldName): Tree
  {
    if field in blocks then blocks[field] else map[]
  }

  // ----- the representation ------------------------------------------------

  ghost predicate Belongs(live: Live, f: FieldName, k: string, item: IndexItem)
  {
    && item.messageCid in live
    && item.fields == live[item.messageCid]
    && f in item.fields
    && k == Key(item.fields[f], item.messageCid)
  }

  // A live message is in the index of each of its fields.
  ghost predicate Indexed(blocks: Blocks, live: Live, c: string, f: FieldName)
  {
    c in live && f in live[c] ==>
      Key(live[c][f], c) in Items(blocks, f) && Items(blocks, f)[Key(live[c][f], c)] == IndexItem(c, live[c])
  }

  // An index holds only live messages.
  ghost predicate OnlyLive(blocks: Blocks, live: Live, f: FieldName, k: string)
  {
    f != REVERSE && k in Items(blocks, f) ==> Belongs(live, f, k, Items(blocks, f)[k])
  }

  // Deleting a message leaves its reverse lookup behind, so `c` need not be live.
  ghost predicate Traced(blocks: Blocks, live: Live, c: string)
  {
    && (c in Items(blocks, REVERSE) ==> IsCid(c) && REVERSE !in Items(blocks, REVERSE)[c].fields)
    && (c in live ==> c in Items(blocks, REVERSE) && Items(blocks, REVERSE)[c] == IndexItem(c, live[c]))
  }

  /** The blocks hold exactly the live messages. */
  ghost predicate Represents(blocks: Blocks, live: Live)
  {
    && (forall c, f :: Indexed(blocks, live, c, f))
    && (forall f, k :: OnlyLive(blocks, live, f, k))
    && (forall c :: Traced(blocks, live, c))
  }

  /** A field's index contains a key exactly when that message is live with that value. */
  lemma KeyPresentIff(blocks: Blocks, live: Live, f: FieldName, v: string, c: string)
    requires Represents(blocks, live) && f != REVERSE && IsCid(c)
    ensures Key(v, c) in Items(blocks, f) <==> c in live && f in live[c] && live[c][f] == v
  {
    var k := Key(v, c);
    assert Indexed(blocks, live, c, f) && OnlyLive(blocks, live, f, k);
    if k in Items(blocks, f) {
      var item := Items(blocks, f)[k];
      assert Traced(blocks, live, item.messageCid);
      KeyInjective(v, c, item.fields[f], item.messageCid);
    }
  }

  // ----- removal and insertion --------------------------------------------

  ghost predicate RemovedFrom(before: Blocks, after: Blocks, fields: Fields, done: set<FieldName>, cid: string)
    requires done <= fields.Keys
  {
    forall f :: Items(after, f) ==
      if f in done then Items(before, f) - {Key(fields[f], cid)} else Items(before, f)
  }

  /** Removing what the reverse lookup names removes one message and no other,
      whether or not the lookup is stale. */
  lemma RemovalKeeps(before: Blocks, after: Blocks, live: Live, cid: string)
    requires Represents(before, live) && cid in Items(before, REVERSE)
    requires var fields := Items(before, REVERSE)[cid].fields;
             RemovedFrom(before, after, fields, fields.Keys, cid)
    ensures Represents(after, live - {cid})
  {
    var fields := Items(before, REVERSE)[cid].fields;
    var rest := live - {cid};
    assert Traced(before, live, cid);
    assert Items(after, REVERSE) == Items(before, REVERSE);
    forall c, f ensures Indexed(after, rest, c, f) {
      assert Indexed(before, live, c, f) && Traced(before, live, c);
      if c in rest && f in rest[c] && f in fields && Key(fields[f], cid) == Key(live[c][f], c) {
        KeyInjective(fields[f], cid, live[c][f], c);
      }
    }
    forall f, k ensures OnlyLive(after, rest, f, k) {
      assert OnlyLive(before, live, f, k);
      if f != REVERSE && k in Items(after, f) && Items(before, f)[k].messageCid == cid {
        StaleKey(before, live, cid, f, k);
      }
    }
    forall c ensures Traced(after, rest, c) { assert Traced(before, live, c); }
  }

  // Only the message's own key, with the value it is live with, names it.
  lemma StaleKey(blocks: Blocks, live: Live, cid: string, f: FieldName, k: string)
    requires Represents(blocks, live) && f != REVERSE && k in Items(blocks, f)
    requires Items(blocks, f)[k].messageCid == cid && cid in Items(blocks, REVERSE)
    ensures f in Items(blocks, REVERSE)[cid].fields && k == Key(Items(blocks, REVERSE)[cid].fields[f], cid)
  {
    assert OnlyLive(blocks, live, f, k) && Traced(blocks, live, cid);
  }

  ghost predicate InsertedInto(before: Blocks, after: Blocks, fields: Fields, done: set<FieldName>, cid: string)
    requires done <= fields.Keys
  {
    forall f :: Items(after, f) ==
      if f in done then Items(before, f)[Key(fields[f], cid) := IndexItem(cid, fields)] else Items(before, f)
  }

  lemma InsertionKeeps(before: Blocks, middle: Blocks, after: Blocks, live: Live, cid: string, fields: Fields)
    requires Represents(before, live) && cid !in live && IsCid(cid) && REVERSE !in fields
    requires InsertedInto(before, middle, fields, fields.Keys, cid)
    requires after == middle[REVERSE := Items(middle, REVERSE)[cid := IndexItem(cid, fields)]]
    ensures Represents(after, live[cid := fields])
  {
    var more := live[cid := fields];
    forall c, f ensures Indexed(after, more, c, f) {
      assert Indexed(before, live, c, f) && Traced(before, live, c);
      assert f != REVERSE ==> Items(after, f) == Items(middle, f);
      if c in live && f in live[c] && f in fields && Key(fields[f], cid) == Key(live[c][f], c) {
        KeyInjective(fields[f], cid, live[c][f], c);
      }
    }
    forall f, k ensures OnlyLive(after, more, f, k) {
      assert OnlyLive(before, live, f, k);
      assert f != REVERSE ==> Items(after, f) == Items(middle, f);
    }
    assert Items(middle, REVERSE) == Items(before, REVERSE);
    forall c ensures Traced(after, more, c) { assert Traced(before, live, c); }
  }

  // ----- reading an index --------------------------------------------------

  function ItemsAt(tree: Tree, ks: seq<string>): (r: seq<IndexItem>)
    requires forall i :: 0 <= i < |ks| ==> ks[i] in tree
    ensures |r| == |ks| && forall i :: 0 <= i < |r| ==> r[i] == tree[ks[i]]
  {
    if ks == [] then [] else [tree[ks[0]]] + ItemsAt(tree, ks[1..])
  }

  /** The items of an index in key order. */
  function Values(tree: Tree): (r: seq<IndexItem>)
  {
    var ks := SortedKeys(tree.Keys);
    assert forall i :: 0 <= i < |ks| ==> ks[i] in Elements(ks);
    ItemsAt(tree, ks)
  }

  predicate InScan(v: string, k: string)
  {
    Less(v, k) && Less(k, v + [MAX])
  }

  /** The items whose keys lie between `v` and `v + MAX`. */
  function Matches(tree: Tree, v: string): seq<IndexItem>
  {
    Values(map k | k in tree && InScan(v, k) :: tree[k])
  }

  /** The items from a start key on, or all of them. */
  function LowerBound(tree: Tree, start: Option<string>): seq<IndexItem>
  {
    Values(map k | k in tree && (start.Some? ==> !Less(k, start.value)) :: tree[k])
  }

  /** Every item of the tree sits under the key its CID is given. */
  ghost predicate Tagged(tree: Tree, keys: map<string, string>, live: Live)
  {
    && (forall k :: k in tree ==>
          tree[k].messageCid in keys && keys[tree[k].messageCid] == k &&
          tree[k].messageCid in live && tree[k].fields == live[tree[k].messageCid])
    && (forall c :: c in keys ==> keys[c] in tree)
  }

  /** Putting one more item under a key of its own. */
  lemma TaggedOne(tree: Tree, keys: map<string, string>, live: Live, c: string, k: string)
    requires Tagged(tree, keys, live) && c in live && (c in keys ==> keys[c] == k)
    requires forall d :: d in keys && keys[d] == k ==> d == c
    ensures Tagged(tree[k := IndexItem(c, live[c])], keys[c := k], live)
  {
  }

  lemma ValuesInOrder(tree: Tree, keys: map<string, string>, live: Live)
    requires Injective(keys) && Tagged(tree, keys, live)
    ensures forall i :: 0 <= i < |Arrange(keys)| ==> Arrange(keys)[i] in live
    ensures Values(tree) == ItemsOf(live, Arrange(keys))
  {
    var ks, items := SortedKeys(tree.Keys), Values(tree);
    var r := seq(|items|, i requires 0 <= i < |items| => items[i].messageCid);
    forall i | 0 <= i < |r| ensures r[i] in keys && keys[r[i]] == ks[i] && r[i] in live {
      assert ks[i] in Elements(ks);
    }
    forall c | c in keys ensures c in Elements(r) {
      assert keys[c] in Elements(ks);
      var i :| 0 <= i < |ks| && ks[i] == keys[c];
      assert r[i] == c;
    }
    assert Elements(r) == keys.Keys;
    ArrangeUnique(keys, r);
  }

  // ----- the reference answer ---------------------------------------------

  ghost predicate AllCids(live: Live)
  {
    forall c :: c in live ==> IsCid(c)
  }

  /** The index keys of the chosen messages that have the sort field. */
  ghost function SortKeys(live: Live, chosen: set<string>, f: FieldName): (keys: map<string, string>)
    requires AllCids(live)
    ensures Injective(keys)
  {
    var keys := map c | c in chosen && c in live && f in live[c] :: Key(live[c][f], c);
    assert Injective(keys) by {
      forall c, d | c in keys && d in keys && keys[c] == keys[d] ensures c == d {
        KeyInjective(live[c][f], c, live[d][f], d);
      }
    }
    keys
  }

  function ItemsOf(live: Live, cids: seq<string>): (r: seq<IndexItem>)
    requires forall i :: 0 <= i < |cids| ==> cids[i] in live
    ensures |r| == |cids| && forall i :: 0 <= i < |r| ==> r[i] == IndexItem(cids[i], live[cids[i]])
  {
    seq(|cids|, i requires 0 <= i < |cids| => IndexItem(cids[i], live[cids[i]]))
  }

  /** Filter and sort: the chosen messages by (sort value, CID), ascending. */
  ghost function Answer(live: Live, chosen: set<string>, f: FieldName): (r: seq<string>)
    requires AllCids(live)
    ensures forall i :: 0 <= i < |r| ==> r[i] in live
    ensures Elements(r) == set c | c in chosen && c in live && f in live[c]
    ensures AscendingBy(SortKeys(live, chosen, f), r)
  {
    var keys := SortKeys(live, chosen, f);
    var r := Arrange(keys);
    assert forall i :: 0 <= i < |r| ==> r[i] in Elements(r);
    r
  }

  /** All values of the field have one width. */
  ghost predicate Uniform(live: Live, f: FieldName)
  {
    forall c, d :: c in live && d in live && f in live[c] && f in live[d] ==> |live[c][f]| == |live[d][f]|
  }

  /** With values of one width the answer is ordered by value, then by CID. */
  lemma AnswerOrdered(live: Live, chosen: set<string>, f: FieldName, i: nat, j: nat)
    requires AllCids(live) && Uniform(live, f)
    requires i < j < |Answer(live, chosen, f)|
    ensures var r := Answer(live, chosen, f);
            && f in live[r[i]] && f in live[r[j]]
            && (Less(live[r[i]][f], live[r[j]][f]) ||
                (live[r[i]][f] == live[r[j]][f] && Less(r[i], r[j])))
  {
    var r := Answer(live, chosen, f);
    assert r[i] in Elements(r) && r[j] in Elements(r);
    KeyOrder(live[r[i]][f], r[i], live[r[j]][f], r[j]);
  }
}
