/** The data store: a record's data is kept as content-addressed blocks of at most
    64 bytes, which records share, under a root block of the record's own. */
module DataStore {
  import opened Results

  const MAX_BLOCK_SIZE: nat := 1_048_576
  const CHUNK_SIZE: nat := 64

  /** What is encoded in blocks: data, a list of links to data, and the names a
      root block is addressed by. */
  datatype Payload = Data(bytes: Bytes) | Links(cids: seq<string>) | Root(recordId: string, dataCid: string)

  /** Block encoding and hashing, which are outside the model. */
  datatype Codec = Codec(encode: Payload -> Bytes, decode: Bytes -> Option<Payload>, cid: Payload -> string)

  ghost predicate Decodes(codec: Codec, p: Payload)
  {
    codec.decode(codec.encode(p)) == Some(p)
  }

  ghost predicate HashesApart(codec: Codec, p: Payload, q: Payload)
  {
    codec.cid(p) == codec.cid(q) ==> p == q
  }

  ghost predicate SoundCodec(codec: Codec)
  {
    (forall p :: Decodes(codec, p)) && (forall p, q :: HashesApart(codec, p, q))
  }

  predicate BlockFits(codec: Codec, p: Payload)
  {
    |codec.encode(p)| <= MAX_BLOCK_SIZE
  }

  /** The blocks of every owner, by owner and CID. */
  type DataBlocks = map<(string, string), Bytes>

  /** What one read from a stream returns: some bytes, but no more than asked for. */
  type Chunk = b: Bytes | 0 < |b| <= CHUNK_SIZE witness [0]

  function Concat(chunks: seq<Bytes>): Bytes
  {
    if chunks == [] then [] else chunks[0] + Concat(chunks[1..])
  }

  lemma {:induction false} ConcatAppend(chunks: seq<Bytes>, b: Bytes)
    ensures Concat(chunks + [b]) == Concat(chunks) + b
  {
    if chunks == [] {
      assert ([] + [b])[1..] == [];
    } else {
      assert (chunks + [b])[1..] == chunks[1..] + [b];
      ConcatAppend(chunks[1..], b);
    }
  }

  // ----- putting -----------------------------------------------------------

  function LinksTo(codec: Codec, chunks: seq<Bytes>): (links: seq<string>)
    ensures |links| == |chunks| && forall i :: 0 <= i < |chunks| ==> links[i] == codec.cid(Data(chunks[i]))
  {
    seq(|chunks|, i requires 0 <= i < |chunks| => codec.cid(Data(chunks[i])))
  }

  /** Each chunk is stored in a block of its own, until one does not fit. */
  function ChunksStored(codec: Codec, blocks: DataBlocks, owner: string, chunks: seq<Bytes>): (DataBlocks, bool)
    decreases |chunks|
  {
    if chunks == [] then (blocks, true)
    else
      var n := |chunks| - 1;
      var (rest, ok) := ChunksStored(codec, blocks, owner, chunks[..n]);
      if ok && BlockFits(codec, Data(chunks[n])) then
        (rest[(owner, codec.cid(Data(chunks[n]))) := codec.encode(Data(chunks[n]))], true)
      else (rest, false)
  }

  predicate PutSucceeds(codec: Codec, recordId: string, dataCid: string, chunks: seq<Bytes>)
  {
    && (forall i :: 0 <= i < |chunks| ==> BlockFits(codec, Data(chunks[i])))
    && BlockFits(codec, Links(LinksTo(codec, chunks))) && BlockFits(codec, Root(recordId, dataCid))
  }

  /** The blocks after a put. */
  function Put(codec: Codec, blocks: DataBlocks, owner: string, recordId: string, dataCid: string,
               chunks: seq<Bytes>): DataBlocks
  {
    var stored := ChunksStored(codec, blocks, owner, chunks).0;
    if PutSucceeds(codec, recordId, dataCid, chunks) then
      stored[(owner, codec.cid(Root(recordId, dataCid))) := codec.encode(Links(LinksTo(codec, chunks)))]
    else stored
  }

  /** The blocks after a delete. */
  function Remove(codec: Codec, blocks: DataBlocks, owner: string, recordId: string, dataCid: string): DataBlocks
  {
    if BlockFits(codec, Root(recordId, dataCid)) then blocks - {(owner, codec.cid(Root(recordId, dataCid)))} else blocks
  }

  // ----- getting -----------------------------------------------------------

  /** Appends the data of the linked blocks. */
  function Gather(codec: Codec, blocks: DataBlocks, owner: string, links: seq<string>): Result<Option<Bytes>>
    decreases |links|
  {
    if links == [] then Ok(Some([]))
    else
      var n := |links| - 1;
      var rest := Gather(codec, blocks, owner, links[..n]);
      if rest.Err? || rest.value.None? then rest
      else if (owner, links[n]) !in blocks then Ok(None)
      else
        var payload := codec.decode(blocks[(owner, links[n])]);
        if payload.None? then Err(Unexpected)
        else if !payload.value.Data? then Ok(None)
        else Ok(Some(rest.value.value + payload.value.bytes))
  }

  /** The data a root block leads to. */
  function Fetch(codec: Codec, blocks: DataBlocks, owner: string, recordId: string,
                 dataCid: string): Result<Option<Bytes>>
  {
    if !BlockFits(codec, Root(recordId, dataCid)) then Err(Unexpected)
    else
      var root := (owner, codec.cid(Root(recordId, dataCid)));
      if root !in blocks then Ok(None)
      else
        var payload := codec.decode(blocks[root]);
        if payload.None? then Err(Unexpected)
        else if !payload.value.Links? then Ok(None)
        else Gather(codec, blocks, owner, payload.value.cids)
  }

  // ----- the store ---------------------------------------------------------

  class ChunkStore {
    var blocks: DataBlocks

    constructor ()
      ensures blocks == map[]
    {
      blocks := map[];
    }

    /** Stores the chunks read from a stream and links them to a root block. The
        CID returned is that of the list of links. */
    method PutData(codec: Codec, owner: string, recordId: string, dataCid: string, chunks: seq<Chunk>)
      returns (r: Result<(string, nat)>)
      modifies this
      ensures blocks == Put(codec, old(blocks), owner, recordId, dataCid, chunks)
      ensures r.Ok? <==> PutSucceeds(codec, recordId, dataCid, chunks)
      ensures r.Ok? ==> r.value == (codec.cid(Links(LinksTo(codec, chunks))), |Concat(chunks)|)
    {
      var links: seq<string> := [];
      var byteCount := 0;
      var i := 0;
      while i < |chunks|
        invariant 0 <= i <= |chunks|
        invariant ChunksStored(codec, old(blocks), owner, chunks[..i]) == (blocks, true)
        invariant links == LinksTo(codec, chunks[..i]) && byteCount == |Concat(chunks[..i])|
        invariant forall j :: 0 <= j < i ==> BlockFits(codec, Data(chunks[j]))
      {
        var payload := Data(chunks[i]);
        assert chunks[..i + 1] == chunks[..i] + [chunks[i]] && chunks[..i + 1][..i] == chunks[..i];
        if !BlockFits(codec, payload) {
          StoppedAt(codec, old(blocks), owner, chunks, i);
          return Err(Unexpected);
        }
        ConcatAppend(chunks[..i], chunks[i]);
        blocks := blocks[(owner, codec.cid(payload)) := codec.encode(payload)];
        links := links + [codec.cid(payload)];
        byteCount := byteCount + |chunks[i]|;
        i := i + 1;
      }
      assert chunks[..i] == chunks;
      if !BlockFits(codec, Links(links)) || !BlockFits(codec, Root(recordId, dataCid)) {
        return Err(Unexpected);
      }
      blocks := blocks[(owner, codec.cid(Root(recordId, dataCid))) := codec.encode(Links(links))];
      return Ok((codec.cid(Links(links)), byteCount));
    }

    /** Follows the links of the root block. */
    method GetData(codec: Codec, owner: string, recordId: string, dataCid: string) returns (r: Result<Option<Bytes>>)
      ensures r == Fetch(codec, blocks, owner, recordId, dataCid)
    {
      if !BlockFits(codec, Root(recordId, dataCid)) {
        return Err(Unexpected);
      }
      var root := (owner, codec.cid(Root(recordId, dataCid)));
      if root !in blocks {
        return Ok(None);
      }
      var found := codec.decode(blocks[root]);
      if found.None? {
        return Err(Unexpected);
      }
      if !found.value.Links? {
        return Ok(None);
      }
      var links, buffer, i := found.value.cids, [], 0;
      while i < |links|
        invariant 0 <= i <= |links|
        invariant Gather(codec, blocks, owner, links[..i]) == Ok(Some(buffer))
      {
        assert links[..i + 1][..i] == links[..i];
        if (owner, links[i]) !in blocks {
          GatherStops(codec, blocks, owner, links, i + 1);
          return Ok(None);
        }
        var payload := codec.decode(blocks[(owner, links[i])]);
        if payload.None? || !payload.value.Data? {
          GatherStops(codec, blocks, owner, links, i + 1);
          return if payload.None? then Err(Unexpected) else Ok(None);
        }
        buffer := buffer + payload.value.bytes;
        i := i + 1;
      }
      assert links[..i] == links;
      return Ok(Some(buffer));
    }

    /** Removes the root block only. */
    method DeleteData(codec: Codec, owner: string, recordId: string, dataCid: string) returns (ok: bool)
      modifies this
      ensures blocks == Remove(codec, old(blocks), owner, recordId, dataCid)
      ensures ok <==> BlockFits(codec, Root(recordId, dataCid))
    {
      ok := BlockFits(codec, Root(recordId, dataCid));
      if ok { blocks := blocks - {(owner, codec.cid(Root(recordId, dataCid)))}; }
    }
  }

  lemma {:induction false} StoppedAt(codec: Codec, blocks: DataBlocks, owner: string, chunks: seq<Bytes>, k: nat)
    requires k < |chunks| && !BlockFits(codec, Data(chunks[k])) && ChunksStored(codec, blocks, owner, chunks[..k]).1
    ensures ChunksStored(codec, blocks, owner, chunks) == (ChunksStored(codec, blocks, owner, chunks[..k]).0, false)
    decreases |chunks|
  {
    var n := |chunks| - 1;
    if k < n {
      assert chunks[..n][..k] == chunks[..k];
      StoppedAt(codec, blocks, owner, chunks[..n], k);
    }
  }

  lemma {:induction false} GatherStops(codec: Codec, blocks: DataBlocks, owner: string, links: seq<string>, k: nat)
    requires k <= |links|
    requires var g := Gather(codec, blocks, owner, links[..k]); g.Ok? ==> g.value.None?
    ensures Gather(codec, blocks, owner, links) == Gather(codec, blocks, owner, links[..k])
    decreases |links|
  {
    if k == |links| {
      assert links[..k] == links;
    } else {
      var n := |links| - 1;
      assert links[..n][..k] == links[..k];
      GatherStops(codec, blocks, owner, links[..n], k);
    }
  }

  // ----- what is under each key -------------------------------------------

  /** A record's root block links to data blocks that are there. */
  ghost predicate HoldsRoot(codec: Codec, blocks: DataBlocks, owner: string, recordId: string, dataCid: string,
                            chunks: seq<Bytes>)
  {
    var root := (owner, codec.cid(Root(recordId, dataCid)));
    && root in blocks && blocks[root] == codec.encode(Links(LinksTo(codec, chunks)))
    && AllThere(codec, blocks, owner, chunks)
  }

  ghost predicate AllThere(codec: Codec, blocks: DataBlocks, owner: string, chunks: seq<Bytes>)
  {
    forall i :: 0 <= i < |chunks| ==> There(codec, blocks, owner, chunks[i])
  }

  ghost predicate There(codec: Codec, blocks: DataBlocks, owner: string, b: Bytes)
  {
    (owner, codec.cid(Data(b))) in blocks && blocks[(owner, codec.cid(Data(b)))] == codec.encode(Data(b))
  }

  /** Following the links to data blocks that are there gives their data. */
  lemma {:induction false} GatherThere(codec: Codec, blocks: DataBlocks, owner: string, chunks: seq<Bytes>)
    requires SoundCodec(codec) && AllThere(codec, blocks, owner, chunks)
    ensures Gather(codec, blocks, owner, LinksTo(codec, chunks)) == Ok(Some(Concat(chunks)))
    decreases |chunks|
  {
    if chunks != [] {
      var n := |chunks| - 1;
      assert LinksTo(codec, chunks)[..n] == LinksTo(codec, chunks[..n]);
      assert There(codec, blocks, owner, chunks[n]) && Decodes(codec, Data(chunks[n]));
      GatherThere(codec, blocks, owner, chunks[..n]);
      assert chunks == chunks[..n] + [chunks[n]];
      ConcatAppend(chunks[..n], chunks[n]);
    }
  }

  lemma FetchRoot(codec: Codec, blocks: DataBlocks, owner: string, recordId: string, dataCid: string,
                  chunks: seq<Bytes>)
    requires SoundCodec(codec) && HoldsRoot(codec, blocks, owner, recordId, dataCid, chunks)
    requires BlockFits(codec, Root(recordId, dataCid))
    ensures Fetch(codec, blocks, owner, recordId, dataCid) == Ok(Some(Concat(chunks)))
  {
    assert Decodes(codec, Links(LinksTo(codec, chunks)));
    GatherThere(codec, blocks, owner, chunks);
  }

  /** Storing chunks keeps the data blocks that are there, and touches nothing else. */
  lemma {:induction false} ChunksKeep(codec: Codec, blocks: DataBlocks, owner: string, chunks: seq<Bytes>,
                                      other: string,
                                      p: Payload)
    requires SoundCodec(codec)
    ensures var after := ChunksStored(codec, blocks, owner, chunks).0;
            && (p.Data? && There(codec, blocks, other, p.bytes) ==> There(codec, after, other, p.bytes))
            && (!p.Data? ==> Same(blocks, after, (other, codec.cid(p))))
    decreases |chunks|
  {
    if chunks != [] {
      var n := |chunks| - 1;
      ChunksKeep(codec, blocks, owner, chunks[..n], other, p);
      assert HashesApart(codec, p, Data(chunks[n]));
    }
  }

  predicate Same(a: DataBlocks, b: DataBlocks, key: (string, string))
  {
    (key in a <==> key in b) && (key in a ==> a[key] == b[key])
  }

  lemma {:induction false} ChunksThere(codec: Codec, blocks: DataBlocks, owner: string, chunks: seq<Bytes>)
    requires SoundCodec(codec) && forall i :: 0 <= i < |chunks| ==> BlockFits(codec, Data(chunks[i]))
    ensures ChunksStored(codec, blocks, owner, chunks).1
    ensures AllThere(codec, ChunksStored(codec, blocks, owner, chunks).0, owner, chunks)
    decreases |chunks|
  {
    if chunks != [] {
      var n := |chunks| - 1;
      ChunksThere(codec, blocks, owner, chunks[..n]);
      var before, after := ChunksStored(codec, blocks, owner, chunks[..n]).0,
                           ChunksStored(codec, blocks, owner, chunks).0;
      forall i | 0 <= i < |chunks| ensures There(codec, after, owner, chunks[i]) {
        if i < n {
          assert There(codec, before, owner, chunks[..n][i]);
          assert HashesApart(codec, Data(chunks[i]), Data(chunks[n]));
        }
      }
    }
  }

  // ----- runs --------------------------------------------------------------

  datatype Op =
    | PutOp(owner: string, recordId: string, dataCid: string, chunks: seq<Bytes>)
    | DeleteOp(owner: string, recordId: string, dataCid: string)

  function Apply(codec: Codec, blocks: DataBlocks, op: Op): DataBlocks
  {
    match op
    case PutOp(owner, recordId, dataCid, chunks) => Put(codec, blocks, owner, recordId, dataCid, chunks)
    case DeleteOp(owner, recordId, dataCid) => Remove(codec, blocks, owner, recordId, dataCid)
  }

  function RunOps(codec: Codec, ops: seq<Op>): DataBlocks
    decreases |ops|
  {
    if ops == [] then map[] else Apply(codec, RunOps(codec, ops[..|ops| - 1]), ops[|ops| - 1])
  }

  /** The chunks of the last successful put under a key, unless deleted since. */
  function LastPut(codec: Codec, ops: seq<Op>, owner: string, recordId: string, dataCid: string): Option<seq<Bytes>>
    decreases |ops|
  {
    if ops == [] then None
    else
      var op, before := ops[|ops| - 1], LastPut(codec, ops[..|ops| - 1], owner, recordId, dataCid);
      if op.owner != owner || op.recordId != recordId || op.dataCid != dataCid then before
      else if op.DeleteOp? then None
      else if PutSucceeds(codec, recordId, dataCid, op.chunks) then Some(op.chunks)
      else before
  }

  /** The blocks hold the chunks that should be under a key, and no others. */
  ghost predicate Agrees(codec: Codec, blocks: DataBlocks, owner: string, recordId: string, dataCid: string,
                         last: Option<seq<Bytes>>)
  {
    match last
    case None => (owner, codec.cid(Root(recordId, dataCid))) !in blocks
    case Some(chunks) => HoldsRoot(codec, blocks, owner, recordId, dataCid, chunks)
  }

  lemma PutAgrees(codec: Codec, blocks: DataBlocks, op: Op, owner: string, recordId: string, dataCid: string,
                  last: Option<seq<Bytes>>)
    requires SoundCodec(codec) && op.PutOp? && Agrees(codec, blocks, owner, recordId, dataCid, last)
    ensures var own := op.owner == owner && op.recordId == recordId && op.dataCid == dataCid;
            Agrees(codec, Apply(codec, blocks, op), owner, recordId, dataCid,
                   if own && PutSucceeds(codec, recordId, dataCid, op.chunks) then Some(op.chunks) else last)
  {
    var stored := ChunksStored(codec, blocks, op.owner, op.chunks).0;
    var root, key := Root(recordId, dataCid), Root(op.recordId, op.dataCid);
    ChunksKeep(codec, blocks, op.owner, op.chunks, owner, root);
    assert HashesApart(codec, root, key);
    if last.Some? {
      forall i | 0 <= i < |last.value| ensures There(codec, stored, owner, last.value[i]) {
        assert There(codec, blocks, owner, last.value[i]);
        ChunksKeep(codec, blocks, op.owner, op.chunks, owner, Data(last.value[i]));
      }
      RootKeeps(codec, stored, owner, last.value, op.owner, key, codec.encode(Links(LinksTo(codec, op.chunks))));
    }
    if PutSucceeds(codec, op.recordId, op.dataCid, op.chunks) {
      ChunksThere(codec, blocks, op.owner, op.chunks);
      RootKeeps(codec, stored, op.owner, op.chunks, op.owner, key, codec.encode(Links(LinksTo(codec, op.chunks))));
    }
  }

  /** Neither storing nor removing a root block disturbs data blocks. */
  lemma RootKeeps(codec: Codec, blocks: DataBlocks, owner: string, chunks: seq<Bytes>, other: string, root: Payload,
                  b: Bytes)
    requires SoundCodec(codec) && AllThere(codec, blocks, owner, chunks) && root.Root?
    ensures AllThere(codec, blocks[(other, codec.cid(root)) := b], owner, chunks)
    ensures AllThere(codec, blocks - {(other, codec.cid(root))}, owner, chunks)
  {
    forall i | 0 <= i < |chunks|
      ensures There(codec, blocks[(other, codec.cid(root)) := b], owner, chunks[i])
           && There(codec, blocks - {(other, codec.cid(root))}, owner, chunks[i])
    {
      assert There(codec, blocks, owner, chunks[i]) && HashesApart(codec, Data(chunks[i]), root);
    }
  }

  lemma RemoveAgrees(codec: Codec, blocks: DataBlocks, op: Op, owner: string, recordId: string, dataCid: string,
                     last: Option<seq<Bytes>>)
    requires SoundCodec(codec) && op.DeleteOp? && Agrees(codec, blocks, owner, recordId, dataCid, last)
    requires BlockFits(codec, Root(recordId, dataCid))
    ensures var own := op.owner == owner && op.recordId == recordId && op.dataCid == dataCid;
            Agrees(codec, Apply(codec, blocks, op), owner, recordId, dataCid, if own then None else last)
  {
    var root, key := Root(recordId, dataCid), Root(op.recordId, op.dataCid);
    assert HashesApart(codec, root, key);
    if last.Some? { RootKeeps(codec, blocks, owner, last.value, op.owner, key, []); }
  }

  lemma {:induction false} RunAgrees(codec: Codec, ops: seq<Op>, owner: string, recordId: string, dataCid: string)
    requires SoundCodec(codec) && BlockFits(codec, Root(recordId, dataCid))
    ensures Agrees(codec, RunOps(codec, ops), owner, recordId, dataCid, LastPut(codec, ops, owner, recordId, dataCid))
    decreases |ops|
  {
    if ops != [] {
      var n := |ops| - 1;
      RunAgrees(codec, ops[..n], owner, recordId, dataCid);
      var before, last := RunOps(codec, ops[..n]), LastPut(codec, ops[..n], owner, recordId, dataCid);
      if ops[n].PutOp? {
        PutAgrees(codec, before, ops[n], owner, recordId, dataCid, last);
      } else {
        RemoveAgrees(codec, before, ops[n], owner, recordId, dataCid, last);
      }
    }
  }

  /** After any puts and deletes, of any owners and records, a get returns exactly
      the data of the last successful put under its key, unless deleted since. */
  lemma GetReturnsLastPut(codec: Codec, ops: seq<Op>, owner: string, recordId: string, dataCid: string)
    requires SoundCodec(codec) && BlockFits(codec, Root(recordId, dataCid))
    ensures var last := LastPut(codec, ops, owner, recordId, dataCid);
            Fetch(codec, RunOps(codec, ops), owner, recordId, dataCid) ==
              Ok(if last.Some? then Some(Concat(last.value)) else None)
  {
    RunAgrees(codec, ops, owner, recordId, dataCid);
    var last := LastPut(codec, ops, owner, recordId, dataCid);
    if last.Some? { FetchRoot(codec, RunOps(codec, ops), owner, recordId, dataCid, last.value); }
  }

  /** Puts that return the same CID stored the same data. */
  lemma EqualCidsEqualData(codec: Codec, a: seq<Bytes>, b: seq<Bytes>)
    requires SoundCodec(codec) && codec.cid(Links(LinksTo(codec, a))) == codec.cid(Links(LinksTo(codec, b)))
    ensures a == b && Concat(a) == Concat(b)
  {
    assert HashesApart(codec, Links(LinksTo(codec, a)), Links(LinksTo(codec, b)));
    forall i | 0 <= i < |a| ensures a[i] == b[i] {
      assert LinksTo(codec, a)[i] == LinksTo(codec, b)[i];
      assert HashesApart(codec, Data(a[i]), Data(b[i]));
    }
  }

  /** The chunks read from data in memory: all full, but for the last. */
  function ReadAll(data: Bytes): (chunks: seq<Chunk>)
    ensures Concat(chunks) == data
  {
    if data == [] then []
    else
      var n := if |data| < CHUNK_SIZE then |data| else CHUNK_SIZE;
      var rest := ReadAll(data[n..]);
      var chunks: seq<Chunk> := [data[..n]] + rest;
      assert chunks[1..] == rest && data == data[..n] + data[n..];
      chunks
  }

  /** For data read from memory, CIDs are equal exactly when the data is. */
  lemma CidIdentifiesData(codec: Codec, a: Bytes, b: Bytes)
    requires SoundCodec(codec)
    ensures codec.cid(Links(LinksTo(codec, ReadAll(a)))) == codec.cid(Links(LinksTo(codec, ReadAll(b)))) <==> a == b
  {
    if codec.cid(Links(LinksTo(codec, ReadAll(a)))) == codec.cid(Links(LinksTo(codec, ReadAll(b)))) {
      EqualCidsEqualData(codec, ReadAll(a), ReadAll(b));
    }
  }
}
