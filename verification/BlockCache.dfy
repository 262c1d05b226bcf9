/** The cache object: its loops over blocks, run on the linked LRU list and the data map. */
module BlockCache {
  import opened Bytes
  import opened Striping
  import opened LogStore
  import opened Lru
  import opened LruList
  import opened CacheModel
  import opened CacheFill
  import opened CacheRuns

  lemma ChunkSize(data: seq<byte>, i: nat)
    ensures |Chunk(data, i)| <= Min(BLOCK, |data|)
  {
  }

  lemma EmptyRange(pos: uint32)
    ensures EndPos(pos, 0) == pos
  {
  }

  lemma IdsTurn(bs: nat, cur: nat, end: nat)
    requires 0 < bs
    ensures Ids(bs, cur, end) == if end <= cur then [] else [cur / bs] + Ids(bs, cur + bs, end)
  {
  }

  lemma PrependNothing(l: Lookup)
    ensures Prepend([], l) == l
  {
    if l.hit.Some? { assert [] + l.hit.value == l.hit.value; }
  }

  lemma PrependMore(a: seq<byte>, b: seq<byte>, l: Lookup)
    ensures Prepend(a, Prepend(b, l)) == Prepend(a + b, l)
  {
    if l.hit.Some? { assert a + (b + l.hit.value) == a + b + l.hit.value; }
  }

  class BlockCache {
    const lru: LruCache
    const data: CachingMap
    const fifo: bool

    ghost predicate Valid()
      reads this, lru, lru.head, lru.tail, lru.nodes
    {
      lru.Valid() && lru.data == data
    }

    /** The LRU order and the cached bytes. */
    ghost function View(): Cache
      reads this, lru, data
    {
      Cache(Entries(lru.nodes), data.files)
    }

    constructor (cap: nat, fifo: bool)
      requires cap < 0x8000_0000
      ensures Valid() && View() == Cache([], map[]) && lru.cap == cap && this.fifo == fifo
      ensures fresh(lru) && fresh(data) && fresh(lru.head) && fresh(lru.tail)
    {
      var d := new CachingMap();
      var l := new LruCache(cap, d);
      data, lru, this.fifo := d, l, fifo;
    }

    /** The loop of the source does not end when its 32-bit position wraps before it reaches the end of the
        range; a range whose end wraps has no ids. */
    static method GetBlockIds(pos: uint32, size: uint32) returns (ids: seq<nat>)
      requires pos + |IdsOf(pos, size)| * BLOCK < 0x1_0000_0000
      ensures ids == IdsOf(pos, size)
    {
      hide Ids, EndPos;
      var end := EndPos(pos, size);
      ids := [];
      if size == 0 {
        EmptyRange(pos);
        IdsTurn(BLOCK, pos, end);
        return;
      }
      var cur: uint32 := pos;
      while cur < end
        invariant Ids(BLOCK, pos, end) == ids + Ids(BLOCK, cur, end)
        invariant cur == pos + |ids| * BLOCK
        decreases end - cur
      {
        IdsTurn(BLOCK, cur, end);
        ids := ids + [cur / BLOCK];
        cur := cur + BLOCK;
      }
      IdsTurn(BLOCK, cur, end);
    }

    /** Uses one entry. */
    method Use(e: Entry)
      requires Valid() && e.size <= lru.cap
      modifies lru, lru.nodes, lru.head, lru.tail, data
      ensures Valid() && View() == Touch(old(View()), e, lru.cap)
      ensures forall n | 0 <= n < |lru.nodes| :: lru.nodes[n] in old(lru.nodes) || fresh(lru.nodes[n])
    {
      lru.Set(e);
    }

    method ReadFromCache(uuid: Uuid, ids: seq<nat>) returns (hit: Option<seq<byte>>)
      requires Valid() && Accounted(View(), lru.cap)
      modifies lru, lru.nodes, lru.head, lru.tail, data
      ensures Valid()
      ensures Lookup(View(), hit) == CacheModel.ReadFromCache(old(View()), uuid, ids, lru.cap, fifo)
    {
      hide Touch, Accounted;
      if uuid !in data.files { return None; }
      ghost var whole := ReadBlocks(View(), uuid, ids, lru.cap, fifo);
      var collected: seq<byte> := [];
      assert ids[0..] == ids;
      PrependNothing(whole);
      for i := 0 to |ids|
        invariant Valid() && Accounted(View(), lru.cap)
        invariant forall n | 0 <= n < |lru.nodes| :: lru.nodes[n] in old(lru.nodes) || fresh(lru.nodes[n])
        invariant whole == Prepend(collected, ReadBlocks(View(), uuid, ids[i..], lru.cap, fifo))
      {
        var key := BlockId(uuid, ids[i]);
        assert ids[i..][0] == ids[i] && ids[i..][1..] == ids[i + 1..];
        if Cached(data.files, key).None? { return None; }
        var d := Cached(data.files, key).value;
        if !fifo {
          HitEvictsNothing(View(), key, lru.cap);
          TouchAccounted(View(), Entry(key, |d|), lru.cap);
          Use(Entry(key, |d|));
        }
        PrependMore(collected, d, ReadBlocks(View(), uuid, ids[i + 1..], lru.cap, fifo));
        collected := collected + d;
      }
      assert ids[|ids|..] == [] && collected + [] == collected;
      hit := Some(collected);
    }

    /** A file with cached blocks gets the new ones added. */
    method AddBlocks(uuid: Uuid, ids: seq<nat>, buf: seq<byte>)
      requires Valid() && Min(BLOCK, |buf|) <= lru.cap
      modifies lru, lru.nodes, lru.head, lru.tail, data
      ensures Valid() && View() == CacheModel.AddBlocks(old(View()), uuid, ids, buf, 0, lru.cap)
    {
      hide Touch, Chunk, Indexes, Chain;
      for i := 0 to |ids|
        invariant Valid()
        invariant forall n | 0 <= n < |lru.nodes| :: lru.nodes[n] in old(lru.nodes) || fresh(lru.nodes[n])
        invariant CacheModel.AddBlocks(View(), uuid, ids, buf, i, lru.cap) == CacheModel.AddBlocks(old(View()), uuid, ids, buf, 0, lru.cap)
      {
        var d := Chunk(buf, i);
        ChunkSize(buf, i);
        Use(Entry(BlockId(uuid, ids[i]), |d|));
        if uuid in data.files {
          data.files := data.files[uuid := Emplace(data.files[uuid], ids[i], d)];
        }
      }
    }

    method WriteToCache(uuid: Uuid, ids: seq<nat>, buf: seq<byte>)
      requires Valid() && Min(BLOCK, |buf|) <= lru.cap
      modifies lru, lru.nodes, lru.head, lru.tail, data
      ensures Valid() && View() == CacheModel.WriteToCache(old(View()), uuid, ids, buf, lru.cap)
    {
      hide Touch, Chunk, Indexes, Chain;
      if uuid in data.files {
        AddBlocks(uuid, ids, buf);
        return;
      }
      var blocks := map[];
      for i := 0 to |ids|
        invariant Valid()
        invariant forall n | 0 <= n < |lru.nodes| :: lru.nodes[n] in old(lru.nodes) || fresh(lru.nodes[n])
        invariant NewBlocks(Built(View(), blocks), uuid, ids, buf, i, lru.cap)
                  == NewBlocks(Built(old(View()), map[]), uuid, ids, buf, 0, lru.cap)
      {
        var d := Chunk(buf, i);
        ChunkSize(buf, i);
        Use(Entry(BlockId(uuid, ids[i]), |d|));
        blocks := Emplace(blocks, ids[i], d);
      }
      if uuid !in data.files { data.files := data.files[uuid := blocks]; }
    }
  }
}
