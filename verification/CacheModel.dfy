/** The data function's block cache: what reads and writes do to the LRU order and the cached bytes. */
module CacheModel {
  import opened Bytes
  import opened Striping
  import opened LogStore
  import opened Lru
  import opened LruList

  const BLOCK := 4096

  datatype Cache = Cache(lru: seq<Entry>, files: Files)

  function Cached(fs: Files, k: BlockId): Option<seq<byte>> {
    if k.uuid in fs && k.block in fs[k.uuid] then Some(fs[k.uuid][k.block]) else None
  }

  /** lru_cache_.set; an entry larger than the whole cache is outside the model. */
  function Touch(c: Cache, e: Entry, cap: nat): Cache {
    if cap < e.size then c
    else Cache(Use(c.lru, e, cap), DropAll(c.files, Evicted(c.lru, e, cap)))
  }

  /** get_block_ids: the block of every BLOCK-th position of the range. */
  function Ids(bs: nat, cur: nat, end: nat): seq<nat>
    requires 0 < bs
    decreases end - cur
  {
    if end <= cur then [] else [cur / bs] + Ids(bs, cur + bs, end)
  }

  // ---- reading

  datatype Lookup = Lookup(cache: Cache, hit: Option<seq<byte>>)

  function Prepend(d: seq<byte>, l: Lookup): Lookup {
    if l.hit.None? then l else Lookup(l.cache, Some(d + l.hit.value))
  }

  /** Appends the cached blocks, using each; the first missing one makes the whole read a miss. */
  function ReadBlocks(c: Cache, uuid: Uuid, ids: seq<nat>, cap: nat, fifo: bool): Lookup
    decreases |ids|
  {
    if ids == [] then Lookup(c, Some([])) else
    match Cached(c.files, BlockId(uuid, ids[0]))
    case None => Lookup(c, None)
    case Some(d) =>
      var c1 := if fifo then c else Touch(c, Entry(BlockId(uuid, ids[0]), |d|), cap);
      Prepend(d, ReadBlocks(c1, uuid, ids[1..], cap, fifo))
  }

  function ReadFromCache(c: Cache, uuid: Uuid, ids: seq<nat>, cap: nat, fifo: bool): Lookup {
    if uuid in c.files then ReadBlocks(c, uuid, ids, cap, fifo) else Lookup(c, None)
  }

  // ---- writing

  /** The i-th block of a buffer. */
  function Chunk(data: seq<byte>, i: nat): seq<byte> {
    data[Min(i * BLOCK, |data|)..Min((i + 1) * BLOCK, |data|)]
  }

  /** concurrent_hash_map::emplace: keeps an existing block. */
  function Emplace(blocks: map<nat, seq<byte>>, b: nat, d: seq<byte>): map<nat, seq<byte>> {
    if b in blocks then blocks else blocks[b := d]
  }

  /** Adding blocks to a file that is cached already, from the i-th on. */
  function AddBlocks(c: Cache, uuid: Uuid, ids: seq<nat>, data: seq<byte>, i: nat, cap: nat): Cache
    requires i <= |ids|
    decreases |ids| - i
  {
    if i == |ids| then c else
    var d := Chunk(data, i);
    var c1 := Touch(c, Entry(BlockId(uuid, ids[i]), |d|), cap);
    var c2 := if uuid in c1.files then c1.(files := c1.files[uuid := Emplace(c1.files[uuid], ids[i], d)]) else c1;
    AddBlocks(c2, uuid, ids, data, i + 1, cap)
  }

  datatype Built = Built(cache: Cache, blocks: map<nat, seq<byte>>)

  /** Building the block map of a file that is not cached yet, from the i-th block on. */
  function NewBlocks(b: Built, uuid: Uuid, ids: seq<nat>, data: seq<byte>, i: nat, cap: nat): Built
    requires i <= |ids|
    decreases |ids| - i
  {
    if i == |ids| then b else
    var d := Chunk(data, i);
    NewBlocks(Built(Touch(b.cache, Entry(BlockId(uuid, ids[i]), |d|), cap), Emplace(b.blocks, ids[i], d)),
              uuid, ids, data, i + 1, cap)
  }

  function WriteToCache(c: Cache, uuid: Uuid, ids: seq<nat>, data: seq<byte>, cap: nat): Cache {
    if uuid in c.files then AddBlocks(c, uuid, ids, data, 0, cap)
    else
      var b := NewBlocks(Built(c, map[]), uuid, ids, data, 0, cap);
      if uuid in b.cache.files then b.cache else b.cache.(files := b.cache.files[uuid := b.blocks])
  }

  // ---- the block ids of a range

  lemma {:induction false} IdAt(bs: nat, cur: nat, end: nat, i: nat)
    requires 0 < bs && i < |Ids(bs, cur, end)|
    ensures Ids(bs, cur, end)[i] == cur / bs + i && cur + i * bs < end
    decreases end - cur
  {
    if i > 0 {
      IdAt(bs, cur + bs, end, i - 1);
      DivShift(cur, bs);
      assert i * bs == (i - 1) * bs + bs;
    }
  }

  lemma DivShift(a: nat, bs: nat)
    requires 0 < bs
    ensures (a + bs) / bs == a / bs + 1 && (a + bs) % bs == a % bs
  {
    DivBounds(a, bs);
    assert (a / bs + 1) * bs == (a / bs) * bs + bs && (a / bs + 1 + 1) * bs == (a / bs + 1) * bs + bs;
    DivIs(a + bs, bs, a / bs + 1);
  }

  lemma {:induction false} IdCount(bs: nat, cur: nat, end: nat)
    requires 0 < bs && cur < end
    ensures |Ids(bs, cur, end)| == (end - cur - 1) / bs + 1
    decreases end - cur
  {
    if cur + bs < end {
      IdCount(bs, cur + bs, end);
      DivShift(end - cur - bs - 1, bs);
    } else {
      assert 0 * bs <= end - cur - 1 < (0 + 1) * bs;
      DivIs(end - cur - 1, bs, 0);
    }
  }

  lemma DivSum(a: nat, b: nat, bs: nat)
    requires 0 < bs
    ensures (a + b) / bs == a / bs + b / bs + if a % bs + b % bs < bs then 0 else 1
  {
    var p, q := a / bs, b / bs;
    DivBounds(a, bs);
    DivBounds(b, bs);
    SumBlocks(p, q, bs);
    if a % bs + b % bs < bs { DivIs(a + b, bs, p + q); } else { DivIs(a + b, bs, p + q + 1); }
  }

  lemma SumBlocks(p: nat, q: nat, bs: nat)
    ensures (p + q) * bs == p * bs + q * bs
    ensures (p + q + 1) * bs == p * bs + q * bs + bs
    ensures (p + q + 1 + 1) * bs == p * bs + q * bs + bs + bs
  {
  }

  /** The ids name every block of the range exactly when the offset of the range in its first block and
      the length of its last partial block fit into one block together; otherwise the last block is missing. */
  lemma IdsCoverIff(bs: nat, pos: nat, size: nat)
    requires 0 < bs && 0 < size
    ensures (forall a | pos <= a < pos + size :: a / bs in Ids(bs, pos, pos + size)) <==> pos % bs + (size - 1) % bs < bs
    ensures var ids := Ids(bs, pos, pos + size); forall i | 0 <= i < |ids| :: pos / bs <= ids[i] <= (pos + size - 1) / bs
  {
    hide Ids;
    var ids, last := Ids(bs, pos, pos + size), (pos + size - 1) / bs;
    IdCount(bs, pos, pos + size);
    DivSum(pos, size - 1, bs);
    forall i | 0 <= i < |ids| ensures ids[i] == pos / bs + i { IdAt(bs, pos, pos + size, i); }
    forall a | pos <= a < pos + size ensures pos / bs <= a / bs <= last {
      DivMono(pos, a, bs);
      DivMono(a, pos + size - 1, bs);
    }
    if pos % bs + (size - 1) % bs < bs {
      forall a | pos <= a < pos + size ensures a / bs in ids { assert ids[a / bs - pos / bs] == a / bs; }
    } else {
      assert last !in ids;
    }
  }
}
