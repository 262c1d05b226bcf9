/** What the conditions of a transparent cache are for: exactly when reads and writes leave it coherent. */
module CacheLimits {
  import opened Bytes
  import opened Collections
  import opened Striping
  import Participant
  import opened TwoPhase
  import opened FlatFile
  import opened ReadPath
  import opened LogStore
  import opened Lru
  import opened LruList
  import opened CacheModel
  import opened CacheFill
  import opened CacheRuns

  // ---- writes

  /** Rewriting cached blocks with a committed write evicts nothing and keeps their old bytes, so the cache
      stays coherent exactly when no touched block changed. */
  lemma RewriteIsCoherentIff(g: Config, w: World, f: Uuid, wr: Write)
    requires g.enabled && Sized(wr) && CacheRuns.Inv(g.bs, w.cache, w.store, g.cap) && WholeBlocks(g, wr.pos, |wr.data|) && wr.data != []
    requires AllAgree(TxnOf(g.bs, wr), FileOf(w.store, f))
    requires forall b | b in IdsOf(wr.pos, |wr.data|) :: Cached(w.cache.files, BlockId(f, b)).Some?
    ensures var w', ids := Perform(g, w, Put(f, wr)).0, IdsOf(wr.pos, |wr.data|);
            && w'.cache.files == w.cache.files
            && (Coherent(g.bs, w'.cache, w'.store) <==>
                forall i | 0 <= i < |ids| :: Cached(w.cache.files, BlockId(f, ids[i])) == Some(Chunk(wr.data, i)))
  {
    hide Matches, TxnOf, Outcome, AllAgree, IdsOf, Chunk, AddBlocks, NewBlocks;
    var ids := IdsOf(wr.pos, |wr.data|);
    WholeBlockIds(wr.pos, |wr.data|);
    forall j | 0 <= j < |ids| ensures var r := Cached(w.cache.files, BlockId(f, ids[j])); r.Some? && |r.value| == BLOCK { assert ids[j] in ids; }
    assert ids != [] && f in w.cache.files by { assert Cached(w.cache.files, BlockId(f, ids[0])).Some?; }
    AddCachedBlocks(w.cache, f, ids, wr.data, 0, g.cap);
    CopiesDecide(g, w, f, wr);
  }

  /** A write is cached before anybody looks at its verdict.  So a write of blocks that are not cached leaves
      the cache coherent exactly when it is committed, or its blocks will not be cached, or it writes what is
      stored anyway; otherwise hits return bytes that were never committed. */
  lemma UncachedWriteIsCoherentIff(g: Config, w: World, f: Uuid, wr: Write)
    requires g.enabled && Sized(wr) && CacheRuns.Inv(g.bs, w.cache, w.store, g.cap) && WholeBlocks(g, wr.pos, |wr.data|)
    requires forall b | b in IdsOf(wr.pos, |wr.data|) :: Cached(w.cache.files, BlockId(f, b)).None?
    ensures var w', ids := Perform(g, w, Put(f, wr)).0, IdsOf(wr.pos, |wr.data|);
            && (Coherent(g.bs, w'.cache, w'.store) <==>
                || AllAgree(TxnOf(g.bs, wr), FileOf(w.store, f))
                || !WillCache(w.cache, f, ids, g.cap)
                || forall i | 0 <= i < |ids| :: Matches(g.bs, FileOf(w.store, f), ids[i], Chunk(wr.data, i)))
            && forall i | 0 <= i < |ids| ::
                 Cached(w'.cache.files, BlockId(f, ids[i])) == if WillCache(w.cache, f, ids, g.cap) then Some(Chunk(wr.data, i)) else None
  {
    hide WriteToCache, Cached, Coherent, Matches, TxnOf, Outcome, AllAgree, IdsOf, Chunk, WillCache, OrderAfter, HasKey, Perform;
    PutIsCoherentIff(g, w, f, wr);
    var ids := IdsOf(wr.pos, |wr.data|);
    forall i | 0 <= i < |ids|
      ensures CopyAfter(w.cache, f, ids, wr.data, i, g.cap) == if WillCache(w.cache, f, ids, g.cap) then Some(Chunk(wr.data, i)) else None
    {
      assert ids[i] in ids;
    }
  }

  // ---- reads

  /** What a cached block is for: a read of the block is answered with the cached bytes, right or wrong. */
  lemma CopyIsServed(g: Config, w: World, k: BlockId)
    requires Accounted(w.cache, g.cap) && Cached(w.cache.files, k).Some? && (k.block + 1) * BLOCK < 0x1_0000_0000
    ensures Perform(g, w, Read(k.uuid, k.block * BLOCK, BLOCK)).1 == Content(Cached(w.cache.files, k).value)
  {
    hide Touch, Accounted, Plain, WriteToCache;
    HitEvictsNothing(w.cache, k, g.cap);
    OneId(k.block * BLOCK, BLOCK);
    DivIs(k.block * BLOCK, BLOCK, k.block);
    OneBlockRead(w.cache, k, g.cap, g.fifo);
  }

  lemma OneBlockRead(c: Cache, k: BlockId, cap: nat, fifo: bool)
    requires Cached(c.files, k).Some?
    ensures ReadBlocks(c, k.uuid, [k.block], cap, fifo).hit == Cached(c.files, k)
  {
    hide Touch;
    var d := Cached(c.files, k).value;
    var c1 := if fifo then c else Touch(c, Entry(k, |d|), cap);
    assert [k.block][1..] == [];
    assert ReadBlocks(c1, k.uuid, [], cap, fifo).hit == Some([]);
    assert d + [] == d;
  }

  lemma OneId(pos: uint32, size: uint32)
    requires 0 < size <= BLOCK && pos + size < 0x1_0000_0000
    ensures IdsOf(pos, size) == [pos / BLOCK]
  {
    assert Ids(BLOCK, pos + BLOCK, pos + size) == [];
  }

  ghost predicate Stored(bs: BlockSize, blocks: Blocks, pos: nat, size: nat) {
    forall a | pos <= a < pos + size :: ByteAt(bs, blocks, a).Some?
  }

  /** Whatever coherent cache it meets, the read leaves it coherent. */
  ghost predicate ReadsCoherently(g: Config, pos: uint32, size: uint32) {
    forall c, store, f | CacheRuns.Inv(g.bs, c, store, g.cap) && Stored(g.bs, FileOf(store, f), pos, size) ::
      Coherent(g.bs, Perform(g, World(c, store), Read(f, pos, size)).0.cache, store)
  }

  /** A nonempty read of stored bytes within the capacity keeps every cache coherent, for every store,
      exactly when it covers whole blocks. */
  lemma ReadIsCoherentIff(g: Config, pos: uint32, size: uint32)
    requires g.enabled && 0 < size <= g.cap && pos + size < 0x1_0000_0000
    ensures ReadsCoherently(g, pos, size) <==> pos % BLOCK == 0 && size % BLOCK == 0
  {
    hide Perform, Coherent, CacheRuns.Inv, Stored;
    if pos % BLOCK == 0 && size % BLOCK == 0 {
      forall c, store, f | CacheRuns.Inv(g.bs, c, store, g.cap) && Stored(g.bs, FileOf(store, f), pos, size)
        ensures Coherent(g.bs, Perform(g, World(c, store), Read(f, pos, size)).0.cache, store)
      {
        WholeReadStays(g, c, store, f, pos, size);
      }
    } else {
      var f: Uuid := seq(32, _ => 0);
      PartialReadFails(g, f, pos, size);
      assert !ReadsCoherently(g, pos, size);
    }
  }

  lemma WholeReadStays(g: Config, c: Cache, store: Store, f: Uuid, pos: uint32, size: uint32)
    requires pos % BLOCK == 0 && size % BLOCK == 0 && size <= g.cap && pos + size < 0x1_0000_0000
    requires CacheRuns.Inv(g.bs, c, store, g.cap) && Stored(g.bs, FileOf(store, f), pos, size)
    ensures Coherent(g.bs, Perform(g, World(c, store), Read(f, pos, size)).0.cache, store)
  {
    hide Perform, ByteAt, Accounted, Coherent;
    ReadStep(g, World(c, store), Read(f, pos, size));
  }

  /** Blocks that hold 1 at the address `mark` and 0 elsewhere, up to `end`. */
  ghost function Marked(bs: BlockSize, mark: nat, end: nat): Blocks {
    map b | b in UpTo(end / bs + 1) :: Participant.Block(Some(MarkedBlock(bs, mark, b)), 0, 0, [])
  }

  ghost function MarkedBlock(bs: BlockSize, mark: nat, b: nat): seq<byte> {
    seq(bs, j requires 0 <= j < bs => if b * bs + j == mark then 1 else 0)
  }

  lemma MarkedByte(bs: BlockSize, mark: nat, end: nat, a: nat)
    requires a <= end
    ensures ByteAt(bs, Marked(bs, mark, end), a) == Some(if a == mark then 1 else 0)
  {
    hide MarkedBlock, Marked;
    DivMono(a, end, bs);
    DivBounds(a, bs);
    MarkedAt(bs, mark, end, a / bs);
    MarkedBlockAt(bs, mark, a / bs, a % bs);
  }

  lemma MarkedAt(bs: BlockSize, mark: nat, end: nat, b: nat)
    requires b <= end / bs
    ensures At(Marked(bs, mark, end), b).content == Some(MarkedBlock(bs, mark, b))
  {
    hide UpTo, MarkedBlock;
    assert b in UpTo(end / bs + 1);
  }

  lemma MarkedBlockAt(bs: BlockSize, mark: nat, b: nat, j: nat)
    requires j < bs
    ensures var d := MarkedBlock(bs, mark, b); |d| == bs && d[j] == if b * bs + j == mark then 1 else 0
  {
  }

  /** A read that does not cover whole blocks caches its bytes under the wrong addresses, or a block that is
      too short. */
  lemma PartialReadFails(g: Config, f: Uuid, pos: uint32, size: uint32)
    requires g.enabled && 0 < size <= g.cap && pos + size < 0x1_0000_0000 && !(pos % BLOCK == 0 && size % BLOCK == 0)
    ensures var store, c := map[f := Marked(g.bs, pos, pos + size)], Cache([], map[]);
            && CacheRuns.Inv(g.bs, c, store, g.cap) && Stored(g.bs, FileOf(store, f), pos, size)
            && !Coherent(g.bs, Perform(g, World(c, store), Read(f, pos, size)).0.cache, store)
  {
    hide ByteAt, ReadResult, WriteToCache, IdsOf, Cached, Chunk, Marked, Accounted;
    var store, c, blocks := map[f := Marked(g.bs, pos, pos + size)], Cache([], map[]), Marked(g.bs, pos, pos + size);
    EmptyCacheInv(g.bs, store, g.cap);
    forall a | pos <= a < pos + size ensures ByteAt(g.bs, blocks, a).Some? { MarkedByte(g.bs, pos, pos + size, a); }
    ReadBack(g.bs, blocks, pos, size);
    var buf, ids, first := ReadResult(g.bs, blocks, pos, size), IdsOf(pos, size), pos / BLOCK;
    PartialIds(pos, size);
    var after := WriteToCache(c, f, ids, buf, g.cap);
    assert Perform(g, World(c, store), Read(f, pos, size)).0.cache == after;
    var i := if pos % BLOCK == 0 then |ids| - 1 else 0;
    FillPutsChunk(c, f, ids, first, buf, g.cap, i);
    var k := BlockId(f, ids[i]);
    assert Cached(after.files, k) == Some(Chunk(buf, i));
    if pos % BLOCK == 0 {
      LastChunkShort(buf, |ids|);
    } else {
      FirstChunk(buf);
      MarkedByte(g.bs, pos, pos + size, pos);
      MarkedByte(g.bs, pos, pos + size, first * BLOCK);
      assert !Matches(g.bs, FileOf(store, f), ids[i], Chunk(buf, i));
    }
  }

  lemma PartialIds(pos: uint32, size: uint32)
    requires 0 < size && pos + size < 0x1_0000_0000
    ensures var ids := IdsOf(pos, size);
            && Consecutive(ids, pos / BLOCK) && |ids| == (size - 1) / BLOCK + 1
            && (|ids| - 1) * BLOCK < size <= |ids| * BLOCK
  {
    var ids := IdsOf(pos, size);
    IdCount(BLOCK, pos, pos + size);
    forall i | 0 <= i < |ids| ensures ids[i] == pos / BLOCK + i { IdAt(BLOCK, pos, pos + size, i); }
  }

  lemma LastChunkShort(buf: seq<byte>, n: nat)
    requires 0 < n && (n - 1) * BLOCK < |buf| <= n * BLOCK && |buf| % BLOCK != 0
    ensures |Chunk(buf, n - 1)| < BLOCK
  {
  }

  lemma FirstChunk(buf: seq<byte>)
    requires buf != []
    ensures Chunk(buf, 0) != [] && Chunk(buf, 0)[0] == buf[0]
  {
  }

  /** Nor does it help that the ids cover both requests: after a read of n <= 4096 bytes from address 1, an
      equally long read from address 0 is answered with the bytes of the first one, whenever the two differ
      in the backend's answer. */
  lemma ShiftedReadIsServed(g: Config, store: Store, f: Uuid, n: uint32)
    requires g.enabled && 0 < n <= BLOCK && n <= g.cap && Stored(g.bs, FileOf(store, f), 0, n + 1)
    requires ByteAt(g.bs, FileOf(store, f), 0) != ByteAt(g.bs, FileOf(store, f), 1)
    ensures var w1 := Perform(g, World(Cache([], map[]), store), Read(f, 1, n)).0;
            && Perform(g, w1, Read(f, 0, n)).1 == Plain(g, store, Read(f, 1, n)).1
            && Perform(g, w1, Read(f, 0, n)).1 != Plain(g, w1.store, Read(f, 0, n)).1
  {
    hide ByteAt, ReadResult, WriteToCache, IdsOf, Cached, Chunk, ReadBlocks;
    var blocks, c := FileOf(store, f), Cache([], map[]);
    ReadBack(g.bs, blocks, 0, n);
    ReadBack(g.bs, blocks, 1, n);
    var buf := ReadResult(g.bs, blocks, 1, n);
    OneId(0, n);
    OneId(1, n);
    DivIs(1, BLOCK, 0);
    WholeChunk(buf);
    FillPutsChunk(c, f, [0], 0, buf, g.cap, 0);
    var c1 := WriteToCache(c, f, [0], buf, g.cap);
    var k := BlockId(f, 0);
    assert f in c1.files by { CachedFile(c1.files, k); }
    OneBlockRead(c1, k, g.cap, g.fifo);
    assert Some(ReadResult(g.bs, blocks, 0, n)[0]) == ByteAt(g.bs, blocks, 0) && Some(buf[0]) == ByteAt(g.bs, blocks, 1);
  }

  lemma WholeChunk(buf: seq<byte>)
    requires |buf| <= BLOCK
    ensures Chunk(buf, 0) == buf
  {
  }

  /** A file may stay in the LRU order after its last block is gone: with room for one block, reading the first
      two blocks of a file, one after the other, evicts the file while its second block is being added. */
  lemma LruOutlivesFile(g: Config, store: Store, f: Uuid)
    requires g.enabled && g.cap == BLOCK && Stored(g.bs, FileOf(store, f), 0, 2 * BLOCK)
    ensures var w, r0, r1 := World(Cache([], map[]), store), Read(f, 0, BLOCK), Read(f, BLOCK, BLOCK);
            && CacheRuns.LegalRun(g, w, [r0, r1])
            && Perform(g, Perform(g, w, r0).0, r1).0.cache == Cache([Entry(BlockId(f, 1), BLOCK)], map[])
  {
    hide Perform, Legal, Stored;
    var w, r0, r1 := World(Cache([], map[]), store), Read(f, 0, BLOCK), Read(f, BLOCK, BLOCK);
    FirstBlockRead(g, store, f);
    var w1 := Perform(g, w, r0).0;
    SecondBlockRead(g, store, f, ReadResult(g.bs, FileOf(store, f), 0, BLOCK));
    assert [r0, r1][1..] == [r1] && [r1][1..] == [];
    assert CacheRuns.LegalRun(g, Perform(g, w1, r1).0, []);
    assert CacheRuns.LegalRun(g, w1, [r1]);
  }

  lemma FirstBlockRead(g: Config, store: Store, f: Uuid)
    requires g.enabled && g.cap == BLOCK && Stored(g.bs, FileOf(store, f), 0, 2 * BLOCK)
    ensures var w, r, d := World(Cache([], map[]), store), Read(f, 0, BLOCK), ReadResult(g.bs, FileOf(store, f), 0, BLOCK);
            Legal(g, w, r) && Perform(g, w, r).0 == World(Cache([Entry(BlockId(f, 0), BLOCK)], map[f := map[0 := d]]), store)
  {
    hide ByteAt, ReadResult, Chunk, WriteToCache, IdsOf;
    ReadBack(g.bs, FileOf(store, f), 0, BLOCK);
    OneId(0, BLOCK);
    FirstFill(f, ReadResult(g.bs, FileOf(store, f), 0, BLOCK), g.cap);
  }

  lemma SecondBlockRead(g: Config, store: Store, f: Uuid, d0: seq<byte>)
    requires g.enabled && g.cap == BLOCK && Stored(g.bs, FileOf(store, f), 0, 2 * BLOCK)
    ensures var w, r := World(Cache([Entry(BlockId(f, 0), BLOCK)], map[f := map[0 := d0]]), store), Read(f, BLOCK, BLOCK);
            Legal(g, w, r) && Perform(g, w, r).0 == World(Cache([Entry(BlockId(f, 1), BLOCK)], map[]), store)
  {
    hide ByteAt, ReadResult, Chunk, AddBlocks, NewBlocks, IdsOf;
    ReadBack(g.bs, FileOf(store, f), BLOCK, BLOCK);
    OneId(BLOCK, BLOCK);
    SecondFill(f, d0, ReadResult(g.bs, FileOf(store, f), BLOCK, BLOCK));
  }

  lemma FirstFill(f: Uuid, d: seq<byte>, cap: nat)
    requires |d| == BLOCK <= cap
    ensures WriteToCache(Cache([], map[]), f, [0], d, cap) == Cache([Entry(BlockId(f, 0), BLOCK)], map[f := map[0 := d]])
  {
    WholeChunk(d);
    var c, e := Cache([], map[]), Entry(BlockId(f, 0), BLOCK);
    assert Touch(c, e, cap) == Cache([e], map[]);
    assert NewBlocks(Built(Cache([e], map[]), map[0 := d]), f, [0], d, 1, cap) == Built(Cache([e], map[]), map[0 := d]);
  }

  lemma SecondFill(f: Uuid, d0: seq<byte>, d1: seq<byte>)
    requires |d1| == BLOCK
    ensures AddBlocks(Cache([Entry(BlockId(f, 0), BLOCK)], map[f := map[0 := d0]]), f, [1], d1, 0, BLOCK)
            == Cache([Entry(BlockId(f, 1), BLOCK)], map[])
  {
    hide Use, Evicted, DropAll, Chunk;
    WholeChunk(d1);
    var e0, e1, fs := Entry(BlockId(f, 0), BLOCK), Entry(BlockId(f, 1), BLOCK), map[f := map[0 := d0]];
    NoRoomForBoth(e0, e1);
    OnlyBlockGone(f, d0);
    assert Touch(Cache([e0], fs), e1, BLOCK) == Cache([e1], map[]);
    NothingMore(Cache([e1], map[]), f, d1);
  }

  lemma NothingMore(c: Cache, f: Uuid, d: seq<byte>)
    ensures AddBlocks(c, f, [1], d, 1, BLOCK) == c
  {
  }

  lemma NoRoomForBoth(e0: Entry, e1: Entry)
    requires e0.key != e1.key && e0.size == e1.size == BLOCK
    ensures Use([e0], e1, BLOCK) == [e1] && Evicted([e0], e1, BLOCK) == [e0]
  {
    hide Without, Total, Fit;
    WithoutAbsent([e0], e1.key);
    TotalOne(e0);
    FitIsLongest([e0], 0, 1);
    assert [e0][..1] == [e0];
    FitIsPrefix([e0], 0);
    assert Fit([e0], 0) == [];
  }

  lemma OnlyBlockGone(f: Uuid, d: seq<byte>)
    ensures DropAll(map[f := map[0 := d]], [Entry(BlockId(f, 0), BLOCK)]) == map[]
  {
    var fs, es := map[f := map[0 := d]], [Entry(BlockId(f, 0), BLOCK)];
    assert es[1..] == [] && DropAll(fs, []) == fs;
    assert fs[f] - {0} == map[] && fs - {f} == map[];
  }
}
