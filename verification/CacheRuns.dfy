/** The cache never changes what a client reads. */
module CacheRuns {
  import opened Bytes
  import opened Striping
  import opened TwoPhase
  import opened FlatFile
  import opened ReadPath
  import opened LogStore
  import opened Lru
  import opened LruList
  import opened CacheModel
  import opened CacheFill
  import Coordinator

  // ---- the cached bytes are the stored bytes

  type Store = map<Uuid, Blocks>

  function FileOf(store: Store, u: Uuid): Blocks { if u in store then store[u] else map[] }

  /** `data` is what the file stores from block `first` on. */
  ghost predicate Matches(bs: BlockSize, blocks: Blocks, first: nat, data: seq<byte>)
  {
    forall j | 0 <= j < |data| :: ByteAt(bs, blocks, first * BLOCK + j) == Some(data[j])
  }

  ghost predicate Coherent(bs: BlockSize, c: Cache, store: Store)
  {
    forall k | Cached(c.files, k).Some? ::
      var d := Cached(c.files, k).value; |d| == BLOCK && Matches(bs, FileOf(store, k.uuid), k.block, d)
  }

  ghost predicate Inv(bs: BlockSize, c: Cache, store: Store, cap: nat)
  {
    Accounted(c, cap) && Coherent(bs, c, store)
  }

  // ---- reading

  lemma {:induction false} ReadBlocksExact(bs: BlockSize, c: Cache, store: Store, uuid: Uuid, ids: seq<nat>, first: nat, cap: nat, fifo: bool)
    requires Inv(bs, c, store, cap) && Consecutive(ids, first)
    ensures var r := ReadBlocks(c, uuid, ids, cap, fifo);
            && Inv(bs, r.cache, store, cap) && r.cache.files == c.files
            && (r.hit.Some? ==> |r.hit.value| == |ids| * BLOCK && Matches(bs, FileOf(store, uuid), first, r.hit.value))
    decreases |ids|
  {
    hide Touch, Cached, ByteAt;
    if ids != [] {
      var k := BlockId(uuid, ids[0]);
      var found := Cached(c.files, k);
      if found.Some? {
        var e := Entry(k, |found.value|);
        HitEvictsNothing(c, k, cap);
        TouchAccounted(c, e, cap);
        var c1 := if fifo then c else Touch(c, e, cap);
        ReadBlocksExact(bs, c1, store, uuid, ids[1..], first + 1, cap, fifo);
        var r := ReadBlocks(c1, uuid, ids[1..], cap, fifo);
        if r.hit.Some? { MatchesConcat(bs, FileOf(store, uuid), first, found.value, r.hit.value); }
      }
    }
  }

  lemma MatchesConcat(bs: BlockSize, blocks: Blocks, first: nat, d: seq<byte>, rest: seq<byte>)
    requires |d| == BLOCK && Matches(bs, blocks, first, d) && Matches(bs, blocks, first + 1, rest)
    ensures Matches(bs, blocks, first, d + rest)
  {
    hide ByteAt;
    forall j | 0 <= j < |d + rest| ensures ByteAt(bs, blocks, first * BLOCK + j) == Some((d + rest)[j]) {
      if j >= BLOCK { assert first * BLOCK + j == (first + 1) * BLOCK + (j - BLOCK); }
    }
  }

  // ---- writing

  lemma ChunkMatches(bs: BlockSize, blocks: Blocks, first: nat, data: seq<byte>, n: nat, i: nat)
    requires |data| == n * BLOCK && i < n && Matches(bs, blocks, first, data)
    ensures |Chunk(data, i)| == BLOCK && Matches(bs, blocks, first + i, Chunk(data, i))
  {
    hide ByteAt;
    MulMono(i + 1, n, BLOCK);
    var d := Chunk(data, i);
    forall j | 0 <= j < |d| ensures ByteAt(bs, blocks, (first + i) * BLOCK + j) == Some(d[j]) {
      assert d[j] == data[i * BLOCK + j];
      assert (first + i) * BLOCK + j == first * BLOCK + (i * BLOCK + j);
    }
  }

  /** Caching the stored bytes of a range, in whichever way, keeps the cache coherent. */
  lemma WriteToCacheInv(bs: BlockSize, c: Cache, store: Store, uuid: Uuid, ids: seq<nat>, first: nat, data: seq<byte>, cap: nat)
    requires Inv(bs, c, store, cap) && Consecutive(ids, first)
    requires |data| == |ids| * BLOCK <= cap && Matches(bs, FileOf(store, uuid), first, data)
    ensures Inv(bs, WriteToCache(c, uuid, ids, data, cap), store, cap)
  {
    hide WriteToCache, Cached, Matches, Chunk, Accounted;
    FillBooked(c, uuid, ids, first, data, cap);
    var fs := WriteToCache(c, uuid, ids, data, cap).files;
    forall k | Cached(fs, k).Some? ensures Matches(bs, FileOf(store, k.uuid), k.block, Cached(fs, k).value) {
      FillPuts(c, uuid, ids, data, cap, k);
      if IsChunk(uuid, ids, data, 0, k, Cached(fs, k)) {
        var j: nat :| j < |ids| && ids[j] == k.block && Cached(fs, k) == Some(Chunk(data, j));
        ChunkMatches(bs, FileOf(store, uuid), first, data, |ids|, j);
      }
    }
  }

  // ---- requests through the data function

  datatype Op = Read(file: Uuid, pos: uint32, size: uint32) | Put(file: Uuid, write: Write)
  datatype Answer = Content(bytes: seq<byte>) | Verdict(ok: bool)
  datatype World = World(cache: Cache, store: Store)
  datatype Config = Config(bs: BlockSize, cap: nat, fifo: bool, enabled: bool)

  /** get_block_ids; a range whose end wraps around 32 bits has none. */
  function IdsOf(pos: uint32, size: uint32): seq<nat> { Ids(BLOCK, pos, EndPos(pos, size)) }

  predicate Proper(op: Op) { op.Put? ==> Sized(op.write) }

  /** The backend alone. */
  ghost function Plain(g: Config, store: Store, op: Op): (Store, Answer)
    requires Proper(op)
  {
    var blocks := FileOf(store, op.file);
    match op
    case Read(_, pos, size) => (store, Content(ReadResult(g.bs, blocks, pos, size)))
    case Put(f, w) => (store[f := Outcome(TxnOf(g.bs, w), blocks)], Verdict(AllAgree(TxnOf(g.bs, w), blocks)))
  }

  /** The backend's answer to a write is the verdict of the protocol: when any run of the write is done, the store
      holds that run's blocks, and the client was told what the coordinator decided. */
  lemma PlainPutIsRun(g: Config, store: Store, f: Uuid, wr: Write, run: seq<State>)
    requires Sized(wr) && IsRun(TxnOf(g.bs, wr), if f in store then store[f] else map[], run) && run[|run| - 1].coord.phase.Done?
    ensures Plain(g, store, Put(f, wr)) == (store[f := run[|run| - 1].blocks], Verdict(run[|run| - 1].coord.agree))
  {
    hide TxnOf, Outcome, AllAgree, IsRun;
    TxnDistinct(g.bs, wr);
    RunsEndInOutcome(TxnOf(g.bs, wr), FileOf(store, f), run);
  }

  /** Its answer to a read is the buffer that the callbacks put together, in whatever order the blocks answer. */
  lemma PlainReadIsCollected(g: Config, store: Store, f: Uuid, pos: uint32, size: uint32, order: seq<nat>)
    requires var blocks := if f in store then store[f] else map[];
             var replies := Replies(blocks, Pieces(g.bs, pos, size));
             && (forall i | i in order :: i < |replies|) && (forall i, j | 0 <= i < j < |order| :: order[i] != order[j])
             && Coordinator.AllReady(Coordinator.Arrive(replies, order))
    ensures var blocks := if f in store then store[f] else map[];
            var slots := Coordinator.Arrive(Replies(blocks, Pieces(g.bs, pos, size)), order);
            Plain(g, store, Read(f, pos, size)) == (store, Content(Concat(Coordinator.Filled(slots))))
  {
    hide Coordinator.AllReady, Coordinator.Filled, Coordinator.Arrive, Pieces, Replies, Concat;
    Coordinator.AnyOrderReadsTheSame(Replies(FileOf(store, f), Pieces(g.bs, pos, size)), order);
  }

  /** start_storage_perform: a hit answers at once; a miss, like a write, fills the cache afterwards. */
  ghost function Perform(g: Config, w: World, op: Op): (World, Answer)
    requires Proper(op)
  {
    match op
    case Read(f, pos, size) =>
      var l := ReadFromCache(w.cache, f, IdsOf(pos, size), g.cap, g.fifo);
      if l.hit.Some? then (World(l.cache, w.store), Content(l.hit.value)) else
      var answer := Plain(g, w.store, op).1;
      var c := if g.enabled then WriteToCache(l.cache, f, IdsOf(pos, size), answer.bytes, g.cap) else l.cache;
      (World(c, w.store), answer)
    case Put(f, wr) =>
      var p := Plain(g, w.store, op);
      var c := if g.enabled then WriteToCache(w.cache, f, IdsOf(wr.pos, |wr.data|), wr.data, g.cap) else w.cache;
      (World(c, p.0), p.1)
  }

  /** Through the cache: a write is answered by its run and leaves that run's blocks, whatever is cached. */
  lemma PutIsRun(g: Config, w: World, f: Uuid, wr: Write, run: seq<State>)
    requires Sized(wr) && IsRun(TxnOf(g.bs, wr), if f in w.store then w.store[f] else map[], run) && run[|run| - 1].coord.phase.Done?
    ensures var r := Perform(g, w, Put(f, wr));
            r.1 == Verdict(run[|run| - 1].coord.agree) && r.0.store == w.store[f := run[|run| - 1].blocks]
  {
    hide Plain, IsRun, WriteToCache;
    PlainPutIsRun(g, w.store, f, wr, run);
  }

  /** A read is answered with the cached bytes when every block of it is cached, and by the backend otherwise.  No
      read changes the store, and a data function that does not cache changes no cached byte by either. */
  lemma ReadIsHitOrBackend(g: Config, w: World, op: Op)
    requires Proper(op) && Accounted(w.cache, g.cap)
    ensures op.Read? ==>
              var (r, hit) := (Perform(g, w, op), AllCached(w.cache, op.file, IdsOf(op.pos, op.size)));
              && r.0.store == w.store
              && (hit ==> r.1 == Content(Joined(w.cache, op.file, IdsOf(op.pos, op.size))) && r.0.cache.files == w.cache.files)
              && (!hit ==> r.1 == Plain(g, w.store, op).1)
    ensures !g.enabled ==> Perform(g, w, op).0.cache.files == w.cache.files
  {
    hide Plain, Accounted, WriteToCache, ReadBlocks, IdsOf;
    if op.Read? { HitIff(w.cache, op.file, IdsOf(op.pos, op.size), g.cap, g.fifo); }
  }

  /** What a request does to the order.  A hit, or any read of a data function that does not cache, uses the blocks up to
      the first one that is not cached, under LRU, and nothing under FIFO.  A miss of whole blocks and a write of whole
      blocks put all of theirs in front, the last one first, and of the other entries a prefix of their old order is left. */
  lemma OrderOfRequest(g: Config, w: World, op: Op, n: nat)
    requires Proper(op) && Accounted(w.cache, g.cap)
    requires op.Read? ==> var ids := IdsOf(op.pos, op.size);
             && n <= |ids| && (forall i | 0 <= i < n :: Cached(w.cache.files, BlockId(op.file, ids[i])).Some?)
             && (n < |ids| ==> Cached(w.cache.files, BlockId(op.file, ids[n])).None?)
    ensures var c, lru := w.cache, Perform(g, w, op).0.cache.lru;
            match op
            case Read(f, pos, size) =>
              var (ids, fills) := (IdsOf(pos, size), g.enabled && !AllCached(c, f, IdsOf(pos, size)));
              && (!fills ==> if g.fifo then lru == c.lru else MovedToFront(c, f, ids[..n], lru))
              && (fills && |ids| * BLOCK <= g.cap && |Plain(g, w.store, op).1.bytes| == |ids| * BLOCK ==> UsedAll(c, f, ids, lru))
            case Put(f, wr) =>
              var ids := IdsOf(wr.pos, |wr.data|);
              if !g.enabled then lru == c.lru else |wr.data| == |ids| * BLOCK <= g.cap ==> UsedAll(c, f, ids, lru)
  {
    hide Plain, Accounted, WriteToCache, ReadFromCache, IdsOf, MovedToFront, AllCached, Except;
    match op
    case Read(f, pos, size) =>
      var ids := IdsOf(pos, size);
      IdsConsecutive(pos, size);
      ReadUses(w.cache, f, ids, pos / BLOCK, n, g.cap);
      HitIff(w.cache, f, ids, g.cap, g.fifo);
      var l := ReadFromCache(w.cache, f, ids, g.cap, g.fifo);
      PlainRead(g, w.store, op);
      var d := Plain(g, w.store, op).1.bytes;
      if g.enabled && l.hit.None? && |d| == |ids| * BLOCK <= g.cap {
        FillOrder(l.cache, f, ids, pos / BLOCK, d, g.cap);
        if !g.fifo { MovedExcept(w.cache, f, ids, n, l.cache.lru); }
      }
    case Put(f, wr) =>
      var ids := IdsOf(wr.pos, |wr.data|);
      IdsConsecutive(wr.pos, |wr.data|);
      if g.enabled && |wr.data| == |ids| * BLOCK <= g.cap { FillOrder(w.cache, f, ids, wr.pos / BLOCK, wr.data, g.cap); }
  }

  ghost predicate UsedAll(c: Cache, f: Uuid, ids: seq<nat>, lru: seq<Entry>) {
    OwnInFront(lru, f, ids, |ids|) && lru[|ids|..] <= Except(c.lru, f, ids)
  }

  lemma IdsConsecutive(pos: uint32, size: uint32)
    ensures Consecutive(IdsOf(pos, size), pos / BLOCK)
  {
    forall i | 0 <= i < |IdsOf(pos, size)| ensures IdsOf(pos, size)[i] == pos / BLOCK + i { IdAt(BLOCK, pos, EndPos(pos, size), i); }
  }

  ghost predicate WholeBlocks(g: Config, pos: nat, size: nat) {
    pos % BLOCK == 0 && size % BLOCK == 0 && size <= g.cap && pos + size < 0x1_0000_0000
  }

  /** What makes the cached copy of a touched block right: after a commit it is the written part, after a
      refusal it is what was stored before. */
  ghost predicate RightCopy(g: Config, store: Store, f: Uuid, wr: Write, i: nat, b: nat, d: seq<byte>)
    requires Sized(wr)
  {
    if AllAgree(TxnOf(g.bs, wr), FileOf(store, f)) then d == Chunk(wr.data, i) else Matches(g.bs, FileOf(store, f), b, d)
  }

  /** The copy of the i-th block that a write leaves in the cache, told from the cache before it. */
  ghost function CopyLeft(g: Config, c: Cache, f: Uuid, wr: Write, i: nat): Option<seq<byte>>
    requires Sized(wr) && i < |IdsOf(wr.pos, |wr.data|)|
  {
    var ids := IdsOf(wr.pos, |wr.data|);
    if g.enabled then CopyAfter(c, f, ids, wr.data, i, g.cap) else Cached(c.files, BlockId(f, ids[i]))
  }

  ghost predicate LeavesRight(g: Config, w: World, f: Uuid, wr: Write)
    requires Sized(wr)
  {
    var ids := IdsOf(wr.pos, |wr.data|);
    forall i | 0 <= i < |ids| :: var r := CopyLeft(g, w.cache, f, wr, i); r.Some? ==> RightCopy(g, w.store, f, wr, i, ids[i], r.value)
  }

  /** Whole-block requests no larger than the cache: reads of stored bytes, and writes, committed or refused,
      that leave no wrong copy. */
  ghost predicate Legal(g: Config, w: World, op: Op) {
    && Proper(op)
    && match op
       case Read(f, pos, size) =>
         && WholeBlocks(g, pos, size)
         && forall a | pos <= a < pos + size :: ByteAt(g.bs, FileOf(w.store, f), a).Some?
       case Put(f, wr) => WholeBlocks(g, wr.pos, |wr.data|) && LeavesRight(g, w, f, wr)
  }

  lemma WholeBlockIds(pos: uint32, size: uint32)
    requires pos % BLOCK == 0 && size % BLOCK == 0 && pos + size < 0x1_0000_0000
    ensures |IdsOf(pos, size)| * BLOCK == size && Consecutive(IdsOf(pos, size), pos / BLOCK) && pos == (pos / BLOCK) * BLOCK
    ensures forall n: nat | pos <= n * BLOCK < pos + size :: n in IdsOf(pos, size)
  {
    if size > 0 { IdCount(BLOCK, pos, pos + size); }
    forall i | 0 <= i < |IdsOf(pos, size)| ensures IdsOf(pos, size)[i] == pos / BLOCK + i { IdAt(BLOCK, pos, pos + size, i); }
    forall n: nat | pos <= n * BLOCK < pos + size ensures n in IdsOf(pos, size) { assert IdsOf(pos, size)[n - pos / BLOCK] == n; }
  }

  lemma ReadStep(g: Config, w: World, op: Op)
    requires op.Read? && Legal(g, w, op) && Inv(g.bs, w.cache, w.store, g.cap)
    ensures var r := Perform(g, w, op);
            && r.1 == Plain(g, w.store, op).1 && r.0.store == w.store
            && Inv(g.bs, r.0.cache, w.store, g.cap)
  {
    hide ByteAt, ReadResult, WriteToCache, ReadBlocks, IdsOf, Accounted, Coherent;
    var Read(f, pos, size) := op;
    var blocks, ids := FileOf(w.store, f), IdsOf(pos, size);
    WholeBlockIds(pos, size);
    ReadBack(g.bs, blocks, pos, size);
    var buf := ReadResult(g.bs, blocks, pos, size);
    assert Matches(g.bs, blocks, pos / BLOCK, buf);
    if f in w.cache.files { ReadBlocksExact(g.bs, w.cache, w.store, f, ids, pos / BLOCK, g.cap, g.fifo); }
    var l := ReadFromCache(w.cache, f, ids, g.cap, g.fifo);
    if l.hit.Some? {
      MatchesSame(g.bs, blocks, pos / BLOCK, buf, l.hit.value);
    } else {
      WriteToCacheInv(g.bs, l.cache, w.store, f, ids, pos / BLOCK, buf, g.cap);
    }
  }

  lemma MatchesSame(bs: BlockSize, blocks: Blocks, first: nat, a: seq<byte>, b: seq<byte>)
    requires |a| == |b| && Matches(bs, blocks, first, a) && Matches(bs, blocks, first, b)
    ensures a == b
  {
    hide ByteAt;
    forall j | 0 <= j < |a| ensures a[j] == b[j] { assert ByteAt(bs, blocks, first * BLOCK + j) == Some(a[j]); }
  }

  /** A committed whole-block write stores its bytes ... */
  lemma PutStores(bs: BlockSize, blocks: Blocks, wr: Write)
    requires Sized(wr) && Fits(wr) && AllAgree(TxnOf(bs, wr), blocks) && wr.pos % BLOCK == 0
    ensures Matches(bs, Outcome(TxnOf(bs, wr), blocks), wr.pos / BLOCK, wr.data)
  {
    hide ByteAt, TxnOf, Outcome, AllAgree;
    var first := wr.pos / BLOCK;
    forall j | 0 <= j < |wr.data| ensures ByteAt(bs, Outcome(TxnOf(bs, wr), blocks), first * BLOCK + j) == Some(wr.data[j]) {
      WriteRefinesFlat(bs, wr, blocks, first * BLOCK + j);
    }
  }

  /** ... and leaves the bytes of every other block. */
  lemma PutKeeps(bs: BlockSize, blocks: Blocks, wr: Write, n: nat, d: seq<byte>)
    requires Sized(wr) && Fits(wr) && wr.pos % BLOCK == 0 && |wr.data| % BLOCK == 0
    requires n !in IdsOf(wr.pos, |wr.data|) && |d| == BLOCK && Matches(bs, blocks, n, d)
    ensures Matches(bs, Outcome(TxnOf(bs, wr), blocks), n, d)
  {
    hide ByteAt, TxnOf, Outcome, AllAgree, IdsOf;
    WholeBlockIds(wr.pos, |wr.data|);
    forall j | 0 <= j < |d| ensures ByteAt(bs, Outcome(TxnOf(bs, wr), blocks), n * BLOCK + j) == Some(d[j]) {
      BlockIsElsewhere(wr.pos, |wr.data|, n, j);
      WriteRefinesFlat(bs, wr, blocks, n * BLOCK + j);
    }
  }

  lemma BlockIsElsewhere(pos: uint32, size: uint32, n: nat, j: nat)
    requires pos % BLOCK == 0 && size % BLOCK == 0 && pos + size < 0x1_0000_0000 && n !in IdsOf(pos, size) && j < BLOCK
    ensures !(pos <= n * BLOCK + j < pos + size)
  {
    hide IdsOf;
    WholeBlockIds(pos, size);
  }

  /** Only the copies of the touched blocks matter. */
  lemma CopiesDecide(g: Config, w: World, f: Uuid, wr: Write)
    requires Sized(wr) && Inv(g.bs, w.cache, w.store, g.cap) && WholeBlocks(g, wr.pos, |wr.data|)
    ensures var w', ids := Perform(g, w, Put(f, wr)).0, IdsOf(wr.pos, |wr.data|);
            Coherent(g.bs, w'.cache, w'.store) <==>
            forall i | 0 <= i < |ids| :: var r := Cached(w'.cache.files, BlockId(f, ids[i])); r.Some? ==> RightCopy(g, w.store, f, wr, i, ids[i], r.value)
  {
    hide WriteToCache, Cached, Accounted, Matches, TxnOf, Outcome, AllAgree, IdsOf, Chunk, RightCopy;
    var w', ids, first := Perform(g, w, Put(f, wr)).0, IdsOf(wr.pos, |wr.data|), wr.pos / BLOCK;
    WholeBlockIds(wr.pos, |wr.data|);
    forall k | Cached(w'.cache.files, k).Some? && !(k.uuid == f && k.block in ids)
      ensures var d := Cached(w'.cache.files, k).value; |d| == BLOCK && Matches(g.bs, FileOf(w'.store, k.uuid), k.block, d)
    {
      UntouchedStays(g, w, f, wr, k);
    }
    forall i | 0 <= i < |ids| && Cached(w'.cache.files, BlockId(f, ids[i])).Some?
      ensures var d := Cached(w'.cache.files, BlockId(f, ids[i])).value;
              |d| == BLOCK && (Matches(g.bs, FileOf(w'.store, f), ids[i], d) <==> RightCopy(g, w.store, f, wr, i, ids[i], d))
    {
      TouchedCopy(g, w, f, wr, i);
    }
    if forall i | 0 <= i < |ids| :: var r := Cached(w'.cache.files, BlockId(f, ids[i])); r.Some? ==> RightCopy(g, w.store, f, wr, i, ids[i], r.value) {
      forall k | Cached(w'.cache.files, k).Some?
        ensures var d := Cached(w'.cache.files, k).value; |d| == BLOCK && Matches(g.bs, FileOf(w'.store, k.uuid), k.block, d)
      {
        if k.uuid == f && k.block in ids { var i :| 0 <= i < |ids| && ids[i] == k.block; assert k == BlockId(f, ids[i]); }
      }
    }
  }

  lemma UntouchedStays(g: Config, w: World, f: Uuid, wr: Write, k: BlockId)
    requires Sized(wr) && Inv(g.bs, w.cache, w.store, g.cap) && WholeBlocks(g, wr.pos, |wr.data|)
    requires !(k.uuid == f && k.block in IdsOf(wr.pos, |wr.data|))
    requires Cached(Perform(g, w, Put(f, wr)).0.cache.files, k).Some?
    ensures var w' := Perform(g, w, Put(f, wr)).0; var d := Cached(w'.cache.files, k).value;
            |d| == BLOCK && Matches(g.bs, FileOf(w'.store, k.uuid), k.block, d)
  {
    hide WriteToCache, Cached, Accounted, Matches, TxnOf, Outcome, AllAgree, IdsOf, Chunk;
    FillPuts(w.cache, f, IdsOf(wr.pos, |wr.data|), wr.data, g.cap, k);
    var d := Cached(w.cache.files, k).value;
    if k.uuid == f { PutKeeps(g.bs, FileOf(w.store, f), wr, k.block, d); }
  }

  lemma TouchedCopy(g: Config, w: World, f: Uuid, wr: Write, i: nat)
    requires Sized(wr) && Inv(g.bs, w.cache, w.store, g.cap) && WholeBlocks(g, wr.pos, |wr.data|)
    requires i < |IdsOf(wr.pos, |wr.data|)| && Cached(Perform(g, w, Put(f, wr)).0.cache.files, BlockId(f, IdsOf(wr.pos, |wr.data|)[i])).Some?
    ensures var w', b := Perform(g, w, Put(f, wr)).0, IdsOf(wr.pos, |wr.data|)[i];
            var d := Cached(w'.cache.files, BlockId(f, b)).value;
            |d| == BLOCK && (Matches(g.bs, FileOf(w'.store, f), b, d) <==> RightCopy(g, w.store, f, wr, i, b, d))
  {
    hide WriteToCache, Cached, Accounted, Matches, TxnOf, Outcome, AllAgree, IdsOf, Chunk;
    var ids, first, blocks := IdsOf(wr.pos, |wr.data|), wr.pos / BLOCK, FileOf(w.store, f);
    var after := Outcome(TxnOf(g.bs, wr), blocks);
    WholeBlockIds(wr.pos, |wr.data|);
    FillPutsChunk(w.cache, f, ids, first, wr.data, g.cap, i);
    ChunkWhole(wr.data, |ids|, i);
    var d := Cached(Perform(g, w, Put(f, wr)).0.cache.files, BlockId(f, ids[i])).value;
    if AllAgree(TxnOf(g.bs, wr), blocks) {
      PutStores(g.bs, blocks, wr);
      ChunkMatches(g.bs, after, first, wr.data, |ids|, i);
      if Matches(g.bs, after, ids[i], d) { MatchesSame(g.bs, after, ids[i], d, Chunk(wr.data, i)); }
    } else {
      RefusedKeepsBytes(g.bs, blocks, wr, ids[i], d);
    }
  }

  lemma RefusedKeepsBytes(bs: BlockSize, blocks: Blocks, wr: Write, b: nat, d: seq<byte>)
    requires Sized(wr) && !AllAgree(TxnOf(bs, wr), blocks)
    ensures Matches(bs, Outcome(TxnOf(bs, wr), blocks), b, d) <==> Matches(bs, blocks, b, d)
  {
    hide ByteAt, TxnOf, Outcome, AllAgree;
    forall a: nat ensures ByteAt(bs, Outcome(TxnOf(bs, wr), blocks), a) == ByteAt(bs, blocks, a) {
      WriteRefinesFlat(bs, wr, blocks, a);
    }
  }

  /** Any whole-block write keeps the books of a coherent cache, and keeps it coherent exactly when every copy
      that it leaves of a touched block is right; the cache before the write tells these copies. */
  lemma PutIsCoherentIff(g: Config, w: World, f: Uuid, wr: Write)
    requires Sized(wr) && Inv(g.bs, w.cache, w.store, g.cap) && WholeBlocks(g, wr.pos, |wr.data|)
    ensures var w', ids := Perform(g, w, Put(f, wr)).0, IdsOf(wr.pos, |wr.data|);
            && (forall i | 0 <= i < |ids| :: Cached(w'.cache.files, BlockId(f, ids[i])) == CopyLeft(g, w.cache, f, wr, i))
            && Accounted(w'.cache, g.cap)
            && (Coherent(g.bs, w'.cache, w'.store) <==> LeavesRight(g, w, f, wr))
  {
    hide WriteToCache, Cached, Accounted, Matches, TxnOf, Outcome, AllAgree, IdsOf, CopyAfter, RightCopy;
    var ids := IdsOf(wr.pos, |wr.data|);
    WholeBlockIds(wr.pos, |wr.data|);
    FillBooked(w.cache, f, ids, wr.pos / BLOCK, wr.data, g.cap);
    forall i | 0 <= i < |ids|
      ensures Cached(Perform(g, w, Put(f, wr)).0.cache.files, BlockId(f, ids[i])) == CopyLeft(g, w.cache, f, wr, i)
    {
      FillCopies(w.cache, f, ids, wr.pos / BLOCK, wr.data, g.cap, i);
    }
    CopiesDecide(g, w, f, wr);
  }

  ghost predicate LegalRun(g: Config, w: World, ops: seq<Op>)
    decreases |ops|
  {
    ops != [] ==> Legal(g, w, ops[0]) && LegalRun(g, Perform(g, w, ops[0]).0, ops[1..])
  }

  ghost function Answers(g: Config, w: World, ops: seq<Op>): seq<Answer>
    requires LegalRun(g, w, ops)
    decreases |ops|
  {
    if ops == [] then [] else [Perform(g, w, ops[0]).1] + Answers(g, Perform(g, w, ops[0]).0, ops[1..])
  }

  ghost function PlainAnswers(g: Config, store: Store, ops: seq<Op>): seq<Answer>
    requires forall op | op in ops :: Proper(op)
    decreases |ops|
  {
    if ops == [] then [] else [Plain(g, store, ops[0]).1] + PlainAnswers(g, Plain(g, store, ops[0]).0, ops[1..])
  }

  lemma {:induction false} LegalIsProper(g: Config, w: World, ops: seq<Op>)
    requires LegalRun(g, w, ops)
    ensures forall op | op in ops :: Proper(op)
    decreases |ops|
  {
    if ops != [] { LegalIsProper(g, Perform(g, w, ops[0]).0, ops[1..]); }
  }

  /** Over every legal run, on hits, partial hits and misses alike, clients get exactly the answers
      that the backend alone would have given. */
  lemma {:induction false} CacheIsTransparent(g: Config, w: World, ops: seq<Op>)
    requires LegalRun(g, w, ops) && Inv(g.bs, w.cache, w.store, g.cap)
    ensures (forall op | op in ops :: Proper(op)) && Answers(g, w, ops) == PlainAnswers(g, w.store, ops)
    decreases |ops|
  {
    hide Inv, Legal;
    LegalIsProper(g, w, ops);
    if ops != [] {
      StepKeeps(g, w, ops[0]);
      CacheIsTransparent(g, Perform(g, w, ops[0]).0, ops[1..]);
    }
  }

  lemma PutStep(g: Config, w: World, op: Op)
    requires op.Put? && Legal(g, w, op) && Inv(g.bs, w.cache, w.store, g.cap)
    ensures var r := Perform(g, w, op); Inv(g.bs, r.0.cache, r.0.store, g.cap)
  {
    hide Perform, Accounted, Coherent, LeavesRight;
    PutIsCoherentIff(g, w, op.file, op.write);
  }

  /** One request: the same answer and the same store as the backend alone, and the books stay kept. */
  lemma StepKeeps(g: Config, w: World, op: Op)
    requires Legal(g, w, op) && Inv(g.bs, w.cache, w.store, g.cap)
    ensures var r, p := Perform(g, w, op), Plain(g, w.store, op);
            r.1 == p.1 && r.0.store == p.0 && Inv(g.bs, r.0.cache, r.0.store, g.cap)
  {
    hide Inv, Plain, ReadFromCache, WriteToCache;
    if op.Read? { ReadStep(g, w, op); PlainRead(g, w.store, op); } else { PutStep(g, w, op); }
  }

  lemma PlainRead(g: Config, store: Store, op: Op)
    requires Proper(op) && op.Read?
    ensures Plain(g, store, op).0 == store && Plain(g, store, op).1.Content?
  {
  }

  /** An empty cache starts such a run. */
  lemma EmptyCacheInv(bs: BlockSize, store: Store, cap: nat)
    ensures Inv(bs, Cache([], map[]), store, cap)
  {
  }
}
