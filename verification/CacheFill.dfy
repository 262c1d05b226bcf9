/** What filling the cache does to the LRU order and to the cached bytes, whatever bytes they are. */
module CacheFill {
  import opened Bytes
  import opened Striping
  import opened LogStore
  import opened Lru
  import opened LruList
  import opened CacheModel

  // ---- what evictions do to the cached bytes

  ghost predicate HasKey(es: seq<Entry>, k: BlockId) { exists e | e in es :: e.key == k }

  lemma HasKeyStep(es: seq<Entry>, k: BlockId)
    requires es != []
    ensures HasKey(es, k) <==> es[0].key == k || HasKey(es[1..], k)
  {
    assert es == [es[0]] + es[1..] && es[0] in es;
    if HasKey(es[1..], k) { var e :| e in es[1..] && e.key == k; assert e in es; }
  }

  lemma DropBlockLookup(fs: Files, dropped: BlockId, k: BlockId)
    ensures Cached(DropBlock(fs, dropped), k) == if dropped == k then None else Cached(fs, k)
    ensures k.uuid !in fs ==> k.uuid !in DropBlock(fs, dropped)
  {
    if k.uuid == dropped.uuid && Cached(fs, k).Some? && k != dropped {
      assert k.block in fs[k.uuid] - {dropped.block};
    }
  }

  /** Only the file of the last block goes with it. */
  lemma DropBlockFiles(fs: Files, dropped: BlockId, u: Uuid)
    ensures u in DropBlock(fs, dropped) <==> u in fs && !(u == dropped.uuid && forall b | b in fs[u] :: b == dropped.block)
  {
    if u in fs && u == dropped.uuid {
      if b :| b in fs[u] && b != dropped.block { assert b in fs[u] - {dropped.block}; }
      else { assert fs[u] - {dropped.block} == map[]; }
    }
  }

  lemma {:induction false} DropAllLookup(fs: Files, es: seq<Entry>, k: BlockId)
    ensures Cached(DropAll(fs, es), k) == if HasKey(es, k) then None else Cached(fs, k)
    ensures k.uuid !in fs ==> k.uuid !in DropAll(fs, es)
    decreases |es|
  {
    if es != [] {
      DropAllLookup(fs, es[1..], k);
      HasKeyStep(es, k);
      DropBlockLookup(DropAll(fs, es[1..]), es[0].key, k);
    }
  }

  /** Every cached block has an LRU entry of its own size, and the LRU keeps its budget. */
  ghost predicate Accounted(c: Cache, cap: nat) {
    && DistinctKeys(c.lru) && Total(c.lru) <= cap
    && forall k | Cached(c.files, k).Some? :: Entry(k, |Cached(c.files, k).value|) in c.lru
  }

  /** Using an entry keeps the books, drops nothing that stays listed, and adds no bytes. */
  lemma TouchAccounted(c: Cache, e: Entry, cap: nat)
    requires Accounted(c, cap) && e.size <= cap
    requires Cached(c.files, e.key).Some? ==> |Cached(c.files, e.key).value| == e.size
    ensures Accounted(Touch(c, e, cap), cap) && e in Touch(c, e, cap).lru
    ensures forall k | Cached(Touch(c, e, cap).files, k).Some? :: Cached(Touch(c, e, cap).files, k) == Cached(c.files, k)
    ensures forall u | u !in c.files :: u !in Touch(c, e, cap).files
  {
    hide Without, Fit, DropAll, Cached;
    var t, w := Touch(c, e, cap), Without(c.lru, e.key);
    UseKeepsOrder(c.lru, e, cap);
    WithoutKeys(c.lru, e.key);
    FitIsPrefix(w, cap - e.size);
    var keep := Fit(w, cap - e.size);
    assert w == keep + Evicted(c.lru, e, cap);
    forall k | Cached(t.files, k).Some?
      ensures Cached(t.files, k) == Cached(c.files, k) && Entry(k, |Cached(t.files, k).value|) in t.lru
    {
      DropAllLookup(c.files, Evicted(c.lru, e, cap), k);
      var x := Entry(k, |Cached(c.files, k).value|);
      assert x in c.lru && (k == e.key || x in w);
    }
    forall u | u !in c.files ensures u !in t.files { DropAllLookup(c.files, Evicted(c.lru, e, cap), BlockId(u, 0)); }
  }

  /** A cache hit never evicts anything. */
  lemma HitEvictsNothing(c: Cache, k: BlockId, cap: nat)
    requires Accounted(c, cap) && Cached(c.files, k).Some?
    ensures var e := Entry(k, |Cached(c.files, k).value|);
            e.size <= cap && Evicted(c.lru, e, cap) == [] && Touch(c, e, cap).files == c.files
  {
    var e := Entry(k, |Cached(c.files, k).value|);
    var i :| 0 <= i < |c.lru| && c.lru[i] == e;
    RemoveAt(c.lru, i);
    assert Total(Without(c.lru, k)) == Total(c.lru) - e.size;
  }

  /** Whatever distinct cached blocks one picks, together they fit into the capacity. */
  lemma CachedBytesFit(c: Cache, ks: seq<BlockId>, cap: nat)
    requires Accounted(c, cap)
    requires forall i | 0 <= i < |ks| :: Cached(c.files, ks[i]).Some?
    requires forall i, j | 0 <= i < j < |ks| :: ks[i] != ks[j]
    ensures Total(Sizes(c, ks)) <= cap
  {
    SizesAt(c, ks);
    SubsetTotal(Sizes(c, ks), c.lru);
  }

  function Sizes(c: Cache, ks: seq<BlockId>): seq<Entry> {
    seq(|ks|, i requires 0 <= i < |ks| =>
      Entry(ks[i], if Cached(c.files, ks[i]).Some? then |Cached(c.files, ks[i]).value| else 0))
  }

  lemma SizesAt(c: Cache, ks: seq<BlockId>)
    requires forall i | 0 <= i < |ks| :: Cached(c.files, ks[i]).Some? && Entry(ks[i], |Cached(c.files, ks[i]).value|) in c.lru
    requires forall i, j | 0 <= i < j < |ks| :: ks[i] != ks[j]
    ensures DistinctKeys(Sizes(c, ks)) && forall e | e in Sizes(c, ks) :: e in c.lru
  {
  }

  lemma {:induction false} SubsetTotal(a: seq<Entry>, b: seq<Entry>)
    requires DistinctKeys(a) && DistinctKeys(b) && forall e | e in a :: e in b
    ensures Total(a) <= Total(b)
    decreases |a|
  {
    if a != [] {
      var n := |a| - 1;
      assert a[n] in a;
      var i :| 0 <= i < |b| && b[i] == a[n];
      RemoveAt(b, i);
      var b' := b[..i] + b[i + 1..];
      forall e | e in a[..n] ensures e in b' {
        assert e in a && e in b && e != b[i];
      }
      SubsetTotal(a[..n], b');
    }
  }

  // ---- requests for consecutive blocks

  ghost predicate Consecutive(ids: seq<nat>, first: nat) {
    forall i | 0 <= i < |ids| :: ids[i] == first + i
  }

  lemma ChunkWhole(data: seq<byte>, n: nat, i: nat)
    requires |data| == n * BLOCK && i < n
    ensures |Chunk(data, i)| == BLOCK
  {
    MulMono(i + 1, n, BLOCK);
  }

  /** The first entries of the LRU are the blocks this request has used, the last one in front. */
  ghost predicate OwnInFront(lru: seq<Entry>, uuid: Uuid, ids: seq<nat>, i: nat) {
    && i <= |lru| && i <= |ids|
    && forall j | 0 <= j < i :: lru[j] == Entry(BlockId(uuid, ids[i - 1 - j]), BLOCK)
  }

  lemma {:induction false} OwnTotal(lru: seq<Entry>, i: nat)
    requires i <= |lru| && forall j | 0 <= j < i :: lru[j].size == BLOCK
    ensures Total(lru[..i]) == i * BLOCK
  {
    if i > 0 {
      OwnTotal(lru, i - 1);
      assert lru[..i][..i - 1] == lru[..i - 1];
    }
  }

  /** A request no larger than the cache never evicts its own blocks. */
  lemma OwnStaysInFront(lru: seq<Entry>, uuid: Uuid, ids: seq<nat>, i: nat, cap: nat)
    requires OwnInFront(lru, uuid, ids, i) && i < |ids| && (i + 1) * BLOCK <= cap
    requires forall j | 0 <= j < i :: ids[j] != ids[i]
    ensures OwnInFront(Use(lru, Entry(BlockId(uuid, ids[i]), BLOCK), cap), uuid, ids, i + 1)
  {
    hide Without, Fit;
    var k := BlockId(uuid, ids[i]);
    var own, w := lru[..i], Without(lru, k);
    OwnTotal(lru, i);
    WithoutAbsent(own, k);
    WithoutPrefix(own, lru, k);
    FitIsPrefix(w, cap - BLOCK);
    assert w[..i] == own;
    FitIsLongest(w, cap - BLOCK, i);
  }

  lemma TouchLru(c: Cache, e: Entry, cap: nat)
    requires e.size <= cap
    ensures Touch(c, e, cap).lru == Use(c.lru, e, cap)
  {
  }

  lemma NoBlocks(c: Cache, uuid: Uuid, data: seq<byte>, cap: nat)
    ensures AddBlocks(c, uuid, [], data, 0, cap) == c
  {
  }

  // ---- what reading from the cache does

  /** Every block of the request is cached; a request without blocks needs at least its file. */
  ghost predicate AllCached(c: Cache, uuid: Uuid, ids: seq<nat>) {
    uuid in c.files && forall i | 0 <= i < |ids| :: Cached(c.files, BlockId(uuid, ids[i])).Some?
  }

  /** The cached bytes of these blocks, one after the other. */
  ghost function Joined(c: Cache, uuid: Uuid, ids: seq<nat>): seq<byte>
    requires AllCached(c, uuid, ids)
  {
    if ids == [] then [] else Joined(c, uuid, ids[..|ids| - 1]) + Cached(c.files, BlockId(uuid, ids[|ids| - 1])).value
  }

  /** A read hits exactly when all of its blocks are cached, and then it gets their bytes; it changes no cached byte. */
  lemma HitIff(c: Cache, uuid: Uuid, ids: seq<nat>, cap: nat, fifo: bool)
    requires Accounted(c, cap)
    ensures var r := ReadFromCache(c, uuid, ids, cap, fifo);
            && (r.hit.Some? <==> AllCached(c, uuid, ids)) && (r.hit.Some? ==> r.hit.value == Joined(c, uuid, ids))
            && r.cache.files == c.files && Accounted(r.cache, cap)
  {
    hide ReadBlocks, Accounted;
    if uuid in c.files { BlocksHit(c, uuid, ids, cap, fifo); }
  }

  lemma {:induction false} BlocksHit(c: Cache, uuid: Uuid, ids: seq<nat>, cap: nat, fifo: bool)
    requires Accounted(c, cap) && uuid in c.files
    ensures var r := ReadBlocks(c, uuid, ids, cap, fifo);
            && (r.hit.Some? <==> AllCached(c, uuid, ids)) && (r.hit.Some? ==> r.hit.value == Joined(c, uuid, ids))
            && r.cache.files == c.files && Accounted(r.cache, cap)
    decreases |ids|
  {
    hide Touch, Cached, Accounted;
    if ids != [] && Cached(c.files, BlockId(uuid, ids[0])).Some? {
      var k, rest := BlockId(uuid, ids[0]), ids[1..];
      var d := Cached(c.files, k).value;
      HitEvictsNothing(c, k, cap);
      TouchAccounted(c, Entry(k, |d|), cap);
      var c1 := if fifo then c else Touch(c, Entry(k, |d|), cap);
      BlocksHit(c1, uuid, rest, cap, fifo);
      forall i | 0 < i < |ids| ensures ids[i] == rest[i - 1] {}
      if AllCached(c1, uuid, rest) {
        forall i | 0 <= i < |ids| ensures Cached(c.files, BlockId(uuid, ids[i])).Some? { if i > 0 { assert ids[i] == rest[i - 1]; } }
        JoinedSame(c, c1, uuid, rest);
        JoinedFront(c, uuid, ids);
      }
    }
  }

  lemma {:induction false} JoinedSame(c: Cache, c': Cache, uuid: Uuid, ids: seq<nat>)
    requires AllCached(c, uuid, ids) && AllCached(c', uuid, ids) && c.files == c'.files
    ensures Joined(c, uuid, ids) == Joined(c', uuid, ids)
    decreases |ids|
  {
    if ids != [] { JoinedSame(c, c', uuid, ids[..|ids| - 1]); }
  }

  lemma {:induction false} JoinedFront(c: Cache, uuid: Uuid, ids: seq<nat>)
    requires AllCached(c, uuid, ids) && ids != []
    ensures AllCached(c, uuid, ids[1..]) && Joined(c, uuid, ids) == Cached(c.files, BlockId(uuid, ids[0])).value + Joined(c, uuid, ids[1..])
    decreases |ids|
  {
    hide Cached;
    var n := |ids| - 1;
    if n == 0 {
      assert ids[..0] == [] && ids[1..] == [];
      assert Joined(c, uuid, ids) == [] + Cached(c.files, BlockId(uuid, ids[0])).value;
    } else {
      JoinedFront(c, uuid, ids[..n]);
      assert ids[..n][1..] == ids[1..][..n - 1] && ids[1..][n - 1] == ids[n] && ids[..n][0] == ids[0];
    }
  }

  predicate Among(k: BlockId, uuid: Uuid, ids: seq<nat>) { k.uuid == uuid && k.block in ids }

  /** The entries other than those of the given blocks, in their order. */
  function Except(es: seq<Entry>, uuid: Uuid, ids: seq<nat>): seq<Entry> {
    if es == [] then []
    else
      var e := es[|es| - 1];
      Except(es[..|es| - 1], uuid, ids) + if Among(e.key, uuid, ids) then [] else [e]
  }

  /** The order starts with these blocks of the request, the last one in front, each with its cached size; the
      other entries follow in their old order. */
  ghost predicate MovedToFront(c: Cache, uuid: Uuid, ids: seq<nat>, lru: seq<Entry>) {
    && |ids| <= |lru| && lru[|ids|..] == Except(c.lru, uuid, ids)
    && forall j | 0 <= j < |ids| :: Lists(c.files, BlockId(uuid, ids[|ids| - 1 - j]), lru[j])
  }

  /** The entry of a cached block. */
  ghost predicate Lists(fs: Files, k: BlockId, e: Entry) {
    Cached(fs, k).Some? && e == Entry(k, |Cached(fs, k).value|)
  }

  /** What a read does to the order.  Under FIFO nothing.  Under LRU it uses the blocks up to the first one that is
      not cached, hit or miss, and no others. */
  lemma ReadUses(c: Cache, uuid: Uuid, ids: seq<nat>, first: nat, n: nat, cap: nat)
    requires Accounted(c, cap) && Consecutive(ids, first) && n <= |ids|
    requires forall i | 0 <= i < n :: Cached(c.files, BlockId(uuid, ids[i])).Some?
    requires n < |ids| ==> Cached(c.files, BlockId(uuid, ids[n])).None?
    ensures ReadFromCache(c, uuid, ids, cap, true).cache == c
    ensures MovedToFront(c, uuid, ids[..n], ReadFromCache(c, uuid, ids, cap, false).cache.lru)
  {
    hide ReadBlocks, Accounted, Except;
    FifoReadsOnly(c, uuid, ids, cap);
    if uuid in c.files {
      BlocksUse(c, uuid, ids, first, n, cap);
    } else {
      assert n > 0 ==> Cached(c.files, BlockId(uuid, ids[0])).Some?;
      assert ids[..0] == [];
      ExceptNothing(c.lru, uuid);
    }
  }

  lemma {:induction false} FifoReadsOnly(c: Cache, uuid: Uuid, ids: seq<nat>, cap: nat)
    ensures ReadBlocks(c, uuid, ids, cap, true).cache == c
    decreases |ids|
  {
    if ids != [] && Cached(c.files, BlockId(uuid, ids[0])).Some? { FifoReadsOnly(c, uuid, ids[1..], cap); }
  }

  lemma {:induction false} BlocksUse(c: Cache, uuid: Uuid, ids: seq<nat>, first: nat, n: nat, cap: nat)
    requires Accounted(c, cap) && Consecutive(ids, first) && n <= |ids|
    requires forall i | 0 <= i < n :: Cached(c.files, BlockId(uuid, ids[i])).Some?
    requires n < |ids| ==> Cached(c.files, BlockId(uuid, ids[n])).None?
    ensures MovedToFront(c, uuid, ids[..n], ReadBlocks(c, uuid, ids, cap, false).cache.lru)
    decreases |ids|
  {
    hide Touch, Accounted, Except, Cached, MovedToFront, Lists, ReadBlocks;
    if n == 0 {
      ReadStops(c, uuid, ids, cap);
      NothingMoved(c, uuid);
      assert ids[..0] == [];
    } else {
      var k := BlockId(uuid, ids[0]);
      var e := Entry(k, |Cached(c.files, k).value|);
      var c1 := Touch(c, e, cap);
      HitEvictsNothing(c, k, cap);
      TouchAccounted(c, e, cap);
      ReadGoesOn(c, uuid, ids, cap);
      forall i | 0 <= i < n - 1 ensures Cached(c1.files, BlockId(uuid, ids[1..][i])).Some? { assert ids[1..][i] == ids[i + 1]; }
      BlocksUse(c1, uuid, ids[1..], first + 1, n - 1, cap);
      HitMovesToFront(c, k, cap);
      assert ids[1..][..n - 1] == ids[..n][1..];
      ListsIt(c.files, k);
      MovedFirst(c, c1, e, uuid, ids[..n], first, ReadBlocks(c1, uuid, ids[1..], cap, false).cache.lru);
    }
  }

  lemma ReadStops(c: Cache, uuid: Uuid, ids: seq<nat>, cap: nat)
    requires ids != [] ==> Cached(c.files, BlockId(uuid, ids[0])).None?
    ensures ReadBlocks(c, uuid, ids, cap, false).cache == c
  {
  }

  lemma ReadGoesOn(c: Cache, uuid: Uuid, ids: seq<nat>, cap: nat)
    requires ids != [] && Cached(c.files, BlockId(uuid, ids[0])).Some?
    ensures var k := BlockId(uuid, ids[0]);
            ReadBlocks(c, uuid, ids, cap, false).cache
            == ReadBlocks(Touch(c, Entry(k, |Cached(c.files, k).value|), cap), uuid, ids[1..], cap, false).cache
  {
  }

  lemma NothingMoved(c: Cache, uuid: Uuid)
    ensures MovedToFront(c, uuid, [], c.lru)
  {
    hide Except;
    ExceptNothing(c.lru, uuid);
  }

  lemma HitMovesToFront(c: Cache, k: BlockId, cap: nat)
    requires Accounted(c, cap) && Cached(c.files, k).Some?
    ensures var e := Entry(k, |Cached(c.files, k).value|); Touch(c, e, cap).lru == [e] + Without(c.lru, k)
  {
    hide Without, Fit;
    HitEvictsNothing(c, k, cap);
    var e := Entry(k, |Cached(c.files, k).value|);
    FitIsPrefix(Without(c.lru, k), cap - e.size);
  }

  lemma MovedFirst(c: Cache, c1: Cache, e: Entry, uuid: Uuid, ids: seq<nat>, first: nat, lru: seq<Entry>)
    requires Consecutive(ids, first) && ids != [] && c1.files == c.files && c1.lru == [e] + Without(c.lru, e.key)
    requires Lists(c.files, BlockId(uuid, ids[0]), e)
    requires MovedToFront(c1, uuid, ids[1..], lru)
    ensures MovedToFront(c, uuid, ids, lru)
  {
    hide Cached, Except, Lists;
    assert e.key == BlockId(uuid, ids[0]) by { EntryKey(c.files, BlockId(uuid, ids[0]), e); }
    var rest := ids[1..];
    assert !Among(e.key, uuid, rest);
    ExceptFront(e, Without(c.lru, e.key), uuid, rest);
    ExceptOneMore(c.lru, uuid, ids);
    var m := |rest|;
    assert lru[m..] == [e] + Except(Without(c.lru, e.key), uuid, rest);
    assert |lru[m..]| == |lru| - m;
    assert lru[m] == lru[m..][0] && lru[m + 1..] == lru[m..][1..];
    assert |ids| == m + 1;
    forall j | 0 <= j < |ids| ensures Lists(c.files, BlockId(uuid, ids[m - j]), lru[j]) {
      if j < m { assert ids[m - j] == rest[m - 1 - j]; }
    }
  }

  lemma ListsIt(fs: Files, k: BlockId)
    requires Cached(fs, k).Some?
    ensures Lists(fs, k, Entry(k, |Cached(fs, k).value|))
  {
  }

  lemma EntryKey(fs: Files, k: BlockId, e: Entry)
    requires Lists(fs, k, e)
    ensures e.key == k
  {
  }

  /** The functions on orders, one entry further. */
  lemma OrderUnfolds(es: seq<Entry>, uuid: Uuid, ids: seq<nat>, k: BlockId)
    requires es != []
    ensures var front, last := es[..|es| - 1], es[|es| - 1];
            && Except(es, uuid, ids) == Except(front, uuid, ids) + (if Among(last.key, uuid, ids) then [] else [last])
            && Without(es, k) == Without(front, k) + if last.key == k then [] else [last]
  {
  }

  lemma OrderOfNone(uuid: Uuid, ids: seq<nat>, k: BlockId)
    ensures Except([], uuid, ids) == [] && Without([], k) == []
  {
  }

  lemma WithoutOne(e: Entry, k: BlockId)
    ensures Without([e], k) == if e.key == k then [] else [e]
  {
    assert [e][..0] == [];
    OrderOfNone(k.uuid, [], k);
  }

  lemma {:induction false} ExceptNothing(es: seq<Entry>, uuid: Uuid)
    ensures Except(es, uuid, []) == es
    decreases |es|
  {
    if es == [] { OrderOfNone(uuid, [], BlockId(uuid, 0)); } else {
      OrderUnfolds(es, uuid, [], BlockId(uuid, 0));
      hide Except;
      ExceptNothing(es[..|es| - 1], uuid);
      assert es == es[..|es| - 1] + [es[|es| - 1]];
    }
  }

  lemma {:induction false} ExceptFront(e: Entry, es: seq<Entry>, uuid: Uuid, ids: seq<nat>)
    requires !Among(e.key, uuid, ids)
    ensures Except([e] + es, uuid, ids) == [e] + Except(es, uuid, ids)
    decreases |es|
  {
    hide Among, Except, Without;
    var all := [e] + es;
    OrderUnfolds(all, uuid, ids, e.key);
    OrderOfNone(uuid, ids, e.key);
    if es == [] {
      assert all == [e] && all[..0] == [];
    } else {
      var front, last := es[..|es| - 1], es[|es| - 1];
      ExceptFront(e, front, uuid, ids);
      OrderUnfolds(es, uuid, ids, e.key);
      assert all[..|all| - 1] == [e] + front && all[|all| - 1] == last;
    }
  }

  lemma {:induction false} ExceptOneMore(es: seq<Entry>, uuid: Uuid, ids: seq<nat>)
    requires ids != []
    ensures Except(Without(es, BlockId(uuid, ids[0])), uuid, ids[1..]) == Except(es, uuid, ids)
    decreases |es|
  {
    hide Except, Without, Among;
    var k := BlockId(uuid, ids[0]);
    OrderOfNone(uuid, ids, k);
    OrderOfNone(uuid, ids[1..], k);
    if es != [] {
      var front, last := es[..|es| - 1], es[|es| - 1];
      ExceptOneMore(front, uuid, ids);
      OrderUnfolds(es, uuid, ids, k);
      AmongSplits(last.key, uuid, ids[..1], ids[1..]);
      AmongOne(last.key, uuid, ids[0]);
      assert ids == ids[..1] + ids[1..] && ids[..1] == [ids[0]];
      var w := Without(front, k);
      if last.key != k {
        OrderUnfolds(w + [last], uuid, ids[1..], k);
        assert (w + [last])[..|w|] == w;
      } else {
        assert w + [] == w && Except(front, uuid, ids) + [] == Except(front, uuid, ids);
      }
    }
  }

  lemma AmongSplits(k: BlockId, uuid: Uuid, a: seq<nat>, b: seq<nat>)
    ensures Among(k, uuid, a + b) <==> Among(k, uuid, a) || Among(k, uuid, b)
  {
  }

  lemma AmongOne(k: BlockId, uuid: Uuid, b: nat)
    ensures Among(k, uuid, [b]) <==> k == BlockId(uuid, b)
  {
  }

  // ---- what filling the cache puts where

  /** Using an entry may drop cached blocks, and does nothing else to them. */
  lemma TouchOnlyDrops(c: Cache, e: Entry, cap: nat, k: BlockId)
    ensures var r := Cached(Touch(c, e, cap).files, k); r.None? || r == Cached(c.files, k)
    ensures k.uuid !in c.files ==> k.uuid !in Touch(c, e, cap).files
  {
    hide DropAll, Cached;
    if e.size <= cap { DropAllLookup(c.files, Evicted(c.lru, e, cap), k); }
  }

  /** k is one of the blocks of the request, from the i-th on, and r its part of the data. */
  ghost predicate IsChunk(uuid: Uuid, ids: seq<nat>, data: seq<byte>, i: nat, k: BlockId, r: Option<seq<byte>>) {
    k.uuid == uuid && exists j: nat | i <= j < |ids| :: ids[j] == k.block && r == Some(Chunk(data, j))
  }

  lemma {:induction false} AddBlocksPuts(c: Cache, uuid: Uuid, ids: seq<nat>, data: seq<byte>, i: nat, cap: nat, k: BlockId)
    requires i <= |ids|
    ensures var r := Cached(AddBlocks(c, uuid, ids, data, i, cap).files, k);
            r.None? || r == Cached(c.files, k) || IsChunk(uuid, ids, data, i, k, r)
    decreases |ids| - i
  {
    hide Touch, Chunk;
    if i < |ids| {
      var d := Chunk(data, i);
      var e := Entry(BlockId(uuid, ids[i]), |d|);
      TouchOnlyDrops(c, e, cap, k);
      var c1 := Touch(c, e, cap);
      var c2 := if uuid in c1.files then c1.(files := c1.files[uuid := Emplace(c1.files[uuid], ids[i], d)]) else c1;
      AddBlocksPuts(c2, uuid, ids, data, i + 1, cap, k);
    }
  }

  lemma {:induction false} NewBlocksPuts(b: Built, uuid: Uuid, ids: seq<nat>, data: seq<byte>, i: nat, cap: nat, k: BlockId)
    requires i <= |ids| && uuid !in b.cache.files
    ensures var r := NewBlocks(b, uuid, ids, data, i, cap);
            && uuid !in r.cache.files
            && (Cached(r.cache.files, k).None? || Cached(r.cache.files, k) == Cached(b.cache.files, k))
            && (k.uuid == uuid && k.block in r.blocks ==>
                  (k.block in b.blocks && r.blocks[k.block] == b.blocks[k.block]) || IsChunk(uuid, ids, data, i, k, Some(r.blocks[k.block])))
            && (forall n | n in b.blocks :: n in r.blocks)
            && (forall j | i <= j < |ids| :: ids[j] in r.blocks)
    decreases |ids| - i
  {
    hide Touch, Chunk, Cached;
    if i < |ids| {
      var d := Chunk(data, i);
      var e := Entry(BlockId(uuid, ids[i]), |d|);
      TouchOnlyDrops(b.cache, e, cap, k);
      TouchOnlyDrops(b.cache, e, cap, BlockId(uuid, 0));
      NewBlocksPuts(Built(Touch(b.cache, e, cap), Emplace(b.blocks, ids[i], d)), uuid, ids, data, i + 1, cap, k);
    }
  }

  /** After a fill a block is cached as before, or with its part of the data, or not any more; a file that
      was not cached gets all of its parts. */
  lemma FillPuts(c: Cache, uuid: Uuid, ids: seq<nat>, data: seq<byte>, cap: nat, k: BlockId)
    ensures var r := Cached(WriteToCache(c, uuid, ids, data, cap).files, k);
            && (r.None? || r == Cached(c.files, k) || IsChunk(uuid, ids, data, 0, k, r))
            && (uuid !in c.files && k.uuid == uuid && k.block in ids ==> IsChunk(uuid, ids, data, 0, k, r))
  {
    hide AddBlocks, NewBlocks;
    if uuid in c.files {
      AddBlocksPuts(c, uuid, ids, data, 0, cap, k);
    } else {
      NewBlocksPuts(Built(c, map[]), uuid, ids, data, 0, cap, k);
    }
  }

  /** The i-th block of a request with consecutive ids gets the i-th part. */
  lemma FillPutsChunk(c: Cache, uuid: Uuid, ids: seq<nat>, first: nat, data: seq<byte>, cap: nat, i: nat)
    requires Consecutive(ids, first) && i < |ids|
    ensures var k := BlockId(uuid, ids[i]); var r := Cached(WriteToCache(c, uuid, ids, data, cap).files, k);
            && (r.None? || r == Cached(c.files, k) || r == Some(Chunk(data, i)))
            && (uuid !in c.files ==> r == Some(Chunk(data, i)))
  {
    hide WriteToCache, Cached, Chunk;
    FillPuts(c, uuid, ids, data, cap, BlockId(uuid, ids[i]));
  }

  // ---- the books

  /** The books are kept, and every cached block has the full size. */
  ghost predicate Booked(c: Cache, cap: nat) {
    Accounted(c, cap) && forall k | Cached(c.files, k).Some? :: |Cached(c.files, k).value| == BLOCK
  }

  lemma TouchBooked(c: Cache, k: BlockId, cap: nat)
    requires Booked(c, cap) && BLOCK <= cap
    ensures var t := Touch(c, Entry(k, BLOCK), cap);
            Booked(t, cap) && Entry(k, BLOCK) in t.lru && forall u | u !in c.files :: u !in t.files
  {
    hide Touch, Cached;
    TouchAccounted(c, Entry(k, BLOCK), cap);
  }

  lemma {:induction false} AddBlocksBooked(c: Cache, uuid: Uuid, ids: seq<nat>, data: seq<byte>, i: nat, cap: nat)
    requires Booked(c, cap) && BLOCK <= cap && i <= |ids| && |data| == |ids| * BLOCK
    ensures Booked(AddBlocks(c, uuid, ids, data, i, cap), cap)
    decreases |ids| - i
  {
    hide Touch, Chunk;
    if i < |ids| {
      var d, k := Chunk(data, i), BlockId(uuid, ids[i]);
      ChunkWhole(data, |ids|, i);
      TouchBooked(c, k, cap);
      var c1 := Touch(c, Entry(k, |d|), cap);
      var c2 := if uuid in c1.files then c1.(files := c1.files[uuid := Emplace(c1.files[uuid], ids[i], d)]) else c1;
      forall k' | Cached(c2.files, k').Some?
        ensures (k' == k && Cached(c2.files, k').value == d) || Cached(c2.files, k') == Cached(c1.files, k') {}
      AddBlocksBooked(c2, uuid, ids, data, i + 1, cap);
    }
  }

  /** What the block map under construction holds after i blocks. */
  ghost predicate BuiltOk(b: Built, uuid: Uuid, ids: seq<nat>, i: nat, cap: nat) {
    && Booked(b.cache, cap) && uuid !in b.cache.files && OwnInFront(b.cache.lru, uuid, ids, i)
    && forall n | n in b.blocks :: |b.blocks[n]| == BLOCK && exists j | 0 <= j < i :: ids[j] == n
  }

  lemma {:induction false} NewBlocksBooked(b: Built, uuid: Uuid, ids: seq<nat>, first: nat, data: seq<byte>, i: nat, cap: nat)
    requires i <= |ids| && BuiltOk(b, uuid, ids, i, cap) && Consecutive(ids, first) && |data| == |ids| * BLOCK <= cap
    ensures BuiltOk(NewBlocks(b, uuid, ids, data, i, cap), uuid, ids, |ids|, cap)
    decreases |ids| - i
  {
    hide Touch, Chunk, Booked;
    if i < |ids| {
      var d, k := Chunk(data, i), BlockId(uuid, ids[i]);
      MulMono(i + 1, |ids|, BLOCK);
      ChunkWhole(data, |ids|, i);
      TouchBooked(b.cache, k, cap);
      OwnStaysInFront(b.cache.lru, uuid, ids, i, cap);
      TouchLru(b.cache, Entry(k, BLOCK), cap);
      var b' := Built(Touch(b.cache, Entry(k, |d|), cap), Emplace(b.blocks, ids[i], d));
      forall n | n in b'.blocks ensures exists j | 0 <= j < i + 1 :: ids[j] == n {
        if n in b.blocks { var j :| 0 <= j < i && ids[j] == n; } else { assert ids[i] == n; }
      }
      NewBlocksBooked(b', uuid, ids, first, data, i + 1, cap);
    }
  }

  /** Filling the cache, in whichever way and with whatever bytes, keeps the books. */
  lemma FillBooked(c: Cache, uuid: Uuid, ids: seq<nat>, first: nat, data: seq<byte>, cap: nat)
    requires Booked(c, cap) && Consecutive(ids, first) && |data| == |ids| * BLOCK <= cap
    ensures Booked(WriteToCache(c, uuid, ids, data, cap), cap)
  {
    hide AddBlocks, NewBlocks;
    if uuid in c.files {
      if ids == [] { NoBlocks(c, uuid, data, cap); } else { AddBlocksBooked(c, uuid, ids, data, 0, cap); }
    } else {
      NewBlocksBooked(Built(c, map[]), uuid, ids, first, data, 0, cap);
      var b := NewBlocks(Built(c, map[]), uuid, ids, data, 0, cap);
      var fs := b.cache.files[uuid := b.blocks];
      forall k | Cached(fs, k).Some? ensures Entry(k, |Cached(fs, k).value|) in b.cache.lru {
        if k.uuid == uuid {
          var j :| 0 <= j < |ids| && ids[j] == k.block;
          assert b.cache.lru[|ids| - 1 - j] == Entry(k, BLOCK);
        } else {
          assert Cached(b.cache.files, k).Some?;
        }
      }
      forall k | Cached(fs, k).Some? && k.uuid != uuid ensures Cached(fs, k) == Cached(b.cache.files, k) {}
    }
  }

  // ---- which copies a write leaves

  /** A file that is not cached yet is built aside and gets all of its blocks.  A cached file gets them if it
      survives the making of room for the first one. */
  ghost predicate WillCache(c: Cache, f: Uuid, ids: seq<nat>, cap: nat) {
    f !in c.files || (ids != [] && f in Touch(c, Entry(BlockId(f, ids[0]), BLOCK), cap).files)
  }

  /** The LRU order once the first i blocks of a request have been used. */
  ghost function OrderAfter(lru: seq<Entry>, f: Uuid, ids: seq<nat>, i: nat, cap: nat): seq<Entry>
    requires i <= |ids|
  {
    if i == 0 || cap < BLOCK then lru else Use(OrderAfter(lru, f, ids, i - 1, cap), Entry(BlockId(f, ids[i - 1]), BLOCK), cap)
  }

  /** One more block of a cached file. */
  function AddOne(c: Cache, uuid: Uuid, b: nat, d: seq<byte>, cap: nat): Cache {
    var c1 := Touch(c, Entry(BlockId(uuid, b), |d|), cap);
    if uuid in c1.files then c1.(files := c1.files[uuid := Emplace(c1.files[uuid], b, d)]) else c1
  }

  lemma {:induction false} AddBlocksOrder(lru: seq<Entry>, c: Cache, f: Uuid, ids: seq<nat>, data: seq<byte>, i: nat, cap: nat)
    requires i <= |ids| && |data| == |ids| * BLOCK <= cap && c.lru == OrderAfter(lru, f, ids, i, cap)
    ensures AddBlocks(c, f, ids, data, i, cap).lru == OrderAfter(lru, f, ids, |ids|, cap)
    decreases |ids| - i
  {
    hide Touch, Chunk, Use;
    if i < |ids| {
      ChunkWhole(data, |ids|, i);
      TouchLru(c, Entry(BlockId(f, ids[i]), BLOCK), cap);
      AddBlocksOrder(lru, AddOne(c, f, ids[i], Chunk(data, i), cap), f, ids, data, i + 1, cap);
    }
  }

  lemma {:induction false} NewBlocksOrder(lru: seq<Entry>, b: Built, f: Uuid, ids: seq<nat>, data: seq<byte>, i: nat, cap: nat)
    requires i <= |ids| && |data| == |ids| * BLOCK <= cap && b.cache.lru == OrderAfter(lru, f, ids, i, cap)
    ensures NewBlocks(b, f, ids, data, i, cap).cache.lru == OrderAfter(lru, f, ids, |ids|, cap)
    decreases |ids| - i
  {
    hide Touch, Chunk, Use;
    if i < |ids| {
      ChunkWhole(data, |ids|, i);
      var e := Entry(BlockId(f, ids[i]), BLOCK);
      TouchLru(b.cache, e, cap);
      NewBlocksOrder(lru, Built(Touch(b.cache, e, cap), Emplace(b.blocks, ids[i], Chunk(data, i))), f, ids, data, i + 1, cap);
    }
  }

  /** The first i blocks are in front, the last one first, and what is left of the others follows in its old order. */
  lemma {:induction false} OrderIs(lru: seq<Entry>, f: Uuid, ids: seq<nat>, first: nat, i: nat, cap: nat)
    requires i <= |ids| && |ids| * BLOCK <= cap && Consecutive(ids, first)
    ensures var r := OrderAfter(lru, f, ids, i, cap); OwnInFront(r, f, ids, i) && r[i..] <= Except(lru, f, ids[..i])
    decreases i
  {
    hide Use, Except;
    if i == 0 {
      ExceptNothing(lru, f);
      assert ids[..0] == [];
    } else {
      var before, n := OrderAfter(lru, f, ids, i - 1, cap), i - 1;
      OrderIs(lru, f, ids, first, n, cap);
      MulMono(i, |ids|, BLOCK);
      OwnStaysInFront(before, f, ids, n, cap);
      RestAfterUse(before, f, ids, n, cap);
      WithoutPrefix(before[n..], Except(lru, f, ids[..n]), BlockId(f, ids[n]));
      ExceptNext(lru, f, ids, n);
    }
  }

  lemma RestAfterUse(lru: seq<Entry>, f: Uuid, ids: seq<nat>, n: nat, cap: nat)
    requires OwnInFront(lru, f, ids, n) && n < |ids| && (n + 1) * BLOCK <= cap && forall j | 0 <= j < n :: ids[j] != ids[n]
    ensures var r := Use(lru, Entry(BlockId(f, ids[n]), BLOCK), cap);
            n + 1 <= |r| && r[n + 1..] <= Without(lru[n..], BlockId(f, ids[n]))
  {
    hide Without, Fit;
    var k := BlockId(f, ids[n]);
    OwnStaysInFront(lru, f, ids, n, cap);
    WithoutAbsent(lru[..n], k);
    WithoutConcat(lru[..n], lru[n..], k);
    assert lru == lru[..n] + lru[n..];
    FitIsPrefix(Without(lru, k), cap - BLOCK);
  }

  lemma {:induction false} WithoutConcat(a: seq<Entry>, b: seq<Entry>, k: BlockId)
    ensures Without(a + b, k) == Without(a, k) + Without(b, k)
    decreases |b|
  {
    hide Without;
    OrderOfNone(k.uuid, [], k);
    if b == [] { assert a + b == a; } else {
      WithoutConcat(a, b[..|b| - 1], k);
      OrderUnfolds(b, k.uuid, [], k);
      OrderUnfolds(a + b, k.uuid, [], k);
      assert (a + b)[..|a + b| - 1] == a + b[..|b| - 1];
    }
  }

  lemma {:induction false} ExceptNext(es: seq<Entry>, f: Uuid, ids: seq<nat>, n: nat)
    requires n < |ids|
    ensures Without(Except(es, f, ids[..n]), BlockId(f, ids[n])) == Except(es, f, ids[..n + 1])
    decreases |es|
  {
    hide Without, Except, Among;
    var k := BlockId(f, ids[n]);
    OrderOfNone(f, ids[..n], k);
    OrderOfNone(f, ids[..n + 1], k);
    if es != [] {
      var front, last := es[..|es| - 1], es[|es| - 1];
      ExceptNext(front, f, ids, n);
      OrderUnfolds(es, f, ids[..n], k);
      OrderUnfolds(es, f, ids[..n + 1], k);
      assert ids[..n + 1] == ids[..n] + [ids[n]];
      AmongSplits(last.key, f, ids[..n], [ids[n]]);
      AmongOne(last.key, f, ids[n]);
      var before := Except(front, f, ids[..n]);
      WithoutConcat(before, [last], k);
      WithoutOne(last, k);
      assert before + [] == before && Without(before, k) + [] == Without(before, k);
    }
  }

  /** What a fill does to the order: the blocks of the request are in front, the last one first, and of the other
      entries a prefix of their old order is left. */
  lemma FillOrder(c: Cache, f: Uuid, ids: seq<nat>, first: nat, data: seq<byte>, cap: nat)
    requires Consecutive(ids, first) && |data| == |ids| * BLOCK <= cap
    ensures var r := WriteToCache(c, f, ids, data, cap).lru;
            OwnInFront(r, f, ids, |ids|) && r[|ids|..] <= Except(c.lru, f, ids)
  {
    hide AddBlocks, NewBlocks, OrderAfter, Except;
    assert ids[..|ids|] == ids;
    NothingUsed(c.lru, f, ids, cap);
    OrderIs(c.lru, f, ids, first, |ids|, cap);
    if f in c.files {
      AddBlocksOrder(c.lru, c, f, ids, data, 0, cap);
    } else {
      NewBlocksOrder(c.lru, Built(c, map[]), f, ids, data, 0, cap);
    }
  }

  lemma NothingUsed(lru: seq<Entry>, f: Uuid, ids: seq<nat>, cap: nat)
    ensures OrderAfter(lru, f, ids, 0, cap) == lru
  {
  }

  lemma {:induction false} ExceptConcat(a: seq<Entry>, b: seq<Entry>, uuid: Uuid, ids: seq<nat>)
    ensures Except(a + b, uuid, ids) == Except(a, uuid, ids) + Except(b, uuid, ids)
    decreases |b|
  {
    hide Except, Without, Among;
    var k := BlockId(uuid, 0);
    OrderOfNone(uuid, ids, k);
    if b == [] { assert a + b == a; } else {
      ExceptConcat(a, b[..|b| - 1], uuid, ids);
      OrderUnfolds(b, uuid, ids, k);
      OrderUnfolds(a + b, uuid, ids, k);
      assert (a + b)[..|a + b| - 1] == a + b[..|b| - 1];
    }
  }

  lemma {:induction false} ExceptAll(es: seq<Entry>, uuid: Uuid, ids: seq<nat>)
    requires forall i | 0 <= i < |es| :: Among(es[i].key, uuid, ids)
    ensures Except(es, uuid, ids) == []
    decreases |es|
  {
    hide Among;
    if es != [] { ExceptAll(es[..|es| - 1], uuid, ids); }
  }

  lemma {:induction false} ExceptTwice(es: seq<Entry>, uuid: Uuid, ids: seq<nat>, n: nat)
    requires n <= |ids|
    ensures Except(Except(es, uuid, ids[..n]), uuid, ids) == Except(es, uuid, ids)
    decreases |es|
  {
    hide Except, Without, Among;
    var k := BlockId(uuid, 0);
    OrderOfNone(uuid, ids, k);
    OrderOfNone(uuid, ids[..n], k);
    if es != [] {
      var front, last := es[..|es| - 1], es[|es| - 1];
      ExceptTwice(front, uuid, ids, n);
      OrderUnfolds(es, uuid, ids[..n], k);
      OrderUnfolds(es, uuid, ids, k);
      assert ids == ids[..n] + ids[n..];
      AmongSplits(last.key, uuid, ids[..n], ids[n..]);
      var before := Except(front, uuid, ids[..n]);
      if Among(last.key, uuid, ids[..n]) {
        assert before + [] == before && Except(front, uuid, ids) + [] == Except(front, uuid, ids);
      } else {
        OrderUnfolds(before + [last], uuid, ids, k);
        assert (before + [last])[..|before|] == before;
      }
    }
  }

  /** A read that misses and then fills the cache leaves the same order as the fill alone would start from. */
  lemma MovedExcept(c: Cache, uuid: Uuid, ids: seq<nat>, n: nat, lru: seq<Entry>)
    requires n <= |ids| && MovedToFront(c, uuid, ids[..n], lru)
    ensures Except(lru, uuid, ids) == Except(c.lru, uuid, ids)
  {
    hide Except, Cached;
    assert lru == lru[..n] + lru[n..];
    ExceptConcat(lru[..n], lru[n..], uuid, ids);
    forall i | 0 <= i < n ensures Among(lru[..n][i].key, uuid, ids) {
      EntryKey(c.files, BlockId(uuid, ids[..n][n - 1 - i]), lru[i]);
      assert ids[..n][n - 1 - i] == ids[n - 1 - i] && ids[n - 1 - i] in ids;
    }
    ExceptAll(lru[..n], uuid, ids);
    ExceptTwice(c.lru, uuid, ids, n);
    assert [] + Except(lru[n..], uuid, ids) == Except(lru[n..], uuid, ids);
  }

  /** The copy of the i-th block of a write, told from the cache before it: none unless the file survives; the
      one that was cached, if it is still listed when its turn comes; and else its part of the data. */
  ghost function CopyAfter(c: Cache, f: Uuid, ids: seq<nat>, data: seq<byte>, i: nat, cap: nat): Option<seq<byte>>
    requires i < |ids|
  {
    var k := BlockId(f, ids[i]);
    if !WillCache(c, f, ids, cap) then None
    else if HasKey(OrderAfter(c.lru, f, ids, i, cap), k) && Cached(c.files, k).Some? then Cached(c.files, k)
    else Some(Chunk(data, i))
  }

  /** Using an entry drops exactly the blocks that leave the order. */
  lemma TouchLookup(c: Cache, e: Entry, cap: nat, k: BlockId)
    requires DistinctKeys(c.lru) && e.size <= cap
    ensures var lru' := Use(c.lru, e, cap);
            && Cached(Touch(c, e, cap).files, k) == (if HasKey(c.lru, k) && !HasKey(lru', k) then None else Cached(c.files, k))
            && HasKey(lru', e.key) && (HasKey(lru', k) ==> k == e.key || HasKey(c.lru, k))
  {
    hide Without, Fit, DropAll, Cached;
    var w := Without(c.lru, e.key);
    var keep, gone := Fit(w, cap - e.size), Evicted(c.lru, e, cap);
    FitIsPrefix(w, cap - e.size);
    WithoutKeys(c.lru, e.key);
    assert w == keep + gone && Use(c.lru, e, cap) == [e] + keep;
    KeysSplit(c.lru, e, w, keep, gone, k);
    DropAllLookup(c.files, gone, k);
  }

  lemma KeysSplit(lru: seq<Entry>, e: Entry, w: seq<Entry>, keep: seq<Entry>, gone: seq<Entry>, k: BlockId)
    requires w == keep + gone && DistinctKeys(w) && forall x :: x in w <==> x in lru && x.key != e.key
    ensures HasKey([e] + keep, e.key) && (HasKey([e] + keep, k) ==> k == e.key || HasKey(lru, k))
    ensures HasKey(gone, k) <==> HasKey(lru, k) && !HasKey([e] + keep, k)
  {
    assert e in [e] + keep;
    if HasKey(lru, k) && k != e.key { var x :| x in lru && x.key == k; assert x in keep || x in gone; }
    if HasKey(gone, k) {
      var j :| 0 <= j < |gone| && gone[j].key == k;
      assert w[|keep| + j] == gone[j] && gone[j] in w;
      assert forall i | 0 <= i < |keep| :: w[i] == keep[i];
    }
    if x :| x in keep && x.key == k { assert x in w && x in [e] + keep; }
  }

  lemma {:induction false} AddToNone(c: Cache, uuid: Uuid, ids: seq<nat>, data: seq<byte>, i: nat, cap: nat)
    requires i <= |ids| && uuid !in c.files
    ensures uuid !in AddBlocks(c, uuid, ids, data, i, cap).files
    decreases |ids| - i
  {
    hide Touch, Chunk;
    if i < |ids| {
      var e := Entry(BlockId(uuid, ids[i]), |Chunk(data, i)|);
      TouchOnlyDrops(c, e, cap, e.key);
      AddToNone(Touch(c, e, cap), uuid, ids, data, i + 1, cap);
    }
  }

  /** The cache c, on the way from c0, after i blocks: those have their copies, and the others are as before
      unless they have left the order. */
  ghost predicate Filling(c0: Cache, c: Cache, f: Uuid, ids: seq<nat>, data: seq<byte>, i: nat, cap: nat) {
    && i <= |ids| && c.lru == OrderAfter(c0.lru, f, ids, i, cap) && DistinctKeys(c.lru) && OwnInFront(c.lru, f, ids, i)
    && forall j | 0 <= j < |ids| ::
         var k := BlockId(f, ids[j]);
         Cached(c.files, k) == if j < i then CopyAfter(c0, f, ids, data, j, cap)
                               else if HasKey(c.lru, k) then Cached(c0.files, k) else None
  }

  lemma AddOneFills(c0: Cache, c: Cache, f: Uuid, ids: seq<nat>, first: nat, data: seq<byte>, i: nat, cap: nat)
    requires i < |ids| && Consecutive(ids, first) && |data| == |ids| * BLOCK <= cap
    requires Filling(c0, c, f, ids, data, i, cap) && WillCache(c0, f, ids, cap)
    requires f in Touch(c, Entry(BlockId(f, ids[i]), BLOCK), cap).files
    ensures Filling(c0, AddOne(c, f, ids[i], Chunk(data, i), cap), f, ids, data, i + 1, cap)
  {
    hide Touch, Chunk, HasKey, WillCache, Use, CopyAfter;
    var e := Entry(BlockId(f, ids[i]), BLOCK);
    ChunkWhole(data, |ids|, i);
    MulMono(i + 1, |ids|, BLOCK);
    OwnStaysInFront(c.lru, f, ids, i, cap);
    TouchLru(c, e, cap);
    UseKeepsOrder(c.lru, e, cap);
    var c1, c2 := Touch(c, e, cap), AddOne(c, f, ids[i], Chunk(data, i), cap);
    assert c2.lru == OrderAfter(c0.lru, f, ids, i + 1, cap);
    forall j | 0 <= j < |ids|
      ensures var k := BlockId(f, ids[j]);
              Cached(c2.files, k) == if j < i + 1 then CopyAfter(c0, f, ids, data, j, cap) else if HasKey(c2.lru, k) then Cached(c0.files, k) else None
    {
      if j < i { OwnListed(c2.lru, f, ids, i + 1, j); }
      AddOneCopy(c0, c, f, ids, first, data, i, cap, j);
    }
  }

  lemma AddOneCopy(c0: Cache, c: Cache, f: Uuid, ids: seq<nat>, first: nat, data: seq<byte>, i: nat, cap: nat, j: nat)
    requires i < |ids| && j < |ids| && Consecutive(ids, first) && |Chunk(data, i)| == BLOCK <= cap
    requires Filling(c0, c, f, ids, data, i, cap) && WillCache(c0, f, ids, cap)
    requires f in Touch(c, Entry(BlockId(f, ids[i]), BLOCK), cap).files
    requires j < i ==> HasKey(Use(c.lru, Entry(BlockId(f, ids[i]), BLOCK), cap), BlockId(f, ids[j]))
    ensures var c2, k := AddOne(c, f, ids[i], Chunk(data, i), cap), BlockId(f, ids[j]);
            Cached(c2.files, k) == if j < i + 1 then CopyAfter(c0, f, ids, data, j, cap) else if HasKey(c2.lru, k) then Cached(c0.files, k) else None
  {
    hide Touch, Chunk, HasKey, WillCache, Use, OwnInFront, OrderAfter;
    var e := Entry(BlockId(f, ids[i]), BLOCK);
    TouchLru(c, e, cap);
    TouchLookup(c, e, cap, BlockId(f, ids[j]));
  }

  lemma OwnListed(lru: seq<Entry>, f: Uuid, ids: seq<nat>, i: nat, j: nat)
    requires OwnInFront(lru, f, ids, i) && j < i
    ensures HasKey(lru, BlockId(f, ids[j]))
  {
    assert lru[i - 1 - j] in lru;
  }

  lemma {:induction false} AddFills(c0: Cache, c: Cache, f: Uuid, ids: seq<nat>, first: nat, data: seq<byte>, i: nat, cap: nat)
    requires i <= |ids| && Consecutive(ids, first) && |data| == |ids| * BLOCK <= cap
    requires Filling(c0, c, f, ids, data, i, cap) && f in c0.files && WillCache(c0, f, ids, cap) && (i == 0 ==> c == c0)
    ensures Filling(c0, AddBlocks(c, f, ids, data, i, cap), f, ids, data, |ids|, cap)
    decreases |ids| - i
  {
    hide Touch, Chunk, OrderAfter, Use;
    if i < |ids| {
      ChunkWhole(data, |ids|, i);
      if i > 0 { FileSurvives(c0, c, f, ids, first, data, i, cap); }
      AddOneFills(c0, c, f, ids, first, data, i, cap);
      AddFills(c0, AddOne(c, f, ids[i], Chunk(data, i), cap), f, ids, first, data, i + 1, cap);
    }
  }

  /** The first block of the request keeps its file alive. */
  lemma FileSurvives(c0: Cache, c: Cache, f: Uuid, ids: seq<nat>, first: nat, data: seq<byte>, i: nat, cap: nat)
    requires 0 < i < |ids| && Consecutive(ids, first) && |data| == |ids| * BLOCK <= cap
    requires Filling(c0, c, f, ids, data, i, cap) && WillCache(c0, f, ids, cap)
    ensures f in Touch(c, Entry(BlockId(f, ids[i]), BLOCK), cap).files
  {
    hide Touch, Chunk, HasKey, WillCache, OrderAfter, Use;
    var e, k := Entry(BlockId(f, ids[i]), BLOCK), BlockId(f, ids[0]);
    MulMono(i + 1, |ids|, BLOCK);
    OwnStaysInFront(c.lru, f, ids, i, cap);
    OwnListed(Use(c.lru, e, cap), f, ids, i + 1, 0);
    TouchLookup(c, e, cap, k);
    CachedFile(Touch(c, e, cap).files, k);
  }

  /** What a fill leaves of every block of the request, told from the cache before. */
  lemma FillCopies(c: Cache, f: Uuid, ids: seq<nat>, first: nat, data: seq<byte>, cap: nat, i: nat)
    requires Consecutive(ids, first) && |data| == |ids| * BLOCK <= cap && Accounted(c, cap) && i < |ids|
    ensures Cached(WriteToCache(c, f, ids, data, cap).files, BlockId(f, ids[i])) == CopyAfter(c, f, ids, data, i, cap)
  {
    hide Touch, Chunk, NewBlocks, OrderAfter;
    if f !in c.files {
      FillPutsChunk(c, f, ids, first, data, cap, i);
    } else {
      ChunkWhole(data, |ids|, 0);
      if WillCache(c, f, ids, cap) {
        StartFilling(c, f, ids, data, cap);
        AddFills(c, c, f, ids, first, data, 0, cap);
      } else {
        AddToNone(Touch(c, Entry(BlockId(f, ids[0]), BLOCK), cap), f, ids, data, 1, cap);
      }
    }
  }

  lemma StartFilling(c: Cache, f: Uuid, ids: seq<nat>, data: seq<byte>, cap: nat)
    requires Accounted(c, cap)
    ensures Filling(c, c, f, ids, data, 0, cap)
  {
    hide CopyAfter;
    forall k | Cached(c.files, k).Some? ensures HasKey(c.lru, k) { assert Entry(k, |Cached(c.files, k).value|) in c.lru; }
  }

  /** Adding blocks that are all cached changes no cached byte. */
  lemma {:induction false} AddCachedBlocks(c: Cache, uuid: Uuid, ids: seq<nat>, data: seq<byte>, i: nat, cap: nat)
    requires Accounted(c, cap) && i <= |ids| && |data| == |ids| * BLOCK
    requires forall j | 0 <= j < |ids| :: var r := Cached(c.files, BlockId(uuid, ids[j])); r.Some? && |r.value| == BLOCK
    ensures AddBlocks(c, uuid, ids, data, i, cap).files == c.files
    decreases |ids| - i
  {
    hide Touch, Chunk, Accounted;
    if i < |ids| {
      var k, d := BlockId(uuid, ids[i]), Chunk(data, i);
      ChunkWhole(data, |ids|, i);
      HitEvictsNothing(c, k, cap);
      TouchAccounted(c, Entry(k, BLOCK), cap);
      var c1 := Touch(c, Entry(k, BLOCK), cap);
      var c2 := c1.(files := c1.files[uuid := Emplace(c1.files[uuid], ids[i], d)]);
      assert c2.files == c.files && c2 == c1;
      AddCachedBlocks(c2, uuid, ids, data, i + 1, cap);
    }
  }

  lemma CachedFile(fs: Files, k: BlockId)
    requires Cached(fs, k).Some?
    ensures k.uuid in fs
  {
  }
}
