/** A whole cache handed from one worker to the next: the received tables are replayed and the blocks
    fetched again from the backend. */
module CacheMove {
  import opened Bytes
  import opened LogStore
  import opened Lru
  import opened LruList
  import opened CacheModel
  import opened BlockCache
  import opened Transfer
  import Striping
  import ReadPath
  import FlatFile
  import TwoPhase
  import CacheFill
  import CacheRuns

  // ---- what build_cache and its callbacks do

  /** One action of the parser.  A fetch only sends a request: its answer comes later. */
  function Act(c: Cache, a: Action, cap: nat): Cache {
    match a
    case Open(u) => if u in c.files then c else c.(files := c.files[u := map[]])
    case Fetch(_, _) => c
    case Use(u, cell) => Touch(c, Entry(BlockId(u, cell.block), cell.size), cap)
  }

  function ActAll(c: Cache, acts: seq<Action>, cap: nat): Cache
    decreases |acts|
  {
    if acts == [] then c else ActAll(Act(c, acts[0], cap), acts[1..], cap)
  }

  /** The callback of a fetch: the block is added if its file is still there. */
  function Arrived(c: Cache, u: Uuid, block: nat, data: seq<byte>): Cache {
    if u in c.files then c.(files := c.files[u := Emplace(c.files[u], block, data)]) else c
  }

  /** What the backend answers; the position is computed in 32 bits. */
  function Fetched(bs: Striping.BlockSize, store: CacheRuns.Store, u: Uuid, cell: Cell): seq<byte>
  {
    ReadPath.ReadResult(bs, CacheRuns.FileOf(store, u), (cell.block * BLOCK) % 0x1_0000_0000, cell.size)
  }

  /** The cache after the answers to the given fetches have arrived, in that order. */
  function ArrivedAll(bs: Striping.BlockSize, store: CacheRuns.Store, c: Cache, order: seq<(Uuid, Cell)>): Cache
  {
    if order == [] then c
    else
      var (u, cell) := order[|order| - 1];
      Arrived(ArrivedAll(bs, store, c, order[..|order| - 1]), u, cell.block, Fetched(bs, store, u, cell))
  }

  // ---- replaying the tables

  /** The files, and an empty one for every other id of us. */
  function WithFiles(fs: Files, us: set<Uuid>): Files {
    map u | u in fs.Keys + us :: if u in fs then fs[u] else map[]
  }

  lemma WithFilesTwice(fs: Files, a: set<Uuid>, b: set<Uuid>)
    ensures WithFiles(WithFiles(fs, a), b) == WithFiles(fs, a + b)
    ensures WithFiles(fs, {}) == fs
  {
  }

  lemma {:induction false} ActAllConcat(c: Cache, a: seq<Action>, b: seq<Action>, cap: nat)
    ensures ActAll(c, a + b, cap) == ActAll(ActAll(c, a, cap), b, cap)
    decreases |a|
  {
    hide Act;
    if a == [] { assert a + b == b; } else {
      ActAllConcat(Act(c, a[0], cap), a[1..], b, cap);
      assert (a + b)[1..] == a[1..] + b;
    }
  }

  lemma {:induction false} FetchesChangeNothing(c: Cache, u: Uuid, cells: seq<Cell>, cap: nat)
    ensures ActAll(c, Fetches(u, cells), cap) == c
    decreases |cells|
  {
    if cells != [] {
      FetchesChangeNothing(c, u, cells[1..], cap);
      assert Fetches(u, cells)[1..] == Fetches(u, cells[1..]);
    }
  }

  lemma OpenIs(c: Cache, u: Uuid, cap: nat)
    ensures ActAll(c, [Open(u)], cap) == c.(files := WithFiles(c.files, {u}))
  {
    assert [Open(u)][1..] == [];
    if u in c.files { assert WithFiles(c.files, {u}) == c.files; }
    else { assert WithFiles(c.files, {u}) == c.files[u := map[]]; }
  }

  /** Replaying tables on a cache that is in use: opening and fetching drop and change no cached byte and leave the order
      alone, and make room for exactly the files that are opened. */
  lemma {:induction false} OpeningKeeps(c: Cache, acts: seq<Action>, cap: nat)
    requires forall a | a in acts :: !a.Use?
    ensures var r := ActAll(c, acts, cap);
            && r.lru == c.lru && (forall k :: Cached(r.files, k) == Cached(c.files, k))
            && (forall u :: u in r.files <==> u in c.files || Open(u) in acts)
    decreases |acts|
  {
    if acts != [] {
      assert acts == [acts[0]] + acts[1..] && acts[0] in acts;
      OpeningKeeps(Act(c, acts[0], cap), acts[1..], cap);
      forall u ensures Open(u) in acts <==> Open(u) == acts[0] || Open(u) in acts[1..] {}
    }
  }

  function EntryUuids(es: seq<Entry>): set<Uuid> { set e | e in es :: e.key.uuid }

  /** The file table opens its files. */
  lemma {:induction false} FileTableOpens(c: Cache, rows: seq<FileRow>, cap: nat)
    ensures ActAll(c, FileActions(rows), cap) == c.(files := WithFiles(c.files, RowUuids(rows)))
    decreases |rows|
  {
    hide WithFiles;
    if rows == [] {
      assert RowUuids(rows) == {};
      WithFilesTwice(c.files, {}, {});
    } else {
      var u, cells, rest := rows[0].uuid, rows[0].cells, rows[1..];
      var c1 := c.(files := WithFiles(c.files, {u}));
      OpenIs(c, u, cap);
      FetchesChangeNothing(c1, u, cells, cap);
      FileTableOpens(c1, rest, cap);
      hide ActAll;
      ActAllConcat(c, [Open(u)], Fetches(u, cells), cap);
      ActAllConcat(c, [Open(u)] + Fetches(u, cells), FileActions(rest), cap);
      WithFilesTwice(c.files, {u}, RowUuids(rest));
      assert rows == [rows[0]] + rest;
      assert RowUuids(rows) == {u} + RowUuids(rest);
    }
  }

  /** Using an entry in front of an order that it fits into evicts nothing. */
  lemma RoomyTouch(c: Cache, e: Entry, cap: nat)
    requires (forall x | x in c.lru :: x.key != e.key) && Total(c.lru) + e.size <= cap
    ensures Touch(c, e, cap) == Cache([e] + c.lru, c.files)
  {
    WithoutAbsent(c.lru, e.key);
    assert DropAll(c.files, []) == c.files;
  }

  lemma {:induction false} LruTableRebuilds(c: Cache, es: seq<Entry>, cap: nat)
    requires Printable(es) && DistinctKeys(es + c.lru) && Total(es + c.lru) <= cap
    ensures ActAll(c, LruActions(RowsOf(es)), cap) == Cache(es + c.lru, WithFiles(c.files, EntryUuids(es)))
    decreases |es|
  {
    hide WithFiles, Touch, Total;
    if es == [] {
      assert EntryUuids(es) == {} && es + c.lru == c.lru;
      WithFilesTwice(c.files, {}, {});
    } else {
      var n := |es| - 1;
      var e, front := es[n], es[..n];
      var u := e.key.uuid;
      var listed := c.(files := WithFiles(c.files, {u}));
      var used := Cache([e] + c.lru, listed.files);
      assert front + ([e] + c.lru) == es + c.lru;
      RoomFor(front, e, c.lru, cap);
      RoomyTouch(listed, e, cap);
      var acts := [Open(u), Action.Use(u, Cell(e.key.block, e.size))];
      assert acts == [acts[0]] + [acts[1]] && acts[1..] == [acts[1]] && [acts[1]][1..] == [];
      OpenIs(c, u, cap);
      assert ActAll(listed, [acts[1]], cap) == used;
      LruTableRebuilds(used, front, cap);
      assert RowsOf(es)[1..] == RowsOf(front);
      hide ActAll;
      ActAllConcat(c, [acts[0]], [acts[1]], cap);
      ActAllConcat(c, acts, LruActions(RowsOf(front)), cap);
      WithFilesTwice(c.files, {u}, EntryUuids(front));
      assert es == front + [e];
      assert EntryUuids(es) == {u} + EntryUuids(front);
    }
  }

  lemma RoomFor(front: seq<Entry>, e: Entry, rest: seq<Entry>, cap: nat)
    requires DistinctKeys(front + ([e] + rest)) && Total(front + ([e] + rest)) <= cap
    ensures (forall x | x in rest :: x.key != e.key) && Total(rest) + e.size <= cap
  {
    hide Total;
    var all, n := front + ([e] + rest), |front|;
    assert all[n] == e && forall j | 0 <= j < |rest| :: all[n + 1 + j] == rest[j];
    TotalConcat(front, [e] + rest);
    TotalConcat([e], rest);
    TotalOne(e);
  }

  // ---- the rows of a cache

  lemma PrintsLists(rows: seq<FileRow>, fs: Files)
    requires Prints(rows, fs)
    ensures Lists(rows, fs)
  {
    forall u, c: Cell | Cached(fs, BlockId(u, c.block)).Some? && |Cached(fs, BlockId(u, c.block)).value| == c.size
      ensures Listed(rows, u, c)
    {
      assert u in RowUuids(rows);
      var r :| r in rows && r.uuid == u;
      var i :| 0 <= i < |rows| && rows[i] == r;
      assert PrintsFile(r, fs);
    }
    forall u, c | Listed(rows, u, c)
      ensures Cached(fs, BlockId(u, c.block)).Some? && |Cached(fs, BlockId(u, c.block)).value| == c.size
    {
      var i :| 0 <= i < |rows| && rows[i].uuid == u && c in rows[i].cells;
      assert PrintsFile(rows[i], fs);
    }
  }

  /** Every file has a block, and every cached block can be addressed by a request. */
  ghost predicate Movable(c: Cache) {
    && Printable(c.lru) && (forall u | u in c.files :: c.files[u] != map[])
    && forall k | Cached(c.files, k).Some? :: (k.block + 1) * BLOCK < 0x1_0000_0000
  }

  lemma RowsNotEmpty(bs: Striping.BlockSize, rows: seq<FileRow>, c: Cache, store: CacheRuns.Store, cap: nat)
    requires CacheRuns.Inv(bs, c, store, cap) && Prints(rows, c.files) && Printable(c.lru)
    ensures forall r | r in rows :: r.uuid in c.files && (r.cells != [] <==> c.files[r.uuid] != map[])
  {
    forall r | r in rows ensures r.uuid in c.files && (r.cells != [] <==> c.files[r.uuid] != map[]) {
      assert PrintsFile(r, c.files);
      var blocks := c.files[r.uuid];
      assert r.cells != [] ==> r.cells[0] in r.cells;
      if blocks != map[] {
        var b :| b in blocks;
        assert Cached(c.files, BlockId(r.uuid, b)) == Some(blocks[b]);
        assert Entry(BlockId(r.uuid, b), |blocks[b]|) in c.lru;
        assert Cell(b, |blocks[b]|) in r.cells;
      }
    }
  }

  // ---- the answers

  /** A fetch of a cached block brings back the bytes that were cached. */
  lemma FetchedIsCached(bs: Striping.BlockSize, c: Cache, store: CacheRuns.Store, cap: nat, u: Uuid, cell: Cell)
    requires CacheRuns.Inv(bs, c, store, cap) && Movable(c)
    requires var d := Cached(c.files, BlockId(u, cell.block)); d.Some? && |d.value| == cell.size
    ensures Some(Fetched(bs, store, u, cell)) == Cached(c.files, BlockId(u, cell.block))
  {
    hide Cached, FlatFile.ByteAt, ReadPath.ReadResult, CacheFill.Accounted;
    var k := BlockId(u, cell.block);
    var d, blocks, pos := Cached(c.files, k).value, CacheRuns.FileOf(store, u), cell.block * BLOCK;
    assert |d| == BLOCK && CacheRuns.Matches(bs, blocks, cell.block, d);
    forall a | pos <= a < pos + BLOCK ensures FlatFile.ByteAt(bs, blocks, a).Some? {
      assert FlatFile.ByteAt(bs, blocks, pos + (a - pos)) == Some(d[a - pos]);
    }
    ReadPath.ReadBack(bs, blocks, pos, BLOCK);
    var got := ReadPath.ReadResult(bs, blocks, pos, BLOCK);
    assert CacheRuns.Matches(bs, blocks, cell.block, got);
    CacheRuns.MatchesSame(bs, blocks, cell.block, got, d);
  }

  ghost predicate Asked(order: seq<(Uuid, Cell)>, k: BlockId) {
    exists q | q in order :: q.0 == k.uuid && q.1.block == k.block
  }

  /** Only cached blocks of the moved cache are fetched. */
  ghost predicate AsksFor(order: seq<(Uuid, Cell)>, fs: Files) {
    forall q | q in order :: var d := Cached(fs, BlockId(q.0, q.1.block)); d.Some? && |d.value| == q.1.size
  }

  lemma AskedStep(order: seq<(Uuid, Cell)>, k: BlockId)
    requires order != []
    ensures var n := |order| - 1;
            Asked(order, k) <==> Asked(order[..n], k) || (order[n].0 == k.uuid && order[n].1.block == k.block)
  {
    var n := |order| - 1;
    assert order == order[..n] + [order[n]];
    if Asked(order[..n], k) {
      var q :| q in order[..n] && q.0 == k.uuid && q.1.block == k.block;
      assert q in order;
    }
    if order[n].0 == k.uuid && order[n].1.block == k.block { assert order[n] in order; }
  }

  lemma {:induction false} AnswersKeepOrder(bs: Striping.BlockSize, store: CacheRuns.Store, start: Cache, order: seq<(Uuid, Cell)>)
    ensures var r := ArrivedAll(bs, store, start, order); r.lru == start.lru && r.files.Keys == start.files.Keys
    decreases |order|
  {
    hide Fetched;
    if order != [] { AnswersKeepOrder(bs, store, start, order[..|order| - 1]); }
  }

  /** In whatever order the answers arrive, and however often, they restore exactly the blocks asked for. */
  lemma {:induction false} AnswersRestore(bs: Striping.BlockSize, c: Cache, store: CacheRuns.Store, cap: nat, start: Cache, order: seq<(Uuid, Cell)>, k: BlockId)
    requires CacheRuns.Inv(bs, c, store, cap) && Movable(c) && AsksFor(order, c.files)
    requires c.files.Keys <= start.files.Keys && forall u | u in start.files :: start.files[u] == map[]
    ensures Cached(ArrivedAll(bs, store, start, order).files, k) == if Asked(order, k) then Cached(c.files, k) else None
    decreases |order|
  {
    hide Movable, CacheRuns.Inv, Fetched;
    if order != [] {
      var n := |order| - 1;
      AnswersKeepOrder(bs, store, start, order[..n]);
      AnswersRestore(bs, c, store, cap, start, order[..n], k);
      AskedStep(order, k);
      assert order[n] in order;
      FetchedIsCached(bs, c, store, cap, order[n].0, order[n].1);
    }
  }

  // ---- the moved cache

  /** `order` holds the answers to exactly the fetches among the actions. */
  ghost predicate AnswersTo(order: seq<(Uuid, Cell)>, acts: seq<Action>) {
    forall u, cell :: (u, cell) in order <==> Fetch(u, cell) in acts
  }

  ghost function Moved(bs: Striping.BlockSize, store: CacheRuns.Store, acts: seq<Action>, cap: nat, order: seq<(Uuid, Cell)>): Cache
  {
    ArrivedAll(bs, store, ActAll(Cache([], map[]), acts, cap), order)
  }

  /** The tables of a cache, replayed on an empty one. */
  lemma TablesReplay(c: Cache, rows: seq<FileRow>, cap: nat)
    requires DistinctKeys(c.lru) && Total(c.lru) <= cap && Printable(c.lru) && (forall r | r in rows :: r.cells != [])
    ensures var p := Parse(TableBytes(rows, RowsOf(c.lru)));
            p == Some(Actions(rows, RowsOf(c.lru)))
            && ActAll(Cache([], map[]), p.value, cap) == Cache(c.lru, WithFiles(map[], RowUuids(rows) + EntryUuids(c.lru)))
  {
    hide Parse, ActAll, WithFiles, FileActions, LruActions, RowsOf;
    var empty := Cache([], map[]);
    TablesRoundTripIff(rows, RowsOf(c.lru));
    FileTableOpens(empty, rows, cap);
    ActAllConcat(empty, FileActions(rows), LruActions(RowsOf(c.lru)), cap);
    assert c.lru + [] == c.lru;
    LruTableRebuilds(Cache([], WithFiles(map[], RowUuids(rows))), c.lru, cap);
    WithFilesTwice(map[], RowUuids(rows), EntryUuids(c.lru));
  }

  /** Handing a coherent cache to a worker with at least its capacity gives that worker the same LRU order
      and the same bytes for every block, whatever the order of the backend's answers, so it may go on
      serving reads.  Its files are those of the old cache and those that only the LRU order mentions. */
  lemma MoveKeepsCache(bs: Striping.BlockSize, c: Cache, store: CacheRuns.Store, cap: nat, cap': nat, rows: seq<FileRow>, order: seq<(Uuid, Cell)>)
    requires CacheRuns.Inv(bs, c, store, cap) && cap <= cap' && Movable(c) && Prints(rows, c.files)
    requires var p := Parse(TableBytes(rows, RowsOf(c.lru))); p.Some? ==> AnswersTo(order, p.value)
    ensures var p := Parse(TableBytes(rows, RowsOf(c.lru)));
            p.Some? && var r := Moved(bs, store, p.value, cap', order);
            && r.lru == c.lru && (forall k :: Cached(r.files, k) == Cached(c.files, k))
            && r.files.Keys == c.files.Keys + EntryUuids(c.lru)
            && CacheRuns.Inv(bs, r, store, cap')
  {
    hide Parse, TableBytes, ActAll, ArrivedAll, RowsOf, Actions, CacheRuns.Matches;
    RowsNotEmpty(bs, rows, c, store, cap);
    TablesReplay(c, rows, cap');
    var p := Parse(TableBytes(rows, RowsOf(c.lru)));
    var start := ActAll(Cache([], map[]), p.value, cap');
    PrintsLists(rows, c.files);
    forall u, cell ensures (u, cell) in order <==>
      Cached(c.files, BlockId(u, cell.block)).Some? && |Cached(c.files, BlockId(u, cell.block)).value| == cell.size
    {
      TransferFetchesCached(rows, RowsOf(c.lru), c.files, u, cell);
    }
    AnswersKeepOrder(bs, store, start, order);
    forall k ensures Cached(ArrivedAll(bs, store, start, order).files, k) == Cached(c.files, k) {
      AnswersRestore(bs, c, store, cap, start, order, k);
      if Cached(c.files, k).Some? {
        var size := |Cached(c.files, k).value|;
        assert Entry(k, size) in c.lru;
        assert (k.uuid, Cell(k.block, size)) in order;
        assert Asked(order, k);
      }
    }
  }

  /** A moved cache can be moved on exactly when every file of its LRU order has a cached block.  Otherwise
      the replay has opened a file without blocks, whose row the next worker takes apart wrongly. */
  lemma MovesAgainIff(bs: Striping.BlockSize, c: Cache, r: Cache, store: CacheRuns.Store, cap: nat, rows: seq<FileRow>)
    requires Movable(c) && CacheRuns.Inv(bs, r, store, cap) && Prints(rows, r.files)
    requires r.lru == c.lru && (forall k :: Cached(r.files, k) == Cached(c.files, k))
    requires r.files.Keys == c.files.Keys + EntryUuids(c.lru)
    ensures Parse(TableBytes(rows, RowsOf(r.lru))) == Some(Actions(rows, RowsOf(r.lru)))
            <==> forall e | e in c.lru :: e.key.uuid in c.files
  {
    hide Parse, TableBytes, RowsOf, Actions, CacheRuns.Inv;
    TablesRoundTripIff(rows, RowsOf(r.lru));
    RowsNotEmpty(bs, rows, r, store, cap);
    forall u | u in r.files ensures r.files[u] == map[] <==> u !in c.files { EmptyIffNew(c, r, u); }
    if e :| e in c.lru && e.key.uuid !in c.files {
      assert e.key.uuid in RowUuids(rows);
      var row :| row in rows && row.uuid == e.key.uuid;
    }
  }

  lemma EmptyIffNew(c: Cache, r: Cache, u: Uuid)
    requires u in r.files && (forall v | v in c.files :: c.files[v] != map[])
    requires forall k :: Cached(r.files, k) == Cached(c.files, k)
    ensures r.files[u] == map[] <==> u !in c.files
  {
    if u in c.files {
      var b :| b in c.files[u];
      assert Cached(r.files, BlockId(u, b)).Some?;
    } else {
      forall b ensures b !in r.files[u] { assert Cached(r.files, BlockId(u, b)) == Cached(c.files, BlockId(u, b)); }
    }
  }

  /** Such caches exist: moved once, the one of CacheLimits.LruOutlivesFile cannot be moved again. */
  lemma SecondMoveFails(bs: Striping.BlockSize, store: CacheRuns.Store, f: Uuid, cap: nat, rows: seq<FileRow>, order: seq<(Uuid, Cell)>, rows': seq<FileRow>)
    requires var c := Cache([Entry(BlockId(f, 1), BLOCK)], map[]);
             && BLOCK <= cap && Prints(rows, c.files) && Printable(c.lru)
             && var p := Parse(TableBytes(rows, RowsOf(c.lru))); p.Some? ==> AnswersTo(order, p.value)
    ensures var c := Cache([Entry(BlockId(f, 1), BLOCK)], map[]);
            var p := Parse(TableBytes(rows, RowsOf(c.lru)));
            p.Some? && var r := Moved(bs, store, p.value, cap, order);
            r.lru == c.lru && (Prints(rows', r.files) ==> Parse(TableBytes(rows', RowsOf(r.lru))) != Some(Actions(rows', RowsOf(r.lru))))
  {
    hide Parse, TableBytes, RowsOf, Actions, Moved, Prints;
    var c := Cache([Entry(BlockId(f, 1), BLOCK)], map[]);
    assert c.lru[..0] == [] && Total(c.lru) == BLOCK;
    assert CacheRuns.Inv(bs, c, store, cap) && Movable(c);
    MoveKeepsCache(bs, c, store, cap, cap, rows, order);
    var r := Moved(bs, store, Parse(TableBytes(rows, RowsOf(c.lru))).value, cap, order);
    assert c.lru[0] in c.lru && c.lru[0].key.uuid !in c.files;
    if Prints(rows', r.files) { MovesAgainIff(bs, c, r, store, cap, rows'); }
  }

  // ---- answers that arrive late

  /** The backend's answer to a fetch, on its way to the worker. */
  datatype Late = Late(uuid: Uuid, block: nat, data: seq<byte>)

  /** The answer holds a whole block as it is stored. */
  ghost predicate Right(bs: Striping.BlockSize, store: CacheRuns.Store, l: Late) {
    |l.data| == BLOCK && CacheRuns.Matches(bs, CacheRuns.FileOf(store, l.uuid), l.block, l.data)
  }

  /** The answer finds its file gone or its block cached, or it is right and its LRU entry is still there. */
  ghost predicate Harmless(bs: Striping.BlockSize, c: Cache, store: CacheRuns.Store, l: Late) {
    var k := BlockId(l.uuid, l.block);
    l.uuid !in c.files || Cached(c.files, k).Some? || (Right(bs, store, l) && Entry(k, BLOCK) in c.lru)
  }

  /** Requests may be served while fetches are unanswered.  Whenever its answer comes, and whatever it holds, it
      keeps the cache coherent and its books complete exactly when it is harmless.  An answer that was overtaken
      by a write brings back old bytes, and one whose entry was evicted meanwhile stays cached unlisted. */
  lemma LateAnswerIff(bs: Striping.BlockSize, c: Cache, store: CacheRuns.Store, cap: nat, l: Late)
    requires CacheRuns.Inv(bs, c, store, cap)
    ensures CacheRuns.Inv(bs, Arrived(c, l.uuid, l.block, l.data), store, cap) <==> Harmless(bs, c, store, l)
  {
    hide CacheRuns.Matches;
    var c', k0 := Arrived(c, l.uuid, l.block, l.data), BlockId(l.uuid, l.block);
    if l.uuid in c.files && Cached(c.files, k0).None? {
      forall k ensures Cached(c'.files, k) == if k == k0 then Some(l.data) else Cached(c.files, k) {}
      assert Cached(c'.files, k0) == Some(l.data);
    } else {
      assert c' == c;
    }
  }

  /** A whole block that is stored is answered right. */
  lemma FetchIsRight(bs: Striping.BlockSize, store: CacheRuns.Store, u: Uuid, block: uint32)
    requires (block + 1) * BLOCK < 0x1_0000_0000
    requires forall a | block * BLOCK <= a < (block + 1) * BLOCK :: FlatFile.ByteAt(bs, CacheRuns.FileOf(store, u), a).Some?
    ensures Right(bs, store, Late(u, block, Fetched(bs, store, u, Cell(block, BLOCK))))
  {
    hide FlatFile.ByteAt, ReadPath.ReadResult;
    ReadPath.ReadBack(bs, CacheRuns.FileOf(store, u), block * BLOCK, BLOCK);
  }

  /** A committed write of other bytes to the block of an answer. */
  ghost predicate Overtakes(g: CacheRuns.Config, store: CacheRuns.Store, op: CacheRuns.Op, l: Late)
    requires CacheRuns.Proper(op)
  {
    && op.Put? && op.file == l.uuid && TwoPhase.AllAgree(FlatFile.TxnOf(g.bs, op.write), CacheRuns.FileOf(store, op.file))
    && var ids := CacheRuns.IdsOf(op.write.pos, |op.write.data|);
       exists i | 0 <= i < |ids| :: ids[i] == l.block && Chunk(op.write.data, i) != l.data
  }

  /** Of the requests that are served before it arrives, exactly those spoil a right answer. */
  lemma AnswerStaysRightIff(g: CacheRuns.Config, store: CacheRuns.Store, op: CacheRuns.Op, l: Late)
    requires CacheRuns.Proper(op) && (op.Put? ==> CacheRuns.WholeBlocks(g, op.write.pos, |op.write.data|)) && Right(g.bs, store, l)
    ensures Right(g.bs, CacheRuns.Plain(g, store, op).0, l) <==> !Overtakes(g, store, op, l)
  {
    hide CacheRuns.Matches, CacheRuns.IdsOf, Chunk, FlatFile.TxnOf, TwoPhase.AllAgree, TwoPhase.Outcome;
    if op.Put? && op.file == l.uuid {
      var wr, blocks := op.write, CacheRuns.FileOf(store, op.file);
      var ids, after := CacheRuns.IdsOf(wr.pos, |wr.data|), TwoPhase.Outcome(FlatFile.TxnOf(g.bs, wr), blocks);
      if !TwoPhase.AllAgree(FlatFile.TxnOf(g.bs, wr), blocks) {
        CacheRuns.RefusedKeepsBytes(g.bs, blocks, wr, l.block, l.data);
      } else if l.block !in ids {
        CacheRuns.PutKeeps(g.bs, blocks, wr, l.block, l.data);
      } else {
        var i :| 0 <= i < |ids| && ids[i] == l.block;
        CacheRuns.WholeBlockIds(wr.pos, |wr.data|);
        CacheRuns.PutStores(g.bs, blocks, wr);
        CacheRuns.ChunkMatches(g.bs, after, wr.pos / BLOCK, wr.data, |ids|, i);
        if CacheRuns.Matches(g.bs, after, l.block, l.data) { CacheRuns.MatchesSame(g.bs, after, l.block, l.data, Chunk(wr.data, i)); }
      }
    }
  }

  /** While the next worker has the LRU order of the moved cache, the answer to each of its fetches is harmless. */
  lemma PromptAnswerIsHarmless(bs: Striping.BlockSize, c: Cache, store: CacheRuns.Store, cap: nat, c': Cache, u: Uuid, cell: Cell)
    requires CacheRuns.Inv(bs, c, store, cap) && Movable(c) && c'.lru == c.lru
    requires var d := Cached(c.files, BlockId(u, cell.block)); d.Some? && |d.value| == cell.size
    ensures Harmless(bs, c', store, Late(u, cell.block, Fetched(bs, store, u, cell)))
  {
    hide Fetched, CacheRuns.Matches;
    FetchedIsCached(bs, c, store, cap, u, cell);
  }

  // ---- runs of requests and hand-overs

  /** The worker's cache and store, the fetches that the backend has still to read, and its answers on their way. */
  datatype Site = Site(world: CacheRuns.World, asked: seq<(Uuid, Cell)>, late: seq<Late>)

  /** A request is served, the cache is handed to the next worker, which replays the tables, the backend reads
      what a fetch asks for, and an answer arrives: in any order. */
  datatype Event = Serve(op: CacheRuns.Op) | HandOver(rows: seq<FileRow>) | Answer(n: nat) | Arrive(n: nat)

  ghost predicate LegalEvent(g: CacheRuns.Config, s: Site, e: Event) {
    match e
    case Serve(op) => CacheRuns.Legal(g, s.world, op)
    case HandOver(rows) => Movable(s.world.cache) && Prints(rows, s.world.cache.files)
    case Answer(n) => n < |s.asked|
    case Arrive(n) => n < |s.late| && Harmless(g.bs, s.world.cache, s.world.store, s.late[n])
  }

  function Removed<T>(s: seq<T>, n: nat): seq<T>
    requires n < |s|
  {
    s[..n] + s[n + 1..]
  }

  /** The next worker starts from an empty cache; answers to the fetches of its predecessor do not reach it. */
  ghost function HandedOver(g: CacheRuns.Config, s: Site, rows: seq<FileRow>): Site
    requires Printable(s.world.cache.lru)
  {
    var p := Parse(TableBytes(rows, RowsOf(s.world.cache.lru)));
    if p.None? then s
    else Site(CacheRuns.World(ActAll(Cache([], map[]), p.value, g.cap), s.world.store), FetchesOf(p.value), [])
  }

  ghost function Happens(g: CacheRuns.Config, s: Site, e: Event): Site
    requires LegalEvent(g, s, e)
  {
    var World(c, store) := s.world;
    match e
    case Serve(op) => s.(world := CacheRuns.Perform(g, s.world, op).0)
    case HandOver(rows) => HandedOver(g, s, rows)
    case Answer(n) =>
      var (u, cell) := s.asked[n];
      s.(asked := Removed(s.asked, n), late := s.late + [Late(u, cell.block, Fetched(g.bs, store, u, cell))])
    case Arrive(n) =>
      var l := s.late[n];
      s.(world := CacheRuns.World(Arrived(c, l.uuid, l.block, l.data), store), late := Removed(s.late, n))
  }

  ghost predicate LegalEvents(g: CacheRuns.Config, s: Site, es: seq<Event>)
    decreases |es|
  {
    es != [] ==> LegalEvent(g, s, es[0]) && LegalEvents(g, Happens(g, s, es[0]), es[1..])
  }

  /** What the clients get over a run. */
  ghost function AnswersOver(g: CacheRuns.Config, s: Site, es: seq<Event>): seq<CacheRuns.Answer>
    requires LegalEvents(g, s, es)
    decreases |es|
  {
    if es == [] then []
    else (if es[0].Serve? then [CacheRuns.Perform(g, s.world, es[0].op).1] else []) + AnswersOver(g, Happens(g, s, es[0]), es[1..])
  }

  function Requests(es: seq<Event>): seq<CacheRuns.Op> {
    if es == [] then [] else (if es[0].Serve? then [es[0].op] else []) + Requests(es[1..])
  }

  /** Over every run of requests and hand-overs, with requests served while fetches are unanswered and answers
      arriving in any order, clients get exactly the answers that the backend alone would have given. */
  lemma {:induction false} MovesAreTransparent(g: CacheRuns.Config, s: Site, es: seq<Event>)
    requires CacheRuns.Inv(g.bs, s.world.cache, s.world.store, g.cap) && LegalEvents(g, s, es)
    ensures forall op | op in Requests(es) :: CacheRuns.Proper(op)
    ensures AnswersOver(g, s, es) == CacheRuns.PlainAnswers(g, s.world.store, Requests(es))
    decreases |es|
  {
    hide CacheRuns.Inv, CacheRuns.Perform, CacheRuns.Plain, HandedOver, Harmless, Prints, Movable, Fetched, Arrived;
    if es != [] {
      EventKeeps(g, s, es[0]);
      MovesAreTransparent(g, Happens(g, s, es[0]), es[1..]);
      var rest := Requests(es[1..]);
      if es[0].Serve? { assert ([es[0].op] + rest)[1..] == rest; } else { assert [] + rest == rest; }
    }
  }

  lemma EventKeeps(g: CacheRuns.Config, s: Site, e: Event)
    requires CacheRuns.Inv(g.bs, s.world.cache, s.world.store, g.cap) && LegalEvent(g, s, e)
    ensures var w' := Happens(g, s, e).world; CacheRuns.Inv(g.bs, w'.cache, w'.store, g.cap)
    ensures var w' := Happens(g, s, e).world;
            if e.Serve? then w'.store == CacheRuns.Plain(g, s.world.store, e.op).0 && CacheRuns.Perform(g, s.world, e.op).1 == CacheRuns.Plain(g, s.world.store, e.op).1
            else w'.store == s.world.store
  {
    hide CacheRuns.Inv, CacheRuns.Perform, CacheRuns.Plain, HandedOver, Harmless, Prints, Movable, Fetched, Arrived;
    match e
    case Serve(op) => CacheRuns.StepKeeps(g, s.world, op);
    case HandOver(rows) => HandOverKeeps(g, s, rows);
    case Answer(_) =>
    case Arrive(n) => LateAnswerIff(g.bs, s.world.cache, s.world.store, g.cap, s.late[n]);
  }

  /** Right after the tables are replayed nothing is cached, and the order is the old one. */
  lemma HandOverKeeps(g: CacheRuns.Config, s: Site, rows: seq<FileRow>)
    requires CacheRuns.Inv(g.bs, s.world.cache, s.world.store, g.cap) && Movable(s.world.cache) && Prints(rows, s.world.cache.files)
    ensures var w' := HandedOver(g, s, rows).world;
            w'.store == s.world.store && w'.cache.lru == s.world.cache.lru && CacheRuns.Inv(g.bs, w'.cache, w'.store, g.cap)
  {
    hide Parse, TableBytes, ActAll, RowsOf, Actions, CacheRuns.Matches, Prints;
    RowsNotEmpty(g.bs, rows, s.world.cache, s.world.store, g.cap);
    TablesReplay(s.world.cache, rows, g.cap);
  }

  function FetchesOf(acts: seq<Action>): seq<(Uuid, Cell)>
    decreases |acts|
  {
    if acts == [] then []
    else FetchesOf(acts[..|acts| - 1]) + if acts[|acts| - 1].Fetch? then [(acts[|acts| - 1].uuid, acts[|acts| - 1].cell)] else []
  }

  /** Answering the sent requests answers exactly the fetches. */
  lemma {:induction false} FetchesAreAnswers(acts: seq<Action>)
    ensures AnswersTo(FetchesOf(acts), acts)
    decreases |acts|
  {
    if acts != [] {
      var n := |acts| - 1;
      FetchesAreAnswers(acts[..n]);
      assert acts == acts[..n] + [acts[n]];
    }
  }

  // ---- every hand-over that is answered is complete

  ghost function SiteAfter(g: CacheRuns.Config, s: Site, es: seq<Event>): Site
    requires LegalEvents(g, s, es)
    decreases |es|
  {
    if es == [] then s else SiteAfter(g, Happens(g, s, es[0]), es[1..])
  }

  /** An answer for k is asked for or on its way. */
  ghost predicate Awaited(s: Site, k: BlockId) {
    Asked(s.asked, k) || exists l | l in s.late :: l.uuid == k.uuid && l.block == k.block
  }

  /** The site gets the cache c back: what is asked for, on its way or cached are blocks of c with their bytes, and every
      block of c is one of the three. */
  ghost predicate Refilling(c: Cache, s: Site) {
    && s.world.cache.lru == c.lru && c.files.Keys <= s.world.cache.files.Keys
    && AsksFor(s.asked, c.files)
    && (forall l | l in s.late :: Cached(c.files, BlockId(l.uuid, l.block)) == Some(l.data))
    && (forall k | Cached(s.world.cache.files, k).Some? :: Cached(s.world.cache.files, k) == Cached(c.files, k))
    && (forall k | Cached(c.files, k).Some? :: Awaited(s, k) || Cached(s.world.cache.files, k).Some?)
  }

  lemma RemovedHas<T>(s: seq<T>, n: nat, x: T)
    requires n < |s|
    ensures x in Removed(s, n) ==> x in s
    ensures x in s ==> x == s[n] || x in Removed(s, n)
  {
    if x in s { var i :| 0 <= i < |s| && s[i] == x; assert i < n ==> Removed(s, n)[i] == x; assert i > n ==> Removed(s, n)[i - 1] == x; }
  }

  lemma AnswerRefills(g: CacheRuns.Config, c: Cache, s: Site, n: nat)
    requires CacheRuns.Inv(g.bs, c, s.world.store, g.cap) && Movable(c) && Refilling(c, s) && n < |s.asked|
    ensures Refilling(c, Happens(g, s, Answer(n)))
  {
    hide CacheRuns.Inv, Movable, Fetched, Cached, Removed;
    var s' := Happens(g, s, Answer(n));
    var (u, cell) := s.asked[n];
    assert s.asked[n] in s.asked;
    FetchedIsCached(g.bs, c, s.world.store, g.cap, u, cell);
    var l0 := Late(u, cell.block, Fetched(g.bs, s.world.store, u, cell));
    assert l0 in s'.late && forall l | l in s.late :: l in s'.late;
    forall q ensures (q in s'.asked ==> q in s.asked) && (q in s.asked ==> q == s.asked[n] || q in s'.asked) { RemovedHas(s.asked, n, q); }
    forall k | Awaited(s, k) ensures Awaited(s', k) {}
  }

  lemma ArrivedAt(c: Cache, l: Late, k: BlockId)
    ensures Cached(Arrived(c, l.uuid, l.block, l.data).files, k) ==
              if k == BlockId(l.uuid, l.block) && l.uuid in c.files && Cached(c.files, k).None? then Some(l.data) else Cached(c.files, k)
    ensures Arrived(c, l.uuid, l.block, l.data).lru == c.lru && Arrived(c, l.uuid, l.block, l.data).files.Keys == c.files.Keys
  {
  }

  lemma ArriveRefills(g: CacheRuns.Config, c: Cache, s: Site, n: nat)
    requires Refilling(c, s) && LegalEvent(g, s, Arrive(n))
    ensures Refilling(c, Happens(g, s, Arrive(n)))
  {
    hide Harmless, Cached, Removed, Arrived;
    var s', l0 := Happens(g, s, Arrive(n)), s.late[n];
    assert l0 in s.late;
    forall k { ArrivedAt(s.world.cache, l0, k); }
    ArrivedAt(s.world.cache, l0, BlockId(l0.uuid, l0.block));
    CachedHasFile(c.files, BlockId(l0.uuid, l0.block));
    forall l ensures (l in s'.late ==> l in s.late) && (l in s.late ==> l == l0 || l in s'.late) { RemovedHas(s.late, n, l); }
    forall k | Awaited(s, k) ensures Awaited(s', k) || k == BlockId(l0.uuid, l0.block) {}
  }

  lemma CachedHasFile(fs: Files, k: BlockId)
    requires Cached(fs, k).Some?
    ensures k.uuid in fs
  {
  }

  /** A fetch that may be answered, or an answer that may arrive. */
  predicate Possible(s: Site, e: Event) {
    match e case Answer(n) => n < |s.asked| case Arrive(n) => n < |s.late| case _ => false
  }

  /** While the cache is refilled every answer may come at any time. */
  lemma RefillIsLegal(g: CacheRuns.Config, c: Cache, s: Site, e: Event)
    requires CacheRuns.Inv(g.bs, c, s.world.store, g.cap) && Refilling(c, s)
    ensures Possible(s, e) ==> LegalEvent(g, s, e)
  {
    hide CacheRuns.Matches;
    if e.Arrive? && e.n < |s.late| { assert s.late[e.n] in s.late; }
  }

  /** How many answers are still to be given or to arrive. */
  function Outstanding(s: Site): nat { 2 * |s.asked| + |s.late| }

  lemma {:induction false} RefillRun(g: CacheRuns.Config, c: Cache, s: Site, es: seq<Event>)
    requires CacheRuns.Inv(g.bs, c, s.world.store, g.cap) && Movable(c) && Refilling(c, s)
    requires LegalEvents(g, s, es) && forall e | e in es :: e.Answer? || e.Arrive?
    ensures var s' := SiteAfter(g, s, es);
            Refilling(c, s') && s'.world.store == s.world.store && |es| + Outstanding(s') == Outstanding(s)
    decreases |es|
  {
    hide CacheRuns.Inv, Movable, Refilling, Harmless, Fetched, Arrived;
    if es != [] {
      assert es[0] in es;
      if es[0].Answer? { AnswerRefills(g, c, s, es[0].n); } else { ArriveRefills(g, c, s, es[0].n); }
      RefillRun(g, c, Happens(g, s, es[0]), es[1..]);
    }
  }

  /** The fetches of the tables of a cache ask for exactly its blocks, each in its size. */
  lemma TablesAskFor(g: CacheRuns.Config, c: Cache, store: CacheRuns.Store, rows: seq<FileRow>)
    requires CacheRuns.Inv(g.bs, c, store, g.cap) && Movable(c) && Prints(rows, c.files)
    ensures var p := Parse(TableBytes(rows, RowsOf(c.lru)));
            p.Some? && forall u, cell :: (u, cell) in FetchesOf(p.value) <==>
              Cached(c.files, BlockId(u, cell.block)).Some? && |Cached(c.files, BlockId(u, cell.block)).value| == cell.size
  {
    hide Parse, TableBytes, RowsOf, Actions, CacheRuns.Matches, FetchesOf, Cached;
    RowsNotEmpty(g.bs, rows, c, store, g.cap);
    TablesReplay(c, rows, g.cap);
    PrintsLists(rows, c.files);
    hide Prints, Movable, CacheRuns.Inv;
    var p := Parse(TableBytes(rows, RowsOf(c.lru)));
    FetchesAreAnswers(p.value);
    forall u, cell ensures (u, cell) in FetchesOf(p.value) <==>
      Cached(c.files, BlockId(u, cell.block)).Some? && |Cached(c.files, BlockId(u, cell.block)).value| == cell.size
    {
      TransferFetchesCached(rows, RowsOf(c.lru), c.files, u, cell);
    }
  }

  /** What a hand-over starts with. */
  lemma HandOverStarts(g: CacheRuns.Config, s: Site, rows: seq<FileRow>)
    requires CacheRuns.Inv(g.bs, s.world.cache, s.world.store, g.cap) && Movable(s.world.cache) && Prints(rows, s.world.cache.files)
    ensures var s', c, p := Happens(g, s, HandOver(rows)), s.world.cache, Parse(TableBytes(rows, RowsOf(s.world.cache.lru)));
            && p.Some? && s'.asked == FetchesOf(p.value) && s'.late == [] && s'.world.store == s.world.store
            && s'.world.cache.lru == c.lru && c.files.Keys <= s'.world.cache.files.Keys
            && forall k :: Cached(s'.world.cache.files, k).None?
  {
    hide Parse, TableBytes, ActAll, RowsOf, Actions, CacheRuns.Matches, FetchesOf;
    var c := s.world.cache;
    RowsNotEmpty(g.bs, rows, c, s.world.store, g.cap);
    TablesReplay(c, rows, g.cap);
  }

  /** After a hand-over exactly the cached blocks are asked for, each in its size. */
  lemma HandOverAsks(g: CacheRuns.Config, s: Site, rows: seq<FileRow>)
    requires CacheRuns.Inv(g.bs, s.world.cache, s.world.store, g.cap) && Movable(s.world.cache) && Prints(rows, s.world.cache.files)
    ensures var s' := Happens(g, s, HandOver(rows));
            && Refilling(s.world.cache, s') && s'.late == [] && s'.world.store == s.world.store
            && forall u, cell :: (u, cell) in s'.asked <==>
                 Cached(s.world.cache.files, BlockId(u, cell.block)).Some? && |Cached(s.world.cache.files, BlockId(u, cell.block)).value| == cell.size
  {
    hide Parse, TableBytes, RowsOf, FetchesOf, Prints, Movable, CacheRuns.Inv, Cached, HandedOver, Harmless, Fetched, Arrived;
    var c, s' := s.world.cache, Happens(g, s, HandOver(rows));
    hide Happens, LegalEvent;
    TablesAskFor(g, c, s.world.store, rows);
    HandOverStarts(g, s, rows);
    forall k | Cached(c.files, k).Some? ensures Asked(s'.asked, k) {
      BlockIsListed(g, c, s.world.store, k);
      assert (k.uuid, Cell(k.block, |Cached(c.files, k).value|)) in s'.asked;
    }
  }

  /** A cached block fits a cell of the tables. */
  lemma BlockIsListed(g: CacheRuns.Config, c: Cache, store: CacheRuns.Store, k: BlockId)
    requires CacheRuns.Inv(g.bs, c, store, g.cap) && Movable(c) && Cached(c.files, k).Some?
    ensures k.block < 0x1_0000_0000 && |Cached(c.files, k).value| < 0x1_0000_0000
  {
    assert Entry(k, |Cached(c.files, k).value|) in c.lru;
  }

  /** Every hand-over that is answered is complete: in whatever order the backend reads and its answers arrive, each step
      is possible, there are exactly two for every fetch, and after them the next worker has the LRU order and the bytes
      of the old one, block by block. */
  lemma AnsweredHandOverRestores(g: CacheRuns.Config, s: Site, rows: seq<FileRow>, es: seq<Event>)
    requires CacheRuns.Inv(g.bs, s.world.cache, s.world.store, g.cap) && Movable(s.world.cache) && Prints(rows, s.world.cache.files)
    requires LegalEvents(g, Happens(g, s, HandOver(rows)), es) && forall e | e in es :: e.Answer? || e.Arrive?
    ensures var s1, s2 := Happens(g, s, HandOver(rows)), SiteAfter(g, Happens(g, s, HandOver(rows)), es);
            && |es| <= 2 * |s1.asked| && s2.world.cache.lru == s.world.cache.lru && s2.world.store == s.world.store
            && (forall e | Possible(s2, e) :: LegalEvent(g, s2, e))
            && (|es| == 2 * |s1.asked| ==> forall k :: Cached(s2.world.cache.files, k) == Cached(s.world.cache.files, k))
  {
    hide CacheRuns.Inv, Movable, Harmless, Prints, HandedOver, Fetched, Arrived;
    var s1 := Happens(g, s, HandOver(rows));
    hide Happens, LegalEvent;
    HandOverAsks(g, s, rows);
    RefillRun(g, s.world.cache, s1, es);
    var s2 := SiteAfter(g, s1, es);
    forall e | Possible(s2, e) ensures LegalEvent(g, s2, e) {
      RefillIsLegal(g, s.world.cache, s2, e);
    }
  }

  // ---- the cache object

  lemma {:induction false} UsesHas(acts: seq<Action>, a: Action)
    requires a in acts && a.Use?
    ensures Entry(BlockId(a.uuid, a.cell.block), a.cell.size) in Uses(acts)
    decreases |acts|
  {
    if acts[0] != a { UsesHas(acts[1..], a); }
  }

  /** What build_cache does when it has read one action; a fetch is only sent. */
  method Do(cache: BlockCache, a: Action) returns (sent: seq<(Uuid, Cell)>)
    requires cache.Valid() && (a.Use? ==> a.cell.size <= cache.lru.cap)
    modifies cache.lru, cache.lru.nodes, cache.lru.head, cache.lru.tail, cache.data
    ensures cache.Valid() && cache.View() == Act(old(cache.View()), a, cache.lru.cap)
    ensures sent == if a.Fetch? then [(a.uuid, a.cell)] else []
    ensures forall n | 0 <= n < |cache.lru.nodes| :: cache.lru.nodes[n] in old(cache.lru.nodes) || fresh(cache.lru.nodes[n])
  {
    hide Touch, Indexes, Chain;
    sent := [];
    match a
    case Open(u) =>
      if u !in cache.data.files { cache.data.files := cache.data.files[u := map[]]; }
    case Fetch(u, cell) =>
      sent := [(u, cell)];
    case Use(u, cell) =>
      cache.Use(Entry(BlockId(u, cell.block), cell.size));
  }

  /** build_cache, on the linked list and the maps: it performs the actions of the received tables and
      sends the fetches in order. */
  method BuildCache(cache: BlockCache, table: seq<byte>) returns (fetches: seq<(Uuid, Cell)>)
    requires cache.Valid() && Parse(table).Some? && AllFit(Uses(Parse(table).value), cache.lru.cap)
    modifies cache.lru, cache.lru.nodes, cache.lru.head, cache.lru.tail, cache.data
    ensures cache.Valid() && cache.View() == ActAll(old(cache.View()), Parse(table).value, cache.lru.cap)
    ensures fetches == FetchesOf(Parse(table).value)
  {
    hide Act, Indexes, Chain, Parse;
    var parsed := Rebuild(table);
    var acts, cap := parsed.value, cache.lru.cap;
    fetches := [];
    assert acts[0..] == acts && acts[..0] == [];
    for i := 0 to |acts|
      invariant cache.Valid()
      invariant forall n | 0 <= n < |cache.lru.nodes| :: cache.lru.nodes[n] in old(cache.lru.nodes) || fresh(cache.lru.nodes[n])
      invariant ActAll(old(cache.View()), acts, cap) == ActAll(cache.View(), acts[i..], cap)
      invariant fetches == FetchesOf(acts[..i])
    {
      assert acts[i..][0] == acts[i] && acts[i..][1..] == acts[i + 1..];
      assert acts[..i + 1][..i] == acts[..i];
      if acts[i].Use? { UsesHas(acts, acts[i]); }
      var sent := Do(cache, acts[i]);
      fetches := fetches + sent;
    }
    assert acts[..|acts|] == acts;
  }

  /** The callback of one fetch. */
  method OnFetched(cache: BlockCache, u: Uuid, block: nat, data: seq<byte>)
    requires cache.Valid()
    modifies cache.data
    ensures cache.Valid() && cache.View() == Arrived(old(cache.View()), u, block, data)
  {
    if u in cache.data.files {
      cache.data.files := cache.data.files[u := Emplace(cache.data.files[u], block, data)];
    }
  }
}
