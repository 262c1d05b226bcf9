/** Moving a cache to another worker: the printed tables, and rebuilding the cache from them. */
module Transfer {
  import opened Bytes
  import opened LogStore
  import opened Wire
  import opened Lru
  import opened LruList
  import opened CacheModel

  // ---- host-order 32-bit numbers

  function Le32(n: uint32): seq<byte> { Le16(n % 65536) + Le16(n / 65536) }

  function FromLe32(s: seq<byte>): uint32
    requires |s| == 4
  {
    FromLe16(s[2..]) * 65536 + FromLe16(s[..2])
  }

  lemma Le32RoundTrip(n: uint32)
    ensures |Le32(n)| == 4 && FromLe32(Le32(n)) == n
    ensures var s := Le32(n); n == s[3] as int * 0x100_0000 + s[2] as int * 0x1_0000 + s[1] as int * 0x100 + s[0]
  {
    assert Le32(n)[..2] == Le16(n % 65536) && Le32(n)[2..] == Le16(n / 65536);
  }

  // ---- printing

  /** A cached block: its id and its size. */
  datatype Cell = Cell(block: uint32, size: uint32)

  datatype FileRow = FileRow(uuid: Uuid, cells: seq<Cell>)
  datatype LruRow = LruRow(uuid: Uuid, cell: Cell)

  const SPACE: byte := 32
  const COMMA: byte := 44
  const DOT: byte := 46
  const COLON: byte := 58

  function CellBytes(c: Cell): seq<byte> { Le32(c.block) + Le32(c.size) }

  /** The cells with a separator before each. */
  function CellsAfter(sep: byte, cs: seq<Cell>): seq<byte>
    decreases |cs|
  {
    if cs == [] then [] else [sep] + CellBytes(cs[0]) + CellsAfter(COMMA, cs[1..])
  }

  /** key ':' cell ',' cell ... ' ' ; a file without blocks still gets its colon. */
  function FileBytes(f: FileRow): seq<byte> {
    f.uuid + (if f.cells == [] then [COLON] else CellsAfter(COLON, f.cells)) + [SPACE]
  }

  function LruBytes(r: LruRow): seq<byte> { r.uuid + [DOT] + CellBytes(r.cell) + [SPACE] }

  function FilesBytes(fs: seq<FileRow>): seq<byte> {
    if fs == [] then [] else FileBytes(fs[0]) + FilesBytes(fs[1..])
  }

  function LrusBytes(rs: seq<LruRow>): seq<byte> {
    if rs == [] then [] else LruBytes(rs[0]) + LrusBytes(rs[1..])
  }

  /** The two tables as the next worker receives them; `rows` run from the least recent entry up. */
  function TableBytes(fs: seq<FileRow>, rows: seq<LruRow>): seq<byte> { FilesBytes(fs) + LrusBytes(rows) }

  /** A number takes four bytes, the low one first. */
  ghost predicate IsLe32(s: seq<byte>, n: uint32) {
    |s| == 4 && n == s[3] as int * 0x100_0000 + s[2] as int * 0x1_0000 + s[1] as int * 0x100 + s[0]
  }

  /** The layout of a row of the LRU table and of a cell of the file table. */
  lemma RowLayout(r: LruRow)
    ensures var s := LruBytes(r);
            && |s| == 42 && s[..32] == r.uuid && s[32] == 46 && s[41] == 32
            && IsLe32(s[33..37], r.cell.block) && IsLe32(s[37..41], r.cell.size)
  {
    hide Le32;
    Le32RoundTrip(r.cell.block);
    Le32RoundTrip(r.cell.size);
    var s := LruBytes(r);
    assert s[33..37] == Le32(r.cell.block) && s[37..41] == Le32(r.cell.size);
  }

  /** A row of the file table has a colon after the key, one before the first cell, commas between the cells, and a space at
      its end. */
  lemma FileLayout(f: FileRow, i: nat)
    requires i < |f.cells|
    ensures var s, at := FileBytes(f), 32 + 9 * i;
            && |s| == 33 + 9 * |f.cells| && s[..32] == f.uuid && s[|s| - 1] == 32
            && s[at] == (if i == 0 then 58 else 44)
            && IsLe32(s[at + 1..at + 5], f.cells[i].block) && IsLe32(s[at + 5..at + 9], f.cells[i].size)
  {
    hide CellsAfter, IsLe32;
    var s, at, cs := FileBytes(f), 32 + 9 * i, CellsAfter(COLON, f.cells);
    CellsLayout(COLON, f.cells, i);
    assert s == f.uuid + cs + [SPACE];
    assert s[at + 1..at + 5] == cs[9 * i + 1..9 * i + 5] && s[at + 5..at + 9] == cs[9 * i + 5..9 * i + 9];
  }

  lemma {:induction false} CellsLayout(sep: byte, cs: seq<Cell>, i: nat)
    requires i < |cs|
    ensures var s, at := CellsAfter(sep, cs), 9 * i;
            && |s| == 9 * |cs| && s[at] == (if i == 0 then sep else COMMA)
            && IsLe32(s[at + 1..at + 5], cs[i].block) && IsLe32(s[at + 5..at + 9], cs[i].size)
    decreases |cs|
  {
    hide Le32;
    Le32RoundTrip(cs[0].block);
    Le32RoundTrip(cs[0].size);
    var s, rest, at := CellsAfter(sep, cs), CellsAfter(COMMA, cs[1..]), 9 * i;
    assert s == [sep] + CellBytes(cs[0]) + rest;
    if |cs| > 1 {
      CellsLayout(COMMA, cs[1..], if i == 0 then 0 else i - 1);
      if i > 0 { assert s[at + 1..at + 5] == rest[at - 8..at - 4] && s[at + 5..at + 9] == rest[at - 4..at]; }
    } else {
      assert rest == [];
    }
    if i == 0 { assert s[1..5] == Le32(cs[0].block) && s[5..9] == Le32(cs[0].size); }
  }

  // ---- rebuilding

  /** What the parser does: make room for a file, ask the backend for a block, use an LRU entry. */
  datatype Action = Open(uuid: Uuid) | Fetch(uuid: Uuid, cell: Cell) | Use(uuid: Uuid, cell: Cell)

  datatype Row = Row(actions: seq<Action>, rest: seq<byte>)

  function CellAt(s: seq<byte>): Cell
    requires |s| >= 8
  {
    Cell(FromLe32(s[..4]), FromLe32(s[4..8]))
  }

  function RowAfter(acts: seq<Action>, r: Option<Row>): Option<Row> {
    if r.None? then None else Some(Row(acts + r.value.actions, r.value.rest))
  }

  function ActionsAfter(acts: seq<Action>, more: Option<seq<Action>>): Option<seq<Action>> {
    if more.None? then None else Some(acts + more.value)
  }

  /** The inner loop after a key: up to a space, or one LRU entry and the byte after it, if any.  None where it
      would read past the end. */
  function ParseRow(u: Uuid, s: seq<byte>): (r: Option<Row>)
    ensures r.Some? ==> |r.value.rest| <= |s|
    decreases |s|
  {
    if s == [] then None
    else if s[0] == SPACE then Some(Row([], s[1..]))
    else if |s| < 9 then None
    else if s[0] == DOT then Some(Row([Use(u, CellAt(s[1..]))], s[Min(10, |s|)..]))
    else RowAfter([Fetch(u, CellAt(s[1..]))], ParseRow(u, s[9..]))
  }

  function Parse(s: seq<byte>): Option<seq<Action>>
    decreases |s|
  {
    if s == [] then Some([])
    else if |s| < 32 then None
    else
      match ParseRow(s[..32], s[32..])
      case None => None
      case Some(r) => ActionsAfter([Open(s[..32])] + r.actions, Parse(r.rest))
  }

  function Fetches(u: Uuid, cs: seq<Cell>): seq<Action> {
    if cs == [] then [] else [Fetch(u, cs[0])] + Fetches(u, cs[1..])
  }

  function FileActions(fs: seq<FileRow>): seq<Action> {
    if fs == [] then [] else [Open(fs[0].uuid)] + Fetches(fs[0].uuid, fs[0].cells) + FileActions(fs[1..])
  }

  function LruActions(rs: seq<LruRow>): seq<Action> {
    if rs == [] then [] else [Open(rs[0].uuid), Use(rs[0].uuid, rs[0].cell)] + LruActions(rs[1..])
  }

  /** What the tables ask for. */
  function Actions(fs: seq<FileRow>, rs: seq<LruRow>): seq<Action> { FileActions(fs) + LruActions(rs) }

  // ---- round trip

  lemma CellRoundTrip(sep: byte, c: Cell, tail: seq<byte>)
    ensures var s := [sep] + CellBytes(c) + tail;
            && |s| == 9 + |tail| && s[0] == sep && CellAt(s[1..]) == c && s[9..] == tail
  {
    hide Le32, FromLe32;
    Le32RoundTrip(c.block);
    Le32RoundTrip(c.size);
    var s := [sep] + CellBytes(c) + tail;
    assert s[1..] == Le32(c.block) + Le32(c.size) + tail;
    assert s[1..][..4] == Le32(c.block) && s[1..][4..8] == Le32(c.size);
  }

  lemma {:induction false} ParseCells(u: Uuid, sep: byte, cs: seq<Cell>, tail: seq<byte>)
    requires sep == COLON || sep == COMMA
    ensures ParseRow(u, CellsAfter(sep, cs) + [SPACE] + tail) == Some(Row(Fetches(u, cs), tail))
    decreases |cs|
  {
    hide CellBytes, CellAt;
    if cs == [] {
      assert CellsAfter(sep, cs) + [SPACE] + tail == [SPACE] + tail;
    } else {
      var rest := CellsAfter(COMMA, cs[1..]) + [SPACE] + tail;
      ParseCells(u, COMMA, cs[1..], tail);
      CellRoundTrip(sep, cs[0], rest);
      assert CellsAfter(sep, cs) + [SPACE] + tail == [sep] + CellBytes(cs[0]) + rest;
    }
  }

  lemma ParseFile(f: FileRow, tail: seq<byte>)
    requires f.cells != []
    ensures Parse(FileBytes(f) + tail) == ActionsAfter([Open(f.uuid)] + Fetches(f.uuid, f.cells), Parse(tail))
  {
    hide ParseRow, CellsAfter;
    var s := FileBytes(f) + tail;
    assert s[..32] == f.uuid && s[32..] == CellsAfter(COLON, f.cells) + [SPACE] + tail;
    ParseCells(f.uuid, COLON, f.cells, tail);
  }

  /** A file without blocks: the parser takes the following bytes for a block, or runs off the end. */
  lemma ParseEmptyFile(f: FileRow, tail: seq<byte>)
    requires f.cells == []
    ensures var p := Parse(FileBytes(f) + tail);
            p.None? || (|p.value| >= 2 && p.value[0] == Open(f.uuid) && p.value[1].Fetch?)
  {
    var s := FileBytes(f) + tail;
    assert s[..32] == f.uuid && s[32..] == [COLON] + [SPACE] + tail;
    assert s[32..][0] == COLON;
  }

  lemma ParseLru(r: LruRow, tail: seq<byte>)
    ensures Parse(LruBytes(r) + tail) == ActionsAfter([Open(r.uuid), Use(r.uuid, r.cell)], Parse(tail))
  {
    hide CellBytes, CellAt;
    var s := LruBytes(r) + tail;
    CellRoundTrip(DOT, r.cell, [SPACE] + tail);
    assert s[..32] == r.uuid && s[32..] == [DOT] + CellBytes(r.cell) + ([SPACE] + tail);
    assert s[32..][10..] == tail by { assert s[32..][9..] == [SPACE] + tail; }
    assert ParseRow(r.uuid, s[32..]) == Some(Row([Use(r.uuid, r.cell)], tail));
    assert [Open(r.uuid)] + [Use(r.uuid, r.cell)] == [Open(r.uuid), Use(r.uuid, r.cell)];
  }

  lemma {:induction false} ParseLrus(rs: seq<LruRow>)
    ensures Parse(LrusBytes(rs)) == Some(LruActions(rs))
    decreases |rs|
  {
    hide LruBytes;
    if rs == [] { assert Parse([]) == Some([]); } else {
      hide Parse;
      ParseLru(rs[0], LrusBytes(rs[1..]));
      ParseLrus(rs[1..]);
    }
  }

  /** The next worker performs exactly the actions of the tables if and only if every listed file has
      at least one block; keys, ids and sizes may be any bytes. */
  lemma {:induction false} TablesRoundTripIff(fs: seq<FileRow>, rs: seq<LruRow>)
    ensures Parse(TableBytes(fs, rs)) == Some(Actions(fs, rs)) <==> forall f | f in fs :: f.cells != []
    decreases |fs|
  {
    hide Parse, FileBytes, LrusBytes, LruActions;
    if fs == [] {
      ParseLrus(rs);
      assert TableBytes(fs, rs) == LrusBytes(rs) && Actions(fs, rs) == LruActions(rs);
    } else {
      var f, tail := fs[0], TableBytes(fs[1..], rs);
      TablesRoundTripIff(fs[1..], rs);
      assert TableBytes(fs, rs) == FileBytes(f) + tail;
      var now := [Open(f.uuid)] + Fetches(f.uuid, f.cells);
      assert Actions(fs, rs) == now + Actions(fs[1..], rs);
      assert fs == [f] + fs[1..];
      if f.cells != [] {
        ParseFile(f, tail);
        if Parse(tail).Some? { SamePrefix(now, Parse(tail).value, Actions(fs[1..], rs)); }
      } else {
        ParseEmptyFile(f, tail);
        NextIsOpen(fs[1..], rs);
        assert f in fs;
      }
    }
  }

  lemma SamePrefix<T>(a: seq<T>, b: seq<T>, c: seq<T>)
    ensures a + b == a + c <==> b == c
  {
    if a + b == a + c { assert b == (a + b)[|a|..] == (a + c)[|a|..] == c; }
  }

  lemma NextIsOpen(fs: seq<FileRow>, rs: seq<LruRow>)
    ensures Actions(fs, rs) != [] ==> Actions(fs, rs)[0].Open?
  {
  }

  // ---- the rebuilt cache

  /** The rows of an LRU order, from the least recent entry up. */
  function RowsOf(es: seq<Entry>): seq<LruRow>
    requires forall e | e in es :: e.key.block < 0x1_0000_0000 && e.size < 0x1_0000_0000
  {
    if es == [] then []
    else var e := es[|es| - 1]; [LruRow(e.key.uuid, Cell(e.key.block, e.size))] + RowsOf(es[..|es| - 1])
  }

  /** The entries a sequence of actions uses, in order. */
  function Uses(acts: seq<Action>): seq<Entry> {
    if acts == [] then []
    else (if acts[0].Use? then [Entry(BlockId(acts[0].uuid, acts[0].cell.block), acts[0].cell.size)] else []) + Uses(acts[1..])
  }

  function Reverse(es: seq<Entry>): seq<Entry> {
    if es == [] then [] else [es[|es| - 1]] + Reverse(es[..|es| - 1])
  }

  lemma {:induction false} UsesConcat(a: seq<Action>, b: seq<Action>)
    ensures Uses(a + b) == Uses(a) + Uses(b)
    decreases |a|
  {
    if a == [] { assert a + b == b; } else {
      UsesConcat(a[1..], b);
      assert (a + b)[1..] == a[1..] + b && (a + b)[0] == a[0];
      var first := if a[0].Use? then [Entry(BlockId(a[0].uuid, a[0].cell.block), a[0].cell.size)] else [];
      assert first + (Uses(a[1..]) + Uses(b)) == first + Uses(a[1..]) + Uses(b);
    }
  }

  lemma {:induction false} FetchesUseNothing(u: Uuid, cs: seq<Cell>)
    ensures Uses(Fetches(u, cs)) == []
    decreases |cs|
  {
    if cs != [] {
      FetchesUseNothing(u, cs[1..]);
      assert Fetches(u, cs)[1..] == Fetches(u, cs[1..]);
    }
  }

  lemma {:induction false} FileActionsUseNothing(fs: seq<FileRow>)
    ensures Uses(FileActions(fs)) == []
    decreases |fs|
  {
    if fs != [] {
      var f := fs[0];
      FetchesUseNothing(f.uuid, f.cells);
      FileActionsUseNothing(fs[1..]);
      UsesConcat([Open(f.uuid)], Fetches(f.uuid, f.cells));
      UsesConcat([Open(f.uuid)] + Fetches(f.uuid, f.cells), FileActions(fs[1..]));
    }
  }

  lemma {:induction false} LruActionsUse(es: seq<Entry>)
    requires forall e | e in es :: e.key.block < 0x1_0000_0000 && e.size < 0x1_0000_0000
    ensures Uses(LruActions(RowsOf(es))) == Reverse(es)
    decreases |es|
  {
    if es != [] {
      var e, rows := es[|es| - 1], RowsOf(es);
      LruActionsUse(es[..|es| - 1]);
      assert rows[1..] == RowsOf(es[..|es| - 1]);
      var head := [Open(e.key.uuid), Action.Use(e.key.uuid, Cell(e.key.block, e.size))];
      UsesConcat(head, LruActions(rows[1..]));
      assert head[1..] == [head[1]] && head[1..][1..] == [];
      assert Uses(head) == [e];
    }
  }

  lemma {:induction false} ReverseHas(es: seq<Entry>)
    ensures |Reverse(es)| == |es| && forall e :: e in Reverse(es) <==> e in es
    decreases |es|
  {
    if es != [] {
      ReverseHas(es[..|es| - 1]);
      assert es == es[..|es| - 1] + [es[|es| - 1]];
    }
  }

  /** Using the entries of an order from the least recent up rebuilds that order. */
  lemma {:induction false} ReplayRebuilds(es: seq<Entry>, cap: nat)
    requires DistinctKeys(es) && Total(es) <= cap
    ensures AllFit(Reverse(es), cap) && UseAll(Reverse(es), cap) == es
    decreases |es|
  {
    ReplayFits(es, cap);
    if es != [] {
      var e, rest := es[0], es[1..];
      ReverseFront(e, rest);
      assert es == [e] + rest;
      TotalConcat([e], rest);
      TotalOne(e);
      ReplayRebuilds(rest, cap);
      var r := Reverse(es);
      assert r[..|r| - 1] == Reverse(rest) && r[|r| - 1] == e;
      WithoutAbsent(rest, e.key);
    }
  }

  lemma {:induction false} ReverseFront(e: Entry, rest: seq<Entry>)
    ensures Reverse([e] + rest) == Reverse(rest) + [e]
    decreases |rest|
  {
    var s := [e] + rest;
    if rest == [] {
      assert s == [e] && s[..|s| - 1] == [];
    } else {
      ReverseFront(e, rest[..|rest| - 1]);
      assert s[..|s| - 1] == [e] + rest[..|rest| - 1];
    }
  }

  lemma ReplayFits(es: seq<Entry>, cap: nat)
    requires Total(es) <= cap
    ensures AllFit(Reverse(es), cap)
  {
    ReverseHas(es);
    forall e | e in Reverse(es) ensures e.size <= cap {
      var i :| 0 <= i < |es| && es[i] == e;
      TotalSplit(es, i);
    }
  }

  /** The whole transfer: a worker that receives the tables of a cache uses its LRU entries so that an
      empty cache of the same or a larger capacity ends with the same order and the same sizes. */
  lemma TransferKeepsLru(fs: seq<FileRow>, es: seq<Entry>, cap: nat)
    requires forall f | f in fs :: f.cells != []
    requires forall e | e in es :: e.key.block < 0x1_0000_0000 && e.size < 0x1_0000_0000
    requires DistinctKeys(es) && Total(es) <= cap
    ensures var p := Parse(TableBytes(fs, RowsOf(es)));
            p.Some? && AllFit(Uses(p.value), cap) && UseAll(Uses(p.value), cap) == es
  {
    hide Parse, TableBytes, UseAll, Reverse, FileActions, LruActions, RowsOf;
    TablesRoundTripIff(fs, RowsOf(es));
    FileActionsUseNothing(fs);
    LruActionsUse(es);
    UsesConcat(FileActions(fs), LruActions(RowsOf(es)));
    ReplayRebuilds(es, cap);
    assert [] + Reverse(es) == Reverse(es);
  }

  // ---- which blocks are fetched

  /** The file rows list exactly the cached blocks, with their sizes. */
  ghost predicate Lists(rows: seq<FileRow>, fs: Files) {
    forall u, c :: Listed(rows, u, c) <==> Cached(fs, BlockId(u, c.block)).Some? && |Cached(fs, BlockId(u, c.block)).value| == c.size
  }

  ghost predicate Listed(rows: seq<FileRow>, u: Uuid, c: Cell) {
    exists i | 0 <= i < |rows| :: rows[i].uuid == u && c in rows[i].cells
  }

  function RowUuids(rows: seq<FileRow>): set<Uuid> { set r | r in rows :: r.uuid }

  /** Exactly one row for every cached file, in any order, with all of its blocks. */
  ghost predicate Prints(rows: seq<FileRow>, fs: Files) {
    && RowUuids(rows) == fs.Keys && DistinctUuids(rows)
    && forall r | r in rows :: PrintsFile(r, fs)
  }

  ghost predicate DistinctUuids(rows: seq<FileRow>) {
    forall i, j | 0 <= i < j < |rows| :: rows[i].uuid != rows[j].uuid
  }

  ghost predicate PrintsFile(r: FileRow, fs: Files) {
    r.uuid in fs && ListsBlocks(r.cells, fs[r.uuid])
  }

  lemma {:induction false} FetchesHas(u: Uuid, cs: seq<Cell>, a: Action)
    ensures a in Fetches(u, cs) <==> a.Fetch? && a.uuid == u && a.cell in cs
    decreases |cs|
  {
    if cs != [] {
      FetchesHas(u, cs[1..], a);
      assert cs == [cs[0]] + cs[1..];
    }
  }

  lemma {:induction false} FileActionsFetch(rows: seq<FileRow>, u: Uuid, c: Cell)
    ensures Fetch(u, c) in FileActions(rows) <==> Listed(rows, u, c)
    decreases |rows|
  {
    if rows != [] {
      FileActionsFetch(rows[1..], u, c);
      FetchesHas(rows[0].uuid, rows[0].cells, Fetch(u, c));
      if Listed(rows[1..], u, c) {
        var i :| 0 <= i < |rows[1..]| && rows[1..][i].uuid == u && c in rows[1..][i].cells;
        assert rows[i + 1].uuid == u;
      }
      if Listed(rows, u, c) {
        var i :| 0 <= i < |rows| && rows[i].uuid == u && c in rows[i].cells;
        if i > 0 { assert rows[1..][i - 1] == rows[i]; }
      }
    }
  }

  lemma {:induction false} LruActionsFetchNothing(rs: seq<LruRow>)
    ensures forall a | a in LruActions(rs) :: !a.Fetch?
    decreases |rs|
  {
    if rs != [] { LruActionsFetchNothing(rs[1..]); }
  }

  /** The next worker asks the backend for exactly the cached blocks, each in its cached size. */
  lemma TransferFetchesCached(rows: seq<FileRow>, rs: seq<LruRow>, fs: Files, u: Uuid, c: Cell)
    requires Lists(rows, fs) && forall f | f in rows :: f.cells != []
    ensures var p := Parse(TableBytes(rows, rs));
            p.Some? && (Fetch(u, c) in p.value <==>
                        Cached(fs, BlockId(u, c.block)).Some? && |Cached(fs, BlockId(u, c.block)).value| == c.size)
  {
    hide Parse, TableBytes, FileActions, LruActions, Cached;
    TablesRoundTripIff(rows, rs);
    FileActionsFetch(rows, u, c);
    LruActionsFetchNothing(rs);
  }

  // ---- the loops

  /** The first part of get_tables. */
  method PrintFiles(rows: seq<FileRow>) returns (out: seq<byte>)
    ensures out == FilesBytes(rows)
  {
    hide FileBytes;
    out := [];
    for i := 0 to |rows|
      invariant FilesBytes(rows) == out + FilesBytes(rows[i..])
    {
      assert rows[i..][0] == rows[i] && rows[i..][1..] == rows[i + 1..];
      var line := PrintFile(rows[i]);
      out := out + line;
    }
  }

  method PrintFile(f: FileRow) returns (out: seq<byte>)
    ensures out == FileBytes(f)
  {
    hide CellBytes, CellsPrinted, CellsAfter;
    out := f.uuid + [COLON];
    CellsPrintedNone(f.cells);
    for j := 0 to |f.cells|
      invariant out == f.uuid + CellsPrinted(f.cells, j)
    {
      CellsPrintedStep(f.cells, j);
      out := out + CellBytes(f.cells[j]);
      if j + 1 < |f.cells| { out := out + [COMMA]; }
    }
    CellsPrintedAll(f.cells);
    out := out + [SPACE];
  }

  lemma CellsPrintedNone(cs: seq<Cell>)
    ensures CellsPrinted(cs, 0) == [COLON]
  {
  }

  /** What the cell loop has written after j cells: each is followed by a comma while more come. */
  ghost function CellsPrinted(cs: seq<Cell>, j: nat): seq<byte>
    requires j <= |cs|
  {
    if j == 0 then [COLON]
    else CellsPrinted(cs, j - 1) + CellBytes(cs[j - 1]) + if j < |cs| then [COMMA] else []
  }

  lemma CellsPrintedStep(cs: seq<Cell>, j: nat)
    requires j < |cs|
    ensures CellsPrinted(cs, j + 1) == CellsPrinted(cs, j) + CellBytes(cs[j]) + if j + 1 < |cs| then [COMMA] else []
  {
  }

  lemma {:induction false} CellsPrintedRest(cs: seq<Cell>, j: nat)
    requires 0 < |cs| && j < |cs|
    ensures CellsPrinted(cs, |cs|) == CellsPrinted(cs, j) + CellBytes(cs[j]) + CellsAfter(COMMA, cs[j + 1..])
    decreases |cs| - j
  {
    hide CellBytes;
    if j + 1 < |cs| {
      CellsPrintedRest(cs, j + 1);
      assert cs[j + 1..][0] == cs[j + 1] && cs[j + 1..][1..] == cs[j + 2..];
    }
  }

  lemma CellsPrintedAll(cs: seq<Cell>)
    ensures CellsPrinted(cs, |cs|) == if cs == [] then [COLON] else CellsAfter(COLON, cs)
  {
    hide CellBytes;
    if cs != [] {
      CellsPrintedRest(cs, 0);
      hide CellsPrinted;
      CellsPrintedNone(cs);
    }
  }

  ghost predicate Printable(es: seq<Entry>) {
    forall e | e in es :: e.key.block < 0x1_0000_0000 && e.size < 0x1_0000_0000
  }

  /** The second part of get_tables: the list is walked from its tail to its head. */
  method PrintLru(lru: LruCache) returns (out: seq<byte>)
    requires lru.Valid() && Printable(Entries(lru.nodes))
    ensures out == LrusBytes(RowsOf(Entries(lru.nodes)))
  {
    hide Indexes, LruBytes;
    ghost var s, es := lru.Spine(), Entries(lru.nodes);
    ghost var i := |lru.nodes|;
    out := [];
    assert s[|s| - 1] == lru.tail && s[0] == lru.head;
    var it := lru.tail.prev;
    assert es[..i] == es;
    while it != lru.head
      invariant 0 <= i <= |lru.nodes| && it == s[i] && Printable(es[..i])
      invariant LrusBytes(RowsOf(es)) == out + LrusBytes(RowsOf(es[..i]))
      decreases i
    {
      assert i > 0 && it == lru.nodes[i - 1] && es[i - 1] == it.entry;
      assert es[..i][..i - 1] == es[..i - 1] && es[..i][i - 1] == es[i - 1];
      assert es[i - 1] in es[..i];
      var e := it.entry;
      var row := LruRow(e.key.uuid, Cell(e.key.block, e.size));
      RowsStep(es[..i]);
      out := out + LruBytes(row);
      i := i - 1;
      it := it.prev;
    }
    assert i == 0 && es[..i] == [];
  }

  /** Block ids and sizes are 32-bit numbers. */
  ghost predicate PrintableFiles(fs: Files) {
    forall k | Cached(fs, k).Some? :: k.block < 0x1_0000_0000 && |Cached(fs, k).value| < 0x1_0000_0000
  }

  /** The cells list every block exactly once, with its size. */
  ghost predicate ListsBlocks(cells: seq<Cell>, blocks: map<nat, seq<byte>>) {
    && (forall cell :: cell in cells <==> cell.block in blocks && |blocks[cell.block]| == cell.size)
    && forall i, j | 0 <= i < j < |cells| :: cells[i].block != cells[j].block
  }

  /** The inner loop over the blocks of a file, in the order of its hash map. */
  method FileCells(blocks: map<nat, seq<byte>>) returns (cells: seq<Cell>)
    requires forall b | b in blocks :: b < 0x1_0000_0000 && |blocks[b]| < 0x1_0000_0000
    ensures ListsBlocks(cells, blocks)
  {
    cells := [];
    var todo := blocks.Keys;
    while todo != {}
      invariant todo <= blocks.Keys
      invariant forall cell :: cell in cells <==> cell.block in blocks && cell.block !in todo && |blocks[cell.block]| == cell.size
      invariant forall i, j | 0 <= i < j < |cells| :: cells[i].block != cells[j].block
      decreases todo
    {
      var b :| b in todo;
      forall i | 0 <= i < |cells| ensures cells[i].block != b { assert cells[i] in cells; }
      cells := cells + [Cell(b, |blocks[b]|)];
      todo := todo - {b};
    }
  }

  /** The outer loop over the cached files, in the order of their hash map. */
  method FileRows(fs: Files) returns (rows: seq<FileRow>)
    requires PrintableFiles(fs)
    ensures Prints(rows, fs)
  {
    rows := [];
    var todo := fs.Keys;
    while todo != {}
      invariant todo <= fs.Keys
      invariant RowUuids(rows) == fs.Keys - todo && DistinctUuids(rows)
      invariant forall r | r in rows :: PrintsFile(r, fs)
      decreases todo
    {
      var u :| u in todo;
      FileIsPrintable(fs, u);
      var cells := FileCells(fs[u]);
      var row := FileRow(u, cells);
      assert PrintsFile(row, fs);
      RowUuidsMore(rows, row);
      forall i | 0 <= i < |rows| ensures rows[i].uuid != u { assert rows[i] in rows && rows[i].uuid in RowUuids(rows); }
      rows := rows + [row];
      todo := todo - {u};
    }
  }

  lemma FileIsPrintable(fs: Files, u: Uuid)
    requires PrintableFiles(fs) && u in fs
    ensures forall b | b in fs[u] :: b < 0x1_0000_0000 && |fs[u][b]| < 0x1_0000_0000
  {
    forall b | b in fs[u] ensures b < 0x1_0000_0000 && |fs[u][b]| < 0x1_0000_0000 { assert Cached(fs, BlockId(u, b)) == Some(fs[u][b]); }
  }

  lemma RowUuidsMore(rows: seq<FileRow>, row: FileRow)
    ensures RowUuids(rows + [row]) == RowUuids(rows) + {row.uuid}
  {
  }

  /** get_tables: a row for every cached file, the LRU list, then the low words of the two counters.  The
      rows are as the iteration found the files. */
  method GetTables(data: CachingMap, lru: LruCache, hits: nat, evictions: nat) returns (out: seq<byte>, ghost rows: seq<FileRow>)
    requires lru.Valid() && Printable(Entries(lru.nodes)) && PrintableFiles(data.files)
    ensures Prints(rows, data.files)
    ensures 8 <= |out| && DropMetrics(out) == TableBytes(rows, RowsOf(Entries(lru.nodes)))
    ensures out[|out| - 8..] == Le32(hits % 0x1_0000_0000) + Le32(evictions % 0x1_0000_0000)
  {
    hide FilesBytes, LrusBytes, RowsOf, Indexes, Chain, Le32, Prints, PrintableFiles;
    var listed := FileRows(data.files);
    rows := listed;
    var files := PrintFiles(listed);
    var entries := PrintLru(lru);
    Le32RoundTrip(hits % 0x1_0000_0000);
    Le32RoundTrip(evictions % 0x1_0000_0000);
    out := files + entries + (Le32(hits % 0x1_0000_0000) + Le32(evictions % 0x1_0000_0000));
  }

  /** What the proxy keeps of the tables for the next worker. */
  function DropMetrics(s: seq<byte>): seq<byte>
    requires 8 <= |s|
  {
    s[..|s| - 8]
  }

  lemma RowsStep(es: seq<Entry>)
    requires Printable(es) && es != []
    ensures var e := es[|es| - 1];
            e in es && LrusBytes(RowsOf(es)) == LruBytes(LruRow(e.key.uuid, Cell(e.key.block, e.size))) + LrusBytes(RowsOf(es[..|es| - 1]))
  {
    var rows := RowsOf(es);
    assert rows[1..] == RowsOf(es[..|es| - 1]);
  }

  lemma RowAfterMore(a: seq<Action>, b: seq<Action>, r: Option<Row>)
    ensures RowAfter(a, RowAfter(b, r)) == RowAfter(a + b, r) && RowAfter([], r) == r
  {
    if r.Some? { assert a + (b + r.value.actions) == a + b + r.value.actions && [] + r.value.actions == r.value.actions; }
  }

  lemma ActionsAfterMore(a: seq<Action>, b: seq<Action>, r: Option<seq<Action>>)
    ensures ActionsAfter(a, ActionsAfter(b, r)) == ActionsAfter(a + b, r) && ActionsAfter([], r) == r
  {
    if r.Some? { assert a + (b + r.value) == a + b + r.value && [] + r.value == r.value; }
  }

  /** build_cache's loop over the received bytes. */
  method Rebuild(table: seq<byte>) returns (actions: Option<seq<Action>>)
    ensures actions == Parse(table)
  {
    hide ParseRow;
    var done: seq<Action>, it := [], 0;
    assert table[0..] == table;
    ActionsAfterMore([], [], Parse(table));
    while it < |table|
      invariant 0 <= it <= |table| && Parse(table) == ActionsAfter(done, Parse(table[it..]))
      decreases |table| - it
    {
      if |table| - it < 32 { return None; }
      var key := table[it..it + 32];
      assert table[it..][..32] == key && table[it..][32..] == table[it + 32..];
      var row := RebuildRow(key, table[it + 32..]);
      if row.None? { return None; }
      ActionsAfterMore(done, [Open(key)] + row.value.actions, Parse(row.value.rest));
      done := done + ([Open(key)] + row.value.actions);
      it := |table| - |row.value.rest|;
      assert table[it..] == row.value.rest;
    }
    assert table[it..] == [] && done + [] == done;
    actions := Some(done);
  }

  /** The loop over the blocks of one file. */
  method RebuildRow(u: Uuid, s: seq<byte>) returns (row: Option<Row>)
    ensures row == ParseRow(u, s)
    ensures row.Some? ==> |row.value.rest| <= |s| && row.value.rest == s[|s| - |row.value.rest|..]
  {
    hide CellAt;
    var acts: seq<Action>, it := [], 0;
    assert s[0..] == s;
    RowAfterMore([], [], ParseRow(u, s));
    while true
      invariant 0 <= it <= |s| && ParseRow(u, s) == RowAfter(acts, ParseRow(u, s[it..]))
      decreases |s| - it
    {
      if it == |s| { return None; }
      assert s[it..][0] == s[it];
      if s[it] == SPACE {
        assert s[it..][1..] == s[it + 1..] && acts + [] == acts;
        return Some(Row(acts, s[it + 1..]));
      }
      if |s| - it < 9 { return None; }
      assert s[it..][1..] == s[it + 1..] && s[it..][9..] == s[it + 9..];
      if s[it] == DOT {
        var next := Min(it + 10, |s|);
        assert s[it..][Min(10, |s| - it)..] == s[next..];
        return Some(Row(acts + [Action.Use(u, CellAt(s[it + 1..]))], s[next..]));
      }
      RowAfterMore(acts, [Fetch(u, CellAt(s[it + 1..]))], ParseRow(u, s[it + 9..]));
      acts := acts + [Fetch(u, CellAt(s[it + 1..]))];
      it := it + 9;
    }
  }
}
