/** Directories: a header slot with the number of files, then one 64-byte slot per file. */
module Directory {
  import opened Bytes
  import opened Text
  import opened Wire
  import opened Striping
  import opened TwoPhase
  import opened FlatFile
  import opened ReadPath

  const SLOT := 64
  const BS := 4096

  /** owner, permission and file name, as the client sent them. */
  type Meta = m: seq<byte> | |m| == SLOT witness seq(SLOT, _ => 0)

  /** The bytes of the header slot that nobody sets. */
  type Reserved = r: seq<byte> | |r| == SLOT - 4 witness seq(SLOT - 4, _ => 0)

  /** So many files keep all sizes and positions below 2^32. */
  const MAX_FILES := 0x3FF_FFFE

  // ---- what the callbacks do with the bytes they read

  datatype AddPlan = NoSuchDirectory | Reread(size: nat) | WriteBack(content: seq<byte>)

  /** start_meta_addfile's read callback. */
  function PlanAdd(content: seq<byte>, m: Meta): AddPlan {
    if |content| < SLOT then NoSuchDirectory else
    var count := FromBe32(content[..4]);
    if |content| < count * SLOT then Reread(count * SLOT) else
    var position := ((count + 1) * SLOT) % 0x1_0000_0000;
    var grown := Resize(content, position + SLOT);
    var filled := grown[..position] + m;
    WriteBack(Be32((count + 1) % 0x1_0000_0000) + filled[4..])
  }

  /** Which way the callback goes: too few bytes for a header mean that there is no directory, a count that asks for more
      bytes than were read means another read of so many, and anything else is written back. */
  lemma PlanAddBranches(content: seq<byte>, m: Meta)
    ensures var plan := PlanAdd(content, m);
            && (plan.NoSuchDirectory? <==> |content| < SLOT)
            && (plan.Reread? <==> |content| >= SLOT && FromBe32(content[..4]) * SLOT > |content|)
            && (plan.Reread? ==> plan.size == FromBe32(content[..4]) * SLOT)
  {
    hide FromBe32, Be32, Resize;
  }

  datatype ListPlan = NoDirectory | ReadMore(size: nat) | Listing(text: seq<byte>) | PastTheEnd

  /** Up to the first NUL, or all of the name field. */
  function UpToNul(s: seq<byte>): seq<byte> {
    if s == [] || s[0] == 0 then [] else [s[0]] + UpToNul(s[1..])
  }

  function NameIn(m: Meta): seq<byte> { UpToNul(m[4..]) }

  function Heading(count: nat): seq<byte> { Ascii("total: ") + Digits(count) + Ascii(" files\n") }

  function Names(ms: seq<Meta>): seq<byte> {
    if ms == [] then [] else Names(ms[..|ms| - 1]) + NameIn(ms[|ms| - 1]) + [10]
  }

  function SlotAt(content: seq<byte>, i: nat): seq<byte>
    requires (i + 1) * SLOT <= |content|
  {
    content[i * SLOT..(i + 1) * SLOT]
  }

  /** start_meta_ls's read callback: its loop runs over the slots 1 to count, `PastTheEnd` when one of
      them was not read. */
  method PlanList(content: seq<byte>) returns (plan: ListPlan)
    ensures |content| < SLOT ==> plan == NoDirectory
    ensures |content| >= SLOT ==>
              var count := FromBe32(content[..4]);
              && (plan.ReadMore? <==> |content| < count * SLOT) && (plan.ReadMore? ==> plan.size == count * SLOT)
              && (plan.PastTheEnd? <==> count * SLOT <= |content| < (count + 1) * SLOT)
              && ((count + 1) * SLOT <= |content| ==> plan == Listing(Heading(count) + Names(Slots(content, count))))
  {
    hide Heading, Names, FromBe32;
    if |content| < SLOT { return NoDirectory; }
    var count := FromBe32(content[..4]);
    if |content| < count * SLOT { return ReadMore(count * SLOT); }
    var names := ListNames(content, count);
    if names.None? { return PastTheEnd; }
    plan := Listing(Heading(count) + names.value);
  }

  method ListNames(content: seq<byte>, count: nat) returns (names: Option<seq<byte>>)
    requires SLOT <= |content| && count * SLOT <= |content|
    ensures names.Some? <==> (count + 1) * SLOT <= |content|
    ensures names.Some? ==> names.value == Names(Slots(content, count))
  {
    hide NameIn, Names, Slots;
    var text := [];
    NoNames(content);
    for i := 1 to count + 1
      invariant i * SLOT <= |content| && text == Names(Slots(content, i - 1))
    {
      if |content| < (i + 1) * SLOT { return None; }
      SlotsStep(content, i);
      text := text + NameIn(SlotAt(content, i)) + [10];
    }
    names := Some(text);
  }

  lemma NoNames(content: seq<byte>)
    requires SLOT <= |content|
    ensures Names(Slots(content, 0)) == []
  {
  }

  /** The first n file slots. */
  function Slots(content: seq<byte>, n: nat): (r: seq<Meta>)
    requires (n + 1) * SLOT <= |content|
    ensures |r| == n
  {
    if n == 0 then [] else Slots(content, n - 1) + [SlotAt(content, n)]
  }

  lemma SlotsStep(content: seq<byte>, n: nat)
    requires n > 0 && (n + 1) * SLOT <= |content|
    ensures Names(Slots(content, n)) == Names(Slots(content, n - 1)) + NameIn(SlotAt(content, n)) + [10]
  {
    assert Slots(content, n)[..n - 1] == Slots(content, n - 1);
  }

  // ---- names

  /** The slot a client builds for a file. */
  function MetaFor(owner: uint16, permission: uint16, name: seq<byte>): Meta
    requires |name| <= SLOT - 4
  {
    Be16(owner) + Be16(permission) + (name + Zeros(SLOT - 4 - |name|))
  }

  /** A name of up to 60 bytes without NUL is listed as it was given; owner and permission come before it. */
  lemma NameSurvives(owner: uint16, permission: uint16, name: seq<byte>)
    requires |name| <= SLOT - 4 && 0 !in name
    ensures var m := MetaFor(owner, permission, name);
            && NameIn(m) == name
            && owner == 0x100 * m[0] as int + m[1] as int && permission == 0x100 * m[2] as int + m[3] as int
  {
    var m := MetaFor(owner, permission, name);
    ShortBytes(0, owner);
    ShortBytes(0, permission);
    assert m[4..] == name + Zeros(SLOT - 4 - |name|);
    CutAtNul(name, Zeros(SLOT - 4 - |name|));
  }

  /** In general the name is cut before its first NUL. */
  lemma NameUpToNul(m: Meta, n: nat)
    requires n <= SLOT - 4 && (forall k | 4 <= k < 4 + n :: m[k] != 0) && (n < SLOT - 4 ==> m[4 + n] == 0)
    ensures NameIn(m) == m[4..4 + n]
  {
    var name, tail := m[4..4 + n], m[4 + n..];
    assert m[4..] == name + tail;
    CutAtNul(name, tail);
  }

  lemma {:induction false} CutAtNul(name: seq<byte>, tail: seq<byte>)
    requires 0 !in name && (tail != [] ==> tail[0] == 0)
    ensures UpToNul(name + tail) == name
    decreases |name|
  {
    if name == [] { assert name + tail == tail; } else {
      assert name[0] in name && (name + tail)[1..] == name[1..] + tail && name == [name[0]] + name[1..];
      CutAtNul(name[1..], tail);
    }
  }

  // ---- the listing

  /** The lines of a text, `line` being the beginning of the first one; what follows the last newline is dropped. */
  function LinesFrom(line: seq<byte>, s: seq<byte>): seq<seq<byte>>
    decreases |s|
  {
    if s == [] then [] else if s[0] == 10 then [line] + LinesFrom([], s[1..]) else LinesFrom(line + [s[0]], s[1..])
  }

  function Lines(s: seq<byte>): seq<seq<byte>> { LinesFrom([], s) }

  lemma {:induction false} LinesHaveNoNewline(line: seq<byte>, s: seq<byte>)
    requires 10 !in line
    ensures forall l | l in LinesFrom(line, s) :: 10 !in l
    decreases |s|
  {
    if s != [] { LinesHaveNoNewline(if s[0] == 10 then [] else line + [s[0]], s[1..]); }
  }

  lemma {:induction false} OneLine(line: seq<byte>, name: seq<byte>)
    requires 10 !in name
    ensures LinesFrom(line, name + [10]) == [line + name]
    decreases |name|
  {
    if name == [] {
      assert name + [10] == [10] && line + name == line && LinesFrom([], [10][1..]) == [];
    } else {
      assert name[0] in name && (name + [10])[1..] == name[1..] + [10];
      OneLine(line + [name[0]], name[1..]);
      assert line + [name[0]] + name[1..] == line + name;
    }
  }

  lemma {:induction false} LinesConcat(line: seq<byte>, a: seq<byte>, b: seq<byte>)
    requires a != [] && a[|a| - 1] == 10
    ensures LinesFrom(line, a + b) == LinesFrom(line, a) + LinesFrom([], b)
    decreases |a|
  {
    assert (a + b)[1..] == a[1..] + b;
    if |a| == 1 {
      assert a[1..] == [] && a[1..] + b == b;
    } else {
      LinesConcat(if a[0] == 10 then [] else line + [a[0]], a[1..], b);
    }
  }

  function NamesIn(ms: seq<Meta>): seq<seq<byte>> { seq(|ms|, i requires 0 <= i < |ms| => NameIn(ms[i])) }

  lemma {:induction false} NamesAreLines(ms: seq<Meta>)
    requires forall m | m in ms :: 10 !in NameIn(m)
    ensures Lines(Names(ms)) == NamesIn(ms) && (ms != [] ==> Names(ms) != [] && Names(ms)[|Names(ms)| - 1] == 10)
    decreases |ms|
  {
    hide NameIn, LinesFrom;
    if ms == [] {
      assert LinesFrom([], []) == [] by { NoLines(); }
    } else {
      var n := |ms| - 1;
      NamesAreLines(ms[..n]);
      assert ms[n] in ms;
      OneLine([], NameIn(ms[n]));
      assert [] + NameIn(ms[n]) == NameIn(ms[n]);
      assert Names(ms) == Names(ms[..n]) + (NameIn(ms[n]) + [10]);
      if n > 0 { LinesConcat([], Names(ms[..n]), NameIn(ms[n]) + [10]); } else { assert Names(ms) == NameIn(ms[n]) + [10]; }
      assert NamesIn(ms) == NamesIn(ms[..n]) + [NameIn(ms[n])];
    }
  }

  lemma NoLines()
    ensures LinesFrom([], []) == []
  {
  }

  /** "total: ", the number in decimal, " files" */
  function TotalLine(count: nat): seq<byte> {
    [116, 111, 116, 97, 108, 58, 32] + Digits(count) + [32, 102, 105, 108, 101, 115]
  }

  lemma HeadingIs(count: nat)
    ensures Heading(count) == TotalLine(count) + [10] && 10 !in TotalLine(count)
  {
    DigitsPrint(count);
    hide Digits;
    assert Ascii("total: ") == [116, 111, 116, 97, 108, 58, 32];
    assert Ascii(" files\n") == [32, 102, 105, 108, 101, 115] + [10];
    forall c | c in TotalLine(count) ensures c != 10 {}
  }

  /** What the client makes of a listing: its first line is the total, and the names are the other lines, in order,
      exactly when no name contains a newline. */
  lemma ListingLinesIff(ms: seq<Meta>, count: nat)
    ensures Lines(Heading(count) + Names(ms)) == [TotalLine(count)] + NamesIn(ms) <==> forall m | m in ms :: 10 !in NameIn(m)
  {
    hide Heading, TotalLine, LinesFrom, NameIn;
    HeadingIs(count);
    var text := Heading(count) + Names(ms);
    if forall m | m in ms :: 10 !in NameIn(m) {
      OneLine([], TotalLine(count));
      assert [] + TotalLine(count) == TotalLine(count);
      LinesConcat([], Heading(count), Names(ms));
      NamesAreLines(ms);
    } else {
      var i :| 0 <= i < |ms| && 10 in NameIn(ms[i]);
      LinesHaveNoNewline([], text);
      assert ([TotalLine(count)] + NamesIn(ms))[1 + i] == NameIn(ms[i]);
    }
  }

  // ---- images

  function Flatten(ms: seq<Meta>): (r: seq<byte>)
    ensures |r| == |ms| * SLOT
  {
    if ms == [] then [] else Flatten(ms[..|ms| - 1]) + ms[|ms| - 1]
  }

  /** The bytes of a directory with these files. */
  function Image(reserved: Reserved, ms: seq<Meta>): (r: seq<byte>)
    requires |ms| < 0x1_0000_0000
    ensures |r| == (|ms| + 1) * SLOT
  {
    Be32(|ms|) + reserved + Flatten(ms)
  }

  lemma ImageCount(reserved: Reserved, ms: seq<Meta>)
    requires |ms| < 0x1_0000_0000
    ensures Image(reserved, ms)[..4] == Be32(|ms|) && FromBe32(Be32(|ms|)) == |ms|
  {
    Be32RoundTrip(|ms|);
  }

  lemma {:induction false} FlattenAt(ms: seq<Meta>, i: nat)
    requires i < |ms|
    ensures Flatten(ms)[i * SLOT..(i + 1) * SLOT] == ms[i]
    decreases |ms|
  {
    var n := |ms| - 1;
    if i < n {
      FlattenAt(ms[..n], i);
      assert Flatten(ms)[i * SLOT..(i + 1) * SLOT] == Flatten(ms[..n])[i * SLOT..(i + 1) * SLOT];
    }
  }

  /** Slot i of an image holds the i-th file. */
  lemma ImageSlot(reserved: Reserved, ms: seq<Meta>, i: nat)
    requires |ms| < 0x1_0000_0000 && i < |ms|
    ensures SlotAt(Image(reserved, ms), i + 1) == ms[i]
  {
    hide Flatten;
    FlattenAt(ms, i);
    var im := Image(reserved, ms);
    assert im[SLOT..] == Flatten(ms);
    assert im[(i + 1) * SLOT..(i + 2) * SLOT] == im[SLOT..][i * SLOT..(i + 1) * SLOT];
  }

  /** Adding to the bytes of a directory of n files, of which at least the first n slots were read, makes
      the bytes of the directory with one more file. */
  lemma PlanAddMakesImage(reserved: Reserved, ms: seq<Meta>, m: Meta, content: seq<byte>)
    requires |ms| < MAX_FILES && (|ms| + 1) * SLOT <= |content| && content[..(|ms| + 1) * SLOT] == Image(reserved, ms)
    ensures PlanAdd(content, m) == WriteBack(Image(reserved, ms + [m]))
  {
    hide Be32, FromBe32, Image, Resize;
    ImageCount(reserved, ms);
    ImageMore(reserved, ms, m);
    GrowKeeps(content, (|ms| + 1) * SLOT);
    assert content[..4] == Image(reserved, ms)[..4];
  }

  lemma GrowKeeps(content: seq<byte>, position: nat)
    requires position <= |content|
    ensures position + SLOT == |Resize(content, position + SLOT)| && Resize(content, position + SLOT)[..position] == content[..position]
  {
  }

  lemma ImageMore(reserved: Reserved, ms: seq<Meta>, m: Meta)
    requires |ms| < MAX_FILES
    ensures Image(reserved, ms + [m]) == Be32(|ms| + 1) + (Image(reserved, ms) + m)[4..]
  {
    hide Be32, Flatten;
    Be32RoundTrip(|ms|);
    FlattenMore(ms, m);
    assert (Be32(|ms|) + reserved + Flatten(ms) + m)[4..] == reserved + (Flatten(ms) + m);
  }

  lemma FlattenMore(ms: seq<Meta>, m: Meta)
    ensures Flatten(ms + [m]) == Flatten(ms) + m
  {
    assert (ms + [m])[..|ms + [m]| - 1] == ms;
  }

  // ---- directories in the block store

  /** The file stores these bytes from address 0 on, and no log is live. */
  ghost predicate Stores(blocks: Blocks, image: seq<byte>) {
    NoLiveLog(blocks) && forall a | 0 <= a < |image| :: ByteAt(BS, blocks, a) == Some(image[a])
  }

  ghost function WriteAtStart(blocks: Blocks, content: seq<byte>, version: uint32, quick: bool): Blocks
    requires |content| < 0x1_0000_0000
  {
    Outcome(TxnOf(BS, Write(0, content, version, quick)), blocks)
  }

  lemma WriteStores(blocks: Blocks, content: seq<byte>, version: uint32, quick: bool)
    requires |content| < 0x1_0000_0000 && NoLiveLog(blocks)
    ensures Stores(WriteAtStart(blocks, content, version, quick), content)
  {
    hide ByteAt, NoLiveLog, TxnOf, Outcome, AllAgree;
    var w := Write(0, content, version, quick);
    QuietStoreAgrees(BS, w, blocks);
    forall a | 0 <= a < |content| ensures ByteAt(BS, WriteAtStart(blocks, content, version, quick), a) == Some(content[a]) {
      WriteRefinesFlat(BS, w, blocks, a);
    }
  }

  /** Its first block is committed under the version of that write. */
  lemma WriteVersion(blocks: Blocks, content: seq<byte>, version: uint32, quick: bool)
    requires 0 < |content| < 0x1_0000_0000 && NoLiveLog(blocks)
    ensures At(WriteAtStart(blocks, content, version, quick), 0).committed == version
  {
    hide NoLiveLog, Outcome, AllAgree, Pieces, PartOf;
    var w := Write(0, content, version, quick);
    QuietStoreAgrees(BS, w, blocks);
    TxnDistinct(BS, w);
    AddressInPiece(BS, 0, |content|, 0);
    PartBlock(BS, w, 0);
    OutcomeAllOrNothing(TxnOf(BS, w), blocks, 0);
  }

  /** A first read of 4096 bytes sees the stored bytes as far as it goes. */
  lemma FirstRead(blocks: Blocks, image: seq<byte>)
    requires Stores(blocks, image) && image != []
    ensures var content := ReadResult(BS, blocks, 0, BS);
            |content| == BS && forall k | 0 <= k < BS && k < |image| :: content[k] == image[k]
  {
    assert ByteAt(BS, blocks, 0).Some?;
    FirstBlockReadable(blocks);
    hide ByteAt, ReadResult, Pieces, Readable;
    ReadIsFlat(BS, blocks, 0, BS);
  }

  lemma FirstBlockReadable(blocks: Blocks)
    requires ByteAt(BS, blocks, 0).Some?
    ensures Readable(blocks, Pieces(BS, 0, BS))
  {
    hide Pieces;
    forall p | p in Pieces(BS, 0, BS) ensures ReplyTo(blocks, p).Data? {
      var i: nat :| i < |Pieces(BS, 0, BS)| && Pieces(BS, 0, BS)[i] == p;
      PieceIsClip(BS, 0, BS, i);
      assert p.block == 0 && p.offset == 0;
    }
  }

  /** A longer read of stored bytes. */
  lemma LongRead(blocks: Blocks, image: seq<byte>, size: uint32)
    requires Stores(blocks, image) && size <= |image|
    ensures ReadResult(BS, blocks, 0, size) == image[..size]
  {
    hide ByteAt, ReadResult;
    ReadBack(BS, blocks, 0, size);
    forall k | 0 <= k < size ensures ReadResult(BS, blocks, 0, size)[k] == image[k] { assert ByteAt(BS, blocks, 0 + k) == Some(image[k]); }
  }

  // ---- what is left of many files

  const BLANK: Meta := seq(SLOT, _ => 0)

  /** The slots of a directory to which these files were added: the first 63 and the last one.  The test for
      rereading does not count the header slot, so from the 65th file on, the last slot is not among the bytes
      that are read, and it is blank in the bytes that are written back. */
  function Surviving(ms: seq<Meta>): (r: seq<Meta>)
    ensures |r| == |ms|
  {
    seq(|ms|, i requires 0 <= i < |ms| => if i < 63 || i == |ms| - 1 then ms[i] else BLANK)
  }

  lemma SurvivingMore(ms: seq<Meta>, m: Meta)
    ensures |ms| <= 63 ==> Surviving(ms) == ms && Surviving(ms + [m]) == ms + [m]
    ensures |ms| >= 64 ==> Surviving(ms + [m]) == Surviving(ms)[..|ms| - 1] + [BLANK] + [m]
  {
  }

  /** The adding callback when the read stops just before the last slot. */
  lemma PlanAddBlanksLast(reserved: Reserved, ms: seq<Meta>, m: Meta, content: seq<byte>)
    requires 64 <= |ms| < MAX_FILES && content == Image(reserved, ms)[..|ms| * SLOT]
    ensures PlanAdd(content, m) == WriteBack(Image(reserved, ms[..|ms| - 1] + [BLANK] + [m]))
  {
    hide Be32, FromBe32, Image, Resize;
    var n, front := |ms|, ms[..|ms| - 1];
    ImageCount(reserved, ms);
    assert content[..4] == Image(reserved, ms)[..4];
    GrowBlank(content);
    ImageFront(reserved, ms);
    BlankImage(reserved, front, m, content);
  }

  lemma GrowBlank(content: seq<byte>)
    ensures Resize(content, |content| + 2 * SLOT) == content + BLANK + BLANK
  {
  }

  /** Everything but the last slot, apart from the count. */
  lemma ImageFront(reserved: Reserved, ms: seq<Meta>)
    requires 0 < |ms| < MAX_FILES
    ensures Image(reserved, ms)[4..|ms| * SLOT] == reserved + Flatten(ms[..|ms| - 1])
  {
    hide Be32;
    Be32RoundTrip(|ms|);
    var front := ms[..|ms| - 1];
    assert ms == front + [ms[|ms| - 1]];
    FlattenMore(front, ms[|ms| - 1]);
  }

  lemma BlankImage(reserved: Reserved, front: seq<Meta>, m: Meta, content: seq<byte>)
    requires |front| + 1 < MAX_FILES && |content| == (|front| + 1) * SLOT && content[4..] == reserved + Flatten(front)
    ensures Image(reserved, front + [BLANK] + [m]) == Be32(|front| + 2) + (content + BLANK + m)[4..]
  {
    hide Be32, Flatten;
    FlattenMore(front, BLANK);
    FlattenMore(front + [BLANK], m);
    Regroup(Be32(|front| + 2), reserved, Flatten(front), BLANK, m);
    DropFour(content, BLANK, m);
  }

  lemma Regroup(a: seq<byte>, b: seq<byte>, c: seq<byte>, d: seq<byte>, e: seq<byte>)
    ensures a + b + (c + d + e) == a + (b + c + d + e)
  {
  }

  lemma DropFour(a: seq<byte>, b: seq<byte>, c: seq<byte>)
    requires 4 <= |a|
    ensures (a + b + c)[4..] == a[4..] + b + c
  {
  }

  // ---- adding files

  datatype DirOp = DirOp(meta: Meta, version: uint32, quick: bool)

  function Metas(ops: seq<DirOp>): seq<Meta> { seq(|ops|, i requires 0 <= i < |ops| => ops[i].meta) }

  ghost function MakeDir(blocks: Blocks, reserved: Reserved, version: uint32, quick: bool): Blocks {
    WriteAtStart(blocks, Be32(0) + reserved, version, quick)
  }

  function ReadAndPlan(blocks: Blocks, m: Meta, size: uint32): AddPlan { PlanAdd(ReadResult(BS, blocks, 0, size), m) }

  /** One addfile: read, perhaps reread, extend, write back; anything but a write leaves the directory alone. */
  ghost function AddFile(blocks: Blocks, op: DirOp): Blocks {
    var first := ReadAndPlan(blocks, op.meta, BS);
    var plan := if first.Reread? then ReadAndPlan(blocks, op.meta, first.size % 0x1_0000_0000) else first;
    match plan
    case WriteBack(c) => if |c| < 0x1_0000_0000 then WriteAtStart(blocks, c, op.version, op.quick) else blocks
    case _ => blocks
  }

  /** Without a directory nothing is added: neither read finds a byte. */
  lemma NothingIsAdded(blocks: Blocks, op: DirOp)
    requires At(blocks, 0).content.None?
    ensures ReadAndPlan(blocks, op.meta, BS) == NoSuchDirectory && AddFile(blocks, op) == blocks
  {
    hide ReadResult;
    if ReadResult(BS, blocks, 0, BS) != [] { BlockZeroIsThere(blocks); }
    PlanAddBranches(ReadResult(BS, blocks, 0, BS), op.meta);
  }

  /** A second reread would ask for the same bytes as the first: the request would never end. */
  lemma SecondRereadRepeats(blocks: Blocks, m: Meta, size: uint32)
    requires ReadAndPlan(blocks, m, BS).Reread? && ReadAndPlan(blocks, m, size).Reread?
    ensures ReadAndPlan(blocks, m, size).size == ReadAndPlan(blocks, m, BS).size
  {
    hide FromBe32, ReadResult;
    BlockZeroIsThere(blocks);
    ReadStarts(blocks, BS);
    ReadStarts(blocks, size);
  }

  lemma BlockZeroIsThere(blocks: Blocks)
    requires ReadResult(BS, blocks, 0, BS) != []
    ensures At(blocks, 0).content.Some?
  {
    hide ReadResult;
    FirstPiece(blocks, BS);
  }

  /** A read from address 0 begins with what block 0 answers. */
  lemma FirstPiece(blocks: Blocks, size: uint32)
    requires 0 < size
    ensures var n := Min(size, BS); var first := Payload(ReplyTo(blocks, Piece(0, 0, n, 0)));
            && first <= ReadResult(BS, blocks, 0, size) && (size <= BS ==> first == ReadResult(BS, blocks, 0, size))
  {
    hide Cut, ReplyTo, Payload, Replies, Concat;
    var n := Min(size, BS);
    CutFromZero(BS, size);
    var p, rest := Piece(0, 0, n, 0), Cut(BS, n, size, n);
    ConcatFirst(blocks, p, rest);
    if size <= BS { NothingLeft(blocks, BS, n, size, n); }
  }

  lemma CutFromZero(bs: nat, end: nat)
    requires 0 < bs && 0 < end
    ensures Cut(bs, 0, end, 0) == [Piece(0, 0, Min(end, bs), 0)] + Cut(bs, Min(end, bs), end, Min(end, bs))
  {
    hide Cut;
    DivIs(0, bs, 0);
    CutUnfolds(bs, 0, end, 0);
  }

  lemma CutUnfolds(bs: nat, cur: nat, end: nat, start: nat)
    requires 0 < bs && cur < end
    ensures var p := Head(bs, cur, end, start); Cut(bs, cur, end, start) == [p] + Cut(bs, cur + p.len, end, start + p.len)
  {
  }

  lemma NothingLeft(blocks: Blocks, bs: nat, cur: nat, end: nat, start: nat)
    requires 0 < bs && end <= cur
    ensures Concat(Replies(blocks, Cut(bs, cur, end, start))) == []
  {
  }

  /** The first bytes of a read from address 0 are those of block 0, however long it is. */
  lemma ReadStarts(blocks: Blocks, size: uint32)
    requires At(blocks, 0).content.Some? && SLOT <= |ReadResult(BS, blocks, 0, size)|
    ensures ReadResult(BS, blocks, 0, size)[..4] == Resize(At(blocks, 0).content.value, 4)[..4]
  {
    assert 0 < size;
    hide ReadResult, Resize;
    FirstPiece(blocks, size);
    var n, c := Min(size, BS), At(blocks, 0).content.value;
    ReplyBytes(At(blocks, 0), 0, n, 0);
    ResizeStarts(c, n);
  }

  lemma ResizeStarts(c: seq<byte>, n: nat)
    requires 4 <= n
    ensures Resize(c[..Min(n, |c|)], n)[..4] == Resize(c, 4)
  {
  }

  ghost function AddFiles(blocks: Blocks, ops: seq<DirOp>): Blocks {
    if ops == [] then blocks else AddFile(AddFiles(blocks, ops[..|ops| - 1]), ops[|ops| - 1])
  }

  /** Up to 63 files are read in full. */
  lemma PlanOfFew(blocks: Blocks, reserved: Reserved, ms: seq<Meta>, m: Meta)
    requires |ms| <= 63 && Stores(blocks, Image(reserved, ms))
    ensures ReadAndPlan(blocks, m, BS) == WriteBack(Image(reserved, ms + [m]))
  {
    hide Stores, PlanAdd, Image, ReadResult;
    var content := ReadResult(BS, blocks, 0, BS);
    FirstRead(blocks, Image(reserved, ms));
    assert content[..(|ms| + 1) * SLOT] == Image(reserved, ms);
    PlanAddMakesImage(reserved, ms, m, content);
  }

  /** More files are read up to the last slot, the 64th at once and later ones by a second read. */
  lemma PlanOfMany(blocks: Blocks, reserved: Reserved, ms: seq<Meta>, m: Meta)
    requires 64 <= |ms| < MAX_FILES && Stores(blocks, Image(reserved, ms))
    ensures |ms| == 64 ==> !ReadAndPlan(blocks, m, BS).Reread?
    ensures |ms| > 64 ==> ReadAndPlan(blocks, m, BS) == Reread(|ms| * SLOT)
    ensures ReadAndPlan(blocks, m, |ms| * SLOT) == WriteBack(Image(reserved, ms[..|ms| - 1] + [BLANK] + [m]))
  {
    hide Stores, Image, ReadResult, FromBe32, Be32;
    var image := Image(reserved, ms);
    LongRead(blocks, image, BS);
    LongRead(blocks, image, |ms| * SLOT);
    ImageCount(reserved, ms);
    assert image[..BS][..4] == image[..4];
    assert |ms| > 64 ==> PlanAdd(image[..BS], m) == Reread(|ms| * SLOT);
    assert |ms| == 64 ==> !PlanAdd(image[..BS], m).Reread?;
    hide PlanAdd;
    PlanAddBlanksLast(reserved, ms, m, image[..|ms| * SLOT]);
  }

  lemma AddFileStores(blocks: Blocks, reserved: Reserved, ms: seq<Meta>, op: DirOp)
    requires |ms| < MAX_FILES && Stores(blocks, Image(reserved, Surviving(ms)))
    ensures Stores(AddFile(blocks, op), Image(reserved, Surviving(ms + [op.meta])))
  {
    hide Stores, Image, ReadAndPlan, Surviving, WriteAtStart;
    var s := Surviving(ms);
    SurvivingMore(ms, op.meta);
    if |ms| <= 63 { PlanOfFew(blocks, reserved, ms, op.meta); } else { PlanOfMany(blocks, reserved, s, op.meta); }
    StoresQuiet(blocks, Image(reserved, s));
    WriteStores(blocks, Image(reserved, Surviving(ms + [op.meta])), op.version, op.quick);
  }

  lemma StoresQuiet(blocks: Blocks, image: seq<byte>)
    requires Stores(blocks, image)
    ensures NoLiveLog(blocks)
  {
  }

  /** After mkdir and any number of files added one at a time, the directory stores their number and the
      surviving slots: all of them up to 64 files. */
  lemma {:induction false} DirectoryStores(blocks: Blocks, reserved: Reserved, version: uint32, quick: bool, ops: seq<DirOp>)
    requires NoLiveLog(blocks) && |ops| <= MAX_FILES
    ensures Stores(AddFiles(MakeDir(blocks, reserved, version, quick), ops), Image(reserved, Surviving(Metas(ops))))
    decreases |ops|
  {
    hide Stores, AddFile, Image, MakeDir, Surviving;
    if ops == [] {
      EmptyDirectory(blocks, reserved, version, quick);
      assert Surviving(Metas(ops)) == [];
    } else {
      var n := |ops| - 1;
      DirectoryStores(blocks, reserved, version, quick, ops[..n]);
      AddFileStores(AddFiles(MakeDir(blocks, reserved, version, quick), ops[..n]), reserved, Metas(ops[..n]), ops[n]);
      assert Metas(ops[..n]) + [ops[n].meta] == Metas(ops);
    }
  }

  /** The directory's first block carries the version of the last addition, or of mkdir. */
  lemma DirectoryVersion(blocks: Blocks, reserved: Reserved, version: uint32, quick: bool, ops: seq<DirOp>)
    requires NoLiveLog(blocks) && |ops| <= MAX_FILES
    ensures At(AddFiles(MakeDir(blocks, reserved, version, quick), ops), 0).committed == if ops == [] then version else ops[|ops| - 1].version
  {
    hide AddFile, Image, MakeDir, Surviving, Stores, WriteAtStart, NoLiveLog;
    if ops == [] {
      Be32RoundTrip(0);
      WriteVersion(blocks, Be32(0) + reserved, version, quick);
      MakeDirIs(blocks, reserved, version, quick);
    } else {
      var n := |ops| - 1;
      DirectoryStores(blocks, reserved, version, quick, ops[..n]);
      AddFileVersion(AddFiles(MakeDir(blocks, reserved, version, quick), ops[..n]), reserved, Metas(ops[..n]), ops[n]);
    }
  }

  lemma MakeDirIs(blocks: Blocks, reserved: Reserved, version: uint32, quick: bool)
    ensures |Be32(0) + reserved| == SLOT && MakeDir(blocks, reserved, version, quick) == WriteAtStart(blocks, Be32(0) + reserved, version, quick)
  {
    hide WriteAtStart;
    Be32RoundTrip(0);
  }

  lemma AddFileVersion(blocks: Blocks, reserved: Reserved, ms: seq<Meta>, op: DirOp)
    requires |ms| < MAX_FILES && Stores(blocks, Image(reserved, Surviving(ms)))
    ensures At(AddFile(blocks, op), 0).committed == op.version
  {
    hide Stores, Image, ReadAndPlan, Surviving, WriteAtStart;
    var s := Surviving(ms);
    SurvivingMore(ms, op.meta);
    if |ms| <= 63 { PlanOfFew(blocks, reserved, ms, op.meta); } else { PlanOfMany(blocks, reserved, s, op.meta); }
    StoresQuiet(blocks, Image(reserved, s));
    WriteVersion(blocks, Image(reserved, Surviving(ms + [op.meta])), op.version, op.quick);
  }

  lemma EmptyDirectory(blocks: Blocks, reserved: Reserved, version: uint32, quick: bool)
    requires NoLiveLog(blocks)
    ensures Stores(MakeDir(blocks, reserved, version, quick), Image(reserved, []))
  {
    hide Stores, Be32, WriteAtStart;
    Be32RoundTrip(0);
    WriteStores(blocks, Be32(0) + reserved, version, quick);
    assert Image(reserved, []) == Be32(0) + reserved;
  }

  /** The bytes of slot i + 1 of a directory with these files: the i-th file if it is one of the first 63 or the
      last, and zeros otherwise. */
  lemma SlotStored(blocks: Blocks, reserved: Reserved, ms: seq<Meta>, i: nat, k: nat)
    requires |ms| <= MAX_FILES && Stores(blocks, Image(reserved, Surviving(ms))) && i < |ms| && k < SLOT
    ensures ByteAt(BS, blocks, (i + 1) * SLOT + k) == Some(if i < 63 || i == |ms| - 1 then ms[i][k] else 0)
  {
    hide ByteAt, Image;
    var s := Surviving(ms);
    ImageSlot(reserved, s, i);
    assert SlotAt(Image(reserved, s), i + 1)[k] == Image(reserved, s)[(i + 1) * SLOT + k];
  }

  ghost predicate SlotHolds(blocks: Blocks, i: nat, m: Meta) {
    forall k | 0 <= k < SLOT :: ByteAt(BS, blocks, (i + 1) * SLOT + k) == Some(m[k])
  }

  lemma SlotHoldsIff(blocks: Blocks, reserved: Reserved, ms: seq<Meta>, i: nat)
    requires |ms| <= MAX_FILES && Stores(blocks, Image(reserved, Surviving(ms))) && i < |ms|
    ensures SlotHolds(blocks, i, ms[i]) <==> i < 63 || i == |ms| - 1 || ms[i] == BLANK
  {
    hide ByteAt, Image, Stores, Surviving;
    forall k | 0 <= k < SLOT ensures ByteAt(BS, blocks, (i + 1) * SLOT + k) == Some(if i < 63 || i == |ms| - 1 then ms[i][k] else 0) {
      SlotStored(blocks, reserved, ms, i, k);
    }
    if !(i < 63 || i == |ms| - 1) && SlotHolds(blocks, i, ms[i]) {
      assert forall k | 0 <= k < SLOT :: ByteAt(BS, blocks, (i + 1) * SLOT + k) == Some(ms[i][k]) && ms[i][k] == BLANK[k];
    }
  }

  /** After mkdir and any number of additions every slot holds the file that was added there exactly when the
      64th file and all later ones but the last are blank: without blank files, when there are at most 64.
      From the 65th on, each addition blanks the slot of its predecessor. */
  lemma KeepsAllFilesIff(blocks: Blocks, reserved: Reserved, version: uint32, quick: bool, ops: seq<DirOp>)
    requires NoLiveLog(blocks) && |ops| <= MAX_FILES
    ensures var dir := AddFiles(MakeDir(blocks, reserved, version, quick), ops);
            var all := forall i | 0 <= i < |ops| :: SlotHolds(dir, i, ops[i].meta);
            && (all <==> forall i | 63 <= i < |ops| - 1 :: ops[i].meta == BLANK)
            && ((forall i | 0 <= i < |ops| :: ops[i].meta != BLANK) ==> (all <==> |ops| <= 64))
  {
    hide AddFiles, MakeDir, SlotHolds, Stores, Image, Surviving;
    var dir := AddFiles(MakeDir(blocks, reserved, version, quick), ops);
    DirectoryStores(blocks, reserved, version, quick, ops);
    forall i | 0 <= i < |ops| ensures SlotHolds(dir, i, ops[i].meta) <==> i < 63 || i == |ops| - 1 || ops[i].meta == BLANK {
      SlotHoldsIff(dir, reserved, Metas(ops), i);
    }
    if |ops| > 64 { assert 63 < |ops| - 1 && SlotHolds(dir, 63, ops[63].meta) == (ops[63].meta == BLANK); }
  }

  // ---- listing

  /** ls, with its second read: it lists the names in the order in which they were added exactly when there
      are at most 63.  Of more files it never reads the last slot, and its loop runs past the end. */
  method ListDirectory(blocks: Blocks, ghost reserved: Reserved, ghost ms: seq<Meta>) returns (plan: ListPlan)
    requires |ms| <= MAX_FILES && Stores(blocks, Image(reserved, Surviving(ms)))
    ensures |ms| <= 63 ==> plan == Listing(Heading(|ms|) + Names(ms))
    ensures |ms| >= 64 ==> plan == PastTheEnd
  {
    hide Stores, Image, Heading, Names, ReadResult, Surviving, FromBe32;
    ghost var image := Image(reserved, Surviving(ms));
    ImageCount(reserved, Surviving(ms));
    CountRead(blocks, image);
    if |ms| <= 63 { FewRead(blocks, reserved, ms); }
    plan := PlanList(ReadResult(BS, blocks, 0, BS));
    if plan.ReadMore? {
      LongRead(blocks, image, |ms| * SLOT);
      assert image[..|ms| * SLOT][..4] == image[..4];
      plan := PlanList(ReadResult(BS, blocks, 0, plan.size % 0x1_0000_0000));
    }
  }

  /** What the first read shows of the count ... */
  lemma CountRead(blocks: Blocks, image: seq<byte>)
    requires Stores(blocks, image) && 4 <= |image|
    ensures var content := ReadResult(BS, blocks, 0, BS); |content| == BS && content[..4] == image[..4]
  {
    hide Stores, ReadResult;
    FirstRead(blocks, image);
    PrefixOf(ReadResult(BS, blocks, 0, BS), image);
  }

  /** ... and of the slots, if they fit. */
  lemma FewRead(blocks: Blocks, reserved: Reserved, ms: seq<Meta>)
    requires |ms| <= 63 && Stores(blocks, Image(reserved, Surviving(ms)))
    ensures var content := ReadResult(BS, blocks, 0, BS); |content| == BS && Slots(content, |ms|) == ms
  {
    hide Stores, Image, ReadResult, Surviving, Slots;
    SurvivingMore(ms, BLANK);
    FirstRead(blocks, Image(reserved, ms));
    FewSlots(reserved, ms, ReadResult(BS, blocks, 0, BS));
  }

  lemma FewSlots(reserved: Reserved, ms: seq<Meta>, content: seq<byte>)
    requires |ms| <= 63 && |content| == BS
    requires forall k | 0 <= k < BS && k < |Image(reserved, ms)| :: content[k] == Image(reserved, ms)[k]
    ensures Slots(content, |ms|) == ms
  {
    hide Image, Slots;
    SlotsOfImage(reserved, ms, content, |ms|);
    assert ms[..|ms|] == ms;
  }

  lemma PrefixOf(content: seq<byte>, image: seq<byte>)
    requires 4 <= |content| && 4 <= |image| && forall k | 0 <= k < |content| && k < |image| :: content[k] == image[k]
    ensures content[..4] == image[..4]
  {
  }

  lemma {:induction false} SlotsOfImage(reserved: Reserved, ms: seq<Meta>, content: seq<byte>, n: nat)
    requires n <= |ms| <= 63 && |content| == BS
    requires forall k | 0 <= k < (|ms| + 1) * SLOT :: content[k] == Image(reserved, ms)[k]
    ensures Slots(content, n) == ms[..n]
  {
    hide Image;
    if n > 0 {
      SlotsOfImage(reserved, ms, content, n - 1);
      ImageSlot(reserved, ms, n - 1);
      assert SlotAt(content, n) == SlotAt(Image(reserved, ms), n);
      assert ms[..n] == ms[..n - 1] + [ms[n - 1]];
    }
  }
}
