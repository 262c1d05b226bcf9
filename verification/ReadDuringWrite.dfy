/** A read whose per-block requests are answered while a write is on its way. */
module ReadDuringWrite {
  import opened Bytes
  import opened Striping
  import opened Participant
  import opened TwoPhase
  import opened FlatFile
  import opened ReadPath
  import LossyCommit

  // ---- one block during a write

  /** The decision to execute has reached part i. */
  ghost predicate Executed(s: State, i: nat) {
    !s.coord.phase.Voting? && s.coord.agree && Decide(i, true) !in s.net
  }

  ghost predicate ExecutedAt(t: Txn, s: State, b: int) {
    exists i | 0 <= i < |t.parts| :: t.parts[i].block == b && Executed(s, i)
  }

  lemma PrefixIsRun(t: Txn, b0: Blocks, run: seq<State>, k: nat)
    requires IsRun(t, b0, run) && k < |run|
    ensures IsRun(t, b0, run[..k + 1])
  {
    hide Next, Init;
  }

  /** In every reachable state a block holds its old content, or its new one exactly once executed. */
  lemma OldOrNew(t: Txn, b0: Blocks, run: seq<State>, k: nat, i: nat)
    requires DistinctBlocks(t) && IsRun(t, b0, run) && k < |run| && i < |t.parts|
    ensures var was := At(b0, t.parts[i].block);
            if Executed(run[k], i) then BlockOf(t, run[k], i).content == Some(Image(was, t.parts[i].update))
            else Kept(was, BlockOf(t, run[k], i))
  {
    hide Next, Init, Overlay;
    PrefixIsRun(t, b0, run, k);
    RunInv(t, b0, run[..k + 1]);
    var s := run[k];
    assert PartOk(t, Init(t, b0), s, i);
    AtStart(t, b0);
    if Executed(s, i) { assert Agrees(t, b0, i); }
  }

  lemma AtStart(t: Txn, b0: Blocks)
    ensures Init(t, b0).blocks == b0
  {
  }

  /** An executed block stays executed. */
  lemma {:induction false} ExecutedStays(t: Txn, b0: Blocks, run: seq<State>, k: nat, k': nat, i: nat)
    requires DistinctBlocks(t) && IsRun(t, b0, run) && k <= k' < |run| && i < |t.parts| && Executed(run[k], i)
    ensures Executed(run[k'], i)
    decreases k' - k
  {
    hide Init, Next, Executed;
    if k < k' {
      PrefixIsRun(t, b0, run, k);
      RunInv(t, b0, run[..k + 1]);
      ExecutedStep(t, b0, run[k], run[k + 1], i);
      ExecutedStays(t, b0, run, k + 1, k', i);
    }
  }

  lemma ExecutedStep(t: Txn, b0: Blocks, s: State, s': State, i: nat)
    requires Inv(t, b0, s) && Next(t, s, s') && i < |t.parts| && Executed(s, i)
    ensures Executed(s', i)
  {
    hide Inv, Deliver, Executed;
    var m :| m in s.net && m.i < |t.parts| && s' == Deliver(t, s, m);
    assert !s.coord.phase.Voting? by { ExecutedIsDecided(s, i); }
    NoMoreVotes(t, b0, s, m);
    ExecutedDeliver(t, s, m, i);
  }

  lemma ExecutedIsDecided(s: State, i: nat)
    requires Executed(s, i)
    ensures !s.coord.phase.Voting?
  {
  }

  lemma ExecutedDeliver(t: Txn, s: State, m: Message, i: nat)
    requires m.i < |t.parts| && (m.Decide? || m.Ack?) && Executed(s, i)
    ensures Executed(Deliver(t, s, m), i)
  {
    hide HandlePrepare, HandleDecision, At, CountVote, Decisions;
  }

  /** Once the decision is taken nobody votes or prepares any more. */
  lemma NoMoreVotes(t: Txn, b0: Blocks, s: State, m: Message)
    requires Inv(t, b0, s) && m in s.net && !s.coord.phase.Voting?
    ensures m.i < |t.parts| && (m.Decide? || m.Ack?)
  {
    hide HandlePrepare, HandleDecision, CoordInv, At, Touched;
    assert PartOk(t, Init(t, b0), s, m.i);
  }

  /** When all acknowledgements are in, everything is executed, or nothing was. */
  lemma DoneIsExecuted(t: Txn, b0: Blocks, run: seq<State>, k: nat, i: nat)
    requires DistinctBlocks(t) && IsRun(t, b0, run) && k < |run| && i < |t.parts| && run[k].coord.phase.Done?
    ensures Executed(run[k], i) <==> AllAgree(t, b0)
  {
    hide Next, Init, AllAgree;
    PrefixIsRun(t, b0, run, k);
    RunsEndInOutcome(t, b0, run[..k + 1]);
  }

  // ---- one byte during a write

  /** At every moment, each byte is the old one or the written one: the latter once its block is executed. */
  lemma ByteDuring(bs: BlockSize, w: Write, blocks: Blocks, run: seq<State>, k: nat, a: nat)
    requires Sized(w) && IsRun(TxnOf(bs, w), blocks, run) && k < |run|
    ensures ByteAt(bs, run[k].blocks, a) ==
              if ExecutedAt(TxnOf(bs, w), run[k], a / bs) then FlatWrite(bs, w, ByteAt(bs, blocks, a), a) else ByteAt(bs, blocks, a)
  {
    hide IsRun, TxnOf, Executed, FlatWrite, Kept, ByteAt, Image;
    var t := TxnOf(bs, w);
    TxnDistinct(bs, w);
    if Touched(t, a / bs) {
      var i: nat :| i < |t.parts| && t.parts[i].block == a / bs;
      OnlyPart(t, run[k], a / bs, i);
      OldOrNew(t, blocks, run, k, i);
      if Executed(run[k], i) { NewByte(bs, w, blocks, run[k].blocks, a, i); } else { KeptByte(bs, blocks, run[k].blocks, a); }
    } else {
      UntouchedBlock(t, blocks, run, k, a / bs);
      SameByte(bs, blocks, run[k].blocks, a);
    }
  }

  lemma UntouchedBlock(t: Txn, b0: Blocks, run: seq<State>, k: nat, b: nat)
    requires DistinctBlocks(t) && IsRun(t, b0, run) && k < |run| && !Touched(t, b)
    ensures At(run[k].blocks, b) == At(b0, b) && !ExecutedAt(t, run[k], b)
  {
    hide Next, Init, PartOk, CoordInv;
    PrefixIsRun(t, b0, run, k);
    RunInv(t, b0, run[..k + 1]);
  }

  lemma SameByte(bs: BlockSize, was: Blocks, now: Blocks, a: nat)
    requires At(was, a / bs) == At(now, a / bs)
    ensures ByteAt(bs, now, a) == ByteAt(bs, was, a)
  {
  }

  lemma OnlyPart(t: Txn, s: State, b: int, i: nat)
    requires DistinctBlocks(t) && i < |t.parts| && t.parts[i].block == b
    ensures ExecutedAt(t, s, b) <==> Executed(s, i)
  {
    hide Executed;
  }

  // ---- a read whose requests are answered at different moments

  /** The moment, as an index into the run, at which each piece of the read is answered. */
  ghost predicate Answered(bs: BlockSize, pos: uint32, size: uint32, times: seq<nat>, run: seq<State>) {
    |times| == |Pieces(bs, pos, size)| && forall i | 0 <= i < |times| :: times[i] < |run|
  }

  ghost predicate InRange(pos: nat, size: nat, a: int) { pos <= a < pos + size }

  /** The moment at which address a is read. */
  ghost function When(bs: BlockSize, pos: uint32, size: uint32, times: seq<nat>, run: seq<State>, a: nat): (k: nat)
    requires Answered(bs, pos, size, times, run) && pos + size < 0x1_0000_0000 && InRange(pos, size, a)
    ensures k < |run|
  {
    AddressInPiece(bs, pos, size, a);
    times[a / bs - pos / bs]
  }

  ghost function FoundIn(first: nat, times: seq<nat>, run: seq<State>): (r: Blocks)
    requires forall i | 0 <= i < |times| :: times[i] < |run|
    ensures forall i | 0 <= i < |times| :: At(r, first + i) == At(run[times[i]].blocks, first + i)
  {
    var asked := LossyCommit.Range(first, first + |times|);
    map b | b in asked :: At(run[times[b - first]].blocks, b)
  }

  /** The blocks as the read finds them. */
  ghost function Found(bs: BlockSize, pos: uint32, size: uint32, times: seq<nat>, run: seq<State>): (r: Blocks)
    requires Answered(bs, pos, size, times, run)
  {
    FoundIn(pos / bs, times, run)
  }

  /** The answers, each from its own moment. */
  ghost function Answers(bs: BlockSize, pos: uint32, size: uint32, times: seq<nat>, run: seq<State>): seq<seq<byte>>
    requires Answered(bs, pos, size, times, run)
  {
    var ps := Pieces(bs, pos, size);
    seq(|ps|, i requires 0 <= i < |ps| => Payload(ReplyTo(run[times[i]].blocks, ps[i])))
  }

  lemma AnswersAreFound(bs: BlockSize, pos: uint32, size: uint32, times: seq<nat>, run: seq<State>)
    requires Answered(bs, pos, size, times, run)
    ensures Answers(bs, pos, size, times, run) == Replies(Found(bs, pos, size, times, run), Pieces(bs, pos, size))
  {
    hide Pieces, Payload, DbRead, FoundIn, IsClip;
    var ps := Pieces(bs, pos, size);
    forall i | 0 <= i < |ps| ensures ReplyTo(Found(bs, pos, size, times, run), ps[i]) == ReplyTo(run[times[i]].blocks, ps[i]) {
      PieceBlock(bs, pos, size, i);
    }
  }

  lemma PieceBlock(bs: BlockSize, pos: uint32, size: uint32, i: nat)
    requires i < |Pieces(bs, pos, size)|
    ensures Pieces(bs, pos, size)[i].block == pos / bs + i
  {
    hide Pieces;
    PieceIsClip(bs, pos, size, i);
  }

  ghost function ByteSeen(bs: BlockSize, pos: uint32, size: uint32, times: seq<nat>, run: seq<State>, a: nat): Option<byte>
    requires Answered(bs, pos, size, times, run) && pos + size < 0x1_0000_0000 && InRange(pos, size, a)
  {
    ByteAt(bs, run[When(bs, pos, size, times, run, a)].blocks, a)
  }

  /** The buffer of such a read is, byte by byte, what was stored when that byte's block answered. */
  lemma ReadSees(bs: BlockSize, pos: uint32, size: uint32, times: seq<nat>, run: seq<State>, k: nat)
    requires Answered(bs, pos, size, times, run) && pos + size < 0x1_0000_0000 && k < size
    requires Readable(Found(bs, pos, size, times, run), Pieces(bs, pos, size))
    ensures var buf := Concat(Answers(bs, pos, size, times, run));
            |buf| == size && buf[k] == OrZero(ByteSeen(bs, pos, size, times, run, pos + k))
  {
    hide Pieces, Readable, Concat, Answers, Found, ByteAt, ByteSeen;
    var found, a := Found(bs, pos, size, times, run), pos + k;
    AnswersAreFound(bs, pos, size, times, run);
    ReadIsFlat(bs, found, pos, size);
    FoundAt(bs, pos, size, times, run, a);
  }

  lemma FoundAt(bs: BlockSize, pos: uint32, size: uint32, times: seq<nat>, run: seq<State>, a: nat)
    requires Answered(bs, pos, size, times, run) && pos + size < 0x1_0000_0000 && InRange(pos, size, a)
    ensures ByteAt(bs, Found(bs, pos, size, times, run), a) == ByteSeen(bs, pos, size, times, run, a)
  {
    hide Pieces, FoundIn;
    AddressInPiece(bs, pos, size, a);
    var i := a / bs - pos / bs;
    assert At(Found(bs, pos, size, times, run), pos / bs + i) == At(run[times[i]].blocks, pos / bs + i);
  }

  // ---- torn reads

  /** Bytes that are not stored read as 0. */
  ghost function Shown(size: nat, f: int --> Option<byte>): (r: seq<byte>)
    requires forall k | 0 <= k < size :: f.requires(k)
    ensures |r| == size && forall k | 0 <= k < size :: r[k] == OrZero(f(k))
  {
    if size == 0 then [] else Shown(size - 1, f) + [OrZero(f(size - 1))]
  }

  /** What a read of the range shows before the write. */
  ghost function OldSlice(bs: BlockSize, blocks: Blocks, pos: nat, size: nat): seq<byte> {
    Shown(size, k requires 0 <= k < size => ByteAt(bs, blocks, pos + k))
  }

  /** What it shows after the write. */
  ghost function NewSlice(bs: BlockSize, w: Write, blocks: Blocks, pos: nat, size: nat): seq<byte> {
    Shown(size, k requires 0 <= k < size => FlatWrite(bs, w, ByteAt(bs, blocks, pos + k), pos + k))
  }

  /** A reader of address a can tell the new file from the old one. */
  ghost predicate Visible(bs: BlockSize, w: Write, blocks: Blocks, a: nat) {
    OrZero(FlatWrite(bs, w, ByteAt(bs, blocks, a), a)) != OrZero(ByteAt(bs, blocks, a))
  }

  /** The reader is handed neither the old slice nor the new one. */
  ghost predicate Torn(bs: BlockSize, w: Write, blocks: Blocks, pos: uint32, size: uint32, times: seq<nat>, run: seq<State>)
    requires Answered(bs, pos, size, times, run)
  {
    var buf := Concat(Answers(bs, pos, size, times, run));
    buf != OldSlice(bs, blocks, pos, size) && buf != NewSlice(bs, w, blocks, pos, size)
  }

  /** The block of a answers after its execute. */
  ghost predicate Late(bs: BlockSize, w: Write, pos: uint32, size: uint32, times: seq<nat>, run: seq<State>, a: nat)
    requires Sized(w) && Answered(bs, pos, size, times, run) && pos + size < 0x1_0000_0000 && InRange(pos, size, a)
  {
    ExecutedAt(TxnOf(bs, w), run[When(bs, pos, size, times, run, a)], a / bs)
  }

  /** One byte of the buffer: the new one if its block answers late, the old one otherwise. */
  lemma ByteRead(bs: BlockSize, w: Write, blocks: Blocks, pos: uint32, size: uint32, times: seq<nat>, run: seq<State>, k: nat)
    requires Sized(w) && IsRun(TxnOf(bs, w), blocks, run) && k < size
    requires Answered(bs, pos, size, times, run) && pos + size < 0x1_0000_0000
    requires Readable(Found(bs, pos, size, times, run), Pieces(bs, pos, size))
    ensures var buf, old0 := Concat(Answers(bs, pos, size, times, run)), ByteAt(bs, blocks, pos + k);
            && |buf| == size
            && buf[k] == OrZero(if Late(bs, w, pos, size, times, run, pos + k) then FlatWrite(bs, w, old0, pos + k) else old0)
  {
    hide IsRun, FlatWrite, ByteAt, TxnOf, When, ExecutedAt, Answered, Readable, Found, Pieces, Concat, Answers, OrZero;
    ReadSees(bs, pos, size, times, run, k);
    ByteDuring(bs, w, blocks, run, When(bs, pos, size, times, run, pos + k), pos + k);
  }

  /** Whatever the moments at which its blocks answer, a read is handed the old slice, or the new one, or is
      torn, and it is torn exactly when the block of a visibly changed byte answers after its execute and the
      block of another one before. */
  lemma TornIff(bs: BlockSize, w: Write, blocks: Blocks, pos: uint32, size: uint32, times: seq<nat>, run: seq<State>)
    requires Sized(w) && IsRun(TxnOf(bs, w), blocks, run)
    requires Answered(bs, pos, size, times, run) && pos + size < 0x1_0000_0000
    requires Readable(Found(bs, pos, size, times, run), Pieces(bs, pos, size))
    ensures Torn(bs, w, blocks, pos, size, times, run) <==>
            && (exists a | InRange(pos, size, a) :: Visible(bs, w, blocks, a) && Late(bs, w, pos, size, times, run, a))
            && (exists a | InRange(pos, size, a) :: Visible(bs, w, blocks, a) && !Late(bs, w, pos, size, times, run, a))
  {
    hide IsRun, TxnOf, Late, Answered, Readable, Found, Pieces, Concat, Answers, Visible, OldSlice, NewSlice;
    var buf := Concat(Answers(bs, pos, size, times, run));
    var old0, new0 := OldSlice(bs, blocks, pos, size), NewSlice(bs, w, blocks, pos, size);
    SlicesFit(bs, w, blocks, pos, size, times, run);
    forall a | InRange(pos, size, a)
      ensures buf[a - pos] != old0[a - pos] <==> Visible(bs, w, blocks, a) && Late(bs, w, pos, size, times, run, a)
      ensures buf[a - pos] != new0[a - pos] <==> Visible(bs, w, blocks, a) && !Late(bs, w, pos, size, times, run, a)
    {
      SliceByte(bs, w, blocks, pos, size, times, run, a);
    }
    DifferSomewhere(pos, buf, old0);
    DifferSomewhere(pos, buf, new0);
  }

  lemma SlicesFit(bs: BlockSize, w: Write, blocks: Blocks, pos: uint32, size: uint32, times: seq<nat>, run: seq<State>)
    requires Answered(bs, pos, size, times, run) && pos + size < 0x1_0000_0000
    requires Readable(Found(bs, pos, size, times, run), Pieces(bs, pos, size))
    ensures |Concat(Answers(bs, pos, size, times, run))| == size
    ensures |OldSlice(bs, blocks, pos, size)| == size && |NewSlice(bs, w, blocks, pos, size)| == size
  {
    hide Pieces, Readable, Concat, Answers, Found, ByteAt, FlatWrite;
    AnswersAreFound(bs, pos, size, times, run);
    ReadIsFlat(bs, Found(bs, pos, size, times, run), pos, size);
  }

  lemma SliceByte(bs: BlockSize, w: Write, blocks: Blocks, pos: uint32, size: uint32, times: seq<nat>, run: seq<State>, a: nat)
    requires Sized(w) && IsRun(TxnOf(bs, w), blocks, run) && InRange(pos, size, a)
    requires Answered(bs, pos, size, times, run) && pos + size < 0x1_0000_0000
    requires Readable(Found(bs, pos, size, times, run), Pieces(bs, pos, size))
    ensures var buf := Concat(Answers(bs, pos, size, times, run));
            && |buf| == size
            && (buf[a - pos] != OldSlice(bs, blocks, pos, size)[a - pos] <==> Visible(bs, w, blocks, a) && Late(bs, w, pos, size, times, run, a))
            && (buf[a - pos] != NewSlice(bs, w, blocks, pos, size)[a - pos] <==> Visible(bs, w, blocks, a) && !Late(bs, w, pos, size, times, run, a))
  {
    hide IsRun, FlatWrite, ByteAt, TxnOf, Late, Answered, Readable, Found, Pieces, Concat, Answers, OrZero;
    ByteRead(bs, w, blocks, pos, size, times, run, a - pos);
    assert pos + (a - pos) == a;
  }

  lemma DifferSomewhere(pos: nat, x: seq<byte>, y: seq<byte>)
    requires |x| == |y|
    ensures x != y <==> exists a | InRange(pos, |x|, a) :: x[a - pos] != y[a - pos]
  {
    if x != y {
      var k :| 0 <= k < |x| && x[k] != y[k];
      assert InRange(pos, |x|, pos + k) && x[pos + k - pos] != y[pos + k - pos];
    }
  }

  // ---- which reads can be torn

  /** Only written bytes change visibly: padding with zeros does not show. */
  lemma VisibleIsWritten(bs: BlockSize, w: Write, blocks: Blocks, a: nat)
    requires Visible(bs, w, blocks, a)
    ensures Covers(w, a)
  {
    hide ByteAt;
  }

  /** Stored bytes stay stored: no moment of a write shortens a block. */
  lemma BlockGrows(bs: BlockSize, w: Write, blocks: Blocks, run: seq<State>, k: nat, b: nat)
    requires Sized(w) && IsRun(TxnOf(bs, w), blocks, run) && k < |run| && At(blocks, b).content.Some?
    ensures var now := At(run[k].blocks, b).content; now.Some? && |now.value| >= |At(blocks, b).content.value|
  {
    hide IsRun, TxnOf, Executed;
    var t := TxnOf(bs, w);
    TxnDistinct(bs, w);
    if Touched(t, b) {
      var i: nat :| i < |t.parts| && t.parts[i].block == b;
      OldOrNew(t, blocks, run, k, i);
    } else {
      UntouchedBlock(t, blocks, run, k, b);
    }
  }

  /** A range that is readable before the write stays readable throughout it. */
  lemma StaysReadable(bs: BlockSize, w: Write, blocks: Blocks, pos: uint32, size: uint32, times: seq<nat>, run: seq<State>)
    requires Sized(w) && IsRun(TxnOf(bs, w), blocks, run) && Answered(bs, pos, size, times, run)
    requires Readable(blocks, Pieces(bs, pos, size))
    ensures Readable(Found(bs, pos, size, times, run), Pieces(bs, pos, size))
  {
    hide IsRun, TxnOf, Pieces, FoundIn;
    var ps := Pieces(bs, pos, size);
    forall p | p in ps ensures ReplyTo(Found(bs, pos, size, times, run), p).Data? {
      var i: nat :| i < |ps| && ps[i] == p;
      PieceBlock(bs, pos, size, i);
      assert ReplyTo(blocks, p).Data?;
      BlockGrows(bs, w, blocks, run, times[i], p.block);
      assert At(Found(bs, pos, size, times, run), pos / bs + i) == At(run[times[i]].blocks, pos / bs + i);
    }
  }

  /** Something is executed only in a write that every block agreed to. */
  lemma ExecutedMeansAgreed(t: Txn, b0: Blocks, run: seq<State>, k: nat, b: int)
    requires DistinctBlocks(t) && IsRun(t, b0, run) && k < |run| && ExecutedAt(t, run[k], b)
    ensures AllAgree(t, b0)
  {
    hide Next, Init, Agrees;
    PrefixIsRun(t, b0, run, k);
    RunInv(t, b0, run[..k + 1]);
  }

  /** For every agreed write that visibly changes bytes of two blocks there is a run, without any loss, of
      which every read of both that finds its blocks readable is torn, although they all answer at its end. */
  lemma TearingRun(bs: BlockSize, w: Write, blocks: Blocks, pos: uint32, size: uint32, a: nat, a': nat)
    returns (run: seq<State>, times: seq<nat>)
    requires Sized(w) && Fits(w) && AllAgree(TxnOf(bs, w), blocks) && pos + size < 0x1_0000_0000
    requires InRange(pos, size, a) && InRange(pos, size, a') && a / bs < a' / bs
    requires Visible(bs, w, blocks, a) && Visible(bs, w, blocks, a')
    ensures IsRun(TxnOf(bs, w), blocks, run) && Answered(bs, pos, size, times, run)
    ensures Readable(Found(bs, pos, size, times, run), Pieces(bs, pos, size)) ==> Torn(bs, w, blocks, pos, size, times, run)
    ensures AllAtEnd(times, run) && run[|run| - 1].coord.phase.Deciding? && ExecutedAt(TxnOf(bs, w), run[|run| - 1], a / bs)
  {
    hide AllAgree, Visible, IsRun, Pieces, TxnOf, Late, Torn, Executed, Readable, Found;
    var t := TxnOf(bs, w);
    TxnDistinct(bs, w);
    VisibleIsWritten(bs, w, blocks, a);
    VisibleIsWritten(bs, w, blocks, a');
    var i := PartHolding(bs, w, a);
    var j := PartHolding(bs, w, a');
    run := LossyCommit.Halfway(t, blocks, i + 1);
    RunNotEmpty(t, blocks, run);
    var now := |run| - 1;
    times := seq(|Pieces(bs, pos, size)|, _ => now);
    assert Executed(run[now], i) && !Executed(run[now], j) by { DecidedOnly(run[now], i, j, |t.parts|); }
    LateNow(bs, w, pos, size, times, run, a, i);
    LateNow(bs, w, pos, size, times, run, a', j);
    OnlyPart(t, run[now], a / bs, i);
    if Readable(Found(bs, pos, size, times, run), Pieces(bs, pos, size)) { TornIff(bs, w, blocks, pos, size, times, run); }
  }

  ghost predicate AllAtEnd(times: seq<nat>, run: seq<State>) {
    run != [] && forall k | 0 <= k < |times| :: times[k] == |run| - 1
  }

  /** Torn reads happen, also over blocks that did not exist before the write: for every agreed write that
      visibly changes bytes of two blocks there is a run in which a read of both is answered in full, all at
      one moment, and torn. */
  lemma ReadsCanTear(bs: BlockSize, w: Write, blocks: Blocks, a: nat, a': nat) returns (run: seq<State>, times: seq<nat>)
    requires Sized(w) && Fits(w) && AllAgree(TxnOf(bs, w), blocks)
    requires Covers(w, a) && Covers(w, a') && a / bs < a' / bs && Visible(bs, w, blocks, a) && Visible(bs, w, blocks, a')
    ensures a < a' && IsRun(TxnOf(bs, w), blocks, run) && Answered(bs, a, a' + 1 - a, times, run)
    ensures Readable(Found(bs, a, a' + 1 - a, times, run), Pieces(bs, a, a' + 1 - a))
    ensures Torn(bs, w, blocks, a, a' + 1 - a, times, run)
  {
    hide AllAgree, Visible, IsRun, Pieces, TxnOf, Torn, ExecutedAt, Found, Readable, Answered;
    if a' <= a { DivMono(a', a, bs); }
    var size := a' + 1 - a;
    assert InRange(a, size, a) && InRange(a, size, a');
    run, times := TearingRun(bs, w, blocks, a, size, a, a');
    WrittenIsReadable(bs, w, blocks, a, size, times, run);
  }

  /** Once the decision is taken, a written range whose first block is executed can be read. */
  lemma WrittenIsReadable(bs: BlockSize, w: Write, blocks: Blocks, pos: uint32, size: uint32, times: seq<nat>, run: seq<State>)
    requires Sized(w) && Fits(w) && IsRun(TxnOf(bs, w), blocks, run) && Answered(bs, pos, size, times, run)
    requires 0 < size && w.pos <= pos && pos + size <= w.pos + |w.data| && AllAtEnd(times, run)
    requires run[|run| - 1].coord.phase.Deciding? && ExecutedAt(TxnOf(bs, w), run[|run| - 1], pos / bs)
    ensures Readable(Found(bs, pos, size, times, run), Pieces(bs, pos, size))
  {
    hide IsRun, TxnOf, Pieces, FoundIn, ReplyTo, ExecutedAt;
    var ps, now := Pieces(bs, pos, size), |run| - 1;
    forall p | p in ps ensures ReplyTo(Found(bs, pos, size, times, run), p).Data? {
      var i: nat :| i < |ps| && ps[i] == p;
      PieceBlock(bs, pos, size, i);
      assert At(Found(bs, pos, size, times, run), pos / bs + i) == At(run[times[i]].blocks, pos / bs + i);
      assert ReplyTo(run[now].blocks, p).Data? by {
        if i == 0 { FirstReadable(bs, w, blocks, pos, size, run); } else { LaterReadable(bs, w, blocks, pos, size, run, i); }
      }
      SameReply(Found(bs, pos, size, times, run), run[now].blocks, p);
    }
  }

  lemma SameReply(x: Blocks, y: Blocks, p: Piece)
    requires At(x, p.block) == At(y, p.block)
    ensures ReplyTo(x, p) == ReplyTo(y, p)
  {
  }

  lemma FirstReadable(bs: BlockSize, w: Write, blocks: Blocks, pos: uint32, size: uint32, run: seq<State>)
    requires Sized(w) && IsRun(TxnOf(bs, w), blocks, run) && run != [] && Covers(w, pos) && |Pieces(bs, pos, size)| > 0
    requires ExecutedAt(TxnOf(bs, w), run[|run| - 1], pos / bs)
    ensures ReplyTo(run[|run| - 1].blocks, Pieces(bs, pos, size)[0]).Data?
  {
    hide IsRun, TxnOf, Pieces, ReplyTo, ExecutedAt, ByteAt;
    var p := Pieces(bs, pos, size)[0];
    PieceIsClip(bs, pos, size, 0);
    DivBounds(pos, bs);
    assert p.block * bs + p.offset == pos;
    ByteDuring(bs, w, blocks, run, |run| - 1, pos);
    StartStored(bs, run[|run| - 1].blocks, p);
  }

  lemma LaterReadable(bs: BlockSize, w: Write, blocks: Blocks, pos: uint32, size: uint32, run: seq<State>, i: nat)
    requires Sized(w) && Fits(w) && IsRun(TxnOf(bs, w), blocks, run) && run != [] && run[|run| - 1].coord.phase.Deciding?
    requires w.pos <= pos && pos + size <= w.pos + |w.data| && 0 < i < |Pieces(bs, pos, size)|
    ensures ReplyTo(run[|run| - 1].blocks, Pieces(bs, pos, size)[i]).Data?
  {
    hide IsRun, TxnOf, Pieces;
    var p := Pieces(bs, pos, size)[i];
    PieceIsClip(bs, pos, size, i);
    PiecesAbut(bs, pos, size, i - 1);
    var a := p.block * bs;
    assert a < (p.block + 1) * bs by { assert (p.block + 1) * bs == p.block * bs + bs; }
    DivIs(a, bs, p.block);
    var j := PartHolding(bs, w, a);
    TxnDistinct(bs, w);
    DecidedIsStored(TxnOf(bs, w), blocks, run, j);
  }

  /** Once the decision is taken, every block of the write exists. */
  lemma DecidedIsStored(t: Txn, b0: Blocks, run: seq<State>, i: nat)
    requires DistinctBlocks(t) && IsRun(t, b0, run) && i < |t.parts| && run[|run| - 1].coord.phase.Deciding?
    ensures BlockOf(t, run[|run| - 1], i).content.Some?
  {
    hide Next, Init, Overlay;
    RunInv(t, b0, run);
    assert PartOk(t, Init(t, b0), run[|run| - 1], i);
  }

  ghost predicate CanTear(bs: BlockSize, w: Write, blocks: Blocks, pos: uint32, size: uint32)
    requires Sized(w)
  {
    exists run: seq<State>, times: seq<nat> ::
      IsRun(TxnOf(bs, w), blocks, run) && Answered(bs, pos, size, times, run) && Torn(bs, w, blocks, pos, size, times, run)
  }

  ghost predicate ChangesTwoBlocks(bs: BlockSize, w: Write, blocks: Blocks, pos: nat, size: nat) {
    exists a, a' | InRange(pos, size, a) && InRange(pos, size, a') ::
      Visible(bs, w, blocks, a) && Visible(bs, w, blocks, a') && a / bs != a' / bs
  }

  /** Whether a read can be torn is known before the write starts: a read of a readable range can be torn in
      some run exactly when every block agrees to the write and two visibly changed addresses of the range lie
      in different blocks.  Every other read is handed the old slice or the new one. */
  lemma CanTearIff(bs: BlockSize, w: Write, blocks: Blocks, pos: uint32, size: uint32)
    requires Sized(w) && pos + size < 0x1_0000_0000 && Readable(blocks, Pieces(bs, pos, size))
    ensures CanTear(bs, w, blocks, pos, size)
            <==> Fits(w) && AllAgree(TxnOf(bs, w), blocks) && ChangesTwoBlocks(bs, w, blocks, pos, size)
  {
    hide IsRun, TxnOf, Pieces, Torn, Readable, Answered, Visible, AllAgree, Found;
    if CanTear(bs, w, blocks, pos, size) {
      var run: seq<State>, times: seq<nat> :|
        IsRun(TxnOf(bs, w), blocks, run) && Answered(bs, pos, size, times, run) && Torn(bs, w, blocks, pos, size, times, run);
      TornMeans(bs, w, blocks, pos, size, times, run);
    }
    if Fits(w) && AllAgree(TxnOf(bs, w), blocks) && ChangesTwoBlocks(bs, w, blocks, pos, size) {
      var a, a' :| InRange(pos, size, a) && InRange(pos, size, a')
                   && Visible(bs, w, blocks, a) && Visible(bs, w, blocks, a') && a / bs != a' / bs;
      var run, times := TearingRun(bs, w, blocks, pos, size, if a / bs < a' / bs then a else a', if a / bs < a' / bs then a' else a);
      StaysReadable(bs, w, blocks, pos, size, times, run);
    }
  }

  lemma TornMeans(bs: BlockSize, w: Write, blocks: Blocks, pos: uint32, size: uint32, times: seq<nat>, run: seq<State>)
    requires Sized(w) && pos + size < 0x1_0000_0000 && Readable(blocks, Pieces(bs, pos, size))
    requires IsRun(TxnOf(bs, w), blocks, run) && Answered(bs, pos, size, times, run) && Torn(bs, w, blocks, pos, size, times, run)
    ensures Fits(w) && AllAgree(TxnOf(bs, w), blocks) && ChangesTwoBlocks(bs, w, blocks, pos, size)
  {
    hide IsRun, TxnOf, Pieces, Torn, Readable, Answered, Visible, AllAgree, Found, ExecutedAt, Late;
    StaysReadable(bs, w, blocks, pos, size, times, run);
    TornIff(bs, w, blocks, pos, size, times, run);
    var a :| InRange(pos, size, a) && Visible(bs, w, blocks, a) && Late(bs, w, pos, size, times, run, a);
    var a' :| InRange(pos, size, a') && Visible(bs, w, blocks, a') && !Late(bs, w, pos, size, times, run, a');
    LateMeans(bs, w, blocks, pos, size, times, run, a);
    assert a / bs != a' / bs by { if a / bs == a' / bs { SameLate(bs, w, pos, size, times, run, a, a'); } }
  }

  lemma LateMeans(bs: BlockSize, w: Write, blocks: Blocks, pos: uint32, size: uint32, times: seq<nat>, run: seq<State>, a: nat)
    requires Sized(w) && IsRun(TxnOf(bs, w), blocks, run) && Answered(bs, pos, size, times, run)
    requires pos + size < 0x1_0000_0000 && InRange(pos, size, a) && Late(bs, w, pos, size, times, run, a)
    ensures Fits(w) && AllAgree(TxnOf(bs, w), blocks)
  {
    hide IsRun, Pieces, Answered, AllAgree, Executed, PartOf;
    TxnDistinct(bs, w);
    var t := TxnOf(bs, w);
    ExecutedMeansAgreed(t, blocks, run, When(bs, pos, size, times, run, a), a / bs);
    assert |t.parts| > 0;
    PieceIsClip(bs, w.pos, |w.data|, 0);
  }

  /** Addresses of one block are read at one moment. */
  lemma SameLate(bs: BlockSize, w: Write, pos: uint32, size: uint32, times: seq<nat>, run: seq<State>, a: nat, a': nat)
    requires Sized(w) && Answered(bs, pos, size, times, run) && pos + size < 0x1_0000_0000
    requires InRange(pos, size, a) && InRange(pos, size, a') && a / bs == a' / bs
    ensures Late(bs, w, pos, size, times, run, a) <==> Late(bs, w, pos, size, times, run, a')
  {
    hide TxnOf, Pieces, ExecutedAt;
  }

  lemma DecidedOnly(s: State, i: nat, j: nat, n: nat)
    requires s.coord.phase.Deciding? && s.coord.agree && i < j < n
    requires forall p: nat | p < n :: Decide(p, true) in s.net <==> i + 1 <= p
    ensures Executed(s, i) && !Executed(s, j)
  {
  }

  lemma PartHolding(bs: BlockSize, w: Write, a: nat) returns (i: nat)
    requires Sized(w) && Fits(w) && Covers(w, a)
    ensures i == a / bs - w.pos / bs && i < |TxnOf(bs, w).parts| && TxnOf(bs, w).parts[i].block == a / bs
  {
    hide Pieces, PartOf;
    AddressInPiece(bs, w.pos, |w.data|, a);
    i := a / bs - w.pos / bs;
    PartBlock(bs, w, i);
  }

  /** A read that is answered at one moment is late where the block was executed by then. */
  lemma LateNow(bs: BlockSize, w: Write, pos: uint32, size: uint32, times: seq<nat>, run: seq<State>, a: nat, i: nat)
    requires Sized(w) && Answered(bs, pos, size, times, run) && pos + size < 0x1_0000_0000 && InRange(pos, size, a)
    requires run != [] && (forall k | 0 <= k < |times| :: times[k] == |run| - 1)
    requires DistinctBlocks(TxnOf(bs, w)) && i < |TxnOf(bs, w).parts| && TxnOf(bs, w).parts[i].block == a / bs
    ensures Late(bs, w, pos, size, times, run, a) <==> Executed(run[|run| - 1], i)
  {
    hide TxnOf, Pieces, Executed, ExecutedAt;
    AddressInPiece(bs, pos, size, a);
    OnlyPart(TxnOf(bs, w), run[|run| - 1], a / bs, i);
  }

  lemma RunNotEmpty(t: Txn, b0: Blocks, run: seq<State>)
    requires IsRun(t, b0, run)
    ensures run != []
  {
  }
}
