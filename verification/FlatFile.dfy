/** A striped file is a flat array of bytes: what committed writes and reads mean per address. */
module FlatFile {
  import opened Bytes
  import opened Striping
  import opened Participant
  import opened TwoPhase

  datatype Write = Write(pos: uint32, data: seq<byte>, version: uint32, quick: bool)

  /** A request size is a 32-bit field. */
  predicate Sized(w: Write) { |w.data| < 0x1_0000_0000 }

  /** A write whose end does not wrap around 32 bits. */
  predicate Fits(w: Write) { w.pos + |w.data| < 0x1_0000_0000 }

  function PartOf(bs: BlockSize, w: Write, i: nat): Part
    requires Sized(w) && i < |Pieces(bs, w.pos, |w.data|)|
  {
    PieceIsClip(bs, w.pos, |w.data|, i);
    var p := Pieces(bs, w.pos, |w.data|)[i];
    Part(p.block, Update(p.offset, w.data[p.start..p.start + p.len]))
  }

  /** The transaction that a write becomes: one part per piece. */
  function TxnOf(bs: BlockSize, w: Write): Txn
    requires Sized(w)
  {
    var n := |Pieces(bs, w.pos, |w.data|)|;
    Txn(seq(n, i requires 0 <= i < n => PartOf(bs, w, i)), w.version, w.quick)
  }

  lemma TxnDistinct(bs: BlockSize, w: Write)
    requires Sized(w)
    ensures DistinctBlocks(TxnOf(bs, w))
  {
    var t := TxnOf(bs, w);
    forall i, j | 0 <= i < j < |t.parts| ensures t.parts[i].block != t.parts[j].block {
      PieceIsClip(bs, w.pos, |w.data|, i);
      PieceIsClip(bs, w.pos, |w.data|, j);
    }
  }

  /** The byte stored at address a, if any. */
  function ByteAt(bs: BlockSize, blocks: Blocks, a: nat): Option<byte>
  {
    var c := At(blocks, a / bs).content;
    if c.Some? && a % bs < |c.value| then Some(c.value[a % bs]) else None
  }

  /** The flat reference for a write: written bytes, then old bytes, then the zeros that fill a
      short block up to the write; `first` says that a lies in the block where the write begins. */
  function FlatByte(w: Write, first: bool, was: Option<byte>, a: nat): Option<byte> {
    if w.pos <= a < w.pos + |w.data| then Some(w.data[a - w.pos])
    else if was.Some? then was
    else if w.data != [] && a < w.pos && first then Some(0)
    else None
  }

  function FlatWrite(bs: BlockSize, w: Write, was: Option<byte>, a: nat): Option<byte>
  {
    FlatByte(w, a / bs == w.pos / bs, was, a)
  }

  // ---- writes

  function Nth(s: seq<byte>, k: nat): Option<byte> { if k < |s| then Some(s[k]) else None }

  /** Where an address of block a / bs stands relative to the piece of that block. */
  lemma ClipPosition(bs: BlockSize, lo: nat, hi: nat, p: Piece, a: nat)
    requires IsClip(bs, lo, hi, a / bs, p)
    ensures p.offset <= a % bs < p.offset + p.len <==> lo <= a < hi
    ensures lo <= a < hi ==> p.start + (a % bs - p.offset) == a - lo
    ensures a < lo ==> a % bs < p.offset && a / bs == lo / bs
    ensures hi <= a ==> p.offset + p.len <= a % bs
  {
    DivBounds(a, bs);
    assert (a / bs + 1) * bs == (a / bs) * bs + bs;
    if a < lo {
      DivMono(a, lo, bs);
      DivBounds(lo, bs);
      if a / bs < lo / bs { MulMono(a / bs + 1, lo / bs, bs); }
    }
  }

  lemma OverlayByte(w: Write, p: Piece, was: seq<byte>, a: nat, o: nat, first: bool)
    requires 0 < p.len && p.start + p.len <= |w.data|
    requires p.offset <= o < p.offset + p.len <==> w.pos <= a < w.pos + |w.data|
    requires w.pos <= a < w.pos + |w.data| ==> p.start + (o - p.offset) == a - w.pos
    requires a < w.pos ==> o < p.offset && first
    requires w.pos + |w.data| <= a ==> p.offset + p.len <= o
    ensures Nth(Overlay(was, p.offset, w.data[p.start..p.start + p.len]), o) == FlatByte(w, first, Nth(was, o), a)
  {
    hide Overlay;
    var d := w.data[p.start..p.start + p.len];
    if w.pos <= a < w.pos + |w.data| { assert d[o - p.offset] == w.data[a - w.pos]; }
  }

  /** Overlaying one piece does to the bytes of its block what the flat write does. */
  lemma PieceByte(bs: BlockSize, w: Write, p: Piece, was: seq<byte>, a: nat)
    requires IsClip(bs, w.pos, w.pos + |w.data|, a / bs, p) && p.start + p.len <= |w.data|
    ensures Nth(Overlay(was, p.offset, w.data[p.start..p.start + p.len]), a % bs)
            == FlatWrite(bs, w, Nth(was, a % bs), a)
  {
    hide Overlay, FlatByte, Nth;
    ClipPosition(bs, w.pos, w.pos + |w.data|, p, a);
    OverlayByte(w, p, was, a, a % bs, a / bs == w.pos / bs);
  }

  /** Every written address lies in a block that the write touches. */
  lemma WrittenIsTouched(bs: BlockSize, w: Write, a: nat)
    requires Sized(w) && Fits(w) && w.pos <= a < w.pos + |w.data|
    ensures Touched(TxnOf(bs, w), a / bs)
  {
    hide PartOf, Pieces;
    AddressInPiece(bs, w.pos, |w.data|, a);
    PartBlock(bs, w, a / bs - w.pos / bs);
    assert TxnOf(bs, w).parts[a / bs - w.pos / bs].block == a / bs;
  }

  lemma PartBlock(bs: BlockSize, w: Write, i: nat)
    requires Sized(w) && i < |Pieces(bs, w.pos, |w.data|)|
    ensures PartOf(bs, w, i).block == Pieces(bs, w.pos, |w.data|)[i].block
  {
  }

  /** A block that keeps its content keeps its bytes ... */
  lemma KeptByte(bs: BlockSize, was: Blocks, now: Blocks, a: nat)
    requires Kept(At(was, a / bs), At(now, a / bs))
    ensures ByteAt(bs, now, a) == ByteAt(bs, was, a)
  {
  }

  /** ... and one that holds its part of the write has changed like the flat file. */
  lemma NewByte(bs: BlockSize, w: Write, blocks: Blocks, now: Blocks, a: nat, i: nat)
    requires Sized(w) && i < |TxnOf(bs, w).parts| && TxnOf(bs, w).parts[i].block == a / bs
    requires At(now, a / bs).content == Some(Image(At(blocks, a / bs), TxnOf(bs, w).parts[i].update))
    ensures ByteAt(bs, now, a) == FlatWrite(bs, w, ByteAt(bs, blocks, a), a)
  {
    hide FlatWrite, Pieces, Overlay, IsClip, ByteAt, Nth;
    PieceIsClip(bs, w.pos, |w.data|, i);
    PieceByte(bs, w, Pieces(bs, w.pos, |w.data|)[i], Created(At(blocks, a / bs)).content.value, a);
    assert TxnOf(bs, w).parts[i] == PartOf(bs, w, i);
    ByteIsNth(bs, blocks, a);
    ByteIsNth(bs, now, a);
  }

  lemma ByteIsNth(bs: BlockSize, blocks: Blocks, a: nat)
    ensures ByteAt(bs, blocks, a) == Nth(Created(At(blocks, a / bs)).content.value, a % bs)
  {
  }

  lemma TouchedByte(bs: BlockSize, w: Write, blocks: Blocks, a: nat, i: nat)
    requires Sized(w) && Fits(w)
    requires i < |TxnOf(bs, w).parts| && TxnOf(bs, w).parts[i].block == a / bs
    ensures var t := TxnOf(bs, w);
            ByteAt(bs, Outcome(t, blocks), a) ==
              if AllAgree(t, blocks) then FlatWrite(bs, w, ByteAt(bs, blocks, a), a) else ByteAt(bs, blocks, a)
  {
    hide Outcome, FlatWrite, AllAgree, Pieces, PartOf, ByteAt, Image;
    var t := TxnOf(bs, w);
    TxnDistinct(bs, w);
    OutcomeAllOrNothing(t, blocks, i);
    if AllAgree(t, blocks) { NewByte(bs, w, blocks, Outcome(t, blocks), a, i); } else { KeptByte(bs, blocks, Outcome(t, blocks), a); }
  }

  /** A write that every block agreed to changes the file exactly like the flat write; any other
      write changes no byte. */
  lemma WriteRefinesFlat(bs: BlockSize, w: Write, blocks: Blocks, a: nat)
    requires Sized(w)
    ensures var t := TxnOf(bs, w);
            ByteAt(bs, Outcome(t, blocks), a) ==
              if AllAgree(t, blocks) && Fits(w) then FlatWrite(bs, w, ByteAt(bs, blocks, a), a) else ByteAt(bs, blocks, a)
  {
    hide AllAgree, PartOf, Pieces;
    var t := TxnOf(bs, w);
    if !Fits(w) {
      PiecesCoverIffNoWrap(bs, w.pos, |w.data|);
    } else if Touched(t, a / bs) {
      var i: nat :| i < |t.parts| && t.parts[i].block == a / bs;
      TouchedByte(bs, w, blocks, a, i);
    } else {
      OutcomeElsewhere(t, blocks, a / bs);
      if w.pos <= a < w.pos + |w.data| { WrittenIsTouched(bs, w, a); }
      if w.data != [] { WrittenIsTouched(bs, w, w.pos); }
    }
  }

  /** Whatever the delivery order, when the last acknowledgement of a write is in, the file holds the
      flat write if the client was told OK, and its old bytes otherwise. */
  lemma EveryRunWritesFlat(bs: BlockSize, w: Write, blocks: Blocks, run: seq<State>, a: nat)
    requires Sized(w) && IsRun(TxnOf(bs, w), blocks, run) && run[|run| - 1].coord.phase.Done?
    ensures var s := run[|run| - 1];
            ByteAt(bs, s.blocks, a) ==
              if s.coord.agree then FlatWrite(bs, w, ByteAt(bs, blocks, a), a) else ByteAt(bs, blocks, a)
  {
    hide FlatWrite, ByteAt, IsRun, Outcome;
    TxnDistinct(bs, w);
    RunsEndInOutcome(TxnOf(bs, w), blocks, run);
    RunsTerminate(TxnOf(bs, w), blocks, run);
    PiecesCoverIffNoWrap(bs, w.pos, |w.data|);
    WriteRefinesFlat(bs, w, blocks, a);
  }

  /** When a write is done, each of its blocks is committed under the version of the write if the client was told
      OK, and under its old version otherwise. */
  lemma RunsCommitVersion(bs: BlockSize, w: Write, blocks: Blocks, run: seq<State>, b: nat)
    requires Sized(w) && IsRun(TxnOf(bs, w), blocks, run) && run[|run| - 1].coord.phase.Done? && Touched(TxnOf(bs, w), b)
    ensures var s, was := run[|run| - 1], At(blocks, b);
            At(s.blocks, b).committed ==
              if s.coord.agree then w.version else if was.content.None? then 0 else was.committed
  {
    hide IsRun, Outcome, Pieces, PartOf;
    var t := TxnOf(bs, w);
    TxnDistinct(bs, w);
    RunsEndInOutcome(t, blocks, run);
    var i: nat :| i < |t.parts| && t.parts[i].block == b;
    OutcomeAllOrNothing(t, blocks, i);
  }

  /** In between, from its agreed prepare to its decision, it logs its part of the write under that version, so
      that other checked prepares are refused (unless the version is 0 or the committed one). */
  lemma PreparedUnderVersion(bs: BlockSize, w: Write, blocks: Blocks, run: seq<State>, i: nat)
    requires Sized(w) && IsRun(TxnOf(bs, w), blocks, run) && i < |TxnOf(bs, w).parts| && Agrees(TxnOf(bs, w), blocks, i)
    requires var s := run[|run| - 1];
             if s.coord.phase.Voting? then Prepare(i) !in s.net else Decide(i, true) in s.net || Decide(i, false) in s.net
    ensures var t := TxnOf(bs, w); var b := BlockOf(t, run[|run| - 1], i);
            b.pending == w.version && b.log == Image(At(blocks, t.parts[i].block), t.parts[i].update)
  {
    hide IsRun, Pieces, PartOf, Agrees;
    TxnDistinct(bs, w);
    AgreedPartIsLogged(TxnOf(bs, w), blocks, run, i);
  }

  // ---- sequences of writes

  ghost predicate NoLiveLog(blocks: Blocks) {
    forall b | b in blocks :: !Live(Created(blocks[b]))
  }

  /** Without live logs every block agrees, and no log is live afterwards. */
  lemma QuietStoreAgrees(bs: BlockSize, w: Write, blocks: Blocks)
    requires Sized(w) && NoLiveLog(blocks)
    ensures AllAgree(TxnOf(bs, w), blocks) && NoLiveLog(Outcome(TxnOf(bs, w), blocks))
  {
    hide TxnOf, Outcome;
    var t := TxnOf(bs, w);
    TxnDistinct(bs, w);
    forall i: nat | i < |t.parts| ensures Agrees(t, blocks, i) { }
    forall b | b in Outcome(t, blocks) ensures !Live(Created(Outcome(t, blocks)[b])) {
      if Touched(t, b) {
        var i: nat :| i < |t.parts| && t.parts[i].block == b;
        OutcomeAllOrNothing(t, blocks, i);
      } else {
        OutcomeElsewhere(t, blocks, b);
      }
    }
  }

  ghost predicate AllFit(ws: seq<Write>) { forall k | 0 <= k < |ws| :: Sized(ws[k]) && Fits(ws[k]) }

  /** The blocks after the writes have been carried out one at a time. */
  ghost function After(bs: BlockSize, blocks: Blocks, ws: seq<Write>): Blocks
    requires AllFit(ws)
  {
    if ws == [] then blocks
    else Outcome(TxnOf(bs, ws[|ws| - 1]), After(bs, blocks, ws[..|ws| - 1]))
  }

  predicate Covers(w: Write, a: nat) { w.pos <= a < w.pos + |w.data| }

  /** One more than the index of the last of `ws` that covers a, or 0 when none does. */
  ghost function LastWriter(ws: seq<Write>, a: nat): (n: nat)
    ensures n <= |ws| && (n > 0 ==> Covers(ws[n - 1], a)) && forall j | n <= j < |ws| :: !Covers(ws[j], a)
  {
    if ws == [] then 0 else if Covers(ws[|ws| - 1], a) then |ws| else LastWriter(ws[..|ws| - 1], a)
  }

  /** After any sequence of writes the last writer of an address determines its byte; a byte that nobody wrote
      is unchanged if it was stored, and 0 or still not stored otherwise. */
  lemma {:induction false} LastWriterWins(bs: BlockSize, blocks: Blocks, ws: seq<Write>, a: nat)
    requires AllFit(ws) && NoLiveLog(blocks)
    ensures NoLiveLog(After(bs, blocks, ws))
    ensures var n, now := LastWriter(ws, a), ByteAt(bs, After(bs, blocks, ws), a);
            if n > 0 then now == Some(ws[n - 1].data[a - ws[n - 1].pos])
            else if ByteAt(bs, blocks, a).Some? then now == ByteAt(bs, blocks, a)
            else now == None || now == Some(0)
    decreases |ws|
  {
    hide TxnOf, Outcome, ByteAt, NoLiveLog;
    if ws != [] {
      var rest, w := ws[..|ws| - 1], ws[|ws| - 1];
      LastWriterWins(bs, blocks, rest, a);
      QuietStoreAgrees(bs, w, After(bs, blocks, rest));
      WriteRefinesFlat(bs, w, After(bs, blocks, rest), a);
    }
  }
}
