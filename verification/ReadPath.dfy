/** Reading a byte range: one request per block, answers in any order, one buffer at the end. */
module ReadPath {
  import opened Bytes
  import opened Striping
  import opened Participant
  import opened TwoPhase
  import opened FlatFile

  /** A server's answer.  `Overrun` is a read that starts beyond the stored bytes: the length of the
      copy wraps around and the copy leaves the block. */
  datatype Reply = Data(bytes: seq<byte>) | Missing | Overrun

  /** The stored part of the requested range, padded with zeros to the requested size. */
  function DbRead(b: Block, position: nat, size: nat): Reply {
    if b.content.None? then Missing
    else if |b.content.value| < position then Overrun
    else Data(Resize(b.content.value[position..Min(position + size, |b.content.value|)], size))
  }

  /** A block is answered exactly when it exists and the read starts within it or right at its end; then with as
      many bytes as asked for, those behind the stored ones being 0.  Beyond its end the copy overruns. */
  lemma ReplyIs(b: Block, position: nat, size: nat)
    ensures var r := DbRead(b, position, size);
            match b.content
            case None => r == Missing
            case Some(c) =>
              && (r.Overrun? <==> position > |c|)
              && (r.Data? <==> position <= |c|)
              && (r.Data? ==> |r.bytes| == size)
              && (r.Data? ==> forall j | 0 <= j < size :: r.bytes[j] == if position + j < |c| then c[position + j] else 0)
  {
  }

  function ReplyTo(blocks: Blocks, p: Piece): Reply { DbRead(At(blocks, p.block), p.offset, p.len) }

  /** What the reader appends for an answer: an error carries no bytes. */
  function Payload(r: Reply): seq<byte> { if r.Data? then r.bytes else [] }

  /** The answers to the requests for `ps`, by index. */
  function Replies(blocks: Blocks, ps: seq<Piece>): (r: seq<seq<byte>>)
    ensures |r| == |ps| && forall i | 0 <= i < |ps| :: r[i] == Payload(ReplyTo(blocks, ps[i]))
  {
    if ps == [] then [] else [Payload(ReplyTo(blocks, ps[0]))] + Replies(blocks, ps[1..])
  }

  function Concat(ss: seq<seq<byte>>): seq<byte> {
    if ss == [] then [] else ss[0] + Concat(ss[1..])
  }

  /** The buffer handed to the client once every answer is in. */
  function ReadResult(bs: BlockSize, blocks: Blocks, pos: uint32, size: uint32): seq<byte>
  {
    Concat(Replies(blocks, Pieces(bs, pos, size)))
  }

  // ---- a read means the flat slice

  function OrZero(b: Option<byte>): byte { if b.Some? then b.value else 0 }

  /** Every touched block exists and is long enough to start reading from it. */
  ghost predicate Readable(blocks: Blocks, ps: seq<Piece>) {
    forall p | p in ps :: ReplyTo(blocks, p).Data?
  }

  lemma ReplyBytes(b: Block, position: nat, size: nat, j: nat)
    requires DbRead(b, position, size).Data?
    ensures var d := DbRead(b, position, size).bytes;
            |d| == size && (j < size ==> d[j] == OrZero(Nth(b.content.value, position + j)))
  {
  }

  /** The answer for a piece that starts at address cur. */
  lemma PieceReply(bs: BlockSize, blocks: Blocks, cur: nat, len: nat, start: nat, j: nat)
    requires len <= bs - cur % bs && ReplyTo(blocks, Piece(cur / bs, cur % bs, len, start)).Data?
    ensures var d := Payload(ReplyTo(blocks, Piece(cur / bs, cur % bs, len, start)));
            |d| == len && (j < len ==> d[j] == OrZero(ByteAt(bs, blocks, cur + j)))
  {
    ReplyBytes(At(blocks, cur / bs), cur % bs, len, j);
    hide DbRead;
    if j < len {
      SameBlock(bs, cur, cur + j);
      DivBounds(cur, bs);
      DivBounds(cur + j, bs);
    }
  }

  lemma ConcatFirst(blocks: Blocks, p: Piece, rest: seq<Piece>)
    ensures Concat(Replies(blocks, [p] + rest)) == Payload(ReplyTo(blocks, p)) + Concat(Replies(blocks, rest))
  {
    assert ([p] + rest)[1..] == rest;
    assert Replies(blocks, [p] + rest)[1..] == Replies(blocks, rest);
  }

  /** The concatenated answers for [cur, end) are its bytes, with 0 where a block is too short. */
  lemma {:induction false} CutReads(bs: BlockSize, blocks: Blocks, cur: nat, end: nat, start: nat, k: nat)
    requires cur <= end && Readable(blocks, Cut(bs, cur, end, start))
    ensures var r := Concat(Replies(blocks, Cut(bs, cur, end, start)));
            |r| == end - cur && (k < end - cur ==> r[k] == OrZero(ByteAt(bs, blocks, cur + k)))
    decreases end - cur
  {
    hide ByteAt, ReplyTo, Replies, OrZero, Payload;
    if cur < end {
      var len := Min(end - cur, bs - cur % bs);
      var p, rest := Piece(cur / bs, cur % bs, len, start), Cut(bs, cur + len, end, start + len);
      hide Concat;
      assert Cut(bs, cur, end, start) == [p] + rest && p in [p] + rest;
      CutReads(bs, blocks, cur + len, end, start + len, if k < len then 0 else k - len);
      PieceReply(bs, blocks, cur, len, start, k);
      ConcatFirst(blocks, p, rest);
    }
  }

  /** A readable range is answered with exactly `size` bytes: each is the stored byte of its address,
      or 0 where its block is too short. */
  lemma ReadIsFlat(bs: BlockSize, blocks: Blocks, pos: uint32, size: uint32)
    requires pos + size < 0x1_0000_0000 && Readable(blocks, Pieces(bs, pos, size))
    ensures |ReadResult(bs, blocks, pos, size)| == size
    ensures forall k | 0 <= k < size :: ReadResult(bs, blocks, pos, size)[k] == OrZero(ByteAt(bs, blocks, pos + k))
  {
    hide ByteAt, Concat, Cut, Readable;
    CutReads(bs, blocks, pos, pos + size, 0, 0);
    forall k | 0 <= k < size ensures ReadResult(bs, blocks, pos, size)[k] == OrZero(ByteAt(bs, blocks, pos + k)) {
      CutReads(bs, blocks, pos, pos + size, 0, k);
    }
  }

  /** The blocks a range is readable from. */
  lemma ReadableIff(blocks: Blocks, ps: seq<Piece>)
    ensures Readable(blocks, ps) <==> forall p | p in ps :: p.block in blocks && var c := blocks[p.block].content; c.Some? && p.offset <= |c.value|
  {
    forall p | p in ps
      ensures ReplyTo(blocks, p).Data? <==> p.block in blocks && var c := blocks[p.block].content; c.Some? && p.offset <= |c.value|
    {
      ReplyIs(At(blocks, p.block), p.offset, p.len);
    }
  }

  lemma {:induction false} MissingPieces(blocks: Blocks, ps: seq<Piece>)
    ensures |Concat(Replies(blocks, ps))| <= TotalLen(ps)
    ensures (forall p | p in ps :: 0 < p.len) && |Concat(Replies(blocks, ps))| == TotalLen(ps) ==> Readable(blocks, ps)
    decreases |ps|
  {
    if ps != [] {
      hide Concat, ReplyTo;
      var p, rest := ps[0], ps[1..];
      assert ps == [p] + rest;
      MissingPieces(blocks, rest);
      ConcatFirst(blocks, p, rest);
      ReplyIs(At(blocks, p.block), p.offset, p.len);
      PayloadLength(blocks, p);
    }
  }

  lemma PayloadLength(blocks: Blocks, p: Piece)
    ensures |Payload(ReplyTo(blocks, p))| == if ReplyTo(blocks, p).Data? then p.len else 0
  {
  }

  /** The client gets as many bytes as it asked for exactly when the range is readable: an error adds none. */
  lemma ReadIsCompleteIff(bs: BlockSize, blocks: Blocks, pos: uint32, size: uint32)
    requires pos + size < 0x1_0000_0000
    ensures |ReadResult(bs, blocks, pos, size)| <= size
    ensures |ReadResult(bs, blocks, pos, size)| == size <==> Readable(blocks, Pieces(bs, pos, size))
  {
    hide Concat, Replies, Readable, Pieces;
    var ps := Pieces(bs, pos, size);
    PiecesCoverIffNoWrap(bs, pos, size);
    MissingPieces(blocks, ps);
    forall p | p in ps ensures 0 < p.len {
      var i: nat :| i < |ps| && ps[i] == p;
      PieceNotEmpty(bs, pos, size, i);
    }
    if Readable(blocks, ps) { ReadIsFlat(bs, blocks, pos, size); }
  }

  /** A range whose bytes are all stored is readable, so it reads back as the flat slice. */
  lemma ReadBack(bs: BlockSize, blocks: Blocks, pos: uint32, size: uint32)
    requires pos + size < 0x1_0000_0000
    requires forall a | pos <= a < pos + size :: ByteAt(bs, blocks, a).Some?
    ensures |ReadResult(bs, blocks, pos, size)| == size
    ensures forall k | 0 <= k < size :: Some(ReadResult(bs, blocks, pos, size)[k]) == ByteAt(bs, blocks, pos + k)
  {
    hide ReadResult, Pieces;
    forall p | p in Pieces(bs, pos, size) ensures ReplyTo(blocks, p).Data? {
      var i: nat :| i < |Pieces(bs, pos, size)| && Pieces(bs, pos, size)[i] == p;
      PieceIsClip(bs, pos, size, i);
      StartStored(bs, blocks, p);
    }
    ReadIsFlat(bs, blocks, pos, size);
  }

  lemma StartStored(bs: BlockSize, blocks: Blocks, p: Piece)
    requires p.offset < bs && ByteAt(bs, blocks, p.block * bs + p.offset).Some?
    ensures ReplyTo(blocks, p).Data?
  {
    assert (p.block + 1) * bs == p.block * bs + bs;
    DivIs(p.block * bs + p.offset, bs, p.block);
  }
}
