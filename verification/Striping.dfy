/** How a byte range of a file is cut along block boundaries. */
module Striping {
  import opened Bytes

  /** Blocks of at most 65536 bytes: only their offsets fit the packet header (OffsetsFitHeaderIff). */
  type BlockSize = n: int | 0 < n <= 0x1_0000 witness 4096

  /** One block-sized part of a request: `len` bytes at `offset` of `block`,
      found at `start` in the request's buffer. */
  datatype Piece = Piece(block: nat, offset: nat, len: nat, start: nat)

  /** `realpos + size` in 32-bit arithmetic. */
  function EndPos(pos: uint32, size: uint32): uint32 {
    (pos + size) % 0x1_0000_0000
  }

  /** The piece that a turn of the cutting loop emits when it stands at `cur`. */
  function Head(bs: nat, cur: nat, end: nat, start: nat): (p: Piece)
    requires 0 < bs && cur < end
    ensures 0 < p.len <= end - cur && p.start == start
  {
    Piece(cur / bs, cur % bs, Min(end - cur, bs - cur % bs), start)
  }

  /** The pieces the cutting loop still has to emit when it stands at `cur`. */
  function Cut(bs: nat, cur: nat, end: nat, start: nat): seq<Piece>
    requires 0 < bs
    decreases end - cur
  {
    if end <= cur then [] else
    var p := Head(bs, cur, end, start);
    [p] + Cut(bs, cur + p.len, end, start + p.len)
  }

  function Pieces(bs: nat, pos: uint32, size: uint32): seq<Piece>
    requires 0 < bs
  {
    Cut(bs, pos, EndPos(pos, size), 0)
  }

  /** `p` is exactly the part of the address range [lo, hi) that lies in block `b`. */
  ghost predicate IsClip(bs: nat, lo: nat, hi: nat, b: nat, p: Piece) {
    && p.block == b
    && b * bs + p.offset == Max(lo, b * bs)
    && b * bs + p.offset + p.len == Min(hi, b * bs + bs)
    && 0 < p.len
    && p.start == b * bs + p.offset - lo
  }

  // ---- division facts

  lemma MulMono(a: int, b: int, m: nat)
    requires a <= b
    ensures a * m <= b * m
  {
  }

  lemma DivIs(a: nat, bs: nat, q: nat)
    requires 0 < bs && q * bs <= a < (q + 1) * bs
    ensures a / bs == q && a % bs == a - q * bs
  {
    var r := a / bs;
    assert a == r * bs + a % bs;
    assert (r + 1) * bs == r * bs + bs;
    if r < q { MulMono(r + 1, q, bs); }
    if q < r { MulMono(q + 1, r, bs); }
  }

  lemma DivBounds(a: nat, bs: nat)
    requires 0 < bs
    ensures (a / bs) * bs <= a < (a / bs + 1) * bs
    ensures a % bs == a - (a / bs) * bs
  {
    assert (a / bs + 1) * bs == (a / bs) * bs + bs;
  }

  lemma DivMono(a: nat, b: nat, bs: nat)
    requires 0 < bs && a <= b
    ensures a / bs <= b / bs
  {
    DivBounds(a, bs); DivBounds(b, bs);
    if b / bs < a / bs { MulMono(b / bs + 1, a / bs, bs); }
  }

  // ---- the loop enumerates block intersections

  lemma NextBlock(bs: nat, cur: nat)
    requires 0 < bs
    ensures var next := cur + bs - cur % bs; next == (cur / bs + 1) * bs && next / bs == cur / bs + 1
  {
    var q := cur / bs;
    DivBounds(cur, bs);
    assert (q + 1) * bs == q * bs + bs;
    assert (q + 1 + 1) * bs == (q + 1) * bs + bs;
    DivIs((q + 1) * bs, bs, q + 1);
  }

  lemma SameBlock(bs: nat, cur: nat, a: nat)
    requires 0 < bs && cur <= a < cur + bs - cur % bs
    ensures a / bs == cur / bs
  {
    var q := cur / bs;
    DivBounds(cur, bs);
    assert (q + 1) * bs == q * bs + bs;
    DivIs(a, bs, q);
  }

  /** One turn of the loop leaves the rest of the range, starting in the next block if any is left. */
  lemma CutStep(bs: nat, cur: nat, end: nat, start: nat)
    requires 0 < bs && cur < end
    ensures var next := cur + Head(bs, cur, end, start).len;
            && (next < end ==> next == (cur / bs + 1) * bs && next / bs == cur / bs + 1)
            && (next == end ==> (end - 1) / bs == cur / bs)
  {
    if end - cur <= bs - cur % bs {
      SameBlock(bs, cur, end - 1);
    } else {
      NextBlock(bs, cur);
    }
  }

  /** Standing at `cur`, the loop emits exactly one piece per remaining block, in block order, and
      each piece is the intersection of the remaining range with its block. */
  lemma {:induction false} CutIsClip(bs: nat, cur: nat, end: nat, start: nat, i: nat)
    requires 0 < bs && cur < end && i < |Cut(bs, cur, end, start)|
    ensures var p := Cut(bs, cur, end, start)[i];
            start <= p.start && IsClip(bs, cur, end, cur / bs + i, p.(start := p.start - start))
    decreases end - cur
  {
    if i == 0 { HeadIsClip(bs, cur, end, start); } else {
      hide IsClip, Head;
      CutStep(bs, cur, end, start);
      var len := Head(bs, cur, end, start).len;
      var p := Cut(bs, cur + len, end, start + len)[i - 1];
      CutIsClip(bs, cur + len, end, start + len, i - 1);
      ClipOfRest(bs, cur, cur + len, end, cur / bs + i, p.(start := p.start - (start + len)));
    }
  }

  lemma HeadIsClip(bs: nat, cur: nat, end: nat, start: nat)
    requires 0 < bs && cur < end
    ensures IsClip(bs, cur, end, cur / bs, Head(bs, cur, end, start).(start := 0))
  {
    DivBounds(cur, bs);
  }

  /** A clip of the rest of a range, in a later block, is a clip of the range. */
  lemma ClipOfRest(bs: nat, cur: nat, next: nat, end: nat, b: nat, p: Piece)
    requires cur <= next && IsClip(bs, next, end, b, p) && cur / bs < b && 0 < bs
    requires next == (cur / bs + 1) * bs
    ensures IsClip(bs, cur, end, b, p.(start := p.start + (next - cur)))
  {
    MulMono(cur / bs + 1, b, bs);
    DivBounds(cur, bs);
  }

  lemma {:induction false} CutCount(bs: nat, cur: nat, end: nat, start: nat)
    requires 0 < bs && cur < end
    ensures |Cut(bs, cur, end, start)| == (end - 1) / bs - cur / bs + 1
    decreases end - cur
  {
    hide Head;
    CutStep(bs, cur, end, start);
    var len := Head(bs, cur, end, start).len;
    if cur + len < end { CutCount(bs, cur + len, end, start + len); }
  }

  // ---- the pieces tile the request

  function TotalLen(ps: seq<Piece>): nat {
    if ps == [] then 0 else ps[0].len + TotalLen(ps[1..])
  }

  lemma {:induction false} CutTotal(bs: nat, cur: nat, end: nat, start: nat)
    requires 0 < bs
    ensures TotalLen(Cut(bs, cur, end, start)) == if cur < end then end - cur else 0
    decreases end - cur
  {
    hide Head;
    if cur < end {
      var len := Head(bs, cur, end, start).len;
      CutTotal(bs, cur + len, end, start + len);
      assert Cut(bs, cur, end, start)[1..] == Cut(bs, cur + len, end, start + len);
    }
  }

  /** The pieces carry the whole request exactly when `pos + size` does not wrap around 32 bits;
      a wrapped request is cut into nothing at all. */
  lemma PiecesCoverIffNoWrap(bs: nat, pos: uint32, size: uint32)
    requires 0 < bs
    ensures TotalLen(Pieces(bs, pos, size)) == size <==> pos + size < 0x1_0000_0000
    ensures 0x1_0000_0000 <= pos + size ==> Pieces(bs, pos, size) == []
  {
    CutTotal(bs, pos, EndPos(pos, size), 0);
  }

  /** Piece i is the part of [pos, pos + size) in block pos / bs + i: inside one block, with
      consecutive and therefore distinct block ids. */
  lemma PieceIsClip(bs: nat, pos: uint32, size: uint32, i: nat)
    requires 0 < bs && i < |Pieces(bs, pos, size)|
    ensures pos + size < 0x1_0000_0000
    ensures var p := Pieces(bs, pos, size)[i];
            IsClip(bs, pos, pos + size, pos / bs + i, p) && p.start + p.len <= size && p.offset + p.len <= bs
  {
    PiecesCoverIffNoWrap(bs, pos, size);
    CutIsClip(bs, pos, pos + size, 0, i);
  }

  /** Neighbouring pieces leave no gap and do not overlap, in the buffer as in the file. */
  lemma PiecesAbut(bs: nat, pos: uint32, size: uint32, i: nat)
    requires 0 < bs && i + 1 < |Pieces(bs, pos, size)|
    ensures var ps := Pieces(bs, pos, size);
            && ps[i + 1].start == ps[i].start + ps[i].len
            && ps[i].offset + ps[i].len == bs && ps[i + 1].offset == 0
  {
    PieceIsClip(bs, pos, size, i);
    PieceIsClip(bs, pos, size, i + 1);
    var b := pos / bs + i;
    assert (b + 1) * bs == b * bs + bs;
    DivBounds(pos, bs);
    MulMono(pos / bs + 1, b + 1, bs);
  }

  /** Every requested address lies in exactly the piece of its own block, at the matching place. */
  lemma AddressInPiece(bs: nat, pos: uint32, size: uint32, a: nat)
    requires 0 < bs && pos + size < 0x1_0000_0000 && pos <= a < pos + size
    ensures pos / bs <= a / bs && a / bs - pos / bs < |Pieces(bs, pos, size)|
    ensures var p := Pieces(bs, pos, size)[a / bs - pos / bs];
            && p.block == a / bs
            && p.offset <= a % bs < p.offset + p.len
            && p.start + (a % bs - p.offset) == a - pos
  {
    DivMono(pos, a, bs);
    DivMono(a, pos + size - 1, bs);
    CutCount(bs, pos, pos + size, 0);
    PieceIsClip(bs, pos, size, a / bs - pos / bs);
    DivBounds(a, bs);
  }

  ghost predicate OffsetsFit(bs: nat, pos: uint32, size: uint32)
    requires 0 < bs
  {
    forall p | p in Pieces(bs, pos, size) :: p.offset < 0x1_0000
  }

  /** Every offset fits the 16-bit position field of the packet header, for all requests, exactly when
      blocks have at most 65536 bytes. */
  lemma OffsetsFitHeaderIff(bs: nat)
    requires 0 < bs
    ensures (forall pos: uint32, size: uint32 :: OffsetsFit(bs, pos, size)) <==> bs <= 0x1_0000
  {
    forall pos: uint32, size: uint32 | bs <= 0x1_0000 ensures OffsetsFit(bs, pos, size) {
      hide Pieces, IsClip;
      forall p | p in Pieces(bs, pos, size) ensures p.offset < 0x1_0000 {
        var i: nat :| i < |Pieces(bs, pos, size)| && Pieces(bs, pos, size)[i] == p;
        PieceIsClip(bs, pos, size, i);
        PieceNotEmpty(bs, pos, size, i);
      }
    }
    if 0x1_0000 < bs {
      assert 0 * bs <= 0x1_0000 < (0 + 1) * bs;
      DivIs(0x1_0000, bs, 0);
      assert Pieces(bs, 0x1_0000, 1)[0].offset == 0x1_0000;
      assert !OffsetsFit(bs, 0x1_0000, 1);
    }
  }

  lemma PieceNotEmpty(bs: nat, pos: uint32, size: uint32, i: nat)
    requires 0 < bs && i < |Pieces(bs, pos, size)|
    ensures 0 < Pieces(bs, pos, size)[i].len
  {
    hide Pieces;
    PieceIsClip(bs, pos, size, i);
  }
}
