/** The data function's side of a request: the loops that issue it and the callbacks that finish it. */
module Coordinator {
  import opened Bytes
  import opened Collections
  import opened Striping
  import opened Participant
  import opened TwoPhase
  import opened FlatFile
  import opened ReadPath
  import Wire

  // ---- the issuing loops

  /** One turn of the cutting loop moves the next piece from what is left to what is done. */
  lemma CutTurn(bs: BlockSize, cur: nat, end: nat, start: nat, done: seq<Piece>)
    requires cur < end
    ensures var p := Head(bs, cur, end, start);
            done + Cut(bs, cur, end, start) == done + [p] + Cut(bs, cur + p.len, end, start + p.len)
  {
  }

  lemma CutDone(bs: BlockSize, cur: nat, end: nat, start: nat)
    requires end <= cur
    ensures Cut(bs, cur, end, start) == []
  {
  }

  lemma PartIs(bs: BlockSize, w: Write, i: nat)
    requires Sized(w) && i < |Pieces(bs, w.pos, |w.data|)|
    ensures var p := Pieces(bs, w.pos, |w.data|)[i];
            && p.start + p.len <= |w.data|
            && PartOf(bs, w, i) == Part(p.block, Update(p.offset, w.data[p.start..p.start + p.len]))
  {
    PieceIsClip(bs, w.pos, |w.data|, i);
  }

  /** A prepare as it is sent. */
  datatype PrepareRequest = PrepareRequest(kind: uint16, version: uint32, block: nat, update: Update)

  /** The loop of start_2pc_prepare sends the parts of the write's transaction, in order, each under the version
      of the write and as a quick prepare when the file is recorded as checked. */
  method IssuePrepares(bs: BlockSize, w: Write) returns (sent: seq<PrepareRequest>)
    requires Sized(w)
    ensures |sent| == |TxnOf(bs, w).parts|
    ensures forall k | 0 <= k < |sent| :: var part := TxnOf(bs, w).parts[k];
              sent[k] == PrepareRequest(if w.quick then Wire.PREPARE_QUICK else Wire.PREPARE, w.version, part.block, part.update)
  {
    hide PartOf, Cut, Head;
    sent := [];
    var endpos := EndPos(w.pos, |w.data|);
    var currentpos, bufferOffset: nat := w.pos, 0;
    ghost var done: seq<Piece> := [];
    while currentpos < endpos
      invariant Pieces(bs, w.pos, |w.data|) == done + Cut(bs, currentpos, endpos, bufferOffset)
      invariant |sent| == |done|
      invariant forall k | 0 <= k < |sent| :: var part := PartOf(bs, w, k);
                  sent[k] == PrepareRequest(if w.quick then Wire.PREPARE_QUICK else Wire.PREPARE, w.version, part.block, part.update)
      decreases endpos - currentpos
    {
      var p := Head(bs, currentpos, endpos, bufferOffset);
      CutTurn(bs, currentpos, endpos, bufferOffset, done);
      assert Pieces(bs, w.pos, |w.data|)[|done|] == p;
      PartIs(bs, w, |done|);
      var kind := if w.quick then Wire.PREPARE_QUICK else Wire.PREPARE;
      sent := sent + [PrepareRequest(kind, w.version, p.block, Update(p.offset, w.data[bufferOffset..bufferOffset + p.len]))];
      done := done + [p];
      currentpos := currentpos + p.len;
      bufferOffset := bufferOffset + p.len;
    }
    CutDone(bs, currentpos, endpos, bufferOffset);
  }

  /** A decision as it is sent; its packet has no body. */
  datatype Decision = Decision(block: nat, offset: nat, execute: bool, version: uint32)

  /** The loop of start_2pc_commit sends the same decision, under the version of the write, to every block
      the prepare loop wrote to. */
  method IssueDecisions(bs: BlockSize, w: Write, agreed: bool) returns (sent: seq<Decision>)
    requires Sized(w)
    ensures |sent| == |TxnOf(bs, w).parts|
    ensures forall k | 0 <= k < |sent| :: var part := TxnOf(bs, w).parts[k];
              sent[k] == Decision(part.block, part.update.offset, agreed, w.version)
  {
    hide Cut, Head, PartOf;
    sent := [];
    var endpos := EndPos(w.pos, |w.data|);
    var currentpos, bufferOffset: nat := w.pos, 0;
    ghost var done: seq<Piece> := [];
    while currentpos < endpos
      invariant Pieces(bs, w.pos, |w.data|) == done + Cut(bs, currentpos, endpos, bufferOffset)
      invariant |sent| == |done| && forall k | 0 <= k < |sent| :: sent[k] == Decision(done[k].block, done[k].offset, agreed, w.version)
      decreases endpos - currentpos
    {
      var p := Head(bs, currentpos, endpos, bufferOffset);
      CutTurn(bs, currentpos, endpos, bufferOffset, done);
      sent := sent + [Decision(p.block, p.offset, agreed, w.version)];
      done := done + [p];
      currentpos, bufferOffset := currentpos + p.len, bufferOffset + p.len;
    }
    CutDone(bs, currentpos, endpos, bufferOffset);
    forall k | 0 <= k < |sent| ensures var part := TxnOf(bs, w).parts[k]; part.block == done[k].block && part.update.offset == done[k].offset {
      PartIs(bs, w, k);
    }
  }

  /** The read first counts its answers, then issues one request per index: both passes agree with
      each other and with the pieces of the range. */
  method IssueReads(bs: BlockSize, pos: uint32, size: uint32) returns (count: nat, requests: seq<(nat, nat, nat)>)
    ensures count == |requests| == |Pieces(bs, pos, size)|
    ensures forall k | 0 <= k < count ::
              var p := Pieces(bs, pos, size)[k]; requests[k] == (p.block, p.offset, p.len)
  {
    hide Cut, Head;
    count := CountPieces(bs, pos, size);
    requests := [];
    var endpos := EndPos(pos, size);
    var currentpos: nat := pos;
    ghost var done: seq<Piece> := [];
    var start: nat := 0;
    while currentpos < endpos
      invariant Pieces(bs, pos, size) == done + Cut(bs, currentpos, endpos, start)
      invariant |requests| == |done|
      invariant forall k | 0 <= k < |done| :: requests[k] == (done[k].block, done[k].offset, done[k].len)
      decreases endpos - currentpos
    {
      var p := Head(bs, currentpos, endpos, start);
      CutTurn(bs, currentpos, endpos, start, done);
      requests := requests + [(p.block, p.offset, p.len)];
      done := done + [p];
      currentpos, start := currentpos + p.len, start + p.len;
    }
    CutDone(bs, currentpos, endpos, start);
  }

  /** The counting pass of start_read. */
  method CountPieces(bs: BlockSize, pos: uint32, size: uint32) returns (count: nat)
    ensures count == |Pieces(bs, pos, size)|
  {
    hide Cut, Head;
    count := 0;
    var endpos := EndPos(pos, size);
    var currentpos: nat := pos;
    var start: nat := 0;
    while currentpos < endpos
      invariant |Pieces(bs, pos, size)| == count + |Cut(bs, currentpos, endpos, start)|
      decreases endpos - currentpos
    {
      var p := Head(bs, currentpos, endpos, start);
      CutTurn(bs, currentpos, endpos, start, []);
      currentpos, count, start := currentpos + p.len, count + 1, start + p.len;
    }
    CutDone(bs, currentpos, endpos, start);
  }

  // ---- the callbacks of a write

  /** Remembers the files whose last write found no foreign log (class recoder). */
  class Recorder {
    var checked: set<Uuid>

    constructor ()
      ensures checked == {}
    {
      checked := {};
    }
  }

  /** The counter, the flag and the registered jobs that the callbacks of one write share. */
  class WriteJob {
    const uuid: Uuid
    const n: nat
    var jobs: set<nat>
    var outstanding: int
    var allAgree: bool
    var phase: Phase

    function View(): Coord
      reads this
    {
      Coord(jobs, outstanding, allAgree, phase)
    }

    constructor (uuid: Uuid, t: Txn)
      ensures this.uuid == uuid && n == |t.parts|
      ensures View() == Init(t, map[]).coord
    {
      this.uuid, n := uuid, |t.parts|;
      jobs, outstanding, allAgree, phase := Indices(t), |t.parts|, true, Voting;
    }

    /** The callback of a prepare response.  The last one answers the client, records or forgets the
        file, and starts the second phase with its verdict. */
    method OnVote(recorder: Recorder, i: nat, agree: bool) returns (verdict: Option<bool>)
      modifies this, recorder
      ensures View() == CountVote(old(View()), n, i, agree)
      ensures verdict == if old(outstanding) == 1 then Some(old(allAgree) && agree) else None
      ensures recorder.checked ==
              if verdict == Some(true) then old(recorder.checked) + {uuid}
              else if verdict == Some(false) then old(recorder.checked) - {uuid}
              else old(recorder.checked)
    {
      hide UpTo;
      jobs := jobs - {i};
      if !agree { allAgree := false; }
      outstanding := outstanding - 1;
      verdict := None;
      if outstanding == 0 {
        if allAgree {
          recorder.checked := recorder.checked + {uuid};
        } else {
          recorder.checked := recorder.checked - {uuid};
        }
        verdict := Some(allAgree);
        jobs, outstanding, phase := UpTo(n), n, Deciding;
      }
    }

    /** The callback of a commit response. */
    method OnAck(i: nat) returns (finished: bool)
      modifies this
      ensures View() == CountAck(old(View()), i)
      ensures finished <==> old(outstanding) == 1
    {
      jobs := jobs - {i};
      outstanding := outstanding - 1;
      finished := outstanding == 0;
      if finished { phase := Done; }
    }
  }

  // ---- the callbacks of a read

  /** The result accumulator: a slot per request, filled when its answer arrives. */
  type Slots = seq<Option<seq<byte>>>

  predicate AllReady(slots: Slots) { forall k | 0 <= k < |slots| :: slots[k].Some? }

  function Filled(slots: Slots): seq<seq<byte>>
    requires AllReady(slots)
  {
    seq(|slots|, k requires 0 <= k < |slots| => slots[k].value)
  }

  class ReadJob {
    var slots: Slots

    constructor (n: nat)
      ensures |slots| == n && forall k | 0 <= k < n :: slots[k].None?
    {
      slots := seq(n, _ => None);
    }

    /** Stores one answer; the caller gets the whole buffer exactly when no slot is left open. */
    method OnReply(index: nat, buf: seq<byte>) returns (result: Option<seq<byte>>)
      requires index < |slots|
      modifies this
      ensures slots == old(slots)[index := Some(buf)]
      ensures result == if AllReady(slots) then Some(Concat(Filled(slots))) else None
    {
      var filled := slots[index := Some(buf)];
      slots := filled;
      for k := 0 to |filled|
        invariant forall j | 0 <= j < k :: filled[j].Some?
        invariant slots == filled
      {
        if filled[k].None? {
          assert !AllReady(slots);
          return None;
        }
      }
      var collect := [];
      for k := 0 to |filled|
        invariant slots == filled
        invariant Concat(Filled(filled)) == collect + Concat(Filled(filled)[k..])
      {
        ConcatHead(Filled(filled), k);
        collect := collect + filled[k].value;
      }
      assert Filled(filled)[|filled|..] == [];
      assert Concat(Filled(filled)) == collect;
      result := Some(collect);
    }
  }

  lemma ConcatHead(ss: seq<seq<byte>>, k: nat)
    requires k < |ss|
    ensures Concat(ss[k..]) == ss[k] + Concat(ss[k + 1..])
  {
    assert ss[k..][1..] == ss[k + 1..];
  }

  /** The slots after the answers with the given indices have arrived, in that order. */
  function Arrive(replies: seq<seq<byte>>, order: seq<nat>): Slots
    decreases |order|
  {
    if order == [] then seq(|replies|, _ => None)
    else
      var i, before := order[|order| - 1], Arrive(replies, order[..|order| - 1]);
      if i < |before| && i < |replies| then before[i := Some(replies[i])] else before
  }

  lemma {:induction false} ArriveAt(replies: seq<seq<byte>>, order: seq<nat>)
    ensures |Arrive(replies, order)| == |replies|
    ensures forall i | 0 <= i < |replies| :: Arrive(replies, order)[i] == if i in order then Some(replies[i]) else None
    decreases |order|
  {
    if order != [] {
      var k := |order| - 1;
      ArriveAt(replies, order[..k]);
      assert order == order[..k] + [order[k]];
    }
  }

  /** Each request is answered once, in any order: the buffer is complete exactly at the last answer,
      and it is the concatenation of the answers in request order. */
  lemma AnyOrderReadsTheSame(replies: seq<seq<byte>>, order: seq<nat>)
    requires forall i | i in order :: i < |replies|
    requires forall i, j | 0 <= i < j < |order| :: order[i] != order[j]
    ensures AllReady(Arrive(replies, order)) <==> |order| == |replies|
    ensures AllReady(Arrive(replies, order)) ==> Filled(Arrive(replies, order)) == replies
  {
    hide Arrive, UpTo;
    ArriveAt(replies, order);
    DistinctSize(order);
    var got, all := Elems(order), UpTo(|replies|);
    assert got <= all;
    if |order| == |replies| {
      SubsetOfSameSize(got, all);
      assert forall i | 0 <= i < |replies| :: i in all && i in order;
    }
    if AllReady(Arrive(replies, order)) {
      forall i | i in all ensures i in got { assert Arrive(replies, order)[i].Some?; }
      assert got == all;
    }
  }
}
