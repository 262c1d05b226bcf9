/** Two-phase commit when connections break: lost requests and cancelled responses come back as errors. */
module LossyCommit {
  import opened Bytes
  import opened Collections
  import opened Participant
  import opened TwoPhase

  /** `lost` remembers the parts whose decision never reached their server. */
  datatype Lossy = Lossy(base: State, lost: set<nat>)

  datatype Fate = Arrives | Breaks

  /** A request that cannot be written cancels its job, and closing a connection cancels the jobs of all
      unanswered requests, handled or not: the coordinator gets an error, which counts as a refusal while
      votes are collected and as an acknowledgement afterwards.  (A response that cannot be read cancels
      nothing by itself; its job waits for the close.)  Each job gets one error here. */
  function Break(s: Lossy, m: Message): Lossy {
    var rest := s.base.net - {m};
    match m
    case Prepare(i) => s.(base := s.base.(net := rest + {Vote(i, false)}))
    case Vote(i, _) => s.(base := s.base.(net := rest + {Vote(i, false)}))
    case Decide(i, _) => Lossy(s.base.(net := rest + {Ack(i)}), s.lost + {i})
    case Ack(_) => s
  }

  function Step(t: Txn, s: Lossy, m: Message, fate: Fate): Lossy
    requires m.i < |t.parts|
  {
    if fate.Breaks? then Break(s, m) else s.(base := Deliver(t, s.base, m))
  }

  ghost predicate LossyNext(t: Txn, s: Lossy, s': Lossy) {
    exists m, fate | m in s.base.net :: m.i < |t.parts| && s' == Step(t, s, m, fate)
  }

  ghost predicate IsLossyRun(t: Txn, blocks: Blocks, run: seq<Lossy>) {
    && |run| > 0 && run[0] == Lossy(Init(t, blocks), {})
    && forall k | 0 < k < |run| :: LossyNext(t, run[k - 1], run[k])
  }

  // ---- the invariant

  ghost predicate AtMostOne(a: bool, b: bool, c: bool) { !(a && b) && !(a && c) && !(b && c) }

  /** A part while votes are collected; p is what its prepare would answer. */
  ghost predicate VotingPart(l: Local, was: Block, p: Prepared, agree: bool) {
    && !l.run && !l.undo && !l.acked && AtMostOne(l.asked, l.yes, l.no)
    && (l.waiting <==> l.asked || l.yes || l.no)
    && Kept(was, l.block) && (l.asked ==> l.block == was)
    && (l.yes || (!l.waiting && agree) ==> p.agree && l.block == p.block)
  }

  /** A part once decision d is taken. */
  ghost predicate DecidedPart(l: Local, was: Block, p: Prepared, d: bool, lost: bool) {
    && !l.asked && !l.yes && !l.no && AtMostOne(l.run, l.undo, l.acked)
    && (l.waiting <==> l.run || l.undo || l.acked)
    && (if d then !l.undo && !(l.run && lost) && p.agree && l.block == (if l.run || lost then p.block else Execute(p.block))
        else !l.run && Kept(was, l.block))
  }

  ghost predicate PartInv(c: Coord, l: Local, was: Block, p: Prepared, lost: bool) {
    if c.phase.Voting? then VotingPart(l, was, p, c.agree) && !lost else DecidedPart(l, was, p, c.agree, lost)
  }

  ghost predicate PartOk(t: Txn, b0: Blocks, s: Lossy, i: nat)
    requires i < |t.parts|
  {
    var b := t.parts[i].block;
    PartInv(s.base.coord, Look(s.base, i, b), At(b0, b), HandlePrepare(t, At(b0, b), i), i in s.lost)
  }

  ghost predicate CoordOk(t: Txn, c: Coord) {
    && c.jobs <= Indices(t) && c.outstanding == |c.jobs|
    && (c.phase.Done? ==> c.jobs == {})
    && (c.jobs == {} && |t.parts| > 0 ==> c.phase.Done?)
  }

  ghost predicate LossyInv(t: Txn, b0: Blocks, s: Lossy) {
    && CoordOk(t, s.base.coord)
    && (forall m | m in s.base.net :: m.i < |t.parts|)
    && (forall i: nat | i < |t.parts| :: PartOk(t, b0, s, i))
  }

  lemma PrepareKeepsContent(t: Txn, b: Block, i: nat)
    requires i < |t.parts|
    ensures Kept(b, HandlePrepare(t, b, i).block)
  {
  }

  lemma RollbackKeepsContent(was: Block, b: Block)
    requires Kept(was, b)
    ensures Kept(was, Rollback(b))
  {
  }

  lemma LossyInit(t: Txn, b0: Blocks)
    ensures LossyInv(t, b0, Lossy(Init(t, b0), {}))
  {
    if |t.parts| > 0 { assert 0 in Indices(t); }
  }

  lemma BreakKeepsInv(t: Txn, b0: Blocks, s: Lossy, m: Message)
    requires LossyInv(t, b0, s) && m in s.base.net
    ensures LossyInv(t, b0, Break(s, m))
  {
    hide PartOk, CoordOk;
    forall j: nat | j < |t.parts| ensures PartOk(t, b0, Break(s, m), j) { BreakKeepsPart(t, b0, s, m, j); }
  }

  lemma BreakKeepsPart(t: Txn, b0: Blocks, s: Lossy, m: Message, j: nat)
    requires m in s.base.net && j < |t.parts| && PartOk(t, b0, s, j)
    ensures PartOk(t, b0, Break(s, m), j)
  {
    hide HandlePrepare, Kept, Execute;
  }

  lemma OtherKept(t: Txn, b0: Blocks, s: Lossy, m: Message, j: nat)
    requires DistinctBlocks(t) && LossyInv(t, b0, s) && Ordinary(s.base, m) && j < |t.parts| && j != m.i
    ensures PartOk(t, b0, Step(t, s, m, Arrives), j)
  {
    hide HandlePrepare, Kept, Deliver;
    assert PartOk(t, b0, s, j) && PartOk(t, b0, s, m.i);
    OthersUnmoved(t, s.base, m, j);
    CoordAfter(t, s.base, m);
  }

  /** What an ordinary delivery does to the flag and the phase. */
  lemma CoordAfter(t: Txn, s: State, m: Message)
    requires m.i < |t.parts| && (m.Vote? ==> s.coord.outstanding != 1)
    ensures var c := Deliver(t, s, m).coord;
            && (c.agree ==> s.coord.agree) && (!m.Vote? ==> c.agree == s.coord.agree)
            && (c.phase == s.coord.phase || (m.Ack? && c.phase.Done?))
  {
  }

  lemma OwnMoves(t: Txn, b0: Blocks, s: Lossy, m: Message)
    requires LossyInv(t, b0, s) && Ordinary(s.base, m)
    ensures PartOk(t, b0, Step(t, s, m, Arrives), m.i)
  {
    hide HandlePrepare, Kept, CoordOk, Execute, Rollback;
    var b := t.parts[m.i].block;
    assert PartOk(t, b0, s, m.i);
    PrepareKeepsContent(t, At(b0, b), m.i);
    if Kept(At(b0, b), At(s.base.blocks, b)) { RollbackKeepsContent(At(b0, b), At(s.base.blocks, b)); }
  }

  lemma CoordStays(t: Txn, b0: Blocks, s: Lossy, m: Message)
    requires LossyInv(t, b0, s) && Ordinary(s.base, m)
    ensures CoordOk(t, Deliver(t, s.base, m).coord)
  {
    hide HandlePrepare, Kept;
    assert PartOk(t, b0, s, m.i);
  }

  lemma OrdinaryKeeps(t: Txn, b0: Blocks, s: Lossy, m: Message)
    requires DistinctBlocks(t) && LossyInv(t, b0, s) && Ordinary(s.base, m)
    ensures LossyInv(t, b0, Step(t, s, m, Arrives))
  {
    hide PartOk, CoordOk, HandlePrepare;
    CoordStays(t, b0, s, m);
    forall j: nat | j < |t.parts| ensures PartOk(t, b0, Step(t, s, m, Arrives), j) {
      if j == m.i { OwnMoves(t, b0, s, m); } else { OtherKept(t, b0, s, m, j); }
    }
  }

  /** The last vote is the only job left, and it may only agree if its part did. */
  lemma LastVoteAlone(t: Txn, b0: Blocks, s: Lossy, m: Message)
    requires LossyInv(t, b0, s) && m in s.base.net && m.Vote? && s.base.coord.outstanding == 1
    ensures s.base.coord.jobs == {m.i} && s.base.coord.phase.Voting?
  {
    hide HandlePrepare, Kept, Execute;
    assert PartOk(t, b0, s, m.i);
    assert |s.base.coord.jobs - {m.i}| == 0;
  }

  lemma LastVoteMoves(t: Txn, b0: Blocks, s: Lossy, m: Message, j: nat)
    requires m in s.base.net && m.Vote? && s.base.coord.outstanding == 1 && m.i < |t.parts| && j < |t.parts|
    requires s.base.coord.jobs == {m.i} && s.base.coord.phase.Voting? && PartOk(t, b0, s, j)
    ensures PartOk(t, b0, Step(t, s, m, Arrives), j)
  {
    hide HandlePrepare, Kept, Execute;
    assert j in Indices(t);
  }

  lemma LastVoteKeeps(t: Txn, b0: Blocks, s: Lossy, m: Message)
    requires LossyInv(t, b0, s) && m in s.base.net && m.Vote? && s.base.coord.outstanding == 1
    ensures LossyInv(t, b0, Step(t, s, m, Arrives))
  {
    hide PartOk;
    LastVoteAlone(t, b0, s, m);
    forall j: nat | j < |t.parts| ensures PartOk(t, b0, Step(t, s, m, Arrives), j) { LastVoteMoves(t, b0, s, m, j); }
    assert m.i in Indices(t);
  }

  lemma LossyNextKeeps(t: Txn, b0: Blocks, s: Lossy, s': Lossy)
    requires DistinctBlocks(t) && LossyInv(t, b0, s) && LossyNext(t, s, s')
    ensures LossyInv(t, b0, s')
  {
    hide LossyInv, Deliver, Break;
    var m, fate :| m in s.base.net && m.i < |t.parts| && s' == Step(t, s, m, fate);
    if fate.Breaks? {
      BreakKeepsInv(t, b0, s, m);
    } else if Ordinary(s.base, m) {
      OrdinaryKeeps(t, b0, s, m);
    } else {
      LastVoteKeeps(t, b0, s, m);
    }
  }

  lemma {:induction false} LossyRunInv(t: Txn, b0: Blocks, run: seq<Lossy>)
    requires DistinctBlocks(t) && IsLossyRun(t, b0, run)
    ensures LossyInv(t, b0, run[|run| - 1])
    decreases |run|
  {
    hide LossyInv, LossyNext, Init;
    var k := |run| - 1;
    if k == 0 { LossyInit(t, b0); } else {
      LossyRunInv(t, b0, run[..k]);
      LossyNextKeeps(t, b0, run[k - 1], run[k]);
    }
  }

  // ---- what is left of all-or-nothing

  /** Whatever breaks, no block changes unless every block really agreed and the client was told OK. */
  lemma NoChangeWithoutOk(t: Txn, b0: Blocks, run: seq<Lossy>, i: nat)
    requires DistinctBlocks(t) && IsLossyRun(t, b0, run) && i < |t.parts|
    ensures var s := run[|run| - 1].base;
            Kept(At(b0, t.parts[i].block), BlockOf(t, s, i)) || (AllAgree(t, b0) && s.coord.agree && !s.coord.phase.Voting?)
  {
    hide LossyNext, Init, HandlePrepare;
    LossyRunInv(t, b0, run);
    var s := run[|run| - 1];
    PrepareKeepsContent(t, At(b0, t.parts[i].block), i);
    assert PartOk(t, b0, s, i);
    if !s.base.coord.phase.Voting? { AgreedMeansAll(t, b0, s); }
  }

  /** A refusal of part i is on its way or has been counted. */
  ghost predicate Doomed(s: Lossy, i: nat) { Vote(i, false) in s.base.net || !s.base.coord.agree }

  lemma DoomedStays(t: Txn, s: Lossy, s': Lossy, i: nat)
    requires Doomed(s, i) && LossyNext(t, s, s')
    ensures Doomed(s', i)
  {
    hide HandlePrepare, HandleDecision, UpTo;
    var m, fate :| m in s.base.net && m.i < |t.parts| && s' == Step(t, s, m, fate);
  }

  /** A write whose prepare or vote breaks, at any moment of a run, is refused whatever its blocks answered: its client gets
      an error and every block keeps its content. */
  lemma BrokenVoteRefuses(t: Txn, b0: Blocks, run: seq<Lossy>, k: nat, m: Message, i: nat)
    requires DistinctBlocks(t) && IsLossyRun(t, b0, run) && run[|run| - 1].base.coord.phase.Done? && i < |t.parts|
    requires k + 1 < |run| && m in run[k].base.net && m.i < |t.parts| && (m.Prepare? || m.Vote?) && run[k + 1] == Step(t, run[k], m, Breaks)
    ensures !run[|run| - 1].base.coord.agree && Kept(At(b0, t.parts[i].block), BlockOf(t, run[|run| - 1].base, i))
  {
    hide LossyNext, Init, HandlePrepare;
    assert Doomed(run[k + 1], m.i);
    DoomedToTheEnd(t, b0, run, k + 1, m.i);
    LossyRunInv(t, b0, run);
    assert PartOk(t, b0, run[|run| - 1], m.i);
    LossyOutcome(t, b0, run, i);
  }

  lemma {:induction false} DoomedToTheEnd(t: Txn, b0: Blocks, run: seq<Lossy>, k: nat, i: nat)
    requires IsLossyRun(t, b0, run) && k < |run| && Doomed(run[k], i)
    ensures Doomed(run[|run| - 1], i)
    decreases |run| - k
  {
    hide LossyNext, Init, Doomed;
    if k + 1 < |run| {
      assert LossyNext(t, run[k + 1 - 1], run[k + 1]);
      DoomedStays(t, run[k], run[k + 1], i);
      DoomedToTheEnd(t, b0, run, k + 1, i);
    }
  }

  /** When all answers are in: after a refusal every block keeps its content, whatever broke.  After an OK
      every block agreed, and a block has its new content exactly when its decision was not lost; a block
      whose decision was lost keeps its old content and still logs the write. */
  lemma LossyOutcome(t: Txn, b0: Blocks, run: seq<Lossy>, i: nat)
    requires DistinctBlocks(t) && IsLossyRun(t, b0, run) && i < |t.parts| && run[|run| - 1].base.coord.phase.Done?
    ensures var s, was := run[|run| - 1], At(b0, t.parts[i].block);
            var now := BlockOf(t, s.base, i);
            if !s.base.coord.agree then Kept(was, now)
            else
              && AllAgree(t, b0)
              && (i !in s.lost ==> now.content == Some(Image(was, t.parts[i].update)) && now.committed == t.version && !Live(now))
              && (i in s.lost ==> Kept(was, now) && now.log == Image(was, t.parts[i].update) && now.pending == t.version)
  {
    hide LossyNext, Init;
    LossyRunInv(t, b0, run);
    var s := run[|run| - 1];
    assert PartOk(t, b0, s, i);
    AgreedMeansAll(t, b0, s);
  }

  lemma AgreedMeansAll(t: Txn, b0: Blocks, s: Lossy)
    requires LossyInv(t, b0, s) && !s.base.coord.phase.Voting?
    ensures s.base.coord.agree ==> AllAgree(t, b0)
  {
    hide HandlePrepare;
    forall j: nat | s.base.coord.agree && j < |t.parts| ensures Agrees(t, b0, j) { assert PartOk(t, b0, s, j); }
  }

  /** The block of part i holds what the write puts there. */
  ghost predicate Written(t: Txn, b0: Blocks, s: State, i: nat)
    requires i < |t.parts|
  {
    BlockOf(t, s, i).content == Some(Image(At(b0, t.parts[i].block), t.parts[i].update))
  }

  ghost predicate Unwritten(t: Txn, b0: Blocks, s: State, i: nat)
    requires i < |t.parts|
  {
    Kept(At(b0, t.parts[i].block), BlockOf(t, s, i))
  }

  /** Part i writes what its block holds anyway. */
  ghost predicate Idle(t: Txn, b0: Blocks, i: nat)
    requires i < |t.parts|
  {
    var was := At(b0, t.parts[i].block); Created(was).content == Some(Image(was, t.parts[i].update))
  }

  ghost predicate AllOrNothing(t: Txn, b0: Blocks, s: State) {
    || (forall i: nat | i < |t.parts| :: Written(t, b0, s, i))
    || (forall i: nat | i < |t.parts| :: Unwritten(t, b0, s, i))
  }

  /** What a finished run did to the block of part i. */
  lemma PartAfter(t: Txn, b0: Blocks, run: seq<Lossy>, i: nat)
    requires DistinctBlocks(t) && IsLossyRun(t, b0, run) && i < |t.parts| && run[|run| - 1].base.coord.phase.Done?
    ensures var s := run[|run| - 1];
            && (!s.base.coord.agree ==> Unwritten(t, b0, s.base, i))
            && (s.base.coord.agree && i in s.lost ==> Unwritten(t, b0, s.base, i) && (Written(t, b0, s.base, i) <==> Idle(t, b0, i)))
            && (s.base.coord.agree && i !in s.lost ==> Written(t, b0, s.base, i) && (Unwritten(t, b0, s.base, i) <==> Idle(t, b0, i)))
  {
    hide LossyNext, Init, Overlay;
    LossyOutcome(t, b0, run, i);
    LostPart(t, b0, run, i);
  }

  /** The block of a lost decision is as its prepare left it. */
  lemma LostPart(t: Txn, b0: Blocks, run: seq<Lossy>, i: nat)
    requires DistinctBlocks(t) && IsLossyRun(t, b0, run) && i < |t.parts| && run[|run| - 1].base.coord.phase.Done?
    ensures var s := run[|run| - 1];
            s.base.coord.agree && i in s.lost ==>
              Agrees(t, b0, i) && BlockOf(t, s.base, i) == HandlePrepare(t, At(b0, t.parts[i].block), i).block
  {
    hide LossyNext, Init, HandlePrepare;
    LossyRunInv(t, b0, run);
    assert PartOk(t, b0, run[|run| - 1], i);
  }

  /** A finished write is all-or-nothing exactly when it was refused, or the parts whose decisions were lost
      would have changed nothing, or those whose decisions arrived changed nothing. */
  lemma AllOrNothingIff(t: Txn, b0: Blocks, run: seq<Lossy>)
    requires DistinctBlocks(t) && IsLossyRun(t, b0, run) && run[|run| - 1].base.coord.phase.Done?
    ensures var s := run[|run| - 1];
            AllOrNothing(t, b0, s.base)
            <==> !s.base.coord.agree || (forall i: nat | i < |t.parts| :: i in s.lost ==> Idle(t, b0, i))
                 || (forall i: nat | i < |t.parts| :: i !in s.lost ==> Idle(t, b0, i))
  {
    hide LossyNext, Init, Written, Unwritten, Idle;
    var s := run[|run| - 1];
    forall i: nat | i < |t.parts|
      ensures !s.base.coord.agree ==> Unwritten(t, b0, s.base, i)
      ensures s.base.coord.agree ==> (Written(t, b0, s.base, i) <==> (i in s.lost ==> Idle(t, b0, i)))
      ensures s.base.coord.agree ==> (Unwritten(t, b0, s.base, i) <==> (i !in s.lost ==> Idle(t, b0, i)))
    {
      PartAfter(t, b0, run, i);
    }
  }

  /** An update whose decision was lost never reaches its block, although its client was told OK: the next
      complete write starts from the old bytes.  It is refused exactly when it checks the log and the lost
      version still makes the log live; then the block keeps the old bytes.  Either way the log is dead
      afterwards. */
  lemma LostUpdateIsGone(t: Txn, b0: Blocks, run: seq<Lossy>, i: nat, t': Txn, j: nat)
    requires DistinctBlocks(t) && IsLossyRun(t, b0, run) && run[|run| - 1].base.coord.phase.Done?
    requires i < |t.parts| && i in run[|run| - 1].lost && run[|run| - 1].base.coord.agree
    requires DistinctBlocks(t') && j < |t'.parts| && t'.parts[j].block == t.parts[i].block
    ensures var was, mid := At(b0, t.parts[i].block), run[|run| - 1].base.blocks;
            var now := At(Outcome(t', mid), t.parts[i].block);
            && now.content == (if AllAgree(t', mid) then Some(Image(was, t'.parts[j].update)) else Created(was).content)
            && !Live(now)
            && (!Agrees(t', mid, j) <==> !t'.quick && t.version != 0 && t.version != Created(was).committed)
            && (!t'.quick && t.version != 0 && t.version != Created(was).committed ==>
                  !AllAgree(t', mid) && now.content == Created(was).content)
  {
    hide LossyNext, Init, Outcome, Overlay;
    LostPart(t, b0, run, i);
    OutcomeAllOrNothing(t', run[|run| - 1].base.blocks, j);
  }

  // ---- every loss can happen

  ghost function Range(lo: nat, hi: nat): (r: set<nat>)
    ensures forall i :: i in r <==> lo <= i < hi
  {
    set i | i in UpTo(hi) && lo <= i
  }

  /** The messages of the parts lo to hi - 1. */
  ghost function Asking(lo: nat, hi: nat): (r: set<Message>)
    ensures forall m :: m in r <==> m.Prepare? && lo <= m.i < hi
  {
    set i | i in Range(lo, hi) :: Prepare(i)
  }

  ghost function Agreeing(lo: nat, hi: nat): (r: set<Message>)
    ensures forall m :: m in r <==> m.Vote? && m.agree && lo <= m.i < hi
  {
    set i | i in Range(lo, hi) :: Vote(i, true)
  }

  ghost function Running(lo: nat, hi: nat): (r: set<Message>)
    ensures forall m :: m in r <==> m.Decide? && m.execute && lo <= m.i < hi
  {
    set i | i in Range(lo, hi) :: Decide(i, true)
  }

  ghost function Acking(lo: nat, hi: nat): (r: set<Message>)
    ensures forall m :: m in r <==> m.Ack? && lo <= m.i < hi
  {
    set i | i in Range(lo, hi) :: Ack(i)
  }

  /** The first k prepares have been handled. */
  ghost predicate FirstPrepared(t: Txn, s: Lossy, k: nat) {
    var n := |t.parts|;
    s.lost == {} && s.base.net == Asking(k, n) + Agreeing(0, k) && s.base.coord == Coord(Range(0, n), n, true, Voting)
  }

  /** The first k votes have been counted. */
  ghost predicate Counted(t: Txn, s: Lossy, k: nat) {
    var n := |t.parts|;
    s.lost == {} && s.base.net == Agreeing(k, n) && s.base.coord == Coord(Range(k, n), n - k, true, Voting)
  }

  /** The first k decisions have arrived, or broken if their part is in `lost`. */
  ghost predicate Decided(t: Txn, s: Lossy, k: nat, lost: set<nat>) {
    var n := |t.parts|;
    && s.lost == (set i | i in lost && i < k) && s.base.net == Running(k, n) + Acking(0, k)
    && s.base.coord == Coord(Range(0, n), n, true, Deciding)
  }

  /** The first k acknowledgements have been counted. */
  ghost predicate Acked(t: Txn, s: Lossy, k: nat, lost: set<nat>) {
    var n := |t.parts|;
    && s.lost == lost && s.base.net == Acking(k, n)
    && s.base.coord == Coord(Range(k, n), n - k, true, if k < n then Deciding else Done)
  }

  ghost function Last(run: seq<Lossy>): Lossy
    requires run != []
  {
    run[|run| - 1]
  }

  /** Nothing has broken so far: the run is one of the protocol without losses. */
  ghost predicate Lossless(t: Txn, b0: Blocks, run: seq<Lossy>) {
    IsRun(t, b0, Bases(run))
  }

  ghost function Bases(run: seq<Lossy>): seq<State> { seq(|run|, k requires 0 <= k < |run| => run[k].base) }

  lemma Extend(t: Txn, b0: Blocks, run: seq<Lossy>, m: Message, fate: Fate) returns (longer: seq<Lossy>)
    requires IsLossyRun(t, b0, run) && m in Last(run).base.net && m.i < |t.parts|
    ensures IsLossyRun(t, b0, longer) && Last(longer) == Step(t, Last(run), m, fate)
    ensures fate.Arrives? && Lossless(t, b0, run) ==> Lossless(t, b0, longer)
  {
    longer := run + [Step(t, Last(run), m, fate)];
    forall k | 0 < k < |longer| ensures LossyNext(t, longer[k - 1], longer[k]) {
      hide Init, Step;
      if k < |run| { assert longer[k - 1] == run[k - 1]; }
    }
    if fate.Arrives? && Lossless(t, b0, run) { ExtendLossless(t, b0, run, longer, m); }
  }

  lemma ExtendLossless(t: Txn, b0: Blocks, run: seq<Lossy>, longer: seq<Lossy>, m: Message)
    requires run != [] && m in Last(run).base.net && m.i < |t.parts| && Lossless(t, b0, run)
    requires longer == run + [Step(t, Last(run), m, Arrives)]
    ensures Lossless(t, b0, longer)
  {
    hide Init, Deliver;
    var bs, more := Bases(run), Bases(longer);
    forall k | 0 < k < |more| ensures Next(t, more[k - 1], more[k]) {
      if k < |bs| { assert more[k - 1] == bs[k - 1] && more[k] == bs[k]; }
    }
  }

  lemma PrepareNext(t: Txn, b0: Blocks, run: seq<Lossy>, k: nat) returns (longer: seq<Lossy>)
    requires DistinctBlocks(t) && AllAgree(t, b0) && IsLossyRun(t, b0, run) && k < |t.parts| && FirstPrepared(t, Last(run), k)
    ensures IsLossyRun(t, b0, longer) && FirstPrepared(t, Last(longer), k + 1)
    ensures Lossless(t, b0, run) ==> Lossless(t, b0, longer)
  {
    hide LossyNext, Init, HandlePrepare, Asking, Agreeing, Range;
    LossyRunInv(t, b0, run);
    assert PartOk(t, b0, Last(run), k) && Agrees(t, b0, k);
    longer := Extend(t, b0, run, Prepare(k), Arrives);
    assert Last(longer).base.net == Asking(k + 1, |t.parts|) + Agreeing(0, k + 1);
  }

  lemma CountNext(t: Txn, b0: Blocks, run: seq<Lossy>, k: nat) returns (longer: seq<Lossy>)
    requires IsLossyRun(t, b0, run) && k + 1 < |t.parts| && Counted(t, Last(run), k)
    ensures IsLossyRun(t, b0, longer) && Counted(t, Last(longer), k + 1)
    ensures Lossless(t, b0, run) ==> Lossless(t, b0, longer)
  {
    hide LossyNext, Init, Agreeing, Range;
    longer := Extend(t, b0, run, Vote(k, true), Arrives);
    var n := |t.parts|;
    assert Range(k, n) - {k} == Range(k + 1, n);
    assert Last(longer).base.net == Agreeing(k + 1, n);
  }

  lemma CountLast(t: Txn, b0: Blocks, run: seq<Lossy>, lost: set<nat>) returns (longer: seq<Lossy>)
    requires IsLossyRun(t, b0, run) && t.parts != [] && Counted(t, Last(run), |t.parts| - 1)
    ensures IsLossyRun(t, b0, longer) && Decided(t, Last(longer), 0, lost)
    ensures Lossless(t, b0, run) ==> Lossless(t, b0, longer)
  {
    hide LossyNext, Init, Agreeing, Range, Running, Acking, Decisions, UpTo;
    var n := |t.parts|;
    assert Agreeing(n - 1, n) == {Vote(n - 1, true)} && Acking(0, 0) == {};
    RunningAll(t);
    longer := Extend(t, b0, run, Vote(n - 1, true), Arrives);
  }

  lemma RunningAll(t: Txn)
    ensures Decisions(t, true) == Running(0, |t.parts|) && UpTo(|t.parts|) == Range(0, |t.parts|)
  {
    hide UpTo;
    forall i | i in Indices(t) ensures Decide(i, true) in Decisions(t, true) {}
  }

  lemma DecideNext(t: Txn, b0: Blocks, run: seq<Lossy>, k: nat, lost: set<nat>) returns (longer: seq<Lossy>)
    requires IsLossyRun(t, b0, run) && k < |t.parts| && Decided(t, Last(run), k, lost)
    ensures IsLossyRun(t, b0, longer) && Decided(t, Last(longer), k + 1, lost)
    ensures k !in lost && Lossless(t, b0, run) ==> Lossless(t, b0, longer)
  {
    hide LossyNext, Init, HandlePrepare, Range, Running, Acking;
    longer := Extend(t, b0, run, Decide(k, true), if k in lost then Breaks else Arrives);
    assert Last(longer).base.net == Running(k + 1, |t.parts|) + Acking(0, k + 1);
    assert (set i | i in lost && i < k + 1) == (set i | i in lost && i < k) + (if k in lost then {k} else {});
  }

  lemma AckNext(t: Txn, b0: Blocks, run: seq<Lossy>, k: nat, lost: set<nat>) returns (longer: seq<Lossy>)
    requires IsLossyRun(t, b0, run) && k < |t.parts| && Acked(t, Last(run), k, lost)
    ensures IsLossyRun(t, b0, longer) && Acked(t, Last(longer), k + 1, lost)
  {
    hide LossyNext, Init, Range, Acking;
    longer := Extend(t, b0, run, Ack(k), Arrives);
    assert Last(longer).base.net == Acking(k + 1, |t.parts|);
    assert Range(k, |t.parts|) - {k} == Range(k + 1, |t.parts|);
  }

  /** A run in which everybody has agreed and the decisions are on their way. */
  lemma AllVotesIn(t: Txn, b0: Blocks, lost: set<nat>) returns (run: seq<Lossy>)
    requires DistinctBlocks(t) && AllAgree(t, b0) && t.parts != []
    ensures IsLossyRun(t, b0, run) && Lossless(t, b0, run) && Decided(t, Last(run), 0, lost)
  {
    hide LossyNext, AllAgree, Asking, Agreeing, Range, Running, Acking, UpTo;
    var n := |t.parts|;
    run := [Lossy(Init(t, b0), {})];
    StartShape(t, b0);
    hide Init;
    for k := 0 to n
      invariant IsLossyRun(t, b0, run) && Lossless(t, b0, run) && FirstPrepared(t, Last(run), k)
    {
      run := PrepareNext(t, b0, run, k);
    }
    assert Asking(n, n) == {} && Counted(t, Last(run), 0);
    for k := 0 to n - 1
      invariant IsLossyRun(t, b0, run) && Lossless(t, b0, run) && Counted(t, Last(run), k)
    {
      run := CountNext(t, b0, run, k);
    }
    run := CountLast(t, b0, run, lost);
  }

  /** Any decisions of an agreed write may be the ones that are lost: for every set of its parts there is a
      run in which the client is told OK and exactly these decisions break. */
  lemma AnyDecisionsMayBeLost(t: Txn, b0: Blocks, lost: set<nat>) returns (run: seq<Lossy>)
    requires DistinctBlocks(t) && AllAgree(t, b0) && t.parts != [] && lost <= Indices(t)
    ensures IsLossyRun(t, b0, run)
    ensures Last(run).base.coord.phase.Done? && Last(run).base.coord.agree && Last(run).lost == lost
  {
    hide LossyNext, Init, AllAgree, Range, Running, Acking, UpTo, Lossless;
    var n := |t.parts|;
    run := AllVotesIn(t, b0, lost);
    for k := 0 to n
      invariant IsLossyRun(t, b0, run) && Decided(t, Last(run), k, lost)
    {
      run := DecideNext(t, b0, run, k, lost);
    }
    assert Running(n, n) == {} && (set i | i in lost && i < n) == lost;
    for k := 0 to n
      invariant IsLossyRun(t, b0, run) && Acked(t, Last(run), k, lost)
    {
      run := AckNext(t, b0, run, k, lost);
    }
  }

  /** Without any loss, the decisions may have reached exactly the first k blocks. */
  lemma Halfway(t: Txn, b0: Blocks, k: nat) returns (run: seq<State>)
    requires DistinctBlocks(t) && AllAgree(t, b0) && t.parts != [] && k <= |t.parts|
    ensures IsRun(t, b0, run)
    ensures var s := run[|run| - 1];
            s.coord.phase.Deciding? && s.coord.agree && forall i: nat | i < |t.parts| :: Decide(i, true) in s.net <==> k <= i
  {
    hide LossyNext, Init, AllAgree, Range, Running, Acking, UpTo, Next;
    var lossy := AllVotesIn(t, b0, {});
    for c := 0 to k
      invariant IsLossyRun(t, b0, lossy) && Lossless(t, b0, lossy) && Decided(t, Last(lossy), c, {})
    {
      lossy := DecideNext(t, b0, lossy, c, {});
    }
    run := Bases(lossy);
    assert run[|run| - 1] == Last(lossy).base;
  }

  lemma StartShape(t: Txn, b0: Blocks)
    ensures FirstPrepared(t, Lossy(Init(t, b0), {}), 0)
  {
    assert Prepares(t) == Asking(0, |t.parts|) + Agreeing(0, 0);
    assert Indices(t) == Range(0, |t.parts|);
  }

  /** So a write that changes two of its blocks can be torn, with its client told OK. */
  lemma WritesCanTear(t: Txn, b0: Blocks, i: nat, j: nat) returns (run: seq<Lossy>)
    requires DistinctBlocks(t) && AllAgree(t, b0) && i < |t.parts| && j < |t.parts| && i != j && !Idle(t, b0, i) && !Idle(t, b0, j)
    ensures IsLossyRun(t, b0, run) && Last(run).base.coord.phase.Done? && Last(run).base.coord.agree && Last(run).lost == {i}
    ensures !Written(t, b0, Last(run).base, i) && !Unwritten(t, b0, Last(run).base, j)
  {
    hide LossyNext, Init, AllAgree, Idle, Written, Unwritten;
    run := AnyDecisionsMayBeLost(t, b0, {i});
    PartAfter(t, b0, run, i);
    PartAfter(t, b0, run, j);
  }

  /** Of any two parts, one writes what its block holds anyway. */
  ghost predicate AtMostOneChanges(t: Txn, b0: Blocks) {
    forall i: nat, j: nat | i < |t.parts| && j < |t.parts| && i != j :: Idle(t, b0, i) || Idle(t, b0, j)
  }

  /** Whether a write is all-or-nothing in every run, whatever connections break, is known before it starts:
      it is exactly when some block refuses it or at most one of its blocks would change. */
  lemma AlwaysAllOrNothingIff(t: Txn, b0: Blocks)
    requires DistinctBlocks(t)
    ensures (forall run | IsLossyRun(t, b0, run) && Last(run).base.coord.phase.Done? :: AllOrNothing(t, b0, Last(run).base))
            <==> !AllAgree(t, b0) || AtMostOneChanges(t, b0)
  {
    hide LossyNext, Init, AllAgree, Idle, Written, Unwritten;
    if AllAgree(t, b0) && !AtMostOneChanges(t, b0) {
      var i: nat, j: nat :| i < |t.parts| && j < |t.parts| && i != j && !Idle(t, b0, i) && !Idle(t, b0, j);
      var run := WritesCanTear(t, b0, i, j);
      assert !AllOrNothing(t, b0, Last(run).base);
    } else {
      forall run | IsLossyRun(t, b0, run) && Last(run).base.coord.phase.Done? ensures AllOrNothing(t, b0, Last(run).base) {
        SafeRun(t, b0, run);
      }
    }
  }

  lemma SafeRun(t: Txn, b0: Blocks, run: seq<Lossy>)
    requires DistinctBlocks(t) && IsLossyRun(t, b0, run) && Last(run).base.coord.phase.Done?
    requires !AllAgree(t, b0) || AtMostOneChanges(t, b0)
    ensures AllOrNothing(t, b0, Last(run).base)
  {
    hide LossyNext, Init, AllAgree, Idle, Written, Unwritten;
    LossyRunInv(t, b0, run);
    AgreedMeansAll(t, b0, Last(run));
    AllOrNothingIff(t, b0, run);
  }

  // ---- errors that are counted twice

  /** A response callback as it is called: for which part, and whether the answer agrees. */
  datatype Reply = Reply(i: nat, agree: bool)

  /** The coordinator after these calls; what comes after the decision belongs to no vote any more. */
  function Tally(c: Coord, n: nat, rs: seq<Reply>): Coord
    decreases |rs|
  {
    if rs == [] || !c.phase.Voting? then c else Tally(CountVote(c, n, rs[0].i, rs[0].agree), n, rs[1..])
  }

  function AwaitingVotes(n: nat): Coord { Coord(UpTo(n), n, true, Voting) }

  lemma {:induction false} TallyDecides(c: Coord, n: nat, rs: seq<Reply>)
    requires c.phase.Voting? && 0 < c.outstanding
    ensures var r := Tally(c, n, rs);
            if |rs| < c.outstanding then r.phase.Voting?
            else r.phase.Deciding? && (r.agree <==> c.agree && forall k | 0 <= k < c.outstanding :: rs[k].agree)
    decreases |rs|
  {
    if rs != [] {
      var c1, rest := CountVote(c, n, rs[0].i, rs[0].agree), rs[1..];
      if c.outstanding == 1 { assert Tally(c1, n, rest) == c1; } else {
        TallyDecides(c1, n, rest);
        if c.outstanding <= |rs| { assert forall k | 0 < k < c.outstanding :: rs[k] == rest[k - 1]; }
      }
    }
  }

  /** A job that was cancelled stays registered, so that closing its connection cancels it again; an answered
      one is erased.  Only errors repeat. */
  ghost predicate OnlyErrorsRepeat(n: nat, rs: seq<Reply>) {
    && (forall r | r in rs :: r.i < n)
    && forall j, k | 0 <= j < k < |rs| && rs[j].i == rs[k].i :: !rs[j].agree && !rs[k].agree
  }

  ghost predicate Repeats(rs: seq<Reply>) {
    exists j, k | 0 <= j < k < |rs| :: rs[j].i == rs[k].i
  }

  ghost predicate Answers(rs: seq<Reply>, i: nat) { exists r | r in rs :: r.i == i }

  function Called(rs: seq<Reply>): seq<nat> { seq(|rs|, k requires 0 <= k < |rs| => rs[k].i) }

  /** The n callbacks that a decision counts answer every one of the n jobs exactly when no job is among them twice. */
  lemma AnswersAllIff(n: nat, rs: seq<Reply>)
    requires |rs| == n && forall r | r in rs :: r.i < n
    ensures (forall i: nat | i < n :: Answers(rs, i)) <==> !Repeats(rs)
  {
    hide UpTo;
    var js := Called(rs);
    forall k | 0 <= k < n ensures js[k] < n { assert rs[k] in rs; }
    assert Elems(js) <= UpTo(n);
    if !Repeats(rs) {
      DistinctSize(js);
      SubsetOfSameSize(Elems(js), UpTo(n));
      forall i: nat | i < n ensures Answers(rs, i) { assert i in Elems(js); var k :| 0 <= k < n && js[k] == i; assert rs[k] in rs; }
    } else if forall i: nat | i < n :: Answers(rs, i) {
      var j, k :| 0 <= j < k < |rs| && rs[j].i == rs[k].i;
      var fewer := js[..k] + js[k + 1..];
      forall i: nat | i < n ensures i in Elems(fewer) {
        assert Answers(rs, i);
        var m :| 0 <= m < n && rs[m].i == i;
        assert if m < k then fewer[m] == i else if m > k then fewer[m - 1] == i else fewer[j] == i;
      }
      assert UpTo(n) <= Elems(fewer);
      SizeAtMost(fewer);
      SubsetSize(UpTo(n), Elems(fewer));
    }
  }

  /** What double errors can do: the decision to execute is still taken only after every part agreed, once each.
      A decision that does not wait for every part is a roll back, and it happens exactly when one of the errors
      it counts is a repeated one. */
  lemma EarlyDecisionIff(n: nat, rs: seq<Reply>)
    requires 0 < n <= |rs| && OnlyErrorsRepeat(n, rs)
    ensures var c := Tally(AwaitingVotes(n), n, rs);
            && c.phase.Deciding?
            && ((exists i: nat | i < n :: !Answers(rs[..n], i)) <==> Repeats(rs[..n]))
            && (Repeats(rs[..n]) ==> !c.agree)
            && (c.agree ==> forall i: nat | i < n :: Reply(i, true) in rs[..n])
  {
    hide Tally, UpTo;
    var first := rs[..n];
    TallyDecides(AwaitingVotes(n), n, rs);
    AnswersAllIff(n, first);
    var c := Tally(AwaitingVotes(n), n, rs);
    if Repeats(first) { var j, k :| 0 <= j < k < n && first[j].i == first[k].i; assert !rs[j].agree; }
    if c.agree {
      forall i: nat | i < n ensures Reply(i, true) in first {
        assert Answers(first, i);
        var r :| r in first && r.i == i;
        var k :| 0 <= k < n && first[k] == r;
        assert rs[k].agree;
      }
    }
  }
}
