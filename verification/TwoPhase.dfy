/** Two-phase commit of one write: a coordinator, its messages in flight, and the touched blocks. */
module TwoPhase {
  import opened Bytes
  import opened Collections
  import opened Participant

  type Blocks = map<nat, Block>

  function At(blocks: Blocks, b: int): Block {
    if b in blocks then blocks[b] else Block(None, 0, 0, [])
  }

  /** What one block of the write receives. */
  datatype Part = Part(block: nat, update: Update)

  datatype Txn = Txn(parts: seq<Part>, version: uint32, quick: bool)

  ghost predicate DistinctBlocks(t: Txn) {
    forall i, j | 0 <= i < j < |t.parts| :: t.parts[i].block != t.parts[j].block
  }

  function Indices(t: Txn): set<nat> { UpTo(|t.parts|) }

  /** A message names the part it is about; the packet carries that part's block, offset and bytes. */
  datatype Message = Prepare(i: nat) | Vote(i: nat, agree: bool) | Decide(i: nat, execute: bool) | Ack(i: nat)

  datatype Phase = Voting | Deciding | Done

  /** `jobs` are the requests registered with the connections and still unanswered; `outstanding`
      and `agree` are the counter and the flag that the response callbacks share. */
  datatype Coord = Coord(jobs: set<nat>, outstanding: int, agree: bool, phase: Phase)

  datatype State = State(blocks: Blocks, net: set<Message>, coord: Coord)

  // ---- handlers

  function HandlePrepare(t: Txn, b: Block, i: nat): Prepared
    requires i < |t.parts|
  {
    if t.quick then PrepareQuick(b, t.parts[i].update, t.version)
    else PrepareSlow(b, t.parts[i].update, t.version)
  }

  function HandleDecision(b: Block, execute: bool): Block {
    if execute then Execute(b) else Rollback(b)
  }

  /** The callback of a prepare response; the last one decides and registers the decision requests. */
  function CountVote(c: Coord, n: nat, i: nat, agree: bool): Coord {
    var c1 := Coord(c.jobs - {i}, c.outstanding - 1, c.agree && agree, c.phase);
    if c1.outstanding == 0 then Coord(UpTo(n), n, c1.agree, Deciding) else c1
  }

  function CountAck(c: Coord, i: nat): Coord {
    Coord(c.jobs - {i}, c.outstanding - 1, c.agree, if c.outstanding == 1 then Done else c.phase)
  }

  function Prepares(t: Txn): set<Message> { set i | i in Indices(t) :: Prepare(i) }
  function Decisions(t: Txn, execute: bool): set<Message> { set i | i in Indices(t) :: Decide(i, execute) }

  function Init(t: Txn, blocks: Blocks): State {
    State(blocks, Prepares(t), Coord(Indices(t), |t.parts|, true, Voting))
  }

  /** One message is taken from the network, in any order, and handled. */
  function Deliver(t: Txn, s: State, m: Message): State
    requires m.i < |t.parts|
  {
    var rest, b := s.net - {m}, t.parts[m.i].block;
    match m
    case Prepare(i) =>
      var p := HandlePrepare(t, At(s.blocks, b), i);
      State(s.blocks[b := p.block], rest + {Vote(i, p.agree)}, s.coord)
    case Vote(i, agree) =>
      var c := CountVote(s.coord, |t.parts|, i, agree);
      State(s.blocks, if s.coord.outstanding == 1 then rest + Decisions(t, c.agree) else rest, c)
    case Decide(i, execute) =>
      State(s.blocks[b := HandleDecision(At(s.blocks, b), execute)], rest + {Ack(i)}, s.coord)
    case Ack(i) =>
      State(s.blocks, rest, CountAck(s.coord, i))
  }

  ghost predicate Next(t: Txn, s: State, s': State) {
    exists m | m in s.net :: m.i < |t.parts| && s' == Deliver(t, s, m)
  }

  ghost predicate IsRun(t: Txn, blocks: Blocks, run: seq<State>) {
    && |run| > 0 && run[0] == Init(t, blocks)
    && forall k | 0 < k < |run| :: Next(t, run[k - 1], run[k])
  }

  // ---- the serial reference

  ghost predicate Agrees(t: Txn, b0: Blocks, i: nat)
    requires i < |t.parts|
  {
    HandlePrepare(t, At(b0, t.parts[i].block), i).agree
  }

  ghost predicate AllAgree(t: Txn, b0: Blocks) {
    forall i: nat | i < |t.parts| :: Agrees(t, b0, i)
  }

  ghost function Settled(t: Txn, b0: Blocks, i: nat): Block
    requires i < |t.parts|
  {
    HandleDecision(HandlePrepare(t, At(b0, t.parts[i].block), i).block, AllAgree(t, b0))
  }

  ghost function SettledAll(t: Txn, b0: Blocks): seq<Block> {
    seq(|t.parts|, i requires 0 <= i < |t.parts| => Settled(t, b0, i))
  }

  /** The blocks after storing fs[0] under ids[0], then fs[1] under ids[1], and so on. */
  function StoreAll(blocks: Blocks, ids: seq<nat>, fs: seq<Block>): Blocks
    requires |ids| == |fs|
  {
    if ids == [] then blocks
    else var k := |ids| - 1; StoreAll(blocks, ids[..k], fs[..k])[ids[k] := fs[k]]
  }

  function BlockIds(t: Txn): seq<nat> { seq(|t.parts|, i requires 0 <= i < |t.parts| => t.parts[i].block) }

  /** The serial reference: every part is settled, one after the other. */
  ghost function Outcome(t: Txn, b0: Blocks): Blocks {
    StoreAll(b0, BlockIds(t), SettledAll(t, b0))
  }

  ghost predicate Touched(t: Txn, b: int) {
    exists i | 0 <= i < |t.parts| :: t.parts[i].block == b
  }

  lemma {:induction false} StoreAllAt(blocks: Blocks, ids: seq<nat>, fs: seq<Block>, i: nat)
    requires |ids| == |fs| && i < |ids|
    requires forall k | i < k < |ids| :: ids[k] != ids[i]
    ensures ids[i] in StoreAll(blocks, ids, fs) && StoreAll(blocks, ids, fs)[ids[i]] == fs[i]
  {
    var k := |ids| - 1;
    if i < k { StoreAllAt(blocks, ids[..k], fs[..k], i); }
  }

  lemma {:induction false} StoreAllElsewhere(blocks: Blocks, ids: seq<nat>, fs: seq<Block>, b: int)
    requires |ids| == |fs| && b !in ids
    ensures var r := StoreAll(blocks, ids, fs); (b in r <==> b in blocks) && (b in blocks ==> r[b] == blocks[b])
  {
    if ids != [] {
      var k := |ids| - 1;
      StoreAllElsewhere(blocks, ids[..k], fs[..k], b);
    }
  }

  lemma OutcomeAt(t: Txn, b0: Blocks, i: nat)
    requires DistinctBlocks(t) && i < |t.parts|
    ensures var b := t.parts[i].block; b in Outcome(t, b0) && Outcome(t, b0)[b] == Settled(t, b0, i)
  {
    StoreAllAt(b0, BlockIds(t), SettledAll(t, b0), i);
  }

  lemma OutcomeElsewhere(t: Txn, b0: Blocks, b: int)
    requires !Touched(t, b)
    ensures (b in Outcome(t, b0) <==> b in b0) && (b in b0 ==> Outcome(t, b0)[b] == b0[b])
  {
    StoreAllElsewhere(b0, BlockIds(t), SettledAll(t, b0), b);
  }

  // ---- the invariant

  /** What a state shows of part i, which lives in block b. */
  datatype Local = Local(asked: bool, yes: bool, no: bool, run: bool, undo: bool, acked: bool,
                         waiting: bool, stored: bool, block: Block)

  ghost function Look(s: State, i: nat, b: nat): Local {
    Local(Prepare(i) in s.net, Vote(i, true) in s.net, Vote(i, false) in s.net,
          Decide(i, true) in s.net, Decide(i, false) in s.net, Ack(i) in s.net,
          i in s.coord.jobs, b in s.blocks, At(s.blocks, b))
  }

  /** While votes are collected: at most one message of the part is in flight, one exactly while its
      job is registered, and its block is still `was` until the prepare `p` was handled. */
  ghost predicate VotingPart(l: Local, was: Local, p: Prepared) {
    && !l.run && !l.undo && !l.acked
    && !(if p.agree then l.no else l.yes) && !(l.asked && (l.yes || l.no))
    && (l.waiting <==> l.asked || l.yes || l.no)
    && (if l.asked then l.stored == was.stored && l.block == was.block else l.stored && l.block == p.block)
  }

  /** Once decision d is taken: likewise, and the block is `p`'s until the decision reaches it. */
  ghost predicate DecidedPart(l: Local, p: Prepared, d: bool) {
    && !l.asked && !l.yes && !l.no
    && !(if d then l.undo else l.run) && !((l.run || l.undo) && l.acked)
    && (l.waiting <==> l.run || l.undo || l.acked)
    && l.stored && l.block == (if l.run || l.undo then p.block else HandleDecision(p.block, d))
  }

  ghost predicate PartInv(c: Coord, l: Local, was: Local, p: Prepared) {
    if c.phase.Voting? then VotingPart(l, was, p) else DecidedPart(l, p, c.agree)
  }

  ghost predicate PartOk(t: Txn, s0: State, s: State, i: nat)
    requires i < |t.parts|
  {
    var b := t.parts[i].block;
    PartInv(s.coord, Look(s, i, b), Look(s0, i, b), HandlePrepare(t, At(s0.blocks, b), i))
  }

  ghost predicate CoordInv(t: Txn, b0: Blocks, c: Coord) {
    && c.jobs <= Indices(t) && c.outstanding == |c.jobs|
    && (c.agree <==> forall i: nat | i < |t.parts| && (c.phase.Voting? ==> i !in c.jobs) :: Agrees(t, b0, i))
    && (c.phase.Done? ==> c.jobs == {})
    && (c.jobs == {} && |t.parts| > 0 ==> c.phase.Done?)
  }

  ghost predicate Inv(t: Txn, b0: Blocks, s: State) {
    && CoordInv(t, b0, s.coord)
    && (forall m | m in s.net :: m.i < |t.parts|)
    && (forall i: nat | i < |t.parts| :: PartOk(t, Init(t, b0), s, i))
    && (forall b | !Touched(t, b) :: (b in s.blocks <==> b in b0) && (b in b0 ==> s.blocks[b] == b0[b]))
  }

  lemma InitInv(t: Txn, b0: Blocks)
    ensures Inv(t, b0, Init(t, b0))
  {
    if |t.parts| > 0 { assert 0 in Indices(t); }
    assert forall i: nat | i < |t.parts| :: PartOk(t, Init(t, b0), Init(t, b0), i);
  }

  /** A delivery that takes no decision leaves every other part as it was. */
  lemma OthersUnmoved(t: Txn, s: State, m: Message, j: nat)
    requires DistinctBlocks(t) && m.i < |t.parts| && j < |t.parts| && j != m.i
    requires m.Vote? ==> s.coord.outstanding != 1
    ensures Look(Deliver(t, s, m), j, t.parts[j].block) == Look(s, j, t.parts[j].block)
  {
    hide HandlePrepare;
    assert t.parts[j].block != t.parts[m.i].block;
    match m
    case Prepare(_) =>
    case Vote(_, _) =>
    case Decide(_, _) =>
    case Ack(_) =>
  }

  /** Messages that do not take the decision. */
  ghost predicate Ordinary(s: State, m: Message) {
    m in s.net && (m.Vote? ==> s.coord.outstanding != 1)
  }

  lemma OtherPartKept(t: Txn, b0: Blocks, s: State, m: Message, j: nat)
    requires DistinctBlocks(t) && Inv(t, b0, s) && Ordinary(s, m) && j < |t.parts| && j != m.i
    ensures PartOk(t, Init(t, b0), Deliver(t, s, m), j)
  {
    hide HandlePrepare, CoordInv;
    assert PartOk(t, Init(t, b0), s, j) && PartOk(t, Init(t, b0), s, m.i);
    OthersUnmoved(t, s, m, j);
  }

  lemma OwnPartMoves(t: Txn, b0: Blocks, s: State, m: Message)
    requires Inv(t, b0, s) && Ordinary(s, m)
    ensures PartOk(t, Init(t, b0), Deliver(t, s, m), m.i)
  {
    hide HandlePrepare, CoordInv;
    assert PartOk(t, Init(t, b0), s, m.i);
  }

  lemma CoordKept(t: Txn, b0: Blocks, s: State, m: Message)
    requires Inv(t, b0, s) && Ordinary(s, m)
    ensures CoordInv(t, b0, Deliver(t, s, m).coord)
  {
    hide HandlePrepare, CoordInv, CountVote, CountAck;
    assert PartOk(t, Init(t, b0), s, m.i);
    if m.Vote? { VoteKeepsCoord(t, b0, s.coord, m.i, m.agree); }
    if m.Ack? { AckKeepsCoord(t, b0, s.coord, m.i); }
  }

  lemma VoteKeepsCoord(t: Txn, b0: Blocks, c: Coord, i: nat, agree: bool)
    requires CoordInv(t, b0, c) && c.phase.Voting? && i in c.jobs && i < |t.parts| && agree == Agrees(t, b0, i) && c.outstanding != 1
    ensures CoordInv(t, b0, CountVote(c, |t.parts|, i, agree))
  {
    hide Agrees;
    var c' := CountVote(c, |t.parts|, i, agree);
    assert |c'.jobs| == |c.jobs| - 1;
  }

  lemma AckKeepsCoord(t: Txn, b0: Blocks, c: Coord, i: nat)
    requires CoordInv(t, b0, c) && !c.phase.Voting? && i in c.jobs && i < |t.parts|
    ensures CoordInv(t, b0, CountAck(c, i))
  {
    hide Agrees;
    var c' := CountAck(c, i);
    assert |c'.jobs| == |c.jobs| - 1;
  }

  lemma OrdinaryKeepsInv(t: Txn, b0: Blocks, s: State, m: Message)
    requires DistinctBlocks(t) && Inv(t, b0, s) && Ordinary(s, m)
    ensures Inv(t, b0, Deliver(t, s, m))
  {
    hide PartOk, CoordInv, HandlePrepare;
    CoordKept(t, b0, s, m);
    forall j: nat | j < |t.parts| ensures PartOk(t, Init(t, b0), Deliver(t, s, m), j) {
      if j == m.i { OwnPartMoves(t, b0, s, m); } else { OtherPartKept(t, b0, s, m, j); }
    }
  }

  lemma LastVoteIsOnlyJob(t: Txn, b0: Blocks, s: State, i: nat, agree: bool)
    requires Inv(t, b0, s) && Vote(i, agree) in s.net && s.coord.outstanding == 1
    ensures s.coord.jobs == {i} && s.coord.phase.Voting? && agree == Agrees(t, b0, i)
  {
    hide HandlePrepare;
    assert PartOk(t, Init(t, b0), s, i);
    assert |s.coord.jobs - {i}| == 0;
  }

  lemma LastVoteMovesPart(t: Txn, b0: Blocks, s: State, i: nat, agree: bool, j: nat)
    requires Inv(t, b0, s) && Vote(i, agree) in s.net && s.coord.outstanding == 1 && j < |t.parts|
    ensures PartOk(t, Init(t, b0), Deliver(t, s, Vote(i, agree)), j)
  {
    hide HandlePrepare;
    LastVoteIsOnlyJob(t, b0, s, i, agree);
    assert PartOk(t, Init(t, b0), s, j);
    assert j in Indices(t);
  }

  /** The last vote takes the decision: it is `execute` exactly when every part agreed. */
  lemma LastVoteDecides(t: Txn, b0: Blocks, s: State, i: nat, agree: bool)
    requires Inv(t, b0, s) && Vote(i, agree) in s.net && s.coord.outstanding == 1
    ensures Inv(t, b0, Deliver(t, s, Vote(i, agree)))
    ensures var c := Deliver(t, s, Vote(i, agree)).coord; c.phase.Deciding? && (c.agree <==> AllAgree(t, b0))
  {
    hide PartOk, CoordInv, AllAgree, HandlePrepare;
    LastVoteCoord(t, b0, s, i, agree);
    forall j: nat | j < |t.parts| ensures PartOk(t, Init(t, b0), Deliver(t, s, Vote(i, agree)), j) {
      LastVoteMovesPart(t, b0, s, i, agree, j);
    }
  }

  lemma LastVoteCoord(t: Txn, b0: Blocks, s: State, i: nat, agree: bool)
    requires Inv(t, b0, s) && Vote(i, agree) in s.net && s.coord.outstanding == 1
    ensures var c := Deliver(t, s, Vote(i, agree)).coord;
            CoordInv(t, b0, c) && c.phase.Deciding? && (c.agree <==> AllAgree(t, b0))
  {
    hide PartOk, Agrees;
    LastVoteIsOnlyJob(t, b0, s, i, agree);
    assert i in Indices(t);
  }

  lemma NextKeepsInv(t: Txn, b0: Blocks, s: State, s': State)
    requires DistinctBlocks(t) && Inv(t, b0, s) && Next(t, s, s')
    ensures Inv(t, b0, s')
  {
    hide Inv, Deliver;
    var m :| m in s.net && m.i < |t.parts| && s' == Deliver(t, s, m);
    if Ordinary(s, m) { OrdinaryKeepsInv(t, b0, s, m); } else { LastVoteDecides(t, b0, s, m.i, m.agree); }
  }

  lemma {:induction false} RunInv(t: Txn, b0: Blocks, run: seq<State>)
    requires DistinctBlocks(t) && IsRun(t, b0, run)
    ensures Inv(t, b0, run[|run| - 1])
    decreases |run|
  {
    hide Inv, Next, Init;
    var k := |run| - 1;
    if k == 0 { InitInv(t, b0); } else {
      RunInv(t, b0, run[..k]);
      NextKeepsInv(t, b0, run[k - 1], run[k]);
    }
  }

  // ---- progress

  /** Every message in flight belongs to a registered job, and every registered job to a message. */
  lemma JobOfMessage(t: Txn, b0: Blocks, s: State, m: Message)
    requires Inv(t, b0, s) && m in s.net
    ensures m.i in s.coord.jobs
  {
    hide HandlePrepare, CoordInv;
    assert PartOk(t, Init(t, b0), s, m.i);
  }

  ghost function Unhandled(t: Txn, s: State): set<nat> {
    set i | i in Indices(t) && (Prepare(i) in s.net || Decide(i, true) in s.net || Decide(i, false) in s.net)
  }

  /** How many deliveries are left. */
  ghost function Rank(t: Txn, s: State): nat {
    |s.coord.jobs| + |Unhandled(t, s)| + if s.coord.phase.Voting? then 2 * |t.parts| else 0
  }

  /** Handling a request removes it from the unhandled ones. */
  lemma RequestCounts(t: Txn, b0: Blocks, s: State, m: Message)
    requires Inv(t, b0, s) && m in s.net && (m.Prepare? || m.Decide?)
    ensures Rank(t, Deliver(t, s, m)) == Rank(t, s) - 1
  {
    OneRequest(t, b0, s, m);
    hide Inv, Unhandled;
    RequestTaken(t, s, m);
  }

  /** A part has at most one request in flight. */
  lemma OneRequest(t: Txn, b0: Blocks, s: State, m: Message)
    requires Inv(t, b0, s) && m in s.net && (m.Prepare? || m.Decide?)
    ensures m.i < |t.parts|
    ensures forall r | r in s.net && r.i == m.i && (r.Prepare? || r.Decide?) :: r == m
  {
    hide HandlePrepare, HandleDecision, CoordInv;
    assert PartOk(t, Init(t, b0), s, m.i);
  }

  lemma RequestTaken(t: Txn, s: State, m: Message)
    requires m in s.net && (m.Prepare? || m.Decide?) && m.i < |t.parts|
    requires forall r | r in s.net && r.i == m.i && (r.Prepare? || r.Decide?) :: r == m
    ensures m.i in Unhandled(t, s) && Unhandled(t, Deliver(t, s, m)) == Unhandled(t, s) - {m.i}
    ensures Deliver(t, s, m).coord == s.coord
  {
    hide HandlePrepare, HandleDecision, At;
  }

  /** Counting a response removes its job. */
  lemma ResponseCounts(t: Txn, b0: Blocks, s: State, m: Message)
    requires Inv(t, b0, s) && m in s.net && (m.Ack? || (m.Vote? && s.coord.outstanding != 1))
    ensures Rank(t, Deliver(t, s, m)) == Rank(t, s) - 1
  {
    hide HandlePrepare;
    assert PartOk(t, Init(t, b0), s, m.i);
    assert Unhandled(t, Deliver(t, s, m)) == Unhandled(t, s);
  }

  lemma LastVoteCounts(t: Txn, b0: Blocks, s: State, m: Message)
    requires Inv(t, b0, s) && m in s.net && m.Vote? && s.coord.outstanding == 1
    ensures Rank(t, Deliver(t, s, m)) == Rank(t, s) - 1
  {
    hide HandlePrepare;
    LastVoteIsOnlyJob(t, b0, s, m.i, m.agree);
    forall i | i in Indices(t) ensures i !in Unhandled(t, s) { assert PartOk(t, Init(t, b0), s, i); }
    assert Unhandled(t, s) == {} && Unhandled(t, Deliver(t, s, m)) == Indices(t);
  }

  lemma DeliveryCounts(t: Txn, b0: Blocks, s: State, s': State)
    requires Inv(t, b0, s) && Next(t, s, s')
    ensures Rank(t, s') == Rank(t, s) - 1
  {
    hide Inv, Deliver, Rank;
    var m :| m in s.net && m.i < |t.parts| && s' == Deliver(t, s, m);
    if m.Prepare? || m.Decide? {
      RequestCounts(t, b0, s, m);
    } else if m.Vote? && s.coord.outstanding == 1 {
      LastVoteCounts(t, b0, s, m);
    } else {
      ResponseCounts(t, b0, s, m);
    }
  }

  lemma InitRank(t: Txn, b0: Blocks)
    ensures Rank(t, Init(t, b0)) == 4 * |t.parts|
  {
    assert Unhandled(t, Init(t, b0)) == Indices(t);
  }

  lemma {:induction false} RunRank(t: Txn, b0: Blocks, run: seq<State>)
    requires DistinctBlocks(t) && IsRun(t, b0, run)
    ensures |run| - 1 + Rank(t, run[|run| - 1]) == 4 * |t.parts|
    decreases |run|
  {
    hide Inv, Next, Init, Rank;
    var k := |run| - 1;
    if k == 0 { InitRank(t, b0); } else {
      RunRank(t, b0, run[..k]);
      RunInv(t, b0, run[..k]);
      DeliveryCounts(t, b0, run[k - 1], run[k]);
    }
  }

  /** A write that was cut into n > 0 parts never gets stuck, and it is finished after exactly 4 n
      deliveries in every order; one cut into nothing never answers its client. */
  lemma RunsTerminate(t: Txn, b0: Blocks, run: seq<State>)
    requires DistinctBlocks(t) && IsRun(t, b0, run)
    ensures |run| - 1 <= 4 * |t.parts|
    ensures var s := run[|run| - 1];
            && (s.coord.phase.Done? <==> |run| - 1 == 4 * |t.parts| && t.parts != [])
            && (s.coord.phase.Done? || t.parts == [] <==> s.net == {})
            && (t.parts == [] ==> s.coord.phase.Voting?)
  {
    var s := run[|run| - 1];
    RunRank(t, b0, run);
    RunInv(t, b0, run);
    forall m | m in s.net ensures m.i in s.coord.jobs { JobOfMessage(t, b0, s, m); }
    if i :| i in s.coord.jobs {
      assert PartOk(t, Init(t, b0), s, i);
    } else if t.parts != [] {
      assert Unhandled(t, s) == {};
    } else {
      assert |run| == 1;
    }
  }

  // ---- what every run guarantees

  ghost function BlockOf(t: Txn, s: State, i: nat): Block
    requires i < |t.parts|
  {
    At(s.blocks, t.parts[i].block)
  }

  /** The content a block keeps when its write does not happen: a missing block becomes empty. */
  ghost predicate Kept(was: Block, now: Block) {
    now.content == was.content || now.content == Created(was).content
  }

  /** Nothing changes before everybody agreed: in every reachable state, if some block of the write
      no longer holds its old content, then every block of the write has agreed to its prepare and
      the decision to execute has been taken. */
  lemma NoChangeBeforeAgreement(t: Txn, b0: Blocks, run: seq<State>, i: nat)
    requires DistinctBlocks(t) && IsRun(t, b0, run) && i < |t.parts|
    ensures var s := run[|run| - 1];
            Kept(At(b0, t.parts[i].block), BlockOf(t, s, i))
            || (AllAgree(t, b0) && s.coord.agree && !s.coord.phase.Voting?)
  {
    RunInv(t, b0, run);
    assert PartOk(t, Init(t, b0), run[|run| - 1], i);
  }

  /** Every run that ends leaves exactly the blocks of the serial reference, whatever the order in
      which prepares, votes, decisions and acknowledgements were delivered. */
  lemma RunsEndInOutcome(t: Txn, b0: Blocks, run: seq<State>)
    requires DistinctBlocks(t) && IsRun(t, b0, run) && run[|run| - 1].coord.phase.Done?
    ensures var s := run[|run| - 1];
            s.blocks == Outcome(t, b0) && (s.coord.agree <==> AllAgree(t, b0)) && s.net == {}
  {
    hide HandlePrepare;
    var s := run[|run| - 1];
    RunInv(t, b0, run);
    forall i: nat | i < |t.parts|
      ensures var b := t.parts[i].block; b in s.blocks && b in Outcome(t, b0) && s.blocks[b] == Outcome(t, b0)[b]
    {
      assert PartOk(t, Init(t, b0), s, i);
      OutcomeAt(t, b0, i);
    }
    forall b | !Touched(t, b)
      ensures (b in s.blocks <==> b in Outcome(t, b0)) && (b in s.blocks ==> s.blocks[b] == Outcome(t, b0)[b])
    {
      OutcomeElsewhere(t, b0, b);
    }
    forall m | m in s.net ensures m.i in s.coord.jobs { JobOfMessage(t, b0, s, m); }
  }

  /** The serial reference is all-or-nothing.  Either every block agreed and each holds its old bytes
      overlaid with its part of the write, under the version of the write, or each holds what it held before
      under its old version (a missing block becomes empty, with version 0).  No log is left live, so stale logs delay a file by one failed write at most. */
  lemma OutcomeAllOrNothing(t: Txn, b0: Blocks, i: nat)
    requires DistinctBlocks(t) && i < |t.parts|
    ensures var was, now := At(b0, t.parts[i].block), At(Outcome(t, b0), t.parts[i].block);
            && now.content == (if AllAgree(t, b0) then Some(Image(was, t.parts[i].update)) else Created(was).content)
            && now.committed == (if AllAgree(t, b0) then t.version else if was.content.None? then 0 else was.committed)
            && !Live(now) && now.content.Some?
  {
    assert AllAgree(t, b0) ==> Agrees(t, b0, i);
    OutcomeAt(t, b0, i);
  }

  /** From its agreed prepare until its decision arrives, a block logs its part under the version of the write. */
  lemma AgreedPartIsLogged(t: Txn, b0: Blocks, run: seq<State>, i: nat)
    requires DistinctBlocks(t) && IsRun(t, b0, run) && i < |t.parts| && Agrees(t, b0, i)
    requires var s := run[|run| - 1];
             if s.coord.phase.Voting? then Prepare(i) !in s.net else Decide(i, true) in s.net || Decide(i, false) in s.net
    ensures var b := BlockOf(t, run[|run| - 1], i);
            b.pending == t.version && b.log == Image(At(b0, t.parts[i].block), t.parts[i].update)
  {
    hide Next, Overlay, CoordInv;
    RunInv(t, b0, run);
    assert PartOk(t, Init(t, b0), run[|run| - 1], i);
    assert Init(t, b0).blocks == b0;
  }

  /** After a failed write, the same blocks accept the next one, quick or not. */
  lemma RetrySucceeds(t: Txn, b0: Blocks, t': Txn)
    requires DistinctBlocks(t) && BlockIds(t') == BlockIds(t)
    ensures AllAgree(t', Outcome(t, b0))
  {
    forall i: nat | i < |t'.parts| ensures Agrees(t', Outcome(t, b0), i) {
      assert t'.parts[i].block == BlockIds(t')[i] == t.parts[i].block;
      OutcomeAllOrNothing(t, b0, i);
    }
  }
}
