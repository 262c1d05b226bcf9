/** One block on an ssbd server: its committed content and its one-slot pending log. */
module Participant {
  import opened Bytes

  /** `content` is None while the block has never been stored.  `pending` is the version of the
      logged block image `log`; 0 means that the slot was emptied. */
  datatype Block = Block(content: Option<seq<byte>>, committed: uint32, pending: uint32, log: seq<byte>)

  datatype Update = Update(offset: nat, data: seq<byte>)

  /** A server's answer to a prepare. */
  datatype Prepared = Prepared(block: Block, agree: bool)

  predicate Live(b: Block) {
    !(b.pending == b.committed || b.pending == 0)
  }

  /** A prepare first stores a missing block as empty, with an empty log. */
  function Created(b: Block): Block {
    if b.content.None? then Block(Some([]), 0, 0, []) else b
  }

  function Image(b: Block, u: Update): seq<byte> {
    Overlay(if b.content.Some? then b.content.value else [], u.offset, u.data)
  }

  function PrepareQuick(b: Block, u: Update, version: uint32): Prepared {
    Prepared(Created(b).(pending := version, log := Image(b, u)), true)
  }

  function PrepareSlow(b: Block, u: Update, version: uint32): Prepared {
    if Live(Created(b)) then Prepared(Created(b), false) else PrepareQuick(b, u, version)
  }

  function Execute(b: Block): Block {
    b.(content := Some(b.log), committed := b.pending)
  }

  function Rollback(b: Block): Block {
    b.(pending := 0, log := [])
  }

  /** The first prepare of a missing block finds it empty, with both versions 0, and always agrees. */
  lemma MissingIsEmpty(b: Block, u: Update, version: uint32, quick: bool)
    requires b.content.None?
    ensures (if quick then PrepareQuick(b, u, version) else PrepareSlow(b, u, version))
            == Prepared(Block(Some([]), 0, version, Zeros(u.offset) + u.data), true)
  {
    assert Overlay([], u.offset, u.data) == Zeros(u.offset) + u.data;
  }

  // ---- exactly when the slot protects a prepared block

  /** An agreed prepare blocks every later prepare exactly when its version is neither 0 nor the
      committed version; otherwise the next prepare replaces the logged image. */
  lemma SlotProtectedIff(b: Block, u: Update, version: uint32, u': Update, version': uint32)
    requires PrepareSlow(b, u, version).agree
    ensures var b1 := PrepareSlow(b, u, version).block;
            var p := PrepareSlow(b1, u', version');
            && (!p.agree <==> version != 0 && version != Created(b).committed)
            && (!p.agree ==> p.block == b1)
            && (p.agree ==> p.block.log == Image(b, u') && p.block.pending == version')
  {
  }

  /** The slow and the quick prepare differ exactly on a stored block whose log is live. */
  lemma QuickIsSlowIff(b: Block, u: Update, version: uint32)
    ensures PrepareQuick(b, u, version) == PrepareSlow(b, u, version) <==> !(b.content.Some? && Live(b))
  {
  }

  /** An execute that follows a rollback installs the emptied log: the block loses its bytes. */
  lemma ExecuteAfterRollbackEmpties(b: Block)
    ensures Execute(Rollback(b)).content == Some([])
    ensures Execute(Rollback(b)).content == b.content <==> b.content == Some([])
  {
  }

  // ---- whole runs on one block

  /** A checked prepare, a quick one, an execute and a rollback. */
  datatype Op = Stage(u: Update, version: uint32) | Hurry(u: Update, version: uint32) | Install | Discard

  function Apply(b: Block, op: Op): Block {
    match op
    case Stage(u, v) => PrepareSlow(b, u, v).block
    case Hurry(u, v) => PrepareQuick(b, u, v).block
    case Install => Execute(b)
    case Discard => Rollback(b)
  }

  /** Two writers on one block: the second one's prepare is refused, but its rollback empties the first
      one's slot, and the first one's execute then erases the block.  LegalRun excludes such runs. */
  lemma ForeignRollbackErases(b: Block, u: Update, version: uint32, u': Update, version': uint32)
    requires PrepareSlow(b, u, version).agree && version != 0 && version != Created(b).committed
    ensures var b1 := PrepareSlow(b, u, version).block;
            && !PrepareSlow(b1, u', version').agree
            && Run(b, [Stage(u, version), Stage(u', version'), Discard, Install]).content == Some([])
            && !LegalRun(b, Opening(b), [Stage(u, version), Stage(u', version'), Discard, Install])
  {
    hide Overlay;
    var ops := [Stage(u, version), Stage(u', version'), Discard, Install];
    var b1 := Apply(b, ops[0]);
    var b2 := Apply(b1, ops[1]);
    var b3 := Apply(b2, ops[2]);
    assert ops[1..][1..] == ops[2..] && ops[2..][1..] == ops[3..] && ops[3..][1..] == [];
    assert Run(b3, ops[3..]) == Apply(b3, Install);
    assert Run(b1, ops[1..]) == Run(b3, ops[3..]);
    var l0 := Opening(b);
    var l1 := Note(l0, ops[0]);
    var l3 := Note(Note(l1, ops[1]), ops[2]);
    assert !LegalRun(b3, l3, ops[3..]);
    assert !LegalRun(b2, Note(l1, ops[1]), ops[2..]);
    assert !LegalRun(b1, l1, ops[1..]);
  }

  function Run(b: Block, ops: seq<Op>): Block
    decreases |ops|
  {
    if ops == [] then b else Run(Apply(b, ops[0]), ops[1..])
  }

  /** The answers to the checked prepares of a run, in order; quick ones are always agreed to. */
  function Votes(b: Block, ops: seq<Op>): seq<bool>
    decreases |ops|
  {
    if ops == [] then []
    else (if ops[0].Stage? then [PrepareSlow(b, ops[0].u, ops[0].version).agree] else [])
         + Votes(Apply(b, ops[0]), ops[1..])
  }

  /** What the log slot means: nothing, the log of an earlier and unfinished write, or an agreed update. */
  datatype Slot = Free | Stale | Taken(u: Update, version: uint32)

  /** The reference: at most one update in the slot, the executed ones in order, and the version of the last
      of them.  `armed` says that an agreed prepare has happened since the last rollback. */
  datatype Ledger = Ledger(executed: seq<Update>, slot: Slot, armed: bool, version: uint32)

  function Note(l: Ledger, op: Op): Ledger {
    match op
    case Stage(u, v) => if l.slot.Free? then l.(slot := Taken(u, v), armed := true) else l
    case Hurry(u, v) => l.(slot := Taken(u, v), armed := true)
    case Install => if l.slot.Taken? then Ledger(l.executed + [l.slot.u], Free, l.armed, l.slot.version) else l
    case Discard => l.(slot := Free, armed := false)
  }

  function Record(l: Ledger, ops: seq<Op>): Ledger
    decreases |ops|
  {
    if ops == [] then l else Record(Note(l, ops[0]), ops[1..])
  }

  function Grants(l: Ledger, ops: seq<Op>): seq<bool>
    decreases |ops|
  {
    if ops == [] then []
    else (if ops[0].Stage? then [l.slot.Free?] else []) + Grants(Note(l, ops[0]), ops[1..])
  }

  /** What the coordinators owe: fresh nonzero versions, and an execute only for an agreed prepare. */
  predicate Legal(b: Block, l: Ledger, op: Op) {
    match op
    case Stage(_, v) => v != 0 && v != Created(b).committed
    case Hurry(_, v) => v != 0 && v != Created(b).committed
    case Install => l.armed
    case Discard => true
  }

  predicate LegalRun(b: Block, l: Ledger, ops: seq<Op>)
    decreases |ops|
  {
    ops != [] ==> Legal(b, l, ops[0]) && LegalRun(Apply(b, ops[0]), Note(l, ops[0]), ops[1..])
  }

  function OverlayAll(base: seq<byte>, us: seq<Update>): seq<byte> {
    if us == [] then base
    else var last := us[|us| - 1]; Overlay(OverlayAll(base, us[..|us| - 1]), last.offset, last.data)
  }

  /** The block `b` represents the ledger `l` over the initial bytes `base`. */
  ghost predicate Represents(base: seq<byte>, b: Block, l: Ledger) {
    && Created(b).content == Some(OverlayAll(base, l.executed)) && Created(b).committed == l.version
    && (Live(Created(b)) <==> !l.slot.Free?)
    && (l.armed ==> b.content.Some? && !l.slot.Stale?)
    && (l.slot.Taken? ==> l.armed && b.log == Image(b, l.slot.u) && b.pending == l.slot.version)
    && (l.armed && l.slot.Free? ==> Some(b.log) == b.content && b.pending == b.committed)
  }

  lemma StepRepresents(base: seq<byte>, b: Block, l: Ledger, op: Op)
    requires Represents(base, b, l) && Legal(b, l, op)
    ensures Represents(base, Apply(b, op), Note(l, op))
    ensures op.Stage? ==> (PrepareSlow(b, op.u, op.version).agree <==> l.slot.Free?)
  {
    if op.Install? && l.slot.Taken? {
      assert (l.executed + [l.slot.u])[..|l.executed|] == l.executed;
    }
  }

  lemma {:induction false} RunRepresents(base: seq<byte>, b: Block, l: Ledger, ops: seq<Op>)
    requires Represents(base, b, l) && LegalRun(b, l, ops)
    ensures Represents(base, Run(b, ops), Record(l, ops))
    ensures Votes(b, ops) == Grants(l, ops)
    decreases |ops|
  {
    hide Represents, Legal;
    if ops != [] {
      StepRepresents(base, b, l, ops[0]);
      RunRepresents(base, Apply(b, ops[0]), Note(l, ops[0]), ops[1..]);
    }
  }

  /** The ledger of a block nobody has written to yet; its log may be live. */
  function Opening(b: Block): Ledger {
    Ledger([], if Live(Created(b)) then Stale else Free, false, if b.content.None? then 0 else b.committed)
  }

  /** Over every legal run, from any block, a checked prepare is granted exactly when the slot is free, and
      the block holds its initial bytes overlaid, in order, by exactly the executed updates, under the version
      of the last one: refused, rolled-back and hurried-over updates, repeated executes and a stale log leave no
      trace.  A taken slot holds the image of its update under its version. */
  lemma SlotSafety(b: Block, ops: seq<Op>)
    requires LegalRun(b, Opening(b), ops)
    ensures var l := Record(Opening(b), ops);
            && Votes(b, ops) == Grants(Opening(b), ops)
            && Created(Run(b, ops)).content == Some(OverlayAll(Created(b).content.value, l.executed))
            && Created(Run(b, ops)).committed == l.version
            && (Live(Created(Run(b, ops))) <==> !l.slot.Free?)
            && (l.slot.Taken? ==> Run(b, ops).pending == l.slot.version && Run(b, ops).log == Image(Run(b, ops), l.slot.u))
  {
    RunRepresents(Created(b).content.value, b, Opening(b), ops);
  }

  // ---- two writers on one block

  /** The operations of other writers: no execute, and none carries `version`. */
  ghost predicate Foreign(ops: seq<Op>, version: uint32) {
    forall op | op in ops :: !op.Install? && (op.Stage? || op.Hurry? ==> op.version != version)
  }

  ghost predicate AllChecked(ops: seq<Op>) {
    forall op | op in ops :: op.Stage?
  }

  /** While the slot is live, checked prepares leave the block alone. */
  lemma {:induction false} LiveSlotStays(b: Block, ops: seq<Op>)
    requires b.content.Some? && Live(b) && AllChecked(ops)
    ensures Run(b, ops) == b && forall vote | vote in Votes(b, ops) :: !vote
    decreases |ops|
  {
    if ops != [] {
      assert ops[0] in ops;
      LiveSlotStays(b, ops[1..]);
    }
  }

  /** A version that has left the slot does not come back by the operations of others. */
  lemma {:induction false} VersionStaysAway(b: Block, version: uint32, ops: seq<Op>)
    requires b.content.Some? && b.pending != version && version != 0 && Foreign(ops, version)
    ensures Run(b, ops).pending != version
    decreases |ops|
  {
    hide Overlay;
    if ops != [] {
      assert ops[0] in ops;
      VersionStaysAway(Apply(b, ops[0]), version, ops[1..]);
    }
  }

  /** The first rollback or quick prepare of another writer takes the slot. */
  lemma {:induction false} SlotIsTaken(b: Block, version: uint32, ops: seq<Op>)
    requires b.content.Some? && version != 0 && Foreign(ops, version) && !AllChecked(ops)
    ensures Run(b, ops).pending != version
    decreases |ops|
  {
    hide Overlay;
    assert ops == [ops[0]] + ops[1..] && ops[0] in ops;
    var b1 := Apply(b, ops[0]);
    if ops[0].Stage? { SlotIsTaken(b1, version, ops[1..]); } else { VersionStaysAway(b1, version, ops[1..]); }
  }

  /** Isolation between writers, exactly: after an agreed prepare, whatever checked prepares, quick prepares
      and rollbacks of other writers follow, in any number and order, the slot still holds the update, so
      that the next execute installs it, if and only if each of them is a checked prepare: a rollback empties
      the slot and a quick prepare replaces its image.  Until then every checked prepare is refused. */
  lemma UpdateSurvivesIff(b: Block, u: Update, version: uint32, ops: seq<Op>)
    requires PrepareSlow(b, u, version).agree && version != 0 && version != Created(b).committed && Foreign(ops, version)
    ensures var b1 := PrepareSlow(b, u, version).block;
            var b2 := Run(b1, ops);
            && (b2.pending == version && b2.log == Image(b, u) <==> AllChecked(ops))
            && (AllChecked(ops) ==> Execute(b2).content == Some(Image(b, u)) && forall vote | vote in Votes(b1, ops) :: !vote)
  {
    hide Overlay;
    var b1 := PrepareSlow(b, u, version).block;
    if AllChecked(ops) { LiveSlotStays(b1, ops); } else { SlotIsTaken(b1, version, ops); }
  }

  /** A quick prepare of another writer takes an agreed update's slot: the execute installs the other one's
      bytes, and both writers were told that they may go on. */
  lemma HurryTakesSlot(b: Block, u: Update, version: uint32, u': Update, version': uint32)
    requires PrepareSlow(b, u, version).agree
    ensures var b1 := PrepareSlow(b, u, version).block;
            && PrepareQuick(b1, u', version').agree
            && Run(b1, [Hurry(u', version'), Install]).content == Some(Image(b, u'))
            && Run(b1, [Hurry(u', version'), Install]).committed == version'
  {
    hide Overlay;
    var b1 := PrepareSlow(b, u, version).block;
    var b2 := Apply(b1, Hurry(u', version'));
    assert [Hurry(u', version'), Install][1..] == [Install];
    assert Run(b2, [Install]) == Run(Apply(b2, Install), []);
  }
}
