/** Skipping the log check for files whose last write went through. */
module QuickPath {
  import opened Bytes
  import opened Participant
  import opened TwoPhase
  import opened Striping
  import opened FlatFile

  datatype Request = Request(file: Uuid, write: Write)

  /** `checked` is what the data function remembers between writes. */
  datatype Store = Store(files: map<Uuid, Blocks>, checked: set<Uuid>)

  function BlocksOf(s: Store, file: Uuid): Blocks { if file in s.files then s.files[file] else map[] }

  predicate WellFormed(rs: seq<Request>) { forall r | r in rs :: Sized(r.write) }

  ghost function Verdict(bs: BlockSize, s: Store, r: Request, quick: bool): bool
    requires Sized(r.write)
  {
    AllAgree(TxnOf(bs, r.write.(quick := quick)), BlocksOf(s, r.file))
  }

  /** One complete write: prepare everywhere, count the votes, execute or roll back everywhere. */
  ghost function Perform(bs: BlockSize, s: Store, r: Request, quick: bool): Store
    requires Sized(r.write)
  {
    var t := TxnOf(bs, r.write.(quick := quick));
    Store(s.files[r.file := Outcome(t, BlocksOf(s, r.file))],
          if Verdict(bs, s, r, quick) then s.checked + {r.file} else s.checked - {r.file})
  }

  /** The stores and verdicts of a run; `mayHurry` allows the quick prepare for checked files. */
  ghost function RunAll(bs: BlockSize, s: Store, rs: seq<Request>, mayHurry: bool): (Store, seq<bool>)
    requires WellFormed(rs)
    decreases |rs|
  {
    if rs == [] then (s, []) else
    var quick := mayHurry && rs[0].file in s.checked;
    var rest := RunAll(bs, Perform(bs, s, rs[0], quick), rs[1..], mayHurry);
    (rest.0, [Verdict(bs, s, rs[0], quick)] + rest.1)
  }

  /** What the protocol does, message by message: when a write of a file is done, the store holds the blocks of
      that run, and the file is recorded as checked exactly when the client was told OK.  Nothing else changes. */
  lemma PerformIsRun(bs: BlockSize, s: Store, r: Request, quick: bool, run: seq<State>)
    requires Sized(r.write) && IsRun(TxnOf(bs, r.write.(quick := quick)), if r.file in s.files then s.files[r.file] else map[], run)
    requires run[|run| - 1].coord.phase.Done?
    ensures var s', last := Perform(bs, s, r, quick), run[|run| - 1];
            && s'.files == s.files[r.file := last.blocks]
            && (Verdict(bs, s, r, quick) <==> last.coord.agree)
            && forall f :: f in s'.checked <==> if f == r.file then last.coord.agree else f in s.checked
  {
    hide TxnOf, Outcome, AllAgree, IsRun;
    TxnDistinct(bs, r.write.(quick := quick));
    RunsEndInOutcome(TxnOf(bs, r.write.(quick := quick)), BlocksOf(s, r.file), run);
  }

  // ---- one write

  /** The block has a log that a checked prepare respects. */
  ghost predicate LiveIn(s: Store, file: Uuid, b: int) {
    var x := At(BlocksOf(s, file), b); x.content.Some? && Live(x)
  }

  ghost predicate Touches(bs: BlockSize, r: Request, b: int)
    requires Sized(r.write)
  {
    Touched(TxnOf(bs, r.write), b)
  }

  ghost predicate MeetsLive(bs: BlockSize, s: Store, r: Request)
    requires Sized(r.write)
  {
    exists b :: Touches(bs, r, b) && LiveIn(s, r.file, b)
  }

  lemma SameParts(bs: BlockSize, w: Write, quick: bool)
    requires Sized(w)
    ensures TxnOf(bs, w.(quick := quick)) == TxnOf(bs, w).(quick := quick)
  {
    var t, t' := TxnOf(bs, w), TxnOf(bs, w.(quick := quick));
    forall i | 0 <= i < |t.parts| ensures t.parts[i] == t'.parts[i] {
      assert t.parts[i] == PartOf(bs, w, i) && t'.parts[i] == PartOf(bs, w.(quick := quick), i);
    }
  }

  /** The parts that meet no live log are prepared the same way, checked or not. */
  lemma SamePrepare(bs: BlockSize, s: Store, r: Request, i: nat)
    requires Sized(r.write) && i < |TxnOf(bs, r.write).parts|
    ensures var t := TxnOf(bs, r.write);
            var b := t.parts[i].block;
            var p, p' := HandlePrepare(t.(quick := true), At(BlocksOf(s, r.file), b), i), HandlePrepare(t.(quick := false), At(BlocksOf(s, r.file), b), i);
            && p.agree && Touches(bs, r, b)
            && (p'.agree <==> !LiveIn(s, r.file, b)) && (p'.agree ==> p' == p)
  {
    hide TxnOf, Overlay;
  }

  /** A single write can tell the two apart exactly when some stored block it touches has a live log:
      the checked prepare refuses, the quick one overwrites that log. */
  lemma HurryIsSeenIff(bs: BlockSize, s: Store, r: Request)
    requires Sized(r.write)
    ensures Verdict(bs, s, r, true)
    ensures !Verdict(bs, s, r, false) <==> MeetsLive(bs, s, r)
    ensures !MeetsLive(bs, s, r) ==> Perform(bs, s, r, true) == Perform(bs, s, r, false)
  {
    hide TxnOf, HandlePrepare, LiveIn, StoreAll;
    var t, blocks := TxnOf(bs, r.write), BlocksOf(s, r.file);
    var yes, no := t.(quick := true), t.(quick := false);
    SameParts(bs, r.write, true);
    SameParts(bs, r.write, false);
    forall i: nat | i < |t.parts|
      ensures Agrees(yes, blocks, i) && (Agrees(no, blocks, i) <==> !LiveIn(s, r.file, t.parts[i].block))
      ensures Agrees(no, blocks, i) ==> HandlePrepare(yes, At(blocks, t.parts[i].block), i) == HandlePrepare(no, At(blocks, t.parts[i].block), i)
    {
      SamePrepare(bs, s, r, i);
    }
    if MeetsLive(bs, s, r) {
      var b :| Touches(bs, r, b) && LiveIn(s, r.file, b);
      var i: nat :| i < |t.parts| && t.parts[i].block == b;
      assert !Agrees(no, blocks, i);
    } else {
      assert AllAgree(no, blocks);
      assert BlockIds(yes) == BlockIds(no);
      assert SettledAll(yes, blocks) == SettledAll(no, blocks);
    }
  }

  /** A complete write, agreed or refused, leaves no live log in the blocks it touches and no trace in others. */
  lemma LiveAfter(bs: BlockSize, s: Store, r: Request, quick: bool, file: Uuid, b: int)
    requires Sized(r.write)
    ensures LiveIn(Perform(bs, s, r, quick), file, b) <==> LiveIn(s, file, b) && !(file == r.file && Touches(bs, r, b))
  {
    hide TxnOf, Outcome, Verdict;
    var t, blocks := TxnOf(bs, r.write.(quick := quick)), BlocksOf(s, r.file);
    SameParts(bs, r.write, quick);
    if file == r.file {
      if i: nat :| i < |t.parts| && t.parts[i].block == b {
        TxnDistinct(bs, r.write.(quick := quick));
        OutcomeAllOrNothing(t, blocks, i);
      } else {
        OutcomeElsewhere(t, blocks, b);
      }
    }
  }

  // ---- whole runs

  /** The k-th write touches a block with a live log from before the run: no earlier write of its file
      touched it. */
  ghost predicate Stale(bs: BlockSize, s: Store, rs: seq<Request>, k: nat)
    requires WellFormed(rs) && k < |rs|
  {
    exists b :: Touches(bs, rs[k], b) && LiveIn(s, rs[k].file, b) && Untouched(bs, rs, k, rs[k].file, b)
  }

  ghost predicate Untouched(bs: BlockSize, rs: seq<Request>, k: nat, file: Uuid, b: int)
    requires WellFormed(rs) && k <= |rs|
  {
    forall j | 0 <= j < k :: !(rs[j].file == file && Touches(bs, rs[j], b))
  }

  /** The last of the first k writes that was to this file met no stale log; if there is none, the file was
      checked from the start. */
  ghost predicate Trusted(bs: BlockSize, s: Store, rs: seq<Request>, file: Uuid, k: nat)
    requires WellFormed(rs) && k <= |rs|
  {
    if k == 0 then file in s.checked
    else if rs[k - 1].file == file then !Stale(bs, s, rs, k - 1)
    else Trusted(bs, s, rs, file, k - 1)
  }

  /** After the first write of a run the stale blocks of the other writes are the same ... */
  lemma StaleLater(bs: BlockSize, s: Store, rs: seq<Request>, k: nat)
    requires WellFormed(rs) && 0 < k < |rs|
    ensures Stale(bs, s, rs, k) <==> Stale(bs, Perform(bs, s, rs[0], false), rs[1..], k - 1)
  {
    hide LiveIn, Touches, Perform, Untouched;
    var s1, rest, f := Perform(bs, s, rs[0], false), rs[1..], rs[k].file;
    assert rest[k - 1] == rs[k];
    forall b ensures LiveIn(s, f, b) && Untouched(bs, rs, k, f, b) <==> LiveIn(s1, f, b) && Untouched(bs, rest, k - 1, f, b) {
      LiveAfter(bs, s, rs[0], false, f, b);
      UntouchedLater(bs, rs, k, f, b);
    }
  }

  lemma UntouchedLater(bs: BlockSize, rs: seq<Request>, k: nat, file: Uuid, b: int)
    requires WellFormed(rs) && 0 < k <= |rs|
    ensures Untouched(bs, rs, k, file, b) <==> !(rs[0].file == file && Touches(bs, rs[0], b)) && Untouched(bs, rs[1..], k - 1, file, b)
  {
    hide Touches;
    var rest := rs[1..];
    forall j | 0 <= j < k - 1 ensures rest[j] == rs[j + 1] {}
    if !(rs[0].file == file && Touches(bs, rs[0], b)) && Untouched(bs, rest, k - 1, file, b) {
      forall j | 0 <= j < k ensures !(rs[j].file == file && Touches(bs, rs[j], b)) {
        if j > 0 { assert rest[j - 1] == rs[j]; }
      }
    }
  }

  /** ... and so are the trusted files. */
  lemma {:induction false} TrustedLater(bs: BlockSize, s: Store, rs: seq<Request>, file: Uuid, k: nat)
    requires WellFormed(rs) && 0 < k <= |rs|
    ensures Trusted(bs, s, rs, file, k) <==> Trusted(bs, Perform(bs, s, rs[0], false), rs[1..], file, k - 1)
  {
    hide Verdict, Stale, MeetsLive;
    if k == 1 {
      HurryIsSeenIff(bs, s, rs[0]);
      FirstStale(bs, s, rs);
    } else {
      StaleLater(bs, s, rs, k - 1);
      TrustedLater(bs, s, rs, file, k - 1);
    }
  }

  lemma FirstStale(bs: BlockSize, s: Store, rs: seq<Request>)
    requires WellFormed(rs) && rs != []
    ensures Stale(bs, s, rs, 0) <==> MeetsLive(bs, s, rs[0])
  {
    hide LiveIn, Touches;
    forall b ensures Untouched(bs, rs, 0, rs[0].file, b) {}
  }

  /** Some write of a trusted file would be refused if its blocks were asked to check. */
  ghost predicate Overlooks(bs: BlockSize, s: Store, rs: seq<Request>)
    requires WellFormed(rs)
  {
    exists k | 0 <= k < |rs| :: Trusted(bs, s, rs, rs[k].file, k) && Stale(bs, s, rs, k)
  }

  lemma OverlooksFirst(bs: BlockSize, s: Store, rs: seq<Request>)
    requires WellFormed(rs) && rs != []
    ensures Overlooks(bs, s, rs) <==>
            (rs[0].file in s.checked && MeetsLive(bs, s, rs[0])) || Overlooks(bs, Perform(bs, s, rs[0], false), rs[1..])
  {
    hide Perform, Stale, MeetsLive;
    var s1, rest := Perform(bs, s, rs[0], false), rs[1..];
    FirstStale(bs, s, rs);
    forall k | 0 < k < |rs|
      ensures Trusted(bs, s, rs, rs[k].file, k) && Stale(bs, s, rs, k)
              <==> Trusted(bs, s1, rest, rest[k - 1].file, k - 1) && Stale(bs, s1, rest, k - 1)
    {
      StaleLater(bs, s, rs, k);
      TrustedLater(bs, s, rs, rs[k].file, k);
    }
    hide Trusted;
    if Overlooks(bs, s1, rest) {
      var k :| 0 <= k < |rest| && Trusted(bs, s1, rest, rest[k].file, k) && Stale(bs, s1, rest, k);
      assert Trusted(bs, s, rs, rs[k + 1].file, k + 1) && Stale(bs, s, rs, k + 1);
    }
    assert Trusted(bs, s, rs, rs[0].file, 0) <==> rs[0].file in s.checked by { TrustedAtStart(bs, s, rs, rs[0].file); }
  }

  lemma TrustedAtStart(bs: BlockSize, s: Store, rs: seq<Request>, file: Uuid)
    requires WellFormed(rs)
    ensures Trusted(bs, s, rs, file, 0) <==> file in s.checked
  {
  }

  /** When hurrying shows, known before the run: a run of complete writes, from any store, has the same votes,
      blocks, logs and records with and without hurrying exactly when no write of a trusted file touches a block
      with a stale log.  The record of checked files is per file and the logs are per block. */
  lemma {:induction false} HurryShowsIff(bs: BlockSize, s: Store, rs: seq<Request>)
    requires WellFormed(rs)
    ensures RunAll(bs, s, rs, true) == RunAll(bs, s, rs, false) <==> !Overlooks(bs, s, rs)
    decreases |rs|
  {
    hide Perform, Verdict, MeetsLive;
    if rs != [] {
      OverlooksFirst(bs, s, rs);
      HurryIsSeenIff(bs, s, rs[0]);
      HurryShowsIff(bs, Perform(bs, s, rs[0], false), rs[1..]);
      hide Overlooks;
      var quick := rs[0].file in s.checked;
      var fast, slow := RunAll(bs, s, rs, true), RunAll(bs, s, rs, false);
      assert fast.1[0] == Verdict(bs, s, rs[0], quick) && slow.1[0] == Verdict(bs, s, rs[0], false);
      if !(quick && MeetsLive(bs, s, rs[0])) {
        var s1 := Perform(bs, s, rs[0], false);
        assert fast.1[1..] == RunAll(bs, s1, rs[1..], true).1 && slow.1[1..] == RunAll(bs, s1, rs[1..], false).1;
      }
    }
  }

  ghost predicate Quiet(s: Store) { forall f | f in s.files :: NoLiveLog(s.files[f]) }

  /** From a store without live logs, over every run of complete writes, hurrying changes no vote,
      no committed block and no log. */
  lemma QuickRefinesSlow(bs: BlockSize, s: Store, rs: seq<Request>)
    requires WellFormed(rs) && Quiet(s)
    ensures RunAll(bs, s, rs, true) == RunAll(bs, s, rs, false)
  {
    hide RunAll, Touches, Untouched, Trusted;
    HurryShowsIff(bs, s, rs);
    forall f: Uuid, b ensures !LiveIn(s, f, b) { }
  }

  /** Two writes suffice: the first one meets no live log, so its file is marked as checked; the second one
      touches another block, whose log is live, and is hurried over it instead of being refused. */
  lemma SecondWriteOverlooks(bs: BlockSize, s: Store, r0: Request, r1: Request, b: int)
    requires Sized(r0.write) && Sized(r1.write) && r0.file == r1.file && !MeetsLive(bs, s, r0)
    requires Touches(bs, r1, b) && LiveIn(s, r1.file, b)
    ensures RunAll(bs, s, [r0, r1], true).1 == [true, true] && RunAll(bs, s, [r0, r1], false).1 == [true, false]
  {
    hide TxnOf, LiveIn, Verdict;
    var s1 := Perform(bs, s, r0, false);
    HurryIsSeenIff(bs, s, r0);
    LiveAfter(bs, s, r0, false, r1.file, b);
    HurryIsSeenIff(bs, s1, r1);
    assert r1.file in s1.checked;
    hide Perform, MeetsLive, Touches;
    TwoVerdicts(bs, s, r0, r1, true);
    TwoVerdicts(bs, s, r0, r1, false);
  }

  lemma TwoVerdicts(bs: BlockSize, s: Store, r0: Request, r1: Request, mayHurry: bool)
    requires Sized(r0.write) && Sized(r1.write)
    ensures var quick0 := mayHurry && r0.file in s.checked;
            var s1 := Perform(bs, s, r0, quick0);
            RunAll(bs, s, [r0, r1], mayHurry).1 == [Verdict(bs, s, r0, quick0), Verdict(bs, s1, r1, mayHurry && r1.file in s1.checked)]
  {
    hide Perform, Verdict;
    var s1 := Perform(bs, s, r0, mayHurry && r0.file in s.checked);
    assert [r0, r1][1..] == [r1] && [r1][1..] == [];
    var s2 := Perform(bs, s1, r1, mayHurry && r1.file in s1.checked);
    assert RunAll(bs, s2, [], mayHurry).1 == [];
  }
}
