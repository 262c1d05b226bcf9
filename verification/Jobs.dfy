/** The proxy's jobs: queued, held by a worker, finished, and handed back when a worker closes. */
module Jobs {
  import opened Bytes
  import opened Collections

  /** A job is identified by its packet header; `file` is the key it is bound by. */
  datatype Job = Job(file: nat, id: nat)

  type WorkerId = nat

  datatype Worker = Worker(valid: bool, started: set<Job>)

  /** `queue` holds the posted process_job calls, `finished` the completed jobs with repetition.
      `known` and `repushed` are history: the jobs scheduled so far, and every hand-back. */
  datatype State = State(queue: multiset<Job>, workers: map<WorkerId, Worker>, bound: map<nat, WorkerId>,
                         finished: multiset<Job>, known: set<Job>, repushed: multiset<Job>)

  const Start := State(multiset{}, map[], map[], multiset{}, {}, multiset{})

  datatype Event =
    | Register(w: WorkerId, files: set<nat>)
    | Schedule(j: Job)
    | Process(j: Job, pick: Option<WorkerId>)
    | Response(w: WorkerId, j: Job)
    | Close(w: WorkerId)
    | TimerError(j: Job)

  predicate IsValid(s: State, w: WorkerId) { w in s.workers && s.workers[w].valid }

  /** The worker process_job starts the job on: the bound one, else the one the policy offers. */
  function Target(s: State, j: Job, pick: Option<WorkerId>): Option<WorkerId> {
    if j.file in s.bound && IsValid(s, s.bound[j.file]) then Some(s.bound[j.file])
    else if pick.Some? && IsValid(s, pick.value) then pick
    else None
  }

  function ProcessJob(s: State, j: Job, pick: Option<WorkerId>): State {
    match Target(s, j, pick)
    case None => s                                       // posted again
    case Some(w) =>
      var bound := if j.file in s.bound then s.bound else s.bound[j.file := w];
      var workers := s.workers[w := Worker(s.workers[w].valid, s.workers[w].started + {j})];
      s.(queue := s.queue - multiset{j}, bound := bound, workers := workers)
  }

  function OnResponse(s: State, w: WorkerId, j: Job): State {
    if w !in s.workers || j !in s.workers[w].started then s
    else s.(workers := s.workers[w := Worker(s.workers[w].valid, s.workers[w].started - {j})],
            finished := s.finished + multiset{j})
  }

  function FilesOf(js: set<Job>): set<nat> { set j | j in js :: j.file }

  /** The closed worker keeps its job map; every job in it is unbound and posted again. */
  function CloseWorker(s: State, w: WorkerId): State {
    if w !in s.workers then s else
    var js := s.workers[w].started;
    State(s.queue + multiset(js), s.workers[w := Worker(false, js)], s.bound - FilesOf(js),
          s.finished, s.known, s.repushed + multiset(js))
  }

  /** The files of a moved cache are bound to the worker that receives it, except those bound already, be it
      to a worker that is no longer valid. */
  function Bind(bound: map<nat, WorkerId>, files: set<nat>, w: WorkerId): map<nat, WorkerId> {
    bound + map f | f in files && f !in bound :: w
  }

  /** New workers and new jobs have new names; only posted jobs are processed. */
  predicate Enabled(s: State, e: Event) {
    match e
    case Register(w, _) => w !in s.workers
    case Schedule(j) => j !in s.known
    case Process(j, _) => j in s.queue
    case TimerError(j) => j in s.known
    case _ => true
  }

  function Apply(s: State, e: Event): State {
    match e
    case Register(w, files) => s.(workers := s.workers[w := Worker(true, {})], bound := Bind(s.bound, files, w))
    case Schedule(j) => s.(queue := s.queue + multiset{j}, known := s.known + {j})
    case Process(j, pick) => ProcessJob(s, j, pick)
    case Response(w, j) => OnResponse(s, w, j)
    case Close(w) => CloseWorker(s, w)
    case TimerError(j) => s.(queue := s.queue + multiset{j}, repushed := s.repushed + multiset{j})
  }

  predicate IsRun(s: State, es: seq<Event>)
    decreases |es|
  {
    es != [] ==> Enabled(s, es[0]) && IsRun(Apply(s, es[0]), es[1..])
  }

  function Run(s: State, es: seq<Event>): State
    decreases |es|
  {
    if es == [] then s else Run(Apply(s, es[0]), es[1..])
  }

  // ---- no job is lost

  ghost predicate Held(s: State, j: Job) {
    exists w | w in s.workers :: s.workers[w].valid && j in s.workers[w].started
  }

  ghost predicate Safe(s: State, j: Job) { j in s.finished || j in s.queue || Held(s, j) }

  function Holders(s: State, j: Job): set<WorkerId> {
    set w | w in s.workers && j in s.workers[w].started
  }

  /** The places of a job, closed workers included. */
  function Places(s: State, j: Job): nat { s.queue[j] + |Holders(s, j)| + s.finished[j] }

  ghost predicate JobInv(s: State, j: Job) {
    if j in s.known then Safe(s, j) && Places(s, j) <= 1 + s.repushed[j]
    else Places(s, j) == 0
  }

  lemma ProcessKeeps(s: State, j: Job, pick: Option<WorkerId>, k: Job)
    requires JobInv(s, k) && j in s.queue
    ensures JobInv(ProcessJob(s, j, pick), k)
  {
    var s' := ProcessJob(s, j, pick);
    var t := Target(s, j, pick);
    if t.Some? {
      var w := t.value;
      assert Holders(s', k) == if k == j then Holders(s, k) + {w} else Holders(s, k);
      if k == j { assert s'.workers[w].valid && k in s'.workers[w].started; }
      if Held(s, k) {
        var v :| v in s.workers && s.workers[v].valid && k in s.workers[v].started;
        assert s'.workers[v].valid && k in s'.workers[v].started;
      }
    }
  }

  lemma ResponseKeeps(s: State, w: WorkerId, j: Job, k: Job)
    requires JobInv(s, k)
    ensures JobInv(OnResponse(s, w, j), k)
  {
    var s' := OnResponse(s, w, j);
    if s' != s {
      assert Holders(s', k) == if k == j then Holders(s, k) - {w} else Holders(s, k);
      if k != j && Held(s, k) {
        var v :| v in s.workers && s.workers[v].valid && k in s.workers[v].started;
        assert s'.workers[v].valid && k in s'.workers[v].started;
      }
    }
  }

  lemma CloseKeeps(s: State, w: WorkerId, k: Job)
    requires JobInv(s, k)
    ensures JobInv(CloseWorker(s, w), k)
  {
    var s' := CloseWorker(s, w);
    if w in s.workers {
      assert Holders(s', k) == Holders(s, k);
      assert k in s.workers[w].started ==> w in Holders(s, k);
      if Held(s, k) {
        var v :| v in s.workers && s.workers[v].valid && k in s.workers[v].started;
        if v != w { assert s'.workers[v].valid && k in s'.workers[v].started; }
      }
    }
  }

  lemma StepKeeps(s: State, e: Event, k: Job)
    requires JobInv(s, k) && Enabled(s, e)
    ensures JobInv(Apply(s, e), k)
  {
    var s' := Apply(s, e);
    match e
    case Process(j, pick) => ProcessKeeps(s, j, pick, k);
    case Response(w, j) => ResponseKeeps(s, w, j, k);
    case Close(w) => CloseKeeps(s, w, k);
    case _ =>
      assert Holders(s', k) == Holders(s, k);
      if Held(s, k) {
        var v :| v in s.workers && s.workers[v].valid && k in s.workers[v].started;
        assert s'.workers[v].valid && k in s'.workers[v].started;
      }
  }

  lemma {:induction false} RunKeeps(s: State, es: seq<Event>, k: Job)
    requires JobInv(s, k) && IsRun(s, es)
    ensures JobInv(Run(s, es), k)
    decreases |es|
  {
    hide JobInv;
    if es != [] {
      StepKeeps(s, es[0], k);
      RunKeeps(Apply(s, es[0]), es[1..], k);
    }
  }

  /** In every run, worker closes and timer errors included, a scheduled job is finished, posted, or
      held by a worker that is still valid.  It is finished at most once more than it was handed back,
      and a job that never was is in exactly one place. */
  lemma NoJobIsLost(es: seq<Event>, j: Job)
    requires IsRun(Start, es) && j in Run(Start, es).known
    ensures var s := Run(Start, es);
            && Safe(s, j)
            && s.finished[j] <= 1 + s.repushed[j]
            && (s.repushed[j] == 0 ==> Places(s, j) == 1)
  {
    RunKeeps(Start, es, j);
    var s := Run(Start, es);
    if Held(s, j) {
      var w :| w in s.workers && s.workers[w].valid && j in s.workers[w].started;
      assert w in Holders(s, j);
    }
  }

  // ---- exactly once

  /** Nothing is handed back: no worker closes and no timer fails. */
  predicate Calm(es: seq<Event>) { forall e | e in es :: !e.Close? && !e.TimerError? }

  ghost predicate CalmRun(s: State, es: seq<Event>) { IsRun(s, es) && Calm(es) }

  /** The copies of a job that may still be finished. */
  function Copies(s: State, j: Job): nat { s.queue[j] + |Holders(s, j)| }

  /** Without hand-backs the places of a job never become more. */
  lemma CalmStep(s: State, e: Event, j: Job)
    requires Enabled(s, e) && !e.Close? && !e.TimerError? && j in s.known
    ensures var s' := Apply(s, e); Places(s', j) <= Places(s, j) && j in s'.known && s.finished[j] <= s'.finished[j]
  {
    var s' := Apply(s, e);
    match e
    case Register(_, _) => assert Holders(s', j) == Holders(s, j);
    case Schedule(_) => assert Holders(s', j) == Holders(s, j);
    case Process(k, pick) => CalmProcess(s, k, pick, j);
    case Response(w, k) => CalmResponse(s, w, k, j);
  }

  lemma CalmProcess(s: State, k: Job, pick: Option<WorkerId>, j: Job)
    requires k in s.queue
    ensures var s' := ProcessJob(s, k, pick); Places(s', j) <= Places(s, j) && s'.finished == s.finished && s'.known == s.known
  {
    hide Target;
    var t := Target(s, k, pick);
    TargetValid(s, k, pick);
    if t.Some? { assert Holders(ProcessJob(s, k, pick), j) == if k == j then Holders(s, j) + {t.value} else Holders(s, j); }
  }

  lemma CalmResponse(s: State, w: WorkerId, k: Job, j: Job)
    ensures var s' := OnResponse(s, w, k); Places(s', j) == Places(s, j) && s.finished[j] <= s'.finished[j] && s'.known == s.known
  {
    var s' := OnResponse(s, w, k);
    if s' != s {
      assert Holders(s', j) == if k == j then Holders(s, j) - {w} else Holders(s, j);
      assert k == j ==> w in Holders(s, j);
    }
  }

  lemma {:induction false} CalmRunShrinks(s: State, es: seq<Event>, j: Job)
    requires CalmRun(s, es) && j in s.known
    ensures var s' := Run(s, es); Places(s', j) <= Places(s, j) && s.finished[j] <= s'.finished[j]
    decreases |es|
  {
    hide Apply, Enabled, Places;
    if es != [] {
      assert es[0] in es;
      CalmStep(s, es[0], j);
      CalmRunShrinks(Apply(s, es[0]), es[1..], j);
    }
  }

  lemma FreshWorker(s: State) returns (w: WorkerId)
    ensures w !in s.workers
  {
    hide UpTo;
    var names := UpTo(|s.workers.Keys| + 1);
    if names <= s.workers.Keys { SubsetSize(names, s.workers.Keys); }
    w :| w in names && w !in s.workers;
  }

  lemma SubsetSize(a: set<nat>, b: set<nat>)
    requires a <= b
    ensures |a| <= |b|
  {
    assert a + (b - a) == b;
  }

  /** A held job can be answered by its holder, closed or not. */
  lemma HolderAnswers(s: State, w: WorkerId, j: Job)
    requires w in Holders(s, j)
    ensures var s' := Apply(s, Response(w, j));
            Enabled(s, Response(w, j)) && s'.finished[j] == s.finished[j] + 1 && Copies(s', j) == Copies(s, j) - 1 && s'.known == s.known
  {
    var s' := Apply(s, Response(w, j));
    assert Holders(s', j) == Holders(s, j) - {w};
  }

  /** A posted job that nobody holds can be started on some worker. */
  lemma PostedStarts(s: State, w: WorkerId, j: Job) returns (t: WorkerId)
    requires w !in s.workers && j in s.queue && Holders(s, j) == {}
    ensures var s1 := Apply(s, Register(w, {}));
            var s2 := Apply(s1, Process(j, Some(w)));
            && Enabled(s, Register(w, {})) && Enabled(s1, Process(j, Some(w)))
            && Holders(s2, j) == {t} && s2.queue[j] == s.queue[j] - 1 && s2.finished == s.finished && s2.known == s.known
  {
    var s1 := Apply(s, Register(w, {}));
    assert Bind(s.bound, {}, w) == s.bound;
    assert IsValid(s1, w);
    t := Target(s1, j, Some(w)).value;
    assert Holders(s1, j) == {};
    assert Holders(Apply(s1, Process(j, Some(w))), j) == {t};
  }

  /** Any number of the copies of a job can be finished. */
  lemma {:induction false} CanFinish(s: State, j: Job, n: nat) returns (es: seq<Event>)
    requires n <= Copies(s, j)
    ensures CalmRun(s, es) && Run(s, es).finished[j] == s.finished[j] + n
    decreases n
  {
    hide Apply, Enabled;
    if n == 0 { return []; }
    if w :| w in Holders(s, j) {
      HolderAnswers(s, w, j);
      var rest := CanFinish(Apply(s, Response(w, j)), j, n - 1);
      es := [Response(w, j)] + rest;
      Prepend(s, Response(w, j), rest);
    } else {
      assert Holders(s, j) == {};
      var w := FreshWorker(s);
      var t := PostedStarts(s, w, j);
      var s1 := Apply(s, Register(w, {}));
      var s2 := Apply(s1, Process(j, Some(w)));
      HolderAnswers(s2, t, j);
      var rest := CanFinish(Apply(s2, Response(t, j)), j, n - 1);
      Prepend(s2, Response(t, j), rest);
      Prepend(s1, Process(j, Some(w)), [Response(t, j)] + rest);
      Prepend(s, Register(w, {}), [Process(j, Some(w))] + ([Response(t, j)] + rest));
      es := [Register(w, {})] + ([Process(j, Some(w))] + ([Response(t, j)] + rest));
    }
  }

  lemma Prepend(s: State, e: Event, es: seq<Event>)
    requires Enabled(s, e) && IsRun(Apply(s, e), es)
    ensures IsRun(s, [e] + es) && Run(s, [e] + es) == Run(Apply(s, e), es)
  {
    hide Apply, Enabled;
    assert ([e] + es)[1..] == es;
  }

  /** How often a job can still be finished, exactly: some run without further hand-backs finishes it n more
      times if and only if n is at most the number of its copies, posted or held, by closed workers too. */
  lemma FinishesExactly(s: State, j: Job, n: nat)
    requires j in s.known
    ensures (exists es :: CalmRun(s, es) && Run(s, es).finished[j] == s.finished[j] + n) <==> n <= Copies(s, j)
  {
    hide CalmRun;
    if es :| CalmRun(s, es) && Run(s, es).finished[j] == s.finished[j] + n {
      CalmRunShrinks(s, es, j);
    }
    if n <= Copies(s, j) {
      var es := CanFinish(s, j, n);
      assert CalmRun(s, es) && Run(s, es).finished[j] == s.finished[j] + n;
    }
  }

  /** So a job can end up finished twice exactly when it has two places or more. */
  lemma FinishedTwiceIff(s: State, j: Job)
    requires j in s.known
    ensures (exists es :: CalmRun(s, es) && Run(s, es).finished[j] >= 2) <==> Places(s, j) >= 2
  {
    hide CalmRun;
    if es :| CalmRun(s, es) && Run(s, es).finished[j] >= 2 { CalmRunShrinks(s, es, j); }
    if Places(s, j) >= 2 {
      var es := CanFinish(s, j, Copies(s, j));
      assert CalmRun(s, es) && Run(s, es).finished[j] >= 2;
    }
  }

  /** A close gives each job its worker holds one more place; a failing timer gives its job one. */
  lemma HandBackAddsPlace(s: State, w: WorkerId, j: Job)
    requires w in s.workers && j in s.known
    ensures Places(Apply(s, Close(w)), j) == Places(s, j) + if j in s.workers[w].started then 1 else 0
    ensures Places(Apply(s, TimerError(j)), j) == Places(s, j) + 1
  {
    assert Holders(Apply(s, Close(w)), j) == Holders(s, j);
    assert Holders(Apply(s, TimerError(j)), j) == Holders(s, j);
  }

  /** Whenever a worker closes while it holds a job and the job's response arrives late, the job is finished
      and yet posted again, and it is finished a second time as soon as any other valid worker answers it. */
  lemma LateResponseFinishesTwice(s: State, w: WorkerId, v: WorkerId, j: Job)
    requires w != v && IsValid(s, w) && IsValid(s, v) && j in s.workers[w].started
    ensures var es := [Close(w), Response(w, j), Process(j, Some(v)), Response(v, j)];
            IsRun(s, es) && Run(s, es).finished[j] == s.finished[j] + 2
  {
    var es := [Close(w), Response(w, j), Process(j, Some(v)), Response(v, j)];
    hide Apply, Enabled;
    CloseAndLateResponse(s, w, v, j);
    var s1 := Apply(s, es[0]);
    var s2 := Apply(s1, es[1]);
    AnswerElsewhere(s2, v, j);
    var s3 := Apply(s2, es[2]);
    Advance(s, es, 0);
    Advance(s1, es, 1);
    Advance(s2, es, 2);
    Advance(s3, es, 3);
    assert es[0..] == es && es[4..] == [];
  }

  lemma CloseAndLateResponse(s: State, w: WorkerId, v: WorkerId, j: Job)
    requires w != v && IsValid(s, w) && IsValid(s, v) && j in s.workers[w].started
    ensures var s2 := Apply(Apply(s, Close(w)), Response(w, j));
            && Enabled(s, Close(w)) && Enabled(Apply(s, Close(w)), Response(w, j))
            && j in s2.queue && j.file !in s2.bound && IsValid(s2, v) && s2.finished[j] == s.finished[j] + 1
  {
    assert j.file in FilesOf(s.workers[w].started);
  }

  lemma AnswerElsewhere(s: State, v: WorkerId, j: Job)
    requires j in s.queue && j.file !in s.bound && IsValid(s, v)
    ensures var s1 := Apply(s, Process(j, Some(v)));
            && Enabled(s, Process(j, Some(v))) && Enabled(s1, Response(v, j))
            && Apply(s1, Response(v, j)).finished[j] == s.finished[j] + 1
  {
  }

  lemma Advance(s: State, es: seq<Event>, k: nat)
    requires k < |es|
    ensures Run(s, es[k..]) == Run(Apply(s, es[k]), es[k + 1..])
    ensures IsRun(s, es[k..]) <==> Enabled(s, es[k]) && IsRun(Apply(s, es[k]), es[k + 1..])
  {
    assert es[k..][1..] == es[k + 1..] && es[k..][0] == es[k];
  }

  /** Once a job of a file has been started on a worker, every later job of that file goes to the same
      worker, whatever the policy offers, exactly when the file was not bound to an invalid worker: such a
      binding is never replaced. */
  lemma FilesStayWithTheirWorkerIff(s: State, j: Job, pick: Option<WorkerId>, id: nat)
    requires Target(s, j, pick).Some?
    ensures var s', w := ProcessJob(s, j, pick), Target(s, j, pick);
            (forall pick' :: Target(s', Job(j.file, id), pick') == w)
            <==> !(j.file in s.bound && !IsValid(s, s.bound[j.file]))
  {
    var s' := ProcessJob(s, j, pick);
    if j.file in s.bound && !IsValid(s, s.bound[j.file]) {
      assert Target(s', Job(j.file, id), None) == None;
    }
  }

  /** Handing back a worker's jobs unbinds exactly their files: any other binding stays, to the worker it was to. */
  lemma CloseUnbindsIff(s: State, w: WorkerId, f: nat)
    requires w in s.workers && f in s.bound
    ensures var bound' := Apply(s, Close(w)).bound;
            && (f in bound' <==> forall j | j in s.workers[w].started :: j.file != f)
            && (f in bound' ==> bound'[f] == s.bound[f])
  {
  }

  /** What else a close does: the worker is invalid and keeps its jobs, which are all posted again; other workers and
      the finished jobs are left alone, and nothing is bound anew. */
  lemma CloseIs(s: State, w: WorkerId)
    requires w in s.workers
    ensures var s', js := Apply(s, Close(w)), s.workers[w].started;
            && s'.workers.Keys == s.workers.Keys && s'.workers[w] == Worker(false, js)
            && (forall v | v in s.workers && v != w :: s'.workers[v] == s.workers[v])
            && (forall j :: s'.queue[j] == s.queue[j] + if j in js then 1 else 0)
            && s'.finished == s.finished && s'.bound.Keys <= s.bound.Keys
  {
  }

  /** A registered worker is valid and idle, and gets exactly those of the given files that had no binding. */
  lemma RegisterBinds(s: State, w: WorkerId, files: set<nat>)
    requires w !in s.workers
    ensures var s' := Apply(s, Register(w, files));
            && (forall f :: f in s'.bound <==> f in s.bound || f in files)
            && (forall f | f in s'.bound :: s'.bound[f] == if f in s.bound then s.bound[f] else w)
            && w in s'.workers && s'.workers[w] == Worker(true, {})
            && (forall v | v in s.workers :: v in s'.workers && s'.workers[v] == s.workers[v])
            && s'.queue == s.queue && s'.finished == s.finished
  {
  }

  /** The job is started on this worker, taken from the posted ones, and its file is bound there unless it is bound
      already. */
  ghost predicate StartedOn(s: State, s': State, j: Job, w: WorkerId) {
    && s'.workers.Keys == s.workers.Keys && w in s.workers
    && s'.workers[w].valid == s.workers[w].valid && s'.workers[w].started == s.workers[w].started + {j}
    && (forall v | v in s.workers && v != w :: s'.workers[v] == s.workers[v])
    && (forall k :: s.queue[k] == s'.queue[k] + if k == j then 1 else 0)
    && (forall f :: f in s'.bound <==> f in s.bound || f == j.file)
    && (forall f | f in s'.bound :: s'.bound[f] == if f in s.bound then s.bound[f] else w)
    && s'.finished == s.finished
  }

  /** Where a posted job goes: to the valid worker its file is bound to, whatever the policy offers; without one, to
      the valid worker that the policy offers; and without that it stays posted and nothing changes. */
  lemma ProcessStarts(s: State, j: Job, pick: Option<WorkerId>)
    requires j in s.queue
    ensures var s' := Apply(s, Process(j, pick));
            if j.file in s.bound && s.bound[j.file] in s.workers && s.workers[s.bound[j.file]].valid then StartedOn(s, s', j, s.bound[j.file])
            else if pick.Some? && pick.value in s.workers && s.workers[pick.value].valid then StartedOn(s, s', j, pick.value)
            else s' == s
  {
    hide StartedOn;
    if Target(s, j, pick).Some? { StartsOnTarget(s, j, pick); }
  }

  lemma StartsOnTarget(s: State, j: Job, pick: Option<WorkerId>)
    requires j in s.queue && Target(s, j, pick).Some?
    ensures StartedOn(s, ProcessJob(s, j, pick), j, Target(s, j, pick).value)
  {
    TargetValid(s, j, pick);
    hide Target;
    var s', w := ProcessJob(s, j, pick), Target(s, j, pick).value;
    assert s'.workers == s.workers[w := Worker(s.workers[w].valid, s.workers[w].started + {j})];
    assert s'.bound == if j.file in s.bound then s.bound else s.bound[j.file := w];
    assert s'.queue == s.queue - multiset{j};
  }

  /** A response of a worker that holds the job, closed or not, finishes it there and nowhere else; any other response
      changes nothing.  A scheduled job is posted, and so is a job whose timer fails. */
  lemma ResponseIs(s: State, w: WorkerId, j: Job)
    ensures var s' := Apply(s, Response(w, j));
            if w in s.workers && j in s.workers[w].started then
              && s'.finished == s.finished + multiset{j}
              && s'.workers == s.workers[w := Worker(s.workers[w].valid, s.workers[w].started - {j})]
              && s'.queue == s.queue && s'.bound == s.bound
            else s' == s
    ensures forall e | e == Schedule(j) || e == TimerError(j) ::
              var s' := Apply(s, e); s'.queue == s.queue + multiset{j} && s'.workers == s.workers && s'.bound == s.bound && s'.finished == s.finished
  {
  }

  /** Exactly what takes a file from its valid worker: a close of that worker, or of one that holds a job of the
      file. */
  predicate Disturbs(s: State, e: Event, f: nat)
    requires f in s.bound
  {
    e.Close? && e.w in s.workers && (e.w == s.bound[f] || exists j | j in s.workers[e.w].started :: j.file == f)
  }

  lemma BindingKeptIff(s: State, e: Event, f: nat)
    requires Enabled(s, e) && f in s.bound && IsValid(s, s.bound[f])
    ensures var s' := Apply(s, e);
            f in s'.bound && s'.bound[f] == s.bound[f] && IsValid(s', s.bound[f]) <==> !Disturbs(s, e, f)
  {
    if e.Close? && e.w in s.workers { CloseUnbindsIff(s, e.w, f); }
  }

  /** No event of the run disturbs the binding of f to v. */
  predicate Undisturbed(s: State, es: seq<Event>, f: nat)
    decreases |es|
  {
    es != [] ==> f in s.bound && !Disturbs(s, es[0], f) && Undisturbed(Apply(s, es[0]), es[1..], f)
  }

  /** Until its worker closes, or another one that holds a job of the file, a file bound to a valid worker stays with it:
      through every run of registrations, hand-overs, schedules, responses, timer errors and closes of other workers,
      every job of the file is started there. */
  lemma {:induction false} FilesStayUntilClose(s: State, es: seq<Event>, j: Job, pick: Option<WorkerId>)
    requires IsRun(s, es) && Undisturbed(s, es, j.file) && j.file in s.bound && IsValid(s, s.bound[j.file])
    ensures Target(Run(s, es), j, pick) == Some(s.bound[j.file])
    decreases |es|
  {
    if es != [] {
      BindingKeptIff(s, es[0], j.file);
      hide Apply, Enabled, Disturbs;
      FilesStayUntilClose(Apply(s, es[0]), es[1..], j, pick);
    }
  }

  // ---- the handlers

  lemma FilesOfMore(js: set<Job>, j: Job)
    ensures FilesOf(js + {j}) == FilesOf(js) + {j.file}
  {
  }

  lemma BindNone(bound: map<nat, WorkerId>, w: WorkerId)
    ensures Bind(bound, Elems([]), w) == bound
  {
  }

  lemma BindMore(bound: map<nat, WorkerId>, files: set<nat>, f: nat, w: WorkerId)
    ensures var b := Bind(bound, files, w); Bind(bound, files + {f}, w) == if f in b then b else b[f := w]
  {
  }

  /** The launcher's maps, updated by one handler at a time. */
  class Launcher {
    var queue: multiset<Job>
    var workers: map<WorkerId, Worker>
    var bound: map<nat, WorkerId>
    var finished: multiset<Job>
    ghost var known: set<Job>
    ghost var repushed: multiset<Job>

    ghost function View(): State
      reads this
    {
      State(queue, workers, bound, finished, known, repushed)
    }

    constructor ()
      ensures View() == Start
    {
      queue, workers, bound, finished := multiset{}, map[], map[], multiset{};
      known, repushed := {}, multiset{};
    }

    method OnSchedule(j: Job)
      modifies this
      ensures View() == Apply(old(View()), Schedule(j))
    {
      queue, known := queue + multiset{j}, known + {j};
    }

    /** add_worker: the bindings of a pending transfer are inserted one by one. */
    method OnRegister(w: WorkerId, files: seq<nat>)
      requires w !in workers
      modifies this
      ensures View() == Apply(old(View()), Register(w, Elems(files)))
    {
      hide Bind, Elems;
      workers := workers[w := Worker(true, {})];
      BindNone(bound, w);
      assert files[..0] == [];
      for i := 0 to |files|
        invariant bound == Bind(old(bound), Elems(files[..i]), w)
        invariant workers == old(workers)[w := Worker(true, {})]
        invariant queue == old(queue) && finished == old(finished) && known == old(known) && repushed == old(repushed)
      {
        assert files[..i + 1] == files[..i] + [files[i]];
        BindMore(old(bound), Elems(files[..i]), files[i], w);
        assert Elems(files[..i + 1]) == Elems(files[..i]) + {files[i]};
        if files[i] !in bound { bound := bound[files[i] := w]; }
      }
      assert files[..|files|] == files;
    }

    /** get_assigned_worker, then get_available_worker. */
    method Choose(j: Job, pick: Option<WorkerId>) returns (w: Option<WorkerId>)
      ensures w == Target(View(), j, pick)
    {
      if j.file in bound && bound[j.file] in workers && workers[bound[j.file]].valid {
        return Some(bound[j.file]);
      }
      if pick.Some? && pick.value in workers && workers[pick.value].valid { return pick; }
      return None;
    }

    /** Takes a posted job; without a valid worker it is posted again. */
    method OnProcess(j: Job, pick: Option<WorkerId>)
      requires j in queue
      modifies this
      ensures View() == ProcessJob(old(View()), j, pick)
    {
      var target := Choose(j, pick);
      hide Target;
      if target.None? { return; }
      assert target.value in workers by { TargetValid(View(), j, pick); }
      var w := target.value;
      queue := queue - multiset{j};
      if j.file !in bound { bound := bound[j.file := w]; }
      workers := workers[w := Worker(workers[w].valid, workers[w].started + {j})];
    }

    method OnWorkerResponse(w: WorkerId, j: Job)
      modifies this
      ensures View() == OnResponse(old(View()), w, j)
    {
      if w !in workers || j !in workers[w].started { return; }
      workers := workers[w := Worker(workers[w].valid, workers[w].started - {j})];
      finished := finished + multiset{j};
    }

    /** on_worker_reschedule */
    method Reschedule(j: Job)
      modifies this`bound, this`queue, this`repushed
      ensures bound == old(bound) - {j.file} && queue == old(queue) + multiset{j} && repushed == old(repushed) + multiset{j}
    {
      bound := bound - {j.file};
      queue := queue + multiset{j};
      repushed := repushed + multiset{j};
    }

    /** worker::close: the jobs it holds are unbound and posted again, one by one. */
    method OnWorkerClose(w: WorkerId)
      requires w in workers
      modifies this`workers, this`bound, this`queue, this`repushed
      ensures View() == CloseWorker(old(View()), w)
    {
      hide FilesOf, CloseWorker;
      var js := workers[w].started;
      CloseWorkerIs(View(), w);
      workers := workers[w := Worker(false, js)];
      FilesOfNone();
      var did := {};
      while js - did != {}
        invariant did <= js
        invariant workers == old(workers)[w := Worker(false, js)]
        invariant queue == old(queue) + multiset(did) && repushed == old(repushed) + multiset(did)
        invariant bound == old(bound) - FilesOf(did)
        decreases js - did
      {
        var j :| j in js - did;
        UnboundMore(old(bound), did, j);
        PostedMore(old(queue), did, j);
        PostedMore(old(repushed), did, j);
        Reschedule(j);
        did := did + {j};
      }
      assert did == js;
    }
  }

  lemma TargetValid(s: State, j: Job, pick: Option<WorkerId>)
    ensures Target(s, j, pick).Some? ==> IsValid(s, Target(s, j, pick).value)
  {
  }

  lemma CloseWorkerIs(s: State, w: WorkerId)
    requires w in s.workers
    ensures var js := s.workers[w].started;
            CloseWorker(s, w) == State(s.queue + multiset(js), s.workers[w := Worker(false, js)], s.bound - FilesOf(js),
                                       s.finished, s.known, s.repushed + multiset(js))
  {
  }

  lemma FilesOfNone()
    ensures FilesOf({}) == {}
  {
  }

  lemma PostedMore(q: multiset<Job>, js: set<Job>, j: Job)
    requires j !in js
    ensures q + multiset(js + {j}) == q + multiset(js) + multiset{j}
  {
  }

  lemma UnboundMore(bound: map<nat, WorkerId>, js: set<Job>, j: Job)
    ensures bound - FilesOf(js + {j}) == bound - FilesOf(js) - {j.file}
  {
    FilesOfMore(js, j);
  }
}
