/** From a build plan to the order in which one worker leases its jobs (iroh-nix/src/main.rs:1133-1195
    and 1248-1258, iroh-nix/src/gossip.rs:168-177, iroh-nix/src/build.rs:258-265).
 */
module PlanToLease {
  import opened Common
  import opened Queue
  import opened Conservation
  import opened QueueShape
  import Planner

  // --- Features ----------------------------------------------------------------------------------------

  function WithoutBuiltin(features: seq<string>): seq<string> {
    if features == [] then []
    else (if features[0] != "builtin" then [features[0]] else []) + WithoutBuiltin(features[1..])
  }

  /** main.rs:1135-1149: the features a job asks for; user-given features override. */
  function BuildFeatures(d: Planner.DrvInfo, user: seq<string>): seq<string> {
    if user != [] then user else [d.system] + WithoutBuiltin(d.requiredFeatures)
  }

  /** The system and the required features except "builtin", unless the user names features. */
  lemma BuildFeaturesAre(d: Planner.DrvInfo, user: seq<string>, f: string)
    ensures f in BuildFeatures(d, user) <==>
            if user != [] then f in user else f == d.system || (f in d.requiredFeatures && f != "builtin")
  {
    WithoutBuiltinMembers(d.requiredFeatures, f);
  }

  /** main.rs:1248-1257: the features announced for the whole plan. */
  ghost predicate Announced(plan: seq<Planner.DrvInfo>, f: string) {
    f != "builtin" && exists d :: d in plan && (f == d.system || f in d.requiredFeatures)
  }

  /** gossip.rs:168-177: a worker serves the requester if it has every announced feature. */
  ghost predicate Selected(plan: seq<Planner.DrvInfo>, worker: seq<string>) {
    forall f :: Announced(plan, f) ==> f in worker
  }

  lemma {:induction false} WithoutBuiltinMembers(features: seq<string>, f: string)
    ensures f in WithoutBuiltin(features) <==> f in features && f != "builtin"
  {
    if features != [] { WithoutBuiltinMembers(features[1..], f); }
  }

  /** Every selected worker covers every job of the plan. */
  ghost predicate SelectedCovers(plan: seq<Planner.DrvInfo>, user: seq<string>) {
    forall worker :: Selected(plan, worker) ==>
      forall i :: 0 <= i < |plan| ==> Covers(BuildFeatures(plan[i], user), worker)
  }

  ghost predicate AsksOnlyAnnounced(plan: seq<Planner.DrvInfo>, user: seq<string>) {
    forall i, f :: 0 <= i < |plan| && f in BuildFeatures(plan[i], user) ==> Announced(plan, f)
  }

  /** All features mentioned in the plan except "builtin", as one builder's feature list. */
  ghost function AnnouncedList(plan: seq<Planner.DrvInfo>): seq<string> {
    if plan == [] then []
    else WithoutBuiltin([plan[0].system] + plan[0].requiredFeatures) + AnnouncedList(plan[1..])
  }

  lemma {:induction false} AnnouncedListMembers(plan: seq<Planner.DrvInfo>, f: string)
    ensures f in AnnouncedList(plan) <==> Announced(plan, f)
  {
    if plan != [] {
      AnnouncedListMembers(plan[1..], f);
      WithoutBuiltinMembers([plan[0].system] + plan[0].requiredFeatures, f);
      assert plan == [plan[0]] + plan[1..];
    }
  }

  /** Selection guarantees coverage exactly when the jobs ask for nothing that is not announced. */
  lemma CoverageExact(plan: seq<Planner.DrvInfo>, user: seq<string>)
    ensures SelectedCovers(plan, user) <==> AsksOnlyAnnounced(plan, user)
  {
    if SelectedCovers(plan, user) {
      var worker := AnnouncedList(plan);
      forall f ensures f in worker <==> Announced(plan, f) { AnnouncedListMembers(plan, f); }
      assert Selected(plan, worker);
    }
  }

  /** Without an override: exactly when no derivation's system is "builtin", because the announcement
      drops that name and the job keeps it. */
  lemma CoverageWithoutOverride(plan: seq<Planner.DrvInfo>)
    ensures AsksOnlyAnnounced(plan, []) <==> forall d :: d in plan ==> d.system != "builtin"
  {
    forall i, f | 0 <= i < |plan| ensures f in BuildFeatures(plan[i], []) <==>
                                            f == plan[i].system || (f in plan[i].requiredFeatures && f != "builtin") {
      WithoutBuiltinMembers(plan[i].requiredFeatures, f);
    }
    if AsksOnlyAnnounced(plan, []) {
      forall d | d in plan ensures d.system != "builtin" {
        var i :| 0 <= i < |plan| && plan[i] == d;
        assert d.system in BuildFeatures(plan[i], []);
        assert Announced(plan, d.system);
      }
    }
  }

  /** With an override: exactly when the user names announced features only. */
  lemma CoverageWithOverride(plan: seq<Planner.DrvInfo>, user: seq<string>)
    requires user != [] && plan != []
    ensures AsksOnlyAnnounced(plan, user) <==> forall f :: f in user ==> Announced(plan, f)
  {
    if AsksOnlyAnnounced(plan, user) {
      forall f | f in user ensures Announced(plan, f) { assert f in BuildFeatures(plan[0], user); }
    }
  }

  // --- Pushing the plan and working through it ---------------------------------------------------------

  function JobsOf(specs: seq<JobSpec>): seq<Job> {
    seq(|specs|, i requires 0 <= i < |specs| => Job(i + 1, specs[i]))
  }

  /** main.rs:1133-1195: one push per planned derivation, in plan order. */
  ghost function PushLog(specs: seq<JobSpec>): seq<Step> {
    if specs == [] then [] else PushLog(Front(specs)) + [TakeId] + [Enqueue(Job(|specs|, Last(specs)))]
  }

  lemma {:induction false} PushesFillQueue(specs: seq<JobSpec>)
    ensures ValidRun(PushLog(specs)) && Retirements(PushLog(specs)) == []
    ensures Exec(PushLog(specs)) == INIT.(nextId := |specs| + 1, pending := JobsOf(specs))
  {
    hide Exec, ValidRun, Retirements;
    if specs == [] {
      var log := Start();
    } else {
      var front := PushLog(Front(specs));
      PushesFillQueue(Front(specs));
      var job := Job(|specs|, Last(specs));
      var log := Then(front, TakeId);
      assert Exec(log).inFlight == {job.id};
      log := Then(log, Enqueue(job));
      assert Exec(log).inFlight == {};
      assert JobsOf(Front(specs)) + [job] == JobsOf(specs);
    }
  }

  // --- Runs that work through a plan ---------------------------------------------------------------------

  /** The builder can take every job. */
  ghost predicate CoversAll(specs: seq<JobSpec>, worker: seq<string>) {
    forall i :: 0 <= i < |specs| ==> Covers(specs[i].features, worker)
  }

  /** Any valid run that first pushes the jobs and then nothing more, in which only builders with these
      feature lists pull.  Heartbeats, reports, sweeps and fetches come whenever they like. */
  ghost predicate PlanRun(log: seq<Step>, specs: seq<JobSpec>, workers: iset<seq<string>>) {
    && ValidRun(log) && PushLog(specs) <= log
    && forall k: nat :: |PushLog(specs)| <= k < |log| ==> WorkStep(log[k], workers)
  }

  ghost predicate WorkStep(e: Step, workers: iset<seq<string>>) {
    !e.TakeId? && !e.Enqueue? && (e.Pull? ==> e.features in workers)
  }

  /** One worker at a time: pulls happen only while nothing is leased (the worker loop of builder.rs:424-504
      reports before it pulls again).  Its lease may time out at any point. */
  ghost predicate OneAtATime(log: seq<Step>, n: nat) {
    forall k: nat :: n <= k < |log| ==> Orderly(Exec(log[..k]), log[k])
  }

  ghost predicate Orderly(s: State, e: Step) { e.Pull? ==> s.leased == map[] }

  lemma WorkFront(log: seq<Step>, specs: seq<JobSpec>, workers: iset<seq<string>>)
    requires PlanRun(log, specs, workers) && |log| > |PushLog(specs)|
    ensures PlanRun(Front(log), specs, workers) && WorkStep(Last(log), workers)
    ensures OneAtATime(log, |PushLog(specs)|) ==>
              OneAtATime(Front(log), |PushLog(specs)|) && Orderly(Exec(Front(log)), Last(log))
  {
    hide Exec, Orderly, WorkStep;
    var front, n := Front(log), |PushLog(specs)|;
    forall k: nat | n <= k < |front| ensures WorkStep(front[k], workers) { assert front[k] == log[k]; }
    if OneAtATime(log, n) {
      forall k: nat | n <= k < |front| ensures Orderly(Exec(front[..k]), front[k]) {
        assert front[..k] == log[..k] && front[k] == log[k];
      }
      assert log[..|log| - 1] == front;
    }
  }

  /** One more step of the same kind. */
  lemma WorkMore(log: seq<Step>, specs: seq<JobSpec>, workers: iset<seq<string>>, e: Step) returns (log': seq<Step>)
    requires PlanRun(log, specs, workers) && Enabled(Exec(log), e) && WorkStep(e, workers)
    ensures log' == log + [e] && PlanRun(log', specs, workers) && Exec(log') == Apply(Exec(log), e)
    ensures Retirements(log') == Retirements(log) + RetiredBy(Exec(log), e)
    ensures OneAtATime(log, |PushLog(specs)|) && Orderly(Exec(log), e) ==> OneAtATime(log', |PushLog(specs)|)
  {
    hide Exec, ValidRun, Enabled, Apply, Orderly, WorkStep, RetiredBy, Retirements;
    log' := Then(log, e);
    var n := |PushLog(specs)|;
    forall k: nat | n <= k < |log'| ensures WorkStep(log'[k], workers) { assert k < |log| ==> log'[k] == log[k]; }
    if OneAtATime(log, n) && Orderly(Exec(log), e) {
      forall k: nat | n <= k < |log'| ensures Orderly(Exec(log'[..k]), log'[k]) {
        assert log'[..k] == log[..k];
        assert log[..|log|] == log;
      }
    }
  }

  // --- One worker: plan order, dependencies retired -------------------------------------------------------

  /** The first n jobs have retired, in order. */
  ghost predicate Done(rs: seq<Retirement>, jobs: seq<Job>, n: nat) {
    |rs| == n <= |jobs| && forall i :: 0 <= i < n ==> rs[i].job == jobs[i]
  }

  /** Jobs from k on are waiting; those before have retired, except that job k-1 may still be leased. */
  ghost predicate Progress(s: State, rs: seq<Retirement>, jobs: seq<Job>, k: nat) {
    && k <= |jobs| && s.pending == jobs[k..]
    && if s.leased == map[] then Done(rs, jobs, k)
       else && k > 0 && Done(rs, jobs, k - 1)
            && s.leased.Keys == {jobs[k - 1].id} && s.leased[jobs[k - 1].id].job == jobs[k - 1]
  }

  lemma RetireProgresses(s: State, rs: seq<Retirement>, jobs: seq<Job>, k: nat, id: JobId, o: Outcome, b: Endpoint)
    requires Progress(s, rs, jobs, k) && id in s.leased
    ensures Progress(RetireState(s, id, o), rs + [Retirement(s.leased[id].job, b, o)], jobs, k)
  {
    assert s.leased - {id} == map[];
  }

  lemma PullProgresses(s: State, rs: seq<Retirement>, jobs: seq<Job>, k: nat, b: Endpoint, worker: seq<string>, stamp: Time)
      returns (k': nat)
    requires Progress(s, rs, jobs, k) && s.leased == map[] && (k < |jobs| ==> Covers(jobs[k].spec.features, worker))
    ensures Progress(PullState(s, b, worker, stamp), rs, jobs, k')
    ensures k < |jobs| ==> k' == k + 1 && LeasesNow(s, Pull(b, worker, stamp)) == {jobs[k].id}
  {
    k' := k;
    if k < |jobs| {
      assert s.pending[0] == jobs[k];
      assert FirstMatch(s.pending, worker) == 0;
      assert Without(jobs[k..], 0) == jobs[k + 1..];
      assert jobs[k].id in PullState(s, b, worker, stamp).leased;
      k' := k + 1;
    }
  }

  /** Every kind of step keeps the progress. */
  lemma StepProgresses(s: State, e: Step, rs: seq<Retirement>, specs: seq<JobSpec>, k: nat, workers: iset<seq<string>>)
      returns (k': nat)
    requires LeaseKeyed(s) && Enabled(s, e) && Progress(s, rs, JobsOf(specs), k)
    requires WorkStep(e, workers) && Orderly(s, e) && forall w :: w in workers ==> CoversAll(specs, w)
    ensures Progress(Apply(s, e), rs + RetiredBy(s, e), JobsOf(specs), k')
  {
    var jobs := JobsOf(specs);
    k' := k;
    assert rs + [] == rs;
    match e
    case Pull(b, worker, stamp) => k' := PullProgresses(s, rs, jobs, k, b, worker, stamp);
    case RecordComplete =>
      RetireProgresses(s, rs, jobs, k, s.recording.value.id, Completed(s.recording.value.result), s.leased[s.recording.value.id].builder);
    case Fail(id, b, error) => if LeasedTo(s.leased, id, b) { RetireProgresses(s, rs, jobs, k, id, Failed(b, error), b); }
    case Sweep(now, order) => k' := SweepProgresses(s, rs, jobs, k, now, order);
    case _ =>
  }

  /** A timeout puts the job being built back where it was: in front of the others. */
  lemma SweepProgresses(s: State, rs: seq<Retirement>, jobs: seq<Job>, k: nat, now: Time, order: seq<JobId>) returns (k': nat)
    requires LeaseKeyed(s) && SweepOrder(s.leased, now, order) && Progress(s, rs, jobs, k)
    ensures Progress(Apply(s, Sweep(now, order)), rs, jobs, k')
  {
    hide SweepOrder;
    if Expired(s.leased, now) == {} {
      NothingSwept(s, now, order);
      k' := k;
    } else {
      k' := k - 1;
      OneSwept(s, rs, jobs, k, now, order);
    }
  }

  lemma NothingSwept(s: State, now: Time, order: seq<JobId>)
    requires SweepOrder(s.leased, now, order) && Expired(s.leased, now) == {}
    ensures Apply(s, Sweep(now, order)) == s
  {
    assert forall i :: 0 <= i < |order| ==> order[i] in order;
    assert s.leased - {} == s.leased && [] + s.pending == s.pending;
  }

  lemma OneSwept(s: State, rs: seq<Retirement>, jobs: seq<Job>, k: nat, now: Time, order: seq<JobId>)
    requires SweepOrder(s.leased, now, order) && Expired(s.leased, now) != {} && Progress(s, rs, jobs, k)
    ensures k > 0 && Progress(Apply(s, Sweep(now, order)), rs, jobs, k - 1)
  {
    var id := jobs[k - 1].id;
    SoleExpired(s.leased, now, order, id);
    OnlyReturned(s.leased, id);
    assert s.leased - {id} == map[] && [jobs[k - 1]] + jobs[k..] == jobs[k - 1..];
  }

  lemma SoleExpired(leased: map<JobId, Lease>, now: Time, order: seq<JobId>, id: JobId)
    requires SweepOrder(leased, now, order) && Expired(leased, now) != {} && leased.Keys == {id}
    ensures Expired(leased, now) == {id} && order == [id]
  {
    var gone := Expired(leased, now);
    assert gone == {id};
    ListSize(order, gone);
    assert order[0] in order;
  }

  lemma OnlyReturned(leased: map<JobId, Lease>, id: JobId)
    requires id in leased
    ensures Returned(leased, [id]) == [leased[id].job]
  {
    assert Front([id]) == [];
  }

  /** On every such run of one worker the plan is worked off in order: some k jobs have been taken, exactly
      the first k have retired (or all of them but the one being built), and the rest are waiting. */
  lemma {:induction false} WorkerFollowsPlan(log: seq<Step>, specs: seq<JobSpec>, workers: iset<seq<string>>) returns (k: nat)
    requires PlanRun(log, specs, workers) && OneAtATime(log, |PushLog(specs)|)
    requires forall w :: w in workers ==> CoversAll(specs, w)
    ensures Progress(Exec(log), Retirements(log), JobsOf(specs), k)
    decreases |log|
  {
    hide Apply, Enabled, Progress, RetiredBy, WorkStep, Orderly, OneAtATime, CoversAll;
    if |log| == |PushLog(specs)| {
      assert log == PushLog(specs);
      k := 0;
      PushedProgress(specs);
    } else {
      WorkFront(log, specs, workers);
      k := WorkerFollowsPlan(Front(log), specs, workers);
      RunKeepsKeys(Front(log));
      k := StepProgresses(Exec(Front(log)), Last(log), Retirements(Front(log)), specs, k, workers);
    }
  }

  lemma PushedProgress(specs: seq<JobSpec>)
    ensures Progress(Exec(PushLog(specs)), Retirements(PushLog(specs)), JobsOf(specs), 0)
  {
    PushesFillQueue(specs);
  }

  /** The jobs pushed for a plan. */
  ghost predicate SpecsOf(plan: seq<Planner.DrvInfo>, user: seq<string>, specs: seq<JobSpec>) {
    && |specs| == |plan|
    && forall i :: 0 <= i < |plan| ==>
         specs[i].drvPath == plan[i].drvPath.path && specs[i].features == BuildFeatures(plan[i], user)
  }

  /** A job for this derivation has retired. */
  ghost predicate Reported(log: seq<Step>, d: Planner.Drv) {
    exists r :: r in Retirements(log) && r.job.spec.drvPath == d.path
  }

  ghost function SelectedWorkers(plan: seq<Planner.DrvInfo>): iset<seq<string>> { iset w | Selected(plan, w) }

  lemma SelectedCoverAll(plan: seq<Planner.DrvInfo>, user: seq<string>, specs: seq<JobSpec>)
    requires SpecsOf(plan, user, specs) && AsksOnlyAnnounced(plan, user)
    ensures forall w :: w in SelectedWorkers(plan) ==> CoversAll(specs, w)
  {
    hide BuildFeatures;
    CoverageExact(plan, user);
  }

  /** main.rs end to end, for every run of one selected worker: while jobs are waiting and none is being
      built, every pull of a selected worker succeeds and leases the next planned job, and every planned
      derivation that job depends on has already been reported. */
  lemma LeaseOrderRespectsDependencies(
      drvs: map<Planner.Drv, Planner.DrvInfo>, existing: set<string>, plan: seq<Planner.DrvInfo>, order: seq<Planner.Drv>,
      user: seq<string>, specs: seq<JobSpec>, log: seq<Step>, b: Endpoint, worker: seq<string>, stamp: Time) returns (k: nat)
    requires Planner.PlanFor(drvs, existing, plan, order)
    requires forall x :: x in drvs ==> drvs[x].drvPath == x
    requires SpecsOf(plan, user, specs) && AsksOnlyAnnounced(plan, user) && Selected(plan, worker)
    requires PlanRun(log, specs, SelectedWorkers(plan)) && OneAtATime(log, |PushLog(specs)|)
    requires Exec(log).leased == map[] && Exec(log).pending != []
    ensures k < |plan| && |Retirements(log)| == k
    ensures Enabled(Exec(log), Pull(b, worker, stamp)) && LeasesNow(Exec(log), Pull(b, worker, stamp)) == {k + 1}
    ensures forall d :: d in plan[k].inputDrvs && d in order ==> Reported(log, d)
  {
    hide Exec, ValidRun, Retirements, Planner.PlanFor, AsksOnlyAnnounced, OneAtATime, PushLog, Selected, BuildFeatures;
    SelectedCoverAll(plan, user, specs);
    k := WorkerFollowsPlan(log, specs, SelectedWorkers(plan));
    RunKeepsKeys(log);
    assert worker in SelectedWorkers(plan);
    var k' := PullProgresses(Exec(log), Retirements(log), JobsOf(specs), k, b, worker, stamp);
    forall d | d in plan[k].inputDrvs && d in order ensures Reported(log, d) {
      var i := DependencyIsEarlier(drvs, existing, plan, order, k, d);
      assert Retirements(log)[i].job == JobsOf(specs)[i];
      assert Retirements(log)[i] in Retirements(log);
    }
  }

  lemma DependencyIsEarlier(drvs: map<Planner.Drv, Planner.DrvInfo>, existing: set<string>,
                            plan: seq<Planner.DrvInfo>, order: seq<Planner.Drv>, k: nat, d: Planner.Drv) returns (i: nat)
    requires Planner.PlanFor(drvs, existing, plan, order) && k < |plan|
    requires forall x :: x in drvs ==> drvs[x].drvPath == x
    requires d in plan[k].inputDrvs && d in order
    ensures i < k && plan[i].drvPath == d
  {
    var toBuild := set x | x in drvs && Planner.NeedsBuild(drvs[x], existing);
    var g := Planner.DepGraph(drvs, toBuild);
    assert order[k] in order;
    assert d in Planner.Deps(g, order[k]);
    assert d in Planner.Elems(order[..k]);
    i :| 0 <= i < k && order[i] == d;
  }

  // --- The plan can always be finished -------------------------------------------------------------------

  /** The job being built, if any, can be reported. */
  lemma Settle(log: seq<Step>, specs: seq<JobSpec>, workers: iset<seq<string>>) returns (log': seq<Step>)
    requires PlanRun(log, specs, workers) && OneAtATime(log, |PushLog(specs)|)
    requires forall w :: w in workers ==> CoversAll(specs, w)
    ensures log <= log' && PlanRun(log', specs, workers) && OneAtATime(log', |PushLog(specs)|)
    ensures Exec(log').leased == map[] && Exec(log').recording.None? && Exec(log').pending == Exec(log).pending
  {
    hide Exec, ValidRun, Retirements, OneAtATime, PushLog, PlanRun, CoversAll;
    var s := Exec(log);
    var k := WorkerFollowsPlan(log, specs, workers);
    PlanRunIsValid(log, specs, workers);
    RunKeepsKeys(log);
    log' := log;
    if s.leased != map[] {
      var id := JobsOf(specs)[k - 1].id;
      assert s.leased - {id} == map[];
      if s.recording.Some? {
        log' := WorkMore(log, specs, workers, RecordComplete);
      } else {
        log' := WorkMore(log, specs, workers, Fail(id, s.leased[id].builder, "failed"));
      }
    }
  }

  lemma PlanRunIsValid(log: seq<Step>, specs: seq<JobSpec>, workers: iset<seq<string>>)
    requires PlanRun(log, specs, workers)
    ensures ValidRun(log)
  {
  }

  /** Every such run can be continued until all jobs have retired, in plan order. */
  lemma {:induction false} PlanCanFinish(log: seq<Step>, specs: seq<JobSpec>, workers: iset<seq<string>>, worker: seq<string>)
      returns (log': seq<Step>)
    requires PlanRun(log, specs, workers) && OneAtATime(log, |PushLog(specs)|)
    requires worker in workers && forall w :: w in workers ==> CoversAll(specs, w)
    ensures log <= log' && PlanRun(log', specs, workers) && OneAtATime(log', |PushLog(specs)|)
    ensures Exec(log').pending == [] && Done(Retirements(log'), JobsOf(specs), |specs|)
    decreases |Exec(log).pending|
  {
    hide Exec, ValidRun, Retirements, OneAtATime, PushLog, PlanRun, Apply, Enabled, RetiredBy;
    log' := Settle(log, specs, workers);
    var k := WorkerFollowsPlan(log', specs, workers);
    if k < |specs| {
      var s := Exec(log');
      TakesNext(s, specs, k, worker);
      log' := WorkMore(log', specs, workers, Pull(Endpoint("worker"), worker, 0));
      log' := PlanCanFinish(log', specs, workers, worker);
    }
  }

  lemma TakesNext(s: State, specs: seq<JobSpec>, k: nat, worker: seq<string>)
    requires k < |specs| && s.pending == JobsOf(specs)[k..] && s.recording.None? && CoversAll(specs, worker)
    ensures Enabled(s, Pull(Endpoint("worker"), worker, 0))
    ensures |Apply(s, Pull(Endpoint("worker"), worker, 0)).pending| < |s.pending|
  {
    assert s.pending[0] == JobsOf(specs)[k];
    TakesFirst(s, Endpoint("worker"), worker, 0);
  }

  // --- Any number of workers, with timeouts: dependencies leased earlier -----------------------------------

  /** The jobs from k on wait in plan order behind jobs that were returned. */
  ghost predicate Queued(pending: seq<Job>, ever: set<JobId>, jobs: seq<Job>, k: nat) {
    && k <= |jobs| <= |pending| + k
    && (forall i :: k <= i < |jobs| ==> pending[|pending| - |jobs| + i] == jobs[i])
    && (forall i :: 0 <= i < |pending| - |jobs| + k ==> pending[i].id in ever)
    && (forall i :: 0 <= i < |pending| ==> pending[i] in jobs)
  }

  ghost predicate Out(leased: map<JobId, Lease>, ever: set<JobId>, jobs: seq<Job>) {
    forall id :: id in leased ==> leased[id].job in jobs && id in ever
  }

  /** Exactly the first k jobs have ever been leased. */
  ghost predicate Leading(s: State, ever: set<JobId>, jobs: seq<Job>, k: nat) {
    && (forall id: JobId :: id in ever <==> 1 <= id <= k)
    && Queued(s.pending, ever, jobs, k) && Out(s.leased, ever, jobs)
  }

  lemma FirstIsTaken(pending: seq<Job>, ever: set<JobId>, specs: seq<JobSpec>, k: nat, worker: seq<string>)
    requires Queued(pending, ever, JobsOf(specs), k) && CoversAll(specs, worker) && pending != []
    ensures FirstMatch(pending, worker) == 0 && Without(pending, 0) == pending[1..]
  {
    assert pending[0] in JobsOf(specs);
  }

  /** Taking the first waiting job: a returned one, or job k itself. */
  lemma DropFirst(pending: seq<Job>, ever: set<JobId>, specs: seq<JobSpec>, k: nat) returns (k': nat)
    requires Queued(pending, ever, JobsOf(specs), k) && pending != [] && forall id: JobId :: id in ever <==> 1 <= id <= k
    ensures var ever' := ever + {pending[0].id};
            && Queued(pending[1..], ever', JobsOf(specs), k') && (forall id: JobId :: id in ever' <==> 1 <= id <= k')
    ensures pending[0].id <= k + 1
  {
    var jobs := JobsOf(specs);
    if |pending| == |jobs| - k {
      assert pending[|pending| - |jobs| + k] == jobs[k];
      k' := k + 1;
    } else {
      k' := k;
    }
  }

  lemma PullLeads(s: State, ever: set<JobId>, specs: seq<JobSpec>, k: nat, b: Endpoint, worker: seq<string>, stamp: Time)
      returns (k': nat)
    requires Leading(s, ever, JobsOf(specs), k) && CoversAll(specs, worker)
    ensures var e := Pull(b, worker, stamp); Leading(Apply(s, e), ever + LeasesNow(s, e), JobsOf(specs), k')
    ensures s.pending != [] ==> FirstMatch(s.pending, worker) == 0 && s.pending[0] in JobsOf(specs) && s.pending[0].id <= k + 1
  {
    k' := k;
    if s.pending != [] {
      FirstIsTaken(s.pending, ever, specs, k, worker);
      k' := DropFirst(s.pending, ever, specs, k);
      assert s.pending[0] in JobsOf(specs) by { FirstIsJob(s.pending, ever, specs, k); }
      hide Queued, JobsOf, CoversAll;
    } else {
      assert ever + {} == ever;
    }
  }

  lemma FirstIsJob(pending: seq<Job>, ever: set<JobId>, specs: seq<JobSpec>, k: nat)
    requires Queued(pending, ever, JobsOf(specs), k) && pending != []
    ensures pending[0] in JobsOf(specs)
  {
  }

  lemma SweepLeads(s: State, ever: set<JobId>, jobs: seq<Job>, k: nat, now: Time, order: seq<JobId>)
    requires LeaseKeyed(s) && Leading(s, ever, jobs, k)
    ensures Leading(Apply(s, Sweep(now, order)), ever, jobs, k)
  {
    var returned := Returned(s.leased, order);
    forall i | 0 <= i < |returned| ensures returned[i] in jobs && returned[i].id in ever {
      var id := ReturnedFrom(s.leased, order, i);
    }
  }

  lemma StepLeads(s: State, e: Step, ever: set<JobId>, specs: seq<JobSpec>, k: nat, workers: iset<seq<string>>) returns (k': nat)
    requires LeaseKeyed(s) && Enabled(s, e) && Leading(s, ever, JobsOf(specs), k)
    requires WorkStep(e, workers) && forall w :: w in workers ==> CoversAll(specs, w)
    ensures Leading(Apply(s, e), ever + LeasesNow(s, e), JobsOf(specs), k')
  {
    k' := k;
    assert ever + {} == ever;
    match e
    case Pull(b, worker, stamp) => k' := PullLeads(s, ever, specs, k, b, worker, stamp);
    case Sweep(now, order) => SweepLeads(s, ever, JobsOf(specs), k, now, order);
    case _ => hide Queued, JobsOf, CoversAll;
  }

  lemma PushedLeads(specs: seq<JobSpec>)
    ensures Leading(Exec(PushLog(specs)), EverLeased(PushLog(specs)), JobsOf(specs), 0)
  {
    hide Exec;
    PushesFillQueue(specs);
    PushLogPullsNothing(specs);
    NoPullNoLease(PushLog(specs));
    forall i | 0 <= i < |specs| ensures JobsOf(specs)[i] in JobsOf(specs) {}
  }

  lemma {:induction false} PushLogPullsNothing(specs: seq<JobSpec>)
    ensures forall i :: 0 <= i < |PushLog(specs)| ==> !PushLog(specs)[i].Pull?
  {
    if specs != [] { PushLogPullsNothing(Front(specs)); }
  }

  /** Whatever the number of workers, and with any timeouts, new jobs are leased in plan order. */
  lemma {:induction false} WorkersLeaseInOrder(log: seq<Step>, specs: seq<JobSpec>, workers: iset<seq<string>>) returns (k: nat)
    requires PlanRun(log, specs, workers) && forall w :: w in workers ==> CoversAll(specs, w)
    ensures Leading(Exec(log), EverLeased(log), JobsOf(specs), k)
    decreases |log|
  {
    hide Apply, Enabled, Leading, LeasesNow, WorkStep, Orderly, OneAtATime, CoversAll;
    if |log| == |PushLog(specs)| {
      assert log == PushLog(specs);
      k := 0;
      PushedLeads(specs);
    } else {
      WorkFront(log, specs, workers);
      k := WorkersLeaseInOrder(Front(log), specs, workers);
      RunKeepsKeys(Front(log));
      k := StepLeads(Exec(Front(log)), Last(log), EverLeased(Front(log)), specs, k, workers);
    }
  }

  /** For every run of any selected workers, with timeouts: a pull while jobs are waiting leases one, and
      every planned derivation that job depends on has been leased before. */
  lemma DependenciesLeasedEarlier(
      drvs: map<Planner.Drv, Planner.DrvInfo>, existing: set<string>, plan: seq<Planner.DrvInfo>, order: seq<Planner.Drv>,
      user: seq<string>, specs: seq<JobSpec>, log: seq<Step>, b: Endpoint, worker: seq<string>, stamp: Time) returns (id: JobId)
    requires Planner.PlanFor(drvs, existing, plan, order)
    requires forall x :: x in drvs ==> drvs[x].drvPath == x
    requires SpecsOf(plan, user, specs) && AsksOnlyAnnounced(plan, user) && Selected(plan, worker)
    requires PlanRun(log, specs, SelectedWorkers(plan)) && Exec(log).pending != []
    ensures 1 <= id <= |plan| && LeasesNow(Exec(log), Pull(b, worker, stamp)) == {id}
    ensures forall d :: d in plan[id - 1].inputDrvs && d in order ==>
              exists i :: 0 <= i < id - 1 && plan[i].drvPath == d && i + 1 in EverLeased(log)
  {
    hide Exec, ValidRun, EverLeased, Planner.PlanFor, AsksOnlyAnnounced, PushLog, Selected, BuildFeatures;
    SelectedCoverAll(plan, user, specs);
    var k := WorkersLeaseInOrder(log, specs, SelectedWorkers(plan));
    var s := Exec(log);
    assert worker in SelectedWorkers(plan);
    var k' := PullLeads(s, EverLeased(log), specs, k, b, worker, stamp);
    id := s.pending[0].id;
    forall d | d in plan[id - 1].inputDrvs && d in order
      ensures exists i :: 0 <= i < id - 1 && plan[i].drvPath == d && i + 1 in EverLeased(log)
    {
      var i := DependencyIsEarlier(drvs, existing, plan, order, id - 1, d);
      assert i + 1 in EverLeased(log);
    }
  }

  // --- When dependencies are not yet reported -----------------------------------------------------------------

  /** Pulls alone: the first j jobs are being built and none has been reported. */
  lemma {:induction false} PullAhead(specs: seq<JobSpec>, workers: iset<seq<string>>, worker: seq<string>, b: Endpoint, j: nat)
      returns (log: seq<Step>)
    requires worker in workers && CoversAll(specs, worker) && j <= |specs|
    ensures PlanRun(log, specs, workers) && Retirements(log) == []
    ensures Exec(log).pending == JobsOf(specs)[j..] && Exec(log).recording.None?
    ensures forall i :: 1 <= i <= j ==> LeasedTo(Exec(log).leased, i, b)
  {
    hide Exec, ValidRun, Retirements, PushLog, PlanRun, Apply, Enabled, RetiredBy, CoversAll;
    if j == 0 {
      PushesFillQueue(specs);
      PushedIsPlanRun(specs, workers);
      log := PushLog(specs);
    } else {
      log := PullAhead(specs, workers, worker, b, j - 1);
      assert Exec(log).pending[0] == JobsOf(specs)[j - 1];
      CoversEach(specs, worker, j - 1);
      TakesFirst(Exec(log), b, worker, 0);
      var before := Exec(log).leased;
      log := WorkMore(log, specs, workers, Pull(b, worker, 0));
      assert Exec(log).leased == before[j := Lease(JobsOf(specs)[j - 1], b, 0, 0, "starting")];
      forall i | 1 <= i <= j ensures LeasedTo(Exec(log).leased, i, b) { assert i < j ==> LeasedTo(before, i, b); }
    }
  }

  lemma CoversEach(specs: seq<JobSpec>, worker: seq<string>, i: nat)
    requires CoversAll(specs, worker) && i < |specs|
    ensures Covers(specs[i].features, worker)
  {
  }

  /** For every planned dependency there is a run in which the dependent job is leased while its dependency
      is still being built. */
  lemma DependencyStillBuilding(
      drvs: map<Planner.Drv, Planner.DrvInfo>, existing: set<string>, plan: seq<Planner.DrvInfo>, order: seq<Planner.Drv>,
      user: seq<string>, specs: seq<JobSpec>, j: nat, d: Planner.Drv, worker: seq<string>, b1: Endpoint, b2: Endpoint)
      returns (log: seq<Step>, i: nat)
    requires Planner.PlanFor(drvs, existing, plan, order)
    requires forall x :: x in drvs ==> drvs[x].drvPath == x
    requires SpecsOf(plan, user, specs) && AsksOnlyAnnounced(plan, user) && Selected(plan, worker)
    requires j < |plan| && d in plan[j].inputDrvs && d in order
    ensures PlanRun(log, specs, SelectedWorkers(plan)) && Retirements(log) == []
    ensures i < j && plan[i].drvPath == d && LeasedTo(Exec(log).leased, i + 1, b1)
    ensures Enabled(Exec(log), Pull(b2, worker, 0)) && LeasesNow(Exec(log), Pull(b2, worker, 0)) == {j + 1}
  {
    hide Exec, ValidRun, Retirements, Planner.PlanFor, AsksOnlyAnnounced, PushLog, Selected, BuildFeatures, PlanRun, CoversAll;
    SelectedCoverAll(plan, user, specs);
    assert worker in SelectedWorkers(plan);
    log := PullAhead(specs, SelectedWorkers(plan), worker, b1, j);
    i := DependencyIsEarlier(drvs, existing, plan, order, j, d);
    assert Exec(log).pending[0] == JobsOf(specs)[j];
    CoversEach(specs, worker, j);
    TakesFirst(Exec(log), b2, worker, 0);
  }

  /** On every run of selected workers, with any timeouts, every pull leases only a job whose planned
      dependencies have all been reported. */
  ghost predicate AlwaysReported(plan: seq<Planner.DrvInfo>, order: seq<Planner.Drv>, specs: seq<JobSpec>) {
    forall log, b, worker, stamp: Time, id ::
      (&& PlanRun(log, specs, SelectedWorkers(plan)) && Selected(plan, worker)
       && Enabled(Exec(log), Pull(b, worker, stamp)) && id in LeasesNow(Exec(log), Pull(b, worker, stamp)))
      ==> 1 <= id <= |plan| && DependenciesReported(log, plan[id - 1], order)
  }

  ghost predicate DependenciesReported(log: seq<Step>, info: Planner.DrvInfo, order: seq<Planner.Drv>) {
    forall d :: d in info.inputDrvs && d in order ==> Reported(log, d)
  }

  /** No planned derivation depends on another planned one. */
  ghost predicate NoPlannedDependency(plan: seq<Planner.DrvInfo>, order: seq<Planner.Drv>) {
    forall j, d :: 0 <= j < |plan| && d in plan[j].inputDrvs ==> d !in order
  }

  /** With any number of selected workers, dependencies are always reported first exactly when the plan has
      no dependency at all. */
  lemma DependenciesReportedExactly(
      drvs: map<Planner.Drv, Planner.DrvInfo>, existing: set<string>, plan: seq<Planner.DrvInfo>, order: seq<Planner.Drv>,
      user: seq<string>, specs: seq<JobSpec>)
    requires Planner.PlanFor(drvs, existing, plan, order)
    requires forall x :: x in drvs ==> drvs[x].drvPath == x
    requires SpecsOf(plan, user, specs) && AsksOnlyAnnounced(plan, user)
    ensures AlwaysReported(plan, order, specs) <==> NoPlannedDependency(plan, order)
  {
    hide Exec, ValidRun, Retirements, Planner.PlanFor, AsksOnlyAnnounced, PushLog, Selected, BuildFeatures, PlanRun, Enabled, LeasesNow;
    if NoPlannedDependency(plan, order) {
      forall log, b, worker, stamp: Time, id |
        (&& PlanRun(log, specs, SelectedWorkers(plan)) && Selected(plan, worker)
         && Enabled(Exec(log), Pull(b, worker, stamp)) && id in LeasesNow(Exec(log), Pull(b, worker, stamp)))
        ensures 1 <= id <= |plan| && DependenciesReported(log, plan[id - 1], order)
      {
        SomethingPending(Exec(log), b, worker, stamp, id);
        var id' := DependenciesLeasedEarlier(drvs, existing, plan, order, user, specs, log, b, worker, stamp);
      }
    } else {
      var j, d :| 0 <= j < |plan| && d in plan[j].inputDrvs && d in order;
      var b, worker := Endpoint("builder"), AnnouncedList(plan);
      AnnouncedIsSelected(plan);
      var log, i := DependencyStillBuilding(drvs, existing, plan, order, user, specs, j, d, worker, b, b);
      assert j + 1 in LeasesNow(Exec(log), Pull(b, worker, 0));
      assert !Reported(log, d);
      assert !DependenciesReported(log, plan[j], order);
    }
  }

  lemma SomethingPending(s: State, b: Endpoint, worker: seq<string>, stamp: Time, id: JobId)
    requires id in LeasesNow(s, Pull(b, worker, stamp))
    ensures s.pending != []
  {
  }

  lemma AnnouncedIsSelected(plan: seq<Planner.DrvInfo>)
    ensures Selected(plan, AnnouncedList(plan))
  {
    forall f | Announced(plan, f) ensures f in AnnouncedList(plan) { AnnouncedListMembers(plan, f); }
  }

  // --- When selected workers can get stuck ------------------------------------------------------------------

  /** Jobs are waiting, nothing is being built, and this builder can take none of them. */
  ghost predicate Stuck(s: State, worker: seq<string>) {
    s.pending != [] && s.leased == map[] && FirstMatch(s.pending, worker) == |s.pending|
  }

  ghost predicate CanGetStuck(plan: seq<Planner.DrvInfo>, specs: seq<JobSpec>) {
    exists log, worker :: PlanRun(log, specs, SelectedWorkers(plan)) && Selected(plan, worker) && Stuck(Exec(log), worker)
  }

  /** Work off everything this builder can take; what it cannot take stays. */
  lemma {:induction false} Drain(log: seq<Step>, specs: seq<JobSpec>, workers: iset<seq<string>>, worker: seq<string>, bad: Job)
      returns (log': seq<Step>)
    requires PlanRun(log, specs, workers) && worker in workers
    requires Exec(log).leased == map[] && Exec(log).recording.None?
    requires bad in Exec(log).pending && !Covers(bad.spec.features, worker)
    ensures PlanRun(log', specs, workers) && Stuck(Exec(log'), worker)
    decreases |Exec(log).pending|
  {
    hide Exec, ValidRun, Retirements, PushLog, PlanRun, Covers;
    var s := Exec(log);
    log' := log;
    var i := FirstMatch(s.pending, worker);
    if i < |s.pending| {
      var b, job := Endpoint("worker"), s.pending[i];
      log' := WorkMore(log', specs, workers, Pull(b, worker, 0));
      assert Exec(log').leased == map[job.id := Lease(job, b, 0, 0, "starting")];
      OthersStay(s.pending, i, bad);
      log' := WorkMore(log', specs, workers, Fail(job.id, b, "failed"));
      assert Exec(log').leased == map[];
      log' := Drain(log', specs, workers, worker, bad);
    }
  }

  lemma OthersStay(jobs: seq<Job>, i: nat, bad: Job)
    requires i < |jobs| && bad in jobs && jobs[i] != bad
    ensures bad in Without(jobs, i)
  {
    var k :| 0 <= k < |jobs| && jobs[k] == bad;
    assert Without(jobs, i)[if k < i then k else k - 1] == bad;
  }

  /** Selected workers can get stuck on a plan, however many they are and whatever times out, exactly when
      some job asks for a feature that was not announced. */
  lemma StuckExactly(plan: seq<Planner.DrvInfo>, user: seq<string>, specs: seq<JobSpec>)
    requires SpecsOf(plan, user, specs)
    ensures CanGetStuck(plan, specs) <==> !AsksOnlyAnnounced(plan, user)
  {
    hide Exec, ValidRun, PushLog, BuildFeatures, PlanRun, Selected, AsksOnlyAnnounced, Announced, CoversAll;
    var workers := SelectedWorkers(plan);
    if AsksOnlyAnnounced(plan, user) {
      SelectedCoverAll(plan, user, specs);
      forall log, worker | PlanRun(log, specs, workers) && Selected(plan, worker) ensures !Stuck(Exec(log), worker) {
        var k := WorkersLeaseInOrder(log, specs, workers);
        var k' := PullLeads(Exec(log), EverLeased(log), specs, k, Endpoint("worker"), worker, 0);
      }
    } else {
      var worker, i := LeanWorker(plan, user);
      PushesFillQueue(specs);
      var log := PushLog(specs);
      PushedIsPlanRun(specs, workers);
      var bad := JobsOf(specs)[i];
      assert bad in Exec(log).pending;
      var log' := Drain(log, specs, workers, worker, bad);
    }
  }

  lemma PushedIsPlanRun(specs: seq<JobSpec>, workers: iset<seq<string>>)
    ensures PlanRun(PushLog(specs), specs, workers)
  {
    PushesFillQueue(specs);
  }

  /** A builder with exactly the announced features is selected and cannot take some job. */
  lemma LeanWorker(plan: seq<Planner.DrvInfo>, user: seq<string>) returns (worker: seq<string>, i: nat)
    requires !AsksOnlyAnnounced(plan, user)
    ensures Selected(plan, worker) && i < |plan| && !Covers(BuildFeatures(plan[i], user), worker)
  {
    worker := AnnouncedList(plan);
    forall f ensures f in worker <==> Announced(plan, f) { AnnouncedListMembers(plan, f); }
    var k, f :| 0 <= k < |plan| && f in BuildFeatures(plan[k], user) && !Announced(plan, f);
    i := k;
  }
}
