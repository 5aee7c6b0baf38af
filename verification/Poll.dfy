/** PollBuild (iroh-nix/src/control.rs:224-291): five separate reads of the queue, with any queue steps
    in between, and what each answer then means.
 */
module Poll {
  import opened Common
  import opened Queue
  import opened Conservation

  datatype OutputInfo = OutputInfo(storePath: string, blake3: string, narSize: nat)

  datatype BuildState =
    | BuildPending
    | Building(builderId: Endpoint)
    | BuildCompleted(outputs: seq<OutputInfo>)
    | BuildFailed(error: string)

  function OutcomeState(o: Outcome): BuildState {
    match o
    case Completed(r) =>
      BuildCompleted(seq(|r.outputs|, i requires 0 <= i < |r.outputs| =>
                       OutputInfo(r.outputs[i].storePath, r.outputs[i].blake3, r.outputs[i].narSize)))
    case Failed(_, error) => BuildFailed(error)
  }

  /** The first pending job with this id. */
  function FindPending(pending: seq<Job>, id: JobId): (r: Option<Job>)
    ensures r.Some? ==> r.value in pending && r.value.id == id
    ensures r.None? ==> forall i :: 0 <= i < |pending| ==> pending[i].id != id
  {
    if pending == [] then None
    else if pending[0].id == id then Some(pending[0])
    else FindPending(pending[1..], id)
  }

  /** The derivation of the job, if one of the first two reads sees it. */
  function SeenDrv(leased1: map<JobId, Lease>, pending2: seq<Job>, id: JobId): Option<DrvHash> {
    if id in leased1 then Some(leased1[id].job.spec.drv)
    else match FindPending(pending2, id) { case Some(j) => Some(j.spec.drv) case None => None }
  }

  /** The answer, from the five snapshots in the order they are taken. */
  function PollAnswer(leased1: map<JobId, Lease>, pending2: seq<Job>, leased3: map<JobId, Lease>,
                      pending4: seq<Job>, completed5: map<DrvHash, Outcome>, id: JobId): BuildState {
    var drv := SeenDrv(leased1, pending2, id);
    if id in leased3 then Building(leased3[id].builder)
    else if FindPending(pending4, id).Some? then BuildPending
    else if drv.Some? && drv.value in completed5 then OutcomeState(completed5[drv.value])
    else BuildPending
  }

  /** The five reads of one poll, as positions in a run. */
  datatype Reads = Reads(n1: nat, n2: nat, n3: nat, n4: nat, n5: nat) {
    predicate Within(log: seq<Step>) { n1 <= n2 <= n3 <= n4 <= n5 <= |log| }
  }

  ghost function Answer(log: seq<Step>, r: Reads, id: JobId): BuildState
    requires r.Within(log)
  {
    PollAnswer(Exec(log[..r.n1]).leased, Exec(log[..r.n2]).pending, Exec(log[..r.n3]).leased,
               Exec(log[..r.n4]).pending, Exec(log[..r.n5]).completed, id)
  }

  ghost predicate Retired(log: seq<Step>, id: JobId) { CountRetired(Retirements(log), id) > 0 }

  /** The job was retired with this outcome. */
  ghost predicate RetiredWith(log: seq<Step>, id: JobId, o: Outcome) {
    exists i :: 0 <= i < |Retirements(log)| && Retirements(log)[i].job.id == id && Retirements(log)[i].outcome == o
  }

  /** Every retirement of the job's derivation so far was the job's own. */
  ghost predicate OnlyRetiree(log: seq<Step>, id: JobId) {
    forall i :: && 0 <= i < |Retirements(log)| && Pushed(log, id).Some?
                && Retirements(log)[i].job.spec.drv == Pushed(log, id).value.spec.drv
                ==> Retirements(log)[i].job.id == id
  }

  /** The answer is the outcome with which this very job was retired by the fifth read. */
  ghost predicate ReportsOwn(log: seq<Step>, r: Reads, id: JobId)
    requires r.Within(log)
  {
    exists o :: Answer(log, r, id) == OutcomeState(o) && RetiredWith(log[..r.n5], id, o)
  }

  // --- Facts about runs ---------------------------------------------------------------------------

  lemma {:induction false} RetirementsGrow(log: seq<Step>, k: nat)
    requires k <= |log|
    ensures Retirements(log[..k]) <= Retirements(log)
  {
    if k < |log| {
      RetirementsGrow(Front(log), k);
      assert Front(log)[..k] == log[..k];
    } else {
      assert log[..k] == log;
    }
  }

  lemma {:induction false} CountRetiredGrows(a: seq<Retirement>, b: seq<Retirement>, id: JobId)
    requires a <= b
    ensures CountRetired(a, id) <= CountRetired(b, id)
  {
    if |a| < |b| {
      CountRetiredGrows(a, Front(b), id);
    } else {
      assert a == b;
    }
  }

  lemma RetiredStays(log: seq<Step>, k: nat, n: nat, id: JobId)
    requires k <= n <= |log| && Retired(log[..k], id)
    ensures Retired(log[..n], id)
  {
    assert log[..n][..k] == log[..k];
    RetirementsGrow(log[..n], k);
    CountRetiredGrows(Retirements(log[..k]), Retirements(log[..n]), id);
  }

  /** A retired id is neither leased nor pending. */
  lemma RetiredIsGone(log: seq<Step>, id: JobId)
    requires ValidRun(log) && Retired(log, id)
    ensures id !in Exec(log).leased && FindPending(Exec(log).pending, id).None?
  {
    RunConserves(log, id);
    var r := FindPending(Exec(log).pending, id);
    if r.Some? {
      var i :| 0 <= i < |Exec(log).pending| && Exec(log).pending[i] == r.value;
      CountJobPositive(Exec(log).pending, i);
    }
  }

  /** The job a live id stands for. */
  lemma LiveJobWasPushed(log: seq<Step>, k: nat, id: JobId)
    requires ValidRun(log) && k <= |log|
    ensures id in Exec(log[..k]).leased ==> Pushed(log, id) == Some(Exec(log[..k]).leased[id].job)
    ensures FindPending(Exec(log[..k]).pending, id).Some? ==> Pushed(log, id) == FindPending(Exec(log[..k]).pending, id)
  {
    PrefixValid(log, k);
    RunKeepsPayloads(log[..k]);
    if Pushed(log[..k], id).Some? { PayloadImmutable(log, k, id); }
  }

  lemma {:induction false} LatestIsRetirement(rs: seq<Retirement>, drv: DrvHash) returns (i: nat)
    requires Latest(rs, drv).Some?
    ensures i < |rs| && rs[i].job.spec.drv == drv && Some(rs[i].outcome) == Latest(rs, drv)
  {
    if Last(rs).job.spec.drv == drv {
      i := |rs| - 1;
    } else {
      i := LatestIsRetirement(Front(rs), drv);
    }
  }

  /** If only the job itself was retired under its derivation, the table entry is the job's own outcome. */
  lemma OutcomeIsOwn(log: seq<Step>, id: JobId, drv: DrvHash)
    requires ValidRun(log) && OnlyRetiree(log, id)
    requires Pushed(log, id).Some? && Pushed(log, id).value.spec.drv == drv && drv in Exec(log).completed
    ensures RetiredWith(log, id, Exec(log).completed[drv])
  {
    OutcomesAreLatest(log, drv);
    var i := LatestIsRetirement(Retirements(log), drv);
  }

  // --- The answers -----------------------------------------------------------------------------------

  /** `Building{b}` exactly when the job was leased to `b` at the third read. */
  lemma BuildingMeansLeased(log: seq<Step>, r: Reads, id: JobId, b: Endpoint)
    requires r.Within(log)
    ensures Answer(log, r, id) == Building(b) <==> LeasedTo(Exec(log[..r.n3]).leased, id, b)
  {
    var o := Exec(log[..r.n5]).completed;
    assert forall d :: d in o ==> !OutcomeState(o[d]).Building?;
  }

  /** A job that is not leased at the third read and waits at the fourth is answered `Pending`, whatever the
      outcome table says of its derivation. */
  lemma WaitingIsPending(log: seq<Step>, r: Reads, id: JobId)
    requires r.Within(log) && id !in Exec(log[..r.n3]).leased
    requires exists i :: 0 <= i < |Exec(log[..r.n4]).pending| && Exec(log[..r.n4]).pending[i].id == id
    ensures Answer(log, r, id) == BuildPending
  {
  }

  /** `Completed`/`Failed` reports how this very job was retired, unless another job of the same derivation
      was retired by the fifth read. */
  lemma FinishedMeansRetired(log: seq<Step>, r: Reads, id: JobId)
    requires ValidRun(log) && r.Within(log) && OnlyRetiree(log[..r.n5], id)
    requires Answer(log, r, id).BuildCompleted? || Answer(log, r, id).BuildFailed?
    ensures ReportsOwn(log, r, id)
  {
    var run := log[..r.n5];
    PrefixValid(log, r.n5);
    var drv := SeenDrv(Exec(log[..r.n1]).leased, Exec(log[..r.n2]).pending, id).value;
    SeenDrvIsOwn(log, r, id);
    OutcomeIsOwn(run, id, drv);
    assert Answer(log, r, id) == OutcomeState(Exec(run).completed[drv]);
  }

  lemma SeenDrvIsOwn(log: seq<Step>, r: Reads, id: JobId)
    requires ValidRun(log) && r.Within(log)
    requires SeenDrv(Exec(log[..r.n1]).leased, Exec(log[..r.n2]).pending, id).Some?
    ensures Pushed(log[..r.n5], id).Some?
    ensures SeenDrv(Exec(log[..r.n1]).leased, Exec(log[..r.n2]).pending, id).value == Pushed(log[..r.n5], id).value.spec.drv
  {
    var run := log[..r.n5];
    PrefixValid(log, r.n5);
    assert run[..r.n1] == log[..r.n1] && run[..r.n2] == log[..r.n2];
    LiveJobWasPushed(run, r.n1, id);
    LiveJobWasPushed(run, r.n2, id);
  }

  /** An id retired before the first read is always answered `Pending`. */
  lemma RetiredBeforePollIsPending(log: seq<Step>, r: Reads, id: JobId)
    requires ValidRun(log) && r.Within(log) && Retired(log[..r.n1], id)
    ensures Answer(log, r, id) == BuildPending
  {
    GoneFrom(log, r.n1, r.n1, id);
    GoneFrom(log, r.n1, r.n2, id);
    GoneFrom(log, r.n1, r.n3, id);
    GoneFrom(log, r.n1, r.n4, id);
  }

  lemma GoneFrom(log: seq<Step>, k: nat, n: nat, id: JobId)
    requires ValidRun(log) && k <= n <= |log| && Retired(log[..k], id)
    ensures id !in Exec(log[..n]).leased && FindPending(Exec(log[..n]).pending, id).None?
  {
    PrefixValid(log, n);
    RetiredStays(log, k, n, id);
    RetiredIsGone(log[..n], id);
  }

  /** Conversely, a job seen live by one of the first two reads and retired by the third is reported
      with its outcome. */
  lemma RetiredDuringPollIsReported(log: seq<Step>, r: Reads, id: JobId)
    requires ValidRun(log) && r.Within(log) && OnlyRetiree(log[..r.n5], id)
    requires id in Exec(log[..r.n1]).leased || FindPending(Exec(log[..r.n2]).pending, id).Some?
    requires Retired(log[..r.n3], id)
    ensures ReportsOwn(log, r, id)
  {
    var run := log[..r.n5];
    PrefixValid(log, r.n5);
    SeenDrvIsOwn(log, r, id);
    GoneFrom(log, r.n3, r.n3, id);
    GoneFrom(log, r.n3, r.n4, id);
    var drv := Pushed(run, id).value.spec.drv;
    RetiredStays(log, r.n3, r.n5, id);
    RetiredHasOutcome(run, id);
    OutcomeIsOwn(run, id, drv);
    assert Answer(log, r, id) == OutcomeState(Exec(run).completed[drv]);
  }

  lemma RetiredHasOutcome(log: seq<Step>, id: JobId)
    requires ValidRun(log) && Retired(log, id) && Pushed(log, id).Some?
    ensures Pushed(log, id).value.spec.drv in Exec(log).completed
  {
    var i := CountRetiredMember(Retirements(log), id);
    RetiredWasPushed(log, i);
    var drv := Pushed(log, id).value.spec.drv;
    OutcomesAreLatest(log, drv);
    MemberHasLatest(Retirements(log), i);
  }

  lemma {:induction false} MemberHasLatest(rs: seq<Retirement>, i: nat)
    requires i < |rs|
    ensures Latest(rs, rs[i].job.spec.drv).Some?
  {
    if i < |rs| - 1 { MemberHasLatest(Front(rs), i); }
  }

  /** For any two submissions of the same derivation there is a run in which a poll of the second job,
      which is being built, reports the failure of the first. */
  lemma SameDrvMisleadsPoll(a: JobSpec, b: JobSpec, builder: Endpoint, error: string) returns (log: seq<Step>, r: Reads)
    requires a.drv == b.drv
    ensures ValidRun(log) && r.Within(log)
    ensures Answer(log, r, 2) == BuildFailed(error)
    ensures LeasedTo(Exec(log).leased, 2, builder) && r.n5 == |log|
    ensures forall id :: Pushed(log, id) == if id == 1 then Some(Job(1, a)) else if id == 2 then Some(Job(2, b)) else None
  {
    hide Exec, ValidRun, Retirements, Pushed, Apply, Enabled, PollAnswer;
    log := SecondWaits(a, b, builder, error);
    var n, before := |log|, log;
    TakesFirst(Exec(log), builder, b.features, 0);
    log := Then(log, Pull(builder, b.features, 0));
    NextPushed(log);
    assert log[..n] == before && log[..n + 1] == log;
    r := Reads(n, n, n, n + 1, n + 1);
    MisledAnswer(Job(2, b), Failed(builder, error));
    assert Exec(log[..n]).leased == map[] && Exec(log[..n]).pending == [Job(2, b)];
    assert Exec(log[..n + 1]).pending == [] && Exec(log[..n + 1]).completed == map[b.drv := Failed(builder, error)];
  }

  /** Neither leased nor pending at the reads that decide, but pending at an earlier one. */
  lemma MisledAnswer(job: Job, o: Outcome)
    ensures PollAnswer(map[], [job], map[], [], map[job.spec.drv := o], job.id) == OutcomeState(o)
  {
  }

  /** After the first job has failed, the second one waits. */
  lemma SecondWaits(a: JobSpec, b: JobSpec, builder: Endpoint, error: string) returns (log: seq<Step>)
    ensures ValidRun(log)
    ensures Exec(log) == INIT.(nextId := 3, pending := [Job(2, b)], completed := map[a.drv := Failed(builder, error)])
    ensures forall id :: Pushed(log, id) == if id == 1 then Some(Job(1, a)) else if id == 2 then Some(Job(2, b)) else None
  {
    hide Exec, ValidRun, Retirements, Pushed;
    log := FirstFails(a, builder, error);
    log := Then(log, TakeId);
    NextPushed(log);
    log := Then(log, Enqueue(Job(2, b)));
    NextPushed(log);
    assert {2} - {2} == {};
  }

  /** The first job is pushed, leased and failed. */
  lemma FirstFails(a: JobSpec, builder: Endpoint, error: string) returns (log: seq<Step>)
    ensures ValidRun(log)
    ensures Exec(log) == INIT.(nextId := 2, completed := map[a.drv := Failed(builder, error)])
    ensures forall id :: Pushed(log, id) == if id == 1 then Some(Job(1, a)) else None
  {
    hide Exec, ValidRun, Retirements, Pushed, PullState;
    log := Start();
    NothingPushed();
    log := Then(log, TakeId);
    NextPushed(log);
    log := Then(log, Enqueue(Job(1, a)));
    NextPushed(log);
    TakesFirst(Exec(log), builder, a.features, 0);
    log := Then(log, Pull(builder, a.features, 0));
    NextPushed(log);
    log := Then(log, Fail(1, builder, error));
    NextPushed(log);
    assert {1} - {1} == {};
  }

  lemma NothingPushed()
    ensures forall id :: Pushed([], id) == None
  {
  }

  lemma NextPushed(log: seq<Step>)
    requires log != []
    ensures forall id :: Pushed(log, id) ==
              if Last(log).Enqueue? && Last(log).job.id == id then Some(Last(log).job) else Pushed(log[..|log| - 1], id)
  {
  }

  // --- What a finished answer says about the report ---------------------------------------------------------

  /** The same outputs in the same order: store path, BLAKE3 hash and size of each. */
  predicate SameOutputs(outs: seq<OutputInfo>, reported: seq<BuildOutput>) {
    && |outs| == |reported|
    && forall i :: 0 <= i < |outs| ==>
         && outs[i].storePath == reported[i].storePath
         && outs[i].blake3 == reported[i].blake3
         && outs[i].narSize == reported[i].narSize
  }

  /** At position k the lease holder reports the job: finished with this result, or failed with this error. */
  ghost predicate ReportedAt(log: seq<Step>, k: nat, id: JobId, b: Endpoint, o: Outcome) {
    && k < |log| && LeasedTo(Exec(log[..k]).leased, id, b)
    && match o
       case Completed(res) => log[k] == StartComplete(id, b, res)
       case Failed(b', error) => b' == b && log[k] == Step.Fail(id, b, error)
  }

  lemma ReportedEarlier(log: seq<Step>, k: nat, id: JobId, b: Endpoint, o: Outcome)
    requires log != [] && ReportedAt(Front(log), k, id, b, o)
    ensures ReportedAt(log, k, id, b, o)
  {
    assert Front(log)[..k] == log[..k];
  }

  lemma {:induction false} RecordingWasReported(log: seq<Step>) returns (k: nat)
    requires ValidRun(log) && Exec(log).recording.Some?
    ensures var rec := Exec(log).recording.value; ReportedAt(log, k, rec.id, rec.builder, Completed(rec.result))
  {
    var front := Front(log);
    if Exec(front).recording.Some? {
      k := RecordingWasReported(front);
      ReportedEarlier(log, k, Exec(front).recording.value.id, Exec(front).recording.value.builder, Completed(Exec(front).recording.value.result));
    } else {
      k := |log| - 1;
      assert log[..k] == front;
    }
  }

  lemma {:induction false} RetirementWasReported(log: seq<Step>, i: nat) returns (k: nat)
    requires ValidRun(log) && i < |Retirements(log)|
    ensures var r := Retirements(log)[i]; ReportedAt(log, k, r.job.id, r.builder, r.outcome)
  {
    var front := Front(log);
    var r := Retirements(log)[i];
    if i < |Retirements(front)| {
      k := RetirementWasReported(front, i);
      ReportedEarlier(log, k, r.job.id, r.builder, r.outcome);
    } else {
      RunKeepsKeys(front);
      if Last(log).RecordComplete? {
        k := RecordingWasReported(front);
        ReportedEarlier(log, k, r.job.id, r.builder, r.outcome);
      } else {
        k := |log| - 1;
        assert log[..k] == front;
      }
    }
  }

  /** What the builder reported is what the poll returns: a finished answer comes from a report of this very job
      by the builder that held its lease, with the same outputs, field by field and in order, or the same error. */
  lemma PollReturnsReport(log: seq<Step>, r: Reads, id: JobId) returns (k: nat)
    requires ValidRun(log) && r.Within(log) && OnlyRetiree(log[..r.n5], id)
    requires Answer(log, r, id).BuildCompleted? || Answer(log, r, id).BuildFailed?
    ensures k < r.n5 && (log[k].StartComplete? || log[k].Fail?)
    ensures log[k].id == id && LeasedTo(Exec(log[..k]).leased, id, log[k].builder)
    ensures Answer(log, r, id).BuildCompleted? ==>
              log[k].StartComplete? && SameOutputs(Answer(log, r, id).outputs, log[k].result.outputs)
    ensures Answer(log, r, id).BuildFailed? ==> log[k].Fail? && Answer(log, r, id).error == log[k].error
  {
    hide Exec, ValidRun, Retirements, Answer, OnlyRetiree;
    FinishedMeansRetired(log, r, id);
    PrefixValid(log, r.n5);
    var run := log[..r.n5];
    var o :| Answer(log, r, id) == OutcomeState(o) && RetiredWith(run, id, o);
    var i :| 0 <= i < |Retirements(run)| && Retirements(run)[i].job.id == id && Retirements(run)[i].outcome == o;
    k := RetirementWasReported(run, i);
    assert run[..k] == log[..k];
  }

  /** So a job that was retired as completed with a result is never answered otherwise, once it is answered as
      finished. */
  lemma CompletedAnswerIs(log: seq<Step>, r: Reads, id: JobId, i: nat)
    requires ValidRun(log) && r.Within(log) && OnlyRetiree(log[..r.n5], id)
    requires i < |Retirements(log[..r.n5])| && Retirements(log[..r.n5])[i].job.id == id
    requires Answer(log, r, id).BuildCompleted? || Answer(log, r, id).BuildFailed?
    ensures var o := Retirements(log[..r.n5])[i].outcome;
            match o
            case Completed(res) => Answer(log, r, id).BuildCompleted? && SameOutputs(Answer(log, r, id).outputs, res.outputs)
            case Failed(_, error) => Answer(log, r, id) == BuildFailed(error)
  {
    hide Exec, ValidRun, Retirements, Answer, OnlyRetiree;
    FinishedMeansRetired(log, r, id);
    PrefixValid(log, r.n5);
    var run := log[..r.n5];
    var o :| Answer(log, r, id) == OutcomeState(o) && RetiredWith(run, id, o);
    var j :| 0 <= j < |Retirements(run)| && Retirements(run)[j].job.id == id && Retirements(run)[j].outcome == o;
    if i < j { RetiresAtMostOnce(run, i, j); }
    if j < i { RetiresAtMostOnce(run, j, i); }
  }

  // --- Which submissions keep polls honest -------------------------------------------------------------

  /** The run pushes only these submissions, each at most once: `from` says which one an id stands for. */
  ghost predicate Submits(log: seq<Step>, specs: seq<JobSpec>, from: map<JobId, nat>) {
    && (forall id :: Pushed(log, id).Some? ==>
          id in from && from[id] < |specs| && Pushed(log, id).value.spec == specs[from[id]])
    && (forall i, j :: i in from && j in from && from[i] == from[j] ==> i == j)
  }

  /** On every run of these submissions, whenever other actors step, every poll that says a job has
      finished reports that job's own outcome. */
  ghost predicate PollsHonest(specs: seq<JobSpec>) {
    forall log, r: Reads, id, from ::
      (&& ValidRun(log) && r.Within(log) && Submits(log, specs, from)
       && (Answer(log, r, id).BuildCompleted? || Answer(log, r, id).BuildFailed?)) ==> ReportsOwn(log, r, id)
  }

  ghost predicate DistinctDrvs(specs: seq<JobSpec>) {
    forall i, j :: 0 <= i < j < |specs| ==> specs[i].drv != specs[j].drv
  }

  lemma DistinctMeansOnly(log: seq<Step>, k: nat, specs: seq<JobSpec>, from: map<JobId, nat>, id: JobId)
    requires ValidRun(log) && k <= |log| && Submits(log, specs, from) && DistinctDrvs(specs)
    ensures OnlyRetiree(log[..k], id)
  {
    var run := log[..k];
    PrefixValid(log, k);
    forall i | && 0 <= i < |Retirements(run)| && Pushed(run, id).Some?
               && Retirements(run)[i].job.spec.drv == Pushed(run, id).value.spec.drv
      ensures Retirements(run)[i].job.id == id
    {
      var other := Retirements(run)[i].job.id;
      RetiredWasPushed(run, i);
      PayloadImmutable(log, k, other);
      PayloadImmutable(log, k, id);
      assert specs[from[other]].drv == specs[from[id]].drv;
    }
  }

  /** Polls are honest on all runs of some submissions exactly when no two of them share a derivation. */
  lemma PollsHonestExactly(specs: seq<JobSpec>)
    ensures PollsHonest(specs) <==> DistinctDrvs(specs)
  {
    hide ValidRun, Exec, Answer, Retirements;
    if DistinctDrvs(specs) {
      forall log, r: Reads, id, from |
        (&& ValidRun(log) && r.Within(log) && Submits(log, specs, from)
         && (Answer(log, r, id).BuildCompleted? || Answer(log, r, id).BuildFailed?))
        ensures ReportsOwn(log, r, id)
      {
        DistinctMeansOnly(log, r.n5, specs, from, id);
        FinishedMeansRetired(log, r, id);
      }
    } else {
      var i, j :| 0 <= i < j < |specs| && specs[i].drv == specs[j].drv;
      var b := Endpoint("builder");
      var log, r := SameDrvMisleadsPoll(specs[i], specs[j], b, "failed");
      assert Submits(log, specs, map[1 := i, 2 := j]);
      LeasedIsNotReported(log, r, 2, b);
      assert Answer(log, r, 2).BuildFailed?;
    }
  }

  lemma LeasedIsNotReported(log: seq<Step>, r: Reads, id: JobId, b: Endpoint)
    requires ValidRun(log) && r.Within(log) && r.n5 == |log| && LeasedTo(Exec(log).leased, id, b)
    ensures !ReportsOwn(log, r, id)
  {
    assert log[..r.n5] == log;
    RunConserves(log, id);
    if ReportsOwn(log, r, id) {
      var o :| Answer(log, r, id) == OutcomeState(o) && RetiredWith(log[..r.n5], id, o);
      var i :| 0 <= i < |Retirements(log)| && Retirements(log)[i].job.id == id;
      CountRetiredPositive(Retirements(log), i);
    }
  }
}
