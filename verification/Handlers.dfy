/** Requests that touch the queue more than once (iroh-nix/src/builder.rs:111-212 and
    iroh-nix/src/control.rs:184-327), with other threads running between their critical sections.
 */
module Handlers {
  import opened Common
  import opened Queue
  import opened Conservation
  import opened Poll
  import opened BuildQueues
  import opened Cancels

  datatype Response = CompleteAck | Error(message: string)

  datatype ControlResponse =
    | BuildSubmitted(jobId: JobId)
    | BuildStatus(status: BuildState)
    | ControlError(message: string)

  /** control.rs:186-222 */
  method SubmitBuild(q: BuildQueue, drvPath: string, system: string, requiredFeatures: seq<string>,
                     outputs: seq<string>, inputs: seq<InputPath>, now: nat)
      returns (r: ControlResponse)
    requires q.Consistent()
    modifies q
    ensures q.Consistent() && old(q.history) < q.history
    ensures r.BuildSubmitted? && Pushed(old(q.history), r.jobId) == None
    ensures Pushed(q.history, r.jobId)
            == Some(Job(r.jobId, JobSpec(q.drvHash(drvPath), drvPath, [system] + requiredFeatures, outputs, inputs, now)))
  {
    var id, announce := q.Push(drvPath, [system] + requiredFeatures, outputs, inputs, now);
    r := BuildSubmitted(id);
  }

  /** control.rs:224-291.  `at` says at which points of the history the five reads happened. */
  method PollBuild(q: BuildQueue, id: JobId) returns (r: ControlResponse, ghost at: Reads)
    requires q.Consistent()
    modifies q
    ensures q.Consistent() && old(q.history) <= q.history
    ensures |old(q.history)| <= at.n1 && at.Within(q.history)
    ensures r == BuildStatus(Answer(q.history, at, id))
  {
    hide Exec, ValidRun, Apply, Enabled;
    q.UntilLeasedIsFree();
    var leased1 := q.ListLeased();
    ghost var h1 := q.history;
    q.OtherActors({});
    var pending2 := q.ListPending();
    ghost var h2 := q.history;
    var drv := SeenDrv(leased1, pending2, id);
    q.UntilLeasedIsFree();
    var leased3 := q.ListLeased();
    ghost var h3 := q.history;
    ghost var h4, h5 := h3, h3;
    if id in leased3 {
      r := BuildStatus(Building(leased3[id].builder));
    } else {
      q.OtherActors({});
      var pending4 := q.ListPending();
      h4 := q.history;
      h5 := h4;
      if FindPending(pending4, id).Some? {
        r := BuildStatus(BuildPending);
      } else {
        r := BuildStatus(BuildPending);
        if drv.Some? {
          q.OtherActors({});
          h5 := q.history;
          var outcome := q.GetOutcome(drv.value);
          if outcome.Some? { r := BuildStatus(OutcomeState(outcome.value)); }
        }
      }
    }
    at := Reads(|h1|, |h2|, |h3|, |h4|, |h5|);
    PrefixSlice(h1, q.history);
    PrefixSlice(h2, q.history);
    PrefixSlice(h3, q.history);
    PrefixSlice(h4, q.history);
    PrefixSlice(h5, q.history);
  }

  lemma PrefixSlice<T>(a: seq<T>, b: seq<T>)
    requires a <= b
    ensures b[..|a|] == a
  {
  }

  /** control.rs:305-325: fail the job in the name of whoever held its lease at the snapshot.  The
      answer says `Failed` whenever the snapshot had a lease, even if the lease has moved since. */
  method CancelBuild(q: BuildQueue, id: JobId) returns (r: ControlResponse, ghost snapshot: nat)
    requires q.Valid()
    modifies q
    ensures q.Valid() && old(q.history) <= q.history && snapshot == |old(q.history)|
    ensures r == BuildStatus(BuildFailed("cancelled")) <==> id in old(q.leased)
    ensures id in old(q.leased) ==>
              && |old(q.history)| < |q.history|
              && Last(q.history) == Fail(id, old(q.leased)[id].builder, "cancelled by build-hook")
              && (!Retired(q.history, id) <==>
                    Missed(q.history, snapshot, |q.history| - 1, id, old(q.leased)[id].builder))
  {
    hide Exec, ValidRun, Retired, Missed;
    var leased := q.ListLeased();
    snapshot := |q.history|;
    ghost var h1 := q.history;
    NothingHeld(q.leased);
    q.UntilLeasedIsFree();
    if id in leased {
      var builder := leased[id].builder;
      var ok := q.Fail(id, builder, "cancelled by build-hook");
      PrefixSlice(h1, q.history);
      assert q.history[..|q.history|] == q.history;
      CancelMissesExactly(q.history, snapshot, |q.history| - 1, id, builder, "cancelled by build-hook");
      r := BuildStatus(BuildFailed("cancelled"));
    } else {
      r := ControlError("not found or not in progress");
    }
  }

  /** The answer "cancelled" does not mean that the job was retired: here the lease moved to another
      builder between the snapshot and the fail, which then has no effect. */
  lemma CancelCanMissALease(spec: JobSpec, b1: Endpoint, b2: Endpoint) returns (log: seq<Step>, snapshot: nat)
    requires b1 != b2
    ensures ValidRun(log) && snapshot <= |log| && LeasedTo(Exec(log[..snapshot]).leased, 1, b1)
    ensures Last(log) == Fail(1, b1, "cancelled by build-hook")
    ensures LeasedTo(Exec(log).leased, 1, b2) && Retirements(log) == []
  {
    hide Exec, ValidRun, Retirements, Apply, Enabled;
    log, snapshot := LeaseTimesOut(spec, b1);
    var before := log[..snapshot];
    TakesFirst(Exec(log), b2, spec.features, JOB_LEASE_TIMEOUT + 1);
    log := Then(log, Pull(b2, spec.features, JOB_LEASE_TIMEOUT + 1));
    FailOfOther(Exec(log), 1, b1, b2);
    log := Then(log, Fail(1, b1, "cancelled by build-hook"));
    assert log[..snapshot] == before;
  }

  lemma FailOfOther(s: State, id: JobId, b1: Endpoint, b2: Endpoint)
    requires s.recording.None? && LeasedTo(s.leased, id, b2) && b1 != b2
    ensures var e := Fail(id, b1, "cancelled by build-hook"); Enabled(s, e) && RetiredBy(s, e) == [] && Apply(s, e) == s
  {
  }

  /** A run in which the only job is leased, seen leased, and then timed out. */
  lemma LeaseTimesOut(spec: JobSpec, b: Endpoint) returns (log: seq<Step>, snapshot: nat)
    ensures ValidRun(log) && Retirements(log) == [] && snapshot <= |log| && LeasedTo(Exec(log[..snapshot]).leased, 1, b)
    ensures Exec(log).pending == [Job(1, spec)] && Exec(log).recording.None?
  {
    hide Exec, ValidRun, Retirements;
    log := Start();
    log := Then(log, TakeId);
    log := Then(log, Enqueue(Job(1, spec)));
    TakesFirst(Exec(log), b, spec.features, 0);
    log := Then(log, Pull(b, spec.features, 0));
    snapshot := |log|;
    var before := log;
    var leased := Exec(log).leased;
    assert leased == map[1 := Lease(Job(1, spec), b, 0, 0, "starting")];
    assert Expired(leased, JOB_LEASE_TIMEOUT + 1) == {1};
    ReturnedMore(leased, [], 1);
    assert [] + [1] == [1];
    log := Then(log, Sweep(JOB_LEASE_TIMEOUT + 1, [1]));
    assert log[..snapshot] == before;
  }

  // --- The completion handler ------------------------------------------------------------------------

  /** builder.rs:148-190: look the job up, then complete it, as two separate critical sections.  The
      completion itself is step `seam` of the history; what comes before it is the doing of others. */
  method HandleComplete(q: BuildQueue, builder: Endpoint, id: JobId, outputs: seq<BuildOutput>, sigR: string, sigS: string)
      returns (r: Response, ghost seam: nat)
    requires q.Valid()
    modifies q
    ensures q.Valid() && old(q.history) <= q.history && |old(q.history)| <= seam <= |q.history|
    ensures id !in old(q.leased) ==> r == Error("job not found") && seam == |q.history|
    ensures id in old(q.leased) ==>
              && seam < |q.history|
              && r == (if LeasedTo(Exec(q.history[..seam]).leased, id, builder) then CompleteAck else Error("failed to complete job"))
    ensures r.Error? ==> Retirements(q.history) == Retirements(q.history[..seam])
    ensures r == CompleteAck ==>
              && Pushed(q.history, id).Some?
              && Retirements(q.history) == Retirements(q.history[..seam])
                 + [Retirement(Pushed(q.history, id).value, builder,
                               Completed(BuildResult(id, Pushed(q.history, id).value.spec.drv, builder, outputs, sigR, sigS)))]
    ensures HandlerRun(q.history[..seam]) ==> HandlerRun(q.history)
  {
    hide Exec, ValidRun, Apply, Enabled, Retirements, Pushed, HandlerRun, FromSnapshot;
    var leased := q.ListLeased();
    ghost var h1 := q.history;
    NothingHeld(q.leased);
    q.UntilLeasedIsFree();
    ghost var h2 := q.history;
    seam := |h2|;
    PrefixSlice(h1, h2);
    if id in leased {
      LiveJobWasPushed(h2, |h1|, id);
      NothingHeld(q.leased);
      LiveJobNow(h2, id);
      var result := BuildResult(id, leased[id].job.spec.drv, builder, outputs, sigR, sigS);
      var ok := q.Complete(id, builder, result);
      PrefixSlice(h1, q.history);
      PrefixSlice(h2, q.history);
      SeenLease(q.history, seam, |h1|);
      HandlerExtends(q.history, seam);
      if ok {
        LastRetirementWasPushed(q.history);
        r := CompleteAck;
      } else {
        RejectedRetiresNothing(q.history);
        r := Error("failed to complete job");
      }
    } else {
      PrefixSlice(h2, q.history);
      r := Error("job not found");
    }
  }

  lemma RejectedRetiresNothing(log: seq<Step>)
    requires log != [] && Last(log).StartComplete?
    ensures Retirements(log) == Retirements(log[..|log| - 1])
  {
    assert Retirements(Front(log)) + [] == Retirements(Front(log));
  }

  /** A completion built from a lease seen at position m. */
  lemma SeenLease(log: seq<Step>, k: nat, m: nat)
    requires m <= k < |log| && log[k].StartComplete? && log[k].id in Exec(log[..m]).leased
    requires log[k].result.jobId == log[k].id && log[k].result.builder == log[k].builder
    requires log[k].result.drv == Exec(log[..m]).leased[log[k].id].job.spec.drv
    ensures FromSnapshot(log, k)
  {
  }

  lemma HandlerExtends(log: seq<Step>, seam: nat)
    requires seam < |log| && log[seam].StartComplete? && FromSnapshot(log, seam)
    requires forall k :: seam < k < |log| ==> !log[k].StartComplete?
    ensures HandlerRun(log[..seam]) ==> HandlerRun(log)
  {
    if HandlerRun(log[..seam]) {
      forall k | 0 <= k < |log| && log[k].StartComplete? ensures FromSnapshot(log, k) {
        if k < seam {
          var front, e := log[..seam], log[k];
          assert FromSnapshot(front, k);
          var m :| 0 <= m <= k && e.id in Exec(front[..m]).leased && e.result.drv == Exec(front[..m]).leased[e.id].job.spec.drv;
          assert front[..m] == log[..m];
        }
      }
    }
  }

  lemma LiveJobNow(log: seq<Step>, id: JobId)
    requires ValidRun(log)
    ensures id in Exec(log).leased ==> Pushed(log, id) == Some(Exec(log).leased[id].job) && Exec(log).leased[id].job.id == id
  {
    RunKeepsPayloads(log);
    RunKeepsKeys(log);
  }

  lemma LastRetirementWasPushed(log: seq<Step>)
    requires ValidRun(log) && Retirements(log) != []
    ensures Pushed(log, Last(Retirements(log)).job.id) == Some(Last(Retirements(log)).job)
  {
    RetiredWasPushed(log, |Retirements(log)| - 1);
  }

  /** A result that names its own job, that job's derivation, and the reporting builder. */
  ghost predicate OwnResult(log: seq<Step>, r: BuildResult, id: JobId, b: Endpoint) {
    r.jobId == id && r.builder == b && Pushed(log, id).Some? && r.drv == Pushed(log, id).value.spec.drv
  }

  /** The completion at `k` was built by the handler from a lease seen at some earlier point. */
  ghost predicate FromSnapshot(log: seq<Step>, k: nat)
    requires k < |log| && log[k].StartComplete?
  {
    var e := log[k];
    && e.result.jobId == e.id && e.result.builder == e.builder
    && exists m :: 0 <= m <= k && e.id in Exec(log[..m]).leased && e.result.drv == Exec(log[..m]).leased[e.id].job.spec.drv
  }

  ghost predicate HandlerRun(log: seq<Step>) {
    forall k :: 0 <= k < |log| && log[k].StartComplete? ==> FromSnapshot(log, k)
  }

  lemma SnapshotResultIsOwn(log: seq<Step>)
    requires ValidRun(log) && log != [] && Last(log).StartComplete? && FromSnapshot(log, |log| - 1)
    ensures OwnResult(log, Last(log).result, Last(log).id, Last(log).builder)
  {
    var e, k := Last(log), |log| - 1;
    var m :| 0 <= m <= k && e.id in Exec(log[..m]).leased && e.result.drv == Exec(log[..m]).leased[e.id].job.spec.drv;
    LiveJobWasPushed(log, m, e.id);
  }

  lemma HandlerFront(log: seq<Step>)
    requires HandlerRun(log) && log != []
    ensures HandlerRun(Front(log))
  {
    var front := Front(log);
    forall k | 0 <= k < |front| && front[k].StartComplete? ensures FromSnapshot(front, k) {
      assert FromSnapshot(log, k);
      var e := log[k];
      var m :| 0 <= m <= k && e.id in Exec(log[..m]).leased && e.result.drv == Exec(log[..m]).leased[e.id].job.spec.drv;
      assert front[..m] == log[..m];
    }
  }

  lemma OwnResultStays(log: seq<Step>, r: BuildResult, id: JobId, b: Endpoint)
    requires ValidRun(log) && log != [] && OwnResult(Front(log), r, id, b)
    ensures OwnResult(log, r, id, b)
  {
    PayloadImmutable(log, |log| - 1, id);
  }

  /** The completion being recorded carries its own job's derivation and the holder of the lease. */
  lemma {:induction false} RecordingIsOwn(log: seq<Step>)
    requires ValidRun(log) && HandlerRun(log) && Exec(log).recording.Some?
    ensures
      var rec := Exec(log).recording.value;
      OwnResult(log, rec.result, rec.id, rec.builder)
  {
    var s := Exec(Front(log));
    if s.recording.Some? {
      HandlerFront(log);
      RecordingIsOwn(Front(log));
      OwnResultStays(log, s.recording.value.result, s.recording.value.id, s.recording.value.builder);
    } else {
      SnapshotResultIsOwn(log);
    }
  }

  /** On every run whose completions come from the handler, each successful retirement carries the
      job's own derivation hash and names the builder that held the lease at that moment. */
  lemma {:induction false} CompletionsAreOwn(log: seq<Step>, i: nat)
    requires ValidRun(log) && HandlerRun(log) && i < |Retirements(log)| && Retirements(log)[i].outcome.Completed?
    ensures
      var r := Retirements(log)[i];
      OwnResult(log, r.outcome.result, r.job.id, r.builder) && r.outcome.result.drv == r.job.spec.drv
  {
    var front := Front(log);
    HandlerFront(log);
    RetiredWasPushed(log, i);
    var r := Retirements(log)[i];
    if i < |Retirements(front)| {
      CompletionsAreOwn(front, i);
      OwnResultStays(log, r.outcome.result, r.job.id, r.builder);
    } else {
      RunKeepsKeys(front);
      RecordingIsOwn(front);
      OwnResultStays(log, r.outcome.result, r.job.id, r.builder);
    }
  }

  /** Every completed entry of the outcome table is filed under its own derivation. */
  lemma OutcomesFiledUnderOwnDrv(log: seq<Step>, drv: DrvHash)
    requires ValidRun(log) && HandlerRun(log) && drv in Exec(log).completed && Exec(log).completed[drv].Completed?
    ensures Exec(log).completed[drv].result.drv == drv
  {
    OutcomesAreLatest(log, drv);
    var i := LatestIsRetirement(Retirements(log), drv);
    CompletionsAreOwn(log, i);
  }
}
