/** The build queue as an object (iroh-nix/src/build.rs:168-427).  The fields are the source's; the
    ghost `history` records every critical section, and `Valid` says the fields are the state that
    history leads to.  So whatever the other modules prove of every run holds of every queue.

    `OtherActors` stands for what other threads may do while this one holds no lock that matters:
    its contract allows any further valid steps.
 */
module BuildQueues {
  import opened Common
  import opened Queue
  import opened Conservation

  datatype QueueStats = QueueStats(pendingCount: nat, leasedCount: nat, completedCount: nat)

  // --- Helpers ---------------------------------------------------------------------------------------

  lemma FirstMatchIs(pending: seq<Job>, features: seq<string>, i: nat)
    requires i <= |pending|
    requires forall k :: 0 <= k < i ==> !Covers(pending[k].spec.features, features)
    requires i < |pending| ==> Covers(pending[i].spec.features, features)
    ensures FirstMatch(pending, features) == i
  {
  }

  lemma PutBack<K, V>(m: map<K, V>, k: K)
    requires k in m
    ensures (m - {k})[k := m[k]] == m && (m - {k}) + map[k := m[k]] == m && (m - {k}) + map[] == m - {k}
  {
  }

  lemma NothingHeld<K, V>(m: map<K, V>)
    ensures m + map[] == m
  {
  }

  lemma RemoveMore<K, V>(m: map<K, V>, a: set<K>, k: K)
    ensures m - a - {k} == m - (a + {k})
  {
  }

  lemma ReturnedMore(leased: map<JobId, Lease>, order: seq<JobId>, id: JobId)
    requires id in leased
    ensures Returned(leased, order + [id]) == [leased[id].job] + Returned(leased, order)
  {
    assert Front(order + [id]) == order;
  }

  /** build.rs:349-362: `retain` visits the leases in any order; an expired job goes to the front. */
  method RetainFresh(leased0: map<JobId, Lease>, pending0: seq<Job>, now: Time)
      returns (leased: map<JobId, Lease>, pending: seq<Job>, timedOut: seq<JobId>)
    ensures NoDup(timedOut)
    ensures forall id :: id in timedOut <==> id in leased0 && now - leased0[id].lastHeartbeat > JOB_LEASE_TIMEOUT
    ensures leased == leased0 - (set id | id in timedOut)
    ensures pending == Returned(leased0, timedOut) + pending0
  {
    leased, pending, timedOut := leased0, pending0, [];
    var todo := leased.Keys;
    while todo != {}
      invariant todo <= leased0.Keys
      invariant leased == leased0 - (set id | id in timedOut)
      invariant NoDup(timedOut)
      invariant forall id :: id in timedOut <==> id in leased0 && id !in todo && Silent(leased0[id], now)
      invariant pending == Returned(leased0, timedOut) + pending0
      decreases todo
    {
      var id :| id in todo;
      todo := todo - {id};
      if now - leased[id].lastHeartbeat > JOB_LEASE_TIMEOUT {
        ReturnedMore(leased0, timedOut, id);
        assert [leased[id].job] + (Returned(leased0, timedOut) + pending0) == Returned(leased0, timedOut + [id]) + pending0;
        pending := [leased[id].job] + pending;
        RemoveMore(leased0, (set k | k in timedOut), id);
        assert (set k | k in timedOut) + {id} == set k | k in timedOut + [id];
        timedOut := timedOut + [id];
        leased := leased - {id};
      }
    }
  }

  class BuildQueue {
    const ourId: Endpoint
    const drvHash: string -> DrvHash       // BLAKE3 of the derivation path
    var nextJobId: nat
    var pending: seq<Job>
    var leased: map<JobId, Lease>
    var completed: map<DrvHash, Outcome>
    var pendingFetch: seq<BuildResult>
    var neededFeatures: Option<seq<string>>

    // The local variables of the thread that holds the leased lock: the lease it has taken out of the table,
    // and the completion it has not recorded yet.
    var held: map<JobId, Lease>
    var recording: Option<Recording>

    ghost var inFlight: set<JobId>
    ghost var history: seq<Step>

    ghost function View(): State
      reads this
    {
      State(nextJobId, inFlight, pending, leased + held, completed, pendingFetch, recording)
    }

    /** The fields agree with the history. */
    ghost predicate Consistent()
      reads this
    {
      ValidRun(history) && View() == Exec(history)
    }

    /** Consistent, and no thread holds the leased lock. */
    ghost predicate Valid()
      reads this
    {
      Consistent() && recording.None? && held == map[]
    }

    constructor (ourId: Endpoint, drvHash: string -> DrvHash)
      ensures Valid() && history == [] && this.ourId == ourId && this.drvHash == drvHash
    {
      this.ourId := ourId;
      this.drvHash := drvHash;
      nextJobId := 1;
      pending := [];
      leased := map[];
      completed := map[];
      pendingFetch := [];
      neededFeatures := None;
      inFlight := {};
      recording := None;
      held := map[];
      history := [];
    }

    /** Record one step that the fields have just taken. */
    ghost method Took(e: Step)
      requires ValidRun(history) && Enabled(Exec(history), e) && View() == Apply(Exec(history), e)
      modifies this`history
      ensures history == old(history) + [e] && Consistent()
    {
      Extend(history, e);
      history := history + [e];
    }

    /** Anything other threads may do; ids in `mine` belong to this thread's unfinished push. */
    method OtherActors(ghost mine: set<JobId>)
      requires Consistent() && mine <= inFlight
      modifies this
      ensures Consistent() && mine <= inFlight && old(history) <= history
    {
    }

    /** The same, until the leased lock is free: a completion under way is recorded first. */
    method UntilLeasedIsFree()
      requires Consistent()
      modifies this
      ensures Valid() && old(history) <= history
    {
      OtherActors({});
      leased, held := leased + held, map[];
      NothingHeld(leased);
      if recording.Some? {
        RunKeepsKeys(history);
        var id, lease := recording.value.id, leased[recording.value.id];
        completed := completed[lease.job.spec.drv := Outcome.Completed(recording.value.result)];
        leased := leased - {id};
        NothingHeld(leased);
        recording := None;
        Took(RecordComplete);
      }
    }

    /** Anything other threads may do while this thread holds the leased lock. */
    method OthersWithoutLeased()
      requires Consistent()
      modifies this`nextJobId, this`inFlight, this`pending, this`pendingFetch, this`neededFeatures, this`history
      ensures Consistent() && old(history) <= history
      ensures Retirements(history) == old(Retirements(history))
      ensures forall k :: |old(history)| <= k < |history| ==> history[k].TakeId? || history[k].Enqueue? || history[k].TakeFetches?
    {
    }

    /** build.rs:205-246 */
    method Push(drvPath: string, features: seq<string>, outputs: seq<string>, inputs: seq<InputPath>, now: nat)
        returns (id: JobId, announce: bool)
      requires Consistent()
      modifies this
      ensures Consistent() && old(history) < history
      ensures
        var job := Job(id, JobSpec(drvHash(drvPath), drvPath, features, outputs, inputs, now));
        && Last(history) == Enqueue(job)
        && Pushed(history, id) == Some(job) && Pushed(old(history), id) == None
        && pending != [] && Last(pending) == job
      ensures |pending| == 1 ==> announce
      ensures announce ==> neededFeatures == Some(features)
      ensures neededFeatures.Some?
    {
      hide Exec, ValidRun;
      RunKeepsPayloads(history);
      id := nextJobId;
      nextJobId := nextJobId + 1;
      inFlight := inFlight + {id};
      Took(TakeId);

      OtherActors({id});

      announce := Append(Job(id, JobSpec(drvHash(drvPath), drvPath, features, outputs, inputs, now)));
    }

    /** build.rs:229-241: the second half of a push.  An announcement is asked for exactly when the queue was
        empty or no features were known, and only then are the needed features replaced. */
    method Append(job: Job) returns (announce: bool)
      requires Consistent() && job.id in inFlight
      modifies this`pending, this`inFlight, this`neededFeatures, this`history
      ensures Consistent() && history == old(history) + [Enqueue(job)]
      ensures pending == old(pending) + [job] && inFlight == old(inFlight) - {job.id}
      ensures announce <==> old(pending) == [] || old(neededFeatures).None?
      ensures neededFeatures == if announce then Some(job.spec.features) else old(neededFeatures)
    {
      var wasEmpty := pending == [];
      pending := pending + [job];
      inFlight := inFlight - {job.id};
      Took(Enqueue(job));
      if wasEmpty || neededFeatures.None? {
        neededFeatures := Some(job.spec.features);
        announce := true;
      } else {
        announce := false;
      }
    }

    /** build.rs:254-283: lease the first pending job whose features the builder covers. */
    method Pull(builder: Endpoint, features: seq<string>, stamp: Time) returns (r: Option<Job>)
      requires Valid()
      modifies this
      ensures Valid() && history == old(history) + [Step.Pull(builder, features, stamp)]
      ensures r.None? <==> forall k :: 0 <= k < |old(pending)| ==> !Covers(old(pending)[k].spec.features, features)
      ensures r.None? ==> pending == old(pending) && leased == old(leased)
      ensures r.Some? ==>
                exists i :: && 0 <= i < |old(pending)| && old(pending)[i] == r.value
                            && Covers(r.value.spec.features, features)
                            && (forall k :: 0 <= k < i ==> !Covers(old(pending)[k].spec.features, features))
                            && pending == old(pending)[..i] + old(pending)[i + 1..]
      ensures r.Some? ==> leased == old(leased)[r.value.id := Lease(r.value, builder, stamp, stamp, "starting")]
    {
      var i := 0;
      while i < |pending| && !Covers(pending[i].spec.features, features)
        invariant i <= |pending|
        invariant forall k :: 0 <= k < i ==> !Covers(pending[k].spec.features, features)
      {
        i := i + 1;
      }
      FirstMatchIs(pending, features, i);
      NothingHeld(leased);
      if i == |pending| {
        r := None;
      } else {
        var job := pending[i];
        pending := pending[..i] + pending[i + 1..];
        leased := leased[job.id := Lease(job, builder, stamp, stamp, "starting")];
        NothingHeld(leased);
        r := Some(job);
      }
      Took(Step.Pull(builder, features, stamp));
    }

    /** build.rs:286-296 */
    method Heartbeat(id: JobId, builder: Endpoint, status: string, now: Time) returns (ok: bool)
      requires Valid()
      modifies this
      ensures Valid() && history == old(history) + [Step.Heartbeat(id, builder, status, now)]
      ensures ok == LeasedTo(old(leased), id, builder)
      ensures leased == if ok then old(leased)[id := old(leased)[id].(lastHeartbeat := now, status := status)] else old(leased)
    {
      NothingHeld(leased);
      ok := false;
      if id in leased {
        if leased[id].builder == builder {
          leased := leased[id := leased[id].(lastHeartbeat := now, status := status)];
          NothingHeld(leased);
          ok := true;
        }
      }
      Took(Step.Heartbeat(id, builder, status, now));
    }

    /** build.rs:299-321.  Other threads can run between the fetch list and the outcome table. */
    method Complete(id: JobId, builder: Endpoint, result: BuildResult) returns (ok: bool)
      requires Valid()
      modifies this
      ensures Valid() && old(history) < history
      ensures ok == LeasedTo(old(leased), id, builder)
      ensures history[|old(history)|] == StartComplete(id, builder, result)
      ensures forall k :: |old(history)| < k < |history| ==> !history[k].StartComplete?
      ensures !ok ==> history == old(history) + [StartComplete(id, builder, result)] && leased == old(leased)
      ensures ok ==>
                && leased == old(leased) - {id}
                && completed == old(completed)[old(leased)[id].job.spec.drv := Completed(result)]
                && Retirements(history) == old(Retirements(history)) + [Retirement(old(leased)[id].job, builder, Completed(result))]
    {
      hide Exec, ValidRun, Apply, Enabled, Retirements;
      ok := false;
      if id in leased {
        PutBack(leased, id);
        var job := leased[id];
        leased := leased - {id};
        if job.builder == builder {
          held := map[id := job];
          AcceptResult(id, job, result);

          OthersWithoutLeased();

          RecordOutcome(id, job, result);
          ok := true;
        } else {
          leased := leased[id := job];
          Rejected(id, builder, result);
        }
      } else {
        Rejected(id, builder, result);
      }
    }

    /** build.rs:306-310, with the lease taken out of the table. */
    method AcceptResult(id: JobId, job: Lease, result: BuildResult)
      requires ValidRun(history) && View() == Exec(history) && recording.None?
      requires id !in leased && held == map[id := job]
      modifies this`pendingFetch, this`recording, this`history
      ensures Consistent() && history == old(history) + [StartComplete(id, job.builder, result)]
      ensures recording == Some(Recording(id, job.builder, result))
      ensures Retirements(history) == old(Retirements(history))
    {
      pendingFetch := pendingFetch + [result];
      recording := Some(Recording(id, job.builder, result));
      Took(StartComplete(id, job.builder, result));
      assert Retirements(old(history)) + [] == Retirements(old(history));
    }

    /** build.rs:312-314 */
    method RecordOutcome(id: JobId, job: Lease, result: BuildResult)
      requires Consistent() && recording == Some(Recording(id, job.builder, result))
      requires id !in leased && held == map[id := job]
      modifies this`completed, this`recording, this`held, this`history
      ensures Valid() && history == old(history) + [RecordComplete]
      ensures completed == old(completed)[job.job.spec.drv := Completed(result)]
      ensures Retirements(history) == old(Retirements(history)) + [Retirement(job.job, job.builder, Completed(result))]
    {
      NothingHeld(leased);
      assert leased + held - {id} == leased;
      completed := completed[job.job.spec.drv := Outcome.Completed(result)];
      recording := None;
      held := map[];
      Took(RecordComplete);
    }

    ghost method Rejected(id: JobId, builder: Endpoint, result: BuildResult)
      requires Valid() && !LeasedTo(leased, id, builder)
      modifies this`history
      ensures Valid() && history == old(history) + [StartComplete(id, builder, result)]
    {
      NothingHeld(leased);
      Took(StartComplete(id, builder, result));
    }

    /** build.rs:324-339 */
    method Fail(id: JobId, builder: Endpoint, error: string) returns (ok: bool)
      requires Valid()
      modifies this
      ensures Valid() && history == old(history) + [Step.Fail(id, builder, error)]
      ensures ok == LeasedTo(old(leased), id, builder)
      ensures !ok ==> leased == old(leased) && completed == old(completed)
      ensures ok ==>
                && leased == old(leased) - {id}
                && completed == old(completed)[old(leased)[id].job.spec.drv := Failed(builder, error)]
    {
      NothingHeld(leased);
      ok := false;
      if id in leased {
        PutBack(leased, id);
        var job := leased[id];
        leased := leased - {id};
        if job.builder == builder {
          completed := completed[job.job.spec.drv := Failed(builder, error)];
          ok := true;
        } else {
          leased := leased[id := job];
        }
        NothingHeld(leased);
      }
      Took(Step.Fail(id, builder, error));
    }

    /** build.rs:342-365 */
    method CheckTimeouts(now: Time) returns (timedOut: seq<JobId>)
      requires Valid()
      modifies this
      ensures Valid() && history == old(history) + [Sweep(now, timedOut)]
      ensures NoDup(timedOut)
      ensures forall id :: id in timedOut <==> id in old(leased) && now - old(leased)[id].lastHeartbeat > JOB_LEASE_TIMEOUT
      ensures leased == old(leased) - (set id | id in timedOut)
      ensures pending == Returned(old(leased), timedOut) + old(pending)
    {
      hide Exec, ValidRun;
      ghost var before := leased;
      leased, pending, timedOut := RetainFresh(leased, pending, now);
      NothingHeld(before);
      NothingHeld(leased);
      assert Expired(before, now) == set id | id in timedOut;
      Took(Sweep(now, timedOut));
    }

    /** build.rs:397-399 */
    method ListPending() returns (jobs: seq<Job>)
      requires Consistent()
      ensures jobs == pending == Exec(history).pending
    {
      jobs := pending;
    }

    /** build.rs:402-409 */
    method ListLeased() returns (leases: map<JobId, Lease>)
      requires Valid()
      ensures leases == leased == Exec(history).leased
    {
      leases := leased;
    }

    /** build.rs:392-394 */
    method GetOutcome(drv: DrvHash) returns (o: Option<Outcome>)
      requires Consistent()
      ensures o == Latest(Retirements(history), drv) == Lookup(completed, drv)
    {
      OutcomesAreLatest(history, drv);
      o := if drv in completed then Some(completed[drv]) else None;
    }

    /** build.rs:419-422 */
    method TakePendingFetches() returns (results: seq<BuildResult>)
      requires Consistent()
      modifies this
      ensures Consistent() && history == old(history) + [TakeFetches]
      ensures results == old(pendingFetch) && pendingFetch == []
      ensures old(Taken(history)) + results == Accepted(history)
    {
      FetchesConserved(history);
      NothingHeld(leased);
      results := pendingFetch;
      pendingFetch := [];
      Took(TakeFetches);
      FetchesConserved(history);
      assert Taken(history) + [] == Taken(history);
    }

    /** build.rs:383-389: the three counts are read with all three locks held. */
    method Stats() returns (stats: QueueStats)
      requires Valid()
      ensures stats.pendingCount == |pending| && stats.leasedCount == |leased|
      ensures stats.pendingCount + stats.leasedCount + |inFlight| + |Retirements(history)| == nextJobId - 1
      ensures stats.completedCount == |RetiredDrvs(Retirements(history))|
    {
      hide Exec, Retirements;
      RunTallies(history);
      OutcomesAreRetired(history);
      NothingHeld(leased);
      assert |completed.Keys| == |completed|;
      stats := QueueStats(|pending|, |leased|, |completed|);
    }
  }
}
