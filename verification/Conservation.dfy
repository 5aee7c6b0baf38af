/** Job conservation on every run of the build queue: an id that was issued is in exactly one place,
    its payload never changes, it retires at most once and through its lease holder, and the fetch
    list and the outcome table are what the history says they are.
 */
module Conservation {
  import opened Common
  import opened Queue

  // --- Counting occurrences of an id --------------------------------------------------------------

  ghost function CountJob(jobs: seq<Job>, id: JobId): nat {
    if jobs == [] then 0 else (if jobs[0].id == id then 1 else 0) + CountJob(jobs[1..], id)
  }

  lemma {:induction false} CountJobAppend(a: seq<Job>, b: seq<Job>, id: JobId)
    ensures CountJob(a + b, id) == CountJob(a, id) + CountJob(b, id)
  {
    if a == [] {
      assert a + b == b;
    } else {
      assert (a + b)[1..] == a[1..] + b;
      CountJobAppend(a[1..], b, id);
    }
  }

  lemma CountJobWithout(jobs: seq<Job>, i: nat, id: JobId)
    requires i < |jobs|
    ensures CountJob(jobs, id) == CountJob(Without(jobs, i), id) + (if jobs[i].id == id then 1 else 0)
  {
    assert jobs == jobs[..i] + ([jobs[i]] + jobs[i + 1..]);
    CountJobAppend(jobs[..i], [jobs[i]] + jobs[i + 1..], id);
    CountJobAppend([jobs[i]], jobs[i + 1..], id);
    CountJobAppend(jobs[..i], jobs[i + 1..], id);
  }

  lemma {:induction false} CountJobPositive(jobs: seq<Job>, i: nat)
    requires i < |jobs|
    ensures CountJob(jobs, jobs[i].id) > 0
  {
    if i > 0 { CountJobPositive(jobs[1..], i - 1); }
  }

  lemma {:induction false} CountJobMember(jobs: seq<Job>, id: JobId) returns (i: nat)
    requires CountJob(jobs, id) > 0
    ensures i < |jobs| && jobs[i].id == id
  {
    if jobs[0].id == id {
      i := 0;
    } else {
      i := CountJobMember(jobs[1..], id);
      i := i + 1;
    }
  }

  /** An id that is counted once sits at one position only. */
  lemma CountJobOnce(jobs: seq<Job>, i: nat, j: nat)
    requires i < j < |jobs| && jobs[i].id == jobs[j].id
    ensures CountJob(jobs, jobs[i].id) > 1
  {
    assert jobs == jobs[..j] + jobs[j..];
    CountJobAppend(jobs[..j], jobs[j..], jobs[i].id);
    CountJobPositive(jobs[..j], i);
    CountJobPositive(jobs[j..], 0);
  }

  ghost function CountRetired(rs: seq<Retirement>, id: JobId): nat {
    if rs == [] then 0 else CountRetired(Front(rs), id) + (if Last(rs).job.id == id then 1 else 0)
  }

  lemma CountRetiredAppend(rs: seq<Retirement>, r: Retirement, id: JobId)
    ensures CountRetired(rs + [r], id) == CountRetired(rs, id) + (if r.job.id == id then 1 else 0)
  {
    assert Front(rs + [r]) == rs;
  }

  lemma {:induction false} CountRetiredPositive(rs: seq<Retirement>, i: nat)
    requires i < |rs|
    ensures CountRetired(rs, rs[i].job.id) > 0
  {
    if i < |rs| - 1 { CountRetiredPositive(Front(rs), i); }
  }

  lemma {:induction false} CountRetiredMember(rs: seq<Retirement>, id: JobId) returns (i: nat)
    requires CountRetired(rs, id) > 0
    ensures i < |rs| && rs[i].job.id == id
  {
    if Last(rs).job.id == id {
      i := |rs| - 1;
    } else {
      i := CountRetiredMember(Front(rs), id);
    }
  }

  // --- The lease table is keyed by job id -----------------------------------------------------------

  ghost predicate LeaseKeyed(s: State) {
    && s.nextId >= 1
    && (forall id :: id in s.leased ==> s.leased[id].job.id == id)
    && (s.recording.Some? ==> LeasedTo(s.leased, s.recording.value.id, s.recording.value.builder))
  }

  lemma StepKeepsKeys(s: State, e: Step)
    requires LeaseKeyed(s) && Enabled(s, e)
    ensures LeaseKeyed(Apply(s, e))
  {
  }

  lemma {:induction false} RunKeepsKeys(log: seq<Step>)
    requires ValidRun(log)
    ensures LeaseKeyed(Exec(log))
  {
    if log != [] {
      RunKeepsKeys(Front(log));
      StepKeepsKeys(Exec(Front(log)), Last(log));
    }
  }

  // --- Conservation ---------------------------------------------------------------------------------

  /** How many places hold the id: in flight, pending, leased, retired. */
  ghost function Places(s: State, retired: seq<Retirement>, id: JobId): nat {
    (if id in s.inFlight then 1 else 0) + CountJob(s.pending, id) +
    (if id in s.leased then 1 else 0) + CountRetired(retired, id)
  }

  ghost predicate Issued(s: State, id: JobId) { 1 <= id < s.nextId }

  ghost predicate InOnePlace(s: State, retired: seq<Retirement>, id: JobId) {
    Places(s, retired, id) == if Issued(s, id) then 1 else 0
  }

  lemma {:induction false} CountReturned(leased: map<JobId, Lease>, order: seq<JobId>, id: JobId)
    requires forall k :: k in leased ==> leased[k].job.id == k
    requires NoDup(order) && forall k :: k in order ==> k in leased
    ensures CountJob(Returned(leased, order), id) == if id in order then 1 else 0
  {
    if order != [] {
      var front := Front(order);
      CountReturned(leased, front, id);
      assert order == front + [Last(order)];
      CountJobAppend([leased[Last(order)].job], Returned(leased, front), id);
      assert Last(order) !in front;
    }
  }

  /** The job that timed out last is first in the queue. */
  lemma {:induction false} ReturnedAt(leased: map<JobId, Lease>, order: seq<JobId>, k: nat)
    requires (forall id :: id in order ==> id in leased) && k < |order|
    ensures |Returned(leased, order)| == |order|
    ensures Returned(leased, order)[k] == leased[order[|order| - 1 - k]].job
  {
    var front := Front(order);
    assert order == front + [Last(order)];
    if front == [] {
      assert Returned(leased, front) == [];
    } else {
      ReturnedAt(leased, front, if k > 0 then k - 1 else 0);
    }
  }

  lemma SweepConserves(s: State, now: Time, order: seq<JobId>, retired: seq<Retirement>, id: JobId)
    requires LeaseKeyed(s) && Enabled(s, Sweep(now, order)) && InOnePlace(s, retired, id)
    ensures InOnePlace(Apply(s, Sweep(now, order)), retired, id)
  {
    CountReturned(s.leased, order, id);
    CountJobAppend(Returned(s.leased, order), s.pending, id);
  }

  lemma PullConserves(s: State, b: Endpoint, f: seq<string>, stamp: Time, retired: seq<Retirement>, id: JobId)
    requires InOnePlace(s, retired, id)
    ensures InOnePlace(PullState(s, b, f, stamp), retired, id)
  {
    var i := FirstMatch(s.pending, f);
    if i < |s.pending| { CountJobWithout(s.pending, i, id); }
  }

  lemma RetireConserves(s: State, key: JobId, outcome: Outcome, b: Endpoint, retired: seq<Retirement>, id: JobId)
    requires LeaseKeyed(s) && key in s.leased && InOnePlace(s, retired, id)
    ensures InOnePlace(RetireState(s, key, outcome), retired + [Retirement(s.leased[key].job, b, outcome)], id)
  {
    CountRetiredAppend(retired, Retirement(s.leased[key].job, b, outcome), id);
  }

  lemma StepConserves(s: State, e: Step, retired: seq<Retirement>, id: JobId)
    requires LeaseKeyed(s) && Enabled(s, e) && InOnePlace(s, retired, id)
    ensures InOnePlace(Apply(s, e), retired + RetiredBy(s, e), id)
  {
    assert retired + [] == retired;
    match e
    case Enqueue(job) => CountJobAppend(s.pending, [job], id);
    case Pull(b, f, stamp) => PullConserves(s, b, f, stamp, retired, id);
    case RecordComplete =>
      var r := s.recording.value;
      RetireConserves(s, r.id, Completed(r.result), r.builder, retired, id);
    case Fail(k, b, error) =>
      if LeasedTo(s.leased, k, b) { RetireConserves(s, k, Failed(b, error), b, retired, id); }
    case Sweep(now, order) => SweepConserves(s, now, order, retired, id);
    case _ =>
  }

  /** On every run, an id is in exactly one place once issued, and nowhere before. */
  lemma {:induction false} RunConserves(log: seq<Step>, id: JobId)
    requires ValidRun(log)
    ensures InOnePlace(Exec(log), Retirements(log), id)
  {
    if log != [] {
      RunConserves(Front(log), id);
      RunKeepsKeys(Front(log));
      StepConserves(Exec(Front(log)), Last(log), Retirements(Front(log)), id);
    }
  }

  /** At most one retirement per id, ever. */
  lemma RetiresAtMostOnce(log: seq<Step>, i: nat, j: nat)
    requires ValidRun(log) && i < j < |Retirements(log)|
    ensures Retirements(log)[i].job.id != Retirements(log)[j].job.id
  {
    var rs := Retirements(log);
    if rs[i].job.id == rs[j].job.id {
      RunConserves(log, rs[i].job.id);
      CountRetiredTwice(rs, i, j);
    }
  }

  lemma {:induction false} CountRetiredTwice(rs: seq<Retirement>, i: nat, j: nat)
    requires i < j < |rs| && rs[i].job.id == rs[j].job.id
    ensures CountRetired(rs, rs[i].job.id) > 1
  {
    if j == |rs| - 1 {
      CountRetiredPositive(Front(rs), i);
    } else {
      CountRetiredTwice(Front(rs), i, j);
    }
  }

  // --- Payloads -------------------------------------------------------------------------------------

  /** Every live job is the one that was pushed under its id; ids without a push have none yet. */
  ghost predicate PayloadsKept(s: State, log: seq<Step>) {
    && (forall i :: 0 <= i < |s.pending| ==> Pushed(log, s.pending[i].id) == Some(s.pending[i]))
    && (forall id :: id in s.leased ==> Pushed(log, id) == Some(s.leased[id].job))
    && (forall id :: id in s.inFlight ==> Pushed(log, id) == None && id < s.nextId)
    && (forall id :: id >= s.nextId ==> Pushed(log, id) == None)
  }

  lemma {:induction false} ReturnedFrom(leased: map<JobId, Lease>, order: seq<JobId>, k: nat) returns (id: JobId)
    requires k < |Returned(leased, order)|
    ensures id in order && id in leased && Returned(leased, order)[k] == leased[id].job
  {
    var here := if Last(order) in leased then 1 else 0;
    if k < here {
      id := Last(order);
    } else {
      id := ReturnedFrom(leased, Front(order), k - here);
    }
  }

  lemma PushedAfter(log: seq<Step>, e: Step, id: JobId)
    ensures Pushed(log + [e], id) == if e.Enqueue? && e.job.id == id then Some(e.job) else Pushed(log, id)
  {
    assert Front(log + [e]) == log;
  }

  lemma QuietStepKeepsPayloads(s: State, e: Step, log: seq<Step>)
    requires LeaseKeyed(s) && Enabled(s, e) && PayloadsKept(s, log) && !e.Enqueue?
    ensures PayloadsKept(Apply(s, e), log)
  {
    if e.Sweep? {
      var returned := Returned(s.leased, e.order);
      forall i | 0 <= i < |returned| ensures Pushed(log, returned[i].id) == Some(returned[i])
      {
        var id := ReturnedFrom(s.leased, e.order, i);
      }
    }
  }

  lemma StepKeepsPayloads(s: State, e: Step, log: seq<Step>)
    requires LeaseKeyed(s) && Enabled(s, e) && PayloadsKept(s, log)
    ensures PayloadsKept(Apply(s, e), log + [e])
  {
    forall id ensures Pushed(log + [e], id) == if e.Enqueue? && e.job.id == id then Some(e.job) else Pushed(log, id) {
      PushedAfter(log, e, id);
    }
    if !e.Enqueue? {
      hide Apply;
      QuietStepKeepsPayloads(s, e, log);
    }
  }

  lemma {:induction false} RunKeepsPayloads(log: seq<Step>)
    requires ValidRun(log)
    ensures PayloadsKept(Exec(log), log)
  {
    if log != [] {
      RunKeepsKeys(Front(log));
      RunKeepsPayloads(Front(log));
      StepKeepsPayloads(Exec(Front(log)), Last(log), Front(log));
      assert log == Front(log) + [Last(log)];
    }
  }

  /** A pushed payload is never replaced by a later step. */
  lemma {:induction false} PayloadImmutable(log: seq<Step>, k: nat, id: JobId)
    requires ValidRun(log) && k <= |log| && Pushed(log[..k], id).Some?
    ensures Pushed(log, id) == Pushed(log[..k], id)
  {
    if k < |log| {
      assert Front(log)[..k] == log[..k];
      PayloadImmutable(Front(log), k, id);
      RunKeepsPayloads(Front(log));
    } else {
      assert log[..k] == log;
    }
  }

  /** Every retirement is of a pushed job. */
  lemma {:induction false} RetiredWasPushed(log: seq<Step>, i: nat)
    requires ValidRun(log) && i < |Retirements(log)|
    ensures Pushed(log, Retirements(log)[i].job.id) == Some(Retirements(log)[i].job)
  {
    var front := Front(log);
    RunKeepsPayloads(front);
    RunKeepsKeys(front);
    if i < |Retirements(front)| {
      RetiredWasPushed(front, i);
    }
  }

  // --- Who may retire a job -----------------------------------------------------------------------

  /** A step retires a job only if it is currently leased, and then through the lease's own builder;
      a completion was started by that builder with that result. */
  lemma RetiredByHolder(log: seq<Step>, k: nat)
    requires ValidRun(log) && k < |log| && RetiredBy(Exec(log[..k]), log[k]) != []
    ensures
      var s := Exec(log[..k]);
      var r := RetiredBy(s, log[k])[0];
      && RetiredBy(s, log[k]) == [r]
      && LeasedTo(s.leased, r.job.id, r.builder) && s.leased[r.job.id].job == r.job
      && r.job.id !in Exec(log[..k + 1]).leased
      && (r.outcome.Failed? ==> log[k] == Fail(r.job.id, r.builder, r.outcome.error) && r.outcome.builder == r.builder)
      && (r.outcome.Completed? ==> s.recording == Some(Recording(r.job.id, r.builder, r.outcome.result)))
  {
    PrefixStep(log, k);
    RunKeepsKeys(log[..k]);
  }

  // --- The fetch list -----------------------------------------------------------------------------

  /** What was taken, then what still waits, is what was accepted, in order. */
  lemma {:induction false} FetchesConserved(log: seq<Step>)
    requires ValidRun(log)
    ensures Taken(log) + Exec(log).fetches == Accepted(log)
  {
    if log != [] {
      FetchesConserved(Front(log));
      var s := Exec(Front(log));
      var t := Taken(Front(log));
      assert t + [] == t;
      if Last(log).StartComplete? && LeasedTo(s.leased, Last(log).id, Last(log).builder) {
        assert t + (s.fetches + [Last(log).result]) == (t + s.fetches) + [Last(log).result];
      } else if Last(log).TakeFetches? {
        assert (t + s.fetches) + [] == t + s.fetches;
      }
      assert Accepted(Front(log)) + [] == Accepted(Front(log));
    }
  }

  ghost function CompletedResults(rs: seq<Retirement>): seq<BuildResult> {
    if rs == [] then []
    else CompletedResults(Front(rs)) + (if Last(rs).outcome.Completed? then [Last(rs).outcome.result] else [])
  }

  lemma CompletedResultsAppend(rs: seq<Retirement>, r: Retirement)
    ensures CompletedResults(rs + [r]) == CompletedResults(rs) + if r.outcome.Completed? then [r.outcome.result] else []
  {
    assert Front(rs + [r]) == rs;
  }

  ghost function BeingRecorded(s: State): seq<BuildResult> {
    if s.recording.Some? then [s.recording.value.result] else []
  }

  lemma StepRecords(s: State, e: Step, rs: seq<Retirement>)
    requires LeaseKeyed(s) && Enabled(s, e)
    ensures CompletedResults(rs) + BeingRecorded(s) + AcceptedBy(s, e)
            == CompletedResults(rs + RetiredBy(s, e)) + BeingRecorded(Apply(s, e))
  {
    if RetiredBy(s, e) == [] {
      assert rs + [] == rs;
    } else {
      CompletedResultsAppend(rs, RetiredBy(s, e)[0]);
    }
  }

  /** The accepted results are those of the successful retirements, plus the one being recorded. */
  lemma {:induction false} AcceptedAreRetired(log: seq<Step>)
    requires ValidRun(log)
    ensures Accepted(log) == CompletedResults(Retirements(log)) + BeingRecorded(Exec(log))
  {
    hide Apply, Enabled, RetiredBy, AcceptedBy, BeingRecorded;
    if log == [] {
      NothingRecorded();
    } else {
      AcceptedAreRetired(Front(log));
      RunKeepsKeys(Front(log));
      StepRecords(Exec(Front(log)), Last(log), Retirements(Front(log)));
    }
  }

  lemma NothingRecorded()
    ensures BeingRecorded(INIT) == []
  {
  }

  // --- The outcome table -----------------------------------------------------------------------------

  /** The outcome of the latest retirement of a derivation. */
  ghost function Latest(rs: seq<Retirement>, drv: DrvHash): Option<Outcome> {
    if rs == [] then None
    else if Last(rs).job.spec.drv == drv then Some(Last(rs).outcome)
    else Latest(Front(rs), drv)
  }

  ghost function Lookup<K, V>(m: map<K, V>, k: K): Option<V> { if k in m then Some(m[k]) else None }

  lemma LatestAppend(rs: seq<Retirement>, r: Retirement, drv: DrvHash)
    ensures Latest(rs + [r], drv) == if r.job.spec.drv == drv then Some(r.outcome) else Latest(rs, drv)
  {
    assert Front(rs + [r]) == rs;
  }

  lemma StepUpdatesOutcome(s: State, e: Step, rs: seq<Retirement>, drv: DrvHash)
    requires Lookup(s.completed, drv) == Latest(rs, drv)
    ensures Lookup(Apply(s, e).completed, drv) == Latest(rs + RetiredBy(s, e), drv)
  {
    if RetiredBy(s, e) == [] {
      assert rs + [] == rs;
    } else {
      LatestAppend(rs, RetiredBy(s, e)[0], drv);
    }
  }

  lemma {:induction false} OutcomesAreLatest(log: seq<Step>, drv: DrvHash)
    requires ValidRun(log)
    ensures Lookup(Exec(log).completed, drv) == Latest(Retirements(log), drv)
  {
    hide Apply, Enabled, RetiredBy;
    if log != [] {
      OutcomesAreLatest(Front(log), drv);
      StepUpdatesOutcome(Exec(Front(log)), Last(log), Retirements(Front(log)), drv);
    }
  }

  // --- The same in numbers -----------------------------------------------------------------------------

  /** How many jobs the queue has issued and where they are. */
  ghost predicate Tallied(s: State, retired: nat) {
    |s.pending| + |s.leased| + |s.inFlight| + retired == s.nextId - 1
  }

  lemma RemoveKeysSize<K, V>(m: map<K, V>, ks: set<K>)
    requires ks <= m.Keys
    ensures |m - ks| == |m| - |ks|
  {
    assert (m - ks).Keys == m.Keys - ks;
    assert |m.Keys| == |m| && |(m - ks).Keys| == |m - ks|;
  }

  lemma {:induction false} ListSize<T>(s: seq<T>, S: set<T>)
    requires NoDup(s) && forall x :: x in s <==> x in S
    ensures |s| == |S|
  {
    if s == [] {
      assert S == {};
    } else {
      var front, last := Front(s), Last(s);
      assert s == front + [last] && last !in front;
      ListSize(front, S - {last});
    }
  }

  lemma {:induction false} ReturnedSize(leased: map<JobId, Lease>, order: seq<JobId>)
    requires forall k :: k in order ==> k in leased
    ensures |Returned(leased, order)| == |order|
  {
    if order != [] {
      assert order == Front(order) + [Last(order)];
      ReturnedSize(leased, Front(order));
    }
  }

  lemma SweepTallies(s: State, now: Time, order: seq<JobId>, retired: nat)
    requires SweepOrder(s.leased, now, order) && Tallied(s, retired)
    ensures Tallied(Apply(s, Sweep(now, order)), retired)
  {
    var gone := Expired(s.leased, now);
    ListSize(order, gone);
    ReturnedSize(s.leased, order);
    RemoveKeysSize(s.leased, gone);
  }

  lemma RetireTallies(s: State, id: JobId, outcome: Outcome, retired: nat)
    requires id in s.leased && Tallied(s, retired)
    ensures Tallied(RetireState(s, id, outcome), retired + 1)
  {
    RemoveKeysSize(s.leased, {id});
  }

  lemma AddKeySize<K, V>(m: map<K, V>, k: K, v: V)
    ensures |m[k := v]| == if k in m then |m| else |m| + 1
  {
    assert m[k := v].Keys == m.Keys + {k};
    assert |m.Keys| == |m| && |m[k := v].Keys| == |m[k := v]|;
  }

  lemma PullTallies(s: State, b: Endpoint, f: seq<string>, stamp: Time, rs: seq<Retirement>, retired: nat)
    requires Tallied(s, retired) && forall id :: InOnePlace(s, rs, id)
    ensures Tallied(PullState(s, b, f, stamp), retired)
  {
    var i := FirstMatch(s.pending, f);
    if i < |s.pending| {
      var id := s.pending[i].id;
      CountJobPositive(s.pending, i);
      assert InOnePlace(s, rs, id);
      AddKeySize(s.leased, id, Lease(s.pending[i], b, stamp, stamp, "starting"));
    }
  }

  lemma QuietTallies(s: State, e: Step, retired: nat)
    requires Enabled(s, e) && Tallied(s, retired) && s.nextId !in s.inFlight
    requires e.TakeId? || e.Enqueue? || e.StartComplete? || e.TakeFetches?
    ensures Tallied(Apply(s, e), retired)
  {
  }

  lemma HeartbeatTallies(s: State, id: JobId, b: Endpoint, status: string, now: Time, retired: nat)
    requires Tallied(s, retired)
    ensures Tallied(Apply(s, Heartbeat(id, b, status, now)), retired)
  {
    if LeasedTo(s.leased, id, b) { AddKeySize(s.leased, id, s.leased[id].(lastHeartbeat := now, status := status)); }
  }

  lemma StepTallies(s: State, e: Step, rs: seq<Retirement>)
    requires LeaseKeyed(s) && Enabled(s, e) && Tallied(s, |rs|) && forall id :: InOnePlace(s, rs, id)
    ensures Tallied(Apply(s, e), |rs + RetiredBy(s, e)|)
  {
    hide InOnePlace, Tallied, RetireState, PullState, SweepOrder;
    match e
    case Pull(b, f, stamp) => PullTallies(s, b, f, stamp, rs, |rs|);
    case Heartbeat(id, b, status, now) => HeartbeatTallies(s, id, b, status, now, |rs|);
    case RecordComplete => RecordTallies(s, |rs|);
    case Fail(id, b, error) => if LeasedTo(s.leased, id, b) { RetireTallies(s, id, Failed(b, error), |rs|); }
    case Sweep(now, order) => SweepTallies(s, now, order, |rs|);
    case _ =>
      FreshId(s, rs);
      QuietTallies(s, e, |rs|);
  }

  lemma RecordTallies(s: State, retired: nat)
    requires LeaseKeyed(s) && s.recording.Some? && Tallied(s, retired)
    ensures Tallied(Apply(s, RecordComplete), retired + 1)
  {
    RetireTallies(s, s.recording.value.id, Completed(s.recording.value.result), retired);
  }

  lemma FreshId(s: State, rs: seq<Retirement>)
    requires forall id :: InOnePlace(s, rs, id)
    ensures s.nextId !in s.inFlight
  {
    assert InOnePlace(s, rs, s.nextId);
  }

  /** On every run: jobs pending, leased, retired or still being pushed add up to the ids issued. */
  lemma {:induction false} RunTallies(log: seq<Step>)
    requires ValidRun(log)
    ensures Tallied(Exec(log), |Retirements(log)|)
  {
    if log != [] {
      hide Apply, Enabled, InOnePlace, RetiredBy;
      var front := Front(log);
      RunTallies(front);
      RunKeepsKeys(front);
      forall id ensures InOnePlace(Exec(front), Retirements(front), id) { RunConserves(front, id); }
      StepTallies(Exec(front), Last(log), Retirements(front));
    } else {
      assert Exec(log) == INIT;
    }
  }

  /** The derivations that have been retired at least once. */
  ghost function RetiredDrvs(rs: seq<Retirement>): set<DrvHash> { set i | 0 <= i < |rs| :: rs[i].job.spec.drv }

  lemma {:induction false} LatestExactly(rs: seq<Retirement>, drv: DrvHash)
    ensures Latest(rs, drv).Some? <==> drv in RetiredDrvs(rs)
  {
    if rs != [] {
      LatestExactly(Front(rs), drv);
      assert rs == Front(rs) + [Last(rs)];
      assert rs[|rs| - 1].job.spec.drv in RetiredDrvs(rs);
      if drv in RetiredDrvs(Front(rs)) {
        var i :| 0 <= i < |Front(rs)| && Front(rs)[i].job.spec.drv == drv;
        assert rs[i].job.spec.drv in RetiredDrvs(rs);
      }
      if drv in RetiredDrvs(rs) && Last(rs).job.spec.drv != drv {
        var i :| 0 <= i < |rs| && rs[i].job.spec.drv == drv;
        assert Front(rs)[i].job.spec.drv in RetiredDrvs(Front(rs));
      }
    }
  }

  /** The outcome table has one entry per derivation that was ever retired. */
  lemma OutcomesAreRetired(log: seq<Step>)
    requires ValidRun(log)
    ensures Exec(log).completed.Keys == RetiredDrvs(Retirements(log))
  {
    forall drv ensures drv in Exec(log).completed <==> drv in RetiredDrvs(Retirements(log)) {
      OutcomesAreLatest(log, drv);
      LatestExactly(Retirements(log), drv);
    }
  }

  // --- The 64-bit counter ----------------------------------------------------------------------------------

  const COUNTER: nat := 0x1_0000_0000_0000_0000

  ghost function IdsTaken(log: seq<Step>): nat {
    if log == [] then 0 else IdsTaken(Front(log)) + if Last(log).TakeId? then 1 else 0
  }

  /** The id counter as 64 bits that wrap around. */
  ghost function WrappedNext(log: seq<Step>): nat {
    if log == [] then 1 else if Last(log).TakeId? then (WrappedNext(Front(log)) + 1) % COUNTER else WrappedNext(Front(log))
  }

  /** The unbounded ids of the model are the 64-bit ones exactly while fewer than 2^64 - 1 have been taken. */
  lemma CounterExact(log: seq<Step>)
    requires ValidRun(log)
    ensures WrappedNext(log) == Exec(log).nextId <==> IdsTaken(log) < COUNTER - 1
  {
    hide Exec, ValidRun, WrappedNext, IdsTaken;
    CounterWraps(log);
    SmallRemainder(Exec(log).nextId);
  }

  lemma SmallRemainder(n: nat)
    ensures n % COUNTER == n <==> n < COUNTER
  {
  }

  lemma {:induction false} CounterWraps(log: seq<Step>)
    requires ValidRun(log)
    ensures Exec(log).nextId == IdsTaken(log) + 1 && WrappedNext(log) == Exec(log).nextId % COUNTER
  {
    hide Apply, Enabled;
    if log != [] {
      CounterWraps(Front(log));
      NextIdStep(Exec(Front(log)), Last(log));
      WrapStep(Exec(Front(log)).nextId);
    }
  }

  lemma NextIdStep(s: State, e: Step)
    ensures Apply(s, e).nextId == s.nextId + if e.TakeId? then 1 else 0
  {
  }

  lemma WrapStep(n: nat)
    ensures (n % COUNTER + 1) % COUNTER == (n + 1) % COUNTER
  {
  }
}
