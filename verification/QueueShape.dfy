/** The shape of the pending queue: returned jobs in front of fresh ones, and when the fresh ones are
    in submission order.
 */
module QueueShape {
  import opened Queue
  import opened Conservation

  ghost predicate DistinctPending(s: State) {
    forall i, j :: 0 <= i < j < |s.pending| ==> s.pending[i].id != s.pending[j].id
  }

  lemma PendingIsDistinct(log: seq<Step>)
    requires ValidRun(log)
    ensures DistinctPending(Exec(log))
  {
    var s := Exec(log);
    forall i, j | 0 <= i < j < |s.pending| ensures s.pending[i].id != s.pending[j].id {
      if s.pending[i].id == s.pending[j].id {
        CountJobOnce(s.pending, i, j);
        RunConserves(log, s.pending[i].id);
      }
    }
  }

  /** Leased ids have been leased before; ids not yet enqueued never have. */
  ghost predicate HistoryFits(s: State, ever: set<JobId>) {
    && (forall id :: id in s.leased ==> id in ever)
    && (forall id :: id in s.inFlight ==> id !in ever && id < s.nextId)
    && (forall id :: id in ever ==> id < s.nextId)
  }

  /** No fresh job sits ahead of a returned one. */
  ghost predicate ReturnedFirst(s: State, ever: set<JobId>) {
    forall i, j :: 0 <= i < j < |s.pending| && s.pending[j].id in ever ==> s.pending[i].id in ever
  }

  /** Pending ids are issued ids. */
  ghost predicate PendingIssued(s: State) {
    forall i :: 0 <= i < |s.pending| ==> s.pending[i].id < s.nextId && s.pending[i].id !in s.inFlight
  }

  lemma PendingIsIssued(log: seq<Step>)
    requires ValidRun(log)
    ensures PendingIssued(Exec(log))
  {
    RunKeepsPayloads(log);
  }

  lemma StepKeepsHistory(s: State, e: Step, ever: set<JobId>)
    requires Enabled(s, e) && HistoryFits(s, ever) && PendingIssued(s)
    ensures HistoryFits(Apply(s, e), ever + LeasesNow(s, e))
  {
  }

  lemma StepKeepsReturnedFirst(s: State, e: Step, ever: set<JobId>)
    requires Enabled(s, e) && LeaseKeyed(s) && DistinctPending(s) && HistoryFits(s, ever) && ReturnedFirst(s, ever)
    ensures ReturnedFirst(Apply(s, e), ever + LeasesNow(s, e))
  {
    if e.Sweep? {
      var returned := Returned(s.leased, e.order);
      forall i | 0 <= i < |returned| ensures returned[i].id in ever {
        var id := ReturnedFrom(s.leased, e.order, i);
      }
    }
  }

  /** On every run: the pending queue is a block of returned jobs followed by never-leased jobs. */
  lemma {:induction false} RunKeepsShape(log: seq<Step>)
    requires ValidRun(log)
    ensures HistoryFits(Exec(log), EverLeased(log)) && ReturnedFirst(Exec(log), EverLeased(log))
  {
    if log != [] {
      hide Apply, Enabled, LeasesNow;
      var front := Front(log);
      RunKeepsShape(front);
      RunKeepsKeys(front);
      PendingIsDistinct(front);
      PendingIsIssued(front);
      StepKeepsHistory(Exec(front), Last(log), EverLeased(front));
      StepKeepsReturnedFirst(Exec(front), Last(log), EverLeased(front));
    }
  }

  /** The block boundary. */
  lemma ShapeSplit(log: seq<Step>) returns (k: nat)
    requires ValidRun(log)
    ensures k <= |Exec(log).pending|
    ensures forall i :: 0 <= i < k ==> Exec(log).pending[i].id in EverLeased(log)
    ensures forall i :: k <= i < |Exec(log).pending| ==> Exec(log).pending[i].id !in EverLeased(log)
  {
    RunKeepsShape(log);
    k := SplitAt(Exec(log).pending, EverLeased(log));
  }

  lemma SplitAt(pending: seq<Job>, ever: set<JobId>) returns (k: nat)
    requires forall i, j :: 0 <= i < j < |pending| && pending[j].id in ever ==> pending[i].id in ever
    ensures k <= |pending|
    ensures forall i :: 0 <= i < k ==> pending[i].id in ever
    ensures forall i :: k <= i < |pending| ==> pending[i].id !in ever
  {
    k := |pending|;
    while k > 0 && pending[k - 1].id !in ever
      invariant k <= |pending|
      invariant forall i :: k <= i < |pending| ==> pending[i].id !in ever
    {
      k := k - 1;
    }
  }

  // --- When the fresh block is in id order ---------------------------------------------------------

  ghost predicate FreshOrdered(s: State, ever: set<JobId>) {
    forall i, j :: 0 <= i < j < |s.pending| && s.pending[i].id !in ever && s.pending[j].id !in ever
      ==> s.pending[i].id < s.pending[j].id
  }

  /** The enqueued id is above every fresh id that is waiting. */
  ghost predicate EnqueuesAhead(s: State, e: Step, ever: set<JobId>) {
    e.Enqueue? ==> forall i :: 0 <= i < |s.pending| && s.pending[i].id !in ever ==> s.pending[i].id < e.job.id
  }

  lemma EnqueueOrderExact(s: State, job: Job, ever: set<JobId>)
    requires job.id in s.inFlight && HistoryFits(s, ever) && FreshOrdered(s, ever)
    ensures FreshOrdered(Apply(s, Enqueue(job)), ever) <==> EnqueuesAhead(s, Enqueue(job), ever)
  {
    var s' := Apply(s, Enqueue(job));
    if FreshOrdered(s', ever) {
      forall i | 0 <= i < |s.pending| && s.pending[i].id !in ever ensures s.pending[i].id < job.id {
        assert s'.pending[i] == s.pending[i] && s'.pending[|s.pending|] == job;
      }
    }
  }

  lemma StepOrderExact(s: State, e: Step, ever: set<JobId>)
    requires Enabled(s, e) && LeaseKeyed(s) && DistinctPending(s) && HistoryFits(s, ever) && FreshOrdered(s, ever)
    ensures FreshOrdered(Apply(s, e), ever + LeasesNow(s, e)) <==> EnqueuesAhead(s, e, ever)
  {
    if e.Enqueue? {
      assert ever + {} == ever;
      EnqueueOrderExact(s, e.job, ever);
    } else if e.Sweep? {
      var returned := Returned(s.leased, e.order);
      forall i | 0 <= i < |returned| ensures returned[i].id in ever {
        var id := ReturnedFrom(s.leased, e.order, i);
      }
    }
  }

  ghost predicate OrderedThroughout(log: seq<Step>) {
    forall k :: 0 <= k <= |log| ==> FreshOrdered(Exec(log[..k]), EverLeased(log[..k]))
  }

  ghost predicate AlwaysAhead(log: seq<Step>) {
    forall k :: 0 <= k < |log| ==> EnqueuesAhead(Exec(log[..k]), log[k], EverLeased(log[..k]))
  }

  lemma OrderedStep(log: seq<Step>, k: nat)
    requires ValidRun(log) && k < |log| && FreshOrdered(Exec(log[..k]), EverLeased(log[..k]))
    ensures FreshOrdered(Exec(log[..k + 1]), EverLeased(log[..k + 1]))
            <==> EnqueuesAhead(Exec(log[..k]), log[k], EverLeased(log[..k]))
  {
    hide Apply, Enabled, LeasesNow, FreshOrdered, EnqueuesAhead;
    var log' := log[..k];
    PrefixStep(log, k);
    RunKeepsKeys(log');
    RunKeepsShape(log');
    PendingIsDistinct(log');
    StepOrderExact(Exec(log'), log[k], EverLeased(log'));
    assert Front(log[..k + 1]) == log' && Last(log[..k + 1]) == log[k];
  }

  // --- The same condition in terms of the run's own steps -------------------------------------------

  /** Whenever a push enqueues after one that took a later id, that later id has been leased in between. */
  ghost predicate OvertakersLeased(log: seq<Step>) {
    forall k: nat :: k < |log| ==> OvertakersLeasedAt(log, k)
  }

  ghost predicate OvertakersLeasedAt(log: seq<Step>, k: nat) {
    forall k1: nat :: Overtakes(log, k1, k) ==> log[k1].job.id in EverLeased(log[..k])
  }

  /** The push that took the later id enqueues first. */
  ghost predicate Overtakes(log: seq<Step>, k1: nat, k2: nat) {
    k1 < k2 < |log| && log[k1].Enqueue? && log[k2].Enqueue? && log[k1].job.id > log[k2].job.id
  }

  lemma {:induction false} PushedAtStep(log: seq<Step>, id: JobId) returns (k: nat)
    requires Pushed(log, id).Some?
    ensures k < |log| && log[k].Enqueue? && log[k].job.id == id
  {
    if Last(log).Enqueue? && Last(log).job.id == id {
      k := |log| - 1;
    } else {
      k := PushedAtStep(Front(log), id);
    }
  }

  lemma {:induction false} StepPushes(log: seq<Step>, k: nat)
    requires k < |log| && log[k].Enqueue?
    ensures Pushed(log, log[k].job.id).Some?
  {
    if k < |log| - 1 { StepPushes(Front(log), k); }
  }

  lemma {:induction false} RetiredWasLeased(log: seq<Step>, i: nat)
    requires ValidRun(log) && i < |Retirements(log)|
    ensures Retirements(log)[i].job.id in EverLeased(log)
  {
    var front := Front(log);
    if i < |Retirements(front)| {
      RetiredWasLeased(front, i);
    } else {
      RunKeepsShape(front);
      RunKeepsKeys(front);
    }
  }

  lemma {:induction false} PushedIsIssued(log: seq<Step>, id: JobId)
    requires ValidRun(log) && Pushed(log, id).Some?
    ensures Issued(Exec(log), id)
  {
    var front := Front(log);
    if Last(log).Enqueue? && Last(log).job.id == id {
      RunConserves(front, id);
    } else {
      PushedIsIssued(front, id);
    }
  }

  /** An id that was enqueued and never leased is still pending. */
  lemma NeverLeasedIsPending(log: seq<Step>, id: JobId) returns (i: nat)
    requires ValidRun(log) && Pushed(log, id).Some? && id !in EverLeased(log)
    ensures i < |Exec(log).pending| && Exec(log).pending[i].id == id
  {
    hide Exec, ValidRun, Retirements, EverLeased, Pushed;
    var s := Exec(log);
    RunConserves(log, id);
    RunKeepsShape(log);
    RunKeepsPayloads(log);
    PushedIsIssued(log, id);
    if CountRetired(Retirements(log), id) > 0 {
      var r := CountRetiredMember(Retirements(log), id);
      RetiredWasLeased(log, r);
    }
    assert id !in s.leased && CountRetired(Retirements(log), id) == 0;
    i := CountJobMember(s.pending, id);
  }

  lemma AheadExactly(log: seq<Step>, k: nat)
    requires ValidRun(log) && k < |log|
    ensures EnqueuesAhead(Exec(log[..k]), log[k], EverLeased(log[..k]))
            <==> OvertakersLeasedAt(log, k)
  {
    hide Exec, ValidRun, EverLeased, Pushed, Apply;
    var run, s := log[..k], Exec(log[..k]);
    PrefixStep(log, k);
    if EnqueuesAhead(s, log[k], EverLeased(run)) {
      forall k1: nat | Overtakes(log, k1, k) ensures log[k1].job.id in EverLeased(run) {
        StepPushes(run, k1);
        if log[k1].job.id !in EverLeased(run) { var i := NeverLeasedIsPending(run, log[k1].job.id); }
      }
    }
    if log[k].Enqueue? && OvertakersLeasedAt(log, k) {
      RunKeepsPayloads(run);
      PendingIsIssued(run);
      forall i | 0 <= i < |s.pending| && s.pending[i].id !in EverLeased(run) ensures s.pending[i].id < log[k].job.id {
        var k1 := PushedAtStep(run, s.pending[i].id);
        assert !Overtakes(log, k1, k);
      }
    }
  }

  /** The never-leased jobs stay in strictly increasing id order throughout a run exactly when every push
      that is overtaken by one with a later id enqueues only after that one has been leased. */
  lemma FreshOrderExact(log: seq<Step>)
    requires ValidRun(log)
    ensures OrderedThroughout(log) <==> OvertakersLeased(log)
  {
    hide FreshOrdered, EnqueuesAhead, Exec, ValidRun, EverLeased, OvertakersLeasedAt;
    AheadExact(log);
    forall k: nat | k < |log| ensures
      EnqueuesAhead(Exec(log[..k]), log[k], EverLeased(log[..k]))
      <==> OvertakersLeasedAt(log, k)
    {
      AheadExactly(log, k);
    }
  }

  /** If every push enqueues before the next id is taken, the never-leased jobs are always in order. */
  lemma UninterruptedPushesKeepOrder(log: seq<Step>)
    requires ValidRun(log)
    requires forall k :: 0 <= k < |log| && log[k].Enqueue? ==> log[k].job.id + 1 == Exec(log[..k]).nextId
    ensures OrderedThroughout(log)
  {
    hide FreshOrdered, Apply;
    forall k | 0 <= k < |log| ensures EnqueuesAhead(Exec(log[..k]), log[k], EverLeased(log[..k])) {
      PrefixStep(log, k);
      if log[k].Enqueue? { UninterruptedPushIsAhead(log[..k], log[k].job); }
    }
    AheadExact(log);
  }

  /** Order is kept exactly as long as each enqueued id is above every fresh id that is waiting. */
  lemma AheadExact(log: seq<Step>)
    requires ValidRun(log)
    ensures OrderedThroughout(log) <==> AlwaysAhead(log)
  {
    hide FreshOrdered, EnqueuesAhead;
    if OrderedThroughout(log) {
      forall k | 0 <= k < |log| ensures EnqueuesAhead(Exec(log[..k]), log[k], EverLeased(log[..k])) {
        OrderedStep(log, k);
      }
    }
    if AlwaysAhead(log) {
      forall k | 0 <= k <= |log| ensures FreshOrdered(Exec(log[..k]), EverLeased(log[..k])) {
        AheadKeepsOrder(log, k);
      }
    }
  }

  lemma {:induction false} AheadKeepsOrder(log: seq<Step>, k: nat)
    requires ValidRun(log) && AlwaysAhead(log) && k <= |log|
    ensures FreshOrdered(Exec(log[..k]), EverLeased(log[..k]))
  {
    if k > 0 {
      AheadKeepsOrder(log, k - 1);
      OrderedStep(log, k - 1);
    }
  }

  /** A push that enqueues before any other push takes an id is always ahead. */
  lemma UninterruptedPushIsAhead(log: seq<Step>, job: Job)
    requires ValidRun(log) && job.id + 1 == Exec(log).nextId && job.id in Exec(log).inFlight
    ensures EnqueuesAhead(Exec(log), Enqueue(job), EverLeased(log))
  {
    PendingIsIssued(log);
  }

  /** Two overlapping pushes can enqueue in the wrong order. */
  lemma OverlappingPushesReorder(spec: JobSpec) returns (log: seq<Step>)
    ensures ValidRun(log) && Exec(log).pending == [Job(2, spec), Job(1, spec)] && EverLeased(log) == {}
    ensures !FreshOrdered(Exec(log), EverLeased(log))
  {
    hide Exec, ValidRun, Retirements, EverLeased;
    log := Start();
    log := Then(log, TakeId);
    log := Then(log, TakeId);
    log := Then(log, Enqueue(Job(2, spec)));
    log := Then(log, Enqueue(Job(1, spec)));
    NoPullNoLease(log);
    assert Exec(log).pending[0].id == 2 && Exec(log).pending[1].id == 1;
  }

  lemma {:induction false} NoPullNoLease(log: seq<Step>)
    requires forall i :: 0 <= i < |log| ==> !log[i].Pull?
    ensures EverLeased(log) == {}
  {
    if log != [] { NoPullNoLease(Front(log)); }
  }
}
