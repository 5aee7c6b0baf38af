/** Cancelling a leased job (iroh-nix/src/control.rs:305-325): the lease is looked up, and later failed in
    the name of the builder that held it at the lookup.  When does that retire the job?
 */
module Cancels {
  import opened Common
  import opened Queue
  import opened Conservation
  import opened Poll
  import opened Leases

  /** The sweep at position j takes the job's lease away. */
  ghost predicate ExpiresAt(log: seq<Step>, j: nat, id: JobId) {
    j < |log| && log[j].Sweep? && id in Expired(Exec(log[..j]).leased, log[j].now)
  }

  ghost predicate Retires(s: State, e: Step, id: JobId) {
    RetiredBy(s, e) != [] && RetiredBy(s, e)[0].job.id == id
  }

  /** The report at position k retires the job. */
  ghost predicate RetiresAt(log: seq<Step>, k: nat, id: JobId) {
    k < |log| && Retires(Exec(log[..k]), log[k], id)
  }

  /** Between the lookup and the fail the lease timed out, the builder has not pulled the job again since
      that timeout, and nobody has reported the job. */
  ghost predicate Missed(log: seq<Step>, snapshot: nat, f: nat, id: JobId, b: Endpoint) {
    && (exists j: nat :: snapshot <= j < f && TimedOutForGood(log, j, f, id, b))
    && (forall k: nat :: snapshot <= k < f ==> !RetiresAt(log, k, id))
  }

  ghost predicate TimedOutForGood(log: seq<Step>, j: nat, f: nat, id: JobId, b: Endpoint) {
    ExpiresAt(log, j, id) && forall k: nat :: j < k < f ==> !PullsFor(log, k, id, b)
  }

  lemma RetiredStep(log: seq<Step>, k: nat, id: JobId)
    requires k < |log|
    ensures Retired(log[..k + 1], id) <==> Retired(log[..k], id) || RetiresAt(log, k, id)
  {
    var rs, more := Retirements(log[..k]), RetiredBy(Exec(log[..k]), log[k]);
    assert Front(log[..k + 1]) == log[..k] && Last(log[..k + 1]) == log[k];
    if more == [] { assert rs + more == rs; } else { CountRetiredAppend(rs, more[0], id); }
  }

  lemma {:induction false} RetiredSince(log: seq<Step>, m: nat, f: nat, id: JobId)
    requires m <= f <= |log|
    ensures Retired(log[..f], id) <==> Retired(log[..m], id) || exists k: nat :: m <= k < f && RetiresAt(log, k, id)
    decreases f - m
  {
    hide Retired, RetiresAt;
    if m < f {
      RetiredSince(log, m, f - 1, id);
      RetiredStep(log, f - 1, id);
    }
  }

  lemma HeldStaysOrRetires(s: State, e: Step, retired: seq<Retirement>, id: JobId, b: Endpoint)
    requires LeaseKeyed(s) && Enabled(s, e) && InOnePlace(s, retired, id) && LeasedTo(s.leased, id, b)
    requires !(e.Sweep? && id in Expired(s.leased, e.now))
    ensures LeasedTo(Apply(s, e).leased, id, b) || Retires(s, e, id)
  {
    if e.Pull? && FirstMatch(s.pending, e.features) < |s.pending| {
      CountJobPositive(s.pending, FirstMatch(s.pending, e.features));
    }
  }

  lemma OnlyPullsLease(s: State, e: Step, id: JobId, b: Endpoint)
    requires !LeasedTo(s.leased, id, b) && !(e.Pull? && e.builder == b && id in LeasesNow(s, e))
    ensures !LeasedTo(Apply(s, e).leased, id, b)
  {
  }

  /** Without a timeout, the lease stands until the job is retired. */
  lemma {:induction false} HeldUntilRetired(log: seq<Step>, m: nat, f: nat, id: JobId, b: Endpoint)
    requires ValidRun(log) && m <= f <= |log| && LeasedTo(Exec(log[..m]).leased, id, b)
    requires forall j: nat :: m <= j < f ==> !ExpiresAt(log, j, id)
    ensures LeasedTo(Exec(log[..f]).leased, id, b) || Retired(log[..f], id)
    decreases f - m
  {
    hide Exec, ValidRun, Retired, Apply, Enabled, Retires, RetiredBy;
    if m < f {
      HeldUntilRetired(log, m, f - 1, id, b);
      RetiredStep(log, f - 1, id);
      PrefixStep(log, f - 1);
      RunKeepsKeys(log[..f - 1]);
      RunConserves(log[..f - 1], id);
      assert !ExpiresAt(log, f - 1, id);
      if LeasedTo(Exec(log[..f - 1]).leased, id, b) {
        HeldStaysOrRetires(Exec(log[..f - 1]), log[f - 1], Retirements(log[..f - 1]), id, b);
      }
    }
  }

  /** After a timeout, the builder holds the lease again only through a pull of its own. */
  lemma {:induction false} LostUntilPulled(log: seq<Step>, j: nat, f: nat, id: JobId, b: Endpoint)
    requires ValidRun(log) && j < f <= |log| && TimedOutForGood(log, j, f, id, b)
    ensures !LeasedTo(Exec(log[..f]).leased, id, b)
    decreases f - j
  {
    hide Exec, ValidRun, Enabled, LeasesNow;
    PrefixStep(log, f - 1);
    if f > j + 1 {
      LostUntilPulled(log, j, f - 1, id, b);
      assert !PullsFor(log, f - 1, id, b);
      OnlyPullsLease(Exec(log[..f - 1]), log[f - 1], id, b);
    }
  }

  /** The latest timeout of the job before f. */
  lemma LatestTimeout(log: seq<Step>, m: nat, f: nat, id: JobId, j0: nat) returns (j: nat)
    requires m <= j0 < f <= |log| && ExpiresAt(log, j0, id)
    ensures m <= j < f && ExpiresAt(log, j, id) && forall k: nat :: j < k < f ==> !ExpiresAt(log, k, id)
  {
    hide ExpiresAt;
    j := f - 1;
    while !ExpiresAt(log, j, id)
      invariant j0 <= j < f
      invariant forall k: nat :: j < k < f ==> !ExpiresAt(log, k, id)
      decreases j
    {
      j := j - 1;
    }
  }

  lemma FailRetires(log: seq<Step>, f: nat, id: JobId, b: Endpoint, error: string)
    requires ValidRun(log) && f < |log| && log[f] == Fail(id, b, error)
    ensures RetiresAt(log, f, id) <==> LeasedTo(Exec(log[..f]).leased, id, b)
  {
    PrefixStep(log, f);
    RunKeepsKeys(log[..f]);
  }

  lemma PullGivesLease(log: seq<Step>, k: nat, id: JobId, b: Endpoint)
    requires ValidRun(log) && PullsFor(log, k, id, b)
    ensures LeasedTo(Exec(log[..k + 1]).leased, id, b)
  {
    PrefixStep(log, k);
  }

  /** A job that is neither reported nor held at the fail timed out for good. */
  lemma LostMeansTimedOut(log: seq<Step>, snapshot: nat, f: nat, id: JobId, b: Endpoint)
    requires ValidRun(log) && snapshot <= f <= |log| && LeasedTo(Exec(log[..snapshot]).leased, id, b)
    requires !LeasedTo(Exec(log[..f]).leased, id, b) && !Retired(log[..f], id)
    ensures exists j: nat :: snapshot <= j < f && TimedOutForGood(log, j, f, id, b)
  {
    hide Exec, ValidRun, Retired, ExpiresAt, PullsFor;
    if forall j: nat :: snapshot <= j < f ==> !ExpiresAt(log, j, id) {
      HeldUntilRetired(log, snapshot, f, id, b);
    } else {
      var j0: nat :| snapshot <= j0 < f && ExpiresAt(log, j0, id);
      var j := LatestTimeout(log, snapshot, f, id, j0);
      forall k: nat | j < k < f ensures !PullsFor(log, k, id, b) {
        if PullsFor(log, k, id, b) {
          PullGivesLease(log, k, id, b);
          HeldUntilRetired(log, k + 1, f, id, b);
        }
      }
      assert TimedOutForGood(log, j, f, id, b);
    }
  }

  /** On every run, a cancel leaves the job unretired exactly when it missed; in particular it always
      retires the job, or finds it retired, when no sweep expires the lease in between. */
  lemma CancelMissesExactly(log: seq<Step>, snapshot: nat, f: nat, id: JobId, b: Endpoint, error: string)
    requires ValidRun(log) && snapshot <= f < |log|
    requires LeasedTo(Exec(log[..snapshot]).leased, id, b) && log[f] == Fail(id, b, error)
    ensures !Retired(log[..f + 1], id) <==> Missed(log, snapshot, f, id, b)
    ensures (forall j: nat :: snapshot <= j < f ==> !ExpiresAt(log, j, id)) ==> Retired(log[..f + 1], id)
  {
    hide Exec, ValidRun, Retired, RetiresAt, ExpiresAt, PullsFor, TimedOutForGood;
    RetiredStep(log, f, id);
    FailRetires(log, f, id, b, error);
    RetiredSince(log, snapshot, f, id);
    LeasedIsNotRetired(log, snapshot, id);
    if !Retired(log[..f + 1], id) {
      LostMeansTimedOut(log, snapshot, f, id, b);
    }
    if Missed(log, snapshot, f, id, b) {
      var j: nat :| snapshot <= j < f && TimedOutForGood(log, j, f, id, b);
      LostUntilPulled(log, j, f, id, b);
    }
    if forall j: nat :: snapshot <= j < f ==> !ExpiresAt(log, j, id) {
      HeldUntilRetired(log, snapshot, f, id, b);
    }
  }

  lemma LeasedIsNotRetired(log: seq<Step>, m: nat, id: JobId)
    requires ValidRun(log) && m <= |log| && id in Exec(log[..m]).leased
    ensures !Retired(log[..m], id)
  {
    PrefixValid(log, m);
    RunConserves(log[..m], id);
  }
}
