/** Timed leases: a builder that pulls a job and keeps sending heartbeats at most 60 s apart holds the
    lease until it reports, or until someone fails the job in its name (a cancel).
 */
module Leases {
  import opened Common
  import opened Queue
  import opened Conservation

  ghost predicate Timed(e: Step) { e.Pull? || e.Heartbeat? || e.Sweep? }

  ghost function TimeOf(e: Step): Time
    requires Timed(e)
  {
    if e.Pull? then e.stamp else e.now
  }

  /** The clock never goes back.  Heartbeats and sweeps read it while holding the leased lock, so no
      later reading is earlier than theirs; a pull reads it before taking that lock, so its stamp may
      be older than the steps it waited for. */
  ghost predicate MonotoneClock(log: seq<Step>) {
    forall i, j :: 0 <= i < j < |log| && Timed(log[i]) && (log[j].Heartbeat? || log[j].Sweep?)
      ==> TimeOf(log[i]) <= TimeOf(log[j])
  }

  ghost predicate BeatFor(e: Step, id: JobId, b: Endpoint) {
    e.Heartbeat? && e.id == id && e.builder == b
  }

  /** The pull at `from` leases the job to `b`. */
  ghost predicate PullsFor(log: seq<Step>, from: nat, id: JobId, b: Endpoint) {
    from < |log| && log[from].Pull? && log[from].builder == b && id in LeasesNow(Exec(log[..from]), log[from])
  }

  /** Position `q` is the first heartbeat after `p`. */
  ghost predicate NextBeat(log: seq<Step>, p: nat, q: nat, id: JobId, b: Endpoint) {
    p < q < |log| && BeatFor(log[q], id, b) && forall k :: p < k < q ==> !BeatFor(log[k], id, b)
  }

  /** From the pull at `from` up to the heartbeat at `upto`, successive signs of life are at most 60 s apart. */
  ghost predicate Punctual(log: seq<Step>, from: nat, upto: nat, id: JobId, b: Endpoint) {
    forall p, q :: from <= p < q <= upto && NextBeat(log, p, q, id, b) && (p == from || BeatFor(log[p], id, b)) && Timed(log[p])
      ==> TimeOf(log[q]) - TimeOf(log[p]) <= JOB_LEASE_TIMEOUT
  }

  /** Nobody reports the job as completed or failed in the builder's name. */
  ghost predicate NotReported(log: seq<Step>, from: nat, upto: nat, id: JobId, b: Endpoint) {
    forall k :: from < k < upto && k < |log| ==>
      !(log[k].Fail? && log[k].id == id && log[k].builder == b) &&
      !(log[k].StartComplete? && log[k].id == id && log[k].builder == b)
  }

  ghost predicate Held(s: State, id: JobId, b: Endpoint, last: Time) {
    && LeasedTo(s.leased, id, b)
    && s.leased[id].lastHeartbeat == last
    && (s.recording.Some? ==> s.recording.value.id != id)
  }

  lemma HeldStep(s: State, e: Step, retired: seq<Retirement>, id: JobId, b: Endpoint, last: Time)
    requires Enabled(s, e) && InOnePlace(s, retired, id) && Held(s, id, b, last)
    requires !(e.Fail? && e.id == id && e.builder == b)
    requires !(e.StartComplete? && e.id == id && e.builder == b)
    requires e.Sweep? ==> e.now - last <= JOB_LEASE_TIMEOUT
    ensures Held(Apply(s, e), id, b, if BeatFor(e, id, b) then e.now else last)
  {
    if e.Pull? && FirstMatch(s.pending, e.features) < |s.pending| {
      CountJobPositive(s.pending, FirstMatch(s.pending, e.features));
    }
  }

  lemma FindNextBeat(log: seq<Step>, k: nat, upto: nat, id: JobId, b: Endpoint) returns (q: nat)
    requires k < upto < |log| && BeatFor(log[upto], id, b)
    ensures k < q <= upto && NextBeat(log, k, q, id, b)
  {
    q := k + 1;
    while !BeatFor(log[q], id, b)
      invariant k < q <= upto
      invariant forall j :: k < j < q ==> !BeatFor(log[j], id, b)
      decreases upto - q
    {
      q := q + 1;
    }
  }

  /** The lease is held after every step up to the last heartbeat; `p` is the latest sign of life. */
  lemma {:induction false} HeldThroughout(log: seq<Step>, from: nat, upto: nat, id: JobId, b: Endpoint, k: nat) returns (p: nat)
    requires ValidRun(log) && MonotoneClock(log) && PullsFor(log, from, id, b)
    requires from < k <= upto < |log| && BeatFor(log[upto], id, b)
    requires Punctual(log, from, upto, id, b) && NotReported(log, from, upto, id, b)
    ensures from <= p < k && (p == from || BeatFor(log[p], id, b)) && Timed(log[p])
    ensures forall j :: p < j < k ==> !BeatFor(log[j], id, b)
    ensures Held(Exec(log[..k]), id, b, TimeOf(log[p]))
  {
    hide Apply, Enabled, Held, Exec, ValidRun, Retirements, InOnePlace, MonotoneClock, Punctual, LeasesNow;
    PrefixStep(log, k - 1);
    if k == from + 1 {
      p := from;
      PullHolds(Exec(log[..from]), log[from], id, b);
    } else {
      p := HeldThroughout(log, from, upto, id, b, k - 1);
      if log[k - 1].Sweep? {
        SweepIsInTime(log, from, upto, id, b, k - 1, p);
      }
      RunConserves(log[..k - 1], id);
      HeldStep(Exec(log[..k - 1]), log[k - 1], Retirements(log[..k - 1]), id, b, TimeOf(log[p]));
      if BeatFor(log[k - 1], id, b) { p := k - 1; }
    }
  }

  lemma PullHolds(s: State, e: Step, id: JobId, b: Endpoint)
    requires Enabled(s, e) && e.Pull? && e.builder == b && id in LeasesNow(s, e)
    ensures Held(Apply(s, e), id, b, e.stamp)
  {
  }

  /** A sweep between two punctual signs of life finds the lease fresh enough. */
  lemma SweepIsInTime(log: seq<Step>, from: nat, upto: nat, id: JobId, b: Endpoint, k: nat, p: nat)
    requires MonotoneClock(log) && Punctual(log, from, upto, id, b)
    requires from <= p < k < upto < |log| && BeatFor(log[upto], id, b) && log[k].Sweep?
    requires (p == from || BeatFor(log[p], id, b)) && Timed(log[p])
    requires forall j :: p < j < k ==> !BeatFor(log[j], id, b)
    ensures log[k].now - TimeOf(log[p]) <= JOB_LEASE_TIMEOUT
  {
    var q := FindNextBeat(log, k, upto, id, b);
    assert NextBeat(log, p, q, id, b);
    assert TimeOf(log[k]) <= TimeOf(log[q]);
  }

  /** A punctual builder keeps its lease from the pull to its latest heartbeat. */
  lemma PunctualBuilderKeepsLease(log: seq<Step>, from: nat, upto: nat, id: JobId, b: Endpoint)
    requires ValidRun(log) && MonotoneClock(log) && PullsFor(log, from, id, b)
    requires from < upto < |log| && BeatFor(log[upto], id, b)
    requires Punctual(log, from, upto, id, b) && NotReported(log, from, upto, id, b)
    ensures forall k :: from < k <= upto ==> LeasedTo(Exec(log[..k]).leased, id, b)
  {
    forall k | from < k <= upto ensures LeasedTo(Exec(log[..k]).leased, id, b) {
      var p := HeldThroughout(log, from, upto, id, b, k);
    }
  }

  /** From a sign of life on, the lease stands as long as every sweep comes within 60 s of it. */
  lemma {:induction false} HeldAfterSign(log: seq<Step>, last: nat, k: nat, id: JobId, b: Endpoint)
    requires ValidRun(log) && last < k <= |log| && Timed(log[last])
    requires Held(Exec(log[..last + 1]), id, b, TimeOf(log[last]))
    requires NotReported(log, last, k, id, b) && forall j :: last < j < k ==> !BeatFor(log[j], id, b)
    requires forall j :: last < j < k && log[j].Sweep? ==> log[j].now - TimeOf(log[last]) <= JOB_LEASE_TIMEOUT
    ensures Held(Exec(log[..k]), id, b, TimeOf(log[last]))
  {
    hide Apply, Enabled, Held;
    if k > last + 1 {
      HeldAfterSign(log, last, k - 1, id, b);
      PrefixStep(log, k - 1);
      RunConserves(log[..k - 1], id);
      HeldStep(Exec(log[..k - 1]), log[k - 1], Retirements(log[..k - 1]), id, b, TimeOf(log[last]));
    }
  }

  /** At a sign of life the lease is held and its clock is reset. */
  lemma SignHolds(log: seq<Step>, from: nat, last: nat, id: JobId, b: Endpoint)
    requires ValidRun(log) && MonotoneClock(log) && PullsFor(log, from, id, b)
    requires from <= last < |log| && (last == from || BeatFor(log[last], id, b))
    requires Punctual(log, from, last, id, b) && NotReported(log, from, last, id, b)
    ensures Timed(log[last]) && Held(Exec(log[..last + 1]), id, b, TimeOf(log[last]))
  {
    hide Apply, Enabled, Held, Exec, ValidRun, Retirements, InOnePlace, MonotoneClock, LeasesNow;
    PrefixStep(log, last);
    if last == from {
      PullHolds(Exec(log[..from]), log[from], id, b);
    } else {
      var p := HeldThroughout(log, from, last, id, b, last);
      RunConserves(log[..last], id);
      HeldStep(Exec(log[..last]), log[last], Retirements(log[..last]), id, b, TimeOf(log[p]));
    }
  }

  /** A punctual builder whose report comes before any sweep later than 60 s after its last sign of life is
      heard: a failure retires the job, a completion is accepted. */
  lemma PunctualBuilderIsHeard(log: seq<Step>, from: nat, last: nat, report: nat, id: JobId, b: Endpoint)
    requires ValidRun(log) && MonotoneClock(log) && PullsFor(log, from, id, b)
    requires from <= last < report < |log| && (last == from || BeatFor(log[last], id, b)) && Timed(log[last])
    requires Punctual(log, from, last, id, b) && NotReported(log, from, report, id, b)
    requires forall j :: last < j < report ==> !BeatFor(log[j], id, b)
    requires forall j :: last < j < report && log[j].Sweep? ==> log[j].now - TimeOf(log[last]) <= JOB_LEASE_TIMEOUT
    ensures
      var s := Exec(log[..report]);
      && LeasedTo(s.leased, id, b)
      && (forall error :: log[report] == Fail(id, b, error) ==>
            RetiredBy(s, log[report]) == [Retirement(s.leased[id].job, b, Failed(b, error))])
      && (forall result :: log[report] == StartComplete(id, b, result) ==> AcceptedBy(s, log[report]) == [result])
  {
    hide Exec, ValidRun, MonotoneClock;
    SignHolds(log, from, last, id, b);
    HeldAfterSign(log, last, report, id, b);
  }
}
