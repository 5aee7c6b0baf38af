/** The build queue (iroh-nix/src/build.rs) as a state machine.

    One `Step` is one critical section of the source: what a thread does between taking the locks it
    needs and releasing them.  `push` is two steps, because it releases the id counter before it takes
    the pending lock.  `complete` is two steps, because the fetch list is unlocked before the outcome
    is recorded; the leased lock stays held in between, which `recording` models.  Every
    nondeterministic choice (clock readings, hash-map order) is part of the step, so `Apply` is a
    function and a run is a sequence of steps.
 */
module Queue {
  import opened Common

  type JobId = nat

  /** Instants, in nanoseconds. */
  type Time = int

  const SECOND: Time := 1_000_000_000

  const JOB_LEASE_TIMEOUT: Time := 60 * SECOND

  datatype DrvHash = DrvHash(hex: string)

  datatype InputPath = InputPath(storePath: string, blake3: string)

  /** What the submitter says about a job. */
  datatype JobSpec = JobSpec(
    drv: DrvHash,
    drvPath: string,
    features: seq<string>,
    outputs: seq<string>,
    inputs: seq<InputPath>,
    submittedAt: nat)

  datatype Job = Job(id: JobId, spec: JobSpec)

  datatype Lease = Lease(job: Job, builder: Endpoint, leasedAt: Time, lastHeartbeat: Time, status: string)

  datatype BuildOutput = BuildOutput(storePath: string, blake3: string, sha256: string, narSize: nat)

  datatype BuildResult = BuildResult(
    jobId: JobId,
    drv: DrvHash,
    builder: Endpoint,
    outputs: seq<BuildOutput>,
    signatureR: string,
    signatureS: string)

  datatype Outcome = Completed(result: BuildResult) | Failed(builder: Endpoint, error: string)

  /** A `complete` call between its two halves; its thread holds the leased lock. */
  datatype Recording = Recording(id: JobId, builder: Endpoint, result: BuildResult)

  datatype State = State(
    nextId: JobId,
    inFlight: set<JobId>,                 // ids taken by a push that has not enqueued yet
    pending: seq<Job>,
    leased: map<JobId, Lease>,
    completed: map<DrvHash, Outcome>,
    fetches: seq<BuildResult>,
    recording: Option<Recording>)

  const INIT := State(1, {}, [], map[], map[], [], None)

  datatype Step =
    | TakeId
    | Enqueue(job: Job)
    | Pull(builder: Endpoint, features: seq<string>, stamp: Time)
    | Heartbeat(id: JobId, builder: Endpoint, status: string, now: Time)
    | StartComplete(id: JobId, builder: Endpoint, result: BuildResult)
    | RecordComplete
    | Fail(id: JobId, builder: Endpoint, error: string)
    | Sweep(now: Time, order: seq<JobId>)
    | TakeFetches

  /** The position of the first pending job the builder can take, or the length if there is none. */
  function FirstMatch(pending: seq<Job>, features: seq<string>): (i: nat)
    ensures i <= |pending|
    ensures forall k :: 0 <= k < i ==> !Covers(pending[k].spec.features, features)
    ensures i < |pending| ==> Covers(pending[i].spec.features, features)
  {
    if pending == [] || Covers(pending[0].spec.features, features) then 0
    else 1 + FirstMatch(pending[1..], features)
  }

  function Without<T>(s: seq<T>, i: nat): seq<T>
    requires i < |s|
  {
    s[..i] + s[i + 1..]
  }

  predicate LeasedTo(leased: map<JobId, Lease>, id: JobId, builder: Endpoint) {
    id in leased && leased[id].builder == builder
  }

  predicate Silent(lease: Lease, now: Time) {
    now - lease.lastHeartbeat > JOB_LEASE_TIMEOUT
  }

  function Expired(leased: map<JobId, Lease>, now: Time): set<JobId> {
    set id | id in leased && Silent(leased[id], now)
  }

  /** `order` enumerates the expired leases, in any order. */
  ghost predicate SweepOrder(leased: map<JobId, Lease>, now: Time, order: seq<JobId>) {
    && NoDup(order)
    && forall id :: id in order <==> id in Expired(leased, now)
  }

  /** The swept jobs as they end up in the queue: each was pushed to the front in turn. */
  function Returned(leased: map<JobId, Lease>, order: seq<JobId>): seq<Job> {
    if order == [] then []
    else (if Last(order) in leased then [leased[Last(order)].job] else []) + Returned(leased, Front(order))
  }

  function PullState(s: State, builder: Endpoint, features: seq<string>, stamp: Time): State {
    var i := FirstMatch(s.pending, features);
    if i == |s.pending| then s
    else
      var job := s.pending[i];
      s.(pending := Without(s.pending, i),
         leased := s.leased[job.id := Lease(job, builder, stamp, stamp, "starting")])
  }

  function RetireState(s: State, id: JobId, outcome: Outcome): State
    requires id in s.leased
  {
    s.(leased := s.leased - {id}, completed := s.completed[s.leased[id].job.spec.drv := outcome])
  }

  /** Whether the step can happen now: the locks it takes are free, and its choices are possible. */
  ghost predicate Enabled(s: State, e: Step) {
    match e
    case TakeId => true
    case Enqueue(job) => job.id in s.inFlight
    case RecordComplete => s.recording.Some?
    case Sweep(now, order) => s.recording.None? && SweepOrder(s.leased, now, order)
    case TakeFetches => true
    case Pull(b, f, stamp) => s.recording.None? || FirstMatch(s.pending, f) == |s.pending|
    case _ => s.recording.None?
  }

  ghost function Apply(s: State, e: Step): State {
    match e
    case TakeId => s.(nextId := s.nextId + 1, inFlight := s.inFlight + {s.nextId})
    case Enqueue(job) => s.(inFlight := s.inFlight - {job.id}, pending := s.pending + [job])
    case Pull(b, f, stamp) => PullState(s, b, f, stamp)
    case Heartbeat(id, b, status, now) =>
      if LeasedTo(s.leased, id, b)
      then s.(leased := s.leased[id := s.leased[id].(lastHeartbeat := now, status := status)])
      else s
    case StartComplete(id, b, r) =>
      if LeasedTo(s.leased, id, b)
      then s.(fetches := s.fetches + [r], recording := Some(Recording(id, b, r)))
      else s
    case RecordComplete =>
      if s.recording.Some? && s.recording.value.id in s.leased
      then RetireState(s, s.recording.value.id, Completed(s.recording.value.result)).(recording := None)
      else s
    case Fail(id, b, error) =>
      if LeasedTo(s.leased, id, b) then RetireState(s, id, Failed(b, error)) else s
    case Sweep(now, order) =>
      s.(pending := Returned(s.leased, order) + s.pending,
         leased := s.leased - Expired(s.leased, now))
    case TakeFetches => s.(fetches := [])
  }

  /** A pull whose builder covers the first waiting job takes that one. */
  lemma TakesFirst(s: State, b: Endpoint, features: seq<string>, stamp: Time)
    requires s.pending != [] && Covers(s.pending[0].spec.features, features) && s.recording.None?
    ensures
      var job, e := s.pending[0], Pull(b, features, stamp);
      && Enabled(s, e) && RetiredBy(s, e) == [] && LeasesNow(s, e) == {job.id}
      && Apply(s, e) == s.(pending := s.pending[1..], leased := s.leased[job.id := Lease(job, b, stamp, stamp, "starting")])
  {
    assert FirstMatch(s.pending, features) == 0;
    assert Without(s.pending, 0) == s.pending[1..];
  }

  // --- Runs ------------------------------------------------------------------------------------

  ghost predicate ValidRun(log: seq<Step>) {
    log == [] || (ValidRun(Front(log)) && Enabled(Exec(Front(log)), Last(log)))
  }

  ghost function Exec(log: seq<Step>): State {
    if log == [] then INIT else Apply(Exec(Front(log)), Last(log))
  }

  function Front<T>(s: seq<T>): seq<T> requires s != [] { s[..|s| - 1] }

  function Last<T>(s: seq<T>): T requires s != [] { s[|s| - 1] }

  lemma {:induction false} PrefixValid(log: seq<Step>, k: nat)
    requires ValidRun(log) && k <= |log|
    ensures ValidRun(log[..k])
  {
    if k < |log| {
      PrefixValid(Front(log), k);
      assert Front(log)[..k] == log[..k];
    } else {
      assert log[..k] == log;
    }
  }

  lemma Extend(log: seq<Step>, e: Step)
    requires ValidRun(log) && Enabled(Exec(log), e)
    ensures ValidRun(log + [e]) && Exec(log + [e]) == Apply(Exec(log), e)
  {
    assert Front(log + [e]) == log;
  }

  /** The run that has not begun. */
  lemma Start() returns (log: seq<Step>)
    ensures log == [] && ValidRun(log) && Exec(log) == INIT && Retirements(log) == []
  {
    log := [];
  }

  /** The run `log` followed by `e`. */
  lemma Then(log: seq<Step>, e: Step) returns (log': seq<Step>)
    requires ValidRun(log) && Enabled(Exec(log), e)
    ensures log' == log + [e] && ValidRun(log') && Exec(log') == Apply(Exec(log), e)
    ensures Retirements(log') == Retirements(log) + RetiredBy(Exec(log), e)
  {
    log' := log + [e];
    assert Front(log') == log;
  }

  /** One step further along a run. */
  lemma PrefixStep(log: seq<Step>, k: nat)
    requires ValidRun(log) && k < |log|
    ensures ValidRun(log[..k]) && ValidRun(log[..k + 1])
    ensures Enabled(Exec(log[..k]), log[k]) && Exec(log[..k + 1]) == Apply(Exec(log[..k]), log[k])
  {
    PrefixValid(log, k + 1);
    assert Front(log[..k + 1]) == log[..k] && Last(log[..k + 1]) == log[k];
  }

  // --- What a run did -----------------------------------------------------------------------------

  /** A job leaving the queue for good, and how. */
  datatype Retirement = Retirement(job: Job, builder: Endpoint, outcome: Outcome)

  /** The retirement a step causes, if any.  The builder is the holder of the lease. */
  ghost function RetiredBy(s: State, e: Step): seq<Retirement> {
    match e
    case RecordComplete =>
      if s.recording.Some? && s.recording.value.id in s.leased
      then
        var r := s.recording.value;
        [Retirement(s.leased[r.id].job, s.leased[r.id].builder, Completed(r.result))]
      else []
    case Fail(id, b, error) =>
      if LeasedTo(s.leased, id, b) then [Retirement(s.leased[id].job, b, Failed(b, error))] else []
    case _ => []
  }

  ghost function Retirements(log: seq<Step>): seq<Retirement> {
    if log == [] then [] else Retirements(Front(log)) + RetiredBy(Exec(Front(log)), Last(log))
  }

  /** The job that was enqueued under this id. */
  ghost function Pushed(log: seq<Step>, id: JobId): Option<Job> {
    if log == [] then None
    else if Last(log).Enqueue? && Last(log).job.id == id then Some(Last(log).job)
    else Pushed(Front(log), id)
  }

  /** The job this step leases, if any. */
  ghost function LeasesNow(s: State, e: Step): set<JobId> {
    if e.Pull? && FirstMatch(s.pending, e.features) < |s.pending|
    then {s.pending[FirstMatch(s.pending, e.features)].id} else {}
  }

  /** The ids that have been leased at least once. */
  ghost function EverLeased(log: seq<Step>): set<JobId> {
    if log == [] then {}
    else EverLeased(Front(log)) + LeasesNow(Exec(Front(log)), Last(log))
  }

  /** Results of accepted completions, in order. */
  ghost function AcceptedBy(s: State, e: Step): seq<BuildResult> {
    if e.StartComplete? && LeasedTo(s.leased, e.id, e.builder) then [e.result] else []
  }

  ghost function Accepted(log: seq<Step>): seq<BuildResult> {
    if log == [] then [] else Accepted(Front(log)) + AcceptedBy(Exec(Front(log)), Last(log))
  }

  /** Results handed out by take_pending_fetches, in order. */
  ghost function Taken(log: seq<Step>): seq<BuildResult> {
    if log == [] then []
    else Taken(Front(log)) + (if Last(log).TakeFetches? then Exec(Front(log)).fetches else [])
  }
}
