/** The queue at the grain of single lock acquisitions (iroh-nix/src/build.rs:205-422): any number of threads,
    each taking a lock, touching data under the locks it holds, or giving a lock back, one move at a time.
    Every reachable state, and every answer a call gives, is explained by a run of `Queue`; and the locks are
    those of `Locks`.
 */
module Machine {
  import opened Common
  import opened Queue
  import opened Conservation
  import opened Poll
  import Locks

  type Tid = nat

  /** What a builder reports about its job. */
  datatype Report = Success(result: BuildResult) | Failure(error: string)

  datatype Call =
    | PushCall(spec: JobSpec)
    | PullCall(builder: Endpoint, features: seq<string>, stamp: Time)
    | HeartbeatCall(id: JobId, builder: Endpoint, status: string, now: Time)
    | ReportCall(id: JobId, builder: Endpoint, report: Report)
    | SweepCall(now: Time)
    | StatsCall
    | ListPendingCall
    | ListLeasedCall
    | OutcomeCall(drv: DrvHash)
    | TakeFetchesCall

  /** One access to the data, under locks that are already held. */
  datatype Act =
    | TakeNumber(spec: JobSpec)
    | Append(job: Job)
    | Announce(features: seq<string>, wasEmpty: bool)
    | Find(builder: Endpoint, features: seq<string>, stamp: Time)
    | InsertLease(i: nat, job: Job, builder: Endpoint, features: seq<string>, stamp: Time)
    | Beat(id: JobId, builder: Endpoint, status: string, now: Time)
    | TakeOut(id: JobId, builder: Endpoint, report: Report)
    | GiveBack(id: JobId, lease: Lease, builder: Endpoint, report: Report)
    | AddFetch(id: JobId, lease: Lease, result: BuildResult)
    | Record(id: JobId, lease: Lease, report: Report)
    | SweepAll(now: Time)
    | Count
    | ReadPending
    | ReadLeased
    | ReadOutcome(drv: DrvHash)
    | TakeAll

  /** What remains of a call.  An access decides itself how the call goes on. */
  datatype Code = Done | Acquire(lock: Locks.Lock, next: Code) | Release(lock: Locks.Lock, next: Code) | Access(act: Act)

  datatype Thread = Thread(held: set<Locks.Lock>, todo: Code)

  function Single(l: Locks.Lock, a: Act): Code { Acquire(l, Access(a)) }

  function Program(c: Call): Code {
    match c
    case PushCall(spec) => Single(Locks.NextJobId, TakeNumber(spec))
    case PullCall(b, f, stamp) => Single(Locks.Pending, Find(b, f, stamp))
    case HeartbeatCall(id, b, status, now) => Single(Locks.Leased, Beat(id, b, status, now))
    case ReportCall(id, b, report) => Single(Locks.Leased, TakeOut(id, b, report))
    case SweepCall(now) => Acquire(Locks.Leased, Acquire(Locks.Pending, Access(SweepAll(now))))
    case StatsCall => Acquire(Locks.Pending, Acquire(Locks.Leased, Acquire(Locks.Completed, Access(Count))))
    case ListPendingCall => Single(Locks.Pending, ReadPending)
    case ListLeasedCall => Single(Locks.Leased, ReadLeased)
    case OutcomeCall(drv) => Single(Locks.Completed, ReadOutcome(drv))
    case TakeFetchesCall => Single(Locks.PendingFetch, TakeAll)
  }

  /** The locks under which an access happens. */
  function Under(a: Act): set<Locks.Lock> {
    match a
    case TakeNumber(_) => {Locks.NextJobId}
    case Append(_) => {Locks.Pending}
    case Announce(_, _) => {Locks.Pending, Locks.Needed}
    case Find(_, _, _) => {Locks.Pending}
    case InsertLease(_, _, _, _, _) => {Locks.Pending, Locks.Leased}
    case Beat(_, _, _, _) => {Locks.Leased}
    case TakeOut(_, _, _) => {Locks.Leased}
    case GiveBack(_, _, _, _) => {Locks.Leased}
    case AddFetch(_, _, _) => {Locks.Leased, Locks.PendingFetch}
    case Record(_, _, _) => {Locks.Leased, Locks.Completed}
    case SweepAll(_) => {Locks.Leased, Locks.Pending}
    case Count => {Locks.Pending, Locks.Leased, Locks.Completed}
    case ReadPending => {Locks.Pending}
    case ReadLeased => {Locks.Leased}
    case ReadOutcome(_) => {Locks.Completed}
    case TakeAll => {Locks.PendingFetch}
  }

  /** What a call answers. */
  datatype Answer =
    | PushedAs(job: Job)
    | Pulled(builder: Endpoint, features: seq<string>, stamp: Time, taken: Option<Job>)
    | Beaten(id: JobId, builder: Endpoint, status: string, now: Time, ok: bool)
    | Reported(id: JobId, builder: Endpoint, report: Report, ok: bool)
    | TimedOut(now: Time, ids: seq<JobId>)
    | Counts(pending: nat, leased: nat, completed: nat)
    | PendingList(jobs: seq<Job>)
    | LeasedList(leases: map<JobId, Lease>)
    | OutcomeIs(drv: DrvHash, outcome: Option<Outcome>)
    | Fetched(results: seq<BuildResult>)

  /** An answer, and the point of the explaining run at which it was decided. */
  datatype Reply = Reply(thread: Tid, at: nat, answer: Answer)

  /** The shared data; what the holder of the pending lock has taken out of the queue, and the holder of the
      leased lock out of the table; the threads; and, for the proof, the explaining run and the answers. */
  datatype System = System(
    nextId: JobId,
    pending: seq<Job>,
    needed: Option<seq<string>>,
    leased: map<JobId, Lease>,
    completed: map<DrvHash, Outcome>,
    fetches: seq<BuildResult>,
    jobOut: Option<(nat, Job)>,
    leaseOut: Option<(JobId, Lease)>,
    recording: Option<Recording>,
    inFlight: set<JobId>,
    threads: map<Tid, Thread>,
    log: seq<Step>,
    replies: seq<Reply>)

  const START := System(1, [], None, map[], map[], [], None, None, None, {}, map[], [], [])

  // --- Accesses ------------------------------------------------------------------------------------------

  function ReportStep(id: JobId, b: Endpoint, report: Report): Step {
    match report
    case Success(r) => StartComplete(id, b, r)
    case Failure(error) => Step.Fail(id, b, error)
  }

  function ReportOutcome(b: Endpoint, report: Report): Outcome {
    match report
    case Success(r) => Completed(r)
    case Failure(error) => Failed(b, error)
  }

  /** Note the step that the access amounts to. */
  ghost function Logged(s: System, e: Step): System { s.(log := s.log + [e]) }

  ghost function Replied(s: System, t: Tid, answer: Answer): System { s.(replies := s.replies + [Reply(t, |s.log|, answer)]) }

  /** The state after an access, and how the call goes on.  `order` is the order in which a sweep visits the
      expired leases. */
  ghost function Perform(s: System, t: Tid, a: Act, order: seq<JobId>): (System, Code) {
    match a
    case TakeNumber(spec) =>
      (Logged(s.(nextId := s.nextId + 1, inFlight := s.inFlight + {s.nextId}), TakeId),
       Release(Locks.NextJobId, Single(Locks.Pending, Append(Job(s.nextId, spec)))))
    case Append(job) =>
      (Logged(Replied(s, t, PushedAs(job)).(pending := s.pending + [job], inFlight := s.inFlight - {job.id}), Enqueue(job)),
       Single(Locks.Needed, Announce(job.spec.features, s.pending == [])))
    case Announce(f, wasEmpty) =>
      (s.(needed := if wasEmpty || s.needed.None? then Some(f) else s.needed),
       Release(Locks.Needed, Release(Locks.Pending, Done)))
    case Find(b, f, stamp) =>
      var i := FirstMatch(s.pending, f);
      if i == |s.pending|
      then (Logged(Replied(s, t, Pulled(b, f, stamp, None)), Step.Pull(b, f, stamp)), Release(Locks.Pending, Done))
      else (s.(pending := Without(s.pending, i), jobOut := Some((i, s.pending[i]))),
            Single(Locks.Leased, InsertLease(i, s.pending[i], b, f, stamp)))
    case InsertLease(i, job, b, f, stamp) =>
      (Logged(Replied(s, t, Pulled(b, f, stamp, Some(job))).(
                jobOut := None, leased := s.leased[job.id := Lease(job, b, stamp, stamp, "starting")]),
              Step.Pull(b, f, stamp)),
       Release(Locks.Leased, Release(Locks.Pending, Done)))
    case Beat(id, b, status, now) =>
      var ok := LeasedTo(s.leased, id, b);
      (Logged(Replied(s, t, Beaten(id, b, status, now, ok)).(
                leased := if ok then s.leased[id := s.leased[id].(lastHeartbeat := now, status := status)] else s.leased),
              Step.Heartbeat(id, b, status, now)),
       Release(Locks.Leased, Done))
    case TakeOut(id, b, report) =>
      if id !in s.leased
      then (Logged(Replied(s, t, Reported(id, b, report, false)), ReportStep(id, b, report)), Release(Locks.Leased, Done))
      else
        var lease := s.leased[id];
        (s.(leased := s.leased - {id}, leaseOut := Some((id, lease))),
         if lease.builder != b then Access(GiveBack(id, lease, b, report))
         else match report
           case Success(r) => Single(Locks.PendingFetch, AddFetch(id, lease, r))
           case Failure(_) => Single(Locks.Completed, Record(id, lease, report)))
    case GiveBack(id, lease, b, report) =>
      (Logged(Replied(s, t, Reported(id, b, report, false)).(leased := s.leased[id := lease], leaseOut := None),
              ReportStep(id, b, report)),
       Release(Locks.Leased, Done))
    case AddFetch(id, lease, r) =>
      (Logged(Replied(s, t, Reported(id, lease.builder, Success(r), true)).(
                fetches := s.fetches + [r], recording := Some(Recording(id, lease.builder, r))),
              StartComplete(id, lease.builder, r)),
       Release(Locks.PendingFetch, Single(Locks.Completed, Record(id, lease, Success(r)))))
    case Record(id, lease, report) =>
      var s1 := if report.Failure? then Replied(s, t, Reported(id, lease.builder, report, true)) else s;
      (Logged(s1.(completed := s.completed[lease.job.spec.drv := ReportOutcome(lease.builder, report)],
                  leaseOut := None, recording := None),
              if report.Failure? then ReportStep(id, lease.builder, report) else RecordComplete),
       Release(Locks.Completed, Release(Locks.Leased, Done)))
    case SweepAll(now) =>
      (Logged(Replied(s, t, TimedOut(now, order)).(
                pending := Returned(s.leased, order) + s.pending, leased := s.leased - Expired(s.leased, now)),
              Step.Sweep(now, order)),
       Release(Locks.Pending, Release(Locks.Leased, Done)))
    case Count =>
      (Replied(s, t, Counts(|s.pending|, |s.leased|, |s.completed|)),
       Release(Locks.Completed, Release(Locks.Leased, Release(Locks.Pending, Done))))
    case ReadPending => (Replied(s, t, PendingList(s.pending)), Release(Locks.Pending, Done))
    case ReadLeased => (Replied(s, t, LeasedList(s.leased)), Release(Locks.Leased, Done))
    case ReadOutcome(drv) => (Replied(s, t, OutcomeIs(drv, Lookup(s.completed, drv))), Release(Locks.Completed, Done))
    case TakeAll =>
      (Logged(Replied(s, t, Fetched(s.fetches)).(fetches := []), TakeFetches), Release(Locks.PendingFetch, Done))
  }

  // --- Moves ---------------------------------------------------------------------------------------------

  datatype Move = Begin(t: Tid, call: Call) | Go(t: Tid, order: seq<JobId>)

  function ThreadOf(s: System, t: Tid): Thread { if t in s.threads then s.threads[t] else Thread({}, Done) }

  predicate Free(s: System, l: Locks.Lock) { forall t :: t in s.threads ==> l !in s.threads[t].held }

  ghost predicate CanGo(s: System, t: Tid, order: seq<JobId>) {
    match ThreadOf(s, t).todo
    case Done => false
    case Acquire(l, _) => Free(s, l)
    case Release(_, _) => true
    case Access(a) => a.SweepAll? ==> SweepOrder(s.leased, a.now, order)
  }

  ghost predicate Allowed(s: System, m: Move) {
    match m
    case Begin(t, _) => ThreadOf(s, t).todo.Done?
    case Go(t, order) => CanGo(s, t, order)
  }

  ghost function Do(s: System, m: Move): System {
    var th := ThreadOf(s, m.t);
    match m
    case Begin(t, call) => s.(threads := s.threads[t := th.(todo := Program(call))])
    case Go(t, order) =>
      match th.todo
      case Done => s
      case Acquire(l, next) => s.(threads := s.threads[t := Thread(th.held + {l}, next)])
      case Release(l, next) => s.(threads := s.threads[t := Thread(th.held - {l}, next)])
      case Access(a) =>
        var (s', next) := Perform(s, t, a, order);
        s'.(threads := s.threads[t := Thread(th.held, next)])
  }

  ghost predicate ValidMoves(moves: seq<Move>) {
    moves == [] || (ValidMoves(Front(moves)) && Allowed(After(Front(moves)), Last(moves)))
  }

  ghost function After(moves: seq<Move>): System {
    if moves == [] then START else Do(After(Front(moves)), Last(moves))
  }

  // --- What the state stands for ---------------------------------------------------------------------------

  /** The queue with the job that is being leased still in its place. */
  function Whole(pending: seq<Job>, out: Option<(nat, Job)>): seq<Job> {
    if out.Some? && out.value.0 <= |pending|
    then pending[..out.value.0] + [out.value.1] + pending[out.value.0..]
    else pending
  }

  /** The table with the lease that is being reported still in it. */
  function WholeTable(leased: map<JobId, Lease>, out: Option<(JobId, Lease)>): map<JobId, Lease> {
    if out.Some? then leased[out.value.0 := out.value.1] else leased
  }

  function Abs(s: System): State {
    State(s.nextId, s.inFlight, Whole(s.pending, s.jobOut), WholeTable(s.leased, s.leaseOut), s.completed, s.fetches, s.recording)
  }

  /** The answer is right for a call that meets this state and, if it changes something, is this step. */
  ghost predicate Says(s: State, e: Option<Step>, answer: Answer) {
    match answer
    case PushedAs(job) => e == Some(Enqueue(job))
    case Pulled(b, f, stamp, taken) =>
      && e == Some(Step.Pull(b, f, stamp))
      && taken == (var i := FirstMatch(s.pending, f); if i < |s.pending| then Some(s.pending[i]) else None)
    case Beaten(id, b, status, now, ok) => e == Some(Step.Heartbeat(id, b, status, now)) && ok == LeasedTo(s.leased, id, b)
    case Reported(id, b, report, ok) => e == Some(ReportStep(id, b, report)) && ok == LeasedTo(s.leased, id, b)
    case TimedOut(now, ids) => e == Some(Step.Sweep(now, ids))
    case Counts(p, l, c) => p == |s.pending| && l == |s.leased| && c == |s.completed|
    case PendingList(jobs) => jobs == s.pending
    case LeasedList(leases) => leases == s.leased
    case OutcomeIs(drv, o) => o == Lookup(s.completed, drv)
    case Fetched(results) => e == Some(TakeFetches) && results == s.fetches
  }

  /** The answer is right at its point of the run. */
  ghost predicate Answers(log: seq<Step>, r: Reply) {
    r.at <= |log| && Says(Exec(log[..r.at]), if r.at < |log| then Some(log[r.at]) else None, r.answer)
  }

  /** The state is that of a run of the queue, every answer given so far is what that run says, and the answers
      were decided in the order they were given. */
  ghost predicate Explained(s: System) {
    && ValidRun(s.log) && Exec(s.log) == Abs(s)
    && (forall i :: 0 <= i < |s.replies| ==> Answers(s.log, s.replies[i]))
    && (forall i, j :: 0 <= i < j < |s.replies| ==> s.replies[i].at <= s.replies[j].at)
  }

  // --- The invariant -----------------------------------------------------------------------------------------

  /** The next access of a call. */
  function NextAct(c: Code): Option<Act> {
    match c
    case Done => None
    case Acquire(_, next) => NextAct(next)
    case Release(_, next) => NextAct(next)
    case Access(a) => Some(a)
  }

  function JobOf(c: Code): Option<(nat, Job)> {
    match NextAct(c)
    case Some(InsertLease(i, job, _, _, _)) => Some((i, job))
    case _ => None
  }

  function LeaseOf(c: Code): Option<(JobId, Lease)> {
    match NextAct(c)
    case Some(GiveBack(id, lease, _, _)) => Some((id, lease))
    case Some(AddFetch(id, lease, _)) => Some((id, lease))
    case Some(Record(id, lease, _)) => Some((id, lease))
    case _ => None
  }

  function RecordingOf(c: Code): Option<Recording> {
    match NextAct(c)
    case Some(Record(id, lease, Success(r))) => Some(Recording(id, lease.builder, r))
    case _ => None
  }

  /** Locks are taken and returned so that each access happens under exactly its locks, and nothing taken out is
      held across taking or returning the lock that protects it. */
  ghost predicate Proper(held: set<Locks.Lock>, c: Code)
    decreases c
  {
    match c
    case Done => held == {}
    case Access(a) => held == Under(a)
    case Acquire(l, next) => l !in held && Settled(l, next) && Proper(held + {l}, next)
    case Release(l, next) => l in held && Settled(l, next) && Proper(held - {l}, next)
  }

  ghost predicate Settled(l: Locks.Lock, c: Code) {
    && (l == Locks.Pending ==> JobOf(c).None?)
    && (l == Locks.Leased ==> LeaseOf(c).None?)
  }

  /** What a thread knows about the data under the locks it holds. */
  ghost predicate Knows(s: System, th: Thread) {
    && (Locks.Pending in th.held ==> s.jobOut == JobOf(th.todo))
    && (Locks.Leased in th.held ==> s.leaseOut == LeaseOf(th.todo) && s.recording == RecordingOf(th.todo))
    && match NextAct(th.todo)
       case Some(InsertLease(i, job, _, f, _)) => i <= |s.pending| && FirstMatch(Whole(s.pending, Some((i, job))), f) == i
       case Some(GiveBack(id, lease, b, _)) => id !in s.leased && lease.builder != b
       case Some(AddFetch(id, _, _)) => id !in s.leased
       case Some(Record(id, _, _)) => id !in s.leased
       case Some(Append(job)) => job.id in s.inFlight
       case _ => true
  }

  /** The id this thread's push has taken and not yet enqueued. */
  function OwnId(th: Thread): Option<JobId> {
    match NextAct(th.todo)
    case Some(Append(job)) => Some(job.id)
    case _ => None
  }

  ghost predicate ThreadOk(s: System, th: Thread) { Proper(th.held, th.todo) && Knows(s, th) }

  /** Nobody has two of anything: locks and unfinished ids belong to one thread. */
  ghost predicate Apart(s: System) {
    forall t, u :: t in s.threads && u in s.threads && t != u ==>
      && s.threads[t].held !! s.threads[u].held
      && (OwnId(s.threads[t]).Some? ==> OwnId(s.threads[t]) != OwnId(s.threads[u]))
  }

  /** With its lock free, nothing is taken out. */
  ghost predicate Tidy(s: System) {
    && (Free(s, Locks.Pending) ==> s.jobOut == None)
    && (Free(s, Locks.Leased) ==> s.leaseOut == None && s.recording == None)
  }

  ghost predicate Inv(s: System) {
    && Explained(s) && Apart(s) && Tidy(s)
    && forall t :: t in s.threads ==> ThreadOk(s, s.threads[t])
  }

  // --- Taking and returning locks --------------------------------------------------------------------------

  /** What is taken out is protected by the lock that is held. */
  lemma {:induction false} OutIsLocked(held: set<Locks.Lock>, c: Code)
    requires Proper(held, c)
    ensures JobOf(c).Some? ==> Locks.Pending in held
    ensures LeaseOf(c).Some? ==> Locks.Leased in held
    decreases c
  {
    match c
    case Done =>
    case Access(_) =>
    case Acquire(l, next) => OutIsLocked(held + {l}, next);
    case Release(l, next) => OutIsLocked(held - {l}, next);
  }

  lemma RecordingIsOut(c: Code)
    ensures RecordingOf(c).Some? ==> LeaseOf(c).Some?
  {
  }

  /** The fields that this set of locks does not protect are as before. */
  ghost predicate Kept(s: System, s': System, held: set<Locks.Lock>) {
    && (Locks.Pending !in held ==> s'.pending == s.pending && s'.jobOut == s.jobOut)
    && (Locks.Leased !in held ==> s'.leased == s.leased && s'.leaseOut == s.leaseOut && s'.recording == s.recording)
  }

  /** A thread is not disturbed by one that holds other locks. */
  lemma OthersKnow(s: System, s': System, held: set<Locks.Lock>, u: Thread)
    requires ThreadOk(s, u) && u.held !! held && Kept(s, s', held)
    requires OwnId(u).Some? && OwnId(u).value in s.inFlight ==> OwnId(u).value in s'.inFlight
    ensures ThreadOk(s', u)
  {
    OutIsLocked(u.held, u.todo);
  }

  /** The whole state after thread t has moved to `th'` and the data to those of s1. */
  ghost function Moved(s: System, s1: System, t: Tid, th': Thread): System { s1.(threads := s.threads[t := th']) }

  lemma MovedApart(s: System, s1: System, t: Tid, th': Thread)
    requires Apart(s)
    requires forall u :: u in s.threads && u != t ==>
               && s.threads[u].held !! th'.held
               && (OwnId(th').Some? ==> OwnId(th') != OwnId(s.threads[u]))
    ensures Apart(Moved(s, s1, t, th'))
  {
    hide OwnId;
  }

  lemma MovedKnow(s: System, s1: System, t: Tid, th': Thread, held: set<Locks.Lock>)
    requires (forall u :: u in s.threads ==> ThreadOk(s, s.threads[u])) && Kept(s, s1, held)
    requires forall u :: u in s.threads && u != t ==> s.threads[u].held !! held
    requires forall u :: u in s.threads && u != t ==>
               (OwnId(s.threads[u]).Some? && OwnId(s.threads[u]).value in s.inFlight ==> OwnId(s.threads[u]).value in s1.inFlight)
    requires ThreadOk(s1, th')
    ensures forall u :: u in Moved(s, s1, t, th').threads ==> ThreadOk(Moved(s, s1, t, th'), Moved(s, s1, t, th').threads[u])
  {
    hide OwnId, ThreadOk;
    var m := Moved(s, s1, t, th');
    forall u | u in m.threads ensures ThreadOk(m, m.threads[u]) {
      if u != t { OthersKnow(s, s1, held, s.threads[u]); }
      SameData(s1, m, m.threads[u]);
    }
  }

  lemma SameData(s: System, s': System, u: Thread)
    requires ThreadOk(s, u) && Kept(s, s', {}) && s'.inFlight == s.inFlight
    ensures ThreadOk(s', u)
  {
  }

  lemma BeginKeeps(s: System, t: Tid, call: Call)
    requires Inv(s) && ThreadOf(s, t).todo.Done?
    ensures Inv(Do(s, Begin(t, call)))
  {
    hide Explained;
    var th' := Thread({}, Program(call));
    assert ThreadOf(s, t).held == {};
    ProgramIsProper(call);
    MovedApart(s, s, t, th');
    MovedKnow(s, s, t, th', {});
    SameFree(s, s, t, th');
    SameExplained(s, Moved(s, s, t, th'));
  }

  function FirstAct(call: Call): Act {
    match call
    case PushCall(spec) => TakeNumber(spec)
    case PullCall(b, f, stamp) => Find(b, f, stamp)
    case HeartbeatCall(id, b, status, now) => Beat(id, b, status, now)
    case ReportCall(id, b, report) => TakeOut(id, b, report)
    case SweepCall(now) => SweepAll(now)
    case StatsCall => Count
    case ListPendingCall => ReadPending
    case ListLeasedCall => ReadLeased
    case OutcomeCall(drv) => ReadOutcome(drv)
    case TakeFetchesCall => TakeAll
  }

  /** One lock, one access. */
  lemma SingleIsProper(held: set<Locks.Lock>, l: Locks.Lock, a: Act)
    requires l !in held && Under(a) == held + {l} && Settled(l, Access(a))
    ensures Proper(held, Single(l, a)) && NextAct(Single(l, a)) == Some(a)
  {
    assert Proper(held + {l}, Access(a));
  }

  lemma SweepIsProper(now: Time)
    ensures Proper({}, Program(SweepCall(now))) && NextAct(Program(SweepCall(now))) == Some(SweepAll(now))
  {
    SingleIsProper({Locks.Leased}, Locks.Pending, SweepAll(now));
    assert {} + {Locks.Leased} == {Locks.Leased};
  }

  lemma StatsIsProper()
    ensures Proper({}, Program(StatsCall)) && NextAct(Program(StatsCall)) == Some(Count)
  {
    var inner := Single(Locks.Completed, Count);
    SingleIsProper({Locks.Pending, Locks.Leased}, Locks.Completed, Count);
    assert NextAct(Acquire(Locks.Leased, inner)) == Some(Count);
    assert {Locks.Pending} + {Locks.Leased} == {Locks.Pending, Locks.Leased} && {} + {Locks.Pending} == {Locks.Pending};
    assert Proper({Locks.Pending}, Acquire(Locks.Leased, inner));
  }

  lemma ProgramIsProper(call: Call)
    ensures Proper({}, Program(call)) && NextAct(Program(call)) == Some(FirstAct(call))
  {
    hide Proper;
    match call
    case SweepCall(now) => SweepIsProper(now);
    case StatsCall => StatsIsProper();
    case _ => SingleIsProper({}, Program(call).lock, FirstAct(call));
  }

  lemma SameExplained(s: System, s': System)
    requires Explained(s) && Abs(s') == Abs(s) && s'.log == s.log && s'.replies == s.replies
    ensures Explained(s')
  {
  }

  /** A thread that takes or returns nothing relevant leaves the locks as free as they were. */
  lemma SameFree(s: System, s1: System, t: Tid, th': Thread)
    requires Tidy(s) && th'.held == ThreadOf(s, t).held
    requires Kept(s, s1, th'.held)
    ensures Tidy(Moved(s, s1, t, th'))
  {
    var m := Moved(s, s1, t, th');
    forall l: Locks.Lock | Free(m, l) ensures Free(s, l) && l !in th'.held {
      assert t in m.threads && m.threads[t] == th';
      forall u | u in s.threads ensures l !in s.threads[u].held { assert u in m.threads; }
    }
  }

  /** A thread still knows what it needs after taking a free lock or returning one. */
  lemma LockMoveOk(s: System, t: Tid)
    requires Inv(s) && t in s.threads
    ensures var th := s.threads[t];
            && (th.todo.Acquire? && Free(s, th.todo.lock) ==>
                  ThreadOk(s, Thread(th.held + {th.todo.lock}, th.todo.next)) && OwnId(Thread(th.held + {th.todo.lock}, th.todo.next)) == OwnId(th))
            && (th.todo.Release? ==>
                  && ThreadOk(s, Thread(th.held - {th.todo.lock}, th.todo.next))
                  && OwnId(Thread(th.held - {th.todo.lock}, th.todo.next)) == OwnId(th)
                  && (th.todo.lock == Locks.Pending ==> s.jobOut == None)
                  && (th.todo.lock == Locks.Leased ==> s.leaseOut == None && s.recording == None))
  {
    hide Explained;
    var th := s.threads[t];
    assert ThreadOk(s, th);
    if th.todo.Acquire? || th.todo.Release? { RecordingIsOut(th.todo.next); }
  }

  lemma AcquireKeeps(s: System, t: Tid)
    requires Inv(s) && ThreadOf(s, t).todo.Acquire? && Free(s, ThreadOf(s, t).todo.lock)
    ensures Inv(Do(s, Go(t, [])))
  {
    hide Explained;
    var th := ThreadOf(s, t);
    var l, th' := th.todo.lock, Thread(th.held + {th.todo.lock}, th.todo.next);
    RecordingIsOut(th.todo.next);
    LockMoveOk(s, t);
    hide Knows, Proper, NextAct;
    MovedApart(s, s, t, th');
    MovedKnow(s, s, t, th', {});
    var m := Moved(s, s, t, th');
    forall k: Locks.Lock | Free(m, k) ensures Free(s, k) {
      assert m.threads[t] == th';
      forall u | u in s.threads ensures k !in s.threads[u].held { assert u in m.threads; }
    }
    SameExplained(s, m);
  }

  lemma ReleaseKeeps(s: System, t: Tid)
    requires Inv(s) && ThreadOf(s, t).todo.Release?
    ensures Inv(Do(s, Go(t, [])))
  {
    hide Explained;
    var th := ThreadOf(s, t);
    var l, th' := th.todo.lock, Thread(th.held - {th.todo.lock}, th.todo.next);
    RecordingIsOut(th.todo.next);
    LockMoveOk(s, t);
    hide Knows, Proper, NextAct;
    MovedApart(s, s, t, th');
    MovedKnow(s, s, t, th', {});
    var m := Moved(s, s, t, th');
    forall k: Locks.Lock | Free(m, k) ensures k == l || Free(s, k) {
      assert m.threads[t] == th';
      forall u | u in s.threads ensures k == l || k !in s.threads[u].held { assert u in m.threads; }
    }
    SameExplained(s, m);
  }

  // --- Accesses, one by one ----------------------------------------------------------------------------------

  /** An access by a thread that is at it. */
  ghost predicate At(s: System, t: Tid, a: Act) {
    Inv(s) && t in s.threads && s.threads[t] == Thread(Under(a), Access(a))
  }

  /** What an access must do for the invariant to survive. */
  ghost predicate Sound(s: System, s1: System, a: Act, next: Code) {
    && Explained(s1) && Kept(s, s1, Under(a))
    && ThreadOk(s1, Thread(Under(a), next))
    && (forall id :: id in s.inFlight ==> id in s1.inFlight || OwnId(Thread(Under(a), Access(a))) == Some(id))
    && (OwnId(Thread(Under(a), next)) == None || (OwnId(Thread(Under(a), next)) == Some(s.nextId) && s.nextId !in s.inFlight))
  }

  lemma SoundKeeps(s: System, s1: System, t: Tid, a: Act, next: Code)
    requires At(s, t, a) && Sound(s, s1, a, next)
    ensures Inv(Moved(s, s1, t, Thread(Under(a), next)))
  {
    hide Explained, Proper;
    var th' := Thread(Under(a), next);
    forall u | u in s.threads && u != t ensures
      && s.threads[u].held !! th'.held
      && (OwnId(s.threads[u]).Some? ==> OwnId(s.threads[u]).value in s.inFlight && OwnId(s.threads[u]).value in s1.inFlight)
      && (OwnId(th').Some? ==> OwnId(th') != OwnId(s.threads[u]))
    {
      assert ThreadOk(s, s.threads[u]);
    }
    MovedApart(s, s1, t, th');
    MovedKnow(s, s1, t, th', Under(a));
    SameFree(s, s1, t, th');
    SameExplained(s1, Moved(s, s1, t, th'));
  }

  /** Answers stay right as the run goes on. */
  lemma AnswersStay(log: seq<Step>, e: Step, r: Reply)
    requires Answers(log, r)
    ensures Answers(log + [e], r)
  {
    assert (log + [e])[..r.at] == log[..r.at];
  }

  /** An access that is a step of the queue. */
  lemma ExplainStep(s: System, s1: System, e: Step)
    requires Explained(s) && s1.log == s.log + [e] && Enabled(Abs(s), e) && Abs(s1) == Apply(Abs(s), e)
    requires s1.replies == s.replies ||
             exists t, answer :: s1.replies == s.replies + [Reply(t, |s.log|, answer)] && Says(Abs(s), Some(e), answer)
    ensures Explained(s1)
  {
    hide Exec, ValidRun, Enabled, Apply, Abs, Says;
    Queue.Extend(s.log, e);
    forall i | 0 <= i < |s1.replies| ensures Answers(s1.log, s1.replies[i]) {
      if i < |s.replies| {
        AnswersStay(s.log, e, s.replies[i]);
      } else {
        assert s1.log[..|s.log|] == s.log;
      }
    }
  }

  /** An access that only reads. */
  lemma ExplainRead(s: System, s1: System, t: Tid, answer: Answer)
    requires Explained(s) && s1.log == s.log && Abs(s1) == Abs(s)
    requires s1.replies == s.replies + [Reply(t, |s.log|, answer)] && Says(Abs(s), None, answer)
    ensures Explained(s1)
  {
    hide Exec, ValidRun, Abs, Says;
    assert s.log[..|s.log|] == s.log;
  }

  lemma AfterOne(held: set<Locks.Lock>, l: Locks.Lock)
    requires held == {l}
    ensures Proper(held, Release(l, Done)) && NextAct(Release(l, Done)) == None
  {
    assert held - {l} == {};
  }

  lemma AfterTwo(held: set<Locks.Lock>, k: Locks.Lock, l: Locks.Lock)
    requires held == {k, l} && k != l
    ensures var c := Release(k, Release(l, Done)); Proper(held, c) && NextAct(c) == None
  {
    assert held - {k} == {l};
    AfterOne({l}, l);
  }

  lemma AfterThree(held: set<Locks.Lock>, j: Locks.Lock, k: Locks.Lock, l: Locks.Lock)
    requires held == {j, k, l} && j != k && k != l && j != l
    ensures var c := Release(j, Release(k, Release(l, Done))); Proper(held, c) && NextAct(c) == None
  {
    assert held - {j} == {k, l};
    AfterTwo({k, l}, k, l);
  }

  lemma OneForAnother(held: set<Locks.Lock>, l: Locks.Lock, k: Locks.Lock, a: Act)
    requires l in held && k !in held - {l} && Under(a) == held - {l} + {k} && Settled(l, Access(a)) && Settled(k, Access(a))
    ensures Proper(held, Release(l, Single(k, a))) && NextAct(Release(l, Single(k, a))) == Some(a)
  {
    SingleIsProper(held - {l}, k, a);
  }

  lemma FreshNumber(s: System)
    requires Explained(s)
    ensures s.nextId !in s.inFlight
  {
    RunConserves(s.log, s.nextId);
  }

  /** What the thread knows when it is at its access. */
  lemma Own(s: System, t: Tid, a: Act)
    requires At(s, t, a)
    ensures Explained(s) && Knows(s, Thread(Under(a), Access(a)))
  {
    hide Explained, Knows, Proper;
    assert ThreadOk(s, s.threads[t]);
  }

  lemma JustAccess(a: Act)
    ensures Proper(Under(a), Access(a))
  {
  }

  lemma TakeNumberSound(s: System, t: Tid, spec: JobSpec)
    requires At(s, t, TakeNumber(spec))
    ensures var p := Perform(s, t, TakeNumber(spec), []); Sound(s, p.0, TakeNumber(spec), p.1)
  {
    hide At, Inv, Explained, Exec, ValidRun, Proper;
    Own(s, t, TakeNumber(spec));
    var p := Perform(s, t, TakeNumber(spec), []);
    FreshNumber(s);
    ExplainStep(s, p.0, TakeId);
    OneForAnother({Locks.NextJobId}, Locks.NextJobId, Locks.Pending, Append(Job(s.nextId, spec)));
  }

  lemma AppendSound(s: System, t: Tid, job: Job)
    requires At(s, t, Append(job))
    ensures var p := Perform(s, t, Append(job), []); Sound(s, p.0, Append(job), p.1)
  {
    hide At, Inv, Explained, Exec, ValidRun, Proper;
    Own(s, t, Append(job));
    var p := Perform(s, t, Append(job), []);
    assert s.jobOut == None && job.id in s.inFlight;
    assert Says(Abs(s), Some(Enqueue(job)), PushedAs(job));
    ExplainStep(s, p.0, Enqueue(job));
    SingleIsProper({Locks.Pending}, Locks.Needed, Announce(job.spec.features, s.pending == []));
  }

  lemma AnnounceSound(s: System, t: Tid, f: seq<string>, wasEmpty: bool)
    requires At(s, t, Announce(f, wasEmpty))
    ensures var p := Perform(s, t, Announce(f, wasEmpty), []); Sound(s, p.0, Announce(f, wasEmpty), p.1)
  {
    hide At, Inv, Explained, Exec, ValidRun, Proper;
    Own(s, t, Announce(f, wasEmpty));
    var p := Perform(s, t, Announce(f, wasEmpty), []);
    SameExplained(s, p.0);
    AfterTwo(Under(Announce(f, wasEmpty)), Locks.Needed, Locks.Pending);
  }

  lemma PutBackWhole(pending: seq<Job>, i: nat)
    requires i < |pending|
    ensures Whole(Without(pending, i), Some((i, pending[i]))) == pending
  {
  }

  lemma FindSound(s: System, t: Tid, b: Endpoint, f: seq<string>, stamp: Time)
    requires At(s, t, Find(b, f, stamp))
    ensures var p := Perform(s, t, Find(b, f, stamp), []); Sound(s, p.0, Find(b, f, stamp), p.1)
  {
    hide At, Inv, Explained, Exec, ValidRun, Proper;
    Own(s, t, Find(b, f, stamp));
    var a := Find(b, f, stamp);
    var p := Perform(s, t, a, []);
    var i := FirstMatch(s.pending, f);
    assert s.jobOut == None;
    if i == |s.pending| {
      assert Says(Abs(s), Some(Step.Pull(b, f, stamp)), Pulled(b, f, stamp, None));
      ExplainStep(s, p.0, Step.Pull(b, f, stamp));
        AfterOne({Locks.Pending}, Locks.Pending);
    } else {
      PutBackWhole(s.pending, i);
      SameExplained(s, p.0);
        SingleIsProper({Locks.Pending}, Locks.Leased, InsertLease(i, s.pending[i], b, f, stamp));
    }
  }

  lemma InsertLeaseSound(s: System, t: Tid, i: nat, job: Job, b: Endpoint, f: seq<string>, stamp: Time)
    requires At(s, t, InsertLease(i, job, b, f, stamp))
    ensures var a := InsertLease(i, job, b, f, stamp); var p := Perform(s, t, a, []); Sound(s, p.0, a, p.1)
  {
    hide At, Inv, Explained, Exec, ValidRun, Proper;
    Own(s, t, InsertLease(i, job, b, f, stamp));
    var a := InsertLease(i, job, b, f, stamp);
    var p := Perform(s, t, a, []);
    var whole := Whole(s.pending, s.jobOut);
    assert whole[i] == job && Without(whole, i) == s.pending;
    assert Says(Abs(s), Some(Step.Pull(b, f, stamp)), Pulled(b, f, stamp, Some(job)));
    ExplainStep(s, p.0, Step.Pull(b, f, stamp));
    AfterTwo(Under(InsertLease(i, job, b, f, stamp)), Locks.Leased, Locks.Pending);
  }

  lemma BeatSound(s: System, t: Tid, id: JobId, b: Endpoint, status: string, now: Time)
    requires At(s, t, Beat(id, b, status, now))
    ensures var a := Beat(id, b, status, now); var p := Perform(s, t, a, []); Sound(s, p.0, a, p.1)
  {
    hide At, Inv, Explained, Exec, ValidRun, Proper;
    Own(s, t, Beat(id, b, status, now));
    var a := Beat(id, b, status, now);
    var p := Perform(s, t, a, []);
    assert s.leaseOut == None && s.recording == None;
    assert Says(Abs(s), Some(Step.Heartbeat(id, b, status, now)), Beaten(id, b, status, now, LeasedTo(s.leased, id, b)));
    ExplainStep(s, p.0, Step.Heartbeat(id, b, status, now));
    AfterOne({Locks.Leased}, Locks.Leased);
  }

  /** A report by somebody who does not hold the lease changes nothing. */
  lemma RejectedReport(s: State, id: JobId, b: Endpoint, report: Report)
    requires s.recording.None? && !LeasedTo(s.leased, id, b)
    ensures Enabled(s, ReportStep(id, b, report)) && Apply(s, ReportStep(id, b, report)) == s
    ensures Says(s, Some(ReportStep(id, b, report)), Reported(id, b, report, false))
  {
  }

  lemma TakeOutSound(s: System, t: Tid, id: JobId, b: Endpoint, report: Report)
    requires At(s, t, TakeOut(id, b, report))
    ensures var a := TakeOut(id, b, report); var p := Perform(s, t, a, []); Sound(s, p.0, a, p.1)
  {
    hide At, Inv, Explained, Exec, ValidRun, Proper;
    Own(s, t, TakeOut(id, b, report));
    var a := TakeOut(id, b, report);
    var p := Perform(s, t, a, []);
    assert s.leaseOut == None && s.recording == None;
    if id !in s.leased {
      RejectedReport(Abs(s), id, b, report);
      ExplainStep(s, p.0, ReportStep(id, b, report));
        AfterOne({Locks.Leased}, Locks.Leased);
    } else {
      var lease := s.leased[id];
      assert (s.leased - {id})[id := lease] == s.leased;
      SameExplained(s, p.0);
        if lease.builder != b {
        JustAccess(GiveBack(id, lease, b, report));
      } else {
        match report
        case Success(r) => SingleIsProper({Locks.Leased}, Locks.PendingFetch, AddFetch(id, lease, r));
        case Failure(_) => SingleIsProper({Locks.Leased}, Locks.Completed, Record(id, lease, report));
      }
    }
  }

  lemma GiveBackSound(s: System, t: Tid, id: JobId, lease: Lease, b: Endpoint, report: Report)
    requires At(s, t, GiveBack(id, lease, b, report))
    ensures var a := GiveBack(id, lease, b, report); var p := Perform(s, t, a, []); Sound(s, p.0, a, p.1)
  {
    hide At, Inv, Explained, Exec, ValidRun, Proper;
    Own(s, t, GiveBack(id, lease, b, report));
    var a := GiveBack(id, lease, b, report);
    var p := Perform(s, t, a, []);
    RejectedReport(Abs(s), id, b, report);
    ExplainStep(s, p.0, ReportStep(id, b, report));
    AfterOne({Locks.Leased}, Locks.Leased);
  }

  lemma AddFetchSound(s: System, t: Tid, id: JobId, lease: Lease, r: BuildResult)
    requires At(s, t, AddFetch(id, lease, r))
    ensures var a := AddFetch(id, lease, r); var p := Perform(s, t, a, []); Sound(s, p.0, a, p.1)
  {
    hide At, Inv, Explained, Exec, ValidRun, Proper;
    Own(s, t, AddFetch(id, lease, r));
    var a := AddFetch(id, lease, r);
    var p := Perform(s, t, a, []);
    assert Says(Abs(s), Some(StartComplete(id, lease.builder, r)), Reported(id, lease.builder, Success(r), true));
    ExplainStep(s, p.0, StartComplete(id, lease.builder, r));
    OneForAnother(Under(a), Locks.PendingFetch, Locks.Completed, Record(id, lease, Success(r)));
  }

  lemma RecordSound(s: System, t: Tid, id: JobId, lease: Lease, report: Report)
    requires At(s, t, Record(id, lease, report))
    ensures var a := Record(id, lease, report); var p := Perform(s, t, a, []); Sound(s, p.0, a, p.1)
  {
    hide At, Inv, Explained, Exec, ValidRun, Proper;
    Own(s, t, Record(id, lease, report));
    var a := Record(id, lease, report);
    var p := Perform(s, t, a, []);
    assert s.leased[id := lease] - {id} == s.leased;
    if report.Failure? {
      assert Says(Abs(s), Some(ReportStep(id, lease.builder, report)), Reported(id, lease.builder, report, true));
      ExplainStep(s, p.0, ReportStep(id, lease.builder, report));
    } else {
      ExplainStep(s, p.0, RecordComplete);
    }
    AfterTwo(Under(Record(id, lease, report)), Locks.Completed, Locks.Leased);
  }

  lemma SweepSound(s: System, t: Tid, now: Time, order: seq<JobId>)
    requires At(s, t, SweepAll(now)) && SweepOrder(s.leased, now, order)
    ensures var p := Perform(s, t, SweepAll(now), order); Sound(s, p.0, SweepAll(now), p.1)
  {
    hide At, Inv, Explained, Exec, ValidRun, Proper;
    Own(s, t, SweepAll(now));
    var p := Perform(s, t, SweepAll(now), order);
    assert s.leaseOut == None && s.recording == None && s.jobOut == None;
    assert Says(Abs(s), Some(Step.Sweep(now, order)), TimedOut(now, order));
    ExplainStep(s, p.0, Step.Sweep(now, order));
    AfterTwo(Under(SweepAll(now)), Locks.Pending, Locks.Leased);
  }

  /** The answer a reading access gives. */
  ghost function Reading(s: System, a: Act): Answer
    requires a.Count? || a.ReadPending? || a.ReadLeased? || a.ReadOutcome?
  {
    match a
    case Count => Counts(|s.pending|, |s.leased|, |s.completed|)
    case ReadPending => PendingList(s.pending)
    case ReadLeased => LeasedList(s.leased)
    case ReadOutcome(drv) => OutcomeIs(drv, Lookup(s.completed, drv))
  }

  lemma ReadSound(s: System, t: Tid, a: Act)
    requires At(s, t, a) && (a.Count? || a.ReadPending? || a.ReadLeased? || a.ReadOutcome?)
    ensures var p := Perform(s, t, a, []); Sound(s, p.0, a, p.1)
  {
    hide At, Inv, Explained, Exec, ValidRun, Proper;
    Own(s, t, a);
    var p := Perform(s, t, a, []);
    assert Says(Abs(s), None, Reading(s, a));
    ExplainRead(s, p.0, t, Reading(s, a));
    match a
    case Count =>
      AfterThree(Under(Count), Locks.Completed, Locks.Leased, Locks.Pending);
    case ReadPending => AfterOne({Locks.Pending}, Locks.Pending);
    case ReadLeased => AfterOne({Locks.Leased}, Locks.Leased);
    case ReadOutcome(_) => AfterOne({Locks.Completed}, Locks.Completed);
  }

  lemma TakeAllSound(s: System, t: Tid)
    requires At(s, t, TakeAll)
    ensures var p := Perform(s, t, TakeAll, []); Sound(s, p.0, TakeAll, p.1)
  {
    hide At, Inv, Explained, Exec, ValidRun, Proper;
    Own(s, t, TakeAll);
    var p := Perform(s, t, TakeAll, []);
    assert Says(Abs(s), Some(TakeFetches), Fetched(s.fetches));
    ExplainStep(s, p.0, TakeFetches);
    AfterOne({Locks.PendingFetch}, Locks.PendingFetch);
  }

  lemma AccessSound(s: System, t: Tid, a: Act, order: seq<JobId>)
    requires At(s, t, a) && (a.SweepAll? ==> SweepOrder(s.leased, a.now, order))
    ensures var p := Perform(s, t, a, order); Sound(s, p.0, a, p.1)
  {
    hide At, Sound, SweepOrder;
    match a
    case TakeNumber(spec) => TakeNumberSound(s, t, spec);
    case Append(job) => AppendSound(s, t, job);
    case Announce(f, wasEmpty) => AnnounceSound(s, t, f, wasEmpty);
    case Find(b, f, stamp) => FindSound(s, t, b, f, stamp);
    case InsertLease(i, job, b, f, stamp) => InsertLeaseSound(s, t, i, job, b, f, stamp);
    case Beat(id, b, status, now) => BeatSound(s, t, id, b, status, now);
    case TakeOut(id, b, report) => TakeOutSound(s, t, id, b, report);
    case GiveBack(id, lease, b, report) => GiveBackSound(s, t, id, lease, b, report);
    case AddFetch(id, lease, r) => AddFetchSound(s, t, id, lease, r);
    case Record(id, lease, report) => RecordSound(s, t, id, lease, report);
    case SweepAll(now) => SweepSound(s, t, now, order);
    case TakeAll => TakeAllSound(s, t);
    case _ => ReadSound(s, t, a);
  }

  // --- The refinement ------------------------------------------------------------------------------------------

  lemma MoveKeeps(s: System, m: Move)
    requires Inv(s) && Allowed(s, m)
    ensures Inv(Do(s, m))
  {
    hide Inv, Perform, Explained;
    match m
    case Begin(t, call) => BeginKeeps(s, t, call);
    case Go(t, order) =>
      match ThreadOf(s, t).todo
      case Acquire(_, _) => AcquireKeeps(s, t);
      case Release(_, _) => ReleaseKeeps(s, t);
      case Access(a) =>
        AtAccess(s, t, a);
        AccessSound(s, t, a, order);
        var p := Perform(s, t, a, order);
        SoundKeeps(s, p.0, t, a, p.1);
  }

  lemma AtAccess(s: System, t: Tid, a: Act)
    requires Inv(s) && ThreadOf(s, t).todo == Access(a)
    ensures At(s, t, a)
  {
    hide Explained;
  }

  /** For any number of threads and every interleaving of their lock acquisitions, accesses and releases, the
      queue is in a state of some run of `Queue`, and every answer any call has given is what that run says. */
  lemma {:induction false} EveryInterleavingIsARun(moves: seq<Move>)
    requires ValidMoves(moves)
    ensures Inv(After(moves))
  {
    if moves == [] {
      assert Abs(START) == INIT;
    } else {
      hide Inv;
      EveryInterleavingIsARun(Front(moves));
      MoveKeeps(After(Front(moves)), Last(moves));
    }
  }

  // --- Polls -----------------------------------------------------------------------------------------------------

  /** The answers of a poll's five reads, given in this order, are the snapshots of one run at ordered points;
      so everything proved about polls over runs holds of the threads of this machine. */
  lemma PollReadsARun(moves: seq<Move>, i: seq<nat>, id: JobId, drv: DrvHash) returns (r: Reads)
    requires ValidMoves(moves) && |i| == 5 && i[0] < i[1] < i[2] < i[3] < i[4] < |After(moves).replies|
    requires var a := After(moves).replies;
             && a[i[0]].answer.LeasedList? && a[i[1]].answer.PendingList? && a[i[2]].answer.LeasedList?
             && a[i[3]].answer.PendingList? && a[i[4]].answer.OutcomeIs? && a[i[4]].answer.drv == drv
             && SeenDrv(a[i[0]].answer.leases, a[i[1]].answer.jobs, id) == Some(drv)
    ensures
      var a, log := After(moves).replies, After(moves).log;
      && ValidRun(log) && r.Within(log)
      && Poll.Answer(log, r, id) ==
         if id in a[i[2]].answer.leases then Building(a[i[2]].answer.leases[id].builder)
         else if FindPending(a[i[3]].answer.jobs, id).Some? then BuildPending
         else match a[i[4]].answer.outcome { case Some(o) => OutcomeState(o) case None => BuildPending }
  {
    hide Exec, ValidRun, Abs, Perform, Do, Apart, Tidy, ThreadOk;
    EveryInterleavingIsARun(moves);
    var s := After(moves);
    var a := s.replies;
    r := Reads(a[i[0]].at, a[i[1]].at, a[i[2]].at, a[i[3]].at, a[i[4]].at);
    forall k | 0 <= k < 5 ensures Answers(s.log, a[i[k]]) {}
  }

  // --- The locks are those of `Locks` ------------------------------------------------------------------------------

  function OpOf(call: Call): Locks.Op {
    match call
    case PushCall(_) => Locks.Push
    case PullCall(_, _, _) => Locks.Pull(true)
    case HeartbeatCall(_, _, _, _) => Locks.Heartbeat
    case ReportCall(_, _, Success(_)) => Locks.Complete(true)
    case ReportCall(_, _, Failure(_)) => Locks.Fail(true)
    case SweepCall(_) => Locks.CheckTimeouts
    case StatsCall => Locks.Stats
    case ListPendingCall => Locks.ListPending
    case ListLeasedCall => Locks.ListLeased
    case OutcomeCall(_) => Locks.GetOutcome
    case TakeFetchesCall => Locks.TakePendingFetches
  }

  /** The lock traffic still to come after an access, if the call goes the long way. */
  function Ahead(a: Act): Locks.Code {
    match a
    case TakeNumber(_) => Locks.Release(Locks.NextJobId, Locks.Nest(Locks.Pending, Locks.Needed))
    case Append(_) => Locks.Acquire(Locks.Needed, Locks.Release(Locks.Needed, Locks.Release(Locks.Pending, Locks.Done)))
    case Announce(_, _) => Locks.Release(Locks.Needed, Locks.Release(Locks.Pending, Locks.Done))
    case Find(_, _, _) => Locks.Acquire(Locks.Leased, Locks.Release(Locks.Leased, Locks.Release(Locks.Pending, Locks.Done)))
    case InsertLease(_, _, _, _, _) => Locks.Release(Locks.Leased, Locks.Release(Locks.Pending, Locks.Done))
    case Beat(_, _, _, _) => Locks.Release(Locks.Leased, Locks.Done)
    case TakeOut(_, _, Success(_)) =>
      Locks.Acquire(Locks.PendingFetch, Locks.Release(Locks.PendingFetch,
        Locks.Acquire(Locks.Completed, Locks.Release(Locks.Completed, Locks.Release(Locks.Leased, Locks.Done)))))
    case TakeOut(_, _, Failure(_)) =>
      Locks.Acquire(Locks.Completed, Locks.Release(Locks.Completed, Locks.Release(Locks.Leased, Locks.Done)))
    case GiveBack(_, _, _, _) => Locks.Release(Locks.Leased, Locks.Done)
    case AddFetch(_, _, _) =>
      Locks.Release(Locks.PendingFetch,
        Locks.Acquire(Locks.Completed, Locks.Release(Locks.Completed, Locks.Release(Locks.Leased, Locks.Done))))
    case Record(_, _, _) => Locks.Release(Locks.Completed, Locks.Release(Locks.Leased, Locks.Done))
    case SweepAll(_) => Locks.Release(Locks.Pending, Locks.Release(Locks.Leased, Locks.Done))
    case Count => Locks.Release(Locks.Completed, Locks.Release(Locks.Leased, Locks.Release(Locks.Pending, Locks.Done)))
    case ReadPending => Locks.Release(Locks.Pending, Locks.Done)
    case ReadLeased => Locks.Release(Locks.Leased, Locks.Done)
    case ReadOutcome(_) => Locks.Release(Locks.Completed, Locks.Done)
    case TakeAll => Locks.Release(Locks.PendingFetch, Locks.Done)
  }

  function Skeleton(c: Code): Locks.Code {
    match c
    case Done => Locks.Done
    case Acquire(l, next) => Locks.Acquire(l, Skeleton(next))
    case Release(l, next) => Locks.Release(l, Skeleton(next))
    case Access(a) => Ahead(a)
  }

  /** Leaving out the data, each call is the lock program of its operation. */
  lemma SkeletonIsProgram(call: Call)
    ensures Skeleton(Program(call)) == Locks.Program(OpOf(call))
  {
    match call
    case SweepCall(now) => assert Skeleton(Single(Locks.Pending, SweepAll(now))) == Locks.Acquire(Locks.Pending, Ahead(SweepAll(now)));
    case StatsCall =>
      var inner := Single(Locks.Completed, Count);
      assert Skeleton(inner) == Locks.Acquire(Locks.Completed, Ahead(Count));
      assert Skeleton(Acquire(Locks.Leased, inner)) == Locks.Acquire(Locks.Leased, Skeleton(inner));
    case _ =>
  }

  ghost predicate Climbing(rank: Locks.Order, s: System) {
    forall t :: t in s.threads ==> Locks.Upwards(rank, s.threads[t].held, Skeleton(s.threads[t].todo))
  }

  /** The call goes on as planned, or returns early and gives back what it holds. */
  lemma GoesOn(s: System, t: Tid, a: Act, order: seq<JobId>)
    ensures
      var next := Perform(s, t, a, order).1;
      || Skeleton(next) == Ahead(a)
      || (a.Find? && next == Release(Locks.Pending, Done))
      || (a.TakeOut? && (next == Release(Locks.Leased, Done) || (next.Access? && next.act.GiveBack?)))
  {
    var next := Perform(s, t, a, order).1;
    match a
    case TakeNumber(spec) =>
      assert Skeleton(Single(Locks.Pending, Append(Job(s.nextId, spec)))) == Locks.Acquire(Locks.Pending, Ahead(Append(Job(s.nextId, spec))));
    case AddFetch(id, lease, r) =>
      assert Skeleton(Single(Locks.Completed, Record(id, lease, Success(r)))) == Locks.Acquire(Locks.Completed, Ahead(Record(id, lease, Success(r))));
    case TakeOut(id, b, Success(r)) =>
    case Count =>
      assert Skeleton(Release(Locks.Leased, Release(Locks.Pending, Done))) == Locks.Release(Locks.Leased, Locks.Release(Locks.Pending, Locks.Done));
    case _ =>
  }

  lemma ReturnsUpwards(rank: Locks.Order, l: Locks.Lock)
    ensures Locks.Upwards(rank, {l}, Locks.Release(l, Locks.Done))
  {
    assert {l} - {l} == {};
  }

  lemma MoveClimbs(rank: Locks.Order, s: System, m: Move)
    requires Inv(s) && Allowed(s, m) && Climbing(rank, s)
    requires m.Begin? ==> Locks.Upwards(rank, {}, Locks.Program(OpOf(m.call)))
    ensures Climbing(rank, Do(s, m))
  {
    hide Perform, Explained, Apart, Tidy, Knows, Program, Ahead, Locks.Program;
    var th := ThreadOf(s, m.t);
    match m
    case Begin(t, call) =>
      assert th.held == {};
      SkeletonIsProgram(call);
    case Go(t, order) =>
      assert t in s.threads && Locks.Upwards(rank, th.held, Skeleton(th.todo));
      if th.todo.Access? {
        var a := th.todo.act;
        assert ThreadOk(s, th);
        GoesOn(s, t, a, order);
        EarlyReturns(rank, a, Perform(s, t, a, order).1);
      }
  }

  lemma EarlyReturns(rank: Locks.Order, a: Act, next: Code)
    requires Locks.Upwards(rank, Under(a), Ahead(a))
    requires
      || Skeleton(next) == Ahead(a)
      || (a.Find? && next == Release(Locks.Pending, Done))
      || (a.TakeOut? && (next == Release(Locks.Leased, Done) || (next.Access? && next.act.GiveBack?)))
    ensures Locks.Upwards(rank, Under(a), Skeleton(next))
  {
    if Skeleton(next) != Ahead(a) {
      ReturnsUpwards(rank, Locks.Pending);
      ReturnsUpwards(rank, Locks.Leased);
    }
  }

  /** Every call begun takes its locks along this order. */
  ghost predicate CallsClimb(rank: Locks.Order, moves: seq<Move>) {
    forall k :: 0 <= k < |moves| && moves[k].Begin? ==> Locks.Upwards(rank, {}, Locks.Program(OpOf(moves[k].call)))
  }

  lemma {:induction false} RunClimbs(rank: Locks.Order, moves: seq<Move>)
    requires ValidMoves(moves) && CallsClimb(rank, moves)
    ensures Climbing(rank, After(moves))
  {
    if moves != [] {
      hide Inv, Climbing, Do;
      RunClimbs(rank, Front(moves));
      EveryInterleavingIsARun(Front(moves));
      MoveClimbs(rank, After(Front(moves)), Last(moves));
    }
  }

  /** Some enumeration of a set. */
  lemma {:induction false} SomeOrder(S: set<JobId>) returns (order: seq<JobId>)
    ensures NoDup(order) && forall id :: id in order <==> id in S
  {
    if S == {} {
      order := [];
    } else {
      var id :| id in S;
      order := SomeOrder(S - {id});
      order := order + [id];
    }
  }

  ghost function LocksOf(s: System): Locks.System {
    map t | t in s.threads :: Locks.Thread(s.threads[t].held, Skeleton(s.threads[t].todo))
  }

  /** While a call is under way, some thread can move, if all calls take their locks along one order. */
  lemma OrderedCallsProgress(rank: Locks.Order, bound: nat, moves: seq<Move>, t: Tid) returns (u: Tid, order: seq<JobId>)
    requires ValidMoves(moves) && CallsClimb(rank, moves) && forall l :: rank(l) < bound
    requires !ThreadOf(After(moves), t).todo.Done?
    ensures CanGo(After(moves), u, order)
  {
    hide ValidMoves, After, CallsClimb, Locks.Upwards;
    var s := After(moves);
    RunClimbs(rank, moves);
    assert Locks.AllUpwards(rank, LocksOf(s));
    u := Locks.SomeoneCanAct(rank, bound, LocksOf(s), t);
    order := SomeOrder(Expired(s.leased, if ThreadOf(s, u).todo.Access? && ThreadOf(s, u).todo.act.SweepAll? then ThreadOf(s, u).todo.act.now else 0));
    if ThreadOf(s, u).todo.Acquire? {
      forall v | v in s.threads ensures ThreadOf(s, u).todo.lock !in s.threads[v].held { assert v in LocksOf(s); }
    }
  }

  ghost predicate Begins(moves: seq<Move>, op: Locks.Op) {
    exists k :: 0 <= k < |moves| && moves[k].Begin? && OpOf(moves[k].call) == op
  }

  /** The data and the locks together: as long as check_timeouts is not mixed with pull or stats, some thread
      can always move while a call is under way. */
  lemma NobodyWaitsForever(moves: seq<Move>, t: Tid) returns (u: Tid, order: seq<JobId>)
    requires ValidMoves(moves) && !ThreadOf(After(moves), t).todo.Done?
    requires !(Begins(moves, Locks.CheckTimeouts) && (Begins(moves, Locks.Pull(true)) || Begins(moves, Locks.Stats)))
    ensures CanGo(After(moves), u, order)
  {
    hide ValidMoves, After, Locks.Upwards, Locks.Program, CanGo;
    if !Begins(moves, Locks.CheckTimeouts) {
      forall k | 0 <= k < |moves| && moves[k].Begin?
        ensures Locks.Upwards(Locks.PendingFirst, {}, Locks.Program(OpOf(moves[k].call)))
      {
        Locks.PendingFirstOrders(OpOf(moves[k].call));
      }
      u, order := OrderedCallsProgress(Locks.PendingFirst, 5, moves, t);
    } else {
      forall k | 0 <= k < |moves| && moves[k].Begin?
        ensures Locks.Upwards(Locks.LeasedFirst, {}, Locks.Program(OpOf(moves[k].call)))
      {
        Locks.LeasedFirstOrders(OpOf(moves[k].call));
      }
      u, order := OrderedCallsProgress(Locks.LeasedFirst, 5, moves, t);
    }
  }
}
