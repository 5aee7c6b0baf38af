/** Lock order of the build queue (iroh-nix/src/build.rs): which operations can be mixed without a
    circular wait, for any number of threads and any interleaving.
 */
module Locks {

  datatype Lock = NextJobId | Pending | Needed | Leased | PendingFetch | Completed

  /** What remains of a call: the locks it still takes and gives back, in program order. */
  datatype Code = Done | Acquire(lock: Lock, next: Code) | Release(lock: Lock, next: Code)

  /** The operations; the flag says which way the call goes. */
  datatype Op =
    | Push
    | Pull(found: bool)
    | Heartbeat
    | Complete(accepted: bool)
    | Fail(accepted: bool)
    | CheckTimeouts
    | Stats
    | ListPending
    | ListLeased
    | GetOutcome
    | TakePendingFetches
    | NeededFeatures

  /** The lock traffic of one call, in program order. */
  function Program(op: Op): Code {
    match op
    case Push => Acquire(NextJobId, Release(NextJobId, Nest(Pending, Needed)))
    case Pull(found) => if found then Nest(Pending, Leased) else Single(Pending)
    case Heartbeat => Single(Leased)
    case Complete(accepted) =>
      if accepted
      then Acquire(Leased,
             Acquire(PendingFetch, Release(PendingFetch,
               Acquire(Completed, Release(Completed,
                 Release(Leased, Done))))))
      else Single(Leased)
    case Fail(accepted) => if accepted then Nest(Leased, Completed) else Single(Leased)
    case CheckTimeouts => Nest(Leased, Pending)
    case Stats =>
      Acquire(Pending, Acquire(Leased, Acquire(Completed,
        Release(Completed, Release(Leased, Release(Pending, Done))))))
    case ListPending => Single(Pending)
    case ListLeased => Single(Leased)
    case GetOutcome => Single(Completed)
    case TakePendingFetches => Single(PendingFetch)
    case NeededFeatures => Single(Needed)
  }

  function Single(l: Lock): Code { Acquire(l, Release(l, Done)) }

  /** Take `a`, then `b` under it. */
  function Nest(a: Lock, b: Lock): Code { Acquire(a, Acquire(b, Release(b, Release(a, Done)))) }

  // --- Threads ---------------------------------------------------------------------------------------

  type Tid = nat

  datatype Thread = Thread(held: set<Lock>, todo: Code)

  /** Threads that are not in the map have not started. */
  type System = map<Tid, Thread>

  function ThreadOf(s: System, t: Tid): Thread { if t in s then s[t] else Thread({}, Done) }

  predicate Free(s: System, l: Lock) { forall t :: t in s ==> l !in s[t].held }

  datatype Move = Begin(t: Tid, op: Op) | Act(t: Tid)

  /** A thread starts a call when it has none running; a lock can be taken only when nobody holds it. */
  predicate Allowed(ops: set<Op>, s: System, m: Move) {
    match m
    case Begin(t, op) => op in ops && ThreadOf(s, t).todo.Done?
    case Act(t) => CanAct(s, t)
  }

  predicate CanAct(s: System, t: Tid) {
    var todo := ThreadOf(s, t).todo;
    !todo.Done? && (todo.Acquire? ==> Free(s, todo.lock))
  }

  function ThreadAfter(th: Thread, m: Move): Thread {
    match m
    case Begin(_, op) => th.(todo := Program(op))
    case Act(_) =>
      match th.todo
      case Done => th
      case Acquire(l, next) => Thread(th.held + {l}, next)
      case Release(l, next) => Thread(th.held - {l}, next)
  }

  function Do(s: System, m: Move): System { s[m.t := ThreadAfter(ThreadOf(s, m.t), m)] }

  ghost predicate ValidMoves(ops: set<Op>, moves: seq<Move>) {
    moves == [] || (ValidMoves(ops, moves[..|moves| - 1]) &&
                    Allowed(ops, After(moves[..|moves| - 1]), moves[|moves| - 1]))
  }

  ghost function After(moves: seq<Move>): System {
    if moves == [] then map[] else Do(After(moves[..|moves| - 1]), moves[|moves| - 1])
  }

  ghost predicate Waits(s: System, t: Tid, l: Lock) {
    var todo := ThreadOf(s, t).todo;
    todo.Acquire? && todo.lock == l && !Free(s, l)
  }

  ghost predicate WaitsFor(s: System, t: Tid, u: Tid) {
    exists l :: Waits(s, t, l) && l in ThreadOf(s, u).held
  }

  /** The thread at position `i` waits for the next one around the ring. */
  ghost predicate RingEdge(s: System, ring: seq<Tid>, i: nat)
    requires i < |ring|
  {
    WaitsFor(s, ring[i], if i + 1 == |ring| then ring[0] else ring[i + 1])
  }

  /** Each thread of the ring waits for a lock that the next one holds. */
  ghost predicate CircularWait(s: System, ring: seq<Tid>) {
    ring != [] && forall i :: 0 <= i < |ring| ==> RingEdge(s, ring, i)
  }

  ghost predicate DeadlockFree(ops: set<Op>) {
    forall moves, ring :: ValidMoves(ops, moves) ==> !CircularWait(After(moves), ring)
  }

  // --- Lock orders -----------------------------------------------------------------------------------

  type Order = Lock -> nat

  /** The rest of a call takes locks upwards only and gives back what it holds. */
  ghost predicate Upwards(rank: Order, held: set<Lock>, todo: Code)
    decreases todo
  {
    match todo
    case Done => held == {}
    case Acquire(l, next) => (forall h :: h in held ==> rank(h) < rank(l)) && Upwards(rank, held + {l}, next)
    case Release(l, next) => l in held && Upwards(rank, held - {l}, next)
  }

  ghost predicate Orders(rank: Order, ops: set<Op>) {
    forall op :: op in ops ==> Upwards(rank, {}, Program(op))
  }

  ghost predicate AllUpwards(rank: Order, s: System) {
    forall t :: t in s ==> Upwards(rank, s[t].held, s[t].todo)
  }

  lemma {:induction false} ReachableUpwards(rank: Order, ops: set<Op>, moves: seq<Move>)
    requires Orders(rank, ops) && ValidMoves(ops, moves)
    ensures AllUpwards(rank, After(moves))
  {
    if moves != [] {
      var s, m := After(moves[..|moves| - 1]), moves[|moves| - 1];
      ReachableUpwards(rank, ops, moves[..|moves| - 1]);
      assert Upwards(rank, ThreadOf(s, m.t).held, ThreadOf(s, m.t).todo);
    }
  }

  /** Along a ring of waiting threads the wanted locks only go up. */
  lemma WaitGoesUp(rank: Order, s: System, t: Tid, l: Lock, u: Tid, l': Lock)
    requires AllUpwards(rank, s)
    requires Waits(s, t, l) && l in ThreadOf(s, u).held && Waits(s, u, l')
    ensures rank(l) < rank(l')
  {
    assert Upwards(rank, ThreadOf(s, u).held, ThreadOf(s, u).todo);
  }

  lemma {:induction false} RingGoesUp(rank: Order, s: System, ring: seq<Tid>, i: nat, l0: Lock, l: Lock)
    requires AllUpwards(rank, s) && CircularWait(s, ring) && i < |ring|
    requires Waits(s, ring[0], l0) && Waits(s, ring[i], l)
    ensures rank(l0) <= rank(l)
  {
    if i > 0 {
      assert RingEdge(s, ring, i - 1);
      var k :| Waits(s, ring[i - 1], k) && k in ThreadOf(s, ring[i]).held;
      RingGoesUp(rank, s, ring, i - 1, l0, k);
      WaitGoesUp(rank, s, ring[i - 1], k, ring[i], l);
    }
  }

  lemma NoCircularWait(rank: Order, s: System, ring: seq<Tid>)
    requires AllUpwards(rank, s)
    ensures !CircularWait(s, ring)
  {
    if CircularWait(s, ring) {
      var n := |ring| - 1;
      assert RingEdge(s, ring, 0) && RingEdge(s, ring, n);
      var l0 :| Waits(s, ring[0], l0);
      var l :| Waits(s, ring[n], l) && l in ThreadOf(s, ring[0]).held;
      RingGoesUp(rank, s, ring, n, l0, l);
      WaitGoesUp(rank, s, ring[n], l, ring[0], l0);
    }
  }

  lemma OrderedIsDeadlockFree(rank: Order, ops: set<Op>)
    requires Orders(rank, ops)
    ensures DeadlockFree(ops)
  {
    forall moves, ring | ValidMoves(ops, moves) ensures !CircularWait(After(moves), ring) {
      ReachableUpwards(rank, ops, moves);
      NoCircularWait(rank, After(moves), ring);
    }
  }

  /** Stronger than the absence of a ring: while any call is running, some running call can proceed. */
  lemma {:induction false} SomeoneCanAct(rank: Order, bound: nat, s: System, t: Tid) returns (u: Tid)
    requires AllUpwards(rank, s) && !ThreadOf(s, t).todo.Done?
    requires forall l :: rank(l) < bound
    ensures CanAct(s, u)
    decreases bound - (if ThreadOf(s, t).todo.Acquire? then rank(ThreadOf(s, t).todo.lock) else bound)
  {
    u := t;
    if !CanAct(s, t) {
      var l := ThreadOf(s, t).todo.lock;
      var v :| v in s && l in s[v].held;
      assert Upwards(rank, s[v].held, s[v].todo);
      u := SomeoneCanAct(rank, bound, s, v);
    }
  }

  // --- The two lock orders of the queue ------------------------------------------------------------

  /** pending before leased: every operation except check_timeouts. */
  function PendingFirst(l: Lock): nat {
    match l
    case NextJobId => 0
    case Pending => 1
    case Needed => 2
    case Leased => 2
    case PendingFetch => 3
    case Completed => 4
  }

  /** leased before pending: every operation except a successful pull and stats. */
  function LeasedFirst(l: Lock): nat {
    match l
    case NextJobId => 0
    case Leased => 1
    case Pending => 2
    case Needed => 3
    case PendingFetch => 3
    case Completed => 4
  }

  /** The operations that hold pending while they take leased. */
  predicate TakesLeasedUnderPending(op: Op) { op == Pull(true) || op == Stats }

  lemma SingleUpwards(rank: Order, l: Lock)
    ensures Upwards(rank, {}, Single(l))
  {
    assert {} + {l} == {l} && {l} - {l} == {};
    assert Upwards(rank, {l}, Release(l, Done));
  }

  lemma NestUpwards(rank: Order, a: Lock, b: Lock)
    requires rank(a) < rank(b)
    ensures Upwards(rank, {}, Nest(a, b))
  {
    assert {} + {a} == {a} && {a} + {b} - {b} == {a} && {a} - {a} == {};
    assert Upwards(rank, {a}, Release(a, Done));
    assert Upwards(rank, {a} + {b}, Release(b, Release(a, Done)));
    assert Upwards(rank, {a}, Acquire(b, Release(b, Release(a, Done))));
  }

  lemma PushUpwards(rank: Order)
    requires rank(Pending) < rank(Needed)
    ensures Upwards(rank, {}, Program(Push))
  {
    NestUpwards(rank, Pending, Needed);
    assert {} + {NextJobId} - {NextJobId} == {};
  }

  lemma CompleteUpwards(rank: Order)
    requires rank(Leased) < rank(PendingFetch) && rank(Leased) < rank(Completed)
    ensures Upwards(rank, {}, Program(Complete(true)))
  {
    var L := {Leased};
    var c5 := Release(Leased, Done);
    var c3 := Acquire(Completed, Release(Completed, c5));
    var c1 := Acquire(PendingFetch, Release(PendingFetch, c3));
    assert {} + L == L && L - L == {};
    assert Upwards(rank, L, c5);
    assert L + {Completed} - {Completed} == L && L + {PendingFetch} - {PendingFetch} == L;
    assert Upwards(rank, L, c3);
    assert Upwards(rank, L, c1);
  }

  lemma StatsUpwards(rank: Order)
    requires rank(Pending) < rank(Leased) < rank(Completed)
    ensures Upwards(rank, {}, Program(Stats))
  {
    var P, PL := {Pending}, {Pending, Leased};
    assert {} + P == P && P - P == {} && P + {Leased} == PL && PL - {Leased} == P && PL + {Completed} - {Completed} == PL;
    assert Upwards(rank, P, Release(Pending, Done));
    assert Upwards(rank, PL, Release(Leased, Release(Pending, Done)));
    assert Upwards(rank, PL, Acquire(Completed, Release(Completed, Release(Leased, Release(Pending, Done)))));
  }

  lemma PendingFirstOrders(op: Op)
    requires op != CheckTimeouts
    ensures Upwards(PendingFirst, {}, Program(op))
  {
    hide Upwards;
    var rank := PendingFirst;
    if op == Push { PushUpwards(rank); }
    else if op == Pull(true) { NestUpwards(rank, Pending, Leased); }
    else if op == Complete(true) { CompleteUpwards(rank); }
    else if op == Fail(true) { NestUpwards(rank, Leased, Completed); }
    else if op == Stats { StatsUpwards(rank); }
    else { SingleUpwards(rank, Program(op).lock); }
  }

  lemma LeasedFirstOrders(op: Op)
    requires !TakesLeasedUnderPending(op)
    ensures Upwards(LeasedFirst, {}, Program(op))
  {
    hide Upwards;
    var rank := LeasedFirst;
    if op == Push { PushUpwards(rank); }
    else if op == Complete(true) { CompleteUpwards(rank); }
    else if op == Fail(true) { NestUpwards(rank, Leased, Completed); }
    else if op == CheckTimeouts { NestUpwards(rank, Leased, Pending); }
    else { SingleUpwards(rank, Program(op).lock); }
  }

  // --- Exactly which mixes are free of circular waits ------------------------------------------------

  lemma NoMoves(ops: set<Op>) returns (moves: seq<Move>)
    ensures moves == [] && ValidMoves(ops, moves) && After(moves) == map[]
  {
    moves := [];
  }

  lemma Extend(ops: set<Op>, moves: seq<Move>, m: Move) returns (moves': seq<Move>)
    requires ValidMoves(ops, moves) && Allowed(ops, After(moves), m)
    ensures moves' == moves + [m] && ValidMoves(ops, moves') && After(moves') == Do(After(moves), m)
  {
    moves' := moves + [m];
    assert moves'[..|moves'| - 1] == moves;
  }

  /** One thread holds leased and wants pending, the other the reverse. */
  lemma CrossedLocks(s: System, a: Code, b: Code)
    requires s == map[0 := Thread({Leased}, a), 1 := Thread({Pending}, b)]
    requires a.Acquire? && a.lock == Pending && b.Acquire? && b.lock == Leased
    ensures CircularWait(s, [0, 1])
  {
    hide Program;
    assert !Free(s, Pending) && !Free(s, Leased) by { assert s[0].held == {Leased} && s[1].held == {Pending}; }
    assert Waits(s, 0, Pending) && Waits(s, 1, Leased);
    assert WaitsFor(s, 0, 1) && WaitsFor(s, 1, 0);
    assert RingEdge(s, [0, 1], 0) && RingEdge(s, [0, 1], 1);
  }

  /** A thread that has not begun begins a call and takes its first lock. */
  lemma BeginAndAcquire(ops: set<Op>, moves: seq<Move>, t: Tid, op: Op) returns (moves': seq<Move>)
    requires ValidMoves(ops, moves) && t !in After(moves) && op in ops
    requires Program(op).Acquire? && Free(After(moves), Program(op).lock)
    ensures ValidMoves(ops, moves') && After(moves') == After(moves)[t := Thread({Program(op).lock}, Program(op).next)]
  {
    hide ValidMoves, After, Program;
    moves' := Extend(ops, moves, Begin(t, op));
    assert After(moves')[t] == Thread({}, Program(op));
    moves' := Extend(ops, moves', Act(t));
    assert {} + {Program(op).lock} == {Program(op).lock};
  }

  /** check_timeouts in one thread, and in another an operation that takes leased under pending:
      after one acquisition each, both wait for the other. */
  lemma SweepDeadlocks(ops: set<Op>, op: Op) returns (moves: seq<Move>)
    requires CheckTimeouts in ops && op in ops && TakesLeasedUnderPending(op)
    ensures ValidMoves(ops, moves) && CircularWait(After(moves), [0, 1])
  {
    hide ValidMoves, After, CircularWait;
    moves := NoMoves(ops);
    moves := BeginAndAcquire(ops, moves, 0, CheckTimeouts);
    moves := BeginAndAcquire(ops, moves, 1, op);
    assert After(moves) == map[0 := Thread({Leased}, Program(CheckTimeouts).next), 1 := Thread({Pending}, Program(op).next)];
    CrossedLocks(After(moves), Program(CheckTimeouts).next, Program(op).next);
  }

  /** A mix of operations can never reach a circular wait, with any number of threads, exactly when it
      does not combine check_timeouts with a pull or with stats. */
  lemma DeadlockFreeExactly(ops: set<Op>)
    ensures DeadlockFree(ops) <==> !(CheckTimeouts in ops && exists op :: op in ops && TakesLeasedUnderPending(op))
  {
    if CheckTimeouts !in ops {
      forall op | op in ops ensures Upwards(PendingFirst, {}, Program(op)) { PendingFirstOrders(op); }
      OrderedIsDeadlockFree(PendingFirst, ops);
    } else if forall op :: op in ops ==> !TakesLeasedUnderPending(op) {
      forall op | op in ops ensures Upwards(LeasedFirst, {}, Program(op)) { LeasedFirstOrders(op); }
      OrderedIsDeadlockFree(LeasedFirst, ops);
    } else {
      var op :| op in ops && TakesLeasedUnderPending(op);
      var moves := SweepDeadlocks(ops, op);
    }
  }

  /** In such a mix, whenever a call is under way some call can proceed. */
  lemma AlwaysProgress(ops: set<Op>, moves: seq<Move>, t: Tid) returns (u: Tid)
    requires !(CheckTimeouts in ops && exists op :: op in ops && TakesLeasedUnderPending(op))
    requires ValidMoves(ops, moves) && !ThreadOf(After(moves), t).todo.Done?
    ensures CanAct(After(moves), u)
  {
    hide Upwards, AllUpwards, Program;
    var rank := if CheckTimeouts !in ops then PendingFirst else LeasedFirst;
    forall op | op in ops ensures Upwards(rank, {}, Program(op)) {
      if CheckTimeouts !in ops { PendingFirstOrders(op); } else { LeasedFirstOrders(op); }
    }
    ReachableUpwards(rank, ops, moves);
    u := SomeoneCanAct(rank, 5, After(moves), t);
  }
}
