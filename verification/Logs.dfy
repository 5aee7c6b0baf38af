/** Log fan-out (iroh-nix/src/build.rs:429-475): bounded channels, subscribers that fall behind are
    dropped, and subscribers of every job.
 */
module Logs {

  const CAPACITY: nat := 256

  /** The job id that subscribes to every job; issued job ids start at 1 (build.rs:192). */
  const WILDCARD: nat := 0

  datatype Entry = Entry(job: nat, data: string, stream: nat)

  /** One subscription: what its receiver has taken, what its channel still holds, whether the receiver
      is gone, and whether the sender is still in the subscriber table. */
  datatype Sub = Sub(key: nat, received: seq<Entry>, buffer: seq<Entry>, closed: bool, attached: bool)

  datatype Step =
    | Subscribe(key: nat)
    | Broadcast(entry: Entry)
    | Receive(i: nat)
    | Close(i: nat)
    | Cleanup

  /** `try_send` inside `retain`: a full or closed channel costs the subscription. */
  function Send(s: Sub, e: Entry): Sub {
    if !s.attached then s
    else if s.closed || |s.buffer| >= CAPACITY then s.(attached := false)
    else s.(buffer := s.buffer + [e])
  }

  /** build.rs:457-465: first the job's own subscribers, then the wildcard ones. */
  function Offer(s: Sub, e: Entry): Sub {
    var s1 := if s.key == e.job then Send(s, e) else s;
    if s.key == WILDCARD then Send(s1, e) else s1
  }

  function OfferAll(subs: seq<Sub>, e: Entry): seq<Sub> {
    seq(|subs|, i requires 0 <= i < |subs| => Offer(subs[i], e))
  }

  function Apply(subs: seq<Sub>, st: Step): seq<Sub> {
    match st
    case Subscribe(key) => subs + [Sub(key, [], [], false, true)]
    case Broadcast(e) => OfferAll(subs, e)
    case Receive(i) =>
      if i < |subs| && !subs[i].closed && subs[i].buffer != []
      then subs[i := subs[i].(received := subs[i].received + [subs[i].buffer[0]], buffer := subs[i].buffer[1..])]
      else subs
    case Close(i) => if i < |subs| then subs[i := subs[i].(closed := true)] else subs
    case Cleanup => seq(|subs|, i requires 0 <= i < |subs| => subs[i].(attached := subs[i].attached && !subs[i].closed))
  }

  function Run(steps: seq<Step>): seq<Sub> {
    if steps == [] then [] else Apply(Run(steps[..|steps| - 1]), steps[|steps| - 1])
  }

  /** How often an entry is offered to a subscription. */
  function Copies(key: nat, e: Entry): seq<Entry> {
    (if key == e.job then [e] else []) + (if key == WILDCARD then [e] else [])
  }

  /** Everything offered to subscription `i` since it was made. */
  ghost function Owed(steps: seq<Step>, i: nat): seq<Entry> {
    if steps == [] then []
    else
      var front := steps[..|steps| - 1];
      var last := steps[|steps| - 1];
      if last.Broadcast? && i < |Run(front)| then Owed(front, i) + Copies(Run(front)[i].key, last.entry)
      else Owed(front, i)
  }

  /** A contiguous prefix of what was owed; all of it while the subscription stands. */
  ghost predicate InStep(s: Sub, owed: seq<Entry>) {
    && s.received + s.buffer <= owed
    && (s.attached ==> s.received + s.buffer == owed)
    && |s.buffer| <= CAPACITY
  }

  lemma SendInStep(s: Sub, e: Entry, owed: seq<Entry>)
    requires InStep(s, owed)
    ensures InStep(Send(s, e), owed + [e]) && Send(s, e).key == s.key
  {
    assert s.received + (s.buffer + [e]) == (s.received + s.buffer) + [e];
  }

  lemma OfferInStep(s: Sub, e: Entry, owed: seq<Entry>)
    requires InStep(s, owed)
    ensures InStep(Offer(s, e), owed + Copies(s.key, e)) && Offer(s, e).key == s.key
  {
    hide Send, InStep;
    var s1 := if s.key == e.job then Send(s, e) else s;
    var owed1 := if s.key == e.job then owed + [e] else owed;
    if s.key == e.job { SendInStep(s, e, owed); }
    if s.key == WILDCARD { SendInStep(s1, e, owed1); }
    assert owed + Copies(s.key, e) == if s.key == WILDCARD then owed1 + [e] else owed1;
  }

  lemma {:induction false} NothingOwedYet(steps: seq<Step>, i: nat)
    requires i >= |Run(steps)|
    ensures Owed(steps, i) == []
  {
    if steps != [] {
      assert |Run(steps[..|steps| - 1])| <= |Run(steps)|;
      NothingOwedYet(steps[..|steps| - 1], i);
    }
  }

  lemma ReceiveInStep(s: Sub, owed: seq<Entry>)
    requires InStep(s, owed) && s.buffer != []
    ensures InStep(s.(received := s.received + [s.buffer[0]], buffer := s.buffer[1..]), owed)
  {
    assert s.received + [s.buffer[0]] + s.buffer[1..] == s.received + s.buffer;
  }

  /** On every run, every subscriber has received, in order and without gaps, the beginning of what was
      offered since it subscribed, and has missed nothing as long as it has not been dropped. */
  lemma {:induction false} DeliveryWithoutGaps(steps: seq<Step>, i: nat)
    requires i < |Run(steps)|
    ensures InStep(Run(steps)[i], Owed(steps, i))
  {
    hide InStep, Offer;
    var front, last := steps[..|steps| - 1], steps[|steps| - 1];
    var subs := Run(front);
    if i < |subs| {
      DeliveryWithoutGaps(front, i);
      if last.Broadcast? {
        OfferInStep(subs[i], last.entry, Owed(front, i));
      } else {
        QuietInStep(subs, last, i, Owed(front, i));
      }
    } else {
      NothingOwedYet(front, i);
      FreshInStep(last.key);
    }
  }

  lemma FreshInStep(key: nat)
    ensures InStep(Sub(key, [], [], false, true), [])
  {
  }

  lemma QuietInStep(subs: seq<Sub>, st: Step, i: nat, owed: seq<Entry>)
    requires i < |subs| && !st.Broadcast? && InStep(subs[i], owed)
    ensures i < |Apply(subs, st)| && InStep(Apply(subs, st)[i], owed)
  {
    if st.Receive? && st.i == i && subs[i].buffer != [] { ReceiveInStep(subs[i], owed); }
  }

  /** The broadcasts a subscription asked for, once each. */
  ghost function Matching(steps: seq<Step>, i: nat): seq<Entry> {
    if steps == [] then []
    else
      var front := steps[..|steps| - 1];
      var last := steps[|steps| - 1];
      if last.Broadcast? && i < |Run(front)| && (Run(front)[i].key == WILDCARD || Run(front)[i].key == last.entry.job)
      then Matching(front, i) + [last.entry]
      else Matching(front, i)
  }

  /** Step k broadcasts under the wildcard id while subscription i is a wildcard one. */
  ghost predicate Doubles(steps: seq<Step>, i: nat, k: nat) {
    && k < |steps| && steps[k].Broadcast? && steps[k].entry.job == WILDCARD
    && i < |Run(steps[..k])| && Run(steps[..k])[i].key == WILDCARD
  }

  lemma DoublesEarlier(steps: seq<Step>, i: nat, k: nat)
    requires steps != [] && k < |steps| - 1
    ensures Doubles(steps[..|steps| - 1], i, k) == Doubles(steps, i, k)
  {
    assert steps[..|steps| - 1][..k] == steps[..k];
  }

  /** A subscription is offered each broadcast it asked for exactly once, unless somebody broadcasts under
      the wildcard id itself, which no issued job carries. */
  lemma {:induction false} OfferedOnceExactly(steps: seq<Step>, i: nat)
    ensures Owed(steps, i) == Matching(steps, i) <==> !exists k: nat :: Doubles(steps, i, k)
    ensures (exists k: nat :: Doubles(steps, i, k)) ==> |Owed(steps, i)| > |Matching(steps, i)|
  {
    hide Run;
    if steps != [] {
      var front, last, n := steps[..|steps| - 1], steps[|steps| - 1], |steps| - 1;
      OfferedOnceExactly(front, i);
      forall k: nat | k < n ensures Doubles(front, i, k) == Doubles(steps, i, k) { DoublesEarlier(steps, i, k); }
      assert Doubles(steps, i, n) <==> last.Broadcast? && last.entry.job == WILDCARD && i < |Run(front)| && Run(front)[i].key == WILDCARD;
      if exists k: nat :: Doubles(steps, i, k) {
        var k: nat :| Doubles(steps, i, k);
        assert k < n ==> Doubles(front, i, k);
      } else {
        assert !exists k: nat :: Doubles(front, i, k);
      }
      assert Owed(front, i) + [] == Owed(front, i);
    }
  }

  /** A broadcast under the wildcard id, which a builder can send, reaches a wildcard subscriber twice. */
  lemma WildcardIsDoubled(data: string, stream: nat) returns (steps: seq<Step>)
    ensures |Run(steps)| == 1 && steps == [Subscribe(WILDCARD), Broadcast(Entry(WILDCARD, data, stream))]
    ensures Run(steps)[0].received + Run(steps)[0].buffer == [Entry(WILDCARD, data, stream), Entry(WILDCARD, data, stream)]
  {
    var e := Entry(WILDCARD, data, stream);
    steps := [Subscribe(WILDCARD), Broadcast(e)];
    var one := [Subscribe(WILDCARD)];
    assert one[..0] == [] && steps[..1] == one;
    assert Run(one) == [Sub(WILDCARD, [], [], false, true)];
    assert Run(steps) == OfferAll(Run(one), e);
  }

  /** What a subscriber has seen, on every run whose broadcasts carry issued job ids: the beginning of the
      broadcasts it asked for, each once; all of them while it keeps up. */
  lemma SubscriberSeesMatching(steps: seq<Step>, i: nat)
    requires i < |Run(steps)|
    requires forall k :: 0 <= k < |steps| && steps[k].Broadcast? ==> steps[k].entry.job != WILDCARD
    ensures Run(steps)[i].received + Run(steps)[i].buffer <= Matching(steps, i)
    ensures Run(steps)[i].attached ==> Run(steps)[i].received + Run(steps)[i].buffer == Matching(steps, i)
  {
    hide Run, Owed, Matching;
    DeliveryWithoutGaps(steps, i);
    OfferedOnceExactly(steps, i);
  }

  /** A receiver that is open and whose channel has room is still subscribed unless it once fell behind:
      one step detaches a subscription exactly when an entry for it meets a full or closed channel, or
      when cleanup meets a closed one. */
  lemma DroppedExactly(subs: seq<Sub>, st: Step, i: nat)
    requires i < |subs| && subs[i].attached && |subs[i].buffer| <= CAPACITY
    ensures i < |Apply(subs, st)|
    ensures !Apply(subs, st)[i].attached <==>
            || (st.Cleanup? && subs[i].closed)
            || (st.Broadcast? && |Copies(subs[i].key, st.entry)| > 0 &&
                (subs[i].closed || |subs[i].buffer| + |Copies(subs[i].key, st.entry)| > CAPACITY))
  {
  }

  // --- The subscriber table -------------------------------------------------------------------------------

  ghost predicate Increasing(xs: seq<nat>) { forall a, b :: 0 <= a < b < |xs| ==> xs[a] < xs[b] }

  function Senders(table: map<nat, seq<nat>>, key: nat): seq<nat> { if key in table then table[key] else [] }

  /** The attached subscriptions of one job id, oldest first. */
  ghost predicate Lists(senders: seq<nat>, subs: seq<Sub>, key: nat) {
    && Increasing(senders)
    && (forall n :: 0 <= n < |senders| ==> senders[n] < |subs| && subs[senders[n]].key == key && subs[senders[n]].attached)
    && (forall i :: 0 <= i < |subs| && subs[i].key == key && subs[i].attached ==> i in senders)
  }

  /** The table lists, under each job id, exactly the attached subscriptions of that id. */
  ghost predicate Tabled(table: map<nat, seq<nat>>, subs: seq<Sub>) {
    forall key :: Lists(Senders(table, key), subs, key)
  }

  /** Channel contents and closed receivers do not concern the table. */
  lemma SameTable(table: map<nat, seq<nat>>, subs: seq<Sub>, i: nat, s: Sub)
    requires Tabled(table, subs) && i < |subs| && s.key == subs[i].key && s.attached == subs[i].attached
    ensures Tabled(table, subs[i := s])
  {
    var subs1 := subs[i := s];
    forall key ensures Lists(Senders(table, key), subs1, key) {
      assert Lists(Senders(table, key), subs, key);
    }
  }

  lemma NewIncreases(xs: seq<nat>, x: nat)
    requires Increasing(xs) && forall n :: 0 <= n < |xs| ==> xs[n] < x
    ensures Increasing(xs + [x])
  {
  }

  lemma NewListed(senders: seq<nat>, subs: seq<Sub>, key: nat, s: Sub)
    requires Lists(senders, subs, key) && s.attached
    ensures Lists(if s.key == key then senders + [|subs|] else senders, subs + [s], key)
  {
    forall n | 0 <= n < |senders| ensures senders[n] < |subs| {}
    NewIncreases(senders, |subs|);
    hide Increasing;
    var now, more := if s.key == key then senders + [|subs|] else senders, subs + [s];
    forall i | 0 <= i < |more| && more[i].key == key && more[i].attached ensures i in now {
      if i < |subs| {
        assert subs[i] == more[i];
        assert i in senders;
      } else {
        assert now[|senders|] == |subs|;
      }
    }
  }

  lemma NewInTable(table: map<nat, seq<nat>>, subs: seq<Sub>, key: nat)
    requires Tabled(table, subs)
    ensures Tabled(table[key := Senders(table, key) + [|subs|]], subs + [Sub(key, [], [], false, true)])
  {
    hide Lists;
    var table1, subs1 := table[key := Senders(table, key) + [|subs|]], subs + [Sub(key, [], [], false, true)];
    forall k ensures Lists(Senders(table1, k), subs1, k) {
      NewListed(Senders(table, k), subs, k, Sub(key, [], [], false, true));
    }
  }

  lemma OthersListed(senders: seq<nat>, subs: seq<Sub>, k: nat, key: nat, e: Entry)
    requires Lists(senders, subs, k) && k != key
    ensures Lists(senders, SendKey(subs, key, e), k)
  {
    hide Send;
    SendKeeps(subs, e);
  }

  /** After a pass over one job id's senders, the kept ones are listed. */
  lemma KeptInTable(table: map<nat, seq<nat>>, subs: seq<Sub>, key: nat, e: Entry, kept: seq<nat>)
    requires Tabled(table, subs) && Lists(kept, SendKey(subs, key, e), key)
    ensures Tabled(table[key := kept], SendKey(subs, key, e))
  {
    hide Lists, SendKey;
    var table1, subs1 := table[key := kept], SendKey(subs, key, e);
    forall k ensures Lists(Senders(table1, k), subs1, k) {
      if k != key { OthersListed(Senders(table, k), subs, k, key, e); }
    }
  }

  lemma NobodyToTell(table: map<nat, seq<nat>>, subs: seq<Sub>, key: nat, e: Entry)
    requires Tabled(table, subs) && key !in table
    ensures SendKey(subs, key, e) == subs
  {
    hide Send;
    SendKeeps(subs, e);
    assert Lists(Senders(table, key), subs, key);
  }

  lemma OpenLists(senders: seq<nat>, subs: seq<Sub>, key: nat)
    requires Lists(senders, subs, key)
    ensures Lists(Open(senders, subs), Apply(subs, Cleanup), key)
  {
    hide Increasing, Open;
    OpenMembers(senders, subs);
    OpenIncreases(senders, subs);
    var open, after := Open(senders, subs), Apply(subs, Cleanup);
    forall n | 0 <= n < |open| ensures open[n] < |after| && after[open[n]].key == key && after[open[n]].attached {
      assert open[n] in open;
    }
    forall i | 0 <= i < |after| && after[i].key == key && after[i].attached ensures i in open {
      assert i in senders;
    }
  }

  ghost predicate InRange(xs: seq<nat>, subs: seq<Sub>) { forall n :: 0 <= n < |xs| ==> xs[n] < |subs| }

  /** `retain(|tx| !tx.is_closed())`. */
  function Open(xs: seq<nat>, subs: seq<Sub>): seq<nat> {
    if xs == [] then []
    else
      var n := |xs| - 1;
      var r := Open(xs[..n], subs);
      if xs[n] < |subs| && subs[xs[n]].closed then r else r + [xs[n]]
  }

  lemma {:induction false} OpenMembers(xs: seq<nat>, subs: seq<Sub>)
    requires InRange(xs, subs)
    ensures forall i :: i in Open(xs, subs) <==> i in xs && i < |subs| && !subs[i].closed
  {
    if xs != [] {
      var n := |xs| - 1;
      OpenMembers(xs[..n], subs);
      assert forall i :: i in xs <==> i in xs[..n] || i == xs[n] by { assert xs == xs[..n] + [xs[n]]; }
    }
  }

  lemma {:induction false} OpenIncreases(xs: seq<nat>, subs: seq<Sub>)
    requires Increasing(xs) && InRange(xs, subs)
    ensures Increasing(Open(xs, subs))
  {
    if xs != [] {
      var n := |xs| - 1;
      var r := Open(xs[..n], subs);
      OpenIncreases(xs[..n], subs);
      OpenMembers(xs[..n], subs);
      forall a | 0 <= a < |r| ensures r[a] < xs[n] { assert r[a] in xs[..n]; }
      NewIncreases(r, xs[n]);
    }
  }

  /** The senders whose receivers are still there, without the ids that have none left. */
  function Cleaned(table: map<nat, seq<nat>>, subs: seq<Sub>): map<nat, seq<nat>> {
    map key | key in table && Open(table[key], subs) != [] :: Open(table[key], subs)
  }

  lemma CleanedIsTabled(table: map<nat, seq<nat>>, subs: seq<Sub>)
    requires Tabled(table, subs)
    ensures Tabled(Cleaned(table, subs), Apply(subs, Cleanup))
  {
    hide Lists, Open, Apply;
    var cleaned, after := Cleaned(table, subs), Apply(subs, Cleanup);
    forall key ensures Lists(Senders(cleaned, key), after, key) {
      assert Lists(Senders(table, key), subs, key);
      OpenLists(Senders(table, key), subs, key);
      NothingOpen(subs);
    }
  }

  lemma NothingOpen(subs: seq<Sub>)
    ensures Open([], subs) == []
  {
  }

  /** The log part of the queue: the senders by job id, and the channels they feed. */
  class LogHub {
    var table: map<nat, seq<nat>>
    var subs: seq<Sub>
    ghost var history: seq<Step>

    ghost predicate Valid() reads this { subs == Run(history) && Tabled(table, subs) }

    constructor ()
      ensures Valid() && history == []
    {
      table, subs, history := map[], [], [];
    }

    /** build.rs:432-437 */
    method SubscribeLogs(key: nat) returns (i: nat)
      requires Valid()
      modifies this
      ensures Valid() && history == old(history) + [Subscribe(key)]
      ensures i == old(|subs|) && i < |subs| && subs[i] == Sub(key, [], [], false, true)
    {
      i := |subs|;
      assert (history + [Subscribe(key)])[..|history|] == history;
      history := history + [Subscribe(key)];
      NewInTable(table, subs, key);
      table := table[key := Senders(table, key) + [i]];
      subs := subs + [Sub(key, [], [], false, true)];
    }

    /** build.rs:442-445 */
    method SubscribeAllLogs() returns (i: nat)
      requires Valid()
      modifies this
      ensures Valid() && history == old(history) + [Subscribe(WILDCARD)]
      ensures i == old(|subs|) && i < |subs| && subs[i] == Sub(WILDCARD, [], [], false, true)
    {
      i := SubscribeLogs(WILDCARD);
    }

    /** One pass of `retain` with `try_send` over the senders of one job id. */
    method SendTo(key: nat, e: Entry)
      requires Tabled(table, subs)
      modifies this`table, this`subs
      ensures Tabled(table, subs)
      ensures subs == SendKey(old(subs), key, e)
    {
      hide Send, Tabled;
      if key in table {
        var senders, kept := table[key], [];
        ghost var before := subs;
        ListedUnder(table, subs, key);
        for n := 0 to |senders|
          invariant table == old(table) && |subs| == |before|
          invariant Increasing(kept)
          invariant forall j :: j in kept ==> j in senders[..n]
          invariant forall j :: j in senders[..n] ==> j < |subs| && subs[j] == Send(before[j], e) && (j in kept <==> subs[j].attached)
          invariant forall j :: 0 <= j < |subs| && j !in senders[..n] ==> subs[j] == before[j]
        {
          var i := senders[n];
          assert i !in senders[..n];
          forall b | 0 <= b < |kept| ensures kept[b] < i { assert kept[b] in senders[..n]; }
          assert forall j :: j in senders[..n + 1] <==> j in senders[..n] || j == i;
          var sent := Send(subs[i], e);
          subs := subs[i := sent];
          if sent.attached { kept := kept + [i]; }
        }
        assert senders[..|senders|] == senders;
        SendKeeps(before, e);
        assert subs == SendKey(before, key, e);
        KeptIsListed(before, senders, kept, key, e);
        KeptInTable(table, before, key, e, kept);
        table := table[key := kept];
      } else {
        NobodyToTell(table, subs, key, e);
      }
    }

    /** First the job's own senders, then the wildcard ones. */
    method BroadcastLog(job: nat, data: string, stream: nat)
      requires Valid()
      modifies this
      ensures Valid() && history == old(history) + [Broadcast(Entry(job, data, stream))]
    {
      hide Tabled, Offer;
      var e := Entry(job, data, stream);
      SendTo(job, e);
      SendTo(WILDCARD, e);
      TwoPasses(old(subs), job, e);
      history := history + [Broadcast(e)];
      assert history[..|history| - 1] == old(history);
    }

    /** build.rs:469-475 */
    method CleanupLogSubscribers()
      requires Valid()
      modifies this
      ensures Valid() && history == old(history) + [Cleanup]
    {
      history := history + [Cleanup];
      assert history[..|history| - 1] == old(history);
      hide Run, Tabled, Open;
      table := Cleaned(table, subs);
      CleanedIsTabled(old(table), subs);
      subs := Apply(subs, Cleanup);
    }

    /** The receiving side: take the oldest buffered entry. */
    method Recv(i: nat) returns (e: seq<Entry>)
      requires Valid() && i < |subs| && !subs[i].closed
      modifies this`subs, this`history
      ensures Valid() && history == old(history) + [Receive(i)]
      ensures subs[i].received == old(subs[i].received) + e
      ensures |e| == if old(subs[i].buffer) == [] then 0 else 1
    {
      history := history + [Receive(i)];
      assert history[..|history| - 1] == old(history);
      e := [];
      if subs[i].buffer != [] {
        e := [subs[i].buffer[0]];
        SameTable(table, subs, i, subs[i].(received := subs[i].received + e, buffer := subs[i].buffer[1..]));
        subs := subs[i := subs[i].(received := subs[i].received + e, buffer := subs[i].buffer[1..])];
      }
    }

    /** The receiving side is dropped. */
    method DropReceiver(i: nat)
      requires Valid() && i < |subs|
      modifies this`subs, this`history
      ensures Valid() && history == old(history) + [Close(i)]
    {
      history := history + [Close(i)];
      assert history[..|history| - 1] == old(history);
      SameTable(table, subs, i, subs[i].(closed := true));
      subs := subs[i := subs[i].(closed := true)];
    }
  }

  function SendKey(subs: seq<Sub>, key: nat, e: Entry): seq<Sub> {
    seq(|subs|, i requires 0 <= i < |subs| => if subs[i].key == key then Send(subs[i], e) else subs[i])
  }

  lemma SendKeeps(subs: seq<Sub>, e: Entry)
    ensures forall i :: 0 <= i < |subs| ==>
              && Send(subs[i], e).key == subs[i].key
              && (Send(subs[i], e).attached ==> subs[i].attached)
              && (!subs[i].attached ==> Send(subs[i], e) == subs[i])
  {
  }

  lemma ListedUnder(table: map<nat, seq<nat>>, subs: seq<Sub>, key: nat)
    requires Tabled(table, subs) && key in table
    ensures Lists(table[key], subs, key)
  {
    assert Senders(table, key) == table[key];
  }

  lemma KeptIsListed(subs: seq<Sub>, senders: seq<nat>, kept: seq<nat>, key: nat, e: Entry)
    requires Lists(senders, subs, key) && Increasing(kept)
    requires forall j :: j in kept ==> j in senders
    requires forall j :: j in senders ==> j < |subs| && (j in kept <==> Send(subs[j], e).attached)
    ensures Lists(kept, SendKey(subs, key, e), key)
  {
    hide Send, Increasing;
    SendKeeps(subs, e);
    var after := SendKey(subs, key, e);
    forall n | 0 <= n < |kept| ensures kept[n] < |after| && after[kept[n]].key == key && after[kept[n]].attached {
      assert kept[n] in kept;
    }
    forall i | 0 <= i < |after| && after[i].key == key && after[i].attached ensures i in kept {
      assert i in senders;
    }
  }

  /** Two passes of `try_send` over the table are one offer to each subscription. */
  lemma TwoPasses(subs: seq<Sub>, job: nat, e: Entry)
    requires e.job == job
    ensures SendKey(SendKey(subs, job, e), WILDCARD, e) == OfferAll(subs, e)
  {
    SendKeeps(subs, e);
  }
}
