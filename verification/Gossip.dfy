/** The gossip caches (iroh-nix/src/gossip.rs): who offers an artifact and who needs builders, as a
    function of the events received.
 */
module Gossip {
  import opened Common

  datatype Blake3 = Blake3(hex: string)

  datatype ProviderInfo = ProviderInfo(endpoint: Endpoint, storePath: string, narSize: nat)

  datatype RequesterInfo = RequesterInfo(endpoint: Endpoint, features: seq<string>)

  datatype Output = Output(storePath: string, blake3: Blake3, narSize: nat)

  datatype Message =
    | Have(blake3: Blake3, storePath: string, narSize: nat)
    | Want(blake3: Blake3)
    | IHave(blake3: Blake3, storePath: string, narSize: nat)
    | NeedBuilder(requester: Option<Endpoint>, features: seq<string>)   // None: not a valid endpoint id
    | BuildComplete(builder: Option<Endpoint>, outputs: seq<Output>)

  datatype Event = Received(msg: Message, sender: Endpoint) | NeighborUp(peer: Endpoint) | NeighborDown(peer: Endpoint) | Undecodable | Lagged

  /** What an event says about the caches, one fact at a time. */
  datatype Note =
    | Offers(blake3: Blake3, info: ProviderInfo)
    | Needs(need: RequesterInfo)
    | Left(peer: Endpoint)

  function OutputNotes(builder: Endpoint, outputs: seq<Output>): seq<Note> {
    if outputs == [] then []
    else OutputNotes(builder, outputs[..|outputs| - 1]) +
         [Offers(outputs[|outputs| - 1].blake3, ProviderInfo(builder, outputs[|outputs| - 1].storePath, outputs[|outputs| - 1].narSize))]
  }

  function NotesOf(e: Event): seq<Note> {
    match e
    case Received(Have(h, path, size), sender) => [Offers(h, ProviderInfo(sender, path, size))]
    case Received(IHave(h, path, size), sender) => [Offers(h, ProviderInfo(sender, path, size))]
    case Received(Want(_), _) => []
    case Received(NeedBuilder(requester, features), _) =>
      if requester.Some? then [Needs(RequesterInfo(requester.value, features))] else []
    case Received(BuildComplete(builder, outputs), _) =>
      if builder.Some? then OutputNotes(builder.value, outputs) else []
    case NeighborDown(peer) => [Left(peer)]
    case NeighborUp(_) => []
    case Undecodable => []
    case Lagged => []
  }

  // --- The history, read declaratively ------------------------------------------------------------------------

  /** The peer has not left after position i. */
  ghost predicate Stays(notes: seq<Note>, i: nat, peer: Endpoint) {
    forall j :: i < j < |notes| ==> notes[j] != Left(peer)
  }

  /** Position i announces that this peer offers this artifact, and the peer has stayed since. */
  ghost predicate StandingOffer(notes: seq<Note>, i: nat, h: Blake3, peer: Endpoint) {
    i < |notes| && notes[i].Offers? && notes[i].blake3 == h && notes[i].info.endpoint == peer && Stays(notes, i, peer)
  }

  /** The first standing offer of its peer for this artifact. */
  ghost predicate FirstOffer(notes: seq<Note>, i: nat, h: Blake3) {
    && i < |notes| && notes[i].Offers?
    && StandingOffer(notes, i, h, notes[i].info.endpoint)
    && forall k :: 0 <= k < i ==> !StandingOffer(notes, k, h, notes[i].info.endpoint)
  }

  /** The first standing offers among the first n positions, in order, with their own data. */
  ghost function OffersUpto(notes: seq<Note>, h: Blake3, n: nat): seq<ProviderInfo>
    requires n <= |notes|
  {
    if n == 0 then []
    else OffersUpto(notes, h, n - 1) + if FirstOffer(notes, n - 1, h) then [notes[n - 1].info] else []
  }

  /** The endpoints that announced the artifact since they last left, once each, in order of their first
      such announcement and with its data. */
  ghost function ProvidersOf(notes: seq<Note>, h: Blake3): seq<ProviderInfo> { OffersUpto(notes, h, |notes|) }

  /** The latest need a requester announced since it last left. */
  ghost function LatestNeed(notes: seq<Note>, peer: Endpoint): Option<RequesterInfo> {
    if notes == [] then None
    else
      var last := notes[|notes| - 1];
      if last.Needs? && last.need.endpoint == peer then Some(last.need)
      else if last == Left(peer) then None
      else LatestNeed(notes[..|notes| - 1], peer)
  }

  // --- What one more note changes -----------------------------------------------------------------------------

  function Without(ps: seq<ProviderInfo>, peer: Endpoint): seq<ProviderInfo> {
    if ps == [] then []
    else (if ps[0].endpoint != peer then [ps[0]] else []) + Without(ps[1..], peer)
  }

  lemma {:induction false} WithoutAppend(ps: seq<ProviderInfo>, p: ProviderInfo, peer: Endpoint)
    ensures Without(ps + [p], peer) == Without(ps, peer) + if p.endpoint != peer then [p] else []
  {
    if ps == [] {
      assert ps + [p] == [p] && [p][1..] == [];
    } else {
      assert (ps + [p])[1..] == ps[1..] + [p];
      WithoutAppend(ps[1..], p, peer);
    }
  }

  lemma StandingAfter(notes: seq<Note>, x: Note, i: nat, h: Blake3, peer: Endpoint)
    requires i < |notes|
    ensures StandingOffer(notes + [x], i, h, peer) == (StandingOffer(notes, i, h, peer) && x != Left(peer))
  {
    var more := notes + [x];
    if StandingOffer(more, i, h, peer) {
      forall j | i < j < |notes| ensures notes[j] != Left(peer) { assert more[j] == notes[j]; }
      assert more[|notes|] == x;
    }
  }

  lemma FirstAfter(notes: seq<Note>, x: Note, i: nat, h: Blake3)
    requires i < |notes|
    ensures FirstOffer(notes + [x], i, h) == (FirstOffer(notes, i, h) && x != Left(notes[i].info.endpoint))
  {
    hide StandingOffer;
    var more := notes + [x];
    assert more[i] == notes[i];
    if notes[i].Offers? {
      var peer := notes[i].info.endpoint;
      forall k | 0 <= k <= i ensures StandingOffer(more, k, h, peer) == (StandingOffer(notes, k, h, peer) && x != Left(peer)) {
        StandingAfter(notes, x, k, h, peer);
      }
    }
  }

  lemma {:induction false} OffersAfterLeave(notes: seq<Note>, peer: Endpoint, h: Blake3, n: nat)
    requires n <= |notes|
    ensures OffersUpto(notes + [Left(peer)], h, n) == Without(OffersUpto(notes, h, n), peer)
  {
    hide FirstOffer;
    if n > 0 {
      OffersAfterLeave(notes, peer, h, n - 1);
      FirstAfter(notes, Left(peer), n - 1, h);
      FirstIsOffer(notes, n - 1, h);
      assert (notes + [Left(peer)])[n - 1] == notes[n - 1];
      var before := OffersUpto(notes, h, n - 1);
      if FirstOffer(notes, n - 1, h) {
        WithoutAppend(before, notes[n - 1].info, peer);
      } else {
        assert before + [] == before;
      }
    }
  }

  lemma FirstIsOffer(notes: seq<Note>, i: nat, h: Blake3)
    ensures FirstOffer(notes, i, h) ==> i < |notes| && notes[i].Offers?
  {
  }

  lemma {:induction false} OffersUnchanged(notes: seq<Note>, x: Note, h: Blake3, n: nat)
    requires n <= |notes| && !x.Left?
    ensures OffersUpto(notes + [x], h, n) == OffersUpto(notes, h, n)
  {
    hide FirstOffer;
    if n > 0 {
      OffersUnchanged(notes, x, h, n - 1);
      FirstAfter(notes, x, n - 1, h);
      assert (notes + [x])[n - 1] == notes[n - 1];
    }
  }

  ghost predicate Lists(ps: seq<ProviderInfo>, peer: Endpoint) {
    exists k :: 0 <= k < |ps| && ps[k].endpoint == peer
  }

  /** A peer is listed exactly when it has a standing offer. */
  lemma {:induction false} ListedHasOffer(notes: seq<Note>, h: Blake3, n: nat, peer: Endpoint)
    requires n <= |notes|
    ensures Lists(OffersUpto(notes, h, n), peer) <==> exists i :: 0 <= i < n && StandingOffer(notes, i, h, peer)
  {
    hide Stays;
    if n > 0 {
      var before, all := OffersUpto(notes, h, n - 1), OffersUpto(notes, h, n);
      ListedHasOffer(notes, h, n - 1, peer);
      if Lists(before, peer) {
        var k :| 0 <= k < |before| && before[k].endpoint == peer;
        assert all[k].endpoint == peer;
      }
      if StandingOffer(notes, n - 1, h, peer) && !Lists(before, peer) {
        assert FirstOffer(notes, n - 1, h);
        assert all[|before|].endpoint == peer;
      }
      if Lists(all, peer) {
        var k :| 0 <= k < |all| && all[k].endpoint == peer;
        if k < |before| {
          assert before[k].endpoint == peer;
        } else {
          assert StandingOffer(notes, n - 1, h, peer);
        }
      }
    }
  }

  /** A new offer is appended unless the peer is already listed for the artifact. */
  lemma ProvidersAfterOffer(notes: seq<Note>, h: Blake3, info: ProviderInfo, q: Blake3)
    ensures
      var now := ProvidersOf(notes, q);
      ProvidersOf(notes + [Offers(h, info)], q) == if h == q && !Lists(now, info.endpoint) then now + [info] else now
  {
    hide Stays;
    var x := Offers(h, info);
    var more, n := notes + [x], |notes|;
    OffersUnchanged(notes, x, q, n);
    ListedHasOffer(notes, q, n, info.endpoint);
    assert more[n] == x;
    forall i | 0 <= i < n ensures StandingOffer(more, i, q, info.endpoint) == StandingOffer(notes, i, q, info.endpoint) {
      StandingAfter(notes, x, i, q, info.endpoint);
    }
    LastStays(more, info.endpoint);
    assert FirstOffer(more, n, q) <==> h == q && !Lists(ProvidersOf(notes, q), info.endpoint);
    assert ProvidersOf(notes, q) + [] == ProvidersOf(notes, q);
  }

  lemma LastStays(notes: seq<Note>, peer: Endpoint)
    requires notes != []
    ensures Stays(notes, |notes| - 1, peer)
  {
  }

  lemma ProvidersAfterOther(notes: seq<Note>, x: Note, q: Blake3)
    requires !x.Offers?
    ensures ProvidersOf(notes + [x], q) == if x.Left? then Without(ProvidersOf(notes, q), x.peer) else ProvidersOf(notes, q)
  {
    hide OffersUpto, StandingOffer;
    var more, n := notes + [x], |notes|;
    assert more[n] == x;
    if x.Left? {
      OffersAfterLeave(notes, x.peer, q, n);
    } else {
      OffersUnchanged(notes, x, q, n);
    }
    LastNotOffered(more, q);
  }

  lemma LastNotOffered(notes: seq<Note>, q: Blake3)
    requires notes != [] && !notes[|notes| - 1].Offers?
    ensures OffersUpto(notes, q, |notes|) == OffersUpto(notes, q, |notes| - 1)
  {
    hide StandingOffer;
    assert !FirstOffer(notes, |notes| - 1, q);
    assert OffersUpto(notes, q, |notes| - 1) + [] == OffersUpto(notes, q, |notes| - 1);
  }

  /** No endpoint is listed twice for an artifact. */
  lemma {:induction false} ListedOnce(notes: seq<Note>, h: Blake3, n: nat)
    requires n <= |notes|
    ensures forall a, b :: 0 <= a < b < |OffersUpto(notes, h, n)| ==> OffersUpto(notes, h, n)[a].endpoint != OffersUpto(notes, h, n)[b].endpoint
  {
    hide StandingOffer;
    if n > 0 {
      var before := OffersUpto(notes, h, n - 1);
      ListedOnce(notes, h, n - 1);
      if FirstOffer(notes, n - 1, h) {
        ListedHasOffer(notes, h, n - 1, notes[n - 1].info.endpoint);
        assert !Lists(before, notes[n - 1].info.endpoint);
      }
    }
  }

  // --- The caches ---------------------------------------------------------------------------------------------

  function Listed(providers: map<Blake3, seq<ProviderInfo>>, h: Blake3): seq<ProviderInfo> {
    if h in providers then providers[h] else []
  }

  function Known(requesters: map<Endpoint, RequesterInfo>, peer: Endpoint): Option<RequesterInfo> {
    if peer in requesters then Some(requesters[peer]) else None
  }

  ghost predicate ProvidersAgree(providers: map<Blake3, seq<ProviderInfo>>, notes: seq<Note>) {
    forall h :: Listed(providers, h) == ProvidersOf(notes, h)
  }

  ghost predicate RequestersAgree(requesters: map<Endpoint, RequesterInfo>, notes: seq<Note>) {
    forall peer :: Known(requesters, peer) == LatestNeed(notes, peer)
  }

  lemma NeedAfter(notes: seq<Note>, x: Note, peer: Endpoint)
    ensures LatestNeed(notes + [x], peer) ==
            if x.Needs? && x.need.endpoint == peer then Some(x.need)
            else if x == Left(peer) then None
            else LatestNeed(notes, peer)
  {
    assert (notes + [x])[..|notes|] == notes;
  }

  lemma {:induction false} NeedNamesPeer(notes: seq<Note>, peer: Endpoint)
    ensures LatestNeed(notes, peer).Some? ==> LatestNeed(notes, peer).value.endpoint == peer
  {
    if notes != [] { NeedNamesPeer(notes[..|notes| - 1], peer); }
  }

  /** Position i is the peer's need, and the peer has said nothing of the kind and not left since. */
  ghost predicate StandingNeed(notes: seq<Note>, i: nat, info: RequesterInfo, peer: Endpoint) {
    && i < |notes| && notes[i] == Needs(info) && info.endpoint == peer
    && forall j :: i < j < |notes| ==> notes[j] != Left(peer) && !(notes[j].Needs? && notes[j].need.endpoint == peer)
  }

  /** The need on record is the one announced last since the peer last left. */
  lemma {:induction false} LatestNeedStands(notes: seq<Note>, peer: Endpoint, info: RequesterInfo)
    ensures LatestNeed(notes, peer) == Some(info) <==> exists i: nat :: StandingNeed(notes, i, info, peer)
  {
    if notes != [] {
      var front, n := notes[..|notes| - 1], |notes| - 1;
      LatestNeedStands(front, peer, info);
      if i: nat :| StandingNeed(notes, i, info, peer) {
        if i < n { assert StandingNeed(front, i, info, peer); }
      }
      if LatestNeed(notes, peer) == Some(info) {
        if notes[n].Needs? && notes[n].need.endpoint == peer {
          assert StandingNeed(notes, n, info, peer);
        } else {
          var i: nat :| StandingNeed(front, i, info, peer);
          assert StandingNeed(notes, i, info, peer);
        }
      }
    }
  }

  /** The requester cache is untouched by a provider's announcement. */
  lemma RequestersAfterOffer(requesters: map<Endpoint, RequesterInfo>, notes: seq<Note>, x: Note)
    requires RequestersAgree(requesters, notes) && x.Offers?
    ensures RequestersAgree(requesters, notes + [x])
  {
    hide LatestNeed;
    forall peer ensures Known(requesters, peer) == LatestNeed(notes + [x], peer) { NeedAfter(notes, x, peer); }
  }

  // --- What one event changes in the answers --------------------------------------------------------------------

  /** A peer's need after an event: a NeedBuilder that names it as the requester, whoever relays it, replaces the
      need; the peer's departure removes it; nothing else matters. */
  ghost function NeedNow(e: Event, p: Endpoint, was: Option<RequesterInfo>): Option<RequesterInfo> {
    if e.Received? && e.msg.NeedBuilder? && e.msg.requester == Some(p) then Some(RequesterInfo(p, e.msg.features))
    else if e == NeighborDown(p) then None
    else was
  }

  /** An artifact's providers after one offer. */
  ghost function Offered(was: seq<ProviderInfo>, p: Endpoint, path: string, size: nat): seq<ProviderInfo> {
    if Lists(was, p) then was else was + [ProviderInfo(p, path, size)]
  }

  /** The first output with this hash. */
  function FirstOutput(outputs: seq<Output>, h: Blake3): (r: Option<Output>)
    ensures r.None? ==> forall i :: 0 <= i < |outputs| ==> outputs[i].blake3 != h
    ensures r.Some? ==> exists i :: && 0 <= i < |outputs| && outputs[i] == r.value && r.value.blake3 == h
                                    && forall j :: 0 <= j < i ==> outputs[j].blake3 != h
  {
    if outputs == [] then None
    else
      var earlier := FirstOutput(outputs[..|outputs| - 1], h);
      if earlier.Some? then earlier
      else if outputs[|outputs| - 1].blake3 == h then Some(outputs[|outputs| - 1])
      else None
  }

  /** An artifact's providers after an event: the sender of Have or IHave, and the builder of a finished build for
      each of its outputs, is added with what it said unless it is listed; a departed peer is gone. */
  ghost function ProvidersNow(e: Event, h: Blake3, was: seq<ProviderInfo>): seq<ProviderInfo> {
    match e
    case Received(msg, sender) =>
      if (msg.Have? || msg.IHave?) && msg.blake3 == h then Offered(was, sender, msg.storePath, msg.narSize)
      else if msg.BuildComplete? && msg.builder.Some? && FirstOutput(msg.outputs, h).Some?
      then
        var o := FirstOutput(msg.outputs, h).value;
        Offered(was, msg.builder.value, o.storePath, o.narSize)
      else was
    case NeighborDown(p) => Without(was, p)
    case _ => was
  }

  /** Both caches answer after the event as these functions say. */
  ghost predicate AnswersAfter(before: seq<Note>, e: Event, after: seq<Note>) {
    && (forall p :: LatestNeed(after, p) == NeedNow(e, p, LatestNeed(before, p)))
    && (forall h :: ProvidersOf(after, h) == ProvidersNow(e, h, ProvidersOf(before, h)))
  }

  lemma {:induction false} OutputsNeedNothing(notes: seq<Note>, b: Endpoint, outputs: seq<Output>, p: Endpoint)
    ensures LatestNeed(notes + OutputNotes(b, outputs), p) == LatestNeed(notes, p)
  {
    hide LatestNeed;
    if outputs == [] {
      assert notes + [] == notes;
    } else {
      var front, last := outputs[..|outputs| - 1], outputs[|outputs| - 1];
      var x := Offers(last.blake3, ProviderInfo(b, last.storePath, last.narSize));
      OutputsNeedNothing(notes, b, front, p);
      assert notes + OutputNotes(b, outputs) == (notes + OutputNotes(b, front)) + [x];
      NeedAfter(notes + OutputNotes(b, front), x, p);
    }
  }

  lemma {:induction false} OutputsAreOffered(notes: seq<Note>, b: Endpoint, outputs: seq<Output>, h: Blake3)
    ensures
      var was, first := ProvidersOf(notes, h), FirstOutput(outputs, h);
      ProvidersOf(notes + OutputNotes(b, outputs), h) ==
      if first.Some? then Offered(was, b, first.value.storePath, first.value.narSize) else was
  {
    hide ProvidersOf;
    var was := ProvidersOf(notes, h);
    if outputs == [] {
      assert notes + [] == notes;
    } else {
      var front, last := outputs[..|outputs| - 1], outputs[|outputs| - 1];
      var info := ProviderInfo(b, last.storePath, last.narSize);
      OutputsAreOffered(notes, b, front, h);
      assert notes + OutputNotes(b, outputs) == (notes + OutputNotes(b, front)) + [Offers(last.blake3, info)];
      ProvidersAfterOffer(notes + OutputNotes(b, front), last.blake3, info, h);
      if FirstOutput(front, h).Some? {
        ListedOnceOffered(was, b, FirstOutput(front, h).value.storePath, FirstOutput(front, h).value.narSize);
      }
    }
  }

  lemma ListedOnceOffered(was: seq<ProviderInfo>, p: Endpoint, path: string, size: nat)
    ensures Lists(Offered(was, p, path, size), p)
  {
    var now := Offered(was, p, path, size);
    if !Lists(was, p) { assert now[|was|].endpoint == p; }
  }

  /** The notes an event leaves say the same about needs as the event itself. */
  lemma NeedsAfterEvent(notes: seq<Note>, e: Event, p: Endpoint)
    ensures LatestNeed(notes + NotesOf(e), p) == NeedNow(e, p, LatestNeed(notes, p))
  {
    hide LatestNeed;
    assert notes + [] == notes;
    match e
    case Received(Have(h, path, size), sender) => NeedAfter(notes, Offers(h, ProviderInfo(sender, path, size)), p);
    case Received(IHave(h, path, size), sender) => NeedAfter(notes, Offers(h, ProviderInfo(sender, path, size)), p);
    case Received(NeedBuilder(Some(r), features), _) => NeedAfter(notes, Needs(RequesterInfo(r, features)), p);
    case Received(BuildComplete(Some(b), outputs), _) => OutputsNeedNothing(notes, b, outputs, p);
    case NeighborDown(peer) => NeedAfter(notes, Left(peer), p);
    case _ =>
  }

  lemma ProvidersAfterEvent(notes: seq<Note>, e: Event, h: Blake3)
    ensures ProvidersOf(notes + NotesOf(e), h) == ProvidersNow(e, h, ProvidersOf(notes, h))
  {
    hide ProvidersOf;
    assert notes + [] == notes;
    match e
    case Received(Have(q, path, size), sender) => ProvidersAfterOffer(notes, q, ProviderInfo(sender, path, size), h);
    case Received(IHave(q, path, size), sender) => ProvidersAfterOffer(notes, q, ProviderInfo(sender, path, size), h);
    case Received(NeedBuilder(Some(r), features), _) => ProvidersAfterOther(notes, Needs(RequesterInfo(r, features)), h);
    case Received(BuildComplete(Some(b), outputs), _) => OutputsAreOffered(notes, b, outputs, h);
    case NeighborDown(peer) => ProvidersAfterOther(notes, Left(peer), h);
    case _ =>
  }

  lemma EventChangesAnswers(notes: seq<Note>, e: Event)
    ensures AnswersAfter(notes, e, notes + NotesOf(e))
  {
    hide LatestNeed, ProvidersOf, NeedNow, ProvidersNow, NotesOf;
    forall p ensures LatestNeed(notes + NotesOf(e), p) == NeedNow(e, p, LatestNeed(notes, p)) { NeedsAfterEvent(notes, e, p); }
    forall h ensures ProvidersOf(notes + NotesOf(e), h) == ProvidersNow(e, h, ProvidersOf(notes, h)) { ProvidersAfterEvent(notes, e, h); }
  }

  /** Removing a peer keeps exactly the other entries, in their order. */
  lemma {:induction false} WithoutExactly(ps: seq<ProviderInfo>, peer: Endpoint, p: ProviderInfo)
    ensures p in Without(ps, peer) <==> p in ps && p.endpoint != peer
    ensures (forall q :: q in ps ==> q.endpoint != peer) ==> Without(ps, peer) == ps
  {
    if ps != [] {
      WithoutExactly(ps[1..], peer, p);
      assert ps == [ps[0]] + ps[1..];
    }
  }

  /** Both caches, and the notes they have taken so far. */
  class Caches {
    var providers: map<Blake3, seq<ProviderInfo>>
    var requesters: map<Endpoint, RequesterInfo>
    ghost var notes: seq<Note>

    ghost predicate Valid() reads this { ProvidersAgree(providers, notes) && RequestersAgree(requesters, notes) }

    constructor ()
      ensures Valid() && notes == []
    {
      providers, requesters, notes := map[], map[], [];
    }

    /** gossip.rs:123-129 */
    method AddProvider(h: Blake3, info: ProviderInfo)
      requires Valid()
      modifies this`providers, this`notes
      ensures Valid() && notes == old(notes) + [Offers(h, info)]
    {
      hide ProvidersOf, LatestNeed;
      var list := Listed(providers, h);
      var found := false;
      for i := 0 to |list|
        invariant found <==> exists k :: 0 <= k < i && list[k].endpoint == info.endpoint
      {
        if list[i].endpoint == info.endpoint { found := true; }
      }
      if !found { list := list + [info]; }
      providers := providers[h := list];
      notes := notes + [Offers(h, info)];
      forall q ensures Listed(providers, q) == ProvidersOf(notes, q) {
        ProvidersAfterOffer(old(notes), h, info, q);
        assert Listed(old(providers), q) == ProvidersOf(old(notes), q);
      }
      RequestersAfterOffer(requesters, old(notes), Offers(h, info));
    }

    /** gossip.rs:132-134 */
    method GetProviders(h: Blake3) returns (r: Option<seq<ProviderInfo>>)
      requires Valid()
      ensures r.Some? ==> r.value == ProvidersOf(notes, h)
      ensures r.None? ==> ProvidersOf(notes, h) == []
    {
      hide ProvidersOf;
      assert Listed(providers, h) == ProvidersOf(notes, h);
      r := if h in providers then Some(providers[h]) else None;
    }

    /** gossip.rs:137-141: every list in turn, in any order. */
    method RemoveProvider(peer: Endpoint)
      modifies this`providers
      ensures providers.Keys == old(providers).Keys
      ensures forall h :: h in providers ==> providers[h] == Without(old(providers)[h], peer)
    {
      var todo := providers.Keys;
      while todo != {}
        invariant todo <= providers.Keys == old(providers).Keys
        invariant forall h :: h in providers ==>
                    providers[h] == if h in todo then old(providers)[h] else Without(old(providers)[h], peer)
        decreases |todo|
      {
        var h :| h in todo;
        providers := providers[h := Without(providers[h], peer)];
        todo := todo - {h};
      }
    }

    /** gossip.rs:158-160 */
    method AddRequester(info: RequesterInfo)
      requires Valid()
      modifies this`requesters, this`notes
      ensures Valid() && notes == old(notes) + [Needs(info)]
    {
      hide ProvidersOf, LatestNeed;
      requesters := requesters[info.endpoint := info];
      notes := notes + [Needs(info)];
      forall q ensures Listed(providers, q) == ProvidersOf(notes, q) {
        ProvidersAfterOther(old(notes), Needs(info), q);
        assert Listed(providers, q) == ProvidersOf(old(notes), q);
      }
      forall peer ensures Known(requesters, peer) == LatestNeed(notes, peer) {
        NeedAfter(old(notes), Needs(info), peer);
        assert Known(old(requesters), peer) == LatestNeed(old(notes), peer);
      }
    }

    /** gossip.rs:303-312, NeighborDown: the peer goes from both caches. */
    method PeerLeft(peer: Endpoint)
      requires Valid()
      modifies this
      ensures Valid() && notes == old(notes) + [Left(peer)]
    {
      hide ProvidersOf, LatestNeed;
      RemoveProvider(peer);
      requesters := requesters - {peer};
      notes := notes + [Left(peer)];
      forall q ensures Listed(providers, q) == ProvidersOf(notes, q) {
        ProvidersAfterOther(old(notes), Left(peer), q);
        assert Listed(old(providers), q) == ProvidersOf(old(notes), q);
        assert Without([], peer) == [];
      }
      forall p ensures Known(requesters, p) == LatestNeed(notes, p) {
        NeedAfter(old(notes), Left(peer), p);
        assert Known(old(requesters), p) == LatestNeed(old(notes), p);
      }
    }

    /** The outputs of a finished build are offered by its builder, one by one. */
    method AddOutputs(builder: Endpoint, outputs: seq<Output>)
      requires Valid()
      modifies this`providers, this`notes
      ensures Valid() && notes == old(notes) + OutputNotes(builder, outputs)
    {
      hide ProvidersAgree, RequestersAgree;
      for i := 0 to |outputs|
        invariant Valid() && notes == old(notes) + OutputNotes(builder, outputs[..i])
      {
        assert outputs[..i + 1][..i] == outputs[..i];
        AddProvider(outputs[i].blake3, ProviderInfo(builder, outputs[i].storePath, outputs[i].narSize));
      }
      assert outputs[..|outputs|] == outputs;
    }

    /** gossip.rs:289-437: the receiver loop's effect on the caches; `ok` is false exactly for content that does not decode or
        an id that is no endpoint. */
    method HandleEvent(e: Event) returns (ok: bool)
      requires Valid()
      modifies this
      ensures Valid() && notes == old(notes) + NotesOf(e)
      ensures AnswersAfter(old(notes), e, notes)
      ensures ok <==> !e.Undecodable? && !(e.Received? && ((e.msg.NeedBuilder? && e.msg.requester.None?) || (e.msg.BuildComplete? && e.msg.builder.None?)))
    {
      hide ProvidersAgree, RequestersAgree, AnswersAfter;
      EventChangesAnswers(notes, e);
      assert notes + [] == notes;
      ok := true;
      match e
      case Received(Have(h, path, size), sender) => AddProvider(h, ProviderInfo(sender, path, size));
      case Received(IHave(h, path, size), sender) => AddProvider(h, ProviderInfo(sender, path, size));
      case Received(Want(_), _) =>
      case Received(NeedBuilder(requester, features), _) =>
        if requester.Some? { AddRequester(RequesterInfo(requester.value, features)); } else { ok := false; }
      case Received(BuildComplete(builder, outputs), _) =>
        if builder.Some? { AddOutputs(builder.value, outputs); } else { ok := false; }
      case NeighborDown(peer) => PeerLeft(peer);
      case NeighborUp(_) =>
      case Undecodable => ok := false;
      case Lagged =>
    }

    /** The requesters whose latest standing need is covered by our features, each exactly once. */
    method GetMatchingRequesters(ours: seq<string>) returns (r: seq<RequesterInfo>)
      requires Valid()
      ensures forall info :: info in r <==> LatestNeed(notes, info.endpoint) == Some(info) && Covers(info.features, ours)
      ensures forall a, b :: 0 <= a < b < |r| ==> r[a].endpoint != r[b].endpoint
    {
      hide LatestNeed;
      r := [];
      var todo := requesters.Keys;
      forall p ensures Known(requesters, p) == LatestNeed(notes, p) {}
      forall p | p in requesters ensures requesters[p].endpoint == p { NeedNamesPeer(notes, p); assert Known(requesters, p).Some?; }
      while todo != {}
        invariant todo <= requesters.Keys
        invariant forall k :: 0 <= k < |r| ==> r[k].endpoint in requesters.Keys - todo && requesters[r[k].endpoint] == r[k] && Covers(r[k].features, ours)
        invariant forall p :: p in requesters.Keys - todo && Covers(requesters[p].features, ours) ==> requesters[p] in r
        invariant forall a, b :: 0 <= a < b < |r| ==> r[a].endpoint != r[b].endpoint
        decreases |todo|
      {
        var p :| p in todo;
        todo := todo - {p};
        if Covers(requesters[p].features, ours) { r := r + [requesters[p]]; }
      }
      forall info ensures info in r <==> LatestNeed(notes, info.endpoint) == Some(info) && Covers(info.features, ours) {
        assert Known(requesters, info.endpoint) == LatestNeed(notes, info.endpoint);
      }
    }
  }
}
