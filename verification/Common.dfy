/** What several parts of the model share. */
module Common {

  datatype Option<+T> = None | Some(value: T)

  /** A peer, named by its public key. */
  datatype Endpoint = Endpoint(key: string)

  /** Every required feature is offered. */
  predicate Covers(required: seq<string>, offered: seq<string>) {
    forall f :: f in required ==> f in offered
  }

  ghost predicate NoDup<T>(s: seq<T>) {
    forall i, j :: 0 <= i < j < |s| ==> s[i] != s[j]
  }

  lemma SubsetCard<T>(a: set<T>, b: set<T>)
    requires a <= b
    ensures |a| <= |b|
  {
    assert b == a + (b - a);
  }

  lemma SameRest<T>(ps: seq<T>, i: nat, qs: seq<T>)
    requires i < |ps| && qs != [] && qs[0] == ps[i] && multiset(ps) == multiset(qs)
    ensures multiset(ps[..i] + ps[i + 1..]) == multiset(qs[1..])
  {
    RemoveAt(ps, i);
    TailMultiset(qs);
  }

  lemma RemoveAt<T>(s: seq<T>, i: nat)
    requires i < |s|
    ensures multiset(s[..i] + s[i + 1..]) == multiset(s) - multiset{s[i]}
  {
    var a, b := s[..i], s[i + 1..];
    assert s == a + ([s[i]] + b);
    assert multiset([s[i]] + b) == multiset{s[i]} + multiset(b);
  }

  lemma TailMultiset<T>(s: seq<T>)
    requires s != []
    ensures multiset(s[1..]) == multiset(s) - multiset{s[0]}
  {
    assert s == [s[0]] + s[1..];
  }
}
