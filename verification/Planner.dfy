/** Dependency planning (iroh-nix/src/main.rs): which derivations need building, and in which order.

    `TopologicalSort` is Kahn's algorithm over hash maps.  Every iteration over a hash map or hash
    set picks its next element with `:|`, so its contract holds for every iteration order.
 */
module Planner {
  import opened Common

  /** A derivation, named by its .drv path. */
  datatype Drv = Drv(path: string)

  datatype DrvInfo = DrvInfo(
    drvPath: Drv,
    system: string,
    requiredFeatures: seq<string>,
    outputs: seq<string>,
    inputDrvs: map<Drv, seq<string>>,
    inputSrcs: seq<string>)

  /** The dependency graph of a build set: each member with its dependencies inside the set. */
  type Graph = map<Drv, set<Drv>>

  function DepGraph(drvs: map<Drv, DrvInfo>, toBuild: set<Drv>): Graph {
    map x | x in toBuild :: if x in drvs then drvs[x].inputDrvs.Keys * toBuild else {}
  }

  function Deps(g: Graph, x: Drv): set<Drv> { if x in g then g[x] else {} }

  ghost predicate Closed(g: Graph) {
    forall x :: x in g ==> g[x] <= g.Keys
  }

  /** A dependency chain inside the build set: each element depends on the next one. */
  ghost predicate Chain(g: Graph, p: seq<Drv>) {
    && |p| > 0
    && p[0] in g
    && forall i {:trigger p[i + 1]} :: 0 <= i < |p| - 1 ==> p[i + 1] in Deps(g, p[i])
  }

  /** Some chain from `x` visits a node twice. */
  ghost predicate LeadsIntoCycle(g: Graph, x: Drv) {
    exists p: seq<Drv>, i: nat, j: nat ::
      Chain(g, p) && p[0] == x && i < j < |p| && p[i] == p[j]
  }

  ghost predicate Acyclic(g: Graph) {
    forall x :: x in g ==> !LeadsIntoCycle(g, x)
  }

  ghost function Elems<T>(s: seq<T>): set<T> { set x | x in s }

  /** Every element comes after all of its in-set dependencies. */
  ghost predicate DepsFirst(g: Graph, order: seq<Drv>) {
    forall i :: 0 <= i < |order| ==> Deps(g, order[i]) <= Elems(order[..i])
  }

  // --- Facts about sequences ---------------------------------------------------------------

  lemma ElemsAppend<T>(s: seq<T>, x: T)
    ensures Elems(s + [x]) == Elems(s) + {x}
  {
  }

  lemma {:induction false} NoDupCard<T>(s: seq<T>)
    requires NoDup(s)
    ensures |Elems(s)| == |s|
  {
    if s != [] {
      var n := |s| - 1;
      assert s == s[..n] + [s[n]];
      NoDupCard(s[..n]);
      ElemsAppend(s[..n], s[n]);
      assert s[n] !in s[..n];
    }
  }

  // --- What a finished run of Kahn's algorithm means ------------------------------------------

  /** A chain that starts at a listed node stays listed and moves strictly towards the front. */
  lemma {:induction false} ChainMovesForward(
      g: Graph, order: seq<Drv>, p: seq<Drv>, i: nat, j: nat, at: nat)
      returns (at': nat)
    requires DepsFirst(g, order) && Chain(g, p)
    requires i <= j < |p| && at < |order| && order[at] == p[i]
    ensures at' <= at && order[at'] == p[j] && (i < j ==> at' < at)
    decreases j - i
  {
    at' := at;
    if i < j {
      assert p[i + 1] in Deps(g, order[at]);
      assert p[i + 1] in order[..at];
      var k :| 0 <= k < at && order[k] == p[i + 1];
      at' := ChainMovesForward(g, order, p, i + 1, j, k);
    }
  }

  lemma ListedAvoidsCycles(g: Graph, order: seq<Drv>, x: Drv)
    requires NoDup(order) && DepsFirst(g, order) && x in order
    ensures !LeadsIntoCycle(g, x)
  {
    forall p: seq<Drv>, i: nat, j: nat |
      Chain(g, p) && p[0] == x && i < j < |p| && p[i] == p[j]
      ensures false
    {
      var at :| 0 <= at < |order| && order[at] == x;
      var ai := ChainMovesForward(g, order, p, 0, i, at);
      var aj := ChainMovesForward(g, order, p, i, j, ai);
    }
  }

  /** From a node outside `listed`, a chain of any length can be followed without ever entering it. */
  lemma {:induction false} UnlistedChain(g: Graph, listed: set<Drv>, x: Drv, n: nat)
      returns (p: seq<Drv>)
    requires Closed(g) && forall y :: y in g && y !in listed ==> !(Deps(g, y) <= listed)
    requires x in g && x !in listed
    ensures |p| == n + 1 && p[0] == x && Chain(g, p)
    ensures forall i :: 0 <= i < |p| ==> p[i] in g && p[i] !in listed
  {
    if n == 0 {
      p := [x];
    } else {
      p := UnlistedChain(g, listed, x, n - 1);
      var y :| y in Deps(g, p[n - 1]) && y !in listed;
      p := p + [y];
    }
  }

  lemma UnlistedReachesCycle(g: Graph, listed: set<Drv>, x: Drv)
    requires Closed(g) && forall y :: y in g && y !in listed ==> !(Deps(g, y) <= listed)
    requires x in g && x !in listed
    ensures LeadsIntoCycle(g, x)
  {
    var p := UnlistedChain(g, listed, x, |g.Keys|);
    if NoDup(p) {
      NoDupCard(p);
      SubsetCard(Elems(p), g.Keys);
      assert false;
    }
    var i: nat, j: nat :| i < j < |p| && p[i] == p[j];
  }

  // --- The algorithm -----------------------------------------------------------------------------

  /** `s` enumerates the set `S`, each element once. */
  ghost predicate ListsExactly<T>(s: seq<T>, S: set<T>) {
    NoDup(s) && Elems(s) == S
  }

  lemma ListOneMore<T>(s: seq<T>, S: set<T>, x: T)
    requires ListsExactly(s, S) && x !in S
    ensures ListsExactly(s + [x], S + {x})
  {
    ElemsAppend(s, x);
    assert x !in s;
  }

  type Dependents = map<Drv, seq<Drv>>

  function DependentsOf(d: Dependents, y: Drv): seq<Drv> { if y in d then d[y] else [] }

  /** The nodes of `seen` that depend on `y`. */
  ghost function Dependers(g: Graph, seen: set<Drv>, y: Drv): set<Drv> {
    set x | x in seen && y in Deps(g, x)
  }

  ghost predicate DependentsTable(g: Graph, seen: set<Drv>, d: Dependents) {
    forall y :: ListsExactly(DependentsOf(d, y), Dependers(g, seen, y))
  }

  /** How many in-set dependencies of each node lie outside `done`. */
  ghost function Degrees(g: Graph, done: set<Drv>): map<Drv, nat> {
    map x | x in g :: |g[x] - done|
  }

  /** main.rs:990-1007: fill the in-degree and dependents maps. */
  method BuildEdgeTables(drvs: map<Drv, DrvInfo>, toBuild: set<Drv>)
      returns (inDegree: map<Drv, nat>, dependents: Dependents)
    ensures inDegree == Degrees(DepGraph(drvs, toBuild), {})
    ensures DependentsTable(DepGraph(drvs, toBuild), toBuild, dependents)
  {
    hide DependentsTable, InputCounts, Degrees;
    ghost var g := DepGraph(drvs, toBuild);
    inDegree, dependents := map[], map[];
    NothingSeen(g);
    CountsAreDegrees(g);
    var todo := toBuild;
    ghost var seen := {};
    while todo != {}
      invariant todo <= toBuild && forall x :: x in seen <==> x in toBuild && x !in todo
      invariant inDegree == InputCounts(g, seen)
      invariant DependentsTable(g, seen, dependents)
      decreases todo
    {
      var x :| x in todo;
      todo := todo - {x};
      CountsGrow(g, seen, x);
      UpdateTwice(inDegree, x, 0, |Deps(g, x)|);
      if x !in inDegree { inDegree := inDegree[x := 0]; }
      if x in drvs {
        inDegree, dependents := CountEdges(drvs, toBuild, g, seen, x, inDegree, dependents);
      } else {
        NoEdges(g, seen, x, dependents);
      }
      seen := seen + {x};
    }
    assert seen == toBuild == g.Keys;
  }

  ghost function InputCounts(g: Graph, seen: set<Drv>): map<Drv, nat> {
    map x | x in seen :: |Deps(g, x)|
  }

  lemma CountsGrow(g: Graph, seen: set<Drv>, x: Drv)
    ensures InputCounts(g, seen).Keys == seen
    ensures InputCounts(g, seen + {x}) == InputCounts(g, seen)[x := |Deps(g, x)|]
  {
  }

  lemma CountsAreDegrees(g: Graph)
    ensures InputCounts(g, {}) == map[] && InputCounts(g, g.Keys) == Degrees(g, {})
  {
    assert forall x :: x in g ==> g[x] - {} == g[x];
  }

  lemma NothingSeen(g: Graph)
    ensures DependentsTable(g, {}, map[])
  {
  }

  lemma NoEdges(g: Graph, seen: set<Drv>, x: Drv, d: Dependents)
    requires DependentsTable(g, seen, d) && Deps(g, x) == {}
    ensures DependentsTable(g, seen + {x}, d)
  {
    forall y ensures ListsExactly(DependentsOf(d, y), Dependers(g, seen + {x}, y)) {
      assert Dependers(g, seen + {x}, y) == Dependers(g, seen, y);
    }
  }

  /** The inner loop of main.rs:997-1005 for one derivation `x`. */
  method CountEdges(drvs: map<Drv, DrvInfo>, toBuild: set<Drv>, ghost g: Graph, ghost seen: set<Drv>, x: Drv,
                    inDegree0: map<Drv, nat>, dependents0: Dependents)
      returns (inDegree: map<Drv, nat>, dependents: Dependents)
    requires x !in seen && x in drvs && Deps(g, x) == drvs[x].inputDrvs.Keys * toBuild
    requires x in inDegree0 && inDegree0[x] == 0
    requires DependentsTable(g, seen, dependents0)
    ensures inDegree == inDegree0[x := |Deps(g, x)|]
    ensures DependentsTable(g, seen + {x}, dependents)
  {
    hide DependentsTable, PartlyCounted, Deps;
    inDegree, dependents := inDegree0, dependents0;
    UpdateSame(inDegree0, x);
    NothingCounted(g, seen, x, dependents);
    var deps := drvs[x].inputDrvs.Keys;
    ghost var inputs, counted := deps, {};
    while deps != {}
      invariant forall y :: y in deps ==> y in inputs
      invariant forall y :: y in counted <==> y in inputs && y !in deps && y in toBuild
      invariant inDegree == inDegree0[x := |counted|]
      invariant PartlyCounted(g, seen, x, counted, dependents)
      decreases deps
    {
      var dep :| dep in deps;
      deps := deps - {dep};
      if dep in toBuild {
        UpdateTwice(inDegree0, x, |counted|, |counted| + 1);
        inDegree := inDegree[x := inDegree[x] + 1];
        CountOne(g, seen, x, counted, dep, dependents);
        dependents := dependents[dep := DependentsOf(dependents, dep) + [x]];
        counted := counted + {dep};
      }
    }
    assert counted == inputs * toBuild;
    AllCounted(g, seen, x, dependents);
  }

  lemma UpdateSame<K, V>(m: map<K, V>, k: K)
    requires k in m
    ensures m[k := m[k]] == m
  {
  }

  lemma UpdateTwice<K, V>(m: map<K, V>, k: K, a: V, b: V)
    ensures m[k := a][k := b] == m[k := b]
  {
  }

  lemma NothingCounted(g: Graph, seen: set<Drv>, x: Drv, d: Dependents)
    requires DependentsTable(g, seen, d)
    ensures PartlyCounted(g, seen, x, {}, d)
  {
    forall y ensures ListsExactly(DependentsOf(d, y), Dependers(g, seen, y) + (if y in {} then {x} else {})) {
      assert Dependers(g, seen, y) + {} == Dependers(g, seen, y);
    }
  }

  lemma AllCounted(g: Graph, seen: set<Drv>, x: Drv, d: Dependents)
    requires PartlyCounted(g, seen, x, Deps(g, x), d)
    ensures DependentsTable(g, seen + {x}, d)
  {
    forall y ensures ListsExactly(DependentsOf(d, y), Dependers(g, seen + {x}, y)) {
      assert Dependers(g, seen + {x}, y) == Dependers(g, seen, y) + (if y in Deps(g, x) then {x} else {});
    }
  }

  /** The dependents table while the edges of `x` to `counted` have been entered. */
  ghost predicate PartlyCounted(g: Graph, seen: set<Drv>, x: Drv,
                                counted: set<Drv>, d: Dependents) {
    forall y :: ListsExactly(DependentsOf(d, y),
                             Dependers(g, seen, y) + (if y in counted then {x} else {}))
  }

  lemma CountOne(g: Graph, seen: set<Drv>, x: Drv,
                 counted: set<Drv>, dep: Drv, d: Dependents)
    requires PartlyCounted(g, seen, x, counted, d) && x !in seen && dep !in counted
    ensures PartlyCounted(g, seen, x, counted + {dep}, d[dep := DependentsOf(d, dep) + [x]])
  {
    var d' := d[dep := DependentsOf(d, dep) + [x]];
    forall y ensures ListsExactly(DependentsOf(d', y),
                       Dependers(g, seen, y) + (if y in counted + {dep} then {x} else {}))
    {
      var S := Dependers(g, seen, y);
      assert ListsExactly(DependentsOf(d, y), S + (if y in counted then {x} else {}));
      if y == dep {
        assert S + {} == S;
        ListOneMore(DependentsOf(d, y), S, x);
      }
    }
  }

  /** The nodes whose in-set dependencies are all in `done`. */
  ghost function Ready(g: Graph, done: set<Drv>): set<Drv> {
    set x | x in g && Deps(g, x) <= done
  }

  /** main.rs:1010-1014: the nodes of in-degree zero, in whatever order the map yields them. */
  method InitialQueue(inDegree: map<Drv, nat>) returns (queue: seq<Drv>)
    ensures ListsExactly(queue, set x | x in inDegree && inDegree[x] == 0)
  {
    queue := [];
    var todo := inDegree.Keys;
    while todo != {}
      invariant todo <= inDegree.Keys
      invariant ListsExactly(queue, set x | x in inDegree.Keys - todo && inDegree[x] == 0)
      decreases todo
    {
      var x :| x in todo;
      ghost var S := set x | x in inDegree.Keys - todo && inDegree[x] == 0;
      todo := todo - {x};
      if inDegree[x] == 0 {
        ListOneMore(queue, S, x);
        queue := queue + [x];
        assert S + {x} == set x | x in inDegree.Keys - todo && inDegree[x] == 0;
      } else {
        assert S == set x | x in inDegree.Keys - todo && inDegree[x] == 0;
      }
    }
  }

  /** The in-degrees while only the nodes in `released` have moved from `before` to `after`. */
  ghost function Blend(before: map<Drv, nat>, after: map<Drv, nat>, released: set<Drv>): map<Drv, nat>
    requires before.Keys == after.Keys
  {
    map x | x in before :: if x in released then after[x] else before[x]
  }

  /** main.rs:1021-1030: release the dependents of the node that was just listed.  The subtraction
      is on `nat`: Dafny checks that no in-degree underflows. */
  method ReleaseDependents(ghost g: Graph, ghost done: set<Drv>, node: Drv, deps: seq<Drv>,
                           inDegree0: map<Drv, nat>, ghost result: seq<Drv>, queue0: seq<Drv>)
      returns (inDegree: map<Drv, nat>, queue: seq<Drv>)
    requires node !in done
    requires ListsExactly(deps, Dependers(g, g.Keys, node))
    requires inDegree0 == Degrees(g, done)
    requires ListsExactly(result + queue0, Ready(g, done))
    ensures inDegree == Degrees(g, done + {node})
    ensures ListsExactly(result + queue, Ready(g, done + {node}))
  {
    hide ListsExactly, Dependers, Degrees, Ready, NoDup;
    inDegree, queue := inDegree0, queue0;
    ghost var before, after := Degrees(g, done), Degrees(g, done + {node});
    ghost var readyBefore, readyAfter := Ready(g, done), Ready(g, done + {node});
    var k := 0;
    ghost var released := {};
    Listed(deps, Dependers(g, g.Keys, node));
    SameKeys(g, done, done + {node});
    assert readyBefore + released * readyAfter == readyBefore;
    while k < |deps|
      invariant 0 <= k <= |deps| && released == Elems(deps[..k])
      invariant inDegree == Blend(before, after, released)
      invariant ListsExactly(result + queue, readyBefore + released * readyAfter)
    {
      var dep := deps[k];
      TakeOne(deps, k);
      DegreeDrops(g, done, node, dep);
      if dep in inDegree {
        inDegree := inDegree[dep := inDegree[dep] - 1];
        if inDegree[dep] == 0 {
          ListOneMore(result + queue, readyBefore + released * readyAfter, dep);
          assert result + (queue + [dep]) == result + queue + [dep];
          queue := queue + [dep];
        }
      }
      ReadyGrows(readyBefore, released, readyAfter, dep);
      released := released + {dep};
      k := k + 1;
    }
    assert deps[..k] == deps;
    OthersKeep(g, done, node);
  }

  lemma Listed<T>(s: seq<T>, S: set<T>)
    requires ListsExactly(s, S)
    ensures NoDup(s) && Elems(s) == S
  {
  }

  lemma SameKeys(g: Graph, done: set<Drv>, done': set<Drv>)
    ensures Degrees(g, done).Keys == Degrees(g, done').Keys == g.Keys
  {
  }

  lemma TakeOne<T>(s: seq<T>, k: nat)
    requires NoDup(s) && k < |s|
    ensures s[k] in Elems(s) && s[k] !in Elems(s[..k]) && Elems(s[..k + 1]) == Elems(s[..k]) + {s[k]}
  {
    assert s[..k + 1] == s[..k] + [s[k]];
  }

  lemma DegreeDrops(g: Graph, done: set<Drv>, node: Drv, dep: Drv)
    requires node !in done && dep in Dependers(g, g.Keys, node)
    ensures dep !in Ready(g, done)
    ensures Degrees(g, done)[dep] == Degrees(g, done + {node})[dep] + 1
    ensures Degrees(g, done + {node})[dep] == 0 <==> dep in Ready(g, done + {node})
  {
    var D := g[dep];
    var rest := D - (done + {node});
    assert D - done == rest + {node};
    if |rest| == 0 { assert rest == {}; }
  }

  lemma ReadyGrows(a: set<Drv>, released: set<Drv>, b: set<Drv>, dep: Drv)
    ensures a + (released + {dep}) * b == if dep in b then a + released * b + {dep} else a + released * b
  {
  }

  lemma OthersKeep(g: Graph, done: set<Drv>, node: Drv)
    ensures Blend(Degrees(g, done), Degrees(g, done + {node}), Dependers(g, g.Keys, node)) == Degrees(g, done + {node})
    ensures Ready(g, done) + Dependers(g, g.Keys, node) * Ready(g, done + {node}) == Ready(g, done + {node})
  {
    forall x | x in g && x !in Dependers(g, g.Keys, node)
      ensures g[x] - done == g[x] - (done + {node})
    {
    }
  }

  /** main.rs:984-1034.  A node is listed exactly when no dependency chain from it inside the build
      set runs into a cycle, each listed node once and after all of its dependencies. */
  method TopologicalSort(drvs: map<Drv, DrvInfo>, toBuild: set<Drv>) returns (result: seq<Drv>)
    ensures NoDup(result)
    ensures DepsFirst(DepGraph(drvs, toBuild), result)
    ensures forall x :: x in result <==> x in toBuild && !LeadsIntoCycle(DepGraph(drvs, toBuild), x)
  {
    var inDegree, dependents := BuildEdgeTables(drvs, toBuild);
    result := ListReady(DepGraph(drvs, toBuild), inDegree, dependents);
    FinishedMeansListed(DepGraph(drvs, toBuild), result);
  }

  /** main.rs:1009-1033: Kahn's loop proper. */
  method ListReady(ghost g: Graph, inDegree0: map<Drv, nat>, dependents: Dependents) returns (result: seq<Drv>)
    requires inDegree0 == Degrees(g, {})
    requires DependentsTable(g, g.Keys, dependents)
    ensures ListsExactly(result, Ready(g, Elems(result))) && DepsFirst(g, result)
  {
    var inDegree := inDegree0;
    var queue := InitialQueue(inDegree);
    ZeroDegreeIsReady(g);
    result := [];
    assert [] + queue == queue;
    assert Elems<Drv>([]) == {};
    while queue != []
      invariant inDegree == Degrees(g, Elems(result))
      invariant ListsExactly(result + queue, Ready(g, Elems(result)))
      invariant DepsFirst(g, result)
      decreases |g.Keys| - |result|
    {
      var node := queue[0];
      assert queue == [node] + queue[1..];
      queue := queue[1..];
      NextListed(g, result, node, queue);
      ElemsAppend(result, node);
      ghost var done := Elems(result);
      result := result + [node];
      inDegree, queue := ReleaseDependents(g, done, node, DependentsOf(dependents, node), inDegree, result, queue);
    }
    assert result + queue == result;
  }

  lemma ZeroDegreeIsReady(g: Graph)
    ensures
      var degrees := Degrees(g, {});
      (set x | x in degrees && degrees[x] == 0) == Ready(g, {})
  {
    forall x | x in g
      ensures |Deps(g, x) - {}| == 0 <==> Deps(g, x) <= {}
    {
      var D := Deps(g, x);
      assert D - {} == D;
      if |D| == 0 { assert D == {}; }
    }
  }

  /** Popping the front of the queue onto the result keeps the listing and the dependency order. */
  lemma NextListed(g: Graph, result: seq<Drv>, node: Drv, queue: seq<Drv>)
    requires ListsExactly(result + ([node] + queue), Ready(g, Elems(result)))
    requires DepsFirst(g, result)
    ensures ListsExactly(result + [node] + queue, Ready(g, Elems(result)))
    ensures node !in Elems(result) && DepsFirst(g, result + [node])
    ensures |result| < |g.Keys|
  {
    var all := result + [node] + queue;
    assert result + ([node] + queue) == all;
    assert node in Elems(all) by { assert all[|result|] == node; }
    NoDupCard(all);
    SubsetCard(Elems(all), g.Keys);
    forall i | 0 <= i < |result| ensures result[i] != node { assert all[i] == result[i] && all[|result|] == node; }
    PrefixesKept(g, result + [node], node);
  }

  lemma FinishedMeansListed(g: Graph, result: seq<Drv>)
    requires Closed(g) && ListsExactly(result, Ready(g, Elems(result))) && DepsFirst(g, result)
    ensures forall x :: x in result <==> x in g && !LeadsIntoCycle(g, x)
  {
    forall x ensures x in result <==> x in g && !LeadsIntoCycle(g, x) {
      assert x in result <==> x in Ready(g, Elems(result));
      if x in result {
        ListedAvoidsCycles(g, result, x);
      } else if x in g {
        UnlistedReachesCycle(g, Elems(result), x);
      }
    }
  }

  lemma PrefixesKept(g: Graph, result: seq<Drv>, node: Drv)
    requires |result| > 0 && result[|result| - 1] == node
    requires DepsFirst(g, result[..|result| - 1])
    requires Deps(g, node) <= Elems(result[..|result| - 1])
    ensures DepsFirst(g, result)
  {
    var n := |result| - 1;
    forall i | 0 <= i < |result|
      ensures Deps(g, result[i]) <= Elems(result[..i])
    {
      if i < n { assert result[..n][..i] == result[..i] && result[..n][i] == result[i]; }
    }
  }

  /** On an acyclic build set the sort is a permutation of the set. */
  lemma AcyclicSortIsPermutation(g: Graph, order: seq<Drv>)
    requires NoDup(order)
    requires forall x :: x in order <==> x in g && !LeadsIntoCycle(g, x)
    ensures multiset(order) == multiset(g.Keys) <==> Acyclic(g)
    ensures |order| == |g.Keys| <==> Acyclic(g)
  {
    NoDupCard(order);
    NoDupMultiset(order);
    if Acyclic(g) {
      assert Elems(order) == g.Keys;
    } else {
      var x :| x in g && LeadsIntoCycle(g, x);
      assert x !in multiset(order) && x in multiset(g.Keys);
      assert Elems(order) <= g.Keys - {x};
      SubsetCard(Elems(order), g.Keys - {x});
    }
  }

  lemma {:induction false} NoDupMultiset<T>(s: seq<T>)
    requires NoDup(s)
    ensures multiset(s) == multiset(Elems(s))
  {
    if s != [] {
      var n := |s| - 1;
      assert s == s[..n] + [s[n]];
      NoDupMultiset(s[..n]);
      ElemsAppend(s[..n], s[n]);
      assert s[n] !in s[..n];
    }
  }

  // --- The build plan ---------------------------------------------------------------------------------

  /** main.rs:1051-1060: a derivation needs building if any of its outputs is missing. */
  predicate NeedsBuild(info: DrvInfo, existing: set<string>) {
    exists out :: out in info.outputs && out !in existing
  }

  /** The plan lists the derivations of `g` that lead into no cycle, dependencies first. */
  ghost predicate PlanFor(drvs: map<Drv, DrvInfo>, existing: set<string>, plan: seq<DrvInfo>, order: seq<Drv>) {
    var toBuild := set x | x in drvs && NeedsBuild(drvs[x], existing);
    var g := DepGraph(drvs, toBuild);
    && NoDup(order) && DepsFirst(g, order)
    && (forall x :: x in order <==> x in toBuild && !LeadsIntoCycle(g, x))
    && |plan| == |order|
    && (forall i :: 0 <= i < |plan| ==> plan[i] == drvs[order[i]])
  }

  /** main.rs:1051-1071 */
  method CreateBuildPlan(drvs: map<Drv, DrvInfo>, existing: set<string>) returns (plan: seq<DrvInfo>)
    ensures exists order :: PlanFor(drvs, existing, plan, order)
  {
    hide NoDup, DepsFirst, LeadsIntoCycle, DepGraph;
    var toBuild := {};
    var todo := drvs.Keys;
    while todo != {}
      invariant todo <= drvs.Keys
      invariant forall x :: x in toBuild <==> x in drvs && x !in todo && NeedsBuild(drvs[x], existing)
      decreases todo
    {
      var x :| x in todo;
      todo := todo - {x};
      var needs := AnyMissing(drvs[x].outputs, existing);
      if needs { toBuild := toBuild + {x}; }
    }
    assert toBuild == set x | x in drvs && NeedsBuild(drvs[x], existing);
    var sorted := TopologicalSort(drvs, toBuild);
    plan := [];
    for i := 0 to |sorted|
      invariant |plan| == i
      invariant forall k :: 0 <= k < i ==> plan[k] == drvs[sorted[k]]
    {
      assert sorted[i] in drvs;
      if sorted[i] in drvs { plan := plan + [drvs[sorted[i]]]; }
    }
    assert PlanFor(drvs, existing, plan, sorted);
  }

  method AnyMissing(outputs: seq<string>, existing: set<string>) returns (r: bool)
    ensures r <==> exists out :: out in outputs && out !in existing
  {
    r := false;
    for i := 0 to |outputs|
      invariant r <==> exists k :: 0 <= k < i && outputs[k] !in existing
    {
      if outputs[i] !in existing { r := true; }
    }
    if r {
      var k :| 0 <= k < |outputs| && outputs[k] !in existing;
      assert outputs[k] in outputs;
    }
  }
}
