/** Connected components of a finite undirected graph given by a node list and
    an adjacency function.  Both library calls of the segmentation core that
    group things by connectivity (skimage's `label` over pixels, networkx's
    `connected_components` over region labels) are this computation, so it is
    defined and verified once here. */
module Graphs {

  /** Entries k and k + 1 of `path` are adjacent.  (Naming the step keeps the
      quantifier below from re-triggering on path[k + 1].) */
  ghost predicate Step<T>(adj: (T, T) -> bool, path: seq<T>, k: int)
    requires 0 <= k < |path| - 1
  {
    adj(path[k], path[k + 1])
  }

  /** `path` is a non-empty walk: consecutive nodes are adjacent. */
  ghost predicate IsWalk<T>(adj: (T, T) -> bool, path: seq<T>) {
    |path| > 0 && forall k :: 0 <= k < |path| - 1 ==> Step(adj, path, k)
  }

  /** Some walk leads from x to y (every node reaches itself). */
  ghost predicate Reach<T(!new)>(adj: (T, T) -> bool, x: T, y: T) {
    exists path :: IsWalk(adj, path) && path[0] == x && path[|path| - 1] == y
  }

  ghost predicate Symmetric<T(!new)>(adj: (T, T) -> bool) {
    forall x, y :: adj(x, y) ==> adj(y, x)
  }

  lemma ReachRefl<T(!new)>(adj: (T, T) -> bool, x: T)
    ensures Reach(adj, x, x)
  {
    assert IsWalk(adj, [x]);
  }

  lemma ReachStep<T(!new)>(adj: (T, T) -> bool, x: T, y: T, z: T)
    requires Reach(adj, x, y) && adj(y, z)
    ensures Reach(adj, x, z)
  {
    var path :| IsWalk(adj, path) && path[0] == x && path[|path| - 1] == y;
    var longer := path + [z];
    forall k | 0 <= k < |longer| - 1
      ensures Step(adj, longer, k)
    {
      if k < |path| - 1 {
        assert Step(adj, path, k);
      }
    }
    assert IsWalk(adj, longer);
  }

  lemma ReachTrans<T(!new)>(adj: (T, T) -> bool, x: T, y: T, z: T)
    requires Reach(adj, x, y) && Reach(adj, y, z)
    ensures Reach(adj, x, z)
  {
    var p :| IsWalk(adj, p) && p[0] == x && p[|p| - 1] == y;
    var q :| IsWalk(adj, q) && q[0] == y && q[|q| - 1] == z;
    var joined := p + q[1..];
    forall k | 0 <= k < |joined| - 1
      ensures Step(adj, joined, k)
    {
      if k < |p| - 1 {
        assert Step(adj, p, k);
        assert joined[k] == p[k] && joined[k + 1] == p[k + 1];
      } else {
        assert Step(adj, q, k - |p| + 1);
        assert joined[k] == q[k - |p| + 1] && joined[k + 1] == q[k - |p| + 2];
      }
    }
    assert IsWalk(adj, joined);
  }

  function Reversed<T>(s: seq<T>): (r: seq<T>)
    ensures |r| == |s| && forall k :: 0 <= k < |s| ==> r[k] == s[|s| - 1 - k]
  {
    seq(|s|, k requires 0 <= k < |s| => s[|s| - 1 - k])
  }

  lemma ReachSym<T(!new)>(adj: (T, T) -> bool, x: T, y: T)
    requires Symmetric(adj) && Reach(adj, x, y)
    ensures Reach(adj, y, x)
  {
    var p :| IsWalk(adj, p) && p[0] == x && p[|p| - 1] == y;
    var r := Reversed(p);
    forall k | 0 <= k < |r| - 1
      ensures Step(adj, r, k)
    {
      assert Step(adj, p, |p| - 2 - k);
    }
    assert IsWalk(adj, r);
  }

  /** A node without neighbours reaches only itself. */
  lemma ReachFromIsolated<T(!new)>(adj: (T, T) -> bool, x: T, y: T)
    requires forall z :: !adj(x, z)
    requires Reach(adj, x, y)
    ensures y == x
  {
    var path :| IsWalk(adj, path) && path[0] == x && path[|path| - 1] == y;
    if |path| > 1 {
      FirstStep(adj, path);
      assert false;
    }
  }

  lemma FirstStep<T>(adj: (T, T) -> bool, path: seq<T>)
    requires IsWalk(adj, path) && |path| > 1
    ensures adj(path[0], path[1])
  {
    assert Step(adj, path, 0);
  }

  /** A node set closed under adjacency, on which `comp` is constant along
      edges, keeps walks inside it and `comp` constant along them. */
  lemma {:induction false} WalkStaysInComponent<T>(adj: (T, T) -> bool, comp: map<T, nat>, path: seq<T>)
    requires IsWalk(adj, path) && path[0] in comp
    requires forall x, y :: x in comp && adj(x, y) ==> y in comp && comp[y] == comp[x]
    ensures path[|path| - 1] in comp && comp[path[|path| - 1]] == comp[path[0]]
  {
    if |path| > 1 {
      var front := path[..|path| - 1];
      assert IsWalk(adj, front) by {
        forall k | 0 <= k < |front| - 1
          ensures Step(adj, front, k)
        {
          assert Step(adj, path, k);
        }
      }
      WalkStaysInComponent(adj, comp, front);
      assert Step(adj, path, |path| - 2);
    }
  }

  /** A walk that starts in S, under an adjacency whose steps out of S stay
      in S and are also steps of adj2, is a walk of adj2 lying inside S. */
  lemma {:induction false} WalkTransfer<T>(adj1: (T, T) -> bool, adj2: (T, T) -> bool, S: set<T>, path: seq<T>)
    requires IsWalk(adj1, path) && path[0] in S
    requires forall a, b :: a in S && adj1(a, b) ==> b in S && adj2(a, b)
    ensures IsWalk(adj2, path) && path[|path| - 1] in S
  {
    if |path| > 1 {
      var front := path[..|path| - 1];
      assert IsWalk(adj1, front) by {
        forall k | 0 <= k < |front| - 1
          ensures Step(adj1, front, k)
        {
          assert Step(adj1, path, k);
        }
      }
      WalkTransfer(adj1, adj2, S, front);
      assert Step(adj1, path, |path| - 2);
      forall k | 0 <= k < |path| - 1
        ensures Step(adj2, path, k)
      {
        if k < |path| - 2 {
          assert Step(adj2, front, k);
        }
      }
    }
  }

  lemma ReachTransfer<T(!new)>(adj1: (T, T) -> bool, adj2: (T, T) -> bool, S: set<T>, x: T, y: T)
    requires x in S && Reach(adj1, x, y)
    requires forall a, b :: a in S && adj1(a, b) ==> b in S && adj2(a, b)
    ensures Reach(adj2, x, y) && y in S
  {
    var path :| IsWalk(adj1, path) && path[0] == x && path[|path| - 1] == y;
    WalkTransfer(adj1, adj2, S, path);
  }

  /** Every node of `all` in the list. */
  ghost predicate Lists<T>(nodes: seq<T>, all: set<T>) {
    forall z :: z in all ==> exists t :: 0 <= t < |nodes| && nodes[t] == z
  }

  /** The flood fill from s is under way: R holds nodes reachable from s, and
      every node of R outside `open` has all its neighbours in R. */
  ghost predicate Fill<T(!new)>(adj: (T, T) -> bool, s: T, all: set<T>, R: set<T>, open: seq<T>) {
    && s in R && R <= all
    && (forall x :: x in R ==> Reach(adj, s, x))
    && (forall x :: x in open ==> x in R)
    && (forall x, y :: x in R && x !in open && adj(x, y) ==> y in R)
  }

  /** Adds to R, and opens, every neighbour of the open node x not yet in R;
      x is then closed. */
  method Expand<T(==,!new)>(nodes: seq<T>, adj: (T, T) -> bool, ghost all: set<T>, x: T, ghost s: T,
                            R0: set<T>, stack0: seq<T>)
    returns (R: set<T>, stack: seq<T>)
    requires forall a, b :: adj(a, b) ==> b in all
    requires Lists(nodes, all)
    requires Fill(adj, s, all, R0, stack0 + [x])
    ensures Fill(adj, s, all, R, stack)
    ensures R0 <= R
    ensures R == R0 ==> stack == stack0
  {
    R, stack := R0, stack0;
    assert x in stack0 + [x];
    for t := 0 to |nodes|
      invariant Fill(adj, s, all, R, stack + [x])
      invariant R0 <= R
      invariant R == R0 ==> stack == stack0
      invariant forall u :: 0 <= u < t && adj(x, nodes[u]) ==> nodes[u] in R
    {
      var y := nodes[t];
      if adj(x, y) && y !in R {
        ReachStep(adj, s, x, y);
        R := R + {y};
        stack := stack + [y];
      }
    }
    forall y | adj(x, y)
      ensures y in R
    {
      var u :| 0 <= u < |nodes| && nodes[u] == y;
    }
  }

  lemma SplitLast<T>(s: seq<T>)
    requires |s| > 0
    ensures s == s[..|s| - 1] + [s[|s| - 1]]
  {
  }

  /** Growing a subset of a finite set leaves fewer nodes outside it. */
  lemma Shrinks<T>(all: set<T>, before: set<T>, after: set<T>)
    requires before <= after <= all
    ensures |all - after| <= |all - before|
    ensures after != before ==> |all - after| < |all - before|
  {
    var gone := after - before;
    assert all - before == (all - after) + gone;
    assert (all - after) * gone == {};
  }

  /** Flood fill with a work stack: the nodes reachable from s, a set closed
      under adjacency. */
  method Flood<T(==,!new)>(nodes: seq<T>, adj: (T, T) -> bool, ghost all: set<T>, s: T) returns (R: set<T>)
    requires forall a, b :: adj(a, b) ==> b in all
    requires Lists(nodes, all) && s in all
    ensures s in R && R <= all
    ensures forall x :: x in R ==> Reach(adj, s, x)
    ensures forall x, y :: x in R && adj(x, y) ==> y in R
  {
    ReachRefl(adj, s);
    R := {s};
    var stack := [s];
    while stack != []
      invariant Fill(adj, s, all, R, stack)
      decreases |all - R|, |stack|
    {
      var x := stack[|stack| - 1];
      var rest := stack[..|stack| - 1];
      SplitLast(stack);
      ghost var before := R;
      R, stack := Expand(nodes, adj, all, x, s, R, rest);
      Shrinks(all, before, R);
    }
  }

  /** The state of the component search after the node indices below `done`:
      each labelled node carries a component number below `count`, component
      c was started at node index seeds[c] (seeds increase), every labelled
      node is reachable from its seed and no labelled node precedes its seed,
      and labels are closed under adjacency. */
  ghost predicate Partial<T(!new)>(nodes: seq<T>, adj: (T, T) -> bool, comp: map<T, nat>, count: nat,
                                   seeds: seq<nat>, done: nat) {
    && (forall x :: x in comp ==> comp[x] < count)
    && |seeds| == count
    && (forall c :: 0 <= c < count ==> seeds[c] < done && seeds[c] < |nodes| && nodes[seeds[c]] in comp && comp[nodes[seeds[c]]] == c)
    && (forall c, d :: 0 <= c < d < count ==> seeds[c] < seeds[d])
    && (forall x :: x in comp ==> Reach(adj, nodes[seeds[comp[x]]], x))
    && (forall t :: 0 <= t < |nodes| && nodes[t] in comp ==> seeds[comp[nodes[t]]] <= t)
    && (forall t :: 0 <= t < done && t < |nodes| ==> nodes[t] in comp)
    && (forall x, y :: x in comp && adj(x, y) ==> y in comp && comp[y] == comp[x])
  }

  /** A region reachable from an unlabelled node shares no node with the
      labelled ones. */
  lemma Disjoint<T(!new)>(adj: (T, T) -> bool, comp: map<T, nat>, s: T, R: set<T>)
    requires Symmetric(adj)
    requires forall x, y :: x in comp && adj(x, y) ==> y in comp && comp[y] == comp[x]
    requires s !in comp
    requires forall x :: x in R ==> Reach(adj, s, x)
    ensures forall x :: x in R ==> x !in comp
  {
    forall x | x in R
      ensures x !in comp
    {
      if x in comp {
        ReachSym(adj, s, x);
        var path :| IsWalk(adj, path) && path[0] == x && path[|path| - 1] == s;
        WalkStaysInComponent(adj, comp, path);
      }
    }
  }

  /** `comp` with every node of R labelled c. */
  function Paint<T>(comp: map<T, nat>, R: set<T>, c: nat): (r: map<T, nat>)
    ensures r.Keys == comp.Keys + R
    ensures forall x :: x in r ==> r[x] == if x in R then c else comp[x]
  {
    comp + map x | x in R :: c
  }

  /** Labelling the flood-filled region of node index s as component `count`
      extends the search state past s. */
  lemma AddComponent<T(!new)>(nodes: seq<T>, adj: (T, T) -> bool, comp: map<T, nat>, count: nat,
                              seeds: seq<nat>, s: nat, R: set<T>)
    requires Symmetric(adj)
    requires Partial(nodes, adj, comp, count, seeds, s)
    requires s < |nodes| && nodes[s] !in comp
    requires nodes[s] in R
    requires forall x :: x in R ==> Reach(adj, nodes[s], x)
    requires forall x, y :: x in R && adj(x, y) ==> y in R
    ensures Partial(nodes, adj, Paint(comp, R, count), count + 1, seeds + [s], s + 1)
  {
    Disjoint(adj, comp, nodes[s], R);
    var comp' := Paint(comp, R, count);
    var seeds' := seeds + [s];
    forall x | x in comp'
      ensures Reach(adj, nodes[seeds'[comp'[x]]], x)
    {
      if x !in R {
        assert x in comp;
      }
    }
    forall t | 0 <= t < |nodes| && nodes[t] in comp'
      ensures seeds'[comp'[nodes[t]]] <= t
    {
      if nodes[t] in R {
        assert nodes[t] !in comp;
      } else {
        assert nodes[t] in comp;
      }
    }
    forall t | 0 <= t < s + 1 && t < |nodes|
      ensures nodes[t] in comp'
    {
      if t < s {
        assert nodes[t] in comp;
      }
    }
    forall x, y | x in comp' && adj(x, y)
      ensures y in comp' && comp'[y] == comp'[x]
    {
      if x in R {
        assert y in R;
      } else {
        assert x in comp;
      }
    }
  }

  /** An already labelled node index is passed over. */
  lemma Skip<T(!new)>(nodes: seq<T>, adj: (T, T) -> bool, comp: map<T, nat>, count: nat, seeds: seq<nat>, s: nat)
    requires Partial(nodes, adj, comp, count, seeds, s)
    requires s < |nodes| && nodes[s] in comp
    ensures Partial(nodes, adj, comp, count, seeds, s + 1)
  {
  }

  /** What the finished search guarantees, read off its final state. */
  lemma SearchDone<T(!new)>(nodes: seq<T>, adj: (T, T) -> bool, comp: map<T, nat>, count: nat, seeds: seq<nat>)
    requires Symmetric(adj)
    requires Partial(nodes, adj, comp, count, seeds, |nodes|)
    ensures forall x, y :: x in comp && y in comp ==> (comp[x] == comp[y] <==> Reach(adj, x, y))
    ensures forall c :: 0 <= c < count ==> c in comp.Values
    ensures forall i, j :: 0 <= i < |nodes| && 0 <= j < |nodes| && comp[nodes[i]] < comp[nodes[j]] ==>
              exists k :: 0 <= k < j && comp[nodes[k]] == comp[nodes[i]]
  {
    forall x, y | x in comp && y in comp
      ensures comp[x] == comp[y] <==> Reach(adj, x, y)
    {
      if comp[x] == comp[y] {
        var seed := nodes[seeds[comp[x]]];
        ReachSym(adj, seed, x);
        ReachTrans(adj, x, seed, y);
      }
      if Reach(adj, x, y) {
        var path :| IsWalk(adj, path) && path[0] == x && path[|path| - 1] == y;
        WalkStaysInComponent(adj, comp, path);
      }
    }
    forall c | 0 <= c < count
      ensures c in comp.Values
    {
      assert comp[nodes[seeds[c]]] == c;
    }
    forall i, j | 0 <= i < |nodes| && 0 <= j < |nodes| && comp[nodes[i]] < comp[nodes[j]]
      ensures exists k :: 0 <= k < j && comp[nodes[k]] == comp[nodes[i]]
    {
      var k := seeds[comp[nodes[i]]];
      assert k < seeds[comp[nodes[j]]] <= j;
    }
  }

  /** The loop of the component search: node indices are visited in order
      and each node not yet labelled starts the next component. */
  method Search<T(==,!new)>(nodes: seq<T>, adj: (T, T) -> bool, ghost all: set<T>)
    returns (comp: map<T, nat>, count: nat, ghost seeds: seq<nat>)
    requires Symmetric(adj)
    requires forall a, b :: adj(a, b) ==> b in all
    requires Lists(nodes, all) && all == set z | z in nodes
    ensures Partial(nodes, adj, comp, count, seeds, |nodes|)
    ensures comp.Keys <= all
  {
    comp, count, seeds := map[], 0, [];
    for s := 0 to |nodes|
      invariant Partial(nodes, adj, comp, count, seeds, s)
      invariant comp.Keys <= all
    {
      if nodes[s] !in comp {
        var R := Flood(nodes, adj, all, nodes[s]);
        AddComponent(nodes, adj, comp, count, seeds, s, R);
        comp := Paint(comp, R, count);
        count := count + 1;
        seeds := seeds + [s];
      } else {
        Skip(nodes, adj, comp, count, seeds, s);
      }
    }
  }

  /** The component search.  Every node gets a component number; two nodes
      share one exactly when a walk joins them; the numbers are 0, 1, ...,
      count - 1, all used, in the order of each component's first node in
      `nodes`. */
  method Components<T(==,!new)>(nodes: seq<T>, adj: (T, T) -> bool) returns (comp: map<T, nat>, count: nat)
    requires Symmetric(adj)
    requires forall a, b :: adj(a, b) ==> a in nodes && b in nodes
    ensures forall x :: x in comp <==> x in nodes
    ensures forall k :: 0 <= k < |nodes| ==> nodes[k] in comp
    ensures forall x :: x in comp ==> comp[x] < count
    ensures forall c :: 0 <= c < count ==> c in comp.Values
    ensures forall x, y :: x in comp && y in comp ==> (comp[x] == comp[y] <==> Reach(adj, x, y))
    ensures forall i, j :: 0 <= i < |nodes| && 0 <= j < |nodes| && comp[nodes[i]] < comp[nodes[j]] ==>
              exists k :: 0 <= k < j && comp[nodes[k]] == comp[nodes[i]]
  {
    ghost var all := set z | z in nodes;
    assert Lists(nodes, all);
    ghost var seeds;
    comp, count, seeds := Search(nodes, adj, all);
    SearchDone(nodes, adj, comp, count, seeds);
    forall x | x in nodes
      ensures x in comp
    {
      var t :| 0 <= t < |nodes| && nodes[t] == x;
    }
  }
}
