/** Directed graphs over LDAP names, as adjacency lists: walks, cycles, and the search for a cycle. */
module Graphs {
  /** The name of an LDAP entry: under the account subtree or under the group subtree. */
  datatype DN = AccountDN(account: string) | GroupDN(group: string)

  type Graph = map<DN, seq<DN>>

  function Successors(g: Graph, x: DN): seq<DN> {
    if x in g then g[x] else []
  }

  ghost predicate Walk(g: Graph, p: seq<DN>) {
    p != [] && forall i :: 0 <= i < |p| - 1 ==> p[i+1] in Successors(g, p[i])
  }

  ghost predicate WalkFromTo(g: Graph, p: seq<DN>, a: DN, b: DN) {
    Walk(g, p) && p[0] == a && p[|p|-1] == b
  }

  ghost predicate Reaches(g: Graph, a: DN, b: DN) {
    exists p :: WalkFromTo(g, p, a, b)
  }

  ghost predicate OnCycle(g: Graph, x: DN) {
    exists p :: WalkFromTo(g, p, x, x) && |p| >= 2
  }

  /** Some cycle can be reached from `a`. */
  ghost predicate CycleFrom(g: Graph, a: DN) {
    exists x :: Reaches(g, a, x) && OnCycle(g, x)
  }

  ghost predicate Acyclic(g: Graph) {
    forall x :: !OnCycle(g, x)
  }

  // ---------------------------------------------------------------- walks

  lemma {:induction false} ReachesSelf(g: Graph, a: DN)
    ensures Reaches(g, a, a)
  {
    assert WalkFromTo(g, [a], a, a);
  }

  lemma {:induction false} JoinWalks(g: Graph, p: seq<DN>, q: seq<DN>, a: DN, b: DN, c: DN)
    requires WalkFromTo(g, p, a, b) && WalkFromTo(g, q, b, c)
    ensures WalkFromTo(g, p + q[1..], a, c) && |p + q[1..]| == |p| + |q| - 1
  {
    var r := p + q[1..];
    forall i | 0 <= i < |r| - 1 ensures r[i+1] in Successors(g, r[i]) {
      if i >= |p| - 1 { assert r[i] == q[i - |p| + 1] && r[i+1] == q[i - |p| + 2]; }
    }
  }

  lemma {:induction false} ReachesTransitive(g: Graph, a: DN, b: DN, c: DN)
    requires Reaches(g, a, b) && Reaches(g, b, c)
    ensures Reaches(g, a, c)
  {
    var p :| WalkFromTo(g, p, a, b);
    var q :| WalkFromTo(g, q, b, c);
    JoinWalks(g, p, q, a, b, c);
  }

  lemma {:induction false} EdgeWalk(g: Graph, a: DN, b: DN)
    requires b in Successors(g, a)
    ensures WalkFromTo(g, [a, b], a, b)
  {
  }

  lemma {:induction false} EdgeReaches(g: Graph, a: DN, b: DN)
    requires b in Successors(g, a)
    ensures Reaches(g, a, b)
  {
    EdgeWalk(g, a, b);
  }

  /** A part of a walk is a walk. */
  lemma {:induction false} SubWalk(g: Graph, p: seq<DN>, i: nat, j: nat)
    requires Walk(g, p) && i <= j < |p|
    ensures WalkFromTo(g, p[i..j+1], p[i], p[j])
  {
    var q := p[i..j+1];
    forall k | 0 <= k < |q| - 1 ensures q[k+1] in Successors(g, q[k]) {
      assert q[k] == p[i+k] && q[k+1] == p[i+k+1];
    }
  }

  /** What is reached is the start itself or is reached from one of its successors. */
  lemma {:induction false} ReachesBySuccessor(g: Graph, a: DN, b: DN)
    ensures Reaches(g, a, b) <==> a == b || exists s :: s in Successors(g, a) && Reaches(g, s, b)
  {
    if Reaches(g, a, b) && a != b {
      var p :| WalkFromTo(g, p, a, b);
      assert p[1] in Successors(g, p[0]);
      SubWalk(g, p, 1, |p| - 1);
      assert Reaches(g, p[1], b);
    }
    if a == b { ReachesSelf(g, a); }
    forall s | s in Successors(g, a) && Reaches(g, s, b) ensures Reaches(g, a, b) {
      EdgeReaches(g, a, s);
      ReachesTransitive(g, a, s, b);
    }
  }

  /** A cycle is reachable from a node exactly when one is reachable from a successor. */
  lemma {:induction false} CycleFromSuccessor(g: Graph, a: DN)
    ensures CycleFrom(g, a) <==> exists s :: s in Successors(g, a) && CycleFrom(g, s)
  {
    if CycleFrom(g, a) {
      var x :| Reaches(g, a, x) && OnCycle(g, x);
      ReachesBySuccessor(g, a, x);
      if a == x {
        var p :| WalkFromTo(g, p, a, a) && |p| >= 2;
        SubWalk(g, p, 1, |p| - 1);
        assert p[1] in Successors(g, p[0]) && Reaches(g, p[1], a);
        assert CycleFrom(g, p[1]);
      } else {
        var s :| s in Successors(g, a) && Reaches(g, s, x);
        assert CycleFrom(g, s);
      }
    }
    forall s | s in Successors(g, a) && CycleFrom(g, s) ensures CycleFrom(g, a) {
      var x :| Reaches(g, s, x) && OnCycle(g, x);
      EdgeReaches(g, a, s);
      ReachesTransitive(g, a, s, x);
    }
  }

  // ---------------------------------------------------------------- replacing the edges of one node

  /** A walk none of whose steps starts at `n` does not depend on the edges of `n`. */
  lemma {:induction false} WalkAvoiding(g: Graph, g': Graph, n: DN, p: seq<DN>)
    requires Walk(g', p) && forall i :: 0 <= i < |p| - 1 ==> p[i] != n
    requires forall x :: x != n ==> Successors(g, x) == Successors(g', x)
    ensures Walk(g, p)
  {
  }

  /**
   In an acyclic graph, giving one node new edges keeps it acyclic exactly when no cycle is
   reachable from that node afterwards.
   */
  lemma {:induction false} ReplacingEdges(g: Graph, n: DN, targets: seq<DN>)
    requires Acyclic(g)
    ensures Acyclic(g[n := targets]) <==> !CycleFrom(g[n := targets], n)
  {
    var g' := g[n := targets];
    if CycleFrom(g', n) {
      var x :| Reaches(g', n, x) && OnCycle(g', x);
    } else {
      forall x ensures !OnCycle(g', x) {
        if OnCycle(g', x) {
          var p :| WalkFromTo(g', p, x, x) && |p| >= 2;
          if i :| 0 <= i < |p| - 1 && p[i] == n {
            SubWalk(g', p, i, |p| - 1);
            assert false;
          } else {
            WalkAvoiding(g, g', n, p);
            assert OnCycle(g, x);
          }
        }
      }
    }
  }

  /** A cycle needs only the edges between nodes on cycles. */
  lemma {:induction false} CycleCarries(g: Graph, g': Graph, x: DN)
    requires OnCycle(g', x)
    requires forall x, y :: y in Successors(g', x) && OnCycle(g', y) ==> y in Successors(g, x)
    ensures OnCycle(g, x)
  {
    var p :| WalkFromTo(g', p, x, x) && |p| >= 2;
    forall i | 0 <= i < |p| - 1 ensures p[i+1] in Successors(g, p[i]) {
      OnCycleThroughout(g', p, x, i + 1);
      assert p[i+1] in Successors(g', p[i]);
    }
    assert WalkFromTo(g, p, x, x);
  }

  /** Every node of a closed walk is on a cycle. */
  lemma {:induction false} OnCycleThroughout(g: Graph, p: seq<DN>, x: DN, i: nat)
    requires WalkFromTo(g, p, x, x) && 2 <= |p| && i < |p|
    ensures OnCycle(g, p[i])
  {
    if 0 < i < |p| - 1 {
      SubWalk(g, p, i, |p| - 1);
      SubWalk(g, p, 0, i);
      assert p[i..|p|-1+1] == p[i..] && p[0..i+1] == p[..i+1];
      JoinWalks(g, p[i..], p[..i+1], p[i], x, p[i]);
    }
  }

  /** Fewer edges, fewer cycles. */
  lemma {:induction false} SubgraphAcyclic(g: Graph, g': Graph)
    requires Acyclic(g)
    requires forall x, y :: y in Successors(g', x) ==> y in Successors(g, x)
    ensures Acyclic(g')
  {
    forall x ensures OnCycle(g', x) ==> OnCycle(g, x) {
      if OnCycle(g', x) { CycleCarries(g, g', x); }
    }
  }

  // ---------------------------------------------------------------- the search

  function Elements(s: seq<DN>): set<DN> { set x | x in s }

  /** Every node that has edges or is the end of one. */
  function Nodes(g: Graph): set<DN> {
    g.Keys + set x, y | x in g && y in g[x] :: y
  }

  /**
   Depth-first visit of `u`. `onPath` are the nodes of the current path, `cleared` nodes from
   which no cycle can be reached. The search ends because every call puts a node more on the path.
   */
  method Visit(g: Graph, u: DN, ghost path: seq<DN>, onPath: set<DN>, cleared: set<DN>)
    returns (found: bool, cleared': set<DN>)
    requires u in Nodes(g) && u !in onPath
    requires Walk(g, path + [u]) && onPath == Elements(path)
    requires forall x :: x in cleared ==> !CycleFrom(g, x)
    ensures found ==> CycleFrom(g, u)
    ensures !found ==> u in cleared'
    ensures forall x :: x in cleared' ==> !CycleFrom(g, x)
    decreases Nodes(g) - onPath
  {
    cleared' := cleared;
    var children := Successors(g, u);
    for i := 0 to |children|
      invariant forall x :: x in cleared' ==> !CycleFrom(g, x)
      invariant forall j :: 0 <= j < i ==> !CycleFrom(g, children[j])
    {
      var v := children[i];
      found := false;
      assert v in Nodes(g) by { assert u in g && v in g[u]; }
      if v == u || v in onPath {
        BackEdge(g, path, u, v);
        return true, cleared';
      } else if v !in cleared' {
        assert Walk(g, path + [u] + [v]);
        assert Elements(path + [u]) == onPath + {u};
        found, cleared' := Visit(g, v, path + [u], onPath + {u}, cleared');
      }
      if found {
        CycleFromSuccessor(g, u);
        return true, cleared';
      }
    }
    CycleFromSuccessor(g, u);
    found, cleared' := false, cleared' + {u};
  }

  /** An edge back to the current path closes a cycle. */
  lemma {:induction false} BackEdge(g: Graph, path: seq<DN>, u: DN, v: DN)
    requires Walk(g, path + [u]) && v in Successors(g, u) && (v == u || v in path)
    ensures CycleFrom(g, u)
  {
    var p := path + [u];
    var i: nat;
    if v == u { i := |path|; } else { i :| 0 <= i < |path| && path[i] == v; }
    assert p[i] == v;
    SubWalk(g, p, i, |p| - 1);
    EdgeWalk(g, u, v);
    JoinWalks(g, p[i..], [u, v], v, u, v) by { assert p[i..|p|] == p[i..]; }
    assert OnCycle(g, v);
    EdgeReaches(g, u, v);
  }

  /** Stands for InspectCollection.containsCircularReference: true exactly when a cycle is reachable from `start`. */
  method ContainsCircularReference(start: DN, g: Graph) returns (found: bool)
    ensures found <==> CycleFrom(g, start)
  {
    if start !in g {
      CycleFromSuccessor(g, start);
      return false;
    }
    var cleared;
    found, cleared := Visit(g, start, [], {}, {});
  }
}
