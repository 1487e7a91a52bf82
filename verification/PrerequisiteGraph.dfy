/** The prerequisite relation between features as a directed graph: an edge runs from a
    feature to each feature it names as a prerequisite. Nothing here is about Go; it is the
    vocabulary in which the sort and the request checks are specified. */
module PrerequisiteGraph {

  type Graph = map<string, seq<string>>

  ghost predicate Edge(g: Graph, a: string, b: string) {
    a in g && b in g[a]
  }

  ghost predicate IsPath(g: Graph, p: seq<string>) {
    forall i :: 0 <= i < |p| - 1 ==> Edge(g, p[i], p[i + 1])
  }

  ghost predicate IsCycle(g: Graph, p: seq<string>) {
    |p| > 1 && IsPath(g, p) && p[0] == p[|p| - 1]
  }

  ghost predicate HasCycle(g: Graph) {
    exists p :: IsCycle(g, p)
  }

  /** Every prerequisite is itself a feature of the graph. */
  ghost predicate Closed(g: Graph) {
    forall a, b :: Edge(g, a, b) ==> b in g
  }

  ghost predicate Subgraph(g: Graph, h: Graph) {
    forall a, b :: Edge(g, a, b) ==> Edge(h, a, b)
  }

  /** Every feature of `s` comes after all its prerequisites. */
  ghost predicate UpstreamFirst(g: Graph, s: seq<string>) {
    forall i :: 0 <= i < |s| ==> s[i] in g && forall b :: b in g[s[i]] ==> b in s[..i]
  }

  /** Removing edges never creates a cycle, and never opens a closed graph over the same nodes. */
  lemma CycleInSubgraph(g: Graph, h: Graph)
    requires Subgraph(g, h)
    ensures HasCycle(g) ==> HasCycle(h)
    ensures h.Keys <= g.Keys && Closed(h) ==> Closed(g)
  {
    if HasCycle(g) {
      var p :| IsCycle(g, p);
      assert IsCycle(h, p);
    }
  }

  lemma CycleHasEdge(g: Graph)
    requires HasCycle(g)
    ensures exists a, b :: Edge(g, a, b)
  {
    var p :| IsCycle(g, p);
    assert Edge(g, p[0], p[1]);
  }

  lemma SelfEdgeIsCycle(g: Graph, a: string)
    requires Edge(g, a, a)
    ensures HasCycle(g)
  {
    assert IsCycle(g, [a, a]);
  }

  /** The first position of `x`, the rank that decreases along every edge of an ordered listing. */
  ghost function FirstIndex(s: seq<string>, x: string): (i: nat)
    requires x in s
    ensures i < |s| && s[i] == x && x !in s[..i]
  {
    if s[0] == x then 0 else
      var k := FirstIndex(s[1..], x);
      assert s[..k + 1] == [s[0]] + s[1..][..k];
      k + 1
  }

  lemma FirstIndexIsFirst(s: seq<string>, x: string, j: nat)
    requires j < |s| && s[j] == x
    ensures FirstIndex(s, x) <= j
  {
    if s[0] != x {
      FirstIndexIsFirst(s[1..], x, j - 1);
    }
  }

  lemma RankDecreases(g: Graph, s: seq<string>, a: string, b: string)
    requires UpstreamFirst(g, s) && a in s && Edge(g, a, b)
    ensures b in s && FirstIndex(s, b) < FirstIndex(s, a)
  {
  }

  lemma {:induction false} RankAlongPath(g: Graph, s: seq<string>, p: seq<string>, k: nat)
    requires UpstreamFirst(g, s) && IsPath(g, p) && k < |p| && p[0] in s
    ensures p[k] in s && FirstIndex(s, p[k]) + k <= FirstIndex(s, p[0])
  {
    if k > 0 {
      RankAlongPath(g, s, p, k - 1);
      assert Edge(g, p[k - 1], p[k]);
      RankDecreases(g, s, p[k - 1], p[k]);
    }
  }

  /** A complete upstream-first listing exists only of a closed graph without cycles. */
  lemma OrderedIsAcyclic(g: Graph, s: seq<string>)
    requires UpstreamFirst(g, s) && forall a :: a in g ==> a in s
    ensures Closed(g) && !HasCycle(g)
  {
    forall a, b | Edge(g, a, b) ensures b in g {
      RankDecreases(g, s, a, b);
      assert s[FirstIndex(s, b)] in g;
    }
    if p :| IsCycle(g, p) {
      assert Edge(g, p[0], p[1]);
      RankAlongPath(g, s, p, |p| - 1);
      assert false;
    }
  }

  /** A path whose last node points back into the path closes a cycle. */
  lemma BackEdgeIsCycle(g: Graph, stack: seq<string>, b: string)
    requires |stack| > 0 && IsPath(g, stack) && Edge(g, stack[|stack| - 1], b) && b in stack
    ensures HasCycle(g)
  {
    var i :| 0 <= i < |stack| && stack[i] == b;
    var p := stack[i..] + [b];
    forall k | 0 <= k < |p| - 1 ensures Edge(g, p[k], p[k + 1]) {
      if k < |p| - 2 {
        assert Edge(g, stack[i + k], stack[i + k + 1]);
      }
    }
    assert IsCycle(g, p);
  }

  ghost predicate PathBetween(g: Graph, p: seq<string>, a: string, b: string) {
    |p| > 0 && IsPath(g, p) && p[0] == a && p[|p| - 1] == b
  }

  ghost predicate Reaches(g: Graph, a: string, b: string) {
    exists p :: PathBetween(g, p, a, b)
  }

  /** The graphs have the same edges out of all features but `id`. */
  ghost predicate AgreeBut(g: Graph, h: Graph, id: string) {
    forall a, b :: a != id ==> (Edge(g, a, b) <==> Edge(h, a, b))
  }

  /** A path to `id`, cut at its first visit of `id`, does not use the edges of `id`. */
  lemma CutAtFirstVisit(g: Graph, h: Graph, p: seq<string>, a: string, id: string) returns (q: seq<string>)
    requires AgreeBut(g, h, id) && PathBetween(g, p, a, id)
    ensures PathBetween(g, q, a, id) && PathBetween(h, q, a, id)
  {
    var i := FirstIndex(p, id);
    q := p[..i + 1];
    forall k | 0 <= k < |q| - 1 ensures Edge(g, q[k], q[k + 1]) && Edge(h, q[k], q[k + 1]) {
      assert Edge(g, p[k], p[k + 1]) && p[k] in p[..i];
    }
  }

  lemma CloseCycle(g: Graph, id: string, t: string, q: seq<string>)
    requires Edge(g, id, t) && PathBetween(g, q, t, id)
    ensures HasCycle(g)
  {
    var c := [id] + q;
    forall k | 0 <= k < |c| - 1 ensures Edge(g, c[k], c[k + 1]) {
      assert k > 0 ==> Edge(g, q[k - 1], q[k]);
    }
    assert IsCycle(g, c);
  }

  lemma EdgeBack(g: Graph, id: string, t: string)
    requires Edge(g, id, t) && Reaches(g, t, id)
    ensures HasCycle(g)
  {
    var q :| PathBetween(g, q, t, id);
    CloseCycle(g, id, t, q);
  }

  /** From a feature on a cycle, one edge leads to a feature from which the cycle comes back. */
  lemma AroundCycle(g: Graph, c: seq<string>, i: nat) returns (p: seq<string>)
    requires IsCycle(g, c) && i < |c| - 1
    ensures PathBetween(g, p, c[i + 1], c[i])
  {
    p := c[i + 1..] + c[1..i + 1];
    var n := |c| - (i + 1);
    forall k | 0 <= k < |p| - 1 ensures Edge(g, p[k], p[k + 1]) {
      if k < n - 1 {
        assert Edge(g, c[i + 1 + k], c[i + 2 + k]);
      } else {
        assert Edge(g, c[k - n + 1], c[k - n + 2]);
        assert p[k] == c[k - n + 1] && p[k + 1] == c[k - n + 2];
      }
    }
  }

  /** Giving `id` other edges in an acyclic graph creates a cycle exactly when one of its targets then
      already reaches it. */
  lemma NewEdgesCloseCycle(g: Graph, id: string, ts: seq<string>)
    requires !HasCycle(g)
    ensures HasCycle(g[id := ts]) <==> exists t :: t in ts && Reaches(g, t, id)
  {
    var h := g[id := ts];
    assert AgreeBut(g, h, id) && AgreeBut(h, g, id);
    if t :| t in ts && Reaches(g, t, id) {
      var p :| PathBetween(g, p, t, id);
      var q := CutAtFirstVisit(g, h, p, t, id);
      CloseCycle(h, id, t, q);
    }
    if HasCycle(h) {
      var c :| IsCycle(h, c);
      if forall i :: 0 <= i < |c| - 1 ==> c[i] != id {
        forall i | 0 <= i < |c| - 1 ensures Edge(g, c[i], c[i + 1]) {
          assert Edge(h, c[i], c[i + 1]);
        }
        assert IsCycle(g, c);
        assert false;
      } else {
        var i :| 0 <= i < |c| - 1 && c[i] == id;
        var t := c[i + 1];
        assert Edge(h, c[i], c[i + 1]);
        var p := AroundCycle(h, c, i);
        var q := CutAtFirstVisit(h, g, p, t, id);
        assert Reaches(g, t, id);
      }
    }
  }
}
