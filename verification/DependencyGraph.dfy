/** The dependency checks of the work-item validator (`docs/rust-port/validate.py`): a depth-first
    cycle check over all items, and the set of an item's transitive dependencies. */
module DependencyGraph {
  type Id = string
  type Graph = map<Id, seq<Id>>

  /** Every dependency is itself an item; the validator rejects dangling ones first. */
  predicate Closed(g: Graph) {
    forall n :: n in g ==> forall d :: d in g[n] ==> d in g
  }

  // ---------- Reachability ----------

  ghost predicate IsPath(g: Graph, p: seq<Id>) {
    && p != [] && (forall i :: 0 <= i < |p| ==> p[i] in g)
    && (forall i :: 0 <= i < |p| - 1 ==> p[i + 1] in g[p[i]])
  }

  /** `p` leads from `a` to `b` along one dependency or more. */
  ghost predicate Leads(g: Graph, p: seq<Id>, a: Id, b: Id) {
    IsPath(g, p) && |p| >= 2 && p[0] == a && p[|p| - 1] == b
  }

  ghost predicate DependsOn(g: Graph, a: Id, b: Id) {
    exists p :: Leads(g, p, a, b)
  }

  ghost predicate Acyclic(g: Graph) {
    forall n :: n in g ==> !DependsOn(g, n, n)
  }

  /** `s` contains what its members depend on. */
  ghost predicate Complete(g: Graph, s: set<Id>) {
    forall n :: n in s ==> n in g && forall d :: d in g[n] ==> d in s
  }

  lemma {:induction false} PathStays(g: Graph, s: set<Id>, p: seq<Id>)
    requires Complete(g, s) && IsPath(g, p) && p[0] in s
    ensures p[|p| - 1] in s
    decreases |p|
  {
    if |p| > 1 {
      assert p[0 + 1] in g[p[0]];
      PathStays(g, s, p[1..]);
    }
  }

  lemma EdgeLeads(g: Graph, a: Id, b: Id)
    requires Closed(g) && a in g && b in g[a]
    ensures DependsOn(g, a, b)
  {
    assert Leads(g, [a, b], a, b);
  }

  lemma StepLeads(g: Graph, a: Id, b: Id, c: Id)
    requires Closed(g) && DependsOn(g, a, b) && c in g[b]
    ensures DependsOn(g, a, c)
  {
    var p :| Leads(g, p, a, b);
    assert Leads(g, p + [c], a, c);
  }

  /** If `s` is complete and holds the direct dependencies of `a`, it holds all of them. */
  lemma DependenciesWithin(g: Graph, s: set<Id>, a: Id, b: Id)
    requires Complete(g, s) && a in g && (forall d :: d in g[a] ==> d in s) && DependsOn(g, a, b)
    ensures b in s
  {
    var p :| Leads(g, p, a, b);
    assert p[0 + 1] in g[p[0]];
    PathStays(g, s, p[1..]);
  }

  // ---------- Cycle check ----------

  /** What finished items satisfy: they are complete and lie on no cycle. */
  ghost predicate Finished(g: Graph, done: set<Id>) {
    Complete(g, done) && forall n :: n in done ==> !DependsOn(g, n, n)
  }

  /** The active items are those on the path the search came by. */
  ghost predicate OnTrail(g: Graph, trail: seq<Id>, node: Id, active: set<Id>) {
    IsPath(g, trail + [node]) && active == set n | n in trail
  }

  lemma TrailCloses(g: Graph, trail: seq<Id>, node: Id)
    requires IsPath(g, trail + [node]) && node in trail
    ensures DependsOn(g, node, node)
  {
    var k :| 0 <= k < |trail| && trail[k] == node;
    var all := trail + [node];
    var p := all[k..];
    forall i | 0 <= i < |p| - 1 ensures p[i + 1] in g[p[i]] {
      assert all[k + i + 1] in g[all[k + i]];
    }
    assert Leads(g, p, node, node);
  }

  lemma TrailExtends(g: Graph, trail: seq<Id>, node: Id, dep: Id)
    requires Closed(g) && IsPath(g, trail + [node]) && node in g && dep in g[node]
    ensures IsPath(g, trail + [node] + [dep])
  {
    var all, longer := trail + [node], trail + [node] + [dep];
    assert forall i :: 0 <= i < |all| ==> longer[i] == all[i];
    forall i | 0 <= i < |longer| - 1 ensures longer[i + 1] in g[longer[i]] {
      if i < |all| - 1 { assert all[i + 1] in g[all[i]]; }
    }
  }

  lemma FinishNode(g: Graph, done: set<Id>, node: Id)
    requires Finished(g, done) && node in g && node !in done && (forall d :: d in g[node] ==> d in done)
    ensures Finished(g, done + {node})
  {
    if DependsOn(g, node, node) {
      DependenciesWithin(g, done, node, node);
    }
  }

  /** The two sets the search updates. */
  class Search {
    var active: set<Id>
    var done: set<Id>

    constructor ()
      ensures active == {} && done == {}
    {
      active, done := {}, {};
    }

    /** `ok` is false where the validator stops with a dependency cycle. `trail` is the path by
        which the search came to `node`. */
    method Visit(g: Graph, node: Id, ghost trail: seq<Id>) returns (ok: bool)
      requires Closed(g) && node in g && active <= g.Keys
      requires OnTrail(g, trail, node, active) && Finished(g, done) && active !! done
      modifies this
      ensures ok ==> active == old(active) && Finished(g, done)
      ensures ok ==> old(done) + {node} <= done && (done - old(done)) !! active
      ensures !ok ==> exists n :: n in g && DependsOn(g, n, n)
      decreases g.Keys - active, 1
    {
      if node in active {
        TrailCloses(g, trail, node);
        return false;
      }
      if node in done { return true; }
      active := active + {node};
      ghost var longer := trail + [node];
      assert active == set n | n in longer;
      ok := VisitAll(g, node, trail);
      if !ok { return; }
      FinishNode(g, done, node);
      active := active - {node};
      done := done + {node};
    }

    /** The loop over the dependencies of an active node. */
    method VisitAll(g: Graph, node: Id, ghost trail: seq<Id>) returns (ok: bool)
      requires Closed(g) && node in g && active <= g.Keys && node in active
      requires IsPath(g, trail + [node]) && active == (set n | n in trail + [node])
      requires Finished(g, done) && active !! done
      modifies this
      ensures ok ==> active == old(active) && Finished(g, done) && active !! done
      ensures ok ==> old(done) <= done && forall d :: d in g[node] ==> d in done
      ensures !ok ==> exists n :: n in g && DependsOn(g, n, n)
      decreases g.Keys - active, 2
    {
      var next := 0;
      while next < |g[node]|
        invariant 0 <= next <= |g[node]|
        invariant active == old(active) && Finished(g, done) && active !! done && old(done) <= done
        invariant forall i :: 0 <= i < next ==> g[node][i] in done
      {
        var dep := g[node][next];
        TrailExtends(g, trail, node, dep);
        ok := Visit(g, dep, trail + [node]);
        if !ok { return; }
        next := next + 1;
      }
      return true;
    }
  }

  /** The driver: every item in any order, one shared `done` set, a new `active` set each time.
      It finishes exactly on acyclic graphs, with every item done. */
  method CheckAcyclic(g: Graph, ids: seq<Id>) returns (ok: bool, done: set<Id>)
    requires Closed(g) && (set n | n in ids) == g.Keys
    ensures ok <==> Acyclic(g)
    ensures ok ==> done == g.Keys
  {
    var search := new Search();
    var next := 0;
    while next < |ids|
      invariant 0 <= next <= |ids|
      invariant Finished(g, search.done) && search.done <= g.Keys
      invariant forall i :: 0 <= i < next ==> ids[i] in search.done
    {
      assert ids[next] in set n | n in ids;
      search.active := {};
      ok := search.Visit(g, ids[next], []);
      if !ok { return false, {}; }
      next := next + 1;
    }
    assert forall n :: n in g ==> n in set m | m in ids;
    return true, search.done;
  }

  // ---------- Transitive dependencies ----------

  /** `ancestors`: exactly what the item depends on, itself included if it lies on a cycle. */
  method Ancestors(g: Graph, node: Id) returns (result: set<Id>)
    requires Closed(g) && node in g
    ensures forall n :: n in result <==> DependsOn(g, node, n)
  {
    result := {};
    var stack := g[node];
    forall d | d in stack ensures d in g && DependsOn(g, node, d) { EdgeLeads(g, node, d); }
    while stack != []
      invariant result <= g.Keys
      invariant forall d :: d in stack ==> d in g && DependsOn(g, node, d)
      invariant forall n :: n in result ==> DependsOn(g, node, n)
      invariant forall d :: d in g[node] ==> d in result || d in stack
      invariant forall n :: n in result ==> forall d :: d in g[n] ==> d in result || d in stack
      decreases g.Keys - result, |stack|
    {
      var current := stack[|stack| - 1];
      ghost var before := stack;
      stack := stack[..|stack| - 1];
      assert before == stack + [current];
      assert forall d :: d in before <==> d in stack || d == current;
      if current !in result {
        result := result + {current};
        forall d | d in g[current] ensures DependsOn(g, node, d) { StepLeads(g, node, current, d); }
        stack := stack + g[current];
      }
    }
    assert Complete(g, result);
    forall n | DependsOn(g, node, n) ensures n in result {
      DependenciesWithin(g, result, node, n);
    }
  }
}
