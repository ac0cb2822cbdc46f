/** Reachability over the undirected road network. */
module Connectivity {
  import opened Board

  /** p walks along existing edges, in either direction. */
  ghost predicate IsPath(edges: seq<Edge>, p: seq<nat>) {
    |p| > 0 && forall i :: 0 <= i < |p| - 1 ==> EdgeExists(edges, p[i], p[i + 1])
  }

  ghost predicate Reachable(edges: seq<Edge>, u: nat, v: nat) {
    exists p :: IsPath(edges, p) && p[0] == u && p[|p| - 1] == v
  }

  /** Every node index below n is reachable from node 0. */
  ghost predicate Connected(n: nat, edges: seq<Edge>) {
    forall v :: 0 <= v < n ==> Reachable(edges, 0, v)
  }

  lemma ReachableRefl(edges: seq<Edge>, u: nat)
    ensures Reachable(edges, u, u)
  {
    assert IsPath(edges, [u]);
  }

  lemma EdgeExistsSymmetric(edges: seq<Edge>, u: nat, v: nat)
    ensures EdgeExists(edges, u, v) == EdgeExists(edges, v, u)
  {
    if EdgeExists(edges, u, v) {
      var k :| 0 <= k < |edges| && Joins(edges[k], u, v);
      assert Joins(edges[k], v, u);
    }
    if EdgeExists(edges, v, u) {
      var k :| 0 <= k < |edges| && Joins(edges[k], v, u);
      assert Joins(edges[k], u, v);
    }
  }

  /** Appending edges never removes a link. */
  lemma EdgeExistsGrows(edges: seq<Edge>, more: seq<Edge>, u: nat, v: nat)
    requires EdgeExists(edges, u, v)
    ensures EdgeExists(edges + more, u, v)
  {
    var k :| 0 <= k < |edges| && Joins(edges[k], u, v);
    assert (edges + more)[k] == edges[k];
  }

  /** Appending edges never removes a path. */
  lemma ReachableGrows(edges: seq<Edge>, more: seq<Edge>, u: nat, v: nat)
    requires Reachable(edges, u, v)
    ensures Reachable(edges + more, u, v)
  {
    var p :| IsPath(edges, p) && p[0] == u && p[|p| - 1] == v;
    forall i | 0 <= i < |p| - 1
      ensures EdgeExists(edges + more, p[i], p[i + 1])
    {
      EdgeExistsGrows(edges, more, p[i], p[i + 1]);
    }
    assert IsPath(edges + more, p);
  }

  /** A path to a extends along an edge a-b to a path to b. */
  lemma ReachableStep(edges: seq<Edge>, u: nat, a: nat, b: nat)
    requires Reachable(edges, u, a) && EdgeExists(edges, a, b)
    ensures Reachable(edges, u, b)
  {
    var p :| IsPath(edges, p) && p[0] == u && p[|p| - 1] == a;
    var q := p + [b];
    forall i | 0 <= i < |q| - 1
      ensures EdgeExists(edges, q[i], q[i + 1])
    {
      if i < |p| - 1 {
        assert q[i] == p[i] && q[i + 1] == p[i + 1];
      }
    }
    assert IsPath(edges, q);
  }

  /** Roads are undirected: a path can be walked backwards. */
  lemma {:induction false} ReachableSymmetric(edges: seq<Edge>, u: nat, v: nat)
    requires Reachable(edges, u, v)
    ensures Reachable(edges, v, u)
  {
    var p :| IsPath(edges, p) && p[0] == u && p[|p| - 1] == v;
    var r := seq(|p|, i requires 0 <= i < |p| => p[|p| - 1 - i]);
    forall i | 0 <= i < |r| - 1
      ensures EdgeExists(edges, r[i], r[i + 1])
    {
      var j := |p| - 2 - i;
      assert r[i] == p[j + 1] && r[i + 1] == p[j];
      EdgeExistsSymmetric(edges, p[j], p[j + 1]);
    }
    assert IsPath(edges, r);
  }

  /** Reachability is transitive: two paths that meet concatenate. */
  lemma ReachableTrans(edges: seq<Edge>, u: nat, v: nat, w: nat)
    requires Reachable(edges, u, v) && Reachable(edges, v, w)
    ensures Reachable(edges, u, w)
  {
    var p :| IsPath(edges, p) && p[0] == u && p[|p| - 1] == v;
    var q :| IsPath(edges, q) && q[0] == v && q[|q| - 1] == w;
    var r := p + q[1..];
    forall i | 0 <= i < |r| - 1
      ensures EdgeExists(edges, r[i], r[i + 1])
    {
      if i < |p| - 1 {
        assert r[i] == p[i] && r[i + 1] == p[i + 1];
      } else {
        var j := i - (|p| - 1);
        assert r[i] == q[j] && r[i + 1] == q[j + 1];
      }
    }
    assert IsPath(edges, r);
  }

  /** Appending edges keeps a connected graph connected. */
  lemma ConnectedGrows(n: nat, edges: seq<Edge>, more: seq<Edge>)
    requires Connected(n, edges)
    ensures Connected(n, edges + more)
  {
    forall v | 0 <= v < n
      ensures Reachable(edges + more, 0, v)
    {
      ReachableGrows(edges, more, 0, v);
    }
  }

  /** Connected from node 0 means every pair of nodes is linked by a path. */
  lemma ConnectedAllPairs(n: nat, edges: seq<Edge>, u: nat, v: nat)
    requires Connected(n, edges) && u < n && v < n
    ensures Reachable(edges, u, v)
  {
    ReachableSymmetric(edges, 0, u);
    ReachableTrans(edges, u, 0, v);
  }
}
