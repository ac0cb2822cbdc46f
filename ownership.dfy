/** Balanced ownership: the node at shuffled position i goes to player
    i % players, so per-player counts differ by at most one whatever the
    shuffle was. */
module Ownership {
  import opened Arithmetic
  import opened Board

  /** `perm` lists each index below n exactly once: the order that the
      shuffling sort produced. */
  predicate IsPermutation(perm: seq<nat>, n: nat) {
    |perm| == n &&
    (forall i :: 0 <= i < n ==> perm[i] < n) &&
    (forall i, j :: 0 <= i < j < n ==> perm[i] != perm[j])
  }

  function Range(n: nat): (r: set<nat>)
    ensures forall i: nat :: i in r <==> i < n
  {
    if n == 0 then {} else Range(n - 1) + {n - 1}
  }

  /** The positions below n that fall to player p. */
  function Residue(n: nat, players: nat, p: nat): set<nat>
    requires players > 0
  {
    set i: nat | i < n && i % players == p
  }

  function Image(perm: seq<nat>, s: set<nat>): set<nat> {
    set i | i in s && i < |perm| :: perm[i]
  }

  function OwnedBy(nodes: seq<Node>, p: nat): set<nat> {
    set k: nat | k < |nodes| && nodes[k].owner == Player(p)
  }

  function OwnerCount(nodes: seq<Node>, p: nat): nat {
    |OwnedBy(nodes, p)|
  }

  /** Every node has an owner below `players`, and no player owns more than
      one node more than any other. */
  ghost predicate Balanced(nodes: seq<Node>, players: nat) {
    (forall k :: 0 <= k < |nodes| ==> nodes[k].owner.Player? && nodes[k].owner.id < players) &&
    (forall p, q :: 0 <= p < players && 0 <= q < players ==> OwnerCount(nodes, p) <= OwnerCount(nodes, q) + 1)
  }

  lemma {:induction false} RangeSize(n: nat)
    ensures |Range(n)| == n
  {
    if n > 0 {
      RangeSize(n - 1);
    }
  }

  /** A permutation maps a set of positions onto a set of the same size. */
  lemma {:induction false} ImageSize(perm: seq<nat>, n: nat, s: set<nat>)
    requires IsPermutation(perm, n) && forall i :: i in s ==> i < n
    ensures |Image(perm, s)| == |s|
    decreases s
  {
    if s != {} {
      var x :| x in s;
      ImageSize(perm, n, s - {x});
      assert Image(perm, s) == Image(perm, s - {x}) + {perm[x]};
      assert perm[x] !in Image(perm, s - {x});
    }
  }

  /** Every index below n occurs in a permutation of length n. */
  lemma PermutationOnto(perm: seq<nat>, n: nat, v: nat)
    requires IsPermutation(perm, n) && v < n
    ensures exists i :: 0 <= i < n && perm[i] == v
  {
    var img := Image(perm, Range(n));
    RangeSize(n);
    ImageSize(perm, n, Range(n));
    if v !in img {
      SubsetSize(img, Range(n) - {v});
    }
  }

  lemma {:induction false} SubsetSize(a: set<nat>, b: set<nat>)
    requires a <= b
    ensures |a| <= |b|
    decreases a
  {
    if a != {} {
      var x :| x in a;
      SubsetSize(a - {x}, b - {x});
    }
  }

  /** Exactly n / players positions below n fall to player p, plus one for
      the first n % players players. */
  lemma {:induction false} ResidueSize(n: nat, players: nat, p: nat)
    requires 0 <= p < players
    ensures |Residue(n, players, p)| == n / players + (if p < n % players then 1 else 0)
  {
    if n > 0 {
      var m := n - 1;
      ResidueSize(m, players, p);
      DivModStep(m, players);
      if m % players == p {
        assert Residue(n, players, p) == Residue(m, players, p) + {m};
      } else {
        assert Residue(n, players, p) == Residue(m, players, p);
      }
    }
  }

  /** `assignOwnership` for any shuffle: the owners it writes give every node
      an owner in 0..players-1 and counts that differ by at most one. */
  lemma BalancedAssignment(nodes: seq<Node>, perm: seq<nat>, players: nat)
    requires players > 0 && IsPermutation(perm, |nodes|)
    requires forall i :: 0 <= i < |nodes| ==> nodes[perm[i]].owner == Player(i % players)
    ensures forall p :: 0 <= p < players ==>
      OwnerCount(nodes, p) == |nodes| / players + (if p < |nodes| % players then 1 else 0)
    ensures Balanced(nodes, players)
  {
    var n := |nodes|;
    forall p | 0 <= p < players
      ensures OwnerCount(nodes, p) == n / players + (if p < n % players then 1 else 0)
    {
      forall k | k in OwnedBy(nodes, p)
        ensures k in Image(perm, Residue(n, players, p))
      {
        PermutationOnto(perm, n, k);
        var i :| 0 <= i < n && perm[i] == k;
        assert i in Residue(n, players, p);
      }
      assert OwnedBy(nodes, p) == Image(perm, Residue(n, players, p));
      ImageSize(perm, n, Residue(n, players, p));
      ResidueSize(n, players, p);
    }
    forall k | 0 <= k < n
      ensures nodes[k].owner.Player? && nodes[k].owner.id < players
    {
      PermutationOnto(perm, n, k);
    }
  }
}
