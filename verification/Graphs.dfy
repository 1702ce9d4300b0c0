/** Finite directed graphs: walks, chains and cycles. */
module Graphs {
  type Graph<T> = map<T, set<T>>

  ghost predicate Closed<T>(g: Graph<T>) {
    forall x <- g :: g[x] <= g.Keys
  }

  /** A walk of exactly `n` edges leads from `x` to `y`. */
  ghost predicate Reaches<T>(g: Graph<T>, x: T, y: T, n: nat) {
    if n == 0 then x == y
    else x in g && exists z <- g[x] :: Reaches(g, z, y, n - 1)
  }

  /** Some walk of `n` edges starts at `x`. */
  ghost predicate HasChain<T>(g: Graph<T>, x: T, n: nat) {
    n == 0 || (x in g && exists y <- g[x] :: HasChain(g, y, n - 1))
  }

  ghost predicate OnCycle<T>(g: Graph<T>, x: T) {
    exists m: nat :: m > 0 && Reaches(g, x, x, m)
  }

  ghost predicate ReachesCycle<T(!new)>(g: Graph<T>, x: T) {
    exists y: T, n: nat :: Reaches(g, x, y, n) && OnCycle(g, y)
  }

  lemma {:induction false} ReachesIsTransitive<T>(g: Graph<T>, x: T, y: T, z: T, m: nat, n: nat)
    requires Reaches(g, x, y, m) && Reaches(g, y, z, n)
    ensures Reaches(g, x, z, m + n)
  {
    if m > 0 {
      var w :| w in g[x] && Reaches(g, w, y, m - 1);
      ReachesIsTransitive(g, w, y, z, m - 1, n);
    }
  }

  lemma {:induction false} ChainsShorten<T>(g: Graph<T>, x: T, n: nat, m: nat)
    requires HasChain(g, x, n) && m <= n
    ensures HasChain(g, x, m)
  {
    if m > 0 {
      var y :| y in g[x] && HasChain(g, y, n - 1);
      ChainsShorten(g, y, n - 1, m - 1);
    }
  }

  /** From a node that reaches a cycle one can take a step and still reach it. */
  lemma CycleContinues<T(!new)>(g: Graph<T>, x: T) returns (y: T)
    requires ReachesCycle(g, x)
    ensures x in g && y in g[x] && ReachesCycle(g, y)
  {
    var c: T, n: nat :| Reaches(g, x, c, n) && OnCycle(g, c);
    if n > 0 {
      y :| y in g[x] && Reaches(g, y, c, n - 1);
    } else {
      assert OnCycle(g, x);
      var m: nat :| m > 0 && Reaches(g, x, x, m);
      y :| y in g[x] && Reaches(g, y, x, m - 1);
    }
  }

  lemma {:induction false} CycleHasEveryChain<T(!new)>(g: Graph<T>, x: T, n: nat)
    requires ReachesCycle(g, x)
    ensures HasChain(g, x, n)
  {
    if n > 0 {
      var y := CycleContinues(g, x);
      CycleHasEveryChain(g, y, n - 1);
    }
  }

  ghost predicate IsPath<T>(g: Graph<T>, p: seq<T>) {
    forall i | 0 <= i < |p| - 1 :: p[i] in g && p[i + 1] in g[p[i]]
  }

  lemma {:induction false} ChainHasPath<T>(g: Graph<T>, x: T, n: nat) returns (p: seq<T>)
    requires HasChain(g, x, n)
    ensures |p| == n + 1 && p[0] == x && IsPath(g, p)
  {
    p := [x];
    if n > 0 {
      var y :| y in g[x] && HasChain(g, y, n - 1);
      var rest := ChainHasPath(g, y, n - 1);
      p := [x] + rest;
    }
  }

  lemma {:induction false} PathReaches<T>(g: Graph<T>, p: seq<T>, i: nat, j: nat)
    requires IsPath(g, p) && i <= j < |p|
    ensures Reaches(g, p[i], p[j], j - i)
    decreases j - i
  {
    if i < j {
      PathReaches(g, p, i + 1, j);
    }
  }

  /** More places than nodes: some node occurs twice. */
  lemma {:induction false} Pigeonhole<T>(p: seq<T>, nodes: set<T>) returns (i: nat, j: nat)
    requires forall k | 0 <= k < |p| :: p[k] in nodes
    requires |p| > |nodes|
    ensures i < j < |p| && p[i] == p[j]
    decreases |p|
  {
    var last := |p| - 1;
    if k :| 0 <= k < last && p[k] == p[last] {
      return k, last;
    }
    i, j := Pigeonhole(p[..last], nodes - {p[last]});
  }

  lemma LongChainReachesCycle<T(!new)>(g: Graph<T>, x: T, n: nat)
    requires Closed(g) && x in g
    requires HasChain(g, x, n) && n >= |g|
    ensures ReachesCycle(g, x)
  {
    var p := ChainHasPath(g, x, n);
    PathStaysInside(g, p);
    var i, j := Pigeonhole(p, g.Keys);
    PathReaches(g, p, 0, i);
    PathReaches(g, p, i, j);
  }

  lemma {:induction false} PathStaysInside<T>(g: Graph<T>, p: seq<T>)
    requires Closed(g) && IsPath(g, p) && |p| > 0 && p[0] in g
    ensures forall k | 0 <= k < |p| :: p[k] in g
  {
    if |p| > 1 {
      assert p[0 + 1] in g[p[0]];
      assert IsPath(g, p[1..]) by {
        forall i | 0 <= i < |p[1..]| - 1 ensures p[1..][i] in g && p[1..][i + 1] in g[p[1..][i]] {
          assert p[i + 1] in g && p[i + 1 + 1] in g[p[i + 1]];
        }
      }
      PathStaysInside(g, p[1..]);
    }
  }

  /** In a finite graph: a chain as long as the graph, chains of every length, and a reachable cycle coincide. */
  lemma CycleIffLongChain<T(!new)>(g: Graph<T>, x: T)
    requires Closed(g) && x in g
    ensures ReachesCycle(g, x) <==> HasChain(g, x, |g|)
    ensures ReachesCycle(g, x) <==> forall n: nat :: HasChain(g, x, n)
  {
    if ReachesCycle(g, x) {
      forall n: nat ensures HasChain(g, x, n) {
        CycleHasEveryChain(g, x, n);
      }
    }
    if HasChain(g, x, |g|) {
      LongChainReachesCycle(g, x, |g|);
    }
  }

  // ---- Rank: the length of the longest chain ---------------------------------------------

  ghost function RankFrom<T(!new)>(g: Graph<T>, x: T, n: nat): (r: nat)
    requires Closed(g) && x in g && !ReachesCycle(g, x)
    requires HasChain(g, x, n)
    ensures HasChain(g, x, r) && !HasChain(g, x, r + 1)
    decreases |g| - n
  {
    assert n < |g| by {
      if n >= |g| {
        LongChainReachesCycle(g, x, n);
      }
    }
    if HasChain(g, x, n + 1) then RankFrom(g, x, n + 1) else n
  }

  /** The number of edges of the longest chain that starts at `x`. */
  ghost function Rank<T(!new)>(g: Graph<T>, x: T): (r: nat)
    requires Closed(g) && x in g && !ReachesCycle(g, x)
    ensures forall n: nat :: HasChain(g, x, n) <==> n <= r
  {
    var r := RankFrom(g, x, 0);
    assert forall n: nat :: HasChain(g, x, n) <==> n <= r by {
      forall n: nat ensures HasChain(g, x, n) <==> n <= r {
        if n <= r {
          ChainsShorten(g, x, r, n);
        } else if HasChain(g, x, n) {
          ChainsShorten(g, x, n, r + 1);
        }
      }
    }
    r
  }

  lemma SuccessorsRankLower<T(!new)>(g: Graph<T>, x: T, y: T)
    requires Closed(g) && x in g && y in g[x] && !ReachesCycle(g, x)
    ensures !ReachesCycle(g, y) && Rank(g, y) < Rank(g, x)
  {
    if ReachesCycle(g, y) {
      var c: T, n: nat :| Reaches(g, y, c, n) && OnCycle(g, c);
      assert Reaches(g, x, c, n + 1);
    }
    assert HasChain(g, x, Rank(g, y) + 1);
  }
}
