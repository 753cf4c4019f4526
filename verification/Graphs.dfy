/** Finite directed graphs given as adjacency lists: group membership, device
    parents and component includes are all of this shape.  A vertex that is not
    a key of the map has no outgoing edges. */
module Graphs {
  import opened Sequences

  type Graph<T> = map<T, seq<T>>

  ghost predicate IsWalk<T>(g: Graph<T>, w: seq<T>) {
    && |w| >= 1
    && forall i | 0 <= i < |w| - 1 :: w[i] in g && w[i + 1] in g[w[i]]
  }

  ghost predicate WalkFromTo<T>(g: Graph<T>, w: seq<T>, a: T, b: T) {
    IsWalk(g, w) && |w| >= 2 && w[0] == a && w[|w| - 1] == b
  }

  /** There is a walk of at least one edge from a to b. */
  ghost predicate Reaches<T(!new)>(g: Graph<T>, a: T, b: T) {
    exists w :: WalkFromTo(g, w, a, b)
  }

  ghost predicate HasCycle<T(!new)>(g: Graph<T>) {
    exists a :: Reaches(g, a, a)
  }

  lemma EdgeReaches<T(!new)>(g: Graph<T>, a: T, b: T)
    requires a in g && b in g[a]
    ensures Reaches(g, a, b)
  {
    assert WalkFromTo(g, [a, b], a, b);
  }

  lemma ReachesTransitive<T(!new)>(g: Graph<T>, a: T, b: T, c: T)
    requires Reaches(g, a, b) && Reaches(g, b, c)
    ensures Reaches(g, a, c)
  {
    var v :| WalkFromTo(g, v, a, b);
    var w :| WalkFromTo(g, w, b, c);
    assert WalkFromTo(g, v + w[1..], a, c);
  }

  /** A path of one edge, or an edge followed by a path. */
  lemma ReachesFirstEdge<T(!new)>(g: Graph<T>, a: T, b: T) returns (m: T)
    requires Reaches(g, a, b)
    ensures a in g && m in g[a] && (m == b || Reaches(g, m, b))
  {
    var w :| WalkFromTo(g, w, a, b);
    m := w[1];
    if |w| > 2 {
      assert WalkFromTo(g, w[1..], m, b);
    }
  }

  /** The keys reachable from a: the termination measure of every recursion
      over an acyclic graph. */
  ghost function Below<T(!new)>(g: Graph<T>, a: T): set<T> {
    set h | h in g && Reaches(g, a, h)
  }

  lemma BelowShrinks<T(!new)>(g: Graph<T>, a: T, m: T)
    requires !HasCycle(g)
    requires a in g && m in g[a] && m in g
    ensures Below(g, m) < Below(g, a)
  {
    EdgeReaches(g, a, m);
    forall h | h in Below(g, m) ensures h in Below(g, a) {
      ReachesTransitive(g, a, m, h);
    }
    assert m in Below(g, a) && m !in Below(g, m);
  }

  lemma {:induction false} WalkDescends<T(!new)>(g: Graph<T>, rank: T -> nat, w: seq<T>)
    requires forall a, b | a in g && b in g[a] :: rank(b) < rank(a)
    requires IsWalk(g, w) && |w| >= 2
    ensures rank(w[|w| - 1]) < rank(w[0])
  {
    assert rank(w[1]) < rank(w[0]);
    if |w| == 2 {
    } else {
      WalkDescends(g, rank, w[1..]);
    }
  }

  /** A graph whose edges all lead to a smaller rank has no cycle. */
  lemma RankedIsAcyclic<T(!new)>(g: Graph<T>, rank: T -> nat)
    requires forall a, b | a in g && b in g[a] :: rank(b) < rank(a)
    ensures !HasCycle(g)
  {
    if a :| Reaches(g, a, a) {
      var w :| WalkFromTo(g, w, a, a);
      WalkDescends(g, rank, w);
    }
  }

  lemma ChainStaysOpen<T(!new)>(g: Graph<T>, chain: seq<T>, m: T)
    requires !HasCycle(g) && IsWalk(g, chain)
    requires chain[|chain| - 1] in g && m in g[chain[|chain| - 1]]
    ensures m !in chain
  {
    if i :| 0 <= i < |chain| && chain[i] == m {
      assert WalkFromTo(g, chain[i..] + [m], m, m);
      assert Reaches(g, m, m);
    }
  }

  /** In any subset of an acyclic graph a walk can be extended to a vertex that
      has no successor in the subset. */
  lemma FindSink<T(!new)>(g: Graph<T>, s: set<T>, chain: seq<T>) returns (sink: T)
    requires !HasCycle(g) && s <= g.Keys
    requires IsWalk(g, chain) && Elements(chain) <= s
    requires chain[|chain| - 1] in s
    ensures sink in s && forall m | m in g[sink] :: m !in s
    decreases s - Elements(chain)
  {
    var last := chain[|chain| - 1];
    if m :| m in g[last] && m in s {
      ChainStaysOpen(g, chain, m);
      assert m in s - Elements(chain);
      assert m in Elements(chain + [m]);
      sink := FindSink(g, s, chain + [m]);
    } else {
      sink := last;
    }
  }
}
