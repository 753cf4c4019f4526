/** The order in which groups are visited, exactly: by level, and by name within a
    level.  A level is one pass of reverse_topsort (netsim/augment/groups.py). */
module GroupLevels {
  import opened Graphs
  import opened Groups
  import opened Names
  import opened Sequences

  /** The level of a group: not below that of any group it contains, and above it
      unless the member comes first in the alphabet. */
  function Level(g: Graph<string>, n: string): nat
    requires !HasCycle(g) && n in g
    decreases Below(g, n), |g[n]| + 1
  {
    LevelFrom(g, n, 0)
  }

  function LevelFrom(g: Graph<string>, n: string, k: nat): nat
    requires !HasCycle(g) && n in g && k <= |g[n]|
    decreases Below(g, n), |g[n]| - k
  {
    if k == |g[n]| then 0
    else
      var rest := LevelFrom(g, n, k + 1);
      var m := g[n][k];
      if m !in g then rest
      else
        BelowShrinks(g, n, m);
        var least := Level(g, m) + if Less(m, n) then 0 else 1;
        if rest < least then least else rest
  }

  /** Member m allows level r for group n. */
  predicate Allows(g: Graph<string>, n: string, m: string, r: nat)
    requires !HasCycle(g)
  {
    m in g ==> Level(g, m) + (if Less(m, n) then 0 else 1) <= r
  }

  lemma {:induction false} LevelFromExact(g: Graph<string>, n: string, k: nat, r: nat)
    requires !HasCycle(g) && n in g && k <= |g[n]|
    ensures LevelFrom(g, n, k) <= r <==> forall i | k <= i < |g[n]| :: Allows(g, n, g[n][i], r)
    decreases |g[n]| - k
  {
    if k == |g[n]| {
    } else {
      LevelFromExact(g, n, k + 1, r);
      if g[n][k] in g {
        BelowShrinks(g, n, g[n][k]);
      }
    }
  }

  /** The level is the least number that all members allow. */
  lemma LevelExact(g: Graph<string>, n: string, r: nat)
    requires !HasCycle(g) && n in g
    ensures Level(g, n) <= r <==> forall m | m in g[n] :: Allows(g, n, m, r)
  {
    LevelFromExact(g, n, 0, r);
    assert forall i | 0 <= i < |g[n]| :: g[n][i] in g[n];
  }

  function AtLeast(g: Graph<string>, r: nat): set<string>
    requires !HasCycle(g)
  {
    set n | n in g && Level(g, n) >= r
  }

  /** Groups still there in the pass for level r when those before names have been
      looked at. */
  ghost predicate InPass(g: Graph<string>, r: nat, remaining: set<string>, names: seq<string>)
    requires !HasCycle(g)
  {
    && Ascending(names)
    && (forall n | n in names :: n in g && Level(g, n) >= r)
    && (forall n, m | n in g && Level(g, n) >= r && n !in names && m in names :: Less(n, m))
    && forall n :: n in remaining <==> n in g && (Level(g, n) > r || n in names)
  }

  /** A group is taken exactly when its level has come. */
  lemma TakenAtLevel(g: Graph<string>, r: nat, remaining: set<string>, names: seq<string>)
    requires !HasCycle(g) && InPass(g, r, remaining, names) && names != []
    ensures NoMemberIn(g, names[0], remaining) <==> Level(g, names[0]) == r
  {
    var n := names[0];
    assert n in names;
    LevelExact(g, n, r);
    forall m | m in g[n] ensures m !in remaining <==> Allows(g, n, m, r) {
      if m in g {
        if m in names {
          var i :| 0 <= i < |names| && names[i] == m;
          LessTotal(n, m);
          assert i > 0 ==> Less(names[0], names[i]);
        }
        if Level(g, m) >= r && m !in names {
          assert Less(m, n);
        }
      }
    }
  }

  lemma RestOfPass(g: Graph<string>, r: nat, remaining: set<string>, names: seq<string>)
    requires !HasCycle(g) && InPass(g, r, remaining, names) && names != []
    ensures Level(g, names[0]) == r ==> InPass(g, r, remaining - {names[0]}, names[1..])
    ensures Level(g, names[0]) != r ==> InPass(g, r, remaining, names[1..])
  {
    assert forall i | 0 < i < |names| :: names[i] == names[1..][i - 1];
    assert names[0] in names;
    forall m | m in names[1..] ensures Less(names[0], m) {
      var i :| 0 <= i < |names| - 1 && names[1..][i] == m;
      assert Less(names[0], names[i + 1]);
    }
    LessTotal(names[0], names[0]);
    assert names[0] !in names[1..];
    assert forall n :: n in names <==> n == names[0] || n in names[1..];
  }

  /** A pass takes the groups of its level in the order of their names. */
  lemma {:induction false} PassTakesLevel(g: Graph<string>, r: nat, remaining: set<string>, names: seq<string>)
    requires !HasCycle(g) && InPass(g, r, remaining, names)
    ensures forall n | n in names :: n in g
    ensures var taken := Pass(g, remaining, names);
            Ascending(taken) && forall n :: n in taken <==> n in names && Level(g, n) == r
  {
    if names == [] {
    } else {
      var n, rest := names[0], names[1..];
      assert n in names && forall m | m in rest :: m in names;
      TakenAtLevel(g, r, remaining, names);
      RestOfPass(g, r, remaining, names);
      var left := if Level(g, n) == r then remaining - {n} else remaining;
      PassTakesLevel(g, r, left, rest);
      var taken := Pass(g, left, rest);
      if Level(g, n) == r {
        forall j | 0 <= j < |taken| ensures Less(n, taken[j]) {
          assert taken[j] in taken && taken[j] in rest;
          var i :| 0 <= i < |rest| && rest[i] == taken[j];
          assert Less(names[0], names[i + 1]);
        }
      }
    }
  }

  ghost predicate Before(g: Graph<string>, a: string, b: string)
    requires !HasCycle(g) && a in g && b in g
  {
    Level(g, a) < Level(g, b) || (Level(g, a) == Level(g, b) && Less(a, b))
  }

  ghost predicate ByLevel(g: Graph<string>, list: seq<string>)
    requires !HasCycle(g)
  {
    && (forall n | n in list :: n in g)
    && forall i, j | 0 <= i < j < |list| :: list[i] in g && list[j] in g && Before(g, list[i], list[j])
  }

  lemma {:induction false} TopsortByLevel(g: Graph<string>, r: nat)
    requires !HasCycle(g)
    ensures AtLeast(g, r) <= g.Keys
    ensures var list := Topsort(g, AtLeast(g, r));
            ByLevel(g, list) && forall n | n in list :: Level(g, n) >= r
    decreases AtLeast(g, r)
  {
    var remaining := AtLeast(g, r);
    if remaining == {} {
    } else {
      FirstPass(g, r);
      PassTakesLevel(g, r, remaining, Sorted(remaining));
      var taken := Pass(g, remaining, Sorted(remaining));
      var left := set n | n in remaining && n !in taken;
      TopsortUnfolds(g, remaining, taken, left);
      assert left == AtLeast(g, r + 1);
      TopsortByLevel(g, r + 1);
      LevelsConcat(g, r, taken, Topsort(g, left));
    }
  }

  lemma FirstPass(g: Graph<string>, r: nat)
    requires !HasCycle(g)
    ensures InPass(g, r, AtLeast(g, r), Sorted(AtLeast(g, r)))
    ensures forall n :: n in Sorted(AtLeast(g, r)) <==> n in AtLeast(g, r)
  {
    var names := Sorted(AtLeast(g, r));
    forall n ensures n in names <==> n in AtLeast(g, r) {
      assert n in names <==> n in Elements(names);
    }
  }

  lemma LevelsConcat(g: Graph<string>, r: nat, taken: seq<string>, rest: seq<string>)
    requires !HasCycle(g)
    requires Ascending(taken) && forall n | n in taken :: n in g && Level(g, n) == r
    requires ByLevel(g, rest) && forall n | n in rest :: Level(g, n) >= r + 1
    ensures ByLevel(g, taken + rest) && forall n | n in taken + rest :: Level(g, n) >= r
  {
    var list := taken + rest;
    forall i, j | 0 <= i < j < |list| ensures list[i] in g && list[j] in g && Before(g, list[i], list[j]) {
      assert i < |taken| ==> list[i] == taken[i] && taken[i] in taken;
      assert j < |taken| ==> list[j] == taken[j] && taken[j] in taken;
      assert i >= |taken| ==> list[i] == rest[i - |taken|] && rest[i - |taken|] in rest;
      assert j >= |taken| ==> list[j] == rest[j - |taken|] && rest[j - |taken|] in rest;
    }
  }

  /** All groups, each once, by level and then by name. */
  lemma GroupOrderExact(groups: GroupTable)
    requires !HasCycle(Membership(groups))
    ensures ByLevel(Membership(groups), GroupOrder(groups))
    ensures forall g :: g in GroupOrder(groups) <==> g in groups
  {
    var g := Membership(groups);
    assert AtLeast(g, 0) == g.Keys == groups.Keys;
    TopsortByLevel(g, 0);
    GroupOrderProperties(groups);
  }
}
