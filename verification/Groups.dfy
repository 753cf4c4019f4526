/** The group hierarchy (netsim/augment/groups.py): cycle detection, the
    bottom-up ordering of groups, and recursive membership.  Entries whose name
    starts with an underscore are settings, not groups, and do not appear. */
module Groups {
  import opened Graphs
  import opened Names
  import opened Options
  import opened Sequences

  datatype Kind = NodeGroup | VlanGroup | VrfGroup

  /** special holds the computed members of the "all" and device groups. */
  datatype Group = Group(kind: Kind, members: seq<string>, special: Option<seq<string>>,
                         config: Option<seq<string>>, device: Option<string>, isDefault: bool)

  type GroupTable = map<string, Group>

  function Membership(groups: GroupTable): Graph<string> {
    map g | g in groups :: groups[g].members
  }

  // ----- cycle detection

  /** check_recursive_chain: the groups on the chain are distinct, so the chain
      cannot grow forever even when the hierarchy has a cycle. */
  method CheckRecursiveChain(groups: GroupTable, chain: seq<string>, group: string) returns (found: bool)
    requires group in groups && group !in chain
    ensures found && IsWalk(Membership(groups), chain + [group]) ==> HasCycle(Membership(groups))
    ensures !found ==> forall x | x in chain + [group] :: !Reaches(Membership(groups), group, x)
    decreases groups.Keys - Elements(chain)
  {
    ghost var g := Membership(groups);
    var longer := chain + [group];
    var members := groups[group].members;
    assert group in Elements(longer) && group !in Elements(chain);
    for i := 0 to |members|
      invariant forall j | 0 <= j < i :: members[j] !in longer
      invariant forall j, x | 0 <= j < i && x in longer :: !Reaches(g, members[j], x)
    {
      var m := members[i];
      if m in longer {
        ChainBack(g, longer, m);
        return true;
      }
      if m in groups {
        var inner := CheckRecursiveChain(groups, longer, m);
        if inner {
          return true;
        }
        assert forall x | x in longer :: x in longer + [m];
      } else {
        OutsideReachesNothing(g, m);
      }
    }
    forall x | x in longer ensures !Reaches(g, group, x) {
      if Reaches(g, group, x) {
        var m := ReachesFirstEdge(g, group, x);
      }
    }
    return false;
  }

  lemma OutsideReachesNothing<T(!new)>(g: Graph<T>, m: T)
    requires m !in g
    ensures forall x :: !Reaches(g, m, x)
  {
    forall x | Reaches(g, m, x) ensures false {
      var _ := ReachesFirstEdge(g, m, x);
    }
  }

  /** A member that is already on the chain closes a cycle. */
  lemma ChainBack<T(!new)>(g: Graph<T>, chain: seq<T>, m: T)
    requires chain != [] && chain[|chain| - 1] in g && m in g[chain[|chain| - 1]] && m in chain
    ensures IsWalk(g, chain) ==> HasCycle(g)
  {
    if IsWalk(g, chain) && !HasCycle(g) {
      ChainStaysOpen(g, chain, m);
    }
  }

  /** check_recursive_groups reports an error exactly when some group contains
      itself, directly or through other groups. */
  method CheckRecursiveGroups(groups: GroupTable) returns (error: bool)
    ensures error <==> HasCycle(Membership(groups))
  {
    ghost var g := Membership(groups);
    var names := groups.Keys;
    while names != {}
      invariant names <= groups.Keys
      invariant forall a | a in groups.Keys - names :: !Reaches(g, a, a)
    {
      var name :| name in names;
      var found := CheckRecursiveChain(groups, [], name);
      if found {
        assert [] + [name] == [name];
        return true;
      }
      assert name in [] + [name];
      names := names - {name};
    }
    forall a ensures !Reaches(g, a, a) {
      if Reaches(g, a, a) {
        var _ := ReachesFirstEdge(g, a, a);
      }
    }
    return false;
  }

  // ----- bottom-up ordering

  predicate NoMemberIn(g: Graph<string>, name: string, remaining: set<string>)
    requires name in g
  {
    forall m | m in g[name] :: m !in remaining
  }

  /** One pass over the remaining groups: a group whose members are all gone is
      taken, and later groups of the same pass see that. */
  function Pass(g: Graph<string>, remaining: set<string>, names: seq<string>): (taken: seq<string>)
    requires forall n | n in names :: n in g
    ensures forall n | n in taken :: n in names
  {
    if names == [] then []
    else if NoMemberIn(g, names[0], remaining) then [names[0]] + Pass(g, remaining - {names[0]}, names[1..])
    else Pass(g, remaining, names[1..])
  }

  lemma PassTakesReady(g: Graph<string>, remaining: set<string>, names: seq<string>, ready: string)
    requires forall n | n in names :: n in g
    requires ready in names && NoMemberIn(g, ready, remaining)
    ensures Pass(g, remaining, names) != []
  {
  }

  lemma PassMakesProgress(g: Graph<string>, remaining: set<string>)
    requires !HasCycle(g) && remaining <= g.Keys && remaining != {}
    ensures forall n | n in Sorted(remaining) :: n in g
    ensures Pass(g, remaining, Sorted(remaining)) != []
  {
    forall n | n in Sorted(remaining) ensures n in remaining {
      assert n in Elements(Sorted(remaining));
    }
    var start :| start in remaining;
    var sink := FindSink(g, remaining, [start]);
    assert sink in Elements(Sorted(remaining));
    PassTakesReady(g, remaining, Sorted(remaining), sink);
  }

  lemma PassLeavesFewer(g: Graph<string>, remaining: set<string>)
    requires !HasCycle(g) && remaining <= g.Keys && remaining != {}
    ensures forall n | n in Sorted(remaining) :: n in g
    ensures remaining - Elements(Pass(g, remaining, Sorted(remaining))) < remaining
  {
    PassMakesProgress(g, remaining);
    var taken := Pass(g, remaining, Sorted(remaining));
    assert taken[0] in Sorted(remaining) && taken[0] in Elements(taken);
    assert taken[0] in Elements(Sorted(remaining));
  }

  /** What reverse_topsort returns for the remaining groups. */
  function Topsort(g: Graph<string>, remaining: set<string>): seq<string>
    requires !HasCycle(g) && remaining <= g.Keys
    decreases remaining
  {
    if remaining == {} then [] else
      PassLeavesFewer(g, remaining);
      var taken := Pass(g, remaining, Sorted(remaining));
      taken + Topsort(g, set n | n in remaining && n !in taken)
  }

  lemma TopsortUnfolds(g: Graph<string>, remaining: set<string>, taken: seq<string>, left: set<string>)
    requires !HasCycle(g) && remaining <= g.Keys && remaining != {}
    requires (forall n | n in Sorted(remaining) :: n in g) && taken == Pass(g, remaining, Sorted(remaining))
    requires left == set n | n in remaining && n !in taken
    ensures left < remaining && left == remaining - Elements(taken)
    ensures Topsort(g, remaining) == taken + Topsort(g, left)
  {
    PassLeavesFewer(g, remaining);
    assert left == remaining - Elements(taken);
  }

  method TakePass(groups: GroupTable, remaining: set<string>, names: seq<string>) returns (taken: seq<string>)
    requires forall n | n in names :: n in groups
    ensures taken == Pass(Membership(groups), remaining, names)
  {
    ghost var g := Membership(groups);
    taken := [];
    var left := remaining;
    for i := 0 to |names|
      invariant taken + Pass(g, left, names[i..]) == Pass(g, remaining, names)
    {
      if forall m | m in groups[names[i]].members :: m !in left {
        assert NoMemberIn(g, names[i], left);
        assert taken + ([names[i]] + Pass(g, left - {names[i]}, names[i + 1..])) ==
               (taken + [names[i]]) + Pass(g, left - {names[i]}, names[i + 1..]);
        taken := taken + [names[i]];
        left := left - {names[i]};
      }
    }
  }

  /** The order in which every consumer visits the groups. */
  function GroupOrder(groups: GroupTable): seq<string>
    requires !HasCycle(Membership(groups))
  {
    Topsort(Membership(groups), groups.Keys)
  }

  /** reverse_topsort: on an acyclic hierarchy every pass removes a group, so the
      loop ends. */
  method ReverseTopsort(groups: GroupTable) returns (sortList: seq<string>)
    requires !HasCycle(Membership(groups))
    ensures sortList == GroupOrder(groups)
  {
    ghost var g := Membership(groups);
    ghost var result := Topsort(g, groups.Keys);
    assert g.Keys == groups.Keys;
    var remaining := groups.Keys;
    sortList := [];
    while remaining != {}
      invariant remaining <= g.Keys
      invariant sortList + Topsort(g, remaining) == result
      decreases remaining
    {
      PassMakesProgress(g, remaining);
      var taken := TakePass(groups, remaining, Sorted(remaining));
      var left := set n | n in remaining && n !in taken;
      TopsortUnfolds(g, remaining, taken, left);
      ConcatAssociative(sortList, taken, Topsort(g, left));
      sortList, remaining := sortList + taken, left;
    }
  }

  /** Every member group that is still listed comes before its container. */
  ghost predicate MembersFirst(g: Graph<string>, universe: set<string>, list: seq<string>) {
    forall i | 0 <= i < |list| :: list[i] in g && forall m | m in g[list[i]] && m in universe :: m in list[..i]
  }

  lemma {:induction false} PassOrdered(g: Graph<string>, remaining: set<string>, names: seq<string>)
    requires forall n | n in names :: n in g && n in remaining
    requires Distinct(names)
    ensures Distinct(Pass(g, remaining, names))
    ensures MembersFirst(g, remaining, Pass(g, remaining, names))
  {
    if names == [] {
    } else {
      if NoMemberIn(g, names[0], remaining) {
        PassOrdered(g, remaining - {names[0]}, names[1..]);
        var rest := Pass(g, remaining - {names[0]}, names[1..]);
        var taken := [names[0]] + rest;
        forall i | 0 <= i < |taken| ensures forall m | m in g[taken[i]] && m in remaining :: m in taken[..i] {
          if i > 0 {
            assert taken[..i] == [names[0]] + rest[..i - 1];
            assert taken[i] == rest[i - 1];
          }
        }
        assert forall n | n in rest :: n in names[1..];
      } else {
        PassOrdered(g, remaining, names[1..]);
      }
    }
  }

  lemma OrderedConcat(g: Graph<string>, remaining: set<string>, taken: seq<string>, left: set<string>, rest: seq<string>)
    requires left == remaining - Elements(taken) && Elements(rest) == left
    requires Distinct(taken) && MembersFirst(g, remaining, taken)
    requires Distinct(rest) && MembersFirst(g, left, rest)
    ensures Distinct(taken + rest)
    ensures MembersFirst(g, remaining, taken + rest)
  {
    var list := taken + rest;
    assert forall i | 0 <= i < |taken| :: taken[i] in Elements(taken);
    assert forall i | 0 <= i < |rest| :: rest[i] in Elements(rest);
    forall i | 0 <= i < |list| ensures list[i] in g && forall m | m in g[list[i]] && m in remaining :: m in list[..i] {
      if i < |taken| {
        assert list[..i] == taken[..i];
      } else {
        assert list[..i] == taken + rest[..i - |taken|];
        assert list[i] == rest[i - |taken|];
      }
    }
  }

  lemma SortedIsDistinct(names: set<string>)
    ensures Distinct(Sorted(names))
    ensures forall n | n in Sorted(names) :: n in names
  {
    AscendingDistinct(Sorted(names));
    forall n | n in Sorted(names) ensures n in names {
      assert n in Elements(Sorted(names));
    }
  }

  lemma TopsortSplits(g: Graph<string>, remaining: set<string>) returns (taken: seq<string>, left: set<string>)
    requires !HasCycle(g) && remaining <= g.Keys && remaining != {}
    ensures left == remaining - Elements(taken) && left < remaining && Elements(taken) <= remaining
    ensures Topsort(g, remaining) == taken + Topsort(g, left)
    ensures Distinct(taken) && MembersFirst(g, remaining, taken)
  {
    PassMakesProgress(g, remaining);
    SortedIsDistinct(remaining);
    PassOrdered(g, remaining, Sorted(remaining));
    taken := Pass(g, remaining, Sorted(remaining));
    left := set n | n in remaining && n !in taken;
    TopsortUnfolds(g, remaining, taken, left);
    assert forall n | n in taken :: n in Sorted(remaining);
  }

  /** reverse_topsort returns every group once, member groups first. */
  lemma {:induction false} TopsortOrdered(g: Graph<string>, remaining: set<string>)
    requires !HasCycle(g) && remaining <= g.Keys
    ensures Elements(Topsort(g, remaining)) == remaining
    ensures Distinct(Topsort(g, remaining))
    ensures MembersFirst(g, remaining, Topsort(g, remaining))
    decreases remaining
  {
    if remaining == {} {
    } else {
      var taken, left := TopsortSplits(g, remaining);
      TopsortOrdered(g, left);
      OrderedConcat(g, remaining, taken, left, Topsort(g, left));
      ElementsOfConcat(taken, Topsort(g, left));
    }
  }

  /** The order extends to members of members: whatever group a reaches comes
      before a. */
  lemma {:induction false} ReachedGroupsFirst(g: Graph<string>, list: seq<string>, a: nat, b: string)
    requires Elements(list) == g.Keys && Distinct(list) && MembersFirst(g, g.Keys, list)
    requires a < |list| && b in g && Reaches(g, list[a], b)
    ensures b in list[..a]
    decreases a
  {
    var m := ReachesFirstEdge(g, list[a], b);
    if m == b {
    } else {
      assert m in g;
      var i :| 0 <= i < a && list[i] == m;
      ReachedGroupsFirst(g, list, i, b);
      assert list[..i] <= list[..a];
    }
  }

  /** The same facts about the order of all groups. */
  lemma GroupOrderProperties(groups: GroupTable)
    requires !HasCycle(Membership(groups))
    ensures Distinct(GroupOrder(groups))
    ensures forall g :: g in GroupOrder(groups) <==> g in groups
    ensures forall a, b, j | a in groups && b in groups && Reaches(Membership(groups), a, b)
              && 0 <= j < |GroupOrder(groups)| && GroupOrder(groups)[j] == a :: b in GroupOrder(groups)[..j]
  {
    var g := Membership(groups);
    assert g.Keys == groups.Keys;
    TopsortOrdered(g, g.Keys);
    var order := GroupOrder(groups);
    forall x ensures x in order <==> x in groups {
      assert x in order <==> x in Elements(order);
    }
    forall a, b, j | a in groups && b in groups && Reaches(g, a, b) && 0 <= j < |order| && order[j] == a
      ensures b in order[..j]
    {
      ReachedGroupsFirst(g, order, j, b);
    }
  }

  // ----- recursive membership

  datatype Topology = Topology(groups: GroupTable, objects: map<Kind, set<string>>)

  predicate IsObject(t: Topology, kind: Kind, name: string) {
    kind in t.objects && name in t.objects[kind]
  }

  /** group_members; the depth guard is not part of this model. */
  function Members(t: Topology, group: string, kind: Kind): seq<string>
    requires !HasCycle(Membership(t.groups))
    decreases Below(Membership(t.groups), group), 1, 0
  {
    if group !in t.groups || t.groups[group].kind != kind then []
    else if kind == NodeGroup && t.groups[group].special.Some? then t.groups[group].special.value
    else MembersFrom(t, group, kind, 0)
  }

  function MembersFrom(t: Topology, group: string, kind: Kind, k: nat): seq<string>
    requires !HasCycle(Membership(t.groups))
    requires group in t.groups && k <= |t.groups[group].members|
    decreases Below(Membership(t.groups), group), 0, |t.groups[group].members| - k
  {
    if k == |t.groups[group].members| then [] else
      var m := t.groups[group].members[k];
      (if IsObject(t, kind, m) then [m] else [])
      + (if m in t.groups then
           BelowShrinks(Membership(t.groups), group, m);
           Members(t, m, kind) else [])
      + MembersFrom(t, group, kind, k + 1)
  }

  method GroupMembers(t: Topology, group: string, kind: Kind) returns (members: seq<string>)
    requires !HasCycle(Membership(t.groups))
    ensures members == Members(t, group, kind)
    decreases Below(Membership(t.groups), group)
  {
    members := [];
    if group !in t.groups || t.groups[group].kind != kind {
      return;
    }
    if kind == NodeGroup && t.groups[group].special.Some? {
      return t.groups[group].special.value;
    }
    ghost var whole := MembersFrom(t, group, kind, 0);
    var explicit := t.groups[group].members;
    for k := 0 to |explicit|
      invariant members + MembersFrom(t, group, kind, k) == whole
    {
      var m := explicit[k];
      var direct := if IsObject(t, kind, m) then [m] else [];
      var inner := [];
      if m in t.groups {
        BelowShrinks(Membership(t.groups), group, m);
        inner := GroupMembers(t, m, kind);
      }
      MembersFromUnfolds(t, group, kind, k, direct, inner);
      ConcatAssociative(members, direct + inner, MembersFrom(t, group, kind, k + 1));
      members := members + (direct + inner);
    }
  }

  lemma MembersFromUnfolds(t: Topology, group: string, kind: Kind, k: nat, direct: seq<string>, inner: seq<string>)
    requires !HasCycle(Membership(t.groups))
    requires group in t.groups && k < |t.groups[group].members|
    requires var m := t.groups[group].members[k];
             && direct == (if IsObject(t, kind, m) then [m] else [])
             && inner == (if m in t.groups then Members(t, m, kind) else [])
    ensures MembersFrom(t, group, kind, k) == (direct + inner) + MembersFrom(t, group, kind, k + 1)
  {
  }

  /** Group h lists object x itself. */
  ghost predicate Lists(t: Topology, kind: Kind, h: string, x: string) {
    && h in t.groups && t.groups[h].kind == kind
    && if kind == NodeGroup && t.groups[h].special.Some? then x in t.groups[h].special.value
       else x in t.groups[h].members && IsObject(t, kind, x)
  }

  /** Membership edges that group_members follows: groups of another kind and
      groups with computed members are not expanded. */
  ghost function Followed(t: Topology, kind: Kind): Graph<string> {
    map h | h in t.groups && t.groups[h].kind == kind && !(kind == NodeGroup && t.groups[h].special.Some?) :: t.groups[h].members
  }

  ghost predicate Contains(t: Topology, kind: Kind, group: string, x: string) {
    exists h :: (h == group || Reaches(Followed(t, kind), group, h)) && Lists(t, kind, h, x)
  }

  /** What a single member of a group stands for. */
  ghost predicate Yields(t: Topology, kind: Kind, m: string, x: string) {
    (m == x && IsObject(t, kind, x)) || (m in t.groups && Contains(t, kind, m, x))
  }

  /** The recursion computes exactly the objects listed by the group or by a
      group reachable from it. */
  lemma {:induction false} MembersExact(t: Topology, group: string, kind: Kind, x: string)
    requires !HasCycle(Membership(t.groups))
    ensures x in Members(t, group, kind) <==> Contains(t, kind, group, x)
    decreases Below(Membership(t.groups), group), 1, 0
  {
    var f := Followed(t, kind);
    assert Lists(t, kind, group, x) ==> Contains(t, kind, group, x);
    if group in f {
      MembersFromExact(t, group, kind, 0, x);
      if Contains(t, kind, group, x) {
        var h :| (h == group || Reaches(f, group, h)) && Lists(t, kind, h, x);
        if h != group {
          var m := ReachesFirstEdge(f, group, h);
          assert Contains(t, kind, m, x);
        }
      }
      if m :| m in f[group] && Contains(t, kind, m, x) {
        var h :| (h == m || Reaches(f, m, h)) && Lists(t, kind, h, x);
        EdgeReaches(f, group, m);
        if h != m {
          ReachesTransitive(f, group, m, h);
        }
      }
    } else if Contains(t, kind, group, x) {
      var h :| (h == group || Reaches(f, group, h)) && Lists(t, kind, h, x);
      if h != group {
        var _ := ReachesFirstEdge(f, group, h);
      }
    }
  }

  lemma {:induction false} MembersFromExact(t: Topology, group: string, kind: Kind, k: nat, x: string)
    requires !HasCycle(Membership(t.groups))
    requires group in t.groups && k <= |t.groups[group].members|
    ensures x in MembersFrom(t, group, kind, k) <==>
            exists i :: k <= i < |t.groups[group].members| && Yields(t, kind, t.groups[group].members[i], x)
    decreases Below(Membership(t.groups), group), 0, |t.groups[group].members| - k
  {
    if k == |t.groups[group].members| {
    } else {
      var m := t.groups[group].members[k];
      var direct, inner := if IsObject(t, kind, m) then [m] else [], [];
      if m in t.groups {
        BelowShrinks(Membership(t.groups), group, m);
        MembersExact(t, m, kind, x);
        inner := Members(t, m, kind);
      }
      MembersFromUnfolds(t, group, kind, k, direct, inner);
      assert x in direct + inner <==> Yields(t, kind, m, x);
      MembersFromExact(t, group, kind, k + 1, x);
    }
  }
}
