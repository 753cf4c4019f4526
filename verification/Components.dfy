/** Topology components (netsim/augment/components.py): a node that includes a
    component is replaced by the nodes of the component, at any nesting depth,
    and by a group that collects them. */
module Components {
  import opened Graphs
  import opened Groups
  import opened Options
  import opened Sequences

  /** A node of a topology or of a component. */
  datatype Entry = Plain | Include(component: string)

  datatype Named = Named(name: string, entry: Entry)

  /** Components by name; a component is the ordered list of its nodes. */
  type Library = map<string, seq<Named>>

  function IncludedBy(nodes: seq<Named>): seq<string> {
    if nodes == [] then []
    else (if nodes[0].entry.Include? then [nodes[0].entry.component] else []) + IncludedBy(nodes[1..])
  }

  function IncludeGraph(lib: Library): Graph<string> {
    map c | c in lib :: IncludedBy(lib[c])
  }

  lemma {:induction false} IncludedByContains(nodes: seq<Named>, k: nat)
    requires k < |nodes| && nodes[k].entry.Include?
    ensures nodes[k].entry.component in IncludedBy(nodes)
  {
    if k == 0 {
    } else {
      IncludedByContains(nodes[1..], k - 1);
    }
  }

  lemma IncludeShrinks(lib: Library, c: string, k: nat)
    requires !HasCycle(IncludeGraph(lib)) && c in lib && k < |lib[c]|
    requires lib[c][k].entry.Include? && lib[c][k].entry.component in lib
    ensures Below(IncludeGraph(lib), lib[c][k].entry.component) < Below(IncludeGraph(lib), c)
  {
    IncludedByContains(lib[c], k);
    BelowShrinks(IncludeGraph(lib), c, lib[c][k].entry.component);
  }

  function NodeName(n: string, inner: string): string {
    n + "_" + inner
  }

  function GroupName(n: string): string {
    "inc_" + n
  }

  /** Members of the group created for an include, in node order. */
  function GroupEntry(n: string, m: Named): string {
    if m.entry.Include? then GroupName(NodeName(n, m.name)) else NodeName(n, m.name)
  }

  function GroupEntries(n: string, nodes: seq<Named>): seq<string> {
    seq(|nodes|, k requires 0 <= k < |nodes| => GroupEntry(n, nodes[k]))
  }

  /** Nodes that the first k entries of component c, expanded under the name n,
      add to the topology. */
  function CreatedUpTo(lib: Library, c: string, n: string, k: nat): set<string>
    requires !HasCycle(IncludeGraph(lib)) && c in lib && k <= |lib[c]|
    decreases Below(IncludeGraph(lib), c), k
  {
    if k == 0 then {} else CreatedUpTo(lib, c, n, k - 1) + Contribution(lib, c, n, k - 1)
  }

  /** Nodes that entry k adds. */
  function Contribution(lib: Library, c: string, n: string, k: nat): set<string>
    requires !HasCycle(IncludeGraph(lib)) && c in lib && k < |lib[c]|
    decreases Below(IncludeGraph(lib), c), k
  {
    var m := lib[c][k];
    match m.entry
    case Plain => {NodeName(n, m.name)}
    case Include(inner) =>
      if inner in lib then
        IncludeShrinks(lib, c, k);
        Created(lib, inner, NodeName(n, m.name))
      else {}
  }

  function Created(lib: Library, c: string, n: string): set<string>
    requires !HasCycle(IncludeGraph(lib)) && c in lib
    decreases Below(IncludeGraph(lib), c), |lib[c]| + 1
  {
    CreatedUpTo(lib, c, n, |lib[c]|)
  }

  /** Groups that the first k entries of component c, expanded under the name n,
      add to the topology, at any depth. */
  function NestedGroups(lib: Library, c: string, n: string, k: nat): set<string>
    requires !HasCycle(IncludeGraph(lib)) && c in lib && k <= |lib[c]|
    decreases Below(IncludeGraph(lib), c), k
  {
    if k == 0 then {} else NestedGroups(lib, c, n, k - 1) + GroupsOfEntry(lib, c, n, k - 1)
  }

  function GroupsOfEntry(lib: Library, c: string, n: string, k: nat): set<string>
    requires !HasCycle(IncludeGraph(lib)) && c in lib && k < |lib[c]|
    decreases Below(IncludeGraph(lib), c), k
  {
    var m := lib[c][k];
    match m.entry
    case Plain => {}
    case Include(inner) =>
      if inner in lib then
        IncludeShrinks(lib, c, k);
        {GroupName(NodeName(n, m.name))} + NestedGroups(lib, inner, NodeName(n, m.name), |lib[inner]|)
      else {}
  }

  /** Entry k of an expanded component has left its traces: a plain node, or the
      groups of a nested expansion. */
  ghost predicate EntryExpanded(lib: Library, groups: map<string, seq<string>>, nodes: set<string>, c: string, n: string, k: nat)
    requires !HasCycle(IncludeGraph(lib)) && c in lib && k < |lib[c]|
    decreases Below(IncludeGraph(lib), c), 0
  {
    var m := lib[c][k];
    match m.entry
    case Plain => NodeName(n, m.name) in nodes
    case Include(inner) =>
      && inner in lib
      && (IncludeShrinks(lib, c, k); Expanded(lib, groups, nodes, inner, NodeName(n, m.name)))
  }

  ghost predicate Expanded(lib: Library, groups: map<string, seq<string>>, nodes: set<string>, c: string, n: string)
    requires !HasCycle(IncludeGraph(lib)) && c in lib
    decreases Below(IncludeGraph(lib), c), 1
  {
    && GroupName(n) in groups && groups[GroupName(n)] == GroupEntries(n, lib[c])
    && forall k | 0 <= k < |lib[c]| :: EntryExpanded(lib, groups, nodes, c, n, k)
  }

  predicate Extends<K, V(==)>(small: map<K, V>, large: map<K, V>) {
    forall g | g in small :: g in large && large[g] == small[g]
  }

  /** Later additions do not disturb an expansion. */
  lemma {:induction false} EntryStaysExpanded(lib: Library, groups: map<string, seq<string>>, nodes: set<string>,
                                              groups': map<string, seq<string>>, nodes': set<string>, c: string, n: string, k: nat)
    requires !HasCycle(IncludeGraph(lib)) && c in lib && k < |lib[c]|
    requires Extends(groups, groups') && nodes <= nodes'
    requires EntryExpanded(lib, groups, nodes, c, n, k)
    ensures EntryExpanded(lib, groups', nodes', c, n, k)
    decreases Below(IncludeGraph(lib), c), 0
  {
    var m := lib[c][k];
    if m.entry.Plain? {
    } else {
      IncludeShrinks(lib, c, k);
      StaysExpanded(lib, groups, nodes, groups', nodes', m.entry.component, NodeName(n, m.name));
    }
  }

  lemma {:induction false} StaysExpanded(lib: Library, groups: map<string, seq<string>>, nodes: set<string>,
                                         groups': map<string, seq<string>>, nodes': set<string>, c: string, n: string)
    requires !HasCycle(IncludeGraph(lib)) && c in lib
    requires Extends(groups, groups') && nodes <= nodes'
    requires Expanded(lib, groups, nodes, c, n)
    ensures Expanded(lib, groups', nodes', c, n)
    decreases Below(IncludeGraph(lib), c), 1
  {
    forall k | 0 <= k < |lib[c]| ensures EntryExpanded(lib, groups', nodes', c, n, k) {
      EntryStaysExpanded(lib, groups, nodes, groups', nodes', c, n, k);
    }
  }

  lemma EntriesStayExpanded(lib: Library, groups: map<string, seq<string>>, nodes: set<string>,
                            groups': map<string, seq<string>>, nodes': set<string>, c: string, n: string, i: nat)
    requires !HasCycle(IncludeGraph(lib)) && c in lib && i <= |lib[c]|
    requires Extends(groups, groups') && nodes <= nodes'
    requires forall k | 0 <= k < i :: EntryExpanded(lib, groups, nodes, c, n, k)
    ensures forall k | 0 <= k < i :: EntryExpanded(lib, groups', nodes', c, n, k)
  {
    forall k | 0 <= k < i ensures EntryExpanded(lib, groups', nodes', c, n, k) {
      EntryStaysExpanded(lib, groups, nodes, groups', nodes', c, n, k);
    }
  }

  function PlainNodes(names: set<string>): map<string, Entry> {
    map x | x in names :: Plain
  }

  lemma PlainNodesAdded(nodes: map<string, Entry>, names: set<string>, more: set<string>)
    ensures nodes + PlainNodes(names) + PlainNodes(more) == nodes + PlainNodes(names + more)
  {
  }

  /** Nodes that are not waiting for an expansion. */
  function PlainKeys(nodes: map<string, Entry>): set<string> {
    set x | x in nodes && nodes[x].Plain?
  }

  /** The topology under construction. */
  class Builder {
    const lib: Library
    var nodes: map<string, Entry>
    var groups: map<string, seq<string>>

    constructor (lib: Library, nodes: map<string, Entry>, groups: map<string, seq<string>>)
      ensures this.lib == lib && this.nodes == nodes && this.groups == groups
    {
      this.lib, this.nodes, this.groups := lib, nodes, groups;
    }

    /** expand_include: the nodes of the component, then the group.  The result
        is false when an error was reported: a duplicate node or group name, or
        an unknown component. */
    method ExpandInclude(n: string, c: string) returns (ok: bool)
      requires !HasCycle(IncludeGraph(lib)) && c in lib
      modifies this`nodes, this`groups
      ensures Extends(old(nodes), nodes) && Extends(old(groups), groups)
      ensures ok ==> Expanded(lib, groups, PlainKeys(nodes), c, n)
      ensures ok ==> nodes == old(nodes) + PlainNodes(Created(lib, c, n))
      decreases Below(IncludeGraph(lib), c), 2
    {
      ok := IncludeNodes(n, c);
      if GroupName(n) in groups {
        return false;
      }
      ghost var before := groups;
      groups := groups[GroupName(n) := GroupEntries(n, lib[c])];
      if ok {
        forall k | 0 <= k < |lib[c]| ensures EntryExpanded(lib, groups, PlainKeys(nodes), c, n, k) {
          EntryStaysExpanded(lib, before, PlainKeys(nodes), groups, PlainKeys(nodes), c, n, k);
        }
      }
    }

    /** include_nodes */
    method IncludeNodes(n: string, c: string) returns (ok: bool)
      requires !HasCycle(IncludeGraph(lib)) && c in lib
      modifies this`nodes, this`groups
      ensures Extends(old(nodes), nodes) && Extends(old(groups), groups)
      ensures ok ==> forall k | 0 <= k < |lib[c]| :: EntryExpanded(lib, groups, PlainKeys(nodes), c, n, k)
      ensures ok ==> nodes == old(nodes) + PlainNodes(Created(lib, c, n))
      decreases Below(IncludeGraph(lib), c), 1
    {
      ok := true;
      for i := 0 to |lib[c]|
        invariant Extends(old(nodes), nodes) && Extends(old(groups), groups)
        invariant ok ==> forall k | 0 <= k < i :: EntryExpanded(lib, groups, PlainKeys(nodes), c, n, k)
        invariant ok ==> nodes == old(nodes) + PlainNodes(CreatedUpTo(lib, c, n, i))
      {
        ghost var groups0, nodes0 := groups, nodes;
        var added := IncludeNode(n, c, i);
        if ok {
          EntriesStayExpanded(lib, groups0, PlainKeys(nodes0), groups, PlainKeys(nodes), c, n, i);
        }
        PlainNodesAdded(old(nodes), CreatedUpTo(lib, c, n, i), Contribution(lib, c, n, i));
        ok := ok && added;
      }
    }

    /** One entry of the component. */
    method IncludeNode(n: string, c: string, k: nat) returns (ok: bool)
      requires !HasCycle(IncludeGraph(lib)) && c in lib && k < |lib[c]|
      modifies this`nodes, this`groups
      ensures Extends(old(nodes), nodes) && Extends(old(groups), groups)
      ensures ok ==> EntryExpanded(lib, groups, PlainKeys(nodes), c, n, k)
      ensures ok ==> nodes == old(nodes) + PlainNodes(Contribution(lib, c, n, k))
      decreases Below(IncludeGraph(lib), c), 0
    {
      var m := lib[c][k];
      if NodeName(n, m.name) in nodes {
        return false;
      }
      match m.entry {
        case Plain =>
          nodes := nodes[NodeName(n, m.name) := Plain];
          ok := true;
        case Include(inner) =>
          if inner !in lib {
            return false;
          }
          IncludeShrinks(lib, c, k);
          ok := ExpandInclude(NodeName(n, m.name), inner);
      }
    }

    /** expand_components: every node with an include request is taken out of the
        topology and expanded. */
    method ExpandComponents(requests: seq<string>) returns (ok: bool)
      requires !HasCycle(IncludeGraph(lib))
      requires Distinct(requests)
      requires forall n :: n in requests <==> n in nodes && nodes[n].Include?
      modifies this`nodes, this`groups
      ensures Extends(old(groups), groups)
      ensures ok ==> forall n | n in requests ::
                old(nodes)[n].component in lib && Expanded(lib, groups, nodes.Keys, old(nodes)[n].component, n)
      ensures ok ==> forall x | x in nodes :: nodes[x].Plain?
    {
      ok := true;
      for i := 0 to |requests|
        invariant Extends(old(groups), groups)
        invariant forall j | i <= j < |requests| :: requests[j] in nodes && nodes[requests[j]] == old(nodes)[requests[j]]
        invariant ok ==> forall j | 0 <= j < i :: RequestDone(old(nodes), requests[j])
        invariant ok ==> forall x | x in nodes && nodes[x].Include? :: x in requests[i..]
      {
        var n := requests[i];
        assert n in requests;
        var c := nodes[n].component;
        ghost var groups0, plain0 := groups, PlainKeys(nodes);
        nodes := nodes - {n};
        assert plain0 <= PlainKeys(nodes);
        var done := false;
        if c in lib {
          done := ExpandInclude(n, c);
        }
        if ok && done {
          forall j | 0 <= j < i ensures RequestDone(old(nodes), requests[j]) {
            StaysExpanded(lib, groups0, plain0, groups, PlainKeys(nodes), old(nodes)[requests[j]].component, requests[j]);
          }
        }
        ok := ok && done;
      }
      if ok {
        assert PlainKeys(nodes) == nodes.Keys;
      }
    }

    ghost predicate RequestDone(original: map<string, Entry>, n: string)
      requires !HasCycle(IncludeGraph(lib))
      reads this
    {
      && n in original && original[n].Include? && original[n].component in lib
      && Expanded(lib, groups, PlainKeys(nodes), original[n].component, n)
    }
  }

  // ----- the created groups collect the created nodes

  function AsGroups(groups: map<string, seq<string>>): GroupTable {
    map g | g in groups :: Group(NodeGroup, groups[g], None, None, None, false)
  }

  function AsTopology(groups: map<string, seq<string>>, nodes: set<string>): Topology {
    Topology(AsGroups(groups), map[NodeGroup := nodes])
  }

  /** What a group stands for when the expansion behind it created some nodes and
      some nested groups: the nodes, the nested groups that are names of nodes,
      and whatever is in a group with the name of a created node. */
  ghost predicate StandsFor(t: Topology, created: set<string>, nested: set<string>, x: string)
    requires !HasCycle(Membership(t.groups))
  {
    || x in created
    || (x in nested && IsObject(t, NodeGroup, x))
    || exists m :: m in created && m in t.groups && x in Members(t, m, NodeGroup)
  }

  lemma StandsForUnion(t: Topology, created: set<string>, nested: set<string>, created': set<string>, nested': set<string>, x: string)
    requires !HasCycle(Membership(t.groups))
    ensures StandsFor(t, created + created', nested + nested', x) <==>
            StandsFor(t, created, nested, x) || StandsFor(t, created', nested', x)
  {
  }

  ghost predicate EntryStandsFor(lib: Library, t: Topology, c: string, n: string, k: nat, x: string)
    requires !HasCycle(IncludeGraph(lib)) && c in lib && k < |lib[c]|
    requires !HasCycle(Membership(t.groups))
  {
    StandsFor(t, Contribution(lib, c, n, k), GroupsOfEntry(lib, c, n, k), x)
  }

  lemma {:induction false} SomeEntryStandsFor(lib: Library, t: Topology, c: string, n: string, k: nat, x: string)
    requires !HasCycle(IncludeGraph(lib)) && c in lib && k <= |lib[c]|
    requires !HasCycle(Membership(t.groups))
    ensures StandsFor(t, CreatedUpTo(lib, c, n, k), NestedGroups(lib, c, n, k), x) <==>
            exists i :: 0 <= i < k && EntryStandsFor(lib, t, c, n, i, x)
    decreases k
  {
    if k == 0 {
    } else {
      SomeEntryStandsFor(lib, t, c, n, k - 1, x);
      StandsForUnion(t, CreatedUpTo(lib, c, n, k - 1), NestedGroups(lib, c, n, k - 1),
                     Contribution(lib, c, n, k - 1), GroupsOfEntry(lib, c, n, k - 1), x);
      assert EntryStandsFor(lib, t, c, n, k - 1, x) <==>
             StandsFor(t, Contribution(lib, c, n, k - 1), GroupsOfEntry(lib, c, n, k - 1), x);
    }
  }

  /** Member k of the group of an expanded component stands for what entry k
      added. */
  lemma {:induction false} EntryMembersExact(lib: Library, groups: map<string, seq<string>>, nodes: set<string>,
                                             c: string, n: string, k: nat, x: string)
    requires !HasCycle(IncludeGraph(lib)) && c in lib && k < |lib[c]|
    requires EntryExpanded(lib, groups, nodes, c, n, k)
    requires !HasCycle(Membership(AsGroups(groups)))
    ensures var t := AsTopology(groups, nodes);
            Yields(t, NodeGroup, GroupEntry(n, lib[c][k]), x) <==> EntryStandsFor(lib, t, c, n, k, x)
    decreases Below(IncludeGraph(lib), c), 0
  {
    var m, t := lib[c][k], AsTopology(groups, nodes);
    var member := GroupEntry(n, m);
    MembersExact(t, member, NodeGroup, x);
    match m.entry
    case Plain =>
      assert Contribution(lib, c, n, k) == {member} && GroupsOfEntry(lib, c, n, k) == {};
    case Include(inner) =>
      IncludeShrinks(lib, c, k);
      var name := NodeName(n, m.name);
      MembersOfInclude(lib, groups, nodes, inner, name, x);
      StandsForUnion(t, {}, {member}, Created(lib, inner, name), NestedGroups(lib, inner, name, |lib[inner]|), x);
      assert {} + Created(lib, inner, name) == Contribution(lib, c, n, k);
  }

  /** The recursive members of the group of an include, in every lab: the created
      nodes, plus what clashes of names between nodes and groups bring in. */
  lemma {:induction false} MembersOfInclude(lib: Library, groups: map<string, seq<string>>, nodes: set<string>,
                                            c: string, n: string, x: string)
    requires !HasCycle(IncludeGraph(lib)) && c in lib
    requires Expanded(lib, groups, nodes, c, n)
    requires !HasCycle(Membership(AsGroups(groups)))
    ensures var t := AsTopology(groups, nodes);
            x in Members(t, GroupName(n), NodeGroup) <==>
            StandsFor(t, Created(lib, c, n), NestedGroups(lib, c, n, |lib[c]|), x)
    decreases Below(IncludeGraph(lib), c), 1
  {
    var t := AsTopology(groups, nodes);
    var members := t.groups[GroupName(n)].members;
    MembersFromExact(t, GroupName(n), NodeGroup, 0, x);
    SomeEntryStandsFor(lib, t, c, n, |lib[c]|, x);
    forall k | 0 <= k < |lib[c]|
      ensures members[k] == GroupEntry(n, lib[c][k])
      ensures Yields(t, NodeGroup, members[k], x) <==> EntryStandsFor(lib, t, c, n, k, x)
    {
      assert EntryExpanded(lib, groups, nodes, c, n, k);
      EntryMembersExact(lib, groups, nodes, c, n, k, x);
    }
  }

  /** Every nested group that is also the name of a node, and every member of a
      group that has the name of a created node, is a created node anyway. */
  ghost predicate NamesHarmless(t: Topology, created: set<string>, nested: set<string>)
    requires !HasCycle(Membership(t.groups))
  {
    && (forall g | g in nested && IsObject(t, NodeGroup, g) :: g in created)
    && forall m, x | m in created && m in t.groups && x in Members(t, m, NodeGroup) :: x in created
  }

  /** The members of the group of an include, nested groups included, are exactly
      the nodes its expansion created if and only if clashes of names are
      harmless. */
  lemma MembersAreCreated(lib: Library, groups: map<string, seq<string>>, nodes: set<string>, c: string, n: string)
    requires !HasCycle(IncludeGraph(lib)) && c in lib
    requires Expanded(lib, groups, nodes, c, n)
    requires !HasCycle(Membership(AsGroups(groups)))
    ensures var t := AsTopology(groups, nodes);
            (forall x :: x in Members(t, GroupName(n), NodeGroup) <==> x in Created(lib, c, n)) <==>
            NamesHarmless(t, Created(lib, c, n), NestedGroups(lib, c, n, |lib[c]|))
  {
    var t := AsTopology(groups, nodes);
    var created, nested := Created(lib, c, n), NestedGroups(lib, c, n, |lib[c]|);
    forall x ensures x in Members(t, GroupName(n), NodeGroup) <==> StandsFor(t, created, nested, x) {
      MembersOfInclude(lib, groups, nodes, c, n, x);
    }
    assert NamesHarmless(t, created, nested) <==> forall x :: StandsFor(t, created, nested, x) <==> x in created;
  }

  /** An expansion is complete: its nodes and groups are in the topology. */
  lemma {:induction false} ExpansionIsThere(lib: Library, groups: map<string, seq<string>>, nodes: set<string>,
                                            c: string, n: string, k: nat)
    requires !HasCycle(IncludeGraph(lib)) && c in lib && k <= |lib[c]|
    requires Expanded(lib, groups, nodes, c, n)
    ensures CreatedUpTo(lib, c, n, k) <= nodes && NestedGroups(lib, c, n, k) <= groups.Keys
    decreases Below(IncludeGraph(lib), c), k
  {
    if k == 0 {
    } else {
      ExpansionIsThere(lib, groups, nodes, c, n, k - 1);
      var m := lib[c][k - 1];
      assert EntryExpanded(lib, groups, nodes, c, n, k - 1);
      if m.entry.Include? {
        IncludeShrinks(lib, c, k - 1);
        var inner := m.entry.component;
        assert Expanded(lib, groups, nodes, inner, NodeName(n, m.name));
        ExpansionIsThere(lib, groups, nodes, inner, NodeName(n, m.name), |lib[inner]|);
        assert Contribution(lib, c, n, k - 1) == CreatedUpTo(lib, inner, NodeName(n, m.name), |lib[inner]|);
      }
    }
  }

  /** In particular when no node has the name of a group. */
  lemma DisjointNamesHarmless(lib: Library, groups: map<string, seq<string>>, nodes: set<string>, c: string, n: string)
    requires !HasCycle(IncludeGraph(lib)) && c in lib
    requires Expanded(lib, groups, nodes, c, n)
    requires groups.Keys !! nodes && !HasCycle(Membership(AsGroups(groups)))
    ensures NamesHarmless(AsTopology(groups, nodes), Created(lib, c, n), NestedGroups(lib, c, n, |lib[c]|))
    ensures forall x :: x in Members(AsTopology(groups, nodes), GroupName(n), NodeGroup) <==> x in Created(lib, c, n)
  {
    ExpansionIsThere(lib, groups, nodes, c, n, |lib[c]|);
    MembersAreCreated(lib, groups, nodes, c, n);
  }

  // ----- a lab with clashes of names

  /** A pod with one rack of one leaf. */
  const PodLibrary: Library := map["pod" := [Named("rack", Include("rack"))], "rack" := [Named("leaf", Plain)]]

  /** The pod is included as p, and a group has the name of the leaf. */
  const PodGroups: map<string, seq<string>> :=
    map["inc_p" := ["inc_p_rack"], "inc_p_rack" := ["p_rack_leaf"], "p_rack_leaf" := ["x"]]

  /** A node has the name of the group of the rack. */
  const PodNodes := {"p_rack_leaf", "inc_p_rack", "x"}

  lemma PodAcyclic()
    ensures !HasCycle(IncludeGraph(PodLibrary)) && !HasCycle(Membership(AsGroups(PodGroups)))
  {
    assert IncludedBy(PodLibrary["pod"]) == ["rack"] && IncludedBy(PodLibrary["rack"]) == [];
    RankedIsAcyclic(IncludeGraph(PodLibrary), (c: string) => if c == "pod" then 1 else 0);
    RankedIsAcyclic(Membership(AsGroups(PodGroups)),
                    (g: string) => if g == "inc_p" then 3 else if g == "inc_p_rack" then 2 else if g == "p_rack_leaf" then 1 else 0);
  }

  lemma PodNames()
    ensures GroupName("p") == "inc_p" && NodeName("p", "rack") == "p_rack"
    ensures GroupName("p_rack") == "inc_p_rack" && NodeName("p_rack", "leaf") == "p_rack_leaf"
  {
  }

  lemma PodExpanded()
    requires !HasCycle(IncludeGraph(PodLibrary))
    ensures Expanded(PodLibrary, PodGroups, PodNodes, "pod", "p")
  {
    PodNames();
    assert GroupEntries("p_rack", PodLibrary["rack"]) == ["p_rack_leaf"];
    assert GroupEntries("p", PodLibrary["pod"]) == ["inc_p_rack"];
    assert EntryExpanded(PodLibrary, PodGroups, PodNodes, "rack", "p_rack", 0);
    assert EntryExpanded(PodLibrary, PodGroups, PodNodes, "pod", "p", 0);
  }

  lemma PodCreated()
    requires !HasCycle(IncludeGraph(PodLibrary))
    ensures Created(PodLibrary, "pod", "p") == {"p_rack_leaf"}
    ensures "inc_p_rack" in NestedGroups(PodLibrary, "pod", "p", 1)
  {
    PodNames();
    assert Contribution(PodLibrary, "rack", "p_rack", 0) == {"p_rack_leaf"};
    assert CreatedUpTo(PodLibrary, "rack", "p_rack", 1) == {"p_rack_leaf"};
    assert Contribution(PodLibrary, "pod", "p", 0) == Created(PodLibrary, "rack", "p_rack");
    assert GroupsOfEntry(PodLibrary, "pod", "p", 0) >= {"inc_p_rack"};
  }

  /** Both clashes bring a node into the group of the pod that the expansion did
      not create. */
  lemma NameClashLab()
    ensures var t := AsTopology(PodGroups, PodNodes);
            && !HasCycle(IncludeGraph(PodLibrary)) && !HasCycle(Membership(t.groups))
            && Expanded(PodLibrary, PodGroups, PodNodes, "pod", "p")
            && Created(PodLibrary, "pod", "p") == {"p_rack_leaf"}
            && "inc_p_rack" in Members(t, "inc_p", NodeGroup) && "x" in Members(t, "inc_p", NodeGroup)
  {
    var t := AsTopology(PodGroups, PodNodes);
    PodAcyclic();
    PodExpanded();
    PodCreated();
    PodNames();
    MembersOfInclude(PodLibrary, PodGroups, PodNodes, "pod", "p", "inc_p_rack");
    assert t.groups["p_rack_leaf"].members[0] == "x" && Yields(t, NodeGroup, "x", "x");
    MembersFromExact(t, "p_rack_leaf", NodeGroup, 0, "x");
    MembersOfInclude(PodLibrary, PodGroups, PodNodes, "pod", "p", "x");
  }
}
