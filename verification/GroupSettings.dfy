/** Settings that nodes take from their groups (netsim/augment/groups.py): custom
    configuration templates, collected from less specific to more specific
    groups and then cleaned up, and device types. */
module GroupSettings {
  import opened Graphs
  import opened Groups
  import opened Options
  import opened Sequences

  // ----- templates in group order

  /** Group g pushes its templates into the node. */
  predicate Applies(t: Topology, g: string, node: string)
    requires !HasCycle(Membership(t.groups))
  {
    g in t.groups && t.groups[g].config.Some? && (g == "all" || node in Members(t, g, NodeGroup))
  }

  /** Phase 1 for one node: groups later in the order go in front. */
  function Collect(t: Topology, order: seq<string>, node: string, own: seq<string>): seq<string>
    requires !HasCycle(Membership(t.groups))
  {
    if order == [] then own else
      Collect(t, order[1..], node, if Applies(t, order[0], node) then t.groups[order[0]].config.value + own else own)
  }

  lemma {:induction false} CollectSnoc(t: Topology, order: seq<string>, g: string, node: string, own: seq<string>)
    requires !HasCycle(Membership(t.groups))
    ensures var before := Collect(t, order, node, own);
            Collect(t, order + [g], node, own) ==
            if Applies(t, g, node) then t.groups[g].config.value + before else before
  {
    if order == [] {
    } else {
      assert (order + [g])[1..] == order[1..] + [g];
      CollectSnoc(t, order[1..], g, node, if Applies(t, order[0], node) then t.groups[order[0]].config.value + own else own);
    }
  }

  /** The groups whose templates the node gets, in the order in which they
      appear in the result. */
  function Blocks(t: Topology, order: seq<string>, node: string): seq<string>
    requires !HasCycle(Membership(t.groups))
  {
    if order == [] then [] else
      Blocks(t, order[1..], node) + if Applies(t, order[0], node) then [order[0]] else []
  }

  function Flatten(t: Topology, blocks: seq<string>): seq<string>
    requires forall g | g in blocks :: g in t.groups && t.groups[g].config.Some?
  {
    if blocks == [] then [] else t.groups[blocks[0]].config.value + Flatten(t, blocks[1..])
  }

  lemma {:induction false} FlattenSnoc(t: Topology, blocks: seq<string>, g: string)
    requires forall b | b in blocks + [g] :: b in t.groups && t.groups[b].config.Some?
    ensures (forall b | b in blocks :: b in blocks + [g])
    ensures Flatten(t, blocks + [g]) == Flatten(t, blocks) + t.groups[g].config.value
  {
    assert forall b | b in blocks :: b in blocks + [g];
    if blocks != [] {
      assert (blocks + [g])[1..] == blocks[1..] + [g];
      assert forall b | b in blocks[1..] + [g] :: b in blocks + [g];
      FlattenSnoc(t, blocks[1..], g);
    } else {
      assert g in blocks + [g];
    }
  }

  lemma {:induction false} BlocksApply(t: Topology, order: seq<string>, node: string)
    requires !HasCycle(Membership(t.groups))
    ensures forall g :: g in Blocks(t, order, node) <==> g in order && Applies(t, g, node)
  {
    if order == [] {
    } else {
      BlocksApply(t, order[1..], node);
    }
  }

  /** Phase 1 lays the blocks of the groups one after the other, the node's own
      templates last. */
  lemma {:induction false} CollectIsBlocks(t: Topology, order: seq<string>, node: string, own: seq<string>)
    requires !HasCycle(Membership(t.groups))
    ensures forall g | g in Blocks(t, order, node) :: g in t.groups && t.groups[g].config.Some?
    ensures Collect(t, order, node, own) == Flatten(t, Blocks(t, order, node)) + own
  {
    BlocksApply(t, order, node);
    if order == [] {
    } else {
      var g := order[0];
      var own' := if Applies(t, g, node) then t.groups[g].config.value + own else own;
      CollectIsBlocks(t, order[1..], node, own');
      if Applies(t, g, node) {
        var rest := Blocks(t, order[1..], node);
        assert Blocks(t, order, node) == rest + [g];
        FlattenSnoc(t, rest, g);
        ConcatAssociative(Flatten(t, rest), t.groups[g].config.value, own);
      } else {
        assert Blocks(t, order, node) == Blocks(t, order[1..], node);
      }
    }
  }

  ghost predicate Precedes(s: seq<string>, a: string, b: string) {
    exists i, j :: 0 <= i < j < |s| && s[i] == a && s[j] == b
  }

  lemma {:induction false} BlocksReverseOrder(t: Topology, order: seq<string>, node: string, i: nat, j: nat)
    requires !HasCycle(Membership(t.groups))
    requires i < j < |order| && Applies(t, order[i], node) && Applies(t, order[j], node)
    ensures Precedes(Blocks(t, order, node), order[j], order[i])
  {
    var rest := Blocks(t, order[1..], node);
    if i == 0 {
      BlocksApply(t, order[1..], node);
      assert order[j] in order[1..] by { assert order[1..][j - 1] == order[j]; }
      var k :| 0 <= k < |rest| && rest[k] == order[j];
      assert Blocks(t, order, node)[k] == order[j] && Blocks(t, order, node)[|rest|] == order[0];
    } else {
      BlocksReverseOrder(t, order[1..], node, i - 1, j - 1);
      var k, l :| 0 <= k < l < |rest| && rest[k] == order[j] && rest[l] == order[i];
      assert Blocks(t, order, node)[k] == order[j] && Blocks(t, order, node)[l] == order[i];
    }
  }

  /** Less specific first: the templates of a group precede those of the groups
      nested in it, at any depth. */
  lemma EnclosingGroupFirst(t: Topology, node: string, a: string, b: string)
    requires !HasCycle(Membership(t.groups))
    requires Reaches(Membership(t.groups), a, b)
    requires Applies(t, a, node) && Applies(t, b, node)
    ensures Precedes(Blocks(t, GroupOrder(t.groups), node), a, b)
  {
    var order := GroupOrder(t.groups);
    var i, j := NestedGroupEarlier(t, order, a, b);
    BlocksReverseOrder(t, order, node, i, j);
  }

  lemma NestedGroupEarlier(t: Topology, order: seq<string>, a: string, b: string) returns (i: nat, j: nat)
    requires !HasCycle(Membership(t.groups)) && order == GroupOrder(t.groups)
    requires a in t.groups && b in t.groups && Reaches(Membership(t.groups), a, b)
    ensures i < j < |order| && order[i] == b && order[j] == a
  {
    GroupOrderProperties(t.groups);
    assert a in order;
    j :| 0 <= j < |order| && order[j] == a;
    assert b in order[..j];
    i :| 0 <= i < j && order[i] == b;
  }

  /** The templates of a node are its own and those of the groups that contain it,
      directly or through nested groups; the group "all" contains every node. */
  lemma TemplatesExact(t: Topology, node: string, own: seq<string>, c: string)
    requires !HasCycle(Membership(t.groups))
    ensures c in Collect(t, GroupOrder(t.groups), node, own) <==>
            || c in own
            || exists g :: g in t.groups && t.groups[g].config.Some? && c in t.groups[g].config.value
                           && (g == "all" || Contains(t, NodeGroup, g, node))
  {
    var order := GroupOrder(t.groups);
    CollectIsBlocks(t, order, node, own);
    BlocksApply(t, order, node);
    GroupOrderProperties(t.groups);
    FlattenExact(t, Blocks(t, order, node), c);
    forall g | g in t.groups && g != "all" ensures node in Members(t, g, NodeGroup) <==> Contains(t, NodeGroup, g, node) {
      MembersExact(t, g, NodeGroup, node);
    }
  }

  lemma {:induction false} FlattenExact(t: Topology, blocks: seq<string>, c: string)
    requires forall g | g in blocks :: g in t.groups && t.groups[g].config.Some?
    ensures c in Flatten(t, blocks) <==> exists g :: g in blocks && c in t.groups[g].config.value
  {
    if blocks == [] {
    } else {
      assert forall g | g in blocks[1..] :: g in blocks;
      assert forall g | g in blocks :: g == blocks[0] || g in blocks[1..];
      FlattenExact(t, blocks[1..], c);
    }
  }

  // ----- removal of prior templates

  predicate IsRemoval(c: string) {
    c != [] && c[0] == '-'
  }

  /** Template i of the collected list survives. */
  predicate Keeps(config: seq<string>, i: nat)
    requires i < |config|
  {
    !IsRemoval(config[i]) && forall j | i < j < |config| :: config[j] != "-" && config[j] != "-" + config[i]
  }

  function Survivors(config: seq<string>): seq<string> {
    if config == [] then [] else
      (if Keeps(config, 0) then [config[0]] else []) + Survivors(config[1..])
  }

  function Without(s: seq<string>, x: string): seq<string> {
    if s == [] then [] else (if s[0] != x then [s[0]] else []) + Without(s[1..], x)
  }

  lemma KeepsSnoc(config: seq<string>, c: string, i: nat)
    requires i < |config|
    ensures Keeps(config + [c], i) <==> Keeps(config, i) && c != "-" && c != "-" + config[i]
  {
    var longer := config + [c];
    assert longer[i] == config[i] && longer[|config|] == c;
    assert forall j | i < j < |config| :: longer[j] == config[j];
  }

  lemma {:induction false} SurvivorsSnoc(config: seq<string>, c: string)
    requires c != []
    ensures Survivors(config + [c]) ==
            if c == "-" then []
            else if c[0] == '-' then Without(Survivors(config), c[1..])
            else Survivors(config) + [c]
  {
    if config != [] {
      assert (config + [c])[1..] == config[1..] + [c];
      SurvivorsSnoc(config[1..], c);
      KeepsSnoc(config, c, 0);
      assert c == [c[0]] + c[1..];
      var first, rest := if Keeps(config, 0) then [config[0]] else [], Survivors(config[1..]);
      if c[0] == '-' && first != [] {
        assert (first + rest)[1..] == rest;
      } else if c[0] == '-' {
        assert first + rest == rest;
      } else {
        ConcatAssociative(first, rest, [c]);
      }
    } else {
      assert config + [c] == [c];
      assert Survivors([c]) == if IsRemoval(c) then [] else [c];
    }
  }

  method RemoveAll(list: seq<string>, x: string) returns (kept: seq<string>)
    ensures kept == Without(list, x)
  {
    kept := [];
    for i := 0 to |list|
      invariant kept + Without(list[i..], x) == Without(list, x)
    {
      if list[i] != x {
        kept := kept + [list[i]];
      }
    }
  }

  /** Phase 2 for one node; an empty template name is a crash in the source. */
  method ProcessRemovals(config: seq<string>) returns (list: seq<string>)
    requires "" !in config
    ensures list == Survivors(config)
  {
    list := [];
    for i := 0 to |config|
      invariant list == Survivors(config[..i])
    {
      var c := config[i];
      assert c in config;
      assert config[..i + 1] == config[..i] + [c];
      SurvivorsSnoc(config[..i], c);
      if c == "-" {
        list := [];
      } else if c[0] == '-' {
        list := RemoveAll(list, c[1..]);
      } else {
        list := list + [c];
      }
    }
    assert config[..|config|] == config;
  }

  // ----- the shared topology

  ghost predicate ProperNames(t: Topology) {
    forall g | g in t.groups && t.groups[g].config.Some? :: "" !in t.groups[g].config.value
  }

  lemma {:induction false} CollectProper(t: Topology, order: seq<string>, node: string, own: seq<string>)
    requires !HasCycle(Membership(t.groups)) && ProperNames(t) && "" !in own
    ensures "" !in Collect(t, order, node, own)
  {
    if order == [] {
    } else {
      CollectProper(t, order[1..], node, if Applies(t, order[0], node) then t.groups[order[0]].config.value + own else own);
    }
  }

  /** The template list of a node; a node without the attribute has none. */
  function ConfigOf(config: map<string, seq<string>>, node: string): seq<string> {
    if node in config then config[node] else []
  }

  class Lab {
    var topology: Topology
    var nodes: set<string>
    var config: map<string, seq<string>>
    var device: map<string, string>

    constructor (topology: Topology, nodes: set<string>, config: map<string, seq<string>>, device: map<string, string>)
      ensures this.topology == topology && this.nodes == nodes && this.config == config && this.device == device
    {
      this.topology, this.nodes, this.config, this.device := topology, nodes, config, device;
    }

    /** node_config_templates: collect in group order, drop the group attributes,
        then honour the removals. */
    method NodeConfigTemplates()
      requires !HasCycle(Membership(topology.groups)) && ProperNames(topology)
      requires config.Keys <= nodes && forall n | n in config :: "" !in config[n]
      modifies this`topology, this`config
      ensures var t := old(topology);
              forall n | n in nodes ::
                var final := Survivors(Collect(t, GroupOrder(t.groups), n, ConfigOf(old(config), n)));
                ConfigOf(config, n) == final && (n in config <==> final != [])
      ensures topology == old(topology).(groups := map g | g in old(topology).groups :: old(topology).groups[g].(config := None))
    {
      ghost var before := config;
      CollectTemplates();
      forall n | n in nodes {
        CollectProper(topology, GroupOrder(topology.groups), n, ConfigOf(before, n));
      }
      topology := topology.(groups := map g | g in topology.groups :: topology.groups[g].(config := None));
      CleanTemplates();
    }

    /** Phase 1. */
    method CollectTemplates()
      requires !HasCycle(Membership(topology.groups)) && config.Keys <= nodes
      modifies this`config
      ensures config.Keys <= nodes
      ensures forall n | n in nodes ::
                ConfigOf(config, n) == Collect(topology, GroupOrder(topology.groups), n, ConfigOf(old(config), n))
    {
      var order := ReverseTopsort(topology.groups);
      CollectAlong(order);
    }

    method CollectAlong(order: seq<string>)
      requires !HasCycle(Membership(topology.groups)) && config.Keys <= nodes
      modifies this`config
      ensures config.Keys <= nodes
      ensures forall n | n in nodes :: ConfigOf(config, n) == Collect(topology, order, n, ConfigOf(old(config), n))
    {
      for k := 0 to |order|
        invariant config.Keys <= nodes
        invariant forall n | n in nodes :: ConfigOf(config, n) == Collect(topology, order[..k], n, ConfigOf(old(config), n))
      {
        assert order[..k + 1] == order[..k] + [order[k]];
        forall n | n in nodes
          ensures var before := Collect(topology, order[..k], n, ConfigOf(old(config), n));
                  Collect(topology, order[..k + 1], n, ConfigOf(old(config), n)) ==
                  (if Applies(topology, order[k], n) then topology.groups[order[k]].config.value else []) + before
        {
          CollectSnoc(topology, order[..k], order[k], n, ConfigOf(old(config), n));
        }
        PushTemplates(order[k]);
      }
      assert order[..|order|] == order;
    }

    /** One group of phase 1. */
    method PushTemplates(g: string)
      requires !HasCycle(Membership(topology.groups)) && config.Keys <= nodes
      modifies this`config
      ensures config.Keys <= nodes
      ensures forall n | n in nodes ::
                ConfigOf(config, n) == (if Applies(topology, g, n) then topology.groups[g].config.value else []) + ConfigOf(old(config), n)
    {
      if g !in topology.groups || topology.groups[g].config.None? {
        return;
      }
      var members := GroupMembers(topology, g, NodeGroup);
      if members == [] && g != "all" {
        return;
      }
      var rest := nodes;
      while rest != {}
        invariant rest <= nodes && config.Keys <= nodes
        invariant forall n | n in rest :: ConfigOf(config, n) == ConfigOf(old(config), n)
        invariant forall n | n in nodes - rest ::
                    ConfigOf(config, n) == (if Applies(topology, g, n) then topology.groups[g].config.value else []) + ConfigOf(old(config), n)
      {
        var n :| n in rest;
        if n in members || g == "all" {
          config := config[n := topology.groups[g].config.value + ConfigOf(config, n)];
        }
        rest := rest - {n};
      }
    }

    /** Phase 2: a node left without templates loses the attribute. */
    method CleanTemplates()
      requires config.Keys <= nodes && forall n | n in nodes :: "" !in ConfigOf(config, n)
      modifies this`config
      ensures forall n | n in nodes ::
                && ConfigOf(config, n) == Survivors(ConfigOf(old(config), n))
                && (n in config <==> Survivors(ConfigOf(old(config), n)) != [])
    {
      var rest := nodes;
      while rest != {}
        invariant rest <= nodes
        invariant forall n | n in rest :: (n in config <==> n in old(config)) && ConfigOf(config, n) == ConfigOf(old(config), n)
        invariant forall n | n in nodes - rest ::
                    && ConfigOf(config, n) == Survivors(ConfigOf(old(config), n))
                    && (n in config <==> Survivors(ConfigOf(old(config), n)) != [])
      {
        var n :| n in rest;
        if n in config {
          var list := ProcessRemovals(config[n]);
          config := if list == [] then config - {n} else config[n := list];
        }
        rest := rest - {n};
      }
    }

    /** The device half of copy_group_device_module.  The result is false when a
        group with a device has no members and is not a default group. */
    method CopyGroupDevices() returns (ok: bool)
      requires !HasCycle(Membership(topology.groups))
      modifies this`device
      ensures forall n | n in nodes ::
                DeviceOf(device, n) == Inherited(topology, GroupOrder(topology.groups), n, DeviceOf(old(device), n))
      ensures ok <==> forall g | g in topology.groups :: DeviceUsable(topology, g)
    {
      var order := ReverseTopsort(topology.groups);
      GroupOrderProperties(topology.groups);
      ok := CopyDevicesAlong(order);
    }

    method CopyDevicesAlong(order: seq<string>) returns (ok: bool)
      requires !HasCycle(Membership(topology.groups))
      requires forall i | 0 <= i < |order| :: order[i] in topology.groups
      modifies this`device
      ensures forall n | n in nodes ::
                DeviceOf(device, n) == Inherited(topology, order, n, DeviceOf(old(device), n))
      ensures ok <==> forall i | 0 <= i < |order| :: DeviceUsable(topology, order[i])
    {
      ok := true;
      for k := 0 to |order|
        invariant forall n | n in nodes ::
                    DeviceOf(device, n) == Inherited(topology, order[..k], n, DeviceOf(old(device), n))
        invariant ok <==> forall i | 0 <= i < k :: DeviceUsable(topology, order[i])
      {
        assert order[..k + 1] == order[..k] + [order[k]];
        forall n {
          DeviceSourceSnoc(topology, order[..k], order[k], n);
        }
        var usable := CopyGroupDevice(order[k]);
        ok := ok && usable;
      }
      assert order[..|order|] == order;
    }

    method CopyGroupDevice(g: string) returns (usable: bool)
      requires !HasCycle(Membership(topology.groups)) && g in topology.groups
      modifies this`device
      ensures usable <==> DeviceUsable(topology, g)
      ensures forall n | n in nodes ::
                DeviceOf(device, n) == if DeviceOf(old(device), n).None? && SetsDevice(topology, g, n) then topology.groups[g].device
                                       else DeviceOf(old(device), n)
    {
      if topology.groups[g].device.None? {
        return true;
      }
      var members := GroupMembers(topology, g, NodeGroup);
      usable := members != [] || topology.groups[g].isDefault;
      if usable {
        SetDevice(members, topology.groups[g].device.value);
      }
    }

    method SetDevice(members: seq<string>, d: string)
      modifies this`device
      ensures forall n | n in nodes ::
                DeviceOf(device, n) == if DeviceOf(old(device), n).None? && n in members then Some(d) else DeviceOf(old(device), n)
    {
      for i := 0 to |members|
        invariant forall n | n in nodes ::
                    DeviceOf(device, n) == if DeviceOf(old(device), n).None? && n in members[..i] then Some(d) else DeviceOf(old(device), n)
      {
        if members[i] in nodes && members[i] !in device {
          device := device[members[i] := d];
        }
      }
    }
  }

  // ----- device types

  function DeviceOf(device: map<string, string>, node: string): Option<string> {
    if node in device then Some(device[node]) else None
  }

  /** A device set on a group must reach a node, unless the group is a default. */
  predicate DeviceUsable(t: Topology, g: string)
    requires !HasCycle(Membership(t.groups))
  {
    g in t.groups && t.groups[g].device.Some? ==> t.groups[g].isDefault || Members(t, g, NodeGroup) != []
  }

  /** The node's own device, or that of the first group that has one for it. */
  function Inherited(t: Topology, order: seq<string>, node: string, own: Option<string>): Option<string>
    requires !HasCycle(Membership(t.groups))
  {
    if own.Some? then own else
      match DeviceSource(t, order, node)
      case Some(g) => t.groups[g].device
      case None => None
  }

  predicate SetsDevice(t: Topology, g: string, node: string)
    requires !HasCycle(Membership(t.groups))
  {
    g in t.groups && t.groups[g].device.Some? && node in Members(t, g, NodeGroup)
  }

  /** The first group of the order that gives the node a device. */
  function DeviceSource(t: Topology, order: seq<string>, node: string): (source: Option<string>)
    requires !HasCycle(Membership(t.groups))
    ensures source.Some? ==> SetsDevice(t, source.value, node)
  {
    if order == [] then None
    else if SetsDevice(t, order[0], node) then Some(order[0])
    else DeviceSource(t, order[1..], node)
  }

  lemma {:induction false} DeviceSourceSnoc(t: Topology, order: seq<string>, g: string, node: string)
    requires !HasCycle(Membership(t.groups))
    ensures DeviceSource(t, order + [g], node) ==
            if DeviceSource(t, order, node).Some? then DeviceSource(t, order, node)
            else if SetsDevice(t, g, node) then Some(g) else None
  {
    if order == [] {
    } else {
      assert (order + [g])[1..] == order[1..] + [g];
      DeviceSourceSnoc(t, order[1..], g, node);
    }
  }

  lemma {:induction false} DeviceSourceFirst(t: Topology, order: seq<string>, node: string, i: nat)
    requires !HasCycle(Membership(t.groups))
    requires i < |order| && SetsDevice(t, order[i], node)
    ensures var source := DeviceSource(t, order, node);
            source.Some? && source.value in order[..i + 1]
  {
    if SetsDevice(t, order[0], node) {
    } else {
      DeviceSourceFirst(t, order[1..], node, i - 1);
      assert order[1..][..i] == order[..i + 1][1..];
    }
  }

  /** A device set on a nested group is never overridden by an enclosing one. */
  lemma NestedDeviceWins(t: Topology, node: string, a: string, b: string)
    requires !HasCycle(Membership(t.groups))
    requires Reaches(Membership(t.groups), a, b)
    requires SetsDevice(t, a, node) && SetsDevice(t, b, node)
    ensures DeviceSource(t, GroupOrder(t.groups), node) != Some(a)
  {
    var order := GroupOrder(t.groups);
    var i, j := NestedGroupEarlier(t, order, a, b);
    DeviceSourceFirst(t, order, node, i);
    GroupOrderProperties(t.groups);
  }

  lemma SetsDeviceExact(t: Topology, g: string, node: string)
    requires !HasCycle(Membership(t.groups))
    ensures SetsDevice(t, g, node) <==> g in t.groups && t.groups[g].device.Some? && Contains(t, NodeGroup, g, node)
  {
    MembersExact(t, g, NodeGroup, node);
  }

  lemma DeviceFound(t: Topology, order: seq<string>, node: string, g: string)
    requires !HasCycle(Membership(t.groups))
    requires g in order && SetsDevice(t, g, node)
    ensures DeviceSource(t, order, node).Some?
  {
    var i :| 0 <= i < |order| && order[i] == g;
    DeviceSourceFirst(t, order, node, i);
  }

  /** A node without a device of its own gets that of a group that contains it,
      directly or through nested groups, and has none exactly when no such group
      sets a device. */
  lemma DeviceExact(t: Topology, node: string)
    requires !HasCycle(Membership(t.groups))
    ensures var d := Inherited(t, GroupOrder(t.groups), node, None);
            && (d.Some? ==> exists g :: g in t.groups && t.groups[g].device == d && Contains(t, NodeGroup, g, node))
            && (d.None? <==> forall g | g in t.groups && t.groups[g].device.Some? :: !Contains(t, NodeGroup, g, node))
  {
    var order := GroupOrder(t.groups);
    GroupOrderProperties(t.groups);
    var source := DeviceSource(t, order, node);
    if source.Some? {
      SetsDeviceExact(t, source.value, node);
    } else {
      forall g | g in t.groups && t.groups[g].device.Some? ensures !Contains(t, NodeGroup, g, node) {
        SetsDeviceExact(t, g, node);
        if SetsDevice(t, g, node) {
          DeviceFound(t, order, node, g);
        }
      }
    }
  }

  /** The node's own device is never replaced. */
  lemma OwnDeviceStays(t: Topology, order: seq<string>, node: string, d: string)
    requires !HasCycle(Membership(t.groups))
    ensures Inherited(t, order, node, Some(d)) == Some(d)
  {
  }
}
