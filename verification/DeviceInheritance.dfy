/** Inheritance between device definitions (netsim/augment/devices.py): a device
    with a parent attribute is replaced, in the shared table, by its parent's
    settings overlaid with its own. */
module DeviceInheritance {
  import opened Boxes
  import opened Graphs
  import opened Options
  import opened Sequences

  type Table = map<string, Value>

  const NOT_INHERITED := {"template", "_meta_device", "docname", "docparent"}

  /** Devices are dictionaries, and a parent attribute is a device name. */
  predicate WellTyped(devices: Table) {
    forall d | d in devices :: devices[d].Box? && ("parent" in devices[d].fields ==> devices[d].fields["parent"].Text?)
  }

  function ParentGraph(devices: Table): Graph<string>
    requires WellTyped(devices)
  {
    map d | d in devices && "parent" in devices[d].fields :: [devices[d].fields["parent"].text]
  }

  /** Looking up a missing device creates an empty one. */
  function DeviceOf(devices: Table, d: string): Value {
    if d in devices then devices[d] else Box(map[])
  }

  /** One inheritance step: p_data is the finished parent. */
  function Inherit(parent: Value, child: Value, p: string): Value
    requires parent.Box? && child.Box?
  {
    Prune(AppendToList(Merge(Without(parent, NOT_INHERITED), Without(child, {"parent"})), "_parents", Text(p)))
  }

  /** The simple recursive definition of a finished device. */
  function Resolved(devices: Table, d: string): (v: Value)
    requires WellTyped(devices) && !HasCycle(ParentGraph(devices))
    ensures v.Box?
    decreases Below(ParentGraph(devices), d)
  {
    var g := ParentGraph(devices);
    if d !in g then DeviceOf(devices, d) else
      var p := g[d][0];
      if p in g then
        BelowShrinks(g, d, p);
        Inherit(Resolved(devices, p), devices[d], p)
      else Inherit(DeviceOf(devices, p), devices[d], p)
  }

  predicate HasParent(v: Value) {
    v.Box? && "parent" in v.fields
  }

  lemma InheritHasNoParent(parent: Value, child: Value, p: string)
    requires parent.Box? && child.Box? && !HasParent(parent)
    ensures Inherit(parent, child, p).Box? && !HasParent(Inherit(parent, child, p))
  {
  }

  lemma InheritIgnoresParent(parent: Value, child: Value, p: string)
    requires parent.Box? && child.Box?
    ensures Inherit(parent, Without(child, {"parent"}), p) == Inherit(parent, child, p)
  {
    assert Without(Without(child, {"parent"}), {"parent"}) == Without(child, {"parent"});
  }

  lemma {:induction false} ResolvedHasNoParent(devices: Table, d: string)
    requires WellTyped(devices) && !HasCycle(ParentGraph(devices))
    ensures !HasParent(Resolved(devices, d))
    decreases Below(ParentGraph(devices), d)
  {
    var g := ParentGraph(devices);
    if d !in g || g[d][0] !in g {
    } else {
      BelowShrinks(g, d, g[d][0]);
      ResolvedHasNoParent(devices, g[d][0]);
    }
  }

  /** While device d is processed without circular parents: every device is as it
      was or finished, except the busy ones, which all descend from d. */
  ghost predicate Underway(original: Table, devices: Table, busy: set<string>, d: string) {
    && WellTyped(original) && WellTyped(devices) && !HasCycle(ParentGraph(original))
    && Settled(original, devices, busy)
    && forall b | b in busy :: Reaches(ParentGraph(original), b, d)
  }

  ghost predicate Settled(original: Table, devices: Table, busy: set<string>)
    requires WellTyped(original) && !HasCycle(ParentGraph(original))
  {
    && original.Keys <= devices.Keys
    && forall x | x in devices && x !in busy :: devices[x] == DeviceOf(original, x) || devices[x] == Resolved(original, x)
  }

  /** Afterwards d is finished as well. */
  ghost predicate Finished(original: Table, devices: Table, busy: set<string>, d: string) {
    && WellTyped(original) && !HasCycle(ParentGraph(original))
    && Settled(original, devices, busy)
    && d in devices && devices[d] == Resolved(original, d)
  }

  lemma MissingIsFinished(original: Table, devices: Table, busy: set<string>, d: string)
    requires Underway(original, devices, busy, d) && d !in devices
    ensures Finished(original, devices[d := Box(map[])], busy, d)
  {
  }

  lemma ParentlessIsFinished(original: Table, devices: Table, busy: set<string>, d: string)
    requires Underway(original, devices, busy, d) && d in devices && !HasParent(devices[d])
    ensures Finished(original, devices, busy, d)
  {
  }

  lemma ParentUnderway(original: Table, devices: Table, busy: set<string>, d: string, p: string)
    requires Underway(original, devices, busy, d)
    requires d in devices && HasParent(devices[d]) && p == devices[d].fields["parent"].text
    ensures Underway(original, devices[d := Without(devices[d], {"parent"})], busy + {d}, p)
    ensures d !in busy && d in original && devices[d] == original[d]
    ensures Resolved(original, d) == Inherit(Resolved(original, p), original[d], p)
  {
    var g := ParentGraph(original);
    ResolvedHasNoParent(original, d);
    EdgeReaches(g, d, p);
    forall b | b in busy ensures Reaches(g, b, p) {
      ReachesTransitive(g, b, d, p);
    }
  }

  lemma InheritedIsFinished(original: Table, start: Table, devices: Table, busy: set<string>, d: string, p: string)
    requires Underway(original, start, busy, d)
    requires d in start && HasParent(start[d]) && p == start[d].fields["parent"].text
    requires Finished(original, devices, busy + {d}, p)
    requires d in devices && devices[d] == Without(start[d], {"parent"})
    ensures devices[p].Box? && Finished(original, devices[d := Inherit(devices[p], devices[d], p)], busy, d)
  {
    ParentUnderway(original, start, busy, d, p);
    InheritIgnoresParent(devices[p], start[d], p);
  }

  /** Devices that still have a parent attribute. */
  function Children(devices: Table): set<string> {
    set d | d in devices && HasParent(devices[d])
  }

  lemma ParentDropped(devices: Table, d: string)
    requires WellTyped(devices) && d in devices && HasParent(devices[d])
    ensures var after := devices[d := Without(devices[d], {"parent"})];
            WellTyped(after) && d in Children(devices) && Children(after) == Children(devices) - {d}
  {
  }

  class DeviceTable {
    var devices: Table

    constructor (devices: Table)
      ensures this.devices == devices
    {
      this.devices := devices;
    }

    /** process_child_device.  The parent attribute is removed before the
        recursive call, so the recursion ends on any table, also on one with
        circular parents.  Without circular parents the device ends up as its
        recursive definition says; original is the table before inheritance,
        busy the devices whose processing has started. */
    method ProcessChildDevice(d: string, ghost original: Table, ghost busy: set<string>)
      requires WellTyped(devices) && WellTyped(original)
      modifies this
      ensures WellTyped(devices)
      ensures d in devices && old(devices).Keys <= devices.Keys
      ensures Children(devices) <= Children(old(devices)) - {d}
      ensures forall x | x in old(devices) && x !in Children(old(devices)) :: devices[x] == old(devices)[x]
      ensures Underway(original, old(devices), busy, d) ==> Finished(original, devices, busy, d)
      decreases Children(devices)
    {
      ghost var start, underway := devices, Underway(original, devices, busy, d);
      if d !in devices {
        if underway {
          MissingIsFinished(original, devices, busy, d);
        }
        devices := devices[d := Box(map[])];
      }
      if "parent" !in devices[d].fields {
        if underway && d in start {
          ParentlessIsFinished(original, devices, busy, d);
        }
        return;
      }
      var p := devices[d].fields["parent"].text;
      if underway {
        ParentUnderway(original, devices, busy, d, p);
      }
      ParentDropped(devices, d);
      devices := devices[d := Without(devices[d], {"parent"})];
      ProcessChildDevice(p, original, busy + {d});
      if underway {
        InheritedIsFinished(original, start, devices, busy, d, p);
      }
      MergeParent(d, p);
    }

    /** Copy the finished parent, drop what is not inherited, overlay the child,
        record the parent and prune. */
    method MergeParent(d: string, p: string)
      requires WellTyped(devices) && d in devices && p in devices && d !in Children(devices) && p !in Children(devices)
      modifies this
      ensures devices == old(devices)[d := Inherit(old(devices)[p], old(devices)[d], p)]
      ensures WellTyped(devices) && Children(devices) == Children(old(devices))
    {
      ghost var parent, child := devices[p], devices[d];
      var merged := Merge(Without(devices[p], NOT_INHERITED), devices[d]);
      assert Without(child, {"parent"}) == child;
      var pruned := RemoveNullValues(AppendToList(merged, "_parents", Text(p)));
      devices := devices[d := pruned];
      InheritHasNoParent(parent, child, p);
    }

    /** process_device_inheritance: no parent attribute is left, whatever the
        parents looked like; without circular parents the outcome does not
        depend on the order in which the table is visited. */
    method ProcessDeviceInheritance(order: seq<string>)
      requires WellTyped(devices)
      requires Elements(order) == devices.Keys
      modifies this
      ensures WellTyped(devices) && Children(devices) == {}
      ensures !HasCycle(ParentGraph(old(devices))) ==>
                forall d | d in old(devices) :: d in devices && devices[d] == Resolved(old(devices), d)
    {
      ghost var original := devices;
      for i := 0 to |order|
        invariant WellTyped(devices) && original.Keys <= devices.Keys
        invariant Children(devices) <= original.Keys - Elements(order[..i])
        invariant !HasCycle(ParentGraph(original)) ==> Settled(original, devices, {})
      {
        assert Elements(order[..i + 1]) == Elements(order[..i]) + {order[i]} by {
          assert order[..i + 1] == order[..i] + [order[i]];
        }
        ProcessChildDevice(order[i], original, {});
      }
      assert order[..|order|] == order;
      if !HasCycle(ParentGraph(original)) {
        forall d | d in original ensures devices[d] == Resolved(original, d) {
          if devices[d] == original[d] {
            assert d !in Children(devices);
          }
        }
      }
    }
  }

  // ----- what a finished device holds

  /** Ancestors of a device, root first. */
  function Ancestors(devices: Table, d: string): seq<string>
    requires WellTyped(devices) && !HasCycle(ParentGraph(devices))
    decreases Below(ParentGraph(devices), d)
  {
    var g := ParentGraph(devices);
    if d !in g then [] else
      var p := g[d][0];
      (if p in g then
         BelowShrinks(g, d, p);
         Ancestors(devices, p)
       else []) + [p]
  }

  lemma {:induction false} AncestorsReachable(devices: Table, d: string, a: string)
    requires WellTyped(devices) && !HasCycle(ParentGraph(devices))
    requires a in Ancestors(devices, d)
    ensures Reaches(ParentGraph(devices), d, a)
    decreases Below(ParentGraph(devices), d)
  {
    var g := ParentGraph(devices);
    var p := g[d][0];
    EdgeReaches(g, d, p);
    if a == p {
    } else {
      BelowShrinks(g, d, p);
      AncestorsReachable(devices, p, a);
      ReachesTransitive(g, d, p, a);
    }
  }

  function AsItems(names: seq<string>): seq<Value> {
    seq(|names|, i requires 0 <= i < |names| => Text(names[i]))
  }

  lemma AppendedParents(parent: Value, child: Value, p: string, items: seq<Value>)
    requires parent.Box? && child.Box? && "_parents" !in child.fields
    requires if "_parents" in parent.fields then parent.fields["_parents"] == List(items) else items == []
    requires Text(p) !in items
    ensures var v := Inherit(parent, child, p);
            "_parents" in v.fields && v.fields["_parents"] == List(items + [Text(p)])
  {
    var merged := Merge(Without(parent, NOT_INHERITED), Without(child, {"parent"}));
    var appended := AppendToList(merged, "_parents", Text(p));
    assert appended.fields["_parents"] == List(items + [Text(p)]);
    assert Prune(appended).fields["_parents"] == Prune(appended.fields["_parents"]);
  }

  /** _parents lists the ancestors of a device, root first. */
  lemma {:induction false} ParentsRootFirst(devices: Table, d: string)
    requires WellTyped(devices) && !HasCycle(ParentGraph(devices))
    requires forall x | x in devices :: "_parents" !in devices[x].fields
    ensures var v := Resolved(devices, d);
            if d in ParentGraph(devices) then
              "_parents" in v.fields && v.fields["_parents"] == List(AsItems(Ancestors(devices, d)))
            else "_parents" !in v.fields
    decreases Below(ParentGraph(devices), d)
  {
    var g := ParentGraph(devices);
    if d !in g {
    } else {
      var p := g[d][0];
      var before := if p in g then Ancestors(devices, p) else [];
      if p in g {
        BelowShrinks(g, d, p);
        ParentsRootFirst(devices, p);
        if p in before {
          AncestorsReachable(devices, p, p);
        }
      }
      assert Text(p) !in AsItems(before);
      assert AsItems(before + [p]) == AsItems(before) + [Text(p)];
      AppendedParents(Resolved(devices, p), devices[d], p, AsItems(before));
    }
  }

  /** Settings below a top-level attribute that inheritance itself writes or
      drops are left aside. */
  predicate Inheritable(path: seq<string>) {
    path != [] && path[0] !in NOT_INHERITED + {"parent", "_parents"}
  }

  function NonNull(v: Option<Value>): Option<Value> {
    match v
    case Some(Null) => None
    case Some(x) => Some(Prune(x))
    case None => None
  }

  lemma {:induction false} LookupWithout(v: Value, keys: set<string>, path: seq<string>)
    requires v.Box? && path != [] && path[0] !in keys
    ensures Lookup(Without(v, keys), path) == Lookup(v, path)
    ensures Blocked(Without(v, keys), path) == Blocked(v, path)
  {
  }

  /** Every setting of a finished child device comes from the nearest definition:
      its own unless it has none (a null removes the setting), the finished
      parent's otherwise; dictionaries on both sides are merged. */
  lemma NearestDefinition(devices: Table, d: string, path: seq<string>)
    requires WellTyped(devices) && !HasCycle(ParentGraph(devices))
    requires d in ParentGraph(devices) && Inheritable(path)
    ensures var parent := Resolved(devices, ParentGraph(devices)[d][0]);
            Lookup(Resolved(devices, d), path) ==
            match Lookup(devices[d], path)
            case Some(own) => NonNull(match Lookup(parent, path) case Some(low) => Some(Merge(low, own)) case None => Some(own))
            case None => if Blocked(devices[d], path) then None else NonNull(Lookup(parent, path))
  {
    var p := ParentGraph(devices)[d][0];
    var low, high := Without(Resolved(devices, p), NOT_INHERITED), Without(devices[d], {"parent"});
    LookupWithout(Resolved(devices, p), NOT_INHERITED, path);
    LookupWithout(devices[d], {"parent"}, path);
    LookupMerge(low, high, path);
    var appended := AppendToList(Merge(low, high), "_parents", Text(p));
    assert Lookup(appended, path) == Lookup(Merge(low, high), path);
    LookupPrune(appended, path);
  }

  /** The keys that are not inherited come from the child alone, and a child has
      them exactly when its own definition does. */
  lemma NotInherited(devices: Table, d: string, k: string)
    requires WellTyped(devices) && !HasCycle(ParentGraph(devices)) && d in ParentGraph(devices)
    requires k == "template" || k == "_meta_device" || k == "docname" || k == "docparent"
    ensures var own := Lookup(devices[d], [k]);
            Lookup(Resolved(devices, d), [k]) == if own.None? || own.value.Null? then None else Some(Prune(own.value))
  {
    var p := ParentGraph(devices)[d][0];
    var low, high := Without(Resolved(devices, p), NOT_INHERITED), Without(devices[d], {"parent"});
    assert k in NOT_INHERITED && k !in low.fields;
    assert k in high.fields <==> k in devices[d].fields;
    LookupMerge(low, high, [k]);
    var appended := AppendToList(Merge(low, high), "_parents", Text(p));
    assert Lookup(appended, [k]) == Lookup(Merge(low, high), [k]);
    LookupPrune(appended, [k]);
    assert Lookup(low, [k]) == None && Lookup(high, [k]) == Lookup(devices[d], [k]);
  }
}
