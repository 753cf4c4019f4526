/** Nested dictionaries (Box objects): lookup along a path, the right-biased
    deep merge that Box uses for "+", and the in-place helpers of
    netsim/data/__init__.py. */
module Boxes {
  import opened Options

  datatype Value =
    | Null
    | Text(text: string)
    | Number(n: int)
    | Flag(on: bool)
    | List(items: seq<Value>)
    | Box(fields: map<string, Value>)

  /** The value at a dotted path. */
  function Lookup(v: Value, path: seq<string>): Option<Value> {
    if path == [] then Some(v)
    else if v.Box? && path[0] in v.fields then Lookup(v.fields[path[0]], path[1..])
    else None
  }

  /** low + high: keys of high win; two boxes under the same key are merged. */
  function Merge(low: Value, high: Value): Value {
    if !low.Box? || !high.Box? then high else
      Box(map k | k in low.fields.Keys + high.fields.Keys ::
        if k !in high.fields then low.fields[k]
        else if k !in low.fields then high.fields[k]
        else Merge(low.fields[k], high.fields[k]))
  }

  /** remove_null_values: lists are not searched. */
  function Prune(v: Value): Value {
    if !v.Box? then v else
      Box(map k | k in v.fields && !v.fields[k].Null? :: Prune(v.fields[k]))
  }

  /** The loop of remove_null_values over the keys of a box, which ends up the
      same for every order of the keys. */
  method RemoveNullValues(d: Value) returns (pruned: Value)
    requires d.Box?
    ensures pruned == Prune(d)
    decreases d
  {
    pruned := d;
    var keys := d.fields.Keys;
    while keys != {}
      invariant keys <= d.fields.Keys
      invariant PartlyPruned(d, pruned, keys)
    {
      var k :| k in keys;
      if d.fields[k].Null? {
        pruned := Box(pruned.fields - {k});
      } else if d.fields[k].Box? {
        var inner := RemoveNullValues(d.fields[k]);
        pruned := Box(pruned.fields[k := inner]);
      }
      keys := keys - {k};
    }
  }

  /** Keys outside the rest are pruned, the others are as they were. */
  ghost predicate PartlyPruned(d: Value, pruned: Value, rest: set<string>)
    requires d.Box?
  {
    && pruned.Box?
    && forall k ::
         (k in pruned.fields <==> if k in rest then k in d.fields else k in Prune(d).fields)
         && (k in pruned.fields ==> pruned.fields[k] == if k in rest then d.fields[k] else Prune(d).fields[k])
  }

  function Without(v: Value, keys: set<string>): Value
    requires v.Box?
  {
    Box(v.fields - keys)
  }

  /** append_to_list: create the list, or turn a scalar into one, and append the
      item unless it is there already. */
  function AppendToList(v: Value, name: string, item: Value): Value
    requires v.Box?
  {
    var items := if name !in v.fields then []
                 else if v.fields[name].List? then v.fields[name].items
                 else [v.fields[name]];
    Box(v.fields[name := List(if item in items then items else items + [item])])
  }

  /** The list then has the item, and once if it was not there; what was listed
      stays, in order; all other keys are as before. */
  lemma AppendedExact(v: Value, name: string, item: Value)
    requires v.Box?
    ensures var after := AppendToList(v, name, item);
            && after.Box? && name in after.fields && after.fields[name].List?
            && item in after.fields[name].items
            && (name in v.fields && v.fields[name].List? ==> v.fields[name].items <= after.fields[name].items)
            && (name in v.fields && !v.fields[name].List? ==> after.fields[name].items[0] == v.fields[name])
            && (forall k | k != name :: (k in after.fields <==> k in v.fields) && (k in v.fields ==> after.fields[k] == v.fields[k]))
            && (name in v.fields && v.fields[name].List? && item in v.fields[name].items ==> after == v)
            && (name !in v.fields ==> after.fields[name].items == [item])
            && |after.fields[name].items| <= 1 + if name !in v.fields then 0 else if v.fields[name].List? then |v.fields[name].items| else 1
  {
    if name in v.fields && v.fields[name].List? && item in v.fields[name].items {
      assert AppendToList(v, name, item).fields == v.fields;
    }
  }

  /** The path runs into something that is not a box before its last element. */
  predicate Blocked(v: Value, path: seq<string>) {
    path != [] && (!v.Box? || (path[0] in v.fields && Blocked(v.fields[path[0]], path[1..])))
  }

  /** What "+" means for every path: the right operand decides wherever it has a
      value or something in the way, the left operand shows through elsewhere. */
  lemma {:induction false} LookupMerge(low: Value, high: Value, path: seq<string>)
    requires low.Box? && high.Box?
    ensures Lookup(Merge(low, high), path) ==
            match Lookup(high, path)
            case Some(h) => (match Lookup(low, path) case Some(l) => Some(Merge(l, h)) case None => Some(h))
            case None => if Blocked(high, path) then None else Lookup(low, path)
  {
    if path == [] || path[0] !in high.fields || path[0] !in low.fields {
    } else {
      var l, h, rest := low.fields[path[0]], high.fields[path[0]], path[1..];
      assert Merge(low, high).fields[path[0]] == Merge(l, h);
      if l.Box? && h.Box? {
        LookupMerge(l, h, rest);
      }
    }
  }

  /** Pruning removes exactly the null values. */
  lemma {:induction false} LookupPrune(v: Value, path: seq<string>)
    requires path != []
    ensures Lookup(Prune(v), path) ==
            match Lookup(v, path)
            case Some(Null) => None
            case Some(x) => Some(Prune(x))
            case None => None
  {
    if !v.Box? || path[0] !in v.fields || v.fields[path[0]].Null? || |path| == 1 {
    } else {
      LookupPrune(v.fields[path[0]], path[1..]);
    }
  }
}
