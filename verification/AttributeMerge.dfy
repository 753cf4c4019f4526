/** Two ways to inherit an attribute: merging whole dictionaries while honouring
    attributes the user removed (netsim/data/__init__.py), and walking the chain
    of objects for a single attribute (netsim/modules/__init__.py). */
module AttributeMerge {
  import opened Boxes
  import opened Names
  import opened Options
  import opened Sequences

  /** The key that holds the list of removed attributes. */
  const MARKS := "_removed_attr"

  /** Name k is on the list of removed attributes of a box. */
  predicate IsRemoved(v: Value, k: string) {
    v.Box? && MARKS in v.fields && v.fields[MARKS].List? && Text(k) in v.fields[MARKS].items
  }

  /** Removing an attribute takes its key out of the box, so no box lists a name
      that is still one of its keys. */
  ghost predicate WellMarked(v: Value) {
    v.Box? ==> forall k | k in v.fields :: !IsRemoved(v, k) && WellMarked(v.fields[k])
  }

  /** removed_attributes as a recursion over the path. */
  function Removed(v: Value, path: seq<string>): bool {
    path != [] && v.Box?
    && (IsRemoved(v, path[0]) || (path[0] in v.fields && Removed(v.fields[path[0]], path[1..])))
  }

  /** The box that element k of the path is looked up in lists it as removed. */
  ghost predicate RemovedAt(v: Value, path: seq<string>, k: nat)
    requires k < |path|
  {
    Lookup(v, path[..k]).Some? && IsRemoved(Lookup(v, path[..k]).value, path[k])
  }

  /** A path is removed exactly when one of its elements is removed where it would
      be found. */
  lemma {:induction false} RemovedExact(v: Value, path: seq<string>)
    ensures Removed(v, path) <==> exists k :: 0 <= k < |path| && RemovedAt(v, path, k)
  {
    if path == [] {
    } else {
      assert path[..0] == [] && (RemovedAt(v, path, 0) <==> IsRemoved(v, path[0]));
      if v.Box? && path[0] in v.fields {
        var inner, rest := v.fields[path[0]], path[1..];
        RemovedExact(inner, rest);
        forall k | 0 <= k < |rest| ensures RemovedAt(v, path, k + 1) <==> RemovedAt(inner, rest, k) {
          assert path[..k + 1][1..] == rest[..k] && path[..k + 1][0] == path[0];
        }
        assert forall k | 0 < k < |path| :: RemovedAt(v, path, k) <==> RemovedAt(inner, rest, k - 1);
      } else {
        forall k | 0 < k < |path| ensures !RemovedAt(v, path, k) {
          assert path[..k][0] == path[0];
        }
      }
    }
  }

  method RemovedAttributes(data: Value, path: seq<string>) returns (removed: bool)
    requires data.Box?
    ensures removed <==> Removed(data, path)
  {
    var v, elements := data, path;
    while elements != []
      invariant v.Box?
      invariant Removed(v, elements) <==> Removed(data, path)
      decreases |elements|
    {
      if IsRemoved(v, elements[0]) {
        return true;
      }
      if elements[0] !in v.fields || !v.fields[elements[0]].Box? {
        return false;
      }
      v, elements := v.fields[elements[0]], elements[1..];
    }
    return false;
  }

  /** The order in which the keys of each box are visited. */
  ghost predicate IsKeyOrder(keys: Value -> seq<string>) {
    forall v: Value | v.Box? :: Distinct(keys(v)) && Elements(keys(v)) == v.fields.Keys
  }

  predicate InScope(k: string, scope: Option<set<string>>) {
    scope.None? || k in scope.value
  }

  /** One pass through the loop of merge_with_removed_attributes. */
  function MergeKey(to: Value, from: Value, keys: Value -> seq<string>, k: string, scope: Option<set<string>>): (merged: Value)
    requires IsKeyOrder(keys) && to.Box? && from.Box? && k in from.fields
    ensures merged.Box?
    decreases from, 0
  {
    if IsRemoved(to, k) || !InScope(k, scope) then to
    else if k !in to.fields then Box(to.fields[k := from.fields[k]])
    else if to.fields[k].Box? && from.fields[k].Box? then
      Box(to.fields[k := MergeAlong(to.fields[k], from.fields[k], keys, None)])
    else to
  }

  function MergeKeys(to: Value, from: Value, keys: Value -> seq<string>, todo: seq<string>, scope: Option<set<string>>): (merged: Value)
    requires IsKeyOrder(keys) && to.Box? && from.Box? && forall k | k in todo :: k in from.fields
    ensures merged.Box?
    decreases from, 1 + |todo|
  {
    if todo == [] then to else MergeKeys(MergeKey(to, from, keys, todo[0], scope), from, keys, todo[1..], scope)
  }

  lemma KeysOf(keys: Value -> seq<string>, v: Value)
    requires IsKeyOrder(keys) && v.Box?
    ensures Distinct(keys(v)) && Elements(keys(v)) == v.fields.Keys
    ensures forall k | k in keys(v) :: k in v.fields
  {
    assert forall k | k in keys(v) :: k in Elements(keys(v));
  }

  /** merge_with_removed_attributes; the scope limits the top-level keys. */
  function MergeAlong(to: Value, from: Value, keys: Value -> seq<string>, scope: Option<set<string>>): (merged: Value)
    requires IsKeyOrder(keys) && to.Box? && from.Box?
    ensures merged.Box?
    decreases from, 2 + |keys(from)|
  {
    KeysOf(keys, from);
    MergeKeys(to, from, keys, keys(from), scope)
  }

  /** The list of removed names may itself be copied by an iteration and is read
      again by the next one. */
  method MergeWithRemovedAttributes(dTo: Value, dWith: Value, keys: Value -> seq<string>, scope: Option<set<string>>) returns (merged: Value)
    requires IsKeyOrder(keys) && dTo.Box? && dWith.Box?
    ensures merged == MergeAlong(dTo, dWith, keys, scope)
    decreases dWith
  {
    merged := dTo;
    var todo := keys(dWith);
    KeysOf(keys, dWith);
    for i := 0 to |todo|
      invariant merged.Box?
      invariant MergeKeys(merged, dWith, keys, todo[i..], scope) == MergeAlong(dTo, dWith, keys, scope)
    {
      var k := todo[i];
      assert todo[i..][0] == k && todo[i..][1..] == todo[i + 1..];
      if !IsRemoved(merged, k) && InScope(k, scope) {
        if k !in merged.fields {
          merged := Box(merged.fields[k := dWith.fields[k]]);
        } else if merged.fields[k].Box? && dWith.fields[k].Box? {
          var inner := MergeWithRemovedAttributes(merged.fields[k], dWith.fields[k], keys, None);
          merged := Box(merged.fields[k := inner]);
        }
      }
    }
  }

  // ----- the outcome without the order of the keys

  function Restricted(from: Value, scope: Option<set<string>>): Value
    requires from.Box?
  {
    if scope.None? then from else Box(map k | k in from.fields && k in scope.value :: from.fields[k])
  }

  /** Own values first, values that are not removed second, boxes merged. */
  function Overlay(to: Value, from: Value): (merged: Value)
    requires to.Box? && from.Box?
    ensures merged.Box?
  {
    Box(map k | k in to.fields.Keys + from.fields.Keys && (k in to.fields || !IsRemoved(to, k)) ::
      if k !in to.fields then from.fields[k]
      else if k in from.fields && to.fields[k].Box? && from.fields[k].Box? && !IsRemoved(to, k)
      then Overlay(to.fields[k], from.fields[k])
      else to.fields[k])
  }

  /** Keys outside the rest are merged, the others are as they were. */
  ghost predicate Partial(to: Value, from: Value, merged: Value, rest: set<string>)
    requires to.Box? && from.Box?
  {
    && merged.Box?
    && forall k ::
         (k in merged.fields <==> if k in rest then k in to.fields else k in Overlay(to, from).fields)
         && (k in merged.fields ==> merged.fields[k] == if k in rest then to.fields[k] else Overlay(to, from).fields[k])
  }

  /** Merging from into to changes nothing. */
  ghost predicate Absorbed(to: Value, from: Value)
    requires to.Box? && from.Box?
    decreases from
  {
    forall k | k in from.fields && !IsRemoved(to, k) ::
      k in to.fields && (to.fields[k].Box? && from.fields[k].Box? ==> Absorbed(to.fields[k], from.fields[k]))
  }

  /** Name k is removed as soon as the list of removed names has been copied, and
      not before. */
  predicate LateRemoved(to: Value, from: Value, k: string)
    requires to.Box? && from.Box?
  {
    MARKS !in to.fields && IsRemoved(from, k) && k != MARKS
  }

  /** The order in which keys are visited makes no difference: every key that is
      removed late has nothing to add, and the other boxes are in order. */
  ghost predicate OrderFree(to: Value, from: Value)
    requires to.Box? && from.Box?
    decreases from
  {
    forall k | k in from.fields ::
      if LateRemoved(to, from, k) then
        k in to.fields && (to.fields[k].Box? && from.fields[k].Box? ==> Absorbed(to.fields[k], from.fields[k]))
      else
        k in to.fields && to.fields[k].Box? && from.fields[k].Box? && !IsRemoved(to, k) ==> OrderFree(to.fields[k], from.fields[k])
  }

  lemma {:induction false} WellMarkedIsOrderFree(to: Value, from: Value)
    requires to.Box? && from.Box? && WellMarked(from)
    ensures OrderFree(to, from)
    decreases from
  {
    forall k | k in from.fields && k in to.fields && to.fields[k].Box? && from.fields[k].Box? ensures OrderFree(to.fields[k], from.fields[k]) {
      WellMarkedIsOrderFree(to.fields[k], from.fields[k]);
    }
  }

  lemma {:induction false} AbsorbedOverlay(to: Value, from: Value)
    requires to.Box? && from.Box?
    ensures Overlay(to, from) == to <==> Absorbed(to, from)
    decreases from
  {
    forall k | k in from.fields && k in to.fields && to.fields[k].Box? && from.fields[k].Box?
      ensures Overlay(to.fields[k], from.fields[k]) == to.fields[k] <==> Absorbed(to.fields[k], from.fields[k])
    {
      AbsorbedOverlay(to.fields[k], from.fields[k]);
    }
    var merged := Overlay(to, from);
    if Absorbed(to, from) {
      assert merged.fields == to.fields;
    }
    if merged == to {
      assert merged.fields == to.fields;
      forall k | k in from.fields && !IsRemoved(to, k)
        ensures k in to.fields && (to.fields[k].Box? && from.fields[k].Box? ==> Absorbed(to.fields[k], from.fields[k]))
      {
        assert k in merged.fields;
      }
    }
  }

  /** The list of removed names in force while a merge is under way: the one of
      the target, or the one that has been copied. */
  lemma MarksInForce(to: Value, from: Value, scope: Option<set<string>>, merged: Value, k: string, rest: set<string>)
    requires to.Box? && from.Box? && k in from.fields
    requires Partial(to, Restricted(from, scope), merged, rest)
    ensures IsRemoved(merged, k) ==> IsRemoved(to, k) || (MARKS !in to.fields && IsRemoved(Restricted(from, scope), k))
    ensures IsRemoved(to, k) ==> IsRemoved(merged, k)
  {
    var m := MARKS;
    assert m in to.fields ==> m in merged.fields;
    if m in merged.fields {
      assert m in to.fields || m in Restricted(from, scope).fields;
      if m in to.fields && to.fields[m].Box? {
        assert merged.fields[m].Box?;
      } else if m in to.fields {
        assert merged.fields[m] == to.fields[m];
      } else {
        assert merged.fields[m] == from.fields[m];
      }
    }
  }

  /** The turn of a key gives it the value of the overlay. */
  lemma {:induction false} KeyOverlaid(to: Value, from: Value, keys: Value -> seq<string>, scope: Option<set<string>>, merged: Value, k: string)
    requires IsKeyOrder(keys) && to.Box? && from.Box? && merged.Box? && OrderFree(to, Restricted(from, scope)) && k in from.fields
    requires (k in merged.fields <==> k in to.fields) && (k in to.fields ==> merged.fields[k] == to.fields[k])
    requires IsRemoved(to, k) ==> IsRemoved(merged, k)
    requires IsRemoved(merged, k) ==> IsRemoved(to, k) || LateRemoved(to, Restricted(from, scope), k)
    ensures var next, whole := MergeKey(merged, from, keys, k, scope), Overlay(to, Restricted(from, scope));
            (k in next.fields <==> k in whole.fields) && (k in whole.fields ==> next.fields[k] == whole.fields[k])
    decreases from, 0
  {
    var r := Restricted(from, scope);
    if k in r.fields && k in to.fields && to.fields[k].Box? && from.fields[k].Box? {
      assert r.fields[k] == from.fields[k] && Restricted(from.fields[k], None) == from.fields[k];
      AbsorbedOverlay(to.fields[k], from.fields[k]);
      if LateRemoved(to, r, k) {
        AbsorbedIsOrderFree(to.fields[k], from.fields[k]);
      }
      if !IsRemoved(to, k) {
        MergeIsOverlay(to.fields[k], from.fields[k], keys, None);
      }
    }
  }

  lemma {:induction false} MergeKeyPartial(to: Value, from: Value, keys: Value -> seq<string>, scope: Option<set<string>>,
                                           merged: Value, k: string, rest: set<string>)
    requires IsKeyOrder(keys) && to.Box? && from.Box? && OrderFree(to, Restricted(from, scope))
    requires k in from.fields && k in rest && Partial(to, Restricted(from, scope), merged, rest)
    requires k == MARKS ==> MARKS in to.fields || !IsRemoved(merged, k)
    ensures Partial(to, Restricted(from, scope), MergeKey(merged, from, keys, k, scope), rest - {k})
    decreases from, 1
  {
    MarksInForce(to, from, scope, merged, k, rest);
    KeyOverlaid(to, from, keys, scope, merged, k);
    var next := MergeKey(merged, from, keys, k, scope);
    assert forall x | x != k :: (x in next.fields <==> x in merged.fields) && (x in next.fields ==> next.fields[x] == merged.fields[x]);
  }

  lemma {:induction false} AbsorbedIsOrderFree(to: Value, from: Value)
    requires to.Box? && from.Box? && Absorbed(to, from)
    ensures OrderFree(to, from)
    decreases from
  {
    forall k | k in from.fields
      ensures if LateRemoved(to, from, k) then
                k in to.fields && (to.fields[k].Box? && from.fields[k].Box? ==> Absorbed(to.fields[k], from.fields[k]))
              else
                k in to.fields && to.fields[k].Box? && from.fields[k].Box? && !IsRemoved(to, k) ==> OrderFree(to.fields[k], from.fields[k])
    {
      if k in to.fields && to.fields[k].Box? && from.fields[k].Box? && !IsRemoved(to, k) {
        AbsorbedIsOrderFree(to.fields[k], from.fields[k]);
      }
    }
  }

  lemma {:induction false} MergeKeysPartial(to: Value, from: Value, keys: Value -> seq<string>, scope: Option<set<string>>,
                                            merged: Value, todo: seq<string>)
    requires IsKeyOrder(keys) && to.Box? && from.Box? && OrderFree(to, Restricted(from, scope))
    requires Distinct(todo) && forall k | k in todo :: k in from.fields
    requires Partial(to, Restricted(from, scope), merged, Elements(todo))
    ensures Partial(to, Restricted(from, scope), MergeKeys(merged, from, keys, todo, scope), {})
    decreases from, 2 + |todo|
  {
    if todo == [] {
      assert Elements(todo) == {};
    } else {
      var k, rest := todo[0], todo[1..];
      assert k in Elements(todo);
      assert Elements(todo) - {k} == Elements(rest);
      if k == MARKS && MARKS !in to.fields {
        assert MARKS !in merged.fields;
      }
      MergeKeyPartial(to, from, keys, scope, merged, k, Elements(todo));
      MergeKeysPartial(to, from, keys, scope, MergeKey(merged, from, keys, k, scope), rest);
    }
  }

  /** Then the merge is the overlay, for every order of the keys. */
  lemma {:induction false} MergeIsOverlay(to: Value, from: Value, keys: Value -> seq<string>, scope: Option<set<string>>)
    requires IsKeyOrder(keys) && to.Box? && from.Box? && OrderFree(to, Restricted(from, scope))
    ensures MergeAlong(to, from, keys, scope) == Overlay(to, Restricted(from, scope))
    decreases from, 3 + |keys(from)|
  {
    KeysOf(keys, from);
    var restricted := Restricted(from, scope);
    assert Partial(to, restricted, to, Elements(keys(from)));
    MergeKeysPartial(to, from, keys, scope, to, keys(from));
    var merged := MergeAlong(to, from, keys, scope);
    assert merged.fields == Overlay(to, restricted).fields;
  }

  lemma {:induction false} RemovedIsAbsent(v: Value, path: seq<string>)
    requires WellMarked(v) && Removed(v, path)
    ensures Lookup(v, path) == None && !Blocked(v, path)
  {
    if IsRemoved(v, path[0]) {
    } else {
      RemovedIsAbsent(v.fields[path[0]], path[1..]);
    }
  }

  /** What the merge means for a path: the interface value if there is one (two
      boxes are merged in turn), nothing if the path was removed on the interface
      or runs into one of its values, the link value otherwise. */
  lemma {:induction false} LookupOverlay(to: Value, from: Value, path: seq<string>)
    requires to.Box? && from.Box? && WellMarked(to)
    ensures Lookup(Overlay(to, from), path) ==
            match Lookup(to, path)
            case Some(v) => (match Lookup(from, path)
                             case Some(w) => Some(if v.Box? && w.Box? then Overlay(v, w) else v)
                             case None => Some(v))
            case None => if Removed(to, path) || Blocked(to, path) then None else Lookup(from, path)
  {
    if path == [] || path[0] !in to.fields || path[0] !in from.fields {
    } else {
      var v, w, rest := to.fields[path[0]], from.fields[path[0]], path[1..];
      if v.Box? && w.Box? {
        LookupOverlay(v, w, rest);
      }
    }
  }

  // ----- when the order of the keys matters

  lemma {:induction false} KeyStays(merged: Value, from: Value, keys: Value -> seq<string>, todo: seq<string>, scope: Option<set<string>>, k: string)
    requires IsKeyOrder(keys) && merged.Box? && from.Box? && forall x | x in todo :: x in from.fields
    requires k in merged.fields
    ensures var end := MergeKeys(merged, from, keys, todo, scope);
            k in end.fields && (k !in todo ==> end.fields[k] == merged.fields[k])
    decreases |todo|
  {
    if todo == [] {
    } else {
      KeyStays(MergeKey(merged, from, keys, todo[0], scope), from, keys, todo[1..], scope, k);
    }
  }

  /** Nothing happens to a name that is removed. */
  lemma {:induction false} RemovedStays(merged: Value, from: Value, keys: Value -> seq<string>, todo: seq<string>, scope: Option<set<string>>, k: string)
    requires IsKeyOrder(keys) && merged.Box? && from.Box? && forall x | x in todo :: x in from.fields
    requires IsRemoved(merged, k) && k != MARKS
    ensures var end := MergeKeys(merged, from, keys, todo, scope);
            (k in end.fields <==> k in merged.fields) && (k in merged.fields ==> end.fields[k] == merged.fields[k])
    decreases |todo|
  {
    if todo == [] {
    } else {
      RemovedStays(MergeKey(merged, from, keys, todo[0], scope), from, keys, todo[1..], scope, k);
    }
  }

  /** What the turn of key k makes of it. */
  function TurnOf(merged: Value, from: Value, keys: Value -> seq<string>, k: string): Value
    requires IsKeyOrder(keys) && merged.Box? && from.Box? && k in from.fields
  {
    if k !in merged.fields then from.fields[k]
    else if merged.fields[k].Box? && from.fields[k].Box? then MergeAlong(merged.fields[k], from.fields[k], keys, None)
    else merged.fields[k]
  }

  /** A key that is neither removed at the start nor late has its turn, whatever
      the order. */
  lemma {:induction false} KeyTurn(merged: Value, from: Value, keys: Value -> seq<string>, todo: seq<string>, scope: Option<set<string>>, k: string)
    requires IsKeyOrder(keys) && merged.Box? && from.Box? && forall x | x in todo :: x in from.fields
    requires Distinct(todo) && k in todo && InScope(k, scope)
    requires !IsRemoved(merged, k) && !LateRemoved(merged, Restricted(from, scope), k)
    ensures var end := MergeKeys(merged, from, keys, todo, scope);
            k in end.fields && end.fields[k] == TurnOf(merged, from, keys, k)
    decreases |todo|
  {
    var next := MergeKey(merged, from, keys, todo[0], scope);
    if todo[0] == k {
      KeyStays(next, from, keys, todo[1..], scope, k);
    } else {
      assert k in next.fields <==> k in merged.fields;
      KeyTurn(next, from, keys, todo[1..], scope, k);
    }
  }

  /** What is not absorbed changes the target, in every order. */
  lemma {:induction false} NotAbsorbedChanges(to: Value, from: Value, keys: Value -> seq<string>)
    requires IsKeyOrder(keys) && to.Box? && from.Box? && !Absorbed(to, from)
    ensures MergeAlong(to, from, keys, None) != to
    decreases from
  {
    KeysOf(keys, from);
    if MARKS in from.fields && MARKS !in to.fields {
      assert MARKS in Elements(keys(from));
      KeyTurn(to, from, keys, keys(from), None, MARKS);
    } else {
      var k :| k in from.fields && !IsRemoved(to, k)
               && !(k in to.fields && (to.fields[k].Box? && from.fields[k].Box? ==> Absorbed(to.fields[k], from.fields[k])));
      assert k in Elements(keys(from));
      KeyTurn(to, from, keys, keys(from), None, k);
      if k in to.fields {
        NotAbsorbedChanges(to.fields[k], from.fields[k], keys);
      }
    }
  }

  /** Visit one key of one box first, all others in alphabetical order. */
  function Leading(box: Value, k: string): Value -> seq<string> {
    (v: Value) =>
      if !v.Box? then []
      else if v == box && k in v.fields then [k] + Sorted(v.fields.Keys - {k})
      else Sorted(v.fields.Keys)
  }

  lemma ConsIsOrder(keys: set<string>, k: string, rest: seq<string>)
    requires k in keys && Distinct(rest) && Elements(rest) == keys - {k}
    ensures Distinct([k] + rest) && Elements([k] + rest) == keys
    ensures k !in rest && forall x | x in rest :: x in keys
  {
    ElementsOfCons(k, rest, keys);
    ConcatDistinct([k], rest);
  }

  lemma LeadingIsKeyOrder(box: Value, k: string)
    ensures IsKeyOrder(Leading(box, k))
  {
    forall v: Value | v.Box?
      ensures Distinct(Leading(box, k)(v)) && Elements(Leading(box, k)(v)) == v.fields.Keys
    {
      AscendingDistinct(Sorted(v.fields.Keys));
      if v == box && k in v.fields {
        AscendingDistinct(Sorted(v.fields.Keys - {k}));
        ConsIsOrder(v.fields.Keys, k, Sorted(v.fields.Keys - {k}));
      }
    }
  }

  lemma LeadingKeyFirst(to: Value, from: Value, scope: Option<set<string>>, k: string)
    requires to.Box? && from.Box? && k in from.fields
    ensures IsKeyOrder(Leading(from, k))
    ensures var keys := Leading(from, k);
            var rest := Sorted(from.fields.Keys - {k});
            && Distinct(rest) && k !in rest && (forall x | x in rest :: x in from.fields)
            && MergeAlong(to, from, keys, scope) == MergeKeys(MergeKey(to, from, keys, k, scope), from, keys, rest, scope)
  {
    LeadingIsKeyOrder(from, k);
    var keys, rest := Leading(from, k), Sorted(from.fields.Keys - {k});
    KeysOf(keys, from);
    AscendingDistinct(rest);
    ConsIsOrder(from.fields.Keys, k, rest);
    assert keys(from) == [k] + rest && ([k] + rest)[1..] == rest;
  }

  lemma KeyFirst(to: Value, from: Value, keys: Value -> seq<string>, rest: seq<string>, scope: Option<set<string>>, k: string)
    requires IsKeyOrder(keys) && to.Box? && from.Box? && k in from.fields && forall x | x in rest :: x in from.fields
    requires k !in rest && InScope(k, scope) && !IsRemoved(to, k)
    ensures var end := MergeKeys(MergeKey(to, from, keys, k, scope), from, keys, rest, scope);
            k in end.fields && end.fields[k] == TurnOf(to, from, keys, k)
  {
    KeyStays(MergeKey(to, from, keys, k, scope), from, keys, rest, scope, k);
  }

  lemma MarksFirst(to: Value, from: Value, keys: Value -> seq<string>, rest: seq<string>, scope: Option<set<string>>, k: string)
    requires IsKeyOrder(keys) && to.Box? && from.Box? && forall x | x in rest :: x in from.fields
    requires LateRemoved(to, Restricted(from, scope), k)
    ensures MARKS in from.fields
    ensures var end := MergeKeys(MergeKey(to, from, keys, MARKS, scope), from, keys, rest, scope);
            (k in end.fields <==> k in to.fields) && (k in to.fields ==> end.fields[k] == to.fields[k])
  {
    RemovedStays(MergeKey(to, from, keys, MARKS, scope), from, keys, rest, scope, k);
  }

  /** A late removal shows: with the key first it has its turn, with the list of
      removed names first it is left alone. */
  lemma LateRemovalShows(to: Value, from: Value, scope: Option<set<string>>, k: string)
    requires to.Box? && from.Box? && k in Restricted(from, scope).fields && LateRemoved(to, Restricted(from, scope), k)
    requires k !in to.fields || (to.fields[k].Box? && from.fields[k].Box? && !Absorbed(to.fields[k], from.fields[k]))
    ensures IsKeyOrder(Leading(from, k)) && IsKeyOrder(Leading(from, MARKS))
    ensures MergeAlong(to, from, Leading(from, k), scope) != MergeAlong(to, from, Leading(from, MARKS), scope)
  {
    var first, last := Leading(from, k), Leading(from, MARKS);
    LeadingKeyFirst(to, from, scope, k);
    LeadingKeyFirst(to, from, scope, MARKS);
    KeyFirst(to, from, first, Sorted(from.fields.Keys - {k}), scope, k);
    MarksFirst(to, from, last, Sorted(from.fields.Keys - {MARKS}), scope, k);
    if k in to.fields {
      NotAbsorbedChanges(to.fields[k], from.fields[k], first);
    }
  }

  /** Two orders of the keys with different outcomes. */
  lemma {:induction false} OrderMatters(to: Value, from: Value, scope: Option<set<string>>)
    returns (keys: Value -> seq<string>, keys': Value -> seq<string>)
    requires to.Box? && from.Box? && !OrderFree(to, Restricted(from, scope))
    ensures IsKeyOrder(keys) && IsKeyOrder(keys')
    ensures MergeAlong(to, from, keys, scope) != MergeAlong(to, from, keys', scope)
    decreases from
  {
    var r := Restricted(from, scope);
    if k :| k in r.fields && LateRemoved(to, r, k)
            && !(k in to.fields && (to.fields[k].Box? && r.fields[k].Box? ==> Absorbed(to.fields[k], r.fields[k]))) {
      LateRemovalShows(to, from, scope, k);
      keys, keys' := Leading(from, k), Leading(from, MARKS);
    } else {
      var k :| k in r.fields && !LateRemoved(to, r, k) && k in to.fields && to.fields[k].Box? && r.fields[k].Box?
               && !IsRemoved(to, k) && !OrderFree(to.fields[k], r.fields[k]);
      keys, keys' := OrderMatters(to.fields[k], from.fields[k], None);
      KeysOf(keys, from);
      KeysOf(keys', from);
      assert k in Elements(keys(from)) && k in Elements(keys'(from));
      KeyTurn(to, from, keys, keys(from), scope, k);
      KeyTurn(to, from, keys', keys'(from), scope, k);
    }
  }

  /** All orders of the keys give the same merge exactly when the pair of boxes is
      order-free, at every depth. */
  lemma OrderIrrelevantExactly(to: Value, from: Value, scope: Option<set<string>>)
    requires to.Box? && from.Box?
    ensures (forall keys, keys' | IsKeyOrder(keys) && IsKeyOrder(keys') ::
               MergeAlong(to, from, keys, scope) == MergeAlong(to, from, keys', scope)) <==>
            OrderFree(to, Restricted(from, scope))
  {
    if OrderFree(to, Restricted(from, scope)) {
      forall keys, keys' | IsKeyOrder(keys) && IsKeyOrder(keys')
        ensures MergeAlong(to, from, keys, scope) == MergeAlong(to, from, keys', scope)
      {
        MergeIsOverlay(to, from, keys, scope);
        MergeIsOverlay(to, from, keys', scope);
      }
    } else {
      var keys, keys' := OrderMatters(to, from, scope);
    }
  }

  /** A name that is removed and still a key, with a dictionary on both sides. */
  lemma OrderMattersExample()
    ensures var to := Box(map["k" := Box(map["x" := Number(1)])]);
            var from := Box(map["k" := Box(map["y" := Number(2)]), MARKS := List([Text("k")])]);
            !OrderFree(to, from)
  {
    var to := Box(map["k" := Box(map["x" := Number(1)])]);
    var from := Box(map["k" := Box(map["y" := Number(2)]), MARKS := List([Text("k")])]);
    assert from.fields[MARKS].items[0] == Text("k");
    assert LateRemoved(to, from, "k");
    assert "y" in from.fields["k"].fields && !Absorbed(to.fields["k"], from.fields["k"]);
  }

  // ----- walking the inheritance chain

  /** Python truth of a value. */
  predicate Truthy(v: Value) {
    match v
    case Null => false
    case Text(s) => s != ""
    case Number(n) => n != 0
    case Flag(on) => on
    case List(items) => items != []
    case Box(fields) => fields != map[]
  }

  /** The values that count as false. */
  lemma FalseValues(v: Value)
    ensures !Truthy(v) <==> v in [Null, Text(""), Number(0), Flag(false), List([]), Box(map[])]
  {
  }

  /** Objects from position i on; composite is the dictionary found so far. */
  function EffectiveFrom(objs: seq<Option<Value>>, path: seq<string>, mergeDict: bool, keys: Value -> seq<string>, i: nat, composite: Option<Value>): Option<Value>
    requires IsKeyOrder(keys)
    requires i <= |objs|
    requires forall o | o in objs && o.Some? :: o.value.Box?
    requires composite.Some? ==> composite.value.Box?
    decreases |objs| - i
  {
    if i == |objs| then composite
    else if objs[i].None? then EffectiveFrom(objs, path, mergeDict, keys, i + 1, composite)
    else if Removed(objs[i].value, path) then composite
    else
      match Lookup(objs[i].value, path)
      case None => EffectiveFrom(objs, path, mergeDict, keys, i + 1, composite)
      case Some(v) =>
        if !Truthy(v) then EffectiveFrom(objs, path, mergeDict, keys, i + 1, composite)
        else if !v.Box? || !mergeDict then Some(v)
        else EffectiveFrom(objs, path, mergeDict, keys, i + 1,
                           if composite.Some? && Truthy(composite.value) then Some(MergeAlong(composite.value, v, keys, None)) else Some(v))
  }

  /** get_effective_module_attribute: interface, link, node, topology and system
      defaults, those that the caller supplied. */
  method GetEffectiveModuleAttribute(objs: seq<Option<Value>>, path: seq<string>, mergeDict: bool, keys: Value -> seq<string>) returns (value: Option<Value>)
    requires IsKeyOrder(keys) && forall o | o in objs && o.Some? :: o.value.Box?
    ensures value == EffectiveFrom(objs, path, mergeDict, keys, 0, None)
  {
    var composite: Option<Value> := None;
    for i := 0 to |objs|
      invariant composite.Some? ==> composite.value.Box?
      invariant EffectiveFrom(objs, path, mergeDict, keys, i, composite) == EffectiveFrom(objs, path, mergeDict, keys, 0, None)
    {
      if objs[i].Some? {
        assert objs[i] in objs;
        var removed := RemovedAttributes(objs[i].value, path);
        if removed {
          return composite;
        }
        var v := Lookup(objs[i].value, path);
        if v.Some? && Truthy(v.value) {
          if !v.value.Box? || !mergeDict {
            return v;
          }
          if composite.Some? && Truthy(composite.value) {
            var merged := MergeWithRemovedAttributes(composite.value, v.value, keys, None);
            composite := Some(merged);
          } else {
            composite := v;
          }
        }
      }
    }
    return composite;
  }

  lemma {:induction false} LookupWellMarked(v: Value, path: seq<string>)
    requires WellMarked(v) && Lookup(v, path).Some?
    ensures WellMarked(Lookup(v, path).value)
  {
    if path == [] {
    } else {
      LookupWellMarked(v.fields[path[0]], path[1..]);
    }
  }

  /** The chain [interface, link], dictionaries merged. */
  function Effective(intf: Value, link: Value, path: seq<string>, keys: Value -> seq<string>): Option<Value>
    requires IsKeyOrder(keys) && intf.Box? && link.Box?
  {
    EffectiveFrom([Some(intf), Some(link)], path, true, keys, 0, None)
  }

  /** Both computations find the same value: the interface value is not skipped
      as false, a dictionary does not meet a plain link value, and a link value
      that shows through is neither false nor hidden behind a plain interface
      value on the way. */
  predicate SameKindAndTruthy(intf: Value, link: Value, path: seq<string>) {
    var onLink := Lookup(link, path);
    match Lookup(intf, path)
    case Some(Box(fields)) =>
      if fields != map[] then !(onLink.Some? && Truthy(onLink.value) && !onLink.value.Box?)
      else onLink.Some? && onLink.value.Box? && Truthy(onLink.value)
    case Some(v) => Truthy(v)
    case None =>
      || Removed(intf, path)
      || onLink.None?
      || (Truthy(onLink.value) <==> !Blocked(intf, path))
  }

  lemma OverlayEmpty(v: Value)
    requires v.Box?
    ensures Overlay(v, Box(map[])) == v
    ensures Overlay(Box(map[]), v) == v
  {
    assert Overlay(v, Box(map[])).fields == v.fields;
    assert Overlay(Box(map[]), v).fields == v.fields;
  }

  /** The second object of the chain, given what the first one contributed. */
  lemma LinkContribution(intf: Value, link: Value, path: seq<string>, keys: Value -> seq<string>, composite: Option<Value>)
    requires IsKeyOrder(keys) && intf.Box? && link.Box? && WellMarked(link)
    requires composite.Some? ==> composite.value.Box?
    ensures EffectiveFrom([Some(intf), Some(link)], path, true, keys, 1, composite) ==
            match Lookup(link, path)
            case None => composite
            case Some(w) =>
              if !Truthy(w) then composite
              else if !w.Box? then Some(w)
              else if composite.Some? && Truthy(composite.value) then Some(Overlay(composite.value, w)) else Some(w)
  {
    if Removed(link, path) {
      RemovedIsAbsent(link, path);
    }
    var found := Lookup(link, path);
    if found.Some? && found.value.Box? && composite.Some? {
      LookupWellMarked(link, path);
      WellMarkedIsOrderFree(composite.value, found.value);
      MergeIsOverlay(composite.value, found.value, keys, None);
    }
  }

  /** The value found along the chain, by what the interface holds. */
  lemma ChainValue(intf: Value, link: Value, path: seq<string>, keys: Value -> seq<string>)
    requires IsKeyOrder(keys) && intf.Box? && link.Box? && WellMarked(intf) && WellMarked(link)
    ensures Effective(intf, link, path, keys) ==
            match Lookup(intf, path)
            case None => (match Lookup(link, path)
                          case Some(w) => if Truthy(w) && !Removed(intf, path) then Some(w) else None
                          case None => None)
            case Some(v) =>
              if Truthy(v) && !v.Box? then Some(v)
              else match Lookup(link, path)
                case Some(w) =>
                  if !Truthy(w) then (if Truthy(v) then Some(v) else None)
                  else if w.Box? && Truthy(v) then Some(Overlay(v, w)) else Some(w)
                case None => if Truthy(v) then Some(v) else None
  {
    if Removed(intf, path) {
      RemovedIsAbsent(intf, path);
    } else {
      var found := Lookup(intf, path);
      LinkContribution(intf, link, path, keys, None);
      if found.Some? && found.value.Box? {
        LinkContribution(intf, link, path, keys, found);
      }
    }
  }

  /** Merging first and looking up afterwards agrees with the walk along the
      chain exactly under that condition. */
  lemma MergeAgreesWithChain(intf: Value, link: Value, path: seq<string>, keys: Value -> seq<string>)
    requires IsKeyOrder(keys) && intf.Box? && link.Box? && WellMarked(intf) && WellMarked(link)
    ensures Effective(intf, link, path, keys) == Lookup(MergeAlong(intf, link, keys, None), path) <==> SameKindAndTruthy(intf, link, path)
  {
    WellMarkedIsOrderFree(intf, link);
    MergeIsOverlay(intf, link, keys, None);
    LookupOverlay(intf, link, path);
    ChainValue(intf, link, path, keys);
    if Removed(intf, path) {
      RemovedIsAbsent(intf, path);
    }
    var onIntf, onLink := Lookup(intf, path), Lookup(link, path);
    if onIntf.Some? && onIntf.value.Box? {
      OverlayEmpty(onIntf.value);
      if onLink.Some? && onLink.value.Box? {
        OverlayEmpty(onLink.value);
      }
    }
  }
}
