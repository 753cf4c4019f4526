/** The walk along a chain of objects for one attribute
    (get_effective_module_attribute in netsim/modules/__init__.py), for chains of
    any length: interface, link, node, topology and defaults, or the part of them
    that a caller supplies. */
module InheritanceChain {
  import opened AttributeMerge
  import opened Boxes
  import opened Options

  ghost predicate AreObjects(objs: seq<Option<Value>>) {
    forall o | o in objs && o.Some? :: o.value.Box?
  }

  /** Object i is there and has a true value at the path, and neither it nor an
      object before it has the path removed. */
  ghost predicate Usable(objs: seq<Option<Value>>, path: seq<string>, i: nat) {
    && i < |objs| && objs[i].Some?
    && Lookup(objs[i].value, path).Some? && Truthy(Lookup(objs[i].value, path).value)
    && forall j | 0 <= j <= i && objs[j].Some? :: !Removed(objs[j].value, path)
  }

  function ValueAt(objs: seq<Option<Value>>, path: seq<string>, i: nat): Value {
    if i < |objs| && objs[i].Some? then Lookup(objs[i].value, path).GetOr(Null) else Null
  }

  /** found lists, in order, the objects from position i on that are usable. */
  ghost predicate IsFound(objs: seq<Option<Value>>, path: seq<string>, i: nat, found: seq<nat>) {
    && (forall k, l | 0 <= k < l < |found| :: found[k] < found[l])
    && forall n: nat :: n in found <==> i <= n && Usable(objs, path, n)
  }

  /** Dictionaries merged one after the other, the first one on top. */
  function MergeAll(values: seq<Value>, keys: Value -> seq<string>): (merged: Value)
    requires IsKeyOrder(keys) && values != [] && forall v | v in values :: v.Box?
    ensures merged.Box?
  {
    if |values| == 1 then values[0]
    else
      var front := values[..|values| - 1];
      MergeAlong(MergeAll(front, keys), values[|values| - 1], keys, None)
  }

  ghost predicate ReachedUnremoved(objs: seq<Option<Value>>, path: seq<string>, i: nat)
    requires i <= |objs|
  {
    forall j | 0 <= j < i && objs[j].Some? :: !Removed(objs[j].value, path)
  }

  /** The walk goes on to the first usable object and ends without one. */
  lemma {:induction false} WalkToUsable(objs: seq<Option<Value>>, path: seq<string>, mergeDict: bool, keys: Value -> seq<string>,
                                        i: nat, composite: Option<Value>, found: seq<nat>)
    requires IsKeyOrder(keys) && AreObjects(objs) && i <= |objs| && (composite.Some? ==> composite.value.Box?)
    requires ReachedUnremoved(objs, path, i) && IsFound(objs, path, i, found)
    ensures found == [] ==> EffectiveFrom(objs, path, mergeDict, keys, i, composite) == composite
    ensures found != [] ==>
              && i <= found[0] < |objs| && Usable(objs, path, found[0])
              && EffectiveFrom(objs, path, mergeDict, keys, i, composite) == EffectiveFrom(objs, path, mergeDict, keys, found[0], composite)
    decreases |objs| - i
  {
    if found != [] {
      assert found[0] in found;
    }
    if i == |objs| {
    } else if Usable(objs, path, i) {
      assert i in found;
      var k :| 0 <= k < |found| && found[k] == i;
      assert found[0] <= found[k];
    } else if objs[i].Some? && Removed(objs[i].value, path) {
      assert forall n: nat | i <= n :: !Usable(objs, path, n);
    } else {
      WalkToUsable(objs, path, mergeDict, keys, i + 1, composite, found);
    }
  }

  /** Without merging, the walk finds the value of the first usable object. */
  lemma FirstUsableValue(objs: seq<Option<Value>>, path: seq<string>, keys: Value -> seq<string>, found: seq<nat>)
    requires IsKeyOrder(keys) && AreObjects(objs) && IsFound(objs, path, 0, found)
    ensures forall n | n in found :: Usable(objs, path, n)
    ensures EffectiveFrom(objs, path, false, keys, 0, None) ==
            if found == [] then None else Some(ValueAt(objs, path, found[0]))
  {
    WalkToUsable(objs, path, false, keys, 0, None, found);
  }

  lemma TailIsFound(objs: seq<Option<Value>>, path: seq<string>, i: nat, found: seq<nat>)
    requires IsFound(objs, path, i, found) && found != []
    ensures IsFound(objs, path, found[0] + 1, found[1..])
    ensures Usable(objs, path, found[0]) && ReachedUnremoved(objs, path, found[0] + 1)
  {
    assert found[0] in found;
    forall n: nat ensures n in found[1..] <==> found[0] + 1 <= n && Usable(objs, path, n) {
      if found[0] + 1 <= n && Usable(objs, path, n) {
        assert n in found;
        var k :| 0 <= k < |found| && found[k] == n;
        assert found[1..][k - 1] == n;
      }
      if n in found[1..] {
        var k :| 0 <= k < |found| - 1 && found[1..][k] == n;
        assert found[k + 1] == n && n in found;
      }
    }
  }

  function ValuesAt(objs: seq<Option<Value>>, path: seq<string>, found: seq<nat>): (values: seq<Value>)
    ensures |values| == |found| && forall k | 0 <= k < |found| :: values[k] == ValueAt(objs, path, found[k])
  {
    seq(|found|, k requires 0 <= k < |found| => ValueAt(objs, path, found[k]))
  }

  lemma MergeTrueIsTrue(to: Value, from: Value, keys: Value -> seq<string>)
    requires IsKeyOrder(keys) && to.Box? && from.Box? && Truthy(to)
    ensures Truthy(MergeAlong(to, from, keys, None))
  {
    KeysOf(keys, from);
    var k :| k in to.fields;
    KeyStays(to, from, keys, keys(from), None, k);
  }

  function Collected(values: seq<Value>, keys: Value -> seq<string>): (composite: Option<Value>)
    requires IsKeyOrder(keys) && forall v | v in values :: v.Box?
    ensures composite.Some? ==> composite.value.Box?
  {
    if values == [] then None else Some(MergeAll(values, keys))
  }

  /** The first usable object ends the walk with a plain value. */
  lemma PlainEnds(objs: seq<Option<Value>>, path: seq<string>, keys: Value -> seq<string>, i: nat, composite: Option<Value>, found: seq<nat>)
    requires IsKeyOrder(keys) && AreObjects(objs) && i <= |objs| && (composite.Some? ==> composite.value.Box?)
    requires ReachedUnremoved(objs, path, i) && IsFound(objs, path, i, found)
    requires found != [] && !ValueAt(objs, path, found[0]).Box?
    ensures EffectiveFrom(objs, path, true, keys, i, composite) == Some(ValueAt(objs, path, found[0]))
  {
    WalkToUsable(objs, path, true, keys, i, composite, found);
  }

  /** A dictionary is merged below those collected, and the walk goes on. */
  lemma DictionaryMerged(objs: seq<Option<Value>>, path: seq<string>, keys: Value -> seq<string>, i: nat, before: seq<Value>, found: seq<nat>)
    requires IsKeyOrder(keys) && AreObjects(objs) && i <= |objs|
    requires forall v | v in before :: v.Box?
    requires before != [] ==> Truthy(MergeAll(before, keys))
    requires ReachedUnremoved(objs, path, i) && IsFound(objs, path, i, found)
    requires found != [] && ValueAt(objs, path, found[0]).Box?
    ensures var after := before + [ValueAt(objs, path, found[0])];
            && found[0] < |objs| && (forall v | v in after :: v.Box?)
            && Truthy(MergeAll(after, keys))
            && EffectiveFrom(objs, path, true, keys, i, Collected(before, keys)) ==
               EffectiveFrom(objs, path, true, keys, found[0] + 1, Collected(after, keys))
  {
    WalkToUsable(objs, path, true, keys, i, Collected(before, keys), found);
    var v := ValueAt(objs, path, found[0]);
    var after := before + [v];
    assert after[..|after| - 1] == before && after[|after| - 1] == v;
    if before != [] {
      MergeTrueIsTrue(MergeAll(before, keys), v, keys);
    }
  }

  lemma ValuesAtTail(objs: seq<Option<Value>>, path: seq<string>, before: seq<Value>, found: seq<nat>, stop: nat)
    requires 0 < stop <= |found|
    ensures before + ValuesAt(objs, path, found[..stop]) ==
            (before + [ValueAt(objs, path, found[0])]) + ValuesAt(objs, path, found[1..][..stop - 1])
  {
  }

  /** The dictionaries come first, up to a plain value if there is one. */
  ghost predicate StopsAt(objs: seq<Option<Value>>, path: seq<string>, found: seq<nat>, stop: nat) {
    && stop <= |found|
    && (forall k | 0 <= k < stop :: ValueAt(objs, path, found[k]).Box?)
    && (stop < |found| ==> !ValueAt(objs, path, found[stop]).Box?)
  }

  lemma StopsAtTail(objs: seq<Option<Value>>, path: seq<string>, found: seq<nat>, stop: nat)
    requires StopsAt(objs, path, found, stop) && stop > 0
    ensures ValueAt(objs, path, found[0]).Box? && StopsAt(objs, path, found[1..], stop - 1)
  {
  }

  /** The walk with dictionaries collected already. */
  lemma {:induction false} WalkMerges(objs: seq<Option<Value>>, path: seq<string>, keys: Value -> seq<string>,
                                      i: nat, before: seq<Value>, found: seq<nat>, stop: nat)
    requires IsKeyOrder(keys) && AreObjects(objs) && i <= |objs|
    requires ReachedUnremoved(objs, path, i) && IsFound(objs, path, i, found)
    requires forall v | v in before :: v.Box?
    requires before != [] ==> Truthy(MergeAll(before, keys))
    requires StopsAt(objs, path, found, stop)
    ensures forall v | v in before + ValuesAt(objs, path, found[..stop]) :: v.Box?
    ensures EffectiveFrom(objs, path, true, keys, i, Collected(before, keys)) ==
            if stop < |found| then Some(ValueAt(objs, path, found[stop]))
            else Collected(before + ValuesAt(objs, path, found[..stop]), keys)
    decreases |found|
  {
    if stop == 0 {
      assert before + ValuesAt(objs, path, found[..stop]) == before;
      if found == [] {
        WalkToUsable(objs, path, true, keys, i, Collected(before, keys), found);
      } else {
        PlainEnds(objs, path, keys, i, Collected(before, keys), found);
      }
    } else {
      var after := before + [ValueAt(objs, path, found[0])];
      StopsAtTail(objs, path, found, stop);
      DictionaryMerged(objs, path, keys, i, before, found);
      TailIsFound(objs, path, i, found);
      WalkMerges(objs, path, keys, found[0] + 1, after, found[1..], stop - 1);
      ValuesAtTail(objs, path, before, found, stop);
    }
  }

  /** With merging: the first plain value if the usable objects have one; otherwise
      all their dictionaries merged, the first one on top. */
  lemma UsableValuesMerged(objs: seq<Option<Value>>, path: seq<string>, keys: Value -> seq<string>, found: seq<nat>, stop: nat)
    requires IsKeyOrder(keys) && AreObjects(objs) && IsFound(objs, path, 0, found)
    requires StopsAt(objs, path, found, stop)
    ensures stop == |found| ==> forall v | v in ValuesAt(objs, path, found) :: v.Box?
    ensures EffectiveFrom(objs, path, true, keys, 0, None) ==
            if stop < |found| then Some(ValueAt(objs, path, found[stop]))
            else Collected(ValuesAt(objs, path, found), keys)
  {
    WalkMerges(objs, path, keys, 0, [], found, stop);
    assert [] + ValuesAt(objs, path, found[..stop]) == ValuesAt(objs, path, found[..stop]);
    if stop == |found| {
      assert found[..stop] == found;
    }
  }

  function OverlayAll(values: seq<Value>): (merged: Value)
    requires values != [] && forall v | v in values :: v.Box?
    ensures merged.Box?
  {
    if |values| == 1 then values[0] else Overlay(OverlayAll(values[..|values| - 1]), values[|values| - 1])
  }

  /** As long as no dictionary lists a removed name that it still has, merging does
      not depend on the order of the keys. */
  lemma {:induction false} MergeAllIsOverlay(values: seq<Value>, keys: Value -> seq<string>)
    requires IsKeyOrder(keys) && values != [] && forall v | v in values :: v.Box? && WellMarked(v)
    ensures MergeAll(values, keys) == OverlayAll(values)
  {
    if |values| == 1 {
    } else {
      var front, last := values[..|values| - 1], values[|values| - 1];
      MergeAllIsOverlay(front, keys);
      WellMarkedIsOrderFree(MergeAll(front, keys), last);
      MergeIsOverlay(MergeAll(front, keys), last, keys, None);
    }
  }

  // ----- missing objects

  lemma {:induction false} SuffixDecides(objs: seq<Option<Value>>, path: seq<string>, mergeDict: bool, keys: Value -> seq<string>,
                                         i: nat, rest: seq<Option<Value>>, j: nat, composite: Option<Value>)
    requires IsKeyOrder(keys) && AreObjects(objs) && AreObjects(rest) && (composite.Some? ==> composite.value.Box?)
    requires i <= |objs| && j <= |rest| && objs[i..] == rest[j..]
    ensures EffectiveFrom(objs, path, mergeDict, keys, i, composite) == EffectiveFrom(rest, path, mergeDict, keys, j, composite)
    decreases |objs| - i
  {
    if i == |objs| {
    } else {
      assert objs[i] == objs[i..][0] == rest[j..][0] == rest[j];
      assert objs[i + 1..] == objs[i..][1..] == rest[j..][1..] == rest[j + 1..];
      SuffixDecides(objs, path, mergeDict, keys, i + 1, rest, j + 1, composite);
      var found := if objs[i].Some? then Lookup(objs[i].value, path) else None;
      if found.Some? && found.value.Box? {
        var merged := if composite.Some? && Truthy(composite.value) then MergeAlong(composite.value, found.value, keys, None) else found.value;
        SuffixDecides(objs, path, mergeDict, keys, i + 1, rest, j + 1, Some(merged));
      }
    }
  }

  lemma {:induction false} MissingSkippedFrom(a: seq<Option<Value>>, b: seq<Option<Value>>, path: seq<string>, mergeDict: bool,
                                              keys: Value -> seq<string>, i: nat, composite: Option<Value>)
    requires IsKeyOrder(keys) && AreObjects(a + b) && (composite.Some? ==> composite.value.Box?) && i <= |a|
    requires AreObjects(a + [None] + b)
    ensures EffectiveFrom(a + [None] + b, path, mergeDict, keys, i, composite) == EffectiveFrom(a + b, path, mergeDict, keys, i, composite)
    decreases |a| - i
  {
    var long, short := a + [None] + b, a + b;
    if i == |a| {
      assert long[i].None? && long[i + 1..] == b == short[i..];
      SuffixDecides(long, path, mergeDict, keys, i + 1, short, i, composite);
    } else {
      assert long[i] == short[i] == a[i];
      MissingSkippedFrom(a, b, path, mergeDict, keys, i + 1, composite);
      var found := if a[i].Some? then Lookup(a[i].value, path) else None;
      if found.Some? && found.value.Box? {
        var merged := if composite.Some? && Truthy(composite.value) then MergeAlong(composite.value, found.value, keys, None) else found.value;
        MissingSkippedFrom(a, b, path, mergeDict, keys, i + 1, Some(merged));
      }
    }
  }

  /** An object that the caller does not supply makes no difference, anywhere in
      the chain. */
  lemma MissingSkipped(a: seq<Option<Value>>, b: seq<Option<Value>>, path: seq<string>, mergeDict: bool, keys: Value -> seq<string>)
    requires IsKeyOrder(keys) && AreObjects(a + b)
    ensures AreObjects(a + [None] + b)
    ensures EffectiveFrom(a + [None] + b, path, mergeDict, keys, 0, None) == EffectiveFrom(a + b, path, mergeDict, keys, 0, None)
  {
    forall o | o in a + [None] + b && o.Some? ensures o.value.Box? {
      assert o in a + b;
    }
    MissingSkippedFrom(a, b, path, mergeDict, keys, 0, None);
  }
}
