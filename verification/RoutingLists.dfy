/** Ordered permit/deny lists with first-match semantics: the meaning netlab gives
    to prefix, AS-path and community lists (stated in the comments of
    netsim/devices/arcos.py). */
module RoutingLists {
  datatype Action = Permit | Deny

  datatype Entry<+C> = Entry(action: Action, cond: C)

  /** The first matching entry decides; a list without a match denies. */
  function FirstMatch<C>(list: seq<Entry<C>>, matches: C -> bool): bool {
    if list == [] then false
    else if matches(list[0].cond) then list[0].action.Permit?
    else FirstMatch(list[1..], matches)
  }

  /** Some entry with the action matches. */
  predicate AnyMatch<C>(list: seq<Entry<C>>, action: Action, matches: C -> bool) {
    exists i :: 0 <= i < |list| && list[i].action == action && matches(list[i].cond)
  }

  /** No matching deny entry comes before a matching permit entry. */
  ghost predicate NoShadow<C>(list: seq<Entry<C>>, matches: C -> bool) {
    forall i, j | 0 <= i < j < |list| :: !(list[i].action.Deny? && list[j].action.Permit? && matches(list[i].cond) && matches(list[j].cond))
  }

  lemma AnyMatchTail<C>(list: seq<Entry<C>>, action: Action, matches: C -> bool)
    requires list != []
    ensures AnyMatch(list, action, matches) <==>
            (list[0].action == action && matches(list[0].cond)) || AnyMatch(list[1..], action, matches)
  {
    if i :| 0 < i < |list| && list[i].action == action && matches(list[i].cond) {
      assert list[1..][i - 1] == list[i];
    }
  }

  /** Without shadowing the order is immaterial: some permit entry matches. */
  lemma {:induction false} UnshadowedIsPermit<C>(list: seq<Entry<C>>, matches: C -> bool)
    requires NoShadow(list, matches)
    ensures FirstMatch(list, matches) <==> AnyMatch(list, Permit, matches)
  {
    if list == [] {
    } else {
      AnyMatchTail(list, Permit, matches);
      if !matches(list[0].cond) {
        assert forall i | 0 <= i < |list| - 1 :: list[1..][i] == list[i + 1];
        UnshadowedIsPermit(list[1..], matches);
      }
    }
  }

  predicate HasDeny<C>(list: seq<Entry<C>>) {
    exists i :: 0 <= i < |list| && list[i].action.Deny?
  }

  /** A deny entry after a permit entry. */
  predicate OutOfOrder<C>(list: seq<Entry<C>>) {
    exists i, j :: 0 <= i < j < |list| && list[i].action.Permit? && list[j].action.Deny?
  }

  /** The list evaluated as two unordered sets. */
  predicate SplitMatch<C>(list: seq<Entry<C>>, matches: C -> bool) {
    !AnyMatch(list, Deny, matches) && AnyMatch(list, Permit, matches)
  }

  /** With all deny entries in front the list means: in no deny entry, and in some
      permit entry. */
  lemma {:induction false} OrderedSplits<C>(list: seq<Entry<C>>, matches: C -> bool)
    requires !OutOfOrder(list)
    ensures FirstMatch(list, matches) <==> SplitMatch(list, matches)
  {
    if list == [] {
    } else {
      AnyMatchTail(list, Permit, matches);
      AnyMatchTail(list, Deny, matches);
      assert forall i | 0 <= i < |list| - 1 :: list[1..][i] == list[i + 1];
      OrderedSplits(list[1..], matches);
      if list[0].action.Permit? && matches(list[0].cond) {
        assert !AnyMatch(list[1..], Deny, matches);
      }
    }
  }

  /** When an entry with the action and a later one with the other action match,
      an entry with the other action before both matches, too. */
  predicate EarlierDecides<C>(list: seq<Entry<C>>, action: Action, matches: C -> bool) {
    forall i, j | 0 <= i < j < |list| && list[i].action == action && list[j].action != action
                  && matches(list[i].cond) && matches(list[j].cond) ::
      exists k :: 0 <= k < i && list[k].action != action && matches(list[k].cond)
  }

  /** The first matching entry of a list in which some entry matches. */
  lemma FirstMatching<C>(list: seq<Entry<C>>, matches: C -> bool, some: nat) returns (i: nat)
    requires some < |list| && matches(list[some].cond)
    ensures i <= some && matches(list[i].cond) && forall k | 0 <= k < i :: !matches(list[k].cond)
    ensures FirstMatch(list, matches) == list[i].action.Permit?
  {
    i := 0;
    while !matches(list[i].cond)
      invariant i <= some && forall k | 0 <= k < i :: !matches(list[k].cond)
      decreases some - i
    {
      i := i + 1;
    }
    FirstMatchAt(list, matches, i);
  }

  lemma NoMatchDenies<C>(list: seq<Entry<C>>, matches: C -> bool)
    requires forall k | 0 <= k < |list| :: !matches(list[k].cond)
    ensures !FirstMatch(list, matches)
  {
    UnshadowedIsPermit(list, matches);
  }

  /** First match means that some permit entry matches, exactly when denials never
      come first before a matching permit entry. */
  lemma FlatExactAt<C>(list: seq<Entry<C>>, matches: C -> bool)
    ensures (FirstMatch(list, matches) <==> AnyMatch(list, Permit, matches)) <==> EarlierDecides(list, Deny, matches)
  {
    if some :| 0 <= some < |list| && matches(list[some].cond) {
      var i := FirstMatching(list, matches, some);
    } else {
      NoMatchDenies(list, matches);
    }
  }

  /** First match equals the two-set reading, exactly when permit entries never
      come first before a matching denial. */
  lemma SplitExactAt<C>(list: seq<Entry<C>>, matches: C -> bool)
    ensures FirstMatch(list, matches) == SplitMatch(list, matches) <==> EarlierDecides(list, Permit, matches)
  {
    if some :| 0 <= some < |list| && matches(list[some].cond) {
      var i := FirstMatching(list, matches, some);
    } else {
      NoMatchDenies(list, matches);
    }
  }

  /** With all denials in front nothing can come to the aid of a permit entry. */
  lemma DenialsFirstAt<C>(list: seq<Entry<C>>, matches: C -> bool)
    requires !OutOfOrder(list)
    ensures EarlierDecides(list, Deny, matches) <==>
            forall i, j | 0 <= i < j < |list| && list[i].action.Deny? && list[j].action.Permit? ::
              !(matches(list[i].cond) && matches(list[j].cond))
  {
  }

  lemma {:induction false} FirstMatchAt<C>(list: seq<Entry<C>>, matches: C -> bool, i: nat)
    requires i < |list| && matches(list[i].cond) && forall k | 0 <= k < i :: !matches(list[k].cond)
    ensures FirstMatch(list, matches) == list[i].action.Permit?
  {
    if i == 0 {
    } else {
      FirstMatchAt(list[1..], matches, i - 1);
    }
  }

  /** For a list without repeated conditions the order of permit and deny entries
      is exactly what decides whether it can be evaluated as two sets. */
  lemma SplitExact<C(!new)>(list: seq<Entry<C>>)
    requires forall i, j | 0 <= i < j < |list| :: list[i].cond != list[j].cond
    ensures (forall matches: C -> bool :: FirstMatch(list, matches) == SplitMatch(list, matches)) <==> !OutOfOrder(list)
  {
    if OutOfOrder(list) {
      var i, j :| 0 <= i < j < |list| && list[i].action.Permit? && list[j].action.Deny?;
      var matches := (c: C) => c == list[i].cond || c == list[j].cond;
      FirstMatchAt(list, matches, i);
      assert FirstMatch(list, matches) != SplitMatch(list, matches);
    } else {
      forall matches: C -> bool ensures FirstMatch(list, matches) == SplitMatch(list, matches) {
        OrderedSplits(list, matches);
      }
    }
  }
}
