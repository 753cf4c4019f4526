/** Prefix, AS-path and community lists on Cisco IOS XR (netsim/devices/iosxr.py):
    lists with deny entries are split into a permit and a deny set, routing
    policies are rewritten to use the two sets, and the original list goes. */
module XrSets {
  import opened RoutingLists
  import opened Sequences

  function DenyName(n: string): string {
    n + "_deny"
  }

  function PermitName(n: string): string {
    n + "_permit"
  }

  lemma GeneratedNamesInjective(a: string, b: string)
    ensures DenyName(a) == DenyName(b) ==> a == b
    ensures PermitName(a) == PermitName(b) ==> a == b
    ensures DenyName(a) != PermitName(b)
  {
    if DenyName(a) == DenyName(b) {
      assert a == DenyName(a)[..|DenyName(a)| - 5] == b;
    }
    if PermitName(a) == PermitName(b) {
      assert a == PermitName(a)[..|PermitName(a)| - 7] == b;
    }
    assert DenyName(a)[|DenyName(a)| - 1] == 'y' && PermitName(b)[|PermitName(b)| - 1] == 't';
  }

  /** How a policy entry matches on lists of the current kind: not at all, on one
      list, or (communities) on one list for every community type. */
  datatype Match = NoMatch | Direct(list: string) | PerKind(lists: map<string, string>)

  datatype SetPair = SetPair(deny: string, permit: string)

  /** xr holds the generated attributes: under ":direct" for a direct match, under the
      community type otherwise. */
  datatype PolicyEntry = PolicyEntry(match_: Match, xr: map<string, SetPair>)

  function Pair(n: string): SetPair {
    SetPair(DenyName(n), PermitName(n))
  }

  function Moved(lists: map<string, string>, gone: set<string>): set<string> {
    set k | k in lists && lists[k] in gone
  }

  function Pairs(lists: map<string, string>, gone: set<string>): map<string, SetPair> {
    map k | k in lists && lists[k] in gone :: Pair(lists[k])
  }

  /** A community match goes when its last list has moved. */
  function LeftOver(lists: map<string, string>, gone: set<string>): Match {
    if Moved(lists, gone) != {} && Moved(lists, gone) == lists.Keys then NoMatch else PerKind(lists - Moved(lists, gone))
  }

  /** The entry with all references to lists in gone replaced. */
  function Rewritten(e: PolicyEntry, gone: set<string>): PolicyEntry {
    match e.match_
    case NoMatch => e
    case Direct(n) => if n in gone then PolicyEntry(NoMatch, e.xr[":direct" := Pair(n)]) else e
    case PerKind(lists) => PolicyEntry(LeftOver(lists, gone), e.xr + Pairs(lists, gone))
  }

  lemma MovedTwice(lists: map<string, string>, gone: set<string>, n: string)
    ensures var left := lists - Moved(lists, gone);
            && Moved(lists, gone + {n}) == Moved(lists, gone) + Moved(left, {n})
            && left - Moved(left, {n}) == lists - Moved(lists, gone + {n})
            && Pairs(lists, gone) + Pairs(left, {n}) == Pairs(lists, gone + {n})
  {
  }

  lemma LeftOverTwice(lists: map<string, string>, gone: set<string>, n: string)
    requires lists - Moved(lists, gone) != map[]
    ensures LeftOver(lists - Moved(lists, gone), {n}) == LeftOver(lists, gone + {n})
  {
    MovedTwice(lists, gone, n);
    var left := lists - Moved(lists, gone);
    assert Moved(left, {n}) == left.Keys <==> Moved(lists, gone + {n}) == lists.Keys;
    if Moved(left, {n}) == {} {
      assert left - Moved(left, {n}) == left;
    }
  }

  lemma RewrittenTwice(e: PolicyEntry, gone: set<string>, n: string)
    ensures Rewritten(Rewritten(e, gone), {n}) == Rewritten(e, gone + {n})
  {
    if e.match_.PerKind? {
      var lists := e.match_.lists;
      var left := lists - Moved(lists, gone);
      MovedTwice(lists, gone, n);
      assert e.xr + Pairs(lists, gone) + Pairs(left, {n}) == e.xr + Pairs(lists, gone + {n});
      if left == map[] {
        NothingLeft(lists, gone, n);
      } else {
        LeftOverTwice(lists, gone, n);
      }
    }
  }

  lemma NothingLeft(lists: map<string, string>, gone: set<string>, n: string)
    requires lists - Moved(lists, gone) == map[]
    ensures Moved(lists, gone) == Moved(lists, gone + {n}) == lists.Keys
    ensures Pairs(map[], {n}) == map[] && Pairs(lists, gone + {n}) == Pairs(lists, gone)
    ensures LeftOver(map[], {n}) == PerKind(map[])
  {
    var left := lists - Moved(lists, gone);
    forall k | k in lists ensures k in Moved(lists, gone) {
      assert k !in left;
    }
    var none: map<string, string> := map[];
    assert none - Moved(none, {n}) == none;
  }

  type Lists<C> = map<string, seq<Entry<C>>>

  function OnlyAction<C>(list: seq<Entry<C>>, action: Action): seq<Entry<C>> {
    if list == [] then [] else (if list[0].action == action then [list[0]] else []) + OnlyAction(list[1..], action)
  }

  /** Names generated for lists that get split collide with no list of the node. */
  ghost predicate FreshNames<C>(lists: Lists<C>) {
    forall n | n in lists && HasDeny(lists[n]) :: DenyName(n) !in lists && PermitName(n) !in lists
  }

  /** List n has been replaced by its deny and permit entries. */
  ghost predicate SplitList<C>(before: Lists<C>, after: Lists<C>, n: string)
    requires n in before
  {
    && n !in after
    && DenyName(n) in after && after[DenyName(n)] == OnlyAction(before[n], Deny)
    && PermitName(n) in after && after[PermitName(n)] == OnlyAction(before[n], Permit)
  }

  ghost predicate IsGenerated(x: string, gone: set<string>) {
    exists n :: n in gone && (x == DenyName(n) || x == PermitName(n))
  }

  /** The lists after those in gone have been split. */
  ghost predicate SplitInto<C>(before: Lists<C>, gone: set<string>, after: Lists<C>) {
    && (forall n | n in before && n in gone :: SplitList(before, after, n))
    && (forall n | n in before && n !in gone :: n in after && after[n] == before[n])
    && (forall x | x in after && x !in before :: IsGenerated(x, gone))
  }

  function WithSplit<C>(lists: Lists<C>, list: seq<Entry<C>>, n: string): Lists<C> {
    lists[DenyName(n) := OnlyAction(list, Deny)][PermitName(n) := OnlyAction(list, Permit)] - {n}
  }

  lemma OthersStaySplit<C>(before: Lists<C>, after: Lists<C>, n: string, after': Lists<C>, m: string)
    requires FreshNames(before) && n in before && m in before && m != n && HasDeny(before[n]) && HasDeny(before[m])
    requires after' == WithSplit(after, before[n], n)
    requires SplitList(before, after, m)
    ensures SplitList(before, after', m)
  {
    GeneratedNamesInjective(m, n);
    GeneratedNamesInjective(n, m);
  }

  lemma SplitStep<C>(before: Lists<C>, gone: set<string>, after: Lists<C>, n: string, after': Lists<C>)
    requires FreshNames(before) && SplitInto(before, gone, after)
    requires n in before && n !in gone && HasDeny(before[n]) && gone <= WithDeny(before)
    requires after' == WithSplit(after, before[n], n)
    ensures SplitInto(before, gone + {n}, after')
  {
    GeneratedNamesInjective(n, n);
    assert SplitList(before, after', n);
    forall m | m in before && m in gone ensures SplitList(before, after', m) {
      OthersStaySplit(before, after, n, after', m);
    }
    forall m | m in before && m !in gone && m != n ensures m in after' && after'[m] == before[m] {
      assert m != DenyName(n) && m != PermitName(n);
    }
    forall x | x in after' && x !in before ensures IsGenerated(x, gone + {n}) {
      if x in after {
        assert IsGenerated(x, gone);
      }
    }
  }

  type Policies = map<string, seq<PolicyEntry>>

  /** Every policy entry is the original one without references to lists in
      gone. */
  ghost predicate PoliciesRewritten(before: Policies, after: Policies, gone: set<string>) {
    && after.Keys == before.Keys
    && forall p | p in before :: PolicyRewritten(before[p], after[p], gone)
  }

  ghost predicate PolicyRewritten(before: seq<PolicyEntry>, after: seq<PolicyEntry>, gone: set<string>) {
    |after| == |before| && forall i | 0 <= i < |before| :: after[i] == Rewritten(before[i], gone)
  }

  lemma PoliciesCompose(before: Policies, mid: Policies, after: Policies, gone: set<string>, n: string)
    requires PoliciesRewritten(before, mid, gone) && PoliciesRewritten(mid, after, {n})
    ensures PoliciesRewritten(before, after, gone + {n})
  {
    forall p | p in before ensures PolicyRewritten(before[p], after[p], gone + {n}) {
      assert PolicyRewritten(before[p], mid[p], gone) && PolicyRewritten(mid[p], after[p], {n});
      forall i | 0 <= i < |before[p]| ensures after[p][i] == Rewritten(before[p][i], gone + {n}) {
        RewrittenTwice(before[p][i], gone, n);
      }
    }
  }

  lemma RewrittenByNothing(e: PolicyEntry)
    ensures Rewritten(e, {}) == e
  {
    if e.match_.PerKind? {
      assert e.match_.lists - Moved(e.match_.lists, {}) == e.match_.lists;
      assert e.xr + Pairs(e.match_.lists, {}) == e.xr;
    }
  }

  lemma NothingRewritten(policies: Policies)
    ensures PoliciesRewritten(policies, policies, {})
  {
    forall p, i | p in policies && 0 <= i < |policies[p]| ensures Rewritten(policies[p][i], {}) == policies[p][i] {
      RewrittenByNothing(policies[p][i]);
    }
  }

  function WithDeny<C>(lists: Lists<C>): set<string> {
    set n | n in lists && HasDeny(lists[n])
  }

  function WithWarning<C>(lists: Lists<C>): set<string> {
    set n | n in lists && OutOfOrder(lists[n])
  }

  /** State of the outer loop while the lists in names are still to come. */
  ghost predicate Progress<C>(before: Lists<C>, policies0: Policies, names: set<string>,
                              lists: Lists<C>, policies: Policies, warned: set<string>) {
    && FreshNames(before) && names <= before.Keys
    && warned == WithWarning(before) - names
    && SplitInto(before, WithDeny(before) - names, lists)
    && PoliciesRewritten(policies0, policies, WithDeny(before) - names)
    && forall n | n in names :: n in lists && lists[n] == before[n]
  }

  lemma ProgressStarts<C>(lists: Lists<C>, policies: Policies)
    requires FreshNames(lists)
    ensures Progress(lists, policies, lists.Keys, lists, policies, {})
  {
    NothingRewritten(policies);
    assert WithDeny(lists) - lists.Keys == {};
  }

  lemma ProgressEnds<C>(before: Lists<C>, policies0: Policies, lists: Lists<C>, policies: Policies, warned: set<string>)
    requires Progress(before, policies0, {}, lists, policies, warned)
    ensures SplitInto(before, WithDeny(before), lists)
    ensures PoliciesRewritten(policies0, policies, WithDeny(before))
    ensures warned == WithWarning(before)
  {
    assert WithDeny(before) - {} == WithDeny(before);
  }

  lemma ListProcessed<C>(before: Lists<C>, policies0: Policies, names: set<string>,
                         lists: Lists<C>, policies: Policies, warned: set<string>, n: string,
                         lists': Lists<C>, policies': Policies, warned': set<string>)
    requires Progress(before, policies0, names, lists, policies, warned) && n in names
    requires warned' == if OutOfOrder(lists[n]) then warned + {n} else warned
    requires if HasDeny(lists[n])
             then lists' == WithSplit(lists, lists[n], n) && PoliciesRewritten(policies, policies', {n})
             else lists' == lists && policies' == policies
    ensures Progress(before, policies0, names - {n}, lists', policies', warned')
  {
    var gone, rest := WithDeny(before) - names, WithDeny(before) - (names - {n});
    assert lists[n] == before[n];
    if HasDeny(before[n]) {
      SplitStep(before, gone, lists, n, lists');
      PoliciesCompose(policies0, policies, policies', gone, n);
      assert rest == gone + {n};
      forall m | m in names - {n} ensures m in lists' && lists'[m] == before[m] {
        assert m != DenyName(n) && m != PermitName(n);
      }
    } else {
      assert rest == gone;
    }
  }

  lemma LeftOverEmpty(lists: map<string, string>, n: string)
    ensures LeftOver(lists, {n}) ==
            if lists - Moved(lists, {n}) == map[] && lists != map[] then NoMatch else PerKind(lists - Moved(lists, {n}))
  {
    var left := lists - Moved(lists, {n});
    assert left.Keys == lists.Keys - Moved(lists, {n});
    if left == map[] {
      forall k | k in lists ensures k in Moved(lists, {n}) {
        assert k !in left;
      }
      if Moved(lists, {n}) == {} {
        assert lists.Keys == {};
        assert lists == map[];
      }
    }
    if Moved(lists, {n}) == lists.Keys {
      assert left == map[];
    }
  }

  /** State of the loop over the community types while those in kinds are still to
      come. */
  ghost predicate KindsUpdated(lists: map<string, string>, xr: map<string, SetPair>, n: string, kinds: set<string>,
                               left: map<string, string>, updated: map<string, SetPair>) {
    var done := Moved(lists, {n}) - kinds;
    && kinds <= lists.Keys
    && left == lists - done
    && updated == xr + map k | k in done :: Pair(n)
  }

  lemma KindUpdated(lists: map<string, string>, xr: map<string, SetPair>, n: string, kinds: set<string>,
                    left: map<string, string>, updated: map<string, SetPair>, k: string)
    requires KindsUpdated(lists, xr, n, kinds, left, updated) && k in kinds
    ensures if lists[k] == n then KindsUpdated(lists, xr, n, kinds - {k}, left - {k}, updated[k := Pair(n)])
            else KindsUpdated(lists, xr, n, kinds - {k}, left, updated)
  {
    var done, more := Moved(lists, {n}) - kinds, Moved(lists, {n}) - (kinds - {k});
    if lists[k] == n {
      assert more == done + {k};
      assert lists - done - {k} == lists - more;
      assert (map m | m in more :: Pair(n)) == (map m | m in done :: Pair(n))[k := Pair(n)];
    } else {
      assert more == done;
    }
  }

  class Routing<C(!new)> {
    var lists: Lists<C>
    var policies: map<string, seq<PolicyEntry>>

    constructor (lists: Lists<C>, policies: map<string, seq<PolicyEntry>>)
      ensures this.lists == lists && this.policies == policies
    {
      this.lists, this.policies := lists, policies;
    }

    /** rp_get_action_set: the actions of a list, and whether a deny entry comes
        after a permit entry. */
    static method GetActionSet(list: seq<Entry<C>>) returns (actions: set<Action>, warning: bool)
      ensures actions == set i | 0 <= i < |list| :: list[i].action
      ensures warning <==> OutOfOrder(list)
    {
      actions, warning := {}, false;
      for i := 0 to |list|
        invariant actions == set k | 0 <= k < i :: list[k].action
        invariant warning <==> exists k, l :: 0 <= k < l < i && list[k].action.Permit? && list[l].action.Deny?
      {
        actions := actions + {list[i].action};
        if list[i].action == Deny && Permit in actions {
          warning := true;
        }
      }
    }

    static method SelectAction(list: seq<Entry<C>>, action: Action) returns (selected: seq<Entry<C>>)
      ensures selected == OnlyAction(list, action)
    {
      selected := [];
      for i := 0 to |list|
        invariant selected + OnlyAction(list[i..], action) == OnlyAction(list, action)
      {
        var found := if list[i].action == action then [list[i]] else [];
        assert list[i..][1..] == list[i + 1..];
        ConcatAssociative(selected, found, OnlyAction(list[i + 1..], action));
        selected := selected + found;
      }
    }

    /** Community matches have one list for every community type. */
    static method UpdateKinds(lists: map<string, string>, xr: map<string, SetPair>, n: string)
      returns (left: map<string, string>, updated: map<string, SetPair>)
      ensures left == lists - Moved(lists, {n})
      ensures updated == xr + Pairs(lists, {n})
    {
      left, updated := lists, xr;
      var kinds := lists.Keys;
      while kinds != {}
        invariant KindsUpdated(lists, xr, n, kinds, left, updated)
      {
        var k :| k in kinds;
        KindUpdated(lists, xr, n, kinds, left, updated, k);
        if lists[k] == n {
          left, updated := left - {k}, updated[k := Pair(n)];
        }
        kinds := kinds - {k};
      }
    }

    /** rp_update_routing_policies for one list and one policy entry. */
    static method UpdateEntry(e: PolicyEntry, n: string) returns (updated: PolicyEntry)
      ensures updated == Rewritten(e, {n})
    {
      match e.match_
      case NoMatch => updated := e;
      case Direct(list) =>
        updated := if list == n then PolicyEntry(NoMatch, e.xr[":direct" := Pair(n)]) else e;
      case PerKind(lists) =>
        var left, xr := UpdateKinds(lists, e.xr, n);
        LeftOverEmpty(lists, n);
        updated := PolicyEntry(if left == map[] && lists != map[] then NoMatch else PerKind(left), xr);
    }

    static method UpdatePolicy(entries: seq<PolicyEntry>, n: string) returns (updated: seq<PolicyEntry>)
      ensures PolicyRewritten(entries, updated, {n})
    {
      updated := [];
      for i := 0 to |entries|
        invariant |updated| == i && forall k | 0 <= k < i :: updated[k] == Rewritten(entries[k], {n})
      {
        var e := UpdateEntry(entries[i], n);
        updated := updated + [e];
      }
    }

    method UpdatePolicies(n: string)
      modifies this`policies
      ensures PoliciesRewritten(old(policies), policies, {n})
    {
      var names := policies.Keys;
      while names != {}
        invariant names <= policies.Keys == old(policies).Keys
        invariant forall p | p in names :: policies[p] == old(policies)[p]
        invariant forall p | p in policies.Keys - names :: PolicyRewritten(old(policies)[p], policies[p], {n})
      {
        var p :| p in names;
        var updated := UpdatePolicy(policies[p], n);
        policies := policies[p := updated];
        names := names - {p};
      }
    }

    /** One list: nothing to do for permit entries only, otherwise split it,
        rewrite the policies and drop it. */
    method ProcessList(n: string) returns (warning: bool)
      requires n in lists
      modifies this
      ensures warning <==> OutOfOrder(old(lists)[n])
      ensures HasDeny(old(lists)[n]) ==>
                && lists == WithSplit(old(lists), old(lists)[n], n)
                && PoliciesRewritten(old(policies), policies, {n})
      ensures !HasDeny(old(lists)[n]) ==> lists == old(lists) && policies == old(policies)
    {
      var actions;
      actions, warning := GetActionSet(lists[n]);
      ActionsWithDeny(lists[n], actions);
      if |actions| <= 1 && Deny !in actions {
        return;
      }
      var denied := SelectAction(lists[n], Deny);
      var permitted := SelectAction(lists[n], Permit);
      lists := lists[DenyName(n) := denied][PermitName(n) := permitted];
      UpdatePolicies(n);
      lists := lists - {n};
    }

    /** rp_set: one list after the other, in the order of the dictionary before the
        first split. */
    method RpSet(order: seq<string>) returns (warned: set<string>)
      requires Distinct(order) && forall n | n in order :: n in lists
      modifies this
      ensures RoutingData(lists, policies, warned) == ProcessAll(RoutingData(old(lists), old(policies), {}), order)
    {
      warned := {};
      ghost var start := RoutingData(lists, policies, {});
      for i := 0 to |order|
        invariant forall n | n in order[i..] :: n in lists
        invariant ProcessAll(RoutingData(lists, policies, warned), order[i..]) == ProcessAll(start, order)
      {
        ghost var before := RoutingData(lists, policies, warned);
        assert order[i..][0] == order[i] && order[i..][1..] == order[i + 1..];
        var warning := ProcessList(order[i]);
        if warning {
          warned := warned + {order[i]};
        }
        if HasDeny(before.lists[order[i]]) {
          RewrittenUnique(before.policies, policies, {order[i]});
        }
        assert RoutingData(lists, policies, warned) == ProcessOne(before, order[i]);
      }
    }
  }

  datatype RoutingData<C> = RoutingData(lists: Lists<C>, policies: Policies, warned: set<string>)

  function RewrittenPolicy(entries: seq<PolicyEntry>, gone: set<string>): seq<PolicyEntry> {
    seq(|entries|, i requires 0 <= i < |entries| => Rewritten(entries[i], gone))
  }

  function RewrittenPolicies(policies: Policies, gone: set<string>): Policies {
    map p | p in policies :: RewrittenPolicy(policies[p], gone)
  }

  lemma RewrittenUnique(before: Policies, after: Policies, gone: set<string>)
    requires PoliciesRewritten(before, after, gone)
    ensures after == RewrittenPolicies(before, gone)
  {
    forall p | p in before ensures after[p] == RewrittenPolicy(before[p], gone) {
      assert PolicyRewritten(before[p], after[p], gone);
    }
  }

  /** What becomes of lists and policies when list n is processed. */
  function ProcessOne<C>(d: RoutingData<C>, n: string): RoutingData<C>
    requires n in d.lists
  {
    var warned := if OutOfOrder(d.lists[n]) then d.warned + {n} else d.warned;
    if HasDeny(d.lists[n]) then RoutingData(WithSplit(d.lists, d.lists[n], n), RewrittenPolicies(d.policies, {n}), warned)
    else d.(warned := warned)
  }

  function ProcessAll<C>(d: RoutingData<C>, order: seq<string>): RoutingData<C>
    requires Distinct(order) && forall n | n in order :: n in d.lists
    decreases |order|
  {
    if order == [] then d else ProcessAll(ProcessOne(d, order[0]), order[1..])
  }

  lemma {:induction false} ProgressAlong<C>(before: Lists<C>, policies0: Policies, d: RoutingData<C>, order: seq<string>)
    requires Distinct(order) && forall n | n in order :: n in d.lists
    requires Progress(before, policies0, Elements(order), d.lists, d.policies, d.warned)
    ensures var end := ProcessAll(d, order);
            Progress(before, policies0, {}, end.lists, end.policies, end.warned)
    decreases |order|
  {
    if order == [] {
      assert Elements(order) == {};
    } else {
      var n, next := order[0], ProcessOne(d, order[0]);
      assert n in Elements(order);
      forall p | p in d.policies ensures PolicyRewritten(d.policies[p], RewrittenPolicies(d.policies, {n})[p], {n}) {
      }
      ListProcessed(before, policies0, Elements(order), d.lists, d.policies, d.warned, n, next.lists, next.policies, next.warned);
      assert Elements(order) - {n} == Elements(order[1..]);
      ProgressAlong(before, policies0, next, order[1..]);
    }
  }

  /** With fresh names the outcome is the same for every order: exactly the lists
      with denials are split, all references are rewritten, and the warnings name
      exactly the lists with a denial after a permit entry. */
  lemma RpSetSplits<C>(lists: Lists<C>, policies: Policies, order: seq<string>)
    requires FreshNames(lists)
    requires Distinct(order) && Elements(order) == lists.Keys && forall n | n in order :: n in lists
    ensures var end := ProcessAll(RoutingData(lists, policies, {}), order);
            && SplitInto(lists, WithDeny(lists), end.lists)
            && PoliciesRewritten(policies, end.policies, WithDeny(lists))
            && end.warned == WithWarning(lists)
  {
    var end := ProcessAll(RoutingData(lists, policies, {}), order);
    ProgressStarts(lists, policies);
    ProgressAlong(lists, policies, RoutingData(lists, policies, {}), order);
    ProgressEnds(lists, policies, end.lists, end.policies, end.warned);
  }

  lemma {:induction false} OnlyPermits<C>(list: seq<Entry<C>>)
    ensures !HasDeny(OnlyAction(list, Permit))
  {
    if list == [] {
    } else {
      OnlyPermits(list[1..]);
    }
  }

  lemma ActionsWithDeny<C>(list: seq<Entry<C>>, actions: set<Action>)
    requires actions == set i | 0 <= i < |list| :: list[i].action
    ensures |actions| > 1 || Deny in actions <==> HasDeny(list)
  {
    if Deny !in actions {
      forall a | a in actions ensures a in {Permit} {
        assert a == Permit || a == Deny;
      }
      assert actions == {} || actions == {Permit};
    }
  }

  // ----- the rewritten policies mean the same

  /** Lists an entry refers to. */
  ghost function References(e: PolicyEntry): set<string> {
    (match e.match_
     case NoMatch => {}
     case Direct(n) => {n}
     case PerKind(lists) => lists.Values)
    + (set k | k in e.xr :: e.xr[k].deny) + (set k | k in e.xr :: e.xr[k].permit)
  }

  /** The condition of an entry over ordered lists. */
  predicate ListMeaning<C>(e: PolicyEntry, lists: Lists<C>, matches: C -> bool) {
    match e.match_
    case NoMatch => true
    case Direct(n) => n in lists && FirstMatch(lists[n], matches)
    case PerKind(kinds) => forall k | k in kinds :: kinds[k] in lists && FirstMatch(lists[kinds[k]], matches)
  }

  predicate AnyCond<C>(list: seq<Entry<C>>, matches: C -> bool) {
    exists i :: 0 <= i < |list| && matches(list[i].cond)
  }

  /** Membership in a set of the device: no order, no actions. */
  predicate InSet<C>(lists: Lists<C>, n: string, matches: C -> bool) {
    n in lists && AnyCond(lists[n], matches)
  }

  predicate InPair<C>(lists: Lists<C>, pair: SetPair, matches: C -> bool) {
    !InSet(lists, pair.deny, matches) && InSet(lists, pair.permit, matches)
  }

  /** The condition of a rewritten entry over those sets. */
  predicate SetMeaning<C>(e: PolicyEntry, lists: Lists<C>, matches: C -> bool) {
    && (match e.match_
        case NoMatch => true
        case Direct(n) => InSet(lists, n, matches)
        case PerKind(kinds) => forall k | k in kinds :: InSet(lists, kinds[k], matches))
    && forall k | k in e.xr :: InPair(lists, e.xr[k], matches)
  }

  lemma AnyCondOfConcat<C>(a: seq<Entry<C>>, b: seq<Entry<C>>, matches: C -> bool)
    ensures AnyCond(a + b, matches) <==> AnyCond(a, matches) || AnyCond(b, matches)
  {
    assert forall i | 0 <= i < |a| :: (a + b)[i] == a[i];
    assert forall i | 0 <= i < |b| :: (a + b)[|a| + i] == b[i];
  }

  lemma {:induction false} OnlyActionMatches<C>(list: seq<Entry<C>>, action: Action, matches: C -> bool)
    ensures AnyCond(OnlyAction(list, action), matches) <==> AnyMatch(list, action, matches)
  {
    if list == [] {
    } else {
      AnyMatchTail(list, action, matches);
      OnlyActionMatches(list[1..], action, matches);
      var first := if list[0].action == action then [list[0]] else [];
      AnyCondOfConcat(first, OnlyAction(list[1..], action), matches);
      assert first != [] ==> first[0] == list[0];
    }
  }

  lemma PermitOnlyMatches<C>(list: seq<Entry<C>>, matches: C -> bool)
    requires !HasDeny(list)
    ensures FirstMatch(list, matches) <==> AnyCond(list, matches)
  {
    UnshadowedIsPermit(list, matches);
    if i :| 0 <= i < |list| && matches(list[i].cond) {
      assert list[i].action == Permit;
    }
  }

  /** One reference: the ordered list, or what replaced it. */
  lemma ReferencePreserved<C>(before: Lists<C>, after: Lists<C>, n: string, matches: C -> bool)
    requires SplitInto(before, WithDeny(before), after) && n in before && n !in WithWarning(before)
    ensures FirstMatch(before[n], matches) <==>
            if n in WithDeny(before) then InPair(after, Pair(n), matches) else InSet(after, n, matches)
  {
    if n in WithDeny(before) {
      assert SplitList(before, after, n);
      OrderedSplits(before[n], matches);
      OnlyActionMatches(before[n], Deny, matches);
      OnlyActionMatches(before[n], Permit, matches);
    } else {
      PermitOnlyMatches(before[n], matches);
    }
  }

  /** The reference to list n means the same on the device. */
  ghost predicate Kept<C>(before: Lists<C>, after: Lists<C>, gone: set<string>, n: string, matches: C -> bool)
    requires n in before
  {
    FirstMatch(before[n], matches) <==> if n in gone then InPair(after, Pair(n), matches) else InSet(after, n, matches)
  }

  /** An entry all of whose references mean the same means the same. */
  lemma EntryKept<C>(e: PolicyEntry, before: Lists<C>, after: Lists<C>, gone: set<string>, matches: C -> bool)
    requires e.xr == map[] && References(e) <= before.Keys
    requires forall n | n in References(e) :: Kept(before, after, gone, n, matches)
    ensures ListMeaning(e, before, matches) <==> SetMeaning(Rewritten(e, gone), after, matches)
  {
    match e.match_
    case NoMatch =>
    case Direct(n) =>
      DirectExact(n, before, after, gone, matches);
    case PerKind(kinds) =>
      forall k | k in kinds ensures kinds[k] in before && Kept(before, after, gone, kinds[k], matches) {
        assert kinds[k] in kinds.Values;
      }
      KindsMeaning(kinds, gone, before, after, matches);
  }

  /** An entry that matches one list means the same exactly when the reference
      does. */
  lemma DirectExact<C>(n: string, before: Lists<C>, after: Lists<C>, gone: set<string>, matches: C -> bool)
    requires n in before
    ensures var e := PolicyEntry(Direct(n), map[]);
            (ListMeaning(e, before, matches) <==> SetMeaning(Rewritten(e, gone), after, matches)) <==>
            Kept(before, after, gone, n, matches)
  {
    var xr := map[":direct" := Pair(n)];
    assert xr[":direct"] == Pair(n);
    assert (forall k | k in xr :: InPair(after, xr[k], matches)) <==> InPair(after, Pair(n), matches);
  }

  /** A policy entry that refers to lists without an out-of-order warning keeps
      its meaning, for whatever route it is evaluated on. */
  lemma PolicyMeaningPreserved<C>(e: PolicyEntry, before: Lists<C>, after: Lists<C>, matches: C -> bool)
    requires SplitInto(before, WithDeny(before), after)
    requires e.xr == map[] && References(e) <= before.Keys - WithWarning(before)
    ensures ListMeaning(e, before, matches) <==> SetMeaning(Rewritten(e, WithDeny(before)), after, matches)
  {
    forall n | n in References(e) ensures Kept(before, after, WithDeny(before), n, matches) {
      ReferencePreserved(before, after, n, matches);
    }
    EntryKept(e, before, after, WithDeny(before), matches);
  }

  lemma KindsMeaning<C>(kinds: map<string, string>, gone: set<string>, before: Lists<C>, after: Lists<C>, matches: C -> bool)
    requires forall k | k in kinds ::
               && kinds[k] in before
               && Kept(before, after, gone, kinds[k], matches)
    ensures var e := PolicyEntry(PerKind(kinds), map[]);
            ListMeaning(e, before, matches) <==> SetMeaning(Rewritten(e, gone), after, matches)
  {
    var e := Rewritten(PolicyEntry(PerKind(kinds), map[]), gone);
    assert e.xr == Pairs(kinds, gone);
    var moved := Moved(kinds, gone);
    assert e.xr.Keys == moved;
    forall k | k in moved ensures FirstMatch(before[kinds[k]], matches) <==> InPair(after, e.xr[k], matches) {
    }
    var left := kinds - moved;
    forall k | k in left ensures left[k] == kinds[k] && (FirstMatch(before[kinds[k]], matches) <==> InSet(after, left[k], matches)) {
    }
    assert forall k | k in kinds :: k in moved || k in left;
    if moved == kinds.Keys {
      assert left == map[];
    }
  }

  /** The names that replace a reference. */
  lemma ReferenceRewritten(e: PolicyEntry, gone: set<string>, n: string)
    requires e.xr == map[] && n in References(e)
    ensures n in gone ==> DenyName(n) in References(Rewritten(e, gone)) && PermitName(n) in References(Rewritten(e, gone))
    ensures n !in gone ==> n in References(Rewritten(e, gone))
  {
    var r := Rewritten(e, gone);
    match e.match_
    case Direct(_) =>
      if n in gone {
        assert r.xr[":direct"] == Pair(n);
      }
    case PerKind(kinds) =>
      var k :| k in kinds && kinds[k] == n;
      if n in gone {
        assert r.xr[k] == Pair(n);
      } else {
        assert k !in Moved(kinds, gone) && k in kinds - Moved(kinds, gone);
        assert r.match_.PerKind? && r.match_.lists[k] == n;
      }
  }

  /** The reference behind a name in a rewritten entry. */
  lemma RewrittenReference(e: PolicyEntry, gone: set<string>, name: string) returns (n: string)
    requires e.xr == map[] && name in References(Rewritten(e, gone))
    ensures n in References(e)
    ensures if n in gone then name == DenyName(n) || name == PermitName(n) else name == n
  {
    var r := Rewritten(e, gone);
    if k :| k in r.xr && (r.xr[k].deny == name || r.xr[k].permit == name) {
      n := if e.match_.Direct? then e.match_.list else e.match_.lists[k];
    } else {
      n := name;
      if r.match_.PerKind? {
        var k :| k in r.match_.lists && r.match_.lists[k] == name;
        assert k in e.match_.lists && k !in Moved(e.match_.lists, gone);
        assert name in e.match_.lists.Values;
      }
    }
  }

  /** No rewritten entry names a list that is gone, and every name resolves. */
  lemma NoDanglingReference<C>(e: PolicyEntry, before: Lists<C>, after: Lists<C>, n: string)
    requires FreshNames(before) && SplitInto(before, WithDeny(before), after)
    requires e.xr == map[] && References(e) <= before.Keys
    requires n in References(Rewritten(e, WithDeny(before)))
    ensures n in after && n !in WithDeny(before)
  {
    var m := RewrittenReference(e, WithDeny(before), n);
    if m in WithDeny(before) {
      assert SplitList(before, after, m);
    }
  }
}
