/** Splitting lists on Cisco IOS XR when generated names are those of other lists:
    what every list holds after a run, and which references keep their meaning. */
module XrCollisions {
  import opened Options
  import opened RoutingLists
  import opened Sequences
  import opened XrSets

  datatype Origin = Own | Generated(from: string, action: Action)

  function GeneratedName(n: string, action: Action): string {
    if action == Deny then DenyName(n) else PermitName(n)
  }

  predicate HasSuffix(x: string, suffix: string) {
    |x| >= |suffix| && x[|x| - |suffix|..] == suffix
  }

  /** The list for which a name can be generated. */
  function OriginOf(x: string): (o: Origin)
    ensures o.Generated? ==> |o.from| < |x|
  {
    if HasSuffix(x, "_deny") then Generated(x[..|x| - 5], Deny)
    else if HasSuffix(x, "_permit") then Generated(x[..|x| - 7], Permit)
    else Own
  }

  lemma OriginExact(x: string, n: string, action: Action)
    ensures OriginOf(x) == Generated(n, action) <==> x == GeneratedName(n, action)
  {
    if x == GeneratedName(n, action) {
      GeneratedNamesInjective(n, n);
      assert x[..|n|] == n;
      if action == Permit {
        assert x[|x| - 5..][4] == x[|x| - 1] == 't' && "_deny"[4] == 'y';
      }
    }
    if OriginOf(x) == Generated(n, action) {
      assert x == n + x[|n|..];
    }
  }

  /** Position in the order, its length for names outside. */
  function Pos(order: seq<string>, x: string): (p: nat)
    ensures p <= |order|
    ensures p < |order| <==> x in order
    ensures p < |order| ==> order[p] == x
  {
    if order == [] then 0 else if order[0] == x then 0 else 1 + Pos(order[1..], x)
  }

  lemma PosExact(order: seq<string>, i: nat)
    requires Distinct(order) && i < |order|
    ensures Pos(order, order[i]) == i
  {
    var p := Pos(order, order[i]);
    assert order[i] in order && order[p] == order[i];
  }

  function Initial<C>(lists: Lists<C>, x: string): seq<Entry<C>> {
    if x in lists then lists[x] else []
  }

  /** What list x holds when its turn comes: its own entries, or those of a list
      split before that has generated its name. */
  function At<C>(lists: Lists<C>, order: seq<string>, x: string): seq<Entry<C>>
    decreases |x|
  {
    match OriginOf(x)
    case Own => Initial(lists, x)
    case Generated(n, action) =>
      if Pos(order, n) < Pos(order, x) && HasDeny(At(lists, order, n)) then OnlyAction(At(lists, order, n), action)
      else Initial(lists, x)
  }

  /** List n is among the first i of the order, and it gets split. */
  predicate IsSplit<C>(lists: Lists<C>, order: seq<string>, i: nat, n: string) {
    Pos(order, n) < i && HasDeny(At(lists, order, n))
  }

  /** What a list holds after the first i lists of the order have been processed,
      if it exists then. */
  function Holds<C>(lists: Lists<C>, order: seq<string>, i: nat, x: string): Option<seq<Entry<C>>> {
    match OriginOf(x)
    case Generated(n, action) =>
      if IsSplit(lists, order, i, n) then
        var entries := OnlyAction(At(lists, order, n), action);
        if Pos(order, n) < Pos(order, x) < i && HasDeny(entries) then None else Some(entries)
      else HoldsOwn(lists, order, i, x)
    case Own => HoldsOwn(lists, order, i, x)
  }

  function HoldsOwn<C>(lists: Lists<C>, order: seq<string>, i: nat, x: string): Option<seq<Entry<C>>> {
    if x in lists && !IsSplit(lists, order, i, x) then Some(lists[x]) else None
  }

  ghost predicate Follows<C>(lists: Lists<C>, order: seq<string>, i: nat, now: Lists<C>) {
    forall x :: (x in now <==> Holds(lists, order, i, x).Some?) && (x in now ==> now[x] == Holds(lists, order, i, x).value)
  }

  /** All names are visited, each once. */
  ghost predicate IsOrder<C>(lists: Lists<C>, order: seq<string>) {
    Distinct(order) && Elements(order) == lists.Keys
  }

  lemma HoldsSelf<C>(lists: Lists<C>, order: seq<string>, i: nat)
    requires IsOrder(lists, order) && i < |order|
    ensures Holds(lists, order, i, order[i]) == Some(At(lists, order, order[i]))
    ensures Holds(lists, order, i + 1, order[i]) ==
            if HasDeny(At(lists, order, order[i])) then None else Some(At(lists, order, order[i]))
  {
    PosExact(order, i);
    assert order[i] in Elements(order);
  }

  lemma HoldsGenerated<C>(lists: Lists<C>, order: seq<string>, i: nat, action: Action)
    requires IsOrder(lists, order) && i < |order|
    ensures var n := order[i];
            var x := GeneratedName(n, action);
            && x != n
            && Holds(lists, order, i + 1, x) ==
               if HasDeny(At(lists, order, n)) then Some(OnlyAction(At(lists, order, n), action)) else Holds(lists, order, i, x)
  {
    PosExact(order, i);
    OriginExact(GeneratedName(order[i], action), order[i], action);
    PosOther(order, i, GeneratedName(order[i], action));
  }

  lemma PosOther(order: seq<string>, i: nat, x: string)
    requires Distinct(order) && i < |order|
    ensures Pos(order, x) == i <==> x == order[i]
  {
    PosExact(order, i);
  }

  lemma HoldsOther<C>(lists: Lists<C>, order: seq<string>, i: nat, x: string)
    requires IsOrder(lists, order) && i < |order|
    requires x != order[i] && x != DenyName(order[i]) && x != PermitName(order[i])
    ensures Holds(lists, order, i + 1, x) == Holds(lists, order, i, x)
  {
    OriginExact(x, order[i], Deny);
    OriginExact(x, order[i], Permit);
    PosOther(order, i, x);
    match OriginOf(x)
    case Own =>
    case Generated(n, action) => PosOther(order, i, n);
  }

  /** What processing the list whose turn it is does to any list. */
  lemma TurnPasses<C>(lists: Lists<C>, order: seq<string>, i: nat, now: Lists<C>)
    requires IsOrder(lists, order) && i < |order| && Follows(lists, order, i, now)
    ensures order[i] in now && now[order[i]] == At(lists, order, order[i])
    ensures Follows(lists, order, i + 1, if HasDeny(now[order[i]]) then WithSplit(now, now[order[i]], order[i]) else now)
  {
    var n := order[i];
    HoldsSelf(lists, order, i);
    HoldsGenerated(lists, order, i, Deny);
    HoldsGenerated(lists, order, i, Permit);
    GeneratedNamesInjective(n, n);
    var next := if HasDeny(now[n]) then WithSplit(now, now[n], n) else now;
    forall x
      ensures x in next <==> Holds(lists, order, i + 1, x).Some?
      ensures x in next ==> next[x] == Holds(lists, order, i + 1, x).value
    {
      if x != n && x != DenyName(n) && x != PermitName(n) {
        HoldsOther(lists, order, i, x);
      }
    }
  }

  /** The lists that get split among the first i of the order. */
  function Gone<C>(lists: Lists<C>, order: seq<string>, i: nat): set<string> {
    set n | n in lists && IsSplit(lists, order, i, n)
  }

  function Warned<C>(lists: Lists<C>, order: seq<string>, i: nat): set<string> {
    set n | n in lists && Pos(order, n) < i && OutOfOrder(At(lists, order, n))
  }

  lemma OneMoreGone<C>(lists: Lists<C>, order: seq<string>, i: nat)
    requires IsOrder(lists, order) && i < |order|
    ensures Gone(lists, order, i + 1) == Gone(lists, order, i) + if HasDeny(At(lists, order, order[i])) then {order[i]} else {}
    ensures Warned(lists, order, i + 1) == Warned(lists, order, i) + if OutOfOrder(At(lists, order, order[i])) then {order[i]} else {}
  {
    assert order[i] in Elements(order);
    forall x ensures Pos(order, x) == i <==> x == order[i] {
      PosOther(order, i, x);
    }
  }

  /** State of a run after the first i lists of the order. */
  ghost predicate RunState<C>(lists: Lists<C>, policies: Policies, order: seq<string>, i: nat, d: RoutingData<C>) {
    && Follows(lists, order, i, d.lists)
    && PoliciesRewritten(policies, d.policies, Gone(lists, order, i))
    && d.warned == Warned(lists, order, i)
  }

  lemma {:induction false} RunContinues<C>(lists: Lists<C>, policies: Policies, order: seq<string>, i: nat, d: RoutingData<C>)
    requires IsOrder(lists, order) && i <= |order| && RunState(lists, policies, order, i, d)
    requires forall n | n in order[i..] :: n in d.lists
    ensures RunState(lists, policies, order, |order|, ProcessAll(d, order[i..]))
    decreases |order| - i
  {
    if i == |order| {
    } else {
      var n := order[i];
      assert order[i..][0] == n && order[i..][1..] == order[i + 1..];
      TurnPasses(lists, order, i, d.lists);
      OneMoreGone(lists, order, i);
      var next := ProcessOne(d, n);
      if HasDeny(d.lists[n]) {
        OneMoreRewritten(policies, d.policies, Gone(lists, order, i), n);
      } else {
        assert Gone(lists, order, i + 1) == Gone(lists, order, i);
      }
      RunContinues(lists, policies, order, i + 1, next);
    }
  }

  lemma OneMoreRewritten(policies: Policies, now: Policies, gone: set<string>, n: string)
    requires PoliciesRewritten(policies, now, gone)
    ensures PoliciesRewritten(policies, RewrittenPolicies(now, {n}), gone + {n})
  {
    forall p | p in now ensures PolicyRewritten(now[p], RewrittenPolicies(now, {n})[p], {n}) {
    }
    PoliciesCompose(policies, now, RewrittenPolicies(now, {n}), gone, n);
  }

  lemma RunStarts<C>(lists: Lists<C>, policies: Policies, order: seq<string>)
    ensures RunState(lists, policies, order, 0, RoutingData(lists, policies, {}))
  {
    NothingRewritten(policies);
    assert Gone(lists, order, 0) == {} && Warned(lists, order, 0) == {};
  }

  /** A whole run with any names, in any order: what every list holds at the end,
      the references replaced, and the warnings. */
  lemma RunExact<C>(lists: Lists<C>, policies: Policies, order: seq<string>)
    requires IsOrder(lists, order)
    ensures forall n | n in order :: n in lists
    ensures RunState(lists, policies, order, |order|, ProcessAll(RoutingData(lists, policies, {}), order))
  {
    assert forall n | n in order :: n in Elements(order);
    assert order[0..] == order;
    RunStarts(lists, policies, order);
    RunContinues(lists, policies, order, 0, RoutingData(lists, policies, {}));
  }

  /** The deny set of a split list has the name of a list that comes later: it is
      split in turn, and deleted. */
  predicate Dangles<C>(lists: Lists<C>, order: seq<string>, n: string) {
    DenyName(n) in lists && Pos(order, n) < Pos(order, DenyName(n))
  }

  /** A list that gets split generates the name of list x. */
  predicate Overwritten<C>(lists: Lists<C>, order: seq<string>, x: string) {
    OriginOf(x).Generated? && IsSplit(lists, order, |order|, OriginOf(x).from)
  }

  lemma {:induction false} OnlyDenials<C>(list: seq<Entry<C>>)
    ensures HasDeny(OnlyAction(list, Deny)) <==> HasDeny(list)
    ensures forall e | e in OnlyAction(list, Deny) :: e.action == Deny
  {
    if list == [] {
    } else {
      var first, rest := if list[0].action == Deny then [list[0]] else [], OnlyAction(list[1..], Deny);
      OnlyDenials(list[1..]);
      HasDenyConcat([list[0]], list[1..]);
      HasDenyConcat(first, rest);
      assert list == [list[0]] + list[1..];
    }
  }

  lemma HasDenyConcat<C>(a: seq<Entry<C>>, b: seq<Entry<C>>)
    ensures HasDeny(a + b) <==> HasDeny(a) || HasDeny(b)
  {
    assert forall i | 0 <= i < |a| :: (a + b)[i] == a[i];
    assert forall i | 0 <= i < |b| :: (a + b)[|a| + i] == b[i];
  }

  /** The sets that a replaced reference names: the permit set is there, the deny
      set unless it dangles. */
  lemma SetsOfSplitList<C>(lists: Lists<C>, order: seq<string>, now: Lists<C>, n: string)
    requires IsOrder(lists, order) && Follows(lists, order, |order|, now)
    requires n in Gone(lists, order, |order|)
    ensures PermitName(n) in now && now[PermitName(n)] == OnlyAction(At(lists, order, n), Permit)
    ensures DenyName(n) in now <==> !Dangles(lists, order, n)
    ensures DenyName(n) in now ==> now[DenyName(n)] == OnlyAction(At(lists, order, n), Deny)
  {
    OriginExact(DenyName(n), n, Deny);
    OriginExact(PermitName(n), n, Permit);
    OnlyDenials(At(lists, order, n));
    OnlyPermits(At(lists, order, n));
    assert DenyName(n) in order <==> DenyName(n) in Elements(order);
  }

  /** A reference that is not replaced names a list that is there. */
  lemma KeptList<C>(lists: Lists<C>, order: seq<string>, now: Lists<C>, n: string)
    requires IsOrder(lists, order) && Follows(lists, order, |order|, now)
    requires n in lists && n !in Gone(lists, order, |order|)
    ensures n in now
    ensures now[n] == if Overwritten(lists, order, n) then OnlyAction(At(lists, order, OriginOf(n).from), OriginOf(n).action) else lists[n]
    ensures !Overwritten(lists, order, n) ==> !HasDeny(lists[n])
  {
    assert n in Elements(order);
  }

  /** The condition on the lists as they were under which a reference to list n
      keeps its meaning. */
  predicate KeepsMeaning<C>(lists: Lists<C>, order: seq<string>, n: string, matches: C -> bool)
    requires n in lists
  {
    if n in Gone(lists, order, |order|) then
      if Overwritten(lists, order, n) && Pos(order, OriginOf(n).from) < Pos(order, n) then !FirstMatch(lists[n], matches)
      else EarlierDecides(lists[n], if Dangles(lists, order, n) then Deny else Permit, matches)
    else
      Overwritten(lists, order, n) ==>
        (FirstMatch(lists[n], matches) <==> AnyMatch(At(lists, order, OriginOf(n).from), OriginOf(n).action, matches))
  }

  lemma SplitReferenceExact<C>(lists: Lists<C>, order: seq<string>, now: Lists<C>, n: string, matches: C -> bool)
    requires IsOrder(lists, order) && Follows(lists, order, |order|, now)
    requires n in Gone(lists, order, |order|)
    ensures Kept(lists, now, Gone(lists, order, |order|), n, matches) <==> KeepsMeaning(lists, order, n, matches)
  {
    var list := At(lists, order, n);
    SetsOfSplitList(lists, order, now, n);
    OnlyActionMatches(list, Deny, matches);
    OnlyActionMatches(list, Permit, matches);
    if Overwritten(lists, order, n) && Pos(order, OriginOf(n).from) < Pos(order, n) {
      OnlyPermits(At(lists, order, OriginOf(n).from));
      OnlyDenials(At(lists, order, OriginOf(n).from));
      assert !AnyMatch(list, Permit, matches);
    } else {
      assert list == lists[n];
      SplitExactAt(list, matches);
      FlatExactAt(list, matches);
    }
  }

  /** For any names, order and way of matching: a reference keeps its meaning
      exactly under that condition. */
  lemma ReferenceExact<C>(lists: Lists<C>, order: seq<string>, now: Lists<C>, n: string, matches: C -> bool)
    requires IsOrder(lists, order) && Follows(lists, order, |order|, now) && n in lists
    ensures Kept(lists, now, Gone(lists, order, |order|), n, matches) <==> KeepsMeaning(lists, order, n, matches)
  {
    if n in Gone(lists, order, |order|) {
      SplitReferenceExact(lists, order, now, n, matches);
    } else {
      KeptList(lists, order, now, n);
      if Overwritten(lists, order, n) {
        OnlyActionMatches(At(lists, order, OriginOf(n).from), OriginOf(n).action, matches);
      } else {
        PermitOnlyMatches(lists[n], matches);
      }
    }
  }

  /** An entry keeps its meaning when all its references do. */
  lemma EntryMeaningAfterRun<C>(e: PolicyEntry, lists: Lists<C>, order: seq<string>, now: Lists<C>, matches: C -> bool)
    requires IsOrder(lists, order) && Follows(lists, order, |order|, now)
    requires e.xr == map[] && References(e) <= lists.Keys
    requires forall n | n in References(e) :: KeepsMeaning(lists, order, n, matches)
    ensures ListMeaning(e, lists, matches) <==> SetMeaning(Rewritten(e, Gone(lists, order, |order|)), now, matches)
  {
    var gone := Gone(lists, order, |order|);
    forall n | n in References(e) ensures Kept(lists, now, gone, n, matches) {
      ReferenceExact(lists, order, now, n, matches);
    }
    EntryKept(e, lists, now, gone, matches);
  }

  /** An entry that matches one list keeps its meaning exactly under the condition
      on that list. */
  lemma DirectMeaningExact<C>(n: string, lists: Lists<C>, order: seq<string>, now: Lists<C>, matches: C -> bool)
    requires IsOrder(lists, order) && Follows(lists, order, |order|, now) && n in lists
    ensures var e := PolicyEntry(Direct(n), map[]);
            (ListMeaning(e, lists, matches) <==> SetMeaning(Rewritten(e, Gone(lists, order, |order|)), now, matches)) <==>
            KeepsMeaning(lists, order, n, matches)
  {
    ReferenceExact(lists, order, now, n, matches);
    DirectExact(n, lists, now, Gone(lists, order, |order|), matches);
  }

  /** All names in a rewritten entry resolve exactly when none of its split lists
      has a deny set that dangles. */
  lemma DanglingExact<C>(e: PolicyEntry, lists: Lists<C>, order: seq<string>, now: Lists<C>)
    requires IsOrder(lists, order) && Follows(lists, order, |order|, now)
    requires e.xr == map[] && References(e) <= lists.Keys
    ensures (forall r | r in References(Rewritten(e, Gone(lists, order, |order|))) :: r in now) <==>
            forall n | n in References(e) && n in Gone(lists, order, |order|) :: !Dangles(lists, order, n)
  {
    var gone := Gone(lists, order, |order|);
    forall n | n in References(e)
      ensures n in gone ==> (DenyName(n) in now <==> !Dangles(lists, order, n)) && PermitName(n) in now
      ensures n !in gone ==> n in now
    {
      if n in gone {
        SetsOfSplitList(lists, order, now, n);
      } else {
        KeptList(lists, order, now, n);
      }
    }
    forall n | n in References(e)
      ensures n in gone ==> DenyName(n) in References(Rewritten(e, gone))
    {
      ReferenceRewritten(e, gone, n);
    }
    forall name | name in References(Rewritten(e, gone))
      ensures exists n :: n in References(e) && if n in gone then name == DenyName(n) || name == PermitName(n) else name == n
    {
      var n := RewrittenReference(e, gone, name);
    }
  }

  // ----- a deny set that dangles

  const ClashLists: Lists<int> := map["a" := [Entry(Deny, 1), Entry(Permit, 2)], "a_deny" := [Entry(Permit, 3)]]

  const ClashPolicies: Policies := map["p" := [PolicyEntry(Direct("a"), map[])]]

  /** The deny set of "a" takes the name of a list that comes later and is deleted
      with it.  Nothing is reported, and a route that "a" denies matches. */
  lemma DenyNameCollision()
    ensures IsOrder(ClashLists, ["a", "a_deny"]) && "a" in ClashLists && "a_deny" in ClashLists
    ensures var end := ProcessAll(RoutingData(ClashLists, ClashPolicies, {}), ["a", "a_deny"]);
            var matches := (c: int) => true;
            && end.warned == {}
            && end.policies == map["p" := [PolicyEntry(NoMatch, map[":direct" := SetPair("a_deny", "a_permit")])]]
            && "a_deny" !in end.lists
            && !ListMeaning(ClashPolicies["p"][0], ClashLists, matches)
            && SetMeaning(end.policies["p"][0], end.lists, matches)
  {
    var order := ["a", "a_deny"];
    var d := RoutingData(ClashLists, ClashPolicies, {});
    assert DenyName("a") == "a_deny" && PermitName("a") == "a_permit";
    ClashFirst();
    ClashSecond();
    assert order[1..] == ["a_deny"] && order[1..][1..] == [];
    assert ProcessAll(d, order) == ProcessAll(ProcessOne(d, "a"), ["a_deny"]) == ProcessOne(ProcessOne(d, "a"), "a_deny");
    assert order[0] == "a" && order[1] == "a_deny";
    ClashMeaning(ProcessAll(d, order).lists);
  }

  lemma ClashMeaning(now: Lists<int>)
    requires "a_deny" !in now && "a_permit" in now && now["a_permit"] == [Entry(Permit, 2)]
    ensures var matches := (c: int) => true;
            && !ListMeaning(PolicyEntry(Direct("a"), map[]), ClashLists, matches)
            && SetMeaning(PolicyEntry(NoMatch, map[":direct" := SetPair("a_deny", "a_permit")]), now, matches)
  {
    assert now["a_permit"][0].cond == 2;
    assert ClashLists["a"][0] == Entry(Deny, 1);
  }

  lemma ClashFirst()
    ensures var end := ProcessOne(RoutingData(ClashLists, ClashPolicies, {}), "a");
            && end.warned == {}
            && end.policies == map["p" := [PolicyEntry(NoMatch, map[":direct" := SetPair("a_deny", "a_permit")])]]
            && end.lists == map["a_deny" := [Entry(Deny, 1)], "a_permit" := [Entry(Permit, 2)]]
  {
    assert DenyName("a") == "a_deny" && PermitName("a") == "a_permit";
    ClashEntries();
    var e := PolicyEntry(Direct("a"), map[]);
    assert Rewritten(e, {"a"}) == PolicyEntry(NoMatch, map[":direct" := Pair("a")]);
    assert RewrittenPolicy([e], {"a"}) == [Rewritten(e, {"a"})];
  }

  lemma ClashEntries()
    ensures OnlyAction(ClashLists["a"], Deny) == [Entry(Deny, 1)] && OnlyAction(ClashLists["a"], Permit) == [Entry(Permit, 2)]
    ensures HasDeny(ClashLists["a"]) && !OutOfOrder(ClashLists["a"])
  {
    var list := ClashLists["a"];
    assert list[0].action == Deny && list[1..] == [Entry(Permit, 2)] && list[1..][1..] == [];
    assert OnlyAction(list[1..], Deny) == [] && OnlyAction(list[1..], Permit) == [Entry(Permit, 2)];
  }

  lemma ClashSecond()
    ensures var policies: Policies := map["p" := [PolicyEntry(NoMatch, map[":direct" := SetPair("a_deny", "a_permit")])]];
            var d := RoutingData(map["a_deny" := [Entry(Deny, 1)], "a_permit" := [Entry(Permit, 2)]], policies, {});
            var end := ProcessOne(d, "a_deny");
            && end.warned == {} && end.policies == policies
            && "a_deny" !in end.lists && "a_permit" in end.lists && end.lists["a_permit"] == [Entry(Permit, 2)]
  {
    var list := [Entry(Deny, 1)];
    assert list[0].action == Deny;
    var e := PolicyEntry(NoMatch, map[":direct" := SetPair("a_deny", "a_permit")]);
    assert RewrittenPolicy([e], {"a_deny"}) == [e];
    assert |DenyName("a_deny")| == 11 && |PermitName("a_deny")| == 13;
  }
}
