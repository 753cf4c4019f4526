/** Prefix and community lists on ArcOS: the sets rendered by
    netsim/ansible/templates/routing/arcos.j2 have no order and no per-entry
    action, and netsim/devices/arcos.py refuses lists it takes to be
    inexpressible. */
module ArcosLists {
  import opened AddressPools
  import opened Options
  import opened PrefixLists
  import opened RoutingLists

  // ----- prefix lists

  /** The prefix_list_shape check. */
  predicate PrefixListRefused(list: PrefixList) {
    exists i, j :: 0 <= i < j < |list| && list[i].action.Deny? && list[j].action.Permit?
                   && (CondsOverlap(IPv4, list[i].cond, list[j].cond) || CondsOverlap(IPv6, list[i].cond, list[j].cond))
  }

  /** The rendered prefix set: the permit entries. */
  predicate InPrefixSet(list: PrefixList, r: Route) {
    exists i :: 0 <= i < |list| && list[i].action.Permit? && RouteMatches(r, list[i].cond)
  }

  ghost predicate ShareAddress(af: AddressFamily, a: PrefixCond, b: PrefixCond, x: int) {
    && RangeOf(a, af).Some? && RangeOf(b, af).Some?
    && Holds(af, RangeOf(a, af).value.net, x) && Holds(af, RangeOf(b, af).value.net, x)
  }

  /** A list is refused exactly when a denial and a later permit entry have prefixes
      of one family with an address in common. */
  lemma RefusedExact(list: PrefixList)
    ensures PrefixListRefused(list) <==>
            exists i, j, af, x :: 0 <= i < j < |list| && list[i].action.Deny? && list[j].action.Permit?
                                  && ShareAddress(af, list[i].cond, list[j].cond, x)
  {
    forall i, j, af | 0 <= i < j < |list|
      ensures CondsOverlap(af, list[i].cond, list[j].cond) <==> exists x :: ShareAddress(af, list[i].cond, list[j].cond, x)
    {
      OverlapExact(af, list[i].cond, list[j].cond);
    }
    if i, j, af, x :| 0 <= i < j < |list| && list[i].action.Deny? && list[j].action.Permit?
                      && ShareAddress(af, list[i].cond, list[j].cond, x) {
      assert CondsOverlap(af, list[i].cond, list[j].cond);
    }
  }

  lemma OverlapExact(af: AddressFamily, a: PrefixCond, b: PrefixCond)
    ensures CondsOverlap(af, a, b) <==> exists x :: ShareAddress(af, a, b, x)
  {
    if CondsOverlap(af, a, b) {
      var m, n := RangeOf(a, af).value.net, RangeOf(b, af).value.net;
      assert ShareAddress(af, a, b, if m.base < n.base then n.base else m.base);
    }
  }

  /** An accepted list means the same as its flat set of permit entries, for
      every route. */
  lemma AcceptedPrefixListPreserved(list: PrefixList, r: Route)
    requires !PrefixListRefused(list)
    ensures FirstMatch(list, c => RouteMatches(r, c)) <==> InPrefixSet(list, r)
  {
    forall i, j | 0 <= i < j < |list| && list[i].action.Deny? && list[j].action.Permit?
      ensures !(RouteMatches(r, list[i].cond) && RouteMatches(r, list[j].cond))
    {
      if RouteMatches(r, list[i].cond) && RouteMatches(r, list[j].cond) {
        MatchedRangesOverlap(r, RangeOf(list[i].cond, r.af).value, RangeOf(list[j].cond, r.af).value);
        assert CondsOverlap(r.af, list[i].cond, list[j].cond);
      }
    }
    UnshadowedIsPermit(list, c => RouteMatches(r, c));
  }

  /** Every route that a denial shares with a later permit entry is permitted by
      an entry before the denial. */
  ghost predicate SharedRoutesPermitted(list: PrefixList) {
    forall r: Route | IsRoute(r) :: EarlierDecides(list, Deny, c => RouteMatches(r, c))
  }

  /** A list means the same as its flat set, for every route, exactly under that
      condition. */
  lemma FlatSetExact(list: PrefixList)
    ensures (forall r: Route | IsRoute(r) :: FirstMatch(list, c => RouteMatches(r, c)) <==> InPrefixSet(list, r)) <==>
            SharedRoutesPermitted(list)
  {
    forall r: Route | IsRoute(r)
      ensures (FirstMatch(list, c => RouteMatches(r, c)) <==> InPrefixSet(list, r)) <==>
              EarlierDecides(list, Deny, c => RouteMatches(r, c))
    {
      FlatExactAt(list, c => RouteMatches(r, c));
      assert InPrefixSet(list, r) <==> AnyMatch(list, Permit, c => RouteMatches(r, c));
    }
  }

  /** No denial meets a later permit entry. */
  ghost predicate DenialsMeetNothing(list: PrefixList) {
    forall i, j | 0 <= i < j < |list| && list[i].action.Deny? && list[j].action.Permit? ::
      !CondsMeet(IPv4, list[i].cond, list[j].cond) && !CondsMeet(IPv6, list[i].cond, list[j].cond)
  }

  lemma MeetingDenialShadows(list: PrefixList, i: nat, j: nat)
    requires ProperList(list) && !OutOfOrder(list)
    requires i < j < |list| && list[i].action.Deny? && list[j].action.Permit?
    requires CondsMeet(IPv4, list[i].cond, list[j].cond) || CondsMeet(IPv6, list[i].cond, list[j].cond)
    ensures !SharedRoutesPermitted(list)
  {
    CondsMeetExact(list[i].cond, list[j].cond);
    var r :| Common(list[i].cond, list[j].cond, r);
    DenialsFirstAt(list, c => RouteMatches(r, c));
  }

  lemma NoMeetingNoShadow(list: PrefixList)
    requires ProperList(list) && !OutOfOrder(list) && DenialsMeetNothing(list)
    ensures SharedRoutesPermitted(list)
  {
    forall r: Route | IsRoute(r) ensures EarlierDecides(list, Deny, c => RouteMatches(r, c)) {
      forall i, j | 0 <= i < j < |list| && list[i].action.Deny? && list[j].action.Permit?
        ensures !(RouteMatches(r, list[i].cond) && RouteMatches(r, list[j].cond))
      {
        CondsMeetExact(list[i].cond, list[j].cond);
        assert !Common(list[i].cond, list[j].cond, r);
      }
      DenialsFirstAt(list, c => RouteMatches(r, c));
    }
  }

  /** For lists that deny first, the condition comes down to prefixes and length
      bounds. */
  lemma DenialsFirstExact(list: PrefixList)
    requires ProperList(list) && !OutOfOrder(list)
    ensures (forall r: Route | IsRoute(r) :: FirstMatch(list, c => RouteMatches(r, c)) <==> InPrefixSet(list, r)) <==>
            DenialsMeetNothing(list)
  {
    FlatSetExact(list);
    if DenialsMeetNothing(list) {
      NoMeetingNoShadow(list);
    } else {
      var i, j :| 0 <= i < j < |list| && list[i].action.Deny? && list[j].action.Permit?
                  && (CondsMeet(IPv4, list[i].cond, list[j].cond) || CondsMeet(IPv6, list[i].cond, list[j].cond));
      MeetingDenialShadows(list, i, j);
    }
  }

  /** The check is sufficient, not necessary: without length bounds a deny entry
      matches its own prefix only, so a longer prefix permitted later is refused
      although the flat set would be faithful. */
  lemma RefusalIsConservative(r: Route)
    ensures var list := [Entry(Deny, PrefixCond(Some(Range(Net(0, 8), None, None)), None)),
                         Entry(Permit, PrefixCond(Some(Range(Net(0, 16), None, None)), None))];
            PrefixListRefused(list) && (FirstMatch(list, c => RouteMatches(r, c)) <==> InPrefixSet(list, r))
  {
    var list := [Entry(Deny, PrefixCond(Some(Range(Net(0, 8), None, None)), None)),
                 Entry(Permit, PrefixCond(Some(Range(Net(0, 16), None, None)), None))];
    assert Overlaps(IPv4, Net(0, 8), Net(0, 16));
    assert list[0].action.Deny? && list[1].action.Permit? && CondsOverlap(IPv4, list[0].cond, list[1].cond);
    UnshadowedIsPermit(list, c => RouteMatches(r, c));
  }

  // ----- community lists

  /** The catch-all pattern, or a community value. */
  datatype Pattern = CatchAll | Community(value: string)

  type CommunityList = seq<Entry<Pattern>>

  predicate CarriesMatch(communities: set<string>, p: Pattern) {
    p.CatchAll? || p.value in communities
  }

  /** The community_list_shape check: deny entries go with catch-all permit
      entries only. */
  predicate CommunityListRefused(list: CommunityList) {
    && HasDeny(list)
    && !((exists i :: 0 <= i < |list| && list[i].action.Permit?)
         && forall i | 0 <= i < |list| && list[i].action.Permit? :: list[i].cond.CatchAll?)
  }

  /** The rendered community set: the denied values with INVERT when there are
      any, all values with ANY otherwise. */
  predicate InCommunitySet(list: CommunityList, communities: set<string>) {
    if HasDeny(list) then forall i | 0 <= i < |list| && list[i].action.Deny? :: !CarriesMatch(communities, list[i].cond)
    else exists i :: 0 <= i < |list| && CarriesMatch(communities, list[i].cond)
  }

  /** Deny entries behind the first catch-all repeat a condition denied before
      it. */
  predicate LateDenialsRepeat(list: CommunityList, first: nat)
    requires first < |list|
  {
    forall j | first < j < |list| && list[j].action.Deny? ::
      exists i :: 0 <= i < first && (list[i].cond.CatchAll? || list[i].cond == list[j].cond)
  }

  lemma {:induction false} FirstMatchUpTo(list: CommunityList, communities: set<string>, first: nat)
    requires first < |list| && list[first] == Entry(Permit, CatchAll)
    requires forall i | 0 <= i < first :: list[i].action.Deny?
    ensures FirstMatch(list, p => CarriesMatch(communities, p)) <==>
            forall i | 0 <= i < first :: !CarriesMatch(communities, list[i].cond)
  {
    if first == 0 {
    } else {
      assert forall i | 0 <= i < first :: list[1..][i] == list[i + 1];
      FirstMatchUpTo(list[1..], communities, first - 1);
      assert forall i | 0 < i < first :: list[i] == list[1..][i - 1];
    }
  }

  /** The communities that tell a new late denial from the rest of the list. */
  function Witness(p: Pattern): set<string> {
    if p.CatchAll? then {} else {p.value}
  }

  lemma LateDenialVisible(list: CommunityList, first: nat, j: nat)
    requires first < j < |list| && list[first] == Entry(Permit, CatchAll) && list[j].action.Deny?
    requires forall i | 0 <= i < first :: list[i].action.Deny?
    requires forall i | 0 <= i < first :: !list[i].cond.CatchAll? && list[i].cond != list[j].cond
    ensures FirstMatch(list, p => CarriesMatch(Witness(list[j].cond), p))
    ensures !InCommunitySet(list, Witness(list[j].cond))
  {
    FirstMatchUpTo(list, Witness(list[j].cond), first);
    assert CarriesMatch(Witness(list[j].cond), list[j].cond);
  }

  /** The check looks at the shape of the list but not at its order.  A list with
      deny entries that it accepts keeps its meaning exactly when no deny entry
      behind the first catch-all adds a new condition. */
  lemma AcceptedCommunityListExact(list: CommunityList, first: nat)
    requires !CommunityListRefused(list) && HasDeny(list)
    requires first < |list| && list[first].action.Permit? && forall i | 0 <= i < first :: list[i].action.Deny?
    ensures (forall communities: set<string> ::
               FirstMatch(list, p => CarriesMatch(communities, p)) <==> InCommunitySet(list, communities))
            <==> LateDenialsRepeat(list, first)
  {
    assert list[first] == Entry(Permit, CatchAll);
    if LateDenialsRepeat(list, first) {
      forall communities: set<string>
        ensures FirstMatch(list, p => CarriesMatch(communities, p)) <==> InCommunitySet(list, communities)
      {
        FirstMatchUpTo(list, communities, first);
      }
    } else {
      var j :| first < j < |list| && list[j].action.Deny?
               && forall i | 0 <= i < first :: !list[i].cond.CatchAll? && list[i].cond != list[j].cond;
      LateDenialVisible(list, first, j);
    }
  }

  /** A list with denials is accepted exactly when it permits something and permits
      by catch-all entries only. */
  lemma CommunityRefusedExact(list: CommunityList)
    requires HasDeny(list)
    ensures !CommunityListRefused(list) <==>
            Entry(Permit, CatchAll) in list && forall e | e in list && e.action == Permit :: e.cond == CatchAll
  {
    if !CommunityListRefused(list) {
      var i :| 0 <= i < |list| && list[i].action.Permit?;
      assert list[i] == Entry(Permit, CatchAll);
    }
    assert forall i | 0 <= i < |list| :: list[i] in list;
  }

  /** A list of permit entries only is rendered as it is. */
  lemma PermitOnlyPreserved(list: CommunityList, communities: set<string>)
    requires !HasDeny(list)
    ensures !CommunityListRefused(list)
    ensures FirstMatch(list, p => CarriesMatch(communities, p)) <==> InCommunitySet(list, communities)
  {
    UnshadowedIsPermit(list, p => CarriesMatch(communities, p));
  }
}
