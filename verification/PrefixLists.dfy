/** Prefix lists: the routes an entry matches, and when two entries match a route
    in common. */
module PrefixLists {
  import opened AddressPools
  import opened Arithmetic
  import opened Options
  import opened RoutingLists

  datatype Net = Net(base: int, len: nat)

  /** A prefix with optional bounds on the length of the routes it covers. */
  datatype Range = Range(net: Net, min: Option<nat>, max: Option<nat>)

  /** An entry can carry a prefix of either family. */
  datatype PrefixCond = PrefixCond(v4: Option<Range>, v6: Option<Range>)

  datatype Route = Route(af: AddressFamily, net: Net)

  type PrefixList = seq<Entry<PrefixCond>>

  function Size(af: AddressFamily, n: Net): (size: nat)
    ensures size >= 1
  {
    if n.len <= Width(af) then Pow2(Width(af) - n.len) else 1
  }

  /** A network address starts at a multiple of its size. */
  predicate IsNet(af: AddressFamily, n: Net) {
    n.len <= Width(af) && n.base >= 0 && n.base % Size(af, n) == 0
  }

  predicate IsRoute(r: Route) {
    IsNet(r.af, r.net)
  }

  function RangeOf(c: PrefixCond, af: AddressFamily): Option<Range> {
    if af == IPv4 then c.v4 else c.v6
  }

  predicate Within(af: AddressFamily, inner: Net, outer: Net) {
    outer.base <= inner.base && inner.base + Size(af, inner) <= outer.base + Size(af, outer)
  }

  function Low(range: Range): nat {
    range.min.GetOr(range.net.len)
  }

  function High(af: AddressFamily, range: Range): nat {
    range.max.GetOr(Width(af))
  }

  /** A range without bounds matches its own prefix only. */
  predicate InRange(af: AddressFamily, n: Net, range: Range) {
    if range.min.None? && range.max.None? then n == range.net
    else Within(af, n, range.net) && Low(range) <= n.len <= High(af, range)
  }

  predicate RouteMatches(r: Route, c: PrefixCond) {
    RangeOf(c, r.af).Some? && InRange(r.af, r.net, RangeOf(c, r.af).value)
  }

  /** Without bounds only the prefix itself matches; with a lower bound all longer
      prefixes from there on; with an upper bound those up to there, from the
      length of the prefix on; always inside the network. */
  lemma InRangeExact(af: AddressFamily, n: Net, net: Net, min: nat, max: nat)
    ensures InRange(af, n, Range(net, None, None)) <==> n == net
    ensures InRange(af, n, Range(net, Some(min), None)) <==> Within(af, n, net) && min <= n.len <= Width(af)
    ensures InRange(af, n, Range(net, None, Some(max))) <==> Within(af, n, net) && net.len <= n.len <= max
    ensures InRange(af, n, Range(net, Some(min), Some(max))) <==> Within(af, n, net) && min <= n.len <= max
  {
  }

  predicate Holds(af: AddressFamily, n: Net, x: int) {
    n.base <= x < n.base + Size(af, n)
  }

  /** ip_network.overlaps: an end of one network lies in the other. */
  predicate Overlaps(af: AddressFamily, a: Net, b: Net) {
    || Holds(af, a, b.base)
    || Holds(af, a, b.base + Size(af, b) - 1)
    || Holds(af, b, a.base)
    || Holds(af, b, a.base + Size(af, a) - 1)
  }

  predicate CondsOverlap(af: AddressFamily, a: PrefixCond, b: PrefixCond) {
    RangeOf(a, af).Some? && RangeOf(b, af).Some? && Overlaps(af, RangeOf(a, af).value.net, RangeOf(b, af).value.net)
  }

  lemma MatchedRangesOverlap(r: Route, a: Range, b: Range)
    requires InRange(r.af, r.net, a) && InRange(r.af, r.net, b)
    ensures Overlaps(r.af, a.net, b.net)
  {
    assert Holds(r.af, a.net, r.net.base) && Holds(r.af, b.net, r.net.base);
  }

  // ----- routes in common

  predicate IsExact(range: Range) {
    range.min.None? && range.max.None?
  }

  function Max(a: nat, b: nat): nat {
    if a < b then b else a
  }

  function Min(a: nat, b: nat): nat {
    if a < b then a else b
  }

  /** The networks overlap, and the bounds leave a length for a route in both. */
  predicate RangesMeet(af: AddressFamily, a: Range, b: Range) {
    if IsExact(a) then InRange(af, a.net, b)
    else if IsExact(b) then InRange(af, b.net, a)
    else
      && Overlaps(af, a.net, b.net)
      && Max(Max(Low(a), Low(b)), Max(a.net.len, b.net.len)) <= Min(Min(High(af, a), High(af, b)), Width(af))
  }

  predicate CondsMeet(af: AddressFamily, a: PrefixCond, b: PrefixCond) {
    RangeOf(a, af).Some? && RangeOf(b, af).Some? && RangesMeet(af, RangeOf(a, af).value, RangeOf(b, af).value)
  }

  predicate ProperCond(c: PrefixCond) {
    && (c.v4.Some? ==> IsNet(IPv4, c.v4.value.net))
    && (c.v6.Some? ==> IsNet(IPv6, c.v6.value.net))
  }

  predicate ProperList(list: PrefixList) {
    forall i | 0 <= i < |list| :: ProperCond(list[i].cond)
  }

  lemma ShorterIsLarger(af: AddressFamily, a: Net, b: Net)
    requires a.len <= Width(af) && b.len <= Width(af)
    ensures Size(af, a) <= Size(af, b) <==> b.len <= a.len
  {
    if a.len < b.len {
      Pow2Grows(Width(af) - b.len, Width(af) - a.len);
    } else if b.len < a.len {
      Pow2Grows(Width(af) - a.len, Width(af) - b.len);
    }
  }

  /** Of two overlapping networks the longer prefix lies inside the other. */
  lemma OverlapIsNested(af: AddressFamily, small: Net, large: Net)
    requires IsNet(af, small) && IsNet(af, large) && large.len <= small.len
    requires Overlaps(af, small, large)
    ensures Within(af, small, large)
  {
    ShorterIsLarger(af, small, large);
    var s := Size(af, small);
    SmallerPowerDivides(large.base, Width(af) - small.len, Width(af) - large.len);
    EndIsMultiple(af, small, large);
    if small.base < large.base {
      MultiplesApart(s, small.base, large.base);
    }
    if small.base < large.base + Size(af, large) {
      MultiplesApart(s, small.base, large.base + Size(af, large));
    }
  }

  lemma EndIsMultiple(af: AddressFamily, small: Net, large: Net)
    requires IsNet(af, large) && large.len <= small.len <= Width(af)
    ensures (large.base + Size(af, large)) % Size(af, small) == 0
  {
    var size := Size(af, large);
    assert large.base + size == size * (large.base / size + 1);
    DivModUnique(size, large.base / size + 1, 0, large.base + size);
    SmallerPowerDivides(large.base + size, Width(af) - small.len, Width(af) - large.len);
  }

  /** A longer prefix at the start of a network is a route inside it. */
  lemma FirstSubnet(af: AddressFamily, n: Net, len: nat)
    requires IsNet(af, n) && n.len <= len <= Width(af)
    ensures IsNet(af, Net(n.base, len)) && Within(af, Net(n.base, len), n)
  {
    SmallerPowerDivides(n.base, Width(af) - len, Width(af) - n.len);
    ShorterIsLarger(af, Net(n.base, len), n);
  }

  lemma MeetingRangesShareRoute(af: AddressFamily, a: Range, b: Range) returns (n: Net)
    requires IsNet(af, a.net) && IsNet(af, b.net) && RangesMeet(af, a, b)
    ensures IsNet(af, n) && InRange(af, n, a) && InRange(af, n, b)
  {
    if IsExact(a) {
      n := a.net;
    } else if IsExact(b) {
      n := b.net;
    } else {
      var small, large := if a.net.len < b.net.len then b.net else a.net, if a.net.len < b.net.len then a.net else b.net;
      n := Net(small.base, Max(Max(Low(a), Low(b)), Max(a.net.len, b.net.len)));
      OverlapIsNested(af, small, large);
      FirstSubnet(af, small, n.len);
    }
  }

  /** Two ranges have a route in common exactly when they meet. */
  lemma RangesMeetExact(af: AddressFamily, a: Range, b: Range)
    requires IsNet(af, a.net) && IsNet(af, b.net)
    ensures RangesMeet(af, a, b) <==> exists n :: IsNet(af, n) && InRange(af, n, a) && InRange(af, n, b)
  {
    if RangesMeet(af, a, b) {
      var n := MeetingRangesShareRoute(af, a, b);
    }
    if n :| IsNet(af, n) && InRange(af, n, a) && InRange(af, n, b) {
      MatchedRangesOverlap(Route(af, n), a, b);
      ShorterIsLarger(af, n, a.net);
      ShorterIsLarger(af, n, b.net);
    }
  }

  ghost predicate Common(a: PrefixCond, b: PrefixCond, r: Route) {
    IsRoute(r) && RouteMatches(r, a) && RouteMatches(r, b)
  }

  /** The same for entries with prefixes of both families. */
  lemma CondsMeetExact(a: PrefixCond, b: PrefixCond)
    requires ProperCond(a) && ProperCond(b)
    ensures (CondsMeet(IPv4, a, b) || CondsMeet(IPv6, a, b)) <==> exists r :: Common(a, b, r)
  {
    if af :| CondsMeet(af, a, b) {
      var n := MeetingRangesShareRoute(af, RangeOf(a, af).value, RangeOf(b, af).value);
      assert Common(a, b, Route(af, n));
    }
    if r :| Common(a, b, r) {
      RangesMeetExact(r.af, RangeOf(a, r.af).value, RangeOf(b, r.af).value);
    }
  }

  // ----- lists evaluated as a deny set and a permit set

  /** Every route that a permit entry shares with a later denial is denied by an
      entry before both. */
  ghost predicate SharedRoutesDenied(list: PrefixList) {
    forall r: Route | IsRoute(r) :: EarlierDecides(list, Permit, c => RouteMatches(r, c))
  }

  /** A prefix list can be evaluated as two sets, for every route, exactly under
      that condition. */
  lemma PrefixSplitExact(list: PrefixList)
    ensures (forall r: Route | IsRoute(r) ::
               FirstMatch(list, c => RouteMatches(r, c)) == SplitMatch(list, c => RouteMatches(r, c))) <==>
            SharedRoutesDenied(list)
  {
    forall r: Route | IsRoute(r)
      ensures FirstMatch(list, c => RouteMatches(r, c)) == SplitMatch(list, c => RouteMatches(r, c)) <==>
              EarlierDecides(list, Permit, c => RouteMatches(r, c))
    {
      SplitExactAt(list, c => RouteMatches(r, c));
    }
  }

  /** Out of order, and still the same as its two sets: without length bounds the
      two entries have no route in common. */
  lemma WarningIsConservative(r: Route)
    ensures var list := [Entry(Permit, PrefixCond(Some(Range(Net(0, 8), None, None)), None)),
                         Entry(Deny, PrefixCond(Some(Range(Net(0, 16), None, None)), None))];
            OutOfOrder(list) && FirstMatch(list, c => RouteMatches(r, c)) == SplitMatch(list, c => RouteMatches(r, c))
  {
    var list := [Entry(Permit, PrefixCond(Some(Range(Net(0, 8), None, None)), None)),
                 Entry(Deny, PrefixCond(Some(Range(Net(0, 16), None, None)), None))];
    assert list[0].action.Permit? && list[1].action.Deny?;
    SplitExactAt(list, c => RouteMatches(r, c));
  }
}
