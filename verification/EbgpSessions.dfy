/** eBGP sessions between the two ends of a link (netsim/modules/bgp.py), with
    local AS numbers and confederations (RFC 5065).  Both ends are numbered and
    support the features they use. */
module EbgpSessions {
  import opened Options
  import opened Sequences

  /** The BGP settings of a node, and the local AS of its interface.  The
      confederation fields are those that check_confederation_data sets. */
  datatype Peer = Peer(asn: Option<int>, nodeLocalAs: Option<int>, intfLocalAs: Option<int>,
                       confedAs: Option<int>, confedPeers: set<int>)

  /** One end of a link: node name, address of the interface, BGP settings. */
  datatype End = End(name: string, address: int, peer: Peer)

  /** An interface of the node, with the local AS set on it. */
  datatype Interface = Interface(ifindex: int, localAs: Option<int>, neighbors: seq<End>)

  datatype SessionType = LocalAsIbgp | ConfedEbgp | Ebgp

  /** The AS number and the type of a session. */
  datatype Terms = Terms(asn: int, kind: SessionType)

  /** What the node records for a neighbor. */
  datatype Session = Session(name: string, ifindex: int, address: int, terms: Terms)

  function Or(a: Option<int>, b: Option<int>): Option<int> {
    if a.Some? then a else b
  }

  /** get_interface_as */
  function InterfaceAs(p: Peer): Option<int> {
    Or(p.intfLocalAs, Or(p.nodeLocalAs, p.asn))
  }

  /** The neighbor's AS as the node sees it: a confederation shows its own AS
      number to speakers outside. */
  function NeighborRealAs(nodeLocalAs: Option<int>, neighbor: Peer): Option<int> {
    if neighbor.confedAs.Some? && neighbor.asn != nodeLocalAs
       && !(nodeLocalAs.Some? && nodeLocalAs.value in neighbor.confedPeers)
    then neighbor.confedAs else neighbor.asn
  }

  /** One pass through the loop of build_ebgp_sessions: the terms of the session
      that the node records for a neighbor, if any. */
  function View(node: Peer, neighbor: Peer): Option<Terms> {
    var nodeLocalAs := InterfaceAs(node);
    var realAs := NeighborRealAs(nodeLocalAs, neighbor);
    var localAs := Or(neighbor.intfLocalAs, Or(neighbor.nodeLocalAs, realAs));
    if localAs.None? then None
    else if node.asn == realAs && nodeLocalAs == localAs then None
    else
      Some(Terms(localAs.value,
                 if localAs == nodeLocalAs then LocalAsIbgp
                 else if localAs.value in node.confedPeers then ConfedEbgp
                 else Ebgp))
  }

  function SessionWith(node: Peer, l: Interface, neighbor: End): seq<Session> {
    match View(node.(intfLocalAs := l.localAs), neighbor.peer)
    case Some(terms) => [Session(neighbor.name, l.ifindex, neighbor.address, terms)]
    case None => []
  }

  /** The sessions of an interface, one for each neighbor the node has a view of. */
  function LinkSessions(node: Peer, l: Interface, neighbors: seq<End>): seq<Session> {
    if neighbors == [] then [] else SessionWith(node, l, neighbors[0]) + LinkSessions(node, l, neighbors[1..])
  }

  function NodeSessions(node: Peer, interfaces: seq<Interface>): seq<Session> {
    if interfaces == [] then []
    else LinkSessions(node, interfaces[0], interfaces[0].neighbors) + NodeSessions(node, interfaces[1..])
  }

  /** append_to_list for one session after the other: a session that is listed
      already is not repeated. */
  function AppendNew(list: seq<Session>, more: seq<Session>): seq<Session>
    decreases |more|
  {
    if more == [] then list
    else AppendNew(if more[0] in list then list else list + [more[0]], more[1..])
  }

  lemma {:induction false} AppendNewConcat(list: seq<Session>, a: seq<Session>, b: seq<Session>)
    ensures AppendNew(list, a + b) == AppendNew(AppendNew(list, a), b)
    decreases |a|
  {
    if a == [] {
      assert a + b == b;
    } else {
      assert (a + b)[1..] == a[1..] + b;
      AppendNewConcat(if a[0] in list then list else list + [a[0]], a[1..], b);
    }
  }

  lemma {:induction false} AppendNewDistinct(list: seq<Session>, more: seq<Session>)
    requires Distinct(list + more)
    ensures AppendNew(list, more) == list + more
    decreases |more|
  {
    if more == [] {
      assert list + more == list;
    } else {
      var all := list + more;
      assert all[|list|] == more[0] && forall i | 0 <= i < |list| :: all[i] == list[i];
      assert (list + [more[0]]) + more[1..] == all;
      AppendNewDistinct(list + [more[0]], more[1..]);
    }
  }

  /** The loop over the neighbors of an interface. */
  method AddLinkSessions(node: Peer, l: Interface, before: seq<Session>) returns (sessions: seq<Session>)
    ensures sessions == AppendNew(before, LinkSessions(node, l, l.neighbors))
  {
    sessions := before;
    for k := 0 to |l.neighbors|
      invariant AppendNew(sessions, LinkSessions(node, l, l.neighbors[k..])) == AppendNew(before, LinkSessions(node, l, l.neighbors))
    {
      var found := SessionWith(node, l, l.neighbors[k]);
      assert l.neighbors[k..][1..] == l.neighbors[k + 1..];
      AppendNewConcat(sessions, found, LinkSessions(node, l, l.neighbors[k + 1..]));
      if found != [] && found[0] !in sessions {
        sessions := sessions + found;
      }
    }
  }

  /** build_ebgp_sessions: the sessions follow those the node has already. */
  method BuildEbgpSessions(node: Peer, interfaces: seq<Interface>, before: seq<Session>) returns (sessions: seq<Session>)
    ensures sessions == AppendNew(before, NodeSessions(node, interfaces))
  {
    sessions := before;
    for k := 0 to |interfaces|
      invariant AppendNew(sessions, NodeSessions(node, interfaces[k..])) == AppendNew(before, NodeSessions(node, interfaces))
    {
      assert interfaces[k..][1..] == interfaces[k + 1..];
      AppendNewConcat(sessions, LinkSessions(node, interfaces[k], interfaces[k].neighbors), NodeSessions(node, interfaces[k + 1..]));
      sessions := AddLinkSessions(node, interfaces[k], sessions);
    }
  }

  /** Interface indexes are unique, and the ends of a link differ in node or
      address. */
  ghost predicate Wired(interfaces: seq<Interface>) {
    && (forall k, l | 0 <= k < l < |interfaces| :: interfaces[k].ifindex != interfaces[l].ifindex)
    && forall k | 0 <= k < |interfaces| :: DistinctEnds(interfaces[k].neighbors)
  }

  ghost predicate DistinctEnds(ends: seq<End>) {
    forall i, j | 0 <= i < j < |ends| :: ends[i].name != ends[j].name || ends[i].address != ends[j].address
  }

  lemma {:induction false} LinkSessionsExact(node: Peer, l: Interface, neighbors: seq<End>)
    requires DistinctEnds(neighbors)
    ensures Distinct(LinkSessions(node, l, neighbors))
    ensures forall s :: s in LinkSessions(node, l, neighbors) <==>
              exists i :: 0 <= i < |neighbors| && SessionWith(node, l, neighbors[i]) == [s]
  {
    if neighbors == [] {
    } else {
      var first, rest := SessionWith(node, l, neighbors[0]), LinkSessions(node, l, neighbors[1..]);
      LinkSessionsExact(node, l, neighbors[1..]);
      assert forall i | 0 < i < |neighbors| :: neighbors[i] == neighbors[1..][i - 1];
      assert forall s | s in rest :: first != [s];
      forall s ensures s in first + rest <==> exists i :: 0 <= i < |neighbors| && SessionWith(node, l, neighbors[i]) == [s] {
        if s in rest {
          var i :| 0 <= i < |neighbors| - 1 && SessionWith(node, l, neighbors[1..][i]) == [s];
          assert SessionWith(node, l, neighbors[i + 1]) == [s];
        }
        if i :| 0 < i < |neighbors| && SessionWith(node, l, neighbors[i]) == [s] {
          assert SessionWith(node, l, neighbors[1..][i - 1]) == [s];
        }
      }
    }
  }

  /** The session is the one with a neighbor on an interface of the node. */
  ghost predicate IsSession(node: Peer, interfaces: seq<Interface>, s: Session) {
    exists k :: 0 <= k < |interfaces| && IsLinkSession(node, interfaces[k], s)
  }

  ghost predicate IsLinkSession(node: Peer, l: Interface, s: Session) {
    exists i :: 0 <= i < |l.neighbors| && SessionWith(node, l, l.neighbors[i]) == [s]
  }

  lemma {:induction false} NodeSessionsExact(node: Peer, interfaces: seq<Interface>, s: Session)
    requires Wired(interfaces)
    ensures s in NodeSessions(node, interfaces) <==> IsSession(node, interfaces, s)
  {
    if interfaces == [] {
    } else {
      var l, others := interfaces[0], interfaces[1..];
      LinkSessionsExact(node, l, l.neighbors);
      assert s in LinkSessions(node, l, l.neighbors) <==> IsLinkSession(node, l, s);
      NodeSessionsExact(node, others, s);
      assert forall k | 0 < k < |interfaces| :: interfaces[k] == others[k - 1];
      if k :| 0 <= k < |others| && IsLinkSession(node, others[k], s) {
        assert IsLinkSession(node, interfaces[k + 1], s);
      }
    }
  }

  lemma SessionCarriesIfindex(node: Peer, interfaces: seq<Interface>, s: Session)
    requires IsSession(node, interfaces, s)
    ensures exists k :: 0 <= k < |interfaces| && interfaces[k].ifindex == s.ifindex
  {
    var k :| 0 <= k < |interfaces| && IsLinkSession(node, interfaces[k], s);
    assert interfaces[k].ifindex == s.ifindex;
  }

  lemma {:induction false} NodeSessionsDistinct(node: Peer, interfaces: seq<Interface>)
    requires Wired(interfaces)
    ensures Distinct(NodeSessions(node, interfaces))
  {
    if interfaces == [] {
    } else {
      var l, others := interfaces[0], interfaces[1..];
      LinkSessionsExact(node, l, l.neighbors);
      NodeSessionsDistinct(node, others);
      forall s | s in NodeSessions(node, others) ensures s.ifindex != l.ifindex {
        NodeSessionsExact(node, others, s);
        SessionCarriesIfindex(node, others, s);
      }
      assert forall s | s in LinkSessions(node, l, l.neighbors) :: s.ifindex == l.ifindex;
      ConcatDistinct(LinkSessions(node, l, l.neighbors), NodeSessions(node, others));
    }
  }

  /** One session for each neighbor on each interface the node has a view of,
      with the name and address of that neighbor, and no other. */
  lemma SessionPerNeighbor(node: Peer, interfaces: seq<Interface>)
    requires Wired(interfaces)
    ensures AppendNew([], NodeSessions(node, interfaces)) == NodeSessions(node, interfaces)
    ensures Distinct(NodeSessions(node, interfaces))
    ensures forall s :: s in NodeSessions(node, interfaces) <==> IsSession(node, interfaces, s)
  {
    NodeSessionsDistinct(node, interfaces);
    assert [] + NodeSessions(node, interfaces) == NodeSessions(node, interfaces);
    AppendNewDistinct([], NodeSessions(node, interfaces));
    forall s ensures s in NodeSessions(node, interfaces) <==> IsSession(node, interfaces, s) {
      NodeSessionsExact(node, interfaces, s);
    }
  }

  /** The AS number a speaker shows to a neighbor: its interface AS, or the AS of
      its confederation to speakers outside the confederation. */
  function PresentedAs(p: Peer, to: Peer): Option<int> {
    if UsesLocalAs(p) || p.confedAs.None? || InterfaceAs(to) == p.asn
       || (InterfaceAs(to).Some? && InterfaceAs(to).value in p.confedPeers)
    then InterfaceAs(p) else p.confedAs
  }

  predicate UsesLocalAs(p: Peer) {
    p.nodeLocalAs.Some? || p.intfLocalAs.Some?
  }

  // ----- confederations

  type Confederations = map<int, seq<int>>

  predicate IsMember(confeds: Confederations, c: int, asn: int) {
    c in confeds && asn in confeds[c]
  }

  /** What check_confederation_data demands of one definition, given the members
      of those before it: some members, none of them repeated, a member of
      another confederation, or a confederation itself. */
  ghost predicate DefinitionOk(confeds: Confederations, c: int, seen: set<int>)
    requires c in confeds
  {
    confeds[c] != [] && MembersOk(confeds, confeds[c], seen)
  }

  ghost predicate MembersOk(confeds: Confederations, members: seq<int>, seen: set<int>) {
    Distinct(members) && forall asn | asn in members :: asn !in seen && asn !in confeds
  }

  lemma MembersOkSnoc(confeds: Confederations, members: seq<int>, asn: int, seen: set<int>)
    ensures MembersOk(confeds, members + [asn], seen) <==>
            MembersOk(confeds, members, seen) && asn !in seen && asn !in Elements(members) && asn !in confeds
    ensures Elements(members + [asn]) == Elements(members) + {asn}
  {
    var longer := members + [asn];
    assert longer[|members|] == asn;
    assert forall i | 0 <= i < |members| :: longer[i] == members[i];
    if Distinct(longer) {
      assert Distinct(members);
    }
  }

  /** The same for all definitions: no AS is a member of two confederations. */
  ghost predicate ConfederationsOk(confeds: Confederations) {
    && (forall c | c in confeds :: DefinitionOk(confeds, c, {}))
    && (forall c, d, asn | c != d :: !(IsMember(confeds, c, asn) && IsMember(confeds, d, asn)))
  }

  /** One definition of the first loop. */
  method AddMembers(confeds: Confederations, c: int, rev: map<int, int>) returns (rev': map<int, int>, ok: bool)
    requires c in confeds
    ensures rev'.Keys == rev.Keys + Elements(confeds[c])
    ensures forall asn | asn in rev' :: rev'[asn] == if asn in confeds[c] then c else rev[asn]
    ensures ok <==> DefinitionOk(confeds, c, rev.Keys)
  {
    var members := confeds[c];
    rev', ok := rev, members != [];
    for i := 0 to |members|
      invariant rev'.Keys == rev.Keys + Elements(members[..i])
      invariant forall asn | asn in rev' :: rev'[asn] == if asn in members[..i] then c else rev[asn]
      invariant ok <==> members != [] && MembersOk(confeds, members[..i], rev.Keys)
    {
      var asn := members[i];
      assert members[..i + 1] == members[..i] + [asn];
      MembersOkSnoc(confeds, members[..i], asn, rev.Keys);
      if asn in rev' {
        ok := false;
      }
      rev' := rev'[asn := c];
      if asn in confeds {
        ok := false;
      }
    }
    assert members[..|members|] == members;
  }

  /** The definitions handled so far. */
  ghost predicate OkAmong(confeds: Confederations, done: set<int>) {
    && (forall c | c in done && c in confeds :: DefinitionOk(confeds, c, {}))
    && (forall c, d, asn | c in done && d in done && c != d :: !(IsMember(confeds, c, asn) && IsMember(confeds, d, asn)))
  }

  ghost predicate MapsMembers(confeds: Confederations, done: set<int>, rev: map<int, int>) {
    && (forall asn :: asn in rev <==> exists c :: c in done && IsMember(confeds, c, asn))
    && (forall asn | asn in rev :: rev[asn] in done && IsMember(confeds, rev[asn], asn))
  }

  lemma OneMoreDefinition(confeds: Confederations, done: set<int>, rev: map<int, int>, c: int)
    requires c in confeds && c !in done && MapsMembers(confeds, done, rev)
    ensures OkAmong(confeds, done + {c}) <==> OkAmong(confeds, done) && DefinitionOk(confeds, c, rev.Keys)
  {
    if OkAmong(confeds, done + {c}) {
      assert forall asn | asn in confeds[c] :: IsMember(confeds, c, asn);
    }
    if OkAmong(confeds, done) && DefinitionOk(confeds, c, rev.Keys) {
      forall d, asn | d in done && IsMember(confeds, d, asn) ensures !IsMember(confeds, c, asn) {
        assert asn in rev;
      }
    }
  }

  lemma AllDefinitions(confeds: Confederations)
    ensures OkAmong(confeds, confeds.Keys) <==> ConfederationsOk(confeds)
  {
  }

  /** One more definition is handled. */
  method HandleDefinition(confeds: Confederations, ghost done: set<int>, rev: map<int, int>, c: int)
    returns (rev': map<int, int>, clean: bool)
    requires c in confeds && c !in done && MapsMembers(confeds, done, rev)
    ensures MapsMembers(confeds, done + {c}, rev')
    ensures OkAmong(confeds, done + {c}) <==> OkAmong(confeds, done) && clean
  {
    OneMoreDefinition(confeds, done, rev, c);
    rev', clean := AddMembers(confeds, c, rev);
    forall asn ensures asn in rev' <==> exists d :: d in done + {c} && IsMember(confeds, d, asn) {
      if asn in rev' {
        assert IsMember(confeds, rev'[asn], asn);
      }
    }
  }

  /** The first loop, over the definitions in their order: the reverse map of
      members, and whether all definitions are clean. */
  method ReverseMap(confeds: Confederations, order: seq<int>) returns (rev: map<int, int>, ok: bool)
    requires Distinct(order) && Elements(order) == confeds.Keys
    ensures ok <==> ConfederationsOk(confeds)
    ensures MapsMembers(confeds, confeds.Keys, rev)
  {
    rev, ok := map[], true;
    ghost var done: set<int> := {};
    for i := 0 to |order|
      invariant done == Elements(order[..i])
      invariant MapsMembers(confeds, done, rev)
      invariant ok <==> OkAmong(confeds, done)
    {
      NextElement(order, i);
      var clean;
      rev, clean := HandleDefinition(confeds, done, rev, order[i]);
      ok := ok && clean;
      done := done + {order[i]};
    }
    assert order[..|order|] == order;
    AllDefinitions(confeds);
  }

  /** What a node knows about its confederation once the data is checked. */
  ghost predicate Joined(confeds: Confederations, p: Peer) {
    if exists c :: p.asn.Some? && IsMember(confeds, c, p.asn.value) then
      && p.confedAs.Some? && IsMember(confeds, p.confedAs.value, p.asn.value)
      && p.confedPeers == Elements(confeds[p.confedAs.value]) - {p.asn.value}
    else p.confedAs == None && p.confedPeers == {}
  }

  /** check_confederation_data for devices that support confederations: the
      definitions must be clean and no node may use a confederation's own AS;
      members learn the confederation AS and the other members. */
  method CheckConfederationData(confeds: Confederations, order: seq<int>, nodes: array<Peer>) returns (ok: bool)
    requires Distinct(order) && Elements(order) == confeds.Keys
    requires forall i | 0 <= i < nodes.Length :: nodes[i].confedAs == None && nodes[i].confedPeers == {}
    modifies nodes
    ensures ok <==> ConfederationsOk(confeds)
                    && forall i | 0 <= i < nodes.Length :: old(nodes[i]).asn.Some? ==> old(nodes[i]).asn.value !in confeds
    ensures forall i | 0 <= i < nodes.Length ::
              Joined(confeds, nodes[i]) &&
              nodes[i] == old(nodes[i]).(confedAs := nodes[i].confedAs, confedPeers := nodes[i].confedPeers)
  {
    var rev;
    rev, ok := ReverseMap(confeds, order);
    for i := 0 to nodes.Length
      invariant forall k | i <= k < nodes.Length :: nodes[k] == old(nodes[k])
      invariant ok <==> ConfederationsOk(confeds)
                        && forall k | 0 <= k < i :: old(nodes[k]).asn.Some? ==> old(nodes[k]).asn.value !in confeds
      invariant forall k | 0 <= k < i ::
                  Joined(confeds, nodes[k]) &&
                  nodes[k] == old(nodes[k]).(confedAs := nodes[k].confedAs, confedPeers := nodes[k].confedPeers)
    {
      if nodes[i].asn.Some? {
        if nodes[i].asn.value in confeds {
          ok := false;
        }
        nodes[i] := JoinConfederation(confeds, rev, nodes[i]);
      }
    }
  }

  /** What one node learns about its confederation. */
  method JoinConfederation(confeds: Confederations, rev: map<int, int>, p: Peer) returns (joined: Peer)
    requires MapsMembers(confeds, confeds.Keys, rev)
    requires p.asn.Some? && p.confedAs == None && p.confedPeers == {}
    ensures Joined(confeds, joined)
    ensures joined == p.(confedAs := joined.confedAs, confedPeers := joined.confedPeers)
  {
    var asn := p.asn.value;
    if asn !in rev {
      return p;
    }
    var peers := OtherMembers(confeds[rev[asn]], asn);
    return p.(confedAs := Some(rev[asn]), confedPeers := peers);
  }

  method OtherMembers(members: seq<int>, asn: int) returns (peers: set<int>)
    ensures peers == Elements(members) - {asn}
  {
    peers := {};
    for i := 0 to |members|
      invariant peers == Elements(members[..i]) - {asn}
    {
      assert members[..i + 1] == members[..i] + [members[i]];
      if members[i] != asn {
        peers := peers + {members[i]};
      }
    }
    assert members[..|members|] == members;
  }

  // ----- both ends agree

  /** The settings of one end: checked confederation data and any local AS
      numbers. */
  ghost predicate Checked(confeds: Confederations, p: Peer) {
    p.asn.Some? && p.asn.value !in confeds && Joined(confeds, p)
  }

  ghost predicate LocalAsOnly(p: Peer) {
    p.asn.Some? && p.confedAs == None && p.confedPeers == {}
  }

  ghost predicate ConfederationOnly(confeds: Confederations, p: Peer) {
    Checked(confeds, p) && !UsesLocalAs(p)
  }

  ghost predicate Mirrored(a: Peer, b: Peer) {
    match (View(a, b), View(b, a))
    case (Some(s), Some(t)) =>
      s.kind == t.kind && PresentedAs(b, a) == Some(s.asn) && PresentedAs(a, b) == Some(t.asn)
    case (None, None) => true
    case _ => false
  }

  /** A local AS against a neighbor without one: it is not the AS of the
      neighbor's confederation, and if it is another member of the confederation,
      its owner must be in the confederation, too. */
  predicate LocalAsFits(local: Peer, other: Peer)
    requires local.asn.Some? && other.asn.Some?
  {
    var asn := InterfaceAs(local);
    other.confedAs.Some? ==> asn != other.confedAs && (asn.value in other.confedPeers ==> other.asn.value in local.confedPeers)
  }

  /** Guard on the AS numbers of the two ends. */
  predicate AsNumbersFit(a: Peer, b: Peer)
    requires a.asn.Some? && b.asn.Some?
  {
    if UsesLocalAs(a) && UsesLocalAs(b) then
      InterfaceAs(a) == InterfaceAs(b) || (InterfaceAs(b).value in a.confedPeers <==> InterfaceAs(a).value in b.confedPeers)
    else
      && (UsesLocalAs(a) ==> LocalAsFits(a, b))
      && (UsesLocalAs(b) ==> LocalAsFits(b, a))
  }

  // ----- the exact terms, in the settings of the two ends

  /** The interface AS: the first one given of the local AS of the interface, the
      local AS of the node, and its AS. */
  ghost predicate OwnAs(p: Peer, asn: Option<int>) {
    && (p.intfLocalAs.Some? ==> asn == p.intfLocalAs)
    && (p.intfLocalAs.None? && p.nodeLocalAs.Some? ==> asn == p.nodeLocalAs)
    && (p.intfLocalAs.None? && p.nodeLocalAs.None? ==> asn == p.asn)
  }

  /** The neighbor is in a confederation, and a speaker with that interface AS is
      not. */
  predicate Outside(neighbor: Peer, own: Option<int>) {
    neighbor.confedAs.Some? && own != neighbor.asn && !(own.Some? && own.value in neighbor.confedPeers)
  }

  /** The AS that the neighbor presents: a local AS if it has one; the AS of its
      confederation to speakers outside; its AS otherwise. */
  ghost predicate Presents(neighbor: Peer, own: Option<int>, asn: Option<int>) {
    if neighbor.intfLocalAs.Some? || neighbor.nodeLocalAs.Some? then OwnAs(neighbor, asn)
    else if Outside(neighbor, own) then asn == neighbor.confedAs
    else asn == neighbor.asn
  }

  /** No session is recorded exactly when the neighbor presents no AS, or presents
      the interface AS of the node and is in its AS (in its confederation AS, seen
      from outside).  The type tells whether the AS presented is the interface AS,
      or else among the confederation peers of the node. */
  lemma TermsExact(node: Peer, neighbor: Peer, own: Option<int>, asn: Option<int>)
    requires OwnAs(node, own) && Presents(neighbor, own, asn)
    ensures InterfaceAs(node) == own && PresentedAs(neighbor, node) == asn
    ensures View(node, neighbor).None? <==>
            asn.None? || (own == asn && node.asn == if Outside(neighbor, own) then neighbor.confedAs else neighbor.asn)
    ensures View(node, neighbor).Some? ==>
              var terms := View(node, neighbor).value;
              && Some(terms.asn) == asn
              && (terms.kind == LocalAsIbgp <==> own == asn)
              && (terms.kind == ConfedEbgp <==> own != asn && terms.asn in node.confedPeers)
              && (terms.kind == Ebgp <==> own != asn && terms.asn !in node.confedPeers)
  {
  }

  /** Plain AS numbers: an eBGP session with every neighbor in another AS. */
  predicate IsPlain(p: Peer) {
    p.nodeLocalAs == None && p.intfLocalAs == None && p.confedAs == None && p.confedPeers == {}
  }

  lemma PlainTerms(node: Peer, neighbor: Peer)
    requires IsPlain(node) && IsPlain(neighbor)
    ensures View(node, neighbor) ==
            if neighbor.asn.None? || neighbor.asn == node.asn then None else Some(Terms(neighbor.asn.value, Ebgp))
  {
  }

  /** On a node with plain AS numbers the list holds one eBGP session for each
      neighbor on each interface whose AS differs, and nothing else. */
  lemma PlainSessionsExact(node: Peer, interfaces: seq<Interface>, s: Session)
    requires Wired(interfaces) && IsPlain(node)
    requires forall k | 0 <= k < |interfaces| :: interfaces[k].localAs == None
    requires forall k, i | 0 <= k < |interfaces| && 0 <= i < |interfaces[k].neighbors| :: IsPlain(interfaces[k].neighbors[i].peer)
    ensures s in AppendNew([], NodeSessions(node, interfaces)) <==>
            exists k, i :: 0 <= k < |interfaces| && 0 <= i < |interfaces[k].neighbors|
                           && IsPlainSession(node, interfaces[k], interfaces[k].neighbors[i], s)
  {
    SessionPerNeighbor(node, interfaces);
    forall k, i | 0 <= k < |interfaces| && 0 <= i < |interfaces[k].neighbors|
      ensures SessionWith(node, interfaces[k], interfaces[k].neighbors[i]) == [s] <==>
              IsPlainSession(node, interfaces[k], interfaces[k].neighbors[i], s)
    {
      assert node.(intfLocalAs := interfaces[k].localAs) == node;
      PlainTerms(node, interfaces[k].neighbors[i].peer);
    }
    if IsSession(node, interfaces, s) {
      var k :| 0 <= k < |interfaces| && IsLinkSession(node, interfaces[k], s);
      var i :| 0 <= i < |interfaces[k].neighbors| && SessionWith(node, interfaces[k], interfaces[k].neighbors[i]) == [s];
      assert IsPlainSession(node, interfaces[k], interfaces[k].neighbors[i], s);
    }
    if k, i :| 0 <= k < |interfaces| && 0 <= i < |interfaces[k].neighbors|
               && IsPlainSession(node, interfaces[k], interfaces[k].neighbors[i], s) {
      assert IsLinkSession(node, interfaces[k], s);
    }
  }

  predicate IsPlainSession(node: Peer, l: Interface, neighbor: End, s: Session) {
    && neighbor.peer.asn.Some? && neighbor.peer.asn != node.asn
    && s == Session(neighbor.name, l.ifindex, neighbor.address, Terms(neighbor.peer.asn.value, Ebgp))
  }

  /** The same for any settings: each session has the terms that the settings of
      the two ends give it. */
  lemma SessionTermsExact(node: Peer, interfaces: seq<Interface>, s: Session)
    requires Wired(interfaces)
    ensures s in AppendNew([], NodeSessions(node, interfaces)) <==>
            exists k, i :: 0 <= k < |interfaces| && 0 <= i < |interfaces[k].neighbors|
                           && HasTerms(node.(intfLocalAs := interfaces[k].localAs), interfaces[k], interfaces[k].neighbors[i], s)
  {
    SessionPerNeighbor(node, interfaces);
    forall k, i | 0 <= k < |interfaces| && 0 <= i < |interfaces[k].neighbors|
      ensures SessionWith(node, interfaces[k], interfaces[k].neighbors[i]) == [s] <==>
              HasTerms(node.(intfLocalAs := interfaces[k].localAs), interfaces[k], interfaces[k].neighbors[i], s)
    {
      HasTermsExact(node.(intfLocalAs := interfaces[k].localAs), interfaces[k], interfaces[k].neighbors[i], s);
    }
    if IsSession(node, interfaces, s) {
      var k :| 0 <= k < |interfaces| && IsLinkSession(node, interfaces[k], s);
      var i :| 0 <= i < |interfaces[k].neighbors| && SessionWith(node, interfaces[k], interfaces[k].neighbors[i]) == [s];
      assert HasTerms(node.(intfLocalAs := interfaces[k].localAs), interfaces[k], interfaces[k].neighbors[i], s);
    }
    if k, i :| 0 <= k < |interfaces| && 0 <= i < |interfaces[k].neighbors|
               && HasTerms(node.(intfLocalAs := interfaces[k].localAs), interfaces[k], interfaces[k].neighbors[i], s) {
      assert IsLinkSession(node, interfaces[k], s);
    }
  }

  /** Session s is the one that node, with the local AS of interface l, has with
      the neighbor. */
  ghost predicate HasTerms(node: Peer, l: Interface, neighbor: End, s: Session) {
    && s.name == neighbor.name && s.ifindex == l.ifindex && s.address == neighbor.address
    && exists own :: OwnAs(node, own) && AreTerms(node, own, neighbor.peer, s.terms)
  }

  ghost predicate AreTerms(node: Peer, own: Option<int>, neighbor: Peer, terms: Terms) {
    && Presents(neighbor, own, Some(terms.asn))
    && !(own == Some(terms.asn) && node.asn == if Outside(neighbor, own) then neighbor.confedAs else neighbor.asn)
    && (terms.kind == LocalAsIbgp <==> own == Some(terms.asn))
    && (terms.kind == ConfedEbgp <==> own != Some(terms.asn) && terms.asn in node.confedPeers)
  }

  lemma HasTermsExact(node: Peer, l: Interface, neighbor: End, s: Session)
    ensures HasTerms(node, l, neighbor, s) <==>
            View(node, neighbor.peer).Some? && s == Session(neighbor.name, l.ifindex, neighbor.address, View(node, neighbor.peer).value)
  {
    var own, asn := InterfaceAs(node), PresentedAs(neighbor.peer, node);
    assert OwnAs(node, own) && Presents(neighbor.peer, own, asn);
    TermsExact(node, neighbor.peer, own, asn);
  }

  lemma ConfederationSides(confeds: Confederations, a: Peer, b: Peer)
    requires ConfederationsOk(confeds) && Checked(confeds, a) && Checked(confeds, b)
    ensures b.asn.value in a.confedPeers <==> a.confedAs.Some? && b.confedAs == a.confedAs && a.asn != b.asn
    ensures a.confedAs.Some? ==> a.confedAs.value in confeds
    ensures forall asn | asn in a.confedPeers :: asn !in confeds
    ensures a.asn == b.asn ==> a.confedAs == b.confedAs
  {
    if a.confedAs.Some? {
      var c := a.confedAs.value;
      assert IsMember(confeds, c, a.asn.value);
      assert b.asn.value in confeds[c] <==> IsMember(confeds, c, b.asn.value);
      forall asn | asn in confeds[c] ensures asn !in confeds {
        assert IsMember(confeds, c, asn);
      }
    }
    if b.confedAs.Some? {
      assert IsMember(confeds, b.confedAs.value, b.asn.value);
    }
  }

  /** With checked confederations and any use of local AS numbers, one end records
      a session exactly when the other does, of the same type, and for the AS
      number the other end presents, if and only if the AS numbers fit. */
  lemma ViewsMirrorExactly(confeds: Confederations, a: Peer, b: Peer)
    requires ConfederationsOk(confeds) && Checked(confeds, a) && Checked(confeds, b)
    ensures Mirrored(a, b) <==> AsNumbersFit(a, b)
  {
    ConfederationSides(confeds, a, b);
    ConfederationSides(confeds, b, a);
  }

  /** In particular with local AS numbers only, or with confederations only. */
  lemma ViewsMirror(confeds: Confederations, a: Peer, b: Peer)
    requires ConfederationsOk(confeds)
    requires (LocalAsOnly(a) && LocalAsOnly(b)) || (ConfederationOnly(confeds, a) && ConfederationOnly(confeds, b))
    ensures Mirrored(a, b)
  {
    if ConfederationOnly(confeds, a) && ConfederationOnly(confeds, b) {
      ViewsMirrorExactly(confeds, a, b);
    }
  }

  /** A local AS that is a member of the neighbor's confederation: the ends
      disagree on the type of the session. */
  lemma MixedMechanismsDisagree()
    ensures var confeds: Confederations := map[100 := [65001, 65002, 65003]];
            var a := Peer(Some(500), Some(65003), None, None, {});
            var b := Peer(Some(65002), None, None, Some(100), {65001, 65003});
            && ConfederationsOk(confeds) && Checked(confeds, a) && Checked(confeds, b) && !AsNumbersFit(a, b)
            && View(a, b) == Some(Terms(65002, Ebgp)) && View(b, a) == Some(Terms(65003, ConfedEbgp))
  {
    var confeds: Confederations := map[100 := [65001, 65002, 65003]];
    assert IsMember(confeds, 100, 65002);
    assert Elements(confeds[100]) == {65001, 65002, 65003};
  }
}
