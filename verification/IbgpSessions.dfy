/** iBGP sessions inside an autonomous system (netsim/modules/bgp.py): which
    speakers become neighbors, the cluster IDs of route reflectors, and what the
    reflection rules of section 6 of RFC 4456 then deliver. */
module IbgpSessions {
  import opened Names
  import opened Options
  import opened RouterIds
  import opened Sequences

  /** The BGP data of a node.  rr is either set or absent, rrMesh defaults to
      true. */
  datatype Speaker = Speaker(name: string, asn: Option<int>, rr: bool, rrMesh: bool, routerId: string, cluster: Option<string>)

  /** Neighbor data: rr says the neighbor is a reflector, rrClient that it is a
      client of the node. */
  datatype Neighbor = Neighbor(name: string, rr: bool, rrClient: bool)

  predicate SameAs(a: Speaker, b: Speaker) {
    a.asn.Some? && b.asn == a.asn
  }

  /** find_bgp_rr: the AS of the node has a route reflector. */
  predicate HasReflector(nodes: seq<Speaker>, asn: Option<int>) {
    exists i :: 0 <= i < |nodes| && nodes[i].asn.Some? && nodes[i].asn == asn && nodes[i].rr
  }

  /** build_ibgp_sessions picks b as a neighbor of a. */
  predicate Selects(nodes: seq<Speaker>, a: Speaker, b: Speaker) {
    if a.rr || !HasReflector(nodes, a.asn) then
      && b.name != a.name && SameAs(a, b)
      && (a.rr && !a.rrMesh ==> !b.rr || b.rrMesh)
    else SameAs(a, b) && b.rr
  }

  function Select(nodes: seq<Speaker>, a: Speaker, candidates: seq<Speaker>): seq<Speaker> {
    if candidates == [] then []
    else (if Selects(nodes, a, candidates[0]) then [candidates[0]] else []) + Select(nodes, a, candidates[1..])
  }

  function AsNeighbors(a: Speaker, selected: seq<Speaker>, usable: set<string>): seq<Neighbor> {
    if selected == [] then []
    else (if selected[0].name in usable then [Neighbor(selected[0].name, selected[0].rr, a.rr && !selected[0].rr)] else [])
         + AsNeighbors(a, selected[1..], usable)
  }

  function Reflectors(nodes: seq<Speaker>, asn: Option<int>): seq<Speaker> {
    if nodes == [] then []
    else (if nodes[0].asn.Some? && nodes[0].asn == asn && nodes[0].rr then [nodes[0]] else []) + Reflectors(nodes[1..], asn)
  }

  lemma {:induction false} ReflectorsExist(nodes: seq<Speaker>, asn: Option<int>)
    ensures Reflectors(nodes, asn) != [] <==> HasReflector(nodes, asn)
  {
    if nodes == [] {
    } else {
      ReflectorsExist(nodes[1..], asn);
      assert forall i | 0 < i < |nodes| :: nodes[i] == nodes[1..][i - 1];
    }
  }

  /** find_bgp_rr */
  method FindBgpRr(nodes: seq<Speaker>, asn: Option<int>) returns (list: seq<Speaker>)
    ensures list == Reflectors(nodes, asn)
  {
    list := [];
    for i := 0 to |nodes|
      invariant list + Reflectors(nodes[i..], asn) == Reflectors(nodes, asn)
    {
      var found := if nodes[i].asn.Some? && nodes[i].asn == asn && nodes[i].rr then [nodes[i]] else [];
      assert nodes[i..][1..] == nodes[i + 1..];
      ConcatAssociative(list, found, Reflectors(nodes[i + 1..], asn));
      list := list + found;
    }
  }

  lemma {:induction false} ReflectorsAreSelected(nodes: seq<Speaker>, a: Speaker, candidates: seq<Speaker>)
    requires a.asn.Some? && !a.rr && HasReflector(nodes, a.asn)
    ensures Reflectors(candidates, a.asn) == Select(nodes, a, candidates)
  {
    if candidates == [] {
    } else {
      ReflectorsAreSelected(nodes, a, candidates[1..]);
    }
  }

  /** The neighbor list of build_ibgp_sessions: the reflectors of the AS for
      their clients, everyone in the AS otherwise, with reflectors that do not
      want the mesh left out. */
  method IbgpNeighborList(nodes: seq<Speaker>, a: Speaker) returns (list: seq<Speaker>)
    requires a.asn.Some?
    ensures list == Select(nodes, a, nodes)
  {
    ReflectorsExist(nodes, a.asn);
    if !a.rr {
      list := FindBgpRr(nodes, a.asn);
      if list != [] {
        ReflectorsAreSelected(nodes, a, nodes);
        return;
      }
    }
    list := FullMesh(nodes, a);
  }

  /** Everyone else in the AS, without the reflectors outside the mesh. */
  method FullMesh(nodes: seq<Speaker>, a: Speaker) returns (list: seq<Speaker>)
    requires a.asn.Some? && (a.rr || !HasReflector(nodes, a.asn))
    ensures list == Select(nodes, a, nodes)
  {
    list := [];
    for i := 0 to |nodes|
      invariant list + Select(nodes, a, nodes[i..]) == Select(nodes, a, nodes)
    {
      var b := nodes[i];
      var found := if b.name != a.name && b.asn == a.asn && !(a.rr && !a.rrMesh && b.rr && !b.rrMesh) then [b] else [];
      assert nodes[i..][1..] == nodes[i + 1..];
      ConcatAssociative(list, found, Select(nodes, a, nodes[i + 1..]));
      list := list + found;
    }
  }

  /** build_ibgp_sessions: usable names the speakers that have an address for an
      iBGP session in an address family of the node. */
  method BuildIbgpSessions(nodes: seq<Speaker>, a: Speaker, usable: set<string>) returns (neighbors: seq<Neighbor>)
    requires a.asn.Some?
    ensures neighbors == AsNeighbors(a, Select(nodes, a, nodes), usable)
  {
    var list := IbgpNeighborList(nodes, a);
    neighbors := NeighborData(a, list, usable);
  }

  /** The neighbors that have a usable address, with their attributes. */
  method NeighborData(a: Speaker, list: seq<Speaker>, usable: set<string>) returns (neighbors: seq<Neighbor>)
    ensures neighbors == AsNeighbors(a, list, usable)
  {
    neighbors := [];
    for i := 0 to |list|
      invariant neighbors + AsNeighbors(a, list[i..], usable) == AsNeighbors(a, list, usable)
    {
      var data := if list[i].name in usable then [Neighbor(list[i].name, list[i].rr, a.rr && !list[i].rr)] else [];
      assert list[i..][1..] == list[i + 1..];
      ConcatAssociative(neighbors, data, AsNeighbors(a, list[i + 1..], usable));
      neighbors := neighbors + data;
    }
  }

  lemma {:induction false} SelectExact(nodes: seq<Speaker>, a: Speaker, candidates: seq<Speaker>)
    ensures forall b :: b in Select(nodes, a, candidates) <==> b in candidates && Selects(nodes, a, b)
    ensures UniqueNames(candidates) ==> UniqueNames(Select(nodes, a, candidates))
  {
    if candidates == [] {
    } else {
      SelectExact(nodes, a, candidates[1..]);
      if UniqueNames(candidates) {
        UniqueCons(candidates[0], candidates[1..], Select(nodes, a, candidates[1..]));
      }
    }
  }

  lemma UniqueCons(first: Speaker, all: seq<Speaker>, some: seq<Speaker>)
    requires UniqueNames([first] + all) && UniqueNames(some) && forall b | b in some :: b in all
    ensures UniqueNames(all) && UniqueNames([first] + some)
  {
    var list := [first] + all;
    assert forall i | 0 <= i < |all| :: list[i + 1] == all[i];
    forall b | b in all ensures b.name != first.name {
      var i :| 0 <= i < |all| && all[i] == b;
      assert list[0].name != list[i + 1].name;
    }
    assert forall i | 0 <= i < |some| :: some[i] in all;
  }

  /** One record for each selected speaker with a usable address: its rr mark says
      that the speaker is a reflector, its client mark that the node is one and the
      speaker is not. */
  lemma {:induction false} RecordsOfSelected(a: Speaker, selected: seq<Speaker>, usable: set<string>)
    requires UniqueNames(selected)
    ensures OncePerName(AsNeighbors(a, selected, usable))
    ensures forall r :: r in AsNeighbors(a, selected, usable) <==> HasSource(a, selected, usable, r)
  {
    if selected == [] {
    } else {
      var first, rest := selected[0], selected[1..];
      assert selected == [first] + rest;
      UniqueCons(first, rest, rest);
      RecordsOfSelected(a, rest, usable);
      var record, others := Neighbor(first.name, first.rr, a.rr && !first.rr), AsNeighbors(a, rest, usable);
      forall r | r in others ensures r.name != first.name {
        assert HasSource(a, rest, usable, r);
        var b :| b in rest && b.name in usable && IsRecordOf(a, b, r);
        var i :| 0 <= i < |rest| && rest[i] == b;
        assert selected[0].name != selected[i + 1].name;
      }
      forall r
        ensures r in AsNeighbors(a, selected, usable) <==> HasSource(a, selected, usable, r)
      {
        assert IsRecordOf(a, first, r) <==> r == record;
        assert r in others <==> HasSource(a, rest, usable, r);
        if b :| b in selected && b.name in usable && IsRecordOf(a, b, r) {
          assert b == first || b in rest;
        }
      }
      assert forall i | 0 <= i < |others| :: others[i] in others;
    }
  }

  predicate IsRecordOf(a: Speaker, b: Speaker, r: Neighbor) {
    r.name == b.name && (r.rr <==> b.rr) && (r.rrClient <==> a.rr && !b.rr)
  }

  /** The same for what build_ibgp_sessions returns. */
  lemma RecordsExact(nodes: seq<Speaker>, a: Speaker, usable: set<string>)
    requires UniqueNames(nodes)
    ensures OncePerName(AsNeighbors(a, Select(nodes, a, nodes), usable))
    ensures forall r :: r in AsNeighbors(a, Select(nodes, a, nodes), usable) <==>
              exists b :: b in nodes && Selects(nodes, a, b) && b.name in usable && IsRecordOf(a, b, r)
  {
    var selected := Select(nodes, a, nodes);
    SelectExact(nodes, a, nodes);
    RecordsOfSelected(a, selected, usable);
    forall r
      ensures r in AsNeighbors(a, selected, usable) <==>
              exists b :: b in nodes && Selects(nodes, a, b) && b.name in usable && IsRecordOf(a, b, r)
    {
      assert r in AsNeighbors(a, selected, usable) <==> HasSource(a, selected, usable, r);
    }
  }

  ghost predicate OncePerName(records: seq<Neighbor>) {
    forall i, j | 0 <= i < j < |records| :: records[i].name != records[j].name
  }

  /** The record is that of one of the speakers, with a usable address. */
  ghost predicate HasSource(a: Speaker, speakers: seq<Speaker>, usable: set<string>, r: Neighbor) {
    exists b :: b in speakers && b.name in usable && IsRecordOf(a, b, r)
  }

  /** Two speakers have a session exactly when they are different speakers of one
      AS and, if the AS has reflectors, one of them is a reflector; two reflectors
      also need one of them to want the mesh. */
  lemma SelectsExact(nodes: seq<Speaker>, a: Speaker, b: Speaker)
    requires UniqueNames(nodes) && a in nodes && b in nodes
    ensures Selects(nodes, a, b) <==>
            && a != b && a.asn.Some? && a.asn == b.asn
            && if a.rr && b.rr then a.rrMesh || b.rrMesh
               else a.rr || b.rr || forall n | n in nodes && n.asn == a.asn :: !n.rr
  {
  }

  ghost predicate UniqueNames(nodes: seq<Speaker>) {
    forall i, j | 0 <= i < j < |nodes| :: nodes[i].name != nodes[j].name
  }

  /** Sessions are configured on both ends or on neither, for every combination
      of reflectors and rr_mesh settings. */
  lemma SelectionSymmetric(nodes: seq<Speaker>, a: Speaker, b: Speaker)
    requires UniqueNames(nodes) && a in nodes && b in nodes
    ensures Selects(nodes, a, b) <==> Selects(nodes, b, a)
  {
  }

  /** Two reflectors of an AS peer exactly when one of them wants the mesh. */
  lemma ReflectorMesh(nodes: seq<Speaker>, a: Speaker, b: Speaker)
    requires a in nodes && b in nodes && a.name != b.name && SameAs(a, b) && a.rr && b.rr
    ensures Selects(nodes, a, b) <==> a.rrMesh || b.rrMesh
  {
  }

  // ----- reflection

  /** The neighbor records of a node when all addresses are usable. */
  function Records(nodes: seq<Speaker>, a: Speaker): seq<Neighbor> {
    AsNeighbors(a, Select(nodes, a, nodes), AllNames(nodes))
  }

  function AllNames(nodes: seq<Speaker>): set<string> {
    set n | n in nodes :: n.name
  }

  /** a has a session with b. */
  ghost predicate HasRecord(nodes: seq<Speaker>, a: Speaker, b: Speaker) {
    exists r :: r in Records(nodes, a) && r.name == b.name
  }

  /** b is marked as a client in the records of a. */
  ghost predicate IsClientOf(nodes: seq<Speaker>, a: Speaker, b: Speaker) {
    exists r :: r in Records(nodes, a) && r.name == b.name && r.rrClient
  }

  /** Speaker p[i] passes the route on from p[i-1] to p[i+1]: one of the two must
      be marked as its client. */
  ghost predicate PassesOn(nodes: seq<Speaker>, p: seq<Speaker>, i: nat)
    requires 0 < i < |p| - 1
  {
    IsClientOf(nodes, p[i], p[i - 1]) || IsClientOf(nodes, p[i], p[i + 1])
  }

  /** Only reflectors pass iBGP routes on, between speakers that are not both
      reflectors. */
  predicate Reflects(p: seq<Speaker>, i: nat)
    requires 0 < i < |p| - 1
  {
    p[i].rr && (!p[i - 1].rr || !p[i + 1].rr)
  }

  /** Speaker p[j] keeps the route: it is not the originator, and, if it is a
      reflector, its cluster ID is not on the cluster list collected so far. */
  ghost predicate Accepts(p: seq<Speaker>, j: nat)
    requires 0 < j < |p|
  {
    p[j] != p[0] && (p[j].rr ==> forall i | 0 < i < j :: p[i].cluster != p[j].cluster)
  }

  ghost predicate IsDelivery(nodes: seq<Speaker>, p: seq<Speaker>) {
    && p != []
    && (forall i | 0 <= i < |p| :: p[i] in nodes)
    && (forall i | 0 <= i < |p| - 1 :: HasRecord(nodes, p[i], p[i + 1]))
    && (forall i | 0 < i < |p| - 1 :: PassesOn(nodes, p, i))
    && (forall j | 0 < j < |p| :: Accepts(p, j))
  }

  lemma RecordExact(nodes: seq<Speaker>, a: Speaker, b: Speaker)
    requires UniqueNames(nodes) && a in nodes && b in nodes
    ensures HasRecord(nodes, a, b) <==> Selects(nodes, a, b)
    ensures IsClientOf(nodes, a, b) <==> Selects(nodes, a, b) && a.rr && !b.rr
  {
    RecordsExact(nodes, a, AllNames(nodes));
    var record := Neighbor(b.name, b.rr, a.rr && !b.rr);
    assert b.name in AllNames(nodes) && IsRecordOf(a, b, record);
    forall r | r in Records(nodes, a) && r.name == b.name ensures Selects(nodes, a, b) && IsRecordOf(a, b, r) {
      var c :| c in nodes && Selects(nodes, a, c) && c.name in AllNames(nodes) && IsRecordOf(a, c, r);
      assert c == b;
    }
  }

  /** Passing on by client marks is what the rules say about reflectors. */
  lemma PassesOnExact(nodes: seq<Speaker>, p: seq<Speaker>, i: nat)
    requires UniqueNames(nodes) && 0 < i < |p| - 1 && forall k | 0 <= k < |p| :: p[k] in nodes
    requires HasRecord(nodes, p[i - 1], p[i]) && HasRecord(nodes, p[i], p[i + 1])
    ensures PassesOn(nodes, p, i) <==> Reflects(p, i)
  {
    RecordExact(nodes, p[i - 1], p[i]);
    RecordExact(nodes, p[i], p[i - 1]);
    RecordExact(nodes, p[i], p[i + 1]);
    SelectionSymmetric(nodes, p[i - 1], p[i]);
  }

  /** A delivery in terms of the selection. */
  ghost predicate IsRoute(nodes: seq<Speaker>, p: seq<Speaker>) {
    && p != []
    && (forall i | 0 <= i < |p| :: p[i] in nodes)
    && (forall i | 0 <= i < |p| - 1 :: Selects(nodes, p[i], p[i + 1]))
    && (forall i | 0 < i < |p| - 1 :: Reflects(p, i))
    && (forall j | 0 < j < |p| :: Accepts(p, j))
  }

  lemma DeliveryExact(nodes: seq<Speaker>, p: seq<Speaker>)
    requires UniqueNames(nodes)
    ensures IsDelivery(nodes, p) <==> IsRoute(nodes, p)
  {
    if forall i | 0 <= i < |p| :: p[i] in nodes {
      forall i | 0 <= i < |p| - 1 ensures HasRecord(nodes, p[i], p[i + 1]) <==> Selects(nodes, p[i], p[i + 1]) {
        RecordExact(nodes, p[i], p[i + 1]);
      }
      if forall i | 0 <= i < |p| - 1 :: HasRecord(nodes, p[i], p[i + 1]) {
        forall i | 0 < i < |p| - 1 ensures PassesOn(nodes, p, i) <==> Reflects(p, i) {
          assert p[i - 1 + 1] == p[i];
          PassesOnExact(nodes, p, i);
        }
      }
    }
  }

  /** A route that s brings into the AS arrives at t. */
  ghost predicate Receives(nodes: seq<Speaker>, s: Speaker, t: Speaker) {
    exists p :: IsDelivery(nodes, p) && p[0] == s && p[|p| - 1] == t
  }

  lemma DirectDelivery(nodes: seq<Speaker>, s: Speaker, t: Speaker)
    requires UniqueNames(nodes) && s in nodes && t in nodes && s != t && Selects(nodes, s, t)
    ensures Receives(nodes, s, t)
  {
    var p := [s, t];
    assert IsRoute(nodes, p);
    DeliveryExact(nodes, p);
  }

  lemma OwnRoute(nodes: seq<Speaker>, s: Speaker)
    requires UniqueNames(nodes) && s in nodes
    ensures Receives(nodes, s, s)
  {
    assert IsRoute(nodes, [s]);
    DeliveryExact(nodes, [s]);
  }

  /** A route from a speaker that is not a reflector reaches the whole AS,
      whatever the cluster IDs are. */
  lemma ClientRoutesReachAll(nodes: seq<Speaker>, s: Speaker, t: Speaker)
    requires UniqueNames(nodes) && s in nodes && t in nodes && SameAs(s, t) && !s.rr
    ensures Receives(nodes, s, t)
  {
    if s == t {
      OwnRoute(nodes, s);
    } else if t.rr || !HasReflector(nodes, s.asn) {
      DirectDelivery(nodes, s, t);
    } else {
      var i :| 0 <= i < |nodes| && nodes[i].asn.Some? && nodes[i].asn == s.asn && nodes[i].rr;
      var p := [s, nodes[i], t];
      assert Reflects(p, 1);
      assert IsRoute(nodes, p);
      DeliveryExact(nodes, p);
    }
  }

  lemma ReflectorDeliveryIsShort(nodes: seq<Speaker>, p: seq<Speaker>)
    requires UniqueNames(nodes) && IsDelivery(nodes, p) && |p| > 2 && p[0].rr
    ensures |p| == 3 && !p[2].rr
  {
    DeliveryExact(nodes, p);
    assert Reflects(p, 1);
    forall i | 0 < i < |p| - 1 ensures p[i].rr {
      assert Reflects(p, i);
    }
  }

  /** A route from a reflector reaches another reflector only over a session of
      their own: reflectors do not pass routes from one non-client to another. */
  lemma ReflectorRoutesNeedSession(nodes: seq<Speaker>, s: Speaker, t: Speaker)
    requires UniqueNames(nodes) && s in nodes && t in nodes && SameAs(s, t) && s.rr
    ensures Receives(nodes, s, t) <==> s == t || !t.rr || Selects(nodes, s, t)
  {
    if s == t {
      OwnRoute(nodes, s);
    } else if Selects(nodes, s, t) {
      DirectDelivery(nodes, s, t);
    } else if Receives(nodes, s, t) {
      var p :| IsDelivery(nodes, p) && p[0] == s && p[|p| - 1] == t;
      DeliveryExact(nodes, p);
      assert |p| > 2;
      ReflectorDeliveryIsShort(nodes, p);
    }
  }

  /** Every route reaches every speaker of the AS exactly when at most one of its
      reflectors opts out of the mesh. */
  lemma FullVisibility(nodes: seq<Speaker>, asn: int)
    requires UniqueNames(nodes)
    ensures (forall s, t | s in nodes && t in nodes && s.asn == Some(asn) && t.asn == Some(asn) :: Receives(nodes, s, t))
            <==> (forall a, b | a in nodes && b in nodes && a.asn == Some(asn) && b.asn == Some(asn) && a.name != b.name && a.rr && b.rr ::
                    a.rrMesh || b.rrMesh)
  {
    if forall a, b | a in nodes && b in nodes && a.asn == Some(asn) && b.asn == Some(asn) && a.name != b.name && a.rr && b.rr :: a.rrMesh || b.rrMesh {
      forall s, t | s in nodes && t in nodes && s.asn == Some(asn) && t.asn == Some(asn) ensures Receives(nodes, s, t) {
        if s.rr {
          ReflectorRoutesNeedSession(nodes, s, t);
        } else {
          ClientRoutesReachAll(nodes, s, t);
        }
      }
    } else {
      var a, b :| a in nodes && b in nodes && a.asn == Some(asn) && b.asn == Some(asn) && a.name != b.name && a.rr && b.rr && !(a.rrMesh || b.rrMesh);
      ReflectorRoutesNeedSession(nodes, a, b);
    }
  }

  // ----- cluster IDs

  /** Router IDs of the reflectors of an AS without a cluster ID. */
  function Candidates(nodes: seq<Speaker>, asn: Option<int>): set<string> {
    set i | 0 <= i < |nodes| && nodes[i].asn == asn && nodes[i].rr && nodes[i].cluster.None? :: nodes[i].routerId
  }

  /** A reflector without a cluster ID shares the least of those router IDs;
      they are strings, so the least is the first in dictionary order. */
  function Clustered(nodes: seq<Speaker>, n: Speaker): Speaker
    requires n in nodes
  {
    if n.asn.Some? && n.rr && n.cluster.None? then
      assert n.routerId in Candidates(nodes, n.asn);
      n.(cluster := Some(Least(Candidates(nodes, n.asn))))
    else n
  }

  lemma SameCandidates(a: seq<Speaker>, b: seq<Speaker>, asn: Option<int>)
    requires |a| == |b| && forall i | 0 <= i < |a| && (a[i].asn == asn || b[i].asn == asn) :: a[i] == b[i]
    ensures Candidates(a, asn) == Candidates(b, asn)
  {
  }

  lemma NothingToCluster(nodes: seq<Speaker>, asn: Option<int>)
    requires Candidates(nodes, asn) == {}
    ensures forall n | n in nodes && n.asn == asn :: Clustered(nodes, n) == n
  {
    forall n | n in nodes && n.asn == asn && n.rr && n.cluster.None? ensures n.routerId in Candidates(nodes, asn) {
    }
  }

  /** One AS: its reflectors without a cluster ID. */
  method ClusterReflectors(nodes: array<Speaker>, asn: Option<int>)
    requires asn.Some?
    modifies nodes
    ensures forall i | 0 <= i < nodes.Length ::
              nodes[i] == if old(nodes[i]).asn == asn then Clustered(old(nodes[..]), old(nodes[i])) else old(nodes[i])
  {
    ghost var before := nodes[..];
    var candidates := Candidates(nodes[..], asn);
    if candidates == {} {
      NothingToCluster(before, asn);
      return;
    }
    var least := Least(candidates);
    for i := 0 to nodes.Length
      invariant forall k | 0 <= k < nodes.Length ::
                  nodes[k] == if before[k].asn == asn && k < i then Clustered(before, before[k]) else before[k]
    {
      if nodes[i].asn == asn && nodes[i].rr && nodes[i].cluster.None? {
        nodes[i] := nodes[i].(cluster := Some(least));
      }
    }
  }

  /** A reflector with a cluster ID of its own keeps it, and its router ID has no
      influence on the others. */
  lemma OwnClusterIgnored(nodes: seq<Speaker>, i: nat, id: string, n: Speaker)
    requires i < |nodes| && nodes[i].cluster.Some?
    ensures Clustered(nodes, nodes[i]) == nodes[i]
    ensures forall asn :: Candidates(nodes[i := nodes[i].(routerId := id)], asn) == Candidates(nodes, asn)
    ensures n in nodes && n != nodes[i] ==>
              n in nodes[i := nodes[i].(routerId := id)]
              && Clustered(nodes[i := nodes[i].(routerId := id)], n) == Clustered(nodes, n)
  {
    var changed := nodes[i := nodes[i].(routerId := id)];
    forall asn ensures Candidates(changed, asn) == Candidates(nodes, asn) {
      assert forall k | 0 <= k < |nodes| && k != i :: changed[k] == nodes[k];
    }
    if n in nodes && n != nodes[i] {
      var k :| 0 <= k < |nodes| && nodes[k] == n;
      assert changed[k] == n;
    }
  }

  /** build_bgp_rr_clusters */
  method BuildBgpRrClusters(nodes: array<Speaker>)
    modifies nodes
    ensures forall i | 0 <= i < nodes.Length :: nodes[i] == Clustered(old(nodes[..]), old(nodes[i]))
  {
    ghost var before := nodes[..];
    var asns := set i | 0 <= i < nodes.Length && nodes[i].asn.Some? :: nodes[i].asn;
    while asns != {}
      invariant None !in asns
      invariant forall i | 0 <= i < nodes.Length ::
                  nodes[i] == if before[i].asn.Some? && before[i].asn !in asns then Clustered(before, before[i]) else before[i]
    {
      var asn :| asn in asns;
      SameCandidates(nodes[..], before, asn);
      ClusterReflectors(nodes, asn);
      asns := asns - {asn};
    }
  }

  /** When the router IDs are those of ids, the shared cluster ID is the lowest of
      them exactly when the lowest keeps its place in string order. */
  lemma ClusterIsLowest(nodes: seq<Speaker>, n: Speaker, ids: set<RouterId>, low: RouterId)
    requires n in nodes && n.asn.Some? && n.rr && n.cluster.None?
    requires IsLowest(ids, low) && Candidates(nodes, n.asn) == DottedSet(ids)
    ensures Clustered(nodes, n).cluster == Some(Dotted(low)) <==> forall o | o in ids && o != low :: KeepsOrder(low, o)
  {
    assert n.routerId in Candidates(nodes, n.asn);
    LeastIsLowest(ids, low);
  }

  /** Two reflectors with router IDs 10.0.0.9 and 10.0.0.10 share the higher one. */
  lemma LowestRouterIdPassedOver()
    ensures var a := Speaker("a", Some(65000), true, true, "10.0.0.9", None);
            var b := Speaker("b", Some(65000), true, true, "10.0.0.10", None);
            && Dotted([10, 0, 0, 9]) == a.routerId && Dotted([10, 0, 0, 10]) == b.routerId
            && Clustered([a, b], a).cluster == Clustered([a, b], b).cluster == Some("10.0.0.10")
  {
    var a := Speaker("a", Some(65000), true, true, "10.0.0.9", None);
    var b := Speaker("b", Some(65000), true, true, "10.0.0.10", None);
    ExampleDotted();
    ExampleOrder();
    TwoReflectors(a, b);
  }

  lemma TwoReflectors(a: Speaker, b: Speaker)
    requires a.asn.Some? && a.asn == b.asn && a.rr && b.rr && a.cluster.None? && b.cluster.None?
    requires Less(b.routerId, a.routerId) && !Less(a.routerId, b.routerId)
    ensures Clustered([a, b], a).cluster == Clustered([a, b], b).cluster == Some(b.routerId)
  {
    assert [a, b][0] == a && [a, b][1] == b;
    assert a.routerId in Candidates([a, b], a.asn) && b.routerId in Candidates([a, b], a.asn);
    assert Candidates([a, b], a.asn) == {a.routerId, b.routerId};
  }

  lemma ExampleOrder()
    ensures Less("10.0.0.10", "10.0.0.9") && !Less("10.0.0.9", "10.0.0.10")
  {
    LessCommonPrefix("10.0.0.", "10", "9");
    LessCommonPrefix("10.0.0.", "9", "10");
    assert "10.0.0." + "10" == "10.0.0.10" && "10.0.0." + "9" == "10.0.0.9";
  }

  lemma ExampleDotted()
    ensures Dotted([10, 0, 0, 9]) == "10.0.0.9" && Dotted([10, 0, 0, 10]) == "10.0.0.10"
    ensures Lower([10, 0, 0, 9], [10, 0, 0, 10])
  {
    assert [10, 0, 0, 9][1..] == [0, 0, 9] && [10, 0, 0, 10][1..] == [0, 0, 10];
    assert [0, 0, 9][1..] == [0, 9] && [0, 0, 10][1..] == [0, 10];
    assert [0, 9][1..] == [9] && [0, 10][1..] == [10];
    assert Dotted([9]) == "9" && Dotted([10]) == "10";
    assert Dotted([0, 9]) == "0.9" && Dotted([0, 10]) == "0.10";
    assert Dotted([0, 0, 9]) == "0.0.9" && Dotted([0, 0, 10]) == "0.0.10";
    assert Lower([0, 9], [0, 10]) && Lower([0, 0, 9], [0, 0, 10]);
  }
}
