/** The address plan as a whole: gateway IDs are reserved, nodes are numbered,
    every link draws a prefix from one pool, and its interfaces are numbered.
    No two interfaces, and no interface and gateway, share an address. */
module AddressPlan {
  import opened AddressPools
  import opened Arithmetic
  import opened Ipam
  import opened NodeIds
  import opened Options
  import opened Sequences

  predicate InBlock(ip: int, p: Prefix) {
    p.base <= ip < p.base + p.size
  }

  predicate Differ(a: AfValue, b: AfValue) {
    a.Address? && b.Address? && a.ip != b.ip
  }

  ghost predicate AllDiffer(addr: seq<AfValue>) {
    forall i, j | 0 <= i < j < |addr| :: Differ(addr[i], addr[j])
  }

  /** All addresses lie in the prefix and differ from the gateway address. */
  ghost predicate Planned(addr: seq<AfValue>, gateway: Option<int>, p: Prefix) {
    && (forall i | 0 <= i < |addr| :: addr[i].Address? && InBlock(addr[i].ip, p))
    && (gateway.Some? ==>
          && InBlock(gateway.value, p)
          && forall i | 0 <= i < |addr| :: addr[i].ip != gateway.value)
  }

  function Block(base: int, blockSize: nat, b: nat): Prefix {
    Prefix(base + b * blockSize, blockSize)
  }

  /** A node is attached to the link once, unless the addresses are not made of
      node IDs. */
  ghost predicate AttachesOnce(link: Link, ndict: map<string, int>, p: Prefix) {
    && link.nodes != [] && (forall n | n in link.nodes :: n in ndict)
    && (PolicyFor(link.isP2p, link.gatewayId, Net(p), NodeIdsOf(link.nodes, ndict)) == IdBased ==> Distinct(link.nodes))
  }

  /** checked: duplicate addresses have been looked for. */
  ghost predicate PlannedIn(link: Link, ndict: map<string, int>, p: Prefix, checked: bool)
    reads link
  {
    && link.prefix == Some(Net(p))
    && Planned(link.addr, link.gatewayAddr, p)
    && (AllDiffer(link.addr) <==> AttachesOnce(link, ndict, p))
    && (checked ==> AllDiffer(link.addr))
  }

  ghost predicate PlannedLink(link: Link, ndict: map<string, int>, base: int, blockSize: nat, first: nat, k: nat, checked: bool)
    reads link
  {
    PlannedIn(link, ndict, Block(base, blockSize, first + k), checked)
  }

  ghost predicate OneIdEach(ndict: map<string, int>) {
    forall m, n | m in ndict && n in ndict && m != n :: ndict[m] != ndict[n]
  }

  lemma RepeatedIds(nodes: seq<string>, ndict: map<string, int>)
    requires OneIdEach(ndict) && forall n | n in nodes :: n in ndict
    ensures Distinct(NodeIdsOf(nodes, ndict)) <==> Distinct(nodes)
  {
    var ids := NodeIdsOf(nodes, ndict);
    assert forall i | 0 <= i < |nodes| :: nodes[i] in ndict && ids[i] == ndict[nodes[i]];
  }

  /** A link as it enters the transformation, without static addresses. */
  ghost predicate Blank(link: Link)
    reads link
  {
    link.Valid() && link.gatewayAddr == None && forall i | 0 <= i < |link.addr| :: link.addr[i] == Unset
  }

  /** The nodes of a link are known, and their IDs cannot produce the address of
      its gateway. */
  ghost predicate Attached(link: Link, ndict: map<string, int>) {
    && (forall n | n in link.nodes :: n in ndict)
    && WellFormed(link.isP2p, link.nodes, NodeIdsOf(link.nodes, ndict))
    && (link.gatewayId.GetOr(0) > 0 ==> link.gatewayId.value !in NodeIdsOf(link.nodes, ndict))
  }

  lemma NumberedIsPlanned(p: Prefix, gatewayId: Option<int>, gateway: Option<int>, idx: seq<int>, addr: seq<AfValue>)
    requires |addr| == |idx|
    requires forall i | 0 <= i < |idx| :: 1 <= idx[i] <= p.size - 2
    requires forall i | 0 <= i < |idx| :: addr[i] == SetAddress(Unset, p, idx[i]).0
    requires gateway == if gatewayId.GetOr(0) == 0 then None else NthIp(p, gatewayId.value)
    requires gatewayId.GetOr(0) != 0 ==> GatewayIndex(p.size, gatewayId.value) !in idx
    ensures Planned(addr, gateway, p)
    ensures AllDiffer(addr) <==> Distinct(idx)
  {
    assert forall i | 0 <= i < |idx| :: idx[i] in idx && addr[i] == Address(p.base + idx[i], p.size);
  }

  /** What a link without errors looks like: addresses of the chosen policy, and
      the gateway at its index. */
  ghost predicate Carried(isP2p: bool, gatewayId: Option<int>, gateway: Option<int>, p: Prefix, nodes: seq<string>, ids: seq<int>, addr: seq<AfValue>)
    requires ids != []
  {
    var policy := PolicyFor(isP2p, gatewayId, Net(p), ids);
    && policy != Error && |addr| == |nodes| == |ids|
    && (policy == Loopback ==> forall i | 0 <= i < |addr| :: addr[i] == Address(p.base, 1))
    && (policy in {P2p, Sequential, IdBased} ==>
          var idx := HostIndexes(policy, p.size, gatewayId, nodes, ids);
          |idx| == |addr| && forall i | 0 <= i < |idx| :: addr[i] == SetAddress(Unset, p, idx[i]).0)
    && GatewayFits(gatewayId, p.size)
    && gateway == (if gatewayId.GetOr(0) == 0 then None else NthIp(p, gatewayId.value))
  }

  lemma CarriedIsPlanned(isP2p: bool, gatewayId: Option<int>, gateway: Option<int>, p: Prefix, nodes: seq<string>, ndict: map<string, int>, addr: seq<AfValue>)
    requires OneIdEach(ndict) && forall n | n in nodes :: n in ndict
    requires IsPowerOfTwo(p.size) && p.size > 2
    requires WellFormed(isP2p, nodes, NodeIdsOf(nodes, ndict))
    requires gatewayId.GetOr(0) > 0 ==> gatewayId.value !in NodeIdsOf(nodes, ndict)
    requires Carried(isP2p, gatewayId, gateway, p, nodes, NodeIdsOf(nodes, ndict), addr)
    ensures Planned(addr, gateway, p)
    ensures NoDuplicate(GatewayText(gatewayId, p), addr) <==> AllDiffer(addr)
    ensures AllDiffer(addr) <==> (PolicyFor(isP2p, gatewayId, Net(p), NodeIdsOf(nodes, ndict)) == IdBased ==> Distinct(nodes))
  {
    var ids := NodeIdsOf(nodes, ndict);
    var policy := PolicyFor(isP2p, gatewayId, Net(p), ids);
    if policy == Loopback {
      LoopbackOnLargePrefix(isP2p, gatewayId, p, ids);
    } else {
      var idx := HostIndexes(policy, p.size, gatewayId, nodes, ids);
      HostIndexesSound(isP2p, gatewayId, p, nodes, ids);
      RepeatedIds(nodes, ndict);
      NumberedIsPlanned(p, gatewayId, gateway, idx, addr);
      DuplicateCheckExact(p, gatewayId, idx, addr);
    }
  }

  lemma CarriedLinkIsPlanned(link: Link, ndict: map<string, int>, p: Prefix)
    requires OneIdEach(ndict) && Attached(link, ndict)
    requires IsPowerOfTwo(p.size) && p.size > 2
    requires link.prefix == Some(Net(p))
    requires Carried(link.isP2p, link.gatewayId, link.gatewayAddr, p, link.nodes, NodeIdsOf(link.nodes, ndict), link.addr)
    ensures NoDuplicate(GatewayText(link.gatewayId, p), link.addr) <==> AttachesOnce(link, ndict, p)
    ensures PlannedIn(link, ndict, p, false)
  {
    CarriedIsPlanned(link.isP2p, link.gatewayId, link.gatewayAddr, p, link.nodes, ndict, link.addr);
  }

  /** The link can be addressed from the prefix: some policy fits, and the gateway
      has an address in it. */
  predicate LinkFits(link: Link, ndict: map<string, int>, p: Prefix) {
    && link.nodes != [] && (forall n | n in link.nodes :: n in ndict)
    && PolicyFor(link.isP2p, link.gatewayId, Net(p), NodeIdsOf(link.nodes, ndict)) != Error
    && GatewayFits(link.gatewayId, p.size)
  }

  /** Interface addresses of a link that has its prefix. */
  method NumberLink(link: Link, ndict: map<string, int>, loopbacks: map<string, bool>, p: Prefix) returns (ok: bool)
    requires link.Valid() && (forall n | n in link.nodes :: n in ndict)
    requires WellFormed(link.isP2p, link.nodes, NodeIdsOf(link.nodes, ndict))
    requires link.prefix == Some(Net(p)) && forall i | 0 <= i < |link.addr| :: link.addr[i] == Unset
    requires IsPowerOfTwo(p.size) && p.size > 2
    modifies link`addr, link`prefix
    ensures link.prefix == old(link.prefix)
    ensures ok && GatewayFits(link.gatewayId, p.size) ==>
              Carried(link.isP2p, link.gatewayId, if link.gatewayId.GetOr(0) == 0 then None else NthIp(p, link.gatewayId.value), p, link.nodes, NodeIdsOf(link.nodes, ndict), link.addr)
    ensures ProperBlock(link.af, p) ==>
              (ok <==> PolicyFor(link.isP2p, link.gatewayId, Net(p), NodeIdsOf(link.nodes, ndict)) != Error)
  {
    ghost var ids, before := NodeIdsOf(link.nodes, ndict), link.addr;
    var policy;
    ok, policy := link.AssignInterfaceAddresses(None, ndict, loopbacks);
    if policy in {P2p, Sequential, IdBased} {
      HostIndexesSound(link.isP2p, link.gatewayId, p, link.nodes, ids);
      if ProperBlock(link.af, p) {
        NumberingSucceeds(link.af, p, HostIndexes(policy, p.size, link.gatewayId, link.nodes, ids), before, link.addr);
      }
    }
  }

  /** Gateway and interface addresses of a link that has its prefix, and the search
      for duplicates unless its warning is off. */
  method PlaceLink(link: Link, ndict: map<string, int>, loopbacks: map<string, bool>, checked: bool, p: Prefix) returns (ok: bool)
    requires OneIdEach(ndict) && Attached(link, ndict) && Blank(link) && link.prefix == Some(Net(p))
    requires IsPowerOfTwo(p.size) && p.size > 2
    modifies link
    ensures ok ==> PlannedIn(link, ndict, p, checked)
    ensures ProperBlock(link.af, p) ==> (ok <==> LinkFits(link, ndict, p) && (checked ==> AttachesOnce(link, ndict, p)))
  {
    var gatewayOk := link.SetFhrpGateway(p);
    var numbered := NumberLink(link, ndict, loopbacks, p);
    ok := gatewayOk && numbered;
    if ok {
      CarriedLinkIsPlanned(link, ndict, p);
    }
    if checked {
      var gateway := match link.gatewayAddr
                     case Some(ip) => Some(Address(ip, p.size))
                     case None => None;
      var unique := CheckDuplicateAddress(gateway, link.addr);
      ok := ok && unique;
    }
  }

  /** Prefix, gateway and interface addresses of one link: it works exactly when
      the pool has a subnet left, the link fits into it, and no duplicate address
      is reported. */
  method TransformLink(link: Link, pool: SubnetPool, ndict: map<string, int>, loopbacks: map<string, bool>, checked: bool, ghost first: nat, ghost k: nat)
    returns (ok: bool)
    requires pool.pos <= pool.count && IsPowerOfTwo(pool.blockSize) && pool.blockSize > 2
    requires OneIdEach(ndict) && Attached(link, ndict) && Blank(link) && link.af == pool.af
    modifies link, pool`pos, pool`cache
    ensures pool.pos == if old(pool.pos) < pool.count then old(pool.pos) + 1 else old(pool.pos)
    ensures ok ==> old(pool.pos) < pool.count
    ensures ok && old(pool.pos) == first + k ==> PlannedLink(link, ndict, pool.base, pool.blockSize, first, k, checked)
    ensures ProperPool(pool.af, pool.base, pool.blockSize, pool.count) && old(pool.pos) == first + k ==>
              (ok <==> FitsInto(link, ndict, pool.base, pool.blockSize, pool.count, first, k, checked))
  {
    var subnet := pool.GetPrefix(0);
    if subnet.None? {
      return false;
    }
    var p := Prefix(pool.AddressOf(subnet.value), pool.blockSize);
    assert p == Block(pool.base, pool.blockSize, subnet.value);
    link.prefix := Some(Net(p));
    if ProperPool(pool.af, pool.base, pool.blockSize, pool.count) {
      SubnetIsProper(pool.af, pool.base, pool.blockSize, pool.count, subnet.value);
    }
    ok := PlaceLink(link, ndict, loopbacks, checked, p);
  }

  /** The pool has a subnet for link k, the link can be addressed from it, and a
      search for duplicate addresses finds none. */
  ghost predicate FitsInto(link: Link, ndict: map<string, int>, base: int, blockSize: nat, count: nat, first: nat, k: nat, checked: bool) {
    && first + k < count && LinkFits(link, ndict, Block(base, blockSize, first + k))
    && (checked ==> AttachesOnce(link, ndict, Block(base, blockSize, first + k)))
  }

  /** The pool starts at a multiple of the subnet size, as a network does, and lies
      outside the multicast range. */
  ghost predicate ProperPool(af: AddressFamily, base: int, blockSize: nat, count: nat) {
    && blockSize > 0 && base % blockSize == 0
    && forall ip | base <= ip < base + count * blockSize :: !IsMulticast(af, ip)
  }

  lemma SubnetIsProper(af: AddressFamily, base: int, blockSize: nat, count: nat, b: nat)
    requires ProperPool(af, base, blockSize, count) && b < count
    ensures ProperBlock(af, Block(base, blockSize, b))
  {
    MulSuccessor(b, count, blockSize);
    var q := base / blockSize;
    assert base + b * blockSize == blockSize * (q + b);
    DivModUnique(blockSize, q + b, 0, base + b * blockSize);
  }

  ghost predicate AllPlanned(links: seq<Link>, k: nat, ndict: map<string, int>, base: int, blockSize: nat, first: nat, checked: bool)
    requires k <= |links|
    reads links
  {
    forall l {:trigger PlannedLink(links[l], ndict, base, blockSize, first, l, checked)} | 0 <= l < k ::
      PlannedLink(links[l], ndict, base, blockSize, first, l, checked)
  }

  /** There is a subnet for each of the first k links, and the link fits into it. */
  ghost predicate AllFit(links: seq<Link>, k: nat, ndict: map<string, int>, base: int, blockSize: nat, count: nat, first: nat, checked: bool)
    requires k <= |links|
  {
    forall l {:trigger FitsInto(links[l], ndict, base, blockSize, count, first, l, checked)} | 0 <= l < k ::
      FitsInto(links[l], ndict, base, blockSize, count, first, l, checked)
  }

  /** links.transform: every link takes the next prefix of the pool, and there is
      no error exactly when every link fits into its own. */
  method TransformLinks(links: seq<Link>, pool: SubnetPool, ndict: map<string, int>, loopbacks: map<string, bool>, checked: bool)
    returns (ok: bool)
    requires pool.pos <= pool.count && IsPowerOfTwo(pool.blockSize) && pool.blockSize > 2
    requires Distinct(links) && OneIdEach(ndict)
    requires forall k {:trigger Attached(links[k], ndict)} | 0 <= k < |links| :: Attached(links[k], ndict)
    requires forall k {:trigger Blank(links[k])} | 0 <= k < |links| :: Blank(links[k]) && links[k].af == pool.af
    modifies links, pool`pos, pool`cache
    ensures ok ==> GatewaysAvoided(links)
    ensures ok && checked ==> AddressesDistinct(links)
    ensures ok ==> (AddressesDistinct(links) <==> AllAttachOnce(links, ndict, pool.base, pool.blockSize, old(pool.pos)))
    ensures ProperPool(pool.af, pool.base, pool.blockSize, pool.count) ==>
              (ok <==> AllFit(links, |links|, ndict, pool.base, pool.blockSize, pool.count, old(pool.pos), checked))
  {
    ghost var first, base, size, count := pool.pos, pool.base, pool.blockSize, pool.count;
    ghost var proper := ProperPool(pool.af, base, size, count);
    ok := true;
    for k := 0 to |links|
      invariant forall l {:trigger Blank(links[l])} | k <= l < |links| :: Blank(links[l])
      invariant pool.pos == if first + k <= count then first + k else count
      invariant ok ==> pool.pos == first + k && AllPlanned(links, k, ndict, base, size, first, checked)
      invariant proper ==> (ok <==> AllFit(links, k, ndict, base, size, count, first, checked))
    {
      assert Blank(links[k]);
      label before:
      var done := TransformLink(links[k], pool, ndict, loopbacks, checked, first, k);
      forall l | 0 <= l < |links| && l != k ensures unchanged@before(links[l]) {
      }
      ok := ok && done;
    }
    if ok {
      PlanHasNoDuplicates(links, ndict, base, size, first, checked);
    }
  }

  /** No two interfaces of the links share an address. */
  ghost predicate AddressesDistinct(links: seq<Link>)
    reads links
  {
    forall k, i, l, j | 0 <= k < |links| && 0 <= i < |links[k].addr| && 0 <= l < |links| && 0 <= j < |links[l].addr| ::
      (k, i) != (l, j) ==> Differ(links[k].addr[i], links[l].addr[j])
  }

  /** No interface has a gateway address of any of the links. */
  ghost predicate GatewaysAvoided(links: seq<Link>)
    reads links
  {
    forall k, i, l | 0 <= k < |links| && 0 <= i < |links[k].addr| && 0 <= l < |links| && links[l].gatewayAddr.Some? ::
      links[k].addr[i].Address? && links[k].addr[i].ip != links[l].gatewayAddr.value
  }

  lemma BlocksDisjoint(base: int, blockSize: nat, b: nat, c: nat, x: int)
    requires b != c
    ensures !(InBlock(x, Block(base, blockSize, b)) && InBlock(x, Block(base, blockSize, c)))
  {
    if InBlock(x, Block(base, blockSize, b)) && InBlock(x, Block(base, blockSize, c)) {
      SubnetsDisjoint(base, blockSize, b, c, x);
    }
  }

  lemma PlanAvoidsGateways(links: seq<Link>, ndict: map<string, int>, base: int, blockSize: nat, first: nat, checked: bool)
    requires AllPlanned(links, |links|, ndict, base, blockSize, first, checked)
    ensures GatewaysAvoided(links)
  {
    forall k, i, l | 0 <= k < |links| && 0 <= i < |links[k].addr| && 0 <= l < |links| && links[l].gatewayAddr.Some?
      ensures links[k].addr[i].Address? && links[k].addr[i].ip != links[l].gatewayAddr.value
    {
      assert PlannedLink(links[k], ndict, base, blockSize, first, k, checked) && PlannedLink(links[l], ndict, base, blockSize, first, l, checked);
      if k != l {
        BlocksDisjoint(base, blockSize, first + k, first + l, links[k].addr[i].ip);
      }
    }
  }

  ghost predicate AllAttachOnce(links: seq<Link>, ndict: map<string, int>, base: int, blockSize: nat, first: nat) {
    forall k | 0 <= k < |links| :: AttachesOnce(links[k], ndict, Block(base, blockSize, first + k))
  }

  /** The main theorem about a finished plan: no interface shares an address with
      a gateway or with another interface.  Without the search for duplicates,
      the latter holds unless a node is attached twice to a link that is numbered
      by node ID. */
  lemma PlanHasNoDuplicates(links: seq<Link>, ndict: map<string, int>, base: int, blockSize: nat, first: nat, checked: bool)
    requires AllPlanned(links, |links|, ndict, base, blockSize, first, checked)
    ensures GatewaysAvoided(links)
    ensures AddressesDistinct(links) <==> AllAttachOnce(links, ndict, base, blockSize, first)
    ensures checked ==> AddressesDistinct(links)
  {
    PlanAvoidsGateways(links, ndict, base, blockSize, first, checked);
    forall k | 0 <= k < |links| ensures PlannedLink(links[k], ndict, base, blockSize, first, k, checked) {
    }
    if AddressesDistinct(links) {
      forall k | 0 <= k < |links| ensures AllDiffer(links[k].addr) {
        forall i, j | 0 <= i < j < |links[k].addr| ensures Differ(links[k].addr[i], links[k].addr[j]) {
        }
      }
    }
    if AllAttachOnce(links, ndict, base, blockSize, first) {
      forall k, i, l, j | 0 <= k < |links| && 0 <= i < |links[k].addr| && 0 <= l < |links| && 0 <= j < |links[l].addr| && (k, i) != (l, j)
        ensures Differ(links[k].addr[i], links[l].addr[j])
      {
        assert AllDiffer(links[k].addr);
        if k != l {
          BlocksDisjoint(base, blockSize, first + k, first + l, links[k].addr[i].ip);
        } else if j < i {
          assert Differ(links[k].addr[j], links[k].addr[i]);
        }
      }
    }
  }

  /** A link as the user wrote it: the nodes it attaches exist, and its gateway ID
      is one the gateway module saw. */
  ghost predicate Written(link: Link, gatewayIds: seq<Option<int>>, names: seq<string>)
  {
    && link.nodes != [] && (forall n | n in link.nodes :: n in names)
    && (link.isP2p ==> |link.nodes| == 2)
    && (link.gatewayId == None || link.gatewayId in gatewayIds)
  }

  ghost predicate IsNodeTable(names: seq<string>, ids: seq<Option<int>>, ndict: map<string, int>) {
    && |names| == |ids| && ndict.Keys == Elements(names)
    && forall j | 0 <= j < |ids| :: ids[j].Some? && names[j] in ndict && ndict[names[j]] == ids[j].value
  }

  method NodeTable(names: seq<string>, ids: array<Option<int>>) returns (ndict: map<string, int>)
    requires Distinct(names) && |names| == ids.Length
    requires forall i | 0 <= i < ids.Length :: ids[i].Some?
    ensures IsNodeTable(names, ids[..], ndict)
  {
    ndict := map[];
    for i := 0 to |names|
      invariant ndict.Keys == Elements(names[..i])
      invariant forall j | 0 <= j < i :: names[j] in ndict && ndict[names[j]] == ids[j].value
    {
      NextElement(names, i);
      ndict := ndict[names[i] := ids[i].value];
    }
    assert names[..|names|] == names;
  }

  lemma WrittenIsAttached(link: Link, gatewayIds: seq<Option<int>>, names: seq<string>, ids: seq<Option<int>>, ndict: map<string, int>)
    requires Written(link, gatewayIds, names)
    requires IsNodeTable(names, ids, ndict) && SafeIds(gatewayIds, ids)
    ensures Attached(link, ndict)
  {
    forall i | 0 <= i < |link.nodes| ensures exists j :: 0 <= j < |names| && names[j] == link.nodes[i] {
      assert link.nodes[i] in names;
    }
  }

  lemma IdsFromTable(names: seq<string>, ids: seq<Option<int>>, ndict: map<string, int>)
    requires IsNodeTable(names, ids, ndict) && Distinct(ids)
    ensures OneIdEach(ndict)
  {
    forall m, n | m in ndict && n in ndict && m != n ensures ndict[m] != ndict[n] {
      assert m in Elements(names) && n in Elements(names);
      var i :| 0 <= i < |names| && names[i] == m;
      var j :| 0 <= j < |names| && names[j] == n;
      assert ids[i] != ids[j] by {
        assert i < j || j < i;
      }
    }
  }

  /** Node IDs that cannot produce a gateway address. */
  ghost predicate SafeIds(gatewayIds: seq<Option<int>>, ids: seq<Option<int>>) {
    && Distinct(ids)
    && forall j | 0 <= j < |ids| :: ids[j].Some? && ids[j].value >= 1 && ids[j].value !in ReservedGateways(gatewayIds)
  }

  /** The static IDs are acceptable, and enough other IDs are left. */
  ghost predicate IdsFit(gatewayIds: seq<Option<int>>, ids: seq<Option<int>>, maxId: int) {
    var reserved := ReservedGateways(gatewayIds);
    && StaticIdsOk(ids, |ids|, reserved, maxId)
    && MissingIds(ids, |ids|) <= FreeUpTo(reserved + StaticIds(ids, |ids|), IdLimit(maxId))
  }

  /** Gateway IDs are reserved first, then the nodes are numbered. */
  method NumberNodes(gatewayIds: seq<Option<int>>, names: seq<string>, ids: array<Option<int>>, maxId: int)
    returns (ok: bool, ndict: map<string, int>)
    requires maxId >= 1
    requires Distinct(names) && |names| == ids.Length
    modifies ids
    ensures ok <==> IdsFit(gatewayIds, old(ids[..]), maxId)
    ensures ok ==> IsNodeTable(names, ids[..], ndict) && SafeIds(gatewayIds, ids[..])
  {
    ghost var before := ids[..];
    ndict := map[];
    var idvar := new IdVar();
    ReserveGatewayIds(idvar, gatewayIds);
    ghost var reserved := idvar.value;
    assert reserved == ReservedGateways(gatewayIds);
    ok := AssignNodeIds(ids, idvar, maxId);
    if ok {
      AssignedIdsDistinct(before, ids[..], reserved, maxId);
      assert forall j | 0 <= j < ids.Length :: ids[j] == ids[..][j];
      ndict := NodeTable(names, ids);
    }
  }

  /** The whole pipeline.  checked is the duplicate_address warning, which is on by
      default: then a run without errors leaves no two interfaces with the same
      address, and no interface with the address of a gateway.  With the warning
      off, a node that is attached twice to a link numbered by node ID has one
      address twice.  A run has no errors exactly when there are enough IDs and
      subnets, every link fits into its prefix and, with the warning on, no link
      numbered by node ID attaches a node twice. */
  method BuildAddressPlan(gatewayIds: seq<Option<int>>, names: seq<string>, ids: array<Option<int>>, maxId: int,
                          links: seq<Link>, loopbacks: map<string, bool>, pool: SubnetPool, checked: bool)
    returns (ok: bool, ndict: map<string, int>)
    requires maxId >= 1
    requires Distinct(names) && |names| == ids.Length
    requires pool.pos <= pool.count && IsPowerOfTwo(pool.blockSize) && pool.blockSize > 2
    requires Distinct(links)
    requires forall k {:trigger Written(links[k], gatewayIds, names)} | 0 <= k < |links| :: Written(links[k], gatewayIds, names)
    requires forall k {:trigger Blank(links[k])} | 0 <= k < |links| :: Blank(links[k]) && links[k].af == pool.af
    modifies ids, links, pool`pos, pool`cache
    ensures ok ==> IsNodeTable(names, ids[..], ndict) && GatewaysAvoided(links)
    ensures ok && checked ==> AddressesDistinct(links)
    ensures ok ==> (AddressesDistinct(links) <==> AllAttachOnce(links, ndict, pool.base, pool.blockSize, old(pool.pos)))
    ensures ProperPool(pool.af, pool.base, pool.blockSize, pool.count) ==>
              (ok <==> && IdsFit(gatewayIds, old(ids[..]), maxId)
                       && AllFit(links, |links|, ndict, pool.base, pool.blockSize, pool.count, old(pool.pos), checked))
  {
    ok, ndict := NumberNodes(gatewayIds, names, ids, maxId);
    if !ok {
      return;
    }
    IdsFromTable(names, ids[..], ndict);
    forall k | 0 <= k < |links| ensures Attached(links[k], ndict) {
      WrittenIsAttached(links[k], gatewayIds, names, ids[..], ndict);
    }
    ok := TransformLinks(links, pool, ndict, loopbacks, checked);
  }
}
