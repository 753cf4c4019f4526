/** Interface addressing on one link, for one address family
    (netsim/augment/links.py): the choice of an allocation policy, the loops
    that number the interfaces, and the host-bits check that follows them. */
module Ipam {
  import opened AddressPools
  import opened Arithmetic
  import opened Names
  import opened Options
  import opened Sequences

  /** An IP prefix: network address and number of addresses. */
  datatype Prefix = Prefix(base: int, size: nat)

  /** A prefix attribute of a link: a boolean stands for unnumbered, as does the
      older attribute for the whole link. */
  datatype LinkPrefix = Bool(on: bool) | Net(net: Prefix) | OldUnnumbered

  /** The address attribute of an interface: absent, unnumbered or disabled, a
      host index, an address without a prefix length, or a full address. */
  datatype AfValue = Unset | Flag(on: bool) | HostIndex(n: int) | BareAddress(ip: int) | Address(ip: int, size: nat)

  datatype Policy = Unnumbered | P2p | Sequential | IdBased | Loopback | Error

  /** net[host]: negative indexes count from the end; anything outside the
      prefix is an error. */
  function NthIp(p: Prefix, n: int): Option<int> {
    if 0 <= n < p.size then Some(p.base + n)
    else if n < 0 && -n <= p.size then Some(p.base + p.size + n)
    else None
  }

  /** set_interface_address: the new attribute, and whether it worked. */
  function SetAddress(old_: AfValue, p: Prefix, index: int): (AfValue, bool) {
    match old_
    case Flag(_) => (old_, true)
    case Address(_, _) => (old_, true)
    case BareAddress(ip) => (Address(ip, p.size), true)
    case HostIndex(n) => FromIndex(old_, p, n)
    case Unset => FromIndex(old_, p, index)
  }

  function FromIndex(old_: AfValue, p: Prefix, n: int): (AfValue, bool) {
    match NthIp(p, n)
    case Some(ip) => (Address(ip, p.size), true)
    case None => (old_, false)
  }

  /** max(ids) <= limit */
  predicate AllAtMost(ids: seq<int>, limit: int) {
    forall id | id in ids :: id <= limit
  }

  /** Room left in a prefix of more than two addresses once the network and
      broadcast addresses and a gateway at the end are taken away. */
  function UsableSize(size: nat, gw: int): int {
    size + if gw < 0 && gw - 1 < -2 then gw - 1 else -2
  }

  /** get_prefix_IPAM_policy */
  function PolicyFor(isP2p: bool, gatewayId: Option<int>, prefix: LinkPrefix, ids: seq<int>): Policy
    requires ids != []
  {
    if !prefix.Net? then Unnumbered else
      var gw := gatewayId.GetOr(0);
      var size := prefix.net.size;
      if isP2p && gw == 0 then (if size > 1 then P2p else Error)
      else if size == 2 && |ids| == 2 then P2p
      else
        var extra := if size > 2 && gw > 0 then 1 else 0;
        var usable := if size > 2 then UsableSize(size, gw) else size;
        if usable == 1 then (if |ids| == 1 then Loopback else Error)
        else if AllAtMost(ids, usable) then IdBased
        else if |ids| + extra <= usable then Sequential
        else Error
  }

  function FirstIndex(size: nat): nat {
    if size > 2 then 1 else 0
  }

  // ----- host indexes used by the numbering loops

  /** The moving start of IPAM_sequential skips the gateway index once. */
  function SequentialIndex(size: nat, gatewayId: Option<int>, count: nat): int {
    var i := count + FirstIndex(size);
    if gatewayId.Some? && FirstIndex(size) <= gatewayId.value <= i then i + 1 else i
  }

  function SequentialIndexes(size: nat, gatewayId: Option<int>, n: nat): seq<int> {
    seq(n, i requires 0 <= i < n => SequentialIndex(size, gatewayId, i))
  }

  /** Interface a is sorted before interface b: by node name, equal names in
      link order. */
  ghost predicate SortsBefore(nodes: seq<string>, a: nat, b: nat)
    requires a < |nodes| && b < |nodes|
  {
    Less(nodes[a], nodes[b]) || (nodes[a] == nodes[b] && a < b)
  }

  ghost predicate IsStableOrder(nodes: seq<string>, n: nat, order: seq<nat>)
    requires n <= |nodes|
  {
    && |order| == n
    && (forall k | 0 <= k < n :: order[k] < n)
    && (forall i | 0 <= i < n :: i in order)
    && (forall j, k | 0 <= j < k < n :: SortsBefore(nodes, order[j], order[k]))
  }

  /** Place of interface i in that order. */
  ghost function Rank(nodes: seq<string>, i: nat): nat
    requires i < |nodes|
  {
    |set j | 0 <= j < |nodes| && SortsBefore(nodes, j, i)|
  }

  ghost function P2pIndexes(size: nat, nodes: seq<string>): seq<int> {
    seq(|nodes|, i requires 0 <= i < |nodes| => Rank(nodes, i) + FirstIndex(size))
  }

  /** sorted(link.interfaces, key=node): insert the interfaces one at a time. */
  method StableOrder(nodes: seq<string>) returns (order: seq<nat>)
    ensures IsStableOrder(nodes, |nodes|, order)
  {
    order := [];
    for i := 0 to |nodes|
      invariant IsStableOrder(nodes, i, order)
    {
      var at := i;
      while at > 0 && Less(nodes[i], nodes[order[at - 1]])
        invariant 0 <= at <= i
        invariant forall k | at <= k < i :: Less(nodes[i], nodes[order[k]])
      {
        at := at - 1;
      }
      InsertKeepsOrder(nodes, i, order, at);
      order := order[..at] + [i] + order[at..];
    }
  }

  lemma InsertKeepsAll(i: nat, order: seq<nat>, at: nat)
    requires |order| == i && at <= i && forall x | 0 <= x < i :: x in order
    ensures forall x | 0 <= x <= i :: x in order[..at] + [i] + order[at..]
  {
    var longer := order[..at] + [i] + order[at..];
    assert longer[at] == i;
    forall x | 0 <= x < i ensures x in longer {
      assert x in order;
      var k :| 0 <= k < i && order[k] == x;
      assert longer[if k < at then k else k + 1] == x;
    }
  }

  lemma SortsBeforeTransitive(nodes: seq<string>, a: nat, b: nat, c: nat)
    requires a < |nodes| && b < |nodes| && c < |nodes|
    requires SortsBefore(nodes, a, b) && SortsBefore(nodes, b, c)
    ensures SortsBefore(nodes, a, c)
  {
    if Less(nodes[a], nodes[b]) && Less(nodes[b], nodes[c]) {
      LessTransitive(nodes[a], nodes[b], nodes[c]);
    }
  }

  lemma InsertKeepsOrder(nodes: seq<string>, i: nat, order: seq<nat>, at: nat)
    requires i < |nodes| && at <= i
    requires IsStableOrder(nodes, i, order)
    requires forall k | at <= k < i :: Less(nodes[i], nodes[order[k]])
    requires at > 0 ==> !Less(nodes[i], nodes[order[at - 1]])
    ensures IsStableOrder(nodes, i + 1, order[..at] + [i] + order[at..])
  {
    var longer := order[..at] + [i] + order[at..];
    InsertKeepsAll(i, order, at);
    forall k | 0 <= k < at ensures SortsBefore(nodes, order[k], i) {
      LessTotal(nodes[i], nodes[order[at - 1]]);
      if k < at - 1 {
        SortsBeforeTransitive(nodes, order[k], order[at - 1], i);
      }
    }
    assert forall k | 0 <= k < at :: longer[k] == order[k];
    assert forall k | at < k <= i :: longer[k] == order[k - 1];
    forall j, k | 0 <= j < k < i + 1 ensures SortsBefore(nodes, longer[j], longer[k]) {
      if j == at {
        assert Less(nodes[i], nodes[order[k - 1]]);
      } else if k == at {
        assert SortsBefore(nodes, order[j], i);
      } else {
        assert SortsBefore(nodes, order[if j < at then j else j - 1], order[if k < at then k else k - 1]);
      }
    }
  }

  lemma SortsBeforeAsymmetric(nodes: seq<string>, a: nat, b: nat)
    requires a < |nodes| && b < |nodes|
    ensures !(SortsBefore(nodes, a, b) && SortsBefore(nodes, b, a))
  {
    LessTotal(nodes[a], nodes[b]);
  }

  lemma {:induction false} DistinctCount(s: seq<nat>)
    requires Distinct(s)
    ensures |Elements(s)| == |s|
  {
    if s == [] {
    } else {
      var front := s[..|s| - 1];
      DistinctCount(front);
      assert Elements(s) == Elements(front) + {s[|s| - 1]};
    }
  }

  lemma OrderGivesRank(nodes: seq<string>, order: seq<nat>, k: nat)
    requires IsStableOrder(nodes, |nodes|, order) && k < |nodes|
    ensures Rank(nodes, order[k]) == k
    ensures Distinct(order)
  {
    forall a, b | 0 <= a < b < |nodes| ensures order[a] != order[b] {
      SortsBeforeAsymmetric(nodes, order[a], order[b]);
    }
    DistinctCount(order[..k]);
    var before := set j | 0 <= j < |nodes| && SortsBefore(nodes, j, order[k]);
    forall j | 0 <= j < |nodes| ensures j in before <==> j in order[..k] {
      assert j in order;
      var at :| 0 <= at < |nodes| && order[at] == j;
      SortsBeforeAsymmetric(nodes, order[at], order[k]);
      if j in order[..k] {
        assert at < k;
      }
    }
    assert before == Elements(order[..k]);
  }

  /** No call of set_interface_address fails. */
  predicate AllSet(before: seq<AfValue>, p: Prefix, idx: seq<int>)
    requires |before| == |idx|
  {
    forall i | 0 <= i < |idx| :: SetAddress(before[i], p, idx[i]).1
  }

  lemma AllInOrder(nodes: seq<string>, order: seq<nat>, p: Prefix, idx: seq<int>, before: seq<AfValue>, addr: seq<AfValue>, ok: bool)
    requires IsStableOrder(nodes, |nodes|, order) && |idx| == |before| == |addr| == |nodes|
    requires forall k | 0 <= k < |order| :: addr[order[k]] == SetAddress(before[order[k]], p, idx[order[k]]).0
    requires ok <==> forall k | 0 <= k < |order| :: SetAddress(before[order[k]], p, idx[order[k]]).1
    ensures forall i | 0 <= i < |nodes| :: addr[i] == SetAddress(before[i], p, idx[i]).0
    ensures ok <==> AllSet(before, p, idx)
  {
    forall i | 0 <= i < |nodes|
      ensures addr[i] == SetAddress(before[i], p, idx[i]).0
      ensures ok ==> SetAddress(before[i], p, idx[i]).1
    {
      assert i in order;
      var k :| 0 <= k < |order| && order[k] == i;
    }
  }

  // ----- the link object

  /** The host index each policy gives to each interface. */
  ghost function HostIndexes(policy: Policy, size: nat, gatewayId: Option<int>, nodes: seq<string>, ids: seq<int>): seq<int>
    requires policy in {P2p, Sequential, IdBased}
  {
    match policy
    case P2p => P2pIndexes(size, nodes)
    case Sequential => SequentialIndexes(size, gatewayId, |nodes|)
    case _ => ids
  }

  function NodeIdsOf(nodes: seq<string>, ndict: map<string, int>): seq<int>
    requires forall n | n in nodes :: n in ndict
  {
    seq(|nodes|, i requires 0 <= i < |nodes| => ndict[nodes[i]])
  }

  predicate IsMulticast(af: AddressFamily, ip: int) {
    match af
    case IPv4 => 0xe000_0000 <= ip < 0xf000_0000
    case IPv6 => 0xff00_0000_0000_0000_0000_0000_0000_0000 <= ip
  }

  /** check_interface_host_bits for one address: no multicast, and no network or
      broadcast address in a prefix of more than two addresses. */
  predicate HostBitsOk(af: AddressFamily, a: AfValue) {
    a.Address? ==>
      && !IsMulticast(af, a.ip)
      && (a.size > 2 ==> a.ip % a.size != 0 && a.ip % a.size != a.size - 1)
  }

  method CheckHostBits(af: AddressFamily, addr: seq<AfValue>) returns (ok: bool)
    ensures ok <==> forall i | 0 <= i < |addr| :: HostBitsOk(af, addr[i])
  {
    ok := true;
    for i := 0 to |addr|
      invariant ok <==> forall j | 0 <= j < i :: HostBitsOk(af, addr[j])
    {
      if !HostBitsOk(af, addr[i]) {
        ok := false;
      }
    }
  }

  /** IPAM_unnumbered for one interface: the boolean of the prefix if there is
      one, the use of the address family on the loopback of the node otherwise;
      without a loopback IPv6 is enabled. */
  function UnnumberedValue(old_: AfValue, af: AddressFamily, on: Option<bool>, loopbacks: map<string, bool>, node: string): AfValue {
    if !old_.Unset? then old_
    else if on.Some? then Flag(on.value)
    else if node in loopbacks then Flag(loopbacks[node])
    else if af == IPv6 then Flag(true)
    else Unset
  }

  // ----- duplicate addresses

  /** Only addresses in text form are compared, prefix length included. */
  predicate IsText(a: AfValue) {
    a.BareAddress? || a.Address?
  }

  /** Neither two interfaces nor an interface and the gateway have the same text. */
  ghost predicate NoDuplicate(gateway: Option<AfValue>, addr: seq<AfValue>) {
    && (forall i, j | 0 <= i < j < |addr| && IsText(addr[i]) && IsText(addr[j]) :: addr[i] != addr[j])
    && (gateway.Some? ==> forall i | 0 <= i < |addr| && IsText(addr[i]) :: addr[i] != gateway.value)
  }

  /** check_duplicate_address for one address family. */
  method CheckDuplicateAddress(gateway: Option<AfValue>, addr: seq<AfValue>) returns (ok: bool)
    ensures ok <==> NoDuplicate(gateway, addr)
  {
    ok := true;
    var seen := if gateway.Some? then {gateway.value} else {};
    for i := 0 to |addr|
      invariant forall a :: a in seen <==> gateway == Some(a) || exists j :: 0 <= j < i && IsText(addr[j]) && addr[j] == a
      invariant ok <==> NoDuplicate(gateway, addr[..i])
    {
      assert addr[..i + 1] == addr[..i] + [addr[i]];
      if IsText(addr[i]) {
        if addr[i] in seen {
          ok := false;
        } else {
          seen := seen + {addr[i]};
        }
      }
    }
    assert addr[..|addr|] == addr;
  }

  class Link {
    const af: AddressFamily
    const isP2p: bool
    const gatewayId: Option<int>
    const nodes: seq<string>
    var prefix: Option<LinkPrefix>
    var gatewayAddr: Option<int>
    var addr: seq<AfValue>

    ghost predicate Valid()
      reads this`addr
    {
      |addr| == |nodes| > 0
    }

    constructor (af: AddressFamily, isP2p: bool, gatewayId: Option<int>, nodes: seq<string>, addr: seq<AfValue>)
      requires |addr| == |nodes| > 0
      ensures Valid()
      ensures this.af == af && this.isP2p == isP2p && this.gatewayId == gatewayId && this.nodes == nodes && this.addr == addr
      ensures prefix == None && gatewayAddr == None
    {
      this.af, this.isP2p, this.gatewayId, this.nodes, this.addr := af, isP2p, gatewayId, nodes, addr;
      prefix, gatewayAddr := None, None;
    }

    /** set_fhrp_gateway for a numbered prefix: a missing or zero gateway ID
        leaves the link alone. */
    method SetFhrpGateway(p: Prefix) returns (ok: bool)
      modifies this`gatewayAddr
      ensures gatewayId.GetOr(0) == 0 ==> ok && gatewayAddr == old(gatewayAddr)
      ensures gatewayId.GetOr(0) != 0 ==>
                && (ok <==> NthIp(p, gatewayId.value).Some?)
                && gatewayAddr == if ok then NthIp(p, gatewayId.value) else old(gatewayAddr)
    {
      if gatewayId.GetOr(0) == 0 {
        return true;
      }
      var ip := NthIp(p, gatewayId.value);
      if ip.None? {
        return false;
      }
      gatewayAddr := ip;
      return true;
    }

    /** Every interface holds what set_interface_address makes of its index. */
    ghost predicate Numbered(before: seq<AfValue>, p: Prefix, idx: seq<int>)
      reads this`addr
    {
      && |addr| == |before| == |idx|
      && forall i | 0 <= i < |idx| :: addr[i] == SetAddress(before[i], p, idx[i]).0
    }

    method IpamSequential(p: Prefix) returns (ok: bool)
      requires Valid()
      modifies this`addr
      ensures Valid()
      ensures Numbered(old(addr), p, SequentialIndexes(p.size, gatewayId, |nodes|))
      ensures ok <==> AllSet(old(addr), p, SequentialIndexes(p.size, gatewayId, |nodes|))
    {
      var start := if p.size > 2 then 1 else 0;
      ok := true;
      for count := 0 to |nodes|
        invariant |addr| == |nodes|
        invariant forall i | count <= i < |nodes| :: addr[i] == old(addr)[i]
        invariant start == FirstIndex(p.size) + if gatewayId.Some? && FirstIndex(p.size) <= gatewayId.value < count + FirstIndex(p.size) then 1 else 0
        invariant forall i | 0 <= i < count ::
                    addr[i] == SetAddress(old(addr)[i], p, SequentialIndex(p.size, gatewayId, i)).0
        invariant ok <==> forall i | 0 <= i < count ::
                    SetAddress(old(addr)[i], p, SequentialIndex(p.size, gatewayId, i)).1
      {
        if gatewayId == Some(count + start) {
          start := start + 1;
        }
        var (value, worked) := SetAddress(addr[count], p, count + start);
        addr := addr[count := value];
        ok := worked && ok;
      }
    }

    method IpamP2p(p: Prefix) returns (ok: bool)
      requires Valid()
      modifies this`addr
      ensures Valid()
      ensures Numbered(old(addr), p, P2pIndexes(p.size, nodes))
      ensures ok <==> AllSet(old(addr), p, P2pIndexes(p.size, nodes))
    {
      var start := if p.size > 2 then 1 else 0;
      var order := StableOrder(nodes);
      ghost var idx := P2pIndexes(p.size, nodes);
      ok := true;
      for count := 0 to |order|
        invariant |addr| == |nodes|
        invariant forall k | count <= k < |order| :: addr[order[k]] == old(addr)[order[k]]
        invariant forall k | 0 <= k < count ::
                    addr[order[k]] == SetAddress(old(addr)[order[k]], p, idx[order[k]]).0
        invariant ok <==> forall k | 0 <= k < count :: SetAddress(old(addr)[order[k]], p, idx[order[k]]).1
      {
        OrderGivesRank(nodes, order, count);
        var (value, worked) := SetAddress(addr[order[count]], p, count + start);
        addr := addr[order[count] := value];
        ok := worked && ok;
      }
      AllInOrder(nodes, order, p, idx, old(addr), addr, ok);
    }

    method IpamIdBased(p: Prefix, ndict: map<string, int>) returns (ok: bool)
      requires Valid()
      requires forall n | n in nodes :: n in ndict
      modifies this`addr
      ensures Valid()
      ensures Numbered(old(addr), p, NodeIdsOf(nodes, ndict))
      ensures ok <==> AllSet(old(addr), p, NodeIdsOf(nodes, ndict))
    {
      ok := true;
      for count := 0 to |nodes|
        invariant |addr| == |nodes|
        invariant forall i | count <= i < |nodes| :: addr[i] == old(addr)[i]
        invariant forall i | 0 <= i < count :: addr[i] == SetAddress(old(addr)[i], p, ndict[nodes[i]]).0
        invariant ok <==> forall i | 0 <= i < count :: SetAddress(old(addr)[i], p, ndict[nodes[i]]).1
      {
        var (value, worked) := SetAddress(addr[count], p, ndict[nodes[count]]);
        addr := addr[count := value];
        ok := worked && ok;
      }
    }

    /** IPAM_loopback: the network address as a host prefix, also on top of a
        static address. */
    method IpamLoopback(p: Prefix)
      requires Valid()
      modifies this`addr
      ensures Valid()
      ensures forall i | 0 <= i < |addr| :: addr[i] == Address(p.base, 1)
    {
      for count := 0 to |nodes|
        invariant |addr| == |nodes|
        invariant forall i | 0 <= i < count :: addr[i] == Address(p.base, 1)
      {
        addr := addr[count := Address(p.base, 1)];
      }
    }

    /** IPAM_unnumbered: host indexes make no sense. */
    method IpamUnnumbered(on: Option<bool>, loopbacks: map<string, bool>) returns (ok: bool)
      requires Valid()
      modifies this`addr
      ensures Valid()
      ensures forall i | 0 <= i < |addr| :: addr[i] == UnnumberedValue(old(addr)[i], af, on, loopbacks, nodes[i])
      ensures ok <==> forall i | 0 <= i < |addr| :: !old(addr)[i].HostIndex?
    {
      ok := true;
      for count := 0 to |nodes|
        invariant |addr| == |nodes|
        invariant forall i | count <= i < |nodes| :: addr[i] == old(addr)[i]
        invariant forall i | 0 <= i < count :: addr[i] == UnnumberedValue(old(addr)[i], af, on, loopbacks, nodes[i])
        invariant ok <==> forall i | 0 <= i < count :: !old(addr)[i].HostIndex?
      {
        if addr[count].Unset? {
          if on.Some? {
            addr := addr[count := Flag(on.value)];
          } else if nodes[count] in loopbacks {
            addr := addr[count := Flag(loopbacks[nodes[count]])];
          } else if af == IPv6 {
            addr := addr[count := Flag(true)];
          }
        } else if addr[count].HostIndex? {
          ok := false;
        }
      }
    }

    /** assign_interface_addresses for one address family; allocation is the
        explicit policy of the prefix, which bypasses the size check, and
        loopbacks tells which nodes have a loopback interface, with or without an
        address of the family.  The result is false when an error was reported. */
    method AssignInterfaceAddresses(allocation: Option<Policy>, ndict: map<string, int>, loopbacks: map<string, bool>)
      returns (ok: bool, policy: Policy)
      requires Valid()
      requires forall n | n in nodes :: n in ndict
      requires prefix.Some?
      modifies this`addr, this`prefix
      ensures Valid()
      ensures policy == if old(prefix).value.Net? && allocation.Some? then allocation.value
                        else PolicyFor(isP2p, gatewayId, old(prefix).value, NodeIdsOf(nodes, ndict))
      ensures prefix == if old(prefix).value.OldUnnumbered? then None else old(prefix)
      ensures policy == Error ==> !ok && addr == old(addr)
      ensures policy == Loopback ==>
                && (forall i | 0 <= i < |addr| :: addr[i] == Address(old(prefix).value.net.base, 1))
                && (ok <==> !IsMulticast(af, old(prefix).value.net.base))
      ensures policy == Unnumbered ==>
                var on := if old(prefix).value.Bool? then Some(old(prefix).value.on) else None;
                && (forall i | 0 <= i < |addr| :: addr[i] == UnnumberedValue(old(addr)[i], af, on, loopbacks, nodes[i]))
                && (ok <==> forall i | 0 <= i < |addr| ::
                              !old(addr)[i].HostIndex? && (old(prefix).value.OldUnnumbered? || HostBitsOk(af, addr[i])))
      ensures policy in {P2p, Sequential, IdBased} ==>
                var p := old(prefix).value.net;
                var idx := HostIndexes(policy, p.size, gatewayId, nodes, NodeIdsOf(nodes, ndict));
                && Numbered(old(addr), p, idx)
                && (ok <==> AllSet(old(addr), p, idx) && forall i | 0 <= i < |addr| :: HostBitsOk(af, addr[i]))
      ensures allocation.None? ==>
                Designed(isP2p, gatewayId, old(prefix).value, nodes, NodeIdsOf(nodes, ndict), old(addr), policy, addr)
    {
      policy := if prefix.value.Net? && allocation.Some? then allocation.value
                else PolicyFor(isP2p, gatewayId, prefix.value, NodeIdsOf(nodes, ndict));
      match policy {
        case Error =>
          if allocation.None? {
            DesignHolds(isP2p, gatewayId, prefix.value, nodes, NodeIdsOf(nodes, ndict), addr, policy, addr);
          }
          return false, Error;
        case Unnumbered =>
          ok := IpamUnnumbered(if prefix.value.Bool? then Some(prefix.value.on) else None, loopbacks);
          if prefix.value.OldUnnumbered? {
            prefix := None;
            return;
          }
        case P2p => ok := IpamP2p(prefix.value.net);
        case Sequential => ok := IpamSequential(prefix.value.net);
        case IdBased => ok := IpamIdBased(prefix.value.net, ndict);
        case Loopback =>
          IpamLoopback(prefix.value.net);
          assert addr[0] == Address(prefix.value.net.base, 1);
          ok := true;
      }
      if ok {
        ok := CheckHostBits(af, addr);
      }
      if allocation.None? {
        DesignHolds(isP2p, gatewayId, prefix.value, nodes, NodeIdsOf(nodes, ndict), old(addr), policy, addr);
      }
    }
  }

  // ----- what the addresses are, without the policies

  /** The part of a host address below its prefix: neither the network nor the
      broadcast address, and in front of a gateway that is counted from the end. */
  predicate IsHost(size: nat, gw: int, x: int) {
    1 <= x <= size - 2 && (gw < 0 ==> x < size + gw)
  }

  ghost function FreeHosts(size: nat, gw: int, limit: int): set<int> {
    set x | 1 <= x < limit && IsHost(size, gw, x) && x != gw
  }

  /** The k-th host address, from zero, that is not that of the gateway. */
  ghost predicate IsKthHost(size: nat, gw: int, x: int, k: nat) {
    IsHost(size, gw, x) && x != gw && |FreeHosts(size, gw, x)| == k
  }

  /** The place of interface i of two by node name. */
  ghost function Second(nodes: seq<string>, i: nat): int
    requires |nodes| == 2 && i < 2
  {
    if SortsBefore(nodes, 1 - i, i) then 1 else 0
  }

  /** Too many nodes: more than free host addresses, when some node ID is no host
      address.  A gateway ID behind the host addresses costs one of them all the
      same, and a gateway that leaves one address leaves it to one node. */
  ghost predicate NoRoom(isP2p: bool, gatewayId: Option<int>, size: nat, ids: seq<int>) {
    var gw := gatewayId.GetOr(0);
    if size == 1 then |ids| > 1
    else if size == 2 then |ids| > 2 && exists i :: 0 <= i < |ids| && ids[i] > 2
    else if isP2p && gw == 0 then false
    else if gw == 2 - size then |ids| > 1
    else
      && (exists i :: 0 <= i < |ids| && !IsHost(size, gw, ids[i]))
      && |ids| > |FreeHosts(size, gw, size)| - if gw > size - 2 then 1 else 0
  }

  /** The addresses on a link without static ones: by name on links without a
      gateway that are p2p, node IDs where all of them are host addresses, the
      free host addresses in order otherwise. */
  ghost predicate ByDesign(isP2p: bool, gatewayId: Option<int>, p: Prefix, nodes: seq<string>, ids: seq<int>, addr: seq<AfValue>)
    requires isP2p ==> |nodes| == 2
  {
    |addr| == |nodes| == |ids| && forall i | 0 <= i < |addr| :: ByDesignAt(isP2p, gatewayId, p, nodes, ids, i, addr[i])
  }

  /** What a link without static addresses and without an explicit policy gets. */
  ghost predicate Designed(isP2p: bool, gatewayId: Option<int>, prefix: LinkPrefix, nodes: seq<string>, ids: seq<int>,
                           before: seq<AfValue>, policy: Policy, addr: seq<AfValue>) {
    prefix.Net? && IsPowerOfTwo(prefix.net.size) && WellFormed(isP2p, nodes, ids) && (forall i | 0 <= i < |before| :: before[i] == Unset) ==>
      && (policy == Error <==> NoRoom(isP2p, gatewayId, prefix.net.size, ids))
      && (policy != Error ==> ByDesign(isP2p, gatewayId, prefix.net, nodes, ids, addr))
  }

  lemma DesignHolds(isP2p: bool, gatewayId: Option<int>, prefix: LinkPrefix, nodes: seq<string>, ids: seq<int>,
                    before: seq<AfValue>, policy: Policy, addr: seq<AfValue>)
    requires |before| == |addr| == |nodes| == |ids| > 0
    requires policy == PolicyFor(isP2p, gatewayId, prefix, ids)
    requires policy == Loopback ==> forall i | 0 <= i < |addr| :: addr[i] == Address(prefix.net.base, 1)
    requires policy in {P2p, Sequential, IdBased} ==>
               forall i | 0 <= i < |addr| ::
                 addr[i] == SetAddress(before[i], prefix.net, HostIndexes(policy, prefix.net.size, gatewayId, nodes, ids)[i]).0
    ensures Designed(isP2p, gatewayId, prefix, nodes, ids, before, policy, addr)
  {
    if prefix.Net? && IsPowerOfTwo(prefix.net.size) && WellFormed(isP2p, nodes, ids) && forall i | 0 <= i < |before| :: before[i] == Unset {
      AddressesByDesign(isP2p, gatewayId, prefix.net, nodes, ids, addr);
    }
  }

  ghost predicate ByDesignAt(isP2p: bool, gatewayId: Option<int>, p: Prefix, nodes: seq<string>, ids: seq<int>, i: nat, a: AfValue)
    requires i < |nodes| == |ids| && (isP2p ==> |nodes| == 2)
  {
    var gw := gatewayId.GetOr(0);
    if p.size <= 2 then a == SmallDesign(gatewayId, p, nodes, ids, i)
    else if isP2p && gw == 0 then a == Address(p.base + 1 + Second(nodes, i), p.size)
    else if gw == 2 - p.size then a == Address(p.base, 1)
    else if forall j | 0 <= j < |ids| :: IsHost(p.size, gw, ids[j]) then a == Address(p.base + ids[i], p.size)
    else a.Address? && a.size == p.size && IsKthHost(p.size, gw, a.ip - p.base, i)
  }

  /** In prefixes of one or two addresses there is no network or broadcast
      address: two interfaces take both addresses by name; otherwise a node ID of
      1 takes the second address, an ID of 2 falls outside, and a single node with
      a larger ID takes the first one, unless its gateway ID is a literal zero. */
  ghost function SmallDesign(gatewayId: Option<int>, p: Prefix, nodes: seq<string>, ids: seq<int>, i: nat): AfValue
    requires i < |nodes| == |ids|
  {
    if p.size == 1 then Address(p.base, 1)
    else if |nodes| == 2 then Address(p.base + Second(nodes, i), p.size)
    else if ids[i] == 1 then Address(p.base + 1, p.size)
    else if ids[i] == 2 then Unset
    else Address(p.base + if gatewayId == Some(0) then 1 else 0, p.size)
  }

  lemma FreeHostsSize(size: nat, gw: int, limit: int)
    requires 1 <= limit && forall x | 1 <= x < limit :: IsHost(size, gw, x)
    ensures |FreeHosts(size, gw, limit)| == limit - 1 - if 1 <= gw < limit then 1 else 0
  {
    RangeSize(1, limit);
    assert FreeHosts(size, gw, limit) == Range(1, limit) - {gw};
  }

  /** All host addresses, counted. */
  lemma AllHostsSize(size: nat, gw: int)
    requires size > 2
    ensures var room := if gw < 0 then size + gw - 1 else size - 2;
            |FreeHosts(size, gw, size)| == (if room < 0 then 0 else if room > size - 2 then size - 2 else room)
                                           - if 1 <= gw <= size - 2 then 1 else 0
  {
    var room := if gw < -1 then size + gw - 1 else size - 2;
    if room >= 0 {
      FreeHostsSize(size, gw, room + 1);
      assert FreeHosts(size, gw, size) == FreeHosts(size, gw, room + 1);
    } else {
      assert FreeHosts(size, gw, size) == {};
    }
  }

  /** The sequential index is the k-th that is not the gateway's. */
  lemma SequentialIndexExact(size: nat, gatewayId: Option<int>, k: nat)
    ensures var v := SequentialIndex(size, gatewayId, k);
            && FirstIndex(size) <= v && gatewayId != Some(v)
            && |set x | FirstIndex(size) <= x < v && gatewayId != Some(x)| == k
  {
    var first, v := FirstIndex(size), SequentialIndex(size, gatewayId, k);
    RangeSize(first, v);
    assert (set x | first <= x < v && gatewayId != Some(x)) == Range(first, v) - if gatewayId.Some? then {gatewayId.value} else {};
  }

  lemma TwoRanks(nodes: seq<string>, i: nat)
    requires |nodes| == 2 && i < 2
    ensures Rank(nodes, i) == Second(nodes, i)
  {
    var before := set j | 0 <= j < |nodes| && SortsBefore(nodes, j, i);
    SortsBeforeAsymmetric(nodes, i, i);
    assert before == if SortsBefore(nodes, 1 - i, i) then {1 - i} else {};
  }

  lemma PolicyByDesign(isP2p: bool, gatewayId: Option<int>, p: Prefix, ids: seq<int>)
    requires ids != [] && IsPowerOfTwo(p.size) && forall i | 0 <= i < |ids| :: ids[i] >= 1
    requires isP2p ==> |ids| == 2
    ensures PolicyFor(isP2p, gatewayId, Net(p), ids) == Error <==> NoRoom(isP2p, gatewayId, p.size, ids)
  {
    var gw := gatewayId.GetOr(0);
    if p.size > 2 {
      AllHostsSize(p.size, gw);
      assert AllAtMost(ids, UsableSize(p.size, gw)) <==> forall i | 0 <= i < |ids| :: IsHost(p.size, gw, ids[i]) by {
        assert forall i | 0 <= i < |ids| :: ids[i] in ids;
      }
    } else {
      assert forall i | 0 <= i < |ids| :: ids[i] in ids;
    }
  }

  lemma SmallAddressByDesign(isP2p: bool, gatewayId: Option<int>, p: Prefix, nodes: seq<string>, ids: seq<int>, i: nat)
    requires WellFormed(isP2p, nodes, ids) && 0 < p.size <= 2 && i < |nodes|
    requires PolicyFor(isP2p, gatewayId, Net(p), ids) != Error
    ensures var policy := PolicyFor(isP2p, gatewayId, Net(p), ids);
            SmallDesign(gatewayId, p, nodes, ids, i) ==
            if policy == Loopback then Address(p.base, 1)
            else SetAddress(Unset, p, HostIndexes(policy, p.size, gatewayId, nodes, ids)[i]).0
  {
    assert forall k | 0 <= k < |ids| :: ids[k] in ids;
    if |nodes| == 2 {
      TwoRanks(nodes, i);
    } else if |nodes| == 1 {
      assert ids == [ids[0]];
    }
  }

  lemma SequentialByDesign(size: nat, gatewayId: Option<int>, n: nat, i: nat)
    requires size > 2 && i < n
    requires n + (if gatewayId.GetOr(0) > 0 then 1 else 0) <= UsableSize(size, gatewayId.GetOr(0))
    ensures IsKthHost(size, gatewayId.GetOr(0), SequentialIndex(size, gatewayId, i), i)
  {
    FreeHostsSize(size, gatewayId.GetOr(0), SequentialIndex(size, gatewayId, i));
  }

  lemma AddressByDesign(isP2p: bool, gatewayId: Option<int>, p: Prefix, nodes: seq<string>, ids: seq<int>, i: nat, a: AfValue)
    requires WellFormed(isP2p, nodes, ids) && IsPowerOfTwo(p.size) && i < |nodes|
    requires var policy := PolicyFor(isP2p, gatewayId, Net(p), ids);
             && policy != Error
             && a == if policy == Loopback then Address(p.base, 1)
                     else SetAddress(Unset, p, HostIndexes(policy, p.size, gatewayId, nodes, ids)[i]).0
    ensures ByDesignAt(isP2p, gatewayId, p, nodes, ids, i, a)
  {
    var policy := PolicyFor(isP2p, gatewayId, Net(p), ids);
    var gw := gatewayId.GetOr(0);
    if p.size <= 2 {
      SmallAddressByDesign(isP2p, gatewayId, p, nodes, ids, i);
    } else if policy == P2p {
      TwoRanks(nodes, i);
    } else {
      assert AllAtMost(ids, UsableSize(p.size, gw)) <==> forall j | 0 <= j < |ids| :: IsHost(p.size, gw, ids[j]) by {
        assert forall j | 0 <= j < |ids| :: ids[j] in ids;
      }
      if policy == Sequential {
        SequentialByDesign(p.size, gatewayId, |ids|, i);
      }
    }
  }

  /** The indexes of the chosen policy give the promised addresses. */
  lemma AddressesByDesign(isP2p: bool, gatewayId: Option<int>, p: Prefix, nodes: seq<string>, ids: seq<int>, addr: seq<AfValue>)
    requires WellFormed(isP2p, nodes, ids) && IsPowerOfTwo(p.size) && |addr| == |nodes|
    requires var policy := PolicyFor(isP2p, gatewayId, Net(p), ids);
             && (policy == Loopback ==> forall i | 0 <= i < |addr| :: addr[i] == Address(p.base, 1))
             && (policy in {P2p, Sequential, IdBased} ==>
                   forall i | 0 <= i < |addr| ::
                     addr[i] == SetAddress(Unset, p, HostIndexes(policy, p.size, gatewayId, nodes, ids)[i]).0)
    ensures PolicyFor(isP2p, gatewayId, Net(p), ids) == Error <==> NoRoom(isP2p, gatewayId, p.size, ids)
    ensures PolicyFor(isP2p, gatewayId, Net(p), ids) != Error ==> ByDesign(isP2p, gatewayId, p, nodes, ids, addr)
  {
    PolicyByDesign(isP2p, gatewayId, p, ids);
    if PolicyFor(isP2p, gatewayId, Net(p), ids) != Error {
      forall i | 0 <= i < |addr| ensures ByDesignAt(isP2p, gatewayId, p, nodes, ids, i, addr[i]) {
        AddressByDesign(isP2p, gatewayId, p, nodes, ids, i, addr[i]);
      }
    }
  }

  /** Static addresses, whatever index the policy has for the interface: a host
      index counts from the start of the prefix, or from its end when negative,
      and fails outside; an address keeps its IP and takes the length of the
      prefix if it has none; an interface without addresses stays so. */
  lemma StaticAddressExact(p: Prefix, n: int, ip: int, size: nat, on: bool, idx: int)
    ensures 0 <= n < p.size ==> SetAddress(HostIndex(n), p, idx) == (Address(p.base + n, p.size), true)
    ensures n < 0 <= p.size + n ==> SetAddress(HostIndex(n), p, idx) == (Address(p.base + p.size + n, p.size), true)
    ensures p.size + n < 0 || n >= p.size ==> SetAddress(HostIndex(n), p, idx) == (HostIndex(n), false)
    ensures SetAddress(BareAddress(ip), p, idx) == (Address(ip, p.size), true)
    ensures SetAddress(Address(ip, size), p, idx) == (Address(ip, size), true)
    ensures SetAddress(Flag(on), p, idx) == (Flag(on), true)
  {
  }

  /** The boolean that an unnumbered interface without an address gets: that of the
      prefix; without one, whether the loopback of its node uses the family; on a
      node without a loopback IPv6 is enabled and IPv4 left out. */
  lemma UnnumberedExact(af: AddressFamily, on: bool, loopbacks: map<string, bool>, node: string, old_: AfValue)
    ensures UnnumberedValue(Unset, af, Some(on), loopbacks, node) == Flag(on)
    ensures node in loopbacks ==> UnnumberedValue(Unset, af, None, loopbacks, node) == Flag(loopbacks[node])
    ensures node !in loopbacks ==> UnnumberedValue(Unset, IPv6, None, loopbacks, node) == Flag(true)
    ensures node !in loopbacks ==> UnnumberedValue(Unset, IPv4, None, loopbacks, node) == Unset
    ensures old_ != Unset ==> UnnumberedValue(old_, af, Some(on), loopbacks, node) == UnnumberedValue(old_, af, None, loopbacks, node) == old_
  {
  }

  /** The multicast ranges are 224.0.0.0/4 and ff00::/8. */
  lemma MulticastExact(ip: nat)
    ensures ip < 0x1_0000_0000 ==> (IsMulticast(IPv4, ip) <==> 224 <= ip / 0x100_0000 <= 239)
    ensures ip < 0x1_0000_0000_0000_0000_0000_0000_0000_0000 ==>
              (IsMulticast(IPv6, ip) <==> ip / 0x1_0000_0000_0000_0000_0000_0000_0000_00 == 255)
  {
  }

  /** In a block that is not multicast the check rejects exactly the first and the
      last address, and nothing in blocks of one or two addresses. */
  lemma HostBitsExact(af: AddressFamily, p: Prefix, i: int)
    requires ProperBlock(af, p) && 0 <= i < p.size
    ensures HostBitsOk(af, Address(p.base + i, p.size)) <==> p.size <= 2 || 0 < i < p.size - 1
  {
    OffsetInBlock(p.base, p.size, i);
  }

  // ----- the chosen policy fits the prefix

  lemma PowerOfTwoAboveTwo(n: nat)
    requires IsPowerOfTwo(n) && n > 2
    ensures n >= 4
  {
  }

  /** Index of the gateway address, counted from the start of the prefix. */
  function GatewayIndex(size: nat, gw: int): int {
    if gw > 0 then gw else size + gw
  }

  /** What link and node data look like when addresses are assigned: a p2p link
      has two interfaces, and node IDs are positive. */
  ghost predicate WellFormed(isP2p: bool, nodes: seq<string>, ids: seq<int>) {
    && |nodes| == |ids| > 0
    && (isP2p ==> |nodes| == 2)
    && forall i | 0 <= i < |ids| :: ids[i] >= 1
  }

  ghost function SortedBefore(nodes: seq<string>, i: nat): set<nat>
    requires i < |nodes|
  {
    set j | 0 <= j < |nodes| && SortsBefore(nodes, j, i)
  }

  lemma SortedBeforeGrows(nodes: seq<string>, a: nat, b: nat)
    requires a < |nodes| && b < |nodes| && SortsBefore(nodes, a, b)
    ensures SortedBefore(nodes, a) < SortedBefore(nodes, b)
    ensures Rank(nodes, a) < Rank(nodes, b)
  {
    forall j | j in SortedBefore(nodes, a) ensures j in SortedBefore(nodes, b) {
      if Less(nodes[j], nodes[a]) && Less(nodes[a], nodes[b]) {
        LessTransitive(nodes[j], nodes[a], nodes[b]);
      }
    }
    SortsBeforeAsymmetric(nodes, a, a);
    assert a in SortedBefore(nodes, b) && a !in SortedBefore(nodes, a);
    SubsetSize(SortedBefore(nodes, a), SortedBefore(nodes, b));
  }

  lemma SubsetSize<T>(small: set<T>, large: set<T>)
    requires small < large
    ensures |small| < |large|
  {
    assert large == small + (large - small);
    assert large - small != {};
  }

  lemma RanksDistinctAndBounded(nodes: seq<string>)
    ensures forall i | 0 <= i < |nodes| :: Rank(nodes, i) < |nodes|
    ensures forall i, j | 0 <= i < j < |nodes| :: Rank(nodes, i) != Rank(nodes, j)
  {
    var range: seq<nat> := seq(|nodes|, (j: nat) => j);
    DistinctCount(range);
    assert forall j | 0 <= j < |nodes| :: range[j] == j && range[j] in Elements(range);
    forall i | 0 <= i < |nodes| ensures Rank(nodes, i) < |nodes| {
      SortsBeforeAsymmetric(nodes, i, i);
      assert range[i] == i && i !in SortedBefore(nodes, i);
      forall j | j in SortedBefore(nodes, i) ensures j in Elements(range) {
        assert range[j] == j;
      }
      SubsetSize(SortedBefore(nodes, i), Elements(range));
    }
    forall i, j | 0 <= i < j < |nodes| ensures Rank(nodes, i) != Rank(nodes, j) {
      LessTotal(nodes[i], nodes[j]);
      if SortsBefore(nodes, i, j) {
        SortedBeforeGrows(nodes, i, j);
      } else {
        SortedBeforeGrows(nodes, j, i);
      }
    }
  }

  /** Main bound: in a prefix of more than two addresses every numbering policy
      stays inside 1..size-2.  No index is given twice and none belongs to the
      gateway, except that node IDs used as indexes must not repeat and must
      differ from a gateway ID counted from the start of the prefix. */
  lemma HostIndexesSound(isP2p: bool, gatewayId: Option<int>, p: Prefix, nodes: seq<string>, ids: seq<int>)
    requires IsPowerOfTwo(p.size) && p.size > 2
    requires WellFormed(isP2p, nodes, ids)
    requires PolicyFor(isP2p, gatewayId, Net(p), ids) in {P2p, Sequential, IdBased}
    ensures var policy := PolicyFor(isP2p, gatewayId, Net(p), ids);
            var idx := HostIndexes(policy, p.size, gatewayId, nodes, ids);
            && |idx| == |nodes|
            && (forall i | 0 <= i < |idx| :: 1 <= idx[i] <= p.size - 2)
            && (Distinct(idx) <==> (policy == IdBased ==> Distinct(ids)))
            && (gatewayId.GetOr(0) != 0 ==>
                  (GatewayIndex(p.size, gatewayId.value) !in idx <==>
                   (policy == IdBased && gatewayId.value > 0 ==> gatewayId.value !in ids)))
  {
    PowerOfTwoAboveTwo(p.size);
    var policy := PolicyFor(isP2p, gatewayId, Net(p), ids);
    if policy == P2p {
      RanksDistinctAndBounded(nodes);
    }
    assert forall i | 0 <= i < |ids| :: ids[i] in ids;
  }

  /** A prefix of more than two addresses is treated as a host prefix exactly for
      a single node on a link whose gateway ID counts down to the second
      address: the gateway is subtracted before the size is compared with 1. */
  lemma LoopbackOnLargePrefix(isP2p: bool, gatewayId: Option<int>, p: Prefix, ids: seq<int>)
    requires IsPowerOfTwo(p.size) && p.size > 2 && ids != []
    requires isP2p ==> |ids| == 2
    ensures PolicyFor(isP2p, gatewayId, Net(p), ids) == Loopback <==>
            |ids| == 1 && gatewayId == Some(2 - p.size)
  {
    PowerOfTwoAboveTwo(p.size);
  }

  /** A gateway ID of -2 on a prefix of four addresses: the single node ends up
      with the network address as a host prefix, and no check complains. */
  lemma LoopbackOnLargePrefixExample()
    ensures PolicyFor(false, Some(-2), Net(Prefix(16, 4)), [1]) == Loopback
    ensures HostBitsOk(IPv4, Address(16, 1)) && !HostBitsOk(IPv4, Address(16, 4))
  {
  }

  ghost predicate AllDistinctInRange(idx: seq<int>, size: nat) {
    Distinct(idx) && forall i | 0 <= i < |idx| :: 0 <= idx[i] < size
  }

  /** Two-address prefixes (section 2.1 of RFC 3021): numbering works exactly for
      two interfaces, and for one interface unless its node ID is 2. */
  lemma TwoAddressPrefix(isP2p: bool, gatewayId: Option<int>, p: Prefix, nodes: seq<string>, ids: seq<int>)
    requires p.size == 2
    requires WellFormed(isP2p, nodes, ids)
    ensures var policy := PolicyFor(isP2p, gatewayId, Net(p), ids);
            policy in {P2p, Sequential, IdBased} && AllDistinctInRange(HostIndexes(policy, 2, gatewayId, nodes, ids), 2)
            <==> |nodes| == 2 || (|nodes| == 1 && ids[0] != 2)
  {
    RanksDistinctAndBounded(nodes);
    var policy := PolicyFor(isP2p, gatewayId, Net(p), ids);
    if |nodes| == 1 {
      assert AllAtMost(ids, 2) <==> ids[0] <= 2 by {
        assert ids[0] in ids && ids == [ids[0]];
      }
      assert policy == if ids[0] <= 2 then IdBased else Sequential;
      var idx := HostIndexes(policy, 2, gatewayId, nodes, ids);
      assert idx[0] == if ids[0] <= 2 then ids[0] else SequentialIndex(2, gatewayId, 0);
    } else {
      assert ids[0] == ids[1] || ids[0] > 1 || ids[1] > 1;
    }
  }

  /** A gateway with an address in a two-address prefix collides with an
      interface exactly when there are two interfaces, when a node ID is 1 and
      the gateway ID is 1 or -1, or when a single node with an ID above 2 meets
      the gateway ID -2. */
  lemma TwoAddressGatewayCollides(isP2p: bool, gatewayId: Option<int>, p: Prefix, nodes: seq<string>, ids: seq<int>)
    requires p.size == 2
    requires WellFormed(isP2p, nodes, ids)
    requires gatewayId.GetOr(0) != 0 && NthIp(p, gatewayId.value).Some?
    requires PolicyFor(isP2p, gatewayId, Net(p), ids) in {P2p, Sequential, IdBased}
    ensures GatewayIndex(2, gatewayId.value) in HostIndexes(PolicyFor(isP2p, gatewayId, Net(p), ids), 2, gatewayId, nodes, ids) <==>
            || |nodes| == 2
            || (1 in ids && gatewayId != Some(-2))
            || (|nodes| == 1 && ids[0] > 2 && gatewayId == Some(-2))
    ensures |nodes| == 2 ==> PolicyFor(isP2p, gatewayId, Net(p), ids) == P2p
  {
    if |nodes| == 2 {
      RanksDistinctAndBounded(nodes);
      var idx := P2pIndexes(2, nodes);
      assert idx[0] != idx[1];
      assert idx[0] in idx && idx[1] in idx;
    } else {
      assert forall i | 0 <= i < |ids| :: ids[i] in ids;
      if |nodes| == 1 {
        assert HostIndexes(Sequential, 2, gatewayId, nodes, ids) == [0];
      }
    }
  }

  /** One node with ID 1 and a gateway ID of -1: the node gets the address of the
      gateway.  The host-bits check lets it pass; the duplicate-address check
      does not. */
  lemma TwoAddressGatewayExample()
    ensures var policy := PolicyFor(false, Some(-1), Net(Prefix(16, 2)), [1]);
            && policy == IdBased
            && HostIndexes(policy, 2, Some(-1), ["r1"], [1]) == [1]
            && NthIp(Prefix(16, 2), -1) == NthIp(Prefix(16, 2), 1) == Some(17)
            && HostBitsOk(IPv4, Address(17, 2))
            && !NoDuplicate(Some(Address(17, 2)), [Address(17, 2)])
  {
    var addr := [Address(17, 2)];
    assert IsText(addr[0]);
  }

  /** A node attached twice to a link that is numbered by node ID: only the
      duplicate-address check complains. */
  lemma RepeatedNodeExample()
    ensures var p, ids := Prefix(256, 256), [1, 1, 2];
            && PolicyFor(false, None, Net(p), ids) == IdBased
            && (forall i | 0 <= i < 3 :: HostBitsOk(IPv4, AddressesAt(p, ids)[i]))
            && !NoDuplicate(None, AddressesAt(p, ids))
  {
    var addr := AddressesAt(Prefix(256, 256), [1, 1, 2]);
    assert IsText(addr[0]) && IsText(addr[1]) && addr[0] == addr[1];
  }

  /** The text of the gateway address on a link. */
  function GatewayText(gatewayId: Option<int>, p: Prefix): Option<AfValue> {
    if gatewayId.GetOr(0) == 0 then None
    else
      match NthIp(p, gatewayId.value)
      case Some(ip) => Some(Address(ip, p.size))
      case None => None
  }

  /** For numbered interfaces the duplicate-address check passes exactly when no
      index is given twice and none is that of the gateway. */
  lemma DuplicateCheckExact(p: Prefix, gatewayId: Option<int>, idx: seq<int>, addr: seq<AfValue>)
    requires |addr| == |idx|
    requires forall i | 0 <= i < |idx| :: 0 <= idx[i] < p.size && addr[i] == Address(p.base + idx[i], p.size)
    requires GatewayFits(gatewayId, p.size)
    ensures NoDuplicate(GatewayText(gatewayId, p), addr) <==>
            Distinct(idx) && (gatewayId.GetOr(0) != 0 ==> GatewayIndex(p.size, gatewayId.value) !in idx)
  {
    if NoDuplicate(GatewayText(gatewayId, p), addr) {
      forall i, j | 0 <= i < j < |idx| ensures idx[i] != idx[j] {
        assert IsText(addr[i]) && IsText(addr[j]);
      }
      forall i | 0 <= i < |idx| && gatewayId.GetOr(0) != 0 ensures idx[i] != GatewayIndex(p.size, gatewayId.value) {
        assert IsText(addr[i]);
      }
    } else {
      assert forall i | 0 <= i < |idx| :: idx[i] in idx;
    }
  }

  /** A numbering policy is chosen, its indexes lie in the prefix, and the
      duplicate-address check passes. */
  ghost predicate Accepted(isP2p: bool, gatewayId: Option<int>, p: Prefix, nodes: seq<string>, ids: seq<int>)
    requires ids != []
  {
    var policy := PolicyFor(isP2p, gatewayId, Net(p), ids);
    policy in {P2p, Sequential, IdBased} &&
    var idx := HostIndexes(policy, p.size, gatewayId, nodes, ids);
    (forall i | 0 <= i < |idx| :: 0 <= idx[i] < p.size) && NoDuplicate(GatewayText(gatewayId, p), AddressesAt(p, idx))
  }

  /** A two-address link is numbered without an error of any check exactly when it
      has two interfaces and no gateway, or one interface whose node ID is not 2
      and whose gateway, if there is one, is the other address. */
  lemma TwoAddressAccepted(isP2p: bool, gatewayId: Option<int>, p: Prefix, nodes: seq<string>, ids: seq<int>)
    requires p.size == 2
    requires WellFormed(isP2p, nodes, ids) && GatewayFits(gatewayId, p.size)
    ensures Accepted(isP2p, gatewayId, p, nodes, ids) <==>
            || (|nodes| == 2 && gatewayId.GetOr(0) == 0)
            || (|nodes| == 1 && ids[0] != 2
                && (gatewayId.GetOr(0) != 0 ==> if ids[0] == 1 then gatewayId == Some(-2) else gatewayId != Some(-2)))
  {
    var policy := PolicyFor(isP2p, gatewayId, Net(p), ids);
    TwoAddressPrefix(isP2p, gatewayId, p, nodes, ids);
    if policy in {P2p, Sequential, IdBased} {
      var idx := HostIndexes(policy, 2, gatewayId, nodes, ids);
      if forall i | 0 <= i < |idx| :: 0 <= idx[i] < 2 {
        DuplicateCheckExact(p, gatewayId, idx, AddressesAt(p, idx));
      }
      if gatewayId.GetOr(0) != 0 {
        TwoAddressGatewayCollides(isP2p, gatewayId, p, nodes, ids);
        assert |nodes| == 1 ==> ids == [ids[0]];
      }
    }
  }

  function AddressesAt(p: Prefix, idx: seq<int>): seq<AfValue> {
    seq(|idx|, i requires 0 <= i < |idx| => Address(p.base + idx[i], p.size))
  }

  // ----- when numbering succeeds

  /** The gateway ID names an address of the prefix. */
  predicate GatewayFits(gatewayId: Option<int>, size: nat) {
    gatewayId.GetOr(0) != 0 ==> -gatewayId.value <= size && gatewayId.value < size
  }

  /** An address block that starts at a multiple of its size, outside the
      multicast range. */
  predicate ProperBlock(af: AddressFamily, p: Prefix) {
    p.size > 0 && p.base % p.size == 0 && forall ip | p.base <= ip < p.base + p.size :: !IsMulticast(af, ip)
  }

  /** Without static addresses a numbering policy reports nothing. */
  lemma NumberingSucceeds(af: AddressFamily, p: Prefix, idx: seq<int>, before: seq<AfValue>, addr: seq<AfValue>)
    requires ProperBlock(af, p) && p.size > 2
    requires |before| == |idx| == |addr| && forall i | 0 <= i < |idx| :: before[i] == Unset && 1 <= idx[i] <= p.size - 2
    requires forall i | 0 <= i < |idx| :: addr[i] == SetAddress(before[i], p, idx[i]).0
    ensures AllSet(before, p, idx)
    ensures forall i | 0 <= i < |addr| :: HostBitsOk(af, addr[i])
  {
    forall i | 0 <= i < |addr| ensures HostBitsOk(af, addr[i]) {
      OffsetInBlock(p.base, p.size, idx[i]);
    }
  }
}
