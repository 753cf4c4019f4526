/** Interface indexes of a node and the MAC addresses derived from node IDs and
    interface indexes (netsim/augment/links.py, netsim/augment/nodes.py). */
module InterfaceIndexes {
  import opened Options

  /** Virtual interfaces carry their position in VIRTUAL_INTERFACE_TYPES:
      loopback, tunnel, lag, svi. */
  datatype Kind = Regular | Virtual(slot: nat) {
    predicate Valid() {
      Virtual? ==> slot < 4
    }
  }

  datatype Interface = Interface(kind: Kind, ifindex: int, auto: bool)

  /** The loopback offset is the only device-specific one that is used: for the
      other virtual types the conditional expression yields 0. */
  function FirstIfindex(kind: Kind, ifindexOffset: Option<int>, loopbackOffset: Option<int>): int {
    match kind
    case Regular => ifindexOffset.GetOr(1)
    case Virtual(slot) =>
      (slot + 1) * 10000 + (if slot != 0 then 0 else if loopbackOffset.GetOr(0) == 0 then 1 else loopbackOffset.value)
  }

  predicate SmallOffsets(ifindexOffset: Option<int>, loopbackOffset: Option<int>) {
    0 <= ifindexOffset.GetOr(1) <= 9000 && 0 <= loopbackOffset.GetOr(0) <= 9000
  }

  class Node {
    const ifindexOffset: Option<int>
    const loopbackOffset: Option<int>
    var interfaces: seq<Interface>

    constructor (ifindexOffset: Option<int>, loopbackOffset: Option<int>)
      ensures this.ifindexOffset == ifindexOffset && this.loopbackOffset == loopbackOffset && interfaces == []
      ensures AutoIndexesDistinct()
    {
      this.ifindexOffset, this.loopbackOffset := ifindexOffset, loopbackOffset;
      interfaces := [];
    }

    function First(kind: Kind): int {
      FirstIfindex(kind, ifindexOffset, loopbackOffset)
    }

    ghost predicate Used(kind: Kind, ifindex: int)
      reads this
    {
      exists i :: 0 <= i < |interfaces| && interfaces[i].kind == kind && interfaces[i].ifindex == ifindex
    }

    /** get_unique_ifindex: the first of 1000 indexes no interface of the kind
        has; without one, an error and a value to keep going. */
    method GetUniqueIfindex(kind: Kind) returns (ifindex: int, ok: bool)
      ensures ok ==>
                && First(kind) <= ifindex < First(kind) + 1000
                && !Used(kind, ifindex)
                && forall j | First(kind) <= j < ifindex :: Used(kind, j)
      ensures !ok ==>
                && ifindex == First(kind) + |interfaces| + 1
                && forall j | First(kind) <= j < First(kind) + 1000 :: Used(kind, j)
      ensures interfaces == [] ==> ok && ifindex == First(kind)
    {
      ifindex := First(kind);
      while ifindex < First(kind) + 1000
        invariant First(kind) <= ifindex <= First(kind) + 1000
        invariant interfaces == [] ==> ifindex == First(kind)
        invariant forall j | First(kind) <= j < ifindex :: Used(kind, j)
      {
        var used := IsUsed(kind, ifindex);
        if !used {
          return ifindex, true;
        }
        ifindex := ifindex + 1;
      }
      return First(kind) + |interfaces| + 1, false;
    }

    method IsUsed(kind: Kind, ifindex: int) returns (used: bool)
      ensures used <==> Used(kind, ifindex)
    {
      for i := 0 to |interfaces|
        invariant forall j | 0 <= j < i :: !(interfaces[j].kind == kind && interfaces[j].ifindex == ifindex)
      {
        if interfaces[i].kind == kind && interfaces[i].ifindex == ifindex {
          return true;
        }
      }
      return false;
    }

    /** The index ranges of two kinds never meet. */
    predicate OffsetsFit() {
      SmallOffsets(ifindexOffset, loopbackOffset)
    }

    ghost predicate AutoIndexesDistinct()
      reads this
    {
      && (forall i | 0 <= i < |interfaces| && interfaces[i].auto ::
            && interfaces[i].kind.Valid()
            && First(interfaces[i].kind) <= interfaces[i].ifindex < First(interfaces[i].kind) + 1000)
      && (forall i, j | 0 <= i < j < |interfaces| && interfaces[i].auto && interfaces[j].auto ::
            interfaces[i].ifindex != interfaces[j].ifindex)
    }

    /** create_regular_interface and create_virtual_interface: an index given by
        the user is taken as it is (a regular one below the device offset is
        reported), any other is assigned. */
    method AddInterface(kind: Kind, ifindex: Option<int>) returns (ok: bool)
      requires kind.Valid()
      modifies this`interfaces
      ensures |interfaces| == |old(interfaces)| + 1 && interfaces[..|old(interfaces)|] == old(interfaces)
      ensures var added := interfaces[|old(interfaces)|];
              && added.kind == kind && added.auto == ifindex.None?
              && (ifindex.Some? ==> added.ifindex == ifindex.value && (ok <==> kind.Virtual? || ifindex.value >= First(kind)))
              && (ifindex.None? && ok ==> !old(Used(kind, added.ifindex)))
      ensures ok && OffsetsFit() && old(AutoIndexesDistinct()) ==> AutoIndexesDistinct()
    {
      var index;
      if ifindex.Some? {
        index := ifindex.value;
        ok := kind.Virtual? || index >= First(kind);
      } else {
        index, ok := GetUniqueIfindex(kind);
      }
      ghost var before := interfaces;
      interfaces := interfaces + [Interface(kind, index, ifindex.None?)];
      if ok && OffsetsFit() && old(AutoIndexesDistinct()) && ifindex.None? {
        forall i | 0 <= i < |before| && before[i].auto ensures before[i].ifindex != index {
          assert old(interfaces)[i] == before[i];
          if before[i].kind != kind {
            KindsApart(before[i].kind, kind, ifindexOffset, loopbackOffset, before[i].ifindex);
          }
        }
      }
    }
  }

  /** Indexes assigned to interfaces of different kinds come from ranges of 1000
      that do not overlap. */
  lemma KindsApart(a: Kind, b: Kind, ifindexOffset: Option<int>, loopbackOffset: Option<int>, x: int)
    requires a != b && a.Valid() && b.Valid()
    requires SmallOffsets(ifindexOffset, loopbackOffset)
    requires 0 <= x - FirstIfindex(a, ifindexOffset, loopbackOffset) < 1000
    ensures !(0 <= x - FirstIfindex(b, ifindexOffset, loopbackOffset) < 1000)
  {
    match (a, b)
    case (Virtual(s), Virtual(t)) => assert s < t || t < s;
    case _ =>
  }

  /** Where the indexes of each kind start. */
  lemma FirstIndexExact(offset: int, loopbackOffset: int)
    ensures FirstIfindex(Regular, None, None) == 1
    ensures FirstIfindex(Regular, Some(offset), None) == offset
    ensures FirstIfindex(Virtual(0), None, None) == 10001
    ensures loopbackOffset != 0 ==> FirstIfindex(Virtual(0), None, Some(loopbackOffset)) == 10000 + loopbackOffset
    ensures FirstIfindex(Virtual(1), None, None) == 20000
    ensures FirstIfindex(Virtual(2), None, None) == 30000
    ensures FirstIfindex(Virtual(3), None, None) == 40000
  {
  }

  // ----- MAC addresses

  const MAC_WORD: int := 0x1_0000
  const SECOND_BYTE: int := 0x1_0000_0000

  /** generate_interface_mac: the low nibble of the second byte becomes the
      interface type, node ID and index are added to the lower four bytes. */
  function InterfaceMac(pool: nat, id: nat, ifindex: nat): int {
    var second := pool / SECOND_BYTE % 256;
    pool - (second % 16) * SECOND_BYTE + (ifindex / 10000) * SECOND_BYTE + id * MAC_WORD + ifindex % 10000
  }

  /** augment_mgmt_if: IDs below 256 go into the fourth octet, larger IDs are
      added to the base address. */
  function ManagementMac(pool: nat, id: nat): int {
    pool + id * if id < 256 then MAC_WORD else 1
  }

  lemma InterfaceMacSeparates(pool: nat, id: nat, ifindex: nat, id': nat, ifindex': nat)
    requires 1 <= id <= MAC_WORD && 1 <= id' <= MAC_WORD
    requires InterfaceMac(pool, id, ifindex) == InterfaceMac(pool, id', ifindex')
    ensures id == id' && ifindex == ifindex'
  {
    assert -SECOND_BYTE < (id' - id) * MAC_WORD + ifindex' % 10000 - ifindex % 10000 < SECOND_BYTE;
    assert ifindex / 10000 == ifindex' / 10000;
  }

  /** Interface MAC addresses determine node ID and index exactly as long as no
      node ID exceeds 65536. */
  lemma InterfaceMacInjective(pool: nat, maxId: nat)
    ensures (forall id: nat, ifindex: nat, id': nat, ifindex': nat
               | 1 <= id <= maxId && 1 <= id' <= maxId && InterfaceMac(pool, id, ifindex) == InterfaceMac(pool, id', ifindex') ::
               id == id' && ifindex == ifindex')
            <==> maxId <= MAC_WORD
  {
    if maxId <= MAC_WORD {
      forall id: nat, ifindex: nat, id': nat, ifindex': nat
        | 1 <= id <= maxId && 1 <= id' <= maxId && InterfaceMac(pool, id, ifindex) == InterfaceMac(pool, id', ifindex')
        ensures id == id' && ifindex == ifindex'
      {
        InterfaceMacSeparates(pool, id, ifindex, id', ifindex');
      }
    } else {
      assert InterfaceMac(pool, 1, 10000) == InterfaceMac(pool, MAC_WORD + 1, 0);
    }
  }

  /** Management MAC addresses are pairwise distinct up to a largest node ID
      exactly when that ID stays below 65536. */
  lemma ManagementMacInjective(pool: nat, maxId: nat)
    ensures (forall id: nat, id': nat | 1 <= id < id' <= maxId :: ManagementMac(pool, id) != ManagementMac(pool, id'))
            <==> maxId < MAC_WORD
  {
    if maxId >= MAC_WORD {
      assert ManagementMac(pool, 1) == ManagementMac(pool, MAC_WORD);
    }
  }

  /** The parts of an interface MAC made from a base address that ends in zeros:
      the interface type in the low half of the second byte, then the node ID and
      the index within the type, two bytes each; the rest is that of the base. */
  lemma InterfaceMacParts(oui: nat, id: nat, ifindex: nat)
    requires id < MAC_WORD && ifindex < 160000
    ensures var mac := InterfaceMac(oui * SECOND_BYTE, id, ifindex);
            mac == (oui - oui % 16 + ifindex / 10000) * SECOND_BYTE + id * MAC_WORD + ifindex % 10000
  {
    var pool := oui * SECOND_BYTE;
    assert pool / SECOND_BYTE == oui;
    assert oui % 256 % 16 == oui % 16;
  }

  /** The parts of a management MAC: the ID in the fourth byte of a base address
      that ends in zeros, or, from 256 on, in its last two bytes. */
  lemma ManagementMacParts(base: nat, id: nat)
    requires base % 0x100_0000 == 0 && id < MAC_WORD
    ensures ManagementMac(base, id) - base == if id < 256 then id * MAC_WORD else id
  {
  }
}
