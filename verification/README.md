# A verified model of netlab's topology transformation

netlab turns a short lab topology into a complete data model: node identifiers,
prefixes and interface addresses, group settings, device data, routing-policy
sets and BGP sessions.  This project models the parts of that transformation
that carry state or that several functions have to agree on, and proves what
they promise together.  One module stands for one component:

| module | part of netlab |
|---|---|
| `NodeIds`, `AddressPools`, `Ipam`, `AddressPlan` | node IDs around static and gateway IDs, lazy subnet pools with a cache, the choice of an allocation policy and the loops that number interfaces, and the three stages composed |
| `InterfaceIndexes` | interface indexes and the MAC addresses made of node IDs and indexes |
| `Groups`, `GroupLevels`, `GroupSettings`, `Components` | recursive-group detection, the bottom-up order of groups, recursive membership, templates and devices taken from groups, components included as nested groups |
| `Boxes`, `DeviceInheritance`, `AttributeMerge`, `InheritanceChain` | deep merge of dictionaries, parent/child devices, attributes inherited around removal markers |
| `RoutingLists`, `PrefixLists`, `ArcosLists`, `XrSets`, `XrCollisions` | first-match permit/deny lists turned into unordered sets on ArcOS and IOS XR |
| `IbgpSessions`, `RouterIds`, `EbgpSessions` | iBGP sessions and route reflection (section 6 of RFC 4456), eBGP sessions with local AS numbers and confederations (section 4 of RFC 5065) |
| `ApiJobs` | the job protocol of the API server, over all interleavings of its threads |

`Graphs`, `Names`, `Sequences`, `Arithmetic` and `Options` hold shared vocabulary:
walks and cycles in finite graphs, the order of Python strings, distinct sequences,
multiples and powers of two.
Classes stand for objects the program updates in place; each method is proved
against a function of the old state, and the theorems are about those functions.

## Results at a glance

* **Address plan.**  A run without errors leaves no interface with the address of
  any gateway and, with the duplicate-address warning on as it is by default, no
  two interfaces of the lab with the same address.  It succeeds exactly when there
  are enough IDs and subnets, every link fits into its prefix and, with the
  warning on, no link numbered by node ID attaches a node twice
  (`AddressPlan.BuildAddressPlan`, over `Ipam.HostIndexesSound`,
  `AddressPools.RunKeepsInvariant` and `NodeIds.AssignedIdsDistinct`).
* **Interface addresses.**  Without policies and loops: node IDs where they are all
  host addresses, otherwise the free host addresses in order, by name on p2p links,
  and an error exactly when there are too few (`Ipam.Link.AssignInterfaceAddresses`).
* **Groups.**  The recursion check reports an error if and only if membership has
  a cycle; without one the bottom-up order lists every group once, after all
  groups it contains and otherwise by level and name, recursive membership is
  reachability, templates of an
  enclosing group precede those of a nested one, and a nested group's device wins.
* **Components.**  The members of the group made for an include, at any depth, are
  the created nodes plus what clashes of names bring in, which is stated exactly.
* **Inheritance.**  Device inheritance ends on any table; without circular parents
  the outcome is the recursive definition, whatever the order of devices.  Merging
  an interface over a link and walking the inheritance chain agree exactly under
  one stated condition.
* **Routing lists.**  The ArcOS and IOS XR rewrites keep the first-match meaning of
  accepted lists; exact conditions say which lists of prefixes and communities can
  lose their order.
* **BGP.**  iBGP neighbor selection is symmetric; every route reaches every speaker
  of an AS exactly when no two reflectors both opt out of the mesh; the eBGP
  views of two ends mirror each other exactly when their AS numbers fit.
* **Jobs.**  A queued job can be canceled and then never executes, final states are
  final, actions exclude each other and the working directory is restored, in every
  interleaving.

Places where the code does not do what one would expect, each with its exact
condition:

* a single node and a gateway ID of 2 - size get a host prefix
  (`Ipam.LoopbackOnLargePrefix`, `Ipam.LoopbackOnLargePrefixExample`);
* /31 links can run out of the prefix or give an interface the address of the
  gateway, which the code reports unless its duplicate-address check is off
  (`Ipam.TwoAddressPrefix`, `Ipam.TwoAddressGatewayCollides`,
  `Ipam.TwoAddressAccepted`, `Ipam.TwoAddressGatewayExample`);
* a node attached twice to a link numbered by node ID gets one address twice, which
  the code reports unless that check is off (`AddressPlan.PlanHasNoDuplicates`,
  `Ipam.RepeatedNodeExample`);
* nodes and groups with the same name mix up the group of an include
  (`Components.MembersAreCreated`, `Components.NameClashLab`);
* a denial behind the catch-all of a community list gets lost
  (`ArcosLists.AcceptedCommunityListExact`, `ArcosLists.LateDenialVisible`), and
  the checks of prefix lists refuse or warn too often (`ArcosLists.FlatSetExact`,
  `ArcosLists.RefusalIsConservative`, `PrefixLists.PrefixSplitExact`,
  `PrefixLists.WarningIsConservative`);
* generated names of lists can be those of other lists: references then change
  their meaning or name a list that is gone (`XrCollisions.ReferenceExact`,
  `XrCollisions.DanglingExact`, `XrCollisions.DenyNameCollision`);
* a local AS number meeting a confederation can make the ends of an eBGP session
  disagree (`EbgpSessions.ViewsMirrorExactly`, `EbgpSessions.MixedMechanismsDisagree`);
* a name that is removed and still a key can make a merge depend on key order
  (`AttributeMerge.OrderIrrelevantExactly`, `AttributeMerge.OrderMattersExample`);
* SystemExit leaves a job running (`ApiJobs.FinishedJobs`);
* management MAC addresses of IDs 1 and 65536 collide
  (`InterfaceIndexes.ManagementMacInjective`).

The documentation of `bgp.rr_cluster_id` (docs/module/bgp.md:214) promises the
lowest router ID; the code takes the minimum of strings, and the model follows the
code.  `IbgpSessions.ClusterIsLowest` says exactly when the two agree, and
`IbgpSessions.LowestRouterIdPassedOver` shows that "10.0.0.10" is chosen over
"10.0.0.9".

## Model

| member | source | states |
|---|---|---|
| NodeIds.IdVar.ReserveId | netsim/augment/nodes.py:26-31 | reserving an ID succeeds exactly when it is free, and the ID is in use afterwards either way |
| NodeIds.IdVar.GetNextId | netsim/modules/_dataplane.py:91-114 | the result is the least unused ID at or above the counter and is marked used; the allocator fails only when every ID from the counter to the maximum is used; the starting value itself is not range-checked |
| NodeIds.ReserveGatewayIds | netsim/modules/gateway.py:120-180 | exactly the non-negative gateway IDs of the global, link and VLAN settings become reserved |
| NodeIds.AssignMissingIds | netsim/augment/nodes.py:584-587 | the k-th node without an ID gets the k-th smallest free identifier; it fails exactly when there are fewer free identifiers than such nodes |
| NodeIds.AssignNodeIds | netsim/augment/nodes.py:570-587 | both passes succeed exactly when static IDs are in range, distinct and not reserved and enough free IDs are left; then static IDs stay and the k-th other node has the k-th smallest ID outside static and reserved ones |
| NodeIds.AssignedIdsDistinct | netsim/augment/nodes.py:573-587 | all final node IDs are distinct, in 1..max, and none is a reserved gateway ID |
| AddressPools.SubnetPool.constructor | netsim/augment/addressing.py:214-229 | a new pool has 2^(plen - poolLen) subnets, an empty cache, and the first subnet thrown away for host-prefix and loopback pools |
| AddressPools.FirstSubnetSkipped | netsim/augment/addressing.py:225-226 | which pools throw away their first subnet |
| AddressPools.SubnetPool.NthSubnet | netsim/augment/addressing.py:242-245 | the loop that fills the cache refines the one-step specification of a request, also when the generator runs dry on the way |
| AddressPools.SubnetPool.GetPrefix | netsim/augment/addressing.py:247-275 | one request (n-th or next) takes the pool to the state, and gives the answer, of the request specification |
| AddressPools.RunKeepsInvariant | netsim/augment/addressing.py:247-279 | after every interleaving of n-th and next requests each generated subnet is in the cache or was handed out by "next", never both; the cache has no repeats and still holds the answer to every n-th request, and no two next requests got the same subnet |
| AddressPools.SubnetsSharedOnlyByEqualN | netsim/augment/addressing.py:247-279 | in any run two answers name the same subnet if and only if both answer an n-th request with the same n |
| AddressPools.FailureMeansExhausted | netsim/augment/addressing.py:262-275 | a request fails only when every subnet of the pool is cached or handed out |
| AddressPools.NthOnlyClosedForm | netsim/augment/addressing.py:242-263 | with n-th requests only, the answer is subnet skip + n - 1 whatever was asked before, and fails exactly beyond the pool |
| AddressPools.SubnetsDisjoint | netsim/augment/addressing.py:224-224 | an address lies in one subnet of a pool at most |
| AddressPools.AssignLoopbacks | netsim/augment/nodes.py:306-325 | every node gets the loopback address of its ID in closed form, independent of node order |
| AddressPools.LoopbackExact | netsim/augment/nodes.py:306-325 | node id gets base + id from a loopback pool of host prefixes, and the first host address of subnet id from one of larger prefixes |
| AddressPools.LoopbacksDistinct | netsim/augment/nodes.py:306-325 | equal loopback addresses mean equal node IDs |
| Ipam.Link.SetFhrpGateway | netsim/augment/links.py:467-487 | a non-zero gateway ID becomes the address at that index, counted from the end when negative, or an error outside the prefix; otherwise nothing changes |
| Ipam.StableOrder | netsim/augment/links.py:732-732 | interfaces come sorted by node name, equal names in link order |
| Ipam.Link.IpamSequential | netsim/augment/links.py:718-727 | the moving start gives interface i the index i plus first index, one more from the gateway index on, and the result tells whether every index fits |
| Ipam.Link.IpamP2p | netsim/augment/links.py:729-735 | each interface is numbered by its rank among the node names |
| Ipam.Link.IpamIdBased | netsim/augment/links.py:737-742 | each interface is numbered by the ID of its node |
| Ipam.Link.IpamLoopback | netsim/augment/links.py:744-749 | every interface has the network address as a host prefix, static addresses included |
| Ipam.Link.IpamUnnumbered | netsim/augment/links.py:699-716 | interfaces without an address take the boolean of the prefix or, without one, the use of the address family on the loopback of the node (IPv6 is enabled on nodes without loopback); a host index is an error |
| Ipam.UnnumberedExact | netsim/augment/links.py:699-716 | which boolean an unnumbered interface gets, from the prefix, the loopback of the node, or the address family |
| Ipam.Link.AssignInterfaceAddresses | netsim/augment/links.py:767-839 | for one address family: on a link without static addresses and explicit policy the addresses are by node name on p2p links without a gateway, the node IDs where all of them are host addresses, and the free host addresses in order otherwise, with an error exactly when there are too few; explicit policies and static addresses get what their loop gives; numbering succeeds exactly when every address could be set and none is a multicast, network or broadcast address |
| Ipam.AddressesByDesign | netsim/augment/links.py:573-604 | the policies and their host indexes amount to those addresses, for prefixes of every size, and the error policy to too little room |
| Ipam.SequentialIndexExact | netsim/augment/links.py:718-727 | the k-th sequential index is the k-th one from the first that is not the gateway ID |
| Ipam.StaticAddressExact | netsim/augment/links.py:658-690 | a static host index counts from the start of the prefix or, when negative, from its end, and fails outside; a static address keeps its IP |
| Ipam.CheckHostBits | netsim/augment/links.py:610-653 | the check fails exactly when some address is a multicast one, or the first or last one of a prefix of more than two addresses |
| Ipam.HostBitsExact | netsim/augment/links.py:626-651 | in blocks that are not multicast the check rejects exactly the first and last address of prefixes of more than two |
| Ipam.MulticastExact | netsim/augment/links.py:620-626 | the multicast ranges are 224.0.0.0/4 and ff00::/8 |
| Ipam.CheckDuplicateAddress | netsim/augment/links.py:1307-1330 | for one address family, an error is reported if and only if two interfaces, or an interface and the gateway, have the same address text |
| Ipam.HostIndexesSound | netsim/augment/links.py:573-604 | whenever a prefix of more than two addresses gets a numbering policy, all indexes are in 1..N-2; they are distinct unless ID-based numbering sees an ID twice, and avoid the gateway unless an ID equals it |
| Ipam.LoopbackOnLargePrefix | netsim/augment/links.py:585-597 | a prefix of N > 2 addresses gets the loopback policy if and only if there is one interface and the gateway ID is 2 - N |
| Ipam.LoopbackOnLargePrefixExample | netsim/augment/links.py:585-597 | a /30 with gateway ID -2 and one node selects the loopback policy; the network address passes the host-bits check as a host prefix and would not as part of the /30 |
| Ipam.TwoAddressPrefix | netsim/augment/links.py:592-604 | on /31 prefixes (section 2.1 of RFC 3021) numbering gives distinct indexes inside the prefix if and only if there are two interfaces, or one whose node ID is not 2 |
| Ipam.TwoAddressGatewayCollides | netsim/augment/links.py:585-604 | in a two-address prefix the gateway has the address of an interface if and only if there are two interfaces, or a node ID is 1 and the gateway ID 1 or -1, or a single node has an ID above 2 and the gateway ID is -2 |
| Ipam.TwoAddressGatewayExample | netsim/augment/links.py:585-604 | one node with ID 1 and gateway ID -1 on a /31: the node gets the address of the gateway, which the host-bits check lets pass and the duplicate-address check reports |
| Ipam.TwoAddressAccepted | netsim/augment/links.py:592-604 | a two-address link is numbered inside the prefix and passes the duplicate-address check if and only if it has two interfaces and no gateway, or one interface whose node ID is not 2 and whose gateway, if any, is the other address |
| Ipam.NumberingSucceeds | netsim/augment/links.py:658-690 | on a block that starts at a multiple of its size and is not multicast, indexes inside 1..N-2 never fail to be set and never fail the host-bits check |
| Ipam.DuplicateCheckExact | netsim/augment/links.py:1307-1330 | for numbered interfaces that check passes if and only if no host index repeats and none is that of the gateway |
| Ipam.RepeatedNodeExample | netsim/augment/links.py:737-742 | a LAN that attaches one node twice: the host-bits check stays silent, the duplicate-address check reports it |
| AddressPlan.PlaceLink | netsim/augment/links.py:1440-1448 | a link with a prefix is placed without errors exactly when some policy fits, the gateway lies inside and, with the duplicate-address warning on, node-based numbering sees each node once; then its addresses lie in the prefix and avoid the gateway |
| AddressPlan.TransformLink | netsim/augment/links.py:1432-1448 | a link takes one subnet and works exactly when there is one and the link can be placed in it |
| AddressPlan.TransformLinks | netsim/augment/links.py:1426-1448 | the k-th link is placed in the k-th subnet after the first, and there is no error if and only if every link has a subnet and can be placed in it; without errors gateways are avoided, and with the duplicate-address warning on all addresses of all links differ |
| AddressPlan.PlanHasNoDuplicates | netsim/augment/links.py:1426-1448 | over all links no interface has a gateway address; interface addresses are pairwise distinct when duplicates were looked for, and otherwise if and only if every link numbered by node ID attaches each node once |
| AddressPlan.NumberNodes | netsim/augment/nodes.py:570-587 | numbering works exactly when the static IDs are in range, distinct and not reserved and enough IDs are left; then node IDs are positive, distinct and none is a gateway ID |
| AddressPlan.BuildAddressPlan | netsim/augment/links.py:509-604 | the whole pipeline from static IDs and gateway IDs to addresses: it succeeds if and only if there are enough IDs and subnets and every link can be placed; then gateways are avoided, and with the duplicate-address warning on (the default) all interface addresses are pairwise distinct without further condition |
| InterfaceIndexes.Node.GetUniqueIfindex | netsim/augment/links.py:282-302 | the least free index of 1000, or an error when all are used by interfaces of the kind |
| InterfaceIndexes.FirstIndexExact | netsim/augment/links.py:327-333 | without device offsets indexes start at 1 for regular interfaces, 10001 for loopbacks, and 20000, 30000 and 40000 for tunnels, LAGs and SVIs |
| InterfaceIndexes.Node.AddInterface | netsim/augment/links.py:326-396 | adding an interface keeps: all automatically assigned indexes of a node, regular and virtual, are pairwise distinct |
| InterfaceIndexes.InterfaceMacInjective | netsim/augment/links.py:311-315 | the interface MAC is injective in node ID and index if and only if no ID exceeds 65536 |
| InterfaceIndexes.InterfaceMacParts | netsim/augment/links.py:311-315 | interface type, node ID and index sit in the second byte, the middle two and the last two bytes of the MAC |
| InterfaceIndexes.ManagementMacInjective | netsim/augment/nodes.py:142-144 | management MACs are distinct if and only if all IDs are below 65536 |
| InterfaceIndexes.ManagementMacParts | netsim/augment/nodes.py:142-144 | the node ID sits in the fourth byte of the management MAC, and from 256 on in its last two |
| Groups.CheckRecursiveChain | netsim/augment/groups.py:429-445 | the recursion ends on cyclic hierarchies; not finding a chain means the group reaches nothing on the chain |
| Groups.CheckRecursiveGroups | netsim/augment/groups.py:447-452 | an error is reported if and only if the membership graph has a cycle |
| Groups.ReverseTopsort | netsim/augment/groups.py:454-472 | the loop with removal ends on every acyclic hierarchy and returns the specified order |
| Groups.ReachedGroupsFirst | netsim/augment/groups.py:454-472 | member groups of any depth come before the groups that contain them |
| Groups.GroupOrderProperties | netsim/augment/groups.py:454-472 | the order all consumers use lists every group exactly once, and every group after all groups reachable from it |
| GroupLevels.GroupOrderExact | netsim/augment/groups.py:462-470 | the order is by level and then by name, where the level of a group is the least that is not below any group it contains, and above those that come later in the alphabet |
| Groups.GroupMembers | netsim/augment/groups.py:36-68 | the accumulating loop returns the specified list of members |
| Groups.MembersExact | netsim/augment/groups.py:36-68 | an object is returned if and only if the group, or a group reachable through followed memberships, lists it |
| GroupSettings.CollectIsBlocks | netsim/augment/groups.py:764-780 | phase 1 lays the template lists of a node's groups one after the other with the node's own last |
| GroupSettings.TemplatesExact | netsim/augment/groups.py:764-780 | the templates of a node before cleanup are its own and those of the groups that contain it at any depth, "all" containing every node |
| GroupSettings.EnclosingGroupFirst | netsim/augment/groups.py:754-780 | templates of a group precede those of any group nested in it, at any depth |
| GroupSettings.ProcessRemovals | netsim/augment/groups.py:799-806 | phase 2 keeps, in order, exactly the elements that are no removal and are followed by neither "-" nor "-" and their own name |
| GroupSettings.Lab.NodeConfigTemplates | netsim/augment/groups.py:750-811 | every node ends with the survivors of the collected list, nodes without any lose the attribute, groups lose theirs |
| GroupSettings.Lab.CopyGroupDevices | netsim/augment/groups.py:477-502 | a node keeps its own device or gets that of the first group in the order; an error exactly when a group with a device has no members and is no default group |
| GroupSettings.NestedDeviceWins | netsim/augment/groups.py:477-502 | a device set on a nested group is never overridden by an enclosing group |
| GroupSettings.DeviceExact | netsim/augment/groups.py:477-502 | a node without a device gets that of a group that contains it at any depth, and none exactly when no such group has one |
| Components.Builder.ExpandInclude | netsim/augment/components.py:153-161 | without errors an include adds exactly the created nodes and leaves the complete group structure of the expansion; existing nodes and groups stay |
| Components.Builder.ExpandComponents | netsim/augment/components.py:187-206 | without errors every include request of the topology is expanded and none is left |
| Components.EntryMembersExact | netsim/augment/components.py:138-142 | a member of the created group stands for what its component entry added, in every lab |
| Components.MembersOfInclude | netsim/augment/components.py:128-161 | in every lab the recursive members of group inc_X are the nodes created by expanding X, the nested groups that are also names of nodes, and the members of groups that have the name of a created node |
| Components.MembersAreCreated | netsim/augment/components.py:88-161 | the members are exactly the created nodes, at any depth, if and only if every nested group that is a node name, and every member of a group named like a created node, is a created node |
| Components.DisjointNamesHarmless | netsim/augment/components.py:88-161 | in particular when no node has the name of a group |
| Components.NameClashLab | netsim/augment/components.py:128-142 | a concrete lab in which both kinds of name clash bring nodes into the group that the expansion did not create |
| Boxes.LookupMerge | netsim/augment/devices.py:221-221 | the value of left + right at any path: the right value, merged over the left when both are dictionaries, the left one where the right has nothing and nothing in the way |
| Boxes.LookupPrune | netsim/data/__init__.py:121-126 | pruning removes exactly the null values of nested dictionaries |
| Boxes.AppendedExact | netsim/data/__init__.py:48-61 | the item is listed, once if it was not there; what was listed stays in order, a scalar becomes a list, all else is as before |
| Boxes.RemoveNullValues | netsim/data/__init__.py:121-126 | the loop with recursion gives the pruned dictionary for every order of the keys |
| DeviceInheritance.DeviceTable.ProcessChildDevice | netsim/augment/devices.py:207-224 | the recursion ends on circular parents too, never adds a parent attribute, and, without circular parents, finishes the device as the recursive definition says while other devices stay untouched or finished |
| DeviceInheritance.DeviceTable.ProcessDeviceInheritance | netsim/augment/devices.py:226-229 | no parent attribute is left on any table; without circular parents the table equals the recursive definition for every iteration order |
| DeviceInheritance.ParentsRootFirst | netsim/augment/devices.py:222-222 | _parents lists the ancestors of a device, root first |
| DeviceInheritance.NearestDefinition | netsim/augment/devices.py:215-224 | every setting of a child is its own, or none when it is null, or that of the finished parent, dictionaries merged |
| DeviceInheritance.NotInherited | netsim/augment/devices.py:217-221 | template, _meta_device, docname and docparent come from the child's own definition alone |
| AttributeMerge.RemovedAttributes | netsim/data/__init__.py:66-78 | the walk along the path finds a removal marker exactly when some prefix of the path is marked |
| AttributeMerge.RemovedExact | netsim/data/__init__.py:66-78 | a path is removed if and only if one of its elements is listed as removed in the box in which it would be found |
| AttributeMerge.MergeWithRemovedAttributes | netsim/data/__init__.py:83-94 | the recursive loop computes the specified merge for every key order, although the list of removed names may be copied half-way |
| AttributeMerge.MergeIsOverlay | netsim/data/__init__.py:83-94 | for an order-free pair of boxes the merge is the same for every key order: own values, then those not removed, boxes merged |
| AttributeMerge.OrderIrrelevantExactly | netsim/data/__init__.py:83-94 | all key orders give the same merge if and only if, at every depth, whatever is removed only once the list of removed names has been copied has nothing to add to the target |
| AttributeMerge.OrderMattersExample | netsim/data/__init__.py:84-92 | a dictionary that is removed and still a key, present on both sides: the order of the keys matters |
| AttributeMerge.LookupOverlay | netsim/data/__init__.py:83-94 | at any path the merge yields the interface value (dictionaries merged), nothing if the path was removed or runs into a value, the link value otherwise |
| AttributeMerge.FalseValues | netsim/modules/__init__.py:469-470 | the values that the walk skips: null, the empty string, zero, false, and empty lists and dictionaries |
| AttributeMerge.GetEffectiveModuleAttribute | netsim/modules/__init__.py:453-478 | the loop over the chain computes the specified walk, skipping missing objects and false values and stopping at a removal |
| InheritanceChain.FirstUsableValue | netsim/modules/__init__.py:463-478 | for chains of any length, without merging: the true value of the first present object that has one, as long as no present object up to it has the path removed; nothing if there is none |
| InheritanceChain.UsableValuesMerged | netsim/modules/__init__.py:463-478 | with merging: the first plain value among those usable values, or all their dictionaries merged with the first one on top |
| InheritanceChain.MergeAllIsOverlay | netsim/modules/__init__.py:473-476 | the merged dictionaries are their overlay when none lists a removed name that it still has |
| InheritanceChain.MissingSkipped | netsim/modules/__init__.py:464-465 | an object that is not supplied makes no difference, anywhere in a chain and with or without merging |
| AttributeMerge.MergeAgreesWithChain | netsim/modules/__init__.py:453-478 | merging first and walking the chain give the same value if and only if values agree in kind along the path and none that matters is false |
| RoutingLists.UnshadowedIsPermit | netsim/devices/arcos.py:76-86 | if no matching deny entry precedes a matching permit entry, first match means that some permit entry matches |
| RoutingLists.OrderedSplits | netsim/devices/iosxr.py:28-29 | with all deny entries in front, first match means no deny and some permit entry |
| RoutingLists.SplitExact | netsim/devices/iosxr.py:21-39 | for lists without repeated conditions the split is faithful for every way the conditions could match if and only if no deny follows a permit |
| RoutingLists.SplitExactAt | netsim/devices/iosxr.py:21-39 | for one way of matching, first match equals the two-set reading if and only if every permit entry that matches together with a later denial comes after a matching denial |
| RoutingLists.FlatExactAt | netsim/devices/arcos.py:76-86 | first match means that some permit entry matches if and only if every denial that matches together with a later permit entry comes after a matching permit entry |
| PrefixLists.CondsMeetExact | netsim/devices/arcos.py:94-98 | two entries match a route in common if and only if in some family their prefixes and length bounds meet, a condition on the entries alone |
| PrefixLists.PrefixSplitExact | netsim/devices/iosxr.py:21-39 | a prefix list equals its deny and permit sets for every route if and only if every route that a permit entry shares with a later denial is denied before |
| PrefixLists.WarningIsConservative | netsim/devices/iosxr.py:28-29 | a prefix list that is warned about although it equals its two sets for every route |
| PrefixLists.InRangeExact | netsim/ansible/templates/routing/arcos.j2:41-49 | which prefixes match an entry with no bound, a lower, an upper or both bounds |
| ArcosLists.AcceptedPrefixListPreserved | netsim/devices/arcos.py:87-110 | an accepted prefix list means the same as its flat set of permit entries, for every route of either family |
| ArcosLists.RefusedExact | netsim/devices/arcos.py:87-110 | a prefix list is refused if and only if a denial and a later permit entry have prefixes of one family with an address in common |
| ArcosLists.FlatSetExact | netsim/devices/arcos.py:76-86 | an ordered prefix list equals its flat set for every route if and only if every route that a denial shares with a later permit entry is permitted before |
| ArcosLists.DenialsFirstExact | netsim/devices/arcos.py:87-110 | for lists that deny first this holds if and only if no denial meets a permit entry in prefix and length bounds |
| ArcosLists.RefusalIsConservative | netsim/devices/arcos.py:97-98 | the check also refuses a list whose flat set would be faithful |
| ArcosLists.AcceptedCommunityListExact | netsim/devices/arcos.py:53-74 | an accepted list with denials means the same as its inverted set if and only if denials behind the first catch-all repeat earlier ones |
| ArcosLists.LateDenialVisible | netsim/devices/arcos.py:62-63 | a new denial behind the catch-all makes some route match the list and not the set |
| ArcosLists.CommunityRefusedExact | netsim/devices/arcos.py:53-74 | a community list with denials is accepted if and only if it permits something and permits by catch-all entries only |
| ArcosLists.PermitOnlyPreserved | netsim/devices/arcos.py:57-58 | an all-permit list is accepted and means the same as its set |
| XrSets.Routing.GetActionSet | netsim/devices/iosxr.py:21-39 | the actions of the list, and a warning if and only if a deny follows a permit |
| XrSets.Routing.UpdateEntry | netsim/devices/iosxr.py:60-78 | every reference of a policy entry to the list, direct or per community type, is replaced, and an emptied match goes |
| XrSets.Routing.ProcessList | netsim/devices/iosxr.py:86-97 | a list with a denial is replaced by its deny and permit lists and all policies are rewritten; others stay |
| XrSets.Routing.RpSet | netsim/devices/iosxr.py:80-97 | the loop over the lists found at the start does what processing them one after the other does, for every order and with any names |
| XrSets.RpSetSplits | netsim/devices/iosxr.py:13-97 | when names generated for split lists are fresh, every order splits exactly the lists with denials, rewrites all references, and warns about exactly the lists with a deny after a permit |
| XrCollisions.RunExact | netsim/devices/iosxr.py:86-97 | for any names and any order: what every list holds at the end of a run, which references are replaced, and which lists are warned about, in terms of the lists at the start |
| XrCollisions.ReferenceExact | netsim/devices/iosxr.py:44-97 | for any names, order and way of matching, a reference to a list keeps its meaning if and only if a condition on the lists at the start holds: a split list that was overwritten before must not have matched; another split list must be decided by an earlier denial, or by an earlier permit entry when its deny set is deleted later; a list overwritten without being split must agree with what overwrites it |
| XrCollisions.DirectMeaningExact | netsim/devices/iosxr.py:58-68 | a policy entry that matches one list keeps its meaning exactly under that condition |
| XrCollisions.EntryMeaningAfterRun | netsim/devices/iosxr.py:58-78 | a policy entry with any number of references keeps its meaning when each of them meets that condition |
| XrCollisions.DanglingExact | netsim/devices/iosxr.py:44-97 | all lists that a rewritten entry names exist if and only if no list it referred to was split before a list that has the name of its deny set |
| XrCollisions.DenyNameCollision | netsim/devices/iosxr.py:44-97 | two lists, "a" and "a_deny": no warning, the rewritten entry names the deleted "a_deny", and a route that "a" denies matches |
| XrSets.ReferencePreserved | netsim/devices/iosxr.py:44-97 | a reference to a list without warning means the same before and after |
| XrSets.PolicyMeaningPreserved | netsim/devices/iosxr.py:58-97 | a rewritten policy entry that refers to lists without warning matches the same routes, direct and community matches alike |
| XrSets.NoDanglingReference | netsim/devices/iosxr.py:58-97 | every list a rewritten entry names exists and is not one that was deleted |
| IbgpSessions.IbgpNeighborList | netsim/modules/bgp.py:155-172 | the neighbor list is the selection relation applied to all nodes |
| IbgpSessions.BuildIbgpSessions | netsim/modules/bgp.py:154-185 | neighbor data of the selected speakers with a usable address, with reflector and client marks |
| IbgpSessions.RecordsExact | netsim/modules/bgp.py:174-184 | one neighbor record for each selected speaker with a usable address, once per name, marked as a reflector if the speaker is one, and as a client if the node is a reflector and the speaker is not |
| IbgpSessions.SelectsExact | netsim/modules/bgp.py:155-172 | two speakers have a session if and only if they are different, in one AS, and one is a reflector or the AS has none; two reflectors need one that wants the mesh |
| IbgpSessions.PassesOnExact | netsim/modules/bgp.py:182-183 | passing routes on by the client marks of the built records is what section 6 of RFC 4456 says about reflectors, clients and non-clients |
| IbgpSessions.SelectionSymmetric | netsim/modules/bgp.py:161-172 | selection is symmetric for all reflector and rr_mesh settings |
| IbgpSessions.ReflectorMesh | netsim/modules/bgp.py:166-170 | two reflectors peer if and only if one of them wants the mesh |
| IbgpSessions.ClientRoutesReachAll | netsim/modules/bgp.py:154-185 | over the built records and their client marks, a route from a non-reflector reaches the whole AS whatever the cluster IDs |
| IbgpSessions.ReflectorRoutesNeedSession | netsim/modules/bgp.py:166-170 | a route from a reflector reaches another reflector if and only if the two peer |
| IbgpSessions.FullVisibility | netsim/modules/bgp.py:154-185 | all routes reach all speakers of an AS if and only if no two of its reflectors both opt out of the mesh |
| IbgpSessions.BuildBgpRrClusters | netsim/modules/bgp.py:434-458 | reflectors without a cluster ID share the first router ID (in string order) of such reflectors of their AS; all else stays |
| IbgpSessions.OwnClusterIgnored | netsim/modules/bgp.py:448-458 | a reflector with a cluster ID of its own keeps it, and its router ID does not influence the shared one |
| IbgpSessions.ClusterIsLowest | netsim/modules/bgp.py:443-451 | the shared cluster ID is the numerically lowest router ID if and only if the lowest one keeps its place in string order against all others |
| IbgpSessions.LowestRouterIdPassedOver | netsim/modules/bgp.py:443-451 | reflectors with router IDs 10.0.0.9 and 10.0.0.10 get cluster ID 10.0.0.10 |
| RouterIds.StringOrderExact | netsim/modules/bgp.py:448-451 | of two dotted decimal identifiers the lower one sorts first as a string if and only if, where they first differ, its octet has as many digits or does not exceed the leading digits of the other |
| EbgpSessions.BuildEbgpSessions | netsim/modules/bgp.py:222-285 | the loops over interfaces and neighbors append the views of the node in order, leaving out sessions that are listed already |
| EbgpSessions.SessionPerNeighbor | netsim/modules/bgp.py:228-385 | with unique interface indexes and neighbors that differ in name or address there is one session for each neighbor on each interface the node has a view of, carrying name, address and interface index, and no other |
| EbgpSessions.TermsExact | netsim/modules/bgp.py:264-285 | no session is recorded if and only if the neighbor presents no AS, or presents the node's interface AS and is in its AS; otherwise the session has the AS presented, and the type tells whether that is the interface AS, or else a confederation peer |
| EbgpSessions.SessionTermsExact | netsim/modules/bgp.py:228-385 | the list holds, for each neighbor on each interface, exactly the session that the settings of the two ends call for |
| EbgpSessions.PlainSessionsExact | netsim/modules/bgp.py:284-285 | with plain AS numbers there is one eBGP session for each neighbor in another AS, and no other |
| EbgpSessions.ReverseMap | netsim/modules/bgp.py:752-772 | the definitions are accepted if and only if every confederation has members, no AS is a member of two or listed twice, and no member is a confederation; the map finds the confederation of each member |
| EbgpSessions.CheckConfederationData | netsim/modules/bgp.py:748-798 | an error exactly for unclean definitions or a node using a confederation AS; members learn their confederation and the other members |
| EbgpSessions.ViewsMirrorExactly | netsim/modules/bgp.py:214-385 | with checked confederations and any local AS numbers, one end records a session if and only if the other does, with equal types and the AS the other end presents, exactly when the AS numbers fit: a guard on the two ends' own settings |
| EbgpSessions.ViewsMirror | netsim/modules/bgp.py:214-385 | in particular with local AS numbers only or with confederations only |
| EbgpSessions.MixedMechanismsDisagree | netsim/modules/bgp.py:354-359 | an input on which the guard fails and the ends record different session types |
| ApiJobs.RunKeepsInvariant | netsim/cli/api.py:239-281 | after every interleaving of threads from a fresh server, job states fit the program points, RUN_LOCK is held by exactly the runner that is past acquiring it, and the working directory differs only while that runner is inside its action |
| ApiJobs.HistoryExact | netsim/cli/api.py:254-279 | in every run, a job is canceled if and only if a request found it queued, it executes if and only if its runner got into the action, and it fails or exits if and only if its own code did |
| ApiJobs.CancelTakesEffect | netsim/cli/api.py:436-448 | canceling a queued job cancels it, it stays canceled and never executes, however the run goes on |
| ApiJobs.CancelRefused | netsim/cli/api.py:442-444 | in any other state the request changes nothing |
| ApiJobs.StatesStay | netsim/cli/api.py:254-279 | success, failed and canceled are final, and a running job is never canceled |
| ApiJobs.CanceledNeverExecutes | netsim/cli/api.py:436-448 | a job that was canceled at any time never executes its action |
| ApiJobs.OneActionAtATime | netsim/cli/api.py:226-265 | at most one job is inside the action, and the working directory is the original one whenever RUN_LOCK is free |
| ApiJobs.ActionInItsDirectory | netsim/cli/api.py:226-232 | while a job is in its action and has not changed directory itself, the working directory is the one it entered, whatever other threads do |
| ApiJobs.FinishedJobs | netsim/cli/api.py:261-274 | the state of a job whose runner ended tells how it ended; a job left by an exception outside Exception stays running |
| ApiJobs.SomeRunnerAdvances | netsim/cli/api.py:254-274 | no deadlock: while a runner is not done, some runner can make progress |

## Left out

- Ipam.Link.AssignInterfaceAddresses: handles one address family at a time (an error in one family suppresses the host-bits check of both in the code); unknown allocation names, which crash the code after an error message, and unparsable address strings are not modelled.
- AddressPlan.BuildAddressPlan: covers links without static interface addresses whose prefixes come from one pool with at least four addresses per subnet; two-address prefixes have their own lemmas.  The success condition is stated for pools that start at a multiple of the subnet size outside the multicast range.
- AddressPlan.TransformLinks: leaves out the checks of the link loop that have nothing to do with addresses: link identifiers, types and roles, bridge names, router advertisements, interface features and interface indexes (netsim/augment/links.py:1430-1436, 1441-1442, 1444-1446, 1450-1452).
- AddressPools.AssignLoopbacks: leaves out static loopback addresses, loopbacks that are switched off, and boolean pools.
- InterfaceIndexes.Node.AddInterface: speaks of automatically assigned indexes, with device offsets of at most 9000; indexes given by the user are taken unchecked by the code (duplicates are reported later).
- Groups.GroupMembers: has no depth guard of 99 (netsim/augment/groups.py:45), and settings whose name starts with an underscore do not appear as groups.
- GroupSettings.Lab.CopyGroupDevices: takes the computed members of device groups as they are when devices start to be copied; the module half of the function (netsim/augment/groups.py:504-532) merges lists and is not modelled.
- GroupSettings.ProcessRemovals: an empty template name is excluded, since the code crashes on it.
- Components.Builder.ExpandInclude: leaves out renaming of component links, copied group attributes, identifier validation and the MAX_NODE_ID limit; a component that includes itself is excluded, since the code has no check and would not end.
- AttributeMerge.MergeWithRemovedAttributes: works on values, so a dictionary shared between interface and link after a merge (aliasing) is not captured.
- DeviceInheritance.DeviceTable.ProcessChildDevice: parent attributes are strings and devices are dictionaries, as device data in netlab are.
- ArcosLists.AcceptedCommunityListExact: community values are compared for equality; regular-expression patterns other than the catch-all are not modelled.
- XrSets.Routing.RpSet: the wrapper attribute of community lists is a plain list here.
- IbgpSessions.BuildIbgpSessions: an explicit `rr: False` (treated as present by netsim/modules/bgp.py:126-130) is excluded; which speakers have a usable address is a parameter, and next-hop settings and warnings are left out.
- EbgpSessions.BuildEbgpSessions: both ends are numbered and support the features they use; VRFs, `bgp: False`, unnumbered and link-local sessions and copied interface attributes are left out; AS numbers are positive.
- EbgpSessions.CheckConfederationData: devices support confederations.
- ApiJobs.RunKeepsInvariant: assumes that only jobs change the working directory and that changing back to the original directory works; HTTP, files and logs are outcomes of a step.
- String formatting, parsing, error texts and validation of user input are not part of this model; an error is a flag in the result.
- The remaining device quirks (ArcOS spanning tree and VXLAN, IOS XR other than routing sets), links between VLANs, DHCP, BFD and IS-IS details consist of independent local rewrites.
