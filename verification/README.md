# A verified model of fakeaws

fakeaws answers AWS requests from SQLite tables and loads recorded reads of a
real account into them. This project models its most stateful parts and proves
what they keep, over every input and every run of requests.

- **The tree diff** (`Trees`, `Members`, `TreeDiff`, `Diff`, `Pruning`,
  `DiffPaths`, `DiffCounts`, `TreeDiffers`, `DiffBodies`, `JsonNumber`): two
  definitions of "equal", the recursive diff that names paths and the memoised
  length-prefixed form, are proved to be one; the form is proved to lose nothing
  but order that carries no meaning; the paths named are proved to be exactly
  those that spell a chain to a difference, in what pruning leaves; the loops
  that use flags, queues and a memo are proved to compute the recursive
  definitions; JSON numbers are spelled by the rational they denote.
- **The EC2 store** (`Net`, `PublicIps`, `SecurityRules`, `SecurityPermissions`
  and the `Ec2*` modules): the tables, keys, cascades and triggers of one
  account; each request as one atomic step (`Ec2Ops`); one invariant
  (`Ec2Schema.Inv`) that every request keeps (`Ec2Keeps`, `Ec2ComputeKeeps`) and
  so every run from an empty database (`Ec2Runs`); exactly when requests are
  served and what they then store (`Ec2Served`); the tags each gives and loses
  (`Ec2Tags`); how long an association lasts (`Ec2Addresses`); requests that
  take each other back (`Ec2Undo`); the backfill of older databases
  (`Ec2Backfill`); and the transactions themselves, statement by statement with
  their rollbacks (`Ec2Store`), each equal to its step.
- **The load run** (`LoadTrees`, `LoadPages`, `LoadRegistry`, `LoadEnv`,
  `LoadLinks`, `LoadMeaning`, `LoadCommits`, `LoadRuns`): the ranked registry,
  reads and their page chains, and the all-or-nothing run over loaders whose own
  code is a parameter. `LoadMeaning.LoadOf` says what a load of the recorded
  exchanges leaves, if anything, and the run commits exactly that; `LoadCommits`
  says, item by item, which loads those are.
- **Route53** and **EC2 filters** (`Route53`, `Wildcards`, `Filters`,
  `FilterRequests`): the overlay check against sequential application, which
  batches are served, the sorted list, the wildcard compiler, a parse no map
  order shows in, and which rows and refusals a request gets.

`Sorting`, `Text` and `Options` are what the rest is built on. A `char` stands
for one byte, but in `Wildcards`, where it is a rune. A request's random ids,
the parsed prefixes of its CIDRs and the parameters, page token and error code of
a recorded exchange are inputs. Iteration orders of Go maps are arbitrary
sequences.

## What is false of the code

Five things a reader might expect do not hold. Each is shown at an input and
stated with the exact condition under which it does.

- An empty diff is not transitive when the middle body's root has no name:
  `Diff.SameIsNotTransitive`, `Diff.SameIsTransitiveUpToNames`.
- `diffNumber` does exponent arithmetic in 64 bits, so two numbers far apart
  can share a spelling: `JsonNumber.FarApartShareASpelling`,
  `JsonNumber.SpellingTellsExactlyTheFitting`.
- It answers a number whose exponent does not parse with its own text, so one
  value can have two spellings: `JsonNumber.OneValueTwoSpellings`,
  `JsonNumber.SpellingExactly`.
- The apex refusal of a CNAME compares names bytewise, so one at the zone's
  name in other letters is stored: `Route53.ApexCnameInOtherLetters`,
  `Route53.ApexCnameStoredExactly`, `Route53.ZoneIsFreeOfApexCnameExactly`.
- Filter indexes with leading zeros are not sorted numerically:
  `Filters.LeadingZerosAreOutOfOrder`, `Filters.OrderIsNumericExactly`.

The comment above `ec2TerminateInstances` (handlers/ec2.go:3640-3643) says
terminated rows are cleaned up inside DeleteSubnet and DeleteVPC. Only
DeleteSubnet does so; the model follows the code, and
`Ec2Runs.DeleteVpcExactly` and `Ec2Runs.DeleteSubnetExactly` say the difference.

## Model

| member | source | states |
|---|---|---|
| Trees.SpellInjective | handlers/load_diff.go:681-707 | the groups' spelling is uniquely decodable: equal spellings are of the same groups with the same forms, in whatever text follows |
| Text.PartCancels | handlers/load_diff.go:681-707 | a length-prefixed part is read back whatever follows it, so no text or name can imitate another part |
| Text.SortSeesMultiset | handlers/load_diff.go:697-699 | sorted forms are equal exactly when their multisets are, which is why sorting makes members a multiset |
| Trees.FormIsGroups | handlers/load_diff.go:676-707 | two nodes have one form exactly when kind, text and groups agree: fields by position, members as multisets |
| Trees.FormIsMeaning | handlers/load_diff.go:676-707 | two trees of one protocol have one form exactly when they mean the same, at every depth: the form loses nothing but the order of members and of differently named groups |
| TreeDiff.FieldsDecide | handlers/load_diff.go:552-569 | a group of fields names no path exactly when their forms agree position by position |
| TreeDiff.MembersDecide | handlers/load_diff.go:580-634 | a group of set members names no path exactly when their forms are one multiset |
| TreeDiff.MembersAccounted | handlers/load_diff.go:571-634 | equal forms pair as far as the multisets allow, no two members left have one form, the pairs node-diffed are a matching with no nearer pair passed over, and exactly the longer side's excess is named whole |
| TreeDiff.ChosenDiffer | handlers/load_diff.go:571-634 | members are node-diffed only when their forms differ, so a pair never comes out silent |
| TreeDiff.NoPathsMeansEqualForms | handlers/load_diff.go:522-707 | the two definitions of equal agree: for any two pruned trees of one protocol the path-naming diff is empty on both sides exactly when the forms are equal, whatever the leaf hash |
| Members.MatchIsMaximal | handlers/load_diff.go:586-601 | what equal-form pairing leaves on each side is exactly the multiset difference of the forms |
| Members.MatchLeavesDistinct | handlers/load_diff.go:586-601 | no member left on one side has the form of one left on the other |
| Members.NearestAccounts | handlers/load_diff.go:602-633 | the nearest-first choice is a matching that exhausts the shorter side, and each side's rest is what it left |
| Members.NearestIsStable | handlers/load_diff.go:571-633 | no two members left over are nearer to each other than to whatever either was paired with |
| Diff.NodeAgreesWithForm | handlers/load_diff.go:522-707 | the agreement holds across protocols too, for any two parsed and pruned bodies |
| Diff.FormTellsProtocol | handlers/load_diff.go:676-707 | a JSON and an XML body share a form only when neither holds anything below its root |
| Diff.SameIsEqualForms | handlers/load_diff.go:396-438 | a diff names nothing on either side exactly when the root names agree and the pruned forms are equal |
| Diff.SameIsEqualMeaning | handlers/load_diff.go:396-438 | a diff is empty exactly when the pruned bodies mean the same |
| Diff.SameIsReflexiveSymmetric | handlers/load_diff.go:396-438 | an empty diff is reflexive and symmetric |
| Diff.SameIsTransitiveUpToNames | handlers/load_diff.go:418-438 | it is transitive exactly when the outer root names agree, as they must when the middle root is named |
| Diff.SameIsNotTransitive | handlers/load_diff.go:418-438 | an unnamed empty root is the same as two empty roots of different names, which differ from each other |
| Diff.TrimNeverMatters | handlers/load_diff.go:447-499 | adding or removing empty or ignored nodes, at any depth and whatever it does to indexes, never changes which bodies a body is the same as |
| Diff.FormIgnoresIndexes | handlers/load_diff.go:676-707 | indexes name paths and are no part of the form |
| Pruning.PrunedValues | handlers/load_diff.go:447-499 | a pruned body holds, in order and at their places, exactly the values no response name and no ignored path leads to, those at decoded paths decoded |
| Diff.UnescapesExactly | handlers/load_diff.go:469-473 | a text at a decoded path is compared as the bytes it writes in a query, each as itself, a space as a plus, or any by its two hex digits, and as it is when it writes none |
| DiffPaths.NamedExactly | handlers/load_diff.go:520-634 | a node diff names a path on a side exactly when it spells a chain of compared kids to nodes whose values differ, this side's having one, or to a member of this side left over; a segment is a member's name or {key}, with its index on members, repeated names and later kids, and segments are joined by slashes |
| DiffPaths.DiffNamesExactly | handlers/load_diff.go:418-438 | so a diff answers exactly the paths that spell such chains from the pruned roots, or the roots' names where they differ |
| DiffPaths.NamedIsInItsTree | handlers/load_diff.go:520-634 | each path named spells a chain of that side's own kids, to a node with a value or a set member |
| DiffPaths.FieldDifferenceIsNamed | handlers/load_diff.go:552-569 | a value that a chain of fields leads to, and whose counterpart differs, is named by its own spelling on its own side |
| DiffCounts.NamedAtMostOnce | handlers/load_diff.go:520-634 | a side has no more paths named than it has values, a set member without any counting as one |
| DiffBodies.DiffBodies | handlers/load_diff.go:418-438 | one differ with one memo answers exactly the paths that spell a difference on each side, and none exactly on equal pruned forms under agreeing roots |
| TreeDiffers.DiffDistance | handlers/load_diff.go:657-674 | the merge loop counts the symmetric difference of two sorted leaf lists as multisets |
| TreeDiffers.DistanceIsMetric | handlers/load_diff.go:657-674 | that count is zero only on equal multisets, symmetric, and obeys the triangle inequality |
| TreeDiffers.TreeDiffer.FormOf | handlers/load_diff.go:681-707 | the memo answers the recursive form for every node, and every memoised form stays it |
| TreeDiffers.TreeDiffer.DiffNode | handlers/load_diff.go:520-548 | the loop over groups names the recursive definition's paths, in its order: those NamedExactly says |
| TreeDiffers.TreeDiffer.DiffMembers | handlers/load_diff.go:571-634 | the flags, queues and sorted candidates of the loop compute the declarative matching and name its paths |
| TreeDiffers.TreeDiffer.DiffFields | handlers/load_diff.go:550-569 | the positional loop names what comparing each position names |
| TreeDiffers.PairEqual | handlers/load_diff.go:586-601 | the queue of free members per form leaves the same members as first-free matching |
| TreeDiffers.TakeNearest | handlers/load_diff.go:617-628 | walking the sorted candidates with used flags is the greedy choice |
| JsonNumber.DiffNumber | handlers/load_diff.go:265-291 | the loop's locals spell the number's canonical form, for every text of the number grammar |
| JsonNumber.SpellingIsValue | handlers/load_diff.go:265-291 | within 64 bits two numbers are spelled alike exactly when they denote one rational |
| JsonNumber.ValueHasOneSpelling | handlers/load_diff.go:265-291 | two numbers of one value are spelled alike exactly when both exponents parse, wherever the arithmetic wraps, or their texts are the same |
| JsonNumber.SpellingIsValueModuloWrap | handlers/load_diff.go:265-291 | two numbers whose exponents parse are spelled alike exactly when both are zero or sign and digits agree and the powers of ten agree modulo 2^64 |
| JsonNumber.SpellingExactly | handlers/load_diff.go:265-291 | of all numbers: where one of the two exponents does not parse they are spelled alike exactly when their texts are equal, and else as above |
| JsonNumber.OneValueTwoSpellings | handlers/load_diff.go:273-276 | at this input: 0e9223372036854775808 and 0 are one value spelled two ways |
| JsonNumber.SpellingTellsExactlyTheFitting | handlers/load_diff.go:265-291 | a nonzero number's spelling tells it from every fitting number exactly when its own power of ten fits in 64 bits |
| JsonNumber.FarApartShareASpelling | handlers/load_diff.go:277-290 | at this input: 10e9223372036854775807 is spelled as 1e-9223372036854775808 is, and they differ |
| LoadTrees.Parent.Append | handlers/load_diff.go:97-106 | a kid is appended with the count of its group's earlier kids as its index |
| LoadTrees.IndexNamesOneKid | handlers/load_diff.go:97-106 | so an index is the kid's place in its group and a path's name and index find it again |
| LoadTrees.IndexesAreDistinct | handlers/load_diff.go:97-106 | no two kids of one group share an index |
| LoadTrees.SubtreeIsNth | handlers/load_diff.go:293-321 | Subtree finds the index-th node at the path in document order, under the chain of its ancestors with their names and indexes, and nothing when there are not that many |
| Net.OverlapIsShared | repository/ec2.go:639-661 | two CIDR blocks overlap exactly when some address is in both, and symmetrically |
| Net.InsideIsSubset | handlers/ec2.go:638-651 | a block accepted by its bits and first address has every address inside the outer one |
| Net.InRangeIsCovered | handlers/ec2.go:638-651 | a subnet's block is in range exactly when its size is one EC2 takes and the VPC's block covers every address of it |
| Net.UsableIsContained | repository/ec2_compute.go:411-430 | an address a launch may get is an address of the block |
| Net.PrivateIp | repository/ec2_compute.go:411-430 | the address answered is usable and free, the wanted one if one is wanted and else the lowest, and none is answered only when there is none |
| Net.FindPrivateIp | repository/ec2_compute.go:411-430 | the walk over successive addresses computes it, stopping at the address before the last |
| Net.UsableCount | handlers/ec2.go:814-823 | an accepted subnet has exactly the advertised number of usable addresses |
| Net.ServedUntilFull | repository/ec2_compute.go:411-430 | an unconstrained launch is served exactly while fewer usable addresses are held than advertised |
| PublicIps.DerivePublicIp | handlers/ec2.go:1480-1491 | the running sum in eight bits gives an address of the /24 |
| PublicIps.FindFreeIp | repository/ec2.go:1444-1458 | the loop finds the first unheld address from the wanted one up, wrapping |
| PublicIps.FreeIpSpec | repository/ec2.go:1444-1458 | it stays in the /24, is never held, fails exactly when all 256 are held, and is the wanted one if free |
| SecurityRules.AuthorizeKeepsOrder | repository/ec2.go:1193-1334 | whatever is authorized, in each direction a position is one permission, no two rules share (permission, source) positions, and no permission holds a source twice |
| SecurityRules.RevokeKeepsOrder | repository/ec2.go:1336-1377 | revoking keeps that too |
| SecurityRules.AuthorizeHolds | repository/ec2.go:1293-1324 | every source asked for is held afterwards and the earlier rows are a prefix of the table |
| SecurityRules.AuthorizeServedExactly | repository/ec2.go:1293-1334 | an authorize is served exactly when every rule of it that names a source new to its permission passes the checks and has an id no stored rule has nor an earlier such rule |
| SecurityRules.AuthorizeAddsTheNovel | repository/ec2.go:1293-1334 | and then adds a row for each of those rules, in the request's order, and no other |
| SecurityRules.AuthorizeIsIdempotent | repository/ec2.go:1293-1324 | authorizing the same sources again, under any ids, adds nothing |
| SecurityRules.RevokeUndoesAuthorize | repository/ec2.go:1336-1377 | revoking exactly the added rules, by id or by source, restores the table with every id and position |
| SecurityRules.RevokeRefusesExactly | repository/ec2.go:1336-1377 | a revoke, of ids and sources together, succeeds exactly when each id names a rule of the direction that nothing earlier in the request revokes, and else changes nothing |
| SecurityPermissions.SgRules | handlers/ec2.go:1893-1915 | one rule per source, permission by permission, kinds in the answer's order |
| SecurityPermissions.SgPermissions | handlers/ec2.go:1917-1942 | the loop over both directions gathers each direction's rows |
| SecurityPermissions.GatheredIsStored | handlers/ec2.go:1917-1942 | a well-ordered direction gathers into one permission per key it holds, whose rules are a permutation of the stored ones with every description |
| SecurityPermissions.CollectIsInverse | handlers/ec2.go:1893-1942 | the sources of a proper permission gather back into that permission |
| SecurityPermissions.AuthorizeThenGather | handlers/ec2.go:1893-1942 | permissions of distinct keys and sources authorized into an empty direction are all added and gather back exactly as sent |
| Ec2Keeps.CreateVpcKeeps | repository/ec2.go:391-414 | CreateVpc keeps the whole invariant |
| Ec2Keeps.DeleteVpcKeeps | repository/ec2.go:562-586 | DeleteVpc keeps it through detach, cascade and triggers |
| Ec2Keeps.CreateSubnetKeeps | repository/ec2.go:594-661 | CreateSubnet keeps it: the overlap and range checks are enough for disjoint blocks inside the VPC |
| Ec2Keeps.DeleteSubnetKeeps | handlers/ec2.go:748-767 | DeleteSubnet keeps it, purge included, refused or not |
| Ec2Keeps.MoveGatewayKeeps | repository/ec2.go:771-811 | attaching and detaching a gateway keep it |
| Ec2Keeps.CreateRouteTableKeeps | repository/ec2.go:917-942 | a new route table keeps it, local route and all |
| Ec2Keeps.DeleteRouteTableKeeps | repository/ec2.go:976-1003 | a route table's delete keeps it: no main association goes |
| Ec2Keeps.AssociateRouteTableKeeps | repository/ec2.go:1005-1027 | an association keeps it: one per subnet |
| Ec2Keeps.DisassociateRouteTableKeeps | repository/ec2.go:1033-1050 | a disassociation keeps it |
| Ec2Keeps.RoutesKeep | repository/ec2.go:1052-1100 | creating and deleting routes keep every local route |
| Ec2Keeps.CreateTagsKeeps | handlers/ec2.go:4623-4673 | CreateTags tags only stored resources |
| Ec2Keeps.DeleteTagsKeeps | handlers/ec2.go:4675-4697 | DeleteTags keeps the invariant |
| Ec2ComputeKeeps.CreateGroupKeeps | handlers/ec2.go:2150-2179 | a new security group keeps it: its VPC's names stay unique and default stays reserved |
| Ec2ComputeKeeps.DeleteGroupKeeps | repository/ec2.go:1383-1401 | a group's delete keeps it: it was no default and no interface holds it |
| Ec2ComputeKeeps.AuthorizeKeeps | repository/ec2.go:1293-1324 | authorizing keeps it |
| Ec2ComputeKeeps.RevokeKeeps | repository/ec2.go:1336-1377 | revoking keeps it, the revoked rules' tags included |
| Ec2ComputeKeeps.RunInstanceKeeps | repository/ec2_compute.go:282-342 | a launch keeps it: a usable private IP of the subnet, groups of the VPC, a public IP no other interface shows |
| Ec2ComputeKeeps.SetGuardKeeps | repository/ec2_compute.go:497-536 | changing the termination guard keeps it |
| Ec2ComputeKeeps.SetGroupsKeeps | handlers/ec2.go:3472-3520 | replacing an interface's groups keeps it |
| Ec2ComputeKeeps.EndAllKeeps | repository/ec2_compute.go:554-639 | terminating keeps it: interfaces go and addresses are freed with their instance |
| Ec2ComputeKeeps.ClaimSpec | repository/ec2_compute.go:392-409 | an automatic address is in its own /24 and shown by no other interface of the region |
| Ec2ComputeKeeps.AllocateKeeps | repository/ec2.go:1405-1442 | allocating keeps Elastic IPs distinct in a region and in their own /24 |
| Ec2ComputeKeeps.AssociateKeeps | handlers/ec2.go:1654-1745 | associating keeps address and interface in agreement |
| Ec2ComputeKeeps.DisassociateKeeps | handlers/ec2.go:1747-1781 | disassociating keeps it, a reclaimed automatic address included |
| Ec2ComputeKeeps.ReleaseKeeps | repository/ec2.go:1565-1582 | releasing keeps it: only unassociated addresses go |
| Ec2Runs.StepKeeps | repository/ec2.go:387-1582 | every request, served or refused, keeps the invariant |
| Ec2Runs.RunKeeps | repository/ec2.go:387-1582 | so does every run of requests, in any regions |
| Ec2Runs.PrivateIpsAreTheVpcs | repository/ec2_compute.go:411-430 | after any run every interface's private IP is an address of its VPC's block, and no two interfaces of one VPC share one, whatever subnets they are in |
| Ec2Runs.VpcsKeepTheirDefaults | repository/ec2.go:387-414 | after any run each VPC has exactly one group named default and exactly one main association, and each of its route tables the local route to its CIDR |
| Ec2Runs.AddressesAgree | repository/ec2.go:1405-1582 | after any run an interface shows an Elastic IP of its region exactly when that address is associated with it, one each way; public IPs are distinct; an interface with none shows nothing or an automatic address as it was launched |
| Ec2Addresses.AssociationStays | repository/ec2.go:1483-1582 | no request but a disassociation of it or the end of its instance changes an associated address |
| Ec2Addresses.AssociatedIsKept | repository/ec2.go:1483-1582 | so through any run of such requests it can be neither released nor associated again |
| Ec2Runs.NothingDangles | repository/ec2_tags.go:28-56 | after any run every tag names a stored resource, every attached gateway a stored VPC, every interface stored groups of its VPC and every rule a stored group |
| Ec2Tags.TagsGoWithTheirResources | repository/ec2_tags.go:28-56 | of every request but CreateTags and DeleteTags, served or refused: each earlier tag is kept, with its value, exactly when its resource is still stored, whatever cascade took that |
| Ec2Tags.TagsOutliveRuns | repository/ec2_tags.go:28-56 | so a tag outlives any run of such requests for as long as its resource does |
| Ec2Tags.CreatedTags | handlers/ec2.go:4580-4604 | a creating request changes nothing, or gives each row it stores exactly the tags sent for it, a launch's instance and interface each their own, and leaves every other resource's |
| Ec2Tags.RetaggingServedExactly | handlers/ec2.go:4623-4697 | tags are put on resources exactly when there are some of each and every resource is a row of the region, a rule by its group; taking them off asks the same but for tags |
| Ec2Tags.RetaggingExactly | repository/ec2_tags.go:71-113 | CreateTags gives each of its resources the tags sent over those it had; DeleteTags takes off each the tags named, by key or by key and value, or all, and nothing else |
| Ec2Tags.DeleteVpcTags | repository/ec2_tags.go:28-56 | deleting a VPC removes exactly the tags of the VPC and of its subnets, route tables, groups and their rules, no instance or interface being there, and keeps every other tag with its value |
| Ec2Tags.DeleteSubnetTags | repository/ec2_tags.go:28-56 | deleting a subnet removes exactly the tags of the terminated instances it purges, even when refused, and its own when served |
| Ec2Tags.TerminateTags | repository/ec2_tags.go:28-56 | terminating removes exactly the tags of the named instances' interfaces: instances and freed addresses keep theirs |
| Ec2Runs.TerminatedIsUnnamed | repository/ec2_compute.go:554-639 | after any run no interface and no address names a terminated instance |
| Ec2Runs.EndAllAtOnce | repository/ec2_compute.go:554-639 | terminating a list in turn is terminating it at once: refused, blaming the first id unknown or guarded in the tables as they were, or all ended with each id's earlier state in order, a repeat having been terminated already |
| Ec2Runs.TerminatedStays | repository/ec2_compute.go:589-602 | no request moves an instance out of terminated |
| Ec2Runs.TerminatedForGood | repository/ec2_compute.go:589-602 | so no run does, while the instance is stored |
| Ec2Runs.DeleteVpcExactly | repository/ec2.go:562-586 | in a reachable state a VPC of the region is deleted exactly when its subnets hold no instance, terminated ones included |
| Ec2Runs.DeleteSubnetExactly | handlers/ec2.go:748-767 | in a reachable state a subnet of the region is deleted exactly when it holds no running instance |
| Ec2Runs.LaunchServedExactly | repository/ec2_compute.go:282-342 | in a reachable state a plain launch into an IPv4 subnet is served exactly while the subnet has fewer interfaces than the addresses it advertised, at the lowest address none of them has |
| Ec2Served.RunInstanceServedExactly | repository/ec2_compute.go:282-342 | any launch is served exactly when the subnet is the region's and IPv4, the groups the region's and the VPC's, the ids new, an address to be had, the wanted one if one is asked for, and an automatic public one if that is; it then adds the instance and its interface at the lowest such address |
| Ec2Served.AssociateServedExactly | handlers/ec2.go:1658-1745 | after a run an association is served exactly when it asks for no reassociation and a free address of the region meets a bare interface of it, named by its id, by its running instance's or by both, at the private IP asked for; the address is then on that interface, which shows it, and nothing else changes |
| Ec2Served.InstanceServedExactly | handlers/ec2.go:1725-1745 | so an instance alone may be named exactly when it is the region's and running and its interface may meet the address |
| Ec2Served.DisassociateServedExactly | handlers/ec2.go:1747-1781 | after a run a disassociation is served exactly when an address of the region carries the association and an interface launched with an automatic address has one free to go back to; it frees the address, gives the interface that one or none, and changes nothing else |
| Ec2Served.AllocateServedExactly | repository/ec2.go:1405-1442 | an allocation is served exactly when its id is new and one of the 256 Elastic IPs is free in the region, and adds a free one |
| Ec2Served.CreateVpcServedExactly | repository/ec2.go:387-414 | after a run a VPC is created exactly when it has a CIDR and its ids are new, with a default group, a main table and its local route |
| Ec2Served.CreateSubnetServedExactly | repository/ec2.go:594-661 | after a run a subnet is created exactly when its VPC's block covers its own, of a size EC2 takes, and no subnet of the VPC shares an address with it |
| Ec2Served.GatewayServedExactly | repository/ec2.go:771-811 | a gateway is attached exactly when it and the VPC are the region's, and is then off any other; detaching takes it off, and nothing else changes |
| Ec2Served.CreateGroupServedExactly | handlers/ec2.go:2150-2179 | after a run a group is created exactly when no group of its VPC has its name, the reserved one being always taken |
| Ec2Undo.DeleteVpcUndoesCreate | repository/ec2.go:387-586 | deleting a VPC just created restores every table, cascades and tags included |
| Ec2Undo.DeleteSubnetUndoesCreate | repository/ec2.go:594-748 | deleting a subnet just created restores every table |
| Ec2Undo.DeleteGatewayUndoesCreate | repository/ec2.go:752-913 | deleting a gateway just created restores every table |
| Ec2Undo.DeleteRouteTableUndoesCreate | repository/ec2.go:917-1003 | deleting a route table just created restores every table, its local route gone with it |
| Ec2Undo.AssociationsAndRoutesAreUndone | repository/ec2.go:1005-1100 | disassociating or deleting a route just made restores every table; a second association is refused, and so is deleting a route through the local gateway |
| Ec2Undo.DeleteGroupUndoesCreate | repository/ec2.go:1102-1119 | deleting a group just created restores every table |
| Ec2Undo.GuardDecides | repository/ec2_compute.go:589-602 | the guard alone decides whether terminating a list is refused on this instance's account, and changes no other instance's answer |
| Ec2Undo.ReleaseUndoesAllocate | repository/ec2.go:1405-1582 | releasing an address just allocated restores every table |
| Ec2Undo.DisassociateUndoesAssociate | repository/ec2.go:1483-1551 | disassociating what was just associated restores every table, but for an automatic public IP, which is claimed afresh |
| Ec2Undo.DeleteTagsUndoesCreate | repository/ec2_tags.go:71-113 | deleting the tags just created, by key or by key and value, restores every tag |
| Ec2Backfill.BackfillGivesDefaults | repository/ec2.go:438-484 | backfill gives a database whose VPCs lack a default group or a main table both, and with them the whole invariant |
| Ec2Backfill.BackfillExactly | repository/ec2.go:438-484 | in whatever order the VPCs are listed, backfill goes through exactly when every id and route it would make is new and its ids are distinct, and then adds exactly those rows: no other table changes and no stored row does |
| Ec2Backfill.GroupsExactly | repository/ec2.go:462-471 | the first loop alone: the groups are given exactly when the ids made are new and distinct, and only they are added |
| Ec2Backfill.TablesExactly | repository/ec2.go:472-483 | the second loop alone: tables, local routes and main associations likewise |
| Ec2Backfill.NoRunNeedsBackfill | repository/ec2.go:438-484 | after any run of requests backfill finds nothing to do and changes nothing |
| Ec2Backfill.BackfillIsIdempotent | repository/ec2.go:438-484 | nor does a second backfill after a first, whatever ids it would make |
| Ec2Store.Store.CreateVpcWithDefaults | repository/ec2.go:391-414 | the three inserts are one step, rolled back at the first refused, exactly when some key of theirs is taken |
| Ec2Store.Store.DropVpc | repository/ec2.go:562-586 | the gateways are detached before the delete and attached again when it is refused |
| Ec2Store.Store.InsertSubnet | repository/ec2.go:594-661 | the loop over sibling rows refuses exactly an overlapping or unparsed sibling, and the insert is the specified step |
| Ec2Store.Store.InsertRouteTable | repository/ec2.go:917-942 | the table and its local route are stored together or not at all |
| Ec2Store.Store.PutTags | repository/ec2_tags.go:71-90 | the loop of upserts over the tag list |
| Ec2Store.PutAllIsTagAll | repository/ec2_tags.go:71-90 | upserting each tag on each resource, in any order, is CreateTags' step |
| Ec2Store.Store.RemoveTags | repository/ec2_tags.go:92-113 | the nested loops of deletes leave exactly the tags no match selects |
| Ec2Store.Store.PurgeAndDropSubnet | handlers/ec2.go:748-767 | the loop that purges one terminated instance at a time, then the delete, is the one step of the run model |
| Ec2Store.Store.CreateInstance | repository/ec2_compute.go:282-342 | the instance row is inserted first and rolled back when no private or public address is free |
| Ec2Store.Store.ClaimPublicIp | repository/ec2_compute.go:392-409 | deriving and moving a wanted address computes the claim |
| Ec2Store.Store.EndInstances | repository/ec2_compute.go:571-639 | the loop over ids with its writes and its rollback answers what the recursive step answers |
| Ec2Store.Store.CreateEip | repository/ec2.go:1405-1442 | the derived address moved to a free one is stored, or nothing |
| Ec2Store.Store.AssociateEip | repository/ec2.go:1483-1519 | the guarded update and the interface's change are one step: ErrNotFound for a missing address or interface, ErrConflict when either has an association, and then nothing is written |
| Ec2Store.Store.AssociationTarget | handlers/ec2.go:1699-1745 | the interface named, checked against the instance if that is named too, or the instance's own, found by the loop over the rows in whatever order they come |
| Ec2Store.Store.AssociateAddress | handlers/ec2.go:1658-1745 | the handler's reads and checks, by interface or by instance, with that save are AssociateAddress' step, refused with nothing written or served |
| Ec2Store.Store.DisassociateEip | repository/ec2.go:1521-1551 | the address is cleared and its interface's public IP claimed afresh, or nothing is written: ErrNotFound for a missing row, ErrConflict when no automatic address is free |
| Ec2Store.Store.DisassociateAddress | handlers/ec2.go:1747-1781 | found by its association, an address that carries it is cleared as the step says; with one carrier, which random ids give, it is the step |
| Ec2Store.Store.AuthorizeRules | repository/ec2.go:1293-1334 | the loop of lookups and inserts with its rollback is the specified table |
| Ec2Store.Store.RevokeRules | repository/ec2.go:1336-1377 | the loop of deletes with its rollback is the specified table |
| Ec2Store.Store.BackfillVpcDefaults | repository/ec2.go:438-514 | the two listings, computed from the tables by id, and their loops share one transaction: served exactly when all it makes is new, adding exactly that, and giving the invariant where all else of it held; on a loaded database nothing |
| Route53.HostedZone.Validate | handlers/route53.go:312-341 | the overlay check, which writes nothing, refuses exactly a batch some change of which may not be made after those before it, and the change and reason applying in turn would meet first |
| Route53.HostedZone.ChangeRecordSets | handlers/route53.go:288-387 | a batch is its sequential meaning: refused with nothing written, naming the first change that may not be made and why, or applied whole, no DELETE ever failing half way |
| Route53.LastChangeWins | handlers/route53.go:343-373 | after a batch each key holds what its last change says, and no other key changes |
| Route53.BatchesCompose | handlers/route53.go:288-387 | two batches in a row are one, refusals and their indexes included |
| Route53.BatchServedExactly | handlers/route53.go:312-341 | a batch is served exactly when each change is well formed, no CREATE finds its key held and no DELETE finds it missing, as the last earlier change to the key says or, with none, the zone; else the first change that breaks this is refused, for that reason |
| Route53.NoApexCname | handlers/route53.go:323-326 | no run of batches on a new zone stores a CNAME under the zone's name, with or without its dot |
| Route53.RunIsItsServed | handlers/route53.go:288-387 | a run of batches, some refused, is the one batch of all the changes served |
| Route53.ApexCnameServedExactly | handlers/route53.go:323-326 | a CREATE or UPSERT of a CNAME whose normalised name is the zone's is served exactly when it spells that name otherwise and is no CREATE of a stored record, whatever its set identifier |
| Route53.ApexCnameStoredExactly | handlers/route53.go:288-387 | after a run on a new zone a CNAME whose normalised name is the zone's is stored exactly when the last change served to its key is no DELETE and spelt the name otherwise |
| Route53.CnameStorableExactly | handlers/route53.go:694-700 | some run stores a CNAME under a name exactly when the name is dotted and not the zone's as it is spelt |
| Route53.ZoneIsFreeOfApexCnameExactly | handlers/route53.go:694-700 | so no run stores a CNAME at the zone's normalised name exactly when the zone's name has no letter |
| Route53.ApexCnameInOtherLetters | handlers/route53.go:619-700 | at this input: in the zone example.com an UPSERT of a CNAME at EXAMPLE.com. is stored |
| Route53.List | handlers/route53.go:389-474 | sort, filter loop and page size: the answer is a run of the sorted rows from the first not before the start key, maxitems of them or all |
| Route53.SkippedIsBefore | handlers/route53.go:441-459 | the filter's nested tests are one comparison with the start key |
| Route53.ListIsARun | handlers/route53.go:389-465 | the list is a run of the sorted rows from the first not before the start key, maxitems of them or all |
| Route53.ReadsItsRecord | handlers/route53.go:389-465 | asking for one item from a record's own key answers that record, when no other shares its place |
| Wildcards.Compile | handlers/ec2_filters.go:79-108 | the escape-state loop writes a pattern that matches exactly the strings the value means |
| Wildcards.CompiledMeans | handlers/ec2_filters.go:79-108 | for every value and string, matching piece by piece is AWS's recursive meaning |
| Wildcards.LiteralsAndPrefixes | handlers/ec2_filters.go:79-108 | every literal can be asked for exactly by escaping it, and with a star every prefix, slashes included |
| Filters.IndexOrderIsNumeric | handlers/ec2_filters.go:119-122 | indexes without leading zeros are ordered as the numbers they are |
| Filters.OrderIsNumericExactly | handlers/ec2_filters.go:119-122 | an index is ordered as a number among canonical ones exactly when it has no leading zero itself |
| Filters.LeadingZerosAreOutOfOrder | handlers/ec2_filters.go:119-122 | with leading zeros they are not: 01 comes after 2 |
| Filters.Collect | handlers/ec2_filters.go:38-67 | the loop over the map, in whatever order it comes, leaves each filter exactly what its parameters say |
| Filters.Parse | handlers/ec2_filters.go:29-74 | the filters come in index order, one per N, each read from its parameters |
| Filters.ParseSeesAMap | handlers/ec2_filters.go:29-74 | two orders of one map parse into the same filters, but for the order of a filter's patterns |
| Filters.RowMatches | handlers/ec2_filters.go:153-166 | a row passes exactly when for every filter some value of the row matches some pattern |
| Filters.AlikePass | handlers/ec2_filters.go:153-166 | so which rows pass does not depend on the map's order |
| Filters.AcceptsMatches | handlers/ec2_filters.go:81-108 | the recursive matcher decides the pattern's denotation |
| Filters.RefusalNamesAll | handlers/ec2_filters.go:258-277 | a refusal names each unmodelled filter and each unread name once, in byte order, and nothing else |
| Filters.RefusalSeesAMap | handlers/ec2_filters.go:258-277 | the same request reads the same refusal whatever order its parameters come in |
| FilterRequests.AskedRowsPass | handlers/ec2_filters.go:29-166 | from the request to the rows: a row is answered exactly when for every filter asked for some value of the row for its name, an attribute's or a tag's, is what some value of that filter means, whatever order the parameters came in |
| FilterRequests.AskedIsRefused | handlers/ec2_filters.go:137-148 | and a request is refused exactly for its filters without a name or a value, by index, and those of names the Describe does not know, by name |
| LoadRegistry.Registry.Register | handlers/load.go:135-163 | a loader is inserted before the first of a higher rank, or refused with nothing changed; the registry stays the stable sort by rank of all registered, keys distinct |
| LoadRegistry.InsertedSorts | handlers/load.go:157-162 | inserting each loader as it registers is sorting them all by rank, ties as they came |
| LoadRegistry.TiesKeepTheirOrder | handlers/load.go:130-163 | loaders on one table run in registration order |
| LoadRegistry.RegistryIsRanked | handlers/load.go:130-163 | the registry is in rank order, and init order never shows where ranks differ |
| LoadPages.Link | handlers/load.go:479-515 | the one pass with its map of answered tokens computes every page's chain and exactly the refusals |
| LoadPages.ChainsAreRooted | handlers/load.go:479-515 | a chain's id is its first page: the root's root is itself, no later than the page, and continues nothing |
| LoadPages.RefusedExactly | handlers/load.go:479-515 | nothing is refused exactly when every token carried was answered by an earlier page and every page answering more is continued by a later one |
| LoadPages.UnrefusedReadsToTheEnd | handlers/load.go:479-515 | then from any page its chain goes on to a page that answers no more |
| LoadPages.UnrefusedStartsAtTheStart | handlers/load.go:479-515 | and starts at a page that carries no token |
| LoadRuns.LoadRun.Sort2xx | handlers/load.go:392-447 | nothing is refused exactly when every exchange is 2xx with a body that parses or read as absence; those decoded and those counted absent are exactly these |
| LoadRuns.LoadRun.LinkReads | handlers/load.go:392-436 | the exchanges are split into reads by action and parameters and each read's pages linked: every 2xx exchange gets its chain, and nothing is refused exactly when the links fit |
| LoadLinks.LinksFitExactly | handlers/load.go:479-515 | the links fit exactly when every token carried was answered by an earlier page of its read and every page that answers more is followed by a later one |
| LoadLinks.LoadFieldIsFirst | handlers/load.go:464-477 | a page's token or flag is the text of the first node of the name, in document order, that has one and is in no set member |
| LoadLinks.ChainGoesOn | handlers/load.go:479-515 | a page is in the chain of the page it carries on from |
| LoadRuns.LoadRun.Store | handlers/load.go:551-583 | an item goes through, leaving what its meaning says, exactly when it has a meaning: a new row whose write succeeds, or an equal record of a stored one from another chain |
| LoadRuns.LoadRun.Repeat | handlers/load.go:594-637 | a repeat is accepted exactly when its row's first record was of another chain and equal to it by Diff |
| LoadRuns.LoadRun.RunLoaders | handlers/load.go:354-362 | loaders run in rank order on their exchanges, and neither refuse nor abort exactly when those exchanges in that order have a meaning, which is what is left |
| LoadRuns.LoadRun.Agree | handlers/load.go:676-700 | a copy is accepted exactly when it agrees with its row's own record in every field both give a value |
| LoadRuns.LoadRun.Resolve | handlers/load.go:650-674 | nothing is refused exactly when every reference names a loaded row it agrees with or is one never read; unresolved lists exactly the latter, sorted, each once |
| LoadRuns.LoadRun.DiffRows | handlers/load.go:702-743 | nothing is refused exactly when every row renders, from what was written, as it was recorded |
| LoadRuns.LoadRun.Fill | handlers/load.go:351-375 | a run neither aborts nor refuses exactly when the load has a meaning, and then leaves it: the meaning CommitsExactly says item by item |
| LoadRuns.Database.Load | repository/load.go:124-153 | a load commits exactly when every exchange and every item decoded fits, renderings and references included, and then stores exactly those items' writes; with any refusal or abort nothing changes |
| LoadCommits.CommitsExactly | handlers/load.go:351-375 | a load commits exactly when every exchange is 2xx and parses or read absence, every page links and decodes, and of the items decoded each row's first can be written after those before it, holds its references and renders as recorded, and every other record of the row is the same item, from a chain of its own |
| LoadCommits.CommittedRendersItsRows | handlers/load.go:702-743 | in a committed load every row is rendered from all that was written and the diff of its recording with that rendering, lined up, names nothing |
| LoadCommits.RenderedMeansRecorded | handlers/load.go:702-753 | which is to say that the rendering means at the row's path what the recording does there, pruned by its rules |
| LoadCommits.CommittedResolves | handlers/load.go:650-700 | every reference of a committed load's row names a row whose own record agrees with its copy leaf by leaf, or no row and a type never read |
| LoadCommits.CommittedRepeats | handlers/load.go:594-637 | every other record of a committed load's row is of another chain and differs from the row's own in nothing its rules compare |
| LoadCommits.ItemsInOrder | handlers/load.go:354-362 | items are decoded loader by loader in rank order, and one loader's exchange by exchange as recorded |
| LoadMeaning.CommittedWrites | handlers/load.go:551-583 | a load that commits wrote every row with a write exactly once, parents first, and nothing else, and counts exactly those |
| LoadMeaning.CommittedHoldsEveryItem | handlers/load.go:551-637 | every item of every 2xx exchange of a committed load is its row's own or another chain's record equal to it by Diff |
| LoadMeaning.CommittedRepeatsNothing | handlers/load.go:594-637 | no linked chain of a committed load holds an item twice, in one page or in two |
| LoadMeaning.CommittedFollowsItsReads | handlers/load.go:479-515 | a committed load carried only tokens an earlier page of the read answered, and every page that answers more is followed |
| LoadTrees.AligningNeverMatters | handlers/load.go:745-753 | aligning a rendering with its recording changes how differences are named, never whether there are any |

## Left out

- HTTP, XML and JSON wire shapes, error codes and messages: a refusal is told from service, not worded, but where the text names the first id or index at fault.
- SQL: tables are maps, a statement's row locking is one atomic step, and a UNIQUE that the invariant makes unreachable (rule positions, an interface's private IP) is proved never to fire instead of being checked again.
- Interleaving: a request's reads and writes are one step, so EIP and interface agreement is stated between requests.
- Loaded rows in the EC2 runs: they may hold any recorded address, and an interface kept on termination or without an instance; runs start from an empty database. Empty regions, which span all, are not sent by the handlers modelled.
- Volumes, key pairs, AMIs and instance profiles, which a launch also checks; port and CIDR validation of rules; availability zones; attributes other than the termination guard.
- Terminating is the only state a handler moves an instance to; SetInstanceState's other targets are not modelled.
- The undo of a create whose tags fail: a tag insert on a stored row has no way to fail in the model.
- Ec2Store: the requests whose repository method is one statement (gateways, associations, routes, groups, attributes, releases) are steps of `Ec2Ops` only; an UPDATE or DELETE of many rows is one assignment, and the triggers fire once after a transaction's deletes.
- BackfillVPCDefaults: the ids the makers draw are functions of the VPC's id.
- The memo of forms is keyed by a tree's value, where the code keys it by the node's address; equal trees have one form either way.
- Ties of `sort.Slice` between groups of one name and membership but different protocols: the model keeps first-seen order, which no body of one protocol can tell.
- The leaf hash is a parameter; every result but the choice among pairs of unequal members holds for any hash.
- Parsers of XML and JSON, MergePages, and the individual loaders; `Diff`'s lists of ignored and encoded paths are parameters.
- Trees are values: alignSubtree writes indexes into the rendered tree in place, and diffAppend into the kid; the model gives the changed value.
- A row's `seen` map is kept by the run, keyed by row and chain.
- LoadPages.Link: pages are numbered within their read, in recorded order, where the code uses exchange indexes, which `LoadLinks` maps them to. A request's parameters but its page token, as they sort and encode, are one string of the exchange.
- LoadRuns.Database.Load: the identity row, the snapshot and the request log are not part of this model. A failed load's refusals are proved to be some, not which.
- A panic or a failed statement in a loader's step is its failing outcome; refusals' text is not modelled.
- Route53 zones' own create and delete rules, changes' records, and alias targets, which are part of a record's value; `strings.ToLower` is taken on ASCII names.
- Filters.Parse: a value too large to compile is a parameter; patterns stand for compiled regular expressions, with their denotation.
- `unread` and `ec2ParamName`, which name the parameters a Describe does not read: those names are an input of the refusal.
- Other services (DynamoDB, S3, SQS, KMS, SSM, Secrets Manager, EKS, RDS, IAM, STS): mostly keyed create, read and delete, which would only add easy members.
