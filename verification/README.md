# Models of the ggo-kea-dhcp appliance

Dafny models of the logic in a DHCP appliance for Green-GO intercom networks, and proofs of what that
logic promises. Each part follows one group of Go files. Code that works step by step is modelled as
methods, loops, classes and arrays in the same shape, each proved against a specification function; the
theorems are lemmas about those functions, for all inputs and all runs.

- **Pool allocator** (`Addresses`, `Gaps`, `PoolLayout`, `LayoutMethods`, `LayoutSafety`, `LayoutNoPins`,
  `PlanSizes`, `LayoutExact`, `LayoutErrors`, `FitCidr`, `FitGrowth`): laying an
  ordered plan of Fixed, Elastic, Reserve and pinned pools into a subnet, and the search for the smallest subnet
  a plan fits.
- **Packet filters** (`BpfMachine`, `BpfAssembler`, `BpfMeaning`, `Filters`, `FilterMeaning`, `FilterResults`,
  `FilterGates`, `Frames`, `FrameBytes`): the classic BPF machine, a label assembler with its meaning-preservation
  theorem, the two filter programs with their exact accept sets, and the frame parsers they must agree with.
- **Reservation remap** (`RemapPlan`, `RemapMethod`, `RemapAccounts`, `RemapTheorems`, `RemapExecutor`, `RemapRun`): the
  demotion fixpoint that plans subnet-id moves under a unique key, and the two-phase executor.
- **Device classes** (`ClassNames`, `DeviceClasses`, `ClassPartition`, `ClassExact`, `ScopePlan`, `SeededPlans`,
  `ScopePools`, `Rebalance`, `RebalanceExact`, `RebalanceRun`): Kea test expressions as
  a syntax tree with an evaluator, their agreement with the Go classifier, seeded plans, and the rebalancer.
- **Lease cache** (`LeaseCache`, `LeaseProtocol`, `LeaseExact`): the single-flight cache as a state machine over
  its locked sections, in every interleaving of any number of callers.
- **Presence and frame clock** (`Presence`, `FrameClock`), **ARP sweep** (`Sweep`).
- **Names, DNS, port rows, announces** (`StringOrder`, `Slugs`, `HostnameLabels`, `LabelsExact`, `DnsNames`,
  `DnsMessages`, `PortRows`, `PortRowsExact`, `GreenGoCipher`).

Where the code and its comments part, the code is modelled:

- `network+2` (internal/kea/addr.go:27) wraps in uint32. The wrap is modelled; three blocks at the top of
  the address space lose containment and closure, and the theorems say so exactly.
- `onTick` (internal/netmon/monitor.go:429-478) credits the interval *after* a blind tick, because it tests
  the previous tick's flag. The clock is monotone from tick to tick. From a frame to the next tick it is so
  exactly when the earlier tick was not blind or the frame came at the same time (`FrameBeforeNextTick`). A
  reset between the two ticks un-elides the open blind interval, so blind time can then count as absence:
  `ElidedExactly` gives the exact condition and `ResetUnelidesBlindInterval` a run where it happens.
- Fitting is not monotone in the number of addresses (`GrowthByOneCanBreakFit`); `SafeGrowth` and
  `MonotoneExactly` say for which plans it is, `GrowthFitsExactly` for
  which windows; every seeded plan is safe (`SeededPlansGrow`).
- `PlanSubnetRemaps` serves movers first come, first served. No plan that does so leaves fewer rows, but
  serving a later mover first can move more (`FirstComeLeavesLeast`, `LaterMoverFirstCanMoveMore`).
- The rebalancer looks at each lease once, so a slot freed by a later move stays free: `FreeSlotExactly` says
  when, and `EarlyLeaseLeftBehind` shows a lease left in the wrong pool with a free slot in its own.
- A row of an unpinned port keeps the address and subnet of the first lease of its key while its device and
  hostname follow the last ones (`FoldedExactly`).
- The steady filter decides destination port 5810 before source port 67, so on a Green-GO interface a DHCP
  answer sent to port 5810 is kept only if it has the announce subtype.
- `decodeName` bounds the labels at 255 octets without the root octet (section 2.3.4 of RFC 1035 counts
  it); its labels may contain dots, and the round trip is stated on dot-separated names.
- A response echoes the question verbatim but not the header it may point into, so it need not ask the query's
  question again: `SelfContainedExactly` and `ReparsesExactly` say exactly when it does.
- `HostnameSlugs` panics on colliding devices whose full tag is needed and leaves no room for the name; real
  keys, with 12 hex digits, never get there.
- `slugifyHostname` lower-cases by Unicode, so the Kelvin sign and the dotted capital I survive as `k` and `i`.

Each part has theorems (most are named `...Exactly`) that say outright, in addresses, octets and numbers and with
both directions of every condition, what its specification functions compute.

`Common`, `Casing` and `Decimal` hold what the parts share.

Conventions: Go's mutated slices and maps are `seq` and `map` variables or fields; errors and panics are
`Result`/`Option` values or a false result; arbitrary map iteration is `:|`. Octets in the DNS model are
integers 0..255 and its mask tests are ranges; the packet filters and the cipher use bit-vectors.

## Model
| member | source | states |
|---|---|---|
| Addresses.PoolWindowExact | internal/kea/addr.go:16-30 | Outside three wrapping blocks a subnet has a pool window exactly when its prefix is /30 or shorter, and the window is [network+2, broadcast-1]. |
| Addresses.WrapsAroundExactly | internal/kea/addr.go:16-30 | network+2 wraps for 255.255.255.254/31, 255.255.255.254/32 and 255.255.255.255/32 and for no other block; there the window starts below the block. |
| Addresses.BlockExactly | internal/kea/addr.go:16-30 | The geometry of every block: sizes halve with each bit of the mask, the network is a multiple of the size at or below the address, the broadcast the last address. |
| Addresses.WrappedWindowExactly | internal/kea/addr.go:16-30 | The windows of the three wrapping blocks, address by address. |
| Gaps.SortIvls | internal/kea/layout.go:284-290 | The in-place insertion sort leaves in the array the specification sort of what was there. |
| Gaps.SortedIsOrdered | internal/kea/layout.go:284-290 | That sort orders by start address and keeps every interval as often as it occurred. |
| Gaps.FreeGaps | internal/kea/addr.go:71-87 | The loop computes the free-gap list for reservations in any order and at any address, the uint32 wrap of hi+1 included. |
| Gaps.WrappingAgrees | internal/kea/addr.go:71-87 | Where no reservation ends at 255.255.255.255 the wrap never shows: the list is the one over plain integers. |
| Gaps.GapsClearExactly | internal/kea/addr.go:71-87 | Around ordered reservations every gap is clear of every reservation if and only if none ends at 255.255.255.255, where hi+1 wraps to 0. |
| Gaps.FreeGapsOrdered | internal/kea/addr.go:71-87 | Around ordered reservations the gaps are non-empty, ascending, disjoint and meet no reservation. |
| Gaps.FreeGapsTotal | internal/kea/addr.go:71-87 | The sizes of the gaps and of the reservations add up to the size of the window; as they are disjoint (FreeGapsOrdered), each address is in exactly one. |
| Gaps.FreeGapsExact | internal/kea/addr.go:71-87 | Around ordered reservations the gaps hold exactly the unreserved addresses of the window, and no two touch. |
| Gaps.FirstFit | internal/kea/addr.go:91-98 | The first gap large enough: it fits and no earlier gap does; one past the last when none fits. |
| Gaps.FirstFitGap | internal/kea/addr.go:91-98 | The loop finds that gap, or answers -1. |
| Gaps.Largest | internal/kea/addr.go:101-109 | The first of the widest gaps. |
| Gaps.LargestGapIdx | internal/kea/addr.go:101-109 | The loop finds it, or answers -1 on no gaps. |
| Gaps.ShrinkGap | internal/kea/addr.go:113-119 | The gap list after the front of one gap is used; a used-up gap disappears. |
| Gaps.ShrunkStaysOrdered | internal/kea/addr.go:113-119 | Shrinking keeps the list ordered, clear of the span just taken, and inside the former gaps. |
| Gaps.ShrunkTotal | internal/kea/addr.go:113-119 | Shrinking removes exactly the addresses taken. |
| Gaps.ShrunkExact | internal/kea/addr.go:113-119 | After shrinking, the gaps hold exactly the addresses they held before, less the span taken, and still no two touch. |
| LayoutMethods.CollectPins | internal/kea/layout.go:144-165 | The pin loop accepts the same pins, and fails with the same error at the same pool, as the specification. |
| LayoutMethods.SizeSpecs | internal/kea/layout.go:173-225 | The sizing loops (sums, rounded weighted shares, leftover to the first heaviest, floor checks) compute the specified sizes or the specified error. |
| LayoutMethods.PlaceSpecs | internal/kea/layout.go:227-273 | The placement loop over the shrinking gap list computes the specified ranges or error. |
| LayoutMethods.LayoutPools | internal/kea/layout.go:121-280 | The allocator as written, loops and error returns included, computes the specification Layout that the theorems below are about. |
| LayoutSafety.LayoutSafe | internal/kea/layout.go:121-280 | For every accepted plan, pinned or not and however fragmented: one result per spec, ranges pairwise disjoint and inside the window, pins verbatim, unpinned Fixed/Reserve of exactly Size addresses, unpinned Elastic at least its class floor. |
| LayoutSafety.LayoutInsideSubnet | internal/kea/layout.go:121-130 | Every emitted range lies in [network+2, broadcast-1], so network+1 is in none, unless the block is one of the three that wrap. |
| PlanSizes.SizesExactly | internal/kea/layout.go:173-225 | In numbers: sizing succeeds exactly when no asked size is negative, the fixed ones fit together and every elastic share reaches 5, or 10 for a catch-all; then every pool gets its asked size or its share, the first heaviest also what rounding leaves. |
| LayoutExact.LayoutExactly | internal/kea/layout.go:121-280 | For every plan, pinned or not, the allocator answers exactly the ranges that lay it well: pins as written; every other pool at the lowest run of as many addresses as it is owed that is clear of all pins and earlier pools; an elastic pool for which there is none on the lowest of the longest free runs. |
| LayoutExact.WellLaidOnce | internal/kea/layout.go:121-280 | A plan can be well laid in at most one way. |
| LayoutErrors.RefusedExactly | internal/kea/layout.go:121-280 | Every refusal: the error and the pool it names are those of the plan's first fault, pins before sizes before placement, and an error is returned only for its fault. |
| LayoutErrors.SubnetExactly | internal/kea/layout.go:121-280 | From the subnet on: which error a bad subnet gives, and otherwise that the result repeats the class and kind of each spec over exactly that layout, or is exactly that refusal. |
| FitCidr.ContainmentFailsExactlyOnWrap | internal/kea/addr.go:27 | Some accepted layout leaves [network+2, broadcast-1] if and only if the block wraps. |
| LayoutNoPins.FitsExactly | internal/kea/layout.go:173-225 | Sizing succeeds exactly when sizes are non-negative, the fixed sizes fit, and every elastic share meets its floor. |
| LayoutNoPins.NoPinLayout | internal/kea/layout.go:112-120 | Without pins the layout succeeds exactly when the sizes fit, and each range then starts where the ranges before it end. |
| LayoutNoPins.NoPinTiling | internal/kea/layout.go:112-120 | The ranges cover every address of the window if and only if some pool is elastic or the fixed sizes use the window up. |
| LayoutNoPins.SizesTotal | internal/kea/layout.go:200-225 | The sizes add up to the whole window with an elastic pool, and to the fixed sizes without one. |
| LayoutNoPins.ElasticShares | internal/kea/layout.go:200-225 | Every elastic pool but the first heaviest gets exactly the floor of its weighted share of what is left; the first heaviest gets at least its share. |
| LayoutNoPins.HeaviestIsFirst | internal/kea/layout.go:209-219 | The pool that takes the leftover is at least as heavy as every elastic pool and strictly heavier than every earlier one. |
| FitCidr.FitCIDR | internal/kea/layout.go:75-98 | The mask loop computes the first fitting mask downwards from the typed one, or leaves the subnet as typed. |
| FitCidr.FitsWhenDoubled | internal/kea/layout.go:200-225 | A plan that fits n addresses fits any window of 2n or more; this is where the catch-all floor being at most twice the minimum pool is needed. |
| FitCidr.GrowthByOneCanBreakFit | internal/kea/layout.go:200-225 | Growth by a single address can break a fit: three equally weighted elastic pools, the first of them a catch-all, fit 26 addresses and not 27. |
| FitGrowth.GrowthFitsExactly | internal/kea/layout.go:200-225 | A plan that fits n addresses fits a larger window if and only if it has no elastic pool or the first heaviest one meets its class floor there: no other pool can lose its floor. |
| FitGrowth.SafeGrowth | internal/kea/layout.go:200-225 | A fit survives every growth when at most two pools are elastic, or some elastic pool other than the first heaviest has at least its class floor. |
| FitGrowth.MonotoneExactly | internal/kea/layout.go:200-225 | A plan's fit survives every growth if and only if growth by one keeps it at each of the finitely many sizes below the point where every share reaches the highest floor. |
| FitGrowth.SeededPlansGrow | internal/appliance/scope.go:36-107 | For every seeded plan, whatever the device counts, a fit survives every growth. |
| FitCidr.WiderFits | internal/kea/layout.go:75-98 | For plans without explicit ranges, fitting is closed under widening the mask. |
| FitCidr.FitDependsOnMask | internal/kea/layout.go:75-98 | Whether such a plan fits depends on the mask alone. |
| FitCidr.FitIsSmallest | internal/kea/layout.go:75-98 | The fitted subnet is the smallest: its mask and every wider one fit, and every mask between it and the typed one does not; it is never wider than /8 unless typed so. |
| FitCidr.FitIsIdempotent | internal/kea/layout.go:75-98 | Fitting twice is fitting once, for every plan and every subnet. |
| FitCidr.FitExactly | internal/kea/layout.go:75-98 | For every plan, explicit ranges included: the typed block if it fits or is no IPv4 block; else the longest shorter mask down to /8 that fits; else the typed block. |
| FitCidr.FitFoundIffSlash8Fits | internal/kea/layout.go:75-98 | A fit is found if and only if the plan fits the /8. |
| FitCidr.WrappingBlocksBreakClosure | internal/kea/addr.go:27 | On the three wrapping blocks closure fails: some plan fits there and not in the enclosing /30. |
| BpfAssembler.BpfAsm.Emit | internal/netmon/bpf.go:47 | Appending an instruction extends the labelled program by it. |
| BpfAssembler.BpfAsm.SetLabel | internal/netmon/bpf.go:49 | Setting a label extends the labelled program by it; a later definition of the same name wins. |
| BpfAssembler.BpfAsm.EmitJump | internal/netmon/bpf.go:52-55 | A jump is recorded and emitted unpatched. |
| BpfAssembler.BpfAsm.Resolve | internal/netmon/bpf.go:63-85 | The patching loop succeeds exactly on resolvable programs (elsewhere the code panics) and then leaves the flattened program with every skip patched. |
| BpfMeaning.ResolvePreservesMeaning | internal/netmon/bpf.go:63-85 | For every labelled program resolve does not reject, every starting item, register state and frame: the patched code returns what label-level execution returns. |
| BpfMeaning.ResolvableIff | internal/netmon/bpf.go:57-85 | Resolve panics exactly when some jump names an undefined label, one behind it, or one more than 255 instructions ahead. |
| Filters.BuildAsm | internal/netmon/bpf.go:90-154 | The emitting code builds the labelled steady filter. |
| Filters.BuildProbeAsm | internal/netmon/rogueprobe.go:18-50 | The emitting code builds the labelled onboarding filter. |
| FilterMeaning.SteadyVerdict | internal/netmon/bpf.go:90-154 | On every frame, of any length and content, the steady filter accepts exactly the documented frame classes, 5810 decided before source port 67 when Green-GO is on. |
| FilterMeaning.ProbeVerdict | internal/netmon/rogueprobe.go:18-50 | The onboarding filter accepts exactly first-fragment IPv4 UDP frames from port 67, untagged or single-tagged. |
| FilterResults.BuildBpfInstructions | internal/netmon/bpf.go:158-162 | The resolved steady program never panics in resolve and, run from its start, accepts exactly those frames. |
| FilterResults.RogueOfferInstructions | internal/netmon/rogueprobe.go:18-50 | The same for the resolved onboarding program. |
| FrameBytes.HeaderLenExactly | internal/netmon/frame.go:104-117 | For every version and length nibble the header is four times the length nibble long. |
| FrameBytes.SteadyExactly | internal/netmon/bpf.go:90-154 | The steady accept set in octets and numbers: ethertypes, group addresses, protocol, fragment offset, header length, ports and announce octets, each written out. |
| FrameBytes.ProbeExactly | internal/netmon/rogueprobe.go:18-50 | The onboarding accept set in octets and numbers, untagged and behind one tag. |
| FrameBytes.EtherExactly | internal/netmon/frame.go:69-91 | When an Ethernet header parses, and its type, payload offset and VLAN, in numbers. |
| FrameBytes.UdpFrameExactly | internal/netmon/frame.go:69-127 | When a frame's UDP ports parse, in octets, and which numbers they are. |
| FilterGates.UdpFrameKept | internal/netmon/frame.go:69-125 | For a frame whose UDP ports parse: kept exactly when always kept, or a first fragment with a wanted port. |
| FilterGates.ControlFramesKept | internal/netmon/bpf.go:90-154 | Every frame passing the IGMP, LLDP/CDP, STP or ARP gate is kept. |
| FilterGates.PortFramesKept | internal/netmon/detect_ptp.go:100-120 | A PTP, duplicate-IP or Green-GO announce frame is lost exactly when it is a later fragment and neither tagged nor sent to a CDP or STP group. |
| FilterGates.RogueFramesKept | internal/netmon/detect_roguedhcp.go:77-112 | A rogue-DHCP answer neither tagged nor sent to a CDP or STP group is lost exactly when it is a later fragment, or (Green-GO on) goes to port 5810 without being an announce. |
| FilterGates.ProbeMatchesParsers | internal/netmon/rogueprobe.go:18-50 | On frames whose headers parse the onboarding filter accepts exactly the first fragments from port 67. |
| FilterGates.ProbeAcceptsOnlyUdp | internal/netmon/rogueprobe.go:18-50 | Everything it accepts is IPv4/UDP by its own header bytes. |
| RemapPlan.HostKeyInjective | internal/appliance/remap.go:51-55 | The key text identifies (identifier, type, subnet) even when the identifier contains the separator. |
| RemapPlan.DemotedIsClosed | internal/appliance/remap.go:87-110 | The demoted set, defined as the least one, leaves no blocked or out-ranked mover outside it. |
| RemapMethod.DemoteToFixpoint | internal/appliance/remap.go:87-110 | The fixpoint loop terminates, because each pass that demotes leaves fewer movers, and skips exactly the least demoted set. |
| RemapMethod.PlanSubnetRemaps | internal/appliance/remap.go:69-119 | Moves, skips and orphans are, in row order, the movers outside the least demoted set, those inside it, and the rows no scope contains. |
| RemapAccounts.EveryRowAccounted | internal/appliance/remap.go:69-119 | Every row is accounted for: orphans are exactly the rows whose address is in no subnet; a row with the right subnet is in no list; every other row, of any identifier type, is moved to the subnet of its address, or skipped and then stays because another planned row of its device holds that subnet. |
| RemapAccounts.SkipsAreLeast | internal/appliance/remap.go:69-119 | The skips are the least set left in place that avoids every clash and serves the first of each target first. |
| RemapTheorems.PlanKeepsKeysDistinct | internal/appliance/remap.go:69-119 | If the input triples are distinct, so are the triples after the moves. |
| RemapTheorems.SkippedTargetsAreTaken | internal/appliance/remap.go:69-119 | Every skipped row has its target triple held by another row of the final table: no skip is needless. |
| RemapTheorems.FirstComeLeavesLeast | internal/appliance/remap.go:69-119 | Among the sets of movers that can stay in place with the key unique, those containing the skipped rows are exactly the ones in which only the first mover in row order may go to a given target: first come, first served cannot leave fewer rows. |
| RemapTheorems.LaterMoverFirstCanMoveMore | internal/appliance/remap.go:69-119 | Serving a later mover first can move more: a table of five rows where the plan moves two and another consistent choice moves three. |
| RemapTheorems.ReplanMovesNothing | internal/appliance/remap.go:69-119 | Planning the resulting table in the same row order skips every remaining mover again. |
| RemapExecutor.HostsTable.Update | internal/db/mariadb.go:220-249 | One UPDATE statement: it fails exactly when it would give two rows one key, and otherwise rekeys the addressed row only. |
| RemapExecutor.ExecExactly | internal/db/mariadb.go:220-249 | Of one UPDATE statement: rejected exactly when it would give two rows one key; otherwise only the row it names changes, and only its subnet. |
| RemapExecutor.HostsTable.UpdateReservationSubnets | internal/db/mariadb.go:220-249 | The park loop, then the place loop, in one transaction: all statements or none. |
| RemapExecutor.TwoPhaseIsSimultaneous | internal/db/mariadb.go:206-249 | For consistent moves no statement of either phase violates the unique key and the result is the simultaneous application of all moves, swaps and cycles included. |
| RemapExecutor.SimultaneousRows | internal/db/mariadb.go:206-249 | Simultaneous application means: every moved row is at its new key with its old contents, every other row is untouched, and nothing else exists. |
| RemapRun.MatchSubnet | internal/appliance/remap.go:26-43 | The first scope containing the address, by its position plus one. |
| RemapRun.PlanIsConsistent | internal/appliance/remap.go:69-119 | A plan is always consistent with the table it was planned from, if no id lies in the park range. |
| RemapRun.PlanExecutes | internal/appliance/remap.go:137-178 | Executing the plan succeeds and leaves exactly the planned rows. |
| RemapRun.RemapReservationSubnets | internal/appliance/remap.go:137-178 | One reconcile, on whatever the table holds by then: the lists are the plan of the rows read; the transaction is applied as a whole or rolled back; on the table that was read (keys unique, no id in the park range) it succeeds and leaves the planned rows. |
| RemapRun.SecondRunPlansNothing | internal/appliance/remap.go:69-119 | A second reconcile reports no move. |
| DeviceClasses.ClassPrefixExpr | internal/kea/classes.go:93-102 | The loop builds the disjunction of the class prefixes. |
| DeviceClasses.GGOOthersTest | internal/kea/classes.go:126-135 | The loop builds the scope-relative catch-all test. |
| DeviceClasses.ClassifyMAC | internal/kea/classes.go:167-181 | The nested scan returns the class of the first table row with a matching prefix. |
| ClassPartition.BandExact | internal/kea/classes.go:33-44 | The table rows are pairwise exclusive: each matches exactly its own band of the first three digits after the OUI. |
| ClassPartition.ClassTestAgrees | internal/kea/classes.go:93-107 | A class test holds of a MAC exactly when ClassifyMAC gives that class. |
| ClassPartition.OthersTestAgrees | internal/kea/classes.go:141-160 | The OTHERS test holds exactly of non-Green-GO MACs, as ClassifyMAC says. |
| ClassPartition.GGOOthersAgrees | internal/kea/classes.go:126-135 | The scope-relative GGO-OTHERS test holds exactly of Green-GO MACs whose class is not pooled. |
| ClassPartition.ExactlyOneTest | internal/kea/classes.go:93-181 | For every MAC and every set of pooled classes exactly one of the pooled tests, GGO-OTHERS and OTHERS is true. |
| ClassExact.ClassExactly | internal/kea/classes.go:33-181 | The class of every MAC text, prefix by prefix and name by name. |
| ClassExact.NormalChar | internal/appliance/identity.go:128-132 | What the normal form makes of each single character. |
| ClassExact.NormalAppend | internal/appliance/identity.go:128-132 | The normal form treats each character on its own. |
| ScopePlan.ToSpecs | internal/appliance/scope.go:275-299 | The loop turns plan entries into allocator specs with the class floors applied. |
| ScopePlan.SpecMeetsFloor | internal/appliance/scope.go:275-299 | A fixed entry is never smaller than its class floor or its count, unless sized explicitly for an ordinary class. |
| SeededPlans.SpecExactly | internal/appliance/scope.go:275-299 | What each kind of entry asks for, in numbers: automatic sizes are the count but at least 5, or 10 for a catch-all; weights are at least 1. |
| ScopePlan.SeedPlan | internal/appliance/scope.go:36-107 | The seeding closures build the reserve, the non-zero device classes in order, and the two catch-alls. |
| SeededPlans.SeededExactly | internal/appliance/scope.go:36-107 | A seeded plan asks for a reserve of 18, then for a fixed pool of max(count, 5) for exactly the classes whose own forecast count is positive, in order, then for the two catch-alls with weights 2 and 1; on other presets for one elastic pool of weight 1. |
| ScopePools.PooledGGO | internal/kea/profile.go:211-221 | The pooled device classes of a rendered scope. |
| ScopePools.PooledNameExact | internal/kea/profile.go:211-221 | A class is pooled exactly when some emitted pool has it. |
| ScopePools.AdmitsByClass | internal/kea/profile.go:157-165 | A guard built from a class alone admits exactly the MACs of its class; the catch-all also those whose class has no pool. |
| ScopePools.AdmittedExactlyOnce | internal/kea/profile.go:140-174 | In a complete scope every MAC is admitted by exactly one emitted pool, whatever order Kea tries them in. |
| ScopePools.SeededPlanAdmitsOnce | internal/appliance/scope.go:36-107 | A seeded Green-GO plan that lays out admits every MAC to exactly one emitted pool of at least the minimum size. |
| Rebalance.RebalanceTargets | internal/appliance/rebalance.go:50-109 | The loops over scopes, placements and leases plan exactly the specified moves. |
| Rebalance.SweepConserves | internal/appliance/rebalance.go:85-106 | Total occupancy never changes. |
| Rebalance.StartsWithinCapacity | internal/appliance/rebalance.go:71-83 | With at most one lease per address no pool starts above its capacity. |
| Rebalance.SweepWithinCapacity | internal/appliance/rebalance.go:85-106 | At every step every pool stays between the leases still to be looked at in it and its capacity, so never below zero. |
| Rebalance.OccIsSettled | internal/appliance/rebalance.go:85-106 | The occupancy array is what the planned moves lead to. |
| Rebalance.EveryMoveExplained | internal/appliance/rebalance.go:85-106 | Every planned move is of a lease that is not fixed, from the pool holding its address to a different pool of its own class. |
| RebalanceExact.PlanExactly | internal/appliance/rebalance.go:85-106 | A lease is moved exactly when it is not fixed, sits in another pool than its own class's and that pool has a free slot when the lease is looked at; the moves are in lease order and name the lease and both classes. |
| RebalanceExact.FreeSlotExactly | internal/appliance/rebalance.go:85-106 | A misplaced lease that stays found its own pool holding its full capacity; a slot is free there at the end exactly when later moves took more devices out of that pool than into it. |
| RebalanceExact.NothingLeftBehind | internal/appliance/rebalance.go:85-106 | With a free slot at the end in a pool no move left, every misplaced lease of its class has moved. |
| RebalanceExact.EarlyLeaseLeftBehind | internal/appliance/rebalance.go:85-106 | Without that condition one can be left behind: two leases and two pools where the first stays although the second move frees its slot. |
| RebalanceExact.ScopeLeasesExactly | internal/appliance/rebalance.go:71-83 | The leases of a scope are, in order, exactly those with an address between its network and broadcast addresses. |
| RebalanceExact.PoolBoundsExactly | internal/appliance/rebalance.go:50-70 | The pools that take part are, in order, exactly the placements with a class and a range that are no reserve. |
| RebalanceExact.EveryScopePlanned | internal/appliance/rebalance.go:50-109 | Every scope's plan is part of the run's, unbroken. |
| RebalanceRun.RunWithinCapacity | internal/appliance/rebalance.go:50-109 | For whole runs: with at most one lease per address no pool of any scope is planned above its capacity or below zero, and each scope keeps its total occupancy. |
| RebalanceRun.EveryRunMoveHasOrigin | internal/appliance/rebalance.go:50-109 | Every move of a whole run releases a lease that is not fixed, out of the pool holding it and into a different pool of the same scope and of its class. |
| Rebalance.MoveChangesMembership | internal/appliance/rebalance.go:50-109 | In a vendor-free plan of one pool per known class a moved MAC fails the guard of the pool it leaves and meets the guard of the pool it enters. |
| LeaseCache.Cache.Enter | internal/web/leasecache.go:65-95 | The first locked section: return the stored result, wait for the poll in flight, or lead. |
| LeaseCache.Cache.Wake | internal/web/leasecache.go:79-95 | The locked section after a wait: a forced caller goes round again, another returns what is stored. |
| LeaseCache.Cache.Land | internal/web/leasecache.go:98-111 | The deferred section: store the outcome (a failure if the fetch panicked), clear the marker, close the channel. |
| LeaseExact.EnterExactly | internal/web/leasecache.go:65-95 | In every reachable state, what entering does: with a positive maxAge and a stored result younger than it, the caller is done with that result and nothing is dispatched; else with a poll in flight it waits; else it dispatches one. |
| LeaseExact.WakeExactly | internal/web/leasecache.go:79-95 | And what waking does: a caller with a positive maxAge is done with what is stored; a forced one waits for the poll in flight or dispatches one. |
| LeaseExact.FetchesAreSpaced | internal/web/leasecache.go:65-119 | A fetch started by a caller entering with a positive maxAge starts at least maxAge after every earlier landing; every other is started by a forced caller that has waited. |
| LeaseProtocol.StepInv | internal/web/leasecache.go:65-119 | Every event of every interleaving keeps the protocol invariant. |
| LeaseProtocol.ReachableInv | internal/web/leasecache.go:65-119 | So every reachable state has it. |
| LeaseProtocol.AtMostOneFetch | internal/web/leasecache.go:65-119 | At most one fetch is in flight in any reachable state. |
| LeaseProtocol.HistoryIsRun | internal/web/leasecache.go:65-119 | The record of events a state carries is exactly the run that led to it, so "when it entered" and "what the poll published" mean what happened. |
| LeaseProtocol.ReturnsAreFresh | internal/web/leasecache.go:65-119 | A forced caller that is not cancelled returns its own poll, dispatched no earlier than it entered; another returns a result younger than its maxAge by the clock at the event of its entry, or one that landed after that event, or its own; and always what that poll published. |
| LeaseProtocol.PanicReadsAsFailure | internal/web/leasecache.go:98-111 | Whoever reads a stored result reads exactly what its poll published: what the fetch returned, or a failure, never an empty success, if it panicked. |
| LeaseProtocol.LandingReleases | internal/web/leasecache.go:98-111 | Every landing publishes what the fetch returned, or a failure if it panicked, clears the marker and makes every waiter runnable. |
| LeaseProtocol.NobodyIsStuck | internal/web/leasecache.go:79-95 | A waiter can be woken now, or by the landing of a running fetch. |
| Presence.Subject.Sighting | internal/netmon/detector.go:121-127 | A sighting restarts the run after a gap longer than absenceAfter. |
| Presence.Subject.Transition | internal/netmon/detector.go:132-145 | A tick reports the edge and flips the state with it. |
| Presence.SustainedExactly | internal/netmon/detector.go:155-157 | Over any run, sustainedFor answers yes exactly when the edges so far leave the subject confirmed and the last unbroken run of sightings spans d. |
| Presence.StateTracksSightings | internal/netmon/detector.go:104-127 | Over any run the fields remember exactly the last sighting and the start of the last unbroken run. |
| Presence.EdgesAlternate | internal/netmon/detector.go:104-145 | Over any run of sightings and ticks, at any times, edges alternate starting with +1. |
| Presence.ConfirmedMeansSustained | internal/netmon/detector.go:132-145 | A +1 means the sightings end in an unbroken run that is fresh and spans confirmAfter. |
| Presence.ConfirmedExactly | internal/netmon/detector.go:132-145 | A +1 is reported exactly when presence was not confirmed, the last sighting is fresh and its unbroken run has lasted confirmAfter. |
| Presence.LostExactly | internal/netmon/detector.go:132-145 | A -1 is reported exactly when presence was confirmed and the last sighting is older than absenceAfter. |
| FrameClock.Monitor.OnTickNow | internal/netmon/monitor.go:429-478 | One tick: credit the interval if the previous tick was blind, tick the detector on the frame clock, remember this tick. |
| FrameClock.Monitor.HandleFrame | internal/netmon/monitor.go:403-417 | A frame reaches the detector on the frame clock. |
| FrameClock.Monitor.ResetTickBaseline | internal/netmon/monitor.go:208-211 | A reset forgets the previous tick and its blindness. |
| FrameClock.TickToTick | internal/netmon/monitor.go:193-211 | From tick to tick the frame clock advances by the real interval, or stands still exactly when the earlier tick was blind; it never runs backwards. |
| FrameClock.FrameBeforeNextTick | internal/netmon/monitor.go:403-478 | A frame between two ticks is stamped no later than the second tick if and only if the first was not blind or the frame came at the very time of it. |
| FrameClock.TickResetTick | internal/netmon/monitor.go:208-211 | Across a reset it advances by the real interval even after a blind tick. |
| FrameClock.FrameClockIsSeenTime | internal/netmon/monitor.go:429-478 | Over any run of ticks it advances by exactly the time outside the intervals that follow a blind tick. |
| FrameClock.HeldAdvancesBySeenTime | internal/netmon/monitor.go:193-211 | Over every run of frames, ticks and resets, the clock held still in frozen intervals advances by exactly the counted time: the time outside frozen intervals, plus each frozen interval a reset cut short. |
| FrameClock.ElidedExactly | internal/netmon/monitor.go:193-211 | The counted time is the time outside blind intervals if and only if no reset falls inside one: a reset un-elides the open blind interval. |
| FrameClock.ResetUnelidesBlindInterval | internal/netmon/monitor.go:208-211 | A reachable run where that costs the guarantee: confirmed on a blind tick, reset at 100 and ticked at 101, the subject is reported lost after one unit of time outside the blind interval, with an absenceAfter of five. |
| FrameClock.LostExactlyAfterSeenAbsence | internal/netmon/monitor.go:403-478 | Over every run after a sighting without a further one, resets included, the tick at its end reports -1 exactly when the subject is still confirmed and more than absenceAfter of counted time has passed, less what the sighting was stamped ahead. |
| FrameClock.LostOnlyAfterSeenAbsence | internal/netmon/monitor.go:403-478 | So over every run a -1 fires only after more than absenceAfter of counted time without a sighting. |
| Sweep.SweepTotal | internal/arpscan/prober.go:239-244 | The total number of addresses; empty ranges count nothing. |
| Sweep.SweepIPAt | internal/arpscan/prober.go:276-289 | The walk resolves a flat offset to its address, and falls through past the end. |
| Sweep.IfaceRunner.ProbeOnce | internal/arpscan/prober.go:225-257 | One cycle probes the lease addresses, then the next chunk of the sweep without those, and advances the cursor. |
| Sweep.CycleExactly | internal/arpscan/prober.go:225-257 | A cycle in numbers: the parsed lease addresses in order, then the next min(32, total) sweep positions less those addresses; the cursor moves past them, around the end. |
| Sweep.TotalExactly | internal/arpscan/prober.go:239-244 | The total adds up the sizes of the ranges, an empty one counting nothing. |
| Sweep.OffsetsInOrder | internal/arpscan/prober.go:276-289 | The offsets run through the ranges in order, each from its low end. |
| Sweep.OffsetsOntoRanges | internal/arpscan/prober.go:276-289 | The offsets below the total reach every address of the ranges and no other. |
| Sweep.InjectiveExactlyWhenDisjoint | internal/arpscan/prober.go:276-289 | Distinct offsets give distinct addresses if and only if no two ranges overlap; with the row above, a bijection for disjoint ranges. |
| Sweep.RunIsWindow | internal/arpscan/prober.go:225-257 | Consecutive cycles probe exactly the leases they saw and a window of the sweep as long as their chunks. |
| Sweep.EveryAddressProbed | internal/arpscan/prober.go:225-257 | Cycles adding up to the total probe every address, from any cursor and whatever the leases. |
| Sweep.CyclesNeeded | internal/arpscan/prober.go:225-257 | Over disjoint ranges, sweeping alone reaches every address if and only if the cycles add up to the total. |
| Sweep.CyclesForIsLeast | internal/arpscan/prober.go:225-257 | ceil(total / min(32, total)) is the least such number of cycles. |
| Slugs.SlugifyHostname | internal/web/ggohealth.go:211-231 | The rune loop with its dash flag, the cut at 63 and the trim compute Slug. |
| Slugs.SlugIsSlug | internal/web/ggohealth.go:207-231 | The result is empty or a DNS-safe label of at most 63 characters without double dashes. |
| Slugs.FixedExactlyOnSlugs | internal/web/ggohealth.go:211-231 | A text slugifies to itself exactly when it is a slug. |
| Slugs.SlugIdempotent | internal/web/ggohealth.go:211-231 | Slugifying twice is slugifying once. |
| Slugs.EmptySlugExactly | internal/web/ggohealth.go:207-231 | The slug is empty exactly when the name has no letter or digit. |
| Slugs.ShortSlugKeepsAlnums | internal/web/ggohealth.go:211-231 | A slug not cut at 63 keeps all the name's letters and digits, in order. |
| Slugs.SlugExactly | internal/web/ggohealth.go:211-231 | The slug of every name: its letters and digits in lower case with one dash wherever separators stood between two of them, and of that the longest start of at most 63 characters that does not end in a dash. |
| HostnameLabels.TagSlugOf | internal/web/hostnames.go:104-113 | The tagged slug, base cut to leave room, for every tag that fits (the code slices out of range on one over 62 characters). |
| HostnameLabels.NumberedTagSlug | internal/web/hostnames.go:93-100 | The numbered full-MAC tag, base cut to leave room. |
| HostnameLabels.TagIsLabel | internal/web/hostnames.go:102-113 | A tagged slug is a DNS-safe label of at most 63 characters. |
| HostnameLabels.NumberedIsLabel | internal/web/hostnames.go:91-100 | So is a numbered one. |
| HostnameLabels.TagExactly | internal/web/hostnames.go:102-113 | A tag is the longest start of the slug that leaves room and does not end in a dash, a dash, and the last n characters of the MAC, or all of them. |
| HostnameLabels.NumberedExactly | internal/web/hostnames.go:91-100 | A numbered tag is the longest such start of the full tag, a dash, and the number in decimal. |
| Decimal.ItoaExactly | internal/web/hostnames.go:91-100 | Decimal text: a minus sign exactly below zero, then digits with that value and no leading zero. |
| HostnameLabels.NumberedInjective | internal/web/hostnames.go:93-100 | Different numbers give different labels, wherever the base was cut. |
| HostnameLabels.TakenBound | internal/web/hostnames.go:80-84 | The numbered labels cannot all be taken, so the numbering loop ends. |
| HostnameLabels.Escalate | internal/web/hostnames.go:71-86 | The search from short tag to full MAC to first free number picks the specified label, and panics exactly when the full MAC is needed and longer than 62. |
| HostnameLabels.PickIsFresh | internal/web/hostnames.go:76-86 | The label picked is unused. |
| HostnameLabels.PickIsLabel | internal/web/hostnames.go:76-86 | For a device keyed by a MAC the label picked is DNS-safe. |
| LabelsExact.SharedExactly | internal/web/hostnames.go:39-69 | A named device keeps its slug exactly when no other device has it. |
| LabelsExact.PickExactly | internal/web/hostnames.go:71-86 | A device with a shared slug gets the tag of four characters when no other such device has it and it is free, else the full tag when that is free, else the first free number. |
| LabelsExact.PanicsExactly | internal/web/hostnames.go:71-113 | The code panics exactly on a device that cannot keep its short tag and whose MAC is longer than 62. |
| LabelsExact.LabelsExactly | internal/web/hostnames.go:59-89 | Such devices are labelled in the order of their MACs, each against the labels of the unshared slugs and of the devices before it. |
| StringOrder.LessExactly | internal/web/hostnames.go:38-38 | The string order is that of dictionaries. |
| HostnameLabels.HostnameSlugs | internal/web/hostnames.go:31-89 | For every map the outcome, a panic included, depends on the input map alone, not on its iteration order, and colliding keys of at most 62 letters and digits never panic. Without a panic exactly the devices with a non-empty slug are labelled; labels are pairwise distinct, and DNS-safe for devices keyed by a MAC; an unshared slug stays bare. |
| DnsNames.DecodeName | internal/dns/message.go:62-110 | The loop terminates on every byte string and computes Decode. |
| DnsNames.DecodeBounds | internal/dns/message.go:62-110 | A decoded name ends inside the message, at most 257 octets after it starts, and has at most 255 characters. |
| DnsNames.EncodeName | internal/dns/message.go:115-128 | The loop computes Encode. |
| DnsNames.DecodeEncode | internal/dns/message.go:62-128 | For every name, wherever its encoding stands in a message: decoding gives its non-empty labels, clipped to 63 and in lower case, or fails when they exceed the limit. |
| DnsNames.RoundTripExactly | internal/dns/message.go:62-128 | Decoding the encoding gives the name back if and only if it is lower-case, its dot-separated labels have 1 to 63 octets (or it is the root), and it is within the length limit. |
| DnsNames.PointerDecodes | internal/dns/message.go:62-110 | Two octets pointing anywhere in the first 16384 are read as the well-formed name that stands there, and reading resumes after them. |
| DnsNames.JumpLimit | internal/dns/message.go:62-110 | A chain of pointers to a root is read exactly when it has at most 16. |
| DnsMessages.ParseQuestionOf | internal/dns/message.go:38-55 | The parse computes ParseQuestion. |
| DnsMessages.ParsedBounds | internal/dns/message.go:38-55 | A parsed question ends inside the query and within its first 273 octets. |
| DnsMessages.ParseExactly | internal/dns/message.go:38-55 | A query parses exactly when it has 12 octets, at least one question, a name that decodes at 12, and four more octets. |
| DnsMessages.ParsedWords | internal/dns/message.go:38-55 | Type and class are then the first and the second 16-bit number after the name. |
| DnsMessages.QuestionParses | internal/dns/message.go:38-55 | Every question for a well-formed name, with every type and class, is read as it was asked. |
| DnsMessages.RespondTo | internal/dns/message.go:135-156 | The response is built and edited as specified by Respond. |
| DnsMessages.ResponseFits | internal/dns/message.go:130-156 | A response to a parsed question has at most 512 octets, echoes the question, and either carries all answers without TC or none with it, exactly by whether they fit. |
| DnsMessages.ResponseHeader | internal/dns/message.go:135-156 | The header of every response octet by octet: id, QR, opcode, AA, TC, RD, RA, return code and the four counts. |
| DnsMessages.ARecord | internal/dns/message.go:158-173 | An A record octet by octet: owner, type 1, class 1, TTL, length and address. |
| DnsMessages.PtrRecord | internal/dns/message.go:158-178 | A PTR record octet by octet: owner, type 12, class 1, TTL, length and encoded target. |
| DnsMessages.SelfContainedExactly | internal/dns/message.go:38-110 | A question is read within its own octets, compressed or not, if and only if every message that echoes it and announces a question parses to it. |
| DnsMessages.ReparsesExactly | internal/dns/message.go:38-156 | For a query, return code and AA bit: the response parses to the same question whatever its answers if and only if the empty and the truncated response do and the first is decoded without reading the answer count. |
| DnsMessages.ResponseReparses | internal/dns/message.go:38-156 | So the response to a question read within its own octets always parses to it; for any other question it depends on the header. |
| DnsMessages.LuckyHeaderReparses | internal/dns/message.go:135-156 | A rewritten header can still parse: the name of this query is read outside its question, and every response to it parses to the same question. |
| DnsMessages.PlainIsSelfContained | internal/dns/message.go:62-110 | Every uncompressed question is read within its own octets, with all jumps to spare. |
| DnsMessages.CompressedQuestionNotEchoed | internal/dns/message.go:135-156 | A compressed question can point into the rewritten header: a query that parses and whose response does not. |
| DnsMessages.OwnerDecodes | internal/dns/message.go:158-173 | The owner pointer of any record in the response to such a question, its name one jump short of the limit, decodes to the question's name. |
| DnsMessages.AnswerKept | internal/dns/message.go:135-156 | Each kept answer stands in the response octet for octet. |
| DnsMessages.KeptRecords | internal/dns/message.go:158-173 | A kept A or PTR record belongs to the question's name; the A record carries its address and the PTR data decodes to its target. |
| PortRows.FoldRows | internal/web/pinning.go:115-167 | The pin and lease loops compute the folded rows. |
| PortRows.FoldedCoherent | internal/web/pinning.go:115-167 | Rows sit under their identity, and the pinned rows are exactly the pins with their address, subnet and label. |
| PortRowsExact.FoldedExactly | internal/web/pinning.go:115-167 | Where every field of a folded row comes from: device, age and format from the last lease of its key; hostname from the last one that carries one, else from the pin; address and subnet from the pin, else from the first lease of the key. |
| PortRows.PickWinners | internal/web/pinning.go:187-198 | The winner loop finds, for each device and in any iteration order, the one row of the preferred format that beats all others. |
| PortRowsExact.WinsExactly | internal/web/pinning.go:179-198 | The winner of a device is the row preferred to every other that shows it: the delimited format first, then the later lease, then the lower key. |
| PortRows.OneRowPerDevice | internal/web/pinning.go:169-228 | Exactly the devices shown before the merge are shown after it, each on exactly one row, its winner. |
| PortRows.PinsKept | internal/web/pinning.go:200-228 | Every pinned port is kept with its address, subnet and label, and loses its device only to another winning row. |
| PortRows.UnpinnedDropped | internal/web/pinning.go:200-210 | An unpinned row goes exactly when another row wins its device. |
| PortRowsExact.ShownExactly | internal/web/pinning.go:200-228 | Which rows are shown, which lose their device, and when a row is stale, after more than 1209600 seconds. |
| PortRows.MergePortRows | internal/web/pinning.go:115-228 | The rows returned are, in identity order, exactly the merged rows, whatever order the maps are walked in. |
| GreenGoCipher.LEu32 | internal/netmon/detect_greengo_h.go:23-25 | Reads the little-endian word. |
| GreenGoCipher.PutLEu32 | internal/netmon/detect_greengo_h.go:27-32 | Replaces four octets by the word's and nothing else. |
| GreenGoCipher.RorExactly | internal/netmon/detect_greengo_h.go:19-20 | Bit i of the rotated word is bit i + n of the word, counted round, for every n from 1 to 31. |
| GreenGoCipher.AddExactly | internal/netmon/detect_greengo_h.go:37-57 | Sums count on by one, from 2^32 - 1 to 0. |
| GreenGoCipher.XorExactly | internal/netmon/detect_greengo_h.go:37-57 | The mask sets exactly the bits set in one of the two words. |
| GreenGoCipher.WordExactly | internal/netmon/detect_greengo_h.go:23-25 | The octets of a word lie lowest first. |
| GreenGoCipher.G5DecryptPayload | internal/netmon/detect_greengo_h.go:37-57 | The in-place loop with running key and sum leaves Decrypt of the whole blocks and reports the checksum test. |
| GreenGoCipher.DecryptExactly | internal/netmon/detect_greengo_h.go:37-57 | The plaintext word by word: each block is masked with its key rotated by 6, 19, 1 and 7, and the next key is the key rotated by 15 plus the sum of all plaintext words so far. |
| GreenGoCipher.AcceptedExactly | internal/netmon/detect_greengo_h.go:53-57 | A payload is accepted exactly when its checksum cancels the sum the rounds end with; an unfinished last block is ignored. |
| GreenGoCipher.EncryptDecrypt | internal/netmon/detect_greengo_h.go:37-57 | For every seed, enciphering what was deciphered gives the payload back. |
| GreenGoCipher.DecryptEncrypt | internal/netmon/detect_greengo_h.go:37-57 | And deciphering what was enciphered gives the plaintext: a bijection on whole-block payloads. |
| GreenGoCipher.PrefixStable | internal/netmon/detect_greengo_h.go:37-57 | A block's plaintext does not depend on later blocks. |
| GreenGoCipher.ExactlyOneChecksum | internal/netmon/detect_greengo_h.go:53-57 | Exactly one checksum validates a payload: the negated sum of all plaintext words. |
| GreenGoCipher.SenderReceiver | internal/netmon/detect_greengo_h.go:37-57 | A sender's payload with that checksum, and any partial trailing block, is received as sent. |

## Left out
- Parsing of CIDR, range and lease-address text: the models start from parsed values, with a constructor for text that does not parse.
- LayoutPools: sizes and weights are unbounded integers, so the 64-bit overflow of `remainder * weight` for astronomically large weights is not modelled; error texts are constructors. The internal size guard before placement cannot fire and is omitted.
- BuildBpfInstructions: the raw encoding of instructions and the interpretation by the kernel are outside the model; the machine executes the assembler-level instructions.
- ExactlyOneTest: vendor-OUI pools and IsCatchAll naming are not modelled; their guards overlap by design and Kea resolves them by order.
- ClassifyMAC: lengths of MAC texts are counted in characters, where Go counts octets; the two differ only outside ASCII. The same holds of TagSlugOf.
- AdmitsByClass: vendor pools and the stable sort by precedence in rankScopePools are not modelled; the class guards are shown exclusive, so among them the order cannot matter.
- RebalanceTargets: the release calls to Kea and the fixed-lease lookup are parameters or absent.
- MoveChangesMembership: covers vendor-free plans with one pool per known class; vendor guards may overlap the others.
- WiderFits: covers plans without explicit ranges and blocks that do not wrap; WrappingBlocksBreakClosure shows what happens on the wrapping ones.
- UpdateReservationSubnets: the SQL text, driver errors and other writers are not modelled; a statement fails only on the unique key.
- RemapReservationSubnets: the lookup of scopes, logging and reconcile modes are left out; the rows read and the table at execution are separate inputs.
- ReturnsAreFresh: which leases a poll returned is identified with its number; only whether it returned leases or an error is modelled. Deadlines appear as the Cancel event.
- OnTickNow: one detector stands for all; panics inside a detector, capture open/close and snapshot publishing are left out.
- ProbeOnce: send pacing and send errors are left out; a probe is an attempt to send.
- HostnameSlugs: requires that the devices fit a Go int; a panic is modelled as no result.
- PickIsLabel: DNS safety is stated for keys that are MACs (12 hex digits once normalized); any other key is returned as a unique label only.
- MergePortRows: display texts (remote and circuit id, relative times), the scanned-name overlay and the final hostname labelling are left out; the delimiter test of a flex-id is an input.
- G5DecryptPayload: the TLV records inside the plaintext are not modelled.
- reverseName, the DNS cache, forwarding and TCP framing are not modelled.
- HTTP handlers, sessions, templates, backup, the lifecycle reconciler and Kea configuration rendering are not modelled.
- The detectors' own protocols (beyond their frame gates and presence edge), cap eviction and snapshot texts are not modelled.
