# Verification of cni-ipvlan-vpc-k8s

A Dafny 4.11 model of the parts of the CNI plugins on which pod networking safety rests, and proofs about
it. `dafny verify dfyconfig.toml` checks everything.

## What is modelled

**The life of a pod address.** The IPAM plugin hands an address to a pod and a later plugin binds it; between
the two, nothing but time stamps in a registry file keeps the address from being handed out again or given
back to EC2. `PodLifecycle` is a state machine whose steps are the observable micro-steps of ADD, DEL and the
registry GC, each of which may also stop at any point, interleaved with everything the lockfile does not stop:
the clock, pods that bind and vanish, EC2 metadata that lags. `PodSafety` proves, over all runs, that no two
pods share an address, that the GC never takes an address that is in use, that ADD never hands off an address
that EC2 has taken away, and that a live pod keeps its address. Each theorem assumes only the delays it needs.
`PodTightness` shows that these delays are exact: one nanosecond less and a run breaks the guarantee. With
D = longest time from hand-off to bind, S = ADD's time from its snapshot of bound addresses to its decision,
M = the same from its metadata read, L = metadata lag, W = `reuseIPWait` and F = `free-after`, the guarantees hold

- for exclusive use exactly if D + S + 1s − 1ns ≤ W, as long as EC2 never grants what metadata shows elsewhere,
- for the GC exactly if D + 1s − 1ns ≤ F,
- for addresses that EC2 took away exactly if L + M + 1s − 1ns ≤ W.

The second less a nanosecond is what RFC 3339 text without a fraction (section 5.6 of RFC 3339) loses.

**The registry.** `JsonTime`, `RegistryFile` and `AwsRegistry` model the file, its truncate-then-encode writes,
and the class whose every operation loads, changes and rewrites it. The file refines a plain map with times
floored to the second. `AwsRegistry.FindFreeIPsAtIndex` is the scan that keeps the registry in step with
metadata and with the addresses bound in namespaces. `PodLifecycle` changes its file with the same functions
(`Write`, `AgedBefore`, `Saved`) that specify these methods. `PodAgreement` shows, under any interference, that the
machine's scan, its decision about reuse, its poll for new addresses, its stamps of a new interface, its DEL and its
GC have the effects that the contracts of the code state; `PodProgress` that DEL, the GC and an ADD with a new
interface can always go on to their end.

**The commands.** `Ipam` (ADD and DEL), `RegistryGc`, `AwsAllocate`, `AwsInterface` and `AwsSubnets` are the
imperative code: what is asked of EC2, where, how much, and what the registry holds afterwards, on every error
path. `Environment` keeps a log of everything that was answered (metadata, bound addresses, limits, subnets, aged
registry entries, failures) in its order, and `Ec2Api` the list of requests, so that contracts can say from which
answers a result was computed, in which order things were read, and why a command failed. `EniCapacity` proves
over whole runs that no request goes past the limits. `AwsCache` bounds the age of the cached answers behind
limits and subnets; `AwsVpc` and `Lockfile` are the remaining helpers.

**Route tables without a lock.** Many processes claim a policy routing table at the same time
(`plugin/unnumbered-ptp`). `RouteClaim` is the state machine of N processes, teardown and foreign programs over
one kernel; `RouteSafety` proves for every interleaving that tables are not shared, and `RouteTightness` that
this holds exactly for callers whose lists are not empty and sort to the same first destination. `UnnumberedPtp`
is the code, running against a kernel that others change between any two of its calls; each of its kernel calls
is a step of `RouteClaim`. `RouteOrder` is the sorting.

## What is assumed

- Time: instants are nanoseconds in unbounded integers; the clock never goes back. RFC 3339 text is represented
  by the second it names.
- The lockfile is exclusive and is released when its holder dies.
- EC2 grants an address only to a request of this node, and only if nobody uses it. Whether it may grant one that
  metadata still shows on another interface is a parameter (`Regrants`): never, to interfaces that ask, or to new
  ones too; `PodTightness` decides exclusive use for each. Unassigning that answers with an error did not happen. An attached address that metadata
  shows stays shown. An interface index is not used again.
- A pod binds only the address it was handed, within D. Addresses that the host itself binds are bound from the
  beginning. Namespaces can be listed completely whenever listing them succeeds.
- Nobody clears the registry once an address was handed out, and nobody runs the tool's manual `deallocate`.
- In the first state registry times are whole seconds in the past and metadata is exact. A run is `spoiled` once
  an address was released and the record of it was lost to a crash or a failing write; only the theorems on
  addresses that EC2 took away, or grants while metadata shows their old place, exclude such runs.
- `RouteAdd` is atomic and creates exclusively; deleting a link deletes its routes; the first state has no routes
  of the plugin. The texts of distinct destinations are distinct. `routeTableStart` lies in 0 to 2^63 − 1001.
- The contracts about registry entries that no operation touched speak of files that this program wrote, that is,
  of whole seconds (`Whole`), and those about complete effects of runs in which no registry operation failed
  (`Smooth`, going by the log).

Where the documentation and the code differ, the model follows the code: `max-reap` 0 does not mean "reap none"
(`RegistryGc.ZeroIsNoLimit`), peer CIDRs are told apart by their texts and not as networks
(`AwsVpc.RepeatedNetworks`), and the gateway is written over the network's own address bytes
(`Ipam.AppendLast`).

## Model

| member | source | states |
|---|---|---|
| PodSafety.PodsAreExclusive | plugin/ipam/main.go:79-212 | in every reachable state of ADD, DEL, GC and the environment, two pods that are bound or in flight have different addresses, if W covers D, S and the rounding and EC2 never grants an address that metadata shows on another interface; if it may do so on request, the same holds in runs that recorded every release, if W also covers L, M and the rounding |
| PodSafety.GcReleasesUnused | cmd/cni-ipvlan-vpc-k8s-tool/cni-ipvlan-vpc-k8s-tool.go:328-372 | whenever the GC is about to deallocate an address, no pod has it bound or in flight, if F covers D and the rounding |
| PodSafety.HandsOffOwned | plugin/ipam/main.go:92-111 | ADD hands off only addresses that EC2 still has on the node, however far metadata lags within L |
| PodSafety.LivePodsKeepTheirAddress | plugin/ipam/main.go:205-251 | from hand-off until its DEL begins, a pod's address stays on the node and with no other pod |
| PodSafety.CoreStep | aws/registry.go:74-145 | every step, torn and missing writes included, keeps: an address in use is unregistered or registered later than its hand-off less a second |
| PodSafety.GcStep | cmd/cni-ipvlan-vpc-k8s-tool/cni-ipvlan-vpc-k8s-tool.go:334-372 | every step keeps: what the GC has aged before its snapshot is not in flight, and what of it is in use is in the snapshot |
| PodSafety.SingleStep | plugin/ipam/main.go:92-133 | every step keeps exclusive use, together with what ADD knows at each of its stages |
| PodSafety.GoneStep | plugin/ipam/main.go:235-248 | every step keeps: an address still shown after it was taken away is registered no earlier than it was taken, or is being recorded |
| PodTightness.ExclusiveIff | README.md:281-285 | all runs keep addresses exclusive if and only if W is at least D + S + 1s − 1ns and EC2 never grants an address that metadata shows elsewhere |
| PodTightness.ExclusiveUnlessSpoiledIff | aws/interface.go:129-135 | the runs that recorded every release keep addresses exclusive if and only if W is at least D + S + 1s − 1ns and either EC2 never grants what metadata shows elsewhere, or it does so on request only and W is at least L + M + 1s − 1ns; granting it to a new interface breaks exclusive use with any W, because of the stamp at the epoch |
| PodTightness.GcSafeIff | aws/registry.go:211-234 | all runs of the GC spare addresses in use if and only if F is at least D + 1s − 1ns |
| PodTightness.OwnedIff | aws/freeip.go:7-11 | all runs hand off only addresses that EC2 has on the node if and only if W is at least L + M + 1s − 1ns |
| PodTightness.OwnedWithoutGcIff | plugin/ipam/main.go:234-250 | the same bound is needed if the GC never runs: an address that DEL took away is then handed off again exactly if W is shorter |
| PodEligible.NeverStranded | plugin/ipam/main.go:92-133 | from any reachable state, so after any failed ADD: a scan without failures registers each listed address that is not bound, and if it stays unbound it is reusable at every ADD that decides more than W after that scan, and that ADD does not ask EC2 |
| PodEligible.ScanRegisters | aws/freeip.go:25-60 | a scan without failures has registered every scanned address that is not bound, whatever the environment does and whether or not the file was there |
| PodEligible.EligibleAfterWait | plugin/ipam/main.go:92-114 | a registered address that stays unbound, through any commands and non-torn writes, stays registered with its time and decides every ADD that takes its cutoff more than W later |
| PodEligible.SeededIsReusable | aws/registry.go:83-97 | what an absent file is seeded with is at the epoch and, while it stays unbound, decides every ADD at once |
| PodAgreement.ScanAgrees | aws/freeip.go:25-63 | whatever the environment does meanwhile, a scan of the state machine without failing registry calls ends with the free list and the registry that the code's contract states |
| PodAgreement.ScannedByStep | aws/freeip.go:45-59 | one scanning step changes the file just as ScanAddress promises |
| PodAgreement.DecisionAgrees | plugin/ipam/main.go:92-114 | at the end of a scan the state machine may reuse an address, or turn to EC2, exactly if the code finds it, or nothing, reusable |
| PodAgreement.PollAgrees | aws/allocate.go:69-91 | under any interference, a poll of the state machine whose registry calls succeed goes on with the first of the results, in the order of the view, that CollectNew promises, and leaves its registry |
| PodAgreement.EpochAgrees | aws/interface.go:129-135 | under any interference, stamping the addresses of a new interface leaves the registry that StampAtEpoch promises |
| PodAgreement.DelAgrees | plugin/ipam/main.go:234-250 | under any interference, a DEL of the state machine whose registry writes succeed leaves the registry that CmdDel promises |
| PodAgreement.DelFromBegin | plugin/ipam/main.go:222-250 | from its very beginning, a DEL that gets to its end under any interference has recorded the address of its pod if that is bound, and left the registry and EC2 alone otherwise |
| PodAgreement.DelTakes | aws/allocate.go:165-172 | a DEL that asks the interface with its pod's address takes exactly this address off the node |
| PodAgreement.GcAgrees | cmd/cni-ipvlan-vpc-k8s-tool/cni-ipvlan-vpc-k8s-tool.go:346-372 | under any interference, a GC of the state machine gives each visited address one fate and leaves the registry that Collect promises |
| PodAgreement.FailingWriteEnds | plugin/ipam/main.go:205-248 | a registry write that fails ends an ADD before anything is handed off, and a DEL; a scan and a poll stop with what they found so far, and the GC goes on |
| PodAgreement.PollMayBeRepeated | aws/allocate.go:68-101 | a poll that brought nothing may be followed by another one for any addresses that are new to the interface |
| PodProgress.DelCompletes | plugin/ipam/main.go:234-250 | a DEL of a bound pod can always go on to its end, with the address off the node and recorded as of now |
| PodProgress.GcCompletes | cmd/cni-ipvlan-vpc-k8s-tool/cni-ipvlan-vpc-k8s-tool.go:346-372 | a GC can always go on to its end: every visited address of the node that is not in use is off it, these and the ones in use are forgotten, and nothing else changes |
| PodProgress.CreatedCompletes | aws/interface.go:127-137 | an ADD with a new interface can always go on until metadata shows one of its addresses and that is handed off |
| PodProgress.SeededCompletes | aws/registry.go:83-97 | an ADD that finds no registry file can reuse an unbound address of the node at once |
| JsonTime.StoredOnce | lib/jsontime.go:14-31 | what went through a file once is unchanged by going through it again |
| JsonTime.WholeSeconds | lib/jsontime.go:14-31 | a file can hold exactly the whole seconds |
| RegistryFile.SaveEffect | aws/registry.go:127-145 | a complete save changes one entry, floors it, and keeps the others to the nanosecond |
| RegistryFile.WriteEffect | aws/registry.go:127-145 | an interrupted write is read back as the old entries, none, or the new ones; no entry is ever made up |
| RegistryFile.FileRefinesPlainMap | aws/registry.go:147-209 | after any history of changes the file holds exactly the plain map's entries, each floored once |
| RegistryFile.AgedAgainstPlainMap | aws/registry.go:211-234 | after any history, nothing released before t is missed, and what is reported was released less than a second after t |
| RegistryFile.LastChangeCounts | aws/registry.go:147-209 | a history leaves an address as its last change did: recorded at that time, forgotten, or as before |
| RegistryFile.SenselessIsReplaced | aws/registry.go:110-124 | a file that does not decode, or is of another schema, counts as empty and is replaced by the next change |
| AwsRegistry.Registry.Load | aws/registry.go:74-125 | an existing file is only read; a missing one is seeded, at the epoch, with exactly the addresses that a logged interface numbered 0 or above lists and that are not among the logged bound ones, or stays missing if the listings fail; always terminates |
| AwsRegistry.Registry.Save | aws/registry.go:127-145 | the file is untouched, torn, or exactly the floored entries; success is reported for the last only |
| AwsRegistry.Registry.TrackIP | aws/registry.go:164-180 | the file is the old one with this address stamped now, or the write failed and is reported |
| AwsRegistry.Registry.TrackIPAtEpoch | aws/registry.go:147-162 | the same with the epoch as the time |
| AwsRegistry.Registry.ForgetIP | aws/registry.go:182-195 | the file is the old one without this address, or the write failed and is reported |
| AwsRegistry.Registry.HasIP | aws/registry.go:197-209 | answers whether the file that it leaves has the address, and changes no existing file |
| AwsRegistry.Registry.TrackedBefore | aws/registry.go:211-234 | lists exactly the addresses recorded before t, each once, and logs that answer; fails only if the registry does |
| AwsRegistry.Registry.Clear | aws/registry.go:236-252 | succeeds if and only if the file is gone afterwards |
| AwsRegistry.FindFreeIPsAtIndex | aws/freeip.go:12-64 | lists metadata and then the namespaces, and reports exactly the addresses of logged interfaces numbered index or above that are not among the logged bound ones; an updating scan without registry failures leaves such an address registered exactly if it was unbound, keeps old times and touches nothing else; it fails only if a listing or the registry does |
| AwsRegistry.ScanInterface | aws/freeip.go:29-60 | what the scan of one interface adds, and how far the registry is in step if it fails part-way |
| AwsRegistry.ScanAddress | aws/freeip.go:45-59 | an unbound unknown address is stamped, a bound one forgotten, a known unbound one left alone, no other entry changes |
| AwsRegistry.FreeExactly | aws/freeip.go:25-44 | the computed list has an address with its interface exactly if metadata lists it there at or above the index and it is not bound |
| AwsRegistry.FreeInOrder | aws/freeip.go:25-44 | the computed list has each such place of metadata once, in the order of metadata |
| Ipam.FirstAged | plugin/ipam/main.go:96-109 | finds the first free address that the registry holds as aged, and misses none |
| Ipam.Look | plugin/ipam/main.go:92-95 | consults the registry after the scan, unless that failed with nothing found, with a threshold of exactly W before |
| Ipam.Reuse | plugin/ipam/main.go:92-111 | picks the first address of the logged scan that the logged aged addresses have too, stamps it, and picks none only if there is none or the registry could not be read |
| Ipam.ReusesOnlyOldEntries | plugin/ipam/main.go:92-111 | an ADD that decides within W − 1s reuses only addresses registered before it began, with the time they had |
| Ipam.NextScanRegisters | aws/freeip.go:45-51 | after the next complete scan, a listed address that is not bound is registered, whatever an earlier ADD left behind |
| Ipam.NextScanForgets | aws/freeip.go:52-59 | after the next complete scan, a listed address that is bound is not registered, and one that no managed interface lists is as before |
| Ipam.Obtain | plugin/ipam/main.go:113-133 | tries an allocation first, by the logged answers, and creates an interface exactly if that brought nothing, for a logged reason; takes the first of the new addresses in a logged view of the chosen interface, or the first address that the created one lists |
| Ipam.Create | plugin/ipam/main.go:121-131 | the exact requests and answers of trying to create an interface, with a justified reason if none was requested; there is an address exactly if an interface came of it that lists one, and then it is the first that it lists |
| Ipam.CreatedIsAnswered | aws/interface.go:118-137 | an interface that a creation brought was attached and is one that a logged listing shows under the MAC address of the attached one |
| Ipam.ChosenIsListed | plugin/ipam/main.go:92-133 | wherever the address of an ADD comes from, its interface lists it |
| Ipam.CmdAdd | plugin/ipam/main.go:79-212 | hands off an address it may reuse or, if it asked EC2, the one it obtained, and only once it has left the registry; asks EC2 exactly if nothing could be reused, first for an allocation and, only if that brought nothing, for a new interface, with exactly these requests; fails only if those logged answers brought no address or for a later logged reason; a failing ADD leaves the address it reused or cleanly allocated registered, or the file torn |
| Ipam.HandOver | plugin/ipam/main.go:153-211 | forgets the address before the result is handed to the caller, which is the last thing to happen and happens only then; if preparing or forgetting fails, the address stays registered or the file is torn |
| Ipam.CmdDel | plugin/ipam/main.go:215-251 | makes one logged attempt for each address in order, up to the first that is not given back or not recorded; each request names the first interface of a logged listing with the address; the addresses before it are stamped, nothing else is touched; with skipDeallocation there is no attempt and no request |
| Ipam.DelTakesBack | plugin/ipam/main.go:234-250 | what EC2 took back in a DEL are exactly the addresses in order up to the first failure, including one that could then not be recorded |
| Ipam.AppendLast | plugin/ipam/main.go:138-141 | the last byte of the network's own address counts up by k, wrapping around, and the other bytes stay |
| Ipam.AboveExactly | plugin/ipam/main.go:135-141 | the address k above differs in the last byte only, and is network + k exactly if that does not wrap around, and always in networks of four or more addresses |
| Ipam.GatewayAndDns | plugin/ipam/main.go:135-141 | the gateway is subnet + 1 and the name server VPC + 2 exactly if the last bytes do not wrap around; in networks of four or more addresses always |
| RegistryGc.Jitter | aws/registry.go:269-275 | never shortens a duration, lengthens it by less than the given part, and panics exactly if the part is below a nanosecond |
| RegistryGc.Visit | cmd/cni-ipvlan-vpc-k8s-tool/cni-ipvlan-vpc-k8s-tool.go:347-367 | an address in use is forgotten without a request; for any other there is one logged attempt to give it back, at the first interface of a logged listing with the address, and it is forgotten exactly if EC2 took it back |
| RegistryGc.Collect | cmd/cni-ipvlan-vpc-k8s-tool/cni-ipvlan-vpc-k8s-tool.go:346-372 | one logged attempt, in order, for each visited address that is not in use, with its outcome as the fate and no other request; the released addresses and the ones in use leave the registry, all else stays |
| RegistryGc.EachIsTried | cmd/cni-ipvlan-vpc-k8s-tool/cni-ipvlan-vpc-k8s-tool.go:347-360 | every visited address that is not in use has an attempt that ended as its fate tells |
| RegistryGc.TriesAreFor | cmd/cni-ipvlan-vpc-k8s-tool/cni-ipvlan-vpc-k8s-tool.go:347-360 | there are no other attempts |
| RegistryGc.GcTakesBack | cmd/cni-ipvlan-vpc-k8s-tool/cni-ipvlan-vpc-k8s-tool.go:346-372 | what EC2 took back in a collection are exactly the addresses that count as released, in order |
| RegistryGc.AgedThenBound | cmd/cni-ipvlan-vpc-k8s-tool/cni-ipvlan-vpc-k8s-tool.go:331-344 | the log has the answer of the registry first and the bound addresses right after it |
| RegistryGc.CollectAfter | cmd/cni-ipvlan-vpc-k8s-tool/cni-ipvlan-vpc-k8s-tool.go:331-374 | for a given wait: the threshold, the order of the two reads, and the attempts and effects of Collect on what they told |
| RegistryGc.ActionRegistryGc | cmd/cni-ipvlan-vpc-k8s-tool/cni-ipvlan-vpc-k8s-tool.go:315-376 | visits exactly the addresses recorded before a threshold between 1.15 F and F ago, against the bound addresses listed after the registry was read, with the attempts and effects of Collect; fails only for a logged reason and then asks nothing of EC2 |
| RegistryGc.AtMostMaxReap | cmd/cni-ipvlan-vpc-k8s-tool/cni-ipvlan-vpc-k8s-tool.go:368-371 | a positive max-reap bounds the number released, is reached if the collection stops early, and stops it as soon as it is reached |
| RegistryGc.NegativeVisitsAll | cmd/cni-ipvlan-vpc-k8s-tool/cni-ipvlan-vpc-k8s-tool.go:368-371 | with a negative max-reap every aged address is visited |
| RegistryGc.ZeroIsNoLimit | cmd/cni-ipvlan-vpc-k8s-tool/cni-ipvlan-vpc-k8s-tool.go:358-371 | with max-reap 0 a failing release before the first success, and nothing else, stops the collection; everything may be released |
| AwsAllocate.DeallocateIP | aws/allocate.go:156-179 | one attempt: a client, a logged listing and then one request, to the first interface it lists with the address; without a client, a listing or such an interface there is no request and the attempt fails |
| AwsAllocate.MadeAsksHolders | aws/allocate.go:156-179 | over any run of attempts, those of a DEL or a GC, every request to give an address back names the first interface of a logged listing with that address |
| AwsAllocate.RequestFits | aws/allocate.go:47-55 | the number requested is between one and the free slots exactly if there is a slot and the batch is not negative; it is all free slots with batch size 0, and otherwise the smaller of the two |
| AwsAllocate.CollectNew | aws/allocate.go:69-91 | the results are the addresses new to the interface that were not registered, each once, in the order of the view, all stamped now; nothing else in the registry changes |
| AwsAllocate.Ask | aws/allocate.go:34-62 | with a client, exactly one request: for all slots free by the logged limits with batch size 0, and otherwise for the smaller of these and the batch |
| AwsAllocate.PollForNew | aws/allocate.go:67-104 | looks the interface up at most ten times, and exactly ten times before giving up; the results are new in a logged view |
| AwsAllocate.AllocateIPsOn | aws/allocate.go:33-105 | one request, for as many addresses as Ask says, and at most ten logged polls; no error means a nonempty result of new, until now unregistered and now stamped addresses of a logged view, in its order |
| AwsAllocate.AllocateIPsFirstAvailableAtIndex | aws/allocate.go:109-147 | going by the logged interfaces, limits and subnets, the request goes to an interface at or above the index with a spare slot in the fullest possible subnet, and to none exactly if no interface offers an address |
| AwsSubnets.SortByAvailable | aws/subnets.go:23-30 | sorts in place by descending count, a permutation |
| AwsSubnets.ChooseInterface | aws/allocate.go:119-146 | chooses an interface numbered index or above with a free slot, in a subnet with the largest positive count of such interfaces, and none exactly if there is no such count |
| AwsSubnets.ChooseSubnet | aws/interface.go:190-209 | chooses a subnet with the largest count among those with all required tags and their values, and none exactly if each lacks one |
| AwsInterface.NewEniFits | aws/interface.go:60-75 | a new interface gets at least one address, and at most the limit exactly if the limit is positive: all of the limit with batch size 0 or more than it, and otherwise the batch |
| AwsInterface.CreateAndAttach | aws/interface.go:66-99 | the exact requests of each outcome: creation, attachment, and deletion after a failed attachment |
| AwsInterface.RollbackLeavesNothing | aws/interface.go:88-99 | after a failed attachment the new interface stands only if its deletion failed; no other interface is affected |
| AwsInterface.StampAtEpoch | aws/interface.go:129-135 | the addresses of a new interface are registered at the epoch and nothing else changes, if the writes succeed |
| AwsInterface.AwaitInterface | aws/interface.go:118-143 | returns an interface that the last of at most 31 logged listings shows under the MAC address and no earlier one does, or none after the settle time, when none of them does |
| AwsInterface.NewInterfaceOnSubnetAtIndex | aws/interface.go:38-146 | the requests and answers of each outcome; returns an interface exactly if it was attached and is shown, and stamps exactly the addresses it was created with; errors leave the registry alone |
| AwsInterface.NewInterface | aws/interface.go:169-212 | going by the logged subnets, interfaces and limits, asks exactly if there is an adapter to spare and a subnet with the tags, in a best such subnet, with the number of interfaces as device index |
| AwsInterface.CreationAsks | aws/interface.go:46-99 | request by request: the new interface is in the chosen subnet with as many addresses as batch size and limit allow, it is attached as the next device, and deleted only if that failed |
| AwsInterface.WaitUntilInterfaceDetaches | aws/interface.go:275-298 | succeeds at the first "available" answer, asks at most attempts + 2 times, and fails only at the first error or after all of them |
| AwsInterface.RemoveInterface | aws/interface.go:217-259 | takes the interfaces in turn up to the first that a failing request or the wait makes it give up; success means all were deleted |
| AwsInterface.RemovalsInOrder | aws/interface.go:223-256 | for any list, an error at position k leaves exactly the first k deleted, in order |
| AwsInterface.RemovalsParted | aws/interface.go:223-298 | for any list, no deletion is requested before that interface was detached and then seen available |
| AwsInterface.LaterUntouched | aws/interface.go:223-256 | for any list, no request mentions an interface that was not reached |
| EniCapacity.StepKeepsLimits | aws/allocate.go:47-55 | a single request fits and keeps the node within its limits |
| EniCapacity.LimitsHold | aws/interface.go:184-186 | over every run, each request fits its interface and no limit on addresses or adapters is exceeded |
| EniCapacity.StepCounts | aws/allocate.go:47-60 | what is granted arrives on the node and what is given back leaves it, to the address |
| AwsCache.ExpiryWithinLifetime | aws/cache/cacheable.go:80-82 | an entry is found for more than its lifetime less a second and never beyond its lifetime |
| AwsCache.Cache.Get | aws/cache/cacheable.go:59-85 | a hit is an answer that was stored at most its lifetime ago; a readable entry is rejected only as expired, after more than its lifetime less a second |
| AwsCache.Cache.Store | aws/cache/cacheable.go:89-117 | only this key's file changes: to the new entry, or to a torn file |
| AwsCache.Cache.Cached | aws/vpc.go:25-52 | a client answers without a request only from an entry within its lifetime, and otherwise with the logged reply; a failed fetch changes no file |
| Environment.Env.ENILimits | aws/limits.go:61-82 | the limits stored at most a day ago or replied now, or the defaults; these come with an error unless the identity could not be read by an earlier call |
| Environment.Env.NewEC2 | aws/client.go:87-103 | a process tries once to read its identity, and has a client exactly if that succeeded; nothing is asked again |
| Environment.Env.GetSubnetsForInstance | aws/subnets.go:42-52 | the subnets are a reply of now or one stored no longer ago than the configured time |
| AwsVpc.DescribeVPCPeerCIDRs | aws/vpc.go:91-137 | each text that parses and that a peering of this VPC lists for its other side, once, and no other |
| AwsVpc.RepeatedNetworks | aws/vpc.go:104-136 | the networks have no repetition exactly if no two texts name the same network |
| Lockfile.LockfileRun | lib/lock.go:13-40 | the command runs once and only under the lock, after at most 999 attempts, and its answer is returned, or it does not run at all; the lock is released |
| RouteOrder.SortSorts | plugin/unnumbered-ptp/unnumbered-ptp.go:190-193 | sorting gives an ascending permutation |
| RouteOrder.SortIsCanonical | plugin/unnumbered-ptp/unnumbered-ptp.go:190-193 | a permutation is ascending exactly if it is this one, so the sorting algorithm does not matter |
| RouteOrder.OrdersAgree | plugin/unnumbered-ptp/unnumbered-ptp.go:190-193 | any two orders of the same destinations are added in the same order |
| RouteOrder.SortSlice | plugin/unnumbered-ptp/unnumbered-ptp.go:191-193 | the slice is sorted in place |
| RouteOrder.BelowExactly | plugin/unnumbered-ptp/unnumbered-ptp.go:191-193 | the order compares texts as dictionaries do: at the first place where they part |
| RouteClaim.SaneStep | plugin/unnumbered-ptp/unnumbered-ptp.go:187-244 | every step, whatever lists callers bring, keeps: a process owns the routes it added while its link lives, and rules belong to finished claims |
| RouteSafety.SharedStep | plugin/unnumbered-ptp/unnumbered-ptp.go:196-230 | every step keeps: a table with any route has the shared first route on the same link, and a table under construction has only its builder's routes |
| RouteSafety.TablesAreExclusive | plugin/unnumbered-ptp/unnumbered-ptp.go:187-244 | in every interleaving, teardown included: one veth per table, one live rule per table, and a live veth's rule names a table with all its routes |
| RouteSafety.SameSetSharesLeast | plugin/unnumbered-ptp/unnumbered-ptp.go:190-193 | callers with the same nonempty set of destinations meet the condition |
| RouteSafety.LosersLeaveNothing | plugin/unnumbered-ptp/unnumbered-ptp.go:205-229 | a losing attempt leaves no route, because collisions show at the first route |
| RouteSafety.TeardownLeavesNothing | plugin/unnumbered-ptp/unnumbered-ptp.go:591-605 | the teardown of DEL removes the rule, the link and the routes of its pod and nothing of any other |
| RouteSafety.TornDownForGood | plugin/unnumbered-ptp/unnumbered-ptp.go:591-605 | whatever follows, a process that was torn down leaves nothing behind again |
| RouteSafety.ClaimsAreDistinct | plugin/unnumbered-ptp/unnumbered-ptp.go:205-216 | a list that repeats a destination never gets a table |
| RouteTightness.ExclusiveIff | plugin/unnumbered-ptp/unnumbered-ptp.go:190-193 | all interleavings keep tables exclusive if and only if the lists are nonempty and share their first destination |
| RouteTightness.ClaimableIff | plugin/unnumbered-ptp/unnumbered-ptp.go:205-229 | a list can be claimed at all if and only if it repeats no destination |
| UnnumberedPtp.FirstUnused | plugin/unnumbered-ptp/unnumbered-ptp.go:178-184 | the least unused table from the start on, within as many steps as tables are used; the error exactly if none is left |
| UnnumberedPtp.UsedTables | plugin/unnumbered-ptp/unnumbered-ptp.go:167-177 | the tables of both logged listings together, or an error exactly if one of them failed |
| UnnumberedPtp.FindFreeTable | plugin/unnumbered-ptp/unnumbered-ptp.go:166-185 | the least table from the start on that neither logged listing names, or an error because a listing failed or every table is named; in steps of the state machine |
| UnnumberedPtp.AddRoutes | plugin/unnumbered-ptp/unnumbered-ptp.go:205-216 | adds all routes or gives the table up, under interference, in steps of the state machine |
| UnnumberedPtp.ClaimTable | plugin/unnumbered-ptp/unnumbered-ptp.go:195-230 | the least table, from a start within a thousand of the configured one, that neither of two logged listings names, with all routes; or an error because ten times a route could not be added or because the last search found a listing that failed or every table named |
| UnnumberedPtp.AddPolicyRules | plugin/unnumbered-ptp/unnumbered-ptp.go:187-244 | every run of the code under interference is a run of the state machine, so it ends with exclusive tables; success means a rule for a table that ClaimTable could claim, with all routes there as long as the link lives, and an error has the reasons of ClaimTable or a rule that could not be added |

## Left out

- AWS, metadata, netlink, iptables and namespace calls: their answers are arbitrary, within the assumptions above.
- JSON and address text: an address is its 32-bit value, and a file is its decoded contents or garbled.
- `ensurePath`, `ensureDirectory`, permissions and closing of files: a failure there is a failure to open.
- `Registry.List`, command-line printing and flags, `parseConfig`: they would only add easy members.
- `setupNodePortRule`, SNAT, veth and gratuitous ARP set-up: sequences of foreign calls.
- PodAgreement.PollAgrees: the state machine's ADD is tied to the code stage by stage; what is granted, shown and handed off between the stages is tied only by the functions they share.
- Environment.Env.NewEC2: after a failed read of the identity the code goes on without a client or without a document, and panics at its next use of it; here that attempt fails and the command goes on.
- Sleeping and randomness: any delay and any value in range; int64 overflow of durations is not modelled.
- Ipam.CmdAdd: bringing the interface up, the CIDR queries and printing are one step each that may fail; the routes of the result are not modelled.
- Ipam.GatewayAndDns: starts from the four bytes of an IPv4 network; an interface without an IPv4 CIDR is not modelled.
- AwsSubnets.SortByAvailable: is an insertion sort, while the library's algorithm depends on the length; its contract holds for either.
- AwsAllocate.AllocateIPsOn: after a failing registry write nothing is said about the entries of the other results.
- AwsInterface.NewInterfaceOnSubnetAtIndex: marking the interface for deletion on termination and its MTU are left out; failures there are ignored by the code.
- Environment.Env.GetSubnetsForInstance: the contents of the reply are arbitrary; the request for subnets and the tags of the answer are not modelled.
- AwsCache.Cache.Get: the age of an answer counts from when it was stored, which is right after it was fetched.
- Lockfile.LockfileRun: a process that exits inside the command leaves the lock to the library, which detects dead owners.
- RouteClaim.SaneStep: names a process by its veth; an interface index that the kernel reuses is not modelled.
