# A model of L2S-M

L2S-M is a Kubernetes operator that connects pods to layer-2 networks. It hands out the interfaces of per-node
switches to pods, gives the pods addresses, and keeps an SDN controller in step with two annotation lists per pod.
This project models that behaviour in Dafny and proves what it keeps, and exactly when it does not.

Three groups of modules follow the source:

- **The port and attachment protocol.** `Cluster` describes the cluster's state (interface labels per node, pods with
  their two lists and finalizers, networks, the pairs at the SDN controller) and what one run of each handler does to
  it; `Quarantine` adds the moves to another network. `Controllers` holds the handlers as they run, in a class whose
  methods update the state step by step, each proved to have the described effect. `HandlerEffects` and
  `QuarantineAnswers` state the whole outcome of each step in terms of the objects alone. `PortInvariant`,
  `SdnAgreement`, `SdnEquality`, `MetPods`, `QuarantineLaws` and `Conservation` show what each step keeps, and `Runs`
  puts the steps together to theorems over every run; `Scenarios` gives short runs that reach the failures named
  below. `NetworkLifecycle` treats the finalizer of networks in the same way; `NadNames`, `Finalizers` and
  `NetworkAnnotations` cover the names, lists and texts they rely on.
- **The address allocators.** `Text`, `Ipv4`, `IpTexts` and `Subnet` give addresses as bytes, numbers and texts
  (CIDR notation as in section 3.1 of RFC 4632) and one notion of subnet for both allocators. `AddressSearch` is
  the in-place search, with the aliasing of its two arrays; `Admission`, `PodAdmission`, `AllocationRuns` and
  `AddressRuns` follow it through one admission, one pod, a sequence of requests and a whole run of the system.
  `IpAllocator` is the block allocator.
- **The monitoring mesh.** `Monitoring` builds the configurations of the nodes, `ReplicaSets` patches pod specs
  that start out sharing their arrays.

Where the code does not meet a property on all inputs, the project states exactly when it does, and what happens
otherwise: a lost label write leaves an owned interface on offer (`PortInvariant.HandleKeepsExactly`), and the next
admission makes two pods own it (`PortInvariant.LostWriteShares`, `Scenarios.LostWriteRun`); an interface is lost for
good when an unmet pod is deleted, when the network that took it is removed, or when its admission hangs, panics or is
not stored (`Runs.InterfacesConservedExactly`, `Scenarios.RemovedNetworkLeaks`); a deletion cut short offers ports
that are still owned (`PortInvariant.DetachKeepsExactly`); a quarantine move cut short breaks the agreement with the
SDN controller (`SdnEquality.MoveAgreesExactly`) and can leave a freed port on the quarantine network
(`MetPods.InterruptedMoveLeaks`), where the next pod gets it (`Scenarios.InterruptedMoveRun`); a full octet makes the
address search spin (`AddressSearch.HaltsExactly`); a fresh search in a narrow block can leave it
(`AddressSearch.RangeExactly`, `AllocationRuns.NarrowBlockEscapes`); an address written with host bits can push a
block allocation out of its subnet (`IpAllocator.GrantInSubnetExactly`, `IpAllocator.GrantEscapes`); an overlay whose
name contains "veth" gets port numbers that are not its own interfaces' (`NadNames.PortRoundTrip`); and a network
whose first update is lost can outlive its object (`NetworkLifecycle.LeaksExactly`).

`dafny verify dfyconfig.toml` checks the whole project.

## Model

| member | source | states |
|---|---|---|
| `Runs.PortExclusivity` | internal/controller/pod_webhook.go:98-202 | from a fresh overlay, after any interleaving of admissions (those that hang, panic or are not stored included), reconciliations, deletions, quarantines, bridge and mirror grabs and removals of networks in which the label and finalizer writes of the operations that complete succeed, whatever SDN or quarantine calls fail: no two owners hold the same interface of a node, every held interface is labelled used and is not offered by any listing, and free, owned and lost interfaces of every node add up to the interface number |
| `Runs.OwnersExist` | internal/controller/l2network_controller.go:81-97 | in every run, whatever fails, every owner of an interface is a pod of the API or a network that still exists |
| `Runs.InterfacesConservedExactly` | internal/controller/overlay_controller.go:451-478 | in such a run the free interfaces and the owners of every node add up to the interface number if and only if so far every deletion request met a pod that was being deleted, carried the finalizer or had no ports, every removed network had taken no interface, and every admission that came to nothing had labelled none |
| `Runs.RunLosesExactly` | internal/controller/pod_controller.go:147-154 | in such a run what is lost stays lost, and nothing is lost if and only if the events were of that kind |
| `Runs.StepKeeps` | internal/controller/pod_webhook.go:98-202 | every single event keeps the port invariant, if it is an admission that comes to nothing or its label and finalizer writes succeed |
| `Runs.SdnContainment` | internal/controller/pod_controller.go:93-270 | in every run whose API writes and detach calls succeed and whose quarantines move only pods that carry the finalizer, each pair at the SDN controller stands at one position of both lists of a pod that carries the finalizer, or is a bridge; attach and other quarantine calls may fail anywhere, and pods may be deleted at any time |
| `Runs.RunContains` | internal/controller/pod_controller.go:93-270 | in every run whose API writes succeed, whatever SDN calls fail and whichever pods quarantine moves, each pair is one of a pod that owns its ports, a bridge, or left by a failed detach or by the deletion of a pod not yet met |
| `Runs.RunStale` | internal/controller/pod_controller.go:122-134 | when detach calls succeed, every pair left behind is on the port of a lost interface, which no one owns |
| `Runs.SdnAgreementHolds` | internal/controller/pod_controller.go:170-270 | when the API writes and the SDN calls of first meetings and deletions succeed and the networks met exist, quarantine moves only pods with the finalizer and fails at no attach call or pod write, and no removed network is named by such a pod, the controller holds exactly the pairs of finalizer-bearing pods and the bridges |
| `Runs.PortsStay` | internal/controller/pod_controller.go:81-276 | from its admission on, no step changes the ports or the node of a pod that still exists |
| `Runs.DeletionUndoesHandle` | internal/controller/pod_controller.go:93-162 | in every run whose API writes and detach calls succeed, after any number of quarantine moves a deletion takes exactly the pod's current pairs from the controller, leaves no pair on its ports, frees exactly the interfaces Handle gave it and changes no other label; the pod stays in the API exactly if another finalizer holds it, with exactly the other finalizers in order, and is otherwise as it was |
| `Scenarios.RemovedNetworkLeaks` | internal/controller/l2network_controller.go:308-344 | a run: a network is created, connected to its network edge device and removed, every call succeeding, and the only interface of the node is neither free nor owned |
| `Scenarios.LostWriteRun` | internal/controller/pod_webhook.go:190-194 | a run: two pods are created and admitted, the first with its label write lost, and both own the one interface |
| `Scenarios.InterruptedMoveRun` | internal/controller/quarantinepodrequest_controller.go:182-196 | a run: a pod is admitted and met, moved with its pod write failing and deleted with every call succeeding; the next pod, which lists the source network only, gets its port, which the controller has on the target network |
| `PortInvariant.InitialInv` | internal/controller/overlay_controller.go:451-478 | the interfaces of a fresh overlay satisfy the port invariant |
| `PortInvariant.HandleOwners` | internal/controller/pod_webhook.go:98-202 | an admission that finds enough free interfaces gives the pod one per listed network, all different and all free before, and labels exactly those whose write goes through; nobody else's ports change |
| `PortInvariant.HandleKeepsExactly` | internal/controller/pod_webhook.go:188-194 | an admission that takes interfaces keeps the invariant if and only if none of its label writes is lost; otherwise some owned interface is not labelled used, and so is offered |
| `PortInvariant.LostWriteShares` | internal/controller/pod_webhook.go:190-194 | an admission whose first label write is lost, followed by another on the same node and listing, leaves two pods owning one interface |
| `PortInvariant.HandleRest` | internal/controller/pod_webhook.go:106-109 | an admission changes no SDN pair and no network's interface, and takes nothing at all when too few interfaces are free |
| `PortInvariant.DetachKeepsExactly` | internal/controller/pod_controller.go:122-160 | a deletion keeps the invariant if and only if it completes or stops before releasing anything; otherwise some owned interface is offered |
| `PortInvariant.DetachReleases` | internal/controller/pod_controller.go:147-154 | a deletion run clears the used label of exactly the entries it finished, on the pod's node only |
| `PortInvariant.DeleteKeeps` | internal/controller/pod_controller.go:168-175 | a deletion request keeps the invariant; it changes no owner unless it meets a live pod without the finalizer, whose interfaces stay labelled used and have no owner any more |
| `PortInvariant.NetworkDownKeeps` | internal/controller/l2network_controller.go:81-97 | the removal of a network keeps the invariant; the interfaces it had taken stay labelled used and have no owner any more |
| `PortInvariant.AbandonKeeps` | internal/controller/pod_webhook.go:112-199 | an admission that labels some interfaces and comes to nothing keeps the invariant, wherever it stops and whichever label writes are lost |
| `PortInvariant.AttachKeeps` | internal/controller/pod_controller.go:170-270 | meeting a pod keeps the invariant, wherever the calls fail |
| `PortInvariant.GrabKeepsExactly` | internal/controller/l2network_controller.go:308-344 | taking a free interface for a network keeps the invariant if and only if its label is written; otherwise the taken interface is offered |
| `PortInvariant.NedKeepsExactly` | internal/controller/l2network_controller.go:308-344 | the same for a bridge to a network edge device, including the ways it takes nothing |
| `PortInvariant.IdsKeepsExactly` | internal/controller/l2network_controller.go:178-240 | the same for an intrusion detection mirror port |
| `PortInvariant.PodStopsOwners` | internal/controller/pod_controller.go:93-162 | when a pod stops owning its ports, exactly its own owners and holds disappear |
| `Conservation.Partition` | internal/controller/pod_utils.go:94-113 | free, held and lost interfaces of a node are disjoint and make up the pool, and there are as many held interfaces as owners |
| `Conservation.Conserved` | internal/controller/overlay_controller.go:451-478 | their numbers add up to the size of the pool |
| `Conservation.InitialSize` | internal/controller/overlay_controller.go:454-478 | the pool of a fresh overlay has as many interfaces as its interface number |
| `Cluster.FreeNads` | internal/controller/pod_utils.go:94-113 | the interfaces of the overlay not labelled used for the node: exactly those, each once |
| `Cluster.Reach` | internal/controller/pod_controller.go:236-254 | how far the attach loop gets: the first entry whose port number is unreadable or whose call fails |
| `HandlerEffects.AdmissionServes` | internal/controller/pod_webhook.go:112-202 | entry i of the Multus list is on the i-th free interface; if it is the first to name its network and networks 0 to i exist, it carries the addresses of that network's own attempt, whose status is then that of this attempt; otherwise a first mention carries its static addresses or the link-local one, and the network is left alone |
| `HandlerEffects.AdmissionTakes` | internal/controller/pod_webhook.go:53-202 | an admission that takes interfaces keeps a scheduled pod's node, sets the pod's list and nothing else of it, and labels for that node exactly the taken interfaces whose write goes through |
| `HandlerEffects.AdmissionRefuses` | internal/controller/pod_webhook.go:106-109 | with too few free interfaces on the pod's own node, or on the picked one, the pod is marked as failed and nothing else changes |
| `HandlerEffects.AdmissionPasses` | internal/controller/pod_webhook.go:51-84 | pods that are being deleted, failed, list no networks or have a Multus list are left alone |
| `HandlerEffects.AdmissionSpares` | internal/controller/pod_webhook.go:112-199 | a network that the pod does not list is left alone |
| `HandlerEffects.AbandonExactly` | internal/controller/pod_webhook.go:112-199 | an admission that comes to nothing changes only labels and network statuses, and loses exactly what it labelled |
| `HandlerEffects.AdmissionPanics` | internal/controller/pod_webhook.go:136-150 | an admission that panics does so at the first entry that asks for an automatic address on a network found whose CIDR does not parse, after the entries before it |
| `HandlerEffects.FreeInOrder` | internal/controller/pod_utils.go:94-113 | the listing of free interfaces keeps the order of the API's listing |
| `HandlerEffects.FreeSingle` | internal/controller/pod_utils.go:94-113 | an interface is listed if and only if its application label is l2sm's and it is not labelled used for the node |
| `HandlerEffects.MeetingExactly` | internal/controller/pod_controller.go:170-254 | a first meeting puts the finalizer after the others; it attaches exactly the pairs before the first unreadable port and the first failing call, and none unless the lists match and all named networks exist |
| `HandlerEffects.ReconcileIdles` | internal/controller/pod_controller.go:76-107 | the reconciler leaves alone pods without both lists, live ones it has met, deleting ones without the finalizer, and deleting ones whose lists differ in length |
| `HandlerEffects.DeletionExactly` | internal/controller/pod_controller.go:93-155 | a deletion detaches exactly the pairs it asks for where the call succeeds, and clears the used label of exactly the entries it is done with, wherever a port is unreadable or an API call fails |
| `HandlerEffects.DeletionFinalizers` | internal/controller/pod_controller.go:97-160 | a deletion completes if and only if every port is readable and no API call fails; the pod then stays in the API exactly if it has another finalizer, with exactly the others in order, and otherwise no pod changes |
| `HandlerEffects.RequestExactly` | internal/controller/pod_controller.go:93-175 | a deletion request marks the pod, which leaves at once if and only if it has no finalizer |
| `HandlerEffects.BridgeExactly` | internal/controller/l2network_controller.go:308-344 | the first free interface is attached and taken for the network unless the attach call fails, and labelled if that write goes through |
| `HandlerEffects.MirrorExactly` | internal/controller/l2network_controller.go:178-240 | the same for a mirror port, which needs a readable port and attaches nothing |
| `SdnAgreement.DeletionReleases` | internal/controller/pod_controller.go:93-162 | a deletion whose calls succeed removes exactly the pod's pairs, leaves none on its ports, frees exactly its interfaces, leaves every other label entry as it was, and takes this operator's finalizer and no other |
| `SdnAgreement.PortOfPod` | internal/controller/pod_controller.go:122-134 | in a good state a pair on one of an owner's ports is that owner's own pair |
| `SdnAgreement.PortIsOwned` | internal/controller/pod_controller.go:119-128 | in a good state two owners with the same port are the same owner |
| `SdnAgreement.RenamedPairs` | internal/controller/quarantinepodrequest_controller.go:192-194 | the quarantine rewrite keeps both list lengths, every port and every other slot |
| `SdnAgreement.MoveContainsExactly` | internal/controller/quarantinepodrequest_controller.go:182-196 | a move that reaches its calls keeps every pair accounted for by the lists if and only if its pod write goes through |
| `SdnAgreement.ForeignPair` | internal/controller/pod_controller.go:119-134 | in a good state a pair on an owner's port that is not the owner's own stands in no owner's lists and is no bridge |
| `SdnAgreement.DetachContains` | internal/controller/pod_controller.go:93-162 | so does a deletion; what failed detaches leave behind is recorded as stale |
| `SdnAgreement.AttachContains` | internal/controller/pod_controller.go:170-270 | so does meeting a pod, wherever the calls fail |
| `SdnEquality.AttachesAll` | internal/controller/pod_controller.go:236-254 | when all networks exist and all calls succeed, every pair of the pod is attached |
| `SdnEquality.MoveAgreesExactly` | internal/controller/quarantinepodrequest_controller.go:182-196 | a move of a pod with the finalizer that reaches its calls keeps the exact agreement if and only if neither its attach call nor its pod write fails |
| `MetPods.MoveMet` | internal/controller/quarantinepodrequest_controller.go:182-196 | a move of a pod with the finalizer keeps every pair at the controller with such a pod, whichever call fails, unless it is the pod write |
| `MetPods.InterruptedMoveLeaks` | internal/controller/quarantinepodrequest_controller.go:188-196 | after a move whose pod write fails, a deletion in which every call succeeds frees the moved port's interface and leaves the port attached to the target network |
| `MetPods.NextPodInherits` | internal/controller/pod_webhook.go:98-202 | when that interface comes first in the listing, the next pod admitted on its node owns it in its first slot, so that the pod's port is on the target network although its lists do not say so |
| `MetPods.DetachMetExactly` | internal/controller/pod_controller.go:130-134 | a completed deletion keeps every pair with a finalizer-bearing pod if and only if no detach of a pair at the controller failed |
| `MetPods.AttachMet` | internal/controller/pod_controller.go:170-270 | so does meeting a pod, wherever its calls fail |
| `SdnEquality.PassAgrees` | internal/controller/quarantinepodrequest_controller.go:105-122 | so does a whole pass over pods with the finalizer in which no attach call and no pod write fails, whatever else fails |
| `SdnEquality.DetachAgrees` | internal/controller/pod_controller.go:93-162 | so does a deletion whose calls succeed |
| `SdnEquality.RemoveNetworkAgreesExactly` | internal/controller/l2network_controller.go:81-97 | removing a network keeps the agreement if and only if no pod with the finalizer has a pair on it |
| `Quarantine.NetworkIndex` | internal/controller/quarantinepodrequest_controller.go:254-261 | the first position of a name, -1 if and only if it does not occur |
| `Quarantine.SweepTo` | internal/controller/quarantinepodrequest_controller.go:105-122 | a pass neither adds nor removes networks or pods |
| `QuarantineLaws.MoveKeeps` | internal/controller/quarantinepodrequest_controller.go:148-203 | a move keeps the port invariant whatever call fails |
| `QuarantineLaws.SweepKeeps` | internal/controller/quarantinepodrequest_controller.go:105-122 | so does a whole pass |
| `QuarantineLaws.SweepPods` | internal/controller/quarantinepodrequest_controller.go:105-122 | a smooth pass renames the first source entry of exactly the live selected pods that have one, and counts them |
| `QuarantineLaws.PassConverges` | internal/controller/quarantinepodrequest_controller.go:105-122 | a smooth pass lowers the number of source entries by the number of moved pods, which is positive while entries remain; pods not selected or not concerned are unchanged; a pod that names the source once is done after one pass |
| `QuarantineLaws.PassesEmpty` | internal/controller/quarantinepodrequest_controller.go:105-122 | as many passes as there are source entries empty the source, whatever order each pass lists the pods in |
| `QuarantineLaws.IdlePass` | internal/controller/quarantinepodrequest_controller.go:162-165 | a pass without source entries changes nothing at all |
| `QuarantineLaws.PassAccounts` | internal/controller/quarantinepodrequest_controller.go:205-222 | moving m pods leaves max(0, s-m) of a positive source count s, and t+m of a target count t; the carried addresses leave the source's map and are recorded for their pods in the target's |
| `QuarantineLaws.PassKeepsCounts` | internal/controller/quarantinepodrequest_controller.go:206-209 | a smooth pass keeps the sum of the two pod counts if and only if the source counted every moved pod, or none moved |
| `QuarantineLaws.PassKeepsAddresses` | internal/controller/quarantinepodrequest_controller.go:211-222 | each carried address leaves the source's map and maps to its pod in the target's, and the total number of recorded addresses is kept, when the carried ones are distinct, in the source and not in the target |
| `QuarantineLaws.MoveAddressesAccount` | internal/controller/quarantinepodrequest_controller.go:211-222 | what the address loop does to the two maps; texts that do not parse are passed over |
| `QuarantineLaws.InvWellFormed` | internal/controller/quarantinepodrequest_controller.go:171-178 | in every reachable state a live pod's lists match and its interfaces have port numbers, so that a move fails only by a failed call |
| `QuarantineAnswers.RefusedExactly` | internal/controller/quarantinepodrequest_controller.go:60-98 | each refusal of a request, exactly under its own condition; none of them touches anything, in particular when the target network is not at the SDN controller |
| `QuarantineAnswers.MovedExactly` | internal/controller/quarantinepodrequest_controller.go:105-125 | an accepted request that no pod stops is answered with the number of pods that took part; exactly these have their first source entry renamed |
| `QuarantineAnswers.FailedExactly` | internal/controller/quarantinepodrequest_controller.go:114-117 | an accepted request that a pod stops is answered with the number of pods moved before it; these are renamed, the pods after it are untouched, and the pod itself is renamed only if merely a status write failed |
| `QuarantineAnswers.SmoothAnswer` | internal/controller/quarantinepodrequest_controller.go:105-125 | when every call succeeds, the answer counts the live selected pods with an entry for the source |
| `QuarantineAnswers.MoveExactly` | internal/controller/quarantinepodrequest_controller.go:148-222 | what a move leaves at the SDN controller, in the pod and in the two network statuses, for each call that may fail |
| `QuarantineAnswers.MoveSkips` | internal/controller/quarantinepodrequest_controller.go:148-165 | a pod without both lists or without an entry for the source is left alone |
| `QuarantineAnswers.StatusesExactly` | internal/controller/quarantinepodrequest_controller.go:205-222 | the source counts one pod less, unless it counted none, and forgets the addresses; the target counts one more and records them for the pod; the last address and the ranges of both stay |
| `Controllers.AssignAddresses` | internal/controller/pod_webhook.go:120-186 | the address part of one iteration computes the specified attempt |
| `Controllers.ControlPlane.GetL2Networks` | internal/controller/pod_utils.go:41-65 | succeeds if and only if every named network exists, and keeps the order |
| `Controllers.ControlPlane.GetL2NetworksMap` | internal/controller/pod_utils.go:68-92 | copies of exactly the networks that are named before the first missing one |
| `Controllers.ControlPlane.Handle` | internal/controller/pod_webhook.go:41-217 | the handler refines the admission step: the pod is served, refused or passed over, or the handler panics at a CIDR that does not parse and leaves the interfaces of the entries before it labelled |
| `Controllers.ControlPlane.AssignPorts` | internal/controller/pod_webhook.go:112-201 | the loop over the listed networks labels, serves and lists as specified, up to the first CIDR that does not parse |
| `Controllers.ControlPlane.ServeNetwork` | internal/controller/pod_webhook.go:114-199 | one iteration on the value copies, their shared address map and the status write, or a panic that writes nothing |
| `Controllers.ControlPlane.Reconcile` | internal/controller/pod_controller.go:65-276 | the reconciler refines the reconciliation step |
| `Controllers.ControlPlane.Connect` | internal/controller/pod_controller.go:170-272 | the finalizer and the attach loop with its early returns |
| `Controllers.ControlPlane.Release` | internal/controller/pod_controller.go:93-163 | the deletion branch |
| `Controllers.ControlPlane.ReleasePorts` | internal/controller/pod_controller.go:122-155 | the detach loop with its early returns |
| `Controllers.ControlPlane.ReleasePort` | internal/controller/pod_controller.go:122-154 | one entry: detach, then reset the label of an interface that still exists |
| `Controllers.ControlPlane.ConnectInternalSwitchToNED` | internal/controller/l2network_controller.go:308-344 | attach the first free interface, then label it; it succeeds exactly if there is one and both calls succeed, and returns it |
| `Controllers.ControlPlane.TakeMirrorPort` | internal/controller/l2network_controller.go:173-240 | the mirror port grab; it succeeds exactly if there is a free interface with a port number and both calls succeed, and returns it |
| `Controllers.ControlPlane.MovePodToTargetNetwork` | internal/controller/quarantinepodrequest_controller.go:148-203 | one pod's move refines the specified move, for each call that can fail |
| `Controllers.ControlPlane.ReconcileQuarantine` | internal/controller/quarantinepodrequest_controller.go:57-125 | one reconciliation gives the specified answer and cluster, panic included |
| `Controllers.ControlPlane.MovePods` | internal/controller/quarantinepodrequest_controller.go:105-122 | the loop over the selected pods, stopping at the first failure |
| `Controllers.NetworkAnnotationIndex` | internal/controller/quarantinepodrequest_controller.go:254-261 | the search loop computes the first position of a name |
| `Controllers.UpdateNetworkStatuses` | internal/controller/quarantinepodrequest_controller.go:205-222 | the count and address loop computes the specified networks |
| `QuarantineLaws.StaysFailed` | internal/controller/quarantinepodrequest_controller.go:114-117 | after the first failure a pass changes nothing more |
| `AddressSearch.StepLastByte` | internal/controller/pod_utils.go:215-223 | the last byte in place, with 8-bit wrap-around |
| `AddressSearch.GetNextAvailableIP` | internal/controller/pod_utils.go:201-231 | for ranges and last addresses of either family, the in-place search returns what the specified search finds and errors exactly when it finds nothing, whenever it ends |
| `AddressSearch.Scan` | internal/controller/pod_utils.go:222-230 | the loop on two arrays, or on the one array both names denote |
| `AddressSearch.HaltsExactly` | internal/controller/pod_utils.go:222-230 | the loop ends if and only if one of the 256 last octets is unassigned, or the search was resumed in a block of fewer than 256 last octets (/25 and longer, /121 and longer for IPv6) or from outside its block |
| `AddressSearch.HaltsWithinOneRound` | internal/controller/pod_utils.go:222-230 | if it ends at all, it ends within 256 iterations |
| `AddressSearch.FirstFit` | internal/controller/pod_utils.go:222-230 | the first candidate, in cyclic order of the last octet, that is free or outside the network decides the result, even if earlier addresses are free |
| `AddressSearch.FoundIsFirst` | internal/controller/pod_utils.go:223-227 | what is found is unassigned, and everything tested before it was assigned |
| `AddressSearch.RangeExactly` | internal/controller/pod_utils.go:201-231 | the found address lies in the CIDR if and only if the last address parses, or the block covers all last octets (/24 and shorter, /120 and shorter for IPv6), or a later block address is unassigned, or no unassigned address of the 256 lies outside the block |
| `AddressSearch.ResumedFirstFit` | internal/controller/pod_utils.go:212-227 | when the last address parses, recorded or not, the addresses after it are tested in turn: the first one outside the CIDR ends the search without a result, the first unassigned one is returned with the prefix of the CIDR, and the search never ends if all 256 are inside and assigned |
| `AddressSearch.FreshFirstFit` | internal/controller/pod_utils.go:212-227 | when the last address is empty or does not parse, the search starts after the network address and never leaves: the first unassigned one of the 256 is returned, and if there is none the search never ends |
| `AddressSearch.SpinsExactly` | internal/controller/pod_utils.go:222-230 | over the arguments: the search never ends if and only if all 256 addresses that differ from its start in the last octet are assigned and it starts afresh, or in a block that covers them all |
| `AddressSearch.BadCidrExactly` | internal/controller/pod_utils.go:202-205 | the range is refused if and only if it does not parse |
| `AddressSearch.FreshNeverFails` | internal/controller/pod_utils.go:212-216 | a fresh search never reports exhaustion, since the network test compares an array with itself |
| `IpAllocator.AllocateIPv4s` | internal/utils/ip.go:39-93 | succeeds if and only if count and start are positive, the prefix is at most 30 and the last offset is at most the block size minus 2; then returns the addresses at consecutive offsets from the written address, and the prefix text |
| `IpAllocator.AllocatedBlock` | internal/utils/ip.go:70-92 | with zero host bits the addresses are consecutive, in the subnet, neither network nor broadcast address, without 32-bit wrap |
| `IpAllocator.InSubnetExactly` | internal/utils/ip.go:52-90 | with host part h an offset stays in the subnet if and only if h + offset is below the block size, or the prefix is 0 |
| `IpAllocator.GrantInSubnetExactly` | internal/utils/ip.go:52-90 | the whole grant does if and only if the host part plus the last offset is below the block size, or the prefix is 0 |
| `IpAllocator.GrantEscapes` | internal/utils/ip.go:52-92 | 10.0.0.128/24 is granted 200 addresses from offset 2 on, some of them outside the subnet |
| `IpAllocator.AllocatableExactly` | internal/utils/ip.go:38-84 | a request is granted if and only if it asks for an address at all and every offset it asks for is neither the network nor the broadcast address of the block |
| `IpAllocator.HostsDistinct` | internal/utils/ip.go:87-92 | distinct offsets below 2^32 give distinct addresses and distinct texts |
| `Subnet.ContainsIsInterval` | internal/controller/pod_utils.go:223 | the byte-wise mask test is membership of the integer interval of the subnet, for IPv4 |
| `Subnet.ContainsIsSame` | internal/controller/pod_utils.go:223 | in either family, an address is in the block of another if and only if both have the same network address |
| `Subnet.AndMask` | internal/controller/pod_utils.go:223 | masking a byte rounds it down to a multiple of a power of two |
| `Subnet.BlockFits` | internal/utils/ip.go:64-72 | a block ends before 2^32 and holds the address it was written with |
| `Ipv4.WordRoundTrip` | internal/utils/ip.go:23-35 | number to bytes and back |
| `Ipv4.BytesRoundTrip` | internal/utils/ip.go:23-35 | bytes to number and back |
| `Ipv4.ParseExactly` | internal/controller/pod_utils.go:212-217 | a text denotes an address if and only if it is that address's dotted form |
| `Ipv4.ParseCidrExactly` | internal/utils/ip.go:52-56 | a text is a CIDR if and only if it is an address, a slash and a numeral up to 32 |
| `Ipv4.DottedInjective` | internal/controller/pod_utils.go:224 | different addresses have different texts, so the map of texts is a map of addresses |
| `IpTexts.ReadWritten` | internal/controller/pod_webhook.go:163-177 | what the search writes into an annotation reads back as the same address and prefix, in either family |
| `IpTexts.ReadCidrExactly` | internal/controller/pod_utils.go:202 | the same in either family, over the library's reading of IPv6 addresses |
| `Admission.AutomaticIsNew` | internal/controller/pod_webhook.go:131-179 | over any run of static and automatic admissions an automatic address differs from every address recorded before, and is recorded itself when the prefix written with it is one of its family |
| `AddressRuns.EntryIsAfter` | internal/controller/pod_webhook.go:112-201 | in every run of the whole system that does not create, remove or quarantine a network, its entry is what serving the first mentions of it, one after another, makes of its first entry, admissions that come to nothing included |
| `AddressRuns.RunAddressesAreNew` | internal/controller/pod_webhook.go:131-179 | so in such a run no automatic address given to a pod's first mention of the network repeats a recorded one |
| `Admission.RecordStays` | internal/controller/pod_webhook.go:175-177 | a recorded address stays recorded |
| `Admission.StaticExactly` | internal/controller/pod_webhook.go:132-182 | a static request keeps its whole address list, records its first address for its pod and counts the pod; nothing else of the network changes, and no other record |
| `Admission.LinkLocalExactly` | internal/controller/pod_webhook.go:136-182 | a request without addresses on a network of layer 2 gets the link-local address and records nothing |
| `Admission.AutomaticExactly` | internal/controller/pod_webhook.go:136-179 | an automatic request searches the pod range, or else the CIDR; it panics exactly if the CIDR does not parse and hangs exactly if the search does; otherwise it gets the found address or nothing before the prefix of the CIDR, which becomes the last address and is recorded for the pod |
| `Admission.AssignRecords` | internal/controller/pod_webhook.go:169-177 | an admission adds at most one key to the record |
| `Admission.NextAllocation` | internal/controller/pod_webhook.go:137-164 | after k automatic allocations on an empty network, the next one within the capacity gets place k+1 |
| `AllocationRuns.Consecutive` | internal/controller/pod_utils.go:201-231 | up to the capacity of the block, the i-th automatic request gets place i+1 |
| `AllocationRuns.WideBlockFills` | internal/controller/pod_utils.go:210-230 | on an empty network of prefix at most 24 the first 256 automatic addresses are last octets 1 to 255 and then 0, and the next automatic request never returns |
| `AllocationRuns.NarrowBlockEscapes` | internal/controller/pod_utils.go:211-230 | on an empty /25 to /31 the request after the capacity is written a prefix without address, and the one after that an address outside the range |
| `PodAdmission.ServedShape` | internal/controller/pod_webhook.go:112-201 | what n iterations leave of each network: one status write, on the first mention |
| `PodAdmission.OnceEach` | internal/controller/pod_webhook.go:112-201 | however often a pod names a network that is found, its status is that of a single admission for the first mention, since later status writes are refused, and the first mention gets what that admission grants |
| `PodAdmission.KnownExactly` | internal/controller/pod_utils.go:83-89 | a network is found if and only if the list names it before the first missing one |
| `PodAdmission.UnknownGiven` | internal/controller/pod_webhook.go:115-182 | a listed network that is not found gives the static addresses or the link-local one, and is not written |
| `PodAdmission.EveryMention` | internal/controller/pod_webhook.go:112-202 | each mention of a network that is found, first or repeated, gets what a single admission grants on the first state of the network with the addresses that the mentions before it recorded, if it had an address map |
| `PodAdmission.CountExactly` | internal/controller/pod_webhook.go:186-199 | the pod count grows by the number of mentions if and only if the pod names the network at most once |
| `PodAdmission.SameAddressTwice` | internal/controller/pod_webhook.go:171-177 | while a network's address map is nil, repeated automatic mentions in one pod receive the same address |
| `PodAdmission.FreshAddressTwice` | internal/controller/pod_webhook.go:171-177 | once it has a map, an address given to one automatic mention is not given to a later one of the same pod |
| `NadNames.IndexFrom` | internal/utils/utils.go:77 | the first occurrence of the keyword |
| `NadNames.BuildNames` | internal/controller/overlay_controller.go:454-467 | one name per interface number, none for a negative count |
| `NadNames.KeywordPlace` | internal/utils/utils.go:73-89 | the keyword is found at the same place in every name of an overlay |
| `NadNames.PortRoundTrip` | internal/utils/utils.go:73-89 | the port number read back is the interface's own if and only if the overlay's name does not contain the keyword |
| `NadNames.PortNumberExactly` | internal/utils/utils.go:73-89 | for any name: the port number is the text after the first keyword, and there is none if and only if the keyword does not occur or first occurs at the end |
| `NadNames.PortsDistinct` | internal/utils/utils.go:73-89 | distinct interfaces of an overlay have distinct names and port numbers, whatever the overlay is called |
| `NetworkAnnotations.ExtractNetworks` | internal/networkannotation/networkannotation.go:45-70 | the two loops compute the specified list |
| `NetworkAnnotations.RenameReadsBack` | internal/controller/quarantinepodrequest_controller.go:158-193 | renaming one entry of a list that was read, writing it and reading it again changes that name and nothing else |
| `NetworkAnnotations.NamesReadBack` | internal/networkannotation/networkannotation.go:47-65 | fields between commas read, after what the decoder filled in before it failed, as the names they hold, without the white space around them and in order; blank fields read as nothing |
| `NetworkAnnotations.DecodedReads` | internal/networkannotation/networkannotation.go:45-70 | a list the decoder accepts reads entry by entry, with the reader's namespace |
| `NetworkAnnotations.TrimPadded` | internal/networkannotation/networkannotation.go:55 | trimming takes away exactly the surrounding white space |
| `Finalizers.RemoveString` | internal/utils/utils.go:30-38 | the loop computes the list without the string |
| `Finalizers.WithoutKeeps` | internal/utils/utils.go:30-38 | every other element stays, as often as it occurred |
| `Finalizers.WithoutOrder` | internal/utils/utils.go:30-38 | and in order |
| `Finalizers.AddThenRemove` | internal/utils/utils.go:30-38 | adding the finalizer at the end and removing it gives the list back |
| `NetworkLifecycle.Reconciler.Reconcile` | internal/controller/l2network_controller.go:66-118 | the handler refines the specified step for every pattern of failing calls; it reports success exactly if it had nothing to call or its calls succeeded, and after a success a deleting object has lost the finalizer and no other, is gone exactly if it has none left, and its network is not live |
| `NetworkLifecycle.ReconciledExactly` | internal/controller/l2network_controller.go:80-118 | for every pattern of failing calls: what becomes of the object, its finalizers and its network, and that nothing else changes |
| `NetworkLifecycle.MeetingEnds` | internal/controller/l2network_controller.go:81-97 | in every run, meeting a deleting object with the finalizer ends its deletion when the network is deleted and the update stored |
| `NetworkLifecycle.RunSound` | internal/controller/l2network_controller.go:81-118 | in every reachable state, each object meets its obligations to the SDN controller |
| `NetworkLifecycle.CarriersAreLive` | internal/controller/l2network_controller.go:104-118 | a network that carries the finalizer and is not being deleted is live at the SDN controller |
| `NetworkLifecycle.LeavesAfterDeletion` | internal/controller/l2network_controller.go:81-97 | an object that carried the finalizer leaves the API only after a successful deletion of its network |
| `NetworkLifecycle.LeaksExactly` | internal/controller/l2network_controller.go:104-118 | an object made and later removed leaves a live network behind if and only if no creation attempt stored the finalizer, and one of them succeeded at the controller or an earlier object had left the network behind |
| `NetworkLifecycle.Life` | internal/controller/l2network_controller.go:104-118 | an object has carried the finalizer if and only if some creation attempt stored it |
| `NetworkLifecycle.LostUpdateLeaks` | internal/controller/l2network_controller.go:105-118 | a lost update right after the creation is such a case |
| `NetworkLifecycle.OthersKeepOrder` | internal/controller/l2network_controller.go:92-115 | no step of the operator changes the other finalizers or their order |
| `NetworkLifecycle.OthersStay` | internal/controller/l2network_controller.go:92-115 | over whole runs, as long as no other controller steps in |
| `Monitoring.BuildMonitoringCollectorResources` | internal/lpminterface/lpminterface.go:114-259 | succeeds if and only if there are nodes, the allocation is granted and the spread factor parses; then gives each node the specified configuration, in order |
| `Monitoring.MapAddresses` | internal/lpminterface/lpminterface.go:175-179 | the map of node addresses |
| `Monitoring.AddressIsLast` | internal/lpminterface/lpminterface.go:175-179 | a node listed several times has the address of its last place |
| `Monitoring.ListNeighbours` | internal/lpminterface/lpminterface.go:188-201 | the inner loop computes the list of other nodes |
| `Monitoring.MeshConsistent` | internal/lpminterface/lpminterface.go:187-211 | for distinct nodes each configuration lists every other node exactly once, in topology order and never itself, with the address the other's own configuration carries and the given intervals, or 10, 20 and 5 seconds |
| `Monitoring.NeighboursInOrder` | internal/lpminterface/lpminterface.go:188-201 | for any nodes, entries come in the order of the nodes they are for, and the node itself has none |
| `Monitoring.MeshAddresses` | internal/lpminterface/lpminterface.go:168-235 | each node's configuration carries the host address at its own place after the start, with the prefix of the range |
| `Monitoring.BuildableExactly` | internal/lpminterface/lpminterface.go:114-135 | collectors can be built if and only if the spread factor parses and the allocator grants one address per node, from the given range and start or the default ones |
| `Monitoring.MeshComplete` | internal/lpminterface/lpminterface.go:168-235 | all node addresses differ, and there are n(n-1) entries in all |
| `Monitoring.DefaultMesh` | internal/lpminterface/lpminterface.go:126-133 | with the default range 10.0.0.0/24 and start, 1 to 253 nodes are served, with the last octets 2, 3 and so on; no other number is |
| `Monitoring.ConfigMapsDistinctExactly` | internal/lpminterface/lpminterface.go:203-220 | the ConfigMaps are named after the nodes' switch pods, and have distinct names if and only if the hashes in the names of their switch pods are distinct |
| `ReplicaSets.PodSpec.AppendContainer` | internal/controller/overlay_controller.go:371 | appending to a full slice moves it to a new array |
| `ReplicaSets.AddLPMConfigMapToSps` | internal/lpminterface/lpminterface.go:264-284 | patches the first switch container in place, unless it has the collector mount |
| `ReplicaSets.AttachCollectorConfigToReplicaSet` | internal/lpminterface/lpminterface.go:288-319 | replaces the first collector volume in place, or adds one in a new array; refuses an empty name |
| `ReplicaSets.BuildNodeResources` | internal/controller/overlay_controller.go:481-560 | distinct pod specs over one containers array and one volumes array |
| `ReplicaSets.PatchOne` | internal/controller/overlay_controller.go:370-372 | one round patches the shared array and leaves the pod spec with arrays of its own |
| `ReplicaSets.PatchAll` | internal/controller/overlay_controller.go:369-373 | after the loop every pod spec has its own array: the template patched once, one collector, and its own volume |
| `ReplicaSets.CreateMonitored` | internal/controller/overlay_controller.go:317-373 | build and patch together: each ReplicaSet's volume names the ConfigMap built for its own node |
| `ReplicaSets.PatchedTwice` | internal/lpminterface/lpminterface.go:264-284 | patching twice is patching once |
| `ReplicaSets.MonitoredTemplate` | internal/controller/overlay_controller.go:494-502 | in terms of the template: exactly one collector mount on the switch container if and only if the template had at most one; the monitor flag pair and the mount of the collector's volume added when it had none, and nothing but the common mount otherwise; one collector container more, every other container untouched but for the common mount |
| `ReplicaSets.MountsHaveVolumes` | internal/lpminterface/lpminterface.go:275-300 | every mount added to a container is of a volume that the pod spec has |
| `ReplicaSets.UpsertedExactly` | internal/lpminterface/lpminterface.go:305-317 | the collector's volume takes the place of the first one of its name, or the end; all others stay |

## Left out

- Calls to the API server and to the SDN controller are parameters (which ones fail, in which order a listing comes); a failed call has no effect. The finalizer write in `Attach` (internal/controller/pod_controller.go, lines 173-175) always succeeds: when it fails, nothing has happened yet.
- A handler runs as one step. Two admissions that interleave over the same listing appear as an admission with lost label writes (LostWriteShares), since the second update of an interface is refused by the API's version check and only logged (internal/controller/pod_webhook.go, lines 190-194).
- Status writes: the refusal of a second write to the same network in one admission is modelled; other failures of the status write in `Handle` are not.
- One overlay per namespace of switches, and pods without a Multus list of their own. After a pod's admission nobody but the operator edits its two annotations, which the equal length of the two lists rests on.
- Ports: the datapath identifier of a node's switch is taken to be injective in the node's name.
- Next: the notation of IPv6 addresses is the parameter `v6`, how the library reads and prints them; a CIDR whose address is an IPv4-mapped IPv6 text is not read.
- AllocationRuns: long runs of automatic allocations are worked out for IPv4 ranges only; one search and the uniqueness of addresses are stated for both families.
- GetNextAvailableIP: requires the search to end, because Dafny methods terminate; HaltsExactly says when it does. IPv4 addresses are four bytes; the sixteen-byte form of the library differs by a constant prefix.
- Handle: requires the address searches of the admission to end, because Dafny methods terminate. In runs, an admission that hangs, panics, dies with the process or whose patched pod the API server does not store is the event `Abandoned`; it stops after the writes of some entry, never between the label and the status write of one entry.
- AllocateIPv4s: does not model overflow of Go's machine integers in `ipStart+count-1`.
- ReconcileQuarantine: zero or several matching source networks dereference a nil network, which is the answer `Panics`; a run has no such step. The network statuses that the loop keeps in memory are read back from the API, which is the same as long as nobody else writes them.
- RemoveNetwork: assumes that the SDN controller forgets a deleted network's ports; that nobody clears the labels of the interfaces the network had taken is modelled.
- MovePodToTargetNetwork: like the source, does not insist on the finalizer; the containment and agreement theorems assume it.
- The pod count of a network is never lowered when a pod is deleted, in the source and here.
- NetworkLifecycle: the model of L2Network finalizers is separate from the cluster's state; the provider connection and DNS entries that follow are left out.
- Overlay deletion, NetworkEdgeDevice and Overlay controllers other than building interfaces and ReplicaSets; Services, topology files, Deployments, Prometheus, Suricata rules and exporters: constant construction.
- BuildMonitoringCollectorResources: the JSON text is represented by the configuration itself, the collector container by a parameter, the FNV hash in a ReplicaSet's name by a function of the node.
- AddLPMConfigMapToSps: argument and mount lists inside a container are values; spare capacity behind them is not modelled.
- ExtractNetworks: JSON is a parameter; the cluster model uses the lists themselves. The random link-local addresses given to interfaces without an IPv4 address are arbitrary texts.
- HTTP and gRPC clients, DNS interface, command line, deep-copy code, CRDs and deployment files.
