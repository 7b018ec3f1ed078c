# Verification model of the Azure cloud provider's services

The Azure shell prepares sandboxes, deploys VMs into them and takes both down again. This project
models the parts of it whose correctness spans several functions or several threads, and proves
what they are for:

* **Firewall rules.** How a network security group (NSG) is numbered and filled
  (`PriorityAllocator`, `SecurityGroup`), what it then decides about packets (`Firewall`), and that
  the sandbox NSG and the VM NSG decide as intended (`SandboxFirewall`, `ListedManagement`,
  `VmFirewall`), also while VMs come and go (`SandboxTraffic`), and which packets reach a deployed
  VM through both (`Reachability`); how threads share an NSG (`NsgWriters`) and how its custom rules
  are replaced (`AppSecurityGroups`).
* **Threads.** The copy-once protocol for image blobs (`BlobCopy`), the nested double-checked
  caches (`ServiceCaches`) and the provider of named locks (`LockProvider`). These are state
  machines: one step of a thread is one unlocked read, one lock operation or one dictionary write,
  and the results hold for every interleaving of any number of threads.
* **Resources.** Deploying a VM, rolling a failed deployment back and deleting a VM, over a store
  of resources with referential integrity (`ResourceStore`, `Deployment`, `DeployedRules`), and the
  teardown of a sandbox in the shared VNet (`SandboxCleanup`).
* **Texts.** The parser and printer of port rules (`PortRules`, `InboundPorts`) and the bounded
  names (`Names`), on which the other parts rely for names that do not collide.

Code that changes state step by step is modelled by classes and methods with loops
(`RulePriorityGenerator.Next`, `NetworkSecurityGroup.CreateNetworkSecurityGroupRules`,
`ResourceGroup`, `Deploy`, `RollbackDeployedResources`, `DeleteDeployedVm`, `CleanupOperation`,
`NetworkSecurityGroups`). Each method is tied to a function of the state before it, and what the
service promises is proved about that function. Packet decisions are proved for every reading of
addresses, ports and protocols in which `*` covers everything, so no property of CIDR arithmetic is
assumed. `dafny verify dfyconfig.toml` checks everything.

## What the proofs found

* **VM firewall, additional management networks.** The rules overview of
  `_create_vm_network_security_group` (deploy_operation.py:678-686, 701-702) says that traffic is
  opened from the additional management networks. The call at 712-718 passes no source address, so
  the rule's source is the default, the Internet. The model follows the code;
  `VmFirewall.DocumentedPolicyIff` says for exactly which packets the two agree,
  `VmFirewall.DocumentedConfigurations` for which configurations, and
  `VmFirewall.DocumentedPolicyFails` gives a configuration and a packet for which they do not.
  `_create_vm_network_security_group` also announces the management rule at 4080 and creates it at
  4070.
* **Rollback without a subnet.** When no subnet is found, the list of interface requests is
  `[None]` (deploy_operation.py:371-374). Deployment then fails after the VM's NSG was created, and
  rollback fails on the same `None` before it reaches the NSG. `Deployment.DeployThenRollback` shows
  that this is the only case in which rollback does not complete, and
  `Deployment.RollbackLeavesNsg` that the NSG is left behind.
* **Default subnet.** Deployment looks for a sandbox's default subnet by containment of the group's
  name (deploy_operation.py:373-374), teardown by prefix. `SandboxCleanup.DefaultSubnetNames` says
  for exactly which names the two agree, `SandboxCleanup.ContainedNamesCollide` what happens
  otherwise.
* **Sandbox NSG range.** With the management VNet not listed among the additional networks, the NSG
  stays within Azure's priorities exactly for at most 18 networks and 418 subnet, private-subnet and
  network rules (`SandboxFirewall.FitsAzureExactly`).
* **Management VNet listed as an additional network.** Its second rule replaces the first and leaves
  a hole. If the hole is at 4090 or above, the final deny rule falls into it and is evaluated before
  the management rule. `ListedManagement.PolicyIff` gives the exact condition,
  `ListedManagement.FitsAzureExactly` says which such NSGs are within Azure's priorities, and
  `ListedManagement.NineteenNetworksFail` is one that is and fails the policy.
* **Inbound ports of several interfaces.** The names of a VM's rules in the sandbox NSG do not
  mention the interface (deploy_operation.py:596), so the rules written for each interface replace
  those of the one before (`InboundPorts.OnlyLastInterfaceIsOpen`).
* **Copied blobs.** A caller can be handed nothing instead of a URL, exactly between the two
  publishing writes (`BlobCopy.EmptyResultIff`, `BlobCopy.EmptyResultHappens`).
* **Lock provider.** The lock of a key is shared by all callers until the key is removed. Exactly
  where another call is about to remove it, a caller can fail (`LockProvider.CallerFailsIff`) and two
  callers can end up with different locks (`LockProvider.CallersSplitIff`).
* **Custom rules.** An app's interface in a subnet is found by searching a dictionary
  (set_app_security_groups.py:115-124). The order of the search matters exactly if the VM has two
  addresses in one subnet (`AppSecurityGroups.SearchOrderIff`).
* **Deleting a VM.** The NSGs deleted with a VM are those whose names contain its name. Where another
  VM's name contains it, that VM's NSG is among them and in use, and the deletion is refused
  (`Deployment.ContainedNameRefuses`, `Deployment.DeleteExactly`).
* **Cleanup order.** The code insists that the order of its three commands is important. For a
  sandbox that is in use it is the only one in which all three succeed
  (`SandboxCleanup.OnlyCodedOrder`).

## Model

| member | source | states |
|---|---|---|
| PriorityAllocator.NextPriorityIff | package/cloudshell/cp/azure/domain/services/security_group.py:38-45 | the generator's first value is the one and only number that lies a step above the start limit or a held priority, with nothing held within that step and no such gap lower down |
| PriorityAllocator.FirstGapBounds | package/cloudshell/cp/azure/domain/services/security_group.py:27-45 | an allocated priority is at least the start, is not in use, and is at most one step further per held priority above the start limit; so the search ends |
| PriorityAllocator.NoRewind | package/cloudshell/cp/azure/domain/services/security_group.py:38-45 | after a value was yielded, a walk from the start limit passes through that value again: resuming the cursor there gives what a fresh generator would give |
| PriorityAllocator.NextAfterYield | package/cloudshell/cp/azure/domain/services/security_group.py:40-45 | the next value of a generator is at least one step above the one before |
| PriorityAllocator.YieldsIncrease | package/cloudshell/cp/azure/domain/services/security_group.py:38-45 | the values of one generator strictly increase |
| PriorityAllocator.YieldsBounds | package/cloudshell/cp/azure/domain/services/security_group.py:27-45 | the k-th value is not in use, at least the start, and at most start + 5 (m + k) for m held priorities above the start limit |
| PriorityAllocator.LeastUnusedMultiple | package/cloudshell/cp/azure/domain/services/security_group.py:27-45 | when all priorities are multiples of 5, an allocation is the least unused multiple of 5 above the foot of the search |
| PriorityAllocator.RoomBelow | package/cloudshell/cp/azure/domain/services/security_group.py:27-45 | a range of n slots with fewer than n in use always has room for one more, whatever was created and deleted before |
| PriorityAllocator.BatchStaysInRange | package/cloudshell/cp/azure/domain/services/security_group.py:27-45 | a batch stays inside its range as long as the range's used slots plus the batch fit it |
| PriorityAllocator.FreshList | package/cloudshell/cp/azure/domain/services/security_group.py:30-36 | the sorted list of the generator starts with the start limit, ends with the infinite sentinel and holds, above the limit, exactly the existing priorities |
| PriorityAllocator.StepOver | package/cloudshell/cp/azure/domain/services/security_group.py:39-45 | passing an entry closer than a step, or a duplicate, does not change the value to be yielded |
| PriorityAllocator.Yielding | package/cloudshell/cp/azure/domain/services/security_group.py:40-43 | at the first gap the value is the specified one, and the list with it inserted in place is again a valid generator state |
| PriorityAllocator.RulePriorityGenerator.constructor | package/cloudshell/cp/azure/domain/services/security_group.py:20-38 | a new generator is in a valid state for the existing priorities and the start |
| PriorityAllocator.Advance | package/cloudshell/cp/azure/domain/services/security_group.py:38-45 | one search of the generator over its list: the value found is the specified next priority, and the list with it inserted, with the cursor on it, is again a valid generator state |
| PriorityAllocator.RulePriorityGenerator.Next | package/cloudshell/cp/azure/domain/services/security_group.py:38-45 | each resumption yields the specified next priority and adds it to the held ones; the cursor only moves forward and never reaches the sentinel; the loop ends |
| SecurityGroup.NetworkSecurityGroup.CreateNetworkSecurityGroupRules | package/cloudshell/cp/azure/domain/services/security_group.py:187-217 | one locked call lists the NSG and writes the batch with the priorities of one generator, starting from the given start or 1000; of a named batch, the last request of every name is carried out field by field and all other rules are as before |
| SecurityGroup.BatchKeepsConsistent | package/cloudshell/cp/azure/domain/services/security_group.py:203-217 | a batch, also one that replaces rules of the same name, keeps all priorities pairwise distinct, loses no rule name, and keeps priorities on the grid of multiples of 5 |
| SecurityGroup.BatchOutcome | package/cloudshell/cp/azure/domain/services/security_group.py:76-117 | each name of an explicitly named batch ends up with a rule that carries out the last request of that name, field by field (an app's port rule: allowed, from its own origin; other rule data: their access, from the call's source; to the destination, on the request's protocol and its port or range), at the priority the generator gave for it |
| SecurityGroup.RuleOrigin | package/cloudshell/cp/azure/domain/services/security_group.py:76-117 | of any batch, also with unnamed requests: what lies under a name was there before, or carries out one of the requests, under its own name or the one made from the priority, at a priority that was free and is not below the start |
| Firewall.BatchRuleMatches | package/cloudshell/cp/azure/domain/services/security_group.py:76-117 | a rule written by a batch matches exactly the packets to the destination on the request's ports and protocol, from the origin of an app's port rule or else from the source of the call, and has the access of the request |
| SecurityGroup.WrittenAtOnce | package/cloudshell/cp/azure/domain/services/security_group.py:203-217 | what one call with named requests leaves: the last request of every name carried out field by field, in request order, not below the start, and all other names as before |
| SecurityGroup.OtherNamesUntouched | package/cloudshell/cp/azure/domain/services/security_group.py:209-217 | rules of other names are left alone by a batch |
| SecurityGroup.BatchTouchesPartOnly | package/cloudshell/cp/azure/domain/services/security_group.py:209-217 | a batch whose names all contain a text leaves every rule whose name does not contain it alone |
| SecurityGroup.RetriedBatch | package/cloudshell/cp/azure/domain/services/security_group.py:187-217 | however often a named batch is aborted part-way and retried, in the end each name carries exactly its own last request, priorities increase in request order and differ from all others, and other rules are as before |
| Firewall.FirstMatchIff | package/cloudshell/cp/azure/domain/services/security_group.py:108-117 | with distinct priorities the decision about a packet is the access of the matching rule of lowest priority number, and is unique |
| Firewall.BatchIsSingles | package/cloudshell/cp/azure/domain/services/security_group.py:203-217 | one batch of freshly named rules gives the same NSG as that many one-rule calls, each with a new listing and a new generator |
| Firewall.PackedNext | package/cloudshell/cp/azure/domain/services/security_group.py:27-45 | on an NSG filled without gaps the next priority is the later of the requested start and the next slot, and no gap arises: a full stage pushes the next one up |
| Firewall.BuildExtendsOrder | package/cloudshell/cp/azure/domain/services/security_group.py:203-217 | adding rules with non-decreasing starts to such an NSG extends its evaluation order by the order of creation, for every packet |
| Firewall.EvaluationOrderIsCreationOrder | package/cloudshell/cp/azure/domain/services/security_group.py:203-217 | on a fresh NSG the first rule created that matches a packet decides it, even when a stage overflows into the range of the next |
| Firewall.BuildPriorities | package/cloudshell/cp/azure/domain/services/security_group.py:203-217 | what was written stays; the new priorities are exactly those predicted from the starts |
| Firewall.StepOutcome | package/cloudshell/cp/azure/domain/services/security_group.py:203-217 | the k-th rule created is found under its name with the k-th predicted priority |
| Firewall.StepPrioritiesIncrease | package/cloudshell/cp/azure/domain/services/security_group.py:27-45 | predicted priorities strictly increase across all calls |
| Firewall.WellNamedIsFresh | package/cloudshell/cp/azure/domain/services/security_group.py:85-106 | rules with distinct names that do not look generated, and rules without a name, never replace one another: a generated name holds a priority not in use |
| SandboxFirewall.CreateSubnetNsgRules | package/cloudshell/cp/azure/domain/vm_management/operations/PrepareSandboxInfraOperation.py:376-525 | the five stages of calls write exactly the rules of the specified steps, in order, to a fresh NSG |
| SandboxFirewall.CreateSandboxRules | package/cloudshell/cp/azure/domain/vm_management/operations/PrepareSandboxInfraOperation.py:422-437 | one call per subnet, in order, from start 2000 |
| SandboxFirewall.CreatePrivateRules | package/cloudshell/cp/azure/domain/vm_management/operations/PrepareSandboxInfraOperation.py:440-458 | one call per private subnet, in order, from start 2000, after the earlier ones |
| SandboxFirewall.CreateManagementRules | package/cloudshell/cp/azure/domain/vm_management/operations/PrepareSandboxInfraOperation.py:466-525 | the additional networks from 4000, the management VNet from 4080, the deny rule from 4090, after the earlier ones |
| SandboxFirewall.SubnetStageDecides | package/cloudshell/cp/azure/domain/vm_management/operations/PrepareSandboxInfraOperation.py:422-435 | the first stage allows sandbox traffic to the prepared subnets and says nothing about other packets |
| SandboxFirewall.PrivateStageDecides | package/cloudshell/cp/azure/domain/vm_management/operations/PrepareSandboxInfraOperation.py:440-456 | the second stage denies Internet traffic to the subnets that are not public and says nothing about other packets |
| SandboxFirewall.ManagementStageDecides | package/cloudshell/cp/azure/domain/vm_management/operations/PrepareSandboxInfraOperation.py:466-500 | the third and fourth stages allow traffic from the additional networks and the management VNet to the sandbox |
| SandboxFirewall.StepsAreFresh | package/cloudshell/cp/azure/domain/vm_management/operations/PrepareSandboxInfraOperation.py:422-513 | none of the rule names of the five stages coincide, so no rule replaces another |
| SandboxFirewall.BuildMeetsPolicy | package/cloudshell/cp/azure/domain/vm_management/operations/PrepareSandboxInfraOperation.py:392-523 | for any number of distinct subnets and networks, the management VNet not listed as one of them, and every packet, the built NSG decides: sandbox to subnet allow, else Internet to private subnet deny, else management to sandbox allow, else sandbox VNet to sandbox deny, else nothing |
| ListedManagement.MoveBack | package/cloudshell/cp/azure/domain/services/security_group.py:108-117 | rewriting an allow rule under its name with a higher priority number changes no decision if only allow rules lie in between |
| ListedManagement.ManagementMovesQuietly | package/cloudshell/cp/azure/domain/vm_management/operations/PrepareSandboxInfraOperation.py:466-500 | when the management VNet is also a listed network, its second rule replaces the first and no decision changes; the deny rule then goes behind all others, or, if the listed rule was at 4090 or above, to exactly its place |
| ListedManagement.BuildMeetsPolicy | package/cloudshell/cp/azure/domain/vm_management/operations/PrepareSandboxInfraOperation.py:392-523 | the same policy also when the management VNet is listed among the additional networks, if its rule among them lies below 4090 |
| ListedManagement.ListedPriority | package/cloudshell/cp/azure/domain/vm_management/operations/PrepareSandboxInfraOperation.py:422-478 | the listed rule gets max(4000, 2000 + 5 r) + 5 i, after r subnet and private-subnet rules and i networks |
| ListedManagement.DeniedBeforeManagement | package/cloudshell/cp/azure/domain/vm_management/operations/PrepareSandboxInfraOperation.py:466-523 | with the listed rule at 4090 or above the deny rule comes before the management rule: a packet from an address in both VNets is denied |
| ListedManagement.PolicyIff | package/cloudshell/cp/azure/domain/vm_management/operations/PrepareSandboxInfraOperation.py:392-523 | with the management VNet listed, and the address texts different, the NSG meets the policy for every reading and every packet exactly if the listed rule lies below 4090 |
| ListedManagement.FitsAzureExactly | package/cloudshell/cp/azure/domain/vm_management/operations/PrepareSandboxInfraOperation.py:466-523 | with the management VNet listed the NSG stays within 4096 exactly if the last network's rule gets at most 4085, or gets 4090 and is the management VNet's |
| ListedManagement.NetworksFit | package/cloudshell/cp/azure/domain/vm_management/operations/PrepareSandboxInfraOperation.py:466-478 | the last network's rule gets at most 4085 exactly for at most 18 networks and 418 early and network rules |
| ListedManagement.NineteenNetworksFail | package/cloudshell/cp/azure/domain/vm_management/operations/PrepareSandboxInfraOperation.py:466-523 | nineteen networks, the management VNet last: the NSG stays within 4096 and denies a packet that the policy allows |
| SandboxTraffic.RuleAfterBatch | package/cloudshell/cp/azure/domain/services/security_group.py:209-217 | what a batch leaves under a name is what was there before or one of its own rules at the generator's value |
| SandboxTraffic.ChangesKeepLayered | package/cloudshell/cp/azure/domain/vm_management/operations/deploy_operation.py:634-640 | over any run of inbound batches with room in [1000, 2000) and removals of VM rules, the rules of the preparation stay as they were and all others allow and lie below 2000 |
| SandboxTraffic.LayersDecide | package/cloudshell/cp/azure/domain/vm_management/operations/deploy_operation.py:634-640 | such an NSG allows what one of its inbound rules matches, and otherwise decides as the rules of the preparation do |
| SandboxTraffic.PolicyUnderDeployments | package/cloudshell/cp/azure/domain/vm_management/operations/deploy_operation.py:634-640 | so after any sequence of deployments, rollbacks and deletions the sandbox NSG allows what an inbound rule now in it opens and decides everything else by the sandbox's policy, the management VNet listed or not |
| SandboxTraffic.PreparedRules | package/cloudshell/cp/azure/domain/vm_management/operations/PrepareSandboxInfraOperation.py:376-525 | for every request, the rules that preparation writes have distinct priorities on the grid of 5, at 2000 or above |
| SandboxTraffic.RunStaysLayered | package/cloudshell/cp/azure/domain/services/security_group.py:187-217 | in every interleaving of threads writing inbound batches, retried writes and unlocked deletions, the rules of the preparation stay as they were and all others allow and lie below 2000 |
| SandboxTraffic.PolicyInEveryInterleaving | package/cloudshell/cp/azure/domain/vm_management/operations/deploy_operation.py:600-640 | so at any moment of every such interleaving the sandbox NSG allows what an inbound rule now in it opens and decides everything else by the sandbox's policy |
| SandboxTraffic.DeploymentIsAdmissible | package/cloudshell/cp/azure/domain/vm_management/operations/deploy_operation.py:594-640 | the inbound rules of any deployment are such a batch wherever there is room: their names are never those of the preparation |
| SandboxFirewall.PrioritiesOfLastRules | package/cloudshell/cp/azure/domain/vm_management/operations/PrepareSandboxInfraOperation.py:488-523 | the priorities of the management rule and of the final deny rule, and that the latter is the highest of all, for any number of rules before them |
| SandboxFirewall.RulesAre | package/cloudshell/cp/azure/domain/vm_management/operations/PrepareSandboxInfraOperation.py:414-523 | the whole sandbox NSG rule by rule: source, destination, access and exact priority of the rules for every subnet, private subnet and network and of the last two, and that there are no others |
| SandboxFirewall.FitsAzureExactly | package/cloudshell/cp/azure/domain/vm_management/operations/PrepareSandboxInfraOperation.py:466-523 | the NSG stays within 4096 exactly for k <= 18 networks and at most 418 early and network rules; with at most 400 early rules the management rule is at 4080 + 5 max(0, k - 16) and the final deny at 4090 + 5 max(0, k - 17) |
| VmFirewall.CreateVmNetworkSecurityGroup | package/cloudshell/cp/azure/domain/vm_management/operations/deploy_operation.py:658-781 | inbound ports as one batch from 1000, then the single-rule calls from 3000, 4070, 4080 and 4090, write exactly the rules of the specified steps |
| VmFirewall.CreateNetworkRules | package/cloudshell/cp/azure/domain/vm_management/operations/deploy_operation.py:704-718 | one call per additional network, in order, from start 3000, after the earlier ones |
| VmFirewall.CreateVnetRules | package/cloudshell/cp/azure/domain/vm_management/operations/deploy_operation.py:720-778 | the management rule is always written, the load-balancer and sandbox rules exactly when sandbox traffic is not allowed |
| VmFirewall.StepsAreFresh | package/cloudshell/cp/azure/domain/vm_management/operations/deploy_operation.py:688-778 | none of the VM's rules replaces another, the unnamed inbound rules included |
| VmFirewall.BuildMeetsPolicy | package/cloudshell/cp/azure/domain/vm_management/operations/deploy_operation.py:688-778 | the VM's NSG decides every packet as the layers say: inbound ports, then additional networks (any Internet source), then management VNet, load balancer, sandbox deny |
| VmFirewall.RulesAre | package/cloudshell/cp/azure/domain/vm_management/operations/deploy_operation.py:658-781 | the whole NSG of a VM rule by rule, with exact priorities: inbound ports from 1000, networks from 3000 or the next slot, then 4070, 4080 and 4090 or the next slots, and that there are no others |
| VmFirewall.DocumentedPolicyIff | package/cloudshell/cp/azure/domain/vm_management/operations/deploy_operation.py:678-718 | the NSG agrees with the documented policy about a packet exactly if another layer allows the packet anyway or its source is on the Internet (with some network configured) just when it is in an additional network |
| VmFirewall.NetworksOpenTheInternet | package/cloudshell/cp/azure/domain/vm_management/operations/deploy_operation.py:701-718 | without additional networks the NSG follows the documented policy on every packet; with one it allows every Internet packet from outside the networks, against the documentation where no other layer allows it |
| VmFirewall.DocumentedConfigurations | package/cloudshell/cp/azure/domain/vm_management/operations/deploy_operation.py:701-718 | wherever there is such a packet, the NSG meets its documentation on all packets exactly if no additional network is configured |
| VmFirewall.DocumentedPolicyFails | package/cloudshell/cp/azure/domain/vm_management/operations/deploy_operation.py:701-718 | a configuration and a packet for which the NSG allows what the documented policy does not |
| NsgWriters.PrioritiesStayDistinct | package/cloudshell/cp/azure/domain/services/security_group.py:203-217 | in every interleaving of writers, retried writes and unlocked deletions, all priorities in the NSG stay pairwise distinct, the lock holder's list covers every priority in use, and its next draw is new |
| NsgWriters.BatchIsAtomic | package/cloudshell/cp/azure/domain/services/security_group.py:187-217 | a batch that nobody's deletion disturbed has exactly the effect of one uninterrupted call on the NSG it listed: batches of different threads do not mix and retries leave no trace |
| NsgWriters.ReachableIsOnGrid | package/cloudshell/cp/azure/domain/services/security_group.py:187-217 | every NSG that only this service wrote has all priorities on the grid of multiples of 5, whatever was created and deleted |
| NsgWriters.ReachableBatchStaysInRange | package/cloudshell/cp/azure/domain/vm_management/operations/deploy_operation.py:634-640 | hence, in any reachable NSG, u rules in a range of w slots plus a batch of n with u + n <= w stay in the range: 200 for [1000, 2000) |
| NsgWriters.WriteKeepsInv | package/cloudshell/cp/azure/domain/services/security_group.py:209-217 | writing, or writing again, the pending rule keeps the invariant of the shared NSG |
| AppSecurityGroups.NetworkSecurityGroups.DeleteCustomSecurityRules | package/cloudshell/cp/azure/domain/services/security_group.py:289-299 | exactly the rules whose name contains custom_rule are deleted, from one NSG |
| AppSecurityGroups.NetworkSecurityGroups.SetOne | package/cloudshell/cp/azure/domain/vm_management/operations/set_app_security_groups.py:36-88 | one app: it succeeds exactly if its NSG and VM exist and the VM has an interface in every requested subnet; then or not, the custom rules of its NSG are exactly those of the configurations before the first missing subnet; no other NSG and no other rule changes |
| AppSecurityGroups.NetworkSecurityGroups.SetAppSecurityGroups | package/cloudshell/cp/azure/domain/vm_management/operations/set_app_security_groups.py:23-92 | each app's result says exactly whether it could be set; the NSG of every VM ends up with exactly the custom rules of the last app that names it, each carried out at the interface's address unless a later configuration rewrites its name, in request order from 1000; nothing else changes |
| AppSecurityGroups.ConfigureInstalls | package/cloudshell/cp/azure/domain/vm_management/operations/set_app_security_groups.py:55-70 | configuration by configuration, the custom rules of the NSG are exactly those of the configurations reached so far: destination, protocol, ports, access and source of each rule, priorities of 1000 or above and in request order |
| AppSecurityGroups.AllAppsAreSet | package/cloudshell/cp/azure/domain/vm_management/operations/set_app_security_groups.py:35-92 | the same for all apps: results, custom rules by the last app that names an NSG, everything else unchanged |
| AppSecurityGroups.CustomNamesDiffer | package/cloudshell/cp/azure/domain/vm_management/operations/set_app_security_groups.py:61-62 | custom rules of one VM with different positions or addresses have different names |
| AppSecurityGroups.StandsIff | package/cloudshell/cp/azure/domain/vm_management/operations/set_app_security_groups.py:55-62 | a custom rule is replaced exactly if a later configuration at the same address has a rule in the same position |
| AppSecurityGroups.FindNicFinds | package/cloudshell/cp/azure/domain/vm_management/operations/set_app_security_groups.py:115-124 | the search gives the address of the first interface in the subnet, and none exactly if there is no such interface |
| AppSecurityGroups.SetAppsKeepConsistent | package/cloudshell/cp/azure/domain/vm_management/operations/set_app_security_groups.py:35-70 | setting the groups keeps all priorities of every NSG pairwise distinct |
| AppSecurityGroups.SetAppsKeepsOthers | package/cloudshell/cp/azure/domain/vm_management/operations/set_app_security_groups.py:35-70 | every rule whose name lacks custom_rule survives unchanged in every NSG |
| AppSecurityGroups.CustomRulesForgotten | package/cloudshell/cp/azure/domain/vm_management/operations/set_app_security_groups.py:41-70 | the outcome for a requested NSG does not depend on the custom rules it had before |
| AppSecurityGroups.UnnamedUntouched | package/cloudshell/cp/azure/domain/vm_management/operations/set_app_security_groups.py:35-70 | an NSG that no request names keeps all its rules |
| AppSecurityGroups.SetAppsIdempotent | package/cloudshell/cp/azure/domain/vm_management/operations/set_app_security_groups.py:35-90 | setting the same groups twice equals setting them once, down to every priority and every result, also when apps fail part-way, the interfaces being searched in the same order |
| AppSecurityGroups.SearchOrderIff | package/cloudshell/cp/azure/domain/vm_management/operations/set_app_security_groups.py:115-138 | the order in which a VM's interfaces are searched does not matter exactly if no two of them are in one subnet with different addresses |
| AppSecurityGroups.IdempotentInAnyOrder | package/cloudshell/cp/azure/domain/vm_management/operations/set_app_security_groups.py:35-138 | with at most one address per subnet, setting the groups again in another search order gives the same result |
| BlobCopy.StepKeepsInv | package/cloudshell/cp/azure/domain/services/storage_service.py:341-411 | every step of every thread keeps the protocol's invariant: who may claim, what the entry says meanwhile, what has been copied |
| BlobCopy.AllRuns | package/cloudshell/cp/azure/domain/services/storage_service.py:341-411 | in every interleaving at most one thread is between claim and publish of a key, its entry says copying exactly while there is one, at most one copy ever succeeds, with the lock free success comes with that copy's URL, and every URL returned is that one |
| BlobCopy.SuccessAbsorbsRun | package/cloudshell/cp/azure/domain/services/storage_service.py:347-411 | between any two moments of any run, success is not left and a written URL does not change |
| BlobCopy.EmptyResultIff | package/cloudshell/cp/azure/domain/services/storage_service.py:407-411 | at any moment of any run, a call about to fetch its result finds none exactly while the publisher stands between its two writes |
| BlobCopy.EmptyResultHappens | package/cloudshell/cp/azure/domain/services/storage_service.py:341-411 | a run from the initial state in which a call returns nothing |
| BlobCopy.FailsIff | package/cloudshell/cp/azure/domain/services/storage_service.py:366-401 | in every interleaving a call has raised, or is marking its failure, exactly if it was cancelled while polling, found the entry failed at one of its own polls, or its own copy failed |
| BlobCopy.PollDecides | package/cloudshell/cp/azure/domain/services/storage_service.py:366-384 | at any moment of any run, the next poll leads to fetching the result exactly on success, raises exactly on failure (and on cancellation), and waits on exactly while the entry says copying |
| BlobCopy.ClaimDecides | package/cloudshell/cp/azure/domain/services/storage_service.py:347-364 | at any moment of any run, a call that looks at its entry under the lock becomes the copier exactly if there is none or a failed one; otherwise it waits or fetches and changes nothing |
| BlobCopy.PublishedIsReturned | package/cloudshell/cp/azure/domain/services/storage_service.py:405-411 | once a copy is published and the lock is free, every call that had not ended by then can end only by failing or with that copy's URL |
| BlobCopy.FetchReturns | package/cloudshell/cp/azure/domain/services/storage_service.py:409-411 | at any moment of any run, a call about to fetch its result returns the URL of the one copy, unless the publisher is between its two writes |
| BlobCopy.HolderCanStep | package/cloudshell/cp/azure/domain/services/storage_service.py:347-409 | at any moment of any run, a thread waiting for the lock waits for a thread that can take its next step at once |
| BlobCopy.SomeCallCanStep | package/cloudshell/cp/azure/domain/services/storage_service.py:341-411 | at any moment of any run in which a call is unfinished, some call can go on without being cancelled |
| ServiceCaches.StepKeepsInv | package/cloudshell/cp/azure/domain/services/storage_service.py:81-152 | every step of the nested look-ups keeps the invariant of caches, locks and call stacks, exceptions and retries included |
| ServiceCaches.FilledOnceInRun | package/cloudshell/cp/azure/domain/services/storage_service.py:90-152 | between any two moments of any run, no filled entry changes |
| ServiceCaches.AllRuns | package/cloudshell/cp/azure/domain/services/storage_service.py:90-152 | in every interleaving all calls for a key return the same value, the cached one, for good; every cached file or blob service was built with exactly the account key cached for its group and storage |
| ServiceCaches.ValuesAreAnswered | package/cloudshell/cp/azure/domain/services/key_pair.py:76-100 | in every interleaving, every cached or returned key pair has as public key what the public file's request answered and as private key what the private file's request answered, both to one call for that key; every account key is the text answered to a call for it |
| ServiceCaches.OneKeyPair | package/cloudshell/cp/azure/domain/services/key_pair.py:76-100 | so where all successful reads of a key's files give one text each, exactly this pair is cached and returned |
| ServiceCaches.FailsOnlyIfRefused | package/cloudshell/cp/azure/domain/services/storage_service.py:81-176 | a call raises only if one of its own requests was refused, never because of another call |
| ServiceCaches.FailsOnlyIfItGivesUp | package/cloudshell/cp/azure/domain/services/storage_service.py:81-176 | and only if a refusal was not retried: a call that retries all its refused requests does not raise |
| ServiceCaches.SomeThreadCanStep | package/cloudshell/cp/azure/domain/services/key_pair.py:76-100 | the locks of key pairs, file and blob services and account keys are taken in descending rank: at any moment of any run in which a call is unfinished, some thread can step |
| LockProvider.StepKeepsInv | package/cloudshell/cp/azure/domain/services/lock_service.py:17-35 | entries appear and disappear only under the mutex, a deletion finds its entry, different keys have different locks |
| LockProvider.SameLockIff | package/cloudshell/cp/azure/domain/services/lock_service.py:17-35 | between any two moments of any run, a key keeps its lock exactly if it was not deleted in between |
| LockProvider.CallersShare | package/cloudshell/cp/azure/domain/services/lock_service.py:17-28 | while their keys are not deleted, two callers get the same lock exactly if they asked for the same key |
| LockProvider.NoCallerFails | package/cloudshell/cp/azure/domain/services/lock_service.py:23-28 | a caller whose key is not deleted in a run does not fail to find it |
| LockProvider.CallerFailsIff | package/cloudshell/cp/azure/domain/services/lock_service.py:17-35 | a caller can fail to find its key, in some run, exactly if some other call is about to remove that key |
| LockProvider.CallersSplitIff | package/cloudshell/cp/azure/domain/services/lock_service.py:17-35 | two callers for one key can end up with different locks, in some run, exactly if some other call is about to remove that key |
| LockProvider.CallerCanFail | package/cloudshell/cp/azure/domain/services/lock_service.py:17-35 | a run in which a caller checks its key, another thread removes it, and the caller's final look-up fails |
| LockProvider.RemovalSplitsCallers | package/cloudshell/cp/azure/domain/services/lock_service.py:28-35 | after a removal, at any moment of any run, the holder of the old lock and any later caller never hold the same lock |
| ResourceStore.ResourceGroup.DeleteVmRules | package/cloudshell/cp/azure/domain/services/network_service.py:476-485 | exactly the rules named after the VM are deleted from one NSG, from a listing |
| ResourceStore.ResourceGroup.DeleteNsgArtifacts | package/cloudshell/cp/azure/domain/services/network_service.py:463-485 | the NSGs named after the VM and its rules in the sandbox NSGs are deleted, and nothing else; refused exactly if such an NSG is in use |
| Deployment.Send | package/cloudshell/cp/azure/domain/vm_management/operations/deploy_operation.py:591-640 | each creation takes full effect, or raises and changes nothing, exactly as its references exist or not |
| Deployment.TryDeploy | package/cloudshell/cp/azure/domain/vm_management/operations/deploy_operation.py:171-208 | the try block ends without an exception exactly if no step fails, nothing after the last step raises and there is an interface to connect the VM to, and then the whole plan was carried out; otherwise a recorded part of it was |
| Deployment.Deploy | package/cloudshell/cp/azure/domain/vm_management/operations/deploy_operation.py:171-230 | the try block with its handler: the plan is carried out in full exactly if no step fails and nothing after it raises; otherwise nothing is left of it, or a subnet was missing and rollback raised |
| Deployment.DeployedResources | package/cloudshell/cp/azure/domain/vm_management/operations/deploy_operation.py:604-632 | a complete deployment makes, for every request, an interface in the requested subnet behind the VM's NSG, with a public IP of its own exactly if the app asks for one and the request is public; the VM has these interfaces in request order; no other VM, interface or public IP changes |
| DeployedRules.CompletesIff | package/cloudshell/cp/azure/domain/vm_management/operations/deploy_operation.py:568-656 | a deployment that no outside failure stops is complete exactly if the sandbox's NSG and all requested subnets exist |
| Deployment.RollbackDeployedResources | package/cloudshell/cp/azure/domain/vm_management/operations/deploy_operation.py:419-464 | VM, then interface and public IP per request, then NSG artifacts: outcome of the specified rollback, and its final state unless a deletion was refused |
| Deployment.PlanAllowed | package/cloudshell/cp/azure/domain/vm_management/operations/deploy_operation.py:591-640 | every step of a deployment creates only resources, and in the sandbox NSG only rules, named after the VM |
| Deployment.AttemptStaysNear | package/cloudshell/cp/azure/domain/vm_management/operations/deploy_operation.py:591-640 | any attempt at a step, including a batch cut short, leaves all foreign resources and rules as they were |
| Deployment.DeployThenRollback | package/cloudshell/cp/azure/domain/vm_management/operations/deploy_operation.py:171-230 | after any sequence of step attempts, rollback never issues a refused deletion; it completes exactly if every requested subnet was found, and then VMs, interfaces, public IPs, NSGs and every sandbox rule are as before |
| Deployment.RollbackLeavesNsg | package/cloudshell/cp/azure/domain/vm_management/operations/deploy_operation.py:371-374 | with the one request None, the deployment's first step and the rollback leave the VM's NSG behind |
| Deployment.DeleteDeployedVm | package/cloudshell/cp/azure/domain/vm_management/operations/delete_operation.py:257-340 | VM, interfaces and public IPs as listed from the VM, then NSG artifacts: outcome of the specified deletion, and its final state unless a deletion was refused |
| Deployment.DeployThenDelete | package/cloudshell/cp/azure/domain/vm_management/operations/delete_operation.py:257-340 | deleting a VM right after its complete deployment completes without a refused deletion and gives back the state before the deployment |
| Deployment.DeleteMissing | package/cloudshell/cp/azure/domain/vm_management/operations/delete_operation.py:270 | deleting a VM that is not there raises and changes nothing |
| Deployment.DeleteExactly | package/cloudshell/cp/azure/domain/vm_management/operations/delete_operation.py:270-340 | at any time and with any other VMs around: deletion completes exactly if no other VM shares the interfaces, no other interface the public IPs or an NSG that carries the VM's name, and no subnet such an NSG; then exactly the VM and what is its own is gone |
| Deployment.ContainedNameRefuses | package/cloudshell/cp/azure/domain/services/network_service.py:463-475 | where the name of another deployed VM contains this VM's, its deletion is refused |
| Deployment.DeleteKeepsWellFormed | package/cloudshell/cp/azure/domain/vm_management/operations/delete_operation.py:270-340 | a completed deletion leaves no dangling reference |
| DeployedRules.VmNsgBuilt | package/cloudshell/cp/azure/domain/vm_management/operations/deploy_operation.py:658-781 | the deployment's steps for the VM's NSG write exactly the rules that the VM firewall consists of |
| DeployedRules.AllInterfaceRules | package/cloudshell/cp/azure/domain/vm_management/operations/deploy_operation.py:604-640 | the steps for the interfaces change no NSG but the sandbox's, which gets the inbound batch of one interface after the other |
| DeployedRules.DeployedNsgs | package/cloudshell/cp/azure/domain/vm_management/operations/deploy_operation.py:568-656 | a complete deployment changes exactly the two NSGs, the VM's to the VM firewall and the sandbox's by the inbound batches |
| DeployedRules.DeployedVmDecides | package/cloudshell/cp/azure/domain/vm_management/operations/deploy_operation.py:658-781 | the NSG of a deployed VM decides every packet as the VM firewall's policy says |
| Reachability.AllInterfaces | package/cloudshell/cp/azure/domain/vm_management/operations/deploy_operation.py:604-640 | while a VM's interfaces get their inbound rules, also one replacing another's, the sandbox NSG keeps its layers and every rule of other names |
| Reachability.SandboxDecides | package/cloudshell/cp/azure/domain/vm_management/operations/deploy_operation.py:594-640 | afterwards the sandbox NSG allows what it opened before and packets from the Internet to an open port at the last interface, and decides everything else by the sandbox's policy |
| Reachability.ReachesVmIff | package/cloudshell/cp/azure/domain/vm_management/operations/deploy_operation.py:568-656 | after a complete deployment the NSGs of any of the VM's interfaces and of its subnet both allow a packet exactly if it comes from the Internet to an open port at the last interface, or the VM's policy allows it and so does the sandbox's policy or another VM's inbound rule |
| Deployment.InterfaceNamesDiffer | package/cloudshell/cp/azure/domain/vm_management/operations/deploy_operation.py:401-410 | interfaces of one VM with different indices have different names |
| SandboxCleanup.CleanupOperation.RemoveNsgAndRouteTableFromSubnets | package/cloudshell/cp/azure/domain/vm_management/operations/delete_operation.py:91-116 | exactly the sandbox's subnets lose their NSG and route table; raises exactly if there is no VNet |
| SandboxCleanup.CleanupOperation.DeleteSandboxSubnets | package/cloudshell/cp/azure/domain/vm_management/operations/delete_operation.py:123-145 | all the sandbox's subnets go; raises exactly if there is no VNet or one of them is in use, and then no subnet in use and no other subnet is gone |
| SandboxCleanup.CleanupOperation.CleanupConnectivity | package/cloudshell/cp/azure/domain/vm_management/operations/delete_operation.py:67-89 | which of the three commands raise, exactly; success exactly for an isolated sandbox, which is then gone; other groups and other subnets never change; no reference is left dangling, with or without errors |
| SandboxCleanup.CodedOrderSucceeds | package/cloudshell/cp/azure/domain/vm_management/operations/delete_operation.py:67-84 | in the coded order all three commands succeed exactly for an isolated sandbox, and the result is the state without it |
| SandboxCleanup.OnlyCodedOrder | package/cloudshell/cp/azure/domain/vm_management/operations/delete_operation.py:67-77 | for an isolated sandbox in use, the coded order is the only one of the six in which no command is refused |
| SandboxCleanup.CleanupKeepsWellFormed | package/cloudshell/cp/azure/domain/vm_management/operations/delete_operation.py:67-84 | detaching, then deleting or failing to delete the group, then deleting some subnets leaves no dangling reference |
| SandboxCleanup.SubnetBelongsToOne | package/cloudshell/cp/azure/domain/vm_management/operations/delete_operation.py:155-156 | with names as the service makes them, the prefix search finds exactly the sandbox's own subnets |
| SandboxCleanup.WellNamedIsIsolated | package/cloudshell/cp/azure/domain/vm_management/operations/delete_operation.py:147-156 | where group names are no prefixes of one another and names and references are as preparation and deployment leave them, every sandbox is isolated, and this remains so when one is gone |
| SandboxCleanup.TeardownsSucceed | package/cloudshell/cp/azure/domain/vm_management/operations/delete_operation.py:67-89 | any sandboxes, torn down in any order, all go without error, and exactly their groups and subnets are gone |
| SandboxCleanup.PreparationKeepsWellNamed | package/cloudshell/cp/azure/domain/vm_management/operations/PrepareSandboxInfraOperation.py:294-313 | creating a sandbox's subnet with the sandbox's NSG keeps the naming that teardown relies on |
| SandboxCleanup.DefaultSubnetIsOwn | package/cloudshell/cp/azure/domain/vm_management/operations/deploy_operation.py:371-374 | for any part of the VNet's subnets in any order: the first one whose name contains the group's name is the group's own or nobody's, if no group's name contains another's or an underscore and no subnet's CIDR contains a group's name |
| SandboxCleanup.DefaultSubnetIff | package/cloudshell/cp/azure/domain/vm_management/operations/deploy_operation.py:371-374 | whatever the order of the VNet's subnets, the one chosen by containment is the sandbox's own or nobody's exactly if every subnet whose name contains the group's is |
| SandboxCleanup.DefaultSubnetNames | package/cloudshell/cp/azure/domain/vm_management/operations/deploy_operation.py:371-374 | in terms of names: exactly if no other sandbox that has a subnet contains the group's name in its own name or in that subnet's CIDR |
| SandboxCleanup.DeploymentKeepsWellNamed | package/cloudshell/cp/azure/domain/vm_management/operations/deploy_operation.py:371-374 | so a deployment into the default subnet keeps the naming that teardown relies on |
| SandboxCleanup.ContainedNamesCollide | package/cloudshell/cp/azure/domain/vm_management/operations/deploy_operation.py:371-374 | where one group's name contains another's and its subnet is listed first, the other is deployed into that subnet and the teardown of the first can no longer succeed |
| PortRules.ParserDecides | package/cloudshell/cp/azure/common/parsers/rules_attribute_parser.py:20-64 | a text parses to a rule exactly if one of the four patterns gives that rule; the patterns are unambiguous, and all other texts raise |
| PortRules.ParsePrinted | package/cloudshell/cp/azure/models/rule_data.py:23-25 | parsing the printed range and protocol gives the rule back |
| PortRules.PrintParsed | package/cloudshell/cp/azure/common/parsers/rules_attribute_parser.py:20-64 | printing what was parsed gives the text in lower case, with the protocol tcp added where there was none |
| PortRules.PrintedInjective | package/cloudshell/cp/azure/models/rule_data.py:23-25 | different port rules print differently |
| PortRules.AcceptedIff | package/cloudshell/cp/azure/common/parsers/rules_attribute_parser.py:13-18 | a list is accepted exactly if every piece is, and gives their rules in order |
| PortRules.FirstRejection | package/cloudshell/cp/azure/common/parsers/rules_attribute_parser.py:13-18 | the error of a rejected list names its first piece that stands for no rule |
| PortRules.ParseJoined | package/cloudshell/cp/azure/common/parsers/rules_attribute_parser.py:13-18 | printed rules joined by semicolons, with blanks around them and empty pieces between them, parse to exactly these rules in order |
| PortRules.ReprintedIsTheSame | package/cloudshell/cp/azure/common/parsers/rules_attribute_parser.py:6-18 | printing an accepted list and parsing it again gives the same rules |
| InboundPorts.InboundNamesDiffer | package/cloudshell/cp/azure/domain/vm_management/operations/deploy_operation.py:594-598 | for one VM, different port rules get differently named NSG rules |
| InboundPorts.EveryPortRuleIsKept | package/cloudshell/cp/azure/domain/vm_management/operations/deploy_operation.py:594-640 | every rule of the text, also one named repeatedly, ends up as a rule of its own in the sandbox NSG, open on just its ports and protocol at the interface's address, evaluated in text order, however often the batch was interrupted and retried |
| InboundPorts.OnlyLastInterfaceIsOpen | package/cloudshell/cp/azure/domain/vm_management/operations/deploy_operation.py:594-640 | with several interfaces, a port rule ends up open at an address exactly if that is the last interface's: the names do not tell interfaces apart |
| Names.GeneratedNameLaws | package/cloudshell/cp/azure/domain/services/name_provider.py:5-35 | a generated name fits the maximum exactly if its postfix and the dash do; its stem holds only letters, digits and dashes and is exactly as much of the sanitized name as fits beside them, less a dash at the cut |
| Names.PostfixKeepsApart | package/cloudshell/cp/azure/domain/services/name_provider.py:21-35 | names with different postfixes of one length differ, whatever they are made from |
| Names.GeneratedNameHasNoSpaces | package/cloudshell/cp/azure/domain/services/name_provider.py:18-35 | a generated name has no spaces, as the ownership of inbound rule names requires |
| Names.StorageAccountNameLaws | package/cloudshell/cp/azure/domain/vm_management/operations/PrepareSandboxInfraOperation.py:228-237 | a storage account name has only letters and digits, is two longer than the number of these in the reservation id up to 21, and so is 3 to 24 long exactly if there is one |
| Names.SubnetNameStartsWithGroup | package/cloudshell/cp/azure/domain/services/name_provider.py:57-58 | a sandbox's subnet name is its group name, an underscore and the CIDR without spaces and slashes |
| Names.SubnetNameOfOtherGroup | package/cloudshell/cp/azure/domain/services/name_provider.py:57-58 | a subnet name starts with the name of another group exactly when that is a prefix of its own group's name |
| Names.SubnetNameContains | package/cloudshell/cp/azure/domain/services/name_provider.py:57-58 | a subnet name contains a group's name (without underscores) exactly when its own group's name or its CIDR text does |

## Left out

- Azure's and CloudShell's clients, pollers, sessions and JSON are represented only by their effect on the modelled state; back-off and waiting times of retries are not modelled.
- The resource-group deletion of `SandboxCleanup` removes everything in the group or nothing, and deleting what does not exist is a no-op there and in `ResourceStore`; Azure's partial deletions and its "not found" errors are not modelled.
- The removal of the sandbox's two locks at the end of cleanup (delete_operation.py:86-87) is modelled in `LockProvider` only, for all keys and at any time.
- `_cleanup_stale_data` (PrepareSandboxInfraOperation.py:336-374): the removal of a stale subnet of the same CIDR before a subnet is created again.
- SandboxFirewall.BuildMeetsPolicy: assumes pairwise distinct subnets and pairwise distinct networks, written as CIDR texts; rules of equal names replace one another, and the order of creation is then not the order of evaluation. That the management VNet is listed among the networks is the subject of `ListedManagement`.
- ListedManagement.PolicyIff: assumes that the sandbox VNet's address text is a CIDR and none of the listed ones, and that the sandbox's own text is neither the sandbox VNet's nor the management VNet's; `ListedManagement.BuildMeetsPolicy` does not.
- SandboxTraffic.PolicyInEveryInterleaving: assumes that every batch finds room in [1000, 2000) when it lists the NSG, and that deletions do not reach the rules of the preparation; a VM whose name is part of one of their names is not covered.
- Deployment.DeployedResources: assumes interfaces numbered apart, as the requests are enumerated (deploy_operation.py:401-410).
- Reachability.ReachesVmIff: takes the interface's subnet to have the sandbox's NSG attached, as preparation creates it; counts a packet as allowed if a rule allows it; Azure's built-in default rules, which apply where no rule matches, are not modelled.
- AppSecurityGroups.NetworkSecurityGroups.SetOne: takes the subnets of a request by name; how a subnet id is turned into a name (set_app_security_groups.py:94-113) is not modelled.
- SandboxCleanup.DeploymentKeepsWellNamed: covers the default subnet; where network actions name the subnets (deploy_operation.py:401-410), that they name the sandbox's own is the caller's part.
- VmFirewall.BuildMeetsPolicy: assumes pairwise distinct additional networks, written as CIDR texts, for the same reason.
- NsgWriters.BatchIsAtomic: speaks of writers that share one lock; sandbox preparation writes the sandbox NSG under the subnet lock (PrepareSandboxInfraOperation.py:434) and deployment under a lock named after the NSG (deploy_operation.py:600), which exclude each other only because the one ends before the other begins.
- `create_isolated_network_security_group_rules` (its two rules have fixed priorities), and the rule attributes that are the same for all rules: direction and source port range.
- The error for unsupported kinds of rule data (security_group.py:102-103): the model's data type has the two supported kinds only.
- Deployment.Deploy: carries out a plan computed beforehand from the request, with the private addresses that the cloud assigns as a parameter, and models the creation of cloud resources inside the try block only; credentials, the script extension and its timeout, and all that follows the try block are not modelled, nor are OS disks, which neither rollback nor this model deletes.
- The pool of private IPs: the allocator is outside the service, and both rollback (deploy_operation.py:455) and `create_network_for_vm` can leave addresses unreturned.
- Deployment.RollbackDeployedResources: where a deletion is refused, its contract says so but does not describe which resources are left; `Deployment.DeployThenRollback` shows that none is refused after a deployment.
- Deployment.DeleteDeployedVm: likewise; `Deployment.DeleteExactly` says when a deletion is refused.
- `delete` of a VM: its disk is not modelled; of the errors of its commands, "not found" appears as the store's no-op.
- BlobCopy.AllRuns: assumes that the cache starts empty; `parse_blob_url` and the copying itself are represented by their outcome.
- PortRules.ParsePortGroup: works on ASCII texts; white space and letter case of other scripts are not modelled.
- Names.GeneratedNameLaws: takes the unique text of eight characters as given; that two such texts differ is not modelled.
- Power, refresh-IP, VM-details, autoload, route-table and access-key operations, which are straight calls to the cloud.
