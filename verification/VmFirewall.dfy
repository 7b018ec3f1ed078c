/** The NSG of a single VM, as deployment builds it. */
module VmFirewall {
  import opened Wrappers
  import opened PriorityAllocator
  import opened SecurityGroup
  import opened Firewall
  import SandboxFirewall
  import Text

  datatype VmConfig = VmConfig(
    inboundRules: seq<RuleRequest>,   // parsed from the app's inbound ports: unnamed allow rules
    additionalNetworks: seq<string>,
    managementVnetCidr: string,
    allowAllSandboxTraffic: bool)

  const FROM_MANAGEMENT := "Allow_Traffic_From_Management_Vnet_To_Any"
  const FROM_LOAD_BALANCER := "Allow_Azure_Load_Balancer"
  const FROM_SANDBOX := "Deny_Sandbox_Traffic"

  function NetworkName(network: string): string { "Allow_" + SandboxFirewall.Dashed(network) }

  /** The call for an additional network passes no source address, so the rule's source is the
      default one, the Internet. */
  function NetworkStep(network: string): Step {
    Step(SandboxFirewall.AllowAllRule(NetworkName(network)), "*", INTERNET, 3000)
  }

  function InboundStage(cfg: VmConfig): seq<Step> {
    BatchSteps(cfg.inboundRules, "*", INTERNET, 1000)
  }

  function NetworkStage(cfg: VmConfig): (r: seq<Step>)
    ensures |r| == |cfg.additionalNetworks|
  {
    seq(|cfg.additionalNetworks|, k requires 0 <= k < |cfg.additionalNetworks| =>
      NetworkStep(cfg.additionalNetworks[k]))
  }

  function ManagementStep(cfg: VmConfig): Step {
    Step(SandboxFirewall.AllowAllRule(FROM_MANAGEMENT), "*", cfg.managementVnetCidr, 4070)
  }

  function LoadBalancerStep(): Step {
    Step(SandboxFirewall.AllowAllRule(FROM_LOAD_BALANCER), "*", "AzureLoadBalancer", 4080)
  }

  function SandboxStep(): Step {
    Step(SandboxFirewall.DenyAllRule(FROM_SANDBOX), "*", "VirtualNetwork", 4090)
  }

  function Tail(cfg: VmConfig): seq<Step> {
    if cfg.allowAllSandboxTraffic then [ManagementStep(cfg)]
    else [ManagementStep(cfg), LoadBalancerStep(), SandboxStep()]
  }

  function Steps(cfg: VmConfig): seq<Step> {
    InboundStage(cfg) + (NetworkStage(cfg) + Tail(cfg))
  }

  ghost predicate WellFormed(cfg: VmConfig) {
    && (forall r :: r in cfg.inboundRules ==> r.RuleData? && r.name == "" && r.access == Allow)
    && (forall a :: a in cfg.additionalNetworks ==> SandboxFirewall.IsCidrText(a))
    && Distinct(cfg.additionalNetworks)
  }

  method CreateVmNetworkSecurityGroup(cfg: VmConfig) returns (nsg: NetworkSecurityGroup)
    requires WellFormed(cfg)
    ensures fresh(nsg) && nsg.rules == Build(map[], Steps(cfg))
  {
    nsg := new NetworkSecurityGroup();
    CreateInboundRules(nsg, cfg);
    CreateNetworkRules(nsg, cfg, InboundStage(cfg));
    CreateVnetRules(nsg, cfg, InboundStage(cfg) + NetworkStage(cfg));
    assert InboundStage(cfg) + NetworkStage(cfg) + Tail(cfg) == Steps(cfg);
  }

  /** The one call for all inbound rules. */
  method CreateInboundRules(nsg: NetworkSecurityGroup, cfg: VmConfig)
    requires WellFormed(cfg) && nsg.rules == map[]
    modifies nsg
    ensures nsg.rules == Build(map[], InboundStage(cfg))
  {
    nsg.CreateNetworkSecurityGroupRules(cfg.inboundRules, "*", INTERNET, Some(1000));
    InboundIsFresh(cfg);
    BatchIsSingles(map[], cfg.inboundRules, "*", INTERNET, 1000);
  }

  /** The calls with start 3000. */
  method CreateNetworkRules(nsg: NetworkSecurityGroup, cfg: VmConfig, ghost earlier: seq<Step>)
    requires nsg.rules == Build(map[], earlier)
    modifies nsg
    ensures nsg.rules == Build(map[], earlier + NetworkStage(cfg))
  {
    ghost var stage := NetworkStage(cfg);
    var k := 0;
    assert earlier + stage[..0] == earlier;
    while k < |cfg.additionalNetworks|
      invariant 0 <= k <= |cfg.additionalNetworks|
      invariant nsg.rules == Build(map[], earlier + stage[..k])
    {
      var step := NetworkStep(cfg.additionalNetworks[k]);
      ghost var done := SandboxFirewall.CreateStep(nsg, step, earlier + stage[..k], map[]);
      SandboxFirewall.OneMore(earlier, stage, k);
      k := k + 1;
    }
    assert stage[..k] == stage;
  }

  /** The calls from start 4070 on. */
  method CreateVnetRules(nsg: NetworkSecurityGroup, cfg: VmConfig, ghost earlier: seq<Step>)
    requires nsg.rules == Build(map[], earlier)
    modifies nsg
    ensures nsg.rules == Build(map[], earlier + Tail(cfg))
  {
    ghost var done := SandboxFirewall.CreateStep(nsg, ManagementStep(cfg), earlier, map[]);
    if !cfg.allowAllSandboxTraffic {
      done := SandboxFirewall.CreateStep(nsg, LoadBalancerStep(), done, map[]);
      done := SandboxFirewall.CreateStep(nsg, SandboxStep(), done, map[]);
    }
    assert done == earlier + Tail(cfg);
  }

  // ---------- names and order ----------

  lemma InboundIsFresh(cfg: VmConfig)
    requires WellFormed(cfg)
    ensures FreshlyNamed(map[], InboundStage(cfg))
  {
    forall k | 0 <= k < |cfg.inboundRules| ensures InboundStage(cfg)[k].request.name == "" {
      assert cfg.inboundRules[k] in cfg.inboundRules;
    }
    WellNamedIsFresh(map[], InboundStage(cfg));
  }

  lemma FixedNames()
    ensures FROM_MANAGEMENT[0] == 'A' && |FROM_MANAGEMENT| > 6 && FROM_MANAGEMENT[6] == 'T'
    ensures FROM_LOAD_BALANCER[0] == 'A' && |FROM_LOAD_BALANCER| > 6 && FROM_LOAD_BALANCER[6] == 'A'
    ensures FROM_SANDBOX[0] == 'D'
  {
  }

  lemma NetworkNameShape(network: string)
    requires SandboxFirewall.IsCidrText(network)
    ensures var n := NetworkName(network);
            n[0] == 'A' && (|n| > 6 ==> n[6] != 'T' && n[6] != 'A') && n[6..] == SandboxFirewall.Dashed(network)
  {
    if network != "" {
      assert NetworkName(network)[6] == SandboxFirewall.Dashed(network)[0] && network[0] in network;
    }
  }

  lemma LateNames(cfg: VmConfig)
    requires WellFormed(cfg)
    ensures SandboxFirewall.DistinctNames(NetworkStage(cfg) + Tail(cfg))
    ensures forall k :: 0 <= k < |NetworkStage(cfg) + Tail(cfg)| ==>
              var n := (NetworkStage(cfg) + Tail(cfg))[k].request.name; n != "" && n[0] != 'r'
  {
    FixedNames();
    var stage := NetworkStage(cfg);
    forall k | 0 <= k < |stage|
      ensures var n := stage[k].request.name;
              n[0] == 'A' && (|n| > 6 ==> n[6] != 'T' && n[6] != 'A')
    {
      assert cfg.additionalNetworks[k] in cfg.additionalNetworks;
      NetworkNameShape(cfg.additionalNetworks[k]);
    }
    forall j, k | 0 <= j < k < |stage| ensures stage[j].request.name != stage[k].request.name {
      var a, b := cfg.additionalNetworks[j], cfg.additionalNetworks[k];
      assert a in cfg.additionalNetworks && b in cfg.additionalNetworks && a != b;
      NetworkNameShape(a);
      NetworkNameShape(b);
      if SandboxFirewall.Dashed(a) == SandboxFirewall.Dashed(b) { SandboxFirewall.DashedInjective(a, b); }
    }
    SandboxFirewall.NamesDistinctAppend(stage, Tail(cfg));
  }

  lemma StepsAreFresh(cfg: VmConfig)
    requires WellFormed(cfg)
    ensures FreshlyNamed(map[], Steps(cfg))
  {
    LateNames(cfg);
    var n := |InboundStage(cfg)|;
    var late := NetworkStage(cfg) + Tail(cfg);
    forall k | 0 <= k < n ensures Steps(cfg)[k].request.name == "" {
      assert cfg.inboundRules[k] in cfg.inboundRules;
    }
    assert forall k :: n <= k < |Steps(cfg)| ==> Steps(cfg)[k] == late[k - n];
    WellNamedIsFresh(map[], Steps(cfg));
  }

  lemma StepsAreOrdered(cfg: VmConfig)
    ensures OrderedStarts(1000, Steps(cfg))
  {
    var tail := Tail(cfg);
    if !cfg.allowAllSandboxTraffic {
      assert tail[1..] == [LoadBalancerStep(), SandboxStep()];
      assert tail[1..][1..] == [SandboxStep()] && tail[1..][1..][1..] == [];
      assert OrderedStarts(4080, tail[1..][1..]);
      assert OrderedStarts(4070, tail[1..]);
    }
    assert OrderedStarts(3000, tail);
    SandboxFirewall.OrderedStage(NetworkStage(cfg), tail, 1000, 3000);
    SandboxFirewall.OrderedStage(InboundStage(cfg), NetworkStage(cfg) + tail, 1000, 1000);
  }

  // ---------- the policy ----------

  ghost predicate ToInboundPort(m: Reading, cfg: VmConfig, packet: Packet) {
    m.covers(INTERNET, packet.source) &&
    exists r :: r in cfg.inboundRules
             && m.coversPort(PortRange(r), packet.port) && m.coversProtocol(r.protocol, packet.protocol)
  }

  ghost predicate FromAdditionalNetwork(m: Reading, cfg: VmConfig, packet: Packet) {
    exists a :: a in cfg.additionalNetworks && m.covers(a, packet.source)
  }

  /** What the layers from the management vnet down decide. */
  ghost function LowerLayers(m: Reading, cfg: VmConfig, packet: Packet): Option<Access> {
    if m.covers(cfg.managementVnetCidr, packet.source) then Some(Allow)
    else if cfg.allowAllSandboxTraffic then None
    else if m.covers("AzureLoadBalancer", packet.source) then Some(Allow)
    else if m.covers("VirtualNetwork", packet.source) then Some(Deny)
    else None
  }

  /** The decision of the NSG the code builds. */
  ghost function Policy(m: Reading, cfg: VmConfig, packet: Packet): Option<Access> {
    if ToInboundPort(m, cfg, packet) then Some(Allow)
    else if cfg.additionalNetworks != [] && m.covers(INTERNET, packet.source) then Some(Allow)
    else LowerLayers(m, cfg, packet)
  }

  /** The decision that the code's overview of the VM rules describes: traffic is opened to the
      additional management networks themselves. */
  ghost function DocumentedPolicy(m: Reading, cfg: VmConfig, packet: Packet): Option<Access> {
    if ToInboundPort(m, cfg, packet) then Some(Allow)
    else if FromAdditionalNetwork(m, cfg, packet) then Some(Allow)
    else LowerLayers(m, cfg, packet)
  }

  lemma InboundStageDecides(m: Reading, cfg: VmConfig, packet: Packet)
    requires WellFormed(cfg) && m.StarIsAny()
    ensures FirstInOrder(m, InboundStage(cfg), packet)
         == if ToInboundPort(m, cfg, packet) then Some(Allow) else None
  {
    var stage := InboundStage(cfg);
    forall k | 0 <= k < |stage|
      ensures StepAccess(stage[k]) == Allow
      ensures var r := cfg.inboundRules[k];
              StepMatches(m, stage[k], packet)
              <==> m.covers(INTERNET, packet.source) && m.coversPort(PortRange(r), packet.port)
                   && m.coversProtocol(r.protocol, packet.protocol)
    {
      assert cfg.inboundRules[k] in cfg.inboundRules;
    }
    SandboxFirewall.FirstInStage(m, stage, packet, Allow);
    if ToInboundPort(m, cfg, packet) {
      var r :| r in cfg.inboundRules
               && m.coversPort(PortRange(r), packet.port) && m.coversProtocol(r.protocol, packet.protocol);
      var k :| 0 <= k < |cfg.inboundRules| && cfg.inboundRules[k] == r;
      assert StepMatches(m, stage[k], packet);
    }
  }

  lemma NetworkStageDecides(m: Reading, cfg: VmConfig, packet: Packet)
    requires m.StarIsAny()
    ensures FirstInOrder(m, NetworkStage(cfg), packet)
         == if cfg.additionalNetworks != [] && m.covers(INTERNET, packet.source) then Some(Allow) else None
  {
    var stage := NetworkStage(cfg);
    assert forall k :: 0 <= k < |stage| ==> (StepMatches(m, stage[k], packet) <==> m.covers(INTERNET, packet.source));
    SandboxFirewall.FirstInStage(m, stage, packet, Allow);
    assert stage != [] && m.covers(INTERNET, packet.source) ==> StepMatches(m, stage[0], packet);
  }

  lemma TailDecides(m: Reading, cfg: VmConfig, packet: Packet)
    requires m.StarIsAny()
    ensures FirstInOrder(m, Tail(cfg), packet) == LowerLayers(m, cfg, packet)
  {
    var tail := Tail(cfg);
    assert StepMatches(m, ManagementStep(cfg), packet) == m.covers(cfg.managementVnetCidr, packet.source);
    assert StepMatches(m, LoadBalancerStep(), packet) == m.covers("AzureLoadBalancer", packet.source);
    assert StepMatches(m, SandboxStep(), packet) == m.covers("VirtualNetwork", packet.source);
    var a, b, c := [ManagementStep(cfg)], [LoadBalancerStep()], [SandboxStep()];
    SandboxFirewall.FirstInStage(m, a, packet, Allow);
    SandboxFirewall.FirstInStage(m, b, packet, Allow);
    SandboxFirewall.FirstInStage(m, c, packet, Deny);
    assert a[0] == ManagementStep(cfg) && b[0] == LoadBalancerStep() && c[0] == SandboxStep();
    if !cfg.allowAllSandboxTraffic {
      assert tail == a + (b + c);
      SandboxFirewall.FirstInOrderAppend(m, a, b + c, packet);
      SandboxFirewall.FirstInOrderAppend(m, b, c, packet);
    }
  }

  /** The VM's NSG decides every packet as `Policy` says. */
  lemma BuildMeetsPolicy(m: Reading, cfg: VmConfig, packet: Packet)
    requires WellFormed(cfg) && m.StarIsAny()
    ensures FirstMatch(Build(map[], Steps(cfg)), m, packet) == Policy(m, cfg, packet)
  {
    StepsAreOrdered(cfg);
    StepsAreFresh(cfg);
    EmptyIsPacked(1000);
    BuildExtendsOrder(map[], 1000, 1000 - STEP, Steps(cfg), m, packet);
    assert Hits(map[], m, packet) == {};
    SandboxFirewall.FirstInOrderAppend(m, InboundStage(cfg), NetworkStage(cfg) + Tail(cfg), packet);
    SandboxFirewall.FirstInOrderAppend(m, NetworkStage(cfg), Tail(cfg), packet);
    InboundStageDecides(m, cfg, packet);
    NetworkStageDecides(m, cfg, packet);
    TailDecides(m, cfg, packet);
  }

  // ---------- the rules one by one ----------

  function NetworkSlot(cfg: VmConfig, j: nat): int { Max(3000, 1000 + 5 * |cfg.inboundRules|) + 5 * j }

  /** After the inbound and network rules the management rule gets 4070, or the next slot. */
  function ManagementSlot(cfg: VmConfig): int {
    var n := |cfg.additionalNetworks|;
    Max(4070, if n == 0 then 1000 + 5 * |cfg.inboundRules| else NetworkSlot(cfg, n))
  }

  function LoadBalancerSlot(cfg: VmConfig): int { Max(4080, ManagementSlot(cfg) + STEP) }

  function SandboxSlot(cfg: VmConfig): int { Max(4090, LoadBalancerSlot(cfg) + STEP) }

  /** The rule of an unnamed request, named after its priority. */
  ghost predicate HasInboundRule(nsg: Nsg, request: RuleRequest, priority: int) {
    var name := "rule_" + Text.Decimal(priority);
    && name in nsg && nsg[name].name == name && nsg[name].priority == priority
    && Realizes(nsg[name], request, "*", INTERNET)
  }

  /** The rule of this name, to any address, for all ports and protocols. */
  ghost predicate HasRule(nsg: Nsg, name: string, access: Access, source: string, priority: int) {
    SandboxFirewall.HasRule(nsg, name, access, source, "*", priority)
  }

  lemma BuiltStep(cfg: VmConfig, k: nat)
    requires WellFormed(cfg) && k < |Steps(cfg)|
    ensures SandboxFirewall.HasStep(Build(map[], Steps(cfg)), Steps(cfg)[k], StepPriorities(995, Steps(cfg))[k])
  {
    StepsAreOrdered(cfg);
    StepsAreFresh(cfg);
    EmptyIsPacked(1000);
    StepOutcome(map[], 1000, 995, Steps(cfg), k);
  }

  function AfterNetworks(cfg: VmConfig): int {
    SandboxFirewall.LastPriority(995 + 5 * |cfg.inboundRules|, NetworkStage(cfg))
  }

  lemma SlotsSplit(cfg: VmConfig)
    ensures StepPriorities(995, Steps(cfg))
         == StepPriorities(995, InboundStage(cfg))
            + (StepPriorities(995 + 5 * |cfg.inboundRules|, NetworkStage(cfg))
               + StepPriorities(AfterNetworks(cfg), Tail(cfg)))
  {
    SandboxFirewall.PrioritiesAppend(995, InboundStage(cfg), NetworkStage(cfg) + Tail(cfg));
    SandboxFirewall.StageReach(995, InboundStage(cfg), 1000);
    SandboxFirewall.PrioritiesAppend(995 + 5 * |cfg.inboundRules|, NetworkStage(cfg), Tail(cfg));
  }

  lemma InboundRule(cfg: VmConfig, i: nat)
    requires WellFormed(cfg) && i < |cfg.inboundRules|
    ensures HasInboundRule(Build(map[], Steps(cfg)), cfg.inboundRules[i], 1000 + 5 * i)
  {
    BuiltStep(cfg, i);
    SlotsSplit(cfg);
    SandboxFirewall.StageSlots(995, InboundStage(cfg), 1000, i);
    assert Steps(cfg)[i] == InboundStage(cfg)[i];
    assert cfg.inboundRules[i] in cfg.inboundRules;
  }

  lemma NetworkSlots(cfg: VmConfig, j: nat)
    requires j < |cfg.additionalNetworks|
    ensures StepPriorities(995, Steps(cfg))[|cfg.inboundRules| + j] == NetworkSlot(cfg, j)
  {
    SlotsSplit(cfg);
    SandboxFirewall.StageSlots(995 + 5 * |cfg.inboundRules|, NetworkStage(cfg), 3000, j);
  }

  lemma At<T>(a: seq<T>, b: seq<T>, c: seq<T>, k: nat)
    ensures k < |b| ==> |a + (b + c)| > |a| + k && (a + (b + c))[|a| + k] == b[k]
    ensures k < |c| ==> |a + (b + c)| > |a| + |b| + k && (a + (b + c))[|a| + |b| + k] == c[k]
  {
  }

  lemma NetworkStepAt(cfg: VmConfig, j: nat)
    requires j < |cfg.additionalNetworks|
    ensures var k := |cfg.inboundRules| + j;
            k < |Steps(cfg)| && Steps(cfg)[k] == NetworkStep(cfg.additionalNetworks[j])
  {
    At(InboundStage(cfg), NetworkStage(cfg), Tail(cfg), j);
  }

  lemma TailStepAt(cfg: VmConfig, i: nat)
    requires i < |Tail(cfg)|
    ensures var k := |cfg.inboundRules| + |cfg.additionalNetworks| + i;
            k < |Steps(cfg)| && Steps(cfg)[k] == Tail(cfg)[i]
  {
    At(InboundStage(cfg), NetworkStage(cfg), Tail(cfg), i);
  }

  lemma NetworkBuilt(cfg: VmConfig, j: nat)
    requires WellFormed(cfg) && j < |cfg.additionalNetworks|
    ensures SandboxFirewall.HasStep(Build(map[], Steps(cfg)), NetworkStep(cfg.additionalNetworks[j]),
                                    NetworkSlot(cfg, j))
  {
    NetworkStepAt(cfg, j);
    NetworkSlots(cfg, j);
    BuiltStep(cfg, |cfg.inboundRules| + j);
  }

  lemma NetworkRule(cfg: VmConfig, j: nat)
    requires WellFormed(cfg) && j < |cfg.additionalNetworks|
    ensures HasRule(Build(map[], Steps(cfg)), NetworkName(cfg.additionalNetworks[j]), Allow, INTERNET,
                    NetworkSlot(cfg, j))
  {
    NetworkBuilt(cfg, j);
    NetworkStepRule(Build(map[], Steps(cfg)), cfg.additionalNetworks[j], NetworkSlot(cfg, j));
  }

  lemma NetworkStepRule(nsg: Nsg, network: string, priority: int)
    requires SandboxFirewall.HasStep(nsg, NetworkStep(network), priority)
    ensures HasRule(nsg, NetworkName(network), Allow, INTERNET, priority)
  {
    assert NetworkName(network) != "";
    SandboxFirewall.StepOfRule(nsg, NetworkName(network), Allow, INTERNET, "*", 3000, priority);
  }

  lemma TailSlots(cfg: VmConfig)
    ensures var ps := StepPriorities(995, Steps(cfg)); var k := |cfg.inboundRules| + |cfg.additionalNetworks|;
            && ps[k] == ManagementSlot(cfg)
            && (!cfg.allowAllSandboxTraffic ==> ps[k + 1] == LoadBalancerSlot(cfg) && ps[k + 2] == SandboxSlot(cfg))
  {
    SlotsSplit(cfg);
    SandboxFirewall.StageReach(995 + 5 * |cfg.inboundRules|, NetworkStage(cfg), 3000);
    var tail, p, q := Tail(cfg), ManagementSlot(cfg), LoadBalancerSlot(cfg);
    assert StepPriorities(AfterNetworks(cfg), tail) == [p] + StepPriorities(p, tail[1..]);
    if !cfg.allowAllSandboxTraffic {
      assert tail[1..] == [LoadBalancerStep(), SandboxStep()] && tail[1..][1..] == [SandboxStep()];
      assert StepPriorities(p, tail[1..]) == [q] + StepPriorities(q, [SandboxStep()]);
    }
  }

  lemma ManagementRule(cfg: VmConfig)
    requires WellFormed(cfg)
    ensures HasRule(Build(map[], Steps(cfg)), FROM_MANAGEMENT, Allow, cfg.managementVnetCidr, ManagementSlot(cfg))
  {
    var r, k := Build(map[], Steps(cfg)), |cfg.inboundRules| + |cfg.additionalNetworks|;
    TailSlots(cfg);
    TailStepAt(cfg, 0);
    FixedNames();
    BuiltStep(cfg, k);
    SandboxFirewall.StepOfRule(r, FROM_MANAGEMENT, Allow, cfg.managementVnetCidr, "*", 4070, ManagementSlot(cfg));
  }

  lemma ClosingRules(cfg: VmConfig)
    requires WellFormed(cfg) && !cfg.allowAllSandboxTraffic
    ensures HasRule(Build(map[], Steps(cfg)), FROM_LOAD_BALANCER, Allow, "AzureLoadBalancer", LoadBalancerSlot(cfg))
    ensures HasRule(Build(map[], Steps(cfg)), FROM_SANDBOX, Deny, "VirtualNetwork", SandboxSlot(cfg))
  {
    var r, k := Build(map[], Steps(cfg)), |cfg.inboundRules| + |cfg.additionalNetworks|;
    TailSlots(cfg);
    TailStepAt(cfg, 1);
    TailStepAt(cfg, 2);
    FixedNames();
    BuiltStep(cfg, k + 1);
    BuiltStep(cfg, k + 2);
    SandboxFirewall.StepOfRule(r, FROM_LOAD_BALANCER, Allow, "AzureLoadBalancer", "*", 4080, LoadBalancerSlot(cfg));
    SandboxFirewall.StepOfRule(r, FROM_SANDBOX, Deny, "VirtualNetwork", "*", 4090, SandboxSlot(cfg));
  }

  /** The whole NSG of a VM, rule by rule, each with its exact priority. */
  lemma RulesAre(cfg: VmConfig)
    requires WellFormed(cfg)
    ensures var r := Build(map[], Steps(cfg)); var vnet := if cfg.allowAllSandboxTraffic then 1 else 3;
            && |r| == |cfg.inboundRules| + |cfg.additionalNetworks| + vnet
            && (forall i :: 0 <= i < |cfg.inboundRules| ==> HasInboundRule(r, cfg.inboundRules[i], 1000 + 5 * i))
            && (forall j :: 0 <= j < |cfg.additionalNetworks| ==>
                  HasRule(r, NetworkName(cfg.additionalNetworks[j]), Allow, INTERNET, NetworkSlot(cfg, j)))
            && HasRule(r, FROM_MANAGEMENT, Allow, cfg.managementVnetCidr, ManagementSlot(cfg))
            && (!cfg.allowAllSandboxTraffic ==>
                  && HasRule(r, FROM_LOAD_BALANCER, Allow, "AzureLoadBalancer", LoadBalancerSlot(cfg))
                  && HasRule(r, FROM_SANDBOX, Deny, "VirtualNetwork", SandboxSlot(cfg)))
  {
    var r := Build(map[], Steps(cfg));
    StepsAreFresh(cfg);
    BuildSize(map[], Steps(cfg));
    forall i | 0 <= i < |cfg.inboundRules| ensures HasInboundRule(r, cfg.inboundRules[i], 1000 + 5 * i) {
      InboundRule(cfg, i);
    }
    forall j | 0 <= j < |cfg.additionalNetworks|
      ensures HasRule(r, NetworkName(cfg.additionalNetworks[j]), Allow, INTERNET, NetworkSlot(cfg, j))
    {
      NetworkRule(cfg, j);
    }
    ManagementRule(cfg);
    if !cfg.allowAllSandboxTraffic { ClosingRules(cfg); }
  }

  /** When the built NSG agrees with the documented policy about a packet: exactly if an earlier
      or a later layer allows it anyway, or its source is on the Internet (with some additional
      network configured) just when it is in an additional network. */
  lemma DocumentedPolicyIff(m: Reading, cfg: VmConfig, packet: Packet)
    requires WellFormed(cfg) && m.StarIsAny()
    ensures FirstMatch(Build(map[], Steps(cfg)), m, packet) == DocumentedPolicy(m, cfg, packet)
      <==> || ToInboundPort(m, cfg, packet)
           || LowerLayers(m, cfg, packet) == Some(Allow)
           || (FromAdditionalNetwork(m, cfg, packet)
               <==> cfg.additionalNetworks != [] && m.covers(INTERNET, packet.source))
  {
    BuildMeetsPolicy(m, cfg, packet);
  }

  /** Without additional networks the NSG follows the documented policy on every packet; with one,
      it departs from it on every packet that comes from the Internet, from outside the networks,
      and that no other layer allows. */
  lemma NetworksOpenTheInternet(m: Reading, cfg: VmConfig, packet: Packet)
    requires WellFormed(cfg) && m.StarIsAny()
    ensures cfg.additionalNetworks == [] ==>
              FirstMatch(Build(map[], Steps(cfg)), m, packet) == DocumentedPolicy(m, cfg, packet)
    ensures cfg.additionalNetworks != [] && Stranger(m, cfg, packet) ==>
              FirstMatch(Build(map[], Steps(cfg)), m, packet) == Some(Allow) != DocumentedPolicy(m, cfg, packet)
  {
    DocumentedPolicyIff(m, cfg, packet);
    BuildMeetsPolicy(m, cfg, packet);
  }

  ghost predicate Stranger(m: Reading, cfg: VmConfig, packet: Packet) {
    && m.covers(INTERNET, packet.source) && !FromAdditionalNetwork(m, cfg, packet)
    && !ToInboundPort(m, cfg, packet) && LowerLayers(m, cfg, packet) != Some(Allow)
  }

  /** So, wherever some packet comes from a stranger, the NSG meets its documentation exactly if no
      additional network is configured. */
  lemma DocumentedConfigurations(m: Reading, cfg: VmConfig, stranger: Packet)
    requires WellFormed(cfg) && m.StarIsAny() && Stranger(m, cfg, stranger)
    ensures (forall packet :: FirstMatch(Build(map[], Steps(cfg)), m, packet) == DocumentedPolicy(m, cfg, packet))
       <==> cfg.additionalNetworks == []
  {
    forall packet: Packet
      ensures cfg.additionalNetworks == [] ==>
                FirstMatch(Build(map[], Steps(cfg)), m, packet) == DocumentedPolicy(m, cfg, packet)
    {
      NetworksOpenTheInternet(m, cfg, packet);
    }
    NetworksOpenTheInternet(m, cfg, stranger);
  }

  /** A concrete disagreement: with one additional network 10.9.0.0/16, a packet from an Internet
      host to a port that is not opened is allowed. */
  lemma DocumentedPolicyFails()
    ensures var cfg := VmConfig([], ["10.9.0.0/16"], "10.0.0.0/16", true);
            var m := Reading((p, a) => p == "*" || (p == INTERNET && a == 7), (p, n) => p == "*", (p, t) => p == "*");
            var packet := Packet(7, 1, 22, "tcp");
            && WellFormed(cfg) && m.StarIsAny()
            && FirstMatch(Build(map[], Steps(cfg)), m, packet) == Some(Allow)
            && DocumentedPolicy(m, cfg, packet) == None
  {
    var cfg := VmConfig([], ["10.9.0.0/16"], "10.0.0.0/16", true);
    var m := Reading((p, a) => p == "*" || (p == INTERNET && a == 7), (p, n) => p == "*", (p, t) => p == "*");
    var packet := Packet(7, 1, 22, "tcp");
    assert INTERNET[0] == 'I' && "10.9.0.0/16"[0] == '1' && "10.0.0.0/16"[0] == '1' && "*"[0] == '*';
    forall a | a in cfg.additionalNetworks ensures SandboxFirewall.IsCidrText(a) {
      assert a == "10.9.0.0/16";
    }
    BuildMeetsPolicy(m, cfg, packet);
  }
}
