/** The NSG shared by all subnets of a sandbox, as sandbox preparation builds it. */
module SandboxFirewall {
  import opened Wrappers
  import opened PriorityAllocator
  import opened SecurityGroup
  import opened Firewall
  import Text

  datatype SubnetAction = SubnetAction(cidr: string, isPublic: bool)

  datatype SandboxConfig = SandboxConfig(
    subnets: seq<SubnetAction>,
    additionalNetworks: seq<string>,
    sandboxCidr: string,
    managementVnetCidr: string,
    sandboxVnetCidr: string)

  const DENY_OTHER_SANDBOXES := "Deny_Traffic_From_Other_Sandboxes_To_Sandbox_CIDR"

  function AllowAllRule(name: string): RuleRequest {
    RuleData(name, "*", "*", "", "", Allow)
  }

  function DenyAllRule(name: string): RuleRequest {
    RuleData(name, "*", "*", "", "", Deny)
  }

  function Dashed(cidr: string): string { Text.Replace(cidr, '/', '-') }

  function SandboxToSubnetName(cidr: string): string { "Allow_Sandbox_Traffic_To_" + Dashed(cidr) }

  function InternetToPrivateName(cidr: string): string {
    "Deny_Internet_Traffic_To_Private_Subnet_" + Dashed(cidr)
  }

  function NetworkToSandboxName(network: string, sandboxCidr: string): string {
    "Allow_" + Dashed(network) + "_To_" + Dashed(sandboxCidr)
  }

  function PrivateSubnets(subnets: seq<SubnetAction>): (r: seq<SubnetAction>)
    ensures forall s :: s in r <==> s in subnets && !s.isPublic
    ensures |r| <= |subnets|
  {
    if subnets == [] then []
    else
      assert subnets == [subnets[0]] + subnets[1..];
      (if subnets[0].isPublic then [] else [subnets[0]]) + PrivateSubnets(subnets[1..])
  }

  // ---------- the calls, stage by stage ----------

  function SubnetStep(cfg: SandboxConfig, s: SubnetAction): Step {
    Step(AllowAllRule(SandboxToSubnetName(s.cidr)), s.cidr, cfg.sandboxCidr, 2000)
  }

  function PrivateStep(s: SubnetAction): Step {
    Step(DenyAllRule(InternetToPrivateName(s.cidr)), s.cidr, INTERNET, 2000)
  }

  function NetworkStep(cfg: SandboxConfig, network: string, start: int): Step {
    Step(AllowAllRule(NetworkToSandboxName(network, cfg.sandboxCidr)), cfg.sandboxCidr, network, start)
  }

  function SubnetStage(cfg: SandboxConfig): (r: seq<Step>)
    ensures |r| == |cfg.subnets|
  {
    seq(|cfg.subnets|, k requires 0 <= k < |cfg.subnets| => SubnetStep(cfg, cfg.subnets[k]))
  }

  function PrivateStage(cfg: SandboxConfig): (r: seq<Step>)
    ensures |r| == |PrivateSubnets(cfg.subnets)|
  {
    var p := PrivateSubnets(cfg.subnets);
    seq(|p|, k requires 0 <= k < |p| => PrivateStep(p[k]))
  }

  function AdditionalStage(cfg: SandboxConfig): (r: seq<Step>)
    ensures |r| == |cfg.additionalNetworks|
  {
    seq(|cfg.additionalNetworks|, k requires 0 <= k < |cfg.additionalNetworks| =>
      NetworkStep(cfg, cfg.additionalNetworks[k], 4000))
  }

  function ManagementStep(cfg: SandboxConfig): Step { NetworkStep(cfg, cfg.managementVnetCidr, 4080) }

  function OtherSandboxesStep(cfg: SandboxConfig): Step {
    Step(DenyAllRule(DENY_OTHER_SANDBOXES), cfg.sandboxCidr, cfg.sandboxVnetCidr, 4090)
  }

  function Steps(cfg: SandboxConfig): seq<Step> {
    (SubnetStage(cfg) + PrivateStage(cfg)) + (AdditionalStage(cfg) + [ManagementStep(cfg), OtherSandboxesStep(cfg)])
  }

  method CreateSubnetNsgRules(nsg: NetworkSecurityGroup, cfg: SandboxConfig)
    modifies nsg
    ensures nsg.rules == Build(old(nsg.rules), Steps(cfg))
  {
    ghost var before := nsg.rules;
    CreateSandboxRules(nsg, cfg);
    CreatePrivateRules(nsg, cfg, SubnetStage(cfg), before);
    CreateManagementRules(nsg, cfg, SubnetStage(cfg) + PrivateStage(cfg), before);
  }

  /** The calls that let the sandbox's traffic in. */
  method CreateSandboxRules(nsg: NetworkSecurityGroup, cfg: SandboxConfig)
    modifies nsg
    ensures nsg.rules == Build(old(nsg.rules), SubnetStage(cfg))
  {
    ghost var before, stage := nsg.rules, SubnetStage(cfg);
    var k := 0;
    while k < |cfg.subnets|
      invariant 0 <= k <= |cfg.subnets| && nsg.rules == Build(before, stage[..k])
    {
      ghost var done := CreateStep(nsg, SubnetStep(cfg, cfg.subnets[k]), stage[..k], before);
      assert stage[..k] + [stage[k]] == stage[..k + 1];
      k := k + 1;
    }
    assert stage[..k] == stage;
  }

  /** The calls that keep the Internet out of private subnets. */
  method CreatePrivateRules(nsg: NetworkSecurityGroup, cfg: SandboxConfig, ghost earlier: seq<Step>, ghost before: Nsg)
    requires nsg.rules == Build(before, earlier)
    modifies nsg
    ensures nsg.rules == Build(before, earlier + PrivateStage(cfg))
  {
    var private := PrivateSubnets(cfg.subnets);
    ghost var stage := PrivateStage(cfg);
    var k := 0;
    assert earlier + stage[..0] == earlier;
    while k < |private|
      invariant 0 <= k <= |private| && nsg.rules == Build(before, earlier + stage[..k])
    {
      ghost var done := CreateStep(nsg, PrivateStep(private[k]), earlier + stage[..k], before);
      OneMore(earlier, stage, k);
      k := k + 1;
    }
    assert stage[..k] == stage;
  }

  /** The calls for the additional networks. */
  method CreateNetworkRules(nsg: NetworkSecurityGroup, cfg: SandboxConfig, ghost earlier: seq<Step>, ghost before: Nsg)
    requires nsg.rules == Build(before, earlier)
    modifies nsg
    ensures nsg.rules == Build(before, earlier + AdditionalStage(cfg))
  {
    ghost var stage := AdditionalStage(cfg);
    var k := 0;
    assert earlier + stage[..0] == earlier;
    while k < |cfg.additionalNetworks|
      invariant 0 <= k <= |cfg.additionalNetworks| && nsg.rules == Build(before, earlier + stage[..k])
    {
      var step := NetworkStep(cfg, cfg.additionalNetworks[k], 4000);
      ghost var done := CreateStep(nsg, step, earlier + stage[..k], before);
      OneMore(earlier, stage, k);
      k := k + 1;
    }
    assert stage[..k] == stage;
  }

  /** The calls from start 4000 on. */
  method CreateManagementRules(nsg: NetworkSecurityGroup, cfg: SandboxConfig, ghost earlier: seq<Step>,
                               ghost before: Nsg)
    requires nsg.rules == Build(before, earlier)
    modifies nsg
    ensures nsg.rules
         == Build(before, earlier + (AdditionalStage(cfg) + [ManagementStep(cfg), OtherSandboxesStep(cfg)]))
  {
    CreateNetworkRules(nsg, cfg, earlier, before);
    ghost var done := CreateStep(nsg, ManagementStep(cfg), earlier + AdditionalStage(cfg), before);
    done := CreateStep(nsg, OtherSandboxesStep(cfg), done, before);
    assert done == earlier + (AdditionalStage(cfg) + [ManagementStep(cfg), OtherSandboxesStep(cfg)]);
  }

  lemma OneMore<T>(earlier: seq<T>, stage: seq<T>, k: nat)
    requires k < |stage|
    ensures earlier + stage[..k] + [stage[k]] == earlier + stage[..k + 1]
  {
  }

  /** One single-rule call, recorded after the calls already made on the NSG. */
  method CreateStep(nsg: NetworkSecurityGroup, step: Step, ghost done: seq<Step>, ghost before: Nsg)
    returns (ghost extended: seq<Step>)
    requires nsg.rules == Build(before, done)
    modifies nsg
    ensures extended == done + [step]
    ensures nsg.rules == Build(before, extended)
  {
    nsg.CreateNetworkSecurityGroupRules([step.request], step.destination, step.source, Some(step.start));
    extended := done + [step];
    BuildAppend(before, done, [step]);
    assert [step][1..] == [];
  }

  // ---------- names ----------

  predicate IsCidrText(s: string) {
    forall c :: c in s ==> Text.IsDigit(c) || c == '.' || c == '/'
  }

  function Cidrs(subnets: seq<SubnetAction>): (r: seq<string>)
    ensures |r| == |subnets|
  {
    seq(|subnets|, k requires 0 <= k < |subnets| => subnets[k].cidr)
  }

  /** Address texts are CIDRs; no subnet is requested twice, no network listed twice. */
  ghost predicate WellFormed(cfg: SandboxConfig) {
    && (forall s :: s in cfg.subnets ==> IsCidrText(s.cidr))
    && (forall a :: a in cfg.additionalNetworks ==> IsCidrText(a))
    && IsCidrText(cfg.managementVnetCidr) && IsCidrText(cfg.sandboxCidr)
    && Distinct(Cidrs(cfg.subnets))
    && Distinct(cfg.additionalNetworks + [cfg.managementVnetCidr])
  }

  ghost predicate DistinctNames(steps: seq<Step>) {
    forall j, k :: 0 <= j < k < |steps| ==> steps[j].request.name != steps[k].request.name
  }

  lemma DashedInjective(a: string, b: string)
    requires IsCidrText(a) && IsCidrText(b) && Dashed(a) == Dashed(b)
    ensures a == b
  {
    Text.ReplaceInjective(a, b, '/', '-');
  }

  lemma SubnetNamesDistinct(a: string, b: string)
    requires IsCidrText(a) && IsCidrText(b) && a != b
    ensures SandboxToSubnetName(a) != SandboxToSubnetName(b)
    ensures InternetToPrivateName(a) != InternetToPrivateName(b)
  {
    assert SandboxToSubnetName(a)[25..] == Dashed(a) && SandboxToSubnetName(b)[25..] == Dashed(b);
    assert InternetToPrivateName(a)[40..] == Dashed(a) && InternetToPrivateName(b)[40..] == Dashed(b);
    if Dashed(a) == Dashed(b) { DashedInjective(a, b); }
  }

  lemma NetworkNamesDistinct(a: string, b: string, sandboxCidr: string)
    requires IsCidrText(a) && IsCidrText(b) && a != b
    ensures NetworkToSandboxName(a, sandboxCidr) != NetworkToSandboxName(b, sandboxCidr)
  {
    var x, y := NetworkToSandboxName(a, sandboxCidr), NetworkToSandboxName(b, sandboxCidr);
    var tail := "_To_" + Dashed(sandboxCidr);
    assert x == ("Allow_" + Dashed(a)) + tail && y == ("Allow_" + Dashed(b)) + tail;
    assert x[6..|x| - |tail|] == Dashed(a) && y[6..|y| - |tail|] == Dashed(b);
    if Dashed(a) == Dashed(b) { DashedInjective(a, b); }
  }

  /** The seventh character of a name tells which stage wrote it. */
  lemma StageOfName(cfg: SandboxConfig, s: SubnetAction, network: string)
    requires IsCidrText(network)
    ensures SandboxToSubnetName(s.cidr)[0] == 'A' && SandboxToSubnetName(s.cidr)[6] == 'S'
    ensures InternetToPrivateName(s.cidr)[0] == 'D' && InternetToPrivateName(s.cidr)[5] == 'I'
    ensures var n := NetworkToSandboxName(network, cfg.sandboxCidr); |n| > 6 && n[0] == 'A' && n[6] != 'S'
    ensures DENY_OTHER_SANDBOXES[0] == 'D' && DENY_OTHER_SANDBOXES[5] == 'T'
  {
    var n := NetworkToSandboxName(network, cfg.sandboxCidr);
    if network != "" {
      assert n[6] == Dashed(network)[0] && network[0] in network;
    } else {
      assert n[6] == '_';
    }
  }

  lemma NamesDistinctAppend(a: seq<Step>, b: seq<Step>)
    requires DistinctNames(a) && DistinctNames(b)
    requires forall j, k :: 0 <= j < |a| && 0 <= k < |b| ==> a[j].request.name != b[k].request.name
    ensures DistinctNames(a + b)
  {
  }

  lemma StageNames(cfg: SandboxConfig)
    requires WellFormed(cfg)
    ensures DistinctNames(SubnetStage(cfg)) && DistinctNames(PrivateStage(cfg))
    ensures DistinctNames(AdditionalStage(cfg) + [ManagementStep(cfg)])
  {
    var stage := SubnetStage(cfg);
    forall j, k | 0 <= j < k < |stage| ensures stage[j].request.name != stage[k].request.name {
      assert Cidrs(cfg.subnets)[j] != Cidrs(cfg.subnets)[k];
      assert cfg.subnets[j] in cfg.subnets && cfg.subnets[k] in cfg.subnets;
      SubnetNamesDistinct(cfg.subnets[j].cidr, cfg.subnets[k].cidr);
    }
    PrivateDistinct(cfg.subnets);
    var p := PrivateSubnets(cfg.subnets);
    forall j, k | 0 <= j < k < |p|
      ensures PrivateStage(cfg)[j].request.name != PrivateStage(cfg)[k].request.name
    {
      assert Cidrs(p)[j] != Cidrs(p)[k];
      assert p[j] in p && p[k] in p;
      SubnetNamesDistinct(p[j].cidr, p[k].cidr);
    }
    var networks := cfg.additionalNetworks + [cfg.managementVnetCidr];
    var last := AdditionalStage(cfg) + [ManagementStep(cfg)];
    forall j, k | 0 <= j < k < |last| ensures last[j].request.name != last[k].request.name {
      assert networks[j] != networks[k];
      assert networks[j] in networks && networks[k] in networks;
      NetworkNamesDistinct(networks[j], networks[k], cfg.sandboxCidr);
    }
  }

  lemma {:induction false} PrivateDistinct(subnets: seq<SubnetAction>)
    requires Distinct(Cidrs(subnets))
    ensures Distinct(Cidrs(PrivateSubnets(subnets)))
  {
    if subnets != [] {
      var rest := subnets[1..];
      assert Cidrs(rest) == Cidrs(subnets)[1..];
      PrivateDistinct(rest);
      var p, q := PrivateSubnets(rest), PrivateSubnets(subnets);
      assert q == p || q == [subnets[0]] + p;
      forall k | 0 <= k < |p| ensures p[k].cidr != subnets[0].cidr {
        assert p[k] in rest;
        var j :| 0 <= j < |rest| && rest[j] == p[k];
        assert Cidrs(subnets)[0] != Cidrs(subnets)[j + 1];
      }
      assert forall k :: 0 <= k < |q| ==> Cidrs(q)[k] == q[k].cidr;
      assert forall k :: 0 <= k < |p| ==> Cidrs(p)[k] == p[k].cidr;
    }
  }

  /** All rules of the sandbox NSG have different names. */
  lemma StepsDistinctNames(cfg: SandboxConfig)
    requires WellFormed(cfg)
    ensures DistinctNames(Steps(cfg))
  {
    StageNames(cfg);
    StageOfName(cfg, SubnetAction("", true), "");
    var a, b := SubnetStage(cfg), PrivateStage(cfg);
    var c, d := AdditionalStage(cfg) + [ManagementStep(cfg)], [OtherSandboxesStep(cfg)];
    forall j | 0 <= j < |c|
      ensures |c[j].request.name| > 6 && c[j].request.name[0] == 'A' && c[j].request.name[6] != 'S'
    {
      var networks := cfg.additionalNetworks + [cfg.managementVnetCidr];
      assert networks[j] in networks;
      StageOfName(cfg, SubnetAction("", true), networks[j]);
    }
    forall s: SubnetAction
      ensures SandboxToSubnetName(s.cidr)[0] == 'A' && SandboxToSubnetName(s.cidr)[6] == 'S'
      ensures InternetToPrivateName(s.cidr)[0] == 'D' && InternetToPrivateName(s.cidr)[5] == 'I'
    {
      StageOfName(cfg, s, "");
    }
    NamesDistinctAppend(a, b);
    NamesDistinctAppend(c, d);
    NamesDistinctAppend(a + b, c + d);
    assert Steps(cfg) == (a + b) + (c + d);
  }

  lemma StepsAreOrdered(cfg: SandboxConfig)
    ensures OrderedStarts(2000, Steps(cfg))
  {
    var tail := [ManagementStep(cfg), OtherSandboxesStep(cfg)];
    assert tail[1..] == [OtherSandboxesStep(cfg)] && tail[1..][1..] == [];
    assert OrderedStarts(4090, []) && OrderedStarts(4080, tail[1..]) && OrderedStarts(4000, tail);
    OrderedStage(AdditionalStage(cfg), tail, 2000, 4000);
    var late := AdditionalStage(cfg) + tail;
    assert SubnetStage(cfg) + PrivateStage(cfg) + late == Steps(cfg);
    OrderedStage(SubnetStage(cfg) + PrivateStage(cfg), late, 2000, 2000);
  }

  /** A stage with one start, put before steps that are ordered from that start on. */
  lemma {:induction false} OrderedStage(stage: seq<Step>, later: seq<Step>, start: int, s: int)
    requires start <= s && s % 5 == 0 && OrderedStarts(s, later)
    requires forall k :: 0 <= k < |stage| ==> stage[k].start == s
    ensures OrderedStarts(start, stage + later)
    decreases |stage|
  {
    if stage == [] {
      assert stage + later == later;
    } else {
      assert (stage + later)[1..] == stage[1..] + later;
      OrderedStage(stage[1..], later, s, s);
    }
  }

  lemma StepsAreFresh(cfg: SandboxConfig)
    requires WellFormed(cfg)
    ensures FreshlyNamed(map[], Steps(cfg))
  {
    StepsDistinctNames(cfg);
    StepsAvoidGeneratedNames(cfg);
    WellNamedIsFresh(map[], Steps(cfg));
  }

  lemma StepsAvoidGeneratedNames(cfg: SandboxConfig)
    ensures forall k :: 0 <= k < |Steps(cfg)| ==>
              Steps(cfg)[k].request.name != "" && !Text.StartsWith(Steps(cfg)[k].request.name, "rule_")
  {
    StageOfName(cfg, SubnetAction("", true), "");
    forall k | 0 <= k < |Steps(cfg)|
      ensures Steps(cfg)[k].request.name != "" && Steps(cfg)[k].request.name[0] != 'r'
    {
    }
  }

  // ---------- the policy ----------

  ghost predicate FromSandboxToSubnet(m: Reading, cfg: SandboxConfig, packet: Packet) {
    exists s :: s in cfg.subnets && m.covers(cfg.sandboxCidr, packet.source) && m.covers(s.cidr, packet.destination)
  }

  ghost predicate FromInternetToPrivate(m: Reading, cfg: SandboxConfig, packet: Packet) {
    exists s :: s in cfg.subnets && !s.isPublic
                && m.covers(INTERNET, packet.source) && m.covers(s.cidr, packet.destination)
  }

  ghost predicate FromManagement(m: Reading, cfg: SandboxConfig, packet: Packet) {
    && m.covers(cfg.sandboxCidr, packet.destination)
    && (m.covers(cfg.managementVnetCidr, packet.source)
        || exists a :: a in cfg.additionalNetworks && m.covers(a, packet.source))
  }

  /** What the sandbox NSG is for, as the overview of its rules lists it. */
  ghost function Policy(m: Reading, cfg: SandboxConfig, packet: Packet): Option<Access> {
    if FromSandboxToSubnet(m, cfg, packet) then Some(Allow)
    else if FromInternetToPrivate(m, cfg, packet) then Some(Deny)
    else if FromManagement(m, cfg, packet) then Some(Allow)
    else if m.covers(cfg.sandboxVnetCidr, packet.source) && m.covers(cfg.sandboxCidr, packet.destination)
      then Some(Deny)
    else None
  }

  lemma {:induction false} FirstInOrderAppend(m: Reading, a: seq<Step>, b: seq<Step>, packet: Packet)
    ensures FirstInOrder(m, a + b, packet) == OrElse(FirstInOrder(m, a, packet), FirstInOrder(m, b, packet))
    decreases |a|
  {
    if a == [] {
      assert a + b == b;
    } else {
      assert (a + b)[1..] == a[1..] + b;
      FirstInOrderAppend(m, a[1..], b, packet);
    }
  }

  /** A stage whose rules all have one access decides by whether any of them matches. */
  lemma {:induction false} FirstInStage(m: Reading, stage: seq<Step>, packet: Packet, access: Access)
    requires forall k :: 0 <= k < |stage| ==> StepAccess(stage[k]) == access
    ensures FirstInOrder(m, stage, packet)
         == if exists k :: 0 <= k < |stage| && StepMatches(m, stage[k], packet) then Some(access) else None
    decreases |stage|
  {
    if stage != [] {
      FirstInStage(m, stage[1..], packet, access);
      if exists k :: 0 <= k < |stage| && StepMatches(m, stage[k], packet) {
        var k :| 0 <= k < |stage| && StepMatches(m, stage[k], packet);
        assert k > 0 ==> stage[1..][k - 1] == stage[k];
      }
      assert forall k :: 0 <= k < |stage| - 1 ==> stage[1..][k] == stage[k + 1];
    }
  }

  lemma SubnetStageDecides(m: Reading, cfg: SandboxConfig, packet: Packet)
    requires m.StarIsAny()
    ensures FirstInOrder(m, SubnetStage(cfg), packet)
         == if FromSandboxToSubnet(m, cfg, packet) then Some(Allow) else None
  {
    var stage := SubnetStage(cfg);
    FirstInStage(m, stage, packet, Allow);
    assert forall k :: 0 <= k < |stage| ==> (StepMatches(m, stage[k], packet)
      <==> m.covers(cfg.sandboxCidr, packet.source) && m.covers(cfg.subnets[k].cidr, packet.destination));
    if FromSandboxToSubnet(m, cfg, packet) {
      var s :| s in cfg.subnets && m.covers(cfg.sandboxCidr, packet.source) && m.covers(s.cidr, packet.destination);
      var k :| 0 <= k < |cfg.subnets| && cfg.subnets[k] == s;
      assert StepMatches(m, stage[k], packet);
    }
  }

  lemma PrivateStepMatches(m: Reading, s: SubnetAction, packet: Packet)
    requires m.StarIsAny()
    ensures StepMatches(m, PrivateStep(s), packet)
       <==> m.covers(INTERNET, packet.source) && m.covers(s.cidr, packet.destination)
    ensures StepAccess(PrivateStep(s)) == Deny
  {
  }

  lemma PrivateStageDecides(m: Reading, cfg: SandboxConfig, packet: Packet)
    requires m.StarIsAny()
    ensures FirstInOrder(m, PrivateStage(cfg), packet)
         == if FromInternetToPrivate(m, cfg, packet) then Some(Deny) else None
  {
    var stage, p := PrivateStage(cfg), PrivateSubnets(cfg.subnets);
    forall k | 0 <= k < |stage|
      ensures StepAccess(stage[k]) == Deny
      ensures StepMatches(m, stage[k], packet)
         <==> m.covers(INTERNET, packet.source) && m.covers(p[k].cidr, packet.destination)
    {
      PrivateStepMatches(m, p[k], packet);
    }
    FirstInStage(m, stage, packet, Deny);
    if FromInternetToPrivate(m, cfg, packet) {
      var k := SomePrivate(m, cfg, packet);
      assert StepMatches(m, stage[k], packet);
    }
    if k :| 0 <= k < |stage| && StepMatches(m, stage[k], packet) {
      assert p[k] in p;
    }
  }

  lemma SomePrivate(m: Reading, cfg: SandboxConfig, packet: Packet) returns (k: nat)
    requires FromInternetToPrivate(m, cfg, packet)
    ensures var p := PrivateSubnets(cfg.subnets);
            k < |p| && m.covers(INTERNET, packet.source) && m.covers(p[k].cidr, packet.destination)
  {
    var p := PrivateSubnets(cfg.subnets);
    var s :| s in cfg.subnets && !s.isPublic
             && m.covers(INTERNET, packet.source) && m.covers(s.cidr, packet.destination);
    assert s in p;
    k :| 0 <= k < |p| && p[k] == s;
  }

  lemma NetworkStepMatches(m: Reading, cfg: SandboxConfig, network: string, start: int, packet: Packet)
    requires m.StarIsAny()
    ensures StepMatches(m, NetworkStep(cfg, network, start), packet)
       <==> m.covers(network, packet.source) && m.covers(cfg.sandboxCidr, packet.destination)
    ensures StepAccess(NetworkStep(cfg, network, start)) == Allow
  {
  }

  /** A stage of network rules allows what comes from one of its networks. */
  lemma NetworkStageDecides(m: Reading, cfg: SandboxConfig, stage: seq<Step>, networks: seq<string>, packet: Packet)
    requires m.StarIsAny() && |stage| == |networks|
    requires forall k :: 0 <= k < |stage| ==> stage[k] == NetworkStep(cfg, networks[k], stage[k].start)
    ensures FirstInOrder(m, stage, packet)
         == if m.covers(cfg.sandboxCidr, packet.destination) && exists a :: a in networks && m.covers(a, packet.source)
            then Some(Allow) else None
  {
    forall k | 0 <= k < |stage|
      ensures StepAccess(stage[k]) == Allow
      ensures StepMatches(m, stage[k], packet)
         <==> m.covers(networks[k], packet.source) && m.covers(cfg.sandboxCidr, packet.destination)
    {
      NetworkStepMatches(m, cfg, networks[k], stage[k].start, packet);
    }
    FirstInStage(m, stage, packet, Allow);
    if a :| a in networks && m.covers(a, packet.source) {
      var k :| 0 <= k < |networks| && networks[k] == a;
      assert m.covers(cfg.sandboxCidr, packet.destination) ==> StepMatches(m, stage[k], packet);
    }
    if k :| 0 <= k < |stage| && StepMatches(m, stage[k], packet) {
      assert networks[k] in networks;
    }
  }

  lemma ManagementStageDecides(m: Reading, cfg: SandboxConfig, packet: Packet)
    requires m.StarIsAny()
    ensures FirstInOrder(m, AdditionalStage(cfg) + [ManagementStep(cfg)], packet)
         == if FromManagement(m, cfg, packet) then Some(Allow) else None
  {
    var networks := cfg.additionalNetworks + [cfg.managementVnetCidr];
    NetworkStageDecides(m, cfg, AdditionalStage(cfg) + [ManagementStep(cfg)], networks, packet);
    assert forall a :: a in networks <==> a in cfg.additionalNetworks || a == cfg.managementVnetCidr;
  }

  /** For every well-formed request and every packet, the NSG built from scratch decides exactly
      as the policy says, whatever the number of subnets and networks. */
  lemma BuildMeetsPolicy(m: Reading, cfg: SandboxConfig, packet: Packet)
    requires WellFormed(cfg) && m.StarIsAny()
    ensures FirstMatch(Build(map[], Steps(cfg)), m, packet) == Policy(m, cfg, packet)
  {
    StepsAreOrdered(cfg);
    StepsAreFresh(cfg);
    EmptyIsPacked(2000);
    BuildExtendsOrder(map[], 2000, 2000 - STEP, Steps(cfg), m, packet);
    assert Hits(map[], m, packet) == {};
    var a, b := SubnetStage(cfg), PrivateStage(cfg);
    var c, d := AdditionalStage(cfg) + [ManagementStep(cfg)], [OtherSandboxesStep(cfg)];
    assert Steps(cfg) == (a + b) + (c + d);
    FirstInOrderAppend(m, a + b, c + d, packet);
    FirstInOrderAppend(m, a, b, packet);
    FirstInOrderAppend(m, c, d, packet);
    SubnetStageDecides(m, cfg, packet);
    PrivateStageDecides(m, cfg, packet);
    ManagementStageDecides(m, cfg, packet);
    FirstInStage(m, d, packet, Deny);
    assert StepMatches(m, d[0], packet)
      <==> m.covers(cfg.sandboxVnetCidr, packet.source) && m.covers(cfg.sandboxCidr, packet.destination);
  }

  // ---------- how far the priorities reach ----------

  function LastPriority(last: int, steps: seq<Step>): int
    decreases |steps|
  {
    if steps == [] then last else LastPriority(Max(steps[0].start, last + STEP), steps[1..])
  }

  lemma {:induction false} PrioritiesAppend(last: int, a: seq<Step>, b: seq<Step>)
    ensures StepPriorities(last, a + b) == StepPriorities(last, a) + StepPriorities(LastPriority(last, a), b)
    decreases |a|
  {
    if a == [] {
      assert a + b == b;
    } else {
      assert (a + b)[1..] == a[1..] + b;
      PrioritiesAppend(Max(a[0].start, last + STEP), a[1..], b);
    }
  }

  /** A stage of `n` rules takes `n` consecutive slots from the later of its start and the next slot. */
  lemma {:induction false} StageReach(last: int, stage: seq<Step>, start: int)
    requires forall k :: 0 <= k < |stage| ==> stage[k].start == start
    ensures LastPriority(last, stage)
         == if stage == [] then last else Max(start, last + STEP) + 5 * (|stage| - 1)
    decreases |stage|
  {
    if stage != [] {
      StageReach(Max(start, last + STEP), stage[1..], start);
    }
  }

  lemma {:induction false} StageSlots(last: int, stage: seq<Step>, start: int, j: nat)
    requires j < |stage| && forall k :: 0 <= k < |stage| ==> stage[k].start == start
    ensures StepPriorities(last, stage)[j] == Max(start, last + STEP) + 5 * j
    decreases |stage|
  {
    if j > 0 {
      StageSlots(Max(start, last + STEP), stage[1..], start, j - 1);
    }
  }

  /** The priority of the management rule, after `r` rules of the 2000 stage and `k` networks. */
  function ManagementPriority(r: nat, k: nat): int {
    var afterSubnets := 1995 + 5 * r;
    var afterNetworks := if k == 0 then afterSubnets else Max(4000, afterSubnets + STEP) + 5 * (k - 1);
    Max(4080, afterNetworks + STEP)
  }

  function EarlyRules(cfg: SandboxConfig): nat {
    |cfg.subnets| + |PrivateSubnets(cfg.subnets)|
  }

  /** The priority of the j-th additional network's rule. */
  function NetworkSlot(cfg: SandboxConfig, j: nat): int { Max(4000, 2000 + 5 * EarlyRules(cfg)) + 5 * j }

  function Front(cfg: SandboxConfig): seq<Step> {
    (SubnetStage(cfg) + PrivateStage(cfg)) + AdditionalStage(cfg)
  }

  lemma FrontReaches(cfg: SandboxConfig)
    ensures Max(4080, LastPriority(1995, Front(cfg)) + STEP)
         == ManagementPriority(EarlyRules(cfg), |cfg.additionalNetworks|)
  {
    var early, networks := SubnetStage(cfg) + PrivateStage(cfg), AdditionalStage(cfg);
    StageReach(1995, early, 2000);
    StageReach(LastPriority(1995, early), networks, 4000);
    LastPriorityAppend(1995, early, networks);
  }

  lemma LastTwoPriorities(cfg: SandboxConfig)
    ensures var n := |Steps(cfg)| - 2;
            var p := ManagementPriority(EarlyRules(cfg), |cfg.additionalNetworks|);
            && Steps(cfg)[n] == ManagementStep(cfg) && StepPriorities(1995, Steps(cfg))[n] == p
            && Steps(cfg)[n + 1] == OtherSandboxesStep(cfg)
            && StepPriorities(1995, Steps(cfg))[n + 1] == Max(4090, p + STEP)
  {
    var front, tail := Front(cfg), [ManagementStep(cfg), OtherSandboxesStep(cfg)];
    var last := LastPriority(1995, front);
    assert Steps(cfg) == front + tail;
    FrontReaches(cfg);
    PrioritiesAppend(1995, front, tail);
    var p := Max(4080, last + STEP);
    assert tail[1..] == [OtherSandboxesStep(cfg)] && tail[1..][1..] == [];
    assert StepPriorities(last, tail) == [p] + StepPriorities(p, tail[1..]);
    assert StepPriorities(p, tail[1..]) == [Max(4090, p + STEP)] + StepPriorities(Max(4090, p + STEP), []);
  }

  /** The last rule written has the highest priority number. */
  lemma LastIsHighest(steps: seq<Step>, start: int, n: string)
    requires steps != [] && OrderedStarts(start, steps) && start % 5 == 0 && FreshlyNamed(map[], steps)
    requires n in Build(map[], steps)
    ensures Build(map[], steps)[n].priority <= StepPriorities(start - STEP, steps)[|steps| - 1]
  {
    var r, ps := Build(map[], steps), StepPriorities(start - STEP, steps);
    var p := r[n].priority;
    assert p in Priorities(r) && Priorities(map[]) == {};
    EmptyIsPacked(start);
    BuildPriorities(map[], start, start - STEP, steps);
    var k :| 0 <= k < |ps| && ps[k] == p;
    NoneAboveLast(start - STEP, steps, k);
  }

  lemma NoneAboveLast(last: int, steps: seq<Step>, k: nat)
    requires k < |steps|
    ensures StepPriorities(last, steps)[k] <= StepPriorities(last, steps)[|steps| - 1]
  {
    if k < |steps| - 1 { StepPrioritiesIncrease(last, steps, k, |steps| - 1); }
  }

  lemma PrioritiesOfLastRules(cfg: SandboxConfig)
    requires WellFormed(cfg)
    ensures var r := Build(map[], Steps(cfg));
            var p := ManagementPriority(EarlyRules(cfg), |cfg.additionalNetworks|);
            var management := NetworkToSandboxName(cfg.managementVnetCidr, cfg.sandboxCidr);
            && management in r && r[management].priority == p
            && DENY_OTHER_SANDBOXES in r && r[DENY_OTHER_SANDBOXES].priority == Max(4090, p + STEP)
            && (forall n :: n in r ==> r[n].priority <= Max(4090, p + STEP))
  {
    StepsAreOrdered(cfg);
    StepsAreFresh(cfg);
    EmptyIsPacked(2000);
    LastTwoPriorities(cfg);
    var all := Steps(cfg);
    StepOutcome(map[], 2000, 1995, all, |all| - 2);
    StepOutcome(map[], 2000, 1995, all, |all| - 1);
    forall n | n in Build(map[], all)
      ensures Build(map[], all)[n].priority <= StepPriorities(1995, all)[|all| - 1]
    {
      LastIsHighest(all, 2000, n);
    }
  }

  lemma {:induction false} LastPriorityAppend(last: int, a: seq<Step>, b: seq<Step>)
    ensures LastPriority(last, a + b) == LastPriority(LastPriority(last, a), b)
    decreases |a|
  {
    if a == [] {
      assert a + b == b;
    } else {
      assert (a + b)[1..] == a[1..] + b;
      LastPriorityAppend(Max(a[0].start, last + STEP), a[1..], b);
    }
  }

  /** The rule of this name, for all ports and protocols. */
  ghost predicate HasRule(nsg: Nsg, name: string, access: Access, source: string, destination: string, priority: int) {
    name in nsg && nsg[name] == SecurityRule(name, access, source, destination, "*", "*", priority)
  }

  /** The step wrote its rule with this priority. */
  ghost predicate HasStep(nsg: Nsg, step: Step, priority: int) {
    var rule := StepRule(step, priority);
    rule.name in nsg && nsg[rule.name] == rule
  }

  lemma StepOfRule(nsg: Nsg, name: string, access: Access, source: string, destination: string, start: int,
                   priority: int)
    requires name != ""
    requires HasStep(nsg, Step(RuleData(name, "*", "*", "", "", access), destination, source, start), priority)
    ensures HasRule(nsg, name, access, source, destination, priority)
  {
  }

  lemma BuiltStep(cfg: SandboxConfig, k: nat)
    requires WellFormed(cfg) && k < |Steps(cfg)|
    ensures HasStep(Build(map[], Steps(cfg)), Steps(cfg)[k], StepPriorities(1995, Steps(cfg))[k])
  {
    StepsAreOrdered(cfg);
    StepsAreFresh(cfg);
    EmptyIsPacked(2000);
    StepOutcome(map[], 2000, 1995, Steps(cfg), k);
  }

  lemma EarlySlot(cfg: SandboxConfig, k: nat)
    requires k < EarlyRules(cfg)
    ensures StepPriorities(1995, Steps(cfg))[k] == 2000 + 5 * k
  {
    var early, late := SubnetStage(cfg) + PrivateStage(cfg), AdditionalStage(cfg) + [ManagementStep(cfg),
                                                                                    OtherSandboxesStep(cfg)];
    PrioritiesAppend(1995, early, late);
    StageSlots(1995, early, 2000, k);
    assert StepPriorities(1995, Steps(cfg)) == StepPriorities(1995, early + late);
  }

  lemma NetworkSlots(cfg: SandboxConfig, j: nat)
    requires j < |cfg.additionalNetworks|
    ensures StepPriorities(1995, Steps(cfg))[EarlyRules(cfg) + j] == NetworkSlot(cfg, j)
  {
    var early, networks := SubnetStage(cfg) + PrivateStage(cfg), AdditionalStage(cfg);
    var tail := [ManagementStep(cfg), OtherSandboxesStep(cfg)];
    PrioritiesAppend(1995, early, networks + tail);
    PrioritiesAppend(LastPriority(1995, early), networks, tail);
    StageReach(1995, early, 2000);
    StageSlots(LastPriority(1995, early), networks, 4000, j);
    assert StepPriorities(1995, Steps(cfg)) == StepPriorities(1995, early + (networks + tail));
  }

  lemma SubnetRule(cfg: SandboxConfig, i: nat)
    requires WellFormed(cfg) && i < |cfg.subnets|
    ensures var cidr := cfg.subnets[i].cidr;
            HasRule(Build(map[], Steps(cfg)), SandboxToSubnetName(cidr), Allow, cfg.sandboxCidr, cidr, 2000 + 5 * i)
  {
    var cidr := cfg.subnets[i].cidr;
    BuiltStep(cfg, i);
    EarlySlot(cfg, i);
    assert Steps(cfg)[i] == SubnetStep(cfg, cfg.subnets[i]);
    assert SandboxToSubnetName(cidr) != "";
    StepOfRule(Build(map[], Steps(cfg)), SandboxToSubnetName(cidr), Allow, cfg.sandboxCidr, cidr, 2000, 2000 + 5 * i);
  }

  lemma PrivateRule(cfg: SandboxConfig, i: nat)
    requires WellFormed(cfg) && i < |PrivateSubnets(cfg.subnets)|
    ensures var cidr := PrivateSubnets(cfg.subnets)[i].cidr;
            HasRule(Build(map[], Steps(cfg)), InternetToPrivateName(cidr), Deny, INTERNET, cidr,
                    2000 + 5 * (|cfg.subnets| + i))
  {
    var cidr, k := PrivateSubnets(cfg.subnets)[i].cidr, |cfg.subnets| + i;
    BuiltStep(cfg, k);
    EarlySlot(cfg, k);
    assert Steps(cfg)[k] == PrivateStep(PrivateSubnets(cfg.subnets)[i]);
    assert InternetToPrivateName(cidr) != "";
    StepOfRule(Build(map[], Steps(cfg)), InternetToPrivateName(cidr), Deny, INTERNET, cidr, 2000, 2000 + 5 * k);
  }

  lemma NetworkRule(cfg: SandboxConfig, j: nat)
    requires WellFormed(cfg) && j < |cfg.additionalNetworks|
    ensures var network := cfg.additionalNetworks[j];
            HasRule(Build(map[], Steps(cfg)), NetworkToSandboxName(network, cfg.sandboxCidr), Allow, network,
                    cfg.sandboxCidr, NetworkSlot(cfg, j))
  {
    var network, k := cfg.additionalNetworks[j], EarlyRules(cfg) + j;
    BuiltStep(cfg, k);
    NetworkSlots(cfg, j);
    assert Steps(cfg)[k] == NetworkStep(cfg, network, 4000);
    assert NetworkToSandboxName(network, cfg.sandboxCidr) != "";
    StepOfRule(Build(map[], Steps(cfg)), NetworkToSandboxName(network, cfg.sandboxCidr), Allow, network,
               cfg.sandboxCidr, 4000, NetworkSlot(cfg, j));
  }

  lemma LastRules(cfg: SandboxConfig)
    requires WellFormed(cfg)
    ensures var r := Build(map[], Steps(cfg));
            var p := ManagementPriority(EarlyRules(cfg), |cfg.additionalNetworks|);
            && HasRule(r, NetworkToSandboxName(cfg.managementVnetCidr, cfg.sandboxCidr), Allow, cfg.managementVnetCidr,
                       cfg.sandboxCidr, p)
            && HasRule(r, DENY_OTHER_SANDBOXES, Deny, cfg.sandboxVnetCidr, cfg.sandboxCidr, Max(4090, p + STEP))
  {
    var p := ManagementPriority(EarlyRules(cfg), |cfg.additionalNetworks|);
    var name := NetworkToSandboxName(cfg.managementVnetCidr, cfg.sandboxCidr);
    LastTwoPriorities(cfg);
    BuiltStep(cfg, |Steps(cfg)| - 2);
    BuiltStep(cfg, |Steps(cfg)| - 1);
    assert name != "" && DENY_OTHER_SANDBOXES != "";
    StepOfRule(Build(map[], Steps(cfg)), name, Allow, cfg.managementVnetCidr, cfg.sandboxCidr, 4080, p);
    StepOfRule(Build(map[], Steps(cfg)), DENY_OTHER_SANDBOXES, Deny, cfg.sandboxVnetCidr, cfg.sandboxCidr, 4090,
               Max(4090, p + STEP));
  }

  /** The whole sandbox NSG, rule by rule: one for every subnet, every private subnet and every
      additional network, the management VNet's and the final one, each with its exact priority. */
  lemma RulesAre(cfg: SandboxConfig)
    requires WellFormed(cfg)
    ensures var r := Build(map[], Steps(cfg)); var private := PrivateSubnets(cfg.subnets);
            var p := ManagementPriority(EarlyRules(cfg), |cfg.additionalNetworks|);
            && |r| == |cfg.subnets| + |private| + |cfg.additionalNetworks| + 2
            && (forall i :: 0 <= i < |cfg.subnets| ==>
                  HasRule(r, SandboxToSubnetName(cfg.subnets[i].cidr), Allow, cfg.sandboxCidr, cfg.subnets[i].cidr,
                          2000 + 5 * i))
            && (forall i :: 0 <= i < |private| ==>
                  HasRule(r, InternetToPrivateName(private[i].cidr), Deny, INTERNET, private[i].cidr,
                          2000 + 5 * (|cfg.subnets| + i)))
            && (forall j :: 0 <= j < |cfg.additionalNetworks| ==>
                  HasRule(r, NetworkToSandboxName(cfg.additionalNetworks[j], cfg.sandboxCidr), Allow,
                          cfg.additionalNetworks[j], cfg.sandboxCidr, NetworkSlot(cfg, j)))
            && HasRule(r, NetworkToSandboxName(cfg.managementVnetCidr, cfg.sandboxCidr), Allow, cfg.managementVnetCidr,
                       cfg.sandboxCidr, p)
            && HasRule(r, DENY_OTHER_SANDBOXES, Deny, cfg.sandboxVnetCidr, cfg.sandboxCidr, Max(4090, p + STEP))
  {
    var r, private := Build(map[], Steps(cfg)), PrivateSubnets(cfg.subnets);
    StepsAreFresh(cfg);
    BuildSize(map[], Steps(cfg));
    forall i | 0 <= i < |cfg.subnets|
      ensures HasRule(r, SandboxToSubnetName(cfg.subnets[i].cidr), Allow, cfg.sandboxCidr, cfg.subnets[i].cidr,
                      2000 + 5 * i)
    {
      SubnetRule(cfg, i);
    }
    forall i | 0 <= i < |private|
      ensures HasRule(r, InternetToPrivateName(private[i].cidr), Deny, INTERNET, private[i].cidr,
                      2000 + 5 * (|cfg.subnets| + i))
    {
      PrivateRule(cfg, i);
    }
    forall j | 0 <= j < |cfg.additionalNetworks|
      ensures HasRule(r, NetworkToSandboxName(cfg.additionalNetworks[j], cfg.sandboxCidr), Allow,
                      cfg.additionalNetworks[j], cfg.sandboxCidr, NetworkSlot(cfg, j))
    {
      NetworkRule(cfg, j);
    }
    LastRules(cfg);
  }

  const AZURE_MAX_PRIORITY := 4096

  /** The sandbox NSG stays within Azure's priority range exactly for at most 18 additional
      networks and at most 418 subnet, private-subnet and network rules. With at most 400 rules in
      the 2000 stage the management rule gets 4080, or 5 more for every network past the 16th. */
  lemma FitsAzureExactly(cfg: SandboxConfig)
    requires WellFormed(cfg)
    ensures var k, r := |cfg.additionalNetworks|, EarlyRules(cfg);
            (forall n :: n in Build(map[], Steps(cfg)) ==> Build(map[], Steps(cfg))[n].priority <= AZURE_MAX_PRIORITY)
            <==> k <= 18 && r + k <= 418
    ensures var k := |cfg.additionalNetworks|;
            EarlyRules(cfg) <= 400 ==>
              && ManagementPriority(EarlyRules(cfg), k) == 4080 + 5 * Max(0, k - 16)
              && DENY_OTHER_SANDBOXES in Build(map[], Steps(cfg))
              && Build(map[], Steps(cfg))[DENY_OTHER_SANDBOXES].priority == 4090 + 5 * Max(0, k - 17)
  {
    PrioritiesOfLastRules(cfg);
  }
}
