/** Which packets reach a deployed VM: those that both the sandbox NSG, at the subnet, and the VM's
    own NSG, at the interface, allow. */
module Reachability {
  import opened Wrappers
  import opened PriorityAllocator
  import opened SecurityGroup
  import opened Firewall
  import opened SandboxTraffic
  import opened InboundPorts
  import Deployment
  import DeployedRules
  import PortRules
  import ResourceStore
  import SandboxFirewall
  import VmFirewall

  type DeployConfig = Deployment.DeployConfig

  // ---------- the sandbox NSG while the interfaces get their rules ----------

  /** The priorities of the rules that carry one of the names. */
  ghost function Slots(nsg: Nsg, requests: seq<RuleRequest>): (r: set<int>)
    ensures |r| <= |requests|
    ensures forall k :: 0 <= k < |requests| && requests[k].name in nsg ==> nsg[requests[k].name].priority in r
    decreases |requests|
  {
    if requests == [] then {}
    else
      var rest := Slots(nsg, requests[1..]);
      assert forall k :: 1 <= k < |requests| ==> requests[k] == requests[1..][k - 1];
      if requests[0].name in nsg then rest + {nsg[requests[0].name].priority} else rest
  }

  /** `nsg` differs from `before` in the rules of the given names only. */
  ghost predicate SameBut(before: Nsg, nsg: Nsg, requests: seq<RuleRequest>) {
    forall n :: !Names(requests, n) ==> (n in nsg <==> n in before) && (n in before ==> nsg[n] == before[n])
  }

  lemma RoomLeft(before: Nsg, nsg: Nsg, requests: seq<RuleRequest>)
    requires SameBut(before, nsg, requests)
    ensures |Window(Priorities(nsg), 1000, 2000)| <= |Window(Priorities(before), 1000, 2000)| + |requests|
  {
    var earlier, slots := Window(Priorities(before), 1000, 2000), Slots(nsg, requests);
    forall y | y in Window(Priorities(nsg), 1000, 2000) ensures y in earlier + slots {
      var n :| n in nsg && nsg[n].priority == y;
      if !Names(requests, n) {
        assert before[n].priority in Priorities(before);
      }
    }
    CardinalityMonotone(Window(Priorities(nsg), 1000, 2000), earlier + slots);
  }

  /** There is room in [1000, 2000) for the inbound rules and for their replacements. */
  ghost predicate HasRoom(nsg: Nsg, deploy: DeployConfig) {
    |Window(Priorities(nsg), 1000, 2000)| + 2 * |deploy.InboundRules()| <= 200
  }

  lemma OneInterface(cfg: SandboxFirewall.SandboxConfig, deploy: DeployConfig, text: string, before: Nsg, nsg: Nsg,
                     address: string)
    requires CidrTexts(cfg) && PortRules.ParsePortGroup(text) == Ok(deploy.firewall.inboundRules)
    requires HasRoom(before, deploy) && Layered(Base(cfg), nsg) && SameBut(before, nsg, deploy.InboundRules())
    ensures var r := CreateRules(nsg, deploy.InboundRules(), address, INTERNET, 1000);
            Layered(Base(cfg), r) && SameBut(before, r, deploy.InboundRules())
  {
    var requests := deploy.InboundRules();
    RoomLeft(before, nsg, requests);
    DeploymentIsAdmissible(cfg, deploy, text, nsg, address);
    InboundKeepsLayered(Base(cfg), nsg, requests, address);
    InboundBatchIsNamed(deploy);
    forall n | !Names(requests, n)
      ensures var r := CreateRules(nsg, requests, address, INTERNET, 1000);
              (n in r <==> n in nsg) && (n in nsg ==> r[n] == nsg[n])
    {
      OtherNamesUntouched(nsg, Priorities(nsg), requests, address, INTERNET, 1000, n);
    }
  }

  lemma {:induction false} AllInterfaces(cfg: SandboxFirewall.SandboxConfig, deploy: DeployConfig, text: string,
                                         before: Nsg, nsg: Nsg, addresses: seq<string>)
    requires CidrTexts(cfg) && PortRules.ParsePortGroup(text) == Ok(deploy.firewall.inboundRules)
    requires HasRoom(before, deploy) && Layered(Base(cfg), nsg) && SameBut(before, nsg, deploy.InboundRules())
    ensures var r := ForInterfaces(nsg, deploy, addresses);
            Layered(Base(cfg), r) && SameBut(before, r, deploy.InboundRules())
    decreases |addresses|
  {
    if addresses != [] {
      OneInterface(cfg, deploy, text, before, nsg, addresses[0]);
      AllInterfaces(cfg, deploy, text, before,
                    CreateRules(nsg, deploy.InboundRules(), addresses[0], INTERNET, 1000), addresses[1..]);
    }
  }

  // ---------- what the sandbox NSG then decides ----------

  /** The packet comes from the Internet to one of the VM's open ports at an address. */
  ghost predicate ToOpenPort(m: Reading, deploy: DeployConfig, address: string, packet: Packet) {
    VmFirewall.ToInboundPort(m, deploy.firewall, packet) && m.covers(address, packet.destination)
  }

  lemma OpenRuleMatches(m: Reading, deploy: DeployConfig, nsg: Nsg, rule: RuleRequest, address: string, packet: Packet)
    requires Opens(nsg, deploy, rule, address)
    ensures Matches(m, nsg[deploy.InboundName(rule)], packet)
       <==> m.covers(INTERNET, packet.source) && m.covers(address, packet.destination)
            && m.coversPort(PortRange(rule), packet.port) && m.coversProtocol(rule.protocol, packet.protocol)
  {
  }

  /** An inbound rule matches exactly if one did before, or the packet goes to an open port. */
  lemma InboundAfter(cfg: SandboxFirewall.SandboxConfig, deploy: DeployConfig, before: Nsg, r: Nsg, address: string,
                     m: Reading, packet: Packet)
    requires SameBut(before, r, deploy.InboundRules())
    requires forall k :: 0 <= k < |deploy.InboundRules()| ==>
               && deploy.InboundRules()[k].name !in before && deploy.InboundRules()[k].name !in Base(cfg)
               && Opens(r, deploy, deploy.firewall.inboundRules[k], address)
    ensures InboundMatches(Base(cfg), r, m, packet)
       <==> InboundMatches(Base(cfg), before, m, packet) || ToOpenPort(m, deploy, address, packet)
  {
    var rules, named, base := deploy.firewall.inboundRules, deploy.InboundRules(), Base(cfg);
    if n :| n in before && n !in base && Matches(m, before[n], packet) {
      assert !Names(named, n) && n in r && r[n] == before[n];
    }
    if ToOpenPort(m, deploy, address, packet) {
      var rule :| rule in rules && m.coversPort(PortRange(rule), packet.port)
                  && m.coversProtocol(rule.protocol, packet.protocol);
      var k :| 0 <= k < |rules| && rules[k] == rule;
      assert named[k].name == deploy.InboundName(rule);
      OpenRuleMatches(m, deploy, r, rule, address, packet);
    }
    if n :| n in r && n !in base && Matches(m, r[n], packet) {
      if Names(named, n) {
        var k :| 0 <= k < |named| && named[k].name == n;
        OpenRuleMatches(m, deploy, r, rules[k], address, packet);
        assert rules[k] in rules;
      } else {
        assert n in before && before[n] == r[n];
      }
    }
  }

  /** The sandbox NSG after the interfaces got their rules. */
  lemma SandboxDecides(cfg: SandboxFirewall.SandboxConfig, deploy: DeployConfig, text: string, before: Nsg,
                       addresses: seq<string>, m: Reading, packet: Packet)
    requires MeetsPolicy(cfg) && m.StarIsAny() && PortRules.ParsePortGroup(text) == Ok(deploy.firewall.inboundRules)
    requires HasRoom(before, deploy) && Layered(Base(cfg), before) && addresses != []
    requires forall k :: 0 <= k < |deploy.InboundRules()| ==> deploy.InboundRules()[k].name !in before
    ensures FirstMatch(ForInterfaces(before, deploy, addresses), m, packet)
         == if InboundMatches(Base(cfg), before, m, packet) || ToOpenPort(m, deploy, addresses[|addresses| - 1], packet)
            then Some(Allow) else SandboxFirewall.Policy(m, cfg, packet)
  {
    var r, address := ForInterfaces(before, deploy, addresses), addresses[|addresses| - 1];
    AllInterfaces(cfg, deploy, text, before, before, addresses);
    DeploymentIsAdmissible(cfg, deploy, text, before, address);
    forall k | 0 <= k < |deploy.InboundRules()|
      ensures deploy.InboundRules()[k].name !in Base(cfg)
      ensures Opens(r, deploy, deploy.firewall.inboundRules[k], address)
    {
      OnlyLastInterfaceIsOpen(deploy, text, before, addresses, k, address);
    }
    InboundAfter(cfg, deploy, before, r, address, m, packet);
    PreparedRules(cfg);
    LayersDecide(Base(cfg), r, m, packet);
    BaseMeetsPolicy(m, cfg, packet);
  }

  // ---------- both NSGs ----------

  ghost predicate Allows(st: ResourceStore.Store, nsg: string, m: Reading, packet: Packet) {
    nsg in st.nsgs && FirstMatch(st.nsgs[nsg], m, packet) == Some(Allow)
  }

  /** Both NSGs on the packet's way allow it: the one of the interface's subnet and its own. */
  ghost predicate Passes(st: ResourceStore.Store, interface: string, m: Reading, packet: Packet) {
    && interface in st.nics
    && var nic := st.nics[interface];
       && nic.subnet in st.subnets && st.subnets[nic.subnet].Some?
       && Allows(st, st.subnets[nic.subnet].value, m, packet)
       && Allows(st, nic.nsg, m, packet)
  }

  /** The sandbox's NSG as earlier deployments left it, with no rule named after this VM. */
  ghost predicate ReadyFor(init: ResourceStore.Store, cfg: SandboxFirewall.SandboxConfig, deploy: DeployConfig) {
    var sandbox := deploy.SubnetsNsgName();
    && Deployment.Untouched(init, deploy.vmName) && ' ' !in deploy.vmName
    && sandbox in init.nsgs && Layered(Base(cfg), init.nsgs[sandbox]) && HasRoom(init.nsgs[sandbox], deploy)
  }

  lemma NamesAreNew(init: ResourceStore.Store, cfg: SandboxFirewall.SandboxConfig, deploy: DeployConfig)
    requires ReadyFor(init, cfg, deploy)
    ensures deploy.SubnetsNsgName() != deploy.VmNsgName()
    ensures forall k :: 0 <= k < |deploy.InboundRules()| ==>
              deploy.InboundRules()[k].name !in init.nsgs[deploy.SubnetsNsgName()]
  {
    Deployment.NamesOwned(deploy, []);
    Deployment.InboundRulesOwned(deploy);
  }

  function LastAddress(deploy: DeployConfig): string
    requires deploy.nicRequests != [] && deploy.EverySubnetFound()
  {
    var addresses := DeployedRules.Addresses(deploy, deploy.nicRequests);
    addresses[|addresses| - 1]
  }

  ghost predicate BothAllow(st: ResourceStore.Store, deploy: DeployConfig, m: Reading, packet: Packet) {
    Allows(st, deploy.SubnetsNsgName(), m, packet) && Allows(st, deploy.VmNsgName(), m, packet)
  }

  /** What the sandbox's NSG allows after a complete deployment. */
  lemma SandboxAllowsIff(init: ResourceStore.Store, cfg: SandboxFirewall.SandboxConfig, deploy: DeployConfig,
                         text: string, m: Reading, packet: Packet)
    requires MeetsPolicy(cfg) && m.StarIsAny() && ReadyFor(init, cfg, deploy)
    requires VmFirewall.WellFormed(deploy.firewall)
    requires PortRules.ParsePortGroup(text) == Ok(deploy.firewall.inboundRules)
    requires deploy.nicRequests != [] && deploy.EverySubnetFound()
    requires Deployment.DeployAll(init, Deployment.Plan(deploy)).Some?
    ensures Allows(Deployment.DeployAll(init, Deployment.Plan(deploy)).value, deploy.SubnetsNsgName(), m, packet)
       <==> || InboundMatches(Base(cfg), init.nsgs[deploy.SubnetsNsgName()], m, packet)
            || ToOpenPort(m, deploy, LastAddress(deploy), packet)
            || SandboxFirewall.Policy(m, cfg, packet) == Some(Allow)
  {
    NamesAreNew(init, cfg, deploy);
    DeployedRules.DeployedNsgs(init, deploy);
    SandboxDecides(cfg, deploy, text, init.nsgs[deploy.SubnetsNsgName()],
                   DeployedRules.Addresses(deploy, deploy.nicRequests), m, packet);
  }

  /** What the two NSGs allow after a complete deployment. */
  lemma BothDecide(init: ResourceStore.Store, cfg: SandboxFirewall.SandboxConfig, deploy: DeployConfig, text: string,
                   m: Reading, packet: Packet)
    requires MeetsPolicy(cfg) && m.StarIsAny() && ReadyFor(init, cfg, deploy)
    requires VmFirewall.WellFormed(deploy.firewall)
    requires PortRules.ParsePortGroup(text) == Ok(deploy.firewall.inboundRules)
    requires deploy.nicRequests != [] && deploy.EverySubnetFound()
    requires Deployment.DeployAll(init, Deployment.Plan(deploy)).Some?
    ensures BothAllow(Deployment.DeployAll(init, Deployment.Plan(deploy)).value, deploy, m, packet)
       <==> || ToOpenPort(m, deploy, LastAddress(deploy), packet)
            || (&& VmFirewall.Policy(m, deploy.firewall, packet) == Some(Allow)
                && (|| SandboxFirewall.Policy(m, cfg, packet) == Some(Allow)
                    || InboundMatches(Base(cfg), init.nsgs[deploy.SubnetsNsgName()], m, packet)))
  {
    SandboxAllowsIff(init, cfg, deploy, text, m, packet);
    NamesAreNew(init, cfg, deploy);
    DeployedRules.DeployedVmDecides(init, deploy, m, packet);
  }

  /** The k-th interface lies behind the VM's NSG, and behind that of its subnet. */
  lemma OnTheWay(init: ResourceStore.Store, deploy: DeployConfig, k: nat)
    requires k < |deploy.nicRequests| && deploy.EverySubnetFound() && Deployment.DistinctIndices(deploy.nicRequests)
    requires Deployment.DeployAll(init, Deployment.Plan(deploy)).Some?
    requires var subnet := deploy.nicRequests[k].value.subnet;
             subnet in init.subnets && init.subnets[subnet] == Some(deploy.SubnetsNsgName())
    ensures var st := Deployment.DeployAll(init, Deployment.Plan(deploy)).value;
            var interface := deploy.InterfaceName(deploy.nicRequests[k].value);
            && interface in st.nics && st.nics[interface].nsg == deploy.VmNsgName()
            && st.nics[interface].subnet in st.subnets
            && st.subnets[st.nics[interface].subnet] == Some(deploy.SubnetsNsgName())
  {
    Deployment.DeployedResources(init, deploy);
    var st := Deployment.DeployAll(init, Deployment.Plan(deploy)).value;
    assert Deployment.HasInterface(st.nics, st.ips, deploy, deploy.nicRequests[k].value);
  }

  /** After a complete deployment a packet passes to any of the VM's interfaces exactly if it comes
      from the Internet to an open port at the last interface, or if the VM's policy allows it and
      so does the sandbox's policy or an inbound rule written for another VM. */
  lemma ReachesVmIff(init: ResourceStore.Store, cfg: SandboxFirewall.SandboxConfig, deploy: DeployConfig, text: string,
                     k: nat, m: Reading, packet: Packet)
    requires MeetsPolicy(cfg) && m.StarIsAny() && ReadyFor(init, cfg, deploy)
    requires VmFirewall.WellFormed(deploy.firewall)
    requires PortRules.ParsePortGroup(text) == Ok(deploy.firewall.inboundRules)
    requires k < |deploy.nicRequests| && deploy.EverySubnetFound() && Deployment.DistinctIndices(deploy.nicRequests)
    requires var subnet := deploy.nicRequests[k].value.subnet;
             subnet in init.subnets && init.subnets[subnet] == Some(deploy.SubnetsNsgName())
    requires Deployment.DeployAll(init, Deployment.Plan(deploy)).Some?
    ensures Passes(Deployment.DeployAll(init, Deployment.Plan(deploy)).value,
                   deploy.InterfaceName(deploy.nicRequests[k].value), m, packet)
       <==> || ToOpenPort(m, deploy, LastAddress(deploy), packet)
            || (&& VmFirewall.Policy(m, deploy.firewall, packet) == Some(Allow)
                && (|| SandboxFirewall.Policy(m, cfg, packet) == Some(Allow)
                    || InboundMatches(Base(cfg), init.nsgs[deploy.SubnetsNsgName()], m, packet)))
  {
    OnTheWay(init, deploy, k);
    BothDecide(init, cfg, deploy, text, m, packet);
  }
}
