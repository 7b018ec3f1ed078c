/** What a completed deployment leaves in the two NSGs it writes: the VM's own and the sandbox's. */
module DeployedRules {
  import opened Wrappers
  import opened SecurityGroup
  import opened ResourceStore
  import opened Deployment
  import opened InboundPorts
  import Firewall
  import VmFirewall

  // ---------- the VM's NSG ----------

  lemma UpdateTwice(nsgs: map<string, Nsg>, name: string, first: Nsg, second: Nsg)
    ensures nsgs[name := first][name := second] == nsgs[name := second]
  {
  }

  lemma {:induction false} SinglesBuild(st: Store, nsg: string, steps: seq<Firewall.Step>)
    requires nsg in st.nsgs
    ensures DeployAll(st, Singles(nsg, steps))
         == Some(st.(nsgs := st.nsgs[nsg := Firewall.Build(st.nsgs[nsg], steps)]))
    decreases |steps|
  {
    if steps == [] {
      assert st.nsgs[nsg := st.nsgs[nsg]] == st.nsgs;
    } else {
      var step, rest := steps[0], steps[1..];
      var next := CreateRules(st.nsgs[nsg], [step.request], step.destination, step.source, step.start);
      assert Singles(nsg, steps) == [SinglePut(nsg, step)] + Singles(nsg, rest);
      DeployOne(st, SinglePut(nsg, step), Singles(nsg, rest));
      assert Complete(st, SinglePut(nsg, step)) == st.(nsgs := st.nsgs[nsg := next]);
      SinglesBuild(st.(nsgs := st.nsgs[nsg := next]), nsg, rest);
      UpdateTwice(st.nsgs, nsg, next, Firewall.Build(next, rest));
    }
  }

  function LateSteps(fw: VmFirewall.VmConfig): seq<Firewall.Step> {
    VmFirewall.NetworkStage(fw) + VmFirewall.Tail(fw)
  }

  /** The inbound batch and then the single rules build the VM firewall. */
  lemma BatchThenSingles(fw: VmFirewall.VmConfig)
    requires VmFirewall.WellFormed(fw)
    ensures Firewall.Build(CreateRules(map[], fw.inboundRules, "*", INTERNET, 1000), LateSteps(fw))
         == Firewall.Build(map[], VmFirewall.Steps(fw))
  {
    VmFirewall.InboundIsFresh(fw);
    Firewall.BatchIsSingles(map[], fw.inboundRules, "*", INTERNET, 1000);
    Firewall.BuildAppend(map[], VmFirewall.InboundStage(fw), LateSteps(fw));
  }

  /** Creating an NSG and writing a batch and then single rules to it. */
  lemma NsgBuilt(st: Store, name: string, requests: seq<RuleRequest>, steps: seq<Firewall.Step>)
    ensures var batch := PutRules(name, requests, "*", INTERNET, 1000);
            var rules := CreateRules(map[], requests, "*", INTERNET, 1000);
            DeployAll(st, [PutNsg(name)] + ([batch] + Singles(name, steps)))
            == Some(st.(nsgs := st.nsgs[name := Firewall.Build(rules, steps)]))
  {
    var batch, later := PutRules(name, requests, "*", INTERNET, 1000), Singles(name, steps);
    var rules := CreateRules(map[], requests, "*", INTERNET, 1000);
    var st1 := st.(nsgs := st.nsgs[name := map[]]);
    var st2 := st.(nsgs := st.nsgs[name := rules]);
    DeployOne(st, PutNsg(name), [batch] + later);
    DeployOne(st1, batch, later);
    assert requests[..|requests|] == requests;
    UpdateTwice(st.nsgs, name, map[], rules);
    assert Complete(st1, batch) == st2;
    SinglesBuild(st2, name, steps);
    UpdateTwice(st.nsgs, name, rules, Firewall.Build(rules, steps));
  }

  /** The steps for the VM's NSG write exactly the rules that the VM firewall consists of. */
  lemma VmNsgBuilt(st: Store, cfg: DeployConfig)
    requires VmFirewall.WellFormed(cfg.firewall)
    ensures DeployAll(st, VmNsgSteps(cfg))
         == Some(st.(nsgs := st.nsgs[cfg.VmNsgName() := Firewall.Build(map[], VmFirewall.Steps(cfg.firewall))]))
  {
    var name, fw := cfg.VmNsgName(), cfg.firewall;
    var batch := PutRules(name, fw.inboundRules, "*", INTERNET, 1000);
    assert VmNsgSteps(cfg) == [PutNsg(name)] + ([batch] + Singles(name, LateSteps(fw)));
    NsgBuilt(st, name, fw.inboundRules, LateSteps(fw));
    BatchThenSingles(fw);
  }

  // ---------- when a deployment is complete ----------

  lemma OneInterfaceSucceedsIff(st: Store, cfg: DeployConfig, r: NicRequest)
    requires cfg.VmNsgName() in st.nsgs
    ensures DeployAll(st, NicSteps(cfg, r)).Some? <==> r.subnet in st.subnets && cfg.SubnetsNsgName() in st.nsgs
    ensures DeployAll(st, NicSteps(cfg, r)).Some? ==>
              var next := DeployAll(st, NicSteps(cfg, r)).value;
              next.subnets == st.subnets && next.nsgs.Keys == st.nsgs.Keys
  {
    var tail := [NicStep(cfg, r)] + ([InboundStep(cfg, r)] + []);
    var st1 := WithPublicIp(st, cfg, r);
    if PublicIpOf(cfg, r).Some? {
      assert NicSteps(cfg, r) == [PutIp(PublicIpOf(cfg, r).value)] + tail;
      DeployOne(st, PutIp(PublicIpOf(cfg, r).value), tail);
    } else {
      assert NicSteps(cfg, r) == tail;
    }
    DeployOne(st1, NicStep(cfg, r), [InboundStep(cfg, r)] + []);
    DeployOne(Complete(st1, NicStep(cfg, r)), InboundStep(cfg, r), []);
  }

  ghost predicate SubnetsExist(st: Store, requests: seq<Option<NicRequest>>) {
    forall k :: 0 <= k < |requests| && requests[k].Some? ==> requests[k].value.subnet in st.subnets
  }

  lemma {:induction false} InterfacesSucceedIff(st: Store, cfg: DeployConfig, requests: seq<Option<NicRequest>>)
    requires cfg.VmNsgName() in st.nsgs && AllFound(requests)
    ensures DeployAll(st, AllNicSteps(cfg, requests)).Some?
       <==> SubnetsExist(st, requests) && (requests == [] || cfg.SubnetsNsgName() in st.nsgs)
    decreases |requests|
  {
    if requests != [] {
      var r, rest := requests[0].value, requests[1..];
      AllFoundRest(requests);
      DeployAppend(st, NicSteps(cfg, r), AllNicSteps(cfg, rest));
      OneInterfaceSucceedsIff(st, cfg, r);
      assert requests == [requests[0]] + rest;
      if DeployAll(st, NicSteps(cfg, r)).Some? {
        var next := DeployAll(st, NicSteps(cfg, r)).value;
        InterfacesSucceedIff(next, cfg, rest);
        assert SubnetsExist(next, rest) == SubnetsExist(st, rest);
      }
    }
  }

  lemma VmNsgSucceeds(st: Store, cfg: DeployConfig)
    ensures DeployAll(st, VmNsgSteps(cfg)).Some?
    ensures var r := DeployAll(st, VmNsgSteps(cfg)).value;
            r.subnets == st.subnets && r.nsgs.Keys == st.nsgs.Keys + {cfg.VmNsgName()}
  {
    var name, fw := cfg.VmNsgName(), cfg.firewall;
    var batch := PutRules(name, fw.inboundRules, "*", INTERNET, 1000);
    assert VmNsgSteps(cfg) == [PutNsg(name)] + ([batch] + Singles(name, LateSteps(fw)));
    NsgBuilt(st, name, fw.inboundRules, LateSteps(fw));
  }

  lemma VmSucceeds(st: Store, cfg: DeployConfig)
    requires cfg.EverySubnetFound() && HasInterfaces(st.nics, st.ips, cfg, cfg.nicRequests)
    ensures Succeeds(st, PutVm(cfg.vmName, InterfaceNames(cfg, cfg.nicRequests)))
  {
    InterfaceNamesInOrder(cfg, cfg.nicRequests);
  }

  /** A deployment that no outside failure stops is complete exactly if the sandbox's NSG and all
      requested subnets exist. */
  lemma CompletesIff(init: Store, cfg: DeployConfig)
    requires cfg.nicRequests != [] && cfg.EverySubnetFound() && DistinctIndices(cfg.nicRequests)
    ensures DeployAll(init, Plan(cfg)).Some?
       <==> && SubnetsExist(init, cfg.nicRequests)
            && (cfg.SubnetsNsgName() in init.nsgs || cfg.SubnetsNsgName() == cfg.VmNsgName())
  {
    var a, b := VmNsgSteps(cfg), AllNicSteps(cfg, cfg.nicRequests);
    var put := PutVm(cfg.vmName, InterfaceNames(cfg, cfg.nicRequests));
    assert VmSteps(cfg) == [put] + [];
    DeployAppend(init, a + b, [put] + []);
    DeployAppend(init, a, b);
    VmNsgSucceeds(init, cfg);
    var st := DeployAll(init, a).value;
    InterfacesSucceedIff(st, cfg, cfg.nicRequests);
    if DeployAll(st, b).Some? {
      InterfacesMade(st, cfg, cfg.nicRequests);
      var last := DeployAll(st, b).value;
      VmSucceeds(last, cfg);
      DeployOne(last, put, []);
    }
  }

  // ---------- the sandbox's NSG ----------

  /** The addresses of the interfaces, in order. */
  function Addresses(cfg: DeployConfig, requests: seq<Option<NicRequest>>): (r: seq<string>)
    ensures requests != [] && requests[0].Some? ==> r != []
    decreases |requests|
  {
    if requests == [] || requests[0].None? then []
    else [cfg.address(cfg.InterfaceName(requests[0].value))] + Addresses(cfg, requests[1..])
  }

  /** The steps of one interface change no NSG but the sandbox's. */
  lemma OneInterfaceRules(st: Store, cfg: DeployConfig, r: NicRequest)
    requires DeployAll(st, NicSteps(cfg, r)).Some?
    ensures var sandbox := cfg.SubnetsNsgName();
            && sandbox in st.nsgs
            && DeployAll(st, NicSteps(cfg, r)).value.nsgs
               == st.nsgs[sandbox := CreateRules(st.nsgs[sandbox], cfg.InboundRules(),
                                                 cfg.address(cfg.InterfaceName(r)), INTERNET, 1000)]
  {
    NicStepsRun(st, cfg, r);
    var with := Complete(WithPublicIp(st, cfg, r), NicStep(cfg, r));
    assert with.nsgs == st.nsgs;
  }

  lemma {:induction false} AllInterfaceRules(st: Store, cfg: DeployConfig, requests: seq<Option<NicRequest>>)
    requires DeployAll(st, AllNicSteps(cfg, requests)).Some? && AllFound(requests)
    requires cfg.SubnetsNsgName() in st.nsgs
    ensures var sandbox := cfg.SubnetsNsgName();
            DeployAll(st, AllNicSteps(cfg, requests)).value.nsgs
            == st.nsgs[sandbox := ForInterfaces(st.nsgs[sandbox], cfg, Addresses(cfg, requests))]
    decreases |requests|
  {
    var sandbox := cfg.SubnetsNsgName();
    if requests == [] {
      assert st.nsgs[sandbox := st.nsgs[sandbox]] == st.nsgs;
    } else {
      var r, rest := requests[0].value, requests[1..];
      AllFoundRest(requests);
      DeployAppend(st, NicSteps(cfg, r), AllNicSteps(cfg, rest));
      OneInterfaceRules(st, cfg, r);
      var next := DeployAll(st, NicSteps(cfg, r)).value;
      AllInterfaceRules(next, cfg, rest);
      assert Addresses(cfg, requests)[1..] == Addresses(cfg, rest);
      UpdateTwice(st.nsgs, sandbox, next.nsgs[sandbox], ForInterfaces(next.nsgs[sandbox], cfg, Addresses(cfg, rest)));
    }
  }

  // ---------- a complete deployment ----------

  /** A complete deployment leaves the VM's NSG exactly as the VM firewall is built, and in the
      sandbox's NSG exactly the inbound rules written for one interface after the other; no other
      NSG changes. */
  lemma DeployedNsgs(init: Store, cfg: DeployConfig)
    requires VmFirewall.WellFormed(cfg.firewall) && cfg.SubnetsNsgName() != cfg.VmNsgName()
    requires cfg.nicRequests != [] && cfg.EverySubnetFound() && DeployAll(init, Plan(cfg)).Some?
    ensures var sandbox := cfg.SubnetsNsgName();
            && sandbox in init.nsgs
            && DeployAll(init, Plan(cfg)).value.nsgs
               == init.nsgs[cfg.VmNsgName() := Firewall.Build(map[], VmFirewall.Steps(cfg.firewall))]
                           [sandbox := ForInterfaces(init.nsgs[sandbox], cfg, Addresses(cfg, cfg.nicRequests))]
  {
    var st := PlanRuns(init, cfg);
    VmNsgBuilt(init, cfg);
    var r, rest := cfg.nicRequests[0].value, cfg.nicRequests[1..];
    DeployAppend(st, NicSteps(cfg, r), AllNicSteps(cfg, rest));
    NicStepsRun(st, cfg, r);
    AllInterfaceRules(st, cfg, cfg.nicRequests);
  }

  /** So the deployed VM's NSG decides every packet as the VM firewall's policy says. */
  lemma DeployedVmDecides(init: Store, cfg: DeployConfig, m: Firewall.Reading, packet: Firewall.Packet)
    requires VmFirewall.WellFormed(cfg.firewall) && m.StarIsAny() && cfg.SubnetsNsgName() != cfg.VmNsgName()
    requires cfg.nicRequests != [] && cfg.EverySubnetFound() && DeployAll(init, Plan(cfg)).Some?
    ensures var st := DeployAll(init, Plan(cfg)).value;
            && cfg.VmNsgName() in st.nsgs
            && Firewall.FirstMatch(st.nsgs[cfg.VmNsgName()], m, packet) == VmFirewall.Policy(m, cfg.firewall, packet)
  {
    DeployedNsgs(init, cfg);
    VmFirewall.BuildMeetsPolicy(m, cfg.firewall, packet);
  }
}
