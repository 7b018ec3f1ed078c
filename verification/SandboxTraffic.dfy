/** What the sandbox NSG decides once VMs have been deployed into the sandbox: deployments write
    their inbound rules from 1000 on, below the rules of sandbox preparation, and rollbacks and
    deletions remove the rules named after a VM. */
module SandboxTraffic {
  import opened Wrappers
  import opened PriorityAllocator
  import opened SecurityGroup
  import opened Firewall
  import opened SandboxFirewall
  import Deployment
  import InboundPorts
  import ListedManagement
  import NsgWriters
  import PortRules
  import Text

  datatype Change =
    | Inbound(requests: seq<RuleRequest>, address: string)
    | Removed(vmName: string)

  ghost function After(nsg: Nsg, change: Change): Nsg {
    match change
    case Inbound(requests, address) => CreateRules(nsg, requests, address, INTERNET, 1000)
    case Removed(vmName) => WithoutPart(nsg, vmName)
  }

  ghost function AfterAll(nsg: Nsg, changes: seq<Change>): Nsg
    decreases |changes|
  {
    if changes == [] then nsg else AfterAll(After(nsg, changes[0]), changes[1..])
  }

  ghost predicate AllowsUnder(requests: seq<RuleRequest>, base: Nsg) {
    forall k :: 0 <= k < |requests| ==>
      requests[k].RuleData? && requests[k].access == Allow && requests[k].name != "" && requests[k].name !in base
  }

  /** A batch of named allow rules for which there is room among the 200 slots of [1000, 2000), or
      the removal of a VM's rules that does not reach those of the preparation. */
  ghost predicate Admissible(base: Nsg, nsg: Nsg, change: Change) {
    match change
    case Inbound(requests, _) =>
      AllowsUnder(requests, base) && |Window(Priorities(nsg), 1000, 2000)| + |requests| <= 200
    case Removed(vmName) => forall n :: n in base ==> !Text.Contains(n, vmName)
  }

  ghost predicate AllAdmissible(base: Nsg, nsg: Nsg, changes: seq<Change>)
    decreases |changes|
  {
    changes == [] || (Admissible(base, nsg, changes[0]) && AllAdmissible(base, After(nsg, changes[0]), changes[1..]))
  }

  /** The rules of the preparation are all there, and every other rule allows and lies below. */
  ghost predicate Layered(base: Nsg, nsg: Nsg) {
    && Consistent(nsg) && OnGrid(Priorities(nsg))
    && (forall n :: n in base ==> n in nsg && nsg[n] == base[n])
    && (forall n :: n in nsg && n !in base ==> nsg[n].access == Allow && nsg[n].priority < 2000)
  }

  // ---------- every change keeps the layers ----------

  /** What a batch leaves under a name is what was there, or one of its own rules. */
  lemma {:induction false} RuleAfterBatch(nsg: Nsg, taken: set<int>, requests: seq<RuleRequest>,
                                          destination: string, source: string, start: int, n: string)
    requires ExplicitlyNamed(requests)
    requires n in CreateFrom(nsg, taken, requests, destination, source, start)
    ensures var r := CreateFrom(nsg, taken, requests, destination, source, start);
            || (n in nsg && r[n] == nsg[n])
            || exists k :: 0 <= k < |requests| && n == requests[k].name
                 && r[n] == PrepareRule(requests[k], destination, Yields(taken, start, |requests|)[k], source)
    decreases |requests|
  {
    if requests != [] {
      var p := NextPriority(taken, start);
      var rule := PrepareRule(requests[0], destination, p, source);
      var rest, r := requests[1..], CreateFrom(nsg, taken, requests, destination, source, start);
      assert requests[0].name != "";
      assert forall k :: 0 <= k < |rest| ==> rest[k] == requests[k + 1];
      RuleAfterBatch(Put(nsg, rule), taken + {p}, rest, destination, source, start, n);
      var later := Yields(taken + {p}, start, |rest|);
      if k :| 0 <= k < |rest| && n == rest[k].name && r[n] == PrepareRule(rest[k], destination, later[k], source) {
        assert Yields(taken, start, |requests|)[k + 1] == later[k];
        assert n == requests[k + 1].name;
      } else if n == rule.name {
        assert Yields(taken, start, |requests|)[0] == p && n == requests[0].name;
      }
    }
  }

  lemma InboundKeepsLayered(base: Nsg, nsg: Nsg, requests: seq<RuleRequest>, address: string)
    requires Layered(base, nsg) && Admissible(base, nsg, Inbound(requests, address))
    ensures Layered(base, CreateRules(nsg, requests, address, INTERNET, 1000))
  {
    var all, r := Priorities(nsg), CreateRules(nsg, requests, address, INTERNET, 1000);
    BatchKeepsConsistent(nsg, all, requests, address, INTERNET, 1000);
    BatchStaysInRange(all, 1000, |requests|, 200);
    forall n | n in base ensures n in r && r[n] == base[n] {
      OtherNamesUntouched(nsg, all, requests, address, INTERNET, 1000, n);
    }
    forall n | n in r && n !in base ensures r[n].access == Allow && r[n].priority < 2000 {
      RuleAfterBatch(nsg, all, requests, address, INTERNET, 1000, n);
    }
  }

  lemma RemovedKeepsLayered(base: Nsg, nsg: Nsg, vmName: string)
    requires Layered(base, nsg) && Admissible(base, nsg, Removed(vmName))
    ensures Layered(base, WithoutPart(nsg, vmName))
  {
    var r := WithoutPart(nsg, vmName);
    forall y | y in Priorities(r) ensures y in Priorities(nsg) {
      var n :| n in r && r[n].priority == y;
      assert n in nsg && nsg[n] == r[n];
    }
  }

  lemma {:induction false} ChangesKeepLayered(base: Nsg, nsg: Nsg, changes: seq<Change>)
    requires Layered(base, nsg) && AllAdmissible(base, nsg, changes)
    ensures Layered(base, AfterAll(nsg, changes))
    decreases |changes|
  {
    if changes != [] {
      if changes[0].Inbound? {
        InboundKeepsLayered(base, nsg, changes[0].requests, changes[0].address);
      } else {
        RemovedKeepsLayered(base, nsg, changes[0].vmName);
      }
      ChangesKeepLayered(base, After(nsg, changes[0]), changes[1..]);
    }
  }

  // ---------- what the layers decide ----------

  ghost predicate InboundMatches(base: Nsg, nsg: Nsg, m: Reading, packet: Packet) {
    exists n :: n in nsg && n !in base && Matches(m, nsg[n], packet)
  }

  lemma LayersDecide(base: Nsg, nsg: Nsg, m: Reading, packet: Packet)
    requires Layered(base, nsg) && Consistent(base) && AllFrom(base, 2000)
    ensures FirstMatch(nsg, m, packet)
         == if InboundMatches(base, nsg, m, packet) then Some(Allow) else FirstMatch(base, m, packet)
  {
    var hits, below := Hits(nsg, m, packet), Hits(base, m, packet);
    if n :| n in nsg && n !in base && Matches(m, nsg[n], packet) {
      assert n in hits;
      FirstExists(nsg, hits);
      var first :| IsFirst(nsg, hits, first);
      assert nsg[first].priority <= nsg[n].priority;
      assert first !in base;
      FirstMatchIff(nsg, m, packet, Allow);
    } else {
      assert hits == below;
      if hits != {} {
        FirstExists(base, below);
        var first :| IsFirst(base, below, first);
        assert IsFirst(nsg, hits, first);
        FirstMatchIff(base, m, packet, base[first].access);
        FirstMatchIff(nsg, m, packet, base[first].access);
      }
    }
  }

  // ---------- the rules of the preparation ----------

  ghost predicate AllFrom(nsg: Nsg, start: int) { forall n :: n in nsg ==> nsg[n].priority >= start }

  /** Rules created with ordered starts stay consistent, on the grid, and at their starts or above. */
  lemma {:induction false} BuildFacts(nsg: Nsg, start: int, steps: seq<Step>)
    requires Consistent(nsg) && OnGrid(Priorities(nsg)) && AllFrom(nsg, start) && OrderedStarts(start, steps)
    ensures var r := Build(nsg, steps); Consistent(r) && OnGrid(Priorities(r)) && AllFrom(r, start)
    decreases |steps|
  {
    if steps != [] {
      var s := steps[0];
      BatchKeepsConsistent(nsg, Priorities(nsg), [s.request], s.destination, s.source, s.start);
      CreateOne(nsg, s);
      FirstGapBounds(Priorities(nsg), s.start - STEP);
      OrderedFromBelow(start, s.start, steps[1..]);
      BuildFacts(CreateRules(nsg, [s.request], s.destination, s.source, s.start), start, steps[1..]);
    }
  }

  lemma OrderedFromBelow(low: int, start: int, steps: seq<Step>)
    requires low <= start && OrderedStarts(start, steps)
    ensures OrderedStarts(low, steps)
  {
  }

  /** What sandbox preparation leaves. */
  ghost function Base(cfg: SandboxConfig): Nsg { Build(map[], Steps(cfg)) }

  lemma PreparedRules(cfg: SandboxConfig)
    ensures Layered(Base(cfg), Base(cfg)) && AllFrom(Base(cfg), 2000)
  {
    StepsAreOrdered(cfg);
    assert Priorities(map[]) == {};
    BuildFacts(map[], 2000, Steps(cfg));
  }

  /** The requests for which preparation meets its policy: the management VNet is not listed as an
      additional network, or its rule among them lies below 4090. */
  ghost predicate MeetsPolicy(cfg: SandboxConfig) {
    WellFormed(cfg) || (ListedManagement.Listed(cfg) && ListedManagement.ListedSlot(cfg) < 4090)
  }

  lemma BaseMeetsPolicy(m: Reading, cfg: SandboxConfig, packet: Packet)
    requires MeetsPolicy(cfg) && m.StarIsAny()
    ensures FirstMatch(Base(cfg), m, packet) == Policy(m, cfg, packet)
  {
    if WellFormed(cfg) {
      BuildMeetsPolicy(m, cfg, packet);
    } else {
      ListedManagement.BuildMeetsPolicy(m, cfg, packet);
    }
  }

  /** Whatever deployments, rollbacks and deletions have done to the sandbox NSG since the sandbox
      was prepared, as long as every batch found room in [1000, 2000), the NSG allows what an
      inbound rule now in it opens, and decides everything else as the sandbox's policy says. */
  lemma PolicyUnderDeployments(m: Reading, cfg: SandboxConfig, changes: seq<Change>, packet: Packet)
    requires MeetsPolicy(cfg) && m.StarIsAny() && AllAdmissible(Base(cfg), Base(cfg), changes)
    ensures var nsg := AfterAll(Base(cfg), changes);
            FirstMatch(nsg, m, packet)
            == if InboundMatches(Base(cfg), nsg, m, packet) then Some(Allow) else Policy(m, cfg, packet)
  {
    PreparedRules(cfg);
    ChangesKeepLayered(Base(cfg), Base(cfg), changes);
    LayersDecide(Base(cfg), AfterAll(Base(cfg), changes), m, packet);
    BaseMeetsPolicy(m, cfg, packet);
  }

  // ---------- every interleaving ----------

  /** A thread's inbound batch. */
  ghost predicate InboundJob(base: Nsg, job: NsgWriters.Job) {
    AllowsUnder(job.requests, base) && job.source == INTERNET && job.start == 1000
  }

  /** Threads bring inbound batches; a batch finds room when it lists the NSG; deletions, at any
      moment and under no lock, spare the rules of the preparation. */
  ghost predicate Fair(base: Nsg, s: NsgWriters.State, e: NsgWriters.Event) {
    match e
    case Acquire(_, job) => InboundJob(base, job)
    case List(t) =>
      t in s.writers && s.writers[t].Locked? ==>
        |Window(Priorities(s.nsg), 1000, 2000)| + |s.writers[t].job.requests| <= 200
    case Delete(name) => name !in base
    case _ => true
  }

  ghost function Next(s: NsgWriters.State, e: NsgWriters.Event): NsgWriters.State {
    if NsgWriters.Enabled(s, e) then NsgWriters.Apply(s, e) else s
  }

  ghost predicate AllFair(base: Nsg, s: NsgWriters.State, events: seq<NsgWriters.Event>)
    decreases |events|
  {
    events == [] || (Fair(base, s, events[0]) && AllFair(base, Next(s, events[0]), events[1..]))
  }

  ghost predicate InboundRule(base: Nsg, rule: SecurityRule) {
    rule.name !in base && rule.access == Allow && rule.priority < 2000 && rule.priority % 5 == 0
  }

  ghost predicate WriterLayered(base: Nsg, w: NsgWriters.Writer) {
    match w
    case Idle => true
    case Locked(job) => InboundJob(base, job)
    case Working(job, taken, drawn, pending, _) =>
      && InboundJob(base, job) && OnGrid(taken) && |drawn| <= |job.requests|
      && |Window(taken, 1000, 2000)| + (|job.requests| - |drawn|) <= 200
      && (pending.Some? ==> InboundRule(base, pending.value.rule))
  }

  ghost predicate StateLayered(base: Nsg, s: NsgWriters.State) {
    && NsgWriters.Inv(s) && Layered(base, s.nsg)
    && forall t :: t in s.writers ==> WriterLayered(base, s.writers[t])
  }

  lemma DrawStaysLayered(base: Nsg, w: NsgWriters.Writer)
    requires w.Working? && WriterLayered(base, w) && |w.drawn| < |w.job.requests|
    ensures WriterLayered(base, NsgWriters.DrawFor(w))
  {
    var p := NextPriority(w.taken, 1000);
    RoomBelow(w.taken, 1000, 200);
    OneMoreOnGrid(w.taken, 1000);
    FirstGapBounds(w.taken, 995);
    assert Window(w.taken + {p}, 1000, 2000) == Window(w.taken, 1000, 2000) + {p};
    assert p % 5 == 0 by { assert p in w.taken + {p}; }
  }

  lemma WriteStaysLayered(base: Nsg, nsg: Nsg, rule: SecurityRule)
    requires Layered(base, nsg) && InboundRule(base, rule) && Consistent(Put(nsg, rule))
    ensures Layered(base, Put(nsg, rule))
  {
    var r := Put(nsg, rule);
    forall n | n in r ensures r[n].priority % 5 == 0 {
      assert n in nsg ==> nsg[n].priority in Priorities(nsg);
    }
  }

  lemma DeleteStaysLayered(base: Nsg, nsg: Nsg, name: string)
    requires Layered(base, nsg) && name !in base && Consistent(nsg - {name})
    ensures Layered(base, nsg - {name})
  {
    NsgWriters.PrioritiesShrink(nsg, name);
  }

  lemma NsgStaysLayered(base: Nsg, s: NsgWriters.State, e: NsgWriters.Event)
    requires StateLayered(base, s) && Fair(base, s, e) && NsgWriters.Enabled(s, e)
    requires NsgWriters.Inv(NsgWriters.Apply(s, e))
    ensures Layered(base, NsgWriters.Apply(s, e).nsg)
  {
    match e
    case Write(t) => WriteStaysLayered(base, s.nsg, s.writers[t].pending.value.rule);
    case Delete(name) => DeleteStaysLayered(base, s.nsg, name);
    case _ =>
  }

  lemma WritersStayLayered(base: Nsg, s: NsgWriters.State, e: NsgWriters.Event, t: NsgWriters.Tid)
    requires StateLayered(base, s) && Fair(base, s, e) && NsgWriters.Enabled(s, e)
    requires t in NsgWriters.Apply(s, e).writers
    ensures WriterLayered(base, NsgWriters.Apply(s, e).writers[t])
  {
    assert t in s.writers ==> WriterLayered(base, s.writers[t]);
    if e == NsgWriters.Draw(t) {
      DrawStaysLayered(base, s.writers[t]);
    }
  }

  lemma EventStaysLayered(base: Nsg, s: NsgWriters.State, e: NsgWriters.Event)
    requires StateLayered(base, s) && Fair(base, s, e)
    ensures StateLayered(base, Next(s, e))
  {
    if NsgWriters.Enabled(s, e) {
      NsgWriters.StepKeepsInv(s, e);
      NsgStaysLayered(base, s, e);
      var r := NsgWriters.Apply(s, e);
      forall t | t in r.writers ensures WriterLayered(base, r.writers[t]) {
        WritersStayLayered(base, s, e, t);
      }
    }
  }

  /** In every interleaving of batches, retried writes and deletions the layers stay apart. */
  lemma {:induction false} RunStaysLayered(base: Nsg, s: NsgWriters.State, events: seq<NsgWriters.Event>)
    requires StateLayered(base, s) && AllFair(base, s, events)
    ensures StateLayered(base, NsgWriters.Run(s, events))
    decreases |events|
  {
    if events != [] {
      EventStaysLayered(base, s, events[0]);
      RunStaysLayered(base, Next(s, events[0]), events[1..]);
    }
  }

  /** So in every interleaving of any number of deployments with rollbacks and VM deletions, at any
      moment, the sandbox NSG allows what an inbound rule now in it opens, and decides everything
      else as the sandbox's policy says. */
  lemma PolicyInEveryInterleaving(m: Reading, cfg: SandboxConfig, s: NsgWriters.State,
                                  events: seq<NsgWriters.Event>, packet: Packet)
    requires MeetsPolicy(cfg) && m.StarIsAny()
    requires NsgWriters.Initial(s) && s.nsg == Base(cfg) && AllFair(Base(cfg), s, events)
    ensures var nsg := NsgWriters.Run(s, events).nsg;
            FirstMatch(nsg, m, packet)
            == if InboundMatches(Base(cfg), nsg, m, packet) then Some(Allow) else Policy(m, cfg, packet)
  {
    PreparedRules(cfg);
    RunStaysLayered(Base(cfg), s, events);
    LayersDecide(Base(cfg), NsgWriters.Run(s, events).nsg, m, packet);
    BaseMeetsPolicy(m, cfg, packet);
  }

  // ---------- deployments make such changes ----------

  /** The address texts of a request that go into rule names are CIDRs. */
  ghost predicate CidrTexts(cfg: SandboxConfig) {
    && (forall s :: s in cfg.subnets ==> IsCidrText(s.cidr))
    && (forall a :: a in cfg.additionalNetworks ==> IsCidrText(a))
    && IsCidrText(cfg.managementVnetCidr) && IsCidrText(cfg.sandboxCidr)
  }

  lemma PreparedNamesHaveNoColon(cfg: SandboxConfig, n: string)
    requires CidrTexts(cfg) && n in Base(cfg)
    ensures ':' !in n
  {
    StepsAvoidGeneratedNames(cfg);
    StepsHaveNoColons(cfg);
    BuiltName(map[], Steps(cfg), n);
    var k :| 0 <= k < |Steps(cfg)| && n == Steps(cfg)[k].request.name;
  }

  lemma DashedHasNoColon(cidr: string)
    requires IsCidrText(cidr)
    ensures ':' !in Dashed(cidr)
  {
    forall k | 0 <= k < |cidr| ensures Dashed(cidr)[k] != ':' {
      assert cidr[k] in cidr;
    }
  }

  lemma SubnetNamesHaveNoColon(cidr: string)
    requires IsCidrText(cidr)
    ensures ':' !in SandboxToSubnetName(cidr) && ':' !in InternetToPrivateName(cidr)
  {
    DashedHasNoColon(cidr);
  }

  lemma NetworkNameHasNoColon(network: string, sandboxCidr: string)
    requires IsCidrText(network) && IsCidrText(sandboxCidr)
    ensures ':' !in NetworkToSandboxName(network, sandboxCidr)
  {
    DashedHasNoColon(network);
    DashedHasNoColon(sandboxCidr);
  }

  ghost predicate NoColons(steps: seq<Step>) {
    forall k :: 0 <= k < |steps| ==> ':' !in steps[k].request.name
  }

  lemma SubnetStagesHaveNoColons(cfg: SandboxConfig)
    requires CidrTexts(cfg)
    ensures NoColons(SubnetStage(cfg)) && NoColons(PrivateStage(cfg))
  {
    forall k | 0 <= k < |cfg.subnets| ensures ':' !in SubnetStage(cfg)[k].request.name {
      assert cfg.subnets[k] in cfg.subnets;
      SubnetNamesHaveNoColon(cfg.subnets[k].cidr);
    }
    var private := PrivateSubnets(cfg.subnets);
    forall k | 0 <= k < |private| ensures ':' !in PrivateStage(cfg)[k].request.name {
      assert private[k] in private;
      SubnetNamesHaveNoColon(private[k].cidr);
    }
  }

  lemma NetworkStageHasNoColons(cfg: SandboxConfig)
    requires CidrTexts(cfg)
    ensures NoColons(AdditionalStage(cfg)) && NoColons([ManagementStep(cfg)])
  {
    forall k | 0 <= k < |cfg.additionalNetworks| ensures ':' !in AdditionalStage(cfg)[k].request.name {
      assert cfg.additionalNetworks[k] in cfg.additionalNetworks;
      NetworkNameHasNoColon(cfg.additionalNetworks[k], cfg.sandboxCidr);
    }
    NetworkNameHasNoColon(cfg.managementVnetCidr, cfg.sandboxCidr);
  }

  lemma LastNameHasNoColon()
    ensures ':' !in DENY_OTHER_SANDBOXES
  {
    assert DENY_OTHER_SANDBOXES == "Deny_Traffic_From_" + "Other_Sandboxes_" + "To_Sandbox_CIDR";
  }

  lemma NoColonsAppend(a: seq<Step>, b: seq<Step>)
    requires NoColons(a) && NoColons(b)
    ensures NoColons(a + b)
  {
  }

  lemma StepsHaveNoColons(cfg: SandboxConfig)
    requires CidrTexts(cfg)
    ensures NoColons(Steps(cfg))
  {
    var c, d := [ManagementStep(cfg)], [OtherSandboxesStep(cfg)];
    SubnetStagesHaveNoColons(cfg);
    NetworkStageHasNoColons(cfg);
    LastNameHasNoColon();
    assert NoColons(d);
    NoColonsAppend(SubnetStage(cfg), PrivateStage(cfg));
    NoColonsAppend(c, d);
    NoColonsAppend(AdditionalStage(cfg), c + d);
    NoColonsAppend(SubnetStage(cfg) + PrivateStage(cfg), AdditionalStage(cfg) + (c + d));
    assert c + d == [ManagementStep(cfg), OtherSandboxesStep(cfg)];
  }

  lemma InboundNameHasColon(deploy: Deployment.DeployConfig, rule: RuleRequest)
    ensures ':' in deploy.InboundName(rule)
  {
    var vm, tail := Text.Without(deploy.vmName, ' '), PortRange(rule) + ":" + rule.protocol;
    assert deploy.InboundName(rule) == vm + "_inbound_ports:" + tail;
    assert (vm + "_inbound_ports:" + tail)[|vm| + 14] == "_inbound_ports:"[14];
  }

  /** The inbound rules of any deployment are such a batch wherever there is room for them: their
      names are never those of the preparation. */
  lemma DeploymentIsAdmissible(cfg: SandboxConfig, deploy: Deployment.DeployConfig, text: string, nsg: Nsg,
                               address: string)
    requires CidrTexts(cfg) && PortRules.ParsePortGroup(text) == Ok(deploy.firewall.inboundRules)
    requires |Window(Priorities(nsg), 1000, 2000)| + |deploy.InboundRules()| <= 200
    ensures Admissible(Base(cfg), nsg, Inbound(deploy.InboundRules(), address))
  {
    var rules := deploy.firewall.inboundRules;
    PortRules.ParsedArePortRules(PortRules.NonEmpty(PortRules.Split(PortRules.Strip(text))), rules);
    InboundPorts.InboundBatchIsNamed(deploy);
    forall k | 0 <= k < |rules| ensures deploy.InboundRules()[k].name !in Base(cfg) {
      InboundNameHasColon(deploy, rules[k]);
      if deploy.InboundName(rules[k]) in Base(cfg) { PreparedNamesHaveNoColon(cfg, deploy.InboundName(rules[k])); }
    }
  }
}
