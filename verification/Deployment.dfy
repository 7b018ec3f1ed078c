/** Deploying a VM, rolling a failed deployment back, and deleting a deployed VM. */
module Deployment {
  import opened Wrappers
  import opened PriorityAllocator
  import opened SecurityGroup
  import opened ResourceStore
  import Firewall
  import VmFirewall
  import Text

  /** A subnet to connect the VM to; `index` numbers the VM's interfaces. */
  datatype NicRequest = NicRequest(index: nat, subnet: string, isPublic: bool)

  /** The data of one deployment. A request is None where no subnet of the sandbox was found.
      `address` gives the private address the cloud assigns to each interface. */
  datatype DeployConfig = DeployConfig(
    vmName: string,
    reservationId: string,
    firewall: VmFirewall.VmConfig,
    addPublicIp: bool,
    nicRequests: seq<Option<NicRequest>>,
    address: string -> string)
  {
    function InterfaceName(r: NicRequest): string { vmName + "-" + Text.Decimal(r.index) }

    function VmNsgName(): string { "NSG_" + vmName }

    function SubnetsNsgName(): string { SANDBOX_NSG_NAME + reservationId }

    function InboundName(rule: RuleRequest): string {
      Text.Without(vmName, ' ') + InboundSuffix(rule)
    }

    function InboundSuffix(rule: RuleRequest): string {
      "_inbound_ports:" + PortRange(rule) + ":" + rule.protocol
    }

    function InboundRules(): (r: seq<RuleRequest>)
      ensures |r| == |firewall.inboundRules|
    {
      seq(|firewall.inboundRules|, k requires 0 <= k < |firewall.inboundRules| =>
        firewall.inboundRules[k].(name := InboundName(firewall.inboundRules[k])))
    }

    predicate EverySubnetFound() { AllFound(nicRequests) }
  }

  function IpName(interfaceName: string): string { interfaceName + "_PublicIP" }

  // ---------- the steps of the try block ----------

  datatype Step =
    | PutNsg(name: string)
    | PutRules(nsg: string, requests: seq<RuleRequest>, destination: string, source: string, start: int)
    | PutIp(name: string)
    | PutNic(name: string, nic: Nic)
    | PutVm(name: string, nics: seq<string>)

  function SinglePut(nsg: string, step: Firewall.Step): Step {
    PutRules(nsg, [step.request], step.destination, step.source, step.start)
  }

  function Singles(nsg: string, steps: seq<Firewall.Step>): (r: seq<Step>)
    ensures |r| == |steps|
  {
    seq(|steps|, k requires 0 <= k < |steps| => SinglePut(nsg, steps[k]))
  }

  function VmNsgSteps(cfg: DeployConfig): seq<Step> {
    var late := VmFirewall.NetworkStage(cfg.firewall) + VmFirewall.Tail(cfg.firewall);
    [PutNsg(cfg.VmNsgName()), PutRules(cfg.VmNsgName(), cfg.firewall.inboundRules, "*", INTERNET, 1000)]
    + Singles(cfg.VmNsgName(), late)
  }

  function PublicIpOf(cfg: DeployConfig, r: NicRequest): Option<string> {
    if cfg.addPublicIp && r.isPublic then Some(IpName(cfg.InterfaceName(r))) else None
  }

  function NicOf(cfg: DeployConfig, r: NicRequest): Nic {
    Nic(PublicIpOf(cfg, r), cfg.VmNsgName(), r.subnet)
  }

  function NicStep(cfg: DeployConfig, r: NicRequest): Step {
    PutNic(cfg.InterfaceName(r), NicOf(cfg, r))
  }

  function InboundStep(cfg: DeployConfig, r: NicRequest): Step {
    PutRules(cfg.SubnetsNsgName(), cfg.InboundRules(), cfg.address(cfg.InterfaceName(r)), INTERNET, 1000)
  }

  /** Public IP, interface, and the inbound rules of the interface's address in the sandbox NSG. */
  function NicSteps(cfg: DeployConfig, r: NicRequest): seq<Step> {
    var ip := PublicIpOf(cfg, r);
    (if ip.Some? then [PutIp(ip.value)] else [])
    + [NicStep(cfg, r), InboundStep(cfg, r)]
  }

  /** The loop over the requests raises at the first one without a subnet. */
  function AllNicSteps(cfg: DeployConfig, requests: seq<Option<NicRequest>>): seq<Step>
    decreases |requests|
  {
    if requests == [] || requests[0].None? then []
    else NicSteps(cfg, requests[0].value) + AllNicSteps(cfg, requests[1..])
  }

  function InterfaceNames(cfg: DeployConfig, requests: seq<Option<NicRequest>>): seq<string>
    decreases |requests|
  {
    if requests == [] || requests[0].None? then []
    else [cfg.InterfaceName(requests[0].value)] + InterfaceNames(cfg, requests[1..])
  }

  /** Creating the VM raises if there is no interface. */
  function VmSteps(cfg: DeployConfig): seq<Step> {
    if cfg.nicRequests == [] || !cfg.EverySubnetFound() then []
    else [PutVm(cfg.vmName, InterfaceNames(cfg, cfg.nicRequests))]
  }

  function Plan(cfg: DeployConfig): seq<Step> {
    VmNsgSteps(cfg) + AllNicSteps(cfg, cfg.nicRequests) + VmSteps(cfg)
  }

  /** One attempt at a step. A batch of rules may stop after `upTo` of them; a request whose
      references do not exist has no effect. */
  ghost function Attempt(st: Store, step: Step, upTo: nat): Store {
    match step
    case PutNsg(name) => st.(nsgs := st.nsgs[name := map[]])
    case PutRules(nsg, requests, destination, source, start) =>
      if nsg !in st.nsgs then st
      else
        var written := if upTo < |requests| then requests[..upTo] else requests;
        st.(nsgs := st.nsgs[nsg := CreateRules(st.nsgs[nsg], written, destination, source, start)])
    case PutIp(name) => st.(ips := st.ips + {name})
    case PutNic(name, nic) =>
      if (nic.publicIp.None? || nic.publicIp.value in st.ips) && nic.nsg in st.nsgs && nic.subnet in st.subnets
      then st.(nics := st.nics[name := nic]) else st
    case PutVm(name, nics) =>
      if forall k :: 0 <= k < |nics| ==> nics[k] in st.nics then st.(vms := st.vms[name := nics]) else st
  }

  /** `steps[step]` is attempted, and `upTo` of its writes take effect. */
  datatype Attempted = Attempted(step: nat, upTo: nat)

  ghost function Exec(st: Store, steps: seq<Step>, trace: seq<Attempted>): Store
    requires forall k :: 0 <= k < |trace| ==> trace[k].step < |steps|
    decreases |trace|
  {
    if trace == [] then st
    else Exec(Attempt(st, steps[trace[0].step], trace[0].upTo), steps, trace[1..])
  }

  // ---------- rollback ----------

  ghost function RollbackNics(st: Store, cfg: DeployConfig, requests: seq<Option<NicRequest>>): (Outcome, Store)
    decreases |requests|
  {
    if requests == [] then (Completed, st)
    else if requests[0].None? then (Raises, st)
    else
      var name := cfg.InterfaceName(requests[0].value);
      if NicInUse(st, name) then (Refused, st)
      else
        var st1 := st.(nics := st.nics - {name});
        if IpInUse(st1, IpName(name)) then (Refused, st1)
        else RollbackNics(st1.(ips := st1.ips - {IpName(name)}), cfg, requests[1..])
  }

  ghost function CleanArtifacts(st: Store, vmName: string): (Outcome, Store) {
    if VmNsgInUse(st, vmName) then (Refused, st)
    else (Completed, st.(nsgs := CleanNsgs(st.nsgs, vmName)))
  }

  ghost function Rollback(st: Store, cfg: DeployConfig): (Outcome, Store) {
    var (outcome, next) := RollbackNics(st.(vms := st.vms - {cfg.vmName}), cfg, cfg.nicRequests);
    if outcome != Completed then (outcome, next) else CleanArtifacts(next, cfg.vmName)
  }

  method RollbackDeployedResources(group: ResourceGroup, cfg: DeployConfig) returns (outcome: Outcome)
    modifies group
    ensures outcome == Rollback(old(group.st), cfg).0
    ensures outcome != Refused ==> group.st == Rollback(old(group.st), cfg).1
  {
    group.DeleteVm(cfg.vmName);
    ghost var start := group.st;
    var k := 0;
    while k < |cfg.nicRequests|
      invariant 0 <= k <= |cfg.nicRequests|
      invariant RollbackNics(start, cfg, cfg.nicRequests) == RollbackNics(group.st, cfg, cfg.nicRequests[k..])
    {
      assert cfg.nicRequests[k..][1..] == cfg.nicRequests[k + 1..];
      if cfg.nicRequests[k].None? { return Raises; }
      var name := cfg.InterfaceName(cfg.nicRequests[k].value);
      outcome := group.DeleteNic(name);
      if outcome != Completed { return; }
      outcome := group.DeleteIp(IpName(name));
      if outcome != Completed { return; }
      k := k + 1;
    }
    assert cfg.nicRequests[k..] == [];
    outcome := group.DeleteNsgArtifacts(cfg.vmName);
  }

  // ---------- what a deployment leaves behind ----------

  /** No resource, and no rule of a sandbox NSG, is named after the VM. */
  ghost predicate Untouched(st: Store, vmName: string) {
    && (forall n :: n in st.vms || n in st.nics || n in st.ips || n in st.nsgs ==> !Text.Contains(n, vmName))
    && (forall n, r :: n in st.nsgs && r in st.nsgs[n] && Text.Contains(n, SANDBOX_NSG_NAME) ==>
          !Text.Contains(r, vmName))
  }

  /** `st` differs from `init` at most by the VM, by interfaces among `names` with their own public
      IPs, and by NSGs and sandbox rules named after the VM. */
  ghost predicate Near(init: Store, st: Store, vmName: string, names: set<string>) {
    && st.subnets == init.subnets
    && st.vms - {vmName} == init.vms
    && (forall n :: n in init.nics ==> n in st.nics && st.nics[n] == init.nics[n])
    && (forall n :: n in st.nics && n !in init.nics ==>
          n in names && (st.nics[n].publicIp.None? || st.nics[n].publicIp == Some(IpName(n))))
    && init.ips <= st.ips
    && (forall i :: i in st.ips && i !in init.ips ==> exists n :: n in names && i == IpName(n))
    && CleanNsgs(st.nsgs, vmName) == CleanNsgs(init.nsgs, vmName)
  }

  ghost predicate AllOwned(names: set<string>, vmName: string) {
    forall n :: n in names ==> Text.Contains(n, vmName) && Text.Contains(IpName(n), vmName)
  }

  function Names(cfg: DeployConfig, requests: seq<Option<NicRequest>>): set<string> {
    set k | 0 <= k < |requests| && requests[k].Some? :: cfg.InterfaceName(requests[k].value)
  }

  /** The steps that a deployment may take. */
  ghost predicate Allowed(step: Step, cfg: DeployConfig, names: set<string>) {
    match step
    case PutNsg(name) => Text.Contains(name, cfg.vmName)
    case PutRules(nsg, requests, _, _, _) =>
      || Text.Contains(nsg, cfg.vmName)
      || (Text.Contains(nsg, SANDBOX_NSG_NAME)
          && forall k :: 0 <= k < |requests| ==> requests[k].name != "" && Text.Contains(requests[k].name, cfg.vmName))
    case PutIp(name) => exists n :: n in names && name == IpName(n)
    case PutNic(name, nic) => name in names && (nic.publicIp.None? || nic.publicIp == Some(IpName(name)))
    case PutVm(name, _) => name == cfg.vmName
  }

  lemma InterfaceOwned(cfg: DeployConfig, r: NicRequest)
    ensures Text.Contains(cfg.InterfaceName(r), cfg.vmName)
    ensures Text.Contains(IpName(cfg.InterfaceName(r)), cfg.vmName)
  {
    var tail := "-" + Text.Decimal(r.index);
    Text.ContainsPrefix(cfg.vmName, tail);
    assert cfg.InterfaceName(r) == cfg.vmName + tail;
    Text.ContainsPrefix(cfg.vmName, tail + "_PublicIP");
    assert IpName(cfg.InterfaceName(r)) == cfg.vmName + (tail + "_PublicIP");
  }

  lemma VmNsgOwned(cfg: DeployConfig)
    ensures Text.Contains(cfg.VmNsgName(), cfg.vmName)
  {
    Text.ContainsMiddle("NSG_", cfg.vmName, "");
    assert "NSG_" + cfg.vmName + "" == cfg.VmNsgName();
  }

  lemma NamesOwned(cfg: DeployConfig, requests: seq<Option<NicRequest>>)
    ensures AllOwned(Names(cfg, requests), cfg.vmName)
    ensures Text.Contains(cfg.VmNsgName(), cfg.vmName)
    ensures Text.Contains(cfg.SubnetsNsgName(), SANDBOX_NSG_NAME)
  {
    forall n | n in Names(cfg, requests) ensures Text.Contains(n, cfg.vmName) && Text.Contains(IpName(n), cfg.vmName) {
      var k :| 0 <= k < |requests| && requests[k].Some? && n == cfg.InterfaceName(requests[k].value);
      InterfaceOwned(cfg, requests[k].value);
    }
    VmNsgOwned(cfg);
    Text.ContainsPrefix(SANDBOX_NSG_NAME, cfg.reservationId);
  }

  lemma InboundRulesOwned(cfg: DeployConfig)
    requires ' ' !in cfg.vmName
    ensures forall k :: 0 <= k < |cfg.InboundRules()| ==>
              cfg.InboundRules()[k].name != "" && Text.Contains(cfg.InboundRules()[k].name, cfg.vmName)
  {
    forall k | 0 <= k < |cfg.InboundRules()|
      ensures cfg.InboundRules()[k].name != "" && Text.Contains(cfg.InboundRules()[k].name, cfg.vmName)
    {
      InboundNameOwned(cfg, cfg.firewall.inboundRules[k]);
    }
  }

  lemma InboundNameOwned(cfg: DeployConfig, rule: RuleRequest)
    requires ' ' !in cfg.vmName
    ensures cfg.InboundName(rule) != "" && Text.Contains(cfg.InboundName(rule), cfg.vmName)
  {
    Text.ContainsPrefix(cfg.vmName, cfg.InboundSuffix(rule));
    assert cfg.InboundSuffix(rule) != "";
  }

  lemma {:induction false} NicStepsAllowed(cfg: DeployConfig, requests: seq<Option<NicRequest>>, names: set<string>)
    requires ' ' !in cfg.vmName && Names(cfg, requests) <= names
    ensures forall k :: 0 <= k < |AllNicSteps(cfg, requests)| ==> Allowed(AllNicSteps(cfg, requests)[k], cfg, names)
    decreases |requests|
  {
    if requests != [] && requests[0].Some? {
      var r := requests[0].value;
      var name := cfg.InterfaceName(r);
      assert requests[0].Some? && name in Names(cfg, requests);
      assert forall k :: 0 <= k < |requests| - 1 ==> requests[1..][k] == requests[k + 1];
      assert Names(cfg, requests[1..]) <= names;
      NicStepsAllowed(cfg, requests[1..], names);
      InboundRulesOwned(cfg);
      NamesOwned(cfg, requests);
      var first := NicSteps(cfg, r);
      forall k | 0 <= k < |first| ensures Allowed(first[k], cfg, names) {
        assert name in names;
      }
    }
  }

  lemma PlanAllowed(cfg: DeployConfig)
    requires ' ' !in cfg.vmName
    ensures forall k :: 0 <= k < |Plan(cfg)| ==> Allowed(Plan(cfg)[k], cfg, Names(cfg, cfg.nicRequests))
  {
    var names := Names(cfg, cfg.nicRequests);
    NicStepsAllowed(cfg, cfg.nicRequests, names);
    NamesOwned(cfg, cfg.nicRequests);
    var a, b := VmNsgSteps(cfg), AllNicSteps(cfg, cfg.nicRequests);
    assert forall k :: 0 <= k < |a| ==> Allowed(a[k], cfg, names);
    forall k | 0 <= k < |Plan(cfg)| ensures Allowed(Plan(cfg)[k], cfg, names) {
      if |a| <= k < |a| + |b| {
        assert Plan(cfg)[k] == b[k - |a|];
      }
    }
  }

  // ---------- attempts stay near ----------

  lemma RulesStayClean(nsgs: map<string, Nsg>, step: Step, cfg: DeployConfig, names: set<string>, upTo: nat)
    requires step.PutRules? && Allowed(step, cfg, names) && step.nsg in nsgs
    ensures var written := if upTo < |step.requests| then step.requests[..upTo] else step.requests;
            var changed := CreateRules(nsgs[step.nsg], written, step.destination, step.source, step.start);
            CleanNsgs(nsgs[step.nsg := changed], cfg.vmName) == CleanNsgs(nsgs, cfg.vmName)
  {
    var written := if upTo < |step.requests| then step.requests[..upTo] else step.requests;
    if !Text.Contains(step.nsg, cfg.vmName) {
      BatchTouchesPartOnly(nsgs[step.nsg], Priorities(nsgs[step.nsg]), written,
                           step.destination, step.source, step.start, cfg.vmName);
    }
  }

  lemma NsgStepStaysNear(init: Store, st: Store, step: Step, upTo: nat, cfg: DeployConfig, names: set<string>)
    requires step.PutNsg? || step.PutRules?
    requires Near(init, st, cfg.vmName, names) && Allowed(step, cfg, names)
    ensures Near(init, Attempt(st, step, upTo), cfg.vmName, names)
  {
    if step.PutNsg? {
      assert CleanNsgs(st.nsgs[step.name := map[]], cfg.vmName) == CleanNsgs(st.nsgs, cfg.vmName);
    } else if step.nsg in st.nsgs {
      RulesStayClean(st.nsgs, step, cfg, names, upTo);
    }
  }

  lemma AttemptStaysNear(init: Store, st: Store, step: Step, upTo: nat, cfg: DeployConfig, names: set<string>)
    requires Near(init, st, cfg.vmName, names) && Allowed(step, cfg, names)
    requires Untouched(init, cfg.vmName) && AllOwned(names, cfg.vmName)
    ensures Near(init, Attempt(st, step, upTo), cfg.vmName, names)
  {
    if step.PutNsg? || step.PutRules? {
      NsgStepStaysNear(init, st, step, upTo, cfg, names);
    } else if step.PutVm? {
      assert st.vms[step.name := step.nics] - {step.name} == st.vms - {step.name};
    }
  }

  lemma {:induction false} ExecStaysNear(init: Store, st: Store, steps: seq<Step>, trace: seq<Attempted>,
                                         cfg: DeployConfig, names: set<string>)
    requires Near(init, st, cfg.vmName, names)
    requires forall k :: 0 <= k < |steps| ==> Allowed(steps[k], cfg, names)
    requires forall k :: 0 <= k < |trace| ==> trace[k].step < |steps|
    requires Untouched(init, cfg.vmName) && AllOwned(names, cfg.vmName)
    ensures Near(init, Exec(st, steps, trace), cfg.vmName, names)
    decreases |trace|
  {
    if trace != [] {
      AttemptStaysNear(init, st, steps[trace[0].step], trace[0].upTo, cfg, names);
      ExecStaysNear(init, Attempt(st, steps[trace[0].step], trace[0].upTo), steps, trace[1..], cfg, names);
    }
  }

  lemma NearItself(init: Store, vmName: string, names: set<string>)
    requires Untouched(init, vmName)
    ensures Near(init, init, vmName, names)
  {
    Text.ContainsItself(vmName);
  }

  // ---------- rollback undoes them ----------

  lemma RollbackOneNic(init: Store, st: Store, vmName: string, names: set<string>, name: string)
    requires WellFormed(init) && Untouched(init, vmName) && AllOwned(names, vmName)
    requires Near(init, st, vmName, names) && st.vms == init.vms && name in names
    ensures !NicInUse(st, name)
    ensures var st1 := st.(nics := st.nics - {name});
            && !IpInUse(st1, IpName(name))
            && Near(init, st1.(ips := st1.ips - {IpName(name)}), vmName, names - {name})
  {
    assert name !in init.nics && IpName(name) !in init.ips;
    var st1 := st.(nics := st.nics - {name});
    forall m | m in st1.nics ensures st1.nics[m].publicIp != Some(IpName(name)) {
      if m !in init.nics && st1.nics[m].publicIp.Some? {
        IpNameInjective(m, name);
      }
    }
    forall i | i in st.ips && i !in init.ips && i != IpName(name)
      ensures exists n :: n in names - {name} && i == IpName(n)
    {
      var n :| n in names && i == IpName(n);
      assert n in names - {name};
    }
  }

  lemma IpNameInjective(a: string, b: string)
    requires a != b
    ensures IpName(a) != IpName(b)
  {
    assert IpName(a)[..|a|] == a && IpName(b)[..|b|] == b;
  }

  lemma NearMonotone(init: Store, st: Store, vmName: string, fewer: set<string>, names: set<string>)
    requires Near(init, st, vmName, fewer) && fewer <= names
    ensures Near(init, st, vmName, names)
  {
  }

  predicate AllFound(requests: seq<Option<NicRequest>>) {
    forall k :: 0 <= k < |requests| ==> requests[k].Some?
  }

  /** The loop over the interfaces ends early only at a request without a subnet; no deletion in it
      is refused. */
  lemma {:induction false} RollbackNicsRestores(init: Store, st: Store, cfg: DeployConfig,
                                                requests: seq<Option<NicRequest>>)
    requires WellFormed(init) && Untouched(init, cfg.vmName)
    requires Near(init, st, cfg.vmName, Names(cfg, requests)) && st.vms == init.vms
    ensures var (outcome, r) := RollbackNics(st, cfg, requests);
            && outcome == (if AllFound(requests) then Completed else Raises)
            && (outcome == Completed ==> Near(init, r, cfg.vmName, {}) && r.vms == init.vms)
    decreases |requests|
  {
    var names := Names(cfg, requests);
    NamesOwned(cfg, requests);
    if requests == [] {
      assert names == {};
    } else if requests[0].Some? {
      var name := cfg.InterfaceName(requests[0].value);
      assert requests[0].Some? && name in names;
      RollbackOneNic(init, st, cfg.vmName, names, name);
      var st1 := st.(nics := st.nics - {name});
      var st2 := st1.(ips := st1.ips - {IpName(name)});
      var rest := requests[1..];
      forall n | n in names - {name} ensures n in Names(cfg, rest) {
        var k :| 0 <= k < |requests| && requests[k].Some? && n == cfg.InterfaceName(requests[k].value);
        assert rest[k - 1] == requests[k];
      }
      NearMonotone(init, st2, cfg.vmName, names - {name}, Names(cfg, rest));
      RollbackNicsRestores(init, st2, cfg, rest);
      AllFoundRest(requests);
    }
  }

  lemma AllFoundRest(requests: seq<Option<NicRequest>>)
    requires requests != [] && requests[0].Some?
    ensures AllFound(requests) <==> AllFound(requests[1..])
  {
    assert forall k :: 1 <= k < |requests| ==> requests[k] == requests[1..][k - 1];
  }

  /** Without interfaces and VM left, cleaning the NSGs gives back the initial state, and no NSG it
      deletes is in use. */
  lemma ArtifactsRestore(init: Store, st: Store, vmName: string)
    requires WellFormed(init) && Untouched(init, vmName)
    requires Near(init, st, vmName, {}) && st.vms == init.vms
    ensures CleanArtifacts(st, vmName) == (Completed, init)
  {
    assert st.nics == init.nics;
    assert st.ips == init.ips;
    forall n | n in init.nsgs && Text.Contains(n, SANDBOX_NSG_NAME)
      ensures WithoutPart(init.nsgs[n], vmName) == init.nsgs[n]
    {
    }
    assert CleanNsgs(init.nsgs, vmName) == init.nsgs;
  }

  /** From any state with nothing named after the VM: whatever attempts at the steps of the try
      block were made before the exception (each prefix of the steps, with partial and repeated
      batches), rollback issues no refused deletion, and it completes and restores the state exactly
      if and only if a subnet was found for every interface. */
  lemma DeployThenRollback(init: Store, cfg: DeployConfig, trace: seq<Attempted>)
    requires WellFormed(init) && Untouched(init, cfg.vmName) && ' ' !in cfg.vmName
    requires forall k :: 0 <= k < |trace| ==> trace[k].step < |Plan(cfg)|
    ensures Rollback(Exec(init, Plan(cfg), trace), cfg) == (Completed, init) <==> cfg.EverySubnetFound()
    ensures Rollback(Exec(init, Plan(cfg), trace), cfg).0 == if cfg.EverySubnetFound() then Completed else Raises
  {
    var names := Names(cfg, cfg.nicRequests);
    var st := Exec(init, Plan(cfg), trace);
    PlanAllowed(cfg);
    NamesOwned(cfg, cfg.nicRequests);
    NearItself(init, cfg.vmName, names);
    ExecStaysNear(init, init, Plan(cfg), trace, cfg, names);
    var st1 := st.(vms := st.vms - {cfg.vmName});
    assert Near(init, st1, cfg.vmName, names) by {
      assert st1.vms - {cfg.vmName} == st1.vms;
    }
    RollbackNicsRestores(init, st1, cfg, cfg.nicRequests);
    if cfg.EverySubnetFound() {
      ArtifactsRestore(init, RollbackNics(st1, cfg, cfg.nicRequests).1, cfg.vmName);
    }
  }

  /** The failing case: in single-subnet mode, when the sandbox has no subnet, the request list is
      [None]. Both deployment and rollback raise, and the VM's NSG stays behind. */
  lemma RollbackLeavesNsg(init: Store, cfg: DeployConfig)
    requires cfg.nicRequests == [None]
    ensures var (outcome, r) := Rollback(Exec(init, Plan(cfg), [Attempted(0, 0)]), cfg);
            outcome == Raises && cfg.VmNsgName() in r.nsgs
  {
    var st := Attempt(init, Plan(cfg)[0], 0);
    assert [Attempted(0, 0)][1..] == [];
    assert Exec(init, Plan(cfg), [Attempted(0, 0)]) == st;
  }

  // ---------- a whole deployment ----------

  predicate Succeeds(st: Store, step: Step) {
    match step
    case PutRules(nsg, _, _, _, _) => nsg in st.nsgs
    case PutNic(_, nic) =>
      (nic.publicIp.None? || nic.publicIp.value in st.ips) && nic.nsg in st.nsgs && nic.subnet in st.subnets
    case PutVm(_, nics) => forall k :: 0 <= k < |nics| ==> nics[k] in st.nics
    case _ => true
  }

  ghost function Complete(st: Store, step: Step): Store {
    Attempt(st, step, if step.PutRules? then |step.requests| else 0)
  }

  /** All steps in order; None if one of them fails. */
  ghost function DeployAll(st: Store, steps: seq<Step>): Option<Store>
    decreases |steps|
  {
    if steps == [] then Some(st)
    else if !Succeeds(st, steps[0]) then None
    else DeployAll(Complete(st, steps[0]), steps[1..])
  }

  lemma {:induction false} DeployAppend(st: Store, a: seq<Step>, b: seq<Step>)
    ensures DeployAll(st, a + b)
         == if DeployAll(st, a).None? then None else DeployAll(DeployAll(st, a).value, b)
    decreases |a|
  {
    if a == [] {
      assert a + b == b;
    } else {
      assert (a + b)[0] == a[0] && (a + b)[1..] == a[1..] + b;
      if Succeeds(st, a[0]) { DeployAppend(Complete(st, a[0]), a[1..], b); }
    }
  }

  /** Deleting a deployed VM: look up its interfaces and their public IPs, then delete VM,
      interfaces, public IPs and NSG artifacts. */
  ghost function DeleteNics(st: Store, names: seq<string>): (Outcome, Store)
    decreases |names|
  {
    if names == [] then (Completed, st)
    else if NicInUse(st, names[0]) then (Refused, st)
    else DeleteNics(st.(nics := st.nics - {names[0]}), names[1..])
  }

  ghost function DeleteIps(st: Store, names: seq<string>): (Outcome, Store)
    decreases |names|
  {
    if names == [] then (Completed, st)
    else if IpInUse(st, names[0]) then (Refused, st)
    else DeleteIps(st.(ips := st.ips - {names[0]}), names[1..])
  }

  function PublicIps(nics: map<string, Nic>, names: seq<string>): seq<string>
    requires forall k :: 0 <= k < |names| ==> names[k] in nics
    decreases |names|
  {
    if names == [] then []
    else (if nics[names[0]].publicIp.Some? then [nics[names[0]].publicIp.value] else []) + PublicIps(nics, names[1..])
  }

  ghost function Delete(st: Store, vmName: string): (Outcome, Store) {
    if vmName !in st.vms || exists k :: 0 <= k < |st.vms[vmName]| && st.vms[vmName][k] !in st.nics then (Raises, st)
    else
      var names := st.vms[vmName];
      var ips := PublicIps(st.nics, names);
      var (o1, st1) := DeleteNics(st.(vms := st.vms - {vmName}), names);
      if o1 != Completed then (o1, st1)
      else
        var (o2, st2) := DeleteIps(st1, ips);
        if o2 != Completed then (o2, st2) else CleanArtifacts(st2, vmName)
  }

  method DeleteDeployedVm(group: ResourceGroup, vmName: string) returns (outcome: Outcome)
    modifies group
    ensures outcome == Delete(old(group.st), vmName).0
    ensures outcome != Refused ==> group.st == Delete(old(group.st), vmName).1
  {
    if vmName !in group.st.vms { return Raises; }
    var names := group.st.vms[vmName];
    if exists k :: 0 <= k < |names| && names[k] !in group.st.nics { return Raises; }
    var ips := PublicIps(group.st.nics, names);
    group.DeleteVm(vmName);
    ghost var st0 := group.st;
    var k := 0;
    while k < |names|
      invariant 0 <= k <= |names| && DeleteNics(st0, names) == DeleteNics(group.st, names[k..])
    {
      assert names[k..][1..] == names[k + 1..];
      outcome := group.DeleteNic(names[k]);
      if outcome != Completed { return; }
      k := k + 1;
    }
    ghost var st1 := group.st;
    assert DeleteNics(st0, names) == (Completed, st1);
    k := 0;
    while k < |ips|
      invariant 0 <= k <= |ips| && DeleteIps(st1, ips) == DeleteIps(group.st, ips[k..])
    {
      assert ips[k..][1..] == ips[k + 1..];
      outcome := group.DeleteIp(ips[k]);
      if outcome != Completed { return; }
      k := k + 1;
    }
    outcome := group.DeleteNsgArtifacts(vmName);
  }

  // ---------- deletion undoes deployment ----------

  lemma {:induction false} DeleteNicsAll(st: Store, names: seq<string>)
    requires forall k :: 0 <= k < |names| ==> !NicInUse(st, names[k])
    ensures DeleteNics(st, names) == (Completed, st.(nics := st.nics - set n | n in names))
    decreases |names|
  {
    if names == [] {
      assert st.nics - (set n | n in names) == st.nics;
    } else {
      var next := st.(nics := st.nics - {names[0]});
      DeleteNicsAll(next, names[1..]);
      assert names == [names[0]] + names[1..];
      assert next.nics - (set n | n in names[1..]) == st.nics - (set n | n in names);
    }
  }

  lemma {:induction false} DeleteIpsAll(st: Store, names: seq<string>)
    requires forall k :: 0 <= k < |names| ==> !IpInUse(st, names[k])
    ensures DeleteIps(st, names) == (Completed, st.(ips := st.ips - set n | n in names))
    decreases |names|
  {
    if names == [] {
      assert st.ips - (set n | n in names) == st.ips;
    } else {
      var next := st.(ips := st.ips - {names[0]});
      DeleteIpsAll(next, names[1..]);
      assert names == [names[0]] + names[1..];
      assert next.ips - (set n | n in names[1..]) == st.ips - (set n | n in names);
    }
  }

  lemma {:induction false} PublicIpsAll(nics: map<string, Nic>, names: seq<string>)
    requires forall k :: 0 <= k < |names| ==> names[k] in nics
    ensures forall i :: i in PublicIps(nics, names) <==> exists n :: n in names && nics[n].publicIp == Some(i)
    decreases |names|
  {
    if names != [] {
      PublicIpsAll(nics, names[1..]);
      assert names == [names[0]] + names[1..];
    }
  }

  /** A state in which exactly the interfaces in `names` were added, each new public IP in use. */
  ghost predicate NicsDeployed(init: Store, st: Store, vmName: string, names: set<string>) {
    && Near(init, st, vmName, names)
    && st.vms == init.vms
    && (forall n :: n in names ==> n in st.nics)
    && IpsOwned(init.ips, st.ips, st.nics, names)
  }

  /** Rules change nothing but NSGs. */
  lemma RulesStepKeeps(init: Store, st: Store, step: Step, cfg: DeployConfig, names: set<string>)
    requires NicsDeployed(init, st, cfg.vmName, names) && Allowed(step, cfg, names)
    requires step.PutNsg? || step.PutRules?
    requires Untouched(init, cfg.vmName) && AllOwned(names, cfg.vmName)
    ensures NicsDeployed(init, Complete(st, step), cfg.vmName, names)
  {
    AttemptStaysNear(init, st, step, if step.PutRules? then |step.requests| else 0, cfg, names);
  }

  lemma {:induction false} RulesStepsKeep(init: Store, st: Store, steps: seq<Step>, cfg: DeployConfig,
                                          names: set<string>)
    requires NicsDeployed(init, st, cfg.vmName, names) && DeployAll(st, steps).Some?
    requires forall k :: 0 <= k < |steps| ==> Allowed(steps[k], cfg, names) && (steps[k].PutNsg? || steps[k].PutRules?)
    requires Untouched(init, cfg.vmName) && AllOwned(names, cfg.vmName)
    ensures NicsDeployed(init, DeployAll(st, steps).value, cfg.vmName, names)
    decreases |steps|
  {
    if steps != [] {
      RulesStepKeeps(init, st, steps[0], cfg, names);
      RulesStepsKeep(init, Complete(st, steps[0]), steps[1..], cfg, names);
    }
  }

  ghost function WithPublicIp(st: Store, cfg: DeployConfig, r: NicRequest): Store {
    if PublicIpOf(cfg, r).Some? then Complete(st, PutIp(PublicIpOf(cfg, r).value)) else st
  }

  lemma DeployOne(st: Store, step: Step, rest: seq<Step>)
    ensures DeployAll(st, [step] + rest)
         == if Succeeds(st, step) then DeployAll(Complete(st, step), rest) else None
  {
    assert ([step] + rest)[1..] == rest;
  }

  lemma NicStepsRun(st: Store, cfg: DeployConfig, r: NicRequest)
    requires DeployAll(st, NicSteps(cfg, r)).Some?
    ensures Succeeds(WithPublicIp(st, cfg, r), NicStep(cfg, r)) && cfg.SubnetsNsgName() in st.nsgs
    ensures DeployAll(st, NicSteps(cfg, r))
         == Some(Complete(Complete(WithPublicIp(st, cfg, r), NicStep(cfg, r)), InboundStep(cfg, r)))
  {
    var tail := [NicStep(cfg, r)] + ([InboundStep(cfg, r)] + []);
    var st1 := WithPublicIp(st, cfg, r);
    if PublicIpOf(cfg, r).Some? {
      assert NicSteps(cfg, r) == [PutIp(PublicIpOf(cfg, r).value)] + tail;
      DeployOne(st, PutIp(PublicIpOf(cfg, r).value), tail);
    } else {
      assert NicSteps(cfg, r) == tail;
    }
    DeployOne(st1, NicStep(cfg, r), [InboundStep(cfg, r)] + []);
    DeployOne(Complete(st1, NicStep(cfg, r)), InboundStep(cfg, r), []);
  }

  /** Each public IP beyond the initial ones belongs to one of the interfaces. */
  ghost predicate IpsOwned(initial: set<string>, ips: set<string>, nics: map<string, Nic>, names: set<string>) {
    forall i :: i in ips && i !in initial ==> exists n :: n in names && n in nics && nics[n].publicIp == Some(i)
  }

  lemma IpsStayOwned(initial: set<string>, ips: set<string>, nics: map<string, Nic>, names: set<string>,
                     name: string, nic: Nic)
    requires IpsOwned(initial, ips, nics, names) && name !in names
    ensures IpsOwned(initial, if nic.publicIp.Some? then ips + {nic.publicIp.value} else ips,
                     nics[name := nic], names + {name})
  {
    var more, nics' := if nic.publicIp.Some? then ips + {nic.publicIp.value} else ips, nics[name := nic];
    forall i | i in more && i !in initial
      ensures exists n :: n in names + {name} && n in nics' && nics'[n].publicIp == Some(i)
    {
      if nic.publicIp == Some(i) {
        assert nics'[name].publicIp == Some(i);
      } else {
        var n :| n in names && n in nics && nics[n].publicIp == Some(i);
        assert n in names + {name} && nics'[n] == nics[n];
      }
    }
  }

  lemma NicAndIpStayNear(init: Store, st: Store, cfg: DeployConfig, names: set<string>, r: NicRequest)
    requires Near(init, st, cfg.vmName, names) && cfg.InterfaceName(r) in names
    requires Untouched(init, cfg.vmName) && AllOwned(names, cfg.vmName)
    ensures Near(init, Complete(WithPublicIp(st, cfg, r), NicStep(cfg, r)), cfg.vmName, names)
  {
    var ip := PublicIpOf(cfg, r);
    if ip.Some? { AttemptStaysNear(init, st, PutIp(ip.value), 0, cfg, names); }
    AttemptStaysNear(init, WithPublicIp(st, cfg, r), NicStep(cfg, r), 0, cfg, names);
  }

  lemma NicAndIpDeployed(init: Store, st: Store, cfg: DeployConfig, names: set<string>, r: NicRequest)
    requires NicsDeployed(init, st, cfg.vmName, names) && cfg.InterfaceName(r) !in names
    requires Untouched(init, cfg.vmName) && AllOwned(names + {cfg.InterfaceName(r)}, cfg.vmName)
    requires Succeeds(WithPublicIp(st, cfg, r), NicStep(cfg, r))
    ensures NicsDeployed(init, Complete(WithPublicIp(st, cfg, r), NicStep(cfg, r)),
                         cfg.vmName, names + {cfg.InterfaceName(r)})
  {
    var name, more := cfg.InterfaceName(r), names + {cfg.InterfaceName(r)};
    NearMonotone(init, st, cfg.vmName, names, more);
    NicAndIpStayNear(init, st, cfg, more, r);
    IpsStayOwned(init.ips, st.ips, st.nics, names, name, NicOf(cfg, r));
  }

  lemma OneNicDeployed(init: Store, st: Store, cfg: DeployConfig, names: set<string>, r: NicRequest)
    requires NicsDeployed(init, st, cfg.vmName, names) && cfg.InterfaceName(r) !in names
    requires Untouched(init, cfg.vmName) && AllOwned(names + {cfg.InterfaceName(r)}, cfg.vmName)
    requires ' ' !in cfg.vmName && DeployAll(st, NicSteps(cfg, r)).Some?
    ensures NicsDeployed(init, DeployAll(st, NicSteps(cfg, r)).value, cfg.vmName, names + {cfg.InterfaceName(r)})
  {
    NicStepsRun(st, cfg, r);
    NicAndIpDeployed(init, st, cfg, names, r);
    InboundRulesOwned(cfg);
    NamesOwned(cfg, []);
    RulesStepKeeps(init, Complete(WithPublicIp(st, cfg, r), NicStep(cfg, r)), InboundStep(cfg, r), cfg,
                   names + {cfg.InterfaceName(r)});
  }

  /** The interfaces of one deployment are numbered apart. */
  predicate DistinctIndices(requests: seq<Option<NicRequest>>) {
    forall j, k :: 0 <= j < k < |requests| && requests[j].Some? && requests[k].Some? ==>
      requests[j].value.index != requests[k].value.index
  }

  lemma InterfaceNamesDiffer(cfg: DeployConfig, a: NicRequest, b: NicRequest)
    requires a.index != b.index
    ensures cfg.InterfaceName(a) != cfg.InterfaceName(b)
  {
    var n := |cfg.vmName| + 1;
    assert cfg.InterfaceName(a)[n..] == Text.Decimal(a.index) && cfg.InterfaceName(b)[n..] == Text.Decimal(b.index);
    if Text.Decimal(a.index) == Text.Decimal(b.index) { Text.DecimalInjective(a.index, b.index); }
  }

  lemma {:induction false} AllNicsDeployed(init: Store, st: Store, cfg: DeployConfig, names: set<string>,
                                           requests: seq<Option<NicRequest>>)
    requires NicsDeployed(init, st, cfg.vmName, names) && names !! Names(cfg, requests)
    requires DistinctIndices(requests) && forall k :: 0 <= k < |requests| ==> requests[k].Some?
    requires Untouched(init, cfg.vmName) && AllOwned(names, cfg.vmName) && ' ' !in cfg.vmName
    requires DeployAll(st, AllNicSteps(cfg, requests)).Some?
    ensures NicsDeployed(init, DeployAll(st, AllNicSteps(cfg, requests)).value, cfg.vmName,
                         names + Names(cfg, requests))
    decreases |requests|
  {
    if requests == [] {
      assert names + Names(cfg, requests) == names;
    } else {
      var r, rest := requests[0].value, requests[1..];
      var name := cfg.InterfaceName(r);
      assert requests[0].Some? && name in Names(cfg, requests);
      NamesOwned(cfg, requests);
      DeployAppend(st, NicSteps(cfg, r), AllNicSteps(cfg, rest));
      OneNicDeployed(init, st, cfg, names, r);
      FirstNameApart(cfg, requests);
      MoveFirst(names, name, Names(cfg, rest), Names(cfg, requests));
      AllNicsDeployed(init, DeployAll(st, NicSteps(cfg, r)).value, cfg, names + {name}, rest);
    }
  }

  lemma MoveFirst(names: set<string>, name: string, rest: set<string>, all: set<string>)
    requires names !! all && name !in rest && all == {name} + rest
    ensures names + {name} !! rest && names + {name} + rest == names + all
  {
  }

  lemma FirstNameApart(cfg: DeployConfig, requests: seq<Option<NicRequest>>)
    requires requests != [] && requests[0].Some? && DistinctIndices(requests)
    ensures cfg.InterfaceName(requests[0].value) !in Names(cfg, requests[1..])
    ensures Names(cfg, requests) == {cfg.InterfaceName(requests[0].value)} + Names(cfg, requests[1..])
  {
    var rest := requests[1..];
    assert forall k :: 0 <= k < |rest| ==> rest[k] == requests[k + 1];
    forall k | 0 <= k < |rest| && rest[k].Some?
      ensures cfg.InterfaceName(rest[k].value) != cfg.InterfaceName(requests[0].value)
    {
      InterfaceNamesDiffer(cfg, requests[0].value, rest[k].value);
    }
    forall n | n in Names(cfg, requests)
      ensures n in {cfg.InterfaceName(requests[0].value)} + Names(cfg, rest)
    {
      var k :| 0 <= k < |requests| && requests[k].Some? && n == cfg.InterfaceName(requests[k].value);
      assert k > 0 ==> rest[k - 1] == requests[k];
    }
    forall n | n in Names(cfg, rest) ensures n in Names(cfg, requests) {
      var k :| 0 <= k < |rest| && rest[k].Some? && n == cfg.InterfaceName(rest[k].value);
      assert requests[k + 1].Some?;
    }
  }

  lemma {:induction false} InterfaceNamesAll(cfg: DeployConfig, requests: seq<Option<NicRequest>>)
    requires DistinctIndices(requests) && forall k :: 0 <= k < |requests| ==> requests[k].Some?
    ensures forall n :: n in InterfaceNames(cfg, requests) <==> n in Names(cfg, requests)
    decreases |requests|
  {
    if requests != [] {
      FirstNameApart(cfg, requests);
      InterfaceNamesAll(cfg, requests[1..]);
      var rest := InterfaceNames(cfg, requests[1..]);
      assert InterfaceNames(cfg, requests) == [cfg.InterfaceName(requests[0].value)] + rest;
    }
  }

  /** The interfaces added are exactly those that deletion finds. */
  lemma CollectedNics(init: Store, st: Store, vmName: string, names: set<string>)
    requires Untouched(init, vmName) && AllOwned(names, vmName) && NicsDeployed(init, st, vmName, names)
    ensures names !! init.nics.Keys && names <= st.nics.Keys && st.nics - names == init.nics
  {
    assert forall n :: n in init.nics ==> n !in names;
  }

  /** The public IPs that deletion collects are exactly those the deployment added. */
  lemma CollectedIps(init: Store, st: Store, vmName: string, names: set<string>, ips: set<string>)
    requires Untouched(init, vmName) && AllOwned(names, vmName) && NicsDeployed(init, st, vmName, names)
    requires names !! init.nics.Keys
    requires forall i :: i in ips <==> exists n :: n in names && n in st.nics && st.nics[n].publicIp == Some(i)
    ensures ips !! init.ips && st.ips - ips == init.ips
  {
    forall i | i in ips ensures i !in init.ips {
      var n :| n in names && n in st.nics && st.nics[n].publicIp == Some(i);
      assert i == IpName(n);
    }
  }

  /** From a state with just the VM's resources added, deletion completes and restores the rest. */
  lemma DeleteRestores(init: Store, st: Store, vmName: string, names: seq<string>, all: set<string>)
    requires WellFormed(init) && Untouched(init, vmName)
    requires forall n :: n in all <==> n in names
    requires AllOwned(all, vmName) && NicsDeployed(init, st, vmName, all)
    ensures Delete(st.(vms := st.vms[vmName := names]), vmName) == (Completed, init)
  {
    Text.ContainsItself(vmName);
    CollectedNics(init, st, vmName, all);
    PublicIpsAll(st.nics, names);
    CollectedIps(init, st, vmName, all, set i | i in PublicIps(st.nics, names));
    assert (set n | n in names) == all;
    DeletesRun(init, st, vmName, names);
    OnlyNsgsDiffer(init, st, vmName, all);
    ArtifactsRestore(init, st.(vms := init.vms, nics := init.nics, ips := init.ips), vmName);
  }

  lemma OnlyNsgsDiffer(init: Store, st: Store, vmName: string, names: set<string>)
    requires Near(init, st, vmName, names) && st.vms == init.vms
    ensures Near(init, st.(vms := init.vms, nics := init.nics, ips := init.ips), vmName, {})
  {
  }

  lemma DeletesRun(init: Store, st: Store, vmName: string, names: seq<string>)
    requires WellFormed(init) && st.vms == init.vms && vmName !in init.vms
    requires forall k :: 0 <= k < |names| ==> names[k] in st.nics && names[k] !in init.nics
    requires st.nics - (set n | n in names) == init.nics
    requires var ips := PublicIps(st.nics, names);
             (forall k :: 0 <= k < |ips| ==> ips[k] !in init.ips) && st.ips - (set i | i in ips) == init.ips
    ensures Delete(st.(vms := st.vms[vmName := names]), vmName)
         == CleanArtifacts(st.(vms := init.vms, nics := init.nics, ips := init.ips), vmName)
  {
    var full := st.(vms := st.vms[vmName := names]);
    assert full.vms - {vmName} == init.vms;
    DeleteNicsAll(full.(vms := init.vms), names);
    DeleteIpsAll(st.(vms := init.vms, nics := init.nics), PublicIps(st.nics, names));
  }

  lemma VmNsgDeployed(init: Store, cfg: DeployConfig)
    requires Untouched(init, cfg.vmName) && DeployAll(init, VmNsgSteps(cfg)).Some?
    ensures NicsDeployed(init, DeployAll(init, VmNsgSteps(cfg)).value, cfg.vmName, {})
  {
    NearItself(init, cfg.vmName, {});
    NamesOwned(cfg, []);
    RulesStepsKeep(init, init, VmNsgSteps(cfg), cfg, {});
  }

  /** A complete deployment adds the interfaces and then the VM that uses them. */
  lemma CompleteDeployment(init: Store, cfg: DeployConfig) returns (st: Store)
    requires Untouched(init, cfg.vmName) && ' ' !in cfg.vmName
    requires cfg.nicRequests != [] && cfg.EverySubnetFound() && DistinctIndices(cfg.nicRequests)
    requires DeployAll(init, Plan(cfg)).Some?
    ensures NicsDeployed(init, st, cfg.vmName, Names(cfg, cfg.nicRequests))
    ensures DeployAll(init, Plan(cfg))
         == Some(st.(vms := st.vms[cfg.vmName := InterfaceNames(cfg, cfg.nicRequests)]))
  {
    var st1 := PlanRuns(init, cfg);
    VmNsgDeployed(init, cfg);
    AllNicsDeployed(init, st1, cfg, {}, cfg.nicRequests);
    assert {} + Names(cfg, cfg.nicRequests) == Names(cfg, cfg.nicRequests);
    st := DeployAll(st1, AllNicSteps(cfg, cfg.nicRequests)).value;
  }

  /** The VM's NSG first, then the interfaces, then the VM. */
  lemma PlanRuns(init: Store, cfg: DeployConfig) returns (st: Store)
    requires cfg.nicRequests != [] && cfg.EverySubnetFound() && DeployAll(init, Plan(cfg)).Some?
    ensures DeployAll(init, VmNsgSteps(cfg)) == Some(st)
    ensures DeployAll(st, AllNicSteps(cfg, cfg.nicRequests)).Some?
    ensures var last := DeployAll(st, AllNicSteps(cfg, cfg.nicRequests)).value;
            DeployAll(init, Plan(cfg))
            == Some(last.(vms := last.vms[cfg.vmName := InterfaceNames(cfg, cfg.nicRequests)]))
  {
    var a, b := VmNsgSteps(cfg), AllNicSteps(cfg, cfg.nicRequests);
    var put := PutVm(cfg.vmName, InterfaceNames(cfg, cfg.nicRequests));
    assert VmSteps(cfg) == [put] + [];
    DeployAppend(init, a + b, [put] + []);
    DeployAppend(init, a, b);
    st := DeployAll(init, a).value;
    DeployOne(DeployAll(st, b).value, put, []);
  }

  /** Deleting a VM right after its complete deployment gives back the state before the
      deployment, without a refused deletion. */
  lemma DeployThenDelete(init: Store, cfg: DeployConfig)
    requires WellFormed(init) && Untouched(init, cfg.vmName) && ' ' !in cfg.vmName
    requires cfg.nicRequests != [] && cfg.EverySubnetFound() && DistinctIndices(cfg.nicRequests)
    requires DeployAll(init, Plan(cfg)).Some?
    ensures Delete(DeployAll(init, Plan(cfg)).value, cfg.vmName) == (Completed, init)
  {
    var st := CompleteDeployment(init, cfg);
    var names := InterfaceNames(cfg, cfg.nicRequests);
    NamesOwned(cfg, cfg.nicRequests);
    InterfaceNamesAll(cfg, cfg.nicRequests);
    DeleteRestores(init, st, cfg.vmName, names, Names(cfg, cfg.nicRequests));
  }

  // ---------- deletion at any time ----------

  lemma {:induction false} DeleteNicsRefused(st: Store, names: seq<string>, k: nat)
    requires k < |names| && NicInUse(st, names[k])
    ensures DeleteNics(st, names).0 == Refused
    decreases |names|
  {
    if k > 0 && !NicInUse(st, names[0]) { DeleteNicsRefused(st.(nics := st.nics - {names[0]}), names[1..], k - 1); }
  }

  lemma {:induction false} DeleteIpsRefused(st: Store, names: seq<string>, k: nat)
    requires k < |names| && IpInUse(st, names[k])
    ensures DeleteIps(st, names).0 == Refused
    decreases |names|
  {
    if k > 0 && !IpInUse(st, names[0]) { DeleteIpsRefused(st.(ips := st.ips - {names[0]}), names[1..], k - 1); }
  }

  /** No other VM uses the VM's interfaces. */
  ghost predicate NicsAreOwn(st: Store, vmName: string)
    requires vmName in st.vms
  {
    forall vm, n :: vm in st.vms && vm != vmName && n in st.vms[vmName] ==> n !in st.vms[vm]
  }

  /** The public IPs of the VM's interfaces. */
  ghost function IpsOf(st: Store, vmName: string): set<string>
    requires vmName in st.vms
  {
    set n | n in st.vms[vmName] && n in st.nics && st.nics[n].publicIp.Some? :: st.nics[n].publicIp.value
  }

  /** No other interface uses them. */
  ghost predicate IpsAreOwn(st: Store, vmName: string)
    requires vmName in st.vms
  {
    forall n :: n in st.nics && n !in st.vms[vmName] && st.nics[n].publicIp.Some? ==>
      st.nics[n].publicIp.value !in IpsOf(st, vmName)
  }

  /** No subnet and no other interface uses an NSG whose name contains the VM's. */
  ghost predicate NsgsAreOwn(st: Store, vmName: string)
    requires vmName in st.vms
  {
    && (forall n :: n in st.nics && n !in st.vms[vmName] && st.nics[n].nsg in st.nsgs ==>
          !Text.Contains(st.nics[n].nsg, vmName))
    && (forall subnet :: subnet in st.subnets && st.subnets[subnet].Some? && st.subnets[subnet].value in st.nsgs ==>
          !Text.Contains(st.subnets[subnet].value, vmName))
  }

  /** The store without the VM and all that is its own. */
  ghost function WithoutVm(st: Store, vmName: string): Store
    requires vmName in st.vms
  {
    Store(st.vms - {vmName}, st.nics - (set n | n in st.vms[vmName]), st.ips - IpsOf(st, vmName),
          CleanNsgs(st.nsgs, vmName), st.subnets)
  }

  /** A VM that is not there: deletion raises at its first look-up and changes nothing. */
  lemma DeleteMissing(st: Store, vmName: string)
    requires vmName !in st.vms
    ensures Delete(st, vmName) == (Raises, st)
  {
  }

  lemma NicsDeletedIff(st: Store, vmName: string)
    requires vmName in st.vms
    ensures var names := st.vms[vmName]; var r := DeleteNics(st.(vms := st.vms - {vmName}), names);
            if NicsAreOwn(st, vmName)
            then r == (Completed, st.(vms := st.vms - {vmName}, nics := st.nics - (set n | n in names)))
            else r.0 == Refused
  {
    var names, rest := st.vms[vmName], st.(vms := st.vms - {vmName});
    if NicsAreOwn(st, vmName) {
      forall k | 0 <= k < |names| ensures !NicInUse(rest, names[k]) {
        assert names[k] in names;
      }
      DeleteNicsAll(rest, names);
    } else {
      var vm, n :| vm in st.vms && vm != vmName && n in names && n in st.vms[vm];
      var k :| 0 <= k < |names| && names[k] == n;
      assert vm in rest.vms;
      DeleteNicsRefused(rest, names, k);
    }
  }

  lemma IpsDeletedIff(st: Store, vmName: string)
    requires vmName in st.vms && forall k :: 0 <= k < |st.vms[vmName]| ==> st.vms[vmName][k] in st.nics
    ensures var names := st.vms[vmName];
            var r := DeleteIps(st.(vms := st.vms - {vmName}, nics := st.nics - (set n | n in names)),
                               PublicIps(st.nics, names));
            if IpsAreOwn(st, vmName)
            then r == (Completed, st.(vms := st.vms - {vmName}, nics := st.nics - (set n | n in names),
                                      ips := st.ips - IpsOf(st, vmName)))
            else r.0 == Refused
  {
    var names := st.vms[vmName];
    var ips := PublicIps(st.nics, names);
    var rest := st.(vms := st.vms - {vmName}, nics := st.nics - (set n | n in names));
    PublicIpsAll(st.nics, names);
    assert (set i | i in ips) == IpsOf(st, vmName);
    if IpsAreOwn(st, vmName) {
      DeleteIpsAll(rest, ips);
    } else {
      var n :| n in st.nics && n !in names && st.nics[n].publicIp.Some?
               && st.nics[n].publicIp.value in IpsOf(st, vmName);
      assert n in rest.nics && st.nics[n].publicIp.value in (set i | i in ips);
      var k :| 0 <= k < |ips| && ips[k] == st.nics[n].publicIp.value;
      DeleteIpsRefused(rest, ips, k);
    }
  }

  lemma NsgsInUseIff(st: Store, vmName: string)
    requires vmName in st.vms
    ensures VmNsgInUse(WithoutVm(st, vmName).(nsgs := st.nsgs), vmName) <==> !NsgsAreOwn(st, vmName)
  {
    var rest := WithoutVm(st, vmName).(nsgs := st.nsgs);
    if !NsgsAreOwn(st, vmName) {
      if n :| n in st.nics && n !in st.vms[vmName] && st.nics[n].nsg in st.nsgs
              && Text.Contains(st.nics[n].nsg, vmName) {
        assert n in rest.nics && NsgInUse(rest, rest.nics[n].nsg);
      } else {
        var subnet :| subnet in st.subnets && st.subnets[subnet].Some? && st.subnets[subnet].value in st.nsgs
                      && Text.Contains(st.subnets[subnet].value, vmName);
        assert NsgInUse(rest, rest.subnets[subnet].value);
      }
    }
  }

  /** Deleting a VM at any time, with any other VMs around: it completes exactly if no other VM
      shares its interfaces, no other interface its public IPs or an NSG that carries its name, and
      no subnet such an NSG. Then exactly the VM, these interfaces, public IPs and NSGs, and the
      rules named after it in sandbox NSGs are gone. Otherwise a deletion is refused. */
  lemma DeleteExactly(st: Store, vmName: string)
    requires WellFormed(st) && vmName in st.vms
    ensures if NicsAreOwn(st, vmName) && IpsAreOwn(st, vmName) && NsgsAreOwn(st, vmName)
            then Delete(st, vmName) == (Completed, WithoutVm(st, vmName))
            else Delete(st, vmName).0 == Refused
  {
    NicsDeletedIff(st, vmName);
    IpsDeletedIff(st, vmName);
    NsgsInUseIff(st, vmName);
  }

  /** So, where the name of another deployed VM contains this VM's, deletion is refused: it also
      tries to delete the other one's NSG, which is in use. */
  lemma ContainedNameRefuses(st: Store, vmName: string, other: string, nic: string)
    requires WellFormed(st) && vmName in st.vms && nic in st.nics && nic !in st.vms[vmName]
    requires st.nics[nic].nsg == "NSG_" + other && Text.Contains(other, vmName)
    ensures Delete(st, vmName).0 == Refused
  {
    Text.ContainsOnSide("NSG", '_', other, vmName);
    assert "NSG" + ['_'] + other == st.nics[nic].nsg;
    assert st.nics[nic].nsg in st.nsgs && !NsgsAreOwn(st, vmName);
    DeleteExactly(st, vmName);
  }

  /** And what a completed deletion leaves has no dangling reference. */
  lemma DeleteKeepsWellFormed(st: Store, vmName: string)
    requires WellFormed(st) && vmName in st.vms && Delete(st, vmName).0 == Completed
    ensures WellFormed(Delete(st, vmName).1)
  {
    DeleteExactly(st, vmName);
    var r := WithoutVm(st, vmName);
    forall n | n in r.nics ensures r.nics[n].nsg in r.nsgs {
      assert n in st.nics && n !in st.vms[vmName];
    }
  }

  // ---------- the resources of a complete deployment ----------

  /** The interface for a request: behind the VM's NSG, in the requested subnet, and with a public IP
      of its own exactly if the app asks for one and the request is public. */
  ghost predicate HasInterface(nics: map<string, Nic>, ips: set<string>, cfg: DeployConfig, r: NicRequest) {
    var name := cfg.InterfaceName(r);
    && name in nics
    && nics[name].nsg == cfg.VmNsgName() && nics[name].subnet == r.subnet
    && (cfg.addPublicIp && r.isPublic ==> nics[name].publicIp == Some(IpName(name)) && IpName(name) in ips)
    && (!cfg.addPublicIp || !r.isPublic ==> nics[name].publicIp.None?)
  }

  ghost predicate HasInterfaces(nics: map<string, Nic>, ips: set<string>, cfg: DeployConfig,
                                requests: seq<Option<NicRequest>>) {
    forall k :: 0 <= k < |requests| && requests[k].Some? ==> HasInterface(nics, ips, cfg, requests[k].value)
  }

  /** The public IPs that the requests call for. */
  function NewIps(cfg: DeployConfig, requests: seq<Option<NicRequest>>): set<string> {
    set k | 0 <= k < |requests| && requests[k].Some? && cfg.addPublicIp && requests[k].value.isPublic ::
      IpName(cfg.InterfaceName(requests[k].value))
  }

  ghost predicate SameOtherNics(before: map<string, Nic>, after: map<string, Nic>, names: set<string>) {
    forall n :: n !in names ==> (n in after <==> n in before) && (n in before ==> after[n] == before[n])
  }

  lemma OneInterfaceMade(st: Store, cfg: DeployConfig, r: NicRequest)
    requires DeployAll(st, NicSteps(cfg, r)).Some?
    ensures var next := DeployAll(st, NicSteps(cfg, r)).value;
            && HasInterface(next.nics, next.ips, cfg, r)
            && SameOtherNics(st.nics, next.nics, {cfg.InterfaceName(r)})
            && next.ips == st.ips + NewIps(cfg, [Some(r)])
            && next.vms == st.vms && next.subnets == st.subnets
  {
    NicStepsRun(st, cfg, r);
    assert [Some(r)][0] == Some(r);
    if PublicIpOf(cfg, r).Some? {
      assert NewIps(cfg, [Some(r)]) == {IpName(cfg.InterfaceName(r))};
    } else {
      assert NewIps(cfg, [Some(r)]) == {};
    }
  }

  lemma FirstStays(nics: map<string, Nic>, ips: set<string>, last: map<string, Nic>, more: set<string>,
                   cfg: DeployConfig, r: NicRequest, rest: seq<Option<NicRequest>>)
    requires HasInterface(nics, ips, cfg, r) && SameOtherNics(nics, last, Names(cfg, rest))
    requires HasInterfaces(last, more, cfg, rest) && ips <= more && cfg.InterfaceName(r) !in Names(cfg, rest)
    ensures HasInterfaces(last, more, cfg, [Some(r)] + rest)
  {
    var all := [Some(r)] + rest;
    assert HasInterface(last, more, cfg, r);
    forall k | 0 <= k < |all| && all[k].Some? ensures HasInterface(last, more, cfg, all[k].value) {
      if k > 0 { assert rest[k - 1] == all[k]; }
    }
  }

  lemma SameOthersTwice(a: map<string, Nic>, b: map<string, Nic>, c: map<string, Nic>, x: set<string>, y: set<string>)
    requires SameOtherNics(a, b, x) && SameOtherNics(b, c, y)
    ensures SameOtherNics(a, c, x + y)
  {
    forall n | n !in x + y ensures (n in c <==> n in a) && (n in a ==> c[n] == a[n]) {
      assert n !in x && n !in y;
    }
  }

  lemma NewIpsFirst(cfg: DeployConfig, r: NicRequest, rest: seq<Option<NicRequest>>)
    ensures NewIps(cfg, [Some(r)] + rest) == NewIps(cfg, [Some(r)]) + NewIps(cfg, rest)
  {
    var all := [Some(r)] + rest;
    assert forall k :: 0 <= k < |rest| ==> all[k + 1] == rest[k];
    forall i | i in NewIps(cfg, all) ensures i in NewIps(cfg, [Some(r)]) + NewIps(cfg, rest) {
      var k :| 0 <= k < |all| && all[k].Some? && cfg.addPublicIp && all[k].value.isPublic
               && i == IpName(cfg.InterfaceName(all[k].value));
      assert k == 0 ==> [Some(r)][0] == all[0];
      assert k > 0 ==> rest[k - 1] == all[k];
    }
    forall i | i in NewIps(cfg, [Some(r)]) + NewIps(cfg, rest) ensures i in NewIps(cfg, all) {
      assert all[0] == Some(r);
    }
  }

  /** The loop over the requests makes just the interfaces and public IPs asked for. */
  lemma {:induction false} InterfacesMade(st: Store, cfg: DeployConfig, requests: seq<Option<NicRequest>>)
    requires DistinctIndices(requests) && AllFound(requests) && DeployAll(st, AllNicSteps(cfg, requests)).Some?
    ensures var last := DeployAll(st, AllNicSteps(cfg, requests)).value;
            && HasInterfaces(last.nics, last.ips, cfg, requests)
            && SameOtherNics(st.nics, last.nics, Names(cfg, requests))
            && last.ips == st.ips + NewIps(cfg, requests)
            && last.vms == st.vms && last.subnets == st.subnets
    decreases |requests|, 0
  {
    if requests != [] {
      var r, rest := requests[0].value, requests[1..];
      AllFoundRest(requests);
      FirstNameApart(cfg, requests);
      MoreInterfacesMade(st, cfg, r, rest);
      assert [Some(r)] + rest == requests;
    }
  }

  lemma {:induction false} MoreInterfacesMade(st: Store, cfg: DeployConfig, r: NicRequest,
                                              rest: seq<Option<NicRequest>>)
    requires DistinctIndices(rest) && AllFound(rest) && cfg.InterfaceName(r) !in Names(cfg, rest)
    requires DeployAll(st, NicSteps(cfg, r) + AllNicSteps(cfg, rest)).Some?
    ensures var last := DeployAll(st, NicSteps(cfg, r) + AllNicSteps(cfg, rest)).value;
            && HasInterfaces(last.nics, last.ips, cfg, [Some(r)] + rest)
            && SameOtherNics(st.nics, last.nics, {cfg.InterfaceName(r)} + Names(cfg, rest))
            && last.ips == st.ips + NewIps(cfg, [Some(r)] + rest)
            && last.vms == st.vms && last.subnets == st.subnets
    decreases |rest|, 1
  {
    DeployAppend(st, NicSteps(cfg, r), AllNicSteps(cfg, rest));
    OneInterfaceMade(st, cfg, r);
    var next := DeployAll(st, NicSteps(cfg, r)).value;
    InterfacesMade(next, cfg, rest);
    var last := DeployAll(next, AllNicSteps(cfg, rest)).value;
    FirstStays(next.nics, next.ips, last.nics, last.ips, cfg, r, rest);
    SameOthersTwice(st.nics, next.nics, last.nics, {cfg.InterfaceName(r)}, Names(cfg, rest));
    NewIpsFirst(cfg, r, rest);
  }

  lemma {:induction false} NsgStepsChangeNsgs(st: Store, steps: seq<Step>)
    requires DeployAll(st, steps).Some?
    requires forall k :: 0 <= k < |steps| ==> steps[k].PutNsg? || steps[k].PutRules?
    ensures var r := DeployAll(st, steps).value; r == st.(nsgs := r.nsgs)
    decreases |steps|
  {
    if steps != [] { NsgStepsChangeNsgs(Complete(st, steps[0]), steps[1..]); }
  }

  lemma VmNsgChangesNsgs(st: Store, cfg: DeployConfig)
    requires DeployAll(st, VmNsgSteps(cfg)).Some?
    ensures var r := DeployAll(st, VmNsgSteps(cfg)).value; r == st.(nsgs := r.nsgs)
  {
    NsgStepsChangeNsgs(st, VmNsgSteps(cfg));
  }

  lemma {:induction false} InterfaceNamesInOrder(cfg: DeployConfig, requests: seq<Option<NicRequest>>)
    requires AllFound(requests)
    ensures |InterfaceNames(cfg, requests)| == |requests|
    ensures forall k :: 0 <= k < |requests| ==>
              InterfaceNames(cfg, requests)[k] == cfg.InterfaceName(requests[k].value)
    decreases |requests|
  {
    if requests != [] {
      AllFoundRest(requests);
      InterfaceNamesInOrder(cfg, requests[1..]);
    }
  }

  /** The VM has the interfaces of all requests, in their order. */
  ghost predicate HasVm(vms: map<string, seq<string>>, cfg: DeployConfig) {
    && cfg.vmName in vms && |vms[cfg.vmName]| == |cfg.nicRequests|
    && forall k :: 0 <= k < |cfg.nicRequests| ==>
         cfg.nicRequests[k].Some? && vms[cfg.vmName][k] == cfg.InterfaceName(cfg.nicRequests[k].value)
  }

  /** A complete deployment makes the VM, an interface for every request, and the public IPs they
      call for; it changes no other VM, interface or public IP. */
  lemma DeployedResources(init: Store, cfg: DeployConfig)
    requires cfg.nicRequests != [] && cfg.EverySubnetFound() && DistinctIndices(cfg.nicRequests)
    requires DeployAll(init, Plan(cfg)).Some?
    ensures var st := DeployAll(init, Plan(cfg)).value;
            && HasInterfaces(st.nics, st.ips, cfg, cfg.nicRequests)
            && HasVm(st.vms, cfg)
            && SameOtherNics(init.nics, st.nics, Names(cfg, cfg.nicRequests))
            && st.ips == init.ips + NewIps(cfg, cfg.nicRequests)
            && st.vms - {cfg.vmName} == init.vms - {cfg.vmName} && st.subnets == init.subnets
  {
    var first := PlanRuns(init, cfg);
    VmNsgChangesNsgs(init, cfg);
    InterfacesMade(first, cfg, cfg.nicRequests);
    InterfaceNamesInOrder(cfg, cfg.nicRequests);
    var last := DeployAll(first, AllNicSteps(cfg, cfg.nicRequests)).value;
    VmAdded(last.vms, cfg, InterfaceNames(cfg, cfg.nicRequests));
  }

  lemma VmAdded(vms: map<string, seq<string>>, cfg: DeployConfig, names: seq<string>)
    requires cfg.EverySubnetFound() && |names| == |cfg.nicRequests|
    requires forall k :: 0 <= k < |names| ==> names[k] == cfg.InterfaceName(cfg.nicRequests[k].value)
    ensures HasVm(vms[cfg.vmName := names], cfg)
    ensures vms[cfg.vmName := names] - {cfg.vmName} == vms - {cfg.vmName}
  {
  }

  // ---------- the deployment with its exception handler ----------

  datatype DeployResult = Deployed | RolledBack | RollbackRaised

  /** Send one step to the cloud; false if it raises. */
  method Send(group: ResourceGroup, step: Step) returns (ok: bool)
    modifies group
    ensures ok == Succeeds(old(group.st), step)
    ensures group.st == if ok then Complete(old(group.st), step) else old(group.st)
  {
    ok := Succeeds(group.st, step);
    if !ok { return; }
    match step
    case PutNsg(name) => group.st := group.st.(nsgs := group.st.nsgs[name := map[]]);
    case PutRules(nsg, requests, destination, source, start) =>
      var rules := new NetworkSecurityGroup();
      rules.rules := group.st.nsgs[nsg];
      rules.CreateNetworkSecurityGroupRules(requests, destination, source, Some(start));
      group.st := group.st.(nsgs := group.st.nsgs[nsg := rules.rules]);
    case PutIp(name) => group.st := group.st.(ips := group.st.ips + {name});
    case PutNic(name, nic) => group.st := group.st.(nics := group.st.nics[name := nic]);
    case PutVm(name, nics) => group.st := group.st.(vms := group.st.vms[name := nics]);
  }

  /** The try block, with an exception raised by step `failAt` (by what follows the last step, if
      `failAt` is their number), or by a step that cannot succeed, or by a deployment without an
      interface to connect the VM to. */
  method TryDeploy(group: ResourceGroup, cfg: DeployConfig, failAt: nat)
    returns (raised: bool, ghost trace: seq<Attempted>)
    modifies group
    ensures forall j :: 0 <= j < |trace| ==> trace[j].step < |Plan(cfg)|
    ensures group.st == Exec(old(group.st), Plan(cfg), trace)
    ensures !raised ==> DeployAll(old(group.st), Plan(cfg)) == Some(group.st)
    ensures !raised <==>
              failAt > |Plan(cfg)| && VmSteps(cfg) != [] && DeployAll(old(group.st), Plan(cfg)).Some?
  {
    var steps := Plan(cfg);
    var k, ok := 0, true;
    trace := [];
    while k < |steps| && k != failAt && ok
      invariant 0 <= k <= |steps| && k <= failAt
      invariant forall j :: 0 <= j < |trace| ==> trace[j].step < |steps|
      invariant group.st == Exec(old(group.st), steps, trace)
      invariant ok ==> DeployAll(old(group.st), steps) == DeployAll(group.st, steps[k..])
      invariant !ok ==> DeployAll(old(group.st), steps).None?
      decreases |steps| - k, ok
    {
      assert steps[k..][0] == steps[k] && steps[k..][1..] == steps[k + 1..];
      ok := Send(group, steps[k]);
      if ok {
        ghost var done := Attempted(k, if steps[k].PutRules? then |steps[k].requests| else 0);
        ExecMore(old(group.st), steps, trace, done);
        trace := trace + [done];
        k := k + 1;
      }
    }
    assert k == |steps| ==> steps[k..] == [];
    raised := !ok || k == failAt || VmSteps(cfg) == [];
  }

  /** The try block and its handler. Either the whole plan was carried out, or nothing is left of
      it, or a subnet was missing and the rollback itself raised. */
  method Deploy(group: ResourceGroup, cfg: DeployConfig, failAt: nat) returns (result: DeployResult)
    requires WellFormed(group.st) && Untouched(group.st, cfg.vmName) && ' ' !in cfg.vmName
    modifies group
    ensures result == Deployed ==> DeployAll(old(group.st), Plan(cfg)) == Some(group.st)
    ensures result == Deployed <==>
              failAt > |Plan(cfg)| && VmSteps(cfg) != [] && DeployAll(old(group.st), Plan(cfg)).Some?
    ensures result == RolledBack ==> group.st == old(group.st)
    ensures result == RollbackRaised ==> !cfg.EverySubnetFound()
  {
    var raised;
    ghost var trace;
    raised, trace := TryDeploy(group, cfg, failAt);
    if !raised { return Deployed; }
    DeployThenRollback(old(group.st), cfg, trace);
    var outcome := RollbackDeployedResources(group, cfg);
    result := if outcome == Completed then RolledBack else RollbackRaised;
  }

  lemma {:induction false} ExecMore(st: Store, steps: seq<Step>, trace: seq<Attempted>, e: Attempted)
    requires forall k :: 0 <= k < |trace| ==> trace[k].step < |steps|
    requires e.step < |steps|
    ensures Exec(st, steps, trace + [e]) == Attempt(Exec(st, steps, trace), steps[e.step], e.upTo)
    decreases |trace|
  {
    if trace == [] {
      assert trace + [e] == [e] && [e][1..] == [];
    } else {
      assert (trace + [e])[1..] == trace[1..] + [e];
      ExecMore(Attempt(st, steps[trace[0].step], trace[0].upTo), steps, trace[1..], e);
    }
  }
}
