/** From the text of an app's inbound ports to the rules of the sandbox NSG. */
module InboundPorts {
  import opened Wrappers
  import opened SecurityGroup
  import opened Deployment
  import opened PortRules
  import Text

  /** For one VM, different port rules get differently named NSG rules. */
  lemma InboundNamesDiffer(cfg: DeployConfig, a: RuleRequest, b: RuleRequest)
    requires IsPortRule(a) && IsPortRule(b) && cfg.InboundName(a) == cfg.InboundName(b)
    ensures a == b
  {
    var head := Text.Without(cfg.vmName, ' ') + "_inbound_ports:";
    assert cfg.InboundName(a) == head + Printed(a) && cfg.InboundName(b) == head + Printed(b);
    assert Printed(a) == cfg.InboundName(a)[|head|..] && Printed(b) == cfg.InboundName(b)[|head|..];
    PrintedInjective(a, b);
  }

  lemma InboundBatchIsNamed(cfg: DeployConfig)
    ensures ExplicitlyNamed(cfg.InboundRules())
  {
    forall k | 0 <= k < |cfg.InboundRules()| ensures cfg.InboundRules()[k].name != "" {
      assert cfg.InboundSuffix(cfg.firewall.inboundRules[k]) != "";
    }
  }

  ghost predicate ArePortRules(rules: seq<RuleRequest>) {
    forall k :: 0 <= k < |rules| ==> IsPortRule(rules[k])
  }

  /** The k-th rule of the text does not come again. */
  ghost predicate LastOf(rules: seq<RuleRequest>, k: nat)
    requires k < |rules|
  {
    forall j :: k < j < |rules| ==> rules[j] != rules[k]
  }

  /** The last occurrence of a rule in the text. */
  lemma {:induction false} FindLast(rules: seq<RuleRequest>, k: nat) returns (m: nat)
    requires k < |rules|
    ensures k <= m < |rules| && rules[m] == rules[k] && LastOf(rules, m)
    decreases |rules| - k
  {
    m := k;
    if !LastOf(rules, k) {
      var j :| k < j < |rules| && rules[j] == rules[k];
      m := FindLast(rules, j);
    }
  }

  lemma LastRuleLastName(cfg: DeployConfig, k: nat)
    requires ArePortRules(cfg.firewall.inboundRules) && k < |cfg.firewall.inboundRules|
    requires LastOf(cfg.firewall.inboundRules, k)
    ensures IsLast(cfg.InboundRules(), k)
  {
    var rules, named := cfg.firewall.inboundRules, cfg.InboundRules();
    forall j | k < j < |named| ensures named[j].name != named[k].name {
      if cfg.InboundName(rules[j]) == cfg.InboundName(rules[k]) {
        InboundNamesDiffer(cfg, rules[j], rules[k]);
      }
    }
  }

  /** The rule of the sandbox NSG that opens one port rule at an address, at some priority. */
  ghost predicate Opens(nsg: Nsg, cfg: DeployConfig, rule: RuleRequest, address: string) {
    var name := cfg.InboundName(rule);
    && name in nsg
    && nsg[name] == SecurityRule(name, Allow, INTERNET, address, PortRange(rule), rule.protocol, nsg[name].priority)
  }

  function Named(cfg: DeployConfig, rule: RuleRequest): RuleRequest { rule.(name := cfg.InboundName(rule)) }

  lemma PreparedOpens(cfg: DeployConfig, rule: RuleRequest, nsg: Nsg, address: string)
    requires IsPortRule(rule) && Carries(nsg, Named(cfg, rule), address, INTERNET)
    ensures Opens(nsg, cfg, rule, address)
  {
    assert cfg.InboundSuffix(rule) != "";
  }

  /** All rules of the text are open, each evaluated before those that come after its last mention
      in the text. */
  ghost predicate AllOpen(nsg: Nsg, cfg: DeployConfig, rules: seq<RuleRequest>, address: string) {
    && (forall k :: 0 <= k < |rules| ==> Opens(nsg, cfg, rules[k], address))
    && (forall j, k :: 0 <= j < k < |rules| && LastOf(rules, j) && LastOf(rules, k) ==>
          nsg[cfg.InboundName(rules[j])].priority < nsg[cfg.InboundName(rules[k])].priority)
  }

  /** Every rule of the text ends up as a rule of its own in the sandbox NSG, open from the Internet
      to the interface on just its ports and protocol, evaluated in the order of the text, however
      often the batch was interrupted and retried, and however often the text repeats it. */
  lemma EveryPortRuleIsKept(cfg: DeployConfig, text: string, nsg: Nsg, address: string, aborts: seq<nat>)
    requires ParsePortGroup(text) == Ok(cfg.firewall.inboundRules) && Consistent(nsg)
    ensures var r := Attempts(nsg, cfg.InboundRules(), address, INTERNET, 1000, aborts);
            Consistent(r) && AllOpen(r, cfg, cfg.firewall.inboundRules, address)
  {
    InboundBatchIsNamed(cfg);
    ParsedArePortRules(NonEmpty(Split(Strip(text))), cfg.firewall.inboundRules);
    RetriedBatch(nsg, cfg.InboundRules(), address, INTERNET, 1000, aborts);
    AllAreOpen(cfg, nsg, Attempts(nsg, cfg.InboundRules(), address, INTERNET, 1000, aborts), address);
  }

  lemma AllAreOpen(cfg: DeployConfig, before: Nsg, r: Nsg, address: string)
    requires ArePortRules(cfg.firewall.inboundRules)
    requires Written(before, r, cfg.InboundRules(), address, INTERNET, 1000)
    ensures AllOpen(r, cfg, cfg.firewall.inboundRules, address)
  {
    var rules, named := cfg.firewall.inboundRules, cfg.InboundRules();
    forall k | 0 <= k < |rules| ensures Opens(r, cfg, rules[k], address) {
      var m := FindLast(rules, k);
      LastRuleLastName(cfg, m);
      assert named[m] == Named(cfg, rules[m]);
      PreparedOpens(cfg, rules[m], r, address);
    }
    forall j, k | 0 <= j < k < |rules| && LastOf(rules, j) && LastOf(rules, k)
      ensures r[cfg.InboundName(rules[j])].priority < r[cfg.InboundName(rules[k])].priority
    {
      LastRuleLastName(cfg, j);
      LastRuleLastName(cfg, k);
      assert named[j].name == cfg.InboundName(rules[j]) && named[k].name == cfg.InboundName(rules[k]);
    }
  }

  // ---------- several interfaces ----------

  /** The inbound rules written for one interface after the other. */
  ghost function ForInterfaces(nsg: Nsg, cfg: DeployConfig, addresses: seq<string>): Nsg
    decreases |addresses|
  {
    if addresses == [] then nsg
    else ForInterfaces(CreateRules(nsg, cfg.InboundRules(), addresses[0], INTERNET, 1000), cfg, addresses[1..])
  }

  lemma {:induction false} InterfacesKeepConsistent(nsg: Nsg, cfg: DeployConfig, addresses: seq<string>)
    requires Consistent(nsg)
    ensures Consistent(ForInterfaces(nsg, cfg, addresses))
    decreases |addresses|
  {
    if addresses != [] {
      BatchKeepsConsistent(nsg, Priorities(nsg), cfg.InboundRules(), addresses[0], INTERNET, 1000);
      InterfacesKeepConsistent(CreateRules(nsg, cfg.InboundRules(), addresses[0], INTERNET, 1000), cfg, addresses[1..]);
    }
  }

  lemma {:induction false} LastInterface(nsg: Nsg, cfg: DeployConfig, earlier: seq<string>, address: string)
    ensures ForInterfaces(nsg, cfg, earlier + [address])
         == CreateRules(ForInterfaces(nsg, cfg, earlier), cfg.InboundRules(), address, INTERNET, 1000)
    decreases |earlier|
  {
    if earlier == [] {
      assert earlier + [address] == [address] && [address][1..] == [];
    } else {
      assert (earlier + [address])[1..] == earlier[1..] + [address];
      LastInterface(CreateRules(nsg, cfg.InboundRules(), earlier[0], INTERNET, 1000), cfg, earlier[1..], address);
    }
  }

  /** The names of a VM's inbound rules do not tell its interfaces apart, so each interface's rules
      replace those of the one before: in the end exactly the last interface is open. */
  lemma OnlyLastInterfaceIsOpen(cfg: DeployConfig, text: string, nsg: Nsg, addresses: seq<string>, k: nat,
                                address: string)
    requires ParsePortGroup(text) == Ok(cfg.firewall.inboundRules) && Consistent(nsg)
    requires addresses != [] && k < |cfg.firewall.inboundRules|
    ensures Opens(ForInterfaces(nsg, cfg, addresses), cfg, cfg.firewall.inboundRules[k], address)
       <==> address == addresses[|addresses| - 1]
  {
    var n := |addresses| - 1;
    var earlier := ForInterfaces(nsg, cfg, addresses[..n]);
    InterfacesKeepConsistent(nsg, cfg, addresses[..n]);
    LastInterface(nsg, cfg, addresses[..n], addresses[n]);
    assert addresses == addresses[..n] + [addresses[n]];
    EveryPortRuleIsKept(cfg, text, earlier, addresses[n], []);
    var r := CreateRules(earlier, cfg.InboundRules(), addresses[n], INTERNET, 1000);
    assert Attempts(earlier, cfg.InboundRules(), addresses[n], INTERNET, 1000, []) == r;
    assert Opens(r, cfg, cfg.firewall.inboundRules[k], addresses[n]);
  }
}
