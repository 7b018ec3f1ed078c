/** Setting the custom security rules of deployed apps. */
module AppSecurityGroups {
  import opened Wrappers
  import opened PriorityAllocator
  import opened SecurityGroup
  import Text

  const CUSTOM_RULE := "custom_rule"

  /** Rules requested for the app's interface in one subnet, given by its name. */
  datatype SubnetRules = SubnetRules(subnet: string, rules: seq<RuleRequest>)

  datatype AppRequest = AppRequest(vmName: string, configurations: seq<SubnetRules>)

  type Nsgs = map<string, Nsg>

  datatype Interface = Interface(subnet: string, address: string)

  /** What the cloud answers about a VM: its interfaces, in the order in which they are searched. */
  type Interfaces = seq<Interface>

  /** The address of the first interface in a subnet. */
  function FindNic(interfaces: Interfaces, subnet: string): Option<string> {
    if interfaces == [] then None
    else if interfaces[0].subnet == subnet then Some(interfaces[0].address)
    else FindNic(interfaces[1..], subnet)
  }

  function NsgName(vmName: string): string { "NSG_" + vmName }

  function CustomName(i: nat, vmName: string, destination: string): string {
    CUSTOM_RULE + "_" + Text.Decimal(i) + "_for_" + vmName + "_to_" + destination
  }

  function Rename(rules: seq<RuleRequest>, vmName: string, destination: string): (r: seq<RuleRequest>)
    ensures |r| == |rules|
    ensures forall k :: 0 <= k < |r| ==> r[k].name == CustomName(k, vmName, destination)
  {
    seq(|rules|, k requires 0 <= k < |rules| => rules[k].(name := CustomName(k, vmName, destination)))
  }

  predicate IsCustom(name: string) { Text.Contains(name, CUSTOM_RULE) }

  /** The NSG without its custom rules. */
  ghost function WithoutCustom(nsg: Nsg): Nsg { WithoutPart(nsg, CUSTOM_RULE) }

  /** Create the custom rules configuration by configuration; the first configuration whose subnet
      the VM is not connected to raises, after the earlier ones were written. */
  ghost function Configure(nsg: Nsg, vmName: string, interfaces: Interfaces,
                           configurations: seq<SubnetRules>): (Nsg, bool)
    decreases |configurations|
  {
    if configurations == [] then (nsg, true)
    else if FindNic(interfaces, configurations[0].subnet).None? then (nsg, false)
    else
      var destination := FindNic(interfaces, configurations[0].subnet).value;
      var rules := Rename(configurations[0].rules, vmName, destination);
      Configure(CreateRules(nsg, rules, destination, INTERNET, RULE_DEFAULT_PRIORITY),
                vmName, interfaces, configurations[1..])
  }

  /** One app: the new NSGs and whether the app's result reports success. */
  ghost function SetApp(nsgs: Nsgs, vms: map<string, Interfaces>, app: AppRequest): (Nsgs, bool) {
    var name := NsgName(app.vmName);
    if name !in nsgs then (nsgs, false)
    else
      var kept := WithoutCustom(nsgs[name]);
      if app.vmName !in vms then (nsgs[name := kept], false)
      else
        var (nsg, ok) := Configure(kept, app.vmName, vms[app.vmName], app.configurations);
        (nsgs[name := nsg], ok)
  }

  ghost function SetApps(nsgs: Nsgs, vms: map<string, Interfaces>, apps: seq<AppRequest>): (Nsgs, seq<bool>)
    decreases |apps|
  {
    if apps == [] then (nsgs, [])
    else
      var (next, ok) := SetApp(nsgs, vms, apps[0]);
      var (last, oks) := SetApps(next, vms, apps[1..]);
      (last, [ok] + oks)
  }

  // ---------- what setting the groups must leave ----------

  /** The rules of one configuration, for the interface found in its subnet. */
  datatype Target = Target(address: string, rules: seq<RuleRequest>)

  /** The configurations before the first one whose subnet the VM is not connected to. */
  function Targets(interfaces: Interfaces, configurations: seq<SubnetRules>): (r: seq<Target>)
    ensures |r| <= |configurations|
    ensures forall c :: 0 <= c < |r| ==>
              && FindNic(interfaces, configurations[c].subnet) == Some(r[c].address)
              && r[c].rules == configurations[c].rules
    ensures |r| < |configurations| ==> FindNic(interfaces, configurations[|r|].subnet).None?
    decreases |configurations|
  {
    if configurations == [] || FindNic(interfaces, configurations[0].subnet).None? then []
    else
      [Target(FindNic(interfaces, configurations[0].subnet).value, configurations[0].rules)]
      + Targets(interfaces, configurations[1..])
  }

  /** Some target from the `from`-th on has a rule of this name. */
  ghost predicate IsNamed(vmName: string, targets: seq<Target>, from: nat, name: string) {
    exists c, i :: from <= c < |targets| && 0 <= i < |targets[c].rules|
      && name == CustomName(i, vmName, targets[c].address)
  }

  /** The i-th rule of the c-th target is not replaced by one of a later target. */
  ghost predicate Stands(vmName: string, targets: seq<Target>, c: nat, i: nat)
    requires c < |targets|
  {
    i < |targets[c].rules| && !IsNamed(vmName, targets, c + 1, CustomName(i, vmName, targets[c].address))
  }

  /** The rule of this name carries the request out, at a priority of 1000 or above. */
  ghost predicate Installed(nsg: Nsg, name: string, request: RuleRequest, address: string) {
    && name in nsg && nsg[name].name == name && Realizes(nsg[name], request, address, INTERNET)
    && RULE_DEFAULT_PRIORITY <= nsg[name].priority
  }

  ghost predicate AllInstalled(nsg: Nsg, vmName: string, targets: seq<Target>) {
    forall c, i :: 0 <= c < |targets| && 0 <= i && Stands(vmName, targets, c, i) ==>
      Installed(nsg, CustomName(i, vmName, targets[c].address), targets[c].rules[i], targets[c].address)
  }

  /** Within a target the priorities increase in the order of the request. */
  ghost predicate InOrder(nsg: Nsg, vmName: string, targets: seq<Target>) {
    forall c, i, j :: 0 <= c < |targets| && 0 <= i < j && Stands(vmName, targets, c, i) && Stands(vmName, targets, c, j)
      ==> Before(nsg, CustomName(i, vmName, targets[c].address), CustomName(j, vmName, targets[c].address))
  }

  ghost predicate Before(nsg: Nsg, a: string, b: string) {
    a in nsg && b in nsg && nsg[a].priority < nsg[b].priority
  }

  /** The custom rules of the NSG are exactly those of the targets. */
  ghost predicate CustomRulesAre(nsg: Nsg, vmName: string, targets: seq<Target>) {
    && AllInstalled(nsg, vmName, targets)
    && InOrder(nsg, vmName, targets)
    && forall n :: n in nsg && IsCustom(n) <==> IsNamed(vmName, targets, 0, n)
  }

  ghost predicate Connected(interfaces: Interfaces, configurations: seq<SubnetRules>) {
    forall c :: 0 <= c < |configurations| ==> FindNic(interfaces, configurations[c].subnet).Some?
  }

  /** The NSG and the VM exist, and the VM has an interface in every requested subnet. */
  ghost predicate CanSet(nsgs: Nsgs, vms: map<string, Interfaces>, app: AppRequest) {
    NsgName(app.vmName) in nsgs && app.vmName in vms && Connected(vms[app.vmName], app.configurations)
  }

  /** What is carried out for an app, also when it fails. */
  function TargetsOf(vms: map<string, Interfaces>, app: AppRequest): seq<Target> {
    if app.vmName in vms then Targets(vms[app.vmName], app.configurations) else []
  }

  ghost predicate AppIsSet(nsgs: Nsgs, vms: map<string, Interfaces>, app: AppRequest) {
    var name := NsgName(app.vmName);
    name in nsgs ==> CustomRulesAre(nsgs[name], app.vmName, TargetsOf(vms, app))
  }

  /** Two sets of NSGs that differ in custom rules only. */
  ghost predicate SameButCustom(a: Nsgs, b: Nsgs) {
    a.Keys == b.Keys && forall n :: n in a ==> WithoutCustom(a[n]) == WithoutCustom(b[n])
  }

  ghost predicate Requested(apps: seq<AppRequest>, n: string) {
    exists k :: 0 <= k < |apps| && NsgName(apps[k].vmName) == n
  }

  /** No other NSG and no other rule changes. */
  ghost predicate OnlyCustom(before: Nsgs, after: Nsgs, apps: seq<AppRequest>) {
    && SameButCustom(before, after)
    && forall n :: n in before && !Requested(apps, n) ==> n in after && after[n] == before[n]
  }

  ghost predicate OneIsSet(before: Nsgs, vms: map<string, Interfaces>, app: AppRequest, after: Nsgs, ok: bool) {
    (ok <==> CanSet(before, vms, app)) && AppIsSet(after, vms, app) && OnlyCustom(before, after, [app])
  }

  /** Each app succeeds exactly if it can be set; the custom rules of an NSG are those of the last
      app that names it; nothing else changes. */
  ghost predicate AppsAreSet(before: Nsgs, vms: map<string, Interfaces>, apps: seq<AppRequest>, after: Nsgs,
                             results: seq<bool>) {
    && |results| == |apps|
    && (forall k :: 0 <= k < |apps| ==> (results[k] <==> CanSet(before, vms, apps[k])))
    && (forall k :: 0 <= k < |apps| && !Requested(apps[k + 1..], NsgName(apps[k].vmName)) ==>
          AppIsSet(after, vms, apps[k]))
    && OnlyCustom(before, after, apps)
  }

  /** The NSGs of a resource group, changed in place. */
  class NetworkSecurityGroups {
    var nsgs: Nsgs

    /** Delete the custom rules of one NSG, from a listing in any order. */
    method DeleteCustomSecurityRules(name: string)
      requires name in nsgs
      modifies this
      ensures nsgs == old(nsgs)[name := WithoutCustom(old(nsgs)[name])]
    {
      var custom := set n | n in nsgs[name] && IsCustom(n);
      var left := custom;
      while left != {}
        invariant left <= custom && name in nsgs
        invariant nsgs == old(nsgs)[name := nsgs[name]]
        invariant nsgs[name] == map n | n in old(nsgs)[name] && (n !in custom || n in left) :: old(nsgs)[name][n]
        decreases left
      {
        var rule :| rule in left;
        nsgs := nsgs[name := nsgs[name] - {rule}];
        left := left - {rule};
      }
      assert nsgs[name] == WithoutCustom(old(nsgs)[name]);
    }

    method SetAppSecurityGroups(vms: map<string, Interfaces>, apps: seq<AppRequest>) returns (results: seq<bool>)
      modifies this
      ensures AppsAreSet(old(nsgs), vms, apps, nsgs, results)
      ensures nsgs == SetApps(old(nsgs), vms, apps).0 && results == SetApps(old(nsgs), vms, apps).1
    {
      results := [];
      var k := 0;
      while k < |apps|
        invariant 0 <= k <= |apps|
        invariant SetApps(old(nsgs), vms, apps).0 == SetApps(nsgs, vms, apps[k..]).0
        invariant SetApps(old(nsgs), vms, apps).1 == results + SetApps(nsgs, vms, apps[k..]).1
      {
        assert apps[k..][1..] == apps[k + 1..];
        var ok := SetOne(vms, apps[k]);
        results := results + [ok];
        k := k + 1;
      }
      AllAppsAreSet(old(nsgs), vms, apps);
    }

    /** One call to the rule service. */
    method CreateCustomRules(name: string, rules: seq<RuleRequest>, destination: string)
      requires name in nsgs
      modifies this
      ensures nsgs == old(nsgs)[name := CreateRules(old(nsgs)[name], rules, destination, INTERNET,
                                                    RULE_DEFAULT_PRIORITY)]
    {
      var group := new NetworkSecurityGroup();
      group.rules := nsgs[name];
      group.CreateNetworkSecurityGroupRules(rules, destination, INTERNET, None);
      nsgs := nsgs[name := group.rules];
    }

    /** Stops at the first configuration whose subnet the VM is not connected to. */
    method CreateAll(name: string, vmName: string, interfaces: Interfaces, configurations: seq<SubnetRules>)
      returns (ok: bool)
      requires name in nsgs
      modifies this
      ensures var (nsg, done) := Configure(old(nsgs)[name], vmName, interfaces, configurations);
              nsgs == old(nsgs)[name := nsg] && ok == done
    {
      var k := 0;
      while k < |configurations|
        invariant 0 <= k <= |configurations| && name in nsgs
        invariant nsgs == old(nsgs)[name := nsgs[name]]
        invariant Configure(old(nsgs)[name], vmName, interfaces, configurations)
               == Configure(nsgs[name], vmName, interfaces, configurations[k..])
      {
        assert configurations[k..][1..] == configurations[k + 1..];
        var c := configurations[k];
        var nic := FindNic(interfaces, c.subnet);
        if nic.None? { return false; }
        CreateCustomRules(name, Rename(c.rules, vmName, nic.value), nic.value);
        k := k + 1;
      }
      ok := true;
    }

    method SetOne(vms: map<string, Interfaces>, app: AppRequest) returns (ok: bool)
      modifies this
      ensures OneIsSet(old(nsgs), vms, app, nsgs, ok)
      ensures (nsgs, ok) == SetApp(old(nsgs), vms, app)
    {
      OneAppIsSet(nsgs, vms, app);
      ok := ReplaceCustomRules(vms, app);
    }

    method ReplaceCustomRules(vms: map<string, Interfaces>, app: AppRequest) returns (ok: bool)
      modifies this
      ensures (nsgs, ok) == SetApp(old(nsgs), vms, app)
    {
      var name := NsgName(app.vmName);
      if name !in nsgs { return false; }
      DeleteCustomSecurityRules(name);
      if app.vmName !in vms { return false; }
      ghost var kept := nsgs[name];
      ok := CreateAll(name, app.vmName, vms[app.vmName], app.configurations);
      assert nsgs == old(nsgs)[name := nsgs[name]];
      assert (nsgs[name], ok) == Configure(kept, app.vmName, vms[app.vmName], app.configurations);
    }
  }

  // ---------- laws ----------

  lemma CustomNameIsCustom(i: nat, vmName: string, destination: string)
    ensures IsCustom(CustomName(i, vmName, destination))
  {
    var rest := "_" + Text.Decimal(i) + "_for_" + vmName + "_to_" + destination;
    Text.ContainsMiddle("", CUSTOM_RULE, rest);
    assert CustomName(i, vmName, destination) == "" + CUSTOM_RULE + rest;
  }

  lemma {:induction false} ConfigureTouchesCustomOnly(nsg: Nsg, vmName: string, interfaces: Interfaces,
                                                      configurations: seq<SubnetRules>)
    ensures WithoutCustom(Configure(nsg, vmName, interfaces, configurations).0) == WithoutCustom(nsg)
    decreases |configurations|
  {
    if configurations != [] && FindNic(interfaces, configurations[0].subnet).Some? {
      var destination := FindNic(interfaces, configurations[0].subnet).value;
      var rules := Rename(configurations[0].rules, vmName, destination);
      forall k | 0 <= k < |rules| ensures rules[k].name != "" && IsCustom(rules[k].name) {
        CustomNameIsCustom(k, vmName, destination);
        assert rules[k].name[0] == 'c';
      }
      BatchTouchesPartOnly(nsg, Priorities(nsg), rules, destination, INTERNET, RULE_DEFAULT_PRIORITY, CUSTOM_RULE);
      ConfigureTouchesCustomOnly(CreateRules(nsg, rules, destination, INTERNET, RULE_DEFAULT_PRIORITY),
                                 vmName, interfaces, configurations[1..]);
    }
  }

  lemma SetAppKeepsOthers(nsgs: Nsgs, vms: map<string, Interfaces>, app: AppRequest)
    ensures SameButCustom(nsgs, SetApp(nsgs, vms, app).0)
  {
    var name := NsgName(app.vmName);
    if name in nsgs {
      var kept := WithoutCustom(nsgs[name]);
      assert WithoutCustom(kept) == kept;
      if app.vmName in vms {
        ConfigureTouchesCustomOnly(kept, app.vmName, vms[app.vmName], app.configurations);
      }
    }
  }

  /** Every rule whose name does not contain "custom_rule" survives unchanged, in every NSG. */
  lemma {:induction false} SetAppsKeepsOthers(nsgs: Nsgs, vms: map<string, Interfaces>, apps: seq<AppRequest>)
    ensures SameButCustom(nsgs, SetApps(nsgs, vms, apps).0)
    decreases |apps|
  {
    if apps != [] {
      SetAppKeepsOthers(nsgs, vms, apps[0]);
      SetAppsKeepsOthers(SetApp(nsgs, vms, apps[0]).0, vms, apps[1..]);
    }
  }

  /** Two starting points that differ in custom rules only give the same results. */
  lemma {:induction false} SameResults(a: Nsgs, b: Nsgs, vms: map<string, Interfaces>, apps: seq<AppRequest>)
    requires SameButCustom(a, b)
    ensures SetApps(a, vms, apps).1 == SetApps(b, vms, apps).1
    decreases |apps|
  {
    if apps != [] {
      SetAppKeepsOthers(a, vms, apps[0]);
      SetAppKeepsOthers(b, vms, apps[0]);
      SameResults(SetApp(a, vms, apps[0]).0, SetApp(b, vms, apps[0]).0, vms, apps[1..]);
    }
  }

  /** And an NSG that a request names forgets the custom rules it had. */
  lemma {:induction false} CustomRulesForgotten(a: Nsgs, b: Nsgs, vms: map<string, Interfaces>,
                                                apps: seq<AppRequest>, n: string)
    requires SameButCustom(a, b) && n in a
    requires a[n] == b[n] || Requested(apps, n)
    ensures var x, y := SetApps(a, vms, apps).0, SetApps(b, vms, apps).0;
            n in x && n in y && x[n] == y[n]
    decreases |apps|
  {
    if apps != [] {
      var a', b' := SetApp(a, vms, apps[0]).0, SetApp(b, vms, apps[0]).0;
      SetAppKeepsOthers(a, vms, apps[0]);
      SetAppKeepsOthers(b, vms, apps[0]);
      if a'[n] != b'[n] {
        var k :| 0 <= k < |apps| && NsgName(apps[k].vmName) == n;
        assert apps[1..][k - 1] == apps[k];
      }
      CustomRulesForgotten(a', b', vms, apps[1..], n);
    }
  }

  // ---------- the custom rules that are set ----------

  /** Digits followed by an underscore are read in one way only. */
  lemma DigitsEnd(a: string, b: string, x: string, y: string)
    requires (forall c :: c in a ==> Text.IsDigit(c)) && forall c :: c in b ==> Text.IsDigit(c)
    requires x != "" && y != "" && x[0] == y[0] == '_' && a + x == b + y
    ensures a == b && x == y
  {
    var s, t := a + x, b + y;
    assert forall k :: 0 <= k < |a| ==> a[k] in a && s[k] == a[k];
    assert forall k :: 0 <= k < |b| ==> b[k] in b && t[k] == b[k];
    assert s[|a|] == '_' && t[|b|] == '_';
    assert a == s[..|a|] && b == t[..|b|] && x == s[|a|..] && y == t[|b|..];
  }

  /** One VM's rules with another position or at another address have other names. */
  lemma CustomNamesDiffer(vmName: string, i: nat, a: string, j: nat, b: string)
    requires CustomName(i, vmName, a) == CustomName(j, vmName, b)
    ensures i == j && a == b
  {
    var head, middle := CUSTOM_RULE + "_", "_for_" + vmName + "_to_";
    Bracketed(head, Text.Decimal(i), "_for_", vmName, "_to_", a);
    Bracketed(head, Text.Decimal(j), "_for_", vmName, "_to_", b);
    SameTail(head, Text.Decimal(i) + (middle + a), Text.Decimal(j) + (middle + b));
    DigitsEnd(Text.Decimal(i), Text.Decimal(j), middle + a, middle + b);
    Text.DecimalInjective(i, j);
    SameTail(middle, a, b);
  }

  lemma Bracketed(a: string, b: string, c: string, d: string, e: string, f: string)
    ensures a + b + c + d + e + f == a + (b + ((c + d + e) + f))
  {
  }

  lemma SameTail(head: string, x: string, y: string)
    requires head + x == head + y
    ensures x == y
  {
    assert x == (head + x)[|head|..] && y == (head + y)[|head|..];
  }

  /** So a rule stands exactly if no later target at its address has a rule in its position. */
  lemma StandsIff(vmName: string, targets: seq<Target>, c: nat, i: nat)
    requires c < |targets| && i < |targets[c].rules|
    ensures Stands(vmName, targets, c, i)
       <==> forall d :: c < d < |targets| && targets[d].address == targets[c].address ==> |targets[d].rules| <= i
  {
    var name := CustomName(i, vmName, targets[c].address);
    forall d, j | c < d < |targets| && 0 <= j < |targets[d].rules| && name == CustomName(j, vmName, targets[d].address)
      ensures targets[d].address == targets[c].address && j == i
    {
      CustomNamesDiffer(vmName, i, targets[c].address, j, targets[d].address);
    }
    if d :| c < d < |targets| && targets[d].address == targets[c].address && i < |targets[d].rules| {
      assert name == CustomName(i, vmName, targets[d].address);
    }
  }

  /** One batch of custom rules, whose names are all different. */
  lemma TargetWritten(nsg: Nsg, vmName: string, t: Target)
    ensures var requests := Rename(t.rules, vmName, t.address);
            var r := CreateRules(nsg, requests, t.address, INTERNET, RULE_DEFAULT_PRIORITY);
            && Written(nsg, r, requests, t.address, INTERNET, RULE_DEFAULT_PRIORITY)
            && forall i :: 0 <= i < |requests| ==> IsLast(requests, i)
  {
    var requests := Rename(t.rules, vmName, t.address);
    forall i, j | 0 <= i < j < |requests| ensures requests[i].name != requests[j].name {
      if requests[i].name == requests[j].name { CustomNamesDiffer(vmName, i, t.address, j, t.address); }
    }
    assert forall i :: 0 <= i < |requests| ==> requests[i].name[0] == 'c';
    WrittenAtOnce(nsg, requests, t.address, INTERNET, RULE_DEFAULT_PRIORITY);
  }

  lemma OneMoreTarget(vmName: string, targets: seq<Target>, t: Target, from: nat, name: string)
    requires from <= |targets|
    ensures IsNamed(vmName, targets + [t], from, name)
       <==> IsNamed(vmName, targets, from, name) || IsNamed(vmName, [t], 0, name)
  {
    var more := targets + [t];
    if c, i :| from <= c < |more| && 0 <= i < |more[c].rules| && name == CustomName(i, vmName, more[c].address) {
      assert c == |targets| ==> more[c] == [t][0];
      assert c < |targets| ==> more[c] == targets[c];
    }
    if c, i :| from <= c < |targets| && 0 <= i < |targets[c].rules|
               && name == CustomName(i, vmName, targets[c].address) {
      assert more[c] == targets[c];
    }
    if i :| 0 <= i < |t.rules| && name == CustomName(i, vmName, t.address) {
      assert more[|targets|] == t;
    }
  }

  /** What one more target does to the rules of those before it and adds of its own. */
  lemma TargetEffect(nsg: Nsg, vmName: string, targets: seq<Target>, t: Target, r: Nsg)
    requires CustomRulesAre(nsg, vmName, targets)
    requires r == CreateRules(nsg, Rename(t.rules, vmName, t.address), t.address, INTERNET, RULE_DEFAULT_PRIORITY)
    ensures forall n :: !IsNamed(vmName, [t], 0, n) ==> (n in r <==> n in nsg) && (n in nsg ==> r[n] == nsg[n])
    ensures forall i :: 0 <= i < |t.rules| ==> Installed(r, CustomName(i, vmName, t.address), t.rules[i], t.address)
    ensures forall i, j :: 0 <= i < j < |t.rules| ==>
              Before(r, CustomName(i, vmName, t.address), CustomName(j, vmName, t.address))
  {
    var requests := Rename(t.rules, vmName, t.address);
    TargetWritten(nsg, vmName, t);
    forall n ensures Names(requests, n) ==> IsNamed(vmName, [t], 0, n) {
      if k :| 0 <= k < |requests| && requests[k].name == n {
        assert [t][0] == t && n == CustomName(k, vmName, t.address);
      }
    }
    forall i | 0 <= i < |t.rules| ensures Installed(r, CustomName(i, vmName, t.address), t.rules[i], t.address) {
      assert IsLast(requests, i) && requests[i].name == CustomName(i, vmName, t.address);
      assert requests[i] == t.rules[i].(name := requests[i].name);
    }
    forall i, j | 0 <= i < j < |t.rules|
      ensures Before(r, CustomName(i, vmName, t.address), CustomName(j, vmName, t.address))
    {
      assert IsLast(requests, i) && IsLast(requests, j);
      assert requests[i].name == CustomName(i, vmName, t.address);
      assert requests[j].name == CustomName(j, vmName, t.address);
    }
  }

  /** A rule that still stands stood before, and its name is none of the new ones. */
  lemma StoodBefore(vmName: string, targets: seq<Target>, t: Target, c: nat, i: nat)
    requires c < |targets| && Stands(vmName, targets + [t], c, i)
    ensures Stands(vmName, targets, c, i) && !IsNamed(vmName, [t], 0, CustomName(i, vmName, targets[c].address))
  {
    assert (targets + [t])[c] == targets[c];
    OneMoreTarget(vmName, targets, t, c + 1, CustomName(i, vmName, targets[c].address));
  }

  lemma NamedIsCustom(vmName: string, targets: seq<Target>, n: string)
    requires IsNamed(vmName, targets, 0, n)
    ensures IsCustom(n)
  {
    var c, i :| 0 <= c < |targets| && 0 <= i < |targets[c].rules| && n == CustomName(i, vmName, targets[c].address);
    CustomNameIsCustom(i, vmName, targets[c].address);
  }

  lemma TargetKeeps(nsg: Nsg, vmName: string, targets: seq<Target>, t: Target, r: Nsg)
    requires CustomRulesAre(nsg, vmName, targets)
    requires r == CreateRules(nsg, Rename(t.rules, vmName, t.address), t.address, INTERNET, RULE_DEFAULT_PRIORITY)
    ensures CustomRulesAre(r, vmName, targets + [t])
  {
    var more := targets + [t];
    TargetEffect(nsg, vmName, targets, t, r);
    forall c, i | 0 <= c < |more| && 0 <= i && Stands(vmName, more, c, i)
      ensures Installed(r, CustomName(i, vmName, more[c].address), more[c].rules[i], more[c].address)
    {
      if c < |targets| { StoodBefore(vmName, targets, t, c, i); }
    }
    forall c, i, j | 0 <= c < |more| && 0 <= i < j && Stands(vmName, more, c, i) && Stands(vmName, more, c, j)
      ensures Before(r, CustomName(i, vmName, more[c].address), CustomName(j, vmName, more[c].address))
    {
      if c < |targets| {
        StoodBefore(vmName, targets, t, c, i);
        StoodBefore(vmName, targets, t, c, j);
      }
    }
    forall n ensures n in r && IsCustom(n) <==> IsNamed(vmName, more, 0, n) {
      OneMoreTarget(vmName, targets, t, 0, n);
      if IsNamed(vmName, [t], 0, n) { NamedIsCustom(vmName, [t], n); }
    }
  }

  lemma {:induction false} ConfigureInstalls(nsg: Nsg, vmName: string, interfaces: Interfaces,
                                             configurations: seq<SubnetRules>, done: seq<Target>)
    requires CustomRulesAre(nsg, vmName, done)
    ensures CustomRulesAre(Configure(nsg, vmName, interfaces, configurations).0, vmName,
                           done + Targets(interfaces, configurations))
    decreases |configurations|
  {
    if configurations == [] || FindNic(interfaces, configurations[0].subnet).None? {
      assert done + [] == done;
    } else {
      var t := Target(FindNic(interfaces, configurations[0].subnet).value, configurations[0].rules);
      var later := Targets(interfaces, configurations[1..]);
      var r := CreateRules(nsg, Rename(t.rules, vmName, t.address), t.address, INTERNET, RULE_DEFAULT_PRIORITY);
      TargetKeeps(nsg, vmName, done, t, r);
      ConfigureInstalls(r, vmName, interfaces, configurations[1..], done + [t]);
      AppendMore(done, t, later);
    }
  }

  lemma AppendMore(done: seq<Target>, t: Target, later: seq<Target>)
    ensures done + [t] + later == done + ([t] + later)
  {
  }

  lemma {:induction false} ConfigureSucceedsIff(nsg: Nsg, vmName: string, interfaces: Interfaces,
                                                configurations: seq<SubnetRules>)
    ensures Configure(nsg, vmName, interfaces, configurations).1 <==> Connected(interfaces, configurations)
    decreases |configurations|
  {
    if configurations != [] && FindNic(interfaces, configurations[0].subnet).Some? {
      var address, rest := FindNic(interfaces, configurations[0].subnet).value, configurations[1..];
      var rules := Rename(configurations[0].rules, vmName, address);
      ConfigureSucceedsIff(CreateRules(nsg, rules, address, INTERNET, RULE_DEFAULT_PRIORITY), vmName, interfaces, rest);
      assert forall c :: 1 <= c < |configurations| ==> configurations[c] == rest[c - 1];
    }
  }

  lemma NothingInstalled(nsg: Nsg, vmName: string)
    ensures CustomRulesAre(WithoutCustom(nsg), vmName, [])
  {
  }

  /** One app: it succeeds exactly if it can be set, and then or not, its custom rules are exactly
      those of the configurations that were reached. */
  lemma OneAppIsSet(nsgs: Nsgs, vms: map<string, Interfaces>, app: AppRequest)
    ensures var (after, ok) := SetApp(nsgs, vms, app);
            OneIsSet(nsgs, vms, app, after, ok)
  {
    var name := NsgName(app.vmName);
    SetAppKeepsOthers(nsgs, vms, app);
    assert forall n :: !Requested([app], n) ==> NsgName([app][0].vmName) != n;
    if name in nsgs {
      NothingInstalled(nsgs[name], app.vmName);
      if app.vmName in vms {
        ConfigureInstalls(WithoutCustom(nsgs[name]), app.vmName, vms[app.vmName], app.configurations, []);
        ConfigureSucceedsIff(WithoutCustom(nsgs[name]), app.vmName, vms[app.vmName], app.configurations);
        assert [] + TargetsOf(vms, app) == TargetsOf(vms, app);
      }
    }
  }

  /** An NSG that no request names keeps all its rules. */
  lemma {:induction false} UnnamedUntouched(nsgs: Nsgs, vms: map<string, Interfaces>, apps: seq<AppRequest>, n: string)
    requires n in nsgs && !Requested(apps, n)
    ensures n in SetApps(nsgs, vms, apps).0 && SetApps(nsgs, vms, apps).0[n] == nsgs[n]
    decreases |apps|
  {
    if apps != [] {
      assert NsgName(apps[0].vmName) != n;
      assert forall k :: 0 <= k < |apps| - 1 ==> apps[1..][k] == apps[k + 1];
      UnnamedUntouched(SetApp(nsgs, vms, apps[0]).0, vms, apps[1..], n);
    }
  }

  lemma {:induction false} EachResult(nsgs: Nsgs, vms: map<string, Interfaces>, apps: seq<AppRequest>, k: nat)
    requires k < |apps|
    ensures var results := SetApps(nsgs, vms, apps).1;
            |results| == |apps| && (results[k] <==> CanSet(nsgs, vms, apps[k]))
    decreases |apps|
  {
    OneAppIsSet(nsgs, vms, apps[0]);
    var next := SetApp(nsgs, vms, apps[0]).0;
    if |apps| > 1 { EachResult(next, vms, apps[1..], if k == 0 then 0 else k - 1); }
    if k > 0 { assert apps[1..][k - 1] == apps[k] && CanSet(next, vms, apps[k]) == CanSet(nsgs, vms, apps[k]); }
  }

  lemma {:induction false} LastAppIsSet(nsgs: Nsgs, vms: map<string, Interfaces>, apps: seq<AppRequest>, k: nat)
    requires k < |apps| && !Requested(apps[k + 1..], NsgName(apps[k].vmName))
    ensures AppIsSet(SetApps(nsgs, vms, apps).0, vms, apps[k])
    decreases |apps|
  {
    var next, rest := SetApp(nsgs, vms, apps[0]).0, apps[1..];
    OneAppIsSet(nsgs, vms, apps[0]);
    if k == 0 {
      SetAppsKeepsOthers(next, vms, rest);
      if NsgName(apps[0].vmName) in next { UnnamedUntouched(next, vms, rest, NsgName(apps[0].vmName)); }
    } else {
      assert rest[k - 1] == apps[k] && rest[k..] == apps[k + 1..];
      LastAppIsSet(next, vms, rest, k - 1);
    }
  }

  /** In the end each app's result says whether it could be set, and the NSG of a VM has exactly the
      custom rules of the last app that names it. */
  lemma AllAppsAreSet(nsgs: Nsgs, vms: map<string, Interfaces>, apps: seq<AppRequest>)
    ensures var (after, results) := SetApps(nsgs, vms, apps); AppsAreSet(nsgs, vms, apps, after, results)
  {
    var (after, results) := SetApps(nsgs, vms, apps);
    forall k | 0 <= k < |apps| ensures |results| == |apps| && (results[k] <==> CanSet(nsgs, vms, apps[k])) {
      EachResult(nsgs, vms, apps, k);
    }
    forall k | 0 <= k < |apps| && !Requested(apps[k + 1..], NsgName(apps[k].vmName))
      ensures AppIsSet(after, vms, apps[k])
    {
      LastAppIsSet(nsgs, vms, apps, k);
    }
    SetAppsKeepsOthers(nsgs, vms, apps);
    forall n | n in nsgs && !Requested(apps, n) ensures n in after && after[n] == nsgs[n] {
      UnnamedUntouched(nsgs, vms, apps, n);
    }
  }

  ghost predicate AllConsistent(nsgs: Nsgs) { forall n :: n in nsgs ==> Consistent(nsgs[n]) }

  lemma {:induction false} ConfigureKeepsConsistent(nsg: Nsg, vmName: string, interfaces: Interfaces,
                                                    configurations: seq<SubnetRules>)
    requires Consistent(nsg)
    ensures Consistent(Configure(nsg, vmName, interfaces, configurations).0)
    decreases |configurations|
  {
    if configurations != [] && FindNic(interfaces, configurations[0].subnet).Some? {
      var address := FindNic(interfaces, configurations[0].subnet).value;
      var rules := Rename(configurations[0].rules, vmName, address);
      BatchKeepsConsistent(nsg, Priorities(nsg), rules, address, INTERNET, RULE_DEFAULT_PRIORITY);
      ConfigureKeepsConsistent(CreateRules(nsg, rules, address, INTERNET, RULE_DEFAULT_PRIORITY), vmName, interfaces,
                               configurations[1..]);
    }
  }

  /** Custom rules share no priority with one another or with the other rules of their NSG. */
  lemma {:induction false} SetAppsKeepConsistent(nsgs: Nsgs, vms: map<string, Interfaces>, apps: seq<AppRequest>)
    requires AllConsistent(nsgs)
    ensures AllConsistent(SetApps(nsgs, vms, apps).0)
    decreases |apps|
  {
    if apps != [] {
      var app := apps[0];
      if NsgName(app.vmName) in nsgs && app.vmName in vms {
        ConfigureKeepsConsistent(WithoutCustom(nsgs[NsgName(app.vmName)]), app.vmName, vms[app.vmName],
                                 app.configurations);
      }
      SetAppsKeepConsistent(SetApp(nsgs, vms, app).0, vms, apps[1..]);
    }
  }

  /** Setting the same security groups twice equals setting them once: same NSGs, down to every
      priority, and the same results, also when some app fails part-way. */
  lemma SetAppsIdempotent(nsgs: Nsgs, vms: map<string, Interfaces>, apps: seq<AppRequest>)
    ensures SetApps(SetApps(nsgs, vms, apps).0, vms, apps) == SetApps(nsgs, vms, apps)
  {
    var once := SetApps(nsgs, vms, apps).0;
    var twice := SetApps(once, vms, apps).0;
    SetAppsKeepsOthers(nsgs, vms, apps);
    SameResults(once, nsgs, vms, apps);
    SetAppsKeepsOthers(once, vms, apps);
    forall n | n in once ensures twice[n] == once[n] {
      if Requested(apps, n) {
        CustomRulesForgotten(once, nsgs, vms, apps, n);
      } else {
        UnnamedUntouched(once, vms, apps, n);
      }
    }
    assert twice == once;
  }

  // ---------- the order of the interfaces ----------

  /** Two answers about a VM that lead to the same interface for every subnet. */
  ghost predicate Agree(a: Interfaces, b: Interfaces) { forall subnet :: FindNic(a, subnet) == FindNic(b, subnet) }

  ghost predicate AllAgree(a: map<string, Interfaces>, b: map<string, Interfaces>) {
    a.Keys == b.Keys && forall vm :: vm in a ==> Agree(a[vm], b[vm])
  }

  lemma {:induction false} ConfigureAgrees(nsg: Nsg, vmName: string, a: Interfaces, b: Interfaces,
                                           configurations: seq<SubnetRules>)
    requires Agree(a, b)
    ensures Configure(nsg, vmName, a, configurations) == Configure(nsg, vmName, b, configurations)
    decreases |configurations|
  {
    if configurations != [] {
      var nic := FindNic(a, configurations[0].subnet);
      assert FindNic(b, configurations[0].subnet) == nic;
      if nic.Some? {
        var rules := Rename(configurations[0].rules, vmName, nic.value);
        ConfigureAgrees(CreateRules(nsg, rules, nic.value, INTERNET, RULE_DEFAULT_PRIORITY), vmName, a, b,
                        configurations[1..]);
      }
    }
  }

  lemma {:induction false} SetAppsAgree(nsgs: Nsgs, a: map<string, Interfaces>, b: map<string, Interfaces>,
                                        apps: seq<AppRequest>)
    requires AllAgree(a, b)
    ensures SetApps(nsgs, a, apps) == SetApps(nsgs, b, apps)
    decreases |apps|
  {
    if apps != [] {
      var app := apps[0];
      var name := NsgName(app.vmName);
      if name in nsgs && app.vmName in a {
        ConfigureAgrees(WithoutCustom(nsgs[name]), app.vmName, a[app.vmName], b[app.vmName], app.configurations);
      }
      assert SetApp(nsgs, a, app) == SetApp(nsgs, b, app);
      SetAppsAgree(SetApp(nsgs, a, app).0, a, b, apps[1..]);
    }
  }

  lemma {:induction false} FindNicFinds(interfaces: Interfaces, subnet: string)
    ensures match FindNic(interfaces, subnet)
            case Some(address) => exists k :: 0 <= k < |interfaces| && interfaces[k] == Interface(subnet, address)
                                   && forall j :: 0 <= j < k ==> interfaces[j].subnet != subnet
            case None => forall nic :: nic in interfaces ==> nic.subnet != subnet
  {
    if interfaces != [] && interfaces[0].subnet != subnet {
      var rest := interfaces[1..];
      FindNicFinds(rest, subnet);
      assert interfaces == [interfaces[0]] + rest;
      if FindNic(rest, subnet).Some? {
        var k :| 0 <= k < |rest| && rest[k] == Interface(subnet, FindNic(rest, subnet).value)
                 && forall j :: 0 <= j < k ==> rest[j].subnet != subnet;
        assert forall j :: 1 <= j < k + 1 ==> interfaces[j] == rest[j - 1];
        assert interfaces[k + 1] == rest[k];
      }
    }
  }

  ghost predicate OneAddressPerSubnet(interfaces: Interfaces) {
    forall a, b :: a in interfaces && b in interfaces && a.subnet == b.subnet ==> a == b
  }

  lemma SearchedFirst(interfaces: Interfaces, nic: Interface) returns (order: Interfaces)
    requires nic in interfaces
    ensures multiset(order) == multiset(interfaces) && FindNic(order, nic.subnet) == Some(nic.address)
  {
    var k :| 0 <= k < |interfaces| && interfaces[k] == nic;
    order := [nic] + (interfaces[..k] + interfaces[k + 1..]);
    assert interfaces == interfaces[..k] + [nic] + interfaces[k + 1..];
  }

  /** The order in which a VM's interfaces are searched does not matter exactly if no two of them
      are in one subnet with different addresses. */
  lemma SearchOrderIff(interfaces: Interfaces)
    ensures (forall order: Interfaces :: multiset(order) == multiset(interfaces) ==> Agree(interfaces, order))
       <==> OneAddressPerSubnet(interfaces)
  {
    if OneAddressPerSubnet(interfaces) {
      forall order: Interfaces, subnet | multiset(order) == multiset(interfaces)
        ensures FindNic(interfaces, subnet) == FindNic(order, subnet)
      {
        FindNicFinds(interfaces, subnet);
        FindNicFinds(order, subnet);
        assert forall nic :: nic in order <==> nic in multiset(order);
        assert forall nic :: nic in interfaces <==> nic in multiset(interfaces);
      }
    } else {
      var a, b :| a in interfaces && b in interfaces && a.subnet == b.subnet && a != b;
      var first := SearchedFirst(interfaces, a);
      var second := SearchedFirst(interfaces, b);
      assert a.address != b.address;
      assert Agree(interfaces, first) ==> FindNic(interfaces, a.subnet) == Some(a.address);
      assert Agree(interfaces, second) ==> FindNic(interfaces, a.subnet) == Some(b.address);
    }
  }

  /** So, with at most one address per subnet, setting the same groups again gives the same result
      also when the interfaces are searched in another order. */
  lemma IdempotentInAnyOrder(nsgs: Nsgs, vms: map<string, Interfaces>, again: map<string, Interfaces>,
                             apps: seq<AppRequest>)
    requires vms.Keys == again.Keys
    requires forall vm :: vm in vms ==> multiset(again[vm]) == multiset(vms[vm]) && OneAddressPerSubnet(vms[vm])
    ensures SetApps(SetApps(nsgs, vms, apps).0, again, apps) == SetApps(nsgs, vms, apps)
  {
    forall vm | vm in vms ensures Agree(vms[vm], again[vm]) {
      SearchOrderIff(vms[vm]);
    }
    SetAppsAgree(SetApps(nsgs, vms, apps).0, vms, again, apps);
    SetAppsIdempotent(nsgs, vms, apps);
  }
}
