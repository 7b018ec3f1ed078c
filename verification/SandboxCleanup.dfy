/** Tearing down a sandbox. The subnets of all sandboxes live in one shared VNet of the management
    group; each sandbox's interfaces, NSGs and route tables live in a resource group of its own.
    A resource group is deleted as a whole, refused while something outside it uses one of its NSGs
    or route tables; a subnet's deletion is refused while an interface sits in it; deleting what
    does not exist does nothing. */
module SandboxCleanup {
  import opened Wrappers
  import Names
  import Text

  datatype Ref = Ref(group: string, name: string)

  datatype Subnet = Subnet(cidr: string, nsg: Option<Ref>, routeTable: Option<Ref>)

  datatype Nic = Nic(subnet: string, nsg: Option<Ref>)

  datatype Group = Group(nics: map<string, Nic>, nsgs: set<string>, routeTables: set<string>)

  /** The resource groups, and the subnets of the sandbox VNet if there is one. */
  datatype Cloud = Cloud(groups: map<string, Group>, vnet: Option<map<string, Subnet>>) {
    function Subnets(): map<string, Subnet> { if vnet.Some? then vnet.value else map[] }
  }

  predicate PointsInto(ref: Option<Ref>, group: string) { ref.Some? && ref.value.group == group }

  predicate Uses(subnet: Subnet, group: string) {
    PointsInto(subnet.nsg, group) || PointsInto(subnet.routeTable, group)
  }

  predicate UsedBySubnet(cloud: Cloud, group: string) {
    exists name :: name in cloud.Subnets() && Uses(cloud.Subnets()[name], group)
  }

  predicate UsedByOtherNic(cloud: Cloud, group: string) {
    exists g, nic :: g in cloud.groups && g != group && nic in cloud.groups[g].nics
                  && PointsInto(cloud.groups[g].nics[nic].nsg, group)
  }

  predicate GroupInUse(cloud: Cloud, group: string) {
    group in cloud.groups && (UsedBySubnet(cloud, group) || UsedByOtherNic(cloud, group))
  }

  predicate SubnetInUse(cloud: Cloud, name: string) {
    exists g, nic :: g in cloud.groups && nic in cloud.groups[g].nics && cloud.groups[g].nics[nic].subnet == name
  }

  predicate Resolves(ref: Option<Ref>, cloud: Cloud, routeTable: bool) {
    ref.Some? ==>
      && ref.value.group in cloud.groups
      && var group := cloud.groups[ref.value.group];
         ref.value.name in if routeTable then group.routeTables else group.nsgs
  }

  /** No reference dangles. */
  ghost predicate WellFormed(cloud: Cloud) {
    && (forall name :: name in cloud.Subnets() ==>
          Resolves(cloud.Subnets()[name].nsg, cloud, false) && Resolves(cloud.Subnets()[name].routeTable, cloud, true))
    && (forall g, nic :: g in cloud.groups && nic in cloud.groups[g].nics ==>
          && cloud.groups[g].nics[nic].subnet in cloud.Subnets()
          && Resolves(cloud.groups[g].nics[nic].nsg, cloud, false))
  }

  // ---------- the three commands, as functions ----------

  /** A sandbox's subnets are found by their names. */
  predicate IsSandboxSubnet(name: string, group: string) { Text.StartsWith(name, group) }

  ghost function Detached(cloud: Cloud, group: string): Cloud {
    if cloud.vnet.None? then cloud
    else cloud.(vnet := Some(map name | name in cloud.vnet.value ::
      if IsSandboxSubnet(name, group) then cloud.vnet.value[name].(nsg := None, routeTable := None)
      else cloud.vnet.value[name]))
  }

  ghost function WithoutGroup(cloud: Cloud, group: string): Cloud { cloud.(groups := cloud.groups - {group}) }

  ghost function OtherSubnets(cloud: Cloud, group: string): map<string, Subnet> {
    map name | name in cloud.Subnets() && !IsSandboxSubnet(name, group) :: cloud.Subnets()[name]
  }

  ghost function WithoutSubnets(cloud: Cloud, group: string): Cloud {
    if cloud.vnet.None? then cloud else cloud.(vnet := Some(OtherSubnets(cloud, group)))
  }

  ghost predicate SandboxSubnetInUse(cloud: Cloud, group: string) {
    exists name :: name in cloud.Subnets() && IsSandboxSubnet(name, group) && SubnetInUse(cloud, name)
  }

  datatype Command = DetachSubnets | DeleteGroup | DeleteSubnets

  ghost predicate Succeeds(cloud: Cloud, command: Command, group: string) {
    match command
    case DetachSubnets => cloud.vnet.Some?
    case DeleteGroup => !GroupInUse(cloud, group)
    case DeleteSubnets => cloud.vnet.Some? && !SandboxSubnetInUse(cloud, group)
  }

  ghost function After(cloud: Cloud, command: Command, group: string): Cloud {
    match command
    case DetachSubnets => Detached(cloud, group)
    case DeleteGroup => WithoutGroup(cloud, group)
    case DeleteSubnets => WithoutSubnets(cloud, group)
  }

  ghost predicate AllSucceed(cloud: Cloud, commands: seq<Command>, group: string)
    decreases |commands|
  {
    commands == []
    || (Succeeds(cloud, commands[0], group) && AllSucceed(After(cloud, commands[0], group), commands[1..], group))
  }

  /** Nothing of another sandbox holds on to this one: there is a VNet, no other subnet and no other
      group's interface uses its group, and no other group's interface sits in its subnets. */
  ghost predicate Isolated(cloud: Cloud, group: string) {
    && cloud.vnet.Some?
    && (group in cloud.groups ==>
          && (forall name :: name in cloud.vnet.value && !IsSandboxSubnet(name, group) ==>
                !Uses(cloud.vnet.value[name], group))
          && !UsedByOtherNic(cloud, group))
    && !SandboxSubnetInUse(WithoutGroup(cloud, group), group)
  }

  /** The sandbox is gone. */
  ghost function Gone(cloud: Cloud, group: string): Cloud { WithoutSubnets(WithoutGroup(cloud, group), group) }

  /** No cleanup of this sandbox touches another group or a subnet that is not its own. */
  ghost predicate SameElsewhere(before: Cloud, after: Cloud, group: string) {
    before.groups - {group} == after.groups - {group} && OtherSubnets(before, group) == OtherSubnets(after, group)
  }

  lemma DetachedIsUnused(cloud: Cloud, group: string)
    ensures UsedBySubnet(Detached(cloud, group), group) <==>
              exists name :: name in cloud.Subnets() && !IsSandboxSubnet(name, group)
                          && Uses(cloud.Subnets()[name], group)
  {
    var d := Detached(cloud, group);
    assert forall name :: name in cloud.Subnets() <==> name in d.Subnets();
    if name :| name in cloud.Subnets() && !IsSandboxSubnet(name, group) && Uses(cloud.Subnets()[name], group) {
      assert name in d.Subnets() && Uses(d.Subnets()[name], group);
    }
  }

  lemma UnfoldThree(cloud: Cloud, a: Command, b: Command, c: Command, group: string)
    ensures AllSucceed(cloud, [a, b, c], group)
       <==> && Succeeds(cloud, a, group)
            && Succeeds(After(cloud, a, group), b, group)
            && Succeeds(After(After(cloud, a, group), b, group), c, group)
  {
    var all, second := [a, b, c], After(cloud, a, group);
    var third := After(second, b, group);
    assert all[1..] == [b, c] && [b, c][1..] == [c] && [c][1..] == [];
    assert AllSucceed(third, [c], group) == Succeeds(third, c, group);
    assert AllSucceed(second, [b, c], group) == (Succeeds(second, b, group) && AllSucceed(third, [c], group));
  }

  /** In the coded order the three commands all succeed exactly for an isolated sandbox. */
  lemma CodedOrderSucceeds(cloud: Cloud, group: string)
    ensures AllSucceed(cloud, [DetachSubnets, DeleteGroup, DeleteSubnets], group) <==> Isolated(cloud, group)
    ensures WithoutSubnets(WithoutGroup(Detached(cloud, group), group), group) == Gone(cloud, group)
  {
    var d := Detached(cloud, group);
    var w := WithoutGroup(d, group);
    UnfoldThree(cloud, DetachSubnets, DeleteGroup, DeleteSubnets, group);
    DetachedIsUnused(cloud, group);
    assert UsedByOtherNic(d, group) == UsedByOtherNic(cloud, group);
    InUseAfterDetach(cloud, group);
    assert OtherSubnets(w, group) == OtherSubnets(WithoutGroup(cloud, group), group);
  }

  lemma InUseAfterDetach(cloud: Cloud, group: string)
    ensures SandboxSubnetInUse(WithoutGroup(Detached(cloud, group), group), group)
         == SandboxSubnetInUse(WithoutGroup(cloud, group), group)
    ensures SandboxSubnetInUse(Detached(cloud, group), group) == SandboxSubnetInUse(cloud, group)
  {
    var d := Detached(cloud, group);
    assert forall name :: SubnetInUse(WithoutGroup(d, group), name) == SubnetInUse(WithoutGroup(cloud, group), name);
    assert forall name :: SubnetInUse(d, name) == SubnetInUse(cloud, name);
    assert d.Subnets().Keys == cloud.Subnets().Keys;
  }

  predicate InAnyOrder(commands: seq<Command>) {
    |commands| == 3 && commands[0] != commands[1] && commands[1] != commands[2] && commands[0] != commands[2]
  }

  /** For a sandbox with a machine in it, whose subnets use its NSG or route table and hold its
      interfaces, the coded order is the only one in which the three commands all succeed. */
  lemma OnlyCodedOrder(cloud: Cloud, commands: seq<Command>, group: string)
    requires InAnyOrder(commands) && Isolated(cloud, group)
    requires GroupInUse(cloud, group) && SandboxSubnetInUse(cloud, group)
    ensures AllSucceed(cloud, commands, group) <==> commands == [DetachSubnets, DeleteGroup, DeleteSubnets]
  {
    assert commands == [commands[0], commands[1], commands[2]];
    UnfoldThree(cloud, commands[0], commands[1], commands[2], group);
    CodedOrderSucceeds(cloud, group);
    InUseAfterDetach(cloud, group);
  }

  // ---------- no command leaves a reference dangling ----------

  lemma DetachKeepsWellFormed(cloud: Cloud, group: string)
    requires WellFormed(cloud)
    ensures WellFormed(Detached(cloud, group))
  {
    var d := Detached(cloud, group);
    assert d.Subnets().Keys == cloud.Subnets().Keys;
  }

  lemma DeleteGroupKeepsWellFormed(cloud: Cloud, group: string)
    requires WellFormed(cloud) && !GroupInUse(cloud, group)
    ensures WellFormed(WithoutGroup(cloud, group))
  {
    var w := WithoutGroup(cloud, group);
    forall name | name in w.Subnets()
      ensures Resolves(w.Subnets()[name].nsg, w, false) && Resolves(w.Subnets()[name].routeTable, w, true)
    {
      assert name in cloud.Subnets() && (group in cloud.groups ==> !Uses(cloud.Subnets()[name], group));
    }
    forall g, nic | g in w.groups && nic in w.groups[g].nics
      ensures w.groups[g].nics[nic].subnet in w.Subnets() && Resolves(w.groups[g].nics[nic].nsg, w, false)
    {
      assert g in cloud.groups && nic in cloud.groups[g].nics;
    }
  }

  /** The subnets of `after` are some of those of `before`, among them all that are in use. */
  ghost predicate OnlyUnusedSubnetsGone(before: Cloud, after: Cloud) {
    && after.groups == before.groups && after.vnet.Some? == before.vnet.Some?
    && after.Subnets().Keys <= before.Subnets().Keys
    && (forall name :: name in after.Subnets() ==> after.Subnets()[name] == before.Subnets()[name])
    && (forall name :: name in before.Subnets() && SubnetInUse(before, name) ==> name in after.Subnets())
  }

  lemma SubnetLeftResolves(before: Cloud, after: Cloud, name: string)
    requires WellFormed(before) && OnlyUnusedSubnetsGone(before, after) && name in after.Subnets()
    ensures Resolves(after.Subnets()[name].nsg, after, false) && Resolves(after.Subnets()[name].routeTable, after, true)
  {
    assert name in before.Subnets();
  }

  lemma NicKeepsItsSubnet(before: Cloud, after: Cloud, g: string, nic: string)
    requires WellFormed(before) && OnlyUnusedSubnetsGone(before, after)
    requires g in after.groups && nic in after.groups[g].nics
    ensures after.groups[g].nics[nic].subnet in after.Subnets() && Resolves(after.groups[g].nics[nic].nsg, after, false)
  {
    assert SubnetInUse(before, before.groups[g].nics[nic].subnet);
  }

  lemma DeleteSubnetsKeepsWellFormed(before: Cloud, after: Cloud)
    requires WellFormed(before) && OnlyUnusedSubnetsGone(before, after)
    ensures WellFormed(after)
  {
    forall name | name in after.Subnets()
      ensures Resolves(after.Subnets()[name].nsg, after, false)
      ensures Resolves(after.Subnets()[name].routeTable, after, true)
    {
      SubnetLeftResolves(before, after, name);
    }
    forall g, nic | g in after.groups && nic in after.groups[g].nics
      ensures after.groups[g].nics[nic].subnet in after.Subnets()
      ensures Resolves(after.groups[g].nics[nic].nsg, after, false)
    {
      NicKeepsItsSubnet(before, after, g, nic);
    }
  }

  lemma CleanupKeepsWellFormed(before: Cloud, middle: Cloud, after: Cloud, group: string)
    requires var d := Detached(before, group);
             middle == if GroupInUse(d, group) then d else WithoutGroup(d, group)
    requires OnlyUnusedSubnetsGone(middle, after)
    ensures WellFormed(before) ==> WellFormed(after)
  {
    if WellFormed(before) {
      var d := Detached(before, group);
      DetachKeepsWellFormed(before, group);
      if !GroupInUse(d, group) {
        DeleteGroupKeepsWellFormed(d, group);
      }
      DeleteSubnetsKeepsWellFormed(middle, after);
    }
  }

  // ---------- the operation ----------

  /** The VNet while the subnets in `done` have been dealt with. */
  ghost function PartlyDetached(subnets: map<string, Subnet>, done: set<string>): map<string, Subnet> {
    map name | name in subnets ::
      if name in done then subnets[name].(nsg := None, routeTable := None) else subnets[name]
  }

  /** The service's clients, and the cleanup operation that uses them. */
  class CleanupOperation {
    var cloud: Cloud

    method DeleteOneSubnet(name: string) returns (raised: bool)
      requires cloud.vnet.Some?
      modifies this
      ensures raised == SubnetInUse(old(cloud), name)
      ensures cloud == if raised then old(cloud) else old(cloud).(vnet := Some(old(cloud).vnet.value - {name}))
    {
      raised := SubnetInUse(cloud, name);
      if !raised {
        cloud := cloud.(vnet := Some(cloud.vnet.value - {name}));
      }
    }

    method RemoveNsgAndRouteTableFromSubnets(group: string) returns (raised: bool)
      modifies this
      ensures raised == !Succeeds(old(cloud), DetachSubnets, group)
      ensures cloud == Detached(old(cloud), group)
    {
      if cloud.vnet.None? { return true; }
      var listing := cloud.vnet.value;
      var subnets := set name | name in listing && IsSandboxSubnet(name, group);
      var left := subnets;
      assert PartlyDetached(listing, {}) == listing && subnets - left == {};
      while left != {}
        invariant left <= subnets && cloud == old(cloud).(vnet := Some(PartlyDetached(listing, subnets - left)))
        decreases left
      {
        var name :| name in left;
        var subnet := listing[name].(nsg := None, routeTable := None);
        cloud := cloud.(vnet := Some(cloud.vnet.value[name := subnet]));
        assert PartlyDetached(listing, subnets - left)[name := subnet]
            == PartlyDetached(listing, subnets - (left - {name}));
        left := left - {name};
      }
      assert PartlyDetached(listing, subnets - left) == Detached(old(cloud), group).vnet.value;
      raised := false;
    }

    method DeleteResourceGroup(group: string) returns (raised: bool)
      modifies this
      ensures raised == !Succeeds(old(cloud), DeleteGroup, group)
      ensures cloud == if raised then old(cloud) else WithoutGroup(old(cloud), group)
    {
      raised := GroupInUse(cloud, group);
      if !raised {
        cloud := cloud.(groups := cloud.groups - {group});
      }
    }

    /** Stops at the first subnet that cannot be deleted. */
    method DeleteSandboxSubnets(group: string) returns (raised: bool)
      modifies this
      ensures raised == !Succeeds(old(cloud), DeleteSubnets, group)
      ensures !raised ==> cloud == WithoutSubnets(old(cloud), group)
      ensures SameElsewhere(old(cloud), cloud, group)
      ensures OnlyUnusedSubnetsGone(old(cloud), cloud)
    {
      if cloud.vnet.None? { return true; }
      var listing := cloud.vnet.value;
      var subnets := set name | name in listing && IsSandboxSubnet(name, group);
      var left := subnets;
      assert listing - {} == listing && subnets - left == {};
      while left != {}
        invariant left <= subnets && cloud == old(cloud).(vnet := Some(listing - (subnets - left)))
        invariant forall name :: name in subnets - left ==> !SubnetInUse(old(cloud), name)
        decreases left
      {
        var name :| name in left;
        assert SubnetInUse(cloud, name) == SubnetInUse(old(cloud), name);
        raised := DeleteOneSubnet(name);
        if raised { return; }
        assert listing - (subnets - left) - {name} == listing - (subnets - (left - {name}));
        left := left - {name};
      }
      assert cloud.vnet.value == OtherSubnets(old(cloud), group);
      raised := false;
    }

    /** Each command is attempted whatever became of the ones before; `errors` are those that
        raised. */
    method CleanupConnectivity(group: string) returns (errors: set<Command>)
      modifies this
      ensures DetachSubnets in errors <==> old(cloud).vnet.None?
      ensures DeleteGroup in errors <==> GroupInUse(Detached(old(cloud), group), group)
      ensures DeleteSubnets in errors <==>
                || old(cloud).vnet.None?
                || SandboxSubnetInUse(if DeleteGroup in errors then old(cloud) else WithoutGroup(old(cloud), group),
                                      group)
      ensures errors == {} <==> Isolated(old(cloud), group)
      ensures errors == {} ==> cloud == Gone(old(cloud), group)
      ensures SameElsewhere(old(cloud), cloud, group)
      ensures WellFormed(old(cloud)) ==> WellFormed(cloud)
    {
      errors := {};
      var raised := RemoveNsgAndRouteTableFromSubnets(group);
      if raised { errors := errors + {DetachSubnets}; }
      raised := DeleteResourceGroup(group);
      if raised { errors := errors + {DeleteGroup}; }
      ghost var middle := cloud;
      raised := DeleteSandboxSubnets(group);
      if raised { errors := errors + {DeleteSubnets}; }
      CodedOrderSucceeds(old(cloud), group);
      UnfoldThree(old(cloud), DetachSubnets, DeleteGroup, DeleteSubnets, group);
      InUseAfterDetach(old(cloud), group);
      CleanupKeepsWellFormed(old(cloud), middle, cloud, group);
    }
  }

  // ---------- sandboxes as the service names them ----------

  ghost predicate SubnetOf(name: string, group: string) {
    exists cidr :: name == Names.FormatSubnetName(group, cidr)
  }

  /** A subnet that no sandbox takes for its own. */
  ghost predicate Foreign(name: string, cloud: Cloud) {
    forall g :: g in cloud.groups ==> !IsSandboxSubnet(name, g)
  }

  /** The cloud as sandbox preparation and deployment leave it: no group's name is a prefix of
      another's; a sandbox's subnets are named by the name provider and use only its own NSG and
      route tables; its interfaces sit in its own subnets, or in nobody's, behind its own NSGs. */
  ghost predicate WellNamed(cloud: Cloud) {
    && cloud.vnet.Some?
    && (forall g :: g in cloud.groups ==> Names.IsGroupName(g))
    && (forall g, h :: g in cloud.groups && h in cloud.groups && g != h ==> !(g <= h))
    && (forall name, g :: name in cloud.vnet.value && g in cloud.groups && Uses(cloud.vnet.value[name], g) ==>
          SubnetOf(name, g))
    && (forall g, nic :: g in cloud.groups && nic in cloud.groups[g].nics ==>
          var n := cloud.groups[g].nics[nic];
          && (n.nsg.Some? ==> n.nsg.value.group == g)
          && (SubnetOf(n.subnet, g) || Foreign(n.subnet, cloud)))
  }

  /** A sandbox's subnets are its own by name, and no other group's. */
  lemma SubnetBelongsToOne(cloud: Cloud, name: string, owner: string, group: string)
    requires WellNamed(cloud) && owner in cloud.groups && group in cloud.groups && SubnetOf(name, owner)
    ensures IsSandboxSubnet(name, group) <==> owner == group
  {
    var cidr :| name == Names.FormatSubnetName(owner, cidr);
    Names.SubnetNameStartsWithGroup(owner, cidr);
    if owner != group {
      Names.SubnetNameOfOtherGroup(group, owner, cidr);
    }
  }

  lemma WellNamedIsIsolated(cloud: Cloud, group: string)
    requires WellNamed(cloud) && group in cloud.groups
    ensures Isolated(cloud, group) && WellNamed(Gone(cloud, group))
  {
    forall name | name in cloud.vnet.value && !IsSandboxSubnet(name, group)
      ensures !Uses(cloud.vnet.value[name], group)
    {
      if Uses(cloud.vnet.value[name], group) {
        SubnetBelongsToOne(cloud, name, group, group);
      }
    }
    forall g, nic | g in cloud.groups && g != group && nic in cloud.groups[g].nics
      ensures !IsSandboxSubnet(cloud.groups[g].nics[nic].subnet, group)
    {
      var subnet := cloud.groups[g].nics[nic].subnet;
      if SubnetOf(subnet, g) {
        SubnetBelongsToOne(cloud, subnet, g, group);
      }
    }
    var gone := Gone(cloud, group);
    forall g, nic | g in gone.groups && nic in gone.groups[g].nics
      ensures var n := gone.groups[g].nics[nic];
              && (n.nsg.Some? ==> n.nsg.value.group == g)
              && (SubnetOf(n.subnet, g) || Foreign(n.subnet, gone))
    {
      assert g in cloud.groups && nic in cloud.groups[g].nics;
    }
  }

  ghost function GoneAll(cloud: Cloud, groups: seq<string>): Cloud
    decreases |groups|
  {
    if groups == [] then cloud else GoneAll(Gone(cloud, groups[0]), groups[1..])
  }

  ghost predicate EachIsolated(cloud: Cloud, groups: seq<string>)
    decreases |groups|
  {
    groups == [] || (Isolated(cloud, groups[0]) && EachIsolated(Gone(cloud, groups[0]), groups[1..]))
  }

  /** What is left: the other groups, and the subnets whose name starts with none of the deleted. */
  ghost predicate TornDown(before: Cloud, after: Cloud, groups: seq<string>) {
    && before.vnet.Some? && after.vnet.Some?
    && after.groups == before.groups - (set g | g in groups)
    && (forall name :: name in after.vnet.value <==>
          name in before.vnet.value && forall g :: g in groups ==> !IsSandboxSubnet(name, g))
    && (forall name :: name in after.vnet.value ==> after.vnet.value[name] == before.vnet.value[name])
  }

  lemma FirstTornDown(before: Cloud, after: Cloud, groups: seq<string>)
    requires groups != [] && before.vnet.Some? && TornDown(Gone(before, groups[0]), after, groups[1..])
    ensures TornDown(before, after, groups)
  {
    var g, rest := groups[0], groups[1..];
    assert groups == [g] + rest;
    assert (set h | h in groups) == {g} + (set h | h in rest);
    assert before.groups - {g} - (set h | h in rest) == before.groups - (set h | h in groups);
  }

  /** Whatever sandboxes are torn down, in whatever order, every teardown succeeds, and nothing but
      them is gone. */
  lemma {:induction false} TeardownsSucceed(cloud: Cloud, groups: seq<string>)
    requires WellNamed(cloud) && Distinct(groups) && forall g :: g in groups ==> g in cloud.groups
    ensures EachIsolated(cloud, groups) && WellNamed(GoneAll(cloud, groups))
    ensures TornDown(cloud, GoneAll(cloud, groups), groups)
    decreases |groups|
  {
    if groups == [] {
      assert cloud.groups - (set g | g in groups) == cloud.groups;
    } else {
      WellNamedIsIsolated(cloud, groups[0]);
      RestStillThere(cloud, groups);
      TeardownsSucceed(Gone(cloud, groups[0]), groups[1..]);
      FirstTornDown(cloud, GoneAll(cloud, groups), groups);
    }
  }

  lemma RestStillThere(cloud: Cloud, groups: seq<string>)
    requires groups != [] && Distinct(groups) && forall g :: g in groups ==> g in cloud.groups
    ensures Distinct(groups[1..]) && forall g :: g in groups[1..] ==> g in Gone(cloud, groups[0]).groups
  {
    var rest := groups[1..];
    assert forall k :: 0 <= k < |rest| ==> rest[k] == groups[k + 1];
    forall g | g in rest ensures g in groups && g != groups[0] {
      var k :| 0 <= k < |rest| && rest[k] == g;
      assert groups[k + 1] == g;
    }
  }

  // ---------- how the names come about ----------

  /** Creating a sandbox's subnet, with the sandbox's NSG, as sandbox preparation does. */
  ghost function WithSubnet(cloud: Cloud, group: string, cidr: string, nsg: string): Cloud
    requires cloud.vnet.Some?
  {
    cloud.(vnet := Some(cloud.vnet.value[Names.FormatSubnetName(group, cidr)
                                         := Subnet(cidr, Some(Ref(group, nsg)), None)]))
  }

  lemma PreparationKeepsWellNamed(cloud: Cloud, group: string, cidr: string, nsg: string)
    requires WellNamed(cloud) && group in cloud.groups
    ensures WellNamed(WithSubnet(cloud, group, cidr, nsg))
  {
    var r := WithSubnet(cloud, group, cidr, nsg);
    forall g, nic | g in r.groups && nic in r.groups[g].nics
      ensures SubnetOf(r.groups[g].nics[nic].subnet, g) || Foreign(r.groups[g].nics[nic].subnet, r)
    {
      assert SubnetOf(cloud.groups[g].nics[nic].subnet, g) || Foreign(cloud.groups[g].nics[nic].subnet, cloud);
    }
  }

  /** Without network configurations, deployment takes the first subnet of the VNet whose name
      contains the group's name. */
  function DefaultSubnet(listing: seq<string>, group: string): Option<string> {
    if listing == [] then None
    else if Text.Contains(listing[0], group) then Some(listing[0])
    else DefaultSubnet(listing[1..], group)
  }

  lemma {:induction false} DefaultSubnetContains(listing: seq<string>, group: string)
    ensures match DefaultSubnet(listing, group)
            case Some(name) => name in listing && Text.Contains(name, group)
            case None => forall name :: name in listing ==> !Text.Contains(name, group)
  {
    if listing != [] {
      DefaultSubnetContains(listing[1..], group);
      assert forall name :: name in listing <==> name == listing[0] || name in listing[1..];
    }
  }

  /** No group's name contains another's or an underscore, and no subnet's CIDR contains a group's
      name; a subnet that no sandbox made is foreign. */
  ghost predicate ContainmentFree(cloud: Cloud) {
    && (forall g :: g in cloud.groups ==> '_' !in g)
    && (forall g, h :: g in cloud.groups && h in cloud.groups && g != h ==> !Text.Contains(h, g))
    && (forall name :: name in cloud.Subnets() ==> Foreign(name, cloud) || MadeByOne(cloud, name))
  }

  ghost predicate MadeByOne(cloud: Cloud, name: string) {
    exists owner, cidr :: owner in cloud.groups && name == Names.FormatSubnetName(owner, cidr)
                       && forall g :: g in cloud.groups ==> !Text.Contains(Names.CidrText(cidr), g)
  }

  /** Then the default subnet is one of the sandbox's own, or nobody's. */
  lemma DefaultSubnetIsOwn(cloud: Cloud, listing: seq<string>, group: string)
    requires WellNamed(cloud) && ContainmentFree(cloud) && group in cloud.groups
    requires forall name :: name in listing ==> name in cloud.vnet.value
    ensures var chosen := DefaultSubnet(listing, group);
            chosen.Some? ==> SubnetOf(chosen.value, group) || Foreign(chosen.value, cloud)
  {
    DefaultSubnetContains(listing, group);
    var chosen := DefaultSubnet(listing, group);
    if chosen.Some? && !Foreign(chosen.value, cloud) {
      assert chosen.value in cloud.Subnets();
      var owner, cidr :| owner in cloud.groups && chosen.value == Names.FormatSubnetName(owner, cidr)
                         && forall g :: g in cloud.groups ==> !Text.Contains(Names.CidrText(cidr), g);
      Names.SubnetNameContains(group, owner, cidr);
    }
  }

  /** A listing of the VNet's subnets, in any order. */
  ghost predicate IsListing(listing: seq<string>, cloud: Cloud) {
    && (forall name :: name in listing <==> name in cloud.Subnets())
    && Distinct(listing)
  }

  lemma {:induction false} ListTheRest(names: set<string>) returns (listing: seq<string>)
    ensures Distinct(listing) && forall name :: name in listing <==> name in names
    decreases names
  {
    listing := [];
    if names != {} {
      var name :| name in names;
      var rest := ListTheRest(names - {name});
      listing := [name] + rest;
    }
  }

  ghost predicate AlwaysOwn(cloud: Cloud, group: string) {
    forall listing :: IsListing(listing, cloud) ==>
      var chosen := DefaultSubnet(listing, group);
      chosen.Some? ==> SubnetOf(chosen.value, group) || Foreign(chosen.value, cloud)
  }

  /** Whatever the order of the listing, the default subnet is the sandbox's own, or nobody's,
      exactly if every subnet whose name contains the group's is. */
  lemma DefaultSubnetIff(cloud: Cloud, group: string)
    ensures AlwaysOwn(cloud, group)
       <==> forall name :: name in cloud.Subnets() && Text.Contains(name, group) ==>
              SubnetOf(name, group) || Foreign(name, cloud)
  {
    if name :| name in cloud.Subnets() && Text.Contains(name, group)
               && !SubnetOf(name, group) && !Foreign(name, cloud) {
      var rest := ListTheRest(cloud.Subnets().Keys - {name});
      var listing := [name] + rest;
      assert IsListing(listing, cloud) && DefaultSubnet(listing, group) == Some(name);
    } else {
      forall listing | IsListing(listing, cloud)
        ensures var chosen := DefaultSubnet(listing, group);
                chosen.Some? ==> SubnetOf(chosen.value, group) || Foreign(chosen.value, cloud)
      {
        DefaultSubnetContains(listing, group);
      }
    }
  }

  /** In terms of names: containment and prefix agree exactly if no other sandbox that has a subnet
      contains the group's name in its own name or in that subnet's CIDR. */
  lemma DefaultSubnetNames(cloud: Cloud, group: string)
    requires WellNamed(cloud) && group in cloud.groups && '_' !in group
    requires forall name :: name in cloud.Subnets() && !Foreign(name, cloud) ==>
               exists owner :: owner in cloud.groups && SubnetOf(name, owner)
    ensures AlwaysOwn(cloud, group)
       <==> forall owner, cidr :: owner in cloud.groups && owner != group
                                  && Names.FormatSubnetName(owner, cidr) in cloud.Subnets() ==>
              !Text.Contains(owner, group) && !Text.Contains(Names.CidrText(cidr), group)
  {
    DefaultSubnetIff(cloud, group);
    forall owner, cidr | owner in cloud.groups && owner != group
                         && Names.FormatSubnetName(owner, cidr) in cloud.Subnets()
      ensures var name := Names.FormatSubnetName(owner, cidr);
              !SubnetOf(name, group) && !Foreign(name, cloud)
              && (Text.Contains(name, group)
                  <==> Text.Contains(owner, group) || Text.Contains(Names.CidrText(cidr), group))
    {
      AnothersSubnet(cloud, group, owner, cidr);
    }
    forall name | name in cloud.Subnets() && !SubnetOf(name, group) && !Foreign(name, cloud)
      ensures exists owner, cidr :: owner in cloud.groups && owner != group
                                 && name == Names.FormatSubnetName(owner, cidr)
    {
      var owner :| owner in cloud.groups && SubnetOf(name, owner);
      var cidr :| name == Names.FormatSubnetName(owner, cidr);
    }
  }

  lemma AnothersSubnet(cloud: Cloud, group: string, owner: string, cidr: string)
    requires WellNamed(cloud) && group in cloud.groups && owner in cloud.groups && owner != group && '_' !in group
    ensures var name := Names.FormatSubnetName(owner, cidr);
            && !SubnetOf(name, group) && !Foreign(name, cloud)
            && (Text.Contains(name, group)
                <==> Text.Contains(owner, group) || Text.Contains(Names.CidrText(cidr), group))
  {
    var name := Names.FormatSubnetName(owner, cidr);
    assert SubnetOf(name, owner);
    SubnetBelongsToOne(cloud, name, owner, owner);
    SubnetBelongsToOne(cloud, name, owner, group);
    if SubnetOf(name, group) { SubnetBelongsToOne(cloud, name, group, group); }
    Names.SubnetNameContains(group, owner, cidr);
  }

  ghost function WithNic(cloud: Cloud, group: string, name: string, nic: Nic): Cloud
    requires group in cloud.groups
  {
    var g := cloud.groups[group];
    cloud.(groups := cloud.groups[group := g.(nics := g.nics[name := nic])])
  }

  /** So a deployment into the default subnet, behind an NSG of the group, keeps the cloud well
      named. */
  lemma DeploymentKeepsWellNamed(cloud: Cloud, listing: seq<string>, group: string, name: string, nsg: string)
    requires WellNamed(cloud) && ContainmentFree(cloud) && group in cloud.groups
    requires forall n :: n in listing ==> n in cloud.vnet.value
    requires DefaultSubnet(listing, group).Some?
    ensures WellNamed(WithNic(cloud, group, name, Nic(DefaultSubnet(listing, group).value, Some(Ref(group, nsg)))))
  {
    DefaultSubnetIsOwn(cloud, listing, group);
    var nic := Nic(DefaultSubnet(listing, group).value, Some(Ref(group, nsg)));
    var r := WithNic(cloud, group, name, nic);
    forall g, k | g in r.groups && k in r.groups[g].nics
      ensures SubnetOf(r.groups[g].nics[k].subnet, g) || Foreign(r.groups[g].nics[k].subnet, r)
    {
      assert k in cloud.groups[g].nics || (g == group && k == name);
      assert Foreign(r.groups[g].nics[k].subnet, r) <==> Foreign(r.groups[g].nics[k].subnet, cloud);
    }
  }

  lemma NicOfAnotherBlocks(cloud: Cloud, group: string, other: string, nic: string)
    requires cloud.vnet.Some? && other in cloud.groups && other != group && nic in cloud.groups[other].nics
    requires var subnet := cloud.groups[other].nics[nic].subnet;
             subnet in cloud.vnet.value && IsSandboxSubnet(subnet, group)
    ensures !Isolated(cloud, group)
  {
    var w := WithoutGroup(cloud, group);
    assert other in w.groups && w.groups[other] == cloud.groups[other];
    assert SubnetInUse(w, cloud.groups[other].nics[nic].subnet);
  }

  /** Names that are no prefixes of one another are not enough. Where one sandbox's name contains
      another's, as myres1 contains res1, and its subnet is listed first, the other is deployed
      into it, and its teardown can no longer succeed. */
  lemma ContainedNamesCollide(cloud: Cloud, group: string, other: string, cidr: string, rest: seq<string>,
                              name: string, nsg: string)
    requires cloud.vnet.Some? && group in cloud.groups && other in cloud.groups && group != other
    requires Names.IsGroupName(other) && '_' !in group && Text.Contains(other, group)
    requires Names.FormatSubnetName(other, cidr) in cloud.vnet.value
    ensures var subnet := Names.FormatSubnetName(other, cidr);
            && DefaultSubnet([subnet] + rest, group) == Some(subnet)
            && !Isolated(WithNic(cloud, group, name, Nic(subnet, Some(Ref(group, nsg)))), other)
  {
    var subnet := Names.FormatSubnetName(other, cidr);
    Names.SubnetNameContains(group, other, cidr);
    Names.SubnetNameStartsWithGroup(other, cidr);
    NicOfAnotherBlocks(WithNic(cloud, group, name, Nic(subnet, Some(Ref(group, nsg)))), other, group, name);
  }
}
