/** The resources of one resource group, with referential integrity: a VM uses network interfaces,
    an interface uses a public IP, an NSG and a subnet, a subnet uses an NSG. Creating a resource
    whose references do not exist fails; deleting one that is in use is refused; deleting one that
    does not exist does nothing. */
module ResourceStore {
  import opened Wrappers
  import opened SecurityGroup
  import Text

  datatype Nic = Nic(publicIp: Option<string>, nsg: string, subnet: string)

  datatype Store = Store(
    vms: map<string, seq<string>>,            // VM name to the names of its interfaces
    nics: map<string, Nic>,
    ips: set<string>,
    nsgs: map<string, Nsg>,
    subnets: map<string, Option<string>>)     // subnet name to the NSG attached to it

  predicate NicInUse(st: Store, name: string) {
    exists vm :: vm in st.vms && name in st.vms[vm]
  }

  predicate IpInUse(st: Store, name: string) {
    exists nic :: nic in st.nics && st.nics[nic].publicIp == Some(name)
  }

  predicate NsgInUse(st: Store, name: string) {
    || (exists nic :: nic in st.nics && st.nics[nic].nsg == name)
    || (exists subnet :: subnet in st.subnets && st.subnets[subnet] == Some(name))
  }

  /** Every reference resolves. */
  ghost predicate WellFormed(st: Store) {
    && (forall vm, nic :: vm in st.vms && nic in st.vms[vm] ==> nic in st.nics)
    && (forall nic :: nic in st.nics ==>
          && (st.nics[nic].publicIp.Some? ==> st.nics[nic].publicIp.value in st.ips)
          && st.nics[nic].nsg in st.nsgs && st.nics[nic].subnet in st.subnets)
    && (forall subnet :: subnet in st.subnets && st.subnets[subnet].Some? ==> st.subnets[subnet].value in st.nsgs)
  }

  /** How an operation ends: it completes, raises on its own, or raises on a refused deletion. */
  datatype Outcome = Completed | Raises | Refused

  const SANDBOX_NSG_NAME := "NSG_sandbox_all_subnets_"

  /** The NSGs without those named after the VM, and the sandbox NSGs without its rules. */
  ghost function CleanNsgs(nsgs: map<string, Nsg>, vmName: string): map<string, Nsg> {
    map n | n in nsgs && !Text.Contains(n, vmName) ::
      if Text.Contains(n, SANDBOX_NSG_NAME) then WithoutPart(nsgs[n], vmName) else nsgs[n]
  }

  ghost predicate VmNsgInUse(st: Store, vmName: string) {
    exists n :: n in st.nsgs && Text.Contains(n, vmName) && NsgInUse(st, n)
  }

  /** The service's client for one resource group. */
  class ResourceGroup {
    var st: Store

    method DeleteVm(name: string)
      modifies this
      ensures st == old(st).(vms := old(st).vms - {name})
    {
      st := st.(vms := st.vms - {name});
    }

    method DeleteNic(name: string) returns (outcome: Outcome)
      modifies this
      ensures outcome == if NicInUse(old(st), name) then Refused else Completed
      ensures st == if outcome == Completed then old(st).(nics := old(st).nics - {name}) else old(st)
    {
      if NicInUse(st, name) { return Refused; }
      st := st.(nics := st.nics - {name});
      outcome := Completed;
    }

    method DeleteIp(name: string) returns (outcome: Outcome)
      modifies this
      ensures outcome == if IpInUse(old(st), name) then Refused else Completed
      ensures st == if outcome == Completed then old(st).(ips := old(st).ips - {name}) else old(st)
    {
      if IpInUse(st, name) { return Refused; }
      st := st.(ips := st.ips - {name});
      outcome := Completed;
    }

    method DeleteNsg(name: string) returns (outcome: Outcome)
      modifies this
      ensures outcome == if NsgInUse(old(st), name) then Refused else Completed
      ensures st == if outcome == Completed then old(st).(nsgs := old(st).nsgs - {name}) else old(st)
    {
      if NsgInUse(st, name) { return Refused; }
      st := st.(nsgs := st.nsgs - {name});
      outcome := Completed;
    }

    /** Delete the NSGs named after a VM and its rules in the sandbox NSGs, from a listing taken at
        the start. */
    method DeleteNsgArtifacts(vmName: string) returns (outcome: Outcome)
      modifies this
      ensures outcome == if VmNsgInUse(old(st), vmName) then Refused else Completed
      ensures st == old(st).(nsgs := st.nsgs)
      ensures outcome == Completed ==> st.nsgs == CleanNsgs(old(st).nsgs, vmName)
    {
      var listing := st.nsgs;
      var left := listing.Keys;
      while left != {}
        invariant left <= listing.Keys && st == old(st).(nsgs := Cleaned(listing, vmName, listing.Keys - left))
        invariant forall n :: n in listing && n !in left && Text.Contains(n, vmName) ==> !NsgInUse(old(st), n)
        decreases left
      {
        var n :| n in left;
        CleanedStep(listing, vmName, listing.Keys - left, n);
        assert listing.Keys - left + {n} == listing.Keys - (left - {n});
        if Text.Contains(n, vmName) {
          var deleted := DeleteNsg(n);
          if deleted == Refused { return Refused; }
        }
        if Text.Contains(n, SANDBOX_NSG_NAME) {
          DeleteVmRules(n, listing[n], vmName);
        }
        left := left - {n};
      }
      outcome := Completed;
      assert listing.Keys - left == listing.Keys;
    }

    /** Delete a VM's rules from one NSG, given its listing. */
    method DeleteVmRules(nsg: string, listing: Nsg, vmName: string)
      requires nsg in st.nsgs ==> st.nsgs[nsg] == listing
      modifies this
      ensures st == old(st).(nsgs := st.nsgs)
      ensures st.nsgs == if nsg in old(st).nsgs then old(st).nsgs[nsg := WithoutPart(listing, vmName)] else old(st).nsgs
    {
      var rules := set r | r in listing && Text.Contains(r, vmName);
      var left := rules;
      assert listing - (rules - left) == listing;
      while left != {}
        invariant left <= rules && st == old(st).(nsgs := st.nsgs)
        invariant nsg !in old(st).nsgs ==> st.nsgs == old(st).nsgs
        invariant nsg in old(st).nsgs ==> st.nsgs == old(st).nsgs[nsg := listing - (rules - left)]
        decreases left
      {
        var r :| r in left;
        if nsg in st.nsgs {
          st := st.(nsgs := st.nsgs[nsg := st.nsgs[nsg] - {r}]);
        }
        assert listing - (rules - left) - {r} == listing - (rules - (left - {r}));
        left := left - {r};
      }
      assert listing - (rules - {}) == WithoutPart(listing, vmName);
    }
  }

  /** The NSGs after the artifacts of `done` were dealt with. */
  ghost function Cleaned(nsgs: map<string, Nsg>, vmName: string, done: set<string>): map<string, Nsg> {
    map n | n in nsgs && !(n in done && Text.Contains(n, vmName)) ::
      if n in done && Text.Contains(n, SANDBOX_NSG_NAME) then WithoutPart(nsgs[n], vmName) else nsgs[n]
  }

  lemma CleanedStep(nsgs: map<string, Nsg>, vmName: string, done: set<string>, n: string)
    requires n in nsgs && n !in done
    ensures var c := Cleaned(nsgs, vmName, done);
            && n in c && c[n] == nsgs[n]
            && Cleaned(nsgs, vmName, done + {n})
               == if Text.Contains(n, vmName) then c - {n}
                  else if Text.Contains(n, SANDBOX_NSG_NAME) then c[n := WithoutPart(nsgs[n], vmName)] else c
  {
  }
}
