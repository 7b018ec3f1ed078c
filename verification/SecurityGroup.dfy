/** Network security groups: how inbound rules are prepared, given priorities and stored. */
module SecurityGroup {
  import opened Wrappers
  import opened PriorityAllocator
  import Text

  datatype Access = Allow | Deny

  const INTERNET := "Internet"

  /** The two kinds of rule data a caller may pass. An empty name or port stands for none. */
  datatype RuleRequest =
    | RuleData(name: string, protocol: string, port: string, fromPort: string, toPort: string, access: Access)
    | PortData(name: string, protocol: string, fromPort: string, toPort: string, origin: string)

  datatype SecurityRule = SecurityRule(
    name: string, access: Access, source: string, destination: string,
    portRange: string, protocol: string, priority: int)

  /** The rules of one NSG by name: creating a rule under a name in use replaces that rule. */
  type Nsg = map<string, SecurityRule>

  function RuleName(request: RuleRequest, priority: int): string {
    if request.name != "" then request.name else "rule_" + Text.Decimal(priority)
  }

  function PortRange(request: RuleRequest): string {
    match request
    case RuleData(_, _, port, from, to, _) => if port != "" then port else from + "-" + to
    case PortData(_, _, from, to, _) => if from == to then from else from + "-" + to
  }

  function PrepareRule(request: RuleRequest, destination: string, priority: int, source: string): SecurityRule {
    SecurityRule(
      RuleName(request, priority),
      if request.RuleData? then request.access else Allow,
      if request.PortData? then request.origin else source,
      destination, PortRange(request), request.protocol, priority)
  }

  // ---------- a batch of rules ----------

  ghost function Priorities(nsg: Nsg): set<int> {
    set n | n in nsg :: nsg[n].priority
  }

  ghost predicate DistinctPriorities(nsg: Nsg) {
    forall a, b :: a in nsg && b in nsg && nsg[a].priority == nsg[b].priority ==> a == b
  }

  ghost predicate KeyedByName(nsg: Nsg) {
    forall n :: n in nsg ==> nsg[n].name == n
  }

  function Put(nsg: Nsg, rule: SecurityRule): Nsg {
    nsg[rule.name := rule]
  }

  /** Write the requests in order, drawing priorities from a generator that holds `taken`. */
  ghost function CreateFrom(nsg: Nsg, taken: set<int>, requests: seq<RuleRequest>,
                            destination: string, source: string, start: int): Nsg
    decreases |requests|
  {
    if requests == [] then nsg
    else
      var p := NextPriority(taken, start);
      CreateFrom(Put(nsg, PrepareRule(requests[0], destination, p, source)),
                 taken + {p}, requests[1..], destination, source, start)
  }

  /** One locked call: list the NSG, then write the batch. */
  ghost function CreateRules(nsg: Nsg, requests: seq<RuleRequest>,
                             destination: string, source: string, start: int): Nsg {
    CreateFrom(nsg, Priorities(nsg), requests, destination, source, start)
  }

  class NetworkSecurityGroup {
    var rules: Nsg

    constructor ()
      ensures rules == map[]
    {
      rules := map[];
    }

    /** The listing of the rules, in no particular order. */
    method List() returns (listing: seq<SecurityRule>)
      ensures forall r :: r in listing <==> r in rules.Values
    {
      listing := [];
      var names := rules.Keys;
      while names != {}
        invariant names <= rules.Keys
        invariant forall r :: r in listing <==> exists n :: n in rules && n !in names && rules[n] == r
        decreases names
      {
        var name :| name in names;
        listing := listing + [rules[name]];
        names := names - {name};
      }
    }

    /** Runs with the NSG's lock held. */
    method CreateNetworkSecurityGroupRules(requests: seq<RuleRequest>, destination: string,
                                           source: string, startFrom: Option<int>)
      modifies this
      ensures rules == CreateRules(old(rules), requests, destination, source,
                                   if startFrom.Some? then startFrom.value else RULE_DEFAULT_PRIORITY)
      ensures ExplicitlyNamed(requests) ==>
                Written(old(rules), rules, requests, destination, source,
                        if startFrom.Some? then startFrom.value else RULE_DEFAULT_PRIORITY)
    {
      var start := if startFrom.Some? then startFrom.value else RULE_DEFAULT_PRIORITY;
      var listing := List();
      var existing := seq(|listing|, k requires 0 <= k < |listing| => listing[k].priority);
      var generator := new RulePriorityGenerator(existing, start);
      ListingPriorities(rules, listing, existing);
      var k := 0;
      while k < |requests|
        invariant 0 <= k <= |requests| && fresh(generator)
        invariant generator.Valid() && generator.start == start
        invariant CreateFrom(rules, generator.taken, requests[k..], destination, source, start)
               == CreateRules(old(rules), requests, destination, source, start)
      {
        var priority := generator.Next();
        assert requests[k..][1..] == requests[k + 1..];
        rules := Put(rules, PrepareRule(requests[k], destination, priority, source));
        k := k + 1;
      }
      assert requests[k..] == [];
      if ExplicitlyNamed(requests) { WrittenAtOnce(old(rules), requests, destination, source, start); }
    }
  }

  lemma ListingPriorities(rules: Nsg, listing: seq<SecurityRule>, existing: seq<int>)
    requires forall r :: r in listing <==> r in rules.Values
    requires |existing| == |listing|
    requires forall k :: 0 <= k < |listing| ==> existing[k] == listing[k].priority
    ensures (set y | y in existing) == Priorities(rules)
  {
    forall y ensures y in existing <==> y in Priorities(rules) {
      if y in existing {
        var k :| 0 <= k < |existing| && existing[k] == y;
        assert listing[k] in rules.Values;
      }
      if y in Priorities(rules) {
        var n :| n in rules && rules[n].priority == y;
        assert rules[n] in rules.Values;
        var k :| 0 <= k < |listing| && listing[k] == rules[n];
        assert existing[k] == y;
      }
    }
  }

  // ---------- what every batch keeps ----------

  ghost predicate Consistent(nsg: Nsg) {
    DistinctPriorities(nsg) && KeyedByName(nsg)
  }

  /** Writing a rule whose priority is in use nowhere, or only under its own name. */
  lemma PutKeepsConsistent(nsg: Nsg, rule: SecurityRule)
    requires Consistent(nsg)
    requires forall n :: n in nsg && nsg[n].priority == rule.priority ==> n == rule.name
    ensures Consistent(Put(nsg, rule))
    ensures Priorities(Put(nsg, rule)) <= Priorities(nsg) + {rule.priority}
  {
    var r := Put(nsg, rule);
    forall n | n in r ensures r[n].priority in Priorities(nsg) + {rule.priority} {
      assert n != rule.name ==> nsg[n].priority in Priorities(nsg);
    }
  }

  lemma PutKeepsConsistentFresh(nsg: Nsg, rule: SecurityRule, taken: set<int>)
    requires Consistent(nsg) && Priorities(nsg) <= taken && rule.priority !in taken
    ensures Consistent(Put(nsg, rule)) && Priorities(Put(nsg, rule)) <= taken + {rule.priority}
  {
    assert forall n :: n in nsg ==> nsg[n].priority in Priorities(nsg);
    PutKeepsConsistent(nsg, rule);
  }

  /** A batch, including one that replaces rules of the same name, keeps all priorities of the NSG
      pairwise distinct, keeps them on the grid, and leaves the rules of other names alone. */
  lemma {:induction false} BatchKeepsConsistent(nsg: Nsg, taken: set<int>, requests: seq<RuleRequest>,
                                                destination: string, source: string, start: int)
    requires Consistent(nsg) && Priorities(nsg) <= taken
    ensures var r := CreateFrom(nsg, taken, requests, destination, source, start);
            Consistent(r) && nsg.Keys <= r.Keys
    ensures OnGrid(taken) && start % 5 == 0 ==>
              OnGrid(Priorities(CreateFrom(nsg, taken, requests, destination, source, start)))
    decreases |requests|
  {
    if requests != [] {
      var p := NextPriority(taken, start);
      var rule := PrepareRule(requests[0], destination, p, source);
      FirstGapBounds(taken, start - STEP);
      PutKeepsConsistentFresh(nsg, rule, taken);
      if OnGrid(taken) && start % 5 == 0 {
        OneMoreOnGrid(taken, start);
      }
      BatchKeepsConsistent(Put(nsg, rule), taken + {p}, requests[1..], destination, source, start);
    }
  }

  ghost predicate ExplicitlyNamed(requests: seq<RuleRequest>) {
    forall k :: 0 <= k < |requests| ==> requests[k].name != ""
  }

  /** The k-th request is the last one of its name. */
  ghost predicate IsLast(requests: seq<RuleRequest>, k: nat)
    requires k < |requests|
  {
    forall j :: k < j < |requests| ==> requests[j].name != requests[k].name
  }

  ghost predicate Names(requests: seq<RuleRequest>, name: string) {
    exists k :: 0 <= k < |requests| && requests[k].name == name
  }

  lemma {:induction false} OtherNamesUntouched(nsg: Nsg, taken: set<int>, requests: seq<RuleRequest>,
                                               destination: string, source: string, start: int, name: string)
    requires ExplicitlyNamed(requests) && !Names(requests, name)
    ensures var r := CreateFrom(nsg, taken, requests, destination, source, start);
            (name in r <==> name in nsg) && (name in nsg ==> r[name] == nsg[name])
    decreases |requests|
  {
    if requests != [] {
      var p := NextPriority(taken, start);
      var next := Put(nsg, PrepareRule(requests[0], destination, p, source));
      assert requests[0].name != name && requests[0].name != "";
      assert forall k :: 0 <= k < |requests| - 1 ==> requests[1..][k] == requests[k + 1];
      OtherNamesUntouched(next, taken + {p}, requests[1..], destination, source, start, name);
    }
  }

  // ---------- what a written rule says ----------

  /** The port text of a request: its port or, where it names none, its range; of two equal ends of
      an app's port rule, just that port. */
  ghost predicate IsPortText(text: string, request: RuleRequest) {
    var single := if request.RuleData? then request.port != "" else request.fromPort == request.toPort;
    && (single && request.RuleData? ==> text == request.port)
    && (single && request.PortData? ==> text == request.fromPort)
    && (!single ==> text == request.fromPort + "-" + request.toPort)
  }

  /** The rule carries out the request: an app's port rule allows traffic from its own origin, other
      rule data have their own access and the source of the call. */
  ghost predicate Realizes(rule: SecurityRule, request: RuleRequest, destination: string, source: string) {
    && rule.destination == destination
    && rule.protocol == request.protocol
    && IsPortText(rule.portRange, request)
    && (request.PortData? ==> rule.access == Allow && rule.source == request.origin)
    && (request.RuleData? ==> rule.access == request.access && rule.source == source)
  }

  /** The NSG has a rule of the request's name, and it carries the request out. */
  ghost predicate Carries(nsg: Nsg, request: RuleRequest, destination: string, source: string) {
    && request.name in nsg && nsg[request.name].name == request.name
    && Realizes(nsg[request.name], request, destination, source)
  }

  /** What a batch, also one with unnamed requests, leaves under a name is what was there, or
      carries out one of the requests at a priority that was free. */
  lemma {:induction false} RuleOrigin(nsg: Nsg, taken: set<int>, requests: seq<RuleRequest>,
                                      destination: string, source: string, start: int, n: string)
    requires n in CreateFrom(nsg, taken, requests, destination, source, start)
    ensures var rule := CreateFrom(nsg, taken, requests, destination, source, start)[n];
            || (n in nsg && rule == nsg[n])
            || (&& rule.name == n && start <= rule.priority && rule.priority !in taken
                && exists k :: 0 <= k < |requests| && Realizes(rule, requests[k], destination, source)
                     && n == if requests[k].name != "" then requests[k].name
                             else "rule_" + Text.Decimal(rule.priority))
    decreases |requests|
  {
    if requests != [] {
      var p := NextPriority(taken, start);
      var rule, rest := PrepareRule(requests[0], destination, p, source), requests[1..];
      FirstGapBounds(taken, start - STEP);
      assert Realizes(rule, requests[0], destination, source);
      assert forall k :: 0 <= k < |rest| ==> rest[k] == requests[k + 1];
      RuleOrigin(Put(nsg, rule), taken + {p}, rest, destination, source, start, n);
    }
  }

  /** Each name of an explicitly named batch ends up with the last request of that name and the
      value that the generator gave for it. */
  lemma {:induction false} BatchOutcome(nsg: Nsg, taken: set<int>, requests: seq<RuleRequest>,
                                        destination: string, source: string, start: int, k: nat)
    requires ExplicitlyNamed(requests) && k < |requests| && IsLast(requests, k)
    ensures var r := CreateFrom(nsg, taken, requests, destination, source, start);
            && Carries(r, requests[k], destination, source)
            && r[requests[k].name].priority == Yields(taken, start, |requests|)[k]
    decreases |requests|
  {
    var p := NextPriority(taken, start);
    var next := Put(nsg, PrepareRule(requests[0], destination, p, source));
    var rest := requests[1..];
    assert forall j :: 0 <= j < |rest| ==> rest[j] == requests[j + 1];
    if k == 0 {
      assert requests[0].name != "";
      OtherNamesUntouched(next, taken + {p}, rest, destination, source, start, requests[0].name);
    } else {
      BatchOutcome(next, taken + {p}, rest, destination, source, start, k - 1);
      assert Yields(taken, start, |requests|)[k] == Yields(taken + {p}, start, |requests| - 1)[k - 1];
    }
  }

  /** The rules whose names do not contain `part`. */
  ghost function WithoutPart(nsg: Nsg, part: string): Nsg {
    map n | n in nsg && !Text.Contains(n, part) :: nsg[n]
  }

  /** A batch whose names all contain `part` leaves every other rule alone. */
  lemma {:induction false} BatchTouchesPartOnly(nsg: Nsg, taken: set<int>, requests: seq<RuleRequest>,
                                                destination: string, source: string, start: int, part: string)
    requires forall k :: 0 <= k < |requests| ==> requests[k].name != "" && Text.Contains(requests[k].name, part)
    ensures WithoutPart(CreateFrom(nsg, taken, requests, destination, source, start), part) == WithoutPart(nsg, part)
    decreases |requests|
  {
    if requests != [] {
      var p := NextPriority(taken, start);
      var next := Put(nsg, PrepareRule(requests[0], destination, p, source));
      assert WithoutPart(next, part) == WithoutPart(nsg, part);
      BatchTouchesPartOnly(next, taken + {p}, requests[1..], destination, source, start, part);
    }
  }

  // ---------- aborted and retried batches ----------

  /** Attempts that each stop after a prefix of the batch, then one that completes. Every attempt
      lists the NSG afresh. */
  ghost function Attempts(nsg: Nsg, requests: seq<RuleRequest>, destination: string, source: string,
                          start: int, aborts: seq<nat>): Nsg
    decreases |aborts|
  {
    if aborts == [] then CreateRules(nsg, requests, destination, source, start)
    else
      var written := if aborts[0] <= |requests| then aborts[0] else |requests|;
      Attempts(CreateRules(nsg, requests[..written], destination, source, start),
               requests, destination, source, start, aborts[1..])
  }

  /** Each name carries the last request of that name at a priority not below the start; of two such
      requests the later one has the higher priority number; rules of other names are as before. */
  ghost predicate Written(before: Nsg, after: Nsg, requests: seq<RuleRequest>, destination: string, source: string,
                          start: int) {
    && (forall k :: 0 <= k < |requests| && IsLast(requests, k) ==>
          Carries(after, requests[k], destination, source) && start <= after[requests[k].name].priority)
    && (forall j, k :: 0 <= j < k < |requests| && IsLast(requests, j) && IsLast(requests, k) ==>
          && requests[j].name in after && requests[k].name in after
          && after[requests[j].name].priority < after[requests[k].name].priority)
    && (forall n :: !Names(requests, n) ==>
          (n in after <==> n in before) && (n in before ==> after[n] == before[n]))
  }

  lemma WrittenAtOnce(nsg: Nsg, requests: seq<RuleRequest>, destination: string, source: string, start: int)
    requires ExplicitlyNamed(requests)
    ensures Written(nsg, CreateRules(nsg, requests, destination, source, start), requests, destination, source, start)
  {
    var all := Priorities(nsg);
    var r := CreateRules(nsg, requests, destination, source, start);
    forall k | 0 <= k < |requests| && IsLast(requests, k)
      ensures Carries(r, requests[k], destination, source)
      ensures r[requests[k].name].priority == Yields(all, start, |requests|)[k] >= start
    {
      BatchOutcome(nsg, all, requests, destination, source, start, k);
      YieldsBounds(all, start, |requests|, k);
    }
    forall j, k | 0 <= j < k < |requests|
      ensures Yields(all, start, |requests|)[j] < Yields(all, start, |requests|)[k]
    {
      YieldsIncrease(all, start, |requests|, j, k);
    }
    forall n | !Names(requests, n)
      ensures (n in r <==> n in nsg) && (n in nsg ==> r[n] == nsg[n])
    {
      OtherNamesUntouched(nsg, all, requests, destination, source, start, n);
    }
  }

  /** However often a batch is aborted part-way and retried, in the end each of its names carries
      its own rule, their priorities increase in request order and differ from every other
      priority, and the other rules are as before. A name requested twice stands for its last
      request. */
  lemma {:induction false} RetriedBatch(nsg: Nsg, requests: seq<RuleRequest>, destination: string,
                                        source: string, start: int, aborts: seq<nat>)
    requires Consistent(nsg) && ExplicitlyNamed(requests)
    ensures var r := Attempts(nsg, requests, destination, source, start, aborts);
            Consistent(r) && Written(nsg, r, requests, destination, source, start)
    decreases |aborts|
  {
    var all := Priorities(nsg);
    if aborts == [] {
      BatchKeepsConsistent(nsg, all, requests, destination, source, start);
      WrittenAtOnce(nsg, requests, destination, source, start);
    } else {
      var written := if aborts[0] <= |requests| then aborts[0] else |requests|;
      var part := requests[..written];
      var next := CreateRules(nsg, part, destination, source, start);
      BatchKeepsConsistent(nsg, all, part, destination, source, start);
      RetriedBatch(next, requests, destination, source, start, aborts[1..]);
      forall n | !Names(requests, n)
        ensures (n in next <==> n in nsg) && (n in nsg ==> next[n] == nsg[n])
      {
        assert !Names(part, n);
        OtherNamesUntouched(nsg, all, part, destination, source, start, n);
      }
    }
  }
}
