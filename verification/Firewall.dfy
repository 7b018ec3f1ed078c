/** What an NSG decides about a packet, and why the order in which rules were created is the order
    in which they are evaluated. */
module Firewall {
  import opened Wrappers
  import opened PriorityAllocator
  import opened SecurityGroup
  import Text

  // ---------- evaluation ----------

  type Address = nat

  datatype Packet = Packet(source: Address, destination: Address, port: nat, protocol: string)

  /** A reading of rule texts: which addresses an address prefix or service tag covers, which ports
      a port range covers, which protocols a protocol text covers. Results hold for every reading
      in which "*" covers everything. */
  datatype Reading = Reading(
    covers: (string, Address) -> bool,
    coversPort: (string, nat) -> bool,
    coversProtocol: (string, string) -> bool)
  {
    ghost predicate StarIsAny() {
      && (forall a :: covers("*", a))
      && (forall n :: coversPort("*", n))
      && (forall t :: coversProtocol("*", t))
    }
  }

  predicate Matches(m: Reading, rule: SecurityRule, packet: Packet) {
    && m.covers(rule.source, packet.source)
    && m.covers(rule.destination, packet.destination)
    && m.coversPort(rule.portRange, packet.port)
    && m.coversProtocol(rule.protocol, packet.protocol)
  }

  ghost function Hits(nsg: Nsg, m: Reading, packet: Packet): set<string> {
    set n | n in nsg && Matches(m, nsg[n], packet)
  }

  ghost predicate IsFirst(nsg: Nsg, hits: set<string>, n: string) {
    n in hits && n in nsg && forall h :: h in hits && h in nsg ==> nsg[n].priority <= nsg[h].priority
  }

  lemma {:induction false} FirstExists(nsg: Nsg, hits: set<string>)
    requires hits != {} && hits <= nsg.Keys
    ensures exists n :: IsFirst(nsg, hits, n)
    decreases hits
  {
    var x :| x in hits;
    if hits == {x} {
      assert IsFirst(nsg, hits, x);
    } else {
      FirstExists(nsg, hits - {x});
      var y :| IsFirst(nsg, hits - {x}, y);
      var n := if nsg[x].priority < nsg[y].priority then x else y;
      forall h | h in hits ensures nsg[n].priority <= nsg[h].priority {
        assert h == x || h in hits - {x};
      }
      assert IsFirst(nsg, hits, n);
    }
  }

  /** The access of the matching rule of lowest priority number. */
  ghost function FirstMatch(nsg: Nsg, m: Reading, packet: Packet): Option<Access> {
    var hits := Hits(nsg, m, packet);
    if hits == {} then None
    else
      FirstExists(nsg, hits);
      var n :| IsFirst(nsg, hits, n);
      Some(nsg[n].access)
  }

  /** With distinct priorities the decision does not depend on how ties are broken. */
  lemma FirstMatchIff(nsg: Nsg, m: Reading, packet: Packet, access: Access)
    requires DistinctPriorities(nsg)
    ensures FirstMatch(nsg, m, packet) == Some(access)
       <==> exists n :: IsFirst(nsg, Hits(nsg, m, packet), n) && nsg[n].access == access
  {
    var hits := Hits(nsg, m, packet);
    if hits != {} {
      FirstExists(nsg, hits);
      forall a, b | IsFirst(nsg, hits, a) && IsFirst(nsg, hits, b) ensures a == b {
        assert nsg[a].priority == nsg[b].priority;
      }
    }
  }

  /** The port of a packet is one that the request asks for. */
  ghost predicate PortRequested(m: Reading, request: RuleRequest, port: nat) {
    forall text :: IsPortText(text, request) ==> m.coversPort(text, port)
  }

  /** A rule written by a batch matches exactly the packets to the given destination on the
      request's ports and protocol: for an app's port rule those from its own origin, for other rule
      data those from the source of the call. */
  lemma BatchRuleMatches(nsg: Nsg, requests: seq<RuleRequest>, destination: string, source: string, start: int,
                         k: nat, m: Reading, packet: Packet)
    requires ExplicitlyNamed(requests) && k < |requests| && IsLast(requests, k)
    ensures var r := CreateRules(nsg, requests, destination, source, start);
            && requests[k].name in r
            && r[requests[k].name].access == (if requests[k].RuleData? then requests[k].access else Allow)
            && start <= r[requests[k].name].priority
            && (Matches(m, r[requests[k].name], packet)
                <==> && m.covers(if requests[k].PortData? then requests[k].origin else source, packet.source)
                     && m.covers(destination, packet.destination)
                     && PortRequested(m, requests[k], packet.port)
                     && m.coversProtocol(requests[k].protocol, packet.protocol))
  {
    BatchOutcome(nsg, Priorities(nsg), requests, destination, source, start, k);
    YieldsBounds(Priorities(nsg), start, |requests|, k);
    PortTextIsOne(CreateRules(nsg, requests, destination, source, start)[requests[k].name].portRange, requests[k],
                  m, packet.port);
  }

  lemma PortTextIsOne(text: string, request: RuleRequest, m: Reading, port: nat)
    requires IsPortText(text, request)
    ensures PortRequested(m, request, port) <==> m.coversPort(text, port)
  {
    assert forall other :: IsPortText(other, request) ==> other == text;
  }

  // ---------- layered construction ----------

  /** A single-rule call to the rule service. */
  datatype Step = Step(request: RuleRequest, destination: string, source: string, start: int)

  function StepRule(step: Step, priority: int): SecurityRule {
    PrepareRule(step.request, step.destination, priority, step.source)
  }

  predicate StepMatches(m: Reading, step: Step, packet: Packet) {
    Matches(m, StepRule(step, 0), packet)
  }

  function StepAccess(step: Step): Access {
    StepRule(step, 0).access
  }

  ghost function Build(nsg: Nsg, steps: seq<Step>): Nsg
    decreases |steps|
  {
    if steps == [] then nsg
    else Build(CreateRules(nsg, [steps[0].request], steps[0].destination, steps[0].source, steps[0].start),
               steps[1..])
  }

  function BatchSteps(requests: seq<RuleRequest>, destination: string, source: string, start: int): (r: seq<Step>)
    ensures |r| == |requests|
  {
    seq(|requests|, k requires 0 <= k < |requests| => Step(requests[k], destination, source, start))
  }

  lemma CreateOne(nsg: Nsg, step: Step)
    ensures CreateRules(nsg, [step.request], step.destination, step.source, step.start)
         == Put(nsg, StepRule(step, NextPriority(Priorities(nsg), step.start)))
  {
    var p := NextPriority(Priorities(nsg), step.start);
    var next := Put(nsg, StepRule(step, p));
    assert [step.request][1..] == [];
    assert CreateFrom(next, Priorities(nsg) + {p}, [], step.destination, step.source, step.start) == next;
  }

  lemma {:induction false} BuildAppend(nsg: Nsg, a: seq<Step>, b: seq<Step>)
    ensures Build(nsg, a + b) == Build(Build(nsg, a), b)
    decreases |a|
  {
    if a == [] {
      assert a + b == b;
    } else {
      assert (a + b)[1..] == a[1..] + b;
      BuildAppend(CreateRules(nsg, [a[0].request], a[0].destination, a[0].source, a[0].start), a[1..], b);
    }
  }

  /** No step's rule replaces a rule already there. */
  ghost predicate FreshlyNamed(nsg: Nsg, steps: seq<Step>)
    decreases |steps|
  {
    steps == [] ||
    var p := NextPriority(Priorities(nsg), steps[0].start);
    && RuleName(steps[0].request, p) !in nsg
    && FreshlyNamed(Put(nsg, StepRule(steps[0], p)), steps[1..])
  }

  lemma PutFresh(nsg: Nsg, rule: SecurityRule)
    requires rule.name !in nsg
    ensures Priorities(Put(nsg, rule)) == Priorities(nsg) + {rule.priority}
  {
    var r := Put(nsg, rule);
    forall y ensures y in Priorities(r) <==> y in Priorities(nsg) + {rule.priority} {
      if y in Priorities(nsg) {
        var n :| n in nsg && nsg[n].priority == y;
        assert r[n].priority == y;
      }
      assert r[rule.name].priority == rule.priority;
    }
  }

  /** One batch of freshly named rules gives the NSG that as many one-rule calls give: the
      generator's state after k values is that of a new generator on the NSG written so far. */
  lemma {:induction false} BatchIsSingles(nsg: Nsg, requests: seq<RuleRequest>,
                                          destination: string, source: string, start: int)
    requires FreshlyNamed(nsg, BatchSteps(requests, destination, source, start))
    ensures CreateRules(nsg, requests, destination, source, start)
         == Build(nsg, BatchSteps(requests, destination, source, start))
    decreases |requests|
  {
    var steps := BatchSteps(requests, destination, source, start);
    if requests != [] {
      var p := NextPriority(Priorities(nsg), start);
      var rule := StepRule(steps[0], p);
      CreateOne(nsg, steps[0]);
      PutFresh(nsg, rule);
      assert steps[1..] == BatchSteps(requests[1..], destination, source, start);
      BatchIsSingles(Put(nsg, rule), requests[1..], destination, source, start);
    }
  }

  // ---------- priorities grow ----------

  /** All priorities are multiples of the step up to `last`, and from `start` up to `last` all of
      them are in use. */
  ghost predicate Packed(taken: set<int>, start: int, last: int) {
    && OnGrid(taken) && start % 5 == 0 && last % 5 == 0
    && (forall y :: y in taken ==> y <= last)
    && (forall q :: start <= q <= last && q % 5 == 0 ==> q in taken)
  }

  function Max(a: int, b: int): int { if a < b then b else a }

  /** On a packed NSG the next priority is the later of the requested start and the next slot: an
      overfull stage pushes the next stage up instead of interleaving with it. */
  lemma PackedNext(taken: set<int>, start: int, last: int, next: int)
    requires Packed(taken, start, last) && start <= next && next % 5 == 0
    ensures NextPriority(taken, next) == Max(next, last + STEP)
    ensures Packed(taken + {Max(next, last + STEP)}, next, Max(next, last + STEP))
  {
    var p := NextPriority(taken, next);
    LeastUnusedMultiple(taken, next - STEP);
    var q := Max(next, last + STEP);
    assert q !in taken && q % 5 == 0;
    assert p <= q;
    if p <= last {
      MultiplesApart(next - STEP, p);
    } else {
      MultiplesApart(last, p);
      MultiplesApart(next - STEP, p);
    }
    forall r | next <= r <= q && r % 5 == 0 ensures r in taken + {q} {
      if r > last && r != q {
        MultiplesApart(last, r);
      }
    }
  }

  ghost predicate OrderedStarts(start: int, steps: seq<Step>)
    decreases |steps|
  {
    steps == [] || (start <= steps[0].start && steps[0].start % 5 == 0 && OrderedStarts(steps[0].start, steps[1..]))
  }

  /** The priorities of the steps, in order: each is the later of its start and the next slot. */
  function StepPriorities(last: int, steps: seq<Step>): (r: seq<int>)
    ensures |r| == |steps|
    decreases |steps|
  {
    if steps == [] then []
    else
      var p := Max(steps[0].start, last + STEP);
      [p] + StepPriorities(p, steps[1..])
  }

  /** The first step, in creation order, whose rule matches. */
  function FirstInOrder(m: Reading, steps: seq<Step>, packet: Packet): Option<Access>
    decreases |steps|
  {
    if steps == [] then None
    else if StepMatches(m, steps[0], packet) then Some(StepAccess(steps[0]))
    else FirstInOrder(m, steps[1..], packet)
  }

  lemma PutLast(nsg: Nsg, m: Reading, packet: Packet, step: Step, priority: int)
    requires Consistent(nsg) && forall y :: y in Priorities(nsg) ==> y < priority
    requires StepRule(step, priority).name !in nsg
    ensures FirstMatch(Put(nsg, StepRule(step, priority)), m, packet)
         == OrElse(FirstMatch(nsg, m, packet),
                   if StepMatches(m, step, packet) then Some(StepAccess(step)) else None)
  {
    var rule := StepRule(step, priority);
    var r := Put(nsg, rule);
    var before, after := Hits(nsg, m, packet), Hits(r, m, packet);
    assert Matches(m, rule, packet) == StepMatches(m, step, packet);
    assert after == if StepMatches(m, step, packet) then before + {rule.name} else before;
    assert forall n :: n in nsg ==> nsg[n].priority in Priorities(nsg);
    if before != {} {
      FirstExists(nsg, before);
      FirstExists(r, after);
      assert forall n :: IsFirst(r, after, n) ==> IsFirst(nsg, before, n);
      forall a, b | IsFirst(nsg, before, a) && IsFirst(nsg, before, b) ensures a == b {
        assert nsg[a].priority == nsg[b].priority;
      }
    } else if after != {} {
      FirstExists(r, after);
      assert after == {rule.name};
    }
  }

  /** Building on a packed NSG extends its evaluation order by the creation order of the steps. */
  lemma {:induction false} BuildExtendsOrder(nsg: Nsg, start: int, last: int, steps: seq<Step>,
                                             m: Reading, packet: Packet)
    requires Consistent(nsg) && Packed(Priorities(nsg), start, last)
    requires OrderedStarts(start, steps) && FreshlyNamed(nsg, steps)
    ensures FirstMatch(Build(nsg, steps), m, packet)
         == OrElse(FirstMatch(nsg, m, packet), FirstInOrder(m, steps, packet))
    decreases |steps|
  {
    if steps != [] {
      var step := steps[0];
      var p := Max(step.start, last + STEP);
      PackedNext(Priorities(nsg), start, last, step.start);
      CreateOne(nsg, step);
      var rule := StepRule(step, p);
      PutFresh(nsg, rule);
      PutKeepsConsistentFresh(nsg, rule, Priorities(nsg));
      PutLast(nsg, m, packet, step, p);
      BuildExtendsOrder(Put(nsg, rule), step.start, p, steps[1..], m, packet);
    }
  }

  /** On a fresh NSG the evaluation order is the creation order, even when one stage of rules
      overflows into the range of the next. */
  lemma EvaluationOrderIsCreationOrder(steps: seq<Step>, m: Reading, packet: Packet)
    requires steps != [] && OrderedStarts(steps[0].start, steps) && FreshlyNamed(map[], steps)
    ensures FirstMatch(Build(map[], steps), m, packet) == FirstInOrder(m, steps, packet)
  {
    EmptyIsPacked(steps[0].start);
    BuildExtendsOrder(map[], steps[0].start, steps[0].start - STEP, steps, m, packet);
    assert Hits(map[], m, packet) == {};
  }

  lemma EmptyIsPacked(start: int)
    requires start % 5 == 0
    ensures Consistent(map[]) && Packed(Priorities(map[]), start, start - STEP)
  {
    assert Priorities(map[]) == {};
  }

  /** What is written stays, and the new priorities are exactly those of the steps. */
  lemma {:induction false} BuildPriorities(nsg: Nsg, start: int, last: int, steps: seq<Step>)
    requires Consistent(nsg) && Packed(Priorities(nsg), start, last)
    requires OrderedStarts(start, steps) && FreshlyNamed(nsg, steps)
    ensures Priorities(Build(nsg, steps)) == Priorities(nsg) + set y | y in StepPriorities(last, steps)
    ensures forall n :: n in nsg ==> n in Build(nsg, steps) && Build(nsg, steps)[n] == nsg[n]
    ensures Consistent(Build(nsg, steps))
    decreases |steps|
  {
    if steps != [] {
      var step := steps[0];
      var p := Max(step.start, last + STEP);
      PackedNext(Priorities(nsg), start, last, step.start);
      CreateOne(nsg, step);
      var rule := StepRule(step, p);
      PutFresh(nsg, rule);
      PutKeepsConsistentFresh(nsg, rule, Priorities(nsg));
      BuildPriorities(Put(nsg, rule), step.start, p, steps[1..]);
    }
  }

  /** Every name is that of an explicitly named step, or was there before. */
  lemma {:induction false} BuiltName(nsg: Nsg, steps: seq<Step>, n: string)
    requires n in Build(nsg, steps) && forall k :: 0 <= k < |steps| ==> steps[k].request.name != ""
    ensures n in nsg || exists k :: 0 <= k < |steps| && n == steps[k].request.name
    decreases |steps|
  {
    if steps != [] {
      var s, rest := steps[0], steps[1..];
      CreateOne(nsg, s);
      assert s.request.name != "";
      assert forall k :: 0 <= k < |rest| ==> rest[k] == steps[k + 1];
      BuiltName(CreateRules(nsg, [s.request], s.destination, s.source, s.start), rest, n);
    }
  }

  /** The k-th step's rule carries the k-th priority. */
  lemma {:induction false} StepOutcome(nsg: Nsg, start: int, last: int, steps: seq<Step>, k: nat)
    requires Consistent(nsg) && Packed(Priorities(nsg), start, last)
    requires OrderedStarts(start, steps) && FreshlyNamed(nsg, steps) && k < |steps|
    ensures var rule := StepRule(steps[k], StepPriorities(last, steps)[k]);
            rule.name in Build(nsg, steps) && Build(nsg, steps)[rule.name] == rule
    decreases |steps|
  {
    var step := steps[0];
    var p := Max(step.start, last + STEP);
    PackedNext(Priorities(nsg), start, last, step.start);
    CreateOne(nsg, step);
    var rule := StepRule(step, p);
    PutFresh(nsg, rule);
    PutKeepsConsistentFresh(nsg, rule, Priorities(nsg));
    if k == 0 {
      BuildPriorities(Put(nsg, rule), step.start, p, steps[1..]);
    } else {
      StepOutcome(Put(nsg, rule), step.start, p, steps[1..], k - 1);
    }
  }

  /** Every step adds one rule. */
  lemma {:induction false} BuildSize(nsg: Nsg, steps: seq<Step>)
    requires FreshlyNamed(nsg, steps)
    ensures |Build(nsg, steps)| == |nsg| + |steps|
    decreases |steps|
  {
    if steps != [] {
      var rule := StepRule(steps[0], NextPriority(Priorities(nsg), steps[0].start));
      CreateOne(nsg, steps[0]);
      assert Put(nsg, rule).Keys == nsg.Keys + {rule.name};
      assert |Put(nsg, rule).Keys| == |nsg.Keys| + 1;
      BuildSize(Put(nsg, rule), steps[1..]);
    }
  }

  /** Priorities strictly increase in creation order. */
  lemma {:induction false} StepPrioritiesIncrease(last: int, steps: seq<Step>, j: nat, k: nat)
    requires j < k < |steps|
    ensures last < StepPriorities(last, steps)[j] < StepPriorities(last, steps)[k]
    decreases |steps|
  {
    var p := Max(steps[0].start, last + STEP);
    if j > 0 {
      StepPrioritiesIncrease(p, steps[1..], j - 1, k - 1);
    } else if k > 1 {
      StepPrioritiesIncrease(p, steps[1..], 0, k - 1);
    }
  }

  // ---------- names that stay fresh ----------

  /** Named steps have pairwise distinct names, none of which looks like a generated one. */
  ghost predicate WellNamed(steps: seq<Step>) {
    && (forall k :: 0 <= k < |steps| ==> !Text.StartsWith(steps[k].request.name, "rule_"))
    && (forall j, k :: 0 <= j < k < |steps| && steps[j].request.name != "" ==>
          steps[j].request.name != steps[k].request.name)
  }

  ghost predicate NoClash(nsg: Nsg, steps: seq<Step>) {
    forall n :: n in nsg ==>
      || n == "rule_" + Text.Decimal(nsg[n].priority)
      || (!Text.StartsWith(n, "rule_") && forall k :: 0 <= k < |steps| ==> steps[k].request.name != n)
  }

  /** Distinct names, given or made from a priority, never replace one another. */
  lemma {:induction false} WellNamedIsFresh(nsg: Nsg, steps: seq<Step>)
    requires Consistent(nsg) && WellNamed(steps) && NoClash(nsg, steps)
    ensures FreshlyNamed(nsg, steps)
    decreases |steps|
  {
    if steps != [] {
      var step := steps[0];
      var p := NextPriority(Priorities(nsg), step.start);
      var rule := StepRule(step, p);
      FirstGapBounds(Priorities(nsg), step.start - STEP);
      NameIsFresh(nsg, steps, p);
      PutKeepsConsistentFresh(nsg, rule, Priorities(nsg));
      assert forall k :: 0 <= k < |steps| - 1 ==> steps[1..][k] == steps[k + 1];
      WellNamedIsFresh(Put(nsg, rule), steps[1..]);
    }
  }

  lemma NameIsFresh(nsg: Nsg, steps: seq<Step>, p: int)
    requires steps != [] && WellNamed(steps) && NoClash(nsg, steps) && p !in Priorities(nsg)
    ensures RuleName(steps[0].request, p) !in nsg
  {
    var name := RuleName(steps[0].request, p);
    if name in nsg {
      var q := nsg[name].priority;
      assert q in Priorities(nsg);
      var given, made := steps[0].request.name, "rule_" + Text.Decimal(p);
      assert "rule_" <= made && "rule_" <= "rule_" + Text.Decimal(q);
      if given == "" {
        assert made[5..] == Text.Decimal(p) && ("rule_" + Text.Decimal(q))[5..] == Text.Decimal(q);
        if Text.Decimal(p) == Text.Decimal(q) { Text.DecimalInjective(p, q); }
      }
    }
  }
}
