/** Sandbox preparation when the management VNet is also listed among the additional networks. Its
    rule is then written twice under one name: the second one replaces the first and moves it
    behind the other networks. */
module ListedManagement {
  import opened Wrappers
  import opened PriorityAllocator
  import opened SecurityGroup
  import opened Firewall
  import opened SandboxFirewall
  import Text

  // ---------- moving a rule back ----------

  function Moved(rule: SecurityRule, priority: int): SecurityRule { rule.(priority := priority) }

  /** Moving an allow rule behind rules that all allow changes no decision. */
  lemma MoveBack(nsg: Nsg, name: string, priority: int, m: Reading, packet: Packet)
    requires Consistent(nsg) && name in nsg && nsg[name].access == Allow
    requires forall n :: n in nsg ==> nsg[n].priority < priority
    requires forall n :: n in nsg && nsg[n].priority > nsg[name].priority ==> nsg[n].access == Allow
    ensures FirstMatch(nsg[name := Moved(nsg[name], priority)], m, packet) == FirstMatch(nsg, m, packet)
  {
    var r := nsg[name := Moved(nsg[name], priority)];
    var hits := Hits(nsg, m, packet);
    assert Hits(r, m, packet) == hits;
    assert DistinctPriorities(r);
    if hits != {} {
      FirstExists(nsg, hits);
      FirstExists(r, hits);
      var x :| IsFirst(nsg, hits, x);
      var y :| IsFirst(r, hits, y);
      assert nsg[x].priority <= nsg[y].priority && r[y].priority <= r[x].priority;
      assert nsg[x].access == r[y].access by {
        if x != name { assert y == x; }
      }
      FirstMatchIff(nsg, m, packet, nsg[x].access);
      FirstMatchIff(r, m, packet, r[y].access);
    }
  }

  // ---------- the first stages ----------

  /** Address texts are CIDRs, no subnet is requested twice, no network listed twice, and the
      management VNet is among the networks. */
  ghost predicate Listed(cfg: SandboxConfig) {
    && (forall s :: s in cfg.subnets ==> IsCidrText(s.cidr))
    && (forall a :: a in cfg.additionalNetworks ==> IsCidrText(a))
    && IsCidrText(cfg.sandboxCidr)
    && Distinct(Cidrs(cfg.subnets)) && Distinct(cfg.additionalNetworks)
    && cfg.managementVnetCidr in cfg.additionalNetworks
  }

  /** Up to and with the additional networks the steps are those of a request that does not list
      its management VNet. */
  function Unlisted(cfg: SandboxConfig): SandboxConfig { cfg.(managementVnetCidr := Unused(cfg)) }

  /** A text that is longer than every listed network. */
  function Unused(cfg: SandboxConfig): string { Dots(Longest(cfg.additionalNetworks) + 1) }

  function Longest(texts: seq<string>): (n: nat)
    ensures forall k :: 0 <= k < |texts| ==> |texts[k]| <= n
  {
    if texts == [] then 0
    else
      var n := Longest(texts[1..]);
      assert forall k :: 1 <= k < |texts| ==> texts[k] == texts[1..][k - 1];
      if |texts[0]| > n then |texts[0]| else n
  }

  function Dots(n: nat): (s: string)
    ensures |s| == n && forall c :: c in s ==> c == '.'
  {
    if n == 0 then "" else "." + Dots(n - 1)
  }

  lemma UnlistedIsWellFormed(cfg: SandboxConfig)
    requires Listed(cfg)
    ensures WellFormed(Unlisted(cfg)) && Front(Unlisted(cfg)) == Front(cfg)
  {
    var u := Unlisted(cfg);
    assert SubnetStage(u) == SubnetStage(cfg) && PrivateStage(u) == PrivateStage(cfg);
    assert AdditionalStage(u) == AdditionalStage(cfg);
    var networks := u.additionalNetworks + [u.managementVnetCidr];
    forall j, k | 0 <= j < k < |networks| ensures networks[j] != networks[k] {
      assert k == |networks| - 1 ==> |networks[j]| < |networks[k]|;
    }
  }

  /** The first stages are written freshly, in order, as always. */
  lemma FrontIsFresh(cfg: SandboxConfig)
    requires Listed(cfg)
    ensures FreshlyNamed(map[], Front(cfg)) && OrderedStarts(2000, Front(cfg))
  {
    var u := Unlisted(cfg);
    var tail := [ManagementStep(u), OtherSandboxesStep(u)];
    UnlistedIsWellFormed(cfg);
    StepsAreFresh(u);
    StepsAreOrdered(u);
    assert Steps(u) == Front(cfg) + tail;
    FreshPrefix(map[], Front(cfg), tail);
    OrderedPrefix(2000, Front(cfg), tail);
  }

  lemma {:induction false} FreshPrefix(nsg: Nsg, a: seq<Step>, b: seq<Step>)
    requires FreshlyNamed(nsg, a + b)
    ensures FreshlyNamed(nsg, a)
    decreases |a|
  {
    if a != [] {
      assert (a + b)[0] == a[0] && (a + b)[1..] == a[1..] + b;
      FreshPrefix(Put(nsg, StepRule(a[0], NextPriority(Priorities(nsg), a[0].start))), a[1..], b);
    }
  }

  lemma {:induction false} OrderedPrefix(start: int, a: seq<Step>, b: seq<Step>)
    requires OrderedStarts(start, a + b)
    ensures OrderedStarts(start, a)
    decreases |a|
  {
    if a != [] {
      assert (a + b)[0] == a[0] && (a + b)[1..] == a[1..] + b;
      OrderedPrefix(a[0].start, a[1..], b);
    }
  }

  // ---------- the state after them ----------

  function LastStart(start: int, steps: seq<Step>): int
    decreases |steps|
  {
    if steps == [] then start else LastStart(steps[0].start, steps[1..])
  }

  /** Building with ordered starts leaves no gaps. */
  lemma {:induction false} BuildPacked(nsg: Nsg, start: int, last: int, steps: seq<Step>)
    requires Consistent(nsg) && Packed(Priorities(nsg), start, last)
    requires OrderedStarts(start, steps) && FreshlyNamed(nsg, steps)
    ensures Packed(Priorities(Build(nsg, steps)), LastStart(start, steps), LastPriority(last, steps))
    decreases |steps|
  {
    if steps != [] {
      var step := steps[0];
      var p := Max(step.start, last + STEP);
      var rule := StepRule(step, p);
      PackedNext(Priorities(nsg), start, last, step.start);
      CreateOne(nsg, step);
      PutFresh(nsg, rule);
      PutKeepsConsistentFresh(nsg, rule, Priorities(nsg));
      BuildPacked(Put(nsg, rule), step.start, p, steps[1..]);
    }
  }

  lemma {:induction false} LastStartAppend(start: int, a: seq<Step>, b: seq<Step>)
    ensures LastStart(start, a + b) == LastStart(LastStart(start, a), b)
    decreases |a|
  {
    if a == [] {
      assert a + b == b;
    } else {
      assert (a + b)[0] == a[0] && (a + b)[1..] == a[1..] + b;
      LastStartAppend(a[0].start, a[1..], b);
    }
  }

  lemma {:induction false} LastStartOfStage(start: int, stage: seq<Step>, s: int)
    requires stage != [] && forall k :: 0 <= k < |stage| ==> stage[k].start == s
    ensures LastStart(start, stage) == s
    decreases |stage|
  {
    if |stage| > 1 {
      LastStartOfStage(s, stage[1..], s);
    }
  }

  ghost function FrontNsg(cfg: SandboxConfig): Nsg { Build(map[], Front(cfg)) }

  lemma FrontFacts(cfg: SandboxConfig)
    requires Listed(cfg)
    ensures Consistent(FrontNsg(cfg))
    ensures Packed(Priorities(FrontNsg(cfg)), 4000, LastPriority(1995, Front(cfg)))
    ensures Priorities(FrontNsg(cfg)) == set y | y in StepPriorities(1995, Front(cfg))
  {
    FrontIsFresh(cfg);
    EmptyIsPacked(2000);
    BuildPriorities(map[], 2000, 1995, Front(cfg));
    BuildPacked(map[], 2000, 1995, Front(cfg));
    assert Priorities(map[]) == {};
    LastStartAppend(2000, SubnetStage(cfg) + PrivateStage(cfg), AdditionalStage(cfg));
    LastStartOfStage(LastStart(2000, SubnetStage(cfg) + PrivateStage(cfg)), AdditionalStage(cfg), 4000);
  }

  function IndexOf(texts: seq<string>, text: string): (i: nat)
    requires text in texts
    ensures i < |texts| && texts[i] == text
  {
    if texts[0] == text then 0
    else
      assert texts == [texts[0]] + texts[1..];
      1 + IndexOf(texts[1..], text)
  }

  /** The management VNet's step among the first stages. */
  function ListedStep(cfg: SandboxConfig): (i: nat)
    requires cfg.managementVnetCidr in cfg.additionalNetworks
    ensures EarlyRules(cfg) <= i < |Front(cfg)| && Front(cfg)[i] == NetworkStep(cfg, cfg.managementVnetCidr, 4000)
  {
    EarlyRules(cfg) + IndexOf(cfg.additionalNetworks, cfg.managementVnetCidr)
  }

  function ListedSlot(cfg: SandboxConfig): int
    requires cfg.managementVnetCidr in cfg.additionalNetworks
  {
    NetworkSlot(cfg, IndexOf(cfg.additionalNetworks, cfg.managementVnetCidr))
  }

  lemma NetworkPriorities(cfg: SandboxConfig, j: nat)
    requires j < |cfg.additionalNetworks|
    ensures StepPriorities(1995, Front(cfg))[EarlyRules(cfg) + j] == NetworkSlot(cfg, j)
  {
    var early, networks := SubnetStage(cfg) + PrivateStage(cfg), AdditionalStage(cfg);
    PrioritiesAppend(1995, early, networks);
    StageReach(1995, early, 2000);
    StageSlots(LastPriority(1995, early), networks, 4000, j);
  }

  lemma ListedPriority(cfg: SandboxConfig)
    requires cfg.managementVnetCidr in cfg.additionalNetworks
    ensures StepPriorities(1995, Front(cfg))[ListedStep(cfg)] == ListedSlot(cfg)
  {
    NetworkPriorities(cfg, IndexOf(cfg.additionalNetworks, cfg.managementVnetCidr));
  }

  lemma FrontOutcome(cfg: SandboxConfig, k: nat)
    requires Listed(cfg) && k < |Front(cfg)|
    ensures var rule := StepRule(Front(cfg)[k], StepPriorities(1995, Front(cfg))[k]);
            rule.name in FrontNsg(cfg) && FrontNsg(cfg)[rule.name] == rule
  {
    FrontIsFresh(cfg);
    EmptyIsPacked(2000);
    StepOutcome(map[], 2000, 1995, Front(cfg), k);
  }

  /** Every rule is that of one of the first steps. */
  lemma FrontRule(cfg: SandboxConfig, n: string) returns (k: nat)
    requires Listed(cfg) && n in FrontNsg(cfg)
    ensures k < |Front(cfg)| && FrontNsg(cfg)[n] == StepRule(Front(cfg)[k], StepPriorities(1995, Front(cfg))[k])
    ensures FrontNsg(cfg)[n].name == n
  {
    var nsg, ps := FrontNsg(cfg), StepPriorities(1995, Front(cfg));
    FrontFacts(cfg);
    assert nsg[n].priority in Priorities(nsg);
    k :| 0 <= k < |ps| && ps[k] == nsg[n].priority;
    FrontOutcome(cfg, k);
  }

  /** Whatever lies above the i-th rule, a network's, allows. */
  lemma AboveAllows(cfg: SandboxConfig, i: nat, n: string)
    requires Listed(cfg) && EarlyRules(cfg) <= i < |Front(cfg)| && n in FrontNsg(cfg)
    requires FrontNsg(cfg)[n].priority > StepPriorities(1995, Front(cfg))[i]
    ensures FrontNsg(cfg)[n].access == Allow
  {
    var k := FrontRule(cfg, n);
    if k < i { StepPrioritiesIncrease(1995, Front(cfg), k, i); }
    NetworkRulesAllow(cfg, k);
  }

  lemma NetworkRulesAllow(cfg: SandboxConfig, k: nat)
    requires EarlyRules(cfg) <= k < |Front(cfg)|
    ensures StepRule(Front(cfg)[k], StepPriorities(1995, Front(cfg))[k]).access == Allow
  {
    assert Front(cfg)[k] == AdditionalStage(cfg)[k - EarlyRules(cfg)];
  }

  lemma FrontDecides(m: Reading, cfg: SandboxConfig, packet: Packet)
    requires Listed(cfg) && m.StarIsAny()
    ensures FirstMatch(FrontNsg(cfg), m, packet)
         == if FromSandboxToSubnet(m, cfg, packet) then Some(Allow)
            else if FromInternetToPrivate(m, cfg, packet) then Some(Deny)
            else if FromManagement(m, cfg, packet) then Some(Allow)
            else None
  {
    FrontIsFresh(cfg);
    EmptyIsPacked(2000);
    BuildExtendsOrder(map[], 2000, 1995, Front(cfg), m, packet);
    assert Hits(map[], m, packet) == {};
    FirstInOrderAppend(m, SubnetStage(cfg) + PrivateStage(cfg), AdditionalStage(cfg), packet);
    FirstInOrderAppend(m, SubnetStage(cfg), PrivateStage(cfg), packet);
    SubnetStageDecides(m, cfg, packet);
    PrivateStageDecides(m, cfg, packet);
    NetworksDecide(m, cfg, packet);
  }

  lemma NetworksDecide(m: Reading, cfg: SandboxConfig, packet: Packet)
    requires Listed(cfg) && m.StarIsAny()
    ensures FirstInOrder(m, AdditionalStage(cfg), packet)
         == if FromManagement(m, cfg, packet) then Some(Allow) else None
  {
    NetworkStageDecides(m, cfg, AdditionalStage(cfg), cfg.additionalNetworks, packet);
  }

  // ---------- the last two rules ----------

  ghost function AfterManagement(cfg: SandboxConfig): Nsg {
    Build(FrontNsg(cfg), [ManagementStep(cfg)])
  }

  function ManagementSlot(cfg: SandboxConfig): int { Max(4080, LastPriority(1995, Front(cfg)) + STEP) }

  /** The two rules differ in their priority only. */
  lemma SameRule(cfg: SandboxConfig, q: int, p: int)
    ensures StepRule(ManagementStep(cfg), p)
         == Moved(StepRule(NetworkStep(cfg, cfg.managementVnetCidr, 4000), q), p)
  {
    assert NetworkToSandboxName(cfg.managementVnetCidr, cfg.sandboxCidr)[0] == 'A';
  }

  lemma WrittenAgain(nsg: Nsg, cfg: SandboxConfig, name: string, q: int, p: int)
    requires p == NextPriority(Priorities(nsg), 4080) && name in nsg
    requires nsg[name] == StepRule(NetworkStep(cfg, cfg.managementVnetCidr, 4000), q) && nsg[name].name == name
    ensures Build(nsg, [ManagementStep(cfg)]) == nsg[name := Moved(nsg[name], p)]
  {
    SameRule(cfg, q, p);
    CreateOne(nsg, ManagementStep(cfg));
    assert [ManagementStep(cfg)][1..] == [];
  }

  /** The second management rule replaces the first and lies behind everything. */
  lemma ManagementMoves(cfg: SandboxConfig) returns (name: string)
    requires Listed(cfg)
    ensures name in FrontNsg(cfg)
    ensures FrontNsg(cfg)[name] == StepRule(Front(cfg)[ListedStep(cfg)], ListedSlot(cfg))
    ensures FrontNsg(cfg)[name].access == Allow && FrontNsg(cfg)[name].name == name
    ensures AfterManagement(cfg) == FrontNsg(cfg)[name := Moved(FrontNsg(cfg)[name], ManagementSlot(cfg))]
    ensures Packed(Priorities(FrontNsg(cfg)) + {ManagementSlot(cfg)}, 4080, ManagementSlot(cfg))
    ensures forall n :: n in FrontNsg(cfg) ==> FrontNsg(cfg)[n].priority < ManagementSlot(cfg)
  {
    var nsg, i := FrontNsg(cfg), ListedStep(cfg);
    FrontFacts(cfg);
    FrontOutcome(cfg, i);
    ListedPriority(cfg);
    name := StepRule(Front(cfg)[i], ListedSlot(cfg)).name;
    PackedNext(Priorities(nsg), 4000, LastPriority(1995, Front(cfg)), 4080);
    WrittenAgain(nsg, cfg, name, ListedSlot(cfg), ManagementSlot(cfg));
    assert forall n :: n in nsg ==> nsg[n].priority in Priorities(nsg);
  }

  lemma MovedPriorities(nsg: Nsg, name: string, priority: int)
    requires Consistent(nsg) && name in nsg && priority !in Priorities(nsg)
    ensures var r := nsg[name := Moved(nsg[name], priority)];
            Consistent(r) && Priorities(r) == Priorities(nsg) - {nsg[name].priority} + {priority}
  {
    var r := nsg[name := Moved(nsg[name], priority)];
    assert forall n :: n in nsg ==> nsg[n].priority in Priorities(nsg);
    forall y ensures y in Priorities(r) <==> y in Priorities(nsg) - {nsg[name].priority} + {priority} {
      if y in Priorities(nsg) && y != nsg[name].priority {
        var n :| n in nsg && nsg[n].priority == y;
        assert r[n].priority == y;
      }
      assert r[name].priority == priority;
    }
  }

  lemma DenyNameIsNew(cfg: SandboxConfig)
    requires Listed(cfg)
    ensures DENY_OTHER_SANDBOXES !in FrontNsg(cfg)
  {
    var u, front := Unlisted(cfg), Front(cfg);
    UnlistedIsWellFormed(cfg);
    StepsDistinctNames(u);
    StepsAvoidGeneratedNames(u);
    var tail := [ManagementStep(u), OtherSandboxesStep(u)];
    assert Steps(u) == front + tail;
    assert Steps(u)[|front| + 1].request.name == DENY_OTHER_SANDBOXES;
    assert forall k :: 0 <= k < |front| ==> Steps(u)[k] == front[k];
    if DENY_OTHER_SANDBOXES in FrontNsg(cfg) {
      BuiltName(map[], front, DENY_OTHER_SANDBOXES);
    }
  }

  /** With the hole below 4090, the deny rule still goes behind all others. */
  lemma DenyGoesLast(cfg: SandboxConfig, name: string)
    requires Listed(cfg) && name in FrontNsg(cfg)
    requires FrontNsg(cfg)[name].priority < 4090
    requires AfterManagement(cfg) == FrontNsg(cfg)[name := Moved(FrontNsg(cfg)[name], ManagementSlot(cfg))]
    requires Packed(Priorities(FrontNsg(cfg)) + {ManagementSlot(cfg)}, 4080, ManagementSlot(cfg))
    requires forall n :: n in FrontNsg(cfg) ==> FrontNsg(cfg)[n].priority < ManagementSlot(cfg)
    ensures Consistent(AfterManagement(cfg))
    ensures var p := NextPriority(Priorities(AfterManagement(cfg)), 4090);
            p == Max(4090, ManagementSlot(cfg) + STEP)
            && forall y :: y in Priorities(AfterManagement(cfg)) ==> y < p
  {
    var nsg, p := FrontNsg(cfg), ManagementSlot(cfg);
    FrontFacts(cfg);
    MovedPriorities(nsg, name, p);
    var q, taken := nsg[name].priority, Priorities(AfterManagement(cfg));
    forall r | 4090 <= r <= p && r % 5 == 0 ensures r in taken {
      assert r in Priorities(nsg) + {p};
    }
    assert Packed(taken, 4090, p);
    PackedNext(taken, 4090, p, 4090);
  }

  /** With the hole at 4090 or above, the deny rule falls into it. */
  lemma DenyFillsHole(cfg: SandboxConfig, name: string)
    requires Listed(cfg) && name in FrontNsg(cfg)
    requires 4090 <= FrontNsg(cfg)[name].priority
    requires AfterManagement(cfg) == FrontNsg(cfg)[name := Moved(FrontNsg(cfg)[name], ManagementSlot(cfg))]
    requires Packed(Priorities(FrontNsg(cfg)) + {ManagementSlot(cfg)}, 4080, ManagementSlot(cfg))
    requires forall n :: n in FrontNsg(cfg) ==> FrontNsg(cfg)[n].priority < ManagementSlot(cfg)
    ensures Consistent(AfterManagement(cfg))
    ensures NextPriority(Priorities(AfterManagement(cfg)), 4090) == FrontNsg(cfg)[name].priority
  {
    var nsg, p := FrontNsg(cfg), ManagementSlot(cfg);
    FrontFacts(cfg);
    MovedPriorities(nsg, name, p);
    var q, taken := nsg[name].priority, Priorities(AfterManagement(cfg));
    assert q in Priorities(nsg) && q !in taken && OnGrid(taken);
    LeastUnusedMultiple(taken, 4085);
    var r := NextPriority(taken, 4090);
    MultiplesApart(4085, r);
    assert r <= q;
    assert r < q ==> r in Priorities(nsg) + {p};
  }

  lemma MovedBack(m: Reading, cfg: SandboxConfig, packet: Packet, name: string)
    requires Listed(cfg) && name in FrontNsg(cfg)
    requires FrontNsg(cfg)[name].priority == ListedSlot(cfg) && FrontNsg(cfg)[name].access == Allow
    requires forall n :: n in FrontNsg(cfg) ==> FrontNsg(cfg)[n].priority < ManagementSlot(cfg)
    ensures FirstMatch(FrontNsg(cfg)[name := Moved(FrontNsg(cfg)[name], ManagementSlot(cfg))], m, packet)
         == FirstMatch(FrontNsg(cfg), m, packet)
  {
    var nsg := FrontNsg(cfg);
    ListedPriority(cfg);
    forall n | n in nsg && nsg[n].priority > nsg[name].priority ensures nsg[n].access == Allow {
      AboveAllows(cfg, ListedStep(cfg), n);
    }
    FrontFacts(cfg);
    MoveBack(nsg, name, ManagementSlot(cfg), m, packet);
  }

  /** Moving the management rule changes no decision; the next rule goes behind all others, or, if
      the listed rule was at 4090 or above, to its place. */
  lemma ManagementMovesQuietly(m: Reading, cfg: SandboxConfig, packet: Packet)
    requires Listed(cfg)
    ensures FirstMatch(AfterManagement(cfg), m, packet) == FirstMatch(FrontNsg(cfg), m, packet)
    ensures Consistent(AfterManagement(cfg)) && AfterManagement(cfg).Keys == FrontNsg(cfg).Keys
    ensures var p := NextPriority(Priorities(AfterManagement(cfg)), 4090);
            if ListedSlot(cfg) < 4090 then forall y :: y in Priorities(AfterManagement(cfg)) ==> y < p
            else p == ListedSlot(cfg)
  {
    var name := ManagementMoves(cfg);
    MovedBack(m, cfg, packet, name);
    if ListedSlot(cfg) < 4090 {
      DenyGoesLast(cfg, name);
    } else {
      DenyFillsHole(cfg, name);
    }
  }

  /** Also when the management VNet is listed among the additional networks, the NSG decides every
      packet as the policy says, if its rule among them lies below 4090. */
  lemma BuildMeetsPolicy(m: Reading, cfg: SandboxConfig, packet: Packet)
    requires Listed(cfg) && m.StarIsAny() && ListedSlot(cfg) < 4090
    ensures FirstMatch(Build(map[], Steps(cfg)), m, packet) == Policy(m, cfg, packet)
  {
    var last, deny := AfterManagement(cfg), OtherSandboxesStep(cfg);
    ManagementMovesQuietly(m, cfg, packet);
    FrontDecides(m, cfg, packet);
    DenyNameIsNew(cfg);
    StepsInTurn(cfg);
    AppendLast(last, m, packet, deny);
    assert StepMatches(m, deny, packet)
      <==> m.covers(cfg.sandboxVnetCidr, packet.source) && m.covers(cfg.sandboxCidr, packet.destination);
  }

  lemma AppendLast(nsg: Nsg, m: Reading, packet: Packet, step: Step)
    requires Consistent(nsg) && step.request.name != "" && step.request.name !in nsg
    requires forall y :: y in Priorities(nsg) ==> y < NextPriority(Priorities(nsg), step.start)
    ensures FirstMatch(CreateRules(nsg, [step.request], step.destination, step.source, step.start), m, packet)
         == OrElse(FirstMatch(nsg, m, packet),
                   if StepMatches(m, step, packet) then Some(StepAccess(step)) else None)
  {
    PutLast(nsg, m, packet, step, NextPriority(Priorities(nsg), step.start));
    CreateOne(nsg, step);
  }

  lemma StepsInTurn(cfg: SandboxConfig)
    ensures var deny := OtherSandboxesStep(cfg);
            Build(map[], Steps(cfg))
            == CreateRules(AfterManagement(cfg), [deny.request], deny.destination, deny.source, deny.start)
  {
    var front, management, deny := Front(cfg), [ManagementStep(cfg)], [OtherSandboxesStep(cfg)];
    assert Steps(cfg) == front + management + deny;
    BuildAppend(map[], front + management, deny);
    BuildAppend(map[], front, management);
    assert deny[1..] == [];
  }

  // ---------- the deny rule before the management rule ----------

  /** The sandbox's address range, the sandbox VNet and the networks have different texts. */
  ghost predicate Apart(cfg: SandboxConfig) {
    && IsCidrText(cfg.sandboxVnetCidr) && cfg.sandboxVnetCidr !in cfg.additionalNetworks
    && cfg.sandboxCidr != cfg.sandboxVnetCidr && cfg.sandboxCidr != cfg.managementVnetCidr
  }

  /** Address 1 is in the management VNet and in the sandbox VNet, address 2 in the sandbox. */
  function Overlap(cfg: SandboxConfig): Reading {
    Reading(
      (t, a) => t == "*" || (a == 1 && (t == cfg.managementVnetCidr || t == cfg.sandboxVnetCidr))
                || (a == 2 && t == cfg.sandboxCidr),
      (t, n) => t == "*",
      (t, u) => t == "*")
  }

  const FROM_BOTH := Packet(1, 2, 22, "tcp")

  lemma CidrTextsAreNotServices(text: string)
    requires IsCidrText(text)
    ensures text != INTERNET && text != "*"
  {
    assert text == INTERNET ==> 'I' in text by { assert INTERNET[0] == 'I'; }
    assert text == "*" ==> '*' in text;
  }

  lemma EarlyStepsMiss(cfg: SandboxConfig, k: nat)
    requires Listed(cfg) && Apart(cfg) && k < EarlyRules(cfg)
    ensures !StepMatches(Overlap(cfg), Front(cfg)[k], FROM_BOTH)
  {
    CidrTextsAreNotServices(cfg.managementVnetCidr);
    CidrTextsAreNotServices(cfg.sandboxVnetCidr);
    CidrTextsAreNotServices(cfg.sandboxCidr);
    if k < |cfg.subnets| {
      assert Front(cfg)[k] == SubnetStep(cfg, cfg.subnets[k]);
    } else {
      assert Front(cfg)[k] == PrivateStep(PrivateSubnets(cfg.subnets)[k - |cfg.subnets|]);
    }
  }

  /** Of the first stages, only the management VNet's own rule matches such a packet. */
  lemma OnlyManagementMatches(cfg: SandboxConfig, k: nat)
    requires Listed(cfg) && Apart(cfg) && k < |Front(cfg)| && StepMatches(Overlap(cfg), Front(cfg)[k], FROM_BOTH)
    ensures Front(cfg)[k] == NetworkStep(cfg, cfg.managementVnetCidr, 4000)
  {
    if k < EarlyRules(cfg) { EarlyStepsMiss(cfg, k); }
    var network := cfg.additionalNetworks[k - EarlyRules(cfg)];
    assert Front(cfg)[k] == NetworkStep(cfg, network, 4000) && network in cfg.additionalNetworks;
    CidrTextsAreNotServices(network);
    NetworkStepMatches(Overlap(cfg), cfg, network, 4000, FROM_BOTH);
  }

  lemma PolicyAllowsFromBoth(cfg: SandboxConfig)
    requires Listed(cfg) && Apart(cfg)
    ensures Overlap(cfg).StarIsAny() && Policy(Overlap(cfg), cfg, FROM_BOTH) == Some(Allow)
  {
    CidrTextsAreNotServices(cfg.managementVnetCidr);
    CidrTextsAreNotServices(cfg.sandboxVnetCidr);
    CidrTextsAreNotServices(cfg.sandboxCidr);
  }

  /** Whatever else matches such a packet lies behind the place of the listed rule. */
  lemma OthersLieBehind(cfg: SandboxConfig, n: string)
    requires Listed(cfg) && Apart(cfg) && n in AfterManagement(cfg)
    requires Matches(Overlap(cfg), AfterManagement(cfg)[n], FROM_BOTH)
    ensures AfterManagement(cfg)[n].priority > ListedSlot(cfg)
  {
    var name := ManagementMoves(cfg);
    assert NetworkToSandboxName(cfg.managementVnetCidr, cfg.sandboxCidr)[0] == 'A';
    if n != name {
      var k := FrontRule(cfg, n);
      OnlyManagementMatches(cfg, k);
    }
  }

  /** With the listed rule at 4090 or above, the deny rule comes before the management rule, and a
      packet from an address in both VNets is denied, where the policy allows it. */
  lemma DeniedBeforeManagement(cfg: SandboxConfig)
    requires Listed(cfg) && Apart(cfg) && ListedSlot(cfg) >= 4090
    ensures FirstMatch(Build(map[], Steps(cfg)), Overlap(cfg), FROM_BOTH) == Some(Deny)
  {
    var m, last, deny := Overlap(cfg), AfterManagement(cfg), OtherSandboxesStep(cfg);
    var rule := StepRule(deny, ListedSlot(cfg));
    ManagementMovesQuietly(m, cfg, FROM_BOTH);
    DenyNameIsNew(cfg);
    StepsInTurn(cfg);
    CreateOne(last, deny);
    PolicyAllowsFromBoth(cfg);
    FirstGapBounds(Priorities(last), 4085);
    PutKeepsConsistentFresh(last, rule, Priorities(last));
    var r := Put(last, rule);
    assert rule.name == DENY_OTHER_SANDBOXES && Matches(m, rule, FROM_BOTH);
    forall n | n in Hits(r, m, FROM_BOTH) ensures r[n].priority >= ListedSlot(cfg) {
      if n != rule.name { OthersLieBehind(cfg, n); }
    }
    assert IsFirst(r, Hits(r, m, FROM_BOTH), rule.name);
    FirstMatchIff(r, m, FROM_BOTH, Deny);
  }

  /** With the management VNet listed, the NSG decides every packet, under every reading, as the
      policy says exactly if the listed rule lies below 4090. */
  lemma PolicyIff(cfg: SandboxConfig)
    requires Listed(cfg) && Apart(cfg)
    ensures (forall m: Reading, packet :: m.StarIsAny() ==>
               FirstMatch(Build(map[], Steps(cfg)), m, packet) == Policy(m, cfg, packet))
       <==> ListedSlot(cfg) < 4090
  {
    if ListedSlot(cfg) < 4090 {
      forall m: Reading, packet | m.StarIsAny()
        ensures FirstMatch(Build(map[], Steps(cfg)), m, packet) == Policy(m, cfg, packet)
      {
        BuildMeetsPolicy(m, cfg, packet);
      }
    } else {
      DeniedBeforeManagement(cfg);
      PolicyAllowsFromBoth(cfg);
    }
  }

  // ---------- Azure's range ----------

  lemma FrontEnds(cfg: SandboxConfig)
    requires cfg.additionalNetworks != []
    ensures LastPriority(1995, Front(cfg)) == NetworkSlot(cfg, |cfg.additionalNetworks| - 1)
  {
    var early, networks := SubnetStage(cfg) + PrivateStage(cfg), AdditionalStage(cfg);
    LastPriorityAppend(1995, early, networks);
    StageReach(1995, early, 2000);
    StageReach(LastPriority(1995, early), networks, 4000);
  }

  /** The priority of the deny rule. */
  function DenySlot(cfg: SandboxConfig): int
    requires cfg.managementVnetCidr in cfg.additionalNetworks
  {
    if ListedSlot(cfg) < 4090 then Max(4090, ManagementSlot(cfg) + STEP) else ListedSlot(cfg)
  }

  /** The management rule and the deny rule carry the two highest priorities or, if the deny rule
      fell into the hole, the highest and the listed one. */
  lemma LastTwoListed(cfg: SandboxConfig) returns (name: string)
    requires Listed(cfg)
    ensures var r := Build(map[], Steps(cfg)); var p, d := ManagementSlot(cfg), DenySlot(cfg);
            && name in r && r[name].priority == p
            && DENY_OTHER_SANDBOXES in r && r[DENY_OTHER_SANDBOXES].priority == d
            && forall n :: n in r ==> r[n].priority <= p || r[n].priority == d
  {
    var last, deny := AfterManagement(cfg), OtherSandboxesStep(cfg);
    name := ManagementMoves(cfg);
    if ListedSlot(cfg) < 4090 {
      DenyGoesLast(cfg, name);
    } else {
      DenyFillsHole(cfg, name);
    }
    DenyNameIsNew(cfg);
    StepsInTurn(cfg);
    CreateOne(last, deny);
    assert StepRule(deny, NextPriority(Priorities(last), 4090)).name == DENY_OTHER_SANDBOXES;
  }

  lemma InRangeIff(cfg: SandboxConfig)
    requires Listed(cfg)
    ensures var r := Build(map[], Steps(cfg));
            (forall n :: n in r ==> r[n].priority <= AZURE_MAX_PRIORITY)
            <==> ManagementSlot(cfg) <= AZURE_MAX_PRIORITY && DenySlot(cfg) <= AZURE_MAX_PRIORITY
  {
    var name := LastTwoListed(cfg);
  }

  lemma ListedLast(cfg: SandboxConfig)
    requires Listed(cfg)
    ensures var last := NetworkSlot(cfg, |cfg.additionalNetworks| - 1);
            && last % 5 == 0 && ListedSlot(cfg) % 5 == 0 && ListedSlot(cfg) <= last
            && (cfg.managementVnetCidr == cfg.additionalNetworks[|cfg.additionalNetworks| - 1]
                <==> ListedSlot(cfg) == last)
  {
    var i := IndexOf(cfg.additionalNetworks, cfg.managementVnetCidr);
    var last := |cfg.additionalNetworks| - 1;
    assert i < last ==> cfg.additionalNetworks[i] != cfg.additionalNetworks[last];
  }

  /** With the management VNet listed, the NSG stays within Azure's range exactly if the last
      network's rule gets at most 4085, or gets 4090 and is the management VNet's. In the second
      case the policy fails. */
  lemma FitsAzureExactly(cfg: SandboxConfig)
    requires Listed(cfg)
    ensures var k := |cfg.additionalNetworks|;
            (forall n :: n in Build(map[], Steps(cfg)) ==> Build(map[], Steps(cfg))[n].priority <= AZURE_MAX_PRIORITY)
            <==> || NetworkSlot(cfg, k - 1) <= 4085
                 || (NetworkSlot(cfg, k - 1) == 4090 && cfg.managementVnetCidr == cfg.additionalNetworks[k - 1])
  {
    InRangeIff(cfg);
    FrontEnds(cfg);
    ListedLast(cfg);
    HighestFits(NetworkSlot(cfg, |cfg.additionalNetworks| - 1), ListedSlot(cfg));
  }

  lemma NetworksFit(cfg: SandboxConfig)
    requires cfg.additionalNetworks != []
    ensures NetworkSlot(cfg, |cfg.additionalNetworks| - 1) <= 4085
       <==> |cfg.additionalNetworks| <= 18 && EarlyRules(cfg) + |cfg.additionalNetworks| <= 418
  {
  }

  /** The arithmetic of the last network's slot, the listed slot and the two rules after them. */
  lemma HighestFits(last: int, listed: int)
    requires last % 5 == 0 && listed % 5 == 0 && listed <= last
    ensures var p := Max(4080, last + STEP);
            var d := if listed < 4090 then Max(4090, p + STEP) else listed;
            p <= 4096 && d <= 4096 <==> last <= 4085 || last == listed == 4090
  {
  }

  function NthNetwork(k: nat): string { Text.Natural(k) + ".0.0.0/8" }

  /** Nineteen networks, the management VNet last, and no subnets. */
  const NINETEEN := SandboxConfig([], seq(19, k requires 0 <= k < 19 => NthNetwork(k)), "20.0.0.0/16", NthNetwork(18),
                                  "30.0.0.0/16")

  lemma NthNetworksDiffer(j: nat, k: nat)
    requires j != k
    ensures NthNetwork(j) != NthNetwork(k)
  {
    var a, b := NthNetwork(j), NthNetwork(k);
    assert a[..|a| - 8] == Text.Natural(j) && b[..|b| - 8] == Text.Natural(k);
    if a == b { Text.NaturalInjective(j, k); }
  }

  lemma NthNetworkIsCidr(k: nat)
    ensures IsCidrText(NthNetwork(k))
  {
    forall c | c in NthNetwork(k) ensures Text.IsDigit(c) || c == '.' || c == '/' {
      assert c in Text.Natural(k) || c in ".0.0.0/8";
    }
  }

  lemma NineteenIsListed()
    ensures Listed(NINETEEN) && Apart(NINETEEN)
    ensures EarlyRules(NINETEEN) == 0 && IndexOf(NINETEEN.additionalNetworks, NINETEEN.managementVnetCidr) == 18
  {
    var networks := NINETEEN.additionalNetworks;
    forall j, k | 0 <= j < k < |networks| ensures networks[j] != networks[k] {
      NthNetworksDiffer(j, k);
    }
    forall k | 0 <= k < |networks| ensures IsCidrText(networks[k]) && networks[k][|networks[k]| - 1] == '8' {
      NthNetworkIsCidr(k);
    }
    assert networks[18] == NINETEEN.managementVnetCidr;
    assert "20.0.0.0/16"[10] == '6' && "30.0.0.0/16"[10] == '6' && "20.0.0.0/16"[0] != "30.0.0.0/16"[0];
  }

  /** A request whose rules fit Azure's range and whose NSG denies what the policy allows. */
  lemma NineteenNetworksFail()
    ensures var r := Build(map[], Steps(NINETEEN)); var m := Overlap(NINETEEN);
            && (forall n :: n in r ==> r[n].priority <= AZURE_MAX_PRIORITY)
            && m.StarIsAny() && FirstMatch(r, m, FROM_BOTH) == Some(Deny)
            && Policy(m, NINETEEN, FROM_BOTH) == Some(Allow)
  {
    NineteenIsListed();
    FitsAzureExactly(NINETEEN);
    DeniedBeforeManagement(NINETEEN);
    PolicyAllowsFromBoth(NINETEEN);
  }
}
