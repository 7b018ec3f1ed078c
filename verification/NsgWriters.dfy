/** Any number of threads writing one NSG. Rule batches run under the NSG's lock; rules may be
    deleted at any moment by threads that do not hold it. One event is one lock operation, one
    listing, one draw from the priority generator, or one request to the rule service. */
module NsgWriters {
  import opened Wrappers
  import opened PriorityAllocator
  import opened SecurityGroup

  type Tid = nat

  datatype Job = Job(requests: seq<RuleRequest>, destination: string, source: string, start: int)

  /** A rule whose write is under way, and whether the service has applied it. */
  datatype Pending = Pending(rule: SecurityRule, applied: bool)

  /** What a thread is doing. `listed` records the NSG as it was listed, until somebody deletes a
      rule during the batch. */
  datatype Writer =
    | Idle
    | Locked(job: Job)
    | Working(job: Job, taken: set<int>, drawn: seq<int>, pending: Option<Pending>, listed: Option<Nsg>)

  datatype State = State(nsg: Nsg, lock: Option<Tid>, writers: map<Tid, Writer>)

  datatype Event =
    | Acquire(t: Tid, job: Job)  // enter the locked block
    | List(t: Tid)               // list the NSG and start a generator on it
    | Draw(t: Tid)               // resume the generator for the next request
    | Write(t: Tid)              // the rule service applies the write; a retried request applies it again
    | Settle(t: Tid)             // the write's call returns
    | Release(t: Tid)            // leave the locked block, finished or by an exception
    | Delete(name: string)       // somebody deletes a rule, with or without the lock

  ghost predicate Enabled(s: State, e: Event) {
    match e
    case Acquire(t, _) => t in s.writers && s.writers[t].Idle? && s.lock.None?
    case List(t) => t in s.writers && s.writers[t].Locked?
    case Draw(t) =>
      && t in s.writers && s.writers[t].Working? && s.writers[t].pending.None?
      && |s.writers[t].drawn| < |s.writers[t].job.requests|
    case Write(t) => t in s.writers && s.writers[t].Working? && s.writers[t].pending.Some?
    case Settle(t) =>
      t in s.writers && s.writers[t].Working? && s.writers[t].pending.Some? && s.writers[t].pending.value.applied
    case Release(t) => t in s.writers && !s.writers[t].Idle?
    case Delete(_) => true
  }

  ghost function DrawFor(w: Writer): Writer
    requires w.Working? && |w.drawn| < |w.job.requests|
  {
    var p := NextPriority(w.taken, w.job.start);
    var rule := PrepareRule(w.job.requests[|w.drawn|], w.job.destination, p, w.job.source);
    w.(taken := w.taken + {p}, drawn := w.drawn + [p], pending := Some(Pending(rule, false)))
  }

  function Disturb(w: Writer): Writer {
    if w.Working? then w.(listed := None) else w
  }

  ghost function Apply(s: State, e: Event): State
    requires Enabled(s, e)
  {
    match e
    case Acquire(t, job) => s.(lock := Some(t), writers := s.writers[t := Locked(job)])
    case List(t) => s.(writers := s.writers[t := Working(s.writers[t].job, Priorities(s.nsg), [], None, Some(s.nsg))])
    case Draw(t) => s.(writers := s.writers[t := DrawFor(s.writers[t])])
    case Write(t) =>
      var rule := s.writers[t].pending.value.rule;
      State(Put(s.nsg, rule), s.lock, s.writers[t := s.writers[t].(pending := Some(Pending(rule, true)))])
    case Settle(t) => s.(writers := s.writers[t := s.writers[t].(pending := None)])
    case Release(t) => s.(lock := None, writers := s.writers[t := Idle])
    case Delete(name) =>
      State(s.nsg - {name}, s.lock, map t | t in s.writers :: Disturb(s.writers[t]))
  }

  /** A schedule: events that are not enabled when their turn comes have no effect. */
  ghost function Run(s: State, events: seq<Event>): State
    decreases |events|
  {
    if events == [] then s
    else Run(if Enabled(s, events[0]) then Apply(s, events[0]) else s, events[1..])
  }

  // ---------- the invariant ----------

  /** A working writer's set holds every priority now in the NSG and every value it drew; the
      priority of its pending rule is in use under that rule's name or not at all. */
  ghost predicate Covers(w: Writer, nsg: Nsg) {
    w.Working? ==>
      && Priorities(nsg) <= w.taken
      && |w.drawn| <= |w.job.requests|
      && (forall k :: 0 <= k < |w.drawn| ==> w.drawn[k] in w.taken && w.drawn[k] < NextPriority(w.taken, w.job.start))
      && (forall j, k :: 0 <= j < k < |w.drawn| ==> w.drawn[j] < w.drawn[k])
      && (w.pending.Some? ==>
            var rule := w.pending.value.rule;
            && rule.priority in w.taken
            && forall n :: n in nsg && nsg[n].priority == rule.priority ==> n == rule.name)
  }

  ghost function Sequential(job: Job, nsg: Nsg): Nsg {
    CreateRules(nsg, job.requests, job.destination, job.source, job.start)
  }

  /** As long as nobody deletes a rule, finishing the batch from here gives what one uninterrupted
      call on the listed NSG gives. */
  ghost predicate OnTrack(w: Writer, nsg: Nsg) {
    w.Working? && w.listed.Some? ==>
      && |w.drawn| <= |w.job.requests|
      && (w.pending.Some? && w.pending.value.applied ==> Put(nsg, w.pending.value.rule) == nsg)
      && Sequential(w.job, w.listed.value)
         == CreateFrom(if w.pending.Some? then Put(nsg, w.pending.value.rule) else nsg, w.taken,
                       w.job.requests[|w.drawn|..], w.job.destination, w.job.source, w.job.start)
  }

  ghost predicate Inv(s: State) {
    && Consistent(s.nsg)
    && (forall t :: t in s.writers && !s.writers[t].Idle? ==> s.lock == Some(t))
    && (forall t :: t in s.writers ==> Covers(s.writers[t], s.nsg) && OnTrack(s.writers[t], s.nsg))
  }

  lemma DrawKeepsCover(w: Writer, nsg: Nsg)
    requires Covers(w, nsg) && w.Working? && |w.drawn| < |w.job.requests|
    requires OnTrack(w, nsg)
    ensures Covers(DrawFor(w), nsg) && (w.pending.None? ==> OnTrack(DrawFor(w), nsg))
    ensures NextPriority(w.taken, w.job.start) !in Priorities(nsg)
  {
    var p := NextPriority(w.taken, w.job.start);
    FirstGapBounds(w.taken, w.job.start - STEP);
    NextAfterYield(w.taken, w.job.start);
    forall n | n in nsg ensures nsg[n].priority != p {
      assert nsg[n].priority in Priorities(nsg);
    }
    assert w.job.requests[|w.drawn|..][1..] == w.job.requests[|w.drawn| + 1..];
  }

  lemma WriteKeepsInv(s: State, t: Tid)
    requires Inv(s) && Enabled(s, Write(t))
    ensures Inv(Apply(s, Write(t)))
  {
    var rule := s.writers[t].pending.value.rule;
    PutKeepsConsistent(s.nsg, rule);
    assert Put(Put(s.nsg, rule), rule) == Put(s.nsg, rule);
    var r := Apply(s, Write(t));
    forall u | u in r.writers ensures Covers(r.writers[u], r.nsg) && OnTrack(r.writers[u], r.nsg) {
      assert u != t ==> s.writers[u].Idle?;
    }
  }

  lemma PrioritiesShrink(nsg: Nsg, name: string)
    ensures Priorities(nsg - {name}) <= Priorities(nsg)
  {
  }

  lemma ListKeepsInv(s: State, t: Tid)
    requires Inv(s) && Enabled(s, List(t))
    ensures Inv(Apply(s, List(t)))
  {
    var job := s.writers[t].job;
    assert job.requests[0..] == job.requests;
  }

  lemma DeleteKeepsInv(s: State, name: string)
    requires Inv(s)
    ensures Inv(Apply(s, Delete(name)))
  {
    PrioritiesShrink(s.nsg, name);
  }

  /** Every event, in particular a deletion without the lock, keeps the invariant. */
  lemma StepKeepsInv(s: State, e: Event)
    requires Inv(s) && Enabled(s, e)
    ensures Inv(Apply(s, e))
  {
    match e
    case Draw(t) => DrawKeepsCover(s.writers[t], s.nsg);
    case Write(t) => WriteKeepsInv(s, t);
    case List(t) => ListKeepsInv(s, t);
    case Delete(name) => DeleteKeepsInv(s, name);
    case _ =>
  }

  lemma {:induction false} RunKeepsInv(s: State, events: seq<Event>)
    requires Inv(s)
    ensures Inv(Run(s, events))
    decreases |events|
  {
    if events != [] {
      if Enabled(s, events[0]) { StepKeepsInv(s, events[0]); }
      RunKeepsInv(if Enabled(s, events[0]) then Apply(s, events[0]) else s, events[1..]);
    }
  }

  // ---------- main results ----------

  ghost predicate Initial(s: State) {
    && Consistent(s.nsg) && s.lock.None?
    && forall t :: t in s.writers ==> s.writers[t].Idle?
  }

  /** In every interleaving the priorities of the NSG stay pairwise distinct, the lock holder's
      list contains every priority in the NSG, so that it draws only priorities that no rule has,
      and what it draws strictly increases. */
  lemma PrioritiesStayDistinct(s: State, events: seq<Event>)
    requires Initial(s)
    ensures var r := Run(s, events);
            && DistinctPriorities(r.nsg)
            && (forall t :: t in r.writers && r.writers[t].Working? ==> Priorities(r.nsg) <= r.writers[t].taken)
            && (forall t :: t in r.writers && Enabled(r, Draw(t)) ==>
                  NextPriority(r.writers[t].taken, r.writers[t].job.start) !in Priorities(r.nsg))
            && (forall t, j, k :: t in r.writers && r.writers[t].Working? && 0 <= j < k < |r.writers[t].drawn| ==>
                  r.writers[t].drawn[j] < r.writers[t].drawn[k])
  {
    RunKeepsInv(s, events);
    var r := Run(s, events);
    forall t | t in r.writers && Enabled(r, Draw(t))
      ensures NextPriority(r.writers[t].taken, r.writers[t].job.start) !in Priorities(r.nsg)
    {
      DrawKeepsCover(r.writers[t], r.nsg);
    }
  }

  /** In every interleaving, a batch that wrote all its requests, and during which nobody deleted
      a rule, had exactly the effect of one uninterrupted call on the NSG it listed: batches of
      different threads do not mix, and retried writes leave no trace. */
  lemma BatchIsAtomic(s: State, events: seq<Event>, t: Tid)
    requires Initial(s)
    requires var r := Run(s, events);
             && t in r.writers && r.writers[t].Working? && r.writers[t].pending.None?
             && r.writers[t].listed.Some? && |r.writers[t].drawn| == |r.writers[t].job.requests|
    ensures var r := Run(s, events);
            r.nsg == Sequential(r.writers[t].job, r.writers[t].listed.value)
  {
    RunKeepsInv(s, events);
    var w := Run(s, events).writers[t];
    assert OnTrack(w, Run(s, events).nsg);
    assert w.job.requests[|w.drawn|..] == [];
  }

  ghost predicate GridInv(s: State) {
    && OnGrid(Priorities(s.nsg))
    && forall t :: t in s.writers ==>
         match s.writers[t]
         case Idle => true
         case Locked(job) => job.start % 5 == 0
         case Working(job, taken, _, pending, _) =>
           job.start % 5 == 0 && OnGrid(taken) && (pending.Some? ==> pending.value.rule.priority % 5 == 0)
  }

  lemma StepKeepsGrid(s: State, e: Event)
    requires GridInv(s) && Enabled(s, e)
    requires e.Acquire? ==> e.job.start % 5 == 0
    ensures GridInv(Apply(s, e))
  {
    match e
    case Draw(t) => OneMoreOnGrid(s.writers[t].taken, s.writers[t].job.start);
    case Write(t) =>
      var r := Put(s.nsg, s.writers[t].pending.value.rule);
      forall n | n in r ensures r[n].priority % 5 == 0 {
        assert n in s.nsg ==> s.nsg[n].priority in Priorities(s.nsg);
      }
    case Delete(name) => PrioritiesShrink(s.nsg, name);
    case _ =>
  }

  /** Every NSG that this service alone has written, from a fresh one, whatever was created and
      deleted in between, has all its priorities on the grid of multiples of the step. */
  lemma {:induction false} ReachableIsOnGrid(s: State, events: seq<Event>)
    requires GridInv(s)
    requires forall k :: 0 <= k < |events| && events[k].Acquire? ==> events[k].job.start % 5 == 0
    ensures GridInv(Run(s, events))
    decreases |events|
  {
    if events != [] {
      if Enabled(s, events[0]) { StepKeepsGrid(s, events[0]); }
      ReachableIsOnGrid(if Enabled(s, events[0]) then Apply(s, events[0]) else s, events[1..]);
    }
  }

  /** Hence a batch written to such an NSG stays within its range of `width` slots whenever the
      slots in use there plus the batch are no more than `width`: 200 for [1000, 2000). */
  lemma ReachableBatchStaysInRange(s: State, events: seq<Event>, start: int, n: nat, width: nat)
    requires Initial(s) && s.nsg == map[] && start % 5 == 0
    requires forall k :: 0 <= k < |events| && events[k].Acquire? ==> events[k].job.start % 5 == 0
    requires var taken := Priorities(Run(s, events).nsg);
             |Window(taken, start, start + 5 * width)| + n <= width
    ensures var taken := Priorities(Run(s, events).nsg);
            forall k :: 0 <= k < n ==> start <= Yields(taken, start, n)[k] < start + 5 * width
  {
    assert Priorities(s.nsg) == {};
    ReachableIsOnGrid(s, events);
    BatchStaysInRange(Priorities(Run(s, events).nsg), start, n, width);
  }
}
