/** The cache of copied image blobs: any number of threads ask for the same or for different blobs,
    one of them copies each blob, the others wait for it. Claiming and publishing run under one
    lock; checking, waiting and fetching the result read the cache without it. One step of a
    thread is one unlocked read, one lock operation, one dictionary write, or the copy itself. */
module BlobCopy {
  import opened Wrappers

  type Tid = nat
  type Key = string  // storage account, container and blob name
  type Url = string

  datatype Status = Copying | Success | Failed

  datatype Entry = Entry(state: Status, result: Option<Url>)

  /** Where a call stands. */
  datatype Pc =
    | Start                  // is the key in the cache?
    | CheckState             // it is: is its state success?
    | WantClaim              // waiting for the lock
    | Classify               // holds the lock: look at the entry and claim it if need be
    | LeaveClaim(next: Pc)   // leaving the locked block
    | Polling                // waiting for another thread's copy
    | Copy                   // copying the blob
    | WantFail               // the copy raised: waiting for the lock
    | WriteFailed
    | LeaveFailed
    | WantPublish(url: Url)  // the copy succeeded: waiting for the lock
    | WriteState(url: Url)
    | WriteResult(url: Url)
    | LeavePublish
    | ReadResult
    | Done(result: Option<Url>)
    | Threw

  datatype Thread = Thread(key: Key, pc: Pc)

  /** The cache, the lock and the threads; with, as history, who claimed each entry last and the
      URLs of the copies that succeeded. */
  datatype State = State(
    cache: map<Key, Entry>, lock: Option<Tid>, threads: map<Tid, Thread>,
    owner: map<Key, Tid>, copies: map<Key, seq<Url>>)

  /** How a step that the cloud or the user decides turns out. */
  datatype Outcome = Normal | Cancelled | CopySucceeds(url: Url) | CopyFails

  function Copies(s: State, k: Key): seq<Url> {
    if k in s.copies then s.copies[k] else []
  }

  function Goto(s: State, t: Tid, pc: Pc): State
    requires t in s.threads
  {
    s.(threads := s.threads[t := s.threads[t].(pc := pc)])
  }

  function Lock(s: State, t: Tid, pc: Pc): State
    requires t in s.threads
  {
    if s.lock.None? then Goto(s, t, pc).(lock := Some(t)) else s
  }

  function Unlock(s: State, t: Tid, pc: Pc): State
    requires t in s.threads
  {
    Goto(s, t, pc).(lock := None)
  }

  function Claim(s: State, t: Tid): State
    requires t in s.threads
  {
    var k := s.threads[t].key;
    if k !in s.cache || s.cache[k].state == Failed then
      Goto(s, t, LeaveClaim(Copy)).(cache := s.cache[k := Entry(Copying, None)], owner := s.owner[k := t])
    else if s.cache[k].state == Copying then Goto(s, t, LeaveClaim(Polling))
    else Goto(s, t, LeaveClaim(ReadResult))
  }

  /** One step of thread `t`. A thread that waits for a lock in use, or is finished, stays put; so
      does one whose key is missing where the code would look it up (the invariant rules it out). */
  function Next(s: State, t: Tid, o: Outcome): State {
    if t !in s.threads then s
    else
      var k := s.threads[t].key;
      match s.threads[t].pc
      case Start => Goto(s, t, if k in s.cache then CheckState else WantClaim)
      case CheckState =>
        if k !in s.cache then s
        else Goto(s, t, if s.cache[k].state == Success then ReadResult else WantClaim)
      case WantClaim => Lock(s, t, Classify)
      case Classify => Claim(s, t)
      case LeaveClaim(next) => Unlock(s, t, next)
      case Polling =>
        if o == Cancelled then Goto(s, t, Threw)
        else if k !in s.cache then s
        else if s.cache[k].state == Success then Goto(s, t, ReadResult)
        else if s.cache[k].state == Failed then Goto(s, t, Threw)
        else s
      case Copy =>
        (match o
         case CopySucceeds(url) => Goto(s, t, WantPublish(url)).(copies := s.copies[k := Copies(s, k) + [url]])
         case CopyFails => Goto(s, t, WantFail)
         case _ => s)
      case WantFail => Lock(s, t, WriteFailed)
      case WriteFailed =>
        if k !in s.cache then s
        else Goto(s, t, LeaveFailed).(cache := s.cache[k := s.cache[k].(state := Failed)])
      case LeaveFailed => Unlock(s, t, Threw)
      case WantPublish(url) => Lock(s, t, WriteState(url))
      case WriteState(url) =>
        if k !in s.cache then s
        else Goto(s, t, WriteResult(url)).(cache := s.cache[k := s.cache[k].(state := Success)])
      case WriteResult(url) =>
        if k !in s.cache then s
        else Goto(s, t, LeavePublish).(cache := s.cache[k := s.cache[k].(result := Some(url))])
      case LeavePublish => Unlock(s, t, ReadResult)
      case ReadResult => if k !in s.cache then s else Goto(s, t, Done(s.cache[k].result))
      case Done(_) => s
      case Threw => s
  }

  datatype Event = Event(t: Tid, outcome: Outcome)

  function Run(s: State, events: seq<Event>): State
    decreases |events|
  {
    if events == [] then s else Run(Next(s, events[0].t, events[0].outcome), events[1..])
  }

  // ---------- the invariant ----------

  predicate HoldsLock(pc: Pc) {
    || pc.Classify? || pc.LeaveClaim? || pc.WriteFailed? || pc.LeaveFailed?
    || pc.WriteState? || pc.WriteResult? || pc.LeavePublish?
  }

  /** Between claiming an entry and marking it failed or successful. */
  predicate Claimed(pc: Pc) {
    || pc == LeaveClaim(Copy) || pc.Copy? || pc.WantFail? || pc.WriteFailed?
    || pc.WantPublish? || pc.WriteState?
  }

  ghost predicate ThreadInv(s: State, t: Tid)
    requires t in s.threads
  {
    var k, pc := s.threads[t].key, s.threads[t].pc;
    && (HoldsLock(pc) <==> s.lock == Some(t))
    && (pc.LeaveClaim? ==> pc.next.Copy? || pc.next.Polling? || pc.next.ReadResult?)
    && (Claimed(pc) ==> k in s.cache && s.cache[k] == Entry(Copying, None) && k in s.owner && s.owner[k] == t)
    && (pc.CheckState? || pc.Polling? || pc == LeaveClaim(Polling) ==> k in s.cache)
    && (pc.WriteResult? ==> k in s.cache && s.cache[k] == Entry(Success, None))
    && (pc.WantPublish? || pc.WriteState? || pc.WriteResult? ==> Copies(s, k) == [pc.url])
    && (pc == LeaveClaim(Copy) || pc.Copy? || pc.WantFail? || pc.WriteFailed? ==> Copies(s, k) == [])
    && (pc.LeavePublish? || pc.ReadResult? || pc.Done? || pc == LeaveClaim(ReadResult) ==>
          k in s.cache && s.cache[k].state == Success)
    && (pc.Done? && pc.result.Some? ==> Copies(s, k) == [pc.result.value])
  }

  ghost predicate KeyInv(s: State, k: Key) {
    && (k in s.cache && s.cache[k].state == Copying ==>
          && k in s.owner && s.owner[k] in s.threads
          && s.threads[s.owner[k]].key == k && Claimed(s.threads[s.owner[k]].pc))
    && (k in s.cache && s.cache[k].state == Success && s.cache[k].result.None? ==>
          && s.lock.Some? && s.lock.value in s.threads
          && s.threads[s.lock.value].key == k && s.threads[s.lock.value].pc.WriteResult?)
    && (k in s.cache && s.cache[k].result.Some? ==>
          s.cache[k].state == Success && Copies(s, k) == [s.cache[k].result.value])
    && (k !in s.cache || s.cache[k].state == Failed ==> Copies(s, k) == [])
  }

  ghost predicate Inv(s: State) {
    && (forall t :: t in s.threads ==> ThreadInv(s, t))
    && (forall k :: KeyInv(s, k))
    && (s.lock.Some? ==> s.lock.value in s.threads)
  }

  // ---------- every step keeps it ----------

  /** A step that writes nothing but the thread's place and the lock it takes or gives back. */
  lemma MoveKeeps(s: State, t: Tid, pc: Pc, lock: Option<Tid>)
    requires Inv(s) && t in s.threads
    requires lock == s.lock || (s.lock.None? && lock == Some(t)) || (s.lock == Some(t) && lock.None?)
    requires Claimed(pc) == Claimed(s.threads[t].pc) && !s.threads[t].pc.WriteResult?
    requires ThreadInv(Goto(s, t, pc).(lock := lock), t)
    ensures Inv(Goto(s, t, pc).(lock := lock))
  {
    var r := Goto(s, t, pc).(lock := lock);
    assert ThreadInv(s, t);
    forall u | u in r.threads ensures ThreadInv(r, u) {
      assert ThreadInv(s, u);
    }
    forall k ensures KeyInv(r, k) {
      assert KeyInv(s, k);
    }
  }

  /** Claiming an entry: there is none or a failed one, so no other thread has it. */
  lemma ClaimKeeps(s: State, t: Tid)
    requires Inv(s) && t in s.threads && s.threads[t].pc.Classify?
    requires var k := s.threads[t].key; k !in s.cache || s.cache[k].state == Failed
    ensures Inv(Claim(s, t))
  {
    var k, r := s.threads[t].key, Claim(s, t);
    assert ThreadInv(s, t) && KeyInv(s, k);
    forall u | u in r.threads ensures ThreadInv(r, u) {
      assert ThreadInv(s, u);
    }
    forall j ensures KeyInv(r, j) {
      assert KeyInv(s, j);
    }
  }

  lemma ClassifyKeeps(s: State, t: Tid)
    requires Inv(s) && t in s.threads && s.threads[t].pc.Classify?
    ensures Inv(Claim(s, t))
  {
    var k := s.threads[t].key;
    assert ThreadInv(s, t) && KeyInv(s, k);
    if k !in s.cache || s.cache[k].state == Failed {
      ClaimKeeps(s, t);
    } else {
      var pc := LeaveClaim(if s.cache[k].state == Copying then Polling else ReadResult);
      MoveKeeps(s, t, pc, s.lock);
      assert Goto(s, t, pc).(lock := s.lock) == Claim(s, t);
    }
  }

  /** A copy can only succeed once, because its key had no successful copy before. */
  lemma CopySucceedsKeeps(s: State, t: Tid, url: Url)
    requires Inv(s) && t in s.threads && s.threads[t].pc.Copy?
    ensures var k := s.threads[t].key;
            Inv(Goto(s, t, WantPublish(url)).(copies := s.copies[k := Copies(s, k) + [url]]))
  {
    var k := s.threads[t].key;
    var r := Goto(s, t, WantPublish(url)).(copies := s.copies[k := Copies(s, k) + [url]]);
    assert ThreadInv(s, t) && KeyInv(s, k);
    assert Copies(r, k) == [url];
    forall u | u in r.threads ensures ThreadInv(r, u) {
      assert ThreadInv(s, u);
    }
    forall j ensures KeyInv(r, j) {
      assert KeyInv(s, j);
    }
  }

  /** Writes to one entry by the thread that holds the lock. */
  lemma WriteFailedKeeps(s: State, t: Tid)
    requires Inv(s) && t in s.threads && s.threads[t].pc.WriteFailed?
    ensures var k := s.threads[t].key;
            k in s.cache && Inv(Goto(s, t, LeaveFailed).(cache := s.cache[k := s.cache[k].(state := Failed)]))
  {
    var k := s.threads[t].key;
    assert ThreadInv(s, t) && KeyInv(s, k);
    var r := Goto(s, t, LeaveFailed).(cache := s.cache[k := s.cache[k].(state := Failed)]);
    forall u | u in r.threads ensures ThreadInv(r, u) {
      assert ThreadInv(s, u);
    }
    forall j ensures KeyInv(r, j) {
      assert KeyInv(s, j);
    }
  }

  lemma WriteStateKeeps(s: State, t: Tid, url: Url)
    requires Inv(s) && t in s.threads && s.threads[t].pc == WriteState(url)
    ensures var k := s.threads[t].key;
            k in s.cache && Inv(Goto(s, t, WriteResult(url)).(cache := s.cache[k := s.cache[k].(state := Success)]))
  {
    var k := s.threads[t].key;
    assert ThreadInv(s, t) && KeyInv(s, k);
    var r := Goto(s, t, WriteResult(url)).(cache := s.cache[k := s.cache[k].(state := Success)]);
    forall u | u in r.threads ensures ThreadInv(r, u) {
      assert ThreadInv(s, u);
    }
    forall j ensures KeyInv(r, j) {
      assert KeyInv(s, j);
    }
  }

  lemma WriteResultKeeps(s: State, t: Tid, url: Url)
    requires Inv(s) && t in s.threads && s.threads[t].pc == WriteResult(url)
    ensures var k := s.threads[t].key;
            k in s.cache && Inv(Goto(s, t, LeavePublish).(cache := s.cache[k := s.cache[k].(result := Some(url))]))
  {
    var k := s.threads[t].key;
    assert ThreadInv(s, t) && KeyInv(s, k);
    var r := Goto(s, t, LeavePublish).(cache := s.cache[k := s.cache[k].(result := Some(url))]);
    forall u | u in r.threads ensures ThreadInv(r, u) {
      assert ThreadInv(s, u);
    }
    forall j ensures KeyInv(r, j) {
      assert KeyInv(s, j);
    }
  }

  /** Where an unlocked read leads. */
  ghost predicate Reads(s: State, t: Tid, pc: Pc)
    requires t in s.threads
  {
    var k, was := s.threads[t].key, s.threads[t].pc;
    || (was.Start? && (pc == WantClaim || (pc == CheckState && k in s.cache)))
    || (was.CheckState? && (pc == WantClaim || (pc == ReadResult && k in s.cache && s.cache[k].state == Success)))
    || (was.Polling? && (pc == Threw || (pc == ReadResult && k in s.cache && s.cache[k].state == Success)))
    || (was.ReadResult? && k in s.cache && pc == Done(s.cache[k].result))
  }

  lemma ReadKeeps(s: State, t: Tid, pc: Pc)
    requires Inv(s) && t in s.threads && Reads(s, t, pc)
    ensures Inv(Goto(s, t, pc))
  {
    assert ThreadInv(s, t) && KeyInv(s, s.threads[t].key);
    MoveKeeps(s, t, pc, s.lock);
    assert Goto(s, t, pc).(lock := s.lock) == Goto(s, t, pc);
  }

  lemma AcquireKeeps(s: State, t: Tid, pc: Pc)
    requires Inv(s) && t in s.threads && s.lock.None?
    requires var was := s.threads[t].pc;
             || (was.WantClaim? && pc == Classify)
             || (was.WantFail? && pc == WriteFailed)
             || (was.WantPublish? && pc == WriteState(was.url))
    ensures Inv(Goto(s, t, pc).(lock := Some(t)))
  {
    assert ThreadInv(s, t) && KeyInv(s, s.threads[t].key);
    MoveKeeps(s, t, pc, Some(t));
  }

  lemma ReleaseKeeps(s: State, t: Tid, pc: Pc)
    requires Inv(s) && t in s.threads
    requires var was := s.threads[t].pc;
             || (was.LeaveClaim? && pc == was.next)
             || (was.LeaveFailed? && pc == Threw)
             || (was.LeavePublish? && pc == ReadResult)
    ensures Inv(Goto(s, t, pc).(lock := None))
  {
    assert ThreadInv(s, t) && KeyInv(s, s.threads[t].key);
    MoveKeeps(s, t, pc, None);
  }

  lemma CopyFailsKeeps(s: State, t: Tid)
    requires Inv(s) && t in s.threads && s.threads[t].pc.Copy?
    ensures Inv(Goto(s, t, WantFail))
  {
    assert ThreadInv(s, t) && KeyInv(s, s.threads[t].key);
    MoveKeeps(s, t, WantFail, s.lock);
    assert Goto(s, t, WantFail).(lock := s.lock) == Goto(s, t, WantFail);
  }

  lemma StepKeepsInv(s: State, t: Tid, o: Outcome)
    requires Inv(s)
    ensures Inv(Next(s, t, o))
  {
    if t in s.threads {
      var pc, r := s.threads[t].pc, Next(s, t, o);
      match pc
      case Start => ReadKeeps(s, t, r.threads[t].pc);
      case CheckState => if r != s { ReadKeeps(s, t, r.threads[t].pc); }
      case Polling => if r != s { ReadKeeps(s, t, r.threads[t].pc); }
      case ReadResult => if r != s { ReadKeeps(s, t, r.threads[t].pc); }
      case WantClaim => if s.lock.None? { AcquireKeeps(s, t, Classify); }
      case WantFail => if s.lock.None? { AcquireKeeps(s, t, WriteFailed); }
      case WantPublish(url) => if s.lock.None? { AcquireKeeps(s, t, WriteState(url)); }
      case LeaveClaim(next) => ReleaseKeeps(s, t, next);
      case LeaveFailed => ReleaseKeeps(s, t, Threw);
      case LeavePublish => ReleaseKeeps(s, t, ReadResult);
      case Classify => ClassifyKeeps(s, t);
      case Copy =>
        if o.CopySucceeds? { CopySucceedsKeeps(s, t, o.url); }
        else if o.CopyFails? { CopyFailsKeeps(s, t); }
      case WriteFailed => WriteFailedKeeps(s, t);
      case WriteState(url) => WriteStateKeeps(s, t, url);
      case WriteResult(url) => WriteResultKeeps(s, t, url);
      case Done(_) =>
      case Threw =>
    }
  }

  lemma {:induction false} RunKeepsInv(s: State, events: seq<Event>)
    requires Inv(s)
    ensures Inv(Run(s, events))
    decreases |events|
  {
    if events != [] {
      StepKeepsInv(s, events[0].t, events[0].outcome);
      RunKeepsInv(Next(s, events[0].t, events[0].outcome), events[1..]);
    }
  }

  // ---------- main results ----------

  /** An empty cache, a free lock, and any number of calls about to start. */
  predicate Initial(s: State) {
    s.cache == map[] && s.lock.None? && s.owner == map[] && s.copies == map[]
    && forall t :: t in s.threads ==> s.threads[t].pc.Start?
  }

  lemma InitialInv(s: State)
    requires Initial(s)
    ensures Inv(s)
  {
  }

  ghost predicate Claims(s: State, t: Tid, k: Key) {
    t in s.threads && s.threads[t].key == k && Claimed(s.threads[t].pc)
  }

  /** In every interleaving: at most one thread is between claim and publish of a key, and its
      entry says "copying" exactly while there is one; at most one copy of a key ever succeeds;
      with the lock free, "success" comes with the URL of that copy; and every call that returns a
      URL returns that one. */
  lemma AllRuns(s: State, events: seq<Event>, k: Key)
    requires Initial(s)
    ensures var r := Run(s, events);
            && (forall t, u :: Claims(r, t, k) && Claims(r, u, k) ==> t == u)
            && ((k in r.cache && r.cache[k].state == Copying) <==> exists t :: Claims(r, t, k))
            && |Copies(r, k)| <= 1
            && (k in r.cache && r.cache[k].state == Success && r.lock.None? ==>
                  r.cache[k].result.Some? && Copies(r, k) == [r.cache[k].result.value])
            && (forall t :: t in r.threads && r.threads[t].key == k
                            && r.threads[t].pc.Done? && r.threads[t].pc.result.Some? ==>
                  Copies(r, k) == [r.threads[t].pc.result.value])
  {
    InitialInv(s);
    RunKeepsInv(s, events);
    var r := Run(s, events);
    assert KeyInv(r, k);
    forall t | t in r.threads ensures ThreadInv(r, t) {
    }
    if k in r.cache && r.cache[k].state == Copying {
      assert Claims(r, r.owner[k], k);
    }
    OneCopy(r, k);
  }

  lemma OneCopy(s: State, k: Key)
    requires Inv(s)
    ensures |Copies(s, k)| <= 1
  {
    assert KeyInv(s, k);
    if k in s.cache && s.cache[k].state == Copying {
      assert ThreadInv(s, s.owner[k]);
    } else if k in s.cache && s.cache[k].state == Success && s.cache[k].result.None? {
      assert ThreadInv(s, s.lock.value);
    }
  }

  /** Success is absorbing: once an entry is successful it stays so, and its URL, once written,
      never changes. */
  lemma SuccessAbsorbs(s: State, t: Tid, o: Outcome, k: Key)
    requires Inv(s) && k in s.cache && s.cache[k].state == Success
    ensures var r := Next(s, t, o);
            && k in r.cache && r.cache[k].state == Success
            && (s.cache[k].result.Some? ==> r.cache[k].result == s.cache[k].result)
  {
    if t in s.threads { assert ThreadInv(s, t); }
  }

  lemma {:induction false} SuccessStays(s: State, events: seq<Event>, k: Key)
    requires Inv(s) && k in s.cache && s.cache[k].state == Success
    ensures var r := Run(s, events);
            && k in r.cache && r.cache[k].state == Success
            && (s.cache[k].result.Some? ==> r.cache[k].result == s.cache[k].result)
    decreases |events|
  {
    if events != [] {
      StepKeepsInv(s, events[0].t, events[0].outcome);
      SuccessAbsorbs(s, events[0].t, events[0].outcome, k);
      SuccessStays(Next(s, events[0].t, events[0].outcome), events[1..], k);
    }
  }

  /** Between any two moments of any run, success is not left and a written URL does not change. */
  lemma SuccessAbsorbsRun(s: State, before: seq<Event>, after: seq<Event>, k: Key)
    requires Initial(s)
    requires var r := Run(s, before); k in r.cache && r.cache[k].state == Success
    ensures var r := Run(s, before); var e := Run(s, before + after);
            && k in e.cache && e.cache[k].state == Success
            && (r.cache[k].result.Some? ==> e.cache[k].result == r.cache[k].result)
  {
    InitialInv(s);
    RunKeepsInv(s, before);
    RunAppend(s, before, after);
    SuccessStays(Run(s, before), after, k);
  }

  /** At any moment of any run, a call about to fetch its result finds none exactly while the
      publisher is between its two writes: the only moment at which `copy_blob` can return
      nothing. */
  lemma EmptyResultIff(s: State, events: seq<Event>, t: Tid)
    requires Initial(s)
    requires var r := Run(s, events); t in r.threads && r.threads[t].pc.ReadResult?
    ensures var r := Run(s, events);
            Next(r, t, Normal).threads[t].pc == Done(None)
            <==> exists u :: u in r.threads && r.threads[u].key == r.threads[t].key && r.threads[u].pc.WriteResult?
  {
    InitialInv(s);
    RunKeepsInv(s, events);
    var r := Run(s, events);
    var k := r.threads[t].key;
    assert ThreadInv(r, t) && KeyInv(r, k);
    if u :| u in r.threads && r.threads[u].key == k && r.threads[u].pc.WriteResult? {
      assert ThreadInv(r, u);
    }
  }

  lemma HolderSteps(s: State, h: Tid)
    requires Inv(s) && s.lock == Some(h)
    ensures Next(s, h, Normal) != s
  {
    assert ThreadInv(s, h) && KeyInv(s, s.threads[h].key);
    assert Next(s, h, Normal).threads[h].pc != s.threads[h].pc;
  }

  /** At any moment of any run, a thread that waits for the lock waits for a thread that can take
      its next step at once: the lock is never held across another wait. */
  lemma HolderCanStep(s: State, events: seq<Event>, t: Tid)
    requires Initial(s) && t in Run(s, events).threads
    requires var pc := Run(s, events).threads[t].pc; pc.WantClaim? || pc.WantFail? || pc.WantPublish?
    ensures var r := Run(s, events);
            Next(r, t, Normal) != r || (r.lock.Some? && Next(r, r.lock.value, Normal) != r)
  {
    InitialInv(s);
    RunKeepsInv(s, events);
    var r := Run(s, events);
    if r.lock.Some? {
      HolderSteps(r, r.lock.value);
    } else {
      assert Next(r, t, Normal).lock == Some(t);
    }
  }

  // ---------- why a call fails, and when it does not ----------

  /** The call is on its way to raising, or has raised. */
  predicate Failing(pc: Pc) { pc.WantFail? || pc.WriteFailed? || pc.LeaveFailed? || pc.Threw? }

  /** The event is a reason for the call of `t` to fail: it is cancelled while it polls, it polls a
      failed entry, or its own copy fails. */
  predicate Cause(s: State, e: Event, t: Tid) {
    && e.t == t && t in s.threads
    && var k, pc := s.threads[t].key, s.threads[t].pc;
       || (pc.Polling? && e.outcome == Cancelled)
       || (pc.Polling? && k in s.cache && s.cache[k].state == Failed)
       || (pc.Copy? && e.outcome == CopyFails)
  }

  predicate Caused(s: State, events: seq<Event>, t: Tid)
    decreases |events|
  {
    events != [] && (Cause(s, events[0], t) || Caused(Next(s, events[0].t, events[0].outcome), events[1..], t))
  }

  lemma StepFails(s: State, e: Event, t: Tid)
    requires Inv(s) && t in s.threads
    ensures var r := Next(s, e.t, e.outcome);
            && t in r.threads && r.threads[t].key == s.threads[t].key
            && (Failing(r.threads[t].pc) <==> Failing(s.threads[t].pc) || Cause(s, e, t))
  {
    assert ThreadInv(s, t);
    if e.t == t { OwnStepFails(s, t, e.outcome); } else { OtherStays(s, t, e); }
  }

  lemma OtherStays(s: State, t: Tid, e: Event)
    requires t in s.threads && e.t != t
    ensures t in Next(s, e.t, e.outcome).threads && Next(s, e.t, e.outcome).threads[t] == s.threads[t]
  {
    if e.t in s.threads {
      if HoldsLock(s.threads[e.t].pc) { HolderLeavesOthers(s, t, e); } else { CallLeavesOthers(s, t, e); }
    }
  }

  lemma HolderLeavesOthers(s: State, t: Tid, e: Event)
    requires t in s.threads && e.t != t && e.t in s.threads && HoldsLock(s.threads[e.t].pc)
    ensures t in Next(s, e.t, e.outcome).threads && Next(s, e.t, e.outcome).threads[t] == s.threads[t]
  {
  }

  lemma CallLeavesOthers(s: State, t: Tid, e: Event)
    requires t in s.threads && e.t != t && e.t in s.threads && !HoldsLock(s.threads[e.t].pc)
    ensures t in Next(s, e.t, e.outcome).threads && Next(s, e.t, e.outcome).threads[t] == s.threads[t]
  {
  }

  lemma OwnStepFails(s: State, t: Tid, o: Outcome)
    requires t in s.threads && (s.threads[t].pc.LeaveClaim? ==> !Failing(s.threads[t].pc.next))
    ensures var r := Next(s, t, o);
            && t in r.threads && r.threads[t].key == s.threads[t].key
            && (Failing(r.threads[t].pc) <==> Failing(s.threads[t].pc) || Cause(s, Event(t, o), t))
  {
    var pc := s.threads[t].pc;
    if HoldsLock(pc) {
      HolderFails(s, t, o);
    } else if pc.Polling? || pc.Copy? {
      PollOrCopyFails(s, t, o);
    } else {
      CallFails(s, t, o);
    }
  }

  lemma HolderFails(s: State, t: Tid, o: Outcome)
    requires t in s.threads && HoldsLock(s.threads[t].pc)
    requires s.threads[t].pc.LeaveClaim? ==> !Failing(s.threads[t].pc.next)
    ensures var r := Next(s, t, o);
            && t in r.threads && r.threads[t].key == s.threads[t].key
            && (Failing(r.threads[t].pc) <==> Failing(s.threads[t].pc))
  {
  }

  lemma PollOrCopyFails(s: State, t: Tid, o: Outcome)
    requires t in s.threads && (s.threads[t].pc.Polling? || s.threads[t].pc.Copy?)
    ensures var r := Next(s, t, o);
            && t in r.threads && r.threads[t].key == s.threads[t].key
            && (Failing(r.threads[t].pc) <==> Cause(s, Event(t, o), t))
  {
  }

  lemma CallFails(s: State, t: Tid, o: Outcome)
    requires t in s.threads && !HoldsLock(s.threads[t].pc) && !s.threads[t].pc.Polling? && !s.threads[t].pc.Copy?
    ensures var r := Next(s, t, o);
            && t in r.threads && r.threads[t].key == s.threads[t].key
            && (Failing(r.threads[t].pc) <==> Failing(s.threads[t].pc))
  {
  }

  lemma {:induction false} RunFails(s: State, events: seq<Event>, t: Tid)
    requires Inv(s) && t in s.threads
    ensures var r := Run(s, events);
            && t in r.threads && r.threads[t].key == s.threads[t].key
            && (Failing(r.threads[t].pc) <==> Failing(s.threads[t].pc) || Caused(s, events, t))
    decreases |events|
  {
    if events != [] {
      StepKeepsInv(s, events[0].t, events[0].outcome);
      StepFails(s, events[0], t);
      RunFails(Next(s, events[0].t, events[0].outcome), events[1..], t);
    }
  }

  /** In every interleaving a call has raised, or is marking its failure, exactly if it was cancelled
      while polling, or found the entry failed at one of its own polls, or its own copy failed. */
  lemma FailsIff(s: State, events: seq<Event>, t: Tid)
    requires Initial(s) && t in s.threads
    ensures var r := Run(s, events);
            && t in r.threads && r.threads[t].key == s.threads[t].key
            && (Failing(r.threads[t].pc) <==> Caused(s, events, t))
  {
    InitialInv(s);
    RunFails(s, events, t);
  }

  /** At any moment of any run, what the next poll of a call leads to. */
  lemma PollDecides(s: State, events: seq<Event>, t: Tid)
    requires Initial(s)
    requires var r := Run(s, events); t in r.threads && r.threads[t].pc.Polling?
    ensures var r := Run(s, events); var k := r.threads[t].key; var pc := Next(r, t, Normal).threads[t].pc;
            && k in r.cache
            && (pc == ReadResult <==> r.cache[k].state == Success)
            && (pc == Threw <==> r.cache[k].state == Failed)
            && (pc == Polling <==> r.cache[k].state == Copying)
            && Next(r, t, Cancelled).threads[t].pc == Threw
  {
    InitialInv(s);
    RunKeepsInv(s, events);
    assert ThreadInv(Run(s, events), t);
  }

  lemma ClaimSteps(s: State, t: Tid)
    requires Inv(s) && t in s.threads && s.threads[t].pc.Classify?
    ensures var k := s.threads[t].key; var r := Next(s, t, Normal); var e := Next(r, t, Normal);
            && t in e.threads && e.lock.None?
            && (e.threads[t].pc == Copy <==> k !in s.cache || s.cache[k].state == Failed)
            && (e.threads[t].pc == Copy ==> k in e.cache && e.cache[k] == Entry(Copying, None) && Claims(e, t, k))
            && (e.threads[t].pc == Polling <==> k in s.cache && s.cache[k].state == Copying)
            && (e.threads[t].pc == ReadResult <==> k in s.cache && s.cache[k].state == Success)
            && (e.threads[t].pc != Copy ==> e.cache == s.cache)
  {
    assert ThreadInv(s, t);
  }

  /** At any moment of any run, a call that holds the lock to look at its entry becomes the copier
      exactly if there is none or a failed one; otherwise it waits for the copier, or fetches the
      result, and changes nothing. */
  lemma ClaimDecides(s: State, events: seq<Event>, t: Tid)
    requires Initial(s)
    requires var r := Run(s, events); t in r.threads && r.threads[t].pc.Classify?
    ensures var r := Run(s, events); var k := r.threads[t].key;
            var e := Run(r, [Event(t, Normal), Event(t, Normal)]);
            && t in e.threads && e.lock.None?
            && (e.threads[t].pc == Copy <==> k !in r.cache || r.cache[k].state == Failed)
            && (e.threads[t].pc == Copy ==> k in e.cache && e.cache[k] == Entry(Copying, None) && Claims(e, t, k))
            && (e.threads[t].pc == Polling <==> k in r.cache && r.cache[k].state == Copying)
            && (e.threads[t].pc == ReadResult <==> k in r.cache && r.cache[k].state == Success)
            && (e.threads[t].pc != Copy ==> e.cache == r.cache)
  {
    InitialInv(s);
    RunKeepsInv(s, events);
    var r, one := Run(s, events), Event(t, Normal);
    ClaimSteps(r, t);
    RunStep(r, one, [one]);
    RunStep(Next(r, t, Normal), one, []);
    assert [one] + [one] == [one, one] && [one] + [] == [one];
  }

  /** The URL of an entry is written and the call of `t` has not ended with anything else. */
  ghost predicate WillReturn(s: State, t: Tid, url: Url) {
    && t in s.threads && s.threads[t].key in s.cache && s.cache[s.threads[t].key].result == Some(url)
    && (s.threads[t].pc.Done? ==> s.threads[t].pc.result == Some(url))
  }

  lemma StepWillReturn(s: State, e: Event, t: Tid, url: Url)
    requires Inv(s) && WillReturn(s, t, url)
    ensures WillReturn(Next(s, e.t, e.outcome), t, url)
  {
    assert ThreadInv(s, t) && KeyInv(s, s.threads[t].key);
    SuccessAbsorbs(s, e.t, e.outcome, s.threads[t].key);
    StepFails(s, e, t);
  }

  lemma {:induction false} RunWillReturn(s: State, events: seq<Event>, t: Tid, url: Url)
    requires Inv(s) && WillReturn(s, t, url)
    ensures WillReturn(Run(s, events), t, url)
    decreases |events|
  {
    if events != [] {
      StepKeepsInv(s, events[0].t, events[0].outcome);
      StepWillReturn(s, events[0], t, url);
      RunWillReturn(Next(s, events[0].t, events[0].outcome), events[1..], t, url);
    }
  }

  /** Once a copy is published and the lock is free, every call that had not ended by then can only
      fail, or return the URL of that copy. */
  lemma PublishedIsReturned(s: State, before: seq<Event>, after: seq<Event>, t: Tid)
    requires Initial(s) && t in Run(s, before).threads && !Run(s, before).threads[t].pc.Done?
    requires var r := Run(s, before); var k := r.threads[t].key;
             r.lock.None? && k in r.cache && r.cache[k].state == Success
    ensures var r := Run(s, before); var e := Run(r, after); var k := r.threads[t].key;
            && t in e.threads && |Copies(r, k)| == 1
            && (e.threads[t].pc.Done? ==> e.threads[t].pc.result == Some(Copies(r, k)[0]))
  {
    AllRuns(s, before, Run(s, before).threads[t].key);
    InitialInv(s);
    RunKeepsInv(s, before);
    var r := Run(s, before);
    RunWillReturn(r, after, t, r.cache[r.threads[t].key].result.value);
  }

  lemma FetchSteps(s: State, t: Tid)
    requires Inv(s) && t in s.threads && s.threads[t].pc.ReadResult?
    requires forall u :: u in s.threads && s.threads[u].key == s.threads[t].key ==> !s.threads[u].pc.WriteResult?
    ensures var k := s.threads[t].key;
            |Copies(s, k)| == 1 && Next(s, t, Normal).threads[t].pc == Done(Some(Copies(s, k)[0]))
  {
    assert ThreadInv(s, t) && KeyInv(s, s.threads[t].key);
  }

  /** At any moment of any run, a call about to fetch its result returns the URL of the one copy,
      unless the publisher is between its two writes. */
  lemma FetchReturns(s: State, events: seq<Event>, t: Tid)
    requires Initial(s)
    requires var r := Run(s, events); t in r.threads && r.threads[t].pc.ReadResult?
    requires var r := Run(s, events);
             forall u :: u in r.threads && r.threads[u].key == r.threads[t].key ==> !r.threads[u].pc.WriteResult?
    ensures var r := Run(s, events); var k := r.threads[t].key;
            |Copies(r, k)| == 1 && Next(r, t, Normal).threads[t].pc == Done(Some(Copies(r, k)[0]))
  {
    InitialInv(s);
    RunKeepsInv(s, events);
    FetchSteps(Run(s, events), t);
  }

  lemma FreeLockSteps(s: State, t: Tid)
    requires Inv(s) && s.lock.None? && t in s.threads && !s.threads[t].pc.Done? && !s.threads[t].pc.Threw?
    requires s.threads[t].pc.Polling? ==> s.cache[s.threads[t].key].state != Copying
    ensures Next(s, t, CopyFails) != s
  {
    assert ThreadInv(s, t);
    assert Next(s, t, CopyFails).threads[t].pc != s.threads[t].pc;
  }

  /** Calls never wait for one another in a circle: at any moment of any run in which a call is
      unfinished, some call can go on without being cancelled. */
  lemma SomeCallCanStep(s: State, events: seq<Event>, t: Tid)
    requires Initial(s)
    requires var r := Run(s, events); t in r.threads && !r.threads[t].pc.Done? && !r.threads[t].pc.Threw?
    ensures var r := Run(s, events); exists u, o :: o != Cancelled && Next(r, u, o) != r
  {
    InitialInv(s);
    RunKeepsInv(s, events);
    var r := Run(s, events);
    assert ThreadInv(r, t) && KeyInv(r, r.threads[t].key);
    if r.lock.Some? {
      HolderSteps(r, r.lock.value);
    } else if r.threads[t].pc.Polling? && r.cache[r.threads[t].key].state == Copying {
      FreeLockSteps(r, r.owner[r.threads[t].key]);
    } else {
      FreeLockSteps(r, t);
    }
  }

  // ---------- a run in which a call returns nothing ----------

  function Calls(pc1: Pc, pc2: Pc): map<Tid, Thread> {
    map[1 := Thread("k", pc1), 2 := Thread("k", pc2)]
  }

  lemma RunStep(s: State, e: Event, rest: seq<Event>)
    ensures Run(s, [e] + rest) == Run(Next(s, e.t, e.outcome), rest)
  {
    assert ([e] + rest)[1..] == rest;
  }

  lemma {:induction false} RunAppend(s: State, a: seq<Event>, b: seq<Event>)
    ensures Run(s, a + b) == Run(Run(s, a), b)
    decreases |a|
  {
    if a == [] {
      assert a + b == b;
    } else {
      assert (a + b)[1..] == a[1..] + b;
      RunAppend(Next(s, a[0].t, a[0].outcome), a[1..], b);
    }
  }

  /** Three steps in a row. */
  lemma RunThree(s: State, a: Event, b: Event, c: Event)
    ensures Run(s, [a, b, c]) == Next(Next(Next(s, a.t, a.outcome), b.t, b.outcome), c.t, c.outcome)
  {
    assert [a, b, c] == [a] + ([b] + ([c] + []));
    RunStep(s, a, [b] + ([c] + []));
    RunStep(Next(s, a.t, a.outcome), b, [c] + []);
    RunStep(Next(Next(s, a.t, a.outcome), b.t, b.outcome), c, []);
  }

  const FRESH := State(map[], None, Calls(Start, Start), map[], map[])

  const PUBLISHING := State(map["k" := Entry(Copying, None)], Some(1), Calls(WriteState("u"), Start),
                            map["k" := 1], map["k" := ["u"]])

  lemma ReachPublishing() returns (events: seq<Event>)
    ensures Run(FRESH, events) == PUBLISHING
  {
    var one, copied := Event(1, Normal), Event(1, CopySucceeds("u"));
    var claimed := State(map["k" := Entry(Copying, None)], Some(1), Calls(LeaveClaim(Copy), Start),
                         map["k" := 1], map[]);
    RunThree(FRESH, one, one, one);
    assert Run(FRESH, [one, one, one]) == claimed;
    RunThree(claimed, one, copied, one);
    assert [] + ["u"] == ["u"];
    assert Run(claimed, [one, copied, one]) == PUBLISHING;
    RunAppend(FRESH, [one, one, one], [one, copied, one]);
    events := [one, one, one] + [one, copied, one];
  }

  const BETWEEN_WRITES := State(map["k" := Entry(Success, None)], Some(1), Calls(WriteResult("u"), ReadResult),
                               map["k" := 1], map["k" := ["u"]])

  lemma ReachBetweenWrites()
    ensures Run(PUBLISHING, [Event(1, Normal), Event(2, Normal), Event(2, Normal)]) == BETWEEN_WRITES
  {
    RunThree(PUBLISHING, Event(1, Normal), Event(2, Normal), Event(2, Normal));
    var published := Next(PUBLISHING, 1, Normal);
    assert published.threads == Calls(WriteResult("u"), Start);
    assert Next(published, 2, Normal).threads == Calls(WriteResult("u"), CheckState);
  }

  /** Thread 1 copies the blob and stops between its two publishing writes; thread 2, which sees
      "success", fetches the result there and returns nothing. */
  lemma EmptyResultHappens()
    ensures Initial(FRESH)
    ensures exists events :: 2 in Run(FRESH, events).threads && Run(FRESH, events).threads[2].pc == Done(None)
  {
    var one, two := Event(1, Normal), Event(2, Normal);
    var first := ReachPublishing();
    ReachBetweenWrites();
    RunAppend(FRESH, first, [one, two, two]);
    RunAppend(FRESH, first + [one, two, two], [two]);
    RunStep(BETWEEN_WRITES, two, []);
    assert [two] + [] == [two];
    assert Run(FRESH, first + [one, two, two] + [two]) == Next(BETWEEN_WRITES, 2, Normal);
  }
}
