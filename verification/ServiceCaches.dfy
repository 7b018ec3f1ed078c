/** The nested double-checked caches of account keys, file services, blob services and key pairs.
    A look-up first reads its dictionary without a lock, and on a miss takes the cache's lock, looks
    again, builds the value and stores it. Building a service asks the account-key cache, building
    a key pair asks the file-service cache twice, all with the outer lock held. Any exception
    unwinds through the locked blocks. */
module ServiceCaches {
  type Tid = nat

  datatype Level = KeyPairs | FileServices | BlobServices | AccountKeys

  datatype Key = Key(group: string, storage: string)

  datatype Value =
    | Secret(text: string)
    | Service(storage: string, accountKey: Value)
    | Pair(publicKey: string, privateKey: string)

  /** Where a look-up in one cache stands. */
  datatype Pc =
    | Check                                         // unlocked look-up
    | WantLock
    | Recheck                                       // look-up with the lock held
    | Build                                         // missed: build the value (for a key pair: its public half)
    | FetchPublic(service: Value)                   // read the public key file
    | BuildPrivate(publicKey: string)
    | FetchPrivate(publicKey: string, service: Value)
    | Store(value: Value)
    | Leave(value: Value)                           // leave the locked block with the value
    | FinalRead                                     // key pairs only: read the dictionary once more
    | Return(value: Value)
    | Unwind                                        // leave the locked block by an exception
    | Throw

  datatype Outcome = Pending | Got(value: Value) | Threw

  /** A call of the cache `root`; `frames` are the look-ups in progress, each called by the next
      outer one. */
  datatype Thread = Thread(key: Key, root: Level, frames: map<Level, Pc>, outcome: Outcome)

  datatype State = State(cache: map<(Level, Key), Value>, locks: map<Level, Tid>, threads: map<Tid, Thread>)

  /** How an outside request, or the decision to retry after an exception, turns out. */
  datatype Choice = Good(text: string) | Bad | Again

  function Rank(l: Level): nat {
    match l
    case KeyPairs => 2
    case FileServices => 1
    case BlobServices => 1
    case AccountKeys => 0
  }

  function Callee(l: Level): Level {
    if l == KeyPairs then FileServices else AccountKeys
  }

  lemma NotEmpty(frames: map<Level, Pc>)
    requires frames != map[]
    ensures KeyPairs in frames || FileServices in frames || BlobServices in frames || AccountKeys in frames
  {
    assert (forall k :: k !in frames) ==> frames == map[];
    var k :| k in frames;
    match k case KeyPairs => case FileServices => case BlobServices => case AccountKeys =>
  }

  /** The innermost look-up in progress. */
  function Top(frames: map<Level, Pc>): (l: Level)
    requires frames != map[]
    ensures l in frames && forall k :: k in frames ==> Rank(l) <= Rank(k)
  {
    if AccountKeys in frames then AccountKeys
    else if FileServices in frames then FileServices
    else if BlobServices in frames then BlobServices
    else
      NotEmpty(frames);
      KeyPairs
  }

  function SetTop(th: Thread, pc: Pc): Thread
    requires th.frames != map[]
  {
    th.(frames := th.frames[Top(th.frames) := pc])
  }

  function Update(s: State, t: Tid, th: Thread): State { s.(threads := s.threads[t := th]) }

  /** What the caller does with the value its callee returned. */
  function Receive(pc: Pc, key: Key, l: Level, v: Value): Pc {
    if l != KeyPairs then Store(Service(key.storage, v))
    else if pc.BuildPrivate? then FetchPrivate(pc.publicKey, v)
    else FetchPublic(v)
  }

  function Popped(th: Thread): map<Level, Pc>
    requires th.frames != map[]
  {
    th.frames - {Top(th.frames)}
  }

  function ReturnStep(th: Thread, v: Value): Thread
    requires th.frames != map[]
  {
    var rest := Popped(th);
    if rest == map[] then th.(frames := rest, outcome := Got(v))
    else
      var caller := Top(rest);
      th.(frames := rest[caller := Receive(rest[caller], th.key, caller, v)])
  }

  /** An exception leaves the innermost look-up. Fetching account keys is retried as a whole, and
      so is reading a key file; otherwise the exception goes on to the caller. */
  function ThrowStep(th: Thread, c: Choice): Thread
    requires th.frames != map[]
  {
    var rest := Popped(th);
    if c == Again && Top(th.frames) == AccountKeys then SetTop(th, Check)
    else if rest == map[] then th.(frames := rest, outcome := Threw)
    else
      var caller := Top(rest);
      if c == Again && caller == KeyPairs then th.(frames := rest)
      else th.(frames := rest[caller := Unwind])
  }

  /** One step of thread `t`: of its innermost look-up. */
  function Next(s: State, t: Tid, c: Choice): State {
    if t !in s.threads || s.threads[t].frames == map[] then s
    else
      var th := s.threads[t];
      var l := Top(th.frames);
      var slot := (l, th.key);
      match th.frames[l]
      case Check =>
        Update(s, t, SetTop(th, if slot !in s.cache then WantLock
                                else if l == KeyPairs then FinalRead else Return(s.cache[slot])))
      case WantLock =>
        if l in s.locks then s else Update(s, t, SetTop(th, Recheck)).(locks := s.locks[l := t])
      case Recheck =>
        Update(s, t, SetTop(th, if slot in s.cache then Leave(s.cache[slot]) else Build))
      case Build =>
        if l == AccountKeys then
          Update(s, t, SetTop(th, if c.Good? then Store(Secret(c.text)) else Unwind))
        else Update(s, t, th.(frames := th.frames[Callee(l) := Check]))
      case FetchPublic(service) =>
        Update(s, t, SetTop(th, if c.Good? then BuildPrivate(c.text) else if c == Again then Build else Unwind))
      case BuildPrivate(_) => Update(s, t, th.(frames := th.frames[Callee(l) := Check]))
      case FetchPrivate(publicKey, service) =>
        Update(s, t, SetTop(th, if c.Good? then Store(Pair(publicKey, c.text))
                                else if c == Again then BuildPrivate(publicKey) else Unwind))
      case Store(v) => Update(s, t, SetTop(th, Leave(v))).(cache := s.cache[slot := v])
      case Leave(v) =>
        Update(s, t, SetTop(th, if l == KeyPairs then FinalRead else Return(v))).(locks := s.locks - {l})
      case FinalRead => if slot in s.cache then Update(s, t, SetTop(th, Return(s.cache[slot]))) else s
      case Return(v) => Update(s, t, ReturnStep(th, v))
      case Unwind => Update(s, t, SetTop(th, Throw)).(locks := s.locks - {l})
      case Throw => Update(s, t, ThrowStep(th, c))
  }

  datatype Event = Event(t: Tid, choice: Choice)

  function Run(s: State, events: seq<Event>): State
    decreases |events|
  {
    if events == [] then s else Run(Next(s, events[0].t, events[0].choice), events[1..])
  }

  // ---------- the invariant ----------

  predicate Holds(s: State, l: Level, t: Tid) { l in s.locks && s.locks[l] == t }

  predicate Calling(pc: Pc) { pc.Build? || pc.BuildPrivate? }

  predicate Building(pc: Pc) {
    Calling(pc) || pc.FetchPublic? || pc.FetchPrivate? || pc.Store?
  }

  predicate HoldsLock(pc: Pc) { Building(pc) || pc.Recheck? || pc.Leave? || pc.Unwind? }

  predicate OnlyKeyPairs(pc: Pc) { pc.FetchPublic? || pc.BuildPrivate? || pc.FetchPrivate? || pc.FinalRead? }

  /** How a cached value was made: a service from the account key cached for the same group and
      storage, a key pair through the file service cached for them. */
  predicate WellBuilt(cache: map<(Level, Key), Value>, l: Level, k: Key, v: Value) {
    match l
    case AccountKeys => v.Secret?
    case KeyPairs => v.Pair? && (FileServices, k) in cache
    case _ => (AccountKeys, k) in cache && v == Service(k.storage, cache[(AccountKeys, k)])
  }

  ghost predicate Shape(th: Thread) {
    var f := th.frames;
    && (BlobServices in f ==> FileServices !in f && KeyPairs !in f)
    && (KeyPairs in f && AccountKeys in f ==> FileServices in f)
    && (KeyPairs in f && FileServices in f ==> Calling(f[KeyPairs]))
    && (FileServices in f && AccountKeys in f ==> Calling(f[FileServices]))
    && (BlobServices in f && AccountKeys in f ==> Calling(f[BlobServices]))
    && (forall l :: l in f && OnlyKeyPairs(f[l]) ==> l == KeyPairs)
    && (f != map[] ==> th.root in f && th.outcome.Pending?)
    && (forall l :: l in f ==> Rank(l) <= Rank(th.root))
    && (f == map[] ==> !th.outcome.Pending?)
  }

  ghost predicate FrameInv(s: State, t: Tid, th: Thread, l: Level)
  {
    var slot := (l, th.key);
    && (Holds(s, l, t) <==> (l in th.frames && HoldsLock(th.frames[l])))
    && (l in th.frames ==>
          var pc := th.frames[l];
          && (Building(pc) ==> slot !in s.cache)
          && (pc.Store? ==> WellBuilt(s.cache, l, th.key, pc.value))
          && (pc.FetchPublic? || pc.FetchPrivate? || pc.BuildPrivate? ==> (FileServices, th.key) in s.cache)
          && (pc.FetchPublic? || pc.FetchPrivate? ==> pc.service == s.cache[(FileServices, th.key)])
          && (pc.FinalRead? || pc.Leave? || pc.Return? ==> slot in s.cache)
          && (pc.Leave? || pc.Return? ==> pc.value == s.cache[slot]))
  }

  ghost predicate ThreadInv(s: State, t: Tid, th: Thread) {
    && Shape(th)
    && (forall l :: FrameInv(s, t, th, l))
    && (th.outcome.Got? ==> (th.root, th.key) in s.cache && th.outcome.value == s.cache[(th.root, th.key)])
  }

  ghost predicate CacheInv(cache: map<(Level, Key), Value>) {
    forall l, k :: (l, k) in cache ==> WellBuilt(cache, l, k, cache[(l, k)])
  }

  ghost predicate Inv(s: State) {
    && CacheInv(s.cache)
    && (forall t :: t in s.threads ==> ThreadInv(s, t, s.threads[t]))
    && (forall l :: l in s.locks ==> s.locks[l] in s.threads)
  }

  // ---------- every step keeps it ----------

  /** A thread changes its own place, locks that were free or its own, and entries of a cache whose
      lock it holds. */
  lemma OwnStepKeepsInv(s: State, r: State, t: Tid)
    requires Inv(s) && t in s.threads && t in r.threads
    requires r.threads == s.threads[t := r.threads[t]]
    requires forall l, u :: u != t ==> (Holds(r, l, u) <==> Holds(s, l, u))
    requires forall x :: x in s.cache ==> x in r.cache && r.cache[x] == s.cache[x]
    requires forall x :: x in r.cache && x !in s.cache ==> Holds(s, x.0, t)
    requires CacheInv(r.cache)
    requires ThreadInv(r, t, r.threads[t])
    ensures Inv(r)
  {
    forall u | u in r.threads ensures ThreadInv(r, u, r.threads[u]) {
      if u != t {
        var th := s.threads[u];
        assert ThreadInv(s, u, th);
        forall l ensures FrameInv(r, u, th, l) {
          assert FrameInv(s, u, th, l);
        }
      }
    }
    forall l | l in r.locks ensures r.locks[l] in r.threads {
      assert Holds(r, l, r.locks[l]);
      assert r.locks[l] != t ==> Holds(s, l, r.locks[l]);
    }
  }

  /** A step that changes one look-up of its thread, that look-up's lock, and at most the entry of
      that look-up. */
  lemma OneFrameKeeps(s: State, r: State, t: Tid, l: Level)
    requires Inv(s) && t in s.threads && t in r.threads
    requires r.threads == s.threads[t := r.threads[t]]
    requires var a, b := s.threads[t], r.threads[t];
             && a.key == b.key && a.outcome == b.outcome
             && (forall k :: k != l ==> (k in a.frames <==> k in b.frames))
             && (forall k :: k != l && k in a.frames && k in b.frames ==> a.frames[k] == b.frames[k])
    requires forall k, u :: k != l || u != t ==> (Holds(r, k, u) <==> Holds(s, k, u))
    requires forall x :: x in s.cache ==> x in r.cache && r.cache[x] == s.cache[x]
    requires forall x :: x in r.cache && x !in s.cache ==> x == (l, s.threads[t].key) && Holds(s, l, t)
    requires CacheInv(r.cache) && Shape(r.threads[t]) && FrameInv(r, t, r.threads[t], l)
    requires r.threads[t].frames != map[] && s.threads[t].frames != map[]
    ensures Inv(r)
  {
    var a, b := s.threads[t], r.threads[t];
    assert ThreadInv(s, t, a);
    forall k ensures FrameInv(r, t, b, k) {
      assert FrameInv(s, t, a, k);
    }
    OwnStepKeepsInv(s, r, t);
  }

  /** Steps that move the innermost look-up and change nothing else. */
  lemma MoveKeeps(s: State, t: Tid, pc: Pc)
    requires Inv(s) && t in s.threads && s.threads[t].frames != map[]
    requires var th := s.threads[t]; var l := Top(th.frames);
             && HoldsLock(pc) == HoldsLock(th.frames[l])
             && (OnlyKeyPairs(pc) ==> l == KeyPairs)
             && FrameInv(s, t, SetTop(th, pc), l)
    ensures Inv(Update(s, t, SetTop(s.threads[t], pc)))
  {
    var th := s.threads[t];
    var l := Top(th.frames);
    var r := Update(s, t, SetTop(th, pc));
    assert ThreadInv(s, t, th);
    ShapeMove(th, pc);
    assert FrameInv(s, t, th, l);
    OneFrameKeeps(s, r, t, l);
  }

  lemma ShapeMove(th: Thread, pc: Pc)
    requires Shape(th) && th.frames != map[]
    requires OnlyKeyPairs(pc) ==> Top(th.frames) == KeyPairs
    ensures Shape(SetTop(th, pc))
  {
  }

  ghost predicate AtTop(s: State, t: Tid, pc: Pc) {
    t in s.threads && s.threads[t].frames != map[] && s.threads[t].frames[Top(s.threads[t].frames)] == pc
  }

  /** Steps that move the innermost look-up and take or give back its lock. */
  lemma LockingKeeps(s: State, t: Tid, pc: Pc, locks: map<Level, Tid>)
    requires Inv(s) && t in s.threads && s.threads[t].frames != map[]
    requires var th := s.threads[t]; var l := Top(th.frames);
             && (OnlyKeyPairs(pc) ==> l == KeyPairs)
             && ((l !in s.locks && locks == s.locks[l := t]) || (Holds(s, l, t) && locks == s.locks - {l}))
             && FrameInv(s.(locks := locks), t, SetTop(th, pc), l)
    ensures Inv(Update(s, t, SetTop(s.threads[t], pc)).(locks := locks))
  {
    var th := s.threads[t];
    var l := Top(th.frames);
    assert ThreadInv(s, t, th);
    ShapeMove(th, pc);
    var r := Update(s, t, SetTop(th, pc)).(locks := locks);
    LocksOfOthers(s, r, t, l);
    OneFrameKeeps(s, r, t, l);
  }

  lemma LocksOfOthers(s: State, r: State, t: Tid, l: Level)
    requires (l !in s.locks && r.locks == s.locks[l := t]) || (Holds(s, l, t) && r.locks == s.locks - {l})
    ensures forall k, u :: k != l || u != t ==> (Holds(r, k, u) <==> Holds(s, k, u))
  {
  }

  lemma AcquireKeeps(s: State, t: Tid)
    requires Inv(s) && AtTop(s, t, WantLock) && Top(s.threads[t].frames) !in s.locks
    ensures var th := s.threads[t];
            Inv(Update(s, t, SetTop(th, Recheck)).(locks := s.locks[Top(th.frames) := t]))
  {
    var th := s.threads[t];
    var l := Top(th.frames);
    assert ThreadInv(s, t, th) && FrameInv(s, t, th, l);
    LockingKeeps(s, t, Recheck, s.locks[l := t]);
  }

  /** A look-up that gives back its lock needs no more than what it returns to be cached. */
  lemma FrameUnlocked(s: State, t: Tid, th: Thread, pc: Pc)
    requires th.frames != map[] && Holds(s, Top(th.frames), t)
    requires pc.FinalRead? || pc.Return? || pc.Throw?
    requires pc.FinalRead? || pc.Return? ==> (Top(th.frames), th.key) in s.cache
    requires pc.Return? ==> pc.value == s.cache[(Top(th.frames), th.key)]
    ensures FrameInv(s.(locks := s.locks - {Top(th.frames)}), t, SetTop(th, pc), Top(th.frames))
  {
  }

  lemma LeaveKeeps(s: State, t: Tid, v: Value)
    requires Inv(s) && AtTop(s, t, Leave(v))
    ensures var th := s.threads[t]; var l := Top(th.frames);
            Inv(Update(s, t, SetTop(th, if l == KeyPairs then FinalRead else Return(v))).(locks := s.locks - {l}))
  {
    var th := s.threads[t];
    var l := Top(th.frames);
    var pc := if l == KeyPairs then FinalRead else Return(v);
    assert ThreadInv(s, t, th) && FrameInv(s, t, th, l);
    FrameUnlocked(s, t, th, pc);
    LockingKeeps(s, t, pc, s.locks - {l});
  }

  lemma UnwindKeeps(s: State, t: Tid)
    requires Inv(s) && AtTop(s, t, Unwind)
    ensures var th := s.threads[t];
            Inv(Update(s, t, SetTop(th, Throw)).(locks := s.locks - {Top(th.frames)}))
  {
    var th := s.threads[t];
    var l := Top(th.frames);
    assert ThreadInv(s, t, th) && FrameInv(s, t, th, l);
    FrameUnlocked(s, t, th, Throw);
    LockingKeeps(s, t, Throw, s.locks - {l});
  }

  lemma GrowthKeepsWellBuilt(a: map<(Level, Key), Value>, b: map<(Level, Key), Value>, l: Level, k: Key, v: Value)
    requires forall x :: x in a ==> x in b && b[x] == a[x]
    requires WellBuilt(a, l, k, v)
    ensures WellBuilt(b, l, k, v)
  {
  }

  lemma CacheGrows(cache: map<(Level, Key), Value>, l: Level, k: Key, v: Value)
    requires CacheInv(cache) && WellBuilt(cache, l, k, v) && (l, k) !in cache
    ensures CacheInv(cache[(l, k) := v])
  {
    var r := cache[(l, k) := v];
    forall m, j | (m, j) in r ensures WellBuilt(r, m, j, r[(m, j)]) {
      GrowthKeepsWellBuilt(cache, r, m, j, r[(m, j)]);
    }
  }

  /** An entry is stored with the lock held and after the second look-up missed, so it is new. */
  lemma StoreKeeps(s: State, t: Tid, v: Value)
    requires Inv(s) && AtTop(s, t, Store(v))
    ensures var th := s.threads[t]; var slot := (Top(th.frames), th.key);
            Inv(Update(s, t, SetTop(th, Leave(v))).(cache := s.cache[slot := v]))
  {
    var th := s.threads[t];
    var l := Top(th.frames);
    assert ThreadInv(s, t, th) && FrameInv(s, t, th, l);
    CacheGrows(s.cache, l, th.key, v);
    ShapeMove(th, Leave(v));
    OneFrameKeeps(s, Update(s, t, SetTop(th, Leave(v))).(cache := s.cache[(l, th.key) := v]), t, l);
  }

  /** The innermost look-up asks the next inner cache. */
  lemma PushKeeps(s: State, t: Tid)
    requires Inv(s) && t in s.threads && s.threads[t].frames != map[]
    requires var f := s.threads[t].frames; Top(f) != AccountKeys && Calling(f[Top(f)])
    ensures var th := s.threads[t];
            Inv(Update(s, t, th.(frames := th.frames[Callee(Top(th.frames)) := Check])))
  {
    var th := s.threads[t];
    var l := Callee(Top(th.frames));
    assert ThreadInv(s, t, th) && FrameInv(s, t, th, l);
    ShapePush(th);
    OneFrameKeeps(s, Update(s, t, th.(frames := th.frames[l := Check])), t, l);
  }

  lemma ShapePush(th: Thread)
    requires Shape(th) && th.frames != map[]
    requires Top(th.frames) != AccountKeys && Calling(th.frames[Top(th.frames)])
    ensures Callee(Top(th.frames)) !in th.frames
    ensures Shape(th.(frames := th.frames[Callee(Top(th.frames)) := Check]))
  {
  }

  /** `b` is `a` with its innermost look-up ended, and at most the caller's place changed. */
  ghost predicate Ended(a: Thread, b: Thread)
    requires a.frames != map[]
  {
    && b.key == a.key && b.frames.Keys == Popped(a).Keys
    && forall k :: k in b.frames && k != Top(Popped(a)) ==> b.frames[k] == a.frames[k]
  }

  lemma EndedFrame(s: State, t: Tid, b: Thread, k: Level)
    requires Inv(s) && t in s.threads && s.threads[t].frames != map[] && Ended(s.threads[t], b)
    requires var f := s.threads[t].frames; !HoldsLock(f[Top(f)])
    requires k in b.frames && k == Top(b.frames) ==> FrameInv(s, t, b, k)
    ensures FrameInv(Update(s, t, b), t, b, k)
  {
    var a := s.threads[t];
    assert ThreadInv(s, t, a) && FrameInv(s, t, a, k);
    if k in b.frames {
      assert b.frames.Keys == Popped(a).Keys;
      SameTop(b.frames, Popped(a));
    }
  }

  lemma SameTop(f: map<Level, Pc>, g: map<Level, Pc>)
    requires f != map[] && g != map[] && f.Keys == g.Keys
    ensures Top(f) == Top(g)
  {
    assert forall l :: l in f <==> l in g;
  }

  lemma EndKeeps(s: State, t: Tid, b: Thread)
    requires Inv(s) && t in s.threads && s.threads[t].frames != map[] && Ended(s.threads[t], b)
    requires var f := s.threads[t].frames; !HoldsLock(f[Top(f)])
    requires b.frames != map[] ==> FrameInv(s, t, b, Top(b.frames))
    requires Shape(b)
    requires b.outcome.Got? ==> (b.root, b.key) in s.cache && b.outcome.value == s.cache[(b.root, b.key)]
    ensures Inv(Update(s, t, b))
  {
    forall k ensures FrameInv(Update(s, t, b), t, b, k) {
      EndedFrame(s, t, b, k);
    }
    OwnStepKeepsInv(s, Update(s, t, b), t);
  }

  lemma ReturnKeeps(s: State, t: Tid, v: Value)
    requires Inv(s) && AtTop(s, t, Return(v))
    ensures Inv(Update(s, t, ReturnStep(s.threads[t], v)))
  {
    var th := s.threads[t];
    var rest := Popped(th);
    assert ThreadInv(s, t, th) && FrameInv(s, t, th, Top(th.frames));
    if rest == map[] {
      EndKeeps(s, t, th.(frames := rest, outcome := Got(v)));
    } else {
      ReturnToCaller(s, t, v);
    }
  }

  lemma ReturnToCaller(s: State, t: Tid, v: Value)
    requires Inv(s) && AtTop(s, t, Return(v)) && Popped(s.threads[t]) != map[]
    ensures Inv(Update(s, t, ReturnStep(s.threads[t], v)))
  {
    var th := s.threads[t];
    var rest := Popped(th);
    var caller := Top(rest);
    var b := ReturnStep(th, v);
    assert ThreadInv(s, t, th) && FrameInv(s, t, th, Top(th.frames)) && FrameInv(s, t, th, caller);
    SameTop(b.frames, rest);
    ShapeReturn(th, v);
    EndKeeps(s, t, b);
  }

  lemma ShapeReturn(th: Thread, v: Value)
    requires Shape(th) && th.frames != map[] && Popped(th) != map[]
    ensures Shape(ReturnStep(th, v))
  {
  }

  lemma ShapeThrow(th: Thread, c: Choice)
    requires Shape(th) && th.frames != map[]
    ensures Shape(ThrowStep(th, c))
  {
  }

  /** The whole look-up of an account key starts again. */
  lemma RetryKeeps(s: State, t: Tid)
    requires Inv(s) && AtTop(s, t, Throw) && Top(s.threads[t].frames) == AccountKeys
    ensures Inv(Update(s, t, SetTop(s.threads[t], Check)))
  {
    var th := s.threads[t];
    assert ThreadInv(s, t, th) && FrameInv(s, t, th, AccountKeys);
    MoveKeeps(s, t, Check);
  }

  lemma ThrowKeeps(s: State, t: Tid, c: Choice)
    requires Inv(s) && AtTop(s, t, Throw)
    ensures Inv(Update(s, t, ThrowStep(s.threads[t], c)))
  {
    if c == Again && Top(s.threads[t].frames) == AccountKeys {
      RetryKeeps(s, t);
    } else {
      PopKeeps(s, t, c);
    }
  }

  lemma PopKeeps(s: State, t: Tid, c: Choice)
    requires Inv(s) && AtTop(s, t, Throw) && !(c == Again && Top(s.threads[t].frames) == AccountKeys)
    ensures Inv(Update(s, t, ThrowStep(s.threads[t], c)))
  {
    var th, b := s.threads[t], ThrowStep(s.threads[t], c);
    var rest := Popped(th);
    assert ThreadInv(s, t, th) && FrameInv(s, t, th, Top(th.frames));
    ShapeThrow(th, c);
    if rest != map[] {
      assert FrameInv(s, t, th, Top(rest));
      SameTop(b.frames, rest);
    }
    EndKeeps(s, t, b);
  }

  lemma CheckKeeps(s: State, t: Tid)
    requires Inv(s) && AtTop(s, t, Check)
    ensures var th := s.threads[t]; var l := Top(th.frames); var slot := (l, th.key);
            Inv(Update(s, t, SetTop(th, if slot !in s.cache then WantLock
                                        else if l == KeyPairs then FinalRead else Return(s.cache[slot]))))
  {
    var th := s.threads[t];
    var l := Top(th.frames);
    var slot := (l, th.key);
    assert ThreadInv(s, t, th) && FrameInv(s, t, th, l);
    MoveKeeps(s, t, if slot !in s.cache then WantLock
                    else if l == KeyPairs then FinalRead else Return(s.cache[slot]));
  }

  lemma RecheckKeeps(s: State, t: Tid)
    requires Inv(s) && AtTop(s, t, Recheck)
    ensures var th := s.threads[t]; var slot := (Top(th.frames), th.key);
            Inv(Update(s, t, SetTop(th, if slot in s.cache then Leave(s.cache[slot]) else Build)))
  {
    var th := s.threads[t];
    var slot := (Top(th.frames), th.key);
    assert ThreadInv(s, t, th) && FrameInv(s, t, th, Top(th.frames));
    MoveKeeps(s, t, if slot in s.cache then Leave(s.cache[slot]) else Build);
  }

  lemma FinalReadKeeps(s: State, t: Tid)
    requires Inv(s) && AtTop(s, t, FinalRead)
    ensures var th := s.threads[t]; var slot := (Top(th.frames), th.key);
            slot in s.cache && Inv(Update(s, t, SetTop(th, Return(s.cache[slot]))))
  {
    var th := s.threads[t];
    var slot := (Top(th.frames), th.key);
    assert ThreadInv(s, t, th) && FrameInv(s, t, th, Top(th.frames));
    MoveKeeps(s, t, Return(s.cache[slot]));
  }

  /** Where a look-up goes after an outside request. */
  function AfterRequest(pc: Pc, c: Choice): Pc {
    match pc
    case Build => if c.Good? then Store(Secret(c.text)) else Unwind
    case FetchPublic(_) => if c.Good? then BuildPrivate(c.text) else if c == Again then Build else Unwind
    case FetchPrivate(publicKey, _) =>
      if c.Good? then Store(Pair(publicKey, c.text)) else if c == Again then BuildPrivate(publicKey) else Unwind
    case _ => pc
  }

  lemma RequestKeeps(s: State, t: Tid, c: Choice, pc: Pc)
    requires Inv(s) && AtTop(s, t, pc)
    requires pc.FetchPublic? || pc.FetchPrivate? || (pc.Build? && Top(s.threads[t].frames) == AccountKeys)
    ensures Inv(Update(s, t, SetTop(s.threads[t], AfterRequest(pc, c))))
  {
    var th := s.threads[t];
    assert ThreadInv(s, t, th) && FrameInv(s, t, th, Top(th.frames));
    MoveKeeps(s, t, AfterRequest(pc, c));
  }

  lemma CallerIsOuter(s: State, t: Tid, pc: Pc)
    requires Inv(s) && AtTop(s, t, pc) && pc.BuildPrivate?
    ensures Top(s.threads[t].frames) == KeyPairs
  {
    assert ThreadInv(s, t, s.threads[t]);
  }

  lemma StepKeepsInv(s: State, t: Tid, c: Choice)
    requires Inv(s)
    ensures Inv(Next(s, t, c))
  {
    if t in s.threads && s.threads[t].frames != map[] {
      var l := Top(s.threads[t].frames);
      var pc := s.threads[t].frames[l];
      assert AtTop(s, t, pc);
      match pc
      case Check => CheckKeeps(s, t);
      case WantLock => if l !in s.locks { AcquireKeeps(s, t); }
      case Recheck => RecheckKeeps(s, t);
      case Build => if l == AccountKeys { RequestKeeps(s, t, c, pc); } else { PushKeeps(s, t); }
      case BuildPrivate(_) =>
        CallerIsOuter(s, t, pc);
        PushKeeps(s, t);
      case FetchPublic(_) => RequestKeeps(s, t, c, pc);
      case FetchPrivate(_, _) => RequestKeeps(s, t, c, pc);
      case Store(v) => StoreKeeps(s, t, v);
      case Leave(v) => LeaveKeeps(s, t, v);
      case FinalRead => FinalReadKeeps(s, t);
      case Return(v) => ReturnKeeps(s, t, v);
      case Unwind => UnwindKeeps(s, t);
      case Throw => ThrowKeeps(s, t, c);
    }
  }

  lemma {:induction false} RunKeepsInv(s: State, events: seq<Event>)
    requires Inv(s)
    ensures Inv(Run(s, events))
    decreases |events|
  {
    if events != [] {
      StepKeepsInv(s, events[0].t, events[0].choice);
      RunKeepsInv(Next(s, events[0].t, events[0].choice), events[1..]);
    }
  }

  // ---------- main results ----------

  /** Empty caches, free locks, and any number of calls about to start. */
  ghost predicate Initial(s: State) {
    && s.cache == map[] && s.locks == map[]
    && forall t :: t in s.threads ==>
         s.threads[t].frames == map[s.threads[t].root := Check] && s.threads[t].outcome.Pending?
  }

  lemma InitialInv(s: State)
    requires Initial(s)
    ensures Inv(s)
  {
    forall t | t in s.threads ensures ThreadInv(s, t, s.threads[t]) {
      assert s.threads[t].root in s.threads[t].frames;
    }
  }

  /** A filled entry is never filled again: a step that stores into it would hold its lock after
      having missed it. */
  lemma FilledOnce(s: State, t: Tid, c: Choice)
    requires Inv(s)
    ensures forall x :: x in s.cache ==> x in Next(s, t, c).cache && Next(s, t, c).cache[x] == s.cache[x]
  {
    if t in s.threads && s.threads[t].frames != map[] {
      assert ThreadInv(s, t, s.threads[t]);
      assert FrameInv(s, t, s.threads[t], Top(s.threads[t].frames));
    }
  }

  lemma {:induction false} FilledStays(s: State, events: seq<Event>)
    requires Inv(s)
    ensures forall x :: x in s.cache ==> x in Run(s, events).cache && Run(s, events).cache[x] == s.cache[x]
    decreases |events|
  {
    if events != [] {
      StepKeepsInv(s, events[0].t, events[0].choice);
      FilledOnce(s, events[0].t, events[0].choice);
      FilledStays(Next(s, events[0].t, events[0].choice), events[1..]);
    }
  }

  /** Between any two moments of any run, no filled entry changes. */
  lemma FilledOnceInRun(s: State, before: seq<Event>, after: seq<Event>)
    requires Initial(s)
    ensures var r := Run(s, before); var e := Run(r, after);
            forall x :: x in r.cache ==> x in e.cache && e.cache[x] == r.cache[x]
  {
    InitialInv(s);
    RunKeepsInv(s, before);
    FilledStays(Run(s, before), after);
  }

  ghost predicate Returned(s: State, t: Tid, l: Level, k: Key, v: Value) {
    t in s.threads && s.threads[t].root == l && s.threads[t].key == k && s.threads[t].outcome == Got(v)
  }

  /** In every interleaving, with any requests failing and being retried: all calls for one key of
      one cache return the same value, which is the cached one, and goes on to be; every cached
      file or blob service was built with exactly the account key cached for its group and storage. */
  lemma AllRuns(s: State, before: seq<Event>, after: seq<Event>)
    requires Initial(s)
    ensures var r := Run(s, before); var e := Run(r, after);
            && (forall t, l, k, v :: Returned(r, t, l, k, v) ==>
                  (l, k) in r.cache && r.cache[(l, k)] == v && (l, k) in e.cache && e.cache[(l, k)] == v)
            && (forall t, u, l, k, v, w :: Returned(r, t, l, k, v) && Returned(e, u, l, k, w) ==> v == w)
            && (forall l, k :: (l, k) in e.cache && (l.FileServices? || l.BlobServices?) ==>
                  (AccountKeys, k) in e.cache && e.cache[(l, k)] == Service(k.storage, e.cache[(AccountKeys, k)]))
  {
    InitialInv(s);
    RunKeepsInv(s, before);
    var r := Run(s, before);
    RunKeepsInv(r, after);
    var e := Run(r, after);
    FilledStays(r, after);
    forall t, l, k, v | Returned(r, t, l, k, v) ensures (l, k) in r.cache && r.cache[(l, k)] == v {
      assert ThreadInv(r, t, r.threads[t]);
    }
    forall t, l, k, v | Returned(e, t, l, k, v) ensures (l, k) in e.cache && e.cache[(l, k)] == v {
      assert ThreadInv(e, t, e.threads[t]);
    }
  }

  // ---------- what the values are made of ----------

  datatype Request = AccountKey | PublicFile | PrivateFile

  /** A request of a thread's call and the text that answered it. */
  datatype Answer = Answer(t: Tid, request: Request, text: string)

  /** The successful answer that the event brings, if it brings one. */
  function Answered(s: State, e: Event): set<Answer> {
    if e.t !in s.threads || s.threads[e.t].frames == map[] || !e.choice.Good? then {}
    else
      var l := Top(s.threads[e.t].frames);
      match s.threads[e.t].frames[l]
      case Build => if l == AccountKeys then {Answer(e.t, AccountKey, e.choice.text)} else {}
      case FetchPublic(_) => {Answer(e.t, PublicFile, e.choice.text)}
      case FetchPrivate(_, _) => {Answer(e.t, PrivateFile, e.choice.text)}
      case _ => {}
  }

  /** All successful answers in a run. */
  function Answers(s: State, events: seq<Event>): set<Answer>
    decreases |events|
  {
    if events == [] then {}
    else Answered(s, events[0]) + Answers(Next(s, events[0].t, events[0].choice), events[1..])
  }

  /** The value consists of what one call's own requests answered: an account key of its text, a key
      pair of the text of the public file and the text of the private file. */
  predicate MadeBy(t: Tid, l: Level, v: Value, heard: set<Answer>) {
    && (l == AccountKeys ==> v.Secret? && Answer(t, AccountKey, v.text) in heard)
    && (l == KeyPairs ==>
          && v.Pair?
          && Answer(t, PublicFile, v.publicKey) in heard && Answer(t, PrivateFile, v.privateKey) in heard)
  }

  /** Some call for this key made the value. */
  ghost predicate Made(s: State, l: Level, k: Key, v: Value, heard: set<Answer>) {
    exists t :: t in s.threads && s.threads[t].key == k && MadeBy(t, l, v, heard)
  }

  ghost predicate FrameKnown(t: Tid, l: Level, pc: Pc, heard: set<Answer>) {
    && (pc.BuildPrivate? || pc.FetchPrivate? ==> Answer(t, PublicFile, pc.publicKey) in heard)
    && (pc.Store? ==> MadeBy(t, l, pc.value, heard))
  }

  ghost predicate ThreadKnown(t: Tid, th: Thread, heard: set<Answer>) {
    forall l :: l in th.frames ==> FrameKnown(t, l, th.frames[l], heard)
  }

  ghost predicate Known(s: State, heard: set<Answer>) {
    && (forall t :: t in s.threads ==> ThreadKnown(t, s.threads[t], heard))
    && (forall l, k :: (l, k) in s.cache ==> Made(s, l, k, s.cache[(l, k)], heard))
  }

  lemma StillMade(s: State, r: State, l: Level, k: Key, v: Value, heard: set<Answer>, more: set<Answer>)
    requires Made(s, l, k, v, heard) && heard <= more
    requires forall t :: t in s.threads ==> t in r.threads && r.threads[t].key == s.threads[t].key
    ensures Made(r, l, k, v, more)
  {
    var t :| t in s.threads && s.threads[t].key == k && MadeBy(t, l, v, heard);
    assert t in r.threads && r.threads[t].key == k && MadeBy(t, l, v, more);
  }

  /** A step of one thread, which at most stores a value it made. */
  lemma OwnStepKnown(s: State, r: State, t: Tid, heard: set<Answer>, more: set<Answer>)
    requires Known(s, heard) && heard <= more && t in s.threads && t in r.threads
    requires r.threads == s.threads[t := r.threads[t]] && r.threads[t].key == s.threads[t].key
    requires ThreadKnown(t, r.threads[t], more)
    requires forall l, k :: (l, k) in r.cache ==>
               ((l, k) in s.cache && r.cache[(l, k)] == s.cache[(l, k)])
               || (k == s.threads[t].key && MadeBy(t, l, r.cache[(l, k)], more))
    ensures Known(r, more)
  {
    forall u | u in r.threads ensures ThreadKnown(u, r.threads[u], more) {
      assert u != t ==> ThreadKnown(u, s.threads[u], heard);
    }
    forall l, k | (l, k) in r.cache ensures Made(r, l, k, r.cache[(l, k)], more) {
      if (l, k) in s.cache && r.cache[(l, k)] == s.cache[(l, k)] {
        StillMade(s, r, l, k, r.cache[(l, k)], heard, more);
      } else {
        assert MadeBy(t, l, r.cache[(l, k)], more);
      }
    }
  }

  lemma SetTopKnown(t: Tid, th: Thread, pc: Pc, heard: set<Answer>, more: set<Answer>)
    requires th.frames != map[] && ThreadKnown(t, th, heard) && heard <= more
    requires FrameKnown(t, Top(th.frames), pc, more)
    ensures ThreadKnown(t, SetTop(th, pc), more)
  {
    forall l | l in SetTop(th, pc).frames ensures FrameKnown(t, l, SetTop(th, pc).frames[l], more) {
      assert l != Top(th.frames) ==> FrameKnown(t, l, th.frames[l], heard);
    }
  }

  lemma ReturnKnown(t: Tid, th: Thread, v: Value, heard: set<Answer>)
    requires th.frames != map[] && ThreadKnown(t, th, heard) && Shape(th)
    ensures ThreadKnown(t, ReturnStep(th, v), heard)
  {
    var rest := Popped(th);
    if rest != map[] {
      assert Top(rest) != AccountKeys;
      assert FrameKnown(t, Top(rest), rest[Top(rest)], heard);
    }
  }

  lemma ThrowKnown(t: Tid, th: Thread, c: Choice, heard: set<Answer>)
    requires th.frames != map[] && ThreadKnown(t, th, heard)
    ensures ThreadKnown(t, ThrowStep(th, c), heard)
  {
    if c == Again && Top(th.frames) == AccountKeys { SetTopKnown(t, th, Check, heard, heard); }
  }

  /** Steps that move the innermost look-up, also taking or giving back its lock. */
  lemma MoveKnown(s: State, t: Tid, pc: Pc, locks: map<Level, Tid>, heard: set<Answer>, more: set<Answer>)
    requires Known(s, heard) && heard <= more && t in s.threads && s.threads[t].frames != map[]
    requires FrameKnown(t, Top(s.threads[t].frames), pc, more)
    ensures Known(Update(s, t, SetTop(s.threads[t], pc)).(locks := locks), more)
  {
    var th := s.threads[t];
    SetTopKnown(t, th, pc, heard, more);
    OwnStepKnown(s, Update(s, t, SetTop(th, pc)).(locks := locks), t, heard, more);
  }

  /** An answered request brings what the look-up goes on with. */
  lemma RequestKnown(s: State, t: Tid, c: Choice, pc: Pc, heard: set<Answer>)
    requires Inv(s) && Known(s, heard) && AtTop(s, t, pc)
    requires pc.FetchPublic? || pc.FetchPrivate? || (pc.Build? && Top(s.threads[t].frames) == AccountKeys)
    ensures Known(Update(s, t, SetTop(s.threads[t], AfterRequest(pc, c))), heard + Answered(s, Event(t, c)))
  {
    var th := s.threads[t];
    var l := Top(th.frames);
    assert ThreadInv(s, t, th) && ThreadKnown(t, th, heard) && FrameKnown(t, l, pc, heard);
    MoveKnown(s, t, AfterRequest(pc, c), s.locks, heard, heard + Answered(s, Event(t, c)));
  }

  lemma StoreKnown(s: State, t: Tid, v: Value, heard: set<Answer>)
    requires Known(s, heard) && AtTop(s, t, Store(v))
    ensures var th := s.threads[t];
            Known(Update(s, t, SetTop(th, Leave(v))).(cache := s.cache[(Top(th.frames), th.key) := v]), heard)
  {
    var th := s.threads[t];
    var l := Top(th.frames);
    assert ThreadKnown(t, th, heard) && FrameKnown(t, l, Store(v), heard);
    SetTopKnown(t, th, Leave(v), heard, heard);
    OwnStepKnown(s, Update(s, t, SetTop(th, Leave(v))).(cache := s.cache[(l, th.key) := v]), t, heard, heard);
  }

  lemma PushKnown(s: State, t: Tid, l: Level, heard: set<Answer>)
    requires Known(s, heard) && t in s.threads
    ensures Known(Update(s, t, s.threads[t].(frames := s.threads[t].frames[l := Check])), heard)
  {
    var th := s.threads[t];
    var b := th.(frames := th.frames[l := Check]);
    forall k | k in b.frames ensures FrameKnown(t, k, b.frames[k], heard) {
      assert k != l ==> FrameKnown(t, k, th.frames[k], heard);
    }
    OwnStepKnown(s, Update(s, t, b), t, heard, heard);
  }

  lemma ReturnStepKnown(s: State, t: Tid, v: Value, heard: set<Answer>)
    requires Known(s, heard) && AtTop(s, t, Return(v)) && Shape(s.threads[t])
    ensures Known(Update(s, t, ReturnStep(s.threads[t], v)), heard)
  {
    ReturnKnown(t, s.threads[t], v, heard);
    OwnStepKnown(s, Update(s, t, ReturnStep(s.threads[t], v)), t, heard, heard);
  }

  lemma ThrowStepKnown(s: State, t: Tid, c: Choice, heard: set<Answer>)
    requires Known(s, heard) && AtTop(s, t, Throw)
    ensures Known(Update(s, t, ThrowStep(s.threads[t], c)), heard)
  {
    ThrowKnown(t, s.threads[t], c, heard);
    OwnStepKnown(s, Update(s, t, ThrowStep(s.threads[t], c)), t, heard, heard);
  }

  lemma StepKnown(s: State, t: Tid, c: Choice, heard: set<Answer>)
    requires Inv(s) && Known(s, heard)
    ensures Known(Next(s, t, c), heard + Answered(s, Event(t, c)))
  {
    if t in s.threads && s.threads[t].frames != map[] {
      var th := s.threads[t];
      var l := Top(th.frames);
      var pc := th.frames[l];
      var slot := (l, th.key);
      assert AtTop(s, t, pc) && ThreadInv(s, t, th);
      if pc.FetchPublic? || pc.FetchPrivate? || (pc.Build? && l == AccountKeys) {
        RequestKnown(s, t, c, pc, heard);
      } else {
        assert heard + Answered(s, Event(t, c)) == heard;
        QuietStepKnown(s, t, c, heard);
      }
    }
  }

  lemma QuietStepKnown(s: State, t: Tid, c: Choice, heard: set<Answer>)
    requires Inv(s) && Known(s, heard) && t in s.threads && s.threads[t].frames != map[]
    requires var l := Top(s.threads[t].frames); var pc := s.threads[t].frames[l];
             !pc.FetchPublic? && !pc.FetchPrivate? && !(pc.Build? && l == AccountKeys)
    ensures Known(Next(s, t, c), heard)
  {
    var th := s.threads[t];
    var l := Top(th.frames);
    var pc := th.frames[l];
    var slot := (l, th.key);
    assert AtTop(s, t, pc) && ThreadInv(s, t, th) && FrameInv(s, t, th, l);
    match pc
    case Check =>
      MoveKnown(s, t, if slot !in s.cache then WantLock else if l == KeyPairs then FinalRead else Return(s.cache[slot]),
                s.locks, heard, heard);
    case WantLock => if l !in s.locks { MoveKnown(s, t, Recheck, s.locks[l := t], heard, heard); }
    case Recheck => MoveKnown(s, t, if slot in s.cache then Leave(s.cache[slot]) else Build, s.locks, heard, heard);
    case Build => PushKnown(s, t, Callee(l), heard);
    case BuildPrivate(_) => PushKnown(s, t, Callee(l), heard);
    case Store(v) => StoreKnown(s, t, v, heard);
    case Leave(v) => MoveKnown(s, t, if l == KeyPairs then FinalRead else Return(v), s.locks - {l}, heard, heard);
    case FinalRead => MoveKnown(s, t, Return(s.cache[slot]), s.locks, heard, heard);
    case Unwind => MoveKnown(s, t, Throw, s.locks - {l}, heard, heard);
    case Return(v) => ReturnStepKnown(s, t, v, heard);
    case Throw => ThrowStepKnown(s, t, c, heard);
    case _ =>
  }

  lemma {:induction false} RunKnown(s: State, events: seq<Event>, heard: set<Answer>)
    requires Inv(s) && Known(s, heard)
    ensures Known(Run(s, events), heard + Answers(s, events))
    decreases |events|
  {
    if events == [] {
      assert heard + {} == heard;
    } else {
      var e, next := events[0], Next(s, events[0].t, events[0].choice);
      StepKeepsInv(s, e.t, e.choice);
      StepKnown(s, e.t, e.choice, heard);
      RunKnown(next, events[1..], heard + Answered(s, e));
      assert heard + Answered(s, e) + Answers(next, events[1..]) == heard + Answers(s, events);
    }
  }

  /** In every interleaving, every cached and every returned account key or key pair consists of what
      one call for its key was answered: the public key is the public file's text, the private key
      the private file's. */
  lemma ValuesAreAnswered(s: State, events: seq<Event>)
    requires Initial(s)
    ensures var r, heard := Run(s, events), Answers(s, events);
            && (forall l, k :: (l, k) in r.cache ==> Made(r, l, k, r.cache[(l, k)], heard))
            && (forall t, l, k, v :: Returned(r, t, l, k, v) ==> Made(r, l, k, v, heard))
  {
    InitialInv(s);
    assert Known(s, {});
    RunKnown(s, events, {});
    assert {} + Answers(s, events) == Answers(s, events);
    AllRuns(s, events, []);
  }

  /** So where the files of a key read the same at every successful request, exactly this pair is
      cached and returned. */
  lemma OneKeyPair(s: State, events: seq<Event>, k: Key, publicKey: string, privateKey: string)
    requires Initial(s)
    requires var r := Run(s, events);
             forall a :: a in Answers(s, events) && a.t in r.threads && r.threads[a.t].key == k ==>
               (a.request.PublicFile? ==> a.text == publicKey) && (a.request.PrivateFile? ==> a.text == privateKey)
    ensures var r := Run(s, events);
            && ((KeyPairs, k) in r.cache ==> r.cache[(KeyPairs, k)] == Pair(publicKey, privateKey))
            && (forall t, v :: Returned(r, t, KeyPairs, k, v) ==> v == Pair(publicKey, privateKey))
  {
    ValuesAreAnswered(s, events);
    AllRuns(s, events, []);
    var r, heard := Run(s, events), Answers(s, events);
    if (KeyPairs, k) in r.cache {
      var v := r.cache[(KeyPairs, k)];
      var t :| t in r.threads && r.threads[t].key == k && MadeBy(t, KeyPairs, v, heard);
      assert Answer(t, PublicFile, v.publicKey).text == publicKey;
      assert Answer(t, PrivateFile, v.privateKey).text == privateKey;
    }
  }

  // ---------- why a call fails ----------

  predicate IsRequest(l: Level, pc: Pc) { pc.FetchPublic? || pc.FetchPrivate? || (pc.Build? && l == AccountKeys) }

  /** A request of the call of `t` is refused. */
  predicate Refused(s: State, e: Event, t: Tid) {
    && e.t == t && t in s.threads && s.threads[t].frames != map[] && !e.choice.Good?
    && IsRequest(Top(s.threads[t].frames), s.threads[t].frames[Top(s.threads[t].frames)])
  }

  predicate RefusedIn(s: State, events: seq<Event>, t: Tid)
    decreases |events|
  {
    events != [] && (Refused(s, events[0], t) || RefusedIn(Next(s, events[0].t, events[0].choice), events[1..], t))
  }

  /** An exception is on its way through the call's look-ups, or has ended it. */
  predicate Failing(th: Thread) {
    th.outcome.Threw? || exists l :: l in th.frames && (th.frames[l].Unwind? || th.frames[l].Throw?)
  }

  lemma TopSound(th: Thread, pc: Pc)
    requires th.frames != map[] && !Failing(th) && !pc.Unwind? && !pc.Throw?
    ensures !Failing(SetTop(th, pc))
  {
  }

  lemma ReturnSound(th: Thread, v: Value)
    requires th.frames != map[] && !Failing(th)
    ensures !Failing(ReturnStep(th, v))
  {
  }

  lemma OtherStays(s: State, t: Tid, e: Event)
    requires t in s.threads && e.t != t
    ensures t in Next(s, e.t, e.choice).threads && Next(s, e.t, e.choice).threads[t] == s.threads[t]
  {
  }

  lemma MoveSound(s: State, t: Tid, c: Choice)
    requires t in s.threads && !Failing(s.threads[t]) && s.threads[t].frames != map[]
    requires !Refused(s, Event(t, c), t)
    requires var l := Top(s.threads[t].frames); var pc := s.threads[t].frames[l];
             !pc.Return? && (Calling(pc) ==> IsRequest(l, pc))
    ensures var th := s.threads[t]; var r := Next(s, t, c);
            t in r.threads && exists pc: Pc :: !pc.Unwind? && !pc.Throw? && r.threads[t] == SetTop(th, pc)
  {
    var th, r := s.threads[t], Next(s, t, c);
    var l := Top(th.frames);
    assert !th.frames[l].Unwind? && !th.frames[l].Throw?;
    assert r == s || r.threads[t] == SetTop(th, r.threads[t].frames[l]);
    assert SetTop(th, th.frames[l]) == th;
  }

  lemma StepSound(s: State, e: Event, t: Tid)
    requires t in s.threads && !Failing(s.threads[t]) && !Refused(s, e, t)
    ensures t in Next(s, e.t, e.choice).threads && !Failing(Next(s, e.t, e.choice).threads[t])
  {
    var th := s.threads[t];
    if e.t != t {
      OtherStays(s, t, e);
    } else if th.frames != map[] {
      var pc := th.frames[Top(th.frames)];
      if pc.Return? {
        ReturnSound(th, pc.value);
      } else if Calling(pc) && !IsRequest(Top(th.frames), pc) {
        PushSound(th, Callee(Top(th.frames)));
      } else {
        MoveSound(s, t, e.choice);
        var next: Pc :| !next.Unwind? && !next.Throw? && Next(s, t, e.choice).threads[t] == SetTop(th, next);
        TopSound(th, next);
      }
    }
  }

  lemma PushSound(th: Thread, l: Level)
    requires !Failing(th)
    ensures !Failing(th.(frames := th.frames[l := Check]))
  {
  }

  lemma {:induction false} RunSound(s: State, events: seq<Event>, t: Tid)
    requires t in s.threads && !Failing(s.threads[t]) && !RefusedIn(s, events, t)
    ensures t in Run(s, events).threads && !Failing(Run(s, events).threads[t])
    decreases |events|
  {
    if events != [] {
      StepSound(s, events[0], t);
      RunSound(Next(s, events[0].t, events[0].choice), events[1..], t);
    }
  }

  /** A call raises only if a request of its own was refused: whatever happens to the calls it waits
      for, it does not fail with them. */
  lemma FailsOnlyIfRefused(s: State, events: seq<Event>, t: Tid)
    requires Initial(s) && t in s.threads && !RefusedIn(s, events, t)
    ensures t in Run(s, events).threads && !Run(s, events).threads[t].outcome.Threw?
  {
    RunSound(s, events, t);
  }

  // ---------- and when it does not ----------

  /** The call of `t` gives up: the reading of a key file is not retried, or the look-up of an account
      key that raised is not. */
  predicate GivesUp(s: State, e: Event, t: Tid) {
    && e.t == t && t in s.threads && s.threads[t].frames != map[]
    && var pc := s.threads[t].frames[Top(s.threads[t].frames)];
       || ((pc.FetchPublic? || pc.FetchPrivate?) && e.choice == Bad)
       || (pc.Throw? && e.choice != Again)
  }

  predicate GivesUpIn(s: State, events: seq<Event>, t: Tid)
    decreases |events|
  {
    events != [] && (GivesUp(s, events[0], t) || GivesUpIn(Next(s, events[0].t, events[0].choice), events[1..], t))
  }

  /** An exception has got past the account keys. */
  predicate Broken(th: Thread) {
    || th.outcome.Threw?
    || exists l :: l in th.frames && l != AccountKeys && (th.frames[l].Unwind? || th.frames[l].Throw?)
  }

  lemma TopFirm(th: Thread, pc: Pc)
    requires th.frames != map[] && !Broken(th)
    requires Top(th.frames) == AccountKeys || (!pc.Unwind? && !pc.Throw?)
    ensures !Broken(SetTop(th, pc))
  {
  }

  lemma ReturnFirm(th: Thread, v: Value)
    requires th.frames != map[] && !Broken(th)
    ensures !Broken(ReturnStep(th, v))
  {
  }

  lemma PushFirm(th: Thread, l: Level)
    requires !Broken(th)
    ensures !Broken(th.(frames := th.frames[l := Check]))
  {
  }

  lemma MoveFirm(s: State, t: Tid, c: Choice)
    requires t in s.threads && !Broken(s.threads[t]) && s.threads[t].frames != map[]
    requires !GivesUp(s, Event(t, c), t)
    requires var l := Top(s.threads[t].frames); var pc := s.threads[t].frames[l];
             !pc.Return? && (Calling(pc) ==> IsRequest(l, pc))
    ensures var th := s.threads[t]; var r := Next(s, t, c);
            && t in r.threads
            && exists pc: Pc ::
                 && (Top(th.frames) == AccountKeys || (!pc.Unwind? && !pc.Throw?))
                 && r.threads[t] == SetTop(th, pc)
  {
    var th, r := s.threads[t], Next(s, t, c);
    var l := Top(th.frames);
    assert l != AccountKeys ==> !th.frames[l].Unwind? && !th.frames[l].Throw?;
    assert r == s || r.threads[t] == SetTop(th, r.threads[t].frames[l]);
    assert SetTop(th, th.frames[l]) == th;
  }

  lemma StepFirm(s: State, e: Event, t: Tid)
    requires t in s.threads && !Broken(s.threads[t]) && !GivesUp(s, e, t)
    ensures t in Next(s, e.t, e.choice).threads && !Broken(Next(s, e.t, e.choice).threads[t])
  {
    var th := s.threads[t];
    if e.t != t {
      OtherStays(s, t, e);
    } else if th.frames != map[] {
      var pc := th.frames[Top(th.frames)];
      if pc.Return? {
        ReturnFirm(th, pc.value);
      } else if Calling(pc) && !IsRequest(Top(th.frames), pc) {
        PushFirm(th, Callee(Top(th.frames)));
      } else {
        MoveFirm(s, t, e.choice);
        var next: Pc :| (Top(th.frames) == AccountKeys || (!next.Unwind? && !next.Throw?))
                        && Next(s, t, e.choice).threads[t] == SetTop(th, next);
        TopFirm(th, next);
      }
    }
  }

  lemma {:induction false} RunFirm(s: State, events: seq<Event>, t: Tid)
    requires t in s.threads && !Broken(s.threads[t]) && !GivesUpIn(s, events, t)
    ensures t in Run(s, events).threads && !Broken(Run(s, events).threads[t])
    decreases |events|
  {
    if events != [] {
      StepFirm(s, events[0], t);
      RunFirm(Next(s, events[0].t, events[0].choice), events[1..], t);
    }
  }

  /** However many of its requests are refused, a call that retries them all does not raise. */
  lemma FailsOnlyIfItGivesUp(s: State, events: seq<Event>, t: Tid)
    requires Initial(s) && t in s.threads && !GivesUpIn(s, events, t)
    ensures t in Run(s, events).threads && !Run(s, events).threads[t].outcome.Threw?
  {
    RunFirm(s, events, t);
  }

  /** The locks are taken in descending rank: a waiting look-up leads to its lock's holder, whose
      innermost look-up has a lower rank or can go on. */
  lemma {:induction false} FollowHolders(s: State, t: Tid) returns (u: Tid)
    requires Inv(s) && t in s.threads && s.threads[t].frames != map[]
    ensures Next(s, u, Good("")) != s
    decreases Rank(Top(s.threads[t].frames))
  {
    var th := s.threads[t];
    var l := Top(th.frames);
    assert ThreadInv(s, t, th) && FrameInv(s, t, th, l);
    u := t;
    if th.frames[l].WantLock? && l in s.locks {
      var h := s.locks[l];
      assert Holds(s, l, h);
      assert ThreadInv(s, h, s.threads[h]) && FrameInv(s, h, s.threads[h], l);
      if Top(s.threads[h].frames) == l {
        TopCanStep(s, h);
        u := h;
      } else {
        LowerTop(s.threads[h], l);
        u := FollowHolders(s, h);
      }
    } else {
      TopCanStep(s, t);
    }
  }

  /** No set of threads ever waits in a circle: at any moment of any run in which a call is
      unfinished, some thread can take a step. */
  lemma SomeThreadCanStep(s: State, events: seq<Event>, t: Tid)
    requires Initial(s)
    requires var r := Run(s, events); t in r.threads && r.threads[t].outcome.Pending?
    ensures var r := Run(s, events); exists u, c :: Next(r, u, c) != r
  {
    InitialInv(s);
    RunKeepsInv(s, events);
    var r := Run(s, events);
    assert ThreadInv(r, t, r.threads[t]);
    var u := FollowHolders(r, t);
  }

  lemma EndingSteps(s: State, t: Tid, pc: Pc)
    requires AtTop(s, t, pc) && (pc.Return? || pc.Throw?)
    ensures Next(s, t, Good("")) != s
  {
    assert Top(s.threads[t].frames) !in Next(s, t, Good("")).threads[t].frames;
  }

  lemma CallingSteps(s: State, t: Tid, pc: Pc)
    requires AtTop(s, t, pc) && Calling(pc) && Shape(s.threads[t]) && Top(s.threads[t].frames) != AccountKeys
    ensures Next(s, t, Good("")) != s
  {
    ShapePush(s.threads[t]);
    assert Callee(Top(s.threads[t].frames)) in Next(s, t, Good("")).threads[t].frames;
  }

  /** A look-up that does not wait for a lock in use can go on. */
  lemma TopCanStep(s: State, t: Tid)
    requires Inv(s) && t in s.threads && s.threads[t].frames != map[]
    requires var l := Top(s.threads[t].frames); !(s.threads[t].frames[l].WantLock? && l in s.locks)
    ensures Next(s, t, Good("")) != s
  {
    var th := s.threads[t];
    var l := Top(th.frames);
    var pc := th.frames[l];
    assert ThreadInv(s, t, th) && FrameInv(s, t, th, l);
    if pc.Return? || pc.Throw? {
      EndingSteps(s, t, pc);
    } else if Calling(pc) && l != AccountKeys {
      CallingSteps(s, t, pc);
    } else {
      assert Next(s, t, Good("")).threads[t].frames[l] != pc;
    }
  }

  /** Below a look-up that holds its lock, another one in progress has a lower rank. */
  lemma LowerTop(th: Thread, l: Level)
    requires Shape(th) && l in th.frames && Top(th.frames) != l
    ensures Rank(Top(th.frames)) < Rank(l)
  {
  }
}
