/** The provider of named locks: any number of threads ask for locks and remove them. A key is
    looked up without the provider's own mutex, looked up again with it, then created or deleted;
    the lock to return is fetched without it. One step of a thread is one dictionary access or one
    mutex operation. */
module LockProvider {
  import opened Wrappers

  type Tid = nat
  type Key = string
  type LockId = nat

  datatype Pc =
    | GetCheck
    | GetWait
    | GetRecheck
    | Create
    | GetLeave
    | Fetch
    | Got(lock: LockId)
    | NoSuchKey
    | RemoveCheck
    | RemoveWait
    | RemoveRecheck
    | Delete
    | RemoveLeave
    | Removed

  datatype Thread = Thread(key: Key, pc: Pc)

  /** `made` counts the locks made so far. */
  datatype State = State(dict: map<Key, LockId>, mutex: Option<Tid>, made: nat, threads: map<Tid, Thread>)

  function Goto(s: State, t: Tid, pc: Pc): State
    requires t in s.threads
  {
    s.(threads := s.threads[t := s.threads[t].(pc := pc)])
  }

  function Acquire(s: State, t: Tid, pc: Pc): State
    requires t in s.threads
  {
    if s.mutex.None? then Goto(s, t, pc).(mutex := Some(t)) else s
  }

  /** One step of thread `t`; it stays put while it waits for the mutex, and once it is finished. */
  function Next(s: State, t: Tid): State {
    if t !in s.threads then s
    else
      var k := s.threads[t].key;
      match s.threads[t].pc
      case GetCheck => Goto(s, t, if k in s.dict then Fetch else GetWait)
      case GetWait => Acquire(s, t, GetRecheck)
      case GetRecheck => Goto(s, t, if k in s.dict then GetLeave else Create)
      case Create => Goto(s, t, GetLeave).(dict := s.dict[k := s.made], made := s.made + 1)
      case GetLeave => Goto(s, t, Fetch).(mutex := None)
      case Fetch => Goto(s, t, if k in s.dict then Got(s.dict[k]) else NoSuchKey)
      case RemoveCheck => Goto(s, t, if k in s.dict then RemoveWait else Removed)
      case RemoveWait => Acquire(s, t, RemoveRecheck)
      case RemoveRecheck => Goto(s, t, if k in s.dict then Delete else RemoveLeave)
      case Delete => Goto(s, t, RemoveLeave).(dict := s.dict - {k})
      case RemoveLeave => Goto(s, t, Removed).(mutex := None)
      case _ => s
  }

  function Run(s: State, events: seq<Tid>): State
    decreases |events|
  {
    if events == [] then s else Run(Next(s, events[0]), events[1..])
  }

  // ---------- the invariant ----------

  predicate HoldsMutex(pc: Pc) {
    pc.GetRecheck? || pc.Create? || pc.GetLeave? || pc.RemoveRecheck? || pc.Delete? || pc.RemoveLeave?
  }

  ghost predicate ThreadInv(s: State, t: Tid)
    requires t in s.threads
  {
    var k, pc := s.threads[t].key, s.threads[t].pc;
    && (HoldsMutex(pc) <==> s.mutex == Some(t))
    && (pc.Create? ==> k !in s.dict)
    && (pc.Delete? || pc.GetLeave? ==> k in s.dict)
    && (pc.Got? ==> pc.lock < s.made)
  }

  ghost predicate DictInv(s: State) {
    && (forall k :: k in s.dict ==> s.dict[k] < s.made)
    && (forall j, k :: j in s.dict && k in s.dict && s.dict[j] == s.dict[k] ==> j == k)
  }

  /** Different keys have different locks; entries appear and disappear only under the mutex; what
      is about to be deleted is there, so that the deletion never raises. */
  ghost predicate Inv(s: State) {
    && DictInv(s)
    && (forall t :: t in s.threads ==> ThreadInv(s, t))
    && (s.mutex.Some? ==> s.mutex.value in s.threads)
  }

  /** Any locks may exist already; all calls are about to start. */
  ghost predicate Initial(s: State) {
    && DictInv(s) && s.mutex.None?
    && forall t :: t in s.threads ==> s.threads[t].pc == GetCheck || s.threads[t].pc == RemoveCheck
  }

  lemma StepKeepsInv(s: State, t: Tid)
    requires Inv(s)
    ensures Inv(Next(s, t)) && s.made <= Next(s, t).made
  {
    if t in s.threads {
      var r := Next(s, t);
      assert ThreadInv(s, t);
      forall u | u in r.threads ensures ThreadInv(r, u) {
        assert ThreadInv(s, u);
      }
    }
  }

  lemma {:induction false} RunKeepsInv(s: State, events: seq<Tid>)
    requires Inv(s)
    ensures Inv(Run(s, events)) && s.made <= Run(s, events).made
    decreases |events|
  {
    if events != [] {
      StepKeepsInv(s, events[0]);
      RunKeepsInv(Next(s, events[0]), events[1..]);
    }
  }

  // ---------- one lock per key, until it is removed ----------

  predicate Deletes(s: State, t: Tid, k: Key) {
    t in s.threads && s.threads[t] == Thread(k, Delete)
  }

  predicate DeletedIn(s: State, events: seq<Tid>, k: Key)
    decreases |events|
  {
    events != [] && (Deletes(s, events[0], k) || DeletedIn(Next(s, events[0]), events[1..], k))
  }

  lemma {:induction false} EntryStays(s: State, events: seq<Tid>, k: Key)
    requires Inv(s) && k in s.dict && !DeletedIn(s, events, k)
    ensures k in Run(s, events).dict && Run(s, events).dict[k] == s.dict[k]
    decreases |events|
  {
    if events != [] {
      StepKeepsInv(s, events[0]);
      if events[0] in s.threads { assert ThreadInv(s, events[0]); }
      EntryStays(Next(s, events[0]), events[1..], k);
    }
  }

  /** An entry made anew, now or after a deletion, has a lock not seen before. */
  lemma {:induction false} NewEntryIsNew(s: State, events: seq<Tid>, k: Key)
    requires Inv(s) && (k in s.dict ==> DeletedIn(s, events, k))
    ensures k in Run(s, events).dict ==> Run(s, events).dict[k] >= s.made
    decreases |events|
  {
    if events != [] {
      var t, next := events[0], Next(s, events[0]);
      StepKeepsInv(s, t);
      if t in s.threads { assert ThreadInv(s, t); }
      if k in next.dict && !DeletedIn(next, events[1..], k) {
        EntryStays(next, events[1..], k);
      } else {
        NewEntryIsNew(next, events[1..], k);
      }
    }
  }

  /** Between any two moments of any run, a key keeps its lock exactly if it was not deleted in
      between. */
  lemma SameLockIff(s: State, before: seq<Tid>, after: seq<Tid>, k: Key)
    requires Initial(s)
    requires var r := Run(s, before); k in r.dict && k in Run(r, after).dict
    ensures var r := Run(s, before); Run(r, after).dict[k] == r.dict[k] <==> !DeletedIn(r, after, k)
  {
    RunKeepsInv(s, before);
    var r := Run(s, before);
    if DeletedIn(r, after, k) {
      NewEntryIsNew(r, after, k);
    } else {
      EntryStays(r, after, k);
    }
  }

  /** Every call for `k` that is past its checks has, or will find, the key's entry. */
  ghost predicate Faithful(s: State, k: Key) {
    forall t :: t in s.threads && s.threads[t].key == k ==>
      var pc := s.threads[t].pc;
      && (pc.Got? ==> k in s.dict && pc.lock == s.dict[k])
      && (pc.Fetch? ==> k in s.dict)
      && !pc.NoSuchKey?
  }

  lemma StepFaithful(s: State, t: Tid, k: Key)
    requires Inv(s) && Faithful(s, k) && !Deletes(s, t, k)
    ensures Faithful(Next(s, t), k)
  {
    if t in s.threads { assert ThreadInv(s, t); }
  }

  lemma {:induction false} StaysFaithful(s: State, events: seq<Tid>, k: Key)
    requires Inv(s) && Faithful(s, k) && !DeletedIn(s, events, k)
    ensures Faithful(Run(s, events), k)
    decreases |events|
  {
    if events != [] {
      StepKeepsInv(s, events[0]);
      StepFaithful(s, events[0], k);
      StaysFaithful(Next(s, events[0]), events[1..], k);
    }
  }

  /** While a key is not deleted, all callers get the same lock for it, and none fails; callers for
      another key get another lock. */
  lemma CallersShare(s: State, events: seq<Tid>, t: Tid, u: Tid)
    requires Initial(s) && t in Run(s, events).threads && u in Run(s, events).threads
    requires var a := Run(s, events).threads; a[t].pc.Got? && a[u].pc.Got?
    requires !DeletedIn(s, events, Run(s, events).threads[t].key)
    requires !DeletedIn(s, events, Run(s, events).threads[u].key)
    ensures var a := Run(s, events).threads; a[t].pc.lock == a[u].pc.lock <==> a[t].key == a[u].key
  {
    RunKeepsInv(s, events);
    StaysFaithful(s, events, Run(s, events).threads[t].key);
    StaysFaithful(s, events, Run(s, events).threads[u].key);
  }

  lemma NoCallerFails(s: State, events: seq<Tid>, t: Tid)
    requires Initial(s) && t in Run(s, events).threads
    requires !DeletedIn(s, events, Run(s, events).threads[t].key)
    ensures Run(s, events).threads[t].pc != NoSuchKey
  {
    StaysFaithful(s, events, Run(s, events).threads[t].key);
  }

  // ---------- what a removal can do ----------

  lemma {:induction false} RunAppend(s: State, a: seq<Tid>, b: seq<Tid>)
    ensures Run(s, a + b) == Run(Run(s, a), b)
    decreases |a|
  {
    if a == [] {
      assert a + b == b;
    } else {
      assert (a + b)[1..] == a[1..] + b;
      RunAppend(Next(s, a[0]), a[1..], b);
    }
  }

  lemma RunOne(s: State, t: Tid)
    ensures Run(s, [t]) == Next(s, t)
  {
    assert [t][1..] == [];
  }

  /** A caller that runs alone up to its last look-up. */
  lemma ReachFetch(s: State, t: Tid) returns (events: seq<Tid>)
    requires s.mutex.None? && t in s.threads && s.threads[t].pc == GetCheck
    ensures var r := Run(s, events); var k := s.threads[t].key;
            && r.mutex.None? && k in r.dict
            && r.threads == s.threads[t := Thread(k, Fetch)]
  {
    var k := s.threads[t].key;
    events := [t];
    RunOne(s, t);
    if k !in s.dict {
      var waiting := Run(s, events);
      assert waiting.threads == s.threads[t := Thread(k, GetWait)];
      events := CreateAlone(waiting, t);
      RunAppend(s, [t], events);
      events := [t] + events;
    }
  }

  lemma CreateAlone(s: State, t: Tid) returns (events: seq<Tid>)
    requires s.mutex.None? && t in s.threads && s.threads[t].pc == GetWait && s.threads[t].key !in s.dict
    ensures var r := Run(s, events); var k := s.threads[t].key;
            r.mutex.None? && k in r.dict && r.threads == s.threads[t := Thread(k, Fetch)]
  {
    var k := s.threads[t].key;
    var holding := Next(s, t);
    var creating := Next(holding, t);
    var leaving := Next(creating, t);
    assert holding.threads == s.threads[t := Thread(k, GetRecheck)] && holding.dict == s.dict;
    assert creating.threads == s.threads[t := Thread(k, Create)];
    assert leaving.threads == s.threads[t := Thread(k, GetLeave)] && k in leaving.dict;
    assert Next(leaving, t).threads == s.threads[t := Thread(k, Fetch)];
    events := [t, t, t, t];
    RunFour(s, t);
  }

  lemma RunFour(s: State, t: Tid)
    ensures Run(s, [t, t, t, t]) == Next(Next(Next(Next(s, t), t), t), t)
  {
    assert [t, t, t, t] == [t] + ([t] + ([t] + [t]));
    RunAppend(s, [t], [t] + ([t] + [t]));
    RunAppend(Next(s, t), [t], [t] + [t]);
    RunAppend(Next(Next(s, t), t), [t], [t]);
    RunOne(s, t);
    RunOne(Next(s, t), t);
    RunOne(Next(Next(s, t), t), t);
    RunOne(Next(Next(Next(s, t), t), t), t);
  }

  /** A remover that runs alone up to its deletion. */
  lemma RemoveAlone(s: State, u: Tid)
    requires s.mutex.None? && u in s.threads && s.threads[u].pc == RemoveCheck && s.threads[u].key in s.dict
    ensures var r := Run(s, [u, u, u, u]); var k := s.threads[u].key;
            k !in r.dict && r.threads == s.threads[u := Thread(k, RemoveLeave)]
  {
    var k := s.threads[u].key;
    var waiting := Next(s, u);
    var holding := Next(waiting, u);
    var deleting := Next(holding, u);
    assert waiting.threads == s.threads[u := Thread(k, RemoveWait)] && waiting.dict == s.dict;
    assert holding.threads == s.threads[u := Thread(k, RemoveRecheck)] && holding.dict == s.dict;
    assert deleting.threads == s.threads[u := Thread(k, Delete)];
    RunFour(s, u);
  }

  predicate Removes(pc: Pc) { pc.RemoveCheck? || pc.RemoveWait? || pc.RemoveRecheck? || pc.Delete? }

  ghost predicate NoRemover(s: State, k: Key) {
    forall u :: u in s.threads && s.threads[u].key == k ==> !Removes(s.threads[u].pc)
  }

  lemma {:induction false} NeverDeleted(s: State, events: seq<Tid>, k: Key)
    requires NoRemover(s, k)
    ensures !DeletedIn(s, events, k)
    decreases |events|
  {
    if events != [] {
      NeverDeleted(Next(s, events[0]), events[1..], k);
    }
  }

  lemma {:induction false} CallStays(s: State, events: seq<Tid>, t: Tid)
    requires t in s.threads
    ensures t in Run(s, events).threads && Run(s, events).threads[t].key == s.threads[t].key
    decreases |events|
  {
    if events != [] {
      CallStays(Next(s, events[0]), events[1..], t);
    }
  }

  ghost predicate CanFail(s: State, t: Tid) {
    exists events :: t in Run(s, events).threads && Run(s, events).threads[t].pc == NoSuchKey
  }

  /** A caller can fail to find its key exactly if some other call is about to remove that key. */
  lemma CallerFailsIff(s: State, t: Tid)
    requires Initial(s) && t in s.threads && s.threads[t].pc == GetCheck
    ensures CanFail(s, t) <==> exists u :: u in s.threads && s.threads[u] == Thread(s.threads[t].key, RemoveCheck)
  {
    var k := s.threads[t].key;
    if u :| u in s.threads && s.threads[u] == Thread(k, RemoveCheck) {
      var first := ReachFetch(s, t);
      var ready := Run(s, first);
      assert ready.threads[u] == s.threads[u];
      RemoveAlone(ready, u);
      var removed := Run(ready, [u, u, u, u]);
      assert removed.threads[t] == Thread(k, Fetch);
      RunOne(removed, t);
      RunAppend(ready, [u, u, u, u], [t]);
      RunAppend(s, first, [u, u, u, u] + [t]);
      assert Run(s, first + ([u, u, u, u] + [t])).threads[t].pc == NoSuchKey;
    } else {
      forall events ensures t in Run(s, events).threads && Run(s, events).threads[t].pc != NoSuchKey {
        CallStays(s, events, t);
        NeverDeleted(s, events, k);
        NoCallerFails(s, events, t);
      }
    }
  }

  /** A caller that saw its key, and fetches it after another thread removed it, fails. */
  lemma CallerCanFail()
    ensures exists s, events :: Initial(s) && 1 in Run(s, events).threads && Run(s, events).threads[1].pc == NoSuchKey
  {
    var s := State(map["k" := 0], None, 1, map[1 := Thread("k", GetCheck), 2 := Thread("k", RemoveCheck)]);
    assert Initial(s) && s.threads[2] == Thread("k", RemoveCheck);
    CallerFailsIff(s, 1);
  }

  ghost predicate NotBefore(s: State, u: Tid, k: Key, first: LockId) {
    && u in s.threads && s.threads[u].key == k
    && (k in s.dict ==> s.dict[k] >= first)
    && (s.threads[u].pc.Got? ==> s.threads[u].pc.lock >= first)
    && first <= s.made
  }

  lemma StepNotBefore(s: State, t: Tid, u: Tid, k: Key, first: LockId)
    requires Inv(s) && NotBefore(s, u, k, first)
    ensures NotBefore(Next(s, t), u, k, first)
  {
  }

  lemma {:induction false} StaysNotBefore(s: State, events: seq<Tid>, u: Tid, k: Key, first: LockId)
    requires Inv(s) && NotBefore(s, u, k, first)
    ensures NotBefore(Run(s, events), u, k, first)
    decreases |events|
  {
    if events != [] {
      StepKeepsInv(s, events[0]);
      StepNotBefore(s, events[0], u, k, first);
      StaysNotBefore(Next(s, events[0]), events[1..], u, k, first);
    }
  }

  lemma {:induction false} GotStays(s: State, events: seq<Tid>, t: Tid)
    requires t in s.threads && s.threads[t].pc.Got?
    ensures t in Run(s, events).threads && Run(s, events).threads[t] == s.threads[t]
    decreases |events|
  {
    if events != [] {
      GotStays(Next(s, events[0]), events[1..], t);
    }
  }

  /** Once a key is removed, at any moment of any run, a caller that already has its lock and a
      caller that gets one later never hold the same lock: they no longer exclude each other. */
  lemma RemovalSplitsCallers(s: State, before: seq<Tid>, after: seq<Tid>, t: Tid, u: Tid)
    requires Initial(s)
    requires var r := Run(s, before);
             && t in r.threads && u in r.threads && r.threads[t].key == r.threads[u].key
             && r.threads[t].key !in r.dict && r.threads[t].pc.Got? && !r.threads[u].pc.Got?
    ensures var a := Run(Run(s, before), after).threads;
            t in a && u in a && a[t].pc.Got? && (a[u].pc.Got? ==> a[u].pc.lock != a[t].pc.lock)
  {
    RunKeepsInv(s, before);
    var r := Run(s, before);
    assert ThreadInv(r, t);
    GotStays(r, after, t);
    StaysNotBefore(r, after, u, r.threads[u].key, r.made);
  }

  /** A caller that runs alone gets its lock. */
  lemma GetAlone(s: State, t: Tid) returns (events: seq<Tid>)
    requires s.mutex.None? && t in s.threads && s.threads[t].pc == GetCheck
    ensures var r := Run(s, events); var k := s.threads[t].key;
            && r.mutex.None? && k in r.dict
            && r.threads == s.threads[t := Thread(k, Got(r.dict[k]))]
  {
    var first := ReachFetch(s, t);
    RunAppend(s, first, [t]);
    RunOne(Run(s, first), t);
    events := first + [t];
  }

  /** A remover that runs alone. */
  lemma RemoveWhole(s: State, u: Tid)
    requires s.mutex.None? && u in s.threads && s.threads[u].pc == RemoveCheck && s.threads[u].key in s.dict
    ensures var r := Run(s, [u, u, u, u] + [u]); var k := s.threads[u].key;
            r.mutex.None? && k !in r.dict && r.threads == s.threads[u := Thread(k, Removed)]
  {
    RemoveAlone(s, u);
    RunAppend(s, [u, u, u, u], [u]);
    RunOne(Run(s, [u, u, u, u]), u);
  }

  ghost predicate CanSplit(s: State, t: Tid, u: Tid) {
    exists events ::
      var a := Run(s, events).threads;
      t in a && u in a && a[t].pc.Got? && a[u].pc.Got? && a[t].pc.lock != a[u].pc.lock
  }

  /** Two callers for one key can end up with different locks exactly if some other call is about to
      remove that key. */
  lemma CallersSplitIff(s: State, t: Tid, u: Tid)
    requires Initial(s) && t in s.threads && u in s.threads && t != u
    requires s.threads[t].pc == GetCheck && s.threads[u] == s.threads[t]
    ensures CanSplit(s, t, u) <==> exists v :: v in s.threads && s.threads[v] == Thread(s.threads[t].key, RemoveCheck)
  {
    var k := s.threads[t].key;
    if v :| v in s.threads && s.threads[v] == Thread(k, RemoveCheck) {
      var first := GetAlone(s, t);
      var got := Run(s, first);
      RemoveWhole(got, v);
      var before := first + ([v, v, v, v] + [v]);
      RunAppend(s, first, [v, v, v, v] + [v]);
      var removed := Run(s, before);
      var after := GetAlone(removed, u);
      RemovalSplitsCallers(s, before, after, t, u);
      RunAppend(s, before, after);
      assert Run(s, before + after).threads[u].pc.Got?;
    } else {
      forall events ensures
        var a := Run(s, events).threads;
        t in a && u in a && (a[t].pc.Got? && a[u].pc.Got? ==> a[t].pc.lock == a[u].pc.lock)
      {
        CallStays(s, events, t);
        CallStays(s, events, u);
        NeverDeleted(s, events, k);
        if Run(s, events).threads[t].pc.Got? && Run(s, events).threads[u].pc.Got? { CallersShare(s, events, t, u); }
      }
    }
  }
}
