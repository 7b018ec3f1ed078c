/** The rule-priority generator of an Azure network security group (NSG).

    A generator starts from the priorities that the NSG already holds and yields, each time it is
    resumed, a priority one step above some held priority (or above the start limit) such that
    nothing is held within that step. `FirstGap` says this as a walk over the set of held
    priorities; `RulePriorityGenerator` is the stateful form, which works over a sorted list
    closed by an infinite sentinel, inserts every value it yields into that list and never moves
    its cursor back. */
module PriorityAllocator {
  const RULE_DEFAULT_PRIORITY: int := 1000
  const STEP: int := 5

  // ---------- what the next priority is ----------

  /** The held priorities that leave no full step free above `x`. */
  ghost function Blockers(taken: set<int>, x: int): set<int> {
    set y | y in taken && x < y <= x + STEP
  }

  /** The held priorities above `x`. */
  ghost function Above(taken: set<int>, x: int): set<int> {
    set y | y in taken && x < y
  }

  lemma {:induction false} FindLeast(s: set<int>) returns (y: int)
    requires s != {}
    ensures y in s && forall z :: z in s ==> y <= z
    decreases s
  {
    assert exists x :: x in s by {
      assert (forall x :: x !in s) ==> s == {};
    }
    var x :| x in s;
    y := x;
    if s - {x} != {} {
      var z := FindLeast(s - {x});
      y := if x < z then x else z;
    }
    forall z | z in s ensures y <= z {
      assert z == x || z in s - {x};
    }
  }

  lemma LeastExists(s: set<int>)
    requires s != {}
    ensures exists y :: y in s && forall z :: z in s ==> y <= z
  {
    var y := FindLeast(s);
  }

  ghost function Least(s: set<int>): (y: int)
    requires s != {}
    ensures y in s && forall z :: z in s ==> y <= z
  {
    LeastExists(s);
    var y :| y in s && forall z :: z in s ==> y <= z;
    y
  }

  /** Climb from held priority to held priority until a whole step is free. */
  ghost function FirstGap(taken: set<int>, x: int): int
    decreases Above(taken, x)
  {
    var blockers := Blockers(taken, x);
    if blockers == {} then x + STEP
    else
      var y := Least(blockers);
      assert y in Above(taken, x) && y !in Above(taken, y);
      FirstGap(taken, y)
  }

  ghost function NextPriority(taken: set<int>, start: int): int {
    FirstGap(taken, start - STEP)
  }

  /** `x` is the start limit or a held priority above it. */
  ghost predicate Rung(taken: set<int>, start: int, x: int) {
    x == start - STEP || (x in taken && x > start - STEP)
  }

  /** The declarative reading of one allocation: `p` is one step above a rung with a free step
      above it, and every lower rung is blocked. */
  ghost predicate IsNext(taken: set<int>, start: int, p: int) {
    && Rung(taken, start, p - STEP)
    && Blockers(taken, p - STEP) == {}
    && forall x :: Rung(taken, start, x) && x < p - STEP ==> Blockers(taken, x) != {}
  }

  // ---------- laws of one allocation ----------

  lemma {:induction false} FirstGapIsGap(taken: set<int>, x: int)
    ensures FirstGap(taken, x) >= x + STEP
    ensures Blockers(taken, FirstGap(taken, x) - STEP) == {}
    ensures FirstGap(taken, x) - STEP == x || FirstGap(taken, x) - STEP in taken
    ensures forall z :: (z == x || (z in taken && z > x)) && z < FirstGap(taken, x) - STEP
                        ==> Blockers(taken, z) != {}
    decreases Above(taken, x)
  {
    var blockers := Blockers(taken, x);
    if blockers != {} {
      var y := Least(blockers);
      assert y in Above(taken, x) && y !in Above(taken, y);
      FirstGapIsGap(taken, y);
      forall z | (z == x || (z in taken && z > x)) && z < FirstGap(taken, x) - STEP
        ensures Blockers(taken, z) != {}
      {
        assert z in blockers ==> y <= z;
      }
    }
  }

  /** The walk and the declarative reading agree, so an allocation exists and is unique. */
  lemma NextPriorityIff(taken: set<int>, start: int, p: int)
    ensures IsNext(taken, start, p) <==> p == NextPriority(taken, start)
  {
    FirstGapIsGap(taken, start - STEP);
    var q := NextPriority(taken, start);
    assert IsNext(taken, start, q);
    if p != q {
      assert Rung(taken, start, p - STEP) && p < q ==> Blockers(taken, p - STEP) != {};
    }
  }

  /** An allocation is at least the start, is not held, and costs at most one step for every held
      priority above the start limit. */
  lemma {:induction false} FirstGapBounds(taken: set<int>, x: int)
    ensures x + STEP <= FirstGap(taken, x) <= x + STEP + 5 * |Above(taken, x)|
    ensures FirstGap(taken, x) !in taken
    decreases Above(taken, x)
  {
    var blockers := Blockers(taken, x);
    if blockers == {} {
      assert x + STEP in taken ==> x + STEP in blockers;
    } else {
      var y := Least(blockers);
      assert y in Above(taken, x) && y !in Above(taken, y);
      FirstGapBounds(taken, y);
      StrictSubsetIsSmaller(Above(taken, y), Above(taken, x));
    }
  }

  lemma StrictSubsetIsSmaller(a: set<int>, b: set<int>)
    requires a < b
    ensures |a| < |b|
  {
    var rest := b - a;
    assert b == a + rest && a !! rest;
    assert |b| == |a| + |rest|;
    assert rest != {};
  }

  /** After yielding `p` a walk from the foot passes through `p`: everything below it stays
      blocked. This is why the generator's cursor never has to rewind. */
  lemma {:induction false} NoRewind(taken: set<int>, x: int)
    ensures var p := FirstGap(taken, x); FirstGap(taken + {p}, x) == FirstGap(taken + {p}, p)
    decreases Above(taken, x)
  {
    var p := FirstGap(taken, x);
    var more := taken + {p};
    FirstGapBounds(taken, x);
    var blockers := Blockers(taken, x);
    if blockers == {} {
      assert Blockers(more, x) == {p};
    } else {
      var y := Least(blockers);
      assert y in Above(taken, x) && y !in Above(taken, y);
      FirstGapBounds(taken, y);
      assert Blockers(more, x) == blockers;
      NoRewind(taken, y);
    }
  }

  // ---------- successive allocations ----------

  /** The first `n` values yielded by one generator. */
  ghost function Yields(taken: set<int>, start: int, n: nat): (r: seq<int>)
    ensures |r| == n
    decreases n
  {
    if n == 0 then []
    else
      var p := NextPriority(taken, start);
      [p] + Yields(taken + {p}, start, n - 1)
  }

  lemma NextAfterYield(taken: set<int>, start: int)
    ensures var p := NextPriority(taken, start); NextPriority(taken + {p}, start) >= p + STEP
  {
    var p := NextPriority(taken, start);
    NoRewind(taken, start - STEP);
    FirstGapBounds(taken + {p}, p);
  }

  /** Everything yielded later exceeds what was yielded first. */
  lemma {:induction false} YieldsExceed(taken: set<int>, start: int, n: nat, k: nat)
    requires 0 < k < n
    ensures NextPriority(taken, start) < Yields(taken, start, n)[k]
    decreases n
  {
    var p := NextPriority(taken, start);
    NextAfterYield(taken, start);
    assert Yields(taken, start, n)[k] == Yields(taken + {p}, start, n - 1)[k - 1];
    if k > 1 {
      YieldsExceed(taken + {p}, start, n - 1, k - 1);
    }
  }

  /** The k-th value is not held and is at most start + 5 * (m + k), where m counts the held
      priorities above the start limit. */
  lemma {:induction false} YieldsBounds(taken: set<int>, start: int, n: nat, k: nat)
    requires k < n
    ensures var y := Yields(taken, start, n)[k];
            y !in taken && start <= y <= start + 5 * (|Above(taken, start - STEP)| + k)
    decreases n
  {
    FirstGapBounds(taken, start - STEP);
    if k > 0 {
      var p := NextPriority(taken, start);
      assert Yields(taken, start, n)[k] == Yields(taken + {p}, start, n - 1)[k - 1];
      assert Above(taken + {p}, start - STEP) == Above(taken, start - STEP) + {p};
      YieldsBounds(taken + {p}, start, n - 1, k - 1);
    }
  }

  /** One generator's values strictly increase. */
  lemma {:induction false} YieldsIncrease(taken: set<int>, start: int, n: nat, j: nat, k: nat)
    requires j < k < n
    ensures Yields(taken, start, n)[j] < Yields(taken, start, n)[k]
    decreases n
  {
    if j == 0 {
      YieldsExceed(taken, start, n, k);
    } else {
      var p := NextPriority(taken, start);
      assert Yields(taken, start, n)[j] == Yields(taken + {p}, start, n - 1)[j - 1];
      assert Yields(taken, start, n)[k] == Yields(taken + {p}, start, n - 1)[k - 1];
      YieldsIncrease(taken + {p}, start, n - 1, j - 1, k - 1);
    }
  }

  // ---------- NSGs that only this service has written ----------

  ghost predicate OnGrid(taken: set<int>) {
    forall y :: y in taken ==> y % 5 == 0
  }

  lemma MultiplesApart(x: int, q: int)
    requires x % 5 == 0 && q % 5 == 0 && x < q
    ensures q >= x + STEP
  {
    assert x == 5 * (x / 5) && q == 5 * (q / 5);
  }

  /** On the grid of multiples of the step, an allocation is the least unused multiple. */
  lemma {:induction false} LeastUnusedMultiple(taken: set<int>, x: int)
    requires OnGrid(taken) && x % 5 == 0
    ensures var p := FirstGap(taken, x);
            && p % 5 == 0 && p > x && p !in taken
            && forall q :: x < q < p && q % 5 == 0 ==> q in taken
    decreases Above(taken, x)
  {
    FirstGapBounds(taken, x);
    var p := FirstGap(taken, x);
    var blockers := Blockers(taken, x);
    if blockers == {} {
      assert p == x + STEP;
      assert forall q :: x < q < p && q % 5 == 0 ==> q >= x + STEP by {
        forall q | x < q < p && q % 5 == 0 ensures q >= x + STEP { MultiplesApart(x, q); }
      }
    } else {
      var y := Least(blockers);
      assert y in Above(taken, x) && y !in Above(taken, y);
      MultiplesApart(x, y);
      LeastUnusedMultiple(taken, y);
      forall q | x < q < p && q % 5 == 0 ensures q in taken {
        MultiplesApart(x, q);
      }
    }
  }

  ghost function Window(taken: set<int>, lo: int, hi: int): set<int> {
    set y | y in taken && lo <= y < hi
  }

  ghost function Multiples(lo: int, n: nat): (r: set<int>)
    ensures forall q :: q in r <==> lo <= q < lo + 5 * n && (q - lo) % 5 == 0
    ensures |r| == n
    decreases n
  {
    if n == 0 then {}
    else
      var r := Multiples(lo, n - 1);
      r + {lo + 5 * (n - 1)}
  }

  lemma MultipleOnGrid(start: int, n: nat, q: int)
    requires start % 5 == 0 && q in Multiples(start, n)
    ensures start <= q < start + 5 * n && q % 5 == 0
  {
  }

  /** If all `n` multiples from `start` on are in use, the window holds at least `n` priorities. */
  lemma FullWindow(taken: set<int>, start: int, n: nat)
    requires forall q :: q in Multiples(start, n) ==> q in taken
    ensures |Window(taken, start, start + 5 * n)| >= n
  {
    CardinalityMonotone(Multiples(start, n), Window(taken, start, start + 5 * n));
  }

  /** A range of `n` multiples with fewer than `n` of them in use still has room, whatever was
      created and deleted before. */
  lemma RoomBelow(taken: set<int>, start: int, n: nat)
    requires OnGrid(taken) && start % 5 == 0
    requires |Window(taken, start, start + 5 * n)| < n
    ensures NextPriority(taken, start) < start + 5 * n
  {
    var p := NextPriority(taken, start);
    LeastUnusedMultiple(taken, start - STEP);
    if p >= start + 5 * n {
      forall q | q in Multiples(start, n) ensures q in taken {
        MultipleOnGrid(start, n, q);
      }
      FullWindow(taken, start, n);
    }
  }

  lemma CardinalityMonotone(a: set<int>, b: set<int>)
    requires a <= b
    ensures |a| <= |b|
  {
    if a != b {
      StrictSubsetIsSmaller(a, b);
    }
  }

  /** A batch stays inside its range as long as the range's used slots plus the batch fit it. */
  lemma {:induction false} BatchStaysInRange(taken: set<int>, start: int, n: nat, width: nat)
    requires OnGrid(taken) && start % 5 == 0
    requires |Window(taken, start, start + 5 * width)| + n <= width
    ensures forall k :: 0 <= k < n ==> start <= Yields(taken, start, n)[k] < start + 5 * width
    decreases n
  {
    if n > 0 {
      var hi := start + 5 * width;
      var p := NextPriority(taken, start);
      RoomBelow(taken, start, width);
      OneMoreOnGrid(taken, start);
      assert Window(taken + {p}, start, hi) == Window(taken, start, hi) + {p};
      BatchStaysInRange(taken + {p}, start, n - 1, width);
      var rest := Yields(taken + {p}, start, n - 1);
      forall k | 0 <= k < n ensures start <= Yields(taken, start, n)[k] < hi {
        assert k > 0 ==> Yields(taken, start, n)[k] == rest[k - 1];
      }
    }
  }

  lemma OneMoreOnGrid(taken: set<int>, start: int)
    requires OnGrid(taken) && start % 5 == 0
    ensures var p := NextPriority(taken, start); p >= start && OnGrid(taken + {p})
  {
    LeastUnusedMultiple(taken, start - STEP);
    FirstGapBounds(taken, start - STEP);
  }

  // ---------- the generator ----------

  /** An entry of the generator's list: a priority or the closing infinity. */
  datatype Slot = At(priority: int) | Infinity {
    predicate Exceeds(p: int) { Infinity? || priority > p }
    predicate LessOrEqual(other: Slot) { other.Infinity? || (At? && priority <= other.priority) }
  }

  function Insert(x: Slot, s: seq<Slot>): seq<Slot> {
    if s == [] || x.LessOrEqual(s[0]) then [x] + s else [s[0]] + Insert(x, s[1..])
  }

  /** The built-in sort, as insertion sort. */
  function Sorted(s: seq<Slot>): seq<Slot> {
    if s == [] then [] else Insert(s[0], Sorted(s[1..]))
  }

  ghost predicate Ascending(s: seq<Slot>) {
    forall j, k :: 0 <= j < k < |s| ==> s[j].LessOrEqual(s[k])
  }

  lemma {:induction false} InsertMembersOnce(x: Slot, s: seq<Slot>)
    ensures multiset(Insert(x, s)) == multiset(s) + multiset{x}
  {
    if s != [] && !x.LessOrEqual(s[0]) {
      InsertMembersOnce(x, s[1..]);
      assert s == [s[0]] + s[1..];
    }
  }

  lemma {:induction false} InsertAscends(x: Slot, s: seq<Slot>)
    requires Ascending(s)
    ensures Ascending(Insert(x, s))
  {
    if s != [] && !x.LessOrEqual(s[0]) {
      var r := Insert(x, s[1..]);
      InsertAscends(x, s[1..]);
      InsertMembersOnce(x, s[1..]);
      forall k | 0 <= k < |r| ensures s[0].LessOrEqual(r[k]) {
        assert r[k] in multiset(r);
        assert r[k] == x || r[k] in s[1..];
      }
    }
  }

  lemma {:induction false} SortedLaws(s: seq<Slot>)
    ensures Ascending(Sorted(s))
    ensures multiset(Sorted(s)) == multiset(s)
  {
    if s != [] {
      SortedLaws(s[1..]);
      InsertAscends(s[0], Sorted(s[1..]));
      InsertMembersOnce(s[0], Sorted(s[1..]));
      assert s == [s[0]] + s[1..];
    }
  }

  function Relevant(existing: seq<int>, limit: int): seq<Slot> {
    if existing == [] then [At(limit), Infinity]
    else
      var rest := Relevant(existing[1..], limit);
      if existing[0] >= limit then [At(existing[0])] + rest else rest
  }

  lemma {:induction false} RelevantLaws(existing: seq<int>, limit: int)
    ensures var r := Relevant(existing, limit);
            && (forall y :: At(y) in r <==> y == limit || (y in existing && y >= limit))
            && multiset(r)[Infinity] == 1
  {
    if existing != [] {
      RelevantLaws(existing[1..], limit);
    }
  }

  /** The generator's list holds, above the start limit, exactly the held priorities. */
  ghost predicate Lists(relevant: seq<Slot>, taken: set<int>, limit: int) {
    && |relevant| >= 2
    && relevant[|relevant| - 1] == Infinity
    && (forall k :: 0 <= k < |relevant| - 1 ==> relevant[k].At? && relevant[k].priority >= limit)
    && Ascending(relevant)
    && (forall y :: y > limit ==> (y in taken <==> At(y) in relevant))
  }

  /** Above entry `i` and up to the next entry nothing is held. */
  lemma NothingBetween(relevant: seq<Slot>, taken: set<int>, limit: int, i: nat, z: int)
    requires Lists(relevant, taken, limit) && i < |relevant| - 1
    requires relevant[i].priority < z && relevant[i + 1].Exceeds(z)
    ensures z !in taken
  {
    forall k | 0 <= k < |relevant| ensures relevant[k] != At(z) {
      assert k < i ==> relevant[k].LessOrEqual(relevant[i]);
      assert k > i + 1 ==> relevant[i + 1].LessOrEqual(relevant[k]);
    }
  }

  /** The cursor stands on an entry from which the walk reaches the same next priority. */
  ghost predicate Cursor(relevant: seq<Slot>, taken: set<int>, start: int, i: nat) {
    && Lists(relevant, taken, start - STEP)
    && i < |relevant| - 1
    && NextPriority(taken, start) == FirstGap(taken, relevant[i].priority)
  }

  /** An entry within a step of the cursor's is the least blocker, or a duplicate. */
  lemma StepOver(relevant: seq<Slot>, taken: set<int>, start: int, i: nat)
    requires Cursor(relevant, taken, start, i)
    requires !relevant[i + 1].Exceeds(relevant[i].priority + STEP)
    ensures Cursor(relevant, taken, start, i + 1)
  {
    var x, y := relevant[i].priority, relevant[i + 1].priority;
    assert relevant[i].LessOrEqual(relevant[i + 1]);
    if y > x {
      assert At(y) in relevant;
      var blockers := Blockers(taken, x);
      assert y in blockers;
      forall z | z in blockers ensures y <= z {
        if z < y { NothingBetween(relevant, taken, start - STEP, i, z); }
      }
      assert Least(blockers) == y;
    }
  }

  /** At a free step the walk ends, and the new entry becomes the cursor's. */
  lemma Yielding(relevant: seq<Slot>, taken: set<int>, start: int, i: nat)
    requires Cursor(relevant, taken, start, i)
    requires relevant[i + 1].Exceeds(relevant[i].priority + STEP)
    ensures var p := relevant[i].priority + STEP;
            && p == NextPriority(taken, start)
            && Cursor(InsertAt(relevant, i + 1, p), taken + {p}, start, i + 1)
  {
    var x := relevant[i].priority;
    forall z | x < z <= x + STEP ensures z !in taken {
      NothingBetween(relevant, taken, start - STEP, i, z);
    }
    assert Blockers(taken, x) == {};
    InsertKeepsList(relevant, taken, start - STEP, i, x + STEP);
    NoRewind(taken, start - STEP);
  }

  function InsertAt(relevant: seq<Slot>, k: nat, priority: int): seq<Slot>
    requires k <= |relevant|
  {
    relevant[..k] + [At(priority)] + relevant[k..]
  }

  lemma InsertKeepsOrder(relevant: seq<Slot>, i: nat, priority: int)
    requires Ascending(relevant) && i < |relevant| - 1
    requires relevant[i].LessOrEqual(At(priority)) && At(priority).LessOrEqual(relevant[i + 1])
    ensures Ascending(InsertAt(relevant, i + 1, priority))
  {
    var r := InsertAt(relevant, i + 1, priority);
    forall k | 0 <= k <= i ensures r[k] == relevant[k] && r[k].LessOrEqual(At(priority)) {
      assert k < i ==> relevant[k].LessOrEqual(relevant[i]);
    }
    forall k | i + 1 < k < |r| ensures r[k] == relevant[k - 1] && At(priority).LessOrEqual(r[k]) {
      assert k > i + 2 ==> relevant[i + 1].LessOrEqual(relevant[k - 1]);
    }
    assert r[i + 1] == At(priority);
    forall j, k | 0 <= j < k < |r| ensures r[j].LessOrEqual(r[k]) {
      if j <= i && k <= i {
        assert relevant[j].LessOrEqual(relevant[k]);
      } else if j > i + 1 {
        assert relevant[j - 1].LessOrEqual(relevant[k - 1]);
      }
    }
  }

  lemma InsertKeepsList(relevant: seq<Slot>, taken: set<int>, limit: int, i: nat, priority: int)
    requires Lists(relevant, taken, limit) && i < |relevant| - 1
    requires relevant[i].priority <= priority && relevant[i + 1].Exceeds(priority)
    ensures Lists(InsertAt(relevant, i + 1, priority), taken + {priority}, limit)
  {
    InsertKeepsOrder(relevant, i, priority);
    forall x ensures x in InsertAt(relevant, i + 1, priority) <==> x in relevant || x == At(priority) {
      InsertMembers(relevant, i + 1, priority, x);
    }
    ListsMore(relevant, InsertAt(relevant, i + 1, priority), taken, limit, priority);
  }

  lemma ListsMore(relevant: seq<Slot>, r: seq<Slot>, taken: set<int>, limit: int, priority: int)
    requires Lists(relevant, taken, limit) && Ascending(r) && priority >= limit
    requires |r| == |relevant| + 1 && r[|r| - 1] == Infinity
    requires forall k :: 0 <= k < |r| - 1 ==> r[k].At?
    requires forall x :: x in r <==> x in relevant || x == At(priority)
    ensures Lists(r, taken + {priority}, limit)
  {
    forall k | 0 <= k < |r| - 1 ensures r[k].priority >= limit {
      assert r[k] in r;
    }
  }

  lemma InsertMembers(relevant: seq<Slot>, k: nat, priority: int, x: Slot)
    requires k <= |relevant|
    ensures x in InsertAt(relevant, k, priority) <==> x in relevant || x == At(priority)
  {
    assert relevant == relevant[..k] + relevant[k..];
  }

  class RulePriorityGenerator {
    const start: int
    var relevant: seq<Slot>
    var i: nat
    ghost var taken: set<int>  // the NSG's priorities at creation plus every value yielded

    ghost predicate Valid()
      reads this
    {
      Cursor(relevant, taken, start, i)
    }

    constructor (existing: seq<int>, start: int)
      ensures Valid() && this.start == start
      ensures taken == set y | y in existing
    {
      this.start := start;
      relevant := Sorted(Relevant(existing, start - STEP));
      i := 0;
      taken := set y | y in existing;
      new;
      FreshList(existing, start - STEP);
    }

    /** Resume the generator. The cursor only moves forward, stays short of the sentinel, and the
        search for a gap ends. */
    method Next() returns (priority: int)
      requires Valid()
      modifies this
      ensures Valid()
      ensures priority == NextPriority(old(taken), start)
      ensures taken == old(taken) + {priority}
      ensures old(i) < i < |relevant| - 1
    {
      relevant, i, priority := Advance(relevant, taken, start, i);
      taken := taken + {priority};
    }
  }

  /** The generator's loop: from the cursor to the first entry that leaves a whole step free, and
      the insertion of the value found there. */
  method Advance(relevant: seq<Slot>, ghost taken: set<int>, ghost start: int, cursor: nat)
    returns (longer: seq<Slot>, i: nat, priority: int)
    requires Cursor(relevant, taken, start, cursor)
    ensures priority == NextPriority(taken, start)
    ensures Cursor(longer, taken + {priority}, start, i) && cursor < i
  {
    i := cursor;
    priority := relevant[i].priority + STEP;
    while !relevant[i + 1].Exceeds(priority)
      invariant cursor <= i && Cursor(relevant, taken, start, i)
      invariant priority == relevant[i].priority + STEP
      decreases |relevant| - i
    {
      StepOver(relevant, taken, start, i);
      i := i + 1;
      priority := relevant[i].priority + STEP;
    }
    Yielding(relevant, taken, start, i);
    longer := InsertAt(relevant, i + 1, priority);
    i := i + 1;
  }

  /** Sorting adds or loses nothing. */
  lemma FreshMembers(existing: seq<int>, limit: int)
    ensures var s := Sorted(Relevant(existing, limit));
            && Ascending(s) && multiset(s)[Infinity] == 1
            && forall y :: At(y) in s <==> y == limit || (y in existing && y >= limit)
  {
    var raw := Relevant(existing, limit);
    RelevantLaws(existing, limit);
    SortedLaws(raw);
    forall y ensures At(y) in Sorted(raw) <==> At(y) in raw {
      SameMembers(Sorted(raw), raw, At(y));
    }
  }

  /** A list with the right members and ends is a generator's list. */
  lemma IsFreshList(s: seq<Slot>, taken: set<int>, limit: int)
    requires Ascending(s) && |s| >= 2 && s[|s| - 1] == Infinity
    requires forall k :: 0 <= k < |s| - 1 ==> s[k].At?
    requires forall y :: At(y) in s <==> y == limit || (y in taken && y >= limit)
    ensures Lists(s, taken, limit)
  {
    forall k | 0 <= k < |s| - 1 ensures s[k].priority >= limit {
      assert At(s[k].priority) in s;
    }
  }

  /** Sorting puts the start limit first and the sentinel last, and adds or loses nothing. */
  lemma FreshList(existing: seq<int>, limit: int)
    ensures var s := Sorted(Relevant(existing, limit));
            Lists(s, (set y | y in existing), limit) && s[0] == At(limit)
  {
    var s := Sorted(Relevant(existing, limit));
    FreshMembers(existing, limit);
    SentinelLast(s);
    LimitFirst(s, limit);
    IsFreshList(s, (set y | y in existing), limit);
  }

  lemma LimitFirst(s: seq<Slot>, limit: int)
    requires Ascending(s) && At(limit) in s
    requires forall y :: At(y) in s ==> y >= limit
    ensures s[0] == At(limit)
  {
    var l :| 0 <= l < |s| && s[l] == At(limit);
    assert l == 0 || s[0].LessOrEqual(s[l]);
    assert s[0] in s;
  }

  lemma SentinelLast(s: seq<Slot>)
    requires Ascending(s) && multiset(s)[Infinity] == 1
    ensures |s| >= 1 && s[|s| - 1] == Infinity
    ensures forall k :: 0 <= k < |s| - 1 ==> s[k].At?
  {
    assert Infinity in multiset(s);
    var m :| 0 <= m < |s| && s[m] == Infinity;
    assert m == |s| - 1 || s[m].LessOrEqual(s[|s| - 1]);
    OneInfinity(s);
  }

  lemma SameMembers(a: seq<Slot>, b: seq<Slot>, x: Slot)
    requires multiset(a) == multiset(b)
    ensures x in a <==> x in b
  {
    assert x in a <==> x in multiset(a);
  }

  lemma OneInfinity(s: seq<Slot>)
    requires s != [] && s[|s| - 1] == Infinity && multiset(s)[Infinity] == 1
    ensures forall k :: 0 <= k < |s| - 1 ==> s[k].At?
  {
    var front := s[..|s| - 1];
    assert s == front + [Infinity];
    assert multiset(front)[Infinity] == 0;
    forall k | 0 <= k < |s| - 1 ensures s[k].At? {
      assert front[k] in multiset(front);
    }
  }
}
