/**
 A ring of counters, one per tick of time, that answers how much was inserted during the
 last ticks. Moving on to a later time clears the counters on the way around the ring.
 */
module RingBuffer {
  import opened Wrappers

  datatype Event = Event(tv: nat, num: int)

  datatype Ring = Ring(slots: seq<int>, time: nat, inserted: nat)

  function Min(a: int, b: int): int {
    if a < b then a else b
  }

  // ---- positions on the ring ----

  lemma ModNext(t: int, n: nat)
    requires n > 0
    ensures (t + 1) % n == if t % n == n - 1 then 0 else t % n + 1
  {
    var q, r := t / n, t % n;
    assert t == q * n + r;
    if r == n - 1 {
      assert t + 1 == (q + 1) * n;
      ModIs(t + 1, n, q + 1, 0);
    } else {
      ModIs(t + 1, n, q, r + 1);
    }
  }

  lemma MulBound(k: int, n: nat)
    ensures k >= 1 ==> k * n >= n
    ensures k <= -1 ==> k * n <= 0 - n
  {
    if k >= 1 {
      assert (k - 1) * n >= 0;
    } else if k <= -1 {
      assert (-1 - k) * n >= 0;
    }
  }

  lemma ModIs(t: int, n: nat, q: int, r: nat)
    requires n > 0 && t == q * n + r && r < n
    ensures t % n == r
  {
    var q', r' := t / n, t % n;
    assert t == q' * n + r';
    MulDistributes(q, q', n);
    MulBound(q - q', n);
  }

  lemma MulDistributes(a: int, b: int, n: int)
    ensures (a - b) * n == a * n - b * n
  {
  }

  /** Two ticks less than a round apart share a slot only if they are the same. */
  lemma ModUnique(a: int, b: int, n: nat)
    requires n > 0 && a % n == b % n && a - b < n && b - a < n
    ensures a == b
  {
    assert a == a / n * n + a % n && b == b / n * n + b % n;
    MulDistributes(a / n, b / n, n);
    MulBound(a / n - b / n, n);
  }

  lemma ModPlus(a: int, b: int, n: nat)
    requires n > 0
    ensures (a + b % n) % n == (a + b) % n
  {
    var q := b / n;
    assert a + b == (a + b % n) + q * n;
    var x := a + b % n;
    assert a + b == (x / n + q) * n + x % n;
    ModIs(a + b, n, x / n + q, x % n);
  }

  /** Going back from `a` by its distance from `b` modulo `n` leads to the slot of `b`. */
  lemma ModBack(a: int, b: int, d: int, n: nat)
    requires n > 0 && d == (a - b) % n
    ensures (a - d) % n == b % n
  {
    var q := (a - b) / n;
    assert a - b == q * n + d;
    assert a - d == (b / n + q) * n + b % n;
    ModIs(a - d, n, b / n + q, b % n);
  }

  /** Positions that agree keep agreeing when both move alike. */
  lemma ModShift(a: int, b: int, d: int, n: nat)
    requires n > 0 && a % n == b % n
    ensures (a + d) % n == (b + d) % n
  {
    ModPlus(d, a, n);
    ModPlus(d, b, n);
  }

  // ---- the operations ----

  /** Clears the slots of the `d` ticks after `t`. */
  function Cleared(slots: seq<int>, t: int, d: nat): (r: seq<int>)
    requires slots != []
    ensures |r| == |slots|
    decreases d
  {
    if d == 0 then slots else Cleared(slots, t, d - 1)[(t + d) % |slots| := 0]
  }

  lemma NothingCleared(slots: seq<int>, t: int)
    requires slots != []
    ensures Cleared(slots, t, 0) == slots
  {
  }

  lemma ClearedNext(slots: seq<int>, t: int, d: nat)
    requires slots != []
    ensures Cleared(slots, t, d + 1) == Cleared(slots, t, d)[(t + d + 1) % |slots| := 0]
  {
  }

  /** `InsertValueUnlocked`. */
  function Insert(r: Ring, e: Event): (u: Ring)
    requires r.slots != []
    ensures |u.slots| == |r.slots|
  {
    var n := |r.slots|;
    var inserted := if r.time == 0 then 1 else r.inserted;
    if e.tv > r.time then
      var d := (e.tv - r.time) % n;
      var slots := Cleared(r.slots, r.time, d);
      Ring(slots[e.tv % n := slots[e.tv % n] + e.num], e.tv,
           if r.time != 0 && inserted < n then Min(n, inserted + d) else inserted)
    else
      Ring(r.slots[e.tv % n := r.slots[e.tv % n] + e.num], r.time, inserted)
  }

  /** Adds up `m` slots, from `off` backwards. */
  function SumBack(slots: seq<int>, off: nat, m: nat): int
    requires off < |slots|
    decreases m
  {
    if m == 0 then 0
    else slots[off] + SumBack(slots, if off == 0 then |slots| - 1 else off - 1, m - 1)
  }

  /** `UpdateAndGetValuesUnlocked`. */
  function Updated(r: Ring, tv: nat, span: nat): (Ring, int)
    requires r.slots != []
  {
    var u := Insert(r, Event(tv, 0));
    (u, SumBack(u.slots, u.time % |u.slots|, Min(span, |u.slots|)))
  }

  /** `CalculateRate`; there is none for an empty span, where zero is divided by zero. */
  function Rate(r: Ring, tv: nat, span: nat): (Ring, Option<real>)
    requires r.slots != []
  {
    var (u, sum) := Updated(r, tv, span);
    var ticks := Min(span, u.inserted);
    (u, if ticks == 0 then None else Some(sum as real / ticks as real))
  }

  class RingBuffer {
    const slots: array<int>
    var timeValue: nat
    var insertedValues: nat

    constructor (n: nat)
      requires n > 0
      ensures Valid() && fresh(slots) && View() == Empty(n)
    {
      slots := new int[n](_ => 0);
      timeValue, insertedValues := 0, 0;
    }

    ghost predicate Valid() {
      slots.Length > 0
    }

    ghost function View(): Ring
      reads this, slots
    {
      Ring(slots[..], timeValue, insertedValues)
    }

    method InsertValue(tv: nat, num: int)
      requires Valid()
      modifies this, slots
      ensures View() == Insert(old(View()), Event(tv, num))
    {
      hide Cleared;
      NothingCleared(slots[..], timeValue);
      var n := slots.Length;
      var offsetTarget := tv % n;
      if timeValue == 0 {
        insertedValues := 1;
      }
      ghost var inserted := insertedValues;
      if tv > timeValue {
        var offset := timeValue % n;
        ghost var d := (tv - timeValue) % n;
        ghost var i := 0;
        ModPlus(timeValue, tv - timeValue, n);
        while offset != offsetTarget
          invariant 0 <= i <= d < n && offset == (timeValue + i) % n
          invariant slots[..] == Cleared(old(slots[..]), timeValue, i)
          invariant timeValue == old(timeValue)
          invariant insertedValues == if timeValue != 0 && inserted < n then Min(n, inserted + i) else inserted
          decreases d - i
        {
          ModNext(timeValue + i, n);
          ClearedNext(old(slots[..]), timeValue, i);
          offset := offset + 1;
          if offset >= n {
            offset := 0;
          }
          slots[offset] := 0;
          if timeValue != 0 && insertedValues < n {
            insertedValues := insertedValues + 1;
          }
          i := i + 1;
        }
        ModUnique(timeValue + i, timeValue + d, n);
        timeValue := tv;
      }
      slots[offsetTarget] := slots[offsetTarget] + num;
    }

    method UpdateAndGetValues(tv: nat, span: nat) returns (sum: int)
      requires Valid()
      modifies this, slots
      ensures (View(), sum) == Updated(old(View()), tv, span)
    {
      InsertValue(tv, 0);
      var rest: nat := if span > slots.Length then slots.Length else span;
      var off := timeValue % slots.Length;
      sum := 0;
      ghost var start, total, contents := off, rest, slots[..];
      while rest > 0
        invariant 0 <= off < slots.Length
        invariant sum + SumBack(contents, off, rest) == SumBack(contents, start, total)
      {
        sum := sum + slots[off];
        assert slots[off] == contents[off];
        if off == 0 {
          off := slots.Length;
        }
        off := off - 1;
        rest := rest - 1;
      }
    }

    method CalculateRate(tv: nat, span: nat) returns (rate: Option<real>)
      requires Valid()
      modifies this, slots
      ensures (View(), rate) == Rate(old(View()), tv, span)
    {
      var sum := UpdateAndGetValues(tv, span);
      var ticks := Min(span, insertedValues);
      rate := if ticks == 0 then None else Some(sum as real / ticks as real);
    }
  }

  function Empty(n: nat): Ring
    requires n > 0
  {
    Ring(seq(n, _ => 0), 0, 0)
  }

  // ---- the history of events ----

  type History = seq<Event>

  function Run(n: nat, h: History): (r: Ring)
    requires n > 0
    ensures |r.slots| == n
  {
    if h == [] then Empty(n) else Insert(Run(n, h[..|h| - 1]), h[|h| - 1])
  }

  function Latest(h: History): nat {
    if h == [] then 0
    else
      var before, e := Latest(h[..|h| - 1]), h[|h| - 1];
      if e.tv > before then e.tv else before
  }

  /** What time it is on the ring: a later event moves the clock on by its distance modulo
      the number of slots. */
  function Clock(n: nat, h: History): int
    requires n > 0 && h != []
  {
    var p, e := h[..|h| - 1], h[|h| - 1];
    if p == [] then e.tv
    else if e.tv > Latest(p) then Clock(n, p) + (e.tv - Latest(p)) % n
    else Clock(n, p)
  }

  /** The tick of the clock the last event counts for. */
  function Tick(n: nat, h: History): int
    requires n > 0 && h != []
  {
    var p, e := h[..|h| - 1], h[|h| - 1];
    if p == [] || e.tv > Latest(p) then Clock(n, h) else Clock(n, p) - (Latest(p) - e.tv) % n
  }

  function TickSum(n: nat, h: History, t: int): int
    requires n > 0
  {
    if h == [] then 0
    else TickSum(n, h[..|h| - 1], t) + if Tick(n, h) == t then h[|h| - 1].num else 0
  }

  /** The sum of what was inserted for the time `t`. */
  function TimeSum(h: History, t: int): int {
    if h == [] then 0
    else TimeSum(h[..|h| - 1], t) + if h[|h| - 1].tv == t then h[|h| - 1].num else 0
  }

  /** Every slot holds the sum of its tick among the last ones. */
  ghost predicate Holds(slots: seq<int>, clock: int, h: History) {
    slots != [] &&
    forall t :: clock - |slots| < t <= clock ==> slots[t % |slots|] == TickSum(|slots|, h, t)
  }

  ghost predicate NothingAfter(n: nat, clock: int, h: History)
    requires n > 0
  {
    forall t :: t > clock ==> TickSum(n, h, t) == 0
  }

  lemma {:induction false} ClearedHolds(slots: seq<int>, time: nat, clock: int, d: nat, h: History)
    requires Holds(slots, clock, h) && NothingAfter(|slots|, clock, h) && time % |slots| == clock % |slots|
    ensures Holds(Cleared(slots, time, d), clock + d, h)
    decreases d
  {
    if d > 0 {
      var n := |slots|;
      ClearedHolds(slots, time, clock, d - 1, h);
      ModShift(time, clock, d, n);
      var r, u := Cleared(slots, time, d - 1), Cleared(slots, time, d);
      assert u == r[(clock + d) % n := 0];
      hide TickSum, Cleared;
      forall t | clock + d - n < t <= clock + d ensures u[t % n] == TickSum(n, h, t) {
        if t < clock + d {
          if t % n == (clock + d) % n { ModUnique(t, clock + d, n); }
          assert u[t % n] == r[t % n];
        } else {
          assert u[t % n] == 0;
        }
      }
    }
  }

  lemma AddHolds(slots: seq<int>, clock: int, h: History, slot: nat)
    requires h != [] && Holds(slots, clock, h[..|h| - 1])
    requires clock - |slots| < Tick(|slots|, h) <= clock && slot == Tick(|slots|, h) % |slots|
    ensures Holds(slots[slot := slots[slot] + h[|h| - 1].num], clock, h)
  {
    var n, k := |slots|, Tick(|slots|, h);
    hide Tick;
    forall t | clock - n < t <= clock && t != k ensures t % n != slot {
      if t % n == slot { ModUnique(t, k, n); }
    }
  }

  lemma {:induction false} ClearedZeros(n: nat, t: int, d: nat)
    requires n > 0
    ensures Cleared(Empty(n).slots, t, d) == Empty(n).slots
    decreases d
  {
    if d > 0 {
      ClearedZeros(n, t, d - 1);
    }
  }

  predicate Positive(h: History) {
    forall k :: 0 <= k < |h| ==> h[k].tv > 0
  }

  /** The state of the ring agrees with the clock and the events. */
  ghost predicate Agrees(n: nat, h: History)
    requires n > 0 && h != []
  {
    var r, clock := Run(n, h), Clock(n, h);
    && r.time == Latest(h) > 0 && r.time % n == clock % n
    && Holds(r.slots, clock, h) && NothingAfter(n, clock, h)
    && clock >= h[0].tv
    && r.inserted == Min(n, clock - h[0].tv + 1)
  }

  lemma FirstAgrees(n: nat, h: History)
    requires n > 0 && |h| == 1 && Positive(h)
    ensures Agrees(n, h)
  {
    var tv := h[0].tv;
    assert h[..0] == [];
    ClearedZeros(n, 0, tv % n);
    assert forall t :: TickSum(n, h, t) == if t == tv then h[0].num else 0;
    forall t | tv - n < t <= tv ensures Run(n, h).slots[t % n] == TickSum(n, h, t) {
      if t % n == tv % n { ModUnique(t, tv, n); }
    }
  }

  lemma NothingAfterStep(n: nat, before: int, clock: int, h: History)
    requires n > 0 && h != [] && NothingAfter(n, before, h[..|h| - 1])
    requires before <= clock && Tick(n, h) <= clock
    ensures NothingAfter(n, clock, h)
  {
    forall t | t > clock ensures TickSum(n, h, t) == 0 {
      assert TickSum(n, h[..|h| - 1], t) == 0;
    }
  }

  lemma LaterAgrees(n: nat, h: History)
    requires n > 0 && |h| > 1 && Positive(h) && Agrees(n, h[..|h| - 1])
    requires h[|h| - 1].tv > Latest(h[..|h| - 1])
    ensures Agrees(n, h)
  {
    hide Holds, NothingAfter, Cleared, TickSum;
    var p, e := h[..|h| - 1], h[|h| - 1];
    var r := Run(n, p);
    var d := (e.tv - r.time) % n;
    var clock := Clock(n, p);
    ClearedHolds(r.slots, r.time, clock, d, p);
    ModShift(r.time, clock, d, n);
    ModPlus(r.time, e.tv - r.time, n);
    assert Clock(n, h) == Tick(n, h) == clock + d;
    assert Run(n, h) == Insert(r, e);
    hide Run, Clock, Tick;
    AddHolds(Cleared(r.slots, r.time, d), clock + d, h, e.tv % n);
    NothingAfterStep(n, clock, clock + d, h);
  }

  lemma ModShiftBack(a: int, b: int, d: int, n: nat)
    requires n > 0 && a % n == b % n
    ensures (a - d) % n == (b - d) % n
  {
    ModShift(a, b, 0 - d, n);
    assert a + (0 - d) == a - d && b + (0 - d) == b - d;
  }

  lemma EarlierSlot(time: nat, clock: int, tv: nat, d: int, n: nat)
    requires n > 0 && time % n == clock % n && d == (time - tv) % n
    ensures (clock - d) % n == tv % n
  {
    ModShiftBack(time, clock, d, n);
    ModBack(time, tv, d, n);
  }

  lemma EarlierAgrees(n: nat, h: History)
    requires n > 0 && |h| > 1 && Positive(h) && Agrees(n, h[..|h| - 1])
    requires h[|h| - 1].tv <= Latest(h[..|h| - 1])
    ensures Agrees(n, h)
  {
    hide Holds, NothingAfter, Cleared, TickSum;
    var p, e := h[..|h| - 1], h[|h| - 1];
    var r := Run(n, p);
    var d := (r.time - e.tv) % n;
    var clock := Clock(n, p);
    EarlierSlot(r.time, clock, e.tv, d, n);
    assert Clock(n, h) == clock && Tick(n, h) == clock - d;
    assert Run(n, h) == Insert(r, e);
    hide Run, Clock, Tick;
    AddHolds(r.slots, clock, h, e.tv % n);
    NothingAfterStep(n, clock, clock, h);
  }

  /** After any events with positive times, the slots hold the sums of the last ticks of the
      clock, and the ring knows how many ticks it has seen. */
  lemma {:induction false} RunAgrees(n: nat, h: History)
    requires n > 0 && h != [] && Positive(h)
    ensures Agrees(n, h)
    decreases |h|
  {
    hide Agrees;
    if |h| == 1 {
      FirstAgrees(n, h);
    } else {
      RunAgrees(n, h[..|h| - 1]);
      if h[|h| - 1].tv > Latest(h[..|h| - 1]) {
        LaterAgrees(n, h);
      } else {
        EarlierAgrees(n, h);
      }
    }
  }

  // ---- what a query answers ----

  lemma ModPrevious(t: int, n: nat)
    requires n > 0
    ensures (t - 1) % n == if t % n == 0 then n - 1 else t % n - 1
  {
    ModNext(t - 1, n);
  }

  /** The sum over the ticks after `after` and not after `upto`. */
  function TickWindow(n: nat, h: History, after: int, upto: int): int
    requires n > 0
    decreases upto - after
  {
    if upto <= after then 0 else TickSum(n, h, upto) + TickWindow(n, h, after, upto - 1)
  }

  /** Reading the slots backwards adds up the ticks backwards. */
  lemma {:induction false} SumBackIsTickWindow(slots: seq<int>, clock: int, h: History, j: nat, m: nat)
    requires Holds(slots, clock, h) && j + m <= |slots|
    ensures SumBack(slots, (clock - j) % |slots|, m) == TickWindow(|slots|, h, clock - j - m, clock - j)
    decreases m
  {
    hide TickSum;
    var n, t := |slots|, clock - j;
    if m > 0 {
      assert slots[t % n] == TickSum(n, h, t);
      ModPrevious(t, n);
      SumBackIsTickWindow(slots, clock, h, j + 1, m - 1);
      assert clock - (j + 1) == t - 1;
    }
  }

  lemma {:induction false} NothingAsked(n: nat, h: History, tv: nat, after: int, upto: int)
    requires n > 0
    ensures TickWindow(n, h + [Event(tv, 0)], after, upto) == TickWindow(n, h, after, upto)
    decreases upto - after
  {
    var asked := h + [Event(tv, 0)];
    if upto > after {
      assert asked[..|h|] == h;
      assert TickSum(n, asked, upto) == TickSum(n, h, upto);
      hide TickSum;
      NothingAsked(n, h, tv, after, upto - 1);
    }
  }

  /** What a query answers after any events with positive times: the sum over the last ticks
      of the clock. */
  lemma QueryOnClock(n: nat, h: History, tv: nat, span: nat)
    requires n > 0 && tv > 0 && Positive(h)
    ensures var m := Min(span, n); var asked := h + [Event(tv, 0)];
      && Updated(Run(n, h), tv, span) == (Run(n, asked), TickWindow(n, h, Clock(n, asked) - m, Clock(n, asked)))
      && Agrees(n, asked)
  {
    var asked := h + [Event(tv, 0)];
    assert asked[..|h|] == h;
    var r := Run(n, asked);
    assert r == Insert(Run(n, h), Event(tv, 0));
    hide Run, TickSum, TickWindow, Clock, Insert, Tick;
    RunAgrees(n, asked);
    SumBackIsTickWindow(r.slots, Clock(n, asked), asked, 0, Min(span, n));
    NothingAsked(n, h, tv, Clock(n, asked) - Min(span, n), Clock(n, asked));
  }

  /** The rate after any events with positive times: that sum, divided by the number of those
      ticks the ring has seen, which is positive for every positive span. */
  lemma RateOnClock(n: nat, h: History, tv: nat, span: nat)
    requires n > 0 && tv > 0 && Positive(h)
    ensures var asked := h + [Event(tv, 0)]; var clock := Clock(n, asked);
      var ticks := Min(span, Min(n, clock - asked[0].tv + 1));
      && (span > 0 ==> ticks > 0)
      && Rate(Run(n, h), tv, span).1 ==
           if span == 0 then None
           else Some(TickWindow(n, h, clock - Min(span, n), clock) as real / ticks as real)
  {
    hide Run, Clock, TickWindow, Updated, Holds, NothingAfter;
    QueryOnClock(n, h, tv, span);
  }

  // ---- the window of real time ----

  /** No event is a round or more away from the latest one before it. */
  predicate Close(n: nat, h: History) {
    |h| <= 1 ||
    (Close(n, h[..|h| - 1]) && var d := h[|h| - 1].tv - Latest(h[..|h| - 1]); d < n && 0 - d < n)
  }

  /** The clock then shows the real time, and every event counts for its own time. */
  lemma {:induction false} CloseIsExact(n: nat, h: History)
    requires n > 0 && Close(n, h)
    ensures h != [] ==> Clock(n, h) == Latest(h)
    ensures forall t :: TickSum(n, h, t) == TimeSum(h, t)
    ensures forall t :: t > Latest(h) ==> TimeSum(h, t) == 0
    decreases |h|
  {
    if |h| == 1 {
      assert h[..0] == [];
    } else if |h| > 1 {
      var p, e := h[..|h| - 1], h[|h| - 1];
      CloseIsExact(n, p);
      var d := e.tv - Latest(p);
      if d >= 0 { ModIs(d, n, 0, d); } else { ModIs(0 - d, n, 0, 0 - d); }
      assert Tick(n, h) == e.tv;
      hide Tick, Clock, Latest;
    }
  }

  /** The sum of the events after `after` and not after `upto`. */
  function EventSum(h: History, after: int, upto: int): int {
    if h == [] then 0
    else EventSum(h[..|h| - 1], after, upto) + if after < h[|h| - 1].tv <= upto then h[|h| - 1].num else 0
  }

  lemma {:induction false} EventSumSplit(h: History, after: int, upto: int)
    requires after < upto
    ensures EventSum(h, after, upto) == TimeSum(h, upto) + EventSum(h, after, upto - 1)
    decreases |h|
  {
    if h != [] {
      EventSumSplit(h[..|h| - 1], after, upto);
    }
  }

  lemma {:induction false} EventSumNone(h: History, after: int)
    ensures EventSum(h, after, after) == 0
    decreases |h|
  {
    if h != [] {
      EventSumNone(h[..|h| - 1], after);
    }
  }

  /** Then adding up ticks adds up events. */
  lemma {:induction false} WindowIsEventSum(n: nat, h: History, after: int, upto: int)
    requires n > 0 && after <= upto && forall t :: TickSum(n, h, t) == TimeSum(h, t)
    ensures TickWindow(n, h, after, upto) == EventSum(h, after, upto)
    decreases upto - after
  {
    hide TickSum, TimeSum, EventSum;
    if upto == after {
      EventSumNone(h, after);
    } else {
      WindowIsEventSum(n, h, after, upto - 1);
      EventSumSplit(h, after, upto);
    }
  }

  /** Times after the latest event add nothing. */
  lemma {:induction false} NothingLater(h: History, after: int, upto: int, d: nat)
    requires upto >= Latest(h)
    ensures EventSum(h, after, upto + d) == EventSum(h, after, upto)
    ensures after >= upto ==> EventSum(h, after, upto) == 0
    decreases |h|
  {
    if h != [] {
      NothingLater(h[..|h| - 1], after, upto, d);
    }
  }

  /** As long as no event was a round or more away from the latest time, a query answers what
      was inserted during the last ticks of the clock. */
  lemma CloseQuery(n: nat, h: History, tv: nat, span: nat)
    requires n > 0 && tv > 0 && Positive(h) && Close(n, h)
    ensures var m := Min(span, n); var clock := Clock(n, h + [Event(tv, 0)]);
      Updated(Run(n, h), tv, span).1 == EventSum(h, clock - m, clock)
  {
    hide Run, Updated, Clock, TickWindow, EventSum, Close, TickSum, TimeSum, Agrees;
    QueryOnClock(n, h, tv, span);
    CloseIsExact(n, h);
    var m, clock := Min(span, n), Clock(n, h + [Event(tv, 0)]);
    WindowIsEventSum(n, h, clock - m, clock);
  }

  /** Asking moves the clock on like any other event. */
  lemma ClockAsked(n: nat, h: History, tv: nat)
    requires n > 0 && h != [] && Close(n, h)
    ensures Clock(n, h + [Event(tv, 0)]) == Latest(h) + if tv > Latest(h) then (tv - Latest(h)) % n else 0
  {
    hide TickSum, TimeSum, Close;
    CloseIsExact(n, h);
    var asked := h + [Event(tv, 0)];
    assert asked[..|h|] == h;
  }

  /** As long as no event was a round or more away from the latest time, a query answers
      exactly what was inserted during the last ticks, however late or early it is asked,
      unless it is asked a round or more later: then the slots that moving on does not clear
      are counted again, and the answer is right only if they sum up to zero. */
  lemma QueryIsExact(n: nat, h: History, tv: nat, span: nat)
    requires n > 0 && tv > 0 && h != [] && Positive(h) && Close(n, h)
    ensures var m := Min(span, n);
      var before := Latest(h);
      var now := if tv > before then tv else before;
      var stale := EventSum(h, before + (tv - before) % n - m, before);
      var exact := Updated(Run(n, h), tv, span).1 == EventSum(h, now - m, now);
      exact <==> tv < before + n || stale == 0
  {
    hide Run, Updated, EventSum, Close, Positive, Clock, Latest;
    var m, before := Min(span, n), Latest(h);
    CloseQuery(n, h, tv, span);
    ClockAsked(n, h, tv);
    if before < tv {
      var d := (tv - before) % n;
      if tv < before + n {
        ModIs(tv - before, n, 0, tv - before);
      } else {
        NothingLater(h, before + d - m, before, d);
        NothingLater(h, tv - m, tv - m, m);
      }
    }
  }

  /** An event a whole round after the one before clears nothing either: whatever was inserted
      first is answered again, although none of it belongs to the last ticks. */
  lemma LateEventKeepsSlots(n: nat, tv: nat, num: int, span: nat)
    requires n > 0 && tv > 0 && span > 0
    ensures var h := [Event(tv, num), Event(tv + n, 0)];
      && !Close(n, h)
      && Updated(Run(n, h), tv + n, span).1 == num
      && EventSum(h, tv + n - Min(span, n), tv + n) == 0
  {
    hide Run, Updated, TickSum, Clock, Agrees, Tick, TickWindow;
    var h := [Event(tv, num), Event(tv + n, 0)];
    LateClock(n, tv, num);
    QueryOnClock(n, h, tv + n, span);
    LateWindow(n, h, tv, num, Min(span, n));
    LateEvents(n, tv, num, Min(span, n));
  }

  lemma LateEvents(n: nat, tv: nat, num: int, m: nat)
    requires n > 0 && m <= n
    ensures var h := [Event(tv, num), Event(tv + n, 0)];
      !Close(n, h) && EventSum(h, tv + n - m, tv + n) == 0
  {
    var e, f := Event(tv, num), Event(tv + n, 0);
    assert [e, f][..1] == [e] && [e][..0] == [];
    TwoEvents(e, f);
    assert EventSum([e], tv + n - m, tv + n) == 0;
  }

  lemma TwoEvents(e: Event, f: Event)
    ensures Latest([e]) == e.tv
    ensures Latest([e, f]) == if f.tv > e.tv then f.tv else e.tv
  {
    assert [e, f][..1] == [e] && [e][..0] == [];
  }

  /** The clock stands still over a whole round. */
  lemma LateClock(n: nat, tv: nat, num: int)
    requires n > 0 && tv > 0
    ensures var h := [Event(tv, num), Event(tv + n, 0)];
      && Clock(n, h + [Event(tv + n, 0)]) == tv
      && forall t :: TickSum(n, h, t) == if t == tv then num else 0
  {
    var e, f := Event(tv, num), Event(tv + n, 0);
    var h := [e, f];
    assert h[..1] == [e] && [e][..0] == [] && (h + [f])[..2] == h;
    TwoEvents(e, f);
    ModIs(n, n, 1, 0);
    hide Latest;
    assert Clock(n, [e]) == Tick(n, [e]) == tv;
    assert Clock(n, h) == tv;
    hide Tick;
    assert forall t :: TickSum(n, [e], t) == if t == tv then num else 0;
  }

  lemma LateWindow(n: nat, h: History, tv: nat, num: int, m: nat)
    requires n > 0 && m > 0 && forall t :: TickSum(n, h, t) == if t == tv then num else 0
    ensures TickWindow(n, h, tv - m, tv) == num
  {
    hide TickSum;
    WindowNone(n, h, tv - m, tv - 1);
  }

  lemma {:induction false} WindowNone(n: nat, h: History, after: int, upto: int)
    requires n > 0 && forall t :: t <= upto ==> TickSum(n, h, t) == 0
    ensures TickWindow(n, h, after, upto) == 0
    decreases upto - after
  {
    hide TickSum;
    if upto > after {
      WindowNone(n, h, after, upto - 1);
    }
  }

  /** If asking is not a round or more away from the latest time either, the rate is what was
      inserted during the last ticks, divided by the number of those ticks the ring has seen. */
  lemma RateIsExact(n: nat, h: History, tv: nat, span: nat)
    requires n > 0 && tv > 0 && Positive(h) && Close(n, h + [Event(tv, 0)])
    ensures var now := Latest(h + [Event(tv, 0)]);
      var first := if h == [] then tv else h[0].tv;
      var ticks := Min(span, Min(n, now - first + 1));
      && (span > 0 ==> ticks > 0)
      && Rate(Run(n, h), tv, span).1 ==
           if span == 0 then None
           else Some(EventSum(h, now - Min(span, n), now) as real / ticks as real)
  {
    hide Run, EventSum, Clock, TickSum, TimeSum, Updated, TickWindow, Rate, Latest;
    var asked := h + [Event(tv, 0)];
    assert asked[..|h|] == h;
    assert Close(n, h);
    RateOnClock(n, h, tv, span);
    CloseIsExact(n, asked);
    CloseIsExact(n, h);
    var now := Latest(asked);
    WindowIsEventSum(n, h, now - Min(span, n), now);
  }
}
