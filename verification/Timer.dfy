/**
 The timer scheduler: a set of timers indexed by the time they are next due, a dispatcher
 that takes the front of that index, and callbacks run by other threads. The key of the
 index is a field of the timers themselves, so the index is ordered only as long as no
 timer inside it has its due time changed in place.
 */
module Timer {
  import opened Wrappers

  /** `Expired`: the last shared pointer is gone but the destructor has not run yet. */
  datatype Life = Alive | Expired | Destroyed

  /** The fields of a timer, times being in seconds. */
  datatype TimerData = TimerData(
    interval: real, next: real, started: bool, running: bool, life: Life)

  /** What the mutex protects; `index` lists the timers of `l_Timers` in the order of its
      second index, `aliveTimers` is `l_AliveTimers`, and `stopping` is `l_StopTimerThread`. */
  datatype Queue = Queue(timers: seq<TimerData>, index: seq<nat>, aliveTimers: int, stopping: bool)

  // ---- the ordered index ----

  /** Where an ordered index without unique keys inserts: after all keys not greater. */
  function UpperBound(timers: seq<TimerData>, index: seq<nat>, next: real): (p: nat)
    requires forall k :: 0 <= k < |index| ==> index[k] < |timers|
    ensures p <= |index|
  {
    if index == [] || timers[index[0]].next > next then 0
    else 1 + UpperBound(timers, index[1..], next)
  }

  function Insert(timers: seq<TimerData>, index: seq<nat>, i: nat): seq<nat>
    requires i < |timers| && forall k :: 0 <= k < |index| ==> index[k] < |timers|
  {
    var p := UpperBound(timers, index, timers[i].next);
    index[..p] + [i] + index[p..]
  }

  function Find(index: seq<nat>, i: nat): (p: nat)
    ensures p <= |index| && (p < |index| ==> index[p] == i) && i !in index[..p]
  {
    if index == [] || index[0] == i then 0 else 1 + Find(index[1..], i)
  }

  /** Erases the timer by its identity, whatever the order of the index. */
  function Remove(index: seq<nat>, i: nat): (r: seq<nat>)
    ensures forall k :: 0 <= k < |r| ==> r[k] in index
  {
    var p := Find(index, i);
    if p < |index| then index[..p] + index[p + 1..] else index
  }

  predicate Distinct(index: seq<nat>) {
    forall j, k :: 0 <= j < k < |index| ==> index[j] != index[k]
  }

  predicate InRange(timers: seq<TimerData>, index: seq<nat>) {
    forall k :: 0 <= k < |index| ==> index[k] < |timers|
  }

  /** The index is sorted by the due times the timers have now. */
  predicate Ordered(timers: seq<TimerData>, index: seq<nat>)
    requires InRange(timers, index)
  {
    forall j, k :: 0 <= j < k < |index| ==> timers[index[j]].next <= timers[index[k]].next
  }

  predicate IndexedBy(timers: seq<TimerData>, index: seq<nat>) {
    InRange(timers, index) && Distinct(index) && Ordered(timers, index)
  }

  lemma {:induction false} UpperBoundSplits(timers: seq<TimerData>, index: seq<nat>, next: real)
    requires InRange(timers, index) && Ordered(timers, index)
    ensures var p := UpperBound(timers, index, next);
      && (forall k :: 0 <= k < p ==> timers[index[k]].next <= next)
      && (forall k :: p <= k < |index| ==> timers[index[k]].next > next)
  {
    if index != [] && timers[index[0]].next <= next {
      UpperBoundSplits(timers, index[1..], next);
      var p := UpperBound(timers, index[1..], next);
      forall k | 0 <= k < |index|
        ensures if k < p + 1 then timers[index[k]].next <= next else timers[index[k]].next > next
      {
        if k > 0 { assert index[k] == index[1..][k - 1]; }
      }
    }
  }

  lemma InsertAt(timers: seq<TimerData>, index: seq<nat>, i: nat, k: nat)
    requires InRange(timers, index) && i < |timers| && k <= |index|
    ensures var p := UpperBound(timers, index, timers[i].next);
      Insert(timers, index, i)[k] == if k < p then index[k] else if k == p then i else index[k - 1]
  {
    hide UpperBound;
  }

  lemma InsertPair(timers: seq<TimerData>, index: seq<nat>, i: nat, j: nat, k: nat)
    requires IndexedBy(timers, index) && i < |timers| && i !in index
    requires j < k <= |index|
    ensures var r := Insert(timers, index, i);
      r[j] < |timers| && r[k] < |timers| && r[j] != r[k] && timers[r[j]].next <= timers[r[k]].next
  {
    var p := UpperBound(timers, index, timers[i].next);
    UpperBoundSplits(timers, index, timers[i].next);
    InsertAt(timers, index, i, j);
    InsertAt(timers, index, i, k);
    hide UpperBound, Insert;
    if j == p {
      assert index[k - 1] in index;
    } else if k == p {
      assert index[j] in index;
    }
  }

  lemma InsertMembers(timers: seq<TimerData>, index: seq<nat>, i: nat)
    requires InRange(timers, index) && i < |timers|
    ensures |Insert(timers, index, i)| == |index| + 1
    ensures forall j :: j in Insert(timers, index, i) <==> j == i || j in index
  {
    var p := UpperBound(timers, index, timers[i].next);
    hide UpperBound, InRange;
    var a, b := index[..p], index[p..];
    assert index == a + b;
    assert forall j :: j in index <==> j in a || j in b;
    assert forall j :: j in a + [i] + b <==> j in a || j == i || j in b;
  }

  lemma InsertInRange(timers: seq<TimerData>, index: seq<nat>, i: nat)
    requires InRange(timers, index) && i < |timers|
    ensures InRange(timers, Insert(timers, index, i))
  {
    InsertMembers(timers, index, i);
    var r := Insert(timers, index, i);
    hide Insert;
    forall k | 0 <= k < |r| ensures r[k] < |timers| {
      assert r[k] in r;
    }
  }

  lemma InsertKeepsOrder(timers: seq<TimerData>, index: seq<nat>, i: nat)
    requires IndexedBy(timers, index) && i < |timers| && i !in index
    ensures IndexedBy(timers, Insert(timers, index, i))
    ensures forall j :: j in Insert(timers, index, i) <==> j == i || j in index
  {
    InsertMembers(timers, index, i);
    InsertInRange(timers, index, i);
    var r := Insert(timers, index, i);
    hide UpperBound, Insert;
    forall j, k | 0 <= j < k < |r| ensures r[j] != r[k] && timers[r[j]].next <= timers[r[k]].next {
      InsertPair(timers, index, i, j, k);
    }
  }

  lemma RemoveMembers(index: seq<nat>, i: nat)
    requires Distinct(index)
    ensures forall j :: j in Remove(index, i) <==> j != i && j in index
  {
    var p := Find(index, i);
    hide Find;
    if p < |index| {
      var a, b := index[..p], index[p + 1..];
      assert index == a + [i] + b;
      assert forall j :: j in index <==> j in a || j == i || j in b;
      assert forall j :: j in a + b <==> j in a || j in b;
      assert i !in b;
    } else {
      assert index[..p] == index;
    }
  }

  lemma RemoveKeepsOrder(timers: seq<TimerData>, index: seq<nat>, i: nat)
    requires IndexedBy(timers, index)
    ensures IndexedBy(timers, Remove(index, i))
    ensures forall j :: j in Remove(index, i) <==> j != i && j in index
  {
    hide Find, InRange, Distinct, Ordered;
    RemoveMembers(index, i);
    var p := Find(index, i);
    if p < |index| {
      SkipKeepsOrder(timers, index, p);
    }
  }

  lemma SkipKeepsOrder(timers: seq<TimerData>, index: seq<nat>, p: nat)
    requires IndexedBy(timers, index) && p < |index|
    ensures IndexedBy(timers, index[..p] + index[p + 1..])
  {
    var r := index[..p] + index[p + 1..];
    forall j, k | 0 <= j < k < |r|
      ensures r[j] != r[k] && r[j] < |timers| && r[k] < |timers| && timers[r[j]].next <= timers[r[k]].next
    {
      var j', k' := if j < p then j else j + 1, if k < p then k else k + 1;
      assert r[j] == index[j'] && r[k] == index[k'];
    }
  }

  /** Changing the due time of a timer outside the index leaves the index ordered. */
  lemma KeyChange(timers: seq<TimerData>, index: seq<nat>, i: nat, t: TimerData)
    requires IndexedBy(timers, index) && i < |timers|
    requires i !in index || t.next == timers[i].next
    ensures IndexedBy(timers[i := t], index)
  {
    forall k | 0 <= k < |index| ensures timers[i := t][index[k]].next == timers[index[k]].next {
      assert index[k] in index;
    }
  }

  // ---- what the operations do under the mutex ----

  /** `InternalRescheduleUnlocked`, at the time `now`. */
  function Rescheduled(q: Queue, i: nat, completed: bool, next: real, now: real): Queue
    requires i < |q.timers| && InRange(q.timers, q.index)
  {
    var t := if completed then q.timers[i].(running := false) else q.timers[i];
    if next < 0.0 && t.interval <= 0.0 then q.(timers := q.timers[i := t])
    else
      var due := t.(next := if next < 0.0 then now + t.interval else next);
      var timers := q.timers[i := due];
      if due.started && !due.running then
        q.(timers := timers, index := Insert(timers, Remove(q.index, i), i))
      else q.(timers := timers)
  }

  /** The first half of `Start`, which counts the timer among the started ones; the first
      one starts the dispatcher. */
  function Enlisted(q: Queue, i: nat): Queue
    requires i < |q.timers|
  {
    var t := q.timers[i];
    if t.started then q
    else
      Queue(q.timers[i := t.(started := true)], q.index, q.aliveTimers + 1, q.stopping && q.aliveTimers + 1 != 1)
  }

  function Started(q: Queue, i: nat, now: real): Queue
    requires i < |q.timers| && InRange(q.timers, q.index)
  {
    var t := q.timers[i];
    Rescheduled(Enlisted(q, i), i, false, if t.interval > 0.0 then -1.0 else t.next, now)
  }

  /** The timer is the only one that is started, so that stopping it ends the dispatcher. */
  predicate IsLast(q: Queue, i: nat)
    requires i < |q.timers|
  {
    q.timers[i].started && q.aliveTimers == 1
  }

  /** The first half of `Stop`, which no longer counts the timer; without the last one the
      dispatcher is told to stop. */
  function Uncounted(q: Queue, i: nat): Queue
    requires i < |q.timers|
  {
    q.(aliveTimers := if q.timers[i].started then q.aliveTimers - 1 else q.aliveTimers,
       stopping := q.stopping || IsLast(q, i))
  }

  /** The second half of `Stop`, up to the point where it may begin to wait. */
  function Unlisted(q: Queue, i: nat): Queue
    requires i < |q.timers|
  {
    q.(timers := q.timers[i := q.timers[i].(started := false)], index := Remove(q.index, i))
  }

  /** The two halves at once, as long as the dispatcher goes on. */
  function Stopped(q: Queue, i: nat): Queue
    requires i < |q.timers|
  {
    Unlisted(Uncounted(q, i), i)
  }

  /** The dispatcher would not wait at the time `now`. */
  predicate FrontDue(q: Queue, now: real)
    requires InRange(q.timers, q.index)
  {
    q.index != [] && q.timers[q.index[0]].next - now <= 0.01
  }

  /** The dispatcher takes the front timer out and marks it as running, unless nobody owns
      it any more. */
  function Dispatched(q: Queue): Queue
    requires q.index != [] && InRange(q.timers, q.index)
  {
    var i := q.index[0];
    var t := q.timers[i];
    q.(index := Remove(q.index, i), timers := q.timers[i := if t.life.Alive? then t.(running := true) else t])
  }

  predicate TimerInv(t: TimerData, indexed: bool) {
    && (indexed ==> t.started && !t.running)
    && t.next >= 0.0
    && (!t.life.Alive? ==> !t.running)
    && (t.life.Destroyed? ==> !t.started)
  }

  function CountStarted(timers: seq<TimerData>): nat {
    if timers == [] then 0 else (if timers[0].started then 1 else 0) + CountStarted(timers[1..])
  }

  predicate QueueInv(q: Queue) {
    && IndexedBy(q.timers, q.index)
    && forall i :: 0 <= i < |q.timers| ==> TimerInv(q.timers[i], i in q.index)
  }

  /** How many timers are marked as started but no longer counted. */
  function Uncredited(q: Queue): int {
    CountStarted(q.timers) - q.aliveTimers
  }

  lemma {:induction false} CountStartedUpdate(timers: seq<TimerData>, i: nat, t: TimerData)
    requires i < |timers|
    ensures CountStarted(timers[i := t]) ==
      CountStarted(timers) + (if t.started then 1 else 0) - (if timers[i].started then 1 else 0)
  {
    if i == 0 {
      assert timers[i := t][1..] == timers[1..];
    } else {
      CountStartedUpdate(timers[1..], i - 1, t);
      assert timers[i := t][1..] == timers[1..][i - 1 := t];
    }
  }

  /** A timer that is started, not running and has a due time. */
  predicate Requeued(t: TimerData, next: real) {
    t.started && !t.running && (next >= 0.0 || t.interval > 0.0)
  }

  /** Rescheduling keeps the invariant although it changes the key of a timer before taking
      it out of the index; it queues the timer exactly if it is started, not running and has
      a due time, unless it was queued anyway. */
  lemma RescheduledKeeps(q: Queue, i: nat, completed: bool, next: real, now: real)
    requires QueueInv(q) && i < |q.timers| && now >= 0.0
    ensures var r := Rescheduled(q, i, completed, next, now);
      && QueueInv(r) && |r.timers| == |q.timers|
      && r.aliveTimers == q.aliveTimers && r.stopping == q.stopping && Uncredited(r) == Uncredited(q)
      && (forall j :: 0 <= j < |q.timers| && j != i ==> r.timers[j] == q.timers[j])
      && (forall j :: j != i ==> (j in r.index <==> j in q.index))
      && (i in r.index <==> i in q.index || Requeued(r.timers[i], next))
      && r.timers[i] == q.timers[i].(
           running := !completed && q.timers[i].running,
           next := if next >= 0.0 then next
                   else if q.timers[i].interval > 0.0 then now + q.timers[i].interval
                   else q.timers[i].next)
  {
    hide Insert, Remove, CountStarted, Distinct, Ordered;
    var r := Rescheduled(q, i, completed, next, now);
    var t := r.timers[i];
    CountStartedUpdate(q.timers, i, t);
    if Requeued(t, next) {
      RemoveKeepsOrder(q.timers, q.index, i);
      KeyChange(q.timers, Remove(q.index, i), i, t);
      InsertKeepsOrder(q.timers[i := t], Remove(q.index, i), i);
    } else {
      KeyChange(q.timers, q.index, i, t);
    }
  }

  lemma EnlistedKeeps(q: Queue, i: nat)
    requires QueueInv(q) && i < |q.timers| && q.timers[i].life.Alive?
    ensures var r := Enlisted(q, i);
      && QueueInv(r) && |r.timers| == |q.timers| && r.index == q.index && Uncredited(r) == Uncredited(q)
      && (forall j :: 0 <= j < |q.timers| && j != i ==> r.timers[j] == q.timers[j])
      && r.timers[i] == q.timers[i].(started := true)
  {
    var t := q.timers[i].(started := true);
    CountStartedUpdate(q.timers, i, t);
    KeyChange(q.timers, q.index, i, t);
    assert q.timers[i] == t ==> q.timers[i := t] == q.timers;
    hide IndexedBy, CountStarted;
  }

  lemma StartedKeeps(q: Queue, i: nat, now: real)
    requires QueueInv(q) && i < |q.timers| && q.timers[i].life.Alive? && now >= 0.0
    ensures var r := Started(q, i, now);
      && QueueInv(r) && |r.timers| == |q.timers| && Uncredited(r) == Uncredited(q)
      && r.aliveTimers == (if q.timers[i].started then q.aliveTimers else q.aliveTimers + 1)
      && r.stopping == (q.stopping && (q.timers[i].started || q.aliveTimers != 0))
      && (forall j :: 0 <= j < |q.timers| && j != i ==> r.timers[j] == q.timers[j])
      && (forall j :: j != i ==> (j in r.index <==> j in q.index))
      && (i in r.index <==> !r.timers[i].running)
      && r.timers[i] == q.timers[i].(
           started := true,
           next := if q.timers[i].interval > 0.0 then now + q.timers[i].interval else q.timers[i].next)
  {
    EnlistedKeeps(q, i);
    var t := q.timers[i];
    var next := if t.interval > 0.0 then -1.0 else t.next;
    RescheduledKeeps(Enlisted(q, i), i, false, next, now);
    assert TimerInv(t, i in q.index);
    assert Started(q, i, now) == Rescheduled(Enlisted(q, i), i, false, next, now);
    hide QueueInv, Rescheduled, Uncredited;
  }

  lemma UnlistedKeeps(q: Queue, i: nat)
    requires QueueInv(q) && i < |q.timers|
    ensures var r := Unlisted(q, i);
      && QueueInv(r) && |r.timers| == |q.timers|
      && Uncredited(r) == Uncredited(q) - (if q.timers[i].started then 1 else 0)
      && (forall j :: 0 <= j < |q.timers| && j != i ==> r.timers[j] == q.timers[j])
      && (forall j :: j in r.index <==> j != i && j in q.index)
      && r.timers[i] == q.timers[i].(started := false)
  {
    var t := q.timers[i].(started := false);
    RemoveKeepsOrder(q.timers, q.index, i);
    KeyChange(q.timers, Remove(q.index, i), i, t);
    CountStartedUpdate(q.timers, i, t);
    hide IndexedBy, Remove, CountStarted;
  }

  lemma StoppedKeeps(q: Queue, i: nat)
    requires QueueInv(q) && i < |q.timers|
    ensures var r := Stopped(q, i);
      && QueueInv(r) && |r.timers| == |q.timers| && Uncredited(r) == Uncredited(q)
      && (forall j :: 0 <= j < |q.timers| && j != i ==> r.timers[j] == q.timers[j])
      && (forall j :: j in r.index <==> j != i && j in q.index)
      && r.timers[i] == q.timers[i].(started := false)
  {
    var u := Uncounted(q, i);
    assert QueueInv(u);
    UnlistedKeeps(u, i);
    hide QueueInv, Unlisted, CountStarted;
  }

  lemma DispatchedKeeps(q: Queue)
    requires QueueInv(q) && q.index != []
    ensures var r := Dispatched(q); var i := q.index[0];
      && QueueInv(r) && |r.timers| == |q.timers|
      && r.aliveTimers == q.aliveTimers && r.stopping == q.stopping && Uncredited(r) == Uncredited(q)
      && (forall j :: 0 <= j < |q.timers| && j != i ==> r.timers[j] == q.timers[j])
      && (forall j :: j in r.index <==> j != i && j in q.index)
      && r.timers[i] == q.timers[i].(running := q.timers[i].life.Alive?)
  {
    var i := q.index[0];
    assert i in q.index;
    var t := q.timers[i].(running := q.timers[i].life.Alive?);
    assert TimerInv(q.timers[i], i in q.index);
    RemoveKeepsOrder(q.timers, q.index, i);
    KeyChange(q.timers, Remove(q.index, i), i, t);
    CountStartedUpdate(q.timers, i, t);
    hide IndexedBy, Remove, CountStarted;
  }

  // ---- the interleaved steps ----

  /** The dispatcher has marked the timer `handing` as running and released the mutex, but
      not yet queued its callback. `queued` and `executing` are the callbacks in the thread
      pool; `waiting` are the calls of `Stop(true)` that wait for the timer to complete, and
      `joining` is the call that waits for the dispatcher to end. */
  datatype State = State(
    q: Queue, handing: Option<nat>, queued: multiset<nat>, executing: multiset<nat>, waiting: multiset<nat>,
    joining: Option<Join>)

  /** A call of `Stop` for the last started timer, by its destructor or somebody else. */
  datatype Join = Join(i: nat, wait: bool, destroy: bool)

  /** `now` is what the clock says during the step. */
  datatype Action =
    | SetInterval(i: nat, interval: real)
    | Start(i: nat, now: real)
    | Stop(i: nat, wait: bool)
    | Joined                                      // the dispatcher has ended, its Stop goes on
    | Resume(i: nat)                              // a waiting Stop(true) returns
    | Reschedule(i: nat, next: real, now: real)
    | Dispatch(now: real)                         // the dispatcher takes the front timer
    | Enqueue                                     // and queues its callback
    | Begin(i: nat)                               // a thread begins to run the callback
    | Complete(i: nat, now: real)                 // the callback has returned or thrown
    | Expire(i: nat)                              // the last shared pointer goes away
    | Destroy(i: nat)                             // the destructor runs

  function Init(n: nat): State {
    State(Queue(seq(n, _ => TimerData(0.0, 0.0, false, false, Alive)), [], 0, false),
          None, multiset{}, multiset{}, multiset{}, None)
  }

  function InFlight(s: State, i: nat): nat {
    (if s.handing == Some(i) then 1 else 0) + s.queued[i] + s.executing[i]
  }

  /** The timer an action is about. */
  function Target(s: State, a: Action): Option<nat> {
    match a
    case Dispatch(_) => if s.q.index == [] then None else Some(s.q.index[0])
    case Enqueue => s.handing
    case Joined => if s.joining.None? then None else Some(s.joining.value.i)
    case SetInterval(i, _) => Some(i)
    case Start(i, _) => Some(i)
    case Stop(i, _) => Some(i)
    case Resume(i) => Some(i)
    case Reschedule(i, _, _) => Some(i)
    case Begin(i) => Some(i)
    case Complete(i, _) => Some(i)
    case Expire(i) => Some(i)
    case Destroy(i) => Some(i)
  }

  predicate Enabled(s: State, a: Action) {
    && InRange(s.q.timers, s.q.index)
    && Target(s, a).Some? && Target(s, a).value < |s.q.timers|
    && var i := Target(s, a).value;
    var t := s.q.timers[i];
    match a
    case SetInterval(_, _) => t.life.Alive?
    case Start(_, now) => t.life.Alive? && now >= 0.0 && (s.joining.Some? ==> t.started)
    case Stop(_, _) => t.life.Alive?
    case Joined => s.handing.None?
    case Resume(_) => i in s.waiting && !t.running
    case Reschedule(_, _, now) => t.life.Alive? && now >= 0.0
    case Dispatch(now) => s.handing.None? && !s.q.stopping && FrontDue(s.q, now)
    case Enqueue => true
    case Begin(_) => i in s.queued
    case Complete(_, now) => i in s.executing && now >= 0.0
    case Expire(_) => t.life.Alive? && InFlight(s, i) == 0 && i !in s.waiting && !IsJoining(s, i)
    case Destroy(_) => t.life.Expired? && !IsJoining(s, i) && (s.q.stopping || !t.running)
  }

  /** A call of `Stop` for the timer waits for the dispatcher to end. */
  predicate IsJoining(s: State, i: nat) {
    s.joining.Some? && s.joining.value.i == i
  }

  /** `Stop`: it returns at once, without doing anything, once the dispatcher has been told to
      stop; it waits for the dispatcher if the timer is the last one; otherwise it may have to
      wait for the callback. */
  function ApplyStop(s: State, i: nat, wait: bool, destroy: bool): (u: State)
    requires i < |s.q.timers|
    ensures |u.q.timers| == |s.q.timers|
  {
    if s.q.stopping then s
    else if IsLast(s.q, i) then s.(q := Uncounted(s.q, i), joining := Some(Join(i, wait, destroy)))
    else
      s.(q := Stopped(s.q, i),
         waiting := if wait && s.q.timers[i].running then s.waiting + multiset{i} else s.waiting)
  }

  /** The rest of `Stop` when the dispatcher has ended. */
  function ApplyJoined(s: State, j: Join): (u: State)
    requires j.i < |s.q.timers|
    ensures |u.q.timers| == |s.q.timers|
  {
    var waits := j.wait && s.q.timers[j.i].running;
    s.(q := Unlisted(s.q, j.i), joining := None,
       waiting := if waits then s.waiting + multiset{j.i} else s.waiting)
  }

  /** The destructor's call of `Stop` has returned, unless it waits. */
  function ApplyDestroyed(s: State, i: nat): (u: State)
    requires i < |s.q.timers|
    ensures |u.q.timers| == |s.q.timers|
  {
    if IsJoining(s, i) then s else s.(q := SetTimer(s.q, i, s.q.timers[i].(life := Destroyed)))
  }

  function SetTimer(q: Queue, i: nat, t: TimerData): Queue
    requires i < |q.timers|
  {
    q.(timers := q.timers[i := t])
  }

  function Apply(s: State, a: Action): (u: State)
    requires Enabled(s, a)
    ensures |u.q.timers| == |s.q.timers|
  {
    var i := Target(s, a).value;
    var t := s.q.timers[i];
    match a
    case SetInterval(_, interval) => s.(q := SetTimer(s.q, i, t.(interval := interval)))
    case Start(_, now) => s.(q := Started(s.q, i, now))
    case Stop(_, wait) => ApplyStop(s, i, wait, false)
    case Joined =>
      var u := ApplyJoined(s, s.joining.value);
      if s.joining.value.destroy then ApplyDestroyed(u, i) else u
    case Resume(_) => s.(waiting := s.waiting - multiset{i})
    case Reschedule(_, next, now) => s.(q := Rescheduled(s.q, i, false, next, now))
    case Dispatch(_) => s.(q := Dispatched(s.q), handing := if t.life.Alive? then Some(i) else None)
    case Enqueue => s.(handing := None, queued := s.queued + multiset{i})
    case Begin(_) => s.(queued := s.queued - multiset{i}, executing := s.executing + multiset{i})
    case Complete(_, now) =>
      s.(q := Rescheduled(s.q, i, true, -1.0, now), executing := s.executing - multiset{i})
    case Expire(_) => s.(q := SetTimer(s.q, i, t.(life := Expired)))
    case Destroy(_) => ApplyDestroyed(ApplyStop(s, i, true, true), i)
  }

  /** Everything the state says about one timer. */
  datatype View = View(t: TimerData, indexed: bool, flight: nat, waiting: nat)

  function ViewOf(s: State, i: nat): View
    requires i < |s.q.timers|
  {
    View(s.q.timers[i], i in s.q.index, InFlight(s, i), s.waiting[i])
  }

  /** What an action does to its timer. */
  predicate ViewStep(v: View, a: Action, w: View) {
    match a
    case SetInterval(_, interval) => w == v.(t := v.t.(interval := interval))
    case Start(_, now) =>
      w == v.(t := v.t.(started := true, next := if v.t.interval > 0.0 then now + v.t.interval else v.t.next),
              indexed := !v.t.running)
    case Stop(_, wait) =>
      w == v || w == v.(t := v.t.(started := false), indexed := false,
                        waiting := v.waiting + if wait && v.t.running then 1 else 0)
    case Joined =>
      v.t.started &&
      (if v.t.life.Alive? then
         w == v.(t := v.t.(started := false), indexed := false, waiting := w.waiting) &&
         v.waiting <= w.waiting
       else w == v.(t := v.t.(started := false, life := Destroyed), indexed := false))
    case Resume(_) => v.waiting > 0 && !v.t.running && w == v.(waiting := v.waiting - 1)
    case Reschedule(_, next, now) =>
      w == v.(t := v.t.(next := if next >= 0.0 then next
                                else if v.t.interval > 0.0 then now + v.t.interval
                                else v.t.next),
              indexed := v.indexed || Requeued(v.t, next))
    case Dispatch(now) =>
      v.indexed && v.t.next <= now + 0.01 &&
      (if v.t.life.Alive? then w == v.(t := v.t.(running := true), indexed := false, flight := v.flight + 1)
       else w == v.(indexed := false))
    case Enqueue => w == v
    case Begin(_) => w == v
    case Complete(_, now) =>
      v.flight > 0 &&
      w == v.(t := v.t.(running := false, next := if v.t.interval > 0.0 then now + v.t.interval else v.t.next),
              flight := v.flight - 1,
              indexed := v.indexed || (v.t.started && v.t.interval > 0.0))
    case Expire(_) => v.t.life.Alive? && v.flight == 0 && v.waiting == 0 && w == v.(t := v.t.(life := Expired))
    case Destroy(_) =>
      v.t.life.Expired? &&
      (w == v || w == v.(t := v.t.(started := false, life := Destroyed), indexed := false))
  }

  /** A timer is queued only if it is started and not running; it has one callback queued or
      executing if it is running, and none otherwise; nobody waits for a timer nobody owns. */
  predicate ViewInv(v: View) {
    && TimerInv(v.t, v.indexed)
    && v.flight == (if v.t.running then 1 else 0)
    && (!v.t.life.Alive? ==> v.waiting == 0)
  }

  /** The count of started timers is right, except that the one whose `Stop` waits for the
      dispatcher is still marked as started; without any, the dispatcher may have ended. */
  predicate CountInv(s: State) {
    && Uncredited(s.q) == (if s.joining.Some? then 1 else 0)
    && (s.q.stopping ==> s.q.aliveTimers == 0)
    && (s.joining.Some? ==>
          var j := s.joining.value;
          && s.q.stopping && j.i < |s.q.timers| && s.q.timers[j.i].started
          && s.q.timers[j.i].life == if j.destroy then Expired else Alive)
  }

  ghost predicate Inv(s: State) {
    && QueueInv(s.q) && CountInv(s)
    && (s.handing.Some? ==> s.handing.value < |s.q.timers|)
    && (forall i :: 0 <= i < |s.q.timers| ==> ViewInv(ViewOf(s, i)))
  }

  /** An action keeps the queue in order, does what `ViewStep` says to its own timer and
      nothing to any other. */
  ghost predicate Effect(s: State, a: Action)
    requires Enabled(s, a)
  {
    var s' := Apply(s, a);
    var i := Target(s, a).value;
    && QueueInv(s'.q) && CountInv(s') && |s'.q.timers| == |s.q.timers|
    && ViewStep(ViewOf(s, i), a, ViewOf(s', i))
    && forall j :: 0 <= j < |s.q.timers| && j != i ==> ViewOf(s', j) == ViewOf(s, j)
  }

  lemma StartEffect(s: State, a: Action)
    requires Inv(s) && Enabled(s, a) && a.Start?
    ensures Effect(s, a)
  {
    hide QueueInv, Started, CountStarted;
    assert ViewInv(ViewOf(s, a.i));
    StartedKeeps(s.q, a.i, a.now);
  }

  lemma UncountedKeeps(q: Queue, i: nat)
    requires QueueInv(q) && i < |q.timers|
    ensures QueueInv(Uncounted(q, i))
  {
    hide IndexedBy;
  }

  lemma StopEffect(s: State, a: Action)
    requires Inv(s) && Enabled(s, a) && a.Stop?
    ensures Effect(s, a)
  {
    hide QueueInv, Unlisted, CountStarted, Uncounted;
    assert ViewInv(ViewOf(s, a.i));
    if !s.q.stopping && IsLast(s.q, a.i) {
      StopLastEffect(s, a);
    } else if !s.q.stopping {
      StoppedKeeps(s.q, a.i);
      StoppedCounts(s.q, a.i);
    }
  }

  lemma StoppedCounts(q: Queue, i: nat)
    requires i < |q.timers| && !IsLast(q, i)
    ensures Stopped(q, i).stopping == q.stopping
  {
  }

  lemma StopLastEffect(s: State, a: Action)
    requires Inv(s) && Enabled(s, a) && a.Stop? && !s.q.stopping && IsLast(s.q, a.i)
    ensures Effect(s, a)
  {
    hide QueueInv, Unlisted, CountStarted;
    UncountedKeeps(s.q, a.i);
  }

  lemma UnlistedCounts(q: Queue, i: nat)
    requires i < |q.timers|
    ensures var r := Unlisted(q, i); r.stopping == q.stopping && r.aliveTimers == q.aliveTimers
  {
  }

  lemma JoinedEffect(s: State, a: Action)
    requires Inv(s) && Enabled(s, a) && a.Joined?
    ensures Effect(s, a)
  {
    hide QueueInv, Unlisted, CountStarted;
    var i := s.joining.value.i;
    assert ViewInv(ViewOf(s, i));
    UnlistedKeeps(s.q, i);
    UnlistedCounts(s.q, i);
    var q := Unlisted(s.q, i);
    if s.joining.value.destroy {
      SetTimerKeeps(q, i, q.timers[i].(life := Destroyed));
    }
  }

  lemma {:induction false} NoneCounted(timers: seq<TimerData>)
    requires CountStarted(timers) == 0
    ensures forall k :: 0 <= k < |timers| ==> !timers[k].started
  {
    if timers != [] {
      NoneCounted(timers[1..]);
      forall k | 0 <= k < |timers| ensures !timers[k].started {
        if k > 0 { assert timers[k] == timers[1..][k - 1]; }
      }
    }
  }

  /** Once the dispatcher has been told to stop no timer is started but the one whose `Stop`
      waits for that. */
  lemma NoneStarted(s: State, i: nat)
    requires CountInv(s) && s.q.stopping && i < |s.q.timers| && !IsJoining(s, i)
    ensures !s.q.timers[i].started
  {
    if s.joining.Some? {
      var j := s.joining.value.i;
      var t := s.q.timers[j].(started := false);
      CountStartedUpdate(s.q.timers, j, t);
      NoneCounted(s.q.timers[j := t]);
      assert s.q.timers[j := t][i] == s.q.timers[i];
    } else {
      NoneCounted(s.q.timers);
    }
  }

  lemma RescheduleEffect(s: State, a: Action)
    requires Inv(s) && Enabled(s, a) && a.Reschedule?
    ensures Effect(s, a)
  {
    hide QueueInv, Rescheduled, CountStarted, Started, ApplyStop, ApplyJoined, ApplyDestroyed, Dispatched;
    assert ViewInv(ViewOf(s, a.i));
    RescheduledKeeps(s.q, a.i, false, a.next, a.now);
  }

  lemma FieldEffect(s: State, a: Action)
    requires Inv(s) && Enabled(s, a) && (a.SetInterval? || a.Expire?)
    ensures Effect(s, a)
  {
    assert ViewInv(ViewOf(s, a.i));
    var t := s.q.timers[a.i];
    SetTimerKeeps(s.q, a.i, if a.Expire? then t.(life := Expired) else t.(interval := a.interval));
    hide QueueInv;
  }

  lemma DispatchEffect(s: State, a: Action)
    requires Inv(s) && Enabled(s, a) && a.Dispatch?
    ensures Effect(s, a)
  {
    assert s.q.index[0] in s.q.index;
    assert ViewInv(ViewOf(s, s.q.index[0]));
    DispatchedKeeps(s.q);
    hide QueueInv, Dispatched;
  }

  lemma PoolEffect(s: State, a: Action)
    requires Inv(s) && Enabled(s, a) && (a.Enqueue? || a.Begin? || a.Resume?)
    ensures Effect(s, a)
  {
    hide QueueInv, CountStarted, Dispatched, Rescheduled, Started, ApplyStop, ApplyJoined, ApplyDestroyed;
  }

  lemma CompleteEffect(s: State, a: Action)
    requires Inv(s) && Enabled(s, a) && a.Complete?
    ensures Effect(s, a)
  {
    hide QueueInv, Rescheduled, CountStarted;
    assert ViewInv(ViewOf(s, a.i));
    RescheduledKeeps(s.q, a.i, true, -1.0, a.now);
  }

  lemma DestroyEffect(s: State, a: Action)
    requires Inv(s) && Enabled(s, a) && a.Destroy?
    ensures Effect(s, a)
  {
    hide QueueInv, Unlisted, CountStarted;
    var i := a.i;
    assert ViewInv(ViewOf(s, i));
    if s.q.stopping {
      NoneStarted(s, i);
      SetTimerKeeps(s.q, i, s.q.timers[i].(life := Destroyed));
    } else if IsLast(s.q, i) {
      UncountedKeeps(s.q, i);
    } else {
      StoppedKeeps(s.q, i);
      StoppedCounts(s.q, i);
      var q := Stopped(s.q, i);
      SetTimerKeeps(q, i, q.timers[i].(life := Destroyed));
    }
  }

  lemma StepEffect(s: State, a: Action)
    requires Inv(s) && Enabled(s, a)
    ensures Effect(s, a)
  {
    hide Inv, Enabled, Effect;
    if a.Start? {
      StartEffect(s, a);
    } else if a.Stop? {
      StopEffect(s, a);
    } else if a.Joined? {
      JoinedEffect(s, a);
    } else if a.Reschedule? {
      RescheduleEffect(s, a);
    } else if a.SetInterval? || a.Expire? {
      FieldEffect(s, a);
    } else if a.Dispatch? {
      DispatchEffect(s, a);
    } else if a.Complete? {
      CompleteEffect(s, a);
    } else if a.Destroy? {
      DestroyEffect(s, a);
    } else {
      PoolEffect(s, a);
    }
  }

  lemma SetTimerKeeps(q: Queue, i: nat, t: TimerData)
    requires QueueInv(q) && i < |q.timers|
    requires t.next == q.timers[i].next && t.started == q.timers[i].started && TimerInv(t, i in q.index)
    ensures QueueInv(SetTimer(q, i, t)) && Uncredited(SetTimer(q, i, t)) == Uncredited(q)
  {
    KeyChange(q.timers, q.index, i, t);
    CountStartedUpdate(q.timers, i, t);
    hide IndexedBy, CountStarted;
  }

  lemma ViewInvStep(v: View, a: Action, w: View)
    requires ViewInv(v) && ViewStep(v, a, w) && TimerInv(w.t, w.indexed)
    ensures ViewInv(w)
  {
  }

  lemma InvStep(s: State, a: Action)
    requires Inv(s) && Enabled(s, a)
    ensures Inv(Apply(s, a))
  {
    StepEffect(s, a);
    var s' := Apply(s, a);
    var i := Target(s, a).value;
    assert s'.handing.Some? ==> s'.handing.value < |s'.q.timers|;
    hide Apply, Enabled, ViewStep;
    forall j | 0 <= j < |s'.q.timers| ensures ViewInv(ViewOf(s', j)) {
      assert ViewInv(ViewOf(s, j));
      if j == i {
        assert TimerInv(s'.q.timers[i], i in s'.q.index);
        ViewInvStep(ViewOf(s, i), a, ViewOf(s', i));
      }
    }
  }

  // ---- runs ----

  /** The actions of `run`, in order, lead from `s` to `u`. */
  predicate Leads(s: State, run: seq<Action>, u: State)
    decreases |run|
  {
    if run == [] then s == u
    else Enabled(s, run[0]) && Leads(Apply(s, run[0]), run[1..], u)
  }

  ghost predicate Reachable(s: State) {
    exists run, n: nat :: Leads(Init(n), run, s)
  }

  lemma {:induction false} NothingStarted(timers: seq<TimerData>)
    requires forall k :: 0 <= k < |timers| ==> !timers[k].started
    ensures CountStarted(timers) == 0
  {
    if timers != [] {
      NothingStarted(timers[1..]);
    }
  }

  lemma InitInv(n: nat)
    ensures Inv(Init(n))
  {
    hide CountStarted;
    var s := Init(n);
    NothingStarted(s.q.timers);
    forall i | 0 <= i < |s.q.timers| ensures ViewInv(ViewOf(s, i)) {
      assert ViewOf(s, i) == View(TimerData(0.0, 0.0, false, false, Alive), false, 0, 0);
    }
  }

  lemma {:induction false} InvLeads(s: State, run: seq<Action>, u: State)
    requires Inv(s) && Leads(s, run, u)
    ensures Inv(u) && |u.q.timers| == |s.q.timers|
    decreases |run|
  {
    hide Inv, Enabled, Apply;
    if run != [] {
      InvStep(s, run[0]);
      StepEffect(s, run[0]);
      InvLeads(Apply(s, run[0]), run[1..], u);
    }
  }

  lemma ReachableInv(s: State)
    requires Reachable(s)
    ensures Inv(s)
  {
    hide Inv, Leads;
    var run, n: nat :| Leads(Init(n), run, s);
    InitInv(n);
    InvLeads(Init(n), run, s);
  }

  // ---- what holds in every reachable state ----

  /** At most one callback of a timer is queued or executing, exactly while it is marked as
      running; a timer in the index is started, not running and not destroyed. */
  lemma SingleFlight(s: State, i: nat)
    requires Reachable(s) && i < |s.q.timers|
    ensures InFlight(s, i) == if s.q.timers[i].running then 1 else 0
    ensures i in s.q.index ==> s.q.timers[i].started && !s.q.timers[i].running && !s.q.timers[i].life.Destroyed?
  {
    ReachableInv(s);
    assert ViewInv(ViewOf(s, i));
  }

  /** The dispatcher, unless told to stop, takes a timer exactly if some queued timer is due,
      and it takes one that no other is due before, at most a hundredth of a second early. */
  lemma DispatchTakesEarliest(s: State, now: real)
    requires Reachable(s) && s.handing.None?
    ensures Enabled(s, Dispatch(now)) <==>
      !s.q.stopping && InRange(s.q.timers, s.q.index) &&
      exists k :: 0 <= k < |s.q.index| && s.q.timers[s.q.index[k]].next <= now + 0.01
    ensures Enabled(s, Dispatch(now)) ==>
      var i := s.q.index[0];
      && s.q.timers[i].next <= now + 0.01
      && forall k :: 0 <= k < |s.q.index| ==> s.q.timers[i].next <= s.q.timers[s.q.index[k]].next
  {
    ReachableInv(s);
    hide Distinct;
  }

  /** A call of `Stop(true)` for the timer returns, at once or after waiting. */
  predicate Returns(s: State, a: Action, i: nat)
    requires Enabled(s, a)
  {
    var u := Apply(s, a);
    || a == Resume(i)
    || (a == Stop(i, true) && u.joining == s.joining && u.waiting == s.waiting)
    || (a.Joined? && IsJoining(s, i) && s.joining.value.wait && u.waiting == s.waiting)
  }

  /** When `Stop(true)` returns no callback of the timer is queued or executing, except that
      once the dispatcher has been told to stop it does not even look. */
  lemma StopReturnsIdle(s: State, a: Action, i: nat)
    requires Reachable(s) && i < |s.q.timers| && Enabled(s, a) && Returns(s, a, i)
    ensures InFlight(Apply(s, a), i) == 0 <==> !(a.Stop? && s.q.stopping && s.q.timers[i].running)
  {
    ReachableInv(s);
    StepEffect(s, a);
    assert ViewInv(ViewOf(s, i));
    assert ViewOf(Apply(s, a), i).flight == InFlight(Apply(s, a), i);
    hide Uncounted, Unlisted;
  }

  /** The destructor never waits for a callback, only for the dispatcher if the timer is the
      last one that is started, and that ends as soon as it has handed over what it holds. */
  lemma DestructorNeverWaits(s: State, i: nat)
    requires Reachable(s) && i < |s.q.timers| && s.q.timers[i].life.Expired?
    ensures InFlight(s, i) == 0
    ensures Enabled(s, Destroy(i)) <==> !IsJoining(s, i)
    ensures Enabled(s, Destroy(i)) ==>
      var u := Apply(s, Destroy(i)); u.q.timers[i].life.Destroyed? || (IsJoining(u, i) && !s.q.stopping)
    ensures IsJoining(s, i) ==>
      && (Enabled(s, Joined) <==> s.handing.None?)
      && (Enabled(s, Joined) ==> Apply(s, Joined).q.timers[i].life.Destroyed?)
  {
    ReachableInv(s);
    assert ViewInv(ViewOf(s, i));
  }

  // ---- what stopping does ----

  /** No other timer is marked as started. */
  predicate OnlyStarted(timers: seq<TimerData>, i: nat) {
    i < |timers| && timers[i].started && forall j :: 0 <= j < |timers| && j != i ==> !timers[j].started
  }

  lemma OnlyCounted(timers: seq<TimerData>, i: nat)
    requires i < |timers| && timers[i].started
    ensures OnlyStarted(timers, i) <==> CountStarted(timers) == 1
  {
    hide CountStarted;
    var rest := timers[i := timers[i].(started := false)];
    CountStartedUpdate(timers, i, rest[i]);
    if OnlyStarted(timers, i) {
      NothingStarted(rest);
    }
    if CountStarted(rest) == 0 {
      NoneCounted(rest);
      assert forall j :: 0 <= j < |timers| && j != i ==> timers[j] == rest[j];
    }
  }

  /** The counter tells which timer is the last one. */
  lemma LastIsOnly(s: State, i: nat)
    requires CountInv(s) && !s.q.stopping && i < |s.q.timers|
    ensures IsLast(s.q, i) <==> OnlyStarted(s.q.timers, i)
  {
    hide CountStarted;
    if s.q.timers[i].started {
      OnlyCounted(s.q.timers, i);
    }
  }

  /** What `Stop` does: nothing once the dispatcher has been told to stop. If no other timer is
      started it tells the dispatcher to stop and waits for that; otherwise the timer is no
      longer started or queued, and the caller waits exactly if it asked for that and the
      callback is running. */
  lemma StopStops(s: State, i: nat, wait: bool)
    requires Inv(s) && Enabled(s, Stop(i, wait))
    ensures var u := Apply(s, Stop(i, wait)); var t := s.q.timers[i];
      if s.q.stopping then u == s
      else if OnlyStarted(s.q.timers, i) then
        u.q.stopping && u.joining == Some(Join(i, wait, false)) && u.waiting == s.waiting && u.q.timers == s.q.timers
      else
        && u.q.timers[i] == t.(started := false) && i !in u.q.index && !u.q.stopping && u.joining == s.joining
        && u.waiting == if wait && t.running then s.waiting + multiset{i} else s.waiting
  {
    if !s.q.stopping {
      LastIsOnly(s, i);
      StoppedKeeps(s.q, i);
    }
    hide QueueInv, CountStarted, OnlyStarted, CountInv;
  }

  /** What the rest of that `Stop` does once the dispatcher has ended. */
  lemma JoinedStops(s: State)
    requires Inv(s) && Enabled(s, Joined)
    ensures var u := Apply(s, Joined); var j := s.joining.value; var t := s.q.timers[j.i];
      && u.q.timers[j.i] == t.(started := false, life := if j.destroy then Destroyed else t.life)
      && j.i !in u.q.index && u.joining.None? && u.q.stopping
      && u.waiting == if j.wait && t.running then s.waiting + multiset{j.i} else s.waiting
  {
    UnlistedKeeps(s.q, s.joining.value.i);
    UnlistedCounts(s.q, s.joining.value.i);
    hide QueueInv, CountStarted;
  }

  /** Whether the dispatcher has been told to stop after the step: not by starting a timer that
      was not, and otherwise if it had been or the only started timer is stopped. */
  predicate ToldBy(s: State, a: Action, told: bool) {
    if a.Start? && a.i < |s.q.timers| && !s.q.timers[a.i].started then false
    else told || ((a.Stop? || a.Destroy?) && OnlyStarted(s.q.timers, a.i))
  }

  lemma StoppingStep(s: State, a: Action)
    requires Inv(s) && Enabled(s, a)
    ensures Apply(s, a).q.stopping == ToldBy(s, a, s.q.stopping)
  {
    hide QueueInv, CountStarted, IndexedBy, Started, Rescheduled, Dispatched, OnlyStarted;
    if (a.Stop? || a.Destroy?) && !s.q.stopping {
      LastIsOnly(s, a.i);
    } else if a.Start? {
      StartedKeeps(s.q, a.i, a.now);
    } else if a.Dispatch? {
      DispatchedKeeps(s.q);
    } else if a.Reschedule? {
      RescheduledKeeps(s.q, a.i, false, a.next, a.now);
    } else if a.Complete? {
      RescheduledKeeps(s.q, a.i, true, -1.0, a.now);
    }
  }

  predicate Told(s: State, run: seq<Action>, told: bool)
    decreases |run|
  {
    if run == [] || !Enabled(s, run[0]) then told else Told(Apply(s, run[0]), run[1..], ToldBy(s, run[0], told))
  }

  lemma {:induction false} StoppingRun(s: State, run: seq<Action>, u: State)
    requires Inv(s) && Leads(s, run, u)
    ensures u.q.stopping == Told(s, run, s.q.stopping)
    decreases |run|
  {
    hide Inv, Enabled, Apply, ToldBy;
    if run != [] {
      StoppingStep(s, run[0]);
      InvStep(s, run[0]);
      StoppingRun(Apply(s, run[0]), run[1..], u);
    }
  }

  /** Over any run, the dispatcher has been told to stop exactly if the only started timer was
      stopped and none has been started since. */
  lemma StoppingExactly(n: nat, run: seq<Action>, u: State)
    requires Leads(Init(n), run, u)
    ensures u.q.stopping <==> Told(Init(n), run, false)
  {
    InitInv(n);
    StoppingRun(Init(n), run, u);
  }

  /** Whoever has something to do or to wait for can go on: what the dispatcher holds can be
      queued, a callback in the pool can begin or complete, the `Stop` that waits for the
      dispatcher can go on when it holds nothing, and a call of `Stop(true)` when the callback
      has completed. */
  lemma EveryoneGetsOn(s: State, i: nat, now: real)
    requires Reachable(s) && i < |s.q.timers| && now >= 0.0
    ensures s.handing.Some? ==> Enabled(s, Enqueue)
    ensures s.q.timers[i].running ==>
      s.handing == Some(i) || Enabled(s, Action.Begin(i)) || Enabled(s, Complete(i, now))
    ensures s.joining.Some? && s.handing.None? ==> Enabled(s, Joined)
    ensures i in s.waiting && !s.q.timers[i].running ==> Enabled(s, Resume(i))
  {
    ReachableInv(s);
    assert ViewInv(ViewOf(s, i));
    hide Reachable, CountStarted;
  }

  lemma {:induction false} LeadsOn(s: State, run: seq<Action>, u: State, a: Action)
    requires Leads(s, run, u) && Enabled(u, a)
    ensures Leads(s, run + [a], Apply(u, a))
    decreases |run|
  {
    hide Enabled, Apply;
    if run == [] {
      assert (run + [a])[1..] == [];
    } else {
      assert (run + [a])[1..] == run[1..] + [a];
      LeadsOn(Apply(s, run[0]), run[1..], u, a);
    }
  }

  lemma ReachableNext(s: State, a: Action)
    requires Reachable(s) && Enabled(s, a)
    ensures Reachable(Apply(s, a))
  {
    hide Enabled, Apply, Leads;
    var run, n: nat :| Leads(Init(n), run, s);
    LeadsOn(Init(n), run, s, a);
  }

  lemma InsertFirst(timers: seq<TimerData>)
    requires |timers| == 2
    ensures Insert(timers, [], 0) == [0]
  {
  }

  lemma InsertSecond(timers: seq<TimerData>)
    requires |timers| == 2 && timers[0].next == timers[1].next
    ensures Insert(timers, [0], 1) == [0, 1]
  {
    hide Insert;
    InsertMembers(timers, [0], 1);
    InsertAt(timers, [0], 1, 0);
    InsertAt(timers, [0], 1, 1);
  }

  lemma RemoveFromTwo()
    ensures Remove([], 0) == [] && Remove([0], 1) == [0]
    ensures Remove([0, 1], 0) == [1] && Remove([1], 0) == [1] && Remove([1], 1) == []
  {
  }

  /** Two started timers, the callback of the first in flight. */
  lemma StartTwo() returns (s: State)
    ensures Reachable(s)
    ensures var t := TimerData(0.0, 0.0, true, false, Alive);
      s == State(Queue([t.(running := true), t], [1], 2, false), None, multiset{}, multiset{0}, multiset{}, None)
  {
    hide Insert, Remove, Leads, Reachable;
    var off := TimerData(0.0, 0.0, false, false, Alive);
    var t := off.(started := true);
    var none: multiset<nat> := multiset{};
    InitReachable(2);
    var s0 := Init(2);
    assert s0.q.timers == [off, off];
    assert [off, off][0 := t] == [t, off] == [t, off][0 := t];
    assert [t, off][1 := t] == [t, t] == [t, t][1 := t];
    RemoveFromTwo();
    InsertFirst([t, off]);
    InsertSecond([t, t]);
    ReachableNext(s0, Start(0, 0.0));
    var s1 := State(Queue([t, off], [0], 1, false), None, none, none, none, None);
    assert Apply(s0, Start(0, 0.0)) == s1;
    ReachableNext(s1, Start(1, 0.0));
    var s2 := State(Queue([t, t], [0, 1], 2, false), None, none, none, none, None);
    assert Apply(s1, Start(1, 0.0)) == s2;
    s := CallFirst(s2);
  }

  lemma CallFirst(s: State) returns (u: State)
    requires var t := TimerData(0.0, 0.0, true, false, Alive); var none: multiset<nat> := multiset{};
      Reachable(s) && s == State(Queue([t, t], [0, 1], 2, false), None, none, none, none, None)
    ensures Reachable(u)
    ensures u == s.(q := Queue([s.q.timers[0].(running := true), s.q.timers[1]], [1], 2, false),
                    executing := multiset{0})
  {
    hide Insert, Remove, Leads, Reachable;
    RemoveFromTwo();
    assert s.q.timers[0 := s.q.timers[0].(running := true)] == [s.q.timers[0].(running := true), s.q.timers[1]];
    var q := Queue([s.q.timers[0].(running := true), s.q.timers[1]], [1], 2, false);
    ReachableNext(s, Dispatch(0.0));
    var s1 := s.(q := q, handing := Some(0));
    assert Apply(s, Dispatch(0.0)) == s1;
    ReachableNext(s1, Enqueue);
    var s2 := s.(q := q, queued := multiset{0});
    assert Apply(s1, Enqueue) == s2;
    ReachableNext(s2, Begin(0));
    u := Apply(s2, Begin(0));
    assert u.queued == multiset{};
  }

  lemma InitReachable(n: nat)
    ensures Reachable(Init(n))
  {
    assert Leads(Init(n), [], Init(n));
  }

  /** The shortest way there: while the callback of the first of two timers executes, both are
      stopped without waiting, which ends the dispatcher, and then `Stop(true)` of the first
      returns although the callback still executes. */
  lemma StopDoesNotWait() returns (s: State)
    ensures Reachable(s) && |s.q.timers| == 2 && 0 in s.executing
    ensures Enabled(s, Stop(0, true)) && Returns(s, Stop(0, true), 0)
    ensures InFlight(Apply(s, Stop(0, true)), 0) == 1
  {
    hide Insert, Remove, Leads, Reachable;
    s := StartTwo();
    RemoveFromTwo();
    ReachableNext(s, Stop(0, false));
    s := Apply(s, Stop(0, false));
    ReachableNext(s, Stop(1, false));
    s := Apply(s, Stop(1, false));
    ReachableNext(s, Joined);
    s := Apply(s, Joined);
  }

  // ---- what holds over runs ----

  /** How often the run dispatches the timer. */
  function Dispatches(s: State, run: seq<Action>, i: nat): nat
    requires i < |s.q.timers|
    decreases |run|
  {
    if run == [] || !Enabled(s, run[0]) then 0
    else Dispatching(s, run[0], i) + Dispatches(Apply(s, run[0]), run[1..], i)
  }

  function Completions(run: seq<Action>, i: nat): nat {
    if run == [] then 0
    else (if run[0].Complete? && run[0].i == i then 1 else 0) + Completions(run[1..], i)
  }

  /** How often somebody asks for the timer to be scheduled. */
  function Requests(run: seq<Action>, i: nat): nat {
    if run == [] then 0
    else (if (run[0].Start? || run[0].Reschedule?) && run[0].i == i then 1 else 0) + Requests(run[1..], i)
  }

  function Dispatching(s: State, a: Action, i: nat): nat
    requires i < |s.q.timers|
  {
    if a.Dispatch? && Target(s, a) == Some(i) && s.q.timers[i].life.Alive? then 1 else 0
  }

  lemma ConservedStep(s: State, a: Action, i: nat)
    requires Inv(s) && Enabled(s, a) && i < |s.q.timers|
    ensures |Apply(s, a).q.timers| == |s.q.timers|
    ensures Dispatching(s, a, i) + InFlight(s, i) ==
      InFlight(Apply(s, a), i) + if a.Complete? && a.i == i then 1 else 0
  {
    StepEffect(s, a);
    assert ViewOf(s, i).flight == InFlight(s, i);
    assert ViewOf(Apply(s, a), i).flight == InFlight(Apply(s, a), i);
    hide QueueInv, InFlight, Apply;
  }

  /** Every dispatched callback completes exactly once or is still in flight. */
  lemma {:induction false} CallbacksConserved(s: State, run: seq<Action>, u: State, i: nat)
    requires Inv(s) && Leads(s, run, u) && i < |s.q.timers|
    ensures |u.q.timers| == |s.q.timers|
    ensures Dispatches(s, run, i) + InFlight(s, i) == Completions(run, i) + InFlight(u, i)
    decreases |run|
  {
    hide Inv, Enabled, Apply, InFlight, Dispatching, Target;
    if run != [] {
      ConservedStep(s, run[0], i);
      InvStep(s, run[0]);
      CallbacksConserved(Apply(s, run[0]), run[1..], u, i);
    }
  }

  /** Once stopped, a timer is not dispatched before the next `Start`, and what was in flight
      can only complete. */
  lemma {:induction false} QuietAfterStop(s: State, run: seq<Action>, u: State, i: nat)
    requires Inv(s) && Leads(s, run, u) && i < |s.q.timers| && !s.q.timers[i].started
    requires forall k :: 0 <= k < |run| ==> !(run[k].Start? && run[k].i == i)
    ensures |u.q.timers| == |s.q.timers| && !u.q.timers[i].started
    ensures Dispatches(s, run, i) == 0 && InFlight(u, i) <= InFlight(s, i)
    decreases |run|
  {
    hide Inv, Enabled, Apply, QueueInv, InFlight;
    if run != [] {
      StepEffect(s, run[0]);
      InvStep(s, run[0]);
      InvView(s, i);
      QuietAfterStop(Apply(s, run[0]), run[1..], u, i);
    }
  }

  /** A timer without an interval is dispatched at most once for every `Start` and
      `Reschedule`. */
  lemma {:induction false} OneShotFiresOncePerRequest(s: State, run: seq<Action>, u: State, i: nat)
    requires Inv(s) && Leads(s, run, u) && i < |s.q.timers| && s.q.timers[i].interval <= 0.0
    requires forall k :: 0 <= k < |run| ==> !(run[k].SetInterval? && run[k].i == i && run[k].interval > 0.0)
    ensures Dispatches(s, run, i) + (if i in u.q.index then 1 else 0)
              <= Requests(run, i) + (if i in s.q.index then 1 else 0)
    decreases |run|
  {
    hide Inv, Enabled, Apply, Dispatching, Target;
    if run != [] {
      OneShotStep(s, run[0], i);
      OneShotFiresOncePerRequest(Apply(s, run[0]), run[1..], u, i);
    }
  }

  lemma OneShotStep(s: State, a: Action, i: nat)
    requires Inv(s) && Enabled(s, a) && i < |s.q.timers| && s.q.timers[i].interval <= 0.0
    requires !(a.SetInterval? && a.i == i && a.interval > 0.0)
    ensures var u := Apply(s, a);
      && Inv(u) && |u.q.timers| == |s.q.timers| && u.q.timers[i].interval <= 0.0
      && Dispatching(s, a, i) + (if i in u.q.index then 1 else 0)
         <= (if (a.Start? || a.Reschedule?) && a.i == i then 1 else 0) + (if i in s.q.index then 1 else 0)
  {
    hide Inv, Enabled, Apply, QueueInv, InFlight;
    StepEffect(s, a);
    InvStep(s, a);
    InvView(s, i);
    assert ViewOf(Apply(s, a), i).t == Apply(s, a).q.timers[i];
  }

  lemma InvView(s: State, i: nat)
    requires Inv(s) && i < |s.q.timers|
    ensures ViewInv(ViewOf(s, i))
  {
  }

  /** The action sets the due time of the timer. */
  predicate SetsDue(a: Action, i: nat) {
    (a.Start? || a.Complete? || a.Reschedule?) && a.i == i
  }

  lemma DueKeptStep(s: State, a: Action, i: nat)
    requires Inv(s) && Enabled(s, a) && i < |s.q.timers| && !SetsDue(a, i)
    ensures var u := Apply(s, a); |u.q.timers| == |s.q.timers| && u.q.timers[i].next == s.q.timers[i].next
  {
    hide Inv, Enabled, Apply, QueueInv, InFlight;
    StepEffect(s, a);
    assert ViewOf(Apply(s, a), i).t == Apply(s, a).q.timers[i] && ViewOf(s, i).t == s.q.timers[i];
  }

  /** Until somebody sets it again the due time stays, and the timer is not dispatched more
      than a hundredth of a second before it. */
  lemma {:induction false} NotBeforeDue(s: State, run: seq<Action>, u: State, i: nat, now: real)
    requires Inv(s) && Leads(s, run, u) && i < |s.q.timers|
    requires forall k :: 0 <= k < |run| ==> !SetsDue(run[k], i)
    requires Enabled(u, Dispatch(now)) && Target(u, Dispatch(now)) == Some(i)
    ensures now >= s.q.timers[i].next - 0.01
    decreases |run|
  {
    hide Inv, Apply, SetsDue;
    if run != [] {
      DueKeptStep(s, run[0], i);
      InvStep(s, run[0]);
      hide Enabled, Target;
      NotBeforeDue(Apply(s, run[0]), run[1..], u, i, now);
    }
  }

  /** Over any run, a periodic timer is not dispatched before its interval has passed since it
      was last started or its callback last completed, but for a hundredth of a second, unless
      somebody has rescheduled it. */
  lemma PeriodicNotEarly(s: State, a: Action, run: seq<Action>, u: State, i: nat, now: real)
    requires Inv(s) && i < |s.q.timers| && s.q.timers[i].interval > 0.0
    requires Enabled(s, a) && (a.Start? || a.Complete?) && a.i == i && Leads(Apply(s, a), run, u)
    requires forall k :: 0 <= k < |run| ==> !SetsDue(run[k], i)
    requires Enabled(u, Dispatch(now)) && Target(u, Dispatch(now)) == Some(i)
    ensures now >= a.now + s.q.timers[i].interval - 0.01
  {
    hide Inv, Apply, QueueInv, InFlight, Leads;
    StepEffect(s, a);
    InvStep(s, a);
    var s' := Apply(s, a);
    assert ViewOf(s', i).t == s'.q.timers[i] && ViewOf(s, i).t == s.q.timers[i];
    NotBeforeDue(s', run, u, i, now);
  }

  /** The same after somebody has asked for a due time. */
  lemma RescheduledNotEarly(s: State, next: real, asked: real, run: seq<Action>, u: State, i: nat, now: real)
    requires Inv(s) && i < |s.q.timers| && next >= 0.0
    requires Enabled(s, Reschedule(i, next, asked)) && Leads(Apply(s, Reschedule(i, next, asked)), run, u)
    requires forall k :: 0 <= k < |run| ==> !SetsDue(run[k], i)
    requires Enabled(u, Dispatch(now)) && Target(u, Dispatch(now)) == Some(i)
    ensures now >= next - 0.01
  {
    hide Inv, Apply, QueueInv, InFlight, Leads;
    var a := Reschedule(i, next, asked);
    StepEffect(s, a);
    InvStep(s, a);
    var s' := Apply(s, a);
    assert ViewOf(s', i).t == s'.q.timers[i] && ViewOf(s, i).t == s.q.timers[i];
    NotBeforeDue(s', run, u, i, now);
  }

  predicate Periodic(v: View) {
    v.t.interval > 0.0 && v.t.life.Alive? && (v.t.started ==> v.indexed || v.t.running)
  }

  lemma PeriodicStep(v: View, a: Action, w: View)
    requires ViewInv(v) && ViewStep(v, a, w) && Periodic(v)
    requires !a.Expire? && !(a.SetInterval? && a.interval <= 0.0)
    ensures Periodic(w)
  {
  }

  /** A started timer that keeps a positive interval is never forgotten: it is queued, or
      will be when its callback completes. */
  lemma {:induction false} PeriodicNeverLost(s: State, run: seq<Action>, u: State, i: nat)
    requires Inv(s) && Leads(s, run, u) && i < |s.q.timers| && Periodic(ViewOf(s, i))
    requires forall k :: 0 <= k < |run| ==>
      run[k] != Expire(i) && !(run[k].SetInterval? && run[k].i == i && run[k].interval <= 0.0)
    ensures |u.q.timers| == |s.q.timers| && Periodic(ViewOf(u, i))
    decreases |run|
  {
    if run != [] {
      StepEffect(s, run[0]);
      InvStep(s, run[0]);
      assert ViewInv(ViewOf(s, i));
      hide Inv, Enabled, Apply, QueueInv, ViewOf, ViewStep, Periodic;
      var s' := Apply(s, run[0]);
      if Target(s, run[0]) == Some(i) {
        PeriodicStep(ViewOf(s, i), run[0], ViewOf(s', i));
      }
      PeriodicNeverLost(s', run[1..], u, i);
    }
  }

  /** A timer without an interval that is rescheduled from its own callback is forgotten: the
      due time asked for survives the callback only as a field, because the completion queues
      the timer exactly if it is started and periodic. */
  lemma RescheduleInCallback(s: State, i: nat, next: real, now: real, later: real)
    requires Reachable(s) && i < |s.q.timers| && i in s.executing && s.q.timers[i].life.Alive?
    requires next >= 0.0 && now >= 0.0 && later >= 0.0
    ensures Enabled(s, Reschedule(i, next, now))
    ensures Enabled(Apply(s, Reschedule(i, next, now)), Complete(i, later))
    ensures var u := Apply(Apply(s, Reschedule(i, next, now)), Complete(i, later));
      && (i in u.q.index <==> u.q.timers[i].started && u.q.timers[i].interval > 0.0)
      && u.q.timers[i].next == if u.q.timers[i].interval > 0.0 then later + u.q.timers[i].interval else next
  {
    ReachableInv(s);
    var a := Reschedule(i, next, now);
    assert ViewInv(ViewOf(s, i));
    StepEffect(s, a);
    var s' := Apply(s, a);
    assert s'.q.timers[i].next == next;
    InvStep(s, a);
    assert ViewInv(ViewOf(s', i));
    StepEffect(s', Complete(i, later));
    hide IndexedBy, Insert, Remove, QueueInv;
  }

  /** A destroyed timer is never queued, called or waited for again: the index keeps no
      dangling pointer. */
  lemma {:induction false} DestroyedForever(s: State, run: seq<Action>, u: State, i: nat)
    requires Inv(s) && Leads(s, run, u) && i < |s.q.timers| && s.q.timers[i].life.Destroyed?
    ensures i < |u.q.timers| && u.q.timers[i].life.Destroyed?
    ensures i !in u.q.index && InFlight(u, i) == 0 && u.waiting[i] == 0
    decreases |run|
  {
    assert ViewInv(ViewOf(s, i));
    if run != [] {
      StepEffect(s, run[0]);
      InvStep(s, run[0]);
      DestroyedStep(s, run[0], i);
      hide Inv, Enabled, Apply, QueueInv, InFlight;
      DestroyedForever(Apply(s, run[0]), run[1..], u, i);
    }
  }

  lemma DestroyedStep(s: State, a: Action, i: nat)
    requires Inv(s) && Enabled(s, a) && i < |s.q.timers| && s.q.timers[i].life.Destroyed?
    ensures |Apply(s, a).q.timers| == |s.q.timers| && Apply(s, a).q.timers[i].life.Destroyed?
  {
    StepEffect(s, a);
    assert ViewInv(ViewOf(s, i));
    hide QueueInv;
  }

  // ---- the objects ----

  /** A timer object; `id`, its position among all timers, stands for its address. */
  class TimerObject {
    const id: nat
    var interval: real
    var next: real
    var started: bool
    var running: bool
    var life: Life

    constructor (id: nat)
      ensures this.id == id && Data() == TimerData(0.0, 0.0, false, false, Alive)
    {
      this.id := id;
      interval, next, started, running, life := 0.0, 0.0, false, false, Alive;
    }

    function Data(): TimerData
      reads this
    {
      TimerData(interval, next, started, running, life)
    }
  }

  datatype Todo = Return | AwaitCallback | JoinDispatcher

  /** The state shared by all timers, and the critical sections that change it. */
  class Scheduler {
    const timers: seq<TimerObject>
    var index: seq<nat>
    var aliveTimers: int
    var stopTimerThread: bool

    constructor (timers: seq<TimerObject>)
      requires forall k :: 0 <= k < |timers| ==> timers[k].id == k
      requires forall k :: 0 <= k < |timers| ==> timers[k].Data() == TimerData(0.0, 0.0, false, false, Alive)
      ensures this.timers == timers && Valid() && View() == Init(|timers|).q
    {
      this.timers, index, aliveTimers, stopTimerThread := timers, [], 0, false;
    }

    ghost predicate Valid()
      reads this
    {
      && (forall k :: 0 <= k < |timers| ==> timers[k].id == k)
      && (forall k :: 0 <= k < |index| ==> index[k] < |timers|)
    }

    function Fields(): (f: seq<TimerData>)
      reads this, timers
      ensures |f| == |timers| && forall k :: 0 <= k < |timers| ==> f[k] == timers[k].Data()
    {
      seq(|timers|, k requires 0 <= k < |timers| reads timers => timers[k].Data())
    }

    ghost function View(): Queue
      reads this, timers
    {
      Queue(Fields(), index, aliveTimers, stopTimerThread)
    }

    method SetInterval(timer: TimerObject, interval: real)
      requires Valid() && timer in timers
      modifies timer
      ensures Valid() && View() == SetTimer(old(View()), timer.id, old(timer.Data()).(interval := interval))
    {
      timer.interval := interval;
      assert Fields() == old(Fields())[timer.id := timer.Data()];
    }

    method InternalRescheduleUnlocked(timer: TimerObject, completed: bool, next: real, now: real)
      requires Valid() && timer in timers
      modifies this, timer
      ensures timer.next == if next >= 0.0 then next
        else if timer.interval > 0.0 then now + timer.interval else old(timer.next)
      ensures timer.running == (!completed && old(timer.running))
      ensures timer.started == old(timer.started) && timer.interval == old(timer.interval)
      ensures Valid() && View() == Rescheduled(old(View()), timer.id, completed, next, now)
    {
      hide Insert, Remove;
      var due := next;
      if completed {
        timer.running := false;
      }
      if next < 0.0 {
        if timer.interval <= 0.0 {
          assert Fields() == old(Fields())[timer.id := timer.Data()];
          return;
        }
        due := now + timer.interval;
      }
      timer.next := due;
      assert Fields() == old(Fields())[timer.id := timer.Data()];
      if timer.started && !timer.running {
        var fields := Fields();
        index := Remove(index, timer.id);
        InsertInRange(fields, index, timer.id);
        index := Insert(fields, index, timer.id);
        assert Fields() == fields;
      }
    }

    method Start(timer: TimerObject, now: real)
      requires Valid() && timer in timers
      modifies this, timer
      ensures timer.started && timer.interval == old(timer.interval) && timer.running == old(timer.running)
      ensures timer.next == if timer.interval > 0.0 then now + timer.interval else old(timer.next)
      ensures Valid() && View() == Started(old(View()), timer.id, now)
    {
      if !timer.started {
        aliveTimers := aliveTimers + 1;
        if aliveTimers == 1 {
          stopTimerThread := false;
        }
      }
      timer.started := true;
      assert Fields() == old(Fields())[timer.id := timer.Data()];
      InternalRescheduleUnlocked(timer, false, if timer.interval > 0.0 then -1.0 else timer.next, now);
    }

    /** What the caller of `Stop` has to do: nothing, or wait for the callback to complete, or
        wait for the dispatcher to end and then finish stopping. */
    method Stop(timer: TimerObject, wait: bool) returns (todo: Todo)
      requires Valid() && timer in timers
      modifies this, timer
      ensures Valid()
      ensures var q := old(View()); var i := timer.id;
        if q.stopping then View() == q && todo == Return
        else if IsLast(q, i) then View() == Uncounted(q, i) && todo == JoinDispatcher
        else View() == Stopped(q, i) && todo == if wait && q.timers[i].running then AwaitCallback else Return
    {
      if stopTimerThread {
        return Return;
      }
      if timer.started {
        aliveTimers := aliveTimers - 1;
        if aliveTimers == 0 {
          stopTimerThread := true;
          assert Fields() == old(Fields());
          return JoinDispatcher;
        }
      }
      assert Fields() == old(Fields());
      todo := FinishStop(timer, wait);
    }

    /** The part of `Stop` after the dispatcher has ended, or has not been told to. */
    method FinishStop(timer: TimerObject, wait: bool) returns (todo: Todo)
      requires Valid() && timer in timers
      modifies this, timer
      ensures Valid() && View() == Unlisted(old(View()), timer.id)
      ensures todo == if wait && old(timer.running) then AwaitCallback else Return
    {
      timer.started := false;
      index := Remove(index, timer.id);
      assert Fields() == old(Fields())[timer.id := timer.Data()];
      todo := if wait && timer.running then AwaitCallback else Return;
    }

    /** One pass of the dispatcher's loop: the timer to call, if any. */
    method TakeDue(now: real) returns (timer: Option<TimerObject>)
      requires Valid()
      modifies this, timers
      ensures Valid()
      ensures var q := old(View());
        View() == if !q.stopping && FrontDue(q, now) then Dispatched(q) else q
      ensures timer.Some? <==>
        !old(stopTimerThread) && FrontDue(old(View()), now) && old(View()).timers[old(index)[0]].life.Alive?
      ensures timer.Some? ==> timer.value in timers && timer.value.id == old(index)[0]
    {
      if stopTimerThread || index == [] {
        return None;
      }
      var front := timers[index[0]];
      if front.next - now > 0.01 {
        return None;
      }
      index := Remove(index, front.id);
      if !front.life.Alive? {
        assert Fields() == old(Fields())[front.id := front.Data()];
        return None;
      }
      front.running := true;
      assert Fields() == old(Fields())[front.id := front.Data()];
      return Some(front);
    }
  }
}
