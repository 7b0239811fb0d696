/**
 The slots for CPU-bound work: a counting semaphore taken by a lock-free compare-and-swap
 loop, a list of subscribers guarded by a mutex, and wake-ups posted to strands.
 Every access to shared memory is a step of its own, and the steps of any number of
 coroutines interleave freely.
 */
module CpuSlots {
  import opened Wrappers

  /** Where a coroutine is in the life of its `CpuBoundWork` object. */
  datatype Pc =
    | Outside                  // there is no object
    | Load                     // constructor: about to load the semaphore
    | Cas(seen: nat)           // loaded `seen` > 0, about to swap in `seen - 1`
    | Lock                     // saw zero, about to lock the mutex
    | LoadLocked               // holds the mutex, about to load the semaphore again
    | CasLocked(seen: nat)
    | Subscribe                // holds the mutex, saw zero again, about to subscribe
    | Unlock                   // subscribed, about to unlock
    | BeforeWait               // about to suspend on the condition variable
    | Waiting                  // suspended
    | UnlockHolding            // got a slot while holding the mutex, about to unlock
    | Constructed              // the constructor has returned
    | FetchAdd                 // Done: the flag is set, about to increment the semaphore
    | DoneLock                 // Done: turned 0 into 1, about to lock the mutex
    | DoneSwap                 // Done: holds the mutex, about to take the subscribers
    | DoneUnlock(subs: seq<nat>)
    | Post(subs: seq<nat>)     // Done: posting one wake-up after the other

  /** `done` is the flag `m_Done`; the counters record how often a slot was taken and
      given back. */
  datatype Co = Co(pc: Pc, done: bool, acquired: nat, released: nat)

  /** The memory shared by all coroutines; `posted` holds the coroutines with a wake-up
      queued on their strand. */
  datatype Shared = Shared(free: nat, owner: Option<nat>, waiting: seq<nat>, posted: multiset<nat>)

  datatype State = State(capacity: nat, mem: Shared, cos: seq<Co>)

  datatype Action =
    | Construct(i: nat)        // a coroutine begins to construct an object
    | Run(i: nat)              // its next step
    | SpuriousFail(i: nat)     // its weak compare-and-swap fails for no reason
    | CallDone(i: nat)         // Done is called, by its owner or by the destructor
    | Destroy(i: nat)          // the destructor returns
    | Notify(i: nat)           // a posted wake-up runs on the coroutine's strand

  function Init(capacity: nat, n: nat): State {
    State(capacity, Shared(capacity, None, [], multiset{}), seq(n, _ => Co(Outside, true, 0, 0)))
  }

  /** The action can happen to a coroutine in state `c`. */
  predicate Ready(m: Shared, c: Co, a: Action) {
    match a
    case Construct(_) => c.pc.Outside?
    case SpuriousFail(_) => c.pc.Cas? || c.pc.CasLocked?
    case CallDone(_) => c.pc.Constructed?
    case Destroy(_) => c.pc.Constructed? && c.done
    case Notify(i) => c.pc.Waiting? && i in m.posted
    case Run(_) =>
      if c.pc.Lock? || c.pc.DoneLock? then m.owner.None?
      else !c.pc.Outside? && !c.pc.Waiting? && !c.pc.Constructed?
  }

  /** What a load, or the reload done by a failed compare-and-swap, leads to. */
  function AfterLoad(free: nat, locked: bool): Pc {
    if free > 0 then (if locked then CasLocked(free) else Cas(free))
    else if locked then Subscribe else Lock
  }

  function RunStep(m: Shared, c: Co, i: nat): (Shared, Co)
    requires Ready(m, c, Run(i))
  {
    match c.pc
    case Load => (m, c.(pc := AfterLoad(m.free, false)))
    case Cas(seen) =>
      if seen == m.free > 0 then
        (m.(free := m.free - 1), c.(pc := Constructed, acquired := c.acquired + 1))
      else (m, c.(pc := AfterLoad(m.free, false)))
    case Lock => (m.(owner := Some(i)), c.(pc := LoadLocked))
    case LoadLocked => (m, c.(pc := AfterLoad(m.free, true)))
    case CasLocked(seen) =>
      if seen == m.free > 0 then
        (m.(free := m.free - 1), c.(pc := UnlockHolding, acquired := c.acquired + 1))
      else (m, c.(pc := AfterLoad(m.free, true)))
    case Subscribe => (m.(waiting := m.waiting + [i]), c.(pc := Unlock))
    case Unlock => (m.(owner := None), c.(pc := BeforeWait))
    case BeforeWait => (m, c.(pc := Waiting))
    case UnlockHolding => (m.(owner := None), c.(pc := Constructed))
    case FetchAdd =>
      (m.(free := m.free + 1),
       c.(pc := if m.free == 0 then DoneLock else Constructed, released := c.released + 1))
    case DoneLock => (m.(owner := Some(i)), c.(pc := DoneSwap))
    case DoneSwap => (m.(waiting := []), c.(pc := DoneUnlock(m.waiting)))
    case DoneUnlock(subs) => (m.(owner := None), c.(pc := Post(subs)))
    case Post(subs) =>
      if subs == [] then (m, c.(pc := Constructed))
      else (m.(posted := m.posted + multiset{subs[0]}), c.(pc := Post(subs[1..])))
  }

  /** The effect of an action on the shared memory and on its coroutine. */
  function Step(m: Shared, c: Co, a: Action): (Shared, Co)
    requires Ready(m, c, a)
  {
    match a
    case Construct(_) => (m, c.(pc := Load, done := false))
    case Run(i) => RunStep(m, c, i)
    case SpuriousFail(_) => (m, c.(pc := AfterLoad(m.free, c.pc.CasLocked?)))
    case CallDone(_) => (m, if c.done then c else c.(pc := FetchAdd, done := true))
    case Destroy(_) => (m, c.(pc := Outside))
    case Notify(i) => (m.(posted := m.posted - multiset{i}), c.(pc := Load))
  }

  predicate Enabled(s: State, a: Action) {
    a.i < |s.cos| && Ready(s.mem, s.cos[a.i], a)
  }

  function Apply(s: State, a: Action): State
    requires Enabled(s, a)
  {
    var (m, c) := Step(s.mem, s.cos[a.i], a);
    State(s.capacity, m, s.cos[a.i := c])
  }

  /** The actions of `run`, in order, lead from `s` to `t`. */
  predicate Leads(s: State, run: seq<Action>, t: State)
    decreases |run|
  {
    if run == [] then s == t
    else Enabled(s, run[0]) && Leads(Apply(s, run[0]), run[1..], t)
  }

  ghost predicate Reachable(s: State) {
    exists run, capacity: nat, n: nat :: Leads(Init(capacity, n), run, s)
  }

  // ---- the invariant ----

  predicate OwnsMutex(pc: Pc) {
    pc.LoadLocked? || pc.CasLocked? || pc.Subscribe? || pc.Unlock? || pc.UnlockHolding?
    || pc.DoneSwap? || pc.DoneUnlock?
  }

  predicate HoldsSlot(c: Co) {
    c.pc.UnlockHolding? || (c.pc.Constructed? && !c.done) || c.pc.FetchAdd?
  }

  /** The coroutine is owed a wake-up. */
  predicate Subscribed(pc: Pc) {
    pc.Unlock? || pc.BeforeWait? || pc.Waiting?
  }

  /** `Done` has turned 0 into 1 and has not taken the subscribers yet. */
  predicate AboutToSwap(pc: Pc) {
    pc.DoneLock? || pc.DoneSwap?
  }

  predicate Acquiring(pc: Pc) {
    pc.Load? || pc.Cas? || pc.Lock? || pc.LoadLocked? || pc.CasLocked? || pc.Subscribe? || Subscribed(pc)
  }

  function Subs(pc: Pc): seq<nat> {
    if pc.DoneUnlock? || pc.Post? then pc.subs else []
  }

  function Sum(cos: seq<Co>, w: (Co, nat) -> nat, x: nat): nat {
    if cos == [] then 0 else w(cos[0], x) + Sum(cos[1..], w, x)
  }

  /** The wake-ups for `k` that a `Done` has taken from the list and not posted yet. */
  function TakenWeight(c: Co, k: nat): nat { multiset(Subs(c.pc))[k] }

  /** The number of wake-up tokens of coroutine `k`, wherever they are. */
  function Tokens(s: State, k: nat): nat {
    multiset(s.mem.waiting)[k] + Sum(s.cos, TakenWeight, k) + s.mem.posted[k]
  }

  function HoldsWeight(c: Co, x: nat): nat { if HoldsSlot(c) then 1 else 0 }

  predicate CoInv(c: Co) {
    && c.acquired == c.released + HoldsWeight(c, 0)
    && (c.pc.Cas? || c.pc.CasLocked? ==> c.pc.seen > 0)
    && (Acquiring(c.pc) || c.pc.UnlockHolding? ==> !c.done)
    && (!Acquiring(c.pc) && !c.pc.UnlockHolding? && !c.pc.Constructed? ==> c.done)
  }

  predicate CosInv(s: State) {
    forall i :: 0 <= i < |s.cos| ==> CoInv(s.cos[i])
  }

  predicate MutexInv(s: State) {
    && (forall i :: 0 <= i < |s.cos| ==> (OwnsMutex(s.cos[i].pc) <==> s.mem.owner == Some(i)))
    && (s.mem.owner.Some? ==> s.mem.owner.value < |s.cos|)
  }

  predicate SlotInv(s: State) {
    s.mem.free + Sum(s.cos, HoldsWeight, 0) == s.capacity
  }

  ghost predicate TokenInv(s: State) {
    forall k: nat :: Tokens(s, k) == if k < |s.cos| && Subscribed(s.cos[k].pc) then 1 else 0
  }

  predicate WakeupInv(s: State) {
    s.mem.waiting != [] || (exists i :: 0 <= i < |s.cos| && s.cos[i].pc.Subscribe?) ==>
      s.mem.free == 0 || exists j :: 0 <= j < |s.cos| && AboutToSwap(s.cos[j].pc)
  }

  ghost predicate Inv(s: State) {
    CosInv(s) && MutexInv(s) && SlotInv(s) && TokenInv(s) && WakeupInv(s)
  }

  // ---- sums over the coroutines ----

  lemma {:induction false} SumUpdate(cos: seq<Co>, i: nat, c: Co, w: (Co, nat) -> nat, x: nat)
    requires i < |cos|
    ensures Sum(cos[i := c], w, x) + w(cos[i], x) == Sum(cos, w, x) + w(c, x)
  {
    if i == 0 {
      assert cos[i := c][1..] == cos[1..];
    } else {
      assert cos[i := c][1..] == cos[1..][i - 1 := c];
      SumUpdate(cos[1..], i - 1, c, w, x);
    }
  }

  lemma {:induction false} SumZero(cos: seq<Co>, w: (Co, nat) -> nat, x: nat)
    requires forall i :: 0 <= i < |cos| ==> w(cos[i], x) == 0
    ensures Sum(cos, w, x) == 0
  {
    if cos != [] {
      SumZero(cos[1..], w, x);
    }
  }

  // ---- the invariant is inductive ----

  lemma InitInv(capacity: nat, n: nat)
    ensures Inv(Init(capacity, n))
  {
    var s := Init(capacity, n);
    SumZero(s.cos, HoldsWeight, 0);
    forall k: nat ensures Tokens(s, k) == 0 {
      SumZero(s.cos, TakenWeight, k);
    }
  }

  lemma CosStep(s: State, a: Action)
    requires CosInv(s) && Enabled(s, a)
    ensures CosInv(Apply(s, a))
  {
    var (m, c) := Step(s.mem, s.cos[a.i], a);
    assert CoInv(c);
  }

  /** One step changes the owner of the mutex only from nobody to its own coroutine or back. */
  lemma MutexLocal(m: Shared, c: Co, a: Action)
    requires Ready(m, c, a)
    requires OwnsMutex(c.pc) <==> m.owner == Some(a.i)
    ensures var (m', c') := Step(m, c, a);
      && (OwnsMutex(c'.pc) <==> m'.owner == Some(a.i))
      && (m'.owner == m.owner || (m.owner.None? && m'.owner == Some(a.i)) || (m.owner == Some(a.i) && m'.owner.None?))
  {
  }

  lemma MutexStep(s: State, a: Action)
    requires MutexInv(s) && Enabled(s, a)
    ensures MutexInv(Apply(s, a))
  {
    MutexLocal(s.mem, s.cos[a.i], a);
  }

  lemma SlotLocal(m: Shared, c: Co, a: Action)
    requires Ready(m, c, a) && CoInv(c)
    ensures var (m', c') := Step(m, c, a);
      m'.free + HoldsWeight(c', 0) == m.free + HoldsWeight(c, 0)
  {
  }

  lemma SlotStep(s: State, a: Action)
    requires SlotInv(s) && Enabled(s, a) && CosInv(s)
    ensures SlotInv(Apply(s, a))
  {
    SlotLocal(s.mem, s.cos[a.i], a);
    SumUpdate(s.cos, a.i, Step(s.mem, s.cos[a.i], a).1, HoldsWeight, 0);
  }

  predicate Subscribes(c: Co, a: Action) {
    a.Run? && c.pc.Subscribe?
  }

  /** The tokens of `k` that one coroutine and the shared memory hold together. */
  function LocalTokens(m: Shared, c: Co, k: nat): nat {
    multiset(m.waiting)[k] + TakenWeight(c, k) + m.posted[k]
  }

  lemma HeadCount(subs: seq<nat>, k: nat)
    requires subs != []
    ensures multiset(subs)[k] == multiset(subs[1..])[k] + if subs[0] == k then 1 else 0
  {
    assert subs == [subs[0]] + subs[1..];
  }

  lemma TokensElsewhere(m: Shared, c: Co, a: Action)
    requires Ready(m, c, a)
    requires !a.Notify? && !(a.Run? && (c.pc.Post? || c.pc.Subscribe? || c.pc.DoneSwap?))
    ensures var (m', c') := Step(m, c, a);
      m'.waiting == m.waiting && m'.posted == m.posted && Subs(c'.pc) == Subs(c.pc)
  {
  }

  lemma TokensPost(m: Shared, c: Co, i: nat, k: nat)
    requires c.pc.Post?
    ensures var (m', c') := Step(m, c, Run(i)); LocalTokens(m', c', k) == LocalTokens(m, c, k)
  {
    if c.pc.subs != [] {
      HeadCount(c.pc.subs, k);
    }
  }

  lemma TokensSwap(m: Shared, c: Co, i: nat, k: nat)
    requires c.pc.DoneSwap?
    ensures var (m', c') := Step(m, c, Run(i)); LocalTokens(m', c', k) == LocalTokens(m, c, k)
  {
  }

  lemma TokensSubscribe(m: Shared, c: Co, i: nat, k: nat)
    requires c.pc.Subscribe?
    ensures var (m', c') := Step(m, c, Run(i));
      LocalTokens(m', c', k) == LocalTokens(m, c, k) + if k == i then 1 else 0
  {
  }

  lemma TokensNotify(m: Shared, c: Co, i: nat, k: nat)
    requires c.pc.Waiting? && i in m.posted
    ensures var (m', c') := Step(m, c, Notify(i));
      LocalTokens(m', c', k) == LocalTokens(m, c, k) - if k == i then 1 else 0
  {
  }

  lemma TokensLocal(m: Shared, c: Co, a: Action, k: nat)
    requires Ready(m, c, a)
    ensures var (m', c') := Step(m, c, a);
      LocalTokens(m', c', k) ==
        LocalTokens(m, c, k) + (if k == a.i && Subscribes(c, a) then 1 else 0)
        - (if k == a.i && a.Notify? then 1 else 0)
  {
    if a.Notify? { TokensNotify(m, c, a.i, k); }
    else if a.Run? && c.pc.Post? { TokensPost(m, c, a.i, k); }
    else if a.Run? && c.pc.Subscribe? { TokensSubscribe(m, c, a.i, k); }
    else if a.Run? && c.pc.DoneSwap? { TokensSwap(m, c, a.i, k); }
    else { TokensElsewhere(m, c, a); }
  }

  /** Tokens are neither created nor destroyed, except where a coroutine subscribes or
      wakes up. */
  lemma TokensStep(s: State, a: Action, k: nat)
    requires Enabled(s, a)
    ensures Tokens(Apply(s, a), k) ==
      Tokens(s, k) + (if k == a.i && Subscribes(s.cos[a.i], a) then 1 else 0) - (if k == a.i && a.Notify? then 1 else 0)
  {
    TokensLocal(s.mem, s.cos[a.i], a, k);
    SumUpdate(s.cos, a.i, Step(s.mem, s.cos[a.i], a).1, TakenWeight, k);
  }

  lemma SubscribedLocal(m: Shared, c: Co, a: Action)
    requires Ready(m, c, a)
    ensures Subscribed(Step(m, c, a).1.pc) <==> Subscribes(c, a) || (Subscribed(c.pc) && !a.Notify?)
    ensures Subscribes(c, a) || a.Construct? ==> !Subscribed(c.pc)
  {
  }

  lemma TokenStep(s: State, a: Action)
    requires TokenInv(s) && Enabled(s, a)
    ensures TokenInv(Apply(s, a))
  {
    SubscribedLocal(s.mem, s.cos[a.i], a);
    var t := Apply(s, a);
    forall k: nat
      ensures Tokens(t, k) == if k < |t.cos| && Subscribed(t.cos[k].pc) then 1 else 0
    {
      TokensStep(s, a, k);
      assert Tokens(s, k) == if k < |s.cos| && Subscribed(s.cos[k].pc) then 1 else 0;
    }
  }

  /** What one step does to the quantities the wake-up invariant speaks of. */
  lemma WakeupLocal(m: Shared, c: Co, a: Action)
    requires Ready(m, c, a)
    ensures var (m', c') := Step(m, c, a);
      && (c'.pc.Subscribe? ==> m'.free == 0)
      && (m'.waiting == m.waiting || c.pc.Subscribe? || m'.waiting == [])
      && (m.free == 0 && m'.free > 0 ==> AboutToSwap(c'.pc))
      && (AboutToSwap(c.pc) && !AboutToSwap(c'.pc) ==> m'.waiting == [] && c.pc.DoneSwap?)
      && (c.pc.Subscribe? && c'.pc.Subscribe? ==> m' == m)
  {
  }

  lemma WakeupStep(s: State, a: Action)
    requires WakeupInv(s) && MutexInv(s) && Enabled(s, a)
    ensures WakeupInv(Apply(s, a))
  {
    var c := s.cos[a.i];
    var (m', c') := Step(s.mem, c, a);
    var t := Apply(s, a);
    WakeupLocal(s.mem, c, a);
    if m'.free != 0 && (m'.waiting != [] || exists i :: 0 <= i < |t.cos| && t.cos[i].pc.Subscribe?) {
      if s.mem.free == 0 {
        assert AboutToSwap(t.cos[a.i].pc);
      } else {
        assert forall i :: 0 <= i < |t.cos| && i != a.i ==> t.cos[i] == s.cos[i];
        var j :| 0 <= j < |s.cos| && AboutToSwap(s.cos[j].pc);
        assert a.i == j && !AboutToSwap(c'.pc) ==> s.mem.owner == Some(j);
        assert AboutToSwap(t.cos[j].pc);
      }
    }
  }

  lemma InvStep(s: State, a: Action)
    requires Inv(s) && Enabled(s, a)
    ensures Inv(Apply(s, a))
  {
    CosStep(s, a);
    MutexStep(s, a);
    SlotStep(s, a);
    TokenStep(s, a);
    WakeupStep(s, a);
  }

  lemma {:induction false} InvLeads(s: State, run: seq<Action>, t: State)
    requires Inv(s) && Leads(s, run, t)
    ensures Inv(t)
    decreases |run|
  {
    if run != [] {
      InvStep(s, run[0]);
      InvLeads(Apply(s, run[0]), run[1..], t);
    }
  }

  lemma ReachableInv(s: State)
    requires Reachable(s)
    ensures Inv(s)
  {
    var run, capacity: nat, n: nat :| Leads(Init(capacity, n), run, s);
    InitInv(capacity, n);
    InvLeads(Init(capacity, n), run, s);
  }

  // ---- safety in every reachable state ----

  /** No slot is lost or invented, however the coroutines interleave. */
  lemma SlotConservation(s: State)
    requires Reachable(s)
    ensures s.mem.free + Sum(s.cos, HoldsWeight, 0) == s.capacity
  {
    ReachableInv(s);
  }

  /** However often `Done` and the destructor run, each slot taken is given back at most
      once, and at any time a coroutine keeps back at most one slot. */
  lemma ReleasedOnce(s: State, i: nat)
    requires Reachable(s) && i < |s.cos|
    ensures s.cos[i].released <= s.cos[i].acquired <= s.cos[i].released + 1
    ensures s.cos[i].acquired == s.cos[i].released + 1 <==> HoldsSlot(s.cos[i])
  {
    ReachableInv(s);
    assert CoInv(s.cos[i]);
  }

  /** A subscribed coroutine has exactly one wake-up token; the others have none. */
  lemma UniqueToken(s: State, i: nat)
    requires Reachable(s)
    ensures Tokens(s, i) == if i < |s.cos| && Subscribed(s.cos[i].pc) then 1 else 0
  {
    ReachableInv(s);
  }

  /** Where the wake-up of a suspended coroutine is. */
  ghost predicate WakeupInFlight(s: State, i: nat) {
    i in s.mem.posted || exists j :: 0 <= j < |s.cos| && i in Subs(s.cos[j].pc)
  }

  ghost predicate SwapPending(s: State) {
    exists j :: 0 <= j < |s.cos| && AboutToSwap(s.cos[j].pc)
  }

  /** As long as somebody is on the waiting list, or holds the mutex having seen no free slot
      and is about to get on it, no slot is free or a `Done` that turned 0 into 1 has not
      taken the list yet. */
  lemma WaitersMeanBusy(s: State)
    requires Reachable(s)
    requires s.mem.waiting != [] || exists i :: 0 <= i < |s.cos| && s.cos[i].pc.Subscribe?
    ensures s.mem.free == 0 || SwapPending(s)
  {
    ReachableInv(s);
  }

  lemma {:induction false} TakenWitness(cos: seq<Co>, k: nat)
    requires Sum(cos, TakenWeight, k) > 0
    ensures exists j :: 0 <= j < |cos| && k in Subs(cos[j].pc)
  {
    if k in multiset(Subs(cos[0].pc)) {
      assert k in Subs(cos[0].pc);
    } else {
      TakenWitness(cos[1..], k);
      var j :| 0 <= j < |cos[1..]| && k in Subs(cos[1..][j].pc);
      assert k in Subs(cos[j + 1].pc);
    }
  }

  /** No wake-up is lost: a suspended coroutine's wake-up is on its way, or a `Done` is
      about to send it, or no slot is free. */
  lemma NoLostWakeup(s: State, i: nat)
    requires Reachable(s) && i < |s.cos| && s.cos[i].pc.Waiting?
    ensures WakeupInFlight(s, i) || SwapPending(s) || s.mem.free == 0
  {
    ReachableInv(s);
    assert Tokens(s, i) == 1;
    if i !in s.mem.posted {
      if Sum(s.cos, TakenWeight, i) > 0 {
        TakenWitness(s.cos, i);
      } else {
        assert i in multiset(s.mem.waiting);
      }
    }
  }

  lemma {:induction false} SumWitness(cos: seq<Co>)
    requires Sum(cos, HoldsWeight, 0) > 0
    ensures exists j :: 0 <= j < |cos| && HoldsSlot(cos[j])
  {
    if !HoldsSlot(cos[0]) {
      SumWitness(cos[1..]);
      var j :| 0 <= j < |cos[1..]| && HoldsSlot(cos[1..][j]);
      assert HoldsSlot(cos[j + 1]);
    }
  }

  // ---- liveness ----

  /** An action that gets on with the work at hand: it neither begins new work, nor is it a
      spurious failure, nor a repeated call of `Done`. */
  predicate Productive(s: State, a: Action) {
    Enabled(s, a) && !a.Construct? && !a.SpuriousFail? && !(a.CallDone? && s.cos[a.i].done)
  }

  predicate Idle(s: State) {
    forall i :: 0 <= i < |s.cos| ==> s.cos[i].pc.Outside?
  }

  lemma HolderMoves(s: State) returns (a: Action)
    requires Inv(s) && s.mem.owner.None? && s.mem.free == 0 && s.capacity > 0
    ensures Productive(s, a)
  {
    SumWitness(s.cos);
    var j :| 0 <= j < |s.cos| && HoldsSlot(s.cos[j]);
    a := if s.cos[j].pc.FetchAdd? then Run(j) else CallDone(j);
  }

  lemma WaiterMoves(s: State, i: nat) returns (a: Action)
    requires Inv(s) && s.mem.owner.None? && s.capacity > 0
    requires i < |s.cos| && s.cos[i].pc.Waiting?
    ensures Productive(s, a)
  {
    assert Tokens(s, i) == 1;
    if i in s.mem.posted {
      a := Notify(i);
    } else if Sum(s.cos, TakenWeight, i) > 0 {
      TakenWitness(s.cos, i);
      var j :| 0 <= j < |s.cos| && i in Subs(s.cos[j].pc);
      a := Run(j);
    } else {
      assert i in multiset(s.mem.waiting);
      if s.mem.free == 0 {
        a := HolderMoves(s);
      } else {
        var j :| 0 <= j < |s.cos| && AboutToSwap(s.cos[j].pc);
        a := Run(j);
      }
    }
  }

  /** The protocol never deadlocks: as long as some coroutine has work, some coroutine can
      get on with it. */
  lemma DeadlockFree(s: State) returns (a: Action)
    requires Inv(s) && s.capacity > 0 && !Idle(s)
    ensures Productive(s, a)
  {
    if s.mem.owner.Some? {
      a := Run(s.mem.owner.value);
    } else {
      var i :| 0 <= i < |s.cos| && !s.cos[i].pc.Outside?;
      var c := s.cos[i];
      if c.pc.Waiting? {
        a := WaiterMoves(s, i);
      } else if c.pc.Constructed? {
        a := if c.done then Destroy(i) else CallDone(i);
      } else {
        a := Run(i);
      }
    }
  }

  function ToReleaseWeight(c: Co, x: nat): nat {
    if Acquiring(c.pc) || HoldsSlot(c) then 1 else 0
  }

  function AcquiringWeight(c: Co, x: nat): nat { if Acquiring(c.pc) then 1 else 0 }

  function SwapWeight(c: Co, x: nat): nat { if AboutToSwap(c.pc) then 1 else 0 }

  function SubsWeight(c: Co, x: nat): nat { |Subs(c.pc)| }

  /** How far the coroutine is from its next event of a more important kind. */
  function RankWeight(c: Co, free: nat): nat {
    match c.pc
    case Load => 9
    case Cas(seen) => if seen == free then 7 else 8
    case Lock => 6
    case LoadLocked => 5
    case CasLocked(seen) => if seen == free then 3 else 4
    case Subscribe => 3
    case Unlock => 2
    case BeforeWait => 1
    case Waiting => 0
    case UnlockHolding => 3
    case Constructed => if c.done then 1 else 2
    case FetchAdd => 1
    case DoneLock => 2
    case DoneSwap => 1
    case DoneUnlock(subs) => |subs| + 3
    case Post(subs) => |subs| + 2
    case Outside => 0
  }

  datatype Measure = Measure(toRelease: nat, acquiring: nat, swaps: nat, inFlight: nat, rank: nat)

  predicate Less(a: Measure, b: Measure) {
    a.toRelease < b.toRelease || (a.toRelease == b.toRelease && (
    a.acquiring < b.acquiring || (a.acquiring == b.acquiring && (
    a.swaps < b.swaps || (a.swaps == b.swaps && (
    a.inFlight < b.inFlight || (a.inFlight == b.inFlight &&
    a.rank < b.rank)))))))
  }

  function WorkLeft(s: State): Measure {
    Measure(
      Sum(s.cos, ToReleaseWeight, 0),
      Sum(s.cos, AcquiringWeight, 0),
      Sum(s.cos, SwapWeight, 0),
      Sum(s.cos, SubsWeight, 0) + |s.mem.posted|,
      Sum(s.cos, RankWeight, s.mem.free))
  }

  /** The share of one coroutine and the shared memory in the work left. */
  function LocalWork(m: Shared, c: Co, x: nat): Measure {
    Measure(ToReleaseWeight(c, 0), AcquiringWeight(c, 0), SwapWeight(c, 0),
            SubsWeight(c, 0) + |m.posted|, RankWeight(c, x))
  }

  lemma WorkLocal(m: Shared, c: Co, a: Action)
    requires Ready(m, c, a) && CoInv(c)
    requires !a.Construct? && !a.SpuriousFail? && !(a.CallDone? && c.done)
    ensures var (m', c') := Step(m, c, a);
      && Less(LocalWork(m', c', m.free), LocalWork(m, c, m.free))
      && (m'.free != m.free ==>
            ToReleaseWeight(c', 0) < ToReleaseWeight(c, 0)
            || (ToReleaseWeight(c', 0) == ToReleaseWeight(c, 0) && AcquiringWeight(c', 0) < AcquiringWeight(c, 0)))
  {
    if a.Run? {
      WorkRun(m, c, a);
    }
  }

  lemma WorkRun(m: Shared, c: Co, a: Action)
    requires Ready(m, c, a) && CoInv(c) && a.Run?
    ensures var (m', c') := Step(m, c, a);
      && Less(LocalWork(m', c', m.free), LocalWork(m, c, m.free))
      && (m'.free != m.free ==>
            ToReleaseWeight(c', 0) < ToReleaseWeight(c, 0)
            || (ToReleaseWeight(c', 0) == ToReleaseWeight(c, 0) && AcquiringWeight(c', 0) < AcquiringWeight(c, 0)))
  {
  }

  /** Every productive step leaves less work. */
  lemma StepLeavesLess(s: State, a: Action)
    requires CosInv(s) && Productive(s, a)
    ensures Less(WorkLeft(Apply(s, a)), WorkLeft(s))
  {
    var c := s.cos[a.i];
    var (m', c') := Step(s.mem, c, a);
    WorkLocal(s.mem, c, a);
    SumUpdate(s.cos, a.i, c', ToReleaseWeight, 0);
    SumUpdate(s.cos, a.i, c', AcquiringWeight, 0);
    SumUpdate(s.cos, a.i, c', SwapWeight, 0);
    SumUpdate(s.cos, a.i, c', SubsWeight, 0);
    SumUpdate(s.cos, a.i, c', RankWeight, s.mem.free);
  }

  /** There is no infinite run of productive steps. */
  lemma {:induction false} NoInfiniteRun(f: nat -> State, g: nat -> Action, k: nat)
    requires Inv(f(k))
    requires forall n: nat :: Productive(f(n), g(n)) && f(n + 1) == Apply(f(n), g(n))
    ensures false
    decreases WorkLeft(f(k)).toRelease, WorkLeft(f(k)).acquiring, WorkLeft(f(k)).swaps,
              WorkLeft(f(k)).inFlight, WorkLeft(f(k)).rank
  {
    assert Productive(f(k), g(k)) && f(k + 1) == Apply(f(k), g(k));
    StepLeavesLess(f(k), g(k));
    InvStep(f(k), g(k));
    NoInfiniteRun(f, g, k + 1);
  }

  predicate LeadsProductively(s: State, run: seq<Action>, t: State)
    decreases |run|
  {
    if run == [] then s == t
    else Productive(s, run[0]) && LeadsProductively(Apply(s, run[0]), run[1..], t)
  }

  /** A coroutine that wants a slot either still does, or has taken exactly one. */
  predicate Served(before: Co, after: Co) {
    if Acquiring(after.pc) then Acquiring(before.pc) && after.acquired == before.acquired
    else after.acquired == before.acquired + if Acquiring(before.pc) then 1 else 0
  }

  lemma ServedLocal(m: Shared, c: Co, a: Action)
    requires Ready(m, c, a) && !a.Construct?
    ensures Served(c, Step(m, c, a).1)
  {
  }

  lemma {:induction false} RunServes(s: State, run: seq<Action>, t: State, i: nat)
    requires LeadsProductively(s, run, t) && i < |s.cos|
    ensures |t.cos| == |s.cos| && t.capacity == s.capacity && Served(s.cos[i], t.cos[i])
    decreases |run|
  {
    if run != [] {
      var u := Apply(s, run[0]);
      ServedLocal(s.mem, s.cos[run[0].i], run[0]);
      RunServes(u, run[1..], t, i);
    }
  }

  lemma {:induction false} ProductiveInv(s: State, run: seq<Action>, t: State)
    requires Inv(s) && LeadsProductively(s, run, t)
    ensures Inv(t) && t.capacity == s.capacity && |t.cos| == |s.cos|
    decreases |run|
  {
    if run != [] {
      InvStep(s, run[0]);
      ProductiveInv(Apply(s, run[0]), run[1..], t);
    }
  }

  /** When no productive step is left, whatever the schedule was, every coroutine that wanted
      a slot has had one, has given it back, and is gone. */
  lemma EveryoneServed(s: State, run: seq<Action>, t: State)
    requires Reachable(s) && s.capacity > 0
    requires LeadsProductively(s, run, t)
    requires forall a: Action :: !Productive(t, a)
    ensures Idle(t) && t.mem.free == t.capacity
    ensures |t.cos| == |s.cos|
    ensures forall i :: 0 <= i < |s.cos| && Acquiring(s.cos[i].pc) ==>
              t.cos[i].acquired == t.cos[i].released == s.cos[i].acquired + 1
  {
    hide Reachable, LeadsProductively, Productive, TokenInv, WakeupInv, MutexInv;
    ReachableInv(s);
    ProductiveInv(s, run, t);
    if !Idle(t) {
      var a := DeadlockFree(t);
    }
    SumZero(t.cos, HoldsWeight, 0);
    forall i | 0 <= i < |s.cos| && Acquiring(s.cos[i].pc)
      ensures t.cos[i].acquired == t.cos[i].released == s.cos[i].acquired + 1
    {
      RunServes(s, run, t, i);
      assert CoInv(t.cos[i]);
    }
  }

  /** From every state some run of productive steps ends with nothing left to do. */
  lemma {:induction false} FinishingRun(s: State) returns (run: seq<Action>, t: State)
    requires Inv(s) && s.capacity > 0
    ensures LeadsProductively(s, run, t) && Idle(t)
    decreases WorkLeft(s).toRelease, WorkLeft(s).acquiring, WorkLeft(s).swaps,
              WorkLeft(s).inFlight, WorkLeft(s).rank
  {
    if Idle(s) {
      run, t := [], s;
    } else {
      var a := DeadlockFree(s);
      StepLeavesLess(s, a);
      InvStep(s, a);
      var rest, u := FinishingRun(Apply(s, a));
      run, t := [a] + rest, u;
    }
  }
}
