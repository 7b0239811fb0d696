/**
 A namespace shared by any number of threads. Writers take a recursive object lock and then
 an exclusive lock on the data; readers take a shared lock on the data, and iterators the
 object lock, unless they find the namespace frozen: then they take no lock at all.
 Each access to a lock, the flag or the data is a step of its own.
 */
module NamespaceFreeze {
  import opened Values
  import opened Wrappers

  datatype Entry = Entry(val: Value, isConst: bool)

  type Data = map<string, Entry>

  datatype Write = Put(val: Value, isConst: bool) | Erase

  /** How the last operation of a thread ended. */
  datatype Result = Nothing | Found(v: Value) | NotFound | Written | ReadOnly | ConstantError

  /** What a thread is doing. */
  datatype Op =
    | Idle
    | GetCheck(key: string)                     // about to load the flag
    | GetLock(key: string)                      // not frozen: about to take the shared lock
    | Reading(key: string, locked: bool)        // inside m_Data
    | GetUnlock
    | WriteLock(key: string, w: Write)          // about to take the object lock
    | WriteCheck(key: string, w: Write)         // about to load the flag
    | WriteDataLock(key: string, w: Write)      // about to take the exclusive lock
    | Writing(key: string, w: Write)            // inside m_Data
    | WriteDataUnlock
    | ObjectUnlock                              // about to release the object lock
    | FreezeLock | FreezeStore
    | IterCheck                                 // LockIfRequired: about to load the flag
    | IterLock                                  // about to take the object lock

  /** `iters` are the iterations the thread is inside of, each with or without the lock; it
      may start other operations meanwhile, because the object lock is recursive. */
  datatype Thread = Thread(iters: seq<bool>, op: Op, last: Result)

  datatype Shared = Shared(
    frozen: bool, owner: Option<nat>, depth: nat, readers: set<nat>, writer: Option<nat>, data: Data)

  datatype State = State(constValues: bool, mem: Shared, threads: seq<Thread>)

  datatype Action =
    | Begin(i: nat, op: Op)
    | Run(i: nat)
    | EndIteration(i: nat)

  function Init(constValues: bool, n: nat): State {
    State(constValues, Shared(false, None, 0, {}, None, map[]), seq(n, _ => Thread([], Idle, Nothing)))
  }

  /** The first step of an operation a thread can start. */
  predicate Initial(op: Op) {
    op.GetCheck? || op.WriteLock? || op.FreezeLock? || op.IterCheck? || op.IterLock?
  }

  predicate MayLockObject(m: Shared, i: nat) {
    m.owner.None? || m.owner == Some(i)
  }

  predicate Ready(m: Shared, t: Thread, a: Action) {
    match a
    case Begin(_, op) => t.op.Idle? && Initial(op)
    case EndIteration(_) => t.op.Idle? && t.iters != []
    case Run(i) =>
      if t.op.WriteLock? || t.op.FreezeLock? || t.op.IterLock? then MayLockObject(m, i)
      else if t.op.GetLock? then m.writer.None?
      else if t.op.WriteDataLock? then m.writer.None? && m.readers == {}
      else !t.op.Idle?
  }

  function LockObject(m: Shared, i: nat): Shared {
    m.(owner := Some(i), depth := m.depth + 1)
  }

  function UnlockObject(m: Shared): Shared {
    if m.depth <= 1 then m.(owner := None, depth := 0) else m.(depth := m.depth - 1)
  }

  function Lookup(data: Data, key: string): Result {
    if key in data then Found(data[key].val) else NotFound
  }

  /** What a write does to the data, or nothing if the entry is a constant. */
  function Store(data: Data, key: string, w: Write, constValues: bool): Data {
    match w
    case Put(val, isConst) =>
      if key !in data then data[key := Entry(val, isConst || constValues)]
      else if data[key].isConst then data
      else data[key := Entry(val, false)]
    case Erase =>
      if key in data && !data[key].isConst then data - {key} else data
  }

  function StoreResult(data: Data, key: string): Result {
    if key in data && data[key].isConst then ConstantError else Written
  }

  /** The number of times the thread holds the object lock. */
  function Holds(t: Thread): nat {
    LockedIters(t.iters) + if OpHolds(t.op) then 1 else 0
  }

  function LockedIters(iters: seq<bool>): nat {
    if iters == [] then 0 else LockedIters(iters[..|iters| - 1]) + if iters[|iters| - 1] then 1 else 0
  }

  predicate OpHolds(op: Op) {
    op.WriteCheck? || op.WriteDataLock? || op.Writing? || op.WriteDataUnlock? || op.ObjectUnlock? || op.FreezeStore?
  }

  function RunStep(constValues: bool, m: Shared, t: Thread, i: nat): (Shared, Thread)
    requires Ready(m, t, Run(i))
  {
    match t.op
    case GetCheck(key) => (m, t.(op := if m.frozen then Reading(key, false) else GetLock(key)))
    case GetLock(key) => (m.(readers := m.readers + {i}), t.(op := Reading(key, true)))
    case Reading(key, locked) =>
      (m, t.(op := if locked then GetUnlock else Idle, last := Lookup(m.data, key)))
    case GetUnlock => (m.(readers := m.readers - {i}), t.(op := Idle))
    case WriteLock(key, w) => (LockObject(m, i), t.(op := WriteCheck(key, w)))
    case WriteCheck(key, w) =>
      if m.frozen then (m, t.(op := ObjectUnlock, last := ReadOnly))
      else (m, t.(op := WriteDataLock(key, w)))
    case WriteDataLock(key, w) => (m.(writer := Some(i)), t.(op := Writing(key, w)))
    case Writing(key, w) =>
      (m.(data := Store(m.data, key, w, constValues)), t.(op := WriteDataUnlock, last := StoreResult(m.data, key)))
    case WriteDataUnlock => (m.(writer := None), t.(op := ObjectUnlock))
    case ObjectUnlock => (UnlockObject(m), t.(op := Idle))
    case FreezeLock => (LockObject(m, i), t.(op := FreezeStore))
    case FreezeStore => (m.(frozen := true), t.(op := ObjectUnlock))
    case IterCheck => if m.frozen then (m, t.(op := Idle, iters := t.iters + [false])) else (m, t.(op := IterLock))
    case IterLock => (LockObject(m, i), t.(op := Idle, iters := t.iters + [true]))
  }

  function Step(constValues: bool, m: Shared, t: Thread, a: Action): (Shared, Thread)
    requires Ready(m, t, a)
  {
    match a
    case Begin(_, op) => (m, t.(op := op))
    case Run(i) => RunStep(constValues, m, t, i)
    case EndIteration(_) =>
      var n := |t.iters| - 1;
      (if t.iters[n] then UnlockObject(m) else m, t.(iters := t.iters[..n]))
  }

  // ---- the invariant ----

  /** What holds between the shared memory and one thread. */
  predicate ThreadInv(m: Shared, t: Thread, i: nat) {
    && (if m.owner == Some(i) then m.depth == Holds(t) else Holds(t) == 0)
    && (i in m.readers <==> t.op.GetUnlock? || (t.op.Reading? && t.op.locked))
    && (m.writer == Some(i) <==> t.op.Writing? || t.op.WriteDataUnlock?)
    && (t.op.WriteDataLock? || t.op.Writing? || t.op.WriteDataUnlock? ==> !m.frozen)
    && (t.op.Reading? && !t.op.locked ==> m.frozen)
    && (false in t.iters ==> m.frozen)
  }

  predicate MemInv(m: Shared) {
    && (m.owner.None? <==> m.depth == 0)
    && (m.writer.Some? ==> m.readers == {})
  }

  ghost predicate Inv(s: State) {
    && MemInv(s.mem)
    && (s.mem.owner.Some? ==> s.mem.owner.value < |s.threads|)
    && (s.mem.writer.Some? ==> s.mem.writer.value < |s.threads|)
    && (forall i :: i in s.mem.readers ==> i < |s.threads|)
    && (forall i :: 0 <= i < |s.threads| ==> ThreadInv(s.mem, s.threads[i], i))
  }

  predicate Enabled(s: State, a: Action) {
    a.i < |s.threads| && Ready(s.mem, s.threads[a.i], a)
  }

  function Apply(s: State, a: Action): State
    requires Enabled(s, a)
  {
    var (m, t) := Step(s.constValues, s.mem, s.threads[a.i], a);
    s.(mem := m, threads := s.threads[a.i := t])
  }

  lemma LockedItersSnoc(iters: seq<bool>, b: bool)
    ensures LockedIters(iters + [b]) == LockedIters(iters) + if b then 1 else 0
  {
    assert (iters + [b])[..|iters|] == iters;
  }

  lemma OwnEndIteration(m: Shared, t: Thread, i: nat)
    requires MemInv(m) && ThreadInv(m, t, i) && Ready(m, t, EndIteration(i))
    ensures var n := |t.iters| - 1;
      var m' := if t.iters[n] then UnlockObject(m) else m;
      MemInv(m') && ThreadInv(m', t.(iters := t.iters[..n]), i)
  {
    var n := |t.iters| - 1;
    assert false in t.iters[..n] ==> false in t.iters;
  }

  lemma OwnIterate(m: Shared, t: Thread, i: nat)
    requires MemInv(m) && ThreadInv(m, t, i) && Ready(m, t, Run(i)) && (t.op.IterCheck? || t.op.IterLock?)
    ensures var (m', t') := RunStep(false, m, t, i); MemInv(m') && ThreadInv(m', t', i)
  {
    LockedItersSnoc(t.iters, t.op.IterLock?);
    hide LockedIters;
  }

  lemma OwnRun(constValues: bool, m: Shared, t: Thread, i: nat)
    requires MemInv(m) && ThreadInv(m, t, i) && Ready(m, t, Run(i))
    ensures var (m', t') := RunStep(constValues, m, t, i); MemInv(m') && ThreadInv(m', t', i)
  {
    if t.op.IterCheck? || t.op.IterLock? {
      OwnIterate(m, t, i);
    } else {
      hide LockedIters, Store, StoreResult, Lookup;
    }
  }

  /** A step keeps the invariant of the thread that takes it. */
  lemma OwnStep(constValues: bool, m: Shared, t: Thread, a: Action)
    requires MemInv(m) && ThreadInv(m, t, a.i) && Ready(m, t, a)
    ensures var (m', t') := Step(constValues, m, t, a); MemInv(m') && ThreadInv(m', t', a.i)
  {
    if a.EndIteration? {
      OwnEndIteration(m, t, a.i);
    } else if a.Run? {
      OwnRun(constValues, m, t, a.i);
    } else {
      hide LockedIters;
    }
  }

  /** What a step may do to the memory: it changes the locks only in its own name, freezes
      only with the object lock held, and writes only with both locks held. */
  lemma StepEffect(constValues: bool, m: Shared, t: Thread, a: Action)
    requires MemInv(m) && ThreadInv(m, t, a.i) && Ready(m, t, a)
    ensures var (m', t') := Step(constValues, m, t, a);
      && (m'.owner == m.owner || (m.owner.None? && m'.owner == Some(a.i)) || (m.owner == Some(a.i) && m'.owner.None?))
      && (m'.depth != m.depth ==> MayLockObject(m, a.i))
      && m'.readers - {a.i} == m.readers - {a.i}
      && (m'.writer == m.writer || (m.writer.None? && m'.writer == Some(a.i))
           || (m.writer == Some(a.i) && m'.writer.None?))
      && (m.frozen ==> m'.frozen)
      && (m'.frozen != m.frozen ==>
            m.owner == Some(a.i) && !t.op.WriteDataLock? && !t.op.Writing? && !t.op.WriteDataUnlock?)
      && (m'.data != m.data ==> t.op.Writing? && !m.frozen && a == Run(a.i))
  {
  }

  lemma InvStep(s: State, a: Action)
    requires Inv(s) && Enabled(s, a)
    ensures Inv(Apply(s, a))
  {
    hide Step, ThreadInv, Ready, MayLockObject;
    var t := s.threads[a.i];
    assert ThreadInv(s.mem, t, a.i);
    OwnStep(s.constValues, s.mem, t, a);
    StepEffect(s.constValues, s.mem, t, a);
    var s' := Apply(s, a);
    forall i | i in s'.mem.readers ensures i == a.i || i in s.mem.readers {
      assert i != a.i ==> i in s'.mem.readers - {a.i};
    }
    forall j | 0 <= j < |s'.threads| ensures ThreadInv(s'.mem, s'.threads[j], j) {
      if j != a.i {
        assert ThreadInv(s.mem, s.threads[j], j);
        OtherThread(s.constValues, s.mem, t, a, s.threads[j], j);
      }
    }
  }

  /** A step keeps the invariant of every other thread. */
  lemma OtherThread(constValues: bool, m: Shared, t: Thread, a: Action, u: Thread, j: nat)
    requires MemInv(m) && ThreadInv(m, t, a.i) && Ready(m, t, a) && ThreadInv(m, u, j) && j != a.i
    ensures ThreadInv(Step(constValues, m, t, a).0, u, j)
  {
    hide Step;
    StepEffect(constValues, m, t, a);
    var (m', t') := Step(constValues, m, t, a);
    assert j in m'.readers <==> j in m'.readers - {a.i};
    assert j in m.readers <==> j in m.readers - {a.i};
  }

  lemma InitInv(constValues: bool, n: nat)
    ensures Inv(Init(constValues, n))
  {
  }

  // ---- runs ----

  /** The actions of `run`, in order, lead from `s` to `u`. */
  predicate Leads(s: State, run: seq<Action>, u: State)
    decreases |run|
  {
    if run == [] then s == u
    else Enabled(s, run[0]) && Leads(Apply(s, run[0]), run[1..], u)
  }

  ghost predicate Reachable(s: State) {
    exists run, constValues: bool, n: nat :: Leads(Init(constValues, n), run, s)
  }

  lemma {:induction false} InvLeads(s: State, run: seq<Action>, u: State)
    requires Inv(s) && Leads(s, run, u)
    ensures Inv(u)
    decreases |run|
  {
    hide Inv, Enabled, Apply;
    if run != [] {
      InvStep(s, run[0]);
      InvLeads(Apply(s, run[0]), run[1..], u);
    }
  }

  lemma ReachableInv(s: State)
    requires Reachable(s)
    ensures Inv(s)
  {
    hide Inv, Leads;
    var run, constValues: bool, n: nat :| Leads(Init(constValues, n), run, s);
    InitInv(constValues, n);
    InvLeads(Init(constValues, n), run, s);
  }

  // ---- no data race ----

  /** The thread has a reference into the data it may follow at any time. */
  predicate Accessing(t: Thread) {
    t.op.Reading? || t.op.Writing? || t.iters != []
  }

  /** While a thread writes the data no other thread reads, iterates over or writes them. */
  lemma RaceFree(s: State, i: nat, j: nat)
    requires Reachable(s) && i < |s.threads| && j < |s.threads| && i != j
    requires s.threads[i].op.Writing?
    ensures !Accessing(s.threads[j])
  {
    ReachableInv(s);
    InvRaceFree(s, i, j);
  }

  /** A thread inside an iteration has seen the namespace frozen or holds the object lock. */
  lemma IteratingHolds(t: Thread)
    ensures t.iters != [] ==> false in t.iters || Holds(t) > 0
  {
    if t.iters != [] && !t.iters[|t.iters| - 1] {
      assert t.iters[|t.iters| - 1] in t.iters;
    }
  }

  lemma InvRaceFree(s: State, i: nat, j: nat)
    requires Inv(s) && i < |s.threads| && j < |s.threads| && i != j
    requires s.threads[i].op.Writing?
    ensures !Accessing(s.threads[j])
  {
    assert ThreadInv(s.mem, s.threads[i], i);
    assert ThreadInv(s.mem, s.threads[j], j);
    IteratingHolds(s.threads[j]);
  }

  /** A step changes the data only by a write of an unfrozen namespace that no other thread
      looks at. */
  lemma DataStep(s: State, a: Action)
    requires Inv(s) && Enabled(s, a)
    ensures var s' := Apply(s, a);
      && (s.mem.frozen ==> s'.mem.frozen)
      && (s'.mem.data != s.mem.data ==>
           && !s.mem.frozen && a.Run? && s.threads[a.i].op.Writing?
           && (forall j :: 0 <= j < |s.threads| && j != a.i ==> !Accessing(s.threads[j]))
           && s'.mem.data == Store(s.mem.data, s.threads[a.i].op.key, s.threads[a.i].op.w, s.constValues))
  {
    var t := s.threads[a.i];
    assert ThreadInv(s.mem, t, a.i);
    StepEffect(s.constValues, s.mem, t, a);
    if Apply(s, a).mem.data != s.mem.data {
      hide Inv, Accessing, Store;
      forall j | 0 <= j < |s.threads| && j != a.i ensures !Accessing(s.threads[j]) {
        InvRaceFree(s, a.i, j);
      }
    }
  }

  /** Throughout the run the thread is in an iteration or a read, and writes nothing itself. */
  predicate Watching(s: State, run: seq<Action>, i: nat)
    decreases |run|
  {
    i < |s.threads| && Accessing(s.threads[i]) && !s.threads[i].op.Writing?
    && (run != [] && Enabled(s, run[0]) ==> Watching(Apply(s, run[0]), run[1..], i))
  }

  /** What a thread reads or iterates over stays as it is until it has finished. */
  lemma {:induction false} Snapshot(s: State, run: seq<Action>, u: State, i: nat)
    requires Inv(s) && Leads(s, run, u) && Watching(s, run, i)
    ensures u.mem.data == s.mem.data
    decreases |run|
  {
    hide Inv, Enabled, Apply, Store;
    if run != [] {
      DataStep(s, run[0]);
      InvStep(s, run[0]);
      Snapshot(Apply(s, run[0]), run[1..], u, i);
    }
  }

  // ---- what never changes again ----

  /** A frozen namespace stays frozen and keeps its contents. */
  lemma {:induction false} FrozenForever(s: State, run: seq<Action>, u: State)
    requires Inv(s) && Leads(s, run, u) && s.mem.frozen
    ensures u.mem.frozen && u.mem.data == s.mem.data
    decreases |run|
  {
    hide Inv, Enabled, Apply, Store;
    if run != [] {
      DataStep(s, run[0]);
      InvStep(s, run[0]);
      FrozenForever(Apply(s, run[0]), run[1..], u);
    }
  }

  /** A constant keeps its value. */
  lemma {:induction false} ConstantForever(s: State, run: seq<Action>, u: State, key: string)
    requires Inv(s) && Leads(s, run, u) && key in s.mem.data && s.mem.data[key].isConst
    ensures key in u.mem.data && u.mem.data[key] == s.mem.data[key]
    decreases |run|
  {
    hide Inv, Enabled, Apply;
    if run != [] {
      DataStep(s, run[0]);
      InvStep(s, run[0]);
      ConstantForever(Apply(s, run[0]), run[1..], u, key);
    }
  }

  predicate ConstInv(s: State) {
    s.constValues ==> forall key :: key in s.mem.data ==> s.mem.data[key].isConst
  }

  lemma {:induction false} ConstLeads(s: State, run: seq<Action>, u: State)
    requires Inv(s) && Leads(s, run, u) && ConstInv(s)
    ensures u.constValues == s.constValues && ConstInv(u)
    decreases |run|
  {
    if run != [] {
      InvStep(s, run[0]);
      DataStep(s, run[0]);
      var s' := Apply(s, run[0]);
      assert s'.constValues == s.constValues && ConstInv(s') by { hide Inv, Step, Accessing; }
      hide Inv, Enabled, Apply, ConstInv, Store;
      ConstLeads(s', run[1..], u);
    }
  }

  /** In a namespace of constants nothing that was ever inserted changes or disappears. */
  lemma ConstNamespaceOnlyGrows(s: State, run: seq<Action>, u: State)
    requires Reachable(s) && s.constValues && Leads(s, run, u)
    ensures forall key :: key in s.mem.data ==> key in u.mem.data && u.mem.data[key] == s.mem.data[key]
  {
    hide Inv, Leads;
    ReachableInv(s);
    var run0, c: bool, n: nat :| Leads(Init(c, n), run0, s);
    InitInv(c, n);
    InvLeads(Init(c, n), run0, s);
    ConstLeads(Init(c, n), run0, s);
    forall key | key in s.mem.data ensures key in u.mem.data && u.mem.data[key] == s.mem.data[key] {
      ConstantForever(s, run, u, key);
    }
  }

  // ---- what reads and writes answer ----

  /** What a write does at the step at which it is in the data. A constant is not touched. Any
      other key gets the value, and is a constant from then on exactly if it was not there and
      either flag asks for it, or it is removed. No other key is affected. */
  lemma WriteStep(s: State, a: Action)
    requires Inv(s) && Enabled(s, a) && a.Run? && s.threads[a.i].op.Writing?
    ensures var before, after := s.mem.data, Apply(s, a).mem.data;
      var key, w := s.threads[a.i].op.key, s.threads[a.i].op.w;
      var t := Apply(s, a).threads[a.i];
      && (if key in before && before[key].isConst then t.last == ConstantError && after == before
          else
            && t.last == Written
            && (if w.Erase? then key !in after
                else
                  && key in after && after[key].val == w.val
                  && (after[key].isConst <==> key !in before && (w.isConst || s.constValues))))
      && forall k :: k != key ==> (k in after <==> k in before) && (k in before ==> after[k] == before[k])
  {
    hide Inv;
  }

  /** What a read answers at the step at which it is in the data. */
  lemma ReadStep(s: State, a: Action)
    requires Enabled(s, a) && a.Run? && s.threads[a.i].op.Reading?
    ensures var data, key := s.mem.data, s.threads[a.i].op.key;
      && Apply(s, a).threads[a.i].last == (if key in data then Found(data[key].val) else NotFound)
      && Apply(s, a).mem.data == data
  {
  }

  /** The action completes a write to the key. */
  predicate Completes(s: State, a: Action, key: string)
    requires Enabled(s, a)
  {
    a.Run? && var op := s.threads[a.i].op; op.Writing? && op.key == key && Apply(s, a).threads[a.i].last == Written
  }

  /** The last write to the key that a run completes. */
  function LastWrite(s: State, run: seq<Action>, key: string): Option<Write>
    decreases |run|
  {
    if run == [] || !Enabled(s, run[0]) then None
    else
      var later := LastWrite(Apply(s, run[0]), run[1..], key);
      if later.Some? then later
      else if Completes(s, run[0], key) then Some(s.threads[run[0].i].op.w)
      else None
  }

  lemma CompletesStep(s: State, a: Action, key: string)
    requires Inv(s) && Enabled(s, a)
    ensures var before, after := s.mem.data, Apply(s, a).mem.data;
      if Completes(s, a, key) then
        var w := s.threads[a.i].op.w;
        if w.Erase? then key !in after else key in after && after[key].val == w.val
      else (key in after <==> key in before) && (key in before ==> after[key] == before[key])
  {
    hide Inv, Store;
    if a.Run? && s.threads[a.i].op.Writing? {
      WriteStep(s, a);
    } else {
      DataStep(s, a);
    }
  }

  /** Over any run a key holds what was last written to it, or what it held before. */
  lemma {:induction false} LastWriteHolds(s: State, run: seq<Action>, u: State, key: string)
    requires Inv(s) && Leads(s, run, u)
    ensures match LastWrite(s, run, key)
      case None =>
        (key in u.mem.data <==> key in s.mem.data) && (key in s.mem.data ==> u.mem.data[key] == s.mem.data[key])
      case Some(Put(v, _)) => key in u.mem.data && u.mem.data[key].val == v
      case Some(Erase) => key !in u.mem.data
    decreases |run|
  {
    hide Inv, Enabled, Apply, Completes;
    if run != [] {
      CompletesStep(s, run[0], key);
      InvStep(s, run[0]);
      LastWriteHolds(Apply(s, run[0]), run[1..], u, key);
    }
  }

  /** However the threads are scheduled, a Get answers the value of the last write to its key
      that has been completed, and that there is none exactly if nothing was written or it was
      removed last. */
  lemma GetAnswers(constValues: bool, n: nat, run: seq<Action>, u: State, i: nat)
    requires Leads(Init(constValues, n), run, u) && Enabled(u, Run(i)) && u.threads[i].op.Reading?
    ensures Apply(u, Run(i)).threads[i].last == match LastWrite(Init(constValues, n), run, u.threads[i].op.key)
      case None => NotFound
      case Some(Put(v, _)) => Found(v)
      case Some(Erase) => NotFound
  {
    hide Inv, Leads, LastWrite, Apply;
    InitInv(constValues, n);
    LastWriteHolds(Init(constValues, n), run, u, u.threads[i].op.key);
    ReadStep(u, Run(i));
  }

  /** The thread is in a write that is going to be refused, or has been. */
  predicate Refused(t: Thread) {
    t.op.WriteLock? || t.op.WriteCheck? || ((t.op.ObjectUnlock? || t.op.Idle?) && t.last == ReadOnly)
  }

  lemma RefusedStep(s: State, a: Action, i: nat)
    requires Enabled(s, a) && s.mem.frozen && i < |s.threads| && Refused(s.threads[i])
    requires !(a.Begin? && a.i == i)
    ensures Apply(s, a).mem.frozen && |Apply(s, a).threads| == |s.threads| && Refused(Apply(s, a).threads[i])
  {
  }

  /** A write that begins once the namespace is frozen answers that it is read-only. */
  lemma {:induction false} FrozenRefuses(s: State, run: seq<Action>, u: State, i: nat)
    requires Leads(s, run, u) && s.mem.frozen && i < |s.threads| && Refused(s.threads[i])
    requires forall k :: 0 <= k < |run| ==> !(run[k].Begin? && run[k].i == i)
    ensures i < |u.threads| && (u.threads[i].op.Idle? ==> u.threads[i].last == ReadOnly)
    decreases |run|
  {
    hide Enabled, Apply;
    if run != [] {
      RefusedStep(s, run[0], i);
      hide Refused;
      FrozenRefuses(Apply(s, run[0]), run[1..], u, i);
    }
  }

  // ---- every operation takes effect at one of its own steps ----

  /** A write of the thread that is not in the data yet. */
  predicate Before(t: Thread, key: string, w: Write) {
    t.op == WriteLock(key, w) || t.op == WriteCheck(key, w) || t.op == WriteDataLock(key, w) || t.op == Writing(key, w)
  }

  /** A write of the thread that has been decided. */
  predicate Decided(t: Thread, r: Result) {
    (t.op.WriteDataUnlock? || t.op.ObjectUnlock? || t.op.Idle?) && t.last == r
  }

  /** In the run the thread completes that write. */
  predicate Wrote(s: State, run: seq<Action>, i: nat, key: string, w: Write)
    decreases |run|
  {
    run != [] && Enabled(s, run[0]) &&
    ((run[0] == Run(i) && s.threads[i].op == Writing(key, w) && Completes(s, run[0], key))
     || Wrote(Apply(s, run[0]), run[1..], i, key, w))
  }

  predicate NoNewWork(run: seq<Action>, i: nat) {
    forall k :: 0 <= k < |run| ==> !(run[k].Begin? && run[k].i == i)
  }

  lemma {:induction false} DecidedStays(s: State, run: seq<Action>, u: State, i: nat, r: Result)
    requires Leads(s, run, u) && NoNewWork(run, i) && i < |s.threads| && Decided(s.threads[i], r)
    ensures i < |u.threads| && Decided(u.threads[i], r)
    decreases |run|
  {
    if run != [] {
      DecidedStays(Apply(s, run[0]), run[1..], u, i, r);
    }
  }

  /** How a write is decided: it gets on, or it is refused because the namespace is frozen or
      the key a constant, or it is done. */
  lemma WriteDecided(s: State, a: Action, i: nat, key: string, w: Write)
    requires Inv(s) && Enabled(s, a) && i < |s.threads| && Before(s.threads[i], key, w)
    ensures var s' := Apply(s, a); i < |s'.threads| && var t' := s'.threads[i];
      || Before(t', key, w)
      || (Decided(t', ReadOnly) && s'.mem.frozen)
      || (Decided(t', ConstantError) && key in s'.mem.data && s'.mem.data[key].isConst)
      || (Decided(t', Written) && a == Run(i) && s.threads[i].op == Writing(key, w) && Completes(s, a, key))
  {
    hide Inv;
  }

  /** A write that has ended is read-only if the namespace is frozen by then, is refused for a
      key that is a constant by then, and has otherwise been completed within the run. */
  lemma {:induction false} WriteEnds(s: State, run: seq<Action>, u: State, i: nat, key: string, w: Write)
    requires Inv(s) && Leads(s, run, u) && NoNewWork(run, i)
    requires i < |s.threads| && Before(s.threads[i], key, w)
    ensures i < |u.threads| && (u.threads[i].op.Idle? ==>
      var r := u.threads[i].last;
      || (r == ReadOnly && u.mem.frozen)
      || (r == ConstantError && key in u.mem.data && u.mem.data[key].isConst)
      || (r == Written && Wrote(s, run, i, key, w)))
    decreases |run|
  {
    hide Inv, Enabled, Apply, Completes;
    if run != [] {
      var s' := Apply(s, run[0]);
      WriteDecided(s, run[0], i, key, w);
      InvStep(s, run[0]);
      if Before(s'.threads[i], key, w) {
        WriteEnds(s', run[1..], u, i, key, w);
      } else {
        DecidedStays(s', run[1..], u, i, s'.threads[i].last);
        if s'.mem.frozen {
          FrozenForever(s', run[1..], u);
        }
        if key in s'.mem.data && s'.mem.data[key].isConst {
          ConstantForever(s', run[1..], u, key);
        }
      }
    }
  }

  /** In the run the thread looks up the key and finds that. */
  predicate LookedUp(s: State, run: seq<Action>, i: nat, key: string, r: Result)
    decreases |run|
  {
    run != [] && Enabled(s, run[0]) &&
    ((run[0] == Run(i) && s.threads[i].op.Reading? && s.threads[i].op.key == key
      && r == if key in s.mem.data then Found(s.mem.data[key].val) else NotFound)
     || LookedUp(Apply(s, run[0]), run[1..], i, key, r))
  }

  predicate ToRead(t: Thread, key: string) {
    (t.op.GetCheck? || t.op.GetLock? || t.op.Reading?) && t.op.key == key
  }

  lemma {:induction false} AnswerStays(s: State, run: seq<Action>, u: State, i: nat)
    requires Leads(s, run, u) && NoNewWork(run, i)
    requires i < |s.threads| && (s.threads[i].op.GetUnlock? || s.threads[i].op.Idle?)
    ensures i < |u.threads| && u.threads[i].last == s.threads[i].last
    decreases |run|
  {
    if run != [] {
      AnswerStays(Apply(s, run[0]), run[1..], u, i);
    }
  }

  /** A Get that has ended answers what was in the data at a step between its beginning and
      its end. */
  lemma {:induction false} GetEnds(s: State, run: seq<Action>, u: State, i: nat, key: string)
    requires Leads(s, run, u) && NoNewWork(run, i) && i < |s.threads| && ToRead(s.threads[i], key)
    ensures i < |u.threads| && (u.threads[i].op.Idle? ==> LookedUp(s, run, i, key, u.threads[i].last))
    decreases |run|
  {
    if run != [] {
      var s' := Apply(s, run[0]);
      if ToRead(s'.threads[i], key) {
        GetEnds(s', run[1..], u, i, key);
      } else {
        AnswerStays(s', run[1..], u, i);
      }
    }
  }

  /** A Freeze that has ended has frozen the namespace. */
  lemma {:induction false} FreezeEnds(s: State, run: seq<Action>, u: State, i: nat)
    requires Inv(s) && Leads(s, run, u) && NoNewWork(run, i)
    requires i < |s.threads| && (s.threads[i].op.FreezeLock? || s.threads[i].op.FreezeStore?)
    ensures i < |u.threads| && (u.threads[i].op.Idle? ==> u.mem.frozen)
    decreases |run|
  {
    if run != [] {
      var s' := Apply(s, run[0]);
      InvStep(s, run[0]);
      LeadsKeepsThreads(s', run[1..], u);
      hide Inv;
      if s'.mem.frozen {
        FrozenForever(s', run[1..], u);
      } else {
        FreezeEnds(s', run[1..], u, i);
      }
    }
  }

  lemma {:induction false} LeadsKeepsThreads(s: State, run: seq<Action>, u: State)
    requires Leads(s, run, u)
    ensures |u.threads| == |s.threads|
    decreases |run|
  {
    if run != [] {
      LeadsKeepsThreads(Apply(s, run[0]), run[1..], u);
    }
  }

  /** In the run some thread carries out a Freeze. */
  predicate Froze(s: State, run: seq<Action>)
    decreases |run|
  {
    run != [] && Enabled(s, run[0]) &&
    ((run[0].Run? && s.threads[run[0].i].op.FreezeStore?) || Froze(Apply(s, run[0]), run[1..]))
  }

  lemma {:induction false} FrozenByFreeze(s: State, run: seq<Action>, u: State)
    requires Leads(s, run, u)
    ensures u.mem.frozen ==> s.mem.frozen || Froze(s, run)
    decreases |run|
  {
    if run != [] {
      FrozenByFreeze(Apply(s, run[0]), run[1..], u);
    }
  }

  /** A namespace is frozen exactly if somebody has frozen it. */
  lemma FrozenExactly(constValues: bool, n: nat, run: seq<Action>, u: State)
    requires Leads(Init(constValues, n), run, u)
    ensures u.mem.frozen <==> Froze(Init(constValues, n), run)
  {
    InitInv(constValues, n);
    FrozenByFreeze(Init(constValues, n), run, u);
    if Froze(Init(constValues, n), run) {
      FreezeFreezes(Init(constValues, n), run, u);
    }
  }

  lemma {:induction false} FreezeFreezes(s: State, run: seq<Action>, u: State)
    requires Inv(s) && Leads(s, run, u) && Froze(s, run)
    ensures u.mem.frozen
    decreases |run|
  {
    var s' := Apply(s, run[0]);
    InvStep(s, run[0]);
    if s'.mem.frozen {
      FrozenForever(s', run[1..], u);
    } else {
      FreezeFreezes(s', run[1..], u);
    }
  }

  predicate NoneEnded(run: seq<Action>, i: nat) {
    forall k :: 0 <= k < |run| ==> run[k] != EndIteration(i)
  }

  lemma {:induction false} IterationsStay(s: State, run: seq<Action>, u: State, i: nat)
    requires Leads(s, run, u) && NoNewWork(run, i) && NoneEnded(run, i) && i < |s.threads| && s.threads[i].op.Idle?
    ensures i < |u.threads| && u.threads[i].iters == s.threads[i].iters
    decreases |run|
  {
    if run != [] {
      IterationsStay(Apply(s, run[0]), run[1..], u, i);
    }
  }

  /** Once an iteration has begun, the thread is inside of one more, with the object lock
      unless the namespace is frozen. */
  lemma {:induction false} IterationBegins(s: State, run: seq<Action>, u: State, i: nat)
    requires Inv(s) && Leads(s, run, u) && NoNewWork(run, i) && NoneEnded(run, i)
    requires i < |s.threads| && (s.threads[i].op.IterCheck? || s.threads[i].op.IterLock?)
    ensures i < |u.threads| && (u.threads[i].op.Idle? ==>
      || u.threads[i].iters == s.threads[i].iters + [true]
      || (u.threads[i].iters == s.threads[i].iters + [false] && u.mem.frozen))
    decreases |run|
  {
    if run != [] {
      var s' := Apply(s, run[0]);
      InvStep(s, run[0]);
      hide Inv;
      if s'.threads[i].op.Idle? {
        IterationsStay(s', run[1..], u, i);
        if s'.mem.frozen {
          FrozenForever(s', run[1..], u);
        }
      } else {
        IterationBegins(s', run[1..], u, i);
      }
    }
  }

  /** What has come of an operation once the thread is idle again: a Get has answered what was
      in the data at a step of its own, a write has been completed at one or refused for a
      reason that stays, a Freeze has frozen the namespace, and an iteration has begun. */
  predicate Outcome(s: State, run: seq<Action>, u: State, i: nat, op: Op)
    requires i < |s.threads| && i < |u.threads|
  {
    var t := u.threads[i];
    match op
    case GetCheck(key) => LookedUp(s, run, i, key, t.last)
    case WriteLock(key, w) =>
      || (t.last == ReadOnly && u.mem.frozen)
      || (t.last == ConstantError && key in u.mem.data && u.mem.data[key].isConst)
      || (t.last == Written && Wrote(s, run, i, key, w))
    case FreezeLock => u.mem.frozen
    case _ =>
      || t.iters == s.threads[i].iters + [true]
      || (t.iters == s.threads[i].iters + [false] && u.mem.frozen)
  }

  lemma OperationEnds(s: State, run: seq<Action>, u: State, i: nat, op: Op)
    requires Inv(s) && run != [] && run[0] == Begin(i, op) && Leads(s, run, u)
    requires NoNewWork(run[1..], i) && NoneEnded(run[1..], i)
    ensures i < |s.threads| && i < |u.threads| && (u.threads[i].op.Idle? ==> Outcome(s, run, u, i, op))
  {
    var s' := Apply(s, run[0]);
    InvStep(s, run[0]);
    LeadsKeepsThreads(s', run[1..], u);
    assert s'.threads[i].op == op && s'.threads[i].iters == s.threads[i].iters;
    hide Inv, Leads, NoNewWork, NoneEnded;
    if op.GetCheck? {
      GetEnds(s', run[1..], u, i, op.key);
    } else if op.WriteLock? {
      WriteEnds(s', run[1..], u, i, op.key, op.w);
    } else if op.FreezeLock? {
      FreezeEnds(s', run[1..], u, i);
    } else {
      IterationBegins(s', run[1..], u, i);
    }
  }

  // ---- every operation ends ----

  /** An action that finishes work already begun. */
  predicate Productive(s: State, a: Action) {
    !a.Begin? && Enabled(s, a)
  }

  predicate AllIdle(s: State) {
    forall i :: 0 <= i < |s.threads| ==> s.threads[i].op.Idle?
  }

  lemma DataLockHolderMoves(s: State, i: nat) returns (a: Action)
    requires Inv(s) && i < |s.threads| && !s.threads[i].op.Idle?
    requires s.threads[i].op.GetLock? || s.threads[i].op.WriteDataLock?
    ensures Productive(s, a)
  {
    hide Holds;
    if s.mem.writer.Some? {
      a := Run(s.mem.writer.value);
      assert ThreadInv(s.mem, s.threads[a.i], a.i);
    } else if s.threads[i].op.GetLock? || s.mem.readers == {} {
      a := Run(i);
    } else {
      var r :| r in s.mem.readers;
      a := Run(r);
      assert ThreadInv(s.mem, s.threads[r], r);
    }
  }

  /** The locks cannot deadlock: as long as an operation is in progress, some thread can go
      on or leave an iteration. */
  lemma DeadlockFree(s: State) returns (a: Action)
    requires Inv(s) && !AllIdle(s)
    ensures Productive(s, a)
  {
    var i :| 0 <= i < |s.threads| && !s.threads[i].op.Idle?;
    if (s.threads[i].op.WriteLock? || s.threads[i].op.FreezeLock? || s.threads[i].op.IterLock?)
       && !MayLockObject(s.mem, i) {
      i := s.mem.owner.value;
      assert ThreadInv(s.mem, s.threads[i], i);
    }
    var t := s.threads[i];
    if t.op.Idle? {
      a := EndIteration(i);
    } else if t.op.GetLock? || t.op.WriteDataLock? {
      a := DataLockHolderMoves(s, i);
    } else {
      a := Run(i);
    }
  }

  /** An upper bound on the steps the thread still takes unless it starts something new. */
  function Work(t: Thread): nat {
    |t.iters| + match t.op {
      case Idle => 0
      case GetCheck(_) => 4
      case GetLock(_) => 3
      case Reading(_, _) => 2
      case GetUnlock => 1
      case WriteLock(_, _) => 6
      case WriteCheck(_, _) => 5
      case WriteDataLock(_, _) => 4
      case Writing(_, _) => 3
      case WriteDataUnlock => 2
      case ObjectUnlock => 1
      case FreezeLock => 3
      case FreezeStore => 2
      case IterCheck => 3
      case IterLock => 2
    }
  }

  function TotalWork(threads: seq<Thread>): nat {
    if threads == [] then 0 else Work(threads[0]) + TotalWork(threads[1..])
  }

  lemma {:induction false} TotalWorkUpdate(threads: seq<Thread>, i: nat, t: Thread)
    requires i < |threads|
    ensures TotalWork(threads[i := t]) == TotalWork(threads) - Work(threads[i]) + Work(t)
    decreases |threads|
  {
    hide Work;
    if i > 0 {
      TotalWorkUpdate(threads[1..], i - 1, t);
      assert threads[i := t][1..] == threads[1..][i - 1 := t];
    } else {
      assert threads[i := t][1..] == threads[1..];
    }
  }

  lemma ProductiveStep(s: State, a: Action)
    requires Inv(s) && Productive(s, a)
    ensures TotalWork(Apply(s, a).threads) < TotalWork(s.threads)
  {
    var t := s.threads[a.i];
    assert ThreadInv(s.mem, t, a.i);
    var (m, t') := Step(s.constValues, s.mem, t, a);
    assert Work(t') < Work(t);
    TotalWorkUpdate(s.threads, a.i, t');
    hide Work, Step, Inv;
  }

  ghost predicate LeadsProductively(s: State, run: seq<Action>, u: State) {
    Leads(s, run, u) && forall k :: 0 <= k < |run| ==> !run[k].Begin?
  }

  /** However the threads are scheduled, what has begun is over after boundedly many steps. */
  lemma {:induction false} BoundedRun(s: State, run: seq<Action>, u: State)
    requires Inv(s) && LeadsProductively(s, run, u)
    ensures |run| + TotalWork(u.threads) <= TotalWork(s.threads)
    decreases |run|
  {
    hide Inv, Enabled, Apply, TotalWork;
    if run != [] {
      ProductiveStep(s, run[0]);
      InvStep(s, run[0]);
      BoundedRun(Apply(s, run[0]), run[1..], u);
    }
  }

  /** A run of finishing steps that cannot be prolonged has ended every operation. */
  lemma EveryOperationEnds(s: State, run: seq<Action>, u: State)
    requires Inv(s) && LeadsProductively(s, run, u)
    requires forall a :: !Productive(u, a)
    ensures |run| <= TotalWork(s.threads) && AllIdle(u)
  {
    hide Inv, Enabled, Apply, TotalWork, Leads;
    BoundedRun(s, run, u);
    InvLeads(s, run, u);
    if !AllIdle(u) {
      var a := DeadlockFree(u);
    }
  }
}
