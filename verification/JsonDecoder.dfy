/**
 The decoder itself: arrays and dictionaries are objects on the heap, a new container is put
 into its parent before it is filled, and the stack refers to the containers that are open.
 */
module JsonDecoder {
  import opened Values
  import opened JsonGrammar
  import opened JsonSax
  import opened Wrappers

  /** What an array or a dictionary holds: a scalar or a reference to a container. */
  datatype Slot = ScalarSlot(v: Scalar) | ContainerSlot(c: Container)

  /** An array or a dictionary; `model` is its value once it is complete. */
  class Container {
    const isDictionary: bool
    var entries: map<string, Slot>
    var items: seq<Slot>
    ghost var model: Value

    constructor (isDictionary: bool)
      ensures this.isDictionary == isDictionary && entries == map[] && items == []
    {
      this.isDictionary, entries, items := isDictionary, map[], [];
    }
  }

  /** An open container and, in a dictionary, the name of the member being read. */
  datatype Node = Node(target: Container, key: string)

  ghost function ModelOf(s: Slot): Value
    reads if s.ContainerSlot? then {s.c} else {}
  {
    match s
    case ScalarSlot(v) => v
    case ContainerSlot(c) => c.model
  }

  class Decoder {
    var root: Slot
    var stack: seq<Node>
    const depthLimit: nat
    ghost var nodes: set<Container>
    ghost var machine: Machine

    ghost predicate IsOpen(c: Container)
      reads this
    {
      exists i :: 0 <= i < |stack| && stack[i].target == c
    }

    /** The slot holds a scalar or a container that is complete. */
    ghost predicate Finished(s: Slot)
      reads this
    {
      s.ContainerSlot? ==> s.c in nodes && !IsOpen(s.c)
    }

    ghost predicate Holds(s: Slot, v: Value)
      reads this, nodes
    {
      Finished(s) && ModelOf(s) == v
    }

    /** A complete container holds the parts of its model. */
    ghost predicate Closed(c: Container)
      requires c in nodes
      reads this, nodes
    {
      if c.isDictionary then
        && c.model.Dictionary? && c.model.entries.Keys == c.entries.Keys
        && forall k :: k in c.entries ==> Holds(c.entries[k], c.model.entries[k])
      else
        && c.model.Array? && |c.model.items| == |c.items|
        && forall j :: 0 <= j < |c.items| ==> Holds(c.items[j], c.model.items[j])
    }

    /** The `i`-th open container holds what its frame says; the next open container, if there
        is one, is its current child. */
    ghost predicate FrameHolds(i: nat)
      requires i < |stack| && machine.Machine? && |machine.frames| == |stack| && stack[i].target in nodes
      reads this, nodes
    {
      var c, open := stack[i].target, i + 1 < |stack|;
      match machine.frames[i]
      case ObjectFrame(m, k) =>
        && c.isDictionary && stack[i].key == k
        && (open ==> k in c.entries && c.entries[k] == ContainerSlot(stack[i + 1].target))
        && forall n :: (open && n == k) ||
             ((n in c.entries <==> n in m) && (n in m ==> Holds(c.entries[n], m[n])))
      case ArrayFrame(items) =>
        && !c.isDictionary && |c.items| == |items| + (if open then 1 else 0)
        && (open ==> c.items[|items|] == ContainerSlot(stack[i + 1].target))
        && forall j :: 0 <= j < |items| ==> Holds(c.items[j], items[j])
    }

    ghost predicate Valid()
      reads this, nodes
    {
      && machine.Machine? && |machine.frames| == |stack| <= depthLimit
      && (forall i :: 0 <= i < |stack| ==> stack[i].target in nodes)
      && (forall i, j :: 0 <= i < j < |stack| ==> stack[i].target != stack[j].target)
      && (forall i :: 0 <= i < |stack| ==> FrameHolds(i))
      && (forall c :: c in nodes ==> IsOpen(c) || Closed(c))
      && (if stack == [] then Holds(root, machine.root) else root == ContainerSlot(stack[0].target))
    }

    constructor (depthLimit: nat)
      ensures Valid() && machine == Start() && nodes == {} && this.depthLimit == depthLimit && stack == []
    {
      this.depthLimit := depthLimit;
      root, stack := ScalarSlot(Empty), [];
      nodes, machine := {}, Start();
    }

    twostate predicate Stored(node: Node, new s: Slot)
      reads node.target
    {
      var c := node.target;
      && c.model == old(c.model)
      && (if c.isDictionary then c.entries == old(c.entries)[node.key := s] && c.items == old(c.items)
          else c.items == old(c.items) + [s] && c.entries == old(c.entries))
    }

    /** Stores a slot where the machine stands: as the root, under the current name, or at the
        end of the current array. */
    method FillCurrentTarget(s: Slot)
      requires stack != [] ==> stack[|stack| - 1].target in nodes
      modifies this`root, if stack == [] then {} else {stack[|stack| - 1].target}
      ensures stack == [] ==> root == s
      ensures stack != [] ==> root == old(root) && Stored(stack[|stack| - 1], s)
    {
      if stack == [] {
        root := s;
      } else {
        var node := stack[|stack| - 1];
        if node.target.isDictionary {
          node.target.entries := node.target.entries[node.key := s];
        } else {
          node.target.items := node.target.items + [s];
        }
      }
    }

    /** Complete containers stay complete and are not touched. */
    twostate predicate KeepsFinished()
      reads this, nodes
    {
      && old(nodes) <= nodes
      && forall c :: c in old(nodes) && !old(IsOpen(c)) ==> !IsOpen(c) && unchanged(c)
    }

    twostate lemma FrameKept(i: nat)
      requires old(Valid()) && KeepsFinished() && machine.Machine? && |machine.frames| == |stack|
      requires i < |old(stack)| && i < |stack| && stack[i] == old(stack)[i]
      requires machine.frames[i] == old(machine).frames[i]
      requires i + 1 < |stack| <==> i + 1 < |old(stack)|
      requires (i + 1 < |stack| ==> stack[i + 1].target == old(stack)[i + 1].target)
      requires unchanged(stack[i].target)
      ensures FrameHolds(i)
    {
      assert old(FrameHolds(i));
    }

    twostate lemma ClosedKept()
      requires old(Valid()) && KeepsFinished()
      ensures forall c :: c in old(nodes) && !old(IsOpen(c)) ==> Closed(c)
    {
      forall c | c in old(nodes) && !old(IsOpen(c)) ensures Closed(c) {
        assert old(Closed(c));
      }
    }

    /** What is left to check after a step that changes the top frame only. */
    twostate lemma StillValid(n: nat)
      requires old(Valid()) && KeepsFinished() && machine.Machine? && |machine.frames| == |stack| <= depthLimit
      requires n < |stack| && n < |old(stack)| && |stack| <= |old(stack)|
      requires forall i :: 0 <= i < n ==> stack[i] == old(stack)[i] && machine.frames[i] == old(machine).frames[i]
      requires stack[n].target == old(stack)[n].target && n + 1 == |stack|
      requires forall i :: 0 <= i < n ==> unchanged(stack[i].target)
      requires FrameHolds(n) && nodes == old(nodes) && root == old(root)
      requires forall c :: c in nodes && !IsOpen(c) && old(IsOpen(c)) ==> Closed(c)
      ensures Valid()
    {
      forall i | 0 <= i < n ensures FrameHolds(i) {
        FrameKept(i);
      }
      ClosedKept();
    }

    /** Null, a boolean, a number or a string. */
    method OnScalar(v: Scalar)
      requires Valid()
      modifies this`root, this`machine, if stack == [] then {} else {stack[|stack| - 1].target}
      ensures Valid() && machine == Step(old(machine), ScalarEvent(v), depthLimit)
    {
      FillCurrentTarget(ScalarSlot(v));
      machine := Step(machine, ScalarEvent(v), depthLimit);
      ScalarFilled(v);
    }

    twostate lemma ScalarFilled(v: Scalar)
      requires old(Valid()) && KeepsFinished() && stack == old(stack) && nodes == old(nodes)
      requires machine == Fill(old(machine).root, old(machine).frames, v)
      requires if stack == [] then root == ScalarSlot(v)
               else root == old(root) && Stored(stack[|stack| - 1], ScalarSlot(v))
      requires forall i :: 0 <= i < |stack| - 1 ==> unchanged(stack[i].target)
      ensures Valid()
    {
      if stack == [] {
        ClosedKept();
      } else {
        assert old(FrameHolds(|stack| - 1));
        StillValid(|stack| - 1);
      }
    }

    /** The name of the next member. */
    method OnKey(name: string)
      requires Valid() && Allowed(machine.frames, KeyEvent(name))
      modifies this`stack, this`machine
      ensures Valid() && machine == Step(old(machine), KeyEvent(name), depthLimit)
    {
      var n := |stack| - 1;
      assert FrameHolds(n);
      stack := stack[..n] + [stack[n].(key := name)];
      machine := Step(machine, KeyEvent(name), depthLimit);
      assert forall i :: 0 <= i < |stack| ==> stack[i].target == old(stack)[i].target;
      assert forall c :: IsOpen(c) <==> old(IsOpen(c));
      StillValid(n);
    }

    /** A new container goes into its parent first; then the depth is checked; then it is
        opened. */
    method OnStart(isDictionary: bool) returns (ok: bool)
      requires Valid()
      modifies this, if stack == [] then {} else {stack[|stack| - 1].target}
      ensures ok <==> |old(machine).frames| < depthLimit
      ensures fresh(nodes - old(nodes)) && old(nodes) <= nodes
      ensures machine == Step(old(machine), if isDictionary then StartObject else StartArray, depthLimit)
      ensures if ok then Valid() else machine == TooDeep
    {
      var n := |stack|;
      var c := new Container(isDictionary);
      FillCurrentTarget(ContainerSlot(c));
      machine := Step(machine, if isDictionary then StartObject else StartArray, depthLimit);
      if n >= depthLimit {
        return false;
      }
      stack := stack + [Node(c, "")];
      nodes := nodes + {c};
      ok := true;
      Opened(c);
    }

    twostate lemma Opened(new c: Container)
      requires old(Valid()) && machine.Machine? && |stack| == |old(stack)| + 1 <= depthLimit
      requires stack[..|stack| - 1] == old(stack) && stack[|stack| - 1].target == c && stack[|stack| - 1].key == ""
      requires !old(allocated(c)) && nodes == old(nodes) + {c} && c.entries == map[] && c.items == []
      requires machine.frames ==
        old(machine).frames + [if c.isDictionary then ObjectFrame(map[], "") else ArrayFrame([])]
      requires if old(stack) == [] then root == ContainerSlot(c)
               else root == old(root) && Stored(stack[|stack| - 2], ContainerSlot(c))
      requires forall d ::
        d in old(nodes) && (old(stack) == [] || d != old(stack)[|old(stack)| - 1].target) ==> unchanged(d)
      ensures Valid()
    {
      hide Closed;
      var n := |old(stack)|;
      assert forall i :: 0 <= i < n ==> stack[i] == old(stack)[i];
      assert IsOpen(c) by { assert stack[n].target == c; }
      forall d | d in old(nodes) ensures IsOpen(d) <==> old(IsOpen(d)) {
      }
      ClosedKept();
      if n > 0 {
        TopOpened(c);
      }
      forall i | 0 <= i < |stack| ensures FrameHolds(i) {
        if i < n - 1 { FrameKept(i); }
      }
    }

    /** The frame that was on top when the new container `c` has been stored in its container
        and opened. */
    twostate lemma TopOpened(new c: Container)
      requires old(Valid()) && KeepsFinished() && old(stack) != []
      requires machine.Machine? && |machine.frames| == |stack| == |old(stack)| + 1
      requires stack[..|stack| - 1] == old(stack) && stack[|stack| - 1].target == c
      requires machine.frames[|stack| - 2] == old(machine).frames[|stack| - 2]
      requires Stored(stack[|stack| - 2], ContainerSlot(c))
      ensures FrameHolds(|old(stack)| - 1)
    {
      assert old(FrameHolds(|stack| - 1));
    }

    /** The innermost container is complete. */
    method OnEnd()
      requires Valid() && machine.frames != []
      modifies this`stack, this`machine, stack[|stack| - 1].target`model
      ensures Valid()
      ensures var frames := old(machine).frames;
        machine == Step(old(machine), if frames[|frames| - 1].ObjectFrame? then EndObject else EndArray, depthLimit)
    {
      var n := |stack| - 1;
      ghost var frames := machine.frames;
      ghost var c := stack[n].target;
      assert FrameHolds(n);
      c.model := Completed(frames[n]);
      stack := stack[..n];
      machine := Step(machine, if frames[n].ObjectFrame? then EndObject else EndArray, depthLimit);
      Ended();
    }

    twostate lemma Ended()
      requires old(Valid()) && old(stack) != [] && stack == old(stack)[..|old(stack)| - 1]
      requires nodes == old(nodes) && root == old(root)
      requires var c := old(stack)[|stack|].target;
        && c.model == Completed(old(machine).frames[|stack|]) && c.entries == old(c.entries) && c.items == old(c.items)
        && machine == Fill(old(machine).root, old(machine).frames[..|stack|], c.model)
        && forall d :: d in old(nodes) && d != c ==> unchanged(d)
      ensures Valid()
    {
      var n := |stack|;
      var c := old(stack)[n].target;
      assert forall i :: 0 <= i < n ==> stack[i] == old(stack)[i];
      forall d | d in nodes ensures IsOpen(d) <==> old(IsOpen(d)) && d != c {
        if old(IsOpen(d)) && d != c {
          var i :| 0 <= i < n + 1 && old(stack)[i].target == d;
          assert stack[i].target == d;
        }
      }
      assert old(FrameHolds(n));
      assert Closed(c);
      if n == 0 {
        ClosedKept();
      } else {
        ChildCompleted();
        StillValid(n - 1);
      }
    }

    /** The frame below the top when the container on top has been completed and left. */
    twostate lemma ChildCompleted()
      requires old(Valid()) && KeepsFinished() && nodes == old(nodes) && |old(stack)| > 1
      requires var n := |old(stack)| - 1; var c := old(stack)[n].target;
        && stack == old(stack)[..n] && !IsOpen(c)
        && machine == Fill(old(machine).root, old(machine).frames[..n], c.model)
        && unchanged(stack[n - 1].target)
      ensures FrameHolds(|stack| - 1)
    {
      var n := |stack|;
      assert old(FrameHolds(n - 1));
      var frame := old(machine).frames[n - 1];
      assert old(machine).frames[..n][n - 1] == frame && stack[n - 1] == old(stack)[n - 1];
      assert machine.frames[n - 1] == Add(frame, old(stack)[n].target.model);
    }
  }

  /** The slot is the root of a tree of containers that spells out the value `v`. */
  ghost predicate Denotes(s: Slot, v: Value, nodes: set<Container>)
    reads nodes
    decreases v
  {
    match s
    case ScalarSlot(w) => w == v
    case ContainerSlot(c) =>
      c in nodes &&
      if c.isDictionary then
        && v.Dictionary? && v.entries.Keys == c.entries.Keys
        && forall k :: k in c.entries ==> Denotes(c.entries[k], v.entries[k], nodes)
      else
        && v.Array? && |v.items| == |c.items|
        && forall j :: 0 <= j < |c.items| ==> Denotes(c.items[j], v.items[j], nodes)
  }

  /** With nothing open, what a slot holds is spelled out below it. */
  lemma {:induction false} FinishedDenotes(decoder: Decoder, s: Slot, v: Value)
    requires decoder.Valid() && decoder.stack == [] && decoder.Holds(s, v)
    ensures Denotes(s, v, decoder.nodes)
    decreases v
  {
    if s.ContainerSlot? {
      var c := s.c;
      assert decoder.Closed(c);
      if c.isDictionary {
        forall k | k in c.entries ensures Denotes(c.entries[k], v.entries[k], decoder.nodes) {
          FinishedDenotes(decoder, c.entries[k], v.entries[k]);
        }
      } else {
        forall j | 0 <= j < |c.items| ensures Denotes(c.items[j], v.items[j], decoder.nodes) {
          FinishedDenotes(decoder, c.items[j], v.items[j]);
        }
      }
    }
  }

  lemma RunsTail(m: Machine, es: seq<Event>, limit: nat, end: Machine)
    requires Runs(m, es, limit, end) && es != [] && m.Machine?
    ensures Allowed(m.frames, es[0]) && Runs(Step(m, es[0], limit), es[1..], limit, end)
  {
    hide Step;
  }

  /** Feeds the events of the document `d` to a new machine. It succeeds exactly if `d` does
      not nest deeper than the limit, and then the tree on the heap is the value of `d`. */
  method JsonDecode(ghost d: Document, es: seq<Event>, depthLimit: nat)
      returns (root: Option<Slot>, ghost nodes: set<Container>)
    requires es == Events(d)
    ensures root.Some? <==> Depth(d) <= depthLimit
    ensures root.Some? ==> Denotes(root.value, Meaning(d), nodes)
    ensures fresh(nodes)
  {
    hide Events, Meaning, Depth, Step, Denotes;
    DecodeDocument(d, depthLimit);
    ghost var end := if Depth(d) <= depthLimit then Machine(Meaning(d), []) else TooDeep;
    var decoder := new Decoder(depthLimit);
    var i := 0;
    assert es[0..] == es;
    while i < |es|
      invariant 0 <= i <= |es|
      invariant decoder.Valid() && fresh(decoder.nodes)
      invariant Runs(decoder.machine, es[i..], depthLimit, end)
    {
      assert es[i..][0] == es[i] && es[i..][1..] == es[i + 1..];
      ghost var before := decoder.machine;
      RunsTail(before, es[i..], depthLimit, end);
      var ok := true;
      match es[i] {
        case ScalarEvent(v) => decoder.OnScalar(v);
        case KeyEvent(name) => decoder.OnKey(name);
        case EndObject => decoder.OnEnd();
        case EndArray => decoder.OnEnd();
        case StartObject => ok := decoder.OnStart(true);
        case StartArray => ok := decoder.OnStart(false);
      }
      assert decoder.machine == Step(before, es[i], depthLimit);
      if !ok {
        RunsTooDeep(es[i + 1..], depthLimit);
        return None, {};
      }
      i := i + 1;
    }
    assert es[i..] == [];
    FinishedDenotes(decoder, decoder.root, Meaning(d));
    root, nodes := Some(decoder.root), decoder.nodes;
  }
}
