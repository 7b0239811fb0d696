/**
 Turning an object graph, which may share and may be cyclic, into a tree of values.
 The path from the root is kept on a stack; meeting an object that is already on the
 stack is a circular reference.
 */
module Serializer {
  import opened Keys
  import opened Values
  import opened Wrappers
  import Decimals

  /** A value inside the graph: a scalar, or a reference to an object. */
  datatype Item = Leaf(v: Scalar) | Ref(id: nat)

  /** One field of a type, with the bits of its attributes. */
  datatype Field = Field(name: string, attributes: bv32)

  datatype Object =
    | ArrayObject(items: seq<Item>)
    | DictionaryObject(entries: map<string, Item>)
    | NamespaceObject(entries: map<string, Item>)
    | Instance(typeName: string, fields: seq<Field>, values: seq<Item>)
    | Untyped                       // an object without a reflection type

  type Heap = map<nat, Object>

  predicate ItemIn(heap: Heap, g: Item) {
    g.Ref? ==> g.id in heap
  }

  predicate ObjectIn(heap: Heap, o: Object) {
    match o
    case ArrayObject(items) => forall i :: 0 <= i < |items| ==> ItemIn(heap, items[i])
    case DictionaryObject(m) => forall k :: k in m ==> ItemIn(heap, m[k])
    case NamespaceObject(m) => forall k :: k in m ==> ItemIn(heap, m[k])
    case Instance(_, fields, values) =>
      && |fields| == |values|
      && (forall i :: 0 <= i < |values| ==> ItemIn(heap, values[i]))
      && (forall i, j :: 0 <= i < j < |fields| ==> fields[i].name != fields[j].name)
    case Untyped => true
  }

  /** Every reference leads to an object of the graph, and a type has no two fields of the
      same name. */
  predicate WellFormed(heap: Heap) {
    forall id :: id in heap ==> ObjectIn(heap, heap[id])
  }

  // ---- the edges that are followed ----

  /** The attributes have a bit in common with the mask. */
  predicate Meets(attributes: bv32, mask: bv32) {
    attributes & mask != 0
  }

  /** The field takes part: no particular attributes are asked for, or it has one of them;
      the field that names the type never does. */
  predicate Selected(f: Field, mask: bv32) {
    (mask == 0 || Meets(f.attributes, mask)) && f.name != "type"
  }

  function FieldChildren(fields: seq<Field>, values: seq<Item>, mask: bv32): seq<(string, Item)>
    requires |fields| == |values|
  {
    if fields == [] then []
    else
      var rest := FieldChildren(fields[1..], values[1..], mask);
      if Selected(fields[0], mask) then [(fields[0].name, values[0])] + rest else rest
  }

  function EntryChildren(m: map<string, Item>, ks: seq<string>): (cs: seq<(string, Item)>)
    requires forall k :: k in ks ==> k in m
  {
    seq(|ks|, i requires 0 <= i < |ks| => assert ks[i] in ks; (ks[i], m[ks[i]]))
  }

  function ItemChildren(items: seq<Item>): (cs: seq<(string, Item)>) {
    seq(|items|, i requires 0 <= i < |items| => (Decimals.Decimal(i), items[i]))
  }

  /** The named items below an object, in the order in which they are visited. */
  function Children(o: Object, mask: bv32): seq<(string, Item)>
    requires o.Instance? ==> |o.fields| == |o.values|
  {
    match o
    case ArrayObject(items) => ItemChildren(items)
    case DictionaryObject(m) => EntryChildren(m, SortedKeys(m.Keys))
    case NamespaceObject(m) => EntryChildren(m, SortedKeys(m.Keys))
    case Instance(_, fields, values) => FieldChildren(fields, values, mask)
    case Untyped => []
  }

  lemma {:induction false} FieldChildrenFrom(fields: seq<Field>, values: seq<Item>, mask: bv32, k: nat)
      returns (i: nat)
    requires |fields| == |values| && k < |FieldChildren(fields, values, mask)|
    ensures i < |fields| && Selected(fields[i], mask)
    ensures FieldChildren(fields, values, mask)[k] == (fields[i].name, values[i])
  {
    if Selected(fields[0], mask) {
      if k == 0 {
        i := 0;
      } else {
        var j := FieldChildrenFrom(fields[1..], values[1..], mask, k - 1);
        i := j + 1;
      }
    } else {
      var j := FieldChildrenFrom(fields[1..], values[1..], mask, k);
      i := j + 1;
    }
  }

  lemma ChildrenIn(heap: Heap, id: nat, mask: bv32)
    requires WellFormed(heap) && id in heap
    ensures forall k :: 0 <= k < |Children(heap[id], mask)| ==> ItemIn(heap, Children(heap[id], mask)[k].1)
  {
    var o := heap[id];
    assert ObjectIn(heap, o);
    forall k | 0 <= k < |Children(o, mask)| ensures ItemIn(heap, Children(o, mask)[k].1) {
      if o.Instance? {
        var i := FieldChildrenFrom(o.fields, o.values, mask, k);
      } else if o.DictionaryObject? || o.NamespaceObject? {
        assert SortedKeys(o.entries.Keys)[k] in SortedKeys(o.entries.Keys);
      }
    }
  }

  /** What the names in an attribute path mean: the position of an element of an array, the key
      of an entry, or the name of a selected field. */
  lemma ChildrenAre(o: Object, mask: bv32, name: string, g: Item)
    requires o.Instance? ==> |o.fields| == |o.values|
    ensures (name, g) in Children(o, mask) <==> match o
      case ArrayObject(items) => exists i :: 0 <= i < |items| && name == Decimals.Decimal(i) && items[i] == g
      case DictionaryObject(m) => name in m && m[name] == g
      case NamespaceObject(m) => name in m && m[name] == g
      case Instance(_, fields, values) =>
        exists i :: 0 <= i < |fields| && Selected(fields[i], mask) && fields[i].name == name && values[i] == g
      case Untyped => false
  {
    hide SortedKeys, Sorted, FieldChildren, Selected, Decimals.Decimal;
    var cs := Children(o, mask);
    if o.ArrayObject? {
      forall i | 0 <= i < |o.items| ensures cs[i] == (Decimals.Decimal(i), o.items[i]) {}
      if i :| 0 <= i < |o.items| && name == Decimals.Decimal(i) && o.items[i] == g {
        assert cs[i] == (name, g);
      }
    } else if o.DictionaryObject? || o.NamespaceObject? {
      var ks := SortedKeys(o.entries.Keys);
      if name in o.entries && o.entries[name] == g {
        var i :| 0 <= i < |ks| && ks[i] == name;
        assert cs[i] == (name, g);
      }
    } else if o.Instance? {
      if (name, g) in cs {
        var k :| 0 <= k < |cs| && cs[k] == (name, g);
        var i := FieldChildrenFrom(o.fields, o.values, mask, k);
      }
      if i :| 0 <= i < |o.fields| && Selected(o.fields[i], mask) && o.fields[i].name == name && o.values[i] == g {
        var k := FieldChildrenAt(o.fields, o.values, mask, i);
      }
    }
  }

  // ---- serializing ----

  /** An entry of the path: the attribute's name, and its object if it has one. */
  datatype Entry = Entry(name: string, obj: Option<nat>)

  datatype Outcome = Done(v: Value) | Circular(path: seq<string>)
  datatype Outcomes = AllDone(vs: seq<(string, Value)>) | CircularBelow(path: seq<string>)

  predicate OnStack(stack: seq<Entry>, g: Item) {
    g.Ref? && exists i :: 0 <= i < |stack| && stack[i].obj == Some(g.id)
  }

  function ObjectOf(g: Item): Option<nat> {
    if g.Ref? then Some(g.id) else None
  }

  function Names(stack: seq<Entry>): seq<string> {
    seq(|stack|, i requires 0 <= i < |stack| => stack[i].name)
  }

  /** The objects that are not on the path. */
  function Unvisited(heap: Heap, stack: seq<Entry>): set<nat> {
    set id | id in heap && !OnStack(stack, Ref(id))
  }

  /** The dictionary built from pairs: the first pair with a key wins. */
  function FromPairs(vs: seq<(string, Value)>): map<string, Value> {
    if vs == [] then map[] else FromPairs(vs[1..])[vs[0].0 := vs[0].1]
  }

  function ValuesOf(vs: seq<(string, Value)>): seq<Value> {
    seq(|vs|, i requires 0 <= i < |vs| => vs[i].1)
  }

  function Assemble(o: Object, vs: seq<(string, Value)>, dryRun: bool): Value {
    if dryRun then Empty
    else match o
      case ArrayObject(_) => Array(ValuesOf(vs))
      case Instance(typeName, _, _) => Dictionary(FromPairs(vs + [("type", String(typeName))]))
      case Untyped => Empty
      case _ => Dictionary(FromPairs(vs))
  }

  function Finish(o: Object, children: Outcomes, dryRun: bool): Outcome {
    match children
    case AllDone(vs) => Done(Assemble(o, vs, dryRun))
    case CircularBelow(path) => Circular(path)
  }

  function SerializeItem(heap: Heap, mask: bv32, dryRun: bool, g: Item, stack: seq<Entry>): Outcome
    requires WellFormed(heap) && ItemIn(heap, g)
    decreases |Unvisited(heap, stack)|, if g.Ref? then 2 else 0, 0
  {
    match g
    case Leaf(v) => Done(if dryRun then Empty else v)
    case Ref(id) =>
      ChildrenIn(heap, id, mask);
      assert ObjectIn(heap, heap[id]);
      Finish(heap[id], SerializeChildren(heap, mask, dryRun, Children(heap[id], mask), stack), dryRun)
  }

  /** Each child is pushed, serialized and popped in turn. */
  function SerializeChildren(heap: Heap, mask: bv32, dryRun: bool, cs: seq<(string, Item)>, stack: seq<Entry>): Outcomes
    requires WellFormed(heap) && forall k :: 0 <= k < |cs| ==> ItemIn(heap, cs[k].1)
    decreases |Unvisited(heap, stack)|, 1, |cs|
  {
    if cs == [] then AllDone([])
    else
      var (name, g) := cs[0];
      if OnStack(stack, g) then CircularBelow(Names(stack) + [name])
      else
        PushLeavesLess(heap, stack, name, g);
        match SerializeItem(heap, mask, dryRun, g, stack + [Entry(name, ObjectOf(g))])
        case Circular(path) => CircularBelow(path)
        case Done(v) =>
          match SerializeChildren(heap, mask, dryRun, cs[1..], stack)
          case CircularBelow(path) => CircularBelow(path)
          case AllDone(vs) => AllDone([(name, v)] + vs)
  }

  lemma PushLeavesLess(heap: Heap, stack: seq<Entry>, name: string, g: Item)
    requires ItemIn(heap, g) && !OnStack(stack, g)
    ensures var stack' := stack + [Entry(name, ObjectOf(g))];
      if g.Ref? then |Unvisited(heap, stack')| < |Unvisited(heap, stack)|
      else Unvisited(heap, stack') == Unvisited(heap, stack)
  {
    var stack' := stack + [Entry(name, ObjectOf(g))];
    forall id: nat ensures OnStack(stack', Ref(id)) <==> OnStack(stack, Ref(id)) || g == Ref(id) {
      if OnStack(stack, Ref(id)) {
        var i :| 0 <= i < |stack| && stack[i].obj == Some(id);
        assert stack'[i].obj == Some(id);
      }
      if g == Ref(id) {
        assert stack'[|stack|].obj == Some(id);
      }
    }
    if g.Ref? {
      assert Unvisited(heap, stack) == Unvisited(heap, stack') + {g.id};
    }
  }

  // ---- cycles ----

  /** `b` is a child of `a` that serializing follows. */
  ghost predicate Edge(heap: Heap, mask: bv32, a: nat, b: nat)
    requires WellFormed(heap)
  {
    a in heap && b in heap && ObjectIn(heap, heap[a]) &&
    exists k :: 0 <= k < |Children(heap[a], mask)| && Children(heap[a], mask)[k].1 == Ref(b)
  }

  ghost predicate IsPath(heap: Heap, mask: bv32, p: seq<nat>)
    requires WellFormed(heap)
  {
    && p != []
    && (forall i :: 0 <= i < |p| ==> p[i] in heap)
    && (forall i :: 0 <= i < |p| - 1 ==> Edge(heap, mask, p[i], p[i + 1]))
  }

  /** The path comes back to an object it has passed. */
  predicate Closes(p: seq<nat>) {
    exists i :: 0 <= i < |p| - 1 && p[i] == p[|p| - 1]
  }

  /** Some path from `root` runs into a cycle. */
  ghost predicate ReachesCycle(heap: Heap, mask: bv32, root: nat)
    requires WellFormed(heap)
  {
    exists p :: IsPath(heap, mask, p) && p[0] == root && Closes(p)
  }

  /** If no child of a list is refused then each one was serialized on its own. */
  lemma {:induction false} ChildDone(
      heap: Heap, mask: bv32, dryRun: bool, cs: seq<(string, Item)>, stack: seq<Entry>, k: nat)
    requires WellFormed(heap) && forall k :: 0 <= k < |cs| ==> ItemIn(heap, cs[k].1)
    requires SerializeChildren(heap, mask, dryRun, cs, stack).AllDone? && k < |cs|
    ensures !OnStack(stack, cs[k].1)
    ensures var r := SerializeChildren(heap, mask, dryRun, cs, stack);
      && |r.vs| == |cs| && r.vs[k].0 == cs[k].0
      && SerializeItem(heap, mask, dryRun, cs[k].1, stack + [Entry(cs[k].0, ObjectOf(cs[k].1))]) == Done(r.vs[k].1)
    decreases |cs|
  {
    hide SerializeItem;
    ChildrenCount(heap, mask, dryRun, cs, stack);
    if k > 0 {
      ChildDone(heap, mask, dryRun, cs[1..], stack, k - 1);
    }
  }

  lemma {:induction false} ChildrenCount(
      heap: Heap, mask: bv32, dryRun: bool, cs: seq<(string, Item)>, stack: seq<Entry>)
    requires WellFormed(heap) && forall k :: 0 <= k < |cs| ==> ItemIn(heap, cs[k].1)
    requires SerializeChildren(heap, mask, dryRun, cs, stack).AllDone?
    ensures |SerializeChildren(heap, mask, dryRun, cs, stack).vs| == |cs|
    decreases |cs|
  {
    hide SerializeItem;
    if cs != [] {
      ChildrenCount(heap, mask, dryRun, cs[1..], stack);
    }
  }

  /** What success says about one path: past its first object it never meets the stack, nor
      any object twice. */
  ghost predicate Fresh(stack: seq<Entry>, p: seq<nat>) {
    && (forall i :: 1 <= i < |p| ==> !OnStack(stack, Ref(p[i])))
    && (forall i, j :: 1 <= i < j < |p| ==> p[i] != p[j])
  }

  lemma {:induction false} DoneMeansFresh(heap: Heap, mask: bv32, dryRun: bool, stack: seq<Entry>, p: seq<nat>)
    requires WellFormed(heap) && IsPath(heap, mask, p)
    requires SerializeItem(heap, mask, dryRun, Ref(p[0]), stack).Done?
    ensures Fresh(stack, p)
    decreases |p|
  {
    if |p| > 1 {
      assert Edge(heap, mask, p[0], p[1]);
      var cs := Children(heap[p[0]], mask);
      var k :| 0 <= k < |cs| && cs[k].1 == Ref(p[1]);
      ChildrenIn(heap, p[0], mask);
      ChildDone(heap, mask, dryRun, cs, stack, k);
      var stack' := stack + [Entry(cs[k].0, Some(p[1]))];
      var tail := p[1..];
      TailIsPath(heap, mask, p);
      DoneMeansFresh(heap, mask, dryRun, stack', tail);
      FreshTail(stack, cs[k].0, p);
    }
  }

  lemma TailIsPath(heap: Heap, mask: bv32, p: seq<nat>)
    requires WellFormed(heap) && IsPath(heap, mask, p) && |p| > 1
    ensures IsPath(heap, mask, p[1..])
  {
    hide Edge;
    var tail := p[1..];
    forall i | 0 <= i < |tail| - 1 ensures Edge(heap, mask, tail[i], tail[i + 1]) {
      assert Edge(heap, mask, p[i + 1], p[i + 1 + 1]);
    }
  }

  lemma FreshTail(stack: seq<Entry>, name: string, p: seq<nat>)
    requires |p| > 1 && !OnStack(stack, Ref(p[1]))
    requires Fresh(stack + [Entry(name, Some(p[1]))], p[1..])
    ensures Fresh(stack, p)
  {
    var stack', tail := stack + [Entry(name, Some(p[1]))], p[1..];
    assert stack'[|stack|].obj == Some(p[1]);
    forall i | 2 <= i < |p| ensures p[i] != p[1] && !OnStack(stack, Ref(p[i])) {
      assert tail[i - 1] == p[i];
      assert !OnStack(stack', Ref(tail[i - 1]));
      assert forall m :: 0 <= m < |stack| ==> stack'[m] == stack[m];
    }
    forall i, j | 1 <= i < j < |p| ensures p[i] != p[j] {
      if i > 1 {
        assert tail[i - 1] != tail[j - 1];
      }
    }
  }

  /** A graph that serializes has no reachable cycle, although the root is never pushed. */
  lemma DoneMeansAcyclic(heap: Heap, mask: bv32, dryRun: bool, root: nat)
    requires WellFormed(heap) && root in heap
    requires SerializeItem(heap, mask, dryRun, Ref(root), []).Done?
    ensures !ReachesCycle(heap, mask, root)
  {
    if ReachesCycle(heap, mask, root) {
      var p :| IsPath(heap, mask, p) && p[0] == root && Closes(p);
      var i :| 0 <= i < |p| - 1 && p[i] == p[|p| - 1];
      var p' := p + [p[1]];
      if i == 0 {
        LassoExtends(heap, mask, p);
        assert p'[1] == p'[|p|];
        DoneMeansFresh(heap, mask, dryRun, [], p');
      } else {
        DoneMeansFresh(heap, mask, dryRun, [], p);
      }
    }
  }

  lemma LassoExtends(heap: Heap, mask: bv32, p: seq<nat>)
    requires WellFormed(heap) && IsPath(heap, mask, p) && |p| > 1 && p[0] == p[|p| - 1]
    ensures IsPath(heap, mask, p + [p[1]])
  {
    hide Edge;
    var p' := p + [p[1]];
    forall i | 0 <= i < |p'| - 1 ensures Edge(heap, mask, p'[i], p'[i + 1]) {
      if i == |p| - 1 {
        assert Edge(heap, mask, p[0], p[0 + 1]);
      } else {
        assert Edge(heap, mask, p[i], p[i + 1]);
      }
    }
  }

  ghost predicate ChildOf(heap: Heap, mask: bv32, a: nat, name: string, g: Item)
    requires WellFormed(heap)
  {
    a in heap && ObjectIn(heap, heap[a]) && (name, g) in Children(heap[a], mask)
  }

  /** Following the attributes `names` from `p[0]` one after the other leads along `p`. */
  ghost predicate Walk(heap: Heap, mask: bv32, p: seq<nat>, names: seq<string>)
    requires WellFormed(heap)
  {
    && |p| == |names| + 1
    && (forall i :: 0 <= i < |p| ==> p[i] in heap)
    && (forall i :: 0 <= i < |names| ==> ChildOf(heap, mask, p[i], names[i], Ref(p[i + 1])))
  }

  /** The attribute path leads from the root to an object it has passed before. */
  ghost predicate Witness(heap: Heap, mask: bv32, root: nat, path: seq<string>)
    requires WellFormed(heap)
  {
    exists p :: Walk(heap, mask, p, path) && p[0] == root && Closes(p)
  }

  /** The root, then the objects on the stack. */
  function Objects(root: nat, stack: seq<Entry>): seq<nat> {
    [root] + seq(|stack|, i requires 0 <= i < |stack| => match stack[i].obj case Some(id) => id case None => root)
  }

  /** Each entry of the stack is a child of the entry before it, the first one of the root. */
  ghost predicate Trail(heap: Heap, mask: bv32, root: nat, stack: seq<Entry>)
    requires WellFormed(heap)
  {
    && (forall i :: 0 <= i < |stack| ==> stack[i].obj.Some?)
    && Walk(heap, mask, Objects(root, stack), Names(stack))
  }

  lemma WalkOn(heap: Heap, mask: bv32, p: seq<nat>, names: seq<string>, name: string, b: nat)
    requires WellFormed(heap) && Walk(heap, mask, p, names) && b in heap
    requires ChildOf(heap, mask, p[|names|], name, Ref(b))
    ensures Walk(heap, mask, p + [b], names + [name])
  {
    hide ChildOf;
  }

  lemma RefusedChildWitness(heap: Heap, mask: bv32, root: nat, stack: seq<Entry>, name: string, g: Item)
    requires WellFormed(heap) && Trail(heap, mask, root, stack) && ItemIn(heap, g)
    requires ChildOf(heap, mask, Objects(root, stack)[|stack|], name, g) && OnStack(stack, g)
    ensures Witness(heap, mask, root, Names(stack) + [name])
  {
    hide ChildOf;
    var p := Objects(root, stack);
    WalkOn(heap, mask, p, Names(stack), name, g.id);
    var i :| 0 <= i < |stack| && stack[i].obj == Some(g.id);
    var p' := p + [g.id];
    assert p'[i + 1] == g.id == p'[|p'| - 1];
    assert Closes(p');
  }

  /** The path an error reports is a genuine cycle. */
  lemma {:induction false} CircularMeansWitness(
      heap: Heap, mask: bv32, dryRun: bool, root: nat, g: Item, stack: seq<Entry>)
    requires WellFormed(heap) && ItemIn(heap, g)
    requires SerializeItem(heap, mask, dryRun, g, stack).Circular?
    requires Trail(heap, mask, root, stack) && (g.Ref? ==> g.id == Objects(root, stack)[|stack|])
    ensures Witness(heap, mask, root, SerializeItem(heap, mask, dryRun, g, stack).path)
    decreases |Unvisited(heap, stack)|, if g.Ref? then 2 else 0, 0
  {
    hide Trail, Witness;
    ChildrenIn(heap, g.id, mask);
    var cs := Children(heap[g.id], mask);
    forall k | 0 <= k < |cs| ensures ChildOf(heap, mask, g.id, cs[k].0, cs[k].1) {
      assert cs[k] in cs;
      assert ObjectIn(heap, heap[g.id]);
    }
    CircularBelowMeansWitness(heap, mask, dryRun, root, cs, stack);
  }

  lemma {:induction false} CircularBelowMeansWitness(heap: Heap, mask: bv32, dryRun: bool, root: nat,
                                                     cs: seq<(string, Item)>, stack: seq<Entry>)
    requires WellFormed(heap) && forall k :: 0 <= k < |cs| ==> ItemIn(heap, cs[k].1)
    requires SerializeChildren(heap, mask, dryRun, cs, stack).CircularBelow?
    requires Trail(heap, mask, root, stack)
    requires forall k :: 0 <= k < |cs| ==> ChildOf(heap, mask, Objects(root, stack)[|stack|], cs[k].0, cs[k].1)
    ensures Witness(heap, mask, root, SerializeChildren(heap, mask, dryRun, cs, stack).path)
    decreases |Unvisited(heap, stack)|, 1, |cs|
  {
    hide Witness, ChildOf, SerializeItem, Walk;
    var (name, g) := cs[0];
    if OnStack(stack, g) {
      RefusedChildWitness(heap, mask, root, stack, name, g);
    } else {
      var stack' := stack + [Entry(name, ObjectOf(g))];
      PushLeavesLess(heap, stack, name, g);
      if SerializeItem(heap, mask, dryRun, g, stack').Circular? {
        LeafDone(heap, mask, dryRun, g, stack');
        WalkOn(heap, mask, Objects(root, stack), Names(stack), name, g.id);
        assert Objects(root, stack') == Objects(root, stack) + [g.id];
        assert Names(stack') == Names(stack) + [name];
        CircularMeansWitness(heap, mask, dryRun, root, g, stack');
      } else {
        CircularBelowMeansWitness(heap, mask, dryRun, root, cs[1..], stack);
      }
    }
  }

  lemma LeafDone(heap: Heap, mask: bv32, dryRun: bool, g: Item, stack: seq<Entry>)
    requires WellFormed(heap) && ItemIn(heap, g)
    ensures g.Leaf? ==> SerializeItem(heap, mask, dryRun, g, stack).Done?
  {
  }

  lemma WitnessReachesCycle(heap: Heap, mask: bv32, root: nat, path: seq<string>)
    requires WellFormed(heap) && Witness(heap, mask, root, path)
    ensures ReachesCycle(heap, mask, root)
  {
    var p :| Walk(heap, mask, p, path) && p[0] == root && Closes(p);
    forall i | 0 <= i < |p| - 1 ensures Edge(heap, mask, p[i], p[i + 1]) {
      assert ChildOf(heap, mask, p[i], path[i], Ref(p[i + 1]));
    }
  }

  /** The reference semantics of both entry points: the stack starts empty. */
  function SerializeRoot(heap: Heap, mask: bv32, dryRun: bool, g: Item): Outcome
    requires WellFormed(heap) && ItemIn(heap, g)
  {
    SerializeItem(heap, mask, dryRun, g, [])
  }

  /** Cycle detection is exact, with or without a dry run: an error is raised if and only if a
      cycle can be reached along the attributes asked for, so sharing alone is never refused;
      and the path in the error leads from the root around a cycle. */
  lemma CycleDetection(heap: Heap, mask: bv32, dryRun: bool, root: nat)
    requires WellFormed(heap) && root in heap
    ensures var r := SerializeRoot(heap, mask, dryRun, Ref(root));
      && (r.Circular? <==> ReachesCycle(heap, mask, root))
      && (r.Circular? ==> Witness(heap, mask, root, r.path))
  {
    hide SerializeItem, ReachesCycle, Witness;
    if SerializeRoot(heap, mask, dryRun, Ref(root)).Circular? {
      assert Trail(heap, mask, root, []);
      CircularMeansWitness(heap, mask, dryRun, root, Ref(root), []);
      WitnessReachesCycle(heap, mask, root, SerializeRoot(heap, mask, dryRun, Ref(root)).path);
    } else {
      DoneMeansAcyclic(heap, mask, dryRun, root);
    }
  }

  // ---- the dry run ----

  /** The dry run raises exactly when the real run does, and reports the same path. */
  lemma {:induction false} DryRunItem(heap: Heap, mask: bv32, g: Item, stack: seq<Entry>)
    requires WellFormed(heap) && ItemIn(heap, g)
    ensures var dry, wet := SerializeItem(heap, mask, true, g, stack), SerializeItem(heap, mask, false, g, stack);
      && (dry.Circular? <==> wet.Circular?)
      && (dry.Circular? ==> dry.path == wet.path)
    decreases |Unvisited(heap, stack)|, if g.Ref? then 2 else 0, 0
  {
    if g.Ref? {
      hide SerializeChildren;
      ChildrenIn(heap, g.id, mask);
      assert ObjectIn(heap, heap[g.id]);
      DryRunChildren(heap, mask, Children(heap[g.id], mask), stack);
    }
  }

  lemma {:induction false} DryRunChildren(heap: Heap, mask: bv32, cs: seq<(string, Item)>, stack: seq<Entry>)
    requires WellFormed(heap) && forall k :: 0 <= k < |cs| ==> ItemIn(heap, cs[k].1)
    ensures var dry := SerializeChildren(heap, mask, true, cs, stack);
      var wet := SerializeChildren(heap, mask, false, cs, stack);
      && (dry.CircularBelow? <==> wet.CircularBelow?)
      && (dry.CircularBelow? ==> dry.path == wet.path)
    decreases |Unvisited(heap, stack)|, 1, |cs|
  {
    hide SerializeItem;
    if cs != [] && !OnStack(stack, cs[0].1) {
      var (name, g) := cs[0];
      PushLeavesLess(heap, stack, name, g);
      DryRunItem(heap, mask, g, stack + [Entry(name, ObjectOf(g))]);
      DryRunChildren(heap, mask, cs[1..], stack);
    }
  }

  // ---- the result is the unfolding of the graph ----

  /** The names under which the selected fields of an instance appear. */
  function SelectedNames(fields: seq<Field>, mask: bv32): set<string> {
    set i | 0 <= i < |fields| && Selected(fields[i], mask) :: fields[i].name
  }

  /** The tree `t` is what one sees when unfolding the graph from `g`. */
  predicate Unfolds(heap: Heap, mask: bv32, g: Item, t: Value)
    requires WellFormed(heap) && ItemIn(heap, g)
    decreases t
  {
    match g
    case Leaf(v) => t == v
    case Ref(id) =>
      assert ObjectIn(heap, heap[id]);
      match heap[id]
      case ArrayObject(items) =>
        && t.Array? && |t.items| == |items|
        && forall i :: 0 <= i < |items| ==> Unfolds(heap, mask, items[i], t.items[i])
      case DictionaryObject(m) =>
        && t.Dictionary? && t.entries.Keys == m.Keys
        && forall k :: k in m ==> Unfolds(heap, mask, m[k], t.entries[k])
      case NamespaceObject(m) =>
        && t.Dictionary? && t.entries.Keys == m.Keys
        && forall k :: k in m ==> Unfolds(heap, mask, m[k], t.entries[k])
      case Instance(typeName, fields, values) =>
        && t.Dictionary? && t.entries.Keys == SelectedNames(fields, mask) + {"type"}
        && t.entries["type"] == String(typeName)
        && forall i :: 0 <= i < |fields| && Selected(fields[i], mask) ==>
             fields[i].name in t.entries && Unfolds(heap, mask, values[i], t.entries[fields[i].name])
      case Untyped => t == Empty
  }

  /** A graph unfolds to at most one tree. */
  lemma {:induction false} UnfoldsUnique(heap: Heap, mask: bv32, g: Item, t: Value, u: Value)
    requires WellFormed(heap) && ItemIn(heap, g)
    requires Unfolds(heap, mask, g, t) && Unfolds(heap, mask, g, u)
    ensures t == u
    decreases t
  {
    if g.Ref? {
      assert ObjectIn(heap, heap[g.id]);
      var o := heap[g.id];
      if o.ArrayObject? {
        forall i | 0 <= i < |o.items| ensures t.items[i] == u.items[i] {
          UnfoldsUnique(heap, mask, o.items[i], t.items[i], u.items[i]);
        }
      } else if o.DictionaryObject? || o.NamespaceObject? {
        forall k | k in o.entries ensures t.entries[k] == u.entries[k] {
          UnfoldsUnique(heap, mask, o.entries[k], t.entries[k], u.entries[k]);
        }
      } else if o.Instance? {
        forall k | k in t.entries ensures t.entries[k] == u.entries[k] {
          if k != "type" {
            var i :| 0 <= i < |o.fields| && Selected(o.fields[i], mask) && o.fields[i].name == k;
            UnfoldsUnique(heap, mask, o.values[i], t.entries[k], u.entries[k]);
          }
        }
      }
    }
  }

  /** Pairs with distinct keys all make it into the dictionary. */
  lemma {:induction false} FromPairsLookup(vs: seq<(string, Value)>, k: nat)
    requires forall i, j :: 0 <= i < j < |vs| ==> vs[i].0 != vs[j].0
    requires k < |vs|
    ensures vs[k].0 in FromPairs(vs) && FromPairs(vs)[vs[k].0] == vs[k].1
  {
    if k > 0 {
      FromPairsLookup(vs[1..], k - 1);
    }
  }

  lemma {:induction false} FromPairsKeys(vs: seq<(string, Value)>)
    ensures FromPairs(vs).Keys == set i | 0 <= i < |vs| :: vs[i].0
  {
    if vs != [] {
      var rest := vs[1..];
      FromPairsKeys(rest);
      forall k ensures k in FromPairs(vs) <==> exists i :: 0 <= i < |vs| && vs[i].0 == k {
        if k in FromPairs(rest) {
          var i :| 0 <= i < |rest| && rest[i].0 == k;
          assert vs[i + 1].0 == k;
        }
        if i :| 0 <= i < |vs| && vs[i].0 == k && i > 0 {
          assert rest[i - 1].0 == k;
        }
      }
    }
  }

  /** `vs` holds the unfoldings of the children `cs` under the same names. */
  predicate ChildrenUnfold(heap: Heap, mask: bv32, cs: seq<(string, Item)>, vs: seq<(string, Value)>)
    requires WellFormed(heap)
  {
    |vs| == |cs| && forall k :: 0 <= k < |cs| ==>
      ItemIn(heap, cs[k].1) && vs[k].0 == cs[k].0 && Unfolds(heap, mask, cs[k].1, vs[k].1)
  }

  lemma {:induction false} FieldChildrenAt(fields: seq<Field>, values: seq<Item>, mask: bv32, i: nat) returns (k: nat)
    requires |fields| == |values| && i < |fields| && Selected(fields[i], mask)
    ensures k < |FieldChildren(fields, values, mask)|
    ensures FieldChildren(fields, values, mask)[k] == (fields[i].name, values[i])
  {
    if i == 0 {
      k := 0;
    } else {
      var j := FieldChildrenAt(fields[1..], values[1..], mask, i - 1);
      k := if Selected(fields[0], mask) then j + 1 else j;
    }
  }

  lemma FieldChildrenDistinct(fields: seq<Field>, values: seq<Item>, mask: bv32, a: nat, b: nat)
    requires |fields| == |values|
    requires forall i, j :: 0 <= i < j < |fields| ==> fields[i].name != fields[j].name
    requires a < b < |FieldChildren(fields, values, mask)|
    ensures FieldChildren(fields, values, mask)[a].0 != FieldChildren(fields, values, mask)[b].0
  {
    if Selected(fields[0], mask) && a == 0 {
      var i := FieldChildrenFrom(fields[1..], values[1..], mask, b - 1);
      assert fields[0].name != fields[i + 1].name;
    } else {
      var d := if Selected(fields[0], mask) then 1 else 0;
      FieldChildrenDistinct(fields[1..], values[1..], mask, a - d, b - d);
    }
  }

  lemma ArrayUnfolds(heap: Heap, mask: bv32, id: nat, vs: seq<(string, Value)>)
    requires WellFormed(heap) && id in heap && heap[id].ArrayObject?
    requires ChildrenUnfold(heap, mask, ItemChildren(heap[id].items), vs)
    ensures Unfolds(heap, mask, Ref(id), Array(ValuesOf(vs)))
  {
    assert ObjectIn(heap, heap[id]);
    var items, cs := heap[id].items, ItemChildren(heap[id].items);
    forall i | 0 <= i < |items| ensures Unfolds(heap, mask, items[i], ValuesOf(vs)[i]) {
      assert cs[i].1 == items[i];
    }
  }

  lemma EntriesUnfold(heap: Heap, mask: bv32, id: nat, vs: seq<(string, Value)>)
    requires WellFormed(heap) && id in heap && (heap[id].DictionaryObject? || heap[id].NamespaceObject?)
    requires ChildrenUnfold(heap, mask, EntryChildren(heap[id].entries, SortedKeys(heap[id].entries.Keys)), vs)
    ensures Unfolds(heap, mask, Ref(id), Dictionary(FromPairs(vs)))
  {
    hide SortedKeys, Le, FromPairs, Unfolds;
    assert ObjectIn(heap, heap[id]);
    var m := heap[id].entries;
    var ks := SortedKeys(m.Keys);
    var cs := EntryChildren(m, ks);
    forall i | 0 <= i < |ks| ensures vs[i].0 == ks[i] && Unfolds(heap, mask, m[ks[i]], vs[i].1) {
      assert cs[i] == (ks[i], m[ks[i]]);
    }
    SortedPairs(ks, vs);
    forall k | k in m ensures Unfolds(heap, mask, m[k], FromPairs(vs)[k]) {
      var i :| 0 <= i < |ks| && ks[i] == k;
      assert FromPairs(vs)[ks[i]] == vs[i].1;
    }
    TableUnfolds(heap, mask, id, FromPairs(vs));
  }

  lemma SortedPairs(ks: seq<string>, vs: seq<(string, Value)>)
    requires Sorted(ks) && |vs| == |ks| && forall i :: 0 <= i < |ks| ==> vs[i].0 == ks[i]
    ensures forall k :: k in FromPairs(vs) <==> k in ks
    ensures forall i :: 0 <= i < |ks| ==> ks[i] in ks && FromPairs(vs)[ks[i]] == vs[i].1
  {
    hide Le, FromPairs;
    FromPairsKeys(vs);
    forall k | k in FromPairs(vs) ensures k in ks {
      var i :| 0 <= i < |vs| && vs[i].0 == k;
      assert ks[i] == k;
    }
    forall i | 0 <= i < |ks| ensures ks[i] in FromPairs(vs) && FromPairs(vs)[ks[i]] == vs[i].1 {
      FromPairsLookup(vs, i);
    }
  }

  lemma TableUnfolds(heap: Heap, mask: bv32, id: nat, m: map<string, Value>)
    requires WellFormed(heap) && id in heap && (heap[id].DictionaryObject? || heap[id].NamespaceObject?)
    requires ObjectIn(heap, heap[id]) && m.Keys == heap[id].entries.Keys
    requires forall k :: k in m ==> Unfolds(heap, mask, heap[id].entries[k], m[k])
    ensures Unfolds(heap, mask, Ref(id), Dictionary(m))
  {
  }

  lemma InstanceUnfolds(heap: Heap, mask: bv32, id: nat, vs: seq<(string, Value)>)
    requires WellFormed(heap) && id in heap && heap[id].Instance?
    requires ObjectIn(heap, heap[id])
    requires ChildrenUnfold(heap, mask, FieldChildren(heap[id].fields, heap[id].values, mask), vs)
    ensures Unfolds(heap, mask, Ref(id), Dictionary(FromPairs(vs + [("type", String(heap[id].typeName))])))
  {
    hide FromPairs, Unfolds, Selected, FieldChildren;
    var fields, values, all := heap[id].fields, heap[id].values, vs + [("type", String(heap[id].typeName))];
    var cs := FieldChildren(fields, values, mask);
    forall i, j | 0 <= i < j < |all| ensures all[i].0 != all[j].0 {
      var a := FieldChildrenFrom(fields, values, mask, i);
      if j < |vs| { FieldChildrenDistinct(fields, values, mask, i, j); }
    }
    forall k | 0 <= k < |cs| ensures cs[k].0 in SelectedNames(fields, mask) {
      var i := FieldChildrenFrom(fields, values, mask, k);
    }
    FromPairsKeys(all);
    FromPairsLookup(all, |vs|);
    forall i | 0 <= i < |fields| && Selected(fields[i], mask)
      ensures fields[i].name in FromPairs(all) && Unfolds(heap, mask, values[i], FromPairs(all)[fields[i].name])
    {
      var k := FieldChildrenAt(fields, values, mask, i);
      FromPairsLookup(all, k);
      assert all[k] == vs[k];
    }
    forall n | n in FromPairs(all) ensures n in SelectedNames(fields, mask) + {"type"} {
      var k :| 0 <= k < |all| && all[k].0 == n;
      if k < |vs| { assert cs[k].0 == n; }
    }
    RecordUnfolds(heap, mask, id, FromPairs(all));
  }

  lemma RecordUnfolds(heap: Heap, mask: bv32, id: nat, m: map<string, Value>)
    requires WellFormed(heap) && id in heap && heap[id].Instance? && ObjectIn(heap, heap[id])
    requires m.Keys <= SelectedNames(heap[id].fields, mask) + {"type"}
    requires "type" in m && m["type"] == String(heap[id].typeName)
    requires forall i :: 0 <= i < |heap[id].fields| && Selected(heap[id].fields[i], mask) ==>
      heap[id].fields[i].name in m && Unfolds(heap, mask, heap[id].values[i], m[heap[id].fields[i].name])
    ensures Unfolds(heap, mask, Ref(id), Dictionary(m))
  {
    hide Selected;
    assert SelectedNames(heap[id].fields, mask) <= m.Keys;
  }

  lemma AssembleUnfolds(heap: Heap, mask: bv32, id: nat, vs: seq<(string, Value)>)
    requires WellFormed(heap) && id in heap && ObjectIn(heap, heap[id])
    requires ChildrenUnfold(heap, mask, Children(heap[id], mask), vs)
    ensures Unfolds(heap, mask, Ref(id), Assemble(heap[id], vs, false))
  {
    hide ChildrenUnfold, FromPairs, ItemChildren, EntryChildren, FieldChildren, SortedKeys;
    var o := heap[id];
    if o.ArrayObject? { ArrayUnfolds(heap, mask, id, vs); }
    else if o.DictionaryObject? || o.NamespaceObject? { EntriesUnfold(heap, mask, id, vs); }
    else if o.Instance? { InstanceUnfolds(heap, mask, id, vs); }
  }

  /** What serializing returns is the unfolding. */
  lemma {:induction false} DoneMeansUnfolds(heap: Heap, mask: bv32, g: Item, stack: seq<Entry>)
    requires WellFormed(heap) && ItemIn(heap, g)
    requires SerializeItem(heap, mask, false, g, stack).Done?
    ensures Unfolds(heap, mask, g, SerializeItem(heap, mask, false, g, stack).v)
    decreases |Unvisited(heap, stack)|, if g.Ref? then 2 else 0, 0
  {
    if g.Ref? {
      hide SerializeChildren, Assemble, Children, Unfolds;
      ChildrenIn(heap, g.id, mask);
      assert ObjectIn(heap, heap[g.id]);
      var cs := Children(heap[g.id], mask);
      ChildrenDoneMeansUnfold(heap, mask, cs, stack);
      AssembleUnfolds(heap, mask, g.id, SerializeChildren(heap, mask, false, cs, stack).vs);
    }
  }

  lemma {:induction false} ChildrenDoneMeansUnfold(heap: Heap, mask: bv32, cs: seq<(string, Item)>, stack: seq<Entry>)
    requires WellFormed(heap) && forall k :: 0 <= k < |cs| ==> ItemIn(heap, cs[k].1)
    requires SerializeChildren(heap, mask, false, cs, stack).AllDone?
    ensures ChildrenUnfold(heap, mask, cs, SerializeChildren(heap, mask, false, cs, stack).vs)
    decreases |Unvisited(heap, stack)|, 1, |cs|
  {
    hide SerializeItem, Unfolds;
    if cs != [] {
      var (name, g) := cs[0];
      PushLeavesLess(heap, stack, name, g);
      DoneMeansUnfolds(heap, mask, g, stack + [Entry(name, ObjectOf(g))]);
      ChildrenDoneMeansUnfold(heap, mask, cs[1..], stack);
    }
  }

  /** A child's unfolding is a proper part of its parent's. */
  lemma ChildSubtree(heap: Heap, mask: bv32, a: nat, b: nat, t: Value) returns (u: Value)
    requires WellFormed(heap) && Edge(heap, mask, a, b) && Unfolds(heap, mask, Ref(a), t)
    ensures Unfolds(heap, mask, Ref(b), u) && u < t
  {
    hide SortedKeys, Le, FieldChildren;
    var o := heap[a];
    var k :| 0 <= k < |Children(o, mask)| && Children(o, mask)[k].1 == Ref(b);
    if o.ArrayObject? {
      u := t.items[k];
    } else if o.DictionaryObject? || o.NamespaceObject? {
      var ks := SortedKeys(o.entries.Keys);
      assert ks[k] in ks;
      u := t.entries[ks[k]];
    } else {
      var i := FieldChildrenFrom(o.fields, o.values, mask, k);
      u := t.entries[o.fields[i].name];
    }
  }

  lemma {:induction false} PathSubtree(heap: Heap, mask: bv32, p: seq<nat>, t: Value) returns (u: Value)
    requires WellFormed(heap) && IsPath(heap, mask, p) && Unfolds(heap, mask, Ref(p[0]), t)
    ensures Unfolds(heap, mask, Ref(p[|p| - 1]), u) && (u < t || (u == t && |p| == 1))
    decreases |p|
  {
    hide Unfolds, Edge;
    if |p| == 1 {
      u := t;
    } else {
      assert Edge(heap, mask, p[0], p[0 + 1]);
      var c := ChildSubtree(heap, mask, p[0], p[1], t);
      TailIsPath(heap, mask, p);
      u := PathSubtree(heap, mask, p[1..], c);
    }
  }

  lemma SubPath(heap: Heap, mask: bv32, p: seq<nat>, i: nat, j: nat)
    requires WellFormed(heap) && IsPath(heap, mask, p) && i < j <= |p|
    ensures IsPath(heap, mask, p[i..j])
  {
    hide Edge;
    var q := p[i..j];
    forall k | 0 <= k < |q| - 1 ensures Edge(heap, mask, q[k], q[k + 1]) {
      assert Edge(heap, mask, p[i + k], p[i + k + 1]);
    }
  }

  /** A graph that unfolds to a finite tree has no reachable cycle. */
  lemma UnfoldsMeansAcyclic(heap: Heap, mask: bv32, root: nat, t: Value)
    requires WellFormed(heap) && root in heap && Unfolds(heap, mask, Ref(root), t)
    ensures !ReachesCycle(heap, mask, root)
  {
    hide Unfolds, Edge;
    if ReachesCycle(heap, mask, root) {
      var p :| IsPath(heap, mask, p) && p[0] == root && Closes(p);
      var i :| 0 <= i < |p| - 1 && p[i] == p[|p| - 1];
      SubPath(heap, mask, p, 0, i + 1);
      SubPath(heap, mask, p, i, |p|);
      hide IsPath;
      var stem, loop := p[0..i + 1], p[i..|p|];
      assert stem[0] == root && stem[|stem| - 1] == p[i] == loop[0] == loop[|loop| - 1];
      var u := PathSubtree(heap, mask, stem, t);
      var w := PathSubtree(heap, mask, loop, u);
      UnfoldsUnique(heap, mask, Ref(p[i]), u, w);
      assert false;
    }
  }

  /** Serializing succeeds exactly on the graphs that unfold to a finite tree, and returns
      that tree. */
  lemma SerializeExact(heap: Heap, mask: bv32, g: Item, t: Value)
    requires WellFormed(heap) && ItemIn(heap, g)
    ensures SerializeRoot(heap, mask, false, g) == Done(t) <==> Unfolds(heap, mask, g, t)
  {
    hide ReachesCycle;
    var r := SerializeRoot(heap, mask, false, g);
    if Unfolds(heap, mask, g, t) && g.Ref? {
      UnfoldsMeansAcyclic(heap, mask, g.id, t);
      CycleDetection(heap, mask, false, g.id);
    }
    if r.Done? {
      DoneMeansUnfolds(heap, mask, g, []);
      if Unfolds(heap, mask, g, t) {
        UnfoldsUnique(heap, mask, g, t, r.v);
      }
    }
  }

  // ---- the serializer itself ----

  class SerializeStack {
    var entries: seq<Entry>

    constructor ()
      ensures entries == []
    {
      entries := [];
    }

    /** Refuses an object that is on the stack already; the error is the path to it. */
    method Push(name: string, g: Item) returns (error: Option<seq<string>>)
      modifies this
      ensures OnStack(old(entries), g) ==> error == Some(Names(old(entries)) + [name])
      ensures !OnStack(old(entries), g) ==> error == None && entries == old(entries) + [Entry(name, ObjectOf(g))]
    {
      if g.Ref? {
        var i := 0;
        while i < |entries|
          invariant 0 <= i <= |entries|
          invariant forall j :: 0 <= j < i ==> entries[j].obj != Some(g.id)
        {
          if entries[i].obj == Some(g.id) {
            var path: seq<string> := [];
            var j := 0;
            while j < |entries|
              invariant 0 <= j <= |entries|
              invariant path == Names(entries[..j])
            {
              path := path + [entries[j].name];
              j := j + 1;
            }
            assert entries[..j] == entries;
            return Some(path + [name]);
          }
          i := i + 1;
        }
      }
      entries := entries + [Entry(name, ObjectOf(g))];
      return None;
    }

    method Pop()
      requires entries != []
      modifies this
      ensures entries == old(entries)[..|old(entries)| - 1]
    {
      entries := entries[..|entries| - 1];
    }
  }

  function Prepend(vs: seq<(string, Value)>, rest: Outcomes): Outcomes {
    match rest
    case AllDone(ws) => AllDone(vs + ws)
    case CircularBelow(path) => CircularBelow(path)
  }

  /** How a loop over the children, `done` of which are through, gets past the next one. */
  lemma ChildrenStep(heap: Heap, mask: bv32, dryRun: bool, cs: seq<(string, Item)>, stack: seq<Entry>,
                     done: seq<(string, Value)>)
    requires WellFormed(heap) && cs != [] && forall k :: 0 <= k < |cs| ==> ItemIn(heap, cs[k].1)
    ensures var r := Prepend(done, SerializeChildren(heap, mask, dryRun, cs, stack));
      var (name, g) := cs[0];
      if OnStack(stack, g) then r == CircularBelow(Names(stack) + [name])
      else match SerializeItem(heap, mask, dryRun, g, stack + [Entry(name, ObjectOf(g))])
        case Circular(path) => r == CircularBelow(path)
        case Done(v) => r == Prepend(done + [(name, v)], SerializeChildren(heap, mask, dryRun, cs[1..], stack))
  {
    hide SerializeItem;
    var (name, g) := cs[0];
    if !OnStack(stack, g) {
      match SerializeItem(heap, mask, dryRun, g, stack + [Entry(name, ObjectOf(g))])
      case Circular(_) =>
      case Done(v) =>
        match SerializeChildren(heap, mask, dryRun, cs[1..], stack)
        case CircularBelow(_) =>
        case AllDone(ws) => assert done + ([(name, v)] + ws) == done + [(name, v)] + ws;
    }
  }

  lemma ChildrenEnd(heap: Heap, mask: bv32, dryRun: bool, stack: seq<Entry>, done: seq<(string, Value)>)
    requires WellFormed(heap)
    ensures Prepend(done, SerializeChildren(heap, mask, dryRun, [], stack)) == AllDone(done)
  {
    assert done + [] == done;
  }

  /** What each kind of object does with each of its children: push, serialize, pop. */
  method SerializeChild(heap: Heap, name: string, g: Item, mask: bv32, stack: SerializeStack, dryRun: bool)
      returns (r: Outcome)
    requires WellFormed(heap) && ItemIn(heap, g)
    modifies stack
    ensures r == if OnStack(old(stack.entries), g) then Circular(Names(old(stack.entries)) + [name])
                 else SerializeItem(heap, mask, dryRun, g, old(stack.entries) + [Entry(name, ObjectOf(g))])
    ensures r.Done? ==> stack.entries == old(stack.entries)
    decreases |Unvisited(heap, stack.entries)|, 1
  {
    hide SerializeItem;
    ghost var s0 := stack.entries;
    var error := stack.Push(name, g);
    if error.Some? {
      return Circular(error.value);
    }
    PushLeavesLess(heap, s0, name, g);
    r := SerializeInternal(heap, g, mask, stack, dryRun);
    if r.Done? {
      stack.Pop();
    }
  }

  method SerializeArray(heap: Heap, id: nat, mask: bv32, stack: SerializeStack, dryRun: bool) returns (r: Outcome)
    requires WellFormed(heap) && id in heap && heap[id].ArrayObject?
    modifies stack
    ensures forall k :: 0 <= k < |Children(heap[id], mask)| ==> ItemIn(heap, Children(heap[id], mask)[k].1)
    ensures r == Finish(heap[id], SerializeChildren(heap, mask, dryRun, Children(heap[id], mask), old(stack.entries)),
                        dryRun)
    ensures r.Done? ==> stack.entries == old(stack.entries)
    decreases |Unvisited(heap, stack.entries)|, 2
  {
    hide SerializeItem, SerializeChildren;
    ChildrenIn(heap, id, mask);
    var items := heap[id].items;
    ghost var cs := ItemChildren(items);
    var s0 := stack.entries;
    var result: seq<Value> := [];
    ghost var done: seq<(string, Value)> := [];
    var index := 0;
    assert cs[0..] == cs;
    ghost var all := SerializeChildren(heap, mask, dryRun, cs, s0);
    assert Prepend([], all) == all;
    while index < |items|
      invariant 0 <= index <= |items|
      invariant stack.entries == s0
      invariant all == Prepend(done, SerializeChildren(heap, mask, dryRun, cs[index..], s0))
      invariant if dryRun then result == [] else result == ValuesOf(done)
    {
      var name, g := Decimals.Decimal(index), items[index];
      ChildrenStep(heap, mask, dryRun, cs[index..], s0, done);
      assert cs[index] == (name, g) && cs[index..][1..] == cs[index + 1..];
      var serialized := SerializeChild(heap, name, g, mask, stack, dryRun);
      if serialized.Circular? {
        return serialized;
      }
      if !dryRun {
        result := result + [serialized.v];
      }
      done := done + [(name, serialized.v)];
      index := index + 1;
    }
    ChildrenEnd(heap, mask, dryRun, s0, done);
    assert cs[index..] == [];
    r := Done(if dryRun then Empty else Array(result));
  }

  /** Serves both kinds of objects that map keys to values. */
  method SerializeEntries(heap: Heap, id: nat, mask: bv32, stack: SerializeStack, dryRun: bool) returns (r: Outcome)
    requires WellFormed(heap) && id in heap && (heap[id].DictionaryObject? || heap[id].NamespaceObject?)
    modifies stack
    ensures forall k :: 0 <= k < |Children(heap[id], mask)| ==> ItemIn(heap, Children(heap[id], mask)[k].1)
    ensures r == Finish(heap[id], SerializeChildren(heap, mask, dryRun, Children(heap[id], mask), old(stack.entries)),
                        dryRun)
    ensures r.Done? ==> stack.entries == old(stack.entries)
    decreases |Unvisited(heap, stack.entries)|, 2
  {
    hide SerializeItem, SerializeChildren, SortedKeys, Le, Sorted;
    ChildrenIn(heap, id, mask);
    var m := heap[id].entries;
    var ks := SortedKeys(m.Keys);
    ghost var cs := EntryChildren(m, ks);
    var s0 := stack.entries;
    var result: seq<(string, Value)> := [];
    ghost var done: seq<(string, Value)> := [];
    var i := 0;
    assert cs[0..] == cs;
    ghost var all := SerializeChildren(heap, mask, dryRun, cs, s0);
    assert Prepend([], all) == all;
    while i < |ks|
      invariant 0 <= i <= |ks|
      invariant stack.entries == s0
      invariant all == Prepend(done, SerializeChildren(heap, mask, dryRun, cs[i..], s0))
      invariant if dryRun then result == [] else result == done
    {
      assert ks[i] in ks;
      var name, g := ks[i], m[ks[i]];
      ChildrenStep(heap, mask, dryRun, cs[i..], s0, done);
      assert cs[i] == (name, g) && cs[i..][1..] == cs[i + 1..];
      var serialized := SerializeChild(heap, name, g, mask, stack, dryRun);
      if serialized.Circular? {
        return serialized;
      }
      if !dryRun {
        result := result + [(name, serialized.v)];
      }
      done := done + [(name, serialized.v)];
      i := i + 1;
    }
    ChildrenEnd(heap, mask, dryRun, s0, done);
    assert cs[i..] == [];
    r := Done(if dryRun then Empty else Dictionary(FromPairs(result)));
  }

  lemma FieldChildrenEnd(fields: seq<Field>, values: seq<Item>, mask: bv32)
    requires |fields| == |values| == 0
    ensures FieldChildren(fields, values, mask) == []
  {
  }

  lemma FieldChildrenStep(fields: seq<Field>, values: seq<Item>, mask: bv32, i: nat)
    requires |fields| == |values| && i < |fields|
    ensures FieldChildren(fields[i..], values[i..], mask) ==
      var rest := FieldChildren(fields[i + 1..], values[i + 1..], mask);
      if Selected(fields[i], mask) then [(fields[i].name, values[i])] + rest else rest
  {
    assert fields[i..][1..] == fields[i + 1..] && values[i..][1..] == values[i + 1..];
  }

  method SerializeObject(heap: Heap, id: nat, mask: bv32, stack: SerializeStack, dryRun: bool) returns (r: Outcome)
    requires WellFormed(heap) && id in heap && (heap[id].Instance? || heap[id].Untyped?)
    requires ObjectIn(heap, heap[id])
    modifies stack
    ensures forall k :: 0 <= k < |Children(heap[id], mask)| ==> ItemIn(heap, Children(heap[id], mask)[k].1)
    ensures r == Finish(heap[id], SerializeChildren(heap, mask, dryRun, Children(heap[id], mask), old(stack.entries)),
                        dryRun)
    ensures r.Done? ==> stack.entries == old(stack.entries)
    decreases |Unvisited(heap, stack.entries)|, 2
  {
    hide SerializeItem, SerializeChildren, SortedKeys, Le, FromPairs, FieldChildren, Unvisited;
    ChildrenIn(heap, id, mask);
    var s0 := stack.entries;
    ghost var done: seq<(string, Value)> := [];
    if heap[id].Untyped? {
      ChildrenEnd(heap, mask, dryRun, s0, done);
      return Done(Empty);
    }
    var fields, values := heap[id].fields, heap[id].values;
    ghost var cs := Children(heap[id], mask);
    ghost var n := 0;
    var result: seq<(string, Value)> := [];
    var i := 0;
    assert cs[0..] == cs && fields[0..] == fields && values[0..] == values;
    ghost var all := SerializeChildren(heap, mask, dryRun, cs, s0);
    assert Prepend([], all) == all;
    while i < |fields|
      invariant 0 <= i <= |fields| && 0 <= n <= |cs|
      invariant stack.entries == s0
      invariant cs[n..] == FieldChildren(fields[i..], values[i..], mask)
      invariant all == Prepend(done, SerializeChildren(heap, mask, dryRun, cs[n..], s0))
      invariant if dryRun then result == [] else result == done
    {
      FieldChildrenStep(fields, values, mask, i);
      if (mask != 0 && !Meets(fields[i].attributes, mask)) || fields[i].name == "type" {
        i := i + 1;
        continue;
      }
      var name, g := fields[i].name, values[i];
      assert cs[n..][0] == (name, g) && cs[n..][1..] == cs[n + 1..];
      ChildrenStep(heap, mask, dryRun, cs[n..], s0, done);
      var serialized := SerializeChild(heap, name, g, mask, stack, dryRun);
      if serialized.Circular? {
        return serialized;
      }
      if !dryRun {
        result := result + [(name, serialized.v)];
      }
      done := done + [(name, serialized.v)];
      i, n := i + 1, n + 1;
    }
    assert cs[n..] == [] by { FieldChildrenEnd(fields[i..], values[i..], mask); }
    ChildrenEnd(heap, mask, dryRun, s0, done);
    if !dryRun {
      result := result + [("type", String(heap[id].typeName))];
    }
    r := Done(if dryRun then Empty else Dictionary(FromPairs(result)));
  }

  method SerializeInternal(heap: Heap, g: Item, mask: bv32, stack: SerializeStack, dryRun: bool) returns (r: Outcome)
    requires WellFormed(heap) && ItemIn(heap, g)
    modifies stack
    ensures r == SerializeItem(heap, mask, dryRun, g, old(stack.entries))
    ensures r.Done? ==> stack.entries == old(stack.entries)
    decreases |Unvisited(heap, stack.entries)|, if g.Ref? then 3 else 0
  {
    hide SerializeChildren, Children;
    match g
    case Leaf(v) => r := Done(if dryRun then Empty else v);
    case Ref(id) =>
      assert ObjectIn(heap, heap[id]);
      match heap[id] {
        case ArrayObject(_) => r := SerializeArray(heap, id, mask, stack, dryRun);
        case DictionaryObject(_) => r := SerializeEntries(heap, id, mask, stack, dryRun);
        case NamespaceObject(_) => r := SerializeEntries(heap, id, mask, stack, dryRun);
        case Instance(_, _, _) => r := SerializeObject(heap, id, mask, stack, dryRun);
        case Untyped => r := SerializeObject(heap, id, mask, stack, dryRun);
      }
  }

  const FA_CONFIG: bv32 := 2

  /** Succeeds exactly if no cycle can be reached along the configuration attributes. */
  method AssertNoCircularReferences(heap: Heap, g: Item) returns (error: Option<seq<string>>)
    requires WellFormed(heap) && ItemIn(heap, g)
    ensures error.Some? <==> g.Ref? && ReachesCycle(heap, FA_CONFIG, g.id)
    ensures error.Some? ==> Witness(heap, FA_CONFIG, g.id, error.value)
  {
    hide ReachesCycle, Witness;
    var stack := new SerializeStack();
    var r := SerializeInternal(heap, g, FA_CONFIG, stack, true);
    if g.Ref? {
      CycleDetection(heap, FA_CONFIG, true, g.id);
    }
    error := match r case Done(_) => None case Circular(path) => Some(path);
  }

  /** Returns the unfolding of the graph, or else the attribute path around a cycle. */
  method Serialize(heap: Heap, g: Item, mask: bv32) returns (r: Outcome)
    requires WellFormed(heap) && ItemIn(heap, g)
    ensures r.Circular? <==> g.Ref? && ReachesCycle(heap, mask, g.id)
    ensures r.Circular? ==> Witness(heap, mask, g.id, r.path)
    ensures r.Done? ==> Unfolds(heap, mask, g, r.v)
  {
    hide ReachesCycle, Witness, Unfolds;
    var stack := new SerializeStack();
    r := SerializeInternal(heap, g, mask, stack, false);
    if g.Ref? {
      CycleDetection(heap, mask, false, g.id);
    }
    if r.Done? {
      SerializeExact(heap, mask, g, r.v);
    }
  }
}
