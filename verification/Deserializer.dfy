/**
 Turning a tree of values back into objects: plain data stays plain data, a dictionary with
 a "type" key becomes a new instance unless safe mode is on, and an existing object gets the
 fields that the attribute mask selects.
 */
module Deserializer {
  import opened Keys
  import opened Values
  import opened Wrappers
  import S = Serializer

  /** What deserializing builds. */
  datatype Built =
    | Plain(v: Scalar)
    | List(items: seq<Built>)
    | Table(entries: map<string, Built>)
    | NewInstance(typeName: string, fields: map<string, Built>)
    | Nothing                       // a null object

  datatype TypeInfo = TypeInfo(fields: seq<S.Field>, initial: map<string, Built>)

  /** The registered types, and which values a field of a type accepts without an exception. */
  datatype Registry = Registry(types: map<string, TypeInfo>, accepts: (string, string, Built) -> bool)

  /** The same tree as objects. */
  function Embed(v: Value): Built
    requires IsData(v)
  {
    match v
    case Array(items) => List(seq(|items|, i requires 0 <= i < |items| => Embed(items[i])))
    case Dictionary(m) => Table(map k | k in m :: Embed(m[k]))
    case Empty => Plain(v)
    case Boolean(_) => Plain(v)
    case Number(_) => Plain(v)
    case String(_) => Plain(v)
  }

  /** The field named `name`, if the type has one. */
  function FindField(fields: seq<S.Field>, name: string): (r: Option<S.Field>)
    ensures r.Some? ==> r.value in fields && r.value.name == name
    ensures r.None? ==> forall i :: 0 <= i < |fields| ==> fields[i].name != name
  {
    if fields == [] then None
    else if fields[0].name == name then Some(fields[0])
    else FindField(fields[1..], name)
  }

  /** A field that deserializing writes: its name is not empty and its attributes meet the
      mask. With an empty mask there is none. */
  predicate Restored(fields: seq<S.Field>, name: string, mask: bv32) {
    name != "" && var f := FindField(fields, name); f.Some? && S.Meets(f.value.attributes, mask)
  }

  function TypeOf(reg: Registry, m: map<string, Value>): Option<string> {
    if "type" in m && m["type"].String? && m["type"].s in reg.types then Some(m["type"].s) else None
  }

  /** `Deserialize` without an existing object. */
  function Build(reg: Registry, v: Value, safeMode: bool, mask: bv32): Built
    requires IsData(v)
    decreases v, 1
  {
    match v
    case Array(items) =>
      List(seq(|items|, i requires 0 <= i < |items| => Build(reg, items[i], safeMode, mask)))
    case Dictionary(m) =>
      if safeMode || "type" !in m then Table(map k | k in m :: Build(reg, m[k], safeMode, mask))
      else (match TypeOf(reg, m)
        case None => Nothing
        case Some(name) =>
          NewInstance(name, SetFields(reg, name, reg.types[name].fields, reg.types[name].initial, v, SortedKeys(m.Keys),
                                      safeMode, mask)))
    case Empty => Plain(v)
    case Boolean(_) => Plain(v)
    case Number(_) => Plain(v)
    case String(_) => Plain(v)
  }

  /** The fields of an instance after the entries of the dictionary `v` for the keys `ks` have
      been assigned in turn; a value that is refused leaves the field empty. */
  function SetFields(reg: Registry, typeName: string, types: seq<S.Field>, fields: map<string, Built>,
                     v: Value, ks: seq<string>, safeMode: bool, mask: bv32): map<string, Built>
    requires v.Dictionary? && IsData(v) && forall k :: k in ks ==> k in v.entries
    decreases v, 0, |ks|
  {
    if ks == [] then fields
    else
      var k := ks[0];
      var fields' :=
        if Restored(types, k, mask) then
          var b := Build(reg, v.entries[k], safeMode, mask);
          fields[k := if reg.accepts(typeName, k, b) then b else Plain(Empty)]
        else fields;
      SetFields(reg, typeName, types, fields', v, ks[1..], safeMode, mask)
  }

  // ---- plain data ----

  predicate HasTypeKey(v: Value) {
    match v
    case Array(items) => exists i :: 0 <= i < |items| && HasTypeKey(items[i])
    case Dictionary(m) => "type" in m || exists k :: k in m && HasTypeKey(m[k])
    case _ => false
  }

  /** Deserializing data is the identity exactly if safe mode is on or no dictionary in it has
      a "type" key. */
  lemma {:induction false} DataIdentity(reg: Registry, v: Value, safeMode: bool, mask: bv32)
    requires IsData(v)
    ensures Build(reg, v, safeMode, mask) == Embed(v) <==> safeMode || !HasTypeKey(v)
  {
    match v
    case Array(items) =>
      var b, e := Build(reg, v, safeMode, mask), Embed(v);
      forall i | 0 <= i < |items|
        ensures b.items[i] == e.items[i] <==> safeMode || !HasTypeKey(items[i])
      {
        DataIdentity(reg, items[i], safeMode, mask);
      }
      assert b == e <==> forall i :: 0 <= i < |items| ==> b.items[i] == e.items[i];
    case Dictionary(m) =>
      var b, e := Build(reg, v, safeMode, mask), Embed(v);
      if safeMode || "type" !in m {
        forall k | k in m
          ensures b.entries[k] == e.entries[k] <==> safeMode || !HasTypeKey(m[k])
        {
          DataIdentity(reg, m[k], safeMode, mask);
        }
        assert b == e <==> forall k :: k in m ==> b.entries[k] == e.entries[k];
      }
    case _ =>
  }

  /** Outside safe mode a dictionary with a "type" key becomes an instance of the type it names,
      and nothing at all if it names none that is registered. */
  lemma BuildsInstance(reg: Registry, v: Value, mask: bv32)
    requires IsData(v) && v.Dictionary? && "type" in v.entries
    ensures var b := Build(reg, v, false, mask); var t := v.entries["type"];
      if t.String? && t.s in reg.types then b.NewInstance? && b.typeName == t.s else b.Nothing?
  {
    hide SetFields, SortedKeys;
  }

  // ---- existing objects ----

  /** What is assigned to a field: the rebuilt value, or nothing if the setter refuses it. */
  function Assigned(reg: Registry, typeName: string, name: string, v: Value, safeMode: bool, mask: bv32): Built
    requires IsData(v)
  {
    var b := Build(reg, v, safeMode, mask);
    if reg.accepts(typeName, name, b) then b else Plain(Empty)
  }

  /** Exactly the selected fields that occur in the input change, each to its own value. */
  lemma {:induction false} SetFieldsEffect(
      reg: Registry, typeName: string, types: seq<S.Field>, fields: map<string, Built>,
      v: Value, ks: seq<string>, safeMode: bool, mask: bv32, name: string)
    requires v.Dictionary? && IsData(v) && (forall k :: k in ks ==> k in v.entries)
    requires Sorted(ks)
    ensures var after := SetFields(reg, typeName, types, fields, v, ks, safeMode, mask);
      if name in ks && Restored(types, name, mask) then
        name in after && after[name] == Assigned(reg, typeName, name, v.entries[name], safeMode, mask)
      else (name in after <==> name in fields) && (name in fields ==> after[name] == fields[name])
    decreases |ks|
  {
    hide Build, Restored, Le;
    if ks != [] {
      var k := ks[0];
      var fields' :=
        if Restored(types, k, mask) then fields[k := Assigned(reg, typeName, k, v.entries[k], safeMode, mask)]
        else fields;
      assert forall j :: 0 <= j < |ks[1..]| ==> ks[1..][j] == ks[j + 1] && Lt(ks[0], ks[j + 1]);
      assert name in ks <==> name == k || name in ks[1..];
      SetFieldsEffect(reg, typeName, types, fields', v, ks[1..], safeMode, mask, name);
    }
  }

  /** An empty mask serializes every field but restores none. */
  lemma EmptyMaskRestoresNothing(f: S.Field, fields: seq<S.Field>, name: string)
    ensures !Restored(fields, name, 0)
    ensures S.Selected(f, 0) <==> f.name != "type"
  {
    var r := FindField(fields, name);
    if r.Some? { assert r.value.attributes & 0 == 0; }
  }

  lemma {:induction false} FindFieldAt(fields: seq<S.Field>, i: nat)
    requires i < |fields| && forall i, j :: 0 <= i < j < |fields| ==> fields[i].name != fields[j].name
    ensures FindField(fields, fields[i].name) == Some(fields[i])
  {
    if i > 0 {
      FindFieldAt(fields[1..], i - 1);
    }
  }

  lemma {:induction false} UnfoldsIsData(heap: S.Heap, mask: bv32, g: S.Item, t: Value)
    requires S.WellFormed(heap) && S.ItemIn(heap, g) && S.Unfolds(heap, mask, g, t)
    ensures IsData(t)
    decreases t
  {
    if g.Ref? {
      var o := heap[g.id];
      assert S.ObjectIn(heap, o);
      if o.ArrayObject? {
        forall i | 0 <= i < |t.items| ensures IsData(t.items[i]) {
          UnfoldsIsData(heap, mask, o.items[i], t.items[i]);
        }
      } else if o.DictionaryObject? || o.NamespaceObject? {
        forall k | k in t.entries ensures IsData(t.entries[k]) {
          UnfoldsIsData(heap, mask, o.entries[k], t.entries[k]);
        }
      } else if o.Instance? {
        forall k | k in t.entries ensures IsData(t.entries[k]) {
          if k != "type" {
            var i :| 0 <= i < |o.fields| && S.Selected(o.fields[i], mask) && o.fields[i].name == k;
            UnfoldsIsData(heap, mask, o.values[i], t.entries[k]);
          }
        }
      }
    }
  }

  /** The fields of an existing object after the whole dictionary has been assigned. */
  function SetAll(reg: Registry, typeName: string, types: seq<S.Field>, fields: map<string, Built>,
                  v: Value, safeMode: bool, mask: bv32): map<string, Built>
    requires v.Dictionary? && IsData(v)
  {
    SortedKeysAre(v.entries);
    SetFields(reg, typeName, types, fields, v, SortedKeys(v.entries.Keys), safeMode, mask)
  }

  /** Restoring a serialized instance into any object of its type, in either mode and under the
      same non-empty mask: a selected field gets what is rebuilt from the unfolding of its value
      (or nothing if the setter refuses that), which is that unfolding itself exactly in safe
      mode or without "type" keys; a field that was not selected keeps its own. */
  lemma RestoreSerialized(reg: Registry, heap: S.Heap, id: nat, mask: bv32, safeMode: bool, t: Value,
                          fields: map<string, Built>, i: nat)
    requires S.WellFormed(heap) && id in heap && heap[id].Instance? && mask != 0
    requires S.Unfolds(heap, mask, S.Ref(id), t) && i < |heap[id].fields|
    requires heap[id].fields[i].name != "type" && heap[id].fields[i].name != ""
    ensures IsData(t) && t.Dictionary? && S.ObjectIn(heap, heap[id])
    ensures var o := heap[id];
      var name := o.fields[i].name;
      var after := SetAll(reg, o.typeName, o.fields, fields, t, safeMode, mask);
      if S.Selected(o.fields[i], mask) then
        && name in t.entries && S.ItemIn(heap, o.values[i]) && IsData(t.entries[name])
        && S.Unfolds(heap, mask, o.values[i], t.entries[name])
        && name in after && after[name] == Assigned(reg, o.typeName, name, t.entries[name], safeMode, mask)
        && (if reg.accepts(o.typeName, name, Build(reg, t.entries[name], safeMode, mask))
            then after[name] == Build(reg, t.entries[name], safeMode, mask) else after[name] == Plain(Empty))
        && (Build(reg, t.entries[name], safeMode, mask) == Embed(t.entries[name]) <==>
              safeMode || !HasTypeKey(t.entries[name]))
      else (name in after <==> name in fields) && (name in fields ==> after[name] == fields[name])
  {
    hide Build, S.Unfolds, IsData, Le, SetFields, SortedKeys, Embed, S.ObjectIn, S.Meets, FindField, HasTypeKey;
    var o := heap[id];
    InstanceFields(heap, id, i);
    UnfoldsIsData(heap, mask, S.Ref(id), t);
    InstanceTree(heap, id, mask, t, i);
    var name := o.fields[i].name;
    SortedKeysAre(t.entries);
    SetFieldsEffect(reg, o.typeName, o.fields, fields, t, SortedKeys(t.entries.Keys), safeMode, mask, name);
    if S.Selected(o.fields[i], mask) {
      UnfoldsIsData(heap, mask, o.values[i], t.entries[name]);
      DataIdentity(reg, t.entries[name], safeMode, mask);
    }
  }

  lemma InstanceFields(heap: S.Heap, id: nat, i: nat)
    requires S.WellFormed(heap) && id in heap && heap[id].Instance? && i < |heap[id].fields|
    ensures S.ObjectIn(heap, heap[id]) && S.ItemIn(heap, heap[id].values[i])
    ensures FindField(heap[id].fields, heap[id].fields[i].name) == Some(heap[id].fields[i])
  {
    assert S.ObjectIn(heap, heap[id]);
    FindFieldAt(heap[id].fields, i);
  }

  lemma SortedKeysAre(m: map<string, Value>)
    ensures Sorted(SortedKeys(m.Keys)) && forall k :: k in SortedKeys(m.Keys) <==> k in m
  {
    hide SortedKeys, Sorted, Le;
  }

  lemma DataEntries(v: Value)
    requires v.Dictionary? && IsData(v)
    ensures forall k :: k in v.entries ==> IsData(v.entries[k])
  {
  }

  lemma InstanceTree(heap: S.Heap, id: nat, mask: bv32, t: Value, i: nat)
    requires S.WellFormed(heap) && id in heap && heap[id].Instance? && S.ObjectIn(heap, heap[id])
    requires S.Unfolds(heap, mask, S.Ref(id), t) && i < |heap[id].fields|
    ensures t.Dictionary?
    ensures var name := heap[id].fields[i].name;
      S.Selected(heap[id].fields[i], mask) ==>
        name in t.entries && S.Unfolds(heap, mask, heap[id].values[i], t.entries[name])
  {
  }

  /** Deserializing what serializing has returned gives the unfolding of the graph, in safe
      mode always, and otherwise exactly if it has no "type" keys, which every instance has. */
  lemma RoundTrip(reg: Registry, heap: S.Heap, mask: bv32, g: S.Item, t: Value)
    requires S.WellFormed(heap) && S.ItemIn(heap, g)
    requires S.SerializeRoot(heap, mask, false, g) == S.Done(t)
    ensures IsData(t) && S.Unfolds(heap, mask, g, t)
    ensures Build(reg, t, true, mask) == Embed(t)
    ensures Build(reg, t, false, mask) == Embed(t) <==> !HasTypeKey(t)
  {
    hide S.SerializeRoot, S.Unfolds, Build;
    S.SerializeExact(heap, mask, g, t);
    UnfoldsIsData(heap, mask, g, t);
    DataIdentity(reg, t, true, mask);
    DataIdentity(reg, t, false, mask);
  }

  // ---- instances ----

  /** What is built mirrors the graph: every instance has become a new one of its type, with its
      selected fields mirrored and the others as the type initializes them. */
  predicate Mirrors(reg: Registry, heap: S.Heap, mask: bv32, g: S.Item, b: Built)
    requires S.WellFormed(heap) && S.ItemIn(heap, g)
    decreases b
  {
    match g
    case Leaf(v) => b == Plain(v)
    case Ref(id) =>
      assert S.ObjectIn(heap, heap[id]);
      match heap[id]
      case ArrayObject(items) =>
        && b.List? && |b.items| == |items|
        && forall i :: 0 <= i < |items| ==> Mirrors(reg, heap, mask, items[i], b.items[i])
      case DictionaryObject(m) =>
        && b.Table? && b.entries.Keys == m.Keys
        && forall k :: k in m ==> Mirrors(reg, heap, mask, m[k], b.entries[k])
      case NamespaceObject(m) =>
        && b.Table? && b.entries.Keys == m.Keys
        && forall k :: k in m ==> Mirrors(reg, heap, mask, m[k], b.entries[k])
      case Instance(typeName, fields, values) =>
        && b.NewInstance? && b.typeName == typeName && typeName in reg.types
        && (forall i :: 0 <= i < |fields| && S.Selected(fields[i], mask) ==>
              fields[i].name in b.fields && Mirrors(reg, heap, mask, values[i], b.fields[fields[i].name]))
        && SameOutside(S.SelectedNames(fields, mask), b.fields, reg.types[typeName].initial)
      case Untyped => b == Plain(Empty)
  }

  /** Apart from the names listed the two objects have the same fields. */
  predicate SameOutside(names: set<string>, a: map<string, Built>, b: map<string, Built>) {
    && (forall name :: name in a && name !in names ==> name in b && a[name] == b[name])
    && (forall name :: name in b && name !in names ==> name in a)
  }

  /** Serializing `g` comes to the object. */
  ghost predicate Reached(heap: S.Heap, mask: bv32, g: S.Item, id: nat)
    requires S.WellFormed(heap)
  {
    id in heap && g.Ref? && exists p :: S.IsPath(heap, mask, p) && p[0] == g.id && p[|p| - 1] == id
  }

  /** The registry knows the types of the instances and their setters accept everything; the
      mask is not empty, and no field takes the place of the type's name. */
  ghost predicate Restorable(reg: Registry, heap: S.Heap, mask: bv32, g: S.Item)
    requires S.WellFormed(heap)
  {
    && mask != 0
    && (forall typeName, name, b :: reg.accepts(typeName, name, b))
    && forall id | id in heap && Reached(heap, mask, g, id) :: Restores(reg, heap[id], mask)
  }

  predicate Restores(reg: Registry, o: S.Object, mask: bv32) {
    o.Instance? ==>
      && o.typeName in reg.types && reg.types[o.typeName].fields == o.fields
      && forall i :: 0 <= i < |o.fields| ==>
           o.fields[i].name != "" && (o.fields[i].name == "type" ==> !S.Meets(o.fields[i].attributes, mask))
  }

  predicate NoTypeKey(o: S.Object) {
    o.DictionaryObject? || o.NamespaceObject? ==> "type" !in o.entries
  }

  /** What marks an instance, the key "type", is not used in any dictionary or namespace. */
  ghost predicate NoTypeKeys(heap: S.Heap, mask: bv32, g: S.Item)
    requires S.WellFormed(heap)
  {
    forall id | id in heap && Reached(heap, mask, g, id) :: NoTypeKey(heap[id])
  }

  ghost predicate IsChild(heap: S.Heap, mask: bv32, a: nat, c: S.Item)
    requires S.WellFormed(heap)
  {
    && a in heap && S.ObjectIn(heap, heap[a])
    && exists k :: 0 <= k < |S.Children(heap[a], mask)| && S.Children(heap[a], mask)[k].1 == c
  }

  lemma ItemIsChild(heap: S.Heap, mask: bv32, a: nat, i: nat)
    requires S.WellFormed(heap) && a in heap && heap[a].ArrayObject? && i < |heap[a].items|
    ensures IsChild(heap, mask, a, heap[a].items[i])
  {
    assert S.ObjectIn(heap, heap[a]);
    assert S.Children(heap[a], mask)[i].1 == heap[a].items[i];
  }

  lemma EntryIsChild(heap: S.Heap, mask: bv32, a: nat, k: string)
    requires S.WellFormed(heap) && a in heap && (heap[a].DictionaryObject? || heap[a].NamespaceObject?)
    requires k in heap[a].entries
    ensures IsChild(heap, mask, a, heap[a].entries[k])
  {
    hide SortedKeys, Sorted;
    assert S.ObjectIn(heap, heap[a]);
    var m := heap[a].entries;
    var ks := SortedKeys(m.Keys);
    var i :| 0 <= i < |ks| && ks[i] == k;
    assert S.EntryChildren(m, ks)[i].1 == m[k];
    assert S.Children(heap[a], mask) == S.EntryChildren(m, ks);
  }

  lemma FieldIsChild(heap: S.Heap, mask: bv32, a: nat, i: nat)
    requires S.WellFormed(heap) && a in heap && heap[a].Instance? && S.ObjectIn(heap, heap[a])
    requires i < |heap[a].fields| && S.Selected(heap[a].fields[i], mask)
    ensures i < |heap[a].values| && IsChild(heap, mask, a, heap[a].values[i])
  {
    hide S.FieldChildren, S.Selected;
    var k := S.FieldChildrenAt(heap[a].fields, heap[a].values, mask, i);
    assert S.Children(heap[a], mask)[k].1 == heap[a].values[i];
  }

  lemma ReachedItself(heap: S.Heap, mask: bv32, id: nat)
    requires S.WellFormed(heap) && id in heap
    ensures Reached(heap, mask, S.Ref(id), id)
  {
    assert S.IsPath(heap, mask, [id]);
  }

  lemma ReachedThrough(heap: S.Heap, mask: bv32, a: nat, c: S.Item, id: nat)
    requires S.WellFormed(heap) && S.ItemIn(heap, c) && IsChild(heap, mask, a, c) && Reached(heap, mask, c, id)
    ensures Reached(heap, mask, S.Ref(a), id)
  {
    hide S.WellFormed, S.ObjectIn, S.Children;
    var p :| S.IsPath(heap, mask, p) && p[0] == c.id && p[|p| - 1] == id;
    var q := [a] + p;
    assert S.Edge(heap, mask, a, c.id);
    forall i | 0 <= i < |q| - 1 ensures S.Edge(heap, mask, q[i], q[i + 1]) {
      if i > 0 {
        assert S.Edge(heap, mask, p[i - 1], p[i - 1 + 1]);
      }
    }
    assert S.IsPath(heap, mask, q);
  }

  lemma ChildRestorable(reg: Registry, heap: S.Heap, mask: bv32, a: nat, c: S.Item)
    requires S.WellFormed(heap) && S.ItemIn(heap, c) && IsChild(heap, mask, a, c)
    ensures Restorable(reg, heap, mask, S.Ref(a)) ==> Restorable(reg, heap, mask, c)
    ensures NoTypeKeys(heap, mask, S.Ref(a)) ==> NoTypeKeys(heap, mask, c)
  {
    hide S.WellFormed, IsChild, Restores, NoTypeKey;
    forall id | id in heap && Reached(heap, mask, c, id) ensures Reached(heap, mask, S.Ref(a), id) {
      ReachedThrough(heap, mask, a, c, id);
    }
    hide Reached;
  }

  lemma InstanceIsBuilt(reg: Registry, t: Value, typeName: string, mask: bv32)
    requires t.Dictionary? && IsData(t) && "type" in t.entries && t.entries["type"] == String(typeName)
    requires typeName in reg.types
    ensures var info := reg.types[typeName];
      Build(reg, t, false, mask) ==
        NewInstance(typeName, SetAll(reg, typeName, info.fields, info.initial, t, false, mask))
  {
    hide SetFields, SortedKeys;
  }

  lemma InstanceTreeKeys(heap: S.Heap, id: nat, mask: bv32, t: Value)
    requires S.WellFormed(heap) && id in heap && heap[id].Instance? && S.ObjectIn(heap, heap[id])
    requires S.Unfolds(heap, mask, S.Ref(id), t)
    ensures t.Dictionary? && t.entries.Keys == S.SelectedNames(heap[id].fields, mask) + {"type"}
    ensures t.entries["type"] == String(heap[id].typeName)
  {
  }

  lemma TypeFieldKept(types: seq<S.Field>, mask: bv32)
    requires forall i :: 0 <= i < |types| ==> types[i].name == "type" ==> !S.Meets(types[i].attributes, mask)
    ensures !Restored(types, "type", mask)
  {
  }

  /** A field that was not serialized is left alone by the assignment of the tree. */
  lemma UnselectedKept(reg: Registry, heap: S.Heap, mask: bv32, id: nat, t: Value, fields: map<string, Built>,
                       name: string)
    requires S.WellFormed(heap) && id in heap && heap[id].Instance? && S.ObjectIn(heap, heap[id])
    requires S.Unfolds(heap, mask, S.Ref(id), t) && IsData(t) && t.Dictionary?
    requires Restores(reg, heap[id], mask) && name !in S.SelectedNames(heap[id].fields, mask)
    ensures var o := heap[id];
      var after := SetAll(reg, o.typeName, o.fields, fields, t, false, mask);
      (name in after <==> name in fields) && (name in fields ==> after[name] == fields[name])
  {
    hide S.Unfolds, SetFields, SortedKeys, S.Meets, Build, Restored, FindField, IsData, S.ObjectIn;
    var o := heap[id];
    InstanceTreeKeys(heap, id, mask, t);
    TypeFieldKept(o.fields, mask);
    SortedKeysAre(t.entries);
    SetFieldsEffect(reg, o.typeName, o.fields, fields, t, SortedKeys(t.entries.Keys), false, mask, name);
  }

  lemma SelectedIsNamed(fields: seq<S.Field>, mask: bv32, i: nat)
    requires i < |fields| && S.Selected(fields[i], mask)
    ensures fields[i].name in S.SelectedNames(fields, mask) && fields[i].name != "type"
  {
  }

  /** Outside safe mode the tree of a graph without "type" keys is rebuilt to something that
      mirrors the graph. */
  lemma {:induction false} RebuiltMirrors(reg: Registry, heap: S.Heap, mask: bv32, g: S.Item, t: Value)
    requires S.WellFormed(heap) && S.ItemIn(heap, g)
    requires Restorable(reg, heap, mask, g) && NoTypeKeys(heap, mask, g)
    requires S.Unfolds(heap, mask, g, t) && IsData(t)
    ensures Mirrors(reg, heap, mask, g, Build(reg, t, false, mask))
    decreases t
  {
    hide S.WellFormed, Restorable, NoTypeKeys, IsChild;
    if g.Ref? {
      var o := heap[g.id];
      RootIs(reg, heap, mask, g.id);
      if o.ArrayObject? {
        forall i | 0 <= i < |o.items|
          ensures Mirrors(reg, heap, mask, o.items[i], Build(reg, t.items[i], false, mask))
        {
          ItemIsChild(heap, mask, g.id, i);
          ChildRestorable(reg, heap, mask, g.id, o.items[i]);
          RebuiltMirrors(reg, heap, mask, o.items[i], t.items[i]);
        }
      } else if o.DictionaryObject? || o.NamespaceObject? {
        forall k | k in o.entries
          ensures Mirrors(reg, heap, mask, o.entries[k], Build(reg, t.entries[k], false, mask))
        {
          EntryIsChild(heap, mask, g.id, k);
          ChildRestorable(reg, heap, mask, g.id, o.entries[k]);
          RebuiltMirrors(reg, heap, mask, o.entries[k], t.entries[k]);
        }
      } else if o.Instance? {
        RebuiltInstanceMirrors(reg, heap, mask, g.id, t);
      }
    }
  }

  lemma RootIs(reg: Registry, heap: S.Heap, mask: bv32, id: nat)
    requires S.WellFormed(heap) && id in heap
    ensures S.ObjectIn(heap, heap[id])
    ensures Restorable(reg, heap, mask, S.Ref(id)) ==> mask != 0 && Restores(reg, heap[id], mask)
    ensures NoTypeKeys(heap, mask, S.Ref(id)) ==> NoTypeKey(heap[id])
  {
    hide Reached, Restores, NoTypeKey, S.ObjectIn;
    assert S.ObjectIn(heap, heap[id]);
    ReachedItself(heap, mask, id);
  }

  lemma MirrorsInstance(reg: Registry, heap: S.Heap, mask: bv32, id: nat, b: Built)
    requires S.WellFormed(heap) && id in heap && heap[id].Instance? && S.ObjectIn(heap, heap[id])
    requires b.NewInstance? && b.typeName == heap[id].typeName && b.typeName in reg.types
    requires forall i :: 0 <= i < |heap[id].fields| && S.Selected(heap[id].fields[i], mask) ==>
      SelectedMirrors(reg, heap, mask, id, b, i)
    requires SameOutside(S.SelectedNames(heap[id].fields, mask), b.fields, reg.types[b.typeName].initial)
    ensures Mirrors(reg, heap, mask, S.Ref(id), b)
  {
    var o := heap[id];
    hide S.Selected, SameOutside;
    forall i | 0 <= i < |o.fields| && S.Selected(o.fields[i], mask)
      ensures o.fields[i].name in b.fields && Mirrors(reg, heap, mask, o.values[i], b.fields[o.fields[i].name])
    {
      assert SelectedMirrors(reg, heap, mask, id, b, i);
    }
  }

  predicate SelectedMirrors(reg: Registry, heap: S.Heap, mask: bv32, id: nat, b: Built, i: nat)
    requires S.WellFormed(heap) && id in heap && heap[id].Instance? && S.ObjectIn(heap, heap[id])
    requires b.NewInstance? && i < |heap[id].fields|
  {
    var name := heap[id].fields[i].name;
    name in b.fields && Mirrors(reg, heap, mask, heap[id].values[i], b.fields[name])
  }

  lemma AcceptedIsBuilt(reg: Registry, heap: S.Heap, g: S.Item, typeName: string, name: string, v: Value, mask: bv32)
    requires S.WellFormed(heap) && Restorable(reg, heap, mask, g) && IsData(v)
    ensures Assigned(reg, typeName, name, v, false, mask) == Build(reg, v, false, mask)
  {
    hide Build;
  }

  lemma {:induction false} RebuiltInstanceMirrors(reg: Registry, heap: S.Heap, mask: bv32, id: nat, t: Value)
    requires S.WellFormed(heap) && id in heap && heap[id].Instance?
    requires Restorable(reg, heap, mask, S.Ref(id)) && NoTypeKeys(heap, mask, S.Ref(id))
    requires S.Unfolds(heap, mask, S.Ref(id), t) && IsData(t)
    ensures Mirrors(reg, heap, mask, S.Ref(id), Build(reg, t, false, mask))
    decreases t, 0
  {
    hide Build, SetFields, SetAll, Assigned, SortedKeys, S.Unfolds, S.Selected, S.SelectedNames, IsData, FindField,
      Restored, Mirrors, Restorable, Restores, S.WellFormed, S.ObjectIn, NoTypeKeys, NoTypeKey, IsChild;
    var o, b := heap[id], Build(reg, t, false, mask);
    RootIs(reg, heap, mask, id);
    RestoresIs(reg, o, mask);
    InstanceTreeKeys(heap, id, mask, t);
    InstanceIsBuilt(reg, t, o.typeName, mask);
    var names, initial := S.SelectedNames(o.fields, mask), reg.types[o.typeName].initial;
    forall i | 0 <= i < |o.fields| && S.Selected(o.fields[i], mask) ensures SelectedMirrors(reg, heap, mask, id, b, i) {
      var name := o.fields[i].name;
      SelectedIsNamed(o.fields, mask, i);
      RestoreSerialized(reg, heap, id, mask, false, t, initial, i);
      AcceptedIsBuilt(reg, heap, S.Ref(id), o.typeName, name, t.entries[name], mask);
      FieldIsChild(heap, mask, id, i);
      ChildRestorable(reg, heap, mask, id, o.values[i]);
      RebuiltMirrors(reg, heap, mask, o.values[i], t.entries[name]);
    }
    forall name | name !in names
      ensures (name in b.fields <==> name in initial) && (name in initial ==> b.fields[name] == initial[name])
    {
      UnselectedKept(reg, heap, mask, id, t, initial, name);
    }
    MirrorsInstance(reg, heap, mask, id, b);
  }

  lemma RestoresIs(reg: Registry, o: S.Object, mask: bv32)
    requires Restores(reg, o, mask) && o.Instance?
    ensures o.typeName in reg.types && reg.types[o.typeName].fields == o.fields
    ensures forall i :: 0 <= i < |o.fields| ==> o.fields[i].name != ""
  {
  }

  /** If what was built mirrors an object of the graph, the object has no "type" key, and what
      was built for a child of it mirrors the child. */
  lemma ChildMirrors(reg: Registry, heap: S.Heap, mask: bv32, a: nat, c: S.Item, t: Value) returns (u: Value)
    requires S.WellFormed(heap) && a in heap && S.ItemIn(heap, c) && IsChild(heap, mask, a, c)
    requires Restorable(reg, heap, mask, S.Ref(a)) && S.Unfolds(heap, mask, S.Ref(a), t) && IsData(t)
    requires Mirrors(reg, heap, mask, S.Ref(a), Build(reg, t, false, mask))
    ensures S.Unfolds(heap, mask, c, u) && IsData(u) && Mirrors(reg, heap, mask, c, Build(reg, u, false, mask))
  {
    hide Restorable, SortedKeys, Sorted, SetFields, S.FieldChildren, Mirrors, Build, S.Unfolds, IsData;
    var o := heap[a];
    var k :| 0 <= k < |S.Children(o, mask)| && S.Children(o, mask)[k].1 == c;
    if o.ArrayObject? {
      u := ItemMirrors(reg, heap, mask, a, k, t);
    } else if o.DictionaryObject? || o.NamespaceObject? {
      var ks := SortedKeys(o.entries.Keys);
      assert ks[k] in ks;
      u := EntryMirrors(reg, heap, mask, a, ks[k], t);
    } else {
      var i := S.FieldChildrenFrom(o.fields, o.values, mask, k);
      u := FieldMirrors(reg, heap, mask, a, i, t);
    }
  }

  lemma ItemMirrors(reg: Registry, heap: S.Heap, mask: bv32, id: nat, i: nat, t: Value) returns (u: Value)
    requires S.WellFormed(heap) && id in heap && heap[id].ArrayObject? && S.ObjectIn(heap, heap[id])
    requires i < |heap[id].items| && S.Unfolds(heap, mask, S.Ref(id), t) && IsData(t)
    requires Mirrors(reg, heap, mask, S.Ref(id), Build(reg, t, false, mask))
    ensures S.Unfolds(heap, mask, heap[id].items[i], u) && IsData(u)
    ensures Mirrors(reg, heap, mask, heap[id].items[i], Build(reg, u, false, mask))
  {
    u := t.items[i];
  }

  lemma EntryMirrors(reg: Registry, heap: S.Heap, mask: bv32, id: nat, k: string, t: Value) returns (u: Value)
    requires S.WellFormed(heap) && id in heap && (heap[id].DictionaryObject? || heap[id].NamespaceObject?)
    requires S.ObjectIn(heap, heap[id]) && k in heap[id].entries
    requires S.Unfolds(heap, mask, S.Ref(id), t) && IsData(t)
    requires Mirrors(reg, heap, mask, S.Ref(id), Build(reg, t, false, mask))
    ensures S.Unfolds(heap, mask, heap[id].entries[k], u) && IsData(u)
    ensures Mirrors(reg, heap, mask, heap[id].entries[k], Build(reg, u, false, mask))
  {
    hide SetFields, SortedKeys;
    u := t.entries[k];
  }

  lemma FieldMirrors(reg: Registry, heap: S.Heap, mask: bv32, id: nat, i: nat, t: Value) returns (u: Value)
    requires S.WellFormed(heap) && id in heap && heap[id].Instance? && S.ObjectIn(heap, heap[id])
    requires i < |heap[id].fields| && S.Selected(heap[id].fields[i], mask)
    requires Restorable(reg, heap, mask, S.Ref(id)) && S.Unfolds(heap, mask, S.Ref(id), t) && IsData(t)
    requires Mirrors(reg, heap, mask, S.Ref(id), Build(reg, t, false, mask))
    ensures S.Unfolds(heap, mask, heap[id].values[i], u) && IsData(u)
    ensures Mirrors(reg, heap, mask, heap[id].values[i], Build(reg, u, false, mask))
  {
    hide Build, SetFields, SetAll, Assigned, SortedKeys, S.Unfolds, S.Selected, S.SelectedNames, IsData, FindField,
      Restored, Restorable, Restores, S.WellFormed, S.ObjectIn, SameOutside;
    var o, b := heap[id], Build(reg, t, false, mask);
    RootIs(reg, heap, mask, id);
    RestoresIs(reg, o, mask);
    InstanceTreeKeys(heap, id, mask, t);
    InstanceIsBuilt(reg, t, o.typeName, mask);
    SelectedIsNamed(o.fields, mask, i);
    RestoreSerialized(reg, heap, id, mask, false, t, reg.types[o.typeName].initial, i);
    u := t.entries[o.fields[i].name];
    AcceptedIsBuilt(reg, heap, S.Ref(id), o.typeName, o.fields[i].name, u, mask);
  }

  lemma MirrorsNoTypeKey(reg: Registry, heap: S.Heap, mask: bv32, id: nat, t: Value)
    requires S.WellFormed(heap) && id in heap && S.Unfolds(heap, mask, S.Ref(id), t) && IsData(t)
    requires Mirrors(reg, heap, mask, S.Ref(id), Build(reg, t, false, mask))
    ensures NoTypeKey(heap[id])
  {
    hide SetFields, SortedKeys;
  }

  lemma {:induction false} MirrorsAlong(reg: Registry, heap: S.Heap, mask: bv32, p: seq<nat>, t: Value)
    requires S.WellFormed(heap) && S.IsPath(heap, mask, p)
    requires Restorable(reg, heap, mask, S.Ref(p[0])) && S.Unfolds(heap, mask, S.Ref(p[0]), t) && IsData(t)
    requires Mirrors(reg, heap, mask, S.Ref(p[0]), Build(reg, t, false, mask))
    ensures NoTypeKey(heap[p[|p| - 1]])
    decreases |p|
  {
    hide S.WellFormed, Restorable, S.Unfolds, Mirrors, Build, IsData, NoTypeKey, S.ObjectIn, S.Children;
    if |p| == 1 {
      MirrorsNoTypeKey(reg, heap, mask, p[0], t);
    } else {
      assert S.Edge(heap, mask, p[0], p[0 + 1]);
      ChildRestorable(reg, heap, mask, p[0], S.Ref(p[1]));
      var u := ChildMirrors(reg, heap, mask, p[0], S.Ref(p[1]), t);
      S.TailIsPath(heap, mask, p);
      MirrorsAlong(reg, heap, mask, p[1..], u);
    }
  }

  /** Serializing a graph of registered types and deserializing the result gives new objects
      that mirror the graph exactly if no dictionary or namespace in it uses the key "type". */
  lemma InstanceRoundTrip(reg: Registry, heap: S.Heap, mask: bv32, g: S.Item, t: Value)
    requires S.WellFormed(heap) && S.ItemIn(heap, g) && Restorable(reg, heap, mask, g)
    requires S.SerializeRoot(heap, mask, false, g) == S.Done(t)
    ensures IsData(t) && (Mirrors(reg, heap, mask, g, Build(reg, t, false, mask)) <==> NoTypeKeys(heap, mask, g))
  {
    hide S.SerializeRoot, S.Unfolds, Build, Mirrors, Restorable, IsData, NoTypeKey, S.Edge;
    S.SerializeExact(heap, mask, g, t);
    UnfoldsIsData(heap, mask, g, t);
    if NoTypeKeys(heap, mask, g) {
      RebuiltMirrors(reg, heap, mask, g, t);
    }
    if Mirrors(reg, heap, mask, g, Build(reg, t, false, mask)) {
      forall id | id in heap && Reached(heap, mask, g, id) ensures NoTypeKey(heap[id]) {
        var p :| S.IsPath(heap, mask, p) && p[0] == g.id && p[|p| - 1] == id;
        MirrorsAlong(reg, heap, mask, p, t);
      }
    }
  }

  // ---- the deserializer itself ----

  method Deserialize(reg: Registry, v: Value, safeMode: bool, mask: bv32) returns (b: Built)
    requires IsData(v)
    ensures b == Build(reg, v, safeMode, mask)
    decreases v, 1
  {
    match v
    case Array(items) => b := DeserializeArray(reg, v, safeMode, mask);
    case Dictionary(m) =>
      if safeMode || "type" !in m {
        b := DeserializeDictionary(reg, v, safeMode, mask);
      } else {
        var typeName := TypeOf(reg, m);
        if typeName.None? { return Nothing; }
        var info := reg.types[typeName.value];
        var instance := new Instance(typeName.value, info.fields, info.initial);
        instance.DeserializeObject(reg, v, safeMode, mask);
        b := NewInstance(typeName.value, instance.fields);
      }
    case Empty => b := Plain(v);
    case Boolean(_) => b := Plain(v);
    case Number(_) => b := Plain(v);
    case String(_) => b := Plain(v);
  }

  method DeserializeArray(reg: Registry, v: Value, safeMode: bool, mask: bv32) returns (b: Built)
    requires v.Array? && IsData(v)
    ensures b == Build(reg, v, safeMode, mask)
    decreases v, 0
  {
    var result: seq<Built> := [];
    var i := 0;
    while i < |v.items|
      invariant 0 <= i <= |v.items| && |result| == i
      invariant forall j :: 0 <= j < i ==> result[j] == Build(reg, v.items[j], safeMode, mask)
    {
      var item := Deserialize(reg, v.items[i], safeMode, mask);
      result := result + [item];
      i := i + 1;
    }
    assert result == Build(reg, v, safeMode, mask).items;
    b := List(result);
  }

  lemma BuildTable(reg: Registry, v: Value, safeMode: bool, mask: bv32, m: map<string, Built>)
    requires v.Dictionary? && IsData(v) && (safeMode || "type" !in v.entries)
    requires m.Keys == v.entries.Keys && forall k :: k in m ==> m[k] == Build(reg, v.entries[k], safeMode, mask)
    ensures Build(reg, v, safeMode, mask) == Table(m)
  {
  }

  method DeserializeDictionary(reg: Registry, v: Value, safeMode: bool, mask: bv32) returns (b: Built)
    requires v.Dictionary? && IsData(v) && (safeMode || "type" !in v.entries)
    ensures b == Build(reg, v, safeMode, mask)
    decreases v, 0
  {
    hide Le, Sorted, Build, SortedKeys, IsData;
    DataEntries(v);
    var ks := SortedKeys(v.entries.Keys);
    var result: map<string, Built> := map[];
    var i := 0;
    while i < |ks|
      invariant 0 <= i <= |ks|
      invariant forall k :: k in result <==> k in ks[..i]
      invariant forall k :: k in result ==> k in v.entries && result[k] == Build(reg, v.entries[k], safeMode, mask)
    {
      assert ks[i] in ks;
      var value := Deserialize(reg, v.entries[ks[i]], safeMode, mask);
      result := result[ks[i] := value];
      assert ks[..i + 1] == ks[..i] + [ks[i]];
      i := i + 1;
    }
    assert ks[..i] == ks;
    BuildTable(reg, v, safeMode, mask, result);
    b := Table(result);
  }

  /** An object whose fields can be set by name. */
  class Instance {
    const typeName: string
    const types: seq<S.Field>
    var fields: map<string, Built>

    constructor (typeName: string, types: seq<S.Field>, initial: map<string, Built>)
      ensures this.typeName == typeName && this.types == types && fields == initial
    {
      this.typeName, this.types, this.fields := typeName, types, initial;
    }

    /** A setter that refuses its argument throws and leaves the field as it was. */
    method SetField(reg: Registry, name: string, b: Built) returns (accepted: bool)
      modifies this
      ensures accepted == reg.accepts(typeName, name, b)
      ensures fields == if accepted then old(fields)[name := b] else old(fields)
    {
      accepted := reg.accepts(typeName, name, b);
      if accepted { fields := fields[name := b]; }
    }

    method ClearField(name: string)
      modifies this
      ensures fields == old(fields)[name := Plain(Empty)]
    {
      fields := fields[name := Plain(Empty)];
    }

    method DeserializeObject(reg: Registry, input: Value, safeMode: bool, mask: bv32)
      requires input.Dictionary? && IsData(input)
      modifies this
      ensures fields == SetAll(reg, typeName, types, old(fields), input, safeMode, mask)
      ensures forall name ::
        if name in input.entries && Restored(types, name, mask) then
          name in fields && fields[name] == Assigned(reg, typeName, name, input.entries[name], safeMode, mask)
        else (name in fields <==> name in old(fields)) && (name in old(fields) ==> fields[name] == old(fields)[name])
      decreases input, 0
    {
      hide Le, Build, Restored, IsData, FindField, S.Meets, SortedKeys;
      var ks := SortedKeys(input.entries.Keys);
      DataEntries(input);
      ghost var before := fields;
      ghost var all := SetFields(reg, typeName, types, fields, input, ks, safeMode, mask);
      var i := 0;
      assert ks[0..] == ks;
      while i < |ks|
        invariant 0 <= i <= |ks|
        invariant all == SetFields(reg, typeName, types, fields, input, ks[i..], safeMode, mask)
      {
        assert ks[i] in ks;
        var k := ks[i];
        assert ks[i..][0] == k && ks[i..][1..] == ks[i + 1..];
        i := i + 1;
        var field := FindField(types, k);
        if k == "" || field.None? || !S.Meets(field.value.attributes, mask) {
          assert !Restored(types, k, mask) by { RestoredIs(types, k, mask); }
          continue;
        }
        assert Restored(types, k, mask) by { RestoredIs(types, k, mask); }
        var b := Deserialize(reg, input.entries[k], safeMode, mask);
        var accepted := SetField(reg, k, b);
        if !accepted {
          ClearField(k);
        }
      }
      forall name
        ensures if name in input.entries && Restored(types, name, mask) then
            name in fields && fields[name] == Assigned(reg, typeName, name, input.entries[name], safeMode, mask)
          else (name in fields <==> name in before) && (name in before ==> fields[name] == before[name])
      {
        SetFieldsEffect(reg, typeName, types, before, input, ks, safeMode, mask, name);
      }
    }

    /** `Deserialize` with an existing object: a dictionary with a "type" key is assigned to the
        object, in either mode, and the object itself (`None`) is returned; from anything else
        something new is built and the object is left alone. */
    method DeserializeInto(reg: Registry, v: Value, safeMode: bool, mask: bv32) returns (b: Option<Built>)
      requires IsData(v)
      modifies this
      ensures b.None? <==> v.Dictionary? && "type" in v.entries
      ensures b.None? ==> fields == SetAll(reg, typeName, types, old(fields), v, safeMode, mask)
      ensures b.Some? ==> fields == old(fields) && b.value == Build(reg, v, safeMode, mask)
    {
      hide SetFields, SortedKeys;
      if v.Array? {
        var list := DeserializeArray(reg, v, safeMode, mask);
        return Some(list);
      }
      if v.Dictionary? {
        if "type" in v.entries {
          DeserializeObject(reg, v, safeMode, mask);
          return None;
        }
        var table := DeserializeDictionary(reg, v, safeMode, mask);
        return Some(table);
      }
      b := Some(Plain(v));
    }
  }

  lemma RestoredIs(types: seq<S.Field>, k: string, mask: bv32)
    ensures Restored(types, k, mask) <==>
      k != "" && FindField(types, k).Some? && S.Meets(FindField(types, k).value.attributes, mask)
  {
    hide FindField, S.Meets;
  }
}
