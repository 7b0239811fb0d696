/**
 The dictionaries of an attribute as objects on the heap. A modification clones them, sets the
 new value inside the clone, in place, and leaves the dictionaries it started from alone.
 */
module AttributeTree {
  import opened ConfigObject
  import opened Keys
  import opened Values
  import opened Wrappers

  /** A value that is no dictionary, or a reference to a dictionary. */
  datatype Node = Plain(v: Value) | Ref(d: Dict)

  class Dict {
    var entries: map<string, Node>
    ghost var parts: map<string, set<Dict>>     // what lies below each entry, in a tree

    constructor ()
      ensures entries == map[] && parts == map[]
    {
      entries, parts := map[], map[];
    }
  }

  /** The node spells out the value `v`; the dictionaries below it are among `all`, and may
      be shared. */
  ghost predicate Denotes(n: Node, v: Value, all: set<Dict>)
    reads all
    decreases v
  {
    match n
    case Plain(w) => w == v && !v.Dictionary?
    case Ref(d) =>
      d in all && v.Dictionary? && d.entries.Keys == v.entries.Keys
      && forall k :: k in d.entries ==> Denotes(d.entries[k], v.entries[k], all)
  }

  predicate Disjoint(parts: map<string, set<Dict>>) {
    forall j, k :: j in parts && k in parts && j != k ==> parts[j] !! parts[k]
  }

  lemma DisjointPair(parts: map<string, set<Dict>>, j: string, k: string)
    requires Disjoint(parts) && j != k
    ensures j in parts && k in parts ==> parts[j] !! parts[k]
  {
  }

  lemma DisjointMore(parts: map<string, set<Dict>>, k: string, part: set<Dict>, own: set<Dict>)
    requires Disjoint(parts) && part !! own && forall j :: j in parts ==> parts[j] <= own
    ensures Disjoint(parts[k := part])
  {
  }

  /** The node spells out the value `v` as a tree of dictionaries of its own, namely `own`. */
  ghost predicate Owns(n: Node, v: Value, own: set<Dict>)
    reads own
    decreases v
  {
    match n
    case Plain(w) => w == v && !v.Dictionary?
    case Ref(d) =>
      d in own && v.Dictionary? && d.entries.Keys == v.entries.Keys == d.parts.Keys
      && (forall k :: k in d.parts ==> d.parts[k] <= own - {d}) && Disjoint(d.parts)
      && forall k :: k in d.parts ==> Owns(d.entries[k], v.entries[k], d.parts[k])
  }

  lemma {:induction false} OwnsDenotes(n: Node, v: Value, own: set<Dict>, all: set<Dict>)
    requires Owns(n, v, own) && own <= all
    ensures Denotes(n, v, all)
    decreases v
  {
    if n.Ref? {
      forall k | k in n.d.entries ensures Denotes(n.d.entries[k], v.entries[k], all) {
        OwnsDenotes(n.d.entries[k], v.entries[k], n.d.parts[k], all);
      }
    }
  }

  lemma {:induction false} DenotesMore(n: Node, v: Value, all: set<Dict>, more: set<Dict>)
    requires Denotes(n, v, all) && all <= more
    ensures Denotes(n, v, more)
    decreases v
  {
    if n.Ref? {
      forall k | k in n.d.entries ensures Denotes(n.d.entries[k], v.entries[k], more) {
        DenotesMore(n.d.entries[k], v.entries[k], all, more);
      }
    }
  }

  /** The dictionary has some of the entries of `m`, each as a tree of its own. */
  ghost predicate OwnsSome(d: Dict, m: map<string, Value>, own: set<Dict>)
    reads own
  {
    && d in own && d.entries.Keys == d.parts.Keys
    && (forall k :: k in d.parts ==> d.parts[k] <= own - {d}) && Disjoint(d.parts)
    && forall k :: k in d.parts ==> k in m && Owns(d.entries[k], m[k], d.parts[k])
  }

  /** Sets an entry to a tree of its own, in place of what was there, if anything. */
  method SetEntry(d: Dict, k: string, n: Node, ghost m: map<string, Value>, ghost own: set<Dict>, ghost v: Value,
                  ghost part: set<Dict>)
    requires OwnsSome(d, m, own) && Owns(n, v, part) && part !! own
    modifies d
    ensures OwnsSome(d, m[k := v], own + part)
    ensures d.entries == old(d.entries)[k := n]
  {
    hide Owns, Disjoint;
    DisjointMore(d.parts, k, part, own);
    d.entries := d.entries[k := n];
    d.parts := d.parts[k := part];
  }

  /** A deep copy that shares no dictionary with anything; fails exactly if there is an object
      inside that cannot be cloned. */
  method Clone(n: Node, ghost v: Value, ghost all: set<Dict>) returns (c: Option<Node>, ghost own: set<Dict>)
    requires Denotes(n, v, all)
    ensures c.Some? <==> Cloneable(v)
    ensures c.Some? ==> Owns(c.value, v, own) && fresh(own)
    decreases v
  {
    hide SortedKeys, OwnsSome, Sorted, Disjoint, Cloneable;
    if n.Plain? {
      return if Cloneable(n.v) then Some(n) else None, {};
    }
    var ks := SortedKeys(n.d.entries.Keys);
    ListsKeys(n.d.entries);
    var d := new Dict();
    own := {d};
    NoEntries(d);
    for i := 0 to |ks|
      invariant fresh(own) && d in own && OwnsSome(d, v.entries, own)
      invariant forall k :: k in d.entries <==> k in ks[..i]
      invariant forall k :: k in ks[..i] ==> Cloneable(v.entries[k])
    {
      SortedDistinct(ks, i);
      var copy, part := Clone(n.d.entries[ks[i]], v.entries[ks[i]], all);
      if copy.None? {
        EntriesCloneable(v, ks[i]);
        return None, own;
      }
      SetEntry(d, ks[i], copy.value, v.entries, own, v.entries[ks[i]], part);
      assert v.entries[ks[i] := v.entries[ks[i]]] == v.entries;
      own := own + part;
    }
    assert ks[..|ks|] == ks;
    OwnsAll(d, v, own);
    AllCloneable(v);
    c := Some(Ref(d));
  }

  lemma EntriesCloneable(v: Value, k: string)
    requires v.Dictionary? && k in v.entries
    ensures Cloneable(v) ==> Cloneable(v.entries[k])
  {
  }

  lemma AllCloneable(v: Value)
    requires v.Dictionary? && forall k :: k in v.entries ==> Cloneable(v.entries[k])
    ensures Cloneable(v)
  {
  }

  lemma ListsKeys(m: map<string, Node>)
    ensures forall i :: 0 <= i < |SortedKeys(m.Keys)| ==> SortedKeys(m.Keys)[i] in m
    ensures forall k :: k in m <==> k in SortedKeys(m.Keys)
  {
    hide SortedKeys, Sorted;
    var ks := SortedKeys(m.Keys);
    assert forall i :: 0 <= i < |ks| ==> ks[i] in ks;
  }

  lemma NoEntries(d: Dict)
    requires d.entries == map[] && d.parts == map[]
    ensures forall m :: OwnsSome(d, m, {d})
  {
  }

  lemma OwnsAll(d: Dict, v: Value, own: set<Dict>)
    requires v.Dictionary? && OwnsSome(d, v.entries, own) && d.entries.Keys == v.entries.Keys
    ensures Owns(Ref(d), v, own)
  {
  }

  lemma OwnsIsSome(d: Dict, v: Value, own: set<Dict>)
    requires Owns(Ref(d), v, own)
    ensures v.Dictionary? && OwnsSome(d, v.entries, own) && d.entries.Keys == v.entries.Keys
  {
  }

  /** All entries but one spell out their values, in dictionaries among `all`. */
  ghost predicate OthersDenote(d: Dict, e: Entries, key: string, all: set<Dict>)
    reads d, all
  {
    d.entries.Keys + {key} == e.Keys + {key} &&
    forall k :: k in d.entries && k != key ==> Denotes(d.entries[k], e[k], all)
  }

  /** The other entries do not need the dictionary itself, nor what lies below this one. */
  lemma OwnsOthers(d: Dict, e: Entries, own: set<Dict>, key: string)
    requires OwnsSome(d, e, own) && d.entries.Keys == e.Keys
    ensures OthersDenote(d, e, key, own - {d} - if key in d.parts then d.parts[key] else {})
  {
    hide Owns, Denotes, Disjoint;
    var rest := own - {d} - if key in d.parts then d.parts[key] else {};
    forall k | k in d.entries && k != key ensures Denotes(d.entries[k], e[k], rest) {
      DisjointPair(d.parts, k, key);
      assert k in d.parts && Owns(d.entries[k], e[k], d.parts[k]);
      OwnsDenotes(d.entries[k], e[k], d.parts[k], rest);
    }
  }

  /** The dictionary with the entry `key` spells out its value once that entry does. */
  lemma OneMoreDenotes(d: Dict, e: Entries, key: string, others: set<Dict>, x: Value, all: set<Dict>)
    requires OthersDenote(d, e, key, others) && others <= all && d in all
    requires key in d.entries && Denotes(d.entries[key], x, all)
    ensures Denotes(Ref(d), Dictionary(e[key := x]), all)
  {
    forall k | k in d.entries && k != key ensures Denotes(d.entries[k], e[k], all) {
      DenotesMore(d.entries[k], e[k], others, all);
    }
    assert d.entries.Keys == e[key := x].Keys;
  }

  /** The last step of the walk: the value itself is stored, not a copy. */
  method Store(d: Dict, key: string, x: Node, ghost e: Entries, ghost own: set<Dict>, ghost xv: Value,
               ghost xs: set<Dict>)
    requires OwnsSome(d, e, own) && d.entries.Keys == e.Keys && Denotes(x, xv, xs) && xs !! own
    modifies d
    ensures Denotes(Ref(d), Dictionary(e[key := xv]), own + xs)
  {
    hide Owns, Denotes, Disjoint;
    ghost var rest := own - {d} - if key in d.parts then d.parts[key] else {};
    OwnsOthers(d, e, own, key);
    d.entries := d.entries[key := x];
    DenotesMore(x, xv, xs, own + xs);
    OneMoreDenotes(d, e, key, rest, xv, own + xs);
  }

  /** The entry `key` leads to the next dictionary; the others spell out their values, in
      dictionaries off the way. */
  ghost predicate Link(d: Dict, e: Entries, key: string, rest: set<Dict>, next: Dict)
    reads d, rest
  {
    OthersDenote(d, e, key, rest) && key in d.entries && d.entries[key] == Ref(next)
  }

  function Next(chain: seq<Dict>, j: nat, d: Dict): Dict {
    if j + 1 < |chain| then chain[j + 1] else d
  }

  /** The dictionaries passed on the way down to `d`. */
  ghost predicate Chain(chain: seq<Dict>, es: seq<Entries>, rests: seq<set<Dict>>, keys: Path, d: Dict)
    reads chain, set j, o | 0 <= j < |rests| && o in rests[j] :: o
  {
    && |chain| == |es| == |rests| == |keys|
    && forall j :: 0 <= j < |chain| ==> Link(chain[j], es[j], keys[j], rests[j], Next(chain, j, d))
  }

  /** Everything on the way and off it is untouched by what happens below. */
  ghost predicate Apart(chain: seq<Dict>, rests: seq<set<Dict>>, below: set<Dict>, mine: set<Dict>) {
    && below <= mine
    && (forall j :: 0 <= j < |chain| ==> chain[j] in mine && chain[j] !in below)
    && (forall j :: 0 <= j < |rests| ==> rests[j] <= mine && rests[j] !! below)
  }

  /** What the last dictionary spells out, the first one spells out around it. */
  lemma {:induction false} ChainDenotes(chain: seq<Dict>, es: seq<Entries>, rests: seq<set<Dict>>, keys: Path, d: Dict,
                                        e: Entries, all: set<Dict>)
    requires Chain(chain, es, rests, keys, d) && Denotes(Ref(d), Dictionary(e), all)
    requires forall j :: 0 <= j < |chain| ==> chain[j] in all && rests[j] <= all
    ensures Denotes(Ref(if chain == [] then d else chain[0]), Dictionary(Plug(es, keys, e)), all)
    decreases |chain|
  {
    hide Denotes, OthersDenote;
    if chain != [] {
      var n := |chain| - 1;
      assert Link(chain[n], es[n], keys[n], rests[n], Next(chain, n, d));
      OneMoreDenotes(chain[n], es[n], keys[n], rests[n], Dictionary(e), all);
      forall j | 0 <= j < n ensures Link(chain[j], es[j], keys[j], rests[j], Next(chain[..n], j, chain[n])) {
        assert Link(chain[j], es[j], keys[j], rests[j], Next(chain, j, d));
      }
      ChainDenotes(chain[..n], es[..n], rests[..n], keys[..n], chain[n], es[n][keys[n] := Dictionary(e)], all);
    }
  }

  lemma ChainOn(chain: seq<Dict>, es: seq<Entries>, rests: seq<set<Dict>>, keys: Path, d: Dict,
                e: Entries, rest: set<Dict>, key: string, child: Dict)
    requires Chain(chain, es, rests, keys, d) && Link(d, e, key, rest, child)
    ensures Chain(chain + [d], es + [e], rests + [rest], keys + [key], child)
  {
    hide Link;
    var c, n := chain + [d], |chain|;
    forall j | 0 <= j <= n
      ensures Link(c[j], (es + [e])[j], (keys + [key])[j], (rests + [rest])[j], Next(c, j, child))
    {
      if j < n {
        assert Link(chain[j], es[j], keys[j], rests[j], Next(chain, j, d));
      }
    }
  }

  /** Goes one dictionary down, to a new one if there is nothing yet; fails at a value that is
      no dictionary. */
  method Descend(d: Dict, key: string, ghost e: Entries, ghost own: set<Dict>)
      returns (child: Option<Dict>, ghost mine: set<Dict>, ghost part: set<Dict>)
    requires OwnsSome(d, e, own) && d.entries.Keys == e.Keys
    modifies d
    ensures own <= mine && fresh(mine - own)
    ensures child.Some? <==> key !in e || e[key].Dictionary?
    ensures Child(e, key).Dictionary? <==> key !in e || e[key].Dictionary?
    ensures child.Some? ==>
      var sub := if key in e then e[key].entries else map[];
      && sub == EntriesOf(Child(e, key))
      && Link(d, e[key := Child(e, key)], key, mine - {d} - part, child.value)
      && OwnsSome(child.value, sub, part) && child.value.entries.Keys == sub.Keys
      && part <= mine - {d}
  {
    hide Denotes, Disjoint;
    mine, part := own, {};
    ghost var e' := e[key := Child(e, key)];
    if key !in d.entries {
      var created := new Dict();
      EmptyOwns(created);
      SetEntry(d, key, Ref(created), e, own, Dictionary(map[]), {created});
      mine := own + {created};
    } else {
      assert e' == e;
    }
    var n := d.entries[key];
    if n.Plain? {
      return None, mine, part;
    }
    part := d.parts[key];
    OwnsOthers(d, e', mine, key);
    OwnsIsSome(n.d, e'[key], part);
    child := Some(n.d);
  }

  lemma EmptyOwns(d: Dict)
    requires d.entries == map[] && d.parts == map[]
    ensures Owns(Ref(d), Dictionary(map[]), {d})
  {
  }

  /** One dictionary down, the write below is the write here. */
  lemma WriteUnder(es: seq<Entries>, keys: Path, cur: Entries, path: Path, x: Value)
    requires |keys| == |es| && |path| > 1 && Child(cur, path[0]).Dictionary?
    ensures var sub := Child(cur, path[0]);
      PlugResult(es, keys, Write(cur, path, x)) ==
        PlugResult(es + [cur[path[0] := sub]], keys + [path[0]], Write(sub.entries, path[1..], x))
  {
    var sub := Child(cur, path[0]);
    var r := Write(sub.entries, path[1..], x);
    if r.Some? {
      PlugUnder(es, keys, cur[path[0] := sub], path[0], r.value);
      assert cur[path[0] := sub][path[0] := Dictionary(r.value)] == cur[path[0] := Dictionary(r.value)];
    }
  }

  lemma WriteBlocked(cur: Entries, path: Path, x: Value)
    requires |path| > 1 && !Child(cur, path[0]).Dictionary?
    ensures Write(cur, path, x).None?
  {
  }

  lemma ApartOn(chain: seq<Dict>, rests: seq<set<Dict>>, below: set<Dict>, mine: set<Dict>, d: Dict, own: set<Dict>,
                part: set<Dict>)
    requires Apart(chain, rests, below, mine) && d in below && below <= own && part <= own - {d}
    requires own - below !! mine
    ensures Apart(chain + [d], rests + [own - {d} - part], part, mine + own)
  {
  }

  /** Sets the value at a place of a tree, in place: walks down, creating dictionaries where
      there is nothing, and stores the value in the last one. */
  method WriteInPlace(root: Dict, path: Path, x: Node, ghost e: Entries, ghost own: set<Dict>, ghost xv: Value,
                      ghost xs: set<Dict>) returns (ok: bool, ghost all: set<Dict>)
    requires path != [] && Owns(Ref(root), Dictionary(e), own) && Denotes(x, xv, xs) && xs !! own
    modifies own
    ensures ok <==> Write(e, path, xv).Some?
    ensures ok <==> WayIsClear(Dictionary(e), path)
    ensures ok ==> Denotes(Ref(root), Dictionary(Write(e, path, xv).value), all)
    ensures own + xs <= all && fresh(all - own - xs)
  {
    hide Denotes, Owns, OwnsSome, Chain, Link, Write, Plug, Apart, OthersDenote, WayIsClear;
    WriteSucceeds(e, path, xv);
    OwnsIsSome(root, Dictionary(e), own);
    var current, i := root, 0;
    ghost var mine, cur, curOwn := own, e, own;
    ghost var chain: seq<Dict>, es: seq<Entries>, rests: seq<set<Dict>> := [], [], [];
    StartChain(root, own);
    PlugNothing();
    assert path[0..] == path;
    OwnsRoot(root, e, own);
    while i < |path| - 1
      invariant 0 <= i < |path| && |chain| == |es| == |rests| == i
      invariant own <= mine && fresh(mine - own) && mine !! xs && Denotes(x, xv, xs)
      invariant Chain(chain, es, rests, path[..i], current) && Apart(chain, rests, curOwn, mine)
      invariant OwnsSome(current, cur, curOwn) && current.entries.Keys == cur.Keys
      invariant root == if chain == [] then current else chain[0]
      invariant Write(e, path, xv) == PlugResult(es, path[..i], Write(cur, path[i..], xv))
    {
      var key := path[i];
      ghost var e' := cur[key := Child(cur, key)];
      ApartMine(chain, rests, curOwn, mine);
      OwnsRoot(current, cur, curOwn);
      var child, grown, part := Descend(current, key, cur, curOwn);
      if child.None? {
        WriteBlocked(cur, path[i..], xv);
        return false, mine + grown + xs;
      }
      WriteUnder(es, path[..i], cur, path[i..], xv);
      assert path[i..][1..] == path[i + 1..] && path[..i + 1] == path[..i] + [key];
      ChainOn(chain, es, rests, path[..i], current, e', grown - {current} - part, key, child.value);
      ApartOn(chain, rests, curOwn, mine, current, grown, part);
      chain, es, rests := chain + [current], es + [e'], rests + [grown - {current} - part];
      cur, curOwn, mine := EntriesOf(Child(cur, key)), part, mine + grown;
      current := child.value;
      i := i + 1;
    }
    ApartMine(chain, rests, curOwn, mine);
    OwnsRoot(current, cur, curOwn);
    Store(current, path[i], x, cur, curOwn, xv, xs);
    all := mine + xs;
    DenotesMore(Ref(current), Dictionary(cur[path[i] := xv]), curOwn + xs, all);
    ChainDenotes(chain, es, rests, path[..i], current, cur[path[i] := xv], all);
    WriteLast(cur, path[i..], xv);
    ok := true;
  }

  lemma WriteLast(d: Entries, path: Path, x: Value)
    requires |path| == 1
    ensures Write(d, path, x) == Some(d[path[0] := x])
  {
  }

  lemma StartChain(root: Dict, own: set<Dict>)
    ensures Chain([], [], [], [], root) && Apart([], [], own, own)
  {
  }

  lemma OwnsRoot(d: Dict, e: Entries, own: set<Dict>)
    requires OwnsSome(d, e, own)
    ensures d in own
  {
  }

  lemma ApartMine(chain: seq<Dict>, rests: seq<set<Dict>>, below: set<Dict>, mine: set<Dict>)
    requires Apart(chain, rests, below, mine)
    ensures below <= mine
    ensures forall j :: 0 <= j < |chain| ==> chain[j] in mine && chain[j] !in below
    ensures forall j :: 0 <= j < |rests| ==> rests[j] <= mine && rests[j] !! below
  {
  }

  /** The new value of a field: the old one cloned, with the value set at the place. Nothing
      that existed before is modified, so the old value still is what it was; the new one
      shares no dictionary with it, only those of `x`. A whole field is not cloned. */
  method ModifiedClone(n: Node, path: Path, x: Node, ghost v: Value, ghost all: set<Dict>, ghost xv: Value,
                       ghost xs: set<Dict>) returns (w: Option<Node>, ghost nodes: set<Dict>)
    requires Denotes(n, v, all) && Denotes(x, xv, xs)
    ensures w.Some? <==> path == [] || (Cloneable(v) && WayIsClear(v, path))
    ensures w.Some? ==> WriteField(v, path, xv).Some?
    ensures w.Some? ==> Denotes(w.value, WriteField(v, path, xv).value, nodes) && fresh(nodes - xs)
    ensures Denotes(n, v, all)
  {
    hide Owns, Write, Cloneable, WayIsClear;
    if path == [] {
      return Some(x), xs;
    }
    WriteFieldSucceeds(v, path, xv);
    ghost var own;
    var cloned;
    cloned, own := Clone(n, v, all);
    if cloned.None? {
      return None, {};
    }
    var root := cloned.value;
    CloneShape(root, v, own);
    ghost var e := EntriesOf(v);
    if root.Plain? && IsEmpty(root.v) {
      var d := new Dict();
      EmptyOwns(d);
      root, own := Ref(d), {d};
    }
    if root.Plain? {
      return None, {};
    }
    var ok;
    ok, nodes := WriteInPlace(root.d, path, x, e, own, xv, xs);
    w := if ok then Some(root) else None;
  }

  lemma CloneShape(c: Node, v: Value, own: set<Dict>)
    requires Owns(c, v, own)
    ensures if c.Plain? then c.v == v && !v.Dictionary? else v == Dictionary(EntriesOf(v))
  {
  }
}
