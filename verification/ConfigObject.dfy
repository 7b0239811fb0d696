/**
 Modifying an attribute of a configuration object at run time, and undoing it. An attribute
 is a field or, with a dotted name, a place inside the dictionaries a field holds. What a
 modification replaces is kept in the dictionary `original_attributes`, under dotted names.
 */
module ConfigObject {
  import opened Keys
  import opened Values
  import opened Wrappers

  type Path = seq<string>
  type Entries = map<string, Value>

  const VAR_DEPTH_LIMIT: nat := 16

  // ---- dotted names ----

  /** Splits at every dot; no dots give one token, and two in a row an empty token. */
  function Split(s: string): (ts: Path)
    ensures ts != []
  {
    if s == [] then [""]
    else
      var rest := Split(s[1..]);
      if s[0] == '.' then [""] + rest else Prepend(s[0], rest)
  }

  function Prepend(c: char, ts: Path): (r: Path)
    requires ts != []
    ensures r != []
  {
    [[c] + ts[0]] + ts[1..]
  }

  function Join(ts: Path): string
    requires ts != []
  {
    if |ts| == 1 then ts[0] else ts[0] + "." + Join(ts[1..])
  }

  predicate DotFree(s: string) {
    '.' !in s
  }

  lemma {:induction false} JoinSplit(s: string)
    ensures Join(Split(s)) == s
  {
    if s != [] {
      var rest := Split(s[1..]);
      JoinSplit(s[1..]);
      assert s == [s[0]] + s[1..];
      if s[0] == '.' {
        assert Split(s)[1..] == rest;
        assert Join(Split(s)) == "" + "." + Join(rest);
      } else {
        assert Split(s)[1..] == rest[1..];
        if |rest| > 1 {
          assert [s[0]] + (rest[0] + "." + Join(rest[1..])) == ([s[0]] + rest[0]) + "." + Join(rest[1..]);
        }
      }
    }
  }

  lemma {:induction false} SplitDotFree(s: string)
    requires DotFree(s)
    ensures Split(s) == [s]
  {
    if s != [] {
      assert forall c :: c in s[1..] ==> c in s;
      SplitDotFree(s[1..]);
      assert Prepend(s[0], [s[1..]]) == [[s[0]] + s[1..]];
      assert s == [s[0]] + s[1..];
    }
  }

  lemma PrependAppend(c: char, a: Path, b: Path)
    requires a != []
    ensures Prepend(c, a + b) == Prepend(c, a) + b
  {
    assert (a + b)[1..] == a[1..] + b;
  }

  lemma {:induction false} SplitAppend(p: string, k: string)
    ensures Split(p + "." + k) == Split(p) + Split(k)
  {
    var s := p + "." + k;
    if p == [] {
      assert s[1..] == k;
    } else {
      SplitAppend(p[1..], k);
      assert s[1..] == p[1..] + "." + k;
      PrependAppend(p[0], Split(p[1..]), Split(k));
      assert s[0] == p[0];
      assert ([""] + Split(p[1..])) + Split(k) == [""] + (Split(p[1..]) + Split(k));
      hide Prepend;
    }
  }

  // ---- places inside dictionaries ----

  predicate IsEmpty(v: Value) {
    v.Empty? || v == String("")
  }

  /** The value at a place, `Empty` if there is none. */
  function Lookup(v: Value, path: Path): Value
    decreases |path|
  {
    if path == [] then v
    else if v.Dictionary? && path[0] in v.entries then Lookup(v.entries[path[0]], path[1..])
    else Empty
  }

  function Child(d: Entries, key: string): Value {
    if key in d then d[key] else Dictionary(map[])
  }

  /** Sets the value at a place; missing dictionaries on the way are created, but any other
      value in the way is an error. */
  function Write(d: Entries, path: Path, x: Value): Option<Entries>
    requires path != []
    decreases |path|
  {
    if |path| == 1 then Some(d[path[0] := x])
    else
      var sub := Child(d, path[0]);
      if !sub.Dictionary? then None
      else match Write(sub.entries, path[1..], x)
        case None => None
        case Some(e) => Some(d[path[0] := Dictionary(e)])
  }

  /** Sets the value at a place, replacing whatever is in the way by dictionaries. */
  function Force(d: Entries, path: Path, x: Value): Entries
    requires path != []
    decreases |path|
  {
    if |path| == 1 then d[path[0] := x]
    else
      var sub := if path[0] in d && d[path[0]].Dictionary? then d[path[0]].entries else map[];
      d[path[0] := Dictionary(Force(sub, path[1..], x))]
  }

  predicate Diverges(p: Path, q: Path)
    decreases |p|
  {
    p != [] && q != [] && (p[0] != q[0] || Diverges(p[1..], q[1..]))
  }

  predicate IsPrefix(p: Path, q: Path) {
    |p| <= |q| && q[..|p|] == p
  }

  /** Writing makes the place and everything below it read as the new value. */
  lemma {:induction false} ReadWritten(d: Entries, path: Path, x: Value, below: Path)
    requires path != [] && Write(d, path, x).Some?
    ensures Lookup(Dictionary(Write(d, path, x).value), path + below) == Lookup(x, below)
    decreases |path|
  {
    assert (path + below)[1..] == path[1..] + below;
    if |path| == 1 {
      assert path[1..] + below == below;
    } else {
      var sub := Child(d, path[0]);
      ReadWritten(sub.entries, path[1..], x, below);
    }
  }

  /** Writing leaves every diverging place as it is. */
  lemma {:induction false} ReadElsewhere(d: Entries, path: Path, x: Value, q: Path)
    requires path != [] && Write(d, path, x).Some? && Diverges(path, q)
    ensures Lookup(Dictionary(Write(d, path, x).value), q) == Lookup(Dictionary(d), q)
    decreases |path|
  {
    if |path| > 1 && path[0] == q[0] {
      var sub := Child(d, path[0]);
      ReadElsewhere(sub.entries, path[1..], x, q[1..]);
    }
  }

  /** The second of two writes to the same place decides. */
  lemma {:induction false} WriteTwice(d: Entries, path: Path, x: Value, y: Value)
    requires path != [] && Write(d, path, x).Some?
    ensures Write(Write(d, path, x).value, path, y) == Write(d, path, y)
    decreases |path|
  {
    var e := Write(d, path, x).value;
    if |path| == 1 {
      assert e[path[0] := y] == d[path[0] := y];
    } else {
      var sub := Child(d, path[0]);
      WriteTwice(sub.entries, path[1..], x, y);
      assert e[path[0]] == Dictionary(Write(sub.entries, path[1..], x).value);
      if Write(sub.entries, path[1..], y).Some? {
        var z := Dictionary(Write(sub.entries, path[1..], y).value);
        assert e[path[0] := z] == d[path[0] := z];
      }
    }
  }

  /** There is something at the place. */
  predicate Present(d: Entries, path: Path)
    requires path != []
    decreases |path|
  {
    path[0] in d && (|path| == 1 || (d[path[0]].Dictionary? && Present(d[path[0]].entries, path[1..])))
  }

  /** Writing back what is there changes nothing at all. */
  lemma {:induction false} WriteBack(d: Entries, path: Path)
    requires path != [] && Present(d, path)
    ensures Write(d, path, Lookup(Dictionary(d), path)) == Some(d)
    decreases |path|
  {
    if |path| == 1 {
      assert Lookup(d[path[0]], []) == d[path[0]];
      assert d[path[0] := d[path[0]]] == d;
    } else {
      WriteBack(d[path[0]].entries, path[1..]);
      assert d[path[0] := d[path[0]]] == d;
    }
  }

  // ---- the object ----

  datatype FieldInfo = FieldInfo(isConfig: bool, noUserModify: bool)

  type ObjectType = map<string, FieldInfo>

  /** `undo` is the field `original_attributes`. */
  datatype Obj = Obj(fields: map<string, Value>, undo: Option<Entries>)

  datatype Outcome =
    Done | TooDeep | NoSuchField | CannotBeModified | CannotBeCloned | NotADictionary | NonExistent

  /** The new value of a field after the place below it has been set. */
  function WriteField(v: Value, path: Path, x: Value): Option<Value> {
    if path == [] then Some(x)
    else if !IsEmpty(v) && !v.Dictionary? then None
    else match Write(if IsEmpty(v) then map[] else v.entries, path, x)
      case None => None
      case Some(d) => Some(Dictionary(d))
  }

  /** The dotted name of an entry of a dictionary. */
  function EntryName(attr: string, k: string): (name: string)
    ensures |name| > |attr| && name[|attr| + 1..] == k
  {
    attr + "." + k
  }

  function Below(attr: string, ks: set<string>): (names: set<string>)
    ensures forall name :: name in names ==> |name| > |attr| && name[|attr| + 1..] in ks
  {
    set k | k in ks :: EntryName(attr, k)
  }

  /** The entries of a dictionary under their dotted names. */
  function Named(attr: string, d: Entries): Entries {
    map name | name in Below(attr, d.Keys) :: d[name[|attr| + 1..]]
  }

  function Emptied(d: Entries): Entries {
    map k | k in d :: Empty
  }

  /** The undo entries for replacing `was` by `x`: a dictionary is kept entry by entry, and
      what the new value adds to it is kept as `Empty`. */
  function Replaced(attr: string, was: Value, x: Value): Entries {
    if |Split(attr)| > 1 && was.Dictionary? then
      (if x.Dictionary? then Named(attr, Emptied(x.entries)) else map[]) + Named(attr, was.entries)
    else map[attr := was]
  }

  function UndoEntries(o: Obj): Entries {
    if o.undo.Some? then o.undo.value else map[]
  }

  /** `ModifyAttribute`. */
  function Modified(ty: ObjectType, o: Obj, attr: string, x: Value): (Obj, Outcome)
    requires o.fields.Keys == ty.Keys
  {
    var tokens := Split(attr);
    if |tokens| > VAR_DEPTH_LIMIT then (o, TooDeep)
    else if tokens[0] !in ty then (o, NoSuchField)
    else if ty[tokens[0]].noUserModify then (o, CannotBeModified)
    else
      var isConfig := ty[tokens[0]].isConfig;
      var v := o.fields[tokens[0]];
      var failed := if isConfig then o.(undo := Some(UndoEntries(o))) else o;
      if |tokens| > 1 && !Cloneable(v) then (failed, CannotBeCloned)
      else match WriteField(v, tokens[1..], x)
      case None => (failed, NotADictionary)
      case Some(w) =>
        (Obj(o.fields[tokens[0] := w],
             if isConfig then Some(Replaced(attr, Lookup(v, tokens[1..]), x) + UndoEntries(o)) else o.undo),
         Done)
  }

  /** The walk to the dictionary that holds the place. */
  function Walk(v: Value, path: Path): Outcome
    requires path != []
    decreases |path|
  {
    if !v.Dictionary? then NotADictionary
    else if |path| == 1 then Done
    else if path[0] !in v.entries then NonExistent
    else Walk(v.entries[path[0]], path[1..])
  }

  /** The undo entries for the place and everything below it. */
  function Affected(undo: Entries, tokens: Path): set<string> {
    set key | key in undo && IsPrefix(tokens, Split(key))
  }

  function RestoreAll(d: Entries, undo: Entries, ks: seq<string>): Entries
    requires forall i :: 0 <= i < |ks| ==> ks[i] in undo && |Split(ks[i])| > 1
    decreases |ks|
  {
    if ks == [] then d
    else RestoreAll(Force(d, Split(ks[0])[1..], undo[ks[0]]), undo, ks[1..])
  }

  /** `RestoreAttribute`. */
  function Restored(ty: ObjectType, o: Obj, attr: string): (Obj, Outcome)
    requires o.fields.Keys == ty.Keys
  {
    var tokens := Split(attr);
    if tokens[0] !in ty then (o, NoSuchField)
    else if o.undo.None? then (o, Done)
    else
      var v := o.fields[tokens[0]];
      var undo := o.undo.value;
      if |tokens| == 1 then
        (Obj(o.fields[tokens[0] := if attr in undo then undo[attr] else Empty], Some(undo - {attr})), Done)
      else if !Cloneable(v) then (o, CannotBeCloned)
      else if IsEmpty(v) then (o, NonExistent)
      else if Walk(v, tokens[1..]) != Done then (o, Walk(v, tokens[1..]))
      else
        var affected := Affected(undo, tokens);
        var ks := SortedKeys(affected);
        assert forall i :: 0 <= i < |ks| ==> ks[i] in ks;
        (Obj(o.fields[tokens[0] := Dictionary(RestoreAll(v.entries, undo, ks))], Some(undo - affected)), Done)
  }

  // ---- what a modification does ----

  /** What reading the attribute gives. */
  function Read(o: Obj, path: Path): Value
    requires path != []
  {
    if path[0] in o.fields then Lookup(o.fields[path[0]], path[1..]) else Empty
  }

  predicate WellTyped(ty: ObjectType, o: Obj) {
    o.fields.Keys == ty.Keys
  }

  /** After a modification the attribute, and everything below it, reads as the new value. */
  lemma ModifiedReads(ty: ObjectType, o: Obj, attr: string, x: Value, below: Path)
    requires WellTyped(ty, o) && Modified(ty, o, attr, x).1.Done?
    ensures Read(Modified(ty, o, attr, x).0, Split(attr) + below) == Lookup(x, below)
  {
    var tokens := Split(attr);
    var v := o.fields[tokens[0]];
    assert (tokens + below)[1..] == tokens[1..] + below;
    if |tokens| > 1 {
      ReadWritten(if IsEmpty(v) then map[] else v.entries, tokens[1..], x, below);
    } else {
      assert tokens[1..] + below == below;
    }
    hide Lookup, Write, Replaced, Split;
  }

  /** A modification, whether it succeeds or not, leaves every diverging attribute as it is. */
  lemma ModifiedElsewhere(ty: ObjectType, o: Obj, attr: string, x: Value, q: Path)
    requires WellTyped(ty, o) && Diverges(Split(attr), q)
    ensures WellTyped(ty, Modified(ty, o, attr, x).0)
    ensures Read(Modified(ty, o, attr, x).0, q) == Read(o, q)
  {
    var tokens := Split(attr);
    if Modified(ty, o, attr, x).1.Done? && tokens[0] == q[0] {
      assert Diverges(tokens[1..], q[1..]);
      var v := o.fields[q[0]];
      ReadElsewhere(if IsEmpty(v) then map[] else v.entries, tokens[1..], x, q[1..]);
      assert Lookup(Dictionary(map[]), q[1..]) == Lookup(Empty, q[1..]);
    }
    hide Write, Replaced, Split, Diverges;
  }

  /** An undo entry is never overwritten. */
  lemma UndoEntriesKept(ty: ObjectType, o: Obj, attr: string, x: Value, key: string)
    requires WellTyped(ty, o) && key in UndoEntries(o)
    ensures key in UndoEntries(Modified(ty, o, attr, x).0)
    ensures UndoEntries(Modified(ty, o, attr, x).0)[key] == UndoEntries(o)[key]
  {
    hide Replaced, WriteField, Split;
  }

  // ---- when a modification succeeds ----

  /** On the way to the place there is nothing, or a dictionary: no place above it holds any
      other value, an empty field counting as nothing. */
  predicate WayIsClear(v: Value, path: Path) {
    || v == Empty || v == String("")
    || (v.Dictionary? &&
        forall n :: 1 <= n < |path| && Present(v.entries, path[..n]) ==> Lookup(v, path[..n]).Dictionary?)
  }

  lemma PresentBelow(d: Entries, path: Path, n: nat)
    requires 1 < n <= |path|
    ensures Present(d, path[..n]) <==>
      path[0] in d && d[path[0]].Dictionary? && Present(d[path[0]].entries, path[1..][..n - 1])
    ensures Present(d, path[..n]) ==>
      Lookup(Dictionary(d), path[..n]) == Lookup(Dictionary(d[path[0]].entries), path[1..][..n - 1])
  {
    assert path[..n][1..] == path[1..][..n - 1];
  }

  lemma PresentHere(d: Entries, path: Path)
    requires path != []
    ensures Present(d, path[..1]) <==> path[0] in d
    ensures path[0] in d ==> Lookup(Dictionary(d), path[..1]) == d[path[0]]
  {
    assert path[..1] == [path[0]] && path[..1][1..] == [];
  }

  /** A write into a dictionary succeeds exactly if the way is clear. */
  lemma {:induction false} WriteSucceeds(d: Entries, path: Path, x: Value)
    requires path != []
    ensures Write(d, path, x).Some? <==> WayIsClear(Dictionary(d), path)
    decreases |path|
  {
    if |path| > 1 {
      var sub := Child(d, path[0]);
      PresentHere(d, path);
      if sub.Dictionary? {
        WriteSucceeds(sub.entries, path[1..], x);
        ClearBelow(d, path);
      } else {
        assert !WayIsClear(Dictionary(d), path);
      }
    }
  }

  lemma ClearBelow(d: Entries, path: Path)
    requires |path| > 1 && (path[0] in d ==> d[path[0]].Dictionary?)
    ensures WayIsClear(Dictionary(d), path) <==>
      WayIsClear(if path[0] in d then d[path[0]] else Dictionary(map[]), path[1..])
  {
    hide Present, Lookup;
    PresentHere(d, path);
    forall n | 2 <= n < |path|
      ensures Present(d, path[..n]) <==> path[0] in d && Present(d[path[0]].entries, path[1..][..n - 1])
      ensures Present(d, path[..n]) ==>
        Lookup(Dictionary(d), path[..n]) == Lookup(Dictionary(d[path[0]].entries), path[1..][..n - 1])
    {
      PresentBelow(d, path, n);
    }
    if path[0] in d {
      forall n | 1 <= n < |path| - 1 && Present(d[path[0]].entries, path[1..][..n]) && WayIsClear(Dictionary(d), path)
        ensures Lookup(d[path[0]], path[1..][..n]).Dictionary?
      {
        assert Present(d, path[..n + 1]);
      }
    } else {
      NothingPresent(path[1..]);
    }
  }

  lemma NothingPresent(path: Path)
    ensures forall n :: 1 <= n <= |path| ==> !Present(map[], path[..n])
  {
  }

  /** When a field can be written below: nothing else is in the way, and nothing at all is if
      the field is empty. */
  lemma WriteFieldSucceeds(v: Value, path: Path, x: Value)
    requires path != []
    ensures WriteField(v, path, x).Some? <==> WayIsClear(v, path)
  {
    hide Write, Present, Lookup;
    WriteSucceeds(if IsEmpty(v) || !v.Dictionary? then map[] else v.entries, path, x);
    NothingPresent(path);
  }

  /** A modification succeeds exactly if the name is not too long, the field exists and may be
      modified and, for a place inside it, the field can be cloned and the way is clear. A
      modification that fails changes no field and no undo entry; one that succeeds changes no
      other field, and the undo entries only of a configuration field, for which there is an
      undo log from then on. */
  lemma ModifiedSucceeds(ty: ObjectType, o: Obj, attr: string, x: Value)
    requires WellTyped(ty, o)
    ensures var (r, outcome) := Modified(ty, o, attr, x); var tokens := Split(attr); var f := tokens[0];
      && WellTyped(ty, r)
      && (outcome.Done? <==>
            && |tokens| <= 16 && f in ty && !ty[f].noUserModify
            && (|tokens| > 1 ==> Cloneable(o.fields[f]) && WayIsClear(o.fields[f], tokens[1..])))
      && (!outcome.Done? ==> r.fields == o.fields && UndoEntries(r) == UndoEntries(o))
      && (outcome.Done? ==> forall g :: g in o.fields && g != f ==> r.fields[g] == o.fields[g])
      && (f in ty && !ty[f].isConfig ==> r.undo == o.undo)
      && (|tokens| <= 16 && f in ty && ty[f].isConfig && !ty[f].noUserModify ==> r.undo.Some?)
  {
    hide Split, WriteField, Replaced, Cloneable, WayIsClear;
    var tokens := Split(attr);
    if tokens[0] in ty && |tokens| > 1 {
      WriteFieldSucceeds(o.fields[tokens[0]], tokens[1..], x);
    }
    WriteWhole(if tokens[0] in ty then o.fields[tokens[0]] else Empty, x);
    assert |tokens| == 1 ==> tokens[1..] == [];
  }

  /** What stops a modification, in the order in which it is checked. */
  lemma ModifiedFails(ty: ObjectType, o: Obj, attr: string, x: Value)
    requires WellTyped(ty, o)
    ensures var outcome := Modified(ty, o, attr, x).1; var tokens := Split(attr); var f := tokens[0];
      && (outcome.TooDeep? <==> |tokens| > 16)
      && (outcome.NoSuchField? <==> |tokens| <= 16 && f !in ty)
      && (outcome.CannotBeModified? <==> |tokens| <= 16 && f in ty && ty[f].noUserModify)
      && !outcome.NonExistent?
      && (outcome.CannotBeCloned? ==> |tokens| > 1 && f in ty && !Cloneable(o.fields[f]))
      && (outcome.NotADictionary? ==> |tokens| > 1 && f in ty && !WayIsClear(o.fields[f], tokens[1..]))
  {
    hide Split, WriteField, Replaced, Cloneable, WayIsClear;
    var tokens := Split(attr);
    if tokens[0] in ty && |tokens| > 1 {
      WriteFieldSucceeds(o.fields[tokens[0]], tokens[1..], x);
    }
    WriteWhole(if tokens[0] in ty then o.fields[tokens[0]] else Empty, x);
    assert |tokens| == 1 ==> tokens[1..] == [];
  }

  /** The undo entries a modification adds are at or below its attribute. */
  lemma UndoEntriesAdded(ty: ObjectType, o: Obj, attr: string, x: Value, key: string)
    requires WellTyped(ty, o) && key in UndoEntries(Modified(ty, o, attr, x).0) && key !in UndoEntries(o)
    ensures IsPrefix(Split(attr), Split(key))
  {
    hide Split, WriteField, Replaced, Cloneable, IsPrefix;
    ReplacedBelow(attr, Lookup(o.fields[Split(attr)[0]], Split(attr)[1..]), x, key);
  }

  // ---- when a restore succeeds ----

  /** The walk down succeeds exactly if all places above the one asked for hold dictionaries;
      otherwise the first that does not is missing or holds something else. */
  lemma {:induction false} WalkSucceeds(v: Value, path: Path)
    requires path != []
    ensures Walk(v, path).Done? <==> forall n :: 0 <= n < |path| ==> Lookup(v, path[..n]).Dictionary?
    ensures Walk(v, path).NonExistent? <==>
      exists n :: 0 <= n < |path| - 1 && var w := Lookup(v, path[..n]); w.Dictionary? && path[n] !in w.entries
    ensures Walk(v, path).Done? || Walk(v, path).NonExistent? || Walk(v, path).NotADictionary?
    decreases |path|
  {
    assert path[..0] == [];
    LookupHere(v);
    if v.Dictionary? && |path| > 1 && path[0] in v.entries {
      var w := v.entries[path[0]];
      WalkSucceeds(w, path[1..]);
      forall n | 0 < n <= |path| ensures Lookup(v, path[..n]) == Lookup(w, path[1..][..n - 1]) {
        assert path[..n][1..] == path[1..][..n - 1];
      }
      WalkOneMore(v, w, path);
    } else if v.Dictionary? && |path| > 1 {
      assert Lookup(v, path[..1]) == Empty;
    }
  }

  lemma WalkOneMore(v: Value, w: Value, path: Path)
    requires |path| > 1 && v.Dictionary? && path[0] in v.entries && Lookup(v, path[..0]) == v
    requires forall n :: 0 < n <= |path| ==> Lookup(v, path[..n]) == Lookup(w, path[1..][..n - 1])
    ensures (forall n :: 0 <= n < |path| ==> Lookup(v, path[..n]).Dictionary?) <==>
      forall n :: 0 <= n < |path| - 1 ==> Lookup(w, path[1..][..n]).Dictionary?
    ensures
      (exists n :: 0 <= n < |path| - 1 && var u := Lookup(v, path[..n]); u.Dictionary? && path[n] !in u.entries) <==>
      exists n :: 0 <= n < |path| - 2 && var u := Lookup(w, path[1..][..n]); u.Dictionary? && path[1..][n] !in u.entries
  {
    hide Lookup;
    forall n | 0 <= n < |path| - 1 ensures Lookup(v, path[..n + 1]) == Lookup(w, path[1..][..n]) {
    }
    if n :| 0 <= n < |path| - 2 && var u := Lookup(w, path[1..][..n]); u.Dictionary? && path[1..][n] !in u.entries {
      assert Lookup(v, path[..n + 1]).Dictionary? && path[n + 1] == path[1..][n];
    }
  }

  /** A restore succeeds exactly if the field exists and, once there are undo entries at all and
      for a place inside the field, the field can be cloned and all places above are
      dictionaries. One that fails, or finds no undo entries, changes nothing; in any case no
      other field is changed. */
  lemma RestoredSucceeds(ty: ObjectType, o: Obj, attr: string)
    requires WellTyped(ty, o)
    ensures var (r, outcome) := Restored(ty, o, attr); var tokens := Split(attr); var f := tokens[0];
      && WellTyped(ty, r)
      && (outcome.Done? <==>
            f in ty && (o.undo.Some? && |tokens| > 1 ==>
              Cloneable(o.fields[f]) && forall n :: 1 <= n < |tokens| ==> Read(o, tokens[..n]).Dictionary?))
      && (!outcome.Done? || o.undo.None? ==> r == o)
      && (forall g :: g in o.fields && g != f ==> r.fields[g] == o.fields[g])
  {
    hide Split, SortedKeys, RestoreAll, Affected, Cloneable, Lookup, Walk;
    var tokens := Split(attr);
    if tokens[0] in ty && |tokens| > 1 {
      var v := o.fields[tokens[0]];
      WalkSucceeds(v, tokens[1..]);
      forall n | 1 <= n < |tokens| ensures Read(o, tokens[..n]) == Lookup(v, tokens[1..][..n - 1]) {
        assert tokens[..n][1..] == tokens[1..][..n - 1];
      }
      AllAbove(o, v, tokens);
      LookupHere(v);
      assert tokens[1..][..0] == [];
    }
  }

  lemma AllAbove(o: Obj, v: Value, tokens: Path)
    requires |tokens| > 1 && forall n :: 1 <= n < |tokens| ==> Read(o, tokens[..n]) == Lookup(v, tokens[1..][..n - 1])
    ensures (forall n :: 1 <= n < |tokens| ==> Read(o, tokens[..n]).Dictionary?) <==>
      forall n :: 0 <= n < |tokens| - 1 ==> Lookup(v, tokens[1..][..n]).Dictionary?
  {
    hide Read, Lookup;
    forall n | 0 <= n < |tokens| - 1 ensures Read(o, tokens[..n + 1]) == Lookup(v, tokens[1..][..n]) {
    }
  }

  // ---- restoring a place that held no dictionary ----

  lemma {:induction false} WriteWalk(d: Entries, path: Path, x: Value)
    requires path != [] && Write(d, path, x).Some?
    ensures Walk(Dictionary(Write(d, path, x).value), path).Done?
    decreases |path|
  {
    if |path| > 1 {
      WriteWalk(Child(d, path[0]).entries, path[1..], x);
    }
  }

  lemma {:induction false} ForceIsWrite(d: Entries, path: Path, x: Value)
    requires path != [] && Walk(Dictionary(d), path).Done?
    ensures Write(d, path, x) == Some(Force(d, path, x))
    decreases |path|
  {
    if |path| > 1 {
      ForceIsWrite(d[path[0]].entries, path[1..], x);
    }
  }

  lemma {:induction false} DivergesIsSymmetric(p: Path, q: Path)
    requires Diverges(p, q)
    ensures Diverges(q, p)
    decreases |p|
  {
    if p[0] == q[0] {
      DivergesIsSymmetric(p[1..], q[1..]);
    }
  }

  lemma PrefixTail(p: Path, key: Path)
    requires p != []
    ensures IsPrefix(p, key) <==> key != [] && key[0] == p[0] && IsPrefix(p[1..], key[1..])
  {
    assert p == [p[0]] + p[1..];
    assert key != [] ==> key == [key[0]] + key[1..];
    if IsPrefix(p, key) {
      assert key[0] == key[..|p|][0];
      assert key[1..][..|p| - 1] == p[1..];
    }
  }

  /** No name at or below a place is at or below a diverging one. */
  lemma {:induction false} DivergesPrefix(p: Path, q: Path, key: Path)
    requires Diverges(p, q) && IsPrefix(q, key)
    ensures !IsPrefix(p, key)
    decreases |p|
  {
    PrefixTail(p, key);
    PrefixTail(q, key);
    hide IsPrefix;
    if p[0] == q[0] {
      DivergesPrefix(p[1..], q[1..], key[1..]);
    }
  }

  lemma SortedSingle(key: string)
    ensures SortedKeys({key}) == [key]
  {
    var ks := SortedKeys({key});
    assert ks[0] in ks;
    hide SortedKeys;
  }

  lemma WalkFromDictionary(v: Value, path: Path)
    requires path != [] && Walk(v, path).Done?
    ensures v.Dictionary?
  {
  }

  lemma PrefixIsShorter(p: Path, q: Path)
    requires IsPrefix(p, q)
    ensures |p| <= |q|
  {
  }

  /** `Restored` in the case that the walk succeeds. */
  lemma RestoredNested(ty: ObjectType, m: Obj, attr: string)
    requires WellTyped(ty, m) && m.undo.Some? && |Split(attr)| > 1 && Split(attr)[0] in ty
    requires Walk(m.fields[Split(attr)[0]], Split(attr)[1..]).Done? && Cloneable(m.fields[Split(attr)[0]])
    ensures var tokens := Split(attr); var undo := m.undo.value; var ks := SortedKeys(Affected(undo, tokens));
      && m.fields[tokens[0]].Dictionary?
      && (forall i :: 0 <= i < |ks| ==> ks[i] in undo && |Split(ks[i])| > 1)
      && Restored(ty, m, attr) ==
           (Obj(m.fields[tokens[0] := Dictionary(RestoreAll(m.fields[tokens[0]].entries, undo, ks))],
                Some(undo - Affected(undo, tokens))), Done)
  {
    hide Split, SortedKeys, RestoreAll, Walk, IsPrefix, Sorted, Cloneable;
    var ks := SortedKeys(Affected(m.undo.value, Split(attr)));
    WalkFromDictionary(m.fields[Split(attr)[0]], Split(attr)[1..]);
    forall i | 0 <= i < |ks| ensures ks[i] in m.undo.value && |Split(ks[i])| > 1 {
      assert ks[i] in ks;
      PrefixIsShorter(Split(attr), Split(ks[i]));
    }
  }

  lemma RestoredUncloneable(ty: ObjectType, m: Obj, attr: string)
    requires WellTyped(ty, m) && m.undo.Some? && |Split(attr)| > 1 && Split(attr)[0] in ty
    requires !Cloneable(m.fields[Split(attr)[0]])
    ensures Restored(ty, m, attr) == (m, CannotBeCloned)
  {
    hide Split, SortedKeys, Cloneable;
  }

  lemma {:induction false} RestoreAllSnoc(d: Entries, undo: Entries, ks: seq<string>, key: string)
    requires forall i :: 0 <= i < |ks| ==> ks[i] in undo && |Split(ks[i])| > 1
    requires key in undo && |Split(key)| > 1
    ensures RestoreAll(d, undo, ks + [key]) == Force(RestoreAll(d, undo, ks), Split(key)[1..], undo[key])
    decreases |ks|
  {
    hide Split, Force;
    if ks == [] {
      assert (ks + [key])[1..] == [];
    } else {
      assert (ks + [key])[1..] == ks[1..] + [key];
      RestoreAllSnoc(Force(d, Split(ks[0])[1..], undo[ks[0]]), undo, ks[1..], key);
    }
  }

  lemma AffectedMinus(undo: Entries, tokens: Path, keys: set<string>)
    ensures Affected(undo - keys, tokens) == Affected(undo, tokens) - keys
  {
    hide IsPrefix, Split;
  }

  lemma {:induction false} LookupBelow(v: Value, path: Path, below: Path)
    ensures Lookup(v, path + below) == Lookup(Lookup(v, path), below)
    decreases |path|
  {
    if path == [] {
      assert path + below == below;
    } else {
      assert (path + below)[1..] == path[1..] + below;
      if v.Dictionary? && path[0] in v.entries {
        LookupBelow(v.entries[path[0]], path[1..], below);
      }
    }
  }

  lemma RestoredOutcome(ty: ObjectType, m: Obj, attr: string)
    requires WellTyped(ty, m) && m.undo.Some? && |Split(attr)| > 1 && Split(attr)[0] in ty
    ensures Restored(ty, m, attr).1.Done? <==>
      Cloneable(m.fields[Split(attr)[0]]) && Walk(m.fields[Split(attr)[0]], Split(attr)[1..]).Done?
  {
    hide Split, SortedKeys, Cloneable, RestoreAll, Affected;
  }

  lemma {:induction false} JoinAppend(a: Path, b: Path)
    requires a != [] && b != []
    ensures Join(a + b) == Join(a) + "." + Join(b)
    decreases |a|
  {
    assert (a + b)[1..] == a[1..] + b;
    if |a| > 1 {
      JoinAppend(a[1..], b);
      assert a[0] + "." + (Join(a[1..]) + "." + Join(b)) == (a[0] + "." + Join(a[1..])) + "." + Join(b);
    } else {
      assert a[1..] + b == b;
    }
  }

  lemma {:induction false} PrefixComesFirst(a: string, rest: string)
    ensures Le(a, a + rest)
  {
    if a != [] {
      assert (a + rest)[1..] == a[1..] + rest;
      PrefixComesFirst(a[1..], rest);
    }
  }

  /** The undo entries at or below an attribute are its own and longer names after it. */
  lemma AffectedName(attr: string, key: string)
    requires IsPrefix(Split(attr), Split(key)) && key != attr
    ensures |Split(key)| > |Split(attr)| && Lt(attr, key)
  {
    hide Split, Le;
    var tokens, ts := Split(attr), Split(key);
    var rest := ts[|tokens|..];
    assert ts == tokens + rest;
    JoinSplit(attr);
    JoinSplit(key);
    assert tokens + [] == tokens;
    JoinAppend(tokens, rest);
    PrefixComesFirst(attr, "." + Join(rest));
    assert attr + "." + Join(rest) == attr + ("." + Join(rest));
  }

  lemma NotLast(ks: seq<string>, attr: string)
    requires Sorted(ks) && attr in ks && |ks| > 1 && forall key :: key in ks && key != attr ==> Lt(attr, key)
    ensures ks[|ks| - 1] != attr && ks[|ks| - 1] in ks
  {
    hide Le;
    assert ks[0] in ks && ks[|ks| - 1] in ks;
    if ks[|ks| - 1] == attr {
      LeAntisymmetric(ks[0], attr);
      assert false;
    }
  }

  lemma OnlyOne(s: set<string>, k: string)
    requires k in s && |s| == 1
    ensures s == {k}
  {
    assert |s - {k}| == 0;
  }

  /** If there is an undo entry below the attribute it is put back after the attribute's own. */
  lemma LastAffected(undo: Entries, attr: string) returns (key: string)
    requires attr in undo && Affected(undo, Split(attr)) != {attr}
    ensures var ks := SortedKeys(Affected(undo, Split(attr)));
      && ks != [] && key == ks[|ks| - 1] && key in undo && IsPrefix(Split(attr), Split(key))
      && |Split(key)| > |Split(attr)|
  {
    hide Split, Sorted, SortedKeys, Lt;
    var affected := Affected(undo, Split(attr));
    var ks := SortedKeys(affected);
    assert attr in affected;
    forall k | k in ks && k != attr ensures Lt(attr, k) {
      AffectedName(attr, k);
    }
    if |affected| == 1 {
      OnlyOne(affected, attr);
      assert false;
    }
    NotLast(ks, attr);
    key := ks[|ks| - 1];
    AffectedName(attr, key);
  }

  /** Forcing a value strictly below a place leaves a dictionary there. */
  lemma {:induction false} ForceLeavesDictionary(d: Entries, path: Path, below: Path, z: Value)
    requires |path| < |below| && IsPrefix(path, below)
    ensures Lookup(Dictionary(Force(d, below, z)), path).Dictionary?
    decreases |path|
  {
    if path != [] {
      PrefixTail(path, below);
      hide IsPrefix;
      var sub := if below[0] in d && d[below[0]].Dictionary? then d[below[0]].entries else map[];
      ForceLeavesDictionary(sub, path[1..], below[1..], z);
    }
  }

  /** Forcing leaves every diverging place as it is. */
  lemma {:induction false} ForceElsewhere(d: Entries, path: Path, z: Value, q: Path)
    requires path != [] && Diverges(path, q)
    ensures Lookup(Dictionary(Force(d, path, z)), q) == Lookup(Dictionary(d), q)
    decreases |path|
  {
    if |path| > 1 && path[0] == q[0] {
      var sub := if path[0] in d && d[path[0]].Dictionary? then d[path[0]].entries else map[];
      ForceElsewhere(sub, path[1..], z, q[1..]);
    }
  }

  /** What diverges from a place diverges from everything below it. */
  lemma {:induction false} DivergesBelow(p: Path, key: Path, q: Path)
    requires Diverges(p, q) && IsPrefix(p, key)
    ensures Diverges(key, q)
    decreases |p|
  {
    PrefixTail(p, key);
    hide IsPrefix;
    if p[0] == q[0] {
      DivergesBelow(p[1..], key[1..], q[1..]);
    }
  }

  lemma {:induction false} RestoreAllElsewhere(d: Entries, undo: Entries, ks: seq<string>, q: Path)
    requires forall i :: 0 <= i < |ks| ==> ks[i] in undo && |Split(ks[i])| > 1
    requires forall i :: 0 <= i < |ks| ==> Diverges(Split(ks[i])[1..], q)
    ensures Lookup(Dictionary(RestoreAll(d, undo, ks)), q) == Lookup(Dictionary(d), q)
    decreases |ks|
  {
    hide Split, Force, Lookup, Diverges;
    if ks != [] {
      ForceElsewhere(d, Split(ks[0])[1..], undo[ks[0]], q);
      RestoreAllElsewhere(Force(d, Split(ks[0])[1..], undo[ks[0]]), undo, ks[1..], q);
    }
  }

  /** A restore does not touch what diverges from the attribute. */
  lemma RestoredElsewhere(ty: ObjectType, m: Obj, attr: string, q: Path)
    requires WellTyped(ty, m) && m.undo.Some? && |Split(attr)| > 1 && Split(attr)[0] in ty
    requires Walk(m.fields[Split(attr)[0]], Split(attr)[1..]).Done? && Cloneable(m.fields[Split(attr)[0]])
    requires Diverges(Split(attr), q)
    ensures Read(Restored(ty, m, attr).0, q) == Read(m, q)
  {
    hide Split, Walk, SortedKeys, Sorted, IsPrefix, Restored, RestoreAll, Cloneable, Lookup;
    var tokens := Split(attr);
    RestoredNested(ty, m, attr);
    if q[0] == tokens[0] {
      var undo := m.undo.value;
      var ks := SortedKeys(Affected(undo, tokens));
      forall i | 0 <= i < |ks| ensures Diverges(Split(ks[i])[1..], q[1..]) {
        assert ks[i] in ks;
        DivergesBelow(tokens, Split(ks[i]), q);
        PrefixTail(tokens, Split(ks[i]));
      }
      hide Diverges;
      RestoreAllElsewhere(m.fields[tokens[0]].entries, undo, ks, q[1..]);
    }
  }

  /** Restoring an attribute without undo entries below it writes its own back. */
  lemma RestoredAlone(ty: ObjectType, m: Obj, attr: string)
    requires WellTyped(ty, m) && m.undo.Some? && |Split(attr)| > 1 && Split(attr)[0] in ty
    requires Walk(m.fields[Split(attr)[0]], Split(attr)[1..]).Done? && Cloneable(m.fields[Split(attr)[0]])
    requires Affected(m.undo.value, Split(attr)) == {attr}
    ensures attr in m.undo.value
    ensures var tokens := Split(attr); var f := tokens[0];
      var w := WriteField(m.fields[f], tokens[1..], m.undo.value[attr]);
      w.Some? && Restored(ty, m, attr) == (Obj(m.fields[f := w.value], Some(m.undo.value - {attr})), Done)
  {
    hide Lookup, Write, Force, Split, Walk, SortedKeys, Cloneable, IsPrefix, Restored;
    var tokens := Split(attr);
    assert attr in Affected(m.undo.value, tokens);
    RestoredNested(ty, m, attr);
    SortedSingle(attr);
    var d, was := m.fields[tokens[0]].entries, m.undo.value[attr];
    ForceIsWrite(d, tokens[1..], was);
    var ks := [attr];
    assert ks[1..] == [];
    assert RestoreAll(d, m.undo.value, ks) == Force(d, tokens[1..], was);
  }

  /** Restoring an attribute with undo entries below it leaves a dictionary there. */
  lemma RestoredBelow(ty: ObjectType, m: Obj, attr: string)
    requires WellTyped(ty, m) && m.undo.Some? && |Split(attr)| > 1 && Split(attr)[0] in ty
    requires Walk(m.fields[Split(attr)[0]], Split(attr)[1..]).Done? && Cloneable(m.fields[Split(attr)[0]])
    requires attr in m.undo.value && Affected(m.undo.value, Split(attr)) != {attr}
    ensures Read(Restored(ty, m, attr).0, Split(attr)).Dictionary?
  {
    hide Split, Walk, SortedKeys, Sorted, Restored, RestoreAll, Cloneable, Lookup, Force, Affected, IsPrefix;
    var tokens, undo := Split(attr), m.undo.value;
    RestoredNested(ty, m, attr);
    var key := LastAffected(undo, attr);
    var ks := SortedKeys(Affected(undo, tokens));
    var d, n := m.fields[tokens[0]].entries, |ks| - 1;
    assert ks == ks[..n] + [key];
    RestoreAllSnoc(d, undo, ks[..n], key);
    PrefixTail(tokens, Split(key));
    ForceLeavesDictionary(RestoreAll(d, undo, ks[..n]), tokens[1..], Split(key)[1..], undo[key]);
  }

  /** Restoring an attribute whose own undo entry is no dictionary: it succeeds exactly if the
      field can be cloned and walked down; what diverges is not touched and no undo entry at or
      below the attribute is left; and the attribute is what it was exactly if there was no
      other such entry, because those below it are put back on top. */
  lemma RestoredPlace(ty: ObjectType, m: Obj, attr: string, below: Path, q: Path)
    requires WellTyped(ty, m) && |Split(attr)| > 1 && Split(attr)[0] in ty
    requires attr in UndoEntries(m) && !UndoEntries(m)[attr].Dictionary?
    requires Diverges(Split(attr), q)
    ensures var tokens := Split(attr); var v := m.fields[tokens[0]]; var was := UndoEntries(m)[attr];
      var (r, outcome) := Restored(ty, m, attr);
      && (outcome.Done? <==> Cloneable(v) && Walk(v, tokens[1..]).Done?)
      && (outcome.Done? ==>
            && Read(r, q) == Read(m, q)
            && Affected(UndoEntries(r), tokens) == {}
            && (Affected(UndoEntries(m), tokens) == {attr} ==> Read(r, tokens + below) == Lookup(was, below))
            && (Read(r, tokens) == was <==> Affected(UndoEntries(m), tokens) == {attr}))
  {
    hide Split, Walk, Cloneable, Lookup, Write, Affected, Restored, Diverges;
    var tokens := Split(attr);
    RestoredOutcome(ty, m, attr);
    if Restored(ty, m, attr).1.Done? {
      RestoredElsewhere(ty, m, attr, q);
      RestoredClears(ty, m, attr);
      if Affected(m.undo.value, tokens) == {attr} {
        RestoredReads(ty, m, attr, below);
        RestoredReads(ty, m, attr, []);
        assert tokens + [] == tokens;
        LookupHere(m.undo.value[attr]);
      } else {
        RestoredBelow(ty, m, attr);
      }
    }
  }

  lemma RestoredClears(ty: ObjectType, m: Obj, attr: string)
    requires WellTyped(ty, m) && m.undo.Some? && |Split(attr)| > 1 && Split(attr)[0] in ty
    requires Restored(ty, m, attr).1.Done?
    ensures Affected(UndoEntries(Restored(ty, m, attr).0), Split(attr)) == {}
  {
    hide Split, SortedKeys, Cloneable, RestoreAll, Affected, Walk, IsEmpty;
    AffectedMinus(m.undo.value, Split(attr), Affected(m.undo.value, Split(attr)));
  }

  lemma RestoredReads(ty: ObjectType, m: Obj, attr: string, below: Path)
    requires WellTyped(ty, m) && m.undo.Some? && |Split(attr)| > 1 && Split(attr)[0] in ty
    requires Walk(m.fields[Split(attr)[0]], Split(attr)[1..]).Done? && Cloneable(m.fields[Split(attr)[0]])
    requires Affected(m.undo.value, Split(attr)) == {attr} && attr in m.undo.value
    ensures Read(Restored(ty, m, attr).0, Split(attr) + below) == Lookup(m.undo.value[attr], below)
  {
    hide Split, Walk, Cloneable, Lookup, Write, Affected, Restored;
    var tokens := Split(attr);
    RestoredAlone(ty, m, attr);
    WalkFromDictionary(m.fields[tokens[0]], tokens[1..]);
    ReadWritten(m.fields[tokens[0]].entries, tokens[1..], m.undo.value[attr], below);
    assert (tokens + below)[1..] == tokens[1..] + below;
  }

  /** The writes `(name, value)`, in order, failing ones included. */
  function ModifiedAll(ty: ObjectType, o: Obj, writes: seq<(string, Value)>): (r: Obj)
    requires WellTyped(ty, o)
    ensures WellTyped(ty, r)
    decreases |writes|
  {
    if writes == [] then o
    else ModifiedAll(ty, Modified(ty, o, writes[0].0, writes[0].1).0, writes[1..])
  }

  lemma {:induction false} UndoEntriesKeptThroughout(ty: ObjectType, o: Obj, key: string, writes: seq<(string, Value)>)
    requires WellTyped(ty, o) && key in UndoEntries(o)
    ensures var m := ModifiedAll(ty, o, writes);
      m.undo.Some? && key in m.undo.value && m.undo.value[key] == UndoEntries(o)[key]
    decreases |writes|
  {
    if writes != [] {
      var (q, x) := writes[0];
      UndoEntriesKept(ty, o, q, x, key);
      hide Modified;
      UndoEntriesKeptThroughout(ty, Modified(ty, o, q, x).0, key, writes[1..]);
    }
  }

  /** The first modification of an attribute that held no dictionary keeps what it replaced. */
  lemma FirstIsNoted(ty: ObjectType, o: Obj, attr: string, x: Value)
    requires WellTyped(ty, o) && Modified(ty, o, attr, x).1.Done?
    requires |Split(attr)| > 1 && ty[Split(attr)[0]].isConfig
    requires Affected(UndoEntries(o), Split(attr)) == {} && !Read(o, Split(attr)).Dictionary?
    ensures var undo := UndoEntries(Modified(ty, o, attr, x).0);
      && attr in undo && undo[attr] == Read(o, Split(attr))
      && Affected(undo, Split(attr)) == {attr}
  {
    var tokens := Split(attr);
    var o' := Modified(ty, o, attr, x).0;
    assert o'.undo.value == map[attr := Read(o, tokens)] + UndoEntries(o);
    hide Lookup, Write, Split, WriteField, Cloneable;
    assert attr !in UndoEntries(o) by {
      assert attr in UndoEntries(o) ==> attr in Affected(UndoEntries(o), tokens);
    }
    forall key | key in Affected(o'.undo.value, tokens) ensures key == attr {
      assert key != attr ==> key in Affected(UndoEntries(o), tokens);
    }
    assert attr in Affected(o'.undo.value, tokens);
  }

  /** After an attribute that held no dictionary has been modified, any writes whatsoever and
      one restore that succeeds: the attribute is what it was exactly if by then there was no
      undo entry below it. A dictionary written to it in between and replaced leaves some. */
  lemma UndoOfPlace(
      ty: ObjectType, o: Obj, attr: string, x: Value, writes: seq<(string, Value)>, below: Path, q: Path)
    requires WellTyped(ty, o) && |Split(attr)| > 1
    requires Modified(ty, o, attr, x).1.Done? && ty[Split(attr)[0]].isConfig
    requires Affected(UndoEntries(o), Split(attr)) == {} && !Read(o, Split(attr)).Dictionary?
    requires Diverges(Split(attr), q)
    ensures var tokens := Split(attr); var m := ModifiedAll(ty, Modified(ty, o, attr, x).0, writes);
      var v := m.fields[tokens[0]]; var (r, outcome) := Restored(ty, m, attr);
      && (outcome.Done? <==> Cloneable(v) && Walk(v, tokens[1..]).Done?)
      && (outcome.Done? ==>
            && Read(r, q) == Read(m, q)
            && Affected(UndoEntries(r), tokens) == {}
            && (Affected(UndoEntries(m), tokens) == {attr} ==> Read(r, tokens + below) == Read(o, tokens + below))
            && (Read(r, tokens) == Read(o, tokens) <==> Affected(UndoEntries(m), tokens) == {attr}))
  {
    hide Lookup, Split, Affected, Restored, Diverges, ModifiedAll, Cloneable, Walk, Modified;
    var tokens := Split(attr);
    FirstIsNoted(ty, o, attr, x);
    ModifiedDone(ty, o, attr, x);
    UndoEntriesKeptThroughout(ty, Modified(ty, o, attr, x).0, attr, writes);
    RestoredPlace(ty, ModifiedAll(ty, Modified(ty, o, attr, x).0, writes), attr, below, q);
    assert (tokens + below)[1..] == tokens[1..] + below;
    LookupBelow(o.fields[tokens[0]], tokens[1..], below);
  }

  lemma ModifiedDone(ty: ObjectType, o: Obj, attr: string, x: Value)
    requires WellTyped(ty, o) && Modified(ty, o, attr, x).1.Done?
    ensures var m := Modified(ty, o, attr, x).0;
      && Split(attr)[0] in ty && WellTyped(ty, m)
      && WriteField(o.fields[Split(attr)[0]], Split(attr)[1..], x).Some?
      && m.fields == o.fields[Split(attr)[0] := WriteField(o.fields[Split(attr)[0]], Split(attr)[1..], x).value]
  {
    hide Split, WriteField, Replaced, Cloneable;
  }

  /** The write does not replace anything the attribute is in. */
  predicate NotAbove(attr: string, w: (string, Value)) {
    |Split(w.0)| >= |Split(attr)| || !IsPrefix(Split(w.0), Split(attr))
  }

  lemma {:induction false} WalkKept(d: Entries, p: Path, x: Value, path: Path)
    requires p != [] && path != [] && Write(d, p, x).Some? && Walk(Dictionary(d), path).Done?
    requires |p| >= |path| || !IsPrefix(p, path)
    ensures Walk(Dictionary(Write(d, p, x).value), path).Done?
    decreases |path|
  {
    if |path| > 1 && p[0] == path[0] {
      PrefixTail(p, path);
      hide IsPrefix;
      OneIsPrefix(p, path);
      WalkKept(d[path[0]].entries, p[1..], x, path[1..]);
    }
  }

  lemma OneIsPrefix(p: Path, q: Path)
    requires p != [] && q != [] && p[0] == q[0]
    ensures |p| == 1 ==> IsPrefix(p, q)
  {
  }

  lemma ModifiedWalks(ty: ObjectType, o: Obj, attr: string, w: (string, Value))
    requires WellTyped(ty, o) && |Split(attr)| > 1 && Split(attr)[0] in ty && NotAbove(attr, w)
    requires Walk(o.fields[Split(attr)[0]], Split(attr)[1..]).Done?
    ensures Walk(Modified(ty, o, w.0, w.1).0.fields[Split(attr)[0]], Split(attr)[1..]).Done?
  {
    hide Split, Write, Walk, IsPrefix, Replaced, Cloneable;
    var tokens, ts := Split(attr), Split(w.0);
    if Modified(ty, o, w.0, w.1).1.Done? && ts[0] == tokens[0] {
      ModifiedDone(ty, o, w.0, w.1);
      PrefixTail(ts, tokens);
      WalkFromDictionary(o.fields[tokens[0]], tokens[1..]);
      OneIsPrefix(ts, tokens);
      WalkKept(o.fields[tokens[0]].entries, ts[1..], w.1, tokens[1..]);
    }
  }

  lemma {:induction false} WalksThroughout(ty: ObjectType, o: Obj, attr: string, writes: seq<(string, Value)>)
    requires WellTyped(ty, o) && |Split(attr)| > 1 && Split(attr)[0] in ty
    requires Walk(o.fields[Split(attr)[0]], Split(attr)[1..]).Done?
    requires forall k :: 0 <= k < |writes| ==> NotAbove(attr, writes[k])
    ensures Walk(ModifiedAll(ty, o, writes).fields[Split(attr)[0]], Split(attr)[1..]).Done?
    decreases |writes|
  {
    hide Split, Walk, Modified, NotAbove;
    if writes != [] {
      ModifiedWalks(ty, o, attr, writes[0]);
      ModifiedKeepsUndo(ty, o, writes[0].0, writes[0].1);
      WalksThroughout(ty, Modified(ty, o, writes[0].0, writes[0].1).0, attr, writes[1..]);
    }
  }

  /** As long as nothing the attribute is in has been replaced, the restore fails only at what
      cannot be cloned. */
  lemma UndoSucceeds(ty: ObjectType, o: Obj, attr: string, x: Value, writes: seq<(string, Value)>)
    requires WellTyped(ty, o) && |Split(attr)| > 1
    requires Modified(ty, o, attr, x).1.Done? && ty[Split(attr)[0]].isConfig
    requires forall k :: 0 <= k < |writes| ==> NotAbove(attr, writes[k])
    ensures var m := ModifiedAll(ty, Modified(ty, o, attr, x).0, writes);
      && Walk(m.fields[Split(attr)[0]], Split(attr)[1..]).Done?
      && (Restored(ty, m, attr).1.Done? <==> Cloneable(m.fields[Split(attr)[0]]))
  {
    hide Split, Walk, Cloneable, Restored, NotAbove, Modified, ModifiedAll, Write;
    var m := Modified(ty, o, attr, x).0;
    ModifiedDone(ty, o, attr, x);
    var v := o.fields[Split(attr)[0]];
    WriteWalk(if IsEmpty(v) then map[] else v.entries, Split(attr)[1..], x);
    WalksThroughout(ty, m, attr, writes);
    ModifiedKeepsUndo(ty, o, attr, x);
    UndoCreatedThroughout(ty, m, writes);
    RestoredOutcome(ty, ModifiedAll(ty, m, writes), attr);
  }

  lemma ModifiedKeepsUndo(ty: ObjectType, o: Obj, attr: string, x: Value)
    requires WellTyped(ty, o)
    ensures WellTyped(ty, Modified(ty, o, attr, x).0)
    ensures o.undo.Some? ==> Modified(ty, o, attr, x).0.undo.Some?
    ensures Modified(ty, o, attr, x).1.Done? && ty[Split(attr)[0]].isConfig ==> Modified(ty, o, attr, x).0.undo.Some?
  {
    hide Split, WriteField, Replaced, Cloneable;
  }

  lemma {:induction false} UndoCreatedThroughout(ty: ObjectType, o: Obj, writes: seq<(string, Value)>)
    requires WellTyped(ty, o) && o.undo.Some?
    ensures ModifiedAll(ty, o, writes).undo.Some?
    decreases |writes|
  {
    hide Modified;
    if writes != [] {
      ModifiedKeepsUndo(ty, o, writes[0].0, writes[0].1);
      UndoCreatedThroughout(ty, Modified(ty, o, writes[0].0, writes[0].1).0, writes[1..]);
    }
  }

  // ---- writes that never put a dictionary into the place ----

  lemma {:induction false} WalkElsewhere(d: Entries, q: Path, x: Value, path: Path)
    requires path != [] && Walk(Dictionary(d), path).Done?
    requires q != [] && Write(d, q, x).Some? && Diverges(q, path)
    ensures Walk(Dictionary(Write(d, q, x).value), path).Done?
    decreases |path|
  {
    if |path| > 1 && path[0] == q[0] {
      WalkElsewhere(d[path[0]].entries, q[1..], x, path[1..]);
    }
  }

  /** The attribute has been modified, held `was` before, which is no dictionary, and holds
      none now. */
  predicate Noted(ty: ObjectType, o: Obj, attr: string, was: Value) {
    var tokens := Split(attr);
    && WellTyped(ty, o)
    && |tokens| > 1 && tokens[0] in o.fields
    && o.undo.Some? && Affected(o.undo.value, tokens) == {attr} && o.undo.value[attr] == was
    && Walk(o.fields[tokens[0]], tokens[1..]).Done?
    && !Read(o, tokens).Dictionary?
  }

  lemma NotedFirst(ty: ObjectType, o: Obj, attr: string, x: Value)
    requires WellTyped(ty, o) && Modified(ty, o, attr, x).1.Done?
    requires |Split(attr)| > 1 && ty[Split(attr)[0]].isConfig
    requires Affected(UndoEntries(o), Split(attr)) == {}
    requires !Read(o, Split(attr)).Dictionary? && !x.Dictionary?
    ensures Noted(ty, Modified(ty, o, attr, x).0, attr, Read(o, Split(attr)))
  {
    var tokens := Split(attr);
    var v := o.fields[tokens[0]];
    var d := if IsEmpty(v) then map[] else v.entries;
    WriteWalk(d, tokens[1..], x);
    ModifiedReads(ty, o, attr, x, []);
    assert tokens + [] == tokens;
    var o' := Modified(ty, o, attr, x).0;
    hide Lookup, Write, Split, Walk;
    assert o'.undo.value == map[attr := Read(o, tokens)] + UndoEntries(o);
    assert Affected(o'.undo.value, tokens) == {attr} by {
      assert attr !in Affected(UndoEntries(o), tokens);
      forall key | key in Affected(o'.undo.value, tokens) ensures key == attr {
        assert key != attr ==> key in Affected(UndoEntries(o), tokens);
      }
    }
    assert attr !in UndoEntries(o) by {
      assert attr in UndoEntries(o) ==> attr in Affected(UndoEntries(o), tokens);
    }
  }

  lemma AffectedIsEntry(undo: Entries, tokens: Path, key: string)
    requires key in Affected(undo, tokens)
    ensures key in undo && IsPrefix(tokens, Split(key))
  {
  }

  lemma NotedAgain(ty: ObjectType, o: Obj, attr: string, was: Value, x: Value)
    requires Noted(ty, o, attr, was) && !x.Dictionary?
    ensures Noted(ty, Modified(ty, o, attr, x).0, attr, was)
  {
    var tokens := Split(attr);
    var d := o.fields[tokens[0]].entries;
    var o' := Modified(ty, o, attr, x).0;
    if Modified(ty, o, attr, x).1.Done? {
      WriteWalk(d, tokens[1..], x);
      ModifiedReads(ty, o, attr, x, []);
      assert tokens + [] == tokens;
      hide Lookup, Write, Split, Walk, Affected;
      AffectedIsEntry(o.undo.value, tokens, attr);
      assert UndoEntries(o') == UndoEntries(o);
    }
  }

  /** Every undo entry of a replacement is at or below the attribute. */
  lemma ReplacedBelow(attr: string, was: Value, x: Value, key: string)
    requires key in Replaced(attr, was, x)
    ensures IsPrefix(Split(attr), Split(key))
  {
    if key != attr {
      var k := key[|attr| + 1..];
      assert key == attr + "." + k;
      SplitAppend(attr, k);
    }
  }

  lemma AffectedElsewhere(undo: Entries, attr: string, was: Value, x: Value, tokens: Path)
    requires Diverges(Split(attr), tokens)
    ensures Affected(Replaced(attr, was, x) + undo, tokens) == Affected(undo, tokens)
    ensures forall key :: key in Affected(undo, tokens) ==> (Replaced(attr, was, x) + undo)[key] == undo[key]
  {
    DivergesIsSymmetric(Split(attr), tokens);
    forall key | key in Replaced(attr, was, x) ensures !IsPrefix(tokens, Split(key)) {
      ReplacedBelow(attr, was, x, key);
      DivergesPrefix(tokens, Split(attr), Split(key));
    }
    hide Replaced, IsPrefix, Split;
  }

  lemma NotedElsewhere(ty: ObjectType, o: Obj, attr: string, was: Value, q: string, x: Value)
    requires Noted(ty, o, attr, was) && Diverges(Split(q), Split(attr))
    ensures Noted(ty, Modified(ty, o, q, x).0, attr, was)
  {
    var tokens := Split(attr);
    var ts := Split(q);
    var o' := Modified(ty, o, q, x).0;
    if Modified(ty, o, q, x).1.Done? {
      ModifiedElsewhere(ty, o, q, x, tokens);
      AffectedElsewhere(o.undo.value, q, Read(o, ts), x, tokens);
      if ts[0] == tokens[0] {
        assert Diverges(ts[1..], tokens[1..]);
        WalkElsewhere(o.fields[tokens[0]].entries, ts[1..], x, tokens[1..]);
      }
      assert attr in Affected(o.undo.value, tokens);
      hide Lookup, Write, Split, Walk, Affected, Replaced, Diverges;
    }
  }

  /** A write of a value that is no dictionary to the attribute, or any write elsewhere. */
  predicate Harmless(attr: string, w: (string, Value)) {
    (w.0 == attr && !w.1.Dictionary?) || Diverges(Split(w.0), Split(attr))
  }

  lemma {:induction false} NotedThroughout(
      ty: ObjectType, o: Obj, attr: string, was: Value, writes: seq<(string, Value)>)
    requires Noted(ty, o, attr, was)
    requires forall k :: 0 <= k < |writes| ==> Harmless(attr, writes[k])
    ensures Noted(ty, ModifiedAll(ty, o, writes), attr, was)
    decreases |writes|
  {
    if writes != [] {
      var (q, x) := writes[0];
      if q == attr && !x.Dictionary? {
        NotedAgain(ty, o, attr, was, x);
      } else {
        NotedElsewhere(ty, o, attr, was, q, x);
      }
      hide Noted, Harmless, Modified;
      NotedThroughout(ty, Modified(ty, o, q, x).0, attr, was, writes[1..]);
    }
  }

  /** Any number of writes of values that are no dictionaries to an attribute that held none,
      mixed with any writes to diverging attributes, and one restore, which succeeds exactly if
      the field can be cloned: the attribute and everything below it read as before the first
      write, what diverges is not touched by the restore, and no undo entry at or below the
      attribute is left. */
  lemma UndoOfScalar(
      ty: ObjectType, o: Obj, attr: string, x: Value, writes: seq<(string, Value)>, below: Path, q: Path)
    requires WellTyped(ty, o) && |Split(attr)| > 1
    requires Modified(ty, o, attr, x).1.Done? && ty[Split(attr)[0]].isConfig
    requires Affected(UndoEntries(o), Split(attr)) == {}
    requires !Read(o, Split(attr)).Dictionary? && !x.Dictionary?
    requires forall k :: 0 <= k < |writes| ==> Harmless(attr, writes[k])
    requires Diverges(Split(attr), q)
    ensures var m := ModifiedAll(ty, Modified(ty, o, attr, x).0, writes);
      var (r, outcome) := Restored(ty, m, attr);
      && (outcome.Done? <==> Cloneable(m.fields[Split(attr)[0]]))
      && (outcome.Done? ==>
            && Read(r, Split(attr) + below) == Read(o, Split(attr) + below)
            && Read(r, q) == Read(m, q)
            && Affected(UndoEntries(r), Split(attr)) == {})
  {
    hide Lookup, Split, Affected, Restored, Diverges, ModifiedAll, Harmless, Cloneable, Walk, Modified;
    NotedFirst(ty, o, attr, x);
    NotedThroughout(ty, Modified(ty, o, attr, x).0, attr, Read(o, Split(attr)), writes);
    UndoOfPlace(ty, o, attr, x, writes, below, q);
  }

  lemma WriteFieldTwice(v: Value, path: Path, x: Value, y: Value)
    requires path != [] && WriteField(v, path, x).Some?
    ensures WriteField(WriteField(v, path, x).value, path, y) == WriteField(v, path, y)
  {
    WriteTwice(if IsEmpty(v) then map[] else v.entries, path, x, y);
  }

  lemma {:induction false} OnlyThisAttribute(
      ty: ObjectType, o: Obj, attr: string, was: Value, writes: seq<(string, Value)>)
    requires WellTyped(ty, o) && |Split(attr)| > 1 && Split(attr)[0] in o.fields
    requires forall k :: 0 <= k < |writes| ==> writes[k].0 == attr
    ensures var m := ModifiedAll(ty, o, writes); var tokens := Split(attr); var f := tokens[0];
      && m.fields == o.fields[f := m.fields[f]]
      && WriteField(m.fields[f], tokens[1..], was) == WriteField(o.fields[f], tokens[1..], was)
    decreases |writes|
  {
    hide WriteField, Replaced, Split;
    if writes == [] {
      assert o.fields[Split(attr)[0] := o.fields[Split(attr)[0]]] == o.fields;
    } else {
      var x := writes[0].1;
      var tokens := Split(attr);
      var v := o.fields[tokens[0]];
      if WriteField(v, tokens[1..], x).Some? {
        WriteFieldTwice(v, tokens[1..], x, was);
      }
      OnlyThisAttribute(ty, Modified(ty, o, attr, x).0, attr, was, writes[1..]);
    }
  }

  lemma ModifiedAllFirst(ty: ObjectType, o: Obj, w: (string, Value), writes: seq<(string, Value)>)
    requires WellTyped(ty, o)
    ensures ModifiedAll(ty, o, [w] + writes) == ModifiedAll(ty, Modified(ty, o, w.0, w.1).0, writes)
  {
    hide Modified;
    assert ([w] + writes)[1..] == writes;
  }

  /** If all writes are to the one attribute, of any values, the restore succeeds exactly if the
      field can be cloned. The fields are then the original ones exactly if there was no undo
      entry below the attribute and the attribute existed; in the first case they are at least
      as if the first value had been written back to the untouched object. */
  lemma UndoOfScalarIsExact(ty: ObjectType, o: Obj, attr: string, x: Value, writes: seq<(string, Value)>)
    requires WellTyped(ty, o) && |Split(attr)| > 1
    requires Modified(ty, o, attr, x).1.Done? && ty[Split(attr)[0]].isConfig
    requires Affected(UndoEntries(o), Split(attr)) == {} && !Read(o, Split(attr)).Dictionary?
    requires forall k :: 0 <= k < |writes| ==> writes[k].0 == attr
    ensures var m := ModifiedAll(ty, Modified(ty, o, attr, x).0, writes); var (r, outcome) := Restored(ty, m, attr);
      var tokens := Split(attr); var v := o.fields[tokens[0]];
      var alone := Affected(UndoEntries(m), tokens) == {attr};
      && (outcome.Done? <==> Cloneable(m.fields[tokens[0]]))
      && tokens[0] in r.fields
      && (outcome.Done? && alone ==>
            && Some(r.fields[tokens[0]]) == WriteField(v, tokens[1..], Lookup(v, tokens[1..]))
            && r.fields == o.fields[tokens[0] := r.fields[tokens[0]]])
      && (outcome.Done? ==> (r.fields == o.fields <==> alone && v.Dictionary? && Present(v.entries, tokens[1..])))
  {
    hide Lookup, Write, Split, Affected, Restored, Present, ModifiedAll, Cloneable, Walk, Modified, NotAbove, IsPrefix;
    var tokens := Split(attr);
    ModifiedDone(ty, o, attr, x);
    var m := ModifiedAll(ty, Modified(ty, o, attr, x).0, writes);
    SameIsNotAbove(attr, writes);
    UndoSucceeds(ty, o, attr, x, writes);
    FirstIsNoted(ty, o, attr, x);
    UndoEntriesKeptThroughout(ty, Modified(ty, o, attr, x).0, attr, writes);
    if Restored(ty, m, attr).1.Done? {
      if Affected(m.undo.value, tokens) == {attr} {
        RestoredAlone(ty, m, attr);
        UndoneToFirst(ty, o, attr, x, writes);
      } else {
        RestoredBelow(ty, m, attr);
      }
    } else {
      RestoredUncloneable(ty, m, attr);
    }
  }

  lemma SameIsNotAbove(attr: string, writes: seq<(string, Value)>)
    requires forall k :: 0 <= k < |writes| ==> writes[k].0 == attr
    ensures forall k :: 0 <= k < |writes| ==> NotAbove(attr, writes[k])
  {
  }

  lemma UndoneToFirst(ty: ObjectType, o: Obj, attr: string, x: Value, writes: seq<(string, Value)>)
    requires WellTyped(ty, o) && |Split(attr)| > 1 && Modified(ty, o, attr, x).1.Done?
    requires forall k :: 0 <= k < |writes| ==> writes[k].0 == attr
    ensures var tokens := Split(attr); var f := tokens[0];
      var m := ModifiedAll(ty, Modified(ty, o, attr, x).0, writes);
      f in ty && var v := o.fields[f]; var was := Lookup(v, tokens[1..]); var w := WriteField(v, tokens[1..], was);
      && w.Some? && WriteField(m.fields[f], tokens[1..], was) == w
      && m.fields[f := w.value] == o.fields[f := w.value]
      && (o.fields[f := w.value] == o.fields <==> v.Dictionary? && Present(v.entries, tokens[1..]))
  {
    hide Lookup, Write, Split, Present, ModifiedAll, Modified;
    var tokens := Split(attr);
    ModifiedDone(ty, o, attr, x);
    ModifiedAllFirst(ty, o, (attr, x), writes);
    var v := o.fields[tokens[0]];
    var was := Lookup(v, tokens[1..]);
    OnlyThisAttribute(ty, o, attr, was, [(attr, x)] + writes);
    WriteFieldAny(v, tokens[1..], x, was);
    if v.Dictionary? && Present(v.entries, tokens[1..]) {
      WriteBack(v.entries, tokens[1..]);
      assert o.fields[tokens[0] := v] == o.fields;
    } else {
      WriteFieldPresent(v, tokens[1..], was);
    }
  }

  /** Whether a place can be written does not depend on the value. */
  lemma WriteFieldAny(v: Value, path: Path, x: Value, y: Value)
    requires path != [] && WriteField(v, path, x).Some?
    ensures WriteField(v, path, y).Some?
  {
    WriteAny(if IsEmpty(v) then map[] else v.entries, path, x, y);
  }

  lemma {:induction false} WriteAny(d: Entries, path: Path, x: Value, y: Value)
    requires path != [] && Write(d, path, x).Some?
    ensures Write(d, path, y).Some?
    decreases |path|
  {
    if |path| > 1 {
      WriteAny(Child(d, path[0]).entries, path[1..], x, y);
    }
  }

  lemma WriteFieldPresent(v: Value, path: Path, x: Value)
    requires path != [] && WriteField(v, path, x).Some?
    ensures var w := WriteField(v, path, x).value; w.Dictionary? && Present(w.entries, path)
  {
    WritePresent(if IsEmpty(v) then map[] else v.entries, path, x);
  }

  lemma {:induction false} WritePresent(d: Entries, path: Path, x: Value)
    requires path != [] && Write(d, path, x).Some?
    ensures Present(Write(d, path, x).value, path)
    decreases |path|
  {
    if |path| > 1 {
      WritePresent(Child(d, path[0]).entries, path[1..], x);
    }
  }

  // ---- undoing one modification of a place that held a dictionary ----

  function EntriesOf(v: Value): Entries {
    if v.Dictionary? then v.entries else map[]
  }

  lemma ForceUnder(e: Entries, path: Path, rest: Path, z: Value)
    requires |path| > 1 && rest != [] && path[0] in e && e[path[0]].Dictionary?
    ensures Force(e, path + rest, z) == e[path[0] := Dictionary(Force(e[path[0]].entries, path[1..] + rest, z))]
  {
    assert (path + rest)[1..] == path[1..] + rest;
  }

  lemma ForceAt(e: Entries, key: string, rest: Path, z: Value)
    requires rest != [] && key in e
    ensures Force(e, [key] + rest, z) == e[key := Dictionary(Force(EntriesOf(e[key]), rest, z))]
  {
    assert ([key] + rest)[1..] == rest;
  }

  lemma WriteHere(d: Entries, k: string, x: Value)
    ensures Write(d, [k], x) == Some(d[k := x])
  {
  }

  lemma SetAgain(d: Entries, k: string, x: Value, y: Value)
    ensures d[k := x][k := y] == d[k := y]
  {
  }

  lemma WriteUnderAgain(d: Entries, path: Path, y: Value, w: Value)
    requires |path| > 1 && Write(d, path, y).Some?
    ensures Child(d, path[0]).Dictionary?
    ensures var sub := Child(d, path[0]).entries; var e := Write(d, path, y).value;
      && Write(sub, path[1..], y).Some? && path[0] in e
      && e[path[0]] == Dictionary(Write(sub, path[1..], y).value)
      && Write(d, path, w) == match Write(sub, path[1..], w)
           case None => None
           case Some(e') => Some(e[path[0] := Dictionary(e')])
  {
    var sub := Child(d, path[0]).entries;
    if Write(sub, path[1..], w).Some? {
      var e' := Dictionary(Write(sub, path[1..], w).value);
      assert Write(d, path, y).value[path[0] := e'] == d[path[0] := e'];
    }
  }

  /** Forcing a value below a written place is writing the place with that value forced in. */
  lemma {:induction false} ForceBelowWrite(d: Entries, path: Path, y: Value, rest: Path, z: Value)
    requires path != [] && rest != [] && Write(d, path, y).Some?
    ensures Write(d, path, Dictionary(Force(EntriesOf(y), rest, z))) ==
      Some(Force(Write(d, path, y).value, path + rest, z))
    decreases |path|
  {
    hide Force, Write, Child, EntriesOf;
    var e := Write(d, path, y).value;
    var w := Dictionary(Force(EntriesOf(y), rest, z));
    if |path| == 1 {
      assert path == [path[0]];
      WriteHere(d, path[0], y);
      WriteHere(d, path[0], w);
      ForceAt(e, path[0], rest, z);
      SetAgain(d, path[0], y, w);
    } else {
      WriteUnderAgain(d, path, y, w);
      ForceBelowWrite(Child(d, path[0]).entries, path[1..], y, rest, z);
      ForceUnder(e, path, rest, z);
    }
  }

  /** The undo entries for the place `attr`, put back one by one into a value. */
  function PutBack(attr: string, y: Value, undo: Entries, ks: seq<string>): Value
    requires forall i :: 0 <= i < |ks| ==> ks[i] in undo && IsEntryOf(attr, ks[i])
    decreases |ks|
  {
    if ks == [] then y
    else
      assert IsEntryOf(attr, ks[0]);
      PutBack(attr, Dictionary(Force(EntriesOf(y), Split(ks[0][|attr| + 1..]), undo[ks[0]])), undo, ks[1..])
  }

  /** The key is the name of an entry of the attribute. */
  predicate IsEntryOf(attr: string, key: string) {
    |key| > |attr| && key == EntryName(attr, key[|attr| + 1..])
  }

  predicate IsDotFreeEntryOf(attr: string, key: string) {
    IsEntryOf(attr, key) && DotFree(key[|attr| + 1..])
  }

  lemma EntryTokens(attr: string, key: string)
    requires IsEntryOf(attr, key)
    ensures |key| > |attr| && Split(key) == Split(attr) + Split(key[|attr| + 1..])
  {
    SplitAppend(attr, key[|attr| + 1..]);
    hide Split;
  }

  lemma {:induction false} RestoreAllPutsBack(
      attr: string, d: Entries, y: Value, undo: Entries, ks: seq<string>)
    requires |Split(attr)| > 1 && Write(d, Split(attr)[1..], y).Some?
    requires forall i :: 0 <= i < |ks| ==> ks[i] in undo && IsEntryOf(attr, ks[i]) && |Split(ks[i])| > 1
    ensures Write(d, Split(attr)[1..], PutBack(attr, y, undo, ks)) ==
      Some(RestoreAll(Write(d, Split(attr)[1..], y).value, undo, ks))
    decreases |ks|
  {
    hide IsEntryOf, EntryName, Split, Write, Force;
    if ks != [] {
      EntryTokens(attr, ks[0]);
      var path := Split(attr)[1..];
      var rest := Split(ks[0][|attr| + 1..]);
      assert (Split(attr) + rest)[1..] == path + rest;
      ForceBelowWrite(d, path, y, rest, undo[ks[0]]);
      var y' := Dictionary(Force(EntriesOf(y), rest, undo[ks[0]]));
      RestoreAllPutsBack(attr, d, y', undo, ks[1..]);
    }
  }

  predicate SameEntry(a: Value, b: Value, k: string) {
    if k in EntriesOf(a) then k in EntriesOf(b) && EntriesOf(a)[k] == EntriesOf(b)[k] else k !in EntriesOf(b)
  }

  lemma {:induction false} FirstTokenDotFree(s: string)
    ensures DotFree(Split(s)[0])
  {
    if s != [] {
      FirstTokenDotFree(s[1..]);
    }
  }

  /** Putting back never reaches an entry whose key contains a dot. */
  lemma {:induction false} PutBackDotted(attr: string, y: Value, undo: Entries, ks: seq<string>, k: string)
    requires forall i :: 0 <= i < |ks| ==> ks[i] in undo && IsEntryOf(attr, ks[i])
    requires !DotFree(k)
    ensures SameEntry(PutBack(attr, y, undo, ks), y, k)
    decreases |ks|
  {
    if ks != [] {
      assert IsEntryOf(attr, ks[0]);
      hide EntryName, Split, IsEntryOf, DotFree;
      var rest := Split(ks[0][|attr| + 1..]);
      FirstTokenDotFree(ks[0][|attr| + 1..]);
      var y' := Dictionary(Force(EntriesOf(y), rest, undo[ks[0]]));
      PutBackDotted(attr, y', undo, ks[1..], k);
      assert SameEntry(y', y, k);
    }
  }

  /** Putting back leaves an entry for the first token of every key. */
  lemma {:induction false} PutBackFirst(attr: string, y: Value, undo: Entries, ks: seq<string>, k: string)
    requires forall i :: 0 <= i < |ks| ==> ks[i] in undo && IsEntryOf(attr, ks[i])
    ensures k in EntriesOf(y) ==> k in EntriesOf(PutBack(attr, y, undo, ks))
    ensures forall i :: 0 <= i < |ks| && |ks[i]| > |attr| && Split(ks[i][|attr| + 1..])[0] == k ==>
      k in EntriesOf(PutBack(attr, y, undo, ks))
    decreases |ks|
  {
    if ks != [] {
      assert IsEntryOf(attr, ks[0]);
      hide EntryName, Split, IsEntryOf;
      var rest := Split(ks[0][|attr| + 1..]);
      var y' := Dictionary(Force(EntriesOf(y), rest, undo[ks[0]]));
      PutBackFirst(attr, y', undo, ks[1..], k);
      forall i | 0 <= i < |ks| && |ks[i]| > |attr| && Split(ks[i][|attr| + 1..])[0] == k
        ensures k in EntriesOf(PutBack(attr, y, undo, ks))
      {
        if i > 0 {
          assert ks[i] == ks[1..][i - 1];
        }
      }
    }
  }

  /** What putting back does to the entry `k`. */
  lemma {:induction false} PutBackEntry(attr: string, y: Value, undo: Entries, ks: seq<string>, k: string)
    requires forall i :: 0 <= i < |ks| ==> ks[i] in undo && IsEntryOf(attr, ks[i])
    requires forall i :: 0 <= i < |ks| ==> IsDotFreeEntryOf(attr, ks[i])
    ensures var r := PutBack(attr, y, undo, ks); var name := EntryName(attr, k);
      && (ks != [] ==> r.Dictionary?)
      && (k in EntriesOf(r) <==> name in ks || k in EntriesOf(y))
      && (name in ks ==> EntriesOf(r)[k] == undo[name])
      && (name !in ks && k in EntriesOf(y) ==> EntriesOf(r)[k] == EntriesOf(y)[k])
    decreases |ks|
  {
    if ks != [] {
      assert IsDotFreeEntryOf(attr, ks[0]);
      var k0 := ks[0][|attr| + 1..];
      SplitDotFree(k0);
      hide EntryName, Split, DotFree;
      var y' := Dictionary(EntriesOf(y)[k0 := undo[ks[0]]]);
      PutBackEntry(attr, y', undo, ks[1..], k);
      assert ks == [ks[0]] + ks[1..];
      assert EntryName(attr, k) == ks[0] <==> k == k0;
    }
  }

  predicate DotFreeKeys(v: Value) {
    v.Dictionary? ==> forall k :: k in v.entries ==> DotFree(k)
  }

  /** The undo entries of a replaced dictionary are its entries and those the new value adds. */
  lemma ReplacedEntry(attr: string, was: Value, x: Value, k: string)
    requires |Split(attr)| > 1 && was.Dictionary?
    ensures var r := Replaced(attr, was, x); var name := EntryName(attr, k);
      && (name in r <==> k in was.entries || k in EntriesOf(x))
      && (k in was.entries ==> r[name] == was.entries[k])
      && (k !in was.entries && k in EntriesOf(x) ==> r[name] == Empty)
  {
    hide Split, EntryName;
    assert forall ks :: EntryName(attr, k) in Below(attr, ks) <==> k in ks;
  }

  lemma ReplacedIsEntry(attr: string, was: Value, x: Value, key: string)
    requires |Split(attr)| > 1 && was.Dictionary?
    requires key in Replaced(attr, was, x)
    ensures IsEntryOf(attr, key)
    ensures DotFreeKeys(was) && DotFreeKeys(x) ==> IsDotFreeEntryOf(attr, key)
  {
    hide Split, EntryName;
  }

  /** What the restore puts in the place of a dictionary that `x` had replaced: the old
      entries, and `Empty` for those `x` had added; `x` itself if neither has any. */
  predicate IsPutBack(was: Value, x: Value, r: Value)
    requires was.Dictionary?
  {
    if was.entries.Keys + EntriesOf(x).Keys == {} then r == x
    else
      && r.Dictionary? && r.entries.Keys == was.entries.Keys + EntriesOf(x).Keys
      && forall k :: k in r.entries ==> r.entries[k] == if k in was.entries then was.entries[k] else Empty
  }

  /** `ks` names the undo entries that replacing `was` by `x` made. */
  ghost predicate NamesReplaced(attr: string, was: Value, x: Value, undo: Entries, ks: seq<string>) {
    && (forall key :: key in ks <==> key in Replaced(attr, was, x))
    && (forall key :: key in ks ==> key in undo && undo[key] == Replaced(attr, was, x)[key])
    && (forall i :: 0 <= i < |ks| ==> ks[i] in undo && IsEntryOf(attr, ks[i]))
  }

  lemma NamesAreEntries(attr: string, was: Value, x: Value, undo: Entries, ks: seq<string>)
    requires NamesReplaced(attr, was, x, undo, ks)
    ensures forall i :: 0 <= i < |ks| ==> ks[i] in undo && IsEntryOf(attr, ks[i])
  {
  }

  lemma PutBackReplacedEntry(attr: string, was: Value, x: Value, undo: Entries, ks: seq<string>, k: string)
    requires |Split(attr)| > 1 && was.Dictionary? && NamesReplaced(attr, was, x, undo, ks)
    requires DotFreeKeys(was) && DotFreeKeys(x)
    ensures var r := PutBack(attr, x, undo, ks);
      && (k in EntriesOf(r) <==> k in was.entries || k in EntriesOf(x))
      && (k in was.entries ==> EntriesOf(r)[k] == was.entries[k])
      && (k !in was.entries && k in EntriesOf(x) ==> EntriesOf(r)[k] == Empty)
      && (k in was.entries || k in EntriesOf(x) ==> r.Dictionary?)
  {
    hide IsEntryOf, Replaced, Split, EntryName, PutBack, IsDotFreeEntryOf, DotFreeKeys;
    forall i | 0 <= i < |ks| ensures IsDotFreeEntryOf(attr, ks[i]) {
      assert ks[i] in ks;
      ReplacedIsEntry(attr, was, x, ks[i]);
    }
    PutBackEntry(attr, x, undo, ks, k);
    ReplacedEntry(attr, was, x, k);
  }

  lemma HeadIn(ks: seq<string>)
    ensures ks != [] ==> ks[0] in ks
  {
  }

  lemma NothingReplaced(attr: string, was: Value, x: Value, undo: Entries, ks: seq<string>)
    requires |Split(attr)| > 1 && was.Dictionary? && NamesReplaced(attr, was, x, undo, ks)
    requires was.entries.Keys + EntriesOf(x).Keys == {}
    ensures ks == []
  {
    hide Split, EntryName, IsEntryOf;
    HeadIn(ks);
  }

  lemma PutBackReplaced(attr: string, was: Value, x: Value, undo: Entries, ks: seq<string>)
    requires |Split(attr)| > 1 && was.Dictionary? && NamesReplaced(attr, was, x, undo, ks)
    requires DotFreeKeys(was) && DotFreeKeys(x)
    ensures IsPutBack(was, x, PutBack(attr, x, undo, ks))
  {
    hide IsEntryOf, Replaced, Split, EntryName, DotFreeKeys;
    if was.entries.Keys + EntriesOf(x).Keys == {} {
      NothingReplaced(attr, was, x, undo, ks);
      hide NamesReplaced;
    } else {
      var r := PutBack(attr, x, undo, ks);
      hide PutBack, NamesReplaced;
      forall k
        ensures k in EntriesOf(r) <==> k in was.entries || k in EntriesOf(x)
        ensures k in was.entries ==> EntriesOf(r)[k] == was.entries[k]
        ensures k !in was.entries && k in EntriesOf(x) ==> EntriesOf(r)[k] == Empty
      {
        PutBackReplacedEntry(attr, was, x, undo, ks, k);
      }
      var k :| k in was.entries.Keys + EntriesOf(x).Keys;
      PutBackReplacedEntry(attr, was, x, undo, ks, k);
    }
  }

  lemma {:induction false} FoundIsPresent(d: Entries, path: Path)
    requires path != [] && !Lookup(Dictionary(d), path).Empty?
    ensures Present(d, path)
    decreases |path|
  {
    if |path| > 1 {
      assert d[path[0]].Dictionary?;
      FoundIsPresent(d[path[0]].entries, path[1..]);
    }
  }

  /** The modification is one the undo can be asked for: a dotted name of a configuration
      field without undo entries, holding a dictionary. */
  predicate ReplacesDictionary(ty: ObjectType, o: Obj, attr: string, x: Value) {
    var tokens := Split(attr);
    && WellTyped(ty, o) && |tokens| > 1
    && Modified(ty, o, attr, x).1.Done? && ty[tokens[0]].isConfig
    && Affected(UndoEntries(o), tokens) == {}
    && Read(o, tokens).Dictionary?
  }

  lemma ModifiedDictionary(ty: ObjectType, o: Obj, attr: string, x: Value)
    requires ReplacesDictionary(ty, o, attr, x)
    ensures var m := Modified(ty, o, attr, x).0; var tokens := Split(attr); var was := Read(o, tokens);
      && tokens[0] in ty && WellTyped(ty, m)
      && m.undo == Some(Replaced(attr, was, x) + UndoEntries(o))
      && o.fields[tokens[0]].Dictionary? && Cloneable(o.fields[tokens[0]])
      && Present(o.fields[tokens[0]].entries, tokens[1..])
      && var w := Write(o.fields[tokens[0]].entries, tokens[1..], x);
      w.Some? && m.fields == o.fields[tokens[0] := Dictionary(w.value)]
  {
    var tokens := Split(attr);
    FoundIsPresent(o.fields[tokens[0]].entries, tokens[1..]);
    hide Replaced, Write, Split, Present, Cloneable;
  }

  lemma ReplacedAffected(attr: string, was: Value, x: Value, undo: Entries)
    requires Affected(undo, Split(attr)) == {}
    ensures Affected(Replaced(attr, was, x) + undo, Split(attr)) == Replaced(attr, was, x).Keys
    ensures forall key :: key in Replaced(attr, was, x) ==> key !in undo
  {
    var replaced := Replaced(attr, was, x);
    forall key | key in replaced ensures key !in undo && IsPrefix(Split(attr), Split(key)) {
      ReplacedBelow(attr, was, x, key);
      assert key in undo ==> key in Affected(undo, Split(attr));
    }
    hide Replaced, IsPrefix, Split;
    assert forall key :: key in Affected(replaced + undo, Split(attr)) && key !in replaced ==>
      key in Affected(undo, Split(attr));
  }

  lemma ReplacedNames(attr: string, was: Value, x: Value, all: Entries, ks: seq<string>)
    requires |Split(attr)| > 1 && was.Dictionary?
    requires forall key :: key in Replaced(attr, was, x) ==> key in all && all[key] == Replaced(attr, was, x)[key]
    requires forall key :: key in ks <==> key in Replaced(attr, was, x)
    ensures NamesReplaced(attr, was, x, all, ks)
  {
    hide Split, IsEntryOf, Replaced, DotFreeKeys;
    forall i | 0 <= i < |ks| ensures ks[i] in all && IsEntryOf(attr, ks[i]) {
      assert ks[i] in ks;
      ReplacedIsEntry(attr, was, x, ks[i]);
    }
  }

  /** What the restore puts in the place of a dictionary: undo entries are found by splitting
      their names, so keys with dots stay what the new value made of them and instead there is
      an entry for their first token; if there are none, the old entries come back. */
  predicate IsRestored(was: Value, x: Value, r: Value)
    requires was.Dictionary?
  {
    && (DotFreeKeys(was) && DotFreeKeys(x) ==> IsPutBack(was, x, r))
    && (forall k | k in EntriesOf(r).Keys + EntriesOf(x).Keys :: DotFree(k) || SameEntry(r, x, k))
    && HasFirstTokens(was, x, r)
  }

  predicate HasFirstTokens(was: Value, x: Value, r: Value) {
    forall k | k in EntriesOf(was).Keys + EntriesOf(x).Keys :: Split(k)[0] in EntriesOf(r)
  }

  lemma PutBackRestores(attr: string, was: Value, x: Value, undo: Entries, ks: seq<string>)
    requires |Split(attr)| > 1 && was.Dictionary? && NamesReplaced(attr, was, x, undo, ks)
    ensures IsRestored(was, x, PutBack(attr, x, undo, ks))
  {
    hide Split, PutBack, IsEntryOf, DotFreeKeys, DotFree, SameEntry, IsPutBack, Replaced;
    if DotFreeKeys(was) && DotFreeKeys(x) {
      PutBackReplaced(attr, was, x, undo, ks);
    }
    forall k | !DotFree(k) ensures SameEntry(PutBack(attr, x, undo, ks), x, k) {
      PutBackDotted(attr, x, undo, ks, k);
    }
    forall k | k in EntriesOf(was).Keys + EntriesOf(x).Keys
      ensures Split(k)[0] in EntriesOf(PutBack(attr, x, undo, ks))
    {
      ReplacedEntry(attr, was, x, k);
      var i :| 0 <= i < |ks| && ks[i] == EntryName(attr, k);
      PutBackFirst(attr, x, undo, ks, Split(k)[0]);
    }
  }

  /** The walk of the restore succeeds, and what it does to the field is to write back what
      `IsRestored` says. */
  lemma DictionaryPutBack(attr: string, d: Entries, was: Value, x: Value, undo: Entries) returns (back: Value)
    requires |Split(attr)| > 1 && was.Dictionary?
    requires Affected(undo, Split(attr)) == {} && Write(d, Split(attr)[1..], x).Some?
    ensures IsRestored(was, x, back)
    ensures var path := Split(attr)[1..]; var all := Replaced(attr, was, x) + undo;
      var ks := SortedKeys(Affected(all, Split(attr)));
      && Walk(Dictionary(Write(d, path, x).value), path).Done?
      && (forall i :: 0 <= i < |ks| ==> ks[i] in all && |Split(ks[i])| > 1)
      && Write(d, path, back) == Some(RestoreAll(Write(d, path, x).value, all, ks))
  {
    ReplacedAffected(attr, was, x, undo);
    hide Replaced, IsPrefix, Split, SortedKeys, Affected, IsRestored, IsEntryOf, NamesReplaced;
    var all := Replaced(attr, was, x) + undo;
    var ks := SortedKeys(Affected(all, Split(attr)));
    ReplacedNames(attr, was, x, all, ks);
    NamesAreEntries(attr, was, x, all, ks);
    WriteWalk(d, Split(attr)[1..], x);
    forall i | 0 <= i < |ks| ensures ks[i] in all && |Split(ks[i])| > 1 {
      EntryTokens(attr, ks[i]);
    }
    hide Write, RestoreAll, PutBack, Walk, IsEntryOf;
    back := PutBack(attr, x, all, ks);
    PutBackRestores(attr, was, x, all, ks);
    RestoreAllPutsBack(attr, d, x, all, ks);
  }

  lemma {:induction false} WriteCloneable(d: Entries, path: Path, x: Value)
    requires path != [] && Write(d, path, x).Some? && Cloneable(Dictionary(d))
    ensures Cloneable(Dictionary(Write(d, path, x).value)) <==> Cloneable(x)
    decreases |path|
  {
    var e := Write(d, path, x).value;
    assert path[0] in e;
    if |path| > 1 {
      var sub := Child(d, path[0]);
      assert Cloneable(sub);
      WriteCloneable(sub.entries, path[1..], x);
    }
  }

  /** Restoring a dictionary that `x` has replaced succeeds exactly if `x` can be cloned, and
      then what `IsRestored` says is in its place, and nothing else has changed. */
  lemma RestoredDictionary(ty: ObjectType, o: Obj, attr: string, x: Value) returns (back: Value)
    requires ReplacesDictionary(ty, o, attr, x)
    ensures IsRestored(Read(o, Split(attr)), x, back)
    ensures var tokens := Split(attr); var d := o.fields[tokens[0]].entries;
      var (r, outcome) := Restored(ty, Modified(ty, o, attr, x).0, attr);
      && (outcome.Done? <==> Cloneable(x))
      && Write(d, tokens[1..], back).Some?
      && (outcome.Done? ==>
            && r.fields == o.fields[tokens[0] := Dictionary(Write(d, tokens[1..], back).value)]
            && Affected(UndoEntries(r), tokens) == {})
  {
    hide Modified, Replaced, IsPrefix, Split, Present, Write, RestoreAll, Walk, SortedKeys, IsRestored, Lookup,
      Affected, Restored, Cloneable;
    var tokens := Split(attr);
    var was := Read(o, tokens);
    var m := Modified(ty, o, attr, x).0;
    ModifiedDictionary(ty, o, attr, x);
    var d := o.fields[tokens[0]].entries;
    back := DictionaryPutBack(attr, d, was, x, UndoEntries(o));
    WriteCloneable(d, tokens[1..], x);
    if Cloneable(x) {
      RestoredNested(ty, m, attr);
      AffectedMinus(m.undo.value, tokens, Affected(m.undo.value, tokens));
    } else {
      RestoredUncloneable(ty, m, attr);
    }
  }

  /** Which dictionaries come back. */
  lemma RestoredIsSame(was: Value, x: Value, back: Value)
    requires was.Dictionary? && IsRestored(was, x, back)
    ensures DotFreeKeys(x) ==>
      (back == was <==>
         DotFreeKeys(was) && if x.Dictionary? then x.entries.Keys <= was.entries.Keys else was.entries != map[])
    ensures back == was ==> forall k :: DotFree(k) || SameEntry(was, x, k)
  {
    hide DotFree, Split, HasFirstTokens;
    if !DotFreeKeys(was) && DotFreeKeys(x) {
      var k :| k in was.entries && !DotFree(k);
      assert back == was ==> SameEntry(back, x, k);
    } else if DotFreeKeys(was) && DotFreeKeys(x) {
      assert IsPutBack(was, x, back);
      assert was.entries.Keys == {} ==> was.entries == map[];
      if x.Dictionary? && x.entries.Keys <= was.entries.Keys {
        assert was.entries.Keys + x.entries.Keys == was.entries.Keys;
        assert x.entries.Keys == {} ==> x.entries == map[];
      }
    }
  }

  lemma RestoredHasFirst(was: Value, x: Value, back: Value)
    requires was.Dictionary? && IsRestored(was, x, back)
    ensures forall k :: k in was.entries || k in EntriesOf(x) ==> Split(k)[0] in EntriesOf(back)
  {
    hide DotFree, Split, SameEntry, DotFreeKeys, IsPutBack;
  }

  /** One write over a dictionary and one restore leave the original fields, for a new value
      without dots in its keys, exactly if the old dictionary had none either and, if the new
      value is a dictionary, it added no keys, otherwise the old one was not empty. In any
      case entries whose keys contain dots never come back unless the new value has them, too,
      and what stands before the first dot of a key must have been a key itself. */
  lemma UndoOfDictionaryIsExact(ty: ObjectType, o: Obj, attr: string, x: Value)
    requires ReplacesDictionary(ty, o, attr, x)
    ensures var (r, outcome) := Restored(ty, Modified(ty, o, attr, x).0, attr);
      var was := Read(o, Split(attr));
      && (outcome.Done? <==> Cloneable(x))
      && (outcome.Done? && DotFreeKeys(x) ==>
            (r.fields == o.fields <==>
               DotFreeKeys(was) && if x.Dictionary? then x.entries.Keys <= was.entries.Keys else was.entries != map[]))
      && (outcome.Done? && r.fields == o.fields ==>
            && (forall k :: DotFree(k) || SameEntry(was, x, k))
            && forall k :: k in was.entries || k in EntriesOf(x) ==> Split(k)[0] in was.entries)
  {
    hide Modified, Restored, Split, Write, IsRestored, Affected, DotFreeKeys, Present, Lookup, DotFree, SameEntry,
      Cloneable;
    var tokens := Split(attr);
    var was := Read(o, tokens);
    ModifiedDictionary(ty, o, attr, x);
    var back := RestoredDictionary(ty, o, attr, x);
    RestoredIsSame(was, x, back);
    RestoredHasFirst(was, x, back);
    WriteIsSame(o.fields, tokens, back);
  }

  /** That the new value has the same dotted keys is not enough: a dictionary with one such key,
      replaced by itself and restored, has got one more entry. */
  lemma RewrittenDottedKey(ty: ObjectType, o: Obj, attr: string, k: string, w: Value)
    requires var x := Dictionary(map[k := w]); ReplacesDictionary(ty, o, attr, x) && Read(o, Split(attr)) == x
    requires !DotFree(k) && Cloneable(w)
    ensures var m := Modified(ty, o, attr, Dictionary(map[k := w])).0; var (r, outcome) := Restored(ty, m, attr);
      m.fields == o.fields && outcome.Done? && r.fields != o.fields
  {
    hide Modified, Restored, Split, Write, Affected, DotFreeKeys, Present, Lookup, DotFree, SameEntry, Cloneable;
    var x := Dictionary(map[k := w]);
    var tokens := Split(attr);
    ModifiedDictionary(ty, o, attr, x);
    WriteIsSame(o.fields, tokens, x);
    SingleCloneable(k, w);
    UndoOfDictionaryIsExact(ty, o, attr, x);
    FirstTokenDotFree(k);
    assert k in x.entries;
  }

  lemma WriteIsSame(fields: Entries, tokens: Path, back: Value)
    requires |tokens| > 1 && tokens[0] in fields && fields[tokens[0]].Dictionary?
    requires Present(fields[tokens[0]].entries, tokens[1..])
    requires Write(fields[tokens[0]].entries, tokens[1..], back).Some?
    ensures fields[tokens[0] := Dictionary(Write(fields[tokens[0]].entries, tokens[1..], back).value)] == fields <==>
      back == Lookup(fields[tokens[0]], tokens[1..])
  {
    hide Write, Present;
    var d := fields[tokens[0]].entries;
    var path := tokens[1..];
    var e := Write(d, path, back).value;
    ReadWritten(d, path, back, []);
    assert path + [] == path;
    LookupHere(back);
    WriteBack(d, path);
    assert fields[tokens[0] := Dictionary(d)] == fields;
    if fields[tokens[0] := Dictionary(e)] == fields {
      assert fields[tokens[0] := Dictionary(e)][tokens[0]] == Dictionary(e);
    }
  }

  /** What a place shows: nothing if it holds nothing, an empty value or a dictionary. */
  function Shown(v: Value, path: Path): Value {
    var x := Lookup(v, path);
    if x.Dictionary? || IsEmpty(x) then Empty else x
  }

  /** Whether the old dictionary and what was put back show the same below the place. */
  lemma PutBackShows(was: Value, x: Value, back: Value)
    requires was.Dictionary? && IsPutBack(was, x, back)
    ensures (forall below :: Shown(back, below) == Shown(was, below)) <==>
      was.entries != map[] || x.Dictionary? || IsEmpty(x)
  {
    if was.entries == map[] && !x.Dictionary? && !IsEmpty(x) {
      assert Shown(back, []) != Shown(was, []);
    } else {
      forall below ensures Shown(back, below) == Shown(was, below) {
        if below != [] && back.Dictionary? && below[0] in back.entries && below[0] !in was.entries {
          assert Lookup(Empty, below[1..]) == Empty;
        }
      }
    }
  }

  /** Two places diverge, or one is at or below the other. */
  lemma {:induction false} Compare(p: Path, q: Path)
    ensures Diverges(p, q) || (exists below :: q == p + below) || (|q| < |p| && IsPrefix(q, p))
    decreases |p|
  {
    if p == [] {
      assert q == p + q;
    } else if q != [] && p[0] == q[0] {
      Compare(p[1..], q[1..]);
      if below :| q[1..] == p[1..] + below {
        assert q == p + below;
      } else if IsPrefix(q[1..], p[1..]) {
        PrefixTail(q, p);
      }
    } else {
      assert q == [] ==> p[..|q|] == q;
    }
  }

  /** On the way to a place that can be walked to there are only dictionaries. */
  lemma {:induction false} DictionariesAbove(v: Value, path: Path, q: Path)
    requires path != [] && Walk(v, path).Done? && |q| < |path| && IsPrefix(q, path)
    ensures Lookup(v, q).Dictionary?
    decreases |path|
  {
    if q != [] {
      PrefixTail(q, path);
      DictionariesAbove(v.entries[path[0]], path[1..], q[1..]);
    }
  }

  lemma WriteShows(d: Entries, path: Path, back: Value, rest: Path)
    requires path != [] && Present(d, path) && Lookup(Dictionary(d), path).Dictionary?
    requires Write(d, path, back).Some?
    requires forall below :: Shown(back, below) == Shown(Lookup(Dictionary(d), path), below)
    ensures Shown(Dictionary(Write(d, path, back).value), rest) == Shown(Dictionary(d), rest)
  {
    hide Lookup, Write, Walk, Present, Diverges, IsPrefix;
    var e := Write(d, path, back).value;
    Compare(path, rest);
    if Diverges(path, rest) {
      ReadElsewhere(d, path, back, rest);
    } else if below :| rest == path + below {
      ReadWritten(d, path, back, below);
      LookupBelow(Dictionary(d), path, below);
      assert Shown(back, below) == Shown(Lookup(Dictionary(d), path), below);
    } else {
      WriteBack(d, path);
      WriteWalk(d, path, Lookup(Dictionary(d), path));
      WriteWalk(d, path, back);
      DictionariesAbove(Dictionary(d), path, rest);
      DictionariesAbove(Dictionary(e), path, rest);
    }
  }

  /** What reading the attribute shows. */
  function ShownAt(o: Obj, q: Path): Value
    requires q != []
  {
    if q[0] in o.fields then Shown(o.fields[q[0]], q[1..]) else Empty
  }

  ghost predicate SameShown(o: Obj, r: Obj) {
    forall q: Path :: q != [] ==> ShownAt(r, q) == ShownAt(o, q)
  }

  lemma SameShownIff(o: Obj, r: Obj, tokens: Path, was: Value, back: Value)
    requires |tokens| > 1 && tokens[0] in o.fields && o.fields[tokens[0]].Dictionary?
    requires var d := o.fields[tokens[0]].entries;
      && Present(d, tokens[1..]) && Lookup(Dictionary(d), tokens[1..]) == was && was.Dictionary?
      && Write(d, tokens[1..], back).Some?
      && r.fields == o.fields[tokens[0] := Dictionary(Write(d, tokens[1..], back).value)]
    ensures SameShown(o, r) <==> forall below :: Shown(back, below) == Shown(was, below)
  {
    hide Write, Present, Shown;
    var d := o.fields[tokens[0]].entries;
    if forall below :: Shown(back, below) == Shown(was, below) {
      forall q: Path | q != [] ensures ShownAt(r, q) == ShownAt(o, q) {
        if q[0] == tokens[0] {
          WriteShows(d, tokens[1..], back, q[1..]);
        }
      }
    }
    if SameShown(o, r) {
      forall below ensures Shown(back, below) == Shown(was, below) {
        SameShownBelow(o, r, tokens, was, back, below);
      }
    }
  }

  lemma SameShownBelow(o: Obj, r: Obj, tokens: Path, was: Value, back: Value, below: Path)
    requires |tokens| > 1 && tokens[0] in o.fields && o.fields[tokens[0]].Dictionary?
    requires var d := o.fields[tokens[0]].entries;
      && Lookup(Dictionary(d), tokens[1..]) == was
      && Write(d, tokens[1..], back).Some?
      && r.fields == o.fields[tokens[0] := Dictionary(Write(d, tokens[1..], back).value)]
    requires SameShown(o, r)
    ensures Shown(back, below) == Shown(was, below)
  {
    hide Write, Lookup;
    var d := o.fields[tokens[0]].entries;
    ReadWritten(d, tokens[1..], back, below);
    LookupBelow(Dictionary(d), tokens[1..], below);
    var q := tokens + below;
    assert q[1..] == tokens[1..] + below;
    assert ShownAt(r, q) == ShownAt(o, q);
  }

  /** One write over a dictionary and one restore: every place shows what it showed before,
      exactly if the old dictionary had an entry or the new value is a dictionary or empty;
      an empty dictionary leaves no undo entry for a scalar that replaces it. */
  lemma UndoOfDictionary(ty: ObjectType, o: Obj, attr: string, x: Value)
    requires ReplacesDictionary(ty, o, attr, x) && DotFreeKeys(Read(o, Split(attr))) && DotFreeKeys(x)
    ensures var (r, outcome) := Restored(ty, Modified(ty, o, attr, x).0, attr);
      var was := Read(o, Split(attr));
      && (outcome.Done? <==> Cloneable(x))
      && (outcome.Done? ==>
            && Affected(UndoEntries(r), Split(attr)) == {}
            && (SameShown(o, r) <==> was.entries != map[] || x.Dictionary? || IsEmpty(x)))
  {
    hide Modified, Restored, Split, Write, Shown, SameShown, IsPutBack, Affected, DotFreeKeys, Present, Lookup,
      Cloneable;
    var tokens := Split(attr);
    var was := Read(o, tokens);
    ModifiedDictionary(ty, o, attr, x);
    var back := RestoredDictionary(ty, o, attr, x);
    var (r, outcome) := Restored(ty, Modified(ty, o, attr, x).0, attr);
    PutBackShows(was, x, back);
    if outcome.Done? {
      SameShownIff(o, r, tokens, was, back);
    }
  }

  // ---- undoing modifications of a whole field ----

  /** After a field has been replaced, any writes whatsoever and one restore of the field give
      it back its value. Undo entries made below the field by then are left behind. */
  lemma UndoOfField(ty: ObjectType, o: Obj, attr: string, x: Value, writes: seq<(string, Value)>)
    requires WellTyped(ty, o) && Split(attr) == [attr]
    requires Modified(ty, o, attr, x).1.Done? && ty[attr].isConfig && attr !in UndoEntries(o)
    ensures var m := ModifiedAll(ty, Modified(ty, o, attr, x).0, writes); var (r, outcome) := Restored(ty, m, attr);
      && outcome.Done? && r.fields == m.fields[attr := o.fields[attr]]
      && Affected(UndoEntries(r), [attr]) == Affected(UndoEntries(m), [attr]) - {attr}
      && (Affected(UndoEntries(r), [attr]) == {} <==> Affected(UndoEntries(m), [attr]) == {attr})
  {
    hide ModifiedAll, WriteField, Affected;
    var m1 := Modified(ty, o, attr, x).0;
    assert Read(o, [attr]) == o.fields[attr];
    UndoEntriesKeptThroughout(ty, m1, attr, writes);
    var m := ModifiedAll(ty, m1, writes);
    AffectedMinus(m.undo.value, [attr], {attr});
    OwnEntryAffected(m.undo.value, attr);
  }

  lemma OwnEntryAffected(undo: Entries, attr: string)
    requires Split(attr) == [attr] && attr in undo
    ensures attr in Affected(undo, [attr])
  {
  }

  /** The shortest history that leaves such an entry: the field is replaced by a dictionary,
      an entry of that is modified, and the field is restored. The fields are the original
      ones, but restoring the entry afterwards puts the replaced dictionary's value into the
      original one. */
  lemma RestoredFieldKeepsEntries(ty: ObjectType, o: Obj, f: string, k: string, w: Value, y: Value)
    requires WellTyped(ty, o) && DotFree(f) && DotFree(k) && UndoEntries(o) == map[]
    requires f in ty && ty[f].isConfig && !ty[f].noUserModify
    requires o.fields[f].Dictionary? && Cloneable(o.fields[f]) && Cloneable(w) && !w.Dictionary?
    ensures var name := EntryName(f, k);
      var m := Modified(ty, Modified(ty, o, f, Dictionary(map[k := w])).0, name, y).0;
      var r := Restored(ty, m, f).0;
      && r == Obj(o.fields, Some(map[name := w]))
      && Restored(ty, r, name) ==
           (Obj(o.fields[f := Dictionary(o.fields[f].entries[k := w])], Some(map[])), Done)
  {
    hide Split, EntryName, Modified, Cloneable, Restored;
    var name := EntryName(f, k);
    EntryNameTokens(f, k);
    SplitDotFree(f);
    assert [f] + [k] == [f, k];
    FieldThenEntry(ty, o, f, k, w, y, name);
    var m := Modified(ty, Modified(ty, o, f, Dictionary(map[k := w])).0, name, y).0;
    RestoredField(ty, m, f);
    SetAgain(o.fields, f, Dictionary(map[k := y]), o.fields[f]);
    assert o.fields[f := o.fields[f]] == o.fields;
    NameIsShorter(f, k);
    assert m.undo.value - {f} == map[name := w];
    RestoredEntry(ty, Obj(o.fields, Some(map[name := w])), f, k, w, name);
  }

  lemma FieldThenEntry(ty: ObjectType, o: Obj, f: string, k: string, w: Value, y: Value, name: string)
    requires WellTyped(ty, o) && Split(f) == [f] && Split(name) == [f, k] && UndoEntries(o) == map[]
    requires f in ty && ty[f].isConfig && !ty[f].noUserModify && Cloneable(w) && !w.Dictionary?
    ensures var m1 := Modified(ty, o, f, Dictionary(map[k := w])).0;
      && WellTyped(ty, m1)
      && Modified(ty, m1, name, y).0 ==
           Obj(o.fields[f := Dictionary(map[k := y])], Some(map[name := w, f := o.fields[f]]))
  {
    hide Split, Modified, Cloneable, Replaced;
    var table := Dictionary(map[k := w]);
    ModifiedField(ty, o, f, table);
    var m1 := Modified(ty, o, f, table).0;
    SingleCloneable(k, w);
    ModifiedEntry(ty, m1, f, k, y, name);
    SetAgain(o.fields, f, table, Dictionary(map[k := y]));
    assert map[k := w][k := y] == map[k := y];
    assert map[name := w] + (map[f := o.fields[f]] + map[]) == map[name := w, f := o.fields[f]];
  }

  /** A place that held no dictionary, a dictionary written to it, and another value written over
      that: the undo entry for the dictionary's entry is put back after the place's own, so that
      restoring the place gives it the dictionary instead of what it was. */
  lemma PlaceBecomesDictionary(ty: ObjectType, o: Obj, f: string, a: string, k: string, s: Value, w: Value, y: Value)
    requires WellTyped(ty, o) && DotFree(f) && DotFree(a) && DotFree(k) && UndoEntries(o) == map[]
    requires f in ty && ty[f].isConfig && !ty[f].noUserModify && o.fields[f] == Dictionary(map[a := s])
    requires !s.Dictionary? && !y.Dictionary? && Cloneable(s) && Cloneable(w) && Cloneable(y)
    ensures var name := EntryName(f, a); var entry := EntryName(name, k);
      var m := Modified(ty, Modified(ty, o, name, Dictionary(map[k := w])).0, name, y).0;
      && m.undo == Some(map[name := s, entry := w])
      && Restored(ty, m, name) ==
           (Obj(o.fields[f := Dictionary(map[a := Dictionary(map[k := w])])], Some(map[])), Done)
  {
    hide Split, EntryName, Modified, Cloneable, Restored;
    var name := EntryName(f, a);
    var entry := EntryName(name, k);
    EntryNameTokens(f, a);
    EntryNameTokens(name, k);
    SplitDotFree(f);
    assert [f] + [a] == [f, a] && [f, a] + [k] == [f, a, k];
    TwoWrites(ty, o, f, a, k, s, w, y, name);
    var m := Modified(ty, Modified(ty, o, name, Dictionary(map[k := w])).0, name, y).0;
    SingleCloneable(a, y);
    RestoredTwo(ty, m, f, a, k, s, w, name, entry);
    SetAgain(o.fields, f, Dictionary(map[a := y]), Dictionary(map[a := Dictionary(map[k := w])]));
  }

  lemma EntryNameTokens(attr: string, k: string)
    requires DotFree(k)
    ensures Split(EntryName(attr, k)) == Split(attr) + [k]
  {
    SplitAppend(attr, k);
    SplitDotFree(k);
    hide Split;
  }

  lemma TwoWrites(ty: ObjectType, o: Obj, f: string, a: string, k: string, s: Value, w: Value, y: Value, name: string)
    requires WellTyped(ty, o) && Split(name) == [f, a] && UndoEntries(o) == map[]
    requires f in ty && ty[f].isConfig && !ty[f].noUserModify && o.fields[f] == Dictionary(map[a := s])
    requires !s.Dictionary? && !y.Dictionary? && Cloneable(s) && Cloneable(w)
    ensures var m1 := Modified(ty, o, name, Dictionary(map[k := w])).0;
      && WellTyped(ty, m1)
      && Modified(ty, m1, name, y).0 ==
           Obj(o.fields[f := Dictionary(map[a := y])], Some(map[name := s, EntryName(name, k) := w]))
  {
    hide Split, EntryName, Modified, Cloneable, Replaced;
    var table := Dictionary(map[k := w]);
    SingleCloneable(a, s);
    SingleCloneable(k, w);
    SingleCloneable(a, table);
    ModifiedEntry(ty, o, f, a, table, name);
    var m1 := Modified(ty, o, name, table).0;
    assert map[a := s][a := table] == map[a := table];
    assert map[name := s] + UndoEntries(o) == map[name := s];
    assert m1 == Obj(o.fields[f := Dictionary(map[a := table])], Some(map[name := s]));
    ReplacedTable(name, k, w, y);
    ModifiedEntry(ty, m1, f, a, y, name);
    SetAgain(o.fields, f, Dictionary(map[a := table]), Dictionary(map[a := y]));
    assert map[a := table][a := y] == map[a := y];
    NameIsShorter(name, k);
    assert map[EntryName(name, k) := w] + map[name := s] == map[name := s, EntryName(name, k) := w];
  }

  lemma NameIsShorter(attr: string, k: string)
    ensures EntryName(attr, k) != attr
  {
  }

  lemma ReplacedTable(attr: string, k: string, w: Value, y: Value)
    requires |Split(attr)| > 1 && !y.Dictionary?
    ensures Replaced(attr, Dictionary(map[k := w]), y) == map[EntryName(attr, k) := w]
  {
    hide Split, EntryName, Named;
    var none: Entries := map[];
    assert none[k := w] == map[k := w];
    NamedSnoc(attr, none, k, w);
    NamedNothing(attr);
  }

  lemma RestoredTwo(ty: ObjectType, m: Obj, f: string, a: string, k: string, s: Value, w: Value, name: string,
                    entry: string)
    requires WellTyped(ty, m) && Split(name) == [f, a] && Split(entry) == [f, a, k] && entry == EntryName(name, k)
    requires f in ty && m.undo == Some(map[name := s, entry := w]) && !s.Dictionary?
    requires m.fields[f].Dictionary? && m.fields[f].entries.Keys == {a} && Cloneable(m.fields[f])
    ensures Restored(ty, m, name) ==
      (Obj(m.fields[f := Dictionary(map[a := Dictionary(map[k := w])])], Some(map[])), Done)
  {
    hide Split, Cloneable, SortedKeys, Restored;
    var undo := m.undo.value;
    assert [f, a, k][..2] == [f, a];
    assert Affected(undo, [f, a]) == {name, entry};
    PrefixComesFirst(name, "." + k);
    assert name + "." + k == name + ("." + k);
    SortedPair(name, entry);
    assert [f, a][1..] == [a] && [f, a, k][1..] == [a, k] && [a, k][1..] == [k];
    RestoredNested(ty, m, name);
    RestoreTwo(m.fields[f].entries, undo, a, k, name, entry);
    assert undo - {name, entry} == map[];
  }

  lemma SortedPair(a: string, b: string)
    requires Lt(a, b)
    ensures SortedKeys({a, b}) == [a, b]
  {
    hide SortedKeys, Le;
    SortedUnique(SortedKeys({a, b}), [a, b]);
  }

  lemma RestoreTwo(d: Entries, undo: Entries, a: string, k: string, name: string, entry: string)
    requires name in undo && entry in undo && d.Keys == {a} && !undo[name].Dictionary?
    requires |Split(name)| > 1 && Split(name)[1..] == [a] && |Split(entry)| > 1 && Split(entry)[1..] == [a, k]
    ensures RestoreAll(d, undo, [name, entry]) == map[a := Dictionary(map[k := undo[entry]])]
  {
    hide Split;
    assert [name, entry][1..] == [entry] && [entry][1..] == [] && [a, k][1..] == [k];
    var d1 := d[a := undo[name]];
    assert Force(d, [a], undo[name]) == d1;
    assert RestoreAll(d, undo, [name, entry]) == RestoreAll(d1, undo, [entry]);
    var none: Entries := map[];
    assert Force(none, [k], undo[entry]) == map[k := undo[entry]];
    assert Force(d1, [a, k], undo[entry]) == d1[a := Dictionary(map[k := undo[entry]])];
    assert RestoreAll(d1, undo, [entry]) == Force(d1, [a, k], undo[entry]);
    assert d1[a := Dictionary(map[k := undo[entry]])] == map[a := Dictionary(map[k := undo[entry]])];
  }

  lemma SingleCloneable(k: string, w: Value)
    requires Cloneable(w)
    ensures Cloneable(Dictionary(map[k := w]))
  {
  }

  lemma ModifiedField(ty: ObjectType, o: Obj, f: string, x: Value)
    requires WellTyped(ty, o) && Split(f) == [f] && f in ty && ty[f].isConfig && !ty[f].noUserModify
    ensures Modified(ty, o, f, x) == (Obj(o.fields[f := x], Some(map[f := o.fields[f]] + UndoEntries(o))), Done)
  {
    hide Split;
    LookupHere(o.fields[f]);
  }

  /** Restoring a whole field puts its undo entry back; without one the field is emptied, as
      soon as there are undo entries of anything else. */
  lemma RestoredField(ty: ObjectType, m: Obj, f: string)
    requires WellTyped(ty, m) && Split(f) == [f] && f in ty && m.undo.Some?
    ensures Restored(ty, m, f) ==
      (Obj(m.fields[f := if f in m.undo.value then m.undo.value[f] else Empty], Some(m.undo.value - {f})), Done)
  {
    hide Split;
  }

  /** A field that was never modified is emptied by a restore after the first modification of
      another one. */
  lemma RestoreEmptiesField(ty: ObjectType, o: Obj, f: string, g: string, x: Value)
    requires WellTyped(ty, o) && DotFree(f) && DotFree(g) && f != g && UndoEntries(o) == map[]
    requires f in ty && g in ty && ty[g].isConfig && !ty[g].noUserModify
    ensures var m := Modified(ty, o, g, x).0; var (r, outcome) := Restored(ty, m, f);
      && m.fields[f] == o.fields[f]
      && outcome.Done? && r.fields == o.fields[g := x][f := Empty] && UndoEntries(r) == UndoEntries(m)
  {
    SplitDotFree(f);
    SplitDotFree(g);
    hide Split, Modified, Restored;
    ModifiedField(ty, o, g, x);
    RestoredField(ty, Modified(ty, o, g, x).0, f);
    assert map[g := o.fields[g]] - {f} == map[g := o.fields[g]];
  }

  /** Restoring a place without undo entries at or below it leaves the fields alone. */
  lemma RestoredNothing(ty: ObjectType, m: Obj, attr: string)
    requires WellTyped(ty, m) && m.undo.Some? && |Split(attr)| > 1 && Split(attr)[0] in ty
    requires Restored(ty, m, attr).1.Done? && Affected(m.undo.value, Split(attr)) == {}
    ensures Restored(ty, m, attr).0.fields == m.fields && UndoEntries(Restored(ty, m, attr).0) == m.undo.value
  {
    hide Split, Walk, Cloneable, Affected, Restored;
    var f := Split(attr)[0];
    RestoredOutcome(ty, m, attr);
    RestoredNested(ty, m, attr);
    var ks := SortedKeys(Affected(m.undo.value, Split(attr)));
    assert ks == [];
    assert m.fields[f := m.fields[f]] == m.fields;
    assert m.undo.value - {} == m.undo.value;
  }

  lemma ModifiedEntry(ty: ObjectType, o: Obj, f: string, k: string, y: Value, name: string)
    requires WellTyped(ty, o) && Split(name) == [f, k] && f in ty && ty[f].isConfig && !ty[f].noUserModify
    requires o.fields[f].Dictionary? && Cloneable(o.fields[f])
    requires k in o.fields[f].entries
    ensures Modified(ty, o, name, y) ==
      (Obj(o.fields[f := Dictionary(o.fields[f].entries[k := y])],
           Some(Replaced(name, o.fields[f].entries[k], y) + UndoEntries(o))), Done)
    ensures !o.fields[f].entries[k].Dictionary? ==>
      Replaced(name, o.fields[f].entries[k], y) == map[name := o.fields[f].entries[k]]
  {
    hide Split, Cloneable;
    var v := o.fields[f];
    assert [f, k][1..] == [k] && [k][1..] == [];
    LookupHere(v.entries[k]);
    assert Lookup(v, [k]) == v.entries[k];
    assert WriteField(v, [k], y) == Some(Dictionary(v.entries[k := y]));
  }

  lemma RestoredEntry(ty: ObjectType, r: Obj, f: string, k: string, w: Value, name: string)
    requires WellTyped(ty, r) && Split(name) == [f, k] && f in ty && r.undo == Some(map[name := w])
    requires r.fields[f].Dictionary? && Cloneable(r.fields[f])
    ensures Restored(ty, r, name) == (Obj(r.fields[f := Dictionary(r.fields[f].entries[k := w])], Some(map[])), Done)
  {
    hide Split, Cloneable, SortedKeys;
    var undo := r.undo.value;
    assert Affected(undo, [f, k]) == {name};
    SortedSingle(name);
    assert [f, k][1..] == [k] && [name][1..] == [];
    assert RestoreAll(r.fields[f].entries, undo, [name]) == r.fields[f].entries[k := w];
    assert undo - {name} == map[];
    RestoredNested(ty, r, name);
  }

  // ---- what the undo does not give back ----

  /** An attribute that did not exist reads as before after a write and a restore, but it now
      holds `Empty`, which unlike a missing entry cannot be written below. If what was written
      cannot be cloned, the attribute can be neither restored nor written below. */
  lemma UndoLeavesEmptyEntry(ty: ObjectType, o: Obj, attr: string, x: Value, k: string, y: Value)
    requires WellTyped(ty, o) && |Split(attr)| > 1 && DotFree(k)
    requires Modified(ty, o, attr, x).1.Done? && ty[Split(attr)[0]].isConfig && !x.Dictionary?
    requires Affected(UndoEntries(o), Split(attr)) == {} && Read(o, Split(attr)) == Empty
    requires |Split(attr)| < VAR_DEPTH_LIMIT
    ensures var (r, outcome) := Restored(ty, Modified(ty, o, attr, x).0, attr);
      && WellTyped(ty, r) && (outcome.Done? <==> Cloneable(x))
      && Modified(ty, r, EntryName(attr, k), y).1 == if Cloneable(x) then NotADictionary else CannotBeCloned
  {
    hide Restored, Affected, Split, Write, Lookup, EntryName, ModifiedAll, Noted, Present, Replaced, Cloneable;
    UndoOfScalarIsExact(ty, o, attr, x, []);
    var m := Modified(ty, o, attr, x).0;
    ModifiedNone(ty, m);
    FirstIsNoted(ty, o, attr, x);
    ModifiedCloneable(ty, o, attr, x);
    var r := Restored(ty, m, attr).0;
    var tokens := Split(attr);
    var v := o.fields[tokens[0]];
    if Cloneable(x) {
      NothingBelowEmpty(if IsEmpty(v) then map[] else v.entries, tokens[1..], k, y);
      EmptyCloneable();
      WriteFieldCloneable(v, tokens[1..], Empty);
      ModifiedBlocked(ty, r, attr, k, y);
    } else {
      RestoredUncloneable(ty, m, attr);
      ModifiedUncloneable(ty, m, attr, k, y);
    }
  }

  lemma EmptyCloneable()
    ensures Cloneable(Empty)
  {
  }

  lemma WriteFieldCloneable(v: Value, path: Path, x: Value)
    requires path != [] && WriteField(v, path, x).Some? && Cloneable(v)
    ensures Cloneable(WriteField(v, path, x).value) <==> Cloneable(x)
  {
    hide Write;
    WriteCloneable(if IsEmpty(v) then map[] else v.entries, path, x);
  }

  lemma ModifiedCloneable(ty: ObjectType, o: Obj, attr: string, x: Value)
    requires WellTyped(ty, o) && |Split(attr)| > 1 && Modified(ty, o, attr, x).1.Done?
    ensures Cloneable(o.fields[Split(attr)[0]])
    ensures var m := Modified(ty, o, attr, x).0;
      WellTyped(ty, m) && (Cloneable(m.fields[Split(attr)[0]]) <==> Cloneable(x))
  {
    hide Split, WriteField, Replaced, Cloneable;
    WriteFieldCloneable(o.fields[Split(attr)[0]], Split(attr)[1..], x);
  }

  lemma ModifiedUncloneable(ty: ObjectType, m: Obj, attr: string, k: string, y: Value)
    requires WellTyped(ty, m) && DotFree(k) && |Split(attr)| < VAR_DEPTH_LIMIT
    requires Split(attr)[0] in ty && !ty[Split(attr)[0]].noUserModify
    requires !Cloneable(m.fields[Split(attr)[0]])
    ensures Modified(ty, m, EntryName(attr, k), y).1 == CannotBeCloned
  {
    SplitAppend(attr, k);
    SplitDotFree(k);
    hide Split, WriteField, Cloneable, Replaced;
  }

  lemma ModifiedNone(ty: ObjectType, o: Obj)
    requires WellTyped(ty, o)
    ensures ModifiedAll(ty, o, []) == o
  {
  }

  lemma {:induction false} NothingBelowEmpty(d: Entries, path: Path, k: string, y: Value)
    requires path != [] && Write(d, path, Empty).Some?
    ensures Write(Write(d, path, Empty).value, path + [k], y).None?
    decreases |path|
  {
    assert (path + [k])[1..] == path[1..] + [k];
    if |path| > 1 {
      NothingBelowEmpty(Child(d, path[0]).entries, path[1..], k, y);
    }
  }

  lemma ModifiedBlocked(ty: ObjectType, r: Obj, attr: string, k: string, y: Value)
    requires WellTyped(ty, r) && DotFree(k) && 1 < |Split(attr)| < VAR_DEPTH_LIMIT
    requires Split(attr)[0] in ty && !ty[Split(attr)[0]].noUserModify
    requires r.fields[Split(attr)[0]].Dictionary? && Cloneable(r.fields[Split(attr)[0]])
    requires Write(r.fields[Split(attr)[0]].entries, Split(attr)[1..] + [k], y).None?
    ensures Modified(ty, r, EntryName(attr, k), y).1 == NotADictionary
  {
    SplitAppend(attr, k);
    SplitDotFree(k);
    hide Split, Write, Cloneable;
    var tokens := Split(attr) + [k];
    assert tokens[1..] == Split(attr)[1..] + [k];
  }

  // ---- the methods ----

  /** Puts a dictionary back under the dictionaries that were passed on the way to it. */
  function Plug(parents: seq<Entries>, keys: Path, e: Entries): Entries
    requires |keys| == |parents|
    decreases |parents|
  {
    if parents == [] then e
    else
      var n := |parents| - 1;
      Plug(parents[..n], keys[..n], parents[n][keys[n] := Dictionary(e)])
  }

  function PlugResult(parents: seq<Entries>, keys: Path, r: Option<Entries>): Option<Entries>
    requires |keys| == |parents|
  {
    match r
    case None => None
    case Some(e) => Some(Plug(parents, keys, e))
  }

  lemma PlugUnder(parents: seq<Entries>, keys: Path, d: Entries, k: string, e: Entries)
    requires |keys| == |parents|
    ensures Plug(parents + [d], keys + [k], e) == Plug(parents, keys, d[k := Dictionary(e)])
  {
    assert (parents + [d])[..|parents|] == parents && (keys + [k])[..|parents|] == keys;
  }

  function Set(d: Entries, path: Path, x: Value, force: bool): Option<Entries>
    requires path != []
  {
    if force then Some(Force(d, path, x)) else Write(d, path, x)
  }

  lemma PlugNothing()
    ensures forall e :: Plug([], [], e) == e
  {
  }

  lemma SetBlocked(d: Entries, path: Path, x: Value)
    requires |path| > 1 && !Child(d, path[0]).Dictionary?
    ensures Set(d, path, x, false) == None
  {
  }

  lemma SetLast(d: Entries, path: Path, x: Value, force: bool)
    requires |path| == 1
    ensures Set(d, path, x, force) == Some(d[path[0] := x])
  {
  }

  /** Going one dictionary down. */
  lemma SetUnder(parents: seq<Entries>, keys: Path, d: Entries, path: Path, x: Value, force: bool)
    requires |keys| == |parents| && |path| > 1
    requires force || Child(d, path[0]).Dictionary?
    ensures PlugResult(parents, keys, Set(d, path, x, force)) ==
      PlugResult(parents + [d], keys + [path[0]], Set(EntriesOf(Child(d, path[0])), path[1..], x, force))
  {
    var r := Set(EntriesOf(Child(d, path[0])), path[1..], x, force);
    if r.Some? {
      PlugUnder(parents, keys, d, path[0], r.value);
    }
  }

  /** Sets the value at a place by walking down to its dictionary and, since dictionaries are
      values here, putting the ones that were passed back together. */
  method SetAt(d: Entries, path: Path, x: Value, force: bool) returns (r: Option<Entries>)
    requires path != []
    ensures r == Set(d, path, x, force)
  {
    hide Force, Write, Plug;
    var parents, current, i := [], d, 0;
    assert path[0..] == path;
    PlugNothing();
    while i < |path| - 1
      invariant 0 <= i < |path| && |parents| == i
      invariant Set(d, path, x, force) == PlugResult(parents, path[..i], Set(current, path[i..], x, force))
    {
      var sub := Child(current, path[i]);
      if !sub.Dictionary? && !force {
        SetBlocked(current, path[i..], x);
        return None;
      }
      SetUnder(parents, path[..i], current, path[i..], x, force);
      assert path[i..][1..] == path[i + 1..];
      assert path[..i + 1] == path[..i] + [path[i]];
      parents, current, i := parents + [current], EntriesOf(sub), i + 1;
    }
    var e := current[path[i] := x];
    SetLast(current, path[i..], x, force);
    while i > 0
      invariant 0 <= i < |path| && |parents| == i
      invariant Set(d, path, x, force) == Some(Plug(parents, path[..i], e))
    {
      i := i - 1;
      assert path[..i + 1] == path[..i] + [path[i]];
      assert parents == parents[..i] + [parents[i]];
      PlugUnder(parents[..i], path[..i], parents[i], path[i], e);
      e := parents[i][path[i] := Dictionary(e)];
      parents := parents[..i];
    }
    r := Some(e);
  }

  lemma NamedMember(attr: string, d: Entries, k: string)
    ensures EntryName(attr, k) in Named(attr, d) <==> k in d
  {
    hide EntryName;
    assert EntryName(attr, k) in Below(attr, d.Keys) <==> k in d;
  }

  lemma NamedSnoc(attr: string, d: Entries, k: string, v: Value)
    ensures Named(attr, d[k := v]) == Named(attr, d)[EntryName(attr, k) := v]
  {
    hide EntryName;
    assert d[k := v].Keys == d.Keys + {k};
    assert Below(attr, d.Keys + {k}) == Below(attr, d.Keys) + {EntryName(attr, k)};
  }

  lemma RecordedOne(attr: string, part: Entries, undo: Entries, k: string, v: Value)
    requires k !in part
    ensures var name := EntryName(attr, k); var r := Named(attr, part) + undo;
      Named(attr, part[k := v]) + undo == if name in r then r else r[name := v]
  {
    hide EntryName, Named;
    NamedMember(attr, part, k);
    NamedSnoc(attr, part, k, v);
  }

  lemma SortedDistinct(ks: seq<string>, i: nat)
    requires Sorted(ks) && i < |ks|
    ensures ks[i] in ks && ks[i] !in ks[..i] && ks[..i + 1] == ks[..i] + [ks[i]]
  {
    hide Le;
  }

  /** The entries of the dictionary under the keys listed. */
  function Chosen(d: Entries, ks: seq<string>): (r: Entries)
    requires forall i :: 0 <= i < |ks| ==> ks[i] in d
    ensures forall k :: k in r <==> k in ks
    ensures forall k :: k in r ==> k in d && r[k] == d[k]
  {
    if ks == [] then map[]
    else
      var n := |ks| - 1;
      assert ks == ks[..n] + [ks[n]];
      Chosen(d, ks[..n])[ks[n] := d[ks[n]]]
  }

  lemma ChosenAll(d: Entries)
    ensures forall i :: 0 <= i < |SortedKeys(d.Keys)| ==> SortedKeys(d.Keys)[i] in d
    ensures Chosen(d, SortedKeys(d.Keys)) == d
  {
    hide SortedKeys, Chosen;
    var ks := SortedKeys(d.Keys);
    forall i | 0 <= i < |ks| ensures ks[i] in d {
      assert ks[i] in ks;
    }
    assert Chosen(d, ks).Keys == d.Keys;
  }

  /** The undo entries once the listed entries of the dictionary have been recorded. */
  function Recorded(attr: string, d: Entries, ks: seq<string>, undo: Entries): Entries
    requires forall i :: 0 <= i < |ks| ==> ks[i] in d
  {
    Named(attr, Chosen(d, ks)) + undo
  }

  lemma RecordedNext(attr: string, d: Entries, ks: seq<string>, i: nat, undo: Entries)
    requires Sorted(ks) && i < |ks| && forall i :: 0 <= i < |ks| ==> ks[i] in d
    ensures var r := Recorded(attr, d, ks[..i], undo); var name := EntryName(attr, ks[i]);
      Recorded(attr, d, ks[..i + 1], undo) == if name in r then r else r[name := d[ks[i]]]
  {
    hide Named, EntryName, Sorted;
    SortedDistinct(ks, i);
    assert ks[..i + 1][..i] == ks[..i];
    RecordedOne(attr, Chosen(d, ks[..i]), undo, ks[i], d[ks[i]]);
  }

  lemma NamedNothing(attr: string)
    ensures Named(attr, map[]) == map[]
  {
    var none: Entries := map[];
    assert none.Keys == {};
    assert Below(attr, none.Keys) == {};
  }

  lemma RecordedAll(attr: string, d: Entries, undo: Entries)
    ensures Recorded(attr, d, [], undo) == undo
    ensures forall i :: 0 <= i < |SortedKeys(d.Keys)| ==> SortedKeys(d.Keys)[i] in d
    ensures Recorded(attr, d, SortedKeys(d.Keys), undo) == Named(attr, d) + undo
  {
    hide SortedKeys, EntryName, Named, Below;
    ChosenAll(d);
    NamedNothing(attr);
  }

  /** Records the entries of a dictionary below `attr`, unless there are such entries already. */
  method Record(attr: string, d: Entries, undo: Entries) returns (r: Entries)
    ensures r == Named(attr, d) + undo
  {
    hide SortedKeys, EntryName, Recorded, Named, Sorted;
    var ks := SortedKeys(d.Keys);
    RecordedAll(attr, d, undo);
    r := undo;
    for i := 0 to |ks|
      invariant r == Recorded(attr, d, ks[..i], undo)
    {
      RecordedNext(attr, d, ks, i, undo);
      var name := EntryName(attr, ks[i]);
      if name !in r {
        r := r[name := d[ks[i]]];
      }
    }
    assert ks[..|ks|] == ks;
  }

  /** Notes what a modification replaces, without overwriting what has been noted before. */
  method Note(attr: string, was: Value, x: Value, undo: Entries) returns (r: Entries)
    ensures r == Replaced(attr, was, x) + undo
  {
    hide Split, Named;
    r := undo;
    if |Split(attr)| > 1 && was.Dictionary? {
      r := Record(attr, was.entries, r);
      if x.Dictionary? {
        r := Record(attr, Emptied(x.entries), r);
      }
    } else if attr !in r {
      r := r[attr := was];
    }
  }

  /** Compares the tokens of an undo entry with those of the attribute to restore. */
  method Matches(tokens: Path, originalTokens: Path) returns (found: bool)
    ensures found == IsPrefix(tokens, originalTokens)
  {
    if |tokens| > |originalTokens| {
      return false;
    }
    for i := 0 to |tokens|
      invariant tokens[..i] == originalTokens[..i]
    {
      if tokens[i] != originalTokens[i] {
        assert originalTokens[..|tokens|][i] == originalTokens[i];
        return false;
      }
    }
    return true;
  }

  /** The keys among those listed that are at or below the place. */
  function Selected(ks: seq<string>, tokens: Path): (r: seq<string>)
    ensures forall k :: k in r <==> k in ks && IsPrefix(tokens, Split(k))
  {
    if ks == [] then []
    else
      var n := |ks| - 1;
      assert ks == ks[..n] + [ks[n]];
      Selected(ks[..n], tokens) + if IsPrefix(tokens, Split(ks[n])) then [ks[n]] else []
  }

  lemma {:induction false} SelectedSorted(ks: seq<string>, tokens: Path)
    requires Sorted(ks)
    ensures Sorted(Selected(ks, tokens))
    decreases |ks|
  {
    hide Lt, IsPrefix, Split;
    if ks != [] {
      var n := |ks| - 1;
      SelectedSorted(ks[..n], tokens);
      var r := Selected(ks[..n], tokens);
      forall i | 0 <= i < |r| ensures Lt(r[i], ks[n]) {
        assert r[i] in ks[..n];
      }
    }
  }

  /** Going through all undo entries in order, the matching ones come in the order of
      `SortedKeys`. */
  lemma SelectedIsAffected(undo: Entries, tokens: Path)
    ensures Selected(SortedKeys(undo.Keys), tokens) == SortedKeys(Affected(undo, tokens))
  {
    hide SortedKeys, IsPrefix, Split, Selected, Sorted;
    SelectedSorted(SortedKeys(undo.Keys), tokens);
    SortedUnique(Selected(SortedKeys(undo.Keys), tokens), SortedKeys(Affected(undo, tokens)));
  }

  lemma SelectedNested(undo: Entries, ks: seq<string>, tokens: Path)
    requires |tokens| > 1 && forall i :: 0 <= i < |ks| ==> ks[i] in undo
    ensures forall i :: 0 <= i < |Selected(ks, tokens)| ==>
      Selected(ks, tokens)[i] in undo && |Split(Selected(ks, tokens)[i])| > 1
  {
    hide Selected, Split;
    var r := Selected(ks, tokens);
    forall i | 0 <= i < |r| ensures r[i] in undo && |Split(r[i])| > 1 {
      assert r[i] in r;
      assert r[i] in ks;
    }
  }

  lemma SelectedNext(ks: seq<string>, i: nat, tokens: Path)
    requires i < |ks|
    ensures Selected(ks[..i + 1], tokens) ==
      Selected(ks[..i], tokens) + if IsPrefix(tokens, Split(ks[i])) then [ks[i]] else []
  {
    hide IsPrefix, Split;
    assert ks[..i + 1][..i] == ks[..i];
  }

  lemma SortedKeysListed(undo: Entries)
    ensures forall i :: 0 <= i < |SortedKeys(undo.Keys)| ==> SortedKeys(undo.Keys)[i] in undo
  {
    hide SortedKeys, Sorted;
    var ks := SortedKeys(undo.Keys);
    forall i | 0 <= i < |ks| ensures ks[i] in undo {
      assert ks[i] in ks;
    }
  }

  /** The dictionary once the matching ones of the undo entries listed have been put back. */
  function RestoreSelected(d: Entries, undo: Entries, ks: seq<string>, tokens: Path): Entries
    requires |tokens| > 1 && forall i :: 0 <= i < |ks| ==> ks[i] in undo
  {
    SelectedNested(undo, ks, tokens);
    RestoreAll(d, undo, Selected(ks, tokens))
  }

  lemma RestoreSelectedNext(d: Entries, undo: Entries, ks: seq<string>, i: nat, tokens: Path)
    requires |tokens| > 1 && i < |ks| && forall i :: 0 <= i < |ks| ==> ks[i] in undo
    ensures IsPrefix(tokens, Split(ks[i])) ==> |Split(ks[i])| > 1
    ensures RestoreSelected(d, undo, ks[..i + 1], tokens) ==
      if IsPrefix(tokens, Split(ks[i]))
      then Force(RestoreSelected(d, undo, ks[..i], tokens), Split(ks[i])[1..], undo[ks[i]])
      else RestoreSelected(d, undo, ks[..i], tokens)
  {
    hide RestoreAll, Force, Selected, Split;
    SelectedNext(ks, i, tokens);
    SelectedNested(undo, ks[..i], tokens);
    assert Selected(ks[..i], tokens) + [] == Selected(ks[..i], tokens);
    if IsPrefix(tokens, Split(ks[i])) {
      RestoreAllSnoc(d, undo, Selected(ks[..i], tokens), ks[i]);
    }
  }

  lemma RestoreSelectedAll(d: Entries, undo: Entries, tokens: Path)
    requires |tokens| > 1
    ensures forall i :: 0 <= i < |SortedKeys(undo.Keys)| ==> SortedKeys(undo.Keys)[i] in undo
    ensures RestoreSelected(d, undo, [], tokens) == d && Selected([], tokens) == []
    ensures Selected(SortedKeys(undo.Keys), tokens) == SortedKeys(Affected(undo, tokens))
    ensures var ks := SortedKeys(Affected(undo, tokens));
      && (forall i :: 0 <= i < |ks| ==> ks[i] in undo && |Split(ks[i])| > 1)
      && RestoreSelected(d, undo, SortedKeys(undo.Keys), tokens) == RestoreAll(d, undo, ks)
  {
    hide SortedKeys, Affected, Split, Force, Sorted, IsPrefix;
    SortedKeysListed(undo);
    SelectedIsAffected(undo, tokens);
    SelectedNested(undo, SortedKeys(undo.Keys), tokens);
  }

  /** Puts the matching undo entries back into the dictionary and tells which they are. */
  method RestoreEntries(d: Entries, undo: Entries, tokens: Path) returns (r: Entries, restored: seq<string>)
    requires |tokens| > 1
    ensures restored == SortedKeys(Affected(undo, tokens))
    ensures forall i :: 0 <= i < |restored| ==> restored[i] in undo && |Split(restored[i])| > 1
    ensures r == RestoreAll(d, undo, restored)
  {
    hide SortedKeys, Sorted, IsPrefix, Split, RestoreAll, Force, Selected, Affected, RestoreSelected;
    var ks := SortedKeys(undo.Keys);
    RestoreSelectedAll(d, undo, tokens);
    r, restored := d, [];
    for i := 0 to |ks|
      invariant restored == Selected(ks[..i], tokens)
      invariant r == RestoreSelected(d, undo, ks[..i], tokens)
    {
      var originalTokens := Split(ks[i]);
      var matches := Matches(tokens, originalTokens);
      SelectedNext(ks, i, tokens);
      RestoreSelectedNext(d, undo, ks, i, tokens);
      if matches {
        var forced := SetAt(r, originalTokens[1..], undo[ks[i]], true);
        r, restored := forced.value, restored + [ks[i]];
      }
    }
    assert ks[..|ks|] == ks;
  }

  lemma LookupHere(v: Value)
    ensures Lookup(v, []) == v
  {
  }

  lemma WriteWhole(v: Value, x: Value)
    ensures WriteField(v, [], x) == Some(x)
  {
  }

  /** The new value of a field after the place below it has been set. */
  method SetBelow(v: Value, path: Path, x: Value) returns (w: Option<Value>)
    requires path != []
    ensures w == WriteField(v, path, x)
  {
    hide Write;
    var root := if IsEmpty(v) then Dictionary(map[]) else v;
    if !root.Dictionary? {
      return None;
    }
    var written := SetAt(root.entries, path, x, false);
    w := match written
      case None => None
      case Some(d) => Some(Dictionary(d));
  }

  class ConfigObject {
    const ty: ObjectType
    var fields: map<string, Value>
    var originalAttributes: Option<Entries>

    constructor (ty: ObjectType, fields: map<string, Value>)
      requires fields.Keys == ty.Keys
      ensures this.ty == ty && Valid() && View() == Obj(fields, None)
    {
      this.ty, this.fields, originalAttributes := ty, fields, None;
    }

    ghost predicate Valid()
      reads this
    {
      fields.Keys == ty.Keys
    }

    ghost function View(): Obj
      reads this
    {
      Obj(fields, originalAttributes)
    }

    method ModifyAttribute(attr: string, value: Value) returns (outcome: Outcome)
      requires Valid()
      modifies this
      ensures Valid()
      ensures (View(), outcome) == Modified(ty, old(View()), attr, value)
    {
      hide Split, Write, WriteField, Lookup, Replaced, Force, Cloneable;
      var tokens := Split(attr);
      if |tokens| > VAR_DEPTH_LIMIT {
        return TooDeep;
      }
      var f := tokens[0];
      if f !in ty {
        return NoSuchField;
      }
      if ty[f].noUserModify {
        return CannotBeModified;
      }
      if ty[f].isConfig && originalAttributes.None? {
        originalAttributes := Some(map[]);
      }
      var oldValue := fields[f];
      var newValue := value;
      if |tokens| > 1 {
        if !Cloneable(oldValue) {
          return CannotBeCloned;
        }
        var written := SetBelow(oldValue, tokens[1..], value);
        if written.None? {
          return NotADictionary;
        }
        newValue := written.value;
        oldValue := Lookup(oldValue, tokens[1..]);
      } else {
        assert tokens[1..] == [];
      }
      LookupHere(oldValue);
      WriteWhole(oldValue, value);
      if ty[f].isConfig {
        var undo := Note(attr, oldValue, value, originalAttributes.value);
        originalAttributes := Some(undo);
      }
      fields := fields[f := newValue];
      return Done;
    }

    method RestoreAttribute(attr: string) returns (outcome: Outcome)
      requires Valid()
      modifies this
      ensures Valid()
      ensures (View(), outcome) == Restored(ty, old(View()), attr)
    {
      hide Split, SortedKeys, RestoreAll, Affected, IsPrefix, Cloneable;
      var tokens := Split(attr);
      var f := tokens[0];
      if f !in ty {
        return NoSuchField;
      }
      if originalAttributes.None? {
        return Done;
      }
      var undo := originalAttributes.value;
      var newValue := if attr in undo then undo[attr] else Empty;
      if |tokens| > 1 {
        var v := fields[f];
        if !Cloneable(v) {
          return CannotBeCloned;
        }
        if IsEmpty(v) {
          return NonExistent;
        }
        var walked := WalkTo(v, tokens[1..]);
        if walked != Done {
          return walked;
        }
        var d, restored := RestoreEntries(v.entries, undo, tokens);
        newValue := Dictionary(d);
        undo := RemoveAll(undo, restored);
        AttributeIsAffected(originalAttributes.value, attr);
      }
      originalAttributes := Some(undo - {attr});
      fields := fields[f := newValue];
      return Done;
    }
  }

  lemma AttributeIsAffected(undo: Entries, attr: string)
    ensures undo - (set k | k in SortedKeys(Affected(undo, Split(attr)))) - {attr} == undo - Affected(undo, Split(attr))
  {
    hide SortedKeys, Split;
    assert (set k | k in SortedKeys(Affected(undo, Split(attr)))) == Affected(undo, Split(attr));
  }

  method RemoveAll(undo: Entries, ks: seq<string>) returns (r: Entries)
    ensures r == undo - set k | k in ks
  {
    r := undo;
    for i := 0 to |ks|
      invariant r == undo - set k | k in ks[..i]
    {
      assert ks[..i + 1] == ks[..i] + [ks[i]];
      r := r - {ks[i]};
    }
    assert ks[..|ks|] == ks;
  }

  /** Walks to the dictionary that holds the place, as far as it can. */
  method WalkTo(v: Value, path: Path) returns (outcome: Outcome)
    requires path != []
    ensures outcome == Walk(v, path)
  {
    var current := v;
    assert path[0..] == path;
    for i := 0 to |path| - 1
      invariant Walk(v, path) == Walk(current, path[i..])
    {
      if !current.Dictionary? {
        return NotADictionary;
      }
      if path[i] !in current.entries {
        return NonExistent;
      }
      assert path[i..][1..] == path[i + 1..];
      current := current.entries[path[i]];
    }
    return if current.Dictionary? then Done else NotADictionary;
  }
}
