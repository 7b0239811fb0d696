/**
 The JSON decoder's stack machine. The parser reports a document as a stream of events; the
 machine builds the tree of arrays and dictionaries on the heap, keeping the containers it
 is inside of on a stack, and refuses documents that nest deeper than a limit.
 */
module JsonSax {
  import opened Keys
  import opened Values
  import opened JsonGrammar
  import opened Wrappers
  import JsonEncoder

  datatype Event =
    | ScalarEvent(v: Scalar)
    | StartObject | KeyEvent(name: string) | EndObject
    | StartArray | EndArray

  /** The events that report a document. */
  function Events(d: Document): seq<Event>
    decreases d, 1
  {
    match d
    case Text(v) => [ScalarEvent(v)]
    case Elements(items) => [StartArray] + ItemEvents(items) + [EndArray]
    case Members(members) => [StartObject] + MemberEvents(members) + [EndObject]
  }

  function ItemEvents(items: seq<Document>): seq<Event>
    decreases items, 0
  {
    if items == [] then [] else Events(items[0]) + ItemEvents(items[1..])
  }

  function MemberEvents(members: seq<Member>): seq<Event>
    decreases members, 0
  {
    if members == [] then []
    else [KeyEvent(members[0].name)] + Events(members[0].doc) + MemberEvents(members[1..])
  }

  // ---- the events of a text ----

  /** What the parser reports for a token: a string right before a colon is a name. */
  function ReportedOne(t: Token, colonNext: bool): seq<Event> {
    match t
    case LeftBracket => [StartArray]
    case RightBracket => [EndArray]
    case LeftBrace => [StartObject]
    case RightBrace => [EndObject]
    case NullToken => [ScalarEvent(Empty)]
    case TrueToken => [ScalarEvent(Boolean(true))]
    case FalseToken => [ScalarEvent(Boolean(false))]
    case NumberToken(bits) => [ScalarEvent(Number(bits))]
    case StringToken(s) => if colonNext then [KeyEvent(s)] else [ScalarEvent(String(s))]
    case _ => []
  }

  function Reported(ts: seq<Token>): seq<Event>
    decreases |ts|
  {
    if ts == [] then [] else ReportedOne(ts[0], |ts| > 1 && ts[1].Colon?) + Reported(ts[1..])
  }

  lemma {:induction false} ReportedConcat(a: seq<Token>, b: seq<Token>)
    requires b != [] ==> !b[0].Colon?
    ensures Reported(a + b) == Reported(a) + Reported(b)
    decreases |a|
  {
    hide ReportedOne;
    if a == [] {
      assert a + b == b;
    } else {
      ReportedConcat(a[1..], b);
      assert (a + b)[1..] == a[1..] + b;
    }
  }

  lemma ReportedSingle(t: Token)
    ensures Reported([t]) == ReportedOne(t, false)
  {
    hide ReportedOne;
    assert Reported([]) == [];
  }

  lemma ReportedName(name: string)
    ensures Reported([StringToken(name), Colon]) == [KeyEvent(name)]
  {
    ReportedSingle(Colon);
    assert [StringToken(name), Colon][1..] == [Colon];
  }

  /** A text reports the events of its document. */
  lemma {:induction false} ReportedDocument(d: Document)
    ensures Reported(Tokens(d)) == Events(d)
    decreases d, 1
  {
    hide Reported, ItemTokens, MemberTokens, ItemEvents, MemberEvents;
    match d
    case Text(v) => ReportedSingle(ScalarToken(v));
    case Elements(items) =>
      ReportedItems(items);
      ReportedSingle(LeftBracket);
      ReportedSingle(RightBracket);
      NoColonFirst(d);
      ReportedConcat([LeftBracket], ItemTokens(items));
      ReportedConcat([LeftBracket] + ItemTokens(items), [RightBracket]);
    case Members(members) =>
      ReportedMembers(members);
      ReportedSingle(LeftBrace);
      ReportedSingle(RightBrace);
      NoColonFirst(d);
      ReportedConcat([LeftBrace], MemberTokens(members));
      ReportedConcat([LeftBrace] + MemberTokens(members), [RightBrace]);
  }

  lemma NoColonFirst(d: Document)
    ensures !Tokens(d)[0].Colon?
    ensures d.Elements? && ItemTokens(d.items) != [] ==> !ItemTokens(d.items)[0].Colon?
    ensures d.Members? && MemberTokens(d.members) != [] ==> !MemberTokens(d.members)[0].Colon?
  {
  }

  lemma ReportedFollowed(front: seq<Token>, more: bool, rest: seq<Token>)
    requires rest != [] ==> !rest[0].Colon?
    ensures Reported(front + (if more then [Comma] else []) + rest) == Reported(front) + Reported(rest)
  {
    hide Reported;
    if more {
      ReportedSingle(Comma);
      ReportedConcat(front, [Comma]);
      ReportedConcat(front + [Comma], rest);
    } else {
      assert front + [] + rest == front + rest;
      ReportedConcat(front, rest);
    }
  }

  lemma {:induction false} ReportedItems(items: seq<Document>)
    ensures Reported(ItemTokens(items)) == ItemEvents(items)
    decreases items, 0
  {
    hide Tokens, Events, ReportedOne;
    if items != [] {
      ReportedDocument(items[0]);
      ReportedItems(items[1..]);
      NoColonFirst(Elements(items[1..]));
      ReportedFollowed(Tokens(items[0]), |items| > 1, ItemTokens(items[1..]));
    }
  }

  lemma {:induction false} ReportedMembers(members: seq<Member>)
    ensures Reported(MemberTokens(members)) == MemberEvents(members)
    decreases members, 0
  {
    hide Tokens, Events, ReportedOne;
    if members != [] {
      var name, ts := [StringToken(members[0].name), Colon], Tokens(members[0].doc);
      ReportedDocument(members[0].doc);
      ReportedMembers(members[1..]);
      NoColonFirst(members[0].doc);
      NoColonFirst(Members(members[1..]));
      ReportedName(members[0].name);
      ReportedConcat(name, ts);
      ReportedFollowed(name + ts, |members| > 1, MemberTokens(members[1..]));
    }
  }

  // ---- what a document means ----

  /** The value of a document; of several members with one name the last one counts. */
  function Meaning(d: Document): Value
    decreases d, 1
  {
    match d
    case Text(v) => v
    case Elements(items) => Array(ItemMeanings(items))
    case Members(members) => Dictionary(MemberMeanings(map[], members))
  }

  function ItemMeanings(items: seq<Document>): seq<Value>
    decreases items, 0
  {
    if items == [] then [] else [Meaning(items[0])] + ItemMeanings(items[1..])
  }

  function MemberMeanings(m: map<string, Value>, members: seq<Member>): map<string, Value>
    decreases members, 0
  {
    if members == [] then m
    else MemberMeanings(m[members[0].name := Meaning(members[0].doc)], members[1..])
  }

  /** The last member of that name, if there is one. */
  function LastMember(members: seq<Member>, name: string): Option<Document> {
    if members == [] then None
    else
      var n := |members| - 1;
      if members[n].name == name then Some(members[n].doc) else LastMember(members[..n], name)
  }

  lemma {:induction false} MemberMeaningsSnoc(m: map<string, Value>, members: seq<Member>, last: Member)
    ensures MemberMeanings(m, members + [last]) == MemberMeanings(m, members)[last.name := Meaning(last.doc)]
    decreases |members|
  {
    hide Meaning;
    var all := members + [last];
    if members == [] {
      assert all == [last] && all[1..] == [];
    } else {
      assert all[0] == members[0] && all[1..] == members[1..] + [last];
      MemberMeaningsSnoc(m[members[0].name := Meaning(members[0].doc)], members[1..], last);
    }
  }

  /** Of several members with one name the last one counts. */
  lemma {:induction false} LastMemberCounts(members: seq<Member>, name: string)
    ensures var m := Meaning(Members(members)).entries; var last := LastMember(members, name);
      (name in m <==> last.Some?) && (last.Some? ==> m[name] == Meaning(last.value))
    decreases |members|
  {
    if members != [] {
      var n := |members| - 1;
      LastMemberCounts(members[..n], name);
      MemberMeaningsSnoc(map[], members[..n], members[n]);
      assert members == members[..n] + [members[n]];
      hide Meaning, MemberMeanings;
    }
  }

  function Max(a: nat, b: nat): nat { if a < b then b else a }

  /** The nesting depth: arrays and objects count, scalars do not. */
  function Depth(d: Document): nat
    decreases d, 1
  {
    match d
    case Text(_) => 0
    case Elements(items) => 1 + ItemDepth(items)
    case Members(members) => 1 + MemberDepth(members)
  }

  function ItemDepth(items: seq<Document>): nat
    decreases items, 0
  {
    if items == [] then 0 else Max(Depth(items[0]), ItemDepth(items[1..]))
  }

  function MemberDepth(members: seq<Member>): nat
    decreases members, 0
  {
    if members == [] then 0 else Max(Depth(members[0].doc), MemberDepth(members[1..]))
  }

  // ---- the machine on values ----

  /** A container under construction: what has been completed in it so far. */
  datatype Frame =
    | ObjectFrame(entries: map<string, Value>, key: string)
    | ArrayFrame(items: seq<Value>)

  datatype Machine =
    | Machine(root: Value, frames: seq<Frame>)
    | TooDeep

  function Start(): Machine { Machine(Empty, []) }

  function Add(f: Frame, v: Value): Frame {
    match f
    case ObjectFrame(m, k) => ObjectFrame(m[k := v], k)
    case ArrayFrame(items) => ArrayFrame(items + [v])
  }

  function Completed(f: Frame): Value {
    match f
    case ObjectFrame(m, _) => Dictionary(m)
    case ArrayFrame(items) => Array(items)
  }

  function Fill(root: Value, frames: seq<Frame>, v: Value): Machine {
    if frames == [] then Machine(v, [])
    else Machine(root, frames[..|frames| - 1] + [Add(frames[|frames| - 1], v)])
  }

  /** The event may come now: a name only inside an object, an end only of what is open. */
  predicate Allowed(frames: seq<Frame>, e: Event) {
    match e
    case KeyEvent(_) => frames != [] && frames[|frames| - 1].ObjectFrame?
    case EndObject => frames != [] && frames[|frames| - 1].ObjectFrame?
    case EndArray => frames != [] && frames[|frames| - 1].ArrayFrame?
    case _ => true
  }

  function Step(m: Machine, e: Event, limit: nat): Machine
    requires m.Machine? ==> Allowed(m.frames, e)
  {
    match m
    case TooDeep => TooDeep
    case Machine(root, frames) =>
      match e
      case ScalarEvent(v) => Fill(root, frames, v)
      case StartObject => if |frames| >= limit then TooDeep else Machine(root, frames + [ObjectFrame(map[], "")])
      case StartArray => if |frames| >= limit then TooDeep else Machine(root, frames + [ArrayFrame([])])
      case KeyEvent(name) =>
        Machine(root, frames[..|frames| - 1] + [frames[|frames| - 1].(key := name)])
      case EndObject => Fill(root, frames[..|frames| - 1], Completed(frames[|frames| - 1]))
      case EndArray => Fill(root, frames[..|frames| - 1], Completed(frames[|frames| - 1]))
  }

  /** All events of the stream may come when they come. */
  predicate Acceptable(m: Machine, es: seq<Event>, limit: nat)
    decreases |es|
  {
    es == [] || m.TooDeep? || (Allowed(m.frames, es[0]) && Acceptable(Step(m, es[0], limit), es[1..], limit))
  }

  function Run(m: Machine, es: seq<Event>, limit: nat): Machine
    requires Acceptable(m, es, limit)
    decreases |es|
  {
    if es == [] || m.TooDeep? then m else Run(Step(m, es[0], limit), es[1..], limit)
  }

  // ---- running a document ----

  /** Running `es` from `m` ends in `end`. */
  predicate Runs(m: Machine, es: seq<Event>, limit: nat, end: Machine) {
    Acceptable(m, es, limit) && Run(m, es, limit) == end
  }

  lemma {:induction false} RunsConcat(
      m: Machine, es: seq<Event>, fs: seq<Event>, limit: nat, mid: Machine, end: Machine)
    requires Runs(m, es, limit, mid) && Runs(mid, fs, limit, end)
    ensures Runs(m, es + fs, limit, end)
    decreases |es|
  {
    if es == [] || m.TooDeep? {
      assert es == [] ==> es + fs == fs;
    } else {
      assert (es + fs)[0] == es[0] && (es + fs)[1..] == es[1..] + fs;
      RunsConcat(Step(m, es[0], limit), es[1..], fs, limit, mid, end);
    }
  }

  lemma RunsOne(m: Machine, e: Event, limit: nat)
    requires m.Machine? ==> Allowed(m.frames, e)
    ensures Runs(m, [e], limit, Step(m, e, limit))
  {
    var next := Step(m, e, limit);
    assert [e][1..] == [];
    assert Acceptable(next, [], limit) && Run(next, [], limit) == next;
  }

  lemma RunsTooDeep(es: seq<Event>, limit: nat)
    ensures Runs(TooDeep, es, limit, TooDeep)
  {
  }

  /** The machine adds a document's value where it stands, unless the document nests too deep
      for the levels that are left. */
  lemma {:induction false} RunDocument(root: Value, frames: seq<Frame>, d: Document, limit: nat)
    requires |frames| <= limit
    ensures Runs(Machine(root, frames), Events(d), limit,
                 if |frames| + Depth(d) <= limit then Fill(root, frames, Meaning(d)) else TooDeep)
    decreases d, 1
  {
    hide Runs, Fill;
    var m := Machine(root, frames);
    if d.Text? {
      RunsOne(m, ScalarEvent(d.v), limit);
    } else {
      var open, close := if d.Elements? then StartArray else StartObject, if d.Elements? then EndArray else EndObject;
      var body := if d.Elements? then ItemEvents(d.items) else MemberEvents(d.members);
      RunsOne(m, open, limit);
      if |frames| >= limit {
        RunsTooDeep(body, limit);
        RunsTooDeep([close], limit);
        RunsConcat(m, [open], body, limit, TooDeep, TooDeep);
        RunsConcat(m, [open] + body, [close], limit, TooDeep, TooDeep);
      } else {
        var inner := if d.Elements? then ArrayFrame([]) else ObjectFrame(map[], "");
        RunBody(root, frames, inner, d, limit);
        var end := AfterBody(root, frames, inner, d, limit);
        RunsConcat(m, [open], body, limit, Machine(root, frames + [inner]), end);
        if end.TooDeep? {
          RunsTooDeep([close], limit);
          RunsConcat(m, [open] + body, [close], limit, TooDeep, TooDeep);
        } else {
          assert end.frames[..|end.frames| - 1] == frames;
          assert Completed(end.frames[|frames|]) == Meaning(d) by {
            if d.Elements? { assert [] + ItemMeanings(d.items) == ItemMeanings(d.items); }
          }
          assert Step(end, close, limit) == Fill(root, frames, Meaning(d));
          RunsOne(end, close, limit);
          RunsConcat(m, [open] + body, [close], limit, end, Fill(root, frames, Meaning(d)));
        }
      }
    }
  }

  /** Where the body of a container leads, entered with the frame `inner` on top. */
  function AfterBody(root: Value, frames: seq<Frame>, inner: Frame, d: Document, limit: nat): Machine
    requires !d.Text? && (if d.Elements? then inner.ArrayFrame? else inner.ObjectFrame?)
  {
    match d
    case Elements(items) =>
      if |frames| + 1 + ItemDepth(items) <= limit
      then Machine(root, frames + [ArrayFrame(inner.items + ItemMeanings(items))]) else TooDeep
    case Members(members) =>
      if |frames| + 1 + MemberDepth(members) <= limit
      then Machine(root, frames + [ObjectFrame(MemberMeanings(inner.entries, members), LastKey(inner.key, members))])
      else TooDeep
  }

  function LastKey(key: string, members: seq<Member>): string {
    if members == [] then key else members[|members| - 1].name
  }

  lemma {:induction false} RunBody(root: Value, frames: seq<Frame>, inner: Frame, d: Document, limit: nat)
    requires |frames| < limit && !d.Text? && (if d.Elements? then inner.ArrayFrame? else inner.ObjectFrame?)
    ensures Runs(Machine(root, frames + [inner]),
                 if d.Elements? then ItemEvents(d.items) else MemberEvents(d.members),
                 limit, AfterBody(root, frames, inner, d, limit))
    decreases d, 0
  {
    match d
    case Elements(items) => RunItems(root, frames, inner.items, items, limit);
    case Members(members) => RunMembers(root, frames, inner.entries, inner.key, members, limit);
  }

  lemma {:induction false} RunItems(
      root: Value, frames: seq<Frame>, before: seq<Value>, items: seq<Document>, limit: nat)
    requires |frames| < limit
    ensures Runs(Machine(root, frames + [ArrayFrame(before)]), ItemEvents(items), limit,
                 AfterBody(root, frames, ArrayFrame(before), Elements(items), limit))
    decreases items, 0
  {
    hide Runs, Depth, Meaning, Events;
    var m := Machine(root, frames + [ArrayFrame(before)]);
    if items == [] {
      RunsNothing(m, limit);
      assert before + [] == before;
    } else {
      var v := Meaning(items[0]);
      RunDocument(root, m.frames, items[0], limit);
      assert m.frames[..|frames|] == frames;
      if |m.frames| + Depth(items[0]) > limit {
        RunsTooDeep(ItemEvents(items[1..]), limit);
        RunsConcat(m, Events(items[0]), ItemEvents(items[1..]), limit, TooDeep, TooDeep);
      } else {
        var next := Machine(root, frames + [ArrayFrame(before + [v])]);
        assert Fill(root, m.frames, v) == next;
        RunItems(root, frames, before + [v], items[1..], limit);
        assert before + [v] + ItemMeanings(items[1..]) == before + ItemMeanings(items);
        RunsConcat(m, Events(items[0]), ItemEvents(items[1..]), limit, next,
                   AfterBody(root, frames, ArrayFrame(before), Elements(items), limit));
      }
    }
  }

  lemma RunsNothing(m: Machine, limit: nat)
    ensures Runs(m, [], limit, m)
  {
  }

  lemma {:induction false} RunMembers(root: Value, frames: seq<Frame>, before: map<string, Value>, key: string,
                                      members: seq<Member>, limit: nat)
    requires |frames| < limit
    ensures Runs(Machine(root, frames + [ObjectFrame(before, key)]), MemberEvents(members), limit,
                 AfterBody(root, frames, ObjectFrame(before, key), Members(members), limit))
    decreases members, 0
  {
    hide Runs, Depth, Meaning, Events;
    var m := Machine(root, frames + [ObjectFrame(before, key)]);
    if members == [] {
      RunsNothing(m, limit);
    } else {
      var name, doc, rest := members[0].name, members[0].doc, MemberEvents(members[1..]);
      var keyed := Machine(root, frames + [ObjectFrame(before, name)]);
      var end := AfterBody(root, frames, ObjectFrame(before, key), Members(members), limit);
      assert m.frames[..|frames|] == frames && keyed.frames[..|frames|] == frames;
      RunsOne(m, KeyEvent(name), limit);
      assert Step(m, KeyEvent(name), limit) == keyed;
      RunDocument(root, keyed.frames, doc, limit);
      if |keyed.frames| + Depth(doc) > limit {
        RunsTooDeep(rest, limit);
        RunsConcat(m, [KeyEvent(name)], Events(doc), limit, keyed, TooDeep);
        RunsConcat(m, [KeyEvent(name)] + Events(doc), rest, limit, TooDeep, TooDeep);
      } else {
        var v := Meaning(doc);
        var next := Machine(root, frames + [ObjectFrame(before[name := v], name)]);
        assert Fill(root, keyed.frames, v) == next;
        RunMembers(root, frames, before[name := v], name, members[1..], limit);
        RunsConcat(m, [KeyEvent(name)], Events(doc), limit, keyed, next);
        RunsConcat(m, [KeyEvent(name)] + Events(doc), rest, limit, next, end);
      }
    }
  }

  /** For every document the machine ends with the document's value and an empty stack exactly
      if the nesting does not exceed the limit, and otherwise refuses it. */
  lemma DecodeDocument(d: Document, limit: nat)
    ensures Runs(Start(), Events(d), limit,
                 if Depth(d) <= limit then Machine(Meaning(d), []) else TooDeep)
  {
    hide Runs;
    RunDocument(Empty, [], d, limit);
  }

  // ---- decoding undoes encoding ----

  /** `v` with every other object replaced by the text that represents it. */
  function Represented(v: Value): Value {
    match v
    case Array(items) => Array(seq(|items|, i requires 0 <= i < |items| => Represented(items[i])))
    case Dictionary(m) => Dictionary(map k | k in m :: Represented(m[k]))
    case Other(text, _) => String(text)
    case _ => v
  }

  /** The containers in `v` nest at most `n` deep. */
  predicate NestsWithin(v: Value, n: nat) {
    match v
    case Array(items) => n > 0 && forall i :: 0 <= i < |items| ==> NestsWithin(items[i], n - 1)
    case Dictionary(m) => n > 0 && forall k :: k in m ==> NestsWithin(m[k], n - 1)
    case _ => true
  }

  lemma {:induction false} MeaningOfDocument(v: Value)
    ensures Meaning(JsonEncoder.DocumentOf(v)) == Represented(v)
    decreases v, 1
  {
    hide SortedKeys, Sorted, ItemMeanings, MemberMeanings, JsonEncoder.DocumentsOf, JsonEncoder.MembersOf,
      RepresentedItems, RepresentedEntries;
    if v.Array? {
      MeaningsOfDocuments(v.items);
      RepresentedArray(v);
    } else if v.Dictionary? {
      MeaningsOfMembers(map[], v, SortedKeys(v.entries.Keys));
      RepresentedDictionary(v);
    }
  }

  lemma RepresentedArray(v: Value)
    requires v.Array?
    ensures Represented(v) == Array(RepresentedItems(v.items))
  {
  }

  lemma RepresentedDictionary(v: Value)
    requires v.Dictionary?
    ensures Represented(v) == Dictionary(map[] + RepresentedEntries(v, SortedKeys(v.entries.Keys)))
  {
    hide SortedKeys, Sorted, RepresentedEntries, Represented;
    var ks := SortedKeys(v.entries.Keys);
    RepresentedEntriesAre(v, ks);
    var r := RepresentedEntries(v, ks);
    assert map[] + r == r && r.Keys == v.entries.Keys;
    RepresentedAs(v, r);
  }

  lemma RepresentedAs(v: Value, r: map<string, Value>)
    requires v.Dictionary? && r.Keys == v.entries.Keys && forall k :: k in r ==> r[k] == Represented(v.entries[k])
    ensures Represented(v) == Dictionary(r)
  {
  }

  lemma RepresentedEntriesAre(v: Value, ks: seq<string>)
    requires v.Dictionary? && forall k :: k in ks ==> k in v.entries
    ensures forall k :: k in RepresentedEntries(v, ks) <==> k in ks
    ensures forall k :: k in ks ==> RepresentedEntries(v, ks)[k] == Represented(v.entries[k])
  {
    hide Represented;
  }

  function RepresentedItems(items: seq<Value>): seq<Value> {
    seq(|items|, i requires 0 <= i < |items| => Represented(items[i]))
  }

  function RepresentedEntries(v: Value, ks: seq<string>): map<string, Value>
    requires v.Dictionary? && forall k :: k in ks ==> k in v.entries
  {
    map k | k in ks :: Represented(v.entries[k])
  }

  lemma {:induction false} MeaningsOfDocuments(items: seq<Value>)
    ensures ItemMeanings(JsonEncoder.DocumentsOf(items)) == RepresentedItems(items)
    decreases items, 0
  {
    hide Meaning, Represented, JsonEncoder.DocumentOf;
    if items != [] {
      MeaningOfDocument(items[0]);
      MeaningsOfDocuments(items[1..]);
      assert RepresentedItems(items) == [Represented(items[0])] + RepresentedItems(items[1..]);
      assert JsonEncoder.DocumentsOf(items)[1..] == JsonEncoder.DocumentsOf(items[1..]);
    }
  }

  lemma RepresentedEntriesStep(before: map<string, Value>, v: Value, ks: seq<string>)
    requires v.Dictionary? && ks != [] && (forall k :: k in ks ==> k in v.entries) && ks[0] !in ks[1..]
    ensures before[ks[0] := Represented(v.entries[ks[0]])] + RepresentedEntries(v, ks[1..])
      == before + RepresentedEntries(v, ks)
  {
    hide Represented;
    assert ks == [ks[0]] + ks[1..];
  }

  lemma {:induction false} MeaningsOfMembers(before: map<string, Value>, v: Value, ks: seq<string>)
    requires v.Dictionary? && Sorted(ks) && forall k :: k in ks ==> k in v.entries
    ensures MemberMeanings(before, JsonEncoder.MembersOf(v, ks)) == before + RepresentedEntries(v, ks)
    decreases v, 0, |ks|
  {
    hide Meaning, Represented, JsonEncoder.DocumentOf, Le;
    if ks == [] {
      assert before + RepresentedEntries(v, ks) == before;
    } else {
      var k := ks[0];
      var w := Represented(v.entries[k]);
      MeaningOfDocument(v.entries[k]);
      SortedTail(ks);
      hide Sorted;
      MeaningsOfMembers(before[k := w], v, ks[1..]);
      RepresentedEntriesStep(before, v, ks);
      assert JsonEncoder.MembersOf(v, ks)[1..] == JsonEncoder.MembersOf(v, ks[1..]);
    }
  }

  lemma {:induction false} DepthOfDocument(v: Value, n: nat)
    ensures Depth(JsonEncoder.DocumentOf(v)) <= n <==> NestsWithin(v, n)
    decreases v, 1
  {
    hide SortedKeys, Le, ItemDepth, MemberDepth, JsonEncoder.DocumentsOf, JsonEncoder.MembersOf;
    match v
    case Array(items) => if n > 0 { DepthOfDocuments(items, n - 1); }
    case Dictionary(m) => if n > 0 { DepthOfMembers(v, SortedKeys(m.Keys), n - 1); }
    case _ =>
  }

  lemma {:induction false} DepthOfDocuments(items: seq<Value>, n: nat)
    ensures ItemDepth(JsonEncoder.DocumentsOf(items)) <= n <==>
      forall i :: 0 <= i < |items| ==> NestsWithin(items[i], n)
    decreases items, 0
  {
    hide Depth, NestsWithin, JsonEncoder.DocumentOf;
    if items != [] {
      DepthOfDocument(items[0], n);
      DepthOfDocuments(items[1..], n);
      assert JsonEncoder.DocumentsOf(items)[1..] == JsonEncoder.DocumentsOf(items[1..]);
      assert forall i :: 1 <= i < |items| ==> items[i] == items[1..][i - 1];
      assert forall i :: 0 <= i < |items[1..]| ==> items[1..][i] == items[i + 1];
    }
  }

  lemma {:induction false} DepthOfMembers(v: Value, ks: seq<string>, n: nat)
    requires v.Dictionary? && forall k :: k in ks ==> k in v.entries
    ensures MemberDepth(JsonEncoder.MembersOf(v, ks)) <= n <==> forall k :: k in ks ==> NestsWithin(v.entries[k], n)
    decreases v, 0, |ks|
  {
    hide Depth, NestsWithin, JsonEncoder.DocumentOf;
    if ks != [] {
      DepthOfDocument(v.entries[ks[0]], n);
      DepthOfMembers(v, ks[1..], n);
      assert JsonEncoder.MembersOf(v, ks)[1..] == JsonEncoder.MembersOf(v, ks[1..]);
      assert ks == [ks[0]] + ks[1..];
    }
  }

  lemma {:induction false} RepresentedSame(v: Value)
    ensures Represented(v) == v <==> IsData(v)
  {
    match v
    case Array(items) =>
      forall i | 0 <= i < |items| ensures Represented(items[i]) == items[i] <==> IsData(items[i]) {
        RepresentedSame(items[i]);
      }
      assert Represented(v) == v <==> forall i :: 0 <= i < |items| ==> Represented(v).items[i] == items[i];
    case Dictionary(m) =>
      forall k | k in m ensures Represented(m[k]) == m[k] <==> IsData(m[k]) {
        RepresentedSame(m[k]);
      }
      assert Represented(v) == v <==> forall k :: k in m ==> Represented(v).entries[k] == m[k];
    case _ =>
  }

  /** Fed with the events of the encoder's output, in either layout, the machine ends with the
      value itself, other objects being represented by their texts, and an empty stack exactly
      if the value nests within the limit; the output is one document and no other. */
  lemma DecodeEncode(v: Value, pretty: bool, d: Document, limit: nat)
    requires Strip(JsonEncoder.Encoded(v, pretty, 0)) == Tokens(d)
    ensures Reported(Strip(JsonEncoder.Encoded(v, pretty, 0))) == Events(d)
    ensures Runs(Start(), Events(d), limit,
                 if NestsWithin(v, limit) then Machine(Represented(v), []) else TooDeep)
    ensures Represented(v) == v <==> IsData(v)
  {
    hide JsonEncoder.Encoded, JsonEncoder.DocumentOf, Strip, Tokens, Depth, Meaning, NestsWithin, Represented, IsData,
      Runs, Events, Reported;
    ReportedDocument(d);
    JsonEncoder.EncodedTokens(v, pretty, 0);
    assert Tokens(d) + [] == Tokens(JsonEncoder.DocumentOf(v)) + [];
    Unambiguous(d, [], JsonEncoder.DocumentOf(v), []);
    DecodeDocument(d, limit);
    MeaningOfDocument(v);
    DepthOfDocument(v, limit);
    RepresentedSame(v);
  }
}
