/**
 The packed form of a value, "suitable for consistent hashing": one tag byte, then the
 payload, with every length written first as a big-endian 64-bit number.
 A `string` is a sequence of bytes, one character each.
 */
module ObjectPacker {
  import opened Keys
  import opened Sequences
  import opened Values
  import opened Wrappers

  const LIMIT: int := 0x1_0000_0000_0000_0000

  // ---- the format ----

  /** The `n` low-order bytes of `x`, most significant first. */
  function BigEndian(x: nat, n: nat): (s: string)
    ensures |s| == n
    decreases n
  {
    if n == 0 then [] else BigEndian(x / 256, n - 1) + [(x % 256) as char]
  }

  function BigEndianValue(s: string): nat
    decreases |s|
  {
    if s == [] then 0 else 256 * BigEndianValue(s[..|s| - 1]) + s[|s| - 1] as nat
  }

  function PackedString(s: string): string {
    BigEndian(|s|, 8) + s
  }

  function Tag(v: Value): char {
    match v
    case Empty => 0 as char
    case Boolean(b) => if b then 2 as char else 1 as char
    case Number(_) => 3 as char
    case String(_) => 4 as char
    case Array(_) => 5 as char
    case Dictionary(_) => 6 as char
    case Other(_, _) => 0 as char
  }

  function Pack(v: Value): string
    decreases v, 2
  {
    [Tag(v)] + Payload(v)
  }

  function Payload(v: Value): string
    decreases v, 1
  {
    match v
    case Number(bits) => BigEndian(bits, 8)
    case String(s) => PackedString(s)
    case Array(items) => BigEndian(|items|, 8) + PackItems(items)
    case Dictionary(m) => BigEndian(|m|, 8) + PackEntries(v, SortedKeys(m.Keys))
    case _ => []
  }

  function PackItems(items: seq<Value>): string
    decreases items, 0
  {
    if items == [] then [] else Pack(items[0]) + PackItems(items[1..])
  }

  /** The entries of the dictionary `v` for the keys `ks`, in that order. */
  function PackEntries(v: Value, ks: seq<string>): string
    requires v.Dictionary? && forall k :: k in ks ==> k in v.entries
    decreases v, 0, |ks|
  {
    if ks == [] then []
    else PackedString(ks[0]) + Pack(v.entries[ks[0]]) + PackEntries(v, ks[1..])
  }

  /** All lengths inside `v` fit the 64-bit length fields. */
  predicate Fits(v: Value) {
    match v
    case String(s) => |s| < LIMIT
    case Array(items) => |items| < LIMIT && forall i :: 0 <= i < |items| ==> Fits(items[i])
    case Dictionary(m) =>
      |m| < LIMIT && forall k :: k in m ==> |k| < LIMIT && Fits(m[k])
    case _ => true
  }

  /** `v` with every object that cannot be packed replaced by null. */
  function Canonical(v: Value): Value {
    match v
    case Array(items) => Array(seq(|items|, i requires 0 <= i < |items| => Canonical(items[i])))
    case Dictionary(m) => Dictionary(map k | k in m :: Canonical(m[k]))
    case Other(_, _) => Empty
    case _ => v
  }

  // ---- an unpacker ----

  predicate IsByte(c: char) { c as int < 256 }

  function UnpackNumber(s: string): (r: Option<(nat, string)>)
    ensures r.Some? ==> |r.value.1| < |s| && r.value.0 < LIMIT
  {
    if |s| >= 8 && forall i :: 0 <= i < 8 ==> IsByte(s[i]) then
      EightBytes();
      BigEndianValueBound(s[..8]);
      Some((BigEndianValue(s[..8]), s[8..]))
    else None
  }

  function UnpackString(s: string): (r: Option<(string, string)>)
    ensures r.Some? ==> |r.value.1| < |s|
  {
    match UnpackNumber(s)
    case Some((n, rest)) => if n <= |rest| then Some((rest[..n], rest[n..])) else None
    case None => None
  }

  /** Reads one value off the front of `s`; refuses a dictionary whose keys do not come in
      strictly increasing order. */
  function Unpack(s: string): (r: Option<(Value, string)>)
    ensures r.Some? ==> |r.value.1| < |s|
    decreases |s|, 0
  {
    if s == [] then None else UnpackPayload(s[0], s[1..])
  }

  function UnpackPayload(tag: char, s: string): (r: Option<(Value, string)>)
    ensures r.Some? ==> |r.value.1| <= |s|
    decreases |s|, 3
  {
    if tag == 0 as char then Some((Empty, s))
    else if tag == 1 as char then Some((Boolean(false), s))
    else if tag == 2 as char then Some((Boolean(true), s))
    else if tag == 3 as char then
      match UnpackNumber(s)
      case Some((n, rest)) => Some((Number(n), rest))
      case None => None
    else if tag == 4 as char then
      match UnpackString(s)
      case Some((t, rest)) => Some((String(t), rest))
      case None => None
    else if tag == 5 as char then UnpackArray(s)
    else if tag == 6 as char then UnpackDictionary(s)
    else None
  }

  function UnpackArray(s: string): (r: Option<(Value, string)>)
    ensures r.Some? ==> |r.value.1| < |s|
    decreases |s|, 2
  {
    match UnpackNumber(s)
    case Some((n, rest)) =>
      (match UnpackItems(rest, n)
       case Some((items, rest')) => Some((Array(items), rest'))
       case None => None)
    case None => None
  }

  function UnpackDictionary(s: string): (r: Option<(Value, string)>)
    ensures r.Some? ==> |r.value.1| < |s|
    decreases |s|, 2
  {
    match UnpackNumber(s)
    case Some((n, rest)) =>
      (match UnpackEntries(rest, n)
       case Some((ks, m, rest')) => if Sorted(ks) then Some((Dictionary(m), rest')) else None
       case None => None)
    case None => None
  }

  function UnpackItems(s: string, n: nat): (r: Option<(seq<Value>, string)>)
    ensures r.Some? ==> |r.value.1| <= |s| && |r.value.0| == n
    decreases |s|, 1
  {
    if n == 0 then Some(([], s))
    else
      match Unpack(s)
      case Some((v, rest)) =>
        (match UnpackItems(rest, n - 1)
         case Some((vs, rest')) => Some(([v] + vs, rest'))
         case None => None)
      case None => None
  }

  function UnpackEntries(s: string, n: nat): (r: Option<(seq<string>, map<string, Value>, string)>)
    ensures r.Some? ==> |r.value.2| <= |s| && |r.value.0| == n
    ensures r.Some? ==> forall k :: k in r.value.0 <==> k in r.value.1
    decreases |s|, 1
  {
    if n == 0 then Some(([], map[], s))
    else
      match UnpackString(s)
      case Some((k, rest)) =>
        (match Unpack(rest)
         case Some((v, rest')) =>
           (match UnpackEntries(rest', n - 1)
            case Some((ks, m, rest'')) => Some(([k] + ks, m[k := v], rest''))
            case None => None)
         case None => None)
      case None => None
  }

  // ---- numbers and strings ----

  function Pow256(n: nat): nat {
    if n == 0 then 1 else 256 * Pow256(n - 1)
  }

  lemma EightBytes()
    ensures Pow256(8) == LIMIT
  {
    assert Pow256(4) == 256 * 256 * 256 * 256;
    assert Pow256(8) == 256 * (256 * (256 * (256 * Pow256(4))));
  }

  predicate Bytes(s: string) {
    forall i :: 0 <= i < |s| ==> IsByte(s[i])
  }

  lemma {:induction false} BigEndianValueBound(s: string)
    requires Bytes(s)
    ensures BigEndianValue(s) < Pow256(|s|)
    decreases |s|
  {
    if s != [] {
      BigEndianValueBound(s[..|s| - 1]);
    }
  }

  lemma {:induction false} ValueOfBigEndian(x: nat, n: nat)
    requires x < Pow256(n)
    ensures Bytes(BigEndian(x, n)) && BigEndianValue(BigEndian(x, n)) == x
  {
    if n > 0 {
      ValueOfBigEndian(x / 256, n - 1);
      var s := BigEndian(x, n);
      assert s[..n - 1] == BigEndian(x / 256, n - 1);
    }
  }

  lemma DivMod256(a: nat, b: nat)
    requires b < 256
    ensures (256 * a + b) / 256 == a && (256 * a + b) % 256 == b
  {
  }

  lemma {:induction false} BigEndianOfValue(s: string)
    requires Bytes(s)
    ensures BigEndian(BigEndianValue(s), |s|) == s
    decreases |s|
  {
    if s != [] {
      var front, last := s[..|s| - 1], s[|s| - 1];
      BigEndianOfValue(front);
      DivMod256(BigEndianValue(front), last as nat);
      assert s == front + [last];
    }
  }

  lemma UnpackPackedNumber(x: nat, rest: string)
    requires x < LIMIT
    ensures UnpackNumber(BigEndian(x, 8) + rest) == Some((x, rest))
  {
    EightBytes();
    ValueOfBigEndian(x, 8);
    var s := BigEndian(x, 8) + rest;
    assert s[..8] == BigEndian(x, 8) && s[8..] == rest;
  }

  lemma UnpackPackedString(t: string, rest: string)
    requires |t| < LIMIT
    ensures UnpackString(PackedString(t) + rest) == Some((t, rest))
  {
    UnpackPackedNumber(|t|, t + rest);
    assert PackedString(t) + rest == BigEndian(|t|, 8) + (t + rest);
    assert (t + rest)[..|t|] == t && (t + rest)[|t|..] == rest;
  }

  lemma UnpackNumberSound(s: string)
    requires UnpackNumber(s).Some?
    ensures var (x, rest) := UnpackNumber(s).value; s == BigEndian(x, 8) + rest
  {
    BigEndianOfValue(s[..8]);
    assert s == s[..8] + s[8..];
  }

  lemma UnpackStringSound(s: string)
    requires UnpackString(s).Some?
    ensures var (t, rest) := UnpackString(s).value; s == PackedString(t) + rest && |t| < LIMIT
  {
    hide BigEndian, BigEndianValue;
    UnpackNumberSound(s);
    var (n, rest) := UnpackNumber(s).value;
    assert rest == rest[..n] + rest[n..];
  }

  // ---- unpacking undoes packing ----

  function CanonicalItems(items: seq<Value>): seq<Value> {
    seq(|items|, i requires 0 <= i < |items| => Canonical(items[i]))
  }

  function CanonicalEntries(v: Value, ks: seq<string>): map<string, Value>
    requires v.Dictionary? && forall k :: k in ks ==> k in v.entries
  {
    map k | k in ks :: Canonical(v.entries[k])
  }

  lemma UnpackArrayStep(items: seq<Value>, rest: string)
    requires |items| < LIMIT
    requires UnpackItems(PackItems(items) + rest, |items|) == Some((CanonicalItems(items), rest))
    ensures UnpackArray(BigEndian(|items|, 8) + PackItems(items) + rest) == Some((Canonical(Array(items)), rest))
  {
    hide BigEndian, BigEndianValue, UnpackNumber, Unpack, PackItems, UnpackItems;
    UnpackPackedNumber(|items|, PackItems(items) + rest);
    assert BigEndian(|items|, 8) + PackItems(items) + rest == BigEndian(|items|, 8) + (PackItems(items) + rest);
  }

  lemma CanonicalDictionary(v: Value)
    requires v.Dictionary?
    ensures Canonical(v) == Dictionary(CanonicalEntries(v, SortedKeys(v.entries.Keys)))
  {
    hide SortedKeys, Le;
  }

  lemma UnpackDictionaryStep(v: Value, rest: string)
    requires v.Dictionary? && |v.entries| < LIMIT
    requires var ks := SortedKeys(v.entries.Keys);
      UnpackEntries(PackEntries(v, ks) + rest, |ks|) == Some((ks, CanonicalEntries(v, ks), rest))
    ensures var ks := SortedKeys(v.entries.Keys);
      UnpackDictionary(BigEndian(|v.entries|, 8) + PackEntries(v, ks) + rest) == Some((Canonical(v), rest))
  {
    hide BigEndian, BigEndianValue, UnpackNumber, Unpack, PackEntries, UnpackEntries, SortedKeys, Le,
      Canonical, CanonicalEntries;
    var ks, n := SortedKeys(v.entries.Keys), |v.entries|;
    UnpackPackedNumber(n, PackEntries(v, ks) + rest);
    assert BigEndian(n, 8) + PackEntries(v, ks) + rest == BigEndian(n, 8) + (PackEntries(v, ks) + rest);
    CanonicalDictionary(v);
  }

  lemma UnpackEntriesStep(s: string, n: nat, k: string, v: Value, ks: seq<string>, m: map<string, Value>,
                          r1: string, r2: string, r3: string)
    requires n > 0 && UnpackString(s) == Some((k, r1)) && Unpack(r1) == Some((v, r2))
    requires UnpackEntries(r2, n - 1) == Some((ks, m, r3))
    ensures UnpackEntries(s, n) == Some(([k] + ks, m[k := v], r3))
  {
    hide BigEndian, BigEndianValue, UnpackNumber, Unpack, UnpackString;
  }

  lemma {:induction false} UnpackPackedPayload(v: Value, rest: string)
    requires Fits(v)
    ensures UnpackPayload(Tag(v), Payload(v) + rest) == Some((Canonical(v), rest))
    decreases v, 1
  {
    hide BigEndian, BigEndianValue, UnpackNumber, UnpackArray, UnpackDictionary, UnpackString,
      PackedString, PackItems, PackEntries, SortedKeys, Sorted, Le;
    if v.Number? {
      UnpackPackedNumber(v.bits, rest);
    } else if v.String? {
      UnpackPackedString(v.s, rest);
    } else if v.Array? {
      UnpackPackItems(v.items, rest);
      UnpackArrayStep(v.items, rest);
    } else if v.Dictionary? {
      UnpackPackEntries(v, SortedKeys(v.entries.Keys), rest);
      UnpackDictionaryStep(v, rest);
    } else {
      assert Payload(v) + rest == rest;
    }
  }

  /** Whatever follows it, a packed value is read back exactly, up to objects that cannot be
      packed at all. */
  lemma UnpackPack(v: Value, rest: string)
    requires Fits(v)
    ensures Unpack(Pack(v) + rest) == Some((Canonical(v), rest))
    decreases v, 2
  {
    hide UnpackPayload, Payload, Canonical;
    UnpackPackedPayload(v, rest);
    assert (Pack(v) + rest)[1..] == Payload(v) + rest;
  }

  lemma {:induction false} UnpackPackItems(items: seq<Value>, rest: string)
    requires forall i :: 0 <= i < |items| ==> Fits(items[i])
    ensures UnpackItems(PackItems(items) + rest, |items|) == Some((CanonicalItems(items), rest))
    decreases items, 0
  {
    hide BigEndian, BigEndianValue, UnpackNumber, Unpack, Pack, Canonical;
    var s := PackItems(items) + rest;
    if items == [] {
      assert s == rest;
    } else {
      var rest' := PackItems(items[1..]) + rest;
      assert s == Pack(items[0]) + rest';
      UnpackPack(items[0], rest');
      UnpackPackItems(items[1..], rest);
      assert CanonicalItems(items) == [Canonical(items[0])] + CanonicalItems(items[1..]);
    }
  }

  lemma CanonicalEntriesStep(v: Value, ks: seq<string>)
    requires v.Dictionary? && ks != [] && forall k :: k in ks ==> k in v.entries
    ensures CanonicalEntries(v, ks) == CanonicalEntries(v, ks[1..])[ks[0] := Canonical(v.entries[ks[0]])]
  {
    hide Canonical;
    assert ks == [ks[0]] + ks[1..];
  }

  lemma PackEntriesCons(v: Value, ks: seq<string>, rest: string)
    requires v.Dictionary? && ks != [] && forall k :: k in ks ==> k in v.entries
    ensures PackEntries(v, ks) + rest ==
      PackedString(ks[0]) + (Pack(v.entries[ks[0]]) + (PackEntries(v, ks[1..]) + rest))
  {
    hide Pack, PackedString;
    AssociateFour(PackedString(ks[0]), Pack(v.entries[ks[0]]), PackEntries(v, ks[1..]), rest);
  }

  lemma UnpackNoEntries(v: Value, rest: string)
    requires v.Dictionary?
    ensures UnpackEntries(PackEntries(v, []) + rest, 0) == Some(([], CanonicalEntries(v, []), rest))
  {
    hide UnpackNumber, Unpack, UnpackString, PackedString, Pack, Canonical;
    assert PackEntries(v, []) + rest == rest;
  }

  lemma {:induction false} UnpackPackEntries(v: Value, ks: seq<string>, rest: string)
    requires v.Dictionary?
    requires forall k :: k in ks ==> k in v.entries && |k| < LIMIT && Fits(v.entries[k])
    ensures UnpackEntries(PackEntries(v, ks) + rest, |ks|) == Some((ks, CanonicalEntries(v, ks), rest))
    decreases v, 0, |ks|
  {
    hide BigEndian, BigEndianValue, UnpackNumber, Unpack, UnpackString, PackedString, Pack, Canonical, Fits,
      UnpackEntries, PackEntries, CanonicalEntries;
    if ks == [] {
      UnpackNoEntries(v, rest);
    } else {
      var k, w := ks[0], v.entries[ks[0]];
      var r2 := PackEntries(v, ks[1..]) + rest;
      var r1 := Pack(w) + r2;
      UnpackPackedString(k, r1);
      UnpackPack(w, r2);
      UnpackPackEntries(v, ks[1..], rest);
      UnpackEntriesStep(PackedString(k) + r1, |ks|, k, Canonical(w), ks[1..],
                        CanonicalEntries(v, ks[1..]), r1, r2, rest);
      CanonicalEntriesStep(v, ks);
      PackEntriesCons(v, ks, rest);
      assert ks == [k] + ks[1..];
    }
  }

  // ---- only packed values unpack ----

  lemma {:induction false} UnpackPayloadSound(tag: char, s: string)
    requires UnpackPayload(tag, s).Some?
    ensures var (v, rest) := UnpackPayload(tag, s).value;
      tag == Tag(v) && s == Payload(v) + rest && Fits(v) && Canonical(v) == v
    decreases |s|, 3
  {
    hide BigEndian, BigEndianValue, UnpackNumber, UnpackArray, UnpackDictionary, UnpackString,
      PackedString, PackItems, PackEntries, SortedKeys, Sorted, Le;
    if tag == 3 as char { UnpackNumberSound(s); }
    else if tag == 4 as char { UnpackStringSound(s); }
    else if tag == 5 as char { UnpackArraySound(s); }
    else if tag == 6 as char { UnpackDictionarySound(s); }
  }

  /** Only a packed value unpacks: the unpacker accepts no other byte string. */
  lemma UnpackSound(s: string)
    requires Unpack(s).Some?
    ensures var (v, rest) := Unpack(s).value; s == Pack(v) + rest && Fits(v) && Canonical(v) == v
    decreases |s|, 0
  {
    hide UnpackPayload, Payload, Canonical, Fits, Tag;
    UnpackPayloadSound(s[0], s[1..]);
  }

  lemma {:induction false} UnpackArraySound(s: string)
    requires UnpackArray(s).Some?
    ensures var (v, rest) := UnpackArray(s).value;
      && v.Array? && s == Payload(v) + rest && Fits(v) && Canonical(v) == v
    decreases |s|, 2
  {
    hide BigEndian, BigEndianValue, UnpackNumber, Unpack, UnpackItems, PackItems;
    var (n, body) := UnpackNumber(s).value;
    var (items, rest) := UnpackItems(body, n).value;
    UnpackNumberSound(s);
    UnpackItemsSound(body, n);
    assert Canonical(Array(items)).items == items;
  }

  lemma {:induction false} UnpackItemsSound(s: string, n: nat)
    requires UnpackItems(s, n).Some?
    ensures var (items, rest) := UnpackItems(s, n).value;
      && s == PackItems(items) + rest
      && forall i :: 0 <= i < |items| ==> Fits(items[i]) && Canonical(items[i]) == items[i]
    decreases |s|, 1
  {
    hide BigEndian, BigEndianValue, UnpackNumber, Unpack, Pack, Fits, Canonical;
    if n > 0 {
      UnpackSound(s);
      var (v, rest) := Unpack(s).value;
      UnpackItemsSound(rest, n - 1);
      var (vs, rest') := UnpackItems(rest, n - 1).value;
      assert ([v] + vs)[1..] == vs;
    }
  }

  lemma {:induction false} UnpackDictionarySound(s: string)
    requires UnpackDictionary(s).Some?
    ensures var (v, rest) := UnpackDictionary(s).value;
      && v.Dictionary? && s == Payload(v) + rest && Fits(v) && Canonical(v) == v
    decreases |s|, 2
  {
    hide BigEndian, BigEndianValue, UnpackNumber, UnpackEntries, PackEntries, SortedKeys, Sorted, Le,
      Canonical, Fits, SoundEntries;
    var (n, body) := UnpackNumber(s).value;
    var (ks, m, rest) := UnpackEntries(body, n).value;
    UnpackNumberSound(s);
    UnpackEntriesSound(body, n);
    assert Sorted(ks);
    SortedUnique(ks, SortedKeys(m.Keys));
    SoundDictionary(m);
  }

  lemma SoundDictionary(m: map<string, Value>)
    requires SoundEntries(m) && |m| < LIMIT
    ensures Fits(Dictionary(m)) && Canonical(Dictionary(m)) == Dictionary(m)
  {
  }

  /** Adding an entry does not change how the other entries are packed. */
  lemma {:induction false} PackEntriesAdd(m: map<string, Value>, k: string, v: Value, ks: seq<string>)
    requires k !in ks && forall k' :: k' in ks ==> k' in m
    ensures PackEntries(Dictionary(m[k := v]), ks) == PackEntries(Dictionary(m), ks)
  {
    if ks != [] {
      PackEntriesAdd(m, k, v, ks[1..]);
    }
  }

  lemma UnpackEntriesParts(s: string, n: nat)
      returns (k: string, v: Value, ks: seq<string>, m: map<string, Value>, r1: string, r2: string, r3: string)
    requires UnpackEntries(s, n).Some? && n > 0
    ensures UnpackString(s) == Some((k, r1)) && Unpack(r1) == Some((v, r2))
    ensures UnpackEntries(r2, n - 1) == Some((ks, m, r3)) && |r1| < |s| && |r2| < |s|
    ensures UnpackEntries(s, n) == Some(([k] + ks, m[k := v], r3))
  {
    hide BigEndian, BigEndianValue, UnpackNumber, Unpack, UnpackString;
    k, r1 := UnpackString(s).value.0, UnpackString(s).value.1;
    v, r2 := Unpack(r1).value.0, Unpack(r1).value.1;
    var tail := UnpackEntries(r2, n - 1).value;
    ks, m, r3 := tail.0, tail.1, tail.2;
  }

  predicate SoundEntries(m: map<string, Value>) {
    forall k :: k in m ==> |k| < LIMIT && Fits(m[k]) && Canonical(m[k]) == m[k]
  }

  lemma SoundEntriesAdd(m: map<string, Value>, k: string, v: Value)
    requires SoundEntries(m) && |k| < LIMIT && Fits(v) && Canonical(v) == v
    ensures SoundEntries(m[k := v])
  {
    hide Fits, Canonical;
  }

  lemma {:induction false} UnpackEntriesSound(s: string, n: nat)
    requires UnpackEntries(s, n).Some? && Sorted(UnpackEntries(s, n).value.0)
    ensures var (ks, m, rest) := UnpackEntries(s, n).value;
      s == PackEntries(Dictionary(m), ks) + rest && SoundEntries(m)
    decreases |s|, 1
  {
    hide BigEndian, BigEndianValue, UnpackNumber, Unpack, UnpackString, PackedString, Pack, Fits, Canonical, Sorted, Le;
    if n > 0 {
      hide UnpackEntries, SoundEntries;
      var k, v, ks, m, r1, r2, r3 := UnpackEntriesParts(s, n);
      assert ([k] + ks)[1..] == ks;
      SortedTail([k] + ks);
      UnpackStringSound(s);
      UnpackSound(r1);
      UnpackEntriesSound(r2, n - 1);
      SoundEntriesAdd(m, k, v);
      PackEntriesAdd(m, k, v, ks);
      assert PackEntries(Dictionary(m[k := v]), [k] + ks) ==
        PackedString(k) + Pack(v) + PackEntries(Dictionary(m), ks) by {
        assert ([k] + ks)[1..] == ks;
      }
      AssociateFour(PackedString(k), Pack(v), PackEntries(Dictionary(m), ks), r3);
    }
  }

  // ---- the format is injective and prefix-free ----

  lemma PackCanonical(v: Value)
    requires Fits(v)
    ensures Pack(Canonical(v)) == Pack(v)
  {
    hide Pack, Unpack, Canonical, Fits;
    UnpackPack(v, []);
    UnpackSound(Pack(v) + []);
    assert Pack(v) + [] == Pack(v) && Pack(Canonical(v)) + [] == Pack(Canonical(v));
  }

  /** The byte that tells what kind of value follows. */
  lemma PackStartsWith(v: Value)
    ensures Pack(v)[0] as int == match v
      case Empty => 0
      case Boolean(false) => 1
      case Boolean(true) => 2
      case Number(_) => 3
      case String(_) => 4
      case Array(_) => 5
      case Dictionary(_) => 6
      case Other(_, _) => 0
  {
    hide Payload;
  }

  /** Two packed values followed by anything are the same bytes exactly if the values are the
      same (objects that cannot be packed counting as null) and what follows is the same.
      In particular no packed value is a proper prefix of another one. */
  lemma PrefixFree(v1: Value, s1: string, v2: Value, s2: string)
    requires Fits(v1) && Fits(v2)
    ensures Pack(v1) + s1 == Pack(v2) + s2 <==> Canonical(v1) == Canonical(v2) && s1 == s2
  {
    hide Pack, Unpack, Canonical, Fits;
    UnpackPack(v1, s1);
    UnpackPack(v2, s2);
    PackCanonical(v1);
    PackCanonical(v2);
  }

  /** Exactly the packed values unpack, and each to the value it came from. */
  lemma UnpackExact(s: string, v: Value, rest: string)
    ensures Unpack(s) == Some((v, rest)) <==> s == Pack(v) + rest && Fits(v) && Canonical(v) == v
  {
    hide Pack, Unpack, Canonical, Fits;
    if Unpack(s) == Some((v, rest)) { UnpackSound(s); }
    if Fits(v) { UnpackPack(v, rest); }
  }

  lemma {:induction false} CanonicalData(v: Value)
    ensures Canonical(v) == v <==> IsData(v)
  {
    match v
    case Array(items) =>
      forall i | 0 <= i < |items| ensures Canonical(items[i]) == items[i] <==> IsData(items[i]) {
        CanonicalData(items[i]);
      }
      assert Canonical(v) == v <==> forall i :: 0 <= i < |items| ==> Canonical(v).items[i] == items[i];
    case Dictionary(m) =>
      forall k | k in m ensures Canonical(m[k]) == m[k] <==> IsData(m[k]) {
        CanonicalData(m[k]);
      }
      assert Canonical(v) == v <==> forall k :: k in m ==> Canonical(v).entries[k] == m[k];
    case _ =>
  }

  /** On JSON-encodable values packing is injective. */
  lemma PackInjective(v1: Value, v2: Value)
    requires Fits(v1) && Fits(v2) && IsData(v1) && IsData(v2)
    requires Pack(v1) == Pack(v2)
    ensures v1 == v2
  {
    hide Pack, Canonical, Fits, IsData;
    PrefixFree(v1, [], v2, []);
    CanonicalData(v1);
    CanonicalData(v2);
  }

  // ---- the packer ----

  lemma BigEndianEight(x: nat)
    requires x < LIMIT
    ensures BigEndian(x, 8) == [
      (x / 0x100_0000_0000_0000) as char, (x / 0x1_0000_0000_0000 % 256) as char,
      (x / 0x100_0000_0000 % 256) as char, (x / 0x1_0000_0000 % 256) as char,
      (x / 0x100_0000 % 256) as char, (x / 0x1_0000 % 256) as char,
      (x / 0x100 % 256) as char, (x % 256) as char]
  {
    var x1 := x / 256;
    var x2 := x1 / 256;
    var x3 := x2 / 256;
    var x4 := x3 / 256;
    var x5 := x4 / 256;
    var x6 := x5 / 256;
    var x7 := x6 / 256;
    assert x2 == x / 0x1_0000 && x3 == x / 0x100_0000 && x4 == x / 0x1_0000_0000;
    assert x5 == x / 0x100_0000_0000 && x6 == x / 0x1_0000_0000_0000 && x7 == x / 0x100_0000_0000_0000;
    assert x7 < 256;
  }

  /** The bytes of the machine word `bits` in memory order. */
  function MemoryBytes(bits: Float64, littleEndian: bool): (s: string)
    ensures |s| == 8
  {
    var b := BigEndian(bits, 8);
    if littleEndian then [b[7], b[6], b[5], b[4], b[3], b[2], b[1], b[0]] else b
  }

  lemma PackItemsSnoc(items: seq<Value>, v: Value)
    ensures PackItems(items + [v]) == PackItems(items) + Pack(v)
    decreases |items|
  {
    hide Pack;
    if items == [] {
      assert PackItems([v]) == Pack(v) + PackItems([v][1..]);
      assert [] + [v] == [v];
    } else {
      PackItemsSnoc(items[1..], v);
      assert (items + [v])[1..] == items[1..] + [v];
    }
  }

  lemma {:induction false} PackEntriesSnoc(v: Value, ks: seq<string>, k: string)
    requires v.Dictionary? && k in v.entries && forall k' :: k' in ks ==> k' in v.entries
    ensures PackEntries(v, ks + [k]) == PackEntries(v, ks) + PackedString(k) + Pack(v.entries[k])
    decreases |ks|
  {
    hide Pack, PackedString;
    if ks == [] {
      assert ks + [k] == [k] && [k][1..] == [];
    } else {
      PackEntriesSnoc(v, ks[1..], k);
      assert (ks + [k])[1..] == ks[1..] + [k];
    }
  }

  lemma FitsLength(v: Value)
    requires v.Dictionary? && Fits(v)
    ensures |v.entries| < LIMIT
  {
  }

  lemma FitsEntry(v: Value, k: string)
    requires v.Dictionary? && Fits(v) && k in v.entries
    ensures |v.entries| < LIMIT && |k| < LIMIT && Fits(v.entries[k])
  {
  }

  lemma PackNothing(v: Value)
    ensures PackItems([]) == [] && (v.Dictionary? ==> PackEntries(v, []) == [])
  {
  }

  lemma PackContainer(v: Value)
    ensures v.Array? ==> Pack(v) == [5 as char] + BigEndian(|v.items|, 8) + PackItems(v.items)
    ensures v.Dictionary? ==>
      Pack(v) == [6 as char] + BigEndian(|v.entries|, 8) + PackEntries(v, SortedKeys(v.entries.Keys))
  {
    hide BigEndian, PackItems, PackEntries, SortedKeys;
  }

  /** The string a value is packed into, growing at its end. */
  class Packer {
    var builder: string
    const littleEndian: bool

    constructor (littleEndian: bool)
      ensures builder == [] && this.littleEndian == littleEndian
    {
      builder := [];
      this.littleEndian := littleEndian;
    }

    method PackUInt64BE(i: nat)
      requires i < LIMIT
      modifies this`builder
      ensures builder == old(builder) + BigEndian(i, 8)
    {
      var buf := [
        (i / 0x100_0000_0000_0000) as char, (i / 0x1_0000_0000_0000 % 256) as char,
        (i / 0x100_0000_0000 % 256) as char, (i / 0x1_0000_0000 % 256) as char,
        (i / 0x100_0000 % 256) as char, (i / 0x1_0000 % 256) as char,
        (i / 0x100 % 256) as char, (i % 256) as char];
      BigEndianEight(i);
      builder := builder + buf;
    }

    method PackFloat64BE(bits: Float64)
      modifies this`builder
      ensures builder == old(builder) + BigEndian(bits, 8)
    {
      hide BigEndian;
      var bytes := MemoryBytes(bits, littleEndian);
      var buf := new char[8](i requires 0 <= i < 8 => bytes[i]);
      if littleEndian {
        buf[0], buf[7] := buf[7], buf[0];
        buf[1], buf[6] := buf[6], buf[1];
        buf[2], buf[5] := buf[5], buf[2];
        buf[3], buf[4] := buf[4], buf[3];
      }
      assert buf[..] == BigEndian(bits, 8);
      builder := builder + buf[..];
    }

    method PackString(s: string)
      requires |s| < LIMIT
      modifies this`builder
      ensures builder == old(builder) + PackedString(s)
    {
      PackUInt64BE(|s|);
      builder := builder + s;
    }

    method PackArray(items: seq<Value>)
      requires Fits(Array(items))
      modifies this`builder
      ensures builder == old(builder) + Pack(Array(items))
      decreases items, 0
    {
      hide BigEndian, Pack, PackItems;
      builder := builder + [5 as char];
      PackUInt64BE(|items|);
      ghost var start := builder;
      PackNothing(Array(items));
      var i := 0;
      while i < |items|
        invariant 0 <= i <= |items|
        invariant builder == start + PackItems(items[..i])
      {
        PackAny(items[i]);
        PackItemsSnoc(items[..i], items[i]);
        assert items[..i + 1] == items[..i] + [items[i]];
        i := i + 1;
      }
      assert items[..|items|] == items;
      PackContainer(Array(items));
    }

    method PackDictionary(v: Value)
      requires v.Dictionary? && Fits(v)
      modifies this`builder
      ensures builder == old(builder) + Pack(v)
      decreases v, 0
    {
      hide BigEndian, Pack, PackEntries, PackedString, SortedKeys, Sorted, Le, Fits;
      assert |v.entries| < LIMIT by { FitsLength(v); }
      builder := builder + [6 as char];
      PackUInt64BE(|v.entries|);
      var ks := SortedKeys(v.entries.Keys);
      ghost var start := builder;
      PackNothing(v);
      var i := 0;
      while i < |ks|
        invariant 0 <= i <= |ks|
        invariant builder == start + PackEntries(v, ks[..i])
      {
        var k := ks[i];
        FitsEntry(v, k);
        PackString(k);
        PackAny(v.entries[k]);
        PackEntriesSnoc(v, ks[..i], k);
        assert ks[..i + 1] == ks[..i] + [k];
        i := i + 1;
      }
      assert ks[..|ks|] == ks;
      PackContainer(v);
    }

    method PackAny(v: Value)
      requires Fits(v)
      modifies this`builder
      ensures builder == old(builder) + Pack(v)
      decreases v, 1
    {
      match v
      case String(s) =>
        builder := builder + [4 as char];
        PackString(s);
      case Number(bits) =>
        builder := builder + [3 as char];
        PackFloat64BE(bits);
      case Boolean(b) =>
        builder := builder + [if b then 2 as char else 1 as char];
      case Empty =>
        builder := builder + [0 as char];
      case Dictionary(_) => PackDictionary(v);
      case Array(items) => PackArray(items);
      case Other(_, _) =>
        builder := builder + [0 as char];
    }
  }

  /** Packs a value on a machine of either endianness: the bytes never depend on it. */
  method PackObject(v: Value, littleEndian: bool) returns (packed: string)
    requires Fits(v)
    ensures packed == Pack(v)
    ensures Unpack(packed) == Some((Canonical(v), []))
  {
    var packer := new Packer(littleEndian);
    packer.PackAny(v);
    packed := packer.builder;
    UnpackPack(v, []);
    assert Pack(v) + [] == Pack(v);
  }
}
