/** The JSON printer, compact or indented by four spaces a level. */
module JsonEncoder {
  import opened Keys
  import opened Values
  import opened JsonGrammar
  import opened Sequences

  const INDENT_SIZE: nat := 4

  /** The document that stands for a value; an object that is neither an array nor a
      dictionary is represented by its text. */
  function DocumentOf(v: Value): Document
    decreases v, 1
  {
    match v
    case Array(items) => Elements(DocumentsOf(items))
    case Dictionary(m) => Members(MembersOf(v, SortedKeys(m.Keys)))
    case Other(text, _) => Text(String(text))
    case _ => Text(v)
  }

  function DocumentsOf(items: seq<Value>): (ds: seq<Document>)
    ensures |ds| == |items|
    decreases items, 0
  {
    if items == [] then [] else [DocumentOf(items[0])] + DocumentsOf(items[1..])
  }

  function MembersOf(v: Value, ks: seq<string>): (ms: seq<Member>)
    requires v.Dictionary? && forall k :: k in ks ==> k in v.entries
    ensures |ms| == |ks|
    decreases v, 0, |ks|
  {
    if ks == [] then [] else [Member(ks[0], DocumentOf(v.entries[ks[0]]))] + MembersOf(v, ks[1..])
  }

  // ---- what the encoder writes ----

  function Spaces(n: nat): string {
    seq(n, _ => ' ')
  }

  /** A line break and the indentation of the next line. */
  function LineBreak(pretty: bool, indent: nat): seq<Token> {
    if pretty then [Space("\n"), Space(Spaces(indent))] else []
  }

  function Deeper(pretty: bool, indent: nat): nat {
    if pretty then indent + INDENT_SIZE else indent
  }

  function ColonTokens(pretty: bool): seq<Token> {
    if pretty then [Colon, Space(" ")] else [Colon]
  }

  function Encoded(v: Value, pretty: bool, indent: nat): seq<Token>
    decreases v, 1
  {
    EncodedBody(v, pretty, indent) + if pretty && indent == 0 then [Space("\n")] else []
  }

  function EncodedBody(v: Value, pretty: bool, indent: nat): seq<Token>
    decreases v, 0, 1
  {
    match v
    case Array(items) =>
      [LeftBracket] + EncodedItems(v, |items|, pretty, Deeper(pretty, indent))
      + (if items == [] then [] else LineBreak(pretty, indent)) + [RightBracket]
    case Dictionary(m) =>
      var ks := SortedKeys(m.Keys);
      [LeftBrace] + EncodedMembers(v, ks, |ks|, pretty, Deeper(pretty, indent))
      + (if ks == [] then [] else LineBreak(pretty, indent)) + [RightBrace]
    case Other(text, _) => [StringToken(text)]
    case _ => [ScalarToken(v)]
  }

  function Separator(emitComma: bool, pretty: bool, indent: nat): seq<Token> {
    (if emitComma then [Comma] else []) + LineBreak(pretty, indent)
  }

  /** The first `n` elements of the array `v`. */
  function EncodedItems(v: Value, n: nat, pretty: bool, indent: nat): seq<Token>
    requires v.Array? && n <= |v.items|
    decreases v, 0, 0, n
  {
    if n == 0 then []
    else
      EncodedItems(v, n - 1, pretty, indent) + Separator(n > 1, pretty, indent)
      + Encoded(v.items[n - 1], pretty, indent)
  }

  /** The entries of the dictionary `v` for the first `n` of the keys `ks`. */
  function EncodedMembers(v: Value, ks: seq<string>, n: nat, pretty: bool, indent: nat): seq<Token>
    requires v.Dictionary? && n <= |ks| && forall k :: k in ks ==> k in v.entries
    decreases v, 0, 0, n
  {
    if n == 0 then []
    else
      EncodedMembers(v, ks, n - 1, pretty, indent) + Separator(n > 1, pretty, indent)
      + [StringToken(ks[n - 1])] + ColonTokens(pretty) + Encoded(v.entries[ks[n - 1]], pretty, indent)
  }

  // ---- the output is the document's tokens, plus whitespace ----

  lemma {:induction false} ItemTokensSnoc(ds: seq<Document>, d: Document)
    ensures ItemTokens(ds + [d]) == ItemTokens(ds) + (if ds == [] then [] else [Comma]) + Tokens(d)
    decreases |ds|
  {
    hide Tokens;
    if ds == [] {
      assert ds + [d] == [d] && [d][1..] == [];
    } else {
      ItemTokensSnoc(ds[1..], d);
      assert (ds + [d])[1..] == ds[1..] + [d];
    }
  }

  lemma {:induction false} MemberTokensSnoc(ms: seq<Member>, m: Member)
    ensures MemberTokens(ms + [m]) ==
      MemberTokens(ms) + (if ms == [] then [] else [Comma]) + [StringToken(m.name), Colon] + Tokens(m.doc)
    decreases |ms|
  {
    hide Tokens, MemberTokens;
    var all := ms + [m];
    var name, doc := [StringToken(m.name), Colon], Tokens(m.doc);
    MemberTokensFirst(all);
    MemberTokensFirst(ms);
    if ms == [] {
      assert all == [m] && all[1..] == ms;
      assert [] + [] + name + doc == name + doc + [] + [];
    } else {
      var rest := ms[1..];
      assert all[0] == ms[0] && all[1..] == rest + [m];
      MemberTokensSnoc(rest, m);
      MemberTokensFirst(rest);
      var first := [StringToken(ms[0].name), Colon] + Tokens(ms[0].doc);
      if rest == [] {
        assert [] + [] + name + doc == name + doc;
        Associate(first + [Comma], name, doc);
        assert first + [] + [] == first;
      } else {
        AssociateFive(first + [Comma], MemberTokens(rest), [Comma], name, doc);
      }
    }
  }

  lemma MemberTokensFirst(ms: seq<Member>)
    ensures MemberTokens(ms) ==
      if ms == [] then []
      else
        [StringToken(ms[0].name), Colon] + Tokens(ms[0].doc)
        + (if |ms| > 1 then [Comma] else []) + MemberTokens(ms[1..])
  {
    hide Tokens;
  }

  lemma {:induction false} DocumentsOfAt(items: seq<Value>, n: nat)
    requires n <= |items|
    ensures DocumentsOf(items)[..n] == DocumentsOf(items[..n])
    ensures n < |items| ==> DocumentsOf(items)[n] == DocumentOf(items[n])
  {
    hide DocumentOf;
    if n > 0 {
      DocumentsOfAt(items[1..], n - 1);
      assert items[..n][1..] == items[1..][..n - 1];
      assert DocumentsOf(items) == [DocumentOf(items[0])] + DocumentsOf(items[1..]);
    }
  }

  lemma {:induction false} MembersOfAt(v: Value, ks: seq<string>, n: nat)
    requires v.Dictionary? && (forall k :: k in ks ==> k in v.entries) && n < |ks|
    ensures MembersOf(v, ks)[n] == Member(ks[n], DocumentOf(v.entries[ks[n]]))
  {
    hide DocumentOf;
    if n > 0 {
      MembersOfAt(v, ks[1..], n - 1);
    }
  }

  lemma StripSmall(pretty: bool, indent: nat)
    ensures Strip(LineBreak(pretty, indent)) == [] && Strip(ColonTokens(pretty)) == [Colon]
    ensures Strip([Comma]) == [Comma] && Strip([]) == []
    ensures Strip([Space("\n")]) == []
  {
    StripConcat([Space("\n")], [Space(Spaces(indent))]);
    StripConcat([Colon], [Space(" ")]);
    assert LineBreak(true, indent) == [Space("\n")] + [Space(Spaces(indent))];
    assert ColonTokens(true) == [Colon] + [Space(" ")];
  }

  lemma StripSeparator(emitComma: bool, pretty: bool, indent: nat)
    ensures Strip(Separator(emitComma, pretty, indent)) == if emitComma then [Comma] else []
  {
    hide LineBreak;
    StripSmall(pretty, indent);
    StripConcat(if emitComma then [Comma] else [], LineBreak(pretty, indent));
  }

  lemma StripOne(t: Token)
    requires !t.Space?
    ensures Strip([t]) == [t]
  {
  }

  /** Whatever the layout, the encoder writes one well-formed document: the value's own. */
  lemma {:induction false} EncodedTokens(v: Value, pretty: bool, indent: nat)
    ensures Strip(Encoded(v, pretty, indent)) == Tokens(DocumentOf(v))
    decreases v, 1
  {
    hide EncodedBody, Tokens, DocumentOf;
    EncodedBodyTokens(v, pretty, indent);
    StripSmall(pretty, indent);
    StripConcat(EncodedBody(v, pretty, indent), if pretty && indent == 0 then [Space("\n")] else []);
  }

  lemma StripContainer(open: Token, body: seq<Token>, brk: seq<Token>, close: Token)
    requires !open.Space? && !close.Space? && Strip(brk) == []
    ensures Strip([open] + body + brk + [close]) == [open] + Strip(body) + [close]
  {
    StripConcat([open], body);
    StripConcat([open] + body, brk);
    StripConcat([open] + body + brk, [close]);
    StripOne(open);
    StripOne(close);
  }

  lemma {:induction false} EncodedBodyTokens(v: Value, pretty: bool, indent: nat)
    ensures Strip(EncodedBody(v, pretty, indent)) == Tokens(DocumentOf(v))
    decreases v, 0, 1
  {
    hide Strip, EncodedItems, EncodedMembers, LineBreak, SortedKeys, ItemTokens, MemberTokens, DocumentsOf, MembersOf;
    StripSmall(pretty, indent);
    var inner := Deeper(pretty, indent);
    if v.Array? {
      ItemsTokens(v, |v.items|, pretty, inner);
      assert v.items[..|v.items|] == v.items;
      StripContainer(LeftBracket, EncodedItems(v, |v.items|, pretty, inner),
                     if v.items == [] then [] else LineBreak(pretty, indent), RightBracket);
    } else if v.Dictionary? {
      var ks := SortedKeys(v.entries.Keys);
      MembersTokens(v, ks, |ks|, pretty, inner);
      assert MembersOf(v, ks)[..|ks|] == MembersOf(v, ks);
      StripContainer(LeftBrace, EncodedMembers(v, ks, |ks|, pretty, inner),
                     if ks == [] then [] else LineBreak(pretty, indent), RightBrace);
    } else if v.Other? {
      StripOne(StringToken(v.text));
    } else {
      StripOne(ScalarToken(v));
    }
  }

  lemma {:induction false} ItemsTokens(v: Value, n: nat, pretty: bool, indent: nat)
    requires v.Array? && n <= |v.items|
    ensures Strip(EncodedItems(v, n, pretty, indent)) == ItemTokens(DocumentsOf(v.items[..n]))
    decreases v, 0, 0, n
  {
    hide Encoded, Separator, Tokens, DocumentOf, DocumentsOf, ItemTokens;
    if n == 0 {
      NothingTokens(v);
      assert v.items[..0] == [];
    } else {
      var front, d := DocumentsOf(v.items[..n - 1]), DocumentOf(v.items[n - 1]);
      ItemsTokens(v, n - 1, pretty, indent);
      EncodedTokens(v.items[n - 1], pretty, indent);
      StripSeparator(n > 1, pretty, indent);
      StripConcat(EncodedItems(v, n - 1, pretty, indent), Separator(n > 1, pretty, indent));
      StripConcat(EncodedItems(v, n - 1, pretty, indent) + Separator(n > 1, pretty, indent),
                  Encoded(v.items[n - 1], pretty, indent));
      DocumentsOfSnoc(v.items, n);
      ItemTokensSnoc(front, d);
    }
  }

  lemma NothingTokens(v: Value)
    ensures ItemTokens(DocumentsOf([])) == [] && MemberTokens([]) == [] && Strip([]) == []
  {
  }

  lemma DocumentsOfSnoc(items: seq<Value>, n: nat)
    requires 0 < n <= |items|
    ensures DocumentsOf(items[..n]) == DocumentsOf(items[..n - 1]) + [DocumentOf(items[n - 1])]
  {
    hide DocumentOf, DocumentsOf;
    DocumentsOfAt(items, n);
    DocumentsOfAt(items, n - 1);
  }

  lemma {:induction false} MembersTokens(v: Value, ks: seq<string>, n: nat, pretty: bool, indent: nat)
    requires v.Dictionary? && n <= |ks| && forall k :: k in ks ==> k in v.entries
    ensures Strip(EncodedMembers(v, ks, n, pretty, indent)) == MemberTokens(MembersOf(v, ks)[..n])
    decreases v, 0, 0, n
  {
    hide Encoded, Separator, ColonTokens, Tokens, DocumentOf, MembersOf, MemberTokens;
    if n == 0 {
      NothingTokens(v);
      assert MembersOf(v, ks)[..0] == [];
    } else {
      var k := ks[n - 1];
      assert k in ks;
      var w := v.entries[k];
      MembersTokens(v, ks, n - 1, pretty, indent);
      EncodedTokens(w, pretty, indent);
      StripMember(EncodedMembers(v, ks, n - 1, pretty, indent), n > 1, k, Encoded(w, pretty, indent), pretty, indent);
      MembersOfAt(v, ks, n - 1);
      MemberTokensSnoc(MembersOf(v, ks)[..n - 1], Member(k, DocumentOf(w)));
      assert MembersOf(v, ks)[..n] == MembersOf(v, ks)[..n - 1] + [Member(k, DocumentOf(w))];
    }
  }

  lemma StripMember(front: seq<Token>, emitComma: bool, k: string, tail: seq<Token>, pretty: bool, indent: nat)
    ensures Strip(front + Separator(emitComma, pretty, indent) + [StringToken(k)] + ColonTokens(pretty) + tail)
      == Strip(front) + (if emitComma then [Comma] else []) + [StringToken(k), Colon] + Strip(tail)
  {
    hide Strip, Separator, ColonTokens;
    var sep := Separator(emitComma, pretty, indent);
    StripSmall(pretty, indent);
    StripSeparator(emitComma, pretty, indent);
    StripOne(StringToken(k));
    StripConcat(front, sep);
    StripConcat(front + sep, [StringToken(k)]);
    StripConcat(front + sep + [StringToken(k)], ColonTokens(pretty));
    StripConcat(front + sep + [StringToken(k)] + ColonTokens(pretty), tail);
  }

  // ---- the layout ----

  predicate NoSpaces(ts: seq<Token>) {
    forall i :: 0 <= i < |ts| ==> !ts[i].Space?
  }

  lemma {:induction false} StripNothing(ts: seq<Token>)
    requires NoSpaces(ts)
    ensures Strip(ts) == ts
  {
    if ts != [] {
      StripNothing(ts[1..]);
      assert ts == [ts[0]] + ts[1..];
    }
  }

  /** Compact output is the tokens of the document and nothing else. */
  lemma CompactTokens(v: Value, indent: nat)
    ensures Encoded(v, false, indent) == Tokens(DocumentOf(v))
  {
    hide Encoded, Strip, Tokens, DocumentOf;
    CompactNoSpaces(v, indent);
    StripNothing(Encoded(v, false, indent));
    EncodedTokens(v, false, indent);
  }

  lemma {:induction false} CompactNoSpaces(v: Value, indent: nat)
    ensures NoSpaces(Encoded(v, false, indent))
    decreases v, 1
  {
    hide EncodedItems, EncodedMembers, SortedKeys;
    if v.Array? {
      CompactItems(v, |v.items|, indent);
    } else if v.Dictionary? {
      CompactMembers(v, SortedKeys(v.entries.Keys), |SortedKeys(v.entries.Keys)|, indent);
    }
  }

  lemma {:induction false} CompactItems(v: Value, n: nat, indent: nat)
    requires v.Array? && n <= |v.items|
    ensures NoSpaces(EncodedItems(v, n, false, indent))
    decreases v, 0, n
  {
    hide Encoded;
    if n > 0 {
      CompactItems(v, n - 1, indent);
      CompactNoSpaces(v.items[n - 1], indent);
    }
  }

  lemma {:induction false} CompactMembers(v: Value, ks: seq<string>, n: nat, indent: nat)
    requires v.Dictionary? && n <= |ks| && forall k :: k in ks ==> k in v.entries
    ensures NoSpaces(EncodedMembers(v, ks, n, false, indent))
    decreases v, 0, n
  {
    hide Encoded;
    if n > 0 {
      CompactMembers(v, ks, n - 1, indent);
      CompactNoSpaces(v.entries[ks[n - 1]], indent);
    }
  }

  /** Where the pen of a pretty printer is: `indent` is the indentation of the innermost open
      container's entries, except that it is that of the bracket itself before a bracket that
      closes it on a line of its own. */
  datatype Pen =
    | Ready(indent: nat)          // the white space needed before an entry has been written
    | AfterOpen(indent: nat)
    | AfterValue(indent: nat)
    | AfterComma(indent: nat)
    | AfterColon(indent: nat)
    | NewLine(indent: nat)        // a line break before an entry
    | LastLine(indent: nat)       // a line break before a closing bracket
    | AtClose(indent: nat)
    | Finished
    | Wrong

  predicate IsIndentation(t: Token, n: nat) {
    t.Space? && |t.text| == n && forall i :: 0 <= i < n ==> t.text[i] == ' '
  }

  /** The layout: every entry on a line of its own, four spaces deeper than its container; a
      blank after a colon; a closing bracket on a line of its own unless the container is
      empty; a line break at the end; no other white space. */
  function Move(pen: Pen, t: Token): Pen {
    match pen
    case Ready(n) =>
      if t.LeftBracket? || t.LeftBrace? then AfterOpen(n + 4)
      else if t.RightBracket? || t.RightBrace? || t.Comma? || t.Colon? || t.Space? then Wrong
      else AfterValue(n)
    case AfterOpen(n) =>
      if (t.RightBracket? || t.RightBrace?) && n >= 4 then AfterValue(n - 4)
      else if t == Space("\n") then NewLine(n)
      else Wrong
    case AfterValue(n) =>
      if t.Comma? then AfterComma(n)
      else if t.Colon? then AfterColon(n)
      else if t == Space("\n") then (if n == 0 then Finished else if n >= 4 then LastLine(n - 4) else Wrong)
      else Wrong
    case AfterComma(n) => if t == Space("\n") then NewLine(n) else Wrong
    case AfterColon(n) => if t == Space(" ") then Ready(n) else Wrong
    case NewLine(n) => if IsIndentation(t, n) then Ready(n) else Wrong
    case LastLine(n) => if IsIndentation(t, n) then AtClose(n) else Wrong
    case AtClose(n) => if t.RightBracket? || t.RightBrace? then AfterValue(n) else Wrong
    case Finished => Wrong
    case Wrong => Wrong
  }

  function MoveAll(pen: Pen, ts: seq<Token>): Pen
    decreases |ts|
  {
    if ts == [] then pen else MoveAll(Move(pen, ts[0]), ts[1..])
  }

  lemma {:induction false} MoveConcat(pen: Pen, a: seq<Token>, b: seq<Token>)
    ensures MoveAll(pen, a + b) == MoveAll(MoveAll(pen, a), b)
    decreases |a|
  {
    hide Move;
    if a == [] {
      assert a + b == b;
    } else {
      assert (a + b)[0] == a[0] && (a + b)[1..] == a[1..] + b;
      MoveConcat(Move(pen, a[0]), a[1..], b);
    }
  }

  lemma MoveOne(pen: Pen, t: Token)
    ensures MoveAll(pen, [t]) == Move(pen, t)
  {
    hide Move;
    assert [t][1..] == [];
  }

  lemma MoveTwo(pen: Pen, t: Token, u: Token)
    ensures MoveAll(pen, [t, u]) == Move(Move(pen, t), u)
  {
    hide Move;
    MoveConcat(pen, [t], [u]);
    MoveOne(pen, t);
    MoveOne(Move(pen, t), u);
    assert [t, u] == [t] + [u];
  }

  /** Pretty output is laid out in that way. */
  lemma PrettyLayout(v: Value)
    ensures MoveAll(Ready(0), Encoded(v, true, 0)) == Finished
  {
    hide EncodedBody, MoveAll, Move;
    LaidOutBody(v, 0);
    MoveConcat(Ready(0), EncodedBody(v, true, 0), [Space("\n")]);
    MoveOne(AfterValue(0), Space("\n"));
    EndOfText();
  }

  lemma EndOfText()
    ensures Move(AfterValue(0), Space("\n")) == Finished
  {
  }

  lemma {:induction false} LaidOut(v: Value, indent: nat)
    requires indent > 0
    ensures MoveAll(Ready(indent), Encoded(v, true, indent)) == AfterValue(indent)
    decreases v, 2
  {
    hide EncodedBody, MoveAll;
    LaidOutBody(v, indent);
    assert EncodedBody(v, true, indent) + [] == EncodedBody(v, true, indent);
  }

  lemma LaidOutContainer(open: Token, body: seq<Token>, brk: seq<Token>, close: Token, indent: nat, empty: bool)
    requires open.LeftBracket? || open.LeftBrace?
    requires close.RightBracket? || close.RightBrace?
    requires brk == if empty then [] else LineBreak(true, indent)
    requires MoveAll(AfterOpen(indent + 4), body) == if empty then AfterOpen(indent + 4) else AfterValue(indent + 4)
    ensures MoveAll(Ready(indent), [open] + body + brk + [close]) == AfterValue(indent)
  {
    hide MoveAll;
    MoveOne(Ready(indent), open);
    MoveConcat(Ready(indent), [open], body);
    MoveConcat(Ready(indent), [open] + body, brk);
    MoveConcat(Ready(indent), [open] + body + brk, [close]);
    if empty {
      assert [open] + body + [] == [open] + body;
      MoveOne(AfterOpen(indent + 4), close);
    } else {
      MoveTwo(AfterValue(indent + 4), Space("\n"), Space(Spaces(indent)));
      MoveOne(AtClose(indent), close);
    }
  }

  lemma {:induction false} LaidOutBody(v: Value, indent: nat)
    ensures MoveAll(Ready(indent), EncodedBody(v, true, indent)) == AfterValue(indent)
    decreases v, 1
  {
    hide EncodedItems, EncodedMembers, MoveAll, SortedKeys, LineBreak, Move;
    if v.Array? {
      LaidOutItems(v, |v.items|, indent + 4);
      LaidOutContainer(LeftBracket, EncodedItems(v, |v.items|, true, indent + 4),
                       if v.items == [] then [] else LineBreak(true, indent), RightBracket, indent, v.items == []);
    } else if v.Dictionary? {
      var ks := SortedKeys(v.entries.Keys);
      LaidOutMembers(v, ks, |ks|, indent + 4);
      LaidOutContainer(LeftBrace, EncodedMembers(v, ks, |ks|, true, indent + 4),
                       if ks == [] then [] else LineBreak(true, indent), RightBrace, indent, ks == []);
    } else {
      LaidOutScalar(v, indent);
    }
  }

  lemma LaidOutScalar(v: Value, indent: nat)
    requires !v.Array? && !v.Dictionary?
    ensures MoveAll(Ready(indent), EncodedBody(v, true, indent)) == AfterValue(indent)
  {
    hide MoveAll;
    MoveOne(Ready(indent), EncodedBody(v, true, indent)[0]);
  }

  /** After the separator the pen is ready for the next entry. */
  lemma LaidOutSeparator(n: nat, indent: nat)
    requires n > 0
    ensures MoveAll(if n == 1 then AfterOpen(indent) else AfterValue(indent), Separator(n > 1, true, indent)) ==
      Ready(indent)
  {
    hide MoveAll;
    var brk := [Space("\n"), Space(Spaces(indent))];
    if n == 1 {
      assert [] + brk == brk;
      MoveTwo(AfterOpen(indent), Space("\n"), Space(Spaces(indent)));
    } else {
      MoveConcat(AfterValue(indent), [Comma], brk);
      MoveOne(AfterValue(indent), Comma);
      MoveTwo(AfterComma(indent), Space("\n"), Space(Spaces(indent)));
    }
  }

  lemma {:induction false} LaidOutItems(v: Value, n: nat, indent: nat)
    requires v.Array? && n <= |v.items| && indent > 0
    ensures MoveAll(AfterOpen(indent), EncodedItems(v, n, true, indent)) ==
      if n == 0 then AfterOpen(indent) else AfterValue(indent)
    decreases v, 0, n
  {
    hide Encoded, Separator, Move;
    if n > 0 {
      LaidOutItems(v, n - 1, indent);
      LaidOutSeparator(n, indent);
      LaidOut(v.items[n - 1], indent);
      hide MoveAll;
      var front, sep := EncodedItems(v, n - 1, true, indent), Separator(n > 1, true, indent);
      MoveConcat(AfterOpen(indent), front, sep);
      MoveConcat(AfterOpen(indent), front + sep, Encoded(v.items[n - 1], true, indent));
    }
  }

  lemma {:induction false} LaidOutMembers(v: Value, ks: seq<string>, n: nat, indent: nat)
    requires v.Dictionary? && n <= |ks| && indent > 0 && forall k :: k in ks ==> k in v.entries
    ensures MoveAll(AfterOpen(indent), EncodedMembers(v, ks, n, true, indent)) ==
      if n == 0 then AfterOpen(indent) else AfterValue(indent)
    decreases v, 0, n
  {
    hide Encoded, Separator, ColonTokens, Move;
    if n > 0 {
      var k := ks[n - 1];
      assert k in ks;
      LaidOutMembers(v, ks, n - 1, indent);
      LaidOutSeparator(n, indent);
      LaidOutName(k, indent);
      LaidOut(v.entries[k], indent);
      hide MoveAll;
      var front, sep := EncodedMembers(v, ks, n - 1, true, indent), Separator(n > 1, true, indent);
      MoveConcat(AfterOpen(indent), front, sep);
      MoveConcat(AfterOpen(indent), front + sep, [StringToken(k)]);
      MoveConcat(AfterOpen(indent), front + sep + [StringToken(k)], ColonTokens(true));
      MoveConcat(AfterOpen(indent),
        front + sep + [StringToken(k)] + ColonTokens(true), Encoded(v.entries[k], true, indent));
    }
  }

  lemma LaidOutName(k: string, indent: nat)
    ensures MoveAll(MoveAll(Ready(indent), [StringToken(k)]), ColonTokens(true)) == Ready(indent)
  {
    hide MoveAll;
    MoveOne(Ready(indent), StringToken(k));
    MoveTwo(AfterValue(indent), Colon, Space(" "));
  }

  // ---- the encoder ----

  /** The length of the buffer of spaces after one more level: doubled once if too short. */
  function Grow(length: nat, indent: nat): nat {
    if length < indent then 2 * length else length
  }

  /** The length after `depth` nested containers, starting from `length`. */
  function GrowTo(length: nat, depth: nat): nat {
    if depth == 0 then length else Grow(GrowTo(length, depth - 1), INDENT_SIZE * depth)
  }

  /** Doubling once per level keeps up with the indentation at every depth exactly if the
      buffer starts with at least two spaces. */
  lemma GrowEnough(length: nat)
    ensures (forall depth: nat :: GrowTo(length, depth) >= INDENT_SIZE * depth) <==> length >= 2
  {
    if length < 2 {
      assert GrowTo(length, 1) == Grow(GrowTo(length, 0), INDENT_SIZE * 1);
      assert GrowTo(length, 1) < INDENT_SIZE * 1;
    } else {
      forall depth: nat ensures GrowTo(length, depth) >= INDENT_SIZE * depth {
        GrowKeepsUp(length, depth);
      }
    }
  }

  lemma {:induction false} GrowKeepsUp(length: nat, depth: nat)
    requires length >= 2
    ensures GrowTo(length, depth) >= INDENT_SIZE * depth && GrowTo(length, depth) >= 2
  {
    if depth > 0 {
      GrowKeepsUp(length, depth - 1);
    }
  }

  lemma OneMoreItem(start: seq<Token>, v: Value, n: nat, pretty: bool, indent: nat)
    requires v.Array? && n < |v.items|
    ensures start + EncodedItems(v, n, pretty, indent) + Separator(n > 0, pretty, indent)
      + Encoded(v.items[n], pretty, indent)
      == start + EncodedItems(v, n + 1, pretty, indent)
  {
    hide Encoded, Separator;
  }

  lemma OneMoreMember(start: seq<Token>, v: Value, ks: seq<string>, n: nat, pretty: bool, indent: nat)
    requires v.Dictionary? && n < |ks| && forall k :: k in ks ==> k in v.entries
    ensures start + EncodedMembers(v, ks, n, pretty, indent) + Separator(n > 0, pretty, indent)
        + ([StringToken(ks[n])] + ColonTokens(pretty)) + Encoded(v.entries[ks[n]], pretty, indent)
      == start + EncodedMembers(v, ks, n + 1, pretty, indent)
  {
    hide Encoded, Separator, ColonTokens;
    var front, sep := EncodedMembers(v, ks, n, pretty, indent), Separator(n > 0, pretty, indent);
    var name, value := [StringToken(ks[n])], Encoded(v.entries[ks[n]], pretty, indent);
    assert EncodedMembers(v, ks, n + 1, pretty, indent) == front + sep + name + ColonTokens(pretty) + value;
    hide EncodedMembers;
    Associate(front + sep, name, ColonTokens(pretty));
    AssociateFive(start, front, sep, name + ColonTokens(pretty), value);
  }

  lemma NoneYet(v: Value, ks: seq<string>, pretty: bool, indent: nat)
    ensures v.Array? ==> EncodedItems(v, 0, pretty, indent) == []
    ensures v.Dictionary? && (forall k :: k in ks ==> k in v.entries) ==> EncodedMembers(v, ks, 0, pretty, indent) == []
  {
  }

  class Encoder {
    const pretty: bool
    var indent: nat
    var indentStr: string
    var output: seq<Token>

    ghost predicate Valid()
      reads this
    {
      && indentStr == Spaces(|indentStr|)
      && |indentStr| >= 2 && |indentStr| >= indent
      && indent % INDENT_SIZE == 0
      && (!pretty ==> indent == 0)
    }

    /** The buffer starts with two spaces: the initializer of the string lists its characters,
        a number of spaces cast to a character, which is a space, and a space. */
    constructor (pretty: bool)
      ensures Valid() && this.pretty == pretty && indent == 0 && output == [] && indentStr == Spaces(2)
    {
      this.pretty, indent, output := pretty, 0, [];
      indentStr := Spaces(2);
    }

    method Write(t: Token)
      modifies this`output
      ensures output == old(output) + [t]
    {
      output := output + [t];
    }

    /** Writes the first `indent` characters of the buffer. */
    method WriteLineBreak()
      requires Valid()
      modifies this`output
      ensures output == old(output) + [Space("\n"), Space(Spaces(indent))]
    {
      Write(Space("\n"));
      assert indentStr[..indent] == Spaces(indent);
      Write(Space(indentStr[..indent]));
    }

    method BeginContainer(open: Token)
      requires Valid()
      modifies this
      ensures Valid() && indent == Deeper(pretty, old(indent)) && output == old(output) + [open]
      ensures |indentStr| == if pretty then Grow(|old(indentStr)|, indent) else |old(indentStr)|
    {
      if pretty {
        indent := indent + INDENT_SIZE;
        if |indentStr| < indent {
          indentStr := indentStr + Spaces(|indentStr|);
        }
      }
      Write(open);
    }

    method EndContainer(close: Token, isContainerEmpty: bool, ghost outer: nat)
      requires Valid() && indent == Deeper(pretty, outer)
      modifies this`indent, this`output
      ensures Valid() && indent == outer
      ensures output == old(output) + (if isContainerEmpty then [] else LineBreak(pretty, indent)) + [close]
    {
      if pretty {
        indent := indent - INDENT_SIZE;
        if !isContainerEmpty {
          WriteLineBreak();
        }
      }
      Write(close);
    }

    method WriteSeparatorAndIndentStrIfNeeded(emitComma: bool)
      requires Valid()
      modifies this`output
      ensures output == old(output) + Separator(emitComma, pretty, indent)
    {
      if emitComma {
        Write(Comma);
      }
      if pretty {
        WriteLineBreak();
      }
    }

    method WriteKey(k: string)
      modifies this`output
      ensures output == old(output) + ([StringToken(k)] + ColonTokens(pretty))
    {
      Write(StringToken(k));
      Write(Colon);
      if pretty {
        Write(Space(" "));
      }
    }

    method EncodeArray(v: Value)
      requires Valid() && v.Array?
      modifies this
      ensures Valid() && indent == old(indent)
      ensures output == old(output) + EncodedBody(v, pretty, indent)
      decreases v, 0
    {
      hide EncodedBody, EncodedItems, Encoded, Separator, LineBreak, Spaces;
      BeginContainer(LeftBracket);
      ghost var start, inner := output, indent;
      NoneYet(v, [], pretty, inner);
      var isEmpty := true;
      var i := 0;
      while i < |v.items|
        invariant 0 <= i <= |v.items| && isEmpty == (i == 0)
        invariant Valid() && indent == inner
        invariant output == start + EncodedItems(v, i, pretty, inner)
      {
        WriteSeparatorAndIndentStrIfNeeded(!isEmpty);
        isEmpty := false;
        Encode(v.items[i]);
        OneMoreItem(start, v, i, pretty, inner);
        i := i + 1;
      }
      EndContainer(RightBracket, isEmpty, old(indent));
      BodyOfArray(v, pretty, indent);
    }

    method EncodeObject(v: Value)
      requires Valid() && v.Dictionary?
      modifies this
      ensures Valid() && indent == old(indent)
      ensures output == old(output) + EncodedBody(v, pretty, indent)
      decreases v, 0
    {
      hide EncodedBody, EncodedMembers, Encoded, Separator, LineBreak, Spaces, SortedKeys, Le, Sorted, ColonTokens;
      BeginContainer(LeftBrace);
      ghost var start, inner := output, indent;
      var ks := SortedKeys(v.entries.Keys);
      NoneYet(v, ks, pretty, inner);
      var isEmpty := true;
      var i := 0;
      while i < |ks|
        invariant 0 <= i <= |ks| && isEmpty == (i == 0)
        invariant Valid() && indent == inner
        invariant output == start + EncodedMembers(v, ks, i, pretty, inner)
      {
        assert ks[i] in ks;
        WriteSeparatorAndIndentStrIfNeeded(!isEmpty);
        isEmpty := false;
        WriteKey(ks[i]);
        Encode(v.entries[ks[i]]);
        OneMoreMember(start, v, ks, i, pretty, inner);
        i := i + 1;
      }
      EndContainer(RightBrace, isEmpty, old(indent));
      BodyOfDictionary(v, pretty, indent);
    }

    method Encode(v: Value)
      requires Valid()
      modifies this
      ensures Valid() && indent == old(indent)
      ensures output == old(output) + Encoded(v, pretty, indent)
      decreases v, 1
    {
      hide EncodedItems, EncodedMembers, Spaces, SortedKeys;
      match v {
        case Array(_) => EncodeArray(v);
        case Dictionary(_) => EncodeObject(v);
        case Other(text, _) => Write(StringToken(text));
        case Empty => Write(NullToken);
        case Boolean(b) => Write(if b then TrueToken else FalseToken);
        case Number(bits) => Write(NumberToken(bits));
        case String(s) => Write(StringToken(s));
      }
      if indent == 0 && pretty {
        Write(Space("\n"));
      }
    }
  }

  lemma BodyOfArray(v: Value, pretty: bool, indent: nat)
    requires v.Array?
    ensures EncodedBody(v, pretty, indent) ==
      [LeftBracket] + EncodedItems(v, |v.items|, pretty, Deeper(pretty, indent))
      + (if v.items == [] then [] else LineBreak(pretty, indent)) + [RightBracket]
  {
    hide EncodedItems, LineBreak;
  }

  lemma BodyOfDictionary(v: Value, pretty: bool, indent: nat)
    requires v.Dictionary?
    ensures var ks := SortedKeys(v.entries.Keys);
      EncodedBody(v, pretty, indent) ==
        [LeftBrace] + EncodedMembers(v, ks, |ks|, pretty, Deeper(pretty, indent))
        + (if ks == [] then [] else LineBreak(pretty, indent)) + [RightBrace]
  {
    hide EncodedMembers, LineBreak, SortedKeys;
  }

  /** The entry point: the output is one document, the value's own, in either layout. */
  method JsonEncode(v: Value, prettify: bool) returns (output: seq<Token>)
    ensures Strip(output) == Tokens(DocumentOf(v))
    ensures output == Encoded(v, prettify, 0)
  {
    hide Strip, Tokens, DocumentOf, Encoded;
    var encoder := new Encoder(prettify);
    encoder.Encode(v);
    output := encoder.output;
    assert output == Encoded(v, prettify, 0);
    EncodedTokens(v, prettify, 0);
  }
}
