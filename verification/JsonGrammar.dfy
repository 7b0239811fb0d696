/**
 The token grammar of JSON, sections 2 to 5 of RFC 8259: the tokens of a document with
 insignificant whitespace between them. Strings and numbers are single tokens.
 */
module JsonGrammar {
  import opened Sequences
  import opened Values

  datatype Token =
    | LeftBracket | RightBracket | LeftBrace | RightBrace | Comma | Colon
    | NullToken | TrueToken | FalseToken
    | NumberToken(bits: Float64)
    | StringToken(s: string)
    | Space(text: string)

  /** A JSON document as it is written: the members of an object are in order and may repeat
      their names. */
  datatype Document =
    | Text(v: Scalar)
    | Elements(items: seq<Document>)
    | Members(members: seq<Member>)

  datatype Member = Member(name: string, doc: Document)

  function ScalarToken(v: Scalar): Token {
    match v
    case Empty => NullToken
    case Boolean(b) => if b then TrueToken else FalseToken
    case Number(bits) => NumberToken(bits)
    case String(s) => StringToken(s)
  }

  function Tokens(d: Document): (ts: seq<Token>)
    ensures ts != []
    decreases d, 1
  {
    match d
    case Text(v) => [ScalarToken(v)]
    case Elements(items) => [LeftBracket] + ItemTokens(items) + [RightBracket]
    case Members(members) => [LeftBrace] + MemberTokens(members) + [RightBrace]
  }

  function ItemTokens(items: seq<Document>): seq<Token>
    decreases items, 0
  {
    if items == [] then []
    else Tokens(items[0]) + (if |items| > 1 then [Comma] else []) + ItemTokens(items[1..])
  }

  function MemberTokens(members: seq<Member>): seq<Token>
    decreases members, 0
  {
    if members == [] then []
    else
      [StringToken(members[0].name), Colon] + Tokens(members[0].doc)
      + (if |members| > 1 then [Comma] else []) + MemberTokens(members[1..])
  }

  /** The tokens without the whitespace between them. */
  function Strip(ts: seq<Token>): seq<Token> {
    if ts == [] then []
    else if ts[0].Space? then Strip(ts[1..])
    else [ts[0]] + Strip(ts[1..])
  }

  lemma {:induction false} StripConcat(a: seq<Token>, b: seq<Token>)
    ensures Strip(a + b) == Strip(a) + Strip(b)
  {
    if a == [] {
      assert a + b == b;
    } else {
      var rest := a[1..];
      assert (a + b)[0] == a[0] && (a + b)[1..] == rest + b;
      StripConcat(rest, b);
      assert [a[0]] + (Strip(rest) + Strip(b)) == ([a[0]] + Strip(rest)) + Strip(b);
    }
  }

  // ---- the grammar is unambiguous ----

  /** The first token tells what kind of document follows. */
  lemma FirstToken(d: Document)
    ensures Tokens(d)[0] == match d
      case Text(v) => ScalarToken(v)
      case Elements(_) => LeftBracket
      case Members(_) => LeftBrace
  {
  }

  /** A token stream starts with at most one document. */
  lemma {:induction false} Unambiguous(d: Document, r: seq<Token>, e: Document, s: seq<Token>)
    requires Tokens(d) + r == Tokens(e) + s
    ensures d == e && r == s
    decreases d, 1
  {
    hide ItemTokens, MemberTokens;
    var ts := Tokens(d) + r;
    FirstToken(d);
    FirstToken(e);
    assert ts[0] == Tokens(d)[0] && ts[0] == Tokens(e)[0];
    if d.Text? {
      assert ts[1..] == r && ts[1..] == s;
    } else if d.Elements? {
      assert ts[1..] == ItemTokens(d.items) + ([RightBracket] + r);
      assert ts[1..] == ItemTokens(e.items) + ([RightBracket] + s);
      UnambiguousItems(d.items, r, e.items, s);
    } else {
      assert ts[1..] == MemberTokens(d.members) + ([RightBrace] + r);
      assert ts[1..] == MemberTokens(e.members) + ([RightBrace] + s);
      UnambiguousMembers(d.members, r, e.members, s);
    }
  }

  /** What follows the first element of an array. */
  function AfterItem(items: seq<Document>, r: seq<Token>): seq<Token>
    requires items != []
  {
    (if |items| > 1 then [Comma] else []) + (ItemTokens(items[1..]) + ([RightBracket] + r))
  }

  lemma ItemsSplit(items: seq<Document>, r: seq<Token>)
    ensures var ts := ItemTokens(items) + ([RightBracket] + r);
      if items == [] then ts == [RightBracket] + r
      else ts == Tokens(items[0]) + AfterItem(items, r) && ts[0] != RightBracket
  {
    hide Tokens;
    if items != [] {
      FirstToken(items[0]);
      var comma := if |items| > 1 then [Comma] else [];
      AssociateFour(Tokens(items[0]), comma, ItemTokens(items[1..]), [RightBracket] + r);
    }
  }

  lemma AfterItemSplit(items: seq<Document>, r: seq<Token>)
    requires items != []
    ensures var ts := AfterItem(items, r);
      if |items| == 1 then ts == [RightBracket] + r
      else ts == [Comma] + (ItemTokens(items[1..]) + ([RightBracket] + r))
  {
    if |items| == 1 { assert items[1..] == []; }
  }

  lemma {:induction false} UnambiguousItems(items: seq<Document>, r: seq<Token>, others: seq<Document>, s: seq<Token>)
    requires ItemTokens(items) + ([RightBracket] + r) == ItemTokens(others) + ([RightBracket] + s)
    ensures items == others && r == s
    decreases items, 0
  {
    hide Tokens, ItemTokens;
    ItemsSplit(items, r);
    ItemsSplit(others, s);
    if items == [] {
      SameTail(RightBracket, r, RightBracket, s);
    } else {
      Unambiguous(items[0], AfterItem(items, r), others[0], AfterItem(others, s));
      AfterItemSplit(items, r);
      AfterItemSplit(others, s);
      hide AfterItem;
      if |items| == 1 || |others| == 1 {
        SameTail(if |items| == 1 then RightBracket else Comma,
                 if |items| == 1 then r else ItemTokens(items[1..]) + ([RightBracket] + r),
                 if |others| == 1 then RightBracket else Comma,
                 if |others| == 1 then s else ItemTokens(others[1..]) + ([RightBracket] + s));
      } else {
        SameTail(Comma, ItemTokens(items[1..]) + ([RightBracket] + r),
                 Comma, ItemTokens(others[1..]) + ([RightBracket] + s));
        UnambiguousItems(items[1..], r, others[1..], s);
        assert items == [items[0]] + items[1..] && others == [others[0]] + others[1..];
      }
    }
  }

  lemma SameTail(a: Token, r: seq<Token>, b: Token, s: seq<Token>)
    requires [a] + r == [b] + s
    ensures a == b && r == s
  {
    assert ([a] + r)[0] == a && ([b] + s)[0] == b;
    assert ([a] + r)[1..] == r && ([b] + s)[1..] == s;
  }

  /** What follows the first member of an object. */
  function AfterMember(members: seq<Member>, r: seq<Token>): seq<Token>
    requires members != []
  {
    (if |members| > 1 then [Comma] else []) + (MemberTokens(members[1..]) + ([RightBrace] + r))
  }

  lemma MembersSplit(members: seq<Member>, r: seq<Token>)
    ensures var ts := MemberTokens(members) + ([RightBrace] + r);
      if members == [] then ts == [RightBrace] + r
      else ts == [StringToken(members[0].name)] + ([Colon] + (Tokens(members[0].doc) + AfterMember(members, r)))
    ensures members == [] <==> (MemberTokens(members) + ([RightBrace] + r))[0] == RightBrace
  {
    hide Tokens;
    if members != [] {
      var head, value := [StringToken(members[0].name), Colon], Tokens(members[0].doc);
      var comma := if |members| > 1 then [Comma] else [];
      AssociateFour(head + value, comma, MemberTokens(members[1..]), [RightBrace] + r);
      NameFirst(members[0].name, value, AfterMember(members, r));
    }
  }

  lemma NameFirst(name: string, value: seq<Token>, rest: seq<Token>)
    ensures ([StringToken(name), Colon] + value) + rest == [StringToken(name)] + ([Colon] + (value + rest))
  {
  }

  lemma AfterMemberSplit(members: seq<Member>, r: seq<Token>)
    requires members != []
    ensures var ts := AfterMember(members, r);
      if |members| == 1 then ts == [RightBrace] + r
      else ts == [Comma] + (MemberTokens(members[1..]) + ([RightBrace] + r))
  {
    if |members| == 1 { assert members[1..] == []; }
  }

  lemma {:induction false} UnambiguousMembers(members: seq<Member>, r: seq<Token>, others: seq<Member>, s: seq<Token>)
    requires MemberTokens(members) + ([RightBrace] + r) == MemberTokens(others) + ([RightBrace] + s)
    ensures members == others && r == s
    decreases members, 0
  {
    hide Tokens, MemberTokens;
    MembersSplit(members, r);
    MembersSplit(others, s);
    if members == [] {
      SameTail(RightBrace, r, RightBrace, s);
    } else {
      var a, b := Tokens(members[0].doc) + AfterMember(members, r), Tokens(others[0].doc) + AfterMember(others, s);
      SameTail(StringToken(members[0].name), [Colon] + a, StringToken(others[0].name), [Colon] + b);
      SameTail(Colon, a, Colon, b);
      Unambiguous(members[0].doc, AfterMember(members, r), others[0].doc, AfterMember(others, s));
      AfterMemberSplit(members, r);
      AfterMemberSplit(others, s);
      assert members[0] == others[0];
      hide AfterMember;
      if |members| == 1 || |others| == 1 {
        SameTail(if |members| == 1 then RightBrace else Comma,
                 if |members| == 1 then r else MemberTokens(members[1..]) + ([RightBrace] + r),
                 if |others| == 1 then RightBrace else Comma,
                 if |others| == 1 then s else MemberTokens(others[1..]) + ([RightBrace] + s));
      } else {
        SameTail(Comma, MemberTokens(members[1..]) + ([RightBrace] + r),
                 Comma, MemberTokens(others[1..]) + ([RightBrace] + s));
        UnambiguousMembers(members[1..], r, others[1..], s);
        assert members == [members[0]] + members[1..] && others == [others[0]] + others[1..];
      }
    }
  }
}
