/**
 A filter between an HTTP client and a server that leaves the reason phrase out of its status
 line (RFC 9112, section 4): it inserts a blank and a phrase before the first carriage return.
 What does not fit into the caller's buffer any more is kept for the next reads.
 */
module ReasonInjector {
  import opened Sequences
  import opened Wrappers

  function Reason(): (r: string)
    ensures |r| == 2 && '\r' !in r
  {
    " X"
  }

  /** The response as the client is meant to see it. */
  function Inject(s: string): string {
    if s == [] then ""
    else if s[0] == '\r' then Reason() + s
    else [s[0]] + Inject(s[1..])
  }

  /** The reason goes before the first carriage return, and only there. */
  lemma {:induction false} InjectAt(s: string, k: nat)
    requires k <= |s| && '\r' !in s[..k] && (k < |s| ==> s[k] == '\r')
    ensures Inject(s) == if k < |s| then s[..k] + Reason() + s[k..] else s
  {
    hide Reason;
    if k == 0 {
      assert s[..k] == [] && s[k..] == s;
    } else {
      var rest := s[1..];
      assert s == [s[0]] + rest;
      assert s[..k] == [s[0]] + rest[..k - 1];
      assert s[k..] == rest[k - 1..];
      InjectAt(rest, k - 1);
      InFront(s[0], rest[..k - 1], Reason(), rest[k - 1..]);
    }
  }

  lemma InFront(c: char, a: string, b: string, rest: string)
    ensures [c] + (a + b + rest) == [c] + a + b + rest
  {
  }

  lemma {:induction false} InjectMore(s: string, t: string)
    ensures Inject(s + t) == if '\r' in s then Inject(s) + t else s + Inject(t)
    decreases |s|
  {
    hide Reason;
    if s == [] {
      assert s + t == t;
      assert s + Inject(t) == Inject(t);
    } else if s[0] == '\r' {
      assert Reason() + (s + t) == (Reason() + s) + t;
    } else {
      var rest := s[1..];
      assert s == [s[0]] + rest;
      assert (s + t)[1..] == rest + t;
      InjectMore(rest, t);
      assert [s[0]] + (Inject(rest) + t) == ([s[0]] + Inject(rest)) + t;
      assert [s[0]] + (rest + Inject(t)) == ([s[0]] + rest) + Inject(t);
    }
  }

  lemma {:induction false} NothingToInject(s: string)
    requires '\r' !in s
    ensures Inject(s) == s
  {
    if s != [] {
      assert s == [s[0]] + s[1..];
      NothingToInject(s[1..]);
    }
  }

  /** What has been injected into the beginning is not affected by what follows. */
  lemma InjectMonotone(s: string, t: string)
    ensures Inject(s) <= Inject(s + t)
  {
    InjectMore(s, t);
    if '\r' !in s {
      NothingToInject(s);
    }
  }

  /** What one read of the inner stream gives at most, or that it fails. */
  datatype Response = Data(bytes: string) | Failure

  function BytesOf(responses: seq<Response>): string {
    if responses == [] then ""
    else (if responses[0].Data? then responses[0].bytes else "") + BytesOf(responses[1..])
  }

  function Min(a: nat, b: nat): nat {
    if a < b then a else b
  }

  /** How many reads into buffers that are not empty there are at most until the end. */
  function Left(responses: seq<Response>): nat {
    |responses| + |BytesOf(responses)|
  }

  class SyncReadStream {
    var responses: seq<Response>

    constructor (responses: seq<Response>)
      ensures this.responses == responses
    {
      this.responses := responses;
    }

    ghost function Rest(): string
      reads this
    {
      BytesOf(responses)
    }

    /** The next read fails: there is nothing any more, or an error comes next. */
    predicate Fails()
      reads this
    {
      responses == [] || responses[0].Failure?
    }

    /** How much the next read gives into a buffer of the size. */
    function Available(size: nat): nat
      reads this
    {
      if Fails() then 0 else Min(|responses[0].bytes|, size)
    }

    /** Reads as much as there is and fits; at an error nothing has been read. */
    method ReadSome(buffer: array<char>) returns (amount: nat, failed: bool)
      modifies this, buffer
      ensures failed == old(Fails()) && amount == old(Available(buffer.Length))
      ensures buffer[..amount] + Rest() == old(Rest())
      ensures buffer.Length > 0 && old(responses) != [] ==> Left(responses) < Left(old(responses))
      ensures old(responses) == [] ==> responses == []
    {
      if responses == [] {
        return 0, true;
      }
      if responses[0].Failure? {
        responses := responses[1..];
        return 0, true;
      }
      var bytes := responses[0].bytes;
      amount, failed := if |bytes| <= buffer.Length then |bytes| else buffer.Length, false;
      forall i | 0 <= i < amount {
        buffer[i] := bytes[i];
      }
      assert buffer[..amount] == bytes[..amount];
      assert bytes == bytes[..amount] + bytes[amount..];
      var others := responses[1..];
      responses := if amount == |bytes| then others else [Data(bytes[amount..])] + others;
      assert bytes[..amount] + (bytes[amount..] + BytesOf(others)) == bytes + BytesOf(others);
    }
  }

  lemma SplitBefore(b: string, st: string, a: string, x: string)
    requires b + st == a + x && |a| <= |b|
    ensures b[..|a|] == a && b[|a|..] + st == x
  {
    assert b[..|a|] == (b + st)[..|a|] && a == (a + x)[..|a|];
    assert b[|a|..] + st == (b + st)[|a|..] && x == (a + x)[|a|..];
  }

  /** One byte pushed into the buffer `b` after `a`; `st` is what is stashed already. */
  lemma PushedIn(b: string, st: string, a: string, r: char, x: string)
    requires b + st == a + x && |a| < |b|
    ensures (b[..|a|] + [r] + b[|a|..|b| - 1]) + ([b[|b| - 1]] + st) == a + ([r] + x)
  {
    SplitBefore(b, st, a, x);
    var n := |b|;
    var m := b[|a|..n - 1];
    assert m + [b[n - 1]] == b[|a|..];
    assert (a + [r] + m) + ([b[n - 1]] + st) == a + ([r] + ((m + [b[n - 1]]) + st));
  }

  /** The reason from `i` on has been pushed in between `a` and `x`. */
  predicate PushedSince(b: string, st: string, a: string, x: string, i: nat)
    requires i <= |Reason()|
  {
    b + st == a + (Reason()[i..] + x)
  }

  lemma NothingPushedIn(b: string, c: nat)
    requires c <= |b|
    ensures PushedSince(b, "", b[..c], b[c..], |Reason()|)
  {
    hide Reason;
    assert b + "" == b == b[..c] + ("" + b[c..]);
  }

  lemma AllPushedIn(b: string, st: string, a: string, x: string)
    requires PushedSince(b, st, a, x, 0)
    ensures b + st == a + (Reason() + x)
  {
    hide Reason;
    assert Reason()[0..] == Reason();
  }

  lemma ReasonPushedIn(b: string, st: string, a: string, x: string, i: nat)
    requires i < |Reason()| && |a| < |b| && PushedSince(b, st, a, x, i + 1)
    ensures PushedSince(b[..|a|] + [Reason()[i]] + b[|a|..|b| - 1], [b[|b| - 1]] + st, a, x, i)
    ensures b[..|a|] == a
  {
    hide Reason;
    PushedIn(b, st, a, Reason()[i], Reason()[i + 1..] + x);
    SplitBefore(b, st, a, Reason()[i + 1..] + x);
    Associate([Reason()[i]], Reason()[i + 1..], x);
    assert [Reason()[i]] + Reason()[i + 1..] == Reason()[i..];
  }

  /** What a read of `data` adds to the bytes delivered. */
  lemma Delivered(delivered: string, received: string, data: string, out: string, stash: string)
    requires delivered == Inject(received)
    requires if '\r' in received then out + stash == data else out + stash == Inject(data)
    ensures (delivered + out) + stash == Inject(received + data)
    ensures '\r' in received + data <==> '\r' in received || '\r' in data
  {
    hide Inject, Reason;
    InjectMore(received, data);
    Associate(delivered, out, stash);
    if '\r' !in received {
      NothingToInject(received);
    }
  }

  class HttpResponseReasonInjector {
    const stream: SyncReadStream
    var reasonHasBeenInjected: bool
    const stashedDataBuf: array<char>
    var stashedData: Option<nat>       // the position of the next stashed byte
    ghost var received: string         // what has been read from the stream
    ghost var delivered: string        // what the caller has been given

    constructor (stream: SyncReadStream)
      ensures this.stream == stream && fresh(stashedDataBuf) && Valid()
      ensures received == "" && delivered == ""
    {
      this.stream, reasonHasBeenInjected, stashedData := stream, false, None;
      stashedDataBuf := new char[2];
      received, delivered := "", "";
    }

    ghost function Stash(): string
      reads this, stashedDataBuf
    {
      if stashedData.Some? && stashedData.value < stashedDataBuf.Length then stashedDataBuf[stashedData.value..] else ""
    }

    /** What has been delivered, followed by what is stashed, is the response so far with the
        reason injected. */
    ghost predicate Valid()
      reads this, stashedDataBuf
    {
      && stashedDataBuf.Length == |Reason()|
      && (stashedData.Some? ==> stashedData.value < stashedDataBuf.Length && reasonHasBeenInjected)
      && (reasonHasBeenInjected <==> '\r' in received)
      && delivered + Stash() == Inject(received)
    }

    /** How many reads into buffers that are not empty it takes at most to deliver everything;
        the reason itself may still have to be delivered, too. */
    ghost function ReadsLeft(): nat
      reads this, stashedDataBuf, stream
    {
      Left(stream.responses) + |Stash()|
      + if !reasonHasBeenInjected && stream.responses != [] then |Reason()| else 0
    }

    /** Hands out stashed bytes until there are none or the buffer is full. */
    method DeliverStash(buffer: array<char>) returns (amount: nat)
      requires stashedDataBuf.Length == |Reason()| && buffer != stashedDataBuf
      requires stashedData.Some? && stashedData.value < stashedDataBuf.Length
      modifies this`stashedData, buffer
      ensures amount == Min(|old(Stash())|, buffer.Length)
      ensures stashedData.Some? ==> stashedData.value < stashedDataBuf.Length
      ensures buffer[..amount] + Stash() == old(Stash())
    {
      hide Reason;
      amount := 0;
      ghost var start := stashedData.value;
      while amount < buffer.Length && stashedData.Some?
        invariant 0 <= amount <= buffer.Length && start + amount <= stashedDataBuf.Length
        invariant stashedData == if start + amount == stashedDataBuf.Length then None else Some(start + amount)
        invariant forall j :: 0 <= j < amount ==> buffer[j] == stashedDataBuf[start + j]
      {
        var next := stashedData.value;
        buffer[amount] := stashedDataBuf[next];
        amount := amount + 1;
        stashedData := if next + 1 == stashedDataBuf.Length then None else Some(next + 1);
      }
      assert buffer[..amount] == stashedDataBuf[start..start + amount];
      assert Stash() == stashedDataBuf[start + amount..];
      assert stashedDataBuf[start..] == stashedDataBuf[start..start + amount] + stashedDataBuf[start + amount..];
    }

    /** Stashes the last of the `n` bytes and inserts one byte of the reason at `c`. */
    method PushOne(buffer: array<char>, n: nat, c: nat, i: nat)
      requires stashedDataBuf.Length == |Reason()| && buffer != stashedDataBuf
      requires c < n <= buffer.Length && i < |Reason()|
      modifies stashedDataBuf, buffer
      ensures stashedDataBuf[i..] == old([buffer[n - 1]] + stashedDataBuf[i + 1..])
      ensures buffer[..n] == old(buffer[..c]) + [Reason()[i]] + old(buffer[c..n - 1])
    {
      hide Reason;
      stashedDataBuf[i] := buffer[n - 1];
      forall j | c < j <= n - 1 {
        buffer[j] := buffer[j - 1];
      }
      buffer[c] := Reason()[i];
    }

    /** Inserts the reason before the carriage return at `c` by moving what follows to the
        right, one byte at a time; the bytes pushed out of the `n` bytes read are stashed. */
    method InjectInPlace(buffer: array<char>, n: nat, c: nat)
      requires stashedDataBuf.Length == |Reason()| && buffer != stashedDataBuf
      requires c < n <= buffer.Length
      modifies this`stashedData, this`reasonHasBeenInjected, stashedDataBuf, buffer
      ensures stashedData == Some(0) && reasonHasBeenInjected
      ensures buffer[..n] + stashedDataBuf[..] == old(buffer[..c]) + Reason() + old(buffer[c..n])
    {
      hide PushedSince, Reason;
      ghost var a, x := buffer[..c], buffer[c..n];
      ghost var b, st := buffer[..n], "";
      var i := |Reason()|;
      assert a == b[..c] && x == b[c..];
      NothingPushedIn(b, c);
      while i > 0
        invariant 0 <= i <= |Reason()|
        invariant b == buffer[..n] && st == stashedDataBuf[i..]
        invariant |b| == n && PushedSince(b, st, a, x, i)
      {
        i := i - 1;
        ReasonPushedIn(b, st, a, x, i);
        assert b[..c] == buffer[..c] && b[c..n - 1] == buffer[c..n - 1] && b[n - 1] == buffer[n - 1];
        PushOne(buffer, n, c, i);
        assert buffer[..n] == b[..c] + [Reason()[i]] + b[c..n - 1] && stashedDataBuf[i..] == [b[n - 1]] + st;
        b, st := buffer[..n], stashedDataBuf[i..];
      }
      reasonHasBeenInjected := true;
      stashedData := Some(0);
      AllPushedIn(b, st, a, x);
      Associate(a, Reason(), x);
    }

    /** The position of the first carriage return among the `n` bytes read, if any. */
    method Search(buffer: array<char>, n: nat) returns (c: nat)
      requires n <= buffer.Length
      ensures c <= n && '\r' !in buffer[..c] && (c < n ==> buffer[c] == '\r')
    {
      c := 0;
      while c < n && buffer[c] != '\r'
        invariant 0 <= c <= n && '\r' !in buffer[..c]
      {
        assert buffer[..c + 1] == buffer[..c] + [buffer[c]];
        c := c + 1;
      }
    }

    /** `read_some` into the caller's first buffer that is not empty. Stashed bytes are handed
        out without reading; otherwise the stream is read once, and its error and, since the
        buffer is not made any larger, its amount are passed on. */
    method ReadSome(buffer: array<char>) returns (amount: nat, failed: bool)
      requires Valid() && buffer != stashedDataBuf
      modifies this, stashedDataBuf, stream, buffer
      ensures Valid() && amount <= buffer.Length
      ensures delivered == old(delivered) + buffer[..amount]
      ensures old(received) <= received && received + stream.Rest() == old(received + stream.Rest())
      ensures old(stashedData).Some? ==>
        received == old(received) && !failed && amount == Min(|old(Stash())|, buffer.Length)
      ensures old(stashedData).None? ==>
        && failed == old(stream.Fails()) && amount == old(stream.Available(buffer.Length))
        && |received| == |old(received)| + amount
      ensures buffer.Length > 0 && old(ReadsLeft()) > 0 ==> ReadsLeft() < old(ReadsLeft())
      ensures old(ReadsLeft()) == 0 ==> ReadsLeft() == 0
    {
      hide Inject, BytesOf, Reason;
      NoBytes();
      if stashedData.Some? {
        amount := ReadStashed(buffer);
        failed := false;
      } else {
        amount, failed := ReadStream(buffer);
      }
    }

    method ReadStashed(buffer: array<char>) returns (amount: nat)
      requires Valid() && buffer != stashedDataBuf && stashedData.Some?
      modifies this`stashedData, this`delivered, buffer
      ensures Valid() && amount == Min(|old(Stash())|, buffer.Length)
      ensures delivered == old(delivered) + buffer[..amount] && |Stash()| == |old(Stash())| - amount
    {
      hide Inject, Reason;
      ghost var stash := Stash();
      amount := DeliverStash(buffer);
      Associate(delivered, buffer[..amount], Stash());
      assert stash == buffer[..amount] + Stash();
      delivered := delivered + buffer[..amount];
    }

    method ReadStream(buffer: array<char>) returns (amount: nat, failed: bool)
      requires Valid() && buffer != stashedDataBuf && stashedData.None?
      modifies this, stashedDataBuf, stream, buffer
      ensures Valid() && failed == old(stream.Fails()) && amount == old(stream.Available(buffer.Length))
      ensures amount <= buffer.Length && delivered == old(delivered) + buffer[..amount]
      ensures old(received) <= received && |received| == |old(received)| + amount
      ensures received + stream.Rest() == old(received + stream.Rest())
      ensures buffer.Length > 0 && old(stream.responses) != [] ==> Left(stream.responses) < Left(old(stream.responses))
      ensures old(stream.responses) == [] ==> stream.responses == [] && stashedData.None?
      ensures old(reasonHasBeenInjected) ==> reasonHasBeenInjected && stashedData.None?
      ensures stashedData.Some? ==> reasonHasBeenInjected
    {
      hide Inject, BytesOf, Reason, Left;
      amount, failed := stream.ReadSome(buffer);
      Accept(buffer, amount, failed);
      Associate(old(received), old(stream.Rest())[..amount], stream.Rest());
    }

    /** Injects the reason into what has been read, if it belongs there. */
    method Accept(buffer: array<char>, amount: nat, failed: bool)
      requires Valid() && buffer != stashedDataBuf && stashedData.None?
      requires amount <= buffer.Length && (failed ==> amount == 0)
      modifies this, stashedDataBuf, buffer
      ensures Valid() && received == old(received) + old(buffer[..amount])
      ensures delivered == old(delivered) + buffer[..amount]
      ensures old(reasonHasBeenInjected) ==> reasonHasBeenInjected && stashedData.None?
      ensures amount == 0 ==> stashedData.None?
      ensures stashedData.Some? ==> reasonHasBeenInjected
    {
      hide Inject, Reason;
      ghost var data := buffer[..amount];
      assert delivered + "" == delivered;
      if !failed && !reasonHasBeenInjected {
        InjectIfFound(buffer, amount);
      } else {
        NothingToInject("");
        assert data + Stash() == data;
      }
      Delivered(delivered, received, data, buffer[..amount], Stash());
      received := received + data;
      delivered := delivered + buffer[..amount];
    }

    method InjectIfFound(buffer: array<char>, n: nat)
      requires stashedDataBuf.Length == |Reason()| && buffer != stashedDataBuf && n <= buffer.Length
      requires stashedData.None? && !reasonHasBeenInjected
      modifies this`stashedData, this`reasonHasBeenInjected, stashedDataBuf, buffer
      ensures stashedData.Some? ==> stashedData == Some(0)
      ensures stashedData.Some? <==> reasonHasBeenInjected
      ensures reasonHasBeenInjected <==> '\r' in old(buffer[..n])
      ensures buffer[..n] + Stash() == Inject(old(buffer[..n]))
    {
      hide Inject, Reason;
      ghost var data := buffer[..n];
      var c := Search(buffer, n);
      assert data[..c] == buffer[..c];
      InjectAt(data, c);
      if c < n {
        assert data[c] == '\r' && data[c..] == buffer[c..n];
        InjectInPlace(buffer, n, c);
        assert Stash() == stashedDataBuf[..];
      } else {
        assert data + "" == data;
      }
    }
  }

  lemma NoBytes()
    ensures BytesOf([]) == ""
  {
  }

  /** However the source is cut into chunks and whatever the sizes of the buffers, what the
      reads return together is the beginning of the response with the reason injected, and
      all of it once the source is at its end and nothing is stashed. That is so after as many
      reads as there are bytes and chunks, and two more for the reason, unless a buffer is
      empty. */
  method ReadAll(stream: SyncReadStream, sizes: seq<nat>) returns (out: string, complete: bool)
    modifies stream
    ensures out <= Inject(old(stream.Rest()))
    ensures complete ==> out == Inject(old(stream.Rest()))
    ensures 0 !in sizes && |sizes| >= old(Left(stream.responses)) + |Reason()| ==> complete
  {
    hide Inject, BytesOf;
    var injector := new HttpResponseReasonInjector(stream);
    out := "";
    ghost var whole, most := stream.Rest(), Left(stream.responses) + |Reason()|;
    assert injector.received + stream.Rest() == whole;
    for i := 0 to |sizes|
      invariant injector.Valid() && fresh(injector) && fresh(injector.stashedDataBuf) && injector.stream == stream
      invariant out == injector.delivered && injector.received + stream.Rest() == whole
      invariant 0 !in sizes && injector.ReadsLeft() > 0 ==> injector.ReadsLeft() + i <= most
    {
      assert sizes[i] in sizes;
      var buffer := new char[sizes[i]];
      var amount, failed := injector.ReadSome(buffer);
      out := out + buffer[..amount];
    }
    InjectMonotone(injector.received, stream.Rest());
    complete := stream.responses == [] && injector.stashedData.None?;
    NoBytes();
    if complete {
      assert whole == injector.received && out + "" == out;
    }
  }
}
