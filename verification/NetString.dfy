/**
 Netstrings (D. J. Bernstein, "Netstrings", section 2): a decimal length, a colon, that many
 bytes, a comma. One reader parses a buffer that is filled chunk by chunk, the other reads a
 TLS stream byte by byte. A character stands for one byte.
 */
module NetString {
  import opened Decimals
  import opened StreamBuffer
  import opened Wrappers

  datatype Error =
    | NoLength | MissingColon | LeadingZero | LengthTooLong | TooLarge | MissingComma

  /** `consumed` counts all bytes of the message, its framing included. */
  datatype Parse = Item(payload: string, consumed: nat) | NeedData | Invalid(error: Error)

  datatype Header = Found(length: nat) | Unfinished | Bad(error: Error)

  /** `WriteStringToStream`. */
  function Encode(s: string): string {
    Decimal(|s|) + ":" + s + ","
  }

  // ---- the buffered reader ----

  /** The search for the colon, at the position `i`. */
  function FindColon(buf: string, i: nat): (r: Header)
    requires i <= |buf|
    ensures r.Found? ==> i <= r.length < |buf| && r.length > 0 && buf[r.length] == ':'
    decreases |buf| - i
  {
    if i == |buf| then Unfinished
    else if buf[i] == ':' then (if i == 0 then Bad(NoLength) else Found(i))
    else if i > 16 then Bad(MissingColon)
    else FindColon(buf, i + 1)
  }

  function LeadingDigits(s: string): (k: nat)
    ensures k <= |s| && AllDigits(s[..k]) && (k < |s| ==> !IsDigit(s[k]))
  {
    if s == [] || !IsDigit(s[0]) then 0
    else
      var k := LeadingDigits(s[1..]);
      assert forall i :: 0 <= i < k ==> s[1..][..k][i] == s[i + 1];
      1 + k
  }

  /** What the buffered reader makes of its buffer; there is no limit if it is negative, and
      otherwise the limit counts the comma. */
  function ParseBuffered(buf: string, limit: int): Parse {
    match FindColon(buf, 0)
    case Bad(error) => Invalid(error)
    case Unfinished => NeedData
    case Found(h) =>
      var k := LeadingDigits(buf[..h]);
      if buf[0] == '0' && IsDigit(buf[1]) then Invalid(LeadingZero)
      else if k > 9 then Invalid(LengthTooLong)
      else
        var len := DecimalValue(buf[..h][..k]);
        if limit >= 0 && len + 1 > limit then Invalid(TooLarge)
        else if |buf| < h + 1 + len + 1 then NeedData
        else if buf[h + 1 + len] != ',' then Invalid(MissingComma)
        else Item(buf[h + 1..h + 1 + len], h + 1 + len + 1)
  }

  // ---- the strict reader ----

  /** What the strict reader makes of the bytes it reads; `NeedData` if they end too early. */
  function ParseStrict(s: string, limit: int): Parse {
    var k := LeadingDigits(s);
    if k > 1 && s[0] == '0' then Invalid(LeadingZero)
    else if k > 9 then Invalid(LengthTooLong)
    else if k == |s| then NeedData
    else if s[k] != ':' then Invalid(MissingColon)
    else if k == 0 then Invalid(NoLength)
    else
      var len := DecimalValue(s[..k]);
      if limit >= 0 && len > limit then Invalid(TooLarge)
      else if |s| < k + 1 + len + 1 then NeedData
      else if s[k + 1 + len] != ',' then Invalid(MissingComma)
      else Item(s[k + 1..k + 1 + len], k + 1 + len + 1)
  }

  // ---- both readers undo the writer ----

  lemma {:induction false} FindColonAt(buf: string, i: nat, h: nat)
    requires i <= h < |buf| && 0 < h <= 17 && buf[h] == ':'
    requires forall j :: i <= j < h ==> buf[j] != ':'
    ensures FindColon(buf, i) == Found(h)
    decreases h - i
  {
    if i < h {
      FindColonAt(buf, i + 1, h);
    }
  }

  lemma {:induction false} LeadingDigitsAre(s: string, k: nat)
    requires k <= |s| && AllDigits(s[..k]) && (k < |s| ==> !IsDigit(s[k]))
    ensures LeadingDigits(s) == k
  {
    if k > 0 {
      assert s[..k][0] == s[0];
      assert s[1..][..k - 1] == s[..k][1..];
      LeadingDigitsAre(s[1..], k - 1);
    }
  }

  const MAX_LENGTH: nat := 999999999

  lemma LengthDigits(n: nat)
    ensures |Decimal(n)| <= 9 <==> n <= MAX_LENGTH
  {
    assert Pow10(9) == 1000000000;
    if n <= MAX_LENGTH {
      DecimalLength(n, 9);
    } else {
      DecimalAtLeast(n, 9);
    }
  }

  lemma {:induction false} DecimalAtLeast(n: nat, k: nat)
    requires n >= Pow10(k)
    ensures |Decimal(n)| > k
    decreases k
  {
    if k > 0 {
      DecimalAtLeast(n / 10, k - 1);
    }
  }

  lemma {:induction false} FindColonNone(buf: string, i: nat)
    requires i <= |buf| && forall j :: i <= j < |buf| && j <= 17 ==> buf[j] != ':'
    requires i <= 17
    ensures FindColon(buf, i) == if |buf| <= 17 then Unfinished else Bad(MissingColon)
    decreases |buf| - i
  {
    if i < |buf| && i <= 16 {
      FindColonNone(buf, i + 1);
    }
  }

  /** Where the parts of an encoded string are. */
  lemma EncodeShape(p: string, rest: string)
    ensures var d := Decimal(|p|); var s := Encode(p) + rest;
      && |Encode(p)| == |d| + |p| + 2
      && s[..|d|] == d && s[|d|] == ':' && (forall j :: 0 <= j < |d| ==> s[j] == d[j])
      && s[|d| + 1..|d| + 1 + |p|] == p && s[|d| + 1 + |p|] == ','
  {
    var d := Decimal(|p|);
    hide Decimal;
    assert Encode(p) + rest == d + (":" + p + "," + rest);
    assert (Encode(p) + rest)[|d| + 1..] == p + ("," + rest);
  }

  lemma NotAColon(s: string, j: nat)
    requires AllDigits(s) && j < |s|
    ensures s[j] != ':'
  {
  }

  /** The buffered reader undoes the writer, whatever follows, exactly for the strings of at
      most 999999999 bytes that are within the limit; the limit counts the comma. */
  lemma BufferedUndoesEncode(p: string, rest: string, limit: int)
    ensures ParseBuffered(Encode(p) + rest, limit) == Item(p, |Encode(p)|)
      <==> |p| <= MAX_LENGTH && (limit < 0 || |p| < limit)
  {
    var d := Decimal(|p|);
    var s := Encode(p) + rest;
    EncodeShape(p, rest);
    LengthDigits(|p|);
    NoLeadingZero(|p|);
    ValueOfDecimal(|p|);
    hide Decimal, Encode, AllDigits, LeadingDigits, FindColon;
    forall j | 0 <= j < |d| ensures s[j] != ':' { NotAColon(d, j); }
    if |d| > 17 {
      FindColonNone(s, 0);
    } else {
      FindColonAt(s, 0, |d|);
      LeadingDigitsAre(s[..|d|], |d|);
      assert s[..|d|][..|d|] == d;
      SecondDigit(|p|);
    }
  }

  /** The numeral of a number below ten has one digit. */
  lemma SecondDigit(n: nat)
    ensures n == 0 ==> Decimal(n) == "0"
  {
  }

  /** As long as a message within the limits is incomplete, the reader asks for more. */
  lemma PrefixNeedsData(p: string, k: nat, limit: int)
    requires |p| <= MAX_LENGTH && (limit < 0 || |p| < limit) && k < |Encode(p)|
    ensures ParseBuffered(Encode(p)[..k], limit) == NeedData
  {
    var d := Decimal(|p|);
    EncodeShape(p, "");
    assert Encode(p) + "" == Encode(p);
    var s := Encode(p)[..k];
    LengthDigits(|p|);
    NoLeadingZero(|p|);
    ValueOfDecimal(|p|);
    SecondDigit(|p|);
    hide Decimal, Encode, AllDigits, LeadingDigits, FindColon;
    forall j | 0 <= j < |d| && j < k ensures s[j] != ':' { NotAColon(d, j); }
    if k <= |d| {
      FindColonNone(s, 0);
    } else {
      FindColonAt(s, 0, |d|);
      assert s[..|d|] == d;
      LeadingDigitsAre(s[..|d|], |d|);
      assert s[..|d|][..|d|] == d;
    }
  }

  lemma {:induction false} FindColonStable(buf: string, more: string, i: nat)
    requires i <= |buf| && !FindColon(buf, i).Unfinished?
    ensures FindColon(buf + more, i) == FindColon(buf, i)
    decreases |buf| - i
  {
    if i < |buf| && buf[i] != ':' && i <= 16 {
      FindColonStable(buf, more, i + 1);
    }
  }

  /** What the reader has made of its buffer does not depend on what comes later. */
  lemma ParseStable(buf: string, more: string, limit: int)
    ensures ParseBuffered(buf, limit).NeedData? || ParseBuffered(buf + more, limit) == ParseBuffered(buf, limit)
  {
    if !FindColon(buf, 0).Unfinished? {
      FindColonStable(buf, more, 0);
      hide FindColon, LeadingDigits, DecimalValue;
      if FindColon(buf, 0).Found? {
        var h := FindColon(buf, 0).length;
        assert (buf + more)[..h] == buf[..h];
        assert forall a, b :: 0 <= a <= b <= |buf| ==> (buf + more)[a..b] == buf[a..b];
      }
    }
  }

  // ---- the two readers ----

  /** The limit of the buffered reader that corresponds to one of the strict reader. */
  function Lift(limit: int): int {
    if limit < 0 then limit else limit + 1
  }

  lemma StrictImpliesBuffered(s: string, limit: int)
    requires ParseStrict(s, limit).Item?
    ensures ParseBuffered(s, Lift(limit)) == ParseStrict(s, limit)
    ensures AllDigits(s[..LeadingDigits(s)])
    ensures ParseStrict(s, limit).consumed - |ParseStrict(s, limit).payload| - 2 == LeadingDigits(s)
  {
    hide LeadingDigits, FindColon, DecimalValue;
    var k := LeadingDigits(s);
    FindColonAt(s, 0, k);
    LeadingDigitsAre(s[..k], k);
    assert s[..k][..k] == s[..k];
    assert k > 1 ==> IsDigit(s[..k][1]);
  }

  lemma BufferedImpliesStrict(s: string, limit: int)
    requires ParseBuffered(s, Lift(limit)).Item? && FindColon(s, 0).Found? && AllDigits(s[..FindColon(s, 0).length])
    ensures ParseStrict(s, limit) == ParseBuffered(s, Lift(limit))
  {
    hide LeadingDigits, FindColon, DecimalValue;
    var h := FindColon(s, 0).length;
    LeadingDigitsAre(s, h);
    LeadingDigitsAre(s[..h], h);
    assert s[..h][..h] == s[..h];
    assert h > 1 ==> IsDigit(s[..h][1]);
  }

  /** The strict reader accepts an input exactly if the buffered reader does, with the limit
      one higher, and every byte before the colon is a digit; the message and the bytes
      consumed are then the same. */
  lemma ReadersAgree(s: string, limit: int, p: string, consumed: nat)
    ensures ParseStrict(s, limit) == Item(p, consumed) <==>
      ParseBuffered(s, Lift(limit)) == Item(p, consumed) &&
      |p| + 2 <= consumed <= |s| && AllDigits(s[..consumed - |p| - 2])
  {
    hide LeadingDigits, FindColon, DecimalValue;
    if ParseStrict(s, limit) == Item(p, consumed) {
      StrictImpliesBuffered(s, limit);
    } else if ParseBuffered(s, Lift(limit)) == Item(p, consumed) && AllDigits(s[..consumed - |p| - 2]) {
      BufferedImpliesStrict(s, limit);
    }
  }

  /** The strict reader undoes the writer, too; its limit does not count the comma. */
  lemma StrictUndoesEncode(p: string, rest: string, limit: int)
    ensures ParseStrict(Encode(p) + rest, limit) == Item(p, |Encode(p)|)
      <==> |p| <= MAX_LENGTH && (limit < 0 || |p| <= limit)
  {
    hide ParseStrict, ParseBuffered, Decimal, AllDigits;
    var s := Encode(p) + rest;
    BufferedUndoesEncode(p, rest, Lift(limit));
    ReadersAgree(s, limit, p, |Encode(p)|);
    EncodeShape(p, rest);
  }

  // ---- what is accepted ----

  /** The strict reader accepts exactly the encoded strings within its limit. */
  lemma StrictAcceptsEncoded(s: string, limit: int, p: string, n: nat)
    ensures ParseStrict(s, limit) == Item(p, n) <==>
      Encode(p) <= s && n == |Encode(p)| && |p| <= MAX_LENGTH && (limit < 0 || |p| <= limit)
  {
    if Encode(p) <= s && n == |Encode(p)| {
      assert s == Encode(p) + s[n..];
      StrictUndoesEncode(p, s[n..], limit);
    } else if ParseStrict(s, limit) == Item(p, n) {
      StrictIsEncoded(s, limit, p, n);
      assert false;
    }
  }

  lemma StrictIsEncoded(s: string, limit: int, p: string, n: nat)
    requires ParseStrict(s, limit) == Item(p, n)
    ensures Encode(p) <= s && n == |Encode(p)|
  {
    hide LeadingDigits, DecimalValue, Decimal;
    var k := LeadingDigits(s);
    DecimalOfValue(s[..k]);
    assert s[..k] + ":" + p + "," == s[..n];
  }

  /** The first `h` bytes are the header of a message of `len` bytes, up to its colon: its
      leading digits, at most nine and no needless zero in front, give the length, which is
      within the limit together with the comma. What stands between the digits and the colon
      does not matter. */
  ghost predicate IsHeader(s: string, limit: int, h: nat, len: nat) {
    && 0 < h <= 17 && h < |s| && s[h] == ':' && (forall j :: 0 <= j < h ==> s[j] != ':')
    && !(s[0] == '0' && IsDigit(s[1]))
    && (exists k: nat :: k <= h && k <= 9 && AllDigits(s[..k]) && !IsDigit(s[k]) && DecimalValue(s[..k]) == len)
    && (limit < 0 || len < limit)
  }

  lemma {:induction false} FindColonIs(s: string, i: nat)
    requires i <= |s| && i <= 17 && forall j :: 0 <= j < i ==> s[j] != ':'
    ensures var r := FindColon(s, i);
      && (forall h: nat :: r == Found(h) <==>
            i <= h <= 17 && 0 < h < |s| && s[h] == ':' && forall j :: 0 <= j < h ==> s[j] != ':')
      && (r.Unfinished? <==> |s| <= 17 && forall j :: 0 <= j < |s| ==> s[j] != ':')
      && (r.Bad? ==> r.error.NoLength? || r.error.MissingColon?)
    decreases |s| - i
  {
    if i < |s| && s[i] != ':' && i <= 16 {
      FindColonIs(s, i + 1);
    }
  }

  lemma HeaderIs(s: string, limit: int, h: nat, len: nat)
    ensures IsHeader(s, limit, h, len) <==>
      && FindColon(s, 0) == Found(h) && h < |s| && h > 0
      && !(s[0] == '0' && IsDigit(s[1]))
      && var k := LeadingDigits(s[..h]);
      k <= 9 && AllDigits(s[..h][..k]) && DecimalValue(s[..h][..k]) == len && (limit < 0 || len < limit)
  {
    hide LeadingDigits, FindColon, DecimalValue, AllDigits;
    FindColonIs(s, 0);
    if FindColon(s, 0) == Found(h) {
      var k := LeadingDigits(s[..h]);
      DigitsOfHeader(s, h, k);
      forall j: nat | j <= h && AllDigits(s[..j]) && !IsDigit(s[j]) ensures j == k {
        HeaderDigits(s, h, j);
      }
    }
  }

  lemma DigitsOfHeader(s: string, h: nat, k: nat)
    requires h < |s| && s[h] == ':' && k == LeadingDigits(s[..h])
    ensures k <= h && s[..h][..k] == s[..k] && AllDigits(s[..k]) && !IsDigit(s[k])
  {
    hide LeadingDigits;
    assert s[..h][..k] == s[..k];
  }

  lemma HeaderDigits(s: string, h: nat, k: nat)
    requires k <= h < |s| && AllDigits(s[..k]) && !IsDigit(s[k])
    ensures LeadingDigits(s[..h]) == k
  {
    assert s[..h][..k] == s[..k];
    LeadingDigitsAre(s[..h], k);
  }

  /** What the buffered reader accepts: a header, as many bytes as it says, and a comma. If
      there is another byte in place of the comma it says so, and it asks for more only within
      a header of at most 17 bytes or after a header. */
  lemma BufferedAccepts(s: string, limit: int, p: string, n: nat)
    ensures ParseBuffered(s, limit) == Item(p, n) <==>
      && |p| + 2 <= n <= |s| && IsHeader(s, limit, n - |p| - 2, |p|)
      && s[n - |p| - 1..n - 1] == p && s[n - 1] == ','
    ensures ParseBuffered(s, limit) == Invalid(MissingComma) <==>
      exists h: nat, len: nat :: IsHeader(s, limit, h, len) && h + len + 1 < |s| && s[h + len + 1] != ','
    ensures ParseBuffered(s, limit) == NeedData <==>
      || (|s| <= 17 && forall j :: 0 <= j < |s| ==> s[j] != ':')
      || exists h: nat, len: nat :: IsHeader(s, limit, h, len) && |s| < h + len + 2
  {
    hide LeadingDigits, FindColon, DecimalValue, IsHeader, AllDigits, ParseBuffered;
    forall h: nat, len: nat | IsHeader(s, limit, h, len) ensures h < |s| && ParsedAfter(s, limit, h, len) {
      HeaderParsed(s, limit, h, len);
    }
    WithoutHeader(s, limit);
  }

  /** What the buffered reader makes of what follows the header. */
  ghost predicate ParsedAfter(s: string, limit: int, h: nat, len: nat)
    requires h < |s|
  {
    ParseBuffered(s, limit) ==
      if |s| < h + len + 2 then NeedData
      else if s[h + len + 1] != ',' then Invalid(MissingComma)
      else Item(s[h + 1..h + 1 + len], h + len + 2)
  }

  lemma HeaderParsed(s: string, limit: int, h: nat, len: nat)
    requires IsHeader(s, limit, h, len)
    ensures h < |s| && ParsedAfter(s, limit, h, len)
  {
    hide LeadingDigits, FindColon, DecimalValue, IsHeader, AllDigits;
    HeaderIs(s, limit, h, len);
  }

  lemma WithoutHeader(s: string, limit: int)
    ensures var r := ParseBuffered(s, limit);
      || r.Item? || r == Invalid(MissingComma)
      || (r.NeedData? && (|s| > 17 || exists j :: 0 <= j < |s| && s[j] == ':')) ==>
      exists h: nat, len: nat :: IsHeader(s, limit, h, len)
    ensures |s| <= 17 && (forall j :: 0 <= j < |s| ==> s[j] != ':') ==> ParseBuffered(s, limit).NeedData?
  {
    hide LeadingDigits, FindColon, DecimalValue, IsHeader, AllDigits;
    FindColonIs(s, 0);
    forall h: nat | 0 < h <= 17 && FirstAt(s, h) ensures FindColon(s, 0) == Found(h) {
    }
    if FindColon(s, 0).Found? {
      var h := FindColon(s, 0).length;
      assert FirstAt(s, h);
      var k := LeadingDigits(s[..h]);
      HeaderIs(s, limit, h, DecimalValue(s[..h][..k]));
    }
  }

  /** The errors of the buffered reader about the header itself. */
  lemma BufferedRefuses(s: string, limit: int)
    ensures ParseBuffered(s, limit) == Invalid(NoLength) <==> s != [] && s[0] == ':'
    ensures ParseBuffered(s, limit) == Invalid(MissingColon) <==> |s| > 17 && forall j :: 0 <= j <= 17 ==> s[j] != ':'
    ensures ParseBuffered(s, limit) == Invalid(LeadingZero) <==>
      |s| > 1 && s[0] == '0' && IsDigit(s[1]) && exists h :: 0 < h <= 17 && h < |s| && s[h] == ':'
  {
    hide LeadingDigits, DecimalValue;
    if forall j :: 0 <= j <= 17 && j < |s| ==> s[j] != ':' {
      FindColonNone(s, 0);
    } else {
      var h := FirstColon(s, 17);
      if h > 0 {
        FindColonAt(s, 0, h);
      }
      hide FindColon;
    }
  }

  /** The first colon is at that position. */
  predicate FirstAt(s: string, h: nat) {
    h < |s| && s[h] == ':' && forall j :: 0 <= j < h ==> s[j] != ':'
  }

  lemma DigitsAre(s: string)
    requires AllDigits(s)
    ensures forall j :: 0 <= j < |s| ==> IsDigit(s[j])
  {
  }

  lemma DigitsInFront(s: string, n: nat)
    requires n <= |s|
    ensures AllDigits(s[..n]) <==> n <= LeadingDigits(s)
  {
    hide LeadingDigits;
    var k := LeadingDigits(s);
    if k < n {
      assert s[..n][k] == s[k];
    } else {
      assert s[..n] == s[..k][..n];
    }
  }

  /** The errors of the buffered reader about the length: more than nine digits before the
      colon, or a header that would do without the limit. */
  lemma BufferedLimits(s: string, limit: int)
    ensures ParseBuffered(s, limit) == Invalid(LengthTooLong) <==>
      exists h: nat :: 9 < h <= 17 && FirstAt(s, h) && AllDigits(s[..10]) && s[0] != '0'
    ensures ParseBuffered(s, limit) == Invalid(TooLarge) <==>
      limit >= 0 && exists h: nat, len: nat :: IsHeader(s, -1, h, len) && len >= limit
  {
    hide LeadingDigits, FindColon, DecimalValue, IsHeader, AllDigits;
    FindColonIs(s, 0);
    forall h: nat | 0 < h <= 17 && FirstAt(s, h) ensures FindColon(s, 0) == Found(h) {
    }
    if FindColon(s, 0).Found? {
      var h := FindColon(s, 0).length;
      assert FirstAt(s, h);
      var k := LeadingDigits(s[..h]);
      if h > 9 {
        DigitsInFront(s[..h], 10);
        assert s[..h][..10] == s[..10];
      }
      if k > 9 {
        DigitsAre(s[..10]);
        assert s[..10][1] == s[1];
      } else {
        HeaderIs(s, -1, h, DecimalValue(s[..h][..k]));
      }
    }
    forall h: nat, len: nat | IsHeader(s, -1, h, len)
      ensures FindColon(s, 0) == Found(h) && LeadingDigits(s[..h]) <= 9
      ensures AllDigits(s[..h][..LeadingDigits(s[..h])]) && DecimalValue(s[..h][..LeadingDigits(s[..h])]) == len
    {
      HeaderIs(s, -1, h, len);
    }
  }

  lemma {:induction false} FirstColon(s: string, n: nat) returns (h: nat)
    requires exists j :: 0 <= j <= n && j < |s| && s[j] == ':'
    ensures h <= n && h < |s| && s[h] == ':' && forall j :: 0 <= j < h ==> s[j] != ':'
    decreases n
  {
    if n > 0 && exists j :: 0 <= j <= n - 1 && j < |s| && s[j] == ':' {
      h := FirstColon(s, n - 1);
    } else {
      h := n;
    }
  }

  lemma FirstDigits(s: string)
    ensures LeadingDigits(s) > 0 <==> s != [] && IsDigit(s[0])
    ensures LeadingDigits(s) > 1 <==> |s| > 1 && IsDigit(s[0]) && IsDigit(s[1])
  {
  }

  /** The first `k` bytes are the header of a message for the strict reader, up to its colon:
      one to nine digits and no needless zero in front. */
  predicate IsStrictHeader(s: string, k: nat) {
    0 < k <= 9 && k < |s| && AllDigits(s[..k]) && s[k] == ':' && (s[0] == '0' ==> k == 1)
  }

  /** The errors of the strict reader, and that it needs more only while what is there may
      still become a message. */
  lemma StrictRefuses(s: string, limit: int)
    ensures ParseStrict(s, limit) == Invalid(NoLength) <==> s != [] && s[0] == ':'
    ensures ParseStrict(s, limit) == Invalid(LeadingZero) <==> |s| > 1 && s[0] == '0' && IsDigit(s[1])
    ensures ParseStrict(s, limit) == Invalid(LengthTooLong) <==> |s| > 9 && AllDigits(s[..10]) && s[0] != '0'
    ensures ParseStrict(s, limit) == Invalid(MissingColon) <==>
      exists k: nat :: k <= 9 && k < |s| && AllDigits(s[..k]) && !IsDigit(s[k]) && s[k] != ':' &&
        (s[0] == '0' ==> k == 1)
    ensures ParseStrict(s, limit) == Invalid(TooLarge) <==>
      limit >= 0 && exists k: nat :: IsStrictHeader(s, k) && DecimalValue(s[..k]) > limit
    ensures ParseStrict(s, limit) == Invalid(MissingComma) <==>
      exists k: nat :: IsStrictHeader(s, k) && var len := DecimalValue(s[..k]);
        (limit < 0 || len <= limit) && k + 1 + len < |s| && s[k + 1 + len] != ','
  {
    hide LeadingDigits, DecimalValue, AllDigits;
    var k := LeadingDigits(s);
    FirstDigits(s);
    if |s| > 9 {
      DigitsInFront(s, 10);
    }
    forall j: nat | j < |s| && AllDigits(s[..j]) && !IsDigit(s[j]) ensures j == k {
      LeadingDigitsAre(s, j);
    }
  }

  // ---- reading a stream of messages ----

  datatype Status = NewItem(str: string) | NeedMoreData | EndOfStream | Failed(error: Error)

  function StatusOf(r: Parse): Status {
    match r
    case Item(payload, _) => NewItem(payload)
    case NeedData => NeedMoreData
    case Invalid(error) => Failed(error)
  }

  /** Reads at most one message. `filled` is what the buffer held when it was parsed. */
  method ReadStringFromStream(stream: ChunkedStream, context: StreamReadContext, maxMessageLength: int)
      returns (status: Status, ghost filled: string)
    requires context.Valid()
    modifies context, context.buffer, stream
    ensures context.Valid() && (context.buffer == old(context.buffer) || fresh(context.buffer))
    ensures filled + stream.Rest() == old(context.Data() + stream.Rest())
    ensures old(context.Data()) <= filled
    ensures !old(context.mustRead) ==> stream.chunks == old(stream.chunks) && filled == old(context.Data())
    ensures old(context.eof) ==> status == EndOfStream && context.eof && stream.chunks == old(stream.chunks)
    ensures !old(context.eof) && old(context.mustRead) && !context.eof ==>
      Reads(stream.chunks) < Reads(old(stream.chunks))
    ensures !old(context.eof) && context.eof ==>
      status == EndOfStream && old(context.mustRead) && stream.IsEof()
      && context.Data() == filled == old(context.Data())
    ensures !context.eof ==>
      var r := ParseBuffered(filled, maxMessageLength);
      && status == StatusOf(r)
      && context.mustRead == r.NeedData?
      && (r.Item? ==> r.consumed <= |filled|)
      && context.Data() == if r.Item? then filled[r.consumed..] else filled
  {
    hide Bytes, Reads, LeadingDigits, FindColon, DecimalValue;
    filled := context.Data();
    if context.eof {
      return EndOfStream, filled;
    }
    if context.mustRead {
      var more := context.FillFromStream(stream);
      filled := context.Data();
      if !more {
        context.eof := true;
        return EndOfStream, filled;
      }
      context.mustRead := false;
    }
    var r := ParseBuffer(context.buffer, context.size, maxMessageLength);
    match r {
      case Invalid(error) =>
        status := Failed(error);
      case NeedData =>
        context.mustRead := true;
        status := NeedMoreData;
      case Item(payload, consumed) =>
        context.DropData(consumed);
        status := NewItem(payload);
    }
  }

  /** The parsing loops of the buffered reader. */
  method ParseBuffer(buffer: array<char>, size: nat, maxMessageLength: int) returns (r: Parse)
    requires size <= buffer.Length
    ensures r == ParseBuffered(buffer[..size], maxMessageLength)
    ensures r.Item? ==> r.consumed <= size
  {
    hide LeadingDigits, FindColon, DecimalValue;
    var headerLength := 0;
    var i := 0;
    ghost var data := buffer[..size];
    while i < size && headerLength == 0
      invariant 0 <= i <= size && data == buffer[..size]
      invariant headerLength == 0 ==> FindColon(data, 0) == FindColon(data, i)
      invariant headerLength > 0 ==> FindColon(data, 0) == Found(headerLength) && headerLength < size
      decreases size - i, headerLength == 0
    {
      FindColonStep(data, i);
      if buffer[i] == ':' {
        if i == 0 {
          return Invalid(NoLength);
        }
        headerLength := i;
      } else if i > 16 {
        return Invalid(MissingColon);
      } else {
        i := i + 1;
      }
    }
    if headerLength == 0 {
      FindColonEnd(data);
      return NeedData;
    }
    var len := 0;
    var k := 0;
    ghost var header := data[..headerLength];
    DecimalValueStart();
    if buffer[0] == '0' && IsDigit(buffer[1]) {
      return Invalid(LeadingZero);
    }
    while k < headerLength && IsDigit(buffer[k])
      invariant 0 <= k <= headerLength && k <= 9
      invariant AllDigits(header[..k]) && len == DecimalValue(header[..k])
    {
      DigitsSoFar(header, k);
      if k >= 9 {
        DigitsAtLeast(header, k + 1);
        return Invalid(LengthTooLong);
      }
      len := len * 10 + DigitValue(buffer[k]);
      k := k + 1;
    }
    LeadingDigitsAre(header, k);
    var dataLength := len + 1;
    if maxMessageLength >= 0 && dataLength > maxMessageLength {
      return Invalid(TooLarge);
    }
    if size < headerLength + 1 + dataLength {
      return NeedData;
    }
    var start := headerLength + 1;
    if buffer[start + len] != ',' {
      return Invalid(MissingComma);
    }
    SliceOfPrefix(buffer[..], size, start, start + len);
    return Item(buffer[start..start + len], start + len + 1);
  }

  lemma SliceOfPrefix(s: string, n: nat, i: nat, j: nat)
    requires i <= j <= n <= |s|
    ensures s[..n][i..j] == s[i..j]
  {
  }

  lemma FindColonStep(buf: string, i: nat)
    requires i < |buf|
    ensures FindColon(buf, i) ==
      if buf[i] == ':' then (if i == 0 then Bad(NoLength) else Found(i))
      else if i > 16 then Bad(MissingColon) else FindColon(buf, i + 1)
  {
  }

  lemma FindColonEnd(buf: string)
    ensures FindColon(buf, |buf|) == Unfinished
  {
  }

  lemma DecimalValueStart()
    ensures DecimalValue("") == 0
  {
  }

  lemma DigitsSoFar(s: string, k: nat)
    requires k < |s| && AllDigits(s[..k]) && IsDigit(s[k])
    ensures AllDigits(s[..k + 1]) && DecimalValue(s[..k + 1]) == DecimalValue(s[..k]) * 10 + DigitValue(s[k])
  {
    var t := s[..k + 1];
    assert t[..k] == s[..k];
    forall i | 0 <= i < |t| ensures IsDigit(t[i]) {
      if i < k { assert s[..k][i] == t[i]; }
    }
  }

  lemma {:induction false} DigitsAtLeast(s: string, k: nat)
    requires k <= |s| && AllDigits(s[..k])
    ensures LeadingDigits(s) >= k
    decreases k
  {
    if k > 0 {
      assert s[..k][0] == s[0];
      assert s[1..][..k - 1] == s[..k][1..];
      DigitsAtLeast(s[1..], k - 1);
    }
  }

  /** The TLS stream of the strict reader, whose reads fail at the end of the data. */
  class ByteSource {
    var rest: string

    constructor (rest: string)
      ensures this.rest == rest
    {
      this.rest := rest;
    }

    method Read(count: nat) returns (ok: bool, data: string)
      modifies this
      ensures ok <==> count <= |old(rest)|
      ensures ok ==> data == old(rest)[..count] && rest == old(rest)[count..]
    {
      ok := count <= |rest|;
      if ok {
        data, rest := rest[..count], rest[count..];
      } else {
        data, rest := rest, "";
      }
    }
  }

  method ReadStringStrictly(stream: ByteSource, maxMessageLength: int) returns (r: Parse)
    modifies stream
    ensures r == ParseStrict(old(stream.rest), maxMessageLength)
    ensures r.Item? ==> r.consumed <= |old(stream.rest)| && stream.rest == old(stream.rest)[r.consumed..]
  {
    hide LeadingDigits, DecimalValue;
    ghost var s := stream.rest;
    var len := 0;
    var leadingZero := false;
    var readBytes := 0;
    DecimalValueStart();
    while true
      invariant 0 <= readBytes <= 9 && readBytes <= |s| && stream.rest == s[readBytes..]
      invariant AllDigits(s[..readBytes]) && len == DecimalValue(s[..readBytes])
      invariant leadingZero <==> readBytes > 0 && s[0] == '0'
      invariant leadingZero ==> readBytes == 1
      decreases 10 - readBytes
    {
      var ok, byte := stream.Read(1);
      if !ok {
        LeadingDigitsAre(s, readBytes);
        return NeedData;
      }
      var c := byte[0];
      assert c == s[readBytes];
      if IsDigit(c) {
        DigitsSoFar(s, readBytes);
        DigitsAtLeast(s, readBytes + 1);
        if readBytes == 9 {
          return Invalid(LengthTooLong);
        }
        if leadingZero {
          return Invalid(LeadingZero);
        }
        len := len * 10 + DigitValue(c);
        if readBytes == 0 && c == '0' {
          leadingZero := true;
        }
        readBytes := readBytes + 1;
      } else {
        LeadingDigitsAre(s, readBytes);
        if c != ':' {
          return Invalid(MissingColon);
        }
        if readBytes == 0 {
          return Invalid(NoLength);
        }
        break;
      }
    }
    assert stream.rest == s[readBytes + 1..];
    if maxMessageLength >= 0 && len > maxMessageLength {
      return Invalid(TooLarge);
    }
    var ok, payload := stream.Read(len);
    if !ok {
      return NeedData;
    }
    assert stream.rest == s[readBytes + 1 + len..];
    var ok', trailer := stream.Read(1);
    if !ok' {
      return NeedData;
    }
    if trailer[0] != ',' {
      return Invalid(MissingComma);
    }
    return Item(payload, readBytes + 1 + len + 1);
  }

  // ---- whole streams ----

  /** The messages of a stream, read one after the other, and the error that ends them. */
  datatype Messages = Messages(items: seq<string>, error: Option<Error>)

  function MessagesOf(s: string, limit: int): Messages
    decreases |s|
  {
    var r := ParseBuffered(s, limit);
    match r
    case NeedData => Messages([], None)
    case Invalid(error) => Messages([], Some(error))
    case Item(payload, consumed) =>
      ItemConsumes(s, limit);
      var rest := MessagesOf(s[consumed..], limit);
      Messages([payload] + rest.items, rest.error)
  }

  lemma ItemConsumes(s: string, limit: int)
    requires ParseBuffered(s, limit).Item?
    ensures 0 < ParseBuffered(s, limit).consumed <= |s|
  {
    hide FindColon, LeadingDigits, DecimalValue;
  }

  function EncodeAll(msgs: seq<string>): string {
    if msgs == [] then "" else Encode(msgs[0]) + EncodeAll(msgs[1..])
  }

  /** A list of messages within the limits comes back from its encoding. */
  lemma {:induction false} MessagesOfEncodeAll(msgs: seq<string>, limit: int)
    requires forall i :: 0 <= i < |msgs| ==> |msgs[i]| <= MAX_LENGTH && (limit < 0 || |msgs[i]| < limit)
    ensures MessagesOf(EncodeAll(msgs), limit) == Messages(msgs, None)
    decreases |msgs|
  {
    hide Encode, ParseBuffered;
    if msgs == [] {
      NothingToParse(limit);
    } else {
      BufferedUndoesEncode(msgs[0], EncodeAll(msgs[1..]), limit);
      var e := Encode(msgs[0]);
      assert (e + EncodeAll(msgs[1..]))[|e|..] == EncodeAll(msgs[1..]);
      MessagesOfEncodeAll(msgs[1..], limit);
    }
  }

  lemma NothingToParse(limit: int)
    ensures ParseBuffered("", limit) == NeedData
  {
  }

  lemma MessagesStep(filled: string, more: string, limit: int)
    requires !ParseBuffered(filled, limit).NeedData?
    ensures var r := ParseBuffered(filled, limit);
      && (r.Invalid? ==> MessagesOf(filled + more, limit) == Messages([], Some(r.error)))
      && (r.Item? ==> r.consumed <= |filled|)
      && (r.Item? ==>
            var rest := MessagesOf(filled[r.consumed..] + more, limit);
            MessagesOf(filled + more, limit) == Messages([r.payload] + rest.items, rest.error))
  {
    hide ParseBuffered;
    ParseStable(filled, more, limit);
    var r := ParseBuffered(filled, limit);
    if r.Item? {
      ItemConsumes(filled, limit);
      assert (filled + more)[r.consumed..] == filled[r.consumed..] + more;
    }
  }

  lemma EndReached(stream: ChunkedStream, filled: string, limit: int)
    requires stream.IsEof() && ParseBuffered(filled, limit) == NeedData
    ensures MessagesOf(filled + stream.Rest(), limit) == Messages([], None)
  {
    hide ParseBuffered;
    assert filled + "" == filled;
  }

  /** Repeated buffered reads return the messages of the whole stream in order, then the end
      of the stream or the first error, however the stream is cut into chunks; a message is
      asked to be continued only while the buffer holds an incomplete one. */
  method ReadAll(stream: ChunkedStream, maxMessageLength: int) returns (items: seq<string>, error: Option<Error>)
    modifies stream
    ensures Messages(items, error) == MessagesOf(old(stream.Rest()), maxMessageLength)
  {
    hide ParseBuffered, Bytes, Reads, MessagesOf;
    var context := new StreamReadContext();
    items, error := [], None;
    NothingToParse(maxMessageLength);
    ghost var whole := MessagesOf(stream.Rest(), maxMessageLength);
    assert context.Data() + stream.Rest() == stream.Rest();
    while true
      invariant context.Valid() && fresh(context) && fresh(context.buffer) && !context.eof && error == None
      invariant context.mustRead ==> ParseBuffered(context.Data(), maxMessageLength) == NeedData
      invariant var rest := MessagesOf(context.Data() + stream.Rest(), maxMessageLength);
        whole == Messages(items + rest.items, rest.error)
      decreases Reads(stream.chunks), context.size, if context.mustRead then 0 else 1
    {
      var status, filled := ReadStringFromStream(stream, context, maxMessageLength);
      if context.eof {
        EndReached(stream, filled, maxMessageLength);
        return;
      }
      if status.Failed? {
        MessagesStep(filled, stream.Rest(), maxMessageLength);
        error := Some(status.error);
        return;
      }
      if status.NewItem? {
        MessagesStep(filled, stream.Rest(), maxMessageLength);
        ItemConsumes(filled, maxMessageLength);
        items := items + [status.str];
      }
    }
  }
}
