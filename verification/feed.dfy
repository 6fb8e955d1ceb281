// The attempt feed's opaque cursor (internal/credentialstore/feed.go).

module FeedCursor {
  import opened Base
  import opened Words
  import opened Ordering
  import opened Base64

  const BAR: byte := 0x7C
  const PLUS: byte := 0x2B
  const MINUS: byte := 0x2D
  const PREFIX: Text := [0x6B, 0x61, 0x66, 0x5F]  // "kaf_"

  // ----- decimal integers -----

  /** The decimal digits of a number. */
  function Decimal(n: nat): (r: Text)
    ensures r != [] && forall c | c in r :: 0x30 <= c <= 0x39
  {
    if n < 10 then [0x30 + n] else Decimal(n / 10) + [0x30 + n % 10]
  }

  /** `strconv.Itoa`. */
  function Itoa(n: int): (r: Text)
    ensures BAR !in r
  {
    if n < 0 then [MINUS] + Decimal(-n) else Decimal(n)
  }

  /** The value of a run of digits. */
  function Natural(t: Text): Option<nat>
  {
    if t == [] then Some(0)
    else
      var c := t[|t| - 1];
      match Natural(t[..|t| - 1])
      case None => None
      case Some(n) => if 0x30 <= c <= 0x39 then Some(10 * n + (c - 0x30)) else None
  }

  /** `strconv.Atoi`: an optional sign, digits, and a value of 64 bits. */
  function Atoi(t: Text): Option<int>
  {
    if t == [] then None
    else
      var signed := t[0] == PLUS || t[0] == MINUS;
      var digits := if signed then t[1..] else t;
      if digits == [] || Natural(digits).None? then None
      else
        var n: int := Natural(digits).value;
        var value: int := if t[0] == MINUS then -n else n;
        if -U63 <= value < U63 then Some(value) else None
  }

  lemma {:induction false} DecimalReadsBack(n: nat)
    ensures Natural(Decimal(n)) == Some(n)
  {
    if n >= 10 {
      DecimalReadsBack(n / 10);
      assert Decimal(n)[..|Decimal(n)| - 1] == Decimal(n / 10);
    } else {
      assert Decimal(n)[..0] == [];
    }
  }

  lemma ItoaReadsBack(n: nat)
    requires n < U63
    ensures Atoi(Itoa(n)) == Some(n)
  {
    DecimalReadsBack(n);
    assert Decimal(n)[0] in Decimal(n);
  }

  function Pow10(k: nat): (r: nat)
    ensures r >= 1
  {
    if k == 0 then 1 else 10 * Pow10(k - 1)
  }

  lemma {:induction false} DecimalLength(n: nat, k: nat)
    requires 1 <= k && n < Pow10(k)
    ensures |Decimal(n)| <= k
  {
    if n >= 10 {
      assert Pow10(1) == 10;
      DecimalLength(n / 10, k - 1);
    }
  }

  lemma NineteenDigits()
    ensures U63 < Pow10(19)
  {
    assert Pow10(5) == 100_000;
    assert Pow10(10) == 10_000_000_000;
    assert Pow10(15) == 1_000_000_000_000_000;
  }

  // ----- parts between bars -----

  /** What stands before the first bar, and what after it. */
  function Cut(t: Text): (r: Option<(Text, Text)>)
    ensures r.Some? ==> t == r.value.0 + [BAR] + r.value.1 && BAR !in r.value.0
    ensures r.None? <==> BAR !in t
  {
    if t == [] then None
    else if t[0] == BAR then Some(([], t[1..]))
    else
      match Cut(t[1..])
      case None => None
      case Some((before, after)) => Some(([t[0]] + before, after))
  }

  /** The first bar splits a text in one way. */
  lemma {:induction false} CutFirst(before: Text, after: Text)
    requires BAR !in before
    ensures Cut(before + [BAR] + after) == Some((before, after))
  {
    var t := before + [BAR] + after;
    if before == [] {
      assert t[1..] == after;
    } else {
      assert t[1..] == before[1..] + [BAR] + after;
      CutFirst(before[1..], after);
      assert t[0] == before[0] && before == [before[0]] + before[1..];
    }
  }

  // ----- the cursor -----

  /** A position; `Instant` is a moment in time. */
  datatype Cursor<Instant> = Cursor(createdAt: Instant, requestId: Text, index: int)

  /** The text inside a token. */
  function Raw<Instant>(format: Instant -> Text, c: Cursor<Instant>): Text
  {
    format(c.createdAt) + [BAR] + (Itoa(c.index) + [BAR] + c.requestId)
  }

  function EncodeCursor<Instant>(format: Instant -> Text, c: Cursor<Instant>): Text
  {
    PREFIX + Encode(RawURL, Raw(format, c))
  }

  /** The base64 text of a token, if it has the prefix and is short enough. */
  function Payload(token: Text): Option<Text>
  {
    if PREFIX <= token && |token| - |PREFIX| <= 512 then Some(token[|PREFIX|..]) else None
  }

  /** A cursor from the text inside a token. */
  function ParseRaw<Instant>(parse: Text -> Option<Instant>, raw: Text): Option<Cursor<Instant>>
  {
    match Cut(raw)
    case None => None
    case Some((time, rest)) =>
      match Cut(rest)
      case None => None
      case Some((digits, id)) =>
        var index := Atoi(digits);
        if parse(time).None? then None
        else if index.None? || index.value < 0 || Itoa(index.value) != digits || id == [] || |id| > 256 then None
        else Some(Cursor(parse(time).value, id, index.value))
  }

  /** ParseAttemptFeedCursor. Its base64 decoder skips line breaks and ignores trailing bits. */
  function ParseCursor<Instant>(parse: Text -> Option<Instant>, token: Text): Option<Cursor<Instant>>
  {
    match Payload(token)
    case None => None
    case Some(encoded) =>
      match Decode(RawURL, false, WithoutBreaks(encoded))
      case None => None
      case Some(raw) => ParseRaw(parse, raw)
  }

  /** A position the feed can hand out, whose time is formatted and read back. */
  predicate Representable<Instant(==)>(format: Instant -> Text, parse: Text -> Option<Instant>, c: Cursor<Instant>)
  {
    && 0 <= c.index < U63 && 1 <= |c.requestId| <= 256
    && |format(c.createdAt)| <= 30 && BAR !in format(c.createdAt)
    && parse(format(c.createdAt)) == Some(c.createdAt)
  }

  /** A token stays inside the limit, and parsing undoes encoding even when the id holds bars. */
  lemma ParseUndoesEncode<Instant>(format: Instant -> Text, parse: Text -> Option<Instant>, c: Cursor<Instant>)
    requires Representable(format, parse, c)
    ensures |EncodeCursor(format, c)| <= |PREFIX| + 410
    ensures ParseCursor(parse, EncodeCursor(format, c)) == Some(c)
  {
    hide Raw;
    hide ParseRaw;
    hide Encode;
    hide Decode;
    hide WithoutBreaks;
    RawReadsBack(format, parse, c);
    RawEncodes(Raw(format, c));
    assert EncodeCursor(format, c)[|PREFIX|..] == Encode(RawURL, Raw(format, c));
  }

  lemma RawEncodes(raw: Text)
    requires |raw| <= 307
    ensures var encoded := Encode(RawURL, raw);
            |encoded| <= 410 && WithoutBreaks(encoded) == encoded && Decode(RawURL, false, encoded) == Some(raw)
  {
    hide Encode;
    hide Decode;
    hide WithoutBreaks;
    EncodedLength(RawURL, raw);
    EncodedCharacters(RawURL, raw);
    NoBreaks(Encode(RawURL, raw));
    RoundTrip(RawURL, false, raw);
  }

  lemma RawReadsBack<Instant>(format: Instant -> Text, parse: Text -> Option<Instant>, c: Cursor<Instant>)
    requires Representable(format, parse, c)
    ensures |Raw(format, c)| <= 307 && ParseRaw(parse, Raw(format, c)) == Some(c)
  {
    NineteenDigits();
    DecimalLength(c.index, 19);
    ItoaReadsBack(c.index);
    CutFirst(format(c.createdAt), Itoa(c.index) + [BAR] + c.requestId);
    CutFirst(Itoa(c.index), c.requestId);
  }

  // ----- what else is accepted -----

  /** The time text inside a token that parses. */
  function TimeText<Instant>(parse: Text -> Option<Instant>, token: Text): Text
    requires ParseCursor(parse, token).Some?
  {
    Cut(Decode(RawURL, false, WithoutBreaks(Payload(token).value)).value).value.0
  }

  /**
   * Tokens that Encode did not produce were to be refused, but a line break, a
   * dropped bit or another spelling of the time passes: a token that parses is the
   * encoding of what it parses to exactly when it has none of the three.
   */
  lemma ParsedIsEncodedExactly<Instant>(format: Instant -> Text, parse: Text -> Option<Instant>, token: Text)
    requires ParseCursor(parse, token).Some?
    ensures var c, encoded := ParseCursor(parse, token).value, Payload(token).value;
            var time := TimeText(parse, token);
            && parse(time).Some?
            && (EncodeCursor(format, c) == token <==>
                && NEWLINE !in encoded && RETURN !in encoded
                && Decode(RawURL, true, encoded).Some?
                && format(parse(time).value) == time)
  {
    hide Raw;
    hide ParseRaw;
    hide Encode;
    hide Decode;
    hide WithoutBreaks;
    var c, encoded := ParseCursor(parse, token).value, Payload(token).value;
    var text := WithoutBreaks(encoded);
    var raw := Decode(RawURL, false, text).value;
    NoBreaks(encoded);
    assert token == PREFIX + encoded;
    assert EncodeCursor(format, c) == token <==> Encode(RawURL, Raw(format, c)) == encoded by {
      assert (PREFIX + Encode(RawURL, Raw(format, c)))[|PREFIX|..] == Encode(RawURL, Raw(format, c));
    }
    LenientIsCanonical(RawURL, text);
    TimeIsParsed(parse, raw);
    RawIsSpelt(format, parse, raw);
    if Encode(RawURL, Raw(format, c)) == encoded {
      EncodedCharacters(RawURL, Raw(format, c));
      RoundTrip(RawURL, false, Raw(format, c));
      RoundTrip(RawURL, true, Raw(format, c));
    }
  }

  lemma TimeIsParsed<Instant>(parse: Text -> Option<Instant>, raw: Text)
    requires ParseRaw(parse, raw).Some?
    ensures parse(Cut(raw).value.0) == Some(ParseRaw(parse, raw).value.createdAt)
  {
    hide Cut;
    hide Itoa;
    hide Atoi;
  }

  /** The inside of a token differs from the encoder's only in how it writes the time. */
  lemma RawIsSpelt<Instant>(format: Instant -> Text, parse: Text -> Option<Instant>, raw: Text)
    requires ParseRaw(parse, raw).Some?
    ensures Raw(format, ParseRaw(parse, raw).value) == raw
       <==> format(ParseRaw(parse, raw).value.createdAt) == Cut(raw).value.0
  {
    hide Cut;
    hide Itoa;
    hide Atoi;
    var c := ParseRaw(parse, raw).value;
    SameHead(format(c.createdAt), Cut(raw).value.0, [BAR] + (Itoa(c.index) + [BAR] + c.requestId));
    assert raw == Cut(raw).value.0 + ([BAR] + (Itoa(c.index) + [BAR] + c.requestId));
    assert Raw(format, c) == format(c.createdAt) + ([BAR] + (Itoa(c.index) + [BAR] + c.requestId));
  }

  lemma SameHead(a: Text, b: Text, rest: Text)
    ensures a + rest == b + rest <==> a == b
  {
    if a + rest == b + rest {
      assert |a| == |b| && (a + rest)[..|a|] == a && (b + rest)[..|b|] == b;
    }
  }

  /** A line break after any token passes. */
  lemma LineBreakPasses<Instant>(format: Instant -> Text, parse: Text -> Option<Instant>, c: Cursor<Instant>)
    requires Representable(format, parse, c)
    ensures ParseCursor(parse, EncodeCursor(format, c) + [NEWLINE]) == Some(c)
  {
    hide Raw;
    hide ParseRaw;
    hide Encode;
    hide Decode;
    hide WithoutBreaks;
    var token := EncodeCursor(format, c) + [NEWLINE];
    RawReadsBack(format, parse, c);
    RawEncodes(Raw(format, c));
    var encoded := Encode(RawURL, Raw(format, c));
    assert EncodeCursor(format, c)[|PREFIX|..] == encoded;
    assert token[|PREFIX|..] == encoded + [NEWLINE];
    BreakIsSkipped(encoded);
  }

  lemma {:induction false} BreakIsSkipped(t: Text)
    ensures WithoutBreaks(t + [NEWLINE]) == WithoutBreaks(t)
  {
    if t == [] {
      assert (t + [NEWLINE])[1..] == [];
    } else {
      assert (t + [NEWLINE])[1..] == t[1..] + [NEWLINE];
      BreakIsSkipped(t[1..]);
    }
  }

  // ----- exactly what is accepted -----

  /** The leading digit of a number counts the highest power of ten. */
  lemma {:induction false} LeadingDigit(c: byte, t: Text)
    requires 0x30 <= c <= 0x39
    ensures Natural([c] + t) == match Natural(t) case None => None case Some(n) => Some((c - 0x30) * Pow10(|t|) + n)
    decreases |t|
  {
    var all := [c] + t;
    if t == [] {
      assert all[..0] == [];
    } else {
      var front := t[..|t| - 1];
      assert all[..|all| - 1] == [c] + front && all[|all| - 1] == t[|t| - 1];
      LeadingDigit(c, front);
      if Natural(front).Some? {
        TenTimes(c - 0x30, Pow10(|front|), Natural(front).value);
      }
    }
  }

  lemma TenTimes(d: nat, p: nat, n: nat)
    ensures 10 * (d * p + n) == d * (10 * p) + 10 * n
  {
  }

  /** The token carries these bytes: the prefix, then at most 512 characters of base64 and line breaks. */
  ghost predicate Carries(token: Text, raw: Text)
  {
    exists encoded: Text ::
      && token == [0x6B, 0x61, 0x66, 0x5F] + encoded && |encoded| <= 512
      && Decode(RawURL, false, WithoutBreaks(encoded)) == Some(raw)
  }

  /** The bytes write a position: a time without bars that parses, a 63-bit index, an id of 1 to 256 bytes. */
  ghost predicate States<Instant(!new)>(parse: Text -> Option<Instant>, raw: Text, c: Cursor<Instant>)
  {
    && 0 <= c.index < 0x8000_0000_0000_0000 && 1 <= |c.requestId| <= 256
    && exists time: Text | 0x7C !in time :: parse(time) == Some(c.createdAt) && raw == time + [0x7C] + After(c)
  }

  function After<Instant>(c: Cursor<Instant>): Text { Itoa(c.index) + [0x7C] + c.requestId }

  lemma RawParsesExactly<Instant(!new)>(parse: Text -> Option<Instant>, raw: Text, c: Cursor<Instant>)
    ensures ParseRaw(parse, raw) == Some(c) <==> States(parse, raw, c)
  {
    hide Itoa;
    hide Atoi;
    if ParseRaw(parse, raw) == Some(c) {
      var (time, rest) := Cut(raw).value;
      AtoiBound(Cut(rest).value.0);
      assert rest == After(c);
      assert parse(time) == Some(c.createdAt) && raw == time + [0x7C] + After(c);
    }
    if States(parse, raw, c) {
      var time: Text :| 0x7C !in time && parse(time) == Some(c.createdAt) && raw == time + [0x7C] + After(c);
      CutFirst(time, After(c));
      CutFirst(Itoa(c.index), c.requestId);
      ItoaReadsBack(c.index);
    }
  }

  lemma AtoiBound(t: Text)
    ensures Atoi(t).Some? ==> Atoi(t).value < U63
  {
    hide Natural;
  }

  lemma CarriedExactly(token: Text, raw: Text)
    ensures Carries(token, raw) <==>
            Payload(token).Some? && Decode(RawURL, false, WithoutBreaks(Payload(token).value)) == Some(raw)
  {
    hide Decode;
    hide WithoutBreaks;
    if Payload(token).Some? {
      assert token == PREFIX + Payload(token).value;
    }
    forall encoded: Text | token == [0x6B, 0x61, 0x66, 0x5F] + encoded && |encoded| <= 512
      ensures Payload(token) == Some(encoded)
    {
      assert token[4..] == encoded;
    }
  }

  /** A token parses to a cursor exactly when it carries bytes that write it: every limit included. */
  lemma ParsesExactly<Instant(!new)>(parse: Text -> Option<Instant>, token: Text, c: Cursor<Instant>)
    ensures ParseCursor(parse, token) == Some(c) <==> exists raw :: Carries(token, raw) && States(parse, raw, c)
  {
    hide Decode;
    hide WithoutBreaks;
    hide Carries;
    hide States;
    hide ParseRaw;
    hide Payload;
    forall raw
      ensures Carries(token, raw) <==>
              Payload(token).Some? && Decode(RawURL, false, WithoutBreaks(Payload(token).value)) == Some(raw)
      ensures ParseRaw(parse, raw) == Some(c) <==> States(parse, raw, c)
    {
      CarriedExactly(token, raw);
      RawParsesExactly(parse, raw, c);
    }
    if ParseCursor(parse, token) == Some(c) {
      var raw := Decode(RawURL, false, WithoutBreaks(Payload(token).value)).value;
      assert Carries(token, raw) && States(parse, raw, c);
    }
  }
}
