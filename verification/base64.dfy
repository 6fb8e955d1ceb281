// Base64: the encodings and decoders of sections 4 and 5 of RFC 4648.

module Base64 {
  import opened Base
  import opened Words
  import opened Ordering

  const PAD: byte := 0x3D
  const NEWLINE: byte := 0x0A
  const RETURN: byte := 0x0D

  /** Padded standard text, or unpadded text for URLs. */
  datatype Variant = Standard | RawURL

  type Sextet = n: nat | n < 64

  function Digit(variant: Variant, n: Sextet): byte
  {
    if n < 26 then 0x41 + n
    else if n < 52 then 0x61 + n - 26
    else if n < 62 then 0x30 + n - 52
    else if n == 62 then (if variant.Standard? then 0x2B else 0x2D)
    else (if variant.Standard? then 0x2F else 0x5F)
  }

  function Value(variant: Variant, c: byte): (r: Option<Sextet>)
    ensures r.Some? ==> Digit(variant, r.value) == c
  {
    if 0x41 <= c <= 0x5A then Some(c - 0x41)
    else if 0x61 <= c <= 0x7A then Some(c - 0x61 + 26)
    else if 0x30 <= c <= 0x39 then Some(c - 0x30 + 52)
    else if c == Digit(variant, 62) then Some(62)
    else if c == Digit(variant, 63) then Some(63)
    else None
  }

  lemma DigitReadsBack(variant: Variant, n: Sextet)
    ensures Value(variant, Digit(variant, n)) == Some(n) && Digit(variant, n) != PAD
    ensures Digit(variant, n) != NEWLINE && Digit(variant, n) != RETURN
  {
  }

  const CAPITALS: Text := [
    0x41, 0x42, 0x43, 0x44, 0x45, 0x46, 0x47, 0x48, 0x49, 0x4A, 0x4B, 0x4C, 0x4D,
    0x4E, 0x4F, 0x50, 0x51, 0x52, 0x53, 0x54, 0x55, 0x56, 0x57, 0x58, 0x59, 0x5A]
  const SMALL: Text := [
    0x61, 0x62, 0x63, 0x64, 0x65, 0x66, 0x67, 0x68, 0x69, 0x6A, 0x6B, 0x6C, 0x6D,
    0x6E, 0x6F, 0x70, 0x71, 0x72, 0x73, 0x74, 0x75, 0x76, 0x77, 0x78, 0x79, 0x7A]
  const DECIMALS: Text := [0x30, 0x31, 0x32, 0x33, 0x34, 0x35, 0x36, 0x37, 0x38, 0x39]

  /** The 64 digits in the order of tables 1 and 2 of RFC 4648. */
  function Alphabet(variant: Variant): (r: Text)
    ensures |r| == 64
  {
    CAPITALS + SMALL + (DECIMALS + (match variant case Standard => [0x2B, 0x2F] case RawURL => [0x2D, 0x5F]))
  }

  lemma AlphabetListed(variant: Variant, n: Sextet)
    ensures Alphabet(variant)[n] == Digit(variant, n)
  {
    if n < 26 {
      assert Alphabet(variant)[n] == CAPITALS[n];
    } else if n < 52 {
      assert Alphabet(variant)[n] == SMALL[n - 26];
    } else if n < 62 {
      assert Alphabet(variant)[n] == DECIMALS[n - 52];
    }
  }

  function Padding(variant: Variant, n: nat): Text
    requires n <= 2
  {
    if variant.RawURL? then [] else [PAD, PAD][..n]
  }

  /** Three bytes become four digits; one or two left over become two or three. */
  function Encode(variant: Variant, b: seq<byte>): Text
  {
    if |b| >= 3 then Quad(variant, b[0], b[1], b[2]) + Encode(variant, b[3..])
    else if |b| == 2 then Quad(variant, b[0], b[1], 0)[..3] + Padding(variant, 1)
    else if |b| == 1 then Quad(variant, b[0], 0, 0)[..2] + Padding(variant, 2)
    else []
  }

  function Quad(variant: Variant, x: byte, y: byte, z: byte): (r: Text)
    ensures |r| == 4
  {
    [Digit(variant, x / 4), Digit(variant, x % 4 * 16 + y / 16),
     Digit(variant, y % 16 * 4 + z / 64), Digit(variant, z % 64)]
  }

  /** The digits of a text, if it has no other characters. */
  function Digits(variant: Variant, t: Text): Option<seq<Sextet>>
  {
    if t == [] then Some([])
    else if Value(variant, t[0]).None? then None
    else Prefixed([Value(variant, t[0]).value], Digits(variant, t[1..]))
  }

  /** The bytes of one group of digits: a byte fewer than digits, trailing bits dropped. */
  function GroupBytes(g: seq<Sextet>): (r: seq<byte>)
    requires 2 <= |g| <= 4
    ensures |r| == |g| - 1
  {
    [(g[0] as int) * 4 + g[1] / 16]
    + (if |g| > 2 then [(g[1] as int) % 16 * 16 + g[2] / 4] else [])
    + (if |g| > 3 then [(g[2] as int) % 4 * 64 + g[3]] else [])
  }

  /** Whether the bits that a short group drops are zero. */
  predicate NoTrailingBits(g: seq<Sextet>)
    requires 2 <= |g| <= 4
  {
    (|g| == 2 ==> g[1] % 16 == 0) && (|g| == 3 ==> g[2] % 4 == 0)
  }

  /** A last group without its padding, where padding is asked for. */
  function Unpadded(variant: Variant, t: Text): Text
  {
    if variant.RawURL? then t
    else if |t| == 4 && t[2] == PAD && t[3] == PAD then t[..2]
    else if |t| == 4 && t[3] == PAD then t[..3]
    else []
  }

  /** What the decoder reads once line breaks are gone; a strict one wants no trailing bits. */
  function Decode(variant: Variant, strict: bool, t: Text): Option<seq<byte>>
  {
    if t == [] then Some([])
    else if |t| >= 4 && Digits(variant, t[..4]).Some? then
      DigitsLength(variant, t[..4]);
      Prefixed(GroupBytes(Digits(variant, t[..4]).value), Decode(variant, strict, t[4..]))
    else
      var body := Unpadded(variant, t);
      if !(2 <= |body| <= 3) || Digits(variant, body).None? then None
      else
        DigitsLength(variant, body);
        var g := Digits(variant, body).value;
        if strict && !NoTrailingBits(g) then None else Some(GroupBytes(g))
  }

  lemma {:induction false} DigitsLength(variant: Variant, t: Text)
    ensures Digits(variant, t).Some? ==> |Digits(variant, t).value| == |t|
    ensures Digits(variant, t).Some? <==> forall c | c in t :: Value(variant, c).Some?
  {
    if t != [] {
      DigitsLength(variant, t[1..]);
      assert t == [t[0]] + t[1..];
    }
  }

  /** The decoder skips line breaks wherever they stand. */
  function WithoutBreaks(t: Text): (r: Text)
    ensures NEWLINE !in r && RETURN !in r
  {
    if t == [] then []
    else if t[0] == NEWLINE || t[0] == RETURN then WithoutBreaks(t[1..])
    else [t[0]] + WithoutBreaks(t[1..])
  }

  lemma {:induction false} NoBreaks(t: Text)
    ensures WithoutBreaks(t) == t <==> NEWLINE !in t && RETURN !in t
    ensures |WithoutBreaks(t)| <= |t|
  {
    if t != [] {
      NoBreaks(t[1..]);
      assert t == [t[0]] + t[1..];
    }
  }

  // ----- one group -----

  lemma DigitsOf(variant: Variant, g: seq<Sextet>, t: Text)
    requires |t| == |g| && forall i | 0 <= i < |g| :: t[i] == Digit(variant, g[i])
    ensures Digits(variant, t) == Some(g)
  {
    if t != [] {
      DigitReadsBack(variant, g[0]);
      DigitsOf(variant, g[1..], t[1..]);
      assert g == [g[0]] + g[1..];
    }
  }

  lemma {:induction false} DigitsAt(variant: Variant, t: Text)
    requires Digits(variant, t).Some?
    ensures |Digits(variant, t).value| == |t|
    ensures forall i | 0 <= i < |t| :: t[i] == Digit(variant, Digits(variant, t).value[i]) && t[i] != PAD
  {
    if t != [] {
      DigitsAt(variant, t[1..]);
      DigitReadsBack(variant, Value(variant, t[0]).value);
      var rest := Digits(variant, t[1..]).value;
      assert forall i | 0 < i < |t| :: t[i] == t[1..][i - 1] && ([Value(variant, t[0]).value] + rest)[i] == rest[i - 1];
    }
  }

  /** The four digits of three bytes. */
  function Sextets(x: byte, y: byte, z: byte): (r: seq<Sextet>)
    ensures |r| == 4
  {
    [x / 4, x % 4 * 16 + y / 16, y % 16 * 4 + z / 64, z % 64]
  }

  /** The number three bytes spell. */
  function Group(x: byte, y: byte, z: byte): nat { (x as int) * 0x1_0000 + (y as int) * 0x100 + z }

  /** A text begins with the digits of its first three bytes' number, high first. */
  lemma EncodedFromTheTop(variant: Variant, x: byte, y: byte, z: byte, rest: seq<byte>)
    ensures var group, a := Group(x, y, z), Alphabet(variant);
            Encode(variant, [x, y, z] + rest)
            == [a[group / 0x4_0000], a[group / 0x1000 % 64], a[group / 64 % 64], a[group % 64]] + Encode(variant, rest)
  {
    hide Digit;
    hide Alphabet;
    hide Group;
    var b := [x, y, z] + rest;
    assert b[3..] == rest;
    GroupDigits(x, y, z);
    QuadListed(variant, x, y, z);
  }

  /** A last two bytes or one give the digits that hold their bits, then padding if it is asked for. */
  lemma LastFromTheTop(variant: Variant, x: byte, y: byte)
    ensures var group, a := Pair(x, y), Alphabet(variant);
            Encode(variant, [x, y])
            == [a[group / 0x400], a[group / 16 % 64], a[group % 16 * 4]] + (if variant.Standard? then [0x3D] else [])
    ensures var a := Alphabet(variant);
            Encode(variant, [x]) == [a[x / 4], a[x % 4 * 16]] + (if variant.Standard? then [0x3D, 0x3D] else [])
  {
    hide Digit;
    hide Alphabet;
    hide Pair;
    PairDigits(x, y);
    QuadListed(variant, x, y, 0);
    QuadListed(variant, x, 0, 0);
    assert [PAD, PAD][..1] == [PAD] && [PAD, PAD][..2] == [PAD, PAD];
  }

  lemma QuadListed(variant: Variant, x: byte, y: byte, z: byte)
    ensures var s, a := Sextets(x, y, z), Alphabet(variant); Quad(variant, x, y, z) == [a[s[0]], a[s[1]], a[s[2]], a[s[3]]]
  {
    hide Digit;
    hide Alphabet;
    AlphabetListed(variant, x / 4);
    AlphabetListed(variant, x % 4 * 16 + y / 16);
    AlphabetListed(variant, y % 16 * 4 + z / 64);
    AlphabetListed(variant, z % 64);
  }

  lemma GroupDigits(x: byte, y: byte, z: byte)
    ensures var g := Group(x, y, z); Sextets(x, y, z) == [g / 0x4_0000, g / 0x1000 % 64, g / 64 % 64, g % 64]
  {
    hide Group;
    TopDigit(x, y, z);
    MiddleDigit(x, y, z);
    LowDigits(x, y, z);
  }

  lemma TopDigit(x: byte, y: byte, z: byte)
    ensures Group(x, y, z) / 0x4_0000 == x / 4
  {
    ModUnique(Group(x, y, z), x / 4, x % 4 * 0x1_0000 + y * 0x100 + z, 0x4_0000);
  }

  lemma MiddleDigit(x: byte, y: byte, z: byte)
    ensures Group(x, y, z) / 0x1000 % 64 == x % 4 * 16 + y / 16
  {
    ModUnique(Group(x, y, z), x * 16 + y / 16, y % 16 * 0x100 + z, 0x1000);
    ModUnique(x * 16 + y / 16, x / 4, x % 4 * 16 + y / 16, 64);
  }

  lemma LowDigits(x: byte, y: byte, z: byte)
    ensures Group(x, y, z) / 64 % 64 == y % 16 * 4 + z / 64 && Group(x, y, z) % 64 == z % 64
  {
    ModUnique(Group(x, y, z), x * 0x400 + y * 4 + z / 64, z % 64, 64);
    ModUnique(x * 0x400 + y * 4 + z / 64, x * 16 + y / 16, y % 16 * 4 + z / 64, 64);
  }

  /** The number two bytes spell. */
  function Pair(x: byte, y: byte): nat { (x as int) * 0x100 + y }

  lemma PairDigits(x: byte, y: byte)
    ensures var g := Pair(x, y); Sextets(x, y, 0)[..3] == [g / 0x400, g / 16 % 64, g % 16 * 4]
    ensures Sextets(x, 0, 0)[..2] == [x / 4, x % 4 * 16]
  {
    hide Pair;
    PairTop(x, y);
    PairLow(x, y);
  }

  lemma PairTop(x: byte, y: byte)
    ensures Pair(x, y) / 0x400 == x / 4
  {
    ModUnique(Pair(x, y), x / 4, x % 4 * 0x100 + y, 0x400);
  }

  lemma PairLow(x: byte, y: byte)
    ensures Pair(x, y) / 16 % 64 == x % 4 * 16 + y / 16 && Pair(x, y) % 16 == y % 16
  {
    ModUnique(Pair(x, y), x * 16 + y / 16, y % 16, 16);
    ModUnique(x * 16 + y / 16, x / 4, x % 4 * 16 + y / 16, 64);
  }

  lemma GroupReadsBack(x: byte, y: byte, z: byte)
    ensures GroupBytes(Sextets(x, y, z)) == [x, y, z]
    ensures GroupBytes(Sextets(x, y, 0)[..3]) == [x, y] && NoTrailingBits(Sextets(x, y, 0)[..3])
    ensures GroupBytes(Sextets(x, 0, 0)[..2]) == [x] && NoTrailingBits(Sextets(x, 0, 0)[..2])
  {
    assert (x % 4 * 16 + y / 16) / 16 == x % 4 && (x % 4 * 16 + y / 16) % 16 == y / 16;
    assert (y % 16 * 4 + z / 64) / 4 == y % 16 && (y % 16 * 4 + z / 64) % 4 == z / 64;
    assert (y % 16 * 4 + 0) / 4 == y % 16 && (y % 16 * 4 + 0) % 4 == 0;
    assert (x % 4 * 16 + 0) / 16 == x % 4 && (x % 4 * 16 + 0) % 16 == 0;
  }

  /** A group without trailing bits is what its bytes encode to. */
  lemma GroupIsCanonical(g: seq<Sextet>)
    requires 2 <= |g| <= 4
    ensures var b := GroupBytes(g);
            && (|g| == 4 ==> Sextets(b[0], b[1], b[2]) == g)
            && (|g| == 3 ==> (Sextets(b[0], b[1], 0)[..3] == g <==> NoTrailingBits(g)))
            && (|g| == 2 ==> (Sextets(b[0], 0, 0)[..2] == g <==> NoTrailingBits(g)))
  {
    var b := GroupBytes(g);
    assert b[0] / 4 == g[0] && b[0] % 4 * 16 == g[1] / 16 * 16;
    if |g| == 2 {
      assert Sextets(b[0], 0, 0)[..2] == [g[0], g[1] / 16 * 16];
    } else {
      assert b[1] / 16 == g[1] % 16 && b[1] % 16 * 4 == g[2] / 4 * 4;
      if |g| == 3 {
        assert Sextets(b[0], b[1], 0)[..3] == [g[0], g[1], g[2] / 4 * 4];
      } else {
        assert b[2] / 64 == g[2] % 4 && b[2] % 64 == g[3];
        assert Sextets(b[0], b[1], b[2]) == [g[0], g[1], g[2], g[3]];
      }
    }
  }

  // ----- whole texts -----

  /** Decoding undoes encoding. */
  lemma {:induction false} RoundTrip(variant: Variant, strict: bool, b: seq<byte>)
    ensures Decode(variant, strict, Encode(variant, b)) == Some(b)
    decreases |b|
  {
    var t := Encode(variant, b);
    if |b| >= 3 {
      RoundTrip(variant, strict, b[3..]);
      FullGroup(variant, strict, b[0], b[1], b[2], Encode(variant, b[3..]));
      assert b == [b[0], b[1], b[2]] + b[3..];
    } else if |b| == 2 {
      ShortGroup(variant, strict, b[0], b[1]);
      assert b == [b[0], b[1]];
    } else if |b| == 1 {
      ShortGroup(variant, strict, b[0], 0);
      assert b == [b[0]];
    }
  }

  lemma FullGroup(variant: Variant, strict: bool, x: byte, y: byte, z: byte, rest: Text)
    ensures Decode(variant, strict, Quad(variant, x, y, z) + rest) == Prefixed([x, y, z], Decode(variant, strict, rest))
  {
    var t := Quad(variant, x, y, z) + rest;
    assert t[..4] == Quad(variant, x, y, z) && t[4..] == rest;
    DigitsOf(variant, Sextets(x, y, z), t[..4]);
    GroupReadsBack(x, y, z);
  }

  lemma ShortGroup(variant: Variant, strict: bool, x: byte, y: byte)
    ensures Decode(variant, strict, Quad(variant, x, y, 0)[..3] + Padding(variant, 1)) == Some([x, y])
    ensures Decode(variant, strict, Quad(variant, x, 0, 0)[..2] + Padding(variant, 2)) == Some([x])
  {
    hide GroupBytes;
    GroupReadsBack(x, y, 0);
    var two, three := Quad(variant, x, 0, 0)[..2], Quad(variant, x, y, 0)[..3];
    DigitsOf(variant, Sextets(x, 0, 0)[..2], two);
    DigitsOf(variant, Sextets(x, y, 0)[..3], three);
    ShortDecodes(variant, strict, two, Sextets(x, 0, 0)[..2]);
    ShortDecodes(variant, strict, three, Sextets(x, y, 0)[..3]);
  }

  lemma ShortDecodes(variant: Variant, strict: bool, body: Text, g: seq<Sextet>)
    requires 2 <= |body| <= 3 && Digits(variant, body) == Some(g) && |g| == |body| && NoTrailingBits(g)
    ensures Decode(variant, strict, body + Padding(variant, 4 - |body|)) == Some(GroupBytes(g))
  {
    hide Digits;
    hide GroupBytes;
    hide NoTrailingBits;
    var t := body + Padding(variant, 4 - |body|);
    DigitsAt(variant, body);
    DigitsLength(variant, t);
    if variant.Standard? {
      assert t[3] == PAD && t[..4] == t && Value(variant, PAD).None?;
      assert PAD in t;
      assert Unpadded(variant, t) == body;
    } else {
      assert t == body;
    }
  }

  /** The strict decoder reads exactly the encodings. */
  lemma {:induction false} StrictIsCanonical(variant: Variant, t: Text)
    requires Decode(variant, true, t).Some?
    ensures Encode(variant, Decode(variant, true, t).value) == t
    decreases |t|
  {
    if t != [] {
      if |t| >= 4 && Digits(variant, t[..4]).Some? {
        FullCanonical(variant, true, t);
        StrictIsCanonical(variant, t[4..]);
      } else {
        LastCanonical(variant, t);
      }
    }
  }

  lemma FullCanonical(variant: Variant, strict: bool, t: Text)
    requires |t| >= 4 && Digits(variant, t[..4]).Some? && Decode(variant, strict, t).Some?
    ensures Decode(variant, strict, t[4..]).Some?
    ensures var b, rest := Decode(variant, strict, t).value, Decode(variant, strict, t[4..]).value;
            |b| >= 3 && b[3..] == rest && Encode(variant, b) == t[..4] + Encode(variant, rest)
  {
    DigitsAt(variant, t[..4]);
    var g := Digits(variant, t[..4]).value;
    GroupIsCanonical(g);
    var head, rest := GroupBytes(g), Decode(variant, strict, t[4..]).value;
    var b := head + rest;
    assert b[3..] == rest;
    assert Quad(variant, b[0], b[1], b[2]) == t[..4];
  }

  lemma LastCanonical(variant: Variant, t: Text)
    requires t != [] && !(|t| >= 4 && Digits(variant, t[..4]).Some?) && Decode(variant, false, t).Some?
    ensures var b := Decode(variant, false, t).value;
            && 1 <= |b| <= 2 && |Unpadded(variant, t)| == |b| + 1
            && Unpadded(variant, t) + Padding(variant, 3 - |b|) == t
            && (Encode(variant, b) == t <==> Decode(variant, true, t) == Some(b))
            && (Decode(variant, true, t).Some? ==> Decode(variant, true, t) == Some(b))
  {
    hide GroupBytes;
    var body := Unpadded(variant, t);
    DigitsAt(variant, body);
    var g := Digits(variant, body).value;
    GroupIsCanonical(g);
    var b := GroupBytes(g);
    assert body + Padding(variant, 4 - |body|) == t;
    EncodeShort(variant, b, g, body);
    assert Encode(variant, b) == t <==> NoTrailingBits(g);
  }

  lemma EncodeShort(variant: Variant, b: seq<byte>, g: seq<Sextet>, body: Text)
    requires 2 <= |g| <= 3 && b == GroupBytes(g) && |body| == |g|
    requires forall i | 0 <= i < |g| :: body[i] == Digit(variant, g[i])
    ensures Encode(variant, b) == body + Padding(variant, 4 - |g|) <==> NoTrailingBits(g)
  {
    GroupIsCanonical(g);
    var canonical := if |g| == 3 then Sextets(b[0], b[1], 0)[..3] else Sextets(b[0], 0, 0)[..2];
    var head := Encode(variant, b)[..|g|];
    assert Encode(variant, b) == head + Padding(variant, 4 - |g|);
    assert forall i | 0 <= i < |g| :: head[i] == Digit(variant, canonical[i]);
    assert Encode(variant, b) == body + Padding(variant, 4 - |g|) <==> head == body;
    if head == body {
      forall i | 0 <= i < |g|
        ensures canonical[i] == g[i]
      {
        DigitReadsBack(variant, canonical[i]);
        DigitReadsBack(variant, g[i]);
        assert head[i] == body[i];
      }
      assert canonical == g;
    }
    assert forall i | 0 <= i < |g| && canonical[i] == g[i] :: head[i] == body[i];
    assert canonical == g ==> head == body;
  }

  /** The lenient decoder reads what the strict one does, and a few texts more. */
  lemma {:induction false} LenientIsCanonical(variant: Variant, t: Text)
    requires Decode(variant, false, t).Some?
    ensures var b := Decode(variant, false, t).value;
            && (Decode(variant, true, t) == Some(b) <==> Encode(variant, b) == t)
            && (Decode(variant, true, t).Some? ==> Decode(variant, true, t) == Some(b))
    decreases |t|
  {
    if t != [] {
      if |t| >= 4 && Digits(variant, t[..4]).Some? {
        FullCanonical(variant, false, t);
        LenientIsCanonical(variant, t[4..]);
        assert t == t[..4] + t[4..];
      } else {
        LastCanonical(variant, t);
      }
    }
  }

  /** How long an encoding is. */
  lemma {:induction false} EncodedLength(variant: Variant, b: seq<byte>)
    ensures variant.Standard? ==> |Encode(variant, b)| == (|b| + 2) / 3 * 4
    ensures variant.RawURL? ==> |Encode(variant, b)| == (8 * |b| + 5) / 6
    decreases |b|
  {
    if |b| >= 3 {
      EncodedLength(variant, b[3..]);
    }
  }

  /** An encoding has no line break, quote or backslash in it. */
  lemma {:induction false} EncodedCharacters(variant: Variant, b: seq<byte>)
    ensures forall c | c in Encode(variant, b) :: c == PAD || Value(variant, c).Some?
    decreases |b|
  {
    forall n: Sextet
      ensures Value(variant, Digit(variant, n)).Some?
    {
      DigitReadsBack(variant, n);
    }
    if |b| >= 3 {
      EncodedCharacters(variant, b[3..]);
    }
  }
}
