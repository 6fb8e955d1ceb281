// The surrogate scanner of internal/contract/decision_unicode.go, against the
// string grammar of section 7 of RFC 8259.

module DecisionUnicode {
  import opened Base
  import opened Words

  const QUOTE: byte := 0x22
  const BACKSLASH: byte := 0x5c
  const LOWER_U: byte := 0x75

  // ----- the grammar -----

  /** One character of a string literal as it is written. */
  datatype Char =
    | Plain(b: byte)
    | Escape(b: byte)
    | Unit(digits: seq<byte>)

  /** A piece of a JSON text: a byte outside strings, or a whole string literal. */
  datatype Piece = Outside(b: byte) | Literal(chars: seq<Char>)

  predicate IsHex(b: byte)
  {
    0x30 <= b <= 0x39 || 0x41 <= b <= 0x46 || 0x61 <= b <= 0x66
  }

  /** The eight two-character escapes. */
  predicate IsEscape(b: byte)
  {
    b == QUOTE || b == BACKSLASH || b == 0x2f || b == 0x62 || b == 0x66 || b == 0x6e || b == 0x72 || b == 0x74
  }

  predicate ValidChar(c: Char)
  {
    match c
    case Plain(b) => b != QUOTE && b != BACKSLASH && b >= 0x20
    case Escape(b) => IsEscape(b)
    case Unit(digits) => |digits| == 4 && AllHex(digits)
  }

  predicate ValidChars(chars: seq<Char>) { forall c | c in chars :: ValidChar(c) }

  /** Outside its strings a JSON text has neither quotes nor backslashes. */
  predicate ValidPiece(p: Piece)
  {
    match p
    case Outside(b) => b != QUOTE && b != BACKSLASH
    case Literal(chars) => ValidChars(chars)
  }

  predicate ValidPieces(pieces: seq<Piece>) { forall p | p in pieces :: ValidPiece(p) }

  function WriteChar(c: Char): seq<byte>
  {
    match c
    case Plain(b) => [b]
    case Escape(b) => [BACKSLASH, b]
    case Unit(digits) => [BACKSLASH, LOWER_U] + digits
  }

  function WriteChars(chars: seq<Char>): seq<byte>
  {
    if chars == [] then [] else WriteChar(chars[0]) + WriteChars(chars[1..])
  }

  function WritePiece(p: Piece): seq<byte>
  {
    match p
    case Outside(b) => [b]
    case Literal(chars) => [QUOTE] + (WriteChars(chars) + [QUOTE])
  }

  function WritePieces(pieces: seq<Piece>): seq<byte>
  {
    if pieces == [] then [] else WritePiece(pieces[0]) + WritePieces(pieces[1..])
  }

  // ----- what the scanner must refuse -----

  predicate AllHex(digits: seq<byte>) { forall d | d in digits :: IsHex(d) }

  function HexDigit(d: byte): (n: nat)
    requires IsHex(d)
    ensures n < 16
  {
    if d <= 0x39 then d - 0x30 else if d >= 0x61 then d - 0x61 + 10 else d - 0x41 + 10
  }

  /** The UTF-16 code unit four hexadecimal digits spell. */
  function CodeUnit(digits: seq<byte>): (u: nat)
    requires |digits| == 4 && AllHex(digits)
    ensures u < U16
  {
    HexDigit(digits[0]) * 0x1000 + HexDigit(digits[1]) * 0x100 + HexDigit(digits[2]) * 0x10 + HexDigit(digits[3])
  }

  predicate IsHigh(u: nat) { 0xd800 <= u <= 0xdbff }

  predicate IsLow(u: nat) { 0xdc00 <= u <= 0xdfff }

  predicate HighAt(chars: seq<Char>, i: int)
  {
    0 <= i < |chars| && chars[i].Unit? && ValidChar(chars[i]) && IsHigh(CodeUnit(chars[i].digits))
  }

  predicate LowAt(chars: seq<Char>, i: int)
  {
    0 <= i < |chars| && chars[i].Unit? && ValidChar(chars[i]) && IsLow(CodeUnit(chars[i].digits))
  }

  /** Every surrogate escape of a literal has its partner next to it. */
  predicate Paired(chars: seq<Char>)
  {
    forall i | 0 <= i < |chars| ::
      (HighAt(chars, i) ==> LowAt(chars, i + 1)) && (LowAt(chars, i) ==> HighAt(chars, i - 1))
  }

  predicate AllPaired(pieces: seq<Piece>)
  {
    forall p | p in pieces && p.Literal? :: Paired(p.chars)
  }

  // ----- the scanner -----

  datatype Verdict = Accepted | RefusedText | Malformed

  /**
   * The scanner on the bytes that are left, with its one bit of state; an index
   * past the end, or a digit that is none, would be `Malformed`.
   */
  function Scan(s: seq<byte>, inString: bool): Verdict
    decreases |s|
  {
    if s == [] then Accepted
    else if s[0] == QUOTE then Scan(s[1..], !inString)
    else if !inString || s[0] != BACKSLASH then Scan(s[1..], inString)
    else if |s| < 2 then Malformed
    else if s[1] != LOWER_U then Scan(s[2..], inString)
    else if |s| < 6 || !AllHex(s[2..6]) then Malformed
    else
      var unit := CodeUnit(s[2..6]);
      if IsLow(unit) then RefusedText
      else if !IsHigh(unit) then Scan(s[6..], inString)
      else if |s| <= 11 || s[6] != BACKSLASH || s[7] != LOWER_U then RefusedText
      else if !AllHex(s[8..12]) then Malformed
      else if !IsLow(CodeUnit(s[8..12])) then RefusedText
      else Scan(s[12..], inString)
  }

  method JsonHexUnit(digits: seq<byte>) returns (value: nat)
    requires |digits| == 4 && AllHex(digits)
    ensures value == CodeUnit(digits)
  {
    value := 0;
    for i := 0 to 4
      invariant value == Prefix(digits, i)
    {
      var digit := digits[i];
      assert digit in digits;
      assert Prefix(digits, i + 1) == Prefix(digits, i) * 0x10 + HexDigit(digit) < U16;
      value := value * 0x10 % U16;
      if 0x30 <= digit <= 0x39 {
        value := value + (digit - 0x30);
      } else if 0x61 <= digit <= 0x66 {
        value := value + (digit - 0x61 + 10);
      } else {
        value := value + (digit - 0x41 + 10);
      }
    }
  }

  /** The number the first digits spell. */
  function Prefix(digits: seq<byte>, i: nat): nat
    requires i <= |digits| == 4 && AllHex(digits)
  {
    match i
    case 0 => 0
    case 1 => HexDigit(digits[0])
    case 2 => HexDigit(digits[0]) * 0x10 + HexDigit(digits[1])
    case 3 => HexDigit(digits[0]) * 0x100 + HexDigit(digits[1]) * 0x10 + HexDigit(digits[2])
    case _ => CodeUnit(digits)
  }

  /**
   * `utf8` and `json` are the verdicts of the standard library's validators. A
   * body the JSON validator passes is written by some pieces.
   */
  method ValidateDecisionJsonUnicode(body: seq<byte>, utf8: bool, json: bool, ghost pieces: seq<Piece>)
    returns (ok: bool)
    requires json ==> ValidPieces(pieces) && body == WritePieces(pieces)
    ensures ok <==> utf8 && json && AllPaired(pieces)
  {
    hide AllPaired;
    hide WritePieces;
    hide ValidPieces;
    hide CodeUnit;
    hide AllHex;
    hide ScanAt;
    hide Scan;
    if !utf8 || !json {
      return false;
    }
    ScanOfPieces(pieces);
    ScanWhole(body);
    ghost var verdict := ScanAt(body, 0, false);
    var inString := false;
    var i := 0;
    while i < |body|
      invariant 0 <= i <= |body|
      invariant ScanAt(body, i, inString) == verdict
      decreases |body| - i
    {
      ScanAtStep(body, i, inString);
      if body[i] == QUOTE {
        inString := !inString;
        i := i + 1;
        continue;
      }
      if !inString || body[i] != BACKSLASH {
        i := i + 1;
        continue;
      }
      i := i + 1;
      if body[i] != LOWER_U {
        i := i + 1;
        continue;
      }
      var unit := JsonHexUnit(body[i + 1..i + 5]);
      i := i + 4;
      if 0xdc00 <= unit <= 0xdfff {
        return false;
      }
      if unit < 0xd800 || unit > 0xdbff {
        i := i + 1;
        continue;
      }
      if i + 6 >= |body| || body[i + 1] != BACKSLASH || body[i + 2] != LOWER_U {
        return false;
      }
      var low := JsonHexUnit(body[i + 3..i + 7]);
      if low < 0xdc00 || low > 0xdfff {
        return false;
      }
      i := i + 7;
    }
    return true;
  }

  /** The scanner from a position of the body. */
  function ScanAt(body: seq<byte>, i: nat, inString: bool): Verdict
    requires i <= |body|
  {
    Scan(body[i..], inString)
  }

  lemma ScanWhole(body: seq<byte>)
    ensures ScanAt(body, 0, false) == Scan(body, false)
    ensures forall inString :: ScanAt(body, |body|, inString) == Accepted
  {
    assert body[0..] == body && body[|body|..] == [];
  }

  /** One round of the loop, by index. */
  lemma ScanAtStep(body: seq<byte>, i: nat, inString: bool)
    requires i < |body|
    ensures ScanAt(body, i, inString) ==
            if body[i] == QUOTE then ScanAt(body, i + 1, !inString)
            else if !inString || body[i] != BACKSLASH then ScanAt(body, i + 1, inString)
            else if i + 2 > |body| then Malformed
            else if body[i + 1] != LOWER_U then ScanAt(body, i + 2, inString)
            else if i + 6 > |body| || !AllHex(body[i + 2..i + 6]) then Malformed
            else if IsLow(CodeUnit(body[i + 2..i + 6])) then RefusedText
            else if !IsHigh(CodeUnit(body[i + 2..i + 6])) then ScanAt(body, i + 6, inString)
            else if i + 11 >= |body| || body[i + 6] != BACKSLASH || body[i + 7] != LOWER_U then RefusedText
            else if !AllHex(body[i + 8..i + 12]) then Malformed
            else if !IsLow(CodeUnit(body[i + 8..i + 12])) then RefusedText
            else ScanAt(body, i + 12, inString)
  {
    hide AllHex;
    hide CodeUnit;
    hide Scan;
    var rest := body[i..];
    ScanStep(rest, inString);
    assert rest[1..] == body[i + 1..];
    assert |rest| >= 2 ==> rest[2..] == body[i + 2..];
    assert |rest| >= 6 ==> rest[2..6] == body[i + 2..i + 6] && rest[6..] == body[i + 6..];
    assert |rest| >= 12 ==> rest[8..12] == body[i + 8..i + 12] && rest[12..] == body[i + 12..];
  }

  lemma ScanEnd(inString: bool)
    ensures Scan([], inString) == Accepted
  {
  }

  lemma ScanStep(s: seq<byte>, inString: bool)
    requires s != []
    ensures Scan(s, inString) ==
            if s[0] == QUOTE then Scan(s[1..], !inString)
            else if !inString || s[0] != BACKSLASH then Scan(s[1..], inString)
            else if |s| < 2 then Malformed
            else if s[1] != LOWER_U then Scan(s[2..], inString)
            else if |s| < 6 || !AllHex(s[2..6]) then Malformed
            else if IsLow(CodeUnit(s[2..6])) then RefusedText
            else if !IsHigh(CodeUnit(s[2..6])) then Scan(s[6..], inString)
            else if |s| <= 11 || s[6] != BACKSLASH || s[7] != LOWER_U then RefusedText
            else if !AllHex(s[8..12]) then Malformed
            else if !IsLow(CodeUnit(s[8..12])) then RefusedText
            else Scan(s[12..], inString)
  {
    hide AllHex;
    hide CodeUnit;
  }

  // ----- the scanner follows the grammar -----

  /** Pairing, read from the left. */
  predicate PairedFrom(chars: seq<Char>)
    decreases |chars|
  {
    if chars == [] then true
    else if LowAt(chars, 0) then false
    else if HighAt(chars, 0) then LowAt(chars, 1) && PairedFrom(chars[2..])
    else PairedFrom(chars[1..])
  }

  lemma {:induction false} PairedFromLeft(chars: seq<Char>)
    ensures PairedFrom(chars) <==> Paired(chars)
    decreases |chars|
  {
    if chars != [] {
      var n := if HighAt(chars, 0) && LowAt(chars, 1) then 2 else 1;
      var rest := chars[n..];
      PairedFromLeft(rest);
      assert forall i | n <= i :: HighAt(chars, i) == HighAt(rest, i - n) && LowAt(chars, i) == LowAt(rest, i - n);
      PairedRest(chars, n);
    }
  }

  /** Cutting a paired head, or a head that is no surrogate, keeps the question. */
  lemma PairedRest(chars: seq<Char>, n: nat)
    requires n == (if HighAt(chars, 0) && LowAt(chars, 1) then 2 else 1) && n <= |chars|
    ensures Paired(chars) <==> !LowAt(chars, 0) && (HighAt(chars, 0) ==> n == 2) && Paired(chars[n..])
  {
    hide CodeUnit;
    hide ValidChar;
    var rest := chars[n..];
    assert forall i | n <= i :: HighAt(chars, i) == HighAt(rest, i - n) && LowAt(chars, i) == LowAt(rest, i - n);
    assert n == 2 ==> !HighAt(chars, 1);
    if Paired(chars) {
      assert LowAt(chars, 0) ==> HighAt(chars, -1);
      forall i | 0 <= i < |rest|
        ensures (HighAt(rest, i) ==> LowAt(rest, i + 1)) && (LowAt(rest, i) ==> HighAt(rest, i - 1))
      {
        assert HighAt(chars, i + n) ==> LowAt(chars, i + n + 1);
        assert LowAt(chars, i + n) ==> HighAt(chars, i + n - 1);
      }
    }
    if !LowAt(chars, 0) && (HighAt(chars, 0) ==> n == 2) && Paired(rest) {
      forall i | 0 <= i < |chars|
        ensures (HighAt(chars, i) ==> LowAt(chars, i + 1)) && (LowAt(chars, i) ==> HighAt(chars, i - 1))
      {
        if i >= n {
          assert HighAt(rest, i - n) ==> LowAt(rest, i - n + 1);
          assert LowAt(rest, i - n) ==> HighAt(rest, i - n - 1);
        }
      }
    }
  }

  /** One unit that is no surrogate is stepped over; a surrogate is judged with what follows. */
  lemma ScanUnit(digits: seq<byte>, tail: seq<byte>)
    requires |digits| == 4 && AllHex(digits)
    ensures var s := [BACKSLASH, LOWER_U] + digits + tail;
            var unit := CodeUnit(digits);
            Scan(s, true) ==
            if IsLow(unit) then RefusedText
            else if !IsHigh(unit) then Scan(tail, true)
            else if |tail| <= 5 || tail[0] != BACKSLASH || tail[1] != LOWER_U then RefusedText
            else if !AllHex(tail[2..6]) then Malformed
            else if !IsLow(CodeUnit(tail[2..6])) then RefusedText
            else Scan(tail[6..], true)
  {
    hide Scan;
    hide AllHex;
    hide CodeUnit;
    var s := [BACKSLASH, LOWER_U] + digits + tail;
    ScanStep(s, true);
    assert s[2..6] == digits && s[6..] == tail;
    assert |tail| > 5 ==> s[8..12] == tail[2..6] && s[12..] == tail[6..];
  }

  /** How a literal goes on after one of its characters. */
  function Onward(chars: seq<Char>, rest: seq<byte>): seq<byte>
  {
    WriteChars(chars) + ([QUOTE] + rest)
  }

  lemma OnwardStep(chars: seq<Char>, rest: seq<byte>)
    requires chars != []
    ensures Onward(chars, rest) == WriteChar(chars[0]) + Onward(chars[1..], rest)
  {
  }

  /** From inside a literal: refused exactly when it is unpaired, else the scan leaves it. */
  lemma {:induction false} ScanChars(chars: seq<Char>, rest: seq<byte>)
    requires ValidChars(chars)
    ensures Scan(Onward(chars, rest), true) == if PairedFrom(chars) then Scan(rest, false) else RefusedText
    decreases |chars|
  {
    hide AllHex;
    hide CodeUnit;
    if chars == [] {
      assert Onward(chars, rest)[1..] == rest;
    } else {
      OnwardStep(chars, rest);
      assert chars[0] in chars && forall c | c in chars[1..] :: c in chars;
      var tail := Onward(chars[1..], rest);
      match chars[0] {
        case Plain(b) =>
          assert ([b] + tail)[1..] == tail;
          ScanChars(chars[1..], rest);
        case Escape(b) =>
          assert ([BACKSLASH, b] + tail)[2..] == tail;
          ScanChars(chars[1..], rest);
        case Unit(digits) =>
          ScanUnit(digits, tail);
          if IsHigh(CodeUnit(digits)) {
            AfterHigh(chars, rest);
            if LowAt(chars, 1) {
              ScanChars(chars[2..], rest);
            }
          } else if !IsLow(CodeUnit(digits)) {
            ScanChars(chars[1..], rest);
          }
      }
    }
  }

  /** What the scanner sees after a high surrogate. */
  lemma AfterHigh(chars: seq<Char>, rest: seq<byte>)
    requires chars != [] && ValidChars(chars)
    ensures var tail := Onward(chars[1..], rest);
            if |chars| > 1 && chars[1].Unit?
            then |tail| > 6 && tail[0] == BACKSLASH && tail[1] == LOWER_U && tail[2..6] == chars[1].digits
                 && ValidChar(chars[1]) && tail[6..] == Onward(chars[2..], rest)
            else tail[0] != BACKSLASH || tail[1] != LOWER_U
  {
    var tail := Onward(chars[1..], rest);
    if |chars| > 1 {
      assert chars[1] in chars;
      OnwardStep(chars[1..], rest);
      assert chars[1..][1..] == chars[2..];
    }
  }

  /** On any text the grammar writes, the scanner accepts exactly paired literals and never leaves it. */
  lemma {:induction false} ScanOfPieces(pieces: seq<Piece>)
    requires ValidPieces(pieces)
    ensures Scan(WritePieces(pieces), false) == if AllPaired(pieces) then Accepted else RefusedText
    decreases |pieces|
  {
    hide Paired;
    hide PairedFrom;
    hide ValidChars;
    hide Scan;
    ScanEnd(false);
    if pieces != [] {
      var tail := WritePieces(pieces[1..]);
      assert pieces[0] in pieces && forall p | p in pieces[1..] :: p in pieces;
      assert forall p | p in pieces :: p == pieces[0] || p in pieces[1..];
      ScanOfPieces(pieces[1..]);
      match pieces[0] {
        case Outside(b) => ScanOutside(b, tail);
        case Literal(chars) => ScanLiteral(chars, tail);
      }
    }
  }

  lemma ScanOutside(b: byte, tail: seq<byte>)
    requires b != QUOTE
    ensures Scan([b] + tail, false) == Scan(tail, false)
  {
    assert ([b] + tail)[1..] == tail;
  }

  lemma ScanLiteral(chars: seq<Char>, tail: seq<byte>)
    requires ValidChars(chars)
    ensures Scan(WritePiece(Literal(chars)) + tail, false) == if Paired(chars) then Scan(tail, false) else RefusedText
  {
    hide Paired;
    hide PairedFrom;
    hide Scan;
    hide WriteChars;
    var s := WritePiece(Literal(chars)) + tail;
    assert s == [QUOTE] + Onward(chars, tail);
    assert s[1..] == Onward(chars, tail);
    ScanStep(s, false);
    ScanChars(chars, tail);
    PairedFromLeft(chars);
  }

  // ----- the characters a literal spells -----

  /** A hexadecimal digit in either case. */
  function HexByte(n: nat, upper: bool): (b: byte)
    requires n < 16
    ensures IsHex(b)
  {
    if n < 10 then 0x30 + n else if upper then 0x37 + n else 0x57 + n
  }

  datatype Cases = Cases(a: bool, b: bool, c: bool, d: bool)

  /** A code unit in four digits, each in its own case. */
  function Spell(u: nat, cases: Cases): (digits: seq<byte>)
    requires u < U16
    ensures |digits| == 4 && AllHex(digits)
  {
    [HexByte(u / 0x1000, cases.a), HexByte(u / 0x100 % 0x10, cases.b), HexByte(u / 0x10 % 0x10, cases.c), HexByte(u % 0x10, cases.d)]
  }

  lemma DigitReadsBack(n: nat, upper: bool)
    requires n < 16
    ensures HexDigit(HexByte(n, upper)) == n
  {
  }

  lemma SpellingReadsBack(u: nat, cases: Cases)
    requires u < U16
    ensures CodeUnit(Spell(u, cases)) == u
  {
    hide HexByte;
    hide HexDigit;
    DigitReadsBack(u / 0x1000, cases.a);
    DigitReadsBack(u / 0x100 % 0x10, cases.b);
    DigitReadsBack(u / 0x10 % 0x10, cases.c);
    DigitReadsBack(u % 0x10, cases.d);
    assert u / 0x10 / 0x10 == u / 0x100 && u / 0x100 / 0x10 == u / 0x1000;
  }

  /** Any four hexadecimal digits spell their code unit in some case. */
  lemma DigitsAreSpelling(digits: seq<byte>) returns (cases: Cases)
    requires |digits| == 4 && AllHex(digits)
    ensures digits == Spell(CodeUnit(digits), cases)
  {
    hide HexByte;
    hide HexDigit;
    cases := Cases(digits[0] < 0x60, digits[1] < 0x60, digits[2] < 0x60, digits[3] < 0x60);
    DigitIsSpelling(digits[0]);
    DigitIsSpelling(digits[1]);
    DigitIsSpelling(digits[2]);
    DigitIsSpelling(digits[3]);
    FourDigits(HexDigit(digits[0]), HexDigit(digits[1]), HexDigit(digits[2]), HexDigit(digits[3]));
  }

  lemma DigitIsSpelling(b: byte)
    requires IsHex(b)
    ensures HexByte(HexDigit(b), b < 0x60) == b
  {
  }

  lemma FourDigits(a: nat, b: nat, c: nat, d: nat)
    requires a < 16 && b < 16 && c < 16 && d < 16
    ensures var u := a * 0x1000 + b * 0x100 + c * 0x10 + d;
            u / 0x1000 == a && u / 0x100 % 0x10 == b && u / 0x10 % 0x10 == c && u % 0x10 == d
  {
    var u := a * 0x1000 + b * 0x100 + c * 0x10 + d;
    assert u / 0x10 == a * 0x100 + b * 0x10 + c && u / 0x100 == a * 0x10 + b;
  }

  /** A character of a literal: as itself or by a short escape, or by the code units of a Unicode scalar value. */
  datatype Scalar = Direct(c: Char) | Basic(v: nat, cases: Cases) | Supplementary(v: nat, high: Cases, low: Cases)

  /** A scalar value is any code point but the surrogates; those past 16 bits need a pair. */
  predicate ValidScalar(s: Scalar)
  {
    match s
    case Direct(c) => !c.Unit? && ValidChar(c)
    case Basic(v, _) => v < 0xd800 || 0xe000 <= v < 0x1_0000
    case Supplementary(v, _, _) => 0x1_0000 <= v < 0x11_0000
  }

  /** The UTF-16 form of a scalar value (section 2.1 of RFC 2781). */
  function WriteScalar(s: Scalar): seq<Char>
    requires ValidScalar(s)
  {
    match s
    case Direct(c) => [c]
    case Basic(v, cases) => [Unit(Spell(v, cases))]
    case Supplementary(v, high, low) =>
      [Unit(Spell(0xd800 + (v - 0x1_0000) / 0x400, high)), Unit(Spell(0xdc00 + (v - 0x1_0000) % 0x400, low))]
  }

  function WriteScalars(scalars: seq<Scalar>): seq<Char>
    requires forall s | s in scalars :: ValidScalar(s)
  {
    if scalars == [] then [] else WriteScalar(scalars[0]) + WriteScalars(scalars[1..])
  }

  lemma {:induction false} ScalarsArePaired(scalars: seq<Scalar>)
    requires forall s | s in scalars :: ValidScalar(s)
    ensures ValidChars(WriteScalars(scalars)) && PairedFrom(WriteScalars(scalars))
    decreases |scalars|
  {
    hide Spell;
    hide CodeUnit;
    if scalars != [] {
      var first, rest := scalars[0], WriteScalars(scalars[1..]);
      ScalarsArePaired(scalars[1..]);
      var chars := WriteScalar(first) + rest;
      match first {
        case Direct(c) => assert chars[1..] == rest;
        case Basic(v, cases) =>
          SpellingReadsBack(v, cases);
          assert chars[1..] == rest;
        case Supplementary(v, high, low) =>
          SpellingReadsBack(0xd800 + (v - 0x1_0000) / 0x400, high);
          SpellingReadsBack(0xdc00 + (v - 0x1_0000) % 0x400, low);
          assert chars[2..] == rest;
      }
    }
  }

  /** The scalar a paired literal begins with. */
  lemma FirstScalar(chars: seq<Char>) returns (first: Scalar, n: nat)
    requires chars != [] && ValidChars(chars) && PairedFrom(chars)
    ensures 1 <= n <= |chars| && ValidScalar(first) && WriteScalar(first) == chars[..n] && PairedFrom(chars[n..])
  {
    hide Spell;
    hide CodeUnit;
    hide AllHex;
    assert chars[0] in chars;
    first, n := Direct(chars[0]), 1;
    if chars[0].Unit? {
      var u := CodeUnit(chars[0].digits);
      var cases := DigitsAreSpelling(chars[0].digits);
      first := Basic(u, cases);
      if HighAt(chars, 0) {
        assert chars[1] in chars;
        var l := CodeUnit(chars[1].digits);
        var low := DigitsAreSpelling(chars[1].digits);
        first, n := Supplementary(0x1_0000 + (u - 0xd800) * 0x400 + (l - 0xdc00), cases, low), 2;
        PairSplits(u, l);
      }
    }
  }

  lemma {:induction false} PairedAreScalars(chars: seq<Char>) returns (scalars: seq<Scalar>)
    requires ValidChars(chars) && PairedFrom(chars)
    ensures (forall s | s in scalars :: ValidScalar(s)) && WriteScalars(scalars) == chars
    decreases |chars|
  {
    hide WriteScalar;
    hide ValidScalar;
    hide PairedFrom;
    if chars == [] {
      scalars := [];
    } else {
      var first, n := FirstScalar(chars);
      var rest := PairedAreScalars(chars[n..]);
      scalars := [first] + rest;
      assert chars == chars[..n] + chars[n..];
      assert scalars[1..] == rest;
    }
  }

  lemma PairSplits(u: nat, l: nat)
    requires 0xd800 <= u <= 0xdbff && 0xdc00 <= l <= 0xdfff
    ensures var v := 0x1_0000 + (u - 0xd800) * 0x400 + (l - 0xdc00);
            0x1_0000 <= v < 0x11_0000 && 0xd800 + (v - 0x1_0000) / 0x400 == u && 0xdc00 + (v - 0x1_0000) % 0x400 == l
  {
  }

  ghost predicate SpellsScalars(chars: seq<Char>)
  {
    exists scalars: seq<Scalar> | (forall s | s in scalars :: ValidScalar(s)) :: WriteScalars(scalars) == chars
  }

  /** A literal is paired exactly when it spells Unicode scalar values, in hexadecimal of either case. */
  lemma PairedSpellsScalars(chars: seq<Char>)
    requires ValidChars(chars)
    ensures Paired(chars) <==> SpellsScalars(chars)
  {
    hide Paired;
    hide PairedFrom;
    hide WriteScalars;
    PairedFromLeft(chars);
    if PairedFrom(chars) {
      var scalars := PairedAreScalars(chars);
      assert WriteScalars(scalars) == chars;
    }
    if SpellsScalars(chars) {
      var scalars: seq<Scalar> :| (forall s | s in scalars :: ValidScalar(s)) && WriteScalars(scalars) == chars;
      ScalarsArePaired(scalars);
    }
  }
}
