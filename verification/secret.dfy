// Base64 in the contract: the customer credential (internal/contract/credential.go)
// and the image length count (internal/contract/image.go).

module CredentialSecret {
  import opened Base
  import opened Words
  import opened Ordering
  import opened Base64

  const QUOTE: byte := 0x22
  const BACKSLASH: byte := 0x5C

  /** What a credential may hold: 1 to 4096 visible ASCII bytes. */
  predicate Presentable(secret: seq<byte>)
  {
    1 <= |secret| <= 4096 && forall c | c in secret :: 0x21 <= c <= 0x7E
  }

  /** Its only wire form. */
  function Quoted(secret: seq<byte>): Text
  {
    [QUOTE] + Encode(Standard, secret) + [QUOTE]
  }

  /** The branches of UnmarshalJSON. */
  function Unmarshal(data: Text): Option<seq<byte>>
  {
    if |data| < 2 || data[0] != QUOTE || data[|data| - 1] != QUOTE || |data| > 8194 then None
    else
      var encoded := data[1..|data| - 1];
      if encoded == [] || BACKSLASH in encoded || RETURN in encoded || NEWLINE in encoded then None
      else
        match Decode(Standard, true, WithoutBreaks(encoded))
        case None => None
        case Some(decoded) =>
          if !Presentable(decoded) || Encode(Standard, decoded) != encoded then None else Some(decoded)
  }

  class Secret {
    var bytes: seq<byte>

    constructor ()
      ensures bytes == []
    {
      bytes := [];
    }

    method UnmarshalJSON(data: Text) returns (ok: bool)
      modifies this
      ensures ok == Unmarshal(data).Some?
      ensures bytes == if ok then Unmarshal(data).value else old(bytes)
    {
      hide Decode;
      hide Encode;
      hide WithoutBreaks;
      if |data| < 2 || data[0] != QUOTE || data[|data| - 1] != QUOTE || |data| > 8194 {
        return false;
      }
      var encoded := data[1..|data| - 1];
      if |encoded| == 0 || BACKSLASH in encoded || RETURN in encoded || NEWLINE in encoded {
        return false;
      }
      var decoded := Decode(Standard, true, WithoutBreaks(encoded));
      if decoded == None || |decoded.value| < 1 || |decoded.value| > 4096 {
        return false;
      }
      for i := 0 to |decoded.value|
        invariant forall j | 0 <= j < i :: 0x21 <= decoded.value[j] <= 0x7E
      {
        if decoded.value[i] < 0x21 || decoded.value[i] > 0x7E {
          assert decoded.value[i] in decoded.value;
          return false;
        }
      }
      if Encode(Standard, decoded.value) != encoded {
        return false;
      }
      bytes := decoded.value;
      return true;
    }
  }

  /** Accepted exactly: the quoted encoding of a presentable secret, which is then what is read. */
  lemma AcceptsExactlyTheEncodings(data: Text, secret: seq<byte>)
    ensures Unmarshal(data) == Some(secret) <==> Presentable(secret) && data == Quoted(secret)
  {
    hide Decode;
    hide Encode;
    hide WithoutBreaks;
    hide Presentable;
    if Unmarshal(data) == Some(secret) {
      assert data == [QUOTE] + data[1..|data| - 1] + [QUOTE];
    }
    if Presentable(secret) && data == Quoted(secret) {
      assert data[1..|data| - 1] == Encode(Standard, secret);
      EncodedIsClean(secret);
    }
  }

  /** An encoded secret has the length and the characters the reader wants, and reads back. */
  lemma EncodedIsClean(secret: seq<byte>)
    requires Presentable(secret)
    ensures var encoded := Encode(Standard, secret);
            && 4 <= |encoded| <= 8192 && WithoutBreaks(encoded) == encoded
            && BACKSLASH !in encoded && RETURN !in encoded && NEWLINE !in encoded
            && Decode(Standard, true, encoded) == Some(secret)
  {
    hide Decode;
    hide Encode;
    hide WithoutBreaks;
    EncodedLength(Standard, secret);
    EncodedCharacters(Standard, secret);
    NoBreaks(Encode(Standard, secret));
    RoundTrip(Standard, true, secret);
  }

  /** Nothing outside these encodings is accepted, and the comparison with the re-encoding is never what refuses. */
  lemma StrictDecodingSuffices(data: Text)
    requires |data| >= 2 && data[0] == QUOTE && data[|data| - 1] == QUOTE && |data| <= 8194
    ensures var encoded := data[1..|data| - 1];
            Unmarshal(data).Some? <==>
            && RETURN !in encoded && NEWLINE !in encoded
            && Decode(Standard, true, encoded).Some? && Presentable(Decode(Standard, true, encoded).value)
  {
    var encoded := data[1..|data| - 1];
    NoBreaks(encoded);
    if Decode(Standard, true, encoded).Some? {
      StrictIsCanonical(Standard, encoded);
      EncodedCharacters(Standard, Decode(Standard, true, encoded).value);
    }
  }
}

module ImageLength {
  import opened Base
  import opened Words
  import opened Ordering
  import opened Base64

  /** The padding a text's suffix claims. */
  function PaddingOf(t: Text): (r: nat)
    ensures r <= |t| && r <= 2
  {
    if |t| >= 2 && t[|t| - 2..] == [PAD, PAD] then 2
    else if |t| >= 1 && t[|t| - 1] == PAD then 1
    else 0
  }

  /** Whole groups of alphabet characters, save the padding. */
  predicate Counted(t: Text)
  {
    |t| % 4 == 0 && forall i | 0 <= i < |t| - PaddingOf(t) :: Value(Standard, t[i]).Some?
  }

  /** The length is counted exactly when the text decodes, and it is the byte count. */
  method Base64DecodedLength(data: Text) returns (length: Option<nat>)
    ensures length.Some? <==> data != [] && Decode(Standard, false, data).Some?
    ensures length.Some? ==> length.value == |Decode(Standard, false, data).value|
  {
    CountedIsDecoded(data);
    if |data| == 0 || |data| % 4 != 0 {
      return None;
    }
    var padding := PaddingOf(data);
    for i := 0 to |data| - padding
      invariant forall j | 0 <= j < i :: Value(Standard, data[j]).Some?
    {
      if Value(Standard, data[i]).None? {
        return None;
      }
    }
    return Some(|data| / 4 * 3 - padding);
  }

  lemma {:induction false} CountedIsDecoded(t: Text)
    ensures Counted(t) <==> Decode(Standard, false, t).Some?
    ensures Counted(t) ==> |Decode(Standard, false, t).value| == |t| / 4 * 3 - PaddingOf(t)
    decreases |t|
  {
    if |t| == 4 {
      OneGroup(t);
    } else if |t| > 4 {
      MoreGroups(t);
      CountedIsDecoded(t[4..]);
    }
  }

  lemma OneGroup(t: Text)
    requires |t| == 4
    ensures Counted(t) <==> Decode(Standard, false, t).Some?
    ensures Counted(t) ==> |Decode(Standard, false, t).value| == 3 - PaddingOf(t)
  {
    hide Digits;
    DigitsLength(Standard, t[..4]);
    assert t[..4] == t && t[4..] == [];
    DigitsLength(Standard, t[..3]);
    DigitsLength(Standard, t[..2]);
    assert t[2..] == [t[2], t[3]];
    assert Value(Standard, PAD) == None;
    assert forall n | 0 <= n <= 4 :: (forall c | c in t[..n] :: Value(Standard, c).Some?)
                                     <==> forall i | 0 <= i < n :: Value(Standard, t[i]).Some?;
  }

  lemma MoreGroups(t: Text)
    requires |t| > 4
    ensures Counted(t) <==> Digits(Standard, t[..4]).Some? && Counted(t[4..])
    ensures Counted(t) ==> PaddingOf(t) == PaddingOf(t[4..])
    ensures Decode(Standard, false, t).Some? <==> Digits(Standard, t[..4]).Some? && Decode(Standard, false, t[4..]).Some?
    ensures Decode(Standard, false, t).Some? ==>
              |Decode(Standard, false, t).value| == 3 + |Decode(Standard, false, t[4..]).value|
  {
    hide Digits;
    DigitsLength(Standard, t[..4]);
    assert (forall c | c in t[..4] :: Value(Standard, c).Some?)
      <==> forall i | 0 <= i < 4 :: Value(Standard, t[i]).Some?;
    var rest := t[4..];
    if |t| >= 8 {
      assert t[|t| - 2..] == rest[|rest| - 2..];
      assert PaddingOf(t) == PaddingOf(rest);
      assert forall i | 4 <= i < |t| :: t[i] == rest[i - 4];
      assert forall i | 0 <= i < |rest| :: rest[i] == t[i + 4];
    }
  }

  /** Whether the digit before the padding has none of the bits that padding drops. */
  predicate DropsNothing(t: Text)
    requires Counted(t)
  {
    && (PaddingOf(t) == 2 ==> Value(Standard, t[|t| - 3]).value % 16 == 0)
    && (PaddingOf(t) == 1 ==> Value(Standard, t[|t| - 2]).value % 4 == 0)
  }

  lemma {:induction false} StrictDropsNothing(t: Text)
    requires Counted(t)
    ensures Decode(Standard, true, t).Some? <==> DropsNothing(t)
    decreases |t|
  {
    if |t| == 4 {
      LastGroupDrops(t);
    } else if |t| > 4 {
      MoreGroups(t);
      StrictDropsNothing(t[4..]);
      MoreDrops(t);
    }
  }

  lemma LastGroupDrops(t: Text)
    requires |t| == 4 && Counted(t)
    ensures Decode(Standard, true, t).Some? <==> DropsNothing(t)
  {
    hide Digits;
    var body := t[..4 - PaddingOf(t)];
    assert t[2..] == [t[2], t[3]] && t[..4] == t && t[4..] == [];
    DigitsLength(Standard, t);
    DigitsLength(Standard, body);
    assert body == Unpadded(Standard, t) || PaddingOf(t) == 0;
    DigitsAt(Standard, body);
    var g := Digits(Standard, body).value;
    DigitReadsBack(Standard, g[|g| - 1]);
    assert body[|g| - 1] == t[|g| - 1];
    assert Value(Standard, PAD) == None;
  }

  lemma MoreDrops(t: Text)
    requires |t| > 4 && Counted(t)
    ensures Counted(t[4..]) && PaddingOf(t) == PaddingOf(t[4..])
    ensures DropsNothing(t) <==> DropsNothing(t[4..])
    ensures Decode(Standard, true, t).Some? <==> Decode(Standard, true, t[4..]).Some?
  {
    hide Digits;
    hide Decode;
    hide Value;
    MoreGroups(t);
    MoreDecodes(t);
    SameEnd(t);
  }

  lemma SameEnd(t: Text)
    requires |t| >= 8 && Counted(t) && Counted(t[4..]) && PaddingOf(t) == PaddingOf(t[4..])
    ensures DropsNothing(t) <==> DropsNothing(t[4..])
  {
    hide PaddingOf;
    hide Value;
    var rest := t[4..];
    assert t[|t| - 3] == rest[|rest| - 3] && t[|t| - 2] == rest[|rest| - 2];
  }

  lemma MoreDecodes(t: Text)
    requires |t| > 4 && Digits(Standard, t[..4]).Some?
    ensures Decode(Standard, true, t).Some? <==> Decode(Standard, true, t[4..]).Some?
  {
    hide Digits;
    DigitsLength(Standard, t[..4]);
  }

  /**
   * A counted text need not be an encoding, although only encodings were to be
   * counted: it is one exactly when the digit before its padding drops no bits.
   */
  lemma CanonicalExactly(t: Text)
    requires t != []
    ensures (exists b :: Encode(Standard, b) == t) <==> Counted(t) && DropsNothing(t)
  {
    CountedIsDecoded(t);
    if b :| Encode(Standard, b) == t {
      RoundTrip(Standard, false, b);
      RoundTrip(Standard, true, b);
      StrictDropsNothing(t);
    }
    if Counted(t) && DropsNothing(t) {
      StrictDropsNothing(t);
      StrictIsCanonical(Standard, t);
    }
  }

  /** "AB==" is counted as one byte, and no byte encodes to it. */
  lemma CountedButNotCanonical(b: seq<byte>)
    ensures var t := [0x41, 0x42, PAD, PAD];
            Counted(t) && Decode(Standard, false, t) == Some([0]) && Encode(Standard, b) != t
  {
    var t: Text := [0x41, 0x42, PAD, PAD];
    CanonicalExactly(t);
    assert t[2..] == [PAD, PAD];
    assert Value(Standard, 0x41) == Some(0) && Value(Standard, 0x42) == Some(1);
    assert t[..4] == t && t[..2] == [0x41, 0x42] && t[..2][1..] == [0x42];
    DigitsOf(Standard, [0, 1], t[..2]);
    DigitsLength(Standard, t);
    assert PAD in t && Value(Standard, PAD) == None;
    assert Unpadded(Standard, t) == t[..2];
    assert GroupBytes([0, 1]) == [0];
  }
}
