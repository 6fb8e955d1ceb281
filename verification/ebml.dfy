// EBML element headers and the flat scan of a Matroska/WebM stream
// (internal/audioprobe/matroska.go).

module Ebml {
  import opened Base
  import opened Words

  const ID_EBML := 0x1a45dfa3
  const ID_DOC_TYPE := 0x4282
  const ID_SEGMENT := 0x18538067
  const ID_INFO := 0x1549a966
  const ID_TIMECODE_SCALE := 0x2ad7b1
  const ID_TRACKS := 0x1654ae6b
  const ID_TRACK_ENTRY := 0xae
  const ID_TRACK_NUMBER := 0xd7
  const ID_TRACK_TYPE := 0x83
  const ID_CODEC_ID := 0x86
  const ID_DEFAULT_DURATION := 0x23e383
  const ID_CLUSTER := 0x1f43b675
  const ID_TIMECODE := 0xe7
  const ID_SIMPLE_BLOCK := 0xa3
  const ID_BLOCK_GROUP := 0xa0
  const ID_BLOCK := 0xa1
  const ID_BLOCK_DURATION := 0x9b

  /** The size of an element whose muxer did not know it. */
  const UNKNOWN_SIZE: u64 := 0xffff_ffff_ffff_ffff

  datatype Vint = Vint(value: u64, length: nat)

  datatype Element = Element(id: u32, size: u64, headerSize: nat)

  /** One child of a body of known size. */
  datatype Child = Child(id: u32, body: seq<byte>)

  /** The first byte's marker bit for a vint of this length: 2^(8 - length). */
  function Marker(length: nat): (m: nat)
    requires 1 <= length <= 8
    ensures m > 0
  {
    [0x80, 0x40, 0x20, 0x10, 8, 4, 2, 1][length - 1]
  }

  /** One past the largest number a vint of this length holds: 2^(7 * length). */
  function VintLimit(length: nat): (n: nat)
    requires 1 <= length <= 8
    ensures n == Marker(length) * Pow256(length - 1)
  {
    assert Pow256(1) == 0x100 && Pow256(2) == 0x1_0000 && Pow256(3) == 0x100_0000;
    assert Pow256(4) == 0x1_0000_0000 && Pow256(5) == 0x100_0000_0000;
    assert Pow256(6) == 0x1_0000_0000_0000 && Pow256(7) == 0x100_0000_0000_0000;
    [0x80, 0x4000, 0x20_0000, 0x1000_0000, 0x8_0000_0000, 0x400_0000_0000, 0x2_0000_0000_0000,
     0x100_0000_0000_0000][length - 1]
  }

  /** Leading zero bits of a byte. */
  function LeadingZeros8(b: byte): (n: nat)
    ensures n <= 8
    ensures b > 0 ==> n < 8 && Marker(n + 1) <= b < 2 * Marker(n + 1)
  {
    if b >= 0x80 then 0
    else if b >= 0x40 then 1
    else if b >= 0x20 then 2
    else if b >= 0x10 then 3
    else if b >= 8 then 4
    else if b >= 4 then 5
    else if b >= 2 then 6
    else if b >= 1 then 7
    else 8
  }

  /** A variable-length integer: the first byte's leading zeros give its length. */
  function ParseVint(data: seq<byte>, keepMarker: bool): Option<Vint>
  {
    if |data| == 0 || data[0] == 0 then None
    else
      var length := LeadingZeros8(data[0]) + 1;
      if |data| < length then None
      else
        var head := if keepMarker then data[0] else data[0] % Marker(length);
        var digits := [head] + data[1..length];
        EightBytes(digits);
        Some(Vint(BeValue(digits), length))
  }

  lemma EightBytes(s: seq<byte>)
    requires |s| <= 8
    ensures BeValue(s) < U64
  {
    BeValueBound(s);
    PowMonotone(|s|, 8);
  }

  lemma {:induction false} PowMonotone(m: nat, n: nat)
    requires m <= n
    ensures Pow256(m) <= Pow256(n)
    decreases n
  {
    if m < n {
      PowMonotone(m, n - 1);
    }
  }

  /** The shortest-prefix element header: an id of at most four bytes, then a size. */
  function ParseElement(data: seq<byte>): (e: Option<Element>)
    ensures e.Some? ==> 2 <= e.value.headerSize <= |data|
    ensures e.Some? && e.value.size != UNKNOWN_SIZE ==> e.value.size < 0x100_0000_0000_0000
  {
    match ParseVint(data, true)
    case None => None
    case Some(id) =>
      if id.length > 4 then None
      else
        match ParseVint(data[id.length..], false)
        case None => None
        case Some(size) =>
          FourByteId(data, id);
          SizeBelowLimit(data[id.length..], size);
          Some(Element(id.value,
                       if size.value == VintLimit(size.length) - 1 then UNKNOWN_SIZE else size.value,
                       id.length + size.length))
  }

  lemma FourByteId(data: seq<byte>, id: Vint)
    requires ParseVint(data, true) == Some(id) && id.length <= 4
    ensures id.value < U32
  {
    BeValueBound([data[0]] + data[1..id.length]);
    PowMonotone(id.length, 4);
  }

  lemma SizeBelowLimit(data: seq<byte>, size: Vint)
    requires ParseVint(data, false) == Some(size)
    ensures size.value < VintLimit(size.length) <= 0x100_0000_0000_0000
  {
    hide Marker;
    hide BeValue;
    hide VintLimit;
    hide Pow256;
    var head, rest := data[0] % Marker(size.length), data[1..size.length];
    BeValueHead(head, rest);
    BeValueBound(rest);
    LeadBelow(head, Marker(size.length), Pow256(size.length - 1), BeValue(rest));
    LimitAtMost(size.length);
  }

  /** A number whose leading digit is below m is below m units of that digit. */
  lemma LeadBelow(head: nat, m: nat, p: nat, rest: nat)
    requires head < m && rest < p
    ensures head * p + rest < m * p
  {
    MulMonotone(head + 1, m, p);
    assert (head + 1) * p == head * p + p;
  }

  lemma LimitAtMost(length: nat)
    requires 1 <= length <= 8
    ensures 0x80 <= VintLimit(length) <= 0x100_0000_0000_0000
  {
  }

  /** The number of bytes an element id occupies: its marker is its top bit. */
  function IdLength(id: nat): (n: nat)
    ensures n <= 4
  {
    if 0x80 <= id < 0x100 then 1
    else if 0x4000 <= id < 0x8000 then 2
    else if 0x20_0000 <= id < 0x40_0000 then 3
    else if 0x1000_0000 <= id < 0x2000_0000 then 4
    else 0
  }

  function EncodeId(id: nat): (s: seq<byte>)
    requires IdLength(id) > 0
    ensures |s| == IdLength(id)
  {
    BeBytes(id, IdLength(id))
  }

  /** The vint of a number in a chosen length: section 4 of RFC 8794. */
  function EncodeVint(v: nat, length: nat): (s: seq<byte>)
    requires 1 <= length <= 8 && v < VintLimit(length)
    ensures |s| == length
  {
    var b := BeBytes(v, length);
    TopDigit(v, length);
    [b[0] + Marker(length)] + b[1..]
  }

  /** A number below the limit leaves the marker's bits free. */
  lemma TopDigit(v: nat, length: nat)
    requires 1 <= length <= 8 && v < VintLimit(length)
    ensures v < Pow256(length)
    ensures BeBytes(v, length)[0] < Marker(length)
  {
    var b := BeBytes(v, length);
    var p := Pow256(length - 1);
    MulMonotone(Marker(length), 0x100, p);
    BeRoundTrip(v, length);
    BeValueHead(b[0], b[1..]);
    assert b == [b[0]] + b[1..];
    if b[0] >= Marker(length) {
      MulMonotone(Marker(length), b[0], p);
      assert false;
    }
  }

  /** Reading a size vint undoes writing it, whatever follows and in any length. */
  lemma VintRoundTrip(v: nat, length: nat, rest: seq<byte>)
    requires 1 <= length <= 8 && v < VintLimit(length)
    ensures v < U64 && ParseVint(EncodeVint(v, length) + rest, false) == Some(Vint(v, length))
  {
    hide BeBytes;
    hide BeValue;
    hide VintLimit;
    var b := BeBytes(v, length);
    TopDigit(v, length);
    BeRoundTrip(v, length);
    var data := EncodeVint(v, length) + rest;
    assert data[0] == b[0] + Marker(length);
    assert LeadingZeros8(data[0]) + 1 == length;
    assert data[0] % Marker(length) == b[0];
    assert [b[0]] + data[1..length] == b;
    EightBytes(b);
  }

  /** Reading an element id undoes writing it. */
  lemma IdRoundTrip(id: nat, rest: seq<byte>)
    requires IdLength(id) > 0
    ensures id < U64 && ParseVint(EncodeId(id) + rest, true) == Some(Vint(id, IdLength(id)))
  {
    var n := IdLength(id);
    var b := EncodeId(id);
    var data := b + rest;
    IdHead(id);
    assert [data[0]] + data[1..n] == b;
    EightBytes(b);
  }

  /** The top byte of an id holds its marker. */
  lemma IdHead(id: nat)
    requires IdLength(id) > 0
    ensures var b := EncodeId(id); b[0] > 0 && LeadingZeros8(b[0]) + 1 == |b| && BeValue(b) == id
  {
    hide BeBytes;
    hide BeValue;
    hide Pow256;
    SmallPowers();
    BeRoundTrip(id, IdLength(id));
    TopByte(id, IdLength(id));
  }

  /** The first of at most four digits. */
  lemma TopByte(v: nat, n: nat)
    requires 1 <= n <= 4 && v < Pow256(n)
    ensures BeBytes(v, n)[0] == if n == 1 then v else if n == 2 then v / 0x100
                                else if n == 3 then v / 0x1_0000 else v / 0x100_0000
  {
    SmallPowers();
    if n > 1 {
      TopByte(v / 0x100, n - 1);
    }
  }

  /** The children of a body of known size; `None` when one of them is unreadable. */
  function Children(body: seq<byte>): Option<seq<Child>>
    decreases |body|
  {
    if body == [] then Some([])
    else
      match ParseElement(body)
      case None => None
      case Some(e) =>
        if e.size == UNKNOWN_SIZE || e.headerSize + e.size > |body| then None
        else
          Prefixed([Child(e.id, body[e.headerSize..e.headerSize + e.size])],
                   Children(body[e.headerSize + e.size..]))
  }

  /** A written header is read back: the id, and the size unless it is all ones. */
  lemma HeaderReadsBack(id: nat, v: nat, length: nat, rest: seq<byte>)
    requires IdLength(id) > 0 && 1 <= length <= 8 && v < VintLimit(length)
    ensures var header := EncodeId(id) + EncodeVint(v, length);
            var size := if v == VintLimit(length) - 1 then UNKNOWN_SIZE else v;
            id < U32 && size < U64 && ParseElement(header + rest) == Some(Element(id, size, |header|))
  {
    hide ParseVint;
    hide EncodeId;
    hide EncodeVint;
    var data := EncodeId(id) + EncodeVint(v, length) + rest;
    assert data == EncodeId(id) + (EncodeVint(v, length) + rest);
    IdRoundTrip(id, EncodeVint(v, length) + rest);
    assert data[|EncodeId(id)|..] == EncodeVint(v, length) + rest;
    VintRoundTrip(v, length, rest);
  }

  /** A child with its size in a vint of this length. */
  datatype Written = Written(child: Child, length: nat)

  predicate WritableChild(w: Written)
  {
    IdLength(w.child.id) > 0 && 1 <= w.length <= 8 && |w.child.body| < VintLimit(w.length) - 1
  }

  function WriteChild(w: Written): seq<byte>
    requires WritableChild(w)
  {
    EncodeId(w.child.id) + EncodeVint(|w.child.body|, w.length) + w.child.body
  }

  function WriteChildren(ws: seq<Written>): seq<byte>
    requires forall i | 0 <= i < |ws| :: WritableChild(ws[i])
  {
    if ws == [] then [] else WriteChild(ws[0]) + WriteChildren(ws[1..])
  }

  function ChildrenOf(ws: seq<Written>): (r: seq<Child>)
    ensures |r| == |ws|
  {
    seq(|ws|, i requires 0 <= i < |ws| => ws[i].child)
  }

  /** Reading children undoes writing them, whatever lengths their sizes take. */
  lemma {:induction false} ChildrenRoundTrip(ws: seq<Written>)
    requires forall i | 0 <= i < |ws| :: WritableChild(ws[i])
    ensures Children(WriteChildren(ws)) == Some(ChildrenOf(ws))
    decreases |ws|
  {
    hide ParseElement;
    if ws != [] {
      var w, rest := ws[0], WriteChildren(ws[1..]);
      ChildrenRoundTrip(ws[1..]);
      FirstChild(w, rest);
      assert ChildrenOf(ws) == [w.child] + ChildrenOf(ws[1..]);
    }
  }

  lemma FirstChild(w: Written, rest: seq<byte>)
    requires WritableChild(w)
    ensures Children(WriteChild(w) + rest) == Prefixed([w.child], Children(rest))
  {
    hide ParseElement;
    hide EncodeId;
    hide EncodeVint;
    var header := EncodeId(w.child.id) + EncodeVint(|w.child.body|, w.length);
    HeaderReadsBack(w.child.id, |w.child.body|, w.length, w.child.body + rest);
    LimitAtMost(w.length);
    var data := header + (w.child.body + rest);
    assert WriteChild(w) + rest == data;
    assert data[|header|..|header| + |w.child.body|] == w.child.body;
    assert data[|header| + |w.child.body|..] == rest;
  }

  // ----- whatever is read was written -----

  lemma VintIsWritten(data: seq<byte>, v: Vint)
    requires ParseVint(data, false) == Some(v)
    ensures 1 <= v.length <= 8 && v.length <= |data| && v.value < VintLimit(v.length)
    ensures data[..v.length] == EncodeVint(v.value, v.length)
  {
    hide BeValue;
    hide BeBytes;
    hide VintLimit;
    SizeBelowLimit(data, v);
    var m := Marker(v.length);
    var digits := [data[0] % m] + data[1..v.length];
    DigitsOfValue(digits);
    assert digits[0] + m == data[0];
    assert digits[1..] == data[1..v.length];
    assert data[..v.length] == [data[0]] + data[1..v.length];
  }

  lemma IdIsWritten(data: seq<byte>, v: Vint)
    requires ParseVint(data, true) == Some(v) && v.length <= 4
    ensures 1 <= v.length <= |data| && IdLength(v.value) == v.length
    ensures data[..v.length] == EncodeId(v.value)
  {
    hide BeBytes;
    hide BeValue;
    var digits := [data[0]] + data[1..v.length];
    assert digits == data[..v.length];
    DigitsOfValue(digits);
    SmallPowers();
    BeValueHead(data[0], data[1..v.length]);
    BeValueBound(data[1..v.length]);
  }

  lemma ElementIsWritten(data: seq<byte>, e: Element) returns (length: nat)
    requires ParseElement(data) == Some(e) && e.size != UNKNOWN_SIZE
    ensures 1 <= length <= 8 && IdLength(e.id) > 0 && e.size < VintLimit(length) - 1
    ensures data[..e.headerSize] == EncodeId(e.id) + EncodeVint(e.size, length)
  {
    hide EncodeId;
    hide EncodeVint;
    hide ParseVint;
    hide VintLimit;
    var id := ParseVint(data, true).value;
    var size := ParseVint(data[id.length..], false).value;
    IdIsWritten(data, id);
    VintIsWritten(data[id.length..], size);
    length := size.length;
    assert data[..e.headerSize] == data[..id.length] + data[id.length..][..size.length];
  }

  lemma FirstIsWritten(body: seq<byte>) returns (first: Written, end: nat)
    requires body != [] && Children(body).Some?
    ensures 0 < end <= |body| && Children(body[end..]).Some?
    ensures Children(body).value == [first.child] + Children(body[end..]).value
    ensures WritableChild(first) && WriteChild(first) == body[..end]
  {
    hide ParseElement;
    hide EncodeId;
    hide EncodeVint;
    hide VintLimit;
    var e := ParseElement(body).value;
    var length := ElementIsWritten(body, e);
    end := e.headerSize + e.size;
    first := Written(Child(e.id, body[e.headerSize..end]), length);
    assert body[..end] == body[..e.headerSize] + body[e.headerSize..end];
  }

  /** A body that reads as children is those children, written in some size lengths. */
  lemma {:induction false} ChildrenAreWritten(body: seq<byte>) returns (ws: seq<Written>)
    requires Children(body).Some?
    ensures forall i | 0 <= i < |ws| :: WritableChild(ws[i])
    ensures ChildrenOf(ws) == Children(body).value && WriteChildren(ws) == body
    decreases |body|
  {
    hide Children;
    hide WriteChild;
    hide WritableChild;
    if body == [] {
      ws := [];
      EmptyBody();
    } else {
      var first, end := FirstIsWritten(body);
      var rest := ChildrenAreWritten(body[end..]);
      ws := [first] + rest;
      assert ws[1..] == rest;
      assert body == body[..end] + body[end..];
      assert ChildrenOf(ws) == [first.child] + ChildrenOf(rest);
    }
  }

  lemma EmptyBody()
    ensures Children([]) == Some([])
  {
  }

  /** Exactly the bodies that some children were written to read as those children. */
  lemma ChildrenExactly(body: seq<byte>, children: seq<Child>)
    ensures Children(body) == Some(children) <==>
            exists ws: seq<Written> | (forall i | 0 <= i < |ws| :: WritableChild(ws[i])) ::
              WriteChildren(ws) == body && ChildrenOf(ws) == children
  {
    hide Children;
    hide WriteChildren;
    hide WritableChild;
    if Children(body) == Some(children) {
      var ws := ChildrenAreWritten(body);
      assert WriteChildren(ws) == body && ChildrenOf(ws) == children;
    }
    forall ws: seq<Written> | forall i | 0 <= i < |ws| :: WritableChild(ws[i])
      ensures Children(WriteChildren(ws)) == Some(ChildrenOf(ws))
    {
      ChildrenRoundTrip(ws);
    }
  }

  /** Segment, Tracks and Cluster: read in place, their children follow them. */
  predicate InPlace(id: nat) { id == ID_SEGMENT || id == ID_TRACKS || id == ID_CLUSTER }

  /** What the flat walk meets: the start of a container, or a whole element. */
  datatype Item = Enter(id: u32) | Whole(id: u32, body: seq<byte>)

  function Scan(data: seq<byte>): Option<seq<Item>>
    decreases |data|
  {
    if data == [] then Some([])
    else
      match ParseElement(data)
      case None => None
      case Some(e) =>
        if InPlace(e.id) then
          Prefixed([Enter(e.id)], Scan(data[e.headerSize..]))
        else if e.size == UNKNOWN_SIZE || e.headerSize + e.size > |data| then None
        else
          Prefixed([Whole(e.id, data[e.headerSize..e.headerSize + e.size])],
                   Scan(data[e.headerSize + e.size..]))
  }

  lemma OneDigit(digits: seq<byte>)
    requires digits != []
    ensures BeValue(digits[..1]) == digits[0]
  {
    assert digits[..1][..0] == [];
  }

  /** One more of at most eight digits: the shift in 64 bits loses nothing. */
  lemma NextDigit(digits: seq<byte>, i: nat)
    requires i < |digits| <= 8
    ensures BeValue(digits[..i + 1]) == BeValue(digits[..i]) * 0x100 + digits[i] < U64
  {
    assert digits[..i + 1][..i] == digits[..i];
    EightBytes(digits[..i + 1]);
  }

  method ReadVint(data: seq<byte>, keepMarker: bool) returns (r: Option<Vint>)
    ensures r == ParseVint(data, keepMarker)
  {
    hide BeValue;
    hide Marker;
    if |data| == 0 || data[0] == 0 {
      return None;
    }
    var length := LeadingZeros8(data[0]) + 1;
    if length > 8 || |data| < length {
      return None;
    }
    var value: u64 := data[0];
    if !keepMarker {
      value := value % Marker(length);  // value &= 0xff >> length
    }
    ghost var digits: seq<byte> := [value] + data[1..length];
    OneDigit(digits);
    for i := 1 to length
      invariant value == BeValue(digits[..i])
    {
      NextDigit(digits, i);
      value := Wrap64(value * 0x100) + data[i];
    }
    assert digits[..length] == digits;
    return Some(Vint(value, length));
  }

  method ReadElement(data: seq<byte>) returns (r: Option<Element>)
    ensures r == ParseElement(data)
  {
    var id := ReadVint(data, true);
    if id == None || id.value.length > 4 {
      return None;
    }
    var size := ReadVint(data[id.value.length..], false);
    if size == None {
      return None;
    }
    FourByteId(data, id.value);
    var bytes := size.value.value;
    if bytes == VintLimit(size.value.length) - 1 {
      bytes := UNKNOWN_SIZE;
    }
    return Some(Element(id.value.value, bytes, id.value.length + size.value.length));
  }

  /**
   * The loop of `eachChild`: the children it visits, in order. Additions are
   * 64-bit in the source; no end offset wraps.
   */
  method EachChild(body: seq<byte>) returns (children: Option<seq<Child>>)
    requires |body| <= MAX_SLICE
    ensures children == Children(body)
  {
    hide ParseElement;
    var visited: seq<Child> := [];
    var offset := 0;
    assert body[0..] == body;
    PrefixedEmpty(Children(body));
    while offset < |body|
      invariant 0 <= offset <= |body|
      invariant Prefixed(visited, Children(body[offset..])) == Children(body)
      decreases |body| - offset
    {
      var rest := body[offset..];
      var child := ReadElement(rest);
      if child == None || child.value.size == UNKNOWN_SIZE ||
         Wrap64(offset + child.value.headerSize + child.value.size) > |body| {
        return None;
      }
      var start := offset + child.value.headerSize;
      var end := start + child.value.size;
      SliceOfRest(body, offset, child.value.headerSize, child.value.size);
      PrefixedStep(visited, Child(child.value.id, body[start..end]), Children(body[end..]));
      visited := visited + [Child(child.value.id, body[start..end])];
      offset := end;
    }
    assert visited + [] == visited;
    return Some(visited);
  }
}
