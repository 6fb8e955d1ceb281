// The MP4 duration of internal/audioprobe/mp4.go: boxes, the sound track's
// sample table and the runs of every movie fragment.

module Boxes {
  import opened Base
  import opened Words

  datatype Box = Box(kind: seq<byte>, body: seq<byte>)

  /** The first box of some bytes and how many of them it takes. */
  function ParseBox(data: seq<byte>): (r: Option<(Box, nat)>)
    requires data != []
    ensures r.Some? ==> 8 <= r.value.1 <= |data|
  {
    if |data| < 8 then None
    else
      var stated := Be32(data);
      if stated == 1 && |data| < 16 then None
      else
        var header := if stated == 1 then 16 else 8;
        var size := if stated == 0 then |data| else if stated == 1 then Be64(data[8..]) else stated;
        if size < header || size > |data| then None
        else Some((Box(data[4..8], data[header..size]), size))
  }

  /** The boxes that tile some bytes; `None` when they do not. */
  function ParseBoxes(data: seq<byte>): Option<seq<Box>>
    decreases |data|
  {
    if data == [] then Some([])
    else
      match ParseBox(data)
      case None => None
      case Some((box, size)) => Prefixed([box], ParseBoxes(data[size..]))
  }

  method EachBox(data: seq<byte>) returns (r: Option<seq<Box>>)
    requires |data| <= MAX_SLICE
    ensures r == ParseBoxes(data)
  {
    hide Be32;
    hide Be64;
    var visited: seq<Box> := [];
    var offset := 0;
    assert data[0..] == data;
    PrefixedEmpty(ParseBoxes(data));
    while offset < |data|
      invariant 0 <= offset <= |data|
      invariant Prefixed(visited, ParseBoxes(data[offset..])) == ParseBoxes(data)
      decreases |data| - offset
    {
      var rest := data[offset..];
      if |data| - offset < 8 {
        return None;
      }
      var size := Be32(rest);
      var kind := rest[4..8];
      var header := 8;
      if size == 0 {
        size := |data| - offset;
      } else if size == 1 {
        if |data| - offset < 16 {
          return None;
        }
        size, header := Be64(rest[8..]), 16;
      }
      if size < header || size > |data| - offset {
        return None;
      }
      var body := data[offset + header..offset + size];
      SliceOfRest(data, offset, header, size - header);
      PrefixedStep(visited, Box(kind, body), ParseBoxes(data[offset + size..]));
      visited := visited + [Box(kind, body)];
      offset := offset + size;
    }
    assert visited + [] == visited;
    return Some(visited);
  }

  /** Visiting boxes in order, each refusing or giving the next state. */
  function Fold<S>(visit: (S, Box) -> Option<S>, s: S, boxes: seq<Box>): Option<S>
  {
    if boxes == [] then Some(s)
    else
      match visit(s, boxes[0])
      case None => None
      case Some(next) => Fold(visit, next, boxes[1..])
  }

  /** Visiting the boxes inside a body. */
  function Within<S>(visit: (S, Box) -> Option<S>, s: S, body: seq<byte>): Option<S>
  {
    match ParseBoxes(body)
    case None => None
    case Some(boxes) => Fold(visit, s, boxes)
  }

  lemma FoldStep<S>(visit: (S, Box) -> Option<S>, s: S, boxes: seq<Box>, i: nat)
    requires i < |boxes|
    ensures Fold(visit, s, boxes[i..]) ==
            match visit(s, boxes[i]) case None => None case Some(next) => Fold(visit, next, boxes[i + 1..])
  {
    assert boxes[i..][1..] == boxes[i + 1..];
  }

  // ----- writing boxes -----

  /** How a box states its size: in 32 bits, in 64 bits, or as running to the end. */
  datatype SizeForm = Short | Long | ToEnd

  predicate WritableBox(box: Box, form: SizeForm)
  {
    && |box.kind| == 4
    && match form
       case Short => 8 + |box.body| < U32
       case Long => 16 + |box.body| < U64
       case ToEnd => true
  }

  function WriteBox(box: Box, form: SizeForm): seq<byte>
    requires WritableBox(box, form)
  {
    match form
    case Short => BeBytes(8 + |box.body|, 4) + box.kind + box.body
    case Long => BeBytes(1, 4) + box.kind + BeBytes(16 + |box.body|, 8) + box.body
    case ToEnd => BeBytes(0, 4) + box.kind + box.body
  }

  /** Only the last box may run to the end. */
  predicate AllWritable(boxes: seq<Box>, forms: seq<SizeForm>)
  {
    && |boxes| == |forms|
    && forall i | 0 <= i < |boxes| :: WritableBox(boxes[i], forms[i]) && (forms[i].ToEnd? ==> i == |boxes| - 1)
  }

  function WriteBoxes(boxes: seq<Box>, forms: seq<SizeForm>): seq<byte>
    requires AllWritable(boxes, forms)
  {
    if boxes == [] then [] else WriteBox(boxes[0], forms[0]) + WriteBoxes(boxes[1..], forms[1..])
  }

  lemma Be32RoundTrip(v: nat, rest: seq<byte>)
    requires v < U32
    ensures Be32(BeBytes(v, 4) + rest) == v
  {
    assert Pow256(1) == 0x100 && Pow256(2) == 0x1_0000 && Pow256(3) == 0x100_0000;
    BeRoundTrip(v, 4);
    Be32Value(BeBytes(v, 4) + rest);
    assert (BeBytes(v, 4) + rest)[..4] == BeBytes(v, 4);
  }

  /** The digits of a number split wherever the number does. */
  lemma {:induction false} SplitBytes(high: nat, low: nat, m: nat, n: nat)
    requires low < Pow256(n)
    ensures BeBytes(high * Pow256(n) + low, m + n) == BeBytes(high, m) + BeBytes(low, n)
  {
    hide BeBytes;
    if n == 0 {
      assert BeBytes(high, m) + BeBytes(low, 0) == BeBytes(high, m);
    } else {
      var scaled := high * Pow256(n - 1);
      assert high * Pow256(n) == 0x100 * scaled;
      LastByte(0x100 * scaled + low, m + n);
      LastByte(low, n);
      LastDigit(scaled, low);
      SplitBytes(high, low / 0x100, m, n - 1);
    }
  }

  lemma LastByte(v: nat, n: nat)
    requires n > 0
    ensures BeBytes(v, n) == BeBytes(v / 0x100, n - 1) + [v % 0x100]
  {
  }

  lemma LastDigit(scaled: nat, low: nat)
    ensures (0x100 * scaled + low) / 0x100 == scaled + low / 0x100
    ensures (0x100 * scaled + low) % 0x100 == low % 0x100
  {
  }

  lemma Be64RoundTrip(v: nat, rest: seq<byte>)
    requires v < U64
    ensures Be64(BeBytes(v, 8) + rest) == v
  {
    assert Pow256(1) == 0x100 && Pow256(2) == 0x1_0000 && Pow256(3) == 0x100_0000 && Pow256(4) == U32;
    SplitBytes(v / U32, v % U32, 4, 4);
    assert v / U32 * U32 + v % U32 == v;
    var high, low := BeBytes(v / U32, 4), BeBytes(v % U32, 4);
    assert BeBytes(v, 8) + rest == high + (low + rest);
    Be32RoundTrip(v / U32, low + rest);
    assert (BeBytes(v, 8) + rest)[4..] == low + rest;
    Be32RoundTrip(v % U32, rest);
  }

  lemma BoxRoundTrip(box: Box, form: SizeForm, rest: seq<byte>)
    requires WritableBox(box, form) && (form.ToEnd? ==> rest == [])
    ensures ParseBox(WriteBox(box, form) + rest) == Some((box, |WriteBox(box, form)|))
  {
    hide Be32;
    hide Be64;
    hide BeBytes;
    var written := WriteBox(box, form);
    var data := written + rest;
    match form {
      case Short =>
        Be32RoundTrip(8 + |box.body|, box.kind + box.body + rest);
        assert data == BeBytes(8 + |box.body|, 4) + (box.kind + box.body + rest);
        assert data[4..8] == box.kind && data[8..|written|] == box.body;
      case Long =>
        var tail := BeBytes(16 + |box.body|, 8) + (box.body + rest);
        Be32RoundTrip(1, box.kind + tail);
        Be64RoundTrip(16 + |box.body|, box.body + rest);
        assert data == BeBytes(1, 4) + (box.kind + tail);
        assert data[8..] == tail;
        assert data[4..8] == box.kind && data[16..|written|] == box.body;
      case ToEnd =>
        Be32RoundTrip(0, box.kind + box.body + rest);
        assert data == BeBytes(0, 4) + (box.kind + box.body + rest);
        assert data[4..8] == box.kind && data[8..|written|] == box.body;
    }
  }

  /** Reading boxes undoes writing them, in any mix of size forms. */
  lemma {:induction false} BoxesRoundTrip(boxes: seq<Box>, forms: seq<SizeForm>)
    requires AllWritable(boxes, forms)
    ensures ParseBoxes(WriteBoxes(boxes, forms)) == Some(boxes)
  {
    hide ParseBox;
    hide WriteBox;
    if boxes != [] {
      var rest := WriteBoxes(boxes[1..], forms[1..]);
      var first := WriteBox(boxes[0], forms[0]);
      BoxRoundTrip(boxes[0], forms[0], rest);
      assert AllWritable(boxes[1..], forms[1..]);
      BoxesRoundTrip(boxes[1..], forms[1..]);
      var data := first + rest;
      assert WriteBoxes(boxes, forms) == data;
      assert ParseBox(data) == Some((boxes[0], |first|)) && data[|first|..] == rest;
      assert ParseBoxes(data) == Prefixed([boxes[0]], Some(boxes[1..]));
      assert [boxes[0]] + boxes[1..] == boxes;
    }
  }

  // ----- whatever is read was written -----

  lemma Be32IsWritten(data: seq<byte>)
    requires |data| >= 4
    ensures data[..4] == BeBytes(Be32(data), 4)
  {
    hide BeBytes;
    hide BeValue;
    Be32Value(data);
    DigitsOfValue(data[..4]);
  }

  lemma Be64IsWritten(data: seq<byte>)
    requires |data| >= 8
    ensures data[..8] == BeBytes(Be64(data), 8)
  {
    hide BeBytes;
    hide Be32;
    assert Pow256(1) == 0x100 && Pow256(2) == 0x1_0000 && Pow256(3) == 0x100_0000 && Pow256(4) == U32;
    Be32IsWritten(data);
    Be32IsWritten(data[4..]);
    SplitBytes(Be32(data), Be32(data[4..]), 4, 4);
    assert data[..8] == data[..4] + data[4..][..4];
  }

  /** The form in which the first box states its size. */
  function FormOf(data: seq<byte>): SizeForm
    requires |data| >= 4
  {
    if Be32(data) == 0 then ToEnd else if Be32(data) == 1 then Long else Short
  }

  lemma BoxIsWritten(data: seq<byte>)
    requires data != [] && ParseBox(data).Some?
    ensures var (box, size) := ParseBox(data).value;
            && WritableBox(box, FormOf(data)) && data[..size] == WriteBox(box, FormOf(data))
            && (FormOf(data).ToEnd? ==> size == |data|)
  {
    hide BeBytes;
    hide Be32;
    hide Be64;
    var (box, size) := ParseBox(data).value;
    Be32IsWritten(data);
    if Be32(data) == 1 {
      Be64IsWritten(data[8..]);
      assert data[8..][..8] == data[8..16];
      assert data[..size] == data[..4] + data[4..8] + data[8..16] + data[16..size];
    } else {
      assert data[..size] == data[..4] + data[4..8] + data[8..size];
    }
  }

  lemma {:induction false} BoxesAreWritten(data: seq<byte>) returns (forms: seq<SizeForm>)
    requires ParseBoxes(data).Some?
    ensures AllWritable(ParseBoxes(data).value, forms) && WriteBoxes(ParseBoxes(data).value, forms) == data
    decreases |data|
  {
    hide ParseBox;
    hide WriteBox;
    hide WritableBox;
    hide FormOf;
    if data == [] {
      forms := [];
    } else {
      BoxIsWritten(data);
      var (box, size) := ParseBox(data).value;
      var rest := BoxesAreWritten(data[size..]);
      forms := [FormOf(data)] + rest;
      var boxes := ParseBoxes(data).value;
      assert boxes[1..] == ParseBoxes(data[size..]).value && forms[1..] == rest;
      assert data == data[..size] + data[size..];
      assert forall i | 0 < i < |boxes| :: boxes[i] == boxes[1..][i - 1] && forms[i] == rest[i - 1];
    }
  }

  /** Exactly the bytes that some boxes were written to read as those boxes. */
  lemma BoxesExactly(data: seq<byte>, boxes: seq<Box>)
    ensures ParseBoxes(data) == Some(boxes) <==>
            exists forms: seq<SizeForm> | AllWritable(boxes, forms) :: WriteBoxes(boxes, forms) == data
  {
    hide ParseBoxes;
    hide WriteBoxes;
    hide AllWritable;
    if ParseBoxes(data) == Some(boxes) {
      var forms := BoxesAreWritten(data);
      assert AllWritable(boxes, forms) && WriteBoxes(boxes, forms) == data;
    }
    forall forms: seq<SizeForm> | AllWritable(boxes, forms)
      ensures ParseBoxes(WriteBoxes(boxes, forms)) == Some(boxes)
    {
      BoxesRoundTrip(boxes, forms);
    }
  }
}

module Mp4 {
  import opened Base
  import opened Words
  import opened Boxes

  const MOOV: seq<byte> := [0x6d, 0x6f, 0x6f, 0x76]
  const TRAK: seq<byte> := [0x74, 0x72, 0x61, 0x6b]
  const MVEX: seq<byte> := [0x6d, 0x76, 0x65, 0x78]
  const TREX: seq<byte> := [0x74, 0x72, 0x65, 0x78]
  const MOOF: seq<byte> := [0x6d, 0x6f, 0x6f, 0x66]
  const TKHD: seq<byte> := [0x74, 0x6b, 0x68, 0x64]
  const MDIA: seq<byte> := [0x6d, 0x64, 0x69, 0x61]
  const HDLR: seq<byte> := [0x68, 0x64, 0x6c, 0x72]
  const SOUN: seq<byte> := [0x73, 0x6f, 0x75, 0x6e]
  const MDHD: seq<byte> := [0x6d, 0x64, 0x68, 0x64]
  const MINF: seq<byte> := [0x6d, 0x69, 0x6e, 0x66]
  const STBL: seq<byte> := [0x73, 0x74, 0x62, 0x6c]
  const STTS: seq<byte> := [0x73, 0x74, 0x74, 0x73]
  const TRAF: seq<byte> := [0x74, 0x72, 0x61, 0x66]
  const TFHD: seq<byte> := [0x74, 0x66, 0x68, 0x64]
  const TRUN: seq<byte> := [0x74, 0x72, 0x75, 0x6e]

  datatype Track = Track(id: u32, sound: bool, timescale: u32, ticks: u64)

  datatype Movie = Movie(sawMovie: bool, tracks: seq<Track>, fragments: seq<seq<byte>>, defaults: map<u32, u32>)

  /** What a traf has read so far; `total` is the true sum of its runs, with no 64-bit limit. */
  datatype Fragment = Fragment(mine: bool, fallback: u32, total: nat)

  // ----- the sample table -----

  /** One entry of the table: a sample count times their duration. */
  function EntryTicks(entry: seq<byte>): (n: nat)
    requires |entry| >= 8
    ensures n <= 0xffff_ffff * 0xffff_ffff
  {
    ProductFits(Be32(entry), Be32(entry[4..]));
    Be32(entry) * Be32(entry[4..])
  }

  /** The sum over the first n entries. */
  function SttsSum(stts: seq<byte>, n: nat): nat
    requires |stts| >= 8 + 8 * n
  {
    if n == 0 then 0
    else SttsSum(stts, n - 1) + EntryTicks(stts[8 * n..])
  }

  /** The table's sum, or a refusal: truncated, or past 64 bits. */
  function SampleTable(stts: seq<byte>): Option<u64>
  {
    if |stts| < 8 || |stts| < 8 + 8 * Be32(stts[4..]) then None
    else
      var total := SttsSum(stts, Be32(stts[4..]));
      if total < U64 then Some(total) else None
  }

  lemma {:induction false} SttsGrows(stts: seq<byte>, m: nat, n: nat)
    requires m <= n && |stts| >= 8 + 8 * n
    ensures SttsSum(stts, m) <= SttsSum(stts, n)
    decreases n
  {
    hide EntryTicks;
    if m < n {
      SttsGrows(stts, m, n - 1);
    }
  }

  /** A product of two 32-bit numbers fits 64 bits, with room for 2^33 - 2 more. */
  lemma ProductFits(a: u32, b: u32)
    ensures a * b <= 0xffff_ffff * 0xffff_ffff
  {
    MulMonotone(a, 0xffff_ffff, b);
    MulMonotone(b, 0xffff_ffff, 0xffff_ffff);
  }

  method Mp4SampleTable(stts: seq<byte>) returns (r: Option<u64>)
    ensures r == SampleTable(stts)
  {
    hide Be32;
    if |stts| < 8 {
      return None;
    }
    var entries: int := Be32(stts[4..]);
    if |stts| < 8 + 8 * entries {
      return None;
    }
    var total: u64 := 0;
    for index := 0 to entries
      invariant total == SttsSum(stts, index)
    {
      var entry := stts[8 + 8 * index..];
      var product := Mul64(Be32(entry), Be32(entry[4..]));
      ProductFits(Be32(entry), Be32(entry[4..]));
      var sum := Add64(total, product.1);
      SttsGrows(stts, index + 1, entries);
      if product.0 != 0 || sum.1 != 0 {
        return None;
      }
      total := sum.0;
    }
    return Some(total);
  }

  // ----- a track -----

  function VersionOffset(body: seq<byte>): nat
  {
    if |body| > 0 && body[0] == 1 then 20 else 12
  }

  function VisitStbl(t: Track, box: Box): Option<Track>
  {
    if box.kind != STTS then Some(t)
    else
      match SampleTable(box.body)
      case None => None
      case Some(ticks) => Some(t.(ticks := ticks))
  }

  function VisitMinf(t: Track, box: Box): Option<Track>
  {
    if box.kind == STBL then Within(VisitStbl, t, box.body) else Some(t)
  }

  function VisitMdia(t: Track, box: Box): Option<Track>
  {
    if box.kind == HDLR then Some(t.(sound := |box.body| >= 12 && box.body[8..12] == SOUN))
    else if box.kind == MDHD then
      var at := VersionOffset(box.body);
      if |box.body| < at + 4 then None else Some(t.(timescale := Be32(box.body[at..])))
    else if box.kind == MINF then Within(VisitMinf, t, box.body)
    else Some(t)
  }

  function VisitTrak(t: Track, box: Box): Option<Track>
  {
    if box.kind == TKHD then
      var at := VersionOffset(box.body);
      if |box.body| < at + 4 then None else Some(t.(id := Be32(box.body[at..])))
    else if box.kind == MDIA then Within(VisitMdia, t, box.body)
    else Some(t)
  }

  function ReadTrack(trak: seq<byte>): Option<Track>
  {
    match Within(VisitTrak, Track(0, false, 0, 0), trak)
    case None => None
    case Some(t) => if t.sound && t.timescale == 0 then None else Some(t)
  }

  // ----- runs -----

  function Bit(flags: nat, mask: nat): bool
    requires mask > 0
  {
    flags / mask % 2 == 1
  }

  function RunStart(flags: nat): nat
  {
    8 + (if Bit(flags, 0x01) then 4 else 0) + (if Bit(flags, 0x04) then 4 else 0)
  }

  function RunStride(flags: nat): (n: nat)
    ensures n > 0
  {
    4 + (if Bit(flags, 0x200) then 4 else 0) + (if Bit(flags, 0x400) then 4 else 0) + (if Bit(flags, 0x800) then 4 else 0)
  }

  /** The sum of the first n sample durations of a run. */
  function DurationSum(trun: seq<byte>, at: nat, stride: nat, n: nat): nat
    requires stride >= 4 && |trun| >= at + stride * n
  {
    if n == 0 then 0
    else
      assert at + stride * n == at + stride * (n - 1) + stride;
      DurationSum(trun, at, stride, n - 1) + Be32(trun[at + stride * (n - 1)..])
  }

  /** One run's samples: their own durations, else the default times the count. */
  function RunTicks(trun: seq<byte>, fallback: u32): Option<nat>
  {
    if |trun| < 8 then None
    else
      var flags := Be32(trun) % 0x100_0000;
      var count := Be32(trun[4..]);
      if !Bit(flags, 0x100) then if fallback == 0 then None else Some(count * fallback)
      else if |trun| < RunStart(flags) + RunStride(flags) * count then None
      else Some(DurationSum(trun, RunStart(flags), RunStride(flags), count))
  }

  lemma {:induction false} DurationSumBound(trun: seq<byte>, at: nat, stride: nat, n: nat)
    requires stride >= 4 && |trun| >= at + stride * n
    ensures DurationSum(trun, at, stride, n) <= n * 0xffff_ffff
  {
    if n > 0 {
      assert at + stride * n == at + stride * (n - 1) + stride;
      DurationSumBound(trun, at, stride, n - 1);
    }
  }

  /** No single run reaches 2^64. */
  lemma RunFits(trun: seq<byte>, fallback: u32)
    requires RunTicks(trun, fallback).Some?
    ensures RunTicks(trun, fallback).value < U64
  {
    hide Be32;
    var flags, count := Be32(trun) % 0x100_0000, Be32(trun[4..]);
    if Bit(flags, 0x100) {
      DurationSumBound(trun, RunStart(flags), RunStride(flags), count);
      ProductFits(count, 0xffff_ffff);
    } else {
      ProductFits(count, fallback);
    }
  }

  method Mp4Run(trun: seq<byte>, fallback: u32) returns (r: Option<u64>)
    ensures r == RunTicks(trun, fallback)
  {
    hide Be32;
    if |trun| < 8 {
      return None;
    }
    var flags := Be32(trun) % 0x100_0000;
    var count := Be32(trun[4..]);
    var at := 8;
    if Bit(flags, 0x01) {
      at := at + 4;
    }
    if Bit(flags, 0x04) {
      at := at + 4;
    }
    if !Bit(flags, 0x100) {
      if fallback == 0 {
        return None;
      }
      ProductFits(count, fallback);
      return Some(Wrap64(count * fallback));
    }
    var stride := 4;
    if Bit(flags, 0x200) {
      stride := stride + 4;
    }
    if Bit(flags, 0x400) {
      stride := stride + 4;
    }
    if Bit(flags, 0x800) {
      stride := stride + 4;
    }
    assert at == RunStart(flags) && stride == RunStride(flags);
    if |trun| < at + stride * count {
      return None;
    }
    r := SumRun(trun, at, stride, count);
  }

  /** The summing loop of a run: no partial sum wraps. */
  method SumRun(trun: seq<byte>, at: nat, stride: nat, count: u32) returns (r: Option<u64>)
    requires stride >= 4 && |trun| >= at + stride * count
    ensures r == Some(DurationSum(trun, at, stride, count))
  {
    hide Be32;
    var total: u64 := 0;
    for index := 0 to count
      invariant |trun| >= at + stride * index
      invariant total == DurationSum(trun, at, stride, index)
    {
      MulMonotone(index + 1, count, stride);
      assert at + stride * (index + 1) == at + stride * index + stride;
      DurationSumBound(trun, at, stride, index + 1);
      assert (index + 1) * 0xffff_ffff < U64;
      total := Wrap64(total + Be32(trun[at + stride * index..]));
    }
    return Some(total);
  }

  // ----- fragments -----

  /** A fragment header: whose fragment it is and, when it states one, its default duration. */
  function VisitTfhd(f: Fragment, body: seq<byte>, id: u32): Option<Fragment>
  {
    if |body| < 8 then None
    else
      var flags := Be32(body) % 0x100_0000;
      var named := f.(mine := Be32(body[4..]) == id);
      var at := 8 + (if Bit(flags, 0x01) then 8 else 0) + (if Bit(flags, 0x02) then 4 else 0);
      if !Bit(flags, 0x08) then Some(named)
      else if |body| < at + 4 then None
      else Some(named.(fallback := Be32(body[at..])))
  }

  function VisitTraf(f: Fragment, box: Box, id: u32): Option<Fragment>
  {
    if box.kind == TFHD then VisitTfhd(f, box.body, id)
    else if box.kind == TRUN && f.mine then
      match RunTicks(box.body, f.fallback)
      case None => None
      case Some(ticks) => Some(f.(total := f.total + ticks))
    else Some(f)
  }

  function TrafVisitor(id: u32): (Fragment, Box) -> Option<Fragment>
  {
    (f, box) => VisitTraf(f, box, id)
  }

  function VisitMoof(total: nat, box: Box, id: u32, default: u32): Option<nat>
  {
    if box.kind != TRAF then Some(total)
    else
      match Within(TrafVisitor(id), Fragment(false, default, total), box.body)
      case None => None
      case Some(f) => Some(f.total)
  }

  function MoofVisitor(id: u32, default: u32): (nat, Box) -> Option<nat>
  {
    (total, box) => VisitMoof(total, box, id, default)
  }

  /** The true sum of a movie fragment's runs for one track. */
  function FragmentTicks(moof: seq<byte>, id: u32, default: u32): Option<nat>
  {
    Within(MoofVisitor(id, default), 0, moof)
  }

  // ----- the movie -----

  function VisitMvex(m: Movie, box: Box): Option<Movie>
  {
    if box.kind == TREX && |box.body| >= 16 then
      Some(m.(defaults := m.defaults[Be32(box.body[4..]) := Be32(box.body[12..])]))
    else Some(m)
  }

  function VisitMoov(m: Movie, box: Box): Option<Movie>
  {
    if box.kind == TRAK then
      match ReadTrack(box.body)
      case None => None
      case Some(t) => Some(m.(tracks := m.tracks + [t]))
    else if box.kind == MVEX then Within(VisitMvex, m, box.body)
    else Some(m)
  }

  function VisitTop(m: Movie, box: Box): Option<Movie>
  {
    if box.kind == MOOV then Within(VisitMoov, m.(sawMovie := true), box.body)
    else if box.kind == MOOF then Some(m.(fragments := m.fragments + [box.body]))
    else Some(m)
  }

  const NO_MOVIE := Movie(false, [], [], map[])

  function SoundTracks(tracks: seq<Track>): seq<Track>
  {
    if tracks == [] then []
    else
      var front, last := tracks[..|tracks| - 1], tracks[|tracks| - 1];
      if last.sound then SoundTracks(front) + [last] else SoundTracks(front)
  }

  function DefaultOf(m: Movie, id: u32): u32
  {
    if id in m.defaults then m.defaults[id] else 0
  }

  /**
   * What the code adds up: each fragment's sum keeps its low 64 bits, and the
   * addition of fragments is refused past 64 bits.
   */
  function CodedTicks(ticks: u64, fragments: seq<seq<byte>>, id: u32, default: u32): Option<u64>
    decreases |fragments|
  {
    if fragments == [] then Some(ticks)
    else
      match FragmentTicks(fragments[0], id, default)
      case None => None
      case Some(exact) =>
        if ticks + Wrap64(exact) >= U64 then None
        else CodedTicks(ticks + Wrap64(exact), fragments[1..], id, default)
  }

  /** The answer a read movie gives. */
  function MovieDuration(m: Movie): Option<(u64, u64)>
  {
    var sounds := SoundTracks(m.tracks);
    if !m.sawMovie || |sounds| != 1 then None
    else
      var sound := sounds[0];
      match CodedTicks(sound.ticks, m.fragments, sound.id, DefaultOf(m, sound.id))
      case None => None
      case Some(ticks) => if ticks == 0 then None else Some((ticks, sound.timescale))
  }

  function Duration(data: seq<byte>): Option<(u64, u64)>
  {
    match Within(VisitTop, NO_MOVIE, data)
    case None => None
    case Some(m) => MovieDuration(m)
  }

  // ----- the nested visits, as loops -----

  method ReadStbl(t: Track, body: seq<byte>) returns (r: Option<Track>)
    requires |body| <= MAX_SLICE
    ensures r == Within(VisitStbl, t, body)
  {
    hide ParseBoxes;
    hide SampleTable;
    var boxes := EachBox(body);
    if boxes == None {
      return None;
    }
    var bs, track := boxes.value, t;
    assert bs[0..] == bs;
    for i := 0 to |bs|
      invariant Fold(VisitStbl, track, bs[i..]) == Fold(VisitStbl, t, bs)
    {
      FoldStep(VisitStbl, track, bs, i);
      if bs[i].kind == STTS {
        var ticks := Mp4SampleTable(bs[i].body);
        if ticks == None {
          return None;
        }
        track := track.(ticks := ticks.value);
      }
    }
    return Some(track);
  }

  method ReadMinf(t: Track, body: seq<byte>) returns (r: Option<Track>)
    requires |body| <= MAX_SLICE
    ensures r == Within(VisitMinf, t, body)
  {
    hide ParseBoxes;
    var boxes := EachBox(body);
    if boxes == None {
      return None;
    }
    var bs, track := boxes.value, t;
    assert bs[0..] == bs;
    BoxesFit(body);
    for i := 0 to |bs|
      invariant Fold(VisitMinf, track, bs[i..]) == Fold(VisitMinf, t, bs)
    {
      FoldStep(VisitMinf, track, bs, i);
      if bs[i].kind == STBL {
        var next := ReadStbl(track, bs[i].body);
        if next == None {
          return None;
        }
        track := next.value;
      }
    }
    return Some(track);
  }

  method ReadMdia(t: Track, body: seq<byte>) returns (r: Option<Track>)
    requires |body| <= MAX_SLICE
    ensures r == Within(VisitMdia, t, body)
  {
    hide ParseBoxes;
    hide Be32;
    var boxes := EachBox(body);
    if boxes == None {
      return None;
    }
    var bs, track := boxes.value, t;
    assert bs[0..] == bs;
    BoxesFit(body);
    for i := 0 to |bs|
      invariant Fold(VisitMdia, track, bs[i..]) == Fold(VisitMdia, t, bs)
    {
      FoldStep(VisitMdia, track, bs, i);
      var inside := bs[i].body;
      if bs[i].kind == HDLR {
        track := track.(sound := |inside| >= 12 && inside[8..12] == SOUN);
      } else if bs[i].kind == MDHD {
        var at := VersionOffset(inside);
        if |inside| < at + 4 {
          return None;
        }
        track := track.(timescale := Be32(inside[at..]));
      } else if bs[i].kind == MINF {
        var next := ReadMinf(track, inside);
        if next == None {
          return None;
        }
        track := next.value;
      }
    }
    return Some(track);
  }

  method Mp4ReadTrack(trak: seq<byte>) returns (r: Option<Track>)
    requires |trak| <= MAX_SLICE
    ensures r == ReadTrack(trak)
  {
    hide ParseBoxes;
    hide Be32;
    var boxes := EachBox(trak);
    if boxes == None {
      return None;
    }
    ghost var t := Track(0, false, 0, 0);
    var bs, track := boxes.value, Track(0, false, 0, 0);
    assert bs[0..] == bs;
    BoxesFit(trak);
    for i := 0 to |bs|
      invariant Fold(VisitTrak, track, bs[i..]) == Fold(VisitTrak, t, bs)
    {
      FoldStep(VisitTrak, track, bs, i);
      var inside := bs[i].body;
      if bs[i].kind == TKHD {
        var at := VersionOffset(inside);
        if |inside| < at + 4 {
          return None;
        }
        track := track.(id := Be32(inside[at..]));
      } else if bs[i].kind == MDIA {
        var next := ReadMdia(track, inside);
        if next == None {
          return None;
        }
        track := next.value;
      }
    }
    if track.sound && track.timescale == 0 {
      return None;
    }
    return Some(track);
  }

  /** No box is longer than what holds it. */
  lemma {:induction false} BoxesFit(data: seq<byte>)
    requires ParseBoxes(data).Some?
    ensures forall box | box in ParseBoxes(data).value :: |box.body| <= |data|
    decreases |data|
  {
    hide Be32;
    hide Be64;
    if data != [] {
      BoxesFit(data[ParseBox(data).value.1..]);
    }
  }

  /** One traf's runs, added to the fragment's total in 64 bits. */
  method ReadTraf(before: u64, ghost exact: nat, traf: seq<byte>, id: u32, default: u32)
    returns (r: Option<u64>, ghost after: nat)
    requires |traf| <= MAX_SLICE && before == exact % U64
    ensures var read := Within(TrafVisitor(id), Fragment(false, default, exact), traf);
            && (r == if read.Some? then Some(read.value.total % U64) else None)
            && (read.Some? ==> after == read.value.total)
  {
    hide ParseBoxes;
    hide Be32;
    hide RunTicks;
    after := exact;
    var boxes := EachBox(traf);
    if boxes == None {
      return None, after;
    }
    var bs := boxes.value;
    var mine, fallback, total: int := false, default, before;
    ghost var visit, f := TrafVisitor(id), Fragment(false, default, exact);
    assert bs[0..] == bs;
    for i := 0 to |bs|
      invariant f.mine == mine && f.fallback == fallback && f.total % U64 == total
      invariant Fold(visit, f, bs[i..]) == Fold(visit, Fragment(false, default, exact), bs)
    {
      FoldStep(visit, f, bs, i);
      var body := bs[i].body;
      if bs[i].kind == TFHD {
        if |body| < 8 {
          return None, after;
        }
        var flags := Be32(body) % 0x100_0000;
        mine := Be32(body[4..]) == id;
        var at := 8;
        if Bit(flags, 0x01) {
          at := at + 8;
        }
        if Bit(flags, 0x02) {
          at := at + 4;
        }
        if Bit(flags, 0x08) {
          if |body| < at + 4 {
            return None, after;
          }
          fallback := Be32(body[at..]);
        }
      } else if bs[i].kind == TRUN && mine {
        var ticks := Mp4Run(body, fallback);
        if ticks == None {
          return None, after;
        }
        WrapSum(f.total, ticks.value);
        total := Wrap64(total + ticks.value);
      }
      f := VisitTraf(f, bs[i], id).value;
    }
    return Some(total), f.total;
  }

  lemma WrapSum(a: nat, b: nat)
    ensures Wrap64(a % U64 + b) == (a + b) % U64
  {
    var low := a % U64 + b;
    assert a == a / U64 * U64 + a % U64 && low == low / U64 * U64 + low % U64;
    ModUnique(a + b, a / U64 + low / U64, low % U64, U64);
  }

  /** The code keeps the low 64 bits of a fragment's true sum. */
  method Mp4FragmentTicks(moof: seq<byte>, id: u32, default: u32) returns (r: Option<u64>)
    requires |moof| <= MAX_SLICE
    ensures r == match FragmentTicks(moof, id, default) case None => None case Some(exact) => Some(Wrap64(exact))
  {
    hide ParseBoxes;
    hide VisitTraf;
    var boxes := EachBox(moof);
    if boxes == None {
      return None;
    }
    BoxesFit(moof);
    var bs, total: u64 := boxes.value, 0;
    ghost var visit, exact: nat := MoofVisitor(id, default), 0;
    assert bs[0..] == bs;
    for i := 0 to |bs|
      invariant total == exact % U64
      invariant Fold(visit, exact, bs[i..]) == Fold(visit, 0, bs)
    {
      FoldStep(visit, exact, bs, i);
      if bs[i].kind == TRAF {
        ghost var after;
        var next;
        next, after := ReadTraf(total, exact, bs[i].body, id, default);
        if next == None {
          return None;
        }
        total, exact := next.value, after;
      }
    }
    return Some(total);
  }

  method ReadMvex(m: Movie, body: seq<byte>) returns (r: Option<Movie>)
    requires |body| <= MAX_SLICE
    ensures r == Within(VisitMvex, m, body)
  {
    hide ParseBoxes;
    hide Be32;
    var boxes := EachBox(body);
    if boxes == None {
      return None;
    }
    var bs, movie := boxes.value, m;
    assert bs[0..] == bs;
    for i := 0 to |bs|
      invariant Fold(VisitMvex, movie, bs[i..]) == Fold(VisitMvex, m, bs)
    {
      FoldStep(VisitMvex, movie, bs, i);
      if bs[i].kind == TREX && |bs[i].body| >= 16 {
        movie := movie.(defaults := movie.defaults[Be32(bs[i].body[4..]) := Be32(bs[i].body[12..])]);
      }
    }
    return Some(movie);
  }

  method ReadMoov(m: Movie, body: seq<byte>) returns (r: Option<Movie>)
    requires |body| <= MAX_SLICE
    ensures r == Within(VisitMoov, m, body)
  {
    hide ParseBoxes;
    hide ReadTrack;
    hide VisitMvex;
    var boxes := EachBox(body);
    if boxes == None {
      return None;
    }
    var bs, movie := boxes.value, m;
    assert bs[0..] == bs;
    BoxesFit(body);
    for i := 0 to |bs|
      invariant Fold(VisitMoov, movie, bs[i..]) == Fold(VisitMoov, m, bs)
    {
      FoldStep(VisitMoov, movie, bs, i);
      if bs[i].kind == TRAK {
        var track := Mp4ReadTrack(bs[i].body);
        if track == None {
          return None;
        }
        movie := movie.(tracks := movie.tracks + [track.value]);
      } else if bs[i].kind == MVEX {
        var next := ReadMvex(movie, bs[i].body);
        if next == None {
          return None;
        }
        movie := next.value;
      }
    }
    return Some(movie);
  }

  method ReadMovie(data: seq<byte>) returns (r: Option<Movie>)
    requires |data| <= MAX_SLICE
    ensures r == Within(VisitTop, NO_MOVIE, data)
    ensures r.Some? ==> forall fragment | fragment in r.value.fragments :: |fragment| <= MAX_SLICE
  {
    hide ParseBoxes;
    hide VisitMoov;
    var boxes := EachBox(data);
    if boxes == None {
      return None;
    }
    var bs, movie := boxes.value, NO_MOVIE;
    assert bs[0..] == bs;
    BoxesFit(data);
    for i := 0 to |bs|
      invariant Fold(VisitTop, movie, bs[i..]) == Fold(VisitTop, NO_MOVIE, bs)
      invariant forall fragment | fragment in movie.fragments :: |fragment| <= MAX_SLICE
    {
      FoldStep(VisitTop, movie, bs, i);
      if bs[i].kind == MOOV {
        var next := ReadMoov(movie.(sawMovie := true), bs[i].body);
        if next == None {
          return None;
        }
        MoovKeepsFragments(movie.(sawMovie := true), bs[i].body);
        movie := next.value;
      } else if bs[i].kind == MOOF {
        movie := movie.(fragments := movie.fragments + [bs[i].body]);
      }
    }
    return Some(movie);
  }

  lemma MoovKeepsFragments(m: Movie, body: seq<byte>)
    requires Within(VisitMoov, m, body).Some?
    ensures var after := Within(VisitMoov, m, body).value;
            after.fragments == m.fragments && after.sawMovie == m.sawMovie
  {
    FoldKeepsFragments(m, ParseBoxes(body).value);
  }

  lemma {:induction false} FoldKeepsFragments(m: Movie, boxes: seq<Box>)
    requires Fold(VisitMoov, m, boxes).Some?
    ensures Fold(VisitMoov, m, boxes).value.fragments == m.fragments
    ensures Fold(VisitMoov, m, boxes).value.sawMovie == m.sawMovie
    decreases |boxes|
  {
    hide ParseBoxes;
    hide ReadTrack;
    if boxes != [] {
      if boxes[0].kind == MVEX {
        MvexKeepsFragments(m, ParseBoxes(boxes[0].body).value);
      }
      FoldKeepsFragments(VisitMoov(m, boxes[0]).value, boxes[1..]);
    }
  }

  lemma {:induction false} MvexKeepsFragments(m: Movie, boxes: seq<Box>)
    requires Fold(VisitMvex, m, boxes).Some?
    ensures Fold(VisitMvex, m, boxes).value == m.(defaults := Fold(VisitMvex, m, boxes).value.defaults)
    decreases |boxes|
  {
    hide Be32;
    if boxes != [] {
      MvexKeepsFragments(VisitMvex(m, boxes[0]).value, boxes[1..]);
    }
  }

  method Mp4Duration(data: seq<byte>) returns (r: Option<(u64, u64)>)
    requires |data| <= MAX_SLICE
    ensures r == Duration(data)
  {
    hide Within;
    hide FragmentTicks;
    var movie := ReadMovie(data);
    if movie == None || !movie.value.sawMovie {
      return None;
    }
    var m := movie.value;
    var sound: Option<Track> := None;
    for i := 0 to |m.tracks|
      invariant SoundTracks(m.tracks[..i]) == if sound == None then [] else [sound.value]
    {
      assert m.tracks[..i + 1][..i] == m.tracks[..i];
      if m.tracks[i].sound {
        if sound != None {
          ManySounds(m.tracks, i + 1);
          return None;
        }
        sound := Some(m.tracks[i]);
      }
    }
    assert m.tracks[..|m.tracks|] == m.tracks;
    if sound == None {
      return None;
    }
    var id, default, ticks := sound.value.id, DefaultOf(m, sound.value.id), sound.value.ticks;
    assert m.fragments[0..] == m.fragments;
    for i := 0 to |m.fragments|
      invariant CodedTicks(ticks, m.fragments[i..], id, default) ==
                CodedTicks(sound.value.ticks, m.fragments, id, default)
    {
      assert m.fragments[i..][1..] == m.fragments[i + 1..];
      var fragmentTicks := Mp4FragmentTicks(m.fragments[i], id, default);
      if fragmentTicks == None {
        return None;
      }
      var sum := Add64(ticks, fragmentTicks.value);
      if sum.1 != 0 {
        return None;
      }
      ticks := sum.0;
    }
    if ticks == 0 {
      return None;
    }
    return Some((ticks, sound.value.timescale));
  }

  /** A second sound track stays a second sound track. */
  lemma {:induction false} ManySounds(tracks: seq<Track>, i: nat)
    requires i <= |tracks| && |SoundTracks(tracks[..i])| >= 2
    ensures |SoundTracks(tracks)| >= 2
    decreases |tracks| - i
  {
    if i < |tracks| {
      assert tracks[..i + 1][..i] == tracks[..i];
      ManySounds(tracks, i + 1);
    } else {
      assert tracks[..i] == tracks;
    }
  }
}
