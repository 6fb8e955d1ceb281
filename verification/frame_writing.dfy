// MPEG audio and ADTS streams written frame by frame, and what the readers count.

/** Whole frames one after another, in whatever header format. */
module StreamWriting {
  import opened Base
  import opened Words
  import opened FrameStream

  function Joined(frames: seq<seq<byte>>): seq<byte>
  {
    if frames == [] then [] else frames[0] + Joined(frames[1..])
  }

  /** A frame's bytes say how long they are, whatever follows them, and begin with a sync byte. */
  ghost predicate SelfDelimiting(header: Header, frame: seq<byte>, samples: nat, rate: nat)
  {
    && frame != [] && frame[0] == 0xff
    && forall rest ::
         var f := header(frame + rest);
         f.Some? && f.value.length == |frame| && f.value.samples == samples && f.value.rate == rate
  }

  /** What may stand after the last frame. */
  predicate Ending(rest: seq<byte>)
  {
    || rest == []
    || (|rest| == 128 && [0x54, 0x41, 0x47] <= rest)
    || [0x41, 0x50, 0x45, 0x54, 0x41, 0x47, 0x45, 0x58] <= rest
    || [0x4c, 0x59, 0x52, 0x49, 0x43, 0x53, 0x42, 0x45, 0x47, 0x49, 0x4e] <= rest
  }

  lemma SyncIsNoTag(data: seq<byte>)
    requires data != [] && data[0] == 0xff
    ensures !TrailingTag(data)
  {
  }

  lemma OneMore(samples: nat, n: nat)
    requires n > 0
    ensures samples * n == samples + samples * (n - 1)
  {
  }

  lemma FrameRead(header: Header, frame: seq<byte>, rest: seq<byte>, samples: nat, rate: nat)
    requires SelfDelimiting(header, frame, samples, rate)
    ensures var f := header(frame + rest);
            f.Some? && f.value.length == |frame| && f.value.samples == samples && f.value.rate == rate
    ensures !TrailingTag(frame + rest)
  {
    hide TrailingTag;
    SyncIsNoTag(frame + rest);
  }

  /** Frames of one rate are counted to the last, and an ending is not. */
  lemma {:induction false} FramesCounted(header: Header, before: seq<byte>, frames: seq<seq<byte>>, ending: seq<byte>,
                                         samples: nat, rate: nat)
    requires Ending(ending) && forall f | f in frames :: SelfDelimiting(header, f, samples, rate)
    ensures Rest(header, before + Joined(frames) + ending, |before|, rate) == Some(samples * |frames|)
    decreases |frames|
  {
    hide TrailingTag;
    hide SelfDelimiting;
    hide Rest;
    var data := before + Joined(frames) + ending;
    if frames == [] {
      assert data[|before|..] == ending;
      EndingEnds(ending);
      RestEnd(header, data, |before|, rate);
      if ending != [] {
        RestStep(header, data, |before|, rate);
      }
    } else {
      var first, rest := frames[0], Joined(frames[1..]) + ending;
      assert first in frames && forall f | f in frames[1..] :: f in frames;
      assert data == before + (first + rest);
      assert data[|before|..] == first + rest;
      FrameRead(header, first, rest, samples, rate);
      FramesCounted(header, before + first, frames[1..], ending, samples, rate);
      assert before + first + Joined(frames[1..]) + ending == data;
      RestStep(header, data, |before|, rate);
      OneMore(samples, |frames|);
    }
  }

  lemma EndingEnds(rest: seq<byte>)
    requires Ending(rest)
    ensures rest == [] || TrailingTag(rest)
  {
  }

  // ----- an ID3v2 tag -----

  /** A size below 2^28 in seven bits of four bytes. */
  function Synchsafe(n: nat): (s: seq<byte>)
    requires n < 0x1000_0000
    ensures |s| == 4
  {
    [n / 0x20_0000, n / 0x4000 % 0x80, n / 0x80 % 0x80, n % 0x80]
  }

  lemma SynchsafeReadsBack(n: nat)
    requires n < 0x1000_0000
    ensures var s := Synchsafe(n);
            (s[0] as int) % 0x80 * 0x20_0000 + (s[1] as int) % 0x80 * 0x4000 + (s[2] as int) % 0x80 * 0x80 + (s[3] as int) % 0x80 == n
  {
    assert n / 0x80 / 0x80 == n / 0x4000 && n / 0x4000 / 0x80 == n / 0x20_0000;
  }

  /** A leading tag, with its footer if it says it has one, is skipped whole. */
  lemma TagIsSkipped(version: seq<byte>, flags: byte, body: seq<byte>, footer: seq<byte>, stream: seq<byte>)
    requires |version| == 2 && |body| < 0x1000_0000
    requires |footer| == if flags / 0x10 % 2 == 1 then 10 else 0
    ensures SkipId3v2([0x49, 0x44, 0x33] + version + [flags] + Synchsafe(|body|) + (body + footer + stream)) == stream
  {
    hide Synchsafe;
    var size := Synchsafe(|body|);
    var data := [0x49, 0x44, 0x33] + version + [flags] + size + (body + footer + stream);
    assert data[..3] == ID3 && data[5] == flags;
    assert data[6] == size[0] && data[7] == size[1] && data[8] == size[2] && data[9] == size[3];
    SynchsafeReadsBack(|body|);
    assert Id3Length(data) == 10 + |body| + |footer|;
    assert data[10 + |body| + |footer|..] == stream;
  }

  /** Bytes that do not open with a tag are left whole. */
  lemma NoTagIsSkipped(data: seq<byte>)
    requires !([0x49, 0x44, 0x33] <= data) || |data| < 10
    ensures SkipId3v2(data) == data
  {
    if |data| >= 10 {
      assert [0x49, 0x44, 0x33] <= data <==> data[..3] == ID3;
    }
  }
}

module MpegWriting {
  import opened Base
  import opened Words
  import opened FrameStream
  import opened Mpeg
  import opened StreamWriting

  datatype Version = Mpeg25 | Reserved | Mpeg2 | Mpeg1

  /** The fields of a frame header. */
  datatype Fields = Fields(
    version: Version, layer: nat, guarded: bool, bitrate: nat, frequency: nat, padded: bool, private: bool,
    channels: nat, rest: nat)

  predicate Writable(f: Fields)
  {
    1 <= f.layer <= 4 && f.bitrate < 16 && f.frequency < 4 && f.channels < 4 && f.rest < 0x40
  }

  /** Neither free format nor a reserved value. */
  predicate Legal(f: Fields)
  {
    f.version != Reserved && f.layer <= 3 && 1 <= f.bitrate <= 14 && f.frequency <= 2
  }

  /** Eleven sync bits, then the fields, each in its bits. */
  function WriteHeader(f: Fields): (s: seq<byte>)
    requires Writable(f)
    ensures |s| == 4
  {
    [0xff, 0xe0 + VersionBits(f.version) * 8 + (4 - f.layer) * 2 + Bit(!f.guarded),
     f.bitrate * 0x10 + f.frequency * 4 + Bit(f.padded) * 2 + Bit(f.private), f.channels * 0x40 + f.rest]
  }

  function VersionBits(v: Version): (n: nat)
    ensures n < 4
  {
    match v case Mpeg25 => 0 case Reserved => 1 case Mpeg2 => 2 case Mpeg1 => 3
  }

  function Bit(b: bool): (n: nat)
    ensures n < 2
  {
    if b then 1 else 0
  }

  /** Samples a second: MPEG-1's three frequencies, halved for MPEG-2 and again for 2.5. */
  function Frequency(f: Fields): (n: nat)
    requires Writable(f) && Legal(f)
    ensures 8000 <= n <= if f.version == Mpeg1 then 48_000 else 24_000
  {
    var full: nat := if f.frequency == 0 then 44_100 else if f.frequency == 1 then 48_000 else 32_000;
    if f.version == Mpeg1 then full else if f.version == Mpeg2 then full / 2 else full / 4
  }

  function Power(n: nat): nat { if n == 0 then 1 else 2 * Power(n - 1) }

  /** Four even steps to each doubling, from 32. */
  function Scale(k: nat): nat { 8 * (4 + k % 4) * Power(k / 4) }

  lemma ScaleBound(k: nat)
    ensures Scale(k) >= 32
  {
    PowerBound(k / 4);
    MulMonotone(1, Power(k / 4), 8 * (4 + k % 4));
  }

  lemma {:induction false} PowerBound(n: nat)
    ensures Power(n) >= 1
  {
    if n > 0 {
      PowerBound(n - 1);
    }
  }

  /** Kilobits a second by index: each table of the standard as its rule. */
  function Kilobits(f: Fields): (n: nat)
    requires Writable(f) && Legal(f)
    ensures n >= if f.version == Mpeg1 || f.layer == 1 then 32 else 8
  {
    ScaleBound(f.bitrate);
    ScaleBound(f.bitrate - 1);
    var i := f.bitrate;
    if f.version == Mpeg1 then
      if f.layer == 1 then 32 * i
      else if f.layer == 2 then if i == 1 then 32 else Scale(i)
      else Scale(i - 1)
    else if f.layer == 1 then
      if i == 1 then 32 else if i <= 4 then 32 + 8 * i else if i <= 12 then 16 * i else 32 * i - 192
    else if i <= 8 then 8 * i else 16 * i - 64
  }

  function Samples(f: Fields): (n: nat)
    requires Writable(f) && Legal(f)
    ensures 0 < n <= 1152
  {
    if f.layer == 1 then 384 else if f.layer == 2 || f.version == Mpeg1 then 1152 else 576
  }

  /** Layer I counts its length in slots of four bytes. */
  function Slot(f: Fields): nat { if f.layer == 1 then 4 else 1 }

  lemma Rates(f: Fields)
    requires Writable(f) && Legal(f)
    ensures SAMPLE_RATES[VersionBits(f.version)][f.frequency] == Frequency(f) >= 8000
  {
    match f.version {
      case Mpeg25 => assert SAMPLE_RATES[0] == [11025, 12000, 8000];
      case Mpeg2 => assert SAMPLE_RATES[2] == [22050, 24000, 16000];
      case Mpeg1 => assert SAMPLE_RATES[3] == [44100, 48000, 32000];
    }
  }

  /** Every entry of the tables follows its rule. */
  lemma Bitrates(f: Fields)
    requires Writable(f) && Legal(f)
    ensures BITRATES[if f.version == Mpeg1 then 0 else 1][f.layer - 1][f.bitrate] == Kilobits(f) >= 8
  {
    var i := f.bitrate;
    assert Power(0) == 1 && Power(1) == 2 && Power(2) == 4 && Power(3) == 8;
    if f.version == Mpeg1 {
      if f.layer == 1 {
        FirstTable(i);
      } else if f.layer == 2 {
        SecondTable(i);
      } else {
        ThirdTable(i);
      }
    } else if f.layer == 1 {
      LowFirstTable(i);
    } else {
      LowTable(i, f.layer);
    }
  }

  lemma FirstTable(i: nat)
    requires 1 <= i <= 14
    ensures BITRATES[0][0][i] == 32 * i
  {
  }

  lemma SecondTable(i: nat)
    requires 1 <= i <= 14
    ensures BITRATES[0][1][i] == if i == 1 then 32 else Scale(i)
  {
    assert Power(0) == 1 && Power(1) == 2 && Power(2) == 4 && Power(3) == 8;
  }

  lemma ThirdTable(i: nat)
    requires 1 <= i <= 14
    ensures BITRATES[0][2][i] == Scale(i - 1)
  {
    assert Power(0) == 1 && Power(1) == 2 && Power(2) == 4 && Power(3) == 8;
  }

  lemma LowFirstTable(i: nat)
    requires 1 <= i <= 14
    ensures BITRATES[1][0][i] == if i == 1 then 32 else if i <= 4 then 32 + 8 * i else if i <= 12 then 16 * i else 32 * i - 192
  {
  }

  lemma LowTable(i: nat, layer: nat)
    requires 1 <= i <= 14 && 2 <= layer <= 3
    ensures BITRATES[1][layer - 1][i] == if i <= 8 then 8 * i else 16 * i - 64
  {
  }

  /** The bits of a written header come apart again. */
  lemma HeaderBits(f: Fields)
    requires Writable(f)
    ensures var s := WriteHeader(f);
            && s[0] == 0xff && s[1] / 0x20 == 7 && s[1] / 8 % 4 == VersionBits(f.version) && 4 - s[1] / 2 % 4 == f.layer
            && (s[1] % 2 == 0 <==> f.guarded)
            && s[2] / 16 == f.bitrate && s[2] / 4 % 4 == f.frequency && s[2] / 2 % 2 == Bit(f.padded)
            && s[3] / 0x40 == f.channels
  {
  }

  /** The side information of a Layer III frame: MPEG-1 or later, mono or not. */
  function SideInfo(f: Fields): nat
  {
    var mono := f.channels == 3;
    if f.version == Mpeg1 then (if mono then 17 else 32) else (if mono then 9 else 17)
  }

  function Share(n: nat, d: nat): (q: nat)
    requires d > 0
    ensures q == n / d
  {
    DivBounds(n, d, n / d, n % d);
    n / d
  }

  /** A length in bytes: whole slots of the frame's share of the bitrate, and one more if padded. */
  function Length(f: Fields): nat
    requires Writable(f) && Legal(f)
  {
    hide Kilobits;
    hide Frequency;
    Slot(f) * (Share(Samples(f) * Kilobits(f) * 1000, 8 * Slot(f) * Frequency(f)) + Bit(f.padded))
  }

  lemma Cancel(c: nat, n: nat, d: nat)
    requires c > 0 && d > 0
    ensures c * d > 0 && c * n / (c * d) == n / d
  {
    var q, r := n / d, n % d;
    assert n == q * d + r;
    assert c * n == q * (c * d) + c * r;
    MulMonotone(r + 1, d, c);
    assert c * r < c * d;
    ModUnique(c * n, q, c * r, c * d);
  }

  lemma AtLeast(n: nat, d: nat, q: nat)
    requires d > 0 && n >= q * d
    ensures n / d >= q
  {
    if n / d < q {
      MulMonotone(n / d + 1, q, d);
    }
  }

  lemma LengthByLayer(f: Fields)
    requires Writable(f) && Legal(f)
    ensures Length(f) ==
            if f.layer == 1 then (12 * (Kilobits(f) * 1000) / Frequency(f) + Bit(f.padded)) * 4
            else if f.layer == 2 || f.version == Mpeg1 then 144 * (Kilobits(f) * 1000) / Frequency(f) + Bit(f.padded)
            else 72 * (Kilobits(f) * 1000) / Frequency(f) + Bit(f.padded)
    ensures Length(f) >= 24
  {
    hide Kilobits;
    hide Frequency;
    hide Length;
    hide Kilobits;
    hide Frequency;
    var n, d := Kilobits(f) * 1000, Frequency(f);
    var k := if f.layer == 1 then 12 else if f.layer == 2 || f.version == Mpeg1 then 144 else 72;
    Shares(f, k, n, d);
    var q := if f.layer == 1 then 8 else 24;
    assert k * n >= q * d;
    AtLeast(k * n, d, q);
  }

  lemma Shares(f: Fields, k: nat, n: nat, d: nat)
    requires Writable(f) && Legal(f) && n == Kilobits(f) * 1000 && d == Frequency(f)
    requires k == if f.layer == 1 then 12 else if f.layer == 2 || f.version == Mpeg1 then 144 else 72
    ensures Length(f) == Slot(f) * (k * n / d + Bit(f.padded))
  {
    hide Kilobits;
    hide Frequency;
    var c := 8 * Slot(f);
    assert Samples(f) == c * k;
    Regroup(c, k, Kilobits(f));
    Cancel(c, k * n, d);
  }

  lemma Regroup(c: nat, k: nat, b: nat)
    ensures c * k * b * 1000 == c * (k * (b * 1000))
  {
  }

  /** A written header reads as the frame its fields describe; free format and every reserved value are refused. */
  lemma HeaderReadsBack(f: Fields, rest: seq<byte>)
    requires Writable(f)
    ensures var read := ParseFrame(WriteHeader(f) + rest);
            && (read.Some? <==> Legal(f))
            && (read.Some? ==>
                  && read.value.frame.length == Length(f)
                  && read.value.frame.samples == Samples(f)
                  && read.value.frame.rate == Frequency(f)
                  && read.value.headerOffset == 4 + (if f.guarded then 2 else 0) + SideInfo(f)
                  && read.value.layer3 == (f.layer == 3))
  {
    hide WriteHeader;
    hide Kilobits;
    hide Frequency;
    hide Length;
    HeaderBits(f);
    var data := WriteHeader(f) + rest;
    assert data[0] == WriteHeader(f)[0] && data[1] == WriteHeader(f)[1] && data[2] == WriteHeader(f)[2] && data[3] == WriteHeader(f)[3];
    if Legal(f) {
      Rates(f);
      Bitrates(f);
      LengthByLayer(f);
    }
  }

  // ----- whole streams -----

  /** A frame: its header's fields and the bytes after them. */
  datatype WrittenFrame = WrittenFrame(fields: Fields, payload: seq<byte>)

  /** A frame of as many bytes as its header says. */
  predicate Whole(w: WrittenFrame)
  {
    Writable(w.fields) && Legal(w.fields) && 4 + |w.payload| == Length(w.fields)
  }

  function WriteFrame(w: WrittenFrame): seq<byte>
    requires Writable(w.fields)
  {
    WriteHeader(w.fields) + w.payload
  }

  function Frames(ws: seq<WrittenFrame>): (r: seq<seq<byte>>)
    requires forall w | w in ws :: Writable(w.fields)
    ensures |r| == |ws| && forall i | 0 <= i < |r| :: r[i] == WriteFrame(ws[i])
  {
    seq(|ws|, i requires 0 <= i < |ws| => WriteFrame(ws[i]))
  }

  lemma FrameDelimits(w: WrittenFrame)
    requires Whole(w)
    ensures SelfDelimiting(MpegHeader, WriteFrame(w), Samples(w.fields), Frequency(w.fields))
  {
    hide ParseFrame;
    hide Length;
    hide Samples;
    hide Frequency;
    var frame := WriteFrame(w);
    assert frame[0] == WriteHeader(w.fields)[0];
    forall rest
      ensures var f := MpegHeader(frame + rest);
              f.Some? && f.value.length == |frame| && f.value.samples == Samples(w.fields) && f.value.rate == Frequency(w.fields)
    {
      assert frame + rest == WriteHeader(w.fields) + (w.payload + rest);
      HeaderReadsBack(w.fields, w.payload + rest);
    }
  }

  /** The leading frame holds metadata: a mark after its side information, or VBRI after 32 bytes. */
  predicate Metadata(w: WrittenFrame, rest: seq<byte>)
    requires Writable(w.fields)
  {
    var data := w.payload + rest;
    var at := (if w.fields.guarded then 2 else 0) + SideInfo(w.fields);
    && w.fields.layer == 3
    && ((at + 4 <= |data| && (data[at..at + 4] == [0x58, 0x69, 0x6e, 0x67] || data[at..at + 4] == [0x49, 0x6e, 0x66, 0x6f]))
        || (36 <= |data| && data[32..36] == [0x56, 0x42, 0x52, 0x49]))
  }

  lemma MetadataRead(w: WrittenFrame, rest: seq<byte>)
    requires Writable(w.fields) && Legal(w.fields)
    ensures var f := ParseFrame(WriteFrame(w) + rest);
            f.Some? && (IsVbrHeaderFrame(f.value, WriteFrame(w) + rest) <==> Metadata(w, rest))
  {
    hide ParseFrame;
    hide Length;
    hide Samples;
    hide Frequency;
    var head, tail := WriteHeader(w.fields), w.payload + rest;
    assert WriteFrame(w) + rest == head + tail;
    HeaderReadsBack(w.fields, tail);
    var at := (if w.fields.guarded then 2 else 0) + SideInfo(w.fields);
    assert at + 4 <= |tail| ==> (head + tail)[4 + at..8 + at] == tail[at..at + 4];
    assert 36 <= |tail| ==> (head + tail)[36..40] == tail[32..36];
  }

  /** Frames of one version, layer and frequency, of any bitrates. */
  predicate Alike(ws: seq<WrittenFrame>)
  {
    forall w | w in ws ::
      Whole(w) && w.fields.version == ws[0].fields.version && w.fields.layer == ws[0].fields.layer
      && w.fields.frequency == ws[0].fields.frequency
  }

  /** The frames that play: all but a leading one of metadata. */
  function Counted(ws: seq<WrittenFrame>, ending: seq<byte>): (n: nat)
    requires ws != [] && Alike(ws)
    ensures n <= |ws|
  {
    assert ws[0] in ws;
    assert forall w | w in ws[1..] :: w in ws;
    if Metadata(ws[0], Joined(Frames(ws[1..])) + ending) then |ws| - 1 else |ws|
  }

  /**
   * A written stream answers its frames' samples, a leading metadata frame not
   * counted, in its frequency; nothing is left of a metadata frame alone.
   */
  lemma {:induction false} WrittenStream(data: seq<byte>, ws: seq<WrittenFrame>, ending: seq<byte>)
    requires ws != [] && Alike(ws) && Ending(ending)
    requires SkipId3v2(data) == Joined(Frames(ws)) + ending
    ensures Duration(data) ==
            if Counted(ws, ending) == 0 then None
            else Some((Samples(ws[0].fields) * Counted(ws, ending), Frequency(ws[0].fields)))
  {
    hide ParseFrame;
    hide Whole;
    hide Samples;
    hide Frequency;
    hide IsVbrHeaderFrame;
    hide Metadata;
    hide WriteFrame;
    hide Rest;
    hide SkipId3v2;
    hide Alike;
    hide Joined;
    hide Frames;
    StreamParts(ws, ending);
    assert Legal(ws[0].fields) by {
      WholeIsLegal(ws[0]);
    }
    MetadataRead(ws[0], Joined(Frames(ws[1..])) + ending);
    var samples := Samples(ws[0].fields);
    OneMore(samples, |ws|);
  }

  lemma WholeIsLegal(w: WrittenFrame)
    requires Whole(w)
    ensures Writable(w.fields) && Legal(w.fields)
  {
  }

  /** The stream is its first frame and the count of the others. */
  lemma StreamParts(ws: seq<WrittenFrame>, ending: seq<byte>)
    requires ws != [] && Alike(ws) && Ending(ending)
    ensures (forall w | w in ws :: Writable(w.fields)) && (forall w | w in ws[1..] :: Writable(w.fields)) && Whole(ws[0])
    ensures var stream, frame := Joined(Frames(ws)) + ending, WriteFrame(ws[0]);
            && stream == frame + (Joined(Frames(ws[1..])) + ending)
            && ParseFrame(stream).Some?
            && var f := ParseFrame(stream).value.frame;
            && f.length == |frame| && f.samples == Samples(ws[0].fields) && f.rate == Frequency(ws[0].fields)
            && Rest(MpegHeader, stream, f.length, f.rate) == Some(f.samples * (|ws| - 1))
  {
    hide ParseFrame;
    hide Length;
    hide Samples;
    hide Frequency;
    hide WriteFrame;
    hide Rest;
    hide SelfDelimiting;
    var samples, rate := Samples(ws[0].fields), Frequency(ws[0].fields);
    FramesDelimit(ws);
    var frame, rest := WriteFrame(ws[0]), Joined(Frames(ws[1..])) + ending;
    assert Frames(ws)[1..] == Frames(ws[1..]);
    assert Joined(Frames(ws)) + ending == frame + rest;
    FrameRead(MpegHeader, frame, rest, samples, rate);
    FramesCounted(MpegHeader, frame, Frames(ws[1..]), ending, samples, rate);
    assert frame + Joined(Frames(ws[1..])) + ending == frame + rest;
  }

  lemma FramesDelimit(ws: seq<WrittenFrame>)
    requires ws != [] && Alike(ws)
    ensures forall f | f in Frames(ws) :: SelfDelimiting(MpegHeader, f, Samples(ws[0].fields), Frequency(ws[0].fields))
    ensures forall f | f in Frames(ws[1..]) :: f in Frames(ws)
    ensures Whole(ws[0]) && Frames(ws)[0] == WriteFrame(ws[0])
    ensures SelfDelimiting(MpegHeader, WriteFrame(ws[0]), Samples(ws[0].fields), Frequency(ws[0].fields))
  {
    hide SelfDelimiting;
    hide Length;
    hide WriteFrame;
    assert ws[0] in ws;
    forall i | 0 <= i < |ws|
      ensures SelfDelimiting(MpegHeader, WriteFrame(ws[i]), Samples(ws[0].fields), Frequency(ws[0].fields))
    {
      assert ws[i] in ws;
      FrameDelimits(ws[i]);
    }
    forall f | f in Frames(ws[1..])
      ensures f in Frames(ws)
    {
      var i :| 0 <= i < |ws| - 1 && Frames(ws[1..])[i] == f;
      assert Frames(ws)[i + 1] == f;
    }
  }
}

module AdtsWriting {
  import opened Base
  import opened Words
  import opened FrameStream
  import opened Adts
  import opened StreamWriting

  /** The fields of an ADTS header: the reader takes frequency, length and blocks. */
  datatype Fields = Fields(mpeg2: bool, guarded: bool, profile: nat, frequency: nat, channels: nat, flags: nat,
                           fullness: nat, blocks: nat)

  predicate Writable(f: Fields)
  {
    f.profile < 4 && f.frequency < 16 && f.channels < 8 && f.flags < 0x20 && f.fullness < 0x800 && f.blocks < 4
  }

  function Bit(b: bool): (n: nat)
    ensures n < 2
  {
    if b then 1 else 0
  }

  /** Seven bytes; the length takes thirteen bits over three of them. */
  function WriteHeader(f: Fields, length: nat): (s: seq<byte>)
    requires Writable(f) && length < 0x2000
    ensures |s| == 7
  {
    [0xff, 0xf0 + Bit(f.mpeg2) * 8 + Bit(!f.guarded), f.profile * 0x40 + f.frequency * 4 + (f.flags % 2 * 2 + f.channels / 4),
     f.channels % 4 * 0x40 + f.flags / 2 * 4 + length / 0x800, length / 8 % 0x100, length % 8 * 0x20 + f.fullness / 0x40,
     f.fullness % 0x40 * 4 + f.blocks]
  }

  /** Three frequencies halved down four octaves, and 7350. */
  function Frequency(index: nat): (n: nat)
    requires index < 13
    ensures n >= 7_350
  {
    var full: nat := if index % 3 == 0 then 96_000 else if index % 3 == 1 then 88_200 else 64_000;
    if index == 12 then 7_350
    else if index < 3 then full else if index < 6 then full / 2 else if index < 9 then full / 4 else full / 8
  }

  lemma Frequencies(index: nat)
    requires index < 13
    ensures |SAMPLE_RATES| == 13 && SAMPLE_RATES[index] == Frequency(index)
  {
  }

  function Samples(blocks: nat): nat { 1024 * (blocks + 1) }

  lemma HeaderBits(f: Fields, length: nat)
    requires Writable(f) && length < 0x2000
    ensures var s := WriteHeader(f, length);
            && s[0] == 0xff && s[1] / 16 == 15 && s[1] / 2 % 4 == 0 && s[2] / 4 % 16 == f.frequency
            && (s[3] as int) % 4 * 2048 + (s[4] as int) * 8 + s[5] / 32 == length && s[6] % 4 == f.blocks
  {
    FlagBits(f);
    LengthBits(f, length);
  }

  lemma FlagBits(f: Fields)
    requires Writable(f)
    ensures var b := 0xf0 + Bit(f.mpeg2) * 8 + Bit(!f.guarded); b / 16 == 15 && b / 2 % 4 == 0
    ensures (f.profile * 0x40 + f.frequency * 4 + (f.flags % 2 * 2 + f.channels / 4)) / 4 % 16 == f.frequency
    ensures (f.fullness % 0x40 * 4 + f.blocks) % 4 == f.blocks
  {
    SixthBits(f.profile, f.frequency, f.flags % 2 * 2 + f.channels / 4);
    FirstBits(Bit(f.mpeg2), Bit(!f.guarded));
  }

  lemma FirstBits(a: nat, b: nat)
    requires a < 2 && b < 2
    ensures (0xf0 + a * 8 + b) / 16 == 15 && (0xf0 + a * 8 + b) / 2 % 4 == 0
  {
  }

  lemma SixthBits(high: nat, middle: nat, low: nat)
    requires high < 4 && middle < 16 && low < 4
    ensures (high * 0x40 + middle * 4 + low) / 4 % 16 == middle
  {
    assert (high * 0x40 + middle * 4 + low) / 4 == high * 16 + middle;
  }

  lemma LengthBits(f: Fields, length: nat)
    requires Writable(f) && length < 0x2000
    ensures (f.channels % 4 * 0x40 + f.flags / 2 * 4 + length / 0x800) % 4 == length / 0x800
    ensures (length % 8 * 0x20 + f.fullness / 0x40) / 32 == length % 8
    ensures length / 0x800 * 2048 + length / 8 % 0x100 * 8 + length % 8 == length
  {
    assert length / 8 / 0x100 == length / 0x800;
  }

  /** A written header reads as its length, 1024 samples a block and its frequency. */
  lemma HeaderReadsBack(f: Fields, length: nat, rest: seq<byte>)
    requires Writable(f) && length < 0x2000
    ensures AdtsHeader(WriteHeader(f, length) + rest) ==
            if f.frequency < 13 && length >= 7 then Some(RawFrame(length, Samples(f.blocks), Frequency(f.frequency))) else None
  {
    hide WriteHeader;
    hide Frequency;
    var head := WriteHeader(f, length);
    var data := head + rest;
    HeaderBits(f, length);
    assert forall i | 0 <= i < 7 :: data[i] == head[i];
    if f.frequency < 13 {
      Frequencies(f.frequency);
    } else {
      Frequencies(0);
    }
  }

  // ----- whole streams -----

  /** A frame: its header's fields and the bytes after them. */
  datatype WrittenFrame = WrittenFrame(fields: Fields, payload: seq<byte>)

  predicate Whole(w: WrittenFrame)
  {
    Writable(w.fields) && w.fields.frequency < 13 && 7 + |w.payload| < 0x2000
  }

  function WriteFrame(w: WrittenFrame): (s: seq<byte>)
    requires Whole(w)
    ensures |s| == 7 + |w.payload|
  {
    WriteHeader(w.fields, 7 + |w.payload|) + w.payload
  }

  function Frames(ws: seq<WrittenFrame>): (r: seq<seq<byte>>)
    requires forall w | w in ws :: Whole(w)
    ensures |r| == |ws| && forall i | 0 <= i < |r| :: r[i] == WriteFrame(ws[i])
  {
    seq(|ws|, i requires 0 <= i < |ws| => WriteFrame(ws[i]))
  }

  lemma FrameDelimits(w: WrittenFrame)
    requires Whole(w)
    ensures SelfDelimiting(AdtsHeader, WriteFrame(w), Samples(w.fields.blocks), Frequency(w.fields.frequency))
  {
    hide AdtsHeader;
    hide Frequency;
    var frame, head := WriteFrame(w), WriteHeader(w.fields, 7 + |w.payload|);
    assert frame[0] == head[0];
    forall rest
      ensures AdtsHeader(frame + rest) == Some(RawFrame(|frame|, Samples(w.fields.blocks), Frequency(w.fields.frequency)))
    {
      assert frame + rest == head + (w.payload + rest);
      HeaderReadsBack(w.fields, |frame|, w.payload + rest);
    }
  }

  /** The samples of frames of so many further blocks each. */
  function Total(ws: seq<WrittenFrame>, blocks: nat): nat { Samples(blocks) * |ws| }

  /** A written stream of one frequency and block count answers 1024 samples for every block. */
  lemma {:induction false} WrittenStream(ws: seq<WrittenFrame>, ending: seq<byte>, frequency: nat, blocks: nat)
    requires ws != [] && Ending(ending) && frequency < 13
    requires forall w | w in ws :: Whole(w) && w.fields.frequency == frequency && w.fields.blocks == blocks
    ensures Duration(Joined(Frames(ws)) + ending) == Some((Total(ws, blocks), Frequency(frequency)))
  {
    hide AdtsHeader;
    hide Frequency;
    hide WriteFrame;
    hide Rest;
    hide SelfDelimiting;
    var samples, rate := Samples(blocks), Frequency(frequency);
    forall i | 0 <= i < |ws|
      ensures SelfDelimiting(AdtsHeader, Frames(ws)[i], samples, rate)
    {
      assert ws[i] in ws;
      FrameDelimits(ws[i]);
    }
    var frames := Frames(ws);
    var frame, rest := frames[0], Joined(frames[1..]) + ending;
    assert forall f | f in frames[1..] :: f in frames;
    assert Joined(frames) + ending == frame + rest;
    FrameRead(AdtsHeader, frame, rest, samples, rate);
    FramesCounted(AdtsHeader, frame, frames[1..], ending, samples, rate);
    assert frame + Joined(frames[1..]) + ending == frame + rest;
    OneMore(samples, |ws|);
  }
}
