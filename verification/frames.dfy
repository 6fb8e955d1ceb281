// Counting the frames of a raw MPEG audio or ADTS stream
// (internal/audioprobe/mpeg.go), and the optional ID3v2 tag before one.

/** A stream of self-delimiting frames, whatever their header format. */
module FrameStream {
  import opened Base
  import opened Words

  datatype RawFrame = RawFrame(length: nat, samples: nat, rate: nat)

  /** A frame always advances the stream and carries at most 4096 samples. */
  type Frame = f: RawFrame | 0 < f.length && 0 < f.samples <= 4096 witness RawFrame(1, 1, 0)

  /** Reads the frame at the start of some bytes. */
  type Header = seq<byte> -> Option<Frame>

  const TAG: seq<byte> := [0x54, 0x41, 0x47]
  const APETAGEX: seq<byte> := [0x41, 0x50, 0x45, 0x54, 0x41, 0x47, 0x45, 0x58]
  const LYRICSBEGIN: seq<byte> := [0x4c, 0x59, 0x52, 0x49, 0x43, 0x53, 0x42, 0x45, 0x47, 0x49, 0x4e]

  /** Metadata after the last frame: ID3v1, APE or Lyrics3. */
  predicate TrailingTag(rest: seq<byte>)
  {
    (|rest| == 128 && TAG <= rest) || APETAGEX <= rest || LYRICSBEGIN <= rest
  }

  /** The samples of the frames from an offset on, all at one rate; the stream has begun. */
  function Rest(header: Header, data: seq<byte>, offset: nat, rate: nat): Option<nat>
    decreases |data| - offset
  {
    if offset >= |data| || TrailingTag(data[offset..]) then Some(0)
    else
      match header(data[offset..])
      case None => None
      case Some(f) =>
        if f.rate != rate then None
        else
          match Rest(header, data, offset + f.length, rate)
          case None => None
          case Some(samples) => Some(f.samples + samples)
  }

  lemma RestStep(header: Header, data: seq<byte>, offset: nat, rate: nat)
    requires offset < |data|
    ensures Rest(header, data, offset, rate) ==
            if TrailingTag(data[offset..]) then Some(0)
            else
              match header(data[offset..])
              case None => None
              case Some(f) =>
                if f.rate != rate then None
                else
                  match Rest(header, data, offset + f.length, rate)
                  case None => None
                  case Some(samples) => Some(f.samples + samples)
  {
  }

  lemma RestEnd(header: Header, data: seq<byte>, offset: nat, rate: nat)
    ensures offset >= |data| ==> Rest(header, data, offset, rate) == Some(0)
  {
  }

  // ----- tilings -----

  /** A frame of the given rate runs from one offset to the next. */
  predicate TileAt(header: Header, data: seq<byte>, from: nat, to: nat, rate: nat)
  {
    && from < |data| && !TrailingTag(data[from..])
    && var f := header(data[from..]);
    f.Some? && f.value.rate == rate && to == from + f.value.length
  }

  /**
   * Cut points from an offset: a frame of the given rate runs from each cut to
   * the next, no tag interrupts them, and the last cut is the end or a tag.
   * Only the last frame can overrun the bytes.
   */
  predicate Tiles(header: Header, data: seq<byte>, cuts: seq<nat>, rate: nat)
  {
    && cuts != []
    && (forall i | 0 <= i < |cuts| - 1 :: TileAt(header, data, cuts[i], cuts[i + 1], rate))
    && (cuts[|cuts| - 1] < |data| ==> TrailingTag(data[cuts[|cuts| - 1]..]))
  }

  /** The samples of the frames between consecutive cuts. */
  function TiledSamples(header: Header, data: seq<byte>, cuts: seq<nat>): nat
  {
    if |cuts| <= 1 then 0
    else
      (if cuts[0] < |data| && header(data[cuts[0]..]).Some? then header(data[cuts[0]..]).value.samples else 0)
      + TiledSamples(header, data, cuts[1..])
  }

  /** Counting accepts only a tiling. */
  lemma {:induction false} RestIsTiled(header: Header, data: seq<byte>, offset: nat, rate: nat) returns (cuts: seq<nat>)
    requires Rest(header, data, offset, rate).Some?
    ensures Tiles(header, data, cuts, rate) && cuts[0] == offset
    ensures TiledSamples(header, data, cuts) == Rest(header, data, offset, rate).value
    decreases |data| - offset
  {
    hide TrailingTag;
    if offset >= |data| || TrailingTag(data[offset..]) {
      cuts := [offset];
    } else {
      var f := header(data[offset..]).value;
      var tail := RestIsTiled(header, data, offset + f.length, rate);
      cuts := [offset] + tail;
      assert cuts[1..] == tail;
      assert forall i | 0 < i < |cuts| :: cuts[i] == tail[i - 1];
    }
  }

  /** Every tiling is counted, so there is only one total. */
  lemma {:induction false} TiledIsCounted(header: Header, data: seq<byte>, cuts: seq<nat>, rate: nat)
    requires Tiles(header, data, cuts, rate)
    ensures Rest(header, data, cuts[0], rate) == Some(TiledSamples(header, data, cuts))
    decreases |cuts|
  {
    hide TrailingTag;
    if |cuts| > 1 {
      var tail := cuts[1..];
      assert TileAt(header, data, cuts[0], cuts[1], rate);
      forall i | 0 <= i < |tail| - 1
        ensures TileAt(header, data, tail[i], tail[i + 1], rate)
      {
        assert TileAt(header, data, cuts[i + 1], cuts[i + 1 + 1], rate);
      }
      TiledIsCounted(header, data, tail, rate);
    }
  }

  /**
   * The frames from the start of the bytes: a first frame and the count of the
   * rest are exactly a tiling from zero with at least one frame.
   */
  lemma CountedFromStart(header: Header, data: seq<byte>, total: nat, rate: nat)
    requires header(data).Some? ==> data != [] && data[0] == 0xff
    ensures (&& header(data).Some?
             && var first := header(data).value;
             && first.rate == rate && first.samples <= total
             && Rest(header, data, first.length, rate) == Some(total - first.samples))
            <==>
            exists cuts: seq<nat> ::
              Tiles(header, data, cuts, rate) && cuts[0] == 0 && |cuts| > 1 && TiledSamples(header, data, cuts) == total
  {
    hide Tiles;
    assert data[0..] == data;
    if header(data).Some? && header(data).value.rate == rate && Rest(header, data, 0, rate) == Some(total) {
      var cuts := RestIsTiled(header, data, 0, rate);
      assert Tiles(header, data, cuts, rate);
    }
    forall cuts: seq<nat> | Tiles(header, data, cuts, rate)
      ensures cuts != [] && Rest(header, data, cuts[0], rate) == Some(TiledSamples(header, data, cuts))
      ensures cuts[0] == 0 && |cuts| > 1 ==> header(data).Some? && header(data).value.rate == rate
    {
      FirstTile(header, data, cuts, rate);
      TiledIsCounted(header, data, cuts, rate);
    }
  }

  lemma FirstTile(header: Header, data: seq<byte>, cuts: seq<nat>, rate: nat)
    requires Tiles(header, data, cuts, rate)
    ensures cuts != []
    ensures cuts[0] == 0 && |cuts| > 1 ==> header(data).Some? && header(data).value.rate == rate
  {
    assert data[0..] == data;
    assert |cuts| > 1 ==> TileAt(header, data, cuts[0], cuts[0 + 1], rate);
  }

  // ----- ID3v2 -----

  const ID3: seq<byte> := [0x49, 0x44, 0x33]

  /** The bytes a leading ID3v2 tag says it takes: header, synchsafe size, optional footer. */
  function Id3Length(data: seq<byte>): nat
    requires |data| >= 10
  {
    var footer := if data[5] / 0x10 % 2 == 1 then 10 else 0;
    10 + (data[6] as int) % 0x80 * 0x20_0000 + (data[7] as int) % 0x80 * 0x4000
    + (data[8] as int) % 0x80 * 0x80 + (data[9] as int) % 0x80 + footer
  }

  function SkipId3v2(data: seq<byte>): (rest: seq<byte>)
    ensures |rest| <= |data|
  {
    if |data| < 10 || data[..3] != ID3 then data
    else if Id3Length(data) > |data| then []
    else data[Id3Length(data)..]
  }
}

module Mpeg {
  import opened Base
  import opened Words
  import opened FrameStream

  /** Bitrates in kbit/s by MPEG-1 or not, layer and index. */
  const BITRATES: seq<seq<seq<nat>>> := [
    [[0, 32, 64, 96, 128, 160, 192, 224, 256, 288, 320, 352, 384, 416, 448, 0],
     [0, 32, 48, 56, 64, 80, 96, 112, 128, 160, 192, 224, 256, 320, 384, 0],
     [0, 32, 40, 48, 56, 64, 80, 96, 112, 128, 160, 192, 224, 256, 320, 0]],
    [[0, 32, 48, 56, 64, 80, 96, 112, 128, 144, 160, 176, 192, 224, 256, 0],
     [0, 8, 16, 24, 32, 40, 48, 56, 64, 80, 96, 112, 128, 144, 160, 0],
     [0, 8, 16, 24, 32, 40, 48, 56, 64, 80, 96, 112, 128, 144, 160, 0]]]

  /** Sample rates by version bits and index; version 1 is reserved. */
  const SAMPLE_RATES: seq<seq<nat>> := [
    [11025, 12000, 8000], [0, 0, 0], [22050, 24000, 16000], [44100, 48000, 32000]]

  datatype MpegFrame = MpegFrame(frame: Frame, headerOffset: nat, layer3: bool)

  /** One frame header; free format and every reserved value are refused. */
  function ParseFrame(header: seq<byte>): Option<MpegFrame>
  {
    if |header| < 4 || header[0] != 0xff || header[1] / 0x20 != 7 then None
    else
      var version: nat := header[1] / 8 % 4;
      var layer: nat := 4 - header[1] / 2 % 4;
      var bitrateIndex: nat := header[2] / 16;
      var rateIndex: nat := header[2] / 4 % 4;
      if version == 1 || layer == 4 || bitrateIndex == 0 || bitrateIndex == 15 || rateIndex == 3 then None
      else
        var mpeg1 := version == 3;
        var bitrate := BITRATES[if mpeg1 then 0 else 1][layer - 1][bitrateIndex] * 1000;
        var rate := SAMPLE_RATES[version][rateIndex];
        var padding: nat := header[2] / 2 % 2;
        var length :=
          if layer == 1 then (12 * bitrate / rate + padding) * 4
          else if layer == 2 || mpeg1 then 144 * bitrate / rate + padding
          else 72 * bitrate / rate + padding;
        var samples := if layer == 1 then 384 else if layer == 2 || mpeg1 then 1152 else 576;
        var mono := header[3] / 0x40 == 3;
        var sideInfo := if mpeg1 then (if mono then 17 else 32) else if mono then 9 else 17;
        if length < 4 then None
        else Some(MpegFrame(RawFrame(length, samples, rate),
                            4 + sideInfo + (if header[1] % 2 == 0 then 2 else 0), layer == 3))
  }

  const XING: seq<byte> := [0x58, 0x69, 0x6e, 0x67]
  const INFO: seq<byte> := [0x49, 0x6e, 0x66, 0x6f]
  const VBRI: seq<byte> := [0x56, 0x42, 0x52, 0x49]

  /** A Layer III metadata frame: it holds no audio. */
  predicate IsVbrHeaderFrame(f: MpegFrame, data: seq<byte>)
  {
    && f.layer3
    && var at := f.headerOffset;
    || (|data| >= at + 4 && (data[at..at + 4] == XING || data[at..at + 4] == INFO))
    || (|data| >= 40 && data[36..40] == VBRI)
  }

  function MpegHeader(data: seq<byte>): Option<Frame>
  {
    match ParseFrame(data)
    case None => None
    case Some(f) => Some(f.frame)
  }

  /** Samples and rate of a stream, its leading metadata frame not counted. */
  function Duration(data: seq<byte>): Option<(nat, nat)>
  {
    var stream := SkipId3v2(data);
    match ParseFrame(stream)
    case None => None
    case Some(first) =>
      match Rest(MpegHeader, stream, first.frame.length, first.frame.rate)
      case None => None
      case Some(rest) =>
        var samples := if IsVbrHeaderFrame(first, stream) then rest else first.frame.samples + rest;
        if samples == 0 then None else Some((samples, first.frame.rate))
  }

  method MpegDuration(data: seq<byte>) returns (r: Option<(u64, u64)>)
    requires |data| <= MAX_SLICE
    ensures r == Duration(data)
  {
    hide ParseFrame;
    hide IsVbrHeaderFrame;
    hide TrailingTag;
    var stream := SkipId3v2(data);
    var samples: u64, rate: u64, frames, offset := 0, 0, 0, 0;
    assert stream[0..] == stream;
    ghost var first := ParseFrame(stream);
    ghost var counted := if first.Some? && !IsVbrHeaderFrame(first.value, stream) then first.value.frame.samples else 0;
    while offset < |stream|
      invariant frames == 0 ==> offset == 0 && samples == 0 && rate == 0
      invariant samples <= 4096 * offset
      invariant frames > 0 ==> first.Some? && rate == first.value.frame.rate > 0
      invariant frames > 0 ==>
                  match Rest(MpegHeader, stream, offset, rate)
                  case None => Rest(MpegHeader, stream, first.value.frame.length, rate) == None
                  case Some(more) =>
                    Rest(MpegHeader, stream, first.value.frame.length, rate) == Some(samples - counted + more)
      invariant frames > 0 ==> samples >= counted
      decreases |stream| - offset
    {
      var rest := stream[offset..];
      if frames > 0 && TrailingTag(rest) {
        break;
      }
      var frame := ParseFrame(rest);
      if frame == None {
        return None;
      }
      RateIsPositive(rest);
      var f := frame.value;
      if rate != 0 && f.frame.rate != rate {
        return None;
      }
      rate := f.frame.rate;
      if frames > 0 || !IsVbrHeaderFrame(f, rest) {
        samples := Wrap64(samples + f.frame.samples);
      }
      frames := frames + 1;
      offset := offset + f.frame.length;
    }
    EmptyHasNoFrame();
    if samples == 0 {
      return None;
    }
    return Some((samples, rate));
  }

  lemma EmptyHasNoFrame()
    ensures ParseFrame([]) == None
  {
  }

  lemma RateIsPositive(data: seq<byte>)
    requires ParseFrame(data).Some?
    ensures 8000 <= ParseFrame(data).value.frame.rate <= 48000
  {
    var version, index := data[1] / 8 % 4, data[2] / 4 % 4;
    assert forall i | 0 <= i < 3 :: 8000 <= SAMPLE_RATES[0][i] <= 48000;
    assert forall i | 0 <= i < 3 :: 8000 <= SAMPLE_RATES[2][i] <= 48000;
    assert forall i | 0 <= i < 3 :: 8000 <= SAMPLE_RATES[3][i] <= 48000;
  }

  /**
   * A stream is measured exactly when frames of one rate tile it, and by the
   * samples they hold, without a leading metadata frame's.
   */
  lemma MeasuredWhenTiled(data: seq<byte>, samples: nat, rate: nat)
    ensures Duration(data) == Some((samples, rate)) <==>
            var stream := SkipId3v2(data);
            && samples > 0
            && exists cuts: seq<nat> ::
                 && Tiles(MpegHeader, stream, cuts, rate) && cuts[0] == 0 && |cuts| > 1
                 && TiledSamples(MpegHeader, stream, cuts) == samples + MetadataSamples(stream)
  {
    hide ParseFrame;
    hide IsVbrHeaderFrame;
    hide Tiles;
    hide Rest;
    var stream := SkipId3v2(data);
    FrameStartsWithSync(stream);
    CountedFromStart(MpegHeader, stream, samples + MetadataSamples(stream), rate);
  }

  /** The samples a leading Xing, Info or VBRI frame would decode to. */
  function MetadataSamples(stream: seq<byte>): nat
  {
    match ParseFrame(stream)
    case None => 0
    case Some(first) => if IsVbrHeaderFrame(first, stream) then first.frame.samples else 0
  }

  lemma FrameStartsWithSync(stream: seq<byte>)
    ensures ParseFrame(stream).Some? ==> stream != [] && stream[0] == 0xff
  {
  }
}

module Adts {
  import opened Base
  import opened Words
  import opened FrameStream

  const SAMPLE_RATES: seq<nat> := [
    96000, 88200, 64000, 48000, 44100, 32000, 24000, 22050, 16000, 12000, 11025, 8000, 7350]

  /** One ADTS header: one to four blocks of 1024 samples. */
  function AdtsHeader(data: seq<byte>): Option<Frame>
  {
    if |data| < 7 || data[0] != 0xff || data[1] / 16 != 15 || data[1] / 2 % 4 != 0 then None
    else
      var index: nat := data[2] / 4 % 16;
      var length := (data[3] as int) % 4 * 2048 + (data[4] as int) * 8 + data[5] / 32;
      if index >= |SAMPLE_RATES| || length < 7 then None
      else Some(RawFrame(length, 1024 * ((data[6] as int) % 4 + 1), SAMPLE_RATES[index]))
  }

  function Duration(data: seq<byte>): Option<(nat, nat)>
  {
    match AdtsHeader(data)
    case None => None
    case Some(first) =>
      match Rest(AdtsHeader, data, first.length, first.rate)
      case None => None
      case Some(rest) => Some((first.samples + rest, first.rate))
  }

  method AdtsDuration(data: seq<byte>) returns (r: Option<(u64, u64)>)
    requires |data| <= MAX_SLICE
    ensures r == Duration(data)
  {
    hide TrailingTag;
    hide Rest;
    var samples: u64, rate: u64, frames, offset := 0, 0, 0, 0;
    assert data[0..] == data;
    ghost var first := AdtsHeader(data);
    while offset < |data|
      invariant frames == 0 ==> offset == 0 && samples == 0 && rate == 0
      invariant samples <= 4096 * offset
      invariant frames > 0 ==> first.Some? && rate == first.value.rate > 0 && samples >= first.value.samples
      invariant frames > 0 ==>
                  match Rest(AdtsHeader, data, offset, rate)
                  case None => Rest(AdtsHeader, data, first.value.length, rate) == None
                  case Some(more) =>
                    Rest(AdtsHeader, data, first.value.length, rate) == Some(samples - first.value.samples + more)
      decreases |data| - offset
    {
      var rest := data[offset..];
      RestStep(AdtsHeader, data, offset, rate);
      if frames > 0 && TrailingTag(rest) {
        break;
      }
      if |rest| < 7 || rest[0] != 0xff || rest[1] / 16 != 15 || rest[1] / 2 % 4 != 0 {
        return None;
      }
      var index := rest[2] / 4 % 16;
      if index >= |SAMPLE_RATES| {
        return None;
      }
      if rate != 0 && SAMPLE_RATES[index] != rate {
        return None;
      }
      rate := SAMPLE_RATES[index];
      var length := (rest[3] as int) % 4 * 2048 + (rest[4] as int) * 8 + rest[5] / 32;
      if length < 7 {
        return None;
      }
      samples := Wrap64(samples + 1024 * ((rest[6] as int) % 4 + 1));
      frames := frames + 1;
      offset := offset + length;
    }
    RestEnd(AdtsHeader, data, offset, rate);
    if samples == 0 {
      return None;
    }
    return Some((samples, rate));
  }

  /** A stream is measured exactly when frames of one rate tile it, and by all their samples. */
  lemma MeasuredWhenTiled(data: seq<byte>, samples: nat, rate: nat)
    ensures Duration(data) == Some((samples, rate)) <==>
            exists cuts: seq<nat> ::
              && Tiles(AdtsHeader, data, cuts, rate) && cuts[0] == 0 && |cuts| > 1
              && TiledSamples(AdtsHeader, data, cuts) == samples
  {
    hide AdtsHeader;
    hide Tiles;
    hide Rest;
    HeaderStartsWithSync(data);
    CountedFromStart(AdtsHeader, data, samples, rate);
  }

  lemma HeaderStartsWithSync(data: seq<byte>)
    ensures AdtsHeader(data).Some? ==> data != [] && data[0] == 0xff
  {
  }
}
