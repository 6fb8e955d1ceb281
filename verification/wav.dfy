// The WAV and FLAC durations of internal/audioprobe/wav.go.

module Wav {
  import opened Base
  import opened Words

  const RIFF: seq<byte> := [0x52, 0x49, 0x46, 0x46]
  const WAVE: seq<byte> := [0x57, 0x41, 0x56, 0x45]
  const FMT: seq<byte> := [0x66, 0x6d, 0x74, 0x20]
  const FACT: seq<byte> := [0x66, 0x61, 0x63, 0x74]
  const DATA: seq<byte> := [0x64, 0x61, 0x74, 0x61]

  datatype Format = Format(code: u32, rate: u32, blockAlign: u32)

  /** What the chunks have stated so far. */
  datatype Statement = Statement(format: Option<Format>, dataBytes: Option<nat>, factSamples: Option<u32>)

  const NO_STATEMENT := Statement(None, None, None)

  /** The fmt chunk's fields; an extensible one names its sub-format. */
  function ParseFormat(chunk: seq<byte>, size: nat): Option<Format>
    requires |chunk| >= size
  {
    if size < 16 then None
    else
      var code := Le16(chunk);
      if code == 0xfffe && size < 40 then None
      else Some(Format(if code == 0xfffe then Le16(chunk[24..]) else code, Le32(chunk[4..]), Le16(chunk[12..])))
  }

  /** One chunk of a stated size, of which `available` follows in the file. */
  function VisitChunk(s: Statement, id: seq<byte>, size: nat, available: seq<byte>): Option<Statement>
  {
    if id == FMT then
      if size > |available| then None
      else
        match ParseFormat(available, size)
        case None => None
        case Some(format) => Some(s.(format := Some(format)))
    else if id == FACT && 4 <= size <= |available| then Some(s.(factSamples := Some(Le32(available))))
    else if id == DATA then Some(s.(dataBytes := Some(Min(size, |available|))))
    else Some(s)
  }

  /** The chunk loop: it stops at a chunk that fills or overruns the file. */
  function Chunks(s: Statement, data: seq<byte>): Option<Statement>
    decreases |data|
  {
    if |data| < 8 then Some(s)
    else
      var size: nat := Le32(data[4..]);
      var available := data[8..];
      match VisitChunk(s, data[..4], size, available)
      case None => None
      case Some(next) =>
        if size >= |available| then Some(next) else Chunks(next, available[size + size % 2..])
  }

  predicate Uncompressed(code: nat) { code == 1 || code == 3 || code == 6 || code == 7 }

  /** Whole sample frames in some bytes. */
  function Frames(bytes: nat, align: nat): (n: nat)
    requires align > 0
    ensures n <= bytes
  {
    DivBounds(bytes, align, bytes / align, bytes % align);
    bytes / align
  }

  /** Sample frames and rate from what the chunks stated. */
  function Measure(s: Statement): Option<(u64, u64)>
  {
    if s.format == None || s.dataBytes == None || s.format.value.rate == 0 then None
    else
      var f := s.format.value;
      if Uncompressed(f.code) then
        if f.blockAlign == 0 then None
        else
          var frames := Frames(s.dataBytes.value, f.blockAlign);
          if frames < U64 then Some((frames, f.rate)) else None
      else
        match s.factSamples
        case None => None
        case Some(samples) => Some((samples, f.rate))
  }

  function Duration(data: seq<byte>): Option<(u64, u64)>
  {
    if |data| < 12 || data[..4] != RIFF || data[8..12] != WAVE then None
    else
      match Chunks(NO_STATEMENT, data[12..])
      case None => None
      case Some(s) => Measure(s)
  }

  /** The bytes at an offset; a pad byte may put it one past the end. */
  function From(data: seq<byte>, offset: nat): seq<byte>
  {
    if offset <= |data| then data[offset..] else []
  }

  lemma ChunksStep(s: Statement, data: seq<byte>)
    requires |data| >= 8
    ensures Chunks(s, data) ==
            var size: nat := Le32(data[4..]);
            match VisitChunk(s, data[..4], size, data[8..])
            case None => None
            case Some(next) =>
              if size >= |data| - 8 then Some(next) else Chunks(next, data[8..][size + size % 2..])
  {
    hide VisitChunk;
  }

  lemma ChunksEnd(s: Statement, data: seq<byte>)
    ensures |data| < 8 ==> Chunks(s, data) == Some(s)
  {
  }

  /** The switch over one chunk: the fields it states, or a refusal. */
  method ReadChunk(s: Statement, id: seq<byte>, size: nat, chunk: seq<byte>) returns (r: Option<Statement>)
    requires size < U32
    ensures r == VisitChunk(s, id, size, chunk)
    ensures r.Some? && r.value.dataBytes != s.dataBytes ==> r.value.dataBytes.value < U32
  {
    hide Le32;
    hide Le16;
    if id == FMT {
      if size < 16 || size > |chunk| {
        return None;
      }
      var format, rate, blockAlign := Le16(chunk), Le32(chunk[4..]), Le16(chunk[12..]);
      if format == 0xfffe {
        if size < 40 {
          return None;
        }
        format := Le16(chunk[24..]);
      }
      return Some(s.(format := Some(Format(format, rate, blockAlign))));
    } else if id == FACT {
      if 4 <= size <= |chunk| {
        return Some(s.(factSamples := Some(Le32(chunk))));
      }
    } else if id == DATA {
      return Some(s.(dataBytes := Some(Min(size, |chunk|))));
    }
    return Some(s);
  }

  /** The chunk loop, with its running fields; a refusal ends it. */
  method ReadChunks(data: seq<byte>) returns (r: Option<Statement>)
    requires |data| >= 12
    ensures r == Chunks(NO_STATEMENT, data[12..])
    ensures r.Some? && r.value.dataBytes.Some? ==> r.value.dataBytes.value < U32
  {
    hide Le32;
    hide VisitChunk;
    hide Chunks;
    var s := NO_STATEMENT;
    var offset := 12;
    ChunksEnd(s, data[12..]);
    while offset + 8 <= |data|
      invariant offset + 8 > |data| ==> Chunks(NO_STATEMENT, data[12..]) == Some(s)
      invariant 12 <= offset <= |data| + 1
      invariant s.dataBytes.Some? ==> s.dataBytes.value < U32
      invariant Chunks(s, From(data, offset)) == Chunks(NO_STATEMENT, data[12..])
      decreases |data| - offset
    {
      var size: nat := Le32(data[offset + 4..]);
      var body := offset + 8;
      ChunkAt(s, data, offset);
      var next := ReadChunk(s, data[offset..offset + 4], size, data[body..]);
      if next == None {
        return None;
      }
      s := next.value;
      if size >= |data| - body {
        break;
      }
      offset := body + size + size % 2;
      ChunksEnd(s, From(data, offset));
    }
    return Some(s);
  }

  /** One step of the loop at an offset. */
  lemma ChunkAt(s: Statement, data: seq<byte>, offset: nat)
    requires offset + 8 <= |data|
    ensures var size: nat := Le32(data[offset + 4..]);
            var chunk := data[offset + 8..];
            Chunks(s, From(data, offset)) ==
            match VisitChunk(s, data[offset..offset + 4], size, chunk)
            case None => None
            case Some(next) =>
              if size >= |chunk| then Some(next) else Chunks(next, From(data, offset + 8 + size + size % 2))
  {
    hide VisitChunk;
    hide Chunks;
    hide Le32;
    var from := data[offset..];
    assert from[..4] == data[offset..offset + 4] && from[4..] == data[offset + 4..] && from[8..] == data[offset + 8..];
    ChunksStep(s, from);
    var size: nat := Le32(data[offset + 4..]);
    if size < |from| - 8 {
      assert from[8..][size + size % 2..] == data[offset + 8 + size + size % 2..];
    }
  }

  method WavDuration(data: seq<byte>) returns (r: Option<(u64, u64)>)
    requires |data| <= MAX_SLICE
    ensures r == Duration(data)
  {
    hide Chunks;
    if |data| < 12 || data[..4] != RIFF || data[8..12] != WAVE {
      return None;
    }
    var read := ReadChunks(data);
    if read == None || read.value.format == None || read.value.dataBytes == None || read.value.format.value.rate == 0 {
      return None;
    }
    var s, f := read.value, read.value.format.value;
    if Uncompressed(f.code) {
      if f.blockAlign == 0 {
        return None;
      }
      return Some((Frames(s.dataBytes.value, f.blockAlign), f.rate));
    }
    if s.factSamples.Some? {
      return Some((s.factSamples.value, f.rate));
    }
    return None;
  }

  // ----- written files -----

  datatype Chunk = Chunk(id: seq<byte>, payload: seq<byte>)

  predicate WritableChunk(c: Chunk) { |c.id| == 4 && |c.payload| < U32 }

  function LeBytes(v: nat): (s: seq<byte>)
    ensures |s| == 4
  {
    [v % 0x100, v / 0x100 % 0x100, v / 0x100 / 0x100 % 0x100, v / 0x100 / 0x100 / 0x100 % 0x100]
  }

  lemma LeRoundTrip(v: nat, rest: seq<byte>)
    requires v < U32
    ensures Le32(LeBytes(v) + rest) == v
  {
    var s := LeBytes(v) + rest;
    assert s[..4] == LeBytes(v);
    assert s[0] == LeBytes(v)[0] && s[1] == LeBytes(v)[1] && s[2] == LeBytes(v)[2] && s[3] == LeBytes(v)[3];
  }

  /** A chunk is its id, its size and its payload, padded to an even length. */
  function WriteChunk(c: Chunk): seq<byte>
    requires WritableChunk(c)
  {
    c.id + LeBytes(|c.payload|) + (c.payload + (if |c.payload| % 2 == 1 then [0] else []))
  }

  function WriteChunks(chunks: seq<Chunk>): seq<byte>
    requires forall c | c in chunks :: WritableChunk(c)
  {
    if chunks == [] then [] else WriteChunk(chunks[0]) + WriteChunks(chunks[1..])
  }

  /** What a list of chunks states, each on its own. */
  function Stated(s: Statement, chunks: seq<Chunk>): Option<Statement>
    decreases |chunks|
  {
    if chunks == [] then Some(s)
    else
      match VisitChunk(s, chunks[0].id, |chunks[0].payload|, chunks[0].payload)
      case None => None
      case Some(next) => Stated(next, chunks[1..])
  }

  /** What follows a chunk's payload does not change what the chunk states. */
  lemma PayloadSuffices(s: Statement, c: Chunk, more: seq<byte>)
    ensures VisitChunk(s, c.id, |c.payload|, c.payload + more) == VisitChunk(s, c.id, |c.payload|, c.payload)
  {
    var p := c.payload;
    if |p| >= 4 {
      assert (p + more)[..4] == p[..4];
      assert Le32(p + more) == Le32(p);
    }
    if |p| >= 16 {
      assert (p + more)[4..] == p[4..] + more && (p + more)[12..] == p[12..] + more;
      assert Le16(p + more) == Le16(p);
    }
    if |p| >= 40 {
      assert (p + more)[24..] == p[24..] + more;
    }
  }

  lemma ChunkOfWritten(s: Statement, c: Chunk, tail: seq<byte>)
    requires WritableChunk(c) && tail != []
    ensures Chunks(s, WriteChunk(c) + tail) ==
            match VisitChunk(s, c.id, |c.payload|, c.payload)
            case None => None
            case Some(next) => Chunks(next, tail)
  {
    hide VisitChunk;
    hide Le32;
    hide LeBytes;
    hide Chunks;
    var size := |c.payload|;
    var pad: seq<byte> := if size % 2 == 1 then [0] else [];
    var after := c.payload + (pad + tail);
    var data := WriteChunk(c) + tail;
    assert data == c.id + (LeBytes(size) + after);
    assert data[..4] == c.id && data[4..] == LeBytes(size) + after && data[8..] == after;
    LeRoundTrip(size, after);
    PayloadSuffices(s, c, pad + tail);
    assert after[size + size % 2..] == tail;
    ChunksStep(s, data);
  }

  /** The loop steps over written chunks one at a time, pad bytes included. */
  lemma {:induction false} ChunksOfWritten(s: Statement, chunks: seq<Chunk>, rest: seq<byte>)
    requires forall c | c in chunks :: WritableChunk(c)
    requires rest != []
    ensures Chunks(s, WriteChunks(chunks) + rest) ==
            match Stated(s, chunks) case None => None case Some(next) => Chunks(next, rest)
    decreases |chunks|
  {
    hide VisitChunk;
    hide WriteChunk;
    hide Chunks;
    if chunks == [] {
      assert WriteChunks(chunks) + rest == rest;
    } else {
      var c := chunks[0];
      assert c in chunks;
      var size := |c.payload|;
      var tail := WriteChunks(chunks[1..]) + rest;
      assert WriteChunks(chunks) + rest == WriteChunk(c) + tail;
      ChunkOfWritten(s, c, tail);
      if VisitChunk(s, c.id, size, c.payload).Some? {
        ChunksOfWritten(VisitChunk(s, c.id, size, c.payload).value, chunks[1..], rest);
      }
    }
  }

  /**
   * A file written as any chunks and then a data chunk whose stated size covers
   * all that follows, as a streamed file's placeholder does, is measured by
   * what the chunks state and the bytes that are present.
   */
  lemma StreamedFile(riffSize: nat, chunks: seq<Chunk>, stated: nat, present: seq<byte>)
    requires forall c | c in chunks :: WritableChunk(c)
    requires |present| <= stated < U32
    ensures Duration(RIFF + LeBytes(riffSize) + WAVE + (WriteChunks(chunks) + (DATA + LeBytes(stated) + present))) ==
            match Stated(NO_STATEMENT, chunks)
            case None => None
            case Some(s) => Measure(s.(dataBytes := Some(|present|)))
  {
    hide Measure;
    hide LeBytes;
    hide Le32;
    hide Stated;
    hide Chunks;
    hide WriteChunks;
    var last := DATA + LeBytes(stated) + present;
    var data := RIFF + LeBytes(riffSize) + WAVE + (WriteChunks(chunks) + last);
    assert data[..4] == RIFF && data[8..12] == WAVE && data[12..] == WriteChunks(chunks) + last;
    ChunksOfWritten(NO_STATEMENT, chunks, last);
    assert last[..4] == DATA && last[4..] == LeBytes(stated) + present && last[8..] == present;
    LeRoundTrip(stated, present);
    if Stated(NO_STATEMENT, chunks).Some? {
      ChunksStep(Stated(NO_STATEMENT, chunks).value, last);
    }
  }
}

module Flac {
  import opened Base
  import opened Words

  const FLAC_MARK: seq<byte> := [0x66, 0x4c, 0x61, 0x43]

  /** Total samples and rate of a STREAMINFO body. */
  function StreamInfo(info: seq<byte>): Option<(u64, u64)>
    requires |info| >= 18
  {
    var rate := (info[10] as int) * 0x1000 + (info[11] as int) * 0x10 + (info[12] as int) / 0x10;
    var total := (info[13] as int) % 0x10 * U32 + Be32(info[14..18]);
    if total == 0 then None else Some((total, rate))
  }

  function Duration(data: seq<byte>): Option<(u64, u64)>
  {
    if |data| < 8 + 34 || data[..4] != FLAC_MARK then None
    else if data[4] % 0x80 != 0 || (data[5] as int) * 0x1_0000 + (data[6] as int) * 0x100 + data[7] < 34 then None
    else StreamInfo(data[8..8 + 34])
  }

  /** The eight bytes that hold rate (20 bits), channels and depth (8 bits) and total (36 bits). */
  function WriteTiming(rate: nat, shape: nat, total: nat): (s: seq<byte>)
    requires rate < 0x10_0000 && shape < 0x100 && total < 0x10_0000_0000
    ensures |s| == 8
  {
    [rate / 0x1000, rate / 0x10 % 0x100, rate % 0x10 * 0x10 + shape / 0x10, shape % 0x10 * 0x10 + total / U32]
    + BeBytes(total % U32, 4)
  }

  /** A STREAMINFO block's 20-bit rate and 36-bit total are read back whole. */
  lemma TimingRoundTrip(before: seq<byte>, rate: nat, shape: nat, total: nat, after: seq<byte>)
    requires |before| == 10 && rate < 0x10_0000 && shape < 0x100 && total < 0x10_0000_0000
    ensures StreamInfo(before + WriteTiming(rate, shape, total) + after) ==
            if total == 0 then None else Some((total, rate))
  {
    hide Be32;
    hide BeBytes;
    var timing := WriteTiming(rate, shape, total);
    var info := before + timing + after;
    var low := BeBytes(total % U32, 4);
    assert info[10..13] == timing[..3] && info[13] == timing[3];
    assert info[14..18] == low + [] && low + [] == low;
    TotalRoundTrip(total % U32);
    FieldsRoundTrip(rate, shape, total);
  }

  lemma TotalRoundTrip(v: nat)
    requires v < U32
    ensures Be32(BeBytes(v, 4)) == v
  {
    assert BeBytes(v, 4)[..4] == BeBytes(v, 4);
    Be32Value(BeBytes(v, 4));
    assert Pow256(1) == 0x100 && Pow256(2) == 0x1_0000 && Pow256(3) == 0x100_0000;
    BeRoundTrip(v, 4);
  }

  /** The nibbles that straddle bytes come apart again. */
  lemma FieldsRoundTrip(rate: nat, shape: nat, total: nat)
    requires rate < 0x10_0000 && shape < 0x100 && total < 0x10_0000_0000
    ensures rate / 0x1000 * 0x1000 + rate / 0x10 % 0x100 * 0x10 + (rate % 0x10 * 0x10 + shape / 0x10) / 0x10 == rate
    ensures (shape % 0x10 * 0x10 + total / U32) % 0x10 == total / U32
    ensures total / U32 * U32 + total % U32 == total
  {
    Regroup(rate / 0x10, rate % 0x10, shape / 0x10, 0x10);
    Regroup(shape / 0x10, shape % 0x10, total / U32, 0x10);
    assert rate / 0x10 / 0x100 == rate / 0x1000;
  }

  /** A digit put above a smaller number is taken off again. */
  lemma Regroup(n: nat, high: nat, low: nat, base: nat)
    requires 0 < base && low < base
    ensures (high * base + low) / base == high && (high * base + low) % base == low
  {
    ModUnique(high * base + low, high, low, base);
  }
}
