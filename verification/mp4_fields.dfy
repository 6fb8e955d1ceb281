// The field layouts of the MP4 boxes that the reader takes numbers from: what is
// written where a box's format puts it is what is read.

module Mp4Fields {
  import opened Base
  import opened Words
  import opened Boxes
  import opened Mp4
  import opened Permutations

  function Word(v: u32): (s: seq<byte>)
    ensures |s| == 4
  {
    BeBytes(v, 4)
  }

  /** A word is read back wherever it stands. */
  lemma WordAt(before: seq<byte>, v: u32, after: seq<byte>)
    ensures var data := before + Word(v) + after;
            Be32(data[|before|..]) == v && data[|before| + 4..] == after
  {
    hide Be32;
    hide Word;
    assert (before + Word(v) + after)[|before|..] == Word(v) + after;
    FirstWord(v, after);
  }

  lemma FirstWord(v: u32, after: seq<byte>)
    ensures Be32(Word(v) + after) == v
  {
    Be32RoundTrip(v, after);
  }

  // ----- track and media headers, handler -----

  /** A tkhd or mdhd body: a version, times of 4 or 8 bytes, then the field that is read. */
  function WriteHeader(version: byte, times: seq<byte>, field: u32, rest: seq<byte>): (r: seq<byte>)
    requires |times| == if version == 1 then 19 else 11
    ensures |r| == 5 + |times| + |rest|
  {
    [version] + times + Word(field) + rest
  }

  lemma HeadersReadBack(t: Track, version: byte, times: seq<byte>, field: u32, rest: seq<byte>)
    requires |times| == if version == 1 then 19 else 11
    ensures var body := WriteHeader(version, times, field, rest);
            && VisitTrak(t, Box(TKHD, body)) == Some(t.(id := field))
            && VisitMdia(t, Box(MDHD, body)) == Some(t.(timescale := field))
  {
    hide Be32;
    WordAt([version] + times, field, rest);
  }

  lemma HandlerReadsBack(t: Track, before: seq<byte>, kind: seq<byte>, rest: seq<byte>)
    requires |before| == 8 && |kind| == 4
    ensures VisitMdia(t, Box(HDLR, before + kind + rest)) == Some(t.(sound := kind == SOUN))
  {
    assert (before + kind + rest)[8..12] == kind;
  }

  // ----- the sample table -----

  /** So many samples of one duration. */
  datatype Entry = Entry(count: u32, delta: u32)

  function Ticks(e: Entry): nat { e.count * e.delta }

  function WriteEntries(entries: seq<Entry>): (s: seq<byte>)
    ensures |s| == 8 * |entries|
  {
    if entries == [] then []
    else
      var last := entries[|entries| - 1];
      WriteEntries(entries[..|entries| - 1]) + (Word(last.count) + Word(last.delta))
  }

  function WriteStts(flags: u32, entries: seq<Entry>, rest: seq<byte>): seq<byte>
    requires |entries| < U32
  {
    Word(flags) + Word(|entries|) + (WriteEntries(entries) + rest)
  }

  lemma {:induction false} EntriesReadBack(stts: seq<byte>, entries: seq<Entry>, rest: seq<byte>)
    requires |stts| >= 8 && stts[8..] == WriteEntries(entries) + rest
    ensures |stts| >= 8 + 8 * |entries| && SttsSum(stts, |entries|) == Sum(Ticks, entries)
    decreases |entries|
  {
    hide EntryTicks;
    hide Word;
    var n := |entries|;
    assert |stts| == 8 + |WriteEntries(entries) + rest|;
    if n > 0 {
      var front, last := entries[..n - 1], entries[n - 1];
      var tail := Word(last.count) + Word(last.delta) + rest;
      assert WriteEntries(entries) + rest == WriteEntries(front) + tail;
      EntriesReadBack(stts, front, tail);
      LastEntry(stts, front, last, rest);
      SumAppend(Ticks, front, [last]);
      assert entries == front + [last];
      OneEntry(last);
    }
  }

  lemma OneEntry(e: Entry)
    ensures Sum(Ticks, [e]) == Ticks(e)
  {
  }

  /** What stands after a known front, at an offset. */
  lemma RestAfter(data: seq<byte>, at: nat, front: seq<byte>, tail: seq<byte>)
    requires at <= |data| && data[at..] == front + tail
    ensures |data| == at + |front| + |tail| && data[at + |front|..] == tail
  {
    assert data[at + |front|..] == data[at..][|front|..];
  }

  lemma LastEntry(stts: seq<byte>, front: seq<Entry>, last: Entry, rest: seq<byte>)
    requires |stts| >= 8 && stts[8..] == WriteEntries(front) + (Word(last.count) + Word(last.delta) + rest)
    ensures |stts| >= 16 + 8 * |front| && EntryTicks(stts[8 + 8 * |front|..]) == Ticks(last)
  {
    hide Be32;
    hide Word;
    hide WriteEntries;
    var tail := Word(last.count) + Word(last.delta) + rest;
    RestAfter(stts, 8, WriteEntries(front), tail);
    EntryReadsBack(last, rest);
  }

  lemma EntryReadsBack(e: Entry, rest: seq<byte>)
    ensures EntryTicks(Word(e.count) + Word(e.delta) + rest) == Ticks(e)
  {
    hide Be32;
    hide Word;
    var entry := Word(e.count) + Word(e.delta) + rest;
    assert entry == Word(e.count) + (Word(e.delta) + rest);
    FirstWord(e.count, Word(e.delta) + rest);
    assert entry[4..] == Word(e.delta) + rest;
    FirstWord(e.delta, rest);
  }

  /** A written table reads as the sum over its entries, or is refused past 64 bits. */
  lemma SttsRoundTrip(flags: u32, entries: seq<Entry>, rest: seq<byte>)
    requires |entries| < U32
    ensures var total := Sum(Ticks, entries);
            SampleTable(WriteStts(flags, entries, rest)) == if total < U64 then Some(total) else None
  {
    hide Be32;
    hide SttsSum;
    var stts := WriteStts(flags, entries, rest);
    WordAt(Word(flags), |entries|, WriteEntries(entries) + rest);
    EntriesReadBack(stts, entries, rest);
  }

  // ----- runs -----

  /** Which optional fields a run carries. */
  datatype Shape = Shape(dataOffset: bool, firstFlags: bool, durations: bool, sizes: bool, flags: bool, offsets: bool)

  function Flag(present: bool, mask: nat): nat { if present then mask else 0 }

  function FlagsOf(s: Shape): (n: nat)
    ensures n < 0x1000
  {
    Flag(s.dataOffset, 0x01) + Flag(s.firstFlags, 0x04) + Flag(s.durations, 0x100)
    + Flag(s.sizes, 0x200) + Flag(s.flags, 0x400) + Flag(s.offsets, 0x800)
  }

  lemma FlagBits(s: Shape, version: byte)
    ensures var flags := (version * 0x100_0000 + FlagsOf(s)) % 0x100_0000;
            && flags == FlagsOf(s)
            && (Bit(flags, 0x01) <==> s.dataOffset) && (Bit(flags, 0x04) <==> s.firstFlags)
            && (Bit(flags, 0x100) <==> s.durations) && (Bit(flags, 0x200) <==> s.sizes)
            && (Bit(flags, 0x400) <==> s.flags) && (Bit(flags, 0x800) <==> s.offsets)
  {
  }

  /** One sample: its duration, and its other fields' bytes. */
  datatype Sample = Sample(duration: u32, others: seq<byte>)

  function Stride(s: Shape): (n: nat)
    ensures n >= 4
  {
    4 + Flag(s.sizes, 4) + Flag(s.flags, 4) + Flag(s.offsets, 4)
  }

  predicate Shaped(s: Shape, samples: seq<Sample>)
  {
    |samples| < U32 && forall i | 0 <= i < |samples| :: |samples[i].others| == Stride(s) - 4
  }

  function WriteSamples(s: Shape, samples: seq<Sample>): (r: seq<byte>)
    requires Shaped(s, samples)
    ensures |r| == Stride(s) * |samples|
  {
    if samples == [] then []
    else
      var last := samples[|samples| - 1];
      WriteSamples(s, samples[..|samples| - 1]) + (Word(last.duration) + last.others)
  }

  /** A run's head: flags, count, and the two optional words. */
  function WriteRunHead(s: Shape, version: byte, count: u32, optional: seq<byte>): (r: seq<byte>)
    requires |optional| == Flag(s.dataOffset, 4) + Flag(s.firstFlags, 4)
    ensures |r| == 8 + |optional|
  {
    Word(version * 0x100_0000 + FlagsOf(s)) + Word(count) + optional
  }

  function DurationOf(sample: Sample): nat { sample.duration }

  lemma {:induction false} SamplesReadBack(trun: seq<byte>, at: nat, s: Shape, samples: seq<Sample>, rest: seq<byte>)
    requires Shaped(s, samples) && |trun| >= at && trun[at..] == WriteSamples(s, samples) + rest
    ensures |trun| >= at + Stride(s) * |samples|
    ensures DurationSum(trun, at, Stride(s), |samples|) == Sum(DurationOf, samples)
    decreases |samples|
  {
    hide Be32;
    hide Word;
    hide Stride;
    var n := |samples|;
    assert |trun| == at + |WriteSamples(s, samples) + rest|;
    if n > 0 {
      var front, last := samples[..n - 1], samples[n - 1];
      var tail := Word(last.duration) + last.others + rest;
      assert WriteSamples(s, samples) + rest == WriteSamples(s, front) + tail;
      SamplesReadBack(trun, at, s, front, tail);
      LastSample(trun, at, Stride(s) * (n - 1), WriteSamples(s, front), last, rest);
      assert at + Stride(s) * n == at + Stride(s) * (n - 1) + Stride(s);
      SumAppend(DurationOf, front, [last]);
      assert samples == front + [last];
      OneSample(last);
    }
  }

  lemma OneSample(sample: Sample)
    ensures Sum(DurationOf, [sample]) == sample.duration
  {
  }

  lemma LastSample(trun: seq<byte>, at: nat, n: nat, front: seq<byte>, last: Sample, rest: seq<byte>)
    requires |trun| >= at && |front| == n && trun[at..] == front + (Word(last.duration) + last.others + rest)
    ensures |trun| >= at + n + 4 && Be32(trun[at + n..]) == last.duration
  {
    hide Be32;
    hide Word;
    RestAfter(trun, at, front, Word(last.duration) + last.others + rest);
    assert Word(last.duration) + last.others + rest == Word(last.duration) + (last.others + rest);
    FirstWord(last.duration, last.others + rest);
  }

  /** A written run with durations reads as their sum, whatever other fields it carries. */
  lemma TrunRoundTrip(s: Shape, version: byte, optional: seq<byte>, samples: seq<Sample>, rest: seq<byte>, fallback: u32)
    requires s.durations && Shaped(s, samples) && |optional| == Flag(s.dataOffset, 4) + Flag(s.firstFlags, 4)
    ensures RunTicks(WriteRunHead(s, version, |samples|, optional) + (WriteSamples(s, samples) + rest), fallback)
         == Some(Sum(DurationOf, samples))
  {
    hide Be32;
    hide Bit;
    hide FlagsOf;
    var head := WriteRunHead(s, version, |samples|, optional);
    var trun := head + (WriteSamples(s, samples) + rest);
    HeadReadsBack(s, version, |samples|, optional, WriteSamples(s, samples) + rest);
    assert trun[|head|..] == WriteSamples(s, samples) + rest;
    SamplesReadBack(trun, |head|, s, samples, rest);
  }

  /** One without reads as the default for every sample, and is refused without a default. */
  lemma PlainTrunRoundTrip(s: Shape, version: byte, optional: seq<byte>, count: u32, rest: seq<byte>, fallback: u32)
    requires !s.durations && |optional| == Flag(s.dataOffset, 4) + Flag(s.firstFlags, 4)
    ensures RunTicks(WriteRunHead(s, version, count, optional) + rest, fallback)
         == if fallback == 0 then None else Some(count * fallback)
  {
    hide Be32;
    hide Bit;
    hide FlagsOf;
    HeadReadsBack(s, version, count, optional, rest);
  }

  lemma HeadReadsBack(s: Shape, version: byte, count: u32, optional: seq<byte>, rest: seq<byte>)
    requires |optional| == Flag(s.dataOffset, 4) + Flag(s.firstFlags, 4)
    ensures var trun := WriteRunHead(s, version, count, optional) + rest;
            var flags := Be32(trun) % 0x100_0000;
            && Be32(trun[4..]) == count
            && (Bit(flags, 0x100) <==> s.durations)
            && RunStart(flags) == 8 + |optional| && RunStride(flags) == Stride(s)
  {
    hide Be32;
    hide Bit;
    hide FlagsOf;
    hide Word;
    var word := version * 0x100_0000 + FlagsOf(s);
    var trun := WriteRunHead(s, version, count, optional) + rest;
    FlagBits(s, version);
    assert trun == Word(word) + (Word(count) + (optional + rest));
    FirstWord(word, Word(count) + (optional + rest));
    assert trun[4..] == Word(count) + (optional + rest);
    FirstWord(count, optional + rest);
  }

  // ----- fragment headers and movie defaults -----

  /** A tfhd: a track, three optional fields, and bytes the reader ignores. */
  datatype FragmentHeader = FragmentHeader(id: u32, baseOffset: seq<byte>, description: seq<byte>, default: Option<u32>)

  predicate WellShaped(h: FragmentHeader)
  {
    (|h.baseOffset| == 0 || |h.baseOffset| == 8) && (|h.description| == 0 || |h.description| == 4)
  }

  function HeaderFlags(h: FragmentHeader): (n: nat)
    ensures n < 0x10
  {
    Flag(h.baseOffset != [], 0x01) + Flag(h.description != [], 0x02) + Flag(h.default.Some?, 0x08)
  }

  function HeaderWord(h: FragmentHeader, version: byte, more: nat): u32
    requires more < 0x10_0000
  {
    version * 0x100_0000 + 0x10 * more + HeaderFlags(h)
  }

  function WriteTfhd(h: FragmentHeader, version: byte, more: nat, rest: seq<byte>): (r: seq<byte>)
    requires WellShaped(h) && more < 0x10_0000
    ensures |r| <= 24 + |rest|
  {
    Word(HeaderWord(h, version, more)) + (Word(h.id) + (h.baseOffset + h.description + (
      (if h.default.Some? then Word(h.default.value) else []) + rest)))
  }

  lemma HeaderBits(h: FragmentHeader, version: byte, more: nat)
    requires more < 0x10_0000
    ensures var flags := HeaderWord(h, version, more) % 0x100_0000;
            && (Bit(flags, 0x01) <==> h.baseOffset != []) && (Bit(flags, 0x02) <==> h.description != [])
            && (Bit(flags, 0x08) <==> h.default.Some?)
  {
    hide HeaderFlags;
    hide Bit;
    var low := HeaderFlags(h);
    assert HeaderWord(h, version, more) % 0x100_0000 == 0x10 * more + low;
    LowBits(low, more);
    LowFlags(h);
  }

  lemma LowBits(low: nat, more: nat)
    requires low < 0x10
    ensures Bit(0x10 * more + low, 0x01) == Bit(low, 0x01)
    ensures Bit(0x10 * more + low, 0x02) == Bit(low, 0x02)
    ensures Bit(0x10 * more + low, 0x08) == Bit(low, 0x08)
  {
    assert (0x10 * more + low) / 0x02 == 0x08 * more + low / 0x02;
    assert (0x10 * more + low) / 0x08 == 0x02 * more + low / 0x08;
    EvenPlus(0x08 * more, low);
    EvenPlus(0x04 * more, low / 0x02);
    EvenPlus(more, low / 0x08);
  }

  lemma EvenPlus(k: nat, n: nat)
    ensures (2 * k + n) % 2 == n % 2
  {
  }

  lemma LowFlags(h: FragmentHeader)
    ensures var low := HeaderFlags(h);
            && (Bit(low, 0x01) <==> h.baseOffset != []) && (Bit(low, 0x02) <==> h.description != [])
            && (Bit(low, 0x08) <==> h.default.Some?)
  {
  }

  /** The reader learns whose fragment it is and, when it is stated, the default duration. */
  lemma TfhdRoundTrip(f: Fragment, h: FragmentHeader, version: byte, more: nat, rest: seq<byte>, id: u32)
    requires WellShaped(h) && more < 0x10_0000
    ensures VisitTfhd(f, WriteTfhd(h, version, more, rest), id)
         == Some(f.(mine := h.id == id, fallback := if h.default.Some? then h.default.value else f.fallback))
  {
    hide Be32;
    hide Bit;
    hide HeaderFlags;
    hide Word;
    HeaderBits(h, version, more);
    var word := HeaderWord(h, version, more);
    var fields := h.baseOffset + h.description;
    var last := (if h.default.Some? then Word(h.default.value) else []) + rest;
    var body := WriteTfhd(h, version, more, rest);
    FirstWord(word, Word(h.id) + (fields + last));
    assert body[4..] == Word(h.id) + (fields + last);
    FirstWord(h.id, fields + last);
    assert body[8 + |fields|..] == last;
    if h.default.Some? {
      FirstWord(h.default.value, rest);
    }
  }

  function WriteTrex(flags: u32, id: u32, description: u32, default: u32, rest: seq<byte>): (r: seq<byte>)
    ensures |r| == 16 + |rest|
  {
    Word(flags) + (Word(id) + (Word(description) + (Word(default) + rest)))
  }

  lemma TrexRoundTrip(m: Movie, flags: u32, id: u32, description: u32, default: u32, rest: seq<byte>)
    ensures VisitMvex(m, Box(TREX, WriteTrex(flags, id, description, default, rest)))
         == Some(m.(defaults := m.defaults[id := default]))
  {
    hide Be32;
    hide Word;
    var body := WriteTrex(flags, id, description, default, rest);
    assert body[4..] == Word(id) + (Word(description) + (Word(default) + rest));
    FirstWord(id, Word(description) + (Word(default) + rest));
    assert body[12..] == Word(default) + rest;
    FirstWord(default, rest);
  }
}
