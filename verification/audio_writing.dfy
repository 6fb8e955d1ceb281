// WAV, FLAC and Ogg files written field by field, and what the readers answer.

module WavWriting {
  import opened Base
  import opened Words
  import opened Wav

  /** Two bytes, least significant first. */
  function Le2(v: nat): (s: seq<byte>)
    requires v < U16
    ensures |s| == 2
  {
    [v % 0x100, v / 0x100]
  }

  lemma Le16At(before: seq<byte>, v: nat, after: seq<byte>)
    requires v < U16
    ensures var data := before + Le2(v) + after;
            Le16(data[|before|..]) == v && data[|before| + 2..] == after
  {
    var data := before + Le2(v) + after;
    assert data[|before|..] == Le2(v) + after;
  }

  lemma Le32At(before: seq<byte>, v: nat, after: seq<byte>)
    requires v < U32
    ensures var data := before + LeBytes(v) + after;
            Le32(data[|before|..]) == v && data[|before| + 4..] == after
  {
    hide Le32;
    hide LeBytes;
    var data := before + LeBytes(v) + after;
    assert data[|before|..] == LeBytes(v) + after;
    LeRoundTrip(v, after);
  }

  /** A fmt chunk: code, channels, rate, bytes a second, block alignment, sample size, extension. */
  datatype WrittenFormat = WrittenFormat(
    code: nat, channels: nat, rate: u32, bytesPerSecond: u32, blockAlign: nat, bits: nat, extension: seq<byte>)

  predicate WritableFormat(f: WrittenFormat)
  {
    f.code < U16 && f.channels < U16 && f.blockAlign < U16 && f.bits < U16 && |f.extension| < U32 - 16
  }

  function WriteFormat(f: WrittenFormat): (s: seq<byte>)
    requires WritableFormat(f)
    ensures |s| == 16 + |f.extension|
  {
    Le2(f.code) + (Le2(f.channels) + (LeBytes(f.rate) + (LeBytes(f.bytesPerSecond)
    + (Le2(f.blockAlign) + (Le2(f.bits) + f.extension)))))
  }

  lemma FormatFields(f: WrittenFormat)
    requires WritableFormat(f)
    ensures var chunk := WriteFormat(f);
            Le16(chunk) == f.code && Le32(chunk[4..]) == f.rate && Le16(chunk[12..]) == f.blockAlign && chunk[16..] == f.extension
  {
    hide Le16;
    hide Le32;
    hide Le2;
    hide LeBytes;
    var chunk := WriteFormat(f);
    var last := Le2(f.bits) + f.extension;
    var align := Le2(f.blockAlign) + last;
    var rate := LeBytes(f.rate) + (LeBytes(f.bytesPerSecond) + align);
    assert chunk == [] + Le2(f.code) + (Le2(f.channels) + rate);
    assert chunk == (Le2(f.code) + Le2(f.channels)) + LeBytes(f.rate) + (LeBytes(f.bytesPerSecond) + align);
    var front := Le2(f.code) + Le2(f.channels) + LeBytes(f.rate) + LeBytes(f.bytesPerSecond);
    assert chunk == front + Le2(f.blockAlign) + last;
    Le16At([], f.code, Le2(f.channels) + rate);
    assert chunk[0..] == chunk;
    Le32At(Le2(f.code) + Le2(f.channels), f.rate, LeBytes(f.bytesPerSecond) + align);
    Le16At(front, f.blockAlign, last);
  }

  /** A written format reads as its code, rate and alignment, if it is not the extensible one. */
  lemma FormatReadsBack(f: WrittenFormat)
    requires WritableFormat(f) && f.code != 0xfffe
    ensures ParseFormat(WriteFormat(f), |WriteFormat(f)|) == Some(Format(f.code, f.rate, f.blockAlign))
  {
    hide Le16;
    hide Le32;
    hide WriteFormat;
    FormatFields(f);
  }

  /** The extensible format's code stands eight bytes into its extension, which must have 24. */
  lemma ExtensibleReadsBack(f: WrittenFormat, front: seq<byte>, code: nat, rest: seq<byte>)
    requires WritableFormat(f) && f.code == 0xfffe && code < U16
    ensures |front| == 8 && f.extension == front + Le2(code) + rest && |rest| >= 14 ==>
              ParseFormat(WriteFormat(f), |WriteFormat(f)|) == Some(Format(code, f.rate, f.blockAlign))
    ensures |f.extension| < 24 ==> ParseFormat(WriteFormat(f), |WriteFormat(f)|) == None
  {
    hide Le16;
    hide Le32;
    hide WriteFormat;
    hide Le2;
    FormatFields(f);
    if |front| == 8 && f.extension == front + Le2(code) + rest && |rest| >= 14 {
      Le16At(front, code, rest);
      assert WriteFormat(f)[24..] == f.extension[8..];
    }
  }

  // ----- whole files -----

  /** A chunk the reader passes over. */
  predicate Foreign(c: Chunk)
  {
    && WritableChunk(c)
    && c.id != [0x66, 0x6d, 0x74, 0x20] && c.id != [0x66, 0x61, 0x63, 0x74] && c.id != [0x64, 0x61, 0x74, 0x61]
  }

  lemma {:induction false} ForeignStated(s: Statement, chunks: seq<Chunk>, rest: seq<Chunk>)
    requires forall c | c in chunks :: Foreign(c)
    ensures Stated(s, chunks + rest) == Stated(s, rest)
    decreases |chunks|
  {
    if chunks == [] {
      assert chunks + rest == rest;
    } else {
      assert chunks[0] in chunks && forall c | c in chunks[1..] :: c in chunks;
      assert (chunks + rest)[1..] == chunks[1..] + rest;
      ForeignStated(s, chunks[1..], rest);
    }
  }

  lemma FirstStated(s: Statement, c: Chunk, rest: seq<Chunk>)
    ensures Stated(s, [c] + rest) ==
            match VisitChunk(s, c.id, |c.payload|, c.payload) case None => None case Some(next) => Stated(next, rest)
  {
    hide VisitChunk;
    assert ([c] + rest)[1..] == rest;
  }

  /** A fact chunk's first four bytes, if the file has one. */
  function FactChunks(fact: Option<u32>, rest: seq<byte>): seq<Chunk>
  {
    match fact case None => [] case Some(n) => [Chunk([0x66, 0x61, 0x63, 0x74], LeBytes(n) + rest)]
  }

  function FileChunks(before: seq<Chunk>, f: WrittenFormat, between: seq<Chunk>, fact: Option<u32>, rest: seq<byte>,
                      after: seq<Chunk>): seq<Chunk>
    requires WritableFormat(f)
  {
    before + ([Chunk([0x66, 0x6d, 0x74, 0x20], WriteFormat(f))] + (between + (FactChunks(fact, rest) + after)))
  }

  predicate WritableFile(before: seq<Chunk>, f: WrittenFormat, between: seq<Chunk>, fact: Option<u32>, rest: seq<byte>,
                         after: seq<Chunk>)
  {
    && (forall c | c in before :: Foreign(c)) && (forall c | c in between :: Foreign(c)) && (forall c | c in after :: Foreign(c))
    && WritableFormat(f) && |rest| < U32 - 4
  }

  lemma FileFormat(before: seq<Chunk>, f: WrittenFormat, between: seq<Chunk>, fact: Option<u32>, rest: seq<byte>,
                   after: seq<Chunk>)
    requires WritableFile(before, f, between, fact, rest, after) && f.code != 0xfffe
    ensures WritableFormat(f) && ParseFormat(WriteFormat(f), |WriteFormat(f)|) == Some(Format(f.code, f.rate, f.blockAlign))
  {
    hide WriteFormat;
    hide ParseFormat;
    FormatReadsBack(f);
  }

  lemma ChunksState(before: seq<Chunk>, f: WrittenFormat, between: seq<Chunk>, fact: Option<u32>, rest: seq<byte>,
                    after: seq<Chunk>, format: Format)
    requires WritableFile(before, f, between, fact, rest, after)
    requires ParseFormat(WriteFormat(f), |WriteFormat(f)|) == Some(format)
    ensures Stated(NO_STATEMENT, FileChunks(before, f, between, fact, rest, after)) == Some(Statement(Some(format), None, fact))
    ensures forall c | c in FileChunks(before, f, between, fact, rest, after) :: WritableChunk(c)
  {
    hide Stated;
    hide ParseFormat;
    hide WriteFormat;
    hide Le32;
    hide LeBytes;
    var s := NO_STATEMENT.(format := Some(format));
    var tail := FactChunks(fact, rest) + after;
    var formatChunk := Chunk([0x66, 0x6d, 0x74, 0x20], WriteFormat(f));
    ForeignStated(NO_STATEMENT, before, [formatChunk] + (between + tail));
    FirstStated(NO_STATEMENT, formatChunk, between + tail);
    ForeignStated(s, between, tail);
    var told := s.(factSamples := fact);
    match fact {
      case None => assert tail == after;
      case Some(n) =>
        LeRoundTrip(n, rest);
        FirstStated(s, FactChunks(fact, rest)[0], after);
    }
    ForeignStated(told, after, []);
    assert after + [] == after;
    NothingStated(told);
  }

  lemma NothingStated(s: Statement)
    ensures Stated(s, []) == Some(s)
  {
  }

  /** The samples that play: whole blocks of some bytes if uncompressed, else the fact's. */
  function Playing(format: Format, fact: Option<u32>, bytes: u32): Option<u32>
  {
    if format.rate == 0 then None
    else if format.code in {1, 3, 6, 7} then
      BlocksFit(bytes, format.blockAlign);
      if format.blockAlign == 0 then None else Some(bytes / format.blockAlign)
    else fact
  }

  /**
   * A WAV file of a format, any foreign chunks, an optional fact and its data: PCM,
   * float, A-law and mu-law count whole blocks of the bytes present, every other
   * code the samples of its fact; both in the format's rate, which must not be 0.
   */
  lemma WrittenWav(riffSize: nat, before: seq<Chunk>, f: WrittenFormat, between: seq<Chunk>, fact: Option<u32>,
                   rest: seq<byte>, after: seq<Chunk>, stated: nat, present: seq<byte>, format: Format)
    requires WritableFile(before, f, between, fact, rest, after) && |present| <= stated < U32
    requires ParseFormat(WriteFormat(f), |WriteFormat(f)|) == Some(format)
    ensures forall c | c in FileChunks(before, f, between, fact, rest, after) :: WritableChunk(c)
    ensures Duration([0x52, 0x49, 0x46, 0x46] + LeBytes(riffSize) + [0x57, 0x41, 0x56, 0x45]
                     + (WriteChunks(FileChunks(before, f, between, fact, rest, after))
                        + ([0x64, 0x61, 0x74, 0x61] + LeBytes(stated) + present)))
         == match Playing(format, fact, |present|)
            case None => None
            case Some(units) => Some((units, format.rate))
  {
    hide Duration;
    hide Stated;
    hide ParseFormat;
    hide WriteFormat;
    hide FileChunks;
    ChunksState(before, f, between, fact, rest, after, format);
    StreamedFile(riffSize, FileChunks(before, f, between, fact, rest, after), stated, present);
    BlocksFit(|present|, format.blockAlign);
  }

  lemma BlocksFit(bytes: nat, align: nat)
    ensures align > 0 && bytes < U32 ==> 0 <= bytes / align < U32 && Frames(bytes, align) == bytes / align
  {
  }
}

module FlacWriting {
  import opened Base
  import opened Words
  import opened Flac

  /** A metadata block's head: whether it is the last, its type and its length in three bytes. */
  function BlockHead(last: bool, kind: nat, length: nat): (s: seq<byte>)
    requires kind < 0x80 && length < 0x100_0000
    ensures |s| == 4
  {
    [(if last then 0x80 else 0) + kind, length / 0x1_0000, length / 0x100 % 0x100, length % 0x100]
  }

  lemma HeadReadsBack(last: bool, kind: nat, length: nat)
    requires kind < 0x80 && length < 0x100_0000
    ensures var s := BlockHead(last, kind, length);
            s[0] % 0x80 == kind && (s[1] as int) * 0x1_0000 + (s[2] as int) * 0x100 + s[3] == length
  {
  }

  /**
   * A FLAC file that opens with a STREAMINFO of at least 34 bytes answers its
   * 36-bit total in its 20-bit rate, when there is a total; any other first block
   * and a shorter one are refused, and no later byte matters.
   */
  lemma WrittenFlac(last: bool, kind: nat, length: nat, before: seq<byte>, rate: nat, shape: nat, total: nat, rest: seq<byte>)
    requires kind < 0x80 && length < 0x100_0000
    requires |before| == 10 && rate < 0x10_0000 && shape < 0x100 && total < 0x10_0000_0000 && |rest| >= 16
    ensures Duration([0x66, 0x4c, 0x61, 0x43] + BlockHead(last, kind, length) + (before + WriteTiming(rate, shape, total) + rest))
         == if kind != 0 || length < 34 || total == 0 then None else Some((total, rate))
  {
    hide StreamInfo;
    hide WriteTiming;
    hide BlockHead;
    var head := BlockHead(last, kind, length);
    var info := before + WriteTiming(rate, shape, total) + rest;
    var data := [0x66, 0x4c, 0x61, 0x43] + head + info;
    assert data[..4] == FLAC_MARK && data[4] == head[0] && data[5] == head[1] && data[6] == head[2] && data[7] == head[3];
    HeadReadsBack(last, kind, length);
    assert data[8..8 + 34] == before + WriteTiming(rate, shape, total) + rest[..16];
    TimingRoundTrip(before, rate, shape, total, rest[..16]);
  }
}

module OggWriting {
  import opened Base
  import opened Words
  import opened Ogg
  import opened Wav
  import opened WavWriting
  import opened Permutations
  import Flac

  /** A page: continuation, beginning and end flags, granule position, serial, the bytes not read, lacing and body. */
  datatype WrittenPage = WrittenPage(
    continued: bool, begins: bool, ends: bool, granule: u64, serial: u32, sequence: u32, checksum: u32,
    laces: seq<byte>, body: seq<byte>)

  function Self(n: byte): nat { n }

  /** The body is as long as its lacing values add up to. */
  predicate Writable(p: WrittenPage) { |p.laces| < 0x100 && |p.body| == Sum(Self, p.laces) }

  lemma OneLace(n: byte)
    ensures Sum(Self, [n]) == n
  {
    assert [n][1..] == [];
  }

  lemma {:induction false} LacesAddUp(laces: seq<byte>)
    ensures LaceSum(laces) == Sum(Self, laces)
    decreases |laces|
  {
    if laces != [] {
      var front, last := laces[..|laces| - 1], laces[|laces| - 1];
      LacesAddUp(front);
      SumAppend(Self, front, [last]);
      OneLace(last);
      assert laces == front + [last];
    }
  }

  function FlagByte(p: WrittenPage): byte
  {
    (if p.continued then 1 else 0) + (if p.begins then 2 else 0) + (if p.ends then 4 else 0)
  }

  /** A page's fixed fields. */
  function PageHead(p: WrittenPage): (s: seq<byte>)
    ensures |s| == 26
  {
    [0x4f, 0x67, 0x67, 0x53, 0, FlagByte(p)]
    + (LeBytes(p.granule % U32) + (LeBytes(p.granule / U32) + (LeBytes(p.serial)
    + (LeBytes(p.sequence) + LeBytes(p.checksum)))))
  }

  /** The page's bytes, section 6 of RFC 3533. */
  function WritePage(p: WrittenPage): (s: seq<byte>)
    requires Writable(p)
    ensures |s| == 27 + |p.laces| + |p.body|
  {
    PageHead(p) + ([|p.laces|] + (p.laces + p.body))
  }

  lemma Le64At(low: nat, high: nat, rest: seq<byte>)
    requires low < U32 && high < U32
    ensures Le64(LeBytes(low) + (LeBytes(high) + rest)) == high * U32 + low
  {
    hide Le32;
    hide LeBytes;
    var data := LeBytes(low) + (LeBytes(high) + rest);
    LeRoundTrip(low, LeBytes(high) + rest);
    assert data[4..] == LeBytes(high) + rest;
    LeRoundTrip(high, rest);
  }

  lemma FlagBits(p: WrittenPage)
    ensures FlagByte(p) / 2 % 2 == 1 <==> p.begins
  {
  }

  lemma SlicesOf(data: seq<byte>, at: nat, a: seq<byte>, b: seq<byte>, more: seq<byte>)
    requires at <= |data| && data[at..] == a + (b + more)
    ensures |data| == at + |a| + |b| + |more|
    ensures data[at..at + |a|] == a && data[at + |a|..at + |a| + |b|] == b
  {
    assert data[at..at + |a|] == data[at..][..|a|];
    assert data[at + |a|..at + |a| + |b|] == data[at..][|a|..|a| + |b|];
  }

  lemma HeadReadsBack(p: WrittenPage, rest: seq<byte>)
    ensures var data := PageHead(p) + rest;
            && data[..4] == [0x4f, 0x67, 0x67, 0x53] && data[4] == 0 && (data[5] / 2 % 2 == 1 <==> p.begins)
            && Le64(data[6..]) == p.granule && Le32(data[14..]) == p.serial && data[26..] == rest
  {
    hide Le32;
    hide Le64;
    hide LeBytes;
    hide FlagByte;
    FlagBits(p);
    var data := PageHead(p) + rest;
    var head: seq<byte> := [0x4f, 0x67, 0x67, 0x53, 0, FlagByte(p)];
    var low, high := p.granule % U32, p.granule / U32;
    var numbers := LeBytes(p.sequence) + (LeBytes(p.checksum) + rest);
    var serial := LeBytes(p.serial) + numbers;
    assert data == head + (LeBytes(low) + (LeBytes(high) + serial));
    assert data[6..] == LeBytes(low) + (LeBytes(high) + serial);
    Le64At(low, high, serial);
    assert data[14..] == serial;
    LeRoundTrip(p.serial, numbers);
  }

  /** A written page is read back whole, whatever follows it. */
  lemma PageReadsBack(p: WrittenPage, more: seq<byte>)
    requires Writable(p)
    ensures ParsePage(WritePage(p) + more) == Some(Page(WritePage(p), p.body, p.serial, p.begins, p.granule))
  {
    hide Le32;
    hide Le64;
    hide LaceSum;
    hide PageHead;
    hide Sum;
    LacesAddUp(p.laces);
    var tail := [|p.laces|] + (p.laces + (p.body + more));
    var data := WritePage(p) + more;
    assert data == PageHead(p) + tail;
    HeadReadsBack(p, tail);
    assert data[26] == data[26..][0];
    assert data[27..] == data[26..][1..];
    SlicesOf(data, 27, p.laces, p.body, more);
    assert data[..|WritePage(p)|] == WritePage(p);
  }

  function WritePages(pages: seq<WrittenPage>): seq<byte>
    requires forall p | p in pages :: Writable(p)
  {
    if pages == [] then [] else WritePage(pages[0]) + WritePages(pages[1..])
  }

  function ReadPages(pages: seq<WrittenPage>): (r: seq<Page>)
    requires forall p | p in pages :: Writable(p)
    ensures |r| == |pages|
    ensures forall i | 0 <= i < |r| ::
              r[i] == Page(WritePage(pages[i]), pages[i].body, pages[i].serial, pages[i].begins, pages[i].granule)
  {
    seq(|pages|, i requires 0 <= i < |pages| =>
      Page(WritePage(pages[i]), pages[i].body, pages[i].serial, pages[i].begins, pages[i].granule))
  }

  lemma {:induction false} PagesReadBack(pages: seq<WrittenPage>)
    requires forall p | p in pages :: Writable(p)
    ensures Pages(WritePages(pages)) == Some(ReadPages(pages))
    decreases |pages|
  {
    hide ParsePage;
    hide WritePage;
    if pages != [] {
      var rest := WritePages(pages[1..]);
      PagesReadBack(pages[1..]);
      PageReadsBack(pages[0], rest);
      var data := WritePage(pages[0]) + rest;
      assert data[|WritePage(pages[0])|..] == rest;
      assert ReadPages(pages) == [ReadPages(pages)[0]] + ReadPages(pages[1..]);
    }
  }

  // ----- the first packet -----

  /** An Opus head counts 48000 granules a second and states a pre-skip (section 5.1 of RFC 7845). */
  lemma OpusHead(version: byte, channels: byte, preSkip: nat, rest: seq<byte>)
    requires preSkip < U16 && |rest| >= 7
    ensures Codec([0x4f, 0x70, 0x75, 0x73, 0x48, 0x65, 0x61, 0x64] + ([version, channels] + Le2(preSkip) + rest))
         == Some((48_000, preSkip))
  {
    hide Le16;
    hide Le2;
    hide Le32;
    var packet: seq<byte> := [0x4f, 0x70, 0x75, 0x73, 0x48, 0x65, 0x61, 0x64] + ([version, channels] + Le2(preSkip) + rest);
    var front: seq<byte> := [0x4f, 0x70, 0x75, 0x73, 0x48, 0x65, 0x61, 0x64, version, channels];
    assert packet == front + Le2(preSkip) + rest;
    assert packet[..8] == OPUS_HEAD;
    Le16At(front, preSkip, rest);
  }

  /** A Vorbis identification header counts granules at its own rate. */
  lemma VorbisHead(version: u32, channels: byte, rate: u32, rest: seq<byte>)
    requires |rest| >= 14
    ensures Codec([0x01, 0x76, 0x6f, 0x72, 0x62, 0x69, 0x73] + (LeBytes(version) + [channels] + LeBytes(rate) + rest))
         == Some((rate, 0))
  {
    hide Le16;
    hide Le32;
    hide LeBytes;
    var mark: seq<byte> := [0x01, 0x76, 0x6f, 0x72, 0x62, 0x69, 0x73];
    var packet := mark + (LeBytes(version) + [channels] + LeBytes(rate) + rest);
    var front := mark + LeBytes(version) + [channels];
    assert packet == front + LeBytes(rate) + rest;
    assert packet[..7] == VORBIS && packet[0] == 1;
    assert packet[..8] != OPUS_HEAD by {
      assert packet[..8][0] == 1;
    }
    Le32At(front, rate, rest);
  }

  /** An Ogg FLAC head counts granules at its STREAMINFO's rate, which must not be 0. */
  lemma FlacHead(version: seq<byte>, head: seq<byte>, before: seq<byte>, rate: nat, shape: nat, total: nat, rest: seq<byte>)
    requires |version| == 4 && |head| == 4 && |before| == 10 && |rest| >= 16
    requires rate < 0x10_0000 && shape < 0x100 && total < 0x10_0000_0000
    ensures Codec([0x7f, 0x46, 0x4c, 0x41, 0x43] + version + [0x66, 0x4c, 0x61, 0x43] + head
                  + (before + Flac.WriteTiming(rate, shape, total) + rest))
         == if rate == 0 then None else Some((rate, 0))
  {
    hide Le16;
    hide Le32;
    hide Flac.WriteTiming;
    var mark: seq<byte> := [0x7f, 0x46, 0x4c, 0x41, 0x43];
    var timing := Flac.WriteTiming(rate, shape, total);
    var packet := mark + version + [0x66, 0x4c, 0x61, 0x43] + head + (before + timing + rest);
    assert packet[..5] == OGG_FLAC && packet[9..13] == NATIVE_FLAC && packet[0] == 0x7f;
    assert packet[..8] != OPUS_HEAD by {
      assert packet[..8][0] == 0x7f;
    }
    assert packet[..7] != VORBIS by {
      assert packet[..7][0] == 0x7f;
    }
    var info := packet[17..51];
    assert packet[17..] == before + (timing + rest);
    assert forall i | 0 <= i < 34 :: info[i] == packet[17..][i];
    assert forall i | 0 <= i < 8 :: (before + (timing + rest))[10 + i] == timing[i];
    assert info[10] == timing[0] && info[11] == timing[1] && info[12] == timing[2];
    RateReadsBack(info, rate, shape, total);
  }

  lemma RateReadsBack(info: seq<byte>, rate: nat, shape: nat, total: nat)
    requires rate < 0x10_0000 && shape < 0x100 && total < 0x10_0000_0000 && |info| >= 13
    requires var timing := Flac.WriteTiming(rate, shape, total);
             info[10] == timing[0] && info[11] == timing[1] && info[12] == timing[2]
    ensures StreamInfoRate(info) == rate
  {
    Flac.FieldsRoundTrip(rate, shape, total);
  }

  // ----- a whole file -----

  /** The pages of one stream: the first alone begins it, all bear one serial, no granule after the last carried one. */
  predicate OneWrittenStream(pages: seq<WrittenPage>, last: nat)
  {
    && last < |pages|
    && (forall i | 0 <= i < |pages| :: Writable(pages[i]) && pages[i].begins == (i == 0) && pages[i].serial == pages[0].serial)
    && pages[last].granule != 0xffff_ffff_ffff_ffff
    && forall i | last < i < |pages| :: pages[i].granule == 0xffff_ffff_ffff_ffff
  }

  lemma {:induction false} LastGranuleAt(pages: seq<Page>, last: nat)
    requires last < |pages| && pages[last].granule != NO_GRANULE
    requires forall i | last < i < |pages| :: pages[i].granule == NO_GRANULE
    ensures LastGranule(pages) == Some(pages[last].granule)
    decreases |pages|
  {
    if last < |pages| - 1 {
      LastGranuleAt(pages[..|pages| - 1], last);
    }
  }

  /** A written stream answers its last carried granule position less the pre-skip, at its codec's rate. */
  lemma {:induction false} WrittenOgg(pages: seq<WrittenPage>, last: nat)
    requires OneWrittenStream(pages, last)
    ensures forall p | p in pages :: Writable(p)
    ensures Ogg.Duration(WritePages(pages)) ==
            match Codec(pages[0].body)
            case None => None
            case Some((rate, preSkip)) =>
              if pages[last].granule <= preSkip then None else Some((pages[last].granule - preSkip, rate))
  {
    hide Codec;
    hide LastGranule;
    hide WritePage;
    hide WritePages;
    hide Pages;
    hide VisitPages;
    hide OneStream;
    PagesReadBack(pages);
    var read := ReadPages(pages);
    LastGranuleAt(read, last);
    StreamReads(pages, last);
    AllPages(read);
  }

  lemma StreamReads(pages: seq<WrittenPage>, last: nat)
    requires OneWrittenStream(pages, last)
    ensures (forall p | p in pages :: Writable(p)) && OneStream(ReadPages(pages))
  {
    hide WritePage;
  }
}
