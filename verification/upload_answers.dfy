// Whole uploads, from the bytes written to the milliseconds answered, for every
// media type.

module UploadAnswers {
  import opened Base
  import opened Words
  import opened FrameStream
  import opened StreamWriting
  import opened Permutations
  import opened Probe
  import opened Extremes
  import opened MatroskaSpan
  import Adts
  import AdtsWriting
  import Flac
  import FlacWriting
  import Matroska
  import Mp4
  import Mp4Fields
  import Mp4Writing
  import Mpeg
  import MpegWriting
  import Ogg
  import OggWriting
  import Wav
  import WavWriting
  import WebmWriting

  /** Milliseconds rounded up, refused past a day. */
  predicate AnsweredAs(answer: Option<nat>, units: nat, rate: nat)
    requires rate > 0
  {
    if units * 1000 > 86_400_000 * rate then answer == None
    else answer.Some? && units * 1000 <= answer.value * rate < units * 1000 + rate
  }

  /** At a thousand units a second or more the rounding has no exception. */
  lemma FromUnits(media: MediaType, data: seq<byte>, units: nat, rate: nat)
    requires Units(media, data) == Some((units, rate)) && rate > 0 && (rate >= 1000 || units * 1000 <= (U64 - 1) * rate) && units < U64
    ensures AnsweredAs(Answer(media, data), units, rate)
  {
    hide Units;
    hide Ceiling;
    hide Rounded;
    AnswerFromUnits(media, data, units, rate);
    RoundedIsCeiling(units, rate);
    CeilingLimit(units, rate);
    if rate >= 1000 {
      MulMonotone(1000, rate, U64 - 1);
    }
  }

  lemma CeilingLimit(units: nat, rate: nat)
    requires rate > 0
    ensures var m := Ceiling(units, rate);
            && units * 1000 <= m * rate < units * 1000 + rate
            && (m <= 86_400_000 <==> units * 1000 <= 86_400_000 * rate)
  {
    hide Ceiling;
    var m := Ceiling(units, rate);
    if m > 86_400_000 {
      MulMonotone(86_400_000, m - 1, rate);
    } else {
      MulMonotone(m, 86_400_000, rate);
    }
    assert m > 0 ==> (m - 1) * rate == m * rate - rate;
  }

  /** A FLAC upload, with or without a leading tag, lasts its total at its rate; without either it is refused. */
  lemma FlacUpload(data: seq<byte>, last: bool, length: nat, before: seq<byte>, rate: nat, shape: nat, total: nat, rest: seq<byte>)
    requires 34 <= length < 0x100_0000 && |before| == 10 && |rest| >= 16
    requires rate < 0x10_0000 && shape < 0x100 && total < 0x10_0000_0000
    requires SkipId3v2(data) == [0x66, 0x4c, 0x61, 0x43] + FlacWriting.BlockHead(last, 0, length)
                                + (before + Flac.WriteTiming(rate, shape, total) + rest)
    ensures total == 0 || rate == 0 ==> Answer(AudioFlac, data) == None
    ensures total > 0 && rate > 0 ==> AnsweredAs(Answer(AudioFlac, data), total, rate)
  {
    hide Flac.Duration;
    hide SkipId3v2;
    hide AnsweredAs;
    FlacWriting.WrittenFlac(last, 0, length, before, rate, shape, total, rest);
    if total > 0 && rate > 0 {
      FromUnits(AudioFlac, data, total, rate);
    }
  }

  /** An MP3 upload lasts its frames' samples, a leading metadata frame's not counted. */
  lemma MpegUpload(data: seq<byte>, ws: seq<MpegWriting.WrittenFrame>, ending: seq<byte>)
    requires ws != [] && MpegWriting.Alike(ws) && Ending(ending) && 1152 * |ws| < U64
    requires SkipId3v2(data) == Joined(MpegWriting.Frames(ws)) + ending
    ensures MpegWriting.Writable(ws[0].fields) && MpegWriting.Legal(ws[0].fields)
    ensures var counted := MpegWriting.Counted(ws, ending);
            if counted == 0 then Answer(AudioMpeg, data) == None
            else AnsweredAs(Answer(AudioMpeg, data), MpegWriting.Samples(ws[0].fields) * counted, MpegWriting.Frequency(ws[0].fields))
  {
    hide Mpeg.Duration;
    hide SkipId3v2;
    hide AnsweredAs;
    hide MpegWriting.Counted;
    hide MpegWriting.Frequency;
    hide MpegWriting.Samples;
    hide Joined;
    assert ws[0] in ws;
    MpegWriting.WrittenStream(data, ws, ending);
    var samples, counted := MpegWriting.Samples(ws[0].fields), MpegWriting.Counted(ws, ending);
    if counted > 0 {
      MpegAnswer(data, samples, counted, MpegWriting.Frequency(ws[0].fields));
    }
  }

  lemma MpegAnswer(data: seq<byte>, samples: nat, counted: nat, rate: nat)
    requires Mpeg.Duration(data) == Some((samples * counted, rate)) && samples <= 1152 && 1152 * counted < U64 && rate >= 1000
    ensures AnsweredAs(Answer(AudioMpeg, data), samples * counted, rate)
  {
    hide Mpeg.Duration;
    hide AnsweredAs;
    MulMonotone(samples, 1152, counted);
    FromUnits(AudioMpeg, data, samples * counted, rate);
  }

  /** An AAC upload lasts 1024 samples for each of its blocks. */
  lemma AacUpload(data: seq<byte>, ws: seq<AdtsWriting.WrittenFrame>, ending: seq<byte>, frequency: nat, blocks: nat)
    requires ws != [] && Ending(ending) && frequency < 13 && 4096 * |ws| < U64
    requires forall w | w in ws :: AdtsWriting.Whole(w) && w.fields.frequency == frequency && w.fields.blocks == blocks
    requires SkipId3v2(data) == Joined(AdtsWriting.Frames(ws)) + ending
    ensures AnsweredAs(Answer(AudioAac, data), AdtsWriting.Total(ws, blocks), AdtsWriting.Frequency(frequency))
  {
    hide Adts.Duration;
    hide SkipId3v2;
    hide AnsweredAs;
    assert ws[0] in ws && blocks < 4;
    AdtsWriting.WrittenStream(ws, ending, frequency, blocks);
    MulMonotone(AdtsWriting.Samples(blocks), 4096, |ws|);
    FromUnits(AudioAac, data, AdtsWriting.Total(ws, blocks), AdtsWriting.Frequency(frequency));
  }

  /** A WAV upload of an uncompressed format lasts the whole blocks present; of another, its fact's samples. */
  lemma WavUpload(data: seq<byte>, before: seq<Wav.Chunk>, f: WavWriting.WrittenFormat, between: seq<Wav.Chunk>,
                  fact: Option<u32>, rest: seq<byte>, after: seq<Wav.Chunk>, riffSize: nat, stated: nat, present: seq<byte>)
    requires WavWriting.WritableFile(before, f, between, fact, rest, after) && |present| <= stated < U32 && f.code != 0xfffe
    requires forall c | c in WavWriting.FileChunks(before, f, between, fact, rest, after) :: Wav.WritableChunk(c)
    requires data == [0x52, 0x49, 0x46, 0x46] + Wav.LeBytes(riffSize) + [0x57, 0x41, 0x56, 0x45]
                     + (Wav.WriteChunks(WavWriting.FileChunks(before, f, between, fact, rest, after))
                        + ([0x64, 0x61, 0x74, 0x61] + Wav.LeBytes(stated) + present))
    ensures var units := WavWriting.Playing(Wav.Format(f.code, f.rate, f.blockAlign), fact, |present|);
            if units == None then Answer(AudioWav, data) == None
            else f.rate > 0 && AnsweredAs(Answer(AudioWav, data), units.value, f.rate)
  {
    hide Wav.Duration;
    hide Wav.ParseFormat;
    hide Wav.LeBytes;
    hide Wav.WriteChunks;
    hide Wav.WritableChunk;
    hide WavWriting.WriteFormat;
    hide WavWriting.Playing;
    hide WavWriting.FileChunks;
    hide WavWriting.WritableFile;
    hide AnsweredAs;
    hide Units;
    hide Rounded;
    WavWriting.FileFormat(before, f, between, fact, rest, after);
    WavWriting.WrittenWav(riffSize, before, f, between, fact, rest, after, stated, present, Wav.Format(f.code, f.rate, f.blockAlign));
    NoWavNoAnswer(data);
    PlayingHasRate(Wav.Format(f.code, f.rate, f.blockAlign), fact, |present|);
    var units := WavWriting.Playing(Wav.Format(f.code, f.rate, f.blockAlign), fact, |present|);
    if units.Some? {
      WavAnswer(data, units.value, f.rate);
    }
  }

  lemma PlayingHasRate(format: Wav.Format, fact: Option<u32>, bytes: u32)
    ensures WavWriting.Playing(format, fact, bytes).Some? ==> format.rate > 0
  {
  }

  lemma NoWavNoAnswer(data: seq<byte>)
    ensures Wav.Duration(data) == None ==> Answer(AudioWav, data) == None
  {
    hide Wav.Duration;
  }

  lemma WavAnswer(data: seq<byte>, units: nat, rate: nat)
    requires Wav.Duration(data).Some? && Wav.Duration(data).value.0 == units && Wav.Duration(data).value.1 == rate
    requires rate > 0 && units < U32
    ensures AnsweredAs(Answer(AudioWav, data), units, rate)
  {
    hide Wav.Duration;
    hide AnsweredAs;
    FromUnits(AudioWav, data, units, rate);
  }

  /** An Ogg upload lasts its last carried granule position less the pre-skip. */
  lemma OggUpload(pages: seq<OggWriting.WrittenPage>, last: nat, rate: u64, preSkip: u64)
    requires OggWriting.OneWrittenStream(pages, last) && Ogg.Codec(pages[0].body) == Some((rate, preSkip))
    ensures forall p | p in pages :: OggWriting.Writable(p)
    ensures pages[last].granule <= preSkip || rate == 0 ==> Answer(AudioOgg, OggWriting.WritePages(pages)) == None
    ensures pages[last].granule > preSkip && rate >= 1000 ==>
              AnsweredAs(Answer(AudioOgg, OggWriting.WritePages(pages)), pages[last].granule - preSkip, rate)
  {
    hide Ogg.Duration;
    hide Ogg.Codec;
    hide AnsweredAs;
    OggWriting.WrittenOgg(pages, last);
    if pages[last].granule > preSkip && rate >= 1000 {
      FromUnits(AudioOgg, OggWriting.WritePages(pages), pages[last].granule - preSkip, rate);
    }
  }

  /** A WebM upload in range lasts from its earliest start to its latest end. */
  lemma WebmUpload(rec: WebmWriting.Recording)
    requires WebmWriting.Writable(rec) && WebmWriting.AllInRange(rec)
    ensures var plays := WebmWriting.Plays(rec);
            if plays == [] then Answer(AudioWebm, WebmWriting.FileOf(rec)) == None
            else
              && GreatestNumber(Ends(plays)) >= LeastNumber(Starts(plays))
              && AnsweredAs(Answer(AudioWebm, WebmWriting.FileOf(rec)), GreatestNumber(Ends(plays)) - LeastNumber(Starts(plays)),
                            1_000_000_000)
  {
    hide Matroska.Duration;
    hide AnsweredAs;
    hide WebmWriting.Writable;
    hide WebmWriting.AllInRange;
    hide WebmWriting.FileOf;
    hide WebmWriting.Plays;
    hide LeastNumber;
    hide GreatestNumber;
    WebmWriting.WrittenFileMeasures(rec);
    var plays := WebmWriting.Plays(rec);
    if plays != [] {
      FromUnits(AudioWebm, WebmWriting.FileOf(rec), GreatestNumber(Ends(plays)) - LeastNumber(Starts(plays)), 1_000_000_000);
    }
  }

  /** An MP4 upload lasts its sound track's table and every fragment's runs for it. */
  lemma Mp4Upload(f: Mp4Writing.Film, k: nat)
    requires Mp4Writing.FilmWritten(f) && Mp4Writing.OnlySound(f, k) && Mp4Writing.AllReadable(f.tracks)
    requires Mp4Writing.FragmentsShort(f, f.tracks[k].id)
    ensures var t, length := f.tracks[k], Mp4Writing.Length(f, k);
            if !Mp4Writing.AllMeasurable(f, t.id) || length == 0 || length >= U64 then Answer(AudioMp4, f.data) == None
            else t.rate > 0 && (t.rate >= 1000 ==> AnsweredAs(Answer(AudioMp4, f.data), length, t.rate))
  {
    hide Mp4.Duration;
    hide AnsweredAs;
    hide Mp4Writing.FilmWritten;
    hide Mp4Writing.FragmentsShort;
    hide Mp4Writing.Length;
    hide Mp4Writing.AllMeasurable;
    Mp4Writing.WrittenFilmMeasures(f, k);
    var t, length := f.tracks[k], Mp4Writing.Length(f, k);
    assert t in f.tracks;
    if Mp4Writing.AllMeasurable(f, t.id) && 0 < length < U64 && t.rate >= 1000 {
      FromUnits(AudioMp4, f.data, length, t.rate);
    }
  }
}
