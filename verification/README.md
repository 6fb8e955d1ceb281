# Kaana: a verified model of its probes, limits, inventory and ledgers

Kaana is an inference data plane. This project models the parts of it where an answer has to be exact and proves
what those parts promise, for every input and every run.

| files | what they model |
|---|---|
| `base.dfy`, `ordering.dfy` | optional values, permutations, 64-bit words, byte order, byte-string order, sorting, filters |
| `ebml.dfy`, `matroska.dfy`, `matroska_tree.dfy`, `matroska_span.dfy`, `webm_writing.dfy` | WebM/Matroska: the flat in-place walk, the tree it must equal, when the span it reports is exact, and recordings written byte by byte |
| `mp4.dfy`, `mp4_sum.dfy`, `mp4_fields.dfy`, `mp4_writing.dfy` | MP4 and fragmented MP4: nested boxes, sample tables, runs, when the reported total is the sum, and movies written box by box |
| `frames.dfy`, `ogg.dfy`, `wav.dfy`, `probe.dfy` | MPEG audio, ADTS, Ogg, WAV, FLAC, and the rounding to milliseconds |
| `frame_writing.dfy`, `audio_writing.dfy`, `upload_answers.dfy` | such files written field by field, and the milliseconds answered for an upload of every media type |
| `answers.dfy` | what an answered upload is worth against what its file states, and whole files for which they differ |
| `customer_limit.dfy` | the half-open breaker per credential, and its properties over whole runs |
| `realtime.dfy`, `folds.dfy`, `inventory.dfy`, `catalogue.dfy`, `catalogue_fields.dfy` | the inventory index, the resolution of references, the published catalogue and its folds over all reports |
| `decision_unicode.dfy` | the surrogate scanner of decision envelopes |
| `migrations.dfy` | the migration runner, interleaved runs of it, and the reviewed migrations |
| `aws_query.dfy`, `base64.dfy`, `secret.dfy`, `feed.dfy`, `bindings.dfy` | the canonical query, base64 readers, the feed cursor, binding manifests |

A parser is a recursive specification function and a method with the source's loop, proved equal to it; the lemmas then
prove what the specification means. Objects the source updates in place are classes: the Matroska reader, the limit
registry and its permits, the migrated server, the credential receiver and the binding repository. `None` is a refusal.
Where the iteration order of a Go map matters, a loop takes any element (`:|`) or the order is a parameter, so the
contracts hold for every order.

## Where the code does less than it says

Each of these keeps the code as it is, gives a concrete input and proves the exact condition.

- Matroska adds ticks, block ends and laced durations without a carry check (`matroska.go:265`, `matroska.go:284`,
  `matroska.go:296`), and keeps only the low 64 bits of a longer element body (`matroska.go:81-87`).
  `MatroskaSpan.ExactSpan` measures the answer against the numbers as the file writes them and says exactly when it is
  right; `WebmAnswers.HourIsTooShort` and `WebmAnswers.TickIsTooSmall` are files that are answered too short.
- MP4 adds the runs of one fragment without a carry check (`mp4.go:211`): `Mp4Sum.ExactTotal` and
  `Mp4Answers.AnsweredMp4` give the exact condition, `Mp4Answers.LongRunsAreTooShort` a file.
- The increment in the millisecond rounding wraps at 2^64 (`probe.go:105`): `Probe.AnsweredByCeiling`, and a file in
  `OggAnswers.WrappedUpload`.
- A NotAttributable report revives a limit entry that is due for eviction (`customerlimit.go:122-125`), so another
  scope's traffic can decide an admission: `CustomerLimitRuns.IsolationExactly`, `CustomerLimitRuns.RevivalBreaksIsolation`,
  `CustomerLimitRuns.RevivalIsReachable`.
- A limit window is kept only by reports that keep it: a permit issued before a rejection or throttle can lift it at once
  by reporting a success or a shorter window (`customerlimit.go:112-119`): `CustomerLimitRuns.WindowExactly`,
  `CustomerLimitRuns.EarlierPermitLifts`.
- More than one half-open trial can be out, although exactly one is promised, because a permit issued before the trip can
  release another's trial (`customerlimit.go:122-125`): `CustomerLimitRuns.OneTrialExactly`,
  `CustomerLimitRuns.TwoTrialsAtOnce`.
- The image length counts texts that are not canonical base64, although its comment excludes them:
  `ImageLength.CanonicalExactly`, `ImageLength.CountedButNotCanonical`.
- The feed cursor's parser accepts tokens its encoder did not produce, although its comment excludes them:
  `FeedCursor.ParsedIsEncodedExactly`, `FeedCursor.LineBreakPasses`.

## Model

| member | source | states |
|---|---|---|
| `Words.ReadUint` | internal/audioprobe/matroska.go:81-87 | an element body read as an unsigned number keeps its low 64 bits, whatever its length |
| `Ebml.ReadVint` | internal/audioprobe/matroska.go:63-79 | the accumulation loop reads exactly the variable-length integer of section 4 of RFC 8794, and refuses a zero first byte or a short read |
| `Ebml.ReadElement` | internal/audioprobe/matroska.go:48-61 | an element header is an id of at most four bytes and a size whose all-ones value means unknown |
| `Ebml.VintRoundTrip` | internal/audioprobe/matroska.go:63-79 | reading a size undoes writing it, for every length that holds it and whatever follows |
| `Ebml.IdRoundTrip` | internal/audioprobe/matroska.go:63-79 | reading an id undoes writing it, and takes exactly the bytes its marker states |
| `Ebml.EachChild` | internal/audioprobe/matroska.go:302-315 | the offset loop visits exactly the children of the recursive reading, and refuses the same bodies |
| `Matroska.MatroskaReader.ReadStream` | internal/audioprobe/matroska.go:144-170 | the in-place walk over reader fields reaches the state of the recursive walk, or refuses with it |
| `Matroska.MatroskaReader.ReadBody` | internal/audioprobe/matroska.go:172-210 | one element body updates the reader as the specification of its id says |
| `Matroska.MatroskaReader.TrackEntry` | internal/audioprobe/matroska.go:212-241 | the first audio track is adopted with its number, codec and default duration; a second one is refused |
| `Matroska.MatroskaReader.Block` | internal/audioprobe/matroska.go:245-299 | a block of the audio track moves the earliest start and the latest wrapped end and counts once; other tracks change nothing; the refusals and their order are the code's |
| `Matroska.TicksAgree` | internal/audioprobe/matroska.go:265-268 | the signed 64-bit sum of cluster time and relative time refuses and answers exactly what the unsigned residue does |
| `Matroska.OpusDuration` | internal/audioprobe/matroska.go:320-347 | the switch over configuration ranges and frame-count codes gives the frame size of Table 2 in section 3.1 of RFC 6716 times the frame count, refused without frames or past 120 ms |
| `Matroska.MatroskaDuration` | internal/audioprobe/matroska.go:116-142 | the whole measurement equals the specified one on every byte sequence |
| `Ebml.ChildrenRoundTrip` | internal/audioprobe/matroska.go:302-315 | reading a body's children undoes writing them, whatever lengths their sizes take |
| `Ebml.HeaderReadsBack` | internal/audioprobe/matroska.go:48-61 | an element header written with a true, wrong or unknown size is read back as its id, size and length |
| `Ebml.ChildrenExactly` | internal/audioprobe/matroska.go:302-315 | a body reads as some children if and only if those children, with sizes in some lengths, are exactly its bytes |
| `MatroskaTree.ScanReadsTheTree` | internal/audioprobe/matroska.go:144-170 | the elements the walk meets in an encoded forest are those of the forest in pre-order, whatever the containers' sizes |
| `MatroskaTree.WalkReadsTheTree` | internal/audioprobe/matroska.go:144-170 | the flat walk of any well-nested encoded forest ends in the state of the recursive pre-order reading |
| `MatroskaTree.SizesDoNotMatter` | internal/audioprobe/matroska.go:144-170 | two encodings of one forest that differ only in their containers' sizes, unknown ones included, leave one reader state |
| `MatroskaTree.WalkThroughRegion` | internal/audioprobe/matroska.go:144-170 | the walk passes through any region a container's size delimits and comes out at its end |
| `MatroskaTree.WalkAgreesWithSizes` | internal/audioprobe/matroska.go:144-170 | on any bytes, what a reader that trusts sizes accepts, the flat walk reads to the same state |
| `MatroskaSpan.RunMeasures` | internal/audioprobe/matroska.go:293-297 | over every run of elements the reader holds the least start, the greatest wrapped end and the count of the blocks recorded |
| `MatroskaSpan.AnswerFromRecord` | internal/audioprobe/matroska.go:134-141 | an accepted file's nanoseconds are the greatest recorded end less the least recorded start, modulo 2^64 |
| `MatroskaSpan.RecordSeesFile` | internal/audioprobe/matroska.go:265-297 | each interval the reader records is the one the file states, every number whole, modulo 2^64, unless the stated duration is itself past 2^64; the file states no audio block exactly when its track is written with a type or number past 2^64 |
| `MatroskaSpan.ExactSpan` | internal/audioprobe/matroska.go:265-297 | an accepted file's nanoseconds are the span its blocks state, with no number reduced, if and only if it states any, the span is below 2^64 and no multiple of 2^64 ns parts the starts or parts the ends - or both are parted and the two losses add up to 2^64 |
| `MatroskaSpan.ShortFilesAreExact` | internal/audioprobe/matroska.go:265-297 | a file that states audio blocks, all ending below 2^64 ns, is always measured exactly |
| `WebmAnswers.AnsweredWebm` | internal/audioprobe/probe.go:59-95 | an answered WebM upload is never answered too long; its nanoseconds are the stated span if and only if that span is below 2^64 and no multiple of 2^64 parts its starts or its ends, and then the answer is that span's ceiling; a loss of a millisecond or more always shows |
| `WebmAnswers.HourIsTooShort` | internal/audioprobe/matroska.go:296-296 | counterexample in bytes: a file that states 3,632,767 ms is answered 3,600,000, because one block's end passes 2^64 ns |
| `WebmAnswers.TickIsTooSmall` | internal/audioprobe/matroska.go:265-265 | counterexample in bytes: a file with a tick of 2^64 is answered 6 ms |
| `MatroskaSpan.SameBlocksMeasureAlike` | internal/audioprobe/matroska.go:293-297 | any two accepted files that record the same intervals, in any order and across any clusters and other elements, measure alike |
| `MatroskaSpan.TicksExact` | internal/audioprobe/matroska.go:265-268 | the signed addition refuses exactly negative sums and those in the upper half of 64 bits; an accepted tick is the true one except past 2^64, where it is 2^64 too small |
| `MatroskaSpan.PermutedRun` | internal/audioprobe/matroska.go:293-297 | any permutation of a run of blocks leaves the same reader state, or the same refusal |
| `MatroskaSpan.BlockOrderDoesNotMatter` | internal/audioprobe/matroska.go:293-297 | the same inside a whole run, with any elements before and after the blocks |
| `WebmWriting.LastChildIsLast` | internal/audioprobe/matroska.go:172-210 | of several children with one id the reader takes the last |
| `WebmWriting.WrittenBlock` | internal/audioprobe/matroska.go:245-299 | a block written with a track number in a vint of any length, a two's complement relative tick r in [-32768, 32767], flags and frames, alone or in a group, starts at (cluster + r) times the scale and lasts its group's ticks, else the default duration once or once per laced frame, else its Opus packet; it is refused exactly when the tick is negative or in the upper half of 64 bits, or the start or the group's duration is past 64 bits, or no duration is stated |
| `WebmWriting.WrittenBlockStates` | internal/audioprobe/matroska.go:245-299 | what the file states of that block: the interval from (cluster + r) times the scale, whatever the words hold |
| `WebmWriting.NotReading` | internal/audioprobe/matroska.go:246-264 | a written block before its cluster's timecode, before an audio track or at a scale of zero is refused |
| `WebmWriting.OtherTracksBlock` | internal/audioprobe/matroska.go:249-257 | a written block of any other track changes nothing |
| `WebmWriting.InfoSetsScale` | internal/audioprobe/matroska.go:172-182 | the last TimecodeScale written in an Info is the scale, whatever else the Info holds |
| `WebmWriting.InfoKeepsScale` | internal/audioprobe/matroska.go:172-182 | an Info without one leaves the scale as it was |
| `WebmWriting.EntryReads` | internal/audioprobe/matroska.go:212-241 | of a written track entry the number, codec and default duration are taken when its type is 2 and no audio track is known; a second audio entry is refused and any other entry changes nothing, whatever else the entries hold |
| `WebmWriting.OtherElements` | internal/audioprobe/matroska.go:144-210 | a cluster's start forgets the timecode, the Timecode element sets it, and an element of any other id changes nothing |
| `WebmWriting.DocumentTypeDecides` | internal/audioprobe/matroska.go:116-133 | a document is read on exactly when the last DocType of its written header says webm or matroska |
| `WebmWriting.NoDocumentType` | internal/audioprobe/matroska.go:116-133 | and refused without one |
| `WebmWriting.WrittenFileStates` | internal/audioprobe/matroska.go:116-299 | the bytes of any recording (scale, track, clusters, blocks with signed ticks) state exactly the intervals its blocks were written with |
| `WebmWriting.WrittenFileExactly` | internal/audioprobe/matroska.go:116-299 | any written recording is refused exactly when it has no block or one whose tick is negative or in the upper half of 64 bits, whose start or group duration passes 64 bits, whose scale is 0 or whose duration is not stated; otherwise it is measured as the latest recorded end less the earliest recorded start modulo 2^64, where a tick past 2^64 is recorded 2^64 too small and an end modulo 2^64 |
| `WebmWriting.WrittenFileMeasures` | internal/audioprobe/matroska.go:116-299 | when its ticks are below 2^63 and its ends below 2^64 ns the recording is measured as the latest end less the earliest start, and without a block it is refused |
| `Boxes.EachBox` | internal/audioprobe/mp4.go:258-284 | the offset loop visits exactly the boxes of the recursive reading, in 32-bit, 64-bit and to-the-end sizes, and refuses the same bytes |
| `Boxes.BoxesRoundTrip` | internal/audioprobe/mp4.go:258-284 | reading boxes undoes writing them, in any mix of size forms |
| `Boxes.BoxesExactly` | internal/audioprobe/mp4.go:258-284 | bytes read as some boxes if and only if those boxes, in some size forms, are exactly the bytes |
| `Mp4.Mp4SampleTable` | internal/audioprobe/mp4.go:153-172 | the checked loop is the exact sum of count times delta, or refuses past 2^64 - 1 |
| `Mp4.ProductFits` | internal/audioprobe/mp4.go:162-170 | a single entry's product never wraps, whatever the table states |
| `Mp4.Mp4Run` | internal/audioprobe/mp4.go:221-254 | a run is read as its flags say: per-sample durations, or the fallback times the count; short runs are refused |
| `Mp4.RunFits` | internal/audioprobe/mp4.go:221-254 | no single run reaches 2^64, so the summing loop inside it never wraps |
| `Mp4.Mp4ReadTrack` | internal/audioprobe/mp4.go:99-150 | a track's id, handler, timescale and table ticks are those the nested boxes state, with the code's refusals |
| `Mp4.Mp4FragmentTicks` | internal/audioprobe/mp4.go:175-218 | a fragment's ticks are the low 64 bits of the exact sum of its runs |
| `Mp4.Mp4Duration` | internal/audioprobe/mp4.go:27-97 | the whole measurement equals the specified one on every byte sequence |
| `Mp4Sum.StandardTraf` | internal/audioprobe/mp4.go:175-218 | a track fragment whose header comes first adds, for its own track only, every run by its own durations, else the header's default, else the movie's |
| `Mp4Sum.CodedIsASum` | internal/audioprobe/mp4.go:81-93 | the checked total over fragments refuses exactly an unreadable fragment or a sum past 2^64 - 1, and is otherwise that sum |
| `Mp4Sum.KeptIsTrue` | internal/audioprobe/mp4.go:211-211 | dropping carries inside fragments loses something exactly when some fragment's own runs reach 2^64 |
| `Mp4Sum.ExactTotal` | internal/audioprobe/mp4.go:27-97 | an accepted file's ticks are the true total of table and fragments if and only if no fragment's own runs reach 2^64; otherwise they are fewer |
| `Mp4Sum.MeasuredWhenItFits` | internal/audioprobe/mp4.go:64-96 | a movie whose fragments fit is answered exactly when everything reads and the total is 1 to 2^64 - 1, and by that total |
| `Mp4Sum.FragmentOrderDoesNotMatter` | internal/audioprobe/mp4.go:81-93 | any permutation of the fragments gives the same answer or the same refusal |
| `Mp4Sum.BoxOrderDoesNotMatter` | internal/audioprobe/mp4.go:27-97 | any reordering of the top-level boxes of a file with one movie box is measured alike |
| `Mp4Answers.AnsweredMp4` | internal/audioprobe/probe.go:59-95 | an answered MP4 upload is the exact ceiling of its true total over the timescale if and only if no fragment's own runs reach 2^64 ticks and the rounding's one exception does not apply; a wrong answer is too short |
| `Mp4Answers.LongRunsAreTooShort` | internal/audioprobe/mp4.go:211-211 | counterexample in bytes: a file with one fragment of three runs past 2^65 ticks is answered twelve hours |
| `Mp4Fields.HeadersReadBack` | internal/audioprobe/mp4.go:103-125 | the id of a track header and the timescale of a media header are read from where either version puts them |
| `Mp4Fields.HandlerReadsBack` | internal/audioprobe/mp4.go:115-116 | a track is a sound track exactly when its handler says so |
| `Mp4Fields.SttsRoundTrip` | internal/audioprobe/mp4.go:153-172 | a written sample table reads as the sum of count times delta over its entries, or is refused past 64 bits |
| `Mp4Fields.TrunRoundTrip` | internal/audioprobe/mp4.go:221-254 | a written run with durations reads as their sum, whatever other optional fields it carries |
| `Mp4Fields.PlainTrunRoundTrip` | internal/audioprobe/mp4.go:221-254 | a written run without durations reads as the default times its count, and is refused without a default |
| `Mp4Fields.TfhdRoundTrip` | internal/audioprobe/mp4.go:187-206 | a written fragment header gives its track and, when it states one, its default duration, past any base offset and description |
| `Mp4Fields.TrexRoundTrip` | internal/audioprobe/mp4.go:27-63 | a written movie default is kept under its track |
| `Mp4Writing.VisitHolding` | internal/audioprobe/mp4.go:258-284 | visiting a written body depends only on its boxes of the kinds visited, whatever boxes stand between them |
| `Mp4Writing.TrackReadsBack` | internal/audioprobe/mp4.go:99-172 | a written trak of tkhd and mdia[hdlr, mdhd, minf[stbl[stts]]], with any other boxes between, reads as its number, whether its handler is soun, its rate and the sum of count times delta over its table; it is refused exactly when that sum passes 64 bits or a sound track has no rate |
| `Mp4Writing.FragmentReadsBack` | internal/audioprobe/mp4.go:175-254 | a written moof adds to a track exactly the runs of the trafs that name it, each sample by its own duration, else the traf's default, else the movie's; it is refused exactly when a run of that track has none |
| `Mp4Writing.TrexsVisited` | internal/audioprobe/mp4.go:41-62 | the default of a track is that of the last trex written for it, or none |
| `Mp4Writing.WrittenFilmExactly` | internal/audioprobe/mp4.go:27-97 | any written file of one sound track answers its table's sum and the low 64 bits of each fragment's runs, in its own rate, exactly when that is 1 to 2^64 - 1 and every run has a duration; otherwise it is refused |
| `Mp4Writing.WrittenFilmMeasures` | internal/audioprobe/mp4.go:27-97 | a written file of one sound track whose fragments each stay below 2^64 ticks answers its table's sum and all its runs in its own rate exactly when that is 1 to 2^64 - 1 and every run has a duration; otherwise it is refused |
| `Mp4Writing.WrittenFilmRefused` | internal/audioprobe/mp4.go:64-80 | a written file with an unreadable track, with no sound track or with two is refused |
| `Mp4Writing.ProgressiveMeasures` | internal/audioprobe/mp4.go:27-172 | the bytes of a progressive file with any track number, rate and table answer the table's sum in that rate, or are refused where the rate is 0 or the sum is not 1 to 2^64 - 1 |
| `FrameStream.RestIsTiled` | internal/audioprobe/mpeg.go:119-140 | what the counting loop accepts is a tiling by headers of one rate up to the end, a trailing tag or an overrun of the last frame, with its samples |
| `FrameStream.TiledIsCounted` | internal/audioprobe/mpeg.go:119-140 | every such tiling is accepted with its own sum, so a stream has one total |
| `Mpeg.MpegDuration` | internal/audioprobe/mpeg.go:112-145 | the loop equals the specified count on every byte sequence |
| `Mpeg.MeasuredWhenTiled` | internal/audioprobe/mpeg.go:112-145 | a stream is measured if and only if frames of one rate tile it after any ID3v2 tag, by the sum of their samples without a leading Xing, Info or VBRI frame's |
| `Mpeg.RateIsPositive` | internal/audioprobe/mpeg.go:44-86 | a parsed frame never states a rate of zero, so the later division is safe |
| `MpegWriting.Bitrates` | internal/audioprobe/mpeg.go:12-38 | every entry of the bitrate tables follows its layer's rule |
| `MpegWriting.HeaderReadsBack` | internal/audioprobe/mpeg.go:44-86 | a written frame header reads as the samples, frequency and length in slots of its version, layer, bitrate, frequency and padding, and as the offset past its CRC and side information; it is refused exactly for free format and the reserved values |
| `MpegWriting.MetadataRead` | internal/audioprobe/mpeg.go:91-100 | a written leading frame is metadata exactly when it is Layer III and Xing or Info stands after its side information or VBRI after 32 bytes |
| `MpegWriting.WrittenStream` | internal/audioprobe/mpeg.go:112-145 | a written stream of frames of any bitrates, with any of the trailing tags or none, answers the samples of all frames but a leading metadata one |
| `Adts.AdtsDuration` | internal/audioprobe/mpeg.go:152-189 | the loop equals the specified count on every byte sequence |
| `Adts.MeasuredWhenTiled` | internal/audioprobe/mpeg.go:152-189 | a stream is measured if and only if frames of one rate tile it, by the sum of all their samples |
| `AdtsWriting.HeaderReadsBack` | internal/audioprobe/mpeg.go:152-185 | a written ADTS header reads as its 13-bit length, 1024 samples for each block and its frequency; it is refused exactly for a reserved frequency or a length below 7 |
| `AdtsWriting.WrittenStream` | internal/audioprobe/mpeg.go:152-189 | a written stream answers 1024 samples for every block of every frame |
| `StreamWriting.TagIsSkipped` | internal/audioprobe/probe.go:113-126 | a leading ID3v2 tag of any size below 2^28, with a footer if it is flagged, is skipped whole |
| `StreamWriting.NoTagIsSkipped` | internal/audioprobe/probe.go:113-126 | bytes that do not open with a tag are left whole |
| `Ogg.OggDuration` | internal/audioprobe/ogg.go:13-68 | the page loop equals the specified reading on every byte sequence |
| `Ogg.PagesTile` | internal/audioprobe/ogg.go:21-60 | the pages of an accepted file are all of its bytes, in order, and each is a page on its own |
| `Ogg.MeasuredWhenOneStream` | internal/audioprobe/ogg.go:13-68 | a file is measured if and only if its pages tile it under one serial with only the first page beginning, by the last carried granule position less the pre-skip |
| `OggWriting.PageReadsBack` | internal/audioprobe/ogg.go:22-60 | a written page reads back its body, serial, granule position and beginning flag, whatever follows it |
| `OggWriting.OpusHead` | internal/audioprobe/ogg.go:72-75 | a written Opus head gives 48000 granules a second and its pre-skip |
| `OggWriting.VorbisHead` | internal/audioprobe/ogg.go:76-77 | a written Vorbis head gives its rate |
| `OggWriting.FlacHead` | internal/audioprobe/ogg.go:78-94 | a written Ogg FLAC head gives its 20-bit rate, and is refused at a rate of zero |
| `OggWriting.WrittenOgg` | internal/audioprobe/ogg.go:13-68 | written pages of one stream answer the last carried granule position less the pre-skip, or are refused when that is not positive |
| `Wav.WavDuration` | internal/audioprobe/wav.go:14-75 | the chunk loop equals the specified reading on every byte sequence |
| `Wav.ReadChunks` | internal/audioprobe/wav.go:18-55 | the loop's running fields are what the recursive reading states, and a refusal ends it |
| `Wav.ChunksOfWritten` | internal/audioprobe/wav.go:18-55 | the loop steps over written chunks one at a time, pad bytes included |
| `Wav.StreamedFile` | internal/audioprobe/wav.go:48-54 | a file whose data chunk states more than is present is measured by the bytes present and by what the earlier chunks state |
| `WavWriting.FormatReadsBack` | internal/audioprobe/wav.go:39-50 | a written fmt chunk reads as its code, rate and block alignment |
| `WavWriting.ExtensibleReadsBack` | internal/audioprobe/wav.go:39-50 | an extensible one reads as the code in its extension, and is refused when the extension is short |
| `WavWriting.WrittenWav` | internal/audioprobe/wav.go:14-75 | a written file answers the whole blocks of the bytes present for PCM, float, A-law and mu-law, the samples of its fact for any other code, and is refused without a rate, a block alignment or a fact where one is needed, with any other chunks between |
| `Flac.TimingRoundTrip` | internal/audioprobe/wav.go:92-99 | the 20-bit rate and the 36-bit total of a STREAMINFO block are read back whole; an unknown total is refused |
| `FlacWriting.WrittenFlac` | internal/audioprobe/wav.go:80-100 | a written FLAC file answers its total and rate exactly when its first block is a STREAMINFO of at least 34 bytes with a total |
| `Probe.SmallQuotient` | internal/audioprobe/probe.go:98-108 | past the guard the quotient fits 64 bits, which is what bits.Div64 demands |
| `Probe.LargeQuotient` | internal/audioprobe/probe.go:98-108 | and what the guard refuses would not fit |
| `Probe.CeilMillis` | internal/audioprobe/probe.go:98-108 | the rounding computes the specified function, the wrap of its increment included |
| `Probe.RoundedIsCeiling` | internal/audioprobe/probe.go:98-108 | it is the exact ceiling, refused past 64 bits, except for a duration strictly between 2^64 - 1 and 2^64 ms, which rounds to zero |
| `Probe.ExceptionNeedsLowRate` | internal/audioprobe/probe.go:98-108 | only a rate below 1000 can reach that exception from 64-bit units |
| `Probe.WrappedCeiling` | internal/audioprobe/probe.go:105-105 | counterexample: a concrete number of units at rate 999 that rounds to zero |
| `OggAnswers.WrappedUpload` | internal/audioprobe/probe.go:105-105 | counterexample in bytes: a 58-byte Ogg upload that states 2^64 ms is answered zero |
| `Probe.Milliseconds` | internal/audioprobe/probe.go:59-95 | dispatch, rounding and the one-day limit equal the specification for every media type and byte sequence, with every index in range |
| `Probe.AnsweredByCeiling` | internal/audioprobe/probe.go:59-95 | an upload is answered if and only if its container states a positive rate and the exact ceiling of units times 1000 over rate is at most 86,400,000, by that ceiling, but for the one exception above |
| `UploadAnswers.FlacUpload` | internal/audioprobe/probe.go:59-95 | from bytes to milliseconds: a FLAC upload is answered its total over its rate rounded up, or refused past a day |
| `UploadAnswers.MpegUpload` | internal/audioprobe/probe.go:59-95 | the same for an MPEG upload, by its frames |
| `UploadAnswers.AacUpload` | internal/audioprobe/probe.go:59-95 | the same for an AAC upload, by its blocks |
| `UploadAnswers.WavUpload` | internal/audioprobe/probe.go:59-95 | the same for a WAV upload, by its data or its fact |
| `UploadAnswers.OggUpload` | internal/audioprobe/probe.go:59-95 | the same for an Ogg upload, by its last granule position |
| `UploadAnswers.WebmUpload` | internal/audioprobe/probe.go:59-95 | the same for a WebM upload in range, by its blocks |
| `UploadAnswers.Mp4Upload` | internal/audioprobe/probe.go:59-95 | the same for an MP4 upload, by its table and runs |
| `CustomerLimit.Registry.RemoveStale` | internal/customerlimit/customerlimit.go:134-140 | exactly the entries idle for an hour with no trial in flight are evicted, whatever the map order |
| `CustomerLimit.Registry.Admit` | internal/customerlimit/customerlimit.go:66-84 | the whole next registry and the answer: reason, wait and a fresh permit exactly on admission |
| `CustomerLimit.Permit.Report` | internal/customerlimit/customerlimit.go:104-126 | only a first report acts: success deletes, a reason opens a fresh window, neither only releases a known trial |
| `CustomerLimit.Permit.Tell` | internal/customerlimit/customerlimit.go:86-102 | the four outcomes report what they name, a throttle without a positive wait using the default |
| `CustomerLimitRuns.Isolation` | internal/customerlimit/customerlimit.go:66-126 | with a clock that never runs backwards, deleting every call on other scopes changes no answer on this scope, unless a NotAttributable report meets an entry already evictable |
| `CustomerLimitRuns.IsolationExactly` | internal/customerlimit/customerlimit.go:66-126 | one scope's ordered calls contain no NotAttributable report on an evictable entry if and only if no prefix of them, with two admissions after it, is answered differently by any ordered run that interleaves other scopes' calls |
| `CustomerLimitRuns.RevivalBreaksIsolation` | internal/customerlimit/customerlimit.go:122-125 | that exception is real: from every state where it applies, two later admissions differ by whether another scope's admission came between |
| `CustomerLimitRuns.RevivalIsReachable` | internal/customerlimit/customerlimit.go:66-126 | three calls from an empty registry reach such a state |
| `CustomerLimitRuns.GuardedStep` | internal/customerlimit/customerlimit.go:66-84 | between reports an entry keeps its reason and window, takes at most one trial and only after the window, and is evicted only when idle with no trial in flight |
| `CustomerLimitRuns.AtMostOneTrial` | internal/customerlimit/customerlimit.go:66-84 | over any run without a report on the scope, an entry that survives has granted exactly the trial it holds, and a trial in flight is never evicted |
| `CustomerLimitRuns.CooldownHolds` | internal/customerlimit/customerlimit.go:66-126 | over any run whose reports on the scope only release trials, every admission before the window's end is refused with the entry's reason and exactly the time left |
| `CustomerLimitRuns.WindowExactly` | internal/customerlimit/customerlimit.go:66-126 | over any run at all, the scope would be refused at every instant before the end of its window if and only if each effective report on it before then only releases a trial or opens a window that ends no earlier; every admission made before then is refused for at least the time left |
| `CustomerLimitRuns.HalfOpen` | internal/customerlimit/customerlimit.go:86-126 | after an effective Throttled or Rejected report at t with cooldown d: no permit before t + d exactly as long as each later report on the scope before t + d keeps the window, whichever permit makes it; and from then to the next report at most one while the entry lives |
| `CustomerLimitRuns.EarlierPermitLifts` | internal/customerlimit/customerlimit.go:112-115 | counterexample from an empty registry: a nanosecond after a rejection, a success by a permit issued before it lets the scope be admitted |
| `CustomerLimitRuns.TripStartsTrials` | internal/customerlimit/customerlimit.go:104-132 | a trip leaves no permit issued since it outstanding and no trial in flight |
| `CustomerLimitRuns.EvictedExactly` | internal/customerlimit/customerlimit.go:134-139 | an admission on any scope evicts an entry if and only if its window is over, no trial is in flight and it was last seen more than an hour before |
| `CustomerLimitRuns.LastSeenIsLastReached` | internal/customerlimit/customerlimit.go:66-139 | over any run whose reports on the scope only release, a surviving entry was last seen at the instant of the last call that reached it: an admission, granted or refused, or an effective report |
| `CustomerLimitRuns.EvictedOnlyIdle` | internal/customerlimit/customerlimit.go:66-139 | so over such a run it is evicted only if no call reached it in the hour before |
| `CustomerLimitRuns.OneOfSpacedAdmissions` | internal/customerlimit/customerlimit.go:66-139 | until the next report on the scope, at most one of any admissions an hour or less apart is granted, and none while a trial is in flight |
| `CustomerLimitRuns.RefusalKeepsEntry` | internal/customerlimit/customerlimit.go:66-139 | a run from an empty registry in which a refused admission keeps the entry past its hour |
| `CustomerLimitRuns.OneTrialExactly` | internal/customerlimit/customerlimit.go:64-84 | from a trip on, while reports only release and the entry lives, at most one of the permits issued since is outstanding after every prefix of the run if and only if no permit from before the trip releases a trial in flight |
| `CustomerLimitRuns.SecondTrial` | internal/customerlimit/customerlimit.go:122-125 | from every state where such a release is made past the window, the scope is then admitted while the released trial is still out |
| `CustomerLimitRuns.TwoTrialsAtOnce` | internal/customerlimit/customerlimit.go:64-126 | counterexample from an empty registry: two trials are outstanding at once after one throttle |
| `CustomerLimitRuns.SuccessCloses` | internal/customerlimit/customerlimit.go:112-115 | after an effective success the scope is admitted at every instant, after every prefix of any run, if and only if no report on it opens a window again; no other scope's entry is touched |
| `CustomerLimitRuns.LaterReportsAreIdle` | internal/customerlimit/customerlimit.go:104-108 | after a permit's first effective report, over any run of later calls on any scope, dropping every further report of it changes neither the final state nor any answer |
| `Inventory.ValidateModalities` | internal/inventory/inventory.go:168-187 | a modality list passes exactly when it is absent, or not empty and strictly increasing |
| `Inventory.ValidateObserved` | internal/inventory/inventory.go:145-222 | an observation passes exactly when its limits are positive, its modalities and efforts are listed as required, and its realtime and audio statements are valid |
| `Inventory.Parse` | internal/inventory/inventory.go:414-513 | a file is accepted if and only if it meets every listed rule, and then the built maps index exactly its rows |
| `Inventory.PointCurrent` | internal/inventory/inventory.go:509-511 | each line with a current row, and no other, leads to the whole set of that row's reference |
| `Inventory.ResolveIsAScan` | internal/inventory/inventory.go:526-546 | a resolution equals a scan of the file: pinned references find exactly their rows in file order at any age and whatever the clock, unpinned ones the rows of the unique current revision inside the horizon, and every route repeats its row's id, provider, reference, upstream, regions and accepted parameters; which revisions belong to a line is said by their bytes up to the first at sign |
| `Inventory.OfLineIsModelId` | internal/contract/ids.go:85-90 | a pinned reference belongs to a line exactly when it begins with the line and an at sign |
| `Inventory.RowsInOrder` | internal/inventory/inventory.go:485-494 | the rows of a reference are all the file's rows with it, each once and in file order |
| `Inventory.WholeBag` | internal/inventory/inventory.go:485-494 | the routes gathered over the references of the index are the file's rows, each once |
| `Inventory.DeploymentDescriptors` | internal/inventory/inventory.go:595-617 | in any map order the listing is every row of the file once, ascending by id in byte order, with its own reference |
| `Inventory.DeploymentRoute` | internal/inventory/inventory.go:569-587 | in any map order the lookup finds the one place of an id, or none, or reports a second place |
| `Inventory.LookupIsAScan` | internal/inventory/inventory.go:569-587 | in a parsed inventory no id is ambiguous and the route is that of the file's one row with it |
| `Inventory.PinnedOnlyReferences` | internal/inventory/inventory.go:833-850 | sorted, and exactly the references with rows of which none is current |
| `Reports.LeastIsGreatestLowerBound` | internal/inventory/inventory.go:787-796 | the folded minimum is absent when nobody reports, else a reported value at most every report |
| `Reports.CommonIsGreatestLowerBound` | internal/inventory/inventory.go:800-811 | the folded set is absent when nobody reports, else exactly what every report includes |
| `Reports.EveryIsGreatestLowerBound` | internal/inventory/inventory.go:719-785 | the folded flag is absent when nobody reports, else true exactly when every report is |
| `Catalogue.RenderKeys` | internal/inventory/inventory.go:815-825 | in any map order a set is rendered as its one sorted listing, each member once |
| `Catalogue.Providers` | internal/inventory/inventory.go:696-715 | the providers of a set, each once, sorted |
| `Catalogue.Aggregate` | internal/inventory/inventory.go:719-785 | the fold over endpoints in id order fills every field of the entry as specified, silent endpoints abstaining |
| `Catalogue.EntryIsGreatestLowerBound` | internal/inventory/inventory.go:719-785 | an entry's limits, creation time, tools, modalities and efforts are those bounds of the reporting endpoints, independent of the sort |
| `CatalogueFields.EntryBounds` | internal/inventory/inventory.go:719-785 | context and output limits are the smallest reported in their own fields, tools true exactly when every report of them is; each absent when nobody reports |
| `CatalogueFields.EntryCreated` | internal/inventory/inventory.go:719-785 | creation is the earliest report's instant, cut to the millisecond |
| `CatalogueFields.EntryModalities` | internal/inventory/inventory.go:719-825 | each modality list holds exactly what every report of it holds, ascending in byte order |
| `CatalogueFields.EntryEfforts` | internal/inventory/inventory.go:719-785 | efforts are exactly those every report of them has, from low to high |
| `CatalogueFields.EntryName` | internal/inventory/inventory.go:719-785 | the name is that of the first deployment, in byte order of ids, to report one |
| `CatalogueFields.EntryProviders` | internal/inventory/inventory.go:696-715 | the providers are exactly the deployments', each once, ascending in byte order |
| `CatalogueFields.EntryPrices` | internal/inventory/inventory.go:719-785 | every reported price is listed once with its deployment and provider, and nothing else is |
| `PublishedLines.PublishedLineSaysWhatAllSay` | internal/inventory/inventory.go:719-785 | for every line of an accepted file, the published realtime and audio statements are those folds over the reports its endpoints make, silent endpoints abstaining and absent when none reports, and are valid exactly when these reports meet |
| `Catalogue.BuildCatalogue` | internal/inventory/inventory.go:696-715 | in any map order the catalogue is one entry a line, each line once, sorted by model |
| `Catalogue.RowOrderDoesNotMatter` | internal/inventory/inventory.go:696-825 | files that declare the same rows in any order publish the same catalogue |
| `Intersections.IntersectSorted` | internal/inventory/realtime.go:316-324 | the loop keeps exactly the first list's members that the second has, in order |
| `Intersections.IntersectAssociative` | internal/inventory/realtime.go:316-324 | intersection is associative |
| `Intersections.IntersectCommutes` | internal/inventory/realtime.go:316-324 | and commutative on strictly increasing lists |
| `Realtime.IntersectParametersLoop` | internal/inventory/realtime.go:195-226 | the loops compute the specified merge of parameters, absent when either side states none |
| `Realtime.MergeAssociative` | internal/inventory/realtime.go:195-240 | the merge of parameters is associative |
| `Realtime.MergeCommutes` | internal/inventory/realtime.go:195-240 | and commutative on ordered parameters |
| `Realtime.MergeSelf` | internal/inventory/realtime.go:164-170 | merging a statement with itself copies it, so a first report starts the fold |
| `Realtime.MergeOrdered` | internal/inventory/realtime.go:195-226 | merged parameters keep every ordering |
| `Realtime.MergeServesBoth` | internal/inventory/realtime.go:195-256 | merged parameters offer what both sides offer and no more: each detection at levels inside both bounds, fixed or billed in a unit where either side is, the common modality sets and tool choices, the lower cap when both state one, a prompt when both take one |
| `Realtime.AggregateRealtime` | internal/inventory/realtime.go:164-186 | the fold step computes the specified aggregate, a silent report changing nothing |
| `Realtime.AggregateOrdered` | internal/inventory/realtime.go:164-186 | ordered statements aggregate to an ordered one |
| `Realtime.AggregateAssociative` | internal/inventory/realtime.go:164-186 | which reports are folded first makes no difference |
| `Realtime.AggregateCommutes` | internal/inventory/realtime.go:164-186 | nor does the order of two ordered reports |
| `RealtimeFold.ParametersServeWhatAllServe` | internal/inventory/realtime.go:195-256 | folded over any number of valid parameters, the line detects what all detect within the tightest bounds stated, fixed or billed in a unit where any says so, serves the modality sets and tools of all, and caps at the least cap when all state one |
| `RealtimeFold.OffersWhatAllOffer` | internal/inventory/realtime.go:228-240 | a level of a detection may be asked of the folded line exactly when it may be asked of all |
| `RealtimeFold.ParametersValidity` | internal/inventory/realtime.go:195-256 | that fold is valid if and only if all share a detection, no two ranges of a shared detection are disjoint and, unless one never responds, all share a modality set |
| `RealtimeFold.FoldStatesWhatAllState` | internal/inventory/realtime.go:164-186 | folded over any number of valid reports, the line has exactly the transports, session kinds and formats of all, and the folded parameters of all exactly when all state parameters |
| `RealtimeFold.FoldValidity` | internal/inventory/realtime.go:74-94 | the fold of any number of valid reports is valid if and only if all share a transport, a session kind and an input format and, if all state parameters, these meet as above |
| `Audio.AggregateAudio` | internal/inventory/realtime.go:263-312 | the fold step computes the specified aggregate of audio statements |
| `Audio.MergedVoices` | internal/inventory/realtime.go:278-293 | merged voices stay sorted and unique, and each comes from a voice of both sides with its id |
| `Audio.VoiceOfMerged` | internal/inventory/realtime.go:282-293 | looking a voice up in the merge is merging what both sides say of it; a voice only one side has is gone |
| `AudioFold.FoldSaysWhatAllSay` | internal/inventory/realtime.go:263-295 | folded over any number of valid reports: a voice survives exactly when all report it, speaks exactly what all say, has a gender exactly when all agree on it and the first report's name; voices stay sorted and unique and speak within the line's languages |
| `AudioFold.FoldValidity` | internal/inventory/realtime.go:98-130 | the fold of any number of valid reports is valid if and only if some report takes no uploads or all accept a common upload type |
| `Audio.AggregateAssociative` | internal/inventory/realtime.go:263-295 | which reports are folded first makes no difference |
| `Audio.MergeCommutes` | internal/inventory/realtime.go:263-295 | two valid reports commute in everything but the voices' names |
| `DecisionUnicode.JsonHexUnit` | internal/contract/decision_unicode.go:53-67 | the 16-bit accumulation spells the code unit of four hexadecimal digits of either case |
| `DecisionUnicode.ValidateDecisionJsonUnicode` | internal/contract/decision_unicode.go:12-50 | given the validators' verdicts, a body is accepted if and only if no literal holds an unpaired surrogate escape; no index leaves the body |
| `DecisionUnicode.PairedFromLeft` | internal/contract/decision_unicode.go:28-46 | reading left to right, a pair at a time, decides the symmetric definition of pairing |
| `DecisionUnicode.ScanOfPieces` | internal/contract/decision_unicode.go:19-49 | on any text of literals and other bytes the one-bit scan stays in step with the string grammar, and never runs past the end |
| `DecisionUnicode.PairedSpellsScalars` | internal/contract/decision_unicode.go:28-67 | a literal is paired if and only if it spells Unicode scalar values, one code unit or the UTF-16 pair of section 2.1 of RFC 2781 each, in hexadecimal of either case |
| `Migrations.Server.MigrationAttempt` | internal/credentialstore/migration_runner.go:151-171 | one transaction changes body, ledger row and effects together or not at all, and its answer says which unless it is lost |
| `Migrations.Server.InMigrationTransaction` | internal/credentialstore/migration_runner.go:129-149 | at most eight attempts, a further one exactly after contention and a wait that was not cancelled; the database is that of the last attempt alone |
| `Migrations.Server.Migrate` | internal/credentialstore/migration_runner.go:97-125 | a run, successful or not, keeps the ledger a prefix of the versions that names what is in effect, keeps every earlier row, and on success leaves every migration recorded under this binary's checksum; it succeeds if and only if the fate that ends each transaction is a commit, no recorded checksum differs and a first migration still to come finds no tables |
| `Migrations.ApplyKeepsConsistent` | internal/credentialstore/postgres.go:302-333 | applying an unrecorded migration with all before it in effect extends the prefix by one |
| `Migrations.LockRetryDelay` | internal/credentialstore/migration_runner.go:85-93 | a wait is non-negative, under thirty seconds, and for the first five attempts under one second doubled for each attempt before it |
| `Migrations.RetryWaits` | internal/credentialstore/migration_runner.go:85-93 | the seven waits are the random fraction of 1, 2, 4, 8 and 16 seconds and then of 30 |
| `MigrationRuns.StepKeeps` | internal/credentialstore/migration_runner.go:97-171 | one step of any of several interleaved runs keeps the ledger consistent and every run's knowledge true |
| `MigrationRuns.EachBodyAtMostOnce` | internal/credentialstore/migration_runner.go:97-171 | over any interleaving of runs that fail, contend, crash, are cancelled or lose a commit's answer: each body takes effect at most once and in order, the ledger names exactly the versions in effect, and a finished run leaves all recorded |
| `MigrationRuns.LoneRunFinishes` | internal/credentialstore/migration_runner.go:97-171 | a new run left alone, whatever others have done, ends with every migration in effect and recorded, when no recorded checksum differs and a first migration still to come finds no tables |
| `ReviewedMigration.ProveLedger` | internal/credentialstore/reviewed_migration.go:60-82 | the deleting loop accepts a ledger if and only if every row is a known version under this binary's checksum, and lists the missing versions up to the reviewed one in order |
| `ReviewedMigration.PendingIsReviewed` | internal/credentialstore/reviewed_migration.go:61-79 | the pending list is exactly the unrecorded versions up to the reviewed one, each once |
| `ReviewedMigration.OnlyOnePending` | internal/credentialstore/reviewed_migration.go:83-85 | the list comparison accepts exactly when every other version up to the reviewed one is recorded |
| `ReviewedMigration.Review` | internal/credentialstore/reviewed_migration.go:28-128 | success is characterised exactly, by the ledger and by what the transaction reads of authority, claim table and grants; it implies no unknown version, no foreign checksum and every earlier version applied; an inspection changes nothing; an apply adds at most the reviewed migration |
| `ReviewedMigration.ReviewKeepsPrefix` | internal/credentialstore/reviewed_migration.go:206-235 | with increasing versions the reviewed path keeps the ledger a prefix as the runner does |
| `CanonicalQuery.UriEncodeLoop` | internal/awssig/awssig.go:193-205 | the loop escapes exactly the bytes outside the unreserved set |
| `CanonicalQuery.UriEncode` | internal/awssig/awssig.go:193-205 | an encoded string never holds an equals sign or an ampersand |
| `CanonicalQuery.UriRoundTrip` | internal/awssig/awssig.go:193-205 | percent-decoding undoes the encoding, so it is injective |
| `CanonicalQuery.CanonicalQueryLoop` | internal/awssig/awssig.go:170-187 | for every map iteration order the loops build the sorted rendering |
| `CanonicalQuery.ListingReadsBack` | internal/awssig/awssig.go:170-187 | equal canonical strings list equal pairs in equal order |
| `CanonicalQuery.CanonicalIsTheMultiset` | internal/awssig/awssig.go:170-187 | two queries have equal canonical strings if and only if they hold every key and value pair equally often, in any map order and value order |
| `CanonicalQuery.UnreservedList` | internal/awssig/awssig.go:193-205 | the bytes that stand for themselves are the letters, the digits and the four marks |
| `CanonicalQuery.EncodedByteByByte` | internal/awssig/awssig.go:193-205 | every other byte is a percent sign and its two upper-case hexadecimal digits |
| `CanonicalQuery.CanonicalReadsBack` | internal/awssig/awssig.go:170-205 | split at ampersands and equals signs and decoded, the canonical string lists the query's pairs, each as often as the query, with keys and each key's values ascending in byte order |
| `Ordering.LessIsByteOrder` | internal/awssig/awssig.go:170-205 | a string sorts before another exactly when it is a proper prefix of it or has the smaller byte where they first differ |
| `Base64.RoundTrip` | internal/contract/credential.go:121-122 | decoding undoes encoding, padded or not, strict or not |
| `Base64.StrictIsCanonical` | internal/contract/credential.go:104-105 | what the strict decoder accepts is the encoding of what it gives |
| `Base64.EncodedLength` | internal/contract/credential.go:121-121 | the exact length of an encoding |
| `Base64.AlphabetListed` | internal/contract/credential.go:121-121 | the digits are those of tables 1 and 2 of RFC 4648 in order |
| `Base64.EncodedFromTheTop` | internal/contract/credential.go:121-121 | three bytes are encoded as the four digits of their number, high first |
| `Base64.LastFromTheTop` | internal/contract/credential.go:121-121 | a last two bytes or one are encoded as the digits that hold their bits, then padding in the padded variant |
| `CredentialSecret.Secret.UnmarshalJSON` | internal/contract/credential.go:96-130 | the receiver is set exactly on acceptance, to the decoded bytes, and otherwise keeps its value |
| `CredentialSecret.AcceptsExactlyTheEncodings` | internal/contract/credential.go:96-130 | a document is accepted with given bytes if and only if they are 1 to 4096 visible ASCII bytes and it is their quoted canonical encoding |
| `CredentialSecret.StrictDecodingSuffices` | internal/contract/credential.go:121-126 | the comparison with the re-encoding never refuses what the strict decoder passed |
| `ImageLength.Base64DecodedLength` | internal/contract/image.go:108-128 | a length is counted if and only if the text decodes, and is then the number of bytes it decodes to |
| `ImageLength.CanonicalExactly` | internal/contract/image.go:104-128 | a text is some byte sequence's encoding if and only if it is counted and the digit before its padding drops no set bit |
| `ImageLength.CountedButNotCanonical` | internal/contract/image.go:104-128 | counterexample: a concrete counted text that encodes nothing |
| `FeedCursor.ParseUndoesEncode` | internal/credentialstore/feed.go:31-61 | parsing undoes encoding for every index of 63 bits and every id of 1 to 256 bytes, bars included, and the token stays within 410 characters after its prefix |
| `FeedCursor.ParsedIsEncodedExactly` | internal/credentialstore/feed.go:36-61 | a token that parses is the encoder's if and only if it has no line break, drops no bit and writes its time as the formatter does |
| `FeedCursor.ParsesExactly` | internal/credentialstore/feed.go:36-61 | a token parses to a cursor if and only if it is the prefix and at most 512 characters that decode to a time that parses, a bar, the decimal index below 2^63, a bar and the id of 1 to 256 bytes |
| `FeedCursor.LineBreakPasses` | internal/credentialstore/feed.go:36-46 | counterexample for every cursor: its token with a line break after it parses to the same cursor |
| `FeedCursor.ItoaReadsBack` | internal/credentialstore/feed.go:56-57 | a decimal index of 63 bits reads back as itself |
| `Bindings.ReadRows` | cmd/kaana-credentials/binding_manifest.go:98-125 | the two loops accept if and only if every row is well formed and no deployment or operation repeats across both lists |
| `Bindings.Apply` | cmd/kaana-credentials/binding_manifest.go:140-159 | bind calls are made for exactly the rows not held, in order, up to the first refusal, and the table is the old one with the accepted rows bound |
| `Bindings.AppliedIsSettled` | cmd/kaana-credentials/binding_manifest.go:140-159 | after a fully successful application every assignment is held, no other deployment is touched and a second application misses nothing |
| `Bindings.Verify` | cmd/kaana-credentials/binding_manifest.go:161-178 | the readback passes if and only if it is a permutation of assignments plus retained rows, without assuming its ids distinct |
| `Bindings.Pigeonhole` | cmd/kaana-credentials/binding_manifest.go:161-178 | equal counts and every distinct expected row present leave room for nothing else |
| `Bindings.AppliedThenVerified` | cmd/kaana-credentials/binding_manifest.go:140-178 | after a fully successful application any listing of the table verifies if and only if what it holds outside the assignments is exactly what the manifest retains |

## Left out

- Error texts and reasons: every refusal of a parser is one `None`, and on a refusal no claim is made about half-updated reader state, which the source never reads again.
- Slice lengths: the container methods require at most 2^48 bytes, the address space of a 64-bit process; the specification functions have no such bound.
- Closures: `eachChild` and `eachBox` take visitors that capture variables; here the loop returns the list it visits and the visitor's loop runs over that list.
- Matroska beyond duration: content encodings, lacing sizes beyond the frame count, seeking and tags are ignored here as they are in the source.
- MatroskaSpan.BlockOrderDoesNotMatter: permutes blocks with no other element among them, where acceptance is kept too; MatroskaSpan.SameBlocksMeasureAlike covers any rearrangement of accepted files that keeps what is recorded.
- Mp4Sum.StandardTraf: states the order of defaults for a track fragment whose one header comes first; other orders follow the specification function but have no closed form.
- Mp4Sum.BoxOrderDoesNotMatter: asks for one movie box, because with several the last one's fields win.
- Mp4Writing.TrackReadsBack: writes a track's boxes in their usual order (tkhd, mdia; hdlr, mdhd, minf) with any others between; other orders follow the specification function.
- Mp4Writing.WrittenFilmMeasures: asks that the fragments stay below 2^64 ticks each; Mp4Writing.WrittenFilmExactly does not.
- AdtsWriting.WrittenStream: writes frames of one block count; Adts.MeasuredWhenTiled covers streams that mix them.
- UploadAnswers.OggUpload: like UploadAnswers.Mp4Upload, asks for a rate of 1000 or more, below which Probe.AnsweredByCeiling has one exception.
- Matroska end offsets: a size has at most eight bytes and so stays below 2^56, which with the slice bound above means that no 64-bit end offset wraps; offsets are unbounded integers here.
- CustomerLimit.Registry.Admit: time is an integer that adds without saturating, the mutex is the atomicity of each call, and entries are values in the map rather than pointers into it.
- Pointer identity of a limit entry: a report changes the entry found under the scope at that time, as the source does, so no stale pointer can arise.
- Inventory.Parse: the JSON decoding and the grammars of slugs, regions, references, names, words and prices enter as one flag of the row; the other rules of a row and of its observation are modelled.
- Catalogue.Aggregate: the accepted-parameters field is omitted, because `provider.IntersectParameterSets` is not part of this model.
- RealtimeFold.FoldValidity: like AudioFold.FoldValidity, leaves word grammars, enumerations and length bounds of names out of validity, since a merge only keeps members that both sides already had.
- Thresholds of turn detection and the retry jitter are reals: floating-point rounding is not modelled.
- DecisionUnicode.ValidateDecisionJsonUnicode: the UTF-8 and JSON validators are parameters; of JSON only what the scanner depends on is assumed, that a valid document is literals and other bytes that are no quotes.
- Migrations.Server.Migrate: the database is a transactional ledger with its effects; SQL bodies, timeouts and the parsing of timeout markers are left out, and a checksum stands for its body.
- ReviewedMigration.Review: the catalog SQL is not modelled; what it reads (authority, claim table, grants) are parameters that the branches test, and the serializable transaction is one step.
- CanonicalQuery.CanonicalQueryLoop: `sort.Strings` is the specification's sort; the rest of the signing, with its hashes, is not part of this model.
- FeedCursor.ParseUndoesEncode: the time format is a parameter that reads back what it writes, in at most 30 characters and without a bar; its calendar is not modelled.
- CredentialSecret.Secret.UnmarshalJSON: the clearing of buffers is left out, since no value depends on it.
- Bindings.ReadRows: the other fields of the manifest (inventory pin, archive, counts) are settled one branch each and left out; provider grammar is a parameter.
- Bindings.Apply: the database accepts a bind or refuses it and changes nothing; its own SQL, the actor of a call and the audit trail are left out.
- The executor, rotation, provider, publisher, realtime and public API packages, key custody, HTTP, flags and logging are not part of this model.
