// What an answered upload is worth: the milliseconds the probe answers against
// the time the file states, and whole files for which they differ.

module WebmAnswers {
  import opened Base
  import opened Words
  import opened Ebml
  import opened Matroska
  import opened Extremes
  import opened MatroskaSpan
  import opened WebmWriting
  import opened Probe

  /** At a billion units a second the rounding has no exception. */
  lemma NanosecondCeiling(data: seq<byte>, m: nat)
    ensures Answer(AudioWebm, data) == Some(m) ==>
              && Matroska.Duration(data).Some?
              && var ns := Matroska.Duration(data).value.0;
              m == Ceiling(ns, NANOSECONDS) <= MAX_MILLISECONDS && ns <= MAX_MILLISECONDS * 1_000_000
  {
    hide Matroska.Duration;
    hide Ceiling;
    hide Rounded;
    AnsweredByCeiling(AudioWebm, data, m);
    NoRateBut(data);
    if Answer(AudioWebm, data) == Some(m) {
      var ns := Matroska.Duration(data).value.0;
      assert !JustBelow(ns, NANOSECONDS);
      assert m * NANOSECONDS >= ns * 1000 by { CeilingCovers(ns, m); }
    }
  }

  lemma CeilingCovers(ns: nat, m: nat)
    requires m == Ceiling(ns, NANOSECONDS)
    ensures ns * 1000 <= m * NANOSECONDS
  {
  }

  lemma NoRateBut(data: seq<byte>)
    ensures Matroska.Duration(data).Some? ==> Matroska.Duration(data).value.1 == NANOSECONDS
  {
    hide Payload;
    hide Walk;
  }

  lemma CeilingMonotone(a: nat, b: nat)
    requires a <= b
    ensures Ceiling(a, NANOSECONDS) <= Ceiling(b, NANOSECONDS)
    ensures Ceiling(a, NANOSECONDS) == Ceiling(b, NANOSECONDS) ==> b - a < 1_000_000
  {
  }

  /**
   * An answered WebM upload is never answered too long. Its nanoseconds are the
   * span its blocks state exactly when that span is below 2^64 and no multiple of
   * 2^64 parts its starts or its ends; the answer is then that span's ceiling. A
   * lost span of a millisecond or more always shows in the answer.
   */
  lemma AnsweredWebm(data: seq<byte>, m: nat)
    ensures Answer(AudioWebm, data) == Some(m) && FilePlays(data) != [] ==>
              && Matroska.Duration(data).Some?
              && var plays, ns := FilePlays(data), Matroska.Duration(data).value.0;
              && m == Ceiling(ns, NANOSECONDS)
              && ns <= StatedSpan(plays)
              && (ns == StatedSpan(plays) <==>
                  StatedSpan(plays) < U64 && OneWindow(Starts(plays)) && OneWindow(Ends(plays)))
              && m <= Ceiling(StatedSpan(plays), NANOSECONDS)
              && (m == Ceiling(StatedSpan(plays), NANOSECONDS) ==> StatedSpan(plays) - ns < 1_000_000)
  {
    hide Answer;
    hide Matroska.Duration;
    hide FilePlays;
    hide Ceiling;
    hide OneWindow;
    hide LossesCancel;
    hide StatedSpan;
    hide Recorded;
    hide AllSeen;
    if Answer(AudioWebm, data) == Some(m) && FilePlays(data) != [] {
      NanosecondCeiling(data, m);
      ExactSpan(data);
      RecordSeesFile(data);
      var plays, ns := FilePlays(data), Matroska.Duration(data).value.0;
      SeenEndsFollow(Recorded(FRESH, ItemsOf(data)), plays);
      if LossesCancel(plays) {
        CancelledIsLong(plays);
      }
      SpanIsNatural(plays);
      CeilingMonotone(ns, StatedSpan(plays));
    }
  }

  lemma SpanIsNatural(plays: seq<Interval>)
    requires plays != [] && EndsFollowStarts(plays)
    ensures StatedSpan(plays) >= 0
  {
    hide LeastNumber;
    hide GreatestNumber;
    Bounds(plays);
  }

  // ----- two files -----

  /** A recording of track 1 at the default scale, all its blocks of the default duration. */
  function Clip(frame: seq<byte>, clusters: seq<Cluster>): Recording
  {
    Recording(None, [], Track(1, 1, [], frame), clusters)
  }

  /** A SimpleBlock without lacing. */
  function Plain(relative: int): Block { Block(relative, 0, [], None) }

  lemma ClipWritable(frame: seq<byte>, clusters: seq<Cluster>)
    requires |frame| <= 8 && forall c | c in clusters :: WritableCluster(c)
    ensures Writable(Clip(frame, clusters))
  {
    hide Body;
    assert VintLimit(1) == 0x80 && VintLimit(8) == 0x100_0000_0000_0000;
    var fields := Fields(Track(1, 1, [], frame), 2);
    assert [] + fields + [] == fields;
    assert Fit(fields);
    BodySize(fields);
    var last := fields[1..][1..][1..];
    assert last[1..] == [] && Room(last) == 12 + |frame|;
    assert Room(fields[1..][1..]) == 12 + Room(last);
    assert Room(fields) == 20 + Room(fields[1..]) && Room(fields[1..]) == 13 + Room(fields[1..][1..]);
  }

  /** Where a block of a clip plays, and where the reader keeps it. */
  lemma PlainBlock(frame: seq<byte>, d: nat, timecode: nat, relative: int)
    requires BeValue(frame) == d > 0 && 0 <= timecode + relative
    ensures var t, tick := Track(1, 1, [], frame), timecode + relative;
            && BlockPlays(t, 1_000_000, timecode, [Plain(relative)]) == [Interval(tick * 1_000_000, tick * 1_000_000 + d)]
            && (!(U63 <= tick < U64) && Held(tick) * 1_000_000 < U64 ==>
                  && Holdable(t, 1_000_000, timecode, Plain(relative))
                  && KeptPlay(t, 1_000_000, timecode, Plain(relative))
                     == Interval(Held(tick) * 1_000_000, (Held(tick) * 1_000_000 + d) % U64))
  {
    hide BeValue;
    assert [Plain(relative)][1..] == [];
  }

  const HOUR := 3_600_000_000_000  // in nanoseconds

  const HOUR_START := 18_446_740_473_709  // in milliseconds

  const HOUR_PLAYS: seq<Interval> := [
    Interval(HOUR_START * 1_000_000, HOUR_START * 1_000_000 + HOUR),
    Interval((HOUR_START + 32_767) * 1_000_000, (HOUR_START + 32_767) * 1_000_000 + HOUR)]

  const HOUR_KEPT: seq<Interval> := [
    Interval(HOUR_START * 1_000_000, HOUR_START * 1_000_000 + HOUR),
    Interval((HOUR_START + 32_767) * 1_000_000, (HOUR_START + 32_767) * 1_000_000 + HOUR - U64)]

  /** An hour's frame, and another half a minute later whose end passes 2^64 ns. */
  function HourRecording(): Recording
  {
    Clip(BeBytes(HOUR, 6), [Cluster(BeBytes(HOUR_START, 6), [Plain(0), Plain(32_767)])])
  }

  lemma SixBytes()
    ensures BeValue(BeBytes(HOUR, 6)) == HOUR && BeValue(BeBytes(HOUR_START, 6)) == HOUR_START
  {
    assert Pow256(3) == 0x100_0000 && Pow256(6) == 0x1_0000_0000_0000;
    BeRoundTrip(HOUR, 6);
    BeRoundTrip(HOUR_START, 6);
  }

  /** Two blocks of one cluster. */
  lemma PairOf(t: Track, timecode: nat, a: Block, b: Block)
    ensures BlockPlays(t, 1_000_000, timecode, [a, b])
         == BlockPlays(t, 1_000_000, timecode, [a]) + BlockPlays(t, 1_000_000, timecode, [b])
    ensures Holdable(t, 1_000_000, timecode, a) && Holdable(t, 1_000_000, timecode, b) ==>
              && AllHoldable(t, 1_000_000, timecode, [a, b])
              && KeptBlocks(t, 1_000_000, timecode, [a, b])
                 == [KeptPlay(t, 1_000_000, timecode, a), KeptPlay(t, 1_000_000, timecode, b)]
  {
    hide Holdable;
    hide KeptPlay;
    hide Lasting;
    assert [a, b][1..] == [b] && [a][1..] == [] && [b][1..] == [];
    assert BlockPlays(t, 1_000_000, timecode, []) == [];
    var x, y := BlockPlays(t, 1_000_000, timecode, [a]), BlockPlays(t, 1_000_000, timecode, [b]);
    assert BlockPlays(t, 1_000_000, timecode, [a, b]) == x + y;
    if Holdable(t, 1_000_000, timecode, a) && Holdable(t, 1_000_000, timecode, b) {
      assert KeptBlocks(t, 1_000_000, timecode, [b]) == [KeptPlay(t, 1_000_000, timecode, b)] + [];
    }
  }

  lemma OneBlock(t: Track, timecode: nat, a: Block)
    ensures Holdable(t, 1_000_000, timecode, a) ==>
              && AllHoldable(t, 1_000_000, timecode, [a])
              && KeptBlocks(t, 1_000_000, timecode, [a]) == [KeptPlay(t, 1_000_000, timecode, a)]
  {
    hide Holdable;
    hide KeptPlay;
    assert [a][1..] == [];
  }

  lemma HourBlocks()
    ensures var rec := HourRecording();
            Writable(rec) && Plays(rec) == HOUR_PLAYS && Taken(rec) && Kept(rec) == HOUR_KEPT
  {
    hide BeBytes;
    hide BeValue;
    hide Writable;
    hide Holdable;
    hide KeptPlay;
    hide BlockPlays;
    hide KeptBlocks;
    var rec := HourRecording();
    var frame, code := BeBytes(HOUR, 6), BeBytes(HOUR_START, 6);
    SixBytes();
    ClipWritable(frame, rec.clusters);
    PlainBlock(frame, HOUR, HOUR_START, 0);
    PlainBlock(frame, HOUR, HOUR_START, 32_767);
    PairOf(rec.track, HOUR_START, Plain(0), Plain(32_767));
    assert rec.clusters[1..] == [];
    assert ClusterPlays(rec.track, 1_000_000, rec.clusters)
        == BlockPlays(rec.track, 1_000_000, HOUR_START, rec.clusters[0].blocks) + [];
    assert KeptClusters(rec.track, 1_000_000, rec.clusters)
        == KeptBlocks(rec.track, 1_000_000, HOUR_START, rec.clusters[0].blocks) + [];
  }

  /** Half a minute is lost: the file states an hour and 32.767 seconds, and an hour is answered. */
  lemma HourIsTooShort()
    ensures Writable(HourRecording())
    ensures var data := FileOf(HourRecording());
            && FilePlays(data) == HOUR_PLAYS
            && Matroska.Duration(data) == Some((HOUR, NANOSECONDS))
            && Answer(AudioWebm, data) == Some(3_600_000)
            && StatedSpan(HOUR_PLAYS) == HOUR + 32_767_000_000 && Ceiling(HOUR + 32_767_000_000, NANOSECONDS) == 3_632_767
  {
    hide FileOf;
    hide FilePlays;
    hide Matroska.Duration;
    hide Answer;
    hide Ceiling;
    hide StatedSpan;
    hide Units;
    hide Rounded;
    hide Writable;
    hide HourRecording;
    HourMeasured();
    var data := FileOf(HourRecording());
    HourNumbers();
    UnitsByMedia(data);
    AnswerFromUnits(AudioWebm, data, HOUR, NANOSECONDS);
  }

  lemma HourMeasured()
    ensures Writable(HourRecording())
    ensures FilePlays(FileOf(HourRecording())) == HOUR_PLAYS && Matroska.Duration(FileOf(HourRecording())) == Some((HOUR, NANOSECONDS))
  {
    hide FileOf;
    hide FilePlays;
    hide Matroska.Duration;
    hide Writable;
    hide Plays;
    hide Kept;
    hide Taken;
    hide LeastNumber;
    hide GreatestNumber;
    hide Ceiling;
    hide StatedSpan;
    hide Rounded;
    hide HourRecording;
    HourBlocks();
    HourNumbers();
    WrittenFileStates(HourRecording());
    WrittenFileExactly(HourRecording());
  }

  lemma HourNumbers()
    ensures GreatestNumber(Ends(HOUR_KEPT)) - LeastNumber(Starts(HOUR_KEPT)) == HOUR
    ensures Rounded(HOUR, NANOSECONDS) == Some(3_600_000)
    ensures StatedSpan(HOUR_PLAYS) == HOUR + 32_767_000_000 && Ceiling(HOUR + 32_767_000_000, NANOSECONDS) == 3_632_767
  {
    var a, b := HOUR_PLAYS[0], HOUR_PLAYS[1];
    assert Starts(HOUR_PLAYS) == [a.start, b.start] && Ends(HOUR_PLAYS) == [a.end, b.end];
    assert StatedSpan(HOUR_PLAYS) == HOUR + 32_767_000_000;
    assert Starts(HOUR_KEPT) == [a.start, b.start] && Ends(HOUR_KEPT) == [a.end, b.end - U64];
  }

  const LAST_TICK: seq<byte> := [0xff, 0xff, 0xff, 0xff, 0xff, 0xff, 0xff, 0xff]

  const FRAME: seq<byte> := [0x0f, 0x42, 0x40]  // a millisecond in nanoseconds

  /** A frame five milliseconds in, and one whose tick is 2^64. */
  function TickRecording(): Recording
  {
    Clip(FRAME, [Cluster([0], [Plain(5)]), Cluster(LAST_TICK, [Plain(1)])])
  }

  const TICK_PLAYS: seq<Interval> := [
    Interval(5_000_000, 6_000_000), Interval(U64 * 1_000_000, U64 * 1_000_000 + 1_000_000)]

  const TICK_KEPT: seq<Interval> := [Interval(5_000_000, 6_000_000), Interval(0, 1_000_000)]

  lemma TickValues()
    ensures BeValue(FRAME) == 1_000_000 && BeValue(LAST_TICK) == U64 - 1 && BeValue([0]) == 0
  {
    assert [0][..0] == [];
    assert FRAME[..2][..1] == [0x0f] && [0x0f][..0] == [];
    assert FRAME[..2] == [0x0f, 0x42] && FRAME[..2][..1] == [0x0f];
    assert BeValue([0x0f]) == 0x0f && BeValue([0x0f, 0x42]) == 0x0f42;
    assert |LAST_TICK| == 8;
    AllOnes(8);
    assert LAST_TICK == seq(8, _ => 0xff);
    assert Pow256(4) == U32 && Pow256(8) == U64;
  }

  lemma {:induction false} AllOnes(n: nat)
    ensures BeValue(seq(n, _ => 0xff)) == Pow256(n) - 1
  {
    if n > 0 {
      AllOnes(n - 1);
      var s: seq<byte> := seq(n, _ => 0xff);
      assert s[..n - 1] == seq(n - 1, _ => 0xff);
    }
  }

  lemma TickBlocks()
    ensures var rec := TickRecording();
            Writable(rec) && Plays(rec) == TICK_PLAYS && Taken(rec) && Kept(rec) == TICK_KEPT
  {
    hide BeValue;
    hide Writable;
    hide Holdable;
    hide KeptPlay;
    hide BlockPlays;
    hide KeptBlocks;
    hide AllHoldable;
    var rec := TickRecording();
    var t := rec.track;
    TickValues();
    ClipWritable(FRAME, rec.clusters);
    PlainBlock(FRAME, 1_000_000, 0, 5);
    PlainBlock(FRAME, 1_000_000, U64 - 1, 1);
    OneBlock(t, 0, Plain(5));
    OneBlock(t, U64 - 1, Plain(1));
    TwoClusters(t, rec.clusters[0], rec.clusters[1]);
    assert rec.clusters == [rec.clusters[0], rec.clusters[1]];
  }

  lemma TwoClusters(t: Track, a: Cluster, b: Cluster)
    ensures ClusterPlays(t, 1_000_000, [a, b])
         == BlockPlays(t, 1_000_000, BeValue(a.timecode), a.blocks) + BlockPlays(t, 1_000_000, BeValue(b.timecode), b.blocks)
    ensures AllHoldable(t, 1_000_000, BeValue(a.timecode), a.blocks) && AllHoldable(t, 1_000_000, BeValue(b.timecode), b.blocks) ==>
              && AllTaken(t, 1_000_000, [a, b])
              && KeptClusters(t, 1_000_000, [a, b])
                 == KeptBlocks(t, 1_000_000, BeValue(a.timecode), a.blocks) + KeptBlocks(t, 1_000_000, BeValue(b.timecode), b.blocks)
  {
    hide BeValue;
    hide AllHoldable;
    hide BlockPlays;
    hide KeptBlocks;
    assert [a, b][1..] == [b] && [b][1..] == [];
    var x, y := BlockPlays(t, 1_000_000, BeValue(a.timecode), a.blocks), BlockPlays(t, 1_000_000, BeValue(b.timecode), b.blocks);
    assert ClusterPlays(t, 1_000_000, [b]) == y + [];
    assert ClusterPlays(t, 1_000_000, [a, b]) == x + y;
    if AllHoldable(t, 1_000_000, BeValue(a.timecode), a.blocks) && AllHoldable(t, 1_000_000, BeValue(b.timecode), b.blocks) {
      assert KeptClusters(t, 1_000_000, [b]) == KeptBlocks(t, 1_000_000, BeValue(b.timecode), b.blocks) + [];
    }
  }

  /** Six milliseconds are answered for a file that states more than half a million millennia. */
  lemma TickIsTooSmall()
    ensures Writable(TickRecording())
    ensures var data := FileOf(TickRecording());
            && FilePlays(data) == TICK_PLAYS
            && Matroska.Duration(data) == Some((6_000_000, NANOSECONDS))
            && Answer(AudioWebm, data) == Some(6)
            && StatedSpan(TICK_PLAYS) == U64 * 1_000_000 - 4_000_000
            && Ceiling(U64 * 1_000_000 - 4_000_000, NANOSECONDS) > MAX_MILLISECONDS
  {
    hide FileOf;
    hide FilePlays;
    hide Matroska.Duration;
    hide Answer;
    hide Ceiling;
    hide StatedSpan;
    hide Units;
    hide Rounded;
    hide Writable;
    hide TickRecording;
    TickMeasured();
    var data := FileOf(TickRecording());
    TickNumbers();
    UnitsByMedia(data);
    AnswerFromUnits(AudioWebm, data, 6_000_000, NANOSECONDS);
  }

  lemma TickMeasured()
    ensures Writable(TickRecording())
    ensures FilePlays(FileOf(TickRecording())) == TICK_PLAYS && Matroska.Duration(FileOf(TickRecording())) == Some((6_000_000, NANOSECONDS))
  {
    hide FileOf;
    hide FilePlays;
    hide Matroska.Duration;
    hide Writable;
    hide Plays;
    hide Kept;
    hide Taken;
    hide LeastNumber;
    hide GreatestNumber;
    hide Ceiling;
    hide StatedSpan;
    hide Rounded;
    hide TickRecording;
    TickBlocks();
    TickNumbers();
    WrittenFileStates(TickRecording());
    WrittenFileExactly(TickRecording());
  }

  lemma TickNumbers()
    ensures GreatestNumber(Ends(TICK_KEPT)) - LeastNumber(Starts(TICK_KEPT)) == 6_000_000
    ensures Rounded(6_000_000, NANOSECONDS) == Some(6)
    ensures StatedSpan(TICK_PLAYS) == U64 * 1_000_000 - 4_000_000
            && Ceiling(U64 * 1_000_000 - 4_000_000, NANOSECONDS) > MAX_MILLISECONDS
  {
    var a, b := TICK_PLAYS[0], TICK_PLAYS[1];
    assert Starts(TICK_PLAYS) == [a.start, b.start] && Ends(TICK_PLAYS) == [a.end, b.end];
    assert StatedSpan(TICK_PLAYS) == U64 * 1_000_000 - 4_000_000;
    assert Starts(TICK_KEPT) == [5_000_000, 0] && Ends(TICK_KEPT) == [6_000_000, 1_000_000];
  }
}

module Mp4Answers {
  import opened Base
  import opened Words
  import opened Boxes
  import opened Mp4
  import opened Mp4Sum
  import opened Mp4Fields
  import opened Mp4Writing
  import opened Permutations
  import opened Probe

  /** Units that are 2^64 or more apart never round to the same milliseconds at a 32-bit rate. */
  lemma CeilingsApart(a: nat, b: nat, rate: u32)
    requires rate > 0 && a + U64 <= b
    ensures Ceiling(a, rate) < Ceiling(b, rate)
  {
    hide Ceiling;
    CeilingBounds(a, rate);
    CeilingBounds(b, rate);
    if Ceiling(b, rate) <= Ceiling(a, rate) {
      MulMonotone(Ceiling(b, rate), Ceiling(a, rate), rate);
      assert false;
    }
  }

  lemma CeilingBounds(units: nat, rate: nat)
    requires rate > 0
    ensures units * 1000 <= Ceiling(units, rate) * rate < units * 1000 + rate
    ensures units > 0 ==> Ceiling(units, rate) > 0
  {
    var m := Ceiling(units, rate);
    assert m > 0 ==> (m - 1) * rate == m * rate - rate;
  }

  /**
   * An answered MP4 upload is its true total's ceiling if and only if no
   * fragment's own runs reach 2^64 ticks and the rounding's one exception does
   * not apply. A wrong answer is too short.
   */
  lemma AnsweredMp4(data: seq<byte>, m: nat)
    ensures Answer(AudioMp4, data) == Some(m) ==>
              && Mp4.Duration(data).Some? && |SoundTracks(Within(VisitTop, NO_MOVIE, data).value.tracks)| == 1
              && var movie := Within(VisitTop, NO_MOVIE, data).value;
              var rate := SoundTracks(movie.tracks)[0].timescale;
              && rate > 0
              && (m == Ceiling(TrueTotal(movie), rate) <==> FragmentsFit(movie) && !JustBelow(TrueTotal(movie), rate))
              && m <= Ceiling(TrueTotal(movie), rate)
  {
    hide Within;
    hide SoundTracks;
    hide TrueTotal;
    hide FragmentsFit;
    hide Ceiling;
    hide JustBelow;
    hide Rounded;
    hide Answer;
    if Answer(AudioMp4, data) == Some(m) {
      AnsweredByCeiling(AudioMp4, data, m);
      ExactTotal(data);
      RateAndUnits(data);
      var movie := Within(VisitTop, NO_MOVIE, data).value;
      var rate, units, exact := SoundTracks(movie.tracks)[0].timescale, Mp4.Duration(data).value.0, TrueTotal(movie);
      CeilingBounds(exact, rate);
      RoundedIsCeiling(units, rate);
      if !FragmentsFit(movie) {
        FurtherApart(units, exact);
        CeilingsApart(units, exact, rate);
      }
    }
  }

  lemma FurtherApart(a: nat, b: nat)
    requires a <= b && a != b && (b - a) % U64 == 0
    ensures a + U64 <= b
  {
  }

  lemma RateAndUnits(data: seq<byte>)
    requires Mp4.Duration(data).Some?
    ensures var tracks := SoundTracks(Within(VisitTop, NO_MOVIE, data).value.tracks);
            && |tracks| == 1 && Mp4.Duration(data).value.0 > 0 && Mp4.Duration(data).value.1 == tracks[0].timescale
  {
    hide Within;
    hide SoundTracks;
    hide CodedTicks;
  }

  // ----- a file -----

  const RATE: u32 := 96_000
  const LARGEST: u32 := 0xffff_ffff

  const PLAIN := Shape(false, false, false, false, false, false)
  const HEADER := FragmentHeader(1, [], [], None)

  /** A run of so many samples of the default duration. */
  function PlainRun(count: u32): (r: WrittenRun)
    ensures RunWritten(r) && |r.body| == 8
  {
    var optional: seq<byte> := [];
    WrittenRun(WriteCounted(PLAIN, 0, optional, count, []), PLAIN, Counted(count))
  }

  function Runs(): seq<WrittenRun> { [PlainRun(LARGEST), PlainRun(LARGEST), PlainRun(5)] }

  /** A fragment header that only names the track. */
  function PlainHeader(): (r: seq<byte>)
    ensures |r| <= 24 && IsFragmentHeader(r, HEADER)
  {
    hide WriteTfhd;
    WriteTfhd(HEADER, 0, 0, [])
  }

  function Trex(): (t: WrittenTrex)
    ensures TrexWritten(t) && |t.body| == 16
  {
    WrittenTrex(WriteTrex(0, 1, 1, LARGEST, []), 1, LARGEST)
  }

  function Traf(): (t: WrittenTraf)
    ensures TrafWritten(t) && |t.body| < 200 && t.header == HEADER && t.runs == Runs()
  {
    hide PlainRun;
    hide PlainHeader;
    hide Enclose;
    hide Holds;
    hide RunWritten;
    hide IsFragmentHeader;
    var header := Box(TFHD, PlainHeader());
    RunBoxesListed();
    var boxes := [header] + RunBoxes(Runs());
    TrafSize(header);
    Enclosed(boxes, {TFHD, TRUN});
    WrittenTraf(Enclose(boxes), PlainHeader(), HEADER, Runs())
  }

  lemma RunBoxesListed()
    ensures RunBoxes(Runs()) == [RunBox(PlainRun(LARGEST)), RunBox(PlainRun(LARGEST)), RunBox(PlainRun(5))]
  {
    hide PlainRun;
    var rs := Runs();
    assert rs[1..][1..][1..] == [];
    assert RunBoxes(rs[1..][1..]) == [RunBox(PlainRun(5))] + [];
    assert RunBoxes(rs[1..]) == [RunBox(PlainRun(LARGEST))] + RunBoxes(rs[1..][1..]);
  }

  lemma TrafSize(header: Box)
    requires |header.body| <= 24
    ensures Sum(BoxLength, [header] + RunBoxes(Runs())) < 200
  {
    hide PlainRun;
    RunBoxesListed();
    SumAppend(BoxLength, [header], RunBoxes(Runs()));
    FewBoxes(RunBox(PlainRun(LARGEST)), RunBox(PlainRun(LARGEST)), RunBox(PlainRun(5)));
    FewBoxes(header, header, header);
  }

  function Mvex(): (x: WrittenMvex)
    ensures MvexWritten(x) && x.trexs == [Trex()] && |x.body| == 32
  {
    hide Trex;
    hide Enclose;
    hide Holds;
    hide TrexWritten;
    var boxes := [Box(TREX, Trex().body)];
    FewBoxes(boxes[0], boxes[0], boxes[0]);
    Enclosed(boxes, {TREX});
    OneTrex(Trex());
    WrittenMvex(Enclose(boxes), [Trex()])
  }

  function Moof(): (m: WrittenMoof)
    ensures MoofWritten(m) && m.trafs == [Traf()] && |m.body| < 300
  {
    hide Traf;
    hide Enclose;
    hide Holds;
    hide TrafWritten;
    var boxes := [Box(TRAF, Traf().body)];
    FewBoxes(boxes[0], boxes[0], boxes[0]);
    Enclosed(boxes, {TRAF});
    OneTraf(Traf());
    WrittenMoof(Enclose(boxes), [Traf()])
  }

  lemma OneTrex(t: WrittenTrex)
    ensures TrexBoxes([t]) == [Box(TREX, t.body)]
  {
    assert [t][..0] == [];
    assert TrexBoxes([t]) == [] + [Box(TREX, t.body)];
  }

  lemma OneTraf(t: WrittenTraf)
    ensures TrafBoxes([t]) == [Box(TRAF, t.body)]
  {
    assert [t][1..] == [];
    assert TrafBoxes([t]) == [Box(TRAF, t.body)] + [];
  }

  /** A movie box of one sound track without samples of its own, and the largest default. */
  function Moov(): (s: seq<byte>)
    ensures |s| < 0x100_0000_1000
    ensures Holds(s, {TRAK, MVEX}, TrackBoxes([SoundTrack(1, RATE, [])]) + MvexBoxes(Some(Mvex())))
  {
    hide SoundTrack;
    hide Mvex;
    hide Enclose;
    hide Holds;
    hide MvexWritten;
    var t := SoundTrack(1, RATE, []);
    var boxes := [Box(TRAK, t.trak), Box(MVEX, Mvex().body)];
    FewBoxes(boxes[0], boxes[0], boxes[1]);
    Enclosed(boxes, {TRAK, MVEX});
    OneOfEach(t, Mvex(), Moof());
    Enclose(boxes)
  }

  /** A fragmented file of that movie box and one fragment of three long runs. */
  function Data(): (s: seq<byte>)
    ensures Holds(s, {MOOV, MOOF}, [Box(MOOV, Moov()), Box(MOOF, Moof().body)])
  {
    hide Moof;
    hide Moov;
    hide Enclose;
    hide WriteBox;
    hide WriteBoxes;
    hide Among;
    hide Holds;
    hide MoofWritten;
    hide Traf;
    hide Mvex;
    hide SoundTrack;
    hide MvexWritten;
    var boxes := [Box(MOOV, Moov()), Box(MOOF, Moof().body)];
    FewBoxes(boxes[0], boxes[0], boxes[1]);
    Enclosed(boxes, {MOOV, MOOF});
    Enclose(boxes)
  }

  function LongRuns(): Film
  {
    Film(Data(), Moov(), [SoundTrack(1, RATE, [])], Some(Mvex()), [Moof()])
  }

  lemma LongRunsWritten()
    ensures FilmWritten(LongRuns())
  {
    hide Data;
    hide SoundTrack;
    hide Mvex;
    hide Moof;
    hide Moov;
    hide Holds;
    hide TrackWritten;
    hide MvexWritten;
    hide MoofWritten;
    hide Traf;
    hide Trex;
    hide TrafWritten;
    hide TrexWritten;
    SoundTrackWritten(1, RATE, []);
    OneOfEach(SoundTrack(1, RATE, []), Mvex(), Moof());
    assert [Box(MOOV, Moov())] + MoofBoxes([Moof()]) == [Box(MOOV, Moov()), Box(MOOF, Moof().body)];
  }

  lemma LongRunsSound()
    ensures OnlySound(LongRuns(), 0) && AllReadable(LongRuns().tracks)
  {
    hide Data;
    hide SoundTrack;
    hide Mvex;
    hide Moof;
    hide Moov;
    hide Holds;
    hide MoofWritten;
    hide MvexWritten;
    hide TrackWritten;
    hide Traf;
    hide Trex;
    hide Readable;
    hide Sounds;
    hide OnlySound;
    SoundTrackWritten(1, RATE, []);
    TrackFields();
    OneTrack(LongRuns());
  }

  lemma OneTrack(f: Film)
    requires |f.tracks| == 1 && Sounds(f.tracks[0]) && Readable(f.tracks[0])
    ensures OnlySound(f, 0) && AllReadable(f.tracks)
  {
    hide Readable;
    hide Sounds;
  }

  lemma OneOfEach(t: WrittenTrack, mvex: WrittenMvex, moof: WrittenMoof)
    ensures TrackBoxes([t]) + MvexBoxes(Some(mvex)) == [Box(TRAK, t.trak), Box(MVEX, mvex.body)]
    ensures MoofBoxes([moof]) == [Box(MOOF, moof.body)]
  {
    assert [t][1..] == [] && [moof][1..] == [];
    assert TrackBoxes([t]) == [Box(TRAK, t.trak)] + [] && MoofBoxes([moof]) == [Box(MOOF, moof.body)] + [];
  }

  const TWO_RUNS: nat := 0xffff_ffff * 0xffff_ffff * 2
  const TRUE_TICKS: nat := TWO_RUNS + 5 * 0xffff_ffff

  lemma RunsLast()
    ensures Sum(RunLength(LARGEST), Runs()) == TRUE_TICKS
    ensures forall r | r in Runs() :: RunMeasurable(r, LARGEST)
  {
    hide WriteCounted;
    var rs := Runs();
    assert rs[1..][1..][1..] == [];
    assert Sum(RunLength(LARGEST), rs[1..][1..]) == 5 * 0xffff_ffff;
    assert Sum(RunLength(LARGEST), rs[1..]) == 0xffff_ffff * 0xffff_ffff + 5 * 0xffff_ffff;
  }

  /** The true ticks of the one fragment, and the low word that is kept of them. */
  lemma LongRunsKept()
    ensures Length(LongRuns(), 0) == TRUE_TICKS && KeptTotal(LongRuns(), 0) == 0xffff_fffd
    ensures AllMeasurable(LongRuns(), 1)
  {
    hide Data;
    hide Holds;
    hide Traf;
    hide Mvex;
    hide Moof;
    hide Moov;
    hide MoofWritten;
    hide MvexWritten;
    hide Runs;
    hide SoundTrack;
    var f := LongRuns();
    DefaultsRead(f);
    RunsLast();
    KeptTicksOfFile();
    TrackFields();
    OneMoof(f.moofs, LARGEST);
  }

  lemma DefaultsRead(f: Film)
    requires f.mvex.Some? && f.mvex.value.trexs == [Trex()]
    ensures Defaults(f, 1) == LARGEST
  {
    hide WriteTrex;
    assert [Trex()][..0] == [];
  }

  lemma TrackFields()
    ensures SoundTrack(1, RATE, []).id == 1 && SoundTrack(1, RATE, []).rate == RATE
    ensures Sum(Ticks, SoundTrack(1, RATE, []).entries) == 0 && Readable(SoundTrack(1, RATE, []))
  {
    hide Enclose;
    hide WriteHeader;
    hide WriteBox;
  }

  lemma {:induction false} OneMoof(moofs: seq<WrittenMoof>, default: u32)
    requires |moofs| == 1 && moofs[0].trafs == [Traf()] && default == LARGEST
    ensures Sum(MoofLength(1, default), moofs) == Sum(RunLength(LARGEST), Runs())
    ensures Sum(KeptLength(1, default), moofs) == Sum(RunLength(LARGEST), Runs()) % U64
    ensures MoofMeasurable(moofs[0], 1, default) <==> forall r | r in Runs() :: RunMeasurable(r, LARGEST)
  {
    hide Traf;
    hide Runs;
    hide RunLength;
    assert moofs[1..] == [] && [Traf()][1..] == [];
    assert Sum(TrafLength(1, default), [Traf()]) == TrafLength(1, default)(Traf());
    assert Sum(MoofLength(1, default), moofs) == MoofLength(1, default)(moofs[0]);
  }

  lemma KeptTicksOfFile()
    ensures TRUE_TICKS % U64 == 0xffff_fffd
  {
    ModUnique(TRUE_TICKS, 2, 0xffff_fffd, U64);
  }

  lemma LongRunsMeasured()
    ensures Mp4.Duration(LongRuns().data) == Some((0xffff_fffd, RATE))
  {
    hide Mp4.Duration;
    hide Data;
    hide Holds;
    hide KeptTotal;
    hide FilmWritten;
    hide OnlySound;
    hide SoundTrack;
    hide AllReadable;
    hide AllMeasurable;
    hide Moov;
    hide Mvex;
    hide Moof;
    TrackFields();
    LongRunsKept();
    LongRunsWritten();
    LongRunsSound();
    WrittenFilmExactly(LongRuns(), 0);
  }

  /** Twelve hours are answered for a file that states about twelve million years. */
  lemma LongRunsAreTooShort()
    ensures Length(LongRuns(), 0) == TRUE_TICKS && Answer(AudioMp4, LongRuns().data) == Some(44_739_243)
    ensures Ceiling(TRUE_TICKS, RATE) > MAX_MILLISECONDS
  {
    hide Mp4.Duration;
    hide Length;
    hide Ceiling;
    hide Rounded;
    hide LongRuns;
    hide Answer;
    hide Units;
    LongRunsKept();
    LongRunsMeasured();
    LongRunsRound();
    UnitsByMedia(LongRuns().data);
    AnswerFromUnits(AudioMp4, LongRuns().data, 0xffff_fffd, RATE);
  }

  lemma LongRunsRound()
    ensures Rounded(0xffff_fffd, RATE) == Some(44_739_243)
    ensures TRUE_TICKS == 2 * U64 + 0xffff_fffd && Ceiling(TRUE_TICKS, RATE) > MAX_MILLISECONDS
  {
  }
}

module OggAnswers {
  import opened Base
  import opened Words
  import opened Ogg
  import opened OggWriting
  import opened Wav
  import opened Probe
  import opened Permutations

  const UNITS: u64 := 18_428_297_329_635_842_064

  const VORBIS_MARK: seq<byte> := [0x01, 0x76, 0x6f, 0x72, 0x62, 0x69, 0x73]

  /** A Vorbis identification header at 999 samples a second. */
  function Head(): (s: seq<byte>)
    ensures |s| == 30 && Codec(s) == Some((999, 0))
  {
    hide Codec;
    hide LeBytes;
    var rest: seq<byte> := [0, 0, 0, 0, 0, 0, 0, 0, 0, 0, 0, 0, 0, 1];
    VorbisHead(0, 1, 999, rest);
    VORBIS_MARK + (LeBytes(0) + [1] + LeBytes(999) + rest)
  }

  /** A page of that header alone, which carries the granule position. */
  function WrappingPage(): (p: WrittenPage)
    ensures OneWrittenStream([p], 0) && p.body == Head() && p.granule == UNITS
  {
    hide Head;
    assert [30][1..] == [];
    assert Sum(Self, [30]) == 30;
    WrittenPage(false, true, false, UNITS, 0, 0, 0, [30], Head())
  }

  /** An upload that states 585 million years is answered zero milliseconds. */
  lemma WrappedUpload()
    ensures Answer(AudioOgg, WritePages([WrappingPage()])) == Some(0)
    ensures Ceiling(UNITS, 999) == U64
  {
    hide WrappingPage;
    hide Head;
    hide Codec;
    hide Ogg.Duration;
    hide Rounded;
    hide Answer;
    hide Units;
    hide Ceiling;
    var data := WritePages([WrappingPage()]);
    WrittenOgg([WrappingPage()], 0);
    WrappedCeiling();
    UnitsByMedia(data);
    AnswerFromUnits(AudioOgg, data, UNITS, 999);
    CeilingOfWrapped();
  }

  lemma CeilingOfWrapped()
    ensures Ceiling(UNITS, 999) == U64
  {
    RoundedIsCeiling(UNITS, 999);
    assert JustBelow(UNITS, 999);
  }
}
