// Movies written box by box, with any other boxes between: what the reader makes
// of each track, fragment and whole file.

module Mp4Writing {
  import opened Base
  import opened Words
  import opened Boxes
  import opened Mp4
  import opened Mp4Sum
  import opened Mp4Fields
  import opened Permutations

  // ----- bodies -----

  /** The boxes of some kinds, in order. */
  function Among(boxes: seq<Box>, kinds: set<seq<byte>>): seq<Box>
  {
    if boxes == [] then []
    else if boxes[0].kind in kinds then [boxes[0]] + Among(boxes[1..], kinds)
    else Among(boxes[1..], kinds)
  }

  /** A body of written boxes, those of the given kinds being these: any others may stand between. */
  ghost predicate Holds(body: seq<byte>, kinds: set<seq<byte>>, core: seq<Box>)
  {
    exists boxes: seq<Box>, forms: seq<SizeForm> |
      AllWritable(boxes, forms) :: body == WriteBoxes(boxes, forms) && Among(boxes, kinds) == core
  }

  /** A visit that passes over every box of another kind. */
  ghost predicate OnlyMinds<S(!new)>(visit: (S, Box) -> Option<S>, kinds: set<seq<byte>>)
  {
    forall s: S, box: Box | box.kind !in kinds :: visit(s, box) == Some(s)
  }

  lemma {:induction false} FoldAmong<S(!new)>(visit: (S, Box) -> Option<S>, s: S, boxes: seq<Box>, kinds: set<seq<byte>>)
    requires OnlyMinds(visit, kinds)
    ensures Fold(visit, s, boxes) == Fold(visit, s, Among(boxes, kinds))
    decreases |boxes|
  {
    if boxes != [] {
      var kept := Among(boxes, kinds);
      if boxes[0].kind in kinds {
        assert kept[0] == boxes[0] && kept[1..] == Among(boxes[1..], kinds);
      }
      if visit(s, boxes[0]).Some? {
        FoldAmong(visit, visit(s, boxes[0]).value, boxes[1..], kinds);
      }
    }
  }

  /** Visiting a written body visits its boxes of interest. */
  lemma VisitHolding<S(!new)>(visit: (S, Box) -> Option<S>, s: S, body: seq<byte>, kinds: set<seq<byte>>, core: seq<Box>)
    requires OnlyMinds(visit, kinds) && Holds(body, kinds, core)
    ensures Within(visit, s, body) == Fold(visit, s, core)
  {
    hide ParseBoxes;
    hide OnlyMinds;
    hide WriteBoxes;
    var boxes: seq<Box>, forms: seq<SizeForm> :|
      AllWritable(boxes, forms) && body == WriteBoxes(boxes, forms) && Among(boxes, kinds) == core;
    BoxesRoundTrip(boxes, forms);
    FoldAmong(visit, s, boxes, kinds);
  }

  lemma FoldFirst<S>(visit: (S, Box) -> Option<S>, s: S, box: Box, rest: seq<Box>)
    ensures Fold(visit, s, [box] + rest) == match visit(s, box) case None => None case Some(next) => Fold(visit, next, rest)
  {
    assert ([box] + rest)[1..] == rest;
  }

  lemma FoldNothing<S>(visit: (S, Box) -> Option<S>, s: S)
    ensures Fold(visit, s, []) == Some(s)
  {
  }

  lemma FoldOne<S>(visit: (S, Box) -> Option<S>, s: S, box: Box)
    ensures Fold(visit, s, [box]) == visit(s, box)
  {
    assert [box] + [] == [box];
    FoldFirst(visit, s, box, []);
  }

  // ----- a track -----

  /** A track: its boxes' bodies, and the number, handler, rate and table they write. */
  datatype WrittenTrack = WrittenTrack(
    trak: seq<byte>, tkhd: seq<byte>, mdia: seq<byte>, hdlr: seq<byte>, mdhd: seq<byte>, minf: seq<byte>, stbl: seq<byte>,
    stts: seq<byte>, id: u32, handler: seq<byte>, rate: u32, entries: seq<Entry>)

  ghost predicate IsHeader(body: seq<byte>, field: u32)
  {
    exists version: byte, times, rest |
      |times| == (if version == 1 then 19 else 11) :: body == WriteHeader(version, times, field, rest)
  }

  ghost predicate IsTable(body: seq<byte>, entries: seq<Entry>)
  {
    |entries| < U32 && exists flags: u32, rest :: body == WriteStts(flags, entries, rest)
  }

  ghost predicate TrackWritten(t: WrittenTrack)
  {
    && Holds(t.trak, {[0x74, 0x6b, 0x68, 0x64], [0x6d, 0x64, 0x69, 0x61]}, [Box(TKHD, t.tkhd), Box(MDIA, t.mdia)])
    && IsHeader(t.tkhd, t.id)
    && Holds(t.mdia, {[0x68, 0x64, 0x6c, 0x72], [0x6d, 0x64, 0x68, 0x64], [0x6d, 0x69, 0x6e, 0x66]},
             [Box(HDLR, t.hdlr), Box(MDHD, t.mdhd), Box(MINF, t.minf)])
    && |t.hdlr| >= 12 && t.hdlr[8..12] == t.handler
    && IsHeader(t.mdhd, t.rate)
    && Holds(t.minf, {[0x73, 0x74, 0x62, 0x6c]}, [Box(STBL, t.stbl)])
    && Holds(t.stbl, {[0x73, 0x74, 0x74, 0x73]}, [Box(STTS, t.stts)])
    && IsTable(t.stts, t.entries)
  }

  predicate Sounds(t: WrittenTrack) { t.handler == [0x73, 0x6f, 0x75, 0x6e] }

  lemma StblReads(t: Track, w: WrittenTrack)
    requires TrackWritten(w)
    ensures var total := Sum(Ticks, w.entries);
            Within(VisitMinf, t, w.minf) == if total < U64 then Some(t.(ticks := total)) else None
  {
    hide Within;
    hide Holds;
    hide SampleTable;
    hide WriteStts;
    hide IsHeader;
    var flags: u32, rest :| w.stts == WriteStts(flags, w.entries, rest);
    SttsRoundTrip(flags, w.entries, rest);
    VisitHolding(VisitMinf, t, w.minf, {STBL}, [Box(STBL, w.stbl)]);
    FoldOne(VisitMinf, t, Box(STBL, w.stbl));
    VisitHolding(VisitStbl, t, w.stbl, {STTS}, [Box(STTS, w.stts)]);
    FoldOne(VisitStbl, t, Box(STTS, w.stts));
  }

  lemma HeaderRead(t: Track, body: seq<byte>, field: u32)
    requires IsHeader(body, field)
    ensures VisitTrak(t, Box(TKHD, body)) == Some(t.(id := field))
    ensures VisitMdia(t, Box(MDHD, body)) == Some(t.(timescale := field))
  {
    hide WriteHeader;
    hide VisitTrak;
    hide VisitMdia;
    var version: byte, times, rest :|
      |times| == (if version == 1 then 19 else 11) && body == WriteHeader(version, times, field, rest);
    HeadersReadBack(t, version, times, field, rest);
  }

  lemma MdiaReads(t: Track, w: WrittenTrack)
    requires TrackWritten(w)
    ensures var total := Sum(Ticks, w.entries);
            Within(VisitMdia, t, w.mdia) ==
            if total < U64 then Some(t.(sound := Sounds(w), timescale := w.rate, ticks := total)) else None
  {
    hide Within;
    hide Holds;
    hide Fold;
    hide IsHeader;
    hide IsTable;
    var hdlr, mdhd, minf := Box(HDLR, w.hdlr), Box(MDHD, w.mdhd), Box(MINF, w.minf);
    VisitHolding(VisitMdia, t, w.mdia, {HDLR, MDHD, MINF}, [hdlr, mdhd, minf]);
    var heard := t.(sound := Sounds(w));
    assert [hdlr, mdhd, minf] == [hdlr] + [mdhd, minf] && [mdhd, minf] == [mdhd] + [minf];
    FoldFirst(VisitMdia, t, hdlr, [mdhd, minf]);
    HeaderRead(heard, w.mdhd, w.rate);
    FoldFirst(VisitMdia, heard, mdhd, [minf]);
    FoldOne(VisitMdia, heard.(timescale := w.rate), minf);
    StblReads(heard.(timescale := w.rate), w);
  }

  /**
   * A written track reads as its own number, handler, rate and the sum of its
   * table. One whose table passes 64 bits, and a sound track at no rate, is refused.
   */
  lemma TrackReadsBack(w: WrittenTrack)
    requires TrackWritten(w)
    ensures var total := Sum(Ticks, w.entries);
            ReadTrack(w.trak) ==
            if total >= U64 || (Sounds(w) && w.rate == 0) then None else Some(Track(w.id, Sounds(w), w.rate, total))
  {
    hide Within;
    hide Holds;
    hide Fold;
    hide IsHeader;
    hide IsTable;
    var tkhd, mdia := Box(TKHD, w.tkhd), Box(MDIA, w.mdia);
    var none, named := Track(0, false, 0, 0), Track(w.id, false, 0, 0);
    VisitHolding(VisitTrak, none, w.trak, {TKHD, MDIA}, [tkhd, mdia]);
    assert [tkhd, mdia] == [tkhd] + [mdia];
    HeaderRead(none, w.tkhd, w.id);
    FoldFirst(VisitTrak, none, tkhd, [mdia]);
    FoldOne(VisitTrak, named, mdia);
    MdiaReads(named, w);
  }

  // ----- a fragment -----

  /** What a run writes: a duration for each sample, or only how many there are. */
  datatype Lengths = Timed(samples: seq<Sample>) | Counted(count: u32)

  /** A run: its box's body, which optional fields it carries, and its samples. */
  datatype WrittenRun = WrittenRun(body: seq<byte>, shape: Shape, lengths: Lengths)

  function WriteTimed(s: Shape, version: byte, optional: seq<byte>, samples: seq<Sample>, rest: seq<byte>): seq<byte>
    requires Shaped(s, samples) && |optional| == Flag(s.dataOffset, 4) + Flag(s.firstFlags, 4)
  {
    WriteRunHead(s, version, |samples|, optional) + (WriteSamples(s, samples) + rest)
  }

  function WriteCounted(s: Shape, version: byte, optional: seq<byte>, count: u32, rest: seq<byte>): seq<byte>
    requires |optional| == Flag(s.dataOffset, 4) + Flag(s.firstFlags, 4)
  {
    WriteRunHead(s, version, count, optional) + rest
  }

  ghost predicate RunWritten(r: WrittenRun)
  {
    match r.lengths
    case Timed(samples) =>
      r.shape.durations && Shaped(r.shape, samples) &&
      exists version: byte, optional, rest |
        |optional| == Flag(r.shape.dataOffset, 4) + Flag(r.shape.firstFlags, 4) ::
        r.body == WriteTimed(r.shape, version, optional, samples, rest)
    case Counted(count) =>
      !r.shape.durations &&
      exists version: byte, optional, rest |
        |optional| == Flag(r.shape.dataOffset, 4) + Flag(r.shape.firstFlags, 4) ::
        r.body == WriteCounted(r.shape, version, optional, count, rest)
  }

  /** A run's ticks, by its own durations or else the default in force. */
  function RunLength(default: u32): WrittenRun -> nat
  {
    (r: WrittenRun) => if r.lengths.Timed? then Sum(DurationOf, r.lengths.samples) else r.lengths.count * default
  }

  predicate RunMeasurable(r: WrittenRun, default: u32) { r.lengths.Counted? ==> default > 0 }

  lemma RunReadsBack(r: WrittenRun, default: u32)
    requires RunWritten(r)
    ensures RunTicks(r.body, default) == if RunMeasurable(r, default) then Some(RunLength(default)(r)) else None
  {
    hide WriteRunHead;
    hide WriteSamples;
    hide RunTicks;
    if r.lengths.Timed? {
      var version: byte, optional, rest :|
        |optional| == Flag(r.shape.dataOffset, 4) + Flag(r.shape.firstFlags, 4) &&
        r.body == WriteTimed(r.shape, version, optional, r.lengths.samples, rest);
      TrunRoundTrip(r.shape, version, optional, r.lengths.samples, rest, default);
    } else {
      var version: byte, optional, rest :|
        |optional| == Flag(r.shape.dataOffset, 4) + Flag(r.shape.firstFlags, 4) &&
        r.body == WriteCounted(r.shape, version, optional, r.lengths.count, rest);
      PlainTrunRoundTrip(r.shape, version, optional, r.lengths.count, rest, default);
    }
  }

  /** A traf: its boxes' bodies, its header, and its runs. */
  datatype WrittenTraf = WrittenTraf(body: seq<byte>, tfhd: seq<byte>, header: FragmentHeader, runs: seq<WrittenRun>)

  function RunBox(r: WrittenRun): Box { Box(TRUN, r.body) }

  function RunBoxes(runs: seq<WrittenRun>): seq<Box>
  {
    if runs == [] then [] else [RunBox(runs[0])] + RunBoxes(runs[1..])
  }

  ghost predicate IsFragmentHeader(body: seq<byte>, h: FragmentHeader)
  {
    WellShaped(h) && exists version: byte, more: nat, rest | more < 0x10_0000 :: body == WriteTfhd(h, version, more, rest)
  }

  ghost predicate TrafWritten(t: WrittenTraf)
  {
    && Holds(t.body, {[0x74, 0x66, 0x68, 0x64], [0x74, 0x72, 0x75, 0x6e]}, [Box(TFHD, t.tfhd)] + RunBoxes(t.runs))
    && IsFragmentHeader(t.tfhd, t.header)
    && forall r | r in t.runs :: RunWritten(r)
  }

  /** The default duration in force in a traf: its own, or else the movie's. */
  function InForce(t: WrittenTraf, default: u32): u32
  {
    if t.header.default.Some? then t.header.default.value else default
  }

  predicate TrafMeasurable(t: WrittenTraf, id: u32, default: u32)
  {
    t.header.id == id ==> forall r | r in t.runs :: RunMeasurable(r, InForce(t, default))
  }

  /** What a traf adds to a track: nothing to another's. */
  function TrafLength(id: u32, default: u32): WrittenTraf -> nat
  {
    (t: WrittenTraf) => if t.header.id == id then Sum(RunLength(InForce(t, default)), t.runs) else 0
  }

  lemma HeaderVisited(f: Fragment, t: WrittenTraf, id: u32)
    requires IsFragmentHeader(t.tfhd, t.header)
    ensures VisitTraf(f, Box(TFHD, t.tfhd), id)
         == Some(f.(mine := t.header.id == id, fallback := InForce(t, f.fallback)))
  {
    hide WriteTfhd;
    hide VisitTfhd;
    var version: byte, more: nat, rest :| more < 0x10_0000 && t.tfhd == WriteTfhd(t.header, version, more, rest);
    TfhdRoundTrip(f, t.header, version, more, rest, id);
  }

  lemma {:induction false} RunsVisited(f: Fragment, runs: seq<WrittenRun>, id: u32)
    requires forall r | r in runs :: RunWritten(r)
    ensures Fold(TrafVisitor(id), f, RunBoxes(runs)) ==
            if !f.mine then Some(f)
            else if forall r | r in runs :: RunMeasurable(r, f.fallback)
            then Some(f.(total := f.total + Sum(RunLength(f.fallback), runs))) else None
    decreases |runs|
  {
    hide RunTicks;
    hide RunWritten;
    hide RunMeasurable;
    if runs != [] {
      var first, rest := runs[0], runs[1..];
      assert first in runs;
      assert forall r | r in runs :: r == first || r in rest;
      RunReadsBack(first, f.fallback);
      FoldFirst(TrafVisitor(id), f, RunBox(first), RunBoxes(rest));
      if !f.mine {
        RunsVisited(f, rest, id);
      } else if RunMeasurable(first, f.fallback) {
        RunsVisited(f.(total := f.total + RunLength(f.fallback)(first)), rest, id);
      }
    }
  }

  lemma TrafReadsBack(t: WrittenTraf, id: u32, default: u32, total: nat)
    requires TrafWritten(t)
    ensures VisitMoof(total, Box(TRAF, t.body), id, default) ==
            if TrafMeasurable(t, id, default) then Some(total + TrafLength(id, default)(t)) else None
  {
    hide Within;
    hide Holds;
    hide Fold;
    hide RunBoxes;
    hide IsFragmentHeader;
    hide RunWritten;
    hide VisitTraf;
    var start, visit := Fragment(false, default, total), TrafVisitor(id);
    TrafMinds(id);
    VisitHolding(visit, start, t.body, {TFHD, TRUN}, [Box(TFHD, t.tfhd)] + RunBoxes(t.runs));
    HeaderVisited(start, t, id);
    FoldFirst(visit, start, Box(TFHD, t.tfhd), RunBoxes(t.runs));
    RunsVisited(start.(mine := t.header.id == id, fallback := InForce(t, default)), t.runs, id);
  }

  lemma TrafMinds(id: u32)
    ensures OnlyMinds(TrafVisitor(id), {TFHD, TRUN})
  {
  }

  /** A moof: its body and its trafs. */
  datatype WrittenMoof = WrittenMoof(body: seq<byte>, trafs: seq<WrittenTraf>)

  function TrafBoxes(trafs: seq<WrittenTraf>): seq<Box>
  {
    if trafs == [] then [] else [Box(TRAF, trafs[0].body)] + TrafBoxes(trafs[1..])
  }

  ghost predicate MoofWritten(m: WrittenMoof)
  {
    Holds(m.body, {[0x74, 0x72, 0x61, 0x66]}, TrafBoxes(m.trafs)) && forall t | t in m.trafs :: TrafWritten(t)
  }

  predicate MoofMeasurable(m: WrittenMoof, id: u32, default: u32)
  {
    forall t | t in m.trafs :: TrafMeasurable(t, id, default)
  }

  function MoofLength(id: u32, default: u32): WrittenMoof -> nat
  {
    (m: WrittenMoof) => Sum(TrafLength(id, default), m.trafs)
  }

  lemma {:induction false} TrafsVisited(total: nat, trafs: seq<WrittenTraf>, id: u32, default: u32)
    requires forall t | t in trafs :: TrafWritten(t)
    ensures Fold(MoofVisitor(id, default), total, TrafBoxes(trafs)) ==
            if forall t | t in trafs :: TrafMeasurable(t, id, default)
            then Some(total + Sum(TrafLength(id, default), trafs)) else None
    decreases |trafs|
  {
    hide TrafWritten;
    hide TrafMeasurable;
    hide VisitMoof;
    if trafs != [] {
      var first, rest := trafs[0], trafs[1..];
      assert first in trafs;
      assert forall t | t in trafs :: t == first || t in rest;
      TrafReadsBack(first, id, default, total);
      FoldFirst(MoofVisitor(id, default), total, Box(TRAF, first.body), TrafBoxes(rest));
      if TrafMeasurable(first, id, default) {
        TrafsVisited(total + TrafLength(id, default)(first), rest, id, default);
      }
    }
  }

  /**
   * A written fragment adds to a track the runs of its own trafs, each sample by
   * its own duration, else its traf's default, else the movie's; it is refused
   * where a run of that track has none of these.
   */
  lemma FragmentReadsBack(m: WrittenMoof, id: u32, default: u32)
    requires MoofWritten(m)
    ensures FragmentTicks(m.body, id, default) ==
            if MoofMeasurable(m, id, default) then Some(MoofLength(id, default)(m)) else None
  {
    hide Within;
    hide Holds;
    hide Fold;
    hide TrafBoxes;
    hide TrafWritten;
    hide TrafMeasurable;
    MoofMinds(id, default);
    VisitHolding(MoofVisitor(id, default), 0, m.body, {TRAF}, TrafBoxes(m.trafs));
    TrafsVisited(0, m.trafs, id, default);
  }

  lemma MoofMinds(id: u32, default: u32)
    ensures OnlyMinds(MoofVisitor(id, default), {TRAF})
  {
  }

  // ----- the movie box -----

  /** A trex: its body, its track and its default duration. */
  datatype WrittenTrex = WrittenTrex(body: seq<byte>, id: u32, default: u32)

  ghost predicate TrexWritten(t: WrittenTrex)
  {
    exists flags: u32, description: u32, rest :: t.body == WriteTrex(flags, t.id, description, t.default, rest)
  }

  function TrexBoxes(trexs: seq<WrittenTrex>): seq<Box>
  {
    if trexs == [] then []
    else TrexBoxes(trexs[..|trexs| - 1]) + [Box(TREX, trexs[|trexs| - 1].body)]
  }

  /** The default of the last trex of a track, or none. */
  function TrexDefault(trexs: seq<WrittenTrex>, id: u32): u32
  {
    if trexs == [] then 0
    else
      var last := trexs[|trexs| - 1];
      if last.id == id then last.default else TrexDefault(trexs[..|trexs| - 1], id)
  }

  lemma {:induction false} FoldAppend<S>(visit: (S, Box) -> Option<S>, s: S, a: seq<Box>, b: seq<Box>)
    ensures Fold(visit, s, a + b) == match Fold(visit, s, a) case None => None case Some(next) => Fold(visit, next, b)
    decreases |a|
  {
    if a == [] {
      assert a + b == b;
    } else {
      assert (a + b)[1..] == a[1..] + b;
      if visit(s, a[0]).Some? {
        FoldAppend(visit, visit(s, a[0]).value, a[1..], b);
      }
    }
  }

  lemma TrexVisited(m: Movie, t: WrittenTrex)
    requires TrexWritten(t)
    ensures VisitMvex(m, Box(TREX, t.body)) == Some(m.(defaults := m.defaults[t.id := t.default]))
  {
    hide WriteTrex;
    hide VisitMvex;
    var flags: u32, description: u32, rest :| t.body == WriteTrex(flags, t.id, description, t.default, rest);
    TrexRoundTrip(m, flags, t.id, description, t.default, rest);
  }

  lemma {:induction false} TrexsVisited(m: Movie, trexs: seq<WrittenTrex>)
    requires m.defaults == map[] && forall t | t in trexs :: TrexWritten(t)
    ensures var read := Fold(VisitMvex, m, TrexBoxes(trexs));
            && read.Some? && read.value == m.(defaults := read.value.defaults)
            && forall id: u32 :: DefaultOf(read.value, id) == TrexDefault(trexs, id)
    decreases |trexs|
  {
    hide VisitMvex;
    hide TrexWritten;
    if trexs != [] {
      var front, last := trexs[..|trexs| - 1], trexs[|trexs| - 1];
      TrexsVisited(m, front);
      var read := Fold(VisitMvex, m, TrexBoxes(front)).value;
      TrexVisited(read, last);
      FoldAppend(VisitMvex, m, TrexBoxes(front), [Box(TREX, last.body)]);
      FoldOne(VisitMvex, read, Box(TREX, last.body));
    }
  }

  /** An mvex: its body and its trexs. */
  datatype WrittenMvex = WrittenMvex(body: seq<byte>, trexs: seq<WrittenTrex>)

  ghost predicate MvexWritten(x: WrittenMvex)
  {
    Holds(x.body, {[0x74, 0x72, 0x65, 0x78]}, TrexBoxes(x.trexs)) && forall t | t in x.trexs :: TrexWritten(t)
  }

  /** A whole file: its bytes, its movie box's body, tracks and defaults, and its fragments. */
  datatype Film = Film(data: seq<byte>, moov: seq<byte>, tracks: seq<WrittenTrack>, mvex: Option<WrittenMvex>,
                       moofs: seq<WrittenMoof>)

  function TrackBoxes(tracks: seq<WrittenTrack>): seq<Box>
  {
    if tracks == [] then [] else [Box(TRAK, tracks[0].trak)] + TrackBoxes(tracks[1..])
  }

  function MvexBoxes(mvex: Option<WrittenMvex>): seq<Box>
  {
    match mvex case None => [] case Some(x) => [Box(MVEX, x.body)]
  }

  function MoofBoxes(moofs: seq<WrittenMoof>): seq<Box>
  {
    if moofs == [] then [] else [Box(MOOF, moofs[0].body)] + MoofBoxes(moofs[1..])
  }

  ghost predicate FilmWritten(f: Film)
  {
    && Holds(f.data, {[0x6d, 0x6f, 0x6f, 0x76], [0x6d, 0x6f, 0x6f, 0x66]}, [Box(MOOV, f.moov)] + MoofBoxes(f.moofs))
    && Holds(f.moov, {[0x74, 0x72, 0x61, 0x6b], [0x6d, 0x76, 0x65, 0x78]}, TrackBoxes(f.tracks) + MvexBoxes(f.mvex))
    && (forall t | t in f.tracks :: TrackWritten(t))
    && (f.mvex.Some? ==> MvexWritten(f.mvex.value))
    && forall m | m in f.moofs :: MoofWritten(m)
  }

  /** A track the reader takes: its table fits 64 bits, and one with sound has a rate. */
  predicate Readable(t: WrittenTrack) { Sum(Ticks, t.entries) < U64 && (Sounds(t) ==> t.rate > 0) }

  predicate AllReadable(tracks: seq<WrittenTrack>) { forall t | t in tracks :: Readable(t) }

  function ValueOf(t: WrittenTrack): Track
    requires Readable(t)
  {
    Track(t.id, Sounds(t), t.rate, Sum(Ticks, t.entries))
  }

  function ValuesOf(tracks: seq<WrittenTrack>): (r: seq<Track>)
    requires AllReadable(tracks)
    ensures |r| == |tracks| && forall i | 0 <= i < |r| :: r[i] == ValueOf(tracks[i])
  {
    seq(|tracks|, i requires 0 <= i < |tracks| => ValueOf(tracks[i]))
  }

  function Defaults(f: Film, id: u32): u32
  {
    match f.mvex case None => 0 case Some(x) => TrexDefault(x.trexs, id)
  }

  lemma {:induction false} TracksVisited(m: Movie, tracks: seq<WrittenTrack>)
    requires forall t | t in tracks :: TrackWritten(t)
    ensures Fold(VisitMoov, m, TrackBoxes(tracks)) ==
            if AllReadable(tracks) then Some(m.(tracks := m.tracks + ValuesOf(tracks))) else None
    decreases |tracks|
  {
    hide TrackWritten;
    hide Readable;
    hide ReadTrack;
    hide Fold;
    hide ValueOf;
    if tracks == [] {
      FoldNothing(VisitMoov, m);
      assert m.tracks + ValuesOf(tracks) == m.tracks;
    } else {
      var first, rest := tracks[0], tracks[1..];
      assert first in tracks;
      assert forall t | t in tracks :: t == first || t in rest;
      TrackValue(first);
      FoldFirst(VisitMoov, m, Box(TRAK, first.trak), TrackBoxes(rest));
      if Readable(first) {
        var more := m.(tracks := m.tracks + [ValueOf(first)]);
        TracksVisited(more, rest);
        if AllReadable(rest) {
          assert more.tracks + ValuesOf(rest) == m.tracks + ValuesOf(tracks);
        }
      }
    }
  }

  lemma TrackValue(t: WrittenTrack)
    requires TrackWritten(t)
    ensures ReadTrack(t.trak) == if Readable(t) then Some(ValueOf(t)) else None
  {
    hide ReadTrack;
    hide TrackWritten;
    TrackReadsBack(t);
  }

  lemma MvexVisited(m: Movie, mvex: Option<WrittenMvex>)
    requires m.defaults == map[] && (mvex.Some? ==> MvexWritten(mvex.value))
    ensures var read := Fold(VisitMoov, m, MvexBoxes(mvex));
            && read.Some? && read.value == m.(defaults := read.value.defaults)
            && forall id: u32 ::
                 DefaultOf(read.value, id) == match mvex case None => 0 case Some(x) => TrexDefault(x.trexs, id)
  {
    hide Holds;
    hide VisitMvex;
    hide TrexWritten;
    if mvex.Some? {
      var x := mvex.value;
      MvexMinds();
      VisitHolding(VisitMvex, m, x.body, {TREX}, TrexBoxes(x.trexs));
      TrexsVisited(m, x.trexs);
      FoldOne(VisitMoov, m, Box(MVEX, x.body));
    }
  }

  lemma MvexMinds()
    ensures OnlyMinds(VisitMvex, {TREX})
  {
  }

  lemma {:induction false} MoofsVisited(m: Movie, moofs: seq<WrittenMoof>)
    ensures Fold(VisitTop, m, MoofBoxes(moofs)) == Some(m.(fragments := m.fragments + Bodies(moofs)))
    decreases |moofs|
  {
    hide Within;
    if moofs == [] {
      assert m.fragments + Bodies(moofs) == m.fragments;
    } else {
      var first, rest := moofs[0], moofs[1..];
      FoldFirst(VisitTop, m, Box(MOOF, first.body), MoofBoxes(rest));
      var more := m.(fragments := m.fragments + [first.body]);
      MoofsVisited(more, rest);
      assert more.fragments + Bodies(rest) == m.fragments + Bodies(moofs);
    }
  }

  function Bodies(moofs: seq<WrittenMoof>): seq<seq<byte>>
  {
    if moofs == [] then [] else [moofs[0].body] + Bodies(moofs[1..])
  }

  lemma MovieBoxReads(f: Film, seen: Movie)
    requires FilmWritten(f) && seen == NO_MOVIE.(sawMovie := true)
    ensures var read := Within(VisitMoov, seen, f.moov);
            && (read.Some? <==> AllReadable(f.tracks))
            && (read.Some? ==>
                  && read.value == seen.(tracks := ValuesOf(f.tracks), defaults := read.value.defaults)
                  && forall id: u32 :: DefaultOf(read.value, id) == Defaults(f, id))
  {
    hide Within;
    hide Holds;
    hide Fold;
    hide Readable;
    hide TrackWritten;
    hide MoofWritten;
    hide MvexWritten;
    hide VisitMoov;
    hide DefaultOf;
    TopMinds();
    VisitHolding(VisitMoov, seen, f.moov, {TRAK, MVEX}, TrackBoxes(f.tracks) + MvexBoxes(f.mvex));
    FoldAppend(VisitMoov, seen, TrackBoxes(f.tracks), MvexBoxes(f.mvex));
    TracksVisited(seen, f.tracks);
    if AllReadable(f.tracks) {
      var tracked := seen.(tracks := seen.tracks + ValuesOf(f.tracks));
      assert [] + ValuesOf(f.tracks) == ValuesOf(f.tracks);
      MvexVisited(tracked, f.mvex);
    }
  }

  /** A written file reads as its tracks, fragments and defaults; one unreadable track refuses it. */
  lemma FilmReads(f: Film)
    requires FilmWritten(f)
    ensures var read := Within(VisitTop, NO_MOVIE, f.data);
            && (read.Some? <==> AllReadable(f.tracks))
            && (read.Some? ==>
                  && read.value.sawMovie && read.value.tracks == ValuesOf(f.tracks) && read.value.fragments == Bodies(f.moofs)
                  && forall id: u32 :: DefaultOf(read.value, id) == Defaults(f, id))
  {
    hide Within;
    hide Holds;
    hide Fold;
    hide AllReadable;
    hide VisitMoov;
    hide DefaultOf;
    hide Defaults;
    hide ValuesOf;
    var seen := NO_MOVIE.(sawMovie := true);
    TopMinds();
    VisitHolding(VisitTop, NO_MOVIE, f.data, {MOOV, MOOF}, [Box(MOOV, f.moov)] + MoofBoxes(f.moofs));
    FoldFirst(VisitTop, NO_MOVIE, Box(MOOV, f.moov), MoofBoxes(f.moofs));
    MovieBoxReads(f, seen);
    if AllReadable(f.tracks) {
      var whole := Within(VisitMoov, seen, f.moov).value;
      MoofsVisited(whole, f.moofs);
      assert [] + Bodies(f.moofs) == Bodies(f.moofs);
      SameDefaults(whole, whole.(fragments := whole.fragments + Bodies(f.moofs)));
    }
  }

  lemma TopMinds()
    ensures OnlyMinds(VisitTop, {MOOV, MOOF}) && OnlyMinds(VisitMoov, {TRAK, MVEX})
  {
  }

  lemma SameDefaults(m: Movie, n: Movie)
    requires m.defaults == n.defaults
    ensures forall id: u32 :: DefaultOf(m, id) == DefaultOf(n, id)
  {
  }

  // ----- one sound track -----

  lemma {:induction false} NoSound(tracks: seq<Track>)
    requires forall t | t in tracks :: !t.sound
    ensures SoundTracks(tracks) == []
    decreases |tracks|
  {
    if tracks != [] {
      assert tracks[|tracks| - 1] in tracks;
      NoSound(tracks[..|tracks| - 1]);
    }
  }

  lemma {:induction false} OneSound(tracks: seq<Track>, k: nat)
    requires k < |tracks| && tracks[k].sound && forall i | 0 <= i < |tracks| && i != k :: !tracks[i].sound
    ensures SoundTracks(tracks) == [tracks[k]]
    decreases |tracks|
  {
    var front := tracks[..|tracks| - 1];
    if k == |tracks| - 1 {
      NoSound(front);
      assert [] + [tracks[k]] == [tracks[k]];
    } else {
      OneSound(front, k);
    }
  }

  lemma {:induction false} SoundIsCounted(tracks: seq<Track>, k: nat)
    requires k < |tracks| && tracks[k].sound
    ensures |SoundTracks(tracks)| >= 1
    decreases |tracks|
  {
    if k < |tracks| - 1 {
      SoundIsCounted(tracks[..|tracks| - 1], k);
    }
  }

  lemma {:induction false} TwoSounds(tracks: seq<Track>, j: nat, k: nat)
    requires j < k < |tracks| && tracks[j].sound && tracks[k].sound
    ensures |SoundTracks(tracks)| >= 2
    decreases |tracks|
  {
    if k == |tracks| - 1 {
      SoundIsCounted(tracks[..k], j);
    } else {
      TwoSounds(tracks[..|tracks| - 1], j, k);
    }
  }

  /** The exact ticks of a written file's track: its table, and every fragment's runs for it. */
  function Length(f: Film, k: nat): nat
    requires k < |f.tracks|
  {
    var t := f.tracks[k];
    Sum(Ticks, t.entries) + Sum(MoofLength(t.id, Defaults(f, t.id)), f.moofs)
  }

  predicate OnlySound(f: Film, k: nat)
  {
    k < |f.tracks| && Sounds(f.tracks[k]) && forall i | 0 <= i < |f.tracks| && i != k :: !Sounds(f.tracks[i])
  }

  predicate AllMeasurable(f: Film, id: u32)
  {
    forall m | m in f.moofs :: MoofMeasurable(m, id, Defaults(f, id))
  }

  /** Every fragment's runs for a track stay below 2^64 ticks. */
  predicate FragmentsShort(f: Film, id: u32)
  {
    forall m | m in f.moofs :: MoofLength(id, Defaults(f, id))(m) < U64
  }

  /** What the reader keeps of a fragment: its low 64 bits. */
  function KeptLength(id: u32, default: u32): WrittenMoof -> nat
  {
    (m: WrittenMoof) => MoofLength(id, default)(m) % U64
  }

  lemma {:induction false} FragmentsRead(moofs: seq<WrittenMoof>, id: u32, default: u32)
    requires forall m | m in moofs :: MoofWritten(m)
    ensures AllRead(Bodies(moofs), id, default) <==> forall m | m in moofs :: MoofMeasurable(m, id, default)
    ensures AllRead(Bodies(moofs), id, default) ==>
              Sum(KeptTicks(id, default), Bodies(moofs)) == Sum(KeptLength(id, default), moofs)
    decreases |moofs|
  {
    hide FragmentTicks;
    hide MoofWritten;
    hide MoofMeasurable;
    hide MoofLength;
    if moofs != [] {
      var first, rest := moofs[0], moofs[1..];
      assert first in moofs;
      assert forall m | m in moofs :: m == first || m in rest;
      FragmentsRead(rest, id, default);
      FragmentReadsBack(first, id, default);
      var bodies := Bodies(moofs);
      assert bodies[0] == first.body && bodies[1..] == Bodies(rest);
      assert forall b | b in bodies :: b == first.body || b in Bodies(rest);
      assert bodies[0] in bodies && forall b | b in Bodies(rest) :: b in bodies[1..];
    }
  }

  lemma {:induction false} ShortIsKept(moofs: seq<WrittenMoof>, id: u32, default: u32)
    requires forall m | m in moofs :: MoofLength(id, default)(m) < U64
    ensures Sum(KeptLength(id, default), moofs) == Sum(MoofLength(id, default), moofs)
  {
    hide MoofLength;
    if moofs != [] {
      assert moofs[0] in moofs && forall m | m in moofs[1..] :: m in moofs;
      ShortIsKept(moofs[1..], id, default);
    }
  }

  /** The ticks of a track that the reader keeps: its table, and the low 64 bits of each fragment. */
  function KeptTotal(f: Film, k: nat): nat
    requires k < |f.tracks|
  {
    var t := f.tracks[k];
    Sum(Ticks, t.entries) + Sum(KeptLength(t.id, Defaults(f, t.id)), f.moofs)
  }

  /** Any written file of one sound track: the ticks kept, when every run has a duration and they are 1 to 2^64 - 1. */
  lemma WrittenFilmExactly(f: Film, k: nat)
    requires FilmWritten(f) && OnlySound(f, k) && AllReadable(f.tracks)
    ensures Duration(f.data) ==
            if AllMeasurable(f, f.tracks[k].id) && 0 < KeptTotal(f, k) < U64 then Some((KeptTotal(f, k), f.tracks[k].rate))
            else None
  {
    hide Within;
    hide FilmWritten;
    hide Readable;
    hide DefaultOf;
    hide Defaults;
    hide MoofMeasurable;
    hide KeptLength;
    hide SoundTracks;
    hide AllRead;
    hide ValuesOf;
    hide OnlySound;
    hide MovieDuration;
    hide AllReadable;
    FilmReads(f);
    SoundOf(f, k);
    var m := Within(VisitTop, NO_MOVIE, f.data).value;
    var t := f.tracks[k];
    MoofsOf(f);
    FragmentsRead(f.moofs, t.id, Defaults(f, t.id));
    MovieMeasures(m, ValueOf(t), Defaults(f, t.id));
  }

  /**
   * A written file of one sound track whose fragments each stay below 2^64 ticks
   * answers its table's sum and all its runs, in its own rate, when that is 1 to
   * 2^64 - 1; otherwise it is refused.
   */
  lemma WrittenFilmMeasures(f: Film, k: nat)
    requires FilmWritten(f) && OnlySound(f, k) && AllReadable(f.tracks)
    requires FragmentsShort(f, f.tracks[k].id)
    ensures Duration(f.data) ==
            if AllMeasurable(f, f.tracks[k].id) && 0 < Length(f, k) < U64 then Some((Length(f, k), f.tracks[k].rate)) else None
  {
    hide FilmWritten;
    hide AllReadable;
    hide OnlySound;
    hide Defaults;
    hide MoofLength;
    hide KeptLength;
    hide Duration;
    hide AllMeasurable;
    SoundOf(f, k);
    var t := f.tracks[k];
    WrittenFilmExactly(f, k);
    ShortIsKept(f.moofs, t.id, Defaults(f, t.id));
  }

  lemma SoundOf(f: Film, k: nat)
    requires AllReadable(f.tracks) && OnlySound(f, k)
    ensures k < |f.tracks| && Readable(f.tracks[k])
    ensures SoundTracks(ValuesOf(f.tracks)) == [ValueOf(f.tracks[k])]
  {
    OneSound(ValuesOf(f.tracks), k);
  }

  lemma MoofsOf(f: Film)
    requires FilmWritten(f)
    ensures forall m | m in f.moofs :: MoofWritten(m)
  {
  }

  lemma MovieMeasures(m: Movie, sound: Track, default: u32)
    requires m.sawMovie && SoundTracks(m.tracks) == [sound] && DefaultOf(m, sound.id) == default
    ensures var total := sound.ticks + Sum(KeptTicks(sound.id, default), m.fragments);
            MovieDuration(m) ==
            if AllRead(m.fragments, sound.id, default) && 0 < total < U64 then Some((total, sound.timescale)) else None
  {
    hide FragmentTicks;
    hide SoundTracks;
    CodedIsASum(sound.ticks, m.fragments, sound.id, default);
  }

  /** A written file with an unreadable track, with no sound track or with two is refused. */
  lemma WrittenFilmRefused(f: Film, j: nat, k: nat)
    requires FilmWritten(f)
    requires !AllReadable(f.tracks) || (forall t | t in f.tracks :: !Sounds(t))
          || (j < k < |f.tracks| && Sounds(f.tracks[j]) && Sounds(f.tracks[k]))
    ensures Duration(f.data) == None
  {
    hide Within;
    hide FilmWritten;
    hide Readable;
    hide Sounds;
    hide DefaultOf;
    hide Defaults;
    hide SoundTracks;
    FilmReads(f);
    if AllReadable(f.tracks) {
      var tracks := ValuesOf(f.tracks);
      if forall t | t in f.tracks :: !Sounds(t) {
        NoSound(tracks);
      } else {
        TwoSounds(tracks, j, k);
      }
    }
  }

  // ----- a progressive file -----

  /** Without fragments a file answers its sound track's table alone. */
  lemma WithoutFragments(f: Film, k: nat)
    requires FilmWritten(f) && OnlySound(f, k) && f.moofs == []
    requires forall i | 0 <= i < |f.tracks| && i != k :: Readable(f.tracks[i])
    ensures var total := Sum(Ticks, f.tracks[k].entries);
            Duration(f.data) == if f.tracks[k].rate > 0 && 0 < total < U64 then Some((total, f.tracks[k].rate)) else None
  {
    hide FilmWritten;
    hide Defaults;
    hide Within;
    hide MovieDuration;
    var t := f.tracks[k];
    if Readable(t) {
      assert Sum(MoofLength(t.id, Defaults(f, t.id)), []) == 0;
      WrittenFilmMeasures(f, k);
    } else {
      assert t in f.tracks;
      WrittenFilmRefused(f, 0, 0);
    }
  }

  function Enclose(boxes: seq<Box>): (s: seq<byte>)
    requires forall b | b in boxes :: WritableBox(b, Long)
    ensures |s| == Sum(BoxLength, boxes)
  {
    if boxes == [] then []
    else WriteBox(boxes[0], Long) + Enclose(boxes[1..])
  }

  function BoxLength(b: Box): nat { 16 + |b.body| }

  lemma FewBoxes(a: Box, b: Box, c: Box)
    ensures Sum(BoxLength, [c]) == BoxLength(c)
    ensures Sum(BoxLength, [b, c]) == BoxLength(b) + BoxLength(c)
    ensures Sum(BoxLength, [a, b, c]) == BoxLength(a) + BoxLength(b) + BoxLength(c)
  {
    assert [c][1..] == [] && [b, c][1..] == [c] && [a, b, c][1..] == [b, c];
  }

  function Longs(n: nat): seq<SizeForm> { seq(n, _ => Long) }

  lemma {:induction false} Enclosed(boxes: seq<Box>, kinds: set<seq<byte>>)
    requires forall b | b in boxes :: WritableBox(b, Long) && b.kind in kinds
    ensures AllWritable(boxes, Longs(|boxes|)) && Enclose(boxes) == WriteBoxes(boxes, Longs(|boxes|)) && Among(boxes, kinds) == boxes
    ensures Holds(Enclose(boxes), kinds, boxes)
    decreases |boxes|
  {
    hide WriteBox;
    hide WritableBox;
    hide BoxLength;
    if boxes != [] {
      var rest := boxes[1..];
      Enclosed(rest, kinds);
      assert Longs(|boxes|)[1..] == Longs(|rest|);
      assert WriteBoxes(boxes, Longs(|boxes|)) == WriteBox(boxes[0], Long) + WriteBoxes(rest, Longs(|rest|));
      assert Among(boxes, kinds) == [boxes[0]] + rest;
    }
  }

  function Blank(n: nat): (s: seq<byte>)
    ensures |s| == n
  {
    seq(n, _ => 0)
  }

  predicate Small(body: seq<byte>) { |body| < 0x100_0000_0000 }

  /** The bodies of one sound track's boxes, nested. */
  function SoundTrack(id: u32, rate: u32, entries: seq<Entry>): (t: WrittenTrack)
    requires |entries| < U32
    ensures Small(t.stts) && Small(t.stbl) && Small(t.minf) && Small(t.hdlr) && Small(t.mdhd) && Small(t.mdia)
    ensures Small(t.tkhd) && Small(t.trak)
  {
    hide WriteHeader;
    hide WriteBox;
    var stts := WriteStts(0, entries, []);
    FewBoxes(Box(STTS, stts), Box(STTS, stts), Box(STTS, stts));
    var stbl := Enclose([Box(STTS, stts)]);
    FewBoxes(Box(STBL, stbl), Box(STBL, stbl), Box(STBL, stbl));
    var minf := Enclose([Box(STBL, stbl)]);
    var hdlr, mdhd := Blank(8) + SOUN, WriteHeader(0, Blank(11), rate, []);
    FewBoxes(Box(HDLR, hdlr), Box(MDHD, mdhd), Box(MINF, minf));
    var mdia := Enclose([Box(HDLR, hdlr), Box(MDHD, mdhd), Box(MINF, minf)]);
    var tkhd := WriteHeader(0, Blank(11), id, []);
    FewBoxes(Box(TKHD, tkhd), Box(TKHD, tkhd), Box(MDIA, mdia));
    var trak := Enclose([Box(TKHD, tkhd), Box(MDIA, mdia)]);
    WrittenTrack(trak, tkhd, mdia, hdlr, mdhd, minf, stbl, stts, id, SOUN, rate, entries)
  }

  lemma SoundTrackWritten(id: u32, rate: u32, entries: seq<Entry>)
    requires |entries| < U32
    ensures TrackWritten(SoundTrack(id, rate, entries)) && Sounds(SoundTrack(id, rate, entries))
  {
    hide WriteHeader;
    hide WriteBox;
    hide Enclose;
    hide Holds;
    hide WriteStts;
    hide IsHeader;
    hide IsTable;
    var t := SoundTrack(id, rate, entries);
    PlainHeader(id);
    PlainHeader(rate);
    PlainTable(entries);
    Enclosed([Box(STTS, t.stts)], {STTS});
    Enclosed([Box(STBL, t.stbl)], {STBL});
    Enclosed([Box(HDLR, t.hdlr), Box(MDHD, t.mdhd), Box(MINF, t.minf)], {HDLR, MDHD, MINF});
    Enclosed([Box(TKHD, t.tkhd), Box(MDIA, t.mdia)], {TKHD, MDIA});
  }

  lemma PlainHeader(field: u32)
    ensures IsHeader(WriteHeader(0, Blank(11), field, []), field)
  {
    hide WriteHeader;
    assert |Blank(11)| == 11;
  }

  lemma PlainTable(entries: seq<Entry>)
    requires |entries| < U32
    ensures IsTable(WriteStts(0, entries, []), entries)
  {
    hide WriteStts;
  }

  /** The bytes of a progressive file of one sound track. */
  function Progressive(id: u32, rate: u32, entries: seq<Entry>): (f: Film)
    requires |entries| < U32
    ensures |f.moov| <= 0x100_0000_0010
  {
    hide WriteBox;
    hide SoundTrack;
    hide TrackWritten;
    SoundTrackWritten(id, rate, entries);
    var t := SoundTrack(id, rate, entries);
    var moov := Enclose([Box(TRAK, t.trak)]);
    FewBoxes(Box(TRAK, t.trak), Box(TRAK, t.trak), Box(TRAK, t.trak));
    Film(Enclose([Box(MOOV, moov)]), moov, [t], None, [])
  }

  /** Its bytes answer its table's sum in its rate, or are refused where that is no 64-bit duration. */
  lemma ProgressiveMeasures(id: u32, rate: u32, entries: seq<Entry>)
    requires |entries| < U32
    ensures var total := Sum(Ticks, entries);
            Duration(Progressive(id, rate, entries).data) ==
            if rate > 0 && 0 < total < U64 then Some((total, rate)) else None
  {
    hide Duration;
    hide Enclose;
    hide Holds;
    hide TrackWritten;
    hide Readable;
    hide Sounds;
    hide WriteBox;
    ProgressiveWritten(id, rate, entries);
    var f := Progressive(id, rate, entries);
    WithoutFragments(f, 0);
  }

  lemma ProgressiveWritten(id: u32, rate: u32, entries: seq<Entry>)
    requires |entries| < U32
    ensures var f := Progressive(id, rate, entries);
            FilmWritten(f) && OnlySound(f, 0) && f.moofs == [] && f.tracks[0].rate == rate && f.tracks[0].entries == entries
  {
    hide Enclose;
    hide Holds;
    hide TrackWritten;
    hide Sounds;
    hide WriteBox;
    SoundTrackWritten(id, rate, entries);
    var f := Progressive(id, rate, entries);
    var t := f.tracks[0];
    Enclosed([Box(TRAK, t.trak)], {TRAK, MVEX});
    Enclosed([Box(MOOV, f.moov)], {MOOV, MOOF});
    assert TrackBoxes([t]) + MvexBoxes(None) == [Box(TRAK, t.trak)] by {
      assert [t][1..] == [];
    }
    assert [Box(MOOV, f.moov)] + MoofBoxes([]) == [Box(MOOV, f.moov)];
  }
}
