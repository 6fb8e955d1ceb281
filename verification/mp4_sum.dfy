// What an MP4 file measures: the true sum of its sample table and runs, and
// exactly when the code's additions keep it.

module Mp4Sum {
  import opened Base
  import opened Words
  import opened Boxes
  import opened Mp4
  import opened Permutations

  function TrueTicks(id: u32, default: u32): seq<byte> -> nat
  {
    moof => match FragmentTicks(moof, id, default) case None => 0 case Some(exact) => exact
  }

  function KeptTicks(id: u32, default: u32): seq<byte> -> nat
  {
    moof => match FragmentTicks(moof, id, default) case None => 0 case Some(exact) => Wrap64(exact)
  }

  predicate AllRead(fragments: seq<seq<byte>>, id: u32, default: u32)
  {
    forall moof | moof in fragments :: FragmentTicks(moof, id, default).Some?
  }

  predicate AllFit(fragments: seq<seq<byte>>, id: u32, default: u32)
  {
    forall moof | moof in fragments :: TrueTicks(id, default)(moof) < U64
  }

  /** The running addition refuses exactly when a fragment is unreadable or the whole sum is too large. */
  lemma {:induction false} CodedIsASum(ticks: u64, fragments: seq<seq<byte>>, id: u32, default: u32)
    ensures var sum := ticks + Sum(KeptTicks(id, default), fragments);
            CodedTicks(ticks, fragments, id, default) ==
            if AllRead(fragments, id, default) && sum < U64 then Some(sum) else None
    decreases |fragments|
  {
    hide FragmentTicks;
    if fragments != [] {
      var first := FragmentTicks(fragments[0], id, default);
      assert fragments[0] in fragments;
      assert forall moof | moof in fragments :: moof == fragments[0] || moof in fragments[1..];
      if first.Some? && ticks + Wrap64(first.value) < U64 {
        CodedIsASum(ticks + Wrap64(first.value), fragments[1..], id, default);
      }
    }
  }

  /** Keeping low words loses something exactly when some fragment has a high word. */
  lemma {:induction false} KeptIsTrue(fragments: seq<seq<byte>>, id: u32, default: u32)
    ensures var kept, exact := Sum(KeptTicks(id, default), fragments), Sum(TrueTicks(id, default), fragments);
            kept <= exact && (kept == exact <==> AllFit(fragments, id, default)) && (exact - kept) % U64 == 0
    decreases |fragments|
  {
    hide FragmentTicks;
    if fragments != [] {
      KeptIsTrue(fragments[1..], id, default);
      assert fragments[0] in fragments;
      assert forall moof | moof in fragments :: moof == fragments[0] || moof in fragments[1..];
      WrapLoses(TrueTicks(id, default)(fragments[0]));
    }
  }

  lemma WrapLoses(n: nat)
    ensures Wrap64(n) <= n && (Wrap64(n) == n <==> n < U64) && (n - Wrap64(n)) % U64 == 0
  {
  }

  /** The sound track's true sample-table and fragment total. */
  function TrueTotal(m: Movie): nat
    requires |SoundTracks(m.tracks)| == 1
  {
    var sound := SoundTracks(m.tracks)[0];
    sound.ticks + Sum(TrueTicks(sound.id, DefaultOf(m, sound.id)), m.fragments)
  }

  predicate FragmentsFit(m: Movie)
    requires |SoundTracks(m.tracks)| == 1
  {
    var sound := SoundTracks(m.tracks)[0];
    AllFit(m.fragments, sound.id, DefaultOf(m, sound.id))
  }

  predicate FragmentsRead(m: Movie)
    requires |SoundTracks(m.tracks)| == 1
  {
    var sound := SoundTracks(m.tracks)[0];
    AllRead(m.fragments, sound.id, DefaultOf(m, sound.id))
  }

  /**
   * An accepted file's ticks are the true total exactly when no fragment's own
   * runs reach 2^64; otherwise they are fewer.
   */
  lemma ExactTotal(data: seq<byte>)
    requires Duration(data).Some?
    ensures var m := Within(VisitTop, NO_MOVIE, data).value;
            && |SoundTracks(m.tracks)| == 1
            && Duration(data).value.0 <= TrueTotal(m)
            && (Duration(data).value.0 == TrueTotal(m) <==> FragmentsFit(m))
            && (TrueTotal(m) - Duration(data).value.0) % U64 == 0
  {
    hide Within;
    hide FragmentTicks;
    hide SoundTracks;
    var m := Within(VisitTop, NO_MOVIE, data).value;
    var sound := SoundTracks(m.tracks)[0];
    var default := DefaultOf(m, sound.id);
    CodedIsASum(sound.ticks, m.fragments, sound.id, default);
    KeptIsTrue(m.fragments, sound.id, default);
  }

  /** A movie whose fragments fit is measured exactly when it reads and its total is 1 to 2^64 - 1. */
  lemma MeasuredWhenItFits(m: Movie)
    requires m.sawMovie && |SoundTracks(m.tracks)| == 1 && FragmentsFit(m)
    ensures MovieDuration(m) ==
            if FragmentsRead(m) && 0 < TrueTotal(m) < U64
            then Some((TrueTotal(m), SoundTracks(m.tracks)[0].timescale)) else None
  {
    hide FragmentTicks;
    hide SoundTracks;
    var sound := SoundTracks(m.tracks)[0];
    var default := DefaultOf(m, sound.id);
    CodedIsASum(sound.ticks, m.fragments, sound.id, default);
    KeptIsTrue(m.fragments, sound.id, default);
  }

  // ----- the order of a file's boxes -----

  /** The bodies of the boxes of one kind, in order. */
  function BodiesOf(boxes: seq<Box>, kind: seq<byte>): seq<seq<byte>>
  {
    if boxes == [] then []
    else if boxes[0].kind == kind then [boxes[0].body] + BodiesOf(boxes[1..], kind)
    else BodiesOf(boxes[1..], kind)
  }

  lemma {:induction false} BodiesAppend(a: seq<Box>, b: seq<Box>, kind: seq<byte>)
    ensures BodiesOf(a + b, kind) == BodiesOf(a, kind) + BodiesOf(b, kind)
  {
    if a == [] {
      assert a + b == b;
    } else {
      assert (a + b)[1..] == a[1..] + b;
      BodiesAppend(a[1..], b, kind);
    }
  }

  lemma {:induction false} BodiesPermuted(a: seq<Box>, b: seq<Box>, kind: seq<byte>)
    requires multiset(a) == multiset(b)
    ensures multiset(BodiesOf(a, kind)) == multiset(BodiesOf(b, kind))
    decreases |a|
  {
    if a == [] {
      assert multiset(b) == multiset{} && b == [];
    } else {
      var i := PullFirst(a, b);
      var front, tail := b[..i], b[i + 1..];
      BodiesPermuted(a[1..], front + tail, kind);
      BodiesAppend(front, tail, kind);
      BodiesAppend(front + [a[0]], tail, kind);
      BodiesAppend(front, [a[0]], kind);
      assert a == [a[0]] + a[1..];
      BodiesAppend([a[0]], a[1..], kind);
    }
  }

  /** Reading a movie box neither reads nor moves the fragments met before it. */
  lemma {:induction false} MoovIgnoresFragments(m: Movie, fragments: seq<seq<byte>>, boxes: seq<Box>)
    ensures Fold(VisitMoov, m.(fragments := fragments), boxes) ==
            match Fold(VisitMoov, m, boxes)
            case None => None
            case Some(after) => Some(after.(fragments := fragments))
    decreases |boxes|
  {
    hide ParseBoxes;
    hide ReadTrack;
    hide VisitMvex;
    if boxes != [] {
      if boxes[0].kind == MVEX && ParseBoxes(boxes[0].body).Some? {
        MvexIgnoresFragments(m, fragments, ParseBoxes(boxes[0].body).value);
      }
      match VisitMoov(m, boxes[0]) {
        case None =>
        case Some(next) =>
          assert VisitMoov(m.(fragments := fragments), boxes[0]) == Some(next.(fragments := fragments));
          MoovIgnoresFragments(next, fragments, boxes[1..]);
      }
    }
  }

  lemma {:induction false} MvexIgnoresFragments(m: Movie, fragments: seq<seq<byte>>, boxes: seq<Box>)
    ensures Fold(VisitMvex, m.(fragments := fragments), boxes) ==
            match Fold(VisitMvex, m, boxes)
            case None => None
            case Some(after) => Some(after.(fragments := fragments))
    decreases |boxes|
  {
    hide Be32;
    if boxes != [] {
      var next := VisitMvex(m, boxes[0]).value;
      assert VisitMvex(m.(fragments := fragments), boxes[0]) == Some(next.(fragments := fragments));
      MvexIgnoresFragments(next, fragments, boxes[1..]);
    }
  }

  /** Boxes other than movies only add their fragments. */
  lemma {:induction false} FoldWithoutMovie(m: Movie, boxes: seq<Box>)
    requires BodiesOf(boxes, MOOV) == []
    ensures Fold(VisitTop, m, boxes) == Some(m.(fragments := m.fragments + BodiesOf(boxes, MOOF)))
    decreases |boxes|
  {
    if boxes == [] {
      assert m.fragments + [] == m.fragments;
    } else {
      FoldWithoutMovie(VisitTop(m, boxes[0]).value, boxes[1..]);
      if boxes[0].kind == MOOF {
        assert m.fragments + [boxes[0].body] + BodiesOf(boxes[1..], MOOF) == m.fragments + BodiesOf(boxes, MOOF);
      }
    }
  }

  /** A file with one movie box reads as that box plus the fragments in file order. */
  lemma {:induction false} FoldOneMovie(m: Movie, boxes: seq<Box>, moov: seq<byte>)
    requires BodiesOf(boxes, MOOV) == [moov]
    ensures Fold(VisitTop, m, boxes) ==
            match Within(VisitMoov, m.(sawMovie := true), moov)
            case None => None
            case Some(after) => Some(after.(fragments := m.fragments + BodiesOf(boxes, MOOF)))
    decreases |boxes|
  {
    hide ParseBoxes;
    hide VisitMoov;
    var rest := boxes[1..];
    if boxes[0].kind == MOOV {
      assert BodiesOf(boxes, MOOV)[1..] == BodiesOf(rest, MOOV) && BodiesOf(rest, MOOV) == [];
      assert BodiesOf(boxes, MOOV)[0] == boxes[0].body;
      var inside := Within(VisitMoov, m.(sawMovie := true), moov);
      if inside.Some? {
        MoovKeepsFragments(m.(sawMovie := true), moov);
        FoldWithoutMovie(inside.value, rest);
      }
    } else if boxes[0].kind == MOOF {
      var more := m.(fragments := m.fragments + [boxes[0].body]);
      FoldOneMovie(more, rest, moov);
      assert more.(sawMovie := true) == m.(sawMovie := true).(fragments := more.fragments);
      if ParseBoxes(moov).Some? {
        MoovIgnoresFragments(m.(sawMovie := true), more.fragments, ParseBoxes(moov).value);
      }
      assert m.fragments + [boxes[0].body] + BodiesOf(rest, MOOF) == m.fragments + BodiesOf(boxes, MOOF);
    } else {
      FoldOneMovie(m, rest, moov);
    }
  }

  /** The answer reads the fragments as a multiset. */
  lemma FragmentOrderDoesNotMatter(m: Movie, fragments: seq<seq<byte>>)
    requires multiset(m.fragments) == multiset(fragments)
    ensures MovieDuration(m.(fragments := fragments)) == MovieDuration(m)
  {
    hide FragmentTicks;
    hide SoundTracks;
    var sounds := SoundTracks(m.tracks);
    if |sounds| == 1 {
      var id, default := sounds[0].id, DefaultOf(m, sounds[0].id);
      CodedIsASum(sounds[0].ticks, m.fragments, id, default);
      CodedIsASum(sounds[0].ticks, fragments, id, default);
      SumPermuted(KeptTicks(id, default), m.fragments, fragments);
      SameElements(m.fragments, fragments);
    }
  }

  /** Any reordering of the top-level boxes of a file with one movie box is measured alike. */
  lemma BoxOrderDoesNotMatter(data: seq<byte>, other: seq<byte>)
    ensures ParseBoxes(data).Some? && ParseBoxes(other).Some?
            && multiset(ParseBoxes(data).value) == multiset(ParseBoxes(other).value)
            && |BodiesOf(ParseBoxes(data).value, MOOV)| == 1
            ==> Duration(data) == Duration(other)
  {
    hide ParseBoxes;
    hide Duration;
    if ParseBoxes(data).Some? && ParseBoxes(other).Some? {
      var a, b := ParseBoxes(data).value, ParseBoxes(other).value;
      if multiset(a) == multiset(b) && |BodiesOf(a, MOOV)| == 1 {
        SameBoxes(a, b);
        DurationOfBoxes(data);
        DurationOfBoxes(other);
      }
    }
  }

  /** A file's duration reads its boxes. */
  function BoxesDuration(boxes: seq<Box>): Option<(u64, u64)>
  {
    match Fold(VisitTop, NO_MOVIE, boxes)
    case None => None
    case Some(m) => MovieDuration(m)
  }

  lemma DurationOfBoxes(data: seq<byte>)
    ensures ParseBoxes(data).Some? ==> Duration(data) == BoxesDuration(ParseBoxes(data).value)
  {
    hide ParseBoxes;
    hide MovieDuration;
  }

  lemma SameBoxes(a: seq<Box>, b: seq<Box>)
    requires multiset(a) == multiset(b) && |BodiesOf(a, MOOV)| == 1
    ensures BoxesDuration(a) == BoxesDuration(b)
  {
    hide ParseBoxes;
    hide VisitMoov;
    hide MovieDuration;
    BodiesPermuted(a, b, MOOV);
    BodiesPermuted(a, b, MOOF);
    var moov := BodiesOf(a, MOOV)[0];
    assert BodiesOf(a, MOOV) == [moov];
    OneMember(BodiesOf(b, MOOV), moov);
    FoldOneMovie(NO_MOVIE, a, moov);
    FoldOneMovie(NO_MOVIE, b, moov);
    var inside := Within(VisitMoov, NO_MOVIE.(sawMovie := true), moov);
    if inside.Some? {
      var m := inside.value.(fragments := [] + BodiesOf(a, MOOF));
      assert [] + BodiesOf(a, MOOF) == BodiesOf(a, MOOF) && [] + BodiesOf(b, MOOF) == BodiesOf(b, MOOF);
      FragmentOrderDoesNotMatter(m, [] + BodiesOf(b, MOOF));
    }
  }

  lemma OneMember<T>(xs: seq<T>, x: T)
    requires multiset(xs) == multiset([x])
    ensures xs == [x]
  {
    assert |multiset(xs)| == |xs| && |multiset([x])| == 1;
    assert xs[0] in multiset(xs);
  }

  // ----- defaults -----

  /** The default duration of a standard traf: its header's when stated, else the movie's. */
  function EffectiveDefault(tfhd: seq<byte>, id: u32, default: u32): Option<u32>
  {
    match VisitTfhd(Fragment(false, default, 0), tfhd, id)
    case None => None
    case Some(f) => Some(f.fallback)
  }

  predicate AllRunsRead(runs: seq<seq<byte>>, default: u32)
  {
    forall run | run in runs :: RunTicks(run, default).Some?
  }

  function TrueRun(default: u32): seq<byte> -> nat
  {
    run => match RunTicks(run, default) case None => 0 case Some(ticks) => ticks
  }

  lemma {:induction false} RunsAfterHeader(f: Fragment, boxes: seq<Box>, id: u32)
    requires BodiesOf(boxes, TFHD) == []
    ensures var runs := BodiesOf(boxes, TRUN);
            Fold(TrafVisitor(id), f, boxes) ==
            if !f.mine then Some(f)
            else if AllRunsRead(runs, f.fallback)
            then Some(f.(total := f.total + Sum(TrueRun(f.fallback), runs))) else None
    decreases |boxes|
  {
    hide RunTicks;
    if boxes != [] {
      var runs, rest := BodiesOf(boxes, TRUN), BodiesOf(boxes[1..], TRUN);
      if boxes[0].kind == TRUN && f.mine {
        assert runs[1..] == rest;
        assert forall run | run in runs :: run == runs[0] || run in rest;
        assert runs[0] in runs && forall run | run in rest :: run in runs;
        if RunTicks(boxes[0].body, f.fallback).Some? {
          RunsAfterHeader(VisitTraf(f, boxes[0], id).value, boxes[1..], id);
        }
      } else {
        assert boxes[0].kind == TRUN || runs == rest;
        RunsAfterHeader(f, boxes[1..], id);
      }
    }
  }

  /**
   * A traf whose one tfhd comes first adds, for its own track only, every run
   * measured by its own durations, else the header's default, else the movie's.
   */
  lemma StandardTraf(tfhd: seq<byte>, rest: seq<Box>, id: u32, default: u32, total: nat)
    requires BodiesOf(rest, TFHD) == [] && EffectiveDefault(tfhd, id, default).Some?
    ensures var boxes := [Box(TFHD, tfhd)] + rest;
            var used := EffectiveDefault(tfhd, id, default).value;
            var runs := BodiesOf(rest, TRUN);
            var read := Fold(TrafVisitor(id), Fragment(false, default, total), boxes);
            if Be32(tfhd[4..]) != id then read.Some? && read.value.total == total
            else if AllRunsRead(runs, used) then read.Some? && read.value.total == total + Sum(TrueRun(used), runs)
            else read == None
  {
    hide RunTicks;
    hide Be32;
    var boxes := [Box(TFHD, tfhd)] + rest;
    assert boxes[1..] == rest;
    var f := VisitTfhd(Fragment(false, default, total), tfhd, id).value;
    RunsAfterHeader(f, rest, id);
  }
}
