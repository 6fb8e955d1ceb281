// What an accepted Matroska/WebM file measures: the latest end of its audio
// blocks less their earliest start, and exactly when 64 bits hold that.

/** Least and greatest of non-empty lists of numbers. */
module Extremes {
  import opened Base

  function LeastNumber(xs: seq<nat>): (m: nat)
    requires xs != []
    ensures m in xs && forall x | x in xs :: m <= x
  {
    var front, last := xs[..|xs| - 1], xs[|xs| - 1];
    assert xs == front + [last];
    if front == [] then last else Min(LeastNumber(front), last)
  }

  function GreatestNumber(xs: seq<nat>): (m: nat)
    requires xs != []
    ensures m in xs && forall x | x in xs :: x <= m
  {
    var front, last := xs[..|xs| - 1], xs[|xs| - 1];
    assert xs == front + [last];
    if front == [] then last else Max(GreatestNumber(front), last)
  }

  /** Both depend only on which numbers are listed. */
  lemma SameMembers(xs: seq<nat>, ys: seq<nat>)
    requires xs != [] && ys != [] && forall x :: x in xs <==> x in ys
    ensures LeastNumber(xs) == LeastNumber(ys) && GreatestNumber(xs) == GreatestNumber(ys)
  {
    assert LeastNumber(xs) in ys && LeastNumber(ys) in xs && GreatestNumber(xs) in ys && GreatestNumber(ys) in xs;
  }
}

module MatroskaSpan {
  import opened Base
  import opened Words
  import opened Ebml
  import opened Matroska
  import opened Extremes
  import opened Permutations
  import Ordering

  /** When a block plays. */
  datatype Interval = Interval(start: nat, end: nat)

  function Starts(plays: seq<Interval>): (r: seq<nat>)
    ensures |r| == |plays| && forall i | 0 <= i < |r| :: r[i] == plays[i].start
  {
    seq(|plays|, i requires 0 <= i < |plays| => plays[i].start)
  }

  function Ends(plays: seq<Interval>): (r: seq<nat>)
    ensures |r| == |plays| && forall i | 0 <= i < |r| :: r[i] == plays[i].end
  {
    seq(|plays|, i requires 0 <= i < |plays| => plays[i].end)
  }

  // ----- the reader's fields are extremes of what it records -----

  /** What one item adds to the reader's record, in the reader's 64 bits. */
  function RecordedBy(r: Reader, item: Item): seq<Interval>
  {
    if !item.Whole? || !CarriesBlock(item.id) then []
    else
      match BlockOutcome(r, item.id, item.body)
      case Played(span) => [Interval(span.start, Wrap64(span.End()))]
      case _ => []
  }

  function Recorded(r: Reader, items: seq<Item>): seq<Interval>
    decreases |items|
  {
    if items == [] then []
    else
      match Step(r, items[0])
      case None => []
      case Some(next) => RecordedBy(r, items[0]) + Recorded(next, items[1..])
  }

  /** The elements of a file that the walk meets. */
  function ItemsOf(data: seq<byte>): seq<Item>
  {
    match Payload(data)
    case None => []
    case Some(stream) => match Scan(stream) case None => [] case Some(items) => items
  }

  predicate Measures(r: Reader, plays: seq<Interval>)
  {
    && r.blocks == |plays|
    && (plays == [] ==> r.end == 0)
    && (plays != [] ==> r.start == LeastNumber(Starts(plays)) && r.end == GreatestNumber(Ends(plays)))
  }

  lemma RecordMeasures(r: Reader, plays: seq<Interval>, span: Span)
    requires Measures(r, plays)
    ensures Measures(Record(r, Played(span)).value, plays + [Interval(span.start, Wrap64(span.End()))])
  {
    hide Wrap64;
    var more := plays + [Interval(span.start, Wrap64(span.End()))];
    assert Starts(more)[..|plays|] == Starts(plays);
    assert Ends(more)[..|plays|] == Ends(plays);
  }

  lemma StepMeasures(r: Reader, item: Item, plays: seq<Interval>)
    requires Measures(r, plays) && Step(r, item).Some?
    ensures Measures(Step(r, item).value, plays + RecordedBy(r, item))
  {
    hide BlockOutcome;
    hide Measures;
    hide Record;
    var added := RecordedBy(r, item);
    if item.Whole? && CarriesBlock(item.id) && BlockOutcome(r, item.id, item.body).Played? {
      RecordMeasures(r, plays, BlockOutcome(r, item.id, item.body).span);
    } else {
      assert plays + added == plays;
      KeepsMeasure(r, item, plays);
    }
  }

  lemma KeepsMeasure(r: Reader, item: Item, plays: seq<Interval>)
    requires Measures(r, plays) && Step(r, item).Some? && RecordedBy(r, item) == []
    ensures Measures(Step(r, item).value, plays)
  {
    hide BlockOutcome;
  }

  lemma {:induction false} RunMeasures(r: Reader, items: seq<Item>, plays: seq<Interval>)
    requires Measures(r, plays) && Run(r, items).Some?
    ensures Measures(Run(r, items).value, plays + Recorded(r, items))
    decreases |items|
  {
    hide Measures;
    hide Step;
    hide RecordedBy;
    if items == [] {
      assert plays + Recorded(r, items) == plays;
    } else {
      var next := Step(r, items[0]).value;
      var more := plays + RecordedBy(r, items[0]);
      StepMeasures(r, items[0], plays);
      RunMeasures(next, items[1..], more);
      assert more + Recorded(next, items[1..]) == plays + Recorded(r, items);
    }
  }

  lemma DurationRuns(data: seq<byte>)
    requires Duration(data).Some?
    ensures Run(FRESH, ItemsOf(data)).Some?
    ensures var r := Run(FRESH, ItemsOf(data)).value;
            r.blocks > 0 && Duration(data).value == (Wrap64(r.end - r.start), NANOSECONDS)
  {
    hide Run;
    hide Scan;
    hide Payload;
    hide Wrap64;
  }

  /** The answer is the latest recorded end less the earliest recorded start, in 64 bits. */
  lemma AnswerFromRecord(data: seq<byte>)
    requires Duration(data).Some?
    ensures var plays := Recorded(FRESH, ItemsOf(data));
            && plays != []
            && Duration(data).value.0 == Wrap64(GreatestNumber(Ends(plays)) - LeastNumber(Starts(plays)))
  {
    hide Recorded;
    hide Run;
    hide ItemsOf;
    hide Duration;
    hide LeastNumber;
    hide GreatestNumber;
    hide Wrap64;
    hide Step;
    hide RecordedBy;
    hide Measures;
    DurationRuns(data);
    var items := ItemsOf(data);
    FreshRunMeasures(items);
    MeasuredExtremes(Run(FRESH, items).value, Recorded(FRESH, items));
  }

  lemma FreshRunMeasures(items: seq<Item>)
    requires Run(FRESH, items).Some?
    ensures Measures(Run(FRESH, items).value, Recorded(FRESH, items))
  {
    hide Run;
    hide Recorded;
    RunMeasures(FRESH, items, []);
    assert [] + Recorded(FRESH, items) == Recorded(FRESH, items);
  }

  lemma MeasuredExtremes(r: Reader, plays: seq<Interval>)
    requires Measures(r, plays) && r.blocks > 0
    ensures plays != [] && r.start == LeastNumber(Starts(plays)) && r.end == GreatestNumber(Ends(plays))
  {
  }

  /** Files that record the same intervals in any order, across any clusters, measure alike. */
  lemma SameBlocksMeasureAlike(data: seq<byte>, other: seq<byte>)
    ensures Duration(data).Some? && Duration(other).Some? &&
            (forall play :: play in Recorded(FRESH, ItemsOf(data)) <==> play in Recorded(FRESH, ItemsOf(other)))
            ==> Duration(data) == Duration(other)
  {
    hide Recorded;
    hide ItemsOf;
    hide LeastNumber;
    hide GreatestNumber;
    hide Wrap64;
    hide Duration;
    hide Run;
    var a, b := Recorded(FRESH, ItemsOf(data)), Recorded(FRESH, ItemsOf(other));
    if Duration(data).Some? && Duration(other).Some? && forall play :: play in a <==> play in b {
      AnswerFromRecord(data);
      AnswerFromRecord(other);
      DurationRuns(data);
      DurationRuns(other);
      SameTimes(a, b);
      SameTimes(b, a);
      SameMembers(Starts(a), Starts(b));
      SameMembers(Ends(a), Ends(b));
    }
  }

  lemma SameTimes(a: seq<Interval>, b: seq<Interval>)
    requires forall play | play in a :: play in b
    ensures forall x | x in Starts(a) :: x in Starts(b)
    ensures forall x | x in Ends(a) :: x in Ends(b)
  {
    forall x | x in Starts(a)
      ensures x in Starts(b)
    {
      var i :| 0 <= i < |a| && Starts(a)[i] == x;
      assert a[i] in b;
      var j :| 0 <= j < |b| && b[j] == a[i];
      assert Starts(b)[j] == x;
    }
    forall x | x in Ends(a)
      ensures x in Ends(b)
    {
      var i :| 0 <= i < |a| && Ends(a)[i] == x;
      assert a[i] in b;
      var j :| 0 <= j < |b| && b[j] == a[i];
      assert Ends(b)[j] == x;
    }
  }

  // ----- what the file states -----

  /**
   * What a file's elements state, every number whole: a body of any length
   * counts in full, and nothing wraps.
   */
  datatype Notes = Notes(scale: nat, audio: Option<NotedTrack>, cluster: nat)

  datatype NotedTrack = NotedTrack(number: nat, codec: seq<byte>, defaultDuration: nat)

  const NO_NOTES := Notes(DEFAULT_TIMECODE_SCALE, None, 0)

  function WholeChild(children: seq<Child>, id: nat, default: nat): nat
  {
    match LastChild(children, id)
    case None => default
    case Some(body) => BeValue(body)
  }

  function NoteTrack(n: Notes, body: seq<byte>): Notes
  {
    match Children(body)
    case None => n
    case Some(children) =>
      if n.audio.Some? || WholeChild(children, ID_TRACK_TYPE, 0) != 2 then n
      else
        n.(audio := Some(NotedTrack(WholeChild(children, ID_TRACK_NUMBER, 0),
                                    match LastChild(children, ID_CODEC_ID) case None => [] case Some(codec) => codec,
                                    WholeChild(children, ID_DEFAULT_DURATION, 0))))
  }

  function Note(n: Notes, item: Item): Notes
  {
    match item
    case Enter(id) => if id == ID_CLUSTER then n.(cluster := 0) else n
    case Whole(id, body) =>
      if id == ID_INFO then
        match Children(body)
        case None => n
        case Some(children) => n.(scale := WholeChild(children, ID_TIMECODE_SCALE, n.scale))
      else if id == ID_TRACK_ENTRY then NoteTrack(n, body)
      else if id == ID_TIMECODE then n.(cluster := BeValue(body))
      else n
  }

  /** The duration a block states, by preference. */
  function StatedDuration(track: NotedTrack, scale: nat, lacing: nat, frames: seq<byte>, groupDuration: Option<nat>): Option<nat>
  {
    if groupDuration.Some? then Some(groupDuration.value * scale)
    else if lacing == 0 && track.defaultDuration > 0 then Some(track.defaultDuration)
    else if lacing != 0 && track.defaultDuration > 0 && |frames| > 0 then
      Some(track.defaultDuration * (frames[0] as int + 1))
    else if lacing == 0 && track.codec == OPUS_CODEC then
      match OpusPacketDuration(frames) case None => None case Some(d) => Some(d)
    else None
  }

  /** A block's signed timecode, after its track number. */
  function RelativeTick(body: seq<byte>, at: nat): int
    requires at + 2 <= |body|
  {
    Signed16(Be16(body[at..]))
  }

  /** When a block of the audio track plays, as the file states it. */
  function StatedBlock(n: Notes, body: seq<byte>, groupDuration: Option<nat>): seq<Interval>
  {
    if n.audio == None then []
    else
      match ParseVint(body, false)
      case None => []
      case Some(number) =>
        if |body| < number.length + 3 || number.value != n.audio.value.number then []
        else
          var ticks := n.cluster + RelativeTick(body, number.length);
          var lacing := body[number.length + 2] / 2 % 4;
          match StatedDuration(n.audio.value, n.scale, lacing, body[number.length + 3..], groupDuration)
          case None => []
          case Some(d) => if ticks < 0 then [] else [Interval(ticks * n.scale, ticks * n.scale + d)]
  }

  function StatedBy(n: Notes, item: Item): seq<Interval>
  {
    if !item.Whole? || !CarriesBlock(item.id) then []
    else if item.id == ID_SIMPLE_BLOCK then StatedBlock(n, item.body, None)
    else
      match Children(item.body)
      case None => []
      case Some(children) =>
        match LastChild(children, ID_BLOCK)
        case None => []
        case Some(block) =>
          StatedBlock(n, block, match LastChild(children, ID_BLOCK_DURATION)
                                case None => None
                                case Some(d) => Some(BeValue(d)))
  }

  function Stated(n: Notes, items: seq<Item>): seq<Interval>
    decreases |items|
  {
    if items == [] then [] else StatedBy(n, items[0]) + Stated(Note(n, items[0]), items[1..])
  }

  function NotesOf(n: Notes, items: seq<Item>): Notes
    decreases |items|
  {
    if items == [] then n else NotesOf(Note(n, items[0]), items[1..])
  }

  /** When the audio blocks of a whole file play, as it states them. */
  function FilePlays(data: seq<byte>): seq<Interval>
  {
    Stated(NO_NOTES, ItemsOf(data))
  }

  predicate EndsFollowStarts(plays: seq<Interval>)
  {
    forall i | 0 <= i < |plays| :: plays[i].start <= plays[i].end
  }

  /** The time the blocks span, as the file states it. */
  function StatedSpan(plays: seq<Interval>): (d: int)
    requires plays != []
  {
    GreatestNumber(Ends(plays)) - LeastNumber(Starts(plays))
  }

  // ----- the reader records what is stated, modulo 2^64 -----

  /** The reader's numbers are the low words of the stated ones. */
  predicate Follows(r: Reader, n: Notes)
  {
    && r.scale == n.scale % U64 && r.cluster == n.cluster % U64
    && (n.audio.Some? ==>
          r.audio == Some(AudioTrack(n.audio.value.number % U64, n.audio.value.codec, n.audio.value.defaultDuration % U64)))
  }

  /** Whether the stated audio track's number is one that a block can name. */
  predicate Nameable(n: Notes) { n.audio.Some? && n.audio.value.number < U64 }

  /**
   * A recorded interval is the stated one modulo 2^64, or the stated duration is
   * itself past 2^64.
   */
  predicate Seen(recorded: Interval, stated: Interval)
  {
    && stated.start <= stated.end && recorded.start == stated.start % U64 && recorded.end < U64
    && (recorded.end == stated.end % U64 || stated.end - stated.start >= U64)
  }

  predicate AllSeen(recorded: seq<Interval>, stated: seq<Interval>)
  {
    |recorded| == |stated| && forall i | 0 <= i < |recorded| :: Seen(recorded[i], stated[i])
  }

  lemma ProductResidue(a: nat, b: nat)
    ensures a % U64 * (b % U64) % U64 == a * b % U64
  {
    var p, q, x, y := a / U64, b / U64, a % U64, b % U64;
    var low := x * y;
    assert a == p * U64 + x && b == q * U64 + y;
    Distribute(p, x, q, y, U64);
    var k := p * q * U64 + p * y + x * q;
    assert a * b == k * U64 + low;
    ModUnique(a * b, k + low / U64, low % U64, U64);
  }

  lemma Distribute(p: nat, x: nat, q: nat, y: nat, m: nat)
    ensures (p * m + x) * (q * m + y) == (p * q * m + p * y + x * q) * m + x * y
  {
  }

  lemma SumResidue(a: nat, b: nat)
    ensures (a % U64 + b % U64) % U64 == (a + b) % U64
  {
  }

  /** An accepted tick is the stated one modulo 2^64, which is not negative. */
  lemma TickResidue(cluster: nat, relative: int)
    requires -0x8000 <= relative < 0x8000 && Ticks(cluster % U64, relative).Some?
    ensures cluster + relative >= 0 && Ticks(cluster % U64, relative).value == (cluster + relative) % U64
  {
  }

  lemma DurationSeen(track: NotedTrack, scale: nat, lacing: nat, frames: seq<byte>, group: Option<nat>)
    requires BlockDuration(AudioTrack(track.number % U64, track.codec, track.defaultDuration % U64), scale % U64, lacing, frames,
                           if group.Some? then Some(group.value % U64) else None).Some?
    ensures var coded := BlockDuration(AudioTrack(track.number % U64, track.codec, track.defaultDuration % U64),
                                       scale % U64, lacing, frames, if group.Some? then Some(group.value % U64) else None).value;
            var stated := StatedDuration(track, scale, lacing, frames, group);
            stated.Some? && (stated.value % U64 == coded % U64 || stated.value >= U64)
  {
    hide OpusPacketDuration;
    if group.Some? {
      ProductResidue(group.value, scale);
    } else if lacing != 0 && track.defaultDuration % U64 > 0 && |frames| > 0 {
      LacedResidue(track.defaultDuration, frames[0] as int + 1);
    }
  }

  lemma LacedResidue(duration: nat, count: nat)
    ensures duration % U64 * count % U64 == duration * count % U64
  {
    var p, x := duration / U64, duration % U64;
    Distribute(p, x, 0, count, U64);
    assert duration * count == p * count * U64 + x * count;
    ModUnique(duration * count, p * count + x * count / U64, x * count % U64, U64);
  }

  /** What a recorded block's bytes say, in the reader's numbers. */
  lemma PlayedParts(r: Reader, body: seq<byte>, group: Option<u64>)
    requires ReadBlock(r, body, group).Played?
    ensures r.audio.Some? && ParseVint(body, false).Some?
    ensures var number, span := ParseVint(body, false).value, ReadBlock(r, body, group).span;
            && |body| >= number.length + 3 && number.value == r.audio.value.number
            && var relative := RelativeTick(body, number.length);
            && -0x8000 <= relative < 0x8000
            && Ticks(r.cluster, relative).Some?
            && span.start == Ticks(r.cluster, relative).value * r.scale
            && BlockDuration(r.audio.value, r.scale, body[number.length + 2] / 2 % 4, body[number.length + 3..], group)
               == Some(span.duration)
  {
    hide BlockDuration;
    hide Ticks;
    hide ParseVint;
    hide Signed16;
    ShortTick(body[ParseVint(body, false).value.length..]);
  }

  /** What a block of the stated track states. */
  lemma StatedParts(n: Notes, body: seq<byte>, group: Option<nat>, relative: int, start: nat, d: nat)
    requires n.audio.Some? && ParseVint(body, false).Some?
    requires var number := ParseVint(body, false).value;
             && |body| >= number.length + 3 && number.value == n.audio.value.number
             && relative == RelativeTick(body, number.length)
             && StatedDuration(n.audio.value, n.scale, body[number.length + 2] / 2 % 4, body[number.length + 3..], group) == Some(d)
    requires n.cluster + relative >= 0 && start == (n.cluster + relative) * n.scale
    ensures StatedBlock(n, body, group) == [Interval(start, start + d)]
  {
    hide StatedDuration;
    hide ParseVint;
    hide RelativeTick;
  }

  lemma PlayedSeen(r: Reader, n: Notes, body: seq<byte>, group: Option<nat>)
    requires Follows(r, n) && Nameable(n)
    requires ReadBlock(r, body, if group.Some? then Some(group.value % U64) else None).Played?
    ensures var span := ReadBlock(r, body, if group.Some? then Some(group.value % U64) else None).span;
            var stated := StatedBlock(n, body, group);
            |stated| == 1 && Seen(Interval(span.start, Wrap64(span.End())), stated[0])
  {
    hide BlockDuration;
    hide StatedDuration;
    hide Ticks;
    hide ParseVint;
    hide Seen;
    hide Wrap64;
    hide ReadBlock;
    hide RelativeTick;
    hide StatedBlock;
    var coded := if group.Some? then Some(group.value % U64) else None;
    PlayedParts(r, body, coded);
    var number := ParseVint(body, false).value;
    var span := ReadBlock(r, body, coded).span;
    var relative := RelativeTick(body, number.length);
    var lacing, frames := body[number.length + 2] / 2 % 4, body[number.length + 3..];
    DurationSeen(n.audio.value, n.scale, lacing, frames, group);
    var d := StatedDuration(n.audio.value, n.scale, lacing, frames, group).value;
    var start := StartResidue(n.cluster, relative, n.scale, span.start);
    StatedParts(n, body, group, relative, start, d);
    EndResidue(start, d, span);
  }

  lemma ShortTick(bytes: seq<byte>)
    requires |bytes| >= 2
    ensures -0x8000 <= Signed16(Be16(bytes)) < 0x8000
  {
  }

  lemma StartResidue(cluster: nat, relative: int, scale: nat, coded: u64) returns (start: nat)
    requires -0x8000 <= relative < 0x8000 && Ticks(cluster % U64, relative).Some?
    requires coded == Ticks(cluster % U64, relative).value * (scale % U64)
    ensures cluster + relative >= 0 && start == (cluster + relative) * scale && coded == start % U64
  {
    hide Ticks;
    TickResidue(cluster, relative);
    ProductResidue(cluster + relative, scale);
    start := (cluster + relative) * scale;
  }

  lemma EndResidue(start: nat, duration: nat, span: Span)
    requires span.start == start % U64 && (duration % U64 == span.duration % U64 || duration >= U64)
    ensures Seen(Interval(span.start, Wrap64(span.End())), Interval(start, start + duration))
  {
    SumResidue(start, duration);
    SumResidue(span.start, span.duration);
  }

  lemma BlockSeen(r: Reader, n: Notes, body: seq<byte>, group: Option<nat>)
    requires Follows(r, n)
    ensures var outcome := ReadBlock(r, body, if group.Some? then Some(group.value % U64) else None);
            !outcome.Refused? ==>
              if Nameable(n) then AllSeen(PlayOf(outcome), StatedBlock(n, body, group))
              else StatedBlock(n, body, group) == []
  {
    hide BlockDuration;
    hide StatedDuration;
    hide Ticks;
    hide Wrap64;
    hide Seen;
    hide ParseVint;
    var outcome := ReadBlock(r, body, if group.Some? then Some(group.value % U64) else None);
    if outcome.Played? && Nameable(n) {
      PlayedSeen(r, n, body, group);
    }
  }

  function PlayOf(outcome: Outcome): seq<Interval>
  {
    match outcome
    case Played(span) => [Interval(span.start, Wrap64(span.End()))]
    case _ => []
  }

  /** What holds between the reader with its record and the notes with theirs. */
  predicate Matches(r: Reader, n: Notes, recorded: seq<Interval>, stated: seq<Interval>)
  {
    && Follows(r, n)
    && (r.audio == None ==> recorded == [])
    && (if Nameable(n) then AllSeen(recorded, stated) else stated == [])
  }

  lemma BlockItemMatches(r: Reader, n: Notes, item: Item, recorded: seq<Interval>, stated: seq<Interval>)
    requires Matches(r, n, recorded, stated) && Step(r, item).Some? && item.Whole? && CarriesBlock(item.id)
    ensures Matches(Step(r, item).value, Note(n, item), recorded + RecordedBy(r, item), stated + StatedBy(n, item))
  {
    hide ReadBlock;
    hide StatedBlock;
    hide Seen;
    hide Wrap64;
    hide Children;
    hide BeValue;
    assert r.audio != None by { NeedsTrack(r, item); }
    if item.id == ID_SIMPLE_BLOCK {
      BlockSeen(r, n, item.body, None);
    } else {
      var children := Children(item.body).value;
      var d := LastChild(children, ID_BLOCK_DURATION);
      BlockSeen(r, n, LastChild(children, ID_BLOCK).value, if d.Some? then Some(BeValue(d.value)) else None);
    }
  }

  lemma NeedsTrack(r: Reader, item: Item)
    requires Step(r, item).Some? && item.Whole? && CarriesBlock(item.id)
    ensures r.audio != None
  {
  }

  lemma OtherItemMatches(r: Reader, n: Notes, item: Item, recorded: seq<Interval>, stated: seq<Interval>)
    requires Matches(r, n, recorded, stated) && Step(r, item).Some? && !(item.Whole? && CarriesBlock(item.id))
    ensures RecordedBy(r, item) == [] && StatedBy(n, item) == []
    ensures Matches(Step(r, item).value, Note(n, item), recorded, stated)
  {
    hide Seen;
    hide Children;
    hide BeValue;
  }

  lemma {:induction false} RunMatches(r: Reader, n: Notes, items: seq<Item>, recorded: seq<Interval>, stated: seq<Interval>)
    requires Matches(r, n, recorded, stated) && Run(r, items).Some?
    ensures Matches(Run(r, items).value, NotesOf(n, items), recorded + Recorded(r, items), stated + Stated(n, items))
    decreases |items|
  {
    hide Matches;
    hide Step;
    hide Note;
    hide RecordedBy;
    hide StatedBy;
    if items == [] {
      assert recorded + Recorded(r, items) == recorded && stated + Stated(n, items) == stated;
    } else {
      var item := items[0];
      var next, noted := Step(r, item).value, Note(n, item);
      var a, b := recorded + RecordedBy(r, item), stated + StatedBy(n, item);
      if item.Whole? && CarriesBlock(item.id) {
        BlockItemMatches(r, n, item, recorded, stated);
      } else {
        OtherItemMatches(r, n, item, recorded, stated);
        assert a == recorded && b == stated;
      }
      RunMatches(next, noted, items[1..], a, b);
      assert a + Recorded(next, items[1..]) == recorded + Recorded(r, items);
      assert b + Stated(noted, items[1..]) == stated + Stated(n, items);
    }
  }

  /** The audio track is written with a type or a number past 2^64, so that no block is stated to be on it. */
  predicate TrackOverlong(data: seq<byte>)
  {
    !Nameable(NotesOf(NO_NOTES, ItemsOf(data)))
  }

  lemma RecordSeesFile(data: seq<byte>)
    requires Duration(data).Some?
    ensures FilePlays(data) == [] <==> TrackOverlong(data)
    ensures FilePlays(data) != [] ==> AllSeen(Recorded(FRESH, ItemsOf(data)), FilePlays(data))
  {
    hide Run;
    hide Recorded;
    hide Stated;
    hide ItemsOf;
    hide Duration;
    hide Seen;
    hide Wrap64;
    hide LeastNumber;
    hide GreatestNumber;
    var items := ItemsOf(data);
    DurationRuns(data);
    AnswerFromRecord(data);
    RunMatches(FRESH, NO_NOTES, items, [], []);
    assert [] + Recorded(FRESH, items) == Recorded(FRESH, items);
    assert [] + Stated(NO_NOTES, items) == Stated(NO_NOTES, items);
  }

  // ----- exactness -----

  /** All numbers lie between two consecutive multiples of 2^64. */
  predicate OneWindow(xs: seq<nat>)
  {
    forall i, j | 0 <= i < |xs| && 0 <= j < |xs| :: xs[i] / U64 == xs[j] / U64
  }

  /** The last multiple of 2^64 that the blocks reach. */
  function Boundary(plays: seq<Interval>): nat
    requires plays != []
  {
    GreatestNumber(Ends(plays)) / U64 * U64
  }

  /** The ends before the boundary, and the starts at or after it. */
  function EarlyEnds(plays: seq<Interval>): seq<nat>
    requires plays != []
  {
    Ordering.Filter((x: nat) => x < Boundary(plays), Ends(plays))
  }

  function LateStarts(plays: seq<Interval>): seq<nat>
    requires plays != []
  {
    Ordering.Filter((x: nat) => x >= Boundary(plays), Starts(plays))
  }

  /**
   * The one coincidence: what is lost at the end and what is lost at the start
   * make up a whole 2^64, so that both losses cancel.
   */
  predicate LossesCancel(plays: seq<Interval>)
    requires plays != []
  {
    && EarlyEnds(plays) != [] && LateStarts(plays) != []
    && LeastNumber(Starts(plays)) < Boundary(plays)
    && (GreatestNumber(Ends(plays)) - GreatestNumber(EarlyEnds(plays)))
       + (LeastNumber(LateStarts(plays)) - LeastNumber(Starts(plays))) == U64
  }

  /** What 64 bits can hold of a list of intervals. */
  predicate Fits(plays: seq<Interval>)
    requires plays != []
  {
    && StatedSpan(plays) < U64
    && ((OneWindow(Starts(plays)) && OneWindow(Ends(plays))) || LossesCancel(plays))
  }

  function Wrapped(xs: seq<nat>): (r: seq<nat>)
    ensures |r| == |xs| && forall i | 0 <= i < |r| :: r[i] == xs[i] % U64
  {
    seq(|xs|, i requires 0 <= i < |xs| => xs[i] % U64)
  }

  /** The residue of a number within 2^64 of a multiple. */
  lemma ResidueNear(x: nat, m: nat)
    requires m % U64 == 0 && m - U64 <= x < m + U64
    ensures x % U64 == if x >= m then x - m else x - m + U64
    ensures x / U64 == if x >= m then m / U64 else m / U64 - 1
  {
    if x >= m {
      ModUnique(x, m / U64, x - m, U64);
    } else {
      ModUnique(x, m / U64 - 1, x - m + U64, U64);
    }
  }

  lemma GreatestWrapped(xs: seq<nat>, early: seq<nat>, m: nat)
    requires xs != [] && m % U64 == 0 && m <= GreatestNumber(xs) < m + U64
    requires forall x | x in xs :: GreatestNumber(xs) - U64 < x
    requires forall x :: x in early <==> x in xs && x < m
    ensures GreatestNumber(Wrapped(xs)) == if early == [] then GreatestNumber(xs) - m else GreatestNumber(early) - m + U64
    ensures OneWindow(xs) <==> early == []
  {
    hide LeastNumber;
    hide GreatestNumber;
    var top := GreatestNumber(xs);
    forall i | 0 <= i < |xs|
      ensures xs[i] % U64 == if xs[i] >= m then xs[i] - m else xs[i] - m + U64
      ensures xs[i] / U64 == if xs[i] >= m then m / U64 else m / U64 - 1
      ensures xs[i] <= top && Wrapped(xs)[i] in Wrapped(xs)
    {
      assert xs[i] in xs;
      ResidueNear(xs[i], m);
    }
    var w := GreatestNumber(Wrapped(xs));
    var i :| 0 <= i < |xs| && Wrapped(xs)[i] == w;
    var t :| 0 <= t < |xs| && xs[t] == top;
    if early != [] {
      var e := GreatestNumber(early);
      assert e in xs;
      var j :| 0 <= j < |xs| && xs[j] == e;
      assert Wrapped(xs)[j] <= w;
      assert xs[i] < m ==> xs[i] in early;
      assert xs[j] / U64 != xs[t] / U64;
    } else {
      assert forall k | 0 <= k < |xs| :: xs[k] in xs && xs[k] !in early;
    }
  }

  lemma LeastWrapped(xs: seq<nat>, late: seq<nat>, m: nat)
    requires xs != [] && m % U64 == 0 && m - U64 <= LeastNumber(xs) < m
    requires forall x | x in xs :: x < LeastNumber(xs) + U64
    requires forall x :: x in late <==> x in xs && x >= m
    ensures LeastNumber(Wrapped(xs)) == if late == [] then LeastNumber(xs) - m + U64 else LeastNumber(late) - m
    ensures OneWindow(xs) <==> late == []
  {
    hide LeastNumber;
    hide GreatestNumber;
    var low := LeastNumber(xs);
    forall i | 0 <= i < |xs|
      ensures xs[i] % U64 == if xs[i] >= m then xs[i] - m else xs[i] - m + U64
      ensures xs[i] / U64 == if xs[i] >= m then m / U64 else m / U64 - 1
      ensures low <= xs[i] && Wrapped(xs)[i] in Wrapped(xs)
    {
      assert xs[i] in xs;
      ResidueNear(xs[i], m);
    }
    var w := LeastNumber(Wrapped(xs));
    var i :| 0 <= i < |xs| && Wrapped(xs)[i] == w;
    var t :| 0 <= t < |xs| && xs[t] == low;
    if late != [] {
      var e := LeastNumber(late);
      assert e in xs;
      var j :| 0 <= j < |xs| && xs[j] == e;
      assert w <= Wrapped(xs)[j];
      assert xs[i] >= m ==> xs[i] in late;
      assert xs[j] / U64 != xs[t] / U64;
    } else {
      assert forall k | 0 <= k < |xs| :: xs[k] in xs && xs[k] !in late;
    }
  }

  /** With no boundary between them, all residues are shifted alike. */
  lemma SameWindow(xs: seq<nat>, m: nat)
    requires xs != [] && m % U64 == 0 && forall x | x in xs :: m <= x < m + U64
    ensures GreatestNumber(Wrapped(xs)) == GreatestNumber(xs) - m && LeastNumber(Wrapped(xs)) == LeastNumber(xs) - m
    ensures OneWindow(xs)
  {
    hide LeastNumber;
    hide GreatestNumber;
    forall i | 0 <= i < |xs|
      ensures Wrapped(xs)[i] == xs[i] - m && xs[i] / U64 == m / U64 && xs[i] in xs && Wrapped(xs)[i] in Wrapped(xs)
    {
      assert xs[i] in xs;
      ResidueNear(xs[i], m);
    }
    var g :| 0 <= g < |xs| && xs[g] == GreatestNumber(xs);
    var h :| 0 <= h < |xs| && Wrapped(xs)[h] == GreatestNumber(Wrapped(xs));
    var l :| 0 <= l < |xs| && xs[l] == LeastNumber(xs);
    var k :| 0 <= k < |xs| && Wrapped(xs)[k] == LeastNumber(Wrapped(xs));
  }

  lemma Bounds(plays: seq<Interval>)
    requires plays != [] && EndsFollowStarts(plays)
    ensures forall x | x in Starts(plays) :: LeastNumber(Starts(plays)) <= x <= GreatestNumber(Ends(plays))
    ensures forall x | x in Ends(plays) :: LeastNumber(Starts(plays)) <= x <= GreatestNumber(Ends(plays))
    ensures LeastNumber(Starts(plays)) <= GreatestNumber(Ends(plays))
  {
    hide LeastNumber;
    hide GreatestNumber;
    forall i | 0 <= i < |plays|
      ensures LeastNumber(Starts(plays)) <= plays[i].start <= plays[i].end <= GreatestNumber(Ends(plays))
    {
      assert Starts(plays)[i] in Starts(plays) && Ends(plays)[i] in Ends(plays);
    }
    assert 0 <= 0 < |plays|;
  }

  /** The extremes of the residues give the span back exactly when it fits. */
  lemma FitsExactly(plays: seq<Interval>)
    requires plays != [] && EndsFollowStarts(plays)
    ensures var answer := Wrap64(GreatestNumber(Wrapped(Ends(plays))) - LeastNumber(Wrapped(Starts(plays))));
            && (answer == StatedSpan(plays) <==> Fits(plays))
            && (answer <= StatedSpan(plays) || U64 <= answer + StatedSpan(plays))
  {
    hide LeastNumber;
    hide GreatestNumber;
    hide EndsFollowStarts;
    hide Fits;
    Bounds(plays);
    if StatedSpan(plays) >= U64 {
      NeverFits(plays);
    } else if LeastNumber(Starts(plays)) >= Boundary(plays) {
      NotAcross(plays, Boundary(plays));
    } else {
      Across(plays, GreatestNumber(Ends(plays)), LeastNumber(Starts(plays)), Boundary(plays));
    }
  }

  lemma Across(plays: seq<Interval>, top: nat, low: nat, m: nat)
    requires plays != [] && top == GreatestNumber(Ends(plays)) && low == LeastNumber(Starts(plays)) && m == Boundary(plays)
    requires low < m <= top < low + U64 && m % U64 == 0 && top < m + U64
    requires forall x | x in Starts(plays) :: low <= x <= top
    requires forall x | x in Ends(plays) :: low <= x <= top
    ensures var answer := Wrap64(GreatestNumber(Wrapped(Ends(plays))) - LeastNumber(Wrapped(Starts(plays))));
            && (answer == StatedSpan(plays) <==> Fits(plays))
            && (answer <= StatedSpan(plays) || U64 <= answer + StatedSpan(plays))
  {
    hide LeastNumber;
    hide GreatestNumber;
    hide OneWindow;
    hide Fits;
    hide Wrap64;
    GreatestWrapped(Ends(plays), EarlyEnds(plays), m);
    LeastWrapped(Starts(plays), LateStarts(plays), m);
    AcrossBoundary(plays, top, low, m);
  }

  lemma NeverFits(plays: seq<Interval>)
    requires plays != [] && StatedSpan(plays) >= U64
    ensures !Fits(plays)
  {
  }

  lemma NotAcross(plays: seq<Interval>, m: nat)
    requires plays != [] && m == Boundary(plays) && m % U64 == 0
    requires forall x | x in Starts(plays) :: m <= x < m + U64
    requires forall x | x in Ends(plays) :: m <= x < m + U64
    requires 0 <= StatedSpan(plays) < U64
    ensures Wrap64(GreatestNumber(Wrapped(Ends(plays))) - LeastNumber(Wrapped(Starts(plays)))) == StatedSpan(plays)
    ensures Fits(plays)
  {
    hide LossesCancel;
    hide LeastNumber;
    hide GreatestNumber;
    hide OneWindow;
    SameWindow(Ends(plays), m);
    SameWindow(Starts(plays), m);
  }

  lemma AcrossBoundary(plays: seq<Interval>, top: nat, low: nat, m: nat)
    requires plays != [] && top == GreatestNumber(Ends(plays)) && low == LeastNumber(Starts(plays)) && m == Boundary(plays)
    requires low < m <= top < low + U64
    requires OneWindow(Ends(plays)) <==> EarlyEnds(plays) == []
    requires OneWindow(Starts(plays)) <==> LateStarts(plays) == []
    requires forall x | x in Ends(plays) :: low <= x
    requires forall x | x in Starts(plays) :: x <= top
    ensures var e := if EarlyEnds(plays) == [] then top - m else GreatestNumber(EarlyEnds(plays)) - m + U64;
            var s := if LateStarts(plays) == [] then low - m + U64 else LeastNumber(LateStarts(plays)) - m;
            && (Wrap64(e - s) == top - low <==> Fits(plays))
            && (Wrap64(e - s) <= top - low || U64 <= Wrap64(e - s) + top - low)
  {
    hide LeastNumber;
    hide GreatestNumber;
    hide OneWindow;
    var early, late := EarlyEnds(plays), LateStarts(plays);
    if early != [] {
      assert low <= GreatestNumber(early) < m;
    }
    if late != [] {
      assert m <= LeastNumber(late) <= top;
    }
  }

  /**
   * An accepted file's nanoseconds are the span its audio blocks state if and
   * only if it states any, the span is below 2^64, and no multiple of 2^64 parts
   * the starts or parts the ends - or both are parted and the losses cancel. A
   * wrong answer is too short, save for spans and answers near 2^64.
   */
  lemma ExactSpan(data: seq<byte>)
    requires Duration(data).Some?
    ensures var plays := FilePlays(data);
            && (plays != [] <==> !TrackOverlong(data))
            && (plays != [] ==> (Duration(data).value.0 == StatedSpan(plays) <==> Fits(plays)))
            && (plays != [] ==> Duration(data).value.0 <= StatedSpan(plays) || U64 <= Duration(data).value.0 + StatedSpan(plays))
  {
    hide Duration;
    hide FilePlays;
    hide Fits;
    hide TrackOverlong;
    hide Recorded;
    hide LeastNumber;
    hide GreatestNumber;
    hide Wrap64;
    AnswerFromRecord(data);
    RecordSeesFile(data);
    var plays := FilePlays(data);
    if plays != [] {
      SeenExactly(Recorded(FRESH, ItemsOf(data)), plays);
    }
  }

  lemma SeenExactly(recorded: seq<Interval>, plays: seq<Interval>)
    requires plays != [] && AllSeen(recorded, plays)
    ensures var answer := Wrap64(GreatestNumber(Ends(recorded)) - LeastNumber(Starts(recorded)));
            && (answer == StatedSpan(plays) <==> Fits(plays))
            && (answer <= StatedSpan(plays) || U64 <= answer + StatedSpan(plays))
  {
    hide LeastNumber;
    hide GreatestNumber;
    hide OneWindow;
    hide LossesCancel;
    Bounds(plays);
    assert Starts(recorded) == Wrapped(Starts(plays));
    if i :| 0 <= i < |plays| && plays[i].end - plays[i].start >= U64 {
      assert Starts(plays)[i] in Starts(plays) && Ends(plays)[i] in Ends(plays);
    } else {
      assert Ends(recorded) == Wrapped(Ends(plays));
      FitsExactly(plays);
    }
  }

  /** Losses can only cancel over a span of 2^63 or more. */
  lemma CancelledIsLong(plays: seq<Interval>)
    requires plays != [] && EndsFollowStarts(plays) && LossesCancel(plays)
    ensures 2 * StatedSpan(plays) >= U64
  {
    hide LeastNumber;
    hide GreatestNumber;
    Bounds(plays);
    assert GreatestNumber(EarlyEnds(plays)) in Ends(plays) && LeastNumber(LateStarts(plays)) in Starts(plays);
  }

  /** In particular a file that states audio blocks, all ending below 2^64 ns, is never mismeasured. */
  lemma ShortFilesAreExact(data: seq<byte>)
    ensures Duration(data).Some? && FilePlays(data) != [] && (forall play | play in FilePlays(data) :: play.end < U64)
            ==> Duration(data).value.0 == StatedSpan(FilePlays(data))
  {
    hide Duration;
    hide FilePlays;
    hide Recorded;
    hide Fits;
    hide Seen;
    hide StatedSpan;
    if Duration(data).Some? && FilePlays(data) != [] && forall play | play in FilePlays(data) :: play.end < U64 {
      ExactSpan(data);
      RecordSeesFile(data);
      SeenEndsFollow(Recorded(FRESH, ItemsOf(data)), FilePlays(data));
      LowPlaysFit(FilePlays(data));
    }
  }

  lemma SeenEndsFollow(recorded: seq<Interval>, plays: seq<Interval>)
    requires AllSeen(recorded, plays)
    ensures EndsFollowStarts(plays)
  {
    assert forall i | 0 <= i < |plays| :: Seen(recorded[i], plays[i]);
  }

  lemma LowPlaysFit(plays: seq<Interval>)
    requires plays != [] && EndsFollowStarts(plays) && forall play | play in plays :: play.end < U64
    ensures Fits(plays)
  {
    hide LeastNumber;
    hide GreatestNumber;
    hide LossesCancel;
    Bounds(plays);
    forall i | 0 <= i < |plays|
      ensures Starts(plays)[i] < U64 && Ends(plays)[i] < U64
    {
      assert plays[i] in plays;
    }
  }

  /** A tick past 2^64 is accepted as a small one; every other accepted tick is true. */
  lemma TicksExact(cluster: u64, relative: int)
    requires -0x8000 <= relative < 0x8000
    ensures Ticks(cluster, relative).None? <==> cluster + relative < 0 || U63 <= cluster + relative < U64
    ensures Ticks(cluster, relative).Some? ==>
              (Ticks(cluster, relative).value == cluster + relative <==> cluster + relative < U64)
  {
  }

  // ----- the answer does not depend on the order of the blocks -----

  predicate IsBlock(item: Item) { item.Whole? && CarriesBlock(item.id) }

  predicate AllBlocks(items: seq<Item>) { forall item | item in items :: IsBlock(item) }

  lemma {:induction false} RunAppend(r: Reader, a: seq<Item>, b: seq<Item>)
    ensures Run(r, a + b) == match Run(r, a) case None => None case Some(next) => Run(next, b)
    decreases |a|
  {
    hide Step;
    if a == [] {
      assert a + b == b;
    } else {
      assert (a + b)[1..] == a[1..] + b;
      if Step(r, a[0]).Some? {
        RunAppend(Step(r, a[0]).value, a[1..], b);
      }
    }
  }

  /** A block's outcome reads only what no block changes. */
  lemma BlocksAreIndependent(r: Reader, item: Item, other: Item)
    requires IsBlock(item) && IsBlock(other) && Step(r, other).Some?
    ensures BlockOutcome(Step(r, other).value, item.id, item.body) == BlockOutcome(r, item.id, item.body)
  {
    hide ParseVint;
    hide Children;
    hide BlockDuration;
    hide Ticks;
    hide BeValue;
  }

  lemma SwapBlocks(r: Reader, a: Item, b: Item)
    requires IsBlock(a) && IsBlock(b)
    ensures Run(r, [a, b]) == Run(r, [b, a])
  {
    hide BlockOutcome;
    assert [a, b][1..] == [b] && [b, a][1..] == [a];
    if Step(r, a).Some? { BlocksAreIndependent(r, b, a); }
    if Step(r, b).Some? { BlocksAreIndependent(r, a, b); }
  }

  lemma {:induction false} BlockToFront(r: Reader, front: seq<Item>, b: Item)
    requires AllBlocks(front) && IsBlock(b)
    ensures Run(r, front + [b]) == Run(r, [b] + front)
    decreases |front|
  {
    hide Step;
    if front == [] {
      assert front + [b] == [b] + front;
    } else {
      var last, rest := front[|front| - 1], front[..|front| - 1];
      assert front == rest + [last];
      assert front + [b] == rest + [last, b];
      assert rest + [b, last] == rest + [b] + [last];
      assert [b] + front == [b] + rest + [last];
      RunAppend(r, rest, [last, b]);
      RunAppend(r, rest, [b, last]);
      if Run(r, rest).Some? {
        SwapBlocks(Run(r, rest).value, last, b);
      }
      RunAppend(r, rest + [b], [last]);
      RunAppend(r, [b] + rest, [last]);
      BlockToFront(r, rest, b);
    }
  }

  lemma {:induction false} PermutedRun(r: Reader, blocks: seq<Item>, others: seq<Item>)
    requires AllBlocks(blocks) && multiset(blocks) == multiset(others)
    ensures Run(r, blocks) == Run(r, others)
    decreases |blocks|
  {
    hide Step;
    hide Run;
    SameElements(blocks, others);
    if blocks == [] {
      assert multiset(others) == multiset{} && others == [];
    } else {
      var i := PullFirst(blocks, others);
      var b, front, tail := blocks[0], others[..i], others[i + 1..];
      BlockToFront(r, front, b);
      RunAppend(r, front + [b], tail);
      RunAppend(r, [b] + front, tail);
      assert [b] + front + tail == [b] + (front + tail);
      RunAppend(r, [b], front + tail);
      RunAppend(r, [b], blocks[1..]);
      assert blocks == [b] + blocks[1..];
      if Run(r, [b]).Some? {
        PermutedRun(Run(r, [b]).value, blocks[1..], front + tail);
      }
    }
  }

  /** Reordering the blocks of a stretch with no other element changes nothing in a file's reading. */
  lemma BlockOrderDoesNotMatter(r: Reader, before: seq<Item>, blocks: seq<Item>, others: seq<Item>, after: seq<Item>)
    requires AllBlocks(blocks) && multiset(blocks) == multiset(others)
    ensures Run(r, before + blocks + after) == Run(r, before + others + after)
  {
    hide Run;
    RunAppend(r, before + blocks, after);
    RunAppend(r, before + others, after);
    RunAppend(r, before, blocks);
    RunAppend(r, before, others);
    if Run(r, before).Some? {
      PermutedRun(Run(r, before).value, blocks, others);
    }
  }
}
