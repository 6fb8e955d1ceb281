// Recordings of any clusters and blocks, written byte by byte: what the reader
// makes of each block, and of the whole file.

module WebmWriting {
  import opened Base
  import opened Words
  import opened Ebml
  import opened Matroska
  import opened Extremes
  import opened MatroskaSpan
  import opened MatroskaTree

  /** A block, in a group of its own when it states a duration. */
  datatype Block = Block(relative: int, flags: byte, frames: seq<byte>, group: Option<seq<byte>>)

  datatype Cluster = Cluster(timecode: seq<byte>, blocks: seq<Block>)

  /** An audio track, its number written in a vint of `width` bytes. */
  datatype Track = Track(number: nat, width: nat, codec: seq<byte>, frame: seq<byte>)

  predicate WritableTrack(t: Track)
  {
    1 <= t.width <= 8 && t.number < VintLimit(t.width) && |t.codec| < MAX_SLICE && |t.frame| <= 8
  }

  predicate WritableBlock(b: Block)
  {
    -0x8000 <= b.relative < 0x8000 && |b.frames| < MAX_SLICE && (b.group.Some? ==> |b.group.value| <= 8)
  }

  /** Track number, two's complement timecode, flags, frames. */
  function BlockBody(t: Track, b: Block): seq<byte>
    requires WritableTrack(t)
  {
    EncodeVint(t.number, t.width) + (BeBytes((b.relative + 0x1_0000) % 0x1_0000, 2) + ([b.flags] + b.frames))
  }

  /** A body's children, each size in eight bytes. */
  function Inside(children: seq<Child>): (ws: seq<Written>)
    ensures |ws| == |children| && ChildrenOf(ws) == children
    ensures forall i | 0 <= i < |ws| :: ws[i] == Written(children[i], 8)
  {
    seq(|children|, i requires 0 <= i < |children| => Written(children[i], 8))
  }

  predicate Fit(children: seq<Child>)
  {
    forall c | c in children :: IdLength(c.id) > 0 && |c.body| < VintLimit(8) - 1
  }

  function Body(children: seq<Child>): seq<byte>
    requires Fit(children)
  {
    WriteChildren(Inside(children))
  }

  lemma BodyReadsBack(children: seq<Child>)
    requires Fit(children)
    ensures Children(Body(children)) == Some(children)
  {
    ChildrenRoundTrip(Inside(children));
  }

  /** The last child with an id is the one that no later child shares it with. */
  lemma {:induction false} LastChildIsLast(before: seq<Child>, c: Child, after: seq<Child>)
    requires forall d | d in after :: d.id != c.id
    ensures LastChild(before + [c] + after, c.id) == Some(c.body)
    decreases |after|
  {
    var all := before + [c] + after;
    if after == [] {
      assert all[|all| - 1] == c;
    } else {
      assert all[|all| - 1] == after[|after| - 1];
      assert all[..|all| - 1] == before + [c] + after[..|after| - 1];
      LastChildIsLast(before, c, after[..|after| - 1]);
    }
  }

  lemma {:induction false} NoSuchChild(children: seq<Child>, id: nat)
    requires forall d | d in children :: d.id != id
    ensures LastChild(children, id) == None
    decreases |children|
  {
    if children != [] {
      NoSuchChild(children[..|children| - 1], id);
    }
  }

  // ----- one block -----

  function GroupChildren(t: Track, b: Block): seq<Child>
    requires WritableTrack(t) && b.group.Some?
  {
    [Child(ID_BLOCK, BlockBody(t, b)), Child(ID_BLOCK_DURATION, b.group.value)]
  }

  lemma GroupFits(t: Track, b: Block)
    requires WritableTrack(t) && WritableBlock(b) && b.group.Some?
    ensures Fit(GroupChildren(t, b))
  {
    assert VintLimit(8) == 0x100_0000_0000_0000;
  }

  /** A SimpleBlock, or a BlockGroup of the block and its duration. */
  function BlockItem(t: Track, b: Block): Item
    requires WritableTrack(t) && WritableBlock(b)
  {
    if b.group == None then Whole(ID_SIMPLE_BLOCK, BlockBody(t, b))
    else
      GroupFits(t, b);
      Whole(ID_BLOCK_GROUP, Body(GroupChildren(t, b)))
  }

  /** How long a block lasts in nanoseconds, by its group, its track, or its Opus packet. */
  function Lasting(t: Track, scale: nat, b: Block): Option<nat>
  {
    var lacing, frame := b.flags / 2 % 4, BeValue(t.frame);
    if b.group.Some? then Some(BeValue(b.group.value) * scale)
    else if frame > 0 && lacing == 0 then Some(frame)
    else if frame > 0 && b.frames != [] then Some(frame * (b.frames[0] as int + 1))
    else if frame == 0 && lacing == 0 && t.codec == [0x41, 0x5f, 0x4f, 0x50, 0x55, 0x53] then
      match OpusPacketDuration(b.frames) case None => None case Some(d) => Some(d)
    else None
  }

  /** The reader refuses a group's duration past 64 bits. */
  predicate Countable(scale: nat, b: Block)
  {
    b.group.Some? ==> BeValue(b.group.value) * scale < U64
  }

  lemma TwoBytes(v: nat)
    requires v < 0x1_0000
    ensures BeBytes(v, 2) == [v / 0x100, v % 0x100]
  {
    assert BeBytes(v / 0x100, 1) == [] + [v / 0x100 % 0x100];
  }

  lemma BodyParses(t: Track, b: Block)
    requires WritableTrack(t) && WritableBlock(b)
    ensures var body := BlockBody(t, b);
            && t.number < U64
            && ParseVint(body, false) == Some(Vint(t.number, t.width))
            && |body| == t.width + 3 + |b.frames|
            && Be16(body[t.width..]) == (b.relative + 0x1_0000) % 0x1_0000
            && Signed16(Be16(body[t.width..])) == b.relative
            && body[t.width + 2] == b.flags && body[t.width + 3..] == b.frames
  {
    hide EncodeVint;
    hide VintLimit;
    hide ParseVint;
    hide BeBytes;
    var v := (b.relative + 0x1_0000) % 0x1_0000;
    var tail := BeBytes(v, 2) + ([b.flags] + b.frames);
    var body := BlockBody(t, b);
    TwoBytes(v);
    VintRoundTrip(t.number, t.width, tail);
    assert body[t.width..] == tail;
    assert body[t.width + 2] == tail[2] && body[t.width + 3..] == tail[3..];
  }

  function GroupDuration(b: Block): Option<u64>
  {
    match b.group case None => None case Some(d) => Some(UintOf(d))
  }

  /** The reader's duration is the block's, unless it is past what it can hold. */
  lemma DurationRead(t: Track, scale: u64, b: Block)
    requires |t.frame| <= 8 && t.number < U64 && WritableBlock(b)
    ensures var frame := BeValue(t.frame);
            && frame < U64
            && BlockDuration(AudioTrack(t.number, t.codec, frame), scale, b.flags / 2 % 4, b.frames, GroupDuration(b))
               == (if Countable(scale, b) then Lasting(t, scale, b) else None)
  {
    hide BeValue;
    hide OpusPacketDuration;
    EightBytes(t.frame);
    if b.group.Some? {
      EightBytes(b.group.value);
    }
  }

  /** The reader and the file's own account of a written block see its body and its duration. */
  lemma BlockFound(r: Reader, n: Notes, t: Track, b: Block)
    requires WritableTrack(t) && WritableBlock(b)
    ensures var item := BlockItem(t, b);
            && item.Whole? && CarriesBlock(item.id)
            && BlockOutcome(r, item.id, item.body)
               == ReadBlock(r, BlockBody(t, b), GroupDuration(b))
            && StatedBy(n, item)
               == StatedBlock(n, BlockBody(t, b), match b.group case None => None case Some(d) => Some(BeValue(d)))
  {
    hide ReadBlock;
    hide StatedBlock;
    hide BlockBody;
    hide Children;
    hide Body;
    hide LastChild;
    hide BeValue;
    if b.group.Some? {
      GroupFits(t, b);
      var block, duration := Child(ID_BLOCK, BlockBody(t, b)), Child(ID_BLOCK_DURATION, b.group.value);
      BodyReadsBack(GroupChildren(t, b));
      LastChildIsLast([], block, [duration]);
      LastChildIsLast([block], duration, []);
      assert [] + [block] + [duration] == GroupChildren(t, b);
      assert [block] + [duration] + [] == GroupChildren(t, b);
    }
  }

  /** A reader inside a cluster that knows this audio track. */
  predicate Reading(r: Reader, t: Track)
  {
    && WritableTrack(t) && t.number < U64 && BeValue(t.frame) < U64
    && r.audio == Some(AudioTrack(t.number, t.codec, BeValue(t.frame))) && r.inCluster && r.scale > 0
  }

  /** Where a read block is put. */
  lemma BlockPlaced(r: Reader, t: Track, b: Block)
    requires Reading(r, t) && WritableBlock(b)
    ensures var tick, d := r.cluster + b.relative, Lasting(t, r.scale, b);
            var start := (if tick < U64 then tick else tick - U64) * r.scale;
            ReadBlock(r, BlockBody(t, b), GroupDuration(b)) ==
            if tick < 0 || 0x8000_0000_0000_0000 <= tick < U64 || start >= U64 || d == None || !Countable(r.scale, b) then Refused
            else Played(Span(start, d.value))
  {
    hide BlockBody;
    hide BlockDuration;
    hide GroupDuration;
    hide Countable;
    hide Lasting;
    hide ParseVint;
    hide VintLimit;
    hide BeValue;
    hide Be16;
    hide Signed16;
    BodyParses(t, b);
    DurationRead(t, r.scale, b);
  }

  /**
   * A written block is refused unless its tick, its start and its duration fit
   * their words; otherwise it starts at its tick, counted from the cluster's,
   * times the scale, and ends as much later as it lasts.
   */
  lemma WrittenBlock(r: Reader, t: Track, b: Block)
    requires Reading(r, t) && WritableBlock(b)
    ensures var tick, d := r.cluster + b.relative, Lasting(t, r.scale, b);
            var start := (if tick < U64 then tick else tick - U64) * r.scale;
            Step(r, BlockItem(t, b)) ==
            if tick < 0 || 0x8000_0000_0000_0000 <= tick < U64 || start >= U64 || d == None || !Countable(r.scale, b) then None
            else Some(r.(start := if r.blocks == 0 || start < r.start then start else r.start,
                         end := if (start + d.value) % U64 > r.end then (start + d.value) % U64 else r.end,
                         blocks := r.blocks + 1))
  {
    hide BlockBody;
    hide BlockItem;
    hide BlockOutcome;
    hide ReadBlock;
    hide GroupDuration;
    hide Countable;
    hide Lasting;
    hide StatedBy;
    hide WritableTrack;
    BlockFound(r, NO_NOTES, t, b);
    BlockPlaced(r, t, b);
  }

  /** What the file states of it: whatever the words hold. */
  lemma WrittenBlockStates(n: Notes, t: Track, b: Block)
    requires WritableTrack(t) && WritableBlock(b) && n.audio == Some(NotedTrack(t.number, t.codec, BeValue(t.frame)))
    ensures var tick, d := n.cluster + b.relative, StatedDuration(n.audio.value, n.scale, b.flags / 2 % 4, b.frames,
                 match b.group case None => None case Some(d) => Some(BeValue(d)));
            && d == Lasting(t, n.scale, b)
            && StatedBy(n, BlockItem(t, b)) ==
               if tick < 0 || d == None then [] else [Interval(tick * n.scale, tick * n.scale + d.value)]
  {
    hide BlockBody;
    hide BlockItem;
    hide BlockOutcome;
    hide StatedBy;
    hide OpusPacketDuration;
    hide ParseVint;
    hide VintLimit;
    hide BeValue;
    hide WritableTrack;
    BlockFound(FRESH, n, t, b);
    BodyParses(t, b);
  }

  /** A block before any timecode, before any audio track or at a scale of zero is refused. */
  lemma NotReading(r: Reader, t: Track, b: Block)
    requires WritableTrack(t) && WritableBlock(b)
    requires r.audio == None || (r.audio.value.number == t.number && (!r.inCluster || r.scale == 0))
    ensures Step(r, BlockItem(t, b)) == None
  {
    hide BlockBody;
    hide BlockItem;
    hide BlockOutcome;
    hide StatedBy;
    hide BlockDuration;
    hide ParseVint;
    hide VintLimit;
    hide BeValue;
    BlockFound(r, NO_NOTES, t, b);
    BodyParses(t, b);
  }

  /** A block of any other track changes nothing and states nothing. */
  lemma OtherTracksBlock(r: Reader, n: Notes, t: Track, b: Block)
    requires WritableTrack(t) && WritableBlock(b)
    requires r.audio.Some? && r.audio.value.number != t.number
    requires n.audio.Some? ==> n.audio.value.number != t.number
    ensures Step(r, BlockItem(t, b)) == Some(r) && StatedBy(n, BlockItem(t, b)) == []
  {
    hide BlockBody;
    hide BlockItem;
    hide BlockOutcome;
    hide StatedBy;
    hide BlockDuration;
    hide ParseVint;
    hide VintLimit;
    hide BeValue;
    BlockFound(r, n, t, b);
    BodyParses(t, b);
  }

  // ----- what the other elements set -----

  /** The last TimecodeScale of an Info is the scale, whatever else the Info holds. */
  lemma InfoSetsScale(r: Reader, n: Notes, before: seq<Child>, scale: seq<byte>, after: seq<Child>)
    requires Fit(before + [Child(ID_TIMECODE_SCALE, scale)] + after)
    requires forall c | c in after :: c.id != ID_TIMECODE_SCALE
    ensures var info := Whole(ID_INFO, Body(before + [Child(ID_TIMECODE_SCALE, scale)] + after));
            && Step(r, info) == Some(r.(scale := BeValue(scale) % U64))
            && Note(n, info) == n.(scale := BeValue(scale)) && StatedBy(n, info) == []
  {
    hide Children;
    hide LastChild;
    hide Body;
    hide Fit;
    hide BeValue;
    BodyReadsBack(before + [Child(ID_TIMECODE_SCALE, scale)] + after);
    LastChildIsLast(before, Child(ID_TIMECODE_SCALE, scale), after);
  }

  /** An Info without one leaves the scale as it was. */
  lemma InfoKeepsScale(r: Reader, n: Notes, children: seq<Child>)
    requires Fit(children) && forall c | c in children :: c.id != ID_TIMECODE_SCALE
    ensures Step(r, Whole(ID_INFO, Body(children))) == Some(r)
    ensures Note(n, Whole(ID_INFO, Body(children))) == n
  {
    hide Children;
    hide LastChild;
    hide Body;
    hide Fit;
    BodyReadsBack(children);
    NoSuchChild(children, ID_TIMECODE_SCALE);
  }

  /** The four fields of a track entry the reader takes, each spelled, the codec verbatim. */
  function Fields(t: Track, kind: nat): seq<Child>
  {
    [Child(ID_TRACK_NUMBER, BeBytes(t.number, 8)), Child(ID_TRACK_TYPE, BeBytes(kind, 1)), Child(ID_CODEC_ID, t.codec),
     Child(ID_DEFAULT_DURATION, t.frame)]
  }

  predicate IsField(id: nat)
  {
    id == ID_TRACK_NUMBER || id == ID_TRACK_TYPE || id == ID_CODEC_ID || id == ID_DEFAULT_DURATION
  }

  predicate WritableEntry(before: seq<Child>, t: Track, kind: nat, after: seq<Child>)
  {
    WritableTrack(t) && kind < 0x100 && Fit(before + Fields(t, kind) + after) && forall c | c in after :: !IsField(c.id)
  }

  function Entry(before: seq<Child>, t: Track, kind: nat, after: seq<Child>): Item
    requires WritableEntry(before, t, kind, after)
  {
    Whole(ID_TRACK_ENTRY, Body(before + Fields(t, kind) + after))
  }

  lemma FieldsFound(before: seq<Child>, t: Track, kind: nat, after: seq<Child>)
    requires forall c | c in after :: !IsField(c.id)
    ensures var all := before + Fields(t, kind) + after;
            && LastChild(all, ID_TRACK_NUMBER) == Some(BeBytes(t.number, 8))
            && LastChild(all, ID_TRACK_TYPE) == Some(BeBytes(kind, 1))
            && LastChild(all, ID_CODEC_ID) == Some(t.codec)
            && LastChild(all, ID_DEFAULT_DURATION) == Some(t.frame)
  {
    hide LastChild;
    var f := Fields(t, kind);
    var all := before + f + after;
    assert f == [f[0], f[1], f[2], f[3]];
    assert all == before + [f[0]] + ([f[1], f[2], f[3]] + after);
    LastChildIsLast(before, f[0], [f[1], f[2], f[3]] + after);
    assert all == before + [f[0]] + [f[1]] + ([f[2], f[3]] + after);
    LastChildIsLast(before + [f[0]], f[1], [f[2], f[3]] + after);
    assert all == before + [f[0], f[1]] + [f[2]] + ([f[3]] + after);
    LastChildIsLast(before + [f[0], f[1]], f[2], [f[3]] + after);
    assert all == before + [f[0], f[1], f[2]] + [f[3]] + after;
    LastChildIsLast(before + [f[0], f[1], f[2]], f[3], after);
  }

  lemma FieldsSpelled(t: Track, kind: nat)
    requires WritableTrack(t) && kind < 0x100
    ensures t.number < U64 && BeValue(t.frame) < U64
    ensures BeValue(BeBytes(t.number, 8)) == t.number && BeValue(BeBytes(kind, 1)) == kind
  {
    hide VintLimit;
    hide BeBytes;
    hide BeValue;
    VintRoundTrip(t.number, t.width, []);
    assert Pow256(4) == U32 && Pow256(8) == U64;
    BeRoundTrip(t.number, 8);
    BeRoundTrip(kind, 1);
    EightBytes(t.frame);
  }

  /** The first audio entry names the track, a second is refused, and any other entry is stepped over. */
  lemma EntryReads(r: Reader, n: Notes, before: seq<Child>, t: Track, kind: nat, after: seq<Child>)
    requires WritableEntry(before, t, kind, after)
    ensures t.number < U64 && BeValue(t.frame) < U64
    ensures var entry := Entry(before, t, kind, after);
            && Step(r, entry) == (if kind != 2 then Some(r) else if r.audio.Some? then None
                                  else Some(r.(audio := Some(AudioTrack(t.number, t.codec, BeValue(t.frame))))))
            && Note(n, entry) == (if kind != 2 || n.audio.Some? then n
                                  else n.(audio := Some(NotedTrack(t.number, t.codec, BeValue(t.frame)))))
            && StatedBy(n, entry) == []
  {
    hide Children;
    hide LastChild;
    hide Body;
    hide Fit;
    hide BeValue;
    hide BeBytes;
    hide Fields;
    hide WritableTrack;
    FieldsSpelled(t, kind);
    BodyReadsBack(before + Fields(t, kind) + after);
    FieldsFound(before, t, kind, after);
  }

  /** A cluster's start forgets the last timecode, its own sets it, and an element of no interest changes nothing. */
  lemma OtherElements(r: Reader, n: Notes, id: u32, body: seq<byte>)
    ensures Step(r, Enter(ID_CLUSTER)) == Some(r.(cluster := 0, inCluster := false))
    ensures Step(r, Enter(ID_SEGMENT)) == Step(r, Enter(ID_TRACKS)) == Some(r)
    ensures Note(n, Enter(ID_SEGMENT)) == Note(n, Enter(ID_TRACKS)) == n
    ensures Note(n, Whole(ID_TIMECODE, body)) == n.(cluster := BeValue(body))
    ensures Step(r, Whole(ID_TIMECODE, body)) == Some(r.(cluster := BeValue(body) % U64, inCluster := true))
    ensures id !in {0x1549a966, 0xae, 0xe7, 0xa3, 0xa0} ==>
              Step(r, Whole(id, body)) == Some(r) && Note(n, Whole(id, body)) == n && StatedBy(n, Whole(id, body)) == []
  {
    hide BeValue;
  }

  // ----- a whole recording -----

  datatype Recording = Recording(scale: Option<seq<byte>>, extras: seq<Child>, track: Track, clusters: seq<Cluster>)

  predicate WritableCluster(c: Cluster)
  {
    |c.timecode| <= 8 && forall b | b in c.blocks :: WritableBlock(b)
  }

  predicate Writable(rec: Recording)
  {
    && WritableTrack(rec.track)
    && (rec.scale.Some? ==> |rec.scale.value| <= 8)
    && WritableEntry(rec.extras, rec.track, 2, [])
    && |Body(rec.extras + Fields(rec.track, 2) + [])| < VintLimit(8) - 1
    && forall c | c in rec.clusters :: WritableCluster(c)
  }

  /** The nanoseconds of a tick: a million unless the Info says otherwise. */
  function Scale(rec: Recording): nat
  {
    match rec.scale case None => 1_000_000 case Some(s) => BeValue(s)
  }

  function InfoBody(scale: seq<byte>): seq<byte>
    requires |scale| <= 8
  {
    ScaleFits(scale);
    Body([Child(ID_TIMECODE_SCALE, scale)])
  }

  function InfoItems(scale: Option<seq<byte>>): seq<Item>
    requires scale.Some? ==> |scale.value| <= 8
  {
    match scale case None => [] case Some(s) => [Whole(ID_INFO, InfoBody(s))]
  }

  function BlockItems(t: Track, blocks: seq<Block>): seq<Item>
    requires WritableTrack(t) && forall b | b in blocks :: WritableBlock(b)
  {
    if blocks == [] then [] else [BlockItem(t, blocks[0])] + BlockItems(t, blocks[1..])
  }

  function ClusterItems(t: Track, clusters: seq<Cluster>): seq<Item>
    requires WritableTrack(t) && forall c | c in clusters :: WritableCluster(c)
  {
    if clusters == [] then []
    else
      assert WritableCluster(clusters[0]);
      [Enter(ID_CLUSTER), Whole(ID_TIMECODE, clusters[0].timecode)] + BlockItems(t, clusters[0].blocks) +
      ClusterItems(t, clusters[1..])
  }

  function RecordingItems(rec: Recording): seq<Item>
    requires Writable(rec)
  {
    [Enter(ID_SEGMENT)] + InfoItems(rec.scale) + [Enter(ID_TRACKS), Entry(rec.extras, rec.track, 2, [])] +
    ClusterItems(rec.track, rec.clusters)
  }

  /** When a cluster's blocks play: each at its own tick after the cluster's. */
  function BlockPlays(t: Track, scale: nat, timecode: nat, blocks: seq<Block>): seq<Interval>
  {
    if blocks == [] then []
    else
      var tick, d := timecode + blocks[0].relative, Lasting(t, scale, blocks[0]);
      (if tick < 0 || d == None then [] else [Interval(tick * scale, tick * scale + d.value)]) +
      BlockPlays(t, scale, timecode, blocks[1..])
  }

  function ClusterPlays(t: Track, scale: nat, clusters: seq<Cluster>): seq<Interval>
  {
    if clusters == [] then []
    else BlockPlays(t, scale, BeValue(clusters[0].timecode), clusters[0].blocks) + ClusterPlays(t, scale, clusters[1..])
  }

  function Plays(rec: Recording): seq<Interval> { ClusterPlays(rec.track, Scale(rec), rec.clusters) }

  /** A block whose tick is below 2^63 and whose end is below 2^64 nanoseconds. */
  predicate InRange(t: Track, scale: nat, timecode: nat, b: Block)
  {
    && Lasting(t, scale, b).Some?
    && 0 <= timecode + b.relative < U63
    && (timecode + b.relative) * scale + Lasting(t, scale, b).value < U64
  }

  predicate AllInRange(rec: Recording)
  {
    && 0 < Scale(rec)
    && forall c, b | c in rec.clusters && b in c.blocks :: InRange(rec.track, Scale(rec), BeValue(c.timecode), b)
  }

  // ----- the recording's bytes -----

  function InfoTrees(scale: Option<seq<byte>>): seq<Tree>
    requires scale.Some? ==> |scale.value| <= 8
  {
    match scale case None => [] case Some(s) => [Leaf(ID_INFO, 8, InfoBody(s))]
  }

  function BlockTrees(t: Track, blocks: seq<Block>): seq<Tree>
    requires WritableTrack(t) && forall b | b in blocks :: WritableBlock(b)
  {
    if blocks == [] then []
    else
      var item := BlockItem(t, blocks[0]);
      [Leaf(item.id, 8, item.body)] + BlockTrees(t, blocks[1..])
  }

  function ClusterTrees(t: Track, clusters: seq<Cluster>): seq<Tree>
    requires WritableTrack(t) && forall c | c in clusters :: WritableCluster(c)
  {
    if clusters == [] then []
    else
      assert WritableCluster(clusters[0]);
      [Container(ID_CLUSTER, 8, None, [Leaf(ID_TIMECODE, 8, clusters[0].timecode)] + BlockTrees(t, clusters[0].blocks))] +
      ClusterTrees(t, clusters[1..])
  }

  function RecordingTrees(rec: Recording): seq<Tree>
    requires Writable(rec)
  {
    var entry := Leaf(ID_TRACK_ENTRY, 8, Entry(rec.extras, rec.track, 2, []).body);
    [Container(ID_SEGMENT, 8, None,
               InfoTrees(rec.scale) + [Container(ID_TRACKS, 8, None, [entry])] + ClusterTrees(rec.track, rec.clusters))]
  }

  lemma WrittenSize(w: Written)
    requires WritableChild(w)
    ensures |WriteChild(w)| <= 12 + |w.child.body|
  {
    hide EncodeId;
    hide EncodeVint;
  }

  /** Room for some children's headers and bodies. */
  function Room(children: seq<Child>): nat
  {
    if children == [] then 0 else 12 + |children[0].body| + Room(children[1..])
  }

  lemma {:induction false} BodySize(children: seq<Child>)
    requires Fit(children)
    ensures |Body(children)| <= Room(children)
    decreases |children|
  {
    hide WriteChild;
    if children == [] {
      assert Body(children) == [];
    } else {
      var ws := Inside(children);
      BodySize(children[1..]);
      WrittenSize(ws[0]);
      assert ws[1..] == Inside(children[1..]);
      assert WriteChildren(ws) == WriteChild(ws[0]) + WriteChildren(ws[1..]);
    }
  }

  lemma BlockSize(t: Track, b: Block)
    requires WritableTrack(t) && WritableBlock(b)
    ensures |BlockItem(t, b).body| < VintLimit(8) - 1
  {
    hide EncodeVint;
    hide BeBytes;
    hide Body;
    assert VintLimit(8) == 0x100_0000_0000_0000;
    if b.group.Some? {
      GroupFits(t, b);
      var children := GroupChildren(t, b);
      BodySize(children);
      assert children[1..] == [children[1]] && [children[1]][1..] == [];
      assert Room(children) == 12 + |BlockBody(t, b)| + Room([children[1]]);
    }
  }

  lemma {:induction false} BlocksEncode(t: Track, blocks: seq<Block>)
    requires WritableTrack(t) && forall b | b in blocks :: WritableBlock(b)
    ensures EncodableForest(BlockTrees(t, blocks))
    ensures ItemsOfForest(BlockTrees(t, blocks)) == BlockItems(t, blocks)
  {
    hide BlockItem;
    hide WritableBlock;
    hide WritableTrack;
    hide VintLimit;
    if blocks != [] {
      BlocksEncode(t, blocks[1..]);
      BlockSize(t, blocks[0]);
      BlockFound(FRESH, NO_NOTES, t, blocks[0]);
      var item := BlockItem(t, blocks[0]);
      assert Encodable(Leaf(item.id, 8, item.body));
      LeafFirst(Leaf(item.id, 8, item.body), BlockTrees(t, blocks[1..]));
    }
  }

  lemma LeafFirst(leaf: Tree, rest: seq<Tree>)
    requires leaf.Leaf?
    ensures ItemsOfForest([leaf] + rest) == [Whole(leaf.id, leaf.body)] + ItemsOfForest(rest)
  {
    assert ([leaf] + rest)[1..] == rest;
  }

  lemma ContainerFirst(c: Tree, rest: seq<Tree>)
    requires c.Container?
    ensures ItemsOfForest([c] + rest) == [Enter(c.id)] + ItemsOfForest(c.children) + ItemsOfForest(rest)
  {
    assert ([c] + rest)[1..] == rest;
  }

  lemma {:induction false} ClustersEncode(t: Track, clusters: seq<Cluster>)
    requires WritableTrack(t) && forall c | c in clusters :: WritableCluster(c)
    ensures EncodableForest(ClusterTrees(t, clusters))
    ensures ItemsOfForest(ClusterTrees(t, clusters)) == ClusterItems(t, clusters)
  {
    hide BlockTrees;
    hide BlockItems;
    hide WritableBlock;
    hide WritableTrack;
    hide ItemsOfForest;
    hide ItemsOfTree;
    if clusters == [] {
      NoTrees();
    } else {
      var c := clusters[0];
      assert WritableCluster(c);
      ClustersEncode(t, clusters[1..]);
      BlocksEncode(t, c.blocks);
      assert VintLimit(8) == 0x100_0000_0000_0000;
      var code := Leaf(ID_TIMECODE, 8, c.timecode);
      assert Encodable(code);
      LeafFirst(code, BlockTrees(t, c.blocks));
      var cluster := Container(ID_CLUSTER, 8, None, [code] + BlockTrees(t, c.blocks));
      assert Encodable(cluster);
      ContainerFirst(cluster, ClusterTrees(t, clusters[1..]));
      assert ClusterItems(t, clusters) == [Enter(ID_CLUSTER)] + ([Whole(ID_TIMECODE, c.timecode)] + BlockItems(t, c.blocks))
          + ClusterItems(t, clusters[1..]);
    }
  }

  lemma NoTrees()
    ensures ItemsOfForest([]) == []
  {
  }

  lemma InfoSize(scale: seq<byte>)
    requires |scale| <= 8
    ensures |InfoBody(scale)| < VintLimit(8) - 1
  {
    hide Body;
    assert VintLimit(8) == 0x100_0000_0000_0000;
    ScaleFits(scale);
    var children := [Child(ID_TIMECODE_SCALE, scale)];
    BodySize(children);
    assert children[1..] == [];
  }

  lemma InfoEncodes(scale: Option<seq<byte>>, rest: seq<Tree>)
    requires scale.Some? ==> |scale.value| <= 8
    requires EncodableForest(rest)
    ensures EncodableForest(InfoTrees(scale) + rest)
    ensures ItemsOfForest(InfoTrees(scale) + rest) == InfoItems(scale) + ItemsOfForest(rest)
  {
    hide InfoBody;
    hide ItemsOfForest;
    if scale == None {
      assert InfoTrees(scale) + rest == rest;
    } else {
      InfoSize(scale.value);
      LeafFirst(Leaf(ID_INFO, 8, InfoBody(scale.value)), rest);
      assert Encodable(Leaf(ID_INFO, 8, InfoBody(scale.value)));
    }
  }

  /** A recording's bytes hold its elements. */
  lemma RecordingEncodes(rec: Recording)
    requires Writable(rec)
    ensures EncodableForest(RecordingTrees(rec))
    ensures ItemsOfForest(RecordingTrees(rec)) == RecordingItems(rec)
  {
    hide ClusterTrees;
    hide ClusterItems;
    hide InfoItems;
    hide InfoTrees;
    hide Body;
    hide Fields;
    hide ItemsOfForest;
    hide WritableTrack;
    var clusters := ClusterTrees(rec.track, rec.clusters);
    ClustersEncode(rec.track, rec.clusters);
    var entry := Leaf(ID_TRACK_ENTRY, 8, Entry(rec.extras, rec.track, 2, []).body);
    assert Encodable(entry);
    var tracks := Container(ID_TRACKS, 8, None, [entry]);
    assert Encodable(tracks);
    NoTrees();
    assert [entry] == [entry] + [];
    LeafFirst(entry, []);
    ContainerFirst(tracks, clusters);
    InfoEncodes(rec.scale, [tracks] + clusters);
    var inside := InfoTrees(rec.scale) + ([tracks] + clusters);
    var segment := Container(ID_SEGMENT, 8, None, inside);
    assert Encodable(segment);
    assert RecordingTrees(rec) == [segment] by {
      assert InfoTrees(rec.scale) + [tracks] + clusters == inside;
    }
    assert [segment] == [segment] + [];
    ContainerFirst(segment, []);
    assert [Enter(ID_SEGMENT)] + (InfoItems(rec.scale) + ([Enter(ID_TRACKS)] + ([Whole(ID_TRACK_ENTRY, entry.body)] + []) +
      ClusterItems(rec.track, rec.clusters))) + [] == RecordingItems(rec);
  }

  /** A WebM file of a recording, its containers of unknown size. */
  function FileOf(rec: Recording): seq<byte>
    requires Writable(rec)
  {
    RecordingEncodes(rec);
    WebmHeader() + EncodeForest(RecordingTrees(rec))
  }

  lemma FileHolds(rec: Recording)
    requires Writable(rec)
    ensures ItemsOf(FileOf(rec)) == RecordingItems(rec)
    ensures Duration(FileOf(rec)) ==
            match Run(FRESH, RecordingItems(rec))
            case None => None
            case Some(r) => if r.blocks == 0 then None else Some((Wrap64(r.end - r.start), NANOSECONDS))
  {
    hide RecordingTrees;
    hide RecordingItems;
    hide Writable;
    hide EncodeForest;
    hide ItemsOfForest;
    hide Payload;
    hide Scan;
    hide Run;
    hide Wrap64;
    RecordingEncodes(rec);
    DocumentPayload(EncodeForest(RecordingTrees(rec)));
    ScanReadsTheTree(RecordingTrees(rec));
  }

  // ----- what the file states -----

  lemma {:induction false} BlocksState(n: Notes, t: Track, blocks: seq<Block>, rest: seq<Item>)
    requires WritableTrack(t) && n.audio == Some(NotedTrack(t.number, t.codec, BeValue(t.frame)))
    requires forall b | b in blocks :: WritableBlock(b)
    ensures Stated(n, BlockItems(t, blocks) + rest) == BlockPlays(t, n.scale, n.cluster, blocks) + Stated(n, rest)
  {
    hide BlockItem;
    hide WritableTrack;
    hide WritableBlock;
    hide Lasting;
    hide StatedBy;
    hide StatedDuration;
    hide BeValue;
    var all := BlockItems(t, blocks) + rest;
    if blocks == [] {
      assert all == rest;
    } else {
      var item := BlockItem(t, blocks[0]);
      assert all == [item] + (BlockItems(t, blocks[1..]) + rest);
      WrittenBlockStates(n, t, blocks[0]);
      BlockFound(FRESH, n, t, blocks[0]);
      assert Note(n, item) == n;
      BlocksState(n, t, blocks[1..], rest);
    }
  }

  predicate Knows(n: Notes, t: Track, scale: nat)
  {
    n.scale == scale && n.audio == Some(NotedTrack(t.number, t.codec, BeValue(t.frame)))
  }

  lemma EnterStates(n: Notes, timecode: seq<byte>, rest: seq<Item>)
    ensures Stated(n, [Enter(ID_CLUSTER), Whole(ID_TIMECODE, timecode)] + rest) == Stated(n.(cluster := BeValue(timecode)), rest)
  {
    hide BeValue;
    var all := [Enter(ID_CLUSTER), Whole(ID_TIMECODE, timecode)] + rest;
    assert all[1..] == [Whole(ID_TIMECODE, timecode)] + rest && all[1..][1..] == rest;
    var entered := n.(cluster := 0);
    assert Stated(n, all) == [] + Stated(entered, all[1..]);
    assert Stated(entered, all[1..]) == [] + Stated(n.(cluster := BeValue(timecode)), rest);
  }

  lemma {:induction false} ClustersState(n: Notes, t: Track, scale: nat, clusters: seq<Cluster>)
    requires WritableTrack(t) && Knows(n, t, scale)
    requires forall c | c in clusters :: WritableCluster(c)
    ensures Stated(n, ClusterItems(t, clusters)) == ClusterPlays(t, scale, clusters)
    decreases |clusters|
  {
    hide WritableTrack;
    hide WritableBlock;
    hide BeValue;
    hide BlockItems;
    hide BlockPlays;
    hide Note;
    hide StatedBy;
    if clusters != [] {
      hide Stated;
      var c := clusters[0];
      assert WritableCluster(c);
      var rest := ClusterItems(t, clusters[1..]);
      assert ClusterItems(t, clusters) == [Enter(ID_CLUSTER), Whole(ID_TIMECODE, c.timecode)] + (BlockItems(t, c.blocks) + rest);
      EnterStates(n, c.timecode, BlockItems(t, c.blocks) + rest);
      var m := n.(cluster := BeValue(c.timecode));
      BlocksState(m, t, c.blocks, rest);
      ClustersState(m, t, scale, clusters[1..]);
    }
  }

  /** Before its clusters, a recording only sets the scale and the track. */
  lemma Opening(rec: Recording)
    requires Writable(rec)
    ensures rec.track.number < U64 && BeValue(rec.track.frame) < U64 && Scale(rec) < U64
    ensures var items, t := ClusterItems(rec.track, rec.clusters), rec.track;
            && Run(FRESH, RecordingItems(rec))
               == Run(FRESH.(scale := Scale(rec), audio := Some(AudioTrack(t.number, t.codec, BeValue(t.frame)))), items)
            && Stated(NO_NOTES, RecordingItems(rec))
               == Stated(NO_NOTES.(scale := Scale(rec), audio := Some(NotedTrack(t.number, t.codec, BeValue(t.frame)))), items)
            && Recorded(FRESH, RecordingItems(rec))
               == Recorded(FRESH.(scale := Scale(rec), audio := Some(AudioTrack(t.number, t.codec, BeValue(t.frame)))), items)
  {
    hide Step;
    hide Note;
    hide StatedBy;
    hide RecordedBy;
    hide Run;
    hide Stated;
    hide Recorded;
    hide ClusterItems;
    hide BeValue;
    hide Body;
    hide Fields;
    hide InfoBody;
    hide WritableTrack;
    hide WritableEntry;
    if rec.scale.Some? {
      InfoReads(FRESH, NO_NOTES, rec.scale.value);
    }
    var t, items := rec.track, ClusterItems(rec.track, rec.clusters);
    var entry := Entry(rec.extras, t, 2, []);
    var last := [entry] + items;
    var tracks := [Enter(ID_TRACKS)] + last;
    var infos := InfoItems(rec.scale) + tracks;
    assert RecordingItems(rec) == [Enter(ID_SEGMENT)] + infos;
    OtherElements(FRESH, NO_NOTES, 0, []);
    Quiet(FRESH, NO_NOTES, Enter(ID_SEGMENT), infos);
    var r, n := FRESH.(scale := Scale(rec)), NO_NOTES.(scale := Scale(rec));
    if rec.scale.Some? {
      Quiet(FRESH, NO_NOTES, Whole(ID_INFO, InfoBody(rec.scale.value)), tracks);
    } else {
      assert infos == tracks;
    }
    OtherElements(r, n, 0, []);
    Quiet(r, n, Enter(ID_TRACKS), last);
    EntryReads(r, n, rec.extras, t, 2, []);
    Quiet(r, n, entry, items);
  }

  lemma ScaleFits(scale: seq<byte>)
    requires |scale| <= 8
    ensures Fit([Child(ID_TIMECODE_SCALE, scale)])
  {
    assert VintLimit(8) == 0x100_0000_0000_0000;
  }

  lemma InfoReads(r: Reader, n: Notes, scale: seq<byte>)
    requires |scale| <= 8
    ensures BeValue(scale) < U64
    ensures var info := Whole(ID_INFO, InfoBody(scale));
            && Step(r, info) == Some(r.(scale := BeValue(scale)))
            && Note(n, info) == n.(scale := BeValue(scale)) && StatedBy(n, info) == []
  {
    hide Body;
    hide Step;
    hide Note;
    hide StatedBy;
    hide BeValue;
    hide Fit;
    EightBytes(scale);
    ScaleFits(scale);
    var child := Child(ID_TIMECODE_SCALE, scale);
    assert [] + [child] + [] == [child];
    InfoSetsScale(r, n, [], scale, []);
  }

  /** An element that plays nothing is stepped over, in all three readings. */
  lemma Quiet(r: Reader, n: Notes, item: Item, rest: seq<Item>)
    requires Step(r, item).Some? && !(item.Whole? && CarriesBlock(item.id))
    ensures var all := [item] + rest;
            && Run(r, all) == Run(Step(r, item).value, rest)
            && Stated(n, all) == Stated(Note(n, item), rest)
            && Recorded(r, all) == Recorded(Step(r, item).value, rest)
  {
    hide Step;
    hide Note;
    hide StatedBlock;
    hide BlockOutcome;
    var all := [item] + rest;
    assert all[1..] == rest;
    assert Stated(n, all) == [] + Stated(Note(n, item), rest);
    assert Recorded(r, all) == [] + Recorded(Step(r, item).value, rest);
  }

  /**
   * Whatever the words hold: a written recording states exactly its blocks'
   * intervals, each from its own signed tick after its cluster's.
   */
  lemma WrittenFileStates(rec: Recording)
    requires Writable(rec)
    ensures FilePlays(FileOf(rec)) == Plays(rec)
  {
    hide FileOf;
    hide Writable;
    hide Stated;
    hide Run;
    hide Recorded;
    hide ItemsOf;
    hide RecordingItems;
    hide ClusterItems;
    hide ClusterPlays;
    hide BeValue;
    Clusters(rec);
    FileHolds(rec);
    Opening(rec);
    var t := rec.track;
    var n := NO_NOTES.(scale := Scale(rec), audio := Some(NotedTrack(t.number, t.codec, BeValue(t.frame))));
    ClustersState(n, t, Scale(rec), rec.clusters);
  }

  lemma Clusters(rec: Recording)
    requires Writable(rec)
    ensures WritableTrack(rec.track) && forall c | c in rec.clusters :: WritableCluster(c)
  {
  }

  // ----- what the reader measures -----

  /** A tick as the reader adds it: past 2^64 it comes out 2^64 too small. */
  function Held(tick: nat): nat { if tick < U64 then tick else tick - U64 }

  /** A block the reader takes: its tick, start and duration fit their words. */
  predicate Holdable(t: Track, scale: nat, timecode: nat, b: Block)
  {
    var tick := timecode + b.relative;
    && scale > 0 && 0 <= tick && !(U63 <= tick < U64) && Held(tick) * scale < U64
    && Lasting(t, scale, b).Some? && Countable(scale, b)
  }

  /** Where it is recorded. */
  function KeptPlay(t: Track, scale: nat, timecode: nat, b: Block): Interval
    requires Holdable(t, scale, timecode, b)
  {
    var start := Held(timecode + b.relative) * scale;
    Interval(start, (start + Lasting(t, scale, b).value) % U64)
  }

  predicate AllHoldable(t: Track, scale: nat, timecode: nat, blocks: seq<Block>)
  {
    forall b | b in blocks :: Holdable(t, scale, timecode, b)
  }

  predicate AllTaken(t: Track, scale: nat, clusters: seq<Cluster>)
  {
    forall c | c in clusters :: AllHoldable(t, scale, BeValue(c.timecode), c.blocks)
  }

  function KeptBlocks(t: Track, scale: nat, timecode: nat, blocks: seq<Block>): seq<Interval>
    requires AllHoldable(t, scale, timecode, blocks)
  {
    if blocks == [] then [] else [KeptPlay(t, scale, timecode, blocks[0])] + KeptBlocks(t, scale, timecode, blocks[1..])
  }

  function KeptClusters(t: Track, scale: nat, clusters: seq<Cluster>): seq<Interval>
    requires AllTaken(t, scale, clusters)
  {
    if clusters == [] then []
    else
      assert clusters[0] in clusters;
      KeptBlocks(t, scale, BeValue(clusters[0].timecode), clusters[0].blocks) + KeptClusters(t, scale, clusters[1..])
  }

  /** A reader in a cluster that knows the track, whatever its scale. */
  predicate InCluster(r: Reader, t: Track)
  {
    && WritableTrack(t) && t.number < U64 && BeValue(t.frame) < U64
    && r.audio == Some(AudioTrack(t.number, t.codec, BeValue(t.frame))) && r.inCluster
  }

  lemma BlockMeasured(r: Reader, t: Track, b: Block, plays: seq<Interval>)
    requires InCluster(r, t) && WritableBlock(b) && Measures(r, plays)
    ensures Step(r, BlockItem(t, b)).Some? <==> Holdable(t, r.scale, r.cluster, b)
    ensures Holdable(t, r.scale, r.cluster, b) ==>
              && var next := Step(r, BlockItem(t, b)).value;
              && next == r.(start := next.start, end := next.end, blocks := next.blocks)
              && Measures(next, plays + [KeptPlay(t, r.scale, r.cluster, b)])
  {
    hide BlockItem;
    hide Lasting;
    hide Measures;
    hide Step;
    hide WritableTrack;
    hide Countable;
    if r.scale == 0 {
      NotReading(r, t, b);
    } else {
      WrittenBlock(r, t, b);
      if Holdable(t, r.scale, r.cluster, b) {
        RecordMeasures(r, plays, Span(KeptPlay(t, r.scale, r.cluster, b).start, Lasting(t, r.scale, b).value));
      }
    }
  }

  lemma {:induction false} BlocksMeasured(r: Reader, t: Track, blocks: seq<Block>, rest: seq<Item>, plays: seq<Interval>)
      returns (next: Reader)
    requires InCluster(r, t) && Measures(r, plays) && forall b | b in blocks :: WritableBlock(b)
    ensures next == r.(start := next.start, end := next.end, blocks := next.blocks)
    ensures AllHoldable(t, r.scale, r.cluster, blocks) ==>
              && Measures(next, plays + KeptBlocks(t, r.scale, r.cluster, blocks))
              && Run(r, BlockItems(t, blocks) + rest) == Run(next, rest)
    ensures !AllHoldable(t, r.scale, r.cluster, blocks) ==> Run(r, BlockItems(t, blocks) + rest) == None
    decreases |blocks|
  {
    hide BlockItem;
    hide WritableBlock;
    hide WritableTrack;
    hide Holdable;
    hide KeptPlay;
    hide Measures;
    hide Step;
    hide BeValue;
    var all := BlockItems(t, blocks) + rest;
    next := r;
    if blocks == [] {
      assert all == rest && plays + KeptBlocks(t, r.scale, r.cluster, blocks) == plays;
    } else {
      var b := blocks[0];
      assert forall x | x in blocks :: x == b || x in blocks[1..];
      assert WritableBlock(b) && b in blocks;
      assert all == [BlockItem(t, b)] + (BlockItems(t, blocks[1..]) + rest);
      BlockMeasured(r, t, b, plays);
      if Holdable(t, r.scale, r.cluster, b) {
        var more := plays + [KeptPlay(t, r.scale, r.cluster, b)];
        next := BlocksMeasured(Step(r, BlockItem(t, b)).value, t, blocks[1..], rest, more);
        if AllHoldable(t, r.scale, r.cluster, blocks) {
          assert more + KeptBlocks(t, r.scale, r.cluster, blocks[1..]) == plays + KeptBlocks(t, r.scale, r.cluster, blocks);
        }
      }
    }
  }

  lemma EnterRuns(r: Reader, timecode: seq<byte>, rest: seq<Item>)
    requires |timecode| <= 8
    ensures BeValue(timecode) < U64
    ensures Run(r, [Enter(ID_CLUSTER), Whole(ID_TIMECODE, timecode)] + rest)
         == Run(r.(cluster := BeValue(timecode), inCluster := true), rest)
  {
    hide BeValue;
    EightBytes(timecode);
    var all := [Enter(ID_CLUSTER), Whole(ID_TIMECODE, timecode)] + rest;
    assert all[1..] == [Whole(ID_TIMECODE, timecode)] + rest && all[1..][1..] == rest;
  }

  lemma {:induction false} ClustersMeasured(r: Reader, t: Track, clusters: seq<Cluster>, plays: seq<Interval>) returns (end: Reader)
    requires WritableTrack(t) && t.number < U64 && BeValue(t.frame) < U64
    requires r.audio == Some(AudioTrack(t.number, t.codec, BeValue(t.frame))) && Measures(r, plays)
    requires forall c | c in clusters :: WritableCluster(c)
    ensures Run(r, ClusterItems(t, clusters)) == if AllTaken(t, r.scale, clusters) then Some(end) else None
    ensures AllTaken(t, r.scale, clusters) ==> Measures(end, plays + KeptClusters(t, r.scale, clusters))
    decreases |clusters|
  {
    hide BlockItems;
    hide KeptBlocks;
    hide AllHoldable;
    hide WritableBlock;
    hide WritableTrack;
    hide Measures;
    hide Step;
    hide BeValue;
    end := r;
    if clusters == [] {
      assert plays + KeptClusters(t, r.scale, clusters) == plays;
    } else {
      hide Run;
      var c := clusters[0];
      assert forall x | x in clusters :: x == c || x in clusters[1..];
      assert WritableCluster(c) && c in clusters;
      var rest := ClusterItems(t, clusters[1..]);
      assert ClusterItems(t, clusters) == [Enter(ID_CLUSTER), Whole(ID_TIMECODE, c.timecode)] + (BlockItems(t, c.blocks) + rest);
      EnterRuns(r, c.timecode, BlockItems(t, c.blocks) + rest);
      var inside := r.(cluster := BeValue(c.timecode), inCluster := true);
      SameMeasures(r, inside, plays);
      var next := BlocksMeasured(inside, t, c.blocks, rest, plays);
      if AllHoldable(t, r.scale, BeValue(c.timecode), c.blocks) {
        var more := plays + KeptBlocks(t, r.scale, BeValue(c.timecode), c.blocks);
        end := ClustersMeasured(next, t, clusters[1..], more);
        if AllTaken(t, r.scale, clusters) {
          assert more + KeptClusters(t, r.scale, clusters[1..]) == plays + KeptClusters(t, r.scale, clusters);
        }
      }
    }
  }

  lemma SameMeasures(r: Reader, q: Reader, plays: seq<Interval>)
    requires Measures(r, plays) && q.start == r.start && q.end == r.end && q.blocks == r.blocks
    ensures Measures(q, plays)
  {
  }

  predicate Taken(rec: Recording) { AllTaken(rec.track, Scale(rec), rec.clusters) }

  function Kept(rec: Recording): seq<Interval>
    requires Taken(rec)
  {
    KeptClusters(rec.track, Scale(rec), rec.clusters)
  }

  lemma RecordingMeasured(rec: Recording) returns (end: Reader)
    requires Writable(rec)
    ensures Run(FRESH, RecordingItems(rec)) == if Taken(rec) then Some(end) else None
    ensures Taken(rec) ==> Measures(end, Kept(rec))
  {
    hide Writable;
    hide Run;
    hide Stated;
    hide Recorded;
    hide RecordingItems;
    hide ClusterItems;
    hide KeptClusters;
    hide AllTaken;
    hide BeValue;
    hide Scale;
    hide WritableTrack;
    hide WritableCluster;
    hide LeastNumber;
    hide GreatestNumber;
    Clusters(rec);
    Opening(rec);
    var t := rec.track;
    var r := FRESH.(scale := Scale(rec), audio := Some(AudioTrack(t.number, t.codec, BeValue(t.frame))));
    assert Measures(r, []);
    end := ClustersMeasured(r, t, rec.clusters, []);
    if Taken(rec) {
      assert [] + Kept(rec) == Kept(rec);
    }
  }

  /**
   * Any written recording at all: it is refused exactly when some block is not
   * taken or there is none, and is otherwise measured as the latest recorded end
   * less the earliest recorded start, modulo 2^64.
   */
  lemma WrittenFileExactly(rec: Recording)
    requires Writable(rec)
    ensures Duration(FileOf(rec)) ==
            if !Taken(rec) || Kept(rec) == [] then None
            else Some(((GreatestNumber(Ends(Kept(rec))) - LeastNumber(Starts(Kept(rec)))) % U64, 1_000_000_000))
  {
    hide FileOf;
    hide Writable;
    hide Run;
    hide RecordingItems;
    hide Kept;
    hide Taken;
    hide LeastNumber;
    hide GreatestNumber;
    hide Duration;
    FileHolds(rec);
    var end := RecordingMeasured(rec);
  }

  // ----- recordings in range -----

  lemma InRangeKept(t: Track, scale: nat, timecode: nat, b: Block)
    requires scale > 0 && InRange(t, scale, timecode, b)
    ensures Holdable(t, scale, timecode, b)
    ensures var start := (timecode + b.relative) * scale;
            start >= 0 && KeptPlay(t, scale, timecode, b) == Interval(start, start + Lasting(t, scale, b).value)
  {
    hide BeValue;
    hide OpusPacketDuration;
  }

  lemma {:induction false} InRangeBlocks(t: Track, scale: nat, timecode: nat, blocks: seq<Block>)
    requires scale > 0 && forall b | b in blocks :: InRange(t, scale, timecode, b)
    ensures AllHoldable(t, scale, timecode, blocks)
    ensures KeptBlocks(t, scale, timecode, blocks) == BlockPlays(t, scale, timecode, blocks)
  {
    hide Holdable;
    hide KeptPlay;
    hide Lasting;
    if blocks != [] {
      assert forall x | x in blocks :: x == blocks[0] || x in blocks[1..];
      assert InRange(t, scale, timecode, blocks[0]);
      InRangeKept(t, scale, timecode, blocks[0]);
      InRangeBlocks(t, scale, timecode, blocks[1..]);
    }
  }

  lemma {:induction false} InRangeClusters(t: Track, scale: nat, clusters: seq<Cluster>)
    requires scale > 0
    requires forall c, b | c in clusters && b in c.blocks :: InRange(t, scale, BeValue(c.timecode), b)
    ensures AllTaken(t, scale, clusters) && KeptClusters(t, scale, clusters) == ClusterPlays(t, scale, clusters)
  {
    hide KeptBlocks;
    hide BlockPlays;
    hide AllHoldable;
    hide InRange;
    hide BeValue;
    if clusters != [] {
      assert forall x | x in clusters :: x == clusters[0] || x in clusters[1..];
      assert clusters[0] in clusters;
      InRangeBlocks(t, scale, BeValue(clusters[0].timecode), clusters[0].blocks);
      InRangeClusters(t, scale, clusters[1..]);
    }
  }

  /**
   * A written recording whose ticks and ends are in range is measured as its
   * latest end less its earliest start, whatever its clusters and wherever in
   * them its blocks lie; without a block it is refused.
   */
  lemma WrittenFileMeasures(rec: Recording)
    requires Writable(rec) && AllInRange(rec)
    ensures Plays(rec) == [] ==> Duration(FileOf(rec)) == None
    ensures Plays(rec) != [] ==>
              && Duration(FileOf(rec)).Some?
              && Duration(FileOf(rec)).value.0 == GreatestNumber(Ends(Plays(rec))) - LeastNumber(Starts(Plays(rec)))
              && Duration(FileOf(rec)).value.1 == 1_000_000_000
  {
    hide FileOf;
    hide Writable;
    hide KeptClusters;
    hide ClusterPlays;
    hide AllTaken;
    hide LeastNumber;
    hide GreatestNumber;
    hide Duration;
    hide InRange;
    hide Scale;
    WrittenFileExactly(rec);
    InRangeClusters(rec.track, Scale(rec), rec.clusters);
    if Plays(rec) != [] {
      RangeSpan(rec);
    }
  }

  lemma RangeSpan(rec: Recording)
    requires Writable(rec) && AllInRange(rec) && Plays(rec) != []
    ensures 0 <= GreatestNumber(Ends(Plays(rec))) - LeastNumber(Starts(Plays(rec))) < U64
  {
    hide Writable;
    hide Run;
    hide RecordingItems;
    hide KeptClusters;
    hide ClusterPlays;
    hide AllTaken;
    hide LeastNumber;
    hide GreatestNumber;
    hide InRange;
    hide Scale;
    InRangeClusters(rec.track, Scale(rec), rec.clusters);
    ClusterPlaysFollow(rec.track, Scale(rec), rec.clusters);
    var end := RecordingMeasured(rec);
    Bounds(Plays(rec));
  }

  lemma {:induction false} BlockPlaysFollow(t: Track, scale: nat, timecode: nat, blocks: seq<Block>)
    ensures EndsFollowStarts(BlockPlays(t, scale, timecode, blocks))
  {
    hide Lasting;
    if blocks != [] {
      BlockPlaysFollow(t, scale, timecode, blocks[1..]);
    }
  }

  lemma {:induction false} ClusterPlaysFollow(t: Track, scale: nat, clusters: seq<Cluster>)
    ensures EndsFollowStarts(ClusterPlays(t, scale, clusters))
  {
    hide BlockPlays;
    if clusters != [] {
      BlockPlaysFollow(t, scale, BeValue(clusters[0].timecode), clusters[0].blocks);
      ClusterPlaysFollow(t, scale, clusters[1..]);
    }
  }

  // ----- the header -----

  /** A document is read on when its header's last DocType says webm or matroska, and refused when it says anything else or nothing. */
  lemma DocumentTypeDecides(before: seq<Child>, docType: seq<byte>, after: seq<Child>, width: nat, stream: seq<byte>)
    requires Fit(before + [Child(0x4282, docType)] + after) && forall c | c in after :: c.id != 0x4282
    requires WritableChild(Written(Child(0x1a45dfa3, Body(before + [Child(0x4282, docType)] + after)), width))
    ensures Payload(WriteChild(Written(Child(0x1a45dfa3, Body(before + [Child(0x4282, docType)] + after)), width)) + stream)
         == if docType == [0x77, 0x65, 0x62, 0x6d] || docType == [0x6d, 0x61, 0x74, 0x72, 0x6f, 0x73, 0x6b, 0x61]
            then Some(stream) else None
  {
    hide Children;
    hide LastChild;
    hide Body;
    hide Fit;
    var children := before + [Child(0x4282, docType)] + after;
    BodyReadsBack(children);
    LastChildIsLast(before, Child(0x4282, docType), after);
    HeaderPayload(Body(children), width, stream);
  }

  lemma NoDocumentType(children: seq<Child>, width: nat, stream: seq<byte>)
    requires Fit(children) && forall c | c in children :: c.id != 0x4282
    requires WritableChild(Written(Child(0x1a45dfa3, Body(children)), width))
    ensures Payload(WriteChild(Written(Child(0x1a45dfa3, Body(children)), width)) + stream) == None
  {
    hide Children;
    hide LastChild;
    hide Body;
    hide Fit;
    BodyReadsBack(children);
    NoSuchChild(children, 0x4282);
    HeaderPayload(Body(children), width, stream);
  }

  /** The payload after a written header depends on the header's children alone. */
  lemma HeaderPayload(body: seq<byte>, width: nat, stream: seq<byte>)
    requires WritableChild(Written(Child(0x1a45dfa3, body), width))
    ensures Payload(WriteChild(Written(Child(0x1a45dfa3, body), width)) + stream) ==
            match Children(body)
            case None => None
            case Some(children) =>
              match LastChild(children, ID_DOC_TYPE)
              case None => None
              case Some(docType) => if docType == WEBM || docType == MATROSKA then Some(stream) else None
  {
    hide ParseElement;
    hide EncodeId;
    hide EncodeVint;
    hide Children;
    hide LastChild;
    var w := Written(Child(0x1a45dfa3, body), width);
    LimitAtMost(width);
    var header := EncodeId(0x1a45dfa3) + EncodeVint(|body|, width);
    HeaderReadsBack(0x1a45dfa3, |body|, width, body + stream);
    var data := WriteChild(w) + stream;
    assert data == header + (body + stream);
    assert data[|header|..|header| + |body|] == body && data[|header| + |body|..] == stream;
  }
}
