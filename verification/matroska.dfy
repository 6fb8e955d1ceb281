// The Matroska/WebM reader of internal/audioprobe/matroska.go: one pass over a
// flat element stream, keeping the earliest start and the latest end of the one
// audio track's blocks.

module Matroska {
  import opened Base
  import opened Words
  import opened Ebml

  const DEFAULT_TIMECODE_SCALE := 1_000_000
  const NANOSECONDS := 1_000_000_000

  datatype AudioTrack = AudioTrack(number: u64, codec: seq<byte>, defaultDuration: u64)

  /** The value of a reader: the fields of `MatroskaReader`. */
  datatype Reader = Reader(
    scale: u64, audio: Option<AudioTrack>, cluster: u64, inCluster: bool,
    start: u64, end: u64, blocks: nat)

  const FRESH := Reader(DEFAULT_TIMECODE_SCALE, None, 0, false, 0, 0, 0)

  /** When one block plays, by the reader's 64-bit fields; the end is not wrapped yet. */
  datatype Span = Span(start: u64, duration: nat) {
    function End(): nat { start + duration }
  }

  /** What one block does to the reader. */
  datatype Outcome = Refused | OtherTrack | Played(span: Span)

  function UintOf(body: seq<byte>): u64 { BeValue(body) % U64 }

  // ----- the fields each element sets -----

  /** The value of the last child with this id, if any. */
  function LastChild(children: seq<Child>, id: nat): Option<seq<byte>>
  {
    if children == [] then None
    else
      var last := children[|children| - 1];
      if last.id == id then Some(last.body) else LastChild(children[..|children| - 1], id)
  }

  function UintChild(children: seq<Child>, id: nat, default: u64): u64
  {
    match LastChild(children, id)
    case None => default
    case Some(body) => UintOf(body)
  }

  function TrackOf(children: seq<Child>): AudioTrack
  {
    AudioTrack(UintChild(children, ID_TRACK_NUMBER, 0),
               match LastChild(children, ID_CODEC_ID) case None => [] case Some(body) => body,
               UintChild(children, ID_DEFAULT_DURATION, 0))
  }

  // ----- blocks -----

  /** A signed 64-bit number from its bits. */
  function Signed64(n: int): int { (n + U63) % U64 - U63 }

  function Signed16(n: nat): int
    requires n < U16
  {
    if n < 0x8000 then n else n - U16
  }

  /** A block's absolute tick: 64-bit, and refused when its sign bit is set. */
  function Ticks(cluster: u64, relative: int): Option<u64>
  {
    var t := (cluster + relative) % U64;
    if t >= U63 then None else Some(t)
  }

  /** Frame sizes by configuration, in nanoseconds: Table 2 in section 3.1 of RFC 6716. */
  const OPUS_FRAMES: seq<nat> := [
    10_000_000, 20_000_000, 40_000_000, 60_000_000, 10_000_000, 20_000_000, 40_000_000, 60_000_000,
    10_000_000, 20_000_000, 40_000_000, 60_000_000, 10_000_000, 20_000_000, 10_000_000, 20_000_000,
    2_500_000, 5_000_000, 10_000_000, 20_000_000, 2_500_000, 5_000_000, 10_000_000, 20_000_000,
    2_500_000, 5_000_000, 10_000_000, 20_000_000, 2_500_000, 5_000_000, 10_000_000, 20_000_000]

  /** The frame count: one, two, or the low six bits of a second byte. */
  function OpusFrameCount(packet: seq<byte>): nat
    requires packet != []
  {
    match packet[0] % 4
    case 0 => 1
    case 3 => if |packet| < 2 then 0 else packet[1] % 64
    case _ => 2
  }

  /** The duration of a packet that has frames and lasts at most 120 ms, by the table. */
  function OpusPacketDuration(packet: seq<byte>): (d: Option<u64>)
    ensures d.Some? ==> 0 < d.value <= 120_000_000
  {
    if packet == [] || OpusFrameCount(packet) == 0 then None
    else
      var total := OPUS_FRAMES[packet[0] / 8] * OpusFrameCount(packet);
      if total <= 120_000_000 then Some(total) else None
  }

  /** The stated duration of a block, by preference; `None` when the block is refused. */
  function BlockDuration(track: AudioTrack, scale: u64, lacing: nat, frames: seq<byte>,
                         groupDuration: Option<u64>): Option<nat>
  {
    if groupDuration.Some? then
      var product := groupDuration.value * scale;
      if product < U64 then Some(product) else None
    else if lacing == 0 && track.defaultDuration > 0 then Some(track.defaultDuration)
    else if lacing != 0 && track.defaultDuration > 0 && |frames| > 0 then
      Some(track.defaultDuration * (frames[0] as int + 1))
    else if lacing == 0 && track.codec == OPUS_CODEC then
      match OpusPacketDuration(frames)
      case None => None
      case Some(d) => Some(d)
    else None
  }

  const OPUS_CODEC: seq<byte> := [0x41, 0x5f, 0x4f, 0x50, 0x55, 0x53]  // "A_OPUS"

  /** One (Simple)Block: track number, signed relative timecode, flags, frames. */
  function ReadBlock(r: Reader, body: seq<byte>, groupDuration: Option<u64>): Outcome
  {
    if r.audio == None then Refused
    else
      var track := r.audio.value;
      match ParseVint(body, false)
      case None => Refused
      case Some(number) =>
        if |body| < number.length + 3 then Refused
        else if number.value != track.number then OtherTrack
        else if !r.inCluster || r.scale == 0 then Refused
        else
          var relative := Signed16(Be16(body[number.length..]));
          var lacing := body[number.length + 2] / 2 % 4;
          var frames := body[number.length + 3..];
          match Ticks(r.cluster, relative)
          case None => Refused
          case Some(ticks) =>
            if ticks * r.scale >= U64 then Refused
            else
              match BlockDuration(track, r.scale, lacing, frames, groupDuration)
              case None => Refused
              case Some(duration) => Played(Span(ticks * r.scale, duration))
  }

  /** The code adds a block's duration to its start in 64 bits. */
  function Record(r: Reader, outcome: Outcome): Option<Reader>
  {
    match outcome
    case Refused => None
    case OtherTrack => Some(r)
    case Played(span) =>
      Some(r.(start := if r.blocks == 0 || span.start < r.start then span.start else r.start,
              end := Max(r.end, Wrap64(span.End())),
              blocks := r.blocks + 1))
  }

  /** The block of an element that carries one: a SimpleBlock, or a group's last Block. */
  function BlockOutcome(r: Reader, id: nat, body: seq<byte>): Outcome
  {
    if id == ID_SIMPLE_BLOCK then ReadBlock(r, body, None)
    else
      match Children(body)
      case None => Refused
      case Some(children) =>
        match LastChild(children, ID_BLOCK)
        case None => Refused
        case Some(block) =>
          ReadBlock(r, block, match LastChild(children, ID_BLOCK_DURATION)
                              case None => None
                              case Some(d) => Some(UintOf(d)))
  }

  predicate CarriesBlock(id: nat) { id == ID_SIMPLE_BLOCK || id == ID_BLOCK_GROUP }

  // ----- elements -----

  function ReadTrackEntry(r: Reader, body: seq<byte>): Option<Reader>
  {
    match Children(body)
    case None => None
    case Some(children) =>
      if UintChild(children, ID_TRACK_TYPE, 0) != 2 then Some(r)
      else if r.audio.Some? then None
      else Some(r.(audio := Some(TrackOf(children))))
  }

  function ReadElementBody(r: Reader, id: nat, body: seq<byte>): Option<Reader>
  {
    if id == ID_INFO then
      match Children(body)
      case None => None
      case Some(children) => Some(r.(scale := UintChild(children, ID_TIMECODE_SCALE, r.scale)))
    else if id == ID_TRACK_ENTRY then ReadTrackEntry(r, body)
    else if id == ID_TIMECODE then Some(r.(cluster := UintOf(body), inCluster := true))
    else if CarriesBlock(id) then Record(r, BlockOutcome(r, id, body))
    else Some(r)
  }

  function EnterContainer(r: Reader, id: nat): Reader
  {
    if id == ID_CLUSTER then r.(inCluster := false, cluster := 0) else r
  }

  function Step(r: Reader, item: Item): Option<Reader>
  {
    match item
    case Enter(id) => Some(EnterContainer(r, id))
    case Whole(id, body) => ReadElementBody(r, id, body)
  }

  function Run(r: Reader, items: seq<Item>): Option<Reader>
    decreases |items|
  {
    if items == [] then Some(r)
    else
      match Step(r, items[0])
      case None => None
      case Some(next) => Run(next, items[1..])
  }

  /** The flat walk of a byte stream. */
  function Walk(r: Reader, data: seq<byte>): Option<Reader>
  {
    match Scan(data)
    case None => None
    case Some(items) => Run(r, items)
  }

  /** The bytes after an EBML header of type webm or matroska. */
  function Payload(data: seq<byte>): Option<seq<byte>>
  {
    match ParseElement(data)
    case None => None
    case Some(header) =>
      if header.id != ID_EBML || header.size == UNKNOWN_SIZE || header.headerSize + header.size > |data| then None
      else
        match Children(data[header.headerSize..header.headerSize + header.size])
        case None => None
        case Some(children) =>
          match LastChild(children, ID_DOC_TYPE)
          case None => None
          case Some(docType) =>
            if docType == WEBM || docType == MATROSKA then Some(data[header.headerSize + header.size..])
            else None
  }

  const WEBM: seq<byte> := [0x77, 0x65, 0x62, 0x6d]
  const MATROSKA: seq<byte> := [0x6d, 0x61, 0x74, 0x72, 0x6f, 0x73, 0x6b, 0x61]

  /** Nanoseconds the audio blocks span, and units per second; `None` is a refusal. */
  function Duration(data: seq<byte>): Option<(u64, u64)>
  {
    match Payload(data)
    case None => None
    case Some(stream) =>
      match Walk(FRESH, stream)
      case None => None
      case Some(r) => if r.blocks == 0 then None else Some((Wrap64(r.end - r.start), NANOSECONDS))
  }

  // ----- the imperative reader -----

  /** One step of the walk: a container's header is stepped over, any other element is read whole. */
  lemma WalkStep(r: Reader, data: seq<byte>)
    requires data != []
    ensures Walk(r, data) ==
            match ParseElement(data)
            case None => None
            case Some(e) =>
              if InPlace(e.id) then Walk(EnterContainer(r, e.id), data[e.headerSize..])
              else if e.size == UNKNOWN_SIZE || e.headerSize + e.size > |data| then None
              else
                match ReadElementBody(r, e.id, data[e.headerSize..e.headerSize + e.size])
                case None => None
                case Some(next) => Walk(next, data[e.headerSize + e.size..])
  {
    hide ParseElement;
    hide ReadElementBody;
    var items := Scan(data);
    if items.Some? {
      var rest := if InPlace(ParseElement(data).value.id) then Scan(data[ParseElement(data).value.headerSize..])
                  else Scan(data[ParseElement(data).value.headerSize + ParseElement(data).value.size..]);
      assert items.value[1..] == rest.value;
    }
  }

  lemma WalkEnd(r: Reader)
    ensures Walk(r, []) == Some(r)
  {
  }

  /** The last child with an id, one visited child at a time. */
  lemma LastChildStep(children: seq<Child>, i: nat, id: nat)
    requires i < |children|
    ensures LastChild(children[..i + 1], id) ==
            if children[i].id == id then Some(children[i].body) else LastChild(children[..i], id)
  {
    assert children[..i + 1][..i] == children[..i];
  }

  lemma NoChild(id: nat)
    ensures LastChild([], id) == None
  {
  }

  lemma LacingProduct(d: u64, n: byte, start: u64)
    ensures Wrap64(start + Wrap64(d * (n as int + 1))) == Wrap64(start + d * (n as int + 1))
  {
    var exact := d * (n as int + 1);
    var low := Wrap64(exact);
    var sum := start + low;
    assert exact == exact / U64 * U64 + low;
    ModUnique(start + exact, exact / U64 + sum / U64, sum % U64, U64);
  }

  /** The code's signed 64-bit sum refuses and answers what the unsigned residue does. */
  lemma TicksAgree(cluster: u64, relative: int)
    requires -0x8000 <= relative < 0x8000
    ensures var t := Signed64(Signed64(cluster) + relative);
            if t < 0 then Ticks(cluster, relative) == None else Ticks(cluster, relative) == Some(t)
  {
  }

  const SILK_FRAMES: seq<u64> := [10_000_000, 20_000_000, 40_000_000, 60_000_000]
  const HYBRID_FRAMES: seq<u64> := [10_000_000, 20_000_000]
  const CELT_FRAMES: seq<u64> := [2_500_000, 5_000_000, 10_000_000, 20_000_000]

  method OpusDuration(packet: seq<byte>) returns (r: Option<u64>)
    ensures r == OpusPacketDuration(packet)
  {
    if |packet| == 0 {
      return None;
    }
    var toc := packet[0];
    var config := toc / 8;  // toc >> 3
    var frame: u64;
    if config < 12 {
      frame := SILK_FRAMES[config % 4];
    } else if config < 16 {
      frame := HYBRID_FRAMES[config % 2];
    } else {
      frame := CELT_FRAMES[config % 4];
    }
    var count := 1;
    match toc % 4 {  // toc & 0x03
      case 1 => count := 2;
      case 2 => count := 2;
      case 3 =>
        if |packet| < 2 || packet[1] % 0x40 == 0 {
          return None;
        }
        count := packet[1] % 0x40;  // packet[1] & 0x3f
      case _ =>
    }
    OpusFrameSize(config);
    var total := frame * count;
    return if total <= 120_000_000 then Some(total) else None;
  }

  lemma OpusFrameSize(config: nat)
    requires config < 32
    ensures OPUS_FRAMES[config] ==
            if config < 12 then SILK_FRAMES[config % 4]
            else if config < 16 then HYBRID_FRAMES[config % 2]
            else CELT_FRAMES[config % 4]
  {
  }

  class MatroskaReader {
    var scale: u64
    var audio: Option<AudioTrack>
    var cluster: u64
    var inCluster: bool
    var start: u64
    var end: u64
    var blocks: nat

    function State(): Reader
      reads this
    {
      Reader(scale, audio, cluster, inCluster, start, end, blocks)
    }

    constructor ()
      ensures State() == FRESH
    {
      scale, audio := DEFAULT_TIMECODE_SCALE, None;
      cluster, inCluster, start, end, blocks := 0, false, 0, 0, 0;
    }

    /** Refusing leaves the reader unusable: its state is then never read again. */
    method ReadStream(data: seq<byte>) returns (ok: bool)
      requires |data| <= MAX_SLICE
      modifies this
      ensures ok == Walk(old(State()), data).Some?
      ensures ok ==> Walk(old(State()), data) == Some(State())
    {
      hide ParseElement;
      hide ReadElementBody;
      hide Walk;
      var offset := 0;
      assert data[0..] == data;
      while offset < |data|
        invariant 0 <= offset <= |data|
        invariant Walk(State(), data[offset..]) == Walk(old(State()), data)
        decreases |data| - offset
      {
        var rest := data[offset..];
        WalkStep(State(), rest);
        var current := ReadElement(rest);
        if current == None {
          return false;
        }
        var e := current.value;
        var bodyStart := offset + e.headerSize;
        if InPlace(e.id) {
          if e.id == ID_CLUSTER {
            inCluster, cluster := false, 0;
          }
          assert rest[e.headerSize..] == data[bodyStart..];
          offset := bodyStart;
          continue;
        }
        if e.size == UNKNOWN_SIZE || Wrap64(bodyStart + e.size) > |data| {
          return false;
        }
        var bodyEnd := bodyStart + e.size;
        SliceOfRest(data, offset, e.headerSize, e.size);
        var accepted := ReadBody(e.id, data[bodyStart..bodyEnd]);
        if !accepted {
          return false;
        }
        offset := bodyEnd;
      }
      assert data[offset..] == [];
      WalkEnd(State());
      return true;
    }

    method ReadBody(id: u32, body: seq<byte>) returns (ok: bool)
      requires |body| <= MAX_SLICE
      modifies this
      ensures ok == ReadElementBody(old(State()), id, body).Some?
      ensures ok ==> ReadElementBody(old(State()), id, body) == Some(State())
    {
      hide Children;
      hide ReadBlock;
      hide ReadTrackEntry;
      hide BeValue;
      hide LastChild;
      NoChild(ID_TIMECODE_SCALE);
      NoChild(ID_BLOCK);
      NoChild(ID_BLOCK_DURATION);
      if id == ID_INFO {
        var children := EachChild(body);
        if children == None {
          return false;
        }
        for i := 0 to |children.value|
          invariant State() == old(State()).(scale := UintChild(children.value[..i], ID_TIMECODE_SCALE, old(scale)))
        {
          LastChildStep(children.value, i, ID_TIMECODE_SCALE);
          if children.value[i].id == ID_TIMECODE_SCALE {
            scale := ReadUint(children.value[i].body);
          }
        }
        assert children.value[..|children.value|] == children.value;
        return true;
      } else if id == ID_TRACK_ENTRY {
        ok := TrackEntry(body);
      } else if id == ID_TIMECODE {
        var timecode := ReadUint(body);
        cluster, inCluster := timecode, true;
        return true;
      } else if id == ID_SIMPLE_BLOCK {
        ok := Block(body, 0, false);
      } else if id == ID_BLOCK_GROUP {
        var children := EachChild(body);
        if children == None {
          return false;
        }
        var block: Option<seq<byte>> := None;
        var duration, hasDuration := 0, false;
        for i := 0 to |children.value|
          invariant State() == old(State())
          invariant block == LastChild(children.value[..i], ID_BLOCK)
          invariant hasDuration == LastChild(children.value[..i], ID_BLOCK_DURATION).Some?
          invariant hasDuration ==> duration == UintOf(LastChild(children.value[..i], ID_BLOCK_DURATION).value)
        {
          var child := children.value[i];
          LastChildStep(children.value, i, ID_BLOCK);
          LastChildStep(children.value, i, ID_BLOCK_DURATION);
          if child.id == ID_BLOCK {
            block := Some(child.body);
          } else if child.id == ID_BLOCK_DURATION {
            duration := ReadUint(child.body);
            hasDuration := true;
          }
        }
        assert children.value[..|children.value|] == children.value;
        if block == None {
          return false;
        }
        ok := Block(block.value, duration, hasDuration);
      } else {
        return true;
      }
    }

    method TrackEntry(body: seq<byte>) returns (ok: bool)
      requires |body| <= MAX_SLICE
      modifies this`audio
      ensures ok == ReadTrackEntry(old(State()), body).Some?
      ensures ok ==> ReadTrackEntry(old(State()), body) == Some(State())
    {
      hide Children;
      var children := EachChild(body);
      if children == None {
        return false;
      }
      var track, trackType: u64 := AudioTrack(0, [], 0), 0;
      for i := 0 to |children.value|
        invariant State() == old(State())
        invariant track == TrackOf(children.value[..i])
        invariant trackType == UintChild(children.value[..i], ID_TRACK_TYPE, 0)
      {
        var child := children.value[i];
        LastChildStep(children.value, i, ID_TRACK_NUMBER);
        LastChildStep(children.value, i, ID_TRACK_TYPE);
        LastChildStep(children.value, i, ID_CODEC_ID);
        LastChildStep(children.value, i, ID_DEFAULT_DURATION);
        if child.id == ID_TRACK_NUMBER {
          var number := ReadUint(child.body);
          track := track.(number := number);
        } else if child.id == ID_TRACK_TYPE {
          trackType := ReadUint(child.body);
        } else if child.id == ID_CODEC_ID {
          track := track.(codec := child.body);
        } else if child.id == ID_DEFAULT_DURATION {
          var duration := ReadUint(child.body);
          track := track.(defaultDuration := duration);
        }
      }
      assert children.value[..|children.value|] == children.value;
      if trackType != 2 {
        return true;
      }
      if audio.Some? {
        return false;
      }
      audio := Some(track);
      return true;
    }

    method Block(body: seq<byte>, groupDuration: u64, hasGroupDuration: bool) returns (ok: bool)
      modifies this`start, this`end, this`blocks
      ensures var outcome := ReadBlock(old(State()), body, if hasGroupDuration then Some(groupDuration) else None);
              var next := Record(old(State()), outcome);
              ok == next.Some? && (ok ==> next == Some(State()))
    {
      hide ParseVint;
      hide OpusPacketDuration;
      hide Ticks;
      hide Signed64;
      hide Wrap64;
      hide Mul64;
      if audio == None {
        return false;
      }
      var number := ReadVint(body, false);
      if number == None || |body| < number.value.length + 3 {
        return false;
      }
      var n := number.value.length;
      if number.value.value != audio.value.number {
        return true;
      }
      if !inCluster {
        return false;
      }
      var relative := Signed16(Be16(body[n..]));
      var lacing := body[n + 2] / 2 % 4;
      var frames := body[n + 3..];
      if scale == 0 {
        return false;
      }
      var ticks := Signed64(Signed64(cluster) + relative);
      TicksAgree(cluster, relative);
      if ticks < 0 {
        return false;
      }
      var product := Mul64(ticks, scale);
      if product.0 != 0 {
        return false;
      }
      var from := product.1;
      var duration: u64;
      if hasGroupDuration {
        var scaled := Mul64(groupDuration, scale);
        if scaled.0 != 0 {
          return false;
        }
        duration := scaled.1;
      } else if lacing == 0 && audio.value.defaultDuration > 0 {
        duration := audio.value.defaultDuration;
      } else if lacing != 0 && audio.value.defaultDuration > 0 && |frames| > 0 {
        duration := Wrap64(audio.value.defaultDuration * (frames[0] as int + 1));
        LacingProduct(audio.value.defaultDuration, frames[0], from);
      } else if lacing == 0 && audio.value.codec == OPUS_CODEC {
        var packet := OpusDuration(frames);
        if packet == None {
          return false;
        }
        duration := packet.value;
      } else {
        return false;
      }
      if blocks == 0 || from < start {
        start := from;
      }
      end := Max(end, Wrap64(from + duration));
      blocks := blocks + 1;
      return true;
    }
  }

  method MatroskaDuration(data: seq<byte>) returns (r: Option<(u64, u64)>)
    requires |data| <= MAX_SLICE
    ensures r == Duration(data)
  {
    hide ParseElement;
    hide Children;
    hide Walk;
    hide LastChild;
    NoChild(ID_DOC_TYPE);
    var header := ReadElement(data);
    if header == None || header.value.id != ID_EBML || header.value.size == UNKNOWN_SIZE ||
       Wrap64(header.value.headerSize + header.value.size) > |data| {
      return None;
    }
    var bodyEnd := header.value.headerSize + header.value.size;
    var children := EachChild(data[header.value.headerSize..bodyEnd]);
    if children == None {
      return None;
    }
    var docType: seq<byte> := [];
    for i := 0 to |children.value|
      invariant docType == match LastChild(children.value[..i], ID_DOC_TYPE) case None => [] case Some(t) => t
    {
      LastChildStep(children.value, i, ID_DOC_TYPE);
      if children.value[i].id == ID_DOC_TYPE {
        docType := children.value[i].body;
      }
    }
    assert children.value[..|children.value|] == children.value;
    if docType != WEBM && docType != MATROSKA {
      return None;
    }
    var reader := new MatroskaReader();
    var ok := reader.ReadStream(data[bodyEnd..]);
    if !ok || reader.blocks == 0 {
      return None;
    }
    return Some((Wrap64(reader.end - reader.start), NANOSECONDS));
  }
}
