// The Ogg duration of internal/audioprobe/ogg.go: one logical stream's last
// granule position less its pre-skip.

module Ogg {
  import opened Base
  import opened Words

  const OGGS: seq<byte> := [0x4f, 0x67, 0x67, 0x53]
  const OPUS_HEAD: seq<byte> := [0x4f, 0x70, 0x75, 0x73, 0x48, 0x65, 0x61, 0x64]
  const VORBIS: seq<byte> := [0x01, 0x76, 0x6f, 0x72, 0x62, 0x69, 0x73]
  const OGG_FLAC: seq<byte> := [0x7f, 0x46, 0x4c, 0x41, 0x43]
  const NATIVE_FLAC: seq<byte> := [0x66, 0x4c, 0x61, 0x43]

  /** The granule position of a page on which no packet ends. */
  const NO_GRANULE: u64 := 0xffff_ffff_ffff_ffff

  /** A page: all its bytes, the packet data in it, and the header fields that are read. */
  datatype Page = Page(raw: seq<byte>, body: seq<byte>, serial: u32, begins: bool, granule: u64)

  function LaceSum(laces: seq<byte>): nat
  {
    if laces == [] then 0 else LaceSum(laces[..|laces| - 1]) + laces[|laces| - 1]
  }

  /** The page at the start of some bytes (section 6 of RFC 3533). */
  function ParsePage(data: seq<byte>): (page: Option<Page>)
    ensures page.Some? ==> 27 <= |page.value.raw| <= |data| && page.value.raw == data[..|page.value.raw|]
  {
    if |data| < 27 || data[..4] != OGGS || data[4] != 0 then None
    else
      var segments: nat := data[26];
      if |data| < 27 + segments then None
      else
        var end := 27 + segments + LaceSum(data[27..27 + segments]);
        if end > |data| then None
        else Some(Page(data[..end], data[27 + segments..end], Le32(data[14..]), data[5] / 2 % 2 == 1, Le64(data[6..])))
  }

  /** The pages that tile a file. */
  function Pages(data: seq<byte>): Option<seq<Page>>
    decreases |data|
  {
    if data == [] then Some([])
    else
      match ParsePage(data)
      case None => None
      case Some(page) => Prefixed([page], Pages(data[|page.raw|..]))
  }

  /** Granule rate and pre-skip of the first packet's codec: Opus, Vorbis or FLAC. */
  function Codec(packet: seq<byte>): Option<(u64, u64)>
  {
    if |packet| >= 19 && packet[..8] == OPUS_HEAD then Some((48_000, Le16(packet[10..])))
    else if |packet| >= 30 && packet[..7] == VORBIS then Some((Le32(packet[12..]), 0))
    else if |packet| >= 51 && packet[..5] == OGG_FLAC && packet[9..13] == NATIVE_FLAC then
      var rate := StreamInfoRate(packet[17..51]);
      if rate == 0 then None else Some((rate, 0))
    else None
  }

  /** The 20-bit sample rate of a FLAC STREAMINFO body. */
  function StreamInfoRate(info: seq<byte>): nat
    requires |info| >= 13
  {
    (info[10] as int) * 0x1000 + (info[11] as int) * 0x10 + (info[12] as int) / 0x10
  }

  /** What the page loop has seen. */
  datatype Stream = Stream(found: bool, serial: u32, rate: u64, preSkip: u64, granule: Option<u64>)

  const NO_STREAM := Stream(false, 0, 0, 0, None)

  function VisitPage(s: Stream, page: Page): Option<Stream>
  {
    var begun :=
      if !page.begins then if s.found then Some(s) else None
      else if s.found then None
      else
        match Codec(page.body)
        case None => None
        case Some((rate, preSkip)) => Some(Stream(true, page.serial, rate, preSkip, s.granule));
    match begun
    case None => None
    case Some(b) =>
      if page.serial != b.serial then None
      else if page.granule == NO_GRANULE then Some(b)
      else Some(b.(granule := Some(page.granule)))
  }

  function VisitPages(s: Stream, pages: seq<Page>): Option<Stream>
    decreases |pages|
  {
    if pages == [] then Some(s)
    else
      match VisitPage(s, pages[0])
      case None => None
      case Some(next) => VisitPages(next, pages[1..])
  }

  /** The loop over a whole file: tiling and visiting at once. */
  function VisitFile(s: Stream, data: seq<byte>): Option<Stream>
  {
    match Pages(data)
    case None => None
    case Some(pages) => VisitPages(s, pages)
  }

  function Duration(data: seq<byte>): Option<(u64, u64)>
  {
    match VisitFile(NO_STREAM, data)
    case None => None
    case Some(s) =>
      if s.granule == None || s.granule.value <= s.preSkip then None
      else Some((s.granule.value - s.preSkip, s.rate))
  }

  lemma VisitFileStep(s: Stream, data: seq<byte>)
    requires data != []
    ensures VisitFile(s, data) ==
            match ParsePage(data)
            case None => None
            case Some(page) =>
              match VisitPage(s, page) case None => None case Some(next) => VisitFile(next, data[|page.raw|..])
  {
    hide ParsePage;
    hide VisitPage;
    if Pages(data).Some? {
      var rest := Pages(data[|ParsePage(data).value.raw|..]).value;
      assert Pages(data).value[1..] == rest;
    }
  }

  method BodyLength(laces: seq<byte>) returns (n: nat)
    ensures n == LaceSum(laces)
  {
    n := 0;
    for i := 0 to |laces|
      invariant n == LaceSum(laces[..i])
    {
      assert laces[..i + 1][..i] == laces[..i];
      n := n + laces[i];
    }
    assert laces[..|laces|] == laces;
  }

  method OggDuration(data: seq<byte>) returns (r: Option<(u64, u64)>)
    requires |data| <= MAX_SLICE
    ensures r == Duration(data)
  {
    hide VisitFile;
    hide LaceSum;
    hide Le32;
    hide Le64;
    hide Codec;
    var serial: u32, found, rate: u64, preSkip: u64 := 0, false, 0, 0;
    var lastGranule: u64, granuleCarried := 0, false;
    var offset := 0;
    assert data[0..] == data;
    while offset < |data|
      invariant 0 <= offset <= |data|
      invariant granuleCarried ==> found
      invariant VisitFile(Stream(found, serial, rate, preSkip, if granuleCarried then Some(lastGranule) else None),
                          data[offset..]) == VisitFile(NO_STREAM, data)
      decreases |data| - offset
    {
      var page := data[offset..];
      VisitFileStep(Stream(found, serial, rate, preSkip, if granuleCarried then Some(lastGranule) else None), page);
      if |page| < 27 || page[..4] != OGGS || page[4] != 0 {
        return None;
      }
      var segments: nat := page[26];
      if |page| < 27 + segments {
        return None;
      }
      var bodyLength := BodyLength(page[27..27 + segments]);
      var end := 27 + segments + bodyLength;
      if end > |page| {
        return None;
      }
      var body := page[27 + segments..end];
      var pageSerial := Le32(page[14..]);
      if page[5] / 2 % 2 == 1 {
        if found {
          return None;
        }
        var codec := Codec(body);
        if codec == None {
          return None;
        }
        rate, preSkip := codec.value.0, codec.value.1;
        serial, found := pageSerial, true;
      } else if !found {
        return None;
      }
      if pageSerial != serial {
        return None;
      }
      var granule := Le64(page[6..]);
      if granule != NO_GRANULE {
        lastGranule, granuleCarried := granule, true;
      }
      assert page[end..] == data[offset + end..];
      offset := offset + end;
    }
    assert data[offset..] == [];
    EmptyFile(Stream(found, serial, rate, preSkip, if granuleCarried then Some(lastGranule) else None));
    if !found || !granuleCarried {
      return None;
    }
    if lastGranule <= preSkip {
      return None;
    }
    return Some((lastGranule - preSkip, rate));
  }

  lemma EmptyFile(s: Stream)
    ensures VisitFile(s, []) == Some(s)
  {
  }

  // ----- what acceptance means -----

  function RawBytes(pages: seq<Page>): seq<byte>
  {
    if pages == [] then [] else pages[0].raw + RawBytes(pages[1..])
  }

  /** A page is read from its own bytes alone. */
  lemma PageAlone(data: seq<byte>)
    requires ParsePage(data).Some?
    ensures ParsePage(ParsePage(data).value.raw) == ParsePage(data)
  {
    hide LaceSum;
    var page := ParsePage(data).value;
    var raw := page.raw;
    var segments: nat := data[26];
    assert raw[..4] == data[..4] && raw[4] == data[4] && raw[26] == data[26] && raw[5] == data[5];
    assert raw[27..27 + segments] == data[27..27 + segments];
    assert raw[27 + segments..|raw|] == data[27 + segments..|raw|];
    assert raw[..|raw|] == raw;
    assert raw[14..][..4] == data[14..][..4] && raw[6..][..8] == data[6..][..8];
    SameLe(raw[14..], data[14..]);
    SameLe64(raw[6..], data[6..]);
  }

  lemma SameLe(a: seq<byte>, b: seq<byte>)
    requires |a| >= 4 && |b| >= 4 && a[..4] == b[..4]
    ensures Le32(a) == Le32(b)
  {
    assert forall i | 0 <= i < 4 :: a[i] == a[..4][i] && b[i] == b[..4][i];
  }

  lemma SameLe64(a: seq<byte>, b: seq<byte>)
    requires |a| >= 8 && |b| >= 8 && a[..8] == b[..8]
    ensures Le64(a) == Le64(b)
  {
    assert a[..4] == a[..8][..4] && b[..4] == b[..8][..4];
    assert a[4..][..4] == a[..8][4..] && b[4..][..4] == b[..8][4..];
    SameLe(a, b);
    SameLe(a[4..], b[4..]);
  }

  /** The pages of an accepted file are all of its bytes, and each is a page on its own. */
  lemma {:induction false} PagesTile(data: seq<byte>)
    requires Pages(data).Some?
    ensures RawBytes(Pages(data).value) == data
    ensures forall page | page in Pages(data).value :: page.raw != [] && ParsePage(page.raw) == Some(page)
    decreases |data|
  {
    hide ParsePage;
    if data != [] {
      var page := ParsePage(data).value;
      var rest := data[|page.raw|..];
      PagesTile(rest);
      PageAlone(data);
      assert Pages(data).value == [page] + Pages(rest).value;
      assert Pages(data).value[1..] == Pages(rest).value;
      assert data == page.raw + rest;
    }
  }

  /** One logical stream: the first page alone begins it, and all pages carry its serial. */
  predicate OneStream(pages: seq<Page>)
  {
    && pages != []
    && forall i | 0 <= i < |pages| :: (pages[i].begins <==> i == 0) && pages[i].serial == pages[0].serial
  }

  /** The last granule position a page carries. */
  function LastGranule(pages: seq<Page>): (g: Option<u64>)
    ensures g == None <==> forall page | page in pages :: page.granule == NO_GRANULE
    ensures g.Some? ==> exists i | 0 <= i < |pages| ::
                          && pages[i].granule == g.value != NO_GRANULE
                          && forall j | i < j < |pages| :: pages[j].granule == NO_GRANULE
  {
    if pages == [] then None
    else
      var front, last := pages[..|pages| - 1], pages[|pages| - 1];
      assert pages == front + [last];
      if last.granule != NO_GRANULE then Some(last.granule) else LastGranule(front)
  }

  /** Once a stream has begun, the later pages only have to belong to it. */
  lemma {:induction false} LaterPages(s: Stream, pages: seq<Page>)
    requires s.found
    ensures VisitPages(s, pages) ==
            if forall page | page in pages :: !page.begins && page.serial == s.serial
            then Some(s.(granule := if LastGranule(pages).Some? then LastGranule(pages) else s.granule)) else None
    decreases |pages|
  {
    hide Codec;
    if pages != [] {
      var rest := pages[1..];
      assert pages[0] in pages && forall page | page in pages :: page == pages[0] || page in rest;
      if VisitPage(s, pages[0]).Some? {
        LaterPages(VisitPage(s, pages[0]).value, rest);
        LastGranuleOfRest(pages);
      }
    }
  }

  lemma {:induction false} LastGranuleOfRest(pages: seq<Page>)
    requires pages != []
    ensures LastGranule(pages) ==
            if LastGranule(pages[1..]).Some? then LastGranule(pages[1..])
            else if pages[0].granule == NO_GRANULE then None else Some(pages[0].granule)
    decreases |pages|
  {
    if |pages| > 1 {
      var front := pages[..|pages| - 1];
      assert pages[1..][..|pages| - 2] == front[1..];
      LastGranuleOfRest(front);
    }
  }

  /** The whole loop: the first page begins the stream, the others belong to it. */
  lemma AllPages(pages: seq<Page>)
    requires pages != []
    ensures VisitPages(NO_STREAM, pages) ==
            match Codec(pages[0].body)
            case None => None
            case Some((rate, preSkip)) =>
              if OneStream(pages) then Some(Stream(true, pages[0].serial, rate, preSkip, LastGranule(pages))) else None
  {
    hide Codec;
    hide LastGranule;
    var rest := pages[1..];
    assert forall i | 0 < i < |pages| :: pages[i] == rest[i - 1];
    LastGranuleOfRest(pages);
    if VisitPage(NO_STREAM, pages[0]).Some? {
      LaterPages(VisitPage(NO_STREAM, pages[0]).value, rest);
      if OneStream(pages) {
        assert forall page | page in rest :: !page.begins && page.serial == pages[0].serial;
      } else if forall page | page in rest :: !page.begins && page.serial == pages[0].serial {
        assert forall i | 0 <= i < |pages| :: (pages[i].begins <==> i == 0) && pages[i].serial == pages[0].serial;
        assert false;
      }
    }
  }

  /**
   * A file is measured exactly when its pages tile it as one stream of a known
   * codec, and by its last carried granule position less the pre-skip.
   */
  lemma MeasuredWhenOneStream(data: seq<byte>, units: u64, rate: u64)
    ensures Duration(data) == Some((units, rate)) <==>
            && Pages(data).Some?
            && var pages := Pages(data).value;
            && OneStream(pages)
            && var codec, granule := Codec(pages[0].body), LastGranule(pages);
            && codec.Some? && granule.Some?
            && rate == codec.value.0 && units == granule.value - codec.value.1 && units > 0
  {
    hide Codec;
    hide LastGranule;
    hide OneStream;
    hide ParsePage;
    hide VisitPage;
    if Pages(data).Some? {
      if Pages(data).value == [] {
        NoPages();
      } else {
        AllPages(Pages(data).value);
      }
    }
  }

  lemma NoPages()
    ensures !OneStream([]) && VisitPages(NO_STREAM, []) == Some(NO_STREAM)
  {
  }
}
