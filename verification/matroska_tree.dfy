// Why a flat walk may ignore the sizes of Segment, Tracks and Cluster: it reads
// every EBML tree in the order a recursive reader would.

module MatroskaTree {
  import opened Base
  import opened Words
  import opened Ebml
  import opened Matroska

  /**
   * An EBML tree. A container's size field is written in `sizeLength` bytes and
   * is either the unknown size or a number; a leaf's is its body's length.
   */
  datatype Tree =
    | Container(id: u32, sizeLength: nat, size: Option<nat>, children: seq<Tree>)
    | Leaf(id: u32, sizeLength: nat, body: seq<byte>)

  /** Sizes fit their fields, ids are spellable, and containers are the three read in place. */
  predicate Encodable(t: Tree)
  {
    && 1 <= t.sizeLength <= 8
    && IdLength(t.id) > 0
    && match t
       case Container(id, length, size, children) =>
         InPlace(id) && (size.Some? ==> size.value < VintLimit(length)) && EncodableForest(children)
       case Leaf(id, length, body) => !InPlace(id) && |body| < VintLimit(length) - 1
  }

  predicate EncodableForest(forest: seq<Tree>)
  {
    forall t | t in forest :: Encodable(t)
  }

  /** An unknown size is all ones (section 6.2 of RFC 8794). */
  function SizeField(t: Tree): (v: nat)
    requires Encodable(t)
    ensures v < VintLimit(t.sizeLength)
  {
    match t
    case Container(_, length, None, _) => VintLimit(length) - 1
    case Container(_, length, Some(n), _) => n
    case Leaf(_, length, body) => |body|
  }

  function EncodeTree(t: Tree): seq<byte>
    requires Encodable(t)
    decreases t, 0
  {
    EncodeId(t.id) + (EncodeVint(SizeField(t), t.sizeLength) +
                      match t case Container(_, _, _, children) => EncodeForest(children) case Leaf(_, _, body) => body)
  }

  function EncodeForest(forest: seq<Tree>): seq<byte>
    requires EncodableForest(forest)
    decreases forest
  {
    if forest == [] then [] else EncodeTree(forest[0]) + EncodeForest(forest[1..])
  }

  /** The recursive pre-order reading: a container is entered, then its children are read. */
  function ReadTree(r: Reader, t: Tree): Option<Reader>
    decreases t, 0
  {
    match t
    case Container(id, _, _, children) => ReadForest(EnterContainer(r, id), children)
    case Leaf(id, _, body) => ReadElementBody(r, id, body)
  }

  function ReadForest(r: Reader, forest: seq<Tree>): Option<Reader>
    decreases forest
  {
    if forest == [] then Some(r)
    else
      match ReadTree(r, forest[0])
      case None => None
      case Some(next) => ReadForest(next, forest[1..])
  }

  // ----- the flat walk is the recursive reading -----

  /** An encoded header is read back: the id, and the size unless it is all ones. */
  lemma HeaderRoundTrip(t: Tree, rest: seq<byte>)
    requires Encodable(t)
    ensures var header := EncodeId(t.id) + EncodeVint(SizeField(t), t.sizeLength);
            var size := if SizeField(t) == VintLimit(t.sizeLength) - 1 then UNKNOWN_SIZE else SizeField(t);
            && size < U64 && ParseElement(header + rest) == Some(Element(t.id, size, |header|))
            && (t.Leaf? ==> size == |t.body| != UNKNOWN_SIZE)
  {
    hide EncodeId;
    hide EncodeVint;
    HeaderReadsBack(t.id, SizeField(t), t.sizeLength, rest);
    LimitAtMost(t.sizeLength);
  }

  lemma WalkAfterHeader(r: Reader, t: Tree, rest: seq<byte>)
    requires Encodable(t)
    ensures Walk(r, EncodeTree(t) + rest) ==
            match t
            case Container(id, _, _, children) => Walk(EnterContainer(r, id), EncodeForest(children) + rest)
            case Leaf(id, _, body) =>
              match ReadElementBody(r, id, body) case None => None case Some(next) => Walk(next, rest)
  {
    hide ParseElement;
    hide ReadElementBody;
    hide Walk;
    hide EncodeForest;
    hide EncodeVint;
    hide EncodeId;
    hide VintLimit;
    var header := EncodeId(t.id) + EncodeVint(SizeField(t), t.sizeLength);
    var inside := if t.Container? then EncodeForest(t.children) else t.body;
    var data := EncodeTree(t) + rest;
    assert data == header + (inside + rest);
    HeaderRoundTrip(t, inside + rest);
    WalkStep(r, data);
    assert data[|header|..] == inside + rest;
    match t {
      case Container(id, _, _, children) =>
        assert InPlace(id) && inside == EncodeForest(children);
      case Leaf(id, _, body) =>
        assert data[|header|..|header| + |body|] == body;
        assert data[|header| + |body|..] == rest;
    }
  }

  lemma {:induction false} WalkTree(r: Reader, t: Tree, rest: seq<byte>)
    requires Encodable(t)
    ensures Walk(r, EncodeTree(t) + rest) ==
            match ReadTree(r, t) case None => None case Some(next) => Walk(next, rest)
    decreases t, 0
  {
    hide Walk;
    hide ReadElementBody;
    hide EncodeTree;
    WalkAfterHeader(r, t, rest);
    if t.Container? {
      WalkForestThen(EnterContainer(r, t.id), t.children, rest);
    }
  }

  lemma {:induction false} WalkForestThen(r: Reader, forest: seq<Tree>, rest: seq<byte>)
    requires EncodableForest(forest)
    ensures Walk(r, EncodeForest(forest) + rest) ==
            match ReadForest(r, forest) case None => None case Some(next) => Walk(next, rest)
    decreases forest
  {
    hide Walk;
    hide ReadTree;
    hide EncodeTree;
    if forest == [] {
      assert EncodeForest(forest) + rest == rest;
    } else {
      var tail := EncodeForest(forest[1..]) + rest;
      assert EncodeForest(forest) + rest == EncodeTree(forest[0]) + tail;
      WalkTree(r, forest[0], tail);
      if ReadTree(r, forest[0]).Some? {
        WalkForestThen(ReadTree(r, forest[0]).value, forest[1..], rest);
      }
    }
  }

  /**
   * The flat walk of any encoded forest ends exactly where the recursive reading
   * does. Nothing is asked of the containers' sizes: true, unknown or wrong.
   */
  lemma WalkReadsTheTree(r: Reader, forest: seq<Tree>)
    requires EncodableForest(forest)
    ensures Walk(r, EncodeForest(forest)) == ReadForest(r, forest)
  {
    hide ReadForest;
    hide Step;
    WalkForestThen(r, forest, []);
    assert EncodeForest(forest) + [] == EncodeForest(forest);
    if ReadForest(r, forest).Some? {
      WalkEnd(ReadForest(r, forest).value);
    }
  }

  // ----- the elements of a tree -----

  /** What the walk meets in a tree: each container's start, then its contents. */
  function ItemsOfTree(t: Tree): seq<Item>
    decreases t, 0
  {
    match t
    case Container(id, _, _, children) => [Enter(id)] + ItemsOfForest(children)
    case Leaf(id, _, body) => [Whole(id, body)]
  }

  function ItemsOfForest(forest: seq<Tree>): seq<Item>
    decreases forest
  {
    if forest == [] then [] else ItemsOfTree(forest[0]) + ItemsOfForest(forest[1..])
  }

  lemma ScanHeader(t: Tree, rest: seq<byte>)
    requires Encodable(t)
    ensures Scan(EncodeTree(t) + rest) ==
            if t.Container? then Prefixed([Enter(t.id)], Scan(EncodeForest(t.children) + rest))
            else Prefixed([Whole(t.id, t.body)], Scan(rest))
  {
    hide ParseElement;
    hide EncodeForest;
    hide EncodeVint;
    hide EncodeId;
    hide VintLimit;
    var header := EncodeId(t.id) + EncodeVint(SizeField(t), t.sizeLength);
    var inside := if t.Container? then EncodeForest(t.children) else t.body;
    var data := EncodeTree(t) + rest;
    assert data == header + (inside + rest);
    HeaderRoundTrip(t, inside + rest);
    assert data[|header|..] == inside + rest;
    if t.Leaf? {
      assert data[|header|..|header| + |t.body|] == t.body;
      assert data[|header| + |t.body|..] == rest;
    }
  }

  lemma {:induction false} ScanTree(t: Tree, rest: seq<byte>)
    requires Encodable(t)
    ensures Scan(EncodeTree(t) + rest) == Prefixed(ItemsOfTree(t), Scan(rest))
    decreases t, 0
  {
    hide Scan;
    hide EncodeTree;
    ScanHeader(t, rest);
    if t.Container? {
      ScanForest(t.children, rest);
      PrefixedTwice([Enter(t.id)], ItemsOfForest(t.children), Scan(rest));
    }
  }

  lemma {:induction false} ScanForest(forest: seq<Tree>, rest: seq<byte>)
    requires EncodableForest(forest)
    ensures Scan(EncodeForest(forest) + rest) == Prefixed(ItemsOfForest(forest), Scan(rest))
    decreases forest
  {
    hide Scan;
    hide EncodeTree;
    hide ItemsOfTree;
    if forest == [] {
      assert EncodeForest(forest) + rest == rest;
      PrefixedEmpty(Scan(rest));
    } else {
      var tail := EncodeForest(forest[1..]) + rest;
      assert EncodeForest(forest) + rest == EncodeTree(forest[0]) + tail;
      ScanTree(forest[0], tail);
      ScanForest(forest[1..], rest);
      PrefixedTwice(ItemsOfTree(forest[0]), ItemsOfForest(forest[1..]), Scan(rest));
    }
  }

  lemma PrefixedTwice<T>(a: seq<T>, b: seq<T>, rest: Option<seq<T>>)
    ensures Prefixed(a, Prefixed(b, rest)) == Prefixed(a + b, rest)
  {
    if rest.Some? {
      assert a + (b + rest.value) == a + b + rest.value;
    }
  }

  /** Scanning undoes encoding, whatever the containers' sizes. */
  lemma ScanReadsTheTree(forest: seq<Tree>)
    requires EncodableForest(forest)
    ensures Scan(EncodeForest(forest)) == Some(ItemsOfForest(forest))
  {
    hide EncodeForest;
    hide ItemsOfForest;
    ScanForest(forest, []);
    assert EncodeForest(forest) + [] == EncodeForest(forest);
    assert Scan([]) == Some([]);
    assert ItemsOfForest(forest) + [] == ItemsOfForest(forest);
  }

  // ----- a whole document -----

  /** An EBML header that says WebM. */
  function WebmHeader(): seq<byte>
  {
    assert VintLimit(1) == 0x80;
    WriteChildren([Written(Child(ID_EBML, DocTypeBody()), 1)])
  }

  function DocTypeBody(): (r: seq<byte>)
    ensures |r| == 7
  {
    assert VintLimit(1) == 0x80;
    var docType := [Written(Child(ID_DOC_TYPE, WEBM), 1)];
    assert docType[1..] == [] && WriteChildren([]) == [];
    assert WriteChildren(docType) == WriteChild(docType[0]) + [];
    WriteChildren(docType)
  }

  lemma DocumentPayload(stream: seq<byte>)
    ensures Payload(WebmHeader() + stream) == Some(stream)
  {
    hide ParseElement;
    hide EncodeId;
    hide EncodeVint;
    hide Children;
    assert VintLimit(1) == 0x80;
    var docType := [Written(Child(ID_DOC_TYPE, WEBM), 1)];
    var body := DocTypeBody();
    ChildrenRoundTrip(docType);
    assert ChildrenOf(docType) == [Child(ID_DOC_TYPE, WEBM)];
    var header := EncodeId(ID_EBML) + EncodeVint(|body|, 1);
    var outer := [Written(Child(ID_EBML, body), 1)];
    assert outer[1..] == [];
    assert WebmHeader() == header + body;
    HeaderReadsBack(ID_EBML, |body|, 1, body + stream);
    var data := WebmHeader() + stream;
    assert data == header + (body + stream);
    assert data[|header|..|header| + |body|] == body && data[|header| + |body|..] == stream;
  }

  // ----- known and unknown sizes read alike -----

  /** The same elements in the same order and nesting, whatever their size fields. */
  predicate SameContents(a: Tree, b: Tree)
  {
    match (a, b)
    case (Container(i, _, _, cs), Container(j, _, _, ds)) => i == j && SameForests(cs, ds)
    case (Leaf(i, _, body), Leaf(j, _, other)) => i == j && body == other
    case _ => false
  }

  predicate SameForests(a: seq<Tree>, b: seq<Tree>)
  {
    if a == [] then b == [] else b != [] && SameContents(a[0], b[0]) && SameForests(a[1..], b[1..])
  }

  lemma {:induction false} SameTreesReadAlike(r: Reader, a: Tree, b: Tree)
    requires SameContents(a, b)
    ensures ReadTree(r, a) == ReadTree(r, b)
    decreases a, 0
  {
    if a.Container? {
      SameForestsReadAlike(EnterContainer(r, a.id), a.children, b.children);
    }
  }

  lemma {:induction false} SameForestsReadAlike(r: Reader, a: seq<Tree>, b: seq<Tree>)
    requires SameForests(a, b)
    ensures ReadForest(r, a) == ReadForest(r, b)
    decreases a
  {
    if a != [] {
      SameTreesReadAlike(r, a[0], b[0]);
      if ReadTree(r, a[0]).Some? {
        SameForestsReadAlike(ReadTree(r, a[0]).value, a[1..], b[1..]);
      }
    }
  }

  /** A stream with unknown sizes is measured as the same stream with true ones. */
  lemma SizesDoNotMatter(r: Reader, a: seq<Tree>, b: seq<Tree>)
    requires EncodableForest(a) && EncodableForest(b) && SameForests(a, b)
    ensures Walk(r, EncodeForest(a)) == Walk(r, EncodeForest(b))
  {
    WalkReadsTheTree(r, a);
    WalkReadsTheTree(r, b);
    SameForestsReadAlike(r, a, b);
  }

  // ----- a reader that trusts the sizes -----

  /**
   * The reading that section 6.2 of RFC 8794 describes: a container of known
   * size is exactly the elements inside it, one of unknown size runs on. It
   * refuses a container that overruns or whose contents do not fill it.
   */
  function ReadBySize(r: Reader, data: seq<byte>): Option<Reader>
    decreases |data|
  {
    if data == [] then Some(r)
    else
      match ParseElement(data)
      case None => None
      case Some(e) =>
        var inside := EnterContainer(r, e.id);
        if InPlace(e.id) && e.size == UNKNOWN_SIZE then ReadBySize(inside, data[e.headerSize..])
        else if e.size == UNKNOWN_SIZE || e.headerSize + e.size > |data| then None
        else
          var body := data[e.headerSize..e.headerSize + e.size];
          match if InPlace(e.id) then ReadBySize(inside, body) else ReadElementBody(r, e.id, body)
          case None => None
          case Some(next) => ReadBySize(next, data[e.headerSize + e.size..])
  }

  /** A header is read from its own bytes alone. */
  lemma VintIsPrefix(data: seq<byte>, more: seq<byte>, keep: bool)
    requires ParseVint(data, keep).Some?
    ensures ParseVint(data + more, keep) == ParseVint(data, keep)
  {
    var n := ParseVint(data, keep).value.length;
    assert (data + more)[1..n] == data[1..n];
  }

  lemma ElementIsPrefix(data: seq<byte>, more: seq<byte>)
    requires ParseElement(data).Some?
    ensures ParseElement(data + more) == ParseElement(data)
  {
    var n := ParseVint(data, true).value.length;
    VintIsPrefix(data, more, true);
    assert (data + more)[n..] == data[n..] + more;
    VintIsPrefix(data[n..], more, false);
  }

  lemma BodyAndRest(data: seq<byte>, more: seq<byte>, start: nat, size: nat)
    requires start + size <= |data|
    ensures var body, rest := data[start..start + size], data[start + size..];
            && data[start..] + more == body + (rest + more)
            && (data + more)[start..start + size] == body && (data + more)[start + size..] == rest + more
  {
  }

  /** The flat walk passes through every region the sizes delimit. */
  lemma {:induction false} WalkThroughRegion(r: Reader, data: seq<byte>, more: seq<byte>)
    requires ReadBySize(r, data).Some?
    ensures Walk(r, data + more) == Walk(ReadBySize(r, data).value, more)
    decreases |data|
  {
    hide Walk;
    hide ParseElement;
    hide ReadElementBody;
    if data == [] {
      assert data + more == more;
    } else {
      var e := ParseElement(data).value;
      var inside := EnterContainer(r, e.id);
      ElementIsPrefix(data, more);
      WalkStep(r, data + more);
      assert (data + more)[e.headerSize..] == data[e.headerSize..] + more;
      if InPlace(e.id) && e.size == UNKNOWN_SIZE {
        WalkThroughRegion(inside, data[e.headerSize..], more);
      } else {
        var body, rest := data[e.headerSize..e.headerSize + e.size], data[e.headerSize + e.size..];
        BodyAndRest(data, more, e.headerSize, e.size);
        if InPlace(e.id) {
          WalkThroughRegion(inside, body, rest + more);
          WalkThroughRegion(ReadBySize(inside, body).value, rest, more);
        } else {
          WalkThroughRegion(ReadElementBody(r, e.id, body).value, rest, more);
        }
      }
    }
  }

  /** On any bytes at all: what a size-trusting reader accepts, the walk reads to the same state. */
  lemma WalkAgreesWithSizes(r: Reader, data: seq<byte>)
    requires ReadBySize(r, data).Some?
    ensures Walk(r, data) == ReadBySize(r, data)
  {
    hide ParseElement;
    hide ReadElementBody;
    WalkThroughRegion(r, data, []);
    assert data + [] == data;
    WalkEnd(ReadBySize(r, data).value);
  }
}
