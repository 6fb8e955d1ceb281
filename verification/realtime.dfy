// Narrowing one model line's realtime and audio statements
// (internal/inventory/realtime.go, internal/contract/realtime_parameters.go).

module Intersections {
  import opened Base
  import opened Words
  import opened Ordering

  function Among<T(==)>(b: seq<T>): T -> bool
  {
    x => x in b
  }

  /** The values of a that are in b, in a's order. */
  function Intersect<T(==,!new)>(a: seq<T>, b: seq<T>): (r: seq<T>)
    ensures forall x :: x in r <==> x in a && x in b
  {
    Filter(Among(b), a)
  }

  method IntersectSorted<T(==,!new)>(a: seq<T>, b: seq<T>) returns (out: seq<T>)
    ensures out == Intersect(a, b)
  {
    out := [];
    assert a[0..] == a;
    for i := 0 to |a|
      invariant out + Filter(Among(b), a[i..]) == Intersect(a, b)
    {
      assert a[i..][1..] == a[i + 1..];
      if a[i] in b {
        assert out + ([a[i]] + Filter(Among(b), a[i + 1..])) == out + [a[i]] + Filter(Among(b), a[i + 1..]);
        out := out + [a[i]];
      }
    }
    assert out + [] == out;
  }

  lemma IntersectAssociative<T(!new)>(a: seq<T>, b: seq<T>, c: seq<T>)
    ensures Intersect(Intersect(a, b), c) == Intersect(a, Intersect(b, c))
  {
    FilterFilter(Among(b), Among(c), Among(Intersect(b, c)), a);
  }

  lemma IntersectStrict<T(!new)>(less: (T, T) -> bool, a: seq<T>, b: seq<T>)
    requires StrictBy(less, a)
    ensures StrictBy(less, Intersect(a, b))
  {
    FilterStrict(less, Among(b), a);
  }

  lemma IntersectCommutes<T(!new)>(less: (T, T) -> bool, a: seq<T>, b: seq<T>)
    requires StrictBy(less, a) && StrictBy(less, b) && Asymmetric(less)
    ensures Intersect(a, b) == Intersect(b, a)
  {
    IntersectStrict(less, a, b);
    IntersectStrict(less, b, a);
    UniqueStrict(less, Intersect(a, b), Intersect(b, a));
  }

  lemma IntersectSelf<T(!new)>(a: seq<T>)
    ensures Intersect(a, a) == a
  {
    FilterAll(Among(a), a);
  }

  /** Neighbouring repeats dropped, as `slices.Compact`. */
  function Compact(xs: seq<Text>): (r: seq<Text>)
    ensures forall x :: x in r <==> x in xs
  {
    if |xs| <= 1 then xs
    else
      assert xs == [xs[0]] + xs[1..];
      if xs[0] == xs[1] then Compact(xs[1..]) else [xs[0]] + Compact(xs[1..])
  }

  /** Compacting a sorted list lists each value once, increasing. */
  lemma {:induction false} CompactStrict(xs: seq<Text>)
    requires SortedBy(Itself(), xs)
    ensures StrictBy(Less, Compact(xs))
    decreases |xs|
  {
    if |xs| > 1 {
      CompactStrict(xs[1..]);
      if xs[0] != xs[1] {
        var r := Compact(xs[1..]);
        forall x | x in r
          ensures Less(xs[0], x)
        {
          assert x in xs[1..];
          var j :| 1 <= j < |xs| && xs[j] == x;
          assert !Less(Itself()(xs[1]), Itself()(xs[0]));
          assert j > 1 ==> !Less(Itself()(xs[j]), Itself()(xs[1]));
          LessTotal(xs[0], xs[1]);
          LessTotal(xs[1], x);
          if xs[1] != x {
            LessTransitive(xs[0], xs[1], x);
          }
        }
      }
    }
  }

  /** The values of two lists, sorted, each once. */
  function Union(a: seq<Text>, b: seq<Text>): (r: seq<Text>)
    ensures forall x :: x in r <==> x in a || x in b
  {
    var all := SortBy(Itself(), a + b);
    SameMembersOfSort(a + b);
    Compact(all)
  }

  lemma SameMembersOfSort(xs: seq<Text>)
    ensures forall x :: x in SortBy(Itself(), xs) <==> x in xs
  {
    forall x
      ensures x in SortBy(Itself(), xs) <==> x in xs
    {
      assert x in xs <==> x in multiset(xs);
      assert x in SortBy(Itself(), xs) <==> x in multiset(SortBy(Itself(), xs));
    }
  }

  lemma UnionStrict(a: seq<Text>, b: seq<Text>)
    ensures StrictBy(Less, Union(a, b))
  {
    SortBySorts(Itself(), a + b);
    CompactStrict(SortBy(Itself(), a + b));
  }

  /** A strictly increasing list is the only one with its members. */
  lemma OnlyStrict(a: seq<Text>, b: seq<Text>)
    requires StrictBy(Less, a) && StrictBy(Less, b) && forall x :: x in a <==> x in b
    ensures a == b
  {
    TextOrderIsAsymmetric();
    UniqueStrict(Less, a, b);
  }

  lemma UnionAssociative(a: seq<Text>, b: seq<Text>, c: seq<Text>)
    ensures Union(Union(a, b), c) == Union(a, Union(b, c))
  {
    hide Union;
    UnionStrict(Union(a, b), c);
    UnionStrict(a, Union(b, c));
    OnlyStrict(Union(Union(a, b), c), Union(a, Union(b, c)));
  }

  lemma UnionCommutes(a: seq<Text>, b: seq<Text>)
    ensures Union(a, b) == Union(b, a)
  {
    hide Union;
    UnionStrict(a, b);
    UnionStrict(b, a);
    OnlyStrict(Union(a, b), Union(b, a));
  }
}

module Realtime {
  import opened Base
  import opened Ordering
  import opened Intersections

  // ----- session parameters -----

  /** In the contract's order. */
  datatype TurnKind = NoDetection | ServerVad | SemanticVad

  datatype ToolChoice = Auto | NoTool | Required | Function

  datatype NumberRange = NumberRange(min: real, max: real)

  datatype Detection = Detection(
    kind: TurnKind, fixedResponses: bool, threshold: Option<NumberRange>, meteredUnits: seq<Text>)

  datatype Parameters = Parameters(
    turnDetection: seq<Detection>, outputModalities: seq<seq<Text>>, toolChoice: seq<ToolChoice>,
    maxOutputTokens: Option<int>, inputTranscriptionPrompt: bool)

  predicate KindBefore(a: TurnKind, b: TurnKind)
  {
    (a.NoDetection? && !b.NoDetection?) || (a.ServerVad? && b.SemanticVad?)
  }

  predicate DetectionBefore(a: Detection, b: Detection) { KindBefore(a.kind, b.kind) }

  function ToolRank(t: ToolChoice): nat
  {
    match t case Auto => 0 case NoTool => 1 case Required => 2 case Function => 3
  }

  predicate ToolBefore(a: ToolChoice, b: ToolChoice) { ToolRank(a) < ToolRank(b) }

  /** `slices.Compare` on lists of strings. */
  predicate ListBefore(a: seq<Text>, b: seq<Text>)
    decreases |a|
  {
    b != [] && (a == [] || Less(a[0], b[0]) || (a[0] == b[0] && ListBefore(a[1..], b[1..])))
  }

  lemma {:induction false} ListOrderIsAsymmetric(a: seq<Text>, b: seq<Text>)
    ensures !(ListBefore(a, b) && ListBefore(b, a))
    decreases |a|
  {
    if a != [] && b != [] {
      LessTotal(a[0], b[0]);
      ListOrderIsAsymmetric(a[1..], b[1..]);
    }
  }

  /** The parameters of one detection kind. */
  function DetectionOf(list: seq<Detection>, kind: TurnKind): (d: Option<Detection>)
    ensures d.Some? ==> d.value in list && d.value.kind == kind
    ensures d.None? ==> forall x | x in list :: x.kind != kind
  {
    if list == [] then None
    else
      assert list == [list[0]] + list[1..];
      if list[0].kind == kind then Some(list[0]) else DetectionOf(list[1..], kind)
  }

  /** The range inside both; absent is unbounded. */
  function TighterRange(a: Option<NumberRange>, b: Option<NumberRange>): Option<NumberRange>
  {
    match (a, b)
    case (None, _) => b
    case (_, None) => a
    case (Some(x), Some(y)) =>
      Some(NumberRange(if x.min >= y.min then x.min else y.min, if x.max <= y.max then x.max else y.max))
  }

  function MergeDetection(a: Detection, b: Detection): Detection
  {
    Detection(a.kind, a.fixedResponses || b.fixedResponses, TighterRange(a.threshold, b.threshold),
              Union(a.meteredUnits, b.meteredUnits))
  }

  function MergeDetections(a: seq<Detection>, b: seq<Detection>): seq<Detection>
  {
    if a == [] then []
    else
      match DetectionOf(b, a[0].kind)
      case None => MergeDetections(a[1..], b)
      case Some(theirs) => [MergeDetection(a[0], theirs)] + MergeDetections(a[1..], b)
  }

  /** A set of modalities is served when its sorted form is listed. */
  function Served(b: seq<seq<Text>>): seq<Text> -> bool
  {
    set_ => SortBy(Itself(), set_) in b
  }

  function Merge(a: Parameters, b: Parameters): Parameters
  {
    Parameters(
      MergeDetections(a.turnDetection, b.turnDetection),
      Filter(Served(b.outputModalities), a.outputModalities),
      Intersect(a.toolChoice, b.toolChoice),
      if a.maxOutputTokens.Some? && b.maxOutputTokens.Some?
      then Some(Min(a.maxOutputTokens.value, b.maxOutputTokens.value)) else None,
      a.inputTranscriptionPrompt && b.inputTranscriptionPrompt)
  }

  /** An absent statement makes the line's absent. */
  function IntersectParameters(a: Option<Parameters>, b: Option<Parameters>): Option<Parameters>
  {
    if a.Some? && b.Some? then Some(Merge(a.value, b.value)) else None
  }

  lemma DetectionsEnds(a: seq<Detection>, b: seq<Detection>)
    ensures MergeDetections(a[0..], b) == MergeDetections(a, b) && MergeDetections(a[|a|..], b) == []
  {
    assert a[0..] == a;
  }

  lemma DetectionsStep(done: seq<Detection>, a: seq<Detection>, b: seq<Detection>, i: nat)
    requires i < |a|
    ensures done + MergeDetections(a[i..], b)
         == (match DetectionOf(b, a[i].kind)
             case None => done + MergeDetections(a[i + 1..], b)
             case Some(theirs) => done + [MergeDetection(a[i], theirs)] + MergeDetections(a[i + 1..], b))
  {
    hide MergeDetection;
    hide DetectionOf;
    assert a[i..][1..] == a[i + 1..];
  }

  lemma FilterEnds(keep: seq<Text> -> bool, xs: seq<seq<Text>>)
    ensures Filter(keep, xs[0..]) == Filter(keep, xs) && Filter(keep, xs[|xs|..]) == []
  {
    assert xs[0..] == xs;
  }

  lemma FilterStep(done: seq<seq<Text>>, keep: seq<Text> -> bool, xs: seq<seq<Text>>, i: nat)
    requires i < |xs|
    ensures done + Filter(keep, xs[i..])
         == if keep(xs[i]) then done + [xs[i]] + Filter(keep, xs[i + 1..]) else done + Filter(keep, xs[i + 1..])
  {
    assert xs[i..][1..] == xs[i + 1..];
  }

  method IntersectParametersLoop(a: Option<Parameters>, b: Option<Parameters>) returns (r: Option<Parameters>)
    ensures r == IntersectParameters(a, b)
  {
    hide MergeDetections;
    hide MergeDetection;
    hide DetectionOf;
    hide Filter;
    hide Served;
    if a == None || b == None {
      return None;
    }
    var mine, theirs := a.value, b.value;
    var detections: seq<Detection> := [];
    DetectionsEnds(mine.turnDetection, theirs.turnDetection);
    for i := 0 to |mine.turnDetection|
      invariant detections + MergeDetections(mine.turnDetection[i..], theirs.turnDetection)
                == MergeDetections(mine.turnDetection, theirs.turnDetection)
    {
      DetectionsStep(detections, mine.turnDetection, theirs.turnDetection, i);
      var found := DetectionOf(theirs.turnDetection, mine.turnDetection[i].kind);
      if found.Some? {
        detections := detections + [MergeDetection(mine.turnDetection[i], found.value)];
      }
    }
    assert detections + [] == detections;
    var modalities: seq<seq<Text>> := [];
    var served := Served(theirs.outputModalities);
    FilterEnds(served, mine.outputModalities);
    for i := 0 to |mine.outputModalities|
      invariant modalities + Filter(served, mine.outputModalities[i..]) == Filter(served, mine.outputModalities)
    {
      var asked := mine.outputModalities[i];
      FilterStep(modalities, served, mine.outputModalities, i);
      if served(asked) {
        modalities := modalities + [asked];
      }
    }
    assert modalities + [] == modalities;
    var tools := IntersectSorted(mine.toolChoice, theirs.toolChoice);
    var cap: Option<int> := None;
    if mine.maxOutputTokens.Some? && theirs.maxOutputTokens.Some? {
      cap := Some(Min(mine.maxOutputTokens.value, theirs.maxOutputTokens.value));
    }
    return Some(Parameters(detections, modalities, tools, cap,
                           mine.inputTranscriptionPrompt && theirs.inputTranscriptionPrompt));
  }

  // ----- orders, and what Validate asks -----

  /** Every list is in the order its Validate demands; lists may be empty and ranges inverted. */
  predicate OrderedParameters(p: Parameters)
  {
    && StrictBy(DetectionBefore, p.turnDetection)
    && (forall d | d in p.turnDetection :: d.meteredUnits != [] && StrictBy(Less, d.meteredUnits))
    && (forall s | s in p.outputModalities :: s != [] && StrictBy(Less, s))
    && StrictBy(ListBefore, p.outputModalities)
    && StrictBy(ToolBefore, p.toolChoice)
  }

  predicate RangeHolds(r: Option<NumberRange>)
  {
    r.Some? ==> 0.0 <= r.value.min <= r.value.max <= 1.0
  }

  predicate NeverResponds(p: Parameters)
  {
    p.outputModalities == [] && p.toolChoice == [] && p.maxOutputTokens == None
  }

  /** `RealtimeParameters.Validate` on typed values. */
  predicate ValidParameters(p: Parameters)
  {
    && OrderedParameters(p)
    && p.turnDetection != []
    && (forall d | d in p.turnDetection :: RangeHolds(d.threshold))
    && (NeverResponds(p) ||
        (p.outputModalities != [] && Auto in p.toolChoice && (p.maxOutputTokens.Some? ==> p.maxOutputTokens.value > 0)))
  }

  // ----- algebra -----

  lemma MergeDetectionAssociative(a: Detection, b: Detection, c: Detection)
    ensures MergeDetection(MergeDetection(a, b), c) == MergeDetection(a, MergeDetection(b, c))
  {
    hide Union;
    UnionAssociative(a.meteredUnits, b.meteredUnits, c.meteredUnits);
  }

  /** Looking a kind up in a merged list is merging what each list says of it. */
  lemma {:induction false} DetectionOfMerged(a: seq<Detection>, b: seq<Detection>, kind: TurnKind)
    ensures DetectionOf(MergeDetections(a, b), kind) ==
            match (DetectionOf(a, kind), DetectionOf(b, kind))
            case (Some(x), Some(y)) => Some(MergeDetection(x, y))
            case _ => None
    decreases |a|
  {
    hide MergeDetection;
    if a != [] {
      DetectionOfMerged(a[1..], b, kind);
      match DetectionOf(b, a[0].kind) {
        case None =>
        case Some(theirs) =>
          var rest := MergeDetections(a[1..], b);
          KindOfMerged(a[0], theirs);
          assert ([MergeDetection(a[0], theirs)] + rest)[1..] == rest;
      }
    }
  }

  lemma KindOfMerged(a: Detection, b: Detection)
    ensures MergeDetection(a, b).kind == a.kind
  {
  }

  lemma {:induction false} MergeDetectionsAssociative(a: seq<Detection>, b: seq<Detection>, c: seq<Detection>)
    ensures MergeDetections(MergeDetections(a, b), c) == MergeDetections(a, MergeDetections(b, c))
    decreases |a|
  {
    hide MergeDetection;
    if a != [] {
      MergeDetectionsAssociative(a[1..], b, c);
      DetectionOfMerged(b, c, a[0].kind);
      match DetectionOf(b, a[0].kind) {
        case None =>
        case Some(x) =>
          var rest := MergeDetections(a[1..], b);
          KindOfMerged(a[0], x);
          assert ([MergeDetection(a[0], x)] + rest)[1..] == rest;
          match DetectionOf(c, a[0].kind) {
            case None =>
            case Some(y) => MergeDetectionAssociative(a[0], x, y);
          }
      }
    }
  }

  lemma SortTwice(s: seq<Text>)
    ensures SortBy(Itself(), SortBy(Itself(), s)) == SortBy(Itself(), s)
  {
    SortByPermuted(Itself(), SortBy(Itself(), s), s);
  }

  lemma ServedByBoth(b: seq<seq<Text>>, c: seq<seq<Text>>, s: seq<Text>)
    ensures Served(Filter(Served(c), b))(s) <==> Served(b)(s) && Served(c)(s)
  {
    SortTwice(s);
  }

  lemma MergeAssociative(a: Parameters, b: Parameters, c: Parameters)
    ensures Merge(Merge(a, b), c) == Merge(a, Merge(b, c))
  {
    hide MergeDetections;
    hide Intersect;
    hide Filter;
    MergeDetectionsAssociative(a.turnDetection, b.turnDetection, c.turnDetection);
    IntersectAssociative(a.toolChoice, b.toolChoice, c.toolChoice);
    var served := Served(Filter(Served(c.outputModalities), b.outputModalities));
    forall s | s in a.outputModalities
      ensures served(s) <==> Served(b.outputModalities)(s) && Served(c.outputModalities)(s)
    {
      ServedByBoth(b.outputModalities, c.outputModalities, s);
    }
    FilterFilter(Served(b.outputModalities), Served(c.outputModalities), served, a.outputModalities);
  }

  /** Merged detections keep the order, and are exactly the kinds both name. */
  lemma {:induction false} MergedDetectionsOrdered(a: seq<Detection>, b: seq<Detection>)
    requires StrictBy(DetectionBefore, a)
    ensures StrictBy(DetectionBefore, MergeDetections(a, b))
    ensures forall d | d in MergeDetections(a, b) ::
              exists x, y :: x in a && y in b && x.kind == y.kind == d.kind && d == MergeDetection(x, y)
    decreases |a|
  {
    hide MergeDetection;
    if a != [] {
      var rest := MergeDetections(a[1..], b);
      MergedDetectionsOrdered(a[1..], b);
      assert forall x | x in a[1..] :: x in a && DetectionBefore(a[0], x);
      match DetectionOf(b, a[0].kind) {
        case None =>
        case Some(theirs) =>
          KindOfMerged(a[0], theirs);
          var merged := [MergeDetection(a[0], theirs)] + rest;
          assert a[0] in a;
          forall d | d in rest
            ensures DetectionBefore(MergeDetection(a[0], theirs), d)
          {
            var x, y :| x in a[1..] && y in b && x.kind == y.kind == d.kind && d == MergeDetection(x, y);
          }
      }
    }
  }

  lemma {:induction false} MergeDetectionsCommute(a: seq<Detection>, b: seq<Detection>)
    requires StrictBy(DetectionBefore, a) && StrictBy(DetectionBefore, b)
    ensures MergeDetections(a, b) == MergeDetections(b, a)
  {
    hide MergeDetection;
    hide MergeDetections;
    MergedDetectionsOrdered(a, b);
    MergedDetectionsOrdered(b, a);
    forall d
      ensures d in MergeDetections(a, b) <==> d in MergeDetections(b, a)
    {
      MergedMember(a, b, d);
      MergedMember(b, a, d);
    }
    UniqueStrict(DetectionBefore, MergeDetections(a, b), MergeDetections(b, a));
  }

  lemma MergedMember(a: seq<Detection>, b: seq<Detection>, d: Detection)
    requires StrictBy(DetectionBefore, a) && StrictBy(DetectionBefore, b)
    ensures d in MergeDetections(a, b) ==> d in MergeDetections(b, a)
  {
    hide MergeDetection;
    hide MergeDetections;
    if d in MergeDetections(a, b) {
      MergedDetectionsOrdered(a, b);
      var x, y :| x in a && y in b && x.kind == y.kind == d.kind && d == MergeDetection(x, y);
      FoundByKind(a, x);
      FoundByKind(b, y);
      DetectionOfMerged(b, a, d.kind);
      MergeDetectionCommutes(x, y);
    }
  }

  lemma {:induction false} FoundByKind(list: seq<Detection>, d: Detection)
    requires StrictBy(DetectionBefore, list) && d in list
    ensures DetectionOf(list, d.kind) == Some(d)
    decreases |list|
  {
    assert list == [list[0]] + list[1..];
    if list[0] != d {
      assert forall x | x in list[1..] :: DetectionBefore(list[0], x);
      FoundByKind(list[1..], d);
    }
  }

  lemma MergeDetectionCommutes(a: Detection, b: Detection)
    requires a.kind == b.kind
    ensures MergeDetection(a, b) == MergeDetection(b, a)
  {
    hide Union;
    UnionCommutes(a.meteredUnits, b.meteredUnits);
  }

  lemma StrictIsSorted(s: seq<Text>)
    requires StrictBy(Less, s)
    ensures SortBy(Itself(), s) == s
  {
    forall i, j | 0 <= i < j < |s|
      ensures !Less(Itself()(s[j]), Itself()(s[i]))
    {
      LessTotal(s[i], s[j]);
    }
    SortBySorts(Itself(), s);
    UniqueSorted(Itself(), SortBy(Itself(), s), s);
  }

  /** For ordered statements, the modality sets both serve are the common ones. */
  lemma ServedIsCommon(a: Parameters, b: Parameters)
    requires OrderedParameters(a)
    ensures Filter(Served(b.outputModalities), a.outputModalities) == Intersect(a.outputModalities, b.outputModalities)
  {
    forall s | s in a.outputModalities
      ensures Served(b.outputModalities)(s) <==> Among(b.outputModalities)(s)
    {
      StrictIsSorted(s);
    }
    FilterSame(Served(b.outputModalities), Among(b.outputModalities), a.outputModalities);
  }

  lemma ListOrderAsymmetry()
    ensures Asymmetric(ListBefore)
  {
    forall a, b
      ensures !(ListBefore(a, b) && ListBefore(b, a))
    {
      ListOrderIsAsymmetric(a, b);
    }
  }

  lemma MergeCommutes(a: Parameters, b: Parameters)
    requires OrderedParameters(a) && OrderedParameters(b)
    ensures Merge(a, b) == Merge(b, a)
  {
    hide MergeDetections;
    hide Intersect;
    hide Filter;
    hide ListBefore;
    MergeDetectionsCommute(a.turnDetection, b.turnDetection);
    ServedIsCommon(a, b);
    ServedIsCommon(b, a);
    ListOrderAsymmetry();
    IntersectCommutes(ListBefore, a.outputModalities, b.outputModalities);
    IntersectCommutes(ToolBefore, a.toolChoice, b.toolChoice);
  }

  lemma MergeOrdered(a: Parameters, b: Parameters)
    requires OrderedParameters(a) && OrderedParameters(b)
    ensures OrderedParameters(Merge(a, b))
  {
    hide MergeDetections;
    hide Intersect;
    hide Filter;
    hide ListBefore;
    hide Union;
    MergedDetectionsOrdered(a.turnDetection, b.turnDetection);
    forall d | d in MergeDetections(a.turnDetection, b.turnDetection)
      ensures d.meteredUnits != [] && StrictBy(Less, d.meteredUnits)
    {
      var x, y :| x in a.turnDetection && y in b.turnDetection && x.kind == y.kind == d.kind && d == MergeDetection(x, y);
      UnionStrict(x.meteredUnits, y.meteredUnits);
      assert x.meteredUnits[0] in d.meteredUnits;
    }
    ServedIsCommon(a, b);
    IntersectStrict(ListBefore, a.outputModalities, b.outputModalities);
    IntersectStrict(ToolBefore, a.toolChoice, b.toolChoice);
  }

  /** Merging a statement with itself copies it. */
  lemma MergeSelf(p: Parameters)
    requires OrderedParameters(p)
    ensures Merge(p, p) == p
  {
    hide MergeDetections;
    hide Intersect;
    hide Filter;
    hide ListBefore;
    DetectionsSelf(p.turnDetection, p.turnDetection);
    ServedIsCommon(p, p);
    IntersectSelf(p.outputModalities);
    IntersectSelf(p.toolChoice);
  }

  lemma {:induction false} DetectionsSelf(list: seq<Detection>, all: seq<Detection>)
    requires StrictBy(DetectionBefore, all)
    requires forall d | d in all :: StrictBy(Less, d.meteredUnits)
    requires forall d | d in list :: d in all
    ensures MergeDetections(list, all) == list
    decreases |list|
  {
    hide Union;
    hide StrictBy;
    hide MergeDetection;
    hide DetectionOf;
    if list != [] {
      var d := list[0];
      assert d in list && forall x | x in list[1..] :: x in list;
      FoundByKind(all, d);
      DetectionSelf(d);
      DetectionsSelf(list[1..], all);
    }
  }

  lemma DetectionSelf(d: Detection)
    requires StrictBy(Less, d.meteredUnits)
    ensures MergeDetection(d, d) == d
  {
    hide Union;
    hide StrictBy;
    UnionStrict(d.meteredUnits, d.meteredUnits);
    OnlyStrict(Union(d.meteredUnits, d.meteredUnits), d.meteredUnits);
  }

  /** A session may ask for a detection of this kind at this level. */
  predicate Offers(p: Parameters, kind: TurnKind, level: real)
  {
    match DetectionOf(p.turnDetection, kind)
    case None => false
    case Some(d) => d.threshold.Some? ==> d.threshold.value.min <= level <= d.threshold.value.max
  }

  /** Whether detections of this kind fix their responses, and whether they are billed in this unit. */
  predicate Fixes(p: Parameters, kind: TurnKind)
  {
    DetectionOf(p.turnDetection, kind).Some? && DetectionOf(p.turnDetection, kind).value.fixedResponses
  }

  predicate BilledIn(p: Parameters, kind: TurnKind, unit: Text)
  {
    DetectionOf(p.turnDetection, kind).Some? && unit in DetectionOf(p.turnDetection, kind).value.meteredUnits
  }

  /**
   * A line offers what both statements offer and no more: each kind at the levels
   * inside both bounds, fixed or billed in a unit where either says so; the common
   * modality sets and tool choices; the lower cap, if both state one.
   */
  lemma MergeServesBoth(a: Parameters, b: Parameters, kind: TurnKind, level: real, unit: Text)
    requires OrderedParameters(a) && OrderedParameters(b)
    ensures Offers(Merge(a, b), kind, level) <==> Offers(a, kind, level) && Offers(b, kind, level)
    ensures DetectionOf(Merge(a, b).turnDetection, kind).Some? ==>
              && (Fixes(Merge(a, b), kind) <==> Fixes(a, kind) || Fixes(b, kind))
              && (BilledIn(Merge(a, b), kind, unit) <==> BilledIn(a, kind, unit) || BilledIn(b, kind, unit))
    ensures forall s :: s in Merge(a, b).outputModalities <==> s in a.outputModalities && s in b.outputModalities
    ensures forall t :: t in Merge(a, b).toolChoice <==> t in a.toolChoice && t in b.toolChoice
    ensures forall cap :: Merge(a, b).maxOutputTokens == Some(cap) <==>
              && a.maxOutputTokens.Some? && b.maxOutputTokens.Some?
              && (cap == a.maxOutputTokens.value || cap == b.maxOutputTokens.value)
              && cap <= a.maxOutputTokens.value && cap <= b.maxOutputTokens.value
    ensures Merge(a, b).inputTranscriptionPrompt <==> a.inputTranscriptionPrompt && b.inputTranscriptionPrompt
  {
    hide MergeDetections;
    hide OrderedParameters;
    hide Served;
    hide Filter;
    hide Union;
    hide DetectionOf;
    DetectionOfMerged(a.turnDetection, b.turnDetection, kind);
    ServedIsCommon(a, b);
  }

  // ----- a deployment's whole realtime statement -----

  datatype Statement = Statement(
    transports: seq<Text>, sessionKinds: seq<Text>, inputAudioTranscription: bool,
    inputFormats: seq<Text>, outputFormats: seq<Text>, parameters: Option<Parameters>)

  function MergeStatements(a: Statement, b: Statement): Statement
  {
    Statement(Intersect(a.transports, b.transports), Intersect(a.sessionKinds, b.sessionKinds),
              a.inputAudioTranscription && b.inputAudioTranscription,
              Intersect(a.inputFormats, b.inputFormats), Intersect(a.outputFormats, b.outputFormats),
              IntersectParameters(a.parameters, b.parameters))
  }

  /** Narrowing a line by one report; a deployment that says nothing abstains. */
  function Aggregate(current: Option<Statement>, reported: Option<Statement>): Option<Statement>
  {
    match (current, reported)
    case (_, None) => current
    case (None, Some(r)) => Some(r.(parameters := IntersectParameters(r.parameters, r.parameters)))
    case (Some(c), Some(r)) => Some(MergeStatements(c, r))
  }

  method AggregateRealtime(current: Option<Statement>, reported: Option<Statement>) returns (r: Option<Statement>)
    ensures r == Aggregate(current, reported)
  {
    if reported == None {
      return current;
    }
    var b := reported.value;
    if current == None {
      var copied := IntersectParametersLoop(b.parameters, b.parameters);
      return Some(b.(parameters := copied));
    }
    var a := current.value;
    var transports := IntersectSorted(a.transports, b.transports);
    var kinds := IntersectSorted(a.sessionKinds, b.sessionKinds);
    var inputs := IntersectSorted(a.inputFormats, b.inputFormats);
    var outputs := IntersectSorted(a.outputFormats, b.outputFormats);
    var parameters := IntersectParametersLoop(a.parameters, b.parameters);
    return Some(Statement(transports, kinds, a.inputAudioTranscription && b.inputAudioTranscription,
                          inputs, outputs, parameters));
  }

  /** Every list in the order its Validate demands. */
  predicate Ordered(s: Statement)
  {
    && StrictBy(Less, s.transports) && StrictBy(Less, s.sessionKinds)
    && StrictBy(Less, s.inputFormats) && StrictBy(Less, s.outputFormats)
    && (s.parameters.Some? ==> OrderedParameters(s.parameters.value))
  }

  /** `RealtimeObservation.Validate` on typed values. */
  predicate Valid(s: Statement)
  {
    && Ordered(s)
    && s.transports != [] && s.sessionKinds != [] && s.inputFormats != []
    && (s.parameters.Some? ==> ValidParameters(s.parameters.value))
  }

  predicate OrderedIfPresent(s: Option<Statement>)
  {
    s.Some? ==> Ordered(s.value)
  }

  lemma AggregateOrdered(a: Option<Statement>, b: Option<Statement>)
    requires OrderedIfPresent(a) && OrderedIfPresent(b)
    ensures OrderedIfPresent(Aggregate(a, b))
    ensures a == None ==> Aggregate(a, b) == b
  {
    hide OrderedParameters;
    hide Merge;
    if b.Some? {
      if a.Some? {
        IntersectStrict(Less, a.value.transports, b.value.transports);
        IntersectStrict(Less, a.value.sessionKinds, b.value.sessionKinds);
        IntersectStrict(Less, a.value.inputFormats, b.value.inputFormats);
        IntersectStrict(Less, a.value.outputFormats, b.value.outputFormats);
        if a.value.parameters.Some? && b.value.parameters.Some? {
          MergeOrdered(a.value.parameters.value, b.value.parameters.value);
        }
      } else if b.value.parameters.Some? {
        MergeSelf(b.value.parameters.value);
      }
    }
  }

  /** Which of three reports is folded in first makes no difference. */
  lemma AggregateAssociative(a: Option<Statement>, b: Option<Statement>, c: Option<Statement>)
    requires OrderedIfPresent(a) && OrderedIfPresent(b) && OrderedIfPresent(c)
    ensures Aggregate(Aggregate(a, b), c) == Aggregate(a, Aggregate(b, c))
  {
    hide Merge;
    hide Intersect;
    hide Ordered;
    AggregateOrdered(a, b);
    AggregateOrdered(None, b);
    AggregateOrdered(None, c);
    AggregateOrdered(b, c);
    AggregateOrdered(None, Aggregate(b, c));
    if a.Some? && b.Some? && c.Some? {
      var x, y, z := a.value, b.value, c.value;
      IntersectAssociative(x.transports, y.transports, z.transports);
      IntersectAssociative(x.sessionKinds, y.sessionKinds, z.sessionKinds);
      IntersectAssociative(x.inputFormats, y.inputFormats, z.inputFormats);
      IntersectAssociative(x.outputFormats, y.outputFormats, z.outputFormats);
      if x.parameters.Some? && y.parameters.Some? && z.parameters.Some? {
        MergeAssociative(x.parameters.value, y.parameters.value, z.parameters.value);
      }
    }
  }

  /** Nor does the order of two reports. */
  lemma AggregateCommutes(a: Option<Statement>, b: Option<Statement>)
    requires OrderedIfPresent(a) && OrderedIfPresent(b)
    ensures Aggregate(a, b) == Aggregate(b, a)
  {
    hide Merge;
    hide Intersect;
    hide OrderedParameters;
    AggregateOrdered(None, a);
    AggregateOrdered(None, b);
    if a.Some? && b.Some? {
      var x, y := a.value, b.value;
      TextOrderIsAsymmetric();
      IntersectCommutes(Less, x.transports, y.transports);
      IntersectCommutes(Less, x.sessionKinds, y.sessionKinds);
      IntersectCommutes(Less, x.inputFormats, y.inputFormats);
      IntersectCommutes(Less, x.outputFormats, y.outputFormats);
      if x.parameters.Some? && y.parameters.Some? {
        MergeCommutes(x.parameters.value, y.parameters.value);
      }
    }
  }

}

module Audio {
  import opened Base
  import opened Ordering
  import opened Intersections

  datatype Voice = Voice(id: Text, name: Text, languages: seq<Text>, gender: Text)

  /** Upload media types are absent for a realtime model. */
  datatype Statement = Statement(voices: seq<Voice>, languages: seq<Text>, mediaTypes: Option<seq<Text>>)

  predicate VoiceBefore(a: Voice, b: Voice) { Less(a.id, b.id) }

  function VoiceOf(voices: seq<Voice>, id: Text): (v: Option<Voice>)
    ensures v.Some? ==> v.value in voices && v.value.id == id
    ensures v.None? ==> forall x | x in voices :: x.id != id
  {
    if voices == [] then None
    else
      assert voices == [voices[0]] + voices[1..];
      if voices[0].id == id then Some(voices[0]) else VoiceOf(voices[1..], id)
  }

  /** One voice two deployments offer: the first's name, what both say it speaks, an agreed gender. */
  function MergeVoice(a: Voice, b: Voice, languages: seq<Text>): Voice
  {
    Voice(a.id, a.name, Intersect(Intersect(a.languages, b.languages), languages), if a.gender == b.gender then a.gender else [])
  }

  function MergeVoices(a: seq<Voice>, b: seq<Voice>, languages: seq<Text>): seq<Voice>
  {
    if a == [] then []
    else
      match VoiceOf(b, a[0].id)
      case None => MergeVoices(a[1..], b, languages)
      case Some(other) => [MergeVoice(a[0], other, languages)] + MergeVoices(a[1..], b, languages)
  }

  function Merge(a: Statement, b: Statement): Statement
  {
    var languages := Intersect(a.languages, b.languages);
    Statement(MergeVoices(a.voices, b.voices, languages), languages,
              if a.mediaTypes.Some? && b.mediaTypes.Some?
              then Some(Intersect(a.mediaTypes.value, b.mediaTypes.value)) else None)
  }

  function Aggregate(current: Option<Statement>, reported: Option<Statement>): Option<Statement>
  {
    match (current, reported)
    case (_, None) => current
    case (None, _) => reported
    case (Some(c), Some(r)) => Some(Merge(c, r))
  }

  method AggregateAudio(current: Option<Statement>, reported: Option<Statement>) returns (r: Option<Statement>)
    ensures r == Aggregate(current, reported)
  {
    if reported == None {
      return current;
    }
    if current == None {
      return reported;
    }
    var a, b := current.value, reported.value;
    var languages := IntersectSorted(a.languages, b.languages);
    var mediaTypes: Option<seq<Text>> := None;
    if a.mediaTypes.Some? && b.mediaTypes.Some? {
      var both := IntersectSorted(a.mediaTypes.value, b.mediaTypes.value);
      mediaTypes := Some(both);
    }
    var voices: seq<Voice> := [];
    assert a.voices[0..] == a.voices;
    for i := 0 to |a.voices|
      invariant voices + MergeVoices(a.voices[i..], b.voices, languages) == MergeVoices(a.voices, b.voices, languages)
    {
      assert a.voices[i..][1..] == a.voices[i + 1..];
      ghost var rest := MergeVoices(a.voices[i + 1..], b.voices, languages);
      var voice := a.voices[i];
      var other := VoiceOf(b.voices, voice.id);
      if other.Some? {
        var spoken := IntersectSorted(voice.languages, other.value.languages);
        spoken := IntersectSorted(spoken, languages);
        var gender := if voice.gender == other.value.gender then voice.gender else [];
        var merged := Voice(voice.id, voice.name, spoken, gender);
        assert voices + ([merged] + rest) == voices + [merged] + rest;
        voices := voices + [merged];
      }
    }
    assert voices + [] == voices;
    return Some(Statement(voices, languages, mediaTypes));
  }

  /** `AudioObservation.Validate` without the per-word grammars. */
  predicate Valid(s: Statement)
  {
    && StrictBy(Less, s.languages)
    && StrictBy(VoiceBefore, s.voices)
    && (forall v | v in s.voices ::
          StrictBy(Less, v.languages) && forall l | l in v.languages :: l in s.languages)
    && (s.mediaTypes.Some? ==> s.mediaTypes.value != [] && StrictBy(Less, s.mediaTypes.value))
  }

  /** Merged voices keep the order, are offered by both, and speak what both say within the line. */
  lemma {:induction false} MergedVoices(a: seq<Voice>, b: seq<Voice>, languages: seq<Text>)
    requires StrictBy(VoiceBefore, a)
    ensures StrictBy(VoiceBefore, MergeVoices(a, b, languages))
    ensures forall v | v in MergeVoices(a, b, languages) ::
              exists x, y :: x in a && y in b && x.id == y.id && v == MergeVoice(x, y, languages)
    decreases |a|
  {
    hide MergeVoice;
    hide Less;
    if a != [] {
      var rest := MergeVoices(a[1..], b, languages);
      MergedVoices(a[1..], b, languages);
      assert a[0] in a && forall x | x in a[1..] :: x in a && VoiceBefore(a[0], x);
      if VoiceOf(b, a[0].id).Some? {
        MergedHead(a[0], VoiceOf(b, a[0].id).value, a[1..], b, languages);
      }
    }
  }

  /** A merged head voice is before every later merged voice. */
  lemma MergedHead(x: Voice, y: Voice, later: seq<Voice>, b: seq<Voice>, languages: seq<Text>)
    requires forall v | v in later :: VoiceBefore(x, v)
    requires forall v | v in MergeVoices(later, b, languages) ::
               exists p, q :: p in later && q in b && p.id == q.id && v == MergeVoice(p, q, languages)
    ensures forall v | v in MergeVoices(later, b, languages) :: VoiceBefore(MergeVoice(x, y, languages), v)
  {
    hide MergeVoice;
    hide MergeVoices;
    hide Less;
    IdOfMerged(x, y, languages);
    forall v | v in MergeVoices(later, b, languages)
      ensures VoiceBefore(MergeVoice(x, y, languages), v)
    {
      var p, q :| p in later && q in b && p.id == q.id && v == MergeVoice(p, q, languages);
      IdOfMerged(p, q, languages);
    }
  }

  lemma IdOfMerged(a: Voice, b: Voice, languages: seq<Text>)
    ensures MergeVoice(a, b, languages).id == a.id
  {
  }

  // ----- algebra -----

  lemma {:induction false} VoiceOfMerged(a: seq<Voice>, b: seq<Voice>, languages: seq<Text>, id: Text)
    ensures VoiceOf(MergeVoices(a, b, languages), id) ==
            match (VoiceOf(a, id), VoiceOf(b, id))
            case (Some(x), Some(y)) => Some(MergeVoice(x, y, languages))
            case _ => None
    decreases |a|
  {
    hide MergeVoice;
    if a != [] {
      VoiceOfMerged(a[1..], b, languages, id);
      match VoiceOf(b, a[0].id) {
        case None =>
        case Some(other) =>
          var rest := MergeVoices(a[1..], b, languages);
          IdOfMerged(a[0], other, languages);
          assert ([MergeVoice(a[0], other, languages)] + rest)[1..] == rest;
      }
    }
  }

  lemma MergeVoiceAssociative(a: Voice, b: Voice, c: Voice, ab: seq<Text>, bc: seq<Text>, abc: seq<Text>)
    requires forall l :: l in abc ==> l in ab && l in bc
    ensures MergeVoice(MergeVoice(a, b, ab), c, abc) == MergeVoice(a, MergeVoice(b, c, bc), abc)
  {
    hide Intersect;
    var left := Intersect(Intersect(Intersect(Intersect(a.languages, b.languages), ab), c.languages), abc);
    var right := Intersect(Intersect(a.languages, Intersect(Intersect(b.languages, c.languages), bc)), abc);
    var inner := Intersect(Intersect(b.languages, c.languages), bc);
    IntersectAssociative(a.languages, b.languages, ab);
    IntersectAssociative(a.languages, Intersect(b.languages, ab), c.languages);
    IntersectAssociative(a.languages, Intersect(Intersect(b.languages, ab), c.languages), abc);
    IntersectAssociative(a.languages, inner, abc);
    SameKept(a.languages, Intersect(Intersect(Intersect(b.languages, ab), c.languages), abc), Intersect(inner, abc));
  }

  lemma SameKept(a: seq<Text>, b: seq<Text>, c: seq<Text>)
    requires forall x :: x in b <==> x in c
    ensures Intersect(a, b) == Intersect(a, c)
  {
    FilterSame(Among(b), Among(c), a);
  }

  lemma {:induction false} MergeVoicesAssociative(
    a: seq<Voice>, b: seq<Voice>, c: seq<Voice>, ab: seq<Text>, bc: seq<Text>, abc: seq<Text>)
    requires forall l :: l in abc ==> l in ab && l in bc
    ensures MergeVoices(MergeVoices(a, b, ab), c, abc) == MergeVoices(a, MergeVoices(b, c, bc), abc)
    decreases |a|
  {
    hide MergeVoice;
    if a != [] {
      MergeVoicesAssociative(a[1..], b, c, ab, bc, abc);
      VoiceOfMerged(b, c, bc, a[0].id);
      match VoiceOf(b, a[0].id) {
        case None =>
        case Some(x) =>
          var rest := MergeVoices(a[1..], b, ab);
          IdOfMerged(a[0], x, ab);
          assert ([MergeVoice(a[0], x, ab)] + rest)[1..] == rest;
          match VoiceOf(c, a[0].id) {
            case None =>
            case Some(y) => MergeVoiceAssociative(a[0], x, y, ab, bc, abc);
          }
      }
    }
  }

  /** Which of three reports is folded in first makes no difference. */
  lemma AggregateAssociative(a: Option<Statement>, b: Option<Statement>, c: Option<Statement>)
    ensures Aggregate(Aggregate(a, b), c) == Aggregate(a, Aggregate(b, c))
  {
    hide MergeVoices;
    hide Intersect;
    if a.Some? && b.Some? && c.Some? {
      var x, y, z := a.value, b.value, c.value;
      IntersectAssociative(x.languages, y.languages, z.languages);
      var ab, bc := Intersect(x.languages, y.languages), Intersect(y.languages, z.languages);
      MergeVoicesAssociative(x.voices, y.voices, z.voices, ab, bc, Intersect(ab, z.languages));
      if x.mediaTypes.Some? && y.mediaTypes.Some? && z.mediaTypes.Some? {
        IntersectAssociative(x.mediaTypes.value, y.mediaTypes.value, z.mediaTypes.value);
      }
    }
  }

  /** A statement without its voices' names. */
  function Unnamed(voices: seq<Voice>): (r: seq<Voice>)
    ensures |r| == |voices| && forall i | 0 <= i < |r| :: r[i] == voices[i].(name := [])
  {
    seq(|voices|, i requires 0 <= i < |voices| => voices[i].(name := []))
  }

  /** Two reports commute in everything but the names, which are the first's. */
  lemma MergeCommutes(a: Statement, b: Statement)
    requires Valid(a) && Valid(b)
    ensures Merge(a, b).languages == Merge(b, a).languages && Merge(a, b).mediaTypes == Merge(b, a).mediaTypes
    ensures Unnamed(Merge(a, b).voices) == Unnamed(Merge(b, a).voices)
  {
    hide MergeVoices;
    hide Intersect;
    hide Less;
    TextOrderIsAsymmetric();
    IntersectCommutes(Less, a.languages, b.languages);
    if a.mediaTypes.Some? && b.mediaTypes.Some? {
      IntersectCommutes(Less, a.mediaTypes.value, b.mediaTypes.value);
    }
    var languages := Intersect(a.languages, b.languages);
    var ab, ba := MergeVoices(a.voices, b.voices, languages), MergeVoices(b.voices, a.voices, languages);
    MergedVoices(a.voices, b.voices, languages);
    MergedVoices(b.voices, a.voices, languages);
    forall v | v in ab ensures v.(name := []) in Unnamed(ba) { CommutedVoice(a, b, languages, v); }
    forall v | v in ba ensures v.(name := []) in Unnamed(ab) { CommutedVoice(b, a, languages, v); }
    VoiceOrderIsAsymmetric();
    UniqueStrict(VoiceBefore, Unnamed(ab), Unnamed(ba));
  }

  lemma VoiceOrderIsAsymmetric()
    ensures Asymmetric(VoiceBefore)
  {
    forall x: Voice, y: Voice
      ensures !(VoiceBefore(x, y) && VoiceBefore(y, x))
    {
      LessTotal(x.id, y.id);
    }
  }

  lemma CommutedVoice(a: Statement, b: Statement, languages: seq<Text>, v: Voice)
    requires Valid(a) && Valid(b) && v in MergeVoices(a.voices, b.voices, languages)
    ensures v.(name := []) in Unnamed(MergeVoices(b.voices, a.voices, languages))
  {
    hide MergeVoices;
    hide Intersect;
    hide Less;
    MergedVoices(a.voices, b.voices, languages);
    var x, y :| x in a.voices && y in b.voices && x.id == y.id && v == MergeVoice(x, y, languages);
    VoiceOfMerged(b.voices, a.voices, languages, v.id);
    FoundById(a.voices, x);
    FoundById(b.voices, y);
    TextOrderIsAsymmetric();
    IntersectCommutes(Less, x.languages, y.languages);
    var w := MergeVoice(y, x, languages);
    var ba := MergeVoices(b.voices, a.voices, languages);
    assert w in ba;
    var i :| 0 <= i < |ba| && ba[i] == w;
    assert Unnamed(ba)[i] == v.(name := []);
  }

  lemma {:induction false} FoundById(voices: seq<Voice>, v: Voice)
    requires StrictBy(VoiceBefore, voices) && v in voices
    ensures VoiceOf(voices, v.id) == Some(v)
    decreases |voices|
  {
    assert voices == [voices[0]] + voices[1..];
    if voices[0] != v {
      assert forall x | x in voices[1..] :: VoiceBefore(voices[0], x);
      LessTotal(voices[0].id, v.id);
      FoundById(voices[1..], v);
    }
  }
}
