// A line's realtime and audio statements, folded over any number of reports:
// what the fold is in terms of all of them, and when it is publishable.

module AudioFold {
  import opened Base
  import opened Ordering
  import opened Intersections
  import opened Audio

  /** The left fold of the reports, as the catalogue makes it. */
  function Folded(reports: seq<Statement>): Option<Statement>
  {
    if reports == [] then None
    else Aggregate(Folded(reports[..|reports| - 1]), Some(reports[|reports| - 1]))
  }

  predicate AllValid(reports: seq<Statement>) { forall r | r in reports :: Valid(r) }

  /** Valid, except that the upload types may be none. */
  predicate Sound(s: Statement)
  {
    && StrictBy(Less, s.languages) && StrictBy(VoiceBefore, s.voices)
    && (forall v | v in s.voices :: StrictBy(Less, v.languages) && forall l | l in v.languages :: l in s.languages)
    && (s.mediaTypes.Some? ==> StrictBy(Less, s.mediaTypes.value))
  }

  // ----- what all reports say -----

  predicate Lists(s: Statement, language: Text) { language in s.languages }

  predicate Accepts(s: Statement, media: Text) { s.mediaTypes.Some? && media in s.mediaTypes.value }

  predicate Has(s: Statement, id: Text) { VoiceOf(s.voices, id).Some? }

  predicate Speaks(s: Statement, id: Text, language: Text)
  {
    Has(s, id) && language in VoiceOf(s.voices, id).value.languages
  }

  predicate Gendered(s: Statement, id: Text, gender: Text)
  {
    Has(s, id) && VoiceOf(s.voices, id).value.gender == gender
  }

  predicate EachLists(rs: seq<Statement>, language: Text) { forall r | r in rs :: Lists(r, language) }

  predicate EachUploads(rs: seq<Statement>) { forall r | r in rs :: r.mediaTypes.Some? }

  predicate EachAccepts(rs: seq<Statement>, media: Text) { forall r | r in rs :: Accepts(r, media) }

  predicate EachHas(rs: seq<Statement>, id: Text) { forall r | r in rs :: Has(r, id) }

  predicate EachSpeaks(rs: seq<Statement>, id: Text, language: Text) { forall r | r in rs :: Speaks(r, id, language) }

  predicate EachGendered(rs: seq<Statement>, id: Text, gender: Text) { forall r | r in rs :: Gendered(r, id, gender) }

  /**
   * A line says exactly what all reports say: a language, an upload type or a
   * voice is there when every report has it; a voice speaks what every report has
   * it speak, has a gender exactly when all agree on it, and the first's name.
   */
  ghost predicate SaysWhatAllSay(line: Statement, rs: seq<Statement>)
    requires rs != []
  {
    && (forall l :: Lists(line, l) <==> EachLists(rs, l))
    && (line.mediaTypes.Some? <==> EachUploads(rs))
    && (forall m :: Accepts(line, m) <==> EachAccepts(rs, m))
    && (forall id :: Has(line, id) <==> EachHas(rs, id))
    && (forall id, l :: Speaks(line, id, l) <==> EachSpeaks(rs, id, l))
    && (forall id, g | g != [] :: Gendered(line, id, g) <==> EachGendered(rs, id, g))
    && (forall id | Has(line, id) :: Has(rs[0], id) && VoiceOf(line.voices, id).value.name == VoiceOf(rs[0].voices, id).value.name)
  }

  lemma OneReport(r: Statement)
    ensures SaysWhatAllSay(r, [r])
  {
    assert forall x | x in [r] :: x == r;
    assert r in [r];
  }

  lemma EachAppended(rs: seq<Statement>, r: Statement)
    ensures EachUploads(rs + [r]) <==> EachUploads(rs) && r.mediaTypes.Some?
    ensures forall l :: EachLists(rs + [r], l) <==> EachLists(rs, l) && Lists(r, l)
    ensures forall m :: EachAccepts(rs + [r], m) <==> EachAccepts(rs, m) && Accepts(r, m)
    ensures forall id :: EachHas(rs + [r], id) <==> EachHas(rs, id) && Has(r, id)
    ensures forall id, l :: EachSpeaks(rs + [r], id, l) <==> EachSpeaks(rs, id, l) && Speaks(r, id, l)
    ensures forall id, g :: EachGendered(rs + [r], id, g) <==> EachGendered(rs, id, g) && Gendered(r, id, g)
  {
    hide Lists;
    hide Accepts;
    hide Has;
    hide Speaks;
    hide Gendered;
    assert forall x :: x in rs + [r] <==> x in rs || x == r;
  }

  /** What merging does to each question. */
  lemma MergeAnswers(a: Statement, b: Statement)
    requires Sound(a) && Sound(b)
    ensures Sound(Merge(a, b))
    ensures Merge(a, b).mediaTypes.Some? <==> a.mediaTypes.Some? && b.mediaTypes.Some?
    ensures forall l :: Lists(Merge(a, b), l) <==> Lists(a, l) && Lists(b, l)
    ensures forall m :: Accepts(Merge(a, b), m) <==> Accepts(a, m) && Accepts(b, m)
    ensures forall id :: Has(Merge(a, b), id) <==> Has(a, id) && Has(b, id)
    ensures forall id, l :: Speaks(Merge(a, b), id, l) <==> Speaks(a, id, l) && Speaks(b, id, l)
    ensures forall id, g | g != [] :: Gendered(Merge(a, b), id, g) <==> Gendered(a, id, g) && Gendered(b, id, g)
    ensures forall id | Has(Merge(a, b), id) ::
              Has(a, id) && VoiceOf(Merge(a, b).voices, id).value.name == VoiceOf(a.voices, id).value.name
  {
    hide MergeVoices;
    hide Intersect;
    hide Less;
    hide VoiceOf;
    hide StrictBy;
    MergeSound(a, b);
    var languages := Intersect(a.languages, b.languages);
    forall id
      ensures Has(Merge(a, b), id) <==> Has(a, id) && Has(b, id)
      ensures forall l :: Speaks(Merge(a, b), id, l) <==> Speaks(a, id, l) && Speaks(b, id, l)
      ensures forall g | g != [] :: Gendered(Merge(a, b), id, g) <==> Gendered(a, id, g) && Gendered(b, id, g)
      ensures Has(Merge(a, b), id) ==> Has(a, id) && VoiceOf(Merge(a, b).voices, id).value.name == VoiceOf(a.voices, id).value.name
    {
      VoiceOfMerged(a.voices, b.voices, languages, id);
    }
  }

  lemma MergeSound(a: Statement, b: Statement)
    requires Sound(a) && Sound(b)
    ensures Sound(Merge(a, b))
  {
    hide MergeVoices;
    hide Intersect;
    hide Less;
    hide StrictBy;
    var m := Merge(a, b);
    IntersectStrict(Less, a.languages, b.languages);
    MergedVoices(a.voices, b.voices, m.languages);
    if a.mediaTypes.Some? && b.mediaTypes.Some? {
      IntersectStrict(Less, a.mediaTypes.value, b.mediaTypes.value);
    }
    forall v | v in m.voices
      ensures StrictBy(Less, v.languages) && forall l | l in v.languages :: l in m.languages
    {
      var x, y :| x in a.voices && y in b.voices && x.id == y.id && v == MergeVoice(x, y, m.languages);
      IntersectStrict(Less, x.languages, y.languages);
      IntersectStrict(Less, Intersect(x.languages, y.languages), m.languages);
    }
  }

  lemma ValidIsSound(s: Statement)
    ensures Valid(s) <==> Sound(s) && (s.mediaTypes.Some? ==> s.mediaTypes.value != [])
  {
    hide StrictBy;
    hide Less;
  }

  /** One more report. */
  lemma OneMore(line: Statement, rs: seq<Statement>, r: Statement)
    requires rs != [] && Sound(line) && Sound(r) && SaysWhatAllSay(line, rs)
    ensures Sound(Merge(line, r)) && SaysWhatAllSay(Merge(line, r), rs + [r])
  {
    hide Sound;
    hide Merge;
    hide Lists;
    hide Accepts;
    hide Has;
    hide Speaks;
    hide Gendered;
    hide EachLists;
    hide EachUploads;
    hide EachAccepts;
    hide EachHas;
    hide EachSpeaks;
    hide EachGendered;
    MergeAnswers(line, r);
    EachAppended(rs, r);
    assert (rs + [r])[0] == rs[0];
  }

  /** The fold of any number of valid reports says what all of them say, in order. */
  lemma {:induction false} FoldSaysWhatAllSay(rs: seq<Statement>)
    requires rs != [] && AllValid(rs)
    ensures Folded(rs).Some? && Sound(Folded(rs).value) && SaysWhatAllSay(Folded(rs).value, rs)
    decreases |rs|
  {
    hide Sound;
    hide Valid;
    hide SaysWhatAllSay;
    var front, r := rs[..|rs| - 1], rs[|rs| - 1];
    assert rs == front + [r] && r in rs;
    ValidIsSound(r);
    if front == [] {
      assert rs == [r] && Folded(front) == None;
      OneReport(r);
    } else {
      FoldSaysWhatAllSay(front);
      OneMore(Folded(front).value, front, r);
    }
  }

  /** Some report takes no uploads, or all of them accept some type in common. */
  ghost predicate ReportsMeet(rs: seq<Statement>)
  {
    EachUploads(rs) ==> exists m :: EachAccepts(rs, m)
  }

  /** The fold is publishable exactly when the reports meet: nothing else can make it invalid. */
  lemma FoldValidity(rs: seq<Statement>)
    requires rs != [] && AllValid(rs)
    ensures Folded(rs).Some?
    ensures Valid(Folded(rs).value) <==> ReportsMeet(rs)
  {
    hide Sound;
    hide Valid;
    hide EachUploads;
    hide EachAccepts;
    FoldSaysWhatAllSay(rs);
    var line := Folded(rs).value;
    ValidIsSound(line);
    if line.mediaTypes.Some? && line.mediaTypes.value != [] {
      assert Accepts(line, line.mediaTypes.value[0]);
    }
    if m :| EachAccepts(rs, m) {
      assert Accepts(line, m);
    }
  }
}

module RealtimeFold {
  import opened Base
  import opened Ordering
  import opened Intersections
  import opened Realtime

  function Folded(reports: seq<Statement>): Option<Statement>
  {
    if reports == [] then None
    else Aggregate(Folded(reports[..|reports| - 1]), Some(reports[|reports| - 1]))
  }

  predicate AllValid(reports: seq<Statement>) { forall r | r in reports :: Valid(r) }

  /** The same fold over parameters alone. */
  function FoldedParameters(ps: seq<Parameters>): Parameters
    requires ps != []
  {
    if |ps| == 1 then ps[0] else Merge(FoldedParameters(ps[..|ps| - 1]), ps[|ps| - 1])
  }

  predicate AllValidParameters(ps: seq<Parameters>) { forall p | p in ps :: ValidParameters(p) }

  // ----- what all parameters say -----

  predicate Detects(p: Parameters, kind: TurnKind) { DetectionOf(p.turnDetection, kind).Some? }

  predicate Bounded(p: Parameters, kind: TurnKind)
  {
    Detects(p, kind) && DetectionOf(p.turnDetection, kind).value.threshold.Some?
  }

  function LowerBound(p: Parameters, kind: TurnKind): real
    requires Bounded(p, kind)
  {
    DetectionOf(p.turnDetection, kind).value.threshold.value.min
  }

  function UpperBound(p: Parameters, kind: TurnKind): real
    requires Bounded(p, kind)
  {
    DetectionOf(p.turnDetection, kind).value.threshold.value.max
  }

  predicate EachDetects(ps: seq<Parameters>, kind: TurnKind) { forall p | p in ps :: Detects(p, kind) }

  predicate EachOffers(ps: seq<Parameters>, kind: TurnKind, level: real) { forall p | p in ps :: Offers(p, kind, level) }

  predicate AnyFixes(ps: seq<Parameters>, kind: TurnKind) { exists p :: p in ps && Fixes(p, kind) }

  predicate AnyBilledIn(ps: seq<Parameters>, kind: TurnKind, unit: Text) { exists p :: p in ps && BilledIn(p, kind, unit) }

  predicate EachServes(ps: seq<Parameters>, modalities: seq<Text>) { forall p | p in ps :: modalities in p.outputModalities }

  predicate EachAllows(ps: seq<Parameters>, tool: ToolChoice) { forall p | p in ps :: tool in p.toolChoice }

  predicate EachCaps(ps: seq<Parameters>) { forall p | p in ps :: p.maxOutputTokens.Some? }

  predicate EachPrompts(ps: seq<Parameters>) { forall p | p in ps :: p.inputTranscriptionPrompt }

  /** The tightest bounds that any of them states: each is some report's, and none is tighter. */
  ghost predicate Tightest(line: Parameters, ps: seq<Parameters>, kind: TurnKind)
  {
    Detects(line, kind) ==>
      && (Bounded(line, kind) <==> exists p :: p in ps && Bounded(p, kind))
      && (Bounded(line, kind) ==>
            && (exists p :: p in ps && Bounded(p, kind) && LowerBound(p, kind) == LowerBound(line, kind))
            && (exists p :: p in ps && Bounded(p, kind) && UpperBound(p, kind) == UpperBound(line, kind))
            && forall p | p in ps && Bounded(p, kind) ::
                 LowerBound(p, kind) <= LowerBound(line, kind) && UpperBound(line, kind) <= UpperBound(p, kind))
  }

  /** The least cap when every one states a cap. */
  ghost predicate LeastCap(line: Parameters, ps: seq<Parameters>)
  {
    && (line.maxOutputTokens.Some? <==> EachCaps(ps))
    && (line.maxOutputTokens.Some? ==>
          && (exists p :: p in ps && p.maxOutputTokens == line.maxOutputTokens)
          && forall p | p in ps && p.maxOutputTokens.Some? :: line.maxOutputTokens.value <= p.maxOutputTokens.value)
  }

  /** A line's parameters serve exactly what all of them serve. */
  ghost predicate ServesWhatAllServe(line: Parameters, ps: seq<Parameters>)
  {
    && (forall k :: Detects(line, k) <==> EachDetects(ps, k))
    && (forall k :: Tightest(line, ps, k))
    && (forall k | Detects(line, k) :: Fixes(line, k) <==> AnyFixes(ps, k))
    && (forall k, u | Detects(line, k) :: BilledIn(line, k, u) <==> AnyBilledIn(ps, k, u))
    && (forall s :: s in line.outputModalities <==> EachServes(ps, s))
    && (forall t :: t in line.toolChoice <==> EachAllows(ps, t))
    && LeastCap(line, ps)
    && (line.inputTranscriptionPrompt <==> EachPrompts(ps))
  }

  lemma OneStatement(p: Parameters)
    ensures ServesWhatAllServe(p, [p])
  {
    hide DetectionOf;
    assert p in [p] && forall x | x in [p] :: x == p;
    forall k
      ensures Tightest(p, [p], k) && (Fixes(p, k) <==> AnyFixes([p], k))
    {
    }
  }

  lemma MergedDetection(a: Parameters, b: Parameters, kind: TurnKind)
    ensures Detects(Merge(a, b), kind) <==> Detects(a, kind) && Detects(b, kind)
    ensures Detects(Merge(a, b), kind) ==>
              && (Fixes(Merge(a, b), kind) <==> Fixes(a, kind) || Fixes(b, kind))
              && (forall u :: BilledIn(Merge(a, b), kind, u) <==> BilledIn(a, kind, u) || BilledIn(b, kind, u))
              && DetectionOf(Merge(a, b).turnDetection, kind).value.threshold
                 == TighterRange(DetectionOf(a.turnDetection, kind).value.threshold, DetectionOf(b.turnDetection, kind).value.threshold)
  {
    hide MergeDetections;
    hide DetectionOf;
    hide Union;
    hide Filter;
    hide TighterRange;
    DetectionOfMerged(a.turnDetection, b.turnDetection, kind);
  }

  lemma MergedTightest(line: Parameters, ps: seq<Parameters>, p: Parameters, kind: TurnKind)
    requires Tightest(line, ps, kind)
    ensures Tightest(Merge(line, p), ps + [p], kind)
  {
    hide Merge;
    hide DetectionOf;
    var more := ps + [p];
    MergedDetection(line, p, kind);
    assert p in more && forall x :: x in more <==> x in ps || x == p;
    if Detects(Merge(line, p), kind) {
      if Bounded(line, kind) {
        var low :| low in ps && Bounded(low, kind) && LowerBound(low, kind) == LowerBound(line, kind);
        var high :| high in ps && Bounded(high, kind) && UpperBound(high, kind) == UpperBound(line, kind);
        assert low in more && high in more;
      } else {
        assert forall x | x in ps :: !Bounded(x, kind);
      }
    }
  }

  lemma MergedCap(line: Parameters, ps: seq<Parameters>, p: Parameters)
    requires LeastCap(line, ps)
    ensures LeastCap(Merge(line, p), ps + [p])
  {
    hide MergeDetections;
    hide Intersect;
    hide Filter;
    var more := ps + [p];
    assert p in more && forall x :: x in more <==> x in ps || x == p;
    if line.maxOutputTokens.Some? {
      var least :| least in ps && least.maxOutputTokens == line.maxOutputTokens;
      assert least in more;
    }
  }

  lemma EachAppended(ps: seq<Parameters>, p: Parameters)
    ensures forall k :: EachDetects(ps + [p], k) <==> EachDetects(ps, k) && Detects(p, k)
    ensures forall k :: AnyFixes(ps + [p], k) <==> AnyFixes(ps, k) || Fixes(p, k)
    ensures forall k, u :: AnyBilledIn(ps + [p], k, u) <==> AnyBilledIn(ps, k, u) || BilledIn(p, k, u)
    ensures forall s :: EachServes(ps + [p], s) <==> EachServes(ps, s) && s in p.outputModalities
    ensures forall t :: EachAllows(ps + [p], t) <==> EachAllows(ps, t) && t in p.toolChoice
    ensures EachPrompts(ps + [p]) <==> EachPrompts(ps) && p.inputTranscriptionPrompt
  {
    hide Detects;
    hide Fixes;
    hide BilledIn;
    assert forall x :: x in ps + [p] <==> x in ps || x == p;
    assert p in ps + [p];
  }

  lemma OneMoreParameters(line: Parameters, ps: seq<Parameters>, p: Parameters)
    requires OrderedParameters(line) && OrderedParameters(p) && ServesWhatAllServe(line, ps)
    ensures OrderedParameters(Merge(line, p)) && ServesWhatAllServe(Merge(line, p), ps + [p])
  {
    hide OrderedParameters;
    hide Detects;
    hide Fixes;
    hide BilledIn;
    hide Tightest;
    hide LeastCap;
    hide EachDetects;
    hide AnyFixes;
    hide AnyBilledIn;
    hide EachServes;
    hide EachAllows;
    hide EachPrompts;
    hide MergeDetections;
    hide Filter;
    MergeOrdered(line, p);
    EachAppended(ps, p);
    MergedCap(line, ps, p);
    ServedIsCommon(line, p);
    forall k
      ensures Tightest(Merge(line, p), ps + [p], k)
      ensures Detects(Merge(line, p), k) <==> Detects(line, k) && Detects(p, k)
      ensures Detects(Merge(line, p), k) ==>
                && (Fixes(Merge(line, p), k) <==> Fixes(line, k) || Fixes(p, k))
                && (forall u :: BilledIn(Merge(line, p), k, u) <==> BilledIn(line, k, u) || BilledIn(p, k, u))
    {
      MergedTightest(line, ps, p, k);
      MergedDetection(line, p, k);
    }
  }

  /** The fold of any number of valid parameters serves what all of them serve. */
  lemma {:induction false} ParametersServeWhatAllServe(ps: seq<Parameters>)
    requires ps != [] && AllValidParameters(ps)
    ensures OrderedParameters(FoldedParameters(ps)) && ServesWhatAllServe(FoldedParameters(ps), ps)
    decreases |ps|
  {
    hide ServesWhatAllServe;
    hide OrderedParameters;
    hide Merge;
    var front, p := ps[..|ps| - 1], ps[|ps| - 1];
    assert ps == front + [p] && p in ps && forall x | x in front :: x in ps;
    if |ps| == 1 {
      assert ps == [p];
      OneStatement(p);
    } else {
      ParametersServeWhatAllServe(front);
      OneMoreParameters(FoldedParameters(front), front, p);
    }
  }

  // ----- when a fold of parameters is valid -----

  predicate Overlaps(p: Parameters, q: Parameters, kind: TurnKind)
  {
    Bounded(p, kind) && Bounded(q, kind) ==> LowerBound(p, kind) <= UpperBound(q, kind)
  }

  /** Every two ranges of a kind that all detect overlap. */
  ghost predicate RangesMeet(ps: seq<Parameters>)
  {
    forall k, p, q | EachDetects(ps, k) && p in ps && q in ps :: Overlaps(p, q, k)
  }

  /** One of them never responds, or some modality set is served by all. */
  ghost predicate ResponsesMeet(ps: seq<Parameters>)
  {
    (exists p :: p in ps && NeverResponds(p)) || exists s :: EachServes(ps, s)
  }

  ghost predicate ParametersMeet(ps: seq<Parameters>)
  {
    (exists k :: EachDetects(ps, k)) && RangesMeet(ps) && ResponsesMeet(ps)
  }

  /** A session may ask the line for a level exactly when it may ask all of them. */
  lemma OffersWhatAllOffer(line: Parameters, ps: seq<Parameters>, kind: TurnKind, level: real)
    requires ServesWhatAllServe(line, ps) && ps != []
    ensures Offers(line, kind, level) <==> EachOffers(ps, kind, level)
  {
    hide DetectionOf;
    hide LeastCap;
    assert Tightest(line, ps, kind) && (Detects(line, kind) <==> EachDetects(ps, kind));
    if EachDetects(ps, kind) {
      if Bounded(line, kind) {
        var low :| low in ps && Bounded(low, kind) && LowerBound(low, kind) == LowerBound(line, kind);
        var high :| high in ps && Bounded(high, kind) && UpperBound(high, kind) == UpperBound(line, kind);
        assert Offers(line, kind, level) ==> EachOffers(ps, kind, level);
        assert EachOffers(ps, kind, level) ==> Offers(low, kind, level) && Offers(high, kind, level);
      } else {
        assert forall p | p in ps :: !Bounded(p, kind);
      }
    }
  }

  lemma LineDetects(line: Parameters, ps: seq<Parameters>)
    requires OrderedParameters(line) && forall k :: Detects(line, k) <==> EachDetects(ps, k)
    ensures line.turnDetection != [] <==> exists k :: EachDetects(ps, k)
  {
    if line.turnDetection != [] {
      FoundByKind(line.turnDetection, line.turnDetection[0]);
      assert Detects(line, line.turnDetection[0].kind);
    }
    if k :| EachDetects(ps, k) {
      assert Detects(line, k);
    }
  }

  /** A valid report's own range, if it states one, runs upwards inside [0, 1]. */
  lemma OwnRange(p: Parameters, kind: TurnKind)
    requires ValidParameters(p) && Bounded(p, kind)
    ensures 0.0 <= LowerBound(p, kind) <= UpperBound(p, kind) <= 1.0
  {
  }

  lemma LineRanges(line: Parameters, ps: seq<Parameters>)
    requires OrderedParameters(line) && AllValidParameters(ps)
    requires forall k :: (Detects(line, k) <==> EachDetects(ps, k)) && Tightest(line, ps, k)
    ensures (forall d | d in line.turnDetection :: RangeHolds(d.threshold)) <==> RangesMeet(ps)
  {
    hide DetectionOf;
    hide ValidParameters;
    hide StrictBy;
    forall k | EachDetects(ps, k)
      ensures Detects(line, k)
      ensures RangeHolds(DetectionOf(line.turnDetection, k).value.threshold)
         <==> forall p, q | p in ps && q in ps :: Overlaps(p, q, k)
    {
      LineRange(line, ps, k);
    }
    forall d | d in line.turnDetection
      ensures DetectionOf(line.turnDetection, d.kind) == Some(d) && EachDetects(ps, d.kind)
    {
      FoundByKind(line.turnDetection, d);
      assert Detects(line, d.kind);
    }
    forall k | EachDetects(ps, k)
      ensures Detects(line, k) && DetectionOf(line.turnDetection, k).value in line.turnDetection
    {
      assert Detects(line, k);
    }
  }

  lemma LineRange(line: Parameters, ps: seq<Parameters>, kind: TurnKind)
    requires AllValidParameters(ps) && Detects(line, kind) && Tightest(line, ps, kind)
    ensures RangeHolds(DetectionOf(line.turnDetection, kind).value.threshold)
       <==> forall p, q | p in ps && q in ps :: Overlaps(p, q, kind)
  {
    hide DetectionOf;
    hide ValidParameters;
    if Bounded(line, kind) {
      var low :| low in ps && Bounded(low, kind) && LowerBound(low, kind) == LowerBound(line, kind);
      var high :| high in ps && Bounded(high, kind) && UpperBound(high, kind) == UpperBound(line, kind);
      OwnRange(low, kind);
      OwnRange(high, kind);
      if forall p, q | p in ps && q in ps :: Overlaps(p, q, kind) {
        assert Overlaps(low, high, kind);
      }
    } else {
      assert forall p | p in ps :: !Bounded(p, kind);
    }
  }

  lemma LineResponds(line: Parameters, ps: seq<Parameters>)
    requires ps != [] && AllValidParameters(ps) && ServesWhatAllServe(line, ps)
    ensures (NeverResponds(line) ||
             (line.outputModalities != [] && Auto in line.toolChoice &&
              (line.maxOutputTokens.Some? ==> line.maxOutputTokens.value > 0)))
       <==> ResponsesMeet(ps)
  {
    hide Tightest;
    hide Detects;
    hide AnyBilledIn;
    hide AnyFixes;
    hide EachDetects;
    hide OrderedParameters;
    if p :| p in ps && NeverResponds(p) {
      SilentLine(line, ps, p);
    } else {
      assert forall p | p in ps :: Auto in p.toolChoice && (p.maxOutputTokens.Some? ==> p.maxOutputTokens.value > 0);
      assert Auto in line.toolChoice by { assert EachAllows(ps, Auto); }
      if line.outputModalities != [] {
        assert EachServes(ps, line.outputModalities[0]);
      }
      if s :| EachServes(ps, s) {
        assert s in line.outputModalities;
      }
    }
  }

  lemma SilentLine(line: Parameters, ps: seq<Parameters>, p: Parameters)
    requires p in ps && NeverResponds(p) && ServesWhatAllServe(line, ps)
    ensures NeverResponds(line)
  {
    hide Tightest;
    hide Detects;
    hide AnyBilledIn;
    hide AnyFixes;
    hide EachDetects;
    assert line.outputModalities != [] ==> EachServes(ps, line.outputModalities[0]);
    assert line.toolChoice != [] ==> EachAllows(ps, line.toolChoice[0]);
  }

  /**
   * The fold of valid parameters is valid exactly when they all share a
   * detection, no two ranges of a shared detection are disjoint, and, unless one
   * never responds, they all share a modality set.
   */
  lemma ParametersValidity(ps: seq<Parameters>)
    requires ps != [] && AllValidParameters(ps)
    ensures ValidParameters(FoldedParameters(ps)) <==> ParametersMeet(ps)
  {
    hide OrderedParameters;
    hide AllValidParameters;
    hide RangesMeet;
    hide ResponsesMeet;
    hide EachDetects;
    hide FoldedParameters;
    hide Tightest;
    hide Detects;
    hide RangeHolds;
    hide NeverResponds;
    ParametersServeWhatAllServe(ps);
    var line := FoldedParameters(ps);
    LineDetects(line, ps);
    LineRanges(line, ps);
    LineResponds(line, ps);
  }

  // ----- whole statements -----

  predicate EachCarries(rs: seq<Statement>, transport: Text) { forall r | r in rs :: transport in r.transports }

  predicate EachRuns(rs: seq<Statement>, kind: Text) { forall r | r in rs :: kind in r.sessionKinds }

  predicate EachTakes(rs: seq<Statement>, format: Text) { forall r | r in rs :: format in r.inputFormats }

  predicate EachGives(rs: seq<Statement>, format: Text) { forall r | r in rs :: format in r.outputFormats }

  predicate EachTranscribes(rs: seq<Statement>) { forall r | r in rs :: r.inputAudioTranscription }

  predicate EachStates(rs: seq<Statement>) { forall r | r in rs :: r.parameters.Some? }

  function ParametersOf(rs: seq<Statement>): (ps: seq<Parameters>)
    requires EachStates(rs)
    ensures |ps| == |rs| && forall i | 0 <= i < |ps| :: Some(ps[i]) == rs[i].parameters
  {
    seq(|rs|, i requires 0 <= i < |rs| => assert rs[i] in rs; rs[i].parameters.value)
  }

  /** A line's statement is what all reports state; its parameters are those of all of them, folded. */
  ghost predicate StatesWhatAllState(line: Statement, rs: seq<Statement>)
    requires rs != []
  {
    && (forall t :: t in line.transports <==> EachCarries(rs, t))
    && (forall k :: k in line.sessionKinds <==> EachRuns(rs, k))
    && (forall f :: f in line.inputFormats <==> EachTakes(rs, f))
    && (forall f :: f in line.outputFormats <==> EachGives(rs, f))
    && (line.inputAudioTranscription <==> EachTranscribes(rs))
    && (line.parameters.Some? <==> EachStates(rs))
    && (EachStates(rs) ==> line.parameters == Some(FoldedParameters(ParametersOf(rs))))
  }

  lemma OneReport(r: Statement)
    ensures StatesWhatAllState(r, [r])
  {
    hide Merge;
    assert forall x | x in [r] :: x == r;
    assert r in [r];
  }

  lemma ReportsAppended(rs: seq<Statement>, r: Statement)
    requires rs != []
    ensures forall t :: EachCarries(rs + [r], t) <==> EachCarries(rs, t) && t in r.transports
    ensures forall k :: EachRuns(rs + [r], k) <==> EachRuns(rs, k) && k in r.sessionKinds
    ensures forall f :: EachTakes(rs + [r], f) <==> EachTakes(rs, f) && f in r.inputFormats
    ensures forall f :: EachGives(rs + [r], f) <==> EachGives(rs, f) && f in r.outputFormats
    ensures EachTranscribes(rs + [r]) <==> EachTranscribes(rs) && r.inputAudioTranscription
    ensures EachStates(rs + [r]) <==> EachStates(rs) && r.parameters.Some?
    ensures EachStates(rs + [r]) ==>
              FoldedParameters(ParametersOf(rs + [r])) == Merge(FoldedParameters(ParametersOf(rs)), r.parameters.value)
  {
    hide Merge;
    assert forall x :: x in rs + [r] <==> x in rs || x == r;
    if EachStates(rs + [r]) {
      var more := ParametersOf(rs + [r]);
      assert EachStates(rs);
      assert more[..|more| - 1] == ParametersOf(rs);
    }
  }

  lemma OneMoreReport(line: Statement, rs: seq<Statement>, r: Statement)
    requires rs != [] && Ordered(line) && Ordered(r) && StatesWhatAllState(line, rs)
    ensures var more := MergeStatements(line, r);
            Ordered(more) && StatesWhatAllState(more, rs + [r])
  {
    hide Merge;
    hide Ordered;
    hide EachCarries;
    hide EachRuns;
    hide EachTakes;
    hide EachGives;
    hide EachTranscribes;
    hide EachStates;
    hide FoldedParameters;
    AggregateOrdered(Some(line), Some(r));
    ReportsAppended(rs, r);
  }

  /** The fold of any number of valid reports states what all of them state. */
  lemma {:induction false} FoldStatesWhatAllState(rs: seq<Statement>)
    requires rs != [] && AllValid(rs)
    ensures Folded(rs).Some? && Ordered(Folded(rs).value) && StatesWhatAllState(Folded(rs).value, rs)
    decreases |rs|
  {
    hide Ordered;
    hide StatesWhatAllState;
    hide MergeStatements;
    hide ValidParameters;
    hide Merge;
    var front, r := rs[..|rs| - 1], rs[|rs| - 1];
    assert rs == front + [r] && r in rs && forall x | x in front :: x in rs;
    assert Ordered(r);
    if front == [] {
      assert rs == [r] && Folded(front) == None;
      AggregateOrdered(None, Some(r));
      OneReport(r);
    } else {
      FoldStatesWhatAllState(front);
      OneMoreReport(Folded(front).value, front, r);
    }
  }

  /**
   * All reports share a transport, a session kind and an input format and, if all
   * state parameters, these meet.
   */
  ghost predicate ReportsMeet(rs: seq<Statement>)
  {
    && (exists t :: EachCarries(rs, t)) && (exists k :: EachRuns(rs, k)) && (exists f :: EachTakes(rs, f))
    && (EachStates(rs) ==> ParametersMeet(ParametersOf(rs)))
  }

  /** The fold is publishable exactly when the reports meet. */
  lemma FoldValidity(rs: seq<Statement>)
    requires rs != [] && AllValid(rs)
    ensures Folded(rs).Some?
    ensures Valid(Folded(rs).value) <==> ReportsMeet(rs)
  {
    hide Ordered;
    hide ValidParameters;
    hide EachCarries;
    hide EachRuns;
    hide EachTakes;
    hide EachGives;
    hide EachTranscribes;
    hide FoldedParameters;
    hide ParametersMeet;
    hide Folded;
    FoldStatesWhatAllState(rs);
    var line := Folded(rs).value;
    Nonempty(line.transports);
    Nonempty(line.sessionKinds);
    Nonempty(line.inputFormats);
    if EachStates(rs) {
      ValidOnes(rs);
      ParametersValidity(ParametersOf(rs));
    }
  }

  lemma Nonempty(xs: seq<Text>)
    ensures xs != [] <==> exists x :: x in xs
  {
    assert xs != [] ==> xs[0] in xs;
  }

  lemma ValidOnes(rs: seq<Statement>)
    requires AllValid(rs) && EachStates(rs)
    ensures AllValidParameters(ParametersOf(rs))
  {
    hide ValidParameters;
    hide Ordered;
    var ps := ParametersOf(rs);
    forall i | 0 <= i < |ps|
      ensures ValidParameters(ps[i])
    {
      assert rs[i] in rs;
    }
  }
}

/** The realtime and audio fields of a published entry. */
module PublishedLines {
  import opened Base
  import opened Ordering
  import opened Permutations
  import opened Inventory
  import opened Catalogue
  import Audio
  import Realtime
  import AudioFold
  import RealtimeFold

  /** The realtime statements of those endpoints that make one, in order. */
  function RealtimeReports(endpoints: seq<Endpoint>): seq<Realtime.Statement>
  {
    if endpoints == [] then []
    else
      var e := endpoints[|endpoints| - 1];
      RealtimeReports(endpoints[..|endpoints| - 1]) +
      if e.observed.Some? && e.observed.value.realtime.Some? then [e.observed.value.realtime.value] else []
  }

  function AudioReports(endpoints: seq<Endpoint>): seq<Audio.Statement>
  {
    if endpoints == [] then []
    else
      var e := endpoints[|endpoints| - 1];
      AudioReports(endpoints[..|endpoints| - 1]) +
      if e.observed.Some? && e.observed.value.audio.Some? then [e.observed.value.audio.value] else []
  }

  /** A silent endpoint abstains: the entry's statements are the folds of the reports made. */
  lemma {:induction false} EntryFoldsReports(endpoints: seq<Endpoint>)
    ensures RealtimeOf(endpoints) == RealtimeFold.Folded(RealtimeReports(endpoints))
    ensures AudioOf(endpoints) == AudioFold.Folded(AudioReports(endpoints))
  {
    hide Realtime.IntersectParameters;
    hide Realtime.MergeStatements;
    hide Audio.Merge;
    if endpoints != [] {
      var front, e := endpoints[..|endpoints| - 1], endpoints[|endpoints| - 1];
      EntryFoldsReports(front);
      var realtime, audio := RealtimeReports(front), AudioReports(front);
      if e.observed.Some? && e.observed.value.realtime.Some? {
        assert (realtime + [e.observed.value.realtime.value])[..|realtime|] == realtime;
      } else {
        assert realtime + [] == realtime;
      }
      if e.observed.Some? && e.observed.value.audio.Some? {
        assert (audio + [e.observed.value.audio.value])[..|audio|] == audio;
      } else {
        assert audio + [] == audio;
      }
    }
  }

  lemma {:induction false} ReportsMade(endpoints: seq<Endpoint>)
    ensures forall r :: r in RealtimeReports(endpoints) <==>
              exists e :: e in endpoints && e.observed.Some? && e.observed.value.realtime == Some(r)
    ensures forall r :: r in AudioReports(endpoints) <==>
              exists e :: e in endpoints && e.observed.Some? && e.observed.value.audio == Some(r)
  {
    if endpoints != [] {
      var front, e := endpoints[..|endpoints| - 1], endpoints[|endpoints| - 1];
      assert endpoints == front + [e] && e in endpoints && forall x | x in front :: x in endpoints;
      ReportsMade(front);
    }
  }

  ghost predicate ReportsAreValid(endpoints: seq<Endpoint>)
  {
    forall e | e in endpoints && e.observed.Some? ::
      && (e.observed.value.realtime.Some? ==> Realtime.Valid(e.observed.value.realtime.value))
      && (e.observed.value.audio.Some? ==> Audio.Valid(e.observed.value.audio.value))
  }

  /** In a built inventory every set's reports have been validated. */
  lemma BuiltReportsAreValid(inv: Index, file: File, maxAge: int, line: Text)
    requires Built(inv, file, maxAge) && line in inv.currentOf
    ensures ReportsAreValid(inv.currentOf[line].endpoints)
  {
    hide ModelId;
    hide Realtime.Valid;
    hide Audio.Valid;
    var ds := file.deployments;
    var d :| d in ds && d.current && ModelId(d.reference) == line;
    var rows := RowsOf(ds, d.reference);
    RowsOfMembers(ds, d.reference);
    assert inv.currentOf[line] == inv.byReference[d.reference];
    forall i | 0 <= i < |rows|
      ensures RowValid(rows[i]) && Endpoints(rows)[i] == EndpointOf(rows[i])
    {
      assert rows[i] in rows;
    }
  }

  /**
   * The realtime and audio statements that each line of an accepted file publishes:
   * what all of the reports made say, whoever stays silent, and absent when none is
   * made. They are publishable exactly when the reports meet.
   */
  lemma PublishedLineSaysWhatAllSay(inv: Index, file: File, maxAge: int, line: Text)
    requires Built(inv, file, maxAge) && line in inv.currentOf
    ensures var s := inv.currentOf[line];
            var ordered := SortBy(EndpointId(), s.endpoints);
            var entry, realtime, audio := EntryOf(line, s), RealtimeReports(ordered), AudioReports(ordered);
            && (forall r :: r in realtime <==> exists e :: e in s.endpoints && e.observed.Some? && e.observed.value.realtime == Some(r))
            && (forall r :: r in audio <==> exists e :: e in s.endpoints && e.observed.Some? && e.observed.value.audio == Some(r))
            && (entry.realtime.Some? <==> realtime != []) && (entry.audio.Some? <==> audio != [])
            && (realtime != [] ==>
                  && RealtimeFold.StatesWhatAllState(entry.realtime.value, realtime)
                  && (Realtime.Valid(entry.realtime.value) <==> RealtimeFold.ReportsMeet(realtime)))
            && (audio != [] ==>
                  && AudioFold.SaysWhatAllSay(entry.audio.value, audio)
                  && (Audio.Valid(entry.audio.value) <==> AudioFold.ReportsMeet(audio)))
  {
    hide Realtime.Valid;
    hide Audio.Valid;
    hide RealtimeFold.StatesWhatAllState;
    hide AudioFold.SaysWhatAllSay;
    hide RealtimeFold.ReportsMeet;
    hide AudioFold.ReportsMeet;
    hide EntryOf;
    hide RealtimeReports;
    hide AudioReports;
    hide SortBy;
    hide Built;
    hide ReportsAreValid;
    var s := inv.currentOf[line];
    BuiltReportsAreValid(inv, file, maxAge, line);
    EntrySaysWhatAllSay(line, s);
    var ordered := SortBy(EndpointId(), s.endpoints);
    if RealtimeReports(ordered) != [] {
      RealtimeFold.FoldValidity(RealtimeReports(ordered));
    }
    if AudioReports(ordered) != [] {
      AudioFold.FoldValidity(AudioReports(ordered));
    }
  }

  /** The same for any set whose reports are valid. */
  lemma EntrySaysWhatAllSay(model: Text, s: RouteSet)
    requires ReportsAreValid(s.endpoints)
    ensures var ordered := SortBy(EndpointId(), s.endpoints);
            var entry, realtime, audio := EntryOf(model, s), RealtimeReports(ordered), AudioReports(ordered);
            && (forall r :: r in realtime <==> exists e :: e in s.endpoints && e.observed.Some? && e.observed.value.realtime == Some(r))
            && (forall r :: r in audio <==> exists e :: e in s.endpoints && e.observed.Some? && e.observed.value.audio == Some(r))
            && RealtimeFold.AllValid(realtime) && AudioFold.AllValid(audio)
            && entry.realtime == RealtimeFold.Folded(realtime) && entry.audio == AudioFold.Folded(audio)
            && (entry.realtime.Some? <==> realtime != []) && (entry.audio.Some? <==> audio != [])
            && (realtime != [] ==> RealtimeFold.StatesWhatAllState(entry.realtime.value, realtime))
            && (audio != [] ==> AudioFold.SaysWhatAllSay(entry.audio.value, audio))
  {
    hide Realtime.Valid;
    hide Audio.Valid;
    hide Realtime.Ordered;
    hide AudioFold.Sound;
    hide RealtimeFold.StatesWhatAllState;
    hide AudioFold.SaysWhatAllSay;
    hide RealtimeReports;
    hide AudioReports;
    hide SortBy;
    hide SortedKeys;
    var ordered := SortBy(EndpointId(), s.endpoints);
    SameElements(ordered, s.endpoints);
    ReportsMade(ordered);
    EntryFoldsReports(ordered);
    var realtime, audio := RealtimeReports(ordered), AudioReports(ordered);
    if realtime != [] {
      RealtimeFold.FoldStatesWhatAllState(realtime);
    }
    if audio != [] {
      AudioFold.FoldSaysWhatAllSay(audio);
    }
  }
}
