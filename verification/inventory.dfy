// The deployment inventory of internal/inventory/inventory.go: two indexes over
// a declared file, and what they answer.

module Inventory {
  import opened Base
  import opened Words
  import opened Ordering
  import opened Permutations
  import Realtime
  import Audio

  const AT: byte := 0x40  // '@'

  datatype Effort = Low | Medium | High

  datatype ListPrice = ListPrice(terms: Text)

  /** What a provider's model list said; absent is unknown. Instants are nanoseconds. */
  datatype Observed = Observed(
    displayName: Option<Text>, createdAt: Option<int>, contextTokens: Option<int>, maxOutputTokens: Option<int>,
    inputModalities: Option<seq<Text>>, outputModalities: Option<seq<Text>>, supportsTools: Option<bool>,
    reasoningEfforts: Option<seq<Effort>>, acceptedParameters: Option<seq<Text>>, listPrice: Option<ListPrice>,
    realtime: Option<Realtime.Statement>, audio: Option<Audio.Statement>)

  /** A declared row. `wellFormed` is the verdict of the grammars: slugs, references, regions, names, words and prices. */
  datatype Deployment = Deployment(
    id: Text, provider: Text, reference: Text, upstream: Text, regions: seq<Text>, current: bool,
    observed: Option<Observed>, wellFormed: bool)

  datatype Endpoint = Endpoint(id: Text, provider: Text, upstream: Text, regions: seq<Text>, observed: Option<Observed>)

  datatype Route = Route(
    id: Text, provider: Text, reference: Text, upstream: Text, regions: seq<Text>, acceptedParameters: Option<seq<Text>>)

  datatype RouteSet = RouteSet(reference: Text, endpoints: seq<Endpoint>)

  datatype File = File(snapshotId: Text, issuedAt: Option<int>, deployments: seq<Deployment>)

  datatype Index = Index(
    snapshotId: Text, issuedAt: int, maxAge: int, byReference: map<Text, RouteSet>, currentOf: map<Text, RouteSet>)

  datatype Resolution = Found(set_: RouteSet) | NoRoute | SnapshotTooStale

  // ----- references -----

  predicate Pinned(reference: Text) { AT in reference }

  /** The model line a reference belongs to. */
  function ModelId(reference: Text): (line: Text)
    ensures AT !in line
    ensures !Pinned(reference) ==> line == reference
  {
    if reference == [] || reference[0] == AT then []
    else [reference[0]] + ModelId(reference[1..])
  }

  /** The line of a reference is what stands before its first '@'. */
  lemma {:induction false} ModelIdOf(line: Text, revision: Text)
    requires AT !in line
    ensures ModelId(line + [AT] + revision) == line
    decreases |line|
  {
    var reference := line + [AT] + revision;
    if line != [] {
      ModelIdOf(line[1..], revision);
      assert reference[1..] == line[1..] + [AT] + revision;
      assert line == [line[0]] + line[1..];
    }
  }

  /** A reference that begins with a line and an '@'. */
  predicate OfLine(reference: Text, line: Text)
  {
    |reference| > |line| && reference[..|line|] == line && reference[|line|] == AT
  }

  /** Two references that are alike up to their first '@'. */
  predicate SameLine(a: Text, b: Text)
  {
    exists k :: 0 <= k < |a| && k < |b| && a[k] == AT && b[k] == AT && AT !in a[..k] && a[..k] == b[..k]
  }

  lemma OfLineIsModelId(reference: Text, line: Text)
    requires AT !in line
    ensures OfLine(reference, line) <==> Pinned(reference) && ModelId(reference) == line
  {
    if OfLine(reference, line) {
      assert reference == line + [AT] + reference[|line| + 1..];
      ModelIdOf(line, reference[|line| + 1..]);
    }
    if Pinned(reference) {
      var k := FirstAt(reference);
      assert reference == reference[..k] + [AT] + reference[k + 1..];
      ModelIdOf(reference[..k], reference[k + 1..]);
    }
  }

  lemma FirstAt(reference: Text) returns (k: nat)
    requires Pinned(reference)
    ensures k < |reference| && reference[k] == AT && AT !in reference[..k]
  {
    k := 0;
    while reference[k] != AT
      invariant k < |reference| && AT !in reference[..k] && AT in reference[k..]
      decreases |reference| - k
    {
      k := k + 1;
    }
  }

  lemma SameLineIsModelId(a: Text, b: Text)
    requires Pinned(a) && Pinned(b)
    ensures SameLine(a, b) <==> ModelId(a) == ModelId(b)
  {
    var i := FirstAt(a);
    var j := FirstAt(b);
    OfLineIsModelId(a, a[..i]);
    OfLineIsModelId(b, b[..j]);
    if k :| 0 <= k < |a| && k < |b| && a[k] == AT && b[k] == AT && AT !in a[..k] && a[..k] == b[..k] {
      OfLineIsModelId(a, a[..k]);
      OfLineIsModelId(b, b[..k]);
    }
  }

  // ----- rows -----

  predicate Distinct<T(==)>(xs: seq<T>) { forall i, j | 0 <= i < j < |xs| :: xs[i] != xs[j] }

  predicate ModalitiesValid(modalities: Option<seq<Text>>)
  {
    modalities.Some? ==> modalities.value != [] && StrictBy(Less, modalities.value)
  }

  /** `Observed.Validate` on typed values. */
  predicate ObservedValid(o: Observed)
  {
    && (o.contextTokens.Some? ==> o.contextTokens.value > 0) && (o.maxOutputTokens.Some? ==> o.maxOutputTokens.value > 0)
    && ModalitiesValid(o.inputModalities) && ModalitiesValid(o.outputModalities)
    && (o.reasoningEfforts.Some? ==> Distinct(o.reasoningEfforts.value))
    && (o.realtime.Some? ==> Realtime.Valid(o.realtime.value))
    && (o.audio.Some? ==> Audio.Valid(o.audio.value))
  }

  predicate RowValid(d: Deployment)
  {
    && 1 <= |d.id| <= 128 && d.wellFormed && Pinned(d.reference) && d.upstream != [] && Distinct(d.regions)
    && (d.observed.Some? ==> ObservedValid(d.observed.value))
  }

  function EndpointOf(d: Deployment): Endpoint
  {
    Endpoint(d.id, d.provider, d.upstream, d.regions, d.observed)
  }

  function AcceptedOf(observed: Option<Observed>): Option<seq<Text>>
  {
    if observed.Some? then observed.value.acceptedParameters else None
  }

  /** The route a row describes, by its own fields. */
  function RouteOf(d: Deployment): Route
  {
    Route(d.id, d.provider, d.reference, d.upstream, d.regions, AcceptedOf(d.observed))
  }

  /** The rows of one reference, in file order. */
  function RowsOf(ds: seq<Deployment>, reference: Text): seq<Deployment>
  {
    if ds == [] then []
    else
      var front, last := ds[..|ds| - 1], ds[|ds| - 1];
      if last.reference == reference then RowsOf(front, reference) + [last] else RowsOf(front, reference)
  }

  function Endpoints(ds: seq<Deployment>): (r: seq<Endpoint>)
    ensures |r| == |ds| && forall i | 0 <= i < |r| :: r[i] == EndpointOf(ds[i])
  {
    seq(|ds|, i requires 0 <= i < |ds| => EndpointOf(ds[i]))
  }

  function Routes(ds: seq<Deployment>): (r: seq<Route>)
    ensures |r| == |ds| && forall i | 0 <= i < |r| :: r[i] == RouteOf(ds[i])
  {
    seq(|ds|, i requires 0 <= i < |ds| => RouteOf(ds[i]))
  }

  lemma {:induction false} RowsOfMembers(ds: seq<Deployment>, reference: Text)
    ensures forall d :: d in RowsOf(ds, reference) <==> d in ds && d.reference == reference
  {
    if ds != [] {
      var front, last := ds[..|ds| - 1], ds[|ds| - 1];
      assert ds == front + [last];
      RowsOfMembers(front, reference);
    }
  }

  /** The rows of a reference are the file's rows with it, each once and in file order. */
  lemma {:induction false} RowsInOrder(ds: seq<Deployment>, reference: Text) returns (places: seq<nat>)
    ensures |places| == |RowsOf(ds, reference)|
    ensures forall i | 0 <= i < |places| :: places[i] < |ds| && RowsOf(ds, reference)[i] == ds[places[i]]
    ensures forall i, j | 0 <= i < j < |places| :: places[i] < places[j]
    ensures forall k | 0 <= k < |ds| :: ds[k].reference == reference <==> k in places
  {
    places := [];
    if ds != [] {
      var front, last := ds[..|ds| - 1], ds[|ds| - 1];
      places := RowsInOrder(front, reference);
      if last.reference == reference {
        places := places + [|ds| - 1];
      }
    }
  }

  /** A route says of its row what the row says of itself. */
  predicate Describes(route: Route, d: Deployment)
  {
    && route.id == d.id && route.provider == d.provider && route.reference == d.reference
    && route.upstream == d.upstream && route.regions == d.regions
    && route.acceptedParameters == (if d.observed.Some? then d.observed.value.acceptedParameters else None)
  }

  lemma RoutesDescribe(ds: seq<Deployment>)
    ensures forall i | 0 <= i < |ds| :: Describes(Routes(ds)[i], ds[i])
  {
  }

  // ----- acceptance and the indexes, as scans of the file -----

  predicate UniqueIds(ds: seq<Deployment>) { forall i, j | 0 <= i < j < |ds| :: ds[i].id != ds[j].id }

  /** No two revisions of one line are both current. */
  predicate OneCurrent(ds: seq<Deployment>)
  {
    forall d, e | d in ds && e in ds && d.current && e.current && SameLine(d.reference, e.reference) ::
      d.reference == e.reference
  }

  /** The same by the line that the source computes. */
  predicate OneByModelId(ds: seq<Deployment>)
  {
    forall d, e | d in ds && e in ds && d.current && e.current && ModelId(d.reference) == ModelId(e.reference) ::
      d.reference == e.reference
  }

  predicate AllValid(ds: seq<Deployment>) { forall d | d in ds :: RowValid(d) }

  predicate Acceptable(file: File, maxAge: int)
  {
    && maxAge > 0 && file.deployments != [] && file.snapshotId != [] && file.issuedAt.Some?
    && AllValid(file.deployments) && UniqueIds(file.deployments) && OneCurrent(file.deployments)
  }

  ghost predicate IndexesReferences(m: map<Text, RouteSet>, ds: seq<Deployment>)
  {
    forall reference ::
      && (reference in m <==> RowsOf(ds, reference) != [])
      && (reference in m ==> m[reference] == RouteSet(reference, Endpoints(RowsOf(ds, reference))))
  }

  /** Each line with a current row maps to that row's reference. */
  predicate IndexesCurrent(m: map<Text, Text>, ds: seq<Deployment>)
  {
    && (forall line | line in m :: exists d :: d in ds && d.current && d.reference == m[line] && ModelId(d.reference) == line)
    && (forall d | d in ds && d.current :: ModelId(d.reference) in m && m[ModelId(d.reference)] == d.reference)
  }

  /** The inventory a file builds. */
  ghost predicate Built(inv: Index, file: File, maxAge: int)
  {
    && Acceptable(file, maxAge)
    && inv.snapshotId == file.snapshotId && inv.issuedAt == file.issuedAt.value && inv.maxAge == maxAge
    && IndexesReferences(inv.byReference, file.deployments)
    && PointsCurrent(inv.currentOf, inv.byReference, file.deployments)
  }

  /** Each line with a current row, and no other, leads to the set of that row's reference. */
  predicate PointsCurrent(currentOf: map<Text, RouteSet>, byReference: map<Text, RouteSet>, ds: seq<Deployment>)
  {
    && (forall line | line in currentOf :: exists d :: d in ds && d.current && ModelId(d.reference) == line)
    && (forall d | d in ds && d.current ::
          && d.reference in byReference && ModelId(d.reference) in currentOf
          && currentOf[ModelId(d.reference)] == byReference[d.reference])
  }

  method RegionsDistinct(regions: seq<Text>) returns (ok: bool)
    ensures ok == Distinct(regions)
  {
    var seen: set<Text> := {};
    for i := 0 to |regions|
      invariant forall r :: r in seen <==> r in regions[..i]
      invariant Distinct(regions[..i])
    {
      if regions[i] in seen {
        return false;
      }
      assert regions[..i + 1] == regions[..i] + [regions[i]];
      seen := seen + {regions[i]};
    }
    assert regions[..|regions|] == regions;
    return true;
  }

  /** The scan of one modality list: sorted, none twice. */
  method ValidateModalities(modalities: Option<seq<Text>>) returns (ok: bool)
    ensures ok == ModalitiesValid(modalities)
  {
    hide Less;
    if modalities == None {
      return true;
    }
    var words := modalities.value;
    if words == [] {
      return false;
    }
    for i := 1 to |words|
      invariant StrictBy(Less, words[..i])
    {
      if !Less(words[i - 1], words[i]) {
        assert words[i - 1] == words[..][i - 1];
        return false;
      }
      StrictStep(words, i);
    }
    assert words[..|words|] == words;
    return true;
  }

  lemma StrictStep(words: seq<Text>, i: nat)
    requires 1 <= i < |words| && StrictBy(Less, words[..i]) && Less(words[i - 1], words[i])
    ensures StrictBy(Less, words[..i + 1])
  {
    hide Less;
    forall j | 0 <= j < i
      ensures Less(words[j], words[i])
    {
      if j < i - 1 {
        assert Less(words[..i][j], words[..i][i - 1]);
        LessTransitive(words[j], words[i - 1], words[i]);
      }
    }
    assert forall j, k | 0 <= j < k < i :: Less(words[..i][j], words[..i][k]);
  }

  method ValidateObserved(o: Observed) returns (ok: bool)
    ensures ok == ObservedValid(o)
  {
    hide ModalitiesValid;
    if o.contextTokens.Some? && o.contextTokens.value <= 0 {
      return false;
    }
    if o.maxOutputTokens.Some? && o.maxOutputTokens.value <= 0 {
      return false;
    }
    var inputs := ValidateModalities(o.inputModalities);
    if !inputs {
      return false;
    }
    var outputs := ValidateModalities(o.outputModalities);
    if !outputs {
      return false;
    }
    if o.reasoningEfforts.Some? {
      var efforts := o.reasoningEfforts.value;
      for i := 0 to |efforts|
        invariant Distinct(efforts[..i])
      {
        for j := 0 to i
          invariant forall k | 0 <= k < j :: efforts[k] != efforts[i]
        {
          if efforts[j] == efforts[i] {
            return false;
          }
        }
        assert efforts[..i + 1] == efforts[..i] + [efforts[i]];
      }
      assert efforts[..|efforts|] == efforts;
    }
    if o.realtime.Some? && !Realtime.Valid(o.realtime.value) {
      return false;
    }
    return o.audio.Some? ==> Audio.Valid(o.audio.value);
  }

  method Parse(file: File, maxAge: int) returns (r: Option<Index>)
    ensures r.Some? <==> Acceptable(file, maxAge)
    ensures r.Some? ==> Built(r.value, file, maxAge)
  {
    hide ModelId;
    hide AllValid;
    hide UniqueIds;
    hide OneByModelId;
    hide OneCurrent;
    hide IndexesReferences;
    hide IndexesCurrent;
    hide Distinct;
    hide ObservedValid;
    if maxAge <= 0 || file.deployments == [] || file.snapshotId == [] || file.issuedAt == None {
      return None;
    }
    var ds := file.deployments;
    CurrentByModelId(ds);
    var byReference: map<Text, RouteSet> := map[];
    var seenIds: set<Text> := {};
    var current: map<Text, Text> := map[];
    NothingIndexed();
    assert ds[..0] == [];
    for i := 0 to |ds|
      invariant AllValid(ds[..i]) && UniqueIds(ds[..i]) && OneByModelId(ds[..i])
      invariant seenIds == set d | d in ds[..i] :: d.id
      invariant IndexesReferences(byReference, ds[..i])
      invariant IndexesCurrent(current, ds[..i])
    {
      var d := ds[i];
      assert ds[..i + 1] == ds[..i] + [d];
      var observedOk := true;
      if d.observed.Some? {
        observedOk := ValidateObserved(d.observed.value);
      }
      var regionsOk := RegionsDistinct(d.regions);
      if |d.id| == 0 || |d.id| > 128 || !d.wellFormed || !Pinned(d.reference) || d.upstream == [] ||
         !observedOk || !regionsOk {
        InvalidRow(ds, i);
        return None;
      }
      RowStep(ds, i);
      if d.id in seenIds {
        return None;
      }
      seenIds := seenIds + {d.id};
      var endpoints := if d.reference in byReference then byReference[d.reference].endpoints else [];
      AddReference(byReference, ds[..i], d);
      byReference := byReference[d.reference := RouteSet(d.reference, endpoints + [EndpointOf(d)])];
      CurrentStep(current, ds, i);
      if d.current {
        var line := ModelId(d.reference);
        if line in current && current[line] != d.reference {
          return None;
        }
        current := current[line := d.reference];
      }
    }
    assert ds[..|ds|] == ds;
    var currentOf := PointCurrent(byReference, current, ds);
    return Some(Index(file.snapshotId, file.issuedAt.value, maxAge, byReference, currentOf));
  }

  lemma CurrentByModelId(ds: seq<Deployment>)
    ensures AllValid(ds) ==> (OneCurrent(ds) <==> OneByModelId(ds))
  {
    hide ModelId;
    hide SameLine;
    if AllValid(ds) {
      forall d, e | d in ds && e in ds
        ensures SameLine(d.reference, e.reference) <==> ModelId(d.reference) == ModelId(e.reference)
      {
        SameLineIsModelId(d.reference, e.reference);
      }
    }
  }

  lemma NothingIndexed()
    ensures AllValid([]) && UniqueIds([]) && OneByModelId([])
    ensures IndexesReferences(map[], []) && IndexesCurrent(map[], [])
  {
  }

  lemma InvalidRow(ds: seq<Deployment>, i: nat)
    requires i < |ds| && !RowValid(ds[i])
    ensures !AllValid(ds)
  {
  }

  /** A valid row joins the rows before it unless its id is taken. */
  lemma RowStep(ds: seq<Deployment>, i: nat)
    requires i < |ds| && RowValid(ds[i]) && AllValid(ds[..i]) && UniqueIds(ds[..i])
    ensures AllValid(ds[..i + 1])
    ensures if ds[i].id in (set d | d in ds[..i] :: d.id) then !UniqueIds(ds) else UniqueIds(ds[..i + 1])
  {
    assert ds[..i + 1] == ds[..i] + [ds[i]];
    if ds[i].id in (set d | d in ds[..i] :: d.id) {
      var d :| d in ds[..i] && d.id == ds[i].id;
      var j :| 0 <= j < i && ds[j] == d;
      assert ds[j].id == ds[i].id;
    }
  }

  /** A current row joins its line unless another revision is already current there. */
  lemma CurrentStep(current: map<Text, Text>, ds: seq<Deployment>, i: nat)
    requires i < |ds| && OneByModelId(ds[..i]) && IndexesCurrent(current, ds[..i])
    ensures var d := ds[i];
            var line := ModelId(d.reference);
            if !d.current then OneByModelId(ds[..i + 1]) && IndexesCurrent(current, ds[..i + 1])
            else if line in current && current[line] != d.reference then !OneByModelId(ds)
            else OneByModelId(ds[..i + 1]) && IndexesCurrent(current[line := d.reference], ds[..i + 1])
  {
    hide ModelId;
    var d := ds[i];
    var line := ModelId(d.reference);
    assert ds[..i + 1] == ds[..i] + [d];
    if d.current && line in current && current[line] != d.reference {
      var e :| e in ds[..i] && e.current && e.reference == current[line] && ModelId(e.reference) == line;
      assert e in ds && d in ds;
    }
  }

  /** The last loop of Parse: lines to the sets of their current references. */
  method PointCurrent(byReference: map<Text, RouteSet>, current: map<Text, Text>, ghost ds: seq<Deployment>)
    returns (currentOf: map<Text, RouteSet>)
    requires IndexesReferences(byReference, ds) && IndexesCurrent(current, ds)
    ensures PointsCurrent(currentOf, byReference, ds)
  {
    hide ModelId;
    CurrentIsIndexed(byReference, current, ds);
    currentOf := map[];
    var pending := current.Keys;
    while pending != {}
      invariant pending <= current.Keys && currentOf.Keys == current.Keys - pending
      invariant forall line | line in currentOf :: currentOf[line] == byReference[current[line]]
      decreases pending
    {
      var line :| line in pending;
      currentOf := currentOf[line := byReference[current[line]]];
      pending := pending - {line};
    }
  }

  lemma CurrentIsIndexed(byReference: map<Text, RouteSet>, current: map<Text, Text>, ds: seq<Deployment>)
    requires IndexesReferences(byReference, ds) && IndexesCurrent(current, ds)
    ensures forall line | line in current :: current[line] in byReference
  {
    hide ModelId;
    forall line | line in current
      ensures current[line] in byReference
    {
      RowsOfMembers(ds, current[line]);
    }
  }

  lemma AddReference(m: map<Text, RouteSet>, front: seq<Deployment>, d: Deployment)
    requires IndexesReferences(m, front)
    ensures var endpoints := if d.reference in m then m[d.reference].endpoints else [];
            IndexesReferences(m[d.reference := RouteSet(d.reference, endpoints + [EndpointOf(d)])], front + [d])
  {
    var ds := front + [d];
    assert ds[..|ds| - 1] == front;
    var rows := RowsOf(front, d.reference);
    assert Endpoints(rows + [d]) == Endpoints(rows) + [EndpointOf(d)];
    assert rows == [] ==> Endpoints(rows) == [];
  }

  // ----- resolution -----

  function Resolve(inv: Index, reference: Text, at: int): Resolution
  {
    if reference in inv.byReference then Found(inv.byReference[reference])
    else if Pinned(reference) then NoRoute
    else if at - inv.issuedAt > inv.maxAge then SnapshotTooStale
    else if ModelId(reference) in inv.currentOf then Found(inv.currentOf[ModelId(reference)])
    else NoRoute
  }

  /** The routes a set can be served by: each carries the set's one reference. */
  function Candidates(s: RouteSet): (r: seq<Route>)
    ensures |r| == |s.endpoints|
  {
    seq(|s.endpoints|, i requires 0 <= i < |s.endpoints| =>
      var e := s.endpoints[i];
      Route(e.id, e.provider, s.reference, e.upstream, e.regions, AcceptedOf(e.observed)))
  }

  /** The rows that serve a reference: its own, or its line's current revision's. */
  ghost predicate Serves(ds: seq<Deployment>, reference: Text, revision: Text)
  {
    if Pinned(reference) then revision == reference
    else exists d :: d in ds && d.current && d.reference == revision && OfLine(revision, reference)
  }

  /** At most one revision serves a reference. */
  lemma ServedOnce(ds: seq<Deployment>, reference: Text)
    requires OneCurrent(ds)
    ensures forall a, b | Serves(ds, reference, a) && Serves(ds, reference, b) :: a == b
  {
    forall a, b | OfLine(a, reference) && OfLine(b, reference) && !Pinned(reference)
      ensures SameLine(a, b)
    {
      assert a[..|reference|] == b[..|reference|];
    }
  }

  /** A line is served by the current revision that begins with it. */
  lemma ServedByModelId(ds: seq<Deployment>, reference: Text)
    requires !Pinned(reference)
    ensures forall revision :: Serves(ds, reference, revision) <==>
              exists d :: d in ds && d.current && d.reference == revision && Pinned(revision) && ModelId(revision) == reference
  {
    hide OfLine;
    hide ModelId;
    hide Pinned;
    forall revision
      ensures OfLine(revision, reference) <==> Pinned(revision) && ModelId(revision) == reference
    {
      AtIsNotInLine(reference);
      OfLineIsModelId(revision, reference);
    }
  }

  lemma AtIsNotInLine(reference: Text)
    ensures !Pinned(reference) <==> AT !in reference
  {
  }

  /**
   * Resolving is scanning the file: a pinned reference finds exactly its rows at
   * any age; an unpinned one, inside the horizon, finds exactly the rows of the
   * revision that is current for its line. What is found is never empty, and
   * its candidates are those rows' own routes in file order.
   */
  lemma ResolveIsAScan(inv: Index, file: File, maxAge: int, reference: Text, at: int)
    requires Built(inv, file, maxAge)
    ensures var ds := file.deployments;
            match Resolve(inv, reference, at)
            case SnapshotTooStale => !Pinned(reference) && at - inv.issuedAt > maxAge
            case NoRoute =>
              && (Pinned(reference) || at - inv.issuedAt <= maxAge)
              && forall revision | Serves(ds, reference, revision) :: RowsOf(ds, revision) == []
            case Found(s) =>
              && (Pinned(reference) || at - inv.issuedAt <= maxAge)
              && Serves(ds, reference, s.reference)
              && (forall revision | Serves(ds, reference, revision) :: revision == s.reference)
              && var rows := RowsOf(ds, s.reference);
              && Candidates(s) == Routes(rows) != []
              && forall i | 0 <= i < |rows| :: Describes(Candidates(s)[i], rows[i])
    ensures Pinned(reference) ==> forall later :: Resolve(inv, reference, later) == Resolve(inv, reference, at)
  {
    hide ModelId;
    hide OneCurrent;
    var ds := file.deployments;
    ServedOnce(ds, reference);
    if !Pinned(reference) {
      ServedByModelId(ds, reference);
    }
    assert forall d | d in ds :: RowValid(d);
    if Resolve(inv, reference, at).Found? {
      RoutesDescribe(RowsOf(ds, Resolve(inv, reference, at).set_.reference));
    }
    AllPinned(ds, reference);
    LineIsUnpinned(reference);
    if reference in inv.byReference {
      CandidatesOfRows(ds, inv.byReference[reference]);
    } else if !Pinned(reference) {
      if reference in inv.currentOf {
        var d :| d in ds && d.current && ModelId(d.reference) == reference;
        CandidatesOfRows(ds, inv.byReference[d.reference]);
      }
    }
  }

  lemma LineIsUnpinned(reference: Text)
    ensures !Pinned(reference) ==> ModelId(reference) == reference
  {
  }

  lemma AllPinned(ds: seq<Deployment>, reference: Text)
    requires AllValid(ds)
    ensures RowsOf(ds, reference) != [] ==> Pinned(reference)
  {
    RowsOfMembers(ds, reference);
    if RowsOf(ds, reference) != [] {
      assert RowsOf(ds, reference)[0] in RowsOf(ds, reference);
    }
  }

  lemma CandidatesOfRows(ds: seq<Deployment>, s: RouteSet)
    requires s == RouteSet(s.reference, Endpoints(RowsOf(ds, s.reference)))
    ensures Candidates(s) == Routes(RowsOf(ds, s.reference))
  {
    var rows := RowsOf(ds, s.reference);
    RowsOfMembers(ds, s.reference);
    forall i | 0 <= i < |rows|
      ensures Candidates(s)[i] == RouteOf(rows[i])
    {
      assert rows[i] in rows;
    }
  }

  // ----- every row exactly once -----

  function RouteBag(ds: seq<Deployment>, references: set<Text>): multiset<Route>
  {
    if ds == [] then multiset{}
    else
      var front, last := ds[..|ds| - 1], ds[|ds| - 1];
      RouteBag(front, references) + (if last.reference in references then multiset{RouteOf(last)} else multiset{})
  }

  lemma {:induction false} BagGrows(ds: seq<Deployment>, done: set<Text>, reference: Text)
    requires reference !in done
    ensures RouteBag(ds, done + {reference}) == RouteBag(ds, done) + multiset(Routes(RowsOf(ds, reference)))
  {
    if ds != [] {
      var front, last := ds[..|ds| - 1], ds[|ds| - 1];
      BagGrows(front, done, reference);
      RoutesStep(RowsOf(front, reference), last);
    }
  }

  lemma RoutesStep(rows: seq<Deployment>, last: Deployment)
    ensures multiset(Routes(rows + [last])) == multiset(Routes(rows)) + multiset{RouteOf(last)}
  {
    assert Routes(rows + [last]) == Routes(rows) + [RouteOf(last)];
  }

  lemma {:induction false} WholeBag(ds: seq<Deployment>, references: set<Text>)
    requires forall d | d in ds :: d.reference in references
    ensures RouteBag(ds, references) == multiset(Routes(ds))
  {
    if ds != [] {
      var front, last := ds[..|ds| - 1], ds[|ds| - 1];
      assert ds == front + [last];
      WholeBag(front, references);
      assert Routes(ds) == Routes(front) + [RouteOf(last)];
    }
  }

  lemma {:induction false} EmptyBag(ds: seq<Deployment>)
    ensures RouteBag(ds, {}) == multiset{}
  {
    if ds != [] {
      EmptyBag(ds[..|ds| - 1]);
    }
  }

  function RouteId(): Route -> Text
  {
    (route: Route) => route.id
  }

  /**
   * The descriptors, gathered over the index in any order and sorted by id: every
   * row of the file exactly once, with its own reference.
   */
  method DeploymentDescriptors(inv: Index, ghost file: File, ghost maxAge: int) returns (r: seq<Route>)
    requires Built(inv, file, maxAge)
    ensures r == SortBy(RouteId(), Routes(file.deployments))
    ensures multiset(r) == multiset(Routes(file.deployments))
    ensures forall i, j | 0 <= i < j < |r| :: !ByteBefore(r[j].id, r[i].id)
  {
    hide Built;
    hide RouteBag;
    hide SortBy;
    ghost var ds := file.deployments;
    var gathered: seq<Route> := [];
    var pending := inv.byReference.Keys;
    EmptyBag(ds);
    assert inv.byReference.Keys - pending == {};
    while pending != {}
      invariant pending <= inv.byReference.Keys
      invariant multiset(gathered) == RouteBag(ds, inv.byReference.Keys - pending)
      decreases pending
    {
      var reference :| reference in pending;
      ghost var done := inv.byReference.Keys - pending;
      CandidatesOfIndex(inv, file, maxAge, reference);
      BagGrows(ds, done, reference);
      assert done + {reference} == inv.byReference.Keys - (pending - {reference});
      gathered := gathered + Candidates(inv.byReference[reference]);
      pending := pending - {reference};
    }
    RoutableReferences(inv, file, maxAge);
    assert inv.byReference.Keys - {} == inv.byReference.Keys;
    WholeBag(ds, inv.byReference.Keys);
    BuiltIdsDistinguish(inv, file, maxAge);
    DistinguishPermuted(RouteId(), Routes(ds), gathered);
    SortByPermuted(RouteId(), gathered, Routes(ds));
    r := SortBy(RouteId(), gathered);
    SortBySorts(RouteId(), gathered);
    forall i, j | 0 <= i < j < |r|
      ensures !ByteBefore(r[j].id, r[i].id)
    {
      assert !Less(RouteId()(r[j]), RouteId()(r[i]));
      LessIsByteOrder(r[j].id, r[i].id);
    }
  }

  lemma CandidatesOfIndex(inv: Index, file: File, maxAge: int, reference: Text)
    requires Built(inv, file, maxAge) && reference in inv.byReference
    ensures Candidates(inv.byReference[reference]) == Routes(RowsOf(file.deployments, reference))
  {
    CandidatesOfRows(file.deployments, inv.byReference[reference]);
  }

  lemma BuiltIdsDistinguish(inv: Index, file: File, maxAge: int)
    requires Built(inv, file, maxAge)
    ensures KeysDistinguish(RouteId(), Routes(file.deployments))
  {
    RouteIdsDistinguish(file.deployments);
  }

  lemma RouteIdsDistinguish(ds: seq<Deployment>)
    requires UniqueIds(ds)
    ensures KeysDistinguish(RouteId(), Routes(ds))
  {
    forall i, j | 0 <= i < |ds| && 0 <= j < |ds| && RouteId()(Routes(ds)[i]) == RouteId()(Routes(ds)[j])
      ensures Routes(ds)[i] == Routes(ds)[j]
    {
      assert ds[i].id == ds[j].id;
    }
  }

  datatype Lookup = Ambiguous | Absent | Present(route: Route)

  /** An endpoint with this id stands at this place of the index. */
  predicate StandsAt(inv: Index, id: Text, reference: Text, i: int)
  {
    reference in inv.byReference && 0 <= i < |inv.byReference[reference].endpoints| &&
    inv.byReference[reference].endpoints[i].id == id
  }

  /** What the listing finds among the references already looked at. */
  ghost predicate FoundAmong(inv: Index, id: Text, r: Lookup, looked: set<Text>)
  {
    match r
    case Ambiguous =>
      exists a, i, b, j :: (a, i) != (b, j) && StandsAt(inv, id, a, i) && StandsAt(inv, id, b, j)
    case Absent => forall a, i | a in looked :: !StandsAt(inv, id, a, i)
    case Present(route) =>
      exists a, i ::
        && StandsAt(inv, id, a, i) && a in looked && route == Candidates(inv.byReference[a])[i]
        && forall b, j | b in looked && StandsAt(inv, id, b, j) :: (b, j) == (a, i)
  }

  /** The places of one id within one set. */
  method FindInSet(s: RouteSet, id: Text) returns (first: Option<nat>, again: Option<nat>)
    ensures first.None? ==> again.None? && forall i | 0 <= i < |s.endpoints| :: s.endpoints[i].id != id
    ensures first.Some? ==> first.value < |s.endpoints| && s.endpoints[first.value].id == id
    ensures again.Some? ==> first.Some? && first.value < again.value < |s.endpoints| && s.endpoints[again.value].id == id
    ensures first.Some? && again.None? ==>
              forall i | 0 <= i < |s.endpoints| && i != first.value :: s.endpoints[i].id != id
  {
    first, again := None, None;
    for i := 0 to |s.endpoints|
      invariant again.None?
      invariant first.None? ==> forall j | 0 <= j < i :: s.endpoints[j].id != id
      invariant first.Some? ==> first.value < i && s.endpoints[first.value].id == id
      invariant first.Some? ==> forall j | 0 <= j < i && j != first.value :: s.endpoints[j].id != id
    {
      if s.endpoints[i].id == id {
        if first.Some? {
          return first, Some(i);
        }
        first := Some(i);
      }
    }
  }

  /** The route of one exact id; a second place for it is an error, whatever the index holds. */
  method DeploymentRoute(inv: Index, id: Text) returns (r: Lookup)
    ensures FoundAmong(inv, id, r, inv.byReference.Keys)
  {
    hide Candidates;
    r := Absent;
    var pending := inv.byReference.Keys;
    while pending != {}
      invariant pending <= inv.byReference.Keys && !r.Ambiguous?
      invariant FoundAmong(inv, id, r, inv.byReference.Keys - pending)
      decreases pending
    {
      var reference :| reference in pending;
      var s := inv.byReference[reference];
      var first, again := FindInSet(s, id);
      ghost var looked := inv.byReference.Keys - pending;
      assert looked + {reference} == inv.byReference.Keys - (pending - {reference});
      if again.Some? {
        assert StandsAt(inv, id, reference, first.value) && StandsAt(inv, id, reference, again.value);
        return Ambiguous;
      }
      if first.Some? {
        assert StandsAt(inv, id, reference, first.value);
        if r.Present? {
          ghost var a, i :| StandsAt(inv, id, a, i) && a in looked;
          return Ambiguous;
        }
        r := Present(Candidates(s)[first.value]);
        assert FoundAmong(inv, id, r, looked + {reference});
      } else {
        StillFound(inv, id, r, looked, reference);
      }
      pending := pending - {reference};
    }
    assert inv.byReference.Keys - pending == inv.byReference.Keys;
  }

  lemma StillFound(inv: Index, id: Text, r: Lookup, looked: set<Text>, reference: Text)
    requires FoundAmong(inv, id, r, looked) && forall i :: !StandsAt(inv, id, reference, i)
    ensures FoundAmong(inv, id, r, looked + {reference})
  {
    hide Candidates;
    if r.Present? {
      var a, i :|
        && StandsAt(inv, id, a, i) && a in looked && r.route == Candidates(inv.byReference[a])[i]
        && forall b, j | b in looked && StandsAt(inv, id, b, j) :: (b, j) == (a, i);
      assert forall b, j | b in looked + {reference} && StandsAt(inv, id, b, j) :: (b, j) == (a, i);
    }
  }

  /** In a built inventory no id is ambiguous: the answer is its one row's route, or that there is none. */
  lemma LookupIsAScan(inv: Index, file: File, maxAge: int, id: Text, r: Lookup)
    requires Built(inv, file, maxAge) && FoundAmong(inv, id, r, inv.byReference.Keys)
    ensures !r.Ambiguous?
    ensures r.Present? <==> exists d :: d in file.deployments && d.id == id
    ensures r.Present? ==> exists d :: d in file.deployments && d.id == id && r.route == RouteOf(d)
  {
    hide Built;
    hide StandsAt;
    hide Candidates;
    forall a, i, b, j | StandsAt(inv, id, a, i) && StandsAt(inv, id, b, j)
      ensures (a, i) == (b, j)
    {
      StandsOnce(inv, file, maxAge, id, a, i, b, j);
    }
    if r.Present? {
      PresentIsRow(inv, file, maxAge, id, r);
    }
    if d :| d in file.deployments && d.id == id {
      RowStands(inv, file, maxAge, d);
    }
  }

  lemma PresentIsRow(inv: Index, file: File, maxAge: int, id: Text, r: Lookup)
    requires Built(inv, file, maxAge) && FoundAmong(inv, id, r, inv.byReference.Keys) && r.Present?
    ensures exists d :: d in file.deployments && d.id == id && r.route == RouteOf(d)
  {
    hide Built;
    hide Candidates;
    var a, i :| StandsAt(inv, id, a, i) && r.route == Candidates(inv.byReference[a])[i];
    StandsForRow(inv, file, maxAge, id, a, i);
  }

  /** What stands in the index is a row of the file. */
  lemma StandsForRow(inv: Index, file: File, maxAge: int, id: Text, a: Text, i: int)
    requires Built(inv, file, maxAge) && StandsAt(inv, id, a, i)
    ensures 0 <= i < |RowsOf(file.deployments, a)|
    ensures var d := RowsOf(file.deployments, a)[i];
            d in file.deployments && d.id == id && d.reference == a && Candidates(inv.byReference[a])[i] == RouteOf(d)
  {
    RowsOfMembers(file.deployments, a);
    CandidatesOfRows(file.deployments, inv.byReference[a]);
    assert RowsOf(file.deployments, a)[i] in RowsOf(file.deployments, a);
  }

  lemma StandsOnce(inv: Index, file: File, maxAge: int, id: Text, a: Text, i: int, b: Text, j: int)
    requires Built(inv, file, maxAge) && StandsAt(inv, id, a, i) && StandsAt(inv, id, b, j)
    ensures (a, i) == (b, j)
  {
    hide StandsAt;
    var ds := file.deployments;
    StandsForRow(inv, file, maxAge, id, a, i);
    StandsForRow(inv, file, maxAge, id, b, j);
    OneRow(ds, RowsOf(ds, a)[i], RowsOf(ds, b)[j]);
    RowsDistinct(ds, a);
  }

  lemma RowStands(inv: Index, file: File, maxAge: int, d: Deployment)
    requires Built(inv, file, maxAge) && d in file.deployments
    ensures d.reference in inv.byReference && exists i :: StandsAt(inv, d.id, d.reference, i)
  {
    var ds := file.deployments;
    RowsOfMembers(ds, d.reference);
    var i :| 0 <= i < |RowsOf(ds, d.reference)| && RowsOf(ds, d.reference)[i] == d;
    assert StandsAt(inv, d.id, d.reference, i);
  }

  lemma OneRow(ds: seq<Deployment>, d: Deployment, e: Deployment)
    requires UniqueIds(ds) && d in ds && e in ds && d.id == e.id
    ensures d == e
  {
  }

  lemma {:induction false} RowsDistinct(ds: seq<Deployment>, reference: Text)
    requires UniqueIds(ds)
    ensures UniqueIds(RowsOf(ds, reference))
  {
    if ds != [] {
      var front, last := ds[..|ds| - 1], ds[|ds| - 1];
      RowsDistinct(front, reference);
      RowsOfMembers(front, reference);
      var rows := RowsOf(front, reference);
      forall i | 0 <= i < |rows|
        ensures rows[i].id != last.id
      {
        assert rows[i] in front;
        var j :| 0 <= j < |front| && front[j] == rows[i];
        assert ds[j].id != ds[|ds| - 1].id;
      }
    }
  }

  /** The references that are routable but no line's current, sorted. */
  method PinnedOnlyReferences(inv: Index, ghost file: File, ghost maxAge: int) returns (r: seq<Text>)
    requires Built(inv, file, maxAge)
    ensures forall reference :: reference in r <==>
              (exists d :: d in file.deployments && d.reference == reference) &&
              !(exists d :: d in file.deployments && d.reference == reference && d.current)
    ensures SortedBy(Itself(), r)
  {
    hide Built;
    var current: set<Text> := set line | line in inv.currentOf :: inv.currentOf[line].reference;
    CurrentReferences(inv, file, maxAge);
    RoutableReferences(inv, file, maxAge);
    var gathered: seq<Text> := [];
    var pending := inv.byReference.Keys;
    while pending != {}
      invariant pending <= inv.byReference.Keys
      invariant forall reference :: reference in gathered <==>
                  reference in inv.byReference && reference !in pending && reference !in current
      decreases pending
    {
      var reference :| reference in pending;
      if |inv.byReference[reference].endpoints| != 0 && reference !in current {
        gathered := gathered + [reference];
      }
      pending := pending - {reference};
    }
    r := SortBy(Itself(), gathered);
    SortBySorts(Itself(), gathered);
    SameElements(r, gathered);
  }

  /** The index holds exactly the file's references, each with a row. */
  lemma RoutableReferences(inv: Index, file: File, maxAge: int)
    requires Built(inv, file, maxAge)
    ensures forall reference :: reference in inv.byReference <==>
              exists d :: d in file.deployments && d.reference == reference
    ensures forall reference | reference in inv.byReference :: inv.byReference[reference].endpoints != []
  {
    hide ModelId;
    var ds := file.deployments;
    forall reference
      ensures reference in inv.byReference <==> exists d :: d in ds && d.reference == reference
      ensures reference in inv.byReference ==> inv.byReference[reference].endpoints != []
    {
      RowsOfMembers(ds, reference);
      if RowsOf(ds, reference) != [] {
        assert RowsOf(ds, reference)[0] in RowsOf(ds, reference);
      }
    }
  }

  lemma CurrentReferences(inv: Index, file: File, maxAge: int)
    requires Built(inv, file, maxAge)
    ensures var current := set line | line in inv.currentOf :: inv.currentOf[line].reference;
            forall reference :: reference in current <==>
              exists d :: d in file.deployments && d.reference == reference && d.current
  {
    hide ModelId;
    hide RowsOf;
    hide Acceptable;
    var ds := file.deployments;
    var current := set line | line in inv.currentOf :: inv.currentOf[line].reference;
    forall d | d in ds && d.current
      ensures d.reference in current
    {
      assert inv.currentOf[ModelId(d.reference)].reference == d.reference;
    }
    forall line | line in inv.currentOf
      ensures exists d :: d in ds && d.reference == inv.currentOf[line].reference && d.current
    {
      var d :| d in ds && d.current && ModelId(d.reference) == line;
      assert inv.currentOf[ModelId(d.reference)].reference == d.reference;
    }
  }
}
