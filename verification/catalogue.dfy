// The catalogue of internal/inventory/inventory.go: each line's deployments
// folded into what all of their reports allow.

/** Left folds over reports, where a silent reporter abstains. */
module Reports {
  import opened Base

  /** The smaller of what was known and what is reported. */
  function Minimum(current: Option<int>, reported: Option<int>): Option<int>
  {
    if reported == None then current
    else if current == None || reported.value < current.value then reported
    else current
  }

  function Least<T>(field: T -> Option<int>, xs: seq<T>): Option<int>
  {
    if xs == [] then None else Minimum(Least(field, xs[..|xs| - 1]), field(xs[|xs| - 1]))
  }

  /** Narrowing a set by one report. */
  function Narrow<V>(current: Option<set<V>>, reported: Option<set<V>>): Option<set<V>>
  {
    match (current, reported)
    case (_, None) => current
    case (None, Some(r)) => Some(r)
    case (Some(c), Some(r)) => Some(c * r)
  }

  function Common<T, V>(field: T -> Option<set<V>>, xs: seq<T>): Option<set<V>>
  {
    if xs == [] then None else Narrow(Common(field, xs[..|xs| - 1]), field(xs[|xs| - 1]))
  }

  function Both(current: Option<bool>, reported: Option<bool>): Option<bool>
  {
    if reported == None then current
    else Some(reported.value && (current == None || current.value))
  }

  function Every<T>(field: T -> Option<bool>, xs: seq<T>): Option<bool>
  {
    if xs == [] then None else Both(Every(field, xs[..|xs| - 1]), field(xs[|xs| - 1]))
  }

  /** The first report, in order. */
  function First<T, V>(field: T -> Option<V>, xs: seq<T>): Option<V>
  {
    if xs == [] then None
    else
      var before := First(field, xs[..|xs| - 1]);
      if before.Some? then before else field(xs[|xs| - 1])
  }

  // ----- greatest lower bounds -----

  /** Absent when nobody reports; else a report, and at most every report. */
  lemma {:induction false} LeastIsGreatestLowerBound<T>(field: T -> Option<int>, xs: seq<T>)
    ensures Least(field, xs).None? <==> forall x | x in xs :: field(x).None?
    ensures Least(field, xs).Some? ==>
              && (exists x :: x in xs && field(x) == Least(field, xs))
              && forall x | x in xs && field(x).Some? :: Least(field, xs).value <= field(x).value
  {
    if xs != [] {
      var front, last := xs[..|xs| - 1], xs[|xs| - 1];
      assert xs == front + [last];
      LeastIsGreatestLowerBound(field, front);
    }
  }

  /** Absent when nobody reports; else exactly what every report includes. */
  lemma {:induction false} CommonIsGreatestLowerBound<T, V(!new)>(field: T -> Option<set<V>>, xs: seq<T>)
    ensures Common(field, xs).None? <==> forall x | x in xs :: field(x).None?
    ensures Common(field, xs).Some? ==>
              forall v :: v in Common(field, xs).value <==> forall x | x in xs && field(x).Some? :: v in field(x).value
  {
    if xs != [] {
      var front, last := xs[..|xs| - 1], xs[|xs| - 1];
      assert xs == front + [last];
      CommonIsGreatestLowerBound(field, front);
      assert last in xs && forall x | x in front :: x in xs;
    }
  }

  /** Absent when nobody reports; else true exactly when every report is. */
  lemma {:induction false} EveryIsGreatestLowerBound<T>(field: T -> Option<bool>, xs: seq<T>)
    ensures Every(field, xs).None? <==> forall x | x in xs :: field(x).None?
    ensures Every(field, xs).Some? ==>
              (Every(field, xs).value <==> forall x | x in xs && field(x).Some? :: field(x).value)
  {
    if xs != [] {
      var front, last := xs[..|xs| - 1], xs[|xs| - 1];
      assert xs == front + [last];
      EveryIsGreatestLowerBound(field, front);
      assert last in xs && forall x | x in front :: x in xs;
    }
  }
}

module Catalogue {
  import opened Base
  import opened Ordering
  import opened Permutations
  import opened Inventory
  import opened Reports
  import Intersections
  import Realtime
  import Audio

  const MILLISECOND := 1_000_000

  datatype ListPriceObservation = ListPriceObservation(id: Text, provider: Text, price: ListPrice)

  /** One line's entry. `createdAt` keeps whole milliseconds, as the contract's timestamps do. */
  datatype Entry = Entry(
    model: Text, reference: Text, providers: seq<Text>,
    displayName: Option<Text>, createdAt: Option<int>, contextTokens: Option<int>, maxOutputTokens: Option<int>,
    inputModalities: Option<seq<Text>>, outputModalities: Option<seq<Text>>, supportsTools: Option<bool>,
    reasoningEfforts: Option<seq<Effort>>, listPrices: seq<ListPriceObservation>,
    realtime: Option<Realtime.Statement>, audio: Option<Audio.Statement>)

  // ----- the fields of an endpoint's report -----

  function NameOf(): Endpoint -> Option<Text>
  {
    (e: Endpoint) => if e.observed.Some? then e.observed.value.displayName else None
  }

  function CreatedOf(): Endpoint -> Option<int>
  {
    (e: Endpoint) => if e.observed.Some? then e.observed.value.createdAt else None
  }

  function ContextOf(): Endpoint -> Option<int>
  {
    (e: Endpoint) => if e.observed.Some? then e.observed.value.contextTokens else None
  }

  function OutputCapOf(): Endpoint -> Option<int>
  {
    (e: Endpoint) => if e.observed.Some? then e.observed.value.maxOutputTokens else None
  }

  function ToolsOf(): Endpoint -> Option<bool>
  {
    (e: Endpoint) => if e.observed.Some? then e.observed.value.supportsTools else None
  }

  function SetOf<V(==)>(values: Option<seq<V>>): Option<set<V>>
  {
    match values
    case None => None
    case Some(s) => Some(set v | v in s)
  }

  function InputsOf(): Endpoint -> Option<set<Text>>
  {
    (e: Endpoint) => if e.observed.Some? then SetOf(e.observed.value.inputModalities) else None
  }

  function OutputsOf(): Endpoint -> Option<set<Text>>
  {
    (e: Endpoint) => if e.observed.Some? then SetOf(e.observed.value.outputModalities) else None
  }

  function EffortsOf(): Endpoint -> Option<set<Effort>>
  {
    (e: Endpoint) => if e.observed.Some? then SetOf(e.observed.value.reasoningEfforts) else None
  }

  function PricesOf(endpoints: seq<Endpoint>): seq<ListPriceObservation>
  {
    if endpoints == [] then []
    else
      var front, e := endpoints[..|endpoints| - 1], endpoints[|endpoints| - 1];
      if e.observed.Some? && e.observed.value.listPrice.Some?
      then PricesOf(front) + [ListPriceObservation(e.id, e.provider, e.observed.value.listPrice.value)]
      else PricesOf(front)
  }

  function RealtimeOf(endpoints: seq<Endpoint>): Option<Realtime.Statement>
  {
    if endpoints == [] then None
    else
      var e := endpoints[|endpoints| - 1];
      Realtime.Aggregate(RealtimeOf(endpoints[..|endpoints| - 1]), if e.observed.Some? then e.observed.value.realtime else None)
  }

  function AudioOf(endpoints: seq<Endpoint>): Option<Audio.Statement>
  {
    if endpoints == [] then None
    else
      var e := endpoints[|endpoints| - 1];
      Audio.Aggregate(AudioOf(endpoints[..|endpoints| - 1]), if e.observed.Some? then e.observed.value.audio else None)
  }

  // ----- canonical renderings -----

  /** Some enumeration of a set. */
  ghost function Listed<V(!new)>(s: set<V>): (r: seq<V>)
    ensures multiset(r) == multiset(s)
  {
    if s == {} then []
    else
      var v :| v in s;
      assert s == (s - {v}) + {v};
      [v] + Listed(s - {v})
  }

  /** A set's members in order, each once. */
  ghost function SortedKeys(s: set<Text>): seq<Text>
  {
    SortBy(Itself(), Listed(s))
  }

  /** Any enumeration of a set sorts to its canonical rendering. */
  lemma SortedEnumeration(keys: seq<Text>, s: set<Text>)
    requires multiset(keys) == multiset(s)
    ensures SortBy(Itself(), keys) == SortedKeys(s)
  {
    SortByPermuted(Itself(), keys, Listed(s));
  }

  method RenderKeys(s: set<Text>) returns (keys: seq<Text>)
    ensures keys == SortedKeys(s)
    ensures SortedBy(Itself(), keys) && multiset(keys) == multiset(s)
  {
    SortedKeysList(s);
    keys := [];
    var pending := s;
    while pending != {}
      invariant pending <= s && multiset(keys) + multiset(pending) == multiset(s)
      decreases pending
    {
      var key :| key in pending;
      assert pending == (pending - {key}) + {key};
      keys := keys + [key];
      pending := pending - {key};
    }
    SortedEnumeration(keys, s);
    return SortBy(Itself(), keys);
  }

  const EFFORTS := [Low, Medium, High]

  /** A set of efforts in ascending order. */
  function RenderEfforts(s: set<Effort>): seq<Effort>
  {
    Filter((e: Effort) => e in s, EFFORTS)
  }

  function EndpointId(): Endpoint -> Text
  {
    (e: Endpoint) => e.id
  }

  ghost function RenderSet(s: Option<set<Text>>): Option<seq<Text>>
  {
    match s case None => None case Some(keys) => Some(SortedKeys(keys))
  }

  function Stamp(at: Option<int>): Option<int>
  {
    match at case None => None case Some(n) => Some(n - n % MILLISECOND)
  }

  /** The entry of one line: every field read off the deployments in id order. */
  ghost function EntryOf(model: Text, s: RouteSet): Entry
  {
    var ordered := SortBy(EndpointId(), s.endpoints);
    var efforts := Common(EffortsOf(), ordered);
    Entry(model, s.reference, SortedKeys(set e | e in s.endpoints :: e.provider),
          First(NameOf(), ordered), Stamp(Reports.Least(CreatedOf(), ordered)),
          Reports.Least(ContextOf(), ordered), Reports.Least(OutputCapOf(), ordered),
          RenderSet(Common(InputsOf(), ordered)), RenderSet(Common(OutputsOf(), ordered)),
          Every(ToolsOf(), ordered),
          match efforts case None => None case Some(es) => Some(RenderEfforts(es)),
          PricesOf(ordered), RealtimeOf(ordered), AudioOf(ordered))
  }

  lemma FoldStart()
    ensures First(NameOf(), []) == None && Reports.Least(CreatedOf(), []) == None
    ensures Reports.Least(ContextOf(), []) == None && Reports.Least(OutputCapOf(), []) == None
    ensures Common(InputsOf(), []) == None && Common(OutputsOf(), []) == None && Common(EffortsOf(), []) == None
    ensures Every(ToolsOf(), []) == None && PricesOf([]) == [] && RealtimeOf([]) == None && AudioOf([]) == None
  {
  }

  /** Each fold takes one more endpoint. */
  lemma FoldStep(xs: seq<Endpoint>, i: nat)
    requires i < |xs|
    ensures var e, front, more := xs[i], xs[..i], xs[..i + 1];
            && First(NameOf(), more) == (if First(NameOf(), front).Some? then First(NameOf(), front) else NameOf()(e))
            && Reports.Least(CreatedOf(), more) == Minimum(Reports.Least(CreatedOf(), front), CreatedOf()(e))
            && Reports.Least(ContextOf(), more) == Minimum(Reports.Least(ContextOf(), front), ContextOf()(e))
            && Reports.Least(OutputCapOf(), more) == Minimum(Reports.Least(OutputCapOf(), front), OutputCapOf()(e))
            && Common(InputsOf(), more) == Narrow(Common(InputsOf(), front), InputsOf()(e))
            && Common(OutputsOf(), more) == Narrow(Common(OutputsOf(), front), OutputsOf()(e))
            && Common(EffortsOf(), more) == Narrow(Common(EffortsOf(), front), EffortsOf()(e))
            && Every(ToolsOf(), more) == Both(Every(ToolsOf(), front), ToolsOf()(e))
            && RealtimeOf(more) == Realtime.Aggregate(RealtimeOf(front), if e.observed.Some? then e.observed.value.realtime else None)
            && AudioOf(more) == Audio.Aggregate(AudioOf(front), if e.observed.Some? then e.observed.value.audio else None)
            && PricesOf(more) ==
               if e.observed.Some? && e.observed.value.listPrice.Some?
               then PricesOf(front) + [ListPriceObservation(e.id, e.provider, e.observed.value.listPrice.value)]
               else PricesOf(front)
  {
    hide Realtime.Aggregate;
    hide Audio.Aggregate;
    hide Minimum;
    hide Narrow;
    hide Both;
    hide NameOf;
    hide CreatedOf;
    hide ContextOf;
    hide OutputCapOf;
    hide InputsOf;
    hide OutputsOf;
    hide EffortsOf;
    hide ToolsOf;
    assert xs[..i + 1][..i] == xs[..i];
  }

  method Aggregate(model: Text, s: RouteSet, providers: seq<Text>) returns (entry: Entry)
    requires providers == SortedKeys(set e | e in s.endpoints :: e.provider)
    ensures entry == EntryOf(model, s)
  {
    hide Realtime.Aggregate;
    hide Audio.Aggregate;
    hide SortedKeys;
    hide RenderEfforts;
    hide First;
    hide Reports.Least;
    hide Common;
    hide Every;
    hide PricesOf;
    hide RealtimeOf;
    hide AudioOf;
    hide SortBy;
    hide SetOf;
    var ordered := SortBy(EndpointId(), s.endpoints);
    var name: Option<Text>, created: Option<int> := None, None;
    var context: Option<int>, cap: Option<int> := None, None;
    var inputs: Option<set<Text>>, outputs: Option<set<Text>> := None, None;
    var tools: Option<bool>, efforts: Option<set<Effort>> := None, None;
    var prices: seq<ListPriceObservation> := [];
    var realtime: Option<Realtime.Statement>, audio: Option<Audio.Statement> := None, None;
    FoldStart();
    assert ordered[..0] == [];
    for i := 0 to |ordered|
      invariant name == First(NameOf(), ordered[..i]) && created == Reports.Least(CreatedOf(), ordered[..i])
      invariant context == Reports.Least(ContextOf(), ordered[..i]) && cap == Reports.Least(OutputCapOf(), ordered[..i])
      invariant inputs == Common(InputsOf(), ordered[..i]) && outputs == Common(OutputsOf(), ordered[..i])
      invariant tools == Every(ToolsOf(), ordered[..i]) && efforts == Common(EffortsOf(), ordered[..i])
      invariant prices == PricesOf(ordered[..i])
      invariant realtime == RealtimeOf(ordered[..i]) && audio == AudioOf(ordered[..i])
    {
      FoldStep(ordered, i);
      var e := ordered[i];
      if e.observed.Some? {
        var o := e.observed.value;
        if name == None {
          name := o.displayName;
        }
        created := Minimum(created, o.createdAt);
        context := Minimum(context, o.contextTokens);
        cap := Minimum(cap, o.maxOutputTokens);
        inputs := Narrow(inputs, SetOf(o.inputModalities));
        outputs := Narrow(outputs, SetOf(o.outputModalities));
        tools := Both(tools, o.supportsTools);
        efforts := Narrow(efforts, SetOf(o.reasoningEfforts));
        realtime := Realtime.AggregateRealtime(realtime, o.realtime);
        audio := Audio.AggregateAudio(audio, o.audio);
        if o.listPrice.Some? {
          prices := prices + [ListPriceObservation(e.id, e.provider, o.listPrice.value)];
        }
      } else {
        Abstains(realtime, audio);
      }
    }
    assert ordered[..|ordered|] == ordered;
    var inputList: Option<seq<Text>>, outputList: Option<seq<Text>>, effortList: Option<seq<Effort>> := None, None, None;
    if inputs.Some? {
      var keys := RenderKeys(inputs.value);
      inputList := Some(keys);
    }
    if outputs.Some? {
      var keys := RenderKeys(outputs.value);
      outputList := Some(keys);
    }
    if efforts.Some? {
      effortList := Some(RenderEfforts(efforts.value));
    }
    return Entry(model, s.reference, providers, name, Stamp(created), context, cap, inputList, outputList, tools,
                 effortList, prices, realtime, audio);
  }

  lemma Abstains(realtime: Option<Realtime.Statement>, audio: Option<Audio.Statement>)
    ensures Realtime.Aggregate(realtime, None) == realtime && Audio.Aggregate(audio, None) == audio
  {
  }

  method Providers(endpoints: seq<Endpoint>) returns (providers: seq<Text>)
    ensures providers == SortedKeys(set e | e in endpoints :: e.provider)
  {
    hide SortedKeys;
    var seen: set<Text> := {};
    var listed: seq<Text> := [];
    for i := 0 to |endpoints|
      invariant seen == set e | e in endpoints[..i] :: e.provider
      invariant multiset(listed) == multiset(seen)
    {
      assert endpoints[..i + 1] == endpoints[..i] + [endpoints[i]];
      if endpoints[i].provider !in seen {
        listed := listed + [endpoints[i].provider];
        seen := seen + {endpoints[i].provider};
      }
    }
    assert endpoints[..|endpoints|] == endpoints;
    SortedEnumeration(listed, seen);
    return SortBy(Itself(), listed);
  }

  function ModelKey(): Entry -> Text
  {
    (entry: Entry) => entry.model
  }

  ghost function EntriesFor(lines: seq<Text>, currentOf: map<Text, RouteSet>): (r: seq<Entry>)
    requires forall line | line in lines :: line in currentOf
    ensures |r| == |lines| && forall i | 0 <= i < |r| :: r[i] == EntryOf(lines[i], currentOf[lines[i]])
  {
    hide EntryOf;
    seq(|lines|, i requires 0 <= i < |lines| => EntryOf(lines[i], currentOf[lines[i]]))
  }

  /** The whole catalogue: one entry for each line, sorted by model. */
  ghost function CatalogueOf(currentOf: map<Text, RouteSet>): seq<Entry>
  {
    ListedKeys(currentOf);
    SortBy(ModelKey(), EntriesFor(Listed(currentOf.Keys), currentOf))
  }

  lemma ListedKeys(currentOf: map<Text, RouteSet>)
    ensures forall line | line in Listed(currentOf.Keys) :: line in currentOf
  {
    forall line | line in Listed(currentOf.Keys)
      ensures line in currentOf
    {
      assert line in multiset(Listed(currentOf.Keys));
    }
  }

  lemma EntriesAppend(a: seq<Text>, b: seq<Text>, currentOf: map<Text, RouteSet>)
    requires forall line | line in a :: line in currentOf
    requires forall line | line in b :: line in currentOf
    ensures EntriesFor(a + b, currentOf) == EntriesFor(a, currentOf) + EntriesFor(b, currentOf)
  {
    hide EntryOf;
    hide EntriesFor;
  }

  lemma EntriesSplit(front: seq<Text>, line: Text, tail: seq<Text>, currentOf: map<Text, RouteSet>)
    requires forall x | x in front + [line] + tail :: x in currentOf
    ensures forall x | x in front + tail :: x in currentOf
    ensures multiset(EntriesFor(front + [line] + tail, currentOf))
         == multiset(EntriesFor(front + tail, currentOf)) + multiset{EntryOf(line, currentOf[line])}
  {
    hide EntryOf;
    hide EntriesFor;
    assert forall x | x in front + [line] :: x in front + [line] + tail;
    EntriesAppend(front + [line], tail, currentOf);
    EntriesAppend(front, [line], currentOf);
    EntriesAppend(front, tail, currentOf);
    assert EntriesFor([line], currentOf) == [EntryOf(line, currentOf[line])];
  }

  lemma {:induction false} EntriesPermuted(a: seq<Text>, b: seq<Text>, currentOf: map<Text, RouteSet>)
    requires multiset(a) == multiset(b) && (forall line | line in a :: line in currentOf)
    ensures forall line | line in b :: line in currentOf
    ensures multiset(EntriesFor(a, currentOf)) == multiset(EntriesFor(b, currentOf))
    decreases |a|
  {
    hide EntryOf;
    hide EntriesFor;
    SameElements(a, b);
    if a == [] {
      assert multiset(b) == multiset{} && b == [];
    } else {
      var i := PullFirst(a, b);
      assert a == [] + [a[0]] + a[1..] && [] + a[1..] == a[1..];
      EntriesSplit([], a[0], a[1..], currentOf);
      EntriesSplit(b[..i], a[0], b[i + 1..], currentOf);
      EntriesPermuted(a[1..], b[..i] + b[i + 1..], currentOf);
    }
  }

  lemma ModelsDistinguish(lines: seq<Text>, currentOf: map<Text, RouteSet>)
    requires forall line | line in lines :: line in currentOf
    ensures KeysDistinguish(ModelKey(), EntriesFor(lines, currentOf))
  {
    hide EntryOf;
    forall i | 0 <= i < |lines|
      ensures EntriesFor(lines, currentOf)[i].model == lines[i]
    {
      ModelOfEntry(lines[i], currentOf[lines[i]]);
    }
  }

  lemma ModelOfEntry(model: Text, s: RouteSet)
    ensures EntryOf(model, s).model == model
  {
  }

  /** The map is read in any order; the answer is the same. */
  method BuildCatalogue(currentOf: map<Text, RouteSet>) returns (entries: seq<Entry>)
    ensures entries == CatalogueOf(currentOf)
    ensures SortedBy(ModelKey(), entries) && multiset(Models(entries)) == multiset(currentOf.Keys)
  {
    hide EntryOf;
    hide EntriesFor;
    hide SortBy;
    hide SortedKeys;
    entries := [];
    ghost var lines: seq<Text> := [];
    var pending := currentOf.Keys;
    while pending != {}
      invariant pending <= currentOf.Keys
      invariant multiset(lines) + multiset(pending) == multiset(currentOf.Keys)
      invariant forall line | line in lines :: line in currentOf
      invariant entries == EntriesFor(lines, currentOf)
      decreases pending
    {
      var line :| line in pending;
      var s := currentOf[line];
      var providers := Providers(s.endpoints);
      var entry := Aggregate(line, s, providers);
      assert pending == (pending - {line}) + {line};
      EntriesAppend(lines, [line], currentOf);
      assert EntriesFor([line], currentOf) == [entry];
      entries := entries + [entry];
      lines := lines + [line];
      pending := pending - {line};
    }
    ListedKeys(currentOf);
    EntriesPermuted(lines, Listed(currentOf.Keys), currentOf);
    ModelsDistinguish(lines, currentOf);
    SortByPermuted(ModelKey(), entries, EntriesFor(Listed(currentOf.Keys), currentOf));
    SortBySorts(ModelKey(), entries);
    ModelsOfEntries(lines, currentOf);
    ModelsPermuted(entries, SortBy(ModelKey(), entries));
    entries := SortBy(ModelKey(), entries);
  }

  /** The lines that entries are for. */
  function Models(entries: seq<Entry>): (r: seq<Text>)
    ensures |r| == |entries| && forall i | 0 <= i < |r| :: r[i] == entries[i].model
  {
    seq(|entries|, i requires 0 <= i < |entries| => entries[i].model)
  }

  lemma ModelsOfEntries(lines: seq<Text>, currentOf: map<Text, RouteSet>)
    requires forall line | line in lines :: line in currentOf
    ensures Models(EntriesFor(lines, currentOf)) == lines
  {
    hide EntryOf;
    forall i | 0 <= i < |lines|
      ensures EntriesFor(lines, currentOf)[i].model == lines[i]
    {
      ModelOfEntry(lines[i], currentOf[lines[i]]);
    }
  }

  lemma {:induction false} ModelsPermuted(a: seq<Entry>, b: seq<Entry>)
    requires multiset(a) == multiset(b)
    ensures multiset(Models(a)) == multiset(Models(b))
    decreases |a|
  {
    if a == [] {
      assert multiset(b) == multiset{} && b == [];
    } else {
      var i := PullFirst(a, b);
      ModelsSplit([], a[0], a[1..]);
      ModelsSplit(b[..i], a[0], b[i + 1..]);
      assert [] + [a[0]] + a[1..] == a && [] + a[1..] == a[1..];
      ModelsPermuted(a[1..], b[..i] + b[i + 1..]);
    }
  }

  lemma ModelsSplit(front: seq<Entry>, entry: Entry, tail: seq<Entry>)
    ensures multiset(Models(front + [entry] + tail)) == multiset(Models(front + tail)) + multiset{entry.model}
  {
    assert Models(front + [entry] + tail) == Models(front) + [entry.model] + Models(tail);
    assert Models(front + tail) == Models(front) + Models(tail);
  }

  // ----- the order of the file's rows -----

  lemma {:induction false} RowsPermuted(a: seq<Deployment>, b: seq<Deployment>, reference: Text)
    requires multiset(a) == multiset(b)
    ensures multiset(RowsOf(a, reference)) == multiset(RowsOf(b, reference))
    decreases |a|
  {
    if a == [] {
      assert multiset(b) == multiset{} && b == [];
    } else {
      var i := PullFirst(a, b);
      var front, tail := b[..i], b[i + 1..];
      RowsPermuted(a[1..], front + tail, reference);
      RowsAppend(front, tail, reference);
      RowsAppend(front + [a[0]], tail, reference);
      RowsAppend(front, [a[0]], reference);
      assert a == [a[0]] + a[1..];
      RowsAppend([a[0]], a[1..], reference);
    }
  }

  lemma {:induction false} RowsAppend(a: seq<Deployment>, b: seq<Deployment>, reference: Text)
    ensures RowsOf(a + b, reference) == RowsOf(a, reference) + RowsOf(b, reference)
    decreases |b|
  {
    if b == [] {
      assert a + b == a;
    } else {
      assert (a + b)[..|a + b| - 1] == a + b[..|b| - 1];
      RowsAppend(a, b[..|b| - 1], reference);
    }
  }

  /** An entry reads its set's endpoints as a collection, not a list. */
  lemma EntryPermuted(model: Text, reference: Text, a: seq<Endpoint>, b: seq<Endpoint>)
    requires multiset(a) == multiset(b) && KeysDistinguish(EndpointId(), a)
    ensures EntryOf(model, RouteSet(reference, a)) == EntryOf(model, RouteSet(reference, b))
  {
    SortByPermuted(EndpointId(), a, b);
    SameElements(a, b);
    assert (set e | e in a :: e.provider) == (set e | e in b :: e.provider);
  }

  lemma EndpointsPermuted(a: seq<Deployment>, b: seq<Deployment>)
    requires multiset(a) == multiset(b)
    ensures multiset(Inventory.Endpoints(a)) == multiset(Inventory.Endpoints(b))
    decreases |a|
  {
    if a == [] {
      assert multiset(b) == multiset{} && b == [];
    } else {
      var i := PullFirst(a, b);
      var front, tail := b[..i], b[i + 1..];
      EndpointsPermuted(a[1..], front + tail);
      assert Endpoints(front + tail) == Endpoints(front) + Endpoints(tail);
      assert Endpoints(b) == Endpoints(front) + [EndpointOf(a[0])] + Endpoints(tail);
      assert Endpoints(a) == [EndpointOf(a[0])] + Endpoints(a[1..]);
    }
  }

  lemma RowIdsDistinguish(ds: seq<Deployment>)
    requires UniqueIds(ds)
    ensures KeysDistinguish(EndpointId(), Endpoints(ds))
  {
    forall i, j | 0 <= i < |ds| && 0 <= j < |ds| && EndpointId()(Endpoints(ds)[i]) == EndpointId()(Endpoints(ds)[j])
      ensures Endpoints(ds)[i] == Endpoints(ds)[j]
    {
      assert ds[i].id == ds[j].id;
    }
  }

  /** Files that declare the same rows in any order publish the same catalogue. */
  lemma RowOrderDoesNotMatter(inv: Index, other: Index, file: File, permuted: File, maxAge: int)
    requires Built(inv, file, maxAge) && Built(other, permuted, maxAge)
    requires multiset(file.deployments) == multiset(permuted.deployments)
    ensures CatalogueOf(inv.currentOf) == CatalogueOf(other.currentOf)
  {
    hide EntryOf;
    hide Built;
    hide EntriesFor;
    SameElements(file.deployments, permuted.deployments);
    BuiltSameLines(inv, other, file, permuted, maxAge);
    forall line | line in inv.currentOf
      ensures EntryOf(line, inv.currentOf[line]) == EntryOf(line, other.currentOf[line])
    {
      SameEntry(inv, other, file, permuted, maxAge, line);
    }
    ListedKeys(inv.currentOf);
    ListedKeys(other.currentOf);
    assert EntriesFor(Listed(inv.currentOf.Keys), inv.currentOf) == EntriesFor(Listed(inv.currentOf.Keys), other.currentOf);
  }

  lemma BuiltSameLines(inv: Index, other: Index, file: File, permuted: File, maxAge: int)
    requires Built(inv, file, maxAge) && Built(other, permuted, maxAge)
    requires forall d :: d in file.deployments <==> d in permuted.deployments
    ensures inv.currentOf.Keys == other.currentOf.Keys
  {
    SameLines(inv, other, file.deployments, permuted.deployments);
  }

  lemma SameEntry(inv: Index, other: Index, file: File, permuted: File, maxAge: int, line: Text)
    requires Built(inv, file, maxAge) && Built(other, permuted, maxAge)
    requires multiset(file.deployments) == multiset(permuted.deployments)
    requires line in inv.currentOf && line in other.currentOf
    ensures EntryOf(line, inv.currentOf[line]) == EntryOf(line, other.currentOf[line])
  {
    hide EntryOf;
    hide ModelId;
    hide RowsOf;
    var ds, es := file.deployments, permuted.deployments;
    SameElements(ds, es);
    var d :| d in ds && d.current && ModelId(d.reference) == line;
    assert inv.currentOf[ModelId(d.reference)] == inv.byReference[d.reference];
    assert other.currentOf[ModelId(d.reference)] == other.byReference[d.reference];
    RowsPermuted(ds, es, d.reference);
    EndpointsPermuted(RowsOf(ds, d.reference), RowsOf(es, d.reference));
    RowsDistinct(ds, d.reference);
    RowIdsDistinguish(RowsOf(ds, d.reference));
    EntryPermuted(line, d.reference, Endpoints(RowsOf(ds, d.reference)), Endpoints(RowsOf(es, d.reference)));
  }

  lemma SameLines(inv: Index, other: Index, ds: seq<Deployment>, es: seq<Deployment>)
    requires PointsCurrent(inv.currentOf, inv.byReference, ds) && PointsCurrent(other.currentOf, other.byReference, es)
    requires forall d :: d in ds <==> d in es
    ensures inv.currentOf.Keys == other.currentOf.Keys
  {
    hide ModelId;
    forall line | line in inv.currentOf
      ensures line in other.currentOf
    {
      var d :| d in ds && d.current && ModelId(d.reference) == line;
      assert ModelId(d.reference) in other.currentOf;
    }
    forall line | line in other.currentOf
      ensures line in inv.currentOf
    {
      var d :| d in es && d.current && ModelId(d.reference) == line;
      assert ModelId(d.reference) in inv.currentOf;
    }
  }

  /**
   * An entry's limits, creation, tools, modalities and efforts are the greatest
   * lower bounds of what its set's deployments report; silence never narrows.
   */
  lemma EntryIsGreatestLowerBound(model: Text, s: RouteSet)
    ensures var entry := EntryOf(model, s);
            && entry.contextTokens == Reports.Least(ContextOf(), s.endpoints)
            && entry.maxOutputTokens == Reports.Least(OutputCapOf(), s.endpoints)
            && entry.createdAt == Stamp(Reports.Least(CreatedOf(), s.endpoints))
            && entry.supportsTools == Every(ToolsOf(), s.endpoints)
            && entry.inputModalities == RenderSet(Common(InputsOf(), s.endpoints))
            && entry.outputModalities == RenderSet(Common(OutputsOf(), s.endpoints))
            && (entry.reasoningEfforts.Some? <==> Common(EffortsOf(), s.endpoints).Some?)
            && (entry.reasoningEfforts.Some? ==>
                  entry.reasoningEfforts.value == RenderEfforts(Common(EffortsOf(), s.endpoints).value))
  {
    hide SortedKeys;
    var ordered := SortBy(EndpointId(), s.endpoints);
    SameElements(ordered, s.endpoints);
    SameLeast(ContextOf(), ordered, s.endpoints);
    SameLeast(OutputCapOf(), ordered, s.endpoints);
    SameLeast(CreatedOf(), ordered, s.endpoints);
    EveryIsGreatestLowerBound(ToolsOf(), ordered);
    EveryIsGreatestLowerBound(ToolsOf(), s.endpoints);
    SameCommon(InputsOf(), ordered, s.endpoints);
    SameCommon(OutputsOf(), ordered, s.endpoints);
    SameCommon(EffortsOf(), ordered, s.endpoints);
  }

  lemma SameLeast<T>(field: T -> Option<int>, xs: seq<T>, ys: seq<T>)
    requires forall x | x in xs :: x in ys
    requires forall y | y in ys :: y in xs
    ensures Reports.Least(field, xs) == Reports.Least(field, ys)
  {
    LeastIsGreatestLowerBound(field, xs);
    LeastIsGreatestLowerBound(field, ys);
  }

  lemma SameCommon<T, V(!new)>(field: T -> Option<set<V>>, xs: seq<T>, ys: seq<T>)
    requires forall x | x in xs :: x in ys
    requires forall y | y in ys :: y in xs
    ensures Common(field, xs) == Common(field, ys)
  {
    CommonIsGreatestLowerBound(field, xs);
    CommonIsGreatestLowerBound(field, ys);
    if Common(field, xs).Some? {
      assert Common(field, xs).value == Common(field, ys).value;
    }
  }

  /** A rendered set lists each member once, increasing. */
  lemma SortedKeysList(s: set<Text>)
    ensures SortedBy(Itself(), SortedKeys(s)) && multiset(SortedKeys(s)) == multiset(s)
  {
    SortBySorts(Itself(), Listed(s));
  }
}
