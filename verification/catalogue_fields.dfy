// What an entry of the catalogue says, field by field, of what its line's
// deployments report.

module CatalogueFields {
  import opened Base
  import opened Ordering
  import opened Permutations
  import opened Inventory
  import opened Catalogue
  import opened Reports

  /** The smallest of the reported numbers; absent when nobody reports one. */
  ghost predicate Smallest(least: Option<int>, endpoints: seq<Endpoint>, field: Observed -> Option<int>)
  {
    if least == None then forall e | e in endpoints && e.observed.Some? :: field(e.observed.value) == None
    else
      && (exists e | e in endpoints :: e.observed.Some? && field(e.observed.value) == least)
      && forall e | e in endpoints && e.observed.Some? && field(e.observed.value).Some? ::
           least.value <= field(e.observed.value).value
  }

  /** What every list reported holds; absent when nobody reports one. */
  ghost predicate Shared<V(!new)>(list: Option<seq<V>>, endpoints: seq<Endpoint>, field: Observed -> Option<seq<V>>)
  {
    if list == None then forall e | e in endpoints && e.observed.Some? :: field(e.observed.value) == None
    else
      && (exists e | e in endpoints :: e.observed.Some? && field(e.observed.value).Some?)
      && forall v :: v in list.value <==>
                     forall e | e in endpoints && e.observed.Some? && field(e.observed.value).Some? ::
                       v in field(e.observed.value).value
  }

  /** Whether all that report it report it true; absent when nobody does. */
  ghost predicate Agreed(flag: Option<bool>, endpoints: seq<Endpoint>, field: Observed -> Option<bool>)
  {
    if flag == None then forall e | e in endpoints && e.observed.Some? :: field(e.observed.value) == None
    else
      && (exists e | e in endpoints :: e.observed.Some? && field(e.observed.value).Some?)
      && (flag.value <==> forall e | e in endpoints && e.observed.Some? && field(e.observed.value).Some? ::
                            field(e.observed.value).value)
  }

  ghost predicate Ascending(list: seq<Text>)
  {
    forall i, j | 0 <= i < j < |list| :: ByteBefore(list[i], list[j])
  }

  lemma SetAscends(s: set<Text>)
    ensures Ascending(SortedKeys(s)) && forall key :: key in SortedKeys(s) <==> key in s
  {
    hide SortedKeys;
    var keys := SortedKeys(s);
    SortedKeysList(s);
    forall key
      ensures key in keys <==> key in s
    {
      assert key in keys <==> key in multiset(keys);
    }
    forall i, j | 0 <= i < j < |keys|
      ensures ByteBefore(keys[i], keys[j])
    {
      EachOnce(keys, s, i, j);
      assert !Less(Itself()(keys[j]), Itself()(keys[i]));
      LessTotal(keys[i], keys[j]);
      LessIsByteOrder(keys[i], keys[j]);
    }
  }

  lemma EachOnce<V>(list: seq<V>, s: set<V>, i: nat, j: nat)
    requires multiset(list) == multiset(s) && i < j < |list|
    ensures list[i] != list[j]
  {
    assert list == list[..j] + [list[j]] + list[j + 1..];
    assert multiset(list) == multiset(list[..j]) + multiset{list[j]} + multiset(list[j + 1..]);
    assert list[..j][i] == list[i];
    assert multiset(list[..j])[list[i]] >= 1;
    assert multiset(s)[list[i]] <= 1;
  }

  lemma LeastIs(endpoints: seq<Endpoint>, field: Observed -> Option<int>, of: Endpoint -> Option<int>)
    requires forall e :: of(e) == if e.observed.Some? then field(e.observed.value) else None
    ensures Smallest(Reports.Least(of, endpoints), endpoints, field)
  {
    hide Reports.Least;
    LeastIsGreatestLowerBound(of, endpoints);
  }

  lemma AgreedIs(endpoints: seq<Endpoint>, field: Observed -> Option<bool>, of: Endpoint -> Option<bool>)
    requires forall e :: of(e) == if e.observed.Some? then field(e.observed.value) else None
    ensures Agreed(Every(of, endpoints), endpoints, field)
  {
    hide Every;
    EveryIsGreatestLowerBound(of, endpoints);
  }

  lemma SharedIs<V(!new)>(list: Option<seq<V>>, endpoints: seq<Endpoint>, field: Observed -> Option<seq<V>>,
                          of: Endpoint -> Option<set<V>>)
    requires forall e :: of(e) == if e.observed.Some? then SetOf(field(e.observed.value)) else None
    requires list.Some? <==> Common(of, endpoints).Some?
    requires list.Some? ==> forall v :: v in list.value <==> v in Common(of, endpoints).value
    ensures Shared(list, endpoints, field)
  {
    hide Common;
    CommonIsGreatestLowerBound(of, endpoints);
    assert forall e | e in endpoints && e.observed.Some? && field(e.observed.value).Some? ::
      of(e) == Some(set v | v in field(e.observed.value).value);
    assert forall e | e in endpoints && of(e).Some? :: e.observed.Some? && field(e.observed.value).Some?;
  }

  /** Limits, creation, tools, modalities and efforts, each from its own field of the reports. */
  lemma EntryBounds(model: Text, s: RouteSet)
    ensures var entry, all := EntryOf(model, s), s.endpoints;
            && Smallest(entry.contextTokens, all, (o: Observed) => o.contextTokens)
            && Smallest(entry.maxOutputTokens, all, (o: Observed) => o.maxOutputTokens)
            && Agreed(entry.supportsTools, all, (o: Observed) => o.supportsTools)
  {
    hide EntryOf;
    EntryIsGreatestLowerBound(model, s);
    LeastIs(s.endpoints, (o: Observed) => o.contextTokens, ContextOf());
    LeastIs(s.endpoints, (o: Observed) => o.maxOutputTokens, OutputCapOf());
    AgreedIs(s.endpoints, (o: Observed) => o.supportsTools, ToolsOf());
  }

  /** An entry was created, to the millisecond below, when the earliest report says. */
  lemma EntryCreated(model: Text, s: RouteSet)
    ensures var entry, least := EntryOf(model, s), Reports.Least(CreatedOf(), s.endpoints);
            && Smallest(least, s.endpoints, (o: Observed) => o.createdAt)
            && (entry.createdAt.Some? <==> least.Some?)
            && (least.Some? ==> entry.createdAt.value % 1_000_000 == 0
                                && entry.createdAt.value <= least.value < entry.createdAt.value + 1_000_000)
  {
    hide EntryOf;
    hide Reports.Least;
    EntryIsGreatestLowerBound(model, s);
    LeastIs(s.endpoints, (o: Observed) => o.createdAt, CreatedOf());
  }

  lemma EntryModalities(model: Text, s: RouteSet)
    ensures var entry, all := EntryOf(model, s), s.endpoints;
            && Shared(entry.inputModalities, all, (o: Observed) => o.inputModalities)
            && Shared(entry.outputModalities, all, (o: Observed) => o.outputModalities)
            && (entry.inputModalities.Some? ==> Ascending(entry.inputModalities.value))
            && (entry.outputModalities.Some? ==> Ascending(entry.outputModalities.value))
  {
    hide EntryOf;
    hide SortedKeys;
    hide Common;
    hide Ascending;
    var entry := EntryOf(model, s);
    EntryIsGreatestLowerBound(model, s);
    if Common(InputsOf(), s.endpoints).Some? {
      SetAscends(Common(InputsOf(), s.endpoints).value);
    }
    if Common(OutputsOf(), s.endpoints).Some? {
      SetAscends(Common(OutputsOf(), s.endpoints).value);
    }
    SharedIs(entry.inputModalities, s.endpoints, (o: Observed) => o.inputModalities, InputsOf());
    SharedIs(entry.outputModalities, s.endpoints, (o: Observed) => o.outputModalities, OutputsOf());
  }

  lemma EntryEfforts(model: Text, s: RouteSet)
    ensures var efforts := EntryOf(model, s).reasoningEfforts;
            && Shared(efforts, s.endpoints, (o: Observed) => o.reasoningEfforts)
            && (efforts.Some? ==>
                  forall i, j | 0 <= i < j < |efforts.value| ::
                    (efforts.value[i] == Low && efforts.value[j] != Low) || (efforts.value[i] == Medium && efforts.value[j] == High))
  {
    hide EntryOf;
    hide Common;
    EntryIsGreatestLowerBound(model, s);
    if Common(EffortsOf(), s.endpoints).Some? {
      EffortsAscend(Common(EffortsOf(), s.endpoints).value);
    }
    SharedIs(EntryOf(model, s).reasoningEfforts, s.endpoints, (o: Observed) => o.reasoningEfforts, EffortsOf());
  }

  lemma EffortsAscend(s: set<Effort>)
    ensures var r := RenderEfforts(s);
            && (forall e :: e in r <==> e in s)
            && forall i, j | 0 <= i < j < |r| :: (r[i] == Low && r[j] != Low) || (r[i] == Medium && r[j] == High)
  {
    var keep := (e: Effort) => e in s;
    assert EFFORTS == [Low, Medium, High];
    assert EFFORTS[..2] == [Low, Medium] && EFFORTS[..2][..1] == [Low] && EFFORTS[..2][..1][..0] == [];
    assert EFFORTS[1..] == [Medium, High] && EFFORTS[1..][1..] == [High] && EFFORTS[1..][1..][1..] == [];
    assert RenderEfforts(s) == Filter(keep, EFFORTS);
    forall e: Effort
      ensures e in EFFORTS
    {
      assert EFFORTS[match e case Low => 0 case Medium => 1 case High => 2] == e;
    }
  }

  // ----- what stands in order -----

  lemma {:induction false} FirstIs<T, V>(field: T -> Option<V>, xs: seq<T>)
    ensures First(field, xs).None? <==> forall x | x in xs :: field(x).None?
    ensures First(field, xs).Some? ==>
              exists i | 0 <= i < |xs| :: field(xs[i]) == First(field, xs) && forall j | 0 <= j < i :: field(xs[j]).None?
    decreases |xs|
  {
    if xs != [] {
      var front, last := xs[..|xs| - 1], xs[|xs| - 1];
      assert xs == front + [last];
      FirstIs(field, front);
      if First(field, front).Some? {
        var i :| 0 <= i < |front| && field(front[i]) == First(field, front) && forall j | 0 <= j < i :: field(front[j]).None?;
        assert field(xs[i]) == First(field, xs) && forall j | 0 <= j < i :: xs[j] == front[j];
      } else {
        assert forall j | 0 <= j < |front| :: front[j] in front && xs[j] == front[j];
      }
    }
  }

  /** The name is that of the first deployment, in byte order of ids, to report one. */
  lemma EntryName(model: Text, s: RouteSet)
    ensures var name := EntryOf(model, s).displayName;
            if name == None then forall e | e in s.endpoints && e.observed.Some? :: e.observed.value.displayName == None
            else
              exists e | e in s.endpoints ::
                && e.observed.Some? && e.observed.value.displayName == name
                && forall f | f in s.endpoints && f.observed.Some? && f.observed.value.displayName.Some? ::
                     !ByteBefore(f.id, e.id)
  {
    hide ByteBefore;
    hide First;
    hide Least;
    hide SortBy;
    hide RealtimeOf;
    hide AudioOf;
    hide PricesOf;
    var ordered := SortBy(EndpointId(), s.endpoints);
    SameElements(ordered, s.endpoints);
    SortBySorts(EndpointId(), s.endpoints);
    FirstIs(NameOf(), ordered);
    if First(NameOf(), ordered).Some? {
      var i :| 0 <= i < |ordered| && NameOf()(ordered[i]) == First(NameOf(), ordered)
               && forall j | 0 <= j < i :: NameOf()(ordered[j]).None?;
      var e := ordered[i];
      assert e in ordered;
      forall f | f in s.endpoints && f.observed.Some? && f.observed.value.displayName.Some?
        ensures !ByteBefore(f.id, e.id)
      {
        assert f in ordered;
        var j :| 0 <= j < |ordered| && ordered[j] == f;
        assert NameOf()(f).Some?;
        NotBefore(ordered, i, j);
      }
    }
  }

  lemma NotBefore(ordered: seq<Endpoint>, i: nat, j: nat)
    requires i <= j < |ordered| && SortedBy(EndpointId(), ordered)
    ensures !ByteBefore(ordered[j].id, ordered[i].id)
  {
    hide ByteBefore;
    LessIsByteOrder(ordered[j].id, ordered[i].id);
    LessTotal(ordered[j].id, ordered[i].id);
    if i < j {
      assert !Less(EndpointId()(ordered[j]), EndpointId()(ordered[i]));
    }
  }

  /** The providers are the deployments', each once, ascending. */
  lemma EntryProviders(model: Text, s: RouteSet)
    ensures var entry := EntryOf(model, s);
            && entry.model == model && entry.reference == s.reference
            && Ascending(entry.providers)
            && forall p :: p in entry.providers <==> exists e | e in s.endpoints :: e.provider == p
  {
    hide Ascending;
    hide SortedKeys;
    SetAscends(set e | e in s.endpoints :: e.provider);
  }

  predicate Priced(e: Endpoint) { e.observed.Some? && e.observed.value.listPrice.Some? }

  function One(e: Endpoint): nat { if Priced(e) then 1 else 0 }

  /** A deployment's price, as it is listed. */
  predicate PriceOf(p: ListPriceObservation, e: Endpoint)
  {
    Priced(e) && p == ListPriceObservation(e.id, e.provider, e.observed.value.listPrice.value)
  }

  lemma {:induction false} PricesListed(endpoints: seq<Endpoint>)
    ensures |PricesOf(endpoints)| == Sum(One, endpoints)
    ensures forall p | p in PricesOf(endpoints) :: exists e :: e in endpoints && PriceOf(p, e)
    ensures forall e, p | e in endpoints && PriceOf(p, e) :: p in PricesOf(endpoints)
    decreases |endpoints|
  {
    if endpoints != [] {
      var front, last := endpoints[..|endpoints| - 1], endpoints[|endpoints| - 1];
      assert endpoints == front + [last];
      PricesListed(front);
      SumAppend(One, front, [last]);
      OnePrice(last);
      forall p | p in PricesOf(endpoints)
        ensures exists e :: e in endpoints && PriceOf(p, e)
      {
        if p in PricesOf(front) {
          var e :| e in front && PriceOf(p, e);
          assert e in endpoints;
        } else {
          assert last in endpoints && PriceOf(p, last);
        }
      }
    }
  }

  lemma OnePrice(e: Endpoint)
    ensures Sum(One, [e]) == One(e)
  {
    assert [e][1..] == [];
  }

  /** Every reported price is listed with its deployment and provider, and nothing else is. */
  lemma EntryPrices(model: Text, s: RouteSet)
    ensures var prices := EntryOf(model, s).listPrices;
            && |prices| == Sum(One, s.endpoints)
            && forall p :: p in prices <==> exists e :: e in s.endpoints && PriceOf(p, e)
  {
    hide SortBy;
    hide First;
    hide RealtimeOf;
    hide AudioOf;
    hide PricesOf;
    hide PriceOf;
    var ordered := SortBy(EndpointId(), s.endpoints);
    SameElements(ordered, s.endpoints);
    SumPermuted(One, ordered, s.endpoints);
    PricesListed(ordered);
  }
}
