// The canonical query string of internal/awssig/awssig.go.

module CanonicalQuery {
  import opened Base
  import opened Words
  import opened Ordering

  const PERCENT: byte := 0x25
  const AMPERSAND: byte := 0x26
  const EQUALS: byte := 0x3D

  predicate Unreserved(c: byte)
  {
    || 0x41 <= c <= 0x5A || 0x61 <= c <= 0x7A || 0x30 <= c <= 0x39
    || c == 0x2D || c == 0x5F || c == 0x2E || c == 0x7E
  }

  function HexCharacter(n: nat): byte
    requires n < 16
  {
    if n < 10 then 0x30 + n else 0x41 + n - 10
  }

  function HexValue(c: byte): Option<nat>
  {
    if 0x30 <= c <= 0x39 then Some(c - 0x30)
    else if 0x41 <= c <= 0x46 then Some(c - 0x41 + 10)
    else None
  }

  function EncodeByte(c: byte): (r: Text)
    ensures AMPERSAND !in r && EQUALS !in r && r != []
  {
    if Unreserved(c) then [c] else [PERCENT, HexCharacter(c / 16), HexCharacter(c % 16)]
  }

  const CAPITALS: seq<byte> := [
    0x41, 0x42, 0x43, 0x44, 0x45, 0x46, 0x47, 0x48, 0x49, 0x4a, 0x4b, 0x4c, 0x4d,
    0x4e, 0x4f, 0x50, 0x51, 0x52, 0x53, 0x54, 0x55, 0x56, 0x57, 0x58, 0x59, 0x5a]
  const SMALL: seq<byte> := [
    0x61, 0x62, 0x63, 0x64, 0x65, 0x66, 0x67, 0x68, 0x69, 0x6a, 0x6b, 0x6c, 0x6d,
    0x6e, 0x6f, 0x70, 0x71, 0x72, 0x73, 0x74, 0x75, 0x76, 0x77, 0x78, 0x79, 0x7a]
  const DIGITS: seq<byte> := [0x30, 0x31, 0x32, 0x33, 0x34, 0x35, 0x36, 0x37, 0x38, 0x39]

  /** The source's list: letters, digits, hyphen, underscore, full stop and tilde. */
  const UNRESERVED: seq<byte> := CAPITALS + SMALL + DIGITS + [0x2d, 0x5f, 0x2e, 0x7e]

  lemma UnreservedList(c: byte)
    ensures Unreserved(c) <==> c in UNRESERVED
  {
    assert forall i | 0 <= i < 26 :: CAPITALS[i] == 0x41 + i;
    assert forall i | 0 <= i < 26 :: SMALL[i] == 0x61 + i;
    assert forall i | 0 <= i < 10 :: DIGITS[i] == 0x30 + i;
    assert c in CAPITALS <==> 0x41 <= c <= 0x5A by { assert 0x41 <= c <= 0x5A ==> CAPITALS[c - 0x41] == c; }
    assert c in SMALL <==> 0x61 <= c <= 0x7A by { assert 0x61 <= c <= 0x7A ==> SMALL[c - 0x61] == c; }
    assert c in DIGITS <==> 0x30 <= c <= 0x39 by { assert 0x30 <= c <= 0x39 ==> DIGITS[c - 0x30] == c; }
  }

  predicate UpperHex(c: byte) { 0x30 <= c <= 0x39 || 0x41 <= c <= 0x46 }

  /** Listed bytes stand for themselves; any other is a percent sign and its two upper-case hexadecimal digits. */
  lemma EncodedByteByByte(c: byte, before: Text)
    ensures UriEncode(before + [c]) == UriEncode(before) + EncodeByte(c)
    ensures c in UNRESERVED ==> EncodeByte(c) == [c]
    ensures c !in UNRESERVED ==>
              && |EncodeByte(c)| == 3 && EncodeByte(c)[0] == PERCENT
              && UpperHex(EncodeByte(c)[1]) && UpperHex(EncodeByte(c)[2]) && UriDecode(EncodeByte(c)) == Some([c])
  {
    UnreservedList(c);
    assert (before + [c])[..|before|] == before;
    DecodeFirst(c, []);
    assert EncodeByte(c) + [] == EncodeByte(c);
    assert UriDecode([]) == Some([]) && [c] + [] == [c];
  }

  /** Percent-encoding that spares only the unreserved characters. */
  function UriEncode(value: Text): (r: Text)
    ensures AMPERSAND !in r && EQUALS !in r
  {
    if value == [] then [] else UriEncode(value[..|value| - 1]) + EncodeByte(value[|value| - 1])
  }

  method UriEncodeLoop(value: Text) returns (encoded: Text)
    ensures encoded == UriEncode(value)
  {
    encoded := [];
    for i := 0 to |value|
      invariant encoded == UriEncode(value[..i])
    {
      assert value[..i + 1][..i] == value[..i];
      encoded := encoded + EncodeByte(value[i]);
    }
    assert value[..|value|] == value;
  }

  /** Percent-decoding, section 2.1 of RFC 3986. */
  function UriDecode(t: Text): Option<Text>
  {
    if t == [] then Some([])
    else if t[0] != PERCENT then Prefixed([t[0]], UriDecode(t[1..]))
    else if |t| < 3 || HexValue(t[1]).None? || HexValue(t[2]).None? then None
    else Prefixed([16 * HexValue(t[1]).value + HexValue(t[2]).value], UriDecode(t[3..]))
  }

  /** Decoding takes one encoded byte off the front. */
  lemma DecodeFirst(c: byte, rest: Text)
    ensures UriDecode(EncodeByte(c) + rest) == Prefixed([c], UriDecode(rest))
  {
    var t := EncodeByte(c) + rest;
    if Unreserved(c) {
      assert t[1..] == rest;
    } else {
      assert t[1] == HexCharacter(c / 16) && t[2] == HexCharacter(c % 16);
      assert t[3..] == rest;
      assert 16 * (c / 16) + c % 16 == c;
    }
  }

  lemma {:induction false} DecodeEncodedThen(value: Text, rest: Text)
    ensures UriDecode(UriEncode(value) + rest) == Prefixed(value, UriDecode(rest))
  {
    if value == [] {
      assert UriEncode(value) + rest == rest;
      PrefixedEmpty(UriDecode(rest));
    } else {
      var front, last := value[..|value| - 1], value[|value| - 1];
      assert UriEncode(value) + rest == UriEncode(front) + (EncodeByte(last) + rest);
      DecodeEncodedThen(front, EncodeByte(last) + rest);
      DecodeFirst(last, rest);
      PrefixedStep(front, last, UriDecode(rest));
      assert front + [last] == value;
    }
  }

  /** Encoding can be undone, so different strings encode differently. */
  lemma UriRoundTrip(value: Text)
    ensures UriDecode(UriEncode(value)) == Some(value)
  {
    DecodeEncodedThen(value, []);
    assert UriEncode(value) + [] == UriEncode(value);
    assert value + [] == value;
  }

  // ----- the canonical string -----

  type Query = map<Text, seq<Text>>

  /** What `sort.Strings` leaves. */
  function Sorted(xs: seq<Text>): (r: seq<Text>)
    ensures multiset(r) == multiset(xs)
  {
    SortBy(Itself(), xs)
  }

  /** The pairs one key contributes. */
  function PairsOf(key: Text, values: seq<Text>): (r: seq<(Text, Text)>)
    ensures |r| == |values| && forall i | 0 <= i < |r| :: r[i] == (key, values[i])
  {
    seq(|values|, i requires 0 <= i < |values| => (key, values[i]))
  }

  /** The pairs of a query, key by key, each key's values sorted. */
  function Listing(keys: seq<Text>, query: Query): seq<(Text, Text)>
    requires forall k | k in keys :: k in query
  {
    if keys == [] then []
    else PairsOf(keys[0], Sorted(query[keys[0]])) + Listing(keys[1..], query)
  }

  function RenderPair(pair: (Text, Text)): (r: Text)
    ensures AMPERSAND !in r && r != []
  {
    UriEncode(pair.0) + [EQUALS] + UriEncode(pair.1)
  }

  function Render(pairs: seq<(Text, Text)>): (r: seq<Text>)
    ensures |r| == |pairs| && forall i | 0 <= i < |r| :: r[i] == RenderPair(pairs[i])
  {
    seq(|pairs|, i requires 0 <= i < |pairs| => RenderPair(pairs[i]))
  }

  function Join(parts: seq<Text>): Text
  {
    if parts == [] then []
    else if |parts| == 1 then parts[0]
    else parts[0] + [AMPERSAND] + Join(parts[1..])
  }

  /** A list of the query's keys, in the order a map iteration happened to give. */
  predicate Lists(keys: seq<Text>, query: Query)
  {
    && (forall k | k in keys :: k in query) && (forall k | k in query :: k in keys)
    && forall i, j | 0 <= i < j < |keys| :: keys[i] != keys[j]
  }

  function Canonical(keys: seq<Text>, query: Query): Text
    requires Lists(keys, query)
  {
    SortedSame(keys);
    Join(Render(Listing(Sorted(keys), query)))
  }

  lemma SortedSame(xs: seq<Text>)
    ensures forall x :: x in Sorted(xs) <==> x in xs
  {
    Permutations.SameElements(Sorted(xs), xs);
  }

  /** What is listed so far, with the keys from the nth on, is the whole. */
  predicate Listed(keys: seq<Text>, query: Query, n: nat, listed: seq<(Text, Text)>)
    requires n <= |keys| && forall k | k in keys :: k in query
  {
    listed + Listing(keys[n..], query) == Listing(keys, query)
  }

  /** The same inside the nth key, whose first i values are listed. */
  predicate ListedIn(keys: seq<Text>, query: Query, n: nat, i: nat, listed: seq<(Text, Text)>)
    requires n < |keys| && (forall k | k in keys :: k in query) && i <= |Sorted(query[keys[n]])|
  {
    listed + (PairsOf(keys[n], Sorted(query[keys[n]]))[i..] + Listing(keys[n + 1..], query)) == Listing(keys, query)
  }

  lemma ListStart(keys: seq<Text>, query: Query)
    requires forall k | k in keys :: k in query
    ensures Listed(keys, query, 0, []) && Render([]) == []
  {
    assert keys[0..] == keys;
  }

  lemma ListEnter(keys: seq<Text>, query: Query, n: nat, listed: seq<(Text, Text)>)
    requires n < |keys| && (forall k | k in keys :: k in query) && Listed(keys, query, n, listed)
    ensures ListedIn(keys, query, n, 0, listed)
  {
    hide Sorted;
    assert keys[n..][1..] == keys[n + 1..];
  }

  lemma ListStep(keys: seq<Text>, query: Query, n: nat, i: nat, listed: seq<(Text, Text)>)
    requires n < |keys| && (forall k | k in keys :: k in query) && i < |Sorted(query[keys[n]])|
    requires ListedIn(keys, query, n, i, listed)
    ensures var pair := (keys[n], Sorted(query[keys[n]])[i]);
            ListedIn(keys, query, n, i + 1, listed + [pair]) && Render(listed + [pair]) == Render(listed) + [RenderPair(pair)]
  {
    hide Listing;
    hide Sorted;
    var mine := PairsOf(keys[n], Sorted(query[keys[n]]));
    assert mine[i..] == [mine[i]] + mine[i + 1..];
    Regroup(listed, mine[i], mine[i + 1..], Listing(keys[n + 1..], query));
    RenderAppend(listed, mine[i]);
  }

  lemma Regroup<T>(a: seq<T>, x: T, b: seq<T>, c: seq<T>)
    ensures a + (([x] + b) + c) == (a + [x]) + (b + c)
  {
  }

  lemma RenderAppend(listed: seq<(Text, Text)>, pair: (Text, Text))
    ensures Render(listed + [pair]) == Render(listed) + [RenderPair(pair)]
  {
    hide RenderPair;
  }

  lemma ListLeave(keys: seq<Text>, query: Query, n: nat, listed: seq<(Text, Text)>)
    requires n < |keys| && (forall k | k in keys :: k in query)
    requires ListedIn(keys, query, n, |Sorted(query[keys[n]])|, listed)
    ensures Listed(keys, query, n + 1, listed)
  {
    hide Listing;
    hide Sorted;
    var mine := PairsOf(keys[n], Sorted(query[keys[n]]));
    assert mine[|mine|..] == [];
    assert [] + Listing(keys[n + 1..], query) == Listing(keys[n + 1..], query);
  }

  lemma ListEnd(keys: seq<Text>, query: Query, listed: seq<(Text, Text)>)
    requires (forall k | k in keys :: k in query) && Listed(keys, query, |keys|, listed)
    ensures listed == Listing(keys, query)
  {
  }

  /** The source's loops, for any order in which the map gives up its keys. */
  method CanonicalQueryLoop(keys: seq<Text>, query: Query) returns (canonical: Text)
    requires Lists(keys, query)
    ensures canonical == Canonical(keys, query)
  {
    hide Listing;
    hide Render;
    hide Sorted;
    hide Listed;
    hide ListedIn;
    SortedSame(keys);
    var order := Sorted(keys);
    var pairs: seq<Text> := [];
    ghost var listed: seq<(Text, Text)> := [];
    ListStart(order, query);
    for n := 0 to |order|
      invariant Listed(order, query, n, listed) && pairs == Render(listed)
    {
      var key := order[n];
      var values := Sorted(query[key]);
      var name := UriEncodeLoop(key);
      ListEnter(order, query, n, listed);
      for i := 0 to |values|
        invariant ListedIn(order, query, n, i, listed) && pairs == Render(listed)
      {
        var value := UriEncodeLoop(values[i]);
        ListStep(order, query, n, i, listed);
        pairs := pairs + [name + [EQUALS] + value];
        listed := listed + [(key, values[i])];
      }
      ListLeave(order, query, n, listed);
    }
    ListEnd(order, query, listed);
    canonical := Join(pairs);
  }

  // ----- it determines the pairs -----

  /** The first separator splits a text in one way. */
  lemma SplitOnce(separator: byte, a: Text, r: Text, b: Text, s: Text)
    requires separator !in a && separator !in b && a + [separator] + r == b + [separator] + s
    ensures a == b && r == s
  {
    assert (a + [separator] + r)[|a|] == separator && (b + [separator] + s)[|b|] == separator;
    assert |a| == |b|;
    assert (a + [separator] + r)[..|a|] == a && (b + [separator] + s)[..|b|] == b;
    assert (a + [separator] + r)[|a| + 1..] == r && (b + [separator] + s)[|b| + 1..] == s;
  }

  lemma PairReadsBack(p: (Text, Text), q: (Text, Text))
    requires RenderPair(p) == RenderPair(q)
    ensures p == q
  {
    SplitOnce(EQUALS, UriEncode(p.0), UriEncode(p.1), UriEncode(q.0), UriEncode(q.1));
    UriRoundTrip(p.0);
    UriRoundTrip(p.1);
    UriRoundTrip(q.0);
    UriRoundTrip(q.1);
  }

  /** A joined text has a separator exactly when it joins more than one part. */
  lemma JoinSeparates(parts: seq<Text>)
    requires forall part | part in parts :: AMPERSAND !in part && part != []
    ensures AMPERSAND in Join(parts) <==> |parts| > 1
    ensures Join(parts) == [] <==> parts == []
  {
    if |parts| > 1 {
      assert Join(parts)[|parts[0]|] == AMPERSAND;
    }
  }

  lemma {:induction false} JoinReadsBack(xs: seq<Text>, ys: seq<Text>)
    requires forall part | part in xs :: AMPERSAND !in part && part != []
    requires forall part | part in ys :: AMPERSAND !in part && part != []
    requires Join(xs) == Join(ys)
    ensures xs == ys
    decreases |xs|
  {
    JoinSeparates(xs);
    JoinSeparates(ys);
    if |xs| > 1 {
      assert forall part | part in xs[1..] :: part in xs;
      assert forall part | part in ys[1..] :: part in ys;
      SplitOnce(AMPERSAND, xs[0], Join(xs[1..]), ys[0], Join(ys[1..]));
      JoinReadsBack(xs[1..], ys[1..]);
      assert xs == [xs[0]] + xs[1..] && ys == [ys[0]] + ys[1..];
    }
  }

  lemma ListingReadsBack(ps: seq<(Text, Text)>, qs: seq<(Text, Text)>)
    requires Join(Render(ps)) == Join(Render(qs))
    ensures ps == qs
  {
    JoinReadsBack(Render(ps), Render(qs));
    forall i | 0 <= i < |ps|
      ensures ps[i] == qs[i]
    {
      assert Render(ps)[i] == Render(qs)[i];
      PairReadsBack(ps[i], qs[i]);
    }
  }

  // ----- and the pairs determine it -----

  /** How often a query holds a pair. */
  function Count(query: Query, key: Text, value: Text): nat
  {
    if key in query then multiset(query[key])[value] else 0
  }

  ghost predicate SamePairs(one: Query, other: Query)
  {
    forall k, v :: Count(one, k, v) == Count(other, k, v)
  }

  lemma {:induction false} PairsCounted(key: Text, values: seq<Text>, k: Text, v: Text)
    ensures multiset(PairsOf(key, values))[(k, v)] == if k == key then multiset(values)[v] else 0
  {
    if values != [] {
      var front, last := values[..|values| - 1], values[|values| - 1];
      PairsCounted(key, front, k, v);
      assert values == front + [last];
      assert PairsOf(key, values) == PairsOf(key, front) + [(key, last)];
    } else {
      assert PairsOf(key, values) == [];
    }
  }

  /** A listing holds each pair as often as the query does. */
  lemma {:induction false} ListingCounts(keys: seq<Text>, query: Query, k: Text, v: Text)
    requires forall key | key in keys :: key in query
    requires forall i, j | 0 <= i < j < |keys| :: keys[i] != keys[j]
    ensures multiset(Listing(keys, query))[(k, v)] == if k in keys then Count(query, k, v) else 0
    decreases |keys|
  {
    hide Sorted;
    if keys != [] {
      ListingCounts(keys[1..], query, k, v);
      HeadCounts(keys[0], query[keys[0]], Listing(keys[1..], query), k, v);
      assert k in keys <==> k == keys[0] || k in keys[1..];
    }
  }

  lemma HeadCounts(key: Text, values: seq<Text>, rest: seq<(Text, Text)>, k: Text, v: Text)
    ensures multiset(PairsOf(key, Sorted(values)) + rest)[(k, v)]
         == (if k == key then multiset(values)[v] else 0) + multiset(rest)[(k, v)]
  {
    hide Sorted;
    PairsCounted(key, Sorted(values), k, v);
  }

  lemma SortedKeys(keys: seq<Text>, query: Query)
    requires Lists(keys, query)
    ensures StrictBy(Less, Sorted(keys)) && Lists(Sorted(keys), query)
  {
    var sorted := Sorted(keys);
    SortBySorts(Itself(), keys);
    SortedSame(keys);
    Distinct(keys, sorted);
    forall i, j | 0 <= i < j < |sorted|
      ensures Less(sorted[i], sorted[j])
    {
      assert !Less(Itself()(sorted[j]), Itself()(sorted[i]));
      LessTotal(sorted[i], sorted[j]);
    }
  }

  lemma Distinct(xs: seq<Text>, ys: seq<Text>)
    requires multiset(xs) == multiset(ys) && forall i, j | 0 <= i < j < |xs| :: xs[i] != xs[j]
    ensures forall i, j | 0 <= i < j < |ys| :: ys[i] != ys[j]
  {
    forall i, j | 0 <= i < j < |ys|
      ensures ys[i] != ys[j]
    {
      assert ys[i] in multiset(xs);
      Once(xs, ys[i]);
      assert ys == ys[..i] + [ys[i]] + ys[i + 1..j] + [ys[j]] + ys[j + 1..];
      assert multiset(ys)[ys[i]] == 1;
    }
  }

  lemma {:induction false} Once(xs: seq<Text>, x: Text)
    requires forall i, j | 0 <= i < j < |xs| :: xs[i] != xs[j]
    ensures multiset(xs)[x] <= 1
    decreases |xs|
  {
    if xs != [] {
      Once(xs[1..], x);
      assert xs == [xs[0]] + xs[1..];
      assert x == xs[0] ==> x !in xs[1..];
    }
  }

  /** Keys without values list nothing. */
  lemma {:induction false} ListingSkipsEmpty(keys: seq<Text>, query: Query, held: Text -> bool)
    requires forall k | k in keys :: k in query && (held(k) <==> query[k] != [])
    ensures Listing(Filter(held, keys), query) == Listing(keys, query)
    decreases |keys|
  {
    if keys != [] {
      ListingSkipsEmpty(keys[1..], query, held);
      if held(keys[0]) {
        assert ([keys[0]] + Filter(held, keys[1..]))[1..] == Filter(held, keys[1..]);
      } else {
        assert PairsOf(keys[0], Sorted(query[keys[0]])) == [];
      }
    }
  }

  lemma {:induction false} ListingSame(keys: seq<Text>, one: Query, other: Query)
    requires forall k | k in keys :: k in one && k in other && Sorted(one[k]) == Sorted(other[k])
    ensures Listing(keys, one) == Listing(keys, other)
    decreases |keys|
  {
    if keys != [] {
      ListingSame(keys[1..], one, other);
    }
  }

  lemma SameValues(one: Query, other: Query, k: Text)
    requires SamePairs(one, other) && k in one && one[k] != []
    ensures k in other && other[k] != [] && Sorted(one[k]) == Sorted(other[k])
  {
    assert one[k][0] in multiset(one[k]);
    assert Count(one, k, one[k][0]) == Count(other, k, one[k][0]) > 0;
    forall v
      ensures multiset(one[k])[v] == multiset(other[k])[v]
    {
      assert Count(one, k, v) == Count(other, k, v);
    }
    assert multiset(one[k]) == multiset(other[k]);
    SortByPermuted(Itself(), one[k], other[k]);
  }

  lemma SameListing(keys1: seq<Text>, one: Query, keys2: seq<Text>, other: Query)
    requires Lists(keys1, one) && Lists(keys2, other) && SamePairs(one, other)
    requires StrictBy(Less, keys1) && StrictBy(Less, keys2)
    ensures Listing(keys1, one) == Listing(keys2, other)
  {
    var held := (k: Text) => k in one && one[k] != [];
    var held2 := (k: Text) => k in other && other[k] != [];
    ListingSkipsEmpty(keys1, one, held);
    ListingSkipsEmpty(keys2, other, held2);
    forall k
      ensures held(k) <==> held2(k)
    {
      if held(k) { SameValues(one, other, k); }
      if held2(k) { SameValues(other, one, k); }
    }
    FilterStrict(Less, held, keys1);
    FilterStrict(Less, held2, keys2);
    TextOrderIsAsymmetric();
    UniqueStrict(Less, Filter(held, keys1), Filter(held2, keys2));
    forall k | k in Filter(held, keys1)
      ensures k in one && k in other && Sorted(one[k]) == Sorted(other[k])
    {
      SameValues(one, other, k);
    }
    ListingSame(Filter(held, keys1), one, other);
  }

  /**
   * Two queries sign alike exactly when they hold the same pairs, each as often,
   * whatever order their maps and value lists come in.
   */
  lemma CanonicalIsTheMultiset(keys1: seq<Text>, one: Query, keys2: seq<Text>, other: Query)
    requires Lists(keys1, one) && Lists(keys2, other)
    ensures Canonical(keys1, one) == Canonical(keys2, other) <==> SamePairs(one, other)
  {
    SortedKeys(keys1, one);
    SortedKeys(keys2, other);
    if SamePairs(one, other) {
      SameListing(Sorted(keys1), one, Sorted(keys2), other);
    }
    if Canonical(keys1, one) == Canonical(keys2, other) {
      ListingReadsBack(Listing(Sorted(keys1), one), Listing(Sorted(keys2), other));
      forall k, v
        ensures Count(one, k, v) == Count(other, k, v)
      {
        ListingCounts(Sorted(keys1), one, k, v);
        ListingCounts(Sorted(keys2), other, k, v);
      }
    }
  }

  // ----- reading the canonical string as a query -----

  /** What stands between separators. */
  function Fields(t: Text, separator: byte): (r: seq<Text>)
    ensures r != []
  {
    if t == [] then [[]]
    else
      var rest := Fields(t[1..], separator);
      if t[0] == separator then [[]] + rest else [[t[0]] + rest[0]] + rest[1..]
  }

  lemma {:induction false} FieldsThen(a: Text, rest: Text, separator: byte)
    requires separator !in a
    ensures Fields(a, separator) == [a] && Fields(a + [separator] + rest, separator) == [a] + Fields(rest, separator)
    decreases |a|
  {
    var t := a + [separator] + rest;
    if a == [] {
      assert t[1..] == rest;
    } else {
      FieldsThen(a[1..], rest, separator);
      assert t[1..] == a[1..] + [separator] + rest;
      assert a == [a[0]] + a[1..];
    }
  }

  lemma {:induction false} FieldsOfJoin(parts: seq<Text>)
    requires parts != [] && forall part | part in parts :: AMPERSAND !in part
    ensures Fields(Join(parts), AMPERSAND) == parts
    decreases |parts|
  {
    assert parts[0] in parts && forall part | part in parts[1..] :: part in parts;
    if |parts| == 1 {
      FieldsThen(parts[0], [], AMPERSAND);
    } else {
      FieldsThen(parts[0], Join(parts[1..]), AMPERSAND);
      FieldsOfJoin(parts[1..]);
      assert parts == [parts[0]] + parts[1..];
    }
  }

  /** A field of a query string is a name and a value, percent-encoded, with an equals sign between. */
  predicate ReadsAs(field: Text, pair: (Text, Text))
  {
    var sides := Fields(field, EQUALS);
    |sides| == 2 && UriDecode(sides[0]) == Some(pair.0) && UriDecode(sides[1]) == Some(pair.1)
  }

  lemma PairReadsAs(pair: (Text, Text))
    ensures ReadsAs(RenderPair(pair), pair)
  {
    FieldsThen(UriEncode(pair.0), UriEncode(pair.1), EQUALS);
    FieldsThen(UriEncode(pair.1), [], EQUALS);
    UriRoundTrip(pair.0);
    UriRoundTrip(pair.1);
  }

  /** By key in byte order, then by value. */
  ghost predicate Ascending(pairs: seq<(Text, Text)>)
  {
    forall i, j | 0 <= i < j < |pairs| ::
      ByteBefore(pairs[i].0, pairs[j].0) || (pairs[i].0 == pairs[j].0 && !ByteBefore(pairs[j].1, pairs[i].1))
  }

  lemma {:induction false} ListingAscends(keys: seq<Text>, query: Query)
    requires StrictBy(Less, keys) && forall k | k in keys :: k in query
    ensures Ascending(Listing(keys, query)) && forall p | p in Listing(keys, query) :: p.0 in keys
    decreases |keys|
  {
    hide ByteBefore;
    hide Less;
    hide Sorted;
    if keys != [] {
      var mine, rest := PairsOf(keys[0], Sorted(query[keys[0]])), Listing(keys[1..], query);
      assert forall k | k in keys[1..] :: k in keys && Less(keys[0], k);
      ListingAscends(keys[1..], query);
      ValuesAscend(keys[0], query[keys[0]]);
      forall p | p in rest
        ensures ByteBefore(keys[0], p.0)
      {
        LessIsByteOrder(keys[0], p.0);
      }
      AscendingJoined(mine, rest, keys[0]);
    }
  }

  lemma ValuesAscend(key: Text, values: seq<Text>)
    ensures Ascending(PairsOf(key, Sorted(values)))
  {
    var sorted := Sorted(values);
    SortBySorts(Itself(), values);
    forall i, j | 0 <= i < j < |sorted|
      ensures !ByteBefore(sorted[j], sorted[i])
    {
      assert !Less(Itself()(sorted[j]), Itself()(sorted[i]));
      LessIsByteOrder(sorted[j], sorted[i]);
    }
  }

  lemma AscendingJoined(mine: seq<(Text, Text)>, rest: seq<(Text, Text)>, key: Text)
    requires Ascending(mine) && Ascending(rest)
    requires (forall p | p in mine :: p.0 == key) && forall p | p in rest :: ByteBefore(key, p.0)
    ensures Ascending(mine + rest)
  {
    hide ByteBefore;
    var all := mine + rest;
    forall i, j | 0 <= i < j < |all|
      ensures ByteBefore(all[i].0, all[j].0) || (all[i].0 == all[j].0 && !ByteBefore(all[j].1, all[i].1))
    {
      if i < |mine| <= j {
        assert all[i] in mine && all[j] in rest;
      } else if j < |mine| {
        assert all[i] == mine[i] && all[j] == mine[j];
      } else {
        assert all[i] == rest[i - |mine|] && all[j] == rest[j - |mine|];
      }
    }
  }

  /**
   * Read as a query - fields between ampersands, an equals sign in each, percent
   * signs undone - the canonical string is the query's pairs, each as often as the
   * query holds it, ascending in byte order by key and then by value.
   */
  lemma CanonicalReadsBack(keys: seq<Text>, query: Query) returns (pairs: seq<(Text, Text)>)
    requires Lists(keys, query)
    ensures Ascending(pairs) && forall k, v :: multiset(pairs)[(k, v)] == Count(query, k, v)
    ensures pairs == [] ==> Canonical(keys, query) == []
    ensures pairs != [] ==>
              var fields := Fields(Canonical(keys, query), AMPERSAND);
              |fields| == |pairs| && forall i | 0 <= i < |pairs| :: ReadsAs(fields[i], pairs[i])
  {
    hide ReadsAs;
    hide Ascending;
    hide Listing;
    hide Sorted;
    SortedKeys(keys, query);
    pairs := Listing(Sorted(keys), query);
    ListingAscends(Sorted(keys), query);
    forall k, v
      ensures multiset(pairs)[(k, v)] == Count(query, k, v)
    {
      ListingCounts(Sorted(keys), query, k, v);
    }
    if pairs != [] {
      FieldsOfJoin(Render(pairs));
      forall i | 0 <= i < |pairs|
        ensures ReadsAs(Render(pairs)[i], pairs[i])
      {
        PairReadsAs(pairs[i]);
      }
    }
  }
}
