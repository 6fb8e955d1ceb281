// Byte-string order, sorting, and why a sorted list is determined by what it lists.

module Ordering {
  import opened Base
  import opened Words
  import opened Permutations

  /** A Go string: its bytes. */
  type Text = seq<byte>

  /** Lexicographic order, as Go compares strings. */
  predicate Less(a: Text, b: Text)
    decreases |a|
  {
    b != [] && (a == [] || a[0] < b[0] || (a[0] == b[0] && Less(a[1..], b[1..])))
  }

  /**
   * Where byte strings differ first, the smaller byte decides; a string comes after
   * its own proper prefixes.
   */
  ghost predicate ByteBefore(a: Text, b: Text)
  {
    || (|a| < |b| && b[..|a|] == a)
    || exists k :: 0 <= k < |a| && k < |b| && a[..k] == b[..k] && a[k] < b[k]
  }

  /** The order is that of the bytes, and no other total order. */
  lemma {:induction false} LessIsByteOrder(a: Text, b: Text)
    ensures Less(a, b) <==> ByteBefore(a, b)
    decreases |a|
  {
    if a != [] && b != [] {
      LessIsByteOrder(a[1..], b[1..]);
      assert a == [a[0]] + a[1..] && b == [b[0]] + b[1..];
      if a[0] == b[0] {
        TailsDecide(a, b);
      } else {
        HeadsDecide(a, b);
      }
    }
  }

  lemma HeadsDecide(a: Text, b: Text)
    requires a != [] && b != [] && a[0] != b[0]
    ensures ByteBefore(a, b) <==> a[0] < b[0]
  {
    assert a[..0] == b[..0];
    assert forall k | 0 < k < |a| && k < |b| :: a[..k][0] == a[0] && b[..k][0] == b[0];
    assert |a| < |b| ==> b[..|a|][0] == b[0];
  }

  lemma TailsDecide(a: Text, b: Text)
    requires a != [] && b != [] && a[0] == b[0]
    ensures ByteBefore(a, b) <==> ByteBefore(a[1..], b[1..])
  {
    var x, y := a[1..], b[1..];
    assert |x| < |y| ==> (y[..|x|] == x <==> b[..|a|] == a) by {
      if |x| < |y| {
        assert b[..|a|] == [b[0]] + y[..|x|] && a == [a[0]] + x;
        assert b[..|a|][1..] == y[..|x|];
      }
    }
    if k :| 0 <= k < |x| && k < |y| && x[..k] == y[..k] && x[k] < y[k] {
      assert a[..k + 1] == [a[0]] + x[..k] && b[..k + 1] == [b[0]] + y[..k];
      assert a[k + 1] < b[k + 1];
    }
    if k :| 0 <= k < |a| && k < |b| && a[..k] == b[..k] && a[k] < b[k] {
      assert x[..k - 1] == a[..k][1..] && y[..k - 1] == b[..k][1..];
      assert x[k - 1] < y[k - 1];
    }
  }

  /** Exactly one of two different strings is the lesser. */
  lemma {:induction false} LessTotal(a: Text, b: Text)
    ensures Less(a, b) <==> a != b && !Less(b, a)
    decreases |a|
  {
    if a != [] && b != [] {
      LessTotal(a[1..], b[1..]);
      assert a == [a[0]] + a[1..] && b == [b[0]] + b[1..];
    }
  }

  lemma {:induction false} LessTransitive(a: Text, b: Text, c: Text)
    requires Less(a, b) && Less(b, c)
    ensures Less(a, c)
    decreases |a|
  {
    if a != [] && a[0] == b[0] == c[0] {
      LessTransitive(a[1..], b[1..], c[1..]);
    }
  }

  // ----- sorting by a key -----

  predicate SortedBy<T>(key: T -> Text, xs: seq<T>)
  {
    forall i, j | 0 <= i < j < |xs| :: !Less(key(xs[j]), key(xs[i]))
  }

  /** Elements with one key are one element. */
  predicate KeysDistinguish<T(==)>(key: T -> Text, xs: seq<T>)
  {
    forall i, j | 0 <= i < |xs| && 0 <= j < |xs| && key(xs[i]) == key(xs[j]) :: xs[i] == xs[j]
  }

  function Insert<T>(key: T -> Text, x: T, xs: seq<T>): (r: seq<T>)
    ensures multiset(r) == multiset(xs) + multiset{x}
  {
    if xs == [] then [x]
    else if Less(key(xs[0]), key(x)) then
      assert xs == [xs[0]] + xs[1..];
      [xs[0]] + Insert(key, x, xs[1..])
    else [x] + xs
  }

  /** What any sort by this key answers, when keys distinguish. */
  function SortBy<T>(key: T -> Text, xs: seq<T>): (r: seq<T>)
    ensures multiset(r) == multiset(xs)
  {
    if xs == [] then []
    else
      assert xs == [xs[0]] + xs[1..];
      Insert(key, xs[0], SortBy(key, xs[1..]))
  }

  lemma {:induction false} InsertSorted<T>(key: T -> Text, x: T, xs: seq<T>)
    requires SortedBy(key, xs)
    ensures SortedBy(key, Insert(key, x, xs))
    decreases |xs|
  {
    var r := Insert(key, x, xs);
    if xs != [] {
      LessTotal(key(xs[0]), key(x));
      if Less(key(xs[0]), key(x)) {
        InsertSorted(key, x, xs[1..]);
        forall j | 0 < j < |r|
          ensures !Less(key(r[j]), key(r[0]))
        {
          assert r[j] in multiset(r[1..]);
          assert r[j] == x || r[j] in xs[1..];
        }
      } else {
        forall j | 0 < j < |r|
          ensures !Less(key(r[j]), key(x))
        {
          assert r[j] == xs[j - 1];
          LessTotal(key(xs[0]), key(xs[0]));
          assert j > 1 ==> !Less(key(xs[j - 1]), key(xs[0]));
          NotAbove(key(x), key(xs[0]), key(r[j]));
        }
      }
    }
  }

  /** Not being above is transitive. */
  lemma NotAbove(a: Text, b: Text, c: Text)
    requires !Less(b, a) && !Less(c, b)
    ensures !Less(c, a)
  {
    LessTotal(b, a);
    LessTotal(c, b);
    LessTotal(c, a);
    if a != b && b != c {
      LessTransitive(a, b, c);
    }
  }

  lemma {:induction false} SortBySorts<T>(key: T -> Text, xs: seq<T>)
    ensures SortedBy(key, SortBy(key, xs))
  {
    if xs != [] {
      SortBySorts(key, xs[1..]);
      InsertSorted(key, xs[0], SortBy(key, xs[1..]));
    }
  }

  /** Sorted lists of the same elements are the same list. */
  lemma {:induction false} UniqueSorted<T>(key: T -> Text, xs: seq<T>, ys: seq<T>)
    requires SortedBy(key, xs) && SortedBy(key, ys) && multiset(xs) == multiset(ys)
    requires KeysDistinguish(key, xs)
    ensures xs == ys
    decreases |xs|
  {
    SameElements(xs, ys);
    assert |multiset(xs)| == |xs| && |multiset(ys)| == |ys|;
    if xs != [] {
      SortedHeads(key, xs, ys);
      SortedHeads(key, ys, xs);
      LessTotal(key(xs[0]), key(ys[0]));
      assert ys[0] in xs;
      var i :| 0 <= i < |xs| && xs[i] == ys[0];
      assert key(xs[0]) == key(xs[i]);
      DropHead(xs, ys);
      UniqueSorted(key, xs[1..], ys[1..]);
      assert xs == [xs[0]] + xs[1..] && ys == [xs[0]] + ys[1..];
    }
  }

  /** The head of a sorted list is not above any element of it. */
  lemma SortedHeads<T>(key: T -> Text, xs: seq<T>, ys: seq<T>)
    requires SortedBy(key, xs) && xs != [] && ys != [] && ys[0] in xs
    ensures !Less(key(ys[0]), key(xs[0]))
  {
    var i :| 0 <= i < |xs| && xs[i] == ys[0];
    LessTotal(key(ys[0]), key(xs[0]));
    assert i > 0 ==> !Less(key(xs[i]), key(xs[0]));
  }

  lemma DropHead<T>(xs: seq<T>, ys: seq<T>)
    requires xs != [] && ys != [] && xs[0] == ys[0] && multiset(xs) == multiset(ys)
    ensures multiset(xs[1..]) == multiset(ys[1..])
  {
    assert xs == [xs[0]] + xs[1..] && ys == [xs[0]] + ys[1..];
    assert multiset([xs[0]] + xs[1..]) == multiset{xs[0]} + multiset(xs[1..]);
    assert multiset([xs[0]] + ys[1..]) == multiset{xs[0]} + multiset(ys[1..]);
    assert multiset(xs[1..]) == multiset(xs) - multiset{xs[0]};
  }

  /** Sorting forgets the order it was given. */
  lemma SortByPermuted<T>(key: T -> Text, xs: seq<T>, ys: seq<T>)
    requires multiset(xs) == multiset(ys) && KeysDistinguish(key, xs)
    ensures SortBy(key, xs) == SortBy(key, ys)
  {
    SortBySorts(key, xs);
    SortBySorts(key, ys);
    DistinguishPermuted(key, xs, SortBy(key, xs));
    UniqueSorted(key, SortBy(key, xs), SortBy(key, ys));
  }

  lemma DistinguishPermuted<T>(key: T -> Text, xs: seq<T>, ys: seq<T>)
    requires multiset(xs) == multiset(ys) && KeysDistinguish(key, xs)
    ensures KeysDistinguish(key, ys)
  {
    SameElements(xs, ys);
    forall i, j | 0 <= i < |ys| && 0 <= j < |ys| && key(ys[i]) == key(ys[j])
      ensures ys[i] == ys[j]
    {
      assert ys[i] in xs && ys[j] in xs;
    }
  }

  /** Strings as their own keys. */
  function Itself(): Text -> Text
  {
    (t: Text) => t
  }

  // ----- strictly increasing lists -----

  predicate StrictBy<T>(less: (T, T) -> bool, xs: seq<T>)
  {
    forall i, j | 0 <= i < j < |xs| :: less(xs[i], xs[j])
  }

  ghost predicate Asymmetric<T(!new)>(less: (T, T) -> bool)
  {
    forall x, y :: !(less(x, y) && less(y, x))
  }

  /** Strictly increasing lists with the same members are the same list. */
  lemma {:induction false} UniqueStrict<T(!new)>(less: (T, T) -> bool, xs: seq<T>, ys: seq<T>)
    requires StrictBy(less, xs) && StrictBy(less, ys) && Asymmetric(less)
    requires forall x :: x in xs <==> x in ys
    ensures xs == ys
    decreases |xs|
  {
    if xs == [] {
      assert forall i | 0 <= i < |ys| :: ys[i] in xs;
    } else {
      assert xs[0] in ys;
      var j :| 0 <= j < |ys| && ys[j] == xs[0];
      assert ys[0] in xs;
      var i :| 0 <= i < |xs| && xs[i] == ys[0];
      assert xs[0] == ys[0];
      var a, b := xs[1..], ys[1..];
      assert xs == [xs[0]] + a && ys == [xs[0]] + b;
      assert xs[0] !in a by { assert !less(xs[0], xs[0]); }
      assert xs[0] !in b by { assert !less(ys[0], ys[0]); }
      assert forall x :: x in a <==> x in xs && x != xs[0];
      assert forall x :: x in b <==> x in ys && x != xs[0];
      UniqueStrict(less, a, b);
    }
  }

  lemma TextOrderIsAsymmetric()
    ensures Asymmetric(Less)
  {
    forall a: Text, b: Text
      ensures !(Less(a, b) && Less(b, a))
    {
      LessTotal(a, b);
    }
  }

  // ----- filters -----

  /** The elements of a list that pass, in order. */
  function Filter<T(!new)>(keep: T -> bool, xs: seq<T>): (r: seq<T>)
    ensures forall x :: x in r <==> x in xs && keep(x)
  {
    if xs == [] then []
    else
      assert xs == [xs[0]] + xs[1..];
      if keep(xs[0]) then [xs[0]] + Filter(keep, xs[1..]) else Filter(keep, xs[1..])
  }

  /** Keeping some of a strictly increasing list keeps it so. */
  lemma {:induction false} FilterStrict<T(!new)>(less: (T, T) -> bool, keep: T -> bool, xs: seq<T>)
    requires StrictBy(less, xs)
    ensures StrictBy(less, Filter(keep, xs))
    decreases |xs|
  {
    if xs != [] {
      FilterStrict(less, keep, xs[1..]);
      assert forall y | y in xs[1..] :: less(xs[0], y);
    }
  }

  lemma {:induction false} FilterFilter<T(!new)>(first: T -> bool, second: T -> bool, both: T -> bool, xs: seq<T>)
    requires forall x | x in xs :: both(x) <==> first(x) && second(x)
    ensures Filter(second, Filter(first, xs)) == Filter(both, xs)
    decreases |xs|
  {
    if xs != [] {
      assert xs[0] in xs && forall x | x in xs[1..] :: x in xs;
      FilterFilter(first, second, both, xs[1..]);
      var rest := Filter(first, xs[1..]);
      assert first(xs[0]) ==> ([xs[0]] + rest)[1..] == rest;
    }
  }

  lemma {:induction false} FilterSame<T(!new)>(one: T -> bool, other: T -> bool, xs: seq<T>)
    requires forall x | x in xs :: one(x) <==> other(x)
    ensures Filter(one, xs) == Filter(other, xs)
    decreases |xs|
  {
    if xs != [] {
      assert xs[0] in xs && forall x | x in xs[1..] :: x in xs;
      FilterSame(one, other, xs[1..]);
    }
  }

  lemma {:induction false} FilterAll<T(!new)>(keep: T -> bool, xs: seq<T>)
    requires forall x | x in xs :: keep(x)
    ensures Filter(keep, xs) == xs
    decreases |xs|
  {
    if xs != [] {
      assert xs[0] in xs && forall x | x in xs[1..] :: x in xs;
      FilterAll(keep, xs[1..]);
    }
  }

  lemma {:induction false} FilterNone<T(!new)>(keep: T -> bool, xs: seq<T>)
    requires forall x | x in xs :: !keep(x)
    ensures Filter(keep, xs) == []
    decreases |xs|
  {
    if xs != [] {
      assert xs[0] in xs && forall x | x in xs[1..] :: x in xs;
      FilterNone(keep, xs[1..]);
    }
  }
}
