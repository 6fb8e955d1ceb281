// Shared vocabulary: optional values and bounded machine words.

module Base {
  /** A value, or its absence. A parser that answers `None` refuses its input. */
  datatype Option<+T> = None | Some(value: T)

  /** An optional list with some elements put before it. */
  function Prefixed<T>(front: seq<T>, rest: Option<seq<T>>): Option<seq<T>>
  {
    match rest
    case None => None
    case Some(tail) => Some(front + tail)
  }

  lemma PrefixedStep<T>(front: seq<T>, x: T, rest: Option<seq<T>>)
    ensures Prefixed(front, Prefixed([x], rest)) == Prefixed(front + [x], rest)
  {
    if rest.Some? {
      assert front + ([x] + rest.value) == front + [x] + rest.value;
    }
  }

  lemma PrefixedEmpty<T>(rest: Option<seq<T>>)
    ensures Prefixed([], rest) == rest
  {
    if rest.Some? {
      assert [] + rest.value == rest.value;
    }
  }

  function Min(a: int, b: int): int { if a <= b then a else b }

  function Max(a: int, b: int): int { if a >= b then a else b }
}

/** Sequences that list the same elements. */
module Permutations {
  /** Where the first element of a sequence sits in a permutation of it. */
  lemma PullFirst<T>(xs: seq<T>, ys: seq<T>) returns (i: nat)
    requires xs != [] && multiset(xs) == multiset(ys)
    ensures i < |ys| == |xs| && ys[i] == xs[0]
    ensures ys == ys[..i] + [xs[0]] + ys[i + 1..]
    ensures multiset(xs[1..]) == multiset(ys[..i] + ys[i + 1..])
  {
    assert |multiset(xs)| == |xs| && |multiset(ys)| == |ys|;
    assert xs[0] in multiset(ys);
    i :| 0 <= i < |ys| && ys[i] == xs[0];
    assert ys == ys[..i] + [xs[0]] + ys[i + 1..];
    assert xs == [xs[0]] + xs[1..];
    assert multiset(ys) == multiset(ys[..i]) + multiset{xs[0]} + multiset(ys[i + 1..]);
    assert multiset(ys[..i] + ys[i + 1..]) == multiset(ys) - multiset{xs[0]};
    assert multiset([xs[0]] + xs[1..]) == multiset{xs[0]} + multiset(xs[1..]);
    assert multiset(xs[1..]) == multiset(xs) - multiset{xs[0]};
  }

  /** The sum of a measure over a list. */
  function Sum<T>(f: T -> nat, xs: seq<T>): nat
  {
    if xs == [] then 0 else f(xs[0]) + Sum(f, xs[1..])
  }

  lemma {:induction false} SumAppend<T>(f: T -> nat, xs: seq<T>, ys: seq<T>)
    ensures Sum(f, xs + ys) == Sum(f, xs) + Sum(f, ys)
  {
    if xs == [] {
      assert xs + ys == ys;
    } else {
      assert (xs + ys)[1..] == xs[1..] + ys;
      SumAppend(f, xs[1..], ys);
    }
  }

  lemma {:induction false} SumPermuted<T>(f: T -> nat, xs: seq<T>, ys: seq<T>)
    requires multiset(xs) == multiset(ys)
    ensures Sum(f, xs) == Sum(f, ys)
    decreases |xs|
  {
    if xs == [] {
      assert multiset(ys) == multiset{} && ys == [];
    } else {
      var i := PullFirst(xs, ys);
      var front, tail := ys[..i], ys[i + 1..];
      SumPermuted(f, xs[1..], front + tail);
      SumAppend(f, front, tail);
      SumAppend(f, front, [xs[0]] + tail);
      assert ys == front + ([xs[0]] + tail);
      assert ([xs[0]] + tail)[1..] == tail;
    }
  }

  lemma SameElements<T>(xs: seq<T>, ys: seq<T>)
    requires multiset(xs) == multiset(ys)
    ensures forall x :: x in xs <==> x in ys
  {
    forall x
      ensures x in xs <==> x in ys
    {
      assert x in xs <==> x in multiset(xs);
      assert x in ys <==> x in multiset(ys);
    }
  }
}

/** Bytes, 64-bit words and the byte orders the containers use. */
module Words {
  import opened Base

  type byte = n: nat | n < 0x100

  const U16 := 0x1_0000
  const U32 := 0x1_0000_0000
  const U63 := 0x8000_0000_0000_0000
  const U64 := 0x1_0000_0000_0000_0000

  type u32 = n: nat | n < 0x1_0000_0000
  type u64 = n: nat | n < 0x1_0000_0000_0000_0000

  /** No slice of a 64-bit Go process is longer: its address space has 48 bits. */
  const MAX_SLICE := 0x1_0000_0000_0000

  /** The low 64 bits of a number: what an unguarded unsigned operation keeps. */
  function Wrap64(n: int): (r: u64)
    ensures r == n % U64
    ensures 0 <= n < U64 ==> r == n
  {
    n % 0x1_0000_0000_0000_0000
  }

  /** The full 128-bit product, split as `bits.Mul64` does. */
  function Mul64(a: u64, b: u64): (r: (nat, u64))
    ensures r.0 * U64 + r.1 == a * b
    ensures r.0 == 0 <==> a * b < U64
    ensures r.0 == 0 ==> r.1 == a * b
  {
    (a * b / U64, a * b % U64)
  }

  /** The sum and its carry, as `bits.Add64` with no carry in. */
  function Add64(a: u64, b: u64): (r: (u64, nat))
    ensures r.1 * U64 + r.0 == a + b
  {
    ((a + b) % U64, (a + b) / U64)
  }

  /** The number a byte string spells, most significant byte first. */
  function BeValue(s: seq<byte>): nat
  {
    if s == [] then 0 else BeValue(s[..|s| - 1]) * 0x100 + s[|s| - 1]
  }

  /** The n low bytes of v, most significant first. */
  function BeBytes(v: nat, n: nat): (s: seq<byte>)
    ensures |s| == n
  {
    if n == 0 then [] else BeBytes(v / 0x100, n - 1) + [v % 0x100]
  }

  function Pow256(n: nat): (p: nat)
    ensures p > 0
  {
    if n == 0 then 1 else 0x100 * Pow256(n - 1)
  }

  lemma SmallPowers()
    ensures Pow256(0) == 1 && Pow256(1) == 0x100 && Pow256(2) == 0x1_0000 && Pow256(3) == 0x100_0000
    ensures Pow256(4) == U32
  {
  }

  lemma {:induction false} BeValueBound(s: seq<byte>)
    ensures BeValue(s) < Pow256(|s|)
  {
    if s != [] {
      BeValueBound(s[..|s| - 1]);
    }
  }

  lemma {:induction false} BeRoundTrip(v: nat, n: nat)
    requires v < Pow256(n)
    ensures BeValue(BeBytes(v, n)) == v
  {
    if n > 0 {
      BeRoundTrip(v / 0x100, n - 1);
      assert BeBytes(v, n)[..n - 1] == BeBytes(v / 0x100, n - 1);
    }
  }

  /** Any bytes are the digits of the number they spell. */
  lemma {:induction false} DigitsOfValue(s: seq<byte>)
    ensures BeBytes(BeValue(s), |s|) == s
  {
    if s != [] {
      var front := s[..|s| - 1];
      DigitsOfValue(front);
      assert s == front + [s[|s| - 1]];
    }
  }

  /** Reading a leading digit off a spelled number. */
  lemma {:induction false} BeValueHead(h: byte, t: seq<byte>)
    ensures BeValue([h] + t) == h * Pow256(|t|) + BeValue(t)
  {
    var s := [h] + t;
    if t == [] {
      assert s[..0] == [];
    } else {
      BeValueHead(h, t[..|t| - 1]);
      assert s[..|s| - 1] == [h] + t[..|t| - 1];
    }
  }

  function Be16(b: seq<byte>): u32
    requires |b| >= 2
  {
    (b[0] as int) * 0x100 + b[1]
  }

  function Be32(b: seq<byte>): u32
    requires |b| >= 4
  {
    (b[0] as int) * 0x100_0000 + (b[1] as int) * 0x1_0000 + (b[2] as int) * 0x100 + b[3]
  }

  function Be64(b: seq<byte>): u64
    requires |b| >= 8
  {
    Be32(b) * U32 + Be32(b[4..])
  }

  function Le16(b: seq<byte>): u32
    requires |b| >= 2
  {
    b[0] + (b[1] as int) * 0x100
  }

  function Le32(b: seq<byte>): u32
    requires |b| >= 4
  {
    b[0] + (b[1] as int) * 0x100 + (b[2] as int) * 0x1_0000 + (b[3] as int) * 0x100_0000
  }

  function Le64(b: seq<byte>): u64
    requires |b| >= 8
  {
    Le32(b) + Le32(b[4..]) * U32
  }

  /** Fixed-width reads agree with the spelled number. */
  lemma Be32Value(b: seq<byte>)
    requires |b| >= 4
    ensures Be32(b) == BeValue(b[..4])
  {
    assert b[..4] == [b[0]] + ([b[1]] + ([b[2]] + ([b[3]] + [])));
    BeValueHead(b[3], []);
    BeValueHead(b[2], [b[3]] + []);
    BeValueHead(b[1], [b[2]] + ([b[3]] + []));
    BeValueHead(b[0], [b[1]] + ([b[2]] + ([b[3]] + [])));
    assert Pow256(1) == 0x100 && Pow256(2) == 0x1_0000 && Pow256(3) == 0x100_0000;
  }

  /** A remainder is determined by any quotient that leaves it in range. */
  lemma ModUnique(n: int, q: int, r: nat, m: nat)
    requires n == q * m + r && r < m
    ensures n % m == r && n / m == q
  {
    var k := n / m - q;
    assert n == m * (n / m) + n % m;
    assert m * k == r - n % m by {
      assert m * (n / m) - q * m == m * k;
    }
    assert k >= 1 ==> m * k >= m;
    assert k <= -1 ==> m * k + m <= 0;
  }

  lemma MulMonotone(a: nat, b: nat, p: nat)
    requires a <= b
    ensures a * p <= b * p
  {
  }

  /** A quotient is between zero and what it divides. */
  lemma DivBounds(n: nat, d: nat, q: int, r: nat)
    requires n == q * d + r && r < d
    ensures 0 <= q <= n
  {
    if q < 0 {
      MulMonotone(1, -q, d);
    } else {
      MulMonotone(1, d, q);
    }
  }

  /** Shifting a wrapped number in place loses nothing that a later wrap keeps. */
  lemma WrapShift(v: nat, b: byte)
    ensures (v * 0x100 + b) % U64 == Wrap64((v % U64) * 0x100) + b
  {
    var value := v % U64;
    var low := Wrap64(value * 0x100);
    var q := v / U64 * 0x100 + value * 0x100 / U64;
    assert low % 0x100 == 0;
    ModUnique(v * 0x100 + b, q, low + b, U64);
  }

  /** Cutting the rest of some bytes is cutting the bytes. */
  lemma SliceOfRest(data: seq<byte>, offset: nat, header: nat, size: nat)
    requires offset + header + size <= |data|
    ensures data[offset..][header..header + size] == data[offset + header..offset + header + size]
    ensures data[offset..][header + size..] == data[offset + header + size..]
  {
  }

  /** A whole element body as an unsigned number: 64 bits are kept. */
  method ReadUint(body: seq<byte>) returns (value: u64)
    ensures value == BeValue(body) % U64
  {
    value := 0;
    for i := 0 to |body|
      invariant value == BeValue(body[..i]) % U64
    {
      assert body[..i + 1][..i] == body[..i];
      WrapShift(BeValue(body[..i]), body[i]);
      value := Wrap64(value * 0x100) + body[i];
    }
    assert body[..|body|] == body;
  }
}
