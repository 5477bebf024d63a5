/** Case-insensitive A/C/G/T counts of a byte range, and the `uint32`
    counters the sliding-window cursor keeps them in. */
module Composition {
  import opened Fai

  const UINT32_MODULUS: int := 0x1_0000_0000

  /** Go's `uint32`. */
  newtype u32 = x: int | 0 <= x < 0x1_0000_0000

  /** Go's `x++` on a `uint32`: wraps from the largest value to zero. */
  function Inc(x: u32): (y: u32)
    ensures y as int == (x as int + 1) % UINT32_MODULUS
  {
    if x == 0xFFFF_FFFF then 0 else x + 1
  }

  /** Go's `x--` on a `uint32`: wraps from zero to the largest value. */
  function Dec(x: u32): (y: u32)
    ensures y as int == (x as int - 1) % UINT32_MODULUS
  {
    if x == 0 then 0xFFFF_FFFF else x - 1
  }

  /** Go's `x + y` on two `uint32`s. */
  function AddU32(x: u32, y: u32): (z: u32)
    ensures z as int == (x as int + y as int) % UINT32_MODULUS
  {
    if x as int + y as int < UINT32_MODULUS then x + y
    else (x as int + y as int - UINT32_MODULUS) as u32
  }

  /** Per-base counts; `int` so that a difference of two tallies is one too. */
  datatype BaseCounts = BaseCounts(a: int, c: int, g: int, t: int)
  {
    function Plus(o: BaseCounts): BaseCounts {
      BaseCounts(a + o.a, c + o.c, g + o.g, t + o.t)
    }

    function Minus(o: BaseCounts): BaseCounts {
      BaseCounts(a - o.a, c - o.c, g - o.g, t - o.t)
    }

    /** Each count reduced modulo 2^32, as a `uint32` counter holds it. */
    function Wrap(): BaseCounts {
      BaseCounts(a % UINT32_MODULUS, c % UINT32_MODULUS, g % UINT32_MODULUS, t % UINT32_MODULUS)
    }

    predicate NonNegative() {
      a >= 0 && c >= 0 && g >= 0 && t >= 0
    }

    function Total(): int {
      a + c + g + t
    }

    /** `k` copies of these counts added up. */
    function Times(k: nat): BaseCounts {
      if k == 0 then NoBases else Times(k - 1).Plus(this)
    }

    /** How many of the four bases have a non-zero count. */
    function Kinds(): nat {
      (if a != 0 then 1 else 0) + (if c != 0 then 1 else 0) +
      (if g != 0 then 1 else 0) + (if t != 0 then 1 else 0)
    }
  }

  const NoBases := BaseCounts(0, 0, 0, 0)

  /** The eight bytes that name a base, in either case. */
  const NUCLEOTIDES: set<byte> := {
    'A' as byte, 'C' as byte, 'G' as byte, 'T' as byte,
    'a' as byte, 'c' as byte, 'g' as byte, 't' as byte}

  /** The contribution of one byte: `G`/`g`, `C`/`c`, `A`/`a`, `T`/`t` each
      count for their base; every other byte (newline, `N`, ...) for none. */
  function Count(b: byte): BaseCounts {
    if b == 'G' as byte || b == 'g' as byte then BaseCounts(0, 0, 1, 0)
    else if b == 'C' as byte || b == 'c' as byte then BaseCounts(0, 1, 0, 0)
    else if b == 'A' as byte || b == 'a' as byte then BaseCounts(1, 0, 0, 0)
    else if b == 'T' as byte || b == 't' as byte then BaseCounts(0, 0, 0, 1)
    else NoBases
  }

  /** The from-scratch tally of a byte range, byte by byte from the front. */
  function Tally(s: seq<byte>): BaseCounts
  {
    if s == [] then NoBases else Tally(s[..|s| - 1]).Plus(Count(s[|s| - 1]))
  }

  /** No count is negative, and together they never exceed the number of
      bytes: a byte counts for at most one base. */
  lemma {:induction false} TallyBounds(s: seq<byte>)
    ensures Tally(s).NonNegative() && Tally(s).Total() <= |s|
  {
    if s != [] {
      TallyBounds(s[..|s| - 1]);
      CountIsUnit(s[|s| - 1]);
    }
  }

  /** The tally of a concatenation is the sum of the tallies. */
  lemma {:induction false} TallyConcat(s: seq<byte>, t: seq<byte>)
    ensures Tally(s + t) == Tally(s).Plus(Tally(t))
    decreases |t|
  {
    if t == [] {
      assert s + t == s;
      assert Tally(t) == NoBases;
    } else {
      var t', last := t[..|t| - 1], t[|t| - 1];
      assert (s + t)[..|s + t| - 1] == s + t';
      assert (s + t)[|s + t| - 1] == last;
      assert Tally(s + t) == Tally(s + t').Plus(Count(last));
      assert Tally(t) == Tally(t').Plus(Count(last));
      TallyConcat(s, t');
      assert Tally(s).Plus(Tally(t')).Plus(Count(last)) == Tally(s).Plus(Tally(t').Plus(Count(last)));
    }
  }

  /** The empty prefix tallies nothing. */
  lemma TallyEmptyPrefix(s: seq<byte>)
    ensures Tally(s[..0]) == NoBases
  {
    assert s[..0] == [];
  }

  /** The full prefix tallies the whole. */
  lemma TallyFullPrefix(s: seq<byte>)
    ensures Tally(s[..|s|]) == Tally(s)
  {
    assert s[..|s|] == s;
  }

  /** The tally of a prefix one byte longer counts that byte too. */
  lemma TallyPrefixStep(s: seq<byte>, i: int)
    requires 0 <= i < |s|
    ensures Tally(s[..i + 1]) == Tally(s[..i]).Plus(Count(s[i]))
  {
    assert s[..i + 1][..i] == s[..i];
  }

  /** Splitting a slice of `d` at `j` splits its tally. */
  lemma TallySplit(d: seq<byte>, i: int, j: int, k: int)
    requires 0 <= i <= j <= k <= |d|
    ensures Tally(d[i..k]) == Tally(d[i..j]).Plus(Tally(d[j..k]))
  {
    assert d[i..k] == d[i..j] + d[j..k];
    TallyConcat(d[i..j], d[j..k]);
  }

  /** Adding a multiple of 2^32 does not change a `uint32` counter. */
  lemma ModShift(z: int, q: int)
    ensures (z + q * UINT32_MODULUS) % UINT32_MODULUS == z % UINT32_MODULUS
  {
    DivModUnique(z + q * UINT32_MODULUS, UINT32_MODULUS, z / UINT32_MODULUS + q, z % UINT32_MODULUS);
  }

  lemma ModAdd(x: int, y: int)
    ensures (x % UINT32_MODULUS + y) % UINT32_MODULUS == (x + y) % UINT32_MODULUS
  {
    ModShift(x % UINT32_MODULUS + y, x / UINT32_MODULUS);
  }

  /** A range of fewer than 2^32 bytes has counts a `uint32` holds exactly. */
  lemma NoWrapBelowModulus(s: seq<byte>)
    requires |s| < UINT32_MODULUS
    ensures Tally(s).Wrap() == Tally(s)
  {
    TallyBounds(s);
    WrapInRange(Tally(s));
  }

  /** Counts that `uint32` counters hold are their own reduction. */
  lemma WrapInRange(n: BaseCounts)
    requires 0 <= n.a < UINT32_MODULUS && 0 <= n.c < UINT32_MODULUS
    requires 0 <= n.g < UINT32_MODULUS && 0 <= n.t < UINT32_MODULUS
    ensures n.Wrap() == n
  {
    DivModUnique(n.a, UINT32_MODULUS, 0, n.a);
    DivModUnique(n.c, UINT32_MODULUS, 0, n.c);
    DivModUnique(n.g, UINT32_MODULUS, 0, n.g);
    DivModUnique(n.t, UINT32_MODULUS, 0, n.t);
  }

  /** Reducing modulo 2^32 before or after adding or subtracting another
      tally gives the same counters. */
  lemma WrapCompatible(x: BaseCounts, y: BaseCounts)
    ensures x.Wrap().Plus(y).Wrap() == x.Plus(y).Wrap()
    ensures x.Wrap().Minus(y).Wrap() == x.Minus(y).Wrap()
  {
    ModAdd(x.a, y.a); ModAdd(x.c, y.c); ModAdd(x.g, y.g); ModAdd(x.t, y.t);
    ModAdd(x.a, -y.a); ModAdd(x.c, -y.c); ModAdd(x.g, -y.g); ModAdd(x.t, -y.t);
  }

  /** One more byte counted into (or out of) reduced counters gives the
      reduced counts of the longer prefix. */
  lemma WrapStep(base: BaseCounts, s: seq<byte>, i: int)
    requires 0 <= i < |s|
    ensures base.Plus(Tally(s[..i])).Wrap().Plus(Count(s[i])).Wrap() == base.Plus(Tally(s[..i + 1])).Wrap()
    ensures base.Minus(Tally(s[..i])).Wrap().Minus(Count(s[i])).Wrap() == base.Minus(Tally(s[..i + 1])).Wrap()
  {
    var t, c := Tally(s[..i]), Count(s[i]);
    TallyPrefixStep(s, i);
    WrapCompatible(base.Plus(t), c);
    assert base.Plus(t).Plus(c) == base.Plus(t.Plus(c));
    WrapCompatible(base.Minus(t), c);
    assert base.Minus(t).Minus(c) == base.Minus(t.Plus(c));
  }

  /** Sliding a window `[a, c)` to `[b, e)` with `b <= c`: taking the
      bytes `[a, b)` out of the counts and putting `[c, e)` in gives the
      counts of `[b, e)`. */
  lemma {:induction false} SlideTally(d: seq<byte>, a: int, b: int, c: int, e: int)
    requires 0 <= a <= b <= c <= e <= |d|
    ensures Tally(d[a..c]).Minus(Tally(d[a..b])).Plus(Tally(d[c..e])) == Tally(d[b..e])
  {
    TallySplit(d, a, b, c);
    TallySplit(d, b, c, e);
    Cancel(Tally(d[a..b]), Tally(d[b..c]), Tally(d[c..e]));
  }

  lemma Cancel(x: BaseCounts, y: BaseCounts, z: BaseCounts)
    ensures x.Plus(y).Minus(x).Plus(z) == y.Plus(z)
  {
  }

  /** The same slide on counters reduced modulo 2^32 gives the reduced
      counts of the new window. */
  lemma SlideTallyWrapped(d: seq<byte>, a: int, b: int, c: int, e: int)
    requires 0 <= a <= b <= c <= e <= |d|
    ensures Tally(d[a..c]).Wrap().Minus(Tally(d[a..b])).Wrap().Plus(Tally(d[c..e])).Wrap() == Tally(d[b..e]).Wrap()
  {
    var ac, ab, ce := Tally(d[a..c]), Tally(d[a..b]), Tally(d[c..e]);
    WrapCompatible(ac, ab);
    WrapCompatible(ac.Minus(ab), ce);
    SlideTally(d, a, b, c, e);
  }

  /** While the bytes `[a, k)` are taken out of the counts of `[a, c)`,
      the counters hold the tally of `[k, c)`: when the window is shorter
      than 2^32 bytes no decrement ever wraps below zero. */
  lemma RemovalStaysExact(d: seq<byte>, a: int, k: int, c: int)
    requires 0 <= a <= k <= c <= |d| && c - a < UINT32_MODULUS
    ensures Tally(d[a..c]).Wrap().Minus(Tally(d[a..k])) == Tally(d[k..c])
    ensures Tally(d[a..c]).Wrap().Minus(Tally(d[a..k])).NonNegative()
  {
    NoWrapBelowModulus(d[a..c]);
    TallyBounds(d[k..c]);
    TallySplit(d, a, k, c);
    assert Tally(d[a..c]) == Tally(d[a..k]).Plus(Tally(d[k..c]));
  }

  /** How many bytes of `s` count for exactly `u`. */
  function Hits(s: seq<byte>, u: BaseCounts): (h: nat)
    ensures h <= |s|
  {
    if s == [] then 0
    else Hits(s[..|s| - 1], u) + (if Count(s[|s| - 1]) == u then 1 else 0)
  }

  /** A range whose bytes all count for `u` (one base) or for nothing (line
      breaks, `N`s) counts `u` once per hit. */
  lemma {:induction false} TallyOfOneBase(s: seq<byte>, u: BaseCounts)
    requires forall i | 0 <= i < |s| :: Count(s[i]) == u || Count(s[i]) == NoBases
    ensures Tally(s) == u.Times(Hits(s, u))
  {
    if s == [] {
      assert u.Times(0) == NoBases;
    } else {
      var init, last := s[..|s| - 1], s[|s| - 1];
      forall i | 0 <= i < |init|
        ensures Count(init[i]) == u || Count(init[i]) == NoBases
      {
        assert init[i] == s[i];
      }
      TallyOfOneBase(init, u);
      assert Count(s[|s| - 1]) == u || Count(s[|s| - 1]) == NoBases;
      OneBaseSnoc(s, u);
    }
  }

  /** The step of `TallyOfOneBase`: from the prefix to the whole range. */
  lemma OneBaseSnoc(s: seq<byte>, u: BaseCounts)
    requires s != [] && Tally(s[..|s| - 1]) == u.Times(Hits(s[..|s| - 1], u))
    requires Count(s[|s| - 1]) == u || Count(s[|s| - 1]) == NoBases
    ensures Tally(s) == u.Times(Hits(s, u))
  {
    var init, x := s[..|s| - 1], Count(s[|s| - 1]);
    assert Tally(s) == Tally(init).Plus(x);
    OneBaseStep(Tally(init), u, x, Hits(init, u), Hits(s, u));
  }

  /** A range holding `b` itself has at least one hit of `b`'s base. */
  lemma {:induction false} HitsPositive(s: seq<byte>, b: byte, k: int)
    requires 0 <= k < |s| && s[k] == b
    ensures Hits(s, Count(b)) > 0
  {
    if k < |s| - 1 {
      assert s[..|s| - 1][k] == b;
      HitsPositive(s[..|s| - 1], b, k);
    }
  }

  /** One more byte of the base, or one that counts for nothing. */
  lemma OneBaseStep(t: BaseCounts, u: BaseCounts, x: BaseCounts, h: nat, h': nat)
    requires t == u.Times(h) && (x == u || x == NoBases)
    requires h' == h + (if x == u then 1 else 0)
    ensures t.Plus(x) == u.Times(h')
  {
    if x == u {
      assert u.Times(h + 1) == u.Times(h).Plus(u);
    } else {
      assert t.Plus(NoBases) == t;
    }
  }

  /** Bytes that are none of the four bases count for nothing. */
  lemma {:induction false} TallyOfNothing(s: seq<byte>)
    requires forall i | 0 <= i < |s| :: Count(s[i]) == NoBases
    ensures Tally(s) == NoBases
  {
    if s != [] {
      var init, last := s[..|s| - 1], s[|s| - 1];
      forall i | 0 <= i < |init|
        ensures Count(init[i]) == NoBases
      {
        assert init[i] == s[i];
      }
      TallyOfNothing(init);
      assert Count(last) == NoBases;
    }
  }

  /** Exactly the eight base letters count for something. */
  lemma CountsNucleotides(b: byte)
    ensures Count(b) == NoBases <==> b !in NUCLEOTIDES
  {
  }

  /** Each byte counts for at most one base. */
  lemma CountIsUnit(b: byte)
    ensures Count(b) in {NoBases, BaseCounts(1, 0, 0, 0), BaseCounts(0, 1, 0, 0), BaseCounts(0, 0, 1, 0), BaseCounts(0, 0, 0, 1)}
  {
  }

  /** Any positive number of bytes of one base shows exactly one kind of
      base. */
  lemma RunKinds(b: byte, n: nat)
    requires Count(b) != NoBases && n > 0
    ensures Count(b).Times(n).Kinds() == 1
  {
    CountIsUnit(b);
    TimesSupport(Count(b), n);
  }

  /** A positive number of copies of non-negative counts is non-zero on
      exactly the same bases. */
  lemma {:induction false} TimesSupport(u: BaseCounts, n: nat)
    requires u.NonNegative() && n > 0
    ensures u.Times(n).NonNegative()
    ensures (u.Times(n).a == 0 <==> u.a == 0) && (u.Times(n).c == 0 <==> u.c == 0)
    ensures (u.Times(n).g == 0 <==> u.g == 0) && (u.Times(n).t == 0 <==> u.t == 0)
  {
    if n == 1 {
      assert u.Times(1) == NoBases.Plus(u);
    } else {
      TimesSupport(u, n - 1);
    }
  }

  /** `uint32` sums of reduced counts are the reduced sums. */
  lemma WrappedSum(t: BaseCounts)
    ensures (t.Wrap().g + t.Wrap().c) % UINT32_MODULUS == (t.g + t.c) % UINT32_MODULUS
  {
    ModAdd(t.g, t.c % UINT32_MODULUS);
    ModAdd(t.c, t.g);
  }
}
