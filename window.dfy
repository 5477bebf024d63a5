/** `FaPos` and `Q`: GC counts of a window that a caller slides along a
    record, kept in four `uint32` base counters that are updated
    incrementally when the new window overlaps the previous one. */
module Window {
  import opened Fai
  import opened Composition
  import opened Reader
  import opened Statistics

  datatype Option<T> = None | Some(value: T)

  /** A window `[Start, End)` on record `Chrom`, set by the caller, and
      the cache `Q` leaves behind: the window it last counted and that
      window's base counts. */
  class FaPos {
    var Chrom: string
    var Start: int
    var End: int

    var lastChrom: string
    var lastStart: int
    var lastEnd: int
    var As: u32
    var Cs: u32
    var Gs: u32
    var Ts: u32

    /** `&FaPos{Chrom: chrom, Start: start, End: end}`: every other field
        has Go's zero value, which is a valid (empty) cache for any file. */
    constructor (chrom: string, start: int, end: int)
      ensures Chrom == chrom && Start == start && End == end
      ensures lastChrom == "" && lastStart == 0 && lastEnd == 0
      ensures Counts() == NoBases
      ensures forall f: Faidx | f.Valid() :: Valid(f)
    {
      Chrom, Start, End := chrom, start, end;
      lastChrom, lastStart, lastEnd := "", 0, 0;
      As, Cs, Gs, Ts := 0, 0, 0, 0;
    }

    function Counts(): BaseCounts
      reads this
    {
      BaseCounts(As as int, Cs as int, Gs as int, Ts as int)
    }

    /** The cache describes `f`: when the last counted record is in the
        index, the last window lies inside it and inside the mapping, and
        the counters hold that window's tally, each reduced modulo 2^32. */
    ghost predicate Valid(f: Faidx)
      reads this
    {
      && f.Valid()
      && (lastChrom in f.Index ==>
            && 0 <= lastStart <= lastEnd <= f.Index[lastChrom].Length
            && Position(f.Index[lastChrom], lastEnd) <= |f.mmap|
            && Counts() == Tally(Span(f, f.Index[lastChrom], lastStart, lastEnd)).Wrap())
    }

    /** Go's `Duplicity` in the cases it decides without a logarithm: 0 when
        the counters hold no base, 1.0 when they hold exactly one kind of
        base (its share is 1 and `1 * log(1)` is 0).  With two or more
        kinds it returns `1 + s / log(4)`, left unevaluated here (`None`). */
    function Duplicity(): (d: Option<real>)
      reads this
      ensures d == Some(0.0) <==> Counts().Kinds() == 0
      ensures d == Some(1.0) <==> Counts().Kinds() == 1
      ensures d.None? <==> Counts().Kinds() >= 2
    {
      var k := Counts().Kinds();
      if k == 0 then Some(0.0) else if k == 1 then Some(1.0) else None
    }

    /** The `++` loop of `Q` over `buf`. */
    method Add(buf: seq<byte>)
      modifies this`As, this`Cs, this`Gs, this`Ts
      ensures Counts() == old(Counts()).Plus(Tally(buf)).Wrap()
    {
      ghost var base := Counts();
      var i := 0;
      TallyEmptyPrefix(buf);
      WrapInRange(base);
      while i < |buf|
        invariant 0 <= i <= |buf|
        invariant Counts() == base.Plus(Tally(buf[..i])).Wrap()
      {
        Increment(buf[i]);
        WrapStep(base, buf, i);
        i := i + 1;
      }
      TallyFullPrefix(buf);
    }

    /** The `--` loop of `Q` over `buf`. */
    method Remove(buf: seq<byte>)
      modifies this`As, this`Cs, this`Gs, this`Ts
      ensures Counts() == old(Counts()).Minus(Tally(buf)).Wrap()
    {
      ghost var base := Counts();
      var i := 0;
      TallyEmptyPrefix(buf);
      WrapInRange(base);
      while i < |buf|
        invariant 0 <= i <= |buf|
        invariant Counts() == base.Minus(Tally(buf[..i])).Wrap()
      {
        Decrement(buf[i]);
        WrapStep(base, buf, i);
        i := i + 1;
      }
      TallyFullPrefix(buf);
    }

    /** The `switch` of the `++` loop: bump the counter of `b`'s base,
        wrapping as a `uint32` does. */
    method Increment(b: byte)
      modifies this`As, this`Cs, this`Gs, this`Ts
      ensures Counts() == old(Counts()).Plus(Count(b)).Wrap()
    {
      WrapInRange(Counts());
      if b == 'G' as byte || b == 'g' as byte {
        Gs := Inc(Gs);
      } else if b == 'C' as byte || b == 'c' as byte {
        Cs := Inc(Cs);
      } else if b == 'A' as byte || b == 'a' as byte {
        As := Inc(As);
      } else if b == 'T' as byte || b == 't' as byte {
        Ts := Inc(Ts);
      }
    }

    /** The `switch` of the `--` loop. */
    method Decrement(b: byte)
      modifies this`As, this`Cs, this`Gs, this`Ts
      ensures Counts() == old(Counts()).Minus(Count(b)).Wrap()
    {
      WrapInRange(Counts());
      if b == 'G' as byte || b == 'g' as byte {
        Gs := Dec(Gs);
      } else if b == 'C' as byte || b == 'c' as byte {
        Cs := Dec(Cs);
      } else if b == 'A' as byte || b == 'a' as byte {
        As := Dec(As);
      } else if b == 'T' as byte || b == 't' as byte {
        Ts := Dec(Ts);
      }
    }
  }

  /** `Q`: the number of G and C bases (either case) in `pos`'s window.
      When the window starts inside the last one counted, ends no earlier
      and is on the same record, only the bytes that left and the bytes
      that entered are counted; otherwise the window is counted afresh.
      Either way the counters end up holding the window's tally. */
  method Q(f: Faidx, pos: FaPos) returns (res: Result<u32>)
    requires pos.Valid(f)
    requires pos.Chrom in f.Index ==>
      && 0 <= pos.Start <= pos.End <= f.Index[pos.Chrom].Length
      && Position(f.Index[pos.Chrom], pos.End) <= |f.mmap|
    modifies pos
    ensures pos.Valid(f)
    ensures pos.Chrom == old(pos.Chrom) && pos.Start == old(pos.Start) && pos.End == old(pos.End)
    ensures pos.Chrom !in f.Index ==> res == Err(0, UnknownSequence(pos.Chrom)) && unchanged(pos)
    ensures pos.Chrom in f.Index ==>
      && pos.lastChrom == pos.Chrom && pos.lastStart == pos.Start && pos.lastEnd == pos.End
      && pos.Counts() == Tally(Span(f, f.Index[pos.Chrom], pos.Start, pos.End)).Wrap()
      && res == Ok(AddU32(pos.Gs, pos.Cs))
  {
    if pos.Chrom !in f.Index {
      return Err(0, UnknownSequence(pos.Chrom));
    }
    var idx := f.Index[pos.Chrom];
    if pos.lastStart > pos.Start || pos.Start >= pos.lastEnd || pos.lastEnd > pos.End || pos.Chrom != pos.lastChrom {
      pos.lastChrom := pos.Chrom;
      pos.As, pos.Cs, pos.Gs, pos.Ts := 0, 0, 0, 0;
      pos.Add(Span(f, idx, pos.Start, pos.End));
      ColdCount(Tally(Span(f, idx, pos.Start, pos.End)));
    } else {
      PositionMonotone(idx, pos.Start, pos.End);
      pos.Remove(Span(f, idx, pos.lastStart, pos.Start));
      pos.Add(Span(f, idx, pos.lastEnd, pos.End));
      SlideSpans(f, idx, pos.lastStart, pos.Start, pos.lastEnd, pos.End);
    }
    pos.lastStart := pos.Start;
    pos.lastEnd := pos.End;
    return Ok(AddU32(pos.Gs, pos.Cs));
  }

  /** Counting a window from zero gives its reduced tally. */
  lemma ColdCount(t: BaseCounts)
    ensures NoBases.Plus(t).Wrap() == t.Wrap()
  {
    assert NoBases.Plus(t) == t;
  }

  /** The warm path of `Q` in terms of the record: the counts of
      `[lastStart, lastEnd)`, minus `[lastStart, start)`, plus
      `[lastEnd, end)`, are the counts of `[start, end)`. */
  lemma SlideSpans(f: Faidx, r: Record, lastStart: int, start: int, lastEnd: int, end: int)
    requires r.Valid() && 0 <= lastStart <= start <= lastEnd <= end <= r.Length
    requires Position(r, end) <= |f.mmap|
    ensures Position(r, lastStart) <= Position(r, start) <= Position(r, lastEnd) <= Position(r, end)
    ensures Tally(Span(f, r, lastStart, lastEnd)).Wrap().Minus(Tally(Span(f, r, lastStart, start))).Wrap()
              .Plus(Tally(Span(f, r, lastEnd, end))).Wrap()
            == Tally(Span(f, r, start, end)).Wrap()
  {
    PositionMonotone(r, lastStart, start);
    PositionMonotone(r, start, lastEnd);
    PositionMonotone(r, lastEnd, end);
    SlideTallyWrapped(f.mmap, Position(r, lastStart), Position(r, start), Position(r, lastEnd), Position(r, end));
  }

  /** The number of G and C bases of a window whose tally is `t`, as a
      `uint32` holds it. */
  function GcOfWindow(t: BaseCounts): int {
    (t.g + t.c) % UINT32_MODULUS
  }

  /** What `Q` returns, `Gs + Cs` as a `uint32`, is the number of G and C
      bases (either case) of the counted window, modulo 2^32: `t` is the
      window's tally, which `Q` leaves in the counters reduced. */
  lemma QCountsGC(pos: FaPos, t: BaseCounts)
    requires pos.Counts() == t.Wrap()
    ensures AddU32(pos.Gs, pos.Cs) as int == GcOfWindow(t)
  {
    WrappedSum(t);
  }

  /** `Q`'s count and the G/C count of the scan `Stats` evidently means
      to make agree on every window shorter than 2^32 bytes (and so, by
      `WindowCounters`' contract, with `Stats` itself away from the end
      of the mapping). */
  lemma QMatchesStats(f: Faidx, r: Record, start: int, end: int)
    requires r.Valid() && 0 <= start <= end <= r.Length
    requires Position(r, end) <= |f.mmap|
    requires Position(r, end) - Position(r, start) < UINT32_MODULUS
    ensures GcOfWindow(Tally(Span(f, r, start, end))) == WindowCounters(f, r, start, end).gcUp + WindowCounters(f, r, start, end).gcLo
  {
    var s := Span(f, r, start, end);
    TallyBounds(s);
    GcAgree(Tally(s), WindowCounters(f, r, start, end), |s|);
  }

  lemma GcAgree(n: BaseCounts, w: Counters, bound: int)
    requires n.NonNegative() && n.Total() <= bound < UINT32_MODULUS
    requires w.gcUp + w.gcLo == n.g + n.c
    ensures GcOfWindow(n) == w.gcUp + w.gcLo
  {
    DivModUnique(n.g + n.c, UINT32_MODULUS, 0, n.g + n.c);
  }

  /** A window (shorter than 2^32 bytes) that holds base `b` and
      otherwise only bytes of the same base or bytes that count for nothing
      (line breaks, `N`s) is as repetitive as it gets: after `Q` has counted
      it, `Duplicity` is 1. */
  lemma RunIsFullyRepetitive(pos: FaPos, s: seq<byte>, b: byte, k: int)
    requires pos.Counts() == Tally(s).Wrap()
    requires |s| < UINT32_MODULUS && Count(b) != NoBases
    requires forall i | 0 <= i < |s| :: Count(s[i]) == Count(b) || Count(s[i]) == NoBases
    requires 0 <= k < |s| && s[k] == b
    ensures pos.Duplicity() == Some(1.0)
  {
    TallyOfOneBase(s, Count(b));
    HitsPositive(s, b, k);
    NoWrapBelowModulus(s);
    RunKinds(b, Hits(s, Count(b)));
  }

  /** A window holding no A, C, G or T (all `N`, say) has `Duplicity` 0. */
  lemma NoBasesNoDuplicity(pos: FaPos, s: seq<byte>)
    requires pos.Counts() == Tally(s).Wrap()
    requires forall i | 0 <= i < |s| :: Count(s[i]) == NoBases
    ensures pos.Duplicity() == Some(0.0)
  {
    TallyOfNothing(s);
  }
}
