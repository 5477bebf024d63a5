/** `Stats`: one pass over a range that sorts its bytes into upper- and
    lower-case G/C and A/T classes and counts CpG dinucleotides by peeking
    at the byte after each C. */
module Statistics {
  import opened Fai
  import opened Composition
  import opened Reader

  /** Go's `Stats`: fractions over the classified bases of a range.  The
      source computes them in `float64`; here they are exact reals. */
  datatype Fractions = Fractions(GC: real, CpG: real, Masked: real)

  const ZeroStats := Fractions(0.0, 0.0, 0.0)

  /** The five integer counters of the scan. */
  datatype Counters = Counters(gcUp: nat, gcLo: nat, atUp: nat, atLo: nat, cpg: nat)
  {
    function Classified(): nat {
      gcUp + gcLo + atUp + atLo
    }
  }

  predicate IsG(b: byte) {
    b == 'G' as byte || b == 'g' as byte
  }

  /** One turn of the scan: classify `v`, and count a CpG when `v` is `C`
      or `c` and the next byte is `G` or `g`. */
  function Classify(n: Counters, v: byte, nextIsG: bool): (m: Counters)
  {
    if v == 'G' as byte || v == 'C' as byte then
      n.(gcUp := n.gcUp + 1, cpg := if v == 'C' as byte && nextIsG then n.cpg + 1 else n.cpg)
    else if v == 'A' as byte || v == 'T' as byte then
      n.(atUp := n.atUp + 1)
    else if v == 'g' as byte || v == 'c' as byte then
      n.(gcLo := n.gcLo + 1, cpg := if v == 'c' as byte && nextIsG then n.cpg + 1 else n.cpg)
    else if v == 'a' as byte || v == 't' as byte then
      n.(atLo := n.atLo + 1)
    else
      n
  }

  /** The counters after scanning the first `k` bytes of `buf`, each one
      peeking at the byte after it when there is one.  A CpG is only ever
      counted at a G/C byte, so it never outnumbers them. */
  function Census(buf: seq<byte>, k: nat): (n: Counters)
    requires k <= |buf|
    ensures n.cpg <= n.gcUp + n.gcLo
    ensures n.Classified() <= k
  {
    if k == 0 then Counters(0, 0, 0, 0, 0)
    else Classify(Census(buf, k - 1), buf[k - 1], k < |buf| && IsG(buf[k]))
  }

  /** The classes of the scan agree with the case-insensitive tally:
      G/C bytes are the `g` and `c` counts, A/T bytes the `a` and `t`
      counts. */
  lemma {:induction false} CensusMatchesTally(buf: seq<byte>, k: nat)
    requires k <= |buf|
    ensures Census(buf, k).gcUp + Census(buf, k).gcLo == Tally(buf[..k]).g + Tally(buf[..k]).c
    ensures Census(buf, k).atUp + Census(buf, k).atLo == Tally(buf[..k]).a + Tally(buf[..k]).t
  {
    if k > 0 {
      CensusMatchesTally(buf, k - 1);
      ClassifyMatchesCount(Census(buf, k - 1), buf[k - 1], k < |buf| && IsG(buf[k]));
      TallyPrefixStep(buf, k - 1);
    }
  }

  /** One byte moves the G/C and A/T classes exactly as it moves the
      tally. */
  lemma ClassifyMatchesCount(n: Counters, v: byte, nextIsG: bool)
    ensures Classify(n, v, nextIsG).gcUp + Classify(n, v, nextIsG).gcLo == n.gcUp + n.gcLo + Count(v).g + Count(v).c
    ensures Classify(n, v, nextIsG).atUp + Classify(n, v, nextIsG).atLo == n.atUp + n.atLo + Count(v).a + Count(v).t
  {
  }

  /** One turn of the scan classifies `v` when it names a base, in either
      case, and counts a CpG exactly when `v` is `C` or `c` and the next
      byte is `G` or `g`. */
  lemma ClassifyCounts(n: Counters, v: byte, nextIsG: bool)
    ensures Classify(n, v, nextIsG).Classified() == n.Classified() + (if v in NUCLEOTIDES then 1 else 0)
    ensures Classify(n, v, nextIsG).cpg == n.cpg + (if (v == 'C' as byte || v == 'c' as byte) && nextIsG then 1 else 0)
    ensures Classify(n, v, nextIsG).gcUp == n.gcUp + (if v in UPPER_GC then 1 else 0)
    ensures Classify(n, v, nextIsG).gcLo == n.gcLo + (if v in LOWER_GC then 1 else 0)
    ensures Classify(n, v, nextIsG).atUp == n.atUp + (if v in UPPER_AT then 1 else 0)
    ensures Classify(n, v, nextIsG).atLo == n.atLo + (if v in LOWER_AT then 1 else 0)
  {
  }

  /** The four classes of the scan: upper- and lower-case G/C and A/T. */
  const UPPER_GC: set<byte> := {'G' as byte, 'C' as byte}
  const LOWER_GC: set<byte> := {'g' as byte, 'c' as byte}
  const UPPER_AT: set<byte> := {'A' as byte, 'T' as byte}
  const LOWER_AT: set<byte> := {'a' as byte, 't' as byte}

  /** The number of bytes of `s` that belong to `kind`. */
  function Among(s: seq<byte>, kind: set<byte>): (k: nat)
    ensures k <= |s|
  {
    if |s| == 0 then 0
    else Among(s[..|s| - 1], kind) + (if s[|s| - 1] in kind then 1 else 0)
  }

  /** The CpG sites among the first `k` bytes of `buf`: a `C` or `c`
      whose next byte in `buf` (a newline included) is `G` or `g`. */
  function CpgSites(buf: seq<byte>, k: nat): (m: nat)
    requires k <= |buf|
    ensures m <= k
  {
    if k == 0 then 0
    else
      var site := (buf[k - 1] == 'C' as byte || buf[k - 1] == 'c' as byte) && k < |buf| && IsG(buf[k]);
      CpgSites(buf, k - 1) + (if site then 1 else 0)
  }

  /** The CpG counter of the scan counts exactly the CpG sites of the bytes
      scanned. */
  lemma {:induction false} CensusCpg(buf: seq<byte>, k: nat)
    requires k <= |buf|
    ensures Census(buf, k).cpg == CpgSites(buf, k)
  {
    if k > 0 {
      CensusCpg(buf, k - 1);
      ClassifyCounts(Census(buf, k - 1), buf[k - 1], k < |buf| && IsG(buf[k]));
    }
  }

  /** A `C` at the end of a line is followed by the newline, not by the `G`
      that starts the next line, so `C`, newline, `G` holds no CpG site. */
  lemma CpgSplitByNewline()
    ensures CpgSites([67, 10, 71], 2) == 0
    ensures CpgSites([67, 71], 1) == 1
  {
  }

  /** Each counter of the scan counts its own class among the bytes
      scanned: `gcLo` the lower-case `g` and `c`, `atLo` the lower-case
      `a` and `t`, and likewise in upper case. */
  lemma {:induction false} CensusClasses(buf: seq<byte>, k: nat)
    requires k <= |buf|
    ensures Census(buf, k).gcUp == Among(buf[..k], UPPER_GC)
    ensures Census(buf, k).gcLo == Among(buf[..k], LOWER_GC)
    ensures Census(buf, k).atUp == Among(buf[..k], UPPER_AT)
    ensures Census(buf, k).atLo == Among(buf[..k], LOWER_AT)
  {
    if k > 0 {
      CensusClasses(buf, k - 1);
      ClassifyCounts(Census(buf, k - 1), buf[k - 1], k < |buf| && IsG(buf[k]));
      assert buf[..k][..k - 1] == buf[..k - 1];
    }
  }

  function Min(a: real, b: real): (m: real)
    ensures m <= a && m <= b && (m == a || m == b)
  {
    if b < a then b else a
  }

  /** The float layer of `Stats` over its counters.  With no classified
      byte the result is all zero (no division by zero); otherwise every
      fraction lies in [0, 1], the CpG rate because it is clamped. */
  function FractionsOf(n: Counters): (s: Fractions)
    ensures n.Classified() == 0 ==> s == ZeroStats
    ensures 0.0 <= s.GC <= 1.0 && 0.0 <= s.Masked <= 1.0 && 0.0 <= s.CpG <= 1.0
  {
    var tot := n.Classified() as real;
    if tot == 0.0 then ZeroStats
    else
      Ratio(n.gcLo + n.gcUp, n.Classified());
      Ratio(2 * n.cpg, n.Classified());
      Ratio(n.atLo + n.gcLo, n.Classified());
      Fractions(
        GC := (n.gcLo + n.gcUp) as real / tot,
        CpG := Min(1.0, (2 * n.cpg) as real / tot),
        Masked := (n.atLo + n.gcLo) as real / tot)
  }

  /** A count over a positive total is a non-negative fraction, at most 1
      when the count is part of the total. */
  lemma Ratio(x: nat, total: nat)
    requires total > 0
    ensures 0.0 <= x as real / total as real
    ensures x <= total ==> x as real / total as real <= 1.0
  {
  }

  /** `oend`: one byte past `position(end)`, so that the last base can
      peek at its successor, unless that is already the end of the mapping. */
  function PeekEnd(f: Faidx, r: Record, end: int): (oend: int)
    requires r.Valid() && 0 <= end <= r.Length
    ensures oend == Position(r, end) + 1 <==> Position(r, end) < |f.mmap|
    ensures oend == Position(r, end) <==> Position(r, end) >= |f.mmap|
    ensures oend <= |f.mmap| <==> Position(r, end) <= |f.mmap|
  {
    var pend := Position(r, end);
    if pend < |f.mmap| then pend + 1 else pend
  }

  /** The ranges on which `Stats` does not panic: both ends inside the
      record and `mmap[pstart:oend]` a well-formed slice. */
  predicate ScanInRange(f: Faidx, r: Record, start: int, end: int)
    requires r.Valid()
  {
    0 <= start <= r.Length && 0 <= end <= r.Length &&
    Position(r, start) <= PeekEnd(f, r, end) <= |f.mmap|
  }

  /** `buf = mmap[pstart:oend]`. */
  function ScanBuffer(f: Faidx, r: Record, start: int, end: int): (buf: seq<byte>)
    requires r.Valid() && ScanInRange(f, r, start, end)
    ensures |buf| == PeekEnd(f, r, end) - Position(r, start)
  {
    f.mmap[Position(r, start)..PeekEnd(f, r, end)]
  }

  /** The counters `Stats` ends with: every byte of `buf` but its last. */
  function StatsCounters(f: Faidx, r: Record, start: int, end: int): (n: Counters)
    requires r.Valid() && ScanInRange(f, r, start, end)
    ensures n.cpg <= n.gcUp + n.gcLo
    ensures n.Classified() < |ScanBuffer(f, r, start, end)| || n.Classified() == 0
  {
    var buf := ScanBuffer(f, r, start, end);
    Census(buf, if |buf| == 0 then 0 else |buf| - 1)
  }

  /** `Stats`: GC, CpG and masked fractions of the bases `[start, end)`. */
  method Stats(f: Faidx, chrom: string, start: int, end: int) returns (res: Result<Fractions>)
    requires f.Valid()
    requires chrom in f.Index ==> ScanInRange(f, f.Index[chrom], start, end)
    ensures chrom !in f.Index ==> res == Err(ZeroStats, UnknownSequence(chrom))
    ensures chrom in f.Index ==> res == Ok(FractionsOf(StatsCounters(f, f.Index[chrom], start, end)))
  {
    if chrom !in f.Index {
      return Err(ZeroStats, UnknownSequence(chrom));
    }
    var idx := f.Index[chrom];
    var pstart := Position(idx, start);
    var pend := Position(idx, end);
    var oend := pend;
    if pend < |f.mmap| {
      oend := oend + 1;
    }

    var buf := f.mmap[pstart..oend];
    assert buf == ScanBuffer(f, idx, start, end);
    var n := Scan(buf);
    assert n == StatsCounters(f, idx, start, end);
    return Ok(FractionsOf(n));
  }

  /** The loop of `Stats`: classify every byte of `buf` but the last, which
      is only there to be peeked at. */
  method Scan(buf: seq<byte>) returns (n: Counters)
    ensures n == Census(buf, if |buf| == 0 then 0 else |buf| - 1)
  {
    var gcUp, gcLo, atUp, atLo, cpg := 0, 0, 0, 0, 0;
    var i := 0;
    while i < |buf|
      invariant i <= if |buf| == 0 then 0 else |buf| - 1
      invariant Counters(gcUp, gcLo, atUp, atLo, cpg) == Census(buf, i)
    {
      if i == |buf| - 1 {
        break;
      }
      var v := buf[i];
      if v == 'G' as byte || v == 'C' as byte {
        if v == 'C' as byte && (buf[i + 1] == 'G' as byte || buf[i + 1] == 'g' as byte) {
          cpg := cpg + 1;
        }
        gcUp := gcUp + 1;
      } else if v == 'A' as byte || v == 'T' as byte {
        atUp := atUp + 1;
      } else if v == 'g' as byte || v == 'c' as byte {
        if v == 'c' as byte && (buf[i + 1] == 'G' as byte || buf[i + 1] == 'g' as byte) {
          cpg := cpg + 1;
        }
        gcLo := gcLo + 1;
      } else if v == 'a' as byte || v == 't' as byte {
        atLo := atLo + 1;
      }
      i := i + 1;
    }
    n := Counters(gcUp, gcLo, atUp, atLo, cpg);
  }

  /** Away from the end of the mapping, `Stats` classifies exactly the
      bytes `[position(start), position(end))`: its G/C and A/T counts are
      those of the tally of that span. */
  lemma StatsCountsSpan(f: Faidx, r: Record, start: int, end: int)
    requires r.Valid()
    requires 0 <= start <= end <= r.Length && Position(r, end) < |f.mmap|
    ensures ScanInRange(f, r, start, end)
    ensures StatsCounters(f, r, start, end).gcUp + StatsCounters(f, r, start, end).gcLo
      == Tally(Span(f, r, start, end)).g + Tally(Span(f, r, start, end)).c
    ensures StatsCounters(f, r, start, end).atUp + StatsCounters(f, r, start, end).atLo
      == Tally(Span(f, r, start, end)).a + Tally(Span(f, r, start, end)).t
  {
    PositionMonotone(r, start, end);
    var buf := ScanBuffer(f, r, start, end);
    var pstart, pend := Position(r, start), Position(r, end);
    assert |buf| == pend + 1 - pstart;
    CensusMatchesTally(buf, |buf| - 1);
    assert buf[..|buf| - 1] == f.mmap[pstart..pend] == Span(f, r, start, end);
  }

  /** Away from the end of the mapping, the masked fraction of `Stats` is
      the share of lower-case bases among the bases of
      `[position(start), position(end))`. */
  lemma StatsMasked(f: Faidx, r: Record, start: int, end: int)
    requires r.Valid()
    requires 0 <= start <= end <= r.Length && Position(r, end) < |f.mmap|
    ensures ScanInRange(f, r, start, end)
    ensures
      var s := Span(f, r, start, end);
      var lower := Among(s, LOWER_GC) + Among(s, LOWER_AT);
      var bases := lower + Among(s, UPPER_GC) + Among(s, UPPER_AT);
      StatsCounters(f, r, start, end).Classified() == bases &&
      (bases > 0 ==> FractionsOf(StatsCounters(f, r, start, end)).Masked == lower as real / bases as real)
  {
    StatsClasses(f, r, start, end);
  }

  /** Away from the end of the mapping, each counter of `Stats` counts its
      class among the bytes of `[position(start), position(end))`. */
  lemma StatsClasses(f: Faidx, r: Record, start: int, end: int)
    requires r.Valid()
    requires 0 <= start <= end <= r.Length && Position(r, end) < |f.mmap|
    ensures ScanInRange(f, r, start, end)
    ensures StatsCounters(f, r, start, end).gcUp == Among(Span(f, r, start, end), UPPER_GC)
    ensures StatsCounters(f, r, start, end).gcLo == Among(Span(f, r, start, end), LOWER_GC)
    ensures StatsCounters(f, r, start, end).atUp == Among(Span(f, r, start, end), UPPER_AT)
    ensures StatsCounters(f, r, start, end).atLo == Among(Span(f, r, start, end), LOWER_AT)
  {
    PositionMonotone(r, start, end);
    var buf := ScanBuffer(f, r, start, end);
    var pstart, pend := Position(r, start), Position(r, end);
    assert |buf| == pend + 1 - pstart;
    CensusClasses(buf, |buf| - 1);
    assert buf[..|buf| - 1] == f.mmap[pstart..pend] == Span(f, r, start, end);
  }

  /** An empty range `[s, s)` classifies nothing, so `Stats` reports all
      zeros rather than dividing by zero. */
  lemma EmptyRangeZeroStats(f: Faidx, r: Record, s: int)
    requires r.Valid() && 0 <= s <= r.Length && Position(r, s) <= |f.mmap|
    ensures ScanInRange(f, r, s, s)
    ensures FractionsOf(StatsCounters(f, r, s, s)) == ZeroStats
  {
  }

  /** The counters `Stats` evidently means to compute: every byte of
      `[position(start), position(end))` classified, the last one peeking
      only when a next byte exists.  They agree with the tally everywhere,
      including at the end of the mapping. */
  function WindowCounters(f: Faidx, r: Record, start: int, end: int): (n: Counters)
    requires r.Valid()
    requires 0 <= start <= end <= r.Length && Position(r, end) <= |f.mmap|
    ensures n.gcUp + n.gcLo == Tally(Span(f, r, start, end)).g + Tally(Span(f, r, start, end)).c
    ensures n.atUp + n.atLo == Tally(Span(f, r, start, end)).a + Tally(Span(f, r, start, end)).t
    ensures Position(r, end) < |f.mmap| ==> n == StatsCounters(f, r, start, end)
  {
    PositionMonotone(r, start, end);
    var buf := f.mmap[Position(r, start)..PeekEnd(f, r, end)];
    var k := Position(r, end) - Position(r, start);
    CensusMatchesTally(buf, k);
    assert buf[..k] == Span(f, r, start, end);
    Census(buf, k)
  }

  /** A record that ends the file without a trailing newline, indexed as
      samtools does (4 bases, first base at byte 3, 3 bases and 4 bytes per
      line): the bytes of `>k\nACG\nC` (`A` is 65, `C` 67, `G` 71, `>` 62,
      `k` 107, newline 10). */
  function EofExample(): Faidx {
    Faidx(map["k" := Record("k", 4, 3, 3, 4)], [62, 107, 10, 65, 67, 71, 10, 67])
  }

  /** A file of one record whose four bases fill the first line:
      `>k\nCGCG\n`. */
  function CgcgExample(): Faidx {
    Faidx(map["k" := Record("k", 4, 3, 4, 5)], [62, 107, 10, 67, 71, 67, 71, 10])
  }

  lemma ExamplesValid()
    ensures EofExample().Valid()
    ensures CgcgExample().Valid()
  {
    var f, g := EofExample(), CgcgExample();
    assert Position(f.Index["k"], 3) == 7;
    assert Position(g.Index["k"], 3) == 6;
    forall name | name in f.Index
      ensures InFile(f.Index[name], |f.mmap|)
    {
      assert name == "k";
    }
    forall name | name in g.Index
      ensures InFile(g.Index[name], |g.mmap|)
    {
      assert name == "k";
    }
  }

  /** One more turn of the scan. */
  lemma CensusNext(buf: seq<byte>, k: nat, n: Counters)
    requires k < |buf| && Census(buf, k) == n
    ensures Census(buf, k + 1) == Classify(n, buf[k], k + 1 < |buf| && IsG(buf[k + 1]))
  {
  }

  /** The scan of `ACG\nC`, one byte per lemma: `A`, then a `C` followed
      by a `G`, then the `G`, then the newline (skipped), then the final `C`
      when it is scanned at all. */
  lemma CensusOfA(buf: seq<byte>)
    requires buf == [65, 67, 71, 10, 67]
    ensures Census(buf, 1) == Counters(0, 0, 1, 0, 0)
  {
    CensusNext(buf, 0, Counters(0, 0, 0, 0, 0));
  }

  lemma CensusOfAC(buf: seq<byte>)
    requires buf == [65, 67, 71, 10, 67]
    ensures Census(buf, 2) == Counters(1, 0, 1, 0, 1)
  {
    CensusOfA(buf);
    CensusNext(buf, 1, Counters(0, 0, 1, 0, 0));
  }

  lemma CensusOfACG(buf: seq<byte>)
    requires buf == [65, 67, 71, 10, 67]
    ensures Census(buf, 3) == Counters(2, 0, 1, 0, 1)
  {
    CensusOfAC(buf);
    CensusNext(buf, 2, Counters(1, 0, 1, 0, 1));
  }

  lemma CensusOfACGNewline(buf: seq<byte>)
    requires buf == [65, 67, 71, 10, 67]
    ensures Census(buf, 4) == Counters(2, 0, 1, 0, 1)
  {
    CensusOfACG(buf);
    CensusNext(buf, 3, Counters(2, 0, 1, 0, 1));
  }

  lemma CensusOfACGNewlineC(buf: seq<byte>)
    requires buf == [65, 67, 71, 10, 67]
    ensures Census(buf, 5) == Counters(3, 0, 1, 0, 1)
  {
    CensusOfACGNewline(buf);
    CensusNext(buf, 4, Counters(2, 0, 1, 0, 1));
  }

  /** The scan of `CGCG` up to its last byte: three G/C bytes, two of them
      a C followed by a G. */
  lemma CensusOfCGCG()
    ensures Census([67, 71, 67, 71], 3) == Counters(3, 0, 0, 0, 2)
  {
    CensusOfCG();
  }

  /** The first two bytes of `CGCG`: a CpG, then a G. */
  lemma CensusOfCG()
    ensures Census([67, 71, 67, 71], 2) == Counters(2, 0, 0, 0, 1)
  {
  }

  /** Two G/C bytes (one a CpG) and an A: two thirds GC. */
  lemma FractionsOfACG()
    ensures FractionsOf(Counters(2, 0, 1, 0, 1)) == Fractions(2.0 / 3.0, 2.0 / 3.0, 0.0)
  {
  }

  /** Three G/C bytes (one a CpG) and an A: three quarters GC. */
  lemma FractionsOfACGC()
    ensures FractionsOf(Counters(3, 0, 1, 0, 1)) == Fractions(0.75, 0.5, 0.0)
  {
  }

  /** Three G/C bytes with two CpGs: all GC, CpG rate clamped to 1. */
  lemma FractionsOfCGC()
    ensures FractionsOf(Counters(3, 0, 0, 0, 2)) == Fractions(1.0, 1.0, 0.0)
  {
  }

  /** Where the bases `[0, 4)` of that record lie: from byte 3 to the end
      of the eight-byte mapping. */
  lemma EofOffsets(r: Record)
    requires r == Record("k", 4, 3, 3, 4)
    ensures r.Valid() && Position(r, 0) == 3 && Position(r, 4) == 8
  {
  }

  /** The bytes of those bases, with the newline between them. */
  lemma EofBases(m: seq<byte>)
    requires m == [62, 107, 10, 65, 67, 71, 10, 67]
    ensures m[3..8] == [65, 67, 71, 10, 67]
  {
    assert m[3] == 65 && m[4] == 67 && m[5] == 71 && m[6] == 10 && m[7] == 67;
  }

  /** `buf` for `Stats("k", 0, 4)`: `position(4)` is the end of the
      mapping, so there is no peek byte and `buf` is `ACG\nC`. */
  lemma EofBuffer(f: Faidx, r: Record)
    requires |f.mmap| == 8 && f.mmap[3..8] == [65, 67, 71, 10, 67]
    requires r.Valid() && r.Length == 4 && Position(r, 0) == 3 && Position(r, 4) == 8
    ensures PeekEnd(f, r, 4) == 8
    ensures ScanInRange(f, r, 0, 4) && ScanBuffer(f, r, 0, 4) == [65, 67, 71, 10, 67]
  {
  }

  /** The scan `Stats("k", 0, 4)` makes of that file: the final `C` is the
      last byte of `buf`, so it is never classified. */
  lemma EofScan(f: Faidx, r: Record)
    requires |f.mmap| == 8 && f.mmap[3..8] == [65, 67, 71, 10, 67]
    requires r.Valid() && r.Length == 4 && Position(r, 0) == 3 && Position(r, 4) == 8
    ensures ScanInRange(f, r, 0, 4)
    ensures StatsCounters(f, r, 0, 4) == Counters(2, 0, 1, 0, 1)
  {
    EofBuffer(f, r);
    CensusOfACGNewline(ScanBuffer(f, r, 0, 4));
  }

  /** The intended counters of the same range classify all four bases. */
  lemma EofWindow(f: Faidx, r: Record)
    requires |f.mmap| == 8 && f.mmap[3..8] == [65, 67, 71, 10, 67]
    requires r.Valid() && r.Length == 4 && Position(r, 0) == 3 && Position(r, 4) == 8
    ensures WindowCounters(f, r, 0, 4) == Counters(3, 0, 1, 0, 1)
  {
    EofBuffer(f, r);
    CensusOfACGNewlineC(ScanBuffer(f, r, 0, 4));
  }

  /** As written, `Stats("k", 0, 4)` on that file never looks at the final
      `C`: `pend` is the end of the mapping, so `oend` is not advanced and
      the loop stops one byte early.  It reports two thirds GC where the
      range `ACGC` is three quarters GC. */
  lemma StatsDropsFinalBaseAtEof()
    ensures EofExample().Valid()
    ensures ScanInRange(EofExample(), EofExample().Index["k"], 0, 4)
    ensures FractionsOf(StatsCounters(EofExample(), EofExample().Index["k"], 0, 4)) == Fractions(2.0 / 3.0, 2.0 / 3.0, 0.0)
    ensures FractionsOf(WindowCounters(EofExample(), EofExample().Index["k"], 0, 4)) == Fractions(0.75, 0.5, 0.0)
  {
    var f := EofExample();
    assert f.Index["k"] == Record("k", 4, 3, 3, 4);
    EofBases(f.mmap);
    EofOffsets(f.Index["k"]);
    EofScan(f, f.Index["k"]);
    EofWindow(f, f.Index["k"]);
    ExamplesValid();
    FractionsOfACG();
    FractionsOfACGC();
  }

  /** Where the bases `[0, 3)` of the `CGCG` record lie, and the offset of
      the fourth base that `Stats` peeks at. */
  lemma CgcgOffsets(r: Record)
    requires r.Valid() && r.Start == 3 && r.Length == 4 && r.BasesPerLine == 4 && r.BytesPerLine == 5
    ensures Position(r, 0) == 3 && Position(r, 3) == 6
  {
  }

  lemma CgcgBases(m: seq<byte>)
    requires m == [62, 107, 10, 67, 71, 67, 71, 10]
    ensures m[3..7] == [67, 71, 67, 71]
  {
    assert m[3] == 67 && m[4] == 71 && m[5] == 67 && m[6] == 71;
  }

  /** `Stats("k", 0, 3)` scans `CGC` and peeks at the `G` after it. */
  lemma CgcgScan(f: Faidx, r: Record)
    requires |f.mmap| == 8 && f.mmap[3..7] == [67, 71, 67, 71]
    requires r.Valid() && r.Length == 4 && Position(r, 0) == 3 && Position(r, 3) == 6
    ensures ScanInRange(f, r, 0, 3)
    ensures StatsCounters(f, r, 0, 3) == Counters(3, 0, 0, 0, 2)
  {
    assert PeekEnd(f, r, 3) == 7;
    assert ScanBuffer(f, r, 0, 3) == f.mmap[3..7];
    CensusOfCGCG();
  }

  /** The example the source documents: the range `CGC` followed by a `G`
      has a CpG rate of 1.0 (two CpGs over three bases, clamped), and is
      all GC. */
  lemma StatsCgcFollowedByG()
    ensures CgcgExample().Valid()
    ensures ScanInRange(CgcgExample(), CgcgExample().Index["k"], 0, 3)
    ensures FractionsOf(StatsCounters(CgcgExample(), CgcgExample().Index["k"], 0, 3)) == Fractions(1.0, 1.0, 0.0)
  {
    var f := CgcgExample();
    assert f.Index["k"] == Record("k", 4, 3, 4, 5);
    CgcgBases(f.mmap);
    CgcgOffsets(f.Index["k"]);
    CgcgScan(f, f.Index["k"]);
    FractionsOfCGC();
    ExamplesValid();
  }
}
