/** Random access to the bases of an indexed FASTA file: `Get` returns a
    range of bases with the line breaks taken out, `At` a single byte. */
module Reader {
  import opened Fai

  datatype Error = UnknownSequence(name: string)

  /** Go's `(value, error)` pair: next to an error the source still
      returns a placeholder value, which `Err` keeps. */
  datatype Result<T> = Ok(value: T) | Err(value: T, error: Error)

  /** An open FASTA file: its `.fai` index and its memory-mapped bytes. */
  datatype Faidx = Faidx(Index: map<string, Record>, mmap: seq<byte>)
  {
    /** The index describes this file: every record is well-formed, starts
        inside the mapping (or at its end) and has its last base inside it.
        The offset of the exclusive end `Length` may lie past the mapping:
        a full last line with no terminator after it ends the file. */
    predicate Valid() {
      forall name | name in Index :: InFile(Index[name], |mmap|)
    }
  }

  /** What `Valid` asks of one record of a mapping of `size` bytes. */
  predicate InFile(r: Record, size: int) {
    && r.Valid()
    && r.Start <= size
    && (r.Length > 0 ==> Position(r, r.Length - 1) < size)
  }

  /** Every base of a record in the file lies inside the mapping. */
  lemma BaseInFile(r: Record, size: int, p: int)
    requires InFile(r, size) && 0 <= p < r.Length
    ensures Position(r, p) < size
  {
    PositionMonotone(r, p, r.Length - 1);
  }

  /** The raw bytes `mmap[position(start):position(end)]`, line breaks
      included.  Go panics when `position(end)` is past the mapping. */
  function Span(f: Faidx, r: Record, start: int, end: int): (s: seq<byte>)
    requires r.Valid() && 0 <= start <= end <= r.Length
    requires Position(r, end) <= |f.mmap|
    ensures |s| == Position(r, end) - Position(r, start)
  {
    PositionMonotone(r, start, end);
    f.mmap[Position(r, start)..Position(r, end)]
  }

  /** `bytes.Replace(buf, "\n", "", -1)`: every newline byte dropped, every
      other byte kept. */
  function RemoveNewlines(s: seq<byte>): (r: seq<byte>)
    ensures NEWLINE !in r
    ensures |r| <= |s|
  {
    if s == [] then []
    else
      var last := s[|s| - 1];
      RemoveNewlines(s[..|s| - 1]) + (if last == NEWLINE then [] else [last])
  }

  /** Removing newlines keeps the order of the remaining bytes: it
      distributes over concatenation. */
  lemma {:induction false} RemoveNewlinesConcat(s: seq<byte>, t: seq<byte>)
    ensures RemoveNewlines(s + t) == RemoveNewlines(s) + RemoveNewlines(t)
    decreases |t|
  {
    if t == [] {
      assert s + t == s;
    } else {
      var t' := t[..|t| - 1];
      assert (s + t)[..|s + t| - 1] == s + t';
      RemoveNewlinesConcat(s, t');
    }
  }

  /** Every byte other than a newline is kept, as often as it occurs. */
  lemma {:induction false} RemoveNewlinesKeepsOthers(s: seq<byte>)
    ensures multiset(RemoveNewlines(s)) == multiset(s)[NEWLINE := 0]
  {
    if s != [] {
      assert s == s[..|s| - 1] + [s[|s| - 1]];
      RemoveNewlinesKeepsOthers(s[..|s| - 1]);
    }
  }

  lemma {:induction false} RemoveNewlinesOfNewlines(s: seq<byte>)
    requires forall j | 0 <= j < |s| :: s[j] == NEWLINE
    ensures RemoveNewlines(s) == []
  {
    if s != [] {
      RemoveNewlinesOfNewlines(s[..|s| - 1]);
    }
  }

  /** `Get`: the bases `[start, end)` of record `chrom`, 0-based and
      half-open.  A range outside the record, or one whose end offset is
      past the mapping, makes the source panic. */
  function Get(f: Faidx, chrom: string, start: int, end: int): (res: Result<seq<byte>>)
    requires f.Valid()
    requires chrom in f.Index ==>
      0 <= start <= end <= f.Index[chrom].Length && Position(f.Index[chrom], end) <= |f.mmap|
    ensures res.Err? <==> chrom !in f.Index
    ensures res.Err? ==> res == Err([], UnknownSequence(chrom))
    ensures res.Ok? ==> NEWLINE !in res.value
  {
    if chrom !in f.Index then Err([], UnknownSequence(chrom))
    else
      var idx := f.Index[chrom];
      Ok(RemoveNewlines(Span(f, idx, start, end)))
  }

  /** `At`: the byte stored at logical position `pos`.  The source only
      checks `0 <= pos <= Length` and then indexes the mapping, which
      panics past its end. */
  function At(f: Faidx, chrom: string, pos: int): (res: Result<byte>)
    requires f.Valid()
    requires chrom in f.Index ==>
      0 <= pos <= f.Index[chrom].Length && Position(f.Index[chrom], pos) < |f.mmap|
    ensures res.Err? <==> chrom !in f.Index
    ensures res.Err? ==> res == Err('*' as byte, UnknownSequence(chrom))
  {
    if chrom !in f.Index then Err('*' as byte, UnknownSequence(chrom))
    else Ok(f.mmap[Position(f.Index[chrom], pos)])
  }

  /** The file holds record `r` as the index says, with `\n` as its line
      terminator: a base (never a newline) at the offset of every logical
      position, and nothing but newlines between two consecutive bases, or
      between the last base and the end of the mapping. */
  predicate LaidOut(f: Faidx, r: Record)
    requires r.Valid()
  {
    forall p | 0 <= p < r.Length :: BaseThenNewlines(f, r, p)
  }

  /** Base `p` of `r` is stored at its offset and only newlines follow it
      up to the offset of base `p + 1`. */
  predicate BaseThenNewlines(f: Faidx, r: Record, p: int)
    requires r.Valid() && 0 <= p < r.Length
  {
    && Position(r, p) < |f.mmap|
    && f.mmap[Position(r, p)] != NEWLINE
    && forall j | Position(r, p) < j < Position(r, p + 1) && j < |f.mmap| :: f.mmap[j] == NEWLINE
  }

  /** A base followed by nothing but newlines contributes just that base. */
  lemma AppendBase(prev: seq<byte>, base: byte, rest: seq<byte>)
    requires base != NEWLINE
    requires forall j | 0 <= j < |rest| :: rest[j] == NEWLINE
    ensures RemoveNewlines(prev + ([base] + rest)) == RemoveNewlines(prev) + [base]
  {
    RemoveNewlinesOfNewlines(rest);
    RemoveNewlinesConcat([base], rest);
    assert [base][..0] == [];
    RemoveNewlinesConcat(prev, [base] + rest);
  }

  /** Cutting `d[i..k]` at `j`, and taking off the byte at `j`. */
  lemma SliceAt(d: seq<byte>, i: int, j: int, k: int)
    requires 0 <= i <= j < k <= |d|
    ensures d[i..k] == d[i..j] + ([d[j]] + d[j + 1..k])
  {
  }

  /** Extending a range by one base adds exactly that base once the
      newlines are removed.  The range's bytes may end at the offset of the
      next base or earlier, where the mapping ends. */
  lemma SpanStep(f: Faidx, r: Record, start: int, end: int, pend: int)
    requires r.Valid() && LaidOut(f, r)
    requires 0 <= start < end <= r.Length
    requires Position(r, end - 1) < pend <= Position(r, end) && pend <= |f.mmap|
    ensures Position(r, start) <= pend
    ensures RemoveNewlines(f.mmap[Position(r, start)..pend]) ==
      RemoveNewlines(Span(f, r, start, end - 1)) + [f.mmap[Position(r, end - 1)]]
  {
    var e := end - 1;
    assert BaseThenNewlines(f, r, e);
    PositionMonotone(r, start, e);
    var ps, pe := Position(r, start), Position(r, e);
    SliceAt(f.mmap, ps, pe, pend);
    var rest := f.mmap[pe + 1..pend];
    forall j | 0 <= j < |rest|
      ensures rest[j] == NEWLINE
    {
      assert rest[j] == f.mmap[pe + 1 + j];
    }
    AppendBase(f.mmap[ps..pe], f.mmap[pe], rest);
  }

  /** `bs` holds, in order, the bytes stored at the offsets of logical
      positions `start`, `start + 1`, ... of `r`. */
  predicate BasesFrom(f: Faidx, r: Record, start: int, bs: seq<byte>)
    requires r.Valid() && 0 <= start
  {
    && start + |bs| <= r.Length
    && forall p | start <= p < start + |bs| ::
         Position(r, p) < |f.mmap| && bs[p - start] == f.mmap[Position(r, p)]
  }

  /** Appending the byte of the next position, `next`, keeps `BasesFrom`. */
  lemma BasesFromSnoc(f: Faidx, r: Record, start: int, prev: seq<byte>, next: int)
    requires r.Valid() && 0 <= start && BasesFrom(f, r, start, prev)
    requires next == start + |prev| < r.Length && Position(r, next) < |f.mmap|
    ensures BasesFrom(f, r, start, prev + [f.mmap[Position(r, next)]])
  {
    var x := f.mmap[Position(r, next)];
    var cur := prev + [x];
    forall p | start <= p < start + |cur|
      ensures Position(r, p) < |f.mmap| && cur[p - start] == f.mmap[Position(r, p)]
    {
      if p < start + |prev| {
        assert cur[p - start] == prev[p - start];
      }
    }
  }

  /** With newline terminators, the bytes from the offset of `start` up to
      any `pend` past the offset of base `end - 1` (at most the offset of
      `end`, and inside the mapping) minus their newlines are exactly the
      bases at logical positions `start .. end - 1`, in order. */
  lemma {:induction false} SliceBases(f: Faidx, r: Record, start: int, end: int, pend: int)
    requires r.Valid() && LaidOut(f, r)
    requires 0 <= start < end <= r.Length
    requires Position(r, end - 1) < pend <= Position(r, end) && pend <= |f.mmap|
    ensures Position(r, start) <= pend
    ensures |RemoveNewlines(f.mmap[Position(r, start)..pend])| == end - start
    ensures BasesFrom(f, r, start, RemoveNewlines(f.mmap[Position(r, start)..pend]))
    decreases end - start
  {
    SpanStep(f, r, start, end, pend);
    var prev := RemoveNewlines(Span(f, r, start, end - 1));
    if start < end - 1 {
      PositionIncreasing(r, end - 2, end - 1);
      SliceBases(f, r, start, end - 1, Position(r, end - 1));
    } else {
      assert Span(f, r, start, end - 1) == [];
    }
    BasesFromSnoc(f, r, start, prev, end - 1);
  }

  /** The bytes of a span minus its newlines are exactly the bases at
      logical positions `start .. end - 1`, in order. */
  lemma SpanBases(f: Faidx, r: Record, start: int, end: int)
    requires r.Valid() && LaidOut(f, r)
    requires 0 <= start <= end <= r.Length && Position(r, end) <= |f.mmap|
    ensures |RemoveNewlines(Span(f, r, start, end))| == end - start
    ensures BasesFrom(f, r, start, RemoveNewlines(Span(f, r, start, end)))
  {
    if start < end {
      PositionIncreasing(r, end - 1, end);
      SliceBases(f, r, start, end, Position(r, end));
    } else {
      assert Span(f, r, start, end) == [];
    }
  }

  /** `Get` returns `end - start` bytes, and byte `i` of it is what `At`
      returns for position `start + i`. */
  lemma GetMatchesAt(f: Faidx, chrom: string, start: int, end: int)
    requires f.Valid() && chrom in f.Index && LaidOut(f, f.Index[chrom])
    requires 0 <= start <= end <= f.Index[chrom].Length && Position(f.Index[chrom], end) <= |f.mmap|
    ensures |Get(f, chrom, start, end).value| == end - start
    ensures forall p | start <= p < end ::
      Position(f.Index[chrom], p) < |f.mmap| &&
      Get(f, chrom, start, end).value[p - start] == At(f, chrom, p).value
  {
    var r := f.Index[chrom];
    var bs := Get(f, chrom, start, end).value;
    SpanBases(f, r, start, end);
    assert BasesFrom(f, r, start, bs);
  }

  /** The offset of logical position `p`, or the end of the mapping when
      that offset lies past it. */
  function EndOffset(f: Faidx, r: Record, p: int): (off: int)
    requires r.Valid() && 0 <= p <= r.Length
    ensures off <= |f.mmap| && off <= Position(r, p)
    ensures off == Position(r, p) || off == |f.mmap|
  {
    var q := Position(r, p);
    if q <= |f.mmap| then q else |f.mmap|
  }

  /** `Get` as it is evidently intended (and as samtools serves it): the
      bases `[start, end)` read up to the end of the mapping, so that a
      record whose full last line ends the file with no newline after it
      can be read to its end.  Wherever `Get` does not panic, the two
      agree. */
  function GetClamped(f: Faidx, chrom: string, start: int, end: int): (res: Result<seq<byte>>)
    requires f.Valid()
    requires chrom in f.Index ==> 0 <= start <= end <= f.Index[chrom].Length
    ensures res.Err? <==> chrom !in f.Index
    ensures res.Err? ==> res == Err([], UnknownSequence(chrom))
    ensures chrom in f.Index && Position(f.Index[chrom], end) <= |f.mmap| ==> res == Get(f, chrom, start, end)
  {
    if chrom !in f.Index then Err([], UnknownSequence(chrom))
    else
      var idx := f.Index[chrom];
      PositionMonotone(idx, start, end);
      Ok(RemoveNewlines(f.mmap[EndOffset(f, idx, start)..EndOffset(f, idx, end)]))
  }

  /** On a laid-out record `GetClamped` returns `end - start` bases for
      every range inside the record, and byte `i` of it is what `At`
      returns for position `start + i`; no offset has to lie inside the
      mapping. */
  lemma GetClampedMatchesAt(f: Faidx, chrom: string, start: int, end: int)
    requires f.Valid() && chrom in f.Index && LaidOut(f, f.Index[chrom])
    requires 0 <= start <= end <= f.Index[chrom].Length
    ensures |GetClamped(f, chrom, start, end).value| == end - start
    ensures forall p | start <= p < end ::
      Position(f.Index[chrom], p) < |f.mmap| &&
      GetClamped(f, chrom, start, end).value[p - start] == At(f, chrom, p).value
  {
    var r := f.Index[chrom];
    if Position(r, end) <= |f.mmap| {
      GetMatchesAt(f, chrom, start, end);
    } else if start == end {
      assert GetClamped(f, chrom, start, end).value == RemoveNewlines([]);
    } else {
      assert InFile(r, |f.mmap|);
      BaseInFile(r, |f.mmap|, end - 1);
      PositionMonotone(r, start, end - 1);
      var bs := GetClamped(f, chrom, start, end).value;
      assert bs == RemoveNewlines(f.mmap[Position(r, start)..|f.mmap|]);
      SliceBases(f, r, start, end, |f.mmap|);
      assert BasesFrom(f, r, start, bs);
    }
  }

  /** A record of two bases whose only line is full and ends the file:
      `>k\nAC` (`>` is 62, `k` 107, newline 10, `A` 65, `C` 67), indexed as
      samtools does (2 bases, first base at byte 3, 2 bases and 3 bytes per
      line). */
  function FullLineExample(): Faidx {
    Faidx(map["k" := Record("k", 2, 3, 2, 3)], [62, 107, 10, 65, 67])
  }

  /** Where the bases of that record lie: the exclusive end is at byte 6,
      one past the end of the five-byte mapping. */
  lemma FullLineOffsets(r: Record)
    requires r.Valid() && r.Start == 3 && r.Length == 2 && r.BasesPerLine == 2 && r.BytesPerLine == 3
    ensures Position(r, 0) == 3 && Position(r, 1) == 4 && Position(r, 2) == 6
  {
  }

  lemma FullLineLaidOut(f: Faidx, r: Record)
    requires f.mmap == [62, 107, 10, 65, 67]
    requires r.Valid() && r.Length == 2 && Position(r, 0) == 3 && Position(r, 1) == 4 && Position(r, 2) == 6
    ensures InFile(r, |f.mmap|) && LaidOut(f, r)
    ensures f.mmap[3] == 65 && f.mmap[4] == 67
  {
    forall p | 0 <= p < r.Length
      ensures BaseThenNewlines(f, r, p)
    {
      if p == 0 {
        assert f.mmap[3] == 65;
      } else {
        assert f.mmap[4] == 67;
      }
    }
  }

  /** What the corrected `GetClamped` reads of that record: both bases. */
  lemma FullLineGet(f: Faidx, r: Record)
    requires f.Valid() && "k" in f.Index && f.Index["k"] == r && LaidOut(f, r)
    requires r.Length == 2 && Position(r, 0) == 3 && Position(r, 1) == 4
    requires f.mmap[3] == 65 && f.mmap[4] == 67
    ensures GetClamped(f, "k", 0, 2) == Ok([65, 67])
  {
    GetClampedMatchesAt(f, "k", 0, 2);
    var bs := GetClamped(f, "k", 0, 2).value;
    assert bs[0] == f.mmap[3] && bs[1] == f.mmap[4];
    assert bs == [65, 67];
  }

  /** As written, `Get("k", 0, 2)` on that file panics: the offset of the
      end, 6, is past the five-byte mapping, so `mmap[3:6]` is out of range
      although both bases are in the file.  The corrected `GetClamped`
      returns `AC`. */
  lemma GetPanicsOnFullLastLine()
    ensures FullLineExample().Valid() && "k" in FullLineExample().Index
    ensures LaidOut(FullLineExample(), FullLineExample().Index["k"])
    ensures Position(FullLineExample().Index["k"], 2) > |FullLineExample().mmap|
    ensures GetClamped(FullLineExample(), "k", 0, 2) == Ok([65, 67])
  {
    var f := FullLineExample();
    assert f.Index["k"] == Record("k", 2, 3, 2, 3);
    FullLineValid();
    FullLineReads(f, f.Index["k"]);
  }

  lemma FullLineReads(f: Faidx, r: Record)
    requires f.Valid() && "k" in f.Index && f.Index["k"] == r
    requires f.mmap == [62, 107, 10, 65, 67]
    requires r.Valid() && r.Start == 3 && r.Length == 2 && r.BasesPerLine == 2 && r.BytesPerLine == 3
    ensures LaidOut(f, r) && Position(r, 2) > |f.mmap|
    ensures GetClamped(f, "k", 0, 2) == Ok([65, 67])
  {
    FullLineOffsets(r);
    FullLineLaidOut(f, r);
    FullLineGet(f, r);
  }

  lemma FullLineValid()
    ensures FullLineExample().Valid()
  {
    var f := FullLineExample();
    assert Position(f.Index["k"], 1) == 4;
    forall name | name in f.Index
      ensures InFile(f.Index[name], |f.mmap|)
    {
      assert name == "k";
    }
  }
}
