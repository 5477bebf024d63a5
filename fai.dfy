/** The layout of one record of a FASTA file that has a samtools `.fai`
    index, and the arithmetic that turns a 0-based logical base position
    inside a record into a byte offset in the file. */
module Fai {

  /** One byte of the memory-mapped FASTA file. */
  newtype byte = x: int | 0 <= x < 256

  const NEWLINE: byte := '\n' as byte

  /** One line of the `.fai` index: the record's name, its number of
      bases, the offset of its first base, and its line geometry. */
  datatype Record = Record(Name: string, Length: int, Start: int, BasesPerLine: int, BytesPerLine: int)
  {
    /** What a well-formed index promises of every record: a line holds at
        least one base and is followed by at least one terminator byte. */
    predicate Valid() {
      Length >= 0 && Start >= 0 && BasesPerLine > 0 && BytesPerLine > BasesPerLine
    }
  }

  /** The byte offset of logical base `p` of record `r`: `p / BasesPerLine`
      full lines of `BytesPerLine` bytes each, then `p % BasesPerLine`
      bases into the next line; `p == r.Length` is the exclusive end of the
      record.  A position outside `[0, r.Length]` makes the source panic,
      hence the precondition.  For `p >= 0` Go's truncating `/` and `%`
      agree with Dafny's Euclidean ones. */
  function Position(r: Record, p: int): (off: int)
    requires r.Valid()
    requires 0 <= p <= r.Length
    ensures r.Start + p <= off
  {
    assert p / r.BasesPerLine * r.BasesPerLine <= p / r.BasesPerLine * r.BytesPerLine by {
      MulMonotone(p / r.BasesPerLine, r.BasesPerLine, r.BytesPerLine);
    }
    r.Start + (p / r.BasesPerLine * r.BytesPerLine + p % r.BasesPerLine)
  }

  /** The logical position of the base stored at byte offset `off`: the
      inverse of `Position` on the bytes that hold bases. */
  function Logical(r: Record, off: int): int
    requires r.Valid()
    requires r.Start <= off
  {
    var rel := off - r.Start;
    rel / r.BytesPerLine * r.BasesPerLine + rel % r.BytesPerLine
  }

  lemma MulMonotone(k: nat, x: int, y: int)
    requires x <= y
    ensures k * x <= k * y
  {
  }

  /** Euclidean division is determined by any quotient and remainder. */
  lemma DivModUnique(a: int, b: int, q: int, m: int)
    requires b > 0 && 0 <= m < b && a == q * b + m
    ensures a / b == q && a % b == m
  {
    var q0, m0 := a / b, a % b;
    assert (q - q0) * b == m0 - m;
    if q > q0 {
      MulMonotone(b, 1, q - q0);
      assert false;
    } else if q < q0 {
      MulMonotone(b, 1, q0 - q);
      assert false;
    }
  }

  /** The offset lands on the column of `p` in its line, never on a line
      terminator, and `Logical` recovers `p` from it. */
  lemma {:induction false} PositionColumn(r: Record, p: int)
    requires r.Valid() && 0 <= p <= r.Length
    ensures (Position(r, p) - r.Start) / r.BytesPerLine == p / r.BasesPerLine
    ensures (Position(r, p) - r.Start) % r.BytesPerLine == p % r.BasesPerLine < r.BasesPerLine
    ensures Logical(r, Position(r, p)) == p
  {
    DivModUnique(Position(r, p) - r.Start, r.BytesPerLine, p / r.BasesPerLine, p % r.BasesPerLine);
  }

  /** Moving one base forward advances one byte inside a line, and jumps
      over the line's terminator bytes at the end of a full line. */
  lemma {:induction false} PositionStep(r: Record, p: int)
    requires r.Valid() && 0 <= p < r.Length
    ensures Position(r, p + 1) == Position(r, p) +
      (if (p + 1) % r.BasesPerLine == 0 then r.BytesPerLine - r.BasesPerLine + 1 else 1)
  {
    var b := r.BasesPerLine;
    var line, column := p / b, p % b;
    if column + 1 < b {
      DivModUnique(p + 1, b, line, column + 1);
    } else {
      DivModUnique(p + 1, b, line + 1, 0);
    }
  }

  /** `Position` is strictly increasing, so a range `start <= end` gives a
      well-formed byte slice. */
  lemma {:induction false} PositionIncreasing(r: Record, p: int, q: int)
    requires r.Valid() && 0 <= p < q <= r.Length
    ensures Position(r, p) < Position(r, q)
    decreases q - p
  {
    PositionStep(r, q - 1);
    if p < q - 1 {
      PositionIncreasing(r, p, q - 1);
    }
  }

  lemma PositionMonotone(r: Record, p: int, q: int)
    requires r.Valid() && 0 <= p <= q <= r.Length
    ensures Position(r, p) <= Position(r, q)
  {
    if p < q {
      PositionIncreasing(r, p, q);
    }
  }
}
