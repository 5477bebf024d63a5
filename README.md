# faidx: offsets, random access and GC counting over an indexed FASTA file

This project models the engine of the Go package `faidx`. The package reads a
FASTA file that has a samtools `.fai` index. The file is a sequence of
records. Each record is split into lines holding `BasesPerLine` bases and
taking `BytesPerLine` bytes with their terminator.

The model has four parts:

- `Fai` (`fai.dfy`): the index record, and `position`, the arithmetic from a
  0-based logical base position to a byte offset in the file. Lemmas give
  its line/column decomposition, its inverse on base bytes, and its strict
  monotonicity. Monotonicity is what makes every slice taken by the readers
  well formed.
- `Reader` (`reader.dfy`): the memory-mapped file as a `seq<byte>` and the
  index as a `map<string, Record>`.
  - `Get` returns the bytes of a range with the newlines removed.
  - `At` returns one byte.
  - On a file laid out as its index says, `Get` returns `end - start` bases,
    and base `i` is what `At` returns for `start + i`.
  - A well-formed index asks only that every base of a record lies inside
    the mapping. The offset of a record's exclusive end may lie one byte past
    it, when a full last line ends the file without a newline. `Get` panics
    on such a range; the corrected `GetClamped` reads it (see "Findings").
- `Statistics` (`stats.dfy`): `Stats`, the one-pass scan with its five
  integer counters and its one-byte CpG look-ahead. The scan is a method with
  a loop proved against a recursive census function, and its float ratios
  are exact reals. It also gives the counters the scan evidently means to
  compute, and a concrete input on which the two differ (see "Findings").
  The CpG look-ahead reads the raw bytes, as the source does. A `C` that
  ends a line is followed by the newline, so it never counts as a CpG even
  when the next line starts with `G`; the CpG rate therefore depends on the
  line width. `CensusCpg` states which sites count.
- `Composition` and `Window` (`composition.dfy`, `window.dfy`): the
  sliding-window cursor `FaPos` and `Q`.
  - `FaPos` is a class whose `uint32` counters `Q` updates in place.
  - Its invariant: the counters hold the case-insensitive A/C/G/T tally of
    the last window counted, each reduced modulo 2^32.
  - `Q` keeps that invariant on both its cold path (recount) and its warm
    path (subtract the bytes that left, add the bytes that entered). It
    returns `Gs + Cs` with `uint32` wrap-around.
  - Lemmas connect `Q`'s count to the G/C count of `Stats`. They also give
    the cases of `Duplicity` that need no logarithm.

The file contents, the index and the cursor are inputs. Opening files,
mapping memory and parsing the `.fai` text are not modelled.

## Model

| member | source | states |
|---|---|---|
| Fai.Position | faidx.go:59-64 | Defined only for `0 <= p <= Length`, since any other position panics. The offset is at least `Start + p`, because every line holds at least as many bytes as bases. |
| Fai.PositionColumn | faidx.go:63 | The offset of `p` is on line `p / BasesPerLine`, column `p % BasesPerLine`. That column is never a terminator byte. Reading the line and column back (`Logical`) recovers `p`. |
| Fai.PositionStep | faidx.go:63 | The next base is the next byte, except after the last base of a full line. There the offset jumps over the `BytesPerLine - BasesPerLine` terminator bytes. |
| Fai.PositionIncreasing | faidx.go:59-64 | `position` is strictly increasing in `p`. |
| Fai.PositionMonotone | faidx.go:73-75 | `start <= end` gives `position(start) <= position(end)`, so `mmap[pstart:pend]` is a well-formed slice. |
| Reader.BaseInFile | faidx.go:59-64 | Every base of a record the index lists lies inside the mapping. |
| Reader.Faidx.Valid | faidx.go:59-64 | The index assumption every operation requires: every record is well formed, starts at or before the end of the mapping, and has its last base inside it. It is a definition; `BaseInFile` states its consequence. |
| Reader.InFile | faidx.go:59-64 | What `Faidx.Valid` asks of one record. It is a definition. |
| Reader.Span | faidx.go:73-75 | The raw slice of a range has exactly `position(end) - position(start)` bytes. |
| Reader.RemoveNewlines | faidx.go:76 | The result of `bytes.Replace(buf, "\n", "")` contains no newline and is no longer than `buf`. |
| Reader.RemoveNewlinesConcat | faidx.go:76 | Removing newlines distributes over concatenation, so the kept bytes stay in order. |
| Reader.RemoveNewlinesKeepsOthers | faidx.go:76 | Every byte other than a newline is kept, as many times as it occurs. |
| Reader.RemoveNewlinesOfNewlines | faidx.go:76 | A run of newlines leaves nothing. |
| Reader.Get | faidx.go:67-78 | An unknown name is the error, with `""` as the value, and only an unknown name is. Otherwise the result is the range with every newline removed. A range whose end offset lies past the mapping panics, so it is excluded. |
| Reader.At | faidx.go:273-281 | An unknown name is the error, with `'*'` as the value, and only an unknown name is. Otherwise the result is the byte at `position(pos)`. |
| Reader.SpanStep | faidx.go:73-76 | On a laid-out record, extending a range by one base appends exactly the byte at that base's offset to `Get`'s result. The bytes may stop anywhere after that base and up to the next base's offset, as they do where the mapping ends. |
| Reader.SpanBases | faidx.go:73-76 | On a laid-out record, the range without its newlines has `end - start` bytes. Byte `p - start` of it is the byte at `position(p)`. |
| Reader.SliceBases | faidx.go:73-76 | On a laid-out record, the bytes from the offset of `start` up to any point after base `end - 1`, at most the offset of `end` and inside the mapping, without their newlines are `end - start` bytes. Byte `p - start` of them is the byte at `position(p)`. |
| Reader.EndOffset | faidx.go:73-75 | The clamped offset of `p` is its offset, or the end of the mapping when that offset lies past it. It never exceeds either. |
| Reader.GetMatchesAt | faidx.go:67-78 | `Get(chrom, start, end)` has `end - start` bases. Its base `i` is `At(chrom, start + i)`. |
| Reader.GetClamped | faidx.go:67-78 | The corrected `Get`: the same error for an unknown name, and only for it. Wherever `Get` does not panic, it returns what `Get` returns. |
| Reader.GetClampedMatchesAt | faidx.go:67-78 | On a laid-out record, `GetClamped` returns `end - start` bases for every range inside the record, including one that ends the file without a newline. Its base `i` is `At(chrom, start + i)`. |
| Reader.GetPanicsOnFullLastLine | faidx.go:73-75 | For the file `>k\nAC` indexed as samtools does, the offset of `end = 2` is 6, past the five-byte mapping, so `Get("k", 0, 2)` panics. `GetClamped` returns `AC`. |
| Composition.Inc | faidx.go:216 | `x++` on a `uint32` is `x + 1` modulo 2^32. |
| Composition.Dec | faidx.go:233 | `x--` on a `uint32` is `x - 1` modulo 2^32. |
| Composition.AddU32 | faidx.go:269 | `Gs + Cs` on `uint32`s is the sum modulo 2^32. |
| Composition.TallyBounds | faidx.go:213-224 | The from-scratch tally never has a negative count. Its counts add up to at most the number of bytes. |
| Composition.Count | faidx.go:214-223 | The `switch` of `Q`: `G`/`g`, `C`/`c`, `A`/`a` and `T`/`t` each count for their base, and every other byte for none. It is a definition; `CountsNucleotides` and `CountIsUnit` state its properties. |
| Composition.CountsNucleotides | faidx.go:214-223 | A byte counts for some base exactly when it is one of the eight letters `ACGTacgt`. |
| Composition.CountIsUnit | faidx.go:214-223 | A byte counts for at most one of A, C, G and T, case-insensitively. |
| Composition.TallyConcat | faidx.go:225-266 | The tally of a concatenation is the sum of the tallies. |
| Composition.TallySplit | faidx.go:225-266 | Cutting a slice at any point splits its tally into the tallies of the two parts. |
| Composition.SlideTally | faidx.go:225-266 | Take the counts of `[a, c)`, remove the tally of `[a, b)` and add the tally of `[c, e)`. The result is the tally of `[b, e)`. |
| Composition.SlideTallyWrapped | faidx.go:225-266 | The same slide holds on counters reduced modulo 2^32 after every step. |
| Composition.RemovalStaysExact | faidx.go:230-252 | On a window shorter than 2^32 bytes, the warm path's decrements never go below zero. At every point the counters hold the tally of what remains of the old window. |
| Composition.NoWrapBelowModulus | faidx.go:158-161 | A window shorter than 2^32 bytes has counts that the `uint32` counters hold exactly. |
| Composition.WrapInRange | faidx.go:158-161 | Counts that fit in a `uint32` are unchanged by the reduction. |
| Composition.WrapCompatible | faidx.go:213-264 | Reducing modulo 2^32 before or after adding or subtracting counts gives the same counters. |
| Composition.WrapStep | faidx.go:213-264 | Counting one more byte into, or out of, the reduced counters gives the reduced counts of the longer prefix. |
| Composition.WrappedSum | faidx.go:269 | Adding the reduced G and C counters gives the reduced G+C count. |
| Composition.Hits | faidx.go:213-224 | The number of bytes that count as the same base as `b` is at most the number of bytes. |
| Composition.TallyOfOneBase | faidx.go:168-188 | A range whose bytes are all one base or count for nothing (newlines, `N`) has as tally that base once per hit. |
| Composition.HitsPositive | faidx.go:168-188 | A range that holds `b` has at least one hit of `b`'s base. |
| Composition.TallyOfNothing | faidx.go:213-224 | Bytes that are none of the four bases (newline, `N`) count for nothing. |
| Composition.TimesSupport | faidx.go:173-188 | A non-negative count taken a positive number of times stays non-negative and is zero on exactly the same bases. |
| Composition.RunKinds | faidx.go:173-188 | A positive number of one base shows exactly one kind of base. |
| Statistics.Census | faidx.go:115-135 | After `k` bytes of the scan, at most `k` bytes are classified. The CpG count never exceeds the G/C count, because a CpG is counted only at a C. |
| Statistics.Classify | faidx.go:120-134 | One turn of the scan. It is a definition; `ClassifyCounts` and `ClassifyMatchesCount` state its properties. |
| Statistics.ClassifyCounts | faidx.go:120-134 | One turn classifies the byte exactly when it is one of `ACGTacgt`. It counts a CpG exactly when the byte is `C` or `c` and the next byte is `G` or `g`. `gcUp` goes up exactly for `G`/`C`, `gcLo` for `g`/`c`, `atUp` for `A`/`T` and `atLo` for `a`/`t`. |
| Statistics.Among | faidx.go:120-134 | The number of bytes of a sequence that fall in one class is at most its length. |
| Statistics.CpgSites | faidx.go:120-129 | The number of CpG sites among the first `k` bytes is at most `k`. A site is a `C` or `c` whose next byte, a newline included, is `G` or `g`. |
| Statistics.CensusCpg | faidx.go:113-134 | After `k` bytes of the scan, `cpg` is exactly the number of CpG sites among them. |
| Statistics.CpgSplitByNewline | faidx.go:121-129 | The look-ahead reads the raw next byte: `C`, newline, `G` holds no CpG site, while `CG` holds one. |
| Statistics.CensusClasses | faidx.go:113-134 | After `k` bytes of the scan, each of the four counters is the number of those bytes in its class: upper-case G/C, lower-case g/c, upper-case A/T, lower-case a/t. |
| Statistics.ClassifyMatchesCount | faidx.go:120-134 | One byte moves the scan's G/C and A/T classes exactly as it moves the case-insensitive tally. |
| Statistics.CensusMatchesTally | faidx.go:115-135 | The scan's upper- plus lower-case G/C count is the G+C tally of the bytes scanned. The same holds for A/T. |
| Statistics.Min | faidx.go:90-95 | `min` returns one of its arguments, and it is no larger than either. |
| Statistics.FractionsOf | faidx.go:136-143 | With no classified byte, the result is all zero. Otherwise GC, masked and CpG (clamped by `min`) all lie in [0, 1]. |
| Statistics.ScanInRange | faidx.go:106-114 | The inputs on which `Stats` does not panic: both ends inside the record, and `pstart <= oend <= len(mmap)`. It is a definition that `Stats` requires. |
| Statistics.PeekEnd | faidx.go:107-111 | `oend` is one past `position(end)` exactly when `position(end)` is inside the mapping, and `position(end)` itself otherwise. It stays inside the mapping exactly when `position(end)` does. |
| Statistics.ScanBuffer | faidx.go:114 | `buf` runs from `position(start)` to `oend`. |
| Statistics.StatsCounters | faidx.go:113-135 | The counters `Stats` ends with. The CpG count never exceeds the G/C count. Fewer bytes are classified than `buf` holds, unless none is. |
| Statistics.Scan | faidx.go:113-135 | The loop classifies every byte of `buf` but its last, which is there only to be peeked at. |
| Statistics.StatsClasses | faidx.go:106-134 | When `position(end)` is inside the mapping, each counter of `Stats` is the number of bytes of its class in `[position(start), position(end))`. |
| Statistics.StatsMasked | faidx.go:97-98 | When `position(end)` is inside the mapping, `Stats` classifies exactly the upper- and lower-case bases of the range. When there are any, `Masked` is the number of lower-case ones (`acgt`) divided by the number of bases, as computed at faidx.go:142. |
| Statistics.Stats | faidx.go:100-144 | An unknown name gives the error with zero stats. Otherwise the result is the fractions of the counters the scan of `mmap[pstart:oend]` produces. |
| Statistics.StatsCountsSpan | faidx.go:106-135 | When `position(end)` is inside the mapping, the G/C and A/T counts of `Stats` are those of the tally of `[position(start), position(end))`. |
| Statistics.EmptyRangeZeroStats | faidx.go:136-139 | An empty range gives all-zero stats, with no division by zero. |
| Statistics.WindowCounters | faidx.go:106-135 | The corrected counters classify every byte of the range. They agree with the tally everywhere, including at the end of the mapping. Away from the end of the mapping they are exactly the counters of `Stats`. |
| Statistics.StatsCgcFollowedByG | faidx.go:97-99 | On `CGC` followed by `G`, the CpG rate is 1.0 and the GC fraction is 1.0. |
| Statistics.StatsDropsFinalBaseAtEof | faidx.go:106-119 | For the file `>k\nACG\nC` indexed as samtools does, `Stats("k", 0, 4)` as written reports GC 2/3 and CpG 2/3. The corrected counters give GC 0.75 and CpG 0.5. |
| Window.FaPos.constructor | faidx.go:150-162 | The zero-valued cursor holds no counts, and its cache is valid for every file. |
| Window.FaPos.Valid | faidx.go:146-162 | The cache invariant: when the last counted record is in the index, the last window lies inside the record and inside the mapping, and the counters hold its tally, each modulo 2^32. |
| Window.FaPos.Duplicity | faidx.go:168-197 | The `k == 0` branch, the only one that returns 0 without a logarithm, is taken exactly when no base is counted. Exactly one kind of base gives 1.0. Two or more kinds give the logarithmic case, left unevaluated. |
| Window.FaPos.Increment | faidx.go:214-223 | The `switch` adds the byte's count to the counters modulo 2^32. |
| Window.FaPos.Decrement | faidx.go:231-240 | The `switch` subtracts the byte's count from the counters modulo 2^32. |
| Window.FaPos.Add | faidx.go:253-264 | After the `++` loop, the counters are the old counters plus the tally of the bytes, modulo 2^32. |
| Window.FaPos.Remove | faidx.go:230-252 | After the `--` loop, the counters are the old counters minus the tally of the bytes, modulo 2^32. |
| Window.Q | faidx.go:203-270 | An unknown name gives the error with 0 and leaves the cursor unchanged. Otherwise, on either path, the counters hold the reduced tally of `[position(Start), position(End))`, the last window becomes `(Chrom, Start, End)`, and the result is `Gs + Cs`. The cache invariant is kept. |
| Window.ColdCount | faidx.go:210-224 | Zeroed counters plus a tally, reduced, are the reduced tally. `Add` then turns this into the cold path's counters. |
| Window.SlideSpans | faidx.go:225-266 | On the warm path, the counts of the old window, minus `[lastStart, Start)`, plus `[lastEnd, End)`, are the counts of `[Start, End)`. |
| Window.QCountsGC | faidx.go:267-269 | `Q`'s result is the number of G and C bases (either case) of the window, modulo 2^32. |
| Window.QMatchesStats | faidx.go:199-202 | On a window shorter than 2^32 bytes, `Q`'s G/C count equals the upper- plus lower-case G/C count of the scan `Stats` evidently means. |
| Window.RunIsFullyRepetitive | faidx.go:164-167 | On a window shorter than 2^32 bytes: after a window is counted that holds some base and otherwise only that base or bytes that count for nothing (newlines, `N`), `Duplicity` is 1.0. |
| Window.NoBasesNoDuplicity | faidx.go:189-191 | After a window with no A, C, G or T is counted, `Duplicity` is 0. |

## Left out

- `New`, `notExists` and `Close` (faidx.go:25-57, 283-287) are not modelled. They are file I/O and memory mapping. The mapped bytes and the parsed index are parameters instead.
- `fai.ReadFrom` and biogo's `fai.Index`/`fai.Record` are not part of this model. `Record` is a plain datatype. `Record.Valid` states what a well-formed index guarantees: `BasesPerLine > 0` and `BytesPerLine > BasesPerLine`.
- Go panics become preconditions: an out-of-range position, an index past the mapping, and a reversed range where the source panics. `Get` and `Q` panic on every reversed range. `Stats` panics only when `position(start) > oend`; a range reversed by one base inside a line gives an empty `buf` and zero stats, and `ScanInRange` allows it. A design that reports out-of-range as a recoverable error is not what the code does. The code is followed here.
- Window.Q: the cold path zeroes the counters before `position` can panic. Since the panic is a precondition, that partial update is not modelled.
- Window.Q: it requires that the cursor's cache was produced by `Q` on the same file (or is the zero cursor). A cursor reused across two files is not modelled.
- Go's `int`/`int64` arithmetic is modelled as unbounded integers. Offset overflow is not modelled. The `uint32` counters do wrap, explicitly.
- Statistics.FractionsOf: the `float64` ratios are exact reals. IEEE rounding is not modelled.
- Window.FaPos.Duplicity: the logarithmic branch can also return 0, for equal non-zero counts of all four bases (`1 + 4 * 1/4 * ln(1/4) / ln 4 = 0`). The model leaves that branch unevaluated, so it does not capture that case.
- Window.FaPos.Duplicity: the `math.Log` entropy formula and the `float32` conversion are not modelled. Its two-or-more-kinds case returns `None`. The source decides 1.0 by testing `s == 0` rather than by counting kinds. The two agree in exact arithmetic. Its `n`, a `uint32` sum that can wrap, is not modelled.
- Statistics.Stats, Window.Q: like `Get`, they slice up to `position(end)` and panic when it lies past the mapping, which happens on a full last line with no newline after it. That is a precondition here; only `Get` has a corrected counterpart.
- Reader.Get: it returns the bytes. Converting them to a Go `string` is not modelled.
- Error values carry the kind and the name. The message text is not modelled.
- Window.FaPos.Increment, Window.FaPos.Decrement, Window.FaPos.Add, Window.FaPos.Remove: Go writes these loops and switches inline in `Q`. Here they are separate methods on the class with the same updates.
- `bench_test.go` and the gocheck suite in `faidx_test.go` are not modelled.

## Findings

| source | as written | input that shows it | evidently intended | confidence | as-written member | corrected member |
|---|---|---|---|---|---|---|
| faidx.go:106-119 | `oend` is `pend + 1` only when `pend < len(mmap)`, and the loop always skips the last byte of `buf`. When the range's last base is the last byte of the mapping (the file ends in a base with no newline after it), that base is never classified. A file that ends in a newline loses only that newline. | File `>k\nACG\nC` (no trailing newline), record `k` of length 4 starting at byte 3 with 3 bases / 4 bytes per line, `Stats("k", 0, 4)`: GC 2/3, CpG 2/3 | Every base of the range classified: GC 0.75, CpG 0.5 | not executed | Statistics.StatsDropsFinalBaseAtEof | Statistics.WindowCounters |
| faidx.go:73-75 | `mmap[pstart:pend]` with `pend = position(end)`. When a record's full last line ends the file with no newline, `position(Length)` is one byte past the mapping, so reading the record to its end panics. | File `>k\nAC`, record `k` of length 2 starting at byte 3 with 2 bases / 3 bytes per line, `Get("k", 0, 2)`: `position(2) = 6 > 5`, panic | `AC`, as samtools returns | not executed | Reader.GetPanicsOnFullLastLine | Reader.GetClamped |
