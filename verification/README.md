# f2m in Dafny

f2m builds a feature-by-cell count matrix from single-cell ATAC fragment
files. It has four parts, and this project models each one.

- **The matrix engine (`fcount`, src/f2m.rs).**
  - It reads a region file (BED) into per-chromosome interval lists. Each
    interval carries an index into a lookup table of (output row, weight)
    pairs. Rows come from an optional group column, and weights from an
    optional weight column.
  - It registers the cell barcodes of a barcode file as matrix columns.
  - It streams the fragment file. For each fragment of a registered cell,
    a cursor-based seek finds the features that contain the fragment's
    start and end.
  - Each such feature gets its weight added once per fragment endpoint
    inside it, so a fragment lying wholly inside a feature adds twice.
  - Finally it writes the sparse counts as a Matrix Market coordinate file.
- **The earlier matrix engine (src/bin/f2m.rs).** Grouping is a boolean
  switch on the fourth column. An interval's value is directly its row.
  Counts are integers. Both ends are looked up with plain interval queries
  (`find_overlaps`), and an unparsable fragment coordinate aborts the run.
- **`cellselect` (src/cellselect.rs).** It counts the fragments of every
  barcode, writes a `barcode<TAB>count` file and selects the barcodes whose
  count exceeds a cutoff. src/bin/cellselect.rs is the same code as a
  standalone binary: the same three functions, shifted by about forty lines.
- **`filter` (src/filter.rs).** It copies the fragment lines whose barcode
  belongs to a given set of cells.

## Modules

- **`Text`** (text.dfy): the standard-library string operations the program
  relies on. These are `split`, `fields.get`/`nth`, `starts_with`, `trim`,
  `u32` parsing, decimal `f32` parsing and decimal formatting. `read_line`
  chunks are `ReadLines`, and `lines()` is `Lines`/`Chomp`.
- **`Intervals`** (intervals.dfy): the interval index of `rust_lapper`.
  - An index is a sequence of intervals.
  - `find(s, e)` is the filter of intervals overlapping `[s, e)`.
  - `seek` follows the library's cursor mechanics. It restarts at the
    lower bound of `q - max_len`, moves forward while the next interval
    starts below that bound, and scans from the cursor until an interval
    starts past the query.
  - `Lapper::new` sorts each list by start, then stop (`LapperSort`).
  - The counting rule of both engines is `FragmentAdditions` (plain queries)
    or `SeekAdditions` (with the cursor).
- **`FeatureIndex`** (feature_index.dfy): `peak_intervals` of src/f2m.rs.
  - It is a fold `Scan` of the per-line step `Apply` over the classified
    lines of the region file.
  - The fold is parameterised by `Numbering`: `AsWritten` is the program's
    row numbering, and `Sequential` is the first-seen, dense numbering that
    the checks after the loop and the row count expect (see Findings).
  - `PeakIntervals` is the loop itself.
- **`Barcodes`** (barcodes.dfy): the barcode registry, shared by both engines.
- **`FragmentCount`** (fragment_count.dfy): the counting loop of src/f2m.rs.
  - `Consume` is one pass of the loop body and `Run` is the fold over the
    chunks of the fragment file.
  - `CountFragments` is the loop, and its inner loops are `AddStartHits`
    and `AddHits`.
- **`MatrixMarket`** (matrix_market.dfy): `write_matrix_market` of both
  engines, with its batching of 5000 rows.
- **`Legacy`** (legacy.dfy): `peak_intervals`, `find_overlaps` and the
  counting loop of src/bin/f2m.rs.
- **`CellSelect`** (cellselect.dfy): `count_barcodes`, `select_barcodes`
  and the count file.
- **`Filter`** (filter.dfy): `load_cells` and `filter_fragments`.

Inputs and outputs are strings:
- A file is its text, or the sequence of its lines.
- Each write to a compressor is one string of a list of writes.
- A hash map's iteration order is a parameter: a duplicate-free listing of
  its keys.

### Behaviour of the code that the model keeps

The model follows the code in every case below.

- **Short fragment lines panic.**
  - A non-comment fragment line with fewer than four fields is not skipped.
    `fields[3]` panics: src/f2m.rs:170 and src/bin/f2m.rs:203.
  - `FragmentCount.RunPanicsIffShortLine` proves that such a line always
    makes the run panic, and that nothing else does when every feature's
    row is below the row count.
- **A feature row past the counts panics.**
  - `peak_cell_counts[peak_index]` (src/f2m.rs:212, 217 and 223) panics
    when the row is at or past the row count. The region reader can build
    such an index (see Findings).
  - `FragmentCount.RowPastEndPanics` runs the index of
    `FeatureIndex.UngroupedRowPastEnd` on one fragment and reaches that
    panic.
- **The earlier engine aborts on a bad coordinate.**
  - An unparsable coordinate is fatal there, not skipped
    (src/bin/f2m.rs:212-213).
  - That test is made only for a registered barcode on a chromosome that
    has regions. The model's outcome is `Failed`.
- **The cursor is also reset for one-interval chromosomes.**
  - src/f2m.rs:205-207 resets the cursor to zero whenever the chromosome
    has exactly one interval, not only when the chromosome changes.
  - The reset matters. A query past that interval moves the cursor past
    the end, and from there a later query inside the interval finds
    nothing (`Intervals.OneIntervalStuck`).
- **The cursor can stop past the last interval of a longer chromosome.**
  - A seek whose restart bound `q - max_len` lies past every interval's
    start leaves the cursor past the end. A later seek neither restarts
    nor moves such a cursor, and it finds nothing.
  - Only a line naming another chromosome resets it (src/f2m.rs:177-181),
    so the rest of that chromosome's fragments add nothing
    (`FragmentCount.HitStuck`, `FragmentCount.ConsumeStuck`). This is
    listed under Findings.
- **A row number is a line number.**
  - Without grouping, a region's row is its 0-based line number less the
    number of comment lines before it (src/f2m.rs:417). It is not the
    region's order among the retained regions.
  - With grouping, a new group's row is `current_index - skipped_lines`
    (src/f2m.rs:404).
  - A line without the group column is not skipped. It counts a peak and
    pushes no interval (src/f2m.rs:412-414 and 420), so the check at
    src/f2m.rs:437 fails.
  - All three are listed under Findings.
- **Comment lines shift rows in the earlier engine.**
  - The earlier engine uses the raw line number as the row
    (src/bin/f2m.rs:390). A comment line in the region file therefore
    pushes rows past the row count.
  - A fragment that reaches such a region then indexes past the end of the
    counts and panics (`Legacy.CommentShiftsRows`,
    `Legacy.CommentLinePanics`).
- **The metadata comment keeps its doubled braces.** The line is appended
  with `push_str`, not `format!`, so its braces are written doubled
  (`{{"software_version": ...}}`). `MatrixMarket.Metadata` keeps them.
- **A repeated barcode gets a column past the declared count.**
  - A barcode repeated in the barcode file keeps only its last line number
    as its column.
  - The declared column count is the number of distinct barcodes, so some
    column lies at or past it (`Barcodes.RepeatedBarcodeColumnPastEnd`).
- **`filter` and `lines()` treat a bare trailing '\r' differently.**
  - `filter` removes a trailing '\r' even when no '\n' precedes it
    (src/filter.rs:53-58). `lines()` removes '\r' only in front of '\n'
    (`Filter.StripAndChomp`).
  - Filtering is idempotent except for lines that still end in '\r' after
    stripping (`Filter.FilterIdempotent`).

## Model

| member | source | states |
|---|---|---|
| `Text.Split` | src/f2m.rs:167 | `split('\t')` yields at least one field, and no field contains the separator |
| `Text.JoinSplit` | src/f2m.rs:167 | splitting loses nothing: the fields joined with the separator give back the line |
| `Text.SplitJoin` | src/cellselect.rs:108 | separator-free fields, joined and split again, are returned unchanged |
| `Text.Field` | src/cellselect.rs:111 | `fields.get(i)` exists exactly when the line has more than i fields; it is then the i-th field of the split and holds no separator |
| `Text.ReadLines` | src/filter.rs:47-51 | each `read_line` chunk is non-empty, holds no '\n' before its end, and all but the last end in '\n' |
| `Text.ConcatReadLines` | src/filter.rs:47-51 | the chunks returned by `read_line`, glued together, are the whole text |
| `Text.ReadLinesConcat` | src/filter.rs:67 | lines written with a trailing '\n' are read back by `read_line` as exactly those chunks |
| `Text.Chomp` | src/cellselect.rs:82 | a `lines()` item is its chunk less a final "\r\n", else less a final "\n", else the whole chunk, and holds no '\n' |
| `Text.Lines` | src/cellselect.rs:82 | `lines()` yields one item per `read_line` chunk, each the chunk chomped, none holding '\n' |
| `Text.ChompLine` | src/cellselect.rs:42 | a line written with "\n" comes back from `lines()` unchanged unless it ends in '\r' |
| `Text.ParseU32` | src/bin/f2m.rs:212-213 | a `u32` parse succeeds exactly when the string, less one leading '+', is a non-empty digit string of value at most 2^32 - 1, and yields that value |
| `Text.NatToString` | src/f2m.rs:291 | `{}` of an unsigned integer is a non-empty digit string with no leading zero whose value is the number |
| `Text.ParseFormatU32` | src/bin/f2m.rs:293 | every `u32` that `{}` writes is parsed back as the same number |
| `Text.NatToStringInjective` | src/cellselect.rs:42 | distinct numbers are written as distinct strings |
| `Text.Trim` | src/f2m.rs:184 | `trim()` returns a string no longer than its input, with no Unicode white space at either end |
| `Text.TrimKeepsInfix` | src/f2m.rs:184 | what `trim()` keeps is one contiguous piece of the input, starting where the leading white space ends |
| `Text.TrimCutsWhitespace` | src/f2m.rs:184 | everything `trim()` cuts, before and after the piece it keeps, is white space |
| `Text.TrimDigits` | src/f2m.rs:184 | a digit string passes through `trim()` unchanged |
| `Text.ParseDecimalOfNat` | src/f2m.rs:382 | every decimal integer is parsed as a weight equal to that integer |
| `Text.ParseDecimalFraction` | src/f2m.rs:382 | a decimal fraction `d.f` (also `d.` and `.f`) is parsed as the weight d + 0.f, the digits of f read as a decimal fraction |
| `Text.ScaleUp` | src/f2m.rs:382 | an exponent e >= 0 multiplies the mantissa by 10^e |
| `Text.ScaleDown` | src/f2m.rs:382 | an exponent -k < 0 divides the mantissa by 10^k |
| `Text.ParseDecimalScientific` | src/f2m.rs:382 | a weight in scientific notation `dEk`, `de+k` or `de-k` is parsed as d times or divided by 10^k |
| `Text.ParseDecimalRejectsNonFinite` | src/f2m.rs:382-387 | `inf`, `-infinity` and `NaN` are not read as weights by the model |
| `Intervals.PointOverlap` | src/f2m.rs:208 | the point query `[q, q + 1)` overlaps an interval exactly when the interval contains q |
| `Intervals.OverlapsFrom` | src/bin/f2m.rs:316 | `find(s, e)` returns exactly the intervals overlapping `[s, e)`, each once, in index order |
| `Intervals.PointHitsExact` | src/bin/f2m.rs:215 | a point query finds exactly the intervals containing the point, each once |
| `Intervals.OverlapsSkip` | src/f2m.rs:208 | skipping intervals that miss the query does not change its result |
| `Intervals.Insert` | src/f2m.rs:432-433 | inserting into a list sorted by (start, stop) keeps it sorted and adds exactly that interval |
| `Intervals.LapperSort` | src/f2m.rs:432-433 | `Lapper::new` returns its intervals sorted by start, then stop, as a permutation of its input |
| `Intervals.Lappers` | src/bin/f2m.rs:405-407 | every chromosome of the table keeps its name and gets its list sorted by `Lapper::new` |
| `Intervals.LapperSortMembers` | src/f2m.rs:432-433 | sorting neither adds nor drops an interval |
| `Intervals.SortedOrdered` | src/f2m.rs:432-433 | a sorted list of non-empty intervals that share no position has every interval end before the next starts |
| `Intervals.EmptyIntervalHidesHit` | src/f2m.rs:205-208 | after an empty interval sorted inside a longer one, a seek from the cursor on the empty one misses the longer one that contains the point |
| `Intervals.MaxLen` | src/f2m.rs:433 | `max_len` bounds the length of every interval and is the length of one of them (zero for an empty list) |
| `Intervals.BelowReach` | src/f2m.rs:208 | an interval starting below `q - max_len` ends at or before q |
| `Intervals.LowerBound` | src/f2m.rs:208 | `lower_bound(x)` is the first position whose interval starts at or after x, or the list length when none does |
| `Intervals.Advance` | src/f2m.rs:208 | the cursor only moves forward, only onto intervals starting below `q - max_len`, stops before the first that does not, and never moves onto the end of the list |
| `Intervals.FindFrom` | src/f2m.rs:208 | the scan from the cursor returns only intervals overlapping the query, each once, in index order |
| `Intervals.FindFromSorted` | src/f2m.rs:208 | on a list sorted by start, stopping at the first interval past the query loses nothing: the scan equals the filter from the same position |
| `Intervals.Seek` | src/f2m.rs:205-208 | `seek` returns only intervals that contain the point, in index order; a cursor past the end stays there and finds nothing |
| `Intervals.SeekReachesEnd` | src/f2m.rs:208 | a seek leaves a cursor that was short of the end past it only when every interval ends at or before the query |
| `Intervals.SeekKeepsBehind` | src/f2m.rs:208 | on a sorted list, after a seek at q every interval before the cursor ends at or before the largest point queried so far |
| `Intervals.SeekIsPointQuery` | src/f2m.rs:208 | on a sorted list, when every interval before the cursor ends at or before q, `seek` returns exactly the point query at q |
| `Intervals.BehindLater` | src/f2m.rs:221 | a cursor that stands behind the start also stands behind any later point such as the fragment end |
| `Intervals.StartAdditions` | src/f2m.rs:208-219 | each addition for the start hits is one of those hits |
| `Intervals.StartAdditionsSnoc` | src/f2m.rs:208-219 | a start hit adds its feature once, and a second time when the fragment ends inside it |
| `Intervals.EndCoveredSnoc` | src/f2m.rs:215-216 | `check_end` turns false exactly when some start hit ends after the fragment end |
| `Intervals.SeekAdditionsArePointQueries` | src/f2m.rs:202-225 | on a sorted list, for a start not behind the cursor, the cursor engine adds exactly what plain point queries add, and the cursor stays behind the end |
| `Intervals.SeekOrdered` | src/f2m.rs:205-208 | over sorted, disjoint intervals a seek from any cursor short of the end is the plain point query, in any query order; from a cursor past the end it finds nothing |
| `Intervals.SeekAdditionsOrdered` | src/f2m.rs:202-225 | over sorted, disjoint intervals, from a cursor short of the end, the cursor engine adds what plain point queries add for a fragment with start <= end; it leaves the cursor past the end only when every interval ends by the fragment end; from a cursor past the end it adds nothing |
| `Intervals.SeekAdditionsReachesEnd` | src/f2m.rs:208-224 | a fragment with start <= end leaves a cursor short of the end past it only when every interval ends by the fragment end |
| `Intervals.StuckCursor` | src/f2m.rs:208-224 | over [10, 20) and [30, 40), the fragment (15, 100) leaves the cursor past the end, and the fragment (35, 36) then adds nothing instead of [30, 40) twice |
| `Intervals.OneIntervalStuck` | src/f2m.rs:203-208 | over the single interval [10, 20), a query at 100 moves the cursor past it, and a query at 15 then finds nothing, but finds it from a reset cursor |
| `Intervals.ResetAdditions` | src/f2m.rs:203-224 | the cursor engine with a cursor past the end reset to zero keeps the cursor within the list |
| `Intervals.ResetAdditionsExact` | src/f2m.rs:203-224 | with that reset, over sorted, disjoint intervals, every fragment with start <= end adds exactly what plain point queries add, from every cursor |
| `Intervals.AtMostOneHit` | src/f2m.rs:208 | over non-overlapping intervals a point query finds at most one interval |
| `Intervals.AdditionsAreEndpointHits` | src/bin/f2m.rs:215-233 | over non-overlapping features (start <= end) the additions are the features at the start followed by those at the end |
| `Intervals.AdditionsCountEndpoints` | src/bin/f2m.rs:215-233 | each feature receives one addition per fragment endpoint it contains (0, 1 or 2) |
| `Intervals.FindOverlaps` | src/bin/f2m.rs:309-318 | `find_overlaps` is `None` exactly when the chromosome has no index |
| `Intervals.FindOverlapsExact` | src/bin/f2m.rs:309-318 | a `(val, stop)` pair is reported exactly when some interval of the chromosome overlaps the query and carries it |
| `FeatureIndex.ReadRegionComment` | src/f2m.rs:353-356 | a region line is skipped as a comment exactly when it starts with '#' |
| `FeatureIndex.ReadRegionKey` | src/f2m.rs:392-400 | a retained region carries a group key exactly when a group column is configured |
| `FeatureIndex.ApplyUngrouped` | src/f2m.rs:416-420 | an ungrouped region pushes interval `val = total_peaks` and row `index - skipped_lines`, writes label `chrom-start-end` and counts one peak |
| `FeatureIndex.ApplyKnownGroup` | src/f2m.rs:402-410 | a region whose key was seen reuses that key's row and writes no label |
| `FeatureIndex.ApplyNewGroup` | src/f2m.rs:402-410 | a new key takes row `current_index - skipped_lines`, writes its label and advances `current_index` |
| `FeatureIndex.ApplyWf` | src/f2m.rs:353-420 | every line keeps the builder invariant: lookup length = intervals, values below `total_peaks`, distinct labels and rows in range |
| `FeatureIndex.ApplyCounts` | src/f2m.rs:353-420 | one line adds one to `skipped_lines` only for a comment, a peak without an interval only for a missing group column, and only its own key |
| `FeatureIndex.ScanWf` | src/f2m.rs:349-430 | after every prefix of the region file the builder invariant holds |
| `FeatureIndex.ScanCounted` | src/f2m.rs:346-420 | `skipped_lines` counts comments, `total_peaks` exceeds the lookup by the lines lacking the group column, and the groups are the keys seen |
| `FeatureIndex.ScanErrSticky` | src/f2m.rs:404 | once the builder panics, no later line changes the outcome |
| `FeatureIndex.BuildWf` | src/f2m.rs:432-448 | a finished index passes both checks; its values index the lookup, and with grouping the row count is the number of distinct keys |
| `FeatureIndex.FinishFailsIffGroupColumnMissing` | src/f2m.rs:437-439 | the checks after the loop fail exactly when some line lacked the group column |
| `FeatureIndex.ScanGrows` | src/f2m.rs:402-410 | the builder only appends: earlier lookup entries and group rows never change |
| `FeatureIndex.UngroupedRow` | src/f2m.rs:417 | without grouping, the region on line i gets row i minus the comment lines before it |
| `FeatureIndex.GroupedRow` | src/f2m.rs:402-410 | with grouping, every region gets its key's row in the final table, so regions sharing a key share a row |
| `FeatureIndex.UngroupedRowsDense` | src/f2m.rs:416-417 | when every non-comment line is a retained region, rows are 0, 1, 2, ... in file order |
| `FeatureIndex.SequentialRows` | src/f2m.rs:402-417 | corrected numbering never panics; the r-th new key owns row r, and the j-th retained region owns row j |
| `FeatureIndex.SequentialFinishes` | src/f2m.rs:437-439 | with corrected numbering the checks after the loop always pass |
| `FeatureIndex.ApplyNumbered` | src/f2m.rs:402-417 | each line keeps the corrected numbering first-seen and dense |
| `FeatureIndex.GroupRowsCollide` | src/f2m.rs:404 | group A, then a comment, then group B: both groups get row 0 as written, but rows 0 and 1 when corrected |
| `FeatureIndex.FirstGroupUnderflows` | src/f2m.rs:404 | a comment before the first grouped region makes `current_index - skipped_lines` negative |
| `FeatureIndex.UngroupedRowPastEnd` | src/f2m.rs:417 | a malformed line before the only region gives it row 1 in a one-row matrix, and the index is built without error |
| `FeatureIndex.MissingGroupColumnFails` | src/f2m.rs:412-420 | a grouped line lacking the group column makes the interval-count check fail |
| `FeatureIndex.SumIntervals` | src/f2m.rs:438 | the sum of the lapper lengths is the number of intervals |
| `FeatureIndex.LappersTotal` | src/f2m.rs:432-438 | sorting by `Lapper::new` keeps the total number of intervals that the check compares |
| `FeatureIndex.LappersVals` | src/f2m.rs:432-433 | sorting keeps every interval value below the same bound |
| `FeatureIndex.ProcessLine` | src/f2m.rs:351-428 | the loop body on one line is the step `Apply` on that line's classification |
| `FeatureIndex.AddRegion` | src/f2m.rs:392-420 | the loop body on a line whose coordinates and weight were read is the step `Apply` on that region, including the underflow error |
| `FeatureIndex.ScanLines` | src/f2m.rs:351-428 | the loop over the lines leaves the builder of the fold `Scan` over all of them, or its first error |
| `FeatureIndex.ScanStep` | src/f2m.rs:351-428 | one turn of the loop takes the fold over the lines before it to the fold including its line |
| `FeatureIndex.PeakIntervals` | src/f2m.rs:310-449 | `peak_intervals` is the fold over the file, with each list sorted by `Lapper::new`, and both checks; a result passes the checked invariant |
| `Barcodes.LoadBarcodes` | src/f2m.rs:118-123 | every line is a key, and its column is the number of the last line holding that barcode |
| `Barcodes.LineSetSize` | src/f2m.rs:118-123 | the column count is at most the number of lines: equal for distinct lines, smaller when a line repeats |
| `Barcodes.DistinctColumns` | src/f2m.rs:119-122 | with distinct barcodes, line i has column i and the columns are exactly 0 to ncol - 1 |
| `Barcodes.RepeatedBarcodeColumnPastEnd` | src/f2m.rs:118-123 | with a repeated barcode, the last line's column is at least the declared column count |
| `FragmentCount.AddAllEntry` | src/f2m.rs:212 | the additions raise entry (row, col) by the weight carried to that row; the entry exists afterwards exactly when it existed or a feature touched the row, and other columns stay |
| `FragmentCount.AddAllAppend` | src/f2m.rs:212-223 | two lists of additions, one after the other, are the additions of their concatenation |
| `FragmentCount.AddAll` | src/f2m.rs:212-223 | a list of additions succeeds exactly when every feature's row is below the number of count rows, and keeps that number |
| `FragmentCount.AddOne` | src/f2m.rs:212 | one more addition panics when the counts so far panicked or its row is past them, and otherwise adds its weight |
| `FragmentCount.StartPanic` | src/f2m.rs:212-217 | a panic on one start hit is a panic of the whole start loop |
| `FragmentCount.EndPanic` | src/f2m.rs:223 | a panic on one end hit is a panic of the whole end loop |
| `FragmentCount.PanicBeforeEnd` | src/f2m.rs:208-223 | once the start additions panic, the end query cannot undo it |
| `FragmentCount.Hit` | src/f2m.rs:202-225 | the counting of one fragment keeps the loop state consistent, its cursor within the chromosome's list, and cannot panic when every feature row is below the row count |
| `FragmentCount.Consume` | src/f2m.rs:152-228 | one pass keeps the loop state consistent; with every feature row below the row count it panics exactly on a short line |
| `FragmentCount.AddStartHits` | src/f2m.rs:208-219 | the loop over the start hits makes the start additions, panics exactly when one of them has a row past the counts, and `check_end` says whether no hit covered the end |
| `FragmentCount.AddStartHit` | src/f2m.rs:209-218 | one start hit adds its weight once, or twice when the fragment ends inside it, or panics when its row is past the counts |
| `FragmentCount.AddHits` | src/f2m.rs:221-224 | the loop over the end hits adds each hit's weight once, or panics at the first row past the counts |
| `FragmentCount.CountHits` | src/f2m.rs:202-225 | both seeks of one fragment perform the counting step `Hit`, panicking when it does |
| `FragmentCount.CountFragment` | src/f2m.rs:152-228 | the loop body on one chunk is `Consume` of the chunk's classification, a panic included |
| `FragmentCount.CountParsed` | src/f2m.rs:177-226 | after the chromosome switch, the body on a parsed fragment is `Consume` of that fragment |
| `FragmentCount.Initial` | src/f2m.rs:127 | counting starts from one empty sparse row per feature row, with no chromosome selected |
| `FragmentCount.CountFragments` | src/f2m.rs:143-229 | the loop yields the counts of the fold over all chunks, or nothing exactly when the fold panics (a short line or a row past the counts) |
| `FragmentCount.CountStep` | src/f2m.rs:152-228 | one turn of the loop takes the fold over the chunks before it to the fold including its chunk |
| `FragmentCount.RunPanicSticky` | src/f2m.rs:170 | after a panic, every later state is a panic |
| `FragmentCount.RunPanicsIffShortLine` | src/f2m.rs:170-223 | a non-comment line with fewer than four fields makes the run panic; with every feature row below the row count, nothing else does |
| `FragmentCount.RowPastEndPanics` | src/f2m.rs:212 | the index built from a malformed line and one region, run on a fragment inside that region, panics |
| `FragmentCount.FirstFragmentPanics` | src/f2m.rs:205-212 | on that index the first fragment from 5 to 6 adds the feature in row 1 to a one-row count table |
| `FragmentCount.FragmentOfChunk` | src/f2m.rs:167-186 | the line `chr1<TAB>5<TAB>6<TAB>AAA` is read as a fragment from 5 to 6 in the barcode's column |
| `FragmentCount.ReadFragmentColumn` | src/f2m.rs:171 | a counted fragment's column is a registered barcode's column |
| `FragmentCount.ConsumeFrame` | src/f2m.rs:171-226 | headers, unknown barcodes, bad coordinates and unindexed chromosomes leave the counts unchanged; a fragment changes only its own column and removes no entry |
| `FragmentCount.RunColumns` | src/f2m.rs:171 | every stored count lies in the column of a registered barcode |
| `FragmentCount.PointHitsWeight` | src/f2m.rs:208-212 | a point query carries to each row the total weight of that row's features containing the point |
| `FragmentCount.HitCountsEndpoints` | src/f2m.rs:202-225 | on non-empty intervals sharing no position (sorted by `Lapper::new`), with the cursor short of the end, a fragment panics exactly when a feature containing its start or end has a row past the counts; otherwise (row, col) grows by the weights of the row's features at the start plus those at the end, whatever fragments came before, and no other column changes |
| `FragmentCount.HitIsPointQueries` | src/f2m.rs:202-225 | on non-empty intervals sharing no position, with the cursor short of the end, a fragment adds the features of the point queries at its start and end |
| `FragmentCount.HitStuck` | src/f2m.rs:203-224 | with the cursor past the last of two or more intervals, a fragment adds nothing and leaves the state as it was |
| `FragmentCount.ConsumeStuck` | src/f2m.rs:177-224 | once the cursor is stuck, every later line on the same chromosome, short lines aside, leaves the loop state unchanged |
| `FragmentCount.HitSticks` | src/f2m.rs:203-224 | a fragment with start <= end sticks the cursor only when every interval of its chromosome ends by the fragment end |
| `FragmentCount.EndpointPanic` | src/f2m.rs:212-223 | those additions hit a row past the counts exactly when some feature containing an endpoint has such a row |
| `FragmentCount.EndpointWeights` | src/f2m.rs:212-223 | those additions raise (row, col) by the weights at the start plus those at the end, and leave other columns |
| `FragmentCount.BuiltIndexOk` | src/f2m.rs:432-448 | every index the region reader returns, with either numbering, is one the counting loop accepts |
| `FragmentCount.SequentialIndexReady` | src/f2m.rs:107-127 | the corrected index always exists, is one the counting loop accepts, and has every row below the row count, so only short lines can panic |
| `MatrixMarket.WriteMatrixMarket` | src/f2m.rs:259-308 | the writes form the header, then one entry line per stored count row by row; there is one write per started block of 5000 rows plus the final buffer when it is written |
| `MatrixMarket.WriteRows` | src/f2m.rs:289-303 | the row loop and the final write emit the header and the body in full, with one write per block of 5000 rows |
| `MatrixMarket.EmitRows` | src/f2m.rs:289-298 | after the row loop the writes and the buffer hold the header and every row's lines, with one write per started block of 5000 rows, and the buffer is empty exactly when no row since the last flush holds a count |
| `MatrixMarket.EmitRow` | src/f2m.rs:290-297 | one row appends its lines and flushes on a multiple of 5000; the buffer is empty exactly when no row since the flush holds a count |
| `MatrixMarket.BufferStep` | src/f2m.rs:294-297 | after each row the buffer is empty exactly when no row since the last flush held a count |
| `MatrixMarket.FinalWrite` | src/f2m.rs:301-303 | the remaining buffer is written when non-empty, or always in the earlier engine |
| `MatrixMarket.FlushIfDue` | src/f2m.rs:294-297 | on a row index that is a multiple of 5000 the buffer is written and cleared, and no text is lost |
| `MatrixMarket.AppendRow` | src/f2m.rs:290-292 | the inner loop appends one entry line per key of the row, in iteration order |
| `MatrixMarket.BatchStep` | src/f2m.rs:294 | a row starts a new block exactly when its index is a multiple of 5000 |
| `MatrixMarket.RowTextEmpty` | src/f2m.rs:290-292 | a row contributes text exactly when its map holds a count |
| `MatrixMarket.EntryLineBreaks` | src/f2m.rs:291 | each entry is exactly one line |
| `MatrixMarket.RowTextLines` | src/f2m.rs:290-292 | a row's text has one line per listed key |
| `MatrixMarket.ListingSize` | src/f2m.rs:268 | a duplicate-free listing of a row's keys is as long as the row map |
| `MatrixMarket.BodyLines` | src/f2m.rs:268-298 | the declared nonzero count equals the number of entry lines written |
| `MatrixMarket.EntryLineFields` | src/f2m.rs:291 | an entry line splits on spaces into the 1-based row, the 1-based column and the value, and the indices parse back |
| `Legacy.LegacyPeakIntervals` | src/bin/f2m.rs:320-414 | the loop returns the row count (groups when grouping, else regions) and the interval tables of the fold over the file, each sorted by `Lapper::new` |
| `Legacy.TotalIsPeakCount` | src/bin/f2m.rs:393 | every retained region counts one peak, whatever its key |
| `Legacy.GroupedRowsInRange` | src/bin/f2m.rs:372-388 | with grouping and a fourth column on every region, group rows are 0, 1, ... in first-seen order and every value is below the row count |
| `Legacy.UngroupedRowsInRange` | src/bin/f2m.rs:389-393 | without grouping and with every line a region, the region on line i has value i, below the row count |
| `Legacy.CommentShiftsRows` | src/bin/f2m.rs:390 | a comment line before the only region gives it value 1 while the row count is 1 |
| `Legacy.BumpAppend` | src/bin/f2m.rs:217-233 | increments run in order; a panic persists, otherwise later increments continue from the counts reached |
| `Legacy.FindOverlapsPoint` | src/bin/f2m.rs:215 | `find_overlaps` at a point returns the (value, stop) pairs of the intervals containing it |
| `Legacy.BumpStartHits` | src/bin/f2m.rs:217-225 | the start loop increments the start additions' rows in order, and `check_end` says whether no hit covered the end |
| `Legacy.BumpStartHit` | src/bin/f2m.rs:218-224 | one start hit increments its row once, or twice when the fragment ends inside it; a row past the end panics |
| `Legacy.BumpHit` | src/bin/f2m.rs:218-223 | after the additions so far, one hit's row is incremented once or twice, or the run panics when the row is past the end |
| `Legacy.StartPanic` | src/bin/f2m.rs:218 | a panic on one start hit is a panic of the whole start loop |
| `Legacy.BumpHits` | src/bin/f2m.rs:229-231 | the end loop increments each end hit's row once |
| `Legacy.CountLegacyHits` | src/bin/f2m.rs:215-233 | both queries of one fragment increment the rows of `FragmentAdditions` |
| `Legacy.CountLegacyFragment` | src/bin/f2m.rs:185-236 | the loop body on one chunk is the step `Tick` on its classification |
| `Legacy.LegacyCount` | src/bin/f2m.rs:162-237 | the counting loop from `nrows` empty rows is the fold of `Tick` over the chunks of the file |
| `Legacy.LegacyStopSticky` | src/bin/f2m.rs:212-213 | a panic or a parse error ends the run with that outcome |
| `Legacy.PointHitsInRow` | src/bin/f2m.rs:215-218 | a point query lists each interval of a row that contains the point exactly once |
| `Legacy.BumpEntry` | src/bin/f2m.rs:218 | with every row in range, (row, col) grows by how often the row is listed and the other columns stay |
| `Legacy.TickFragment` | src/bin/f2m.rs:211-233 | a fragment on a chromosome with regions increments the rows of its additions in turn |
| `Legacy.BumpEndpoints` | src/bin/f2m.rs:215-233 | over non-overlapping in-range intervals, (row, col) grows by the row's intervals at the start plus those at the end |
| `Legacy.TickCountsEndpoints` | src/bin/f2m.rs:204-235 | over non-overlapping intervals with rows in range, a fragment adds one to (row, col) per endpoint in the row's intervals, and other columns stay |
| `Legacy.CommentLinePanics` | src/bin/f2m.rs:390 | with the tables a leading comment line produces, a fragment inside the only region panics |
| `CellSelect.BarcodeOf` | src/cellselect.rs:97-114 | a line is counted exactly when it is not a '#' header and has at least four fields, under its fourth field |
| `CellSelect.CountedAppend` | src/cellselect.rs:94-115 | counting two parts of a file separately and in sequence counts the whole file |
| `CellSelect.CountedIffSomeLine` | src/cellselect.rs:111-114 | a barcode is counted exactly when some line carries it in its fourth field |
| `CellSelect.CountBarcodes` | src/cellselect.rs:94-115 | keys are exactly the counted barcodes, and each value is the number of lines counted under it |
| `CellSelect.CountFragmentLine` | src/cellselect.rs:96-114 | one pass counts the line's barcode, if any, once more and keeps every other tally |
| `CellSelect.TalliesStep` | src/cellselect.rs:113 | `entry(b).or_insert(0) += 1` keeps the map a tally of the barcode list with b appended |
| `CellSelect.CountedClean` | src/cellselect.rs:82-114 | counted barcodes hold neither tab nor line break |
| `CellSelect.Selected` | src/cellselect.rs:61-65 | a barcode is selected exactly when it is listed and its count is strictly above the cutoff |
| `CellSelect.SelectedDistinct` | src/cellselect.rs:61-65 | selection from a duplicate-free listing lists each barcode at most once |
| `CellSelect.SelectBarcodes` | src/cellselect.rs:54-68 | the loop keeps, in iteration order, exactly the barcodes whose count exceeds the cutoff |
| `CellSelect.SelectedFromCounts` | src/cellselect.rs:34-35 | counting then selecting keeps exactly the barcodes with more counted lines than the cutoff |
| `CellSelect.WriteCounts` | src/cellselect.rs:41-43 | the count file is one `barcode<TAB>count` line per barcode, in iteration order |
| `CellSelect.CountLineReads` | src/cellselect.rs:42 | a count line is one whole line that splits back into the barcode and the count |
| `CellSelect.ReadCountFile` | src/cellselect.rs:38-44 | the count file reads back line by line as each barcode with a digit string whose value is its count |
| `CellSelect.CountFileRoundTrip` | src/cellselect.rs:34-44 | the count file written for a fragment file reads back with every count in place, in any iteration order |
| `Filter.LoadCells` | src/filter.rs:21-32 | the cell set is exactly the set of lines of the barcode file |
| `Filter.Strip` | src/filter.rs:52-58 | the stripped line is a prefix of the chunk, and holds no '\n' when the chunk has none before its last character |
| `Filter.StripCuts` | src/filter.rs:52-58 | stripping removes a final "\r\n", else a final "\n", else a final "\r", else nothing |
| `Filter.StripWritten` | src/filter.rs:53-58 | a line written with `writeln!` strips back to itself unless it ends in '\r' |
| `Filter.StripAndChomp` | src/filter.rs:52-58 | stripping agrees with `lines()` on chunks ending in '\n' and differs on a final "a\r" |
| `Filter.Kept` | src/filter.rs:61-69 | the output lines all pass the test and are no more than the input lines |
| `Filter.KeptIff` | src/filter.rs:61-69 | a line is written exactly when it passes the test and is the stripped form of some chunk |
| `Filter.KeptProcessed` | src/filter.rs:65-71 | `line_count` is at least the number of lines written |
| `Filter.FilterChunk` | src/filter.rs:48-75 | one chunk: its stripped line is written when kept, and counted when not a comment |
| `Filter.FilterFragments` | src/filter.rs:34-82 | the output is the kept lines, each followed by '\n', and `line_count` is the number of non-comment chunks |
| `Filter.ReadFiltered` | src/filter.rs:67 | the output reads back chunk by chunk as the kept lines, each followed by '\n' |
| `Filter.KeptOfTerminated` | src/filter.rs:61-69 | lines that all pass the test and do not end in '\r', once written, are all kept again |
| `Filter.FilterIdempotent` | src/filter.rs:47-79 | filtering the output again with the same cells gives the same output when no kept line ends in '\r' |

## Left out

- gzip decompression (`MultiGzDecoder`), gzip compression (`ParCompress`,
  `GzEncoder`) and thread counts: the model works on decompressed text and
  on the list of uncompressed writes.
- The decompression thread and `sync_channel` of `count_barcodes`: the
  consumer loop receives the `lines()` of the text in order
  (`CellSelect.CountBarcodes` takes those lines). A read error's
  `expect` panic is not modelled.
- I/O errors (open, read, write, `finish`), `fs::copy` in `write_cells`,
  logging, progress output, command-line parsing and `process::exit`.
- The interval library's internals:
  - `Lapper::find` is specified by what it returns
    (`Intervals.OverlapsFrom`).
  - `Lapper::seek` follows the library's steps (`Intervals.Seek`).
  - `lower_bound` is its binary search's answer on a list sorted by start
    (`Intervals.LowerBound`). Every list the model queries is sorted, so
    the search itself is left out.
- Intervals.LowerBound: it is stated as the first position whose interval
  starts at or after x. That is the binary search's answer on a sorted
  list only; the search is never made on an unsorted one.
- Intervals.Seek: it follows `Lapper::seek` as published in rust-lapper
  1.1.0, including its restart and forward-move conditions. The
  dependency's version is not pinned, and another release may differ.
  The library's cursor can stop past the last interval, and the model
  keeps this (`Intervals.StuckCursor`). The seek is proved
  equal to `find` only when every interval before the cursor ends at or
  before the query (`Intervals.SeekIsPointQuery`), or over sorted,
  disjoint regions from a cursor short of the end (`Intervals.SeekOrdered`).
- Intervals.SeekOrdered: exactness is claimed only from a cursor short of
  the end. From a cursor past the end it states that nothing is found,
  which differs from `find`.
- Intervals.SeekAdditionsOrdered: the same, for both seeks of a fragment,
  and only for fragments with start <= end.
- FragmentCount.HitCountsEndpoints: the exact counting rule of the cursor
  engine is proved only for regions that share no position and are all
  non-empty (start < end), and only while the cursor is short of the end.
  - Once a fragment ends past every interval of a chromosome with two or
    more intervals, the cursor stays past the end. The rest of that
    chromosome's fragments are then uncounted. `FragmentCount.HitStuck`
    and `FragmentCount.ConsumeStuck` state that case, and
    `FragmentCount.HitSticks` says when it starts.
  - A region file may hold an empty region (start = end), which
    `Lapper::new` can sort inside a longer one. The seek can then skip a
    feature that contains a later fragment's endpoint
    (`Intervals.EmptyIntervalHidesHit`).
  - Over overlapping regions the seek may also skip intervals.
  - The model does not characterise the resulting counts over empty or
    overlapping regions.
- FragmentCount.HitIsPointQueries: the same conditions; a stuck cursor is
  covered by `FragmentCount.HitStuck` instead.
- Text.ParseDecimal: `f32` parsing also accepts `inf`, `infinity` and
  `nan` in any case with an optional sign; the model rejects them
  (`Text.ParseDecimalRejectsNonFinite`). Such a weight makes the model
  skip the region line as a bad weight, while the program keeps the
  region, so later interval values, `total_peaks` and the ungrouped row
  count differ by one per such line. Rounding to the nearest `f32`,
  overflow to infinity and underflow to zero are not modelled either:
  the weight is the exact decimal value.
- FeatureIndex.PeakIntervals: because of the line above, a region file
  whose weight column holds `inf`, `infinity` or `nan` gives a different
  index in the model (that line skipped) than in the program (that line
  kept with a non-finite weight). Exponent forms such as `1e-3` are read.
- f32 arithmetic: weights and counts of src/f2m.rs are exact reals. Their
  `Display` formatting is a parameter `show` of the writer.
- Integer widths: `startpos + 1` and `endpos + 1` on `u32::MAX`, the `u32`
  counters of the earlier engine and `line_count` are unbounded; the
  `usize` subtraction at src/f2m.rs:404 is modelled as a panic.
- Barcodes.LoadBarcodes: the column is the line number cast with
  `index as u32` (src/f2m.rs:121). A file of 2^32 lines or more wraps the
  column in the program, while the model's column is unbounded.
- Hash-map iteration order: a parameter (a duplicate-free listing of the
  keys) in `select_barcodes`, the count file and the matrix rows.
- Printing the selected barcodes to standard output
  (src/cellselect.rs:47-49): `CellSelect.SelectBarcodes` returns them.
- The label file contents are modelled as the `labels` sequence; the line
  framing of `writeln!` into features.tsv(.gz) is not.
- A chunk that is not valid UTF-8 (`read_line` error) and slicing
  `line_str[..len - 1]` on a multi-byte last character: characters are
  code points here.
- src/main.rs and src/m.rs are not part of this model.
  - src/main.rs is the subcommand dispatch: "matrix" runs `f2m::f2m` and
    "count" runs `cellselect::cellselect` (src/main.rs:104-105).
  - src/m.rs is a separate `fcount` counter (src/m.rs:29). It reads a
    tabix-indexed fragment file through noodles, together with a BED file.
- Filter.FilterIdempotent: holds only when no kept line ends in '\r',
  because `filter` strips one '\r' per pass.

## Findings

| source | as written | input that shows it | evidently intended | confidence | as-written member | corrected member |
|---|---|---|---|---|---|---|
| src/f2m.rs:404 | a new group's row is `current_index - skipped_lines` | grouped regions A, then a comment line, then B: A and B both get row 0 | the next sequential row in first-seen order (0, then 1) | not executed | `FeatureIndex.GroupRowsCollide` | `FeatureIndex.SequentialRows` |
| src/f2m.rs:404 | the same subtraction before any group exists | a comment line, then a grouped region: 0 - 1 underflows a `usize` | row 0 for the first group | not executed | `FeatureIndex.FirstGroupUnderflows` | `FeatureIndex.SequentialRows` |
| src/f2m.rs:417 | an ungrouped row is `index - skipped_lines`, which still counts malformed lines | a malformed line, then one region: row 1 in a matrix of one row | the region's order among retained regions | not executed | `FeatureIndex.UngroupedRowPastEnd` | `FeatureIndex.SequentialRows` |
| src/f2m.rs:412-420 | a grouped line lacking the group column still increments `total_peaks` | a region with key A, then a 3-field line: the check at line 437 fails | the line is skipped | not executed | `FeatureIndex.MissingGroupColumnFails` | `FeatureIndex.SequentialFinishes` |
| src/f2m.rs:203-224 | the cursor is reset only for a new chromosome or a one-interval list, and `seek` keeps a cursor that has passed the last interval | regions [10, 20) and [30, 40) on one chromosome; fragments (15, 100), then (35, 36): the second fragment adds nothing | every fragment counts the features at its start and end, as the reset already does for one-interval lists | medium; not executed; follows `seek` of rust-lapper 1.1.0 | `Intervals.StuckCursor` | `Intervals.ResetAdditionsExact` |
