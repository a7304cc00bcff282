/**
 * The Matrix Market writer of both engines (`write_matrix_market` in
 * src/f2m.rs and src/bin/f2m.rs): a fixed banner, a metadata comment, the
 * dimensions line, then one 1-based `row col value` line per stored count,
 * row by row, handed to the compressor in batches of 5000 rows. The hash-map
 * traversal order of each row is a parameter, and so is the formatting of a
 * value (`Display` of `f32` in one engine, of `u32` in the other).
 */
module MatrixMarket {
  import opened Wrappers
  import opened Text

  const Banner := "%%MatrixMarket matrix coordinate integer general\n"
  const LibraryVersion := "fragtk-1.1.0"
  const BinaryVersion := "f2m-0.1.0"
  /** Rows between two writes to the compressor. */
  const BatchRows: nat := 5000

  /**
   * The metadata comment. The text is appended with `push_str`, not
   * `format!`, so the doubled braces reach the file doubled.
   */
  function Metadata(version: string): string {
    "%%metadata json: {{\"software_version\": \"" + version + "\"}}\n"
  }

  /** The number of stored counts: the sum of the row-map sizes. */
  function NonZero<V>(counts: seq<map<nat, V>>): nat {
    if |counts| == 0 then 0 else NonZero(counts[..|counts| - 1]) + |counts[|counts| - 1]|
  }

  /** The first write: banner, metadata and `nrow ncol nonzero`. */
  function Header(version: string, nrow: nat, ncol: nat, nonzero: nat): string {
    Banner + Metadata(version) + NatToString(nrow) + " " + NatToString(ncol) + " " + NatToString(nonzero) + "\n"
  }

  /** `"{} {} {}\n"` of the 1-based row, the 1-based column and the formatted value. */
  function EntryLine(row: nat, col: nat, value: string): string {
    NatToString(row + 1) + " " + NatToString(col + 1) + " " + value + "\n"
  }

  predicate DistinctKeys(keys: seq<nat>) {
    forall i, j :: 0 <= i < j < |keys| ==> keys[i] != keys[j]
  }

  /** The order in which each row's map is traversed: every key of the row once. */
  ghost predicate Traversal<V>(counts: seq<map<nat, V>>, order: seq<seq<nat>>) {
    && |order| == |counts|
    && forall r :: 0 <= r < |counts| ==>
         DistinctKeys(order[r]) && (forall c :: c in order[r] <==> c in counts[r])
  }

  /** The entry lines of one row, for the listed keys. */
  function RowText<V>(row: nat, m: map<nat, V>, keys: seq<nat>, show: V -> string): string
    requires forall c :: c in keys ==> c in m
  {
    if |keys| == 0 then ""
    else
      var c := keys[|keys| - 1];
      RowText(row, m, keys[..|keys| - 1], show) + EntryLine(row, c, show(m[c]))
  }

  /** The entry lines of the first n rows. */
  function Body<V>(counts: seq<map<nat, V>>, order: seq<seq<nat>>, show: V -> string, n: nat): string
    requires Traversal(counts, order) && n <= |counts|
  {
    if n == 0 then ""
    else Body(counts, order, show, n - 1) + RowText(n - 1, counts[n - 1], order[n - 1], show)
  }

  /** The whole file, before compression. */
  function Document<V>(version: string, counts: seq<map<nat, V>>, order: seq<seq<nat>>, show: V -> string, nrow: nat, ncol: nat): string
    requires Traversal(counts, order)
  {
    Header(version, nrow, ncol, NonZero(counts)) + Body(counts, order, show, |counts|)
  }

  /** The number of started blocks of 5000 among the first n rows. */
  function Batches(n: nat): nat {
    (n + BatchRows - 1) / BatchRows
  }

  /** The rows already handed to the compressor once the first n rows are buffered. */
  function Flushed(n: nat): nat {
    if n == 0 then 0 else (n - 1) / BatchRows * BatchRows + 1
  }

  /**
   * The writer: the header goes out first, each row's lines are appended to
   * the buffer, and after every row whose index is a multiple of 5000 the
   * buffer is written and cleared. The last buffer is written when it is not
   * empty (`flushEmpty` false, src/f2m.rs) or always (`flushEmpty` true,
   * src/bin/f2m.rs). The writes glued together are the document; there is one
   * write per started block of 5000 rows besides the header and the last one.
   */
  method WriteMatrixMarket<V>(counts: seq<map<nat, V>>, order: seq<seq<nat>>, show: V -> string,
                              nrow: nat, ncol: nat, version: string, flushEmpty: bool)
    returns (writes: seq<string>)
    requires Traversal(counts, order)
    ensures Concat(writes) == Document(version, counts, order, show, nrow, ncol)
    ensures |writes| >= 1 && writes[0] == Header(version, nrow, ncol, NonZero(counts))
    ensures |writes| == 1 + Batches(|counts|)
                        + (if flushEmpty || !Quiet(counts, Flushed(|counts|), |counts|) then 1 else 0)
  {
    var nonzero := NonZero(counts);
    var header := Header(version, nrow, ncol, nonzero);
    writes := WriteRows(header, counts, order, show, flushEmpty);
  }

  /** The writes after the header: the batches of rows and the last buffer. */
  method WriteRows<V>(header: string, counts: seq<map<nat, V>>, order: seq<seq<nat>>, show: V -> string, flushEmpty: bool)
    returns (writes: seq<string>)
    requires Traversal(counts, order)
    ensures Concat(writes) == header + Body(counts, order, show, |counts|)
    ensures |writes| >= 1 && writes[0] == header
    ensures |writes| == 1 + Batches(|counts|)
                        + (if flushEmpty || !Quiet(counts, Flushed(|counts|), |counts|) then 1 else 0)
  {
    var output;
    writes, output := EmitRows(header, counts, order, show);
    writes := FinalWrite(writes, output, flushEmpty);
  }

  /** The row loop: every row emitted, before the last buffer is written. */
  method EmitRows<V>(header: string, counts: seq<map<nat, V>>, order: seq<seq<nat>>, show: V -> string)
    returns (writes: seq<string>, output: string)
    requires Traversal(counts, order)
    ensures Emitted(header, counts, order, show, writes, output, |counts|)
  {
    writes := [header];
    output := "";
    WriteStart(header, counts, order, show);
    var index := 0;
    while index < |counts|
      invariant index <= |counts|
      invariant Emitted(header, counts, order, show, writes, output, index)
    {
      writes, output := EmitRow(header, counts, order, show, writes, output, index);
      index := index + 1;
    }
  }

  /** One pass of the row loop: the row's lines are appended, and the buffer is written when the row index is due. */
  method EmitRow<V>(header: string, counts: seq<map<nat, V>>, order: seq<seq<nat>>, show: V -> string,
                    writes: seq<string>, output: string, index: nat)
    returns (writes': seq<string>, output': string)
    requires Traversal(counts, order) && index < |counts|
    requires Emitted(header, counts, order, show, writes, output, index)
    ensures Emitted(header, counts, order, show, writes', output', index + 1)
  {
    var appended := AppendRow(output, index, counts[index], order[index], show);
    BodyStep(counts, order, show, index, header, Concat(writes), output, appended);
    BatchStep(index);
    BufferStep(counts, order, show, index, output);
    writes', output' := FlushIfDue(writes, appended, index);
  }

  /** No row in [lo, hi) holds a count. */
  predicate Quiet<V>(counts: seq<map<nat, V>>, lo: nat, hi: nat)
    requires hi <= |counts|
  {
    forall r :: lo <= r < hi ==> |counts[r]| == 0
  }

  /** The buffer is empty exactly when no row since the last flush holds a count. */
  lemma BufferStep<V>(counts: seq<map<nat, V>>, order: seq<seq<nat>>, show: V -> string, index: nat, before: string)
    requires Traversal(counts, order) && index < |counts|
    requires before == "" <==> Quiet(counts, Flushed(index), index)
    ensures var after := if index % BatchRows == 0 then "" else before + RowText(index, counts[index], order[index], show);
      after == "" <==> Quiet(counts, Flushed(index + 1), index + 1)
  {
    BatchStep(index);
    RowTextEmpty(index, counts[index], order[index], show);
    if index % BatchRows != 0 {
      assert Flushed(index) <= index;
      assert Quiet(counts, Flushed(index), index + 1) <==> Quiet(counts, Flushed(index), index) && |counts[index]| == 0;
    }
  }

  /** The last buffer is written when it holds text, or in any case when `flushEmpty` holds. */
  /**
   * The state of the writer after the first `index` rows: the header went
   * out first, the writes and the buffer together hold the header and the
   * body so far, one write was made per started block of 5000 rows, and the
   * buffer is empty exactly when no row since the last flush holds a count.
   */
  ghost predicate Emitted<V>(header: string, counts: seq<map<nat, V>>, order: seq<seq<nat>>, show: V -> string,
                             writes: seq<string>, output: string, index: nat)
    requires Traversal(counts, order) && index <= |counts|
  {
    && |writes| >= 1 && writes[0] == header
    && Concat(writes) + output == header + Body(counts, order, show, index)
    && |writes| == 1 + Batches(index)
    && (output == "" <==> Quiet(counts, Flushed(index), index))
  }

  /** Before the first row: the header is the only write and the buffer is empty. */
  lemma WriteStart<V>(header: string, counts: seq<map<nat, V>>, order: seq<seq<nat>>, show: V -> string)
    requires Traversal(counts, order)
    ensures Emitted(header, counts, order, show, [header], "", 0)
  {
    assert Concat([header]) == Concat([]) + header;
    assert header + "" == header;
  }

  method FinalWrite(writes: seq<string>, output: string, flushEmpty: bool) returns (writes': seq<string>)
    requires |writes| >= 1
    ensures Concat(writes') == Concat(writes) + output
    ensures |writes'| >= 1 && writes'[0] == writes[0]
    ensures |writes'| == |writes| + (if flushEmpty || output != "" then 1 else 0)
  {
    if flushEmpty || output != "" {
      assert Concat(writes + [output]) == Concat(writes) + output;
      writes' := writes + [output];
    } else {
      assert Concat(writes) + output == Concat(writes);
      writes' := writes;
    }
  }

  /** One more row appended to the buffer keeps the written text and the buffer the document so far. */
  lemma BodyStep<V>(counts: seq<map<nat, V>>, order: seq<seq<nat>>, show: V -> string, index: nat,
                    header: string, written: string, before: string, after: string)
    requires Traversal(counts, order) && index < |counts|
    requires written + before == header + Body(counts, order, show, index)
    requires after == before + RowText(index, counts[index], order[index], show)
    ensures written + after == header + Body(counts, order, show, index + 1)
  {
    var row := RowText(index, counts[index], order[index], show);
    AppendAssoc(written, before, row);
    AppendAssoc(header, Body(counts, order, show, index), row);
  }

  lemma AppendAssoc(a: string, b: string, c: string)
    ensures (a + b) + c == a + (b + c)
  {
  }

  /** After a row whose index is a multiple of 5000 the buffer is written and cleared. */
  method FlushIfDue(writes: seq<string>, output: string, index: nat) returns (writes': seq<string>, output': string)
    requires |writes| >= 1
    ensures Concat(writes') + output' == Concat(writes) + output
    ensures |writes'| >= 1 && writes'[0] == writes[0]
    ensures |writes'| == |writes| + (if index % BatchRows == 0 then 1 else 0)
    ensures output' == if index % BatchRows == 0 then "" else output
  {
    writes', output' := writes, output;
    if index % BatchRows == 0 {
      assert Concat(writes + [output]) == Concat(writes) + output;
      writes', output' := writes + [output], "";
    }
  }

  /** The inner loop: one row's entry lines appended to the buffer. */
  method AppendRow<V>(output: string, row: nat, m: map<nat, V>, keys: seq<nat>, show: V -> string) returns (r: string)
    requires forall c :: c in keys ==> c in m
    ensures r == output + RowText(row, m, keys, show)
  {
    r := output;
    var j := 0;
    while j < |keys|
      invariant j <= |keys|
      invariant r == output + RowText(row, m, keys[..j], show)
    {
      RowTextStep(row, m, keys, show, j);
      AppendAssoc(output, RowText(row, m, keys[..j], show), EntryLine(row, keys[j], show(m[keys[j]])));
      r := r + EntryLine(row, keys[j], show(m[keys[j]]));
      j := j + 1;
    }
    assert keys[..j] == keys;
  }

  lemma RowTextStep<V>(row: nat, m: map<nat, V>, keys: seq<nat>, show: V -> string, j: nat)
    requires (forall c :: c in keys ==> c in m) && j < |keys|
    ensures RowText(row, m, keys[..j + 1], show) == RowText(row, m, keys[..j], show) + EntryLine(row, keys[j], show(m[keys[j]]))
  {
    assert keys[..j + 1][..j] == keys[..j];
  }

  /** One more row starts a new block of 5000 exactly when its index is a multiple of 5000. */
  lemma BatchStep(index: nat)
    ensures Batches(index + 1) == Batches(index) + (if index % BatchRows == 0 then 1 else 0)
    ensures Flushed(index + 1) == if index % BatchRows == 0 then index + 1 else Flushed(index)
  {
    var q, r := index / BatchRows, index % BatchRows;
    DivBatch(index, q, r);
    DivBatch(index + BatchRows, q + 1, r);
    if r == 0 {
      DivBatch(index + BatchRows - 1, q, BatchRows - 1);
    } else {
      DivBatch(index + BatchRows - 1, q + 1, r - 1);
      DivBatch(index - 1, q, r - 1);
    }
  }

  /** Division by the block size, from a quotient and remainder. */
  lemma DivBatch(n: nat, q: nat, r: nat)
    requires n == BatchRows * q + r && r < BatchRows
    ensures n / BatchRows == q
  {
  }

  /** A row contributes text exactly when its map holds a count. */
  lemma RowTextEmpty<V>(row: nat, m: map<nat, V>, keys: seq<nat>, show: V -> string)
    requires DistinctKeys(keys) && forall c :: c in keys <==> c in m
    ensures RowText(row, m, keys, show) == "" <==> |m| == 0
  {
    if |keys| > 0 {
      var c := keys[|keys| - 1];
      assert c in m;
      assert |EntryLine(row, c, show(m[c]))| > 0;
    } else {
      assert m.Keys == {};
    }
  }

  // ---------------------------------------------------------------------------
  // What a reader of the file finds

  /** The number of occurrences of a character. */
  function Occurrences(s: string, c: char): nat {
    if |s| == 0 then 0 else Occurrences(s[..|s| - 1], c) + (if s[|s| - 1] == c then 1 else 0)
  }

  lemma {:induction false} OccurrencesAppend(a: string, b: string, c: char)
    ensures Occurrences(a + b, c) == Occurrences(a, c) + Occurrences(b, c)
  {
    if |b| > 0 {
      OccurrencesAppend(a, b[..|b| - 1], c);
      assert (a + b)[..|a + b| - 1] == a + b[..|b| - 1];
    } else {
      assert a + b == a;
    }
  }

  /** A string of digits holds no line break. */
  lemma DigitsNoBreak(s: string)
    requires AllDigits(s)
    ensures Occurrences(s, '\n') == 0
  {
    if |s| > 0 {
      DigitsNoBreak(s[..|s| - 1]);
    }
  }

  /** Each entry is exactly one line. */
  lemma EntryLineBreaks(row: nat, col: nat, value: string)
    requires Occurrences(value, '\n') == 0
    ensures Occurrences(EntryLine(row, col, value), '\n') == 1
  {
    var a := NatToString(row + 1);
    var b := NatToString(col + 1);
    DigitsNoBreak(a);
    DigitsNoBreak(b);
    OccurrencesAppend(a, " ", '\n');
    OccurrencesAppend(a + " ", b, '\n');
    OccurrencesAppend(a + " " + b, " ", '\n');
    OccurrencesAppend(a + " " + b + " ", value, '\n');
    OccurrencesAppend(a + " " + b + " " + value, "\n", '\n');
  }

  /** With one-line values, a row's text has as many lines as the row has counts. */
  lemma {:induction false} RowTextLines<V>(row: nat, m: map<nat, V>, keys: seq<nat>, show: V -> string)
    requires forall v :: Occurrences(show(v), '\n') == 0
    requires forall c :: c in keys ==> c in m
    ensures Occurrences(RowText(row, m, keys, show), '\n') == |keys|
  {
    if |keys| > 0 {
      var c := keys[|keys| - 1];
      RowTextLines(row, m, keys[..|keys| - 1], show);
      EntryLineBreaks(row, c, show(m[c]));
      OccurrencesAppend(RowText(row, m, keys[..|keys| - 1], show), EntryLine(row, c, show(m[c])), '\n');
    }
  }

  /** A duplicate-free listing of a map's keys is as long as the map. */
  lemma {:induction false} ListingSize<V>(keys: seq<nat>, m: map<nat, V>)
    requires DistinctKeys(keys) && forall c :: c in keys <==> c in m
    ensures |keys| == |m|
  {
    if |keys| == 0 {
      assert m.Keys == {};
    } else {
      var c := keys[|keys| - 1];
      var init := keys[..|keys| - 1];
      assert forall x :: x in init <==> x in keys && x != c by {
        forall x ensures x in init <==> x in keys && x != c {
          if x in init {
            var i :| 0 <= i < |init| && init[i] == x;
            assert keys[i] == x && i < |keys| - 1;
          }
          if x in keys && x != c {
            var i :| 0 <= i < |keys| && keys[i] == x;
            assert i < |keys| - 1;
            assert init[i] == x;
          }
        }
      }
      ListingSize(init, m - {c});
      assert (m - {c}).Keys == m.Keys - {c};
    }
  }

  /**
   * The declared nonzero count is the number of entry lines: with values
   * that format without a line break, the body has exactly NonZero lines.
   */
  lemma {:induction false} BodyLines<V>(counts: seq<map<nat, V>>, order: seq<seq<nat>>, show: V -> string, n: nat)
    requires Traversal(counts, order) && n <= |counts|
    requires forall v :: Occurrences(show(v), '\n') == 0
    ensures Occurrences(Body(counts, order, show, n), '\n') == NonZero(counts[..n])
  {
    if n > 0 {
      BodyLines(counts, order, show, n - 1);
      RowLines(counts, order, show, n - 1);
      OccurrencesAppend(Body(counts, order, show, n - 1), RowText(n - 1, counts[n - 1], order[n - 1], show), '\n');
      NonZeroStep(counts, n);
    }
  }

  /** Row r's text holds one line per count of the row. */
  lemma RowLines<V>(counts: seq<map<nat, V>>, order: seq<seq<nat>>, show: V -> string, r: nat)
    requires Traversal(counts, order) && r < |counts|
    requires forall v :: Occurrences(show(v), '\n') == 0
    ensures Occurrences(RowText(r, counts[r], order[r], show), '\n') == |counts[r]|
  {
    RowTextLines(r, counts[r], order[r], show);
    ListingSize(order[r], counts[r]);
  }

  lemma NonZeroStep<V>(counts: seq<map<nat, V>>, n: nat)
    requires 0 < n <= |counts|
    ensures NonZero(counts[..n]) == NonZero(counts[..n - 1]) + |counts[n - 1]|
  {
    assert counts[..n][..n - 1] == counts[..n - 1];
  }

  /**
   * An entry line reads back: without its newline it splits on spaces into
   * the 1-based row, the 1-based column and the value, and the indices parse
   * back as `u32` when they fit.
   */
  lemma EntryLineFields(row: nat, col: nat, value: string)
    requires ' ' !in value
    ensures var line := EntryLine(row, col, value);
      && Split(line[..|line| - 1], ' ') == [NatToString(row + 1), NatToString(col + 1), value]
      && (row + 1 <= U32_MAX ==> ParseU32(NatToString(row + 1)) == Some(row + 1))
      && (col + 1 <= U32_MAX ==> ParseU32(NatToString(col + 1)) == Some(col + 1))
  {
    EntryLineSplit(row, col, value);
    if row + 1 <= U32_MAX { ParseFormatU32(row + 1); }
    if col + 1 <= U32_MAX { ParseFormatU32(col + 1); }
  }

  /** An entry line without its newline splits on spaces into its three fields. */
  lemma EntryLineSplit(row: nat, col: nat, value: string)
    requires ' ' !in value
    ensures var line := EntryLine(row, col, value);
      Split(line[..|line| - 1], ' ') == [NatToString(row + 1), NatToString(col + 1), value]
  {
    var a := NatToString(row + 1);
    var b := NatToString(col + 1);
    var line := EntryLine(row, col, value);
    assert line[..|line| - 1] == a + [' '] + (b + [' '] + value);
    DigitsHaveNoSpace(a);
    DigitsHaveNoSpace(b);
    assert Split(b + [' '] + value, ' ') == [b, value] by {
      SplitCons(b, ' ', value);
      SplitNoSeparator(value, ' ');
    }
    SplitCons(a, ' ', b + [' '] + value);
  }

  lemma DigitsHaveNoSpace(s: string)
    requires AllDigits(s)
    ensures ' ' !in s
  {
  }
}
