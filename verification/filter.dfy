/**
 * The `filter` subcommand: keep the lines of a fragment file whose barcode
 * (fourth tab-separated field) is one of a given set of cell barcodes.
 */
module Filter {
  import opened Wrappers
  import opened Text
  import Barcodes

  /** `load_cells`: every line of the barcode file is a member of the set. */
  method LoadCells(lines: seq<string>) returns (cells: set<string>)
    ensures cells == Barcodes.LineSet(lines)
  {
    cells := {};
    var i := 0;
    while i < |lines|
      invariant i <= |lines|
      invariant cells == Barcodes.LineSet(lines[..i])
    {
      assert lines[..i + 1] == lines[..i] + [lines[i]];
      cells := cells + {lines[i]};
      i := i + 1;
    }
    assert lines[..i] == lines;
  }

  /**
   * The line a chunk of `read_line` is filtered as: a trailing '\n' is
   * removed, and then a trailing '\r', whether or not a '\n' preceded it.
   */
  function Strip(chunk: string): (line: string)
    ensures |line| <= |chunk| && line == chunk[..|line|]
    ensures |chunk| > 0 && '\n' !in chunk[..|chunk| - 1] ==> '\n' !in line
  {
    var s := if |chunk| > 0 && chunk[|chunk| - 1] == '\n' then chunk[..|chunk| - 1] else chunk;
    if |s| > 0 && s[|s| - 1] == '\r' then s[..|s| - 1] else s
  }

  /**
   * What stripping cuts off: a final "\r\n", else a final "\n", else a
   * final '\r', else nothing.
   */
  lemma StripCuts(chunk: string)
    ensures var line := Strip(chunk);
      && (EndsWith(chunk, "\r\n") ==> chunk[|line|..] == "\r\n")
      && (EndsWith(chunk, "\n") && !EndsWith(chunk, "\r\n") ==> chunk[|line|..] == "\n")
      && (EndsWith(chunk, "\r") ==> chunk[|line|..] == "\r")
      && (!EndsWith(chunk, "\n") && !EndsWith(chunk, "\r") ==> line == chunk)
      && chunk[|line|..] in {"", "\n", "\r", "\r\n"}
  {
    var s := if |chunk| > 0 && chunk[|chunk| - 1] == '\n' then chunk[..|chunk| - 1] else chunk;
    if |s| > 0 && s[|s| - 1] == '\r' {
      assert chunk[|s| - 1..] == if |s| < |chunk| then "\r\n" else "\r";
    } else {
      assert chunk[|s|..] == if |s| < |chunk| then "\n" else "";
    }
  }

  /** A line written with `writeln!` is stripped back to itself, unless it ends in '\r'. */
  lemma StripWritten(line: string)
    requires |line| == 0 || line[|line| - 1] != '\r'
    ensures Strip(line + "\n") == line
  {
    assert (line + "\n")[..|line|] == line;
  }

  /**
   * `Strip` and the `lines()` reader agree on every chunk that ends in
   * '\n', and differ on a last chunk that ends in '\r' alone.
   */
  lemma StripAndChomp(chunk: string)
    ensures |chunk| > 0 && chunk[|chunk| - 1] == '\n' ==> Strip(chunk) == Chomp(chunk)
    ensures Strip("a\r") == "a" && Chomp("a\r") == "a\r"
  {
    StripLoneReturn();
  }

  lemma StripLoneReturn()
    ensures Strip("a\r") == "a" && Chomp("a\r") == "a\r"
  {
    assert "a\r"[..1] == "a";
  }

  /** The filter's test on a stripped line: not a comment, and a fourth field naming a cell. */
  predicate Keeps(cells: set<string>, line: string) {
    && !StartsWith(line, '#')
    && var barcode := Field(line, '\t', 3);
       barcode.Some? && barcode.value in cells
  }

  /** The stripped lines the filter writes, in file order. */
  function Kept(cells: set<string>, chunks: seq<string>): (kept: seq<string>)
    ensures |kept| <= |chunks|
    ensures forall i :: 0 <= i < |kept| ==> Keeps(cells, kept[i])
  {
    if |chunks| == 0 then []
    else
      var line := Strip(chunks[|chunks| - 1]);
      Kept(cells, chunks[..|chunks| - 1]) + (if Keeps(cells, line) then [line] else [])
  }

  /** Exactly the lines that pass the test are kept. */
  lemma {:induction false} KeptIff(cells: set<string>, chunks: seq<string>, line: string)
    ensures line in Kept(cells, chunks) <==> Keeps(cells, line) && exists j :: 0 <= j < |chunks| && Strip(chunks[j]) == line
  {
    if |chunks| > 0 {
      var init := chunks[..|chunks| - 1];
      KeptIff(cells, init, line);
      if exists j :: 0 <= j < |chunks| && Strip(chunks[j]) == line {
        var j :| 0 <= j < |chunks| && Strip(chunks[j]) == line;
        if j < |chunks| - 1 {
          assert init[j] == chunks[j];
        }
      }
    }
  }

  /** The number of chunks that are not comment lines: `line_count` at the end. */
  function Processed(chunks: seq<string>): (n: nat)
    ensures n <= |chunks|
  {
    if |chunks| == 0 then 0
    else Processed(chunks[..|chunks| - 1]) + (if StartsWith(Strip(chunks[|chunks| - 1]), '#') then 0 else 1)
  }

  /** Every kept line was counted as processed. */
  lemma {:induction false} KeptProcessed(cells: set<string>, chunks: seq<string>)
    ensures |Kept(cells, chunks)| <= Processed(chunks)
  {
    if |chunks| > 0 {
      KeptProcessed(cells, chunks[..|chunks| - 1]);
    }
  }

  /** Each line terminated as `writeln!` terminates it. */
  function Terminated(lines: seq<string>): (rows: seq<string>)
    ensures |rows| == |lines|
  {
    seq(|lines|, i requires 0 <= i < |lines| => lines[i] + "\n")
  }

  /** The loop body: the output and count after one more chunk. */
  method FilterChunk(cells: set<string>, chunk: string, output: string, lineCount: nat)
    returns (output': string, lineCount': nat)
    ensures var line := Strip(chunk);
      && output' == output + (if Keeps(cells, line) then line + "\n" else "")
      && lineCount' == lineCount + (if StartsWith(line, '#') then 0 else 1)
  {
    var buffer := chunk;
    if |buffer| > 0 && buffer[|buffer| - 1] == '\n' {
      buffer := buffer[..|buffer| - 1];
    }
    if |buffer| > 0 && buffer[|buffer| - 1] == '\r' {
      buffer := buffer[..|buffer| - 1];
    }
    assert buffer == Strip(chunk);
    if StartsWith(buffer, '#') {
      return output, lineCount;
    }
    var barcode := Field(buffer, '\t', 3);
    output' := output;
    if barcode.Some? && barcode.value in cells {
      output' := output + (buffer + "\n");
    }
    lineCount' := lineCount + 1;
  }

  /**
   * `filter_fragments`: the `read_line` loop over the fragment file. The
   * output is the kept lines, each terminated by '\n'; the count is the
   * number of lines that are not comments.
   */
  method FilterFragments(cells: set<string>, text: string) returns (output: string, lineCount: nat)
    ensures output == Concat(Terminated(Kept(cells, ReadLines(text))))
    ensures lineCount == Processed(ReadLines(text))
  {
    var chunks := ReadLines(text);
    output := "";
    lineCount := 0;
    var i := 0;
    while i < |chunks|
      invariant i <= |chunks|
      invariant output == Concat(Terminated(Kept(cells, chunks[..i])))
      invariant lineCount == Processed(chunks[..i])
    {
      FilterStep(cells, chunks, i);
      output, lineCount := FilterChunk(cells, chunks[i], output, lineCount);
      i := i + 1;
    }
    assert chunks[..i] == chunks;
  }

  /** The specification functions after one more chunk. */
  lemma FilterStep(cells: set<string>, chunks: seq<string>, i: nat)
    requires i < |chunks|
    ensures var line := Strip(chunks[i]);
      && Concat(Terminated(Kept(cells, chunks[..i + 1])))
         == Concat(Terminated(Kept(cells, chunks[..i]))) + (if Keeps(cells, line) then line + "\n" else "")
      && Processed(chunks[..i + 1]) == Processed(chunks[..i]) + (if StartsWith(line, '#') then 0 else 1)
  {
    KeptStep(cells, chunks, i);
    assert chunks[..i + 1][..i] == chunks[..i];
  }

  /** The written output after one more chunk. */
  lemma KeptStep(cells: set<string>, chunks: seq<string>, i: nat)
    requires i < |chunks|
    ensures var line := Strip(chunks[i]);
      Concat(Terminated(Kept(cells, chunks[..i + 1])))
        == Concat(Terminated(Kept(cells, chunks[..i]))) + (if Keeps(cells, line) then line + "\n" else "")
  {
    var line := Strip(chunks[i]);
    var before := Kept(cells, chunks[..i]);
    assert chunks[..i + 1][..i] == chunks[..i];
    if Keeps(cells, line) {
      assert Kept(cells, chunks[..i + 1]) == before + [line];
      assert Terminated(before + [line]) == Terminated(before) + [line + "\n"];
      assert Terminated(before + [line])[..|before|] == Terminated(before);
    } else {
      assert Kept(cells, chunks[..i + 1]) == before;
    }
  }

  /** A kept line holds no line break when its chunk is one of the chunks of a text. */
  lemma KeptWhole(cells: set<string>, text: string)
    ensures WholeLines(Terminated(Kept(cells, ReadLines(text))))
  {
    var chunks := ReadLines(text);
    var kept := Kept(cells, chunks);
    forall i | 0 <= i < |kept| ensures '\n' !in kept[i] {
      KeptIff(cells, chunks, kept[i]);
    }
    var rows := Terminated(kept);
    forall i | 0 <= i < |rows| ensures rows[i][..|rows[i]| - 1] == kept[i] {
    }
  }

  /** The output reads back, chunk by chunk, as the kept lines each followed by '\n'. */
  lemma ReadFiltered(cells: set<string>, text: string)
    ensures ReadLines(Concat(Terminated(Kept(cells, ReadLines(text))))) == Terminated(Kept(cells, ReadLines(text)))
  {
    KeptWhole(cells, text);
    ReadLinesConcat(Terminated(Kept(cells, ReadLines(text))));
  }

  /** Lines that all pass the test, written and stripped again, are all kept. */
  lemma {:induction false} KeptOfTerminated(cells: set<string>, lines: seq<string>)
    requires forall i :: 0 <= i < |lines| ==> Rewritable(cells, lines[i])
    ensures Kept(cells, Terminated(lines)) == lines
  {
    if |lines| > 0 {
      var init := lines[..|lines| - 1];
      assert forall i :: 0 <= i < |init| ==> init[i] == lines[i];
      KeptOfTerminated(cells, init);
      KeptWrittenLast(cells, lines);
    }
  }

  /** A line that passes the test and, written and stripped again, comes back unchanged. */
  predicate Rewritable(cells: set<string>, line: string) {
    Keeps(cells, line) && (|line| == 0 || line[|line| - 1] != '\r')
  }

  /** When the lines before the last are kept again, so are all of them. */
  lemma KeptWrittenLast(cells: set<string>, lines: seq<string>)
    requires |lines| > 0 && Rewritable(cells, lines[|lines| - 1])
    requires Kept(cells, Terminated(lines[..|lines| - 1])) == lines[..|lines| - 1]
    ensures Kept(cells, Terminated(lines)) == lines
  {
    var n, last := |lines|, lines[|lines| - 1];
    var rows := Terminated(lines);
    TerminatedLast(lines);
    assert Strip(rows[n - 1]) == last by {
      StripWritten(last);
    }
    KeptLast(cells, rows);
    assert lines == lines[..n - 1] + [last];
  }

  /** Terminating all the lines but the last, and then the last. */
  lemma TerminatedLast(lines: seq<string>)
    requires |lines| > 0
    ensures var rows := Terminated(lines);
      rows[..|lines| - 1] == Terminated(lines[..|lines| - 1]) && rows[|lines| - 1] == lines[|lines| - 1] + "\n"
  {
  }

  /** Kept, unfolded once at the last chunk. */
  lemma KeptLast(cells: set<string>, chunks: seq<string>)
    requires |chunks| > 0
    ensures var line := Strip(chunks[|chunks| - 1]);
      Kept(cells, chunks) == Kept(cells, chunks[..|chunks| - 1]) + (if Keeps(cells, line) then [line] else [])
  {
  }

  /**
   * Filtering is idempotent: filtering the output again with the same cells
   * writes the same output, provided no kept line ends in '\r' (a line
   * ending in "\r\r\n" loses one more '\r' on each pass).
   */
  lemma FilterIdempotent(cells: set<string>, text: string)
    requires forall i :: 0 <= i < |Kept(cells, ReadLines(text))| ==>
      var line := Kept(cells, ReadLines(text))[i]; |line| == 0 || line[|line| - 1] != '\r'
    ensures var output := Concat(Terminated(Kept(cells, ReadLines(text))));
      Concat(Terminated(Kept(cells, ReadLines(output)))) == output
  {
    ReadFiltered(cells, text);
    KeptOfTerminated(cells, Kept(cells, ReadLines(text)));
  }
}
