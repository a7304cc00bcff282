/** The optional value used by every parser, and the outcome of an operation that can fail. */
module Wrappers {
  datatype Option<+T> = None | Some(value: T)

  datatype Result<+T, +E> = Ok(value: T) | Err(error: E)
}

/**
 * Line-level text operations of the Rust standard library as the program uses
 * them: `str::split(char)`, `str::starts_with(char)`, `str::trim`, `u32::from_str`,
 * `f32::from_str` (decimal subset) and decimal formatting of unsigned integers.
 */
module Text {
  import opened Wrappers

  /** Largest value of a Rust `u32`. */
  const U32_MAX: nat := 0xFFFF_FFFF

  // ---------------------------------------------------------------------------
  // Splitting on a separator

  /**
   * `s.split(sep).collect()`: k separators give k + 1 fields, and the empty
   * string gives one empty field.
   */
  function Split(s: string, sep: char): (fields: seq<string>)
    ensures |fields| >= 1
    ensures forall i :: 0 <= i < |fields| ==> sep !in fields[i]
    decreases |s|
  {
    if |s| == 0 then [""]
    else
      var rest := Split(s[1..], sep);
      if s[0] == sep then [""] + rest
      else [[s[0]] + rest[0]] + rest[1..]
  }

  /** The inverse of `Split`: the fields glued back with the separator. */
  function Join(fields: seq<string>, sep: char): string
    requires |fields| >= 1
  {
    if |fields| == 1 then fields[0] else fields[0] + [sep] + Join(fields[1..], sep)
  }

  /** Splitting loses nothing: joining the fields gives back the line. */
  lemma {:induction false} JoinSplit(s: string, sep: char)
    ensures Join(Split(s, sep), sep) == s
    decreases |s|
  {
    if |s| > 0 {
      var rest := Split(s[1..], sep);
      JoinSplit(s[1..], sep);
      if s[0] == sep {
        assert Split(s, sep)[1..] == rest;
      } else {
        var r := Split(s, sep);
        if |rest| == 1 {
          assert r == [[s[0]] + rest[0]];
        } else {
          assert r[1..] == rest[1..];
          assert Join(rest, sep) == rest[0] + [sep] + Join(rest[1..], sep);
        }
      }
    }
  }

  /** A piece without the separator is one field. */
  lemma {:induction false} SplitNoSeparator(a: string, sep: char)
    requires sep !in a
    ensures Split(a, sep) == [a]
    decreases |a|
  {
    if |a| > 0 {
      assert sep !in a[1..];
      SplitNoSeparator(a[1..], sep);
      assert [a[0]] + a[1..] == a;
    }
  }

  /** A separator-free piece followed by the separator is the first field. */
  lemma {:induction false} SplitCons(a: string, sep: char, t: string)
    requires sep !in a
    ensures Split(a + [sep] + t, sep) == [a] + Split(t, sep)
    decreases |a|
  {
    if |a| == 0 {
      assert a + [sep] + t == [sep] + t;
      assert ([sep] + t)[1..] == t;
    } else {
      assert (a + [sep] + t)[1..] == a[1..] + [sep] + t;
      assert sep !in a[1..];
      SplitCons(a[1..], sep, t);
      assert [a[0]] + a[1..] == a;
    }
  }

  /** Joining separator-free fields and splitting again gives the fields back. */
  lemma {:induction false} SplitJoin(fields: seq<string>, sep: char)
    requires |fields| >= 1
    requires forall i :: 0 <= i < |fields| ==> sep !in fields[i]
    ensures Split(Join(fields, sep), sep) == fields
    decreases |fields|
  {
    if |fields| == 1 {
      SplitNoSeparator(fields[0], sep);
    } else {
      SplitJoin(fields[1..], sep);
      SplitCons(fields[0], sep, Join(fields[1..], sep));
      assert [fields[0]] + fields[1..] == fields;
    }
  }

  /** `fields.get(i)` / `split(sep).nth(i)`. */
  function Field(s: string, sep: char, i: nat): (r: Option<string>)
    ensures r.Some? <==> i < |Split(s, sep)|
    ensures r.Some? ==> r.value == Split(s, sep)[i] && sep !in r.value
  {
    var fields := Split(s, sep);
    if i < |fields| then Some(fields[i]) else None
  }

  /** `s.starts_with(c)`. */
  predicate StartsWith(s: string, c: char) {
    |s| > 0 && s[0] == c
  }

  /** `s.ends_with(suffix)`. */
  predicate EndsWith(s: string, suffix: string) {
    |suffix| <= |s| && s[|s| - |suffix|..] == suffix
  }

  // ---------------------------------------------------------------------------
  // Reading lines

  /** The strings glued together in order. */
  function Concat(chunks: seq<string>): string {
    if |chunks| == 0 then "" else Concat(chunks[..|chunks| - 1]) + chunks[|chunks| - 1]
  }

  /**
   * The successive results of `read_line` on a text: each chunk runs up to
   * and including the next '\n'; the last chunk lacks it when the text does
   * not end with one. The empty read that ends the loop is not a chunk.
   */
  function ReadLines(text: string): (chunks: seq<string>)
    ensures forall i :: 0 <= i < |chunks| ==> |chunks[i]| > 0
    ensures forall i :: 0 <= i < |chunks| - 1 ==> chunks[i][|chunks[i]| - 1] == '\n'
    ensures forall i :: 0 <= i < |chunks| ==> '\n' !in chunks[i][..|chunks[i]| - 1]
    decreases |text|
  {
    if |text| == 0 then []
    else if '\n' in text then
      var k := IndexOf(text, '\n');
      var head := text[..k + 1];
      assert head[..|head| - 1] == text[..k];
      [head] + ReadLines(text[k + 1..])
    else [text]
  }

  lemma {:induction false} ConcatCons(c: string, chunks: seq<string>)
    ensures Concat([c] + chunks) == c + Concat(chunks)
    decreases |chunks|
  {
    if |chunks| == 0 {
      assert [c] + chunks == [c];
      assert [c][..0] == [];
    } else {
      var init := chunks[..|chunks| - 1];
      assert ([c] + chunks)[..|chunks|] == [c] + init;
      ConcatCons(c, init);
    }
  }

  /** Reading line by line loses nothing: the chunks glued together are the text. */
  lemma {:induction false} ConcatReadLines(text: string)
    ensures Concat(ReadLines(text)) == text
    decreases |text|
  {
    if |text| > 0 {
      if '\n' in text {
        var k := IndexOf(text, '\n');
        ReadLinesFirst(text);
        ConcatReadLines(text[k + 1..]);
        ConcatFirst(text, ReadLines(text), k, ReadLines(text[k + 1..]));
      } else {
        ConcatSingle(text);
      }
    }
  }

  /** Gluing the first chunk to the glued rest gives back the text. */
  lemma ConcatFirst(text: string, chunks: seq<string>, k: nat, rest: seq<string>)
    requires k < |text| && chunks == [text[..k + 1]] + rest && Concat(rest) == text[k + 1..]
    ensures Concat(chunks) == text
  {
    ConcatCons(text[..k + 1], rest);
    assert text[..k + 1] + text[k + 1..] == text;
  }

  /** A text holding a '\n' is read as the chunk up to it, then the chunks of the rest. */
  lemma ReadLinesFirst(text: string)
    requires '\n' in text
    ensures var k := IndexOf(text, '\n'); ReadLines(text) == [text[..k + 1]] + ReadLines(text[k + 1..])
  {
  }

  /** A non-empty text without a '\n' is read as one chunk. */
  lemma ConcatSingle(text: string)
    requires |text| > 0 && '\n' !in text
    ensures Concat(ReadLines(text)) == text
  {
    assert ReadLines(text) == [text];
    assert [text][..0] == [];
    assert Concat([text]) == Concat([]) + text;
  }

  /** Chunks that are whole lines: non-empty, ending in '\n' and holding no other '\n'. */
  predicate WholeLines(rows: seq<string>) {
    forall i :: 0 <= i < |rows| ==> |rows[i]| > 0 && rows[i][|rows[i]| - 1] == '\n' && '\n' !in rows[i][..|rows[i]| - 1]
  }

  /** Whole lines written one after another are read back as those lines. */
  lemma {:induction false} ReadLinesConcat(rows: seq<string>)
    requires WholeLines(rows)
    ensures ReadLines(Concat(rows)) == rows
    decreases |rows|
  {
    if |rows| > 0 {
      var head := rows[0];
      var n := |head|;
      var rest := Concat(rows[1..]);
      assert rows == [head] + rows[1..];
      ConcatCons(head, rows[1..]);
      var text := head + rest;
      assert text[n - 1] == '\n';
      var k := IndexOf(text, '\n');
      assert k == n - 1 by {
        assert text[..n - 1] == head[..n - 1];
      }
      assert text[..k + 1] == head && text[k + 1..] == rest;
      ReadLinesConcat(rows[1..]);
    } else {
      assert Concat(rows) == "";
    }
  }

  /**
   * One line as `BufRead::lines` yields it: the '\n' that ends the chunk is
   * dropped, and then a '\r' before it.
   */
  function Chomp(chunk: string): (line: string)
    ensures |line| <= |chunk| && line == chunk[..|line|]
    ensures EndsWith(chunk, "\r\n") ==> chunk[|line|..] == "\r\n"
    ensures EndsWith(chunk, "\n") && !EndsWith(chunk, "\r\n") ==> chunk[|line|..] == "\n"
    ensures !EndsWith(chunk, "\n") ==> line == chunk
    ensures |chunk| > 0 && '\n' !in chunk[..|chunk| - 1] ==> '\n' !in line
  {
    if |chunk| > 0 && chunk[|chunk| - 1] == '\n' then
      var s := chunk[..|chunk| - 1];
      if |s| > 0 && s[|s| - 1] == '\r' then
        assert chunk[|s| - 1..] == "\r\n";
        s[..|s| - 1]
      else
        assert chunk[|s|..] == "\n";
        s
    else chunk
  }

  /** `reader.lines()` on a text. */
  function Lines(text: string): (lines: seq<string>)
    ensures |lines| == |ReadLines(text)|
    ensures forall i :: 0 <= i < |lines| ==> lines[i] == Chomp(ReadLines(text)[i]) && '\n' !in lines[i]
  {
    var chunks := ReadLines(text);
    seq(|chunks|, i requires 0 <= i < |chunks| => Chomp(chunks[i]))
  }

  /** A line written with `writeln!` or `"...\n"` comes back from `lines()` unchanged, unless it ends in '\r'. */
  lemma ChompLine(s: string)
    requires |s| == 0 || s[|s| - 1] != '\r'
    ensures Chomp(s + "\n") == s
  {
    assert (s + "\n")[..|s|] == s;
  }

  // ---------------------------------------------------------------------------
  // Unsigned integers

  predicate IsDigit(c: char) {
    '0' <= c <= '9'
  }

  predicate AllDigits(s: string) {
    forall i :: 0 <= i < |s| ==> IsDigit(s[i])
  }

  function DigitValue(c: char): nat
    requires IsDigit(c)
  {
    c as int - '0' as int
  }

  /** The value of a string of decimal digits, read left to right. */
  function DigitsValue(s: string): nat
    requires AllDigits(s)
  {
    if |s| == 0 then 0 else DigitsValue(s[..|s| - 1]) * 10 + DigitValue(s[|s| - 1])
  }

  /**
   * `s.parse::<u32>()`: an optional `+`, then one or more ASCII digits whose
   * value fits in 32 bits. No sign `-`, no whitespace, no empty digit string.
   */
  function ParseU32(s: string): (r: Option<nat>)
    ensures var digits := if |s| > 0 && s[0] == '+' then s[1..] else s;
      && (r.Some? <==> |digits| > 0 && AllDigits(digits) && DigitsValue(digits) <= U32_MAX)
      && (r.Some? ==> r.value == DigitsValue(digits))
    ensures r.Some? ==> r.value <= U32_MAX && |s| > 0
  {
    var digits := if |s| > 0 && s[0] == '+' then s[1..] else s;
    if |digits| == 0 || !AllDigits(digits) then None
    else if DigitsValue(digits) > U32_MAX then None
    else Some(DigitsValue(digits))
  }

  function DigitChar(d: nat): (c: char)
    requires d < 10
    ensures IsDigit(c) && DigitValue(c) == d
  {
    ['0', '1', '2', '3', '4', '5', '6', '7', '8', '9'][d]
  }

  /** Decimal formatting of a `usize`/`u32` with `{}`: no sign, no leading zero. */
  function NatToString(n: nat): (s: string)
    ensures |s| >= 1 && AllDigits(s)
    ensures DigitsValue(s) == n
    ensures |s| > 1 ==> s[0] != '0'
  {
    if n < 10 then [DigitChar(n)]
    else
      var p := NatToString(n / 10);
      var s := p + [DigitChar(n % 10)];
      assert s[..|s| - 1] == p;
      s
  }

  /** What `{}` prints for a u32 is read back by `parse::<u32>()`. */
  lemma ParseFormatU32(n: nat)
    requires n <= U32_MAX
    ensures ParseU32(NatToString(n)) == Some(n)
  {
    var s := NatToString(n);
    assert s[0] != '+' by { assert IsDigit(s[0]); }
  }

  /** Decimal formatting is injective, so labels and matrix lines keep numbers apart. */
  lemma NatToStringInjective(m: nat, n: nat)
    requires NatToString(m) == NatToString(n)
    ensures m == n
  {
  }

  // ---------------------------------------------------------------------------
  // Whitespace trimming

  /** Unicode `White_Space`, the set that `str::trim` removes. */
  predicate IsWhitespace(c: char) {
    c == ' ' || ('\t' <= c <= '\r') || c == '\U{85}' || c == '\U{A0}' || c == '\U{1680}'
    || ('\U{2000}' <= c <= '\U{200A}') || c == '\U{2028}' || c == '\U{2029}'
    || c == '\U{202F}' || c == '\U{205F}' || c == '\U{3000}'
  }

  predicate AllWhitespace(w: string) {
    forall k :: 0 <= k < |w| ==> IsWhitespace(w[k])
  }

  function TrimStart(s: string): (r: string)
    ensures |r| <= |s| && r == s[|s| - |r|..]
    ensures |r| > 0 ==> !IsWhitespace(r[0])
    ensures AllWhitespace(s[..|s| - |r|])
  {
    if |s| > 0 && IsWhitespace(s[0]) then
      var r := TrimStart(s[1..]);
      assert s[..|s| - |r|] == [s[0]] + s[1..][..|s[1..]| - |r|];
      r
    else s
  }

  function TrimEnd(s: string): (r: string)
    ensures |r| <= |s| && r == s[..|r|]
    ensures |r| > 0 ==> !IsWhitespace(r[|r| - 1])
    ensures AllWhitespace(s[|r|..])
  {
    if |s| > 0 && IsWhitespace(s[|s| - 1]) then
      var r := TrimEnd(s[..|s| - 1]);
      assert s[|r|..] == s[..|s| - 1][|r|..] + [s[|s| - 1]];
      r
    else s
  }

  /** `s.trim()`: the string with the white space at both ends cut; it has none at either end. */
  function Trim(s: string): (r: string)
    ensures |r| <= |s|
    ensures |r| > 0 ==> !IsWhitespace(r[0]) && !IsWhitespace(r[|r| - 1])
  {
    TrimEnd(TrimStart(s))
  }

  /** What `trim()` keeps is one contiguous piece of the string, starting where the leading white space ends. */
  lemma TrimKeepsInfix(s: string)
    ensures |s| - |TrimStart(s)| + |Trim(s)| <= |s|
    ensures forall k :: 0 <= k < |Trim(s)| ==> Trim(s)[k] == s[|s| - |TrimStart(s)| + k]
  {
    var t := TrimStart(s);
    var r := TrimEnd(t);
    TrimInfix(s, t, r);
  }

  /** Everything `trim()` cuts, before and after the piece it keeps, is white space. */
  lemma TrimCutsWhitespace(s: string)
    ensures AllWhitespace(s[..|s| - |TrimStart(s)|])
    ensures |s| - |TrimStart(s)| + |Trim(s)| <= |s| && AllWhitespace(s[|s| - |TrimStart(s)| + |Trim(s)|..])
  {
    var t := TrimStart(s);
    var r := TrimEnd(t);
    TrimInfix(s, t, r);
  }

  /** Cutting white space from the front, then from the back, leaves an infix with white space around it. */
  lemma TrimInfix(s: string, t: string, r: string)
    requires |t| <= |s| && t == s[|s| - |t|..]
    requires |r| <= |t| && r == t[..|r|] && AllWhitespace(t[|r|..])
    ensures var i := |s| - |t|;
      && i + |r| <= |s|
      && (forall k :: 0 <= k < |r| ==> r[k] == s[i + k])
      && AllWhitespace(s[i + |r|..])
  {
    var i := |s| - |t|;
    assert s[i + |r|..] == t[|r|..];
  }

  /** A string of digits passes through `trim` unchanged. */
  lemma TrimDigits(s: string)
    requires AllDigits(s)
    ensures Trim(s) == s
  {
    if |s| > 0 {
      DigitIsNotWhitespace(s[0]);
      DigitIsNotWhitespace(s[|s| - 1]);
      TrimStartKeeps(s);
      TrimEndKeeps(s);
    }
  }

  lemma DigitIsNotWhitespace(c: char)
    requires IsDigit(c)
    ensures !IsWhitespace(c)
  {
  }

  lemma TrimStartKeeps(s: string)
    requires |s| > 0 && !IsWhitespace(s[0])
    ensures TrimStart(s) == s
  {
  }

  lemma TrimEndKeeps(s: string)
    requires |s| > 0 && !IsWhitespace(s[|s| - 1])
    ensures TrimEnd(s) == s
  {
  }

  // ---------------------------------------------------------------------------
  // Decimal reals

  function Pow10(n: nat): (p: nat)
    ensures p >= 1
  {
    if n == 0 then 1 else 10 * Pow10(n - 1)
  }

  /**
   * The finite forms of `s.parse::<f32>()`: an optional sign, a mantissa of
   * digits with at most one `.` and at least one digit (`1`, `1.`, `.5`),
   * then optionally `e` or `E` and an exponent (`2.5E1`, `1e-3`). The value
   * is the exact rational, not its f32 rounding.
   */
  function ParseDecimal(s: string): (r: Option<real>)
    ensures r.Some? ==> |s| > 0
  {
    var neg := |s| > 0 && s[0] == '-';
    var body := if |s| > 0 && (s[0] == '+' || s[0] == '-') then s[1..] else s;
    var mark := ExponentMark(body);
    var mantissa := ParseMantissa(body[..mark]);
    var exponent := if mark < |body| then ParseExponent(body[mark + 1..]) else Some(0);
    if mantissa.None? || exponent.None? then None
    else
      var mag := Scale(mantissa.value, exponent.value);
      Some(if neg then -mag else mag)
  }

  /** The position of the first `e` or `E`, or the length when there is none. */
  function ExponentMark(s: string): (i: nat)
    ensures i <= |s|
    ensures forall j :: 0 <= j < i ==> s[j] != 'e' && s[j] != 'E'
    ensures i < |s| ==> s[i] == 'e' || s[i] == 'E'
  {
    if |s| == 0 || s[0] == 'e' || s[0] == 'E' then 0 else 1 + ExponentMark(s[1..])
  }

  /** Digits with at most one `.` and at least one digit: the mantissa's value. */
  function ParseMantissa(s: string): (r: Option<real>)
    ensures r.Some? ==> |s| > 0
  {
    var dot := if '.' in s then IndexOf(s, '.') else |s|;
    var intPart := s[..dot];
    var fracPart := if dot < |s| then s[dot + 1..] else "";
    if |intPart| + |fracPart| == 0 || !AllDigits(intPart) || !AllDigits(fracPart) then None
    else Some(DigitsValue(intPart) as real + FracValue(fracPart))
  }

  /** The value 0.f1f2... of the digits after the decimal point. */
  function FracValue(f: string): real
    requires AllDigits(f)
  {
    if |f| == 0 then 0.0 else (DigitValue(f[0]) as real + FracValue(f[1..])) / 10.0
  }

  /** An optional sign and one or more digits: the exponent's value. */
  function ParseExponent(s: string): (r: Option<int>)
    ensures r.Some? ==> |s| > 0
  {
    var neg := |s| > 0 && s[0] == '-';
    var digits := if |s| > 0 && (s[0] == '+' || s[0] == '-') then s[1..] else s;
    if |digits| == 0 || !AllDigits(digits) then None
    else
      var v: int := DigitsValue(digits);
      Some(if neg then -v else v)
  }

  /** m times ten to the power e, one factor of ten at a time. */
  function Scale(m: real, e: int): real
    decreases if e < 0 then -e else e
  {
    if e == 0 then m else if e > 0 then 10.0 * Scale(m, e - 1) else Scale(m, e + 1) / 10.0
  }

  /** Scaling by a non-negative exponent multiplies by 10^e. */
  lemma {:induction false} ScaleUp(m: real, e: nat)
    ensures Scale(m, e) == m * Pow10(e) as real
  {
    if e > 0 {
      ScaleUp(m, e - 1);
      assert Pow10(e) as real == 10.0 * Pow10(e - 1) as real;
    }
  }

  /** Scaling by a negative exponent -k divides by 10^k. */
  lemma {:induction false} ScaleDown(m: real, k: nat)
    ensures Scale(m, -(k as int)) == m / Pow10(k) as real
  {
    if k > 0 {
      ScaleDown(m, k - 1);
      var p := Pow10(k - 1) as real;
      assert Pow10(k) as real == 10.0 * p;
      assert (m / p) / 10.0 == m / (10.0 * p);
    }
  }

  /** Position of the first occurrence of `c` in `s`. */
  function IndexOf(s: string, c: char): (i: nat)
    requires c in s
    ensures i < |s| && s[i] == c && c !in s[..i]
  {
    if s[0] == c then 0 else 1 + IndexOf(s[1..], c)
  }

  /** A string of digits is read as a mantissa with that value. */
  lemma ParseMantissaOfDigits(s: string)
    requires |s| > 0 && AllDigits(s)
    ensures ParseMantissa(s) == Some(DigitsValue(s) as real)
  {
    assert '.' !in s by {
      forall i | 0 <= i < |s| ensures s[i] != '.' { assert IsDigit(s[i]); }
    }
    assert s[..|s|] == s;
    assert AllDigits("") && DigitsValue("") == 0 && FracValue("") == 0.0;
  }

  /** A string of digits has no exponent mark. */
  lemma {:induction false} DigitsHaveNoMark(s: string)
    requires AllDigits(s)
    ensures ExponentMark(s) == |s|
  {
    if |s| > 0 {
      assert IsDigit(s[0]);
      DigitsHaveNoMark(s[1..]);
    }
  }

  /** Every decimal integer is read back as that number. */
  lemma ParseDecimalOfNat(n: nat)
    ensures ParseDecimal(NatToString(n)) == Some(n as real)
  {
    var s := NatToString(n);
    assert s[0] != '+' && s[0] != '-' by { assert IsDigit(s[0]); }
    DigitsHaveNoMark(s);
    assert s[..|s|] == s;
    ParseMantissaOfDigits(s);
    assert Scale(n as real, 0) == n as real;
  }

  /** A decimal fraction `d.f` (`1.`, `.5` and `2.25` included) is read as d + 0.f. */
  lemma ParseDecimalFraction(ds: string, fs: string)
    requires AllDigits(ds) && AllDigits(fs) && |ds| + |fs| > 0
    ensures ParseDecimal(ds + "." + fs) == Some(DigitsValue(ds) as real + FracValue(fs))
  {
    var s := ds + "." + fs;
    FractionHasNoMark(ds, fs);
    MantissaFraction(ds, fs);
    assert s[0] != '+' && s[0] != '-' by {
      if |ds| > 0 { assert s[0] == ds[0] && IsDigit(ds[0]); }
    }
    ParseDecimalUnsigned(s);
  }

  /** A fraction of digit strings has no exponent mark. */
  lemma FractionHasNoMark(ds: string, fs: string)
    requires AllDigits(ds) && AllDigits(fs)
    ensures ExponentMark(ds + "." + fs) == |ds + "." + fs|
  {
    var s := ds + "." + fs;
    if ExponentMark(s) < |s| {
      assert false;
    }
  }

  /** A fraction of digit strings is read as a mantissa with that value. */
  lemma MantissaFraction(ds: string, fs: string)
    requires AllDigits(ds) && AllDigits(fs) && |ds| + |fs| > 0
    ensures ParseMantissa(ds + "." + fs) == Some(DigitsValue(ds) as real + FracValue(fs))
  {
    var s := ds + "." + fs;
    DotOfFraction(ds, fs);
    MantissaParts(s, ds, fs);
  }

  /** The first `.` of a fraction of digit strings is the one after the integer digits. */
  lemma DotOfFraction(ds: string, fs: string)
    requires AllDigits(ds)
    ensures '.' in ds + "." + fs && IndexOf(ds + "." + fs, '.') == |ds|
  {
    var s := ds + "." + fs;
    assert s[|ds|] == '.';
    var dot := IndexOf(s, '.');
    if dot < |ds| {
      assert false;
    }
    if dot > |ds| {
      assert false;
    }
  }

  /** A mantissa split at its first `.` is read from its two digit strings. */
  lemma MantissaParts(s: string, ds: string, fs: string)
    requires '.' in s && IndexOf(s, '.') == |ds| && s[..|ds|] == ds && s[|ds| + 1..] == fs
    requires AllDigits(ds) && AllDigits(fs) && |ds| + |fs| > 0
    ensures ParseMantissa(s) == Some(DigitsValue(ds) as real + FracValue(fs))
  {
    var dot := IndexOf(s, '.');
    assert dot < |s|;
    var fracPart := if dot < |s| then s[dot + 1..] else "";
    assert s[..dot] == ds && fracPart == fs;
  }

  /** Without a sign or an exponent, a number is read as its mantissa. */
  lemma ParseDecimalUnsigned(s: string)
    requires 0 < |s| && s[0] != '+' && s[0] != '-' && ExponentMark(s) == |s|
    ensures ParseDecimal(s) == ParseMantissa(s)
  {
    assert s[..|s|] == s;
    if ParseMantissa(s).Some? {
      assert Scale(ParseMantissa(s).value, 0) == ParseMantissa(s).value;
    }
  }

  /** A number whose first character after the sign is a letter other than `e` is not read. */
  lemma ParseDecimalLetter(s: string, body: string)
    requires body == if |s| > 0 && (s[0] == '+' || s[0] == '-') then s[1..] else s
    requires |body| > 0 && !IsDigit(body[0]) && body[0] != '.' && body[0] != 'e' && body[0] != 'E'
    ensures ParseDecimal(s).None?
  {
    var mark := ExponentMark(body);
    var m := body[..mark];
    assert m[0] == body[0];
    if '.' in m {
      var dot := IndexOf(m, '.');
      assert m[..dot][0] == body[0];
    }
  }

  /**
   * The non-finite forms `f32` also accepts (`inf`, `infinity`, `nan`, in any
   * case and with a sign) are not read as numbers.
   */
  lemma ParseDecimalRejectsNonFinite()
    ensures ParseDecimal("inf").None? && ParseDecimal("-infinity").None? && ParseDecimal("NaN").None?
  {
    ParseDecimalLetter("inf", "inf");
    ParseDecimalLetter("-infinity", "infinity");
    ParseDecimalLetter("NaN", "NaN");
  }

  /**
   * Scientific notation is read as the mantissa scaled by the power of ten:
   * `de+k` and `dEk` as d * 10^k, `de-k` as d / 10^k, for digit strings d, k.
   */
  lemma ParseDecimalScientific(ds: string, mark: char, sign: string, ks: string)
    requires |ds| > 0 && AllDigits(ds) && |ks| > 0 && AllDigits(ks)
    requires mark == 'e' || mark == 'E'
    requires sign == "" || sign == "+" || sign == "-"
    ensures ParseDecimal(ds + [mark] + sign + ks)
         == Some(Scale(DigitsValue(ds) as real, if sign == "-" then -(DigitsValue(ks) as int) else DigitsValue(ks)))
  {
    var tail := sign + ks;
    var s := ds + [mark] + sign + ks;
    assert s == ds + [mark] + tail;
    assert s[0] == ds[0] && IsDigit(ds[0]);
    MarkAfterDigits(ds, mark, tail);
    ParseMantissaOfDigits(ds);
    ParseExponentOf(ks, sign);
    ParseDecimalParts(s, ds, tail);
  }

  /** An unsigned number is its mantissa scaled by its exponent, when both parse. */
  lemma ParseDecimalParts(s: string, mantissa: string, exponent: string)
    requires 0 < |s| && s[0] != '+' && s[0] != '-'
    requires ExponentMark(s) == |mantissa| < |s| && s[..|mantissa|] == mantissa && s[|mantissa| + 1..] == exponent
    requires ParseMantissa(mantissa).Some? && ParseExponent(exponent).Some?
    ensures ParseDecimal(s) == Some(Scale(ParseMantissa(mantissa).value, ParseExponent(exponent).value))
  {
  }

  /** The exponent mark after a string of digits is found right after them. */
  lemma MarkAfterDigits(ds: string, mark: char, tail: string)
    requires AllDigits(ds) && (mark == 'e' || mark == 'E')
    ensures var s := ds + [mark] + tail;
      ExponentMark(s) == |ds| && s[..|ds|] == ds && s[|ds| + 1..] == tail
  {
    var s := ds + [mark] + tail;
    DigitsHaveNoMark(ds);
    assert forall j :: 0 <= j < |ds| ==> s[j] == ds[j];
    assert s[|ds|] == mark;
    assert s[..|ds|] == ds;
    assert s[|ds| + 1..] == tail;
  }

  /** A signed decimal exponent is read as that integer. */
  lemma ParseExponentOf(ks: string, sign: string)
    requires |ks| > 0 && AllDigits(ks)
    requires sign == "" || sign == "+" || sign == "-"
    ensures ParseExponent(sign + ks) == Some(if sign == "-" then -(DigitsValue(ks) as int) else DigitsValue(ks))
  {
    if sign == "" {
      assert sign + ks == ks;
      ParseExponentDigits(ks);
    } else {
      assert sign == [sign[0]];
      ParseExponentSign(ks, sign[0]);
    }
  }

  lemma ParseExponentDigits(ks: string)
    requires |ks| > 0 && AllDigits(ks)
    ensures ParseExponent(ks) == Some(DigitsValue(ks) as int)
  {
    assert IsDigit(ks[0]);
  }

  lemma ParseExponentSign(ks: string, c: char)
    requires |ks| > 0 && AllDigits(ks) && (c == '+' || c == '-')
    ensures ParseExponent([c] + ks) == Some(if c == '-' then -(DigitsValue(ks) as int) else DigitsValue(ks))
  {
    var e := [c] + ks;
    assert e[0] == c && e[1..] == ks;
  }
}
