/** The CSV reader of the quiz: `parseCSVLine` splits one line into trimmed
    fields, honouring double quotes and the `""` escape, and `parseCSV` splits
    a text into non-blank lines, picks the delimiter from the header line and
    splits every line. */
module Csv {
  import opened Text

  const QUOTE: char := '"'

  /** The splitter as a state machine over the rest `s` of the line: `inQuotes`
      is the quoting flag, `cur` the field being built, `out` the fields done. */
  function Scan(s: string, delim: char, inQuotes: bool, cur: string, out: seq<string>): seq<string>
    decreases |s|
  {
    if s == [] then out + [cur]
    else if s[0] == QUOTE then
      if inQuotes && |s| > 1 && s[1] == QUOTE then Scan(s[2..], delim, inQuotes, cur + [QUOTE], out)
      else Scan(s[1..], delim, !inQuotes, cur, out)
    else if !inQuotes && s[0] == delim then Scan(s[1..], delim, inQuotes, [], out + [cur])
    else Scan(s[1..], delim, inQuotes, cur + [s[0]], out)
  }

  /** The fields of `line` before trimming. */
  function RawFields(line: string, delim: char): seq<string> {
    Scan(line, delim, false, [], [])
  }

  function TrimAll(fields: seq<string>): (r: seq<string>)
    ensures |r| == |fields| && forall i :: 0 <= i < |r| ==> r[i] == Trim(fields[i])
  {
    seq(|fields|, i requires 0 <= i < |fields| => Trim(fields[i]))
  }

  /** `parseCSVLine(line, delim)`, character by character. */
  method ParseCsvLine(line: string, delim: char) returns (fields: seq<string>)
    ensures fields == TrimAll(RawFields(line, delim))
  {
    var out: seq<string> := [];
    var cur: string := [];
    var inQuotes := false;
    var i := 0;
    while i < |line|
      invariant 0 <= i <= |line|
      invariant Scan(line[i..], delim, inQuotes, cur, out) == RawFields(line, delim)
    {
      var ch := line[i];
      if ch == QUOTE {
        if inQuotes && i + 1 < |line| && line[i + 1] == QUOTE {
          cur := cur + [QUOTE];
          i := i + 1;
          assert line[i - 1..][2..] == line[i + 1..];
        } else {
          inQuotes := !inQuotes;
        }
        i := i + 1;
        continue;
      }
      if !inQuotes && ch == delim {
        out := out + [cur];
        cur := [];
        i := i + 1;
        continue;
      }
      cur := cur + [ch];
      i := i + 1;
    }
    out := out + [cur];
    fields := TrimAll(out);
  }

  // ---------------------------------------------------------------------------
  // How many fields: one more than the delimiters outside quotes.

  /** The delimiters of `s` that are preceded by an even number of quote
      characters (counting from a state where `inQuotes` says whether the
      number so far is odd). */
  function OutsideDelims(s: string, delim: char, inQuotes: bool): nat
    decreases |s|
  {
    if s == [] then 0
    else if s[0] == QUOTE then OutsideDelims(s[1..], delim, !inQuotes)
    else (if !inQuotes && s[0] == delim then 1 else 0) + OutsideDelims(s[1..], delim, inQuotes)
  }

  lemma {:induction false} ScanCount(s: string, delim: char, inQuotes: bool, cur: string, out: seq<string>)
    ensures |Scan(s, delim, inQuotes, cur, out)| == |out| + 1 + OutsideDelims(s, delim, inQuotes)
    decreases |s|
  {
    if s == [] {
    } else if s[0] == QUOTE {
      if inQuotes && |s| > 1 && s[1] == QUOTE {
        ScanCount(s[2..], delim, inQuotes, cur + [QUOTE], out);
        assert s[1..][1..] == s[2..];
      } else {
        ScanCount(s[1..], delim, !inQuotes, cur, out);
      }
    } else if !inQuotes && s[0] == delim {
      ScanCount(s[1..], delim, inQuotes, [], out + [cur]);
    } else {
      ScanCount(s[1..], delim, inQuotes, cur + [s[0]], out);
    }
  }

  /** A line has one field more than it has delimiters outside quotes. */
  lemma FieldCount(line: string, delim: char)
    ensures |TrimAll(RawFields(line, delim))| == 1 + OutsideDelims(line, delim, false)
  {
    ScanCount(line, delim, false, [], []);
  }

  // ---------------------------------------------------------------------------
  // Which characters end up in the fields.

  function Concat(fields: seq<string>): string {
    if fields == [] then [] else Concat(fields[..|fields| - 1]) + fields[|fields| - 1]
  }

  function DropQuotes(s: string): (r: string)
    ensures QUOTE !in r
  {
    if s == [] then [] else (if s[0] == QUOTE then [] else [s[0]]) + DropQuotes(s[1..])
  }

  function QuoteCount(s: string): nat {
    if s == [] then 0 else (if s[0] == QUOTE then 1 else 0) + QuoteCount(s[1..])
  }

  /** The characters of `s` that are neither quotes nor delimiters outside quotes. */
  function Content(s: string, delim: char, inQuotes: bool): string
    decreases |s|
  {
    if s == [] then []
    else if s[0] == QUOTE then Content(s[1..], delim, !inQuotes)
    else if !inQuotes && s[0] == delim then Content(s[1..], delim, inQuotes)
    else [s[0]] + Content(s[1..], delim, inQuotes)
  }

  lemma {:induction false} DropQuotesAppend(a: string, b: string)
    ensures DropQuotes(a + b) == DropQuotes(a) + DropQuotes(b)
    decreases |a|
  {
    if a == [] {
      assert a + b == b;
    } else {
      var head := if a[0] == QUOTE then [] else [a[0]];
      assert (a + b)[0] == a[0] && (a + b)[1..] == a[1..] + b;
      assert DropQuotes(a + b) == head + DropQuotes(a[1..] + b);
      DropQuotesAppend(a[1..], b);
      assert DropQuotes(a) == head + DropQuotes(a[1..]);
    }
  }

  lemma {:induction false} QuoteCountAppend(a: string, b: string)
    ensures QuoteCount(a + b) == QuoteCount(a) + QuoteCount(b)
    decreases |a|
  {
    if a == [] {
      assert a + b == b;
    } else {
      assert (a + b)[0] == a[0] && (a + b)[1..] == a[1..] + b;
      QuoteCountAppend(a[1..], b);
    }
  }

  lemma ConcatSnoc(fields: seq<string>, f: string)
    ensures Concat(fields + [f]) == Concat(fields) + f
  {
    assert (fields + [f])[..|fields|] == fields;
  }

  lemma DropQuotesSnoc(a: string, c: char)
    ensures DropQuotes(a + [c]) == if c == QUOTE then DropQuotes(a) else DropQuotes(a) + [c]
  {
    DropQuotesAppend(a, [c]);
    assert DropQuotes([c]) == if c == QUOTE then [] else [c];
  }

  lemma {:induction false} ScanContent(s: string, delim: char, inQuotes: bool, cur: string, out: seq<string>)
    ensures DropQuotes(Concat(Scan(s, delim, inQuotes, cur, out)))
         == DropQuotes(Concat(out) + cur) + Content(s, delim, inQuotes)
    decreases |s|
  {
    if s == [] {
      ConcatSnoc(out, cur);
    } else if s[0] == QUOTE && inQuotes && |s| > 1 && s[1] == QUOTE {
      ScanContent(s[2..], delim, inQuotes, cur + [QUOTE], out);
      assert s[1..][1..] == s[2..];
      assert Concat(out) + (cur + [QUOTE]) == Concat(out) + cur + [QUOTE];
      DropQuotesSnoc(Concat(out) + cur, QUOTE);
    } else if s[0] == QUOTE {
      ScanContent(s[1..], delim, !inQuotes, cur, out);
    } else if !inQuotes && s[0] == delim {
      ScanContent(s[1..], delim, inQuotes, [], out + [cur]);
      ConcatSnoc(out, cur);
      assert Concat(out + [cur]) + [] == Concat(out) + cur;
    } else {
      ScanContent(s[1..], delim, inQuotes, cur + [s[0]], out);
      assert Concat(out) + (cur + [s[0]]) == Concat(out) + cur + [s[0]];
      DropQuotesSnoc(Concat(out) + cur, s[0]);
    }
  }

  lemma {:induction false} ScanQuotes(s: string, delim: char, inQuotes: bool, cur: string, out: seq<string>)
    ensures 2 * QuoteCount(Concat(Scan(s, delim, inQuotes, cur, out)))
         <= 2 * QuoteCount(Concat(out) + cur) + QuoteCount(s)
    decreases |s|
  {
    if s == [] {
      ConcatSnoc(out, cur);
    } else if s[0] == QUOTE {
      if inQuotes && |s| > 1 && s[1] == QUOTE {
        ScanQuotes(s[2..], delim, inQuotes, cur + [QUOTE], out);
        assert s[1..][1..] == s[2..];
        assert Concat(out) + (cur + [QUOTE]) == (Concat(out) + cur) + [QUOTE];
        QuoteCountAppend(Concat(out) + cur, [QUOTE]);
        assert QuoteCount(s) == 2 + QuoteCount(s[2..]);
      } else {
        ScanQuotes(s[1..], delim, !inQuotes, cur, out);
      }
    } else if !inQuotes && s[0] == delim {
      ScanQuotes(s[1..], delim, inQuotes, [], out + [cur]);
      ConcatSnoc(out, cur);
      assert Concat(out + [cur]) + [] == Concat(out) + cur;
    } else {
      ScanQuotes(s[1..], delim, inQuotes, cur + [s[0]], out);
      assert Concat(out) + (cur + [s[0]]) == (Concat(out) + cur) + [s[0]];
      QuoteCountAppend(Concat(out) + cur, [s[0]]);
    }
  }

  /** Apart from quote characters, the raw fields hold exactly the characters
      of the line other than the splitting delimiters, in order; and a quote
      reaches a field only from a `""` pair, so at most half of the line's
      quotes survive. */
  lemma FieldCharacters(line: string, delim: char)
    ensures DropQuotes(Concat(RawFields(line, delim))) == Content(line, delim, false)
    ensures 2 * QuoteCount(Concat(RawFields(line, delim))) <= QuoteCount(line)
  {
    ScanContent(line, delim, false, [], []);
    ScanQuotes(line, delim, false, [], []);
  }

  // ---------------------------------------------------------------------------
  // Round trips.

  /** A field written inside quotes, with every quote doubled. */
  function Escape(f: string): string {
    if f == [] then [] else (if f[0] == QUOTE then [QUOTE, QUOTE] else [f[0]]) + Escape(f[1..])
  }

  function Quoted(f: string): string {
    [QUOTE] + Escape(f) + [QUOTE]
  }

  /** Fields written as quoted fields separated by `delim`. */
  function JoinQuoted(fields: seq<string>, delim: char): string
    requires |fields| > 0
  {
    if |fields| == 1 then Quoted(fields[0])
    else Quoted(fields[0]) + [delim] + JoinQuoted(fields[1..], delim)
  }

  /** Fields written as they are, separated by `delim`. */
  function Join(fields: seq<string>, delim: char): string
    requires |fields| > 0
  {
    if |fields| == 1 then fields[0] else fields[0] + [delim] + Join(fields[1..], delim)
  }

  lemma {:induction false} ScanEscaped(f: string, rest: string, delim: char, cur: string, out: seq<string>)
    requires rest == [] || rest[0] != QUOTE
    ensures Scan(Escape(f) + [QUOTE] + rest, delim, true, cur, out) == Scan(rest, delim, false, cur + f, out)
    decreases |f|
  {
    var s := Escape(f) + [QUOTE] + rest;
    if f == [] {
      assert s == [QUOTE] + rest;
      assert s[1..] == rest;
      assert cur + f == cur;
    } else if f[0] == QUOTE {
      assert s == [QUOTE, QUOTE] + (Escape(f[1..]) + [QUOTE] + rest);
      assert s[2..] == Escape(f[1..]) + [QUOTE] + rest;
      ScanEscaped(f[1..], rest, delim, cur + [QUOTE], out);
      assert cur + [QUOTE] + f[1..] == cur + f;
    } else {
      assert s == [f[0]] + (Escape(f[1..]) + [QUOTE] + rest);
      assert s[1..] == Escape(f[1..]) + [QUOTE] + rest;
      ScanEscaped(f[1..], rest, delim, cur + [f[0]], out);
      assert cur + [f[0]] + f[1..] == cur + f;
    }
  }

  lemma {:induction false} ScanJoinQuoted(fields: seq<string>, delim: char, out: seq<string>)
    requires |fields| > 0 && delim != QUOTE
    ensures Scan(JoinQuoted(fields, delim), delim, false, [], out) == out + fields
    decreases |fields|
  {
    var f := fields[0];
    if |fields| == 1 {
      var s := Quoted(f);
      assert s[1..] == Escape(f) + [QUOTE] + [];
      ScanEscaped(f, [], delim, [], out);
      assert [] + f == f;
      assert fields == [f];
    } else {
      var tail := JoinQuoted(fields[1..], delim);
      var s := Quoted(f) + [delim] + tail;
      assert s[1..] == Escape(f) + [QUOTE] + ([delim] + tail);
      ScanEscaped(f, [delim] + tail, delim, [], out);
      assert ([delim] + tail)[1..] == tail;
      ScanJoinQuoted(fields[1..], delim, out + [[] + f]);
      assert [] + f == f;
      assert out + [f] + fields[1..] == out + fields;
    }
  }

  /** Quoting every field, doubling its quotes and joining with the delimiter
      gives a line that splits back into exactly those fields. */
  lemma QuotedRoundTrip(fields: seq<string>, delim: char)
    requires |fields| > 0 && delim != QUOTE
    ensures RawFields(JoinQuoted(fields, delim), delim) == fields
    ensures TrimAll(RawFields(JoinQuoted(fields, delim), delim)) == TrimAll(fields)
  {
    ScanJoinQuoted(fields, delim, []);
  }

  lemma {:induction false} ScanPlain(f: string, rest: string, delim: char, cur: string, out: seq<string>)
    requires QUOTE !in f && delim !in f
    ensures Scan(f + rest, delim, false, cur, out) == Scan(rest, delim, false, cur + f, out)
    decreases |f|
  {
    if f != [] {
      assert (f + rest)[0] == f[0];
      assert (f + rest)[1..] == f[1..] + rest;
      ScanPlain(f[1..], rest, delim, cur + [f[0]], out);
      assert cur + [f[0]] + f[1..] == cur + f;
    } else {
      assert f + rest == rest;
      assert cur + f == cur;
    }
  }

  lemma {:induction false} ScanJoin(fields: seq<string>, delim: char, out: seq<string>)
    requires |fields| > 0 && delim != QUOTE
    requires forall i :: 0 <= i < |fields| ==> QUOTE !in fields[i] && delim !in fields[i]
    ensures Scan(Join(fields, delim), delim, false, [], out) == out + fields
    decreases |fields|
  {
    var f := fields[0];
    if |fields| == 1 {
      ScanPlain(f, [], delim, [], out);
      assert f + [] == f;
      assert [] + f == f;
      assert fields == [f];
    } else {
      var tail := Join(fields[1..], delim);
      assert Join(fields, delim) == f + ([delim] + tail);
      ScanPlain(f, [delim] + tail, delim, [], out);
      assert ([delim] + tail)[1..] == tail;
      assert [] + f == f;
      ScanJoin(fields[1..], delim, out + [f]);
      assert out + [f] + fields[1..] == out + fields;
    }
  }

  /** Fields free of quotes and of the delimiter, joined with the delimiter,
      split back into themselves. */
  lemma PlainRoundTrip(fields: seq<string>, delim: char)
    requires |fields| > 0 && delim != QUOTE
    requires forall i :: 0 <= i < |fields| ==> QUOTE !in fields[i] && delim !in fields[i]
    ensures RawFields(Join(fields, delim), delim) == fields
  {
    ScanJoin(fields, delim, []);
  }

  // ---------------------------------------------------------------------------
  // Lines of a text.

  /** Every carriage return followed by a line feed becomes one line feed. */
  function ReplaceCrLf(s: string): string
    decreases |s|
  {
    if s == [] then []
    else if |s| > 1 && s[0] == '\r' && s[1] == '\n' then "\n" + ReplaceCrLf(s[2..])
    else [s[0]] + ReplaceCrLf(s[1..])
  }

  /** Every remaining carriage return becomes a line feed. */
  function ReplaceCr(s: string): (r: string)
    ensures |r| == |s| && '\r' !in r
  {
    if s == [] then [] else (if s[0] == '\r' then "\n" else [s[0]]) + ReplaceCr(s[1..])
  }

  /** Splitting on line feeds: the pieces between them, one more than there
      are line feeds. */
  function SplitLines(s: string): (r: seq<string>)
    ensures |r| >= 1
    ensures forall i :: 0 <= i < |r| ==> '\n' !in r[i]
    ensures forall i :: 0 <= i < |r| ==> '\r' !in s ==> '\r' !in r[i]
  {
    if s == [] then [[]]
    else
      var rest := SplitLines(s[1..]);
      if s[0] == '\n' then [[]] + rest else [[s[0]] + rest[0]] + rest[1..]
  }

  /** Splitting on line feeds and joining with them again gives the text back. */
  lemma {:induction false} SplitLinesJoin(s: string)
    ensures Join(SplitLines(s), '\n') == s
    decreases |s|
  {
    if s != [] {
      SplitLinesJoin(s[1..]);
      var rest := SplitLines(s[1..]);
      if s[0] == '\n' {
        assert SplitLines(s)[1..] == rest;
        assert s == [] + ['\n'] + s[1..];
      } else {
        var r := SplitLines(s);
        assert r[0] == [s[0]] + rest[0];
        if |rest| == 1 {
          assert s == [s[0]] + rest[0];
        } else {
          assert r[1..] == rest[1..];
          assert Join(rest, '\n') == rest[0] + ['\n'] + Join(rest[1..], '\n');
          assert s == [s[0]] + s[1..];
        }
      }
    }
  }

  /** The lines that are not empty once trimmed, in their order. */
  function NonBlank(lines: seq<string>): (r: seq<string>)
    ensures |r| <= |lines|
    ensures forall i :: 0 <= i < |r| ==> Trim(r[i]) != [] && r[i] in lines
    ensures forall i :: 0 <= i < |lines| && Trim(lines[i]) != [] ==> lines[i] in r
  {
    if lines == [] then []
    else
      var rest := NonBlank(lines[1..]);
      assert forall l :: l in lines[1..] ==> l in lines;
      if Trim(lines[0]) != [] then [lines[0]] + rest else rest
  }

  /** Filtering keeps the order: the filtered lines of `a + b` are those of
      `a` followed by those of `b`. */
  lemma {:induction false} NonBlankConcat(a: seq<string>, b: seq<string>)
    ensures NonBlank(a + b) == NonBlank(a) + NonBlank(b)
    decreases |a|
  {
    if a != [] {
      var ab := a + b;
      assert ab != [] && ab[0] == a[0] && ab[1..] == a[1..] + b;
      NonBlankConcat(a[1..], b);
    } else {
      assert a + b == b;
    }
  }

  /** When the lines before `k` are blank and line `k` is not, line `k` is
      the first one kept. */
  lemma {:induction false} NonBlankFirstAt(lines: seq<string>, k: nat)
    requires k < |lines| && Trim(lines[k]) != []
    requires forall j :: 0 <= j < k ==> Trim(lines[j]) == []
    ensures NonBlank(lines) != [] && NonBlank(lines)[0] == lines[k]
    decreases k
  {
    if k > 0 {
      assert Trim(lines[0]) == [];
      assert forall j :: 0 <= j < k - 1 ==> lines[1..][j] == lines[j + 1];
      NonBlankFirstAt(lines[1..], k - 1);
    }
  }

  /** The first filtered line is the first line that is not blank, and none
      is left exactly when every line is blank. */
  lemma NonBlankFirst(lines: seq<string>)
    ensures NonBlank(lines) == [] <==> forall i :: 0 <= i < |lines| ==> Trim(lines[i]) == []
    ensures forall k :: 0 <= k < |lines| && Trim(lines[k]) != [] && (forall j :: 0 <= j < k ==> Trim(lines[j]) == []) ==>
      NonBlank(lines) != [] && NonBlank(lines)[0] == lines[k]
  {
    forall k | 0 <= k < |lines| && Trim(lines[k]) != [] && (forall j :: 0 <= j < k ==> Trim(lines[j]) == [])
      ensures NonBlank(lines) != [] && NonBlank(lines)[0] == lines[k]
    {
      NonBlankFirstAt(lines, k);
    }
  }

  /** The non-blank lines of a text, after `\r\n` and lone `\r` became `\n`. */
  function Lines(text: string): (r: seq<string>)
    ensures forall i :: 0 <= i < |r| ==> !IsBlank(r[i]) && '\n' !in r[i] && '\r' !in r[i]
  {
    var r := NonBlank(SplitLines(ReplaceCr(ReplaceCrLf(text))));
    forall i | 0 <= i < |r| ensures !IsBlank(r[i]) { TrimEmptyIffBlank(r[i]); }
    r
  }

  /** What `parseCSV` returns: `[]` when the text has no non-blank line,
      `{rows, delim}` otherwise. */
  datatype ParsedCsv = NoLines | Table(rows: seq<seq<string>>, delim: char)

  /** The delimiter is `;` when the header line contains one, `,` otherwise. */
  function DelimiterOf(header: string): (d: char)
    ensures d == ';' <==> ';' in header
    ensures d != QUOTE
  {
    if ';' in header then ';' else ','
  }

  /** The loop of `parseCSV` that splits every line with the same delimiter. */
  method ParseRows(lines: seq<string>, delim: char) returns (rows: seq<seq<string>>)
    ensures |rows| == |lines|
    ensures forall i :: 0 <= i < |rows| ==> rows[i] == TrimAll(RawFields(lines[i], delim))
  {
    rows := [];
    for k := 0 to |lines|
      invariant |rows| == k
      invariant forall i :: 0 <= i < k ==> rows[i] == TrimAll(RawFields(lines[i], delim))
    {
      var fields := ParseCsvLine(lines[k], delim);
      rows := rows + [fields];
    }
  }

  /** `parseCSV(text)`. */
  method ParseCsv(text: string) returns (r: ParsedCsv)
    ensures r.NoLines? <==> Lines(text) == []
    ensures r.Table? ==> r.delim == DelimiterOf(Lines(text)[0])
    ensures r.Table? ==> |r.rows| == |Lines(text)|
    ensures r.Table? ==> forall i :: 0 <= i < |r.rows| ==> r.rows[i] == TrimAll(RawFields(Lines(text)[i], r.delim))
  {
    var lines := Lines(text);
    if |lines| == 0 {
      return NoLines;
    }
    var delim := DelimiterOf(lines[0]);
    var rows := ParseRows(lines, delim);
    r := Table(rows, delim);
  }
}
