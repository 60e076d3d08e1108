/**
 * `parse_topaz_coordinates`: reads one combined coordinate export, skips its
 * header line, and copies every data row into `<title>.txt` of the output
 * directory. A new output file is opened with mode "w" (truncating it) each
 * time a row's title differs from the previous row's title; the directory is
 * modelled as a map from title to the text the file ends up holding.
 */
module TopazSplitter {
  import opened Wrappers
  import Text

  /** The tab-separated fields of one line; field 0 is the title. */
  type Row = seq<string>

  /** Output directory: title |-> contents of `<title>.txt`. */
  type Directory = map<string, string>

  /** Written first into every freshly opened output file. */
  const Header: string := "x_coord\ty_coord\tscore\n"

  /** What one data row contributes: fields 1, 2 and 3 joined by tabs, with no newline added. */
  function Payload(fields: Row): string
    requires |fields| >= 4
  {
    fields[1] + "\t" + fields[2] + "\t" + fields[3]
  }

  /** Split on tabs again, a payload gives back the three fields it was made of. */
  lemma PayloadSplitsBack(fields: Row)
    requires |fields| >= 4 && Text.SeparatorFree(fields[1..4], '\t')
    ensures Text.Split(Payload(fields), '\t') == fields[1..4]
  {
    ThreeFieldsJoin(fields[1..4]);
    Text.SplitJoin(fields[1..4], '\t');
  }

  /** Three fields joined by tabs. */
  lemma ThreeFieldsJoin(parts: seq<string>)
    requires |parts| == 3
    ensures Text.Join(parts, '\t') == parts[0] + "\t" + parts[1] + "\t" + parts[2]
  {
    assert parts[1..][1..] == [parts[2]];
    assert Text.Join(parts[1..], '\t') == parts[1] + "\t" + parts[2];
  }

  /** Every row has the title field that `split` always yields. */
  predicate Titled(rows: seq<Row>) {
    forall i :: 0 <= i < |rows| ==> |rows[i]| >= 1
  }

  /** Every row has the four fields the write reads. */
  predicate Complete(rows: seq<Row>) {
    forall i :: 0 <= i < |rows| ==> |rows[i]| >= 4
  }

  /** The input on which the splitter runs to the end. */
  predicate WellFormed(rows: seq<Row>) {
    && Titled(rows)
    && Complete(rows)
    && (|rows| > 0 ==> rows[0][0] != "")
  }

  /** Every file in the directory starts with the fixed header. */
  predicate HeadersWritten(files: Directory) {
    forall t :: t in files ==> Header <= files[t]
  }

  /**
   * The loop state: the title of the open file (`current_title`), whether a
   * file is open (`o` is not None) and the directory written so far.
   */
  datatype Writer = Writer(current: string, open: bool, files: Directory) {
    predicate Valid() {
      && (open ==> current in files)
      && HeadersWritten(files)
    }
  }

  /** Before the first data row: empty title, no file open, nothing written. */
  const Initial: Writer := Writer("", false, map[])

  /**
   * The uncaught exceptions the loop can raise.
   * NoOpenFile: `o.write` on None, when the first data row's title is empty.
   * MissingField: `line[1..3]` out of range on data row `row`; `written` is
   * the directory as the crash leaves it.
   */
  datatype SplitError = NoOpenFile | MissingField(row: nat, written: Directory)

  /** One iteration of the loop over data row number `i`. */
  function Step(w: Writer, fields: Row, i: nat): (r: Result<Writer, SplitError>)
    requires w.Valid() && |fields| >= 1
    ensures r.Success? <==> |fields| >= 4 && (fields[0] != w.current || w.open)
    ensures r == Failure(NoOpenFile) <==> fields[0] == w.current && !w.open
    ensures r.Success? ==>
      && r.value.Valid() && r.value.open && r.value.current == fields[0]
      && r.value.files.Keys == w.files.Keys + {fields[0]}
      && (forall t :: t in w.files && t != fields[0] ==> r.value.files[t] == w.files[t])
    // a different title truncates its file; the same title appends
    ensures r.Success? && fields[0] != w.current ==>
      r.value.files[fields[0]] == Header + Payload(fields)
    ensures r.Success? && fields[0] == w.current ==>
      r.value.files[fields[0]] == w.files[fields[0]] + Payload(fields)
    ensures r.Failure? && r.error.MissingField? ==>
      && r.error.row == i && |fields| < 4 && HeadersWritten(r.error.written)
      && (fields[0] != w.current ==> r.error.written == w.files[fields[0] := Header])
      && (fields[0] == w.current ==> r.error.written == w.files)
  {
    var title := fields[0];
    if title != w.current then
      var truncated := w.files[title := Header];
      if |fields| < 4 then Failure(MissingField(i, truncated))
      else Success(Writer(title, true, truncated[title := Header + Payload(fields)]))
    else if !w.open then
      Failure(NoOpenFile)
    else if |fields| < 4 then
      Failure(MissingField(i, w.files))
    else
      Success(Writer(title, true, w.files[title := w.files[title] + Payload(fields)]))
  }

  /** Index of the first row with fewer than four fields. */
  predicate FirstIncomplete(rows: seq<Row>, i: nat) {
    && i < |rows| && |rows[i]| < 4
    && forall j :: 0 <= j < i ==> |rows[j]| >= 4
  }

  /** The loop over all data rows. */
  function SplitRows(rows: seq<Row>): (r: Result<Writer, SplitError>)
    requires Titled(rows)
    ensures r.Success? <==> WellFormed(rows)
    ensures r == Failure(NoOpenFile) <==> |rows| > 0 && rows[0][0] == ""
    ensures r.Failure? && r.error.MissingField? ==>
      FirstIncomplete(rows, r.error.row) && HeadersWritten(r.error.written)
    ensures r.Success? ==>
      && r.value.Valid()
      && (r.value.open <==> |rows| > 0)
      && (|rows| > 0 ==> r.value.current == rows[|rows| - 1][0])
  {
    if rows == [] then Success(Initial)
    else
      var prefix := rows[..|rows| - 1];
      assert forall j :: 0 <= j < |prefix| ==> prefix[j] == rows[j];
      var w :- SplitRows(prefix);
      Step(w, rows[|rows| - 1], |rows| - 1)
  }

  // ---------------------------------------------------------------------
  // Reference description of the result, independent of the loop.

  /** The last row before `n` whose title is `t`, or -1 if there is none. */
  function LastOccurrence(rows: seq<Row>, t: string, n: nat): (r: int)
    requires Titled(rows) && n <= |rows|
    ensures -1 <= r < n
    ensures r >= 0 ==> rows[r][0] == t
    ensures forall j :: r < j < n ==> rows[j][0] != t
  {
    if n == 0 then -1
    else if rows[n - 1][0] == t then n - 1
    else LastOccurrence(rows, t, n - 1)
  }

  /** The first row of the contiguous run of equal titles that contains row `j`. */
  function RunStart(rows: seq<Row>, j: nat): (s: nat)
    requires Titled(rows) && j < |rows|
    ensures s <= j
    ensures forall m :: s <= m <= j ==> rows[m][0] == rows[j][0]
    ensures s == 0 || rows[s - 1][0] != rows[j][0]
  {
    if j == 0 || rows[j - 1][0] != rows[j][0] then j
    else RunStart(rows, j - 1)
  }

  /** The payloads of consecutive rows, in input order. */
  function Payloads(rows: seq<Row>): string
    requires Complete(rows)
  {
    if rows == [] then ""
    else
      assert Complete(rows[..|rows| - 1]);
      Payloads(rows[..|rows| - 1]) + Payload(rows[|rows| - 1])
  }

  /**
   * What the first `n` rows leave behind for title `t`: a file exactly when
   * the title was seen, holding the header and then the payloads of the
   * title's LAST contiguous run.
   */
  ghost predicate DescribesTitle(files: Directory, rows: seq<Row>, n: nat, t: string)
    requires Titled(rows) && Complete(rows) && n <= |rows|
  {
    var last := LastOccurrence(rows, t, n);
    && (t in files <==> last >= 0)
    && (t in files ==> files[t] == Header + Payloads(rows[RunStart(rows, last)..last + 1]))
  }

  /** `files` is what the first `n` rows leave behind, for every title. */
  ghost predicate Describes(files: Directory, rows: seq<Row>, n: nat)
    requires Titled(rows) && Complete(rows) && n <= |rows|
  {
    forall t :: DescribesTitle(files, rows, n, t)
  }

  /** The payloads of a run grow by one row at a time. */
  lemma PayloadsExtend(rows: seq<Row>, s: nat, e: nat)
    requires Complete(rows) && s <= e < |rows|
    ensures Payloads(rows[s..e + 1]) == Payloads(rows[s..e]) + Payload(rows[e])
  {
    assert rows[s..e + 1][..e - s] == rows[s..e];
  }

  /** Appending row `n - 1` to the open file of the same title, seen from title `t`. */
  lemma AppendTitle(files: Directory, rows: seq<Row>, n: nat, t: string)
    requires Titled(rows) && Complete(rows) && 1 < n <= |rows|
    requires DescribesTitle(files, rows, n - 1, t)
    requires rows[n - 1][0] == rows[n - 2][0] && rows[n - 1][0] in files
    ensures var u := rows[n - 1][0];
      DescribesTitle(files[u := files[u] + Payload(rows[n - 1])], rows, n, t)
  {
    var u := rows[n - 1][0];
    if t == u {
      AppendSameTitle(files, rows, n);
    } else {
      assert LastOccurrence(rows, t, n) == LastOccurrence(rows, t, n - 1);
    }
  }

  /** Appending row `n - 1` extends its title's last run by that row. */
  lemma AppendSameTitle(files: Directory, rows: seq<Row>, n: nat)
    requires Titled(rows) && Complete(rows) && 1 < n <= |rows|
    requires rows[n - 1][0] == rows[n - 2][0]
    requires DescribesTitle(files, rows, n - 1, rows[n - 1][0])
    ensures var u := rows[n - 1][0];
      u in files && DescribesTitle(files[u := files[u] + Payload(rows[n - 1])], rows, n, u)
  {
    var u := rows[n - 1][0];
    assert LastOccurrence(rows, u, n - 1) == n - 2;
    assert LastOccurrence(rows, u, n) == n - 1;
    var s := RunStart(rows, n - 2);
    assert RunStart(rows, n - 1) == s;
    assert files[u] == Header + Payloads(rows[s..n - 1]);
    PayloadsExtend(rows, s, n - 1);
  }

  /** Reopening the file of row `n - 1`'s title, seen from title `t`. */
  lemma ReopenTitle(files: Directory, rows: seq<Row>, n: nat, t: string)
    requires Titled(rows) && Complete(rows) && 0 < n <= |rows|
    requires DescribesTitle(files, rows, n - 1, t)
    requires n == 1 || rows[n - 1][0] != rows[n - 2][0]
    ensures var u := rows[n - 1][0];
      DescribesTitle(files[u := Header + Payload(rows[n - 1])], rows, n, t)
  {
    var u := rows[n - 1][0];
    if t == u {
      assert LastOccurrence(rows, t, n) == n - 1;
      assert RunStart(rows, n - 1) == n - 1;
      assert rows[n - 1..n] == [rows[n - 1]];
      assert Payloads([rows[n - 1]]) == Payloads([]) + Payload(rows[n - 1]);
    } else {
      assert LastOccurrence(rows, t, n) == LastOccurrence(rows, t, n - 1);
    }
  }

  /** The row that continues the open file appends to the description of its title. */
  lemma AppendDescribed(files: Directory, rows: seq<Row>, n: nat)
    requires Titled(rows) && Complete(rows) && 1 < n <= |rows|
    requires Describes(files, rows, n - 1)
    requires rows[n - 1][0] == rows[n - 2][0]
    ensures var u := rows[n - 1][0];
      u in files && Describes(files[u := files[u] + Payload(rows[n - 1])], rows, n)
  {
    var u := rows[n - 1][0];
    assert DescribesTitle(files, rows, n - 1, u);
    assert LastOccurrence(rows, u, n - 1) == n - 2;
    var files' := files[u := files[u] + Payload(rows[n - 1])];
    forall t ensures DescribesTitle(files', rows, n, t) {
      assert DescribesTitle(files, rows, n - 1, t);
      AppendTitle(files, rows, n, t);
    }
  }

  /** The row that starts a new run opens a file holding only its own payload. */
  lemma ReopenDescribed(files: Directory, rows: seq<Row>, n: nat)
    requires Titled(rows) && Complete(rows) && 0 < n <= |rows|
    requires Describes(files, rows, n - 1)
    requires n == 1 || rows[n - 1][0] != rows[n - 2][0]
    ensures var u := rows[n - 1][0];
      Describes(files[u := Header + Payload(rows[n - 1])], rows, n)
  {
    var u := rows[n - 1][0];
    var files' := files[u := Header + Payload(rows[n - 1])];
    forall t ensures DescribesTitle(files', rows, n, t) {
      assert DescribesTitle(files, rows, n - 1, t);
      ReopenTitle(files, rows, n, t);
    }
  }

  /** The splitter's directory after `n` rows is the reference description. */
  lemma {:induction false} SplitRowsDescribes(rows: seq<Row>, n: nat)
    requires WellFormed(rows) && n <= |rows|
    ensures SplitRows(rows[..n]).Success?
    ensures Describes(SplitRows(rows[..n]).value.files, rows, n)
  {
    assert WellFormed(rows[..n]);
    if n == 0 {
      assert rows[..0] == [];
    } else {
      SplitRowsDescribes(rows, n - 1);
      assert rows[..n][..n - 1] == rows[..n - 1];
      var w := SplitRows(rows[..n - 1]).value;
      var fields := rows[n - 1];
      assert SplitRows(rows[..n]) == Step(w, fields, n - 1);
      assert n > 1 ==> w.current == rows[n - 2][0];
      if fields[0] != w.current {
        assert w.files[fields[0] := Header][fields[0] := Header + Payload(fields)]
            == w.files[fields[0] := Header + Payload(fields)];
        ReopenDescribed(w.files, rows, n);
      } else {
        AppendDescribed(w.files, rows, n);
      }
    }
  }

  /**
   * The whole splitter on well-formed rows: it succeeds, every title seen has a
   * file, and that file holds the header plus the payloads of the title's last run.
   */
  lemma SplitRowsContents(rows: seq<Row>)
    requires WellFormed(rows)
    ensures SplitRows(rows).Success?
    ensures Describes(SplitRows(rows).value.files, rows, |rows|)
  {
    SplitRowsDescribes(rows, |rows|);
    assert rows[..|rows|] == rows;
  }

  /** One file per distinct title of the input. */
  lemma SplitRowsKeys(rows: seq<Row>)
    requires WellFormed(rows)
    ensures SplitRows(rows).Success?
    ensures SplitRows(rows).value.files.Keys == set i | 0 <= i < |rows| :: rows[i][0]
  {
    SplitRowsContents(rows);
    var files := SplitRows(rows).value.files;
    forall t ensures t in files <==> exists i :: 0 <= i < |rows| && rows[i][0] == t {
      assert DescribesTitle(files, rows, |rows|, t);
    }
  }

  /** The file of title `t` alone, as the reference description gives it. */
  lemma SplitRowsFile(rows: seq<Row>, t: string)
    requires WellFormed(rows)
    ensures SplitRows(rows).Success?
    ensures DescribesTitle(SplitRows(rows).value.files, rows, |rows|, t)
  {
    SplitRowsContents(rows);
  }

  /** A title that reappears after a different title loses its earlier run: the reopen truncated it. */
  lemma EarlierRunDiscarded(rows: seq<Row>, i: nat, k: nat, j: nat)
    requires Titled(rows) && i < k < j < |rows|
    requires rows[i][0] == rows[j][0] && rows[k][0] != rows[i][0]
    ensures RunStart(rows, LastOccurrence(rows, rows[i][0], |rows|)) > k
  {
    var last := LastOccurrence(rows, rows[i][0], |rows|);
    assert last >= j;
  }

  // ---------------------------------------------------------------------
  // The file as text.

  /** The lines after the header that `f.readline()` consumed. */
  function DataLines(text: string): (ls: seq<string>)
    ensures Text.LineShaped(ls)
  {
    var all := Text.Lines(text);
    if all == [] then [] else all[1..]
  }

  /** Each data line split on tabs. */
  function DataRows(text: string): (rows: seq<Row>)
    ensures Titled(rows)
  {
    var ls := DataLines(text);
    seq(|ls|, i requires 0 <= i < |ls| => Text.Split(ls[i], '\t'))
  }

  /** `parse_topaz_coordinates` on the export's text: the directory it writes, or the exception it raises. */
  function ParseTopaz(text: string): (r: Result<Directory, SplitError>)
    ensures r.Success? <==> WellFormed(DataRows(text))
    ensures r.Success? ==> HeadersWritten(r.value)
  {
    var w :- SplitRows(DataRows(text));
    Success(w.files)
  }

  /** The first line is consumed as a header: whatever it says, the result is the same. */
  lemma HeaderIgnored(h1: string, h2: string, body: string)
    requires Text.IsLine(h1) && Text.IsTerminated(h1)
    requires Text.IsLine(h2) && Text.IsTerminated(h2)
    ensures ParseTopaz(h1 + body) == ParseTopaz(h2 + body)
  {
    Text.LinesAfterLine(h1, body);
    Text.LinesAfterLine(h2, body);
    assert DataLines(h1 + body) == DataLines(h2 + body);
  }

  /**
   * An export made of a header line and then data lines: the rows are exactly
   * the data lines split on tabs, and the directory written is the last-run
   * description of those rows.
   */
  lemma ParseTopazText(h: string, lines: seq<string>)
    requires Text.IsLine(h) && Text.IsTerminated(h) && Text.LineShaped(lines)
    ensures var rows := seq(|lines|, i requires 0 <= i < |lines| => Text.Split(lines[i], '\t'));
      && DataRows(h + Text.Concat(lines)) == rows
      && (ParseTopaz(h + Text.Concat(lines)).Success? <==> WellFormed(rows))
      && (WellFormed(rows) ==> Describes(ParseTopaz(h + Text.Concat(lines)).value, rows, |rows|))
  {
    var rows := seq(|lines|, i requires 0 <= i < |lines| => Text.Split(lines[i], '\t'));
    Text.LinesAfterLine(h, Text.Concat(lines));
    Text.LinesConcat(lines);
    if WellFormed(rows) {
      SplitRowsContents(rows);
    }
  }

  /** The text of a line after its title and the tab that ends the title. */
  function AfterTitle(line: string): string
    requires |Text.Split(line, '\t')| >= 2
  {
    var f := Text.Split(line, '\t');
    assert line == f[0] + "\t" + Text.Join(f[1..], '\t');
    line[|f[0]| + 1..]
  }

  /** After the title comes the rest of the fields, joined by tabs again. */
  lemma AfterTitleIsJoin(line: string)
    requires |Text.Split(line, '\t')| >= 2
    ensures AfterTitle(line) == Text.Join(Text.Split(line, '\t')[1..], '\t')
  {
    var f := Text.Split(line, '\t');
    assert line == f[0] + "\t" + Text.Join(f[1..], '\t');
  }

  /** Fields 1 to 3 joined by tabs begin the join of fields 1 onwards. */
  lemma PayloadStartsJoin(f: Row)
    requires |f| >= 4
    ensures var tail := Text.Join(f[3..], '\t');
      && Text.Join(f[1..], '\t') == Payload(f) + tail[|f[3]|..]
      && (|f| == 4 ==> tail == f[3])
      && (|f| > 4 ==> |tail| > |f[3]|)
  {
    var tail := Text.Join(f[3..], '\t');
    assert f[1..][1..] == f[2..] && f[2..][1..] == f[3..];
    assert Text.Join(f[1..], '\t') == f[1] + "\t" + Text.Join(f[2..], '\t');
    assert Text.Join(f[2..], '\t') == f[2] + "\t" + tail;
    if |f| > 4 {
      assert tail == f[3] + "\t" + Text.Join(f[4..], '\t');
    }
    assert tail[..|f[3]|] == f[3];
    assert f[3] + tail[|f[3]|..] == tail;
  }

  /**
   * A row contributes the line's text after the title, but only when it has
   * exactly four fields; with more, the payload stops at field 3 and any
   * terminating newline (carried by the last field) is lost.
   */
  lemma PayloadOfLine(line: string)
    requires |Text.Split(line, '\t')| >= 4
    ensures var f := Text.Split(line, '\t');
      && Payload(f) <= AfterTitle(line)
      && (|f| == 4 ==> Payload(f) == AfterTitle(line))
      && (|f| > 4 ==> |Payload(f)| < |AfterTitle(line)|)
      && (|f| > 4 && Text.IsLine(line) ==> '\n' !in Payload(f))
  {
    var f := Text.Split(line, '\t');
    AfterTitleIsJoin(line);
    PayloadStartsJoin(f);
    if |f| > 4 && Text.IsLine(line) {
      PayloadBeforeLineEnd(line);
    }
  }

  /** With more than four fields the payload ends before the line's last character. */
  lemma PayloadBeforeLineEnd(line: string)
    requires |Text.Split(line, '\t')| > 4 && Text.IsLine(line)
    ensures '\n' !in Payload(Text.Split(line, '\t'))
  {
    var f := Text.Split(line, '\t');
    var p := Payload(f);
    var rest := AfterTitle(line);
    var start := |f[0]| + 1;
    AfterTitleIsJoin(line);
    PayloadStartsJoin(f);
    assert p == rest[..|p|];
    assert |p| < |rest|;
    forall k | 0 <= k < |p| ensures p[k] != '\n' {
      assert p[k] == line[start + k];
      assert start + k < |line| - 1;
    }
  }

  /** A single row contributes its payload. */
  lemma PayloadsOne(r: Row)
    requires |r| >= 4
    ensures Payloads([r]) == Payload(r)
  {
    assert Payloads([r]) == Payloads([]) + Payload(r);
  }

  /** Two rows contribute their payloads in order. */
  lemma PayloadsTwo(r1: Row, r2: Row)
    requires |r1| >= 4 && |r2| >= 4
    ensures Payloads([r1, r2]) == Payload(r1) + Payload(r2)
  {
    assert [r1, r2][..1] == [r1];
    PayloadsOne(r1);
  }

  /** Titles a, b, a: the second run of a truncates the first, so only the third row survives in a's file. */
  lemma ReopenExample(r1: Row, r2: Row, r3: Row)
    requires |r1| >= 4 && |r2| >= 4 && |r3| >= 4
    requires r1[0] == r3[0] != r2[0] && r1[0] != ""
    ensures var rows := [r1, r2, r3];
      && SplitRows(rows).Success?
      && SplitRows(rows).value.files.Keys == {r1[0], r2[0]}
      && SplitRows(rows).value.files[r1[0]] == Header + Payload(r3)
      && SplitRows(rows).value.files[r2[0]] == Header + Payload(r2)
  {
    var rows := [r1, r2, r3];
    var a, b := r1[0], r2[0];
    SplitRowsKeys(rows);
    SplitRowsFile(rows, a);
    SplitRowsFile(rows, b);
    assert (set i | 0 <= i < 3 :: rows[i][0]) == {a, b} by {
      assert rows[0][0] == a && rows[1][0] == b && rows[2][0] == a;
    }
    assert LastOccurrence(rows, a, 3) == 2 && RunStart(rows, 2) == 2;
    assert LastOccurrence(rows, b, 3) == 1 && RunStart(rows, 1) == 1;
    assert rows[2..3] == [r3] && rows[1..2] == [r2];
    PayloadsOne(r3);
    PayloadsOne(r2);
  }

  /**
   * Titles a, a, b: a's file holds the header and the first two rows, b's
   * file the header and the third.
   */
  lemma GroupExample(r1: Row, r2: Row, r3: Row)
    requires |r1| >= 4 && |r2| >= 4 && |r3| >= 4
    requires r1[0] == r2[0] != r3[0] && r1[0] != ""
    ensures var rows := [r1, r2, r3];
      && SplitRows(rows).Success?
      && SplitRows(rows).value.files.Keys == {r1[0], r3[0]}
      && SplitRows(rows).value.files[r1[0]] == Header + Payload(r1) + Payload(r2)
      && SplitRows(rows).value.files[r3[0]] == Header + Payload(r3)
  {
    var rows := [r1, r2, r3];
    var a, b := r1[0], r3[0];
    SplitRowsKeys(rows);
    SplitRowsFile(rows, a);
    SplitRowsFile(rows, b);
    assert (set i | 0 <= i < 3 :: rows[i][0]) == {a, b} by {
      assert rows[0][0] == a && rows[1][0] == a && rows[2][0] == b;
    }
    assert LastOccurrence(rows, a, 3) == 1 && RunStart(rows, 1) == 0;
    assert LastOccurrence(rows, b, 3) == 2 && RunStart(rows, 2) == 2;
    assert rows[0..2] == [r1, r2] && rows[2..3] == [r3];
    PayloadsTwo(r1, r2);
    PayloadsOne(r3);
  }
}
