/** The extractors' pipeline (single_TC/extract_sst.py and
    single_TC/extract_HYCOM_SST.py): read the track file, sample a 31-day
    window for every fix, then write the header lines back followed by one
    row per fix, the fix line's text with the 31 values appended. */
module Extract {
  import opened Text
  import opened Wrappers
  import opened Floats
  import opened Calendar
  import opened Track
  import opened Window

  /** Why an extractor stops without writing its output file. */
  datatype ExtractError =
    | ReadFailed(cause: ReadError)   // IndexError or ValueError while reading
    | NoFixes                        // no fix line: the 31 columns cannot be set
    | BadDate(fix: nat)              // `strptime` refuses the date of fix `fix`
    | OutOfRange(fix: nat)           // a window day of fix `fix` is outside years 1 to 9999

  /** Every fix carries an eight-digit date field, as every fix read from a
      track file does. */
  predicate DatesWellFormed(fixes: seq<Fix>) {
    forall k :: 0 <= k < |fixes| ==> |fixes[k].ymd| == 8 && AllDigits(fixes[k].ymd)
  }

  lemma ReadDatesWellFormed(lines: seq<string>)
    requires ReadTrack(lines).Ok?
    ensures DatesWellFormed(ReadTrack(lines).value.fixes)
  {
    ReadTrackFixes(lines);
    var fixes, fl := ReadTrack(lines).value.fixes, FixLines(lines);
    forall k | 0 <= k < |fixes| ensures |fixes[k].ymd| == 8 && AllDigits(fixes[k].ymd) {
      assert IsFixLine(fl[k]);
    }
  }

  /** `sst_window(row)` / `temp_window(row)`: parse the date with `%Y%m%d`,
      then sample the window around it. */
  function FixWindow(src: Source, raster: Raster, f: Fix, index: nat): Result<seq<Float>, ExtractError>
    requires |f.ymd| == 8 && AllDigits(f.ymd)
  {
    match ParseYmd(f.ymd)
    case None => Err(BadDate(index))
    case Some(base) =>
      match SampleWindow(src, raster, base, f.lon, f.lat)
      case None => Err(OutOfRange(index))
      case Some(w) => Ok(w)
  }

  /** A fix's window fails on a date `strptime` refuses, and on a date less
      than 15 days from either end of the calendar; otherwise it is the
      31-value window around that date. */
  lemma FixWindowSpec(src: Source, raster: Raster, f: Fix, index: nat)
    requires |f.ymd| == 8 && AllDigits(f.ymd)
    ensures FixWindow(src, raster, f, index) == Err(BadDate(index)) <==> ParseYmd(f.ymd).None?
    ensures FixWindow(src, raster, f, index) == Err(OutOfRange(index)) <==>
      ParseYmd(f.ymd).Some? && !(16 <= Ordinal(ParseYmd(f.ymd).value) <= MaxOrdinal - 15)
    ensures FixWindow(src, raster, f, index).Ok? ==>
      ParseYmd(f.ymd).Some? && |FixWindow(src, raster, f, index).value| == 31 &&
      SampleWindow(src, raster, ParseYmd(f.ymd).value, f.lon, f.lat) == Some(FixWindow(src, raster, f, index).value)
  {
    match ParseYmd(f.ymd)
    case None =>
    case Some(base) =>
      WindowDefined(src, raster, base, f.lon, f.lat);
      if SampleWindow(src, raster, base, f.lon, f.lat).Some? {
        WindowValues(src, raster, base, f.lon, f.lat, 0);
      }
  }

  /** Results computed one after the other, where the first failure stops
      the rest: all the values, or the first error. */
  function Collect<T, E>(rs: seq<Result<T, E>>): (r: Result<seq<T>, E>)
    ensures r.Ok? ==> |r.value| == |rs|
  {
    if |rs| == 0 then Ok([])
    else
      var n := |rs| - 1;
      match Collect(rs[..n])
      case Err(e) => Err(e)
      case Ok(vs) =>
        match rs[n]
        case Err(e) => Err(e)
        case Ok(v) => Ok(vs + [v])
  }

  /** Collecting succeeds exactly when every result is a value, and then
      gives those values in order; otherwise it gives the error of the first
      failing result. */
  lemma {:induction false} CollectSpec<T, E>(rs: seq<Result<T, E>>)
    ensures Collect(rs).Ok? <==> forall k :: 0 <= k < |rs| ==> rs[k].Ok?
    ensures Collect(rs).Ok? ==>
      |Collect(rs).value| == |rs| && forall k :: 0 <= k < |rs| ==> Collect(rs).value[k] == rs[k].value
    ensures Collect(rs).Err? ==>
      exists k :: 0 <= k < |rs| && rs[k] == Err(Collect(rs).error) && forall i :: 0 <= i < k ==> rs[i].Ok?
  {
    if |rs| > 0 {
      var n := |rs| - 1;
      var init := rs[..n];
      CollectSpec(init);
      assert forall k :: 0 <= k < n ==> init[k] == rs[k];
      if Collect(init).Ok? && rs[n].Ok? {
        var vs := Collect(init).value + [rs[n].value];
        assert Collect(rs).value == vs;
        forall k | 0 <= k < |rs| ensures vs[k] == rs[k].value {
          if k < n {
            assert vs[k] == Collect(init).value[k];
          }
        }
      } else if Collect(init).Ok? {
        assert rs[n] == Err(Collect(rs).error);
      } else {
        var k :| 0 <= k < n && init[k] == Err(Collect(init).error) && forall i :: 0 <= i < k ==> init[i].Ok?;
        assert rs[k] == Err(Collect(rs).error);
      }
    }
  }

  /** The window of every fix, each on its own. */
  function FixWindows(src: Source, raster: Raster, fixes: seq<Fix>): (rs: seq<Result<seq<Float>, ExtractError>>)
    requires DatesWellFormed(fixes)
  {
    seq(|fixes|, k requires 0 <= k < |fixes| => FixWindow(src, raster, fixes[k], k))
  }

  /** `df.apply(sst_window, axis=1)`: the windows of all fixes, row by row;
      the first fix that cannot be sampled stops it. */
  function SampleAll(src: Source, raster: Raster, fixes: seq<Fix>): Result<seq<seq<Float>>, ExtractError>
    requires DatesWellFormed(fixes)
  {
    Collect(FixWindows(src, raster, fixes))
  }

  /** Sampling succeeds exactly when every fix can be sampled, and then window
      `k` is the window of fix `k`; otherwise the error is that of the first
      fix that cannot be sampled. */
  lemma SampleAllSpec(src: Source, raster: Raster, fixes: seq<Fix>)
    requires DatesWellFormed(fixes)
    ensures SampleAll(src, raster, fixes).Ok? <==>
      forall k :: 0 <= k < |fixes| ==> FixWindow(src, raster, fixes[k], k).Ok?
    ensures SampleAll(src, raster, fixes).Ok? ==>
      |SampleAll(src, raster, fixes).value| == |fixes| &&
      forall k :: 0 <= k < |fixes| ==>
        SampleAll(src, raster, fixes).value[k] == FixWindow(src, raster, fixes[k], k).value
    ensures SampleAll(src, raster, fixes).Err? ==>
      exists k :: 0 <= k < |fixes| &&
        FixWindow(src, raster, fixes[k], k) == Err(SampleAll(src, raster, fixes).error) &&
        forall i :: 0 <= i < k ==> FixWindow(src, raster, fixes[i], i).Ok?
  {
    var rs := FixWindows(src, raster, fixes);
    assert forall k :: 0 <= k < |fixes| ==> rs[k] == FixWindow(src, raster, fixes[k], k);
    CollectSpec(rs);
  }

  // ---------------------------------------------------------------------------
  // Writing

  /** Every value written with `f"{v:6.2f}"`. */
  function FormatAll(values: seq<Float>): (ts: seq<string>)
  {
    seq(|values|, k requires 0 <= k < |values| => Format62(values[k]))
  }

  /** One output row, without its newline: the fix line's text, `", "`, and
      the values joined by `", "`. */
  function Render(raw: string, values: seq<Float>): string {
    raw + ", " + Join(FormatAll(values), ", ")
  }

  /** The lines of the output file, each with its newline: the header lines,
      then one row per fix. */
  function OutputLines(header: seq<string>, fixes: seq<Fix>, windows: seq<seq<Float>>): (out: seq<string>)
    requires |windows| == |fixes|
  {
    seq(|header|, k requires 0 <= k < |header| => header[k] + "\n") +
    seq(|fixes|, j requires 0 <= j < |fixes| => Render(fixes[j].raw, windows[j]) + "\n")
  }

  /** The writing loops: every header line, then every row. */
  method WriteOutput(header: seq<string>, fixes: seq<Fix>, windows: seq<seq<Float>>) returns (written: seq<string>)
    requires |windows| == |fixes|
    ensures written == OutputLines(header, fixes, windows)
  {
    ghost var all := OutputLines(header, fixes, windows);
    written := [];
    for i := 0 to |header|
      invariant written == all[..i]
    {
      OutputHeader(header, fixes, windows, i);
      assert all[..i + 1] == all[..i] + [all[i]];
      written := written + [header[i] + "\n"];
    }
    for j := 0 to |fixes|
      invariant written == all[..|header| + j]
    {
      var line := Render(fixes[j].raw, windows[j]) + "\n";
      OutputRow(header, fixes, windows, j);
      assert all[..|header| + j + 1] == all[..|header| + j] + [all[|header| + j]];
      written := written + [line];
    }
    OutputRowCount(header, fixes, windows);
    assert all[..|all|] == all;
  }

  /** The fields of a written row are the fields of the fix line's text
      followed by one field per value: the value as `f"{v:6.2f}"` writes it,
      without its padding. */
  lemma RowCells(raw: string, values: seq<Float>)
    requires |values| >= 1
    ensures |Fields(Render(raw, values) + "\n")| == |Fields(raw)| + |values|
    ensures forall k :: 0 <= k < |Fields(raw)| ==> Fields(Render(raw, values) + "\n")[k] == Fields(raw)[k]
    ensures forall k :: 0 <= k < |values| ==>
      Fields(Render(raw, values) + "\n")[|Fields(raw)| + k] == Strip(Format62(values[k]))
  {
    var ts := FormatAll(values);
    assert |ts| == |values| && forall k :: 0 <= k < |ts| ==> ts[k] == Format62(values[k]);
    forall k | 0 <= k < |ts| ensures ',' !in ts[k] {
      FormatHasNoComma(values[k]);
    }
    FieldsOfAppended(raw, ts);
  }

  /** Each value field of a written row reads back, with `float`, as the
      value rounded to two decimals (NaN as NaN). */
  lemma RowFields(raw: string, values: seq<Float>)
    requires |values| >= 1
    ensures |Fields(Render(raw, values) + "\n")| == |Fields(raw)| + |values|
    ensures forall k :: 0 <= k < |Fields(raw)| ==> Fields(Render(raw, values) + "\n")[k] == Fields(raw)[k]
    ensures forall k :: 0 <= k < |values| ==>
      ParseFloat(Fields(Render(raw, values) + "\n")[|Fields(raw)| + k]) == Some(AsWritten(values[k]))
  {
    RowCells(raw, values);
    forall k | 0 <= k < |values|
      ensures ParseFloat(Strip(Format62(values[k]))) == Some(AsWritten(values[k]))
    {
      StripTwice(Format62(values[k]));
      FormatReadsBack(values[k]);
    }
  }

  /** Dropping a line's newlines and writing it with one newline does not
      change whether it is a fix line. */
  lemma NewlineKeepsKind(line: string)
    ensures IsFixLine(RStripNewline(line) + "\n") <==> IsFixLine(line)
  {
    var h := RStripNewline(line);
    var w := h + "\n";
    if |h| >= 9 {
      assert h == line[..|h|];
      assert w[..8] == h[..8] == line[..8];
      assert w[8] == h[8] == line[8];
    } else if |line| >= 9 {
      assert line[8] == '\n';
      if |w| >= 9 {
        assert w[8] == '\n';
      }
    }
  }

  /** Text appended after a fix line's ninth character leaves it a fix line. */
  lemma FixLinePrefix(a: string, b: string)
    requires IsFixLine(a)
    ensures IsFixLine(a + b)
  {
    assert (a + b)[..8] == a[..8];
  }

  /** A fix line without its newlines is still a fix line. */
  lemma FixLineText(line: string)
    requires IsFixLine(line)
    ensures IsFixLine(RStripNewline(line))
  {
    var h := RStripNewline(line);
    assert h == line[..|h|];
    assert h[..8] == line[..8];
  }

  /** A written row is a fix line when the text it starts with is one. */
  lemma RowKeepsKind(line: string, values: seq<Float>)
    requires IsFixLine(line)
    ensures IsFixLine(Render(RStripNewline(line), values) + "\n")
  {
    var h := RStripNewline(line);
    FixLineText(line);
    var rest := ", " + Join(FormatAll(values), ", ") + "\n";
    assert Render(h, values) + "\n" == h + rest;
    FixLinePrefix(h, rest);
  }

  // ---------------------------------------------------------------------------
  // The pipeline

  /** From the lines of the track file to the lines of the output file. */
  function Extract(src: Source, raster: Raster, lines: seq<string>): Result<seq<string>, ExtractError> {
    match ReadTrack(lines)
    case Err(e) => Err(ReadFailed(e))
    case Ok(t) =>
      if |t.fixes| == 0 then Err(NoFixes)
      else
        ReadDatesWellFormed(lines);
        match SampleAll(src, raster, t.fixes)
        case Err(e) => Err(e)
        case Ok(ws) => Ok(OutputLines(t.header, t.fixes, ws))
  }

  lemma {:induction false} LinesPartition(lines: seq<string>)
    ensures |HeaderLines(lines)| + |FixLines(lines)| == |lines|
  {
    if |lines| > 0 {
      LinesPartition(lines[..|lines| - 1]);
    }
  }

  /** A run that writes its file read the track, found fixes, sampled every
      fix and wrote the header lines and the rows. */
  lemma ExtractSucceeded(src: Source, raster: Raster, lines: seq<string>, out: seq<string>)
    requires Extract(src, raster, lines) == Ok(out)
    ensures ReadTrack(lines).Ok? && |ReadTrack(lines).value.fixes| > 0
    ensures DatesWellFormed(ReadTrack(lines).value.fixes)
    ensures SampleAll(src, raster, ReadTrack(lines).value.fixes).Ok?
    ensures var t := ReadTrack(lines).value;
      out == OutputLines(t.header, t.fixes, SampleAll(src, raster, t.fixes).value)
  {
    ReadDatesWellFormed(lines);
  }

  /** A written output file has one line per input line: every header line
      first, unchanged and still not a fix line, then one row per fix line, in
      input order, starting with that fix line's text and still a fix line. */
  lemma ExtractOutput(src: Source, raster: Raster, lines: seq<string>, out: seq<string>)
    requires Extract(src, raster, lines) == Ok(out)
    ensures |out| == |HeaderLines(lines)| + |FixLines(lines)| == |lines|
    ensures forall k :: 0 <= k < |HeaderLines(lines)| ==>
      out[k] == HeaderLines(lines)[k] + "\n" && !IsFixLine(out[k])
    ensures forall j :: 0 <= j < |FixLines(lines)| ==> RowOfLine(FixLines(lines)[j], out[|HeaderLines(lines)| + j])
  {
    ExtractSucceeded(src, raster, lines, out);
    var t := ReadTrack(lines).value;
    ReadTrackHeader(lines);
    ReadTrackRaw(lines);
    OutputOfTrack(lines, t, SampleAll(src, raster, t.fixes).value, out);
  }

  /** `ExtractOutput` for a track whose header lines are those of `lines` and
      whose fixes hold the texts of its fix lines. */
  lemma OutputOfTrack(lines: seq<string>, t: TrackFile, ws: seq<seq<Float>>, out: seq<string>)
    requires t.header == HeaderLines(lines) && |t.fixes| == |FixLines(lines)| == |ws|
    requires forall j :: 0 <= j < |t.fixes| ==> t.fixes[j].raw == RStripNewline(FixLines(lines)[j])
    requires out == OutputLines(t.header, t.fixes, ws)
    ensures |out| == |HeaderLines(lines)| + |FixLines(lines)| == |lines|
    ensures forall k :: 0 <= k < |HeaderLines(lines)| ==>
      out[k] == HeaderLines(lines)[k] + "\n" && !IsFixLine(out[k])
    ensures forall j :: 0 <= j < |FixLines(lines)| ==> RowOfLine(FixLines(lines)[j], out[|HeaderLines(lines)| + j])
  {
    LinesPartition(lines);
    var h, fl := HeaderLines(lines), FixLines(lines);
    forall k | 0 <= k < |h| ensures !IsFixLine(out[k]) {
      NewlineKeepsKind(HeaderLineSource(lines, k));
    }
    forall j | 0 <= j < |fl| ensures RowOfLine(fl[j], out[|h| + j]) {
      RowOfFixLine(fl[j], t.fixes[j], ws[j], out[|h| + j]);
    }
  }

  /** `row` is written for the fix line `line`: it starts with the line's
      text and a comma, and it is a fix line itself. */
  predicate RowOfLine(line: string, row: string) {
    StartsWith(row, RStripNewline(line) + ", ") && IsFixLine(row)
  }

  /** The row written for a fix line starts with the line's text and is a
      fix line. */
  lemma RowOfFixLine(line: string, f: Fix, w: seq<Float>, row: string)
    requires IsFixLine(line) && f.raw == RStripNewline(line)
    requires row == Render(f.raw, w) + "\n"
    ensures RowOfLine(line, row)
  {
    var raw := f.raw;
    assert row == raw + ", " + (Join(FormatAll(w), ", ") + "\n");
    RowKeepsKind(line, w);
  }

  /** The input line a header line comes from. */
  function HeaderLineSource(lines: seq<string>, k: nat): (line: string)
    requires k < |HeaderLines(lines)|
    ensures !IsFixLine(line) && HeaderLines(lines)[k] == RStripNewline(line)
    decreases |lines|
  {
    var n := |lines| - 1;
    if k < |HeaderLines(lines[..n])| then HeaderLineSource(lines[..n], k) else lines[n]
  }

  /** Value `i` of `row`, the row written for the fix line `line` at
      (`lon`, `lat`), is the product's value there on the day `i - 15` days
      from the line's date, as `f"{v:6.2f}"` writes it: the row has the
      line's fields and 31 more, and field `i` of those reads back, with
      `float`, as that value rounded to two decimals (NaN when the product
      has no value). */
  predicate ShowsDay(src: Source, raster: Raster, line: string, lon: Float, lat: Float, row: string, i: int)
    requires IsFixLine(line)
  {
    0 <= i < 31 && ParseYmd(line[..8]).Some? && AddDays(ParseYmd(line[..8]).value, i - 15).Some? &&
    |Fields(row)| == |Fields(RStripNewline(line))| + 31 &&
    ParseFloat(Fields(row)[|Fields(RStripNewline(line))| + i]) ==
      Some(AsWritten(DayValue(src, raster, AddDays(ParseYmd(line[..8]).value, i - 15).value, lon, lat)))
  }

  /** The end-to-end property: in the row written for fix line `j`, value `i`
      reads back as the product's value, rounded to two decimals, on the day
      `i - 15` days from the fix's date, at the fix's coordinates. */
  lemma ExtractRowValues(src: Source, raster: Raster, lines: seq<string>, out: seq<string>, j: int, i: int)
    requires Extract(src, raster, lines) == Ok(out)
    requires 0 <= j < |FixLines(lines)| && 0 <= i < 31
    ensures |out| == |HeaderLines(lines)| + |FixLines(lines)|
    ensures ReadFix(0, FixLines(lines)[j]).Ok?
    ensures ShowsDay(src, raster, FixLines(lines)[j], ReadFix(0, FixLines(lines)[j]).value.lon,
                     ReadFix(0, FixLines(lines)[j]).value.lat, out[|HeaderLines(lines)| + j], i)
  {
    var f, w := ExtractedRow(src, raster, lines, out, j);
    var line := FixLines(lines)[j];
    assert out[|HeaderLines(lines)| + j] == Render(f.raw, w) + "\n";
    FixRowValues(src, raster, line, f, w, out[|HeaderLines(lines)| + j], i);
  }

  /** The row written for fix line `j` renders that line's fix with the
      window sampled around its date. */
  lemma ExtractedRow(src: Source, raster: Raster, lines: seq<string>, out: seq<string>, j: int)
    returns (f: Fix, w: seq<Float>)
    requires Extract(src, raster, lines) == Ok(out)
    requires 0 <= j < |FixLines(lines)|
    ensures |out| == |HeaderLines(lines)| + |FixLines(lines)|
    ensures ReadFix(0, FixLines(lines)[j]) == Ok(f)
    ensures f.ymd == FixLines(lines)[j][..8] && f.raw == RStripNewline(FixLines(lines)[j])
    ensures ParseYmd(f.ymd).Some? && SampleWindow(src, raster, ParseYmd(f.ymd).value, f.lon, f.lat) == Some(w)
    ensures out[|HeaderLines(lines)| + j] == Render(f.raw, w) + "\n"
  {
    ExtractSucceeded(src, raster, lines, out);
    var t := ReadTrack(lines).value;
    var ws := SampleAll(src, raster, t.fixes).value;
    ReadTrackHeader(lines);
    ReadTrackFixes(lines);
    ReadTrackRaw(lines);
    SampleAllSpec(src, raster, t.fixes);
    f, w := t.fixes[j], ws[j];
    assert FixWindow(src, raster, f, j) == Ok(w);
    FixWindowSpec(src, raster, f, j);
    OutputRow(t.header, t.fixes, ws, j);
  }

  /** Line `k` of the output is header line `k` with its newline. */
  lemma OutputHeader(header: seq<string>, fixes: seq<Fix>, windows: seq<seq<Float>>, k: int)
    requires |windows| == |fixes| && 0 <= k < |header|
    ensures |OutputLines(header, fixes, windows)| == |header| + |fixes|
    ensures OutputLines(header, fixes, windows)[k] == header[k] + "\n"
  {
  }

  /** The output has one line per header line and one per fix. */
  lemma OutputRowCount(header: seq<string>, fixes: seq<Fix>, windows: seq<seq<Float>>)
    requires |windows| == |fixes|
    ensures |OutputLines(header, fixes, windows)| == |header| + |fixes|
  {
  }

  /** Row `j` of the output follows the header lines. */
  lemma OutputRow(header: seq<string>, fixes: seq<Fix>, windows: seq<seq<Float>>, j: int)
    requires |windows| == |fixes| && 0 <= j < |fixes|
    ensures |OutputLines(header, fixes, windows)| == |header| + |fixes|
    ensures OutputLines(header, fixes, windows)[|header| + j] == Render(fixes[j].raw, windows[j]) + "\n"
  {
  }

  /** The row written for one fix: value `i` reads back as the product's
      value on day `i - 15` of the fix's window. */
  lemma FixRowValues(src: Source, raster: Raster, line: string, f: Fix, w: seq<Float>, row: string, i: int)
    requires IsFixLine(line) && f.ymd == line[..8] && f.raw == RStripNewline(line)
    requires ParseYmd(f.ymd).Some? && SampleWindow(src, raster, ParseYmd(f.ymd).value, f.lon, f.lat) == Some(w)
    requires row == Render(f.raw, w) + "\n"
    requires 0 <= i < 31
    ensures ShowsDay(src, raster, line, f.lon, f.lat, row, i)
  {
    var base := ParseYmd(line[..8]).value;
    var raw := RStripNewline(line);
    assert ParseYmd(f.ymd).value == base && f.raw == raw;
    WindowRowValues(src, raster, base, f.lon, f.lat, raw, w, i);
  }

  /** The row written with the window around `base`: it has 31 more fields
      than the fix line's text, and value `i` reads back as the product's
      value on the day `i - 15` days from `base`. */
  lemma WindowRowValues(src: Source, raster: Raster, base: Date, lon: Float, lat: Float, raw: string,
                        w: seq<Float>, i: int)
    requires Valid(base) && SampleWindow(src, raster, base, lon, lat) == Some(w)
    requires 0 <= i < 31
    ensures AddDays(base, i - 15).Some?
    ensures |Fields(Render(raw, w) + "\n")| == |Fields(raw)| + 31
    ensures ParseFloat(Fields(Render(raw, w) + "\n")[|Fields(raw)| + i]) ==
      Some(AsWritten(DayValue(src, raster, AddDays(base, i - 15).value, lon, lat)))
  {
    WindowValues(src, raster, base, lon, lat, i);
    RowFields(raw, w);
  }

  /** A run stops while reading, and writes nothing, exactly when some fix
      line does not read as a fix. */
  lemma ExtractReadFails(src: Source, raster: Raster, lines: seq<string>)
    ensures (Extract(src, raster, lines).Err? && Extract(src, raster, lines).error.ReadFailed?) <==> !AllFixesRead(lines)
  {
    ReadTrackSucceeds(lines);
    if ReadTrack(lines).Ok? && |ReadTrack(lines).value.fixes| > 0 {
      ReadDatesWellFormed(lines);
      var fixes := ReadTrack(lines).value.fixes;
      SampleAllSpec(src, raster, fixes);
      if SampleAll(src, raster, fixes).Err? {
        var k :| 0 <= k < |fixes| && FixWindow(src, raster, fixes[k], k) == Err(SampleAll(src, raster, fixes).error);
        assert !SampleAll(src, raster, fixes).error.ReadFailed?;
      }
    }
  }

  /** A fix line with fewer than six fields stops the run before the output
      file is opened, whatever the other lines hold. */
  lemma ShortFixLineAborts(src: Source, raster: Raster, lines: seq<string>, k: int)
    requires 0 <= k < |lines| && IsFixLine(lines[k]) && |Fields(lines[k])| < 6
    ensures Extract(src, raster, lines).Err? && Extract(src, raster, lines).error.ReadFailed?
  {
    assert ReadFix(k, lines[k]).Err?;
    ExtractReadFails(src, raster, lines);
  }

  /** A stored number of 500 is 5 degrees for OISST, written `  5.00`. */
  lemma FiveDegreesText()
    ensures Celsius(OISST, 500.0) == 5.0
    ensures Format62(Finite(5.0)) == "  5.00"
  {
    FiveDegreesCents();
    FiveHundredCentsText();
  }

  lemma FiveDegreesCents()
    ensures Cents(5.0) == 500
  {
    assert 5.0 * 100.0 == 500.0;
    assert (500.0).Floor == 500;
  }

  lemma FiveHundredCentsText()
    ensures FixedText(false, 500) == "  5.00"
  {
    FiveHundredCentsNumeral();
    assert Spaces(2) == "  ";
  }

  /** `500` hundredths written as `q.rr`. */
  lemma FiveHundredCentsNumeral()
    ensures Numeral2(500) == "5.00"
  {
    assert NatToString(5) == "5";
    assert ZeroPad(0, 2) == "00";
  }

  /** With a product that stores 500 at every day and point, the OISST row of
      a fix is its text followed by 31 values written `  5.00`. */
  lemma ConstantSourceRow(raster: Raster, raw: string, base: Date, lon: Float, lat: Float)
    requires forall d, x, y :: raster(d, x, y) == Some(500.0)
    requires Valid(base) && 16 <= Ordinal(base) <= MaxOrdinal - 15
    ensures SampleWindow(OISST, raster, base, lon, lat).Some?
    ensures Render(raw, SampleWindow(OISST, raster, base, lon, lat).value) ==
      raw + ", " + Join(seq(31, _ => "  5.00"), ", ")
  {
    WindowDefined(OISST, raster, base, lon, lat);
    var w := SampleWindow(OISST, raster, base, lon, lat).value;
    FiveDegreesText();
    forall i | 0 <= i < 31 ensures FormatAll(w)[i] == "  5.00" {
      WindowValues(OISST, raster, base, lon, lat, i);
    }
    assert FormatAll(w) == seq(31, _ => "  5.00");
  }

  // ---------------------------------------------------------------------------
  // Paths and the command line

  /** The last index of `c` in `s`, Python's `s.rfind(c)`. */
  function LastIndexOf(s: string, c: char): (r: Option<nat>)
    ensures r.Some? ==> r.value < |s| && s[r.value] == c && forall k :: r.value < k < |s| ==> s[k] != c
    ensures r.None? ==> forall k :: 0 <= k < |s| ==> s[k] != c
  {
    if |s| == 0 then None
    else if s[|s| - 1] == c then Some(|s| - 1)
    else LastIndexOf(s[..|s| - 1], c)
  }

  /** `PurePath.stem`: the name without its last suffix, where a suffix starts
      at a dot that is neither the first nor the last character. */
  function Stem(name: string): string {
    match LastIndexOf(name, '.')
    case Some(i) => if 0 < i < |name| - 1 then name[..i] else name
    case None => name
  }

  /** A name `base.ext` has stem `base`, whatever dots `base` holds. */
  lemma StemOfName(base: string, ext: string)
    requires |base| > 0 && |ext| > 0
    requires forall k :: 0 <= k < |ext| ==> ext[k] != '.'
    ensures Stem(base + "." + ext) == base
  {
    var name := base + "." + ext;
    var i := LastIndexOf(name, '.');
    assert name[|base|] == '.';
    if i.None? {
      assert false;
    }
    assert forall k :: |base| < k < |name| ==> name[k] == ext[k - |base| - 1];
    assert i.value == |base|;
    assert name[..|base|] == base;
  }

  /** `in_path.parent.parent / "t_data" / f"{in_path.stem}{suffix}.txt"`, for
      the resolved input path written as its components below the root (the
      root's parent is the root). */
  function OutputPath(src: Source, path: seq<string>): (out: seq<string>)
    requires |path| >= 1
  {
    var grand := if |path| >= 2 then path[..|path| - 2] else [];
    grand + ["t_data", Stem(path[|path| - 1]) + Suffix(src) + ".txt"]
  }

  /** The output goes to the `t_data` folder beside the input's folder, named
      after the input: `a/b/name.txt` gives `a/t_data/name_SST.txt`. */
  lemma OutputBesideInput(src: Source, dirs: seq<string>, folder: string, base: string)
    requires |base| > 0
    ensures OutputPath(src, dirs + [folder, base + ".txt"]) == dirs + ["t_data", base + Suffix(src) + ".txt"]
  {
    var path := dirs + [folder, base + ".txt"];
    assert path[..|path| - 2] == dirs;
    StemOfName(base, "txt");
    assert base + ".txt" == base + "." + "txt";
  }

  /** The command line check: exactly one argument, ending in `.txt` in any
      letter case. */
  predicate UsageOk(argv: seq<string>) {
    |argv| == 2 && EndsWith(Lower(argv[1]), ".txt")
  }

  /** What a run ends with. */
  datatype Outcome =
    | UsageError
    | NotFound
    | Failed(error: ExtractError)
    | Wrote(path: seq<string>, lines: seq<string>)

  /** A whole run: the argument check, the file check (`isFile`, with the
      resolved path `resolved` and the file's lines `input` given by the file
      system), then the pipeline. */
  function Run(src: Source, raster: Raster, argv: seq<string>, resolved: seq<string>, isFile: bool,
               input: seq<string>): (o: Outcome)
    ensures o.Wrote? <==> UsageOk(argv) && isFile && |resolved| > 0 && Extract(src, raster, input).Ok?
    ensures o.Wrote? ==> o.path == OutputPath(src, resolved) && o.lines == Extract(src, raster, input).value
    ensures o == UsageError <==> !UsageOk(argv)
  {
    if !UsageOk(argv) then UsageError
    else if !isFile || |resolved| == 0 then NotFound
    else
      match Extract(src, raster, input)
      case Err(e) => Failed(e)
      case Ok(out) => Wrote(OutputPath(src, resolved), out)
  }
}
