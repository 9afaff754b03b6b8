/** The `load_windows` readers of the plot scripts: which lines of an
    enriched track file give a 31-day window, and the windows they give.
    plot_sst_diff_pdfs.py and plot_sst_window.py read every `*_SST.txt` file
    of a directory and keep tropical-storm and hurricane fixes only;
    plot_single_track_sst.py reads one file and keeps every row that starts
    with digits. */
module WindowLoaders {
  import opened Wrappers
  import opened Text
  import opened Floats
  import opened Files
  import opened Extract

  // ---------------------------------------------------------------------------
  // Converting the value fields

  /** Every cell converts with `float`. */
  predicate AllParse(cells: seq<string>) {
    forall k :: 0 <= k < |cells| ==> Parses(cells[k])
  }

  /** `np.array(cells, dtype=float)`: the converted cells, or `None` where
      NumPy raises `ValueError` because one of them does not convert. */
  function ParseAll(cells: seq<string>): Option<seq<Float>> {
    if AllParse(cells) then Some(seq(|cells|, k requires 0 <= k < |cells| && Parses(cells[k]) => ParseFloat(cells[k]).value))
    else None
  }

  /** The array exists exactly when every cell converts, and then holds one
      value per cell, in order. */
  lemma ParseAllSpec(cells: seq<string>)
    ensures ParseAll(cells).Some? <==> AllParse(cells)
    ensures ParseAll(cells).Some? ==> |ParseAll(cells).value| == |cells|
    ensures ParseAll(cells).Some? ==>
      forall k :: 0 <= k < |cells| ==> Some(ParseAll(cells).value[k]) == ParseFloat(cells[k])
  {
  }

  /** `float("")` raises, so a row with an empty value field is skipped. */
  lemma EmptyCellFails()
    ensures !Parses("")
  {
    assert Strip("") == "";
    assert Lower("") == "";
  }

  /** `float("nan")` converts, so rows with missing values are kept. */
  lemma NaNCellParses()
    ensures ParseFloat("nan") == Some(NaN)
  {
    StripNoSpace("nan");
    NaNSigned();
  }

  lemma NaNSigned()
    ensures ParseSigned("nan") == Some(NaN)
  {
    NaNMagnitude();
    assert "nan"[0] == 'n';
  }

  lemma NaNMagnitude()
    ensures ParseMagnitude("nan") == Some(NaN)
  {
    assert Lower("nan") == "nan";
  }

  // ---------------------------------------------------------------------------
  // Row selection

  /** `VALID_STATUSES = {"TS", "HU"}`. */
  predicate IsStormStatus(s: string) {
    s == "TS" || s == "HU"
  }

  /** plot_single_track_sst.py's data-line test `line[:8].isdigit()`: the first
      (up to) eight characters are digits and there is at least one. */
  predicate IsDataLine(line: string) {
    var h := Take(line, 8);
    |h| > 0 && AllDigits(h)
  }

  /** The two row filters. */
  datatype Loader =
    | Storms       // plot_sst_diff_pdfs.py and plot_sst_window.py
    | SingleTrack  // plot_single_track_sst.py

  /** The window a line gives, or `None` where the loop `continue`s. */
  function Select(l: Loader, line: string): Option<seq<Float>> {
    match l
    case Storms =>
      if !IsFixLine(line) then None
      else
        var parts := Fields(line);
        if |parts| < 31 || !IsStormStatus(parts[3]) then None
        else ParseAll(Last(parts, 31))
    case SingleTrack =>
      if !IsDataLine(line) then None
      else
        var parts := Fields(line);
        if |parts| < 31 then None
        else ParseAll(Last(parts, 31))
  }

  /** The storm filter keeps a line exactly when it is a fix line with at
      least 31 fields, status TS or HU, and last 31 fields that all convert;
      the window is those fields' values. */
  lemma StormSelect(line: string)
    ensures Select(Storms, line).Some? <==>
      IsFixLine(line) && |Fields(line)| >= 31 && IsStormStatus(Fields(line)[3]) && AllParse(Last(Fields(line), 31))
    ensures Select(Storms, line).Some? ==> |Select(Storms, line).value| == 31
    ensures Select(Storms, line).Some? ==> forall k :: 0 <= k < 31 ==>
      Some(Select(Storms, line).value[k]) == ParseFloat(Fields(line)[|Fields(line)| - 31 + k])
  {
    if IsFixLine(line) && |Fields(line)| >= 31 {
      ParseAllSpec(Last(Fields(line), 31));
    }
  }

  /** The single-track filter keeps a line exactly when it starts with digits,
      has at least 31 fields and last 31 fields that all convert. */
  lemma SingleTrackSelect(line: string)
    ensures Select(SingleTrack, line).Some? <==>
      IsDataLine(line) && |Fields(line)| >= 31 && AllParse(Last(Fields(line), 31))
    ensures Select(SingleTrack, line).Some? ==> |Select(SingleTrack, line).value| == 31
    ensures Select(SingleTrack, line).Some? ==> forall k :: 0 <= k < 31 ==>
      Some(Select(SingleTrack, line).value[k]) == ParseFloat(Fields(line)[|Fields(line)| - 31 + k])
  {
    if IsDataLine(line) && |Fields(line)| >= 31 {
      ParseAllSpec(Last(Fields(line), 31));
    }
  }

  /** Every fix line passes the single-track data-line test. */
  lemma FixLineIsDataLine(line: string)
    requires IsFixLine(line)
    ensures IsDataLine(line)
  {
    assert Take(line, 8) == line[..8];
  }

  /** The data-line test asks for no comma: a bare run of digits passes it,
      while it is no fix line. */
  lemma DataLineNeedsNoComma()
    ensures IsDataLine("2024") && !IsFixLine("2024")
  {
    assert Take("2024", 8) == "2024";
  }

  /** A row with an empty value field among its last 31 is skipped. */
  lemma EmptyFieldSkipped(l: Loader, line: string, k: int)
    requires |Fields(line)| >= 31 && 0 <= k < 31 && Fields(line)[|Fields(line)| - 31 + k] == ""
    ensures Select(l, line) == None
  {
    EmptyCellFails();
    var last := Last(Fields(line), 31);
    assert last[k] == "";
    ParseAllSpec(last);
  }

  /** The values a written window reads back as. */
  function WrittenValues(w: seq<Float>): (vs: seq<Float>)
  {
    seq(|w|, k requires 0 <= k < |w| => AsWritten(w[k]))
  }

  /** Cells that convert one by one to `vs` convert together to `vs`. */
  lemma ParseAllOf(cells: seq<string>, vs: seq<Float>)
    requires |cells| == |vs| && forall k :: 0 <= k < |cells| ==> ParseFloat(cells[k]) == Some(vs[k])
    ensures ParseAll(cells) == Some(vs)
  {
    ParseAllSpec(cells);
    assert ParseAll(cells).value == vs;
  }

  /** Each of the last 31 fields of a row the extractor writes converts to
      the written value. */
  lemma WrittenLast(line: string, w: seq<Float>)
    requires IsFixLine(line) && |w| == 31
    ensures var row := Render(RStripNewline(line), w) + "\n";
      |Fields(row)| >= 31 &&
      forall k :: 0 <= k < 31 ==> ParseFloat(Last(Fields(row), 31)[k]) == Some(AsWritten(w[k]))
  {
    RowFields(RStripNewline(line), w);
  }

  /** The last 31 fields of a row the extractor writes all convert, to the
      written values. */
  lemma WrittenCells(line: string, w: seq<Float>)
    requires IsFixLine(line) && |w| == 31
    ensures var row := Render(RStripNewline(line), w) + "\n";
      IsFixLine(row) && |Fields(row)| >= 31 && ParseAll(Last(Fields(row), 31)) == Some(WrittenValues(w))
  {
    var row := Render(RStripNewline(line), w) + "\n";
    RowKeepsKind(line, w);
    WrittenLast(line, w);
    ParseAllOf(Last(Fields(row), 31), WrittenValues(w));
  }

  /** The storm loaders read a row the extractor wrote for a TS or HU fix
      back as the window's values, rounded as written. */
  lemma WrittenStormRow(line: string, w: seq<Float>)
    requires IsFixLine(line) && |w| == 31
    requires |Fields(RStripNewline(line))| >= 4 && IsStormStatus(Fields(RStripNewline(line))[3])
    ensures Select(Storms, Render(RStripNewline(line), w) + "\n") == Some(WrittenValues(w))
  {
    var raw := RStripNewline(line);
    var row := Render(raw, w) + "\n";
    WrittenCells(line, w);
    RowFields(raw, w);
    assert Fields(row)[3] == Fields(raw)[3];
  }

  /** The single-track loader reads every row the extractor wrote back as the
      window's values, rounded as written. */
  lemma WrittenTrackRow(line: string, w: seq<Float>)
    requires IsFixLine(line) && |w| == 31
    ensures Select(SingleTrack, Render(RStripNewline(line), w) + "\n") == Some(WrittenValues(w))
  {
    var row := Render(RStripNewline(line), w) + "\n";
    WrittenCells(line, w);
    FixLineIsDataLine(row);
  }

  // ---------------------------------------------------------------------------
  // Collecting the rows

  /** One loaded window. */
  type Row = seq<Float>

  /** The value, if present, as a list of zero or one elements. */
  function Present(o: Option<Row>): seq<Row> {
    match o
    case Some(x) => [x]
    case None => []
  }

  /** The values `f` gives for the items it keeps, in order. */
  function Picked(f: string -> Option<Row>, xs: seq<string>): seq<Row> {
    if |xs| == 0 then [] else Picked(f, xs[..|xs| - 1]) + Present(f(xs[|xs| - 1]))
  }

  /** Picking from items taken one after the other gives the values of the
      first items followed by those of the rest. */
  lemma {:induction false} PickedConcat(f: string -> Option<Row>, xs: seq<string>, ys: seq<string>)
    ensures Picked(f, xs + ys) == Picked(f, xs) + Picked(f, ys)
  {
    if |ys| == 0 {
      assert xs + ys == xs;
    } else {
      var n := |ys| - 1;
      var init, last := ys[..n], ys[n];
      assert ys == init + [last];
      assert xs + (init + [last]) == (xs + init) + [last];
      PickedConcat(f, xs, init);
      PickedSnoc(f, xs + init, last);
      PickedSnoc(f, init, last);
    }
  }

  /** One more item adds what it gives at the end. */
  lemma PickedSnoc(f: string -> Option<Row>, xs: seq<string>, y: string)
    ensures Picked(f, xs + [y]) == Picked(f, xs) + Present(f(y))
  {
    assert (xs + [y])[..|xs|] == xs;
  }

  /** A value is picked exactly when some item gives it. */
  lemma {:induction false} PickedMembers(f: string -> Option<Row>, xs: seq<string>, y: Row)
    ensures y in Picked(f, xs) <==> exists i :: 0 <= i < |xs| && f(xs[i]) == Some(y)
  {
    if |xs| > 0 {
      var n := |xs| - 1;
      var pre := xs[..n];
      PickedMembers(f, pre, y);
      if exists i :: 0 <= i < |xs| && f(xs[i]) == Some(y) {
        var i :| 0 <= i < |xs| && f(xs[i]) == Some(y);
        if i < n {
          assert pre[i] == xs[i];
        }
      }
    }
  }

  /** The filter of a loader as a function value. */
  function Filter(l: Loader): string -> Option<seq<Float>> {
    line => Select(l, line)
  }

  /** The windows of one file, in line order. */
  function Selected(l: Loader, lines: seq<string>): seq<seq<Float>> {
    Picked(Filter(l), lines)
  }

  /** The windows of lines read one after the other are those of the first
      lines followed by those of the rest: rows keep their line order. */
  lemma SelectedConcat(l: Loader, xs: seq<string>, ys: seq<string>)
    ensures Selected(l, xs + ys) == Selected(l, xs) + Selected(l, ys)
  {
    PickedConcat(Filter(l), xs, ys);
  }

  /** A window is among a file's rows exactly when some line of the file
      gives it. */
  lemma SelectedRows(l: Loader, lines: seq<string>, w: seq<Float>)
    ensures w in Selected(l, lines) <==> exists i :: 0 <= i < |lines| && Select(l, lines[i]) == Some(w)
  {
    var f := Filter(l);
    PickedMembers(f, lines, w);
    assert forall i :: 0 <= i < |lines| ==> f(lines[i]) == Select(l, lines[i]);
  }

  /** The windows of every file, file after file. */
  function AllSelected(files: seq<TextFile>): seq<seq<Float>> {
    AllPicked(Filter(Storms), files)
  }

  /** What `keep` picks from every file, file after file. */
  function AllPicked(keep: string -> Option<Row>, files: seq<TextFile>): seq<Row> {
    if |files| == 0 then [] else AllPicked(keep, files[..|files| - 1]) + Picked(keep, files[|files| - 1].lines)
  }

  lemma {:induction false} AllPickedEmpty(keep: string -> Option<Row>, files: seq<TextFile>)
    ensures |AllPicked(keep, files)| == 0 <==> forall f :: f in files ==> Picked(keep, f.lines) == []
  {
    if |files| > 0 {
      var n := |files| - 1;
      AllPickedEmpty(keep, files[..n]);
      assert files == files[..n] + [files[n]];
    }
  }

  /** Every row of a loader holds 31 values. */
  lemma {:induction false} SelectedWidth(l: Loader, lines: seq<string>)
    ensures forall w :: w in Selected(l, lines) ==> |w| == 31
  {
    forall w | w in Selected(l, lines) ensures |w| == 31 {
      SelectedRows(l, lines, w);
      var i :| 0 <= i < |lines| && Select(l, lines[i]) == Some(w);
      match l
      case Storms => StormSelect(lines[i]);
      case SingleTrack => SingleTrackSelect(lines[i]);
    }
  }

  // ---------------------------------------------------------------------------
  // The loaders

  /** The two directory scripts, which differ only in their error message. */
  datatype Script = DiffPdfs | SstWindow

  function NoRowsMessage(s: Script): string {
    match s
    case DiffPdfs => "No TS or HU rows with SST data found."
    case SstWindow => "No TS or HU SST windows found."
  }

  /** `load_windows(t_data_dir)`: the storm rows of the sorted `*_SST.txt`
      files, or the `RuntimeError` raised when there are none. */
  function LoadWindows(s: Script, listing: seq<TextFile>): Result<seq<seq<Float>>, string> {
    var rows := AllSelected(Matching(listing, "_SST.txt"));
    if |rows| == 0 then Err(NoRowsMessage(s)) else Ok(rows)
  }

  function NoWindowsMessage(path: string): string {
    "No SST windows found in " + path
  }

  /** `load_windows(txt_path)` of plot_single_track_sst.py. */
  function LoadTrack(path: string, lines: seq<string>): Result<seq<seq<Float>>, string> {
    var rows := Selected(SingleTrack, lines);
    if |rows| == 0 then Err(NoWindowsMessage(path)) else Ok(rows)
  }

  /** The directory loaders fail exactly when no `*_SST.txt` file holds a
      storm row; otherwise they return the rows of those files, file after
      file in listing order. */
  lemma LoadWindowsSpec(s: Script, listing: seq<TextFile>)
    ensures LoadWindows(s, listing).Err? <==>
      forall f :: f in listing && EndsWith(f.name, "_SST.txt") ==> Selected(Storms, f.lines) == []
    ensures LoadWindows(s, listing).Err? ==> LoadWindows(s, listing).error == NoRowsMessage(s)
  {
    var sel := Matching(listing, "_SST.txt");
    MatchingSpec(listing, "_SST.txt");
    AllSelectedEmpty(sel);
  }

  /** There are no rows exactly when no file has any. */
  lemma AllSelectedEmpty(files: seq<TextFile>)
    ensures |AllSelected(files)| == 0 <==> forall f :: f in files ==> Selected(Storms, f.lines) == []
  {
    AllPickedEmpty(Filter(Storms), files);
  }

  /** The single-file loader fails, naming the file, exactly when no line
      gives a window. */
  lemma LoadTrackSpec(path: string, lines: seq<string>)
    ensures LoadTrack(path, lines).Err? <==> forall i :: 0 <= i < |lines| ==> Select(SingleTrack, lines[i]) == None
    ensures LoadTrack(path, lines).Err? ==> LoadTrack(path, lines).error == NoWindowsMessage(path)
  {
    var rows := Selected(SingleTrack, lines);
    if |rows| > 0 {
      SelectedRows(SingleTrack, lines, rows[0]);
    } else {
      forall i | 0 <= i < |lines| ensures Select(SingleTrack, lines[i]) == None {
        if Select(SingleTrack, lines[i]).Some? {
          SelectedRows(SingleTrack, lines, Select(SingleTrack, lines[i]).value);
        }
      }
    }
  }

  /** The line loop: `rows.append(sst)` for every line the filter keeps. */
  method ReadRows(keep: string -> Option<seq<Float>>, lines: seq<string>, rows: seq<seq<Float>>)
    returns (rows': seq<seq<Float>>)
    ensures rows' == rows + Picked(keep, lines)
  {
    rows' := rows;
    for i := 0 to |lines|
      invariant rows' == rows + Picked(keep, lines[..i])
    {
      assert lines[..i + 1][..i] == lines[..i];
      var w := keep(lines[i]);
      if w.Some? {
        rows' := rows' + [w.value];
      }
    }
    assert lines[..|lines|] == lines;
  }

  /** plot_sst_diff_pdfs.py's and plot_sst_window.py's `load_windows`. */
  method LoadDirectory(s: Script, listing: seq<TextFile>) returns (r: Result<seq<seq<Float>>, string>)
    ensures r == LoadWindows(s, listing)
  {
    var files := Matching(listing, "_SST.txt");
    var keep := Filter(Storms);
    var rows := [];
    for i := 0 to |files|
      invariant rows == AllPicked(keep, files[..i])
    {
      assert files[..i + 1][..i] == files[..i];
      rows := ReadRows(keep, files[i].lines, rows);
    }
    assert files[..|files|] == files;
    assert rows == AllSelected(files);
    if |rows| == 0 {
      return Err(NoRowsMessage(s));
    }
    return Ok(rows);
  }

  /** plot_single_track_sst.py's `load_windows`. */
  method LoadFile(path: string, lines: seq<string>) returns (r: Result<seq<seq<Float>>, string>)
    ensures r == LoadTrack(path, lines)
  {
    var keep := Filter(SingleTrack);
    var rows := ReadRows(keep, lines, []);
    assert rows == Picked(keep, lines);
    assert LoadTrack(path, lines) == if |rows| == 0 then Err(NoWindowsMessage(path)) else Ok(rows);
    if |rows| == 0 {
      return Err(NoWindowsMessage(path));
    }
    return Ok(rows);
  }
}
