/** Reading a best-track file: the coordinate tokens (`parse_latlon`) and the
    loop that splits the lines into header lines and fixes, as the three
    extractors do it (single_TC/extract_sst.py and the two identical HYCOM
    scripts). */
module Track {
  import opened Text
  import opened Wrappers
  import opened Floats

  // ---------------------------------------------------------------------------
  // Coordinate tokens

  /** The hemisphere letters that keep the sign, after upper-casing. */
  predicate KeepsSign(c: char) {
    UpperChar(c) == 'N' || UpperChar(c) == 'E'
  }

  /** `parse_latlon`: `float(token[:-1])`, negated unless the last character,
      upper-cased, is `N` or `E`. Any other last character negates; only a
      number that `float` refuses makes it fail (`None` is Python's
      `ValueError`, which an empty token raises too, since `float("")` fails). */
  function ParseLatLon(token: string): (r: Option<Float>)
  {
    if |token| == 0 then None
    else
      match ParseFloat(token[..|token| - 1])
      case None => None
      case Some(v) => Some(if KeepsSign(token[|token| - 1]) then v else Neg(v))
  }

  /** A number followed by a hemisphere letter: north and east keep the sign,
      south and west (in either case) negate it, and any other final character
      negates it too. */
  lemma HemisphereSign(number: string, v: Float, c: char)
    requires ParseFloat(number) == Some(v)
    ensures ParseLatLon(number + [c]) == Some(if c in "NnEe" then v else Neg(v))
  {
    var t := number + [c];
    assert t[..|t| - 1] == number;
    KeepsSignLetters(c);
  }

  /** Upper-casing maps exactly `N`, `n`, `E` and `e` to `N` or `E`. */
  lemma KeepsSignLetters(c: char)
    ensures KeepsSign(c) <==> c in "NnEe"
  {
    if 'a' <= c <= 'z' {
      assert UpperChar(c) == 'N' <==> c == 'n';
      assert UpperChar(c) == 'E' <==> c == 'e';
    }
  }

  /** The token's magnitude is the number in front of the letter: the result is
      that number or its negation. */
  lemma LatLonMagnitude(token: string)
    requires ParseLatLon(token).Some?
    ensures var v := ParseFloat(token[..|token| - 1]).value;
      ParseLatLon(token).value == v || ParseLatLon(token).value == Neg(v)
  {
  }

  // ---------------------------------------------------------------------------
  // Fixes and header lines

  /** One fix as the extractors keep it: the line without its newline, the
      date field, and the signed coordinates. */
  datatype Fix = Fix(raw: string, ymd: string, lat: Float, lon: Float)

  datatype TrackFile = TrackFile(header: seq<string>, fixes: seq<Fix>)

  /** Why reading stops: field 4 or 5 of the fix line at `line` (0-based) is
      absent (`IndexError`) or is not a coordinate (`ValueError`). */
  datatype ReadError = MissingField(line: nat, field: nat) | BadCoordinate(line: nat, field: nat)

  /** The record built from one fix line, in Python's evaluation order: field
      4 is looked up and parsed before field 5. */
  function ReadFix(index: nat, line: string): (r: Result<Fix, ReadError>)
    requires IsFixLine(line)
    ensures |Fields(line)| < 6 ==> r.Err?
    ensures r.Ok? <==> |Fields(line)| >= 6 && ParseLatLon(Fields(line)[4]).Some? && ParseLatLon(Fields(line)[5]).Some?
    ensures r.Ok? ==> r.value.raw == RStripNewline(line) && r.value.ymd == line[..8]
    ensures r.Ok? ==> r.value.lat == ParseLatLon(Fields(line)[4]).value && r.value.lon == ParseLatLon(Fields(line)[5]).value
    ensures r.Err? ==> r.error.line == index
  {
    var p := Fields(line);
    FixLineFirstField(line);
    if |p| < 5 then Err(MissingField(index, 4))
    else match ParseLatLon(p[4])
      case None => Err(BadCoordinate(index, 4))
      case Some(lat) =>
        if |p| < 6 then Err(MissingField(index, 5))
        else match ParseLatLon(p[5])
          case None => Err(BadCoordinate(index, 5))
          case Some(lon) => Ok(Fix(RStripNewline(line), p[0], lat, lon))
  }

  /** The reading loop over `lines` (each with its newline, as Python's file
      iteration yields them): the first bad fix line stops it, and otherwise
      every other line is kept as a header line without its newline. */
  function ReadTrack(lines: seq<string>): Result<TrackFile, ReadError> {
    if |lines| == 0 then Ok(TrackFile([], []))
    else
      var n := |lines| - 1;
      match ReadTrack(lines[..n])
      case Err(e) => Err(e)
      case Ok(t) =>
        var line := lines[n];
        if IsFixLine(line) then
          match ReadFix(n, line)
          case Err(e) => Err(e)
          case Ok(f) => Ok(TrackFile(t.header, t.fixes + [f]))
        else Ok(TrackFile(t.header + [RStripNewline(line)], t.fixes))
  }

  /** The lines that are not fixes, without their newlines, in input order. */
  function HeaderLines(lines: seq<string>): seq<string> {
    if |lines| == 0 then []
    else
      var n := |lines| - 1;
      HeaderLines(lines[..n]) + (if IsFixLine(lines[n]) then [] else [RStripNewline(lines[n])])
  }

  /** The fix lines, in input order. */
  function FixLines(lines: seq<string>): (r: seq<string>)
    ensures forall k :: 0 <= k < |r| ==> IsFixLine(r[k])
  {
    if |lines| == 0 then []
    else
      var n := |lines| - 1;
      FixLines(lines[..n]) + (if IsFixLine(lines[n]) then [lines[n]] else [])
  }

  /** Every fix line of `lines` reads as a fix. */
  predicate AllFixesRead(lines: seq<string>) {
    forall k :: 0 <= k < |lines| && IsFixLine(lines[k]) ==> ReadFix(k, lines[k]).Ok?
  }

  /** Reading succeeds exactly when every fix line reads. */
  lemma {:induction false} ReadTrackSucceeds(lines: seq<string>)
    ensures ReadTrack(lines).Ok? <==> AllFixesRead(lines)
  {
    if |lines| > 0 {
      var n := |lines| - 1;
      var init := lines[..n];
      ReadTrackSucceeds(init);
      assert forall k :: 0 <= k < n ==> init[k] == lines[k];
      if AllFixesRead(lines) {
        assert AllFixesRead(init);
      } else if AllFixesRead(init) {
        assert IsFixLine(lines[n]) && ReadFix(n, lines[n]).Err?;
      } else {
        var k :| 0 <= k < n && IsFixLine(init[k]) && ReadFix(k, init[k]).Err?;
        assert IsFixLine(lines[k]) && ReadFix(k, lines[k]).Err?;
      }
    }
  }

  /** A successful read keeps every non-fix line, in input order, as the
      header. */
  lemma {:induction false} ReadTrackHeader(lines: seq<string>)
    requires ReadTrack(lines).Ok?
    ensures ReadTrack(lines).value.header == HeaderLines(lines)
  {
    if |lines| > 0 {
      var init := lines[..|lines| - 1];
      assert ReadTrack(init).Ok?;
      ReadTrackHeader(init);
    }
  }

  /** The line number in a `ReadFix` error is only a label: whether a line
      reads, and the fix it gives, do not depend on it. */
  lemma ReadFixIndex(m: nat, n: nat, line: string)
    requires IsFixLine(line)
    ensures ReadFix(m, line).Ok? <==> ReadFix(n, line).Ok?
    ensures ReadFix(m, line).Ok? ==> ReadFix(m, line).value == ReadFix(n, line).value
  {
  }

  /** A successful read makes one fix per fix line, in input order: the fix
      `ReadFix` makes of that line, holding its text, its date field and its
      coordinates. */
  lemma {:induction false} ReadTrackFixes(lines: seq<string>)
    requires ReadTrack(lines).Ok?
    ensures |ReadTrack(lines).value.fixes| == |FixLines(lines)|
    ensures forall j :: 0 <= j < |FixLines(lines)| ==>
      ReadFix(0, FixLines(lines)[j]).Ok? &&
      ReadTrack(lines).value.fixes[j] == ReadFix(0, FixLines(lines)[j]).value
  {
    if |lines| > 0 {
      var n := |lines| - 1;
      var init := lines[..n];
      assert ReadTrack(init).Ok?;
      ReadTrackFixes(init);
      var t0, t := ReadTrack(init).value, ReadTrack(lines).value;
      var fl0, fl := FixLines(init), FixLines(lines);
      if IsFixLine(lines[n]) {
        ReadFixIndex(n, 0, lines[n]);
        assert t.fixes == t0.fixes + [ReadFix(0, lines[n]).value];
        assert fl == fl0 + [lines[n]];
        FixesAppend(fl0, t0.fixes, lines[n]);
      } else {
        assert t.fixes == t0.fixes;
        assert fl == fl0;
      }
    }
  }

  /** One more fix line read in order extends the fixes read from the earlier
      ones. */
  lemma FixesAppend(fl: seq<string>, fixes: seq<Fix>, line: string)
    requires |fixes| == |fl|
    requires forall j :: 0 <= j < |fl| ==>
      IsFixLine(fl[j]) && ReadFix(0, fl[j]).Ok? && fixes[j] == ReadFix(0, fl[j]).value
    requires IsFixLine(line) && ReadFix(0, line).Ok?
    ensures forall j :: 0 <= j < |fl| + 1 ==>
      IsFixLine((fl + [line])[j]) && ReadFix(0, (fl + [line])[j]).Ok? &&
      (fixes + [ReadFix(0, line).value])[j] == ReadFix(0, (fl + [line])[j]).value
  {
    var fl', fixes' := fl + [line], fixes + [ReadFix(0, line).value];
    forall j | 0 <= j < |fl'|
      ensures IsFixLine(fl'[j]) && ReadFix(0, fl'[j]).Ok? && fixes'[j] == ReadFix(0, fl'[j]).value
    {
      if j < |fl| {
        assert fl'[j] == fl[j] && fixes'[j] == fixes[j];
      }
    }
  }

  /** A successful read makes fix `j` from fix line `j`: its text and its
      date field. */
  lemma ReadTrackRaw(lines: seq<string>)
    requires ReadTrack(lines).Ok?
    ensures |ReadTrack(lines).value.fixes| == |FixLines(lines)|
    ensures forall j :: 0 <= j < |FixLines(lines)| ==>
      ReadTrack(lines).value.fixes[j].raw == RStripNewline(FixLines(lines)[j]) &&
      ReadTrack(lines).value.fixes[j].ymd == FixLines(lines)[j][..8]
  {
    ReadTrackFixes(lines);
  }

  /** Once a prefix fails, the whole file fails with the same error. */
  lemma {:induction false} ReadTrackErrorSticks(lines: seq<string>, i: nat)
    requires i <= |lines|
    requires ReadTrack(lines[..i]).Err?
    ensures ReadTrack(lines) == ReadTrack(lines[..i])
    decreases |lines| - i
  {
    if i < |lines| {
      assert lines[..i + 1][..i] == lines[..i];
      ReadTrackErrorSticks(lines, i + 1);
    } else {
      assert lines[..i] == lines;
    }
  }

  /** The reading loop of the extractors: `header` and `rows` grow line by line. */
  method ReadTrackFile(lines: seq<string>) returns (r: Result<TrackFile, ReadError>)
    ensures r == ReadTrack(lines)
  {
    var header: seq<string> := [];
    var fixes: seq<Fix> := [];
    var i := 0;
    while i < |lines|
      invariant 0 <= i <= |lines|
      invariant ReadTrack(lines[..i]) == Ok(TrackFile(header, fixes))
    {
      var line := lines[i];
      assert lines[..i + 1][..i] == lines[..i];
      if IsFixLine(line) {
        var f := ReadFix(i, line);
        if f.Err? {
          ReadTrackErrorSticks(lines, i + 1);
          return Err(f.error);
        }
        fixes := fixes + [f.value];
      } else {
        header := header + [RStripNewline(line)];
      }
      i := i + 1;
    }
    assert lines[..i] == lines;
    return Ok(TrackFile(header, fixes));
  }
}
