/** find_mixed_missing_sst.py: the rows of the extractors' output files whose
    31 values mix missing and present ones, reported with their 1-based line
    numbers. A file is its name and its lines, each with its newline. */
module MissingScan {
  import opened Text
  import opened Floats
  import opened Extract
  import opened Files

  // ---------------------------------------------------------------------------
  // Tokens

  /** `is_missing`: the token, stripped and lower-cased, is `nan`, empty or
      `-999`. */
  predicate IsMissing(tok: string) {
    var t := Lower(Strip(tok));
    t == "nan" || t == "" || t == "-999"
  }

  /** A token is missing exactly when it strips to nothing, to `nan` in any
      letter case, or to `-999` itself. */
  lemma MissingTokens(tok: string)
    ensures IsMissing(tok) <==> Strip(tok) == "" || Lower(Strip(tok)) == "nan" || Strip(tok) == "-999"
  {
    LowerOfPlain(Strip(tok), "-999");
  }

  /** Lower-casing gives a string without letters only from that string
      itself. */
  lemma LowerOfPlain(s: string, t: string)
    requires forall i :: 0 <= i < |t| ==> !('a' <= t[i] <= 'z') && !('A' <= t[i] <= 'Z')
    ensures Lower(s) == t <==> s == t
  {
    if Lower(s) == t {
      forall i | 0 <= i < |s| ensures s[i] == t[i] {
        assert LowerChar(s[i]) == t[i];
      }
    }
  }

  /** Whether a token is missing depends only on its stripped, lower-cased
      text. */
  lemma MissingWhen(tok: string, t: string)
    requires Lower(Strip(tok)) == t
    ensures IsMissing(tok) <==> t == "nan" || t == "" || t == "-999"
  {
  }

  lemma LowerNaN()
    ensures Lower("NaN") == "nan"
  {
  }

  lemma NaNTokenMissing()
    ensures IsMissing("NaN")
  {
    StripNoSpace("NaN");
    LowerNaN();
    MissingWhen("NaN", "nan");
  }

  /** A text with a decimal point is none of the missing markers. */
  lemma PointIsNoMarker(t: string, i: int)
    requires 0 <= i < |t| && t[i] == '.'
    ensures t != "nan" && t != "" && t != "-999"
  {
  }

  /** A token holding a decimal point is never missing: `-999.00`, unlike
      `-999`, counts as a value. */
  lemma PointNotMissing(tok: string, i: int)
    requires 0 <= i < |Strip(tok)| && Strip(tok)[i] == '.'
    ensures !IsMissing(tok)
  {
    var t := Lower(Strip(tok));
    PointIsNoMarker(t, i);
    MissingWhen(tok, t);
  }

  /** A value the extractors write is a missing token exactly when it is NaN. */
  lemma WrittenValueMissing(v: Float)
    ensures IsMissing(Format62(v)) <==> v.NaN?
  {
    match v
    case NaN => WrittenNaNMissing();
    case Inf(neg) => WrittenInfPresent(neg);
    case Finite(x) => WrittenFinitePresent(x);
  }

  lemma LowerSpecials()
    ensures Lower("nan") == "nan" && Lower("inf") == "inf" && Lower("-inf") == "-inf"
  {
  }

  lemma WrittenNaNMissing()
    ensures IsMissing(Format62(NaN))
  {
    StripPadded("nan", 6);
    LowerSpecials();
    MissingWhen(Format62(NaN), "nan");
  }

  lemma WrittenInfPresent(neg: bool)
    ensures !IsMissing(Format62(Inf(neg)))
  {
    if neg {
      assert Format62(Inf(neg)) == PadLeft("-inf", 6);
      TextPresent(PadLeft("-inf", 6), "-inf");
    } else {
      assert Format62(Inf(neg)) == PadLeft("inf", 6);
      TextPresent(PadLeft("inf", 6), "inf");
    }
  }

  /** `inf` and `-inf`, padded, are values. */
  lemma TextPresent(tok: string, body: string)
    requires body == "inf" || body == "-inf"
    requires tok == PadLeft(body, 6)
    ensures !IsMissing(tok)
  {
    StripPadded(body, 6);
    LowerSpecials();
    MissingWhen(tok, body);
  }

  lemma WrittenFinitePresent(x: real)
    ensures !IsMissing(Format62(Finite(x)))
  {
    assert Format62(Finite(x)) == FixedText(x < 0.0, Cents(x));
    FixedTextPresent(x < 0.0, Cents(x));
  }

  /** A finite value's text holds a decimal point, so it is not missing. */
  lemma FixedTextPresent(neg: bool, c: nat)
    ensures !IsMissing(FixedText(neg, c))
  {
    FixedTextStrips(neg, c);
    var sign := if neg then "-" else "";
    SignedNumeralPoint(sign, c);
    PointNotMissing(FixedText(neg, c), |sign| + |NatToString(c / 100)|);
  }

  /** The padding of a finite value's text is all that stripping removes. */
  lemma FixedTextStrips(neg: bool, c: nat)
    ensures Strip(FixedText(neg, c)) == (if neg then "-" else "") + Numeral2(c)
  {
    var body := (if neg then "-" else "") + Numeral2(c);
    Numeral2Parses(c);
    assert body[|body| - 1] == Numeral2(c)[|Numeral2(c)| - 1];
    assert !IsSpace(body[0]) by {
      if !neg {
        assert body[0] == Numeral2(c)[0];
      }
    }
    StripPadded(body, 6);
  }

  /** The point of `q.rr` sits right after the digits of `q`. */
  lemma SignedNumeralPoint(sign: string, c: nat)
    ensures |sign| + |NatToString(c / 100)| < |sign + Numeral2(c)|
    ensures (sign + Numeral2(c))[|sign| + |NatToString(c / 100)|] == '.'
  {
    var ip := NatToString(c / 100);
    var num := Numeral2(c);
    assert num == ip + "." + ZeroPad(c % 100, 2);
    assert num[|ip|] == '.';
  }

  // ---------------------------------------------------------------------------
  // Rows

  /** `miss_mask = [is_missing(v) for v in win]`. */
  function MissMask(ts: seq<string>): (m: seq<bool>)
  {
    seq(|ts|, k requires 0 <= k < |ts| => IsMissing(ts[k]))
  }

  /** `any(miss_mask) and not all(miss_mask)`. */
  predicate Mixed(ts: seq<string>) {
    var m := MissMask(ts);
    0 < Trues(m) < |m|
  }

  /** A window is mixed exactly when one of its tokens is missing and another
      is not. */
  lemma MixedMeans(ts: seq<string>)
    ensures Mixed(ts) <==>
      (exists k :: 0 <= k < |ts| && IsMissing(ts[k])) && (exists k :: 0 <= k < |ts| && !IsMissing(ts[k]))
  {
    var m := MissMask(ts);
    MissMaskAt(ts);
    MaskWitnesses(ts, m);
    TruesSpec(m);
  }

  /** A position of the mask is true exactly where its token is missing. */
  lemma MaskWitnesses(ts: seq<string>, m: seq<bool>)
    requires |m| == |ts| && forall k :: 0 <= k < |ts| ==> m[k] == IsMissing(ts[k])
    ensures (exists k :: 0 <= k < |m| && m[k]) <==> (exists k :: 0 <= k < |ts| && IsMissing(ts[k]))
    ensures (exists k :: 0 <= k < |m| && !m[k]) <==> (exists k :: 0 <= k < |ts| && !IsMissing(ts[k]))
  {
  }

  /** Each entry of the mask is the missing test of its token. */
  lemma MissMaskAt(ts: seq<string>)
    ensures |MissMask(ts)| == |ts|
    ensures forall k :: 0 <= k < |ts| ==> MissMask(ts)[k] == IsMissing(ts[k])
  {
  }

  /** A fix line with at least 31 fields whose last 31 fields mix missing and
      present values. */
  predicate IsMixedLine(line: string) {
    IsFixLine(line) && |Fields(line)| >= 31 && Mixed(Last(Fields(line), 31))
  }

  /** One yielded row: its 1-based line number and its text without the
      newline. */
  datatype Hit = Hit(lineno: nat, content: string)

  /** Which lines of a file are mixed rows. */
  function MixedMask(lines: seq<string>): (m: seq<bool>)
  {
    seq(|lines|, i requires 0 <= i < |lines| => IsMixedLine(lines[i]))
  }

  /** The lines that `mask` marks, with their 1-based numbers and their text,
      in file order. */
  function Marked(lines: seq<string>, mask: seq<bool>): seq<Hit>
    requires |mask| == |lines|
  {
    if |lines| == 0 then []
    else
      var n := |lines| - 1;
      Marked(lines[..n], mask[..n]) + (if mask[n] then [Hit(n + 1, RStripNewline(lines[n]))] else [])
  }

  /** Each hit names a marked line and holds that line's text. */
  lemma {:induction false} MarkedSound(lines: seq<string>, mask: seq<bool>, k: int)
    requires |mask| == |lines| && 0 <= k < |Marked(lines, mask)|
    ensures MarksLine(Marked(lines, mask)[k], lines, mask)
  {
    var n := |lines| - 1;
    var init := Marked(lines[..n], mask[..n]);
    if k < |init| {
      MarkedSound(lines[..n], mask[..n], k);
      var h := init[k];
      assert Marked(lines, mask)[k] == h;
      assert lines[..n][h.lineno - 1] == lines[h.lineno - 1];
      assert mask[..n][h.lineno - 1] == mask[h.lineno - 1];
    }
  }

  /** The hit names a line that `mask` marks and holds that line's text. */
  predicate MarksLine(h: Hit, lines: seq<string>, mask: seq<bool>)
    requires |mask| == |lines|
  {
    1 <= h.lineno <= |lines| && mask[h.lineno - 1] && h.content == RStripNewline(lines[h.lineno - 1])
  }

  /** Hits come in increasing line order. */
  lemma {:induction false} MarkedIncreasing(lines: seq<string>, mask: seq<bool>, a: int, b: int)
    requires |mask| == |lines| && 0 <= a < b < |Marked(lines, mask)|
    ensures Marked(lines, mask)[a].lineno < Marked(lines, mask)[b].lineno
  {
    var n := |lines| - 1;
    var init := Marked(lines[..n], mask[..n]);
    assert Marked(lines, mask)[a] == init[a];
    if b < |init| {
      MarkedIncreasing(lines[..n], mask[..n], a, b);
      assert Marked(lines, mask)[b] == init[b];
    } else {
      MarkedSound(lines[..n], mask[..n], a);
    }
  }

  /** Every marked line is among the hits. */
  lemma {:induction false} MarkedComplete(lines: seq<string>, mask: seq<bool>, i: int)
    requires |mask| == |lines| && 0 <= i < |lines| && mask[i]
    ensures exists k :: 0 <= k < |Marked(lines, mask)| && Marked(lines, mask)[k].lineno == i + 1
  {
    var n := |lines| - 1;
    var init := Marked(lines[..n], mask[..n]);
    if i < n {
      assert mask[..n][i] == mask[i];
      MarkedComplete(lines[..n], mask[..n], i);
      var k :| 0 <= k < |init| && init[k].lineno == i + 1;
      assert Marked(lines, mask)[k] == init[k];
    } else {
      assert Marked(lines, mask)[|init|].lineno == i + 1;
    }
  }

  /** `mixed_rows(path)`: the mixed rows of the file with their line numbers
      and their text. */
  function MixedRows(lines: seq<string>): seq<Hit> {
    Marked(lines, MixedMask(lines))
  }

  /** Every reported row is a mixed row, numbered from 1 and reported with
      its text without the newline. */
  lemma MixedRowsSound(lines: seq<string>)
    ensures forall k :: 0 <= k < |MixedRows(lines)| ==> ReportsLine(MixedRows(lines)[k], lines)
  {
    var m := MixedMask(lines);
    var hits := MixedRows(lines);
    assert hits == Marked(lines, m);
    forall k | 0 <= k < |hits| ensures ReportsLine(hits[k], lines) {
      MarkedSound(lines, m, k);
      var h := hits[k];
      assert MarksLine(h, lines, m);
      assert m[h.lineno - 1] == IsMixedLine(lines[h.lineno - 1]);
    }
  }

  /** The hit names a mixed line of the file and holds its text. */
  predicate ReportsLine(h: Hit, lines: seq<string>) {
    1 <= h.lineno <= |lines| && IsMixedLine(lines[h.lineno - 1]) && h.content == RStripNewline(lines[h.lineno - 1])
  }

  /** The rows come in file order. */
  lemma MixedRowsOrdered(lines: seq<string>)
    ensures forall a, b :: 0 <= a < b < |MixedRows(lines)| ==> MixedRows(lines)[a].lineno < MixedRows(lines)[b].lineno
  {
    var m := MixedMask(lines);
    var hits := MixedRows(lines);
    assert hits == Marked(lines, m);
    forall a, b | 0 <= a < b < |hits| ensures hits[a].lineno < hits[b].lineno {
      MarkedIncreasing(lines, m, a, b);
    }
  }

  /** Every mixed row is reported. */
  lemma MixedRowsComplete(lines: seq<string>, i: int)
    requires 0 <= i < |lines| && IsMixedLine(lines[i])
    ensures exists k :: 0 <= k < |MixedRows(lines)| && MixedRows(lines)[k].lineno == i + 1
  {
    var m := MixedMask(lines);
    assert MixedRows(lines) == Marked(lines, m);
    MarkedComplete(lines, m, i);
  }

  /** One more line extends the marked rows by that line when it is marked. */
  lemma MarkedSnoc(lines: seq<string>, m: seq<bool>, i: int)
    requires |m| == |lines| && 0 <= i < |lines|
    ensures Marked(lines[..i + 1], m[..i + 1]) ==
      Marked(lines[..i], m[..i]) + (if m[i] then [Hit(i + 1, RStripNewline(lines[i]))] else [])
  {
    assert lines[..i + 1][..i] == lines[..i] && m[..i + 1][..i] == m[..i];
  }

  /** The scanning loop: `for lineno, line in enumerate(f, 1)`. */
  method ScanLines(lines: seq<string>) returns (hits: seq<Hit>)
    ensures hits == MixedRows(lines)
  {
    ghost var m := MixedMask(lines);
    hits := [];
    var i := 0;
    while i < |lines|
      invariant 0 <= i <= |lines|
      invariant hits == Marked(lines[..i], m[..i])
    {
      MarkedSnoc(lines, m, i);
      if IsMixedLine(lines[i]) {
        hits := hits + [Hit(i + 1, RStripNewline(lines[i]))];
      }
      i := i + 1;
    }
    assert lines[..i] == lines && m[..i] == m;
  }

  /** Which values of a window are NaN. */
  function NaNMask(w: seq<Float>): (m: seq<bool>)
  {
    seq(|w|, k requires 0 <= k < |w| => w[k].NaN?)
  }

  /** The written tokens of a window are missing exactly where the window
      holds NaN. */
  lemma WrittenMask(ts: seq<string>, w: seq<Float>)
    requires |ts| == |w|
    requires forall k :: 0 <= k < |w| ==> ts[k] == Strip(Format62(w[k]))
    ensures MissMask(ts) == NaNMask(w)
  {
    forall k | 0 <= k < |w| ensures MissMask(ts)[k] == NaNMask(w)[k] {
      StripTwice(Format62(w[k]));
      WrittenValueMissing(w[k]);
    }
  }

  /** The window holds a NaN. */
  predicate HasNaN(w: seq<Float>) {
    exists k :: 0 <= k < |w| && w[k].NaN?
  }

  /** The window holds a value other than NaN. */
  predicate HasNumber(w: seq<Float>) {
    exists k :: 0 <= k < |w| && !w[k].NaN?
  }

  /** A row the extractors write, for a fix line and a 31-day window, is
      reported exactly when the window holds both a NaN and a value. */
  lemma WrittenRowMixed(line: string, w: seq<Float>)
    requires IsFixLine(line) && |w| == 31
    ensures IsMixedLine(Render(RStripNewline(line), w) + "\n") <==> HasNaN(w) && HasNumber(w)
  {
    WrittenRowMask(line, w);
    MixedByMask(Render(RStripNewline(line), w) + "\n", w);
  }

  /** The last 31 tokens of a written row are missing exactly where its
      window holds NaN. */
  lemma WrittenRowMask(line: string, w: seq<Float>)
    requires IsFixLine(line) && |w| == 31
    ensures IsFixLine(Render(RStripNewline(line), w) + "\n")
    ensures |Fields(Render(RStripNewline(line), w) + "\n")| >= 31
    ensures MissMask(Last(Fields(Render(RStripNewline(line), w) + "\n"), 31)) == NaNMask(w)
  {
    var raw := RStripNewline(line);
    var row := Render(raw, w) + "\n";
    RowKeepsKind(line, w);
    RowCells(raw, w);
    var last := Last(Fields(row), 31);
    assert forall k :: 0 <= k < 31 ==> last[k] == Strip(Format62(w[k]));
    WrittenMask(last, w);
  }

  /** A fix line whose last 31 tokens are missing where `w` holds NaN is
      mixed exactly when `w` holds both a NaN and a value. */
  lemma MixedByMask(row: string, w: seq<Float>)
    requires IsFixLine(row) && |Fields(row)| >= 31 && |w| == 31
    requires MissMask(Last(Fields(row), 31)) == NaNMask(w)
    ensures IsMixedLine(row) <==> HasNaN(w) && HasNumber(w)
  {
    NaNMaskSpec(w);
  }

  /** Counting the NaN mask tells whether the window has a NaN and whether it
      has a value. */
  lemma NaNMaskSpec(w: seq<Float>)
    ensures Trues(NaNMask(w)) > 0 <==> HasNaN(w)
    ensures Trues(NaNMask(w)) < |w| <==> HasNumber(w)
  {
    var m := NaNMask(w);
    assert forall k :: 0 <= k < |w| ==> m[k] == w[k].NaN?;
    TruesSpec(m);
    assert HasNaN(w) <==> exists k :: 0 <= k < |m| && m[k];
    assert HasNumber(w) <==> exists k :: 0 <= k < |m| && !m[k];
  }

  // ---------------------------------------------------------------------------
  // The report

  /** `content[:40]`, followed by `…` when the row is longer. */
  function Preview(content: string): (p: string)
    ensures |content| <= 40 ==> p == content
    ensures |content| > 40 ==> |p| == 41 && p[..40] == content[..40] && p[40] == '\U{2026}'
  {
    Take(content, 40) + (if |content| > 40 then "\U{2026}" else "")
  }

  const Heading: string := "Files and rows with mixed missing/non-missing SST values:"

  /** `f"{txt.name}: line {lineno}  ({preview})"`. */
  function HitLine(name: string, h: Hit): string {
    name + ": line " + NatToString(h.lineno) + "  (" + Preview(h.content) + ")"
  }

  /** The confirmation printed when no file has a mixed row. */
  function NothingFound(dir: string): string {
    "\U{2713} No mixed rows detected in " + dir
  }

  /** One report line per hit, in order. */
  function HitLines(name: string, hits: seq<Hit>): (out: seq<string>)
    ensures |out| == |hits|
  {
    if |hits| == 0 then [] else HitLines(name, hits[..|hits| - 1]) + [HitLine(name, hits[|hits| - 1])]
  }

  /** Line `k` of `HitLines` reports hit `k`. */
  lemma {:induction false} HitLinesAt(name: string, hits: seq<Hit>, k: int)
    requires 0 <= k < |hits|
    ensures HitLines(name, hits)[k] == HitLine(name, hits[k])
  {
    var n := |hits| - 1;
    if k < n {
      HitLinesAt(name, hits[..n], k);
    }
  }

  /** The report line of every mixed row, file by file in the given order. */
  function AllHitLines(files: seq<TextFile>): seq<string> {
    if |files| == 0 then []
    else
      var n := |files| - 1;
      AllHitLines(files[..n]) + HitLines(files[n].name, MixedRows(files[n].lines))
  }

  /** The files the scanner reads: `glob('*_SST.txt')`. */
  function Scanned(listing: seq<TextFile>): seq<TextFile> {
    Matching(listing, "_SST.txt")
  }

  /** What `main` prints for a directory: the heading and one line per mixed
      row of its `*_SST.txt` files, or the confirmation when there is none. */
  function Report(dir: string, listing: seq<TextFile>): seq<string> {
    var hs := AllHitLines(Scanned(listing));
    if |hs| == 0 then [NothingFound(dir)] else [Heading] + hs
  }

  /** There are report lines for mixed rows exactly when some file has a
      mixed row. */
  lemma {:induction false} HitLinesFound(files: seq<TextFile>)
    ensures |AllHitLines(files)| > 0 <==> exists f :: f in files && |MixedRows(f.lines)| > 0
  {
    if |files| > 0 {
      var n := |files| - 1;
      HitLinesFound(files[..n]);
      assert files == files[..n] + [files[n]];
    }
  }

  /** With no mixed row in any `*_SST.txt` file the report is the
      confirmation alone; otherwise it is the heading followed by one line per
      mixed row, file by file. */
  lemma ReportFound(dir: string, listing: seq<TextFile>)
    ensures (forall f :: f in listing && EndsWith(f.name, "_SST.txt") ==> |MixedRows(f.lines)| == 0) ==>
      Report(dir, listing) == [NothingFound(dir)]
    ensures (exists f :: f in listing && EndsWith(f.name, "_SST.txt") && |MixedRows(f.lines)| > 0) ==>
      Report(dir, listing) == [Heading] + AllHitLines(Scanned(listing))
  {
    HitLinesFound(Scanned(listing));
    MatchingSpec(listing, "_SST.txt");
  }

  /** What has been printed once `hs` are the row lines so far: the heading
      and those lines, or nothing while there are none. */
  function Listed(hs: seq<string>): seq<string> {
    if |hs| == 0 then [] else [Heading] + hs
  }

  /** The inner loop of `main` over the row lines of one file: the heading
      goes out just before the first row line of the whole report. */
  method ListLines(lines: seq<string>, done: seq<string>, found: bool, out: seq<string>)
    returns (found': bool, out': seq<string>)
    requires found <==> |done| > 0
    requires out == Listed(done)
    ensures found' <==> |done + lines| > 0
    ensures out' == Listed(done + lines)
  {
    found', out' := found, out;
    for j := 0 to |lines|
      invariant found' <==> |done + lines[..j]| > 0
      invariant out' == Listed(done + lines[..j])
    {
      assert done + lines[..j + 1] == (done + lines[..j]) + [lines[j]];
      if !found' {
        out' := out' + [Heading];
        found' := true;
      }
      out' := out' + [lines[j]];
    }
    assert lines[..|lines|] == lines;
  }

  /** The reporting loop of `main`: the `found` flag prints the heading once,
      before the first mixed row, and the confirmation when it stays unset. */
  method PrintReport(dir: string, listing: seq<TextFile>) returns (out: seq<string>)
    ensures out == Report(dir, listing)
  {
    var files := Scanned(listing);
    var found := false;
    out := [];
    for i := 0 to |files|
      invariant found <==> |AllHitLines(files[..i])| > 0
      invariant out == Listed(AllHitLines(files[..i]))
    {
      assert files[..i + 1][..i] == files[..i];
      var hits := ScanLines(files[i].lines);
      assert AllHitLines(files[..i + 1]) == AllHitLines(files[..i]) + HitLines(files[i].name, hits);
      found, out := ListLines(HitLines(files[i].name, hits), AllHitLines(files[..i]), found, out);
    }
    assert files[..|files|] == files;
    if !found {
      out := out + [NothingFound(dir)];
    }
  }
}
