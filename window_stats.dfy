/** The array steps of plot_sst_diff_pdfs.py and plot_sst_window.py once the
    windows are loaded: column `i` of a window is day `i - 15`; the ΔSST of a
    row subtracts from day 0 another day or the mean of days -10 to -4; rows
    are grouped by the sign of that ΔSST; `stats` reduces a group column by
    column; and a panel shows the share of positive finite ΔSST values. */
module WindowStats {
  import opened Text
  import opened Floats
  import opened Window

  // ---------------------------------------------------------------------------
  // Columns and days

  /** Column `i` of a window holds day `i - 15`. */
  function Day(i: int): int { i - 15 }

  /** The column of day `d`. */
  function ColumnOf(d: int): int { d + 15 }

  const Day0 := 15        // idx0
  const DayMinus15 := 0   // idx_m15
  const DayMinus10 := 5   // idx_m10
  const DayMinus4 := 11   // idx_m4

  /** `np.arange(-15, 16)`, the day axis of the plots. */
  function Days(): (ds: seq<int>)
    ensures |ds| == 31
  {
    seq(31, i requires 0 <= i < 31 => -15 + i)
  }

  /** The day axis has one day per column, in column order, and is the
      extractors' offset list: the columns are the days the extractor
      sampled. */
  lemma DaysAxis()
    ensures forall i :: 0 <= i < 31 ==> Days()[i] == Day(i) && ColumnOf(Days()[i]) == i
    ensures Days() == Offsets()
    ensures Day(Day0) == 0 && Day(DayMinus15) == -15 && Day(DayMinus10) == -10 && Day(DayMinus4) == -4
  {
    assert forall i :: 0 <= i < 31 ==> Days()[i] == Offsets()[i];
  }

  /** A loaded window: one value per day. */
  predicate IsWindow(row: seq<Float>) { |row| == 31 }

  /** Every row of the array is a window (`np.stack` of 31-value rows). */
  predicate IsArray(data: seq<seq<Float>>) {
    forall r :: 0 <= r < |data| ==> IsWindow(data[r])
  }

  // ---------------------------------------------------------------------------
  // Baseline, anomaly and ΔSST

  /** `data[:, idx_m10:idx_m4+1]` for one row. */
  function BaselineCells(row: seq<Float>): seq<Float>
    requires IsWindow(row)
  {
    row[DayMinus10..DayMinus4 + 1]
  }

  /** The baseline averages seven columns, days -10 to -4 in order. */
  lemma BaselineSpan(row: seq<Float>)
    requires IsWindow(row)
    ensures |BaselineCells(row)| == 7
    ensures forall k :: 0 <= k < 7 ==> BaselineCells(row)[k] == row[ColumnOf(-10 + k)]
    ensures Day(DayMinus10 + 6) == -4
  {
  }

  /** `.mean(axis=1)` over the baseline columns. */
  function Baseline(row: seq<Float>): Float
    requires IsWindow(row)
  {
    Mean(BaselineCells(row))
  }

  /** With finite baseline days, the baseline is the real average of the
      values on days -10 to -4. */
  lemma BaselineValue(row: seq<Float>)
    requires IsWindow(row)
    requires forall k :: DayMinus10 <= k <= DayMinus4 ==> row[k].Finite?
    ensures Baseline(row) ==
      Finite((row[5].v + row[6].v + row[7].v + row[8].v + row[9].v + row[10].v + row[11].v) / 7.0)
  {
    var c := BaselineCells(row);
    assert |c| == 7 && forall k :: 0 <= k < 7 ==> c[k] == row[DayMinus10 + k];
    SevenTotal(c);
  }

  /** The total of seven finite values, written out. */
  lemma SevenTotal(c: seq<Float>)
    requires |c| == 7 && AllFinite(c)
    ensures RealSum(c) == c[0].v + c[1].v + c[2].v + c[3].v + c[4].v + c[5].v + c[6].v
  {
    assert c[7..] == [];
    RealSumFrom(c, 6);
    RealSumFrom(c, 5);
    RealSumFrom(c, 4);
    RealSumFrom(c, 3);
    RealSumFrom(c, 2);
    RealSumFrom(c, 1);
    RealSumFrom(c, 0);
    assert c[0..] == c;
  }

  /** `anom = data - baseline` for one row. */
  function Anomaly(row: seq<Float>): (a: seq<Float>)
    requires IsWindow(row)
    ensures IsWindow(a)
  {
    seq(31, k requires 0 <= k < 31 => Sub(row[k], Baseline(row)))
  }

  /** `delta = data[:, idx0] - baseline`. */
  function Delta(row: seq<Float>): Float
    requires IsWindow(row)
  {
    Sub(row[Day0], Baseline(row))
  }

  /** A row's ΔSST is its day-0 anomaly, and a finite baseline makes each
      anomaly the value less the baseline, finite where the value is. */
  lemma AnomalySpec(row: seq<Float>, k: int)
    requires IsWindow(row) && 0 <= k < 31
    ensures Delta(row) == Anomaly(row)[Day0]
    ensures Baseline(row).Finite? && row[k].Finite? ==> Anomaly(row)[k] == Finite(row[k].v - Baseline(row).v)
    ensures Baseline(row).NaN? || row[k].NaN? ==> Anomaly(row)[k].NaN?
  {
  }

  /** When the seven baseline values are finite, the baseline is finite too,
      so ΔSST is NaN only where day 0 is. */
  lemma FiniteBaseline(row: seq<Float>)
    requires IsWindow(row)
    requires forall k :: DayMinus10 <= k <= DayMinus4 ==> row[k].Finite?
    ensures Baseline(row).Finite?
    ensures Delta(row).NaN? <==> row[Day0].NaN?
  {
    var cells := BaselineCells(row);
    assert forall k :: 0 <= k < |cells| ==> cells[k] == row[DayMinus10 + k];
  }

  /** The three ΔSST panels of plot_sst_diff_pdfs.py. */
  function DiffA(row: seq<Float>): Float
    requires IsWindow(row)
  {
    Sub(row[Day0], row[DayMinus15])
  }

  function DiffB(row: seq<Float>): Float
    requires IsWindow(row)
  {
    Sub(row[Day0], row[DayMinus10])
  }

  function DiffC(row: seq<Float>): Float
    requires IsWindow(row)
  {
    Sub(row[Day0], Mean(row[DayMinus10..DayMinus4 + 1]))
  }

  /** On finite windows the panels are day 0 less day -15, day 0 less day
      -10, and day 0 less the baseline, which is the ΔSST plot_sst_window.py
      groups by. */
  lemma PanelsSpec(row: seq<Float>)
    requires IsWindow(row)
    ensures DiffC(row) == Delta(row)
    ensures row[Day0].Finite? && row[DayMinus15].Finite? ==> DiffA(row) == Finite(row[15].v - row[0].v)
    ensures row[Day0].Finite? && row[DayMinus10].Finite? ==> DiffB(row) == Finite(row[15].v - row[5].v)
  {
  }

  /** A panel's values: `diff_a`, `diff_b` or `diff_c` over all rows. */
  function PanelValues(data: seq<seq<Float>>, panel: char): (ds: seq<Float>)
    requires IsArray(data) && panel in "abc"
    ensures |ds| == |data|
  {
    seq(|data|, r requires 0 <= r < |data| =>
      if panel == 'a' then DiffA(data[r]) else if panel == 'b' then DiffB(data[r]) else DiffC(data[r]))
  }

  // ---------------------------------------------------------------------------
  // Grouping by the sign of ΔSST

  /** `anom[mask]`: the rows where the mask holds, in order. */
  function Where<T>(xs: seq<T>, m: seq<bool>): (ys: seq<T>)
    requires |m| == |xs|
    ensures |ys| == Trues(m)
  {
    if |xs| == 0 then []
    else
      var n := |xs| - 1;
      Where(xs[..n], m[..n]) + (if m[n] then [xs[n]] else [])
  }

  /** A row is selected exactly when the mask holds at one of its positions. */
  lemma {:induction false} WhereMembers<T>(xs: seq<T>, m: seq<bool>, y: T)
    requires |m| == |xs|
    ensures y in Where(xs, m) <==> exists i :: 0 <= i < |xs| && m[i] && xs[i] == y
  {
    if |xs| > 0 {
      var n := |xs| - 1;
      WhereMembers(xs[..n], m[..n], y);
      if exists i :: 0 <= i < |xs| && m[i] && xs[i] == y {
        var i :| 0 <= i < |xs| && m[i] && xs[i] == y;
        if i < n {
          assert xs[..n][i] == xs[i] && m[..n][i] == m[i];
        }
      }
      if exists i :: 0 <= i < n && m[..n][i] && xs[..n][i] == y {
        var i :| 0 <= i < n && m[..n][i] && xs[..n][i] == y;
        assert m[i] && xs[i] == y;
      }
    }
  }

  function Anomalies(data: seq<seq<Float>>): (an: seq<seq<Float>>)
    requires IsArray(data)
    ensures |an| == |data|
  {
    seq(|data|, r requires 0 <= r < |data| => Anomaly(data[r]))
  }

  /** `delta < 0`, `delta > 0` and the rows of neither: ΔSST is zero or
      NaN. */
  function KeepRow(data: seq<seq<Float>>, keep: Float -> bool): (m: seq<bool>)
    requires IsArray(data)
    ensures |m| == |data|
  {
    seq(|data|, r requires 0 <= r < |data| => keep(Delta(data[r])))
  }

  function NegMask(data: seq<seq<Float>>): (m: seq<bool>)
    requires IsArray(data)
    ensures |m| == |data|
  {
    KeepRow(data, IsNegative)
  }

  function PosMask(data: seq<seq<Float>>): (m: seq<bool>)
    requires IsArray(data)
    ensures |m| == |data|
  {
    KeepRow(data, IsPositive)
  }

  function RestMask(data: seq<seq<Float>>): (m: seq<bool>)
    requires IsArray(data)
    ensures |m| == |data|
  {
    KeepRow(data, d => !IsNegative(d) && !IsPositive(d))
  }

  /** `grp_all`, `grp_neg` and `grp_pos`. */
  function GroupAll(data: seq<seq<Float>>): seq<seq<Float>>
    requires IsArray(data)
  {
    Anomalies(data)
  }

  function GroupNeg(data: seq<seq<Float>>): seq<seq<Float>>
    requires IsArray(data)
  {
    Where(Anomalies(data), NegMask(data))
  }

  function GroupPos(data: seq<seq<Float>>): seq<seq<Float>>
    requires IsArray(data)
  {
    Where(Anomalies(data), PosMask(data))
  }

  /** No value is both below and above zero; a value is neither exactly when
      it is zero or NaN. */
  lemma SignsExclusive(d: Float)
    ensures !(IsNegative(d) && IsPositive(d))
    ensures !IsNegative(d) && !IsPositive(d) <==> d == Finite(0.0) || d.NaN?
  {
  }

  /** Three masks of which exactly one holds at each position count up to
      the length. */
  lemma {:induction false} TruesPartition(a: seq<bool>, b: seq<bool>, c: seq<bool>)
    requires |a| == |b| == |c|
    requires forall i :: 0 <= i < |a| ==> (if a[i] then 1 else 0) + (if b[i] then 1 else 0) + (if c[i] then 1 else 0) == 1
    ensures Trues(a) + Trues(b) + Trues(c) == |a|
  {
    if |a| > 0 {
      var n := |a| - 1;
      assert forall i :: 0 <= i < n ==> a[..n][i] == a[i] && b[..n][i] == b[i] && c[..n][i] == c[i];
      TruesPartition(a[..n], b[..n], c[..n]);
    }
  }

  /** The groups split the rows: each row falls in exactly one of `grp_neg`,
      `grp_pos` and the rows with zero or NaN ΔSST, so the two groups together
      hold at most every row. */
  lemma GroupsPartition(data: seq<seq<Float>>)
    requires IsArray(data)
    ensures |GroupNeg(data)| + |GroupPos(data)| + Trues(RestMask(data)) == |data|
    ensures |GroupAll(data)| == |data|
  {
    var neg, pos, rest := NegMask(data), PosMask(data), RestMask(data);
    forall i | 0 <= i < |data|
      ensures (if neg[i] then 1 else 0) + (if pos[i] then 1 else 0) + (if rest[i] then 1 else 0) == 1
    {
      SignsExclusive(Delta(data[i]));
    }
    TruesPartition(neg, pos, rest);
  }

  /** The anomalies the mask of a test on ΔSST selects are those of the rows
      whose ΔSST passes the test. */
  lemma KeptMembers(data: seq<seq<Float>>, keep: Float -> bool, a: seq<Float>)
    requires IsArray(data)
    ensures a in Where(Anomalies(data), KeepRow(data, keep)) <==>
      exists r :: 0 <= r < |data| && keep(Delta(data[r])) && Anomaly(data[r]) == a
  {
    var an, m := Anomalies(data), KeepRow(data, keep);
    WhereMembers(an, m, a);
    if a in Where(an, m) {
      var r :| 0 <= r < |an| && m[r] && an[r] == a;
      assert keep(Delta(data[r])) && Anomaly(data[r]) == a;
    }
    if exists r :: 0 <= r < |data| && keep(Delta(data[r])) && Anomaly(data[r]) == a {
      var r :| 0 <= r < |data| && keep(Delta(data[r])) && Anomaly(data[r]) == a;
      assert m[r] && an[r] == a;
    }
  }

  /** `grp_neg` holds the anomalies of exactly the rows whose ΔSST is below
      zero, and `grp_pos` of those above. */
  lemma GroupMembers(data: seq<seq<Float>>, a: seq<Float>)
    requires IsArray(data)
    ensures a in GroupNeg(data) <==> exists r :: 0 <= r < |data| && IsNegative(Delta(data[r])) && Anomaly(data[r]) == a
    ensures a in GroupPos(data) <==> exists r :: 0 <= r < |data| && IsPositive(Delta(data[r])) && Anomaly(data[r]) == a
  {
    KeptMembers(data, IsNegative, a);
    KeptMembers(data, IsPositive, a);
  }

  // ---------------------------------------------------------------------------
  // stats

  /** `np.full(n, np.nan)`. */
  function NaNs(n: nat): (xs: seq<Float>)
  {
    seq(n, k => NaN)
  }

  /** Column `c` of a group. */
  function ColumnValues(arr: seq<seq<Float>>, c: int): (col: seq<Float>)
    requires IsArray(arr) && 0 <= c < 31
    ensures |col| == |arr|
  {
    seq(|arr|, r requires 0 <= r < |arr| => arr[r][c])
  }

  /** The values that are not NaN, in order. */
  function NonNaN(xs: seq<Float>): seq<Float> {
    if |xs| == 0 then [] else NonNaN(xs[..|xs| - 1]) + (if xs[|xs| - 1].NaN? then [] else [xs[|xs| - 1]])
  }

  /** `np.nanmean` of one column: the mean of the values that are not NaN;
      NaN when there are none. */
  function NanMean(xs: seq<Float>): Float {
    var ys := NonNaN(xs);
    if |ys| == 0 then NaN else Mean(ys)
  }

  lemma {:induction false} NonNaNSpec(xs: seq<Float>)
    ensures forall y :: y in NonNaN(xs) <==> y in xs && !y.NaN?
  {
    if |xs| > 0 {
      NonNaNSpec(xs[..|xs| - 1]);
      assert xs == xs[..|xs| - 1] + [xs[|xs| - 1]];
    }
  }

  /** `nanmean` ignores NaN: a column without any value gives NaN, and a
      column whose values are all finite gives a finite mean. */
  lemma NanMeanSpec(xs: seq<Float>)
    ensures (forall k :: 0 <= k < |xs| ==> xs[k].NaN?) ==> NanMean(xs).NaN?
    ensures (forall k :: 0 <= k < |xs| ==> !xs[k].Inf?) && (exists k :: 0 <= k < |xs| && xs[k].Finite?) ==>
      NanMean(xs).Finite?
  {
    NonNaNSpec(xs);
    var ys := NonNaN(xs);
    if |ys| > 0 {
      assert ys[0] in xs;
    }
    if exists k :: 0 <= k < |xs| && xs[k].Finite? {
      var k :| 0 <= k < |xs| && xs[k].Finite?;
      assert xs[k] in ys;
    }
    if forall k :: 0 <= k < |xs| ==> !xs[k].Inf? {
      forall k | 0 <= k < |ys| ensures ys[k].Finite? {
        assert ys[k] in xs;
      }
      assert AllFinite(ys);
    }
  }

  /** The per-day median and mean of a group. */
  datatype Profile = Profile(median: seq<Float>, mean: seq<Float>)

  /** `stats(arr)`: two rows of 31 NaNs for an empty group, otherwise the
      per-column `nanmedian` and `nanmean`. The median is a parameter:
      sorting floats is not part of this model. */
  function Stats(arr: seq<seq<Float>>, nanmedian: seq<Float> -> Float): Profile
    requires IsArray(arr)
  {
    if |arr| == 0 then Profile(NaNs(31), NaNs(31))
    else
      Profile(seq(31, c requires 0 <= c < 31 => nanmedian(ColumnValues(arr, c))),
              seq(31, c requires 0 <= c < 31 => NanMean(ColumnValues(arr, c))))
  }

  /** Both profiles have one entry per day; an empty group gives NaN for every
      day and a non-empty one the column reductions. */
  lemma StatsSpec(arr: seq<seq<Float>>, nanmedian: seq<Float> -> Float, c: int)
    requires IsArray(arr) && 0 <= c < 31
    ensures |Stats(arr, nanmedian).median| == 31 && |Stats(arr, nanmedian).mean| == 31
    ensures |arr| == 0 ==> Stats(arr, nanmedian).median[c].NaN? && Stats(arr, nanmedian).mean[c].NaN?
    ensures |arr| > 0 ==> Stats(arr, nanmedian).mean[c] == NanMean(ColumnValues(arr, c))
    ensures |arr| > 0 ==> Stats(arr, nanmedian).median[c] == nanmedian(ColumnValues(arr, c))
  {
  }

  /** Every group of anomalies is an array the statistics accept. */
  lemma GroupsAreArrays(data: seq<seq<Float>>)
    requires IsArray(data)
    ensures IsArray(GroupAll(data)) && IsArray(GroupNeg(data)) && IsArray(GroupPos(data))
  {
    var an := Anomalies(data);
    forall a | a in GroupNeg(data) ensures |a| == 31 {
      WhereMembers(an, NegMask(data), a);
    }
    forall a | a in GroupPos(data) ensures |a| == 31 {
      WhereMembers(an, PosMask(data), a);
    }
    assert forall r :: 0 <= r < |GroupNeg(data)| ==> GroupNeg(data)[r] in GroupNeg(data);
    assert forall r :: 0 <= r < |GroupPos(data)| ==> GroupPos(data)[r] in GroupPos(data);
  }

  // ---------------------------------------------------------------------------
  // One panel of plot_sst_diff_pdfs.py

  /** `data[np.isfinite(data)]`. */
  function Finites(xs: seq<Float>): seq<real> {
    if |xs| == 0 then []
    else
      var n := |xs| - 1;
      Finites(xs[..n]) + (if xs[n].Finite? then [xs[n].v] else [])
  }

  /** How many values are above zero. */
  function Positives(ys: seq<real>): (n: nat)
    ensures n <= |ys|
  {
    if |ys| == 0 then 0 else Positives(ys[..|ys| - 1]) + (if ys[|ys| - 1] > 0.0 then 1 else 0)
  }

  /** What `plot_pdf` draws: "No data", or the finite values and the
      percentage of them above zero. */
  datatype Panel = NoData | Drawn(values: seq<real>, pctPositive: real)

  function PlotPanel(data: seq<Float>): Panel {
    var ys := Finites(data);
    if |ys| == 0 then NoData else Drawn(ys, (Positives(ys) as real) / (|ys| as real) * 100.0)
  }

  lemma {:induction false} FinitesSpec(xs: seq<Float>)
    ensures |Finites(xs)| == 0 <==> forall k :: 0 <= k < |xs| ==> !xs[k].Finite?
  {
    if |xs| > 0 {
      var n := |xs| - 1;
      FinitesSpec(xs[..n]);
      assert forall k :: 0 <= k < n ==> xs[..n][k] == xs[k];
    }
  }

  lemma {:induction false} PositivesAll(ys: seq<real>)
    ensures Positives(ys) == |ys| <==> forall k :: 0 <= k < |ys| ==> ys[k] > 0.0
    ensures Positives(ys) == 0 <==> forall k :: 0 <= k < |ys| ==> ys[k] <= 0.0
  {
    if |ys| > 0 {
      var n := |ys| - 1;
      PositivesAll(ys[..n]);
      assert forall k :: 0 <= k < n ==> ys[..n][k] == ys[k];
    }
  }

  /** The percentage of `p` positive values among `n`. */
  lemma PercentBounds(p: real, n: real)
    requires 0.0 <= p <= n && n > 0.0
    ensures 0.0 <= p / n * 100.0 <= 100.0
    ensures p / n * 100.0 == 100.0 <==> p == n
    ensures p / n * 100.0 == 0.0 <==> p == 0.0
  {
    assert p / n <= 1.0;
    assert p / n * 100.0 == 100.0 <==> p / n == 1.0;
  }

  /** A panel shows "No data" exactly when no value is finite; otherwise its
      percentage lies between 0 and 100, reaching 100 exactly when every
      finite value is above zero and 0 exactly when none is. */
  lemma PanelSpec(data: seq<Float>)
    ensures PlotPanel(data) == NoData <==> forall k :: 0 <= k < |data| ==> !data[k].Finite?
    ensures PlotPanel(data).Drawn? ==> 0.0 <= PlotPanel(data).pctPositive <= 100.0
    ensures PlotPanel(data).Drawn? ==>
      (PlotPanel(data).pctPositive == 100.0 <==> forall k :: 0 <= k < |Finites(data)| ==> Finites(data)[k] > 0.0)
    ensures PlotPanel(data).Drawn? ==>
      (PlotPanel(data).pctPositive == 0.0 <==> forall k :: 0 <= k < |Finites(data)| ==> Finites(data)[k] <= 0.0)
  {
    FinitesSpec(data);
    var ys := Finites(data);
    if |ys| > 0 {
      PositivesAll(ys);
      PercentBounds(Positives(ys) as real, |ys| as real);
      assert PlotPanel(data).pctPositive == (Positives(ys) as real) / (|ys| as real) * 100.0;
    }
  }
}
