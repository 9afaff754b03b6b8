/** The 31-day window the extractors sample around each fix: offsets -15 to
    +15, the date of each offset, and the daily value read from the gridded
    product (Earth Engine's OISST v2.1 `sst` band or HYCOM's `water_temp_0`
    band). The product itself is a parameter: a `Raster` says, for a date and
    a point, whether the band has a value there and what it is, before
    scaling. */
module Window {
  import opened Text
  import opened Wrappers
  import opened Floats
  import opened Calendar

  /** The two extractors: single_TC/extract_sst.py (OISST) and
      single_TC/extract_HYCOM_SST.py (HYCOM). */
  datatype Source = OISST | HYCOM

  /** The column name prefix, `sst` or `water_temp`. */
  function ColumnPrefix(src: Source): string {
    match src
    case OISST => "sst"
    case HYCOM => "water_temp"
  }

  /** The suffix of the output file's stem, `_SST` or `_HYCOM`. */
  function Suffix(src: Source): string {
    match src
    case OISST => "_SST"
    case HYCOM => "_HYCOM"
  }

  /** The band's stored number turned into degrees Celsius: hundredths for
      OISST, thousandths above 20 for HYCOM. */
  function Celsius(src: Source, stored: real): (c: real)
    ensures src == OISST ==> c * 100.0 == stored
    ensures src == HYCOM ==> (c - 20.0) * 1000.0 == stored
  {
    match src
    case OISST => stored * 0.01
    case HYCOM => stored * 0.001 + 20.0
  }

  /** `range(-15, 16)`. */
  function Offsets(): seq<int> {
    seq(31, i => i - 15)
  }

  lemma OffsetsSpan()
    ensures |Offsets()| == 31 && Offsets()[0] == -15 && Offsets()[15] == 0 && Offsets()[30] == 15
    ensures forall i :: 0 < i < 31 ==> Offsets()[i] == Offsets()[i - 1] + 1
  {
  }

  /** `f"{d:+d}"`: an explicit sign, then the decimal digits of `|d|`. */
  function SignedInt(d: int): (s: string)
    ensures |s| >= 2 && s[0] == (if d >= 0 then '+' else '-')
    ensures AllDigits(s[1..]) && DigitsValue(s[1..]) == if d >= 0 then d else -d
  {
    var mag: nat := if d >= 0 then d else -d;
    NatToStringValue(mag);
    var s := (if d >= 0 then "+" else "-") + NatToString(mag);
    assert s[1..] == NatToString(mag);
    s
  }

  /** Different offsets print differently. */
  lemma SignedIntInjective(d: int, e: int)
    requires SignedInt(d) == SignedInt(e)
    ensures d == e
  {
    var s, t := SignedInt(d), SignedInt(e);
    assert s[1..] == t[1..];
  }

  /** The window's column names, `sst-15` ... `sst+15` (or `water_temp...`). */
  function ColumnNames(src: Source): (names: seq<string>)
  {
    seq(31, i => ColumnPrefix(src) + SignedInt(i - 15))
  }

  /** The 31 column names are pairwise different, so the window fills 31
      separate columns. */
  lemma ColumnNamesDistinct(src: Source, i: int, j: int)
    requires 0 <= i < 31 && 0 <= j < 31 && i != j
    ensures ColumnNames(src)[i] != ColumnNames(src)[j]
  {
    var p := ColumnPrefix(src);
    var a, b := p + SignedInt(i - 15), p + SignedInt(j - 15);
    if a == b {
      assert a[|p|..] == SignedInt(i - 15);
      assert b[|p|..] == SignedInt(j - 15);
      SignedIntInjective(i - 15, j - 15);
    }
  }

  // ---------------------------------------------------------------------------
  // Daily values

  /** The product: for a day and a point (longitude, latitude), the band's
      stored number there, or `None` when there is no image for that day, the
      pixel is masked, or Earth Engine raises. */
  type Raster = (Date, Float, Float) -> Option<real>

  /** One day's value at the point, NaN when the product has none. */
  function DayValue(src: Source, raster: Raster, d: Date, lon: Float, lat: Float): (v: Float)
  {
    match raster(d, lon, lat)
    case None => NaN
    case Some(stored) => Finite(Celsius(src, stored))
  }

  /** `get_daily_sst` / `get_daily_water_temp`: the day named by an eight-digit
      `%Y%m%d` text, split as `int(ymd[:4])`, `int(ymd[4:6])`, `int(ymd[6:])`. */
  function DailyValue(src: Source, raster: Raster, ymd: string, lon: Float, lat: Float): Float
    requires |ymd| == 8 && AllDigits(ymd)
  {
    DayValue(src, raster, SplitYmd(ymd), lon, lat)
  }

  /** The text the window hands to the sampler names the very day it was
      computed from. */
  lemma DailyValueOfFormatted(src: Source, raster: Raster, d: Date, lon: Float, lat: Float)
    requires Valid(d)
    ensures DailyValue(src, raster, FormatYmd(d), lon, lat) == DayValue(src, raster, d, lon, lat)
  {
    ParseFormat(d);
  }

  // ---------------------------------------------------------------------------
  // The window

  /** The values for the offsets `offs` around `base`, in order. Each day is
      `base + timedelta(days=off)`, formatted with `%Y%m%d`; a day outside
      the calendar range is Python's `OverflowError` (`None`). */
  function WindowFrom(src: Source, raster: Raster, base: Date, lon: Float, lat: Float, offs: seq<int>): (r: Option<seq<Float>>)
    requires Valid(base)
    ensures r.Some? ==> |r.value| == |offs|
  {
    if |offs| == 0 then Some([])
    else
      match AddDays(base, offs[0])
      case None => None
      case Some(d) =>
        AddDaysOrdinal(base, offs[0]);
        match WindowFrom(src, raster, base, lon, lat, offs[1..])
        case None => None
        case Some(rest) => Some([DailyValue(src, raster, FormatYmd(d), lon, lat)] + rest)
  }

  /** `sst_window` / `temp_window` after the date has been parsed. */
  function SampleWindow(src: Source, raster: Raster, base: Date, lon: Float, lat: Float): Option<seq<Float>>
    requires Valid(base)
  {
    WindowFrom(src, raster, base, lon, lat, Offsets())
  }

  /** The values for `offs` exist exactly when every offset lands inside the
      calendar. */
  lemma {:induction false} WindowFromDefined(src: Source, raster: Raster, base: Date, lon: Float, lat: Float, offs: seq<int>)
    requires Valid(base)
    ensures WindowFrom(src, raster, base, lon, lat, offs).Some? <==>
      forall k :: 0 <= k < |offs| ==> AddDays(base, offs[k]).Some?
  {
    if |offs| > 0 {
      WindowFromDefined(src, raster, base, lon, lat, offs[1..]);
      assert forall k :: 1 <= k < |offs| ==> offs[1..][k - 1] == offs[k];
    }
  }

  /** Value `k` for `offs` is the product's value on the day `offs[k]` days
      from `base`. */
  lemma {:induction false} WindowFromValues(src: Source, raster: Raster, base: Date, lon: Float, lat: Float, offs: seq<int>)
    requires Valid(base)
    requires WindowFrom(src, raster, base, lon, lat, offs).Some?
    ensures forall k :: 0 <= k < |offs| ==>
      AddDays(base, offs[k]).Some? &&
      WindowFrom(src, raster, base, lon, lat, offs).value[k] ==
      DayValue(src, raster, AddDays(base, offs[k]).value, lon, lat)
  {
    if |offs| > 0 {
      var d := AddDays(base, offs[0]).value;
      AddDaysOrdinal(base, offs[0]);
      DailyValueOfFormatted(src, raster, d, lon, lat);
      var rest := offs[1..];
      WindowFromValues(src, raster, base, lon, lat, rest);
      var w, v := WindowFrom(src, raster, base, lon, lat, offs).value, WindowFrom(src, raster, base, lon, lat, rest).value;
      assert w == [DayValue(src, raster, d, lon, lat)] + v;
      forall k | 1 <= k < |offs|
        ensures AddDays(base, offs[k]).Some? && w[k] == DayValue(src, raster, AddDays(base, offs[k]).value, lon, lat)
      {
        assert rest[k - 1] == offs[k] && w[k] == v[k - 1];
      }
    }
  }

  /** The whole window exists exactly when the fifteen days on either side
      of `base` are inside the calendar (years 1 to 9999). */
  lemma WindowDefined(src: Source, raster: Raster, base: Date, lon: Float, lat: Float)
    requires Valid(base)
    ensures SampleWindow(src, raster, base, lon, lat).Some? <==> 16 <= Ordinal(base) <= MaxOrdinal - 15
  {
    var offs := Offsets();
    WindowFromDefined(src, raster, base, lon, lat, offs);
    if 16 <= Ordinal(base) <= MaxOrdinal - 15 {
      forall k | 0 <= k < |offs| ensures AddDays(base, offs[k]).Some? {
        AddDaysOrdinal(base, k - 15);
      }
    } else {
      var k := if Ordinal(base) < 16 then 0 else 30;
      assert offs[k] == k - 15;
      AddDaysOrdinal(base, k - 15);
    }
  }

  /** A window has 31 values, value `i` being the product's value on the day
      `i - 15` days from `base`, the day whose ordinal is
      `Ordinal(base) + i - 15`. */
  lemma WindowValues(src: Source, raster: Raster, base: Date, lon: Float, lat: Float, i: int)
    requires Valid(base) && SampleWindow(src, raster, base, lon, lat).Some?
    requires 0 <= i < 31
    ensures |SampleWindow(src, raster, base, lon, lat).value| == 31
    ensures AddDays(base, i - 15).Some?
    ensures var d := AddDays(base, i - 15).value;
      Valid(d) && Ordinal(d) == Ordinal(base) + i - 15 &&
      SampleWindow(src, raster, base, lon, lat).value[i] == DayValue(src, raster, d, lon, lat)
  {
    var offs := Offsets();
    WindowFromValues(src, raster, base, lon, lat, offs);
    assert offs[i] == i - 15;
    AddDaysOrdinal(base, i - 15);
  }

  /** The window's days are consecutive, and its middle day is `base`. */
  lemma WindowDaysConsecutive(base: Date, i: int)
    requires Valid(base) && 16 <= Ordinal(base) <= MaxOrdinal - 15
    requires 0 <= i < 30
    ensures AddDays(base, 0) == Some(base)
    ensures AddDays(base, i - 15).Some? && AddDays(base, i - 14).Some? && Valid(AddDays(base, i - 15).value)
    ensures AddDays(base, i - 14).value == Next(AddDays(base, i - 15).value)
  {
    AddDaysOrdinal(base, 0);
    OrdinalInjective(AddDays(base, 0).value, base);
    AddDaysOrdinal(base, i - 15);
    AddDaysOrdinal(base, i - 14);
    var d, e := AddDays(base, i - 15).value, AddDays(base, i - 14).value;
    OrdinalRange(d);
    NextOrdinal(d);
    OrdinalInjective(e, Next(d));
  }
}
