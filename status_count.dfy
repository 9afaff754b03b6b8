/** count_tc_status.py and count_tc_types.py: a `collections.Counter` of the
    status codes (field 3) of the fix lines of a directory's files, and the
    report `main` prints from it. The two scripts differ only in the files
    they read (`*.txt` and `*_SST.txt`) and in the directory line that
    count_tc_status.py prints first. */
module StatusCount {
  import opened Text
  import opened Files

  // ---------------------------------------------------------------------------
  // Counted lines

  /** `accumulate_counts` counts a line when it is a fix line with at least
      four fields and a non-empty stripped field 3. */
  predicate Counted(line: string) {
    IsFixLine(line) && |Fields(line)| >= 4 && Fields(line)[3] != ""
  }

  /** The status code of a counted line: its stripped field 3. */
  function Status(line: string): string
    requires Counted(line)
  {
    Fields(line)[3]
  }

  /** The status codes of a file's counted lines, in line order. */
  function Statuses(lines: seq<string>): seq<string> {
    if |lines| == 0 then []
    else
      var n := |lines| - 1;
      Statuses(lines[..n]) + (if Counted(lines[n]) then [Status(lines[n])] else [])
  }

  /** The status codes of every file of the listing, file after file. */
  function AllStatuses(files: seq<TextFile>): seq<string> {
    if |files| == 0 then [] else AllStatuses(files[..|files| - 1]) + Statuses(files[|files| - 1].lines)
  }

  // ---------------------------------------------------------------------------
  // The counter as a value

  /** A `Counter`'s contents: its keys in first-seen order (the order
      `most_common` falls back on) and the count of each. */
  datatype Tally = Tally(keys: seq<string>, counts: map<string, nat>)

  /** `counts[s]`: zero for a status never seen. */
  function Get(counts: map<string, nat>, s: string): nat {
    if s in counts then counts[s] else 0
  }

  predicate Distinct(ks: seq<string>) {
    forall i, j :: 0 <= i < j < |ks| ==> ks[i] != ks[j]
  }

  /** The keys are distinct and are exactly the statuses seen, each seen at
      least once. */
  predicate WellFormed(t: Tally) {
    Distinct(t.keys) && (forall s :: s in t.keys ==> s in t.counts) &&
    (forall s :: s in t.counts ==> s in t.keys && t.counts[s] >= 1)
  }

  /** `counts[s] += 1`. */
  function Bump(t: Tally, s: string): Tally {
    Tally(if s in t.counts then t.keys else t.keys + [s], t.counts[s := Get(t.counts, s) + 1])
  }

  /** The counter after one `+= 1` per status of `ss`, in order. */
  function AddAll(t: Tally, ss: seq<string>): Tally {
    if |ss| == 0 then t else Bump(AddAll(t, ss[..|ss| - 1]), ss[|ss| - 1])
  }

  /** The sum of the counts of `ks`. */
  function SumOver(ks: seq<string>, counts: map<string, nat>): nat {
    if |ks| == 0 then 0 else SumOver(ks[..|ks| - 1], counts) + Get(counts, ks[|ks| - 1])
  }

  /** `sum(counts.values())`. */
  function Total(t: Tally): nat {
    SumOver(t.keys, t.counts)
  }

  const Empty: Tally := Tally([], map[])

  /** One `+= 1` raises the count of its own status by one and changes no
      other count; a new status joins the end of the key order. */
  lemma BumpCounts(t: Tally, s: string)
    requires WellFormed(t)
    ensures WellFormed(Bump(t, s))
    ensures Get(Bump(t, s).counts, s) == Get(t.counts, s) + 1
    ensures forall u :: u != s ==> Get(Bump(t, s).counts, u) == Get(t.counts, u)
    ensures Bump(t, s).keys == if s in t.keys then t.keys else t.keys + [s]
  {
    var b := Bump(t, s);
    if s !in t.keys {
      forall i, j | 0 <= i < j < |b.keys| ensures b.keys[i] != b.keys[j] {
        if j == |t.keys| {
          assert b.keys[i] == t.keys[i];
        }
      }
    }
  }

  /** The sum over keys that do not include `s` ignores the count of `s`. */
  lemma {:induction false} SumOverOther(ks: seq<string>, counts: map<string, nat>, s: string, v: nat)
    requires s !in ks
    ensures SumOver(ks, counts[s := v]) == SumOver(ks, counts)
  {
    if |ks| > 0 {
      SumOverOther(ks[..|ks| - 1], counts, s, v);
    }
  }

  /** Over distinct keys holding `s`, raising the count of `s` by one raises
      the sum by one. */
  lemma {:induction false} SumOverBump(ks: seq<string>, counts: map<string, nat>, s: string)
    requires Distinct(ks) && s in ks
    ensures SumOver(ks, counts[s := Get(counts, s) + 1]) == SumOver(ks, counts) + 1
  {
    var n := |ks| - 1;
    var pre := ks[..n];
    assert Distinct(pre);
    if ks[n] == s {
      assert s !in pre;
      SumOverOther(pre, counts, s, Get(counts, s) + 1);
    } else {
      assert s in pre;
      SumOverBump(pre, counts, s);
    }
  }

  /** Each `+= 1` adds one to the total. */
  lemma BumpTotal(t: Tally, s: string)
    requires WellFormed(t)
    ensures Total(Bump(t, s)) == Total(t) + 1
  {
    var c := t.counts[s := Get(t.counts, s) + 1];
    if s in t.counts {
      SumOverBump(t.keys, t.counts, s);
    } else {
      assert (t.keys + [s])[..|t.keys|] == t.keys;
      SumOverOther(t.keys, t.counts, s, 1);
    }
  }

  /** Adding a sequence of statuses keeps the tally well formed. */
  lemma {:induction false} AddAllWellFormed(t: Tally, ss: seq<string>)
    requires WellFormed(t)
    ensures WellFormed(AddAll(t, ss))
  {
    if |ss| > 0 {
      AddAllWellFormed(t, ss[..|ss| - 1]);
      BumpCounts(AddAll(t, ss[..|ss| - 1]), ss[|ss| - 1]);
    }
  }

  /** The counter is the multiset of the statuses added: each count grows by
      the number of times its status occurs. */
  lemma {:induction false} AddAllCounts(t: Tally, ss: seq<string>, s: string)
    ensures Get(AddAll(t, ss).counts, s) == Get(t.counts, s) + multiset(ss)[s]
  {
    if |ss| > 0 {
      var n := |ss| - 1;
      var init, last := ss[..n], ss[n];
      AddAllCounts(t, init, s);
      BumpGet(AddAll(t, init), last, s);
      assert ss == init + [last];
      assert multiset(ss)[s] == multiset(init)[s] + (if last == s then 1 else 0);
    }
  }

  /** `counts[s] += 1` seen from the count of any status `u`. */
  lemma BumpGet(t: Tally, s: string, u: string)
    ensures Get(Bump(t, s).counts, u) == Get(t.counts, u) + (if u == s then 1 else 0)
  {
  }

  /** The total grows by the number of statuses added. */
  lemma {:induction false} AddAllTotal(t: Tally, ss: seq<string>)
    requires WellFormed(t)
    ensures Total(AddAll(t, ss)) == Total(t) + |ss|
  {
    if |ss| > 0 {
      var n := |ss| - 1;
      AddAllTotal(t, ss[..n]);
      AddAllWellFormed(t, ss[..n]);
      BumpTotal(AddAll(t, ss[..n]), ss[n]);
    }
  }

  /** No count ever goes down. */
  lemma {:induction false} AddAllGrows(t: Tally, ss: seq<string>, s: string)
    ensures Get(AddAll(t, ss).counts, s) >= Get(t.counts, s)
  {
    AddAllCounts(t, ss, s);
  }

  /** A well-formed tally is empty exactly when its total is zero. */
  lemma TotalZero(t: Tally)
    requires WellFormed(t)
    ensures Total(t) == 0 <==> |t.keys| == 0
  {
    if |t.keys| > 0 {
      SumOverPositive(t.keys, t.counts);
    }
  }

  lemma {:induction false} SumOverPositive(ks: seq<string>, counts: map<string, nat>)
    requires |ks| > 0 && forall s :: s in ks ==> Get(counts, s) >= 1
    ensures SumOver(ks, counts) > 0
  {
    assert ks[|ks| - 1] in ks;
  }

  // ---------------------------------------------------------------------------
  // The counter object

  /** The shared `Counter` that `accumulate_counts` updates in place. */
  class Counter {
    var keys: seq<string>
    var counts: map<string, nat>

    function State(): Tally
      reads this
    {
      Tally(keys, counts)
    }

    predicate Valid()
      reads this
    {
      WellFormed(State())
    }

    /** `Counter()`. */
    constructor()
      ensures Valid() && State() == Empty
    {
      keys := [];
      counts := map[];
    }

    /** `counts[status] += 1`. */
    method Add(status: string)
      requires Valid()
      modifies this
      ensures Valid() && State() == Bump(old(State()), status)
    {
      ghost var t := State();
      BumpCounts(t, status);
      keys := if status in counts then keys else keys + [status];
      counts := counts[status := Get(counts, status) + 1];
      assert State() == Bump(t, status);
    }

    /** `accumulate_counts(path, counts)`: one `+= 1` per counted line, in line
        order. */
    method Accumulate(lines: seq<string>)
      requires Valid()
      modifies this
      ensures Valid() && State() == AddAll(old(State()), Statuses(lines))
    {
      ghost var start := State();
      for i := 0 to |lines|
        invariant Valid() && State() == AddAll(start, Statuses(lines[..i]))
      {
        assert lines[..i + 1][..i] == lines[..i];
        ghost var before := Statuses(lines[..i]);
        ghost var step := if Counted(lines[i]) then [Status(lines[i])] else [];
        assert Statuses(lines[..i + 1]) == before + step;
        AddAllConcat(start, before, step);
        var line := lines[i];
        if IsFixLine(line) {
          var parts := Fields(line);
          if |parts| >= 4 && parts[3] != "" {
            Add(parts[3]);
          }
        }
      }
      assert lines[..|lines|] == lines;
    }

    /** `sum(counts.values())`. */
    method Sum() returns (total: nat)
      ensures total == Total(State())
    {
      total := 0;
      for i := 0 to |keys|
        invariant total == SumOver(keys[..i], counts)
      {
        assert keys[..i + 1][..i] == keys[..i];
        total := total + Get(counts, keys[i]);
      }
      assert keys[..|keys|] == keys;
    }
  }

  /** The file loop of `main`: one shared counter threaded through every
      selected file. */
  method CountFiles(files: seq<TextFile>) returns (c: Counter)
    ensures fresh(c) && c.Valid() && c.State() == AddAll(Empty, AllStatuses(files))
  {
    c := new Counter();
    for i := 0 to |files|
      invariant c.Valid() && c.State() == AddAll(Empty, AllStatuses(files[..i]))
    {
      assert files[..i + 1][..i] == files[..i];
      c.Accumulate(files[i].lines);
      AddAllConcat(Empty, AllStatuses(files[..i]), Statuses(files[i].lines));
    }
    assert files[..|files|] == files;
  }

  /** Adding two batches is adding their concatenation. */
  lemma {:induction false} AddAllConcat(t: Tally, xs: seq<string>, ys: seq<string>)
    ensures AddAll(AddAll(t, xs), ys) == AddAll(t, xs + ys)
  {
    if |ys| == 0 {
      assert xs + ys == xs;
    } else {
      var n := |ys| - 1;
      AddAllConcat(t, xs, ys[..n]);
      var zs := xs + ys;
      var m := |zs| - 1;
      assert zs[..m] == xs + ys[..n];
      assert zs[m] == ys[n];
      assert AddAll(t, zs) == Bump(AddAll(t, zs[..m]), zs[m]);
      assert AddAll(AddAll(t, xs), ys) == Bump(AddAll(AddAll(t, xs), ys[..n]), ys[n]);
    }
  }

  /** The counter after every selected file: each status's count is the
      number of counted lines carrying it, the keys are exactly the statuses
      seen, and the total is the number of counted lines. */
  lemma CountedTally(ss: seq<string>)
    ensures WellFormed(AddAll(Empty, ss))
    ensures forall s :: Get(AddAll(Empty, ss).counts, s) == multiset(ss)[s]
    ensures forall s :: s in AddAll(Empty, ss).keys <==> s in ss
    ensures Total(AddAll(Empty, ss)) == |ss|
  {
    var t := AddAll(Empty, ss);
    AddAllWellFormed(Empty, ss);
    AddAllTotal(Empty, ss);
    forall s ensures Get(t.counts, s) == multiset(ss)[s] && (s in t.keys <==> s in ss) {
      AddAllCounts(Empty, ss, s);
      assert s in ss <==> multiset(ss)[s] > 0;
    }
  }

  // ---------------------------------------------------------------------------
  // most_common

  /** One `(status, n)` pair of `counts.items()`. */
  datatype Entry = Entry(key: string, count: nat)

  /** `counts.items()`: the keys in first-seen order with their counts. */
  function Items(t: Tally): (es: seq<Entry>)
  {
    seq(|t.keys|, i requires 0 <= i < |t.keys| => Entry(t.keys[i], Get(t.counts, t.keys[i])))
  }

  predicate ByCount(es: seq<Entry>) {
    forall i, j :: 0 <= i < j < |es| ==> es[i].count >= es[j].count
  }

  /** Places `e` after every entry whose count is at least its own: the step
      of a stable sort by count, largest first. */
  function Insert(r: seq<Entry>, e: Entry): seq<Entry> {
    if |r| == 0 then [e]
    else if r[|r| - 1].count >= e.count then r + [e]
    else Insert(r[..|r| - 1], e) + [r[|r| - 1]]
  }

  /** `sorted(items, key=count, reverse=True)`, a stable sort. */
  function SortByCount(es: seq<Entry>): seq<Entry> {
    if |es| == 0 then [] else Insert(SortByCount(es[..|es| - 1]), es[|es| - 1])
  }

  /** `counts.most_common()`. */
  function MostCommon(t: Tally): seq<Entry> {
    SortByCount(Items(t))
  }

  /** The entries of `es` with count `c`, in order. */
  function WithCount(es: seq<Entry>, c: nat): seq<Entry> {
    if |es| == 0 then []
    else
      var n := |es| - 1;
      WithCount(es[..n], c) + (if es[n].count == c then [es[n]] else [])
  }

  lemma {:induction false} InsertPermutes(r: seq<Entry>, e: Entry)
    ensures multiset(Insert(r, e)) == multiset(r) + multiset{e}
  {
    if |r| > 0 {
      var n := |r| - 1;
      assert r == r[..n] + [r[n]];
      if r[n].count < e.count {
        InsertPermutes(r[..n], e);
      }
    }
  }

  lemma {:induction false} InsertSorted(r: seq<Entry>, e: Entry)
    requires ByCount(r)
    ensures ByCount(Insert(r, e))
  {
    if |r| > 0 {
      var n := |r| - 1;
      var last, pre := r[n], r[..n];
      if last.count < e.count {
        assert ByCount(pre);
        InsertSorted(pre, e);
        InsertBounded(pre, e, last.count);
        SnocByCount(Insert(pre, e), last);
      } else {
        SnocByCount(r, e);
      }
    }
  }

  /** Inserting an entry of count at least `b` among entries of count at
      least `b` keeps every count at least `b`. */
  lemma InsertBounded(r: seq<Entry>, e: Entry, b: nat)
    requires forall i :: 0 <= i < |r| ==> r[i].count >= b
    requires e.count >= b
    ensures forall i :: 0 <= i < |Insert(r, e)| ==> Insert(r, e)[i].count >= b
  {
    InsertPermutes(r, e);
    var ins := Insert(r, e);
    forall i | 0 <= i < |ins| ensures ins[i].count >= b {
      assert ins[i] in multiset(r) + multiset{e};
      if ins[i] != e {
        assert ins[i] in r;
      }
    }
  }

  /** An entry whose count is at most every count of a sorted list may
      follow it. */
  lemma SnocByCount(xs: seq<Entry>, y: Entry)
    requires ByCount(xs)
    requires forall i :: 0 <= i < |xs| ==> xs[i].count >= y.count
    ensures ByCount(xs + [y])
  {
  }

  lemma {:induction false} WithCountConcat(xs: seq<Entry>, ys: seq<Entry>, c: nat)
    ensures WithCount(xs + ys, c) == WithCount(xs, c) + WithCount(ys, c)
  {
    if |ys| == 0 {
      assert xs + ys == xs;
    } else {
      var n := |ys| - 1;
      var init, last := ys[..n], ys[n];
      assert ys == init + [last];
      assert xs + (init + [last]) == (xs + init) + [last];
      assert ((xs + init) + [last])[..|xs| + n] == xs + init;
      WithCountConcat(xs, init, c);
    }
  }

  /** Insertion keeps, among entries of each count, the order they came in,
      with the new entry last. */
  lemma {:induction false} InsertStable(r: seq<Entry>, e: Entry, c: nat)
    ensures WithCount(Insert(r, e), c) == WithCount(r, c) + WithCount([e], c)
  {
    var we := WithCount([e], c);
    assert we == WithCount([], c) + (if e.count == c then [e] else []);
    if |r| > 0 {
      var n := |r| - 1;
      var last, pre := r[n], r[..n];
      assert r == pre + [last];
      if last.count >= e.count {
        assert Insert(r, e) == r + [e];
        WithCountConcat(r, [e], c);
      } else {
        InsertStable(pre, e, c);
        var ins := Insert(pre, e);
        assert Insert(r, e) == ins + [last];
        WithCountConcat(ins, [last], c);
        WithCountConcat(pre, [last], c);
        var wl := WithCount([last], c);
        assert wl == WithCount([], c) + (if last.count == c then [last] else []);
        assert we == [] || wl == [];
        SwapEmpty(WithCount(pre, c), we, wl);
        calc {
          WithCount(Insert(r, e), c);
          WithCount(ins, c) + wl;
          (WithCount(pre, c) + we) + wl;
          (WithCount(pre, c) + wl) + we;
          WithCount(r, c) + we;
        }
      }
    }
  }

  /** Two lists of which one is empty may be appended in either order. */
  lemma SwapEmpty(a: seq<Entry>, x: seq<Entry>, y: seq<Entry>)
    requires x == [] || y == []
    ensures (a + x) + y == (a + y) + x
  {
    if x == [] {
      assert a + x == a && (a + y) + x == a + y;
    } else {
      assert a + y == a && (a + x) + y == a + x;
    }
  }

  /** The sort is a permutation of its input. */
  lemma {:induction false} SortPermutes(es: seq<Entry>)
    ensures multiset(SortByCount(es)) == multiset(es)
  {
    if |es| > 0 {
      var n := |es| - 1;
      SortPermutes(es[..n]);
      InsertPermutes(SortByCount(es[..n]), es[n]);
      assert es == es[..n] + [es[n]];
    }
  }

  /** The sort puts larger counts first. */
  lemma {:induction false} SortSorted(es: seq<Entry>)
    ensures ByCount(SortByCount(es))
  {
    if |es| > 0 {
      SortSorted(es[..|es| - 1]);
      InsertSorted(SortByCount(es[..|es| - 1]), es[|es| - 1]);
    }
  }

  /** The sort is stable: entries with equal counts keep their input order. */
  lemma {:induction false} SortStable(es: seq<Entry>, c: nat)
    ensures WithCount(SortByCount(es), c) == WithCount(es, c)
  {
    if |es| > 0 {
      var n := |es| - 1;
      SortStable(es[..n], c);
      InsertStable(SortByCount(es[..n]), es[n], c);
      assert WithCount([es[n]], c) == WithCount([], c) + (if es[n].count == c then [es[n]] else []);
    }
  }

  /** `most_common()` lists every status once with its count, largest count
      first, and statuses with equal counts in first-seen order. */
  lemma MostCommonSpec(t: Tally)
    ensures multiset(MostCommon(t)) == multiset(Items(t))
    ensures ByCount(MostCommon(t))
    ensures forall c :: WithCount(MostCommon(t), c) == WithCount(Items(t), c)
  {
    SortPermutes(Items(t));
    SortSorted(Items(t));
    forall c ensures WithCount(MostCommon(t), c) == WithCount(Items(t), c) {
      SortStable(Items(t), c);
    }
  }

  /** A row of `most_common()` over the counter of `ss` is a status of `ss`
      with its number of occurrences, and every status of `ss` has a row. */
  lemma MostCommonRows(ss: seq<string>)
    ensures forall e :: e in MostCommon(AddAll(Empty, ss)) <==> e.key in ss && e.count == multiset(ss)[e.key]
  {
    var t := AddAll(Empty, ss);
    CountedTally(ss);
    MostCommonSpec(t);
    var items := Items(t);
    forall e ensures e in MostCommon(t) <==> e.key in ss && e.count == multiset(ss)[e.key] {
      calc {
        e in MostCommon(t);
        e in multiset(MostCommon(t));
        e in multiset(items);
        e in items;
      }
      if e.key in ss && e.count == multiset(ss)[e.key] {
        assert e.key in t.keys;
        var i :| 0 <= i < |t.keys| && t.keys[i] == e.key;
        assert items[i] == e;
      }
    }
  }

  // ---------------------------------------------------------------------------
  // The report

  /** `f'{status:>3} : {n}'`. */
  function TableLine(e: Entry): string {
    PadLeft(e.key, 3) + " : " + NatToString(e.count)
  }

  function Table(es: seq<Entry>): (ls: seq<string>)
    ensures |ls| == |es|
  {
    if |es| == 0 then [] else Table(es[..|es| - 1]) + [TableLine(es[|es| - 1])]
  }

  lemma {:induction false} TableAt(es: seq<Entry>, k: int)
    requires 0 <= k < |es|
    ensures Table(es)[k] == TableLine(es[k])
  {
    if k < |es| - 1 {
      TableAt(es[..|es| - 1], k);
    }
  }

  const NoCodes := "No status codes found."
  const CountsHeading := "Tropical cyclone status counts:"

  /** The rule of twenty dashes and the total line. */
  function Closing(total: nat): seq<string> {
    [Repeat("-", 20), "Total : " + NatToString(total)]
  }

  /** The lines `main` prints from a counter. */
  function Summary(t: Tally): seq<string> {
    if Total(t) == 0 then [NoCodes]
    else [CountsHeading] + Table(MostCommon(t)) + Closing(Total(t))
  }

  /** count_tc_status.py: the directory, then the summary of its `*.txt`
      files. */
  function StatusReport(dir: string, listing: seq<TextFile>): seq<string> {
    [dir] + Summary(AddAll(Empty, AllStatuses(Matching(listing, ".txt"))))
  }

  /** count_tc_types.py: the summary of the `*_SST.txt` files. */
  function TypesReport(listing: seq<TextFile>): seq<string> {
    Summary(AddAll(Empty, AllStatuses(Matching(listing, "_SST.txt"))))
  }

  /** The summary of the statuses `ss`: the lone notice exactly when there are
      none; otherwise the heading, one row per status in `most_common` order,
      the rule and the number of counted lines. */
  lemma SummaryOf(ss: seq<string>)
    ensures |ss| == 0 ==> Summary(AddAll(Empty, ss)) == [NoCodes]
    ensures |ss| > 0 ==> var t := AddAll(Empty, ss);
      Summary(t) == [CountsHeading] + Table(MostCommon(t)) + Closing(|ss|)
  {
    CountedTally(ss);
  }

  // ---------------------------------------------------------------------------
  // main

  /** The table loop: one line per entry, appended to `out`. */
  method PrintTable(es: seq<Entry>, out: seq<string>) returns (out': seq<string>)
    ensures out' == out + Table(es)
  {
    out' := out;
    for i := 0 to |es|
      invariant out' == out + Table(es[..i])
    {
      assert es[..i + 1][..i] == es[..i];
      assert Table(es[..i + 1]) == Table(es[..i]) + [TableLine(es[i])];
      out' := out' + [TableLine(es[i])];
    }
    assert es[..|es|] == es;
  }

  /** `main` after the directory line: count every selected file into one
      counter and print the summary. */
  method PrintSummary(files: seq<TextFile>, out: seq<string>) returns (out': seq<string>)
    ensures out' == out + Summary(AddAll(Empty, AllStatuses(files)))
  {
    var counts := CountFiles(files);
    var total := counts.Sum();
    ghost var t := counts.State();
    if total == 0 {
      out' := out + [NoCodes];
      return;
    }
    var es := MostCommon(counts.State());
    out' := PrintTable(es, out + [CountsHeading]);
    ghost var tbl := Table(es);
    assert out' == (out + [CountsHeading]) + tbl;
    out' := out' + Closing(total);
    assert Summary(t) == [CountsHeading] + tbl + Closing(total);
    AppendLines(out, [CountsHeading], tbl, Closing(total));
  }

  /** Printing pieces one after the other prints them joined. */
  lemma AppendLines(out: seq<string>, a: seq<string>, b: seq<string>, c: seq<string>)
    ensures (out + a) + b + c == out + (a + b + c)
  {
  }

  /** count_tc_status.py's `main`. */
  method StatusMain(dir: string, listing: seq<TextFile>) returns (out: seq<string>)
    ensures out == StatusReport(dir, listing)
  {
    out := PrintSummary(Matching(listing, ".txt"), [dir]);
  }

  /** count_tc_types.py's `main`. */
  method TypesMain(listing: seq<TextFile>) returns (out: seq<string>)
    ensures out == TypesReport(listing)
  {
    out := PrintSummary(Matching(listing, "_SST.txt"), []);
  }
}
