/** Directories as the aggregating scripts see them: a listing of files, each
    a name and its lines (every line with its newline, as Python's file
    iteration yields them). */
module Files {
  import opened Text

  datatype TextFile = TextFile(name: string, lines: seq<string>)

  /** `dir.glob('*' + suffix)` over one directory: the files whose names end
      with `suffix`, in listing order. */
  function Matching(files: seq<TextFile>, suffix: string): seq<TextFile> {
    if |files| == 0 then []
    else
      var n := |files| - 1;
      Matching(files[..n], suffix) + (if EndsWith(files[n].name, suffix) then [files[n]] else [])
  }

  /** The selected files are exactly the files with that suffix: every
      selected file is in the listing and has the suffix, and every file of
      the listing with the suffix is selected. */
  lemma {:induction false} MatchingSpec(files: seq<TextFile>, suffix: string)
    ensures forall f :: f in Matching(files, suffix) <==> f in files && EndsWith(f.name, suffix)
  {
    if |files| > 0 {
      var n := |files| - 1;
      MatchingSpec(files[..n], suffix);
      assert files == files[..n] + [files[n]];
    }
  }

  /** Selection keeps the listing order: a selected file comes from a later
      position than the one before it. */
  lemma {:induction false} MatchingKeepsOrder(files: seq<TextFile>, suffix: string, i: int, j: int)
    requires 0 <= i < j < |files|
    requires EndsWith(files[i].name, suffix) && EndsWith(files[j].name, suffix)
    ensures var sel := Matching(files, suffix);
      exists a, b :: 0 <= a < b < |sel| && sel[a] == files[i] && sel[b] == files[j]
  {
    var n := |files| - 1;
    var init := Matching(files[..n], suffix);
    assert files[..n][i] == files[i];
    if j < n {
      assert files[..n][j] == files[j];
      MatchingKeepsOrder(files[..n], suffix, i, j);
      var a, b :| 0 <= a < b < |init| && init[a] == files[i] && init[b] == files[j];
      assert Matching(files, suffix)[a] == init[a] && Matching(files, suffix)[b] == init[b];
    } else {
      MatchingSpec(files[..n], suffix);
      assert files[i] in init;
      var a :| 0 <= a < |init| && init[a] == files[i];
      assert Matching(files, suffix)[a] == init[a];
      assert Matching(files, suffix)[|init|] == files[j];
    }
  }
}
