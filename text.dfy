/** String helpers shared by every tool of the pipeline: the Python string
    methods the scripts rely on (`strip`, `rstrip("\n")`, `split(",")`,
    `", ".join`, `lower`, `upper`, `isdigit`, slicing with `[:n]`), the
    `^\d{8},` fix-line test, and decimal rendering of integers. Characters
    are Dafny `char`s; only ASCII digits and ASCII letters are recognised. */
module Text {

  predicate IsDigit(c: char) { '0' <= c <= '9' }

  predicate AllDigits(s: string) { forall i :: 0 <= i < |s| ==> IsDigit(s[i]) }

  /** The characters for which Python's `str.isspace()` holds. */
  predicate IsSpace(c: char) {
    c == ' ' || ('\t' <= c <= '\r') || ('\U{1c}' <= c <= '\U{1f}')
    || c == '\U{85}' || c == '\U{a0}' || c == '\U{1680}'
    || ('\U{2000}' <= c <= '\U{200a}') || c == '\U{2028}' || c == '\U{2029}'
    || c == '\U{202f}' || c == '\U{205f}' || c == '\U{3000}'
  }

  function DigitValue(c: char): (d: nat)
    requires IsDigit(c)
    ensures d < 10
  {
    (c as int - '0' as int) as nat
  }

  function DigitChar(d: nat): (c: char)
    requires d < 10
    ensures IsDigit(c) && DigitValue(c) == d
  {
    (('0' as int) + d) as char
  }

  // ---------------------------------------------------------------------------
  // Slicing

  /** Python's `s[:n]` for a non-negative `n`. */
  function Take(s: string, n: nat): (r: string)
    ensures |r| == if n < |s| then n else |s|
    ensures r <= s
  {
    if n < |s| then s[..n] else s
  }

  predicate StartsWith(s: string, prefix: string) {
    |prefix| <= |s| && s[..|prefix|] == prefix
  }

  predicate EndsWith(s: string, suffix: string) {
    |suffix| <= |s| && s[|s| - |suffix|..] == suffix
  }

  // ---------------------------------------------------------------------------
  // Case mapping (ASCII letters only)

  function LowerChar(c: char): char {
    if 'A' <= c <= 'Z' then (c as int + 32) as char else c
  }

  function UpperChar(c: char): char {
    if 'a' <= c <= 'z' then (c as int - 32) as char else c
  }

  /** Python's `s.lower()` restricted to ASCII letters. */
  function Lower(s: string): (r: string)
    ensures |r| == |s|
    ensures forall i :: 0 <= i < |s| ==> r[i] == LowerChar(s[i])
  {
    if |s| == 0 then "" else [LowerChar(s[0])] + Lower(s[1..])
  }

  // ---------------------------------------------------------------------------
  // Whitespace

  /** Python's `s.lstrip()`. */
  function LStrip(s: string): (r: string)
    ensures |r| <= |s| && r == s[|s| - |r|..]
    ensures |r| > 0 ==> !IsSpace(r[0])
    ensures forall i :: 0 <= i < |s| - |r| ==> IsSpace(s[i])
  {
    if |s| > 0 && IsSpace(s[0]) then LStrip(s[1..]) else s
  }

  /** Python's `s.rstrip()`. */
  function RStrip(s: string): (r: string)
    ensures |r| <= |s| && r == s[..|r|]
    ensures |r| > 0 ==> !IsSpace(r[|r| - 1])
    ensures forall i :: |r| <= i < |s| ==> IsSpace(s[i])
  {
    if |s| > 0 && IsSpace(s[|s| - 1]) then RStrip(s[..|s| - 1]) else s
  }

  /** Python's `s.strip()`: white space removed from both ends. */
  function Strip(s: string): (r: string)
    ensures |r| <= |s|
    ensures |r| > 0 ==> !IsSpace(r[0]) && !IsSpace(r[|r| - 1])
  {
    RStrip(LStrip(s))
  }

  lemma StripNoSpace(s: string)
    requires |s| > 0 ==> !IsSpace(s[0]) && !IsSpace(s[|s| - 1])
    ensures Strip(s) == s
  {
  }

  lemma {:induction false} StripLeadingSpaces(pad: string, s: string)
    requires forall i :: 0 <= i < |pad| ==> IsSpace(pad[i])
    ensures Strip(pad + s) == Strip(s)
  {
    if |pad| > 0 {
      assert (pad + s)[1..] == pad[1..] + s;
      StripLeadingSpaces(pad[1..], s);
    } else {
      assert pad + s == s;
    }
  }

  /** Blanks on either side of a string make no difference to `strip()`. */
  lemma StripSurrounding(pre: string, s: string, post: string)
    requires forall i :: 0 <= i < |pre| ==> IsSpace(pre[i])
    requires forall i :: 0 <= i < |post| ==> IsSpace(post[i])
    ensures Strip(pre + s + post) == Strip(s)
  {
    assert pre + s + post == pre + (s + post);
    StripLeadingSpaces(pre, s + post);
    var l := LStrip(s);
    LStripAppend(s, post);
    if |l| > 0 {
      RStripSpaces(l, post);
    } else {
      assert LStrip(post) == "";
    }
  }

  lemma {:induction false} LStripAppend(s: string, post: string)
    ensures |LStrip(s)| > 0 ==> LStrip(s + post) == LStrip(s) + post
    ensures |LStrip(s)| == 0 ==> LStrip(s + post) == LStrip(post)
  {
    if |s| == 0 {
      assert s + post == post;
    } else {
      assert (s + post)[0] == s[0];
      assert (s + post)[1..] == s[1..] + post;
      if IsSpace(s[0]) {
        LStripAppend(s[1..], post);
      }
    }
  }

  lemma {:induction false} RStripSpaces(x: string, post: string)
    requires forall i :: 0 <= i < |post| ==> IsSpace(post[i])
    ensures RStrip(x + post) == RStrip(x)
  {
    if |post| == 0 {
      assert x + post == x;
    } else {
      var n := |post| - 1;
      assert (x + post)[..|x + post| - 1] == x + post[..n];
      RStripSpaces(x, post[..n]);
    }
  }

  /** Python's `s.rstrip("\n")`: every trailing newline removed. */
  function RStripNewline(s: string): (r: string)
    ensures r <= s
    ensures |r| > 0 ==> r[|r| - 1] != '\n'
    ensures forall i :: |r| <= i < |s| ==> s[i] == '\n'
  {
    if |s| > 0 && s[|s| - 1] == '\n' then RStripNewline(s[..|s| - 1]) else s
  }

  // ---------------------------------------------------------------------------
  // Splitting and joining

  /** Python's `s.split(sep)` for a one-character separator: the pieces between
      separators, always at least one (an empty string gives `[""]`). */
  function Split(s: string, sep: char): (parts: seq<string>)
    ensures |parts| >= 1
  {
    if |s| == 0 then [""]
    else
      var rest := Split(s[1..], sep);
      if s[0] == sep then [""] + rest
      else [[s[0]] + rest[0]] + rest[1..]
  }

  /** Number of occurrences of `c` in `s`. */
  function Occurrences(s: string, c: char): nat {
    if |s| == 0 then 0 else (if s[0] == c then 1 else 0) + Occurrences(s[1..], c)
  }

  /** Python's `sep.join(parts)`. */
  function Join(parts: seq<string>, sep: string): string {
    if |parts| == 0 then ""
    else if |parts| == 1 then parts[0]
    else parts[0] + sep + Join(parts[1..], sep)
  }

  lemma {:induction false} SplitCount(s: string, sep: char)
    ensures |Split(s, sep)| == Occurrences(s, sep) + 1
  {
    if |s| > 0 {
      SplitCount(s[1..], sep);
    }
  }

  lemma {:induction false} SplitPiecesHaveNoSeparator(s: string, sep: char)
    ensures forall k :: 0 <= k < |Split(s, sep)| ==> sep !in Split(s, sep)[k]
  {
    if |s| > 0 {
      SplitPiecesHaveNoSeparator(s[1..], sep);
    }
  }

  /** Joining the pieces back with the separator restores the string. */
  lemma {:induction false} JoinSplit(s: string, sep: char)
    ensures Join(Split(s, sep), [sep]) == s
  {
    if |s| > 0 {
      var rest := Split(s[1..], sep);
      JoinSplit(s[1..], sep);
      if s[0] == sep {
        assert Split(s, sep) == [""] + rest;
        assert ([""] + rest)[1..] == rest;
      } else {
        var p := [[s[0]] + rest[0]] + rest[1..];
        assert Split(s, sep) == p;
        if |rest| == 1 {
          assert Join(rest, [sep]) == rest[0];
        } else {
          assert p[1..] == rest[1..];
          assert Join(rest, [sep]) == rest[0] + [sep] + Join(rest[1..], [sep]);
        }
      }
    }
  }

  /** A string free of the separator is one piece. */
  lemma {:induction false} SplitNoSeparator(s: string, sep: char)
    requires sep !in s
    ensures Split(s, sep) == [s]
  {
    if |s| > 0 {
      SplitNoSeparator(s[1..], sep);
      assert [s[0]] + s[1..] == s;
    }
  }

  /** Splitting a string that starts with `c`. */
  lemma SplitCons(c: char, t: string, sep: char)
    ensures Split([c] + t, sep) ==
      if c == sep then [""] + Split(t, sep) else [[c] + Split(t, sep)[0]] + Split(t, sep)[1..]
  {
    assert ([c] + t)[1..] == t;
  }

  /** A separator between `a` and `b` splits the pieces of `a` from those of `b`. */
  lemma {:induction false} SplitAround(a: string, sep: char, b: string)
    ensures Split(a + [sep] + b, sep) == Split(a, sep) + Split(b, sep)
  {
    if |a| == 0 {
      assert a + [sep] + b == [sep] + b;
      SplitCons(sep, b, sep);
    } else {
      SplitAround(a[1..], sep, b);
      SplitAroundStep(a[0], a[1..], sep, b);
      assert [a[0]] + a[1..] == a;
    }
  }

  /** One step of `SplitAround`: a character in front of `t` joins its first
      piece or starts a piece of its own on both sides. */
  lemma SplitAroundStep(c: char, t: string, sep: char, b: string)
    requires Split(t + [sep] + b, sep) == Split(t, sep) + Split(b, sep)
    ensures Split([c] + t + [sep] + b, sep) == Split([c] + t, sep) + Split(b, sep)
  {
    var u := t + [sep] + b;
    assert [c] + t + [sep] + b == [c] + u;
    SplitConsPieces(c, u, sep, Split(t, sep), Split(b, sep));
    SplitCons(c, t, sep);
  }

  /** `SplitCons` when the pieces after `c` are `st` followed by `sb`: the
      pieces of `[c] + u` are those `[c]` adds to `st`, followed by `sb`. */
  lemma SplitConsPieces(c: char, u: string, sep: char, st: seq<string>, sb: seq<string>)
    requires |st| >= 1 && Split(u, sep) == st + sb
    ensures Split([c] + u, sep) ==
      (if c == sep then [""] + st else [[c] + st[0]] + st[1..]) + sb
  {
    SplitCons(c, u, sep);
    if c != sep {
      JoinFirstPiece([c], st, sb);
    }
  }

  /** Gluing `c` to the first piece commutes with appending more pieces. */
  lemma JoinFirstPiece(c: string, ra: seq<string>, rb: seq<string>)
    requires |ra| >= 1
    ensures [c + (ra + rb)[0]] + (ra + rb)[1..] == ([c + ra[0]] + ra[1..]) + rb
  {
    assert (ra + rb)[0] == ra[0];
    assert (ra + rb)[1..] == ra[1..] + rb;
  }

  /** The pieces of a `sep`-joined list of separator-free strings are those strings. */
  lemma {:induction false} SplitJoin(parts: seq<string>, sep: char)
    requires |parts| >= 1
    requires forall k :: 0 <= k < |parts| ==> sep !in parts[k]
    ensures Split(Join(parts, [sep]), sep) == parts
  {
    if |parts| == 1 {
      SplitNoSeparator(parts[0], sep);
    } else {
      SplitJoin(parts[1..], sep);
      SplitNoSeparator(parts[0], sep);
      SplitAround(parts[0], sep, Join(parts[1..], [sep]));
      assert [parts[0]] + parts[1..] == parts;
    }
  }

  /** `" " + ", ".join(items) + tail` split at commas: every item with one
      blank before it, and `tail` after the last one. */
  lemma {:induction false} SplitCommaList(items: seq<string>, tail: string)
    requires |items| >= 1
    requires forall k :: 0 <= k < |items| ==> ',' !in items[k]
    requires ',' !in tail
    ensures |Split(" " + Join(items, ", ") + tail, ',')| == |items|
    ensures forall k :: 0 <= k < |items| ==>
      Split(" " + Join(items, ", ") + tail, ',')[k] == " " + items[k] + (if k == |items| - 1 then tail else "")
  {
    if |items| == 1 {
      assert Join(items, ", ") == items[0];
      SplitNoSeparator(" " + items[0] + tail, ',');
    } else {
      var rest := items[1..];
      SplitCommaList(rest, tail);
      var first, more := " " + items[0], " " + Join(rest, ", ") + tail;
      assert " " + Join(items, ", ") + tail == first + [','] + more;
      SplitNoSeparator(first, ',');
      SplitAround(first, ',', more);
      var pieces := Split(" " + Join(items, ", ") + tail, ',');
      assert pieces == [first] + Split(more, ',');
      forall k | 1 <= k < |items|
        ensures pieces[k] == " " + items[k] + (if k == |items| - 1 then tail else "")
      {
        assert rest[k - 1] == items[k];
      }
    }
  }

  /** The first piece of a string is everything before its first separator. */
  lemma {:induction false} SplitFirst(a: string, sep: char, b: string)
    requires sep !in a
    ensures Split(a + [sep] + b, sep)[0] == a
  {
    SplitAround(a, sep, b);
    SplitNoSeparator(a, sep);
  }

  /** Python's `[p.strip() for p in line.split(sep)]`, the field list every
      tool of the repository builds from a record line. */
  function Fields(line: string): (fs: seq<string>)
  {
    var parts := Split(line, ',');
    seq(|parts|, k requires 0 <= k < |parts| => Strip(parts[k]))
  }

  /** Field `k` of a line is piece `k` stripped. */
  lemma FieldsAt(line: string)
    ensures |Fields(line)| == |Split(line, ',')|
    ensures forall k :: 0 <= k < |Split(line, ',')| ==> Fields(line)[k] == Strip(Split(line, ',')[k])
  {
  }

  /** A record with comma-free cells appended (`raw + ", " + ", ".join(cells)`,
      then a newline) has the fields of `raw` followed by one field per cell,
      the cell without its surrounding blanks. */
  lemma FieldsOfAppended(raw: string, cells: seq<string>)
    requires |cells| >= 1
    requires forall k :: 0 <= k < |cells| ==> ',' !in cells[k]
    ensures |Fields(raw + ", " + Join(cells, ", ") + "\n")| == |Fields(raw)| + |cells|
    ensures forall k :: 0 <= k < |Fields(raw)| ==> Fields(raw + ", " + Join(cells, ", ") + "\n")[k] == Fields(raw)[k]
    ensures forall k :: 0 <= k < |cells| ==>
      Fields(raw + ", " + Join(cells, ", ") + "\n")[|Fields(raw)| + k] == Strip(cells[k])
  {
    var body := Join(cells, ", ") + "\n";
    assert raw + ", " + Join(cells, ", ") + "\n" == raw + ", " + body;
    assert " " + Join(cells, ", ") + "\n" == " " + body;
    AppendedPieces(raw, body);
    TailPieces(cells);
    FieldsOfJoined(raw + ", " + body, raw, Split(" " + body, ','), cells);
  }

  /** A line split into the pieces of `raw` and pieces `tp` that strip to the
      cells has the fields of `raw` followed by the cells, stripped. */
  lemma FieldsOfJoined(line: string, raw: string, tp: seq<string>, cells: seq<string>)
    requires Split(line, ',') == Split(raw, ',') + tp
    requires |tp| == |cells| && forall k :: 0 <= k < |cells| ==> Strip(tp[k]) == Strip(cells[k])
    ensures |Fields(line)| == |Fields(raw)| + |cells|
    ensures forall k :: 0 <= k < |Fields(raw)| ==> Fields(line)[k] == Fields(raw)[k]
    ensures forall k :: 0 <= k < |cells| ==> Fields(line)[|Fields(raw)| + k] == Strip(cells[k])
  {
    var rp := Split(raw, ',');
    FieldsOfPieces(line, rp, tp);
    assert |Fields(raw)| == |rp|;
  }

  /** `raw + ", " + body` has the pieces of `raw`, then those of `" " + body`. */
  lemma AppendedPieces(raw: string, body: string)
    ensures Split(raw + ", " + body, ',') == Split(raw, ',') + Split(" " + body, ',')
  {
    assert raw + ", " + body == raw + [','] + (" " + body);
    SplitAround(raw, ',', " " + body);
  }

  /** The pieces of `" " + ", ".join(cells) + "\n"` strip to the cells. */
  lemma TailPieces(cells: seq<string>)
    requires |cells| >= 1
    requires forall k :: 0 <= k < |cells| ==> ',' !in cells[k]
    ensures |Split(" " + Join(cells, ", ") + "\n", ',')| == |cells|
    ensures forall k :: 0 <= k < |cells| ==> Strip(Split(" " + Join(cells, ", ") + "\n", ',')[k]) == Strip(cells[k])
  {
    SplitCommaList(cells, "\n");
    forall k | 0 <= k < |cells| ensures Strip(" " + cells[k] + (if k == |cells| - 1 then "\n" else "")) == Strip(cells[k]) {
      StripSurrounding(" ", cells[k], if k == |cells| - 1 then "\n" else "");
    }
  }

  /** The fields of a line whose pieces are `rp` followed by `tp`. */
  lemma FieldsOfPieces(line: string, rp: seq<string>, tp: seq<string>)
    requires Split(line, ',') == rp + tp
    ensures |Fields(line)| == |rp| + |tp|
    ensures forall k :: 0 <= k < |rp| ==> Fields(line)[k] == Strip(rp[k])
    ensures forall k :: 0 <= k < |tp| ==> Fields(line)[|rp| + k] == Strip(tp[k])
  {
    FieldsAt(line);
    assert forall k :: 0 <= k < |rp| ==> (rp + tp)[k] == rp[k];
    assert forall k :: 0 <= k < |tp| ==> (rp + tp)[|rp| + k] == tp[k];
  }

  /** Stripping twice is stripping once. */
  lemma StripTwice(s: string)
    ensures Strip(Strip(s)) == Strip(s)
  {
    StripNoSpace(Strip(s));
  }

  /** The last `n` elements, Python's `xs[-n:]` for `n <= |xs|`. */
  function Last<T>(xs: seq<T>, n: nat): (r: seq<T>)
    requires n <= |xs|
  {
    xs[|xs| - n..]
  }

  // ---------------------------------------------------------------------------
  // The fix-line pattern `^\d{8},`

  /** The first eight characters are ASCII digits and the ninth is a comma. */
  predicate IsFixLine(line: string) {
    |line| >= 9 && AllDigits(line[..8]) && line[8] == ','
  }

  /** On a fix line, stripped field 0 is exactly the eight-digit date. */
  lemma FixLineFirstField(line: string)
    requires IsFixLine(line)
    ensures Fields(line)[0] == line[..8]
  {
    assert line == line[..8] + [','] + line[9..];
    assert ',' !in line[..8] by {
      forall k | 0 <= k < 8 ensures line[..8][k] != ',' {
        assert IsDigit(line[..8][k]);
      }
    }
    SplitFirst(line[..8], ',', line[9..]);
    StripNoSpace(line[..8]);
  }

  // ---------------------------------------------------------------------------
  // Decimal integers

  /** The value of a string of ASCII digits, Python's `int(s)` for such a string. */
  function DigitsValue(s: string): nat
    requires AllDigits(s)
  {
    if |s| == 0 then 0 else DigitsValue(s[..|s| - 1]) * 10 + DigitValue(s[|s| - 1])
  }

  /** Decimal digits of `n`, without leading zeros (`"0"` for zero). */
  function NatToString(n: nat): (s: string)
    ensures 1 <= |s| && AllDigits(s)
    ensures |s| > 1 ==> s[0] != '0'
  {
    if n < 10 then [DigitChar(n)] else NatToString(n / 10) + [DigitChar(n % 10)]
  }

  /** Python's `str(i)` for an integer. */
  function IntToString(i: int): (s: string)
    ensures |s| >= 1
  {
    if i < 0 then "-" + NatToString(-i) else NatToString(i)
  }

  lemma {:induction false} NatToStringValue(n: nat)
    ensures DigitsValue(NatToString(n)) == n
  {
    var s := NatToString(n);
    if n >= 10 {
      NatToStringValue(n / 10);
      assert s[..|s| - 1] == NatToString(n / 10);
    }
  }

  /** Decimal rendering is one-to-one. */
  lemma NatToStringInjective(m: nat, n: nat)
    requires NatToString(m) == NatToString(n)
    ensures m == n
  {
    NatToStringValue(m);
    NatToStringValue(n);
  }

  /** `n` written with exactly `width` digits, zero padded on the left;
      requires that `n` fits. */
  function ZeroPad(n: nat, width: nat): (s: string)
    ensures |s| == width && AllDigits(s)
  {
    if width == 0 then "" else ZeroPad(n / 10, width - 1) + [DigitChar(n % 10)]
  }

  lemma {:induction false} ZeroPadValue(n: nat, width: nat)
    requires n < Pow10(width)
    ensures DigitsValue(ZeroPad(n, width)) == n
  {
    if width > 0 {
      var s := ZeroPad(n, width);
      var q, r := n / 10, n % 10;
      assert n == 10 * q + r;
      assert q < Pow10(width - 1);
      assert s[..|s| - 1] == ZeroPad(q, width - 1);
      assert DigitValue(s[|s| - 1]) == r;
      ZeroPadValue(q, width - 1);
    }
  }

  function Pow10(k: nat): (p: nat)
    ensures p >= 1
  {
    if k == 0 then 1 else 10 * Pow10(k - 1)
  }

  /** Python's `f"{s:>w}"`: right-aligned in a field of `w` by padding with spaces. */
  function PadLeft(s: string, width: nat): (r: string)
    ensures |r| == if |s| < width then width else |s|
    ensures EndsWith(r, s)
    ensures forall i :: 0 <= i < |r| - |s| ==> r[i] == ' '
  {
    if |s| < width then Spaces(width - |s|) + s else s
  }

  /** Padding adds only blanks. */
  lemma PadLeftAddsNothingElse(s: string, width: nat, c: char)
    requires c !in s && c != ' '
    ensures c !in PadLeft(s, width)
  {
    var r := PadLeft(s, width);
    forall i | 0 <= i < |r| ensures r[i] != c {
      if i >= |r| - |s| {
        assert r[i] == r[|r| - |s|..][i - (|r| - |s|)];
      }
    }
  }

  lemma DigitsHaveNoComma(s: string)
    requires AllDigits(s)
    ensures ',' !in s
  {
    forall i | 0 <= i < |s| ensures s[i] != ',' {
      assert IsDigit(s[i]);
    }
  }

  function Spaces(n: nat): (r: string)
    ensures |r| == n && forall i :: 0 <= i < n ==> r[i] == ' '
  {
    if n == 0 then "" else " " + Spaces(n - 1)
  }

  /** `n` copies of a string, Python's `s * n`. */
  function Repeat(s: string, n: nat): (r: string)
    ensures |r| == n * |s|
  {
    if n == 0 then "" else s + Repeat(s, n - 1)
  }

  // ---------------------------------------------------------------------------
  // Masks

  /** How many entries of a mask hold. */
  function Trues(m: seq<bool>): (n: nat)
    ensures n <= |m|
  {
    if |m| == 0 then 0 else Trues(m[..|m| - 1]) + (if m[|m| - 1] then 1 else 0)
  }

  /** Some entry holds exactly when the count is positive (`any`), and some
      entry fails exactly when the count falls short of the length (`not
      all`). */
  lemma {:induction false} TruesSpec(m: seq<bool>)
    ensures Trues(m) > 0 <==> exists k :: 0 <= k < |m| && m[k]
    ensures Trues(m) < |m| <==> exists k :: 0 <= k < |m| && !m[k]
  {
    if |m| > 0 {
      var n := |m| - 1;
      var init := m[..n];
      TruesSpec(init);
      assert forall k :: 0 <= k < n ==> init[k] == m[k];
    }
  }
}
