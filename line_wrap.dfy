/** `wrappedLineCount` of packages/cli/src/ui/utils/textUtils.ts: how many
    terminal rows a table cell takes at a given content width.

    The cell text is split on line breaks, where a break is a line feed or an
    HTML `<br>` tag (`<br>`, `<br/>`, `<br />`, any case, any white space
    before the slash). Every segment then takes the ceiling of its plain-text
    width over the content width, and at least one row. */
module LineWrap {
  import opened JsStrings
  import opened PlainText

  /** `b` or `B`, and `r` or `R`: the letters the `i` flag folds. */
  predicate IsLetterB(u: CodeUnit) { u == 0x62 || u == 0x42 }
  predicate IsLetterR(u: CodeUnit) { u == 0x72 || u == 0x52 }

  /** The white space of the tag, then an optional slash: `\s*\/?`. */
  predicate IsTagTail(m: JsString) {
    forall k :: 0 <= k < |m| ==> IsJsSpace(m[k]) || (k == |m| - 1 && m[k] == SLASH)
  }

  /** A text the pattern `\n|<br\s*\/?>` (case-insensitive) matches in
      full. */
  predicate IsBreakToken(t: JsString) {
    || t == [LF]
    || (&& |t| >= 4 && t[0] == LT && IsLetterB(t[1]) && IsLetterR(t[2])
        && t[|t| - 1] == GT && IsTagTail(t[3..|t| - 1]))
  }

  /** The first index from `i` on that does not hold white space. */
  function SkipSpaces(s: JsString, i: nat): (r: nat)
    requires i <= |s|
    ensures i <= r <= |s|
    ensures forall k :: i <= k < r ==> IsJsSpace(s[k])
    ensures r < |s| ==> !IsJsSpace(s[r])
    decreases |s| - i
  {
    if i < |s| && IsJsSpace(s[i]) then SkipSpaces(s, i + 1) else i
  }

  /** Where a break that starts at index `q` ends, if one starts there. The
      greedy `\s*` takes every white-space unit, and neither `/` nor `>` is
      white space, so backtracking never finds another match. */
  function BreakEnd(s: JsString, q: nat): Option<nat>
    requires q <= |s|
  {
    if q < |s| && s[q] == LF then Some(q + 1)
    else if q + 3 <= |s| && s[q] == LT && IsLetterB(s[q + 1]) && IsLetterR(s[q + 2]) then
      var m := SkipSpaces(s, q + 3);
      var n := if m < |s| && s[m] == SLASH then m + 1 else m;
      if n < |s| && s[n] == GT then Some(n + 1) else None
    else None
  }

  /** The scanner finds a break from `q` to `e` exactly when `s[q..e]` is a
      break: it misses none and reports no false one. */
  lemma BreakEndIsBreakToken(s: JsString, q: nat, e: nat)
    requires q <= |s|
    ensures BreakEnd(s, q) == Some(e) <==> q < e <= |s| && IsBreakToken(s[q..e])
  {
    if BreakEnd(s, q) == Some(e) {
      BreakEndSound(s, q, e);
    }
    if q < e <= |s| && IsBreakToken(s[q..e]) {
      BreakEndComplete(s, q, e);
    }
  }

  /** What the scanner reports is a break. */
  lemma BreakEndSound(s: JsString, q: nat, e: nat)
    requires q <= |s| && BreakEnd(s, q) == Some(e)
    ensures q < e <= |s| && IsBreakToken(s[q..e])
  {
    if s[q] != LF {
      var m := SkipSpaces(s, q + 3);
      var n := if m < |s| && s[m] == SLASH then m + 1 else m;
      assert e == n + 1;
      var t := s[q..e];
      assert |t| == e - q;
      var mid := t[3..|t| - 1];
      assert |mid| == n - (q + 3);
      forall k | 0 <= k < |mid| ensures IsJsSpace(mid[k]) || (k == |mid| - 1 && mid[k] == SLASH) {
        assert mid[k] == t[3 + k] == s[q + 3 + k];
      }
      assert t[0] == s[q] && t[1] == s[q + 1] && t[2] == s[q + 2] && t[|t| - 1] == s[n];
    } else {
      assert s[q..e] == [LF];
    }
  }

  /** Every break is found by the scanner. */
  lemma BreakEndComplete(s: JsString, q: nat, e: nat)
    requires q < e <= |s| && IsBreakToken(s[q..e])
    ensures BreakEnd(s, q) == Some(e)
  {
    var t := s[q..e];
    assert |t| == e - q;
    if t != [LF] {
      assert s[q] == t[0] && s[q + 1] == t[1] && s[q + 2] == t[2] && s[e - 1] == t[|t| - 1];
      var mid := t[3..|t| - 1];
      assert |mid| == e - 1 - (q + 3);
      forall k | 0 <= k < |mid| ensures mid[k] == s[q + 3 + k] {
        assert mid[k] == t[3 + k];
      }
      var m := SkipSpaces(s, q + 3);
      assert IsTagTail(mid);
      if |mid| > 0 && mid[|mid| - 1] == SLASH {
        assert !IsJsSpace(s[e - 2]);
        assert forall k :: q + 3 <= k < e - 2 ==> IsJsSpace(s[k]) by {
          forall k | q + 3 <= k < e - 2 ensures IsJsSpace(s[k]) {
            assert IsJsSpace(mid[k - (q + 3)]);
          }
        }
        assert m == e - 2;
      } else {
        assert !IsJsSpace(s[e - 1]);
        assert forall k :: q + 3 <= k < e - 1 ==> IsJsSpace(s[k]) by {
          forall k | q + 3 <= k < e - 1 ensures IsJsSpace(s[k]) {
            assert IsJsSpace(mid[k - (q + 3)]);
          }
        }
        assert m == e - 1;
      }
    } else {
      assert s[q] == t[0];
    }
  }

  /** The JavaScript `split` of `s[p..]` on the break pattern, with the
      current segment starting at `p` and the search at `q`. */
  function SplitFrom(s: JsString, p: nat, q: nat): (segs: seq<JsString>)
    requires p <= q <= |s|
    ensures |segs| >= 1
    decreases |s| - q
  {
    if q == |s| then [s[p..]]
    else match BreakEnd(s, q)
      case Some(e) => [s[p..q]] + SplitFrom(s, e, e)
      case None => SplitFrom(s, p, q + 1)
  }

  /** The breaks `SplitFrom` cuts out, in order. */
  function BreaksFrom(s: JsString, p: nat, q: nat): seq<JsString>
    requires p <= q <= |s|
    decreases |s| - q
  {
    if q == |s| then []
    else match BreakEnd(s, q)
      case Some(e) => [s[q..e]] + BreaksFrom(s, e, e)
      case None => BreaksFrom(s, p, q + 1)
  }

  /** `text.split(/\n|<br\s*\/?>/gi)`. */
  function Segments(text: JsString): seq<JsString> {
    SplitFrom(text, 0, 0)
  }

  function Breaks(text: JsString): seq<JsString> {
    BreaksFrom(text, 0, 0)
  }

  /** The segments with the breaks put back between them. */
  function Interleave(segs: seq<JsString>, seps: seq<JsString>): JsString
    requires |segs| == |seps| + 1
  {
    if seps == [] then segs[0] else segs[0] + seps[0] + Interleave(segs[1..], seps[1..])
  }

  /** No break occurs anywhere inside `s`. */
  predicate BreakFree(s: JsString) {
    forall a, b :: 0 <= a < b <= |s| ==> !IsBreakToken(s[a..b])
  }

  /** The segments and breaks found from `(p, q)` on rebuild `s[p..]`,
      every break is one, and no segment holds one. */
  predicate SplitsInto(s: JsString, p: nat, q: nat)
    requires p <= q <= |s|
  {
    var segs, seps := SplitFrom(s, p, q), BreaksFrom(s, p, q);
    && |segs| == |seps| + 1
    && Interleave(segs, seps) == s[p..]
    && (forall i :: 0 <= i < |seps| ==> IsBreakToken(seps[i]))
    && (forall i :: 0 <= i < |segs| ==> BreakFree(segs[i]))
  }

  lemma {:induction false} SplitFromParts(s: JsString, p: nat, q: nat)
    requires p <= q <= |s|
    requires forall j :: p <= j < q ==> BreakEnd(s, j).None?
    ensures SplitsInto(s, p, q)
    decreases |s| - q
  {
    if q == |s| {
      SegmentBreakFree(s, p, q);
      assert s[p..q] == s[p..];
    } else if BreakEnd(s, q).Some? {
      var e := BreakEnd(s, q).value;
      BreakEndSound(s, q, e);
      SplitFromParts(s, e, e);
      PartsAtBreak(s, p, q, e);
    } else {
      SplitFromParts(s, p, q + 1);
      assert SplitFrom(s, p, q) == SplitFrom(s, p, q + 1);
      assert BreaksFrom(s, p, q) == BreaksFrom(s, p, q + 1);
    }
  }

  /** The step of `SplitFromParts` at a break. */
  lemma PartsAtBreak(s: JsString, p: nat, q: nat, e: nat)
    requires p <= q < e <= |s| && BreakEnd(s, q) == Some(e) && IsBreakToken(s[q..e])
    requires forall j :: p <= j < q ==> BreakEnd(s, j).None?
    requires SplitsInto(s, e, e)
    ensures SplitsInto(s, p, q)
  {
    SegmentBreakFree(s, p, q);
    var segs, seps := SplitFrom(s, e, e), BreaksFrom(s, e, e);
    assert SplitFrom(s, p, q) == [s[p..q]] + segs;
    assert BreaksFrom(s, p, q) == [s[q..e]] + seps;
    assert s[p..] == s[p..q] + s[q..e] + s[e..];
  }

  /** A stretch the scanner passed over without finding a break start holds
      no break. */
  lemma SegmentBreakFree(s: JsString, p: nat, q: nat)
    requires p <= q <= |s|
    requires forall j :: p <= j < q ==> BreakEnd(s, j).None?
    ensures BreakFree(s[p..q])
  {
    var seg := s[p..q];
    forall a, b | 0 <= a < b <= |seg| ensures !IsBreakToken(seg[a..b]) {
      assert |seg[a..b]| == b - a == |s[p + a..p + b]|;
      forall k | 0 <= k < b - a ensures seg[a..b][k] == s[p + a..p + b][k] {
        assert seg[a..b][k] == seg[a + k] == s[p + a + k];
      }
      assert seg[a..b] == s[p + a..p + b];
      assert BreakEnd(s, p + a).None?;
      BreakEndIsBreakToken(s, p + a, p + b);
    }
  }

  /** Splitting on breaks loses nothing: the segments and the breaks
      between them rebuild the text, every cut is a break, and no segment
      holds one; and the cuts are the leftmost ones, so the split is the
      only one that cuts that way (`LeftmostCutsUnique`). */
  lemma SegmentsRebuildText(text: JsString)
    ensures |Segments(text)| == |Breaks(text)| + 1
    ensures Interleave(Segments(text), Breaks(text)) == text
    ensures forall i :: 0 <= i < |Breaks(text)| ==> IsBreakToken(Breaks(text)[i])
    ensures forall i :: 0 <= i < |Segments(text)| ==> BreakFree(Segments(text)[i])
    ensures LeftmostCuts(text, Segments(text), Breaks(text))
  {
    SplitFromParts(text, 0, 0);
    assert text[0..] == text;
    assert SplitsInto(text, 0, 0);
    SplitFromLeftmost(text, 0, 0);
  }

  /** No break starts at an index below `n` of `t`, not even one that runs
      on past `n`. */
  predicate NoBreakStartsBefore(t: JsString, n: nat) {
    n <= |t| && forall a, b :: 0 <= a < n && a < b <= |t| ==> !IsBreakToken(t[a..b])
  }

  /** `a` then the break `b` open `t`, and no break starts inside `a`:
      `b` is the first break that starts anywhere in `t`. */
  predicate CutsFirst(t: JsString, a: JsString, b: JsString) {
    && |a| + |b| <= |t|
    && t[..|a| + |b|] == a + b
    && IsBreakToken(b)
    && NoBreakStartsBefore(t, |a|)
  }

  /** `segs` and `seps` cut `t` at its breaks, leftmost first: the first
      segment runs up to the first break that starts anywhere in `t`, that
      break follows it, and the rest is cut the same way. */
  predicate LeftmostCuts(t: JsString, segs: seq<JsString>, seps: seq<JsString>)
    decreases |seps|
  {
    && |segs| == |seps| + 1
    && if seps == [] then t == segs[0] && NoBreakStartsBefore(t, |t|)
       else
         && CutsFirst(t, segs[0], seps[0])
         && LeftmostCuts(t[|segs[0]| + |seps[0]|..], segs[1..], seps[1..])
  }

  lemma LeftmostCons(t: JsString, a: JsString, b: JsString, segs: seq<JsString>, seps: seq<JsString>)
    requires CutsFirst(t, a, b) && LeftmostCuts(t[|a| + |b|..], segs, seps)
    ensures LeftmostCuts(t, [a] + segs, [b] + seps)
  {
    assert ([a] + segs)[1..] == segs && ([b] + seps)[1..] == seps;
  }

  /** A stretch the scanner passed over holds the start of no break. */
  lemma NoBreakStartsFrom(s: JsString, p: nat, q: nat)
    requires p <= q <= |s|
    requires forall j :: p <= j < q ==> BreakEnd(s, j).None?
    ensures NoBreakStartsBefore(s[p..], q - p)
  {
    var t := s[p..];
    forall a, b | 0 <= a < q - p && a < b <= |t| ensures !IsBreakToken(t[a..b]) {
      assert |t[a..b]| == b - a == |s[p + a..p + b]|;
      forall k | 0 <= k < b - a ensures t[a..b][k] == s[p + a..p + b][k] {
        assert t[a..b][k] == t[a + k] == s[p + a + k];
      }
      assert t[a..b] == s[p + a..p + b];
      assert BreakEnd(s, p + a).None?;
      BreakEndIsBreakToken(s, p + a, p + b);
    }
  }

  /** The scanner's split of `s[p..]` cuts at the leftmost breaks. */
  lemma {:induction false} SplitFromLeftmost(s: JsString, p: nat, q: nat)
    requires p <= q <= |s|
    requires forall j :: p <= j < q ==> BreakEnd(s, j).None?
    ensures LeftmostCuts(s[p..], SplitFrom(s, p, q), BreaksFrom(s, p, q))
    decreases |s| - q
  {
    if q == |s| {
      NoBreakStartsFrom(s, p, q);
      assert s[p..q] == s[p..];
    } else if BreakEnd(s, q).Some? {
      var e := BreakEnd(s, q).value;
      SplitFromLeftmost(s, e, e);
      LeftmostAtBreak(s, p, q, e);
    } else {
      SplitFromLeftmost(s, p, q + 1);
      assert SplitFrom(s, p, q) == SplitFrom(s, p, q + 1);
      assert BreaksFrom(s, p, q) == BreaksFrom(s, p, q + 1);
    }
  }

  /** The step of `SplitFromLeftmost` at a break. */
  lemma LeftmostAtBreak(s: JsString, p: nat, q: nat, e: nat)
    requires p <= q < |s| && BreakEnd(s, q) == Some(e)
    requires forall j :: p <= j < q ==> BreakEnd(s, j).None?
    requires LeftmostCuts(s[e..], SplitFrom(s, e, e), BreaksFrom(s, e, e))
    ensures LeftmostCuts(s[p..], SplitFrom(s, p, q), BreaksFrom(s, p, q))
  {
    var t, a, b := s[p..], s[p..q], s[q..e];
    assert CutsFirst(t, a, b) by {
      BreakEndSound(s, q, e);
      NoBreakStartsFrom(s, p, q);
      assert t[..e - p] == s[p..e] == a + b;
    }
    assert t[|a| + |b|..] == s[e..];
    LeftmostCons(t, a, b, SplitFrom(s, e, e), BreaksFrom(s, e, e));
    assert SplitFrom(s, p, q) == [a] + SplitFrom(s, e, e);
    assert BreaksFrom(s, p, q) == [b] + BreaksFrom(s, e, e);
  }

  /** The first segment and break of a leftmost split are stretches of the
      text: the segment its start, the break right after it. */
  lemma CutsFirstParts(t: JsString, a: JsString, b: JsString)
    requires CutsFirst(t, a, b)
    ensures |b| >= 1 && a == t[..|a|] && b == t[|a|..|a| + |b|]
    ensures IsBreakToken(t[|a|..|a| + |b|])
  {
    var n, m := |a|, |b|;
    assert t[..n + m][..n] == a && t[..n + m][n..] == b;
    assert t[..n] == t[..n + m][..n];
    assert t[n..n + m] == t[..n + m][n..];
  }

  /** Two leftmost first cuts of a text are the same cut: neither can start
      before the other, and the scanner finds one break at a given start. */
  lemma SameFirstCut(t: JsString, a: JsString, b: JsString, a': JsString, b': JsString)
    requires CutsFirst(t, a, b) && CutsFirst(t, a', b')
    ensures a == a' && b == b'
  {
    CutsFirstParts(t, a, b);
    CutsFirstParts(t, a', b');
    assert |a| <= |a'|;
    assert |a'| <= |a|;
    BreakEndComplete(t, |a|, |a| + |b|);
    BreakEndComplete(t, |a|, |a| + |b'|);
  }

  /** Only one split cuts a text at its leftmost breaks, so the segments of
      `text.split(/\n|<br\s*\/?>/gi)` are determined by that alone. */
  lemma {:induction false} LeftmostCutsUnique(t: JsString, segs: seq<JsString>, seps: seq<JsString>,
                                              segs': seq<JsString>, seps': seq<JsString>)
    requires LeftmostCuts(t, segs, seps) && LeftmostCuts(t, segs', seps')
    ensures segs == segs' && seps == seps'
    decreases |seps|
  {
    if seps != [] {
      CutsFirstParts(t, segs[0], seps[0]);
    }
    if seps' != [] {
      CutsFirstParts(t, segs'[0], seps'[0]);
    }
    assert (seps == []) == (seps' == []);
    if seps != [] {
      SameFirstCut(t, segs[0], seps[0], segs'[0], seps'[0]);
      var rest := t[|segs[0]| + |seps[0]|..];
      LeftmostCutsUnique(rest, segs[1..], seps[1..], segs'[1..], seps'[1..]);
      assert segs == [segs[0]] + segs[1..] && segs' == [segs'[0]] + segs'[1..];
      assert seps == [seps[0]] + seps[1..] && seps' == [seps'[0]] + seps'[1..];
    }
  }

  /** `Math.ceil(p / w)` for a positive integer width: the least `r` with
      `p <= r * w`. */
  function CeilDiv(p: nat, w: nat): (r: nat)
    requires w > 0
    ensures (r - 1) * w < p <= r * w
  {
    var r := (p + w - 1) / w;
    assert r * w <= p + w - 1 < r * w + w;
    r
  }

  /** `a * w < b * w` with `w > 0` means `a < b`. */
  lemma LessTimes(a: int, b: int, w: int)
    requires w > 0 && a * w < b * w
    ensures a < b
  {
    assert (b - a) * w == b * w - a * w;
  }

  lemma CeilDivAntitone(p: nat, w1: nat, w2: nat)
    requires 0 < w1 <= w2
    ensures CeilDiv(p, w2) <= CeilDiv(p, w1)
  {
    var r1, r2 := CeilDiv(p, w1), CeilDiv(p, w2);
    assert r1 * w2 - r1 * w1 == r1 * (w2 - w1);
    assert (r2 - 1) * w2 < r1 * w2;
    LessTimes(r2 - 1, r1, w2);
  }

  lemma CeilDivAtMostOne(p: nat, w: nat)
    requires 0 < w && p <= w
    ensures CeilDiv(p, w) <= 1
  {
    var r := CeilDiv(p, w);
    assert (r - 1) * w < w * 1;
    LessTimes(r - 1, 1, w);
  }

  /** `Math.max(1, x)`. */
  function AtLeastOne(x: int): (r: nat)
    ensures r >= 1 && r >= x && (r == 1 || r == x)
  {
    if x < 1 then 1 else x
  }

  /** The rows one segment takes: `Math.max(1, Math.ceil(len / width))`. */
  function SegmentRows(measure: WidthFn, seg: JsString, width: nat): (rows: nat)
    requires width > 0
    ensures rows >= 1
  {
    AtLeastOne(CeilDiv(GetPlainTextLength(measure, seg), width))
  }

  /** The rows of all segments, summed in order. */
  function SumRows(measure: WidthFn, segs: seq<JsString>, width: nat): nat
    requires width > 0
  {
    if segs == [] then 0
    else SumRows(measure, segs[..|segs| - 1], width) + SegmentRows(measure, segs[|segs| - 1], width)
  }

  /** What `wrappedLineCount(text, width)` returns. */
  function LineCount(measure: WidthFn, text: JsString, width: int): nat {
    if width <= 0 then 1
    else
      AtLeastOne(SumRows(measure, Segments(text), width))
  }

  /** `wrappedLineCount(text, width)`, with `string-width` as `measure`. */
  method WrappedLineCount(measure: WidthFn, text: JsString, width: int) returns (count: nat)
    ensures count == LineCount(measure, text, width)
  {
    if width <= 0 {
      return 1;
    }
    var lines := Segments(text);
    var sum := 0;
    var i := 0;
    while i < |lines|
      invariant 0 <= i <= |lines|
      invariant sum == SumRows(measure, lines[..i], width)
    {
      assert lines[..i + 1][..i] == lines[..i];
      sum := sum + SegmentRows(measure, lines[i], width);
      i := i + 1;
    }
    assert lines[..|lines|] == lines;
    count := AtLeastOne(sum);
  }

  lemma {:induction false} SumRowsAtLeastCount(measure: WidthFn, segs: seq<JsString>, width: nat)
    requires width > 0
    ensures SumRows(measure, segs, width) >= |segs|
  {
    if segs != [] {
      SumRowsAtLeastCount(measure, segs[..|segs| - 1], width);
    }
  }

  lemma {:induction false} SumRowsAntitone(measure: WidthFn, segs: seq<JsString>, w1: nat, w2: nat)
    requires 0 < w1 <= w2
    ensures SumRows(measure, segs, w2) <= SumRows(measure, segs, w1)
  {
    if segs != [] {
      SumRowsAntitone(measure, segs[..|segs| - 1], w1, w2);
      CeilDivAntitone(GetPlainTextLength(measure, segs[|segs| - 1]), w1, w2);
    }
  }

  lemma {:induction false} SumRowsAmple(measure: WidthFn, segs: seq<JsString>, width: nat)
    requires width > 0
    requires forall i :: 0 <= i < |segs| ==> GetPlainTextLength(measure, segs[i]) <= width
    ensures SumRows(measure, segs, width) == |segs|
  {
    if segs != [] {
      SumRowsAmple(measure, segs[..|segs| - 1], width);
      CeilDivAtMostOne(GetPlainTextLength(measure, segs[|segs| - 1]), width);
    }
  }

  /** A width of zero or less gives one row, whatever the text. */
  lemma NonPositiveWidthIsOneRow(measure: WidthFn, text: JsString, width: int)
    requires width <= 0
    ensures LineCount(measure, text, width) == 1
  {
  }

  /** At a positive width the count is the sum of the segments' rows, so at
      least one row per segment; the outer `Math.max(1, sum)` never bites. */
  lemma LineCountIsSum(measure: WidthFn, text: JsString, width: int)
    requires width > 0
    ensures LineCount(measure, text, width) == SumRows(measure, Segments(text), width)
    ensures LineCount(measure, text, width) >= |Segments(text)| >= 1
  {
    SumRowsAtLeastCount(measure, Segments(text), width);
  }

  /** A wider column never needs more rows. */
  lemma LineCountAntitone(measure: WidthFn, text: JsString, w1: int, w2: int)
    requires 0 < w1 <= w2
    ensures LineCount(measure, text, w2) <= LineCount(measure, text, w1)
  {
    LineCountIsSum(measure, text, w1);
    LineCountIsSum(measure, text, w2);
    SumRowsAntitone(measure, Segments(text), w1, w2);
  }

  /** When every segment fits the width, each takes one row. */
  lemma LineCountAmple(measure: WidthFn, text: JsString, width: int)
    requires width > 0
    requires forall i :: 0 <= i < |Segments(text)| ==> GetPlainTextLength(measure, Segments(text)[i]) <= width
    ensures LineCount(measure, text, width) == |Segments(text)|
  {
    LineCountIsSum(measure, text, width);
    SumRowsAmple(measure, Segments(text), width);
  }

  /** Only a line feed or `<` can start a break. */
  lemma NoBreakAt(s: JsString, j: nat)
    requires j < |s| && s[j] != LF && s[j] != LT
    ensures BreakEnd(s, j) == None
  {
  }

  lemma {:induction false} SplitFromSkips(s: JsString, p: nat, q: nat, r: nat)
    requires p <= q <= r <= |s|
    requires forall j :: q <= j < r ==> s[j] != LF && s[j] != LT
    ensures SplitFrom(s, p, q) == SplitFrom(s, p, r)
    decreases r - q
  {
    if q < r {
      NoBreakAt(s, q);
      SplitFromSkips(s, p, q + 1, r);
    }
  }

  /** The scan only looks ahead, so a prefix in front shifts it and changes
      nothing else. */
  lemma {:induction false} SkipSpacesShift(x: JsString, y: JsString, i: nat)
    requires i <= |y|
    ensures SkipSpaces(x + y, |x| + i) == |x| + SkipSpaces(y, i)
    decreases |y| - i
  {
    if i < |y| {
      assert (x + y)[|x| + i] == y[i];
      SkipSpacesShift(x, y, i + 1);
    }
  }

  lemma BreakEndShift(x: JsString, y: JsString, q: nat)
    requires q <= |y|
    ensures BreakEnd(y, q).None? ==> BreakEnd(x + y, |x| + q).None?
    ensures BreakEnd(y, q).Some? ==> BreakEnd(x + y, |x| + q) == Some(|x| + BreakEnd(y, q).value)
  {
    var s := x + y;
    assert forall k :: 0 <= k < |y| ==> s[|x| + k] == y[k];
    if q + 3 <= |y| {
      SkipSpacesShift(x, y, q + 3);
    }
  }

  lemma {:induction false} SplitFromShift(x: JsString, y: JsString, p: nat, q: nat)
    requires p <= q <= |y|
    ensures SplitFrom(x + y, |x| + p, |x| + q) == SplitFrom(y, p, q)
    decreases |y| - q
  {
    if q == |y| {
      ShiftAtEnd(x, y, p, q);
    } else {
      BreakEndShift(x, y, q);
      if BreakEnd(y, q).Some? {
        var e := BreakEnd(y, q).value;
        SplitFromShift(x, y, e, e);
        ShiftAtBreak(x, y, p, q, e);
      } else {
        SplitFromShift(x, y, p, q + 1);
        ShiftPastUnit(x, y, p, q);
      }
    }
  }

  /** The step of `SplitFromShift` at the end of the text. */
  lemma ShiftAtEnd(x: JsString, y: JsString, p: nat, q: nat)
    requires p <= q == |y|
    ensures SplitFrom(x + y, |x| + p, |x| + q) == SplitFrom(y, p, q)
  {
    SplitAtEnd(x + y, |x| + p, |x| + q);
    SplitAtEnd(y, p, q);
    SliceOfAppend(x, y, p, q);
  }

  /** At the end of the text the rest is the last segment. */
  lemma SplitAtEnd(s: JsString, p: nat, q: nat)
    requires p <= q == |s|
    ensures SplitFrom(s, p, q) == [s[p..q]]
  {
    assert s[p..] == s[p..q];
  }

  /** The step of `SplitFromShift` where no break starts. */
  lemma ShiftPastUnit(x: JsString, y: JsString, p: nat, q: nat)
    requires p <= q < |y| && BreakEnd(y, q).None? && BreakEnd(x + y, |x| + q).None?
    requires SplitFrom(x + y, |x| + p, |x| + q + 1) == SplitFrom(y, p, q + 1)
    ensures SplitFrom(x + y, |x| + p, |x| + q) == SplitFrom(y, p, q)
  {
    SplitPastUnit(x + y, |x| + p, |x| + q);
    SplitPastUnit(y, p, q);
  }

  /** The step of `SplitFromShift` at a break. */
  lemma ShiftAtBreak(x: JsString, y: JsString, p: nat, q: nat, e: nat)
    requires p <= q < |y| && BreakEnd(y, q) == Some(e)
    requires BreakEnd(x + y, |x| + q) == Some(|x| + e)
    requires q < e <= |y| && SplitFrom(x + y, |x| + e, |x| + e) == SplitFrom(y, e, e)
    ensures SplitFrom(x + y, |x| + p, |x| + q) == SplitFrom(y, p, q)
  {
    SplitAtBreak(x + y, |x| + p, |x| + q, |x| + e);
    SplitAtBreak(y, p, q, e);
    SliceOfAppend(x, y, p, q);
  }

  /** A stretch of `y` keeps its units when `x` is put before it. */
  lemma SliceOfAppend(x: JsString, y: JsString, a: nat, b: nat)
    requires a <= b <= |y|
    ensures (x + y)[|x| + a..|x| + b] == y[a..b]
  {
  }

  /** A break at `q` ends the current segment. */
  lemma SplitAtBreak(s: JsString, p: nat, q: nat, e: nat)
    requires p <= q < |s| && BreakEnd(s, q) == Some(e)
    ensures q < e <= |s|
    ensures SplitFrom(s, p, q) == [s[p..q]] + SplitFrom(s, e, e)
  {
    BreakEndSound(s, q, e);
  }

  /** Without a break at `q` the segment goes on. */
  lemma SplitPastUnit(s: JsString, p: nat, q: nat)
    requires p <= q < |s| && BreakEnd(s, q).None?
    ensures SplitFrom(s, p, q) == SplitFrom(s, p, q + 1)
  {
  }

  /** `<br>`. */
  const BR: JsString := [LT, 0x62, 0x72, GT]

  /** Splitting undoes joining with `<br>`, when no line holds a line feed
      or a `<`. */
  lemma {:induction false} SegmentsOfJoin(lines: seq<JsString>)
    requires |lines| >= 1
    requires forall i :: 0 <= i < |lines| ==> LF !in lines[i] && LT !in lines[i]
    ensures Segments(JoinWith(lines, BR)) == lines
  {
    var s := JoinWith(lines, BR);
    var l0 := lines[0];
    if |lines| == 1 {
      SplitFromSkips(s, 0, 0, |s|);
      assert s[0..] == s;
    } else {
      var rest := JoinWith(lines[1..], BR);
      assert s == (l0 + BR) + rest;
      forall j | 0 <= j < |l0| ensures s[j] != LF && s[j] != LT {
        assert s[j] == l0[j];
      }
      SplitFromSkips(s, 0, 0, |l0|);
      var h := |l0|;
      assert s[h..h + 4] == BR;
      assert SkipSpaces(s, h + 3) == h + 3;
      assert BreakEnd(s, h) == Some(h + 4);
      assert s[0..h] == l0;
      SegmentsOfJoin(lines[1..]);
      SplitFromShift(l0 + BR, rest, 0, 0);
      assert SplitFrom(s, 0, h) == [l0] + lines[1..];
    }
  }

  /** `Line 1<br>Line 2<br>Line 3` splits into its three lines. */
  lemma ThreeLineSplit()
    ensures Segments(JoinWith([Js("Line 1"), Js("Line 2"), Js("Line 3")], BR)) == [Js("Line 1"), Js("Line 2"), Js("Line 3")]
  {
    var lines := [Js("Line 1"), Js("Line 2"), Js("Line 3")];
    forall i | 0 <= i < 3 ensures LF !in lines[i] && LT !in lines[i] {
      LineLabel(i);
    }
    SegmentsOfJoin(lines);
  }

  /** The code units of `Line 1`, `Line 2` and `Line 3`. */
  lemma LineLabel(i: nat)
    requires i < 3
    ensures var text := [Js("Line 1"), Js("Line 2"), Js("Line 3")][i];
      text == [0x4C, 0x69, 0x6E, 0x65, 0x20, 0x31 + i] && LF !in text && LT !in text
  {
  }

  /** Lines joined with `<br>` take one row each at any width they all fit
      in. */
  lemma JoinedLinesRows(measure: WidthFn, lines: seq<JsString>, width: int)
    requires width > 0 && |lines| >= 1
    requires forall i :: 0 <= i < |lines| ==> LF !in lines[i] && LT !in lines[i]
    requires forall i :: 0 <= i < |lines| ==> GetPlainTextLength(measure, lines[i]) <= width
    ensures LineCount(measure, JoinWith(lines, BR), width) == |lines|
  {
    SegmentsOfJoin(lines);
    LineCountAmple(measure, JoinWith(lines, BR), width);
  }
}
