/** The code-point helpers of packages/cli/src/ui/utils/textUtils.ts:
    `toCodePoints` (the string iterator behind `Array.from(str)`), `cpLen`
    and `cpSlice`. A surrogate pair is one element; a lone surrogate is an
    element of its own. */
module CodePoints {
  import opened JsStrings

  predicate IsHighSurrogate(u: CodeUnit) { 0xD800 <= u <= 0xDBFF }
  predicate IsLowSurrogate(u: CodeUnit) { 0xDC00 <= u <= 0xDFFF }

  /** A surrogate pair starts at index `i` of `s`. */
  predicate PairAt(s: JsString, i: nat) {
    i + 1 < |s| && IsHighSurrogate(s[i]) && IsLowSurrogate(s[i + 1])
  }

  /** One element of `Array.from(str)`: a single unit or a surrogate pair. */
  predicate IsCodePoint(c: JsString) {
    |c| == 1 || (|c| == 2 && IsHighSurrogate(c[0]) && IsLowSurrogate(c[1]))
  }

  /** A lone high surrogate followed by an element starting with a low one:
      the iterator would have paired the two, so this never occurs in its
      output. */
  predicate Pairable(a: JsString, b: JsString) {
    |a| == 1 && IsHighSurrogate(a[0]) && b != [] && IsLowSurrogate(b[0])
  }

  /** The shape of every sequence the string iterator yields. */
  predicate WellSplit(cps: seq<JsString>) {
    && (forall i :: 0 <= i < |cps| ==> IsCodePoint(cps[i]))
    && (forall i :: 0 <= i < |cps| - 1 ==> !Pairable(cps[i], cps[i + 1]))
  }

  /** `toCodePoints(str)`: joining the elements gives `str` back, and the
      elements are code points in the iterator's shape. */
  function ToCodePoints(s: JsString): (cps: seq<JsString>)
    ensures Concat(cps) == s
    ensures WellSplit(cps)
    decreases |s|
  {
    if s == [] then []
    else if PairAt(s, 0) then
      var rest := ToCodePoints(s[2..]);
      assert s[..2] + s[2..] == s;
      [s[..2]] + rest
    else
      var rest := ToCodePoints(s[1..]);
      assert rest != [] ==> rest[0][0] == Concat(rest)[0];
      assert s[..1] + s[1..] == s;
      [s[..1]] + rest
  }

  /** `cpLen(str)`. */
  function CpLen(s: JsString): nat {
    |ToCodePoints(s)|
  }

  /** A code point never takes fewer than one unit, so `cpLen` never exceeds
      `.length`, and the two agree exactly when the string holds no
      surrogate pair. */
  lemma {:induction false} CpLenVersusLength(s: JsString)
    ensures CpLen(s) <= |s|
    ensures CpLen(s) == |s| <==> forall i :: 0 <= i < |s| ==> !PairAt(s, i)
    decreases |s|
  {
    if s != [] {
      if PairAt(s, 0) {
        CpLenVersusLength(s[2..]);
      } else {
        var t := s[1..];
        CpLenVersusLength(t);
        forall i | 0 <= i < |t| && PairAt(t, i) ensures PairAt(s, i + 1) { }
        forall i | 1 <= i < |s| && PairAt(s, i) ensures PairAt(t, i - 1) { }
      }
    }
  }

  lemma WellSplitSlice(cps: seq<JsString>, lo: nat, hi: nat)
    requires WellSplit(cps) && lo <= hi <= |cps|
    ensures WellSplit(cps[lo..hi])
  {
    var t := cps[lo..hi];
    forall i | 0 <= i < |t| - 1 ensures !Pairable(t[i], t[i + 1]) {
      assert t[i] == cps[lo + i] && t[i + 1] == cps[lo + i + 1];
    }
  }

  /** Re-splitting joined code points gives the same code points: the
      iterator never fuses two elements of its own output. */
  lemma {:induction false} ToCodePointsOfConcat(cps: seq<JsString>)
    requires WellSplit(cps)
    ensures ToCodePoints(Concat(cps)) == cps
  {
    if cps != [] {
      var c, rest := cps[0], cps[1..];
      WellSplitSlice(cps, 1, |cps|);
      ToCodePointsOfConcat(rest);
      var t := Concat(rest);
      var s := c + t;
      assert Concat(cps) == s;
      if |c| == 2 {
        assert PairAt(s, 0);
        assert s[..2] == c && s[2..] == t;
      } else {
        if t != [] {
          assert rest != [] && rest[0] != [];
          assert t[0] == rest[0][0];
          assert !Pairable(cps[0], cps[1]);
        }
        assert !PairAt(s, 0);
        assert s[..1] == c && s[1..] == t;
      }
      assert cps == [c] + rest;
    }
  }

  /** `cpSlice(str, start, end)`; `end` is `None` when the argument is
      omitted. */
  function CpSlice(s: JsString, start: int, end: Option<int>): JsString {
    var cps := ToCodePoints(s);
    var lo := RelativeIndex(start, |cps|);
    var hi := if end.None? then |cps| else RelativeIndex(end.value, |cps|);
    if lo < hi then Concat(cps[lo..hi]) else []
  }

  /** The code points of a slice are exactly the sliced code points. */
  lemma CpSliceCodePoints(s: JsString, start: int, end: int)
    ensures var cps := ToCodePoints(s);
            var lo, hi := RelativeIndex(start, |cps|), RelativeIndex(end, |cps|);
            ToCodePoints(CpSlice(s, start, Some(end))) == if lo < hi then cps[lo..hi] else []
  {
    var cps := ToCodePoints(s);
    var lo, hi := RelativeIndex(start, |cps|), RelativeIndex(end, |cps|);
    if lo < hi {
      WellSplitSlice(cps, lo, hi);
      ToCodePointsOfConcat(cps[lo..hi]);
    }
  }

  /** For `0 <= a <= b` the slice holds `min(b, cpLen) - min(a, cpLen)`
      code points. */
  lemma CpSliceLength(s: JsString, a: int, b: int)
    requires 0 <= a <= b
    ensures var n := CpLen(s);
            CpLen(CpSlice(s, a, Some(b))) == (if b < n then b else n) - (if a < n then a else n)
  {
    CpSliceCodePoints(s, a, b);
  }

  /** Cutting at any code-point index and gluing the halves back together
      restores the string; a negative cut counts from the end for both
      halves alike. */
  lemma CpSliceSplit(s: JsString, k: int)
    ensures CpSlice(s, 0, Some(k)) + CpSlice(s, k, None) == s
  {
    var cps := ToCodePoints(s);
    var n := |cps|;
    var t := RelativeIndex(k, n);
    assert RelativeIndex(0, n) == 0;
    assert CpSlice(s, 0, Some(k)) == Concat(cps[..t]) by {
      if t == 0 {
        assert cps[..0] == [];
      } else {
        assert cps[0..t] == cps[..t];
      }
    }
    assert CpSlice(s, k, None) == Concat(cps[t..]) by {
      if t == n {
        assert cps[n..] == [];
      } else {
        assert cps[t..n] == cps[t..];
      }
    }
    ConcatAppend(cps[..t], cps[t..]);
    assert cps[..t] + cps[t..] == cps;
  }
}
