/** `getAsciiArtWidth` of packages/cli/src/ui/utils/textUtils.ts: the length,
    in code units, of the longest `\n`-separated line. */
module AsciiArt {
  import opened JsStrings

  /** `Math.max(...lines.map((line) => line.length))` over at least one
      line: an upper bound on every line's length that some line attains. */
  function MaxLength(lines: seq<JsString>): (m: nat)
    requires |lines| >= 1
    ensures forall i :: 0 <= i < |lines| ==> |lines[i]| <= m
    ensures exists i :: 0 <= i < |lines| && |lines[i]| == m
  {
    if |lines| == 1 then |lines[0]|
    else
      var rest := MaxLength(lines[1..]);
      assert forall i :: 1 <= i < |lines| ==> lines[i] == lines[1..][i - 1];
      if |lines[0]| >= rest then |lines[0]| else rest
  }

  /** `getAsciiArtWidth(asciiArt)`; the empty string is falsy and gives 0. */
  function GetAsciiArtWidth(art: JsString): nat {
    if art == [] then 0 else MaxLength(SplitOn(art, LF))
  }

  /** Every stretch of `s` without `sep` is at most `w` long. */
  ghost predicate StretchesAtMost(s: JsString, sep: CodeUnit, w: nat) {
    forall a, b :: 0 <= a <= b <= |s| && sep !in s[a..b] ==> b - a <= w
  }

  /** Some stretch of `s` without `sep` is exactly `w` long. */
  ghost predicate StretchOf(s: JsString, sep: CodeUnit, w: nat) {
    exists a, b :: 0 <= a <= b <= |s| && sep !in s[a..b] && b - a == w
  }

  /** No stretch between separators is longer than the longest part. */
  lemma {:induction false} JoinedStretches(parts: seq<JsString>, sep: CodeUnit)
    requires |parts| >= 1
    requires forall i :: 0 <= i < |parts| ==> sep !in parts[i]
    ensures StretchesAtMost(JoinWith(parts, [sep]), sep, MaxLength(parts))
  {
    var t := JoinWith(parts, [sep]);
    var m := MaxLength(parts);
    if |parts| > 1 {
      var first, r := parts[0], JoinWith(parts[1..], [sep]);
      var n := |first|;
      JoinedStretches(parts[1..], sep);
      assert t == first + [sep] + r;
      forall a, b | 0 <= a <= b <= |t| ensures sep !in t[a..b] ==> b - a <= m {
        if b <= n {
          assert t[a..b] == first[a..b];
        } else if a > n {
          assert t[a..b] == r[a - n - 1..b - n - 1];
        } else {
          assert t[a..b][n - a] == t[n] == sep;
        }
      }
    }
  }

  /** Some stretch between separators is as long as the longest part. */
  lemma {:induction false} JoinedStretchReached(parts: seq<JsString>, sep: CodeUnit)
    requires |parts| >= 1
    requires forall i :: 0 <= i < |parts| ==> sep !in parts[i]
    ensures StretchOf(JoinWith(parts, [sep]), sep, MaxLength(parts))
  {
    var t := JoinWith(parts, [sep]);
    var m := MaxLength(parts);
    if |parts| == 1 {
      assert t[0..|t|] == t;
    } else {
      var first, r := parts[0], JoinWith(parts[1..], [sep]);
      var n := |first|;
      assert t == first + [sep] + r;
      if m == n {
        assert t[0..n] == first;
      } else {
        JoinedStretchReached(parts[1..], sep);
        var mr := MaxLength(parts[1..]);
        assert m == mr;
        var a, b :| 0 <= a <= b <= |r| && sep !in r[a..b] && b - a == mr;
        assert t[a + n + 1..b + n + 1] == r[a..b];
      }
    }
  }

  /** The width is the length of the longest line: no stretch of the art
      without a newline is longer, and some line is exactly that long. */
  lemma AsciiArtWidthIsLongestLine(art: JsString)
    ensures art == [] ==> GetAsciiArtWidth(art) == 0
    ensures art != [] ==> StretchesAtMost(art, LF, GetAsciiArtWidth(art))
    ensures art != [] ==> StretchOf(art, LF, GetAsciiArtWidth(art))
  {
    if art != [] {
      JoinedStretches(SplitOn(art, LF), LF);
      JoinedStretchReached(SplitOn(art, LF), LF);
    }
  }
}
