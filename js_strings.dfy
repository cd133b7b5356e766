/** JavaScript strings and buffers as the text utilities see them.

    A JavaScript string is a sequence of UTF-16 code units: its `.length`
    counts units, and a character outside the Basic Multilingual Plane takes
    two of them (a surrogate pair). A Node `Buffer` is a sequence of bytes.
    This module also holds the few `String` and `Array` builtins the
    utilities rely on (`split` on one character, `join`, `repeat`). */
module JsStrings {

  /** One UTF-16 code unit. */
  type CodeUnit = u: int | 0 <= u < 0x1_0000

  /** A JavaScript string value. */
  type JsString = seq<CodeUnit>

  /** One byte of a Node `Buffer`. */
  type Byte = b: int | 0 <= b < 0x100

  /** The display width the `string-width` package computes (East Asian
      width, ANSI escapes, grapheme clusters). It is a foreign library, so
      every operation that measures text takes it as a parameter. */
  type WidthFn = JsString -> nat

  datatype Option<T> = None | Some(value: T)

  const LF: CodeUnit := 0x0A
  const CR: CodeUnit := 0x0D
  const LINE_SEPARATOR: CodeUnit := 0x2028
  const PARAGRAPH_SEPARATOR: CodeUnit := 0x2029

  /** A string literal of the Basic Multilingual Plane, as code units. */
  function Js(s: string): JsString
    requires forall i :: 0 <= i < |s| ==> s[i] as int < 0x1_0000
  {
    if s == "" then [] else [s[0] as int] + Js(s[1..])
  }

  /** The code units a regular expression's `.` refuses to match when the
      `s` flag is absent: the four ECMAScript line terminators. */
  predicate IsLineTerminator(u: CodeUnit) {
    u == LF || u == CR || u == LINE_SEPARATOR || u == PARAGRAPH_SEPARATOR
  }

  predicate NoLineTerminator(s: JsString) {
    forall k :: 0 <= k < |s| ==> !IsLineTerminator(s[k])
  }

  /** The code units of the regular-expression class `\s`: ECMAScript
      WhiteSpace and LineTerminator. */
  predicate IsJsSpace(u: CodeUnit) {
    || u == 0x09 || u == 0x0B || u == 0x0C || u == 0x20 || u == 0xA0
    || u == 0x1680 || (0x2000 <= u <= 0x200A) || u == 0x202F || u == 0x205F
    || u == 0x3000 || u == 0xFEFF
    || IsLineTerminator(u)
  }

  /** `s.startsWith(p, i)`. */
  predicate StartsWithAt(s: JsString, i: nat, p: JsString) {
    i + |p| <= |s| && forall k :: 0 <= k < |p| ==> s[i + k] == p[k]
  }

  /** The index `Array.prototype.slice` and `TypedArray.prototype.subarray`
      take from an argument `k` on `len` elements: a negative `k` counts
      from the end, and the result is clamped to `[0, len]`. */
  function RelativeIndex(k: int, len: nat): (r: nat)
    ensures r <= len
    ensures 0 <= k <= len ==> r == k
  {
    if k < 0 then (if len + k < 0 then 0 else len + k)
    else if k < len then k
    else len
  }

  /** `n` copies of `x`. */
  function Replicate<T>(x: T, n: nat): (r: seq<T>)
    ensures |r| == n && forall k :: 0 <= k < n ==> r[k] == x
  {
    if n == 0 then [] else [x] + Replicate(x, n - 1)
  }

  /** `parts.join('')`. */
  function Concat(parts: seq<JsString>): JsString {
    if parts == [] then [] else parts[0] + Concat(parts[1..])
  }

  lemma {:induction false} ConcatAppend(a: seq<JsString>, b: seq<JsString>)
    ensures Concat(a + b) == Concat(a) + Concat(b)
  {
    if a == [] {
      assert a + b == b;
    } else {
      assert (a + b)[1..] == a[1..] + b;
      ConcatAppend(a[1..], b);
    }
  }

  /** `parts.join(sep)`; the join of no parts is the empty string. */
  function JoinWith(parts: seq<JsString>, sep: JsString): JsString {
    if parts == [] then []
    else if |parts| == 1 then parts[0]
    else parts[0] + sep + JoinWith(parts[1..], sep)
  }

  /** `s.split(sep)` for a one-unit separator: the pieces between
      separators, at least one, none containing the separator, and joining
      them back with the separator gives `s`. */
  function SplitOn(s: JsString, sep: CodeUnit): (parts: seq<JsString>)
    ensures |parts| >= 1
    ensures forall i :: 0 <= i < |parts| ==> sep !in parts[i]
    ensures JoinWith(parts, [sep]) == s
    decreases |s|
  {
    if s == [] then [[]]
    else
      var rest := SplitOn(s[1..], sep);
      if s[0] == sep then
        assert [sep] + JoinWith(rest, [sep]) == s;
        [[]] + rest
      else
        var parts := [[s[0]] + rest[0]] + rest[1..];
        assert |rest| > 1 ==> JoinWith(rest, [sep]) == rest[0] + [sep] + JoinWith(rest[1..], [sep]);
        assert parts[1..] == rest[1..];
        parts
  }

  lemma {:induction false} SplitOnPrefix(a: JsString, t: JsString, sep: CodeUnit)
    requires sep !in a
    ensures SplitOn(a + t, sep) == [a + SplitOn(t, sep)[0]] + SplitOn(t, sep)[1..]
    decreases |a|
  {
    var tail := SplitOn(t, sep);
    if a == [] {
      assert a + t == t;
      assert a + tail[0] == tail[0];
      assert [tail[0]] + tail[1..] == tail;
    } else {
      assert (a + t)[1..] == a[1..] + t;
      SplitOnPrefix(a[1..], t, sep);
      assert [a[0]] + (a[1..] + tail[0]) == a + tail[0];
    }
  }

  /** Splitting undoes joining when no part holds the separator. */
  lemma {:induction false} SplitOnJoinWith(parts: seq<JsString>, sep: CodeUnit)
    requires |parts| >= 1
    requires forall i :: 0 <= i < |parts| ==> sep !in parts[i]
    ensures SplitOn(JoinWith(parts, [sep]), sep) == parts
  {
    if |parts| == 1 {
      SplitOnPrefix(parts[0], [], sep);
      assert parts[0] + [] == parts[0];
    } else {
      var rest := JoinWith(parts[1..], [sep]);
      SplitOnJoinWith(parts[1..], sep);
      assert ([sep] + rest)[1..] == rest;
      assert SplitOn([sep] + rest, sep) == [[]] + parts[1..];
      assert JoinWith(parts, [sep]) == parts[0] + ([sep] + rest);
      SplitOnPrefix(parts[0], [sep] + rest, sep);
      assert parts[0] + [] == parts[0];
      assert parts == [parts[0]] + parts[1..];
    }
  }

  /** `a` is obtained from `b` by deleting elements. */
  ghost predicate IsSubsequence(a: JsString, b: JsString)
    decreases |b|
  {
    a == [] || (b != [] && ((a[0] == b[0] && IsSubsequence(a[1..], b[1..])) || IsSubsequence(a, b[1..])))
  }

  lemma {:induction false} SubsequenceRefl(a: JsString)
    ensures IsSubsequence(a, a)
    decreases |a|
  {
    if a != [] {
      SubsequenceRefl(a[1..]);
    }
  }

  lemma {:induction false} SubsequenceUnderPrefix(c: JsString, b: JsString, d: JsString)
    requires IsSubsequence(c, d)
    ensures IsSubsequence(c, b + d)
    decreases |b|
  {
    if b != [] {
      assert (b + d)[1..] == b[1..] + d;
      SubsequenceUnderPrefix(c, b[1..], d);
      assert IsSubsequence(c, (b + d)[1..]);
    } else {
      assert b + d == d;
    }
  }

  /** Deleting from both halves of a concatenation deletes from the whole. */
  lemma {:induction false} SubsequenceConcat(a: JsString, b: JsString, c: JsString, d: JsString)
    requires IsSubsequence(a, b) && IsSubsequence(c, d)
    ensures IsSubsequence(a + c, b + d)
    decreases |b|
  {
    if a == [] {
      assert a + c == c;
      SubsequenceUnderPrefix(c, b, d);
    } else {
      assert b != [];
      assert (b + d)[1..] == b[1..] + d;
      if a[0] == b[0] && IsSubsequence(a[1..], b[1..]) {
        assert (a + c)[1..] == a[1..] + c;
        SubsequenceConcat(a[1..], b[1..], c, d);
      } else {
        SubsequenceConcat(a, b[1..], c, d);
      }
    }
  }

  lemma {:induction false} SubsequenceTrans(a: JsString, b: JsString, c: JsString)
    requires IsSubsequence(a, b) && IsSubsequence(b, c)
    ensures IsSubsequence(a, c)
    decreases |c|
  {
    if a != [] {
      assert b != [] && c != [];
      if b[0] == c[0] && IsSubsequence(b[1..], c[1..]) {
        if a[0] == b[0] && IsSubsequence(a[1..], b[1..]) {
          SubsequenceTrans(a[1..], b[1..], c[1..]);
        } else {
          SubsequenceTrans(a, b[1..], c[1..]);
        }
      } else {
        SubsequenceTrans(a, b, c[1..]);
      }
    }
  }

  /** A subsequence is never longer than the sequence it is taken from. */
  lemma {:induction false} SubsequenceLength(a: JsString, b: JsString)
    requires IsSubsequence(a, b)
    ensures |a| <= |b|
    decreases |b|
  {
    if a != [] {
      if a[0] == b[0] && IsSubsequence(a[1..], b[1..]) {
        SubsequenceLength(a[1..], b[1..]);
      } else {
        SubsequenceLength(a, b[1..]);
      }
    }
  }
}
