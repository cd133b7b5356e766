/** `getPlainTextLength` of packages/cli/src/ui/utils/textUtils.ts: the
    display width of a cell once inline Markdown markup is removed.

    The source runs seven global, lazy regular-expression replacements in a
    fixed order and measures what is left with `string-width`. Each
    replacement is modelled as the left-to-right scan the regular-expression
    engine performs: at an opener, look for the nearest closer that can be
    reached without crossing a line terminator (`.` does not match one);
    when there is one, keep only the text between them and resume after the
    closer, otherwise keep the unit and move on by one. */
module PlainText {
  import opened JsStrings

  const STAR: CodeUnit := 0x2A
  const UNDERSCORE: CodeUnit := 0x5F
  const TILDE: CodeUnit := 0x7E
  const BACKTICK: CodeUnit := 0x60
  const LBRACKET: CodeUnit := 0x5B
  const RBRACKET: CodeUnit := 0x5D
  const LPAREN: CodeUnit := 0x28
  const RPAREN: CodeUnit := 0x29
  const LT: CodeUnit := 0x3C
  const GT: CodeUnit := 0x3E
  const SLASH: CodeUnit := 0x2F
  const LETTER_U: CodeUnit := 0x75

  /** `<u>` and `</u>`. */
  const UNDERLINE_OPEN: JsString := [LT, LETTER_U, GT]
  const UNDERLINE_CLOSE: JsString := [LT, SLASH, LETTER_U, GT]
  /** `](`, between a link's label and its URL. */
  const LINK_MIDDLE: JsString := [RBRACKET, LPAREN]

  /** The lazy tail `(.*?)close` of a pattern, tried from index `from`: the
      nearest `close` reachable without crossing a line terminator, or none
      when a line terminator or the end of the text comes first. */
  function FindCloser(s: JsString, from: nat, close: JsString): (r: Option<nat>)
    requires from <= |s| && close != []
    ensures r.Some? ==> from <= r.value && r.value + |close| <= |s|
    decreases |s| - from
  {
    if StartsWithAt(s, from, close) then Some(from)
    else if from == |s| || IsLineTerminator(s[from]) then None
    else FindCloser(s, from + 1, close)
  }

  /** What `FindCloser` finds is a closer with no line terminator before it
      and no earlier closer; when it finds none, every closer lies past a
      line terminator. */
  lemma {:induction false} FindCloserFinds(s: JsString, from: nat, close: JsString)
    requires from <= |s| && close != []
    ensures var r := FindCloser(s, from, close);
      && (r.Some? ==> StartsWithAt(s, r.value, close) && NoLineTerminator(s[from..r.value]))
      && (r.Some? ==> forall j :: from <= j < r.value ==> !StartsWithAt(s, j, close))
      && (r.None? ==> forall j :: from <= j <= |s| && StartsWithAt(s, j, close) ==> !NoLineTerminator(s[from..j]))
    decreases |s| - from
  {
    if !StartsWithAt(s, from, close) && from < |s| && !IsLineTerminator(s[from]) {
      FindCloserFinds(s, from + 1, close);
      assert forall j :: from + 1 <= j <= |s| ==> s[from..j] == [s[from]] + s[from + 1..j];
    }
  }

  /** One step of a replacement's scan at index `i < |s|`: the units
      `s[keep..upTo]` go to the output and the scan resumes at `next`. */
  datatype Step = Step(keep: nat, upTo: nat, next: nat)

  /** A step only moves forward and keeps part of what it passes over. */
  predicate Advances(s: JsString, i: nat, step: Step) {
    i <= step.keep <= step.upTo <= step.next <= |s| && i < step.next
  }

  /** The pair pattern at `i`: a matched pair keeps what lies between the
      delimiters; anything else keeps the unit at `i`. */
  function PairStep(s: JsString, open: JsString, close: JsString, i: nat): (step: Step)
    requires open != [] && close != [] && i < |s|
    ensures Advances(s, i, step)
  {
    if StartsWithAt(s, i, open) && FindCloser(s, i + |open|, close).Some? then
      var j := FindCloser(s, i + |open|, close).value;
      Step(i + |open|, j, j + |close|)
    else Step(i, i + 1, i + 1)
  }

  /** `text.replace(/open(.*?)close/g, '$1')`, scanning from index `i`. */
  function StripPairFrom(s: JsString, open: JsString, close: JsString, i: nat): JsString
    requires open != [] && close != [] && i <= |s|
    decreases |s| - i
  {
    if i == |s| then []
    else
      var step := PairStep(s, open, close, i);
      s[step.keep..step.upTo] + StripPairFrom(s, open, close, step.next)
  }

  function StripPair(s: JsString, open: JsString, close: JsString): JsString
    requires open != [] && close != []
  {
    StripPairFrom(s, open, close, 0)
  }

  /** A `](` at `j` followed by a `)` at `k`, with no line terminator
      between `from` and `k`: what `\]\(.*?\)` can match after a label
      that starts at `from`. */
  predicate LinkTailAt(s: JsString, from: nat, j: nat, k: nat) {
    && from <= j && j + 2 <= k < |s|
    && StartsWithAt(s, j, LINK_MIDDLE) && s[k] == RPAREN
    && NoLineTerminator(s[from..k])
  }

  /** The tail the lazy quantifiers settle on: the nearest `](`, then the
      nearest `)` after it. */
  predicate NearestLinkTail(s: JsString, from: nat, j: nat, k: nat) {
    && LinkTailAt(s, from, j, k)
    && (forall j' :: from <= j' < j ==> !StartsWithAt(s, j', LINK_MIDDLE))
    && (forall k' :: j + 2 <= k' < k ==> s[k'] != RPAREN)
  }

  /** The tail `\]\(.*?\)` of the link pattern after its lazy label, tried
      from index `from`: the nearest `](`, then the nearest `)` after it. */
  function FindLinkTail(s: JsString, from: nat): (r: Option<(nat, nat)>)
    requires from <= |s|
    ensures r.Some? ==> from <= r.value.0 && r.value.0 + 2 <= r.value.1 < |s|
  {
    match FindCloser(s, from, LINK_MIDDLE)
    case None => None
    case Some(j) =>
      match FindCloser(s, j + 2, [RPAREN])
      case None => None
      case Some(k) => Some((j, k))
  }

  /** The tail found is the one the lazy quantifiers settle on. When the
      nearest `](` has no `)` after it on that line no later one has, so
      the regular expression's backtracking over longer labels finds
      nothing either: `None` means no label-and-URL tail exists at all. */
  lemma FindLinkTailFinds(s: JsString, from: nat)
    requires from <= |s|
    ensures var r := FindLinkTail(s, from);
      && (r.Some? ==> NearestLinkTail(s, from, r.value.0, r.value.1))
      && (r.None? ==> forall j, k :: !LinkTailAt(s, from, j, k))
  {
    match FindCloser(s, from, LINK_MIDDLE)
    case None =>
      NoLinkMiddle(s, from);
    case Some(j) =>
      match FindCloser(s, j + 2, [RPAREN])
      case None =>
        NoLinkParen(s, from, j);
      case Some(k) =>
        LinkTailFound(s, from, j, k);
  }

  lemma NoLinkMiddle(s: JsString, from: nat)
    requires from <= |s| && FindCloser(s, from, LINK_MIDDLE).None?
    ensures forall j, k :: !LinkTailAt(s, from, j, k)
  {
    FindCloserFinds(s, from, LINK_MIDDLE);
    forall j, k | from <= j && j + 2 <= k < |s| && StartsWithAt(s, j, LINK_MIDDLE)
      ensures !NoLineTerminator(s[from..k])
    {
      assert !NoLineTerminator(s[from..j]);
      var t :| 0 <= t < j - from && IsLineTerminator(s[from..j][t]);
      assert s[from..k][t] == s[from + t];
    }
  }

  lemma NoLinkParen(s: JsString, from: nat, j: nat)
    requires from <= |s| && FindCloser(s, from, LINK_MIDDLE) == Some(j)
    requires FindCloser(s, j + 2, [RPAREN]).None?
    ensures forall j', k :: !LinkTailAt(s, from, j', k)
  {
    FindCloserFinds(s, from, LINK_MIDDLE);
    FindCloserFinds(s, j + 2, [RPAREN]);
    forall j', k | from <= j' && j' + 2 <= k < |s| && StartsWithAt(s, j', LINK_MIDDLE) && s[k] == RPAREN
      ensures !NoLineTerminator(s[from..k])
    {
      assert j <= j';
      assert StartsWithAt(s, k, [RPAREN]) by { assert s[k + 0] == [RPAREN][0]; }
      assert !NoLineTerminator(s[j + 2..k]);
      var t :| 0 <= t < k - (j + 2) && IsLineTerminator(s[j + 2..k][t]);
      assert s[from..k][j + 2 - from + t] == s[j + 2 + t];
    }
  }

  lemma LinkTailFound(s: JsString, from: nat, j: nat, k: nat)
    requires from <= |s| && FindCloser(s, from, LINK_MIDDLE) == Some(j)
    requires FindCloser(s, j + 2, [RPAREN]) == Some(k)
    ensures NearestLinkTail(s, from, j, k)
  {
    FindCloserFinds(s, from, LINK_MIDDLE);
    FindCloserFinds(s, j + 2, [RPAREN]);
    assert s[k + 0] == [RPAREN][0];
    assert s[j + 0] == LINK_MIDDLE[0] && s[j + 1] == LINK_MIDDLE[1];
    NoLineTerminatorAcross(s, from, j, j + 2, k);
    forall k' | j + 2 <= k' < k ensures s[k'] != RPAREN {
      assert !StartsWithAt(s, k', [RPAREN]);
    }
  }

  /** Two stretches without a line terminator, with two other units between
      them, make one. */
  lemma NoLineTerminatorAcross(s: JsString, a: nat, b: nat, c: nat, d: nat)
    requires a <= b <= c <= d <= |s|
    requires NoLineTerminator(s[a..b]) && NoLineTerminator(s[c..d])
    requires forall t :: b <= t < c ==> !IsLineTerminator(s[t])
    ensures NoLineTerminator(s[a..d])
  {
    forall t | a <= t < d ensures !IsLineTerminator(s[t]) {
      if t < b {
        assert s[t] == s[a..b][t - a];
      } else if t >= c {
        assert s[t] == s[c..d][t - c];
      }
    }
    assert forall t :: 0 <= t < d - a ==> s[a..d][t] == s[a + t];
  }

  /** The link pattern at `i`: a link keeps its label; anything else keeps
      the unit at `i`. */
  function LinkStep(s: JsString, i: nat): (step: Step)
    requires i < |s|
    ensures Advances(s, i, step)
  {
    if s[i] == LBRACKET && FindLinkTail(s, i + 1).Some? then
      var tail := FindLinkTail(s, i + 1).value;
      Step(i + 1, tail.0, tail.1 + 1)
    else Step(i, i + 1, i + 1)
  }

  /** `text.replace(/\[(.*?)\]\(.*?\)/g, '$1')`, scanning from index `i`. */
  function StripLinksFrom(s: JsString, i: nat): JsString
    requires i <= |s|
    decreases |s| - i
  {
    if i == |s| then []
    else
      var step := LinkStep(s, i);
      s[step.keep..step.upTo] + StripLinksFrom(s, step.next)
  }

  function StripLinks(s: JsString): JsString {
    StripLinksFrom(s, 0)
  }

  /** One of the seven replacements: a delimited pair, or a link. */
  datatype Rule = Pair(open: JsString, close: JsString) | Link

  predicate WellFormed(r: Rule) {
    r.Pair? ==> r.open != [] && r.close != []
  }

  predicate AllWellFormed(rules: seq<Rule>) {
    forall i :: 0 <= i < |rules| ==> WellFormed(rules[i])
  }

  /** The replacements in the order `getPlainTextLength` chains them:
      bold, italic, underscore italic, strikethrough, inline code,
      underline, link. */
  const RULES: seq<Rule> := [
    Pair([STAR, STAR], [STAR, STAR]),
    Pair([STAR], [STAR]),
    Pair([UNDERSCORE], [UNDERSCORE]),
    Pair([TILDE, TILDE], [TILDE, TILDE]),
    Pair([BACKTICK], [BACKTICK]),
    Pair(UNDERLINE_OPEN, UNDERLINE_CLOSE),
    Link
  ]

  function Apply(r: Rule, s: JsString): JsString
    requires WellFormed(r)
  {
    match r
    case Pair(open, close) => StripPair(s, open, close)
    case Link => StripLinks(s)
  }

  /** `s.replace(...).replace(...)...` with `rules` in order. */
  function ApplyAll(rules: seq<Rule>, s: JsString): JsString
    requires AllWellFormed(rules)
  {
    if rules == [] then s else ApplyAll(rules[1..], Apply(rules[0], s))
  }

  /** The text `getPlainTextLength` hands to `string-width`. */
  function CleanText(text: JsString): JsString {
    ApplyAll(RULES, text)
  }

  /** `getPlainTextLength(text)`, with `string-width` as `measure`. */
  function GetPlainTextLength(measure: WidthFn, text: JsString): nat {
    measure(CleanText(text))
  }

  /** Keeping `mid` and `rest` while dropping `pre` and `post` around them
      only deletes. */
  lemma DropAround(pre: JsString, mid: JsString, post: JsString, rest: JsString, tail: JsString)
    requires IsSubsequence(rest, tail)
    ensures IsSubsequence(mid + rest, pre + mid + post + tail)
  {
    SubsequenceUnderPrefix(rest, post, tail);
    SubsequenceRefl(mid);
    SubsequenceConcat(mid, mid, rest, post + tail);
    SubsequenceUnderPrefix(mid + rest, pre, mid + (post + tail));
    assert pre + (mid + (post + tail)) == pre + mid + post + tail;
  }

  /** One replacement only deletes units. */
  lemma {:induction false} StripPairDeletesOnly(s: JsString, open: JsString, close: JsString, i: nat)
    requires open != [] && close != [] && i <= |s|
    ensures IsSubsequence(StripPairFrom(s, open, close, i), s[i..])
    decreases |s| - i
  {
    if i < |s| {
      var step := PairStep(s, open, close, i);
      StripPairDeletesOnly(s, open, close, step.next);
      KeepBetween(s, i, step.keep, step.upTo, step.next, StripPairFrom(s, open, close, step.next));
    }
  }

  /** Keeping `s[b..c]` and a subsequence of `s[d..]` while dropping `s[a..b]`
      and `s[c..d]` only deletes. */
  lemma KeepBetween(s: JsString, a: nat, b: nat, c: nat, d: nat, rest: JsString)
    requires a <= b <= c <= d <= |s|
    requires IsSubsequence(rest, s[d..])
    ensures IsSubsequence(s[b..c] + rest, s[a..])
  {
    DropAround(s[a..b], s[b..c], s[c..d], rest, s[d..]);
    assert s[a..b] + s[b..c] + s[c..d] + s[d..] == s[a..];
  }

  /** Removing links only deletes units. */
  lemma {:induction false} StripLinksDeletesOnly(s: JsString, i: nat)
    requires i <= |s|
    ensures IsSubsequence(StripLinksFrom(s, i), s[i..])
    decreases |s| - i
  {
    if i < |s| {
      var step := LinkStep(s, i);
      StripLinksDeletesOnly(s, step.next);
      KeepBetween(s, i, step.keep, step.upTo, step.next, StripLinksFrom(s, step.next));
    }
  }

  lemma {:induction false} ApplyAllDeletesOnly(rules: seq<Rule>, s: JsString)
    requires AllWellFormed(rules)
    ensures IsSubsequence(ApplyAll(rules, s), s)
  {
    if rules == [] {
      SubsequenceRefl(s);
    } else {
      var next := Apply(rules[0], s);
      assert s[0..] == s;
      if rules[0].Pair? {
        StripPairDeletesOnly(s, rules[0].open, rules[0].close, 0);
      } else {
        StripLinksDeletesOnly(s, 0);
      }
      ApplyAllDeletesOnly(rules[1..], next);
      SubsequenceTrans(ApplyAll(rules, s), next, s);
    }
  }

  /** Markup stripping only deletes: the cleaned text is a subsequence of
      the cell text, and so never longer. */
  lemma CleanTextDeletesOnly(text: JsString)
    ensures IsSubsequence(CleanText(text), text)
    ensures |CleanText(text)| <= |text|
  {
    ApplyAllDeletesOnly(RULES, text);
    SubsequenceLength(CleanText(text), text);
  }

  /** A replacement whose opener never occurs leaves the text alone. */
  lemma {:induction false} StripPairUnchanged(s: JsString, open: JsString, close: JsString, i: nat)
    requires open != [] && close != [] && i <= |s|
    requires forall j :: i <= j < |s| ==> !StartsWithAt(s, j, open)
    ensures StripPairFrom(s, open, close, i) == s[i..]
    decreases |s| - i
  {
    if i < |s| {
      StripPairUnchanged(s, open, close, i + 1);
      assert s[i..i + 1] + s[i + 1..] == s[i..];
    }
  }

  lemma {:induction false} StripLinksUnchanged(s: JsString, i: nat)
    requires i <= |s| && LBRACKET !in s[i..]
    ensures StripLinksFrom(s, i) == s[i..]
    decreases |s| - i
  {
    if i < |s| {
      assert s[i] == s[i..][0];
      assert s[i + 1..] == s[i..][1..];
      StripLinksUnchanged(s, i + 1);
      assert s[i..i + 1] + s[i + 1..] == s[i..];
    }
  }

  /** `p` occurs nowhere in `s`. */
  predicate Absent(s: JsString, p: JsString) {
    forall j :: 0 <= j < |s| ==> !StartsWithAt(s, j, p)
  }

  /** What a rule needs to see before it can change anything. */
  function Opener(r: Rule): JsString {
    match r
    case Pair(open, _) => open
    case Link => [LBRACKET]
  }

  lemma AbsentFirst(s: JsString, p: JsString)
    requires p != [] && p[0] !in s
    ensures Absent(s, p)
  {
    forall j | 0 <= j < |s| ensures !StartsWithAt(s, j, p) {
      if j + |p| <= |s| {
        assert s[j + 0] != p[0];
      }
    }
  }

  /** Rules whose openers do not occur leave the text alone. */
  lemma {:induction false} ApplyAllUnchanged(rules: seq<Rule>, s: JsString)
    requires AllWellFormed(rules)
    requires forall i :: 0 <= i < |rules| ==> Absent(s, Opener(rules[i]))
    ensures ApplyAll(rules, s) == s
  {
    if rules != [] {
      assert s[0..] == s;
      if rules[0].Pair? {
        StripPairUnchanged(s, rules[0].open, rules[0].close, 0);
      } else {
        forall j | 0 <= j < |s| ensures s[j] != LBRACKET {
          assert !StartsWithAt(s, j, [LBRACKET]);
          assert s[j + 0] == s[j];
        }
        StripLinksUnchanged(s, 0);
      }
      ApplyAllUnchanged(rules[1..], s);
    }
  }

  /** Text with none of the markup characters `*`, `_`, `~`, `` ` ``, `[`
      and no `<u>` is measured as it stands. */
  lemma CleanTextOfPlainText(text: JsString)
    requires STAR !in text && UNDERSCORE !in text && TILDE !in text
    requires BACKTICK !in text && LBRACKET !in text
    requires Absent(text, UNDERLINE_OPEN)
    ensures CleanText(text) == text
  {
    AbsentFirst(text, [STAR, STAR]);
    AbsentFirst(text, [STAR]);
    AbsentFirst(text, [UNDERSCORE]);
    AbsentFirst(text, [TILDE, TILDE]);
    AbsentFirst(text, [BACKTICK]);
    AbsentFirst(text, [LBRACKET]);
    ApplyAllUnchanged(RULES, text);
  }

  /** The lazy tail `(.*?)close` stops exactly at the nearest closer on the
      line: the converse of the postcondition of `FindCloser`. */
  lemma FindCloserIsNearest(s: JsString, from: nat, close: JsString, j: nat)
    requires from <= j && close != [] && StartsWithAt(s, j, close) && NoLineTerminator(s[from..j])
    requires forall j' :: from <= j' < j ==> !StartsWithAt(s, j', close)
    ensures FindCloser(s, from, close) == Some(j)
  {
    FindCloserFinds(s, from, close);
  }

  lemma {:induction false} ApplyAllAppend(first: seq<Rule>, later: seq<Rule>, s: JsString)
    requires AllWellFormed(first) && AllWellFormed(later)
    ensures AllWellFormed(first + later)
    ensures ApplyAll(first + later, s) == ApplyAll(later, ApplyAll(first, s))
  {
    if first != [] {
      assert (first + later)[1..] == first[1..] + later;
      ApplyAllAppend(first[1..], later, Apply(first[0], s));
    } else {
      assert first + later == later;
    }
  }

  /** The two star rules run first; the other five see their output. */
  lemma CleanTextAfterStars(s: JsString)
    ensures CleanText(s) == ApplyAll(RULES[2..], StripPair(StripPair(s, [STAR, STAR], [STAR, STAR]), [STAR], [STAR]))
  {
    assert RULES == RULES[..2] + RULES[2..];
    ApplyAllAppend(RULES[..2], RULES[2..], s);
    var t := Apply(RULES[0], s);
    assert RULES[..2][1..] == [RULES[1]];
    assert ApplyAll(RULES[..2], s) == ApplyAll([RULES[1]], t);
    assert ApplyAll([RULES[1]], t) == Apply(RULES[1], t);
  }

  /** Text without any opener of the last five rules passes them unchanged. */
  lemma PlainAfterStars(s: JsString)
    requires UNDERSCORE !in s && TILDE !in s && BACKTICK !in s && LBRACKET !in s && LT !in s
    ensures ApplyAll(RULES[2..], s) == s
  {
    AbsentFirst(s, [UNDERSCORE]);
    AbsentFirst(s, [TILDE, TILDE]);
    AbsentFirst(s, [BACKTICK]);
    AbsentFirst(s, UNDERLINE_OPEN);
    AbsentFirst(s, [LBRACKET]);
    ApplyAllUnchanged(RULES[2..], s);
  }

  /** The bold rule on `**Foo**`. */
  lemma BoldStage()
    ensures StripPair([STAR, STAR, 0x46, 0x6F, 0x6F, STAR, STAR], [STAR, STAR], [STAR, STAR]) == [0x46, 0x6F, 0x6F]
  {
    var s: JsString := [STAR, STAR, 0x46, 0x6F, 0x6F, STAR, STAR];
    forall j | 2 <= j < 5 ensures !StartsWithAt(s, j, [STAR, STAR]) {
      assert s[j + 0] != [STAR, STAR][0];
    }
    assert s[2..5] == [0x46, 0x6F, 0x6F];
    FindCloserIsNearest(s, 2, [STAR, STAR], 5);
    assert StartsWithAt(s, 0, [STAR, STAR]);
    assert StripPairFrom(s, [STAR, STAR], [STAR, STAR], 7) == [];
  }

  /** Bold markup is removed and its content kept: `**Foo**` measures as
      `Foo`. */
  lemma BoldIsStripped()
    ensures CleanText([STAR, STAR, 0x46, 0x6F, 0x6F, STAR, STAR]) == [0x46, 0x6F, 0x6F]
  {
    var foo: JsString := [0x46, 0x6F, 0x6F];
    BoldStage();
    AbsentFirst(foo, [STAR]);
    StripPairUnchanged(foo, [STAR], [STAR], 0);
    assert foo[0..] == foo;
    CleanTextAfterStars([STAR, STAR, 0x46, 0x6F, 0x6F, STAR, STAR]);
    PlainAfterStars(foo);
  }

  /** The link rule on `[Link](url)`. */
  lemma LinkStage()
    ensures StripLinks([LBRACKET, 0x4C, 0x69, 0x6E, 0x6B, RBRACKET, LPAREN, 0x75, 0x72, 0x6C, RPAREN]) == [0x4C, 0x69, 0x6E, 0x6B]
  {
    var s: JsString := [LBRACKET, 0x4C, 0x69, 0x6E, 0x6B, RBRACKET, LPAREN, 0x75, 0x72, 0x6C, RPAREN];
    forall j | 1 <= j < 5 ensures !StartsWithAt(s, j, LINK_MIDDLE) {
      assert s[j + 0] != LINK_MIDDLE[0];
    }
    assert StartsWithAt(s, 5, LINK_MIDDLE);
    assert NoLineTerminator(s[1..5]);
    FindCloserIsNearest(s, 1, LINK_MIDDLE, 5);
    forall j | 7 <= j < 10 ensures !StartsWithAt(s, j, [RPAREN]) {
      assert s[j + 0] != [RPAREN][0];
    }
    assert StartsWithAt(s, 10, [RPAREN]);
    assert NoLineTerminator(s[7..10]);
    FindCloserIsNearest(s, 7, [RPAREN], 10);
    assert FindLinkTail(s, 1) == Some((5, 10));
    assert LinkStep(s, 0) == Step(1, 5, 11);
    assert StripLinksFrom(s, 11) == [];
    assert StripLinksFrom(s, 0) == s[1..5] + StripLinksFrom(s, 11);
    assert s[1..5] == [0x4C, 0x69, 0x6E, 0x6B] by {
      forall t | 0 <= t < 4 ensures s[1..5][t] == [0x4C, 0x69, 0x6E, 0x6B][t] {
        assert s[1..5][t] == s[t + 1];
      }
    }
  }

  /** Text without `*`, `_`, `~`, `` ` `` and `<` passes the six pair
      rules unchanged. */
  lemma NoPairOpeners(s: JsString)
    requires STAR !in s && UNDERSCORE !in s && TILDE !in s && BACKTICK !in s && LT !in s
    ensures ApplyAll(RULES[..6], s) == s
  {
    AbsentFirst(s, [STAR, STAR]);
    AbsentFirst(s, [STAR]);
    AbsentFirst(s, [UNDERSCORE]);
    AbsentFirst(s, [TILDE, TILDE]);
    AbsentFirst(s, [BACKTICK]);
    AbsentFirst(s, UNDERLINE_OPEN);
    ApplyAllUnchanged(RULES[..6], s);
  }

  /** A link keeps its label and loses its URL: `[Link](url)` measures as
      `Link`. */
  lemma LinkKeepsLabel()
    ensures CleanText([LBRACKET, 0x4C, 0x69, 0x6E, 0x6B, RBRACKET, LPAREN, 0x75, 0x72, 0x6C, RPAREN]) == [0x4C, 0x69, 0x6E, 0x6B]
  {
    var s: JsString := [LBRACKET, 0x4C, 0x69, 0x6E, 0x6B, RBRACKET, LPAREN, 0x75, 0x72, 0x6C, RPAREN];
    NoPairOpeners(s);
    assert RULES == RULES[..6] + [Link];
    ApplyAllAppend(RULES[..6], [Link], s);
    assert ApplyAll([Link], s) == StripLinks(s);
    LinkStage();
  }

  /** The italic rule on `*a` LF `b*`: the line break stops the lazy match. */
  lemma SplitPairStage()
    ensures StripPair([STAR, 0x61, LF, 0x62, STAR], [STAR], [STAR]) == [STAR, 0x61, LF, 0x62, STAR]
  {
    var s: JsString := [STAR, 0x61, LF, 0x62, STAR];
    forall j | 1 <= j < 4 ensures !StartsWithAt(s, j, [STAR]) {
      assert s[j + 0] != [STAR][0];
    }
    assert FindCloser(s, 5, [STAR]) == None;
    assert StripPairFrom(s, [STAR], [STAR], 4) == [STAR];
    assert StripPairFrom(s, [STAR], [STAR], 3) == [0x62, STAR];
    assert StripPairFrom(s, [STAR], [STAR], 2) == [LF, 0x62, STAR];
    assert StripPairFrom(s, [STAR], [STAR], 1) == [0x61, LF, 0x62, STAR];
    assert FindCloser(s, 2, [STAR]) == None;
    assert FindCloser(s, 1, [STAR]) == None;
  }

  /** The bold rule finds no `**` in `*a` LF `b*`. */
  lemma SplitPairNoBold()
    ensures StripPair([STAR, 0x61, LF, 0x62, STAR], [STAR, STAR], [STAR, STAR]) == [STAR, 0x61, LF, 0x62, STAR]
  {
    var s: JsString := [STAR, 0x61, LF, 0x62, STAR];
    forall j | 0 <= j < |s| ensures !StartsWithAt(s, j, [STAR, STAR]) {
      if j == 0 {
        assert s[0 + 1] != [STAR, STAR][1];
      } else if j < 4 {
        assert s[j + 0] != [STAR, STAR][0];
      }
    }
    StripPairUnchanged(s, [STAR, STAR], [STAR, STAR], 0);
    assert s[0..] == s;
  }

  /** A pair of delimiters with a line break between them is no match:
      `*a` LF `b*` is measured as it stands. */
  lemma SplitPairIsKept()
    ensures CleanText([STAR, 0x61, LF, 0x62, STAR]) == [STAR, 0x61, LF, 0x62, STAR]
  {
    var s: JsString := [STAR, 0x61, LF, 0x62, STAR];
    SplitPairNoBold();
    SplitPairStage();
    assert StripPair(StripPair(s, [STAR, STAR], [STAR, STAR]), [STAR], [STAR]) == s;
    PlainAfterStars(s);
    CleanTextAfterStars(s);
  }
}
