/**
 * `_apply_inline_formatting`: the text of a plain paragraph is cut into
 * runs by the pattern
 *   (\*\*\*(.+?)\*\*\*|\*\*(.+?)\*\*|\*(.+?)\*|`(.+?)`|\[(.+?)\]\((.+?)\))
 * with Python's semantics: the scan goes left to right, at each position
 * the five alternatives are tried in order, every `.+?` takes the
 * shortest non-empty content (no newline) followed by what closes it, the
 * link label grows when no ")" closes the target, and the scan resumes
 * where the match ended.  Each match is then dispatched on the prefix and
 * suffix of the whole matched text.
 */
module Inline {
  import opened Text
  import opened Wrappers

  /** The regular-expression `.`: any character but a newline. */
  predicate Dot(c: char) {
    c != '\n'
  }

  predicate DotsIn(s: string, a: nat, b: nat) {
    forall i :: a <= i < b ==> i < |s| && Dot(s[i])
  }

  lemma DotsInExtend(s: string, a: nat, b: nat)
    requires DotsIn(s, a, b) && b < |s| && Dot(s[b])
    ensures DotsIn(s, a, b + 1)
  {
  }

  /** A character that is not a `.` breaks every run over it. */
  lemma NotDotsIn(s: string, a: nat, b: nat, w: nat)
    requires a <= w < b && !(w < |s| && Dot(s[w]))
    ensures !DotsIn(s, a, b)
  {
  }

  /** The alternatives of the pattern, in the order they are tried. */
  datatype Alt = Triple | Double | Single | Code | Link

  /** A match: where it starts and ends, which alternative matched, the
      content group and, for a link, the target group. */
  datatype Match = Match(start: nat, end: nat, alt: Alt, content: string, target: string)

  /** `k` characters from `from` are a possible lazy content: no newline
      among them, and `close` right after. */
  predicate ContentOk(s: string, from: nat, k: nat, close: string) {
    1 <= k && from + k <= |s| && DotsIn(s, from, from + k) && OccursAt(s, close, from + k)
  }

  /** The lazy `(.+?)` followed by `close`, trying lengths from `k` on. */
  function LazyEnd(s: string, from: nat, close: string, k: nat): (r: Option<nat>)
    requires 1 <= k
    decreases |s| + 1 - (from + k)
    ensures r.Some? ==> k <= r.value && from + r.value + |close| <= |s|
  {
    if from + k > |s| then None
    else if !Dot(s[from + k - 1]) then None
    else if OccursAt(s, close, from + k) then Some(k)
    else LazyEnd(s, from, close, k + 1)
  }

  /** The lazy content is the shortest one `close` closes, and there is
      none when no content is closed. */
  lemma {:induction false} LazyEndLeast(s: string, from: nat, close: string, k: nat)
    requires 1 <= k && DotsIn(s, from, from + k - 1)
    decreases |s| + 1 - (from + k)
    ensures LazyEnd(s, from, close, k).Some? ==> ContentOk(s, from, LazyEnd(s, from, close, k).value, close)
    ensures LazyEnd(s, from, close, k).Some? ==>
              forall j :: k <= j < LazyEnd(s, from, close, k).value ==> !ContentOk(s, from, j, close)
    ensures LazyEnd(s, from, close, k).None? ==> forall j :: k <= j ==> !ContentOk(s, from, j, close)
  {
    if from + k > |s| {
    } else if !Dot(s[from + k - 1]) {
      forall j | k <= j ensures !ContentOk(s, from, j, close) {
        NotDotsIn(s, from, from + j, from + k - 1);
      }
    } else if OccursAt(s, close, from + k) {
      DotsInExtend(s, from, from + k - 1);
      assert LazyEnd(s, from, close, k) == Some(k);
    } else {
      DotsInExtend(s, from, from + k - 1);
      LazyEndLeast(s, from, close, k + 1);
      LazyEndSkip(s, from, close, k);
      var r := LazyEnd(s, from, close, k);
      if r.Some? {
        forall j | k <= j < r.value ensures !ContentOk(s, from, j, close) {
          if j > k {}
        }
      } else {
        forall j | k <= j ensures !ContentOk(s, from, j, close) {
          if j > k {}
        }
      }
    }
  }

  /** A length `close` does not follow is skipped: the search goes on from
      the next length, and no content starts below it. */
  lemma LazyEndSkip(s: string, from: nat, close: string, k: nat)
    requires 1 <= k && from + k <= |s| && Dot(s[from + k - 1]) && !OccursAt(s, close, from + k)
    ensures LazyEnd(s, from, close, k) == LazyEnd(s, from, close, k + 1)
    ensures !ContentOk(s, from, k, close)
  {
  }

  /** The text a match covers, rebuilt from its groups. */
  function MatchText(m: Match): string {
    match m.alt
    case Triple => "***" + m.content + "***"
    case Double => "**" + m.content + "**"
    case Single => "*" + m.content + "*"
    case Code => "`" + m.content + "`"
    case Link => "[" + m.content + "](" + m.target + ")"
  }

  function Delimiter(alt: Alt): string
    requires alt != Link
  {
    match alt
    case Triple => "***"
    case Double => "**"
    case Single => "*"
    case Code => "`"
  }

  /** No content shorter than `n` characters is closed by `close`. */
  ghost predicate NoShorterContent(s: string, from: nat, close: string, n: nat) {
    forall j :: 1 <= j < n ==> !ContentOk(s, from, j, close)
  }

  /** No content at all is closed by `close`. */
  ghost predicate NoContent(s: string, from: nat, close: string) {
    forall j :: !ContentOk(s, from, j, close)
  }

  /** One of the four delimited alternatives at index `i`: the opening
      delimiter, the shortest content, the closing delimiter. */
  function DelimitedAt(s: string, i: nat, alt: Alt): (r: Option<Match>)
    requires alt != Link
    ensures r.Some? ==> r.value.start == i && r.value.alt == alt && i < r.value.end <= |s|
  {
    DelimitedBy(s, i, alt, Delimiter(alt))
  }

  /** The same with the delimiter `d` given. */
  function DelimitedBy(s: string, i: nat, alt: Alt, d: string): (r: Option<Match>)
    ensures r.Some? ==> r.value.start == i && r.value.alt == alt && i < r.value.end <= |s|
  {
    if !OccursAt(s, d, i) then None else DelimitedFrom(s, i, alt, d, LazyEnd(s, i + |d|, d, 1))
  }

  /** The delimited match for the content length `k`. */
  function DelimitedFrom(s: string, i: nat, alt: Alt, d: string, k: Option<nat>): (r: Option<Match>)
    requires k.Some? ==> 1 <= k.value && i + |d| + k.value + |d| <= |s|
    ensures r.Some? <==> k.Some?
    ensures r.Some? ==> r.value.start == i && r.value.alt == alt && i < r.value.end <= |s|
  {
    if k.None? then None
    else Some(Match(i, i + |d| + k.value + |d|, alt, s[i + |d|..i + |d| + k.value], ""))
  }

  /** A delimited match is the opening delimiter, the shortest content
      the delimiter closes, and the delimiter again; there is none when the
      opening delimiter is missing or no content is closed. */
  lemma DelimitedAtShape(s: string, i: nat, alt: Alt)
    requires alt != Link
    ensures var r := DelimitedAt(s, i, alt);
      r.Some? ==> OccursAt(s, Delimiter(alt), i) && r.value.content != [] &&
                  r.value.end == i + 2 * |Delimiter(alt)| + |r.value.content| &&
                  OccursAt(s, r.value.content, i + |Delimiter(alt)|) &&
                  ContentOk(s, i + |Delimiter(alt)|, |r.value.content|, Delimiter(alt)) &&
                  NoShorterContent(s, i + |Delimiter(alt)|, Delimiter(alt), |r.value.content|)
    ensures DelimitedAt(s, i, alt).None? ==>
              !OccursAt(s, Delimiter(alt), i) || NoContent(s, i + |Delimiter(alt)|, Delimiter(alt))
  {
    var d := Delimiter(alt);
    if OccursAt(s, d, i) && LazyEnd(s, i + |d|, d, 1).Some? {
      DelimitedHit(s, i, alt, d);
    } else if OccursAt(s, d, i) {
      DelimitedMiss(s, i, alt);
    }
  }

  lemma DelimitedHit(s: string, i: nat, alt: Alt, d: string)
    requires OccursAt(s, d, i) && LazyEnd(s, i + |d|, d, 1).Some?
    ensures DelimitedBy(s, i, alt, d).Some?
    ensures DelimitedBy(s, i, alt, d).value.content != []
    ensures DelimitedBy(s, i, alt, d).value.end == i + 2 * |d| + |DelimitedBy(s, i, alt, d).value.content|
    ensures OccursAt(s, DelimitedBy(s, i, alt, d).value.content, i + |d|)
    ensures ContentOk(s, i + |d|, |DelimitedBy(s, i, alt, d).value.content|, d)
    ensures NoShorterContent(s, i + |d|, d, |DelimitedBy(s, i, alt, d).value.content|)
  {
    var from := i + |d|;
    LazyEndLeast(s, from, d, 1);
    var k := LazyEnd(s, from, d, 1);
    assert DelimitedBy(s, i, alt, d) == DelimitedFrom(s, i, alt, d, k);
    DelimitedFromShape(s, i, alt, d, k);
  }

  lemma DelimitedFromShape(s: string, i: nat, alt: Alt, d: string, k: Option<nat>)
    requires k.Some? && ContentOk(s, i + |d|, k.value, d)
    requires NoShorterContent(s, i + |d|, d, k.value)
    ensures var m := DelimitedFrom(s, i, alt, d, k).value;
      && m.content != [] && m.end == i + 2 * |d| + |m.content|
      && OccursAt(s, m.content, i + |d|)
      && ContentOk(s, i + |d|, |m.content|, d)
      && NoShorterContent(s, i + |d|, d, |m.content|)
  {
    SliceOccurs(s, i + |d|, i + |d| + k.value);
  }

  lemma DelimitedMiss(s: string, i: nat, alt: Alt)
    requires alt != Link && LazyEnd(s, i + |Delimiter(alt)|, Delimiter(alt), 1).None?
    ensures NoContent(s, i + |Delimiter(alt)|, Delimiter(alt))
  {
    var d := Delimiter(alt);
    var from := i + |d|;
    LazyEndLeast(s, from, d, 1);
    forall j ensures !ContentOk(s, from, j, d) {
      if j == 0 {
        assert !(1 <= j);
      }
    }
  }

  /** A link with a label of `k` characters and a target of `k2`. */
  predicate LinkOk(s: string, i: nat, k: nat, k2: nat) {
    i < |s| && s[i] == '[' && ContentOk(s, i + 1, k, "](") && ContentOk(s, i + 1 + k + 2, k2, ")")
  }

  /** The link alternative's label and target lengths, trying label
      lengths from `k` on and, for each, the shortest target closed by ")". */
  function LinkSplit(s: string, i: nat, k: nat): (r: Option<(nat, nat)>)
    requires 1 <= k
    decreases |s| + 1 - (i + 1 + k)
    ensures r.Some? ==> k <= r.value.0 && i + 1 + r.value.0 + 2 + r.value.1 + 1 <= |s|
  {
    var from := i + 1;
    if from + k > |s| then None
    else if !Dot(s[from + k - 1]) then None
    else if OccursAt(s, "](", from + k) then
      match LazyEnd(s, from + k + 2, ")", 1)
      case Some(k2) => Some((k, k2))
      case None => LinkSplit(s, i, k + 1)
    else LinkSplit(s, i, k + 1)
  }

  /** No label of `k` to `n` characters has a target. */
  ghost predicate NoLinkBetween(s: string, i: nat, k: nat, n: nat) {
    forall j, j2 :: k <= j < n ==> !LinkOk(s, i, j, j2)
  }

  /** The lengths the link alternative takes form a link. */
  lemma {:induction false} LinkSplitOk(s: string, i: nat, k: nat)
    requires i < |s| && s[i] == '['
    requires 1 <= k && DotsIn(s, i + 1, i + 1 + k - 1)
    decreases |s| + 1 - (i + 1 + k)
    ensures var r := LinkSplit(s, i, k);
      r.Some? ==> LinkOk(s, i, r.value.0, r.value.1)
  {
    var r := LinkSplit(s, i, k);
    if r.Some? {
      LinkSplitCases(s, i, k);
      if r.value.0 != k {
        LinkSplitOk(s, i, k + 1);
      }
    }
  }

  /** The label the link alternative takes is the shortest that has a
      target, and its target is the shortest. */
  lemma {:induction false} LinkSplitLeast(s: string, i: nat, k: nat)
    requires i < |s| && s[i] == '['
    requires 1 <= k && DotsIn(s, i + 1, i + 1 + k - 1)
    decreases |s| + 1 - (i + 1 + k)
    ensures var r := LinkSplit(s, i, k); r.Some? ==> NoLinkBetween(s, i, k, r.value.0)
  {
    var r := LinkSplit(s, i, k);
    if r.Some? {
      LinkSplitCases(s, i, k);
      if r.value.0 != k {
        LinkSplitLeast(s, i, k + 1);
        NoLinkExtend(s, i, k, r.value.0);
      }
    }
  }

  /** The target the link alternative takes is the shortest one ")"
      closes after its label. */
  lemma {:induction false} LinkTargetLeast(s: string, i: nat, k: nat)
    requires i < |s| && s[i] == '['
    requires 1 <= k && DotsIn(s, i + 1, i + 1 + k - 1)
    decreases |s| + 1 - (i + 1 + k)
    ensures var r := LinkSplit(s, i, k);
      r.Some? ==> NoShorterContent(s, i + 1 + r.value.0 + 2, ")", r.value.1)
  {
    var r := LinkSplit(s, i, k);
    if r.Some? {
      LinkSplitCases(s, i, k);
      if r.value.0 != k {
        LinkTargetLeast(s, i, k + 1);
      }
    }
  }

  /** The label length `k` is either taken, with the shortest target, or
      has no target and hands over to the next length. */
  lemma LinkSplitCases(s: string, i: nat, k: nat)
    requires 1 <= k && DotsIn(s, i + 1, i + 1 + k - 1)
    requires LinkSplit(s, i, k).Some?
    ensures var r := LinkSplit(s, i, k);
      (r.value.0 == k && NoShorterContent(s, i + 1 + r.value.0 + 2, ")", r.value.1) &&
       ContentOk(s, i + 1, k, "](") && ContentOk(s, i + 1 + k + 2, r.value.1, ")")) ||
      (r == LinkSplit(s, i, k + 1) && DotsIn(s, i + 1, i + 1 + k) && forall j2 :: !LinkOk(s, i, k, j2))
  {
    if OccursAt(s, "](", i + 1 + k) && LazyEnd(s, i + 1 + k + 2, ")", 1).Some? {
      LinkSplitHit(s, i, k);
    } else {
      LinkSplitStep(s, i, k);
      NoLinkAt(s, i, k);
    }
  }

  /** A label of `k` characters followed by "](" and a closed target is
      the one taken, with the shortest target. */
  lemma LinkSplitHit(s: string, i: nat, k: nat)
    requires 1 <= k && DotsIn(s, i + 1, i + 1 + k - 1)
    requires OccursAt(s, "](", i + 1 + k) && LazyEnd(s, i + 1 + k + 2, ")", 1).Some?
    requires LinkSplit(s, i, k).Some?
    ensures var r := LinkSplit(s, i, k);
      r.Some? && r.value.0 == k && NoShorterContent(s, i + 1 + r.value.0 + 2, ")", r.value.1) &&
      ContentOk(s, i + 1, k, "](") && ContentOk(s, i + 1 + k + 2, r.value.1, ")")
  {
    assert i + 1 + k <= |s| && Dot(s[i + k]);
    DotsInExtend(s, i + 1, i + k);
    LazyEndLeast(s, i + 1 + k + 2, ")", 1);
  }

  /** A label of `k` characters without a target hands over to the next
      length. */
  lemma LinkSplitStep(s: string, i: nat, k: nat)
    requires 1 <= k && DotsIn(s, i + 1, i + 1 + k - 1)
    requires !(OccursAt(s, "](", i + 1 + k) && LazyEnd(s, i + 1 + k + 2, ")", 1).Some?)
    requires LinkSplit(s, i, k).Some?
    ensures LinkSplit(s, i, k) == LinkSplit(s, i, k + 1)
    ensures DotsIn(s, i + 1, i + 1 + k)
  {
  }

  /** When the link alternative takes no label, no label has a target. */
  lemma {:induction false} LinkSplitNone(s: string, i: nat, k: nat)
    requires i < |s| && s[i] == '['
    requires 1 <= k && DotsIn(s, i + 1, i + 1 + k - 1)
    requires LinkSplit(s, i, k).None?
    decreases |s| + 1 - (i + 1 + k)
    ensures forall n :: NoLinkBetween(s, i, k, n)
  {
    var from := i + 1;
    if from + k > |s| || !Dot(s[from + k - 1]) {
      var w := from + k - 1;
      assert !(w < |s| && Dot(s[w]));
      forall n ensures NoLinkBetween(s, i, k, n) {
        forall j, j2 | k <= j < n ensures !LinkOk(s, i, j, j2) {
          NotDotsIn(s, from, from + j, w);
        }
      }
    } else {
      assert LinkSplit(s, i, k) == LinkSplit(s, i, k + 1);
      LinkSplitNone(s, i, k + 1);
      NoLinkAt(s, i, k);
      forall n ensures NoLinkBetween(s, i, k, n) {
        NoLinkExtend(s, i, k, n);
      }
    }
  }

  /** A label of `k` characters has no target when "](" does not follow it
      or nothing after it is closed by ")". */
  lemma NoLinkAt(s: string, i: nat, k: nat)
    requires !OccursAt(s, "](", i + 1 + k) || LazyEnd(s, i + 1 + k + 2, ")", 1).None?
    ensures forall j2 :: !LinkOk(s, i, k, j2)
  {
    LazyEndLeast(s, i + 1 + k + 2, ")", 1);
    forall j2 ensures !LinkOk(s, i, k, j2) {
      if OccursAt(s, "](", i + 1 + k) {
        assert !ContentOk(s, i + 1 + k + 2, j2, ")");
      } else {
        assert !ContentOk(s, i + 1, k, "](");
      }
    }
  }

  lemma NoLinkExtend(s: string, i: nat, k: nat, n: nat)
    requires forall j2 :: !LinkOk(s, i, k, j2)
    requires NoLinkBetween(s, i, k + 1, n)
    ensures NoLinkBetween(s, i, k, n)
  {
    forall j, j2 | k <= j < n ensures !LinkOk(s, i, j, j2) {
      if j > k {
        assert NoLinkBetween(s, i, k + 1, n);
      }
    }
  }

  function LinkAt(s: string, i: nat): (r: Option<Match>)
    ensures r.Some? ==> r.value.start == i && r.value.alt == Link && i < r.value.end <= |s|
  {
    if i < |s| && s[i] == '[' then LinkFrom(s, i, LinkSplit(s, i, 1)) else None
  }

  /** The link match for the label and target lengths `split`. */
  function LinkFrom(s: string, i: nat, split: Option<(nat, nat)>): (r: Option<Match>)
    requires split.Some? ==> i + 1 + split.value.0 + 2 + split.value.1 + 1 <= |s|
    ensures r.Some? ==> r.value.start == i && r.value.alt == Link && i < r.value.end <= |s|
    ensures r.Some? <==> split.Some?
  {
    if split.None? then None
    else
      var t := i + 1 + split.value.0 + 2;
      Some(Match(i, t + split.value.1 + 1, Link, s[i + 1..i + 1 + split.value.0], s[t..t + split.value.1]))
  }

  /** A link match is "[", the label, "](", the target and ")", with the
      label and target lengths `LinkSplit` chose. */
  lemma LinkAtShape(s: string, i: nat)
    requires LinkAt(s, i).Some?
    ensures LinkOk(s, i, |LinkAt(s, i).value.content|, |LinkAt(s, i).value.target|)
    ensures LinkAt(s, i).value.end == i + 4 + |LinkAt(s, i).value.content| + |LinkAt(s, i).value.target|
    ensures OccursAt(s, LinkAt(s, i).value.content, i + 1)
    ensures OccursAt(s, LinkAt(s, i).value.target, i + 1 + |LinkAt(s, i).value.content| + 2)
  {
    LinkAtUnfold(s, i);
    var split := LinkSplit(s, i, 1);
    LinkSplitOk(s, i, 1);
    LinkShapeOf(s, i, split);
  }

  lemma LinkShapeOf(s: string, i: nat, split: Option<(nat, nat)>)
    requires split.Some? && i + 1 + split.value.0 + 2 + split.value.1 + 1 <= |s|
    requires LinkOk(s, i, split.value.0, split.value.1)
    ensures var m := LinkFrom(s, i, split).value;
      && LinkOk(s, i, |m.content|, |m.target|)
      && m.end == i + 4 + |m.content| + |m.target|
      && OccursAt(s, m.content, i + 1) && OccursAt(s, m.target, i + 1 + |m.content| + 2)
  {
    var k := split.value.0;
    var k2 := split.value.1;
    LinkFromParts(s, i, split);
    SliceOccurs(s, i + 1, i + 1 + k);
    SliceOccurs(s, i + 1 + k + 2, i + 1 + k + 2 + k2);
  }

  /** `LinkAt` takes the lengths `LinkSplit` chose from the first label
      length. */
  lemma LinkAtUnfold(s: string, i: nat)
    requires LinkAt(s, i).Some?
    ensures i < |s| && s[i] == '[' && LinkSplit(s, i, 1).Some?
    ensures LinkAt(s, i) == LinkFrom(s, i, LinkSplit(s, i, 1))
  {
  }

  lemma LinkFromParts(s: string, i: nat, split: Option<(nat, nat)>)
    requires split.Some? && i + 1 + split.value.0 + 2 + split.value.1 + 1 <= |s|
    ensures var t := i + 1 + split.value.0 + 2;
      var m := LinkFrom(s, i, split).value;
      m.end == t + split.value.1 + 1 && m.content == s[i + 1..i + 1 + split.value.0] && m.target == s[t..t + split.value.1]
  {
  }

  lemma SliceOccurs(s: string, a: nat, b: nat)
    requires a <= b <= |s|
    ensures OccursAt(s, s[a..b], a) && |s[a..b]| == b - a
  {
  }

  /** The link the pattern takes has the shortest label that has a target,
      and the shortest target. */
  lemma LinkAtLeast(s: string, i: nat)
    requires LinkAt(s, i).Some?
    ensures var m := LinkAt(s, i).value;
      NoLinkBetween(s, i, 1, |m.content|) && NoShorterContent(s, i + 1 + |m.content| + 2, ")", |m.target|)
  {
    assert i < |s| && s[i] == '[';
    LinkSplitLeast(s, i, 1);
    LinkTargetLeast(s, i, 1);
    var p := LinkSplit(s, i, 1).value;
    var m := LinkAt(s, i).value;
    assert |m.content| == p.0 && |m.target| == p.1;
  }

  /** The pattern at index `i`: the first alternative, in order, that
      matches there. */
  function MatchAt(s: string, i: nat): (r: Option<Match>)
    ensures r.Some? ==> r.value.start == i && i < r.value.end <= |s|
  {
    match DelimitedAt(s, i, Triple)
    case Some(m) => Some(m)
    case None =>
      match DelimitedAt(s, i, Double)
      case Some(m) => Some(m)
      case None =>
        match DelimitedAt(s, i, Single)
        case Some(m) => Some(m)
        case None =>
          match DelimitedAt(s, i, Code)
          case Some(m) => Some(m)
          case None => LinkAt(s, i)
  }

  /** Where `finditer`, searching from `pos`, finds its next match: the
      earliest index at or after `pos` where the pattern matches, or the
      length of the line. */
  function FirstIndex(s: string, pos: nat): (r: nat)
    requires pos <= |s|
    decreases |s| - pos
    ensures pos <= r <= |s|
  {
    if pos == |s| then |s|
    else if MatchAt(s, pos).Some? then pos
    else FirstIndex(s, pos + 1)
  }

  /** The next match `finditer` yields when searching from `pos`. */
  function FirstMatch(s: string, pos: nat): (r: Option<Match>)
    requires pos <= |s|
    ensures r.Some? ==> pos <= r.value.start < r.value.end <= |s|
  {
    var j := FirstIndex(s, pos);
    if j < |s| then MatchAt(s, j) else None
  }

  /** `FirstIndex` is the leftmost index where the pattern matches. */
  lemma {:induction false} FirstIndexLeftmost(s: string, pos: nat)
    requires pos <= |s|
    decreases |s| - pos
    ensures FirstIndex(s, pos) < |s| ==> MatchAt(s, FirstIndex(s, pos)).Some?
    ensures forall j :: pos <= j < FirstIndex(s, pos) ==> MatchAt(s, j).None?
  {
    if pos < |s| && MatchAt(s, pos).None? {
      FirstIndexLeftmost(s, pos + 1);
      var f := FirstIndex(s, pos + 1);
      assert FirstIndex(s, pos) == f;
      forall j | pos <= j < f ensures MatchAt(s, j).None? {
        if j != pos {
          assert pos + 1 <= j < f;
        }
      }
    }
  }

  /** The line as the scan cuts it: text between matches, and matches. */
  datatype Piece = Gap(text: string) | Hit(m: Match)

  function Scan(s: string, pos: nat): (r: seq<Piece>)
    requires pos <= |s|
    decreases |s| - pos
  {
    match FirstMatch(s, pos)
    case None => if pos < |s| then [Gap(s[pos..])] else []
    case Some(m) =>
      (if m.start > pos then [Gap(s[pos..m.start])] else []) + [Hit(m)] + Scan(s, m.end)
  }

  function PieceText(p: Piece): string {
    match p
    case Gap(t) => t
    case Hit(m) => MatchText(m)
  }

  function Concat(ps: seq<Piece>): string {
    if ps == [] then [] else PieceText(ps[0]) + Concat(ps[1..])
  }

  /** A run of the Word paragraph: its text and whether it is bold,
      italic, in the code font, or coloured and underlined as a link. */
  datatype InlineRun = InlineRun(text: string, bold: bool, italic: bool, code: bool, link: bool)

  function Plain(t: string): InlineRun {
    InlineRun(t, false, false, false, false)
  }

  /** `match.group(n)` for the content group of `alt`: the text when that
      alternative matched, and nothing (a run without text) otherwise. */
  function Group(m: Match, alt: Alt): string {
    if m.alt == alt then m.content else ""
  }

  /** The run added for a match, chosen by the prefix and suffix of the
      whole matched text. */
  function DispatchRun(m: Match): Option<InlineRun> {
    var full := MatchText(m);
    if StartsWith(full, "***") && EndsWith(full, "***") then Some(InlineRun(Group(m, Triple), true, true, false, false))
    else if StartsWith(full, "**") && EndsWith(full, "**") then Some(InlineRun(Group(m, Double), true, false, false, false))
    else if StartsWith(full, "*") && EndsWith(full, "*") then Some(InlineRun(Group(m, Single), false, true, false, false))
    else if StartsWith(full, "`") && EndsWith(full, "`") then Some(InlineRun(Group(m, Code), false, false, true, false))
    else if Contains(full, "[") && Contains(full, "](") then Some(InlineRun(Group(m, Link), false, false, false, true))
    else None
  }

  function PieceRuns(p: Piece): seq<InlineRun> {
    match p
    case Gap(t) => [Plain(t)]
    case Hit(m) => match DispatchRun(m) case Some(r) => [r] case None => []
  }

  function RunsOf(ps: seq<Piece>): seq<InlineRun> {
    if ps == [] then [] else PieceRuns(ps[0]) + RunsOf(ps[1..])
  }

  /** The runs `_apply_inline_formatting` adds for a line. */
  function InlineRuns(s: string): seq<InlineRun> {
    RunsOf(Scan(s, 0))
  }

  /** The run an alternative stands for, with its content as text. */
  function IntendedRun(m: Match): InlineRun {
    match m.alt
    case Triple => InlineRun(m.content, true, true, false, false)
    case Double => InlineRun(m.content, true, false, false, false)
    case Single => InlineRun(m.content, false, true, false, false)
    case Code => InlineRun(m.content, false, false, true, false)
    case Link => InlineRun(m.content, false, false, false, true)
  }

  // ---------------------------------------------------------------------
  // The loop

  /** `_apply_inline_formatting`: text before each match, then the
      match's run, and the text after the last match. */
  method ApplyInlineFormatting(text: string) returns (runs: seq<InlineRun>)
    ensures runs == InlineRuns(text)
  {
    runs := [];
    var currentPos := 0;
    var next := FirstMatch(text, currentPos);
    while next.Some?
      invariant currentPos <= |text|
      invariant next == FirstMatch(text, currentPos)
      invariant runs + RunsOf(Scan(text, currentPos)) == InlineRuns(text)
      decreases |text| - currentPos
    {
      var m := next.value;
      ScanStep(text, currentPos);
      ghost var gap: seq<InlineRun> := if m.start > currentPos then [Plain(text[currentPos..m.start])] else [];
      ghost var before := runs;
      if m.start > currentPos {
        runs := runs + [Plain(text[currentPos..m.start])];
      }
      assert runs == before + gap;
      runs := runs + PieceRuns(Hit(m));
      AppendRegroup(before, gap, PieceRuns(Hit(m)), RunsOf(Scan(text, m.end)));
      currentPos := m.end;
      next := FirstMatch(text, currentPos);
    }
    if currentPos < |text| {
      runs := runs + [Plain(text[currentPos..])];
    }
  }

  /** One turn of the scan: the gap before the next match, the match's
      run, and the runs of the rest. */
  lemma ScanStep(s: string, pos: nat)
    requires pos <= |s| && FirstMatch(s, pos).Some?
    ensures var m := FirstMatch(s, pos).value;
      RunsOf(Scan(s, pos)) ==
        (if m.start > pos then [Plain(s[pos..m.start])] else []) + PieceRuns(Hit(m)) + RunsOf(Scan(s, m.end))
  {
    var m := FirstMatch(s, pos).value;
    var gap: seq<Piece> := if m.start > pos then [Gap(s[pos..m.start])] else [];
    assert Scan(s, pos) == gap + [Hit(m)] + Scan(s, m.end);
    RunsOfAppend(gap + [Hit(m)], Scan(s, m.end));
    RunsOfAppend(gap, [Hit(m)]);
    assert RunsOf([Hit(m)]) == PieceRuns(Hit(m)) by {
      assert [Hit(m)][1..] == [];
    }
    if m.start > pos {
      assert RunsOf(gap) == [Plain(s[pos..m.start])] by {
        assert gap[1..] == [];
      }
    }
  }

  lemma {:induction false} RunsOfAppend(a: seq<Piece>, b: seq<Piece>)
    ensures RunsOf(a + b) == RunsOf(a) + RunsOf(b)
  {
    if a != [] {
      assert (a + b)[1..] == a[1..] + b;
      RunsOfAppend(a[1..], b);
    } else {
      assert a + b == b;
    }
  }

  lemma {:induction false} ConcatAppend(a: seq<Piece>, b: seq<Piece>)
    ensures Concat(a + b) == Concat(a) + Concat(b)
  {
    if a != [] {
      assert (a + b)[1..] == a[1..] + b;
      ConcatAppend(a[1..], b);
    } else {
      assert a + b == b;
    }
  }

  // ---------------------------------------------------------------------
  // Properties

  /** Text `c` between an occurrence of `d` and an occurrence of `e`. */
  lemma Surrounded(s: string, i: nat, d: string, c: string, e: string)
    requires OccursAt(s, d, i) && OccursAt(s, c, i + |d|) && OccursAt(s, e, i + |d| + |c|)
    ensures OccursAt(s, d + c + e, i)
  {
    var j := i + |d|;
    var l := j + |c|;
    assert s[i..l + |e|] == s[i..j] + s[j..l] + s[l..l + |e|];
  }

  /** A delimited match covers its delimiters and its content. */
  lemma DelimitedText(s: string, i: nat, alt: Alt)
    requires alt != Link && DelimitedAt(s, i, alt).Some?
    ensures OccursAt(s, MatchText(DelimitedAt(s, i, alt).value), i)
    ensures DelimitedAt(s, i, alt).value.end == i + |MatchText(DelimitedAt(s, i, alt).value)|
  {
    var m := DelimitedAt(s, i, alt).value;
    var d := Delimiter(alt);
    DelimitedAtShape(s, i, alt);
    Surrounded(s, i, d, m.content, d);
    assert MatchText(m) == d + m.content + d;
  }

  /** A link match covers its label, its target and the brackets. */
  lemma LinkText(s: string, i: nat)
    requires LinkAt(s, i).Some?
    ensures OccursAt(s, MatchText(LinkAt(s, i).value), i)
    ensures LinkAt(s, i).value.end == i + |MatchText(LinkAt(s, i).value)|
  {
    LinkAtShape(s, i);
    LinkTextOf(s, i, LinkAt(s, i).value);
  }

  lemma LinkTextOf(s: string, i: nat, m: Match)
    requires m.alt == Link && LinkOk(s, i, |m.content|, |m.target|)
    requires OccursAt(s, m.content, i + 1) && OccursAt(s, m.target, i + 1 + |m.content| + 2)
    ensures OccursAt(s, MatchText(m), i)
  {
    assert OccursAt(s, "[", i);
    Surrounded(s, i, "[", m.content, "](");
    Surrounded(s, i, "[" + m.content + "](", m.target, ")");
  }

  /** Whatever alternative matches, the match covers exactly its text. */
  lemma MatchAtText(s: string, i: nat)
    requires MatchAt(s, i).Some?
    ensures OccursAt(s, MatchText(MatchAt(s, i).value), i)
    ensures MatchAt(s, i).value.end == i + |MatchText(MatchAt(s, i).value)|
  {
    if DelimitedAt(s, i, Triple).Some? {
      DelimitedText(s, i, Triple);
    } else if DelimitedAt(s, i, Double).Some? {
      DelimitedText(s, i, Double);
    } else if DelimitedAt(s, i, Single).Some? {
      DelimitedText(s, i, Single);
    } else if DelimitedAt(s, i, Code).Some? {
      DelimitedText(s, i, Code);
    } else {
      LinkText(s, i);
    }
  }

  /** One turn of the scan, in text: the gap, the match's text, and the
      text of the rest. */
  lemma ConcatStep(s: string, pos: nat)
    requires pos <= |s| && FirstMatch(s, pos).Some?
    ensures var m := FirstMatch(s, pos).value;
      Concat(Scan(s, pos)) == s[pos..m.start] + MatchText(m) + Concat(Scan(s, m.end))
  {
    var m := FirstMatch(s, pos).value;
    var gap: seq<Piece> := if m.start > pos then [Gap(s[pos..m.start])] else [];
    var rest := Scan(s, m.end);
    assert Scan(s, pos) == gap + [Hit(m)] + rest;
    ConcatAppend(gap + [Hit(m)], rest);
    ConcatAppend(gap, [Hit(m)]);
    assert Concat([Hit(m)]) == MatchText(m) by {
      assert [Hit(m)][1..] == [];
    }
    assert Concat(gap) == s[pos..m.start] by {
      if m.start > pos {
        assert gap[1..] == [];
      }
    }
  }

  /** The match found from `pos` covers exactly its text. */
  lemma FirstMatchText(s: string, pos: nat)
    requires pos <= |s| && FirstMatch(s, pos).Some?
    ensures var m := FirstMatch(s, pos).value;
      m.end == m.start + |MatchText(m)| && OccursAt(s, MatchText(m), m.start)
  {
    MatchAtText(s, FirstIndex(s, pos));
  }

  lemma Glue(s: string, a: nat, b: nat, c: nat, t: string)
    requires a <= b <= c <= |s| && c == b + |t| && OccursAt(s, t, b)
    ensures s[a..b] + t + s[c..] == s[a..]
  {
    assert s[a..] == s[a..b] + s[b..c] + s[c..];
  }

  /** Gaps and matches cover the line from `pos` on, in order. */
  lemma {:induction false} ScanCovers(s: string, pos: nat)
    requires pos <= |s|
    decreases |s| - pos
    ensures Concat(Scan(s, pos)) == s[pos..]
  {
    var f := FirstMatch(s, pos);
    if f.None? {
      if pos < |s| {
        assert Scan(s, pos) == [Gap(s[pos..])];
        assert Concat([Gap(s[pos..])]) == s[pos..] by {
          assert [Gap(s[pos..])][1..] == [];
        }
      } else {
        assert Scan(s, pos) == [];
      }
    } else {
      var m := f.value;
      ConcatStep(s, pos);
      ScanCovers(s, m.end);
      FirstMatchText(s, pos);
      Glue(s, pos, m.start, m.end, MatchText(m));
    }
  }

  lemma {:induction false} FirstMatchNone(s: string, pos: nat)
    requires pos <= |s|
    requires forall j :: pos <= j < |s| ==> MatchAt(s, j).None?
    decreases |s| - pos
    ensures FirstIndex(s, pos) == |s| && FirstMatch(s, pos).None?
  {
    if pos < |s| {
      FirstMatchNone(s, pos + 1);
    }
  }

  /** Where the pattern matches nowhere, the whole line is one plain run. */
  lemma NoMatchOnePlainRun(s: string)
    requires s != []
    requires forall j :: 0 <= j < |s| ==> MatchAt(s, j).None?
    ensures InlineRuns(s) == [Plain(s)]
  {
    FirstMatchNone(s, 0);
    assert s[0..] == s;
    assert Scan(s, 0) == [Gap(s)];
    assert RunsOf([Gap(s)]) == [Plain(s)] by {
      assert [Gap(s)][1..] == [];
    }
  }

  /** A line without '*', '`' or '[' is one plain run. */
  lemma NoMarkupOnePlainRun(s: string)
    requires s != []
    requires forall i :: 0 <= i < |s| ==> s[i] != '*' && s[i] != '`' && s[i] != '['
    ensures InlineRuns(s) == [Plain(s)]
  {
    forall j | 0 <= j < |s| ensures MatchAt(s, j).None? {
      Mismatch(s, "***", j, 0);
      Mismatch(s, "**", j, 0);
      Mismatch(s, "*", j, 0);
      Mismatch(s, "`", j, 0);
    }
    NoMatchOnePlainRun(s);
  }

  /** The dispatch picks the run of the alternative that matched unless
      the content of a '*' alternative itself starts with '*'. */
  lemma DispatchAgrees(m: Match)
    requires m.content != []
    requires m.alt in {Triple, Double, Single} ==> m.content[0] != '*'
    ensures DispatchRun(m) == Some(IntendedRun(m))
  {
    match m.alt
    case Triple => DispatchWrapped(m, "***");
    case Double =>
      DispatchWrapped(m, "**");
      assert MatchText(m)[2] == m.content[0];
    case Single =>
      DispatchWrapped(m, "*");
      assert MatchText(m)[1] == m.content[0];
    case Code =>
      DispatchWrapped(m, "`");
      assert MatchText(m)[0] == '`';
    case Link => DispatchLink(m);
  }

  /** The text of a delimited match starts and ends with its delimiter. */
  lemma DispatchWrapped(m: Match, d: string)
    requires m.alt != Link && d == Delimiter(m.alt)
    ensures MatchText(m) == d + m.content + d
    ensures StartsWith(MatchText(m), d) && EndsWith(MatchText(m), d)
  {
    var full := d + m.content + d;
    assert full[..|d|] == d;
    assert full[|full| - |d|..] == d;
  }

  /** The text of a link match contains "[" and "](". */
  lemma DispatchLink(m: Match)
    requires m.alt == Link
    ensures DispatchRun(m) == Some(IntendedRun(m))
  {
    var full := MatchText(m);
    assert full[0] == '[';
    assert OccursAt(full, "[", 0);
    assert full[1 + |m.content|..1 + |m.content| + 2] == "](";
    assert OccursAt(full, "](", 1 + |m.content|);
  }

  // ---------------------------------------------------------------------
  // A lone "***"

  /** No lazy content from `from` is closed by a delimiter of '*'s when no
      '*' follows. */
  lemma {:induction false} NoStarClose(s: string, from: nat, close: string, k: nat)
    requires 1 <= k && close != [] && close[0] == '*'
    requires forall j :: from + k <= j < |s| ==> s[j] != '*'
    decreases |s| + 1 - (from + k)
    ensures LazyEnd(s, from, close, k).None?
  {
    if from + k < |s| && Dot(s[from + k - 1]) {
      Mismatch(s, close, from + k, 0);
      NoStarClose(s, from, close, k + 1);
    }
  }

  /** "***" with no '*' after it matches the single-star alternative with
      content "*"; the dispatch sees "***" at both ends and adds a bold
      italic run whose text is the unmatched triple-star group: nothing.
      The "*" the line held is lost. */
  lemma LoneStars(s: string, i: nat)
    requires OccursAt(s, "***", i)
    requires forall j :: i + 3 <= j < |s| ==> s[j] != '*'
    ensures MatchAt(s, i).Some? && MatchAt(s, i).value.alt == Single
    ensures MatchAt(s, i).value.content == "*" && MatchAt(s, i).value.end == i + 3
    ensures DispatchRun(MatchAt(s, i).value).Some? && DispatchRun(MatchAt(s, i).value).value.text == []
    ensures DispatchRun(MatchAt(s, i).value).value.bold && DispatchRun(MatchAt(s, i).value).value.italic
  {
    assert s[i] == '*' && s[i + 1] == '*' && s[i + 2] == '*' by {
      assert s[i..i + 3][0] == s[i] && s[i..i + 3][1] == s[i + 1] && s[i..i + 3][2] == s[i + 2];
    }
    NoStarClose(s, i + 3, "***", 1);
    NoStarClose(s, i + 2, "**", 1);
    assert DelimitedAt(s, i, Triple).None?;
    assert s[i..i + 2] == "**";
    assert DelimitedAt(s, i, Double).None?;
    assert s[i..i + 1] == "*" && s[i + 2..i + 3] == "*";
    assert LazyEnd(s, i + 1, "*", 1) == Some(1);
    var m := DelimitedAt(s, i, Single).value;
    assert m.content == s[i + 1..i + 2] == "*";
    assert m.end == i + 3;
    assert MatchText(m) == "***";
  }

  // ---------------------------------------------------------------------
  // The dispatch by alternative

  /** A piece as the scan makes it: a gap is never empty and neither is a
      match's content. */
  predicate PieceOk(p: Piece) {
    match p
    case Gap(t) => t != []
    case Hit(m) => m.content != []
  }

  /** A match of a '*' alternative whose content itself starts with '*'. */
  predicate StarLed(m: Match) {
    m.alt in {Triple, Double, Single} && StartsWith(m.content, "*")
  }

  lemma MatchAtContent(s: string, i: nat)
    requires MatchAt(s, i).Some?
    ensures MatchAt(s, i).value.content != []
  {
    if DelimitedAt(s, i, Triple).Some? {
      DelimitedAtShape(s, i, Triple);
    } else if DelimitedAt(s, i, Double).Some? {
      DelimitedAtShape(s, i, Double);
    } else if DelimitedAt(s, i, Single).Some? {
      DelimitedAtShape(s, i, Single);
    } else if DelimitedAt(s, i, Code).Some? {
      DelimitedAtShape(s, i, Code);
    } else {
      LinkAtShape(s, i);
    }
  }

  /** Every piece of the scan is well formed. */
  lemma {:induction false} ScanPiecesOk(s: string, pos: nat)
    requires pos <= |s|
    decreases |s| - pos
    ensures forall k :: 0 <= k < |Scan(s, pos)| ==> PieceOk(Scan(s, pos)[k])
  {
    var f := FirstMatch(s, pos);
    if f.Some? {
      var m := f.value;
      var gap: seq<Piece> := if m.start > pos then [Gap(s[pos..m.start])] else [];
      assert Scan(s, pos) == gap + [Hit(m)] + Scan(s, m.end);
      MatchAtContent(s, FirstIndex(s, pos));
      ScanPiecesOk(s, m.end);
      PiecesOkAround(gap, Hit(m), Scan(s, m.end));
    }
  }

  lemma PiecesOkAround(a: seq<Piece>, p: Piece, b: seq<Piece>)
    requires forall k :: 0 <= k < |a| ==> PieceOk(a[k])
    requires PieceOk(p)
    requires forall k :: 0 <= k < |b| ==> PieceOk(b[k])
    ensures forall k :: 0 <= k < |a + [p] + b| ==> PieceOk((a + [p] + b)[k])
  {
    var ps := a + [p] + b;
    forall k | 0 <= k < |ps| ensures PieceOk(ps[k]) {
      if k > |a| {
        assert ps[k] == b[k - |a| - 1];
      }
    }
  }

  /** The runs with each match dispatched by the alternative that matched. */
  function CorrectedPieceRuns(p: Piece): seq<InlineRun> {
    match p
    case Gap(t) => [Plain(t)]
    case Hit(m) => [IntendedRun(m)]
  }

  function CorrectedRunsOf(ps: seq<Piece>): seq<InlineRun> {
    if ps == [] then [] else CorrectedPieceRuns(ps[0]) + CorrectedRunsOf(ps[1..])
  }

  function CorrectedInlineRuns(s: string): seq<InlineRun> {
    CorrectedRunsOf(Scan(s, 0))
  }

  lemma {:induction false} CorrectedRunsNonEmpty(ps: seq<Piece>)
    requires forall k :: 0 <= k < |ps| ==> PieceOk(ps[k])
    ensures forall k :: 0 <= k < |CorrectedRunsOf(ps)| ==> CorrectedRunsOf(ps)[k].text != []
  {
    if ps != [] {
      CorrectedRunsNonEmpty(ps[1..]);
      var r := CorrectedRunsOf(ps);
      var tail := CorrectedRunsOf(ps[1..]);
      assert r == CorrectedPieceRuns(ps[0]) + tail;
      assert PieceOk(ps[0]);
      assert |CorrectedPieceRuns(ps[0])| == 1;
      forall k | 0 <= k < |r| ensures r[k].text != [] {
        if k > 0 {
          assert r[k] == tail[k - 1];
        }
      }
    }
  }

  /** With the dispatch by alternative, no run is ever empty. */
  lemma CorrectedNoEmptyRun(s: string)
    ensures forall k :: 0 <= k < |CorrectedInlineRuns(s)| ==> CorrectedInlineRuns(s)[k].text != []
  {
    ScanPiecesOk(s, 0);
    CorrectedRunsNonEmpty(Scan(s, 0));
  }

  lemma {:induction false} RunsAgree(ps: seq<Piece>)
    requires forall k :: 0 <= k < |ps| ==> PieceOk(ps[k])
    requires forall k :: 0 <= k < |ps| && ps[k].Hit? ==> !StarLed(ps[k].m)
    ensures RunsOf(ps) == CorrectedRunsOf(ps)
  {
    if ps != [] {
      assert PieceOk(ps[0]);
      if ps[0].Hit? {
        var m := ps[0].m;
        assert !StarLed(m);
        assert m.content[..1][0] == m.content[0];
        DispatchAgrees(m);
      }
      forall k | 0 <= k < |ps[1..]| ensures PieceOk(ps[1..][k]) && (ps[1..][k].Hit? ==> !StarLed(ps[1..][k].m)) {
        assert ps[1..][k] == ps[k + 1];
      }
      RunsAgree(ps[1..]);
    }
  }

  /** The prefix dispatch and the dispatch by alternative give the same
      runs unless some '*' match has content starting with '*'. */
  lemma InlineRunsAgree(s: string)
    requires forall k :: 0 <= k < |Scan(s, 0)| && Scan(s, 0)[k].Hit? ==> !StarLed(Scan(s, 0)[k].m)
    ensures InlineRuns(s) == CorrectedInlineRuns(s)
  {
    ScanPiecesOk(s, 0);
    RunsAgree(Scan(s, 0));
  }
}
