/**
 * The metadata envelope: the comment block appended to every Markdown file
 * written by the Word-to-Markdown direction, and the two regular
 * expressions the Markdown-to-Word direction uses to take it apart again
 * (one captures the payload, one strips the block).  The JSON payload is an
 * opaque string here.
 *
 * Both regular expressions run with `re.DOTALL`, so `.` matches any
 * character; their lazy `.*?` is modelled as a left-to-right search that
 * stops at the first position where the rest of the pattern matches.
 */
module Envelope {
  import opened Text
  import opened Wrappers

  const Marker := "<!-- WORD_CONVERSION_METADATA"

  /** The opening line of the block, as both writer and reader spell it. */
  const Opening := Marker + "\n"

  /** The literal start of the pattern used by `_strip_metadata`. */
  const StripPrefix := "\n\n" + Marker

  /** The line break and comment close that end the payload. */
  const Closing := "\n-->"

  /** The Markdown body followed by the footer of line 273. */
  function WithFooter(body: string, json: string): string {
    body + "\n\n" + Opening + json + Closing + "\n"
  }

  // ---------------------------------------------------------------------
  // `re.sub(r'\n\n<!-- WORD_CONVERSION_METADATA.*?-->\n?$', '', content,
  //         flags=re.DOTALL)`

  /** `$` without MULTILINE: the end of the string, or just before a final
      newline. */
  predicate AtEnd(s: string, p: nat) {
    p == |s| || (p == |s| - 1 && s[p] == '\n')
  }

  /** `\n?$` at position p; the optional newline is tried first. */
  function OptionalNewlineThenEnd(s: string, p: nat): (r: Option<nat>)
    requires p <= |s|
    ensures r.Some? ==> p <= r.value <= |s|
  {
    if p < |s| && s[p] == '\n' && AtEnd(s, p + 1) then Some(p + 1)
    else if AtEnd(s, p) then Some(p)
    else None
  }

  /** `.*?-->\n?$` from position k: the end of the match with the shortest
      lazy part. */
  function LazyArrowEnd(s: string, k: nat): (r: Option<nat>)
    requires k <= |s|
    decreases |s| - k
    ensures r.Some? ==> k + 3 <= r.value <= |s|
  {
    if OccursAt(s, "-->", k) && OptionalNewlineThenEnd(s, k + 3).Some? then
      OptionalNewlineThenEnd(s, k + 3)
    else if k < |s| then LazyArrowEnd(s, k + 1)
    else None
  }

  /** The end of a match of the strip pattern starting at i, if any. */
  function StripMatchAt(s: string, i: nat): (r: Option<nat>)
    requires i <= |s|
    ensures r.Some? ==> i < r.value <= |s|
  {
    if OccursAt(s, StripPrefix, i) then LazyArrowEnd(s, i + |StripPrefix|) else None
  }

  /** `re.sub` from position i: every match is deleted, scanning resumes at
      its end, and every other character is kept. */
  function SubFrom(s: string, i: nat): string
    requires i <= |s|
    decreases |s| - i
  {
    if i == |s| then []
    else match StripMatchAt(s, i)
      case Some(e) => SubFrom(s, e)
      case None => [s[i]] + SubFrom(s, i + 1)
  }

  /** `_strip_metadata`. */
  function StripMetadata(content: string): string {
    SubFrom(content, 0)
  }

  // ---------------------------------------------------------------------
  // `re.search(r'<!-- WORD_CONVERSION_METADATA\n(.*?)\n-->', content,
  //            re.DOTALL)`, group 1

  function SearchFrom(s: string, i: nat): Option<string>
    decreases |s| + 1 - i
  {
    if i > |s| then None
    else if OccursAt(s, Opening, i) && Find(s, Closing, i + |Opening|) >= 0 then
      Some(s[i + |Opening|..Find(s, Closing, i + |Opening|)])
    else SearchFrom(s, i + 1)
  }

  /** The text `_extract_metadata` hands to `json.loads`, or None when the
      pattern does not match (the empty record is then used). */
  function MetadataPayload(content: string): Option<string> {
    SearchFrom(content, 0)
  }

  // ---------------------------------------------------------------------
  // Facts about the literal markers

  lemma MarkerFacts()
    ensures |Marker| == 29 && |Opening| == 30 && |StripPrefix| == 31
    ensures forall t :: 0 <= t < 29 ==> Opening[t] != '\n' && Opening[t] == Marker[t]
    ensures Opening[29] == '\n' && Opening[0] == '<'
    ensures StripPrefix[0] == '\n' && StripPrefix[1] == '\n' && StripPrefix[2] == '<'
    ensures forall t :: 2 <= t < 31 ==> StripPrefix[t] != '\n'
    ensures |Closing| == 4 && StartsWith(Closing + "\n", Closing)
    ensures forall k :: 0 < k < 4 ==> Closing[k] != Closing[0]
  {
    assert '\n' !in Marker;
  }

  lemma ClosingFacts()
    ensures |Closing| == 4 && StartsWith(Closing + "\n", Closing)
    ensures forall k :: 0 < k < 4 ==> Closing[k] != Closing[0]
  {
  }

  /** Scanning across a stretch where nothing matches keeps it. */
  lemma {:induction false} SubFromKeeps(s: string, i: nat, n: nat)
    requires i <= n <= |s|
    requires forall j :: i <= j < n ==> !OccursAt(s, StripPrefix, j)
    ensures SubFrom(s, i) == s[i..n] + SubFrom(s, n)
    decreases n - i
  {
    if i < n {
      SubFromKeepsOne(s, i);
      SubFromKeeps(s, i + 1, n);
      ConsSlice(s, i, n, SubFrom(s, n));
    }
  }

  /** A position where the pattern does not start keeps its character. */
  lemma SubFromKeepsOne(s: string, i: nat)
    requires i < |s| && !OccursAt(s, StripPrefix, i)
    ensures SubFrom(s, i) == [s[i]] + SubFrom(s, i + 1)
  {
  }

  lemma ConsSlice(s: string, i: nat, n: nat, t: string)
    requires i < n <= |s|
    ensures [s[i]] + (s[i + 1..n] + t) == s[i..n] + t
  {
    assert s[i..n] == [s[i]] + s[i + 1..n];
  }

  /** For a string ending in "-->\n", the lazy part runs to the end. */
  lemma {:induction false} LazyArrowReachesEnd(s: string, k: nat)
    requires |s| >= 4 && s[|s| - 4..] == "-->\n"
    requires k <= |s| - 4
    ensures LazyArrowEnd(s, k) == Some(|s|)
    decreases |s| - k
  {
    if k == |s| - 4 {
      assert s[k..k + 3] == "-->";
      assert s[|s| - 1] == '\n';
    } else {
      assert s[|s| - 2] == '>';
      assert OptionalNewlineThenEnd(s, k + 3).None?;
      LazyArrowReachesEnd(s, k + 1);
    }
  }




  /** In `x + y + z`, where `y` does not contain `p`, `z` starts with `p` and
      no later character of `p` equals its first, no occurrence of `p` starts
      inside `y`. */
  lemma NoOccurrenceInside(x: string, y: string, z: string, p: string)
    requires |p| > 0 && StartsWith(z, p)
    requires forall k :: 0 < k < |p| ==> p[k] != p[0]
    requires forall j :: !OccursAt(y, p, j)
    ensures forall j :: |x| <= j < |x| + |y| ==> !OccursAt(x + y + z, p, j)
  {
    var c := |x| + |y|;
    assert (x + y + z)[c] == p[0];
    forall j | |x| <= j < c ensures !OccursAt(x + y + z, p, j) {
      if j + |p| <= c {
        OccursInMiddle(x, y, z, p, j);
      } else {
        Mismatch(x + y + z, p, j, c - j);
      }
    }
  }

  /** Under the same conditions, the first occurrence of `p` from `|x|` on
      is the one that starts `z`. */
  lemma FirstOccurrenceAfter(x: string, y: string, z: string, p: string)
    requires |p| > 0 && StartsWith(z, p)
    requires forall k :: 0 < k < |p| ==> p[k] != p[0]
    requires forall j :: !OccursAt(y, p, j)
    ensures Find(x + y + z, p, |x|) == |x| + |y|
  {
    NoOccurrenceInside(x, y, z, p);
    OccursAtStart(x + y, z, p);
  }


  lemma Absent(s: string, p: string)
    requires !Contains(s, p)
    ensures forall j :: !OccursAt(s, p, j)
  {
  }


  /** Stripping the footer gives back exactly the body, provided the body
      does not itself contain the start of the strip pattern. */
  lemma StripFooter(body: string, json: string)
    requires !Contains(body, StripPrefix)
    ensures StripMetadata(WithFooter(body, json)) == body
  {
    var s := WithFooter(body, json);
    var n := |body|;
    NoStripPrefixInBody(body, json);
    SubFromKeeps(s, 0, n);
    FooterMatches(body, json);
    assert s[0..n] == body;
  }

  /** The strip pattern does not start inside the body. */
  lemma NoStripPrefixInBody(body: string, json: string)
    requires !Contains(body, StripPrefix)
    ensures forall j :: 0 <= j < |body| ==> !OccursAt(WithFooter(body, json), StripPrefix, j)
  {
    var s := WithFooter(body, json);
    var n := |body|;
    MarkerFacts();
    assert s == body + (s[n..]);
    assert s[n] == '\n' && s[n + 1] == '\n';
    forall j | 0 <= j < n ensures !OccursAt(s, StripPrefix, j) {
      if j + 31 <= n {
        OccursInPrefix(body, s[n..], StripPrefix, j);
      } else if j + 1 < n {
        Mismatch(s, StripPrefix, j, n - j);
      } else {
        Mismatch(s, StripPrefix, j, 2);
      }
    }
  }

  /** From the end of the body, the strip pattern matches the whole footer,
      and nothing is left after it. */
  lemma FooterMatches(body: string, json: string)
    ensures var s := WithFooter(body, json);
      |body| < |s| && StripMatchAt(s, |body|) == Some(|s|) && SubFrom(s, |body|) == []
  {
    var s := WithFooter(body, json);
    var n := |body|;
    MarkerFacts();
    assert s[n..n + 31] == StripPrefix;
    assert s[|s| - 4..] == "-->\n";
    LazyArrowReachesEnd(s, n + 31);
  }

  /** Content without the start of the strip pattern passes through. */
  lemma StripWithoutFooter(content: string)
    requires !Contains(content, StripPrefix)
    ensures StripMetadata(content) == content
  {
    SubFromKeeps(content, 0, |content|);
    assert content[0..|content|] == content;
  }

  lemma {:induction false} SearchSkips(s: string, i: nat, n: nat)
    requires i <= n <= |s|
    requires forall j :: i <= j < n ==> !OccursAt(s, Opening, j)
    ensures SearchFrom(s, i) == SearchFrom(s, n)
    decreases n - i
  {
    if i < n {
      SearchSkips(s, i + 1, n);
    }
  }

  /** No opening line starts before the footer's own. */
  lemma NoOpeningBefore(body: string, json: string)
    requires !Contains(body, Marker)
    ensures forall j :: 0 <= j < |body| + 2 ==> !OccursAt(WithFooter(body, json), Opening, j)
  {
    var s := WithFooter(body, json);
    var n := |body|;
    MarkerFacts();
    assert s[n] == '\n' && s[n + 1] == '\n';
    forall j | 0 <= j < n + 2 ensures !OccursAt(s, Opening, j) {
      if j + 29 <= n {
        OccursOfPrefix(s, Marker, "\n", j);
        assert s == body + s[n..];
        OccursInPrefix(body, s[n..], Marker, j);
      } else if j < n {
        Mismatch(s, Opening, j, n - j);
      } else {
        Mismatch(s, Opening, j, 0);
      }
    }
  }

  /** The search captures exactly the JSON text of a footer, provided the
      body does not contain the marker and the JSON does not contain the
      closing "\n-->". */
  lemma ExtractFooter(body: string, json: string)
    requires !Contains(body, Marker)
    requires !Contains(json, Closing)
    ensures MetadataPayload(WithFooter(body, json)) == Some(json)
  {
    var s := WithFooter(body, json);
    NoOpeningBefore(body, json);
    SearchSkips(s, 0, |body| + 2);
    SearchAfter(body + "\n\n", json);
  }

  /** At the opening line the search captures up to the first closing
      line, which is the one the footer writes after the payload. */
  lemma SearchAfter(p: string, json: string)
    requires !Contains(json, Closing)
    ensures SearchFrom(p + Opening + json + Closing + "\n", |p|) == Some(json)
  {
    var s := p + Opening + json + Closing + "\n";
    var x := p + Opening;
    ClosingFacts();
    assert s == p + Opening + (json + Closing + "\n") == x + json + (Closing + "\n");
    OccursInConcat(p, Opening, json + Closing + "\n");
    OccursInConcat(x, json, Closing + "\n");
    Absent(json, Closing);
    FirstOccurrenceAfter(x, json, Closing + "\n", Closing);
    SearchFromHit(s, |p|, |x| + |json|);
  }

  /** Where the opening line starts and a closing line follows, the search
      captures the text between them. */
  lemma SearchFromHit(s: string, i: nat, e: nat)
    requires OccursAt(s, Opening, i) && Find(s, Closing, i + |Opening|) == e
    ensures i + |Opening| <= e <= |s| && SearchFrom(s, i) == Some(s[i + |Opening|..e])
  {
  }
}
