/**
 * YAML front matter of a Markdown file (`_extract_frontmatter_config`,
 * `_strip_frontmatter`): a leading "---\n", the YAML text, and the first
 * "\n---\n" found from index 4.  Parsing the YAML is a foreign call and
 * is passed in as `load`.
 */
module Frontmatter {
  import opened Text
  import opened Wrappers
  import Config

  const FenceOpen := "---\n"
  const FenceClose := "\n---\n"

  /** The index of the closing fence, when the content opens with a fence:
      the first occurrence of "\n---\n" at index 4 or later. */
  function FrontmatterEnd(content: string): (r: Option<nat>)
    ensures r.Some? ==> StartsWith(content, FenceOpen) && 4 <= r.value && OccursAt(content, FenceClose, r.value)
    ensures r.Some? ==> forall j :: 4 <= j < r.value ==> !OccursAt(content, FenceClose, j)
    ensures r.None? <==> !StartsWith(content, FenceOpen) || forall j :: 4 <= j ==> !OccursAt(content, FenceClose, j)
  {
    if !StartsWith(content, FenceOpen) then None
    else
      var e := Find(content, FenceClose, 4);
      if e < 0 then None else Some(e)
  }

  /** `content[4:end_marker]`, the text handed to the YAML loader. */
  function FrontmatterText(content: string): (r: Option<string>)
    ensures r.Some? ==> StartsWith(content, FenceOpen + r.value + FenceClose)
  {
    match FrontmatterEnd(content)
    case None => None
    case Some(e) =>
      var y := content[4..e];
      assert content[..|FenceOpen + y + FenceClose|] == content[..4] + content[4..e] + content[e..e + 5];
      Some(y)
  }

  /** `_strip_frontmatter`: the text after the closing fence, or the
      content unchanged.  It only ever removes a prefix. */
  function StripFrontmatter(content: string): (r: string)
    ensures |r| <= |content| && r == content[|content| - |r|..]
    ensures !StartsWith(content, FenceOpen) ==> r == content
  {
    match FrontmatterEnd(content)
    case None => content
    case Some(e) => content[e + 5..]
  }

  /** `_extract_frontmatter_config`: the loader's result on the front
      matter text; None when there is no front matter or loading fails. */
  function ExtractFrontmatterConfig(content: string, load: string -> Option<map<string, Config.Value>>)
    : (r: Option<map<string, Config.Value>>)
    ensures FrontmatterEnd(content).None? ==> r.None?
    ensures FrontmatterText(content).Some? ==> r == load(FrontmatterText(content).value)
  {
    match FrontmatterText(content)
    case None => None
    case Some(y) => load(y)
  }

  /** A document written as fence, YAML text, fence, body: the loader sees
      exactly the YAML text and stripping leaves exactly the body, provided
      the closing fence does not already occur in the YAML text (or overlap
      its end). */
  lemma FrontmatterRoundTrip(yaml: string, body: string)
    requires !Contains(yaml + "\n---", FenceClose)
    ensures FrontmatterText(FenceOpen + yaml + FenceClose + body) == Some(yaml)
    ensures StripFrontmatter(FenceOpen + yaml + FenceClose + body) == body
  {
    var c := FenceOpen + yaml + FenceClose + body;
    var w := yaml + "\n---";
    var z := "\n" + body;
    assert c == FenceOpen + w + z;
    forall j | 4 <= j < 4 + |yaml| ensures !OccursAt(c, FenceClose, j) {
      OccursInMiddle(FenceOpen, w, z, FenceClose, j);
      assert !OccursAt(w, FenceClose, j - 4);
    }
    assert c[4 + |yaml|..4 + |yaml| + 5] == FenceClose;
    assert OccursAt(c, FenceClose, 4 + |yaml|);
    var e := Find(c, FenceClose, 4);
    assert e == 4 + |yaml|;
    assert c[4..e] == yaml;
    assert c[e + 5..] == body;
  }

  /** Without a closing fence nothing is loaded and nothing is stripped. */
  lemma UnclosedFrontmatter(content: string)
    requires forall j :: 4 <= j ==> !OccursAt(content, FenceClose, j)
    ensures StripFrontmatter(content) == content
    ensures FrontmatterText(content) == None
  {
  }
}
