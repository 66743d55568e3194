/**
 * Frontmatter splitting and post loading: `parse_frontmatter`, `parse_markdown_file`
 * and `process_markdown_file`. The Markdown renderer is an opaque function.
 */
module Markdown {
  import opened Wrappers
  import opened Text
  import opened Metadata
  import Walk

  /** A post: its metadata, the Markdown body, and the rendered HTML (empty until rendered). */
  datatype Post = Post(metadata: PostMetadata, content: string, htmlContent: string)

  /** Why a file yields no post. */
  datatype LoadError = ReadFailed | MissingClosingMarker | InvalidYaml(message: string)

  /** `render_markdown`: pulldown-cmark with every extension, opaque here. */
  type Renderer = string -> string

  /** How a document's text divides around the `---` markers. */
  datatype Frontmatter = NoFrontmatter | Unclosed | Delimited(yaml: string, body: string)

  const Marker: string := "---"

  /** `close` is the first occurrence of `---` after the opening marker. */
  predicate FirstClosingMarker(content: string, close: int) {
    StartsWith(content, Marker) && 3 <= close && OccursAt(content, Marker, close)
    && forall j :: 3 <= j < close ==> !OccursAt(content, Marker, j)
  }

  /** The line break `parse_frontmatter` drops from the start of the body, if any. */
  function LeadingLineBreak(rest: string): string {
    if StartsWith(rest, "\n") then "\n" else if StartsWith(rest, "\r\n") then "\r\n" else ""
  }

  /** The body after the closing marker: at most one leading `\n` or `\r\n` removed. */
  function StripLineBreak(rest: string): (body: string)
    ensures rest == LeadingLineBreak(rest) + body
  {
    if StartsWith(rest, "\n") then rest[1..]
    else if StartsWith(rest, "\r\n") then rest[2..]
    else rest
  }

  lemma OccursInSuffix(s: string, pat: string, k: nat)
    requires k <= |s|
    ensures forall j :: k <= j ==> (OccursAt(s, pat, j) <==> OccursAt(s[k..], pat, j - k))
  {
    forall j | k <= j
      ensures OccursAt(s, pat, j) <==> OccursAt(s[k..], pat, j - k)
    {
      if j + |pat| <= |s| {
        assert s[k..][j - k..j - k + |pat|] == s[j..j + |pat|];
      }
    }
  }

  /** The text after the closing marker as `parse_frontmatter` keeps it. */
  function BodyAfter(content: string, bodyStart: nat): (body: string)
    requires bodyStart <= |content|
    ensures content[bodyStart..] == LeadingLineBreak(content[bodyStart..]) + body
  {
    if bodyStart < |content| then StripLineBreak(content[bodyStart..]) else ""
  }

  lemma FoundMarkerIsFirst(content: string, endMarker: nat)
    requires StartsWith(content, Marker) && Find(content[3..], Marker) == Some(endMarker)
    ensures FirstClosingMarker(content, 3 + endMarker)
  {
    OccursInSuffix(content, Marker, 3);
  }

  lemma {:induction false} DelimitedParts(content: string, endMarker: nat)
    requires StartsWith(content, Marker) && Find(content[3..], Marker) == Some(endMarker)
    ensures FirstClosingMarker(content, 3 + endMarker)
    ensures content == Marker + content[3..endMarker + 3] + Marker
      + LeadingLineBreak(content[endMarker + 6..]) + BodyAfter(content, endMarker + 6)
  {
    FoundMarkerIsFirst(content, endMarker);
    var k := endMarker + 3;
    assert content[k..k + 3] == Marker;
    assert content == content[..3] + content[3..k] + content[k..k + 3] + content[k + 3..];
  }

  /**
   * The slicing of `parse_frontmatter`: no leading `---` means no frontmatter; a
   * leading `---` without another one after it is unclosed; otherwise the YAML text
   * lies between the opening marker and the first later `---`, and the body follows
   * the closing marker, less one leading line break.
   */
  function SplitFrontmatter(content: string): (r: Frontmatter)
    ensures r.NoFrontmatter? <==> !StartsWith(content, Marker)
    ensures r.Unclosed? <==> StartsWith(content, Marker) && forall j :: 3 <= j ==> !OccursAt(content, Marker, j)
    ensures r.Delimited? ==> FirstClosingMarker(content, 3 + |r.yaml|)
    ensures r.Delimited? ==>
      content == Marker + r.yaml + Marker + LeadingLineBreak(content[|r.yaml| + 6..]) + r.body
  {
    if !StartsWith(content, Marker) then NoFrontmatter
    else
      OccursInSuffix(content, Marker, 3);
      match Find(content[3..], Marker)
      case None => Unclosed
      case Some(endMarker) =>
        var yaml := content[3..endMarker + 3];
        DelimitedParts(content, endMarker);
        Delimited(yaml, BodyAfter(content, endMarker + 6))
  }

  /** The YAML text holds no `---`, not even one running into the closing marker. */
  predicate MarkerFree(yaml: string) {
    forall j :: 0 <= j < |yaml| ==> !OccursAt(yaml + Marker, Marker, j)
  }

  lemma FindIsFirst(s: string, pat: string, k: nat)
    requires OccursAt(s, pat, k) && forall j :: 0 <= j < k ==> !OccursAt(s, pat, j)
    ensures Find(s, pat) == Some(k)
  {
  }

  /** After the opening marker, the first `---` of an assembled document closes the YAML text. */
  lemma {:induction false} ClosingMarkerOfAssembled(yaml: string, tail: string)
    requires MarkerFree(yaml)
    ensures Find(yaml + Marker + tail, Marker) == Some(|yaml|)
  {
    var rest := yaml + Marker + tail;
    assert rest[|yaml|..|yaml| + 3] == Marker;
    forall j | 0 <= j < |yaml|
      ensures !OccursAt(rest, Marker, j)
    {
      assert !OccursAt(yaml + Marker, Marker, j);
      assert rest[j..j + 3] == (yaml + Marker)[j..j + 3];
    }
    FindIsFirst(rest, Marker, |yaml|);
  }

  lemma BodyAfterLineBreak(lineBreak: string, body: string)
    requires lineBreak == "" || lineBreak == "\n" || lineBreak == "\r\n"
    requires lineBreak == "" ==> LeadingLineBreak(body) == ""
    ensures lineBreak + body != [] ==> StripLineBreak(lineBreak + body) == body
    ensures lineBreak + body == [] ==> body == []
  {
    if lineBreak == "\r\n" {
      assert (lineBreak + body)[..2] == "\r\n";
      assert (lineBreak + body)[0] == '\r';
    } else if lineBreak == "\n" {
      assert (lineBreak + body)[..1] == "\n";
    }
  }

  lemma SplitOfClosed(content: string, k: nat)
    requires StartsWith(content, Marker) && Find(content[3..], Marker) == Some(k)
    ensures k + 6 <= |content|
    ensures SplitFrontmatter(content) == Delimited(content[3..k + 3], BodyAfter(content, k + 6))
  {
  }

  /** The slices `parse_frontmatter` takes of an assembled document. */
  lemma AssembledSlices(yaml: string, tail: string)
    ensures var content := Marker + yaml + Marker + tail;
      content[..3] == Marker && content[3..] == yaml + Marker + tail
      && content[3..|yaml| + 3] == yaml && content[|yaml| + 6..] == tail
  {
  }

  /** What follows the closing marker, less its line break, is the body. */
  lemma BodyOfTail(content: string, k: nat, lineBreak: string, body: string)
    requires k <= |content| && content[k..] == lineBreak + body
    requires lineBreak == "" || lineBreak == "\n" || lineBreak == "\r\n"
    requires lineBreak == "" ==> LeadingLineBreak(body) == ""
    ensures BodyAfter(content, k) == body
  {
    BodyAfterLineBreak(lineBreak, body);
  }

  /** Splitting a document assembled from its parts gives the parts back. */
  lemma {:induction false} SplitAssembled(yaml: string, lineBreak: string, body: string)
    requires MarkerFree(yaml)
    requires lineBreak == "" || lineBreak == "\n" || lineBreak == "\r\n"
    requires lineBreak == "" ==> LeadingLineBreak(body) == ""
    ensures SplitFrontmatter(Marker + yaml + Marker + lineBreak + body) == Delimited(yaml, body)
  {
    var tail := lineBreak + body;
    var content := Marker + yaml + Marker + tail;
    assert Marker + yaml + Marker + lineBreak + body == content;
    AssembledSlices(yaml, tail);
    ClosingMarkerOfAssembled(yaml, tail);
    SplitOfClosed(content, |yaml|);
    BodyOfTail(content, |yaml| + 6, lineBreak, body);
  }

  /**
   * `parse_frontmatter`: without a leading `---` the metadata is `PostMetadata::new()`
   * and the body is the whole text; an unclosed block or a decoder failure is an error.
   */
  function ParseFrontmatter(content: string, decode: YamlDecoder): (r: Result<(PostMetadata, string), LoadError>)
    ensures !StartsWith(content, Marker) ==> r == Ok((New(), content))
    ensures SplitFrontmatter(content).Unclosed? ==> r == Err(MissingClosingMarker)
    ensures SplitFrontmatter(content).Delimited? ==>
      var yaml := SplitFrontmatter(content).yaml;
      (r.Err? <==> decode(yaml).Err?) && (r.Ok? ==> r.value == (FromYaml(yaml, decode).value, SplitFrontmatter(content).body))
    ensures r.Ok? ==> IsSuffix(r.value.1, content)
  {
    match SplitFrontmatter(content)
    case NoFrontmatter => Ok((New(), content))
    case Unclosed => Err(MissingClosingMarker)
    case Delimited(yaml, body) =>
      match FromYaml(yaml, decode)
      case Err(message) => Err(InvalidYaml(message))
      case Ok(metadata) => Ok((metadata, body))
  }

  /** `parse_markdown_file`: a post whose HTML is still empty, or the reason there is none. */
  function ParseMarkdownFile(entry: Walk.Entry, decode: YamlDecoder): (r: Result<Post, LoadError>)
    ensures entry.text.None? ==> r == Err(ReadFailed)
    ensures entry.text.Some? ==> (r.Ok? <==> ParseFrontmatter(entry.text.value, decode).Ok?)
    ensures r.Ok? ==> r.value.htmlContent == ""
    ensures r.Ok? ==> (r.value.metadata, r.value.content) == ParseFrontmatter(entry.text.value, decode).value
  {
    match entry.text
    case None => Err(ReadFailed)
    case Some(content) =>
      match ParseFrontmatter(content, decode)
      case Err(e) => Err(e)
      case Ok((metadata, body)) => Ok(Post(metadata, body, ""))
  }

  /**
   * What `process_markdown_file` yields: the parsed post with its HTML rendered from
   * its body; metadata and body are those of `parse_markdown_file`, errors are its errors.
   */
  function ProcessedPost(entry: Walk.Entry, decode: YamlDecoder, render: Renderer): (r: Result<Post, LoadError>)
    ensures r.Err? <==> ParseMarkdownFile(entry, decode).Err?
    ensures r.Err? ==> r == ParseMarkdownFile(entry, decode)
    ensures r.Ok? ==>
      var parsed := ParseMarkdownFile(entry, decode).value;
      r.value.metadata == parsed.metadata && r.value.content == parsed.content
      && r.value.htmlContent == render(parsed.content)
  {
    match ParseMarkdownFile(entry, decode)
    case Err(e) => Err(e)
    case Ok(post) => Ok(post.(htmlContent := render(post.content)))
  }

  /** `process_markdown_file`: parse, then overwrite the post's `html_content` in place. */
  method ProcessMarkdownFile(entry: Walk.Entry, decode: YamlDecoder, render: Renderer) returns (r: Result<Post, LoadError>)
    ensures r == ProcessedPost(entry, decode, render)
  {
    var parsed := ParseMarkdownFile(entry, decode);
    if parsed.Err? {
      return Err(parsed.error);
    }
    var post := parsed.value;
    post := post.(htmlContent := render(post.content));
    r := Ok(post);
  }

  /**
   * The frontmatter block of the source's parser test, written in three pieces around
   * the two dashes of its date.
   */
  function TestYaml(): string {
    TestYamlHead() + ("-" + (TestYamlMonth() + ("-" + TestYamlTail())))
  }

  /** The sentence the source's parser test looks for in the body. */
  function TestText(): string {
    "这是文章正文内容"
  }

  /** The body of the source's parser test, after the blank line that follows `---`. */
  function TestBody(): string {
    "\n" + TestText() + "。\n"
  }

  predicate DashFree(s: string) {
    forall i :: 0 <= i < |s| ==> s[i] != '-'
  }

  lemma DashFreeIsMarkerFree(s: string)
    requires DashFree(s)
    ensures MarkerFree(s)
  {
    forall j | 0 <= j < |s| ensures !OccursAt(s + Marker, Marker, j) {
      assert (s + Marker)[j] == s[j];
    }
  }

  /** A match past the end of `a` in `a + t` is a match in `t`, shifted. */
  lemma OccursShift(a: string, t: string, j: nat)
    requires |a| <= j
    ensures OccursAt(a + t, Marker, j) <==> OccursAt(t, Marker, j - |a|)
  {
    if j + 3 <= |a + t| {
      assert (a + t)[j..j + 3] == t[j - |a|..j - |a| + 3];
    }
  }

  lemma MarkerFreeAfterDashFree(a: string, b: string)
    requires DashFree(a) && MarkerFree(b)
    ensures MarkerFree(a + b)
  {
    assert (a + b) + Marker == a + (b + Marker);
    forall j | 0 <= j < |a + b| ensures !OccursAt((a + b) + Marker, Marker, j) {
      if j < |a| {
        assert ((a + b) + Marker)[j] == a[j];
      } else {
        OccursShift(a, b + Marker, j);
      }
    }
  }

  lemma MarkerFreeAfterDash(b: string)
    requires b != [] && b[0] != '-' && MarkerFree(b)
    ensures MarkerFree("-" + b)
  {
    assert ("-" + b) + Marker == "-" + (b + Marker);
    forall j | 0 <= j < |"-" + b| ensures !OccursAt(("-" + b) + Marker, Marker, j) {
      if j == 0 {
        assert (("-" + b) + Marker)[1] == b[0];
      } else {
        OccursShift("-", b + Marker, j);
      }
    }
  }

  function TestYamlHead(): string { "\ntitle: \"测试文章\"\ndate: 2025" }
  function TestYamlMonth(): string { "11" }
  function TestYamlTail(): string { "23\ntags: [\"Rust\", \"Dioxus\"]\n" }

  lemma TestYamlHeadDashFree()
    ensures DashFree(TestYamlHead())
  {
  }

  lemma TestYamlTailDashFree()
    ensures DashFree(TestYamlTail())
  {
  }

  lemma TestYamlMarkerFree()
    ensures MarkerFree(TestYaml())
  {
    TestYamlHeadDashFree();
    TestYamlTailDashFree();
    var a, b, c := TestYamlHead(), TestYamlMonth(), TestYamlTail();
    DashFreeIsMarkerFree(c);
    MarkerFreeAfterDash(c);
    MarkerFreeAfterDashFree(b, "-" + c);
    MarkerFreeAfterDash(b + ("-" + c));
    MarkerFreeAfterDashFree(a, "-" + (b + ("-" + c)));
  }

  /** A well-formed document with its closing marker on its own line parses into its parts. */
  lemma ParseAssembled(yaml: string, body: string, decode: YamlDecoder)
    requires MarkerFree(yaml) && decode(yaml).Ok?
    ensures ParseFrontmatter(Marker + yaml + Marker + "\n" + body, decode) == Ok((FromYaml(yaml, decode).value, body))
  {
    SplitAssembled(yaml, "\n", body);
  }

  /**
   * The source's parser test: the YAML between the markers goes to the decoder, the
   * title is the decoded one, and the body holds the text after the closing marker.
   */
  lemma ParseFrontmatterTestVector(decode: YamlDecoder)
    requires decode(TestYaml()).Ok?
    ensures var r := ParseFrontmatter(Marker + TestYaml() + Marker + "\n" + TestBody(), decode);
      r.Ok? && r.value.0.title == decode(TestYaml()).value.title
      && r.value.1 == TestBody() && OccursAt(r.value.1, TestText(), 1)
  {
    TestYamlMarkerFree();
    ParseAssembled(TestYaml(), TestBody(), decode);
    assert TestBody()[1..1 + |TestText()|] == TestText();
  }
}
