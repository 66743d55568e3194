/**
 * The build script's copy of the pipeline. `parse_markdown_frontmatter` reads the
 * fields of a frontmatter document one by one, with defaults, and derives the slug and
 * the relative file path; `scan_and_process_blogs` files every published post into the
 * index that is written out as JSON. The copy differs from the runtime scan: a file
 * without frontmatter is left out, dates are read in one format only, and a post
 * without a readable date sorts after every dated post.
 */
module Build {
  import opened Wrappers
  import opened Text
  import opened Paths
  import opened Dates
  import opened Metadata
  import opened Markdown
  import opened Walk
  import opened Buckets
  import opened DateOrder
  import Index

  /** A `serde_yaml::Value`, with string keys and integer numbers. */
  datatype Yaml =
    | Null
    | Bool(flag: bool)
    | Number(number: int)
    | Str(text: string)
    | Sequence(items: seq<Yaml>)
    | Mapping(fields: map<string, Yaml>)

  /** The YAML library, opaque: frontmatter text to a document or an error message. */
  type YamlParser = string -> Result<Yaml, string>

  const TitleKey: string := "title"
  const DateKey: string := "date"
  const AuthorKey: string := "author"
  const TagsKey: string := "tags"
  const CategoriesKey: string := "categories"
  const SummaryKey: string := "summary"
  const CoverImageKey: string := "cover_image"
  const SlugKey: string := "slug"
  const DraftKey: string := "draft"
  const UpdatedKey: string := "updated"
  const LayoutKey: string := "layout"

  /** The title of a post whose frontmatter gives none. */
  const DefaultTitle: string := "未命名文章"

  /** The stem a slug is derived from when the path has no file stem. */
  const Untitled: string := "untitled"

  /** The walk's root directory, removed from the front of every recorded path. */
  const Root: string := "blogs"

  /** `value.get(key)`: a mapping's entry; nothing for a missing key or a non-mapping. */
  function Lookup(doc: Yaml, key: string): Option<Yaml> {
    if doc.Mapping? && key in doc.fields then Some(doc.fields[key]) else None
  }

  /** `.get(key).and_then(|v| v.as_str())` */
  function StrField(doc: Yaml, key: string): Option<string> {
    match Lookup(doc, key)
    case Some(Str(s)) => Some(s)
    case _ => None
  }

  /** `.get(key).and_then(|v| v.as_bool())` */
  function BoolField(doc: Yaml, key: string): Option<bool> {
    match Lookup(doc, key)
    case Some(Bool(b)) => Some(b)
    case _ => None
  }

  /**
   * `.iter().filter_map(|v| v.as_str().map(|s| s.to_string())).collect()`: the string
   * items of a sequence, in order, every other item dropped.
   */
  function StringItems(items: seq<Yaml>): (r: seq<string>)
    ensures |r| <= |items|
    ensures forall s :: s in r <==> Str(s) in items
  {
    if items == [] then []
    else
      var n := |items| - 1;
      assert items == items[..n] + [items[n]];
      match items[n]
      case Str(s) => StringItems(items[..n]) + [s]
      case _ => StringItems(items[..n])
  }

  /** `.get(key).and_then(|v| v.as_sequence()).map(...)`: the string items of a sequence field. */
  function ListField(doc: Yaml, key: string): Option<seq<string>> {
    match Lookup(doc, key)
    case Some(Sequence(items)) => Some(StringItems(items))
    case _ => None
  }

  /** Each string of a list as a YAML string. */
  function Strs(ss: seq<string>): (r: seq<Yaml>)
    ensures |r| == |ss|
    ensures forall i :: 0 <= i < |ss| ==> r[i] == Str(ss[i])
  {
    seq(|ss|, i requires 0 <= i < |ss| => Str(ss[i]))
  }

  /** Filtering a concatenation filters each part. */
  lemma {:induction false} StringItemsConcat(a: seq<Yaml>, b: seq<Yaml>)
    ensures StringItems(a + b) == StringItems(a) + StringItems(b)
    decreases |b|
  {
    if b == [] {
      assert a + b == a;
    } else {
      var n := |b| - 1;
      assert (a + b)[..|a + b| - 1] == a + b[..n];
      StringItemsConcat(a, b[..n]);
    }
  }

  /** A list of strings written as YAML reads back as the same list. */
  lemma {:induction false} StringItemsOfStrs(ss: seq<string>)
    ensures StringItems(Strs(ss)) == ss
  {
    if ss != [] {
      var n := |ss| - 1;
      assert Strs(ss)[..n] == Strs(ss[..n]);
      StringItemsOfStrs(ss[..n]);
      assert ss == ss[..n] + [ss[n]];
    }
  }

  /** The record the build script writes for each post. */
  datatype PostRecord = PostRecord(
    title: string,
    date: Option<string>,
    author: Option<string>,
    tags: Option<seq<string>>,
    categories: Option<seq<string>>,
    summary: Option<string>,
    coverImage: Option<string>,
    slug: string,
    draft: bool,
    updated: Option<string>,
    layout: Option<string>,
    filePath: string)

  /** `path.file_stem().unwrap_or("untitled")` */
  function SlugSource(path: string): (r: string)
    ensures FileStem(path).Some? ==> r == FileStem(path).value
    ensures FileStem(path).None? ==> r == Untitled
  {
    match FileStem(path)
    case Some(stem) => stem
    case None => Untitled
  }

  /** The slug is explicit, or the text it is derived from is ASCII. */
  predicate SlugDerivable(doc: Yaml, path: string) {
    StrField(doc, SlugKey).Some? || IsAscii(SlugSource(path))
  }

  /**
   * The build script's slug: the frontmatter's string `slug` verbatim, otherwise the
   * file stem with a `YYYY-MM-DD-` prefix (four digits, `-` at offsets 4 and 7) cut
   * off, normalised to slug text.
   */
  function BuildSlug(doc: Yaml, path: string): (r: string)
    requires SlugDerivable(doc, path)
    ensures StrField(doc, SlugKey).Some? ==> r == StrField(doc, SlugKey).value
    ensures StrField(doc, SlugKey).None? ==> IsSlugText(r) && |r| <= |SlugSource(path)|
    ensures StrField(doc, SlugKey).None? && HasDatePrefix(SlugSource(path)) ==> r == Normalize(SlugSource(path)[11..])
    ensures StrField(doc, SlugKey).None? && !HasDatePrefix(SlugSource(path)) ==> r == Normalize(SlugSource(path))
  {
    match StrField(doc, SlugKey)
    case Some(s) => s
    case None => Normalize(StripDatePrefix(SlugSource(path)))
  }

  /**
   * `path.strip_prefix("blogs").unwrap_or(path)`: the root itself becomes empty, a
   * path under the root loses the root and its separator, any other path is kept.
   */
  function StripRoot(path: string): string {
    if path == Root then ""
    else if StartsWith(path, Root + "/") then path[|Root| + 1..]
    else path
  }

  /** The recorded `file_path`: relative to the root, with every `\` turned into `/`. */
  function FilePath(path: string): (r: string)
    ensures |r| == |StripRoot(path)| <= |path|
    ensures forall i :: 0 <= i < |r| ==>
      r[i] == (if StripRoot(path)[i] == '\\' then '/' else StripRoot(path)[i])
    ensures forall i :: 0 <= i < |r| ==> r[i] != '\\'
  {
    ReplaceChar(StripRoot(path), '\\', '/')
  }

  /** A file the walk finds under the root is recorded by its relative path, separators turned to `/`. */
  lemma FilePathOfWalkedFile(rel: string)
    ensures FilePath(Root + "/" + rel) == ReplaceChar(rel, '\\', '/')
  {
    var path := Root + "/" + rel;
    assert path[..|Root + "/"|] == Root + "/";
    assert path[|Root| + 1..] == rel;
  }

  /** A path outside the root, such as one in a sibling `blogs-old` directory, keeps its text but for separators. */
  lemma FilePathOutsideRoot(path: string)
    requires path != Root && !StartsWith(path, Root + "/")
    ensures FilePath(path) == ReplaceChar(path, '\\', '/')
  {
  }

  /** A Windows-style relative path under the root is recorded with `/` separators. */
  lemma FilePathTestVector()
    ensures FilePath("blogs/2024\\post.md") == "2024/post.md"
  {
    FilePathOfWalkedFile("2024\\post.md");
  }

  /** The record `parse_markdown_frontmatter` builds from a parsed document. */
  function Record(doc: Yaml, path: string): (r: PostRecord)
    requires SlugDerivable(doc, path)
    ensures StrField(doc, TitleKey).Some? ==> r.title == StrField(doc, TitleKey).value
    ensures StrField(doc, TitleKey).None? ==> r.title == DefaultTitle
    ensures r.draft <==> BoolField(doc, DraftKey) == Some(true)
    ensures r.tags.Some? <==> Lookup(doc, TagsKey).Some? && Lookup(doc, TagsKey).value.Sequence?
    ensures r.tags.Some? ==> r.tags.value == StringItems(Lookup(doc, TagsKey).value.items)
    ensures r.categories.Some? <==> Lookup(doc, CategoriesKey).Some? && Lookup(doc, CategoriesKey).value.Sequence?
    ensures r.categories.Some? ==> r.categories.value == StringItems(Lookup(doc, CategoriesKey).value.items)
    ensures r.slug == BuildSlug(doc, path) && r.filePath == FilePath(path)
  {
    PostRecord(
      title := match StrField(doc, TitleKey) case Some(t) => t case None => DefaultTitle,
      date := StrField(doc, DateKey),
      author := StrField(doc, AuthorKey),
      tags := ListField(doc, TagsKey),
      categories := ListField(doc, CategoriesKey),
      summary := StrField(doc, SummaryKey),
      coverImage := StrField(doc, CoverImageKey),
      slug := BuildSlug(doc, path),
      draft := match BoolField(doc, DraftKey) case Some(b) => b case None => false,
      updated := StrField(doc, UpdatedKey),
      layout := StrField(doc, LayoutKey),
      filePath := FilePath(path))
  }

  /**
   * A document with no fields at all, such as an empty frontmatter block, gives the
   * default record: the placeholder title, not a draft, every optional field absent,
   * and the slug derived from the file name.
   */
  lemma EmptyDocumentDefaults(path: string)
    requires IsAscii(SlugSource(path))
    ensures var r := Record(Null, path);
      r.title == DefaultTitle && !r.draft && r.slug == Normalize(StripDatePrefix(SlugSource(path)))
      && r.date.None? && r.author.None? && r.tags.None? && r.categories.None? && r.summary.None?
      && r.coverImage.None? && r.updated.None? && r.layout.None?
  {
  }

  /** The keys `parse_markdown_frontmatter` reads. */
  const FieldKeys: set<string> :=
    {TitleKey, DateKey, AuthorKey, TagsKey, CategoriesKey, SummaryKey, CoverImageKey, SlugKey, DraftKey, UpdatedKey, LayoutKey}

  function OptionalStr(value: Option<string>): Option<Yaml> {
    match value
    case Some(s) => Some(Str(s))
    case None => None
  }

  function OptionalList(value: Option<seq<string>>): Option<Yaml> {
    match value
    case Some(ss) => Some(Sequence(Strs(ss)))
    case None => None
  }

  /** The value a record writes under `key`, if it writes one; the slug is always explicit. */
  function FieldValue(r: PostRecord, key: string): Option<Yaml> {
    if key == TitleKey then Some(Str(r.title))
    else if key == SlugKey then Some(Str(r.slug))
    else if key == DraftKey then Some(Bool(r.draft))
    else if key == DateKey then OptionalStr(r.date)
    else if key == AuthorKey then OptionalStr(r.author)
    else if key == TagsKey then OptionalList(r.tags)
    else if key == CategoriesKey then OptionalList(r.categories)
    else if key == SummaryKey then OptionalStr(r.summary)
    else if key == CoverImageKey then OptionalStr(r.coverImage)
    else if key == UpdatedKey then OptionalStr(r.updated)
    else if key == LayoutKey then OptionalStr(r.layout)
    else None
  }

  /** A record written back as a frontmatter document: one entry per present field. */
  function ToYaml(r: PostRecord): Yaml {
    Mapping(map key | key in FieldKeys && FieldValue(r, key).Some? :: FieldValue(r, key).value)
  }

  lemma LookupToYaml(r: PostRecord, key: string)
    requires key in FieldKeys
    ensures Lookup(ToYaml(r), key) == FieldValue(r, key)
  {
  }

  lemma ReadsStr(r: PostRecord, key: string, value: Option<string>)
    requires key in FieldKeys && FieldValue(r, key) == OptionalStr(value)
    ensures StrField(ToYaml(r), key) == value
  {
    LookupToYaml(r, key);
  }

  lemma ReadsList(r: PostRecord, key: string, value: Option<seq<string>>)
    requires key in FieldKeys && FieldValue(r, key) == OptionalList(value)
    ensures ListField(ToYaml(r), key) == value
  {
    LookupToYaml(r, key);
    if value.Some? {
      StringItemsOfStrs(value.value);
    }
  }

  /**
   * Reading back a record's document gives the record again, for a record whose file
   * path is the one its path yields: every field is read from its own key.
   */
  lemma {:induction false} RecordOfToYaml(r: PostRecord, path: string)
    requires r.filePath == FilePath(path)
    ensures SlugDerivable(ToYaml(r), path)
    ensures Record(ToYaml(r), path) == r
  {
    ReadsStr(r, TitleKey, Some(r.title));
    ReadsStr(r, SlugKey, Some(r.slug));
    LookupToYaml(r, DraftKey);
    ReadsStr(r, DateKey, r.date);
    ReadsStr(r, AuthorKey, r.author);
    ReadsList(r, TagsKey, r.tags);
    ReadsList(r, CategoriesKey, r.categories);
    ReadsStr(r, SummaryKey, r.summary);
    ReadsStr(r, CoverImageKey, r.coverImage);
    ReadsStr(r, UpdatedKey, r.updated);
    ReadsStr(r, LayoutKey, r.layout);
  }

  /**
   * The part of `parse_markdown_frontmatter` before the record is built: the read
   * error, no frontmatter, the missing closing marker, the YAML error, or the document.
   */
  function ParsedFrontmatter(entry: Entry, parse: YamlParser): (r: Result<Option<Yaml>, LoadError>)
    ensures entry.text.None? ==> r == Err(ReadFailed)
    ensures entry.text.Some? ==>
      (r == Ok(None) <==> !StartsWith(entry.text.value, Marker))
      && (r == Err(MissingClosingMarker) <==> SplitFrontmatter(entry.text.value).Unclosed?)
    ensures r.Ok? && r.value.Some? ==>
      SplitFrontmatter(entry.text.value).Delimited? && parse(SplitFrontmatter(entry.text.value).yaml) == Ok(r.value.value)
  {
    match entry.text
    case None => Err(ReadFailed)
    case Some(content) =>
      match SplitFrontmatter(content)
      case NoFrontmatter => Ok(None)
      case Unclosed => Err(MissingClosingMarker)
      case Delimited(yaml, _) =>
        match parse(yaml)
        case Err(message) => Err(InvalidYaml(message))
        case Ok(doc) => Ok(Some(doc))
  }

  /** A file whose document is parsed reaches the slug derivation only with a derivable slug. */
  predicate Ready(entry: Entry, parse: YamlParser) {
    var parsed := ParsedFrontmatter(entry, parse);
    parsed.Ok? && parsed.value.Some? ==> SlugDerivable(parsed.value.value, entry.path)
  }

  /**
   * `parse_markdown_frontmatter`: a file that cannot be read is an error; text that
   * does not start with `---` has no record; a block with no closing `---` is an error;
   * otherwise the text between the markers is parsed, and a parse failure is an error.
   */
  function ParseMarkdownFrontmatter(entry: Entry, parse: YamlParser): (r: Result<Option<PostRecord>, LoadError>)
    requires Ready(entry, parse)
    ensures entry.text.None? ==> r == Err(ReadFailed)
    ensures entry.text.Some? && !StartsWith(entry.text.value, Marker) ==> r == Ok(None)
    ensures entry.text.Some? && SplitFrontmatter(entry.text.value).Unclosed? ==> r == Err(MissingClosingMarker)
    ensures entry.text.Some? && SplitFrontmatter(entry.text.value).Delimited? ==>
      var yaml := SplitFrontmatter(entry.text.value).yaml;
      (r.Err? <==> parse(yaml).Err?)
      && (r.Ok? ==> SlugDerivable(parse(yaml).value, entry.path) && r == Ok(Some(Record(parse(yaml).value, entry.path))))
  {
    match ParsedFrontmatter(entry, parse)
    case Err(e) => Err(e)
    case Ok(None) => Ok(None)
    case Ok(Some(doc)) => Ok(Some(Record(doc, entry.path)))
  }

  /** A parsed document the scan keeps, with the path it came from. */
  datatype Parsed = Parsed(doc: Yaml, path: string)

  /** `draft: true` as a YAML boolean. */
  predicate Drafted(doc: Yaml) {
    BoolField(doc, DraftKey) == Some(true)
  }

  /**
   * What the build scan makes of one walked entry: the document of a Markdown file that
   * has frontmatter, parses, and is not a draft; nothing otherwise.
   */
  function BuildLoader(parse: YamlParser): Entry -> Option<Parsed> {
    (e: Entry) => if !IsMarkdown(e.path) then None
      else match ParsedFrontmatter(e, parse)
        case Ok(Some(doc)) => if Drafted(doc) then None else Some(Parsed(doc, e.path))
        case _ => None
  }

  /** The documents the build scan keeps from `entries`, in walk order. */
  function Published(entries: seq<Entry>, parse: YamlParser): seq<Parsed> {
    Kept(entries, BuildLoader(parse))
  }

  /**
   * The loop's test agrees with the loader: an entry is kept exactly when it is a
   * Markdown file whose frontmatter yields a record that is not a draft, and what is
   * kept is that record's document.
   */
  lemma LoaderAgrees(entry: Entry, parse: YamlParser)
    requires Ready(entry, parse) && IsMarkdown(entry.path)
    ensures var parsed := ParseMarkdownFrontmatter(entry, parse);
      BuildLoader(parse)(entry).Some? <==> parsed.Ok? && parsed.value.Some? && !parsed.value.value.draft
    ensures BuildLoader(parse)(entry).Some? ==>
      var x := BuildLoader(parse)(entry).value;
      x.path == entry.path && SlugDerivable(x.doc, x.path)
      && Record(x.doc, x.path) == ParseMarkdownFrontmatter(entry, parse).value.value
  {
  }

  lemma RecordsSnoc(built: seq<Parsed>, x: Parsed)
    requires AllDerivable(built) && SlugDerivable(x.doc, x.path)
    ensures AllDerivable(built + [x])
    ensures Records(built + [x]) == Records(built) + [Record(x.doc, x.path)]
  {
  }

  predicate AllDerivable(built: seq<Parsed>) {
    forall i :: 0 <= i < |built| ==> SlugDerivable(built[i].doc, built[i].path)
  }

  /** The records of the kept documents. */
  function Records(built: seq<Parsed>): (r: seq<PostRecord>)
    requires AllDerivable(built)
    ensures |r| == |built|
    ensures forall i :: 0 <= i < |built| ==> r[i] == Record(built[i].doc, built[i].path)
  {
    seq(|built|, i requires 0 <= i < |built| && AllDerivable(built) => Record(built[i].doc, built[i].path))
  }

  /**
   * The build scan keeps exactly the Markdown files with frontmatter that parses and
   * is not a draft: no kept record is a draft, and every such file is kept.
   */
  lemma PublishedExactly(entries: seq<Entry>, parse: YamlParser)
    requires forall i :: 0 <= i < |entries| ==> Ready(entries[i], parse)
    ensures AllDerivable(Published(entries, parse))
    ensures forall k :: 0 <= k < |Published(entries, parse)| ==>
      IsMarkdown(Published(entries, parse)[k].path) && !Records(Published(entries, parse))[k].draft
    ensures forall i :: (0 <= i < |entries| && IsMarkdown(entries[i].path) &&
      ParsedFrontmatter(entries[i], parse).Ok? && ParsedFrontmatter(entries[i], parse).value.Some? &&
      !Drafted(ParsedFrontmatter(entries[i], parse).value.value)) ==>
        Parsed(ParsedFrontmatter(entries[i], parse).value.value, entries[i].path) in Published(entries, parse)
  {
    var load := BuildLoader(parse);
    forall k | 0 <= k < |Kept(entries, load)|
      ensures var x := Kept(entries, load)[k];
        IsMarkdown(x.path) && !Drafted(x.doc) && SlugDerivable(x.doc, x.path)
    {
      KeepsNothingElse(entries, k, load);
      var i :| 0 <= i < |entries| && load(entries[i]) == Some(Kept(entries, load)[k]);
      assert Ready(entries[i], parse);
    }
    forall i | 0 <= i < |entries| && IsMarkdown(entries[i].path) &&
      ParsedFrontmatter(entries[i], parse).Ok? && ParsedFrontmatter(entries[i], parse).value.Some? &&
      !Drafted(ParsedFrontmatter(entries[i], parse).value.value)
      ensures Parsed(ParsedFrontmatter(entries[i], parse).value.value, entries[i].path) in Kept(entries, load)
    {
      KeepsEveryYield(entries, i, load);
    }
  }

  /** A file that fails to load is logged and skipped; the scan goes on as if it were absent. */
  lemma FailedFileSkipped(entries: seq<Entry>, e: Entry, parse: YamlParser)
    requires ParsedFrontmatter(e, parse).Err?
    ensures Published(entries + [e], parse) == Published(entries, parse)
  {
    SkippedEntryChangesNothing(entries, e, BuildLoader(parse));
  }

  /** The sort key of a record: its date string read as `%Y-%m-%d`, none when absent or unreadable. */
  function BuildKey(r: PostRecord): (k: SortKey)
    ensures k.Some? <==> r.date.Some? && ParseDate(r.date.value, '-').Some?
    ensures k.Some? ==> FourDigitDate(k.value) && FormatDate(k.value, '-') == r.date.value
  {
    match r.date
    case None => None
    case Some(d) => ParseDate(d, '-')
  }

  function Keys(posts: seq<PostRecord>): (r: seq<SortKey>)
    ensures |r| == |posts|
    ensures forall i :: 0 <= i < |posts| ==> r[i] == BuildKey(posts[i])
  {
    seq(|posts|, i requires 0 <= i < |posts| => BuildKey(posts[i]))
  }

  function TagLists(posts: seq<PostRecord>): (r: seq<seq<string>>)
    ensures |r| == |posts|
    ensures forall i :: 0 <= i < |posts| ==> r[i] == Index.LabelsOf(posts[i].tags)
  {
    seq(|posts|, i requires 0 <= i < |posts| => Index.LabelsOf(posts[i].tags))
  }

  function CategoryLists(posts: seq<PostRecord>): (r: seq<seq<string>>)
    ensures |r| == |posts|
    ensures forall i :: 0 <= i < |posts| ==> r[i] == Index.LabelsOf(posts[i].categories)
  {
    seq(|posts|, i requires 0 <= i < |posts| => Index.LabelsOf(posts[i].categories))
  }

  /** The index the build script writes out. */
  datatype IndexJson = IndexJson(posts: seq<PostRecord>, tags: Buckets, categories: Buckets, sortedByDate: seq<nat>)

  /** Every position the index holds names one of its posts. */
  ghost predicate WellFormed(index: IndexJson) {
    (forall t, i :: t in index.tags && 0 <= i < |index.tags[t]| ==> index.tags[t][i] < |index.posts|)
    && (forall t, i :: t in index.categories && 0 <= i < |index.categories[t]| ==> index.categories[t][i] < |index.posts|)
    && (forall i :: 0 <= i < |index.sortedByDate| ==> index.sortedByDate[i] < |index.posts|)
  }

  /** The scan's working state describes the records filed so far. */
  ghost predicate Tracks(posts: seq<PostRecord>, tags: Buckets, categories: Buckets, postsWithDates: seq<Keyed>) {
    Represents(tags, TagLists(posts))
    && Represents(categories, CategoryLists(posts))
    && postsWithDates == Enumerate(Keys(posts))
  }

  /**
   * The loop's work for a published record: push it, file its position under each of
   * its tags and categories, and record its date as read with `%Y-%m-%d`.
   */
  method FileRecord(posts: seq<PostRecord>, tags: Buckets, categories: Buckets, postsWithDates: seq<Keyed>,
                    record: PostRecord)
    returns (posts': seq<PostRecord>, tags': Buckets, categories': Buckets, postsWithDates': seq<Keyed>)
    requires Tracks(posts, tags, categories, postsWithDates)
    ensures posts' == posts + [record]
    ensures Tracks(posts', tags', categories', postsWithDates')
  {
    var postIdx := |posts|;
    posts' := posts + [record];
    tags' := AddToBuckets(tags, Index.LabelsOf(record.tags), postIdx);
    FilingExtends(tags, tags', TagLists(posts), Index.LabelsOf(record.tags));
    assert TagLists(posts') == TagLists(posts) + [Index.LabelsOf(record.tags)];
    categories' := AddToBuckets(categories, Index.LabelsOf(record.categories), postIdx);
    FilingExtends(categories, categories', CategoryLists(posts), Index.LabelsOf(record.categories));
    assert CategoryLists(posts') == CategoryLists(posts) + [Index.LabelsOf(record.categories)];
    var date := match record.date
      case None => None
      case Some(d) => ParseDate(d, '-');
    postsWithDates' := postsWithDates + [Keyed(postIdx, date)];
    assert Keys(posts') == Keys(posts) + [date];
    Index.EnumerateSnoc(Keys(posts), date);
  }

  /**
   * `scan_and_process_blogs`: walks the entries in order; every Markdown file with
   * frontmatter that parses and is not a draft is appended to the posts and filed under
   * each of its tags and categories; files that fail are logged and skipped. The
   * positions are then sorted newest first, undated posts last.
   */
  method ScanAndProcessBlogs(entries: seq<Entry>, parse: YamlParser) returns (index: IndexJson)
    requires forall i :: 0 <= i < |entries| ==> Ready(entries[i], parse)
    ensures AllDerivable(Published(entries, parse))
    ensures index.posts == Records(Published(entries, parse))
    ensures Represents(index.tags, TagLists(index.posts))
    ensures Represents(index.categories, CategoryLists(index.posts))
    ensures index.sortedByDate == NewestFirst(Keys(index.posts))
    ensures WellFormed(index)
  {
    var posts: seq<PostRecord> := [];
    var tags: Buckets := map[];
    var categories: Buckets := map[];
    var postsWithDates: seq<Keyed> := [];
    ghost var built: seq<Parsed> := [];
    for i := 0 to |entries|
      invariant built == Published(entries[..i], parse)
      invariant AllDerivable(built) && posts == Records(built)
      invariant Tracks(posts, tags, categories, postsWithDates)
    {
      var entry := entries[i];
      KeptStep(entries, i, BuildLoader(parse));
      assert Ready(entries[i], parse);
      if IsMarkdown(entry.path) {
        LoaderAgrees(entry, parse);
        var parsed := ParseMarkdownFrontmatter(entry, parse);
        if parsed.Ok? && parsed.value.Some? && !parsed.value.value.draft {
          var metadata := parsed.value.value;
          ghost var x := BuildLoader(parse)(entry).value;
          posts, tags, categories, postsWithDates := FileRecord(posts, tags, categories, postsWithDates, metadata);
          RecordsSnoc(built, x);
          built := built + [x];
        }
      } else {
        assert BuildLoader(parse)(entry).None?;
      }
    }
    assert entries[..|entries|] == entries;
    index := IndexJson(posts, tags, categories, Firsts(SortByKey(postsWithDates)));
    RepresentsInRange(tags, TagLists(posts));
    RepresentsInRange(categories, CategoryLists(posts));
  }

  // ---------------------------------------------------------------------------
  // Where the build script and the runtime scan disagree.
  // ---------------------------------------------------------------------------

  /**
   * A Markdown file without frontmatter: the runtime scan keeps it as a post with
   * default metadata and the whole text as its body; the build script leaves it out.
   */
  lemma NoFrontmatterDivergence(entry: Entry, decode: YamlDecoder, render: Renderer, parse: YamlParser)
    requires IsMarkdown(entry.path) && entry.text.Some? && !StartsWith(entry.text.value, Marker)
    ensures Index.Load(entry, decode, render) == Some(Post(New(), entry.text.value, render(entry.text.value)))
    ensures BuildLoader(parse)(entry).None?
  {
  }

  /**
   * A `YYYY/MM/DD` date: the runtime reads it as that date; the build script cannot
   * read it, and the post sorts with the undated ones.
   */
  lemma SlashDateDivergence(d: Date, r: PostRecord)
    requires FourDigitDate(d) && r.date == Some(FormatDate(d, '/'))
    ensures DeserializeDate(r.date) == Some(d)
    ensures BuildKey(r) == None
  {
    DeserializeDateAcceptsBothForms(d);
  }

  /** In the written index every dated post comes before every post without a readable date. */
  lemma DatedPostsFirst(index: IndexJson, i: nat, j: nat)
    requires index.sortedByDate == NewestFirst(Keys(index.posts))
    requires i < |index.posts| && j < |index.posts|
    requires BuildKey(index.posts[index.sortedByDate[i]]).None? && BuildKey(index.posts[index.sortedByDate[j]]).Some?
    ensures j < i
  {
    DatedBeforeUndated(Keys(index.posts), i, j);
  }

  /** With no explicit slug the build script derives what the intended `get_slug` derives. */
  lemma BuildSlugMatchesGetSlug(doc: Yaml, m: PostMetadata, path: string)
    requires FileStem(path).Some? && IsAscii(path)
    requires StrField(doc, SlugKey) == m.slug
    ensures SlugDerivable(doc, path)
    ensures BuildSlug(doc, path) == GetSlug(m, path)
  {
  }

  /** The source's slug test file name is ASCII and has a file stem. */
  lemma TestFileNameFacts()
    ensures IsAscii(TestFileName()) && FileStem(TestFileName()).Some?
  {
    TestFileNameIsAscii();
    TestFileStem();
  }

  /** The source's slug test file, `2025-11-23-test-article.md`: the build script yields `test-article`. */
  lemma BuildSlugTestVector(doc: Yaml)
    requires StrField(doc, SlugKey).None?
    ensures SlugDerivable(doc, TestFileName()) && BuildSlug(doc, TestFileName()) == "test-article"
  {
    TestFileNameFacts();
    BuildSlugMatchesGetSlug(doc, New(), TestFileName());
    GetSlugTestVector(New());
  }

  /** On the same file, metadata.rs as written and the build script derive different slugs. */
  lemma SlugDivergenceTestVector(doc: Yaml, m: PostMetadata)
    requires StrField(doc, SlugKey).None? && m.slug.None?
    ensures IsAscii(TestFileName()) && SlugDerivable(doc, TestFileName())
    ensures GetSlugAsWritten(m, TestFileName()) != BuildSlug(doc, TestFileName())
  {
    TestFileNameIsAscii();
    BuildSlugTestVector(doc);
    GetSlugAsWrittenTestVector(m);
  }

  /** A stem without `-` at offset 4, such as `2025x-notes`, is normalised whole. */
  lemma NoDashNoStrip(doc: Yaml, path: string)
    requires StrField(doc, SlugKey).None? && IsAscii(SlugSource(path))
    requires |SlugSource(path)| > 4 && SlugSource(path)[4] != '-'
    ensures BuildSlug(doc, path) == Normalize(SlugSource(path))
  {
  }
}
