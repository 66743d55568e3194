/**
 * The runtime post index: `PostIndex` and its queries, `scan_blogs_directory`, which
 * walks the blog directory, loads every Markdown file and files each published post
 * under its tags, its categories and the newest-first order, and
 * `extract_date_from_filename`, the fallback date of a post without one.
 */
module Index {
  import opened Wrappers
  import opened Text
  import opened Utf8
  import opened Paths
  import opened Dates
  import opened Metadata
  import opened Markdown
  import opened Walk
  import opened Buckets
  import opened DateOrder

  /**
   * `PostIndex`: the published posts in walk order, tag and category to post
   * positions, and the positions newest first.
   */
  datatype PostIndex = PostIndex(posts: seq<Post>, tags: Buckets, categories: Buckets, sortedByDate: seq<nat>)

  /** `PostIndex::new()` */
  function Empty(): (r: PostIndex)
    ensures r.posts == [] && r.sortedByDate == [] && WellFormed(r)
    ensures Represents(r.tags, []) && Represents(r.categories, [])
  {
    EmptyRepresentsNothing();
    PostIndex([], map[], map[], [])
  }

  /** Every position the index holds names one of its posts. */
  ghost predicate WellFormed(index: PostIndex) {
    (forall t, i :: t in index.tags && 0 <= i < |index.tags[t]| ==> index.tags[t][i] < |index.posts|)
    && (forall t, i :: t in index.categories && 0 <= i < |index.categories[t]| ==> index.categories[t][i] < |index.posts|)
    && (forall i :: 0 <= i < |index.sortedByDate| ==> index.sortedByDate[i] < |index.posts|)
  }

  /**
   * `filter_map(|&idx| posts.get(idx))`: the posts at the given positions, in order,
   * with positions past the end skipped.
   */
  function PostsAt(positions: seq<nat>, posts: seq<Post>): (r: seq<Post>)
    ensures |r| <= |positions|
    ensures forall p :: p in r ==> p in posts
    ensures (forall i :: 0 <= i < |positions| ==> positions[i] < |posts|) ==>
      |r| == |positions| && forall i :: 0 <= i < |r| ==> r[i] == posts[positions[i]]
  {
    if positions == [] then []
    else
      var rest := PostsAt(positions[1..], posts);
      var here := if positions[0] < |posts| then [posts[positions[0]]] else [];
      assert forall i :: 1 <= i < |positions| ==> positions[1..][i - 1] == positions[i];
      here + rest
  }

  /** `get_posts_by_tag`: the posts filed under `tag`, none when the tag is unknown. */
  function GetPostsByTag(index: PostIndex, tag: string): (r: seq<Post>)
    ensures tag !in index.tags ==> r == []
    ensures forall p :: p in r ==> p in index.posts
    ensures WellFormed(index) && tag in index.tags ==>
      |r| == |index.tags[tag]| && forall i :: 0 <= i < |r| ==> r[i] == index.posts[index.tags[tag][i]]
  {
    PostsAt(Get(index.tags, tag), index.posts)
  }

  /** `get_posts_by_category`: the posts filed under `category`. */
  function GetPostsByCategory(index: PostIndex, category: string): (r: seq<Post>)
    ensures category !in index.categories ==> r == []
    ensures forall p :: p in r ==> p in index.posts
    ensures WellFormed(index) && category in index.categories ==>
      |r| == |index.categories[category]|
      && forall i :: 0 <= i < |r| ==> r[i] == index.posts[index.categories[category][i]]
  {
    PostsAt(Get(index.categories, category), index.posts)
  }

  /** `iter().take(n)` */
  function Take(s: seq<nat>, n: nat): (r: seq<nat>)
    ensures |r| == if n <= |s| then n else |s|
    ensures r == s[..|r|]
  {
    if n <= |s| then s[..n] else s
  }

  /** `get_recent_posts`: the first `count` posts of the newest-first order. */
  function GetRecentPosts(index: PostIndex, count: nat): (r: seq<Post>)
    ensures |r| <= count && forall p :: p in r ==> p in index.posts
    ensures WellFormed(index) ==>
      |r| == (if count <= |index.sortedByDate| then count else |index.sortedByDate|)
      && forall i :: 0 <= i < |r| ==> r[i] == index.posts[index.sortedByDate[i]]
  {
    PostsAt(Take(index.sortedByDate, count), index.posts)
  }

  /** `get_all_posts` */
  function GetAllPosts(index: PostIndex): (r: seq<Post>)
    ensures r == index.posts
  {
    index.posts
  }

  /** The source's empty-index test, for every query: a new index answers nothing. */
  lemma EmptyIndexAnswersNothing(count: nat, name: string)
    ensures |GetAllPosts(Empty())| == 0 && |GetRecentPosts(Empty(), count)| == 0
    ensures GetPostsByTag(Empty(), name) == [] && GetPostsByCategory(Empty(), name) == []
  {
  }

  /**
   * Querying a label of an exact label index: the posts that list the label, in walk
   * order, each once per time it lists the label, and no other post.
   */
  lemma {:induction false} LabelQuery(m: Buckets, lists: seq<seq<string>>, posts: seq<Post>, t: string)
    requires |lists| == |posts| && Represents(m, lists)
    ensures |PostsAt(Get(m, t), posts)| == |Positions(lists, t)|
    ensures forall i :: 0 <= i < |Positions(lists, t)| ==>
      PostsAt(Get(m, t), posts)[i] == posts[Positions(lists, t)[i]] && t in lists[Positions(lists, t)[i]]
    ensures forall p :: 0 <= p < |posts| && t in lists[p] ==> p in Positions(lists, t)
  {
    assert Get(m, t) == Positions(lists, t);
  }

  /** `get_posts_by_tag` on a scanned index: exactly the kept posts that list the tag, in walk order. */
  lemma PostsByTagOfScan(index: PostIndex, loaded: seq<Loaded>, tag: string)
    requires index.posts == PostsOf(loaded) && Represents(index.tags, TagLists(loaded))
    ensures |GetPostsByTag(index, tag)| == |Positions(TagLists(loaded), tag)|
    ensures forall i :: 0 <= i < |GetPostsByTag(index, tag)| ==>
      Positions(TagLists(loaded), tag)[i] < |loaded| &&
      GetPostsByTag(index, tag)[i] == loaded[Positions(TagLists(loaded), tag)[i]].post &&
      tag in LabelsOf(GetPostsByTag(index, tag)[i].metadata.tags)
    ensures forall p :: 0 <= p < |loaded| && tag in LabelsOf(loaded[p].post.metadata.tags) ==>
      loaded[p].post in GetPostsByTag(index, tag)
  {
    LabelQuery(index.tags, TagLists(loaded), index.posts, tag);
    forall p | 0 <= p < |loaded| && tag in LabelsOf(loaded[p].post.metadata.tags)
      ensures loaded[p].post in GetPostsByTag(index, tag)
    {
      var bucket := Positions(TagLists(loaded), tag);
      var i :| 0 <= i < |bucket| && bucket[i] == p;
      assert GetPostsByTag(index, tag)[i] == loaded[p].post;
    }
  }

  /** `get_posts_by_category` on a scanned index: exactly the kept posts in the category, in walk order. */
  lemma PostsByCategoryOfScan(index: PostIndex, loaded: seq<Loaded>, category: string)
    requires index.posts == PostsOf(loaded) && Represents(index.categories, CategoryLists(loaded))
    ensures |GetPostsByCategory(index, category)| == |Positions(CategoryLists(loaded), category)|
    ensures forall i :: 0 <= i < |GetPostsByCategory(index, category)| ==>
      Positions(CategoryLists(loaded), category)[i] < |loaded| &&
      GetPostsByCategory(index, category)[i] == loaded[Positions(CategoryLists(loaded), category)[i]].post &&
      category in LabelsOf(GetPostsByCategory(index, category)[i].metadata.categories)
    ensures forall p :: 0 <= p < |loaded| && category in LabelsOf(loaded[p].post.metadata.categories) ==>
      loaded[p].post in GetPostsByCategory(index, category)
  {
    LabelQuery(index.categories, CategoryLists(loaded), index.posts, category);
    forall p | 0 <= p < |loaded| && category in LabelsOf(loaded[p].post.metadata.categories)
      ensures loaded[p].post in GetPostsByCategory(index, category)
    {
      var bucket := Positions(CategoryLists(loaded), category);
      var i :| 0 <= i < |bucket| && bucket[i] == p;
      assert GetPostsByCategory(index, category)[i] == loaded[p].post;
    }
  }

  /**
   * `get_recent_posts` on an index ordered newest first: the first `count` positions of
   * the order (all of them when fewer), and no post left out is newer than one returned.
   */
  lemma {:induction false} RecentPostsAreNewest(index: PostIndex, keys: seq<SortKey>, count: nat)
    requires |keys| == |index.posts| && index.sortedByDate == NewestFirst(keys)
    ensures |GetRecentPosts(index, count)| == if count <= |keys| then count else |keys|
    ensures forall i :: 0 <= i < |GetRecentPosts(index, count)| ==>
      GetRecentPosts(index, count)[i] == index.posts[index.sortedByDate[i]]
    ensures forall i, q :: 0 <= i < |GetRecentPosts(index, count)| <= q < |keys| ==>
      Compare(keys[index.sortedByDate[i]], keys[index.sortedByDate[q]]) != Greater
    ensures forall p :: 0 <= p < |keys| ==> p in index.sortedByDate
  {
    var order := index.sortedByDate;
    forall p | 0 <= p < |keys|
      ensures p in order
    {
      assert Range(|keys|)[p] == p;
      assert p in multiset(Range(|keys|));
    }
  }

  /**
   * The test of `get_post_by_slug`: the slug `get_slug("")` derives, or the explicit
   * slug. With no file name to derive from, the first is the explicit slug or "".
   */
  predicate SlugMatches(post: Post, slug: string) {
    GetSlug(post.metadata, "") == slug || (post.metadata.slug.Some? && post.metadata.slug.value == slug)
  }

  /**
   * A post answers to its explicit slug and to nothing else; a post without one
   * answers only to the empty slug, never to the slug of its file name.
   */
  lemma SlugMatchesExactly(post: Post, slug: string)
    ensures SlugMatches(post, slug) <==>
      post.metadata.slug == Some(slug) || (post.metadata.slug.None? && slug == "")
  {
    if post.metadata.slug.None? {
      SlugOfEmptyFileName(post.metadata);
    }
  }

  /** `iter().find(...)` from position `from`: the first post that matches `slug`. */
  function FirstMatch(posts: seq<Post>, slug: string, from: nat): (r: Option<nat>)
    requires from <= |posts|
    ensures r.Some? ==> from <= r.value < |posts| && SlugMatches(posts[r.value], slug)
    ensures r.Some? ==> forall j :: from <= j < r.value ==> !SlugMatches(posts[j], slug)
    ensures r.None? <==> forall j :: from <= j < |posts| ==> !SlugMatches(posts[j], slug)
    decreases |posts| - from
  {
    if from == |posts| then None
    else if SlugMatches(posts[from], slug) then Some(from)
    else FirstMatch(posts, slug, from + 1)
  }

  /** `get_post_by_slug`: the first post that answers to `slug`, if any. */
  function GetPostBySlug(index: PostIndex, slug: string): (r: Option<Post>)
    ensures r.Some? ==> SlugMatches(r.value, slug) && r.value in index.posts
    ensures r.None? <==> forall j :: 0 <= j < |index.posts| ==> !SlugMatches(index.posts[j], slug)
    ensures r.Some? ==> exists i :: 0 <= i < |index.posts| && index.posts[i] == r.value &&
                                    forall j :: 0 <= j < i ==> !SlugMatches(index.posts[j], slug)
  {
    match FirstMatch(index.posts, slug, 0)
    case None => None
    case Some(i) => Some(index.posts[i])
  }

  /** The character tests `extract_date_from_filename` makes on its ten-byte prefix. */
  predicate PassesDateChecks(d: string) {
    (forall i :: 0 <= i < 4 && i < |d| ==> IsDigit(d[i]))
    && 4 < |d| && d[4] == '-'
    && (forall i :: 5 <= i < 7 && i < |d| ==> IsDigit(d[i]))
    && 7 < |d| && d[7] == '-'
    && (forall i :: 8 <= i < 10 && i < |d| ==> IsDigit(d[i]))
  }

  /**
   * A ten-byte text passes the tests only when it is ten ASCII chars shaped like a
   * date: a multi-byte char among the last two bytes fails the digit test.
   */
  lemma {:induction false} DateChecksOnTenBytes(d: string)
    requires ByteLen(d) == 10 && PassesDateChecks(d)
    ensures |d| == 10 && IsAscii(d) && HasDateShape(d, '-')
  {
    assert IsAscii(d[..8]);
    AsciiByteLen(d[..8]);
    assert d == d[..8] + d[8..];
    ByteLenConcat(d[..8], d[8..]);
    var t := d[8..];
    assert t != [];
    assert t[0] == d[8] && IsDigit(d[8]);
    assert ByteLen(t[1..]) == 1;
    assert t[1..] != [];
    assert t[1] == d[9] && IsDigit(d[9]);
    assert ByteLen(t[2..]) == 0;
    assert t == t[..2] + t[2..];
    assert |t| == 2;
  }

  /** `&filename[..10]` does not panic: the stem is short, or byte 10 is a char boundary. */
  predicate ExtractDefined(path: string) {
    match FileStem(path)
    case None => true
    case Some(stem) => ByteLen(stem) < 10 || IsCharBoundary(stem, 10)
  }

  /** Text shaped like a date is ASCII and passes the character tests. */
  lemma DateShapePassesChecks(d: string)
    requires HasDateShape(d, '-')
    ensures IsAscii(d) && PassesDateChecks(d)
  {
    assert forall i :: 0 <= i < 4 ==> d[..4][i] == d[i];
    assert forall i :: 5 <= i < 7 ==> d[5..7][i - 5] == d[i];
    assert forall i :: 8 <= i < 10 ==> d[8..][i - 8] == d[i];
  }

  lemma {:induction false} ChecksReadCharPrefix(stem: string)
    requires IsCharBoundary(stem, 10) && PassesDateChecks(BytePrefix(stem, 10))
    ensures |stem| >= 10 && BytePrefix(stem, 10) == stem[..10] && HasDateShape(stem[..10], '-')
  {
    var d := BytePrefix(stem, 10);
    DateChecksOnTenBytes(d);
  }

  lemma {:induction false} DatedCharPrefixPassesChecks(stem: string)
    requires |stem| >= 10 && HasDateShape(stem[..10], '-')
    ensures IsCharBoundary(stem, 10) && ByteLen(stem) >= 10
    ensures BytePrefix(stem, 10) == stem[..10] && PassesDateChecks(stem[..10])
  {
    var d := stem[..10];
    DateShapePassesChecks(d);
    AsciiPrefixIsBytePrefix(stem, 10);
    assert stem == d + stem[10..];
    ByteLenConcat(d, stem[10..]);
  }

  /** The byte-level tests on `&stem[..10]` accept exactly the stems whose first ten chars spell a date. */
  lemma {:induction false} DatePrefixAgrees(stem: string)
    requires ByteLen(stem) < 10 || IsCharBoundary(stem, 10)
    ensures (ByteLen(stem) >= 10 && PassesDateChecks(BytePrefix(stem, 10)) && ParseDate(BytePrefix(stem, 10), '-').Some?)
      <==> (|stem| >= 10 && ParseDate(stem[..10], '-').Some?)
    ensures ByteLen(stem) >= 10 && PassesDateChecks(BytePrefix(stem, 10)) ==>
      |stem| >= 10 && BytePrefix(stem, 10) == stem[..10]
  {
    if ByteLen(stem) >= 10 && PassesDateChecks(BytePrefix(stem, 10)) {
      ChecksReadCharPrefix(stem);
    }
    if |stem| >= 10 && ParseDate(stem[..10], '-').Some? {
      assert HasDateShape(stem[..10], '-');
      DatedCharPrefixPassesChecks(stem);
    }
  }

  /**
   * `extract_date_from_filename`: the date the first ten bytes of the file stem spell,
   * when they pass the `YYYY-MM-DD` character tests and chrono reads a valid date.
   * In char terms: the stem's first ten chars are the text of a valid date.
   */
  function ExtractDateFromFilename(path: string): (r: Option<Date>)
    requires ExtractDefined(path)
    ensures r.Some? <==> (FileStem(path).Some? && |FileStem(path).value| >= 10 &&
                          ParseDate(FileStem(path).value[..10], '-').Some?)
    ensures r.Some? ==> FourDigitDate(r.value) && FormatDate(r.value, '-') == FileStem(path).value[..10]
  {
    match FileStem(path)
    case None => None
    case Some(stem) =>
      DatePrefixAgrees(stem);
      if ByteLen(stem) >= 10 then
        var dateStr := BytePrefix(stem, 10);
        if PassesDateChecks(dateStr) then ParseDate(dateStr, '-') else None
      else None
  }

  /** A file named after a valid date yields that date. */
  lemma {:induction false} DatedFileName(d: Date, rest: string)
    requires FourDigitDate(d)
    requires forall i :: 0 <= i < |rest| ==> rest[i] != '/' && rest[i] != '.'
    ensures ExtractDefined(FormatDate(d, '-') + rest + ".md")
    ensures ExtractDateFromFilename(FormatDate(d, '-') + rest + ".md") == Some(d)
  {
    var stem := FormatDate(d, '-') + rest;
    DatedFileStem(d, rest);
    assert stem[..10] == FormatDate(d, '-');
    ParseFormattedDate(d, '-');
    assert HasDateShape(stem[..10], '-');
    assert IsAscii(stem[..10]) by {
      var s := stem[..10];
      forall i | 0 <= i < 10 ensures IsAsciiChar(s[i]) {
        if i < 4 { assert s[..4][i] == s[i]; }
        else if 5 <= i < 7 { assert s[5..7][i - 5] == s[i]; }
        else if 8 <= i { assert s[8..][i - 8] == s[i]; }
      }
    }
    AsciiPrefixIsBytePrefix(stem, 10);
  }

  /** The source's test: `2025-11-23-test-article.md` yields 2025-11-23. */
  lemma ExtractDateTestVector()
    ensures ExtractDefined(TestFileName())
    ensures ExtractDateFromFilename(TestFileName()) == Some(Date(2025, 11, 23))
  {
    TestDate();
    DatedFileName(Date(2025, 11, 23), "-test-article");
  }

  /** A post the scan keeps, with the path it was loaded from. */
  datatype Loaded = Loaded(post: Post, path: string)

  /**
   * What the scan makes of one walked entry: a post when the entry is a Markdown file
   * that loads and is not a draft; nothing otherwise.
   */
  function Load(entry: Entry, decode: YamlDecoder, render: Renderer): (r: Option<Post>)
    ensures r.Some? <==> IsMarkdown(entry.path) && ProcessedPost(entry, decode, render).Ok?
                         && !ProcessedPost(entry, decode, render).value.metadata.draft
    ensures r.Some? ==> r.value == ProcessedPost(entry, decode, render).value
  {
    if !IsMarkdown(entry.path) then None
    else match ProcessedPost(entry, decode, render)
      case Err(_) => None
      case Ok(post) => if IsDraft(post.metadata) then None else Some(post)
  }

  /** `Load` as the step the walk applies to each entry, keeping the entry's path. */
  function Loader(decode: YamlDecoder, render: Renderer): Entry -> Option<Loaded> {
    e => match Load(e, decode, render)
      case None => None
      case Some(post) => Some(Loaded(post, e.path))
  }

  /** The posts the scan keeps from `entries`, with their paths, in walk order. */
  function Admitted(entries: seq<Entry>, decode: YamlDecoder, render: Renderer): seq<Loaded> {
    Kept(entries, Loader(decode, render))
  }

  /**
   * The scan keeps exactly the Markdown files that load and are not drafts: each kept
   * post is such a file's, with the HTML rendered from its body, and each such file's
   * post is kept.
   */
  lemma AdmittedExactly(entries: seq<Entry>, decode: YamlDecoder, render: Renderer)
    ensures forall k :: 0 <= k < |Admitted(entries, decode, render)| ==>
      var x := Admitted(entries, decode, render)[k];
      IsMarkdown(x.path) && !x.post.metadata.draft && x.post.htmlContent == render(x.post.content)
    ensures forall i :: 0 <= i < |entries| && Load(entries[i], decode, render).Some? ==>
      Loaded(Load(entries[i], decode, render).value, entries[i].path) in Admitted(entries, decode, render)
  {
    var load := Loader(decode, render);
    forall k | 0 <= k < |Kept(entries, load)|
      ensures var x := Kept(entries, load)[k];
        IsMarkdown(x.path) && !x.post.metadata.draft && x.post.htmlContent == render(x.post.content)
    {
      KeepsNothingElse(entries, k, load);
    }
    forall i | 0 <= i < |entries| && Load(entries[i], decode, render).Some?
      ensures Loaded(Load(entries[i], decode, render).value, entries[i].path) in Kept(entries, load)
    {
      assert load(entries[i]) == Some(Loaded(Load(entries[i], decode, render).value, entries[i].path));
      KeepsEveryYield(entries, i, load);
    }
  }

  function PostsOf(loaded: seq<Loaded>): (r: seq<Post>)
    ensures |r| == |loaded|
    ensures forall i :: 0 <= i < |loaded| ==> r[i] == loaded[i].post
  {
    seq(|loaded|, i requires 0 <= i < |loaded| => loaded[i].post)
  }

  /** `if let Some(ref tags) = ...`: an absent list files nothing. */
  function LabelsOf(labels: Option<seq<string>>): seq<string> {
    match labels
    case None => []
    case Some(l) => l
  }

  function TagLists(loaded: seq<Loaded>): (r: seq<seq<string>>)
    ensures |r| == |loaded|
    ensures forall i :: 0 <= i < |loaded| ==> r[i] == LabelsOf(loaded[i].post.metadata.tags)
  {
    seq(|loaded|, i requires 0 <= i < |loaded| => LabelsOf(loaded[i].post.metadata.tags))
  }

  function CategoryLists(loaded: seq<Loaded>): (r: seq<seq<string>>)
    ensures |r| == |loaded|
    ensures forall i :: 0 <= i < |loaded| ==> r[i] == LabelsOf(loaded[i].post.metadata.categories)
  {
    seq(|loaded|, i requires 0 <= i < |loaded| => LabelsOf(loaded[i].post.metadata.categories))
  }

  /** Every kept post has a date, or a file name whose fallback date can be read. */
  predicate AllDatesDefined(loaded: seq<Loaded>) {
    forall i :: 0 <= i < |loaded| ==> loaded[i].post.metadata.date.Some? || ExtractDefined(loaded[i].path)
  }

  /**
   * The date a kept post sorts by: its own, else the one its file name spells, else
   * the scan's current day.
   */
  function SortDate(x: Loaded, today: Date): (r: Date)
    requires x.post.metadata.date.Some? || ExtractDefined(x.path)
    ensures x.post.metadata.date.Some? ==> r == x.post.metadata.date.value
    ensures x.post.metadata.date.None? && ExtractDateFromFilename(x.path).Some? ==> r == ExtractDateFromFilename(x.path).value
    ensures x.post.metadata.date.None? && ExtractDateFromFilename(x.path).None? ==> r == today
  {
    match x.post.metadata.date
    case Some(d) => d
    case None =>
      match ExtractDateFromFilename(x.path)
      case Some(d) => d
      case None => today
  }

  function SortKeys(loaded: seq<Loaded>, today: Date): (r: seq<SortKey>)
    requires AllDatesDefined(loaded)
    ensures |r| == |loaded|
    ensures forall i :: 0 <= i < |loaded| ==> r[i] == Some(SortDate(loaded[i], today))
  {
    seq(|loaded|, i requires 0 <= i < |loaded| && AllDatesDefined(loaded) => Some(SortDate(loaded[i], today)))
  }

  /** Loading `entry` reaches `extract_date_from_filename` only with a stem it can slice. */
  predicate NoPanic(entry: Entry, decode: YamlDecoder, render: Renderer) {
    (Load(entry, decode, render).Some? && Load(entry, decode, render).value.metadata.date.None?) ==>
      ExtractDefined(entry.path)
  }

  lemma ListsSnoc(loaded: seq<Loaded>, x: Loaded, today: Date)
    requires AllDatesDefined(loaded) && (x.post.metadata.date.Some? || ExtractDefined(x.path))
    ensures AllDatesDefined(loaded + [x])
    ensures PostsOf(loaded + [x]) == PostsOf(loaded) + [x.post]
    ensures TagLists(loaded + [x]) == TagLists(loaded) + [LabelsOf(x.post.metadata.tags)]
    ensures CategoryLists(loaded + [x]) == CategoryLists(loaded) + [LabelsOf(x.post.metadata.categories)]
    ensures SortKeys(loaded + [x], today) == SortKeys(loaded, today) + [Some(SortDate(x, today))]
  {
  }

  lemma EnumerateSnoc(keys: seq<SortKey>, k: SortKey)
    ensures Enumerate(keys + [k]) == Enumerate(keys) + [Keyed(|keys|, k)]
  {
  }

  /** The scan's working state describes the posts kept so far. */
  ghost predicate Tracks(posts: seq<Post>, tags: Buckets, categories: Buckets, postsWithDates: seq<Keyed>,
                         loaded: seq<Loaded>, today: Date) {
    AllDatesDefined(loaded)
    && posts == PostsOf(loaded)
    && Represents(tags, TagLists(loaded))
    && Represents(categories, CategoryLists(loaded))
    && postsWithDates == Enumerate(SortKeys(loaded, today))
  }

  /**
   * The walk's work for a kept post: push it, file its position under each of its
   * tags and categories, and record its date (its own, else the file name's, else today).
   */
  method FilePost(posts: seq<Post>, tags: Buckets, categories: Buckets, postsWithDates: seq<Keyed>,
                  post: Post, path: string, today: Date, ghost loaded: seq<Loaded>)
    returns (posts': seq<Post>, tags': Buckets, categories': Buckets, postsWithDates': seq<Keyed>)
    requires post.metadata.date.Some? || ExtractDefined(path)
    requires Tracks(posts, tags, categories, postsWithDates, loaded, today)
    ensures Tracks(posts', tags', categories', postsWithDates', loaded + [Loaded(post, path)], today)
  {
    var postIdx := |posts|;
    posts' := posts + [post];
    tags' := AddToBuckets(tags, LabelsOf(post.metadata.tags), postIdx);
    FilingExtends(tags, tags', TagLists(loaded), LabelsOf(post.metadata.tags));
    categories' := AddToBuckets(categories, LabelsOf(post.metadata.categories), postIdx);
    FilingExtends(categories, categories', CategoryLists(loaded), LabelsOf(post.metadata.categories));
    var date := match post.metadata.date
      case Some(d) => d
      case None =>
        match ExtractDateFromFilename(path)
        case Some(d) => d
        case None => today;
    postsWithDates' := postsWithDates + [Keyed(postIdx, Some(date))];
    var x := Loaded(post, path);
    ListsSnoc(loaded, x, today);
    assert date == SortDate(x, today);
    assert postIdx == |SortKeys(loaded, today)|;
    EnumerateSnoc(SortKeys(loaded, today), Some(date));
  }

  lemma ScannedWellFormed(index: PostIndex, loaded: seq<Loaded>, today: Date)
    requires AllDatesDefined(loaded)
    requires index.posts == PostsOf(loaded)
    requires Represents(index.tags, TagLists(loaded))
    requires Represents(index.categories, CategoryLists(loaded))
    requires index.sortedByDate == NewestFirst(SortKeys(loaded, today))
    ensures WellFormed(index)
  {
    forall t | t in index.tags
      ensures forall i :: 0 <= i < |index.tags[t]| ==> index.tags[t][i] < |index.posts|
    {
      assert Get(index.tags, t) == index.tags[t];
    }
    forall t | t in index.categories
      ensures forall i :: 0 <= i < |index.categories[t]| ==> index.categories[t][i] < |index.posts|
    {
      assert Get(index.categories, t) == index.categories[t];
    }
  }

  /** What the loader keeps of one entry: its post with its path, or nothing. */
  function KeptOf(entry: Entry, decode: YamlDecoder, render: Renderer): seq<Loaded> {
    match Loader(decode, render)(entry)
    case None => []
    case Some(x) => [x]
  }

  /**
   * One turn of the walk: a Markdown file is processed, and a post that loads and is not
   * a draft is filed; anything else leaves the working state as it was.
   */
  method ScanEntry(posts: seq<Post>, tags: Buckets, categories: Buckets, postsWithDates: seq<Keyed>,
                   entry: Entry, decode: YamlDecoder, render: Renderer, today: Date, ghost loaded: seq<Loaded>)
    returns (posts': seq<Post>, tags': Buckets, categories': Buckets, postsWithDates': seq<Keyed>)
    requires NoPanic(entry, decode, render)
    requires Tracks(posts, tags, categories, postsWithDates, loaded, today)
    ensures Tracks(posts', tags', categories', postsWithDates', loaded + KeptOf(entry, decode, render), today)
  {
    posts', tags', categories', postsWithDates' := posts, tags, categories, postsWithDates;
    if IsMarkdown(entry.path) {
      var processed := ProcessMarkdownFile(entry, decode, render);
      if processed.Ok? && !IsDraft(processed.value.metadata) {
        var post := processed.value;
        assert KeptOf(entry, decode, render) == [Loaded(post, entry.path)];
        posts', tags', categories', postsWithDates' :=
          FilePost(posts, tags, categories, postsWithDates, post, entry.path, today, loaded);
      } else {
        assert KeptOf(entry, decode, render) == [];
        assert loaded + [] == loaded;
      }
    } else {
      assert KeptOf(entry, decode, render) == [];
      assert loaded + [] == loaded;
    }
  }

  lemma AdmittedStep(entries: seq<Entry>, i: nat, decode: YamlDecoder, render: Renderer)
    requires i < |entries|
    ensures Admitted(entries[..i + 1], decode, render)
      == Admitted(entries[..i], decode, render) + KeptOf(entries[i], decode, render)
  {
    KeptStep(entries, i, Loader(decode, render));
  }

  /**
   * `scan_blogs_directory`: walks the entries in order; every Markdown file that loads
   * and is not a draft is appended to the posts and filed under each of its tags and
   * categories, and its sort date is recorded; files that fail to load are skipped.
   * The recorded dates are then sorted newest first.
   */
  method ScanBlogsDirectory(entries: seq<Entry>, decode: YamlDecoder, render: Renderer, today: Date)
    returns (index: PostIndex)
    requires forall i :: 0 <= i < |entries| ==> NoPanic(entries[i], decode, render)
    ensures AllDatesDefined(Admitted(entries, decode, render))
    ensures index.posts == PostsOf(Admitted(entries, decode, render))
    ensures Represents(index.tags, TagLists(Admitted(entries, decode, render)))
    ensures Represents(index.categories, CategoryLists(Admitted(entries, decode, render)))
    ensures index.sortedByDate == NewestFirst(SortKeys(Admitted(entries, decode, render), today))
    ensures WellFormed(index)
  {
    var posts: seq<Post> := [];
    var tags: Buckets := map[];
    var categories: Buckets := map[];
    var postsWithDates: seq<Keyed> := [];
    ghost var loaded: seq<Loaded> := [];
    for i := 0 to |entries|
      invariant loaded == Admitted(entries[..i], decode, render)
      invariant Tracks(posts, tags, categories, postsWithDates, loaded, today)
    {
      posts, tags, categories, postsWithDates :=
        ScanEntry(posts, tags, categories, postsWithDates, entries[i], decode, render, today, loaded);
      AdmittedStep(entries, i, decode, render);
      loaded := loaded + KeptOf(entries[i], decode, render);
    }
    assert entries[..|entries|] == entries;
    index := PostIndex(posts, tags, categories, Firsts(SortByKey(postsWithDates)));
    ScannedWellFormed(index, loaded, today);
  }
}
