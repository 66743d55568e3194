# Blog content index: a verified model

This project models the content-indexing pipeline of a static-site blog in Dafny and proves properties of that model. The pipeline turns a directory of Markdown files with a YAML frontmatter header into a post index. The index holds the published posts in discovery order, a tag map and a category map from label to post positions, and the positions sorted newest first. The pipeline exists twice, and the model covers both copies:

- **Runtime** (`src/content/*.rs`): `PostMetadata` with its date decoders and `get_slug`, frontmatter splitting and post loading, and `scan_blogs_directory` with the `PostIndex` queries. Modules `Metadata`, `Dates`, `Markdown` and `Index`.
- **Build time** (`build.rs`): `parse_markdown_frontmatter` reads fields out of a YAML value, with defaults, slug derivation and `file_path` normalisation. `scan_and_process_blogs` builds the JSON index with its own date comparator. Module `Build`.
- **Application state** (`src/utils/state.rs`): `AppState` owns the index and a theme string, which `toggle_theme` overwrites in place. It is a class in module `State`.

Supporting modules:
- `Text`: character and substring helpers.
- `Utf8`: UTF-8 byte lengths, for byte-indexed slicing.
- `Paths`: `file_name`, `file_stem` and `extension`.
- `Walk`: the directory walk, given as a sequence of entries.
- `Buckets`: the `entry().or_insert_with(Vec::new).push` label maps.
- `DateOrder`: the stable `sort_by` on `(position, date)` pairs.

Opaque collaborators are parameters:
- the YAML decoders (`YamlDecoder` for serde into `PostMetadata`, `YamlParser` for `serde_yaml::Value`);
- the Markdown renderer (`Renderer`);
- the file walk (a `seq<Walk.Entry>`, where an entry whose text is `None` stands for a read failure);
- the current local date (`today`).

The two copies disagree in several places. The model states each copy's behaviour and proves where they differ:
- `Build.NoFrontmatterDivergence`: a file without frontmatter is published at runtime and dropped at build time.
- `Build.SlashDateDivergence`: a `YYYY/MM/DD` date is a date at runtime and "undated" at build time.
- `Build.SlugDivergenceTestVector`: the date-prefix test of the slug differs.

Where the code does not do what its own doc comments and unit tests say, the model follows the code:
- **Explicit slug.** `get_slug` returns an explicit slug verbatim, without normalisation and even when it is empty (src/content/metadata.rs:113-117).
- **Lookup by slug.** `get_post_by_slug` derives slugs with the file name `""`, so a post without an explicit slug answers only to `""`. It never answers to the slug of its file name (`Index.SlugMatchesExactly`).
- **Undated posts at runtime.** The runtime index has no undated posts. A post without a date takes the date in its file name or, failing that, `today`. Only the build-time index sorts undated posts last (`DateOrder.DatedBeforeUndated`, `Build.DatedPostsFirst`).
- **Date prefix in `get_slug`.** The runtime `get_slug` does not strip a `YYYY-MM-DD-` prefix, although its unit test at src/content/metadata.rs:185-186 expects it to (see Findings). The build-time rule does.

## Model

| member | source | states |
|---|---|---|
| Metadata.New | src/content/metadata.rs:87-101 | the new metadata has an empty title, every optional field absent and `draft` false |
| Metadata.IsDraft | src/content/metadata.rs:109-111 | `is_draft` is true exactly when the `draft` field is |
| Metadata.FromYaml | src/content/metadata.rs:104-106 | decoding fails exactly when the opaque decoder fails, with its message; on success `date` and `updated` are the fallback decodings of the raw strings and `slug`/`draft` are the decoded values |
| Metadata.ToLower | src/content/metadata.rs:144 | `to_lowercase` on ASCII keeps the length and lower-cases each character |
| Metadata.KeepSlugChars | src/content/metadata.rs:145-148 | the filter keeps only ASCII alphanumerics and `-`, never grows the text, and keeps only characters of its input; with `KeepSlugCharsConcat` and `KeepSlugCharsOfChar` it keeps every such character, in order |
| Metadata.Normalize | src/content/metadata.rs:144-149 | the normalised text is no longer than its input and holds only lower-case letters, digits and `-`; with `NormalizeConcat` and `NormalizeOfChar` it is exactly the character-by-character mapping |
| Metadata.KeepSlugCharsKeepsSlugText | src/content/metadata.rs:145-148 | the character filter leaves text that is already slug text unchanged |
| Metadata.NormalizeKeepsSlugText | src/content/metadata.rs:144-149 | normalisation leaves text that is already slug text unchanged |
| Metadata.NormalizeIdempotent | src/content/metadata.rs:144-149 | normalising twice is normalising once |
| Metadata.KeepSlugCharsConcat | src/content/metadata.rs:145-148 | the filter distributes over concatenation, so it keeps characters in their order |
| Metadata.KeepSlugCharsOfChar | src/content/metadata.rs:145-148 | a single character is kept exactly when it is an ASCII alphanumeric or `-` |
| Metadata.ToLowerConcat | src/content/metadata.rs:144 | lower-casing distributes over concatenation |
| Metadata.NormalizeConcat | src/content/metadata.rs:144-149 | normalisation distributes over concatenation |
| Metadata.NormalizeOfChar | src/content/metadata.rs:144-149 | one character normalises to `-` for space or `_`, to its lower-case form for an ASCII letter, to itself for a digit or `-`, and to nothing otherwise |
| Metadata.StripDatePrefixAsWritten | src/content/metadata.rs:128-141 | the prefix test as `get_slug` writes it: drop 11 characters only when the stem is longer than 11, starts with 4 digits, the first `-` after position 4 is 4 further on, and position 8 is `-` |
| Metadata.StripDatePrefix | build.rs:233-245 | the intended prefix test: drop 11 characters when the stem is longer than 11, starts with 4 digits, and has `-` at positions 4 and 7 |
| Metadata.AsWrittenNeverStripsDatedStem | src/content/metadata.rs:128-141 | a stem with `-` at position 4 is never stripped by the test as written, so a real `YYYY-MM-DD-` prefix always stays |
| Metadata.StripDatePrefixOfDatedStem | build.rs:233-245 | the intended test strips exactly the `YYYY-MM-DD-` prefix of any dated stem |
| Metadata.StripDatePrefixIsShapeOnly | build.rs:233-245 | the prefix test checks shape only: `2025-ab-cdXrest` passes it and is cut to `rest` |
| Metadata.SlugStem | src/content/metadata.rs:121-125 | the stem is the file name without its last extension, or the whole argument when there is none; ASCII input gives ASCII output |
| Metadata.GetSlugAsWritten | src/content/metadata.rs:115-150 | `get_slug` as written: an explicit slug verbatim; otherwise slug text no longer than the stem, the normalised stem with 11 characters cut first only under the as-written test, which no stem with `-` at position 4 passes |
| Metadata.GetSlug | src/content/metadata.rs:115-150 | the corrected `get_slug`: explicit slug verbatim; otherwise slug text no longer than the stem, the normalised stem with 11 characters cut first when the stem is longer than 11, starts with four digits and has `-` at positions 4 and 7 (a test of shape only, which `2025-ab-cdXrest` also passes) |
| Metadata.SlugOfEmptyFileName | src/content/metadata.rs:121-125 | with no explicit slug, the empty file name gives the empty slug under both tests |
| Metadata.DatedFileStem | src/content/metadata.rs:121-125 | `YYYY-MM-DD<rest>.md` has stem `YYYY-MM-DD<rest>` and extension `md` |
| Metadata.TestFileStem | src/content/metadata.rs:183-185 | the test file name `2025-11-23-test-article.md` has stem `2025-11-23-test-article` |
| Metadata.TestStemStripped | src/content/metadata.rs:185-186 | the intended test strips the test stem to `test-article` |
| Metadata.TestStemKeptAsWritten | src/content/metadata.rs:128-141 | the test as written keeps the test stem whole, and normalisation leaves it unchanged |
| Metadata.GetSlugTestVector | src/content/metadata.rs:180-186 | with no explicit slug, the corrected `get_slug` of the test file is `test-article`, as the unit test asserts |
| Metadata.ExplicitSlugTestVector | src/content/metadata.rs:188-191 | an explicit `custom-slug` is returned by both versions |
| Metadata.GetSlugAsWrittenTestVector | src/content/metadata.rs:128-141 | `get_slug` as written returns `2025-11-23-test-article` for the test file, not the `test-article` its unit test asserts |
| Dates.DaysInMonth | src/content/metadata.rs:14-16 | a month has 28 to 31 days, 29 exactly for February of a leap year |
| Dates.Digits2 | src/content/metadata.rs:14 | two digits are written back to the number they read as |
| Dates.Digits4 | src/content/metadata.rs:14 | four digits are written back to the number they read as |
| Dates.Digits2OfNumber2 | src/content/metadata.rs:14 | reading two digits and writing them back gives the same text |
| Dates.Digits4OfNumber4 | src/content/metadata.rs:14 | reading four digits and writing them back gives the same text |
| Dates.ParseDate | src/content/metadata.rs:14-17 | a parsed date is a valid four-digit-year calendar date that prints back to the input with the same separator |
| Dates.ParseFormattedDate | src/content/metadata.rs:14-17 | every valid date printed with a separator parses back to itself |
| Dates.ParseDateTime | src/content/metadata.rs:36-39 | a parsed date-time is valid and prints back to the input |
| Dates.ParseFormattedDateTime | src/content/metadata.rs:36-39 | every valid date-time printed with `' '` or `T` parses back to itself |
| Dates.DeserializeDate | src/content/metadata.rs:6-25 | an absent string gives no date; a date found is valid and the input was its `YYYY-MM-DD` or `YYYY/MM/DD` form; anything else gives `None`, never an error |
| Dates.DeserializeDateAcceptsBothForms | src/content/metadata.rs:12-23 | both the dash and the slash form of every valid date decode to it |
| Dates.DeserializeDatetime | src/content/metadata.rs:28-49 | an absent string gives none; a value found is valid and the input was its space form, its `T` form, or its date at midnight |
| Dates.DeserializeDatetimeAcceptsAllForms | src/content/metadata.rs:33-47 | the space and `T` forms decode to the date-time and the date-only form to midnight |
| Dates.CmpDate | src/content/index.rs:143 | date comparison is `Equal` exactly on equal dates |
| Dates.CmpDateAntisymmetric | src/content/index.rs:143 | `a < b` exactly when `b > a` |
| Dates.CmpDateTransitive | src/content/index.rs:143 | `<=` on dates is transitive |
| Paths.FileName | src/content/metadata.rs:121-125 | the file name is a non-empty, slash-free suffix of the path |
| Paths.FileStem | src/content/metadata.rs:121-125 | a path has a stem exactly when it has a file name; the stem is a non-empty prefix of the file name |
| Paths.Extension | src/content/index.rs:95 | an extension is dot-free and exists only for a path with a file name |
| Paths.IsMarkdown | src/content/index.rs:95 | the walk keeps a path exactly when it ends in `.md` after a non-empty file stem |
| Paths.MarkdownPath | build.rs:76-83 | the extension is `md` exactly when the path ends in `.md` and the character before is not `/` |
| Paths.StemAndExtensionRebuildName | src/content/index.rs:95 | stem, `.` and extension give back the file name, and without an extension the stem is the file name |
| Utf8.Width | src/content/index.rs:154 | a character takes 1 to 4 bytes, exactly 1 when it is ASCII |
| Utf8.BytePrefix | src/content/index.rs:155 | `filename[..n]` at a character boundary is a prefix of `n` bytes |
| Utf8.ByteLenConcat | src/content/index.rs:154 | byte lengths add over concatenation |
| Utf8.AsciiByteLen | src/content/index.rs:154 | ASCII text has as many bytes as characters |
| Utf8.AsciiPrefixIsBytePrefix | src/content/index.rs:155 | over an ASCII prefix, byte slicing and character slicing agree |
| Markdown.StripLineBreak | src/content/markdown.rs:84-92 | the body is what follows at most one leading `\n` or `\r\n` |
| Markdown.BodyAfter | src/content/markdown.rs:82-95 | the body is the text after the closing marker minus one leading line break, or empty past the end |
| Markdown.DelimitedParts | src/content/markdown.rs:70-75 | when `---` is found after the opening marker, it is the first closing marker and the content is marker, metadata text, marker, rest |
| Markdown.SplitFrontmatter | src/content/markdown.rs:59-98 | no leading `---` means no frontmatter; leading `---` with no later `---` means unclosed; otherwise the metadata text is exactly `content[3..3+e]` for the first closing marker `e` and the body is the text after it minus one line break |
| Markdown.FindIsFirst | src/content/markdown.rs:70-72 | `find` returns the first occurrence |
| Markdown.ClosingMarkerOfAssembled | src/content/markdown.rs:70-72 | in metadata text free of `---`, the closing marker is found right after it |
| Markdown.SplitOfClosed | src/content/markdown.rs:70-95 | a found closing marker splits the content into `content[3..e+3]` and the body after `e+6` |
| Markdown.SplitAssembled | src/content/markdown.rs:59-98 | splitting `---yaml---` followed by a line break and a body gives back exactly that metadata text and body |
| Markdown.ParseFrontmatter | src/content/markdown.rs:59-98 | content without `---` gives default metadata and the whole content as body; unclosed frontmatter is an error; a decoder failure is an error; the body is always a suffix of the content |
| Markdown.ParseMarkdownFile | src/content/markdown.rs:19-33 | an unreadable file is an error; otherwise the post exists exactly when the frontmatter parses, with its metadata and body and an empty `html_content` |
| Markdown.ProcessedPost | src/content/markdown.rs:48-56 | processing fails exactly when parsing does; on success the metadata and body are kept and `html_content` is the renderer's output for the body |
| Markdown.ProcessMarkdownFile | src/content/markdown.rs:48-56 | the method that sets `html_content` in place returns exactly the processed post |
| Markdown.ParseFrontmatterTestVector | src/content/markdown.rs:106-118 | the unit test's document splits into its metadata text and the body after the closing marker, and parses when the decoder accepts the metadata |
| Markdown.ParseAssembled | src/content/markdown.rs:59-98 | a document built as `---`, metadata text free of `---`, `---`, a newline and a body parses to the decoded metadata and exactly that body |
| Walk.Kept | src/content/index.rs:92-96 | the walk keeps at most as many items as it visits |
| Walk.KeptStep | src/content/index.rs:92-140 | one more entry adds its item when it loads and changes nothing when it does not |
| Walk.KeepsEveryYield | src/content/index.rs:92-140 | every entry that loads contributes its item |
| Walk.KeepsNothingElse | src/content/index.rs:92-140 | every kept item came from an entry that loads to it |
| Walk.SkippedEntryChangesNothing | src/content/index.rs:135-138 | a skipped entry, such as a failed load, leaves the result unchanged and the walk continues |
| Buckets.Count | src/content/index.rs:114-118 | a label occurs a positive number of times exactly when it is in the list |
| Buckets.Positions | src/content/index.rs:107-125 | the bucket of a label lists, in non-decreasing order, in-range positions, and a position appears exactly when its post carries the label |
| Buckets.Get | src/content/index.rs:32-42 | an unknown label has the empty bucket |
| Buckets.AddToBuckets | src/content/index.rs:114-118 | filing a post's labels appends its position once per occurrence to each label's bucket, creates buckets only for its labels, and leaves every other bucket as it was |
| Buckets.FileStep | src/content/index.rs:114-118 | one `entry().or_insert_with().push` keeps every bucket equal to the old bucket plus one position per label occurrence filed so far |
| Buckets.RepresentsInRange | src/content/index.rs:107-125 | every position in a represented bucket is below the number of posts |
| Buckets.CountSnoc | src/content/index.rs:114-118 | one more label adds one occurrence of itself |
| Buckets.EmptyRepresentsNothing | src/content/index.rs:22-29 | the empty map represents the empty list of posts |
| Buckets.FilingExtends | src/content/index.rs:107-125 | filing the next post's labels keeps the maps equal to the bucket specification |
| Buckets.PositionsMultiplicity | src/content/index.rs:114-118 | a position appears in a bucket as often as the label occurs in that post, so duplicate labels give duplicate entries |
| Buckets.RepeatMultiplicity | src/content/index.rs:114-118 | a repeated position occurs exactly that many times |
| DateOrder.Compare | build.rs:141-148 | the build comparator: two dates compare newest first, a date comes before no date, and two missing dates are equal |
| DateOrder.CompareAntisymmetric | build.rs:141-148 | the comparator is antisymmetric |
| DateOrder.CompareTransitive | build.rs:141-148 | the comparator's "not after" is transitive |
| DateOrder.InsertionPoint | src/content/index.rs:143 | an element goes after every element it sorts after and before the first it does not |
| DateOrder.SortByKey | src/content/index.rs:143 | the sort keeps the length |
| DateOrder.Enumerate | src/content/index.rs:107-133 | each post's position is paired with its key, in discovery order |
| DateOrder.SortPermutes | src/content/index.rs:143-144 | sorting is a permutation of the pairs |
| DateOrder.InsertSorted | src/content/index.rs:143 | inserting into a sorted list keeps it sorted |
| DateOrder.SortSorted | src/content/index.rs:143 | the sorted pairs are in comparator order |
| DateOrder.InsertStable | src/content/index.rs:143 | inserting an earlier pair keeps equal keys in position order |
| DateOrder.SortStable | src/content/index.rs:143 | the sort is stable: equal keys keep discovery order |
| DateOrder.SortPermutesPositions | src/content/index.rs:143-144 | the sorted positions are a permutation of the positions |
| DateOrder.HeadsAgree | src/content/index.rs:143 | two sorted, stable rearrangements of the same pairs start with the same pair |
| DateOrder.Tail | src/content/index.rs:143 | dropping the head keeps a list sorted and stable |
| DateOrder.StableSortUnique | src/content/index.rs:143 | two sorted, stable rearrangements of the same pairs are equal |
| DateOrder.SortByKeyIsTheStableSort | src/content/index.rs:143 | any sorted, stable permutation of the pairs is the modelled sort, so it is the result of a stable `sort_by` |
| DateOrder.NewestFirst | src/content/index.rs:143-144 | `sorted_by_date` is a permutation of `0..n`, ordered by the comparator, with ties in discovery order |
| DateOrder.SortedEnumeration | src/content/index.rs:128-144 | sorting the enumerated keys gives pairs in comparator order, stable, whose positions are a permutation of `0..n` and whose keys are the posts' own keys |
| DateOrder.DatedBeforeUndated | build.rs:141-149 | every dated post comes before every undated one |
| Index.PostsAt | src/content/index.rs:36-41 | the posts at the bucket's positions, in bucket order, all from the index |
| Index.Empty | src/content/index.rs:22-29 | the new index has no posts, no order, and tag and category maps that represent no posts |
| Index.GetPostsByTag | src/content/index.rs:32-42 | an unknown tag gives no posts; every post returned is one of the index's, and in a well-formed index they are the bucket's posts in bucket order |
| Index.GetPostsByCategory | src/content/index.rs:45-55 | the same for categories |
| Index.GetRecentPosts | src/content/index.rs:58-64 | at most `count` posts, all from the index; in a well-formed index exactly `min(count, len)` of them, in `sorted_by_date` order |
| Index.GetAllPosts | src/content/index.rs:67-69 | every stored post, in discovery order |
| Index.Take | src/content/index.rs:59-63 | `take(n)` keeps the first `min(n, len)` positions |
| Index.EmptyIndexAnswersNothing | src/content/index.rs:174-180 | the new index has no posts, no recent posts, and nothing under any tag or category |
| Index.LabelQuery | src/content/index.rs:32-55 | a label query returns one post per bucket entry, in bucket order, and includes every post carrying the label |
| Index.PostsByTagOfScan | src/content/index.rs:32-42 | on a scanned index, `get_posts_by_tag` returns the posts carrying the tag, in position order, once per occurrence, and every post carrying it |
| Index.PostsByCategoryOfScan | src/content/index.rs:45-55 | the same for `get_posts_by_category` |
| Index.RecentPostsAreNewest | src/content/index.rs:58-64 | `get_recent_posts(n)` returns exactly `min(n, len)` posts, in date order, none older than a post left out |
| Index.SlugMatchesExactly | src/content/index.rs:72-77 | a post answers to its explicit slug and nothing else; a post without one answers only to `""` |
| Index.FirstMatch | src/content/index.rs:74-76 | the first matching position from a start, or none exactly when no later post matches |
| Index.GetPostBySlug | src/content/index.rs:72-77 | the first post in discovery order that answers to the slug, or `None` exactly when none does |
| Index.DateChecksOnTenBytes | src/content/index.rs:153-162 | ten bytes that pass the character checks are ten ASCII characters of shape `DDDD-DD-DD` |
| Index.DateShapePassesChecks | src/content/index.rs:156-160 | text of shape `DDDD-DD-DD` passes the character checks |
| Index.ChecksReadCharPrefix | src/content/index.rs:153-160 | a byte prefix that passes the checks is the ten-character prefix, of date shape |
| Index.DatedCharPrefixPassesChecks | src/content/index.rs:153-160 | a stem beginning `DDDD-DD-DD` can be sliced at byte 10 and passes the checks |
| Index.DatePrefixAgrees | src/content/index.rs:153-165 | the byte-level checks and parse agree with parsing the first ten characters |
| Index.ExtractDateFromFilename | src/content/index.rs:150-167 | a date exactly when the stem has at least ten characters beginning with a valid `YYYY-MM-DD`, and then that date |
| Index.DatedFileName | src/content/index.rs:150-167 | a file named `YYYY-MM-DD<rest>.md` gives its date |
| Index.ExtractDateTestVector | src/content/index.rs:183-188 | the test file name gives 2025-11-23 |
| Index.AdmittedExactly | src/content/index.rs:92-140 | the scan keeps exactly the Markdown files that load and are not drafts, each with its rendered HTML |
| Index.Load | src/content/index.rs:95-105 | an entry yields a post exactly when it is a Markdown file that loads and is not a draft, and then it is the processed post |
| Index.PostsOf | src/content/index.rs:107-108 | the index's posts are the kept posts, in order |
| Index.TagLists | src/content/index.rs:114-118 | each kept post's tags, an absent list counting as none |
| Index.CategoryLists | src/content/index.rs:121-125 | each kept post's categories, an absent list counting as none |
| Index.SortKeys | src/content/index.rs:128-133 | each post's key is its date, else the date in its file name, else `today` |
| Index.SortDate | src/content/index.rs:128-132 | a post sorts by its own date, else by the date its file name spells, else by `today` |
| Index.ListsSnoc | src/content/index.rs:107-133 | appending a post appends one entry to every derived list |
| Index.EnumerateSnoc | src/content/index.rs:133 | appending a key appends its pair at the next position |
| Index.FilePost | src/content/index.rs:107-133 | filing one post keeps posts, buckets and dated pairs equal to their specifications over the kept posts |
| Index.ScannedWellFormed | src/content/index.rs:107-144 | the specified index holds only in-range positions |
| Index.ScanBlogsDirectory | src/content/index.rs:87-147 | the scanned index holds exactly the kept posts in walk order, buckets per label, newest-first positions by date with ties in discovery order, all in range |
| Index.ScanEntry | src/content/index.rs:92-136 | one turn of the scan loop: a Markdown entry that loads and is not a draft is appended, filed under its labels and given its sort key; anything else leaves the index as it was, so the invariant tying the index to the kept posts holds one entry further |
| Build.StringItems | build.rs:193-209 | the list keeps only the string items, in order |
| Build.Strs | build.rs:193-209 | a list of strings as YAML string items |
| Build.StringItemsConcat | build.rs:193-209 | the filter distributes over concatenation |
| Build.StringItemsOfStrs | build.rs:193-209 | a list of string items gives back its strings |
| Build.SlugSource | build.rs:226-230 | the file stem, or `untitled` without one |
| Build.BuildSlug | build.rs:221-253 | an explicit slug verbatim; otherwise slug text from the stem, with 11 characters cut first when the stem is longer than 11, starts with four digits and has `-` at positions 4 and 7 |
| Build.FilePath | build.rs:270-274 | `file_path` is the path with a leading `blogs` component removed, each `\` replaced by `/` and every other character kept, so it has no backslash |
| Build.FilePathOfWalkedFile | build.rs:270-274 | a walked file `blogs/<rel>` gets `file_path` `<rel>` with its backslashes turned into `/` |
| Build.FilePathOutsideRoot | build.rs:270-274 | a path outside `blogs` keeps its text, with backslashes turned into `/` |
| Build.FilePathTestVector | build.rs:270-274 | `blogs/2024\post.md` is recorded as `2024/post.md` |
| Build.Record | build.rs:176-287 | title defaults to `未命名文章`, draft to false, tags and categories keep the string items of a sequence, and slug and `file_path` are derived |
| Build.EmptyDocumentDefaults | build.rs:176-262 | an empty document gives every default |
| Build.LookupToYaml | build.rs:176-262 | each field key of a record's YAML form holds that field |
| Build.ReadsStr | build.rs:182-192 | a string field reads back from the YAML form |
| Build.ReadsList | build.rs:193-209 | a list field reads back from the YAML form |
| Build.RecordOfToYaml | build.rs:155-287 | a record written as YAML is read back to itself |
| Build.ParseMarkdownFrontmatter | build.rs:155-287 | an unreadable file is an error, no leading `---` gives `Ok(None)`, an unclosed header is an error, a YAML error is an error, and otherwise the record of the metadata text `content[3..3+e]` |
| Build.ParsedFrontmatter | build.rs:158-174 | an unreadable file is an error, a file without a leading `---` gives `Ok(None)`, an unclosed header is the missing-marker error, and a parsed document is the parser's value for the header text |
| Build.LoaderAgrees | build.rs:77-123 | the loop publishes exactly what `parse_markdown_frontmatter` returns when it is not a draft |
| Build.RecordsSnoc | build.rs:93-94 | appending a parsed file appends its record |
| Build.Records | build.rs:155-287 | each published file's record |
| Build.PublishedExactly | build.rs:77-139 | the build keeps exactly the Markdown files that parse with frontmatter and are not drafts |
| Build.FailedFileSkipped | build.rs:129-136 | a file that fails is skipped and the batch continues |
| Build.Keys | build.rs:120-123 | each post's key is its date parsed as `%Y-%m-%d`, or none |
| Build.BuildKey | build.rs:120-122 | a record has a key exactly when its date string parses as `%Y-%m-%d`, and the key prints back as that string |
| Build.TagLists | build.rs:97-105 | each published post's tags |
| Build.CategoryLists | build.rs:108-116 | each published post's categories |
| Build.FileRecord | build.rs:93-123 | filing one record appends it and keeps buckets and dated pairs equal to their specifications |
| Build.ScanAndProcessBlogs | build.rs:62-152 | the JSON index holds exactly the published records, buckets per label, and positions ordered dated-newest-first then undated with ties in discovery order, all in range |
| Build.NoFrontmatterDivergence | build.rs:161-163 | a file without frontmatter is a post at runtime but left out at build time |
| Build.SlashDateDivergence | build.rs:120-123 | a `YYYY/MM/DD` date is a date at runtime and undated at build time |
| Build.DatedPostsFirst | build.rs:141-149 | in the JSON index every dated post precedes every undated one |
| Build.BuildSlugMatchesGetSlug | build.rs:221-253 | the build slug equals the corrected runtime slug of the same file |
| Build.BuildSlugTestVector | build.rs:233-245 | the build slug of `2025-11-23-test-article.md` is `test-article` |
| Build.SlugDivergenceTestVector | src/content/metadata.rs:128-141 | the runtime slug as written and the build slug of the test file differ |
| Build.NoDashNoStrip | build.rs:233-245 | a stem without `-` at position 4, such as `2025x-notes`, is normalised whole |
| State.Toggled | src/utils/state.rs:43-51 | the theme after a toggle is `light` or `dark`, and `dark` exactly when it was `light` |
| State.ToggleTwice | src/utils/state.rs:43-51 | toggling twice from `light` or `dark` restores it |
| State.ToggleRepairsUnknownTheme | src/utils/state.rs:43-51 | any other stored value becomes `light`, then `dark` |
| State.AppState.constructor | src/utils/state.rs:15-20 | the new state holds the empty index and the `light` theme |
| State.AppState.ToggleTheme | src/utils/state.rs:43-51 | the theme becomes the toggled theme and the index is unchanged |
| State.AppState.GetPostBySlug | src/utils/state.rs:23-25 | exactly the index's answer: the first post answering to the slug, or none |
| State.AppState.GetPostsByTag | src/utils/state.rs:28-30 | exactly the index's answer, drawn from its posts |
| State.AppState.GetPostsByCategory | src/utils/state.rs:33-35 | exactly the index's answer, drawn from its posts |
| State.AppState.GetRecentPosts | src/utils/state.rs:38-40 | exactly the index's answer, at most `count` posts from the index |

## Left out

- **File system.** Reading files and walking the directory are not modelled. `WalkDir` errors are filtered out by the source. The walk is an input sequence of paths with their text, and a text of `None` is a read failure.
- **Paths as text.** A path is a `/`-separated string. Repeated separators, `.` components, a trailing `/` (which `Path::file_name` ignores, while `Paths.FileName` gives none), `\` as a separator (it is an ordinary character until `file_path` turns it into `/`), non-UTF-8 names (`to_str` failing) and `to_string_lossy` are not modelled.
- **Opaque libraries.** YAML decoding (serde and serde_yaml) and Markdown rendering (pulldown-cmark) are opaque function parameters. Which fields serde treats as required is library behaviour: at runtime `title` has no default, while the build gives one.
- **Non-string YAML keys.** YAML mapping keys other than strings, floats and tagged values are not modelled. A number is an integer, and a field of the wrong type reads as absent, as `as_str`/`as_bool`/`as_sequence` do.
- **chrono.** Its parsers are modelled by fixed-width numeric fields and the Gregorian calendar. chrono also accepts some shorter or signed forms, and a leap second `60` in `%S`; those are not modelled, and the model's date-times take seconds 0 to 59 only.
- **The clock.** `chrono::Local::now()` is the `today` parameter. It is one value for the whole scan, whereas the source reads the clock once per undated post.
- **Output.** The `eprintln!` and `cargo:warning` messages for failed files, the JSON writing (`write_index_json`, `create_empty_index`) and `main` are not modelled.
- **Always `Ok`.** Both scans return `Ok` in the source, and the model returns the index directly.
- **Reactivity.** `AppState`'s theme is a Dioxus `Signal`, modelled as a plain mutable field. Reactivity and subscribers are not modelled.
- **Hashing.** `HashMap` iteration order does not matter, so the buckets are a `map`.
- Metadata.Normalize: requires ASCII text. `to_lowercase` and `is_alphanumeric` are Unicode-aware in the source and are modelled on ASCII only.
- Metadata.GetSlug: requires an explicit slug or an ASCII file name, because the source slices the stem by bytes and can panic otherwise.
- Metadata.GetSlugAsWritten: requires an explicit slug or an ASCII file name, for the same reason.
- Build.BuildSlug: requires an explicit slug or an ASCII stem, for the same reason.
- Build.Record: requires `SlugDerivable`, which is the ASCII condition of `BuildSlug`.
- Build.ParseMarkdownFrontmatter: requires `Ready`, the same ASCII condition when the file has a header.
- Build.ScanAndProcessBlogs: requires every entry to be `Ready`.
- Index.ExtractDateFromFilename: requires `ExtractDefined`, meaning the ten-byte slice falls on a character boundary. The source panics otherwise.
- Index.ScanBlogsDirectory: requires `NoPanic` of every entry, so that `extract_date_from_filename` is only reached with a stem it can slice.
- Index.GetRecentPosts: its exact length `min(n, len)` and the order of its posts are stated for a well-formed index, whose positions are all in range (and `Index.RecentPostsAreNewest` adds the newest-first order for a scanned one). In any other index the source's `filter_map` skips positions past the end, and the model promises only the bound `n`.

## Findings

| source | as written | input that shows it | evidently intended | confidence | as-written member | corrected member |
|---|---|---|---|---|---|---|
| src/content/metadata.rs:128-141 | strips the date prefix only when the first `-` in `stem[4..]` is at offset 4 and `stem[8..9]` is `-` | `2025-11-23-test-article.md` with no explicit slug gives `2025-11-23-test-article` | strip `YYYY-MM-DD-` (dash at offsets 4 and 7, as build.rs:233-245 does), giving `test-article` as the unit test at src/content/metadata.rs:185-186 asserts | high; not executed | Metadata.GetSlugAsWrittenTestVector | Metadata.GetSlugTestVector |
