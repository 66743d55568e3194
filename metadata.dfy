/**
 * `PostMetadata`: the decoded frontmatter record, its defaults, and slug resolution.
 */
module Metadata {
  import opened Wrappers
  import opened Text
  import opened Paths
  import opened Dates

  datatype PostMetadata = PostMetadata(
    title: string,
    date: Option<Date>,
    author: Option<string>,
    tags: Option<seq<string>>,
    categories: Option<seq<string>>,
    summary: Option<string>,
    coverImage: Option<string>,
    slug: Option<string>,
    draft: bool,
    updated: Option<DateTime>,
    layout: Option<string>)

  /**
   * What the YAML library hands over before the custom date deserialisers run: the
   * `date` and `updated` fields are still the strings found in the frontmatter.
   */
  datatype RawMetadata = RawMetadata(
    title: string,
    date: Option<string>,
    author: Option<string>,
    tags: Option<seq<string>>,
    categories: Option<seq<string>>,
    summary: Option<string>,
    coverImage: Option<string>,
    slug: Option<string>,
    draft: bool,
    updated: Option<string>,
    layout: Option<string>)

  /** The YAML library, opaque: frontmatter text to a record or an error message. */
  type YamlDecoder = string -> Result<RawMetadata, string>

  /** `PostMetadata::new()`: the all-defaults record. */
  function New(): (m: PostMetadata)
    ensures m.title == "" && !m.draft
    ensures m.date.None? && m.author.None? && m.tags.None? && m.categories.None? && m.summary.None?
    ensures m.coverImage.None? && m.slug.None? && m.updated.None? && m.layout.None?
  {
    PostMetadata("", None, None, None, None, None, None, None, false, None, None)
  }

  /** `is_draft` */
  function IsDraft(m: PostMetadata): (r: bool)
    ensures r <==> m.draft
  {
    m.draft
  }

  /**
   * `PostMetadata::from_yaml`: the opaque decoder, then `deserialize_date` on `date` and
   * `deserialize_datetime` on `updated`; a decoder error is passed on.
   */
  function FromYaml(yaml: string, decode: YamlDecoder): (r: Result<PostMetadata, string>)
    ensures r.Err? <==> decode(yaml).Err?
    ensures r.Err? ==> r.error == decode(yaml).error
    ensures r.Ok? ==> r.value.date == DeserializeDate(decode(yaml).value.date)
    ensures r.Ok? ==> r.value.updated == DeserializeDatetime(decode(yaml).value.updated)
    ensures r.Ok? ==> r.value.slug == decode(yaml).value.slug && r.value.draft == decode(yaml).value.draft
    ensures r.Ok? ==> r.value.title == decode(yaml).value.title && r.value.author == decode(yaml).value.author
    ensures r.Ok? ==> r.value.tags == decode(yaml).value.tags && r.value.categories == decode(yaml).value.categories
    ensures r.Ok? ==> r.value.summary == decode(yaml).value.summary && r.value.coverImage == decode(yaml).value.coverImage
    ensures r.Ok? ==> r.value.layout == decode(yaml).value.layout
  {
    match decode(yaml)
    case Err(e) => Err(e)
    case Ok(raw) =>
      Ok(PostMetadata(raw.title, DeserializeDate(raw.date), raw.author, raw.tags, raw.categories,
                      raw.summary, raw.coverImage, raw.slug, raw.draft,
                      DeserializeDatetime(raw.updated), raw.layout))
  }

  // ---------------------------------------------------------------------------
  // Slug normalisation: lower-case, ' ' and '_' to '-', keep alphanumerics and '-'.
  // ---------------------------------------------------------------------------

  predicate IsAsciiAlphanumeric(c: char) {
    'a' <= c <= 'z' || 'A' <= c <= 'Z' || '0' <= c <= '9'
  }

  /** A character a derived slug may hold. */
  predicate IsSlugChar(c: char) {
    'a' <= c <= 'z' || '0' <= c <= '9' || c == '-'
  }

  predicate IsSlugText(s: string) {
    forall i :: 0 <= i < |s| ==> IsSlugChar(s[i])
  }

  function LowerChar(c: char): char {
    if 'A' <= c <= 'Z' then ((c as int) + 32) as char else c
  }

  /** `to_lowercase` on ASCII text. */
  function ToLower(s: string): (r: string)
    ensures |r| == |s|
    ensures forall i :: 0 <= i < |s| ==> r[i] == LowerChar(s[i])
  {
    if s == [] then [] else ToLower(s[..|s| - 1]) + [LowerChar(s[|s| - 1])]
  }

  /** `.chars().filter(|c| c.is_alphanumeric() || *c == '-').collect()` on ASCII text. */
  function KeepSlugChars(s: string): (r: string)
    ensures |r| <= |s|
    ensures forall i :: 0 <= i < |r| ==> IsAsciiAlphanumeric(r[i]) || r[i] == '-'
    ensures forall i :: 0 <= i < |r| ==> r[i] in s
  {
    if s == [] then []
    else
      var c := s[|s| - 1];
      var init := KeepSlugChars(s[..|s| - 1]);
      assert forall i :: 0 <= i < |init| ==> init[i] in s by {
        forall i | 0 <= i < |init| ensures init[i] in s {
          assert init[i] in s[..|s| - 1];
        }
      }
      if IsAsciiAlphanumeric(c) || c == '-' then init + [c] else init
  }

  /** The normalisation chain of `get_slug`; the source's text is ASCII here. */
  function Normalize(s: string): (r: string)
    requires IsAscii(s)
    ensures |r| <= |s|
    ensures IsSlugText(r)
  {
    var lowered := ToLower(s);
    var dashed := ReplaceChar(ReplaceChar(lowered, ' ', '-'), '_', '-');
    var r := KeepSlugChars(dashed);
    assert forall i :: 0 <= i < |dashed| ==> !('A' <= dashed[i] <= 'Z');
    r
  }

  lemma {:induction false} KeepSlugCharsKeepsSlugText(s: string)
    requires IsSlugText(s)
    ensures KeepSlugChars(s) == s
  {
    if s != [] {
      KeepSlugCharsKeepsSlugText(s[..|s| - 1]);
      assert s == s[..|s| - 1] + [s[|s| - 1]];
    }
  }

  /** The filter looks at one character at a time, so it distributes over concatenation. */
  lemma {:induction false} KeepSlugCharsConcat(a: string, b: string)
    ensures KeepSlugChars(a + b) == KeepSlugChars(a) + KeepSlugChars(b)
    decreases |b|
  {
    if b == [] {
      assert a + b == a;
    } else {
      var init := b[..|b| - 1];
      KeepSlugCharsConcat(a, init);
      assert (a + b)[..|a + b| - 1] == a + init;
      assert (a + b)[|a + b| - 1] == b[|b| - 1];
    }
  }

  /** One character is kept exactly when it is an ASCII alphanumeric or `-`. */
  lemma KeepSlugCharsOfChar(c: char)
    ensures KeepSlugChars([c]) == if IsAsciiAlphanumeric(c) || c == '-' then [c] else []
  {
    assert [c][..0] == [];
  }

  /** Lower-casing works character by character. */
  lemma ToLowerConcat(a: string, b: string)
    ensures ToLower(a + b) == ToLower(a) + ToLower(b)
  {
    assert forall i :: 0 <= i < |a + b| ==> ToLower(a + b)[i] == (ToLower(a) + ToLower(b))[i];
  }

  /** So do the two replacements. */
  lemma ReplaceConcat(a: string, b: string)
    ensures ReplaceChar(ReplaceChar(a + b, ' ', '-'), '_', '-')
         == ReplaceChar(ReplaceChar(a, ' ', '-'), '_', '-') + ReplaceChar(ReplaceChar(b, ' ', '-'), '_', '-')
  {
    var x := ReplaceChar(ReplaceChar(a + b, ' ', '-'), '_', '-');
    var y := ReplaceChar(ReplaceChar(a, ' ', '-'), '_', '-') + ReplaceChar(ReplaceChar(b, ' ', '-'), '_', '-');
    assert |x| == |y|;
    forall i | 0 <= i < |x| ensures x[i] == y[i] {
      if i < |a| { assert (a + b)[i] == a[i]; } else { assert (a + b)[i] == b[i - |a|]; }
    }
  }

  /** Normalisation distributes over concatenation. */
  lemma NormalizeConcat(a: string, b: string)
    requires IsAscii(a) && IsAscii(b)
    ensures IsAscii(a + b) && Normalize(a + b) == Normalize(a) + Normalize(b)
  {
    ToLowerConcat(a, b);
    ReplaceConcat(ToLower(a), ToLower(b));
    KeepSlugCharsConcat(ReplaceChar(ReplaceChar(ToLower(a), ' ', '-'), '_', '-'),
                        ReplaceChar(ReplaceChar(ToLower(b), ' ', '-'), '_', '-'));
  }

  /**
   * What normalisation makes of one character: space and `_` become `-`, an ASCII
   * letter is lower-cased, a digit or `-` is kept, and anything else is dropped.
   */
  lemma NormalizeOfChar(c: char)
    requires IsAsciiChar(c)
    ensures Normalize([c]) == if c == ' ' || c == '_' then "-"
      else if IsAsciiAlphanumeric(c) || c == '-' then [LowerChar(c)] else []
  {
    var dashed := ReplaceChar(ReplaceChar(ToLower([c]), ' ', '-'), '_', '-');
    var d := if c == ' ' || c == '_' then '-' else LowerChar(c);
    assert dashed == [d];
    KeepSlugCharsOfChar(d);
  }

  /** Normalisation leaves slug text as it is. */
  lemma NormalizeKeepsSlugText(s: string)
    requires IsSlugText(s)
    ensures IsAscii(s) && Normalize(s) == s
  {
    assert ToLower(s) == s;
    assert ReplaceChar(ReplaceChar(s, ' ', '-'), '_', '-') == s;
    KeepSlugCharsKeepsSlugText(s);
  }

  /** Normalising twice is normalising once. */
  lemma NormalizeIdempotent(s: string)
    requires IsAscii(s)
    ensures IsAscii(Normalize(s)) && Normalize(Normalize(s)) == Normalize(s)
  {
    NormalizeKeepsSlugText(Normalize(s));
  }

  // ---------------------------------------------------------------------------
  // The `YYYY-MM-DD-` prefix test, as metadata.rs writes it and as intended.
  // ---------------------------------------------------------------------------

  /**
   * The condition metadata.rs tests: more than 11 characters, four leading digits,
   * the first `-` after them at offset 4 of `stem[4..]`, and `stem[8] == '-'`.
   */
  predicate StripsAsWritten(stem: string) {
    |stem| > 11 && AllDigits(stem[..4])
    && (forall k :: 4 <= k < 8 ==> stem[k] != '-') && stem[8] == '-'
  }

  /** The prefix strip of metadata.rs, as written. */
  function StripDatePrefixAsWritten(stem: string): (r: string)
    ensures r == if StripsAsWritten(stem) then stem[11..] else stem
  {
    if |stem| > 11 && AllDigits(stem[..4]) then
      match IndexOfChar(stem[4..], '-')
      case Some(dashPos) =>
        if dashPos == 4 && stem[8..9] == "-" then stem[11..] else stem
      case None => stem
    else stem
  }

  /**
   * The test the prefix strip evidently means (and build.rs performs): more than 11
   * characters, four leading digits, and `-` at offsets 4 and 7.
   */
  predicate HasDatePrefix(stem: string) {
    |stem| > 11 && AllDigits(stem[..4]) && stem[4] == '-' && stem[7] == '-'
  }

  /** The prefix strip with the intended test, written as build.rs writes it. */
  function StripDatePrefix(stem: string): (r: string)
    ensures r == if HasDatePrefix(stem) then stem[11..] else stem
  {
    if |stem| > 11 && AllDigits(stem[..4]) then
      match IndexOfChar(stem[4..], '-')
      case Some(dashPos) =>
        if dashPos == 0 && |stem| > 10 && stem[7..8] == "-" then stem[11..] else stem
      case None => stem
    else stem
  }

  /** metadata.rs never strips a real `YYYY-MM-DD-` prefix: its test needs `stem[4] != '-'`. */
  lemma AsWrittenNeverStripsDatedStem(stem: string)
    requires |stem| > 4 && stem[4] == '-'
    ensures StripDatePrefixAsWritten(stem) == stem
  {
  }

  /** The intended strip removes exactly the `YYYY-MM-DD-` prefix of a dated stem. */
  lemma {:induction false} StripDatePrefixOfDatedStem(d: Date, rest: string)
    requires FourDigitDate(d) && rest != []
    ensures StripDatePrefix(FormatDate(d, '-') + "-" + rest) == rest
  {
    var stem := FormatDate(d, '-') + "-" + rest;
    assert stem[..4] == Digits4(d.year);
    assert stem[4] == '-' && stem[7] == '-';
    assert stem[11..] == rest;
  }

  /** The intended test looks at shape only: a stem with no date in its first 11 characters loses them too. */
  lemma StripDatePrefixIsShapeOnly()
    ensures HasDatePrefix("2025-ab-cdXrest") && StripDatePrefix("2025-ab-cdXrest") == "rest"
  {
    assert AllDigits("2025-ab-cdXrest"[..4]);
  }

  /** The stem a slug is derived from; `unwrap_or(filename)` when there is none. */
  function SlugStem(filename: string): (r: string)
    ensures IsAscii(filename) ==> IsAscii(r)
  {
    match FileStem(filename)
    case Some(stem) => stem
    case None => filename
  }

  /**
   * `get_slug` as metadata.rs writes it: an explicit slug verbatim, otherwise the
   * normalised stem after metadata.rs's prefix test.
   */
  function GetSlugAsWritten(m: PostMetadata, filename: string): (r: string)
    requires m.slug.Some? || IsAscii(filename)
    ensures m.slug.Some? ==> r == m.slug.value
    ensures m.slug.None? ==> IsSlugText(r) && |r| <= |SlugStem(filename)|
    ensures m.slug.None? && !StripsAsWritten(SlugStem(filename)) ==> r == Normalize(SlugStem(filename))
    ensures m.slug.None? && StripsAsWritten(SlugStem(filename)) ==> r == Normalize(SlugStem(filename)[11..])
  {
    match m.slug
    case Some(s) => s
    case None => Normalize(StripDatePrefixAsWritten(SlugStem(filename)))
  }

  /**
   * `get_slug` with the intended prefix test: an explicit slug is returned verbatim,
   * without normalisation; otherwise the slug is slug text derived from the file stem.
   */
  function GetSlug(m: PostMetadata, filename: string): (r: string)
    requires m.slug.Some? || IsAscii(filename)
    ensures m.slug.Some? ==> r == m.slug.value
    ensures m.slug.None? ==> IsSlugText(r) && |r| <= |SlugStem(filename)|
    ensures m.slug.None? && !HasDatePrefix(SlugStem(filename)) ==> r == Normalize(SlugStem(filename))
    ensures m.slug.None? && HasDatePrefix(SlugStem(filename)) ==> r == Normalize(SlugStem(filename)[11..])
  {
    match m.slug
    case Some(s) => s
    case None => Normalize(StripDatePrefix(SlugStem(filename)))
  }

  /** With no file name, both variants derive the empty slug. */
  lemma SlugOfEmptyFileName(m: PostMetadata)
    requires m.slug.None?
    ensures GetSlug(m, "") == "" && GetSlugAsWritten(m, "") == ""
  {
    assert FileName("") == None;
  }

  lemma {:induction false} DatedFileStem(d: Date, rest: string)
    requires FourDigitDate(d)
    requires forall i :: 0 <= i < |rest| ==> rest[i] != '/' && rest[i] != '.'
    ensures FileStem(FormatDate(d, '-') + rest + ".md") == Some(FormatDate(d, '-') + rest)
    ensures SlugStem(FormatDate(d, '-') + rest + ".md") == FormatDate(d, '-') + rest
    ensures Extension(FormatDate(d, '-') + rest + ".md") == Some("md")
  {
    var stem := FormatDate(d, '-') + rest;
    var name := stem + ".md";
    var date := FormatDate(d, '-');
    assert forall i :: 0 <= i < |date| ==> date[i] != '/' && date[i] != '.' by {
      assert date == Digits4(d.year) + ['-'] + Digits2(d.month) + ['-'] + Digits2(d.day);
    }
    assert forall i :: 0 <= i < |stem| ==> stem[i] != '/' && stem[i] != '.' by {
      forall i | 0 <= i < |stem| ensures stem[i] != '/' && stem[i] != '.' {
        if i < |date| { assert stem[i] == date[i]; } else { assert stem[i] == rest[i - |date|]; }
      }
    }
    assert forall i :: 0 <= i < |name| ==> name[i] != '/' by {
      forall i | 0 <= i < |name| ensures name[i] != '/' {
        if i < |stem| { assert name[i] == stem[i]; }
      }
    }
    assert LastIndexOf(name, '/') == None;
    assert FileName(name) == Some(name);
    assert name[|stem|] == '.';
    assert LastIndexOf(name, '.') == Some(|stem|);
    assert name[..|stem|] == stem;
    assert name[|stem| + 1..] == "md";
  }

  /**
   * The file name of the source's own slug test, `2025-11-23-test-article.md`
   * (spelled as a concatenation so that the verifier reasons about it symbolically).
   */
  function TestFileName(): string {
    "2025-11-23" + "-test-article" + ".md"
  }

  lemma TestFileNameIsAscii()
    ensures IsAscii(TestFileName())
  {
    var name := TestFileName();
    assert forall i :: 0 <= i < |name| ==> IsAsciiChar(name[i]);
  }

  lemma TestDate()
    ensures FormatDate(Date(2025, 11, 23), '-') == "2025-11-23"
  {
    assert Digits4(2025) == "2025";
    assert Digits2(11) == "11" && Digits2(23) == "23";
  }

  lemma TestFileStem()
    ensures FileStem(TestFileName()) == Some("2025-11-23" + "-test-article")
    ensures SlugStem(TestFileName()) == "2025-11-23" + "-test-article"
  {
    TestDate();
    DatedFileStem(Date(2025, 11, 23), "-test-article");
  }

  lemma TestStemStripped()
    ensures StripDatePrefix("2025-11-23" + "-test-article") == "test-article"
  {
    TestDate();
    StripDatePrefixOfDatedStem(Date(2025, 11, 23), "test-article");
    assert FormatDate(Date(2025, 11, 23), '-') + "-" + "test-article" == "2025-11-23" + "-test-article";
  }

  lemma TestStemKeptAsWritten()
    ensures StripDatePrefixAsWritten("2025-11-23" + "-test-article") == "2025-11-23" + "-test-article"
    ensures Normalize("2025-11-23" + "-test-article") == "2025-11-23" + "-test-article"
  {
    AsWrittenNeverStripsDatedStem("2025-11-23" + "-test-article");
    assert IsSlugText("2025-11-23" + "-test-article");
    NormalizeKeepsSlugText("2025-11-23" + "-test-article");
  }

  lemma TestSlugNormalized()
    ensures Normalize("test-article") == "test-article"
  {
    NormalizeKeepsSlugText("test-article");
  }

  /**
   * The source's slug test, with the intended prefix test: for any metadata without
   * an explicit slug, the dated file name yields `test-article`.
   */
  lemma GetSlugTestVector(m: PostMetadata)
    requires m.slug.None?
    ensures GetSlug(m, TestFileName()) == "test-article"
  {
    TestFileStem();
    TestStemStripped();
    TestSlugNormalized();
  }

  /** The second half of the source's slug test: an explicit slug wins over the file name. */
  lemma ExplicitSlugTestVector(m: PostMetadata)
    requires m.slug == Some("custom-slug")
    ensures GetSlug(m, TestFileName()) == "custom-slug"
    ensures GetSlugAsWritten(m, TestFileName()) == "custom-slug"
  {
  }

  /**
   * metadata.rs as written fails its own test: the dated file name yields the
   * whole stem `2025-11-23-test-article`, not `test-article`.
   */
  lemma GetSlugAsWrittenTestVector(m: PostMetadata)
    requires m.slug.None?
    ensures GetSlugAsWritten(m, TestFileName()) == "2025-11-23" + "-test-article"
    ensures GetSlugAsWritten(m, TestFileName()) != "test-article"
  {
    TestFileStem();
    TestStemKeptAsWritten();
  }
}
