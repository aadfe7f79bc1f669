/**
 * Turning the embedded `posts` directory into posts (about.rs:135-158 and the
 * `filter_map` closure of about.rs:164-198): keep the `.md` files, read the
 * date and the slug from the file stem, and take the text as the body.
 */
module Posts {
  import opened Wrappers
  import opened Slugs
  import opened Dates

  /** `struct Post` (about.rs:11-15). */
  datatype Post = Post(slug: string, content: string, date: DateTime)

  /** One file of the embedded directory: its file name, and its contents as
      text when they are valid UTF-8 (`contents_utf8`), `None` otherwise. */
  datatype EmbeddedFile = EmbeddedFile(name: string, text: Option<string>)

  /** The position of the last `.` in `s`, if any. */
  function LastDot(s: string): (r: Option<nat>)
    ensures r.Some? ==> r.value < |s| && s[r.value] == '.' && '.' !in s[r.value + 1..]
    ensures r.None? <==> '.' !in s
  {
    if s == [] then None
    else if s[|s| - 1] == '.' then Some(|s| - 1)
    else
      var r := LastDot(s[..|s| - 1]);
      assert s == s[..|s| - 1] + [s[|s| - 1]];
      assert r.Some? ==> s[r.value + 1..] == s[..|s| - 1][r.value + 1..] + [s[|s| - 1]];
      r
  }

  /** A file name split the way `Path::file_stem` and `Path::extension` split it. */
  datatype NameParts = NameParts(stem: string, extension: Option<string>)

  /**
   * The file name splits at its last dot, unless that dot is the name's first
   * character (`.md` has no extension) or the name is `..`; without an
   * extension the stem is the whole name.  SplitNameUnique gives the converse.
   */
  function SplitName(name: string): (r: NameParts)
    ensures r.extension.Some? ==>
              && name == r.stem + "." + r.extension.value
              && r.stem != [] && '.' !in r.extension.value && name != ".."
    ensures r.extension.None? ==> r.stem == name
  {
    if name == ".." then NameParts(name, None)
    else match LastDot(name)
      case None => NameParts(name, None)
      case Some(k) =>
        if k == 0 then NameParts(name, None)
        else
          assert name == name[..k] + "." + name[k + 1..];
          NameParts(name[..k], Some(name[k + 1..]))
  }

  lemma SplitNameUnique(name: string, stem: string, ext: string)
    requires name == stem + "." + ext && stem != [] && '.' !in ext && name != ".."
    ensures SplitName(name) == NameParts(stem, Some(ext))
  {
    var k := LastDot(name);
    assert name[|stem|] == '.';
    assert name[|stem| + 1..] == ext;
    if k.None? {
      assert false;
    }
    assert name[..|stem|] == stem;
  }

  /** The extension test of about.rs:170: exactly `md`, and present. */
  predicate IsMarkdown(name: string) {
    SplitName(name).extension == Some("md")
  }

  /**
   * `extract_slug_from_filename` (about.rs:135-158).  A stem longer than
   * eleven characters loses exactly its first eleven (`YYYY-MM-DD-`); a
   * shorter one is slugified like a title, which keeps only slug characters
   * and never lengthens it.
   */
  function ExtractSlug(stem: string): (r: string)
    ensures |stem| > 11 ==> stem == stem[..11] + r
    ensures |stem| <= 11 ==> r == Slugify(stem)
    ensures |stem| <= 11 ==> IsSlugText(r) && |r| <= |stem|
    ensures |stem| <= 11 ==> CountHyphens(r) == CountWhitespace(stem)
  {
    if |stem| > 11 then stem[11..] else Slugify(stem)
  }

  /**
   * The date block of about.rs:175-187: the first ten characters of the stem
   * name a calendar day, and the post is dated at that day's midnight;
   * otherwise (too short, or not a date) it is dated `now`.
   */
  function FileDate(stem: string, now: DateTime): (r: DateTime)
    ensures |stem| < 10 || ParseDate(stem[..10]).None? ==> r == now
    ensures |stem| >= 10 && ParseDate(stem[..10]).Some? ==>
              && r.sinceMidnight == 0
              && IsCalendarDate(r.date)
              && FormatDate(r.date) == stem[..10]
  {
    if |stem| >= 10 then
      match ParseDate(stem[..10])
      case Some(d) => Midnight(d)
      case None => now
    else now
  }

  /** The body of a post: the text, or the empty string when the bytes are not UTF-8 (about.rs:189). */
  function Body(text: Option<string>): string {
    match text
    case Some(t) => t
    case None => ""
  }

  /**
   * The `filter_map` closure of about.rs:166-197.  A file yields a post
   * exactly when its extension is `md`, whatever its contents; the slug and
   * the date come from its stem.
   */
  function ParseFile(f: EmbeddedFile, now: DateTime): (r: Option<Post>)
    ensures r.Some? <==> IsMarkdown(f.name)
    ensures r.Some? ==> r.value.content == Body(f.text)
    ensures r.Some? ==>
              var stem := SplitName(f.name).stem;
              r.value.slug == ExtractSlug(stem) && r.value.date == FileDate(stem, now)
  {
    if !IsMarkdown(f.name) then None
    else
      var stem := SplitName(f.name).stem;
      Some(Post(ExtractSlug(stem), Body(f.text), FileDate(stem, now)))
  }

  /**
   * The collected posts in discovery order, before sorting (about.rs:164-198).
   * `clock[j]` is the clock reading taken while `files[j]` is processed: an
   * undated file is dated with the reading of its own turn, so two undated
   * files get the readings of two different moments.  Every post comes from
   * a file of the directory, and there are never more posts than files.
   */
  function Discover(files: seq<EmbeddedFile>, clock: seq<DateTime>): (r: seq<Post>)
    requires |clock| == |files|
    ensures |r| <= |files|
    ensures forall i :: 0 <= i < |r| ==> exists j :: 0 <= j < |files| && ParseFile(files[j], clock[j]) == Some(r[i])
  {
    if files == [] then []
    else
      var rest := Discover(files[1..], clock[1..]);
      assert forall i :: 0 <= i < |rest| ==> exists j :: 1 <= j < |files| && ParseFile(files[j], clock[j]) == Some(rest[i]) by {
        forall i | 0 <= i < |rest|
          ensures exists j :: 1 <= j < |files| && ParseFile(files[j], clock[j]) == Some(rest[i])
        {
          var j :| 0 <= j < |files[1..]| && ParseFile(files[1..][j], clock[1..][j]) == Some(rest[i]);
          assert ParseFile(files[j + 1], clock[j + 1]) == Some(rest[i]);
        }
      }
      match ParseFile(files[0], clock[0])
      case Some(p) => [p] + rest
      case None => rest
  }

  /** Discovery keeps the directory's order: the posts of two runs of files are
      the posts of the first run followed by those of the second. */
  lemma {:induction false} DiscoverAppend(a: seq<EmbeddedFile>, b: seq<EmbeddedFile>, ca: seq<DateTime>, cb: seq<DateTime>)
    requires |ca| == |a| && |cb| == |b|
    ensures Discover(a + b, ca + cb) == Discover(a, ca) + Discover(b, cb)
  {
    if a == [] {
      assert a + b == b && ca + cb == cb;
    } else {
      assert (a + b)[0] == a[0] && (a + b)[1..] == a[1..] + b;
      assert (ca + cb)[0] == ca[0] && (ca + cb)[1..] == ca[1..] + cb;
      DiscoverAppend(a[1..], b, ca[1..], cb);
    }
  }

  function CountMarkdown(files: seq<EmbeddedFile>): nat {
    if files == [] then 0 else (if IsMarkdown(files[0].name) then 1 else 0) + CountMarkdown(files[1..])
  }

  /** One post per markdown file, none for any other file. */
  lemma {:induction false} DiscoverCount(files: seq<EmbeddedFile>, clock: seq<DateTime>)
    requires |clock| == |files|
    ensures |Discover(files, clock)| == CountMarkdown(files)
  {
    if files != [] {
      DiscoverCount(files[1..], clock[1..]);
    }
  }
}
