/**
 * The name and template of a new post, as `create_post` computes them
 * (main.rs:54-81, 94-100), and the round trip through the loader: the file
 * it names is picked up by the index with the slug and the date it was
 * created with.
 *
 * The clock is a parameter (`today`, the date of `Utc::now()`); the writes
 * to the file system are left out.
 */
module Scaffold {
  import opened Wrappers
  import opened Slugs
  import opened Dates
  import opened Posts

  /** What `create_post` would write: the title, the slug, the file name and the file's text. */
  datatype NewPost = NewPost(title: string, slug: string, fileName: string, template: string)

  /** The usage error of main.rs:55-59, or the new post. */
  datatype Outcome = Usage | Created(post: NewPost)

  /** The text of a new post (main.rs:94-100). */
  function Template(title: string): string {
    "# " + title + "\nWrite your subtitle here\n---\n\nWrite your post content here.\n"
  }

  /**
   * `create_post` (main.rs:54-81): the arguments after the program name are
   * the title; the slug keeps only slug characters, one hyphen per
   * whitespace character of the title; the file name is the date, a hyphen,
   * the slug and `.md`.
   */
  function CreatePost(args: seq<string>, today: Date): (r: Outcome)
    requires IsCalendarDate(today)
    ensures r.Usage? <==> |args| < 2
    ensures r.Created? ==> r.post.title == JoinWords(args[1..])
    ensures r.Created? ==> r.post.slug == Slugify(r.post.title)
    ensures r.Created? ==> IsSlugText(r.post.slug)
    ensures r.Created? ==> CountHyphens(r.post.slug) == CountWhitespace(r.post.title)
    ensures r.Created? ==> |r.post.slug| <= |r.post.title|
    ensures r.Created? ==> r.post.fileName == FormatDate(today) + "-" + r.post.slug + ".md"
    ensures r.Created? ==> r.post.template == Template(r.post.title)
  {
    if |args| < 2 then Usage
    else
      var title := JoinWords(args[1..]);
      var dateStr := FormatDate(today);
      var slug := Slugify(title);
      Created(NewPost(title, slug, dateStr + "-" + slug + ".md", Template(title)))
  }

  /**
   * Hyphens already in the arguments are dropped, so the slug has one hyphen
   * per space inserted between arguments plus one per whitespace character
   * inside them.
   */
  lemma SlugHyphensCountSeparators(args: seq<string>, today: Date)
    requires IsCalendarDate(today) && |args| >= 2
    ensures CountHyphens(CreatePost(args, today).post.slug) == SumWhitespace(args[1..]) + |args| - 2
  {
    JoinWordsShape(args[1..]);
  }

  /** The stem of a created file is the date, a hyphen and the slug; its extension is `md`. */
  lemma CreatedNameSplits(today: Date, slug: string)
    requires IsCalendarDate(today) && IsSlugText(slug)
    ensures SplitName(FormatDate(today) + "-" + slug + ".md") == NameParts(FormatDate(today) + "-" + slug, Some("md"))
  {
    var stem := FormatDate(today) + "-" + slug;
    assert forall i :: 0 <= i < |stem| ==> stem[i] != '.' by {
      forall i | 0 <= i < |stem|
        ensures stem[i] != '.'
      {
        if i >= 11 {
          assert stem[i] == slug[i - 11];
        }
      }
    }
    assert FormatDate(today) + "-" + slug + ".md" == stem + "." + "md";
    assert '.' !in "md";
    SplitNameUnique(stem + "." + "md", stem, "md");
  }

  /** The eight date digits `YYYYMMDD`. */
  function DateDigits(d: Date): (s: string)
    requires IsCalendarDate(d)
    ensures |s| == 8
  {
    Pad4(d.year) + Pad2(d.month) + Pad2(d.day)
  }

  predicate IsLowerAlnumText(s: string) {
    forall i :: 0 <= i < |s| ==> ('0' <= s[i] <= '9') || ('a' <= s[i] <= 'z')
  }

  /** A hyphen between two texts contributes nothing to the slug. */
  lemma SlugifyHyphenJoin(a: string, b: string)
    ensures Slugify(a + "-" + b) == Slugify(a) + Slugify(b)
  {
    assert Slugify("-") == [];
    assert Slugify(a + "-") == Slugify(a) by {
      SlugifyAppend(a, "-");
    }
    SlugifyAppend(a + "-", b);
  }

  /** Slugify drops the separating hyphens of hyphen-separated lower-case alphanumeric parts. */
  lemma SlugifyDropsSeparators(y: string, m: string, d: string)
    requires IsLowerAlnumText(y) && IsLowerAlnumText(m) && IsLowerAlnumText(d)
    ensures Slugify(y + "-" + m + "-" + d + "-") == y + m + d
  {
    var whole := y + "-" + m + "-" + d;
    SlugifyHyphenJoin(whole, []);
    assert whole + "-" + [] == whole + "-";
    SlugifyHyphenJoin(y + "-" + m, d);
    SlugifyHyphenJoin(y, m);
    SlugifyFixesLowerAlnum(y);
    SlugifyFixesLowerAlnum(m);
    SlugifyFixesLowerAlnum(d);
  }

  /** The fallback slug of the stem `YYYY-MM-DD-` is its eight digits. */
  lemma DateStemSlug(d: Date)
    requires IsCalendarDate(d)
    ensures ExtractSlug(FormatDate(d) + "-") == DateDigits(d)
  {
    var y, m, dd := Pad4(d.year), Pad2(d.month), Pad2(d.day);
    assert IsLowerAlnumText(y) && IsLowerAlnumText(m) && IsLowerAlnumText(dd) by {
      assert y == Pad2(d.year / 100) + Pad2(d.year % 100);
    }
    SlugifyDropsSeparators(y, m, dd);
  }

  /** The stem `YYYY-MM-DD-slug` is dated at that day's midnight, whatever the slug. */
  lemma CreatedStemDate(today: Date, slug: string, now: DateTime)
    requires IsCalendarDate(today)
    ensures FileDate(FormatDate(today) + "-" + slug, now) == Midnight(today)
  {
    var stem := FormatDate(today) + "-" + slug;
    assert stem[..10] == FormatDate(today);
    ParseFormatRoundTrip(today);
  }

  /** The stem `YYYY-MM-DD-slug` gives back the slug, or the date digits when the slug is empty. */
  lemma CreatedStemSlug(today: Date, slug: string)
    requires IsCalendarDate(today)
    ensures ExtractSlug(FormatDate(today) + "-" + slug) == if slug != [] then slug else DateDigits(today)
  {
    var stem := FormatDate(today) + "-" + slug;
    if slug == [] {
      assert stem == FormatDate(today) + "-";
      DateStemSlug(today);
    } else {
      assert stem[11..] == slug;
    }
  }

  /**
   * The file a successful `create_post` names is loaded as a post dated at
   * midnight of the creation day, with the template as its body.  Its slug
   * is the created slug when that is not empty; an empty slug leaves the
   * eleven-character stem `YYYY-MM-DD-`, which falls back to the date digits.
   */
  lemma {:induction false} CreatedPostIsLoaded(args: seq<string>, today: Date, now: DateTime)
    requires IsCalendarDate(today) && |args| >= 2
    ensures var np := CreatePost(args, today).post;
            ParseFile(EmbeddedFile(np.fileName, Some(np.template)), now)
            == Some(Post(if np.slug != [] then np.slug else DateDigits(today), np.template, Midnight(today)))
  {
    var np := CreatePost(args, today).post;
    CreatedNameSplits(today, np.slug);
    CreatedStemDate(today, np.slug, now);
    CreatedStemSlug(today, np.slug);
  }

  /** The loaded slug is the created one exactly when the created one is not empty. */
  lemma SlugRoundTripIff(args: seq<string>, today: Date, now: DateTime)
    requires IsCalendarDate(today) && |args| >= 2
    ensures var np := CreatePost(args, today).post;
            var loaded := ParseFile(EmbeddedFile(np.fileName, Some(np.template)), now);
            loaded.Some? && loaded.value.slug == np.slug <==> np.slug != []
  {
    CreatedPostIsLoaded(args, today, now);
  }
}
