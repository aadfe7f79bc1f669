/**
 * Concrete runs of the model: files that are kept or skipped, and a three-post index
 * navigated by position and by slug.
 */
module Scenarios {
  import opened Wrappers
  import opened Slugs
  import opened Dates
  import opened Posts
  import opened Ordering
  import opened PostIndex
  import opened Navigation

  /** A file whose bytes are not UTF-8 still becomes a post, with an empty body. */
  lemma NonTextFileKept(now: DateTime)
    ensures ParseFile(EmbeddedFile("notes.md", None), now).Some?
    ensures ParseFile(EmbeddedFile("notes.md", None), now).value.content == ""
    ensures ParseFile(EmbeddedFile("notes.md", None), now).value.date == now
  {
    SplitNameUnique("notes.md", "notes", "md");
  }

  /** A name without a dot has no extension. */
  lemma NoExtensionSkipped(now: DateTime)
    ensures ParseFile(EmbeddedFile("README", Some("")), now).None?
  {
    assert '.' !in "README";
  }

  /** Another extension than `md`. */
  lemma OtherExtensionSkipped(now: DateTime)
    ensures ParseFile(EmbeddedFile("photo.png", Some("")), now).None?
  {
    SplitNameUnique("photo.png", "photo", "png");
  }

  /** A name whose only dot is its first character has no extension. */
  lemma DotFileSkipped(now: DateTime)
    ensures ParseFile(EmbeddedFile(".md", Some("")), now).None?
  {
  }

  /** A file without the `md` extension is skipped. */
  lemma OtherFilesSkipped(now: DateTime)
    ensures ParseFile(EmbeddedFile("README", Some("")), now).None?
    ensures ParseFile(EmbeddedFile("photo.png", Some("")), now).None?
    ensures ParseFile(EmbeddedFile(".md", Some("")), now).None?
  {
    NoExtensionSkipped(now);
    OtherExtensionSkipped(now);
    DotFileSkipped(now);
  }

  /** Two files that each yield a post are discovered in order. */
  lemma DiscoverTwo(fa: EmbeddedFile, fb: EmbeddedFile, t1: DateTime, t2: DateTime, pa: Post, pb: Post)
    requires ParseFile(fa, t1) == Some(pa) && ParseFile(fb, t2) == Some(pb)
    ensures Discover([fa, fb], [t1, t2]) == [pa, pb]
  {
    assert [fa, fb][1..] == [fb] && [t1, t2][1..] == [t2];
    assert [fb][1..] == [] && [t2][1..] == [];
  }

  /** Of two posts, the strictly newer one is sorted first. */
  lemma SortTwo(pa: Post, pb: Post)
    requires Earlier(pa.date, pb.date)
    ensures SortNewestFirst([pa, pb]) == [pb, pa]
  {
    assert SortNewestFirst([pa, pb]) == Insert(pb, [pa]) by {
      assert [pa, pb][..1] == [pa] && [pa][..0] == [];
    }
    InsertAt(pb, [pa], 0);
  }

  /**
   * Two undated markdown files (stems shorter than a date) read the clock on
   * their own turns: when the second reading is later, the second file's
   * post is the newer one and the index lists it first, reversing discovery
   * order.
   */
  lemma UndatedPostsFollowTheClock(fa: EmbeddedFile, fb: EmbeddedFile, t1: DateTime, t2: DateTime)
    requires IsMarkdown(fa.name) && |SplitName(fa.name).stem| < 10
    requires IsMarkdown(fb.name) && |SplitName(fb.name).stem| < 10
    requires Earlier(t1, t2)
    ensures var r := SortNewestFirst(Discover([fa, fb], [t1, t2]));
            && r == [ParseFile(fb, t2).value, ParseFile(fa, t1).value]
            && r[0].date == t2 && r[1].date == t1
  {
    var pa, pb := ParseFile(fa, t1).value, ParseFile(fb, t2).value;
    DiscoverTwo(fa, fb, t1, t2, pa, pb);
    SortTwo(pa, pb);
  }

  function At(y: int, m: int, d: int, slug: string): Post {
    Post(slug, "", Midnight(Date(y, m, d)))
  }

  /** Posts dated 1, 3 and 2 January 2024, discovered as A, B, C, sort as [B, C, A]. */
  lemma ThreePostsSorted()
    ensures var a, b, c := At(2024, 1, 1, "a"), At(2024, 1, 3, "b"), At(2024, 1, 2, "c");
            SortNewestFirst([a, b, c]) == [b, c, a]
  {
    var a, b, c := At(2024, 1, 1, "a"), At(2024, 1, 3, "b"), At(2024, 1, 2, "c");
    assert SortNewestFirst([a, b, c]) == Insert(c, SortNewestFirst([a, b])) by {
      assert [a, b, c][..2] == [a, b];
    }
    SortTwo(a, b);
    InsertAt(c, [b, a], 1);
    assert [b, a][..1] + [c] + [b, a][1..] == [b, c, a];
  }

  /** The index of the three posts, with the slug map the build fills. */
  function ThreeIndex(): Index {
    Index([At(2024, 1, 3, "b"), At(2024, 1, 2, "c"), At(2024, 1, 1, "a")], map["b" := 0, "c" := 1, "a" := 2])
  }

  /** Its slug map is the one the build produces for those posts. */
  lemma ThreeIndexConsistent()
    ensures Consistent(ThreeIndex())
  {
    var posts := ThreeIndex().posts;
    assert SlugsOf(posts) == {"b", "c", "a"} by {
      assert posts[0].slug == "b" && posts[1].slug == "c" && posts[2].slug == "a";
    }
  }

  /**
   * Position 0 offers only "next", position 2 only "previous", position 5
   * answers 404, and so does an unknown slug.
   */
  lemma ThreeIndexRoutes()
    ensures var idx := ThreeIndex();
            && PostRoute(idx, 0).Page?
            && PostRoute(idx, 0).view.controls.previous.None?
            && PostRoute(idx, 0).view.controls.next.Some?
            && PostRoute(idx, 2).Page?
            && PostRoute(idx, 2).view.controls.previous.Some?
            && PostRoute(idx, 2).view.controls.next.None?
            && PostRoute(idx, 5) == NotFound("No more posts")
            && PostSlugRoute(idx, "unknown-slug") == NotFound("Post not found")
  {
  }

  /**
   * Posts dated 1, 3 and 2 January 2024 (A, B, C, discovered in that order)
   * are indexed as [B, C, A] with a consistent slug map; position 0 offers
   * only "next", position 2 only "previous", position 5 answers 404.
   */
  lemma ThreePosts()
    ensures var a, b, c := At(2024, 1, 1, "a"), At(2024, 1, 3, "b"), At(2024, 1, 2, "c");
            ThreeIndex().posts == SortNewestFirst([a, b, c])
    ensures Consistent(ThreeIndex())
    ensures var idx := ThreeIndex();
            && PostRoute(idx, 0).view.controls == Controls(None, Some(PostsUrl(1)))
            && PostRoute(idx, 2).view.controls == Controls(Some(PostsUrl(1)), None)
            && PostRoute(idx, 5) == NotFound("No more posts")
            && PostSlugRoute(idx, "unknown-slug") == NotFound("Post not found")
  {
    ThreePostsSorted();
    ThreeIndexConsistent();
    ThreeIndexRoutes();
  }
}
