/**
 * Lookups and navigation over a built index (about.rs:37-40, 93, 242-302):
 * the post at a position, the post with a slug, the slugs of the neighbours,
 * the controls a rendered post offers, and the outcome of the two routes.
 *
 * The HTML is left out; what remains is which controls appear and where they
 * point.
 */
module Navigation {
  import opened Wrappers
  import opened Dates
  import opened Posts
  import opened PostIndex

  /** `get_post` (about.rs:242-244): the post at `page`, when there is one. */
  function GetPost(idx: Index, page: nat): (r: Option<Post>)
    ensures r.Some? <==> page < |idx.posts|
    ensures r.Some? ==> r.value == idx.posts[page]
  {
    if page < |idx.posts| then Some(idx.posts[page]) else None
  }

  /**
   * `get_post_by_slug` (about.rs:246-250): the map gives a position, which is
   * then looked up in the posts.  Whatever it returns is a post together with
   * the position it sits at, and that position is the map's entry.
   */
  function GetPostBySlug(idx: Index, slug: string): (r: Option<(Post, nat)>)
    ensures r.Some? ==> slug in idx.slugToIndex && r.value.1 == idx.slugToIndex[slug]
    ensures r.Some? ==> r.value.1 < |idx.posts| && r.value.0 == idx.posts[r.value.1]
    ensures r.None? <==> slug !in idx.slugToIndex || idx.slugToIndex[slug] >= |idx.posts|
  {
    if slug in idx.slugToIndex && idx.slugToIndex[slug] < |idx.posts| then
      var i := idx.slugToIndex[slug];
      Some((idx.posts[i], i))
    else None
  }

  /**
   * On a built index a slug is found exactly when some post carries it, and
   * then the result is the last post carrying it.
   */
  lemma GetPostBySlugFinds(idx: Index, slug: string)
    requires Consistent(idx)
    ensures GetPostBySlug(idx, slug).Some? <==> slug in SlugsOf(idx.posts)
    ensures GetPostBySlug(idx, slug).Some? ==>
              var (p, i) := GetPostBySlug(idx, slug).value;
              p.slug == slug && forall j :: i < j < |idx.posts| ==> idx.posts[j].slug != slug
  {
  }

  /**
   * Position and slug addressing agree on a post exactly when no later post
   * shares its slug: an earlier duplicate is shadowed by the later one.
   */
  lemma {:induction false} SlugFindsPositionIff(idx: Index, i: nat)
    requires Consistent(idx) && i < |idx.posts|
    ensures GetPostBySlug(idx, idx.posts[i].slug) == Some((idx.posts[i], i))
            <==> forall j :: i < j < |idx.posts| ==> idx.posts[j].slug != idx.posts[i].slug
  {
    var slug := idx.posts[i].slug;
    assert slug in SlugsOf(idx.posts);
    var k := idx.slugToIndex[slug];
    if !forall j :: i < j < |idx.posts| ==> idx.posts[j].slug != slug {
      var j :| i < j < |idx.posts| && idx.posts[j].slug == slug;
      assert k >= j;
    }
  }

  /** With unique slugs the two addressing schemes always agree. */
  lemma SlugFindsPosition(idx: Index, i: nat)
    requires Consistent(idx) && UniqueSlugs(idx.posts) && i < |idx.posts|
    ensures GetPostBySlug(idx, GetPost(idx, i).value.slug) == Some((idx.posts[i], i))
  {
    SlugFindsPositionIff(idx, i);
  }

  /**
   * `get_adjacent_post_slugs` (about.rs:252-262): the slug of the post before
   * `current`, if `current` is not the first position and that post exists,
   * and the slug of the post after it, if that exists.
   */
  function AdjacentSlugs(idx: Index, current: nat): (r: (Option<string>, Option<string>))
    ensures r.0.Some? <==> 0 < current <= |idx.posts|
    ensures r.0.Some? ==> r.0.value == idx.posts[current - 1].slug
    ensures r.1.Some? <==> current + 1 < |idx.posts|
    ensures r.1.Some? ==> r.1.value == idx.posts[current + 1].slug
  {
    var prev := if current > 0 then (match GetPost(idx, current - 1)
      case Some(p) => Some(p.slug)
      case None => None) else None;
    var next := match GetPost(idx, current + 1)
      case Some(p) => Some(p.slug)
      case None => None;
    (prev, next)
  }

  /**
   * The edges of the index: the first post has no previous one, the last has
   * no next one, and every post strictly between has both.
   */
  lemma AdjacentSlugsAtEdges(idx: Index, k: nat)
    requires k < |idx.posts|
    ensures AdjacentSlugs(idx, 0).0.None?
    ensures AdjacentSlugs(idx, |idx.posts| - 1).1.None?
    ensures 0 < k < |idx.posts| - 1 ==> AdjacentSlugs(idx, k).0.Some? && AdjacentSlugs(idx, k).1.Some?
  {
  }

  /** With unique slugs, the neighbours' slugs lead back to the neighbouring positions. */
  lemma NeighbourSlugsResolve(idx: Index, current: nat)
    requires Consistent(idx) && UniqueSlugs(idx.posts) && current < |idx.posts|
    ensures var (prev, next) := AdjacentSlugs(idx, current);
            && (prev.Some? ==> GetPostBySlug(idx, prev.value) == Some((idx.posts[current - 1], current - 1)))
            && (next.Some? ==> GetPostBySlug(idx, next.value) == Some((idx.posts[current + 1], current + 1)))
  {
    if current > 0 {
      SlugFindsPosition(idx, current - 1);
    }
    if current + 1 < |idx.posts| {
      SlugFindsPosition(idx, current + 1);
    }
  }

  /** `format!("{n}")` for a `usize`: decimal digits, no leading zeros. */
  function Decimal(n: nat): (s: string)
    ensures s != [] && forall i :: 0 <= i < |s| ==> IsDigit(s[i])
  {
    if n < 10 then [DigitChar(n)] else Decimal(n / 10) + [DigitChar(n % 10)]
  }

  /** The routing layer's reading of a `{index}` path segment made of digits. */
  function DecimalValue(s: string): nat
    requires forall i :: 0 <= i < |s| ==> IsDigit(s[i])
  {
    if s == [] then 0 else 10 * DecimalValue(s[..|s| - 1]) + DigitValue(s[|s| - 1])
  }

  /** A written position reads back as the same position. */
  lemma {:induction false} DecimalRoundTrip(n: nat)
    ensures DecimalValue(Decimal(n)) == n
  {
    var s := Decimal(n);
    if n >= 10 {
      DecimalRoundTrip(n / 10);
      assert s[..|s| - 1] == Decimal(n / 10);
    }
  }

  /** The previous and next buttons of a rendered post: the `hx-get` target of each, when shown. */
  datatype Controls = Controls(previous: Option<string>, next: Option<string>)

  function PostsUrl(n: nat): string {
    "/posts/" + Decimal(n)
  }

  function PostUrl(slug: string): string {
    "/post/" + slug
  }

  /**
   * The controls of `post_to_html` (about.rs:37-40, 54-73): a previous button
   * unless the post is the first, a next button while a post follows, each
   * pointing at the neighbouring position.
   */
  function OrdinalControls(count: nat, current: nat): (c: Controls)
    ensures c.previous.Some? <==> current > 0
    ensures c.previous.Some? ==> c.previous.value == PostsUrl(current - 1)
    ensures c.next.Some? <==> current + 1 < count
    ensures c.next.Some? ==> c.next.value == PostsUrl(current + 1)
  {
    var nextIndex := current + 1;
    var hasNext := nextIndex < count;
    var hasPrev := current > 0;
    Controls(if hasPrev then Some(PostsUrl(current - 1)) else None,
             if hasNext then Some(PostsUrl(nextIndex)) else None)
  }

  /** The controls of `post_to_html_with_slug` (about.rs:93, 102-129): one per neighbouring slug. */
  function SlugControls(idx: Index, current: nat): (c: Controls)
    ensures c.previous.Some? <==> AdjacentSlugs(idx, current).0.Some?
    ensures c.next.Some? <==> AdjacentSlugs(idx, current).1.Some?
    ensures c.previous.Some? ==> c.previous.value == PostUrl(idx.posts[current - 1].slug)
    ensures c.next.Some? ==> c.next.value == PostUrl(idx.posts[current + 1].slug)
  {
    var (prev, next) := AdjacentSlugs(idx, current);
    Controls(match prev case Some(s) => Some(PostUrl(s)) case None => None,
             match next case Some(s) => Some(PostUrl(s)) case None => None)
  }

  /**
   * For a post that exists, the ordinal renderer and the slug renderer show
   * the same buttons, and the ordinal targets name the neighbouring positions.
   */
  lemma ControlsAgree(idx: Index, current: nat)
    requires current < |idx.posts|
    ensures var o, s := OrdinalControls(|idx.posts|, current), SlugControls(idx, current);
            && o.previous.Some? == s.previous.Some?
            && o.next.Some? == s.next.Some?
            && (o.previous.Some? ==> DecimalValue(o.previous.value[7..]) == current - 1)
            && (o.next.Some? ==> DecimalValue(o.next.value[7..]) == current + 1)
  {
    var o := OrdinalControls(|idx.posts|, current);
    if current > 0 {
      assert o.previous.value[7..] == Decimal(current - 1);
      DecimalRoundTrip(current - 1);
    }
    if current + 1 < |idx.posts| {
      assert o.next.value[7..] == Decimal(current + 1);
      DecimalRoundTrip(current + 1);
    }
  }

  /** A rendered post: the post, its position and its buttons. */
  datatype PostView = PostView(post: Post, index: nat, controls: Controls)

  /** What a route answers: a page, or a 404 with a plain-text body. */
  datatype Response = Page(view: PostView) | NotFound(message: string)

  /**
   * `post_route` (about.rs:264-277), `GET /posts/{index}`: the post at that
   * position with ordinal controls, or 404 "No more posts" past the end.
   */
  function PostRoute(idx: Index, index: nat): (r: Response)
    ensures r.NotFound? <==> index >= |idx.posts|
    ensures r.NotFound? ==> r.message == "No more posts"
    ensures r.Page? ==> r.view == PostView(idx.posts[index], index, OrdinalControls(|idx.posts|, index))
  {
    match GetPost(idx, index)
    case Some(post) => Page(PostView(post, index, OrdinalControls(|idx.posts|, index)))
    case None => NotFound("No more posts")
  }

  /**
   * `post_slug_route` (about.rs:279-292), `GET /post/{slug}`: the post the
   * slug map names, with slug controls, or 404 "Post not found".
   */
  function PostSlugRoute(idx: Index, slug: string): (r: Response)
    ensures r.NotFound? <==> GetPostBySlug(idx, slug).None?
    ensures r.NotFound? ==> r.message == "Post not found"
    ensures r.Page? ==> GetPostBySlug(idx, slug) == Some((r.view.post, r.view.index))
    ensures r.Page? ==> r.view.index < |idx.posts| && r.view.post == idx.posts[r.view.index]
    ensures r.Page? ==> r.view.controls == SlugControls(idx, r.view.index)
  {
    match GetPostBySlug(idx, slug)
    case Some((post, index)) => Page(PostView(post, index, SlugControls(idx, index)))
    case None => NotFound("Post not found")
  }

  /** On a built index the slug route answers 404 exactly for slugs no post carries, and otherwise shows a post with that slug. */
  lemma PostSlugRouteFinds(idx: Index, slug: string)
    requires Consistent(idx)
    ensures PostSlugRoute(idx, slug).NotFound? <==> slug !in SlugsOf(idx.posts)
    ensures PostSlugRoute(idx, slug).Page? ==> PostSlugRoute(idx, slug).view.post.slug == slug
  {
    GetPostBySlugFinds(idx, slug);
  }

  /**
   * `posts()` (about.rs:294-303): the first, newest post with slug controls,
   * or nothing ("No posts available yet.") on an empty index.  The newest
   * post has no previous button, and a next button to the second post's slug
   * exactly when there is a second post.
   */
  function Landing(idx: Index): (r: Option<PostView>)
    ensures r.None? <==> idx.posts == []
    ensures r.Some? ==> r.value.post == idx.posts[0] && r.value.index == 0
    ensures r.Some? ==> r.value.controls == SlugControls(idx, 0)
    ensures r.Some? ==> r.value.controls.previous.None?
    ensures r.Some? ==> (r.value.controls.next.Some? <==> |idx.posts| > 1)
    ensures r.Some? && |idx.posts| > 1 ==> r.value.controls.next == Some(PostUrl(idx.posts[1].slug))
  {
    match GetPost(idx, 0)
    case Some(post) => Some(PostView(post, 0, SlugControls(idx, 0)))
    case None => None
  }
}
