/**
 * The index: `POSTS` (about.rs:162-204) and `SLUG_TO_INDEX` (about.rs:206-214).
 *
 * Rust builds both once, lazily, as process-wide statics; here the build is
 * one method call that returns an immutable value.  The posts are collected
 * into a buffer, sorted in place, and the slug map is filled by a loop over
 * the sorted posts, so that a later post overwrites the entry of an earlier
 * post with the same slug.
 */
module PostIndex {
  import opened Dates
  import opened Posts
  import opened Ordering

  /** The built index: `POSTS` and `SLUG_TO_INDEX`. */
  datatype Index = Index(posts: seq<Post>, slugToIndex: map<string, nat>)

  /** The slugs carried by the posts. */
  function SlugsOf(posts: seq<Post>): set<string> {
    set i | 0 <= i < |posts| :: posts[i].slug
  }

  /** `m` maps every slug of `posts`, and nothing else, to the last position holding it. */
  ghost predicate IsLastPositionMap(posts: seq<Post>, m: map<string, nat>) {
    && m.Keys == SlugsOf(posts)
    && (forall k :: k in m ==> m[k] < |posts| && posts[m[k]].slug == k)
    && (forall k, j :: k in m && m[k] < j < |posts| ==> posts[j].slug != k)
  }

  /** The invariant every built index satisfies. */
  ghost predicate Consistent(idx: Index) {
    IsLastPositionMap(idx.posts, idx.slugToIndex)
  }

  /** No two posts share a slug. */
  predicate UniqueSlugs(posts: seq<Post>) {
    forall i, j :: 0 <= i < j < |posts| ==> posts[i].slug != posts[j].slug
  }

  /**
   * The `for` loop of about.rs:208-212.  Its keys are exactly the slugs of
   * the posts; each value is a position holding that slug; and since later
   * insertions overwrite earlier ones, no later position holds it.
   */
  method BuildSlugMap(posts: seq<Post>) returns (m: map<string, nat>)
    ensures m.Keys == SlugsOf(posts)
    ensures forall k :: k in m ==> m[k] < |posts| && posts[m[k]].slug == k
    ensures forall k, j :: k in m && m[k] < j < |posts| ==> posts[j].slug != k
  {
    m := map[];
    for i := 0 to |posts|
      invariant m.Keys == SlugsOf(posts[..i])
      invariant forall k :: k in m ==> m[k] < i && posts[m[k]].slug == k
      invariant forall k, j :: k in m && m[k] < j < i ==> posts[j].slug != k
    {
      SlugsOfExtend(posts, i);
      var slug := posts[i].slug;
      ghost var before := m;
      m := m[slug := i];
      forall k, j | k in m && m[k] < j < i + 1
        ensures posts[j].slug != k
      {
        if k != slug {
          assert m[k] == before[k];
        }
      }
    }
    assert posts[..|posts|] == posts;
  }

  /** The slugs of a longer prefix are those of the shorter one plus the next post's. */
  lemma SlugsOfExtend(posts: seq<Post>, i: nat)
    requires i < |posts|
    ensures SlugsOf(posts[..i + 1]) == SlugsOf(posts[..i]) + {posts[i].slug}
  {
    assert forall j :: 0 <= j < i ==> posts[..i + 1][j] == posts[..i][j];
    assert posts[..i + 1][i] == posts[i];
  }

  /** A sequence determines its last-position map: there is only one. */
  lemma LastPositionMapIsUnique(posts: seq<Post>, m1: map<string, nat>, m2: map<string, nat>)
    requires IsLastPositionMap(posts, m1) && IsLastPositionMap(posts, m2)
    ensures m1 == m2
  {
    forall k | k in m1
      ensures m1[k] == m2[k]
    {
      assert k in m2;
    }
  }

  /**
   * The whole build of about.rs:162-214, with `clock[j]` the clock reading
   * taken on `files[j]`'s turn.  The posts are those discovered,
   * sorted newest first, as a permutation that keeps discovery order within
   * each date; the slug map is consistent with the sorted posts.
   */
  method Build(files: seq<EmbeddedFile>, clock: seq<DateTime>) returns (idx: Index)
    requires |clock| == |files|
    ensures idx.posts == SortNewestFirst(Discover(files, clock))
    ensures NewestFirst(idx.posts)
    ensures multiset(idx.posts) == multiset(Discover(files, clock))
    ensures SameOrderPerDate(idx.posts, Discover(files, clock))
    ensures Consistent(idx)
  {
    var found := Discover(files, clock);
    var buffer := new Post[|found|](i requires 0 <= i < |found| => found[i]);
    assert buffer[..] == found;
    SortInPlace(buffer);
    var posts := buffer[..];
    var slugMap := BuildSlugMap(posts);
    SortNewestFirstCorrect(found);
    idx := Index(posts, slugMap);
  }
}
