/**
 * The order of the index: `posts.sort_by(|a, b| b.date.cmp(&a.date))`
 * (about.rs:200-201), newest first.  Rust's `sort_by` is stable, so posts
 * with the same date keep the order in which they were discovered.
 *
 * SortNewestFirst is a stable insertion sort on sequences.  Its result is
 * ordered newest first, is a permutation of the input, and keeps the
 * discovery order within each date; SortedStableIsUnique shows that these
 * three facts pin the result down, so it is the result of any stable sort,
 * Rust's included.  SortInPlace is the in-place array version the index
 * builder runs.
 */
module Ordering {
  import opened Dates
  import opened Posts

  /** No post is older than a post after it. */
  predicate NewestFirst(s: seq<Post>) {
    forall i, j :: 0 <= i < j < |s| ==> !Earlier(s[i].date, s[j].date)
  }

  /** In a newest-first sequence a strictly newer post sits at a smaller position. */
  lemma NewerComesFirst(s: seq<Post>, i: nat, j: nat)
    requires NewestFirst(s) && i < |s| && j < |s|
    requires Earlier(s[j].date, s[i].date)
    ensures i < j
  {
    EarlierIsStrictTotalOrder(s[i].date, s[j].date, s[i].date);
  }

  /** The posts of `s` dated `d`, in their order in `s`. */
  function WithDate(s: seq<Post>, d: DateTime): (r: seq<Post>)
    ensures |r| <= |s|
  {
    if s == [] then []
    else WithDate(s[..|s| - 1], d) + (if s[|s| - 1].date == d then [s[|s| - 1]] else [])
  }

  /** Same posts, and within every date the same order. */
  ghost predicate SameOrderPerDate(r: seq<Post>, s: seq<Post>) {
    forall d :: WithDate(r, d) == WithDate(s, d)
  }

  /** Insert `x` behind every post at least as new as it: the step of a
      stable sort that handles a post discovered after those of `s`. */
  function Insert(x: Post, s: seq<Post>): (r: seq<Post>)
    ensures |r| == |s| + 1
  {
    if s == [] then [x]
    else if !Earlier(s[|s| - 1].date, x.date) then s + [x]
    else
      assert s == s[..|s| - 1] + [s[|s| - 1]];
      Insert(x, s[..|s| - 1]) + [s[|s| - 1]]
  }

  /** The stable newest-first sort, inserting the posts in discovery order. */
  function SortNewestFirst(s: seq<Post>): (r: seq<Post>)
    ensures |r| == |s|
  {
    if s == [] then []
    else
      assert s == s[..|s| - 1] + [s[|s| - 1]];
      Insert(s[|s| - 1], SortNewestFirst(s[..|s| - 1]))
  }

  lemma {:induction false} InsertPermutes(x: Post, s: seq<Post>)
    ensures multiset(Insert(x, s)) == multiset(s) + multiset{x}
  {
    if s != [] && Earlier(s[|s| - 1].date, x.date) {
      var init, last := s[..|s| - 1], s[|s| - 1];
      InsertPermutes(x, init);
      assert s == init + [last];
    }
  }

  lemma {:induction false} WithDateAppend(a: seq<Post>, b: seq<Post>, d: DateTime)
    ensures WithDate(a + b, d) == WithDate(a, d) + WithDate(b, d)
  {
    if b == [] {
      assert a + b == a;
    } else {
      assert (a + b)[..|a + b| - 1] == a + b[..|b| - 1];
      WithDateAppend(a, b[..|b| - 1], d);
    }
  }

  lemma {:induction false} InsertMembers(x: Post, s: seq<Post>)
    ensures forall p :: p in Insert(x, s) <==> p == x || p in s
  {
    if s != [] && Earlier(s[|s| - 1].date, x.date) {
      var init, last := s[..|s| - 1], s[|s| - 1];
      InsertMembers(x, init);
      assert s == init + [last];
    }
  }

  /** Inserting into a newest-first sequence keeps it newest first. */
  lemma {:induction false} InsertKeepsNewestFirst(x: Post, s: seq<Post>)
    requires NewestFirst(s)
    ensures NewestFirst(Insert(x, s))
  {
    if s == [] {
    } else if !Earlier(s[|s| - 1].date, x.date) {
      forall i | 0 <= i < |s|
        ensures !Earlier(s[i].date, x.date)
      {
        EarlierIsStrictTotalOrder(s[i].date, s[|s| - 1].date, x.date);
      }
    } else {
      var init, last := s[..|s| - 1], s[|s| - 1];
      InsertKeepsNewestFirst(x, init);
      InsertMembers(x, init);
      var r := Insert(x, init);
      forall i | 0 <= i < |r|
        ensures !Earlier(r[i].date, last.date)
      {
        assert r[i] in r;
        if r[i] == x {
          EarlierIsStrictTotalOrder(x.date, last.date, last.date);
        } else {
          var k :| 0 <= k < |init| && init[k] == r[i];
          assert s[k] == r[i];
        }
      }
      assert Insert(x, s) == r + [last];
    }
  }

  /** Inserting `x` appends it to the posts of its own date and leaves the others alone. */
  lemma {:induction false} InsertWithDate(x: Post, s: seq<Post>, d: DateTime)
    ensures WithDate(Insert(x, s), d) == WithDate(s, d) + (if x.date == d then [x] else [])
  {
    if s == [] {
      assert WithDate([x], d) == WithDate([], d) + (if x.date == d then [x] else []);
    } else if !Earlier(s[|s| - 1].date, x.date) {
      WithDateAppend(s, [x], d);
      assert [x][..0] == [];
    } else {
      var init, last := s[..|s| - 1], s[|s| - 1];
      InsertWithDate(x, init, d);
      WithDateAppend(Insert(x, init), [last], d);
      WithDateAppend(init, [last], d);
      assert s == init + [last];
      assert [last][..0] == [];
    }
  }

  /**
   * The index order (about.rs:200-201): newest first, a permutation of the
   * discovered posts, and stable: the posts of each date keep discovery order.
   */
  lemma {:induction false} SortNewestFirstCorrect(s: seq<Post>)
    ensures NewestFirst(SortNewestFirst(s))
    ensures multiset(SortNewestFirst(s)) == multiset(s)
    ensures SameOrderPerDate(SortNewestFirst(s), s)
  {
    if s != [] {
      var init, last := s[..|s| - 1], s[|s| - 1];
      SortNewestFirstCorrect(init);
      InsertKeepsNewestFirst(last, SortNewestFirst(init));
      InsertPermutes(last, SortNewestFirst(init));
      assert s == init + [last];
      forall d
        ensures WithDate(SortNewestFirst(s), d) == WithDate(s, d)
      {
        InsertWithDate(last, SortNewestFirst(init), d);
        WithDateAppend(init, [last], d);
        assert s == init + [last];
        assert [last][..0] == [];
      }
    }
  }

  /** The posts of `s` dated `d`, taken from the front. */
  lemma {:induction false} WithDateFront(s: seq<Post>, d: DateTime)
    requires s != []
    ensures WithDate(s, d) == (if s[0].date == d then [s[0]] else []) + WithDate(s[1..], d)
  {
    WithDateAppend([s[0]], s[1..], d);
    assert [s[0]] + s[1..] == s;
    assert [s[0]][..0] == [];
  }

  lemma {:induction false} InWithDate(s: seq<Post>, p: Post)
    requires p in s
    ensures p in WithDate(s, p.date)
  {
    var init, last := s[..|s| - 1], s[|s| - 1];
    assert s == init + [last];
    if p != last {
      InWithDate(init, p);
    }
  }

  lemma {:induction false} WithDateIn(s: seq<Post>, d: DateTime, p: Post)
    requires p in WithDate(s, d)
    ensures p in s && p.date == d
  {
    var init, last := s[..|s| - 1], s[|s| - 1];
    assert s == init + [last];
    if p in WithDate(init, d) {
      WithDateIn(init, d, p);
    }
  }

  /** Two newest-first sequences with the same posts per date start with the same post. */
  lemma {:induction false} SameHead(r: seq<Post>, t: seq<Post>)
    requires r != [] && t != [] && NewestFirst(r) && NewestFirst(t)
    requires SameOrderPerDate(r, t)
    ensures r[0] == t[0]
  {
    // The first posts of both carry the newest date.
    InWithDate(r, r[0]);
    assert WithDate(t, r[0].date) == WithDate(r, r[0].date);
    WithDateIn(t, r[0].date, r[0]);
    InWithDate(t, t[0]);
    assert WithDate(r, t[0].date) == WithDate(t, t[0].date);
    WithDateIn(r, t[0].date, t[0]);
    var kr :| 0 <= kr < |r| && r[kr] == t[0];
    var kt :| 0 <= kt < |t| && t[kt] == r[0];
    assert !Earlier(t[0].date, t[kt].date);
    assert !Earlier(r[0].date, r[kr].date);
    EarlierIsStrictTotalOrder(r[0].date, t[0].date, t[0].date);
    var d := r[0].date;
    WithDateFront(r, d);
    WithDateFront(t, d);
    assert WithDate(r, d)[0] == r[0];
    assert WithDate(t, d) == WithDate(r, d);
  }

  /** Dropping a common first post keeps the same posts per date in the same order. */
  lemma {:induction false} SameOrderPerDateTail(r: seq<Post>, t: seq<Post>)
    requires r != [] && t != [] && r[0] == t[0]
    requires SameOrderPerDate(r, t)
    ensures SameOrderPerDate(r[1..], t[1..])
  {
    forall e
      ensures WithDate(r[1..], e) == WithDate(t[1..], e)
    {
      WithDateFront(r, e);
      WithDateFront(t, e);
      assert WithDate(r, e) == WithDate(t, e);
      var head := if r[0].date == e then [r[0]] else [];
      assert head + WithDate(r[1..], e) == head + WithDate(t[1..], e);
      assert WithDate(r[1..], e) == (head + WithDate(r[1..], e))[|head|..];
      assert WithDate(t[1..], e) == (head + WithDate(t[1..], e))[|head|..];
    }
  }

  /**
   * Two newest-first sequences that hold, date by date, the same posts in the
   * same order are equal: the three properties of SortNewestFirstCorrect
   * determine the index order completely.
   */
  lemma {:induction false} SortedStableIsUnique(r: seq<Post>, t: seq<Post>)
    requires NewestFirst(r) && NewestFirst(t)
    requires SameOrderPerDate(r, t)
    ensures r == t
  {
    if r == [] || t == [] {
      if r != [] {
        InWithDate(r, r[0]);
      } else if t != [] {
        InWithDate(t, t[0]);
      }
    } else {
      SameHead(r, t);
      SameOrderPerDateTail(r, t);
      SortedStableIsUnique(r[1..], t[1..]);
      assert r == [r[0]] + r[1..] && t == [t[0]] + t[1..];
    }
  }

  /** Insert puts `x` right behind the last post at least as new as it, when
      every post after that one is strictly older than `x`. */
  lemma {:induction false} InsertAt(x: Post, s: seq<Post>, j: nat)
    requires j <= |s| && (j == 0 || !Earlier(s[j - 1].date, x.date))
    requires forall k :: j <= k < |s| ==> Earlier(s[k].date, x.date)
    ensures Insert(x, s) == s[..j] + [x] + s[j..]
    decreases |s| - j
  {
    if j < |s| {
      var init, last := s[..|s| - 1], s[|s| - 1];
      assert Insert(x, s) == Insert(x, init) + [last] by {
        assert Earlier(last.date, x.date);
      }
      assert Insert(x, init) == init[..j] + [x] + init[j..] by {
        assert j > 0 ==> init[j - 1] == s[j - 1];
        assert forall k :: j <= k < |init| ==> init[k] == s[k];
        InsertAt(x, init, j);
      }
      assert init[..j] == s[..j] && s[j..] == init[j..] + [last];
    } else {
      assert s[..j] == s;
    }
  }

  /** A prefix that agrees with `sorted` before `j`, holds `x` at `j` and
      `sorted` shifted by one after it is `x` inserted at `j`. */
  lemma ShiftedIsInsert(cur: seq<Post>, sorted: seq<Post>, x: Post, j: nat)
    requires j <= |sorted| && |cur| == |sorted| + 1
    requires forall k :: 0 <= k < j ==> cur[k] == sorted[k]
    requires cur[j] == x
    requires forall k :: j < k < |cur| ==> cur[k] == sorted[k - 1]
    ensures cur == sorted[..j] + [x] + sorted[j..]
  {
  }

  /** Sorting one more post of the input is one more insertion. */
  lemma SortPrefixStep(input: seq<Post>, i: nat)
    requires i < |input|
    ensures SortNewestFirst(input[..i + 1]) == Insert(input[i], SortNewestFirst(input[..i]))
  {
    assert input[..i + 1][..i] == input[..i];
    assert input[i] == input[..i + 1][i];
  }

  /**
   * One step of the in-place sort: the post at `i` moves left past every
   * strictly older post of the (already sorted) prefix, which shift right by
   * one; the rest of the array is untouched.
   */
  method InsertInPlace(a: array<Post>, i: nat)
    requires i < a.Length
    modifies a
    ensures a[..i + 1] == Insert(old(a[i]), old(a[..i]))
    ensures a[i + 1..] == old(a[i + 1..])
  {
    ghost var sorted := a[..i];
    var x := a[i];
    var j := i;
    while j > 0 && Earlier(a[j - 1].date, x.date)
      invariant 0 <= j <= i
      invariant forall k :: 0 <= k < j ==> a[k] == sorted[k]
      invariant forall k :: j < k <= i ==> a[k] == sorted[k - 1]
      invariant forall k :: i < k < a.Length ==> a[k] == old(a[k])
      invariant forall k :: j <= k < i ==> Earlier(sorted[k].date, x.date)
    {
      a[j] := a[j - 1];
      j := j - 1;
    }
    a[j] := x;
    InsertAt(x, sorted, j);
    ShiftedIsInsert(a[..i + 1], sorted, x, j);
    assert forall k :: i < k < a.Length ==> a[..][k] == old(a[..])[k];
    assert a[i + 1..] == old(a[i + 1..]);
  }

  /**
   * `sort_by` on the `Vec` of discovered posts, in place: each post in turn
   * is inserted into the sorted prefix before it.  The array ends up holding
   * SortNewestFirst of what it held.
   */
  method SortInPlace(a: array<Post>)
    modifies a
    ensures a[..] == SortNewestFirst(old(a[..]))
  {
    ghost var input := a[..];
    var i := 0;
    while i < a.Length
      invariant 0 <= i <= a.Length
      invariant a[..i] == SortNewestFirst(input[..i])
      invariant a[i..] == input[i..]
    {
      assert a[i] == input[i];
      InsertInPlace(a, i);
      SortPrefixStep(input, i);
      i := i + 1;
    }
    assert input[..a.Length] == input;
  }
}
