# Focus blog: post index and navigation, in Dafny

This project models the post engine of the *focus* blog server, a small Rust
site that serves markdown posts as HTML fragments for htmx. The model covers
two pieces of code.

- `src/view/about.rs`. This code finds the `.md` files in the embedded
  `posts` directory and reads a date and a slug from each file name
  (`YYYY-MM-DD-slug.md`). It then builds `POSTS`, the posts sorted newest
  first with Rust's stable `sort_by`, and `SLUG_TO_INDEX`, a map from each
  slug to a position. Requests use both: `get_post`, `get_post_by_slug`,
  `get_adjacent_post_slugs`, the previous/next buttons of `post_to_html` and
  `post_to_html_with_slug`, and the outcomes of the `/posts/{index}` and
  `/post/{slug}` routes.
- `src/main.rs`, `create_post`. This is the command that names a new post:
  it joins the title words, slugifies them and forms `{date}-{slug}.md`. It
  produces the names the loader above parses, so the model proves the round
  trip from one to the other.

Modules (one file each):

| file | module | what it holds |
|---|---|---|
| `wrappers.dfy` | `Wrappers` | `Option` |
| `slugs.dfy` | `Slugs` | character classes, `Slugify`, joining the title words |
| `dates.dfy` | `Dates` | dates, instants and their order, `%Y-%m-%d` formatting and parsing |
| `posts.dfy` | `Posts` | `Post`, the file stem and extension, slug and date extraction, discovery |
| `ordering.dfy` | `Ordering` | the stable newest-first sort, as a function and as an in-place array sort |
| `index.dfy` | `PostIndex` | the build: sorted posts plus the slug map filled by a loop |
| `navigation.dfy` | `Navigation` | lookups, adjacency, the buttons shown, the two routes, the landing view |
| `scaffold.dfy` | `Scaffold` | `create_post`'s title, slug, file name and template, and the round trip |
| `scenarios.dfy` | `Scenarios` | concrete runs: kept and skipped files, a three-post index |

Modelling choices:

- The clock is a parameter. The index build takes one clock reading per
  file, in discovery order (`clock[j]` for `files[j]`): the loader reads
  `Utc::now()` separately for each undated file (about.rs:184, 186), so two
  undated posts get two different instants, and a later reading sorts
  first. `create_post` takes the day `today`.
- An instant is a calendar day plus the time since its midnight. Instants
  are ordered by year, then month, day and time. A date taken from a file
  name is that day at 00:00:00.
- The contents of an embedded file are `Option<string>`. `None` stands for
  bytes that are not valid UTF-8.
- The index is built once by `PostIndex.Build` and is then an immutable
  value. The source keeps it in two `lazy_static` globals.
- Rust's `sort_by` is a stable sort. `Ordering.SortNewestFirst` is a stable
  insertion sort. `Ordering.SortedStableIsUnique` proves that only one
  sequence is sorted newest first and keeps each date's posts in discovery
  order. So Rust's algorithm and this one produce the same index.

Behaviours of the code worth knowing:

- Duplicate slugs are not rejected. Both posts stay in the index, and the
  later post overwrites the earlier one's map entry, so a lookup by slug
  finds the last post with that slug. `Navigation.SlugFindsPositionIff`
  proves that position lookup and slug lookup agree on a post exactly when
  no later post shares its slug.
- A post carries only its slug, its date (both from the file name) and its
  body text. No title or subtitle is taken from the body in the code
  modelled here.
- `post_slug_route` is defined in about.rs, but main.rs:42-45 does not
  register it. The slug buttons that `posts()` renders point at `/post/...`,
  which the server does not serve. The model gives the route's outcome as
  the code defines it. Route registration is not modelled.

## Model

| member | source | states |
|---|---|---|
| `Slugs.SlugPiece` | src/view/about.rs:146-155 | one character contributes at most one slug character: exactly its lower-case form if alphanumeric, exactly `-` if whitespace, nothing otherwise |
| `Slugs.Slugify` | src/main.rs:66-79 | the slug holds only lower-case alphanumerics and `-`, has exactly one `-` per whitespace character of the input, and is shorter than the input by exactly the number of dropped characters; a single character becomes its lower-case form if alphanumeric, `-` if whitespace, and nothing otherwise (with `SlugifyAppend` this fixes every slug) |
| `Slugs.SlugifyAppend` | src/view/about.rs:143-156 | the slug is computed character by character: it distributes over concatenation |
| `Slugs.SlugifyDropsHyphens` | src/main.rs:69-77 | hyphens already present are dropped: slugifying a slug again leaves no `-` |
| `Slugs.SlugifyFixesLowerAlnum` | src/main.rs:66-79 | lower-case alphanumeric text is its own slug |
| `Slugs.JoinWordsShape` | src/main.rs:61 | joining the arguments with `" "` adds exactly one space per gap: length is the words' lengths plus gaps, whitespace count is the words' plus gaps |
| `Dates.DaysInMonth` | src/view/about.rs:178 | months have 28 to 31 days, and 29 exactly for February of a leap year |
| `Dates.EarlierIsStrictTotalOrder` | src/view/about.rs:201 | instants are strictly and totally ordered, so the date comparison of the sort is well defined |
| `Dates.FormatDate` | src/main.rs:63 | `%Y-%m-%d` always gives the ten-character shape `DDDD-DD-DD` |
| `Dates.ParseDate` | src/view/about.rs:177-178 | a successful parse returns a real calendar date that formats back to the parsed text; text without the `DDDD-DD-DD` shape never parses |
| `Dates.ParseFormatRoundTrip` | src/main.rs:63 | every calendar date's formatted text parses back to that date |
| `Posts.LastDot` | src/view/about.rs:170 | the position of the last `.` of a name, or none exactly when the name has no `.` |
| `Posts.SplitName` | src/view/about.rs:170-175 | an extension exists only when the name is a non-empty stem, a dot and a dot-free extension (and not `..`); otherwise the stem is the whole name |
| `Posts.SplitNameUnique` | src/view/about.rs:170-175 | conversely, any such name splits into exactly that stem and extension |
| `Posts.ExtractSlug` | src/view/about.rs:135-158 | a stem longer than 11 characters gives the suffix after its first 11; a stem of at most 11 gives exactly its `Slugify` slug: only slug characters, no longer than the stem, one `-` per whitespace |
| `Posts.FileDate` | src/view/about.rs:175-187 | a stem under 10 characters, or whose first 10 do not parse, is dated `now`; otherwise the date is midnight of the calendar day those 10 characters name |
| `Posts.ParseFile` | src/view/about.rs:166-197 | a file yields a post exactly when its extension is `md`, whatever its contents; non-UTF-8 contents give the empty body; slug and date come from the stem |
| `Posts.Discover` | src/view/about.rs:164-198 | never more posts than files, and every post is the parse of some file with the clock reading of that file's turn |
| `Posts.DiscoverAppend` | src/view/about.rs:164-198 | discovery keeps the directory's order |
| `Posts.DiscoverCount` | src/view/about.rs:170-172 | exactly one post per `.md` file |
| `Ordering.NewerComesFirst` | src/view/about.rs:200-201 | in a newest-first sequence a strictly newer post has a smaller position |
| `Ordering.Insert` | src/view/about.rs:201 | one insertion step adds exactly one element |
| `Ordering.InsertPermutes` | src/view/about.rs:201 | one insertion step adds exactly the inserted post to the multiset |
| `Ordering.InsertKeepsNewestFirst` | src/view/about.rs:201 | inserting into a newest-first sequence keeps it newest first |
| `Ordering.InsertWithDate` | src/view/about.rs:201 | an insertion puts the new post after every post of its date and leaves other dates alone (stability) |
| `Ordering.SortNewestFirst` | src/view/about.rs:201 | the sort keeps the number of posts |
| `Ordering.SortNewestFirstCorrect` | src/view/about.rs:200-201 | the sorted posts are newest first, a permutation of the input, and keep discovery order within each date |
| `Ordering.SortedStableIsUnique` | src/view/about.rs:200-201 | two newest-first sequences with the same posts in the same order per date are equal, so any stable sort gives this index |
| `Ordering.InsertAt` | src/view/about.rs:201 | the insertion step places the post right behind the last post at least as new as it |
| `Ordering.InsertInPlace` | src/view/about.rs:201 | the in-place step turns the sorted prefix plus the next post into the inserted prefix and leaves the rest of the array untouched |
| `Ordering.SortInPlace` | src/view/about.rs:200-201 | sorting the buffer in place leaves exactly the stable newest-first order of its old contents |
| `PostIndex.BuildSlugMap` | src/view/about.rs:206-214 | the map's keys are exactly the posts' slugs; each value is a position holding that slug, and no later position holds it |
| `PostIndex.LastPositionMapIsUnique` | src/view/about.rs:207-213 | the posts determine the slug map completely |
| `PostIndex.Build` | src/view/about.rs:162-214 | the posts are the discovered posts, sorted newest first, permuted, stable per date; the slug map is consistent with them |
| `Navigation.GetPost` | src/view/about.rs:242-244 | a post exactly for positions below the number of posts, and it is the post at that position |
| `Navigation.GetPostBySlug` | src/view/about.rs:246-250 | a result is the post at the position the map gives for the slug; nothing exactly when the slug is unmapped or its position is out of range |
| `Navigation.GetPostBySlugFinds` | src/view/about.rs:246-250 | on a built index a slug is found exactly when a post carries it, and the result is the last post carrying it |
| `Navigation.SlugFindsPositionIff` | src/view/about.rs:246-250 | looking up the slug of the post at `i` returns that post and `i` exactly when no later post has the same slug |
| `Navigation.SlugFindsPosition` | src/view/about.rs:242-250 | with unique slugs, slug lookup of `get_post(i)`'s slug returns that post and `i` |
| `Navigation.AdjacentSlugs` | src/view/about.rs:252-262 | a previous slug exactly when `0 < i <= len`, and it is the slug at `i-1`; a next slug exactly when `i+1 < len`, and it is the slug at `i+1` |
| `Navigation.AdjacentSlugsAtEdges` | src/view/about.rs:252-262 | the first post has no previous one, the last has no next one, posts in between have both |
| `Navigation.NeighbourSlugsResolve` | src/view/about.rs:252-262 | with unique slugs, the neighbours' slugs look up to the neighbouring posts and positions |
| `Navigation.Decimal` | src/view/about.rs:38 | a position is written as a non-empty string of decimal digits |
| `Navigation.DecimalRoundTrip` | src/view/about.rs:38 | a written position reads back as the same number |
| `Navigation.OrdinalControls` | src/view/about.rs:37-73 | a previous button exactly when `i > 0`, pointing at `/posts/{i-1}`; a next button exactly when `i+1 < len`, pointing at `/posts/{i+1}` |
| `Navigation.SlugControls` | src/view/about.rs:93-129 | a button for each neighbouring slug, pointing at `/post/{slug}` of that neighbour |
| `Navigation.ControlsAgree` | src/view/about.rs:37-40 | for an existing post the ordinal and slug renderers show the same buttons, and the ordinal targets read back as `i-1` and `i+1` |
| `Navigation.PostRoute` | src/view/about.rs:264-277 | 404 with "No more posts" exactly past the end; otherwise the post at that position with its ordinal buttons |
| `Navigation.PostSlugRoute` | src/view/about.rs:279-292 | 404 with "Post not found" exactly when the slug lookup fails; otherwise the page of exactly the post and position the slug lookup returned, with its slug buttons |
| `Navigation.PostSlugRouteFinds` | src/view/about.rs:283-291 | on a built index the slug route answers 404 exactly for slugs no post carries, and otherwise shows a post with that slug |
| `Navigation.Landing` | src/view/about.rs:294-303 | nothing exactly on an empty index; otherwise the newest post with its slug buttons: no previous button, and a next button to the second post's slug exactly when there is a second post |
| `Scaffold.CreatePost` | src/main.rs:54-81 | a usage error exactly with fewer than two arguments; otherwise the title is the joined arguments, the slug is `Slugify` of the title (only slug characters, one `-` per whitespace of the title), and the file name is date, `-`, slug, `.md` |
| `Scaffold.SlugHyphensCountSeparators` | src/main.rs:61-79 | the slug's hyphens are one per gap between arguments plus one per whitespace inside them |
| `Scaffold.CreatedNameSplits` | src/main.rs:81 | the created name's stem is date, `-`, slug and its extension is `md` |
| `Scaffold.DateStemSlug` | src/view/about.rs:137-156 | the 11-character stem `YYYY-MM-DD-` falls back to the slug of its eight date digits |
| `Scaffold.CreatedPostIsLoaded` | src/main.rs:81 | the created file loads as a post dated midnight of the creation day, with the template as body and the created slug, or the date digits when the slug is empty |
| `Scaffold.SlugRoundTripIff` | src/main.rs:81 | the loaded slug equals the created slug exactly when the created slug is not empty |
| `Scenarios.NonTextFileKept` | src/view/about.rs:189 | an `.md` file with non-UTF-8 contents is kept with an empty body, dated `now` when its name has no date |
| `Scenarios.OtherFilesSkipped` | src/view/about.rs:170-172 | files without an extension, with another extension, or named `.md` are skipped |
| `Scenarios.ThreePosts` | src/view/about.rs:200-201 | posts A, B, C of 1, 3 and 2 January index as [B, C, A] (the sort of the discovered posts) with a consistent slug map; position 0 has only a next button to `/posts/1`, position 2 only a previous button to `/posts/1`, position 5 and an unknown slug give 404 |
| `Scenarios.SortTwo` | src/view/about.rs:201 | of two posts, the strictly newer one is sorted first |
| `Scenarios.UndatedPostsFollowTheClock` | src/view/about.rs:184-201 | two undated `.md` files take the clock readings of their own turns; when the second reading is later, its post is indexed first |

## Left out

- Markdown to HTML conversion (`markdown::to_html_with_options`, about.rs:24-35, 80-91, 219-230) and its stripping of dangerous link protocols: this is a foreign library.
- The maud markup of `post_to_html`, `post_to_html_with_slug`, `posts` and `readme`: only the decisions about which buttons appear and where they point are modelled.
- `human_date` (about.rs:18-20): presentation-only date formatting.
- `lazy_static` init-once semantics and concurrent first access: the build is one call that returns an immutable value.
- `include_dir` embedding and the directory walk: the directory is a sequence of files, each a name and optional UTF-8 text.
- actix routing, server start-up and the registration of routes (main.rs:26-52). Parsing `{index}` into a `usize` appears only as `Navigation.DecimalValue` on digit strings.
- The file-system part of `create_post` (main.rs:85-105): directory creation, the existence check, `process::exit` and the write.
- `Dates.ParseDate`: chrono's `%Y-%m-%d` also accepts signed years and single-digit fields; the model uses a strict fixed-width recogniser with calendar validation.
- `Dates.FormatDate`: only years 0 to 9999 are modelled. chrono writes other years with a sign; the clock is taken to lie in that range.
- `Slugs.Slugify`: characters are classified by their ASCII meaning. Unicode `is_alphanumeric`, `is_whitespace` and `to_lowercase` on non-ASCII characters are not modelled (non-ASCII characters are dropped here).
- `Posts.ExtractSlug`: Rust slices the stem by bytes (`&filename[11..]`) and panics inside a multi-byte character. The model slices by characters, which agrees on ASCII names.
- The clock itself: the build receives one reading per file, and a dated file ignores its reading. Readings are not required to increase, since a wall clock may step back.
- Positions are unbounded naturals: `usize` overflow of `current_index + 1` is not modelled. It is unreachable for positions of existing posts.
- `assets/font-switcher.js` and `src/routes/technical.rs`: browser UI and a health endpoint outside the post engine.
