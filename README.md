# A verified model of the portfolio site's logic

The site is a personal portfolio built on Next.js. Most of it is presentation,
but under the pages sits a layer of small rules that turn text and state into
answers. This project restates those rules in Dafny and proves what they
promise:

- **Feed routes.** The Goodreads and Letterboxd RSS readers, the Raycast
  install-count scraper and the Serializd profile reader. They cover field
  extraction with optional CDATA, dropping incomplete items, defaults, the
  read-date sort, the `limit` clamp and the success and error envelopes.
- **Lists.** The blog listing (`.md` files, slugs, newest first, prefixes)
  and the recent-posts route.
- **Tag and set algebra.** The photo-access cookie levels, the batch-tag
  merge and the global tag index.
- **Gates.** The middleware in front of the upload page. The upload route's
  ordered checks, bucket choice, stored file name, the refusal of a name
  already stored, and the rollback when the database insert fails.
- **Client state machines.** The carousel index, the batch tag editor and
  the multi-file upload queue.
- **String and path rules.** Blog image sources, classification of Markdown
  code, the navigation's active link, and the Spotify now-playing payload and
  dispatch.

## How the model is built

- One Dafny module per source file. Shared helpers live in their own modules:
  - `Text` holds white space, `trim`, `split`/`join`, case and string order;
  - `JsNumber` holds `parseInt`, `parseFloat` and `Number`: each reads an
    exact decimal and takes it into the range of a double, so a magnitude
    past the largest double becomes an infinity;
  - `Collections` holds `filter`, `flatMap`, `slice` and `Set`;
  - `Sorting` holds a stable sort;
  - `Json` holds JSON values and optional chaining;
  - `Scan` holds one literal scanner per regular expression the feeds use;
  - `Http`, `Store` and `Wrappers` hold the shared shapes.
- The outside world is given as inputs:
  - what each `fetch` returns;
  - environment values and cookie contents;
  - the rows a query returns;
  - the ids the database rejects;
  - the fresh upload id and the clock.

  Library parsers (`JSON.parse`, front matter, `Date`) are partial functions
  passed as parameters. A handler returns its response. Where it sends
  requests, it also returns the URLs or forms it sent, in order.
- Code that updates state step by step becomes a class with `modifies`
  clauses. This covers the carousel, the two admin pages, the photo table of
  the batch-tag route, and the storage and table of the upload route. The
  loops keep their invariants, and each method's new state is tied to a
  specification function whose properties are proved as lemmas.
- A JavaScript `Set` keeps insertion order, so it is a duplicate-free
  sequence. `Array.prototype.sort` is stable, so it is a stable insertion
  sort under the comparator.
- An upload entry's status `"error"` is called `Failed`.

## Behaviour kept as coded

These points may look unintended. The model follows the code:

- A negative `limit` for the Goodreads and Letterboxd routes is not clamped
  to zero. `slice(0, k)` then drops the last `-k` items.
- A missing-configuration answer of the Goodreads and Letterboxd routes
  carries only `error`. It has no empty `books` or `movies` list.
- The Letterboxd title fallback for the rating is used in three cases:
  - the member rating is missing;
  - it cannot be parsed;
  - it renders no star (a rating below one half).
- A negative member rating, an infinite one (`1e400`) and one with more
  stars than the longest string holds (`1e9`) make `"★".repeat` throw. The
  route's `catch` turns that into the 500 envelope, and the model keeps it
  as that error path. A negative rating too small for a double
  (`-1e-400`) is negative zero: it renders no star and does not throw.
- The Raycast search takes the first pattern whose capture is non-empty,
  not merely the first that matches.
- The Goodreads author field is trimmed, but its CDATA wrapper is not
  removed (`Goodreads.AuthorKeepsCdata`).
- The upload page sends `visibility`, but the upload route reads `isPublic`.
  So every upload made from the page goes to the private bucket
  (`UploadPhotos.PayloadIsPrivate`).

## Model

| member | source | states |
|---|---|---|
| `Feed.Limit` | src/app/api/goodreads/route.ts:37-40 | no limit when the parameter is absent or empty; otherwise `parseInt` capped at 500: NaN gives 0, a finite value `k` gives `min(k, 500)`, positive infinity gives 500 and negative infinity stays |
| `Feed.ApplyLimit` | src/app/api/goodreads/route.ts:47 | the result is a prefix of the list, the whole list when there is no limit |
| `Feed.LimitEffect` | src/app/api/letterboxd/route.ts:39-41 | absent or empty keeps all; NaN or negative infinity keeps none; a finite `k` keeps `min(k, 500, n)` items and a negative one drops the last `-k`; positive infinity keeps `min(500, n)` |
| `Feed.LimitCap` | src/app/api/letterboxd/route.ts:40 | at most 500 items whenever the limit is not a negative number |
| `Feed.LimitOne` | src/app/api/goodreads/route.ts:38-40 | `?limit=1` keeps at most one item |
| `Feed.ItemsHaveNoClose` | src/app/api/goodreads/route.ts:68-72 | the lazy `<item>([\s\S]*?)</item>` capture never contains `</item>` |
| `Feed.ItemsOfBlocks` | src/app/api/letterboxd/route.ts:64-68 | round trip: a document of consecutive `<item>` blocks is read back block by block, in order |
| `Goodreads.Field` | src/app/api/goodreads/route.ts:75-81 | a field is found exactly when its tag pair matches with the optional CDATA wrapper, and the value is trimmed |
| `Goodreads.Author` | src/app/api/goodreads/route.ts:83-97 | `Unknown Author` when no `author_name` tag is closed in the item; otherwise the trimmed text between the first opening tag and the first closing tag after it, with no CDATA handling |
| `Goodreads.AuthorOfTag` | src/app/api/goodreads/route.ts:83-97 | an item whose first `author_name` tag holds text without `<` has that text, trimmed, as its author |
| `Goodreads.AuthorKeepsCdata` | src/app/api/goodreads/route.ts:82-85 | an author written inside a CDATA section keeps the `<![CDATA[` and `]]>` markers |
| `Goodreads.BookOf` | src/app/api/goodreads/route.ts:95-106 | a block gives a book exactly when it has a title and a link; every field is the trimmed capture of its tag, and the author is `Author` of the block |
| `Goodreads.BooksOfBlocks` | src/app/api/goodreads/route.ts:71-108 | the books are the blocks that have a title and a link, in block order |
| `Goodreads.BooksOfBounds` | src/app/api/goodreads/route.ts:95-107 | at most one book per block, and every book is trimmed |
| `Goodreads.ParseGoodreadsRss` | src/app/api/goodreads/route.ts:66-111 | the `exec` loop returns exactly the books of the blocks, in document order |
| `Goodreads.SortByReadDate` | src/app/api/goodreads/route.ts:41-46 | the sorted list is a permutation of the parsed books |
| `Goodreads.ReadBeforeStrictWeak` | src/app/api/goodreads/route.ts:41-46 | the comparator is a consistent ordering when every non-empty `readAt` parses |
| `Goodreads.SortedByReadDate` | src/app/api/goodreads/route.ts:41-46 | dated books come before undated ones, and dated books run from the latest date to the earliest |
| `Goodreads.TiesKeepFeedOrder` | src/app/api/goodreads/route.ts:41-46 | books the comparator cannot tell apart keep their feed order |
| `Goodreads.Get` | src/app/api/goodreads/route.ts:11-64 | 500 without credentials and no fetch; 500 with an empty list when the fetch fails; otherwise 200 with the sorted, limited books, a sub-multiset of the feed, and the feed cache header |
| `Letterboxd.LineValue` | src/app/api/letterboxd/route.ts:71-83 | a single-line field is found exactly when `<tag>(.*?)</tag>` matches, and its value is trimmed |
| `Letterboxd.LastSrc` | src/app/api/letterboxd/route.ts:90 | the greedy `[^>]+` settles on the last `src="…"` in reach, and there is none when it finds nothing |
| `Letterboxd.ImgSrc` | src/app/api/letterboxd/route.ts:90 | a found image source is non-empty and holds no `"` |
| `Letterboxd.ImageUrl` | src/app/api/letterboxd/route.ts:84-94 | the poster is trimmed, and is absent when there is no CDATA description |
| `Letterboxd.ImgSrcOfTag` | src/app/api/letterboxd/route.ts:90 | round trip: `<img src="u">` gives back `u` |
| `Letterboxd.NoCdataNoImage` | src/app/api/letterboxd/route.ts:84-94 | a description without the CDATA wrapper gives no poster |
| `Letterboxd.StarRating` | src/app/api/letterboxd/route.ts:100-102 | `floor(r)` full stars followed by a half star exactly when the fraction is at least one half |
| `Letterboxd.StarRatingMeaning` | src/app/api/letterboxd/route.ts:100-102 | the full-star count is the integer part of the rating and the half star appears exactly when twice the remainder reaches one |
| `Letterboxd.FourAndAHalf` | src/app/api/letterboxd/route.ts:100-102 | 4.5 renders as `★★★★½` |
| `Letterboxd.MemberRating` | src/app/api/letterboxd/route.ts:96-104 | no rating without the field or when `parseFloat` gives NaN; `repeat` throws exactly for an infinite or negative rating or one with more stars than the longest string holds; any other finite rating renders its stars |
| `Letterboxd.MemberRatingOverflow` | src/app/api/letterboxd/route.ts:97-101 | a rating of `1e400` parses to an infinity, so `repeat` throws |
| `Letterboxd.MemberRatingTooLong` | src/app/api/letterboxd/route.ts:97-101 | a rating of `1e9` asks for a billion stars, beyond the longest string, so `repeat` throws |
| `Letterboxd.MemberRatingUnderflow` | src/app/api/letterboxd/route.ts:97-103 | a rating of `-1e-400` parses to zero, renders no star and does not throw |
| `Letterboxd.MemberRatingFourAndAHalf` | src/app/api/letterboxd/route.ts:97-103 | a member rating of `4.5` gives `★★★★½` |
| `Letterboxd.StarRun` | src/app/api/letterboxd/route.ts:109 | the first run of `★`/`½` marks, absent exactly when the title has none |
| `Letterboxd.StarRunOfTitle` | src/app/api/letterboxd/route.ts:107-113 | a title `name - stars` gives back its stars |
| `Letterboxd.RatingOf` | src/app/api/letterboxd/route.ts:96-114 | the member rating when it is truthy; otherwise the title's stars when there are any; a throwing rating throws |
| `Letterboxd.MovieOf` | src/app/api/letterboxd/route.ts:116-125 | a block throws exactly when its rating throws, and gives a movie exactly when it does not and has a film title and a link |
| `Letterboxd.MovieFields` | src/app/api/letterboxd/route.ts:117-124 | an emitted movie holds the trimmed captures, the rating after the fallback and the poster |
| `Letterboxd.CollectMeaning` | src/app/api/letterboxd/route.ts:67-128 | the loop fails exactly when some block throws, and otherwise yields the emitted movies in block order |
| `Letterboxd.ParseRssMeaning` | src/app/api/letterboxd/route.ts:60-129 | the parse fails exactly when some block's rating throws, and otherwise gives one movie per block with a film title and a link |
| `Letterboxd.ParseLetterboxdRss` | src/app/api/letterboxd/route.ts:60-129 | the `exec` loop returns the movies of the model, or fails where the source throws |
| `Letterboxd.LineBreakInTitle` | src/app/api/letterboxd/route.ts:71-73 | a film title broken over two lines is not matched, so the block gives no movie |
| `Letterboxd.Get` | src/app/api/letterboxd/route.ts:12-58 | 500 without a username and no fetch; 200 exactly when the fetch succeeds and no rating throws, with the limited movies and the feed cache header; otherwise 500 with an empty list |
| `Raycast.CommaRunSlice` | src/app/api/raycast-installs/route.ts:28-31 | a comma-grouped run inside the page is exactly a slice that `\d+(?:,\d+)*` can match |
| `Raycast.NumberEnd` | src/app/api/raycast-installs/route.ts:28-31 | the greedy `\d+(?:,\d+)*` stops after a comma-grouped number that neither a digit nor a `,digit` continues |
| `Raycast.ShorterIsFollowedByNumberChar` | src/app/api/raycast-installs/route.ts:29 | backtracking the greedy number always leaves a digit or a comma next, so only its longest match can be followed by space, a letter or `<` |
| `Raycast.LazyCountFrom` | src/app/api/raycast-installs/route.ts:31 | the lazy `.*?` settles on a position where the count pattern matches |
| `Raycast.FirstFromMeaning` | src/app/api/raycast-installs/route.ts:35 | the search returns the first position that matches, and none when nothing in range matches |
| `Raycast.Leftmost` | src/app/api/raycast-installs/route.ts:35 | a position found is one where the pattern matches |
| `Raycast.LeftmostMeaning` | src/app/api/raycast-installs/route.ts:35 | no match starts before the leftmost one, and none at all when the search fails |
| `Raycast.ExecMeaning` | src/app/api/raycast-installs/route.ts:35 | `html.match` finds nothing exactly when the pattern matches at no position |
| `Raycast.ExecAt` | src/app/api/raycast-installs/route.ts:35 | with no match before `p`, `html.match` returns the capture of the match at `p` |
| `Raycast.FirstCaptureMeaning` | src/app/api/raycast-installs/route.ts:34-43 | no count exactly when no pattern matches; otherwise the capture of the first pattern that matches |
| `Raycast.AtIsCommaNumber` | src/app/api/raycast-installs/route.ts:27-32 | every pattern's capture is a comma-grouped number |
| `Raycast.FirstCaptureIsCommaNumber` | src/app/api/raycast-installs/route.ts:34-37 | the count found is a comma-grouped number |
| `Raycast.FirstCaptureCons` | src/app/api/raycast-installs/route.ts:34-36 | the first pattern that matches decides, and a pattern that does not hands over to the next |
| `Raycast.FindCount` | src/app/api/raycast-installs/route.ts:34-43 | the loop over the patterns returns the capture of the first one that matches |
| `Raycast.AvatarImpliesCount` | src/app/api/raycast-installs/route.ts:29-31 | whenever the `Avatar` pattern matches, the plain count pattern matches too |
| `Raycast.AvatarNeverDecides` | src/app/api/raycast-installs/route.ts:27-43 | the fourth pattern never changes the outcome: the first three decide it |
| `Raycast.RemoveCommasIsFilter` | src/app/api/raycast-installs/route.ts:37 | `replace(/,/g, "")` keeps every other character, in order |
| `Raycast.CountValue` | src/app/api/raycast-installs/route.ts:37-39 | the captured count without commas is all digits; `parseInt` gives its value when that is below the overflow boundary and positive infinity from there on; printing the value gives the digits without leading zeros |
| `Raycast.Get` | src/app/api/raycast-installs/route.ts:3-56 | 500 when the fetch fails; 200 with `installs: null` and the not-found error when no pattern matches; otherwise 200 with its text as formatted and `installs` the count when `parseInt` keeps it finite, `null` when `parseInt` overflows to infinity |
| `Raycast.CountIgnoresCase` | src/app/api/raycast-installs/route.ts:29 | the count pattern ignores case and takes `Install` or `Installs` after any white space |
| `Raycast.NumberEndIs` | src/app/api/raycast-installs/route.ts:28-31 | the greedy number ends exactly where a comma-grouped number that nothing continues ends |
| `Raycast.RenderedCount` | src/app/api/raycast-installs/route.ts:26-28 | the store page's markup `>N<!-- --> Installs<` gives back `N` |
| `Raycast.NoDigitNoCount` | src/app/api/raycast-installs/route.ts:45-48 | a page without a digit gives the not-found answer |
| `Raycast.CountExample1234` | src/app/api/raycast-installs/route.ts:37-39 | `1,234` is read as the finite 1234 |
| `Raycast.CountExample195` | src/app/api/raycast-installs/route.ts:37-39 | `195` is read as the finite 195 |
| `Serializd.ParseNextData` | src/app/api/serializd/route.ts:69-79 | `null` whenever the page has no `__NEXT_DATA__` script tag |
| `Serializd.NextDataOfPage` | src/app/api/serializd/route.ts:69-79 | round trip: a page whose first `__NEXT_DATA__` tag holds `body` gives what `JSON.parse` makes of the trimmed body |
| `Serializd.NextDataAt` | src/app/api/serializd/route.ts:70-75 | the lazy capture of the first script tag is its whole body, which is trimmed and parsed |
| `Serializd.CountMeaning` | src/app/api/serializd/route.ts:25-37 | a count is the value under `props.pageProps.data.details.<key>` when that chain is defined and not `null`, so a `0` is kept, and `null` otherwise |
| `Serializd.Get` | src/app/api/serializd/route.ts:5-59 | the shows page of the username (default `baguirre`) is fetched; a failed fetch gives the 500 envelope; otherwise 200 with the three derived URLs, the username, both counts and the feed cache header |
| `Serializd.LinksIgnorePage` | src/app/api/serializd/route.ts:26-35 | the links and the username depend on the environment only, never on the page |
| `Serializd.CountsOfDocument` | src/app/api/serializd/route.ts:36-37 | a page whose data has details `{showWatchedCount: 42, reviewCount: 10}` reports 42 and 10 |
| `Json.Member` | src/app/api/serializd/route.ts:25 | optional chaining `v?.[key]` gives a value only when `v` is an object that has `key` |
| `Json.PathOfUndefined` | src/app/api/serializd/route.ts:25 | once a link of the chain is `undefined`, the whole chain is `undefined` |
| `Json.PathAppend` | src/app/api/serializd/route.ts:25 | following `a` then `b` is the same as following `a + b` |
| `Json.PathOfNest` | src/app/api/serializd/route.ts:25 | round trip: following the keys of a nested object finds the value stored under them |
| `Json.PathFound` | src/app/api/serializd/route.ts:25 | a chain that finds something started at an object that has the first key |
| `Json.OrElse` | src/app/api/serializd/route.ts:36-37 | `x ?? fallback` replaces only `undefined` and `null`, so `0`, `false` and `""` are kept |
| `JsNumber.IntegerPrefix` | src/app/api/goodreads/route.ts:39 | there is no integer to read exactly when, after leading white space and one sign, no digit follows |
| `JsNumber.ParseInt` | src/app/api/goodreads/route.ts:39 | `parseInt(s, 10)` is NaN exactly when no integer leads the text; it is an infinity of the integer's sign exactly when the integer's magnitude reaches the overflow boundary; otherwise it is that integer |
| `JsNumber.ParseIntOfDigits` | src/app/api/raycast-installs/route.ts:39 | `parseInt` of a plain digit string is its decimal value below the overflow boundary and positive infinity from there on |
| `JsNumber.IntegerPrefixOfDigits` | src/app/api/raycast-installs/route.ts:39 | a plain digit string is read whole |
| `JsNumber.ValueOfNatToString` | src/app/api/raycast-installs/route.ts:39 | round trip: reading a printed number gives the number back |
| `JsNumber.NatToStringOfDigits` | src/app/api/raycast-installs/route.ts:39 | printing the value of a digit string gives that string without its leading zeros |
| `JsNumber.ParseFloat` | src/app/api/letterboxd/route.ts:98 | `parseFloat` is NaN exactly when no decimal literal follows the leading white space; otherwise it is that literal's value taken into the range of a double |
| `JsNumber.ToDouble` | src/app/api/letterboxd/route.ts:98 | a decimal at or beyond the largest double's rounding boundary becomes an infinity of its sign; a non-zero one at or below half the least subnormal becomes zero; every other value is kept |
| `JsNumber.DoubleRange` | src/app/api/letterboxd/route.ts:98 | the overflow boundary lies between `10^9` and `10^309`, and the underflow scale below `10^324` |
| `JsNumber.DoubleKept` | src/app/api/letterboxd/route.ts:98 | a decimal of at most nine digits and at most nine places after the point stays as written |
| `JsNumber.OverflowFrom309` | src/app/api/letterboxd/route.ts:98 | every non-zero decimal from `10^309` on overflows |
| `JsNumber.UnderflowFrom325` | src/app/api/letterboxd/route.ts:98 | a one-digit decimal scaled by `10^-325` or less underflows and does not overflow |
| `JsNumber.ScanDecimalDigitFirst` | src/app/api/letterboxd/route.ts:98 | text starting with a digit scans as its unsigned decimal |
| `JsNumber.ScanDecimalMinus` | src/app/api/letterboxd/route.ts:98 | a minus sign before a digit negates the unsigned decimal and adds one to the length |
| `JsNumber.ParseFloatKept` | src/app/api/letterboxd/route.ts:98 | `parseFloat` of text whose decimal prefix is short gives that decimal |
| `JsNumber.ParseFloatOverflow` | src/app/api/letterboxd/route.ts:98 | `parseFloat` of a non-zero decimal from `10^309` on gives an infinity of its sign |
| `JsNumber.ParseFloatUnderflow` | src/app/api/letterboxd/route.ts:98 | `parseFloat` of a one-digit decimal scaled by `10^-325` or less gives zero |
| `JsNumber.ToNumber` | src/app/api/recent-posts/route.ts:10 | `Number` of blank text is zero |
| `JsNumber.ToNumberOfDigits` | src/app/api/recent-posts/route.ts:10 | `Number` of a plain digit string whose value is below the overflow boundary is that value |
| `JsNumber.ToNumberOfWord` | src/app/api/recent-posts/route.ts:10-11 | `Number` of text starting with a lower-case letter, such as `invalid`, is NaN |
| `JsNumber.FloorAndFraction` | src/app/api/letterboxd/route.ts:100-101 | `Math.floor(x)` is the integer part of `x`, and `x % 1 >= 0.5` holds exactly when what remains is at least one half |
| `RecentPosts.Listing` | src/app/api/recent-posts/route.ts:16-23 | one summary per kept post, in order, with its slug, title, date and excerpt |
| `RecentPosts.Get` | src/app/api/recent-posts/route.ts:4-24 | when `getAllBlogPosts` throws (the directory cannot be listed or a post cannot be read), the framework's 500; otherwise 200 with the listing of its posts cut by the limit |
| `RecentPosts.GetMeaning` | src/app/api/recent-posts/route.ts:8 | the route fails exactly when the posts directory cannot be listed or one of its Markdown files cannot be read; otherwise its summaries come from Markdown files in the listing, newest first |
| `RecentPosts.LimitIgnored` | src/app/api/recent-posts/route.ts:9-14 | a limit that is absent, empty, NaN, zero or negative keeps every post |
| `RecentPosts.LimitApplied` | src/app/api/recent-posts/route.ts:10-12 | a positive limit keeps the first `floor(limit)` posts, in order |
| `RecentPosts.LimitExamples` | src/app/api/recent-posts/route.ts:9-14 | `?limit=2` keeps two posts, `?limit=0` and `?limit=invalid` keep them all |
| `Blog.Slug` | src/lib/blog.ts:20 | one trailing `.md` is removed, and a name without it is kept |
| `Blog.SlugOfFileName` | src/lib/blog.ts:20-21 | round trip: the slug of `slug.md` is `slug` |
| `Blog.LoadAll` | src/lib/blog.ts:17-32 | one post per file in listing order, with the slug and the front matter of that file; a file that cannot be read makes the whole call fail |
| `Blog.LaterStrictWeak` | src/lib/blog.ts:34 | the "later date first" order that the comparator induces is a strict weak order |
| `Blog.AllBlogPostsMeaning` | src/lib/blog.ts:15-35 | the posts are exactly those of the `.md` files, ordered by non-increasing date, each named after a file of the directory; the call fails exactly when the directory cannot be listed or one of its `.md` files cannot be read |
| `Blog.BlogPost` | src/lib/blog.ts:37-53 | `null` exactly when `slug.md` cannot be read or parsed; otherwise a post carrying the requested slug |
| `Blog.ListedPostsAreFound` | src/lib/blog.ts:15-53 | every post of the listing is what `getBlogPost` returns for its slug |
| `Blog.RecentBlogPostsMeaning` | src/lib/blog.ts:55-57 | the recent posts are the first `min(count, n)` of the sorted listing, three by default, and fail exactly when the listing does |
| `PhotoAccess.MatchLevelMeaning` | src/app/api/photo-access/route.ts:21-28 | the friends level is granted exactly when the friends password is set and equal; the family level exactly when the family password is set, equal and the friends one is not; an empty password matches nothing |
| `PhotoAccess.Entries` | src/app/api/photo-access/route.ts:40 | the entries are the non-empty comma-separated parts of the cookie, none holding a comma |
| `PhotoAccess.EntriesOfJoin` | src/app/api/photo-access/route.ts:79 | round trip: non-empty, comma-free entries joined with commas are read back as the same list, repeats and order included |
| `PhotoAccess.EntriesAppend` | src/app/api/photo-access/route.ts:79 | the entries of `a,b` are those of `a` followed by those of `b` |
| `PhotoAccess.MergedLevels` | src/app/api/photo-access/route.ts:40-41 | the merged levels are distinct, hold the granted level and exactly the old entries besides it |
| `PhotoAccess.MergedIsSetOfAll` | src/app/api/photo-access/route.ts:40-43 | the merged levels are the insertion-ordered set of the old entries followed by the new level |
| `PhotoAccess.Post` | src/app/api/photo-access/route.ts:7-60 | a body that fails to parse or is `null` gives 400 "Invalid request"; a cookie is set exactly on 200, which happens only for a string password that matches a level, and then carries the merged levels, joined by commas, for 30 days |
| `PhotoAccess.PostRefusals` | src/app/api/photo-access/route.ts:11-35 | a missing, empty or non-string password gives 400 "Password is required"; a password matching neither level gives 401 "Incorrect password" |
| `PhotoAccess.LevelsAreCookie` | src/app/api/photo-access/route.ts:43-53 | the levels the response lists are the cookie value split back at its commas |
| `PhotoAccess.MergeIdempotent` | src/app/api/photo-access/route.ts:37-43 | granting the same level twice leaves the cookie as the first grant wrote it |
| `PhotoAccess.MergeKeepsLevels` | src/app/api/photo-access/route.ts:40-41 | a grant never loses a level already held |
| `PhotoAccess.Delete` | src/app/api/photo-access/route.ts:62-73 | the cookie is emptied with `maxAge` 0 and the reply is `{success: true}` |
| `PhotoAccess.Get` | src/app/api/photo-access/route.ts:76-81 | the levels are exactly the cookie's `Entries`: its non-empty comma-separated parts in order, repeats kept, or none without a cookie |
| `PhotoAccess.GetKeepsRepeats` | src/app/api/photo-access/route.ts:79 | a cookie `x,,x` lists `x` twice: repeats are kept and the empty entry is skipped |
| `PhotoAccess.GetFriendsTwice` | src/app/api/photo-access/route.ts:79 | `friends,,friends` lists `friends` twice |
| `PhotoAccess.GetAfterPost` | src/app/api/photo-access/route.ts:43-80 | after a grant, `GET` on the written cookie lists the levels the grant answered |
| `BatchTags.Strings` | src/app/api/photos/batch-tags/route.ts:33-39 | the items of an array are read as strings exactly when every item is a string, one string per item in order; any other item makes `trim` throw |
| `BatchTags.IdsMeaning` | src/app/api/photos/batch-tags/route.ts:33-35 | an id is kept, as sent, exactly when it is not blank |
| `BatchTags.NormalisedTags` | src/app/api/photos/batch-tags/route.ts:36-40 | every tag to add is non-empty, has no white space at its ends and is lower-case |
| `BatchTags.Merge` | src/app/api/photos/batch-tags/route.ts:70-71 | the merged tags are strictly increasing and are exactly the current tags (none for `null`) together with the added ones |
| `BatchTags.MergeIdempotent` | src/app/api/photos/batch-tags/route.ts:71 | adding the same tags a second time changes nothing |
| `BatchTags.MergeTwice` | src/app/api/photos/batch-tags/route.ts:71 | two batches in turn give what one batch with both sets of tags gives |
| `BatchTags.MergeNothing` | src/app/api/photos/batch-tags/route.ts:71 | sorted duplicate-free tags with nothing to add are kept as they are |
| `BatchTags.Updates` | src/app/api/photos/batch-tags/route.ts:69-73 | one write per fetched row, in fetch order, with that row's id and its merged tags |
| `BatchTags.Halted` | src/app/api/photos/batch-tags/route.ts:75-81 | the writes that succeed are those before the first one the database rejects |
| `BatchTags.Written` | src/app/api/photos/batch-tags/route.ts:75-81 | `update().eq("id", …)` never adds or removes a row: the table after the writes has the same photo ids |
| `BatchTags.WrittenElsewhere` | src/app/api/photos/batch-tags/route.ts:76-79 | a photo no write names keeps its tags |
| `BatchTags.WrittenHolds` | src/app/api/photos/batch-tags/route.ts:75-81 | with one write per photo, every photo written that the table holds has the tags its write carries |
| `BatchTags.PhotoTable.UpdateAll` | src/app/api/photos/batch-tags/route.ts:75-81 | the writes are applied in order up to the first rejected one, which stops the loop; the count applied is `Halted` |
| `BatchTags.PhotoTable.Post` | src/app/api/photos/batch-tags/route.ts:4-91 | 403 for anyone but an admin; 500 when the body is not JSON or its ids or tags are not strings; 400 when no id or no tag survives; 500 on a failed query; otherwise the writes up to the first rejected one are applied, and the reply is 200 with the number of fetched rows only when all succeed; after a 200 every listed photo of the table has its merged tags, every other photo keeps its tags and no row is added or removed |
| `BatchTags.SuccessfulBatch` | src/app/api/photos/batch-tags/route.ts:62-83 | when the rows are those the `select … in ids` query returns from the table, a complete batch gives every listed photo the table holds its old tags merged with the new ones, leaves every other photo untouched and adds or removes no row |
| `PhotoTags.TagIndexMeaning` | src/app/api/photos/tags/route.ts:37-41 | the tag index is strictly increasing, so sorted and duplicate-free, and holds exactly the non-empty tags used on some row |
| `PhotoTags.UsedOfPermutation` | src/app/api/photos/tags/route.ts:39 | a tag used on some row is still used when the rows come back in another order |
| `PhotoTags.TagIndexIgnoresOrder` | src/app/api/photos/tags/route.ts:30-41 | the index does not depend on the order the query returns the rows in |
| `PhotoTags.Get` | src/app/api/photos/tags/route.ts:5-56 | 500 "Failed to load tags" exactly when the query fails; otherwise the tag index, privately cached for an admin and publicly cached for everyone else |
| `PhotoTags.CacheByRole` | src/app/api/photos/tags/route.ts:43-46 | the answer is kept out of shared caches exactly when the user's role is `admin` |
| `Markdown.NormalizeBlogImageSrc` | src/components/markdown-renderer.tsx:8-9 | the result is empty exactly when the source is undefined or empty |
| `Markdown.BlogPathKept` | src/components/markdown-renderer.tsx:15 | a trimmed path already under `/blog/images/` is returned unchanged |
| `Markdown.NotRelative` | src/components/markdown-renderer.tsx:11-15 | a path under `/blog/images/` matches neither relative prefix, so the third branch is the one that sees it |
| `Markdown.NormalizeIdempotent` | src/components/markdown-renderer.tsx:8-17 | normalising a normalised source changes nothing |
| `Markdown.RelativeSourcesAreBlogPaths` | src/components/markdown-renderer.tsx:11-14 | every source that, trimmed, starts with `./images/` or `images/` ends up under `/blog/images/` |
| `Markdown.NormalizeDotImages` | src/components/markdown-renderer.tsx:10-12 | `./images/x`, with white space around it, becomes exactly `/blog/images/x` |
| `Markdown.NormalizeImages` | src/components/markdown-renderer.tsx:10-14 | `images/x`, with white space around it, becomes exactly `/blog/images/x` |
| `Markdown.NormalizeBlogImages` | src/components/markdown-renderer.tsx:10-15 | `/blog/images/x`, with white space around it, comes back trimmed |
| `Markdown.NormalizeOther` | src/components/markdown-renderer.tsx:10-16 | a source whose trimmed text starts with none of the three prefixes is returned as given, untrimmed |
| `Markdown.Img` | src/components/markdown-renderer.tsx:28-45 | nothing is rendered exactly when the source is absent or empty; otherwise an 800×500 image of the normalised source with the `alt` text, or `""` |
| `Markdown.RenderHeading` | src/components/markdown-renderer.tsx:46-52 | `h1` renders nothing; every other level renders a heading of its own level |
| `Markdown.WordEnd` | src/components/markdown-renderer.tsx:66 | the greedy `\w+` stops at the first character that is not a word character |
| `Markdown.Language` | src/components/markdown-renderer.tsx:66-67 | no language exactly when no `language-` followed by a word character occurs; otherwise the whole word after the leftmost such occurrence |
| `Markdown.DropFinalNewline` | src/components/markdown-renderer.tsx:78 | one final newline is removed and nothing else |
| `Markdown.ClassifyCodeMeaning` | src/components/markdown-renderer.tsx:65-100 | highlighted exactly when the class names a language, with the text less its final newline; otherwise a plain block exactly when the text has a newline or there is a class name, and inline code in every other case, both with the text as given |
| `Markdown.LanguageOfClass` | src/components/markdown-renderer.tsx:66-67 | the class `language-<word>` selects `<word>` |
| `Markdown.LanguageAtStart` | src/components/markdown-renderer.tsx:66-67 | a class that starts with `language-` and a word character selects that first word |
| `Markdown.FencedBlockExample` | src/components/markdown-renderer.tsx:65-81 | a fenced `ts` block is highlighted as `ts` without the newline the parser leaves at its end |
| `Carousel.Prev` | src/components/carousel.tsx:22-24 | on a valid index the previous one is one less, wrapping from the first slide to the last |
| `Carousel.Next` | src/components/carousel.tsx:26-28 | on a valid index the next one is one more, wrapping from the last slide to the first |
| `Carousel.PrevNextInverse` | src/components/carousel.tsx:22-28 | each arrow undoes the other |
| `Carousel.NextTimesAdd` | src/components/carousel.tsx:26-28 | `a` presses of the next arrow followed by `b` presses are `a + b` presses |
| `Carousel.NextTimesForward` | src/components/carousel.tsx:26-28 | short of the last slide, `k` presses move `k` slides on |
| `Carousel.FullTurn` | src/components/carousel.tsx:26-28 | `n` presses on `n` slides come back to the starting slide |
| `Carousel.Carousel.constructor` | src/components/carousel.tsx:18-19 | a new carousel shows the first slide |
| `Carousel.Carousel.GoPrev` | src/components/carousel.tsx:22-24 | the index becomes `Prev` of the old one and stays valid |
| `Carousel.Carousel.GoNext` | src/components/carousel.tsx:26-28 | the index becomes `Next` of the old one and stays valid |
| `Carousel.Carousel.SelectDot` | src/components/carousel.tsx:70-74 | a dot selects its own slide |
| `Carousel.Carousel.View` | src/components/carousel.tsx:20-94 | nothing without slides; otherwise the current slide's image, with the caption as `alt` (`Slide n`, counting from one, without a caption), priority only on the first slide, arrows and one dot per slide only with more than one slide, exactly the current dot marked, and a caption line only for a non-empty caption, showing that caption |
| `Middleware.GetAfterSet` | src/middleware.ts:38 | after `searchParams.set`, `get` of that name finds the value set |
| `Middleware.GetWithout` | src/middleware.ts:38 | dropping the pairs of one name does not change what `get` finds for another |
| `Middleware.GetOtherAfterSet` | src/middleware.ts:38 | `set` leaves every other name's value as it was |
| `Middleware.SetLeavesOne` | src/middleware.ts:38 | after `set` exactly one pair carries that name |
| `Middleware.Guard` | src/middleware.ts:4-55 | a redirect always goes to `/login` with `redirectedFrom` set to the requested path; a refusal is always 404 "Not found" |
| `Middleware.GuardAdmits` | src/middleware.ts:7-54 | a request passes exactly when its path does not start with `/upload-photos`, or it has a session whose user's role is `admin`; a guarded request without a session is redirected |
| `Middleware.RedirectKeepsQuery` | src/middleware.ts:36-39 | the redirect keeps every other query parameter of the request |
| `Middleware.UserRoleWins` | src/middleware.ts:46-52 | the role in the user's own metadata wins over the app's, so an app admin whose user metadata names another role gets 404, and one with no user role passes |
| `Navigation.ActiveFlags` | src/app/components/Navigation.tsx:30-33 | one flag per menu item, set exactly when the path equals the item's link, or the item is the blog and the path starts with `/blog/`; the mobile menu at lines 76-79 uses the same rule |
| `Navigation.HomeOnlyAtRoot` | src/app/components/Navigation.tsx:7-12 | Home is active on `/` and on no other path |
| `Navigation.AtMostOneActive` | src/app/components/Navigation.tsx:31-33 | no path makes two items active |
| `Navigation.Examples` | src/app/components/Navigation.tsx:31-33 | `/photos/x` activates nothing and `/blog/hello` activates only Blog |
| `Spotify.JoinNamesExamples` | src/app/api/spotify/now-playing/route.ts:75 | one artist is shown as is, two are joined by `", "`, none give `""` |
| `Spotify.JoinNamesSplit` | src/app/api/spotify/now-playing/route.ts:75 | a joined list is its first `k` names, the separator and the rest, so every pair of neighbours is separated once |
| `Spotify.TrackToPayload` | src/app/api/spotify/now-playing/route.ts:71-80 | the title is the track's; the artists are joined, `""` without a list; a missing album name or link becomes `""`; the image is the first album image's URL, and `null` exactly when there is no album, no image list, an empty one, or a first image without a URL |
| `Spotify.Get` | src/app/api/spotify/now-playing/route.ts:82-181 | the status is always 200; the answer carries an error exactly when it has the 60-second cache, and that answer is the idle body with "Spotify not configured or token expired"; every other answer has the 30-second cache |
| `Spotify.NoTokenNoLookup` | src/app/api/spotify/now-playing/route.ts:40-69 | missing credentials or a failed token exchange give the error answer before the player is asked |
| `Spotify.RecentOnlyAfterNoContent` | src/app/api/spotify/now-playing/route.ts:91-96 | the recently-played list is requested exactly when the player answers 204, and then the requests are the token, the player and the list, in that order |
| `Spotify.PlayingDispatch` | src/app/api/spotify/now-playing/route.ts:91-165 | a 200 with a track reports it, playing unless `is_playing` says otherwise; a 200 without a track and any status other than 200 and 204 give the idle answer with no error |
| `Spotify.RecentDispatch` | src/app/api/spotify/now-playing/route.ts:92-131 | after a 204, the first recently played track is reported as not playing, with the time it was played; without one the answer is idle |
| `UploadRoute.FieldAbsent` | src/app/api/upload-photo/route.ts:42 | a form without a field of that name answers `null` |
| `UploadRoute.ExtensionWithoutDot` | src/app/api/upload-photo/route.ts:80 | a name without a dot is its own extension |
| `UploadRoute.ExtensionAfterDot` | src/app/api/upload-photo/route.ts:80 | whatever comes before a dot does not change the extension |
| `UploadRoute.ExtensionAfterFirstDot` | src/app/api/upload-photo/route.ts:80 | a dot-free text and the dot after it do not change the extension |
| `UploadRoute.ExtensionAfterDotInPrefix` | src/app/api/upload-photo/route.ts:80 | the text up to the first dot of the prefix does not change the extension |
| `UploadRoute.ExtensionIsLastPart` | src/app/api/upload-photo/route.ts:80 | the extension is the part of the name after its last dot, and holds no dot |
| `UploadRoute.StoredName` | src/app/api/upload-photo/route.ts:80-82 | the stored name is the fresh id, followed by `.` and the extension unless the extension is empty |
| `UploadRoute.StoredNameOfDotted` | src/app/api/upload-photo/route.ts:80-81 | `roll.12.jpg` is stored as `<id>.jpg` |
| `UploadRoute.StoredNameOfUndotted` | src/app/api/upload-photo/route.ts:80-81 | `scan` is stored as `<id>.scan`, since a name without a dot is its own extension |
| `UploadRoute.StoredNameOfTrailingDot` | src/app/api/upload-photo/route.ts:80-81 | `frame.` has an empty extension and is stored under the bare id |
| `UploadRoute.StoredTitle` | src/app/api/upload-photo/route.ts:106 | the trimmed title, or the file's name when that is empty |
| `UploadRoute.Checked` | src/app/api/upload-photo/route.ts:34-68 | in order: 401 without a user, the unhandled 500 when the form cannot be read, 400 when `file` is not a file, 400 for a type not allowed (listing the allowed types), 400 above the size limit, and no refusal otherwise |
| `UploadRoute.Backend.Post` | src/app/api/upload-photo/route.ts:10-142 | a refusal stores nothing; a file under `title` or `description` ends in the unhandled 500; an upload to a name already stored is refused with the storage's conflict error, and any failed upload stores nothing; a failed insert removes the stored object again, so storage is as it was, unless that removal fails, whose error is ignored and leaves the object stored; otherwise the object is stored under the chosen bucket and name, one record with the trimmed title (or the file name), description, size, type, bucket and time is appended, and the answer is 200 with `no-store` |
| `UploadRoute.BucketChoice` | src/app/api/upload-photo/route.ts:70-79 | no `isPublic` field or the text `false` selects the private bucket, the text `true` the public one |
| `UploadPhotos.TenthsNearest` | src/app/upload-photos/page.tsx:47 | the size printed by `toFixed(1)` is the tenth of a MiB nearest to the file's size |
| `UploadPhotos.ValidateFile` | src/app/upload-photos/page.tsx:36-53 | a file is valid exactly when its type is allowed and its size is within the limit, and exactly when there is no error; the type is checked first, so a disallowed type reports its format and an oversized allowed file reports its size |
| `UploadPhotos.TooLargeExample` | src/app/upload-photos/page.tsx:44-48 | a 12,000,000-byte file is reported as "File too large (11.4MB)" |
| `UploadPhotos.UnsupportedWithoutSlash` | src/app/upload-photos/page.tsx:41 | a type without `/` is reported as "Unsupported format: undefined" |
| `UploadPhotos.FilesOfAppend` | src/app/upload-photos/page.tsx:82 | the files of appended entry lists are the files of each list, appended |
| `UploadPhotos.AcceptedFiles` | src/app/upload-photos/page.tsx:65-76 | the entries a selection adds are exactly its valid files, in selection order |
| `UploadPhotos.AcceptedPending` | src/app/upload-photos/page.tsx:71-75 | every added entry starts pending and without an error |
| `UploadPhotos.AcceptedOrReported` | src/app/upload-photos/page.tsx:65-76 | every selected file is either added or reported on one error line |
| `UploadPhotos.PayloadFields` | src/app/upload-photos/page.tsx:123-133 | the title sent is the file name; the roll number is sent trimmed and only when it is not blank; the date only when it is not empty |
| `UploadPhotos.PayloadIsPrivate` | src/app/upload-photos/page.tsx:123-133 | the form carries no `isPublic` field, so the upload route (src/app/api/upload-photo/route.ts:70-79) stores every upload from this page in the private bucket |
| `UploadPhotos.Finished` | src/app/upload-photos/page.tsx:140-157 | an entry keeps its file; it is done after an OK reply that reports success, and otherwise failed with the reply's error, "Upload failed" when that is empty, or the exception's message |
| `UploadPhotos.UploadedUpTo` | src/app/upload-photos/page.tsx:114-161 | the loop's effect up to an index keeps the number of entries |
| `UploadPhotos.PrefixStep` | src/app/upload-photos/page.tsx:114-161 | one more entry adds one to the count, one form and two status changes when it is pending, and nothing otherwise |
| `UploadPhotos.UploadedStep` | src/app/upload-photos/page.tsx:115-157 | passing an index finishes only that entry, and only when it is pending |
| `UploadPhotos.NoPendingLeft` | src/app/upload-photos/page.tsx:106-107 | a list with no pending entry has a pending count of zero |
| `UploadPhotos.UploadedMeaning` | src/app/upload-photos/page.tsx:114-161 | after the upload no entry is pending; entries that were not pending are unchanged, and each pending one keeps its file and is done or failed |
| `UploadPhotos.CountsAgree` | src/app/upload-photos/page.tsx:106-161 | each pending entry makes exactly one post and two status changes |
| `UploadPhotos.PhotoUpload.constructor` | src/app/upload-photos/page.tsx:24-32 | the page starts with no files, no validation error, a 0/0 progress and not uploading |
| `UploadPhotos.PhotoUpload.HandleFilesSelect` | src/app/upload-photos/page.tsx:55-88 | an empty selection changes nothing; otherwise the valid files are appended as pending entries, and the validation error is cleared or becomes the error lines joined by newlines |
| `UploadPhotos.PhotoUpload.RemoveFile` | src/app/upload-photos/page.tsx:90-96 | the entry at the index is removed and the others keep their order; an index outside the list removes nothing |
| `UploadPhotos.PhotoUpload.ClearAll` | src/app/upload-photos/page.tsx:98-103 | the files, the validation error and the progress are reset |
| `UploadPhotos.PhotoUpload.UploadEntry` | src/app/upload-photos/page.tsx:117-157 | one pass of the loop: the entry is marked uploading, its form is the payload of its file, and it is then marked done or failed by the outcome |
| `UploadPhotos.PhotoUpload.HandleUploadAll` | src/app/upload-photos/page.tsx:105-164 | with nothing pending nothing happens; otherwise every pending entry is posted once, in list order, and marked uploading then done or failed; the progress ends at pending/pending and uploading ends false |
| `EditPhotos.PageLoaded` | src/app/edit-photos/page.tsx:63-75 | loading a page appends its photos to the flattened list and makes its cursor the next one |
| `EditPhotos.PhotosFromPages` | src/app/edit-photos/page.tsx:72-75 | a photo is in the list exactly when it is on one of the loaded pages |
| `EditPhotos.ToggledMeaning` | src/app/edit-photos/page.tsx:95-102 | toggling flips whether `id` is selected and no other id, and the selection stays free of duplicates |
| `EditPhotos.FilterDistinct` | src/app/edit-photos/page.tsx:98 | deleting from a duplicate-free selection leaves it duplicate-free |
| `EditPhotos.ToggleTwice` | src/app/edit-photos/page.tsx:95-102 | toggling the same id twice restores the selected ids, and the very same insertion order when the id was not selected |
| `EditPhotos.NormalisedInput` | src/app/edit-photos/page.tsx:113-114 | the normalised input is empty exactly when the input is blank, and otherwise a non-empty, trimmed, lower-case tag |
| `EditPhotos.SortedAdd` | src/app/edit-photos/page.tsx:116 | sorting a sorted duplicate-free list with a new tag appended gives a sorted duplicate-free list of the old tags and the new one |
| `EditPhotos.TagAdded` | src/app/edit-photos/page.tsx:115-117 | adding a new normalised tag to the tag list keeps it sorted, duplicate-free and normalised |
| `EditPhotos.FilterIncreasing` | src/app/edit-photos/page.tsx:122 | removing tags from a sorted duplicate-free list keeps it sorted and duplicate-free |
| `EditPhotos.ConsIncreasing` | src/app/edit-photos/page.tsx:122 | a tag smaller than every tag of a sorted list can go in front of it |
| `EditPhotos.Strs` | src/app/edit-photos/page.tsx:135 | `JSON.stringify` writes each string of the array as a JSON string, in order |
| `EditPhotos.RequestReadByRoute` | src/app/edit-photos/page.tsx:132-136 | the batch-tag route (src/app/api/photos/batch-tags/route.ts:33-40) reads back exactly the tags the page sends, and of the ids the ones that are not blank |
| `EditPhotos.StringsOfStrs` | src/app/edit-photos/page.tsx:135 | round trip: the route reads every string the page wrote into an array |
| `EditPhotos.NormalisedTagsKept` | src/app/edit-photos/page.tsx:113-116 | the route's trimming and lower-casing leave tags the page has already normalised unchanged |
| `EditPhotos.LowerIdentity` | src/app/edit-photos/page.tsx:113 | lower-casing text that is already lower-case changes nothing |
| `EditPhotos.Editor.constructor` | src/app/edit-photos/page.tsx:42-46 | the editor starts with nothing selected, an empty input, no tags, not saving, no message and no pages |
| `EditPhotos.Editor.ReceivePage` | src/app/edit-photos/page.tsx:63-75 | a delivered page is appended, its photos join the list and its cursor becomes the next one; nothing else changes |
| `EditPhotos.Editor.ToggleSelect` | src/app/edit-photos/page.tsx:95-102 | the selection is the old one with `id` toggled; nothing else changes |
| `EditPhotos.Editor.SelectAll` | src/app/edit-photos/page.tsx:104-106 | the selected ids are exactly the ids of the loaded photos, each once, in load order |
| `EditPhotos.Editor.DeselectAll` | src/app/edit-photos/page.tsx:108-110 | the selection is emptied and nothing else changes |
| `EditPhotos.Editor.SetTagInput` | src/app/edit-photos/page.tsx:43 | the input holds the typed text and nothing else changes |
| `EditPhotos.Editor.AddTagFromInput` | src/app/edit-photos/page.tsx:112-119 | a blank input changes nothing; otherwise the input is cleared and the tags become the old ones plus the normalised input, still sorted without duplicates; a tag already present leaves the list as it was |
| `EditPhotos.Editor.RemoveTag` | src/app/edit-photos/page.tsx:121-123 | exactly that tag leaves the list, which stays sorted |
| `EditPhotos.Editor.ApplyTags` | src/app/edit-photos/page.tsx:125-157 | with nothing selected or no tag nothing is sent and nothing changes; otherwise `{ids, tagsToAdd}` is posted, the message is the success text with the count, the route's error or "Failed to update tags", or the exception's message, saving ends, and only success clears the selection and the tags |
| `Scan.Lazy` | src/app/api/goodreads/route.ts:68-71 | a match of `open([\s\S]*?)close` starts at or after `lastIndex`, its capture follows the opener, and the next search starts after the closer |
| `Scan.LazyLeftmost` | src/app/api/goodreads/route.ts:68-71 | the match starts at the leftmost opener that some closer follows, the capture stops at the first closer, and there is no match only when there is no such opener |
| `Scan.CdataField` | src/app/api/goodreads/route.ts:75-93 | a captured field never contains the closing tag |
| `Scan.CdataFieldMeaning` | src/app/api/goodreads/route.ts:75-93 | a field is missing exactly when no `<tag>` is followed by `</tag>` |
| `Scan.CdataFieldOfWrapped` | src/app/api/goodreads/route.ts:75-78 | round trip: a field written as `<tag><![CDATA[x]]></tag>` reads back as `x` |
| `Scan.CdataFieldOfBare` | src/app/api/goodreads/route.ts:91-93 | round trip: a field written as `<tag>x</tag>` without CDATA reads back as `x` |
| `Scan.LineField` | src/app/api/letterboxd/route.ts:71-83 | a field matched with `(.*?)` holds no line terminator |
| `Scan.LineFieldMeaning` | src/app/api/letterboxd/route.ts:71-83 | a field is missing exactly when no `<tag>` is followed on the same line by `</tag>` |
| `Scan.LineFieldOfBare` | src/app/api/letterboxd/route.ts:71-83 | round trip: a one-line field written as `<tag>x</tag>` reads back as `x` |
| `Scan.LineFieldRejectsLineBreak` | src/app/api/letterboxd/route.ts:71-83 | a field whose text has a line break is not found, since `.` does not match it |
| `Sorting.Sort` | src/app/api/goodreads/route.ts:41-46 | sorting is a permutation |
| `Sorting.SortSorted` | src/lib/blog.ts:34 | for a consistent comparator, no element is put after one it should go before |
| `Sorting.SortStable` | src/app/api/goodreads/route.ts:41-46 | the sort is stable: the elements that pass any test keep their relative order |
| `Sorting.SortDistinct` | src/app/api/photos/tags/route.ts:37-41 | sorting distinct elements keeps them distinct |
| `Sorting.LessStrictWeak` | src/app/api/photos/tags/route.ts:41 | the default string order of `sort()` is a strict weak order |
| `Sorting.SortedSet` | src/app/api/photos/tags/route.ts:37-41 | `[...new Set(xs)].sort()` is strictly increasing and holds exactly the elements of `xs` |
| `Sorting.IncreasingUnique` | src/app/api/photos/batch-tags/route.ts:71 | two strictly increasing lists with the same elements are equal, so a sorted set is determined by its members |
| `Sorting.SortedSetOfIncreasing` | src/app/api/photos/batch-tags/route.ts:71 | `[...new Set(xs)].sort()` of an already increasing list is that list |
| `Text.TrimMeaning` | src/app/api/photos/batch-tags/route.ts:34 | `trim` keeps the slice between the leading and the trailing white space |
| `Text.TrimIdempotent` | src/app/api/photos/batch-tags/route.ts:39 | trimming twice is trimming once |
| `Text.TrimEmptyIffBlank` | src/app/api/photos/batch-tags/route.ts:34 | the trimmed text is empty exactly when the text is all white space |
| `Text.JoinSplit` | src/app/api/photo-access/route.ts:40-43 | round trip: joining the comma-separated parts gives the text back |
| `Text.SplitAppend` | src/app/api/photo-access/route.ts:79 | splitting `a + sep + b` splits `a` and `b` each on its own |
| `Text.TrimPadded` | src/components/markdown-renderer.tsx:10 | `trim` of a text without space at its ends, padded with white space, gives that text |
| `Text.SplitJoin` | src/app/api/photo-access/route.ts:43-53 | round trip: splitting pieces without commas, once joined, gives the pieces back |
| `Text.ToLowerIsLower` | src/app/api/photos/batch-tags/route.ts:39 | lower-cased text is lower-case |
| `Text.Units` | src/lib/blog.ts:34 | a character is one UTF-16 code unit below `0x10000`, otherwise a high surrogate followed by a low one |
| `Text.Utf16Injective` | src/lib/blog.ts:34 | different strings have different UTF-16 code units |
| `Text.AstralBeforeHighBmp` | src/lib/blog.ts:34 | `<` compares code units: an emoji, whose first unit is a surrogate, sorts before `U+FF66` |
| `Text.LessIrreflexive` | src/lib/blog.ts:34 | no string is `<` itself |
| `Text.LessTransitive` | src/lib/blog.ts:34 | the string `<` is transitive |
| `Text.LessTrichotomy` | src/lib/blog.ts:34 | of two different strings exactly one is `<` the other |
| `Collections.FilterMembers` | src/app/api/photos/batch-tags/route.ts:33-35 | `filter` keeps exactly the elements that pass the test |
| `Collections.FilterConcat` | src/app/api/photos/batch-tags/route.ts:33-35 | filtering an appended list is appending the filtered lists |
| `Collections.Dedup` | src/app/api/photo-access/route.ts:40 | `Array.from(new Set(s))` is duplicate-free and holds exactly the elements of `s` |
| `Collections.DedupOfDistinct` | src/app/api/photo-access/route.ts:40 | a duplicate-free list is its own set |
| `Collections.DedupAppend` | src/app/api/photo-access/route.ts:41 | `add` appends an element that is new and leaves the set as it is otherwise |
| `Collections.Flatten` | src/app/api/photos/tags/route.ts:39 | an element of `flatMap`'s result comes from one of the lists |
| `Collections.FlattenAppend` | src/app/edit-photos/page.tsx:73 | flattening one more list appends it |
| `Collections.Prefix` | src/app/api/goodreads/route.ts:47 | `slice(0, k)` is a prefix of `min(k, n)` elements, or of `n + k` for a negative `k` |

## Left out

- Network, file system, storage, database and authentication calls are not run. Their results are inputs: fetch replies, directory listings (which may fail) and file reads, query rows, write rejections, the session and the user. Request headers such as `User-Agent`, `Authorization` and `next.revalidate` are not modelled.
- `JSON.parse`, the gray-matter front-matter parser and `Date` parsing are partial functions given as parameters. Their own behaviour is not modelled.
- The scanners implement only the regular expressions the routes use, each by its own function. There is no general regular-expression engine.
- Numbers are exact decimals, not IEEE doubles. A finite `parseInt`/`parseFloat`/`Number` result is `mantissa × 10^exponent`. The range of a double is modelled: overflow to an infinity and underflow to zero. Rounding to the nearest double inside that range is not, and negative zero is the same value as zero.
- `Letterboxd.MemberRating`: the longest string is taken as V8's limit of 2^29 − 24 code units. Other engines have other limits.
- `UploadRoute.Backend.Post`: the `photo` of the 200 answer is the record the route inserts. The database answers `insert().select().single()` with the stored row, which may add columns the insert does not set, such as an id; the model does not have them.
- `BatchTags.PhotoTable.Post` requires that the fetched rows are what `select("id, tags").in("id", ids)` returns from the table (`BatchTags.Selected`). The query's order is left to the database.
- `UploadPhotos.TenthsNearest`: `toFixed(1)` is modelled as the nearest tenth with ties rounding up, on exact arithmetic. It leaves out the double-precision rounding of `size / 1048576` and the exponent form `toFixed` uses at and above 10^21.
- Case conversion (`toLowerCase`, `toUpperCase`) covers ASCII letters only. Code units outside `A`–`Z` and `a`–`z` are left as they are.
- The upload limits `ALLOWED_FILE_TYPES` and `MAX_FILE_SIZE` come from `src/lib/upload`, which is not part of this model. They are parameters. The route's size message gives the limit as 10MB.
- React rendering, effects and re-renders are left out, as is any interleaving of asynchronous handlers. Each page handler is one sequential transition on the page state. `handleUploadAll` and `applyTags` run with the outcome of their requests given up front.
- Preview object URLs in the upload queue (`URL.createObjectURL` and `revokeObjectURL`) and the file input reset have no effect on the modelled state, so they are left out.
- From the batch tag editor:
  - the `/api/me` admin check is left out, along with its loading screen;
  - the `IntersectionObserver` that calls `handleLoadMore` is left out;
  - the React Query cache invalidation after `applyTags` is left out;
  - the URL built in `fetchPhotos` is left out.

  A loaded page is delivered to `EditPhotos.Editor.ReceivePage`.
- `EditPhotos.SaveMessage` takes `${data.updated}` as the text the template prints. It does not convert a number to text.
- A thrown value that is not an `Error` is left out. The page handlers' `catch` fallbacks for it ("Upload failed", "Failed to update tags.") are therefore not reachable in the model. The `result.error || "Upload failed"` fallback for a refused upload is modelled (`UploadPhotos.Finished`). Every exception carries a message.
- The middleware's `matcher` configuration is left out. The model applies the `startsWith("/upload-photos")` test to every path.
- `console.error` logging is left out.
- `Goodreads.SortedByReadDate` requires that every non-empty `readAt` parses to a date. A date that does not parse gives `NaN` in the comparator, so the comparator is inconsistent. JavaScript's `sort` leaves the outcome of such a comparator to the engine, and the model keeps only the permutation property (`Goodreads.SortByReadDate`) for such input.
- `Array.prototype.sort` is modelled as a stable insertion sort. The engine's own sort is not modelled. The two agree whenever the comparator is consistent.
- Blog posts whose dates are equal have no order defined by the comparator, because it never returns 0. The model keeps them in listing order.
