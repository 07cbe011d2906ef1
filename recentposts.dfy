/** The `/api/recent-posts` route: the blog's posts without their bodies,
 *  optionally cut to the first `limit`. */
module RecentPosts {
  import opened Wrappers
  import opened Collections
  import JsNumber
  import Http
  import Blog
  import Text

  /** The fields the route keeps: `content` is dropped. */
  datatype Summary = Summary(slug: string, title: string, date: string, excerpt: Option<string>)

  function Summarise(p: Blog.Post): Summary {
    Summary(p.slug, p.title, p.date, p.excerpt)
  }

  /** `posts.slice(0, limit)` for a `limit` that is a positive number:
   *  JavaScript truncates it, and an infinite one keeps everything. */
  function SliceTo(posts: seq<Blog.Post>, limit: JsNumber.Num): seq<Blog.Post>
    requires JsNumber.IsPositive(limit)
  {
    match limit
    case Infinity(_) => posts
    case Finite(m, e) => Prefix(posts, JsNumber.Floor(m, e))
  }

  /** The conditional `posts = posts.slice(0, limit)`. */
  function Limited(posts: seq<Blog.Post>, limitParam: Option<string>): seq<Blog.Post> {
    if Http.Truthy(limitParam) && JsNumber.IsPositive(JsNumber.ToNumber(limitParam.value))
    then SliceTo(posts, JsNumber.ToNumber(limitParam.value))
    else posts
  }

  /** The summaries of the kept posts, in order. */
  function Listing(posts: seq<Blog.Post>, limitParam: Option<string>): (r: seq<Summary>)
    ensures var kept := Limited(posts, limitParam);
            |r| == |kept| && forall i :: 0 <= i < |r| ==> r[i] == Summarise(kept[i])
  {
    Map(Limited(posts, limitParam), Summarise)
  }

  /** The JSON body: the summaries, or the framework's own error page for
   *  the throw of `getAllBlogPosts`, which the route does not catch. */
  datatype Body = Summaries(summaries: seq<Summary>) | Unhandled

  /** `GET`: `listing` is what listing the posts directory gives, `None`
   *  when that throws, and `read` what reading and parsing each file
   *  gives. */
  function Get(listing: Option<seq<string>>, read: string -> Option<Blog.Matter>, limitParam: Option<string>)
    : (r: Http.Response<Body>)
    ensures Blog.AllBlogPosts(listing, read).None? ==> r == Http.Response(500, Unhandled, None)
    ensures Blog.AllBlogPosts(listing, read).Some? ==>
              r == Http.Response(200, Summaries(Listing(Blog.AllBlogPosts(listing, read).value, limitParam)), None)
  {
    match Blog.AllBlogPosts(listing, read)
    case None => Http.Response(500, Unhandled, None)
    case Some(posts) => Http.Response(200, Summaries(Listing(posts, limitParam)), None)
  }

  /** The kept posts are a prefix of the posts. */
  lemma LimitedIsPrefix(posts: seq<Blog.Post>, limitParam: Option<string>)
    ensures Limited(posts, limitParam) <= posts
  {
  }

  /** The route fails exactly when the posts directory cannot be listed or
   *  a Markdown file in it cannot be read; otherwise its summaries are of
   *  Markdown files in the listing, newest first. */
  lemma GetMeaning(listing: Option<seq<string>>, read: string -> Option<Blog.Matter>, limitParam: Option<string>)
    ensures listing.None? ==> Get(listing, read, limitParam).status == 500
    ensures listing.Some? ==>
              var md := Filter(listing.value, Blog.IsMarkdown);
              Get(listing, read, limitParam).status == 500 <==> exists i :: 0 <= i < |md| && read(md[i]).None?
    ensures var r := Get(listing, read, limitParam);
            r.status == 200 ==>
              && r.body.Summaries? && listing.Some?
              && (forall i, j :: 0 <= i < j < |r.body.summaries| ==>
                    !Text.Less(r.body.summaries[i].date, r.body.summaries[j].date))
              && (forall i :: 0 <= i < |r.body.summaries| ==> r.body.summaries[i].slug + Blog.Extension in listing.value)
  {
    Blog.AllBlogPostsMeaning(listing, read);
    var all := Blog.AllBlogPosts(listing, read);
    if all.Some? {
      var posts := all.value;
      var kept := Limited(posts, limitParam);
      LimitedIsPrefix(posts, limitParam);
      var s := Listing(posts, limitParam);
      forall i | 0 <= i < |s| ensures s[i] == Summarise(posts[i]) && posts[i] in posts {
        assert kept[i] == posts[i];
      }
    }
  }

  /** An absent or empty limit, or one that is not a positive number (NaN,
   *  zero, negative), keeps every post. */
  lemma LimitIgnored(posts: seq<Blog.Post>, limitParam: Option<string>)
    requires !Http.Truthy(limitParam) || !JsNumber.IsPositive(JsNumber.ToNumber(limitParam.value))
    ensures |Listing(posts, limitParam)| == |posts|
    ensures forall i :: 0 <= i < |posts| ==> Listing(posts, limitParam)[i] == Summarise(posts[i])
  {
  }

  /** A positive limit keeps the first `floor(limit)` posts in order. */
  lemma LimitApplied(posts: seq<Blog.Post>, limitParam: string, m: nat, e: int)
    requires limitParam != [] && JsNumber.ToNumber(limitParam) == JsNumber.Finite(m, e) && m > 0
    ensures var r := Listing(posts, Some(limitParam));
            |r| == Min(JsNumber.Floor(m, e), |posts|)
            && forall i :: 0 <= i < |r| ==> r[i] == Summarise(posts[i])
  {
  }

  /** `?limit=2` keeps two posts, `?limit=0` and `?limit=invalid` keep all. */
  lemma LimitExamples(posts: seq<Blog.Post>)
    ensures |Listing(posts, Some("2"))| == Min(2, |posts|)
    ensures |Listing(posts, Some("0"))| == |posts|
    ensures |Listing(posts, Some("invalid"))| == |posts|
  {
    LimitTwo(posts);
    LimitZero(posts);
    JsNumber.ToNumberOfWord("invalid");
    LimitIgnored(posts, Some("invalid"));
  }

  lemma LimitTwo(posts: seq<Blog.Post>)
    ensures |Listing(posts, Some("2"))| == Min(2, |posts|)
  {
    JsNumber.ToNumberOfDigits("2");
    assert JsNumber.DigitsValue("2") == 2 by { assert "2"[..0] == ""; }
    LimitApplied(posts, "2", 2, 0);
  }

  lemma LimitZero(posts: seq<Blog.Post>)
    ensures |Listing(posts, Some("0"))| == |posts|
  {
    JsNumber.ToNumberOfDigits("0");
    assert JsNumber.DigitsValue("0") == 0 by { assert "0"[..0] == ""; }
    LimitIgnored(posts, Some("0"));
  }
}
