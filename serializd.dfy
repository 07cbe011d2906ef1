/**
 * The Serializd profile summary: the profile page embeds its data as JSON in
 * a `__NEXT_DATA__` script tag; the route reads two counts from it and
 * derives the profile's links from the username alone.
 */
module Serializd {
  import opened Wrappers
  import Text
  import Scan
  import Http
  import opened Json

  const Base := "https://www.serializd.com"
  const DefaultUsername := "baguirre"
  const LoadFailed := "Failed to load Serializd"
  const ScriptOpen := "<script id=\"__NEXT_DATA__\" type=\"application/json\">"
  const ScriptClose := "</script>"

  /** Where the counts live: `props.pageProps.data.details`. */
  const DetailsPath := ["props", "pageProps", "data", "details"]
  const WatchedKey := "showWatchedCount"
  const ReviewKey := "reviewCount"

  /** `process.env.SERIALIZD_USERNAME ?? "baguirre"`: `None` is an unset
   *  variable; a variable set to `""` is kept. */
  function Username(env: Option<string>): string {
    env.GetOr(DefaultUsername)
  }

  function ProfileUrl(username: string): string { Base + "/user/" + username }

  function ReviewsUrl(username: string): string { ProfileUrl(username) + "/reviews" }

  function WatchedUrl(username: string): string { ProfileUrl(username) + "/shows" }

  /** `parseNextData`: `None` stands for the `null` it returns when there is
   *  no such script tag or `parse` (the model of `JSON.parse`) rejects the
   *  trimmed contents. */
  function ParseNextData(html: string, parse: string -> Option<Json>): (r: Option<Json>)
    ensures (forall p: nat :: !Scan.LazyCandidate(html, ScriptOpen, ScriptClose, p)) ==> r.None?
  {
    Scan.LazyLeftmost(html, ScriptOpen, ScriptClose, 0);
    match Scan.Lazy(html, ScriptOpen, ScriptClose, 0)
    case None => None
    case Some(m) => parse(Text.Trim(html[m.start..m.end]))
  }

  /** Round trip: a page whose first `__NEXT_DATA__` tag holds `body` (text
   *  without `<`) gives what `JSON.parse` makes of the trimmed body. */
  lemma NextDataOfPage(pre: string, body: string, post: string, parse: string -> Option<Json>)
    requires forall i :: 0 <= i < |body| ==> body[i] != '<'
    requires forall p: nat :: p < |pre| ==> !Scan.OccursAt(pre + ScriptOpen + body + ScriptClose + post, ScriptOpen, p)
    ensures ParseNextData(pre + ScriptOpen + body + ScriptClose + post, parse) == parse(Text.Trim(body))
  {
    PageLayout(pre, body, post);
    NextDataAt(pre + ScriptOpen + body + ScriptClose + post, parse, |pre|, body);
  }

  /** The first script tag is at `p` and holds `body`. */
  lemma NextDataAt(html: string, parse: string -> Option<Json>, p: nat, body: string)
    requires forall i :: 0 <= i < |body| ==> body[i] != '<'
    requires Scan.OccursAt(html, ScriptOpen, p) && forall i: nat :: i < p ==> !Scan.OccursAt(html, ScriptOpen, i)
    requires Scan.OccursAt(html, body, p + |ScriptOpen|)
    requires Scan.OccursAt(html, ScriptClose, p + |ScriptOpen| + |body|)
    ensures ParseNextData(html, parse) == parse(Text.Trim(body))
  {
    var q := p + |ScriptOpen|;
    Scan.NoOccurrenceInside(html, body, q, ScriptClose);
    Scan.LazyAt(html, ScriptOpen, ScriptClose, 0, p, q + |body|);
    NextDataOfMatch(html, parse, Scan.Match(p, q, q + |body|, q + |body| + |ScriptClose|), body);
  }

  /** Where the parts of such a page stand. */
  lemma PageLayout(pre: string, body: string, post: string)
    ensures var s := pre + ScriptOpen + body + ScriptClose + post;
            Scan.OccursAt(s, ScriptOpen, |pre|)
            && Scan.OccursAt(s, body, |pre| + |ScriptOpen|)
            && Scan.OccursAt(s, ScriptClose, |pre| + |ScriptOpen| + |body|)
  {
    var s := pre + ScriptOpen + body + ScriptClose + post;
    Scan.OccursBefore2(pre, ScriptOpen, body, ScriptClose);
    Scan.OccursAtExtend(pre + ScriptOpen + body + ScriptClose, post, ScriptOpen, |pre|);
    Scan.OccursBefore2(pre + ScriptOpen, body, ScriptClose, post);
    Scan.OccursBefore2(pre + ScriptOpen + body, ScriptClose, post, "");
    assert s + "" == s;
  }

  /** The script tag found holds `body`. */
  lemma NextDataOfMatch(html: string, parse: string -> Option<Json>, m: Scan.Match, body: string)
    requires Scan.Lazy(html, ScriptOpen, ScriptClose, 0) == Some(m)
    requires m.end == m.start + |body| && Scan.OccursAt(html, body, m.start)
    ensures ParseNextData(html, parse) == parse(Text.Trim(body))
  {
    Scan.OccursAtSlice(html, body, m.start);
  }

  /** `nextData?.props?.pageProps?.data?.details ?? {}`. */
  function Details(nextData: Option<Json>): Json {
    OrElse(Path(nextData, DetailsPath), JObj(map[]))
  }

  /** `details[key] ?? null`. */
  function Count(nextData: Option<Json>, key: string): Json {
    OrElse(Member(Some(Details(nextData)), key), JNull)
  }

  /** A count is the value under `props.pageProps.data.details.<key>` when
   *  that whole chain is defined and not `null` (so a `0` is kept), and
   *  `null` otherwise. */
  lemma CountMeaning(nextData: Option<Json>, key: string)
    ensures Count(nextData, key) == OrElse(Path(nextData, DetailsPath + [key]), JNull)
  {
    PathAppend(nextData, DetailsPath, [key]);
    assert Path(Path(nextData, DetailsPath), [key]) == Member(Path(nextData, DetailsPath), key);
  }

  /** The JSON body: the profile summary, or an error with every link and
   *  count `null`. */
  datatype Body =
    | Profile(profileUrl: string, reviewsUrl: string, watchedUrl: string, username: string,
              showWatchedCount: Json, reviewCount: Json)
    | Unavailable(error: string)

  /** `GET`: the environment's username, what fetching the shows page gave,
   *  and `JSON.parse`; gives the URL fetched and the response. */
  function Get(env: Option<string>, page: Http.Fetched, parse: string -> Option<Json>): (r: (string, Http.Response<Body>))
    ensures r.0 == Base + "/user/" + Username(env) + "/shows"
    ensures !page.Ok() ==> r.1 == Http.Response(500, Unavailable(LoadFailed), None)
    ensures page.Ok() ==>
              var u := Username(env);
              var nextData := ParseNextData(page.body, parse);
              r.1.status == 200 && r.1.cacheControl == Some(Http.FeedCache)
              && r.1.body == Profile(Base + "/user/" + u, Base + "/user/" + u + "/reviews",
                                     Base + "/user/" + u + "/shows", u,
                                     OrElse(Path(nextData, DetailsPath + [WatchedKey]), JNull),
                                     OrElse(Path(nextData, DetailsPath + [ReviewKey]), JNull))
  {
    var u := Username(env);
    if !page.Ok() then (WatchedUrl(u), Http.Response(500, Unavailable(LoadFailed), None))
    else
      var nextData := ParseNextData(page.body, parse);
      CountMeaning(nextData, WatchedKey);
      CountMeaning(nextData, ReviewKey);
      (WatchedUrl(u), Http.Response(200, Profile(ProfileUrl(u), ReviewsUrl(u), WatchedUrl(u), u,
                                                 Count(nextData, WatchedKey), Count(nextData, ReviewKey)),
                                    Some(Http.FeedCache)))
  }

  /** The links depend on the username only, never on the page. */
  lemma LinksIgnorePage(env: Option<string>, a: Http.Fetched, b: Http.Fetched,
                        parseA: string -> Option<Json>, parseB: string -> Option<Json>)
    requires a.Ok() && b.Ok()
    ensures var x := Get(env, a, parseA).1.body;
            var y := Get(env, b, parseB).1.body;
            x.profileUrl == y.profileUrl && x.reviewsUrl == y.reviewsUrl
            && x.watchedUrl == y.watchedUrl && x.username == y.username
  {
  }

  /** The details record of a profile page with the two counts. */
  function DetailsDocument(watched: real, reviews: real): Json {
    Nest(DetailsPath, JObj(map[WatchedKey := JNum(watched), ReviewKey := JNum(reviews)]))
  }

  /** A page whose `__NEXT_DATA__` parses to a document with details
   *  `{showWatchedCount: 42, reviewCount: 10}` reports 42 and 10. */
  lemma CountsOfDocument(html: string, parse: string -> Option<Json>, env: Option<string>)
    requires ParseNextData(html, parse) == Some(DetailsDocument(42.0, 10.0))
    ensures Get(env, Http.Reply(200, html), parse).1.body.showWatchedCount == JNum(42.0)
    ensures Get(env, Http.Reply(200, html), parse).1.body.reviewCount == JNum(10.0)
  {
    var details := JObj(map[WatchedKey := JNum(42.0), ReviewKey := JNum(10.0)]);
    PathOfNest(DetailsPath, details);
    PathAppend(Some(DetailsDocument(42.0, 10.0)), DetailsPath, [WatchedKey]);
    PathAppend(Some(DetailsDocument(42.0, 10.0)), DetailsPath, [ReviewKey]);
  }
}
