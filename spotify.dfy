/**
 * The now-playing route: it trades the refresh token for an access token,
 * asks what is playing and, when nothing is, what played last, and shapes
 * the track it finds into a small payload.
 *
 * The three bodies are read by `res.json()` into the shapes the route
 * declares for them; those reads are parameters that give `None` when
 * reading throws (the body is not JSON, or is `null` where the route reads
 * a property of it).
 */
module Spotify {
  import opened Wrappers
  import Http

  const TokenUrl := "https://accounts.spotify.com/api/token"
  const NowPlayingUrl := "https://api.spotify.com/v1/me/player/currently-playing"
  const RecentlyPlayedUrl := "https://api.spotify.com/v1/me/player/recently-played?limit=1"

  const LiveCache := "public, s-maxage=30, stale-while-revalidate=60"
  const ErrorCache := "public, s-maxage=60"
  const Unavailable := "Spotify not configured or token expired"

  datatype Image = Image(url: Option<string>)
  datatype Album = Album(name: Option<string>, images: Option<seq<Image>>)
  /** A track; each artist is the `name` of an artist object, if it has
   *  one, and `spotifyUrl` is `external_urls?.spotify`. */
  datatype Track = Track(name: Option<string>, artists: Option<seq<Option<string>>>,
                         album: Option<Album>, spotifyUrl: Option<string>)
  datatype NowPlaying = NowPlaying(isPlaying: Option<bool>, item: Option<Track>)
  datatype RecentItem = RecentItem(track: Option<Track>, playedAt: Option<string>)
  datatype Recent = Recent(items: Option<seq<RecentItem>>)

  /** How the route reads each body. */
  datatype Readers = Readers(token: string -> Option<string>,
                             now: string -> Option<NowPlaying>,
                             recent: string -> Option<Recent>)

  /** `Array.prototype.join(", ")`, where `undefined` shows as `""`. */
  function JoinNames(names: seq<Option<string>>): string
    decreases |names|
  {
    if names == [] then ""
    else if |names| == 1 then names[0].GetOr("")
    else JoinNames(names[..|names| - 1]) + ", " + names[|names| - 1].GetOr("")
  }

  lemma JoinNamesExamples()
    ensures JoinNames([Some("Daft Punk")]) == "Daft Punk"
    ensures JoinNames([Some("A"), Some("B")]) == "A, B"
    ensures JoinNames([]) == ""
  {
  }

  /** A joined list is its first `k` names, the separator, and the rest. */
  lemma {:induction false} JoinNamesSplit(names: seq<Option<string>>, k: nat)
    requires 0 < k < |names|
    ensures JoinNames(names) == JoinNames(names[..k]) + ", " + JoinNames(names[k..])
    decreases |names|
  {
    var n := |names|;
    if k < n - 1 {
      JoinNamesSplit(names[..n - 1], k);
      assert names[..n - 1][..k] == names[..k];
      assert names[k..][..|names[k..]| - 1] == names[..n - 1][k..];
    } else {
      assert names[k..] == [names[n - 1]];
    }
  }

  /** The fields a track contributes to the answer. */
  datatype Payload = Payload(title: Option<string>, artist: string, album: string, url: string,
                             imageUrl: Option<string>)

  /** `track.album?.images?.[0]?.url ?? null`. */
  function FirstImage(track: Track): Option<string> {
    if track.album.Some? && track.album.value.images.Some? && |track.album.value.images.value| > 0
    then track.album.value.images.value[0].url
    else None
  }

  /** `trackToPayload`: artist names joined with `", "`, missing album name
   *  and link as `""`, the first album image or `null`. */
  function TrackToPayload(track: Track): (p: Payload)
    ensures p.title == track.name
    ensures track.artists.None? ==> p.artist == ""
    ensures track.artists.Some? ==> p.artist == JoinNames(track.artists.value)
    ensures p.album == (if track.album.Some? then track.album.value.name.GetOr("") else "")
    ensures p.url == track.spotifyUrl.GetOr("")
    ensures p.imageUrl == (if track.album.Some? && track.album.value.images.Some?
                              && |track.album.value.images.value| > 0
                           then track.album.value.images.value[0].url else None)
    ensures p.imageUrl.None? <==> track.album.None? || track.album.value.images.None?
                                  || |track.album.value.images.value| == 0
                                  || track.album.value.images.value[0].url.None?
  {
    Payload(track.name,
            if track.artists.Some? then JoinNames(track.artists.value) else "",
            if track.album.Some? then track.album.value.name.GetOr("") else "",
            track.spotifyUrl.GetOr(""),
            FirstImage(track))
  }

  /** The answer: `track` is `None` when every track field is `null`;
   *  `playedAt` is present only for a recently played track. */
  datatype Body = Body(isPlaying: bool, track: Option<Payload>, playedAt: Option<Option<string>>,
                       error: Option<string>)

  const Idle := Body(false, None, None, None)

  predicate Configured(clientId: Option<string>, clientSecret: Option<string>, refreshToken: Option<string>) {
    Http.Truthy(clientId) && Http.Truthy(clientSecret) && Http.Truthy(refreshToken)
  }

  /** `getAccessToken` succeeds: credentials are set, the exchange answers
   *  with an OK status and a readable body. */
  predicate TokenGranted(clientId: Option<string>, clientSecret: Option<string>, refreshToken: Option<string>,
                         token: Http.Fetched, read: Readers) {
    Configured(clientId, clientSecret, refreshToken) && token.Ok() && read.token(token.body).Some?
  }

  /** `GET`, given the credentials, what each of the three requests would
   *  return, and the readers. The first result is the URLs requested, in
   *  order. */
  function Get(clientId: Option<string>, clientSecret: Option<string>, refreshToken: Option<string>,
               token: Http.Fetched, now: Http.Fetched, recent: Http.Fetched, read: Readers)
    : (r: (seq<string>, Http.Response<Body>))
    ensures r.1.status == 200
    ensures r.1.body.error.Some? <==> r.1.cacheControl == Some(ErrorCache)
    ensures r.1.body.error.Some? ==> r.1.body == Body(false, None, None, Some(Unavailable))
    ensures r.1.body.error.None? ==> r.1.cacheControl == Some(LiveCache)
  {
    var failed := Http.Response(200, Body(false, None, None, Some(Unavailable)), Some(ErrorCache));
    if !Configured(clientId, clientSecret, refreshToken) then ([], failed)
    else if !TokenGranted(clientId, clientSecret, refreshToken, token, read) then ([TokenUrl], failed)
    else if now.Unreachable? then ([TokenUrl, NowPlayingUrl], failed)
    else if now.status == 204 then
      var asked := [TokenUrl, NowPlayingUrl, RecentlyPlayedUrl];
      if recent.Unreachable? then (asked, failed)
      else if !recent.Ok() then (asked, Http.Response(200, Idle, Some(LiveCache)))
      else
        match read.recent(recent.body)
        case None => (asked, failed)
        case Some(rp) =>
          if rp.items.Some? && |rp.items.value| > 0 && rp.items.value[0].track.Some? then
            var item := rp.items.value[0];
            (asked, Http.Response(200, Body(false, Some(TrackToPayload(item.track.value)), Some(item.playedAt), None),
                                  Some(LiveCache)))
          else (asked, Http.Response(200, Idle, Some(LiveCache)))
    else if now.status == 200 then
      match read.now(now.body)
      case None => ([TokenUrl, NowPlayingUrl], failed)
      case Some(np) =>
        if np.item.Some? then
          ([TokenUrl, NowPlayingUrl],
           Http.Response(200, Body(np.isPlaying.GetOr(true), Some(TrackToPayload(np.item.value)), None, None),
                         Some(LiveCache)))
        else ([TokenUrl, NowPlayingUrl], Http.Response(200, Idle, Some(LiveCache)))
    else ([TokenUrl, NowPlayingUrl], Http.Response(200, Idle, Some(LiveCache)))
  }

  /** Missing credentials or a token exchange that fails end on the error
   *  answer before anything else is asked. */
  lemma NoTokenNoLookup(clientId: Option<string>, clientSecret: Option<string>, refreshToken: Option<string>,
                        token: Http.Fetched, now: Http.Fetched, recent: Http.Fetched, read: Readers)
    requires !TokenGranted(clientId, clientSecret, refreshToken, token, read)
    ensures var r := Get(clientId, clientSecret, refreshToken, token, now, recent, read);
            r.1.body.error == Some(Unavailable) && NowPlayingUrl !in r.0
  {
  }

  /** The recently-played list is asked for, once, exactly when the player
   *  answers 204. */
  lemma RecentOnlyAfterNoContent(clientId: Option<string>, clientSecret: Option<string>, refreshToken: Option<string>,
                                 token: Http.Fetched, now: Http.Fetched, recent: Http.Fetched, read: Readers)
    requires TokenGranted(clientId, clientSecret, refreshToken, token, read)
    ensures var r := Get(clientId, clientSecret, refreshToken, token, now, recent, read);
            (RecentlyPlayedUrl in r.0 <==> now.Reply? && now.status == 204)
            && (RecentlyPlayedUrl in r.0 ==> r.0 == [TokenUrl, NowPlayingUrl, RecentlyPlayedUrl])
  {
  }

  /** A track that is playing is reported with `is_playing`, defaulting to
   *  playing; any status other than 200 and 204, or a 200 without a track,
   *  is the idle answer without an error. */
  lemma PlayingDispatch(clientId: Option<string>, clientSecret: Option<string>, refreshToken: Option<string>,
                        token: Http.Fetched, now: Http.Fetched, recent: Http.Fetched, read: Readers)
    requires TokenGranted(clientId, clientSecret, refreshToken, token, read) && now.Reply?
    ensures var r := Get(clientId, clientSecret, refreshToken, token, now, recent, read);
            && (now.status == 200 && read.now(now.body).Some? && read.now(now.body).value.item.Some? ==>
                  var np := read.now(now.body).value;
                  r.1.body == Body(np.isPlaying.GetOr(true), Some(TrackToPayload(np.item.value)), None, None))
            && (now.status == 200 && read.now(now.body).Some? && read.now(now.body).value.item.None? ==> r.1.body == Idle)
            && (now.status != 200 && now.status != 204 ==> r.1.body == Idle)
  {
  }

  /** After a 204, the last played track is reported as not playing, with
   *  the time it was played; without one the answer is idle. */
  lemma RecentDispatch(clientId: Option<string>, clientSecret: Option<string>, refreshToken: Option<string>,
                       token: Http.Fetched, now: Http.Fetched, recent: Http.Fetched, read: Readers)
    requires TokenGranted(clientId, clientSecret, refreshToken, token, read)
    requires now.Reply? && now.status == 204 && recent.Ok() && read.recent(recent.body).Some?
    ensures var r := Get(clientId, clientSecret, refreshToken, token, now, recent, read);
            var items := read.recent(recent.body).value.items;
            if items.Some? && |items.value| > 0 && items.value[0].track.Some? then
              r.1.body == Body(false, Some(TrackToPayload(items.value[0].track.value)),
                               Some(items.value[0].playedAt), None)
            else r.1.body == Idle
  {
  }
}
