/**
 * The photo-access route: a password unlocks the `friends` or `family`
 * level, and the levels a visitor holds are kept as a comma-separated
 * cookie. The request body, the configured passwords and the existing
 * cookie are inputs; the cookie the route sets is an output.
 */
module PhotoAccess {
  import opened Wrappers
  import Text
  import opened Collections
  import Http
  import opened Json

  const CookieName := "photo_access"
  /** 30 days, in seconds. */
  const CookieMaxAge := 60 * 60 * 24 * 30

  const InvalidRequest := "Invalid request"
  const PasswordRequired := "Password is required"
  const IncorrectPassword := "Incorrect password"

  datatype Level = Friends | Family

  function LevelName(l: Level): string {
    match l
    case Friends => "friends"
    case Family => "family"
  }

  /** The cookie the route writes. */
  datatype Cookie = Cookie(name: string, value: string, httpOnly: bool, secure: bool,
                           sameSite: string, path: string, maxAge: int)

  function AccessCookie(value: string, nodeEnv: Option<string>, maxAge: int): Cookie {
    Cookie(CookieName, value, true, nodeEnv == Some("production"), "lax", "/", maxAge)
  }

  datatype Body =
    | Granted(level: Level, levels: seq<string>)
    | Refused(error: string)
    | Cleared(success: bool)
    | Held(levels: seq<string>)

  /** The password check: the friends password first, then the family one;
   *  a password that is unset or empty matches nothing. */
  function MatchLevel(password: string, friends: Option<string>, family: Option<string>): Option<Level> {
    if Http.Truthy(friends) && password == friends.value then Some(Friends)
    else if Http.Truthy(family) && password == family.value then Some(Family)
    else None
  }

  lemma MatchLevelMeaning(password: string, friends: Option<string>, family: Option<string>)
    ensures MatchLevel(password, friends, family) == Some(Friends) <==>
              password != "" && friends == Some(password)
    ensures MatchLevel(password, friends, family) == Some(Family) <==>
              password != "" && family == Some(password) && friends != Some(password)
    ensures password == "" ==> MatchLevel(password, friends, family).None?
  {
  }

  predicate NonEmpty(s: string) { s != "" }

  /** `existing.split(",").filter(Boolean)`: the non-empty entries. */
  function Entries(existing: string): (r: seq<string>)
    ensures forall i :: 0 <= i < |r| ==> r[i] != "" && ',' !in r[i]
    ensures forall x :: x in r <==> x != "" && x in Text.Split(existing, ',')
  {
    var r := Filter(Text.Split(existing, ','), NonEmpty);
    FilterMembers(Text.Split(existing, ','), NonEmpty);
    assert forall i :: 0 <= i < |r| ==> r[i] in Text.Split(existing, ',');
    r
  }

  /** Joining non-empty, comma-free entries with commas and reading them
   *  back gives every entry again, repeats and order included. */
  lemma EntriesOfJoin(p: seq<string>)
    requires forall i :: 0 <= i < |p| ==> p[i] != "" && ',' !in p[i]
    ensures Entries(Text.Join(p, ',')) == p
  {
    if p == [] {
      assert Text.Split("", ',') == [""];
    } else {
      Text.SplitJoin(p, ',');
      FilterAll(p, NonEmpty);
    }
  }

  /** The entries of two texts joined by a comma are the entries of the
   *  first followed by those of the second. */
  lemma EntriesAppend(a: string, b: string)
    ensures Entries(a + "," + b) == Entries(a) + Entries(b)
  {
    Text.SplitAppend(a, b, ',');
    assert a + "," + b == a + [','] + b;
    FilterConcat(Text.Split(a, ','), Text.Split(b, ','), NonEmpty);
  }

  /** `new Set(entries)` followed by `add(level)`, as the array
   *  `Array.from` gives. */
  function MergedLevels(existing: string, level: Level): (r: seq<string>)
    ensures Distinct(r) && LevelName(level) in r
    ensures forall x :: x in r <==> x in Entries(existing) || x == LevelName(level)
    ensures forall i :: 0 <= i < |r| ==> r[i] != "" && ',' !in r[i]
  {
    var d := Dedup(Entries(existing));
    var r := if LevelName(level) in d then d else d + [LevelName(level)];
    assert forall i :: 0 <= i < |d| ==> d[i] in Entries(existing);
    r
  }

  /** The merged levels are the `Set` of the old entries plus the level. */
  lemma MergedIsSetOfAll(existing: string, level: Level)
    ensures MergedLevels(existing, level) == Dedup(Entries(existing) + [LevelName(level)])
  {
    DedupAppend(Entries(existing), LevelName(level));
  }

  /** `POST`: the body as `request.json()` parsed it (`None` when it threw),
   *  the two configured passwords, the existing cookie and `NODE_ENV`. */
  function Post(body: Option<Json>, friends: Option<string>, family: Option<string>,
                existing: Option<string>, nodeEnv: Option<string>): (r: (Http.Response<Body>, Option<Cookie>))
    ensures body.None? || body == Some(JNull) ==> r == (Http.Response(400, Refused(InvalidRequest), None), None)
    ensures r.1.Some? <==> r.0.status == 200
    ensures r.0.status == 200 ==>
              var password := Member(body, "password");
              && password.Some? && password.value.JStr?
              && MatchLevel(password.value.s, friends, family).Some?
              && var level := MatchLevel(password.value.s, friends, family).value;
                 var levels := MergedLevels(existing.GetOr(""), level);
                 && r.0.body == Granted(level, levels)
                 && r.1 == Some(AccessCookie(Text.Join(levels, ','), nodeEnv, CookieMaxAge))
  {
    if body.None? || body.value == JNull then (Http.Response(400, Refused(InvalidRequest), None), None)
    else
      var password := Member(body, "password");
      if password.None? || !password.value.JStr? || password.value.s == "" then
        (Http.Response(400, Refused(PasswordRequired), None), None)
      else
        match MatchLevel(password.value.s, friends, family)
        case None => (Http.Response(401, Refused(IncorrectPassword), None), None)
        case Some(level) =>
          var levels := MergedLevels(existing.GetOr(""), level);
          (Http.Response(200, Granted(level, levels), None),
           Some(AccessCookie(Text.Join(levels, ','), nodeEnv, CookieMaxAge)))
  }

  /** The refusals: a password that is missing, not a string or empty, and
   *  a password that matches neither level. */
  lemma PostRefusals(body: Option<Json>, friends: Option<string>, family: Option<string>,
                     existing: Option<string>, nodeEnv: Option<string>)
    requires body.Some? && body.value != JNull
    ensures var password := Member(body, "password");
            !(password.Some? && password.value.JStr? && password.value.s != "") ==>
              Post(body, friends, family, existing, nodeEnv) == (Http.Response(400, Refused(PasswordRequired), None), None)
    ensures var password := Member(body, "password");
            password.Some? && password.value.JStr? && password.value.s != ""
            && MatchLevel(password.value.s, friends, family).None? ==>
              Post(body, friends, family, existing, nodeEnv) == (Http.Response(401, Refused(IncorrectPassword), None), None)
  {
  }

  /** The levels the response lists are the cookie value read back. */
  lemma LevelsAreCookie(existing: string, level: Level)
    ensures Text.Split(Text.Join(MergedLevels(existing, level), ','), ',') == MergedLevels(existing, level)
  {
    Text.SplitJoin(MergedLevels(existing, level), ',');
  }

  /** Idempotence: granting the same level again leaves the cookie as it is. */
  lemma MergeIdempotent(existing: string, level: Level)
    ensures var once := MergedLevels(existing, level);
            MergedLevels(Text.Join(once, ','), level) == once
  {
    var once := MergedLevels(existing, level);
    var value := Text.Join(once, ',');
    LevelsAreCookie(existing, level);
    FilterAll(once, NonEmpty);
    assert Entries(value) == once;
    DedupOfDistinct(once);
  }

  /** Granting a level keeps every level already held. */
  lemma MergeKeepsLevels(existing: string, level: Level)
    ensures forall x :: x in Entries(existing) ==> x in MergedLevels(existing, level)
  {
  }

  /** `DELETE`: the cookie is emptied and expires at once. */
  function Delete(nodeEnv: Option<string>): (r: (Http.Response<Body>, Cookie))
    ensures r.0.status == 200 && r.0.body == Cleared(true)
    ensures r.1.name == CookieName && r.1.value == "" && r.1.maxAge == 0
  {
    (Http.Response(200, Cleared(true), None), AccessCookie("", nodeEnv, 0))
  }

  /** `GET`: the non-empty entries of the cookie, duplicates included. */
  function Get(existing: Option<string>): (r: Http.Response<Body>)
    ensures r.status == 200 && r.body.Held?
    ensures forall x :: x in r.body.levels <==> x != "" && x in Text.Split(existing.GetOr(""), ',')
    ensures r.body.levels == Entries(existing.GetOr(""))
  {
    Http.Response(200, Held(Entries(existing.GetOr(""))), None)
  }

  /** `GET` keeps a repeated level and skips the empty entry between:
   *  `x,,x` lists `x` twice. */
  lemma GetKeepsRepeats(x: string)
    requires x != "" && ',' !in x
    ensures Get(Some(x + ",," + x)).body.levels == [x, x]
  {
    var tail := "" + "," + x;
    assert x + ",," + x == x + "," + tail;
    EntriesAppend("", x);
    EntriesAppend(x, tail);
    EntriesOfJoin([]);
    EntriesOfJoin([x]);
  }

  /** `friends,,friends` lists `friends` twice. */
  lemma GetFriendsTwice()
    ensures Get(Some("friends,,friends")).body.levels == ["friends", "friends"]
  {
    assert "friends,,friends" == "friends" + ",," + "friends";
    GetKeepsRepeats("friends");
  }

  /** What `GET` reports after a grant is what the grant answered. */
  lemma GetAfterPost(body: Option<Json>, friends: Option<string>, family: Option<string>,
                     existing: Option<string>, nodeEnv: Option<string>)
    requires Post(body, friends, family, existing, nodeEnv).0.status == 200
    ensures var r := Post(body, friends, family, existing, nodeEnv);
            Get(Some(r.1.value.value)).body.levels == r.0.body.levels
  {
    var r := Post(body, friends, family, existing, nodeEnv);
    var levels := r.0.body.levels;
    var level := r.0.body.level;
    LevelsAreCookie(existing.GetOr(""), level);
    FilterAll(levels, NonEmpty);
  }
}
