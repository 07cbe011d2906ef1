/**
 * The Letterboxd route: the diary's RSS feed is read into movies in feed
 * order, with a star rating drawn from the member rating or, failing
 * that, from the item title, and a poster taken from the description.
 */
module Letterboxd {
  import opened Wrappers
  import opened Text
  import opened Collections
  import JsNumber
  import Scan
  import Feed
  import Http

  datatype Movie = Movie(title: string, year: Option<string>, link: string, watchedDate: Option<string>,
                         rating: Option<string>, imageUrl: Option<string>)

  function Tag(name: string): string { "letterboxd:" + name }

  /** `s.match(/<tag>(.*?)<\/tag>/)`, the capture trimmed. */
  function LineValue(item: string, tag: string): (r: Option<string>)
    ensures r.Some? <==> Scan.LineField(item, tag).Some?
    ensures r.Some? ==> NoSpaceAtEnds(r.value)
  {
    match Scan.LineField(item, tag)
    case None => None
    case Some(v) => Some(Trim(v))
  }

  // ---- The poster: `/<img[^>]+src="([^"]+)"/` on the CDATA description.

  const DescriptionOpen := "<description><![CDATA["
  const DescriptionClose := "]]></description>"
  const ImgOpen := "<img"
  const SrcOpen := "src=\""

  /** The first index from `i` on holding `c`, or `|s|`. */
  function NextChar(s: string, c: char, i: nat): (r: nat)
    ensures i <= r || (r == |s| && |s| < i)
    ensures r <= |s| || r == i
    ensures r < |s| ==> s[r] == c
    ensures forall j :: i <= j < r && j < |s| ==> s[j] != c
    decreases |s| - i
  {
    if i >= |s| then (if i == |s| then i else |s|)
    else if s[i] == c then i
    else NextChar(s, c, i + 1)
  }

  /** `src="([^"]+)"` matches at `k`: after `src="` comes a non-empty run
   *  without `"`, closed by `"`. */
  predicate SrcAt(s: string, k: nat) {
    Scan.OccursAt(s, SrcOpen, k) && k + 5 < NextChar(s, '"', k + 5) < |s|
  }

  /** The greedy `[^>]+` backtracks from its longest extent: the largest
   *  `k` in `[lo, hi]` at which `src="…"` matches. */
  function LastSrc(s: string, lo: nat, hi: nat): (r: Option<nat>)
    ensures r.Some? ==> lo <= r.value <= hi && SrcAt(s, r.value)
    ensures r.Some? ==> forall k: nat :: r.value < k <= hi ==> !SrcAt(s, k)
    ensures r.None? ==> forall k: nat :: lo <= k <= hi ==> !SrcAt(s, k)
    decreases hi
  {
    if hi < lo then None
    else if SrcAt(s, hi) then Some(hi)
    else if hi == 0 then None
    else LastSrc(s, lo, hi - 1)
  }

  /** The search from `from`: the first `<img` at which the rest matches;
   *  the `[^>]+` part covers at least one character and no `>`. */
  function ImgFrom(s: string, from: nat): (r: Option<string>)
    ensures r.Some? ==> r.value != [] && forall j :: 0 <= j < |r.value| ==> r.value[j] != '"'
    decreases |s| - from
  {
    match Scan.IndexOf(s, ImgOpen, from)
    case None => None
    case Some(p) =>
      match LastSrc(s, p + 5, NextChar(s, '>', p + 4))
      case Some(k) => Some(s[k + 5..NextChar(s, '"', k + 5)])
      case None => ImgFrom(s, p + 1)
  }

  function ImgSrc(description: string): (r: Option<string>)
    ensures r.Some? ==> r.value != [] && forall j :: 0 <= j < |r.value| ==> r.value[j] != '"'
  {
    ImgFrom(description, 0)
  }

  /** The description wrapped exactly in CDATA, and the trimmed source of
   *  its image. */
  function ImageUrl(item: string): (r: Option<string>)
    ensures r.Some? ==> NoSpaceAtEnds(r.value)
    ensures Scan.Lazy(item, DescriptionOpen, DescriptionClose, 0).None? ==> r.None?
  {
    match Scan.Lazy(item, DescriptionOpen, DescriptionClose, 0)
    case None => None
    case Some(m) =>
      match ImgSrc(item[m.start..m.end])
      case None => None
      case Some(src) => Some(Trim(src))
  }

  lemma LastSrcIs(s: string, lo: nat, hi: nat, k: nat)
    requires lo <= k <= hi && SrcAt(s, k)
    requires forall j: nat :: k < j <= hi ==> !SrcAt(s, j)
    ensures LastSrc(s, lo, hi) == Some(k)
    decreases hi - k
  {
    if k < hi {
      LastSrcIs(s, lo, hi - 1, k);
    }
  }

  /** Round trip: an image tag `<img src="u">` gives back `u`, for any
   *  non-empty `u` without `"` or `>`. */
  lemma ImgSrcOfTag(u: string)
    requires u != [] && forall j :: 0 <= j < |u| ==> u[j] != '"' && u[j] != '>'
    ensures ImgSrc("<img src=\"" + u + "\">") == Some(u)
  {
    var s := "<img src=\"" + u + "\">";
    var n := |u|;
    assert |s| == n + 12;
    assert s[..4] == ImgOpen;
    Scan.IndexOfIs(s, ImgOpen, 0, 0);
    assert forall j :: 10 <= j < 10 + n ==> s[j] == u[j - 10];
    assert s[10 + n] == '"' && s[11 + n] == '>';
    assert NextChar(s, '"', 10) == 10 + n;
    var g := NextChar(s, '>', 4);
    assert g == 11 + n;
    assert s[5..10] == SrcOpen;
    assert SrcAt(s, 5);
    forall k: nat | 5 < k <= g ensures !SrcAt(s, k) {
      if k + 4 < 10 + n {
        Scan.MismatchAt(s, SrcOpen, k, 4);
      } else if k + 4 == 10 + n {
        assert NextChar(s, '"', k + 5) == |s|;
      } else if k + 4 < |s| {
        Scan.MismatchAt(s, SrcOpen, k, 4);
      }
    }
    LastSrcIs(s, 5, g, 5);
    assert s[10..10 + n] == u;
  }

  // ---- The rating.

  function Stars(n: nat): (r: string)
    ensures |r| == n && forall i :: 0 <= i < n ==> r[i] == '★'
  {
    if n == 0 then "" else Stars(n - 1) + "★"
  }

  /** `"★".repeat(Math.floor(r)) + (r % 1 >= 0.5 ? "½" : "")` for the
   *  non-negative decimal `r = m * 10^e`. */
  function StarRating(m: nat, e: int): (r: string)
    ensures var full := JsNumber.Floor(m, e);
            && |r| == full + (if JsNumber.FractionAtLeastHalf(m, e) then 1 else 0)
            && (forall i :: 0 <= i < full ==> r[i] == '★')
            && (JsNumber.FractionAtLeastHalf(m, e) ==> r[full] == '½')
  {
    Stars(JsNumber.Floor(m, e)) + (if JsNumber.FractionAtLeastHalf(m, e) then "½" else "")
  }

  /** 4.5 renders as four full stars and a half. */
  lemma FourAndAHalf()
    ensures StarRating(45, -1) == "★★★★½"
  {
    assert JsNumber.Floor(45, -1) == 4;
    assert JsNumber.FractionAtLeastHalf(45, -1);
    assert Stars(4) == "★★★★";
  }

  /** The count of full stars is the integer part of the rating, and the
   *  half star is there exactly when what remains is at least one half. */
  lemma StarRatingMeaning(m: nat, e: int)
    ensures e < 0 ==> var p := JsNumber.Pow10(-e); var full := JsNumber.Floor(m, e);
              full * p <= m < (full + 1) * p
              && (|StarRating(m, e)| == full + 1 <==> 2 * (m - full * p) >= p)
    ensures e >= 0 ==> StarRating(m, e) == Stars(m * JsNumber.Pow10(e))
  {
    JsNumber.FloorAndFraction(m, e);
  }

  /** The longest string the engine builds: V8's `String::kMaxLength` on
   *  64-bit platforms, `2^29 - 24` code units. */
  const MaxStringLength := 0x1FFF_FFE8

  /** The member rating, as the `let rating` assignments leave it before
   *  the title fallback: `None` when the rating is missing or NaN. It
   *  fails (`Threw`) with a RangeError when `"★".repeat` is given a
   *  negative count or an infinity, or when the stars would be longer
   *  than the engine's longest string. */
  datatype Rating = Threw | Rated(rating: Option<string>)

  function MemberRating(field: Option<string>): (r: Rating)
    ensures field.None? ==> r == Rated(None)
    ensures field.Some? && JsNumber.ParseFloat(field.value) == JsNumber.NaN ==> r == Rated(None)
    ensures r.Threw? <==> field.Some? && (JsNumber.ParseFloat(field.value).Infinity?
                                          || (JsNumber.ParseFloat(field.value).Finite?
                                              && (JsNumber.ParseFloat(field.value).mantissa < 0
                                                  || |StarRating(JsNumber.ParseFloat(field.value).mantissa,
                                                                 JsNumber.ParseFloat(field.value).exponent)| > MaxStringLength)))
    ensures field.Some? && JsNumber.ParseFloat(field.value).Finite? && r.Rated? ==>
              r.rating == Some(StarRating(JsNumber.ParseFloat(field.value).mantissa, JsNumber.ParseFloat(field.value).exponent))
  {
    if field.None? then Rated(None)
    else match JsNumber.ParseFloat(field.value)
      case NaN => Rated(None)
      case Infinity(_) => Threw
      case Finite(m, e) =>
        if m < 0 || |StarRating(m, e)| > MaxStringLength then Threw else Rated(Some(StarRating(m, e)))
  }

  lemma Digits45()
    ensures JsNumber.LeadingDigits("4.5") == "4" && JsNumber.LeadingDigits("5") == "5"
    ensures JsNumber.DigitsValue("45") == 45
  {
    assert "4.5"[1..] == ".5";
    assert "5"[1..] == "";
    assert "45"[..1] == "4";
    assert "4"[..0] == "";
  }

  lemma ParseFloat45()
    ensures JsNumber.ParseFloat("4.5") == JsNumber.Finite(45, -1)
  {
    Text.TrimStartFixed("4.5");
    Scan45();
    assert JsNumber.Magnitude(45) == 45 && JsNumber.Pow10(0) == 1 && JsNumber.Pow10(9) == 1000000000;
    JsNumber.ParseFloatKept("4.5", 45, -1, 3);
  }

  lemma Scan45()
    ensures JsNumber.ScanDecimal("4.5") == Some((JsNumber.Finite(45, -1), 3))
  {
    ScanUnsigned45();
    JsNumber.ScanDecimalDigitFirst("4.5", 45, -1, 3);
  }

  lemma ScanUnsigned45()
    ensures JsNumber.ScanUnsigned("4.5") == Some((45, -1, 3))
  {
    Digits45();
    assert "4.5"[1] == '.' && "4.5"[2..] == "5";
    assert JsNumber.LeadingDigits("4.5"[2..]) == "5";
    assert "4" + "5" == "45";
    assert "4.5"[3..] == "";
    assert JsNumber.ScanExponent("4.5"[3..]) == (0, 0);
  }

  /** A member rating of `4.5` renders as `★★★★½`. */
  lemma MemberRatingFourAndAHalf()
    ensures MemberRating(Some("4.5")) == Rated(Some("★★★★½"))
  {
    ParseFloat45();
    FourAndAHalf();
  }

  lemma Digits400()
    ensures JsNumber.LeadingDigits("400") == "400" && JsNumber.DigitsValue("400") == 400
  {
    assert "400"[1..] == "00" && "00"[1..] == "0" && "0"[1..] == "";
    assert "400"[..2] == "40" && "40"[..1] == "4" && "4"[..0] == "";
  }

  lemma Scan1e400()
    ensures JsNumber.ScanDecimal("1e400") == Some((JsNumber.Finite(1, 400), 5))
  {
    ScanUnsigned1e400();
    JsNumber.ScanDecimalDigitFirst("1e400", 1, 400, 5);
  }

  lemma ScanUnsigned1e400()
    ensures JsNumber.ScanUnsigned("1e400") == Some((1, 400, 5))
  {
    Digits400();
    assert "1e400"[1..] == "e400" && "e400"[1..] == "400" && "400"[3..] == "";
    assert JsNumber.LeadingDigits("1e400") == "1";
    assert "1"[..0] == "" && "1" + "" == "1";
    assert JsNumber.ScanExponent("e400") == (400, 4);
  }

  lemma Scan1e9()
    ensures JsNumber.ScanDecimal("1e9") == Some((JsNumber.Finite(1, 9), 3))
  {
    ScanUnsigned1e9();
    JsNumber.ScanDecimalDigitFirst("1e9", 1, 9, 3);
  }

  lemma ScanUnsigned1e9()
    ensures JsNumber.ScanUnsigned("1e9") == Some((1, 9, 3))
  {
    assert "1e9"[1..] == "e9" && "e9"[1..] == "9" && "9"[1..] == "";
    assert JsNumber.LeadingDigits("1e9") == "1";
    assert "1"[..0] == "" && "1" + "" == "1" && "9"[..0] == "";
    assert JsNumber.LeadingDigits("9") == "9" && JsNumber.DigitsValue("9") == 9;
    assert JsNumber.ScanExponent("e9") == (9, 2);
  }

  lemma ScanMinus1eMinus400()
    ensures JsNumber.ScanDecimal("-1e-400") == Some((JsNumber.Finite(-1, -400), 7))
  {
    assert "-1e-400"[1..] == "1e-400";
    ScanUnsigned1eMinus400();
    JsNumber.ScanDecimalMinus("-1e-400", 1, -400, 6);
  }

  lemma ScanUnsigned1eMinus400()
    ensures JsNumber.ScanUnsigned("1e-400") == Some((1, -400, 6))
  {
    ExponentMinus400();
    assert "1e-400"[1..] == "e-400";
    assert JsNumber.LeadingDigits("1e-400") == "1";
    assert "1"[..0] == "" && "1" + "" == "1";
  }

  lemma ExponentMinus400()
    ensures JsNumber.ScanExponent("e-400") == (-400, 5)
  {
    Digits400();
    assert "e-400"[2..] == "400" && "400"[3..] == "";
  }

  /** A rating beyond the largest double, such as `1e400`, is an infinity,
   *  and `"★".repeat` throws. */
  lemma MemberRatingOverflow()
    ensures MemberRating(Some("1e400")) == Threw
  {
    Text.TrimStartFixed("1e400");
    Scan1e400();
    JsNumber.ParseFloatOverflow("1e400", 1, 400, 5);
  }

  /** A rating of `1e9` asks for more stars than the longest string holds. */
  lemma MemberRatingTooLong()
    ensures MemberRating(Some("1e9")) == Threw
  {
    ParseFloat1e9();
    BillionStars();
  }

  lemma ParseFloat1e9()
    ensures JsNumber.ParseFloat("1e9") == JsNumber.Finite(1, 9)
  {
    Text.TrimStartFixed("1e9");
    Scan1e9();
    assert JsNumber.Magnitude(1) == 1 && JsNumber.Pow10(9) == 1000000000;
    JsNumber.ParseFloatKept("1e9", 1, 9, 3);
  }

  lemma BillionStars()
    ensures |StarRating(1, 9)| == 1000000000
  {
    JsNumber.ShiftIsProduct(1, 9);
    assert JsNumber.Pow10(9) == 1000000000;
  }

  /** A negative rating too small for a double, such as `-1e-400`, is
   *  negative zero: no star and no throw, so the title fallback applies. */
  lemma MemberRatingUnderflow()
    ensures MemberRating(Some("-1e-400")) == Rated(Some(""))
  {
    ParseFloatUnderflow();
    assert StarRating(0, 0) == "";
  }

  lemma ParseFloatUnderflow()
    ensures JsNumber.ParseFloat("-1e-400") == JsNumber.Finite(0, 0)
  {
    Text.TrimStartFixed("-1e-400");
    ScanMinus1eMinus400();
    JsNumber.ParseFloatUnderflow("-1e-400", -1, -400, 7);
  }

  predicate IsStar(c: char) { c == '★' || c == '½' }

  /** The first index from `i` on where `IsStar(s[j]) == want`, or `|s|`. */
  function NextStar(s: string, want: bool, i: nat): (r: nat)
    requires i <= |s|
    ensures i <= r <= |s|
    ensures r < |s| ==> IsStar(s[r]) == want
    ensures forall j :: i <= j < r ==> IsStar(s[j]) != want
    decreases |s| - i
  {
    if i == |s| || IsStar(s[i]) == want then i else NextStar(s, want, i + 1)
  }

  /** `title.match(/[★½]+/)?.[0]`: the first maximal run of star marks. */
  function StarRun(title: string): (r: Option<string>)
    ensures r.None? <==> forall j :: 0 <= j < |title| ==> !IsStar(title[j])
    ensures r.Some? ==> r.value != [] && forall j :: 0 <= j < |r.value| ==> IsStar(r.value[j])
  {
    var start := NextStar(title, true, 0);
    if start == |title| then None
    else Some(title[start..NextStar(title, false, start)])
  }

  /** The title of a diary entry, `Film, Year - ★★★½`, gives its stars. */
  lemma StarRunOfTitle(name: string, stars: string)
    requires forall j :: 0 <= j < |name| ==> !IsStar(name[j])
    requires stars != [] && forall j :: 0 <= j < |stars| ==> IsStar(stars[j])
    ensures StarRun(name + " - " + stars) == Some(stars)
  {
    var t := name + " - " + stars;
    var q := |name| + 3;
    assert forall j :: 0 <= j < q ==> !IsStar(t[j]) by {
      forall j | 0 <= j < q ensures !IsStar(t[j]) {
        if j < |name| { assert t[j] == name[j]; }
      }
    }
    assert t[q] == stars[0];
    assert NextStar(t, true, 0) == q;
    assert forall j :: q <= j < |t| ==> t[j] == stars[j - q];
    assert NextStar(t, false, q) == |t|;
    assert t[q..|t|] == stars;
  }

  /** The rating after the `if (!rating)` fallback: the title's stars stand
   *  in when the member rating is missing, NaN or renders as `""` (below
   *  one half). */
  function RatingOf(item: string): (r: Rating)
    ensures r.Threw? <==> MemberRating(Scan.LineField(item, Tag("memberRating"))).Threw?
    ensures var own := MemberRating(Scan.LineField(item, Tag("memberRating")));
            own.Rated? && Http.Truthy(own.rating) ==> r == own
    ensures var own := MemberRating(Scan.LineField(item, Tag("memberRating")));
            var title := Scan.LineField(item, "title");
            own.Rated? && !Http.Truthy(own.rating) ==>
              r == if title.Some? && StarRun(title.value).Some? then Rated(StarRun(title.value)) else own
  {
    var own := MemberRating(Scan.LineField(item, Tag("memberRating")));
    if own.Threw? || Http.Truthy(own.rating) then own
    else
      var title := Scan.LineField(item, "title");
      if title.Some? && StarRun(title.value).Some? then Rated(StarRun(title.value)) else own
  }

  // ---- Items and the feed.

  /** What one `<item>` block contributes: the loop body throws, the block
   *  is skipped for lack of a title or link, or it yields a movie. */
  datatype Outcome = Throws | Skipped | Emits(movie: Movie)

  predicate HasTitleAndLink(item: string) {
    Scan.LineField(item, Tag("filmTitle")).Some? && Scan.LineField(item, "link").Some?
  }

  function MovieOf(item: string): (r: Outcome)
    ensures r.Throws? <==> RatingOf(item).Threw?
    ensures r.Emits? <==> !RatingOf(item).Threw? && HasTitleAndLink(item)
  {
    var rating := RatingOf(item);
    if rating.Threw? then Throws
    else
      var title := LineValue(item, Tag("filmTitle"));
      var link := LineValue(item, "link");
      if title.Some? && link.Some? then
        Emits(Movie(title.value, LineValue(item, Tag("filmYear")), link.value,
                    LineValue(item, Tag("watchedDate")), rating.rating, ImageUrl(item)))
      else Skipped
  }

  /** The fields of an emitted movie: the trimmed captures, the rating
   *  after the fallback and the poster. */
  lemma MovieFields(item: string)
    requires MovieOf(item).Emits?
    ensures var movie := MovieOf(item).movie;
            && NoSpaceAtEnds(movie.title) && NoSpaceAtEnds(movie.link)
            && Some(movie.title) == LineValue(item, Tag("filmTitle"))
            && Some(movie.link) == LineValue(item, "link")
            && movie.year == LineValue(item, Tag("filmYear"))
            && movie.watchedDate == LineValue(item, Tag("watchedDate"))
            && movie.rating == RatingOf(item).rating
            && movie.imageUrl == ImageUrl(item)
  {
  }

  predicate IsEmit(o: Outcome) { o.Emits? }

  function MovieIn(o: Outcome): Movie
    requires o.Emits?
  {
    o.movie
  }

  /** What the loop makes of the blocks' outcomes: it throws at the first
   *  `Throws`, and otherwise collects the movies in order. */
  function Collect(outs: seq<Outcome>): Option<seq<Movie>> {
    if outs == [] then Some([])
    else if outs[0].Throws? then None
    else
      var rest := Collect(outs[1..]);
      if rest.None? then None
      else if outs[0].Skipped? then rest
      else Some([outs[0].movie] + rest.value)
  }

  /** Feed order, no sorting: the loop fails exactly when some block
   *  throws, and otherwise yields the emitted movies in block order. */
  lemma {:induction false} CollectMeaning(outs: seq<Outcome>)
    ensures Collect(outs).None? <==> exists i :: 0 <= i < |outs| && outs[i].Throws?
    ensures Collect(outs).Some? ==> Collect(outs).value == Map(Filter(outs, IsEmit), MovieIn)
  {
    if outs != [] {
      CollectMeaning(outs[1..]);
      assert outs == [outs[0]] + outs[1..];
      FilterConcat([outs[0]], outs[1..], IsEmit);
      if outs[0].Throws? {
        assert outs[0 as int].Throws?;
      } else if exists i :: 0 <= i < |outs| && outs[i].Throws? {
        var i :| 0 <= i < |outs| && outs[i].Throws?;
        assert outs[1..][i - 1].Throws?;
      }
    }
  }

  /** `parseLetterboxdRSS`; `None` when it throws. */
  function ParseRss(xml: string): Option<seq<Movie>> {
    Collect(Map(Feed.Items(xml, 0), MovieOf))
  }

  predicate RatingThrows(item: string) { RatingOf(item).Threw? }

  predicate SomeThrow<T>(items: seq<T>, throws: T -> bool) {
    exists i :: 0 <= i < |items| && throws(items[i])
  }

  /** A block yields a movie exactly when it has a title and a link, and
   *  the parse fails exactly when some block's rating throws. */
  lemma ParseRssMeaning(xml: string)
    ensures ParseRss(xml).None? <==> SomeThrow(Feed.Items(xml, 0), RatingThrows)
    ensures ParseRss(xml).Some? ==> |ParseRss(xml).value| == |Filter(Feed.Items(xml, 0), HasTitleAndLink)|
  {
    OutcomeFacts();
    CollectMapped(Feed.Items(xml, 0), MovieOf, RatingThrows, HasTitleAndLink);
  }

  lemma OutcomeFacts()
    ensures forall item: string :: (MovieOf(item).Throws? <==> RatingThrows(item))
                                  && (!MovieOf(item).Throws? ==> (MovieOf(item).Emits? <==> HasTitleAndLink(item)))
  {
  }

  lemma CollectMapped<T(!new)>(items: seq<T>, f: T -> Outcome, throws: T -> bool, emits: T -> bool)
    requires forall x :: (f(x).Throws? <==> throws(x)) && (!f(x).Throws? ==> (f(x).Emits? <==> emits(x)))
    ensures Collect(Map(items, f)).None? <==> SomeThrow(items, throws)
    ensures Collect(Map(items, f)).Some? ==> |Collect(Map(items, f)).value| == |Filter(items, emits)|
  {
    var outs := Map(items, f);
    CollectMeaning(outs);
    assert forall i :: 0 <= i < |items| ==> (outs[i].Throws? <==> throws(items[i]));
    if Collect(outs).Some? {
      assert forall i :: 0 <= i < |items| ==> (emits(items[i]) <==> IsEmit(outs[i]));
      FilterSameLength(items, outs, emits, IsEmit);
    }
  }

  lemma {:induction false} FilterSameLength<T(!new), U(!new)>(s: seq<T>, t: seq<U>, p: T -> bool, q: U -> bool)
    requires |s| == |t| && forall i :: 0 <= i < |s| ==> (p(s[i]) <==> q(t[i]))
    ensures |Filter(s, p)| == |Filter(t, q)|
  {
    if s != [] {
      FilterSameLength(s[1..], t[1..], p, q);
      assert p(s[0]) <==> q(t[0]);
    }
  }

  /** One more block read: the movies so far, followed by what the
   *  remaining blocks give, are what the whole feed gives. */
  lemma MoviesStep(xml: string, from: nat, m: Scan.Match)
    requires Scan.Lazy(xml, Feed.ItemOpen, Feed.ItemClose, from) == Some(m)
    ensures m.start <= m.end <= |xml| && from < m.next <= |xml|
    ensures Map(Feed.Items(xml, from), MovieOf) == [MovieOf(xml[m.start..m.end])] + Map(Feed.Items(xml, m.next), MovieOf)
  {
    Feed.ItemsStep(xml, from, m);
    MapCons(xml[m.start..m.end], Feed.Items(xml, m.next), MovieOf);
  }

  lemma CollectCons(o: Outcome, outs: seq<Outcome>, found: seq<Movie>)
    ensures o.Throws? ==> Collect([o] + outs).None?
    ensures o.Skipped? ==> Collect([o] + outs) == Collect(outs)
    ensures o.Emits? ==> (Collect([o] + outs).None? <==> Collect(outs).None?)
    ensures o.Emits? && Collect(outs).Some? ==>
              found + Collect([o] + outs).value == (found + [o.movie]) + Collect(outs).value
  {
    assert ([o] + outs)[1..] == outs;
  }

  /** The `while ((match = itemRegex.exec(xmlText)) !== null)` loop;
   *  `None` when it throws. */
  method ParseLetterboxdRss(xml: string) returns (movies: Option<seq<Movie>>)
    ensures movies == ParseRss(xml)
  {
    var found: seq<Movie> := [];
    var lastIndex: nat := 0;
    while true
      invariant lastIndex <= |xml|
      invariant Collect(Map(Feed.Items(xml, lastIndex), MovieOf)).None? <==> ParseRss(xml).None?
      invariant ParseRss(xml).Some? ==> found + Collect(Map(Feed.Items(xml, lastIndex), MovieOf)).value == ParseRss(xml).value
      decreases |xml| - lastIndex
    {
      var next := Scan.Lazy(xml, Feed.ItemOpen, Feed.ItemClose, lastIndex);
      if next.None? {
        Feed.ItemsNone(xml, lastIndex);
        assert Map(Feed.Items(xml, lastIndex), MovieOf) == [];
        assert found + [] == found;
        return Some(found);
      }
      var m := next.value;
      MoviesStep(xml, lastIndex, m);
      var out := MovieOf(xml[m.start..m.end]);
      CollectCons(out, Map(Feed.Items(xml, m.next), MovieOf), found);
      if out.Throws? {
        return None;
      }
      if out.Emits? {
        found := found + [out.movie];
      }
      lastIndex := m.next;
    }
  }

  /** A value broken over two lines is no title: the block yields no
   *  movie. */
  lemma LineBreakInTitle(x: string, t: nat)
    requires forall i :: 0 <= i < |x| ==> x[i] != '<'
    requires t < |x| && IsLineTerminator(x[t])
    ensures !MovieOf(Scan.Open(Tag("filmTitle")) + x + Scan.Close(Tag("filmTitle"))).Emits?
  {
    Scan.LineFieldRejectsLineBreak(Tag("filmTitle"), x, t);
  }

  /** Without a CDATA-wrapped description there is no poster. */
  lemma NoCdataNoImage(item: string)
    requires forall p: nat :: !Scan.OccursAt(item, DescriptionOpen, p)
    ensures ImageUrl(item).None?
  {
    Scan.LazyLeftmost(item, DescriptionOpen, DescriptionClose, 0);
  }

  const NotConfigured := "Letterboxd username not configured"
  const LoadFailed := "Failed to load Letterboxd data"

  datatype Body = Movies(movies: seq<Movie>) | Failure(error: string, movies': Option<seq<Movie>>)

  function RssUrl(username: string): string {
    "https://letterboxd.com/" + username + "/rss/"
  }

  /** `GET`: the URLs fetched and the response. */
  function Get(username: Option<string>, limit: Option<string>, fetch: string -> Http.Fetched): (r: (seq<string>, Http.Response<Body>))
    ensures !Http.Truthy(username) ==> r.0 == [] && r.1 == Http.Response(500, Failure(NotConfigured, None), None)
    ensures Http.Truthy(username) ==> r.0 == [RssUrl(username.value)]
    ensures r.1.status == 200 <==> |r.0| == 1 && fetch(r.0[0]).Ok() && ParseRss(fetch(r.0[0]).body).Some?
    ensures |r.0| == 1 && r.1.status != 200 ==> r.1 == Http.Response(500, Failure(LoadFailed, Some([])), None)
    ensures r.1.status == 200 ==>
              && r.1.cacheControl == Some(Http.FeedCache)
              && r.1.body == Movies(Feed.ApplyLimit(ParseRss(fetch(r.0[0]).body).value, Feed.Limit(limit)))
  {
    if !Http.Truthy(username) then ([], Http.Response(500, Failure(NotConfigured, None), None))
    else
      var url := RssUrl(username.value);
      var reply := fetch(url);
      var movies := if reply.Ok() then ParseRss(reply.body) else None;
      if movies.None? then ([url], Http.Response(500, Failure(LoadFailed, Some([])), None))
      else ([url], Http.Response(200, Movies(Feed.ApplyLimit(movies.value, Feed.Limit(limit))), Some(Http.FeedCache)))
  }
}
