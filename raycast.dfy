/**
 * The Raycast install-count scraper: four regular expressions are tried in
 * order on the extension's store page, and the first that matches gives the
 * count, both as written (`formatted`, with its thousands commas) and as an
 * integer (`installs`).
 */
module Raycast {
  import opened Wrappers
  import Text
  import JsNumber
  import Collections
  import Http
  import Scan

  const PageUrl := "https://www.raycast.com/ben_aguirre/google-calendar-quickadd"
  const NotFound := "Could not find install count"
  const FetchFailed := "Failed to fetch install count"

  /** What `\d+(?:,\d+)*` can match: digit groups joined by single commas. */
  predicate CommaNumber(t: string) {
    t != [] && JsNumber.IsDigit(t[0]) && JsNumber.IsDigit(t[|t| - 1])
    && (forall i :: 0 <= i < |t| ==> JsNumber.IsDigit(t[i]) || t[i] == ',')
    && (forall i :: 0 <= i < |t| - 1 ==> NoCommaPairAt(t, i))
  }

  /** The characters at `i` and `i + 1` are not both commas. */
  predicate NoCommaPairAt(s: string, i: nat) {
    i + 1 < |s| ==> s[i] != ',' || s[i + 1] != ','
  }

  /** `s[q..e]` is a comma-grouped number, stated on `s` itself. */
  predicate CommaRun(s: string, q: nat, e: nat) {
    q < e <= |s| && JsNumber.IsDigit(s[q]) && JsNumber.IsDigit(s[e - 1])
    && (forall i :: q <= i < e ==> JsNumber.IsDigit(s[i]) || s[i] == ',')
    && (forall i :: q <= i < e - 1 ==> NoCommaPairAt(s, i))
  }

  lemma CommaRunSlice(s: string, q: nat, e: nat)
    requires q < e <= |s|
    ensures CommaRun(s, q, e) <==> CommaNumber(s[q..e])
  {
    var t := s[q..e];
    assert forall i :: 0 <= i < |t| ==> t[i] == s[q + i];
    if CommaNumber(t) {
      forall i | q <= i < e ensures JsNumber.IsDigit(s[i]) || s[i] == ',' {
        assert s[i] == t[i - q];
      }
      forall i | q <= i < e - 1 ensures NoCommaPairAt(s, i) {
        assert NoCommaPairAt(t, i - q);
        assert s[i] == t[i - q] && s[i + 1] == t[i + 1 - q];
      }
    }
    if CommaRun(s, q, e) {
      forall i | 0 <= i < |t| - 1 ensures NoCommaPairAt(t, i) {
        assert NoCommaPairAt(s, q + i);
      }
    }
  }

  /** End of the run of digits starting at `q`. */
  function DigitsEnd(s: string, q: nat): (e: nat)
    requires q <= |s|
    ensures q <= e <= |s| && (e == |s| || !JsNumber.IsDigit(s[e]))
    ensures forall i :: q <= i < e ==> JsNumber.IsDigit(s[i])
    decreases |s| - q
  {
    if q < |s| && JsNumber.IsDigit(s[q]) then DigitsEnd(s, q + 1) else q
  }

  /** A comma followed by a digit continues a comma-grouped number. */
  predicate GroupContinues(s: string, e: nat) {
    e + 1 < |s| && s[e] == ',' && JsNumber.IsDigit(s[e + 1])
  }

  /** End of the longest match of `\d+(?:,\d+)*` starting at `q`, which is
   *  where the greedy quantifiers stop. */
  function NumberEnd(s: string, q: nat): (e: nat)
    requires q < |s| && JsNumber.IsDigit(s[q])
    ensures q < e <= |s| && CommaRun(s, q, e)
    ensures (e == |s| || !JsNumber.IsDigit(s[e])) && !GroupContinues(s, e)
    decreases |s| - q
  {
    var d := DigitsEnd(s, q);
    if GroupContinues(s, d) then NumberEnd(s, d + 1) else d
  }

  /** Giving back characters of the greedy number always leaves a digit or
   *  a comma next, so a continuation that starts with white space, a
   *  letter or `<` can only follow the longest match. */
  lemma {:induction false} ShorterIsFollowedByNumberChar(s: string, q: nat, e': nat)
    requires q < |s| && JsNumber.IsDigit(s[q])
    requires q < e' < NumberEnd(s, q)
    ensures JsNumber.IsDigit(s[e']) || s[e'] == ','
    decreases |s| - q
  {
    var d := DigitsEnd(s, q);
    if e' > d + 1 {
      ShorterIsFollowedByNumberChar(s, d + 1, e');
    }
  }

  /** End of the run of white space starting at `q` (`\s*`). */
  function SpacesEnd(s: string, q: nat): (e: nat)
    requires q <= |s|
    ensures q <= e <= |s| && (e == |s| || !Text.IsSpace(s[e]))
    ensures forall i :: q <= i < e ==> Text.IsSpace(s[i])
    decreases |s| - q
  {
    if q < |s| && Text.IsSpace(s[q]) then SpacesEnd(s, q + 1) else q
  }

  /** The lower-case word `w` occurs at `i` in any mix of case (the `i`
   *  flag; only ASCII letters fold onto ASCII letters). */
  predicate WordAt(s: string, w: string, i: nat) {
    i + |w| <= |s| && forall k :: 0 <= k < |w| ==> Text.LowerChar(s[i + k]) == w[k]
  }

  predicate IsS(s: string, i: nat) {
    i < |s| && Text.LowerChar(s[i]) == 's'
  }

  /** `(\d+(?:,\d+)*)\s*Installs?` at `p`; the optional `s` is irrelevant
   *  because nothing follows it. */
  function CountAt(s: string, p: nat): (r: Option<string>)
  {
    if p < |s| && JsNumber.IsDigit(s[p]) then
      var e := NumberEnd(s, p);
      if WordAt(s, "install", SpacesEnd(s, e)) then Some(s[p..e]) else None
    else None
  }

  /** `>(\d+(?:,\d+)*)<!--\s*-->\s*Installs?<` at `p`: the markup the store
   *  page renders, `>195<!-- --> Installs<`. */
  function MarkupAt(s: string, p: nat): (r: Option<string>)
  {
    if p + 1 < |s| && s[p] == '>' && JsNumber.IsDigit(s[p + 1]) then
      var e := NumberEnd(s, p + 1);
      if !Scan.OccursAt(s, "<!--", e) then None
      else
        var a := SpacesEnd(s, e + 4);
        if !Scan.OccursAt(s, "-->", a) then None
        else
          var b := SpacesEnd(s, a + 3);
          var c := b + 7;
          if WordAt(s, "install", b) && ((c < |s| && s[c] == '<') || (IsS(s, c) && c + 1 < |s| && s[c + 1] == '<'))
          then Some(s[p + 1..e])
          else None
    else None
  }

  /** End of the run of `"`, white space and `:` starting at `q`. */
  function SeparatorsEnd(s: string, q: nat): (e: nat)
    requires q <= |s|
    ensures q <= e <= |s|
    decreases |s| - q
  {
    if q < |s| && (s[q] == '"' || s[q] == ':' || Text.IsSpace(s[q])) then SeparatorsEnd(s, q + 1) else q
  }

  /** `"installs?["\s:]+(\d+(?:,\d+)*)` at `p`, a count in embedded JSON.
   *  Leaving out an `s` that is there cannot help: `s` is not a separator. */
  function QuotedAt(s: string, p: nat): (r: Option<string>)
  {
    if Scan.OccursAt(s, "\"", p) && WordAt(s, "install", p + 1) then
      var c := if IsS(s, p + 8) then p + 9 else p + 8;
      var d := SeparatorsEnd(s, c);
      if c < d < |s| && JsNumber.IsDigit(s[d]) then Some(s[d..NumberEnd(s, d)]) else None
    else None
  }

  /** `.*?` followed by the count pattern, from `q`: the first position on
   *  the same line where the count pattern matches. */
  function LazyCountFrom(s: string, q: nat): (r: Option<nat>)
    ensures r.Some? ==> q <= r.value && CountAt(s, r.value).Some?
    decreases |s| - q
  {
    if CountAt(s, q).Some? then Some(q)
    else if q < |s| && !Text.IsLineTerminator(s[q]) then LazyCountFrom(s, q + 1)
    else None
  }

  /** `Avatar.*?(\d+(?:,\d+)*)\s*Installs?` at `p`. */
  function AvatarAt(s: string, p: nat): (r: Option<string>)
  {
    if WordAt(s, "avatar", p) then
      match LazyCountFrom(s, p + 6)
      case None => None
      case Some(q) => CountAt(s, q)
    else None
  }

  /** The four patterns, in the order the route tries them. */
  datatype Pattern = Markup | CountBeforeInstalls | QuotedInstalls | AvatarThenCount

  const Patterns := [Markup, CountBeforeInstalls, QuotedInstalls, AvatarThenCount]

  /** The capture of `pat` when a match starts at `p`. */
  function At(pat: Pattern, s: string, p: nat): (r: Option<string>)
  {
    match pat
    case Markup => MarkupAt(s, p)
    case CountBeforeInstalls => CountAt(s, p)
    case QuotedInstalls => QuotedAt(s, p)
    case AvatarThenCount => AvatarAt(s, p)
  }

  /** The least position from `from` on, up to `end`, that passes `ok`. */
  function FirstFrom(ok: nat -> bool, from: nat, end: nat): (r: Option<nat>)
    ensures r.Some? ==> from <= r.value <= end && ok(r.value)
    decreases end - from
  {
    if from <= end && ok(from) then Some(from)
    else if from < end then FirstFrom(ok, from + 1, end)
    else None
  }

  /** Nothing before the position found passes, and nothing at all when
   *  none is found. */
  lemma {:induction false} FirstFromMeaning(ok: nat -> bool, from: nat, end: nat)
    ensures var r := FirstFrom(ok, from, end);
            r.Some? ==> forall p: nat :: from <= p < r.value ==> !ok(p)
    ensures FirstFrom(ok, from, end).None? ==> forall p: nat :: from <= p <= end ==> !ok(p)
    decreases end - from
  {
    if from < end && !ok(from) {
      FirstFromMeaning(ok, from + 1, end);
    }
  }

  lemma {:induction false} FirstFromIs(ok: nat -> bool, from: nat, end: nat, p: nat)
    requires from <= p <= end && ok(p) && forall q: nat :: from <= q < p ==> !ok(q)
    ensures FirstFrom(ok, from, end) == Some(p)
    decreases p - from
  {
    if from < p {
      FirstFromIs(ok, from + 1, end, p);
    }
  }

  /** Whether `pat` matches at a position. */
  function MatchesAt(pat: Pattern, s: string): nat -> bool {
    (p: nat) => At(pat, s, p).Some?
  }

  /** The leftmost position from `from` on where `pat` matches. */
  function Leftmost(pat: Pattern, s: string, from: nat): (r: Option<nat>)
    ensures r.Some? ==> from <= r.value && At(pat, s, r.value).Some?
  {
    FirstFrom(MatchesAt(pat, s), from, |s|)
  }

  /** No match starts before the leftmost one, and none at all when the
   *  search fails. */
  lemma LeftmostMeaning(pat: Pattern, s: string, from: nat)
    ensures var r := Leftmost(pat, s, from);
            r.Some? ==> forall p: nat :: from <= p < r.value ==> At(pat, s, p).None?
    ensures Leftmost(pat, s, from).None? ==> forall p: nat :: from <= p ==> At(pat, s, p).None?
  {
    var r := Leftmost(pat, s, from);
    FirstFromMeaning(MatchesAt(pat, s), from, |s|);
    if r.Some? {
      forall p: nat | from <= p < r.value ensures At(pat, s, p).None? {
        assert !MatchesAt(pat, s)(p);
      }
    } else {
      forall p: nat | from <= p ensures At(pat, s, p).None? {
        if p <= |s| { assert !MatchesAt(pat, s)(p); } else { NothingPastEnd(pat, s, p); }
      }
    }
  }

  lemma NothingPastEnd(pat: Pattern, s: string, p: nat)
    ensures |s| < p ==> At(pat, s, p).None?
  {
  }

  /** `html.match(pattern)?.[1]`: the capture of the leftmost match. */
  function Exec(pat: Pattern, s: string): Option<string> {
    match Leftmost(pat, s, 0)
    case None => None
    case Some(p) => At(pat, s, p)
  }

  /** No capture exactly when the pattern matches nowhere; otherwise the
   *  capture of a match at `p` when none starts before `p`. */
  lemma ExecMeaning(pat: Pattern, s: string)
    ensures Exec(pat, s).None? <==> forall p: nat :: At(pat, s, p).None?
  {
    LeftmostMeaning(pat, s, 0);
  }

  lemma ExecAt(pat: Pattern, s: string, p: nat)
    requires At(pat, s, p).Some? && forall q: nat :: q < p ==> At(pat, s, q).None?
    ensures Exec(pat, s) == At(pat, s, p)
  {
    NothingPastEnd(pat, s, p);
    forall q: nat | q < p ensures !MatchesAt(pat, s)(q) {
      assert At(pat, s, q).None?;
    }
    FirstFromIs(MatchesAt(pat, s), 0, |s|, p);
  }

  /** The capture of the first pattern in `pats` that matches. */
  function FirstCapture(pats: seq<Pattern>, s: string): (r: Option<string>)
  {
    if pats == [] then None
    else
      match Exec(pats[0], s)
      case Some(t) => Some(t)
      case None => FirstCapture(pats[1..], s)
  }

  /** The result is `None` exactly when no pattern matches, and otherwise
   *  the capture of the first pattern that does. */
  lemma {:induction false} FirstCaptureMeaning(pats: seq<Pattern>, s: string)
    ensures FirstCapture(pats, s).None? <==> forall i :: 0 <= i < |pats| ==> Exec(pats[i], s).None?
    ensures var r := FirstCapture(pats, s);
            r.Some? ==> exists i :: 0 <= i < |pats| && Exec(pats[i], s) == r
                                   && forall j :: 0 <= j < i ==> Exec(pats[j], s).None?
  {
    if pats != [] && Exec(pats[0], s).None? {
      var r := FirstCapture(pats[1..], s);
      FirstCaptureMeaning(pats[1..], s);
      forall i | 1 <= i < |pats| ensures Exec(pats[i], s) == Exec(pats[1..][i - 1], s) {}
      if r.Some? {
        var i :| 0 <= i < |pats[1..]| && Exec(pats[1..][i], s) == r
                 && forall j :: 0 <= j < i ==> Exec(pats[1..][j], s).None?;
        assert Exec(pats[i + 1], s) == r;
      }
    } else if pats != [] {
      assert Exec(pats[0], s) == FirstCapture(pats, s);
    }
  }

  /** Every capture is a comma-grouped number. */
  lemma AtIsCommaNumber(pat: Pattern, s: string, p: nat)
    ensures At(pat, s, p).Some? ==> CommaNumber(At(pat, s, p).value)
  {
    match pat
    case Markup =>
      if MarkupAt(s, p).Some? { CommaRunSlice(s, p + 1, NumberEnd(s, p + 1)); }
    case CountBeforeInstalls =>
      if CountAt(s, p).Some? { CommaRunSlice(s, p, NumberEnd(s, p)); }
    case QuotedInstalls =>
      if QuotedAt(s, p).Some? {
        var d := SeparatorsEnd(s, if IsS(s, p + 8) then p + 9 else p + 8);
        CommaRunSlice(s, d, NumberEnd(s, d));
      }
    case AvatarThenCount =>
      if AvatarAt(s, p).Some? {
        var q := LazyCountFrom(s, p + 6).value;
        CommaRunSlice(s, q, NumberEnd(s, q));
      }
  }

  lemma {:induction false} FirstCaptureIsCommaNumber(pats: seq<Pattern>, s: string)
    ensures FirstCapture(pats, s).Some? ==> CommaNumber(FirstCapture(pats, s).value)
  {
    if pats != [] {
      if Exec(pats[0], s).Some? {
        AtIsCommaNumber(pats[0], s, Leftmost(pats[0], s, 0).value);
      } else {
        FirstCaptureIsCommaNumber(pats[1..], s);
      }
    }
  }

  /** The `for…of` loop over the patterns with its early return. */
  method FindCount(html: string) returns (r: Option<string>)
    ensures r == FirstCapture(Patterns, html)
  {
    var i := 0;
    while i < |Patterns|
      invariant 0 <= i <= |Patterns|
      invariant FirstCapture(Patterns[i..], html) == FirstCapture(Patterns, html)
    {
      var m := Exec(Patterns[i], html);
      if m.Some? {
        assert Patterns[i..][0] == Patterns[i];
        return m;
      }
      assert Patterns[i..][1..] == Patterns[i + 1..];
      i := i + 1;
    }
    return None;
  }

  /** A count found by the lazy search after `Avatar` is found by the count
   *  pattern alone, so the fourth pattern is reached only when it cannot
   *  match: it never decides the result. */
  lemma AvatarImpliesCount(html: string)
    ensures Exec(AvatarThenCount, html).Some? ==> Exec(CountBeforeInstalls, html).Some?
  {
    if Exec(AvatarThenCount, html).Some? {
      var p := Leftmost(AvatarThenCount, html, 0).value;
      var q := LazyCountFrom(html, p + 6).value;
      assert At(CountBeforeInstalls, html, q).Some?;
      ExecMeaning(CountBeforeInstalls, html);
    }
  }

  lemma AvatarNeverDecides(html: string)
    ensures FirstCapture(Patterns, html) == FirstCapture(Patterns[..3], html)
  {
    AvatarImpliesCount(html);
    assert Patterns[..3] == [Markup] + ([CountBeforeInstalls] + [QuotedInstalls]);
    assert Patterns == [Markup] + ([CountBeforeInstalls] + ([QuotedInstalls] + [AvatarThenCount]));
    FirstCaptureCons(Markup, [CountBeforeInstalls] + [QuotedInstalls], html);
    FirstCaptureCons(CountBeforeInstalls, [QuotedInstalls], html);
    FirstCaptureCons(QuotedInstalls, [], html);
    FirstCaptureCons(Markup, [CountBeforeInstalls] + ([QuotedInstalls] + [AvatarThenCount]), html);
    FirstCaptureCons(CountBeforeInstalls, [QuotedInstalls] + [AvatarThenCount], html);
    FirstCaptureCons(QuotedInstalls, [AvatarThenCount], html);
    FirstCaptureCons(AvatarThenCount, [], html);
  }

  lemma FirstCaptureCons(pat: Pattern, rest: seq<Pattern>, s: string)
    ensures FirstCapture([pat] + rest, s) == if Exec(pat, s).Some? then Exec(pat, s) else FirstCapture(rest, s)
  {
    assert ([pat] + rest)[1..] == rest;
  }

  /** `match[1].replace(/,/g, "")`. */
  function RemoveCommas(t: string): string {
    if t == [] then "" else (if t[0] == ',' then "" else [t[0]]) + RemoveCommas(t[1..])
  }

  predicate NotComma(c: char) { c != ',' }

  /** Removing the commas keeps every other character, in order. */
  lemma {:induction false} RemoveCommasIsFilter(t: string)
    ensures RemoveCommas(t) == Collections.Filter(t, NotComma)
  {
    if t != [] { RemoveCommasIsFilter(t[1..]); }
  }

  /** A captured count without its commas is a non-empty digit string, so
   *  `parseInt` reads all of it: its value while that is below the overflow
   *  boundary, positive infinity from there on. Printing the value again
   *  gives those digits without leading zeros. */
  lemma CountValue(t: string)
    requires CommaNumber(t)
    ensures RemoveCommas(t) != [] && JsNumber.AllDigits(RemoveCommas(t))
    ensures JsNumber.DigitsValue(RemoveCommas(t)) < JsNumber.OverflowBound ==>
              JsNumber.ParseInt(RemoveCommas(t)) == JsNumber.Finite(JsNumber.DigitsValue(RemoveCommas(t)), 0)
    ensures JsNumber.DigitsValue(RemoveCommas(t)) >= JsNumber.OverflowBound ==>
              JsNumber.ParseInt(RemoveCommas(t)) == JsNumber.Infinity(false)
    ensures JsNumber.NatToString(JsNumber.DigitsValue(RemoveCommas(t)))
            == JsNumber.StripLeadingZeros(RemoveCommas(t))
  {
    var r := RemoveCommas(t);
    RemoveCommasIsFilter(t);
    Collections.FilterMembers(t, NotComma);
    assert t[0] in t;
    assert forall i :: 0 <= i < |r| ==> r[i] in r;
    JsNumber.ParseIntOfDigits(r);
    JsNumber.NatToStringOfDigits(r);
  }

  /** The JSON body: a count, or `installs: null` with an error. A count
   *  that `parseInt` took to infinity is written by `JSON.stringify` as
   *  `installs: null` too, beside its `formatted` text. */
  datatype Body = Installs(installs: Option<nat>, formatted: string) | NoInstalls(error: string)

  /** `GET`: `page` is what fetching the store page gave. */
  method Get(page: Http.Fetched) returns (response: Http.Response<Body>)
    ensures !page.Ok() ==> response == Http.Response(500, NoInstalls(FetchFailed), None)
    ensures page.Ok() && FirstCapture(Patterns, page.body).None? ==>
              response == Http.Response(200, NoInstalls(NotFound), None)
    ensures page.Ok() && FirstCapture(Patterns, page.body).Some? ==>
              var t := FirstCapture(Patterns, page.body).value;
              response.status == 200 && response.cacheControl == None
              && response.body.Installs? && response.body.formatted == t
              && JsNumber.AllDigits(RemoveCommas(t))
              && (JsNumber.DigitsValue(RemoveCommas(t)) < JsNumber.OverflowBound ==>
                    response.body.installs == Some(JsNumber.DigitsValue(RemoveCommas(t)))
                    && JsNumber.ParseInt(RemoveCommas(t)) == JsNumber.Finite(response.body.installs.value, 0))
              && (JsNumber.DigitsValue(RemoveCommas(t)) >= JsNumber.OverflowBound ==>
                    response.body.installs == None
                    && JsNumber.ParseInt(RemoveCommas(t)) == JsNumber.Infinity(false))
  {
    if !page.Ok() {
      return Http.Response(500, NoInstalls(FetchFailed), None);
    }
    var m := FindCount(page.body);
    FirstCaptureIsCommaNumber(Patterns, page.body);
    if m.Some? {
      CountValue(m.value);
      var v := JsNumber.ParseInt(RemoveCommas(m.value));
      var installs: Option<nat> := None;
      if v.Finite? {
        installs := Some(JsNumber.DigitsValue(RemoveCommas(m.value)));
      }
      return Http.Response(200, Installs(installs, m.value), None);
    }
    return Http.Response(200, NoInstalls(NotFound), None);
  }

  /** The count pattern ignores case and takes both `Install` and
   *  `Installs`, after any white space. */
  lemma CountIgnoresCase(ds: string, sp: string, w: string)
    requires ds != [] && JsNumber.AllDigits(ds)
    requires forall i :: 0 <= i < |sp| ==> Text.IsSpace(sp[i])
    requires |w| >= 7 && Text.ToLower(w[..7]) == "install"
    ensures Exec(CountBeforeInstalls, ds + sp + w) == Some(ds)
  {
    var s := ds + sp + w;
    assert !JsNumber.IsDigit(s[|ds|]) && s[|ds|] != ',' by {
      if sp != [] { assert s[|ds|] == sp[0]; }
      else { assert s[|ds|] == w[0] && Text.LowerChar(w[0]) == 'i'; }
    }
    DigitsEndIs(s, 0, |ds|);
    assert NumberEnd(s, 0) == |ds|;
    SpacesEndIs(s, |ds|, |ds| + |sp|);
    forall k | 0 <= k < 7 ensures Text.LowerChar(s[|ds| + |sp| + k]) == "install"[k] {
      assert s[|ds| + |sp| + k] == w[..7][k];
    }
    assert s[..|ds|] == ds;
    ExecAt(CountBeforeInstalls, s, 0);
  }

  lemma {:induction false} DigitsEndIs(s: string, q: nat, e: nat)
    requires q <= e <= |s| && (forall i :: q <= i < e ==> JsNumber.IsDigit(s[i]))
    requires e == |s| || !JsNumber.IsDigit(s[e])
    ensures DigitsEnd(s, q) == e
    decreases e - q
  {
    if q < e { DigitsEndIs(s, q + 1, e); }
  }

  lemma {:induction false} SpacesEndIs(s: string, q: nat, e: nat)
    requires q <= e <= |s| && (forall i :: q <= i < e ==> Text.IsSpace(s[i]))
    requires e == |s| || !Text.IsSpace(s[e])
    ensures SpacesEnd(s, q) == e
    decreases e - q
  {
    if q < e { SpacesEndIs(s, q + 1, e); }
  }

  /** The greedy number ends exactly where a comma-grouped number written
   *  at `q` ends, when nothing after it continues it. */
  lemma {:induction false} NumberEndIs(s: string, q: nat, e: nat)
    requires CommaRun(s, q, e)
    requires (e == |s| || !JsNumber.IsDigit(s[e])) && !GroupContinues(s, e)
    ensures JsNumber.IsDigit(s[q]) && NumberEnd(s, q) == e
    decreases e - q
  {
    var d := DigitsEnd(s, q);
    if d < e {
      assert s[d] == ',' && d + 1 < e;
      assert NoCommaPairAt(s, d);
      assert JsNumber.IsDigit(s[d + 1]);
      assert GroupContinues(s, d);
      NumberEndIs(s, d + 1, e);
      NumberEndStep(s, q);
    } else {
      assert d == e;
      assert NumberEnd(s, q) == d;
    }
  }

  lemma NumberEndStep(s: string, q: nat)
    requires q < |s| && JsNumber.IsDigit(s[q]) && GroupContinues(s, DigitsEnd(s, q))
    ensures NumberEnd(s, q) == NumberEnd(s, DigitsEnd(s, q) + 1)
  {
  }

  /** The markup the store page renders around a count, `>N<!-- --> Installs<`,
   *  gives back `N` from the first pattern. */
  lemma RenderedCount(ds: string, post: string)
    requires CommaNumber(ds)
    ensures FirstCapture(Patterns, ">" + ds + "<!-- --> Installs<" + post) == Some(ds)
  {
    var s := ">" + ds + "<!-- --> Installs<" + post;
    var e := 1 + |ds|;
    assert s[1..e] == ds;
    CommaRunSlice(s, 1, e);
    assert Scan.OccursAt(s, Rendered, e) by {
      assert s == ">" + ds + Rendered + post;
      assert s[e..e + |Rendered|] == Rendered;
      Scan.OccursAtSlice(s, Rendered, e);
    }
    Scan.OccursAtChar(s, Rendered, e, 0);
    NumberEndIs(s, 1, e);
    MarkupOfRendered(s, e);
    assert Leftmost(Markup, s, 0) == Some(0);
  }

  /** A page without a digit has no count: the route answers "Could not
   *  find install count". */
  lemma NoDigitNoCount(html: string)
    requires forall i :: 0 <= i < |html| ==> !JsNumber.IsDigit(html[i])
    ensures FirstCapture(Patterns, html).None?
  {
    forall pat: Pattern, p: nat ensures At(pat, html, p).None? {
      NoDigitAt(pat, html, p);
    }
    forall i | 0 <= i < |Patterns| ensures Exec(Patterns[i], html).None? {
      ExecMeaning(Patterns[i], html);
    }
    FirstCaptureMeaning(Patterns, html);
  }

  lemma NoDigitAt(pat: Pattern, s: string, p: nat)
    requires forall i :: 0 <= i < |s| ==> !JsNumber.IsDigit(s[i])
    ensures At(pat, s, p).None?
  {
    if pat == AvatarThenCount { NoDigitLazy(s, p + 6); }
  }

  lemma {:induction false} NoDigitLazy(s: string, q: nat)
    requires forall i :: 0 <= i < |s| ==> !JsNumber.IsDigit(s[i])
    ensures LazyCountFrom(s, q).None?
    decreases |s| - q
  {
    if q < |s| { NoDigitLazy(s, q + 1); }
  }

  const Rendered := "<!-- --> Installs<"

  lemma MarkupOfRendered(s: string, e: nat)
    requires 1 < e && Scan.OccursAt(s, Rendered, e)
    requires s[0] == '>' && JsNumber.IsDigit(s[1]) && NumberEnd(s, 1) == e
    ensures MarkupAt(s, 0) == Some(s[1..e])
  {
    RenderedLayout(s, e);
    RenderedWord(s, e);
  }

  lemma RenderedLayout(s: string, e: nat)
    requires Scan.OccursAt(s, Rendered, e)
    ensures Scan.OccursAt(s, "<!--", e) && SpacesEnd(s, e + 4) == e + 5
    ensures Scan.OccursAt(s, "-->", e + 5) && SpacesEnd(s, e + 8) == e + 9
    ensures Scan.OccursAt(s, "Installs<", e + 9)
  {
    forall k | 0 <= k < 4 ensures s[e + k] == "<!--"[k] {
      Scan.OccursAtChar(s, Rendered, e, k);
    }
    forall k | 0 <= k < 3 ensures s[e + 5 + k] == "-->"[k] {
      Scan.OccursAtChar(s, Rendered, e, 5 + k);
    }
    forall k | 0 <= k < 9 ensures s[e + 9 + k] == "Installs<"[k] {
      Scan.OccursAtChar(s, Rendered, e, 9 + k);
    }
    Scan.OccursAtChars(s, "<!--", e);
    Scan.OccursAtChars(s, "-->", e + 5);
    Scan.OccursAtChars(s, "Installs<", e + 9);
    Scan.OccursAtChar(s, Rendered, e, 4);
    Scan.OccursAtChar(s, Rendered, e, 8);
    SpacesEndIs(s, e + 4, e + 5);
    SpacesEndIs(s, e + 8, e + 9);
  }

  lemma RenderedWord(s: string, e: nat)
    requires Scan.OccursAt(s, "Installs<", e + 9)
    ensures WordAt(s, "install", e + 9) && IsS(s, e + 16) && s[e + 17] == '<'
  {
    var t := "Installs<";
    forall k | 0 <= k < |t| ensures s[e + 9 + k] == t[k] {
      Scan.OccursAtChar(s, t, e + 9, k);
    }
    InstallsWord();
  }

  lemma InstallsWord()
    ensures forall k :: 0 <= k < 7 ==> Text.LowerChar("Installs<"[k]) == "install"[k]
    ensures Text.LowerChar("Installs<"[7]) == 's' && "Installs<"[8] == '<'
  {
    assert Text.LowerChar('I') == 'i';
  }

  /** `1,234` is read as 1234. */
  lemma CountExample1234()
    ensures JsNumber.ParseInt(RemoveCommas("1,234")) == JsNumber.Finite(1234, 0)
  {
    Value1234();
    Example("1,234", "1234", 1234);
  }

  /** `195` is read as 195. */
  lemma CountExample195()
    ensures JsNumber.ParseInt(RemoveCommas("195")) == JsNumber.Finite(195, 0)
  {
    Value195();
    Example("195", "195", 195);
  }

  lemma Value1234()
    ensures RemoveCommas("1,234") == "1234" && JsNumber.DigitsValue("1234") == 1234
  {
    assert "1234"[..3] == "123";
    assert "123"[..2] == "12";
    assert "12"[..1] == "1";
    assert "1"[..0] == "";
  }

  lemma Value195()
    ensures RemoveCommas("195") == "195" && JsNumber.DigitsValue("195") == 195
  {
    assert "195"[..2] == "19";
    assert "19"[..1] == "1";
    assert "1"[..0] == "";
  }

  lemma Example(t: string, ds: string, n: nat)
    requires RemoveCommas(t) == ds && ds != [] && JsNumber.AllDigits(ds) && JsNumber.DigitsValue(ds) == n
    requires n <= 1000000000
    ensures JsNumber.ParseInt(RemoveCommas(t)) == JsNumber.Finite(n, 0)
  {
    JsNumber.DoubleRange();
    assert JsNumber.Pow10(9) == 1000000000;
    JsNumber.ParseIntOfDigits(ds);
  }
}
