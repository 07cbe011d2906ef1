/**
 * Literal scanners for the few regular expressions the feed parsers use.
 * Each follows the JavaScript engine's own search order: the leftmost
 * starting position wins, a lazy `*?` stops at the first place where the
 * rest of the pattern matches, and `.` does not match a line terminator.
 */
module Scan {
  import opened Wrappers
  import Text

  /** The characters of `pat` from index `k` on stand in `s` from `i + k`
   *  on. */
  predicate MatchesFrom(s: string, pat: string, i: nat, k: nat)
    decreases |pat| - k
  {
    k >= |pat| || (i + k < |s| && s[i + k] == pat[k] && MatchesFrom(s, pat, i, k + 1))
  }

  /** `pat` occurs in `s` starting at index `i`. */
  predicate OccursAt(s: string, pat: string, i: nat) {
    i + |pat| <= |s| && MatchesFrom(s, pat, i, 0)
  }

  lemma {:induction false} MatchesFromChar(s: string, pat: string, i: nat, j: nat, k: nat)
    requires MatchesFrom(s, pat, i, j) && j <= k < |pat|
    ensures i + k < |s| && s[i + k] == pat[k]
    decreases k - j
  {
    if j < k {
      MatchesFromChar(s, pat, i, j + 1, k);
    }
  }

  lemma {:induction false} MatchesFromChars(s: string, pat: string, i: nat, j: nat)
    requires i + |pat| <= |s| && forall k :: j <= k < |pat| ==> s[i + k] == pat[k]
    ensures MatchesFrom(s, pat, i, j)
    decreases |pat| - j
  {
    if j < |pat| {
      MatchesFromChars(s, pat, i, j + 1);
    }
  }

  lemma OccursAtHead(s: string, pat: string, i: nat)
    requires OccursAt(s, pat, i) && |pat| > 0
    ensures s[i] == pat[0]
  {
  }

  /** Each character of an occurrence matches. */
  lemma OccursAtChar(s: string, pat: string, i: nat, k: nat)
    requires OccursAt(s, pat, i) && k < |pat|
    ensures s[i + k] == pat[k]
  {
    MatchesFromChar(s, pat, i, 0, k);
  }

  /** Equal characters at every place of `pat` make an occurrence. */
  lemma OccursAtChars(s: string, pat: string, i: nat)
    requires i + |pat| <= |s| && forall k :: 0 <= k < |pat| ==> s[i + k] == pat[k]
    ensures OccursAt(s, pat, i)
  {
    MatchesFromChars(s, pat, i, 0);
  }

  /** An occurrence is a slice of `s` equal to `pat`. */
  lemma OccursAtSlice(s: string, pat: string, i: nat)
    ensures OccursAt(s, pat, i) <==> i + |pat| <= |s| && s[i..i + |pat|] == pat
  {
    if OccursAt(s, pat, i) {
      forall k | 0 <= k < |pat| ensures s[i..i + |pat|][k] == pat[k] {
        OccursAtChar(s, pat, i, k);
      }
    }
    if i + |pat| <= |s| && s[i..i + |pat|] == pat {
      forall k | 0 <= k < |pat| ensures s[i + k] == pat[k] {
        assert s[i..i + |pat|][k] == s[i + k];
      }
      OccursAtChars(s, pat, i);
    }
  }

  lemma OccursAtConcat(s: string, a: string, b: string, i: nat)
    ensures OccursAt(s, a + b, i) <==> OccursAt(s, a, i) && OccursAt(s, b, i + |a|)
  {
    if OccursAt(s, a + b, i) {
      forall k | 0 <= k < |a| ensures s[i + k] == a[k] {
        OccursAtChar(s, a + b, i, k);
      }
      forall k | 0 <= k < |b| ensures s[i + |a| + k] == b[k] {
        OccursAtChar(s, a + b, i, |a| + k);
      }
      OccursAtChars(s, a, i);
      OccursAtChars(s, b, i + |a|);
    }
    if OccursAt(s, a, i) && OccursAt(s, b, i + |a|) {
      forall k | 0 <= k < |a| + |b| ensures s[i + k] == (a + b)[k] {
        if k < |a| { OccursAtChar(s, a, i, k); } else { OccursAtChar(s, b, i + |a|, k - |a|); }
      }
      OccursAtChars(s, a + b, i);
    }
  }

  /** A pattern found inside one part of a string is found at the same
   *  place in the whole. */
  lemma OccursAtShift(pre: string, s: string, post: string, pat: string, i: nat)
    ensures OccursAt(s, pat, i) ==> OccursAt(pre + s + post, pat, |pre| + i)
    ensures i + |pat| <= |s| ==> (OccursAt(pre + s + post, pat, |pre| + i) <==> OccursAt(s, pat, i))
  {
    if i + |pat| <= |s| {
      OccursAtSlice(s, pat, i);
      OccursAtSlice(pre + s + post, pat, |pre| + i);
      assert (pre + s + post)[|pre| + i..|pre| + i + |pat|] == s[i..i + |pat|];
    }
  }

  /** `s.indexOf(pat, from)`, written with `None` for "not found". */
  function IndexOf(s: string, pat: string, from: nat): (r: Option<nat>)
    ensures r.Some? ==> from <= r.value && OccursAt(s, pat, r.value)
    decreases |s| - from
  {
    if |s| < from + |pat| then None
    else if OccursAt(s, pat, from) then Some(from)
    else IndexOf(s, pat, from + 1)
  }

  /** `IndexOf` finds the first occurrence, and reports none only when
   *  there is none. */
  lemma {:induction false} IndexOfLeftmost(s: string, pat: string, from: nat)
    ensures var r := IndexOf(s, pat, from);
            r.Some? ==> forall i: nat :: from <= i < r.value ==> !OccursAt(s, pat, i)
    ensures IndexOf(s, pat, from).None? ==> forall i: nat :: from <= i ==> !OccursAt(s, pat, i)
    decreases |s| - from
  {
    if |s| >= from + |pat| && !OccursAt(s, pat, from) {
      IndexOfLeftmost(s, pat, from + 1);
    }
  }

  /** The first index from `from` on where `a` or `b` occurs. */
  function IndexOfEither(s: string, a: string, b: string, from: nat): (r: Option<nat>)
    ensures r.Some? ==> from <= r.value && (OccursAt(s, a, r.value) || OccursAt(s, b, r.value))
    decreases |s| - from
  {
    if |s| < from then None
    else if OccursAt(s, a, from) || OccursAt(s, b, from) then Some(from)
    else IndexOfEither(s, a, b, from + 1)
  }

  /** `IndexOfEither` finds the first place where either pattern occurs. */
  lemma {:induction false} IndexOfEitherLeftmost(s: string, a: string, b: string, from: nat)
    ensures var r := IndexOfEither(s, a, b, from);
            r.Some? ==> forall i: nat :: from <= i < r.value ==> !OccursAt(s, a, i) && !OccursAt(s, b, i)
    ensures IndexOfEither(s, a, b, from).None? ==> forall i: nat :: from <= i ==> !OccursAt(s, a, i) && !OccursAt(s, b, i)
    decreases |s| - from
  {
    if |s| >= from && !OccursAt(s, a, from) && !OccursAt(s, b, from) {
      IndexOfEitherLeftmost(s, a, b, from + 1);
    }
  }

  /** A match of one regular expression: it starts at `at`, the capture is
   *  `s[start..end]`, and the whole match ends at `next` (the next
   *  `lastIndex` of a global search). */
  datatype Match = Match(at: nat, start: nat, end: nat, next: nat)

  /** `open([\s\S]*?)close` can match at `p`: `open` is there and `close`
   *  occurs somewhere after it. */
  ghost predicate LazyCandidate(s: string, open: string, close: string, p: nat) {
    OccursAt(s, open, p) && exists e: nat :: p + |open| <= e && OccursAt(s, close, e)
  }

  /** The regular expression `open([\s\S]*?)close`, searched from `from`:
   *  the leftmost `open` that has a `close` after it, and the first such
   *  `close` (`LazyLeftmost`). */
  function Lazy(s: string, open: string, close: string, from: nat): (r: Option<Match>)
    ensures r.Some? ==> from <= r.value.at && r.value.start == r.value.at + |open| <= r.value.end
                        && r.value.next == r.value.end + |close| <= |s|
    decreases |s| - from
  {
    match IndexOf(s, open, from)
    case None => None
    case Some(p) =>
      match IndexOf(s, close, p + |open|)
      case Some(e) => Some(Match(p, p + |open|, e, e + |close|))
      case None => Lazy(s, open, close, p + 1)
  }

  /** `Lazy` follows the regular expression's semantics: the match starts at
   *  the leftmost candidate, the capture ends at the first `close` after
   *  the opener, and there is no match only when there is no candidate. */
  lemma {:induction false} LazyLeftmost(s: string, open: string, close: string, from: nat)
    ensures var r := Lazy(s, open, close, from);
            r.Some? ==> LazyCandidate(s, open, close, r.value.at)
                        && (forall p: nat :: from <= p < r.value.at ==> !LazyCandidate(s, open, close, p))
                        && OccursAt(s, close, r.value.end)
                        && forall e: nat :: r.value.start <= e < r.value.end ==> !OccursAt(s, close, e)
    ensures Lazy(s, open, close, from).None? ==> forall p: nat :: from <= p ==> !LazyCandidate(s, open, close, p)
    decreases |s| - from
  {
    IndexOfLeftmost(s, open, from);
    match IndexOf(s, open, from)
    case None =>
    case Some(p) =>
      IndexOfLeftmost(s, close, p + |open|);
      match IndexOf(s, close, p + |open|)
      case Some(e) =>
      case None => LazyLeftmost(s, open, close, p + 1);
  }

  /** The leftmost `open` from `from` on is at `p`, and the first `close`
   *  after it is at `e`: that is the match. */
  lemma LazyAt(s: string, open: string, close: string, from: nat, p: nat, e: nat)
    requires from <= p && OccursAt(s, open, p) && forall i: nat :: from <= i < p ==> !OccursAt(s, open, i)
    requires p + |open| <= e && OccursAt(s, close, e)
    requires forall k: nat :: p + |open| <= k < e ==> !OccursAt(s, close, k)
    ensures Lazy(s, open, close, from) == Some(Match(p, p + |open|, e, e + |close|))
  {
    IndexOfIs(s, open, from, p);
    IndexOfIs(s, close, p + |open|, e);
  }

  /** The captured text of a match found by `Lazy`. */
  function Captured(s: string, m: Match): string
    requires m.start <= m.end <= |s|
  {
    s[m.start..m.end]
  }

  function Open(tag: string): string { "<" + tag + ">" }

  function Close(tag: string): string { "</" + tag + ">" }

  const CdataStart := "<![CDATA["
  const CdataEnd := "]]>"

  /** The part of `(?:<!\[CDATA\[)?([\s\S]*?)(?:\]\]>)?close` after the
   *  opening tag, tried at `q`: the bounds of the capture. The optional
   *  CDATA opener is taken when present; the lazy capture stops at the
   *  first `]]>close` or `close`; only when that fails is the opener given
   *  back. */
  function CaptureAt(s: string, close: string, q: nat): (r: Option<(nat, nat)>)
    requires |close| > 0
    ensures r.Some? ==> q <= r.value.0 <= r.value.1 <= |s|
  {
    var inner := if OccursAt(s, CdataStart, q)
                 then IndexOfEither(s, CdataEnd + close, close, q + |CdataStart|)
                 else None;
    var outer := IndexOfEither(s, CdataEnd + close, close, q);
    if inner.Some? then Some((q + |CdataStart|, inner.value))
    else if outer.Some? then Some((q, outer.value))
    else None
  }

  /** The capture never contains the closing tag. */
  lemma CaptureAtHasNoClose(s: string, close: string, q: nat)
    requires |close| > 0 && CaptureAt(s, close, q).Some?
    ensures var r := CaptureAt(s, close, q).value;
            forall k: nat :: !OccursAt(s[r.0..r.1], close, k)
  {
    var inner := if OccursAt(s, CdataStart, q)
                 then IndexOfEither(s, CdataEnd + close, close, q + |CdataStart|)
                 else None;
    var outer := IndexOfEither(s, CdataEnd + close, close, q);
    if inner.Some? {
      IndexOfEitherLeftmost(s, CdataEnd + close, close, q + |CdataStart|);
      CaptureHasNoClose(s, close, q + |CdataStart|, inner.value);
    } else {
      IndexOfEitherLeftmost(s, CdataEnd + close, close, q);
      CaptureHasNoClose(s, close, q, outer.value);
    }
  }

  /** The tail matches exactly when a closing tag follows. */
  lemma CaptureAtFindsClose(s: string, close: string, q: nat)
    requires |close| > 0
    ensures CaptureAt(s, close, q).Some? <==> exists e: nat :: q <= e && OccursAt(s, close, e)
  {
    var inner := if OccursAt(s, CdataStart, q)
                 then IndexOfEither(s, CdataEnd + close, close, q + |CdataStart|)
                 else None;
    var outer := IndexOfEither(s, CdataEnd + close, close, q);
    if inner.Some? {
      EitherGivesClose(s, close, inner.value);
    } else if outer.Some? {
      EitherGivesClose(s, close, outer.value);
    } else {
      IndexOfEitherLeftmost(s, CdataEnd + close, close, q);
    }
  }

  /** The regular expression
   *  `<tag>(?:<!\[CDATA\[)?([\s\S]*?)(?:\]\]>)?<\/tag>`, searched from
   *  `from`: the first `<tag>` at which the rest matches. */
  function CdataFieldFrom(s: string, tag: string, from: nat): (r: Option<string>)
    ensures r.Some? ==> forall k: nat :: !OccursAt(r.value, Close(tag), k)
    decreases |s| - from
  {
    var found := IndexOf(s, Open(tag), from);
    if found.None? then None
    else
      var p := found.value;
      var cap := CaptureAt(s, Close(tag), p + |Open(tag)|);
      if cap.Some? then
        CaptureAtHasNoClose(s, Close(tag), p + |Open(tag)|);
        Some(s[cap.value.0..cap.value.1])
      else CdataFieldFrom(s, tag, p + 1)
  }

  /** The search fails exactly when no `<tag>` from `from` on is followed
   *  by a closing tag. */
  lemma {:induction false} CdataFieldFromMeaning(s: string, tag: string, from: nat)
    ensures CdataFieldFrom(s, tag, from).None? <==> forall p: nat :: from <= p ==> !LazyCandidate(s, Open(tag), Close(tag), p)
    decreases |s| - from
  {
    var found := IndexOf(s, Open(tag), from);
    IndexOfLeftmost(s, Open(tag), from);
    if found.Some? {
      var p := found.value;
      CaptureAtFindsClose(s, Close(tag), p + |Open(tag)|);
      if CaptureAt(s, Close(tag), p + |Open(tag)|).Some? {
        assert LazyCandidate(s, Open(tag), Close(tag), p);
      } else {
        assert !LazyCandidate(s, Open(tag), Close(tag), p);
        CdataFieldFromMeaning(s, tag, p + 1);
      }
    }
  }

  lemma EitherGivesClose(s: string, close: string, e: nat)
    requires OccursAt(s, CdataEnd + close, e) || OccursAt(s, close, e)
    ensures exists e': nat :: e <= e' && OccursAt(s, close, e')
  {
    OccursAtConcat(s, CdataEnd, close, e);
    if !OccursAt(s, close, e) {
      assert OccursAt(s, close, e + |CdataEnd|);
    }
  }

  lemma CaptureHasNoClose(s: string, close: string, c: nat, e: nat)
    requires c <= e <= |s| && |close| > 0
    requires forall i: nat :: c <= i < e ==> !OccursAt(s, close, i)
    ensures forall k: nat :: !OccursAt(s[c..e], close, k)
  {
    forall k: nat ensures !OccursAt(s[c..e], close, k) {
      if OccursAt(s[c..e], close, k) {
        forall j | 0 <= j < |close| ensures s[c + k + j] == close[j] {
          OccursAtChar(s[c..e], close, k, j);
        }
        OccursAtChars(s, close, c + k);
      }
    }
  }

  /** One mismatching character rules an occurrence out. */
  lemma MismatchAt(s: string, pat: string, i: nat, k: nat)
    requires k < |pat| && i + k < |s| && s[i + k] != pat[k]
    ensures !OccursAt(s, pat, i)
  {
    if OccursAt(s, pat, i) {
      OccursAtChar(s, pat, i, k);
    }
  }

  /** `s.match(/<tag>(?:<!\[CDATA\[)?([\s\S]*?)(?:\]\]>)?<\/tag>/)?.[1]`. */
  function CdataField(s: string, tag: string): (r: Option<string>)
    ensures r.Some? ==> forall k: nat :: !OccursAt(r.value, Close(tag), k)
  {
    CdataFieldFrom(s, tag, 0)
  }

  /** There is no match exactly when no `<tag>` is followed by `</tag>`. */
  lemma CdataFieldMeaning(s: string, tag: string)
    ensures CdataField(s, tag).None? <==> forall p: nat :: !LazyCandidate(s, Open(tag), Close(tag), p)
  {
    CdataFieldFromMeaning(s, tag, 0);
  }

  /** Text with no `<` and no `]`: it cannot hide a closing tag or a CDATA
   *  terminator. */
  predicate Plain(x: string) {
    forall i :: 0 <= i < |x| ==> x[i] != '<' && x[i] != ']'
  }

  /** The first occurrence from `from` on is the one `IndexOf` reports. */
  lemma {:induction false} IndexOfIs(s: string, pat: string, from: nat, p: nat)
    requires from <= p && OccursAt(s, pat, p)
    requires forall i: nat :: from <= i < p ==> !OccursAt(s, pat, i)
    ensures IndexOf(s, pat, from) == Some(p)
    decreases p - from
  {
    if from < p {
      IndexOfIs(s, pat, from + 1, p);
    }
  }

  /** With no occurrence from `from` on, `IndexOf` reports none. */
  lemma {:induction false} IndexOfNone(s: string, pat: string, from: nat)
    requires forall i: nat :: from <= i ==> !OccursAt(s, pat, i)
    ensures IndexOf(s, pat, from).None?
    decreases |s| - from
  {
    if |s| >= from + |pat| {
      IndexOfNone(s, pat, from + 1);
    }
  }

  lemma {:induction false} IndexOfEitherIs(s: string, a: string, b: string, from: nat, e: nat)
    requires from <= e && (OccursAt(s, a, e) || OccursAt(s, b, e))
    requires forall i: nat :: from <= i < e ==> !OccursAt(s, a, i) && !OccursAt(s, b, i)
    ensures IndexOfEither(s, a, b, from) == Some(e)
    decreases e - from
  {
    if from < e {
      IndexOfEitherIs(s, a, b, from + 1, e);
    }
  }

  /** A pattern cannot start inside text that lacks its first character. */
  lemma NoOccurrenceInside(s: string, x: string, c: nat, pat: string)
    requires OccursAt(s, x, c) && |pat| > 0
    requires forall i :: 0 <= i < |x| ==> x[i] != pat[0]
    ensures forall i: nat :: c <= i < c + |x| ==> !OccursAt(s, pat, i)
  {
    forall i: nat | c <= i < c + |x| ensures !OccursAt(s, pat, i) {
      OccursAtChar(s, x, c, i - c);
      MismatchAt(s, pat, i, 0);
    }
  }

  /** Inside plain text neither `]]></tag>` nor `</tag>` can start. */
  lemma PlainHidesClose(s: string, tag: string, c: nat, x: string)
    requires OccursAt(s, x, c) && Plain(x)
    ensures forall i: nat :: c <= i < c + |x| ==> !OccursAt(s, CdataEnd + Close(tag), i) && !OccursAt(s, Close(tag), i)
  {
    forall i: nat | c <= i < c + |x|
      ensures !OccursAt(s, CdataEnd + Close(tag), i) && !OccursAt(s, Close(tag), i)
    {
      OccursAtChar(s, x, c, i - c);
      MismatchAt(s, CdataEnd + Close(tag), i, 0);
      MismatchAt(s, Close(tag), i, 0);
    }
  }

  /** After plain text the first terminator is the one that follows it. */
  lemma PlainCloseAt(s: string, tag: string, c: nat, x: string)
    requires OccursAt(s, x, c) && Plain(x)
    requires OccursAt(s, CdataEnd + Close(tag), c + |x|) || OccursAt(s, Close(tag), c + |x|)
    ensures IndexOfEither(s, CdataEnd + Close(tag), Close(tag), c) == Some(c + |x|)
  {
    PlainHidesClose(s, tag, c, x);
    IndexOfEitherIs(s, CdataEnd + Close(tag), Close(tag), c, c + |x|);
  }

  /** `b` is found where it was appended. */
  lemma OccursAtEnd(a: string, b: string)
    ensures OccursAt(a + b, b, |a|)
  {
    OccursAtChars(a + b, b, |a|);
  }

  /** Appending text keeps an occurrence. */
  lemma OccursAtExtend(t: string, c: string, pat: string, i: nat)
    requires OccursAt(t, pat, i)
    ensures OccursAt(t + c, pat, i)
  {
    forall k | 0 <= k < |pat| ensures (t + c)[i + k] == pat[k] {
      OccursAtChar(t, pat, i, k);
    }
    OccursAtChars(t + c, pat, i);
  }

  /** `pat` appended to `t`, then followed by `c1` and `c2`. */
  lemma OccursBefore2(t: string, pat: string, c1: string, c2: string)
    ensures OccursAt(t + pat + c1 + c2, pat, |t|)
  {
    OccursAtEnd(t, pat);
    OccursAtExtend(t + pat, c1, pat, |t|);
    OccursAtExtend(t + pat + c1, c2, pat, |t|);
  }

  /** The first `<tag>` is at `p` and wraps `x` in CDATA. */
  lemma CdataFieldAt(s: string, tag: string, p: nat, x: string)
    requires OccursAt(s, Open(tag), p) && forall i: nat :: i < p ==> !OccursAt(s, Open(tag), i)
    requires OccursAt(s, CdataStart, p + |Open(tag)|)
    requires OccursAt(s, x, p + |Open(tag)| + |CdataStart|)
    requires OccursAt(s, CdataEnd + Close(tag), p + |Open(tag)| + |CdataStart| + |x|)
    requires Plain(x)
    ensures CdataField(s, tag) == Some(x)
  {
    var c := p + |Open(tag)| + |CdataStart|;
    IndexOfIs(s, Open(tag), 0, p);
    PlainCloseAt(s, tag, c, x);
    CdataCapture(s, Close(tag), p + |Open(tag)|, c + |x|);
    CdataFieldFound(s, tag, p, c, x);
  }

  /** After a CDATA opener the capture runs to the first terminator. */
  lemma CdataCapture(s: string, close: string, q: nat, e: nat)
    requires |close| > 0 && OccursAt(s, CdataStart, q)
    requires IndexOfEither(s, CdataEnd + close, close, q + |CdataStart|) == Some(e)
    ensures CaptureAt(s, close, q) == Some((q + |CdataStart|, e))
  {
  }

  /** The first `<tag>` is at `p` and the capture after it is `x`. */
  lemma CdataFieldFound(s: string, tag: string, p: nat, c: nat, x: string)
    requires IndexOf(s, Open(tag), 0) == Some(p)
    requires CaptureAt(s, Close(tag), p + |Open(tag)|) == Some((c, c + |x|))
    requires OccursAt(s, x, c)
    ensures CdataField(s, tag) == Some(x)
  {
    OccursAtSlice(s, x, c);
    var r := CdataFieldFrom(s, tag, 0);
    assert r == Some(s[c..c + |x|]);
  }

  /** The first `<tag>` is at `p` and holds `x` as it is. */
  lemma CdataFieldBareAt(s: string, tag: string, p: nat, x: string)
    requires OccursAt(s, Open(tag), p) && forall i: nat :: i < p ==> !OccursAt(s, Open(tag), i)
    requires OccursAt(s, x, p + |Open(tag)|)
    requires OccursAt(s, Close(tag), p + |Open(tag)| + |x|)
    requires Plain(x)
    ensures CdataField(s, tag) == Some(x)
  {
    var q := p + |Open(tag)|;
    IndexOfIs(s, Open(tag), 0, p);
    BareCapture(s, tag, q, x);
    CdataFieldFound(s, tag, p, q, x);
  }

  /** Round trip: a field written as `<tag><![CDATA[x]]></tag>` after text
   *  without an earlier `<tag>` reads back as `x`. */
  lemma CdataFieldOfWrapped(pre: string, tag: string, x: string, rest: string)
    requires Plain(x)
    requires forall p: nat :: p < |pre| ==> !OccursAt(pre + Open(tag) + CdataStart + x + CdataEnd + Close(tag) + rest, Open(tag), p)
    ensures CdataField(pre + Open(tag) + CdataStart + x + CdataEnd + Close(tag) + rest, tag) == Some(x)
  {
    var o := Open(tag);
    var c := Close(tag);
    var t1 := pre + o + CdataStart;
    var t2 := t1 + x + CdataEnd;
    OccursBefore2(pre, o, CdataStart, x);
    OccursAtExtend(t1 + x, CdataEnd, o, |pre|);
    OccursAtExtend(t2, c, o, |pre|);
    OccursAtExtend(t2 + c, rest, o, |pre|);
    OccursBefore2(pre + o, CdataStart, x, CdataEnd);
    OccursAtExtend(t2, c, CdataStart, |pre + o|);
    OccursAtExtend(t2 + c, rest, CdataStart, |pre + o|);
    OccursBefore2(t1, x, CdataEnd, c);
    OccursAtExtend(t2 + c, rest, x, |t1|);
    OccursBefore2(t1 + x, CdataEnd, c, rest);
    OccursBefore2(t2, c, rest, "");
    assert t2 + c + rest + "" == t2 + c + rest;
    OccursAtConcat(t2 + c + rest, CdataEnd, c, |t1 + x|);
    CdataFieldAt(t2 + c + rest, tag, |pre|, x);
  }

  lemma NoCdataBeforePlain(s: string, tag: string, q: nat, x: string)
    requires OccursAt(s, x, q) && OccursAt(s, Close(tag), q + |x|) && Plain(x)
    ensures !OccursAt(s, CdataStart, q)
  {
    if x != [] {
      OccursAtChar(s, x, q, 0);
      MismatchAt(s, CdataStart, q, 0);
    } else {
      OccursAtChar(s, Close(tag), q, 1);
      MismatchAt(s, CdataStart, q, 1);
    }
  }

  /** Round trip: a field written as `<tag>x</tag>` reads back as `x`. */
  lemma CdataFieldOfBare(pre: string, tag: string, x: string, rest: string)
    requires Plain(x)
    requires forall p: nat :: p < |pre| ==> !OccursAt(pre + Open(tag) + x + Close(tag) + rest, Open(tag), p)
    ensures CdataField(pre + Open(tag) + x + Close(tag) + rest, tag) == Some(x)
  {
    var o := Open(tag);
    var c := Close(tag);
    OccursBefore2(pre, o, x, c);
    OccursAtExtend(pre + o + x + c, rest, o, |pre|);
    OccursBefore2(pre + o, x, c, rest);
    OccursBefore2(pre + o + x, c, rest, "");
    assert pre + o + x + c + rest + "" == pre + o + x + c + rest;
    CdataFieldBareAt(pre + o + x + c + rest, tag, |pre|, x);
  }

  lemma BareCapture(s: string, tag: string, q: nat, x: string)
    requires OccursAt(s, x, q) && OccursAt(s, Close(tag), q + |x|) && Plain(x)
    ensures CaptureAt(s, Close(tag), q) == Some((q, q + |x|))
  {
    NoCdataBeforePlain(s, tag, q, x);
    PlainCloseAt(s, tag, q, x);
  }

  /** No line terminator in `s[from..to]`. */
  ghost predicate SingleLine(s: string, from: nat, to: nat)
    requires to <= |s|
  {
    forall j :: from <= j < to ==> !Text.IsLineTerminator(s[j])
  }

  /** `open(.*?)close` can match at `p`: `close` follows `open` on the same
   *  line. */
  ghost predicate LineCandidate(s: string, open: string, close: string, p: nat) {
    OccursAt(s, open, p)
    && exists e: nat :: p + |open| <= e && OccursAt(s, close, e) && SingleLine(s, p + |open|, e)
  }

  /** The lazy `(.*?)close` tail from `k`: the first `close` reached
   *  before any line terminator. */
  function LineUntil(s: string, close: string, k: nat): (r: Option<nat>)
    ensures r.Some? ==> k <= r.value && OccursAt(s, close, r.value)
    decreases |s| - k
  {
    if OccursAt(s, close, k) then Some(k)
    else if k < |s| && !Text.IsLineTerminator(s[k]) then LineUntil(s, close, k + 1)
    else None
  }

  /** `LineUntil` stops at the first `close` and crosses no line
   *  terminator; it fails only when every `close` lies past one. */
  lemma {:induction false} LineUntilMeaning(s: string, close: string, k: nat)
    ensures var r := LineUntil(s, close, k);
            r.Some? ==> SingleLine(s, k, r.value) && forall e: nat :: k <= e < r.value ==> !OccursAt(s, close, e)
    ensures LineUntil(s, close, k).None? ==> forall e: nat :: k <= e && OccursAt(s, close, e) ==> !SingleLine(s, k, e)
    decreases |s| - k
  {
    if !OccursAt(s, close, k) && k < |s| && !Text.IsLineTerminator(s[k]) {
      LineUntilMeaning(s, close, k + 1);
    }
  }

  /** `s.match(/open(.*?)close/)?.[1]`, searched from `from`. */
  function LineFieldFrom(s: string, open: string, close: string, from: nat): (r: Option<string>)
    requires |close| > 0
    ensures r.Some? ==> forall j :: 0 <= j < |r.value| ==> !Text.IsLineTerminator(r.value[j])
    ensures r.Some? ==> forall k: nat :: !OccursAt(r.value, close, k)
    decreases |s| - from
  {
    match IndexOf(s, open, from)
    case None => None
    case Some(p) =>
      match LineUntil(s, close, p + |open|)
      case Some(e) =>
        LineUntilMeaning(s, close, p + |open|);
        CaptureHasNoClose(s, close, p + |open|, e);
        Some(s[p + |open|..e])
      case None => LineFieldFrom(s, open, close, p + 1)
  }

  /** The search fails exactly when no `open` from `from` on is followed by
   *  `close` on the same line. */
  lemma {:induction false} LineFieldFromMeaning(s: string, open: string, close: string, from: nat)
    requires |close| > 0
    ensures LineFieldFrom(s, open, close, from).None? <==> forall p: nat :: from <= p ==> !LineCandidate(s, open, close, p)
    decreases |s| - from
  {
    IndexOfLeftmost(s, open, from);
    match IndexOf(s, open, from)
    case None =>
    case Some(p) =>
      LineUntilMeaning(s, close, p + |open|);
      match LineUntil(s, close, p + |open|)
      case Some(e) =>
        assert LineCandidate(s, open, close, p);
      case None =>
        LineFieldFromMeaning(s, open, close, p + 1);
  }

  /** `s.match(/<tag>(.*?)<\/tag>/)?.[1]`. */
  function LineField(s: string, tag: string): (r: Option<string>)
    ensures r.Some? ==> forall j :: 0 <= j < |r.value| ==> !Text.IsLineTerminator(r.value[j])
  {
    LineFieldFrom(s, Open(tag), Close(tag), 0)
  }

  /** There is no match exactly when no `<tag>` is followed by `</tag>` on
   *  the same line. */
  lemma LineFieldMeaning(s: string, tag: string)
    ensures LineField(s, tag).None? <==> forall p: nat :: !LineCandidate(s, Open(tag), Close(tag), p)
  {
    LineFieldFromMeaning(s, Open(tag), Close(tag), 0);
  }

  /** Round trip: `<tag>x</tag>` with `x` on one line and without `<`
   *  reads back as `x`. */
  lemma LineFieldOfBare(pre: string, tag: string, x: string, rest: string)
    requires forall i :: 0 <= i < |x| ==> x[i] != '<' && !Text.IsLineTerminator(x[i])
    requires forall p: nat :: p < |pre| ==> !OccursAt(pre + Open(tag) + x + Close(tag) + rest, Open(tag), p)
    ensures LineField(pre + Open(tag) + x + Close(tag) + rest, tag) == Some(x)
  {
    var o := Open(tag);
    var c := Close(tag);
    OccursBefore2(pre, o, x, c);
    OccursAtExtend(pre + o + x + c, rest, o, |pre|);
    OccursBefore2(pre + o, x, c, rest);
    OccursBefore2(pre + o + x, c, rest, "");
    assert pre + o + x + c + rest + "" == pre + o + x + c + rest;
    LineFieldBareAt(pre + o + x + c + rest, tag, |pre|, x);
  }

  /** The first `<tag>` is at `p` and holds `x`, which is on one line. */
  lemma LineFieldBareAt(s: string, tag: string, p: nat, x: string)
    requires OccursAt(s, Open(tag), p) && forall i: nat :: i < p ==> !OccursAt(s, Open(tag), i)
    requires OccursAt(s, x, p + |Open(tag)|)
    requires OccursAt(s, Close(tag), p + |Open(tag)| + |x|)
    requires forall i :: 0 <= i < |x| ==> x[i] != '<' && !Text.IsLineTerminator(x[i])
    ensures LineField(s, tag) == Some(x)
  {
    var q := p + |Open(tag)|;
    IndexOfIs(s, Open(tag), 0, p);
    assert Close(tag)[0] == '<';
    forall j | q <= j < q + |x| ensures s[j] != Close(tag)[0] && !Text.IsLineTerminator(s[j]) {
      OccursAtChar(s, x, q, j - q);
    }
    LineUntilIs(s, Close(tag), q, q + |x|);
    LineFieldFound(s, tag, p, x);
  }

  /** The first `<tag>` is at `p` and the capture after it is `x`. */
  lemma LineFieldFound(s: string, tag: string, p: nat, x: string)
    requires IndexOf(s, Open(tag), 0) == Some(p)
    requires LineUntil(s, Close(tag), p + |Open(tag)|) == Some(p + |Open(tag)| + |x|)
    requires OccursAt(s, x, p + |Open(tag)|)
    ensures LineField(s, tag) == Some(x)
  {
    OccursAtSlice(s, x, p + |Open(tag)|);
    var r := LineFieldFrom(s, Open(tag), Close(tag), 0);
    assert r == Some(s[p + |Open(tag)|..p + |Open(tag)| + |x|]);
  }

  lemma {:induction false} LineUntilIs(s: string, close: string, k: nat, e: nat)
    requires k <= e <= |s| && OccursAt(s, close, e) && |close| > 0
    requires forall j :: k <= j < e ==> s[j] != close[0] && !Text.IsLineTerminator(s[j])
    ensures LineUntil(s, close, k) == Some(e)
    decreases e - k
  {
    if k < e {
      if OccursAt(s, close, k) { OccursAtHead(s, close, k); }
      LineUntilIs(s, close, k + 1, e);
    }
  }

  /** In `<tag>x</tag>`, with no `<` in `tag` or `x`, a `<` stands only at
   *  the two tag starts. */
  lemma NoAngleElsewhere(tag: string, x: string, j: nat)
    requires forall i :: 0 <= i < |tag| ==> tag[i] != '<'
    requires forall i :: 0 <= i < |x| ==> x[i] != '<'
    requires j < |Open(tag) + x + Close(tag)| && j != 0 && j != |Open(tag)| + |x|
    ensures (Open(tag) + x + Close(tag))[j] != '<'
  {
    var s := Open(tag) + x + Close(tag);
    var q := |Open(tag)|;
    if j < q {
      assert s[j] == Open(tag)[j];
      if j <= |tag| { assert Open(tag)[j] == tag[j - 1]; }
    } else if j < q + |x| {
      assert s[j] == x[j - q];
    } else {
      var k := j - q - |x|;
      assert s[j] == Close(tag)[k];
      if 2 <= k < |tag| + 2 { assert Close(tag)[k] == tag[k - 2]; }
    }
  }

  lemma {:induction false} LineUntilStops(s: string, close: string, k: nat, t: nat)
    requires k <= t < |s| && Text.IsLineTerminator(s[t]) && |close| > 0
    requires forall j :: k <= j <= t ==> s[j] != close[0]
    ensures LineUntil(s, close, k).None?
    decreases t - k
  {
    MismatchAt(s, close, k, 0);
    if k < t { LineUntilStops(s, close, k + 1, t); }
  }

  /** A value broken over two lines is no match for `(.*?)`, where the
   *  `[\s\S]*?` of the CDATA-aware fields still reads it. */
  lemma LineFieldRejectsLineBreak(tag: string, x: string, t: nat)
    requires forall i :: 0 <= i < |tag| ==> tag[i] != '<' && tag[i] != '/'
    requires forall i :: 0 <= i < |x| ==> x[i] != '<'
    requires t < |x| && Text.IsLineTerminator(x[t])
    ensures LineField(Open(tag) + x + Close(tag), tag).None?
  {
    var s := Open(tag) + x + Close(tag);
    var q := |Open(tag)|;
    assert s[0..q] == Open(tag);
    OccursAtSlice(s, Open(tag), 0);
    IndexOfIs(s, Open(tag), 0, 0);
    forall j | q <= j <= q + t ensures s[j] != Close(tag)[0] {
      assert s[j] == x[j - q];
    }
    LineUntilStops(s, Close(tag), q, q + t);
    forall i: nat | 1 <= i ensures !OccursAt(s, Open(tag), i) {
      if i < |s| {
        if i != q + |x| {
          NoAngleElsewhere(tag, x, i);
          MismatchAt(s, Open(tag), i, 0);
        } else if i + 1 < |s| {
          assert s[i + 1] == Close(tag)[1] == '/';
          if tag != [] { assert Open(tag)[1] == tag[0]; }
          MismatchAt(s, Open(tag), i, 1);
        }
      }
    }
    IndexOfNone(s, Open(tag), 1);
    assert LineFieldFrom(s, Open(tag), Close(tag), 1).None?;
    assert LineFieldFrom(s, Open(tag), Close(tag), 0) == LineFieldFrom(s, Open(tag), Close(tag), 1);
  }
}
