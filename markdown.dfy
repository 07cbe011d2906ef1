/**
 * The blog's Markdown renderer: how an image source written in a post is
 * turned into a site path, which headings are drawn, and how a `code`
 * element is classified as highlighted, plain block or inline code.
 */
module Markdown {
  import opened Wrappers
  import Text
  import Scan

  const DotImages := "./images/"
  const Images := "images/"
  const BlogImages := "/blog/images/"

  /** `normalizeBlogImageSrc`: a post's relative image path becomes a path
   *  under `/blog/images/`; an undefined or empty source becomes `""`. */
  function NormalizeBlogImageSrc(src: Option<string>): (r: string)
    ensures r == "" <==> src.None? || src.value == ""
  {
    if src.None? || src.value == "" then ""
    else
      var t := Text.Trim(src.value);
      if Text.StartsWith(t, DotImages) then BlogImages + t[|DotImages|..]
      else if Text.StartsWith(t, Images) then BlogImages + t[|Images|..]
      else if Text.StartsWith(t, BlogImages) then t
      else src.value
  }

  /** A path under `/blog/images/` that trimming keeps is kept. */
  lemma BlogPathKept(o: string)
    requires Text.StartsWith(o, BlogImages) && Text.Trim(o) == o
    ensures NormalizeBlogImageSrc(Some(o)) == o
  {
    NotRelative(o);
    NormalizeThird(o);
  }

  lemma NotRelative(o: string)
    requires Text.StartsWith(o, BlogImages)
    ensures o != "" && !Text.StartsWith(o, DotImages) && !Text.StartsWith(o, Images)
  {
    assert o[0] == BlogImages[0];
    DiffersAtFirst(o, DotImages);
    DiffersAtFirst(o, Images);
  }

  lemma NormalizeThird(src: string)
    requires src != "" && Text.Trim(src) == src
    requires !Text.StartsWith(src, DotImages) && !Text.StartsWith(src, Images)
    ensures NormalizeBlogImageSrc(Some(src)) == src
  {
  }

  lemma DiffersAtFirst(s: string, prefix: string)
    requires s != [] && prefix != [] && s[0] != prefix[0]
    ensures !Text.StartsWith(s, prefix)
  {
  }

  /** What a prefix branch returns is such a path. */
  lemma PrefixedPath(t: string, k: nat)
    requires Text.NoSpaceAtEnds(t) && 0 < k <= |t|
    ensures Text.StartsWith(BlogImages + t[k..], BlogImages)
    ensures Text.NoSpaceAtEnds(BlogImages + t[k..])
  {
    var o := BlogImages + t[k..];
    if k < |t| { assert o[|o| - 1] == t[|t| - 1]; }
  }

  /** Normalising twice is normalising once. */
  lemma NormalizeIdempotent(src: Option<string>)
    ensures NormalizeBlogImageSrc(Some(NormalizeBlogImageSrc(src))) == NormalizeBlogImageSrc(src)
  {
    if src.Some? && src.value != "" {
      var t := Text.Trim(src.value);
      if Text.StartsWith(t, DotImages) {
        PrefixedPath(t, |DotImages|);
        Text.TrimFixed(BlogImages + t[|DotImages|..]);
        BlogPathKept(BlogImages + t[|DotImages|..]);
      } else if Text.StartsWith(t, Images) {
        PrefixedPath(t, |Images|);
        Text.TrimFixed(BlogImages + t[|Images|..]);
        BlogPathKept(BlogImages + t[|Images|..]);
      } else if Text.StartsWith(t, BlogImages) {
        Text.TrimIdempotent(src.value);
        BlogPathKept(t);
      }
    }
  }

  /** Every relative source ends up under `/blog/images/`. */
  lemma RelativeSourcesAreBlogPaths(src: string)
    requires Text.StartsWith(Text.Trim(src), DotImages) || Text.StartsWith(Text.Trim(src), Images)
    ensures Text.StartsWith(NormalizeBlogImageSrc(Some(src)), BlogImages)
  {
  }

  /** `./images/x`, with any white space around it, becomes
   *  `/blog/images/x`. */
  lemma NormalizeDotImages(a: string, x: string, b: string)
    requires forall i :: 0 <= i < |a| ==> Text.IsSpace(a[i])
    requires forall i :: 0 <= i < |b| ==> Text.IsSpace(b[i])
    requires Text.NoSpaceAtEnds(x)
    ensures NormalizeBlogImageSrc(Some(a + DotImages + x + b)) == BlogImages + x
  {
    var m := DotImages + x;
    PrefixedText(DotImages, x);
    assert a + DotImages + x + b == a + m + b;
    Text.TrimPadded(a, m, b);
    assert m[|DotImages|..] == x;
  }

  /** `images/x`, with any white space around it, becomes `/blog/images/x`. */
  lemma NormalizeImages(a: string, x: string, b: string)
    requires forall i :: 0 <= i < |a| ==> Text.IsSpace(a[i])
    requires forall i :: 0 <= i < |b| ==> Text.IsSpace(b[i])
    requires Text.NoSpaceAtEnds(x)
    ensures NormalizeBlogImageSrc(Some(a + Images + x + b)) == BlogImages + x
  {
    var m := Images + x;
    PrefixedText(Images, x);
    assert a + Images + x + b == a + m + b;
    Text.TrimPadded(a, m, b);
    DiffersAtFirst(m, DotImages);
    assert m[|Images|..] == x;
  }

  /** `/blog/images/x`, with any white space around it, comes back trimmed. */
  lemma NormalizeBlogImages(a: string, x: string, b: string)
    requires forall i :: 0 <= i < |a| ==> Text.IsSpace(a[i])
    requires forall i :: 0 <= i < |b| ==> Text.IsSpace(b[i])
    requires Text.NoSpaceAtEnds(x)
    ensures NormalizeBlogImageSrc(Some(a + BlogImages + x + b)) == BlogImages + x
  {
    var m := BlogImages + x;
    PrefixedText(BlogImages, x);
    assert a + BlogImages + x + b == a + m + b;
    Text.TrimPadded(a, m, b);
    NotRelative(m);
  }

  /** Any other source is returned as it was given, white space included. */
  lemma NormalizeOther(s: string)
    requires !Text.StartsWith(Text.Trim(s), DotImages)
    requires !Text.StartsWith(Text.Trim(s), Images)
    requires !Text.StartsWith(Text.Trim(s), BlogImages)
    ensures NormalizeBlogImageSrc(Some(s)) == s
  {
  }

  /** A prefix without space at its ends, then a text without space at its
   *  ends, has none at its ends either. */
  lemma PrefixedText(prefix: string, x: string)
    requires prefix != [] && Text.NoSpaceAtEnds(prefix) && Text.NoSpaceAtEnds(x)
    ensures Text.NoSpaceAtEnds(prefix + x) && Text.StartsWith(prefix + x, prefix)
  {
    var m := prefix + x;
    assert m[0] == prefix[0];
    if x != [] { assert m[|m| - 1] == x[|x| - 1]; } else { assert m == prefix; }
  }

  /** An `<Image>` of the rendered post. */
  datatype Image = Image(src: string, alt: string, width: int, height: int)

  /** The `img` renderer: nothing when the source normalises to `""`; a
   *  source or `alt` that is not a string counts as absent. */
  function Img(src: Option<string>, alt: Option<string>): (r: Option<Image>)
    ensures r.None? <==> src.None? || src.value == ""
    ensures r.Some? ==> r.value == Image(NormalizeBlogImageSrc(src), alt.GetOr(""), 800, 500)
  {
    var resolved := NormalizeBlogImageSrc(src);
    if resolved == "" then None else Some(Image(resolved, alt.GetOr(""), 800, 500))
  }

  /** A rendered heading: its tag and class names. */
  datatype Heading = Heading(tag: string, className: string)

  /** The heading renderers: `h1` renders nothing (the page draws the title
   *  itself), `h2` and `h3` are styled, deeper levels keep the default. */
  function RenderHeading(depth: nat): (r: Option<Heading>)
    requires 1 <= depth <= 6
    ensures r.None? <==> depth == 1
    ensures r.Some? ==> r.value.tag == "h" + [('0' as int + depth) as char]
  {
    if depth == 1 then None
    else if depth == 2 then Some(Heading("h2", "text-2xl font-semibold mb-3 mt-6"))
    else if depth == 3 then Some(Heading("h3", "text-xl font-semibold mb-2 mt-4"))
    else Some(Heading("h" + [('0' as int + depth) as char], ""))
  }

  const LanguagePrefix := "language-"

  /** `\w`. */
  predicate IsWordChar(c: char) {
    ('a' <= c <= 'z') || ('A' <= c <= 'Z') || ('0' <= c <= '9') || c == '_'
  }

  /** Where the greedy `\w+` starting at `j` stops. */
  function WordEnd(s: string, j: nat): (e: nat)
    requires j <= |s|
    ensures j <= e <= |s|
    ensures forall k :: j <= k < e ==> IsWordChar(s[k])
    ensures e == |s| || !IsWordChar(s[e])
    decreases |s| - j
  {
    if j < |s| && IsWordChar(s[j]) then WordEnd(s, j + 1) else j
  }

  /** `/language-(\w+)/` can match at `i`. */
  predicate LanguageAt(cls: string, i: nat) {
    Scan.OccursAt(cls, LanguagePrefix, i) && i + |LanguagePrefix| < |cls| && IsWordChar(cls[i + |LanguagePrefix|])
  }

  /** The capture of `/language-(\w+)/.exec(cls)` searching from `from`:
   *  the word after the leftmost `language-` that has one. */
  function Language(cls: string, from: nat): (r: Option<string>)
    ensures r.None? <==> forall i: nat :: from <= i ==> !LanguageAt(cls, i)
    ensures r.Some? ==> exists i: nat :: from <= i && LanguageAt(cls, i) && (forall j: nat :: from <= j < i ==> !LanguageAt(cls, j))
                                  && r.value == cls[i + |LanguagePrefix|..WordEnd(cls, i + |LanguagePrefix|)]
    ensures r.Some? ==> r.value != [] && forall k :: 0 <= k < |r.value| ==> IsWordChar(r.value[k])
    decreases |cls| - from
  {
    if from + |LanguagePrefix| >= |cls| then None
    else if LanguageAt(cls, from) then
      Some(cls[from + |LanguagePrefix|..WordEnd(cls, from + |LanguagePrefix|)])
    else Language(cls, from + 1)
  }

  /** `s.replace(/\n$/, "")`: one final newline is dropped. */
  function DropFinalNewline(s: string): (r: string)
    ensures Text.EndsWith(s, "\n") ==> r + "\n" == s
    ensures !Text.EndsWith(s, "\n") ==> r == s
  {
    if |s| > 0 && s[|s| - 1] == '\n' then s[..|s| - 1] else s
  }

  /** The three ways the `code` renderer draws its content. */
  datatype Code =
    | Highlighted(language: string, text: string)
    | Block(text: string)
    | Inline(text: string)

  /** The `code` renderer, given the element's class name (if any) and its
   *  text. */
  function ClassifyCode(className: Option<string>, children: string): Code {
    var cls := className.GetOr("");
    match Language(cls, 0)
    case Some(language) => Highlighted(language, DropFinalNewline(children))
    case None => if '\n' in children || cls != "" then Block(children) else Inline(children)
  }

  /** A `language-<word>` class selects the highlighter; otherwise a newline
   *  or any class name means a plain block, and only text on one line
   *  without a class name is inline. */
  lemma ClassifyCodeMeaning(className: Option<string>, children: string)
    ensures var cls := className.GetOr("");
            var c := ClassifyCode(className, children);
            && (c.Highlighted? <==> exists i: nat :: LanguageAt(cls, i))
            && (c.Block? <==> (forall i: nat :: !LanguageAt(cls, i)) && ('\n' in children || cls != ""))
            && (c.Inline? <==> '\n' !in children && cls == "")
            && (c.Highlighted? ==> c.language != "" && c.text + (if Text.EndsWith(children, "\n") then "\n" else "") == children)
            && (!c.Highlighted? ==> c.text == children)
  {
    var cls := className.GetOr("");
    if cls == "" {
      assert forall i: nat :: !LanguageAt(cls, i);
    }
  }

  lemma LanguageOfClass(cls: string, lang: string)
    requires lang != [] && forall k :: 0 <= k < |lang| ==> IsWordChar(lang[k])
    requires cls == LanguagePrefix + lang
    ensures Language(cls, 0) == Some(lang)
  {
    var n := |LanguagePrefix|;
    assert |cls| == n + |lang| && cls[n..] == lang;
    assert LanguageAt(cls, 0) by {
      assert cls[..n] == LanguagePrefix;
      assert cls[n] == lang[0];
    }
    var e := WordEnd(cls, n);
    assert e == |cls|;
    assert cls[n..e] == lang;
    LanguageAtStart(cls);
  }

  lemma LanguageAtStart(cls: string)
    requires LanguageAt(cls, 0)
    ensures Language(cls, 0) == Some(cls[|LanguagePrefix|..WordEnd(cls, |LanguagePrefix|)])
  {
  }

  /** A fenced block marked `ts` is highlighted as `ts`, without the newline
   *  the parser leaves at its end. */
  lemma FencedBlockExample()
    ensures ClassifyCode(Some("language-ts"), "let x = 1;\n") == Highlighted("ts", "let x = 1;")
  {
    LanguageOfClass("language-ts", "ts");
  }
}
