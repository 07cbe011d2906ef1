/** The site's navigation bar and which of its links is marked active. */
module Navigation {
  import Text

  datatype Item = Item(name: string, href: string)

  const Items := [Item("Home", "/"), Item("About", "/about"), Item("Photos", "/photos"), Item("Blog", "/blog")]

  /** `isActive`: the exact path, or any page under `/blog/` for the blog
   *  link. */
  predicate IsActive(pathname: string, href: string) {
    pathname == href || (href == "/blog" && Text.StartsWith(pathname, "/blog/"))
  }

  /** Which links are highlighted; the desktop and the mobile menu compute
   *  the same flags. */
  function ActiveFlags(pathname: string): (r: seq<bool>)
    ensures |r| == |Items| && forall k :: 0 <= k < |Items| ==> (r[k] <==> IsActive(pathname, Items[k].href))
  {
    seq(|Items|, k requires 0 <= k < |Items| => IsActive(pathname, Items[k].href))
  }

  lemma NotUnderBlog(s: string)
    requires |s| < 6 || s[1] != 'b'
    ensures !Text.StartsWith(s, "/blog/")
  {
  }

  /** Home is active on `/` and nowhere else. */
  lemma HomeOnlyAtRoot(pathname: string)
    ensures IsActive(pathname, "/") <==> pathname == "/"
  {
  }

  /** At most one link is active, whatever the path. */
  lemma AtMostOneActive(pathname: string, j: nat, k: nat)
    requires j < |Items| && k < |Items|
    requires IsActive(pathname, Items[j].href) && IsActive(pathname, Items[k].href)
    ensures j == k
  {
    if Text.StartsWith(pathname, "/blog/") {
      assert pathname[1] == 'b';
      assert "/about"[1] == 'a' && "/photos"[1] == 'p';
    }
  }

  /** A photo page highlights nothing; a blog post highlights only the blog
   *  link. */
  lemma Examples()
    ensures ActiveFlags("/photos/x") == [false, false, false, false]
    ensures ActiveFlags("/blog/hello") == [false, false, false, true]
  {
    assert "/photos/x"[1] == 'p';
    NotUnderBlog("/photos/x");
    assert "/blog/hello"[..6] == "/blog/";
  }
}
