/**
 * Blog posts: Markdown files in one directory, each with front matter. The
 * directory listing and a reader that gives the parsed front matter and body
 * of a file (or fails) are inputs.
 */
module Blog {
  import opened Wrappers
  import Text
  import opened Collections
  import Sorting

  /** What gray-matter makes of a post file: `data.title`, `data.date`,
   *  `data.excerpt` and the Markdown body. */
  datatype Matter = Matter(title: string, date: string, excerpt: Option<string>, content: string)

  datatype Post = Post(slug: string, title: string, date: string, excerpt: Option<string>, content: string)

  const Extension := ".md"

  predicate IsMarkdown(name: string) {
    Text.EndsWith(name, Extension)
  }

  /** `name.replace(/\.md$/, "")`: one trailing `.md` removed. */
  function Slug(name: string): (slug: string)
    ensures IsMarkdown(name) ==> slug + Extension == name
    ensures !IsMarkdown(name) ==> slug == name
  {
    if IsMarkdown(name) then name[..|name| - |Extension|] else name
  }

  /** Round trip: the file of a slug is named by the slug. */
  lemma SlugOfFileName(slug: string)
    ensures IsMarkdown(slug + Extension) && Slug(slug + Extension) == slug
  {
    var n := slug + Extension;
    assert n[|n| - |Extension|..] == Extension;
    assert n[..|n| - |Extension|] == slug;
  }

  function PostOf(slug: string, m: Matter): Post {
    Post(slug, m.title, m.date, m.excerpt, m.content)
  }

  /** The `.map` over the Markdown files, in listing order; `None` when a
   *  read throws, which `getAllBlogPosts` does not catch. */
  function LoadAll(names: seq<string>, read: string -> Option<Matter>): (r: Option<seq<Post>>)
    ensures r.None? <==> exists i :: 0 <= i < |names| && read(names[i]).None?
    ensures r.Some? ==> |r.value| == |names|
                        && forall i :: 0 <= i < |names| ==> r.value[i] == PostOf(Slug(names[i]), read(names[i]).value)
  {
    if names == [] then Some([])
    else
      var rest := LoadAll(names[1..], read);
      assert forall i :: 1 <= i < |names| ==> names[1..][i - 1] == names[i];
      if read(names[0]).None? then None
      else if rest.None? then None
      else Some([PostOf(Slug(names[0]), read(names[0]).value)] + rest.value)
  }

  /** The comparator `(a, b) => (a.date < b.date ? 1 : -1)` puts `a` first
   *  exactly when `b`'s date is earlier. */
  predicate Later(a: Post, b: Post) {
    Text.Less(b.date, a.date)
  }

  lemma LaterStrictWeak(e: set<Post>)
    ensures Sorting.StrictWeakOn(e, Later)
  {
    var dates := set p | p in e :: p.date;
    Sorting.LessStrictWeak(dates);
    forall a, b | a in e && b in e && Later(a, b) ensures !Later(b, a) {
      assert a.date in dates && b.date in dates;
    }
    forall a, b, c | a in e && b in e && c in e && !Later(a, b) && !Later(b, c) ensures !Later(a, c) {
      assert a.date in dates && b.date in dates && c.date in dates;
    }
  }

  /** `getAllBlogPosts`: `listing` is what `readdirSync` gives for the
   *  posts directory, `None` when it throws. */
  function AllBlogPosts(listing: Option<seq<string>>, read: string -> Option<Matter>): Option<seq<Post>> {
    if listing.None? then None
    else
      match LoadAll(Filter(listing.value, IsMarkdown), read)
      case None => None
      case Some(posts) => Some(Sorting.Sort(posts, Later))
  }

  /** The posts are those of the Markdown files, each once, ordered by
   *  non-increasing date; a directory that cannot be listed, or a file that
   *  cannot be read, makes the call throw. */
  lemma AllBlogPostsMeaning(listing: Option<seq<string>>, read: string -> Option<Matter>)
    ensures listing.None? ==> AllBlogPosts(listing, read).None?
    ensures listing.Some? ==>
              var md := Filter(listing.value, IsMarkdown);
              AllBlogPosts(listing, read).None? <==> exists i :: 0 <= i < |md| && read(md[i]).None?
    ensures var r := AllBlogPosts(listing, read);
            r.Some? ==>
              && listing.Some?
              && multiset(r.value) == multiset(LoadAll(Filter(listing.value, IsMarkdown), read).value)
              && (forall i, j :: 0 <= i < j < |r.value| ==> !Text.Less(r.value[i].date, r.value[j].date))
              && (forall p :: p in r.value ==> p.slug + Extension in listing.value)
  {
    if listing.Some? {
      var names := listing.value;
      var md := Filter(names, IsMarkdown);
      FilterMembers(names, IsMarkdown);
      var loaded := LoadAll(md, read);
      assert AllBlogPosts(listing, read).None? <==> loaded.None?;
      if loaded.Some? {
        var r := Sorting.Sort(loaded.value, Later);
        LaterStrictWeak(Sorting.Elements(loaded.value));
        Sorting.SortSorted(loaded.value, Later);
        forall p | p in r ensures p.slug + Extension in names {
          assert p in loaded.value;
          var i :| 0 <= i < |loaded.value| && loaded.value[i] == p;
          assert md[i] in md;
        }
      }
    }
  }

  /** `getBlogPost(slug)`: `None` is the `null` returned when the file
   *  cannot be read or parsed. */
  function BlogPost(slug: string, read: string -> Option<Matter>): (r: Option<Post>)
    ensures r.None? <==> read(slug + Extension).None?
    ensures r.Some? ==> r.value.slug == slug
  {
    match read(slug + Extension)
    case None => None
    case Some(m) => Some(PostOf(slug, m))
  }

  /** Every post in the listing is what `getBlogPost` gives for its slug. */
  lemma ListedPostsAreFound(listing: Option<seq<string>>, read: string -> Option<Matter>, p: Post)
    requires AllBlogPosts(listing, read).Some? && p in AllBlogPosts(listing, read).value
    ensures BlogPost(p.slug, read) == Some(p)
  {
    var md := Filter(listing.value, IsMarkdown);
    var loaded := LoadAll(md, read).value;
    assert p in loaded;
    var i :| 0 <= i < |loaded| && loaded[i] == p;
    assert md[i] in md;
    SlugOfFileName(Slug(md[i]));
  }

  /** `getRecentBlogPosts(count = 3)`. */
  function RecentBlogPosts(listing: Option<seq<string>>, read: string -> Option<Matter>, count: int := 3): Option<seq<Post>> {
    match AllBlogPosts(listing, read)
    case None => None
    case Some(posts) => Some(Prefix(posts, count))
  }

  /** The recent posts are the newest `min(count, n)` posts, in order; by
   *  default three. */
  lemma RecentBlogPostsMeaning(listing: Option<seq<string>>, read: string -> Option<Matter>, count: nat)
    ensures RecentBlogPosts(listing, read, count).Some? <==> AllBlogPosts(listing, read).Some?
    ensures var all := AllBlogPosts(listing, read);
            all.Some? ==>
              var r := RecentBlogPosts(listing, read, count).value;
              r <= all.value && |r| == Min(count, |all.value|)
    ensures RecentBlogPosts(listing, read) == RecentBlogPosts(listing, read, 3)
  {
  }
}
