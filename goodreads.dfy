/**
 * The Goodreads route: the "read" shelf's RSS feed is parsed into books,
 * sorted by read date (most recent first, undated last) and cut by the
 * `limit` query parameter.
 */
module Goodreads {
  import opened Wrappers
  import opened Text
  import opened Collections
  import Sorting
  import Scan
  import Feed
  import Http

  datatype Book = Book(title: string, author: string, link: string, imageUrl: Option<string>, readAt: Option<string>)

  const UnknownAuthor := "Unknown Author"

  /** A field with the optional CDATA wrapper, trimmed. */
  function Field(item: string, tag: string): (r: Option<string>)
    ensures r.Some? <==> Scan.CdataField(item, tag).Some?
    ensures r.Some? ==> NoSpaceAtEnds(r.value)
  {
    match Scan.CdataField(item, tag)
    case None => None
    case Some(v) => Some(Trim(v))
  }

  /** `<author_name>([\s\S]*?)</author_name>`: no CDATA handling; trimmed,
   *  with a default. */
  function Author(item: string): (r: string)
    ensures NoSpaceAtEnds(r)
    ensures Scan.Lazy(item, AuthorOpen, AuthorClose, 0).None? ==> r == UnknownAuthor
    ensures var m := Scan.Lazy(item, AuthorOpen, AuthorClose, 0);
            m.Some? ==> r == Trim(Scan.Captured(item, m.value))
  {
    match Scan.Lazy(item, AuthorOpen, AuthorClose, 0)
    case None => UnknownAuthor
    case Some(m) => Trim(item[m.start..m.end])
  }

  const AuthorOpen := Scan.Open("author_name")
  const AuthorClose := Scan.Close("author_name")

  /** The first `<author_name>` is at `p`, and the first `</author_name>`
   *  after it follows `x`: the author is `x`, trimmed. */
  lemma AuthorAt(s: string, p: nat, x: string)
    requires Scan.OccursAt(s, AuthorOpen, p) && forall i: nat :: i < p ==> !Scan.OccursAt(s, AuthorOpen, i)
    requires Scan.OccursAt(s, x, p + |AuthorOpen|) && Scan.OccursAt(s, AuthorClose, p + |AuthorOpen| + |x|)
    requires forall k: nat :: p + |AuthorOpen| <= k < p + |AuthorOpen| + |x| ==> !Scan.OccursAt(s, AuthorClose, k)
    ensures Author(s) == Trim(x)
  {
    Scan.LazyAt(s, AuthorOpen, AuthorClose, 0, p, p + |AuthorOpen| + |x|);
    Scan.OccursAtSlice(s, x, p + |AuthorOpen|);
  }

  /** Round trip: `<author_name>x</author_name>`, with no `<` in `x` and no
   *  earlier `<author_name>`, gives the author `x`, trimmed. */
  lemma AuthorOfTag(pre: string, x: string, rest: string)
    requires forall i :: 0 <= i < |x| ==> x[i] != '<'
    requires forall p: nat :: p < |pre| ==> !Scan.OccursAt(pre + AuthorOpen + x + AuthorClose + rest, AuthorOpen, p)
    ensures Author(pre + AuthorOpen + x + AuthorClose + rest) == Trim(x)
  {
    var o, c := AuthorOpen, AuthorClose;
    var s := pre + o + x + c + rest;
    Scan.OccursBefore2(pre, o, x, c);
    Scan.OccursAtExtend(pre + o + x + c, rest, o, |pre|);
    Scan.OccursBefore2(pre + o, x, c, rest);
    Scan.OccursBefore2(pre + o + x, c, rest, "");
    assert s + "" == s;
    Scan.NoOccurrenceInside(s, x, |pre| + |o|, c);
    AuthorAt(s, |pre|, x);
  }

  /** The author pattern has no CDATA group: an author written as
   *  `<![CDATA[x]]>` keeps its wrapper. */
  lemma AuthorKeepsCdata(pre: string, x: string, rest: string)
    requires Scan.Plain(x)
    requires forall p: nat :: p < |pre| ==>
               !Scan.OccursAt(pre + AuthorOpen + (Scan.CdataStart + x + Scan.CdataEnd) + AuthorClose + rest, AuthorOpen, p)
    ensures Author(pre + AuthorOpen + (Scan.CdataStart + x + Scan.CdataEnd) + AuthorClose + rest)
            == Scan.CdataStart + x + Scan.CdataEnd
  {
    var o, c := AuthorOpen, AuthorClose;
    var w := Scan.CdataStart + x + Scan.CdataEnd;
    var s := pre + o + w + c + rest;
    Scan.OccursBefore2(pre, o, w, c);
    Scan.OccursAtExtend(pre + o + w + c, rest, o, |pre|);
    Scan.OccursBefore2(pre + o, w, c, rest);
    Scan.OccursBefore2(pre + o + w, c, rest, "");
    assert s + "" == s;
    NoCloseInWrapped(s, |pre| + |o|, x);
    AuthorAt(s, |pre|, w);
    TrimFixed(w);
  }

  /** `</author_name>` cannot start inside a CDATA-wrapped plain text. */
  lemma NoCloseInWrapped(s: string, q: nat, x: string)
    requires Scan.Plain(x) && Scan.OccursAt(s, Scan.CdataStart + x + Scan.CdataEnd, q)
    ensures forall k: nat :: q <= k < q + |Scan.CdataStart + x + Scan.CdataEnd| ==> !Scan.OccursAt(s, AuthorClose, k)
  {
    var w := Scan.CdataStart + x + Scan.CdataEnd;
    forall k: nat | q <= k < q + |w| ensures !Scan.OccursAt(s, AuthorClose, k) {
      WrappedCharAt(x, k - q);
      if k == q {
        Scan.OccursAtChar(s, w, q, 1);
        Scan.MismatchAt(s, AuthorClose, k, 1);
      } else {
        Scan.OccursAtChar(s, w, q, k - q);
        Scan.MismatchAt(s, AuthorClose, k, 0);
      }
    }
  }

  /** Past its first character, a CDATA-wrapped plain text holds no `<`. */
  lemma WrappedCharAt(x: string, i: nat)
    requires Scan.Plain(x) && i < |Scan.CdataStart + x + Scan.CdataEnd|
    ensures var w := Scan.CdataStart + x + Scan.CdataEnd;
            w[0] == '<' && w[1] == '!' && (i > 0 ==> w[i] != '<') && w[|w| - 1] == '>'
  {
    var w := Scan.CdataStart + x + Scan.CdataEnd;
    if 9 <= i < 9 + |x| {
      assert w[i] == x[i - 9];
    }
  }

  /** Every text field of a book is trimmed. */
  predicate Normalised(b: Book) {
    && NoSpaceAtEnds(b.title) && NoSpaceAtEnds(b.author) && NoSpaceAtEnds(b.link)
    && (b.imageUrl.Some? ==> NoSpaceAtEnds(b.imageUrl.value))
    && (b.readAt.Some? ==> NoSpaceAtEnds(b.readAt.value))
  }

  predicate HasTitleAndLink(item: string) {
    Scan.CdataField(item, "title").Some? && Scan.CdataField(item, "link").Some?
  }

  /** The book one `<item>` block describes, if it has a title and a link. */
  function BookOf(item: string): (r: Option<Book>)
    ensures r.Some? <==> HasTitleAndLink(item)
    ensures r.Some? ==> Normalised(r.value)
    ensures r.Some? ==> Some(r.value.title) == Field(item, "title") && Some(r.value.link) == Field(item, "link")
                        && r.value.imageUrl == Field(item, "book_large_image_url")
                        && r.value.readAt == Field(item, "user_read_at")
                        && r.value.author == Author(item)
  {
    var title := Field(item, "title");
    var link := Field(item, "link");
    if title.Some? && link.Some? then
      Some(Book(title.value, Author(item), link.value, Field(item, "book_large_image_url"), Field(item, "user_read_at")))
    else None
  }

  /** The book of a block known to have a title and a link. */
  function KeptBook(item: string): Book
    requires HasTitleAndLink(item)
  {
    BookOf(item).value
  }

  function BooksOf(items: seq<string>): seq<Book> {
    if items == [] then []
    else (if BookOf(items[0]).Some? then [BookOf(items[0]).value] else []) + BooksOf(items[1..])
  }

  /** `parseGoodreadsRSS`. */
  function ParseRss(xml: string): seq<Book> {
    BooksOf(Feed.Items(xml, 0))
  }

  /** One book per block that has a title and a link, in block order: the
   *  books are the blocks that qualify, each read by `BookOf`. */
  lemma {:induction false} BooksOfBlocks(items: seq<string>)
    ensures BooksOf(items) == Map(Filter(items, HasTitleAndLink), KeptBook)
  {
    if items != [] {
      var x, rest := items[0], items[1..];
      BooksOfBlocks(rest);
      assert Filter(items, HasTitleAndLink) == (if HasTitleAndLink(x) then [x] else []) + Filter(rest, HasTitleAndLink);
      if HasTitleAndLink(x) {
        MapCons(x, Filter(rest, HasTitleAndLink), KeptBook);
      } else {
        assert [] + Filter(rest, HasTitleAndLink) == Filter(rest, HasTitleAndLink);
      }
    }
  }

  lemma BooksOfCons(x: string, items: seq<string>)
    ensures BooksOf([x] + items) == (if BookOf(x).Some? then [BookOf(x).value] else []) + BooksOf(items)
  {
    assert ([x] + items)[0] == x && ([x] + items)[1..] == items;
  }

  /** At most one book per block, and every book is trimmed. */
  lemma BooksOfBounds(items: seq<string>)
    ensures |BooksOf(items)| <= |items|
    ensures forall b :: b in BooksOf(items) ==> Normalised(b)
  {
    BooksOfBlocks(items);
    var kept := Filter(items, HasTitleAndLink);
    forall b | b in BooksOf(items) ensures Normalised(b) {
      var i :| 0 <= i < |kept| && Map(kept, KeptBook)[i] == b;
      assert b == BookOf(kept[i]).value;
    }
  }

  /** One more block read: the books found so far, extended by this
   *  block's book, followed by the books of the remaining blocks, are
   *  still all the books of the feed. */
  lemma BooksStep(xml: string, from: nat, m: Scan.Match, books: seq<Book>)
    requires Scan.Lazy(xml, Feed.ItemOpen, Feed.ItemClose, from) == Some(m)
    ensures m.start <= m.end <= |xml| && from < m.next <= |xml|
    ensures var book := BookOf(xml[m.start..m.end]);
            var books' := if book.Some? then books + [book.value] else books;
            books' + BooksOf(Feed.Items(xml, m.next)) == books + BooksOf(Feed.Items(xml, from))
  {
    Feed.ItemsStep(xml, from, m);
    var book := BookOf(xml[m.start..m.end]);
    var rest := BooksOf(Feed.Items(xml, m.next));
    BooksOfCons(xml[m.start..m.end], Feed.Items(xml, m.next));
    if book.Some? {
      assert books + [book.value] + rest == books + ([book.value] + rest);
    } else {
      assert [] + rest == rest;
    }
  }

  /** The `while ((match = itemRegex.exec(xmlText)) !== null)` loop. */
  method ParseGoodreadsRss(xml: string) returns (books: seq<Book>)
    ensures books == ParseRss(xml)
  {
    books := [];
    var lastIndex: nat := 0;
    while true
      invariant lastIndex <= |xml|
      invariant books + BooksOf(Feed.Items(xml, lastIndex)) == ParseRss(xml)
      decreases |xml| - lastIndex
    {
      var found := Scan.Lazy(xml, Feed.ItemOpen, Feed.ItemClose, lastIndex);
      if found.None? {
        Feed.ItemsNone(xml, lastIndex);
        assert books + [] == books;
        break;
      }
      var m := found.value;
      BooksStep(xml, lastIndex, m, books);
      var book := BookOf(xml[m.start..m.end]);
      if book.Some? {
        books := books + [book.value];
      }
      lastIndex := m.next;
    }
  }

  /** `!!book.readAt`: an empty `readAt` counts as undated. */
  predicate Dated(b: Book) { Http.Truthy(b.readAt) }

  /** The sort comparator returns a negative number, so `a` goes first:
   *  `a` is dated and `b` is not, or both dates parse and `a`'s is later.
   *  A date that does not parse makes the difference NaN, which counts
   *  as a tie. */
  predicate ReadBefore(time: string -> Option<int>, a: Book, b: Book) {
    Dated(a) && (!Dated(b) || (time(a.readAt.value).Some? && time(b.readAt.value).Some?
                              && time(b.readAt.value).value - time(a.readAt.value).value < 0))
  }

  function SortByReadDate(books: seq<Book>, time: string -> Option<int>): (r: seq<Book>)
    ensures multiset(r) == multiset(books)
  {
    Sorting.Sort(books, (a, b) => ReadBefore(time, a, b))
  }

  /** Every book's date parses, or it has none. */
  predicate DatesParse(books: seq<Book>, time: string -> Option<int>) {
    forall b :: b in books && Dated(b) ==> time(b.readAt.value).Some?
  }

  function Time(b: Book, time: string -> Option<int>): int
    requires Dated(b) && time(b.readAt.value).Some?
  {
    time(b.readAt.value).value
  }

  lemma ReadBeforeStrictWeak(books: seq<Book>, time: string -> Option<int>)
    requires DatesParse(books, time)
    ensures Sorting.StrictWeakOn(Sorting.Elements(books), (a, b) => ReadBefore(time, a, b))
  {
  }

  /** With every date parsing, dated books come before undated ones and
   *  dated books are in non-increasing date order. */
  lemma SortedByReadDate(books: seq<Book>, time: string -> Option<int>)
    requires DatesParse(books, time)
    ensures var r := SortByReadDate(books, time);
            forall i, j :: 0 <= i < j < |r| ==>
              (Dated(r[j]) ==> Dated(r[i]))
              && (Dated(r[j]) ==> Time(r[i], time) >= Time(r[j], time))
  {
    var before := (a, b) => ReadBefore(time, a, b);
    ReadBeforeStrictWeak(books, time);
    Sorting.SortSorted(books, before);
    var r := SortByReadDate(books, time);
    forall i, j | 0 <= i < j < |r| && Dated(r[j])
      ensures Dated(r[i]) && Time(r[i], time) >= Time(r[j], time)
    {
      assert r[i] in multiset(books) && r[j] in multiset(books);
      assert !before(r[j], r[i]);
    }
  }

  /** What the comparator sees of a book. */
  datatype ReadKey = Undated | Unparsed | ReadOn(time: int)

  function KeyOf(b: Book, time: string -> Option<int>): ReadKey {
    if !Dated(b) then Undated
    else if time(b.readAt.value).None? then Unparsed
    else ReadOn(time(b.readAt.value).value)
  }

  /** Stability: books the comparator cannot tell apart (undated ones,
   *  ones with the same date) keep their feed order. */
  lemma TiesKeepFeedOrder(books: seq<Book>, time: string -> Option<int>, k: ReadKey)
    ensures Filter(SortByReadDate(books, time), b => KeyOf(b, time) == k) == Filter(books, b => KeyOf(b, time) == k)
  {
    Sorting.SortStable(books, (a, b) => ReadBefore(time, a, b), b => KeyOf(b, time) == k);
  }

  const NotConfigured := "Goodreads credentials not configured"
  const LoadFailed := "Failed to load Goodreads data"

  /** The JSON body: `{books}` on success, `{error}` or `{error, books: []}`
   *  on failure. */
  datatype Body = Books(books: seq<Book>) | Failure(error: string, books': Option<seq<Book>>)

  function RssUrl(userId: string, username: string): string {
    "https://www.goodreads.com/review/list_rss/" + userId + "-" + username
  }

  /** `GET`: the URLs fetched and the response, for the configured user
   *  and `fetch`'s answer. */
  function Get(userId: Option<string>, username: Option<string>, limit: Option<string>,
               fetch: string -> Http.Fetched, time: string -> Option<int>): (r: (seq<string>, Http.Response<Body>))
    ensures !Http.Truthy(userId) || !Http.Truthy(username) ==>
              r.0 == [] && r.1 == Http.Response(500, Failure(NotConfigured, None), None)
    ensures Http.Truthy(userId) && Http.Truthy(username) ==> r.0 == [RssUrl(userId.value, username.value)]
    ensures |r.0| == 1 && !fetch(r.0[0]).Ok() ==> r.1 == Http.Response(500, Failure(LoadFailed, Some([])), None)
    ensures r.1.status == 200 <==> |r.0| == 1 && fetch(r.0[0]).Ok()
    ensures r.1.status == 200 ==>
              var feed := ParseRss(fetch(r.0[0]).body);
              && r.1.cacheControl == Some(Http.FeedCache)
              && r.1.body == Books(Feed.ApplyLimit(SortByReadDate(feed, time), Feed.Limit(limit)))
              && multiset(r.1.body.books) <= multiset(feed)
  {
    if !Http.Truthy(userId) || !Http.Truthy(username) then
      ([], Http.Response(500, Failure(NotConfigured, None), None))
    else
      var url := RssUrl(userId.value, username.value);
      var reply := fetch(url);
      if !reply.Ok() then ([url], Http.Response(500, Failure(LoadFailed, Some([])), None))
      else
        var sorted := SortByReadDate(ParseRss(reply.body), time);
        var result := Feed.ApplyLimit(sorted, Feed.Limit(limit));
        PrefixSubMultiset(result, sorted);
        ([url], Http.Response(200, Books(result), Some(Http.FeedCache)))
  }

  lemma PrefixSubMultiset<T>(p: seq<T>, s: seq<T>)
    requires p <= s
    ensures multiset(p) <= multiset(s)
  {
    assert s == p + s[|p|..];
  }
}
