/**
 * The tag index route: every distinct non-empty tag used on any photo, in
 * sorted order, cached publicly for visitors and not at all for the admin.
 */
module PhotoTags {
  import opened Wrappers
  import opened Collections
  import opened Sorting
  import Http
  import Store

  const AdminCache := "private, no-store, max-age=0"
  const PublicCache := "public, s-maxage=300, stale-while-revalidate=600, max-age=60"
  const LoadFailed := "Failed to load tags"

  /** `r.tags ?? []`. */
  function TagsOf(row: Store.PhotoRow): seq<string> {
    row.tags.GetOr([])
  }

  predicate NonEmpty(s: string) { s != "" }

  /** `[...new Set(rows.flatMap(r => r.tags ?? []).filter(Boolean))].sort()`. */
  function TagIndex(rows: seq<Store.PhotoRow>): seq<string> {
    SortedSet(Filter(Flatten(Map(rows, TagsOf)), NonEmpty))
  }

  /** Some row carries tag `t`. */
  predicate Used(rows: seq<Store.PhotoRow>, t: string) {
    exists k :: 0 <= k < |rows| && t in TagsOf(rows[k])
  }

  /** The index is sorted and duplicate-free; every tag in it is used on
   *  some row (sound), and every non-empty tag of every row is in it
   *  (complete). */
  lemma TagIndexMeaning(rows: seq<Store.PhotoRow>)
    ensures StrictlyIncreasing(TagIndex(rows))
    ensures forall t :: t in TagIndex(rows) <==> t != "" && Used(rows, t)
  {
    var tagLists := Map(rows, TagsOf);
    FilterMembers(Flatten(tagLists), NonEmpty);
    forall t ensures (exists k :: 0 <= k < |tagLists| && t in tagLists[k]) <==> Used(rows, t) {
      if Used(rows, t) {
        var k :| 0 <= k < |rows| && t in TagsOf(rows[k]);
        assert t in tagLists[k];
      }
    }
  }

  lemma UsedOfPermutation(rows: seq<Store.PhotoRow>, rows': seq<Store.PhotoRow>, t: string)
    requires multiset(rows) == multiset(rows') && Used(rows, t)
    ensures Used(rows', t)
  {
    var k :| 0 <= k < |rows| && t in TagsOf(rows[k]);
    assert rows[k] in multiset(rows');
    var k' :| 0 <= k' < |rows'| && rows'[k'] == rows[k];
  }

  /** The index depends only on which tags are used, not on the order the
   *  rows come back in. */
  lemma TagIndexIgnoresOrder(rows: seq<Store.PhotoRow>, rows': seq<Store.PhotoRow>)
    requires multiset(rows) == multiset(rows')
    ensures TagIndex(rows) == TagIndex(rows')
  {
    TagIndexMeaning(rows);
    TagIndexMeaning(rows');
    forall t ensures Used(rows, t) <==> Used(rows', t) {
      if Used(rows, t) { UsedOfPermutation(rows, rows', t); }
      if Used(rows', t) { UsedOfPermutation(rows', rows, t); }
    }
    IncreasingUnique(TagIndex(rows), TagIndex(rows'));
  }

  datatype Body = Tags(tags: seq<string>) | Failed(error: string)

  /** `GET`: the signed-in user, if any, and the outcome of the query. */
  function Get(user: Option<Store.User>, query: Store.Query<Store.PhotoRow>): (r: Http.Response<Body>)
    ensures query.QueryError? <==> r.status == 500
    ensures query.QueryError? ==> r.body == Failed(LoadFailed) && r.cacheControl.None?
    ensures query.Data? ==> r.body == Tags(TagIndex(Store.RowsOf(query)))
    ensures query.Data? ==>
              r.cacheControl == Some(if Store.AppAdmin(user) then AdminCache else PublicCache)
  {
    match query
    case QueryError => Http.Response(500, Failed(LoadFailed), None)
    case Data(_) =>
      Http.Response(200, Tags(TagIndex(Store.RowsOf(query))),
                    Some(if Store.AppAdmin(user) then AdminCache else PublicCache))
  }

  /** Only an admin's answer is kept out of shared caches. */
  lemma CacheByRole(user: Option<Store.User>, rows: seq<Store.PhotoRow>)
    ensures var r := Get(user, Store.Data(Some(rows)));
            r.cacheControl == Some(AdminCache) <==> user.Some? && user.value.appRole == Some("admin")
  {
  }
}
