/**
 * The batch-tag route: an admin adds a list of tags to a set of photos.
 * The tags are normalised, each photo's tags become the sorted,
 * duplicate-free union of its old and new tags, and the rows are written
 * back one at a time until one write fails.
 */
module BatchTags {
  import opened Wrappers
  import Text
  import opened Collections
  import opened Sorting
  import Http
  import opened Json
  import Store

  const NotAuthorized := "Not authorized"
  const EmptyInput := "ids and tagsToAdd must be non-empty arrays"
  const UpdateFailed := "Failed to update tags"

  /** `s.trim().length > 0`. */
  predicate NotBlank(s: string) { Text.Trim(s) != "" }

  /** `t.trim().toLowerCase()`. */
  function Normalise(t: string): string { Text.ToLower(Text.Trim(t)) }

  /** The strings of a JSON array whose every item is a string; `None` when
   *  an item is not, since calling `trim` on it throws. */
  function Strings(items: seq<Json>): (r: Option<seq<string>>)
    ensures r.Some? <==> forall i :: 0 <= i < |items| ==> items[i].JStr?
    ensures r.Some? ==> |r.value| == |items| && forall i :: 0 <= i < |items| ==> r.value[i] == items[i].s
  {
    if forall i :: 0 <= i < |items| ==> items[i].JStr? then
      Some(seq(|items|, i requires 0 <= i < |items| => items[i].s))
    else None
  }

  /** `body.ids.filter(id => id.trim().length > 0)`; `None` when it throws
   *  because `ids` is not an array of strings. */
  function Ids(body: Json): Option<seq<string>> {
    match Member(Some(body), "ids")
    case Some(JArr(items)) =>
      (match Strings(items)
       case Some(ids) => Some(Filter(ids, NotBlank))
       case None => None)
    case _ => None
  }

  /** The normalised tags of `tagsToAdd`: `[]` when it is not an array,
   *  `None` when an item is not a string. */
  function TagsToAdd(body: Json): Option<seq<string>> {
    match Member(Some(body), "tagsToAdd")
    case Some(JArr(items)) =>
      (match Strings(items)
       case Some(tags) => Some(Map(Filter(tags, NotBlank), Normalise))
       case None => None)
    case _ => Some([])
  }

  /** Ids are kept, as sent, exactly when they are not blank. */
  lemma IdsMeaning(body: Json, items: seq<Json>)
    requires Member(Some(body), "ids") == Some(JArr(items))
    requires forall i :: 0 <= i < |items| ==> items[i].JStr?
    ensures Ids(body).Some?
    ensures forall id :: id in Ids(body).value <==> JStr(id) in items && NotBlank(id)
  {
    var ids := Strings(items).value;
    FilterMembers(ids, NotBlank);
    forall id ensures id in ids <==> JStr(id) in items {
      if id in ids {
        var i :| 0 <= i < |ids| && ids[i] == id;
        assert items[i] == JStr(id);
      }
      if JStr(id) in items {
        var i :| 0 <= i < |items| && items[i] == JStr(id);
        assert ids[i] == id;
      }
    }
  }

  /** Every tag to add is non-empty, trimmed and lower-case. */
  lemma {:induction false} NormalisedTags(body: Json)
    requires TagsToAdd(body).Some?
    ensures forall t :: t in TagsToAdd(body).value ==>
              t != "" && Text.NoSpaceAtEnds(t) && Text.IsLower(t)
  {
    forall t | t in TagsToAdd(body).value ensures t != "" && Text.NoSpaceAtEnds(t) && Text.IsLower(t) {
      var items := Member(Some(body), "tagsToAdd").value.items;
      var kept := Filter(Strings(items).value, NotBlank);
      var i :| 0 <= i < |kept| && Map(kept, Normalise)[i] == t;
      assert NotBlank(kept[i]);
      Text.ToLowerKeepsTrim(Text.Trim(kept[i]));
      Text.ToLowerIsLower(Text.Trim(kept[i]));
    }
  }

  /** `[...new Set([...(tags ?? []), ...add])].sort()`. */
  function Merge(current: Option<seq<string>>, add: seq<string>): (r: seq<string>)
    ensures StrictlyIncreasing(r)
    ensures forall t :: t in r <==> t in current.GetOr([]) || t in add
  {
    SortedSet(current.GetOr([]) + add)
  }

  /** Adding the same tags again changes nothing. */
  lemma MergeIdempotent(current: Option<seq<string>>, add: seq<string>)
    ensures Merge(Some(Merge(current, add)), add) == Merge(current, add)
  {
    IncreasingUnique(Merge(Some(Merge(current, add)), add), Merge(current, add));
  }

  /** Two batches in turn add what one batch of both would. */
  lemma MergeTwice(current: Option<seq<string>>, a: seq<string>, b: seq<string>)
    ensures Merge(Some(Merge(current, a)), b) == Merge(current, a + b)
  {
    IncreasingUnique(Merge(Some(Merge(current, a)), b), Merge(current, a + b));
  }

  /** Tags that are already increasing with nothing to add stay as they are. */
  lemma MergeNothing(current: seq<string>)
    requires StrictlyIncreasing(current)
    ensures Merge(Some(current), []) == current
  {
    IncreasingUnique(Merge(Some(current), []), current);
  }

  /** One write: a photo id and its new tags. */
  datatype Update = Update(id: string, tags: seq<string>)

  function UpdateOf(add: seq<string>): Store.PhotoRow -> Update {
    (row: Store.PhotoRow) => Update(row.id, Merge(row.tags, add))
  }

  /** The writes for the fetched rows, in the order they were fetched. */
  function Updates(rows: seq<Store.PhotoRow>, add: seq<string>): (r: seq<Update>)
    ensures |r| == |rows|
    ensures forall i :: 0 <= i < |rows| ==> r[i].id == rows[i].id && r[i].tags == Merge(rows[i].tags, add)
  {
    Map(rows, UpdateOf(add))
  }

  /** How many writes succeed before the first one the database rejects. */
  function Halted(updates: seq<Update>, rejects: set<string>): (h: nat)
    ensures h <= |updates|
    ensures forall j :: 0 <= j < h ==> updates[j].id !in rejects
    ensures h < |updates| ==> updates[h].id in rejects
  {
    if updates == [] || updates[0].id in rejects then 0
    else 1 + Halted(updates[1..], rejects)
  }

  /** The `photos` table as the map from photo id to its `tags` column,
   *  which may be `null`. */
  type Table = map<string, Option<seq<string>>>

  /** What `select("id, tags").in("id", ids)` returns: rows with distinct
   *  ids, each a listed photo with its current tags, and among them every
   *  listed photo the table holds. */
  predicate Selected(rows: seq<Store.PhotoRow>, table: Table, ids: seq<string>) {
    && (forall i, j :: 0 <= i < j < |rows| ==> rows[i].id != rows[j].id)
    && (forall i :: 0 <= i < |rows| ==> rows[i].id in ids && rows[i].id in table && table[rows[i].id] == rows[i].tags)
    && (forall id :: id in ids && id in table ==> exists i :: 0 <= i < |rows| && rows[i].id == id)
  }

  /** The table after the writes, applied in order: `update().eq("id", id)`
   *  sets the tags of the row with that id and never inserts one, so a
   *  write whose row is gone changes nothing. */
  function Written(table: Table, updates: seq<Update>): (r: Table)
    ensures r.Keys == table.Keys
    decreases |updates|
  {
    if updates == [] then table
    else
      var last := updates[|updates| - 1];
      var before := Written(table, updates[..|updates| - 1]);
      if last.id in before then before[last.id := Some(last.tags)] else before
  }

  /** A photo no write names keeps its tags. */
  lemma {:induction false} WrittenElsewhere(table: Table, updates: seq<Update>, id: string)
    requires forall i :: 0 <= i < |updates| ==> updates[i].id != id
    requires id in table
    ensures Written(table, updates)[id] == table[id]
    decreases |updates|
  {
    if updates != [] { WrittenElsewhere(table, updates[..|updates| - 1], id); }
  }

  predicate DistinctIds(updates: seq<Update>) {
    forall i, j :: 0 <= i < j < |updates| ==> updates[i].id != updates[j].id
  }

  /** With one write per photo, every photo written that the table holds
   *  has the tags its write carries. */
  lemma {:induction false} WrittenHolds(table: Table, updates: seq<Update>)
    requires DistinctIds(updates)
    ensures forall i :: 0 <= i < |updates| && updates[i].id in table ==>
              Written(table, updates)[updates[i].id] == Some(updates[i].tags)
    decreases |updates|
  {
    if updates != [] {
      var init := updates[..|updates| - 1];
      assert DistinctIds(init);
      WrittenHolds(table, init);
    }
  }

  datatype Body = Updated(updated: nat) | Failed(error: string)

  /** The `photos` table, as the map from photo id to its tags. */
  class PhotoTable {
    var tags: Table

    constructor(initial: Table)
      ensures tags == initial
    {
      tags := initial;
    }

    /** The `for…of` loop of writes: it stops at the first write the
     *  database rejects; the writes before it stay applied. */
    method UpdateAll(updates: seq<Update>, rejects: set<string>) returns (done: nat)
      modifies this
      ensures done == Halted(updates, rejects)
      ensures tags == Written(old(tags), updates[..done])
    {
      done := 0;
      while done < |updates| && updates[done].id !in rejects
        invariant done <= |updates|
        invariant forall j :: 0 <= j < done ==> updates[j].id !in rejects
        invariant tags == Written(old(tags), updates[..done])
      {
        assert updates[..done + 1][..done] == updates[..done];
        if updates[done].id in tags {
          tags := tags[updates[done].id := Some(updates[done].tags)];
        }
        done := done + 1;
      }
    }

    /** `POST`: the signed-in user, the parsed body (`None` when it is not
     *  JSON), what the `select … in ids` query returns from this table, and
     *  the ids whose write the database rejects. */
    method Post(user: Option<Store.User>, body: Option<Json>, query: Store.Query<Store.PhotoRow>,
                rejects: set<string>) returns (response: Http.Response<Body>)
      requires query.Data? && body.Some? && Ids(body.value).Some? ==>
                 Selected(Store.RowsOf(query), tags, Ids(body.value).value)
      modifies this
      ensures !Store.AppAdmin(user) ==>
                response == Http.Response(403, Failed(NotAuthorized), None) && tags == old(tags)
      ensures Store.AppAdmin(user) && (body.None? || Ids(body.value).None? || TagsToAdd(body.value).None?) ==>
                response == Http.Response(500, Failed(UpdateFailed), None) && tags == old(tags)
      ensures Store.AppAdmin(user) && body.Some? && Ids(body.value).Some? && TagsToAdd(body.value).Some? ==>
                var ids := Ids(body.value).value;
                var add := TagsToAdd(body.value).value;
                && ((ids == [] || add == []) ==>
                      response == Http.Response(400, Failed(EmptyInput), None) && tags == old(tags))
                && (ids != [] && add != [] && query.QueryError? ==>
                      response == Http.Response(500, Failed(UpdateFailed), None) && tags == old(tags))
                && (ids != [] && add != [] && query.Data? ==>
                      var updates := Updates(Store.RowsOf(query), add);
                      var done := Halted(updates, rejects);
                      && tags == Written(old(tags), updates[..done])
                      && response == if done == |updates|
                                     then Http.Response(200, Updated(|Store.RowsOf(query)|), None)
                                     else Http.Response(500, Failed(UpdateFailed), None))
      ensures response.status == 200 ==>
                var ids := Ids(body.value).value;
                var add := TagsToAdd(body.value).value;
                && tags.Keys == old(tags).Keys
                && (forall id :: id in ids && id in old(tags) ==> tags[id] == Some(Merge(old(tags)[id], add)))
                && (forall id :: id !in ids && id in old(tags) ==> tags[id] == old(tags)[id])
    {
      if !Store.AppAdmin(user) {
        return Http.Response(403, Failed(NotAuthorized), None);
      }
      if body.None? || Ids(body.value).None? || TagsToAdd(body.value).None? {
        return Http.Response(500, Failed(UpdateFailed), None);
      }
      var ids := Ids(body.value).value;
      var add := TagsToAdd(body.value).value;
      if ids == [] || add == [] {
        return Http.Response(400, Failed(EmptyInput), None);
      }
      if query.QueryError? {
        return Http.Response(500, Failed(UpdateFailed), None);
      }
      var updates := Updates(Store.RowsOf(query), add);
      SuccessfulBatch(tags, Store.RowsOf(query), ids, add);
      var done := UpdateAll(updates, rejects);
      if done < |updates| {
        return Http.Response(500, Failed(UpdateFailed), None);
      }
      assert updates[..done] == updates;
      return Http.Response(200, Updated(|updates|), None);
    }
  }

  /** After a complete batch over the rows the query selected, every listed
   *  photo the table holds has its old tags merged with the new ones, every
   *  other photo is untouched, and no row is added or removed. */
  lemma SuccessfulBatch(table: Table, rows: seq<Store.PhotoRow>, ids: seq<string>, add: seq<string>)
    requires Selected(rows, table, ids)
    ensures var after := Written(table, Updates(rows, add));
            && after.Keys == table.Keys
            && (forall id :: id in ids && id in table ==> after[id] == Some(Merge(table[id], add)))
            && (forall id :: id !in ids && id in table ==> after[id] == table[id])
  {
    var updates := Updates(rows, add);
    assert DistinctIds(updates);
    WrittenHolds(table, updates);
    forall id | id in ids && id in table
      ensures Written(table, updates)[id] == Some(Merge(table[id], add))
    {
      var i :| 0 <= i < |rows| && rows[i].id == id;
      assert updates[i].id == id;
    }
    forall id | id !in ids && id in table
      ensures Written(table, updates)[id] == table[id]
    {
      WrittenElsewhere(table, updates, id);
    }
  }
}
