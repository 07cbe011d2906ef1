/**
 * The batch tag editor page: the admin selects loaded photos, builds a
 * sorted list of normalised tags, and posts both to the batch-tag route.
 * The selection is a JavaScript `Set`, which keeps insertion order, so it
 * is held as a duplicate-free sequence.
 */
module EditPhotos {
  import opened Wrappers
  import Text
  import opened Collections
  import opened Sorting
  import opened Json
  import BatchTags

  /** A loaded photo; only its id matters to the editor. */
  datatype Photo = Photo(id: string)

  /** One page of `/api/photos`. */
  datatype PhotosPage = PhotosPage(photos: seq<Photo>, nextCursor: Option<int>)

  /** `data.pages.flatMap(p => p.photos)`. */
  function PhotosOf(pages: seq<PhotosPage>): seq<Photo> {
    Flatten(seq(|pages|, i requires 0 <= i < |pages| => pages[i].photos))
  }

  /** `getNextPageParam(lastPage)`: the cursor of the last page loaded;
   *  before any page, the initial cursor 0. */
  function NextCursor(pages: seq<PhotosPage>): Option<int> {
    if pages == [] then Some(0) else pages[|pages| - 1].nextCursor
  }

  /** Loading a page appends its photos and takes over its cursor. */
  lemma PageLoaded(pages: seq<PhotosPage>, page: PhotosPage)
    ensures PhotosOf(pages + [page]) == PhotosOf(pages) + page.photos
    ensures NextCursor(pages + [page]) == page.nextCursor
  {
    var ss := seq(|pages|, i requires 0 <= i < |pages| => pages[i].photos);
    assert seq(|pages + [page]|, i requires 0 <= i < |pages + [page]| => (pages + [page])[i].photos) == ss + [page.photos];
    FlattenAppend(ss, page.photos);
  }

  /** Every loaded photo comes from one of the pages. */
  lemma PhotosFromPages(pages: seq<PhotosPage>)
    ensures forall p :: p in PhotosOf(pages) <==> exists k :: 0 <= k < |pages| && p in pages[k].photos
  {
    var ss := seq(|pages|, i requires 0 <= i < |pages| => pages[i].photos);
    assert forall k :: 0 <= k < |pages| ==> ss[k] == pages[k].photos;
  }

  function IdsOf(photos: seq<Photo>): seq<string> {
    seq(|photos|, i requires 0 <= i < |photos| => photos[i].id)
  }

  /** `next.has(id) ? next.delete(id) : next.add(id)` on a copy of the
   *  selection: a deleted id leaves its place, an added one goes last. */
  function Toggled(sel: seq<string>, id: string): seq<string> {
    if id in sel then Filter(sel, (x: string) => x != id) else sel + [id]
  }

  /** Toggling flips the membership of `id` and of nothing else, and keeps
   *  the selection free of duplicates. */
  lemma ToggledMeaning(sel: seq<string>, id: string)
    requires Distinct(sel)
    ensures Distinct(Toggled(sel, id))
    ensures id in Toggled(sel, id) <==> id !in sel
    ensures forall x :: x != id ==> (x in Toggled(sel, id) <==> x in sel)
  {
    var p := (x: string) => x != id;
    if id in sel {
      FilterMembers(sel, p);
      FilterDistinct(sel, p);
    }
  }

  lemma {:induction false} FilterDistinct(s: seq<string>, p: string -> bool)
    requires Distinct(s)
    ensures Distinct(Filter(s, p))
  {
    if s != [] {
      FilterDistinct(s[1..], p);
      FilterMembers(s[1..], p);
      assert forall k :: 0 <= k < |s[1..]| ==> s[1..][k] == s[k + 1];
    }
  }

  /** Toggling twice gives back the same selected ids; when `id` was not
   *  selected it gives back the very same sequence, and when it was, `id`
   *  moves to the end of the insertion order. */
  lemma ToggleTwice(sel: seq<string>, id: string)
    requires Distinct(sel)
    ensures forall x :: x in Toggled(Toggled(sel, id), id) <==> x in sel
    ensures id !in sel ==> Toggled(Toggled(sel, id), id) == sel
  {
    ToggledMeaning(sel, id);
    ToggledMeaning(Toggled(sel, id), id);
    if id !in sel {
      var p := (x: string) => x != id;
      assert id in sel + [id];
      FilterConcat(sel, [id], p);
      FilterAll(sel, p);
      assert Filter([id], p) == [];
      assert sel + [] == sel;
    }
  }

  /** A tag in the list to add: non-empty, trimmed and lower-case. */
  predicate IsTag(t: string) {
    t != "" && Text.NoSpaceAtEnds(t) && Text.IsLower(t)
  }

  /** The invariant of the tag list: increasing, hence sorted without
   *  duplicates, and made of tags. */
  predicate TagList(tags: seq<string>) {
    StrictlyIncreasing(tags) && forall i :: 0 <= i < |tags| ==> IsTag(tags[i])
  }

  /** `tagInput.trim().toLowerCase()`. */
  function NormalisedInput(input: string): (t: string)
    ensures t == "" <==> Text.Trim(input) == ""
    ensures t != "" ==> IsTag(t)
  {
    var trimmed := Text.Trim(input);
    Text.ToLowerKeepsTrim(trimmed);
    Text.ToLowerIsLower(trimmed);
    Text.ToLower(trimmed)
  }

  /** `[...prev, t].sort()` with `t` new to an increasing list is the
   *  increasing list of the old tags and `t`. */
  lemma SortedAdd(prev: seq<string>, t: string)
    requires StrictlyIncreasing(prev) && t !in prev
    ensures StrictlyIncreasing(Sort(prev + [t], Text.Less))
    ensures forall x :: x in Sort(prev + [t], Text.Less) <==> x in prev || x == t
  {
    var xs := prev + [t];
    assert Distinct(xs) by {
      forall i, j | 0 <= i < j < |xs| ensures xs[i] != xs[j] {
        if j < |prev| {
          Text.LessIrreflexive(xs[i]);
          assert Text.Less(prev[i], prev[j]);
        } else {
          assert xs[i] in prev;
        }
      }
    }
    DedupOfDistinct(xs);
    assert SortedSet(xs) == Sort(xs, Text.Less);
  }

  /** Adding a new tag to a tag list gives a tag list. */
  lemma TagAdded(prev: seq<string>, t: string)
    requires TagList(prev) && IsTag(t) && t !in prev
    ensures TagList(Sort(prev + [t], Text.Less))
    ensures forall x :: x in Sort(prev + [t], Text.Less) <==> x in prev || x == t
  {
    SortedAdd(prev, t);
    var sorted := Sort(prev + [t], Text.Less);
    forall i | 0 <= i < |sorted| ensures IsTag(sorted[i]) {
      assert sorted[i] in sorted;
      if sorted[i] != t {
        var k :| 0 <= k < |prev| && prev[k] == sorted[i];
      }
    }
  }

  /** What remains of an increasing list after a filter is increasing. */
  lemma {:induction false} FilterIncreasing(s: seq<string>, p: string -> bool)
    requires StrictlyIncreasing(s)
    ensures StrictlyIncreasing(Filter(s, p))
  {
    if s != [] {
      FilterIncreasing(s[1..], p);
      FilterMembers(s[1..], p);
      var rest := Filter(s[1..], p);
      forall y | y in rest ensures Text.Less(s[0], y) {
        IncreasingHeadBelow(s, y);
      }
      if p(s[0]) {
        ConsIncreasing(s[0], rest);
      }
    }
  }

  lemma ConsIncreasing(x: string, rest: seq<string>)
    requires StrictlyIncreasing(rest) && forall y :: y in rest ==> Text.Less(x, y)
    ensures StrictlyIncreasing([x] + rest)
  {
    var r := [x] + rest;
    forall i, j | 0 <= i < j < |r| ensures Text.Less(r[i], r[j]) {
      assert r[j] == rest[j - 1];
      if i == 0 {
        assert rest[j - 1] in rest;
      } else {
        assert r[i] == rest[i - 1];
      }
    }
  }

  /** The JSON body `{ ids, tagsToAdd }` posted to the batch-tag route. */
  function RequestBody(ids: seq<string>, tags: seq<string>): Json {
    JObj(map["ids" := JArr(Strs(ids)), "tagsToAdd" := JArr(Strs(tags))])
  }

  function Strs(xs: seq<string>): (r: seq<Json>)
    ensures |r| == |xs| && forall i :: 0 <= i < |xs| ==> r[i] == JStr(xs[i])
  {
    seq(|xs|, i requires 0 <= i < |xs| => JStr(xs[i]))
  }

  /** The route reads the tags back unchanged, since the page only ever
   *  holds normalised tags, and it keeps the selected ids that are not
   *  blank. */
  lemma RequestReadByRoute(ids: seq<string>, tags: seq<string>)
    requires TagList(tags)
    ensures BatchTags.TagsToAdd(RequestBody(ids, tags)) == Some(tags)
    ensures BatchTags.Ids(RequestBody(ids, tags)) == Some(Filter(ids, BatchTags.NotBlank))
  {
    var body := RequestBody(ids, tags);
    assert Member(Some(body), "tagsToAdd") == Some(JArr(Strs(tags)));
    assert Member(Some(body), "ids") == Some(JArr(Strs(ids)));
    StringsOfStrs(tags);
    StringsOfStrs(ids);
    NormalisedTagsKept(tags);
  }

  lemma StringsOfStrs(xs: seq<string>)
    ensures BatchTags.Strings(Strs(xs)) == Some(xs)
  {
    var r := BatchTags.Strings(Strs(xs));
    assert r.Some?;
    assert r.value == xs;
  }

  /** The route's normalisation leaves the page's tags as they are. */
  lemma NormalisedTagsKept(tags: seq<string>)
    requires forall i :: 0 <= i < |tags| ==> IsTag(tags[i])
    ensures Map(Filter(tags, BatchTags.NotBlank), BatchTags.Normalise) == tags
  {
    forall i | 0 <= i < |tags| ensures BatchTags.NotBlank(tags[i]) && BatchTags.Normalise(tags[i]) == tags[i] {
      Text.TrimFixed(tags[i]);
      LowerIdentity(tags[i]);
    }
    FilterAll(tags, BatchTags.NotBlank);
    assert Map(tags, BatchTags.Normalise) == tags;
  }

  lemma LowerIdentity(s: string)
    requires Text.IsLower(s)
    ensures Text.ToLower(s) == s
  {
  }

  /** What the `fetch` of the batch-tag route gave. */
  datatype SaveOutcome =
    | Replied(ok: bool, updated: string, error: Option<string>)  // `updated` as `${data.updated}` prints it
    | Thrown(message: string)

  /** The message shown after saving. */
  function SaveMessage(o: SaveOutcome): string {
    match o
    case Replied(ok, updated, error) =>
      if ok then "Added tags to " + updated + " photo(s)."
      else error.GetOr("Failed to update tags")
    case Thrown(m) => m
  }

  class Editor {
    var selectedIds: seq<string>
    var tagInput: string
    var tagsToAdd: seq<string>
    var saving: bool
    var saveMessage: Option<string>
    var pages: seq<PhotosPage>

    predicate Valid()
      reads this
    {
      Distinct(selectedIds) && TagList(tagsToAdd)
    }

    constructor()
      ensures Valid()
      ensures selectedIds == [] && tagInput == "" && tagsToAdd == [] && !saving && saveMessage == None && pages == []
    {
      selectedIds := [];
      tagInput := "";
      tagsToAdd := [];
      saving := false;
      saveMessage := None;
      pages := [];
    }

    /** The infinite query delivers the next page. */
    method ReceivePage(page: PhotosPage)
      requires Valid()
      modifies this
      ensures Valid()
      ensures pages == old(pages) + [page]
      ensures PhotosOf(pages) == PhotosOf(old(pages)) + page.photos
      ensures NextCursor(pages) == page.nextCursor
      ensures selectedIds == old(selectedIds) && tagInput == old(tagInput) && tagsToAdd == old(tagsToAdd)
      ensures saving == old(saving) && saveMessage == old(saveMessage)
    {
      PageLoaded(pages, page);
      pages := pages + [page];
    }

    /** `toggleSelect(id)`. */
    method ToggleSelect(id: string)
      requires Valid()
      modifies this
      ensures Valid()
      ensures selectedIds == Toggled(old(selectedIds), id)
      ensures id in selectedIds <==> id !in old(selectedIds)
      ensures forall x :: x != id ==> (x in selectedIds <==> x in old(selectedIds))
      ensures tagInput == old(tagInput) && tagsToAdd == old(tagsToAdd) && saving == old(saving)
      ensures saveMessage == old(saveMessage) && pages == old(pages)
    {
      ToggledMeaning(selectedIds, id);
      if id in selectedIds {
        selectedIds := Filter(selectedIds, (x: string) => x != id);
      } else {
        selectedIds := selectedIds + [id];
      }
    }

    /** `selectAll`: exactly the ids of the loaded photos, each once, in
     *  the order they were loaded. */
    method SelectAll()
      requires Valid()
      modifies this
      ensures Valid()
      ensures selectedIds == Dedup(IdsOf(PhotosOf(pages)))
      ensures forall id :: id in selectedIds <==> exists p :: p in PhotosOf(pages) && p.id == id
      ensures tagInput == old(tagInput) && tagsToAdd == old(tagsToAdd) && saving == old(saving)
      ensures saveMessage == old(saveMessage) && pages == old(pages)
    {
      var photos := PhotosOf(pages);
      var ids := IdsOf(photos);
      forall id ensures id in ids <==> exists p :: p in photos && p.id == id {
        if id in ids {
          var i :| 0 <= i < |ids| && ids[i] == id;
          assert photos[i] in photos;
        }
        if exists p :: p in photos && p.id == id {
          var p :| p in photos && p.id == id;
          var i :| 0 <= i < |photos| && photos[i] == p;
          assert ids[i] == id;
        }
      }
      selectedIds := Dedup(ids);
    }

    /** `deselectAll`. */
    method DeselectAll()
      requires Valid()
      modifies this
      ensures Valid()
      ensures selectedIds == []
      ensures tagInput == old(tagInput) && tagsToAdd == old(tagsToAdd) && saving == old(saving)
      ensures saveMessage == old(saveMessage) && pages == old(pages)
    {
      selectedIds := [];
    }

    /** The tag input's `onChange`. */
    method SetTagInput(input: string)
      requires Valid()
      modifies this
      ensures Valid()
      ensures tagInput == input
      ensures selectedIds == old(selectedIds) && tagsToAdd == old(tagsToAdd) && saving == old(saving)
      ensures saveMessage == old(saveMessage) && pages == old(pages)
    {
      tagInput := input;
    }

    /** `addTagFromInput`: a blank input changes nothing; otherwise the
     *  normalised tag joins the list, which stays increasing, and the input
     *  is cleared. */
    method AddTagFromInput()
      requires Valid()
      modifies this
      ensures Valid()
      ensures Text.Trim(old(tagInput)) == "" ==> tagInput == old(tagInput) && tagsToAdd == old(tagsToAdd)
      ensures Text.Trim(old(tagInput)) != "" ==>
                && tagInput == ""
                && forall x :: x in tagsToAdd <==> x in old(tagsToAdd) || x == NormalisedInput(old(tagInput))
      ensures NormalisedInput(old(tagInput)) in old(tagsToAdd) ==> tagsToAdd == old(tagsToAdd)
      ensures selectedIds == old(selectedIds) && saving == old(saving)
      ensures saveMessage == old(saveMessage) && pages == old(pages)
    {
      var trimmed := NormalisedInput(tagInput);
      if trimmed == "" {
        return;
      }
      if trimmed !in tagsToAdd {
        TagAdded(tagsToAdd, trimmed);
        tagsToAdd := Sort(tagsToAdd + [trimmed], Text.Less);
      }
      tagInput := "";
    }

    /** `removeTag(tag)`: exactly `tag` leaves the list. */
    method RemoveTag(tag: string)
      requires Valid()
      modifies this
      ensures Valid()
      ensures forall x :: x in tagsToAdd <==> x in old(tagsToAdd) && x != tag
      ensures selectedIds == old(selectedIds) && tagInput == old(tagInput) && saving == old(saving)
      ensures saveMessage == old(saveMessage) && pages == old(pages)
    {
      var p := (x: string) => x != tag;
      FilterIncreasing(tagsToAdd, p);
      FilterMembers(tagsToAdd, p);
      var kept := Filter(tagsToAdd, p);
      forall i | 0 <= i < |kept| ensures IsTag(kept[i]) {
        assert kept[i] in kept;
        var k :| 0 <= k < |tagsToAdd| && tagsToAdd[k] == kept[i];
      }
      tagsToAdd := kept;
    }

    /** `applyTags`: with nothing selected or no tag, nothing is sent and
     *  nothing changes; otherwise the body is posted, success clears the
     *  selection and the tags, and a failure keeps both. Either way the
     *  outcome's message is shown and saving ends. */
    method ApplyTags(outcome: SaveOutcome) returns (request: Option<Json>)
      requires Valid()
      modifies this
      ensures Valid()
      ensures old(selectedIds) == [] || old(tagsToAdd) == [] ==>
                request == None && selectedIds == old(selectedIds) && tagsToAdd == old(tagsToAdd)
                && saving == old(saving) && saveMessage == old(saveMessage)
      ensures old(selectedIds) != [] && old(tagsToAdd) != [] ==>
                && request == Some(RequestBody(old(selectedIds), old(tagsToAdd)))
                && saveMessage == Some(SaveMessage(outcome))
                && !saving
                && (outcome.Replied? && outcome.ok ==> selectedIds == [] && tagsToAdd == [])
                && (!(outcome.Replied? && outcome.ok) ==>
                      selectedIds == old(selectedIds) && tagsToAdd == old(tagsToAdd))
      ensures tagInput == old(tagInput) && pages == old(pages)
    {
      if |selectedIds| == 0 || |tagsToAdd| == 0 {
        return None;
      }
      saving := true;
      saveMessage := None;
      request := Some(RequestBody(selectedIds, tagsToAdd));
      if outcome.Replied? && outcome.ok {
        saveMessage := Some(SaveMessage(outcome));
        selectedIds := [];
        tagsToAdd := [];
      } else {
        saveMessage := Some(SaveMessage(outcome));
      }
      saving := false;
    }
  }
}
