/**
 * The photo upload route: it checks the request in a fixed order, stores
 * the file under a fresh name in the public or the private bucket, records
 * it in the `photos` table, and removes the stored file again when the
 * record cannot be written.
 */
module UploadRoute {
  import opened Wrappers
  import Text
  import Http
  import Store

  const PublicBucket := "photos-public"
  const PrivateBucket := "photos-private"
  const NotAuthenticated := "Not authenticated"
  const FileRequired := "File is required"
  const TooLarge := "File exceeds maximum size (10MB)"
  const UploadFailed := "Failed to upload photo"

  /** A file as the browser sends it: name, MIME type and size in bytes. */
  datatype File = File(name: string, mimeType: string, size: nat)

  /** A form field is text or a file. */
  datatype FormValue = Text(s: string) | FileValue(file: File)

  type Form = seq<(string, FormValue)>

  /** `formData.get(name)`: the first value under that name, or `null`. */
  function Field(form: Form, name: string): Option<FormValue>
    decreases |form|
  {
    if form == [] then None
    else if form[0].0 == name then Some(form[0].1)
    else Field(form[1..], name)
  }

  /** A form without a field of that name answers `null`. */
  lemma {:induction false} FieldAbsent(form: Form, name: string)
    requires forall k :: 0 <= k < |form| ==> form[k].0 != name
    ensures Field(form, name).None?
    decreases |form|
  {
    if form != [] { FieldAbsent(form[1..], name); }
  }

  /** `typeof v === "string" ? v === "true" : Boolean(v)`. */
  predicate IsPublic(v: Option<FormValue>) {
    match v
    case None => false
    case Some(Text(s)) => s == "true"
    case Some(FileValue(_)) => true
  }

  /** `file.name.split(".").pop()`: the text after the last dot, or the
   *  whole name when it has none. */
  function Extension(name: string): string {
    Text.Last(Text.Split(name, '.'))
  }

  /** A name without a dot is its own extension. */
  lemma ExtensionWithoutDot(name: string)
    requires '.' !in name
    ensures Extension(name) == name
  {
  }

  /** What comes before a dot does not change the extension. */
  lemma {:induction false} ExtensionAfterDot(a: string, b: string)
    ensures Extension(a + "." + b) == Extension(b)
    decreases |a|
  {
    if '.' !in a {
      ExtensionAfterFirstDot(a, b);
    } else {
      var i := Text.IndexOfChar(a, '.');
      ExtensionAfterDotInPrefix(a, b);
      ExtensionAfterDot(a[i + 1..], b);
    }
  }

  lemma ExtensionAfterFirstDot(a: string, b: string)
    requires '.' !in a
    ensures Extension(a + "." + b) == Extension(b)
  {
    var s := a + "." + b;
    assert s[|a|] == '.' && s[..|a|] == a && s[|a| + 1..] == b;
    assert Text.IndexOfChar(s, '.') == |a|;
    SplitStep(s);
  }

  lemma ExtensionAfterDotInPrefix(a: string, b: string)
    requires '.' in a
    ensures Extension(a + "." + b) == Extension(a[Text.IndexOfChar(a, '.') + 1..] + "." + b)
  {
    var s := a + "." + b;
    var i := Text.IndexOfChar(a, '.');
    assert s[..i] == a[..i] && s[i] == '.';
    assert Text.IndexOfChar(s, '.') == i;
    DropInPrefix(a, ".", i + 1);
    DropInPrefix(a + ".", b, i + 1);
    SplitStep(s);
  }

  lemma DropInPrefix(a: string, t: string, k: nat)
    requires k <= |a|
    ensures (a + t)[k..] == a[k..] + t
  {
  }

  lemma SplitStep(s: string)
    requires '.' in s
    ensures Extension(s) == Extension(s[Text.IndexOfChar(s, '.') + 1..])
  {
    Text.SplitLast(s, '.');
  }

  /** The extension is the end of the name after its last dot, and holds no
   *  dot itself. */
  lemma ExtensionIsLastPart(a: string, b: string)
    requires '.' !in b
    ensures Extension(a + "." + b) == b && '.' !in Extension(a + "." + b)
  {
    ExtensionAfterDot(a, b);
    ExtensionWithoutDot(b);
  }

  /** The stored name: the fresh id, then `.` and the extension unless the
   *  extension is empty. */
  function StoredName(uuid: string, fileName: string): (r: string)
    ensures Extension(fileName) == "" ==> r == uuid
    ensures Extension(fileName) != "" ==> r == uuid + "." + Extension(fileName)
  {
    var ext := Extension(fileName);
    uuid + (if ext != "" then "." + ext else "")
  }

  /** `roll.12.jpg` is stored as `<id>.jpg`. */
  lemma StoredNameOfDotted()
    ensures StoredName("id", "roll.12.jpg") == "id.jpg"
  {
    assert "roll.12.jpg" == "roll.12" + "." + "jpg";
    ExtensionIsLastPart("roll.12", "jpg");
  }

  /** A name without a dot becomes its own extension. */
  lemma StoredNameOfUndotted()
    ensures StoredName("id", "scan") == "id.scan"
  {
    ExtensionWithoutDot("scan");
  }

  /** A name ending in a dot has an empty extension and is stored under
   *  the bare id. */
  lemma StoredNameOfTrailingDot()
    ensures StoredName("id", "frame.") == "id"
  {
    assert "frame." == "frame" + "." + "";
    ExtensionIsLastPart("frame", "");
  }

  /** The title stored: the trimmed title, or the file's name when that is
   *  empty. */
  function StoredTitle(title: string, file: File): (r: string)
    ensures Text.Trim(title) != "" ==> r == Text.Trim(title)
    ensures Text.Trim(title) == "" ==> r == file.name
  {
    if Text.Trim(title) != "" then Text.Trim(title) else file.name
  }

  /** A row of the `photos` table. */
  datatype Record = Record(filename: string, publicUrl: string, title: string, description: string,
                           fileSize: nat, mimeType: string, bucket: string, uploadedAt: string)

  /** A storage or database error: the message when it is an `Error`. */
  datatype Failure = Failure(message: Option<string>)

  function MessageOf(f: Failure): string { f.message.GetOr(UploadFailed) }

  /** `Unhandled` is the framework's own error page, for a throw outside
   *  the route's `try`. */
  datatype Body = Rejected(error: string) | Uploaded(photo: Record, publicUrl: string) | Unhandled

  function UnsupportedType(allowed: seq<string>): string {
    "Unsupported file type. Allowed: " + Text.JoinWith(allowed, ", ")
  }

  /** A text field read as `(v as string | null)?.trim() ?? ""`; a file
   *  there makes `trim` throw. */
  function TrimmedText(v: Option<FormValue>): Option<string> {
    match v
    case None => Some("")
    case Some(Text(s)) => Some(Text.Trim(s))
    case Some(FileValue(_)) => None
  }

  /** The checks that come before anything is stored, in their order; the
   *  form is `None` when `request.formData()` rejects, a throw outside the
   *  route's `try`. */
  function Checked(user: Option<Store.User>, form: Option<Form>, allowed: seq<string>, maxSize: int)
    : (r: Option<Http.Response<Body>>)
    ensures user.None? ==> r == Some(Http.Response(401, Rejected(NotAuthenticated), None))
    ensures user.Some? && form.None? ==> r == Some(Http.Response(500, Unhandled, None))
    ensures user.Some? && form.Some? && !(Field(form.value, "file").Some? && Field(form.value, "file").value.FileValue?) ==>
              r == Some(Http.Response(400, Rejected(FileRequired), None))
    ensures user.Some? && form.Some? && Field(form.value, "file").Some? && Field(form.value, "file").value.FileValue? ==>
              var file := Field(form.value, "file").value.file;
              && (file.mimeType !in allowed ==> r == Some(Http.Response(400, Rejected(UnsupportedType(allowed)), None)))
              && (file.mimeType in allowed && file.size > maxSize ==> r == Some(Http.Response(400, Rejected(TooLarge), None)))
              && (file.mimeType in allowed && file.size <= maxSize ==> r.None?)
  {
    if user.None? then Some(Http.Response(401, Rejected(NotAuthenticated), None))
    else if form.None? then Some(Http.Response(500, Unhandled, None))
    else
      var v := Field(form.value, "file");
      if !(v.Some? && v.value.FileValue?) then Some(Http.Response(400, Rejected(FileRequired), None))
      else if v.value.file.mimeType !in allowed then Some(Http.Response(400, Rejected(UnsupportedType(allowed)), None))
      else if v.value.file.size > maxSize then Some(Http.Response(400, Rejected(TooLarge), None))
      else None
  }

  /** The storage buckets and the `photos` table. */
  class Backend {
    var objects: set<(string, string)>
    var photos: seq<Record>

    constructor(objects: set<(string, string)>, photos: seq<Record>)
      ensures this.objects == objects && this.photos == photos
    {
      this.objects := objects;
      this.photos := photos;
    }

    /** `POST`. The fresh id, the clock, the public URL of a stored path
     *  and the errors the storage and the database answer with are
     *  inputs: `uploadError` is what the upload of a path not yet in use
     *  gives, and `conflict` what it gives for one already stored, since
     *  the upload does not overwrite (`upsert: false`). `removeError` is
     *  what removing the object again gives, which the route ignores. */
    method Post(user: Option<Store.User>, form: Option<Form>, allowed: seq<string>, maxSize: int,
                uuid: string, now: string, publicUrl: (string, string) -> string,
                uploadError: Option<Failure>, conflict: Failure,
                insertError: Option<Failure>, removeError: Option<Failure>)
      returns (response: Http.Response<Body>)
      modifies this
      ensures Checked(user, form, allowed, maxSize).Some? ==>
                response == Checked(user, form, allowed, maxSize).value
                && objects == old(objects) && photos == old(photos)
      ensures Checked(user, form, allowed, maxSize).None? ==>
                var file := Field(form.value, "file").value.file;
                var bucket := if IsPublic(Field(form.value, "isPublic")) then PublicBucket else PrivateBucket;
                var path := StoredName(uuid, file.name);
                var title := TrimmedText(Field(form.value, "title"));
                var description := TrimmedText(Field(form.value, "description"));
                var upload := if (bucket, path) in old(objects) then Some(conflict) else uploadError;
                if title.None? || description.None? then
                  response == Http.Response(500, Unhandled, None) && objects == old(objects) && photos == old(photos)
                else if upload.Some? then
                  response == Http.Response(500, Rejected(MessageOf(upload.value)), None)
                  && objects == old(objects) && photos == old(photos)
                else if insertError.Some? then
                  response == Http.Response(500, Rejected(MessageOf(insertError.value)), None)
                  && photos == old(photos)
                  && (removeError.None? ==> objects == old(objects))
                  && (removeError.Some? ==> objects == old(objects) + {(bucket, path)})
                else
                  var record := Record(path, publicUrl(bucket, path), StoredTitle(title.value, file),
                                       description.value, file.size, file.mimeType, bucket, now);
                  && response == Http.Response(200, Uploaded(record, publicUrl(bucket, path)), Some("no-store"))
                  && (bucket, path) !in old(objects)
                  && objects == old(objects) + {(bucket, path)} && photos == old(photos) + [record]
    {
      var rejected := Checked(user, form, allowed, maxSize);
      if rejected.Some? {
        return rejected.value;
      }
      var fields := form.value;
      var file := Field(fields, "file").value.file;
      var bucket := if IsPublic(Field(fields, "isPublic")) then PublicBucket else PrivateBucket;
      var title := TrimmedText(Field(fields, "title"));
      var description := TrimmedText(Field(fields, "description"));
      if title.None? || description.None? {
        return Http.Response(500, Unhandled, None);
      }
      var path := StoredName(uuid, file.name);
      if (bucket, path) in objects {
        return Http.Response(500, Rejected(MessageOf(conflict)), None);
      }
      if uploadError.Some? {
        return Http.Response(500, Rejected(MessageOf(uploadError.value)), None);
      }
      objects := objects + {(bucket, path)};
      var url := publicUrl(bucket, path);
      var record := Record(path, url, StoredTitle(title.value, file), description.value,
                           file.size, file.mimeType, bucket, now);
      if insertError.Some? {
        if removeError.None? {
          objects := objects - {(bucket, path)};
        }
        return Http.Response(500, Rejected(MessageOf(insertError.value)), None);
      }
      photos := photos + [record];
      return Http.Response(200, Uploaded(record, url), Some("no-store"));
    }
  }

  /** Only the text `"true"` or a file under `isPublic` selects the public
   *  bucket; without the field the private one is used. */
  lemma BucketChoice(form: Form)
    ensures Field(form, "isPublic").None? ==> !IsPublic(Field(form, "isPublic"))
    ensures Field(form, "isPublic") == Some(Text("false")) ==> !IsPublic(Field(form, "isPublic"))
    ensures Field(form, "isPublic") == Some(Text("true")) ==> IsPublic(Field(form, "isPublic"))
  {
  }
}
