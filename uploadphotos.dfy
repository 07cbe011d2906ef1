/**
 * The photo upload page: files picked by the user are checked and queued
 * as pending entries, and "upload all" posts each pending entry to the
 * upload route in turn, marking it uploading and then done or failed while
 * a progress counter goes from 0 to the number of pending entries.
 */
module UploadPhotos {
  import opened Wrappers
  import Text
  import JsNumber
  import Collections
  import UploadRoute

  type File = UploadRoute.File

  const MiB := 1048576

  datatype Status = Pending | Uploading | Done | Failed

  /** One queued file; the preview object URL is not modelled. */
  datatype Entry = Entry(file: File, status: Status, error: Option<string>)

  /** What `validateFile` answers. */
  datatype Validation = Validation(isValid: bool, error: Option<string>)

  /** `file.type.split("/")[1]?.toUpperCase()` inside a template: the
   *  upper-cased subtype, or `undefined` when the type has no `/`. */
  function FormatName(mimeType: string): string {
    var parts := Text.Split(mimeType, '/');
    if |parts| >= 2 then Text.ToUpper(parts[1]) else "undefined"
  }

  function UnsupportedMessage(mimeType: string): string {
    "Unsupported format: " + FormatName(mimeType)
  }

  /** The size in tenths of a MiB that `(size / (1024 * 1024)).toFixed(1)`
   *  prints: the nearest tenth, a tie going up. */
  function Tenths(size: nat): nat {
    (20 * size + MiB) / (2 * MiB)
  }

  /** `Tenths(size) / 10` is the tenth of a MiB closest to `size` bytes. */
  lemma TenthsNearest(size: nat)
    ensures 2 * MiB * Tenths(size) - MiB <= 20 * size < 2 * MiB * Tenths(size) + MiB
  {
  }

  /** `toFixed(1)` of the size in MiB. */
  function SizeLabel(size: nat): string {
    var n := Tenths(size);
    JsNumber.NatToString(n / 10) + "." + [JsNumber.DigitChar(n % 10)]
  }

  function TooLargeMessage(size: nat): string {
    "File too large (" + SizeLabel(size) + "MB)"
  }

  /** `validateFile`: the type is checked before the size; `allowed` and
   *  `maxSize` are the upload limits, which are configuration. */
  function ValidateFile(file: File, allowed: seq<string>, maxSize: int): (r: Validation)
    ensures r.isValid <==> file.mimeType in allowed && file.size <= maxSize
    ensures r.isValid <==> r.error.None?
    ensures file.mimeType !in allowed ==> r.error == Some(UnsupportedMessage(file.mimeType))
    ensures file.mimeType in allowed && file.size > maxSize ==> r.error == Some(TooLargeMessage(file.size))
  {
    if file.mimeType !in allowed then Validation(false, Some(UnsupportedMessage(file.mimeType)))
    else if file.size > maxSize then Validation(false, Some(TooLargeMessage(file.size)))
    else Validation(true, None)
  }

  /** A 12,000,000-byte file is reported as 11.4 MB. */
  lemma TooLargeExample()
    ensures TooLargeMessage(12000000) == "File too large (11.4MB)"
  {
    assert Tenths(12000000) == 114;
    assert JsNumber.NatToString(11) == "11";
  }

  /** A file without a subtype is reported with the word `undefined`. */
  lemma UnsupportedWithoutSlash(mimeType: string)
    requires '/' !in mimeType
    ensures UnsupportedMessage(mimeType) == "Unsupported format: undefined"
  {
  }

  predicate IsValidFile(allowed: seq<string>, maxSize: int, file: File) {
    ValidateFile(file, allowed, maxSize).isValid
  }

  /** The new entries a selection adds: its valid files, in order, pending. */
  function Accepted(fs: seq<File>, allowed: seq<string>, maxSize: int): seq<Entry> {
    if fs == [] then []
    else
      var last := fs[|fs| - 1];
      Accepted(fs[..|fs| - 1], allowed, maxSize)
        + (if IsValidFile(allowed, maxSize, last) then [Entry(last, Pending, None)] else [])
  }

  /** The error lines a selection produces, `name: error`, in order. */
  function ErrorLines(fs: seq<File>, allowed: seq<string>, maxSize: int): seq<string> {
    if fs == [] then []
    else
      var last := fs[|fs| - 1];
      var v := ValidateFile(last, allowed, maxSize);
      ErrorLines(fs[..|fs| - 1], allowed, maxSize)
        + (if v.isValid then [] else [last.name + ": " + v.error.value])
  }

  function FilesOf(es: seq<Entry>): seq<File> {
    seq(|es|, i requires 0 <= i < |es| => es[i].file)
  }

  /** `validateFile(file).isValid`, as a filter test. */
  function ValidIn(allowed: seq<string>, maxSize: int): File -> bool {
    (f: File) => IsValidFile(allowed, maxSize, f)
  }

  lemma FilesOfAppend(a: seq<Entry>, b: seq<Entry>)
    ensures FilesOf(a + b) == FilesOf(a) + FilesOf(b)
  {
  }

  /** The accepted entries are the valid files, in selection order. */
  lemma {:induction false} AcceptedFiles(fs: seq<File>, allowed: seq<string>, maxSize: int)
    ensures FilesOf(Accepted(fs, allowed, maxSize)) == Collections.Filter(fs, ValidIn(allowed, maxSize))
  {
    if fs != [] {
      var init, last := fs[..|fs| - 1], fs[|fs| - 1];
      var p := ValidIn(allowed, maxSize);
      AcceptedFiles(init, allowed, maxSize);
      Collections.FilterSnoc(fs, p);
      FilesOfAppend(Accepted(init, allowed, maxSize), if p(last) then [Entry(last, Pending, None)] else []);
    }
  }

  /** Every accepted entry starts pending and without an error. */
  lemma {:induction false} AcceptedPending(fs: seq<File>, allowed: seq<string>, maxSize: int)
    ensures forall e :: e in Accepted(fs, allowed, maxSize) ==> e.status == Pending && e.error.None?
  {
    if fs != [] { AcceptedPending(fs[..|fs| - 1], allowed, maxSize); }
  }

  /** Every file is either accepted or reported on one error line. */
  lemma {:induction false} AcceptedOrReported(fs: seq<File>, allowed: seq<string>, maxSize: int)
    ensures |Accepted(fs, allowed, maxSize)| + |ErrorLines(fs, allowed, maxSize)| == |fs|
  {
    if fs != [] { AcceptedOrReported(fs[..|fs| - 1], allowed, maxSize); }
  }

  /** The form data sent for one file. */
  datatype Shared = Shared(visibility: string, rollNumber: string, publishedDate: string)

  function Payload(file: File, shared: Shared): UploadRoute.Form {
    var roll := Text.Trim(shared.rollNumber);
    [("file", UploadRoute.FileValue(file)), ("title", UploadRoute.Text(file.name)),
     ("description", UploadRoute.Text("")), ("visibility", UploadRoute.Text(shared.visibility))]
    + (if roll != "" then [("rollNumber", UploadRoute.Text(roll))] else [])
    + (if shared.publishedDate != "" then [("publishedDate", UploadRoute.Text(shared.publishedDate))] else [])
  }

  /** The roll number goes out trimmed and only when it is not blank, the
   *  date only when it is not empty, and the title is the file name. */
  lemma PayloadFields(file: File, shared: Shared)
    ensures var p := Payload(file, shared);
            var roll := Text.Trim(shared.rollNumber);
            && UploadRoute.Field(p, "title") == Some(UploadRoute.Text(file.name))
            && UploadRoute.Field(p, "rollNumber") == (if roll != "" then Some(UploadRoute.Text(roll)) else None)
            && UploadRoute.Field(p, "publishedDate") ==
                 (if shared.publishedDate != "" then Some(UploadRoute.Text(shared.publishedDate)) else None)
  {
    var p := Payload(file, shared);
    var roll := Text.Trim(shared.rollNumber);
    var tail := p[4..];
    assert p == p[..4] + tail;
    if roll != "" {
      assert tail[0].0 == "rollNumber";
    } else {
      UploadRoute.FieldAbsent(tail, "rollNumber");
    }
    if shared.publishedDate != "" {
      assert tail[|tail| - 1].0 == "publishedDate";
      UploadRoute.FieldAbsent(tail[..|tail| - 1], "publishedDate");
      FieldAfter(tail[..|tail| - 1], [tail[|tail| - 1]], "publishedDate");
      assert tail == tail[..|tail| - 1] + [tail[|tail| - 1]];
    } else {
      UploadRoute.FieldAbsent(tail, "publishedDate");
    }
    FieldAfter(p[..4], tail, "rollNumber");
    FieldAfter(p[..4], tail, "publishedDate");
  }

  lemma {:induction false} FieldAfter(a: UploadRoute.Form, b: UploadRoute.Form, name: string)
    requires forall k :: 0 <= k < |a| ==> a[k].0 != name
    ensures UploadRoute.Field(a + b, name) == UploadRoute.Field(b, name)
    decreases |a|
  {
    if a != [] {
      assert (a + b)[0] == a[0] && (a + b)[1..] == a[1..] + b;
      assert forall k :: 0 <= k < |a[1..]| ==> a[1..][k] == a[k + 1];
      FieldAfter(a[1..], b, name);
    } else {
      assert a + b == b;
    }
  }

  /** The page sends `visibility`, which the route does not read; the route
   *  reads `isPublic`, which the page never sends, so every upload from
   *  this page goes to the private bucket. */
  lemma PayloadIsPrivate(file: File, shared: Shared)
    ensures UploadRoute.Field(Payload(file, shared), "isPublic").None?
    ensures !UploadRoute.IsPublic(UploadRoute.Field(Payload(file, shared), "isPublic"))
  {
    UploadRoute.FieldAbsent(Payload(file, shared), "isPublic");
  }

  /** What one `fetch` of the upload route gave: a JSON reply, or an
   *  exception with its message. */
  datatype Outcome = Replied(ok: bool, success: bool, error: Option<string>) | Thrown(message: string)

  predicate Succeeded(o: Outcome) {
    o.Replied? && o.ok && o.success
  }

  /** `result.error || "Upload failed"`, or the exception's message. */
  function FailureMessage(o: Outcome): string {
    match o
    case Thrown(m) => m
    case Replied(_, _, e) => if e.None? || e.value == "" then "Upload failed" else e.value
  }

  /** The entry after its upload: done, or failed with the message. */
  function Finished(e: Entry, o: Outcome): (r: Entry)
    ensures r.file == e.file
    ensures Succeeded(o) ==> r.status == Done && r.error == e.error
    ensures !Succeeded(o) ==> r.status == Failed && r.error == Some(FailureMessage(o))
  {
    if Succeeded(o) then e.(status := Done) else e.(status := Failed, error := Some(FailureMessage(o)))
  }

  function CountPending(es: seq<Entry>): nat {
    if es == [] then 0
    else CountPending(es[..|es| - 1]) + (if es[|es| - 1].status == Pending then 1 else 0)
  }

  /** The entries once the loop has passed index `k`: each pending entry
   *  before `k` finished with the outcome for its index. */
  function UploadedUpTo(es: seq<Entry>, outcome: nat -> Outcome, k: nat): (r: seq<Entry>)
    ensures |r| == |es|
  {
    seq(|es|, i requires 0 <= i < |es| => if i < k && es[i].status == Pending then Finished(es[i], outcome(i)) else es[i])
  }

  /** The forms posted, one per pending entry, in list order. */
  function Payloads(es: seq<Entry>, shared: Shared): seq<UploadRoute.Form> {
    if es == [] then []
    else
      var last := es[|es| - 1];
      Payloads(es[..|es| - 1], shared) + (if last.status == Pending then [Payload(last.file, shared)] else [])
  }

  /** One `setFiles` call: entry `index` gets `status`. */
  datatype Update = Update(index: nat, status: Status)

  /** The status changes made: each pending entry
   *  is set uploading and then done or failed. */
  function Updates(es: seq<Entry>, outcome: nat -> Outcome): seq<Update> {
    if es == [] then []
    else
      var n := |es| - 1;
      Updates(es[..n], outcome)
        + (if es[n].status == Pending then [Update(n, Uploading), Update(n, Finished(es[n], outcome(n)).status)] else [])
  }

  /** What entry `i` adds to the counts, forms and status changes. */
  lemma PrefixStep(es: seq<Entry>, shared: Shared, outcome: nat -> Outcome, i: nat)
    requires i < |es|
    ensures var pending := es[i].status == Pending;
            && CountPending(es[..i + 1]) == CountPending(es[..i]) + (if pending then 1 else 0)
            && Payloads(es[..i + 1], shared) == Payloads(es[..i], shared) + (if pending then [Payload(es[i].file, shared)] else [])
            && Updates(es[..i + 1], outcome) ==
                 Updates(es[..i], outcome) + (if pending then [Update(i, Uploading), Update(i, Finished(es[i], outcome(i)).status)] else [])
  {
    assert es[..i + 1][..i] == es[..i];
  }

  /** Passing index `i` finishes entry `i` when it is pending. */
  lemma UploadedStep(es: seq<Entry>, outcome: nat -> Outcome, i: nat)
    requires i < |es|
    ensures UploadedUpTo(es, outcome, i)[i] == es[i]
    ensures UploadedUpTo(es, outcome, i + 1) ==
              if es[i].status == Pending then UploadedUpTo(es, outcome, i)[i := Finished(es[i], outcome(i))]
              else UploadedUpTo(es, outcome, i)
  {
  }

  lemma {:induction false} NoPendingLeft(es: seq<Entry>)
    requires forall i :: 0 <= i < |es| ==> es[i].status != Pending
    ensures CountPending(es) == 0
  {
    if es != [] { NoPendingLeft(es[..|es| - 1]); }
  }

  /** After the loop no entry is pending; entries that were not pending
   *  are as they were, and every pending one is done or failed. */
  lemma UploadedMeaning(es: seq<Entry>, outcome: nat -> Outcome)
    ensures var r := UploadedUpTo(es, outcome, |es|);
            && CountPending(r) == 0
            && (forall i :: 0 <= i < |es| && es[i].status != Pending ==> r[i] == es[i])
            && (forall i :: 0 <= i < |es| && es[i].status == Pending ==>
                  r[i].file == es[i].file && (r[i].status == Done || r[i].status == Failed))
  {
    var r := UploadedUpTo(es, outcome, |es|);
    forall i | 0 <= i < |es| && es[i].status == Pending
      ensures r[i].file == es[i].file && (r[i].status == Done || r[i].status == Failed)
    {
      assert r[i] == Finished(es[i], outcome(i));
    }
    forall i | 0 <= i < |r| ensures r[i].status != Pending {
      if es[i].status == Pending { assert r[i] == Finished(es[i], outcome(i)); }
    }
    NoPendingLeft(r);
  }

  /** Each pending entry contributes one payload and two status changes. */
  lemma {:induction false} CountsAgree(es: seq<Entry>, shared: Shared, outcome: nat -> Outcome)
    ensures |Payloads(es, shared)| == CountPending(es)
    ensures |Updates(es, outcome)| == 2 * CountPending(es)
  {
    if es != [] { CountsAgree(es[..|es| - 1], shared, outcome); }
  }

  /** `{ done, total }`. */
  datatype Progress = Progress(done: nat, total: nat)

  class PhotoUpload {
    var files: seq<Entry>
    var validationError: Option<string>
    var progress: Progress
    var uploading: bool

    constructor()
      ensures files == [] && validationError == None && progress == Progress(0, 0) && !uploading
    {
      files := [];
      validationError := None;
      progress := Progress(0, 0);
      uploading := false;
    }

    /** `handleFilesSelect`: an empty selection changes nothing; otherwise
     *  the valid files are appended as pending entries and the error lines,
     *  joined by newlines, become the validation error. */
    method HandleFilesSelect(selected: seq<File>, allowed: seq<string>, maxSize: int)
      modifies this
      ensures selected == [] ==> files == old(files) && validationError == old(validationError)
      ensures selected != [] ==>
                && files == old(files) + Accepted(selected, allowed, maxSize)
                && var lines := ErrorLines(selected, allowed, maxSize);
                   validationError == if lines == [] then None else Some(Text.JoinWith(lines, "\n"))
      ensures progress == old(progress) && uploading == old(uploading)
    {
      if |selected| == 0 {
        return;
      }
      validationError := None;
      var newEntries: seq<Entry> := [];
      var errors: seq<string> := [];
      var i := 0;
      while i < |selected|
        invariant 0 <= i <= |selected|
        invariant newEntries == Accepted(selected[..i], allowed, maxSize)
        invariant errors == ErrorLines(selected[..i], allowed, maxSize)
      {
        var file := selected[i];
        var validation := ValidateFile(file, allowed, maxSize);
        assert selected[..i + 1][..i] == selected[..i];
        if !validation.isValid {
          errors := errors + [file.name + ": " + validation.error.value];
        } else {
          newEntries := newEntries + [Entry(file, Pending, None)];
        }
        i := i + 1;
      }
      assert selected[..i] == selected;
      if |errors| > 0 {
        validationError := Some(Text.JoinWith(errors, "\n"));
      }
      files := files + newEntries;
    }

    /** `removeFile(index)`: only that entry goes; an index outside the
     *  list removes nothing. */
    method RemoveFile(index: int)
      modifies this
      ensures 0 <= index < |old(files)| ==>
                |files| == |old(files)| - 1
                && (forall j :: 0 <= j < index ==> files[j] == old(files)[j])
                && (forall j :: index <= j < |files| ==> files[j] == old(files)[j + 1])
      ensures !(0 <= index < |old(files)|) ==> files == old(files)
      ensures validationError == old(validationError) && progress == old(progress) && uploading == old(uploading)
    {
      if 0 <= index < |files| {
        files := files[..index] + files[index + 1..];
      }
    }

    /** `clearAll`. */
    method ClearAll()
      modifies this
      ensures files == [] && validationError == None && progress == Progress(0, 0)
      ensures uploading == old(uploading)
    {
      files := [];
      validationError := None;
      progress := Progress(0, 0);
    }

    /** One pass of the upload loop for entry `i`: it is marked uploading,
     *  its form is posted, and it is marked done or failed by the outcome. */
    method UploadEntry(i: nat, shared: Shared, o: Outcome) returns (form: UploadRoute.Form, marks: seq<Update>)
      requires i < |files|
      modifies this
      ensures files == old(files)[i := Finished(old(files)[i], o)]
      ensures form == Payload(old(files)[i].file, shared)
      ensures marks == [Update(i, Uploading), Update(i, Finished(old(files)[i], o).status)]
      ensures validationError == old(validationError) && progress == old(progress) && uploading == old(uploading)
    {
      var entry := files[i];
      files := files[i := entry.(status := Uploading)];
      form := Payload(entry.file, shared);
      var finished := Finished(files[i], o);
      files := files[i := finished];
      marks := [Update(i, Uploading), Update(i, finished.status)];
    }

    /** `handleUploadAll`: `outcome(i)` is what posting entry `i` gave.
     *  Returns the forms posted and the status changes, in order. */
    method HandleUploadAll(shared: Shared, outcome: nat -> Outcome)
      returns (sent: seq<UploadRoute.Form>, updates: seq<Update>)
      modifies this
      ensures CountPending(old(files)) == 0 ==>
                files == old(files) && progress == old(progress) && uploading == old(uploading)
                && sent == [] && updates == []
      ensures CountPending(old(files)) > 0 ==>
                && files == UploadedUpTo(old(files), outcome, |old(files)|)
                && progress == Progress(CountPending(old(files)), CountPending(old(files)))
                && !uploading
                && sent == Payloads(old(files), shared)
                && updates == Updates(old(files), outcome)
      ensures validationError == old(validationError)
    {
      var snapshot := files;
      var total := CountPending(snapshot);
      sent, updates := [], [];
      if total == 0 {
        return;
      }
      uploading := true;
      progress := Progress(0, total);
      var completed := 0;
      var i := 0;
      while i < |snapshot|
        invariant 0 <= i <= |snapshot|
        invariant files == UploadedUpTo(snapshot, outcome, i)
        invariant completed == CountPending(snapshot[..i])
        invariant progress == Progress(completed, total) && uploading
        invariant sent == Payloads(snapshot[..i], shared)
        invariant updates == Updates(snapshot[..i], outcome)
        invariant validationError == old(validationError)
      {
        PrefixStep(snapshot, shared, outcome, i);
        UploadedStep(snapshot, outcome, i);
        if snapshot[i].status == Pending {
          var form, marks := UploadEntry(i, shared, outcome(i));
          sent := sent + [form];
          updates := updates + marks;
          completed := completed + 1;
          progress := Progress(completed, total);
        }
        i := i + 1;
      }
      assert snapshot[..i] == snapshot;
      uploading := false;
    }
  }
}
