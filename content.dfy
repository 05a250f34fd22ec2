/** `_content`: turns a submitted form into the content map stored on a
    record, in three phases: keep the submitted values of the section's
    fields, overlay the uploaded files of those fields, then drop every
    field the form asks to destroy. */
module ContentReconciler {
  import opened JsValues
  import opened Foreign
  import opened FieldNames
  import opened FileStore

  /** The TypeError `_content` throws when an upload's form key has no
      `content[...]`: `match` returned null and `[1]` was read from it. */
  datatype ContentError = NoFieldReference(index: nat, fieldname: string)

  /** What a function makes of every upload, in upload order. */
  function PerUpload<T>(f: Upload -> T, files: seq<Upload>): (r: seq<T>)
    ensures |r| == |files|
  {
    seq(|files|, j requires 0 <= j < |files| => f(files[j]))
  }

  /** The field of every upload, in upload order. */
  function Targets(files: seq<Upload>): seq<Option<string>> {
    PerUpload((f: Upload) => FieldReference(f.fieldname), files)
  }

  /** The copy `_saveFile` would start for every upload, in upload order. */
  function StoredCopies(lib: Library, files: seq<Upload>): (c: seq<Copy>)
    ensures |c| == |files|
  {
    PerUpload((f: Upload) => SaveFile(lib, f), files)
  }

  /** Upload j is the first whose key names no field. */
  ghost predicate FirstUnmatched(targets: seq<Option<string>>, j: nat) {
    j < |targets| && targets[j].None? &&
    forall j' :: 0 <= j' < j ==> targets[j'].Some?
  }

  /** One of the first n uploads is for field k. */
  ghost predicate UploadedFor(targets: seq<Option<string>>, n: nat, k: string) {
    exists j :: 0 <= j < n && j < |targets| && targets[j] == Some(k)
  }

  /** Upload j is the last of the first n uploads for field k. */
  ghost predicate LastUploadFor(targets: seq<Option<string>>, n: nat, k: string, j: nat) {
    j < n && j < |targets| && targets[j] == Some(k) &&
    forall j' :: j < j' < n && j' < |targets| ==> targets[j'] != Some(k)
  }

  /** The first n uploads all name a field. */
  ghost predicate AllMatched(targets: seq<Option<string>>, n: nat) {
    n <= |targets| && forall j :: 0 <= j < n ==> targets[j].Some?
  }

  /** The copies started for the first n uploads: the copy of every
      upload whose key names an allowed field, in upload order. */
  function Kept(allowedFields: seq<string>, targets: seq<Option<string>>, all: seq<Copy>, n: nat): seq<Copy>
    requires n <= |targets| && n <= |all|
  {
    if n == 0 then []
    else
      var target := targets[n - 1];
      Kept(allowedFields, targets, all, n - 1) +
      (if target.Some? && target.value in allowedFields then [all[n - 1]] else [])
  }

  /** The content map after the first n uploads when all of them name a
      field: each upload for an allowed field overwrites that field with
      the name of its copy. */
  function Overlay(picked: map<string, Value>, allowedFields: seq<string>,
                   targets: seq<Option<string>>, all: seq<Copy>, n: nat): map<string, Value>
    requires AllMatched(targets, n) && n <= |all|
  {
    if n == 0 then picked
    else
      var field := targets[n - 1].value;
      var before := Overlay(picked, allowedFields, targets, all, n - 1);
      if field in allowedFields then before[field := Str(all[n - 1].name)] else before
  }

  /** What the upload loop has built after the first i uploads: the
      picked fields plus every allowed field uploaded so far, each holding
      the name of its last upload's copy, the others their picked value. */
  ghost predicate Overlaid(picked: map<string, Value>, allowedFields: seq<string>,
                           targets: seq<Option<string>>, all: seq<Copy>, i: nat, content: map<string, Value>)
  {
    && (forall k :: k in content <==> k in picked || (k in allowedFields && UploadedFor(targets, i, k)))
    && (forall k, j: nat :: k in content && LastUploadFor(targets, i, k, j) && j < |all| ==>
          content[k] == Str(all[j].name))
    && (forall k :: k in content && !UploadedFor(targets, i, k) ==> content[k] == picked[k])
  }

  lemma OverlayStep(picked: map<string, Value>, allowedFields: seq<string>,
                    targets: seq<Option<string>>, all: seq<Copy>, i: nat, field: string,
                    content: map<string, Value>)
    requires i < |targets| && i < |all| && targets[i] == Some(field)
    requires forall k :: k in picked ==> k in allowedFields
    requires Overlaid(picked, allowedFields, targets, all, i, content)
    ensures Overlaid(picked, allowedFields, targets, all, i + 1,
                     if field in allowedFields then content[field := Str(all[i].name)] else content)
  {
  }

  /** The overlaid map holds the picked fields and every allowed uploaded
      field, the latter with the name of its last upload's copy and the
      others with their picked value. */
  lemma {:induction false} OverlayIsOverlaid(picked: map<string, Value>, allowedFields: seq<string>,
                                             targets: seq<Option<string>>, all: seq<Copy>, n: nat)
    requires AllMatched(targets, n) && n <= |all|
    requires forall k :: k in picked ==> k in allowedFields
    ensures Overlaid(picked, allowedFields, targets, all, n, Overlay(picked, allowedFields, targets, all, n))
  {
    if n > 0 {
      OverlayIsOverlaid(picked, allowedFields, targets, all, n - 1);
      OverlayStep(picked, allowedFields, targets, all, n - 1, targets[n - 1].value,
                  Overlay(picked, allowedFields, targets, all, n - 1));
    }
  }

  /** The upload loop of `_content`, given how a form key is read
      (`target`) and how a file is saved (`save`): each upload whose key
      names an allowed field overwrites that field with the name of its
      copy, in order; the first upload whose key names no field throws. */
  method SaveFiles(picked: map<string, Value>, allowedFields: seq<string>, files: seq<Upload>,
                   target: Upload -> Option<string>, save: Upload -> Copy)
    returns (r: Result<map<string, Value>, ContentError>, copies: seq<Copy>)
    ensures r.Failure? ==> FirstUnmatched(PerUpload(target, files), r.error.index)
    ensures r.Failure? ==> r.error.fieldname == files[r.error.index].fieldname
    ensures r.Failure? ==> copies == Kept(allowedFields, PerUpload(target, files), PerUpload(save, files), r.error.index)
    ensures r.Success? ==> AllMatched(PerUpload(target, files), |files|)
    ensures r.Success? ==> copies == Kept(allowedFields, PerUpload(target, files), PerUpload(save, files), |files|)
    ensures r.Success? ==> r.value == Overlay(picked, allowedFields, PerUpload(target, files), PerUpload(save, files), |files|)
  {
    ghost var targets := PerUpload(target, files);
    ghost var all := PerUpload(save, files);
    var content := picked;
    copies := [];
    var i := 0;
    while i < |files|
      invariant 0 <= i <= |files|
      invariant AllMatched(targets, i)
      invariant copies == Kept(allowedFields, targets, all, i)
      invariant content == Overlay(picked, allowedFields, targets, all, i)
    {
      var field := target(files[i]);
      if field.None? {
        r := Failure(NoFieldReference(i, files[i].fieldname));
        return;
      }
      if field.value in allowedFields {
        var saved := save(files[i]);
        copies := copies + [saved];
        content := content[field.value := Str(saved.name)];
      }
      i := i + 1;
    }
    r := Success(content);
  }

  /** The destroy loop of `_content`: `delete content[fieldName]` for every
      key of `body._destroy`. */
  method DestroyFields(content: map<string, Value>, destroy: seq<string>) returns (r: map<string, Value>)
    ensures forall k :: k in r <==> k in content && k !in destroy
    ensures forall k :: k in r ==> r[k] == content[k]
  {
    r := content;
    var d := 0;
    while d < |destroy|
      invariant 0 <= d <= |destroy|
      invariant forall k :: k in r <==> k in content && k !in destroy[..d]
      invariant forall k :: k in r ==> r[k] == content[k]
    {
      assert destroy[..d + 1] == destroy[..d] + [destroy[d]];
      r := r - {destroy[d]};
      d := d + 1;
    }
    assert destroy[..d] == destroy;
  }

  /** `_content(ctx)`. `submitted` is `body.content` (an absent one picks
      to `{}`), `allowedFields` is `Object.keys(section.fields)`, `files`
      is `ctx.request.files` in order, and `destroy` lists the keys of
      `body._destroy` (their values are ignored). Besides the content
      map, `copies` lists the file copies started along the way, which
      remain started when a later upload makes the call throw. */
  method Content(lib: Library, submitted: map<string, Value>, allowedFields: seq<string>,
                 files: seq<Upload>, destroy: seq<string>)
    returns (r: Result<map<string, Value>, ContentError>, copies: seq<Copy>)
    ensures r.Failure? <==> exists j :: 0 <= j < |files| && Targets(files)[j].None?
    ensures r.Failure? ==> FirstUnmatched(Targets(files), r.error.index)
    ensures r.Failure? ==> r.error.index < |files| && r.error.fieldname == files[r.error.index].fieldname
    ensures r.Failure? ==> copies == Kept(allowedFields, Targets(files), StoredCopies(lib, files), r.error.index)
    ensures r.Success? ==> copies == Kept(allowedFields, Targets(files), StoredCopies(lib, files), |files|)
    ensures r.Success? ==> forall k :: k in r.value <==>
              k in allowedFields && k !in destroy && (k in submitted || UploadedFor(Targets(files), |files|, k))
    ensures r.Success? ==> forall k, j: nat :: k in r.value && LastUploadFor(Targets(files), |files|, k, j) ==>
              r.value[k] == Str(FileDigest(lib, files[j]))
    ensures r.Success? ==> forall k :: k in r.value && !UploadedFor(Targets(files), |files|, k) ==>
              r.value[k] == submitted[k]
    ensures files == [] ==> r.Success? && copies == []
    ensures files == [] && destroy == [] ==>
              r.value == map k | k in submitted && k in allowedFields :: submitted[k]
  {
    var picked := map k | k in submitted && k in allowedFields :: submitted[k];
    var overlaid;
    var target := (f: Upload) => FieldReference(f.fieldname);
    var save := f => SaveFile(lib, f);
    overlaid, copies := SaveFiles(picked, allowedFields, files, target, save);
    if overlaid.Failure? {
      assert Targets(files)[overlaid.error.index].None?;
      r := Failure(overlaid.error);
      return;
    }
    OverlayIsOverlaid(picked, allowedFields, Targets(files), StoredCopies(lib, files), |files|);
    var content := DestroyFields(overlaid.value, destroy);
    r := Success(content);
  }
}
