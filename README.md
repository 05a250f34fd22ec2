# Vapid dashboard core, modelled in Dafny

Vapid's dashboard (`lib/dashboard.js`) is the administration side of a small
content management system. A section of the site has fields. A record holds
a content map from field name to value. The dashboard's forms create and
update records, upload files into them and report validation errors. This
project models the logic in that file that stands on its own, below the
Koa, Passport and Sequelize glue:

- **Content reconciliation** (`_content`, module `ContentReconciler`).
  - The submitted `body.content` is cut down to the section's fields.
  - Each upload whose form key names an allowed field (`content[<field>]`)
    overwrites that field with the stored file's name, in upload order.
  - Every key of `body._destroy` is then deleted.
  - An upload whose key holds no `content[...]` makes the call throw.
  - The upload loop is a method whose loop invariants tie it to the
    specification functions `Overlay` and `Kept`. The destroy loop is a
    method proved against its own postcondition: the keys left are the
    earlier keys minus the destroyed ones.
- **Field names in form keys** (`FieldNames`). The regular expression
  `content\[(.*)\]` is modelled with JavaScript's semantics: the leftmost
  match, with a greedy capture that stops at a line terminator.
- **Stored file names** (`_fileDigest`, `_saveFile`; modules `FileStore` and
  `NodePath`).
  - The name is `snakeCase(name) + "-" + checksum + ext`.
  - `name` and `ext` come from Node's posix `path.parse`. The model
    computes those two parts only, `".."` special cases included.
  - `_saveFile` returns that name. It starts a copy of the file and does
    not wait for it. The copy is modelled as a value (`Copy`), which
    `Content` also returns.
- **Validation error mapping** (`_errors`, module `ErrorMapper`).
  - A loop folds the items into a memo from path to decoded message.
  - The method is proved equal to a declarative definition: the decoded
    message of the last item whose path is exactly `"content"`, or `{}`.
- **Handler decisions** (module `Routes`): the layout choice, the
  install/sign-in gates, the redirect targets of show, create and update,
  the new-record title and default record, and the update-skip test.

Library code is passed in as plain functions: `Utils.snakeCase`,
`Utils.checksum` and `JSON.parse` are the fields of a `Foreign.Library`
value. Every property holds for any implementation of them, except the
round trip of stored file names: it needs `snakeCase` and `checksum` to
produce segments without '.', '/' or '-' (`FileStore.PlainNaming`). The database
and the user table are represented by the answers they give: a user count,
and a `SaveOutcome` for a save or an update.

Behaviour of the code worth knowing, which the model keeps:

- `_errors` keeps only the item whose path is exactly `"content"`
  (lib/dashboard.js:429). Items about `"content.title"` and other nested
  paths are dropped (`ErrorMapper.NestedPathsDropped`).
- `_saveFile` returns the name as soon as the copy has been started by
  `reader.pipe(stream)` (lib/dashboard.js:461-465). Nothing waits for
  the copy to finish.
- The extension is kept exactly as the client sent it, case included
  (`NodePath.ExtensionCaseKept`, `FileStore.FileDigest`).
- `_fileDigest` checksums the file the upload was written to. It is
  modelled as a function of that file's bytes.
- When a later upload makes `_content` throw, the copies started for
  earlier uploads are still under way (`Content`'s `copies` output).

## Model

| member | source | states |
|---|---|---|
| JsValues.OrElse | lib/dashboard.js:429 | `v \|\| fallback` gives `v` exactly when it is present and truthy, and the fallback otherwise; a truthy fallback makes the result truthy |
| NodePath.ParsePath | lib/dashboard.js:470 | `path.parse(p)` yields a name and extension that together contain no separator; the extension is empty or a dot followed by no dot or slash; an extension never comes with an empty name |
| NodePath.ParseThenJoin | lib/dashboard.js:470 | for a path with no separator, name followed by ext gives back the path |
| NodePath.JoinThenParse | lib/dashboard.js:470 | parsing name + ext gives back the non-empty name and the extension, provided the extension's dot is the last dot and the result is not ".." |
| NodePath.ExtensionCaseKept | lib/dashboard.js:470 | "photo.JPG" splits into "photo" and ".JPG", case kept |
| NodePath.DotFileHasNoExtension | lib/dashboard.js:470 | a leading dot does not start an extension: ".bashrc" has none |
| NodePath.DotDot | lib/dashboard.js:470 | ".." is never split, but "/.." splits into "." and "." |
| NodePath.LastComponent | lib/dashboard.js:470 | a client name with directories is split like its last component alone |
| NodePath.ParseAfterSlash | lib/dashboard.js:470 | a path whose last separator is past its first character splits the base after that separator |
| NodePath.ParseComponent | lib/dashboard.js:470 | a single non-empty component splits itself, left whole when it is ".." |
| FileStore.FileDigest | lib/dashboard.js:468-473 | with plain naming segments, the stored name is a single component `snake-checksum.ext` (no separator, so it stays in the uploads directory) that parses back into the name `snake-checksum` and the client's own extension, case kept, and the checksum of the upload's bytes is read back from it |
| FileStore.SaveFile | lib/dashboard.js:454-466 | the name returned is the digest name; the copy holds the upload's bytes, under a name that carries their checksum and the client's extension |
| FileStore.DigestParses | lib/dashboard.js:472 | a name built as `snake-checksum` + ext from plain segments has no separator and parses back into `snake-checksum` and ext |
| FileStore.DigestChecksum | lib/dashboard.js:472 | the checksum is what follows the last '-' of such a name's name part |
| FileStore.SameContentSameChecksum | lib/dashboard.js:468-473 | byte-identical uploads share the digest component of their stored names, whatever their file names |
| FieldNames.LastCloseIsLast | lib/dashboard.js:439 | the greedy `(.*)\]` closes at the last `]` before the first line terminator, and nothing closes when there is none |
| FieldNames.FindMatchIsLeftmostGreedy | lib/dashboard.js:439 | the match found is the leftmost one, with the greedy end; no match is reported only when none exists |
| FieldNames.FieldReference | lib/dashboard.js:439 | `match(...)[1]`: a field name exists exactly when the key matches `content\[(.*)\]`, and it is the capture of the leftmost greedy match |
| FieldNames.PlainKey | lib/dashboard.js:439 | "content[photo]" names the field "photo" |
| FieldNames.NestedKey | lib/dashboard.js:439 | "content[a][b]" names the field "a][b" (the capture is greedy) |
| FieldNames.KeyWithoutReference | lib/dashboard.js:439 | "photo" has no match, so `[1]` would throw |
| ContentReconciler.OverlayStep | lib/dashboard.js:438-444 | one more upload keeps the overlay invariant: the keys are the picked ones plus the allowed uploaded fields, each uploaded field holds its last upload's name, the others their picked value |
| ContentReconciler.OverlayIsOverlaid | lib/dashboard.js:438-444 | the overlay of any number of uploads satisfies that invariant |
| ContentReconciler.SaveFiles | lib/dashboard.js:438-444 | the upload loop fails at the first upload whose key names no field, having started exactly the copies of the allowed uploads before it; otherwise it returns the overlay of all uploads and their copies |
| ContentReconciler.DestroyFields | lib/dashboard.js:447-449 | the result holds exactly the keys not named in `_destroy`, with their values unchanged |
| ContentReconciler.Content | lib/dashboard.js:432-452 | fails exactly when some upload's key names no field, reporting the first; otherwise the keys are exactly the allowed, non-destroyed ones that were submitted or uploaded; an uploaded field holds the stored name of its last upload, any other field its submitted value; with no uploads and no destroys the result is the submitted content cut down to the fields |
| ErrorMapper.Decode | lib/dashboard.js:415-421 | the result is the parsed JSON value, or the raw message when parsing fails; decoding never throws |
| ErrorMapper.Memo | lib/dashboard.js:414-426 | the memo's keys are exactly the paths of the items |
| ErrorMapper.ContentErrors | lib/dashboard.js:428-429 | the result is always truthy, and it is `{}` when no item is about "content" |
| ErrorMapper.MemoKeepsLast | lib/dashboard.js:414-425 | after the fold, a path is a key exactly when some item is about it, and it holds the decoded message of the last such item |
| ErrorMapper.MapErrors | lib/dashboard.js:413-430 | the fold-and-select returns the decoded message of the last item whose path is exactly "content", or `{}` when there is none or it is falsy |
| ErrorMapper.OtherPathIgnored | lib/dashboard.js:428-429 | an item about any other path, "content.title" included, leaves the result unchanged |
| ErrorMapper.LastContentWins | lib/dashboard.js:422-429 | a later "content" item replaces whatever came before |
| ErrorMapper.RawMessageKept | lib/dashboard.js:415-421 | a message that is not JSON comes back as the raw string, unless it is empty |
| ErrorMapper.FalsyFallsBack | lib/dashboard.js:429 | a parsed message that is null, false, 0 or "" gives `{}` |
| ErrorMapper.NestedPathsDropped | lib/dashboard.js:413-430 | items about "content.title" and "email" give `{}` |
| Routes.LayoutFor | lib/dashboard.js:102 | a view gets the auth layout exactly when its path starts with "auth/" |
| Routes.Page | lib/dashboard.js:101-112 | `ctx.render` renders the view with the given title, locals and flash, in the auth layout exactly when the view starts with "auth/" |
| Routes.InstallPage | lib/dashboard.js:129-138 | the install page redirects to sign-in exactly when a user exists; otherwise it renders "auth/install", titled "Install", in the auth layout with an empty e-mail |
| Routes.InstallGate | lib/dashboard.js:140-144 | posting the install form is turned away to sign-in exactly when a user exists |
| Routes.SignInPage | lib/dashboard.js:167-174 | the sign-in page redirects to install exactly when no user exists; otherwise it renders "auth/sign_in", titled "Sign In", in the auth layout with no locals |
| Routes.GatesSettle | lib/dashboard.js:130-133 | for every user count exactly one of the install and sign-in pages renders, and the other redirects to it |
| Routes.ShowTarget | lib/dashboard.js:237-246 | showing a section goes to the new-record page (by the id in the URL) exactly when it has no records; otherwise to the list for a multiple section, and to editing its first record for any other |
| Routes.AfterSaveTarget | lib/dashboard.js:294-299 | after a save the browser goes to the list exactly when the section is multiple, and otherwise to the saved record's edit page |
| Routes.ShowAgreesWithSave | lib/dashboard.js:237-246 | a section with records is shown where saving its first record leads |
| Routes.NewTitle | lib/dashboard.js:393 | the new-record page is titled "New <singular label>" for a repeating section and with the section's label otherwise |
| Routes.DefaultRecord | lib/dashboard.js:394 | the form is filled from the submitted body, or from exactly `{ content: {} }` when nothing was submitted |
| Routes.NewAction | lib/dashboard.js:392-402 | the content form "records/new" in the default layout, titled by `NewTitle`, with modelled locals exactly form "content", the mapped errors (always truthy) and the default record |
| Routes.EditAction | lib/dashboard.js:404-411 | "records/edit" in the default layout, titled "Edit <singular label>", with the mapped errors (always truthy) as its only modelled local |
| Routes.NewPage | lib/dashboard.js:263-280 | the view is always "records/new"; a form section gets the e-mail form titled "<label> Form", addressed to `options.recipient \|\| user.email` (truthy whenever the user has an e-mail); any other section gets exactly `_newAction`'s content form with no errors, filled from the default record |
| Routes.Create | lib/dashboard.js:282-311 | a content error propagates and nothing is saved; otherwise the content is saved; success redirects to the after-save target with "Created <singular label>"; a validation failure re-renders exactly `_newAction`'s page, refilled from the submitted body, with the mapped errors; any other failure propagates |
| Routes.Update | lib/dashboard.js:317-343 | the record is written, and "Updated <singular label>" flashed, exactly when the reconciled content differs from the stored one; the browser is redirected to the after-save target whenever nothing fails; a validation failure re-renders exactly `_editAction`'s page with the mapped errors |
| Routes.UpdateIdempotent | lib/dashboard.js:329-334 | submitting the same content again after a stored update writes nothing, flashes nothing and goes to the same page |

## Left out

- HTTP and the framework are not modelled. This covers Koa routing, sessions, CSRF and template rendering. A response is a value: a redirect target, or a view with its title, layout and the locals modelled here.
- The render locals `action`, `csrf`, `yield`, and the e-mail form's `fields`, `subject` and `next`, are not modelled. They are URLs or values passed through unchanged.
- These routes are not modelled: the root redirect, the records index, the `/records/:id` redirect, deletion, sign-out, and the authentication middleware. They decide nothing beyond what the framework supplies.
- The sign-in POST is not modelled: Passport handles it.
- The build route is not modelled. It depends on `url.parse`, a database lookup and an external site builder.
- The 404s of `findSection` and `findRecord` are not modelled: they come before any modelled handler runs.
- The rest of POST /install is not modelled: user creation, login and build. Only its gate is.
- Persistence is not modelled. `User.count()` is a number. `record.save()` and `record.update()` are a `SaveOutcome`. The id of a new record is a parameter.
- File I/O in `_saveFile` (`mkdirp`, the read and write streams, `pipe`) is not modelled. A started copy is recorded as a `Copy` value, with no claim about when it completes.
- `Utils.snakeCase`, `Utils.checksum` and `JSON.parse` are parameters, not definitions. lib/utils.js is not part of this model.
- `Utils.checksum` hashes the file at `file.path`. It is modelled as a function of that file's bytes.
- `Utils.pick` is modelled as restricting the map to keys that are field names. Lodash's deep paths (a field name containing "." or "[") are not modelled.
- `Utils.isEqual` is modelled as equality of JSON values. NaN, `undefined`, -0 and sparse arrays are not represented.
- Numbers are mathematical reals, not IEEE doubles.
- `body._destroy` is given as the sequence of its keys. The values are ignored, as the code ignores them.
- Keys such as `__proto__`, which plain JavaScript objects treat specially, are not modelled.
- Flash messages pending in the session from earlier requests are not modelled. `ctx.flash()` hands them to the view and clears them. A response's `flash` lists only the messages the handler itself sets.
- Async execution is not modelled, nor is concurrency between requests.
- ContentReconciler.SaveFiles: proved for any way of reading a form key and saving a file. `Content` instantiates it with the regular expression and `_saveFile`, which keeps each proof small.
- FileStore.FileDigest, FileStore.SaveFile and FileStore.SameContentSameChecksum: the round trip of a stored name is promised only when `snakeCase` and `checksum` output no '.', '/' or '-'. Lodash's snake case and a hex digest satisfy this. Without it a stored name cannot be split back.
- `path.parse`'s `root`, `dir` and `base` are not computed; `_fileDigest` reads only `name` and `ext`.
- `require('path')` gives Windows path rules when Node runs on Windows; only the posix rules are modelled.
