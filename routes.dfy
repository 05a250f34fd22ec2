/** The decisions the dashboard's route handlers make once the framework
    has done its part: which layout a view gets, whether the install and
    sign-in pages render or redirect, where show, create and update send
    the browser, and when an update writes the record. The database and
    the framework are represented by the values they hand the handler. */
module Routes {
  import opened JsValues
  import opened Foreign
  import opened ErrorMapper
  import opened ContentReconciler

  datatype Layout = AuthLayout | DefaultLayout

  const AuthPrefix: string := "auth/"

  /** The layout `ctx.render` wraps a view in: views under "auth/" get the
      bare authentication layout, every other view the default one. */
  function LayoutFor(view: string): (l: Layout)
    ensures l == AuthLayout <==> exists rest :: view == AuthPrefix + rest
  {
    if |view| >= |AuthPrefix| && view[..|AuthPrefix|] == AuthPrefix then
      assert view == AuthPrefix + view[|AuthPrefix|..];
      AuthLayout
    else
      DefaultLayout
  }

  /** The pages a handler can send the browser to (`router.url(...)`). */
  datatype Location =
    | Root
    | SignIn
    | Install
    | RecordsIndex(sectionId: nat)
    | RecordsNew(sectionRef: string)
    | RecordsEdit(recordId: nat)

  /** `ctx.flash(kind, message)`. */
  datatype Flash = Flash(kind: string, message: string)

  /** What a handler does with the request: redirect, render a view with
      its locals, or let the error propagate. `flash` lists the messages
      this handler sets; messages left pending in the session by earlier
      requests, which `ctx.flash()` also hands to the view, are not part
      of the model. */
  datatype Response =
    | Redirect(to: Location, flash: seq<Flash>)
    | Render(view: string, layout: Layout, title: string, locals: map<string, Value>, flash: seq<Flash>)
    | Rethrow

  /** `ctx.render(view, title, locals)`: the layout follows the view. */
  function Page(view: string, title: string, locals: map<string, Value>, flash: seq<Flash>): (r: Response)
    ensures r.Render? && r.view == view && r.title == title && r.locals == locals && r.flash == flash
    ensures r.layout == AuthLayout <==> exists rest :: view == AuthPrefix + rest
  {
    Render(view, LayoutFor(view), title, locals, flash)
  }

  /** GET /install: only an empty user table may install. */
  function InstallPage(userCount: nat): (r: Response)
    ensures r.Redirect? <==> userCount > 0
    ensures r.Redirect? ==> r.to == SignIn
    ensures r.Render? ==> r.view == "auth/install" && r.title == "Install"
    ensures r.Render? ==> r.layout == AuthLayout && r.locals == map["email" := Str("")]
  {
    if userCount > 0 then Redirect(SignIn, [])
    else Page("auth/install", "Install", map["email" := Str("")], [])
  }

  /** POST /install: where the request is turned away before any user is
      created; None lets it proceed. */
  function InstallGate(userCount: nat): (r: Option<Location>)
    ensures r.None? <==> userCount == 0
    ensures r.Some? ==> r.value == SignIn
  {
    if userCount > 0 then Some(SignIn) else None
  }

  /** GET /sign_in: without any user there is nobody to sign in. */
  function SignInPage(userCount: nat): (r: Response)
    ensures r.Redirect? <==> userCount == 0
    ensures r.Redirect? ==> r.to == Install
    ensures r.Render? ==> r.view == "auth/sign_in" && r.title == "Sign In" && r.layout == AuthLayout
    ensures r.Render? ==> r.locals == map[]
  {
    if userCount == 0 then Redirect(Install, [])
    else Page("auth/sign_in", "Sign In", map[], [])
  }

  /** Whatever the user count, exactly one of the two pages renders, and
      the other one redirects to it: the gates never send the browser
      round in circles. */
  lemma GatesSettle(userCount: nat)
    ensures InstallPage(userCount).Render? != SignInPage(userCount).Render?
    ensures InstallPage(userCount).Redirect? ==> SignInPage(userCount).Render?
    ensures SignInPage(userCount).Redirect? ==> InstallPage(userCount).Render?
  {
  }

  /** A section as the handlers see it, with the ids of its records in the
      order `include: 'records'` lists them and `options.recipient`. */
  datatype Section = Section(id: nat, labelText: string, labelSingular: string, multiple: bool,
                             repeating: bool, form: bool, recipient: Option<Value>, recordIds: seq<nat>)

  /** A record with its stored content and its section. */
  datatype Record = Record(id: nat, content: Value, section: Section)

  /** GET /sections/:id: a section without records starts a new one (by
      the id as written in the URL); a multiple section lists its
      records; any other section edits its first record. */
  function ShowTarget(section: Section, paramId: string): (to: Location)
    ensures to.RecordsNew? <==> |section.recordIds| == 0
    ensures to.RecordsNew? ==> to.sectionRef == paramId
    ensures to.RecordsIndex? ==> section.multiple && to.sectionId == section.id
    ensures |section.recordIds| > 0 && section.multiple ==> to == RecordsIndex(section.id)
    ensures |section.recordIds| > 0 && !section.multiple ==> to == RecordsEdit(section.recordIds[0])
  {
    if |section.recordIds| == 0 then RecordsNew(paramId)
    else if section.multiple then RecordsIndex(section.id)
    else RecordsEdit(section.recordIds[0])
  }

  /** Where create and update send the browser after saving: the list for
      a multiple section, the record's edit page otherwise. */
  function AfterSaveTarget(section: Section, recordId: nat): (to: Location)
    ensures to.RecordsIndex? <==> section.multiple
    ensures to.RecordsIndex? ==> to.sectionId == section.id
    ensures !to.RecordsIndex? ==> to == RecordsEdit(recordId)
  {
    if section.multiple then RecordsIndex(section.id) else RecordsEdit(recordId)
  }

  /** Once a section has records, showing it goes where saving its first
      record does. */
  lemma ShowAgreesWithSave(section: Section, paramId: string)
    requires |section.recordIds| > 0
    ensures ShowTarget(section, paramId) == AfterSaveTarget(section, section.recordIds[0])
  {
  }

  /** The title of the new-record page. */
  function NewTitle(section: Section): (t: string)
    ensures section.repeating ==> t == "New " + section.labelSingular
    ensures !section.repeating ==> t == section.labelText
  {
    if section.repeating then "New " + section.labelSingular else section.labelText
  }

  /** The record the new-record form is filled from: the submitted body,
      or a record with empty content when nothing was submitted. */
  function DefaultRecord(body: map<string, Value>): (r: Value)
    ensures Truthy(r)
    ensures body != map[] ==> r == Obj(body)
    ensures body == map[] ==> r == Obj(map["content" := EmptyObject])
  {
    if body == map[] then Obj(map["content" := EmptyObject]) else Obj(body)
  }

  const FixErrors: string := "Please fix the following errors, then resubmit."

  /** `_newAction(ctx, errors)`: the content form, filled from the
      submitted body, with the mapped validation errors. */
  function NewAction(lib: Library, section: Section, body: map<string, Value>, issues: seq<Issue>,
                     flash: seq<Flash>): (r: Response)
    ensures r.Render? && r.view == "records/new" && r.layout == DefaultLayout && r.flash == flash
    ensures r.title == NewTitle(section)
    ensures r.locals.Keys == {"form", "errors", "record"} && r.locals["form"] == Str("content")
    ensures r.locals["errors"] == ContentErrors(lib, issues) && Truthy(r.locals["errors"])
    ensures r.locals["record"] == DefaultRecord(body) && Truthy(r.locals["record"])
  {
    assert "records/new"[0] != AuthPrefix[0];
    Page("records/new", NewTitle(section),
         map["form" := Str("content"), "errors" := ContentErrors(lib, issues), "record" := DefaultRecord(body)],
         flash)
  }

  /** `_editAction(ctx, errors)`: the edit form with the mapped validation
      errors. */
  function EditAction(lib: Library, record: Record, issues: seq<Issue>, flash: seq<Flash>): (r: Response)
    ensures r.Render? && r.view == "records/edit" && r.layout == DefaultLayout && r.flash == flash
    ensures r.title == "Edit " + record.section.labelSingular
    ensures r.locals.Keys == {"errors"} && r.locals["errors"] == ContentErrors(lib, issues)
    ensures Truthy(r.locals["errors"])
  {
    assert "records/edit"[0] != AuthPrefix[0];
    Page("records/edit", "Edit " + record.section.labelSingular,
         map["errors" := ContentErrors(lib, issues)], flash)
  }

  /** GET /sections/:id/records/new: a form section shows the e-mail form,
      addressed to its configured recipient or else the signed-in user;
      any other section shows the content form with no errors. */
  function NewPage(lib: Library, section: Section, userEmail: string, body: map<string, Value>): (r: Response)
    ensures r.Render? && r.view == "records/new" && r.layout == DefaultLayout && r.flash == []
    ensures section.form ==>
              r.title == section.labelText + " Form" && "form" in r.locals && r.locals["form"] == Str("email")
    ensures section.form ==>
              "recipient" in r.locals && r.locals["recipient"] == OrElse(section.recipient, Str(userEmail))
    ensures section.form && userEmail != "" ==> Truthy(r.locals["recipient"])
    ensures !section.form ==>
              r.title == NewTitle(section) && "errors" in r.locals && r.locals["errors"] == EmptyObject
    ensures !section.form ==> "record" in r.locals && r.locals["record"] == DefaultRecord(body)
    ensures !section.form ==> r == NewAction(lib, section, body, [], [])
  {
    assert "records/new"[0] != AuthPrefix[0];
    if section.form then
      Page("records/new", section.labelText + " Form",
           map["form" := Str("email"), "recipient" := OrElse(section.recipient, Str(userEmail))], [])
    else
      NewAction(lib, section, body, [], [])
  }

  /** How the database answers the save or update a handler asks for. */
  datatype SaveOutcome = Stored | Rejected(issues: seq<Issue>) | Crashed

  /** A handler's response together with the content it asked the
      database to store, if it asked at all. */
  datatype Outcome = Outcome(response: Response, write: Option<map<string, Value>>)

  /** POST /sections/:id/records with the reconciled content, the
      database's answer and the id it gives the new record. A content
      error is not a validation error and propagates. */
  function Create(lib: Library, section: Section, reconciled: Result<map<string, Value>, ContentError>,
                  body: map<string, Value>, save: SaveOutcome, newId: nat): (o: Outcome)
    ensures reconciled.Failure? ==> o == Outcome(Rethrow, None)
    ensures reconciled.Success? ==> o.write == Some(reconciled.value)
    ensures reconciled.Success? && save.Stored? ==>
              o.response == Redirect(AfterSaveTarget(section, newId), [Flash("success", "Created " + section.labelSingular)])
    ensures reconciled.Success? && save.Rejected? ==>
              o.response.Render? && o.response.view == "records/new" && o.response.title == NewTitle(section) &&
              "errors" in o.response.locals && o.response.locals["errors"] == ContentErrors(lib, save.issues) &&
              o.response.flash == [Flash("error", FixErrors)]
    ensures reconciled.Success? && save.Rejected? ==>
              o.response == NewAction(lib, section, body, save.issues, [Flash("error", FixErrors)])
    ensures save.Crashed? ==> o.response == Rethrow
  {
    match reconciled
    case Failure(_) => Outcome(Rethrow, None)
    case Success(content) =>
      match save
      case Stored =>
        Outcome(Redirect(AfterSaveTarget(section, newId), [Flash("success", "Created " + section.labelSingular)]),
                Some(content))
      case Rejected(issues) =>
        Outcome(NewAction(lib, section, body, issues, [Flash("error", FixErrors)]), Some(content))
      case Crashed => Outcome(Rethrow, Some(content))
  }

  /** POST /records/:id with the reconciled content and the database's
      answer should the record be updated. The record is written, and the
      success message set, only when the content differs from what is
      stored; whenever nothing fails the browser is redirected. */
  function Update(lib: Library, record: Record, reconciled: Result<map<string, Value>, ContentError>,
                  save: SaveOutcome): (o: Outcome)
    ensures reconciled.Failure? ==> o == Outcome(Rethrow, None)
    ensures reconciled.Success? ==> (o.write.Some? <==> record.content != Obj(reconciled.value))
    ensures o.write.Some? ==> reconciled.Success? && o.write.value == reconciled.value
    ensures reconciled.Success? && (o.write.None? || save.Stored?) ==>
              o.response.Redirect? && o.response.to == AfterSaveTarget(record.section, record.id)
    ensures o.response.Redirect? ==>
              (o.response.flash == [Flash("success", "Updated " + record.section.labelSingular)] <==> o.write.Some?)
    ensures o.response.Redirect? && o.write.None? ==> o.response.flash == []
    ensures o.write.Some? && save.Rejected? ==>
              o.response.Render? && o.response.view == "records/edit" &&
              "errors" in o.response.locals && o.response.locals["errors"] == ContentErrors(lib, save.issues) &&
              o.response.flash == [Flash("error", FixErrors)]
    ensures o.write.Some? && save.Rejected? ==>
              o.response == EditAction(lib, record, save.issues, [Flash("error", FixErrors)])
    ensures o.write.Some? && save.Crashed? ==> o.response == Rethrow
  {
    match reconciled
    case Failure(_) => Outcome(Rethrow, None)
    case Success(content) =>
      var to := AfterSaveTarget(record.section, record.id);
      if record.content == Obj(content) then Outcome(Redirect(to, []), None)
      else
        match save
        case Stored =>
          Outcome(Redirect(to, [Flash("success", "Updated " + record.section.labelSingular)]), Some(content))
        case Rejected(issues) =>
          Outcome(EditAction(lib, record, issues, [Flash("error", FixErrors)]), Some(content))
        case Crashed => Outcome(Rethrow, Some(content))
  }

  /** Submitting the same content again after a stored update writes
      nothing and sets no message, and goes to the same page. */
  lemma UpdateIdempotent(lib: Library, record: Record, content: map<string, Value>,
                         first: SaveOutcome, again: SaveOutcome)
    requires Update(lib, record, Success(content), first).write.Some? && first.Stored?
    ensures var stored := record.(content := Obj(content));
            Update(lib, stored, Success(content), again) == Outcome(Redirect(AfterSaveTarget(record.section, record.id), []), None)
            && Update(lib, record, Success(content), first).response.to == AfterSaveTarget(record.section, record.id)
  {
  }
}
