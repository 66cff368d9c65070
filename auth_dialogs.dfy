/** frontend/src/components/AuthDialogs.tsx: the sign-up and login dialogs
    and the gateway that chooses between them. The form state is a value;
    `Reset`, `ToggleRole` and `AfterSubmit` give the next value. */
module AuthDialogs {
  import opened Common
  import opened AccountModels
  import AccountSerializers

  /** The sign-up dialog's state. */
  datatype SignupForm = SignupForm(
    email: string, password: string, password2: string,
    firstName: string, lastName: string, phone: string, cne: string,
    role: Role, submitting: bool, error: Option<string>, success: bool)

  /** `fixedRole ?? 'CUSTOMER'`. */
  function InitialRole(fixedRole: Option<Role>): Role
  {
    if fixedRole.Some? then fixedRole.value else Customer
  }

  /** `reset`: every field empty, the role back to its initial value. */
  function Reset(fixedRole: Option<Role>): (f: SignupForm)
    ensures f.email == f.password == f.password2 == f.firstName == f.lastName == f.phone == f.cne == ""
    ensures f.role == InitialRole(fixedRole) && !f.submitting && f.error.None? && !f.success
  {
    SignupForm("", "", "", "", "", "", "", InitialRole(fixedRole), false, None, false)
  }

  /** The role toggle, shown only without a fixed role; deselecting keeps
      the current role. */
  function ToggleRole(fixedRole: Option<Role>, f: SignupForm, value: Option<Role>): SignupForm
  {
    if fixedRole.Some? || value.None? then f else f.(role := value.value)
  }

  /** The characters JavaScript's `String.prototype.trim()` removes: white
      space (tab, vertical tab, form feed, the space, the no-break space, the
      byte-order mark and the Unicode space separators) and line terminators. */
  predicate IsJsSpace(c: char)
  {
    || ('\t' <= c <= '\r') || c == ' ' || c == '\U{A0}' || c == '\U{FEFF}'
    || c == '\U{1680}' || ('\U{2000}' <= c <= '\U{200A}') || c == '\U{2028}' || c == '\U{2029}'
    || c == '\U{202F}' || c == '\U{205F}' || c == '\U{3000}'
  }

  /** `s.trim() === ''`: every character is one `trim` removes. */
  predicate JsBlank(s: string)
  {
    forall k :: 0 <= k < |s| ==> IsJsSpace(s[k])
  }

  /** White space Python strips and JavaScript keeps: the separators
      0x1C-0x1F and NEL. */
  predicate PythonOnlySpace(c: char)
  {
    ('\U{1C}' <= c <= '\U{1F}') || c == '\U{85}'
  }

  /** `canSubmit`. */
  predicate CanSubmit(f: SignupForm)
  {
    && f.email != "" && f.password != "" && f.password2 != "" && f.password == f.password2
    && !JsBlank(f.firstName) && !JsBlank(f.lastName) && !JsBlank(f.phone)
    && (f.role != Courier || !JsBlank(f.cne))
    && !f.submitting
  }

  /** A text JavaScript finds non-blank and Python strips to nothing holds a
      character only Python counts as white space. */
  lemma BlankOnlyInPython(s: string)
    requires !JsBlank(s) && Strip(s) == []
    ensures exists k :: 0 <= k < |s| && PythonOnlySpace(s[k])
  {
    StripProperties(s);
    var k :| 0 <= k < |s| && !IsJsSpace(s[k]);
    assert IsSpace(s[k]);
  }

  /** A dialog opened with a fixed role keeps it through every toggle, and a
      freshly reset form cannot be sent. */
  lemma FixedRoleStays(r: Role, f: SignupForm, value: Option<Role>)
    ensures Reset(Some(r)).role == r && Reset(None).role == Customer
    ensures ToggleRole(Some(r), f, value) == f
    ensures value.Some? ==> ToggleRole(None, f, value).role == value.value
    ensures !CanSubmit(Reset(Some(r))) && !CanSubmit(Reset(None))
  {
  }

  /** The body of the sign-up request. */
  datatype SignupRequest = SignupRequest(
    email: string, password: string, role: Role,
    firstName: string, lastName: string, phone: string, cne: string)

  datatype SubmitStart = Send(request: SignupRequest) | Refuse(message: string)

  const MismatchMessage: string := "Les mots de passe ne correspondent pas."

  /** The start of `handleSubmit`: two different passwords are refused before
      any request is made. */
  function StartSubmit(f: SignupForm): (r: SubmitStart)
    ensures r.Refuse? <==> f.password != f.password2
    ensures r.Refuse? ==> r.message == MismatchMessage
    ensures r.Send? ==> r.request.email == f.email && r.request.password == f.password && r.request.role == f.role
  {
    if f.password != f.password2 then Refuse(MismatchMessage)
    else Send(SignupRequest(f.email, f.password, f.role, f.firstName, f.lastName, f.phone, f.cne))
  }

  /** What the backend serializer receives from a request. */
  function AttrsOf(r: SignupRequest): AccountSerializers.Attrs
  {
    AccountSerializers.Attrs(None, r.email, Some(r.role),
      map["first_name" := r.firstName, "last_name" := r.lastName, "phone" := r.phone, "cne" := r.cne], None)
  }

  /** A form the dialog lets the user send is sent with its role, without a
      capacity (so `create` applies the courier default of 10), and the
      backend's `validate` finds a courier field blank only when that field
      holds a character Python strips and JavaScript's `trim` keeps. */
  lemma {:induction false} SubmittableIsValid(f: SignupForm)
    requires CanSubmit(f)
    ensures StartSubmit(f).Send?
    ensures var a := AttrsOf(StartSubmit(f).request);
      AccountSerializers.RoleOf(a) == f.role &&
      (f.role == Courier ==> forall field :: field in AccountSerializers.ProfileFields && AccountSerializers.Blank(a, field) ==>
         exists k :: 0 <= k < |AccountSerializers.Get(a.text, field)| && PythonOnlySpace(AccountSerializers.Get(a.text, field)[k]))
    ensures AttrsOf(StartSubmit(f).request).capacityKg.None?
  {
    var a := AttrsOf(StartSubmit(f).request);
    if f.role == Courier {
      forall field | field in AccountSerializers.ProfileFields && AccountSerializers.Blank(a, field)
        ensures exists k :: 0 <= k < |AccountSerializers.Get(a.text, field)| && PythonOnlySpace(AccountSerializers.Get(a.text, field)[k])
      {
        assert field == "first_name" || field == "last_name" || field == "phone" || field == "cne";
        assert AccountSerializers.Get(a.text, "first_name") == f.firstName;
        assert AccountSerializers.Get(a.text, "last_name") == f.lastName;
        assert AccountSerializers.Get(a.text, "phone") == f.phone;
        assert AccountSerializers.Get(a.text, "cne") == f.cne;
        BlankOnlyInPython(AccountSerializers.Get(a.text, field));
      }
    }
  }

  /** The button and the backend disagree: a courier whose first name is the
      single separator 0x1C may press the button, and `validate` then finds
      that field blank. */
  lemma SeparatorPassesButton()
    ensures var f := SignupForm("a@b.c", "pw", "pw", "\U{1C}", "Alami", "0600", "AB1", Courier, false, None, false);
      CanSubmit(f) && AccountSerializers.Blank(AttrsOf(StartSubmit(f).request), "first_name")
  {
    var f := SignupForm("a@b.c", "pw", "pw", "\U{1C}", "Alami", "0600", "AB1", Courier, false, None, false);
    assert !IsJsSpace('A') && !IsJsSpace('0') && !IsJsSpace('\U{1C}');
    assert "Alami"[0] == 'A' && "0600"[0] == '0' && "AB1"[0] == 'A';
    StripProperties("\U{1C}");
    assert AccountSerializers.Get(AttrsOf(StartSubmit(f).request).text, "first_name") == "\U{1C}";
  }

  /** A value in the error body: a list of messages, one message, or
      something else. */
  datatype ErrorValue = ListValue(items: seq<string>) | TextValue(text: string) | OtherValue

  datatype Entry = Entry(key: string, value: ErrorValue)

  /** The error body: text, an object (its entries in order), or anything else.
      A falsy body other than the empty text (`0`, `false`, `null`) fails the
      `err.response?.data` test like a missing body does; it is written here
      as no body (`None`), not as `OtherData`. */
  datatype ErrorData = TextData(text: string) | ObjectData(entries: seq<Entry>) | OtherData

  /** What the request can throw: an HTTP error whose response body may be
      missing, or any other error. */
  datatype Failure = HttpFailure(message: string, data: Option<ErrorData>) | OtherFailure(message: string)

  const GenericFieldError: string := "Impossible de créer le compte. Vérifiez les informations fournies."
  const GenericError: string := "Impossible de créer le compte."

  /** `parts.join(sep)`. */
  function Join(parts: seq<string>, sep: string): string
  {
    if parts == [] then ""
    else if |parts| == 1 then parts[0]
    else Join(parts[..|parts| - 1], sep) + sep + parts[|parts| - 1]
  }

  /** The line one entry contributes: `key: v1, v2` for a list, `key: v`
      for text, nothing otherwise. */
  function EntryMessages(e: Entry): seq<string>
  {
    match e.value
    case ListValue(items) => [e.key + ": " + Join(items, ", ")]
    case TextValue(text) => [e.key + ": " + text]
    case OtherValue => []
  }

  function MessagesOf(entries: seq<Entry>): seq<string>
  {
    FlatMap(entries, EntryMessages)
  }

  /** The message for an object body. */
  function ObjectMessage(entries: seq<Entry>): string
  {
    var messages := MessagesOf(entries);
    if |messages| > 0 then Join(messages, " | ") else GenericFieldError
  }

  /** The loop that collects the field errors of an object body. */
  method FormatFieldErrors(entries: seq<Entry>) returns (text: string)
    ensures text == ObjectMessage(entries)
  {
    var messages: seq<string> := [];
    var i := 0;
    while i < |entries|
      invariant 0 <= i <= |entries|
      invariant messages == MessagesOf(entries[..i])
    {
      var e := entries[i];
      assert entries[..i + 1] == entries[..i] + [e];
      FlatMapConcat(entries[..i], [e], EntryMessages);
      assert FlatMap([e], EntryMessages) == EntryMessages(e) by {
        assert [e][..0] == [];
      }
      if e.value.ListValue? {
        messages := messages + [e.key + ": " + Join(e.value.items, ", ")];
      } else if e.value.TextValue? {
        messages := messages + [e.key + ": " + e.value.text];
      }
      i := i + 1;
    }
    assert entries[..i] == entries;
    if |messages| > 0 {
      text := Join(messages, " | ");
    } else {
      text := GenericFieldError;
    }
  }

  /** The error shown after a failed sign-up. An empty text body counts as
      no body. */
  function SubmitError(failure: Failure): string
  {
    match failure
    case HttpFailure(message, data) =>
      if data.Some? && data.value != TextData("") then
        match data.value
        case TextData(text) => text
        case ObjectData(entries) => ObjectMessage(entries)
        case OtherData => GenericFieldError
      else if message != "" then message else GenericError
    case OtherFailure(message) => if message != "" then message else GenericError
  }

  /** `handleSubmit` from its start to its `finally`. `answer` is the
      backend's reply to the request, `None` for a success; no request is made
      when the passwords differ, and then `answer` is not consulted. The
      fields typed stay as they were. */
  function AfterSubmit(f: SignupForm, answer: Option<Failure>): (g: SignupForm)
    ensures !g.submitting
    ensures g.(submitting := f.submitting, error := f.error, success := f.success) == f
    ensures f.password != f.password2 ==> g.error == Some(MismatchMessage) && g.success == f.success
    ensures f.password == f.password2 && answer.None? ==> g.error.None? && g.success
    ensures f.password == f.password2 && answer.Some? ==> g.error == Some(SubmitError(answer.value)) && g.success == f.success
  {
    var start := StartSubmit(f);
    var failure := if start.Refuse? then Some(OtherFailure(start.message)) else answer;
    f.(submitting := false,
       error := if failure.Some? then Some(SubmitError(failure.value)) else None,
       success := f.success || failure.None?)
  }

  /** An object body yields the generic message exactly when none of its
      entries is a list or a text. */
  lemma {:induction false} NoMessagesIffNothingReadable(entries: seq<Entry>)
    ensures MessagesOf(entries) == [] <==> forall k :: 0 <= k < |entries| ==> entries[k].value.OtherValue?
  {
    if entries != [] {
      var init := entries[..|entries| - 1];
      NoMessagesIffNothingReadable(init);
      assert forall k :: 0 <= k < |init| ==> init[k] == entries[k];
    }
  }

  /** The field errors keep the body's order: the messages of two bodies
      joined are the messages of each, joined. */
  lemma MessagesKeepOrder(a: seq<Entry>, b: seq<Entry>)
    ensures MessagesOf(a + b) == MessagesOf(a) + MessagesOf(b)
  {
    FlatMapConcat(a, b, EntryMessages);
  }

  /** What the user sees for the usual failures: a password mismatch shows
      its own message, a text body is shown as is, a body with one field
      error shows that field and its message. */
  lemma {:induction false} ErrorMessages(f: SignupForm, key: string, text: string, items: seq<string>, message: string)
    requires f.password != f.password2 && text != ""
    ensures SubmitError(OtherFailure(StartSubmit(f).message)) == MismatchMessage
    ensures SubmitError(HttpFailure(message, Some(TextData(text)))) == text
    ensures SubmitError(HttpFailure(message, Some(ObjectData([Entry(key, TextValue(text))])))) == key + ": " + text
    ensures SubmitError(HttpFailure(message, Some(ObjectData([Entry(key, ListValue(items))])))) == key + ": " + Join(items, ", ")
    ensures SubmitError(HttpFailure(message, None)) == if message != "" then message else GenericError
  {
    var t := [Entry(key, TextValue(text))];
    var l := [Entry(key, ListValue(items))];
    assert t[..0] == [] && l[..0] == [];
    assert EntryMessages(t[0]) == [key + ": " + text];
    assert FlatMap(t, EntryMessages) == FlatMap(t[..0], EntryMessages) + EntryMessages(t[0]);
    assert FlatMap(l, EntryMessages) == FlatMap(l[..0], EntryMessages) + EntryMessages(l[0]);
    assert MessagesOf(t) == [key + ": " + text];
    assert MessagesOf(l) == [key + ": " + Join(items, ", ")];
  }

  /** The login dialog's button is disabled while a field is empty or a
      request is in flight. */
  predicate LoginDisabled(email: string, password: string, submitting: bool)
  {
    email == "" || password == "" || submitting
  }

  const LoginFailedMessage: string := "Identifiants invalides. Réessayez."

  /** The token request sends the e-mail as the username; any failure shows
      one fixed message. */
  datatype LoginRequest = LoginRequest(username: string, password: string)

  function LoginRequestOf(email: string, password: string): LoginRequest
  {
    LoginRequest(email, password)
  }

  /** An enabled login button sends a request with both credentials filled. */
  lemma LoginEnabledSendsCredentials(email: string, password: string, submitting: bool)
    requires !LoginDisabled(email, password, submitting)
    ensures LoginRequestOf(email, password).username != "" && LoginRequestOf(email, password).password != ""
    ensures LoginRequestOf(email, password).username == email
  {
  }

  /** The gateway's `flow`. */
  datatype Flow = Choice | SignupCustomer | SignupCourier | Login

  /** The dialog a flow shows. */
  datatype Shown = ChoiceDialog | SignupDialog(fixedRole: Role) | LoginDialog

  function ShownFor(flow: Flow): (d: Shown)
    ensures d.SignupDialog? <==> flow == SignupCustomer || flow == SignupCourier
  {
    match flow
    case SignupCustomer => SignupDialog(Customer)
    case SignupCourier => SignupDialog(Courier)
    case Login => LoginDialog
    case Choice => ChoiceDialog
  }

  /** `handleClose`: back to the choice. */
  function CloseFlow(flow: Flow): Flow
  {
    Choice
  }

  /** Closing any dialog of the gateway brings back the choice, and a sign-up
      opened from the gateway carries the role of the button chosen. */
  lemma GatewayFlows(flow: Flow)
    ensures ShownFor(CloseFlow(flow)) == ChoiceDialog
    ensures ShownFor(SignupCourier) == SignupDialog(Courier) && Reset(Some(ShownFor(SignupCourier).fixedRole)).role == Courier
    ensures ShownFor(SignupCustomer) == SignupDialog(Customer) && Reset(Some(ShownFor(SignupCustomer).fixedRole)).role == Customer
  {
  }
}
