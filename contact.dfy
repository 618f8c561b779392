/** The contact form of the site (`contact.js`): the checks on the submitted
    fields, the meta tags that configure where the message goes, the choice
    between Formspree, FormSubmit and a configuration error, the status line and
    the submit button. The page's meta tags and fields are given as values; the
    network request is a parameter that returns the reply. */
module Contact {
  import opened Wrappers
  import opened Text

  // ---------------------------------------------------------------------------
  // validEmail: /^[^\s@]+@[^\s@]+\.[^\s@]+$/

  /** `[^\s@]`. */
  predicate IsEmailChar(c: char) {
    !IsWs(c) && c != '@'
  }

  /** `[^\s@]+`. */
  predicate EmailPart(s: string) {
    |s| > 0 && forall i :: 0 <= i < |s| ==> IsEmailChar(s[i])
  }

  /** `[^\s@]+\.[^\s@]+`: a run of `[^\s@]` with a dot that is neither its first
      nor its last character (a dot is itself in `[^\s@]`). */
  predicate DomainPart(d: string) {
    EmailPart(d) && |d| >= 3 && '.' in d[1..|d| - 1]
  }

  /** `validEmail(email)`: the part before the only `@` and the part after it. */
  predicate ValidEmail(email: string) {
    match IndexOf(email, '@')
    case None => false
    case Some(a) => EmailPart(email[..a]) && DomainPart(email[a + 1..])
  }

  /** A valid address is `l@d1.d2` with three non-empty runs of `[^\s@]`. */
  lemma ValidEmailSound(email: string) returns (l: string, d1: string, d2: string)
    requires ValidEmail(email)
    ensures email == l + ("@" + (d1 + ("." + d2)))
    ensures EmailPart(l) && EmailPart(d1) && EmailPart(d2)
  {
    var a := IndexOf(email, '@').value;
    l := email[..a];
    d1, d2 := DomainSplit(email[a + 1..]);
    CutAt(email, a);
  }

  /** A domain is `d1.d2` with two non-empty runs of `[^\s@]`. */
  lemma DomainSplit(d: string) returns (d1: string, d2: string)
    requires DomainPart(d)
    ensures d == d1 + ("." + d2)
    ensures EmailPart(d1) && EmailPart(d2)
  {
    var m := d[1..|d| - 1];
    var j :| 0 <= j < |m| && m[j] == '.';
    assert d[j + 1] == '.';
    d1, d2 := d[..j + 1], d[j + 2..];
    CutAt(d, j + 1);
    SliceIsEmailPart(d, 0, j + 1);
    SliceIsEmailPart(d, j + 2, |d|);
    assert d[0..j + 1] == d1 && d[j + 2..|d|] == d2;
  }

  /** A non-empty slice of a run of `[^\s@]` is one too. */
  lemma SliceIsEmailPart(s: string, i: nat, j: nat)
    requires EmailPart(s) && i < j <= |s|
    ensures EmailPart(s[i..j])
  {
    forall k | 0 <= k < j - i ensures IsEmailChar(s[i..j][k]) {
      assert s[i..j][k] == s[i + k];
    }
  }

  /** A text is what comes before a character, that character, and what follows. */
  lemma CutAt(s: string, i: nat)
    requires i < |s|
    ensures s == s[..i] + ([s[i]] + s[i + 1..])
  {
    assert s[i..] == [s[i]] + s[i + 1..];
    assert s == s[..i] + s[i..];
  }

  /** Every `l@d1.d2` with three non-empty runs of `[^\s@]` is valid: the regular
      expression can choose any dot of the domain. */
  lemma ValidEmailComplete(l: string, d1: string, d2: string)
    requires EmailPart(l) && EmailPart(d1) && EmailPart(d2)
    ensures ValidEmail(l + ("@" + (d1 + ("." + d2))))
  {
    var d := d1 + ("." + d2);
    var email := l + ("@" + d);
    assert email[|l|] == '@';
    assert email[..|l|] == l;
    IndexOfAt(email, '@', |l|);
    var a := |l|;
    assert email[a + 1..] == d;
    forall i | 0 <= i < |d| ensures IsEmailChar(d[i]) {
      if i < |d1| {
        assert d[i] == d1[i];
      } else if i > |d1| {
        assert d[i] == d2[i - |d1| - 1];
      }
    }
    assert d[1..|d| - 1][|d1| - 1] == '.';
  }

  // ---------------------------------------------------------------------------
  // The meta tags

  /** `m && m.getAttribute('content') || ''`: `None` is a missing tag or attribute. */
  function MetaContent(meta: Option<string>): (v: string)
    ensures meta.Some? ==> v == meta.value
    ensures meta.None? ==> v == ""
  {
    meta.GetOr("")
  }

  const FormspreePrefix: string := "https://formspree.io/"
  const PlaceholderId: string := "REPLACE_FORM_ID"
  const DefaultEndpoint: string := "https://formspree.io/f/REPLACE_FORM_ID"

  /** `getFormspreeEndpoint()`: the `contact:formspree` content when it starts with
      `https://formspree.io/`, else `''`. */
  function FormspreeEndpoint(meta: Option<string>): (r: string)
    ensures r != "" <==> StartsWith(MetaContent(meta), FormspreePrefix)
    ensures r != "" ==> r == MetaContent(meta)
  {
    var v := MetaContent(meta);
    if v != "" && StartsWith(v, FormspreePrefix) then v else ""
  }

  /** `FORMSPREE_ENDPOINT`: the configured endpoint, else the placeholder one. */
  function Endpoint(meta: Option<string>): (r: string)
    ensures StartsWith(r, FormspreePrefix)
    ensures FormspreeEndpoint(meta) != "" ==> r == FormspreeEndpoint(meta)
  {
    var e := FormspreeEndpoint(meta);
    if e != "" then e else DefaultEndpoint
  }

  /** `getContactEmail()`: the `contact:email` content when it holds an `@`. */
  function ContactEmail(meta: Option<string>): (r: string)
    ensures r != "" <==> '@' in MetaContent(meta)
    ensures r != "" ==> r == MetaContent(meta)
  {
    var v := MetaContent(meta);
    if '@' in v then v else ""
  }

  /** `deployEnv`: the `deploy:env` content, `'development'` when it is missing or
      empty. */
  function DeployEnv(meta: Option<string>): (r: string)
    ensures r != ""
    ensures MetaContent(meta) != "" ==> r == MetaContent(meta)
  {
    var v := MetaContent(meta);
    if v != "" then v else "development"
  }

  /** `enableCaptcha`. */
  function CaptchaEnabled(meta: Option<string>): bool {
    DeployEnv(meta) == "production"
  }

  /** The captcha is on exactly when the page says it is deployed to production. */
  lemma CaptchaIff(meta: Option<string>)
    ensures CaptchaEnabled(meta) <==> meta == Some("production")
  {}

  /** The placeholder endpoint never counts as a Formspree form. */
  lemma DefaultHasPlaceholder()
    ensures Contains(DefaultEndpoint, PlaceholderId)
  {
    assert OccursAt(DefaultEndpoint, PlaceholderId, 23);
  }

  /** The meta tags read by the handler. */
  datatype Config = Config(formspree: Option<string>, email: Option<string>, deploy: Option<string>)

  // ---------------------------------------------------------------------------
  // The checks of the submit handler

  datatype Field = Nombre | Email | Mensaje

  /** The values of `#nombre`, `#email` and `#mensaje`; `None` is a missing field. */
  datatype Fields = Fields(nombre: Option<string>, email: Option<string>, mensaje: Option<string>)

  /** The payload: the trimmed fields and `location.pathname`. */
  datatype Payload = Payload(nombre: string, email: string, mensaje: string, page: string)

  /** The error shown and the field focused, or the payload to send. */
  datatype Check = Rejected(message: string, focus: Option<Field>) | Accepted(payload: Payload)

  const Incomplete: string := "Formulario incompleto."
  const NameMissing: string := "Por favor ingresa tu nombre."
  const BadEmail: string := "Ingresa un correo válido."
  const ShortMessage: string := "El mensaje debe tener al menos 10 caracteres."
  const MinMessage: nat := 10

  /** The checks in order, the first failing one deciding the error. */
  function Validate(f: Fields, page: string): (r: Check) {
    if f.nombre.None? || f.email.None? || f.mensaje.None? then Rejected(Incomplete, None)
    else if Trim(f.nombre.value) == "" then Rejected(NameMissing, Some(Nombre))
    else if !ValidEmail(Trim(f.email.value)) then Rejected(BadEmail, Some(Email))
    else if Trim(f.mensaje.value) == "" || |Trim(f.mensaje.value)| < MinMessage then Rejected(ShortMessage, Some(Mensaje))
    else Accepted(Payload(Trim(f.nombre.value), Trim(f.email.value), Trim(f.mensaje.value), page))
  }

  /** The three fields are on the form. */
  predicate Present(f: Fields) {
    f.nombre.Some? && f.email.Some? && f.mensaje.Some?
  }

  /** What makes a set of fields acceptable. */
  predicate Acceptable(f: Fields) {
    Present(f) && Trim(f.nombre.value) != "" && ValidEmail(Trim(f.email.value))
    && |Trim(f.mensaje.value)| >= MinMessage
  }

  /** Exactly the acceptable fields are sent, as their trimmed values: a non-empty
      name, a valid address and a message of at least ten characters. */
  lemma ValidateAccepts(f: Fields, page: string)
    ensures Validate(f, page).Accepted? <==> Acceptable(f)
    ensures Validate(f, page).Accepted? ==>
      Validate(f, page).payload == Payload(Trim(f.nombre.value), Trim(f.email.value), Trim(f.mensaje.value), page)
  {}

  /** The sent payload holds trimmed text. */
  lemma PayloadTrimmed(f: Fields, page: string)
    requires Validate(f, page).Accepted?
    ensures var p := Validate(f, page).payload;
      Trim(p.nombre) == p.nombre && Trim(p.email) == p.email && Trim(p.mensaje) == p.mensaje
  {
    TrimIdempotent(f.nombre.value);
    TrimIdempotent(f.email.value);
    TrimIdempotent(f.mensaje.value);
  }

  /** The first failing check decides the error: a missing field before an empty
      name, before an invalid address, before a short message. */
  lemma ValidationOrder(f: Fields, page: string)
    ensures Validate(f, page) == Rejected(Incomplete, None) <==> !Present(f)
    ensures Validate(f, page) == Rejected(NameMissing, Some(Nombre))
      <==> (Present(f) && Trim(f.nombre.value) == "")
    ensures Validate(f, page) == Rejected(BadEmail, Some(Email))
      <==> (Present(f) && Trim(f.nombre.value) != "" && !ValidEmail(Trim(f.email.value)))
    ensures Validate(f, page) == Rejected(ShortMessage, Some(Mensaje))
      <==> (Present(f) && Trim(f.nombre.value) != "" && ValidEmail(Trim(f.email.value))
            && |Trim(f.mensaje.value)| < MinMessage)
  {}

  // ---------------------------------------------------------------------------
  // Where the message goes

  /** The FormSubmit body. */
  datatype FormSubmitBody = FormSubmitBody(
    name: string, email: string, message: string, page: string,
    subject: string, template: string, captcha: string)

  /** The request sent, or the configuration error. */
  datatype Route =
    | Formspree(url: string, payload: Payload)
    | FormSubmit(url: string, body: FormSubmitBody)
    | Misconfigured

  const FormSubmitBase: string := "https://formsubmit.co/ajax/"
  const Subject: string := "Nuevo contacto desde Iris Inclusión"

  /** `useFormspree`, `targetEmail` and the three-way choice; `encode` is
      `encodeURIComponent`. */
  function ChooseRoute(c: Config, p: Payload, encode: string -> string): (r: Route) {
    var endpoint := Endpoint(c.formspree);
    var target := ContactEmail(c.email);
    if endpoint != "" && !Contains(endpoint, PlaceholderId) then Formspree(endpoint, p)
    else if target != "" then
      FormSubmit(FormSubmitBase + encode(target),
        FormSubmitBody(p.nombre, p.email, p.mensaje, p.page, Subject, "table",
          if CaptchaEnabled(c.deploy) then "true" else "false"))
    else Misconfigured
  }

  /** Formspree is used exactly when a `contact:formspree` endpoint is configured
      without the placeholder id; FormSubmit, for the contact address, when it is
      not and an address is; otherwise nothing is sent. */
  lemma RouteChoice(c: Config, p: Payload, encode: string -> string)
    ensures ChooseRoute(c, p, encode).Formspree?
      <==> FormspreeEndpoint(c.formspree) != "" && !Contains(FormspreeEndpoint(c.formspree), PlaceholderId)
    ensures ChooseRoute(c, p, encode).Formspree? ==> ChooseRoute(c, p, encode).url == MetaContent(c.formspree)
    ensures ChooseRoute(c, p, encode).FormSubmit?
      <==> !ChooseRoute(c, p, encode).Formspree? && '@' in MetaContent(c.email)
    ensures ChooseRoute(c, p, encode).FormSubmit? ==>
      ChooseRoute(c, p, encode).url == FormSubmitBase + encode(MetaContent(c.email))
  {
    DefaultHasPlaceholder();
  }

  /** FormSubmit gets the same trimmed fields, and the captcha flag is `'true'`
      exactly in production. */
  lemma FormSubmitBodyRules(c: Config, p: Payload, encode: string -> string)
    requires ChooseRoute(c, p, encode).FormSubmit?
    ensures var b := ChooseRoute(c, p, encode).body;
      b.name == p.nombre && b.email == p.email && b.message == p.mensaje && b.page == p.page
    ensures ChooseRoute(c, p, encode).body.captcha == "true" <==> c.deploy == Some("production")
    ensures ChooseRoute(c, p, encode).body.captcha == "false" <==> c.deploy != Some("production")
  {
    CaptchaIff(c.deploy);
  }

  // ---------------------------------------------------------------------------
  // The status line

  const Success: string := "success"
  const Error: string := "error"

  /** The colour class `showStatus` adds for a kind. */
  function Colour(kind: string): string {
    if kind == Success then "text-green-600"
    else if kind == Error then "text-red-600"
    else "text-gray-600"
  }

  const Colours: set<string> := {"text-green-600", "text-red-600", "text-gray-600"}

  /** The classes of the status line after `showStatus(el, kind, text)`. */
  function StatusClasses(kind: string): set<string> {
    {"mt-3", "text-sm", Colour(kind)}
  }

  /** The status line always carries `mt-3` and `text-sm` and exactly one colour:
      green for success, red for an error, gray otherwise. */
  lemma StatusClassesRules(kind: string)
    ensures "mt-3" in StatusClasses(kind) && "text-sm" in StatusClasses(kind)
    ensures StatusClasses(kind) * Colours == {Colour(kind)}
    ensures "text-green-600" in StatusClasses(kind) <==> kind == Success
    ensures "text-red-600" in StatusClasses(kind) <==> kind == Error
    ensures "text-gray-600" in StatusClasses(kind) <==> kind != Success && kind != Error
  {}

  /** The `contact-status` element. */
  class StatusLine {
    var text: string
    var classes: set<string>
    var role: string

    constructor ()
      ensures text == "" && classes == {} && role == ""
    {
      text, classes, role := "", {}, "";
    }

    /** `showStatus(el, kind, text)`: the previous classes are cleared first. */
    method Show(kind: string, t: string)
      modifies this
      ensures text == t && classes == StatusClasses(kind) && role == "status"
    {
      text := t;
      classes := {};
      role := "status";
      classes := classes + {"mt-3", "text-sm"};
      if kind == Success {
        classes := classes + {"text-green-600"};
      } else if kind == Error {
        classes := classes + {"text-red-600"};
      } else {
        classes := classes + {"text-gray-600"};
      }
    }
  }

  // ---------------------------------------------------------------------------
  // Sending

  /** The outcome of `fetch`: it threw, or the reply with its status flag and the
      `error` and `message` members of its JSON body (`""` when absent or when the
      body is not JSON). */
  datatype Reply = Threw | Replied(ok: bool, error: string, message: string)

  const Sent: string := "¡Gracias! Tu mensaje fue enviado."
  const SendFailed: string := "No se pudo enviar el mensaje. Intenta más tarde."
  const NetworkError: string := "Error de red. Revisa tu conexión e intenta nuevamente."
  const NotConfigured: string := "Configura tu Form ID de Formspree o define el email en <meta name=\"contact:email\" ...>."
  const Sending: string := "Enviando…"

  /** The status shown for a reply: `data?.error || data?.message || ...`. */
  function ReplyStatus(r: Reply): (s: (string, string))
    ensures s.0 == Success <==> r.Replied? && r.ok
    ensures s.0 == Success || s.0 == Error
    ensures s.1 != ""
  {
    match r
    case Threw => (Error, NetworkError)
    case Replied(ok, error, message) =>
      if ok then (Success, Sent)
      else if error != "" then (Error, error)
      else if message != "" then (Error, message)
      else (Error, SendFailed)
  }

  /** What one submission ends with: the status kind and text, the field focused and
      the request sent. */
  datatype Outcome = Outcome(kind: string, text: string, focus: Option<Field>, sent: Option<Route>)

  /** The specification of the submit handler. */
  function SubmitOutcome(f: Fields, page: string, c: Config, encode: string -> string, send: Route -> Reply): Outcome {
    match Validate(f, page)
    case Rejected(m, focus) => Outcome(Error, m, focus, None)
    case Accepted(p) =>
      var route := ChooseRoute(c, p, encode);
      if route.Misconfigured? then Outcome(Error, NotConfigured, None, None)
      else
        var s := ReplyStatus(send(route));
        Outcome(s.0, s.1, None, Some(route))
  }

  /** Only acceptable fields are sent, and only to a configured service; success is
      shown exactly when such a request got an `ok` reply. */
  lemma SubmitRules(f: Fields, page: string, c: Config, encode: string -> string, send: Route -> Reply)
    ensures var o := SubmitOutcome(f, page, c, encode, send);
      o.sent.Some? ==> Acceptable(f) && !o.sent.value.Misconfigured?
    ensures var o := SubmitOutcome(f, page, c, encode, send);
      o.kind == Success <==> o.sent.Some? && send(o.sent.value).Replied? && send(o.sent.value).ok
    ensures var o := SubmitOutcome(f, page, c, encode, send);
      o.kind == Success || o.kind == Error
    ensures var o := SubmitOutcome(f, page, c, encode, send);
      Acceptable(f) && o.sent.None? ==> o.text == NotConfigured
  {
    ValidateAccepts(f, page);
  }

  /** The text shown for a sent request: a thrown request reports the network
      error; an `ok` reply the thanks; a failed reply its `error`, else its
      `message`, else the fixed failure text. */
  lemma SubmitReplyText(f: Fields, page: string, c: Config, encode: string -> string, send: Route -> Reply)
    ensures var o := SubmitOutcome(f, page, c, encode, send);
      o.sent.Some? && send(o.sent.value).Threw? ==> o.kind == Error && o.text == NetworkError
    ensures var o := SubmitOutcome(f, page, c, encode, send);
      o.sent.Some? && send(o.sent.value).Replied? && send(o.sent.value).ok ==> o.text == Sent
    ensures var o := SubmitOutcome(f, page, c, encode, send);
      o.sent.Some? && send(o.sent.value).Replied? && !send(o.sent.value).ok ==>
        o.kind == Error &&
        (send(o.sent.value).error != "" ==> o.text == send(o.sent.value).error) &&
        (send(o.sent.value).error == "" && send(o.sent.value).message != "" ==> o.text == send(o.sent.value).message) &&
        (send(o.sent.value).error == "" && send(o.sent.value).message == "" ==> o.text == SendFailed)
  {}

  /** The form's submit button. */
  class SubmitButton {
    var disabled: bool
    var text: string

    constructor (t: string)
      ensures !disabled && text == t
    {
      disabled, text := false, t;
    }

    /** Disable the button and show `Enviando…`, returning the text it had. */
    method StartSending() returns (saved: string)
      modifies this
      ensures saved == old(text) && disabled && text == Sending
    {
      saved := text;
      disabled := true;
      text := Sending;
    }

    /** Enable the button again with the given text. */
    method Restore(saved: string)
      modifies this
      ensures !disabled && text == saved
    {
      disabled := false;
      text := saved;
    }
  }

  /** The submit handler, after `preventDefault()`. `button` is `null` when the form
      has no submit button. Once sending begins, the button is enabled again with
      its original text on every way out; a rejected form leaves it alone. */
  method HandleSubmit(f: Fields, page: string, c: Config, encode: string -> string, send: Route -> Reply,
                      status: StatusLine, button: SubmitButton?)
    returns (focus: Option<Field>, sent: Option<Route>)
    modifies status, button
    ensures var o := SubmitOutcome(f, page, c, encode, send);
      status.text == o.text && status.classes == StatusClasses(o.kind) && status.role == "status"
      && focus == o.focus && sent == o.sent
    ensures button != null && Validate(f, page).Rejected? ==>
      button.disabled == old(button.disabled) && button.text == old(button.text)
    ensures button != null && Validate(f, page).Accepted? ==>
      !button.disabled && button.text == old(button.text)
  {
    var check := Validate(f, page);
    if check.Rejected? {
      status.Show(Error, check.message);
      return check.focus, None;
    }
    var payload := check.payload;
    var originalText := "";
    if button != null {
      originalText := button.StartSending();
    }
    var route := ChooseRoute(c, payload, encode);
    focus, sent := None, None;
    if route.Misconfigured? {
      status.Show(Error, NotConfigured);
      if button != null {
        button.Restore(originalText);
      }
    } else {
      sent := Some(route);
      var reply := send(route);
      var s := ReplyStatus(reply);
      status.Show(s.0, s.1);
    }
    // finally
    if button != null {
      button.Restore(originalText);
    }
  }
}
