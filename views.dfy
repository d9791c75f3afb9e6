/**
 * The page views of main/views.py. The three form views validate the posted
 * data, store the new row, try to send a notification mail and redirect; the
 * mail transport's success or failure is an input, and a failed send never
 * undoes the stored row. The other views only read the tables.
 */
module Views {
  import opened Wrappers
  import opened Strings
  import opened Models
  import opened Store
  import opened Forms
  import Urls
  import UrlSplit

  /** The parts of an HTTP request the views look at. */
  datatype Request = Request(isPost: bool, post: PostData, referer: Option<string>)

  /** The mail addresses taken from the settings module. */
  datatype MailSettings = MailSettings(defaultFromEmail: string, contactEmail: string, appointmentEmail: string)

  datatype Mail = Mail(subject: string, body: string, fromEmail: string, recipients: seq<string>)

  datatype Level = Success | Warning | Error
  datatype Flash = Flash(level: Level, text: string)

  /** The form a page is rendered with: empty, or bound to posted data that had errors. */
  datatype FormView = Unbound | Bound(errors: set<string>)

  /**
   * A view's HTTP answer. `BadRequest` is Django's 400 for a suspicious
   * operation that escaped the view (a redirect to a disallowed scheme);
   * `ServerError` is any other exception that escaped it.
   */
  datatype Response = Render(template: string, form: FormView) | Redirect(location: string) | BadRequest | ServerError

  /** What one request produces besides the new tables: response, flashed messages, mail attempted. */
  datatype Outcome = Outcome(response: Response, flashes: seq<Flash>, mail: Option<Mail>)

  const CONTACT_SENT := "Thank you! Your message has been sent successfully."
  const CONTACT_MAIL_FAILED := "Message saved, but email notification failed."
  const APPOINTMENT_SENT := "Appointment request received! We will confirm shortly."
  const APPOINTMENT_MAIL_FAILED := "Appointment saved, but email notification failed."
  const SUBSCRIBED := "Successfully subscribed to our newsletter!"
  const SUBSCRIBE_FAILED := "Subscription failed. Email might already be registered."

  /**
   * Does `send_mail` go through? The transport's own verdict, and the header
   * policy (`email.policy.default`) refuses, with `ValueError`, a subject
   * that `splitlines()` cuts into more than one line.
   */
  predicate MailDelivered(m: Mail, transportOk: bool) {
    transportOk && !SpansLines(m.subject)
  }

  /** A mail goes through exactly when the transport does and its subject is one line at most. */
  lemma MailDeliveredLines(m: Mail, transportOk: bool)
    ensures MailDelivered(m, transportOk) <==> transportOk && |SplitLines(m.subject)| <= 1
  {
    SpansLinesIff(m.subject);
  }

  /** A subject with a line break that has text after it is refused, whatever the transport. */
  lemma SubjectBreakFails(m: Mail, lead: string, pre: string, sep: char, post: string)
    requires m.subject == lead + (pre + [sep] + post)
    requires IsLineBoundary(sep) && post != [] && (sep != '\r' || post != "\n")
    ensures !MailDelivered(m, true)
  {
    assert m.subject == (lead + pre) + [sep] + post;
    BreakInside(lead + pre, sep, post);
  }

  // ---------------------------------------------------------------- contact

  /** The notification for a stored contact submission. */
  function ContactMail(c: ContactSubmission, settings: MailSettings): (m: Mail)
    ensures m.recipients == [settings.contactEmail] && m.fromEmail == settings.defaultFromEmail
    ensures m.subject == "New Contact Submission: " + c.subject
  {
    Mail("New Contact Submission: " + c.subject,
         "From: " + c.name + "\nEmail: " + c.email + "\n\nMessage:\n" + c.message,
         settings.defaultFromEmail, [settings.contactEmail])
  }

  /**
   * Read line by line, the contact notification gives back the sender's name
   * and email and then the message's own lines.
   */
  lemma ContactMailLines(c: ContactSubmission, settings: MailSettings)
    requires '\n' !in c.name && '\n' !in c.email
    ensures Split(ContactMail(c, settings).body, '\n')
         == ["From: " + c.name, "Email: " + c.email, "", "Message:"] + Split(c.message, '\n')
  {
    var from, email := "From: " + c.name, "Email: " + c.email;
    var tail := "Message:" + ['\n'] + c.message;
    ContactBodyShape(c, settings);
    assert '\n' !in "From: " && '\n' !in "Email: " && '\n' !in "Message:";
    assert Split(tail, '\n') == ["Message:"] + Split(c.message, '\n') by {
      SplitAfterHead("Message:", '\n', c.message);
    }
    assert Split([] + ['\n'] + tail, '\n') == [[]] + Split(tail, '\n') by {
      SplitAfterHead([], '\n', tail);
    }
    assert Split(email + ['\n'] + ([] + ['\n'] + tail), '\n') == [email] + Split([] + ['\n'] + tail, '\n') by {
      SplitAfterHead(email, '\n', [] + ['\n'] + tail);
    }
    SplitAfterHead(from, '\n', email + ['\n'] + ([] + ['\n'] + tail));
  }

  /** The contact body is the four header lines and the message, joined by line breaks. */
  lemma ContactBodyShape(c: ContactSubmission, settings: MailSettings)
    ensures ContactMail(c, settings).body
         == ("From: " + c.name) + ['\n'] + (("Email: " + c.email) + ['\n'] + ([] + ['\n'] + ("Message:" + ['\n'] + c.message)))
  {
    assert "\nEmail: " == ['\n'] + "Email: ";
    assert "\n\nMessage:\n" == ['\n'] + ([] + ['\n'] + ("Message:" + ['\n']));
  }

  /**
   * `contact(request)`: new tables and outcome. Exactly a valid POST stores
   * one submission, built from the stripped fields and stamped `now`, and
   * touches no other table; exactly then a mail is attempted, one message
   * flashed and the visitor redirected to the contact page. Anything else
   * renders the form and changes nothing.
   */
  function ContactSpec(t: Tables, req: Request, p: Parsers, settings: MailSettings, now: Timestamp, transportOk: bool)
    : (r: (Tables, Outcome))
    ensures !(req.isPost && ValidateContact(req.post, p).Valid?) ==>
      && r.0 == t && r.1.mail.None? && r.1.flashes == []
      && r.1.response.Render? && r.1.response.template == "main/contact.html"
    ensures req.isPost && ValidateContact(req.post, p).Valid? ==> var d := ValidateContact(req.post, p).value;
      && r.0 == t.(contacts := t.contacts + [ContactSubmission(d.name, d.email, d.subject, d.message, now)])
      && r.1.mail.Some? && r.1.response == Redirect("/contact/") && |r.1.flashes| == 1
      && (r.1.flashes[0] == Flash(Success, CONTACT_SENT) <==> transportOk && !SpansLines(r.1.mail.value.subject))
      && (r.1.flashes[0] != Flash(Success, CONTACT_SENT) ==> r.1.flashes[0] == Flash(Error, CONTACT_MAIL_FAILED))
  {
    if !req.isPost then (t, Outcome(Render("main/contact.html", Unbound), [], None))
    else match ValidateContact(req.post, p)
      case Invalid(errors) => (t, Outcome(Render("main/contact.html", Bound(errors)), [], None))
      case Valid(d) =>
        var row := ContactSubmission(d.name, d.email, d.subject, d.message, now);
        var mail := ContactMail(row, settings);
        var flash := if MailDelivered(mail, transportOk) then Flash(Success, CONTACT_SENT)
                     else Flash(Error, CONTACT_MAIL_FAILED);
        (t.(contacts := t.contacts + [row]), Outcome(Redirect("/contact/"), [flash], Some(mail)))
  }

  /**
   * The view itself: validate, save, notify, redirect to `contact`. The row
   * is saved before the mail is attempted.
   */
  method Contact(db: Database, req: Request, p: Parsers, settings: MailSettings, now: Timestamp, transportOk: bool)
    returns (out: Outcome)
    modifies db
    ensures (db.tables, out) == ContactSpec(old(db.tables), req, p, settings, now, transportOk)
  {
    if !req.isPost {
      return Outcome(Render("main/contact.html", Unbound), [], None);
    }
    var form := ValidateContact(req.post, p);
    if form.Invalid? {
      return Outcome(Render("main/contact.html", Bound(form.errors)), [], None);
    }
    var d := form.value;
    var row := ContactSubmission(d.name, d.email, d.subject, d.message, now);
    db.AddContact(row);
    var mail := ContactMail(row, settings);
    var flash: Flash;
    if MailDelivered(mail, transportOk) {
      flash := Flash(Success, CONTACT_SENT);
    } else {
      flash := Flash(Error, CONTACT_MAIL_FAILED);
    }
    Urls.ReverseContact();
    out := Outcome(Redirect(Urls.Reverse("contact").value), [flash], Some(mail));
  }

  /** An invalid or non-POST request stores nothing and sends nothing. */
  lemma ContactInvalidStoresNothing(t: Tables, req: Request, p: Parsers, settings: MailSettings, now: Timestamp, ok: bool)
    requires !req.isPost || ValidateContact(req.post, p).Invalid?
    ensures ContactSpec(t, req, p, settings, now, ok).0 == t
    ensures ContactSpec(t, req, p, settings, now, ok).1.mail.None?
    ensures ContactSpec(t, req, p, settings, now, ok).1.response.Render?
  {
  }

  /**
   * A valid POST stores exactly one submission, built from the cleaned
   * fields and stamped `now`, touches no other table, mails the contact
   * address and redirects to the contact page.
   */
  lemma ContactValidStoresOne(t: Tables, req: Request, p: Parsers, settings: MailSettings, now: Timestamp, ok: bool)
    requires req.isPost && ValidateContact(req.post, p).Valid?
    ensures var (t', out) := ContactSpec(t, req, p, settings, now, ok);
      var d := ValidateContact(req.post, p).value;
      && t' == t.(contacts := t.contacts + [ContactSubmission(d.name, d.email, d.subject, d.message, now)])
      && out.mail.Some? && out.mail.value.recipients == [settings.contactEmail]
      && out.mail.value.subject == "New Contact Submission: " + d.subject
      && out.response == Redirect("/contact/")
      && |out.flashes| == 1
  {
  }

  /**
   * A failed notification keeps the stored row: the tables are the same
   * whatever the transport does; only the flash changes, from success to error.
   */
  lemma ContactMailFailureKeepsRow(t: Tables, req: Request, p: Parsers, settings: MailSettings, now: Timestamp)
    requires req.isPost && ValidateContact(req.post, p).Valid?
    ensures ContactSpec(t, req, p, settings, now, false).0 == ContactSpec(t, req, p, settings, now, true).0
    ensures ContactSpec(t, req, p, settings, now, false).1.flashes == [Flash(Error, CONTACT_MAIL_FAILED)]
    ensures var m := ContactSpec(t, req, p, settings, now, true).1;
      m.flashes == [if MailDelivered(m.mail.value, true) then Flash(Success, CONTACT_SENT) else Flash(Error, CONTACT_MAIL_FAILED)]
  {
  }

  /**
   * A contact subject with a line break that has text after it cannot be
   * mailed, whatever the transport would do: the view flashes the failure.
   */
  lemma ContactSubjectBreakFails(c: ContactSubmission, settings: MailSettings, pre: string, sep: char, post: string)
    requires c.subject == pre + [sep] + post
    requires IsLineBoundary(sep) && post != [] && (sep != '\r' || post != "\n")
    ensures !MailDelivered(ContactMail(c, settings), true)
  {
    SubjectBreakFails(ContactMail(c, settings), "New Contact Submission: ", pre, sep, post);
  }

  /** The subject `a`, line separator, `b` is such a subject. */
  lemma LineSeparatorSubjectFails(c: ContactSubmission, settings: MailSettings)
    requires c.subject == "a\U{2028}b"
    ensures !MailDelivered(ContactMail(c, settings), true)
  {
    assert c.subject == "a" + ['\U{2028}'] + "b";
    ContactSubjectBreakFails(c, settings, "a", '\U{2028}', "b");
  }

  // ---------------------------------------------------------------- appointment

  /** The notification for a stored appointment request. */
  function AppointmentMail(a: Appointment, settings: MailSettings): (m: Mail)
    ensures m.recipients == [settings.appointmentEmail] && m.fromEmail == settings.defaultFromEmail
    ensures m.subject == "New Appointment Request: " + a.name
  {
    Mail("New Appointment Request: " + a.name,
         "Client: " + a.name + "\nEmail: " + a.email + "\nPhone: " + a.phone
         + "\nService: " + a.service + "\nDate: " + DateText(a.date) + "\nTime: " + TimeText(a.time)
         + "\n\nNotes:\n" + a.message,
         settings.defaultFromEmail, [settings.appointmentEmail])
  }

  /** A client name with a line break that has text after it makes the notification unsendable. */
  lemma AppointmentNameBreakFails(a: Appointment, settings: MailSettings, pre: string, sep: char, post: string)
    requires a.name == pre + [sep] + post
    requires IsLineBoundary(sep) && post != [] && (sep != '\r' || post != "\n")
    ensures !MailDelivered(AppointmentMail(a, settings), true)
  {
    SubjectBreakFails(AppointmentMail(a, settings), "New Appointment Request: ", pre, sep, post);
  }

  /**
   * `appointment(request)`: new tables and outcome. Exactly a valid POST
   * stores one appointment, built from the cleaned fields and stamped `now`,
   * and touches no other table; exactly then a mail is attempted, one
   * message flashed and the visitor redirected to the appointment page.
   * Anything else renders the form and changes nothing.
   */
  function AppointmentSpec(t: Tables, req: Request, p: Parsers, settings: MailSettings, now: Timestamp, transportOk: bool)
    : (r: (Tables, Outcome))
    ensures !(req.isPost && ValidateAppointment(req.post, p).Valid?) ==>
      && r.0 == t && r.1.mail.None? && r.1.flashes == []
      && r.1.response.Render? && r.1.response.template == "main/appointment.html"
    ensures req.isPost && ValidateAppointment(req.post, p).Valid? ==> var a := ValidateAppointment(req.post, p).value;
      && CleanedFrom(a, req.post, p)
      && r.0 == t.(appointments := t.appointments + [Appointment(a.name, a.email, a.phone, a.service, a.date, a.time, a.message, now)])
      && r.1.mail.Some? && r.1.response == Redirect("/appointment/") && |r.1.flashes| == 1
      && (r.1.flashes[0] == Flash(Success, APPOINTMENT_SENT) <==> transportOk && !SpansLines(r.1.mail.value.subject))
      && (r.1.flashes[0] != Flash(Success, APPOINTMENT_SENT) ==> r.1.flashes[0] == Flash(Warning, APPOINTMENT_MAIL_FAILED))
  {
    if !req.isPost then (t, Outcome(Render("main/appointment.html", Unbound), [], None))
    else match ValidateAppointment(req.post, p)
      case Invalid(errors) => (t, Outcome(Render("main/appointment.html", Bound(errors)), [], None))
      case Valid(d) =>
        var row := Appointment(d.name, d.email, d.phone, d.service, d.date, d.time, d.message, now);
        var mail := AppointmentMail(row, settings);
        var flash := if MailDelivered(mail, transportOk) then Flash(Success, APPOINTMENT_SENT)
                     else Flash(Warning, APPOINTMENT_MAIL_FAILED);
        (t.(appointments := t.appointments + [row]), Outcome(Redirect("/appointment/"), [flash], Some(mail)))
  }

  /** The view itself: validate, save, notify, redirect to `appointment`. */
  method AppointmentView(db: Database, req: Request, p: Parsers, settings: MailSettings, now: Timestamp, transportOk: bool)
    returns (out: Outcome)
    modifies db
    ensures (db.tables, out) == AppointmentSpec(old(db.tables), req, p, settings, now, transportOk)
  {
    if !req.isPost {
      return Outcome(Render("main/appointment.html", Unbound), [], None);
    }
    var form := ValidateAppointment(req.post, p);
    if form.Invalid? {
      return Outcome(Render("main/appointment.html", Bound(form.errors)), [], None);
    }
    var d := form.value;
    var row := Appointment(d.name, d.email, d.phone, d.service, d.date, d.time, d.message, now);
    db.AddAppointment(row);
    var mail := AppointmentMail(row, settings);
    var flash: Flash;
    if MailDelivered(mail, transportOk) {
      flash := Flash(Success, APPOINTMENT_SENT);
    } else {
      flash := Flash(Warning, APPOINTMENT_MAIL_FAILED);
    }
    Urls.ReverseAppointment();
    out := Outcome(Redirect(Urls.Reverse("appointment").value), [flash], Some(mail));
  }

  /** An invalid or non-POST request stores nothing and sends nothing. */
  lemma AppointmentInvalidStoresNothing(t: Tables, req: Request, p: Parsers, settings: MailSettings, now: Timestamp, ok: bool)
    requires !req.isPost || ValidateAppointment(req.post, p).Invalid?
    ensures AppointmentSpec(t, req, p, settings, now, ok).0 == t
    ensures AppointmentSpec(t, req, p, settings, now, ok).1.mail.None?
  {
    if req.isPost {
      var form := ValidateAppointment(req.post, p);
      assert AppointmentSpec(t, req, p, settings, now, ok)
        == (t, Outcome(Render("main/appointment.html", Bound(form.errors)), [], None));
    }
  }

  /**
   * A valid POST stores exactly one appointment and mails only the
   * appointment address; a failed send keeps the row and flashes a warning.
   */
  lemma AppointmentValidStoresOne(t: Tables, req: Request, p: Parsers, settings: MailSettings, now: Timestamp)
    requires req.isPost && ValidateAppointment(req.post, p).Valid?
    ensures var (t', out) := AppointmentSpec(t, req, p, settings, now, false);
      && |t'.appointments| == |t.appointments| + 1 && t'.appointments[..|t.appointments|] == t.appointments
      && t' == t.(appointments := t'.appointments)
      && out.mail.Some? && out.mail.value.recipients == [settings.appointmentEmail]
      && out.mail.value.subject == "New Appointment Request: " + ValidateAppointment(req.post, p).value.name
      && out.flashes == [Flash(Warning, APPOINTMENT_MAIL_FAILED)]
      && out.response == Redirect("/appointment/")
    ensures AppointmentSpec(t, req, p, settings, now, true).0 == AppointmentSpec(t, req, p, settings, now, false).0
  {
    var t' := AppointmentSpec(t, req, p, settings, now, false).0;
    assert t'.appointments[..|t.appointments|] == t.appointments;
  }

  // ---------------------------------------------------------------- redirect

  /** The schemes `HttpResponseRedirect` accepts; any other raises `DisallowedRedirect`. */
  const ALLOWED_SCHEMES: set<string> := {"http", "https", "ftp"}

  predicate IsAsciiLetter(c: char) {
    'a' <= c <= 'z' || 'A' <= c <= 'Z'
  }

  /** A character `urlsplit` admits in a scheme. */
  predicate IsSchemeChar(c: char) {
    IsAsciiLetter(c) || '0' <= c <= '9' || c == '+' || c == '-' || c == '.'
  }

  function LowerChar(c: char): char {
    if 'A' <= c <= 'Z' then (c as int + 32) as char else c
  }

  /** `urlsplit` first drops leading C0 control characters and spaces. */
  function DropLeadingControl(url: string): (r: string)
    ensures |r| <= |url| && r == url[|url| - |r|..]
    ensures r != [] ==> r[0] > ' '
    ensures forall k :: 0 <= k < |url| - |r| ==> url[k] <= ' '
  {
    if url != [] && url[0] <= ' ' then DropLeadingControl(url[1..]) else url
  }

  /** The characters `urlsplit` removes wherever they occur. */
  predicate IsUnsafe(c: char) {
    c == '\t' || c == '\r' || c == '\n'
  }

  /** ... and then removes every tab, carriage return and line feed. */
  function RemoveUnsafe(url: string): (r: string)
    ensures |r| <= |url|
  {
    if url == [] then []
    else (if IsUnsafe(url[0]) then [] else [url[0]]) + RemoveUnsafe(url[1..])
  }

  /** `RemoveUnsafe` only removes characters: one absent before is absent after. */
  lemma {:induction false} RemoveUnsafeKeepsOut(url: string, c: char)
    requires c !in url
    ensures c !in RemoveUnsafe(url)
  {
    if url != [] {
      assert url == [url[0]] + url[1..];
      RemoveUnsafeKeepsOut(url[1..], c);
    }
  }

  /** Index of the first `:` in `s`. */
  function FirstColon(s: string): (r: Option<nat>)
    ensures r.None? <==> ':' !in s
    ensures r.Some? ==> r.value < |s| && s[r.value] == ':' && ':' !in s[..r.value]
  {
    if s == [] then None
    else if s[0] == ':' then Some(0)
    else match FirstColon(s[1..])
      case None => None
      case Some(i) =>
        assert s[..i + 1] == [s[0]] + s[1..][..i];
        Some(i + 1)
  }

  /** A scheme as `urlsplit` accepts it: an ASCII letter, then scheme characters. */
  predicate IsScheme(s: string) {
    s != [] && IsAsciiLetter(s[0]) && forall k :: 0 <= k < |s| ==> IsSchemeChar(s[k])
  }

  /** ASCII lower-casing, as `str.lower` does to a scheme. */
  function LowerAscii(s: string): (r: string)
    ensures |r| == |s|
    ensures forall k :: 0 <= k < |s| ==> r[k] == LowerChar(s[k])
  {
    seq(|s|, k requires 0 <= k < |s| => LowerChar(s[k]))
  }

  /** The scheme before the first `:` of the cleaned-up `u`, or `[]` for none. */
  function SchemeOf(u: string): (r: string)
    ensures r != [] ==> |r| < |u| && u[|r|] == ':' && IsScheme(u[..|r|]) && r == LowerAscii(u[..|r|])
  {
    match FirstColon(u)
    case None => []
    case Some(i) => if IsScheme(u[..i]) then LowerAscii(u[..i]) else []
  }

  /**
   * The scheme `urlsplit` finds in `url`, lower-cased, or `[]` for none:
   * in the cleaned text, the text before the first `:` counts when it is
   * non-empty, starts with an ASCII letter and holds scheme characters only.
   */
  function UrlScheme(url: string): (r: string)
    ensures r != [] ==> IsAsciiLetter(r[0]) && !('A' <= r[0] <= 'Z')
  {
    SchemeOf(RemoveUnsafe(DropLeadingControl(url)))
  }

  /** What follows the scheme and its `:` in the cleaned text `u`; all of `u` when it has no scheme. */
  function AfterScheme(u: string): (r: string)
    ensures |r| <= |u| && r == u[|u| - |r|..]
    ensures SchemeOf(u) != [] ==> |r| == |u| - |SchemeOf(u)| - 1
    ensures SchemeOf(u) == [] ==> r == u
  {
    var scheme := SchemeOf(u);
    if scheme == [] then u else u[|scheme| + 1..]
  }

  /**
   * `urlsplit(url)` raises `ValueError`: the network location after the
   * scheme holds unmatched square brackets, or a bracketed host that is
   * neither IPv6 nor IPvFuture.
   */
  predicate UrlSplitRaises(url: string) {
    UrlSplit.NetlocRaises(AfterScheme(RemoveUnsafe(DropLeadingControl(url))))
  }

  /** `HttpResponseRedirect` accepts `url`: it has no scheme or an allowed one. */
  predicate RedirectAllowed(url: string) {
    UrlScheme(url) == [] || UrlScheme(url) in ALLOWED_SCHEMES
  }

  /**
   * `redirect(to)`: resolve `to` (an unresolvable name escapes as an error);
   * `HttpResponseRedirect` then splits the target, and a `ValueError` from
   * `urlsplit` escapes as an error too; a target whose scheme is not allowed
   * is answered with 400.
   */
  function RedirectTo(to: string): (r: Response)
    ensures r.ServerError? <==> Urls.ResolveUrl(to).None? || UrlSplitRaises(Urls.ResolveUrl(to).value)
    ensures r.BadRequest? <==>
      Urls.ResolveUrl(to).Some? && !UrlSplitRaises(Urls.ResolveUrl(to).value) && !RedirectAllowed(Urls.ResolveUrl(to).value)
    ensures r.Redirect? ==>
      Urls.ResolveUrl(to) == Some(r.location) && !UrlSplitRaises(r.location) && RedirectAllowed(r.location)
  {
    match Urls.ResolveUrl(to)
    case None => ServerError
    case Some(url) =>
      if UrlSplitRaises(url) then ServerError
      else if RedirectAllowed(url) then Redirect(url)
      else BadRequest
  }

  /** A target without square brackets never makes `urlsplit` raise. */
  lemma NoBracketsNeverRaise(url: string)
    requires '[' !in url && ']' !in url
    ensures !UrlSplitRaises(url)
  {
    var d := DropLeadingControl(url);
    assert '[' !in d && ']' !in d by {
      forall k | 0 <= k < |d| ensures d[k] != '[' && d[k] != ']' {
        assert d[k] == url[|url| - |d| + k];
      }
    }
    RemoveUnsafeKeepsOut(d, '[');
    RemoveUnsafeKeepsOut(d, ']');
    var u := RemoveUnsafe(DropLeadingControl(url));
    var rest := AfterScheme(u);
    assert '[' !in rest && ']' !in rest by {
      forall k | 0 <= k < |rest| ensures rest[k] != '[' && rest[k] != ']' {
        assert rest[k] == u[|u| - |rest| + k];
      }
    }
    UrlSplit.NoBracketsNoRaise(rest);
  }

  /**
   * `scheme://host` followed by nothing or by a path, where the host holds a
   * `[` but no `]`: `urlsplit` raises, so redirecting there is a server error.
   */
  lemma UnmatchedBracketRaises(scheme: string, host: string, path: string)
    requires IsLowerWord(scheme)
    requires '[' in host && ']' !in host
    requires forall k :: 0 <= k < |host| ==> !UrlSplit.IsNetlocEnd(host[k]) && !IsUnsafe(host[k])
    requires path == [] || path[0] == '/'
    ensures UrlSplitRaises(scheme + "://" + host + path)
  {
    SplitRaisesOf(scheme, host, path);
    PathStaysPath(path);
    UrlSplit.OpenBracketRaises(host, RemoveUnsafe(path));
  }

  /** A path keeps its leading `/` once tabs and line breaks are removed. */
  lemma PathStaysPath(path: string)
    requires path == [] || path[0] == '/'
    ensures RemoveUnsafe(path) == [] || RemoveUnsafe(path)[0] == '/'
  {
  }

  /** The cleaned text of `scheme://host` and a path, after its scheme, is `//host` and the cleaned path. */
  lemma CleanedAfterScheme(scheme: string, host: string, path: string)
    requires IsLowerWord(scheme)
    requires forall k :: 0 <= k < |host| ==> !IsUnsafe(host[k])
    ensures AfterScheme(RemoveUnsafe(DropLeadingControl(scheme + "://" + host + path))) == "//" + host + RemoveUnsafe(path)
  {
    var head := scheme + "://" + host;
    var url := head + path;
    assert url[0] == scheme[0];
    assert DropLeadingControl(url) == url;
    forall k | 0 <= k < |head| ensures !IsUnsafe(head[k]) {
      if k >= |scheme| + 3 {
        assert head[k] == host[k - |scheme| - 3];
      }
    }
    RemoveUnsafeKeepsPrefix(head, path);
    var u := RemoveUnsafe(DropLeadingControl(url));
    assert u == scheme + (":" + ("//" + host + RemoveUnsafe(path)));
    assert u[..|scheme|] == scheme;
    SchemeOfWord(u, scheme);
    assert u[|scheme| + 1..] == "//" + host + RemoveUnsafe(path);
  }

  /**
   * `scheme://[host]` followed by nothing or by a path, where the host is
   * one `urlsplit` accepts in brackets (IPv6 or IPvFuture): no error.
   */
  lemma BracketedHostNeverRaises(scheme: string, host: string, path: string)
    requires IsLowerWord(scheme)
    requires UrlSplit.BracketedHostOk(host)
    requires '@' !in host && '[' !in host && ']' !in host
    requires forall k :: 0 <= k < |host| ==> !UrlSplit.IsNetlocEnd(host[k]) && !IsUnsafe(host[k])
    requires path == [] || path[0] == '/'
    ensures !UrlSplitRaises(scheme + "://[" + host + "]" + path)
  {
    var b := "[" + host + "]";
    BracketedSafe(host);
    Bracketed(scheme, host, path);
    SplitRaisesOf(scheme, b, path);
    PathStaysPath(path);
    Bracketed([], host, RemoveUnsafe(path));
    UrlSplit.BracketedHostPasses(host, RemoveUnsafe(path));
  }

  /** Whether `urlsplit` raises on `scheme://h` and a path is decided by `//h` and the cleaned path alone. */
  lemma SplitRaisesOf(scheme: string, h: string, path: string)
    requires IsLowerWord(scheme)
    requires forall k :: 0 <= k < |h| ==> !IsUnsafe(h[k])
    ensures UrlSplitRaises(scheme + "://" + h + path) <==> UrlSplit.NetlocRaises("//" + h + RemoveUnsafe(path))
  {
    CleanedAfterScheme(scheme, h, path);
  }

  /** Putting a host in brackets adds no tab or line break. */
  lemma BracketedSafe(host: string)
    requires forall k :: 0 <= k < |host| ==> !IsUnsafe(host[k])
    ensures forall k :: 0 <= k < |host| + 2 ==> !IsUnsafe(("[" + host + "]")[k])
  {
    var b := "[" + host + "]";
    forall k | 0 <= k < |b| ensures !IsUnsafe(b[k]) {
      if 0 < k < |b| - 1 {
        assert b[k] == host[k - 1];
      }
    }
  }

  /** Helper: the bracketed host as one piece of a longer text. */
  lemma Bracketed(scheme: string, host: string, tail: string)
    ensures scheme + "://[" + host + "]" + tail == scheme + "://" + ("[" + host + "]") + tail
    ensures "//[" + host + "]" + tail == "//" + ("[" + host + "]") + tail
  {
  }

  /** A URL with no `:` at all has no scheme, so every relative URL may be redirected to. */
  lemma NoColonAllowed(url: string)
    requires ':' !in url
    ensures UrlScheme(url) == [] && RedirectAllowed(url)
  {
    var d := DropLeadingControl(url);
    assert ':' !in d by {
      forall k | 0 <= k < |d| ensures d[k] != ':' {
        assert d[k] == url[|url| - |d| + k];
      }
    }
    RemoveUnsafeKeepsOut(d, ':');
  }

  /** Lower-case ASCII letters only. */
  predicate IsLowerWord(s: string) {
    s != [] && forall k :: 0 <= k < |s| ==> 'a' <= s[k] <= 'z'
  }

  /** A URL made of a lower-case scheme, `:` and anything after: `urlsplit` finds that scheme. */
  lemma SchemeOfPrefix(scheme: string, rest: string)
    requires IsLowerWord(scheme)
    ensures UrlScheme(scheme + ":" + rest) == scheme
    ensures RedirectAllowed(scheme + ":" + rest) <==> scheme in ALLOWED_SCHEMES
  {
    var url := scheme + ":" + rest;
    assert url[0] == scheme[0];
    assert DropLeadingControl(url) == url;
    RemoveUnsafeKeepsPrefix(scheme + ":", rest);
    var u := RemoveUnsafe(url);
    assert u == scheme + (":" + RemoveUnsafe(rest));
    assert u[..|scheme|] == scheme;
    SchemeOfWord(u, scheme);
  }

  /** `SchemeOf` on a text that starts with a lower-case word and `:` yields that word. */
  lemma SchemeOfWord(u: string, scheme: string)
    requires IsLowerWord(scheme) && |scheme| < |u| && u[..|scheme|] == scheme && u[|scheme|] == ':'
    ensures SchemeOf(u) == scheme
  {
    var n := |scheme|;
    assert ':' !in scheme;
    assert FirstColon(u) == Some(n);
    assert IsScheme(scheme);
    assert LowerAscii(scheme) == scheme;
  }

  /** Text free of tabs, carriage returns and line feeds passes `RemoveUnsafe` untouched. */
  lemma {:induction false} RemoveUnsafeKeepsPrefix(clean: string, rest: string)
    requires forall k :: 0 <= k < |clean| ==> !IsUnsafe(clean[k])
    ensures RemoveUnsafe(clean + rest) == clean + RemoveUnsafe(rest)
    decreases |clean|
  {
    if clean == [] {
      assert clean + rest == rest;
    } else {
      RemoveUnsafeKeepsPrefix(clean[1..], rest);
      assert (clean + rest)[1..] == clean[1..] + rest;
      assert clean + RemoveUnsafe(rest) == [clean[0]] + (clean[1..] + RemoveUnsafe(rest));
    }
  }

  // ---------------------------------------------------------------- subscribe

  /** `redirect(request.META.get('HTTP_REFERER', 'home'))`: back where the visitor came from. */
  function SubscribeResponse(referer: Option<string>): (r: Response)
    ensures referer.None? ==> r == RedirectTo("home")
    ensures referer.Some? ==> r == RedirectTo(referer.value)
  {
    RedirectTo(referer.GetOr("home"))
  }

  /**
   * `subscribe(request)`: new tables and outcome. Only a valid POST changes
   * the tables, and then only by one subscriber at the end; a POST flashes
   * one message; no mail is sent; the answer depends on the referer alone.
   */
  function SubscribeSpec(t: Tables, req: Request, p: Parsers, now: Timestamp): (r: (Tables, Outcome))
    ensures r.1.response == SubscribeResponse(req.referer) && r.1.mail.None?
    ensures |r.1.flashes| == (if req.isPost then 1 else 0)
    ensures r.0 != t <==> req.isPost && ValidateNewsletter(req.post, p, t.subscribers).Valid?
    ensures r.0 != t ==>
      r.0 == t.(subscribers := t.subscribers + [NewsletterSubscriber(Strip(Value(req.post, "email")), now)])
  {
    var response := SubscribeResponse(req.referer);
    if !req.isPost then (t, Outcome(response, [], None))
    else match ValidateNewsletter(req.post, p, t.subscribers)
      case Invalid(_) => (t, Outcome(response, [Flash(Error, SUBSCRIBE_FAILED)], None))
      case Valid(email) =>
        (t.(subscribers := t.subscribers + [NewsletterSubscriber(email, now)]),
         Outcome(response, [Flash(Success, SUBSCRIBED)], None))
  }

  /** The view itself: subscribe on a valid POST, then always redirect back. */
  method Subscribe(db: Database, req: Request, p: Parsers, now: Timestamp) returns (out: Outcome)
    modifies db
    ensures (db.tables, out) == SubscribeSpec(old(db.tables), req, p, now)
  {
    var flashes: seq<Flash> := [];
    if req.isPost {
      var form := ValidateNewsletter(req.post, p, db.tables.subscribers);
      if form.Valid? {
        db.AddSubscriber(NewsletterSubscriber(form.value, now));
        flashes := [Flash(Success, SUBSCRIBED)];
      } else {
        flashes := [Flash(Error, SUBSCRIBE_FAILED)];
      }
    }
    var response := SubscribeResponse(req.referer);
    out := Outcome(response, flashes, None);
  }

  /** A valid address is added once, at the end, and nothing else changes. */
  lemma SubscribeValidAddsOne(t: Tables, req: Request, p: Parsers, now: Timestamp)
    requires req.isPost && ValidateNewsletter(req.post, p, t.subscribers).Valid?
    ensures var (t', out) := SubscribeSpec(t, req, p, now);
      && t' == t.(subscribers := t.subscribers + [NewsletterSubscriber(Strip(Value(req.post, "email")), now)])
      && out.flashes == [Flash(Success, SUBSCRIBED)]
  {
  }

  /** An invalid or already registered address leaves every table unchanged and flashes an error. */
  lemma SubscribeRejectedChangesNothing(t: Tables, req: Request, p: Parsers, now: Timestamp)
    requires req.isPost && ValidateNewsletter(req.post, p, t.subscribers).Invalid?
    ensures SubscribeSpec(t, req, p, now).0 == t
    ensures SubscribeSpec(t, req, p, now).1.flashes == [Flash(Error, SUBSCRIBE_FAILED)]
  {
  }

  /** Subscribing the same address twice stores it once: the second attempt is rejected. */
  lemma SubscribeTwiceStoresOnce(t: Tables, req: Request, p: Parsers, now1: Timestamp, now2: Timestamp)
    requires req.isPost && ValidateNewsletter(req.post, p, t.subscribers).Valid?
    ensures var t1 := SubscribeSpec(t, req, p, now1).0;
      && SubscribeSpec(t1, req, p, now2).0 == t1
      && SubscribeSpec(t1, req, p, now2).1.flashes == [Flash(Error, SUBSCRIBE_FAILED)]
  {
    var t1 := SubscribeSpec(t, req, p, now1).0;
    var email := ValidateNewsletter(req.post, p, t.subscribers).value;
    assert t1.subscribers[|t.subscribers|].email == email;
    NewsletterRejectsDuplicate(req.post, p, t1.subscribers, |t.subscribers|);
  }

  /**
   * Whatever the method and the form: without a referer the answer is a
   * redirect to the home page; a referer holding `/` or `.` always
   * resolves, and is answered with a server error exactly when `urlsplit`
   * raises on the resolved target. Any redirect goes to an allowed URL.
   */
  lemma SubscribeRedirects(referer: Option<string>)
    ensures referer.None? ==> SubscribeResponse(referer) == Redirect("/")
    ensures referer.Some? && ('/' in referer.value || '.' in referer.value) ==>
      && Urls.ResolveUrl(referer.value).Some?
      && (SubscribeResponse(referer).ServerError? <==> UrlSplitRaises(Urls.ResolveUrl(referer.value).value))
      && (SubscribeResponse(referer).Redirect? || SubscribeResponse(referer).BadRequest?
          || SubscribeResponse(referer).ServerError?)
    ensures SubscribeResponse(referer).Redirect? ==> RedirectAllowed(SubscribeResponse(referer).location)
  {
    if referer.None? {
      HomeRedirect("home", "/");
    }
  }

  /** `redirect('home')` resolves the name to `/` and redirects there. */
  lemma HomeRedirect(name: string, root: string)
    requires name == "home" && root == "/"
    ensures RedirectTo(name) == Redirect(root)
  {
    HomeResolves(name, root);
    NoColonAllowed(root);
    RootSplits(root);
  }

  lemma RootSplits(root: string)
    requires root == "/"
    ensures !UrlSplitRaises(root)
  {
    NoBracketsNeverRaise(root);
  }

  lemma HomeResolves(name: string, root: string)
    requires name == "home" && root == "/"
    ensures Urls.ResolveUrl(name) == Some(root)
  {
    Urls.ReverseHome();
    assert name[..2] != "./" by { assert name[..2][0] == 'h'; }
    assert name[..3] != "../" by { assert name[..3][0] == 'h'; }
  }

  /**
   * A full URL as referer (it contains `/`) that is not a route name: a
   * server error when `urlsplit` raises on it, else a redirect to it
   * unchanged when its scheme is allowed and 400 when it is not. Without
   * square brackets `urlsplit` never raises.
   */
  lemma SubscribeRedirectsToReferer(referer: string)
    requires '/' in referer
    requires !Urls.StartsWith(referer, "./") && !Urls.StartsWith(referer, "../")
    requires Urls.Reverse(referer).None?
    ensures UrlSplitRaises(referer) ==> SubscribeResponse(Some(referer)) == ServerError
    ensures !UrlSplitRaises(referer) && RedirectAllowed(referer) ==> SubscribeResponse(Some(referer)) == Redirect(referer)
    ensures !UrlSplitRaises(referer) && !RedirectAllowed(referer) ==> SubscribeResponse(Some(referer)) == BadRequest
    ensures '[' !in referer && ']' !in referer ==> !SubscribeResponse(Some(referer)).ServerError?
  {
    if '[' !in referer && ']' !in referer {
      NoBracketsNeverRaise(referer);
    }
  }

  /**
   * `http://[broken/`, a referer whose `[` is never closed, makes the view
   * fail with a server error, after a valid address has been stored.
   */
  lemma BrokenRefererFails(url: string)
    requires url == "http://[broken/"
    ensures SubscribeResponse(Some(url)) == ServerError
  {
    BrokenResolves(url);
    BrokenRaises(url);
  }

  lemma BrokenResolves(url: string)
    requires url == "http://[broken/"
    ensures Urls.ResolveUrl(url) == Some(url)
  {
    Urls.ReverseLongName(url);
    assert url[..2] != "./" by { assert url[..2][0] == 'h'; }
    assert url[..3] != "../" by { assert url[..3][0] == 'h'; }
    assert url[14] == '/';
  }

  lemma BrokenRaises(url: string)
    requires url == "http://[broken/"
    ensures UrlSplitRaises(url)
  {
    assert url == "http" + "://" + "[broken" + "/";
    assert IsLowerWord("http");
    assert "[broken"[0] == '[';
    UnmatchedBracketRaises("http", "[broken", "/");
  }

  /** `http://[::1]/`, a referer naming the IPv6 loopback address in brackets, is redirected to unchanged. */
  lemma LoopbackRefererRedirects(url: string)
    requires url == "http://[::1]/"
    ensures SubscribeResponse(Some(url)) == Redirect(url)
  {
    LoopbackResolves(url);
    LoopbackAllowed(url);
    LoopbackSplits(url);
  }

  lemma LoopbackResolves(url: string)
    requires url == "http://[::1]/"
    ensures Urls.ResolveUrl(url) == Some(url)
  {
    Urls.ReverseLongName(url);
    assert url[..2] != "./" by { assert url[..2][0] == 'h'; }
    assert url[..3] != "../" by { assert url[..3][0] == 'h'; }
    assert url[4] == ':' && url[5] == '/';
  }

  lemma LoopbackAllowed(url: string)
    requires url == "http://[::1]/"
    ensures RedirectAllowed(url)
  {
    assert url == "http" + ":" + "//[::1]/";
    assert IsLowerWord("http");
    SchemeOfPrefix("http", "//[::1]/");
  }

  lemma LoopbackSplits(url: string)
    requires url == "http://[::1]/"
    ensures !UrlSplitRaises(url)
  {
    LoopbackText(url, "http", "::1", "/");
    LoopbackPieces("http", "::1", "/");
  }

  lemma LoopbackText(url: string, scheme: string, host: string, path: string)
    requires url == "http://[::1]/" && scheme == "http" && host == "::1" && path == "/"
    ensures url == scheme + "://[" + host + "]" + path
  {
  }

  lemma LoopbackPieces(scheme: string, host: string, path: string)
    requires scheme == "http" && host == "::1" && path == "/"
    ensures !UrlSplitRaises(scheme + "://[" + host + "]" + path)
  {
    LoopbackHost(host);
    assert IsLowerWord(scheme);
    BracketedHostNeverRaises(scheme, host, path);
  }

  lemma LoopbackHost(h: string)
    requires h == "::1"
    ensures UrlSplit.BracketedHostOk(h)
    ensures '@' !in h && '[' !in h && ']' !in h
    ensures forall k :: 0 <= k < |h| ==> !UrlSplit.IsNetlocEnd(h[k]) && !IsUnsafe(h[k])
  {
    UrlSplit.LoopbackIsIpv6();
    LoopbackChars(h);
  }

  lemma LoopbackChars(h: string)
    requires h == "::1"
    ensures '@' !in h && '[' !in h && ']' !in h
    ensures forall k :: 0 <= k < |h| ==> !UrlSplit.IsNetlocEnd(h[k]) && !IsUnsafe(h[k])
  {
    assert h == [':', ':', '1'];
  }

  /**
   * A `mailto:` referer is answered with 400, yet a valid address has been
   * stored and the success message flashed before the redirect is refused.
   */
  lemma SubscribeMailtoReferer(t: Tables, req: Request, p: Parsers, now: Timestamp)
    requires req.isPost && ValidateNewsletter(req.post, p, t.subscribers).Valid?
    requires req.referer == Some("mailto:a@b.c")
    ensures var (t', out) := SubscribeSpec(t, req, p, now);
      && out.response == BadRequest
      && t' == t.(subscribers := t.subscribers + [NewsletterSubscriber(Strip(Value(req.post, "email")), now)])
      && out.flashes == [Flash(Success, SUBSCRIBED)]
  {
    MailtoRefused();
    SubscribeValidAddsOne(t, req, p, now);
  }

  /** `mailto:a@b.c` resolves to itself, and its scheme is not allowed. */
  lemma MailtoRefused()
    ensures SubscribeResponse(Some("mailto:a@b.c")) == BadRequest
  {
    MailtoAnswer("mailto:a@b.c");
  }

  lemma MailtoAnswer(m: string)
    requires m == "mailto:a@b.c"
    ensures RedirectTo(m) == BadRequest
  {
    MailtoResolves(m);
    MailtoScheme(m);
    MailtoSplits(m);
  }

  lemma MailtoSplits(m: string)
    requires m == "mailto:a@b.c"
    ensures !UrlSplitRaises(m)
  {
    NoBracketsNeverRaise(m);
  }

  lemma MailtoResolves(m: string)
    requires m == "mailto:a@b.c"
    ensures Urls.ResolveUrl(m) == Some(m)
  {
    Urls.ReverseLongName(m);
    assert m[..2] != "./" by { assert m[..2][0] == 'm'; }
    assert m[..3] != "../" by { assert m[..3][0] == 'm'; }
    assert m[10] == '.';
  }

  lemma MailtoScheme(m: string)
    requires m == "mailto" + ":" + "a@b.c"
    ensures !RedirectAllowed(m)
  {
    assert IsLowerWord("mailto");
    SchemeOfPrefix("mailto", "a@b.c");
    assert "mailto" !in ALLOWED_SCHEMES by { assert |"mailto"| == 6; }
  }

  /** Any `https:` URL is an allowed redirect target. */
  lemma HttpsAllowed(rest: string)
    ensures RedirectAllowed("https:" + rest)
  {
    assert "https:" + rest == "https" + ":" + rest;
    assert IsLowerWord("https");
    SchemeOfPrefix("https", rest);
  }

  // ---------------------------------------------------------------- read-only pages

  /** What `home` hands to its template. */
  datatype HomePage = HomePage(testimonials: seq<Testimonial>, teamMembers: seq<TeamMember>, carouselItems: seq<HeroCarouselItem>)

  /**
   * The active carousel items, in table order (`filter(is_active=True)`):
   * every active row as often as the table holds it, and no other row.
   */
  function ActiveItems(items: seq<HeroCarouselItem>): (r: seq<HeroCarouselItem>)
    ensures forall x :: multiset(r)[x] == if x.isActive then multiset(items)[x] else 0
  {
    if items == [] then []
    else
      assert items == [items[0]] + items[1..];
      (if items[0].isActive then [items[0]] else []) + ActiveItems(items[1..])
  }

  /** Sorting the active items keeps exactly the active items of the table, each as often. */
  lemma ShownItems(items: seq<HeroCarouselItem>)
    ensures forall x :: x in HeroCarouselItemOrder(ActiveItems(items)) <==> x in items && x.isActive
    ensures forall x :: multiset(HeroCarouselItemOrder(ActiveItems(items)))[x] == if x.isActive then multiset(items)[x] else 0
  {
    var active := ActiveItems(items);
    var shown := HeroCarouselItemOrder(active);
    assert multiset(shown) == multiset(active);
    forall x ensures x in shown <==> x in items && x.isActive {
      assert x in shown <==> x in multiset(shown);
      assert x in items <==> x in multiset(items);
    }
  }

  /**
   * `home`: all testimonials, the team in display order, and exactly the
   * active carousel items, in display order.
   */
  function Home(t: Tables): (r: HomePage)
    ensures r.testimonials == t.testimonials
    ensures forall x :: x in r.carouselItems <==> x in t.carouselItems && x.isActive
    ensures multiset(r.carouselItems) == multiset(ActiveItems(t.carouselItems))
    ensures forall i, j :: 0 <= i < j < |r.carouselItems| ==> r.carouselItems[i].order <= r.carouselItems[j].order
    ensures forall i, j :: 0 <= i < j < |r.teamMembers| ==> r.teamMembers[i].order <= r.teamMembers[j].order
    ensures multiset(r.teamMembers) == multiset(t.teamMembers)
  {
    ShownItems(t.carouselItems);
    HomePage(t.testimonials, TeamMemberOrder(t.teamMembers), HeroCarouselItemOrder(ActiveItems(t.carouselItems)))
  }

  /** `about`: the team in display order. */
  function About(t: Tables): (r: seq<TeamMember>)
    ensures forall i, j :: 0 <= i < j < |r| ==> r[i].order <= r[j].order
    ensures multiset(r) == multiset(t.teamMembers)
  {
    TeamMemberOrder(t.teamMembers)
  }
}
