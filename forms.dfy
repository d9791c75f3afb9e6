/**
 * The three model forms (main/forms.py). Each form reads only the fields its
 * `Meta.fields` lists; every other submitted key, `created_at` included, is
 * ignored. Field cleaning follows the model fields the form is built from:
 * text is stripped, a required field may not be blank, a `max_length` bounds
 * the stripped text, no text may hold a NUL character, a choice must be one of
 * the declared keys, and an email must be unique where the model says so.
 * Recognising an email address, a date or a time is left to the parsers
 * passed in.
 */
module Forms {
  import opened Wrappers
  import opened Strings
  import opened Models

  /** The submitted form data; a key appears at most once. */
  type PostData = map<string, string>

  const CONTACT_FIELDS: set<string> := {"name", "email", "subject", "message"}
  const APPOINTMENT_FIELDS: set<string> := {"name", "email", "phone", "service", "date", "time", "message"}
  const NEWSLETTER_FIELDS: set<string> := {"email"}

  /** `models.EmailField`'s default `max_length`. */
  const EMAIL_MAX_LENGTH: nat := 254

  /** The input-format checks Django's email, date and time fields perform. */
  datatype Parsers = Parsers(
    isEmail: string -> bool,
    parseDate: string -> Option<Date>,
    parseTime: string -> Option<Time>)

  /** A form's verdict: the cleaned values, or the names of the fields in error. */
  datatype Cleaned<T> = Valid(value: T) | Invalid(errors: set<string>)

  datatype ContactData = ContactData(name: string, email: string, subject: string, message: string)

  datatype AppointmentData = AppointmentData(
    name: string, email: string, phone: string, service: string,
    date: Date, time: Time, message: string)

  /** The submitted value of `field`; a field that was not sent reads as empty. */
  function Value(data: PostData, field: string): string {
    if field in data then data[field] else ""
  }

  /** Two submissions that agree on every field in `fields`. */
  predicate AgreeOn(d1: PostData, d2: PostData, fields: set<string>) {
    forall f :: f in fields ==> Value(d1, f) == Value(d2, f)
  }

  /**
   * A text field (`CharField`, `TextField`, `EmailField`): the value is
   * stripped; a blank value is an error exactly when the field is required,
   * and is otherwise accepted without further checks; a non-blank value must
   * respect `maxLength` and hold no NUL character.
   */
  function CleanText(raw: string, required: bool, maxLength: Option<nat>): (r: Option<string>)
    ensures r.Some? ==> r.value == Strip(raw) && '\0' !in r.value
    ensures r.Some? ==> (required ==> r.value != []) && (maxLength.Some? ==> |r.value| <= maxLength.value)
    ensures r.None? && Strip(raw) == [] ==> required
    ensures Strip(raw) == [] && !required ==> r == Some([])
    ensures Strip(raw) != [] && (maxLength.Some? ==> |Strip(raw)| <= maxLength.value) && '\0' !in Strip(raw)
            ==> r == Some(Strip(raw))
  {
    var s := Strip(raw);
    if s == [] then (if required then None else Some(s))
    else if maxLength.Some? && |s| > maxLength.value then None
    else if '\0' in s then None
    else Some(s)
  }

  /** A required `EmailField`: a cleaned text field that also parses as an address. */
  function CleanEmail(raw: string, p: Parsers): (r: Option<string>)
    ensures r.Some? ==> r.value == Strip(raw) && r.value != [] && |r.value| <= EMAIL_MAX_LENGTH
    ensures r.Some? ==> p.isEmail(r.value)
    ensures CleanText(raw, true, Some(EMAIL_MAX_LENGTH)).Some? && p.isEmail(Strip(raw)) ==> r == Some(Strip(raw))
  {
    var t := CleanText(raw, true, Some(EMAIL_MAX_LENGTH));
    if t.Some? && p.isEmail(t.value) then t else None
  }

  /** A required choice field: the raw value, unstripped, must be one of the keys. */
  function CleanChoice(raw: string, choices: seq<(string, string)>): (r: Option<string>)
    ensures r.Some? <==> raw in ChoiceKeys(choices)
    ensures r.Some? ==> r.value == raw
  {
    if raw in ChoiceKeys(choices) then Some(raw) else None
  }

  /**
   * A required date or time field: the empty value is an error (`required`),
   * and so is white space alone, which strips to a text no input format
   * matches; otherwise the stripped text must parse.
   */
  function CleanDate(raw: string, p: Parsers): (r: Option<Date>)
    ensures Strip(raw) == [] ==> r.None?
    ensures Strip(raw) != [] ==> r == p.parseDate(Strip(raw))
  {
    var s := Strip(raw);
    if s == [] then None else p.parseDate(s)
  }

  function CleanTime(raw: string, p: Parsers): (r: Option<Time>)
    ensures Strip(raw) == [] ==> r.None?
    ensures Strip(raw) != [] ==> r == p.parseTime(Strip(raw))
  {
    var s := Strip(raw);
    if s == [] then None else p.parseTime(s)
  }

  /** `{field}` when its cleaning failed, nothing otherwise. */
  function ErrorIf<T>(field: string, cleaned: Option<T>): set<string> {
    if cleaned.None? then {field} else {}
  }

  /** `ContactForm(request.POST).is_valid()` and its `cleaned_data`. */
  function ValidateContact(data: PostData, p: Parsers): (r: Cleaned<ContactData>)
    ensures r.Invalid? ==> r.errors != {} && r.errors <= CONTACT_FIELDS
    ensures r.Valid? ==> var c := r.value;
      && c.name == Strip(Value(data, "name")) && c.name != [] && |c.name| <= 100
      && c.email == Strip(Value(data, "email")) && p.isEmail(c.email)
      && c.subject == Strip(Value(data, "subject")) && c.subject != [] && |c.subject| <= 200
      && c.message == Strip(Value(data, "message")) && c.message != []
    ensures r.Valid? <==> CleanText(Value(data, "name"), true, Some(100)).Some?
                          && CleanEmail(Value(data, "email"), p).Some?
                          && CleanText(Value(data, "subject"), true, Some(200)).Some?
                          && CleanText(Value(data, "message"), true, None).Some?
  {
    var name := CleanText(Value(data, "name"), true, Some(100));
    var email := CleanEmail(Value(data, "email"), p);
    var subject := CleanText(Value(data, "subject"), true, Some(200));
    var message := CleanText(Value(data, "message"), true, None);
    var errors := ErrorIf("name", name) + ErrorIf("email", email)
                + ErrorIf("subject", subject) + ErrorIf("message", message);
    if errors == {} then
      assert name.Some? && email.Some? && subject.Some? && message.Some?;
      Valid(ContactData(name.value, email.value, subject.value, message.value))
    else Invalid(errors)
  }

  /** Each appointment field as its field cleaning leaves it, `None` where that failed. */
  datatype AppointmentFields = AppointmentFields(
    name: Option<string>, email: Option<string>, phone: Option<string>, service: Option<string>,
    date: Option<Date>, time: Option<Time>, message: Option<string>)

  /** Every field of `AppointmentForm`, cleaned on its own. */
  function CleanAppointmentFields(data: PostData, p: Parsers): (f: AppointmentFields)
    ensures f.name.Some? ==> f.name.value == Strip(Value(data, "name")) && f.name.value != [] && |f.name.value| <= 100
    ensures f.email.Some? ==> f.email.value == Strip(Value(data, "email")) && p.isEmail(f.email.value)
    ensures f.phone.Some? ==> f.phone.value == Strip(Value(data, "phone")) && f.phone.value != [] && |f.phone.value| <= 20
    ensures f.service.Some? ==> f.service.value in ChoiceKeys(SERVICE_CHOICES)
    ensures f.date.Some? ==> p.parseDate(Strip(Value(data, "date"))) == f.date
    ensures f.time.Some? ==> p.parseTime(Strip(Value(data, "time"))) == f.time
    ensures f.message.Some? ==> f.message.value == Strip(Value(data, "message"))
  {
    AppointmentFields(
      CleanText(Value(data, "name"), true, Some(100)),
      CleanEmail(Value(data, "email"), p),
      CleanText(Value(data, "phone"), true, Some(20)),
      CleanChoice(Value(data, "service"), SERVICE_CHOICES),
      CleanDate(Value(data, "date"), p),
      CleanTime(Value(data, "time"), p),
      CleanText(Value(data, "message"), false, None))
  }

  /** The names of the appointment fields whose cleaning failed. */
  function AppointmentErrors(f: AppointmentFields): (e: set<string>)
    ensures e <= APPOINTMENT_FIELDS
    ensures e == {} <==> f.name.Some? && f.email.Some? && f.phone.Some? && f.service.Some?
                         && f.date.Some? && f.time.Some? && f.message.Some?
    ensures f.message.Some? ==> "message" !in e
  {
    var e := ErrorIf("name", f.name) + ErrorIf("email", f.email) + ErrorIf("phone", f.phone)
           + ErrorIf("service", f.service) + ErrorIf("date", f.date) + ErrorIf("time", f.time)
           + ErrorIf("message", f.message);
    assert f.name.None? ==> "name" in e;
    assert f.email.None? ==> "email" in e;
    assert f.phone.None? ==> "phone" in e;
    assert f.service.None? ==> "service" in e;
    assert f.date.None? ==> "date" in e;
    assert f.time.None? ==> "time" in e;
    assert f.message.None? ==> "message" in e;
    assert "message" !in {"name", "email", "phone", "date", "time"};
    assert "message" != "service" by {
      assert "message"[0] != "service"[0];
    }
    e
  }

  /** `a` is what the appointment form's field cleanings make of `data`. */
  predicate CleanedFrom(a: AppointmentData, data: PostData, p: Parsers) {
    && a.name == Strip(Value(data, "name")) && a.name != [] && |a.name| <= 100
    && a.email == Strip(Value(data, "email")) && p.isEmail(a.email)
    && a.phone == Strip(Value(data, "phone")) && a.phone != [] && |a.phone| <= 20
    && a.service in ChoiceKeys(SERVICE_CHOICES)
    && p.parseDate(Strip(Value(data, "date"))) == Some(a.date)
    && p.parseTime(Strip(Value(data, "time"))) == Some(a.time)
    && a.message == Strip(Value(data, "message"))
  }

  /** `AppointmentForm(request.POST).is_valid()` and its `cleaned_data`. */
  function ValidateAppointment(data: PostData, p: Parsers): (r: Cleaned<AppointmentData>)
    ensures r.Invalid? ==> r.errors != {} && r.errors <= APPOINTMENT_FIELDS
    ensures r.Valid? ==> CleanedFrom(r.value, data, p)
    ensures r.Valid? <==> AppointmentErrors(CleanAppointmentFields(data, p)) == {}
  {
    var f := CleanAppointmentFields(data, p);
    AppointmentVerdict(f)
  }

  /** The form's verdict once every field has been cleaned: valid exactly when no field failed. */
  function AppointmentVerdict(f: AppointmentFields): (r: Cleaned<AppointmentData>)
    ensures r.Valid? <==> AppointmentErrors(f) == {}
    ensures r.Invalid? ==> r.errors == AppointmentErrors(f)
    ensures r.Valid? ==> f == AppointmentFields(Some(r.value.name), Some(r.value.email), Some(r.value.phone),
                                               Some(r.value.service), Some(r.value.date), Some(r.value.time),
                                               Some(r.value.message))
  {
    var errors := AppointmentErrors(f);
    if errors == {} then
      Valid(AppointmentData(f.name.value, f.email.value, f.phone.value, f.service.value,
                            f.date.value, f.time.value, f.message.value))
    else Invalid(errors)
  }

  /** `NewsletterSubscriber.email` is unique: is `email` already stored? */
  predicate EmailTaken(email: string, subscribers: seq<NewsletterSubscriber>) {
    exists i :: 0 <= i < |subscribers| && subscribers[i].email == email
  }

  /**
   * `NewsletterForm(request.POST).is_valid()`: a well-formed address that no
   * stored subscriber has yet. The uniqueness check runs only on an address
   * that cleaned successfully.
   */
  function ValidateNewsletter(data: PostData, p: Parsers, subscribers: seq<NewsletterSubscriber>)
    : (r: Cleaned<string>)
    ensures r.Invalid? ==> r.errors == NEWSLETTER_FIELDS
    ensures r.Valid? <==> (var e := CleanEmail(Value(data, "email"), p); e.Some? && !EmailTaken(e.value, subscribers))
    ensures r.Valid? ==> r.value == Strip(Value(data, "email")) && p.isEmail(r.value)
  {
    var email := CleanEmail(Value(data, "email"), p);
    if email.None? || EmailTaken(email.value, subscribers) then Invalid({"email"})
    else Valid(email.value)
  }

  // ---------------------------------------------------------------- properties

  /** Keys outside `ContactForm.Meta.fields` (such as `created_at`) have no effect. */
  lemma ContactIgnoresOtherKeys(d1: PostData, d2: PostData, p: Parsers)
    requires AgreeOn(d1, d2, CONTACT_FIELDS)
    ensures ValidateContact(d1, p) == ValidateContact(d2, p)
  {
    assert Value(d1, "name") == Value(d2, "name") && Value(d1, "email") == Value(d2, "email");
    assert Value(d1, "subject") == Value(d2, "subject") && Value(d1, "message") == Value(d2, "message");
  }

  /** Keys outside `AppointmentForm.Meta.fields` have no effect. */
  lemma AppointmentIgnoresOtherKeys(d1: PostData, d2: PostData, p: Parsers)
    requires AgreeOn(d1, d2, APPOINTMENT_FIELDS)
    ensures ValidateAppointment(d1, p) == ValidateAppointment(d2, p)
  {
    assert Value(d1, "name") == Value(d2, "name") && Value(d1, "email") == Value(d2, "email");
    assert Value(d1, "phone") == Value(d2, "phone") && Value(d1, "service") == Value(d2, "service");
    assert Value(d1, "date") == Value(d2, "date") && Value(d1, "time") == Value(d2, "time");
    assert Value(d1, "message") == Value(d2, "message");
  }

  /** Only the `email` key of a newsletter submission matters. */
  lemma NewsletterIgnoresOtherKeys(d1: PostData, d2: PostData, p: Parsers, subscribers: seq<NewsletterSubscriber>)
    requires AgreeOn(d1, d2, NEWSLETTER_FIELDS)
    ensures ValidateNewsletter(d1, p, subscribers) == ValidateNewsletter(d2, p, subscribers)
  {
    assert Value(d1, "email") == Value(d2, "email");
  }

  /** An appointment whose service is not one of the five keys is rejected, on that field. */
  lemma AppointmentNeedsKnownService(data: PostData, p: Parsers)
    requires Value(data, "service") !in ChoiceKeys(SERVICE_CHOICES)
    ensures ValidateAppointment(data, p).Invalid?
    ensures "service" in ValidateAppointment(data, p).errors
  {
  }

  /** A blank phone number is rejected, whatever the other fields hold. */
  lemma AppointmentNeedsPhone(data: PostData, p: Parsers)
    requires Strip(Value(data, "phone")) == []
    ensures ValidateAppointment(data, p).Invalid?
    ensures "phone" in ValidateAppointment(data, p).errors
  {
  }

  /** A blank message never causes an error: the field is optional. */
  lemma AppointmentMessageOptional(data: PostData, p: Parsers)
    requires Strip(Value(data, "message")) == []
    ensures ValidateAppointment(data, p).Invalid? ==> "message" !in ValidateAppointment(data, p).errors
    ensures ValidateAppointment(data, p).Valid? ==> ValidateAppointment(data, p).value.message == []
  {
    var f := CleanAppointmentFields(data, p);
    var e := AppointmentErrors(f);
    assert ValidateAppointment(data, p).Invalid? ==> ValidateAppointment(data, p).errors == e;
    assert f.message.Some? by {
      BlankOptionalText(Value(data, "message"));
    }
  }

  /** An optional text field accepts a blank value, as the empty string. */
  lemma BlankOptionalText(raw: string)
    requires Strip(raw) == []
    ensures CleanText(raw, false, None) == Some([])
  {
  }

  /** A newsletter address already on file is rejected. */
  lemma NewsletterRejectsDuplicate(data: PostData, p: Parsers, subscribers: seq<NewsletterSubscriber>, i: nat)
    requires i < |subscribers| && subscribers[i].email == Strip(Value(data, "email"))
    ensures ValidateNewsletter(data, p, subscribers).Invalid?
  {
  }
}
