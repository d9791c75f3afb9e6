# thinkcesite, modelled in Dafny

A model of the ThinkCE brochure site's logic:

- The Django application `main`: its records and their string, parsing and ordering rules, the three public forms, the contact, appointment, subscribe, home and about views, the admin's site-configuration guard and list orderings, and the SEO context processor.
- The project URL configuration: the route table, `reverse`/`resolve`, `robots.txt` and the sitemap.
- The two seeding scripts.
- The two browser scripts: the carousels, the header, the navigation menu and the theme switch.

The database is an in-memory `Tables` value. Each table is a sequence in primary-key order, and the site configuration is a map keyed by primary key. The live database is the class `Store.Database`, whose methods append a row or save the configuration in place.

Each view, seeding script and browser handler that changes state is a method. Most of these methods are proved equal to a specification function (`ContactSpec`, `SeedSpec`, `NavStep`, ...). The others state their new state outright: the `Store.Database` appends, `MainJs.Header.OnScroll` and the menu clicks. Each menu click is also proved to be one step of `MainJs.MenuAfter`, the function the menu lemma is about. The lemmas about the specification functions state what the site promises:

- nothing is stored for an invalid form;
- a failed notification keeps the stored row;
- seeding twice equals seeding once;
- the carousel wraps around and keeps its dots in step;
- a toggled theme survives a reload.

Modules, one per source file plus four helpers:

- `Wrappers`: `Option`.
- `Strings`: Python's `strip`, `split`, `join` and `replace`.
- `Ordering`: a stable sort on an integer key.
- `UrlSplit`: the checks in Python's `urlsplit` that can raise `ValueError` on a redirect target: the network location, its square brackets, and the IPv6 or IPvFuture host they enclose.
- `Models`: main/models.py.
- `Store`: the tables and the live database.
- `Forms`: main/forms.py.
- `Urls`: main/urls.py, plus the project's `reverse` and `resolve`.
- `SiteUrls`: thinkcesite/urls.py.
- `ContextProcessors`: main/context_processors.py.
- `Admin`: main/admin.py.
- `Views`: main/views.py.
- `SeedCore`: seed_core.py.
- `SeedData`: main/management/commands/seed_data.py.
- `MainJs`: main/static/main/js/main.js.
- `ThemeToggle`: main/static/main/js/theme-toggle.js.

In these points the model follows the code:

- `subscribe` also answers a GET, with the same redirect and no flash message.
- The redirect target is computed the way Django's `resolve_url` does it:
  - a referer that starts with `./` or `../` is used as it is;
  - a referer that is a route name is reversed;
  - any other referer is used as it is if it contains `/` or `.`;
  - a referer with neither `/` nor `.` raises `NoReverseMatch`, modelled as a server error;
  - `HttpResponseRedirect` splits the target with Python's `urlsplit`. A network location with a `[` but no `]` (or the reverse), or with a bracketed host that is neither IPv6 nor IPvFuture, raises `ValueError`, which escapes as a server error. `http://[broken/` is an example.
  - a target whose scheme, as `urlsplit` reads it, is present and is not `http`, `https` or `ftp` makes `HttpResponseRedirect` raise `DisallowedRedirect`, which Django answers with 400.
  - in all three failure cases the subscriber is already stored and the message flashed.
- `reverse` returns paths with the script prefix, so `home` is `/` and `contact` is `/contact/`.
- The admin keeps Django's default delete permission on the site configuration. Deleting the row gives the "add" permission back, so "add denied forever" holds only for admin actions that delete nothing.
- A seeding lookup that matches two or more rows raises `MultipleObjectsReturned` and stops the script, keeping the rows created so far.
- Sending mail fails when the transport fails. It also fails when `splitlines()` cuts the subject into more than one line: the header policy Django's mail layer uses (`email.policy.default`) then raises `ValueError`. The line boundaries are line feed, carriage return, `\r\n` as one break, vertical tab, form feed, the characters 0x1C to 0x1E, 0x85, U+2028 and U+2029; a single break at the very end leaves one line. Either failure takes the view's `except` branch.

## Model

| member | source | states |
|---|---|---|
| Strings.StripSpec | main/models.py:28 | `strip()` returns the infix of the input that starts after the leading white space; everything cut from either end is white space and neither end of the result is |
| Strings.StripPadded | main/models.py:28 | a stripped non-empty string surrounded by white space strips back to itself |
| Strings.Split | main/models.py:28 | `split(sep)` gives one more piece than there are separators, no piece holds the separator, and joining the pieces gives the input back |
| Strings.SplitJoin | main/models.py:28 | splitting the join of separator-free pieces gives the pieces back |
| Strings.Strip | main/models.py:28 | `strip()` never lengthens its input; `StripSpec` states what it keeps |
| Strings.ReplaceAll | main/models.py:172 | a replacement of the pattern's own length keeps the length, and replacing a pattern by itself changes nothing; `ReplaceJoin` states the value |
| Strings.ReplaceJoin | main/models.py:172 | `replace` of a pattern in text made of pieces joined by it (pieces free of the pattern's first character) gives the pieces joined by the replacement: Python's `s.replace(p, r) == r.join(s.split(p))` |
| Strings.ReplaceFreePrefix | main/models.py:172 | a prefix free of the pattern's first character passes `replace` unchanged |
| Strings.ReplaceAbsent | main/models.py:172 | `replace` of a pattern that does not occur changes nothing |
| Strings.ReplaceNotLonger | main/models.py:172 | replacing a pattern by something no longer never lengthens the string |
| Ordering.SortByKey | main/models.py:74-75 | the result is sorted on the key and is a permutation of the input; it is stable: the rows sharing a key keep their input order |
| Ordering.WithKeyReversed | main/admin.py:20 | the rows with one key, taken from the reversed table, are those rows in reverse order |
| Ordering.InsertWithKey | main/models.py:74-75 | inserting a row puts it in front of the rows that share its key and leaves the other keys' rows as they were |
| Ordering.Insert | main/models.py:74-75 | inserting into a sorted sequence keeps it sorted and adds exactly the one row |
| Models.ChoiceKeys | main/models.py:42-48 | the stored keys are exactly the first components of the choice list |
| Models.ServiceKeysAreFive | main/models.py:42-48 | the service keys are consulting, development, marketing, training and other |
| Models.FeaturesList | main/models.py:27-28 | every feature is non-empty, has no white space at either end and holds no comma; there are at most one more features than commas |
| Models.FeaturesOfJoin | main/models.py:28 | the features of comma-separated pieces are the stripped pieces, in their order, without the empty ones |
| Models.FeaturesRoundTrip | main/models.py:28 | features joined with commas parse back to the same list |
| Models.SpacedFeaturesRoundTrip | main/models.py:28 | features joined with a comma and a space parse back to the same list |
| Models.FeaturesExample | main/models.py:28 | "A, B ,, C" parses to A, B, C |
| Models.FeaturesOfSeparatorsOnly | main/models.py:28 | a text of commas and white space only has no features |
| Models.ThreeFeatures | main/models.py:28 | three features written with ", " between them parse to exactly those three |
| Models.DropEmptyAppend | main/models.py:28 | dropping empty tokens distributes over concatenation (the filter keeps order) |
| Models.DateText | main/views.py:64 | a date prints as ten characters, digits with `-` at positions 4 and 7 |
| Models.DateTextReadsBack | main/views.py:64 | the printed date reads back: its first four digits are the year, the next two the month and the last two the day |
| Strings.FirstBoundary | main/views.py:36-44 | the index of the first `splitlines()` boundary, or the length when there is none; nothing before it is a boundary |
| Strings.SplitLines | main/views.py:36-44 | `splitlines()`: no lines exactly for the empty string, and no line holds a boundary |
| Strings.SpansLinesIff | main/views.py:36-44 | a text has a line break with text after it exactly when `splitlines()` gives more than one line |
| Strings.BreakInside | main/views.py:36-44 | any boundary followed by text, other than the carriage return of a final `\r\n`, makes the text span lines |
| Strings.FinalBreakOneLine | main/views.py:36-44 | one line ended by `\r\n` splits into just that line and does not span lines |
| Strings.Digits | main/views.py:64 | `str(n)`: a non-empty string of decimal digits that denotes `n` |
| Strings.ZeroPadValue | main/views.py:64 | a zero-padded number still denotes that number |
| Models.TimeText | main/views.py:64 | a time prints as eight characters `hh:mm:ss`, followed by `.` and six more when there are microseconds |
| Models.TimeTextReadsBack | main/views.py:64 | the printed time reads back: hour, minute and second from their two-digit groups, and the microseconds from the digits after `.` when there are any |
| Models.ContactSubmissionText | main/models.py:10-11 | the text is the subject, then " - ", then the email, and nothing else |
| Models.HeroCarouselItemText | main/models.py:171-172 | the display text is never longer than the title; `HeroTextOfMarkedTitle` and `HeroTextOfPlainTitle` state its value |
| Models.HeroTextOfMarkedTitle | main/models.py:171-172 | a title `a<br>b<span class='gradi-text'>c</span>d` with no other tags shows as `a b` followed by `c` and `d`: the break becomes a space and both span tags vanish |
| Models.HeroTextOfPlainTitle | main/models.py:171-172 | a title without `<br>`, the gradient span tag or `</span>` is shown unchanged |
| Models.SaveSiteConfiguration | main/models.py:123-125 | a save writes under key 1 whatever the object's key was; the other rows are unchanged |
| Models.SaveKeepsSingleton | main/models.py:123-125 | a table with at most the row under key 1 has exactly one row after a save |
| Models.SecondSaveReplaces | main/models.py:123-125 | a second save replaces the first one's fields and adds no row |
| Models.TeamMemberOrder | main/models.py:74-75 | team members in ascending `order`, a permutation of the table |
| Models.SocialNetworkOrder | main/models.py:140-141 | social networks in ascending `order`, a permutation of the table |
| Models.StatOrder | main/models.py:151-152 | stats in ascending `order`, a permutation of the table |
| Models.HeroCarouselItemOrder | main/models.py:166-167 | carousel items in ascending `order`, a permutation of the table |
| Models.DateKeyOrders | main/models.py:54 | the integer date key orders dates as the calendar does and identifies them |
| Models.TimeKeyOrders | main/models.py:55 | the integer time key lies within one day and orders times of day |
| Models.AppointmentKeyOrders | main/models.py:60 | one appointment's sort key is at most another's exactly when the other is not later, comparing date, then time |
| Models.AppointmentOrder | main/models.py:59-60 | appointments latest date first, then latest time first, a permutation of the table |
| Store.Database.constructor | main/models.py:1-172 | the database starts with the given tables |
| Store.Database.AddContact | main/views.py:33 | `form.save()` appends the submission; no other table changes |
| Store.Database.AddAppointment | main/views.py:60 | `form.save()` appends the appointment; no other table changes |
| Store.Database.AddSubscriber | main/views.py:87 | `form.save()` appends the subscriber; no other table changes |
| Store.Database.AddCompany | main/management/commands/seed_data.py:29 | `save()` appends the company; no other table changes |
| Store.Database.AddTestimonial | main/management/commands/seed_data.py:94 | `create()` appends the testimonial; no other table changes |
| Store.Database.AddSocialNetwork | seed_core.py:33 | the create half of `get_or_create` appends the row |
| Store.Database.AddStat | seed_core.py:42 | the create half of `get_or_create` appends the row |
| Store.Database.AddSeoPage | seed_core.py:45-54 | the create half of `get_or_create` appends the row |
| Store.Database.SaveSiteConfiguration | main/models.py:123-125 | the singleton save in place; a table of at most one row keeps at most one |
| Forms.CleanText | main/models.py:4-7 | the cleaned value is the stripped input; a blank value fails exactly when the field is required; length and NUL checks hold; and conversely a non-blank stripped value within the length and free of NUL is accepted as it is, and a blank optional one as empty |
| Forms.CleanEmail | main/models.py:5 | an accepted address is the stripped, non-empty, well-formed input of at most 254 characters; conversely an input that cleans as text of at most 254 characters and is well-formed is accepted |
| Forms.CleanChoice | main/models.py:42-53 | a choice is accepted exactly when it is one of the stored keys |
| Forms.CleanDate | main/models.py:54 | a date that is empty or white space only is refused; otherwise the result is the parse of the stripped text |
| Forms.CleanTime | main/models.py:55 | a time that is empty or white space only is refused; otherwise the result is the parse of the stripped text |
| Forms.ValidateContact | main/forms.py:4-7 | a valid contact form holds the four stripped fields with their required and length rules; it is valid exactly when all four fields clean; an invalid one names only contact fields |
| Forms.AppointmentErrors | main/forms.py:15-18 | the failing fields are appointment fields, none fail exactly when all seven cleaned, and a cleaned message never fails |
| Forms.CleanAppointmentFields | main/models.py:50-56 | each cleaned appointment field is the stripped input within its length, a well-formed email, a known service key, or the parse of the stripped date or time |
| Forms.ValidateAppointment | main/forms.py:15-18 | a valid appointment holds the seven cleaned fields, a known service and parsed date and time; it is valid exactly when no field fails to clean; an invalid one names only appointment fields |
| Forms.AppointmentVerdict | main/forms.py:15-18 | the form is valid exactly when no field failed, an invalid one lists exactly the failed fields, and a valid one carries every cleaned value |
| Forms.ValidateNewsletter | main/forms.py:29-32 | valid exactly when the address cleans and no subscriber has it; errors name only `email` |
| Forms.ContactIgnoresOtherKeys | main/forms.py:7 | two submissions that agree on the four fields validate the same, so nothing else, `created_at` included, is read |
| Forms.AppointmentIgnoresOtherKeys | main/forms.py:18 | two submissions that agree on the seven fields validate the same |
| Forms.NewsletterIgnoresOtherKeys | main/forms.py:32 | two submissions that agree on `email` validate the same |
| Forms.AppointmentNeedsKnownService | main/models.py:42-53 | a service outside the five keys makes the form invalid, with an error on `service` |
| Forms.AppointmentNeedsPhone | main/models.py:52 | a blank phone makes the form invalid, with an error on `phone` |
| Forms.AppointmentMessageOptional | main/models.py:56 | a blank message is never an error and is stored empty |
| Forms.NewsletterRejectsDuplicate | main/models.py:81 | an address some subscriber already has is refused |
| Urls.FindRoute | main/urls.py:4-12 | the first route with the path, or none when no route has it |
| Urls.FindName | main/urls.py:4-12 | the first route with the name, or none when no route has it |
| Urls.ResolveIn | main/urls.py:4-12 | a resolved path is "/" plus the route's path; an unresolved one matches no route |
| Urls.ReverseIn | main/urls.py:4-12 | reversing succeeds exactly when some route has the name, and gives "/" plus that route's path |
| Urls.ResolveOfReverse | main/urls.py:4-12 | with distinct paths, resolving a reversed name finds that name |
| Urls.ReverseOfResolve | main/urls.py:4-12 | with distinct names, reversing a resolved route's name gives the path back |
| Urls.MainRoutesDistinct | main/urls.py:5-11 | the seven paths are pairwise distinct and so are the seven names |
| Urls.SiteRoutesDistinct | thinkcesite/urls.py:44-49 | with the sitemap and robots routes added, paths and names stay distinct |
| Urls.MainRoutesRoundTrip | main/urls.py:5-11 | every route name reverses to its path, and that path resolves to that name |
| Urls.ReverseHome | main/urls.py:5 | `home` reverses to "/" |
| Urls.ReverseContact | main/urls.py:10 | `contact` reverses to "/contact/" |
| Urls.ReverseAppointment | main/urls.py:9 | `appointment` reverses to "/appointment/" |
| Urls.Resolve | main/urls.py:4-12 | a path is served exactly when it is "/" plus the path of a registered route, and then that route is found |
| Urls.Reverse | main/urls.py:4-12 | a name reverses exactly when some registered route has it, to "/" plus that route's path |
| Urls.ReverseLongName | main/urls.py:4-12 | no name of twelve or more characters other than the sitemap's is registered |
| Urls.ResolveUrl | main/views.py:91 | `redirect(to)` fails exactly for a `to` that is not relative, not a route name and holds neither `/` nor `.`; a route name redirects to its path; a relative target, or one that is no route name and holds `/` or `.`, is used unchanged |
| SiteUrls.RobotsTxt | thinkcesite/urls.py:40-42 | the body names the sitemap at the request's own origin; the type is text/plain |
| SiteUrls.RobotsLines | thinkcesite/urls.py:41 | the body is exactly three lines: User-agent: *, Disallow:, and the sitemap address |
| SiteUrls.RobotsPointsAtSitemap | thinkcesite/urls.py:41-47 | the path in the Sitemap line resolves to the sitemap view, and the sitemap's name reverses to it |
| SiteUrls.SitemapItemsAreRoutes | thinkcesite/urls.py:26-31 | every sitemap item is a main route name, and `subscribe` is not an item |
| SiteUrls.SitemapLocations | thinkcesite/urls.py:33-34 | each item's location is its reversed path, and it resolves back to the item |
| SiteUrls.AllLocations | thinkcesite/urls.py:33-34 | every item has a location |
| SiteUrls.SitemapUrls | thinkcesite/urls.py:26-34 | one URL per item, each at protocol, domain and the item's location, all with change frequency daily |
| ContextProcessors.FirstSeoFor | main/context_processors.py:7 | the first SEO row for the page, or none exactly when no row has that page |
| ContextProcessors.MinKeyExists | main/context_processors.py:11 | a non-empty set of primary keys has a least one |
| ContextProcessors.MinKey | main/context_processors.py:11 | the least primary key |
| ContextProcessors.FirstSiteConfiguration | main/context_processors.py:11 | none exactly when the table is empty, otherwise the row with the lowest key |
| ContextProcessors.SeoSettings | main/context_processors.py:4-20 | no SEO row when the path does not resolve or has no name; any SEO row is one stored for the resolved name; the configuration is absent exactly when none is stored; all social networks and stats, in `order` |
| ContextProcessors.SeoIsTheRowForPage | main/context_processors.py:6-7 | with one row per page, the row for the resolved route is the one shown |
| ContextProcessors.HomePageSeo | main/context_processors.py:6-7 | on "/", a stored `home` row is found |
| ContextProcessors.SiteConfigIsTheSingleton | main/context_processors.py:11 | with the singleton stored, `site_config` is that row |
| Admin.HasAddPermission | main/admin.py:64-65 | adding is offered only while no row exists, and refused whenever one does |
| Admin.ApplyOp | main/admin.py:64-65 | an add without permission changes nothing; with it, the row is written under key 1; adds and changes keep a singleton; a delete removes the key |
| Admin.AddDeniedForever | main/admin.py:64-65 | once a configuration exists, adding stays forbidden through any admin actions that delete nothing |
| Admin.FirstAddCreatesTheRow | main/admin.py:64-65 | on an empty table an add is allowed, creates the row under key 1 and withdraws the permission |
| Admin.DeleteRestoresAdd | main/admin.py:64-65 | deleting the only row gives the add permission back |
| Admin.ContactSubmissionList | main/admin.py:20 | submissions newest first, a permutation of the table; submissions created at the same moment come highest primary key first, as Django's change list adds `-pk` |
| Admin.ContactListHeadIsNewest | main/admin.py:20 | the first listed submission is at least as recent as every stored one |
| Admin.AppointmentList | main/admin.py:38 | appointments latest date, then latest time, first; a permutation of the table; appointments at the same date and time come highest primary key first |
| Admin.NewsletterSubscriberList | main/admin.py:50 | subscribers newest first, a permutation of the table; subscribers who signed up at the same moment come highest primary key first |
| Admin.ChangeContact | main/admin.py:19 | an edit takes every edited field except the read-only creation time |
| Admin.ChangeAll | main/admin.py:19 | after edits the submission is the last edit, except for the creation time |
| Admin.EditsKeepCreatedAt | main/admin.py:19 | any number of edits leave the creation time as first stored |
| Views.ContactMail | main/views.py:36-44 | the notification goes from the default sender to the contact address only, with subject "New Contact Submission: " and the subject |
| Views.ContactMailLines | main/views.py:37 | the body reads From, Email, an empty line, Message:, then the message's own lines |
| Views.ContactSpec | main/views.py:29-54 | a GET or an invalid POST changes nothing, sends nothing and renders the contact page; a valid POST appends one submission of the cleaned fields stamped `now`, attempts a mail, and redirects to "/contact/" with one flash: the success message exactly when the transport succeeds and `splitlines()` leaves the subject one line, the error message otherwise |
| Views.Contact | main/views.py:29-54 | the view leaves the database and returns the outcome as `ContactSpec` says, mail refusal for a multi-line subject included |
| Views.ContactInvalidStoresNothing | main/views.py:30-32 | a GET or an invalid POST stores nothing, sends nothing and renders the page |
| Views.ContactValidStoresOne | main/views.py:33-50 | a valid POST appends exactly one submission stamped with the server time, mails the contact address and redirects to `contact` |
| Views.MailDeliveredLines | main/views.py:38-48 | a mail is sent exactly when the transport succeeds and `splitlines()` gives the subject at most one line |
| Views.SubjectBreakFails | main/views.py:38-48 | a subject with a line boundary followed by text is refused even by a working transport |
| Views.ContactSubjectBreakFails | main/views.py:36-48 | a contact subject with a line break followed by text makes the notification fail, so the view flashes the failure message |
| Views.LineSeparatorSubjectFails | main/views.py:36-48 | the contact subject `a`, U+2028, `b` makes the notification fail |
| Views.ContactMailFailureKeepsRow | main/views.py:38-48 | a failed send stores the same row as a successful one and flashes the error instead of the success message |
| Views.AppointmentMail | main/views.py:63-71 | the notification goes from the default sender to the appointment address only, with subject "New Appointment Request: " and the name |
| Views.AppointmentSpec | main/views.py:56-81 | a GET or an invalid POST changes nothing, sends nothing and renders the appointment page; a valid POST appends one appointment of the cleaned fields stamped `now`, attempts a mail, and redirects to "/appointment/" with one flash: the success message exactly when the transport succeeds and `splitlines()` leaves the subject (the client name) one line, the warning otherwise |
| Views.AppointmentView | main/views.py:56-81 | the view leaves the database and returns the outcome as `AppointmentSpec` says, mail refusal for a multi-line subject included |
| Views.AppointmentInvalidStoresNothing | main/views.py:57-59 | a GET or an invalid POST stores nothing and sends nothing |
| Views.AppointmentNameBreakFails | main/views.py:63-75 | a client name with a line break followed by text makes the appointment notification fail |
| Views.AppointmentValidStoresOne | main/views.py:60-77 | a valid POST appends exactly one appointment and mails only the appointment address; a failed send still stores that row, flashes a warning and redirects to `appointment`, and a successful send stores the same |
| Views.UrlScheme | main/views.py:91 | the scheme `urlsplit` finds, lower-cased: empty, or starting with a lower-case ASCII letter |
| Views.RedirectTo | main/views.py:91 | `redirect(to)` fails with a server error exactly when `to` does not resolve or `urlsplit` raises on the resolved target; it answers 400 exactly when the target splits but its scheme is not allowed; otherwise it redirects to the resolved target |
| Views.AfterScheme | main/views.py:91 | what `urlsplit` reads after the scheme and its `:` is a suffix of the cleaned target, and all of it when there is no scheme |
| Views.NoBracketsNeverRaise | main/views.py:91 | a target without square brackets never makes `urlsplit` raise |
| Views.UnmatchedBracketRaises | main/views.py:91 | `scheme://host` with a `[` but no `]` in the host, followed by nothing or a path, makes `urlsplit` raise |
| Views.BracketedHostNeverRaises | main/views.py:91 | `scheme://[host]` with an IPv6 or IPvFuture host, followed by nothing or a path, does not make `urlsplit` raise |
| Views.BrokenRefererFails | main/views.py:91 | the referer `http://[broken/` is answered with a server error |
| Views.LoopbackRefererRedirects | main/views.py:91 | the referer `http://[::1]/` is redirected to unchanged |
| UrlSplit.FirstIndex | main/views.py:91 | the first position of a character, or none exactly when it is absent |
| UrlSplit.AfterLast | main/views.py:91 | the text after the last occurrence of a character: a suffix free of it, preceded by it unless it is the whole text |
| UrlSplit.Netloc | main/views.py:91 | there is a network location exactly when the text starts with `//`; it is the longest run after those slashes free of `/`, `?` and `#` |
| UrlSplit.NoBracketsNoRaise | main/views.py:91 | text without square brackets never raises |
| UrlSplit.OpenBracketRaises | main/views.py:91 | a network location with a `[` and no `]` raises |
| UrlSplit.BracketedHostPasses | main/views.py:91 | a network location that is an accepted host in brackets does not raise |
| UrlSplit.FullFormIsIpv6 | main/views.py:91 | eight hextets joined by `:` are an IPv6 address and may stand in brackets |
| UrlSplit.LoopbackIsIpv6 | main/views.py:91 | `::1` is an IPv6 address and may stand in brackets |
| UrlSplit.Ipv4NotBracketable | main/views.py:91 | four octets joined by `.` are an IPv4 address, which may not stand in brackets |
| UrlSplit.Ipv4NotIpv6 | main/views.py:91 | an IPv4 address holds no `:` and an IPv6 address does, so no text is both |
| UrlSplit.WithIpv4Tail | main/views.py:91 | a last part holding `.` must be an IPv4 address and then stands for two hextets; any other list of parts is kept |
| UrlSplit.InnerEmpty | main/views.py:91 | the first empty part between the ends, where `::` stands, or none exactly when there is no such part |
| Views.NoColonAllowed | main/views.py:91 | a URL without `:` has no scheme, so it is an allowed redirect target |
| Views.SchemeOfPrefix | main/views.py:91 | a lower-case word, `:` and anything after has that word as its scheme, and is allowed exactly when the word is http, https or ftp |
| Views.HttpsAllowed | main/views.py:91 | every `https:` URL is an allowed redirect target |
| Views.MailtoRefused | main/views.py:91 | a referer `mailto:a@b.c` resolves to itself, splits without error and is answered with 400 |
| Views.SubscribeSpec | main/views.py:83-91 | only a valid POST changes the tables, by one subscriber appended; a POST flashes one message and a GET none; no mail; the answer depends on the referer alone |
| Views.Subscribe | main/views.py:83-91 | the view leaves the database and returns the outcome as `SubscribeSpec` says |
| Views.SubscribeValidAddsOne | main/views.py:86-88 | a valid address appends exactly one subscriber and flashes success |
| Views.SubscribeRejectedChangesNothing | main/views.py:89-90 | an invalid or taken address stores nothing and flashes the error |
| Views.SubscribeTwiceStoresOnce | main/views.py:84-90 | submitting the same address again stores nothing more and flashes the error |
| Views.SubscribeRedirects | main/views.py:91 | without a referer the response redirects to "/"; a referer with `/` or `.` always resolves, and is answered with a server error exactly when `urlsplit` raises on the resolved target, even for a GET; every redirect goes to an allowed URL |
| Views.HomeRedirect | main/views.py:91 | `redirect('home')` redirects to "/" |
| Views.SubscribeRedirectsToReferer | main/views.py:91 | a referer holding `/` that is neither relative nor a route name is answered with a server error when `urlsplit` raises on it, else redirected to as it is when its scheme is allowed and answered with 400 when not; without square brackets it never gets a server error |
| Views.SubscribeMailtoReferer | main/views.py:84-91 | a valid POST with a `mailto:` referer stores the subscriber and flashes success, then is answered with 400 |
| Views.ActiveItems | main/views.py:11 | every active item appears as often as in the table, and no inactive item appears |
| Views.ShownItems | main/views.py:11 | after ordering, an item is shown exactly when it is stored and active, and as often as the table holds it |
| Views.Home | main/views.py:8-16 | all testimonials; the active carousel items in `order`, each as often as stored; all team members in `order` |
| Views.About | main/views.py:25-27 | all team members in `order` |
| SeedCore.CountKey | seed_core.py:14-54 | the number of rows with the lookup key is zero exactly when no row has it |
| SeedCore.GetOrCreate | seed_core.py:14-54 | no match creates the row, one match keeps the table, two or more raise; a created row is appended and nothing else changes |
| SeedCore.SeedRows | seed_core.py:32-33 | the loop keeps every row that was there |
| SeedCore.SeedRowsKeepsFound | seed_core.py:32-33 | a key already present keeps its count through the loop |
| SeedCore.SeedRowsTwice | seed_core.py:32-33 | running the loop over its own result changes nothing and ends the same way |
| SeedCore.SeedRowsCreatesAll | seed_core.py:32-33 | into rows without their keys, items with distinct keys are all created, in order |
| SeedCore.SeedRowsHasAll | seed_core.py:32-33 | a loop that ends without a raise leaves exactly one row for every item's key |
| SeedCore.SeedSiteConfiguration | seed_core.py:14-23 | the row under key 1 is created with the defaults only if absent; an existing one is left as it is |
| SeedCore.SeedSpec | seed_core.py:10-56 | the configuration is seeded only if absent; social networks, stats and SEO rows are only appended to; no other table changes |
| SeedCore.SeedIdempotent | seed_core.py:10-56 | seeding twice leaves the store as seeding once, and ends the same way |
| SeedCore.SocialKeysDistinct | seed_core.py:26-31 | the four seeded platforms are distinct |
| SeedCore.StatKeysDistinct | seed_core.py:36-40 | the three seeded (number, label) pairs are distinct |
| SeedCore.SeedCompleteHasAll | seed_core.py:10-56 | from any starting tables, a completed run leaves exactly one row for every listed platform, every listed stat and the `home` SEO page |
| SeedCore.SeedOnEmpty | seed_core.py:10-56 | on empty tables the script completes and creates exactly the listed rows |
| SeedCore.Seed | seed_core.py:10-56 | the script against the live database ends as `SeedSpec` says, in the completed and the raised case |
| SeedCore.SeedSocialNetworks | seed_core.py:26-33 | the social-network loop does what `SeedRows` says, looking up by platform, and touches no other table |
| SeedCore.SeedStats | seed_core.py:36-42 | the stats loop does what `SeedRows` says, looking up by (number, label), and touches no other table |
| SeedData.InsertIfAbsent | main/management/commands/seed_data.py:17-29 | the row is appended exactly when no row has its key |
| SeedData.InsertAllAbsent | main/management/commands/seed_data.py:92-94 | the guarded inserts keep every existing row as it was |
| SeedData.InsertAllHasAll | main/management/commands/seed_data.py:92-94 | afterwards every item's key is present |
| SeedData.InsertAllNoop | main/management/commands/seed_data.py:92-94 | when every key is present nothing is inserted |
| SeedData.InsertAllTwice | main/management/commands/seed_data.py:92-94 | a second pass inserts nothing |
| SeedData.ImageFor | main/management/commands/seed_data.py:25-28 | a company gets an image exactly when its picture exists |
| SeedData.SeededNamesFixed | main/management/commands/seed_data.py:17-62 | the companies are looked up by the same names whatever images there are |
| SeedData.SeedCompanies | main/management/commands/seed_data.py:17-62 | existing companies are kept and all three names are present afterwards |
| SeedData.SeedDataSpec | main/management/commands/seed_data.py:10-97 | companies and testimonials are only appended to; no other table changes |
| SeedData.SeedDataTwice | main/management/commands/seed_data.py:10-97 | a second run inserts nothing, whatever images exist by then |
| SeedData.SoftiviteFeatures | main/management/commands/seed_data.py:22 | Softivite's features text parses to its three features |
| SeedData.FsquaremediaFeatures | main/management/commands/seed_data.py:38 | Fsquaremedia's features text parses to its three features |
| SeedData.EduscopeFeatures | main/management/commands/seed_data.py:54 | Eduscope's features text parses to its three features |
| SeedData.Handle | main/management/commands/seed_data.py:10-97 | the command against the live database ends as `SeedDataSpec` says |
| SeedData.AddCompanies | main/management/commands/seed_data.py:16-62 | the three guarded company inserts, in order |
| SeedData.AddTestimonials | main/management/commands/seed_data.py:92-95 | the testimonial loop creates each one unless its client name is taken |
| MainJs.FirstMarked | main/static/main/js/main.js:86-87 | `querySelector` finds the first marked element, or none exactly when nothing is marked |
| MainJs.FirstMarkedOfCurrent | main/static/main/js/main.js:86 | with exactly one current slide, the query finds it |
| MainJs.Moved | main/static/main/js/main.js:50-51 | the target gets the mark, the source loses it unless it is the target, and no other slide changes |
| MainJs.DotsUpdated | main/static/main/js/main.js:54-58 | nothing changes unless both dots exist; then the active mark moves from one to the other |
| MainJs.MovedIsCurrent | main/static/main/js/main.js:50-51 | moving the mark from the only current slide leaves exactly the target current |
| MainJs.NavStep | main/static/main/js/main.js:85-110 | one navigation step keeps the number of slides and dots, and does nothing without a current slide |
| MainJs.NavTargetIsRingStep | main/static/main/js/main.js:91-104 | the slide chosen by a step is the next or previous one around the ring |
| MainJs.NavSlides | main/static/main/js/main.js:85-107 | a step moves the current mark to the chosen slide |
| MainJs.NavDots | main/static/main/js/main.js:87-108 | when the slide wraps around, the active dot moves to the first or last dot; otherwise it moves to its own next or previous sibling |
| MainJs.NavMovesCurrent | main/static/main/js/main.js:91-104 | with one current slide at i, next leaves exactly i+1 (wrapping to 0) current, and prev exactly i-1 (wrapping to the last) |
| MainJs.NavKeepsDotsInStep | main/static/main/js/main.js:91-108 | when the active dot matches the current slide, it still matches after a step |
| MainJs.NextWrapsToFirst | main/static/main/js/main.js:94-97 | next from the last slide makes the first slide current and the first dot active |
| MainJs.PrevWrapsToLast | main/static/main/js/main.js:101-104 | prev from the first slide makes the last slide current and the last dot active |
| MainJs.NavWithoutActiveDot | main/static/main/js/main.js:54-58 | with no active dot, `updateDots` changes no dot |
| MainJs.ClickStep | main/static/main/js/main.js:116-128 | a click outside a button, or without a current slide, changes nothing |
| MainJs.ClickDotSelects | main/static/main/js/main.js:122-126 | clicking dot k makes slide k current and dot k active |
| MainJs.StrayClickStopsFlexCarousel | main/static/main/js/main.js:122-125 | on a flex carousel, a dot with no slide clears the current slide and freezes navigation |
| MainJs.Carousel.constructor | main/static/main/js/main.js:8-10 | the carousel holds the track's slides, and the nav's dots or none |
| MainJs.Carousel.MoveToSlide | main/static/main/js/main.js:33-52 | the current mark moves from the old slide to the target |
| MainJs.Carousel.UpdateDots | main/static/main/js/main.js:54-58 | nothing changes if either dot is missing; otherwise the active mark moves |
| MainJs.Carousel.HandleNav | main/static/main/js/main.js:85-110 | a button click does what `NavStep` says |
| MainJs.Carousel.AutoPlayTick | main/static/main/js/main.js:134-149 | an autoplay tick does what `NavStep` says for next |
| MainJs.Carousel.ClickDot | main/static/main/js/main.js:115-129 | with a dot nav a click does what `ClickStep` says; without one nothing changes |
| MainJs.InitCarousel | main/static/main/js/main.js:4-14 | no carousel exactly when the track is missing or has no slides |
| MainJs.Header.OnScroll | main/static/main/js/main.js:180-186 | the header is marked scrolled exactly when the scroll offset exceeds 50 |
| MainJs.Highlighted | main/static/main/js/main.js:189-195 | a link is active exactly when it was or its href equals the current path |
| MainJs.NavLinks.Highlight | main/static/main/js/main.js:191-195 | the loop over the links leaves them as `Highlighted` says |
| MainJs.Menu.ClickHamburger | main/static/main/js/main.js:202-205 | when wired, a click toggles both the menu and the button, which is one hamburger step of `MenuAfter`; menu and button that agreed still agree |
| MainJs.Menu.ClickNavLink | main/static/main/js/main.js:207-212 | when wired, a link click closes both the menu and the button, which is one link step of `MenuAfter`; menu and button that agreed still agree |
| MainJs.MenuAndButtonAgree | main/static/main/js/main.js:201-214 | after any clicks, the menu and the button are open together or closed together |
| ThemeToggle.Toggled | main/static/main/js/theme-toggle.js:11-12 | the new theme is dark or light, and differs from a dark or light current theme |
| ThemeToggle.ToggleTwice | main/static/main/js/theme-toggle.js:11-12 | toggling twice from dark or light returns to it; from anything else it ends on light |
| ThemeToggle.IconUpdated | main/static/main/js/theme-toggle.js:20-36 | nothing changes without the button or its icon; otherwise the icon and label show the theme and other classes are kept |
| ThemeToggle.IconUpdateIdempotent | main/static/main/js/theme-toggle.js:20-36 | updating the icon twice for one theme is updating it once |
| ThemeToggle.ToggleSurvivesReload | main/static/main/js/theme-toggle.js:14-15 | after a toggle, the next load shows the toggled theme whatever the preference |
| ThemeToggle.InitialTheme | main/static/main/js/theme-toggle.js:45-51 | a saved non-empty theme wins; otherwise a dark preference gives dark; whenever the handler sets the theme it is non-empty, and otherwise the attribute is kept |
| ThemeToggle.ThemePage.constructor | main/static/main/js/theme-toggle.js:39-44 | the page starts with the given attribute, stored theme and button |
| ThemeToggle.ThemePage.UpdateIcon | main/static/main/js/theme-toggle.js:20-36 | the button becomes `IconUpdated` of the theme; the theme and storage are unchanged |
| ThemeToggle.ThemePage.ToggleTheme | main/static/main/js/theme-toggle.js:2-18 | the attribute becomes the toggled theme, the stored theme equals it, and the icon shows it |
| ThemeToggle.ThemePage.InitialLoad | main/static/main/js/theme-toggle.js:39-52 | a saved non-empty theme wins, else a dark preference sets dark, else the attribute and icon are left untouched |

## Left out

- Django's ORM, migrations and transactions are not modelled. Each table is a sequence in primary-key order. A query without ordering returns that order, and `first()` takes the lowest key.
- Rows with equal `order` keys are modelled in insertion order. The database gives no such guarantee.
- Two requests racing on the unique subscriber email or SEO page, and the `IntegrityError` the loser would get, are not modelled: requests are sequential.
- Email-format, date and time parsing are parameters (`Forms.Parsers`) rather than reimplementations of Django's validators. The maximum lengths of `EmailField` and `URLField` beyond the email's 254 are not checked.
- A POST body's repeated keys (`QueryDict` lists) are not modelled; a field is one string, and a missing field is empty.
- Mail transport success is a parameter. The SMTP exchange and the `print` of the exception are not modelled.
- Template rendering, HTML and the flash-message storage are not modelled. A response is a render of a template with a bound or unbound form, a redirect, a 400 for a refused redirect, or a server error.
- Views.RedirectTo: the target is split the way `urlsplit` does it in Python 3.12, the release Django 6.0 requires, with the bracketed-netloc check of its current security releases. `urlsplit`'s NFKC check on non-ASCII network locations (`_checknetloc`) is not modelled, so a target it would refuse is modelled as splitting. The percent-encoding of the `Location` header (`iri_to_uri`) and any URL length limit a Django release adds are not modelled.
- Views.RedirectTo: a referer in a namespace the site registers, such as `admin:index`, is reversed by Django (to `/admin/`, a 302). The model's route table holds only the site's own routes, so it answers such a referer with a server error.
- The `companies` and `services` views are not modelled: each only renders a template, and the feature parsing the companies page shows is `Models.FeaturesList`.
- The admin's `list_display`, `search_fields`, `list_filter`, `list_editable` and branding strings are interface configuration, not logic.
- Admin views other than the site-configuration rules, the orderings and the read-only creation time are not modelled.
- Image upload storage (the renaming of a clashing file name) and the file-system checks of the seeding command are not modelled. The command receives the set of picture files that exist.
- The Django bootstrap of seed_core.py and the progress messages of both seeding scripts are not modelled.
- The sitemap XML and its `priority = 0.5` float are not modelled.
- The routes `admin/` and the debug-only media route are not modelled.
- Carousel pixel layout is not modelled: `getBoundingClientRect`, `style.left`, `translateX` and the resize handler.
- Timers are not modelled: `setInterval` and `resetAutoPlay` only decide when an autoplay tick happens, and a tick is `MainJs.Carousel.AutoPlayTick`.
- Event wiring, `preventDefault` and `console.log` are not modelled.
- `localStorage` and `matchMedia` are a field and a parameter.
- MainJs.Carousel.HandleNav: a click when no slide is current throws in the browser before changing anything. The model states this as "nothing changes".
- MainJs.Carousel.ClickDot: a click on a dot beyond the slides is modelled as the browser runs it. An absolute carousel throws before any change. A flex carousel removes the current mark and then throws. This is stated by `MainJs.StrayClickStopsFlexCarousel`.
- MainJs.Header.OnScroll: the scroll offset is a real number. A page without a `<header>` element, where the handler throws on every scroll, is not modelled.
