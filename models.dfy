/**
 * The site's records (main/models.py): one datatype per model, the choice
 * lists, the comma-separated feature parser, the two `__str__` builders that
 * do more than return a field, the singleton save of the site configuration
 * and the default orderings.
 */
module Models {
  import opened Wrappers
  import opened Strings
  import Ordering

  // ---------------------------------------------------------------- dates

  predicate IsLeap(year: int) {
    year % 4 == 0 && (year % 100 != 0 || year % 400 == 0)
  }

  function DaysInMonth(year: int, month: int): int {
    if month == 2 then (if IsLeap(year) then 29 else 28)
    else if month == 4 || month == 6 || month == 9 || month == 11 then 30
    else 31
  }

  /** A calendar date as Python's `datetime.date` accepts it. */
  datatype RawDate = RawDate(year: int, month: int, day: int)
  predicate IsDate(d: RawDate) {
    1 <= d.year <= 9999 && 1 <= d.month <= 12 && 1 <= d.day <= DaysInMonth(d.year, d.month)
  }
  type Date = d: RawDate | IsDate(d) witness RawDate(1, 1, 1)

  /** A wall-clock time as Python's `datetime.time` accepts it. */
  datatype RawTime = RawTime(hour: int, minute: int, second: int, microsecond: int)
  predicate IsTime(t: RawTime) {
    0 <= t.hour < 24 && 0 <= t.minute < 60 && 0 <= t.second < 60 && 0 <= t.microsecond < 1000000
  }
  type Time = t: RawTime | IsTime(t) witness RawTime(0, 0, 0, 0)

  /**
   * `str(date)`: `YYYY-MM-DD` (see `DateTextReadsBack` for the values of
   * the digit groups).
   */
  function DateText(d: Date): (r: string)
    ensures |r| == 10 && r[4] == '-' && r[7] == '-'
    ensures forall k :: 0 <= k < |r| && k != 4 && k != 7 ==> '0' <= r[k] <= '9'
  {
    assert Pow10(2) == 100 && Pow10(4) == 10000;
    ZeroPad(d.year, 4) + "-" + ZeroPad(d.month, 2) + "-" + ZeroPad(d.day, 2)
  }

  /**
   * `str(time)`: `HH:MM:SS`, followed by `.ffffff` when there are
   * microseconds (see `TimeTextReadsBack` for the values of the groups).
   */
  function TimeText(t: Time): (r: string)
    ensures t.microsecond == 0 ==> |r| == 8
    ensures t.microsecond != 0 ==> |r| == 15 && r[8] == '.'
    ensures |r| >= 8 && r[2] == ':' && r[5] == ':'
    ensures forall k :: 0 <= k < 8 && k != 2 && k != 5 ==> '0' <= r[k] <= '9'
  {
    assert Pow10(2) == 100 && Pow10(6) == 1000000;
    var hms := ZeroPad(t.hour, 2) + ":" + ZeroPad(t.minute, 2) + ":" + ZeroPad(t.second, 2);
    ThreeGroups(ZeroPad(t.hour, 2), ZeroPad(t.minute, 2), ZeroPad(t.second, 2), ':');
    var frac := if t.microsecond == 0 then "" else "." + ZeroPad(t.microsecond, 6);
    assert (hms + frac)[..8] == hms;
    hms + frac
  }

  /** The digit groups of `str(date)` read back as the year, the month and the day. */
  lemma DateTextReadsBack(d: Date)
    ensures var r := DateText(d);
      DecimalValue(r[..4]) == d.year && DecimalValue(r[5..7]) == d.month && DecimalValue(r[8..]) == d.day
  {
    assert Pow10(2) == 100 && Pow10(4) == 10000;
    var y, m, dd := ZeroPad(d.year, 4), ZeroPad(d.month, 2), ZeroPad(d.day, 2);
    ZeroPadValue(d.year, 4);
    ZeroPadValue(d.month, 2);
    ZeroPadValue(d.day, 2);
    ThreeGroups(y, m, dd, '-');
    var r := DateText(d);
    assert r == y + "-" + m + "-" + dd;
    assert r[..4] == y && r[5..7] == m && r[8..] == dd;
  }

  /** The digit groups of `str(time)` read back as the hour, minute, second and microsecond. */
  lemma TimeTextReadsBack(t: Time)
    ensures var r := TimeText(t);
      DecimalValue(r[..2]) == t.hour && DecimalValue(r[3..5]) == t.minute && DecimalValue(r[6..8]) == t.second
      && (t.microsecond != 0 ==> DecimalValue(r[9..]) == t.microsecond)
  {
    assert Pow10(2) == 100 && Pow10(6) == 1000000;
    var h, m, sec := ZeroPad(t.hour, 2), ZeroPad(t.minute, 2), ZeroPad(t.second, 2);
    var hms := h + ":" + m + ":" + sec;
    var frac := if t.microsecond == 0 then "" else "." + ZeroPad(t.microsecond, 6);
    ZeroPadValue(t.hour, 2);
    ZeroPadValue(t.minute, 2);
    ZeroPadValue(t.second, 2);
    ThreeGroups(h, m, sec, ':');
    assert TimeText(t) == hms + frac;
    SliceOfPrefix(hms, frac, 0, 2);
    SliceOfPrefix(hms, frac, 3, 5);
    SliceOfPrefix(hms, frac, 6, 8);
    if t.microsecond != 0 {
      ZeroPadValue(t.microsecond, 6);
      assert (hms + frac)[9..] == frac[1..];
    }
  }

  /** A point in time, in the server clock's units (`auto_now_add` fields). */
  type Timestamp = int

  // ---------------------------------------------------------------- records

  datatype ContactSubmission = ContactSubmission(
    name: string, email: string, subject: string, message: string, createdAt: Timestamp)

  datatype Company = Company(
    name: string, tagline: string, description: string, image: string,
    websiteUrl: string, features: string)

  datatype Testimonial = Testimonial(
    clientName: string, role: string, companyName: string, message: string,
    authorInitials: string, bgColor: string)

  datatype Appointment = Appointment(
    name: string, email: string, phone: string, service: string,
    date: Date, time: Time, message: string, createdAt: Timestamp)

  datatype TeamMember = TeamMember(
    name: string, role: string, image: Option<string>, bio: string,
    linkedinUrl: string, twitterUrl: string, order: int)

  datatype NewsletterSubscriber = NewsletterSubscriber(email: string, createdAt: Timestamp)

  datatype SEOPageSettings = SEOPageSettings(
    page: string, title: string, metaDescription: string, keywords: string,
    ogTitle: string, ogDescription: string, ogImage: Option<string>)

  datatype SiteConfiguration = SiteConfiguration(
    siteName: string, contactEmail: string, contactPhone: string,
    address: string, aboutText: string)

  datatype SocialNetwork = SocialNetwork(platform: string, url: string, order: int)

  datatype Stat = Stat(number: string, labelText: string, order: int)  // `label` is a Dafny keyword

  datatype HeroCarouselItem = HeroCarouselItem(
    title: string, subtitle: string, image: string, buttonText: string,
    buttonUrl: string, order: int, isActive: bool)

  // ---------------------------------------------------------------- choices

  /** `Appointment.SERVICE_CHOICES`: stored key and display label. */
  const SERVICE_CHOICES: seq<(string, string)> := [
    ("consulting", "Consulting"),
    ("development", "Software Development"),
    ("marketing", "Digital Marketing"),
    ("training", "Training/Education"),
    ("other", "Other")
  ]

  /** `SEOPageSettings.PAGE_CHOICES`. */
  const PAGE_CHOICES: seq<(string, string)> := [
    ("home", "Home"),
    ("about", "About Us"),
    ("services", "Services"),
    ("companies", "Portfolio/Companies"),
    ("contact", "Contact"),
    ("appointment", "Appointment")
  ]

  /** `SocialNetwork.PLATFORM_CHOICES`. */
  const PLATFORM_CHOICES: seq<(string, string)> := [
    ("linkedin", "LinkedIn"),
    ("twitter", "Twitter"),
    ("facebook", "Facebook"),
    ("instagram", "Instagram"),
    ("youtube", "YouTube"),
    ("github", "GitHub")
  ]

  /** The stored keys of a choice list. */
  function ChoiceKeys(choices: seq<(string, string)>): (keys: set<string>)
    ensures forall i :: 0 <= i < |choices| ==> choices[i].0 in keys
    ensures forall k :: k in keys ==> exists i :: 0 <= i < |choices| && choices[i].0 == k
  {
    set i | 0 <= i < |choices| :: choices[i].0
  }

  /** The five service keys, and nothing else, are valid. */
  lemma ServiceKeysAreFive()
    ensures ChoiceKeys(SERVICE_CHOICES) == {"consulting", "development", "marketing", "training", "other"}
  {
    var keys := ChoiceKeys(SERVICE_CHOICES);
    assert SERVICE_CHOICES[0].0 == "consulting" && SERVICE_CHOICES[1].0 == "development";
    assert SERVICE_CHOICES[2].0 == "marketing" && SERVICE_CHOICES[3].0 == "training";
    assert SERVICE_CHOICES[4].0 == "other";
  }

  // ---------------------------------------------------------------- Company.get_features_list

  /** Every part, stripped (`[f.strip() for f in parts]`). */
  function StripEach(parts: seq<string>): (r: seq<string>)
    ensures |r| == |parts|
    ensures forall i :: 0 <= i < |r| ==> r[i] == Strip(parts[i])
  {
    if parts == [] then [] else [Strip(parts[0])] + StripEach(parts[1..])
  }

  /** The non-empty strings of `xs`, in their order (`[f for f in xs if f]`). */
  function DropEmpty(xs: seq<string>): (r: seq<string>)
    ensures |r| <= |xs|
    ensures forall i :: 0 <= i < |r| ==> r[i] != [] && r[i] in xs
  {
    if xs == [] then []
    else (if xs[0] != [] then [xs[0]] else []) + DropEmpty(xs[1..])
  }

  /** Filtering works piece by piece, so the order of what is kept is the input order. */
  lemma {:induction false} DropEmptyAppend(xs: seq<string>, ys: seq<string>)
    ensures DropEmpty(xs + ys) == DropEmpty(xs) + DropEmpty(ys)
  {
    if xs == [] {
      assert xs + ys == ys;
    } else {
      var head := if xs[0] != [] then [xs[0]] else [];
      assert (xs + ys)[0] == xs[0] && (xs + ys)[1..] == xs[1..] + ys;
      DropEmptyAppend(xs[1..], ys);
      assert DropEmpty(xs + ys) == head + DropEmpty(xs[1..] + ys);
      assert DropEmpty(xs) == head + DropEmpty(xs[1..]);
    }
  }

  /** Stripping pieces that have no white space at either end changes nothing. */
  lemma StripEachKeeps(pieces: seq<string>)
    requires forall i :: 0 <= i < |pieces| ==> Strip(pieces[i]) == pieces[i]
    ensures StripEach(pieces) == pieces
  {
  }

  /** A list without empty strings is kept whole. */
  lemma {:induction false} DropEmptyKeeps(xs: seq<string>)
    requires forall i :: 0 <= i < |xs| ==> xs[i] != []
    ensures DropEmpty(xs) == xs
  {
    if xs != [] {
      DropEmptyKeeps(xs[1..]);
    }
  }

  /** A list of nothing but empty strings is dropped whole. */
  lemma {:induction false} DropEmptyOfEmpties(xs: seq<string>)
    requires forall i :: 0 <= i < |xs| ==> xs[i] == []
    ensures DropEmpty(xs) == []
  {
    if xs != [] {
      DropEmptyOfEmpties(xs[1..]);
    }
  }

  /**
   * `Company.get_features_list`: split the `features` text on commas, strip
   * each piece, drop the empty ones. Every feature is non-empty, has no white
   * space at either end and no comma, and there are at most as many features
   * as commas plus one.
   */
  function FeaturesList(features: string): (r: seq<string>)
    ensures |r| <= Count(features, ',') + 1
    ensures forall i :: 0 <= i < |r| ==> r[i] != [] && Stripped(r[i]) && ',' !in r[i]
  {
    var parts := Split(features, ',');
    var stripped := StripEach(parts);
    assert forall i :: 0 <= i < |stripped| ==> Stripped(stripped[i]) && ',' !in stripped[i] by {
      forall i | 0 <= i < |stripped| ensures Stripped(stripped[i]) && ',' !in stripped[i] {
        StripSpec(parts[i]);
        StripKeepsOut(parts[i], ',');
      }
    }
    DropEmpty(stripped)
  }

  /** Parsing a comma-joined text strips and filters exactly the joined pieces, in order. */
  lemma FeaturesOfJoin(pieces: seq<string>)
    requires |pieces| >= 1
    requires forall i :: 0 <= i < |pieces| ==> ',' !in pieces[i]
    ensures FeaturesList(Join(pieces, ',')) == DropEmpty(StripEach(pieces))
  {
    SplitJoin(pieces, ',');
  }

  /**
   * Round trip: a list of features (each non-empty, stripped, comma-free)
   * written as comma-separated text parses back to the same list.
   */
  lemma FeaturesRoundTrip(features: seq<string>)
    requires forall i :: 0 <= i < |features| ==> features[i] != [] && Stripped(features[i]) && ',' !in features[i]
    ensures FeaturesList(Join(features, ',')) == features
  {
    if features == [] {
      assert Split([], ',') == [[]];
      assert Strip([]) == [];
    } else {
      FeaturesOfJoin(features);
      forall i | 0 <= i < |features| ensures Strip(features[i]) == features[i] {
        StripKeepsStripped(features[i]);
      }
      StripEachKeeps(features);
      DropEmptyKeeps(features);
    }
  }

  /** `"A, B ,, C"` parses to exactly `["A", "B", "C"]`. */
  lemma FeaturesExample()
    ensures FeaturesList("A, B ,, C") == ["A", "B", "C"]
  {
    assert FeaturesList("A, B ,, C") == DropEmpty(StripEach(["A", " B ", "", " C"])) by {
      ExampleParts();
    }
    assert StripEach(["A", " B ", "", " C"]) == ["A", "B", "", "C"] by {
      ExampleStripped();
    }
    assert DropEmpty(["A", "B", "", "C"]) == ["A", "B", "C"] by {
      DropEmptyThird("A", "B", "C");
    }
  }

  lemma ExampleParts()
    ensures FeaturesList("A, B ,, C") == DropEmpty(StripEach(["A", " B ", "", " C"]))
  {
    ExampleJoin();
    FeaturesOfJoin(["A", " B ", "", " C"]);
  }

  lemma ExampleStripped()
    ensures StripEach(["A", " B ", "", " C"]) == ["A", "B", "", "C"]
  {
    StripEachFour("A", " B ", "", " C");
    StripExamples();
  }

  /** Stripping four pieces strips each of them. */
  lemma StripEachFour(a: string, b: string, c: string, d: string)
    ensures StripEach([a, b, c, d]) == [Strip(a), Strip(b), Strip(c), Strip(d)]
  {
    var pieces := [a, b, c, d];
    assert pieces[1..] == [b, c, d] && pieces[1..][1..] == [c, d] && pieces[1..][1..][1..] == [d];
  }

  lemma ExampleJoin()
    ensures Join(["A", " B ", "", " C"], ',') == "A, B ,, C"
  {
    var pieces := ["A", " B ", "", " C"];
    assert pieces[1..][1..][1..] == [" C"];
    assert pieces[1..][1..] == ["", " C"];
    assert pieces[1..] == [" B ", "", " C"];
  }

  /** Stripping a list piece by piece gives the list of what each piece strips to. */
  lemma StripEachIs(pieces: seq<string>, stripped: seq<string>)
    requires |pieces| == |stripped|
    requires forall i :: 0 <= i < |pieces| ==> Strip(pieces[i]) == stripped[i]
    ensures StripEach(pieces) == stripped
  {
  }

  /** `s` is a single feature: non-empty, no white space at either end, no comma. */
  predicate IsFeature(s: string) {
    s != [] && Stripped(s) && ',' !in s
  }

  /** Three pieces joined with a separator. */
  lemma JoinThree(x: string, y: string, z: string, sep: char)
    ensures Join([x, y, z], sep) == x + [sep] + y + [sep] + z
  {
    var pieces := [x, y, z];
    assert pieces[1..] == [y, z] && pieces[1..][1..] == [z];
    assert Join([z], sep) == z;
    assert Join([y, z], sep) == y + [sep] + z;
    assert Join(pieces, sep) == x + [sep] + (y + [sep] + z);
  }

  /** A feature, with or without one space in front, strips to itself. */
  lemma StripFeature(s: string)
    requires IsFeature(s)
    ensures Strip(s) == s && Strip(" " + s) == s
  {
    assert AllSpace("") && AllSpace(" ");
    assert s == "" + s + "" && " " + s == " " + s + "";
    StripPadded("", s, "");
    StripPadded(" ", s, "");
  }

  /** Features as written in text: the first as it is, every later one after a space. */
  function Spaced(features: seq<string>): (r: seq<string>)
    ensures |r| == |features|
  {
    seq(|features|, i requires 0 <= i < |features| => if i == 0 then features[i] else " " + features[i])
  }

  /**
   * Round trip with the usual spelling: features written with a comma and
   * one space between them parse back to the same features.
   */
  lemma SpacedFeaturesRoundTrip(features: seq<string>)
    requires |features| >= 1
    requires forall i :: 0 <= i < |features| ==> IsFeature(features[i])
    ensures FeaturesList(Join(Spaced(features), ',')) == features
  {
    var pieces := Spaced(features);
    SpacedHasNoComma(features);
    FeaturesOfJoin(pieces);
    SpacedStripsBack(features);
    DropEmptyKeeps(features);
  }

  lemma SpacedHasNoComma(features: seq<string>)
    requires forall i :: 0 <= i < |features| ==> ',' !in features[i]
    ensures forall i :: 0 <= i < |Spaced(features)| ==> ',' !in Spaced(features)[i]
  {
    var pieces := Spaced(features);
    forall i | 0 <= i < |pieces| ensures ',' !in pieces[i] {
      if i > 0 {
        assert pieces[i] == [' '] + features[i];
      }
    }
  }

  lemma SpacedStripsBack(features: seq<string>)
    requires forall i :: 0 <= i < |features| ==> IsFeature(features[i])
    ensures StripEach(Spaced(features)) == features
  {
    var pieces := Spaced(features);
    forall i | 0 <= i < |pieces| ensures Strip(pieces[i]) == features[i] {
      SpacedPieceStrips(features, i);
    }
    StripEachIs(pieces, features);
  }

  lemma SpacedPieceStrips(features: seq<string>, i: nat)
    requires i < |features| && IsFeature(features[i])
    ensures Strip(Spaced(features)[i]) == features[i]
  {
    var f := features[i];
    if i == 0 {
      assert Spaced(features)[i] == f;
      StripFeature(f);
    } else {
      assert Spaced(features)[i] == " " + f;
      StripFeature(f);
    }
  }

  /** `a, b, c` (a comma and one space between features) parses to exactly those three features. */
  lemma ThreeFeatures(a: string, b: string, c: string)
    requires IsFeature(a) && IsFeature(b) && IsFeature(c)
    ensures FeaturesList(a + ", " + b + ", " + c) == [a, b, c]
  {
    var features := [a, b, c];
    var pieces := Spaced(features);
    assert pieces == [a, " " + b, " " + c];
    JoinThree(a, " " + b, " " + c, ',');
    assert a + ", " + b + ", " + c == a + [','] + (" " + b) + [','] + (" " + c);
    SpacedFeaturesRoundTrip(features);
  }

  lemma DropEmptyThird(a: string, b: string, c: string)
    requires a != [] && b != [] && c != []
    ensures DropEmpty([a, b, [], c]) == [a, b, c]
  {
    var xs := [a, b, [], c];
    assert [c][1..] == [];
    assert DropEmpty([c]) == [c];
    assert [[], c][1..] == [c];
    assert DropEmpty([[], c]) == [c];
    assert [b, [], c][1..] == [[], c];
    assert DropEmpty([b, [], c]) == [b, c];
    assert xs[1..] == [b, [], c];
  }

  lemma StripExamples()
    ensures Strip("A") == "A" && Strip(" B ") == "B" && Strip("") == "" && Strip(" C") == "C"
  {
    assert AllSpace("") && AllSpace(" ");
    assert Stripped("A") && Stripped("B") && Stripped("C");
    assert "A" == "" + "A" + "" && " B " == " " + "B" + " " && " C" == " " + "C" + "";
    StripPadded("", "A", "");
    StripPadded(" ", "B", " ");
    StripPadded(" ", "C", "");
  }

  /** A text of nothing but commas and white space has no features. */
  lemma {:induction false} FeaturesOfSeparatorsOnly(s: string)
    requires forall k :: 0 <= k < |s| ==> s[k] == ',' || IsSpace(s[k])
    ensures FeaturesList(s) == []
  {
    SplitOfSeparatorsOnly(s);
    var parts := Split(s, ',');
    forall i | 0 <= i < |parts| ensures Strip(parts[i]) == [] {
      StripAllSpace(parts[i]);
    }
    DropEmptyOfEmpties(StripEach(parts));
  }

  /** Every piece of such a text is made of white space only. */
  lemma {:induction false} SplitOfSeparatorsOnly(s: string)
    requires forall k :: 0 <= k < |s| ==> s[k] == ',' || IsSpace(s[k])
    ensures forall i, k :: 0 <= i < |Split(s, ',')| && 0 <= k < |Split(s, ',')[i]| ==> IsSpace(Split(s, ',')[i][k])
  {
    if s != [] {
      SplitOfSeparatorsOnly(s[1..]);
      var rest := Split(s[1..], ',');
      if s[0] != ',' {
        var head := [s[0]] + rest[0];
        assert forall k :: 0 <= k < |head| ==> IsSpace(head[k]) by {
          forall k | 0 <= k < |head| ensures IsSpace(head[k]) {
            if k > 0 { assert head[k] == rest[0][k - 1]; }
          }
        }
      }
    }
  }

  // ---------------------------------------------------------------- __str__

  /** `ContactSubmission.__str__`: the subject, `" - "`, then the email. */
  function ContactSubmissionText(c: ContactSubmission): (r: string)
    ensures |r| == |c.subject| + 3 + |c.email|
    ensures r[..|c.subject|] == c.subject && r[|r| - |c.email|..] == c.email
    ensures r[|c.subject|..|c.subject| + 3] == " - "
  {
    c.subject + " - " + c.email
  }

  const BR_TAG := "<br>"
  const GRADIENT_SPAN_OPEN := "<span class='gradi-text'>"
  const SPAN_CLOSE := "</span>"

  /**
   * `HeroCarouselItem.__str__`: three replace-all steps in this order:
   * `<br>` becomes a space, then the gradient span's opening tag and then
   * every `</span>` are removed.
   */
  function HeroCarouselItemText(item: HeroCarouselItem): (r: string)
    ensures |r| <= |item.title|
  {
    var s1 := ReplaceAll(item.title, BR_TAG, " ");
    var s2 := ReplaceAll(s1, GRADIENT_SPAN_OPEN, "");
    ReplaceNotLonger(item.title, BR_TAG, " ");
    ReplaceNotLonger(s1, GRADIENT_SPAN_OPEN, "");
    ReplaceNotLonger(s2, SPAN_CLOSE, "");
    ReplaceAll(s2, SPAN_CLOSE, "")
  }

  /** A title without any of the three markup pieces is shown as it is. */
  lemma HeroTextOfPlainTitle(item: HeroCarouselItem)
    requires !Contains(item.title, BR_TAG)
    requires !Contains(item.title, GRADIENT_SPAN_OPEN)
    requires !Contains(item.title, SPAN_CLOSE)
    ensures HeroCarouselItemText(item) == item.title
  {
    ReplaceAbsent(item.title, BR_TAG, " ");
    ReplaceAbsent(item.title, GRADIENT_SPAN_OPEN, "");
    ReplaceAbsent(item.title, SPAN_CLOSE, "");
  }

  /** A markup tag as the titles use them: `<`, then at least one character, none of them `<`. */
  predicate IsTag(t: string) {
    |t| >= 2 && t[0] == '<' && '<' !in t[1..]
  }

  /**
   * A title written the way the carousel's headings are, `a<br>b<span
   * class='gradi-text'>c</span>d` with plain text around the tags (any part
   * may be empty), is shown as `a`, a space, then `b`, `c` and `d` run
   * together: the break becomes a space and the span tags vanish.
   */
  lemma HeroTextOfMarkedTitle(item: HeroCarouselItem, a: string, b: string, c: string, d: string)
    requires '<' !in a && '<' !in b && '<' !in c && '<' !in d
    requires item.title == a + BR_TAG + b + GRADIENT_SPAN_OPEN + c + SPAN_CLOSE + d
    ensures HeroCarouselItemText(item) == a + " " + b + c + d
  {
    var br, op, cl := BR_TAG, GRADIENT_SPAN_OPEN, SPAN_CLOSE;
    assert IsTag(br) && IsTag(op) && IsTag(cl) by {
      assert br[1..] == "br>" && op[1..][0] == 's' && cl[1..] == "/span>";
      assert forall k :: 0 <= k < |op[1..]| ==> op[1..][k] != '<';
    }
    assert br[1] != op[1] && br[1] != cl[1] && op[1] != cl[1];
    TagPasses(a, b, c, d, br, op, cl);
  }

  /** Helper: the three replace steps on `a br b op c cl d`, for any three distinct tags. */
  lemma TagPasses(a: string, b: string, c: string, d: string, br: string, op: string, cl: string)
    requires '<' !in a && '<' !in b && '<' !in c && '<' !in d
    requires IsTag(br) && IsTag(op) && IsTag(cl)
    requires br[1] != op[1] && br[1] != cl[1] && op[1] != cl[1]
    ensures var s1 := ReplaceAll(a + br + b + op + c + cl + d, br, " ");
      var s2 := ReplaceAll(s1, op, "");
      ReplaceAll(s2, cl, "") == a + " " + b + c + d
  {
    var ab := a + " " + b;
    BreakPass(a, b, c, d, br, op, cl);
    OpenPass(ab, c, d, op, cl);
    TagAt(ab + c, cl, d, "");
    PlainText(d, cl, "");
    assert ab + c + "" == ab + c;
  }

  /** Helper: the first step turns the break into a space and keeps the span tags. */
  lemma BreakPass(a: string, b: string, c: string, d: string, br: string, op: string, cl: string)
    requires '<' !in a && '<' !in b && '<' !in c && '<' !in d
    requires IsTag(br) && IsTag(op) && IsTag(cl) && br[1] != op[1] && br[1] != cl[1]
    ensures ReplaceAll(a + br + b + op + c + cl + d, br, " ") == a + " " + b + op + c + cl + d
  {
    var t := c + cl + d;
    TailPass(c, d, cl, br, " ");
    SkipTag(b, op, t, br, " ");
    TagAt(a, br, b + op + t, " ");
    Regroup(a, br, b, op, c, cl, d);
    Regroup(a, " ", b, op, c, cl, d);
  }

  /** Helper: the second step removes the opening span tag. */
  lemma OpenPass(ab: string, c: string, d: string, op: string, cl: string)
    requires '<' !in ab && '<' !in c && '<' !in d
    requires IsTag(op) && IsTag(cl) && op[1] != cl[1]
    ensures ReplaceAll(ab + op + c + cl + d, op, "") == ab + c + cl + d
  {
    TailPass(c, d, cl, op, "");
    TagAt(ab, op, c + cl + d, "");
    Regroup3(ab, op, c, cl, d);
    Regroup3(ab, "", c, cl, d);
    assert ab + "" == ab;
  }

  /** Helper: text, a different tag and text pass through the replace of a tag unchanged. */
  lemma TailPass(c: string, d: string, cl: string, pat: string, rep: string)
    requires '<' !in c && '<' !in d && IsTag(pat) && IsTag(cl) && cl[1] != pat[1]
    ensures ReplaceAll(c + cl + d, pat, rep) == c + cl + d
  {
    PlainText(d, pat, rep);
    SkipTag(c, cl, d, pat, rep);
  }

  /** Helper: regrouping a concatenation of seven parts. */
  lemma Regroup(a: string, x: string, b: string, y: string, c: string, z: string, d: string)
    ensures a + x + b + y + c + z + d == a + x + (b + y + (c + z + d))
  {
  }

  /** Helper: regrouping a concatenation of five parts. */
  lemma Regroup3(a: string, x: string, c: string, z: string, d: string)
    ensures a + x + c + z + d == a + x + (c + z + d)
  {
  }

  /** Helper: text without `<` passes through the replace of a tag unchanged. */
  lemma PlainText(z: string, pat: string, rep: string)
    requires '<' !in z && IsTag(pat)
    ensures ReplaceAll(z, pat, rep) == z
  {
    ReplaceFreePrefix(z, [], pat, rep);
    assert z + [] == z;
  }

  /** Helper: text without `<` and a different tag pass through the replace unchanged. */
  lemma SkipTag(y: string, t: string, z: string, pat: string, rep: string)
    requires IsTag(pat) && IsTag(t) && t[1] != pat[1] && '<' !in y
    ensures ReplaceAll(y + t + z, pat, rep) == y + t + ReplaceAll(z, pat, rep)
  {
    ReplaceMismatch(t, z, pat, rep, 1);
    ReplaceFreePrefix(y, t + z, pat, rep);
    assert y + t + z == y + (t + z);
  }

  /** Helper: the tag itself, after text without `<`, is replaced. */
  lemma TagAt(x: string, pat: string, z: string, rep: string)
    requires IsTag(pat) && '<' !in x
    ensures ReplaceAll(x + pat + z, pat, rep) == x + rep + ReplaceAll(z, pat, rep)
  {
    ReplaceAtFront(pat, z, rep);
    ReplaceFreePrefix(x, pat + z, pat, rep);
    assert x + pat + z == x + (pat + z);
  }

  // ---------------------------------------------------------------- SiteConfiguration.save

  /** The primary key `SiteConfiguration.save` forces on every row it writes. */
  const SITE_CONFIGURATION_PK: nat := 1

  /**
   * `SiteConfiguration.save` on the table of rows by primary key: whatever the
   * instance's own key was, the row is written (inserted or overwritten) under
   * key 1; every other row stays as it was.
   */
  function SaveSiteConfiguration(table: map<nat, SiteConfiguration>, config: SiteConfiguration)
    : (r: map<nat, SiteConfiguration>)
    ensures r.Keys == table.Keys + {SITE_CONFIGURATION_PK}
    ensures r[SITE_CONFIGURATION_PK] == config
    ensures forall pk :: pk in table && pk != SITE_CONFIGURATION_PK ==> r[pk] == table[pk]
  {
    table[SITE_CONFIGURATION_PK := config]
  }

  /** The table never holds more than the one row under key 1. */
  predicate IsSingleton(table: map<nat, SiteConfiguration>) {
    table.Keys <= {SITE_CONFIGURATION_PK}
  }

  /** Saving into a table that is a singleton leaves exactly one row. */
  lemma SaveKeepsSingleton(table: map<nat, SiteConfiguration>, config: SiteConfiguration)
    requires IsSingleton(table)
    ensures IsSingleton(SaveSiteConfiguration(table, config))
    ensures |SaveSiteConfiguration(table, config)| == 1
  {
    assert SaveSiteConfiguration(table, config).Keys == {SITE_CONFIGURATION_PK};
  }

  /** A second save replaces the first one's fields and adds no row. */
  lemma SecondSaveReplaces(table: map<nat, SiteConfiguration>, first: SiteConfiguration, second: SiteConfiguration)
    ensures SaveSiteConfiguration(SaveSiteConfiguration(table, first), second) == SaveSiteConfiguration(table, second)
  {
  }

  // ---------------------------------------------------------------- default orderings

  /** `TeamMember.Meta.ordering = ['order']`. */
  function TeamMemberOrder(rows: seq<TeamMember>): (r: seq<TeamMember>)
    ensures forall i, j :: 0 <= i < j < |r| ==> r[i].order <= r[j].order
    ensures multiset(r) == multiset(rows)
  {
    var key := (m: TeamMember) => m.order;
    var r := Ordering.SortByKey(rows, key);
    assert forall i, j :: 0 <= i < j < |r| ==> key(r[i]) <= key(r[j]);
    r
  }

  /** `SocialNetwork.Meta.ordering = ['order']`. */
  function SocialNetworkOrder(rows: seq<SocialNetwork>): (r: seq<SocialNetwork>)
    ensures forall i, j :: 0 <= i < j < |r| ==> r[i].order <= r[j].order
    ensures multiset(r) == multiset(rows)
  {
    var key := (s: SocialNetwork) => s.order;
    var r := Ordering.SortByKey(rows, key);
    assert forall i, j :: 0 <= i < j < |r| ==> key(r[i]) <= key(r[j]);
    r
  }

  /** `Stat.Meta.ordering = ['order']`. */
  function StatOrder(rows: seq<Stat>): (r: seq<Stat>)
    ensures forall i, j :: 0 <= i < j < |r| ==> r[i].order <= r[j].order
    ensures multiset(r) == multiset(rows)
  {
    var key := (s: Stat) => s.order;
    var r := Ordering.SortByKey(rows, key);
    assert forall i, j :: 0 <= i < j < |r| ==> key(r[i]) <= key(r[j]);
    r
  }

  /** `HeroCarouselItem.Meta.ordering = ['order']`. */
  function HeroCarouselItemOrder(rows: seq<HeroCarouselItem>): (r: seq<HeroCarouselItem>)
    ensures forall i, j :: 0 <= i < j < |r| ==> r[i].order <= r[j].order
    ensures multiset(r) == multiset(rows)
  {
    var key := (h: HeroCarouselItem) => h.order;
    var r := Ordering.SortByKey(rows, key);
    assert forall i, j :: 0 <= i < j < |r| ==> key(r[i]) <= key(r[j]);
    r
  }

  /** Number of microseconds in a day. */
  const DAY_MICROS := 86_400_000_000

  function DateKey(d: Date): int {
    d.year * 10000 + d.month * 100 + d.day
  }

  function TimeKey(t: Time): int {
    ((t.hour * 60 + t.minute) * 60 + t.second) * 1000000 + t.microsecond
  }

  /** `a` is an earlier calendar date than `b`. */
  predicate DateBefore(a: Date, b: Date) {
    || a.year < b.year
    || (a.year == b.year && (a.month < b.month || (a.month == b.month && a.day < b.day)))
  }

  /** `a` is not a later time of day than `b`. */
  predicate TimeAtMost(a: Time, b: Time) {
    || a.hour < b.hour
    || (a.hour == b.hour && (a.minute < b.minute
        || (a.minute == b.minute && (a.second < b.second
            || (a.second == b.second && a.microsecond <= b.microsecond)))))
  }

  /** `a`'s (date, time) is not later than `b`'s: date first, then time. */
  predicate NotLaterThan(a: Appointment, b: Appointment) {
    DateBefore(a.date, b.date) || (a.date == b.date && TimeAtMost(a.time, b.time))
  }

  lemma DateKeyOrders(a: Date, b: Date)
    ensures DateKey(a) < DateKey(b) <==> DateBefore(a, b)
    ensures DateKey(a) == DateKey(b) <==> a == b
  {
  }

  lemma TimeKeyOrders(a: Time, b: Time)
    ensures 0 <= TimeKey(a) < DAY_MICROS
    ensures TimeKey(a) <= TimeKey(b) <==> TimeAtMost(a, b)
  {
  }

  /** One integer for `-date, -time`: smaller means later. */
  function AppointmentKey(a: Appointment): int {
    -(DateKey(a.date) * DAY_MICROS + TimeKey(a.time))
  }

  /** The key orders appointments exactly as `-date, -time` does. */
  lemma AppointmentKeyOrders(a: Appointment, b: Appointment)
    ensures AppointmentKey(a) <= AppointmentKey(b) <==> NotLaterThan(b, a)
  {
    DateKeyOrders(a.date, b.date);
    DateKeyOrders(b.date, a.date);
    TimeKeyOrders(a.time, b.time);
    TimeKeyOrders(b.time, a.time);
  }

  /**
   * `Appointment.Meta.ordering = ['-date', '-time']`: latest date first and,
   * on the same date, latest time first.
   */
  function AppointmentOrder(rows: seq<Appointment>): (r: seq<Appointment>)
    ensures forall i, j :: 0 <= i < j < |r| ==> NotLaterThan(r[j], r[i])
    ensures multiset(r) == multiset(rows)
  {
    var r := Ordering.SortByKey(rows, AppointmentKey);
    forall i, j | 0 <= i < j < |r| ensures NotLaterThan(r[j], r[i]) {
      AppointmentKeyOrders(r[i], r[j]);
    }
    r
  }
}
