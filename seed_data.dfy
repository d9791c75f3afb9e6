/**
 * The `seed_data` management command
 * (main/management/commands/seed_data.py): three companies and three
 * testimonials, each inserted only when no row with the same name exists.
 */
module SeedData {
  import opened Strings
  import opened Models
  import opened Store

  // ---------------------------------------------------------------- guarded inserts

  /** `objects.filter(<field>=k).exists()`. */
  predicate HasKey<T, K(==)>(rows: seq<T>, key: T -> K, k: K) {
    exists i :: 0 <= i < |rows| && key(rows[i]) == k
  }

  /** `if not ...exists(): create(row)`: the row is appended exactly when its key is absent. */
  function InsertIfAbsent<T, K(==)>(rows: seq<T>, key: T -> K, row: T): (r: seq<T>)
    ensures HasKey(r, key, key(row))
    ensures HasKey(rows, key, key(row)) ==> r == rows
    ensures !HasKey(rows, key, key(row)) ==> r == rows + [row]
  {
    if HasKey(rows, key, key(row)) then rows
    else
      assert (rows + [row])[|rows|] == row;
      rows + [row]
  }

  /** The loop `for item in items: <guarded insert>`. */
  function InsertAllAbsent<T, K(==)>(rows: seq<T>, items: seq<T>, key: T -> K): (r: seq<T>)
    ensures |rows| <= |r| && r[..|rows|] == rows
    decreases |items|
  {
    if items == [] then rows
    else
      var next := InsertIfAbsent(rows, key, items[0]);
      var r := InsertAllAbsent(next, items[1..], key);
      assert r[..|rows|] == r[..|next|][..|rows|];
      r
  }

  /** A key present before stays present: rows are only ever appended. */
  lemma KeyStays<T, K>(rows: seq<T>, r: seq<T>, key: T -> K, k: K)
    requires HasKey(rows, key, k)
    requires |rows| <= |r| && r[..|rows|] == rows
    ensures HasKey(r, key, k)
  {
    var i :| 0 <= i < |rows| && key(rows[i]) == k;
    assert r[i] == rows[i];
  }

  /** After the loop every item's key is present. */
  lemma {:induction false} InsertAllHasAll<T, K>(rows: seq<T>, items: seq<T>, key: T -> K)
    ensures forall i :: 0 <= i < |items| ==> HasKey(InsertAllAbsent(rows, items, key), key, key(items[i]))
    decreases |items|
  {
    if items != [] {
      var next := InsertIfAbsent(rows, key, items[0]);
      var r := InsertAllAbsent(rows, items, key);
      InsertAllHasAll(next, items[1..], key);
      KeyStays(next, r, key, key(items[0]));
      forall i | 0 <= i < |items| ensures HasKey(r, key, key(items[i])) {
        if i > 0 {
          assert items[i] == items[1..][i - 1];
        }
      }
    }
  }

  /** When every item's key is present already, the loop inserts nothing. */
  lemma {:induction false} InsertAllNoop<T, K>(rows: seq<T>, items: seq<T>, key: T -> K)
    requires forall i :: 0 <= i < |items| ==> HasKey(rows, key, key(items[i]))
    ensures InsertAllAbsent(rows, items, key) == rows
    decreases |items|
  {
    if items != [] {
      assert HasKey(rows, key, key(items[0]));
      forall i | 0 <= i < |items[1..]| ensures HasKey(rows, key, key(items[1..][i])) {
        assert items[1..][i] == items[i + 1];
      }
      InsertAllNoop(rows, items[1..], key);
    }
  }

  /** Over three items the loop is three guarded inserts in a row. */
  lemma InsertAllThree<T, K>(rows: seq<T>, items: seq<T>, key: T -> K)
    requires |items| == 3
    ensures InsertAllAbsent(rows, items, key)
         == InsertIfAbsent(InsertIfAbsent(InsertIfAbsent(rows, key, items[0]), key, items[1]), key, items[2])
  {
    var r1 := InsertIfAbsent(rows, key, items[0]);
    var r2 := InsertIfAbsent(r1, key, items[1]);
    var r3 := InsertIfAbsent(r2, key, items[2]);
    var tail1, tail2 := items[1..], items[1..][1..];
    assert tail1[0] == items[1] && tail2[0] == items[2] && tail2[1..] == [];
    assert InsertAllAbsent(r3, tail2[1..], key) == r3;
    assert InsertAllAbsent(r2, tail2, key) == r3;
    assert InsertAllAbsent(r1, tail1, key) == r3;
  }

  /** A second run of the loop inserts nothing. */
  lemma InsertAllTwice<T, K>(rows: seq<T>, items: seq<T>, key: T -> K)
    ensures InsertAllAbsent(InsertAllAbsent(rows, items, key), items, key) == InsertAllAbsent(rows, items, key)
  {
    InsertAllHasAll(rows, items, key);
    InsertAllNoop(InsertAllAbsent(rows, items, key), items, key);
  }

  // ---------------------------------------------------------------- the seeded rows

  function CompanyName(c: Company): string { c.name }
  function ClientName(t: Testimonial): string { t.clientName }

  /**
   * The stored image name: `companies/<file>` when the picture exists among
   * the static images (`upload_to='companies/'`), otherwise no image.
   */
  function ImageFor(file: string, staticImages: set<string>): (r: string)
    ensures file in staticImages <==> r != []
  {
    if file in staticImages then "companies/" + file else ""
  }

  const SOFTIVITE_DESCRIPTION := "Softivite Inc. specializes in building high-performance, scalable web and mobile applications. We leverage cutting-edge technologies to solve complex business problems and deliver seamless user experiences."
  const FSQUAREMEDIA_DESCRIPTION := "From digital content creation to full-scale production, Fsquaremedia crafts compelling narratives. We help brands find their voice and connect with audiences through visual storytelling and innovative media strategies."
  const EDUSCOPE_DESCRIPTION := "Eduscope is revolutionizing learning through accessible, tech-driven platforms. We provide courses, certifications, and resources designed to bridge the gap between traditional education and industry needs."
  // The features texts, written as the three features with `", "` between them.
  const SOFTIVITE_FEATURES := "Enterprise Solutions" + ", " + "SaaS Development" + ", " + "Cloud Architecture"
  const FSQUAREMEDIA_FEATURES := "Video Production" + ", " + "Digital Marketing" + ", " + "Brand Strategy"
  const EDUSCOPE_FEATURES := "eLearning Platforms" + ", " + "Professional Certification" + ", " + "Corporate Training"

  function Softivite(image: string): Company {
    Company(
      "Softivite Inc.",
      "Engineering Digital Excellence",
      SOFTIVITE_DESCRIPTION,
      image,
      "#",
      SOFTIVITE_FEATURES)
  }

  function Fsquaremedia(image: string): Company {
    Company(
      "Fsquaremedia",
      "Stories That Resonate",
      FSQUAREMEDIA_DESCRIPTION,
      image,
      "#",
      FSQUAREMEDIA_FEATURES)
  }

  function Eduscope(image: string): Company {
    Company(
      "Eduscope",
      "Empowering the Future",
      EDUSCOPE_DESCRIPTION,
      image,
      "#",
      EDUSCOPE_FEATURES)
  }

  const DAVIES_QUOTE := "ThinkCE's integrated approach transformed our digital presence. Softivite built our platform while Fsquaremedia told our story perfectly."
  const LEE_QUOTE := "Eduscope's training modules helped us upskill 500+ employees in record time. The platform is intuitive and robust."
  const KING_QUOTE := "A partner that truly understands the big picture. ThinkCE brings a level of strategic insight we haven't found elsewhere."

  const TESTIMONIALS: seq<Testimonial> := [
    Testimonial(
      "James Davies", "CTO", "FinTech Global",
      DAVIES_QUOTE,
      "JD", "#e0f2f1"),
    Testimonial(
      "Sarah Lee", "HR Director", "CorpOne",
      LEE_QUOTE,
      "AL", "#e3f2fd"),
    Testimonial(
      "Michael King", "CEO", "OmniGroup",
      KING_QUOTE,
      "MK", "#f3e5f5")
  ]

  // ---------------------------------------------------------------- handle()

  /** The three companies, in source order, with the images found among the static files. */
  function SeededCompanies(staticImages: set<string>): (r: seq<Company>)
    ensures |r| == 3
  {
    [Softivite(ImageFor("tech_image.png", staticImages)),
     Fsquaremedia(ImageFor("media_image.png", staticImages)),
     Eduscope(ImageFor("edu_image.png", staticImages))]
  }

  /** The companies are looked up by the same names whatever images there are. */
  lemma SeededNamesFixed(a: set<string>, b: set<string>)
    ensures forall i :: 0 <= i < 3 ==> CompanyName(SeededCompanies(a)[i]) == CompanyName(SeededCompanies(b)[i])
  {
    var ca := SeededCompanies(a);
    var cb := SeededCompanies(b);
    assert ca[0].name == cb[0].name && ca[1].name == cb[1].name && ca[2].name == cb[2].name;
  }

  /** The three company inserts, each guarded by its name, in source order. */
  function SeedCompanies(rows: seq<Company>, staticImages: set<string>): (r: seq<Company>)
    ensures |rows| <= |r| && r[..|rows|] == rows
    ensures forall i :: 0 <= i < 3 ==> HasKey(r, CompanyName, CompanyName(SeededCompanies(staticImages)[i]))
  {
    InsertAllHasAll(rows, SeededCompanies(staticImages), CompanyName);
    InsertAllAbsent(rows, SeededCompanies(staticImages), CompanyName)
  }

  /**
   * `Command.handle`: the companies, then the testimonials; every row that was
   * there before is kept as it was, and no other table changes.
   */
  function SeedDataSpec(t: Tables, staticImages: set<string>): (r: Tables)
    ensures |t.companies| <= |r.companies| && r.companies[..|t.companies|] == t.companies
    ensures |t.testimonials| <= |r.testimonials| && r.testimonials[..|t.testimonials|] == t.testimonials
    ensures r.(companies := t.companies, testimonials := t.testimonials) == t
  {
    var companies := SeedCompanies(t.companies, staticImages);
    var testimonials := InsertAllAbsent(t.testimonials, TESTIMONIALS, ClientName);
    t.(companies := companies, testimonials := testimonials)
  }

  /**
   * A second run inserts nothing, whatever images are on disk by then: every
   * name it looks for is already there.
   */
  lemma SeedDataTwice(t: Tables, firstImages: set<string>, laterImages: set<string>)
    ensures SeedDataSpec(SeedDataSpec(t, firstImages), laterImages) == SeedDataSpec(t, firstImages)
  {
    InsertAllTwice(t.testimonials, TESTIMONIALS, ClientName);
    CompaniesTwice(t.companies, firstImages, laterImages);
  }

  /** Helper: the company inserts of a second run find every name and add nothing. */
  lemma CompaniesTwice(rows: seq<Company>, firstImages: set<string>, laterImages: set<string>)
    ensures SeedCompanies(SeedCompanies(rows, firstImages), laterImages) == SeedCompanies(rows, firstImages)
  {
    var once := SeedCompanies(rows, firstImages);
    SeededNamesFixed(firstImages, laterImages);
    var later := SeededCompanies(laterImages);
    forall i | 0 <= i < |later| ensures HasKey(once, CompanyName, CompanyName(later[i])) {
    }
    InsertAllNoop(once, later, CompanyName);
  }

  /** Softivite's features text parses to exactly three features. */
  lemma SoftiviteFeatures(image: string)
    ensures FeaturesList(Softivite(image).features) == ["Enterprise Solutions", "SaaS Development", "Cloud Architecture"]
  {
    var a, b, c := "Enterprise Solutions", "SaaS Development", "Cloud Architecture";
    assert IsFeature(a) && IsFeature(b) && IsFeature(c);
    ThreeFeatures(a, b, c);
  }

  /** So does Fsquaremedia's. */
  lemma FsquaremediaFeatures(image: string)
    ensures FeaturesList(Fsquaremedia(image).features) == ["Video Production", "Digital Marketing", "Brand Strategy"]
  {
    var a, b, c := "Video Production", "Digital Marketing", "Brand Strategy";
    assert IsFeature(a) && IsFeature(b) && IsFeature(c);
    ThreeFeatures(a, b, c);
  }

  /** And Eduscope's. */
  lemma EduscopeFeatures(image: string)
    ensures FeaturesList(Eduscope(image).features) == ["eLearning Platforms", "Professional Certification", "Corporate Training"]
  {
    var a, b, c := "eLearning Platforms", "Professional Certification", "Corporate Training";
    assert IsFeature(a) && IsFeature(b) && IsFeature(c);
    ThreeFeatures(a, b, c);
  }

  /**
   * The command step by step against the live database: the three guarded
   * company inserts, then the loop over the testimonials.
   */
  method Handle(db: Database, staticImages: set<string>)
    modifies db
    ensures db.tables == SeedDataSpec(old(db.tables), staticImages)
  {
    AddCompanies(db, staticImages);
    AddTestimonials(db);
  }

  /** The three `if not Company.objects.filter(name=...).exists()` blocks. */
  method AddCompanies(db: Database, staticImages: set<string>)
    modifies db
    ensures db.tables == old(db.tables).(companies := SeedCompanies(old(db.tables.companies), staticImages))
  {
    var companies := SeededCompanies(staticImages);
    InsertAllThree(db.tables.companies, companies, CompanyName);
    // 1. Softivite Inc.
    if !HasKey(db.tables.companies, CompanyName, companies[0].name) {
      db.AddCompany(companies[0]);
    }
    // 2. Fsquaremedia
    if !HasKey(db.tables.companies, CompanyName, companies[1].name) {
      db.AddCompany(companies[1]);
    }
    // 3. Eduscope
    if !HasKey(db.tables.companies, CompanyName, companies[2].name) {
      db.AddCompany(companies[2]);
    }
  }

  /** The loop over the testimonials, each created unless its client name is taken. */
  method AddTestimonials(db: Database)
    modifies db
    ensures db.tables == old(db.tables).(testimonials := InsertAllAbsent(old(db.tables.testimonials), TESTIMONIALS, ClientName))
  {
    var i := 0;
    while i < |TESTIMONIALS|
      invariant 0 <= i <= |TESTIMONIALS|
      invariant db.tables == old(db.tables).(testimonials := db.tables.testimonials)
      invariant InsertAllAbsent(db.tables.testimonials, TESTIMONIALS[i..], ClientName)
             == InsertAllAbsent(old(db.tables.testimonials), TESTIMONIALS, ClientName)
    {
      var item := TESTIMONIALS[i];
      assert TESTIMONIALS[i..][0] == item && TESTIMONIALS[i..][1..] == TESTIMONIALS[i + 1..];
      if !HasKey(db.tables.testimonials, ClientName, item.clientName) {
        db.AddTestimonial(item);
      }
      i := i + 1;
    }
  }
}
