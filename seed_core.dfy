/**
 * The core seeding script (seed_core.py): `get_or_create` of the site
 * configuration, four social networks, three stats and the home page's SEO
 * row. A lookup that matches more than one row raises
 * `MultipleObjectsReturned`, which ends the script with the rows created so
 * far kept.
 */
module SeedCore {
  import opened Wrappers
  import opened Models
  import opened Store

  // ---------------------------------------------------------------- get_or_create

  /** The number of rows whose lookup key is `k`. */
  function CountKey<T, K(==)>(rows: seq<T>, key: T -> K, k: K): (n: nat)
    ensures n <= |rows|
    ensures n == 0 <==> forall i :: 0 <= i < |rows| ==> key(rows[i]) != k
  {
    if rows == [] then 0
    else
      var init := rows[..|rows| - 1];
      assert forall i :: 0 <= i < |init| ==> init[i] == rows[i];
      CountKey(init, key, k) + (if key(rows[|rows| - 1]) == k then 1 else 0)
  }

  lemma CountAppend<T, K>(rows: seq<T>, x: T, key: T -> K, k: K)
    ensures CountKey(rows + [x], key, k) == CountKey(rows, key, k) + (if key(x) == k then 1 else 0)
  {
    assert (rows + [x])[..|rows|] == rows;
  }

  /**
   * `objects.get_or_create(lookup, defaults=...)` for the row `row` (lookup
   * fields and defaults together): no match creates `row`, one match is
   * returned as it is, several raise (`false`) and change nothing.
   */
  function GetOrCreate<T, K(==)>(rows: seq<T>, key: T -> K, row: T): (r: (seq<T>, bool))
    ensures r.1 <==> CountKey(rows, key, key(row)) <= 1
    ensures r.1 ==> CountKey(r.0, key, key(row)) == 1
    ensures |rows| <= |r.0| <= |rows| + 1 && r.0[..|rows|] == rows
    ensures |r.0| == |rows| + 1 ==> r.0[|rows|] == row && CountKey(rows, key, key(row)) == 0
  {
    var n := CountKey(rows, key, key(row));
    if n == 0 then
      CountAppend(rows, row, key, key(row));
      (rows + [row], true)
    else (rows, n == 1)
  }

  /** The loop `for item in items: get_or_create(...)`, stopping at the first raise. */
  function SeedRows<T, K(==)>(rows: seq<T>, items: seq<T>, key: T -> K): (r: (seq<T>, bool))
    ensures |rows| <= |r.0| && r.0[..|rows|] == rows
    decreases |items|
  {
    if items == [] then (rows, true)
    else
      var step := GetOrCreate(rows, key, items[0]);
      if !step.1 then step
      else
        var r := SeedRows(step.0, items[1..], key);
        assert r.0[..|rows|] == r.0[..|step.0|][..|rows|];
        r
  }

  /** One turn of the loop: the first item's `get_or_create`, then the rest unless it raised. */
  lemma SeedRowsStep<T, K>(rows: seq<T>, items: seq<T>, key: T -> K)
    requires items != []
    ensures var step := GetOrCreate(rows, key, items[0]);
      SeedRows(rows, items, key) == if step.1 then SeedRows(step.0, items[1..], key) else step
  {
  }

  /** A key that is already present keeps its count through the rest of the loop. */
  lemma {:induction false} SeedRowsKeepsFound<T, K>(rows: seq<T>, items: seq<T>, key: T -> K, k: K)
    requires CountKey(rows, key, k) >= 1
    ensures CountKey(SeedRows(rows, items, key).0, key, k) == CountKey(rows, key, k)
    decreases |items|
  {
    if items != [] {
      var step := GetOrCreate(rows, key, items[0]);
      if CountKey(rows, key, key(items[0])) == 0 {
        assert key(items[0]) != k;
        CountAppend(rows, items[0], key, k);
      }
      if step.1 {
        SeedRowsKeepsFound(step.0, items[1..], key, k);
      }
    }
  }

  /** A loop that ends without a raise leaves exactly one row for every item's key. */
  lemma {:induction false} SeedRowsHasAll<T, K>(rows: seq<T>, items: seq<T>, key: T -> K)
    requires SeedRows(rows, items, key).1
    ensures forall i :: 0 <= i < |items| ==> CountKey(SeedRows(rows, items, key).0, key, key(items[i])) == 1
    decreases |items|
  {
    if items != [] {
      var step := GetOrCreate(rows, key, items[0]);
      var r := SeedRows(rows, items, key);
      assert step.1 && r == SeedRows(step.0, items[1..], key);
      SeedRowsKeepsFound(step.0, items[1..], key, key(items[0]));
      SeedRowsHasAll(step.0, items[1..], key);
      forall i | 0 <= i < |items| ensures CountKey(r.0, key, key(items[i])) == 1 {
        if i > 0 {
          assert items[i] == items[1..][i - 1];
        }
      }
    }
  }

  /** Running the loop again over its own result changes nothing and ends the same way. */
  lemma {:induction false} SeedRowsTwice<T, K>(rows: seq<T>, items: seq<T>, key: T -> K)
    ensures SeedRows(SeedRows(rows, items, key).0, items, key) == SeedRows(rows, items, key)
    decreases |items|
  {
    if items != [] {
      var step := GetOrCreate(rows, key, items[0]);
      if step.1 {
        var r := SeedRows(step.0, items[1..], key);
        SeedRowsKeepsFound(step.0, items[1..], key, key(items[0]));
        assert GetOrCreate(r.0, key, items[0]) == (r.0, true);
        SeedRowsTwice(step.0, items[1..], key);
      }
    }
  }

  /** Into rows with none of the items' keys, items with distinct keys are all created, in order. */
  lemma {:induction false} SeedRowsCreatesAll<T, K>(rows: seq<T>, items: seq<T>, key: T -> K)
    requires forall i, j :: 0 <= i < j < |items| ==> key(items[i]) != key(items[j])
    requires forall i :: 0 <= i < |items| ==> CountKey(rows, key, key(items[i])) == 0
    ensures SeedRows(rows, items, key) == (rows + items, true)
    decreases |items|
  {
    if items != [] {
      var x := items[0];
      assert CountKey(rows, key, key(items[0])) == 0;
      assert GetOrCreate(rows, key, x) == (rows + [x], true);
      forall i, j | 0 <= i < j < |items[1..]| ensures key(items[1..][i]) != key(items[1..][j]) {
        assert items[1..][i] == items[i + 1] && items[1..][j] == items[j + 1];
      }
      forall i | 0 <= i < |items[1..]| ensures CountKey(rows + [x], key, key(items[1..][i])) == 0 {
        assert items[1..][i] == items[i + 1];
        CountAppend(rows, x, key, key(items[i + 1]));
      }
      SeedRowsCreatesAll(rows + [x], items[1..], key);
      assert rows + [x] + items[1..] == rows + items;
      assert SeedRows(rows, items, key) == SeedRows(rows + [x], items[1..], key);
    } else {
      assert rows + items == rows;
    }
  }

  // ---------------------------------------------------------------- the seeded rows

  /** The defaults of the site configuration created under id 1. */
  const DEFAULT_SITE_CONFIGURATION := SiteConfiguration(
    "ThinkCE LLC",
    "info@thinkce.org",
    "+1 (555) 123-4567",
    "123 Innovation Drive,\nTech City, TC 90210",
    "Building ecosystems for sustainable growth in technology, media, and education.")

  /** The social networks: platform (the lookup), url and order (the defaults). */
  const SOCIALS: seq<SocialNetwork> := [
    SocialNetwork("linkedin", "https://linkedin.com/company/thinkce", 1),
    SocialNetwork("twitter", "https://twitter.com/thinkce", 2),
    SocialNetwork("facebook", "https://facebook.com/thinkce", 3),
    SocialNetwork("instagram", "https://instagram.com/thinkce", 4)
  ]

  /** The stats: number and label (the lookup), and order (the default). */
  const STATS: seq<Stat> := [
    Stat("3", "Industry Pillars", 1),
    Stat("15+", "Years of Innovation", 2),
    Stat("Global", "Strategic Reach", 3)
  ]

  /** The home page's SEO row: page `home` (the lookup) and the defaults; no Open Graph image. */
  const HOME_SEO := SEOPageSettings(
    "home",
    "ThinkCE LLC - Building the Future Together",
    "ThinkCE LLC is a holding company driving innovation across technology, media, and education.",
    "innovation, tech, media, education",
    "ThinkCE LLC - Building the Future",
    "ThinkCE LLC builds ecosystems that drive sustainable growth.",
    None)

  function SocialKey(s: SocialNetwork): string { s.platform }
  function StatKey(s: Stat): (string, string) { (s.number, s.labelText) }
  function SeoKey(s: SEOPageSettings): string { s.page }

  // ---------------------------------------------------------------- seed()

  /** `get_or_create(id=1, defaults=...)` on the site configuration: created (through the singleton save) only if absent. */
  function SeedSiteConfiguration(table: map<nat, SiteConfiguration>): (r: map<nat, SiteConfiguration>)
    ensures SITE_CONFIGURATION_PK in r
    ensures SITE_CONFIGURATION_PK in table ==> r == table
    ensures SITE_CONFIGURATION_PK !in table ==> r[SITE_CONFIGURATION_PK] == DEFAULT_SITE_CONFIGURATION
    ensures forall pk :: pk in table ==> pk in r && r[pk] == table[pk]
  {
    if SITE_CONFIGURATION_PK in table then table
    else SaveSiteConfiguration(table, DEFAULT_SITE_CONFIGURATION)
  }

  /**
   * `seed()`: the new tables and whether it ran to the end (`false` when a
   * lookup raised `MultipleObjectsReturned`). The site configuration is
   * created only if absent; the other three steps only ever append rows, so
   * every row that was there before is kept as it was; nothing else changes.
   */
  function SeedSpec(t: Tables): (r: (Tables, bool))
    ensures r.0.siteConfigs == SeedSiteConfiguration(t.siteConfigs)
    ensures |t.socialNetworks| <= |r.0.socialNetworks| && r.0.socialNetworks[..|t.socialNetworks|] == t.socialNetworks
    ensures |t.stats| <= |r.0.stats| && r.0.stats[..|t.stats|] == t.stats
    ensures |t.seoPages| <= |r.0.seoPages| && r.0.seoPages[..|t.seoPages|] == t.seoPages
    ensures r.0.(siteConfigs := t.siteConfigs, socialNetworks := t.socialNetworks,
                 stats := t.stats, seoPages := t.seoPages) == t
  {
    SeedSocialsOnward(t.(siteConfigs := SeedSiteConfiguration(t.siteConfigs)))
  }

  /** Steps 2 to 4 of `seed()`: the social networks, then (if no raise) the rest. */
  function SeedSocialsOnward(t: Tables): (r: (Tables, bool))
    ensures |t.socialNetworks| <= |r.0.socialNetworks| && r.0.socialNetworks[..|t.socialNetworks|] == t.socialNetworks
    ensures |t.stats| <= |r.0.stats| && r.0.stats[..|t.stats|] == t.stats
    ensures |t.seoPages| <= |r.0.seoPages| && r.0.seoPages[..|t.seoPages|] == t.seoPages
    ensures r.0.(socialNetworks := t.socialNetworks, stats := t.stats, seoPages := t.seoPages) == t
  {
    var socials := SeedRows(t.socialNetworks, SOCIALS, SocialKey);
    var t2 := t.(socialNetworks := socials.0);
    if !socials.1 then (t2, false) else SeedStatsOnward(t2)
  }

  /** Steps 3 and 4 of `seed()`: the stats, then (if no raise) the home page's SEO row. */
  function SeedStatsOnward(t: Tables): (r: (Tables, bool))
    ensures |t.stats| <= |r.0.stats| && r.0.stats[..|t.stats|] == t.stats
    ensures |t.seoPages| <= |r.0.seoPages| && r.0.seoPages[..|t.seoPages|] == t.seoPages
    ensures r.0.(stats := t.stats, seoPages := t.seoPages) == t
  {
    var stats := SeedRows(t.stats, STATS, StatKey);
    var t3 := t.(stats := stats.0);
    if !stats.1 then (t3, false) else SeedSeo(t3)
  }

  /** Step 4 of `seed()`: `get_or_create` of the home page's SEO row. */
  function SeedSeo(t: Tables): (r: (Tables, bool))
    ensures |t.seoPages| <= |r.0.seoPages| && r.0.seoPages[..|t.seoPages|] == t.seoPages
    ensures r.0.(seoPages := t.seoPages) == t
  {
    var seo := GetOrCreate(t.seoPages, SeoKey, HOME_SEO);
    (t.(seoPages := seo.0), seo.1)
  }

  /** Running `seed()` twice leaves the store as running it once, and ends the same way. */
  lemma SeedIdempotent(t: Tables)
    ensures SeedSpec(SeedSpec(t).0) == SeedSpec(t)
  {
    var t1 := t.(siteConfigs := SeedSiteConfiguration(t.siteConfigs));
    SeedRowsTwice(t1.socialNetworks, SOCIALS, SocialKey);
    var socials := SeedRows(t1.socialNetworks, SOCIALS, SocialKey);
    if socials.1 {
      var t2 := t1.(socialNetworks := socials.0);
      SeedRowsTwice(t2.stats, STATS, StatKey);
      var stats := SeedRows(t2.stats, STATS, StatKey);
      if stats.1 {
        var t3 := t2.(stats := stats.0);
        var seo := GetOrCreate(t3.seoPages, SeoKey, HOME_SEO);
        if seo.1 {
          assert GetOrCreate(seo.0, SeoKey, HOME_SEO) == seo;
        }
      }
    }
  }

  /**
   * Whatever the store held before, a `seed()` that ends without a raise
   * leaves exactly one row for every seeded platform, every seeded stat and
   * the home page's SEO settings.
   */
  lemma SeedCompleteHasAll(t: Tables)
    requires SeedSpec(t).1
    ensures forall i :: 0 <= i < |SOCIALS| ==>
      CountKey(SeedSpec(t).0.socialNetworks, SocialKey, SocialKey(SOCIALS[i])) == 1
    ensures forall i :: 0 <= i < |STATS| ==>
      CountKey(SeedSpec(t).0.stats, StatKey, StatKey(STATS[i])) == 1
    ensures CountKey(SeedSpec(t).0.seoPages, SeoKey, SeoKey(HOME_SEO)) == 1
  {
    var t1 := t.(siteConfigs := SeedSiteConfiguration(t.siteConfigs));
    var socials := SeedRows(t1.socialNetworks, SOCIALS, SocialKey);
    var t2 := t1.(socialNetworks := socials.0);
    var stats := SeedRows(t2.stats, STATS, StatKey);
    var t3 := t2.(stats := stats.0);
    assert socials.1 && stats.1;
    SeedRowsHasAll(t1.socialNetworks, SOCIALS, SocialKey);
    SeedRowsHasAll(t2.stats, STATS, StatKey);
    assert SeedSpec(t) == SeedSeo(t3);
  }

  /** The seeded platforms are distinct. */
  lemma SocialKeysDistinct()
    ensures forall i, j :: 0 <= i < j < |SOCIALS| ==> SocialKey(SOCIALS[i]) != SocialKey(SOCIALS[j])
  {
    var platforms := ["linkedin", "twitter", "facebook", "instagram"];
    assert forall i :: 0 <= i < 4 ==> SocialKey(SOCIALS[i]) == platforms[i];
  }

  /** The seeded (number, label) pairs are distinct. */
  lemma StatKeysDistinct()
    ensures forall i, j :: 0 <= i < j < |STATS| ==> StatKey(STATS[i]) != StatKey(STATS[j])
  {
    var numbers := ["3", "15+", "Global"];
    assert forall i :: 0 <= i < 3 ==> StatKey(STATS[i]).0 == numbers[i];
  }

  /**
   * On a database whose four seeded tables are empty (a freshly migrated one,
   * say), `seed()` creates exactly the listed rows and runs to the end.
   */
  lemma SeedOnEmpty(t: Tables)
    requires t.siteConfigs == map[] && t.socialNetworks == [] && t.stats == [] && t.seoPages == []
    ensures SeedSpec(t).1
    ensures SeedSpec(t).0.siteConfigs == map[SITE_CONFIGURATION_PK := DEFAULT_SITE_CONFIGURATION]
    ensures SeedSpec(t).0.socialNetworks == SOCIALS
    ensures SeedSpec(t).0.stats == STATS
    ensures SeedSpec(t).0.seoPages == [HOME_SEO]
  {
    var t1 := t.(siteConfigs := map[SITE_CONFIGURATION_PK := DEFAULT_SITE_CONFIGURATION]);
    assert SeedSiteConfiguration(t.siteConfigs) == t1.siteConfigs;
    SocialsOnEmpty(t1);
  }

  /** Helper: steps 2 to 4 on empty tables create the listed rows. */
  lemma SocialsOnEmpty(t: Tables)
    requires t.socialNetworks == [] && t.stats == [] && t.seoPages == []
    ensures SeedSocialsOnward(t) == (t.(socialNetworks := SOCIALS, stats := STATS, seoPages := [HOME_SEO]), true)
  {
    assert SeedRows([], SOCIALS, SocialKey) == (SOCIALS, true) by {
      SocialKeysDistinct();
      SeedAllOnEmpty(SOCIALS, SocialKey);
    }
    StatsOnEmpty(t.(socialNetworks := SOCIALS));
  }

  /** Helper: steps 3 and 4 on empty tables create the listed rows. */
  lemma StatsOnEmpty(t: Tables)
    requires t.stats == [] && t.seoPages == []
    ensures SeedStatsOnward(t) == (t.(stats := STATS, seoPages := [HOME_SEO]), true)
  {
    assert SeedRows([], STATS, StatKey) == (STATS, true) by {
      StatKeysDistinct();
      SeedAllOnEmpty(STATS, StatKey);
    }
    assert GetOrCreate([], SeoKey, HOME_SEO) == ([HOME_SEO], true);
  }

  /** Helper: seeding items with distinct keys into an empty table creates them all. */
  lemma SeedAllOnEmpty<T, K>(items: seq<T>, key: T -> K)
    requires forall i, j :: 0 <= i < j < |items| ==> key(items[i]) != key(items[j])
    ensures SeedRows([], items, key) == (items, true)
  {
    SeedRowsCreatesAll([], items, key);
    assert [] + items == items;
  }

  /**
   * The script itself, step by step against the live database: it ends as
   * `SeedSpec` says, in both the completed and the raised case.
   */
  method Seed(db: Database) returns (ok: bool)
    modifies db
    ensures (db.tables, ok) == SeedSpec(old(db.tables))
  {
    // 1. Site configuration
    if SITE_CONFIGURATION_PK !in db.tables.siteConfigs {
      db.SaveSiteConfiguration(DEFAULT_SITE_CONFIGURATION);
    }
    ghost var t1 := db.tables;
    assert t1 == old(db.tables).(siteConfigs := SeedSiteConfiguration(old(db.tables).siteConfigs));

    // 2. Social networks
    ok := SeedSocialNetworks(db);
    if !ok {
      return;
    }
    ghost var t2 := db.tables;

    // 3. Stats
    ok := SeedStats(db);
    if !ok {
      return;
    }
    ghost var t3 := db.tables;
    assert t3 == t2.(stats := SeedRows(t2.stats, STATS, StatKey).0);

    // 4. Initial SEO
    var n := CountKey(db.tables.seoPages, SeoKey, HOME_SEO.page);
    if n >= 2 {
      return false;
    }
    if n == 0 {
      db.AddSeoPage(HOME_SEO);
    }
  }

  /** The loop over the social networks: `get_or_create` by platform, stopping at the first raise. */
  method SeedSocialNetworks(db: Database) returns (ok: bool)
    modifies db
    ensures (db.tables.socialNetworks, ok) == SeedRows(old(db.tables.socialNetworks), SOCIALS, SocialKey)
    ensures db.tables == old(db.tables).(socialNetworks := db.tables.socialNetworks)
  {
    var i := 0;
    while i < |SOCIALS|
      invariant 0 <= i <= |SOCIALS|
      invariant db.tables == old(db.tables).(socialNetworks := db.tables.socialNetworks)
      invariant SeedRows(db.tables.socialNetworks, SOCIALS[i..], SocialKey) == SeedRows(old(db.tables.socialNetworks), SOCIALS, SocialKey)
    {
      var social := SOCIALS[i];
      assert SOCIALS[i..][0] == social && SOCIALS[i..][1..] == SOCIALS[i + 1..];
      SeedRowsStep(db.tables.socialNetworks, SOCIALS[i..], SocialKey);
      var n := CountKey(db.tables.socialNetworks, SocialKey, social.platform);
      if n >= 2 {
        return false;
      }
      if n == 0 {
        db.AddSocialNetwork(social);
      }
      i := i + 1;
    }
    ok := true;
  }

  /** The loop over the stats: `get_or_create` by number and label, stopping at the first raise. */
  method SeedStats(db: Database) returns (ok: bool)
    modifies db
    ensures (db.tables.stats, ok) == SeedRows(old(db.tables.stats), STATS, StatKey)
    ensures db.tables == old(db.tables).(stats := db.tables.stats)
  {
    var j := 0;
    while j < |STATS|
      invariant 0 <= j <= |STATS|
      invariant db.tables == old(db.tables).(stats := db.tables.stats)
      invariant SeedRows(db.tables.stats, STATS[j..], StatKey) == SeedRows(old(db.tables.stats), STATS, StatKey)
    {
      var stat := STATS[j];
      assert STATS[j..][0] == stat && STATS[j..][1..] == STATS[j + 1..];
      SeedRowsStep(db.tables.stats, STATS[j..], StatKey);
      var n := CountKey(db.tables.stats, StatKey, (stat.number, stat.labelText));
      if n >= 2 {
        return false;
      }
      if n == 0 {
        db.AddStat(stat);
      }
      j := j + 1;
    }
    ok := true;
  }
}
