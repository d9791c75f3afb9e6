/**
 * The database behind the ORM: one table per model. A table the site only
 * appends to is a sequence of rows in primary-key (insertion) order; the
 * site-configuration table is a map from primary key to row, because its
 * `save` chooses the key itself.
 */
module Store {
  import opened Models

  datatype Tables = Tables(
    contacts: seq<ContactSubmission>,
    companies: seq<Company>,
    testimonials: seq<Testimonial>,
    appointments: seq<Appointment>,
    teamMembers: seq<TeamMember>,
    subscribers: seq<NewsletterSubscriber>,
    seoPages: seq<SEOPageSettings>,
    siteConfigs: map<nat, SiteConfiguration>,
    socialNetworks: seq<SocialNetwork>,
    stats: seq<Stat>,
    carouselItems: seq<HeroCarouselItem>)

  /** A freshly migrated database. */
  const EMPTY: Tables := Tables([], [], [], [], [], [], [], map[], [], [], [])

  /** The live database: each `save()`/`create()` of a new row updates it in place. */
  class Database {
    var tables: Tables

    constructor (initial: Tables)
      ensures tables == initial
    {
      tables := initial;
    }

    method AddContact(row: ContactSubmission)
      modifies this
      ensures tables == old(tables).(contacts := old(tables.contacts) + [row])
    {
      tables := tables.(contacts := tables.contacts + [row]);
    }

    method AddAppointment(row: Appointment)
      modifies this
      ensures tables == old(tables).(appointments := old(tables.appointments) + [row])
    {
      tables := tables.(appointments := tables.appointments + [row]);
    }

    method AddSubscriber(row: NewsletterSubscriber)
      modifies this
      ensures tables == old(tables).(subscribers := old(tables.subscribers) + [row])
    {
      tables := tables.(subscribers := tables.subscribers + [row]);
    }

    method AddCompany(row: Company)
      modifies this
      ensures tables == old(tables).(companies := old(tables.companies) + [row])
    {
      tables := tables.(companies := tables.companies + [row]);
    }

    method AddTestimonial(row: Testimonial)
      modifies this
      ensures tables == old(tables).(testimonials := old(tables.testimonials) + [row])
    {
      tables := tables.(testimonials := tables.testimonials + [row]);
    }

    method AddSocialNetwork(row: SocialNetwork)
      modifies this
      ensures tables == old(tables).(socialNetworks := old(tables.socialNetworks) + [row])
    {
      tables := tables.(socialNetworks := tables.socialNetworks + [row]);
    }

    method AddStat(row: Stat)
      modifies this
      ensures tables == old(tables).(stats := old(tables.stats) + [row])
    {
      tables := tables.(stats := tables.stats + [row]);
    }

    method AddSeoPage(row: SEOPageSettings)
      modifies this
      ensures tables == old(tables).(seoPages := old(tables.seoPages) + [row])
    {
      tables := tables.(seoPages := tables.seoPages + [row]);
    }

    /** `SiteConfiguration.save`: the row lands under key 1, whatever key it had. */
    method SaveSiteConfiguration(config: SiteConfiguration)
      modifies this
      ensures tables == old(tables).(siteConfigs := Models.SaveSiteConfiguration(old(tables.siteConfigs), config))
      ensures IsSingleton(old(tables.siteConfigs)) ==> IsSingleton(tables.siteConfigs)
    {
      tables := tables.(siteConfigs := Models.SaveSiteConfiguration(tables.siteConfigs, config));
    }
  }
}
