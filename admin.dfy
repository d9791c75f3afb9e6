/**
 * The admin site's rules (main/admin.py): the guard that allows adding a site
 * configuration only while none exists, the list orderings declared on the
 * admin classes, and the read-only creation time of a contact submission.
 */
module Admin {
  import opened Models
  import Ordering

  // ---------------------------------------------------------------- SiteConfigurationAdmin

  /**
   * `SiteConfigurationAdmin.has_add_permission`: the "add" button is offered
   * exactly when the table holds no row at all.
   */
  function HasAddPermission(table: map<nat, SiteConfiguration>): (r: bool)
    ensures r ==> IsSingleton(table) && forall pk :: pk !in table
    ensures !r ==> exists pk :: pk in table
  {
    table == map[]
  }

  /** What an administrator can do to the site-configuration table. */
  datatype ConfigOp =
    | Add(config: SiteConfiguration)     // the add form, honoured only with permission
    | Change(config: SiteConfiguration)  // the change form of the existing row
    | Delete(pk: nat)                    // the default delete action

  /** One admin action: an add without permission is refused and changes nothing. */
  function ApplyOp(table: map<nat, SiteConfiguration>, op: ConfigOp): (r: map<nat, SiteConfiguration>)
    ensures op.Add? && !HasAddPermission(table) ==> r == table
    ensures op.Add? && HasAddPermission(table) ==> r == map[SITE_CONFIGURATION_PK := op.config]
    ensures !op.Delete? && IsSingleton(table) ==> IsSingleton(r)
    ensures op.Delete? ==> r.Keys == table.Keys - {op.pk}
  {
    match op
    case Add(config) => if HasAddPermission(table) then SaveSiteConfiguration(table, config) else table
    case Change(config) => SaveSiteConfiguration(table, config)
    case Delete(pk) => table - {pk}
  }

  function ApplyOps(table: map<nat, SiteConfiguration>, ops: seq<ConfigOp>): map<nat, SiteConfiguration>
    decreases |ops|
  {
    if ops == [] then table else ApplyOps(ApplyOp(table, ops[0]), ops[1..])
  }

  predicate NoDelete(ops: seq<ConfigOp>) {
    forall i :: 0 <= i < |ops| ==> !ops[i].Delete?
  }

  /**
   * Once a configuration exists, adding stays forbidden after any sequence of
   * admin actions that deletes nothing; the table stays a single row.
   */
  lemma {:induction false} AddDeniedForever(table: map<nat, SiteConfiguration>, ops: seq<ConfigOp>)
    requires !HasAddPermission(table) && IsSingleton(table)
    requires NoDelete(ops)
    ensures !HasAddPermission(ApplyOps(table, ops))
    ensures IsSingleton(ApplyOps(table, ops))
    decreases |ops|
  {
    if ops != [] {
      var next := ApplyOp(table, ops[0]);
      assert SITE_CONFIGURATION_PK in next;
      AddDeniedForever(next, ops[1..]);
    }
  }

  /** On an empty table an add is honoured, writes the row under key 1, and withdraws the permission. */
  lemma FirstAddCreatesTheRow(config: SiteConfiguration)
    ensures HasAddPermission(map[])
    ensures ApplyOp(map[], Add(config)) == map[SITE_CONFIGURATION_PK := config]
    ensures !HasAddPermission(ApplyOp(map[], Add(config)))
  {
    assert SITE_CONFIGURATION_PK in ApplyOp(map[], Add(config));
  }

  /** A delete of the only row gives the permission back. */
  lemma DeleteRestoresAdd(config: SiteConfiguration)
    ensures HasAddPermission(ApplyOp(map[SITE_CONFIGURATION_PK := config], Delete(SITE_CONFIGURATION_PK)))
  {
    var r := ApplyOp(map[SITE_CONFIGURATION_PK := config], Delete(SITE_CONFIGURATION_PK));
    assert r.Keys == {};
  }

  // ---------------------------------------------------------------- list orderings

  /** Newest first: a larger creation time sorts earlier. */
  function NewestFirst(t: Timestamp): int {
    -t
  }

  /** The sort key of `-created_at` for contact submissions. */
  function ContactKey(c: ContactSubmission): int {
    NewestFirst(c.createdAt)
  }

  /** The sort key of `-created_at` for newsletter subscribers. */
  function SubscriberKey(s: NewsletterSubscriber): int {
    NewestFirst(s.createdAt)
  }

  /**
   * `ContactSubmissionAdmin.ordering = ('-created_at',)`. The change list
   * appends `-pk` to an ordering that does not fix the order of every row,
   * so submissions created at the same moment come highest primary key
   * first: in the reverse of their table order.
   */
  function ContactSubmissionList(rows: seq<ContactSubmission>): (r: seq<ContactSubmission>)
    ensures forall i, j :: 0 <= i < j < |r| ==> r[i].createdAt >= r[j].createdAt
    ensures multiset(r) == multiset(rows)
    ensures forall k :: Ordering.WithKey(r, ContactKey, k) == Ordering.Reversed(Ordering.WithKey(rows, ContactKey, k))
  {
    var r := Ordering.SortByKey(Ordering.Reversed(rows), ContactKey);
    assert forall i, j :: 0 <= i < j < |r| ==> ContactKey(r[i]) <= ContactKey(r[j]);
    Ordering.TiesReversed(rows, ContactKey);
    r
  }

  /**
   * `AppointmentAdmin.ordering = ('-date', '-time')`: latest date first, then
   * latest time; appointments at the same date and time come highest
   * primary key first (the `-pk` the change list appends).
   */
  function AppointmentList(rows: seq<Appointment>): (r: seq<Appointment>)
    ensures forall i, j :: 0 <= i < j < |r| ==> NotLaterThan(r[j], r[i])
    ensures multiset(r) == multiset(rows)
    ensures forall k :: Ordering.WithKey(r, AppointmentKey, k) == Ordering.Reversed(Ordering.WithKey(rows, AppointmentKey, k))
  {
    var r := Ordering.SortByKey(Ordering.Reversed(rows), AppointmentKey);
    forall i, j | 0 <= i < j < |r| ensures NotLaterThan(r[j], r[i]) {
      AppointmentKeyOrders(r[i], r[j]);
    }
    Ordering.TiesReversed(rows, AppointmentKey);
    r
  }

  /**
   * `NewsletterSubscriberAdmin.ordering = ('-created_at',)`; subscribers
   * who signed up at the same moment come highest primary key first.
   */
  function NewsletterSubscriberList(rows: seq<NewsletterSubscriber>): (r: seq<NewsletterSubscriber>)
    ensures forall i, j :: 0 <= i < j < |r| ==> r[i].createdAt >= r[j].createdAt
    ensures multiset(r) == multiset(rows)
    ensures forall k :: Ordering.WithKey(r, SubscriberKey, k) == Ordering.Reversed(Ordering.WithKey(rows, SubscriberKey, k))
  {
    var r := Ordering.SortByKey(Ordering.Reversed(rows), SubscriberKey);
    assert forall i, j :: 0 <= i < j < |r| ==> SubscriberKey(r[i]) <= SubscriberKey(r[j]);
    Ordering.TiesReversed(rows, SubscriberKey);
    r
  }

  /** The first row of the contact list is the most recent submission. */
  lemma ContactListHeadIsNewest(rows: seq<ContactSubmission>)
    requires rows != []
    ensures ContactSubmissionList(rows) != []
    ensures forall x :: x in rows ==> ContactSubmissionList(rows)[0].createdAt >= x.createdAt
  {
    var r := ContactSubmissionList(rows);
    assert |r| == |rows| by {
      assert |multiset(r)| == |multiset(rows)|;
    }
    forall x | x in rows ensures r[0].createdAt >= x.createdAt {
      assert x in multiset(rows);
      assert x in multiset(r);
      var j :| 0 <= j < |r| && r[j] == x;
    }
  }

  // ---------------------------------------------------------------- ContactSubmissionAdmin

  /**
   * Saving the change form of a contact submission: `created_at` is in
   * `readonly_fields`, so the edited fields are taken and the creation time
   * is the stored one.
   */
  function ChangeContact(stored: ContactSubmission, edited: ContactSubmission): (r: ContactSubmission)
    ensures r.createdAt == stored.createdAt
    ensures r.(createdAt := edited.createdAt) == edited
  {
    edited.(createdAt := stored.createdAt)
  }

  /** Any number of admin edits leave the creation time as it was first stored. */
  lemma {:induction false} EditsKeepCreatedAt(stored: ContactSubmission, edits: seq<ContactSubmission>)
    ensures ChangeAll(stored, edits).createdAt == stored.createdAt
    decreases |edits|
  {
    if edits != [] {
      EditsKeepCreatedAt(ChangeContact(stored, edits[0]), edits[1..]);
    }
  }

  /**
   * A sequence of change forms saved one after another: the submission ends
   * as the last edit made it, except for the creation time.
   */
  function ChangeAll(stored: ContactSubmission, edits: seq<ContactSubmission>): (r: ContactSubmission)
    ensures edits == [] ==> r == stored
    ensures edits != [] ==> r.(createdAt := edits[|edits| - 1].createdAt) == edits[|edits| - 1]
    decreases |edits|
  {
    if edits == [] then stored else ChangeAll(ChangeContact(stored, edits[0]), edits[1..])
  }
}
