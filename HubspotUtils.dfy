/**
 * The contact-cleaning and classification rules of the bad-data detector
 * (utils/hubspotUtils.js): normalising raw CRM contacts, the three quality
 * filters, and the deep link to a contact in the HubSpot app.
 */
module HubspotUtils {
  import opened Wrappers
  import opened Sequences

  const OUTDATED_DATA_THRESHOLD_YEARS: nat := 3
  const UNLIKELY_DATA_THRESHOLD_DAYS: nat := 21

  /** The placeholder that replaces a missing name or email. */
  const UNKNOWN: string := "Unknown"

  /* ----------------------------------------------------------------------
   * Data model
   * ---------------------------------------------------------------------- */

  /** A property value as the CRM client delivers it: absent, JSON null, or a string. */
  datatype JsValue = Undefined | Null | Str(s: string)

  /** JavaScript truthiness: `undefined`, `null` and `""` are falsy. */
  predicate Falsy(v: JsValue) {
    v.Undefined? || v.Null? || v == Str("")
  }

  /** A JavaScript `Date`: a time value in milliseconds since the epoch, or "Invalid Date". */
  datatype Timestamp = Valid(ms: int) | Invalid

  /** The property bag of a raw contact; any property may be missing. */
  datatype Properties = Properties(
    email: JsValue,
    firstname: JsValue,
    lastname: JsValue,
    createdate: JsValue,
    lastmodifieddate: JsValue)

  /** A contact as returned by the CRM client. */
  datatype RawContact = RawContact(id: string, properties: Properties, archived: bool, archivedAt: JsValue)

  /** A cleaned contact; `archivedAt` is a field that the cleaner attaches only to some records. */
  datatype Contact = Contact(
    id: string,
    email: string,
    firstname: string,
    lastname: string,
    createdate: Timestamp,
    lastmodifieddate: Timestamp,
    archived: bool,
    archivedAt: Option<Timestamp>)

  /**
   * The calendar arithmetic of `Date.prototype.setFullYear` and `setDate`:
   * `yearsBefore(t, n)` is the time value `n` calendar years before `t`, and
   * `daysBefore(t, n)` the one `n` calendar days before `t`, in local time.
   */
  datatype Calendar = Calendar(yearsBefore: (int, nat) -> int, daysBefore: (int, nat) -> int)

  /** The instant three years before `now`. */
  function OutdatedThreshold(now: int, cal: Calendar): int {
    cal.yearsBefore(now, OUTDATED_DATA_THRESHOLD_YEARS)
  }

  /** The instant three weeks before `now`. */
  function UnlikelyThreshold(now: int, cal: Calendar): int {
    cal.daysBefore(now, UNLIKELY_DATA_THRESHOLD_DAYS)
  }

  /* ----------------------------------------------------------------------
   * JavaScript semantics used by the source
   * ---------------------------------------------------------------------- */

  /** `v || 'Unknown'` for a property value. */
  function OrUnknown(v: JsValue): (r: string)
    ensures r != ""
    ensures Falsy(v) <==> r == UNKNOWN && v != Str(UNKNOWN)
    ensures !Falsy(v) ==> v == Str(r)
  {
    if Falsy(v) then UNKNOWN else v.s
  }

  /**
   * `new Date(v)`: `undefined` gives an invalid date, `null` converts to the
   * number 0 and so gives the epoch, and a string is handed to the date
   * parser `parse`.
   */
  function NewDate(v: JsValue, parse: string -> Timestamp): Timestamp {
    match v
    case Undefined => Invalid
    case Null => Valid(0)
    case Str(s) => parse(s)
  }

  /** `a < b` on two `Date`s: compares the time values; false when either is invalid (NaN). */
  predicate DateLess(a: Timestamp, b: Timestamp) {
    a.Valid? && b.Valid? && a.ms < b.ms
  }

  /* ----------------------------------------------------------------------
   * cleanContactData
   * ---------------------------------------------------------------------- */

  /** The cleaned form of one raw contact. */
  function CleanContact(raw: RawContact, isArchived: bool, parse: string -> Timestamp): (c: Contact)
    ensures c.id == raw.id && c.archived == raw.archived
    ensures c.email != "" && c.firstname != "" && c.lastname != ""
    ensures c.archivedAt.Some? <==> isArchived && raw.archived
  {
    Contact(
      raw.id,
      OrUnknown(raw.properties.email),
      OrUnknown(raw.properties.firstname),
      OrUnknown(raw.properties.lastname),
      NewDate(raw.properties.createdate, parse),
      NewDate(raw.properties.lastmodifieddate, parse),
      raw.archived,
      if isArchived && raw.archived then Some(NewDate(raw.archivedAt, parse)) else None)
  }

  /** `cleanContactData(contactData, isArchived)`: clean every contact, one output per input. */
  function CleanContactData(raws: seq<RawContact>, isArchived: bool, parse: string -> Timestamp): (r: seq<Contact>)
    ensures |r| == |raws|
    ensures forall k :: 0 <= k < |raws| ==> r[k] == CleanContact(raws[k], isArchived, parse)
  {
    seq(|raws|, k requires 0 <= k < |raws| => CleanContact(raws[k], isArchived, parse))
  }

  /** The identity and archival flag of each contact are copied verbatim, in order. */
  lemma CleanPreservesIdentity(raws: seq<RawContact>, isArchived: bool, parse: string -> Timestamp)
    ensures |CleanContactData(raws, isArchived, parse)| == |raws|
    ensures forall k :: 0 <= k < |raws| ==>
      CleanContactData(raws, isArchived, parse)[k].id == raws[k].id &&
      CleanContactData(raws, isArchived, parse)[k].archived == raws[k].archived
  {
  }

  /** A name or email is replaced by "Unknown" exactly when it is falsy, and otherwise kept as it was. */
  lemma CleanDefaultsFields(raw: RawContact, isArchived: bool, parse: string -> Timestamp)
    ensures var c := CleanContact(raw, isArchived, parse);
      && (if Falsy(raw.properties.email) then c.email == UNKNOWN else raw.properties.email == Str(c.email))
      && (if Falsy(raw.properties.firstname) then c.firstname == UNKNOWN else raw.properties.firstname == Str(c.firstname))
      && (if Falsy(raw.properties.lastname) then c.lastname == UNKNOWN else raw.properties.lastname == Str(c.lastname))
  {
  }

  /**
   * The time stamps are not defaulted: an absent one becomes an invalid date,
   * JSON null becomes the epoch, and a string is parsed.
   */
  lemma CleanParsesDates(raw: RawContact, isArchived: bool, parse: string -> Timestamp)
    ensures var c := CleanContact(raw, isArchived, parse);
      && (raw.properties.lastmodifieddate.Undefined? ==> c.lastmodifieddate == Invalid)
      && (raw.properties.lastmodifieddate.Null? ==> c.lastmodifieddate == Valid(0))
      && (raw.properties.lastmodifieddate.Str? ==> c.lastmodifieddate == parse(raw.properties.lastmodifieddate.s))
      && (raw.properties.createdate.Undefined? ==> c.createdate == Invalid)
      && (raw.properties.createdate.Null? ==> c.createdate == Valid(0))
      && (raw.properties.createdate.Str? ==> c.createdate == parse(raw.properties.createdate.s))
      && (c.archivedAt.Some? ==> c.archivedAt.value == NewDate(raw.archivedAt, parse))
  {
  }

  /** Cleaning works contact by contact: it commutes with concatenation. */
  lemma {:induction false} CleanConcat(a: seq<RawContact>, b: seq<RawContact>, isArchived: bool, parse: string -> Timestamp)
    ensures CleanContactData(a + b, isArchived, parse) == CleanContactData(a, isArchived, parse) + CleanContactData(b, isArchived, parse)
  {
    var l, r := CleanContactData(a + b, isArchived, parse), CleanContactData(a, isArchived, parse) + CleanContactData(b, isArchived, parse);
    assert |l| == |r|;
    forall k | 0 <= k < |l| ensures l[k] == r[k] {
      if k < |a| {
        assert (a + b)[k] == a[k];
      } else {
        assert (a + b)[k] == b[k - |a|];
      }
    }
  }

  /* ----------------------------------------------------------------------
   * findContactsWithMissingValues
   * ---------------------------------------------------------------------- */

  /** A cleaned name or email counts as missing when it is empty (falsy) or the placeholder. */
  predicate IsMissing(s: string) {
    s == "" || s == UNKNOWN
  }

  predicate HasMissingValues(c: Contact) {
    IsMissing(c.email) || IsMissing(c.firstname) || IsMissing(c.lastname)
  }

  /** `findContactsWithMissingValues(data)`. */
  function FindContactsWithMissingValues(data: seq<Contact>): (r: seq<Contact>)
    ensures SelectsExactly(r, data, HasMissingValues)
    ensures forall c :: c in r <==> c in data && HasMissingValues(c)
  {
    FilterSelectsExactly(data, HasMissingValues);
    Filter(data, HasMissingValues)
  }

  predicate HasUnknownField(c: Contact) {
    c.email == UNKNOWN || c.firstname == UNKNOWN || c.lastname == UNKNOWN
  }

  /**
   * On cleaned records the empty-string tests are dead: the missing-values
   * filter selects exactly the records with some field equal to "Unknown".
   */
  lemma {:induction false} MissingOnCleanedData(raws: seq<RawContact>, isArchived: bool, parse: string -> Timestamp)
    ensures var data := CleanContactData(raws, isArchived, parse);
      FindContactsWithMissingValues(data) == Filter(data, HasUnknownField)
  {
    var data := CleanContactData(raws, isArchived, parse);
    FilterCongruent(data, HasMissingValues, HasUnknownField);
  }

  /**
   * Traced back to the raw record: a contact is flagged for missing values
   * exactly when one of its three fields was falsy or literally "Unknown".
   */
  lemma MissingIffRawFieldMissing(raw: RawContact, isArchived: bool, parse: string -> Timestamp)
    ensures HasMissingValues(CleanContact(raw, isArchived, parse)) <==>
      || Falsy(raw.properties.email) || raw.properties.email == Str(UNKNOWN)
      || Falsy(raw.properties.firstname) || raw.properties.firstname == Str(UNKNOWN)
      || Falsy(raw.properties.lastname) || raw.properties.lastname == Str(UNKNOWN)
  {
  }

  /** Selecting missing values twice selects nothing new. */
  lemma MissingIdempotent(data: seq<Contact>)
    ensures FindContactsWithMissingValues(FindContactsWithMissingValues(data)) == FindContactsWithMissingValues(data)
  {
    FilterIdempotent(data, HasMissingValues);
  }

  /* ----------------------------------------------------------------------
   * findContactsWithOutdatedData
   * ---------------------------------------------------------------------- */

  /** `contact.lastmodifieddate < threeYearsAgo`. */
  predicate IsOutdated(c: Contact, threeYearsAgo: int) {
    DateLess(c.lastmodifieddate, Valid(threeYearsAgo))
  }

  function OutdatedTest(threeYearsAgo: int): Contact -> bool {
    c => IsOutdated(c, threeYearsAgo)
  }

  /** `findContactsWithOutdatedData(data)` evaluated at time `now`. */
  function FindContactsWithOutdatedData(data: seq<Contact>, now: int, cal: Calendar): (r: seq<Contact>)
    ensures SelectsExactly(r, data, OutdatedTest(OutdatedThreshold(now, cal)))
    ensures forall c :: c in r <==>
      c in data && c.lastmodifieddate.Valid? && c.lastmodifieddate.ms < OutdatedThreshold(now, cal)
  {
    FilterSelectsExactly(data, OutdatedTest(OutdatedThreshold(now, cal)));
    Filter(data, OutdatedTest(OutdatedThreshold(now, cal)))
  }

  /** Selecting outdated records twice at the same time selects nothing new. */
  lemma OutdatedIdempotent(data: seq<Contact>, now: int, cal: Calendar)
    ensures FindContactsWithOutdatedData(FindContactsWithOutdatedData(data, now, cal), now, cal)
         == FindContactsWithOutdatedData(data, now, cal)
  {
    FilterIdempotent(data, OutdatedTest(OutdatedThreshold(now, cal)));
  }

  /**
   * As time passes the outdated set only grows: what is outdated at `earlier`
   * is what the outdated filter at `earlier` keeps of the outdated set at `later`.
   */
  lemma OutdatedGrowsOverTime(data: seq<Contact>, earlier: int, later: int, cal: Calendar)
    requires OutdatedThreshold(earlier, cal) <= OutdatedThreshold(later, cal)
    ensures FindContactsWithOutdatedData(FindContactsWithOutdatedData(data, later, cal), earlier, cal)
         == FindContactsWithOutdatedData(data, earlier, cal)
  {
    FilterNarrow(data, OutdatedTest(OutdatedThreshold(earlier, cal)), OutdatedTest(OutdatedThreshold(later, cal)));
  }

  /* ----------------------------------------------------------------------
   * findContactsWithUnlikelyData
   * ---------------------------------------------------------------------- */

  /** `contact.archived && contact.lastmodifieddate > threeWeeksAgo`. */
  predicate IsUnlikely(c: Contact, threeWeeksAgo: int) {
    c.archived && DateLess(Valid(threeWeeksAgo), c.lastmodifieddate)
  }

  function UnlikelyTest(threeWeeksAgo: int): Contact -> bool {
    c => IsUnlikely(c, threeWeeksAgo)
  }

  /** `findContactsWithUnlikelyData(data)` evaluated at time `now`. */
  function FindContactsWithUnlikelyData(data: seq<Contact>, now: int, cal: Calendar): (r: seq<Contact>)
    ensures SelectsExactly(r, data, UnlikelyTest(UnlikelyThreshold(now, cal)))
    ensures forall c :: c in r <==>
      c in data && c.archived && c.lastmodifieddate.Valid? && c.lastmodifieddate.ms > UnlikelyThreshold(now, cal)
  {
    FilterSelectsExactly(data, UnlikelyTest(UnlikelyThreshold(now, cal)));
    Filter(data, UnlikelyTest(UnlikelyThreshold(now, cal)))
  }

  /** Selecting unlikely records twice at the same time selects nothing new. */
  lemma UnlikelyIdempotent(data: seq<Contact>, now: int, cal: Calendar)
    ensures FindContactsWithUnlikelyData(FindContactsWithUnlikelyData(data, now, cal), now, cal)
         == FindContactsWithUnlikelyData(data, now, cal)
  {
    FilterIdempotent(data, UnlikelyTest(UnlikelyThreshold(now, cal)));
  }

  /** A contact cleaned from a record that is not archived is never unlikely, whatever the rest of the list holds. */
  lemma UnlikelyNeedsArchived(raws: seq<RawContact>, k: nat, isArchived: bool, parse: string -> Timestamp, now: int, cal: Calendar)
    requires k < |raws| && !raws[k].archived
    ensures CleanContactData(raws, isArchived, parse)[k] !in
      FindContactsWithUnlikelyData(CleanContactData(raws, isArchived, parse), now, cal)
  {
  }

  /**
   * With the usual ordering of the two thresholds (three years ago is before
   * three weeks ago) no contact is both outdated and unlikely; in particular a
   * contact with an invalid date is neither.
   */
  lemma OutdatedAndUnlikelyDisjoint(data: seq<Contact>, now: int, cal: Calendar)
    requires OutdatedThreshold(now, cal) <= UnlikelyThreshold(now, cal)
    ensures forall c :: c in FindContactsWithOutdatedData(data, now, cal) ==> c !in FindContactsWithUnlikelyData(data, now, cal)
  {
  }

  /** A contact whose last-modified date is invalid is neither outdated nor unlikely. */
  lemma InvalidDateNeverFlagged(data: seq<Contact>, now: int, cal: Calendar)
    ensures forall c :: c in data && c.lastmodifieddate == Invalid ==>
      c !in FindContactsWithOutdatedData(data, now, cal) && c !in FindContactsWithUnlikelyData(data, now, cal)
  {
  }

  /* ----------------------------------------------------------------------
   * generateHubspotContactURL
   * ---------------------------------------------------------------------- */

  const CONTACT_URL_PREFIX: string := "https://app.hubspot.com/contacts/"
  const CONTACT_URL_INFIX: string := "/contact/"

  /** The deep link to a contact in the HubSpot app. */
  function GenerateHubspotContactURL(portalId: string, contactId: string): (url: string)
    ensures |url| == |CONTACT_URL_PREFIX| + |portalId| + |CONTACT_URL_INFIX| + |contactId|
    ensures url[..|CONTACT_URL_PREFIX|] == CONTACT_URL_PREFIX
    ensures url[|CONTACT_URL_PREFIX|..|CONTACT_URL_PREFIX| + |portalId|] == portalId
    ensures url[|CONTACT_URL_PREFIX| + |portalId|..|url| - |contactId|] == CONTACT_URL_INFIX
    ensures url[|url| - |contactId|..] == contactId
  {
    var url := CONTACT_URL_PREFIX + portalId + CONTACT_URL_INFIX + contactId;
    assert url[|CONTACT_URL_PREFIX| + |portalId|..|url| - |contactId|] == CONTACT_URL_INFIX;
    url
  }

  /**
   * A link determines its contact: for portal ids without a slash (HubSpot's
   * are numbers) equal links come from equal portal and contact ids.
   */
  lemma ContactURLInjective(p1: string, c1: string, p2: string, c2: string)
    requires '/' !in p1 && '/' !in p2
    requires GenerateHubspotContactURL(p1, c1) == GenerateHubspotContactURL(p2, c2)
    ensures p1 == p2 && c1 == c2
  {
    var u := GenerateHubspotContactURL(p1, c1);
    var n := |CONTACT_URL_PREFIX|;
    if |p1| < |p2| {
      URLSlashAfterPortal(p1, c1);
      URLPortalChar(p2, c2, |p1|);
      assert false;
    } else if |p2| < |p1| {
      URLSlashAfterPortal(p2, c2);
      URLPortalChar(p1, c1, |p2|);
      assert false;
    }
    assert p1 == u[n..n + |p1|] == p2;
    assert |c1| == |c2|;
  }

  lemma URLSlashAfterPortal(p: string, c: string)
    ensures GenerateHubspotContactURL(p, c)[|CONTACT_URL_PREFIX| + |p|] == '/'
  {
  }

  lemma URLPortalChar(p: string, c: string, i: int)
    requires 0 <= i < |p|
    ensures GenerateHubspotContactURL(p, c)[|CONTACT_URL_PREFIX| + i] == p[i]
  {
  }
}
