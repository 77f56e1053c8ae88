/**
 * The data path of the `/analyze` handler (index.js): clean both contact
 * sets, classify them, turn the flagged contacts into report lines and lay
 * out the report. Fetching, JSON decoding and posting are outside this module;
 * their results arrive as parameters.
 */
module Analysis {
  import opened Sequences
  import opened HubspotUtils
  import opened SlackUtils

  /** The deep links of the given contacts, in order. */
  function ContactURLs(contacts: seq<Contact>, portalId: string): (urls: seq<string>)
    ensures |urls| == |contacts|
    ensures forall k :: 0 <= k < |contacts| ==> urls[k] == GenerateHubspotContactURL(portalId, contacts[k].id)
  {
    seq(|contacts|, k requires 0 <= k < |contacts| => GenerateHubspotContactURL(portalId, contacts[k].id))
  }

  const FIRST_NAME_LABEL: string := "First name: "
  const LAST_NAME_LABEL: string := ", Last name: "
  const EMAIL_LABEL: string := ", Email: "

  /**
   * The summary line of an archived contact that looks suspicious: the first
   * name, last name and email, each after its label, with nothing else.
   */
  function DetailLine(c: Contact): (line: string)
    ensures |line| == |FIRST_NAME_LABEL| + |c.firstname| + |LAST_NAME_LABEL| + |c.lastname| + |EMAIL_LABEL| + |c.email|
    ensures FIRST_NAME_LABEL <= line
    ensures OccursAt(line, c.firstname, |FIRST_NAME_LABEL|)
    ensures OccursAt(line, LAST_NAME_LABEL, |FIRST_NAME_LABEL| + |c.firstname|)
    ensures OccursAt(line, c.lastname, |FIRST_NAME_LABEL| + |c.firstname| + |LAST_NAME_LABEL|)
    ensures OccursAt(line, EMAIL_LABEL, |line| - |c.email| - |EMAIL_LABEL|)
    ensures OccursAt(line, c.email, |line| - |c.email|)
  {
    var a := FIRST_NAME_LABEL + c.firstname;
    var b := a + LAST_NAME_LABEL;
    var d := b + c.lastname;
    var e := d + EMAIL_LABEL;
    var line := e + c.email;
    assert line[..|e|] == e && e[..|d|] == d && d[..|b|] == b && b[..|a|] == a;
    assert a[|FIRST_NAME_LABEL|..] == c.firstname && b[|a|..] == LAST_NAME_LABEL;
    assert d[|b|..] == c.lastname && e[|d|..] == EMAIL_LABEL && line[|e|..] == c.email;
    line
  }

  /**
   * A detail line identifies the contact's names and email, provided the names
   * contain no comma (the character that starts the next label).
   */
  lemma DetailLineInjective(c1: Contact, c2: Contact)
    requires ',' !in c1.firstname && ',' !in c2.firstname
    requires ',' !in c1.lastname && ',' !in c2.lastname
    requires DetailLine(c1) == DetailLine(c2)
    ensures c1.firstname == c2.firstname && c1.lastname == c2.lastname && c1.email == c2.email
  {
    var line := DetailLine(c1);
    var n := |FIRST_NAME_LABEL|;
    WindowChar(line, LAST_NAME_LABEL, n + |c1.firstname|, n + |c1.firstname|);
    WindowChar(line, LAST_NAME_LABEL, n + |c2.firstname|, n + |c2.firstname|);
    FieldBeforeComma(line, n, c1.firstname, c2.firstname);
    var m := n + |c1.firstname| + |LAST_NAME_LABEL|;
    WindowChar(line, EMAIL_LABEL, m + |c1.lastname|, m + |c1.lastname|);
    WindowChar(line, EMAIL_LABEL, m + |c2.lastname|, m + |c2.lastname|);
    FieldBeforeComma(line, m, c1.lastname, c2.lastname);
    assert c1.email == line[|line| - |c1.email|..] == c2.email;
  }

  /** Two comma-free strings that start at the same position and are both followed by a comma are equal. */
  lemma FieldBeforeComma(line: string, n: int, x: string, y: string)
    requires OccursAt(line, x, n) && OccursAt(line, y, n)
    requires ',' !in x && ',' !in y
    requires n + |x| < |line| && line[n + |x|] == ','
    requires n + |y| < |line| && line[n + |y|] == ','
    ensures x == y
  {
    if |x| < |y| {
      WindowChar(line, y, n, n + |x|);
      assert false;
    } else if |y| < |x| {
      WindowChar(line, x, n, n + |y|);
      assert false;
    }
    assert x == line[n..n + |x|] == y;
  }

  function DetailLines(contacts: seq<Contact>): (lines: seq<string>)
    ensures |lines| == |contacts|
    ensures forall k :: 0 <= k < |contacts| ==> lines[k] == DetailLine(contacts[k])
  {
    seq(|contacts|, k requires 0 <= k < |contacts| => DetailLine(contacts[k]))
  }

  /** The three classifications of one run, all evaluated at the same instant `now`. */
  datatype Classification = Classification(missingValues: seq<Contact>, outdatedData: seq<Contact>, unlikelyData: seq<Contact>)

  /**
   * The active contacts are cleaned without `archivedAt` and the archived ones
   * with it; each classification is then exactly the cleaned records its test selects.
   */
  function Classify(active: seq<RawContact>, archived: seq<RawContact>, now: int, cal: Calendar, parse: string -> Timestamp)
    : (r: Classification)
    ensures SelectsExactly(r.missingValues, CleanContactData(active, false, parse), HasMissingValues)
    ensures SelectsExactly(r.outdatedData, CleanContactData(active, false, parse), OutdatedTest(OutdatedThreshold(now, cal)))
    ensures SelectsExactly(r.unlikelyData, CleanContactData(archived, true, parse), UnlikelyTest(UnlikelyThreshold(now, cal)))
  {
    var cleaned := CleanContactData(active, false, parse);
    var cleanedArchived := CleanContactData(archived, true, parse);
    Classification(
      FindContactsWithMissingValues(cleaned),
      FindContactsWithOutdatedData(cleaned, now, cal),
      FindContactsWithUnlikelyData(cleanedArchived, now, cal))
  }

  /** The report blocks the handler posts, given the fetched contacts and the portal id. */
  function BuildReport(active: seq<RawContact>, archived: seq<RawContact>, portalId: string, now: int, cal: Calendar, parse: string -> Timestamp)
    : (blocks: seq<Block>)
    ensures |blocks| == if Classify(active, archived, now, cal, parse).unlikelyData != [] then 8 else 7
    ensures blocks[0] == Block(Header, Text(PlainText, REPORT_TITLE))
  {
    var c := Classify(active, archived, now, cal, parse);
    GenerateSlackReportBlocks(
      ContactURLs(c.missingValues, portalId),
      ContactURLs(c.outdatedData, portalId),
      DetailLines(c.unlikelyData),
      portalId)
  }

  /** The raw record is archived and its last-modified date parses to an instant after three weeks ago. */
  predicate RecentlyChangedArchived(raw: RawContact, now: int, cal: Calendar, parse: string -> Timestamp) {
    raw.archived && DateLess(Valid(UnlikelyThreshold(now, cal)), NewDate(raw.properties.lastmodifieddate, parse))
  }

  /**
   * The report carries the restore link exactly when some archived contact was
   * modified within the last three weeks.
   */
  lemma {:induction false} RestoreLinkIffRecentArchivedChange(
    active: seq<RawContact>, archived: seq<RawContact>, portalId: string, now: int, cal: Calendar, parse: string -> Timestamp)
    ensures |BuildReport(active, archived, portalId, now, cal, parse)| == 8 <==>
      exists k :: 0 <= k < |archived| && RecentlyChangedArchived(archived[k], now, cal, parse)
  {
    var data := CleanContactData(archived, true, parse);
    var u := FindContactsWithUnlikelyData(data, now, cal);
    if u != [] {
      HeadIsMember(u);
      var k :| 0 <= k < |data| && data[k] == u[0];
      assert RecentlyChangedArchived(archived[k], now, cal, parse);
    }
    if k :| 0 <= k < |archived| && RecentlyChangedArchived(archived[k], now, cal, parse) {
      assert data[k] in u;
    }
  }

  /** The missing-values section reads "None" exactly when no active contact lacks a name or email. */
  lemma {:induction false} MissingSectionNoneIff(
    active: seq<RawContact>, archived: seq<RawContact>, portalId: string, now: int, cal: Calendar, parse: string -> Timestamp)
    ensures TextOf(BuildReport(active, archived, portalId, now, cal, parse)[2]) == "None" <==>
      forall k :: 0 <= k < |active| ==> !HasMissingValues(CleanContact(active[k], false, parse))
  {
    var data := CleanContactData(active, false, parse);
    var urls := ContactURLs(FindContactsWithMissingValues(data), portalId);
    UrlsNeverNone(FindContactsWithMissingValues(data), portalId);
    if urls == [] {
      forall k | 0 <= k < |active| ensures !HasMissingValues(CleanContact(active[k], false, parse)) {
        assert data[k] !in FindContactsWithMissingValues(data);
      }
    } else {
      HeadIsMember(FindContactsWithMissingValues(data));
    }
  }

  /** The outdated section reads "None" exactly when no active contact was last modified before three years ago. */
  lemma {:induction false} OutdatedSectionNoneIff(
    active: seq<RawContact>, archived: seq<RawContact>, portalId: string, now: int, cal: Calendar, parse: string -> Timestamp)
    ensures TextOf(BuildReport(active, archived, portalId, now, cal, parse)[4]) == "None" <==>
      forall k :: 0 <= k < |active| ==> !IsOutdated(CleanContact(active[k], false, parse), OutdatedThreshold(now, cal))
  {
    var data := CleanContactData(active, false, parse);
    var found := FindContactsWithOutdatedData(data, now, cal);
    UrlsNeverNone(found, portalId);
    if found == [] {
      forall k | 0 <= k < |active| ensures !IsOutdated(CleanContact(active[k], false, parse), OutdatedThreshold(now, cal)) {
        assert data[k] !in found;
      }
    } else {
      HeadIsMember(found);
    }
  }

  /** The unlikely-data section reads "None" exactly when no archived contact was changed in the last three weeks. */
  lemma {:induction false} UnlikelySectionNoneIff(
    active: seq<RawContact>, archived: seq<RawContact>, portalId: string, now: int, cal: Calendar, parse: string -> Timestamp)
    ensures TextOf(BuildReport(active, archived, portalId, now, cal, parse)[6]) == "None" <==>
      forall k :: 0 <= k < |archived| ==> !RecentlyChangedArchived(archived[k], now, cal, parse)
  {
    var data := CleanContactData(archived, true, parse);
    var found := FindContactsWithUnlikelyData(data, now, cal);
    var lines := DetailLines(found);
    if |lines| == 1 {
      assert lines[0][0] == 'F' && NONE[0] == 'N';
    }
    RestoreLinkIffRecentArchivedChange(active, archived, portalId, now, cal, parse);
  }

  /** The deep link of every active contact with a missing value is listed in the missing-values section (block 2). */
  lemma {:induction false} MissingContactsListed(
    active: seq<RawContact>, archived: seq<RawContact>, portalId: string, now: int, cal: Calendar, parse: string -> Timestamp,
    k: nat)
    requires k < |active| && HasMissingValues(CleanContact(active[k], false, parse))
    ensures Contains(TextOf(BuildReport(active, archived, portalId, now, cal, parse)[2]), GenerateHubspotContactURL(portalId, active[k].id))
  {
    var found := FindContactsWithMissingValues(CleanContactData(active, false, parse));
    var urls := ContactURLs(found, portalId);
    assert CleanContactData(active, false, parse)[k] in found;
    var j :| 0 <= j < |found| && found[j] == CleanContactData(active, false, parse)[k];
    assert urls[j] == GenerateHubspotContactURL(portalId, active[k].id);
    JoinAppearsInContent(urls, j);
  }

  /** The deep link of every outdated active contact is listed in the outdated section (block 4). */
  lemma {:induction false} OutdatedContactsListed(
    active: seq<RawContact>, archived: seq<RawContact>, portalId: string, now: int, cal: Calendar, parse: string -> Timestamp,
    k: nat)
    requires k < |active| && IsOutdated(CleanContact(active[k], false, parse), OutdatedThreshold(now, cal))
    ensures Contains(TextOf(BuildReport(active, archived, portalId, now, cal, parse)[4]), GenerateHubspotContactURL(portalId, active[k].id))
  {
    var found := FindContactsWithOutdatedData(CleanContactData(active, false, parse), now, cal);
    var urls := ContactURLs(found, portalId);
    assert CleanContactData(active, false, parse)[k] in found;
    var j :| 0 <= j < |found| && found[j] == CleanContactData(active, false, parse)[k];
    assert urls[j] == GenerateHubspotContactURL(portalId, active[k].id);
    JoinAppearsInContent(urls, j);
  }

  /** The detail line of every recently changed archived contact is listed in the unlikely-data section (block 6). */
  lemma {:induction false} UnlikelyContactsListed(
    active: seq<RawContact>, archived: seq<RawContact>, portalId: string, now: int, cal: Calendar, parse: string -> Timestamp,
    k: nat)
    requires k < |archived| && RecentlyChangedArchived(archived[k], now, cal, parse)
    ensures Contains(TextOf(BuildReport(active, archived, portalId, now, cal, parse)[6]), DetailLine(CleanContact(archived[k], true, parse)))
  {
    var found := FindContactsWithUnlikelyData(CleanContactData(archived, true, parse), now, cal);
    var lines := DetailLines(found);
    assert CleanContactData(archived, true, parse)[k] in found;
    var j :| 0 <= j < |found| && found[j] == CleanContactData(archived, true, parse)[k];
    assert lines[j] == DetailLine(CleanContact(archived[k], true, parse));
    JoinAppearsInContent(lines, j);
  }

  /** Deep links are never empty and never the word "None", so a list of them renders as "None" only when empty. */
  lemma {:induction false} UrlsNeverNone(contacts: seq<Contact>, portalId: string)
    ensures ContentText(ContactURLs(contacts, portalId)) == "None" <==> contacts == []
  {
    var urls := ContactURLs(contacts, portalId);
    if |urls| == 1 {
      assert |urls[0]| > |NONE|;
    }
  }
}
