# CRM bad-data detector: a Dafny model of its cleaning, classification and report rules

The detector pulls HubSpot contacts (active and archived), cleans them into a
canonical record, flags three kinds of bad data and posts a Slack report. This
project models the part that makes decisions, as pure functions:

- `cleanContactData`: each raw contact becomes one cleaned record, in the same order.
  A falsy email, first name or last name becomes `"Unknown"`. Dates go through
  `new Date(...)`. `archivedAt` is attached only in archived mode and only to archived records.
- The three filters `findContactsWithMissingValues`, `findContactsWithOutdatedData`
  and `findContactsWithUnlikelyData`.
- The contact deep link `generateHubspotContactURL`.
- The Slack layout `generateSlackReportBlocks`: always a header and three
  label/content pairs, plus a restore link when there are unlikely contacts.
- The data path of the `/analyze` handler in `index.js`: clean, classify, build links and detail lines, lay out the report.

Modules:

- `Wrappers`: `Option`.
- `Sequences`: the JavaScript primitives `filter`, `join` and `includes`, plus a
  specification of filtering that does not depend on how `Filter` is written
  (`SelectsExactly`: the subsequence at exactly the matching positions).
- `HubspotUtils`: utils/hubspotUtils.js.
- `SlackUtils`: utils/slackUtils.js.
- `Analysis`: the pure part of index.js.

Modelling choices:

- A raw property is a `JsValue`: `Undefined`, `Null` or `Str(s)`. Falsy means `Undefined`, `Null` or `Str("")`.
- A JavaScript `Date` is a `Timestamp`: `Valid(ms)` or `Invalid`. The relational
  operators on dates are false when either side is invalid, so an invalid
  last-modified date is never outdated and never unlikely.
- How date strings parse is a parameter, `parse: string -> Timestamp`.
- `new Date(null)` is the epoch, not an invalid date, because JavaScript converts `null` to the number 0.
  So a null time stamp does not become an invalid date. A contact whose
  `lastmodifieddate` is JSON null counts as last modified in 1970, and it is
  flagged as outdated.
- The missing-values test in the code also accepts an empty string, not only
  `"Unknown"`. The model keeps both tests. `MissingOnCleanedData` proves that on cleaned data only the
  `"Unknown"` test can fire.
- "Now" is a parameter. The calendar arithmetic of `setFullYear` and `setDate`
  is a `Calendar` value with two functions, applied to the constants 3 (years) and 21 (days).

## Model

| member | source | states |
|---|---|---|
| `HubspotUtils.OrUnknown` | utils/hubspotUtils.js:91-93 | The fallback to 'Unknown' is never empty. It is "Unknown" for a falsy value, and otherwise it is the raw string unchanged. |
| `HubspotUtils.CleanContact` | utils/hubspotUtils.js:89-104 | A cleaned record keeps the raw id and archived flag. Its three name/email fields are non-empty. It has `archivedAt` if and only if archived mode is on and the record is archived. |
| `HubspotUtils.CleanContactData` | utils/hubspotUtils.js:87-106 | Exactly one cleaned record per input, at the same position. |
| `HubspotUtils.CleanPreservesIdentity` | utils/hubspotUtils.js:88-96 | Same length as the input. Each position carries the input's id and archived flag. |
| `HubspotUtils.CleanDefaultsFields` | utils/hubspotUtils.js:91-93 | Email, first name and last name become "Unknown" exactly when falsy. Otherwise they are kept verbatim. |
| `HubspotUtils.CleanParsesDates` | utils/hubspotUtils.js:94-102 | Dates are not defaulted. An absent date is invalid, JSON null is the epoch, and a string is parsed. `archivedAt`, when present, is the parsed raw `archivedAt`. |
| `HubspotUtils.CleanConcat` | utils/hubspotUtils.js:88 | Cleaning works record by record: it commutes with concatenation. |
| `HubspotUtils.FindContactsWithMissingValues` | utils/hubspotUtils.js:109-119 | The result is the subsequence of the input at exactly the records with an empty or "Unknown" email, first name or last name. |
| `HubspotUtils.MissingOnCleanedData` | utils/hubspotUtils.js:91-117 | On cleaned data the filter equals filtering by "some field is exactly Unknown". |
| `HubspotUtils.MissingIffRawFieldMissing` | utils/hubspotUtils.js:91-117 | A cleaned contact is flagged exactly when one of its raw fields was falsy or literally "Unknown". |
| `HubspotUtils.MissingIdempotent` | utils/hubspotUtils.js:110-118 | Applying the missing-values filter twice equals applying it once. |
| `HubspotUtils.FindContactsWithOutdatedData` | utils/hubspotUtils.js:123-131 | The result is the subsequence of the input at exactly the records whose last-modified date is valid and strictly before three years ago. |
| `HubspotUtils.OutdatedIdempotent` | utils/hubspotUtils.js:124-130 | Applying the outdated filter twice (same `now`) equals applying it once. |
| `HubspotUtils.OutdatedGrowsOverTime` | utils/hubspotUtils.js:125-129 | If the threshold moves forward, the earlier outdated set is the earlier filter applied to the later outdated set. So it is a subsequence of it. |
| `HubspotUtils.FindContactsWithUnlikelyData` | utils/hubspotUtils.js:135-141 | The result is the subsequence at exactly the archived records whose last-modified date is valid and strictly after three weeks ago. |
| `HubspotUtils.UnlikelyIdempotent` | utils/hubspotUtils.js:138-140 | Applying the unlikely filter twice equals applying it once. |
| `HubspotUtils.UnlikelyNeedsArchived` | utils/hubspotUtils.js:139 | In any list, the cleaned form of a record whose raw `archived` flag is false is not in the unlikely result. |
| `HubspotUtils.OutdatedAndUnlikelyDisjoint` | utils/hubspotUtils.js:123-141 | When three years ago is not after three weeks ago, no contact is both outdated and unlikely. |
| `HubspotUtils.InvalidDateNeverFlagged` | utils/hubspotUtils.js:129 | A contact with an invalid last-modified date is neither outdated nor unlikely. |
| `HubspotUtils.GenerateHubspotContactURL` | utils/hubspotUtils.js:144-146 | The link is "https://app.hubspot.com/contacts/", then the portal id, then "/contact/", then the contact id, with nothing else: each part is pinned at its offset and the length is the sum of the parts. |
| `HubspotUtils.ContactURLInjective` | utils/hubspotUtils.js:144-146 | For portal ids without "/", equal links come from equal portal ids and equal contact ids. |
| `Sequences.Filter` | utils/hubspotUtils.js:110 | `Array.prototype.filter`: the result is no longer than the input. Its elements pass the test and come from the input. Every passing input element is in it. |
| `Sequences.FilterSelectsExactly` | utils/hubspotUtils.js:110 | The filter result is the order-preserving subsequence at exactly the positions whose element passes. |
| `Sequences.FilterConcat` | utils/hubspotUtils.js:124 | Filtering distributes over concatenation, so the input order is kept. |
| `Sequences.FilterCongruent` | utils/hubspotUtils.js:138 | Tests that agree on every element give the same result. |
| `Sequences.FilterNarrow` | utils/hubspotUtils.js:124 | Filtering by a stronger test after a weaker one equals filtering by the stronger test alone. |
| `Sequences.FilterIdempotent` | utils/hubspotUtils.js:138 | Filtering twice by the same test equals filtering once. |
| `Sequences.Join` | utils/slackUtils.js:28 | With a non-empty separator, `join` is empty exactly for `[]` and `[""]`. |
| `Sequences.JoinContainsEntry` | utils/slackUtils.js:42 | Every entry occurs verbatim in the join. |
| `Sequences.JoinOccurrenceInEntry` | utils/slackUtils.js:56 | A non-empty pattern without the separator character that occurs in the join occurs in one of the entries. |
| `SlackUtils.ContentText` | utils/slackUtils.js:28 | The newline-join with its fallback to 'None' is never empty. It is "None" exactly for `[]`, `[""]` or `["None"]`. |
| `SlackUtils.GenerateSlackReportBlocks` | utils/slackUtils.js:2-73 | 8 blocks when the unlikely list is non-empty, otherwise 7. The header is at 0. The three labels are at 1, 3 and 5. The three content texts are at 2, 4 and 6. When present, the restore link for the portal is block 7. |
| `SlackUtils.LayoutIsFixed` | utils/slackUtils.js:9-51 | Blocks 0, 1, 3 and 5 are the same for any two sets of inputs. |
| `SlackUtils.PortalOnlyInRestoreBlock` | utils/slackUtils.js:62-70 | The first seven blocks do not depend on the portal id. Appending the restore block leaves them unchanged. |
| `SlackUtils.EntriesAreListed` | utils/slackUtils.js:24-58 | Every entry of each list occurs verbatim in that category's content block. |
| `SlackUtils.FixedTextsLackRestorePhrase` | utils/slackUtils.js:10-50 | The header, the three labels and "None" do not contain "You may restore archived contacts". |
| `SlackUtils.ContentPhraseFromEntry` | utils/slackUtils.js:52-58 | A content block contains the restore phrase only if one of its entries does. |
| `SlackUtils.NoRestoreLinkWithoutUnlikely` | utils/slackUtils.js:61-70 | With no unlikely entries there are 7 blocks and the last reads "None". No block contains the restore phrase unless a caller entry does. |
| `SlackUtils.NoUnlikelyEndsWithNone` | utils/slackUtils.js:52-70 | With no unlikely entries, for any other inputs, there are 7 blocks, the last reads "None" and it does not contain the restore phrase. |
| `SlackUtils.RestoreLinkWithUnlikely` | utils/slackUtils.js:62-70 | With unlikely entries there are 8 blocks. The last one contains the restore phrase and the portal id. |
| `Analysis.ContactURLs` | index.js:62-69 | One deep link per flagged contact, at the same position, built from the portal id and the contact's id. |
| `Analysis.DetailLine` | index.js:74-77 | The line is "First name: ", the first name, ", Last name: ", the last name, ", Email: " and the email, each pinned at its offset, and its length is the sum of the six parts. |
| `Analysis.DetailLineInjective` | index.js:76 | For names without a comma, equal detail lines come from equal first names, last names and emails. |
| `Analysis.DetailLines` | index.js:74-77 | One detail line per unlikely contact, at the same position. |
| `Analysis.Classify` | index.js:53-73 | The active set is cleaned with `isArchived` false and the archived set with it true. Missing values and outdated are the subsequences of the cleaned active set at exactly the records their test selects. Unlikely is the subsequence of the cleaned archived set at exactly the unlikely records. |
| `Analysis.BuildReport` | index.js:52-85 | The report opens with the header, and it has 8 blocks when the classification found unlikely contacts and 7 otherwise. |
| `Analysis.MissingContactsListed` | index.js:61-64 | The deep link of every active contact with a missing value occurs in the missing-values section. |
| `Analysis.OutdatedContactsListed` | index.js:66-69 | The deep link of every outdated active contact occurs in the outdated section. |
| `Analysis.UnlikelyContactsListed` | index.js:71-77 | The detail line of every archived contact changed within three weeks occurs in the unlikely-data section. |
| `Analysis.RestoreLinkIffRecentArchivedChange` | index.js:71-85 | The report has the 8th (restore) block exactly when some raw archived contact is archived and has a last-modified date after three weeks ago. |
| `Analysis.MissingSectionNoneIff` | index.js:61-64 | The missing-values section reads "None" exactly when no cleaned active contact has a missing value. |
| `Analysis.OutdatedSectionNoneIff` | index.js:66-69 | The outdated section reads "None" exactly when no cleaned active contact is outdated. |
| `Analysis.UnlikelySectionNoneIff` | index.js:71-77 | The unlikely section reads "None" exactly when no archived contact was changed within three weeks. |

## Left out

- `getHubspotAccountDetails` (utils/hubspotUtils.js:8-65): an HTTPS request with streamed chunks and event callbacks. This is I/O.
- `getHubspotContacts` (utils/hubspotUtils.js:68-84): a wrapper over the `@hubspot/api-client` library, whose code is not part of this model. The fetched contacts are parameters.
- `sendReportToSlack` (utils/slackUtils.js:76-86): a Slack Web API call that reads the channel from the environment. This is I/O.
- index.js: the Express server, `Promise.all` with its fail-fast join, environment configuration, `JSON.parse` of the account details, and the mapping to HTTP status codes.
  The portal id reaches `Analysis.BuildReport` as a string, already rendered as the template literal would render it.
- Calendar arithmetic: `setFullYear(year - 3)` and `setDate(day - 21)` in local time, with leap-year and month-length rollover. It is the `Calendar` parameter. A threshold is assumed to be a valid time value.
- Date-string parsing by `new Date(string)`: it is the `parse` parameter, including the range limit on JavaScript time values.
- HubspotUtils.FindContactsWithOutdatedData: evaluates the threshold from one `now` for the whole list. The source builds a fresh `new Date()` for every element inside the callback (utils/hubspotUtils.js:124-128), so a long list may see slightly different thresholds.
- Analysis.Classify: classifies the outdated and the unlikely contacts against one shared `now`. The source reads the clock once per unlikely call (utils/hubspotUtils.js:136) and again inside every outdated callback (utils/hubspotUtils.js:125), so a run can see slightly different instants for the two filters.
- SlackUtils.NoRestoreLinkWithoutUnlikely: is weaker than "no block contains the restore phrase". It holds only when no missing or outdated entry itself contains the phrase, because those entries are copied into blocks 2 and 4 verbatim.
- JavaScript dynamic typing: property values other than strings or null, a missing `properties` object (a TypeError in the source), and a non-boolean `archived` are not modelled.
- Slack Block Kit payloads are modelled as datatypes (block type, text type, text). The JSON object shape is not modelled.
