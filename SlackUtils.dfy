/**
 * The Slack report layout (utils/slackUtils.js): a header, three labelled
 * result sections, and a restore link when archived contacts look suspicious.
 */
module SlackUtils {
  import opened Sequences

  /* ----------------------------------------------------------------------
   * Block Kit values
   * ---------------------------------------------------------------------- */

  datatype BlockType = Header | Section
  datatype TextType = PlainText | Mrkdwn
  datatype Text = Text(textType: TextType, text: string)
  datatype Block = Block(blockType: BlockType, text: Text)

  const REPORT_TITLE: string := "Bad Data Analysis Report"
  // The three labels are written in short pieces so that the verifier can
  // inspect their characters one piece at a time.
  const MISSING_VALUES_LABEL: string :=
    "*Contacts with " + "Missing Values " + "(missing email, " + "first name " + "or last name):*"
  const OUTDATED_DATA_LABEL: string :=
    "*Contacts with " + "Outdated Data " + "(last modified " + "more than " + "3 years ago):*"
  const UNLIKELY_DATA_LABEL: string :=
    "*Contacts with " + "Unlikely Data " + "(archived but " + "last modified " + "less than " + "3 weeks ago):*"
  const NONE: string := "None"
  const RESTORE_PHRASE: string := "You may restore archived contacts"
  const RECYCLING_BIN_PREFIX: string := " <https://app.hubspot.com/recycling-bin/"
  const RECYCLING_BIN_SUFFIX: string := "/restore/0-1|here>"

  function MrkdwnSection(text: string): Block {
    Block(Section, Text(Mrkdwn, text))
  }

  /** The text of a block. */
  function TextOf(b: Block): string {
    b.text.text
  }

  /**
   * `entries.join('\n') || 'None'`: the entries one per line, or "None" when
   * that join is the empty string.
   */
  function ContentText(entries: seq<string>): (r: string)
    ensures r != ""
    ensures r == NONE <==> entries == [] || entries == [""] || entries == [NONE]
  {
    JoinHasNewline(entries);
    var joined := Join(entries, "\n");
    if joined == "" then NONE else joined
  }

  /** A join of two or more entries has a newline right after the first entry. */
  lemma JoinHasNewline(entries: seq<string>)
    ensures |entries| >= 2 ==> Join(entries, "\n") != NONE
  {
    if |entries| >= 2 {
      var j := Join(entries, "\n");
      assert j[|entries[0]|] == '\n';
      assert '\n' !in NONE;
    }
  }

  /** The restore link for a portal. */
  function RestoreText(portalId: string): string {
    RESTORE_PHRASE + RECYCLING_BIN_PREFIX + portalId + RECYCLING_BIN_SUFFIX
  }

  /* ----------------------------------------------------------------------
   * generateSlackReportBlocks
   * ---------------------------------------------------------------------- */

  /** `generateSlackReportBlocks(missing, outdated, unlikely, portalId)`. */
  function GenerateSlackReportBlocks(missing: seq<string>, outdated: seq<string>, unlikely: seq<string>, portalId: string)
    : (blocks: seq<Block>)
    ensures |blocks| == if |unlikely| > 0 then 8 else 7
    ensures blocks[0] == Block(Header, Text(PlainText, REPORT_TITLE))
    ensures blocks[1] == MrkdwnSection(MISSING_VALUES_LABEL)
    ensures blocks[3] == MrkdwnSection(OUTDATED_DATA_LABEL)
    ensures blocks[5] == MrkdwnSection(UNLIKELY_DATA_LABEL)
    ensures blocks[2] == MrkdwnSection(ContentText(missing))
    ensures blocks[4] == MrkdwnSection(ContentText(outdated))
    ensures blocks[6] == MrkdwnSection(ContentText(unlikely))
    ensures |unlikely| > 0 ==> blocks[7] == MrkdwnSection(RESTORE_PHRASE + RECYCLING_BIN_PREFIX + portalId + RECYCLING_BIN_SUFFIX)
  {
    var base := [
      Block(Header, Text(PlainText, REPORT_TITLE)),
      MrkdwnSection(MISSING_VALUES_LABEL),
      MrkdwnSection(ContentText(missing)),
      MrkdwnSection(OUTDATED_DATA_LABEL),
      MrkdwnSection(ContentText(outdated)),
      MrkdwnSection(UNLIKELY_DATA_LABEL),
      MrkdwnSection(ContentText(unlikely))
    ];
    if |unlikely| > 0 then base + [MrkdwnSection(RestoreText(portalId))] else base
  }

  /** The header and the three labels sit at the same positions whatever the inputs. */
  lemma LayoutIsFixed(
    m1: seq<string>, o1: seq<string>, u1: seq<string>, p1: string,
    m2: seq<string>, o2: seq<string>, u2: seq<string>, p2: string)
    ensures var b1, b2 := GenerateSlackReportBlocks(m1, o1, u1, p1), GenerateSlackReportBlocks(m2, o2, u2, p2);
      b1[0] == b2[0] && b1[1] == b2[1] && b1[3] == b2[3] && b1[5] == b2[5]
  {
  }

  /**
   * The portal id shows only in the restore block: the first seven blocks are
   * the same for every portal, so appending the restore block leaves them as they were.
   */
  lemma PortalOnlyInRestoreBlock(missing: seq<string>, outdated: seq<string>, unlikely: seq<string>, p1: string, p2: string)
    ensures GenerateSlackReportBlocks(missing, outdated, unlikely, p1)[..7]
         == GenerateSlackReportBlocks(missing, outdated, unlikely, p2)[..7]
  {
  }

  /** Every entry of a category is listed, verbatim, in that category's content block. */
  lemma EntriesAreListed(missing: seq<string>, outdated: seq<string>, unlikely: seq<string>, portalId: string)
    ensures var blocks := GenerateSlackReportBlocks(missing, outdated, unlikely, portalId);
      && (forall k :: 0 <= k < |missing| ==> Contains(TextOf(blocks[2]), missing[k]))
      && (forall k :: 0 <= k < |outdated| ==> Contains(TextOf(blocks[4]), outdated[k]))
      && (forall k :: 0 <= k < |unlikely| ==> Contains(TextOf(blocks[6]), unlikely[k]))
  {
    forall k | 0 <= k < |missing| ensures Contains(ContentText(missing), missing[k]) {
      JoinAppearsInContent(missing, k);
    }
    forall k | 0 <= k < |outdated| ensures Contains(ContentText(outdated), outdated[k]) {
      JoinAppearsInContent(outdated, k);
    }
    forall k | 0 <= k < |unlikely| ensures Contains(ContentText(unlikely), unlikely[k]) {
      JoinAppearsInContent(unlikely, k);
    }
  }

  lemma JoinAppearsInContent(entries: seq<string>, k: nat)
    requires k < |entries|
    ensures Contains(ContentText(entries), entries[k])
  {
    JoinContainsEntry(entries, "\n", k);
    if Join(entries, "\n") == "" {
      assert entries[k] == "";
      assert OccursAt(NONE, entries[k], 0);
    }
  }

  /** A text that omits the phrase's first character "Y" cannot contain the phrase. */
  lemma FixedTextsLackRestorePhrase()
    ensures !Contains(REPORT_TITLE, RESTORE_PHRASE)
    ensures !Contains(MISSING_VALUES_LABEL, RESTORE_PHRASE)
    ensures !Contains(OUTDATED_DATA_LABEL, RESTORE_PHRASE)
    ensures !Contains(UNLIKELY_DATA_LABEL, RESTORE_PHRASE)
    ensures !Contains(NONE, RESTORE_PHRASE)
  {
    FirstCharAbsent(REPORT_TITLE, RESTORE_PHRASE);
    FirstCharAbsent(MISSING_VALUES_LABEL, RESTORE_PHRASE);
    FirstCharAbsent(OUTDATED_DATA_LABEL, RESTORE_PHRASE);
    FirstCharAbsent(UNLIKELY_DATA_LABEL, RESTORE_PHRASE);
    FirstCharAbsent(NONE, RESTORE_PHRASE);
  }

  /** A content block contains the restore phrase only if one of its entries does. */
  lemma ContentPhraseFromEntry(entries: seq<string>)
    requires forall k :: 0 <= k < |entries| ==> !Contains(entries[k], RESTORE_PHRASE)
    ensures !Contains(ContentText(entries), RESTORE_PHRASE)
  {
    if Join(entries, "\n") == "" {
      FixedTextsLackRestorePhrase();
    } else if Contains(Join(entries, "\n"), RESTORE_PHRASE) {
      JoinOccurrenceInEntry(entries, '\n', RESTORE_PHRASE);
      assert false;
    }
  }

  /** Without unlikely entries the report ends after the unlikely section, which reads "None" and offers no restore link. */
  lemma NoUnlikelyEndsWithNone(missing: seq<string>, outdated: seq<string>, portalId: string)
    ensures var blocks := GenerateSlackReportBlocks(missing, outdated, [], portalId);
      && |blocks| == 7
      && TextOf(blocks[|blocks| - 1]) == NONE
      && !Contains(TextOf(blocks[|blocks| - 1]), RESTORE_PHRASE)
  {
    FixedTextsLackRestorePhrase();
  }

  /**
   * Without unlikely contacts no block offers the restore link, unless some
   * caller-supplied entry itself spells the phrase.
   */
  lemma NoRestoreLinkWithoutUnlikely(missing: seq<string>, outdated: seq<string>, portalId: string)
    requires forall k :: 0 <= k < |missing| ==> !Contains(missing[k], RESTORE_PHRASE)
    requires forall k :: 0 <= k < |outdated| ==> !Contains(outdated[k], RESTORE_PHRASE)
    ensures var blocks := GenerateSlackReportBlocks(missing, outdated, [], portalId);
      && |blocks| == 7
      && TextOf(blocks[6]) == "None"
      && forall k :: 0 <= k < |blocks| ==> !Contains(TextOf(blocks[k]), RESTORE_PHRASE)
  {
    var blocks := GenerateSlackReportBlocks(missing, outdated, [], portalId);
    FixedTextsLackRestorePhrase();
    ContentPhraseFromEntry(missing);
    ContentPhraseFromEntry(outdated);
    forall k | 0 <= k < |blocks| ensures !Contains(TextOf(blocks[k]), RESTORE_PHRASE) {
      if k == 6 {
        assert TextOf(blocks[k]) == NONE;
      }
    }
  }

  /** With unlikely contacts the last block offers the restore link for the given portal. */
  lemma RestoreLinkWithUnlikely(missing: seq<string>, outdated: seq<string>, unlikely: seq<string>, portalId: string)
    requires |unlikely| > 0
    ensures var blocks := GenerateSlackReportBlocks(missing, outdated, unlikely, portalId);
      && |blocks| == 8
      && Contains(TextOf(blocks[|blocks| - 1]), RESTORE_PHRASE)
      && Contains(TextOf(blocks[|blocks| - 1]), portalId)
  {
    var t := RestoreText(portalId);
    var n := |RESTORE_PHRASE| + |RECYCLING_BIN_PREFIX|;
    assert t[..|RESTORE_PHRASE|] == RESTORE_PHRASE;
    assert OccursAt(t, RESTORE_PHRASE, 0);
    assert t[n..n + |portalId|] == portalId;
    assert OccursAt(t, portalId, n);
  }
}
