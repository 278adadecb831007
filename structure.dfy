/**
 * `transcript.structure_content`: turning the entries of one section into
 * paragraph records. The latest speaker name is carried forward; every text
 * entry becomes one record attributed to it, with the speaker's title and role
 * looked up in the participant roster; and a text holding "Operator
 * Instructions" is always attributed to the operator. `parse_contents` then
 * numbers the records of each section from 0.
 */
module Structure {
  import opened Wrappers
  import opened PyText
  import opened RawContent
  import opened Roster

  /** A paragraph record: the columns `speaker`, `speaker_title` (None where
      the roster has no title for the speaker), `speaker_role` and `text`. */
  datatype Row = Row(speaker: string, speakerTitle: Option<string>, speakerRole: string, text: string)

  /** The phrase that marks an operator announcement. */
  const OperatorInstructions: string := "Operator Instructions"

  // ---------------------------------------------------------------------------
  // The role of a speaker

  /** The position of the last role, in roster order, whose list holds `name`. */
  function LastRoleIndex(roles: seq<RoleList>, name: string): (r: Option<nat>)
    ensures r.Some? ==> r.value < |roles| && name in roles[r.value].names
    ensures r.Some? ==> forall k :: r.value < k < |roles| ==> name !in roles[k].names
    ensures r.None? <==> forall k :: 0 <= k < |roles| ==> name !in roles[k].names
    decreases |roles|
  {
    if roles == [] then None
    else if name in roles[|roles| - 1].names then Some(|roles| - 1)
    else
      var r := LastRoleIndex(roles[..|roles| - 1], name);
      assert forall k :: 0 <= k < |roles| - 1 ==> roles[..|roles| - 1][k] == roles[k];
      r
  }

  /** The role recorded for `name`: the last matching role, "" if none. */
  function SpeakerRole(roles: seq<RoleList>, name: string): string {
    match LastRoleIndex(roles, name)
    case None => ""
    case Some(k) => roles[k].role
  }

  /** The role is "" exactly when no list holds the name (roles are never ""
      in a roster, whose keys are role headings); otherwise it is the role of
      a list that holds the name and no later list holds it. */
  lemma SpeakerRoleSpec(roles: seq<RoleList>, name: string)
    ensures (forall k :: 0 <= k < |roles| ==> name !in roles[k].names) ==> SpeakerRole(roles, name) == ""
    ensures (exists k :: 0 <= k < |roles| && name in roles[k].names) ==>
              exists k :: 0 <= k < |roles| && name in roles[k].names && SpeakerRole(roles, name) == roles[k].role &&
                forall j :: k < j < |roles| ==> name !in roles[j].names
  {
  }

  // ---------------------------------------------------------------------------
  // The records

  /** The record for a text entry `text` said by `speaker`. */
  function MakeRow(speaker: string, text: string, roles: seq<RoleList>, titles: map<string, string>): (r: Row)
    ensures '\n' !in r.text && |r.text| == |text|
  {
    var t := NewlinesToSpaces(text);
    if Contains(t, OperatorInstructions) then Row("Operator", Some(""), "", t)
    else Row(speaker, Get(titles, speaker), SpeakerRole(roles, speaker), t)
  }

  /** The speaker in force after `raw`: the newline-normalised text of the
      latest speaker entry, "" before any. */
  function CurrentSpeaker(raw: seq<RawEntry>): string
    decreases |raw|
  {
    if raw == [] then ""
    else if raw[|raw| - 1].kind == Speaker then NewlinesToSpaces(raw[|raw| - 1].text)
    else CurrentSpeaker(raw[..|raw| - 1])
  }

  /** The records of `raw`: one per text entry, in order. */
  function Structured(raw: seq<RawEntry>, roles: seq<RoleList>, titles: map<string, string>): seq<Row>
    decreases |raw|
  {
    if raw == [] then []
    else
      var init := raw[..|raw| - 1];
      var e := raw[|raw| - 1];
      Structured(init, roles, titles) + if e.kind == Text then [MakeRow(CurrentSpeaker(init), e.text, roles, titles)] else []
  }

  /** `structure_content` over the entries of one section, with the roster
      `roles` (`call_participants`) and `titles` (`call_participants_titles`). */
  method StructureContent(raw: seq<RawEntry>, roles: seq<RoleList>, titles: map<string, string>) returns (rows: seq<Row>)
    ensures rows == Structured(raw, roles, titles)
  {
    rows := [];
    var currentSpeaker := "";
    var currentSpeakerTitle := "";  // tracked by the source, never part of a record
    for i := 0 to |raw|
      invariant rows == Structured(raw[..i], roles, titles)
      invariant currentSpeaker == CurrentSpeaker(raw[..i])
    {
      var entry := raw[i];
      assert raw[..i + 1][..i] == raw[..i];
      if entry.kind == Speaker {
        currentSpeaker := NewlinesToSpaces(entry.text);
        currentSpeakerTitle := "";
      }
      if entry.kind == SpeakerTitle {
        currentSpeakerTitle := NewlinesToSpaces(entry.text);
      }
      if entry.kind == Text {
        var speakerRole := "";
        for k := 0 to |roles|
          invariant speakerRole == SpeakerRole(roles[..k], currentSpeaker)
        {
          assert roles[..k + 1][..k] == roles[..k];
          if currentSpeaker in roles[k].names {
            speakerRole := roles[k].role;
          }
        }
        assert roles[..|roles|] == roles;
        var row := Row(currentSpeaker, Get(titles, currentSpeaker), speakerRole, NewlinesToSpaces(entry.text));
        if Contains(row.text, OperatorInstructions) {
          row := Row("Operator", Some(""), "", row.text);
        }
        rows := rows + [row];
      }
    }
    assert raw[..|raw|] == raw;
  }

  // ---------------------------------------------------------------------------
  // What the records promise

  /** How many text entries `raw` has. */
  function CountText(raw: seq<RawEntry>): nat
    decreases |raw|
  {
    if raw == [] then 0 else CountText(raw[..|raw| - 1]) + if raw[|raw| - 1].kind == Text then 1 else 0
  }

  /** One record per text entry. */
  lemma {:induction false} RowCount(raw: seq<RawEntry>, roles: seq<RoleList>, titles: map<string, string>)
    ensures |Structured(raw, roles, titles)| == CountText(raw)
    decreases |raw|
  {
    if raw != [] {
      RowCount(raw[..|raw| - 1], roles, titles);
    }
  }

  /** The text entry at position `j` gives the record that follows those of
      the text entries before it, attributed to the speaker in force there. */
  lemma {:induction false} RowOfEntry(raw: seq<RawEntry>, roles: seq<RoleList>, titles: map<string, string>, j: int)
    requires 0 <= j < |raw| && raw[j].kind == Text
    ensures CountText(raw[..j]) < |Structured(raw, roles, titles)|
    ensures Structured(raw, roles, titles)[CountText(raw[..j])] ==
              MakeRow(CurrentSpeaker(raw[..j]), raw[j].text, roles, titles)
    decreases |raw|
  {
    var n := |raw| - 1;
    var init := raw[..n];
    RowCount(init, roles, titles);
    if j == n {
      assert raw[..j] == init;
    } else {
      RowOfEntry(init, roles, titles, j);
      assert init[..j] == raw[..j];
      assert init[j] == raw[j];
    }
  }

  /** The record of a text entry: an operator announcement is attributed to
      the operator with an empty title and role; any other text to the
      current speaker, with the roster's title for that name (None if it has
      none) and its last matching role. The text has its newlines made spaces. */
  lemma RowFields(speaker: string, text: string, roles: seq<RoleList>, titles: map<string, string>)
    ensures var r := MakeRow(speaker, text, roles, titles);
            && r.text == NewlinesToSpaces(text)
            && (Contains(r.text, OperatorInstructions) ==> r.speaker == "Operator" && r.speakerTitle == Some("") && r.speakerRole == "")
            && (!Contains(r.text, OperatorInstructions) ==>
                  && r.speaker == speaker
                  && (r.speakerTitle.Some? <==> speaker in titles)
                  && (speaker in titles ==> r.speakerTitle == Some(titles[speaker]))
                  && r.speakerRole == SpeakerRole(roles, speaker))
  {
  }

  /** The entries without their speaker-title entries. */
  function WithoutTitles(raw: seq<RawEntry>): seq<RawEntry>
    decreases |raw|
  {
    if raw == [] then []
    else WithoutTitles(raw[..|raw| - 1]) + if raw[|raw| - 1].kind == SpeakerTitle then [] else [raw[|raw| - 1]]
  }

  /** Speaker-title entries never reach the output: dropping them changes
      neither the speaker in force nor the records. */
  lemma {:induction false} TitlesIgnored(raw: seq<RawEntry>, roles: seq<RoleList>, titles: map<string, string>)
    ensures CurrentSpeaker(WithoutTitles(raw)) == CurrentSpeaker(raw)
    ensures Structured(WithoutTitles(raw), roles, titles) == Structured(raw, roles, titles)
    decreases |raw|
  {
    if raw != [] {
      var init := raw[..|raw| - 1];
      var e := raw[|raw| - 1];
      TitlesIgnored(init, roles, titles);
      if e.kind != SpeakerTitle {
        var w := WithoutTitles(init) + [e];
        assert w[..|w| - 1] == WithoutTitles(init);
      } else {
        assert WithoutTitles(raw) == WithoutTitles(init) + [] == WithoutTitles(init);
        assert CurrentSpeaker(raw) == CurrentSpeaker(init);
        assert Structured(raw, roles, titles) == Structured(init, roles, titles) + [] == Structured(init, roles, titles);
      }
    }
  }

  // ---------------------------------------------------------------------------
  // The paragraph index

  /** A record of a section's table: `Title`, `ROUND`, `Paragraph` and the
      record's columns. */
  datatype Paragraph = Paragraph(title: string, round: string, index: nat, row: Row)

  /** The section's records with the three columns `parse_contents` inserts. */
  function Numbered(rows: seq<Row>, title: string, round: string): (r: seq<Paragraph>)
    ensures |r| == |rows|
    ensures forall i :: 0 <= i < |r| ==> r[i] == Paragraph(title, round, i, rows[i])
    decreases |rows|
  {
    if rows == [] then []
    else
      var init := Numbered(rows[..|rows| - 1], title, round);
      init + [Paragraph(title, round, |rows| - 1, rows[|rows| - 1])]
  }
}
