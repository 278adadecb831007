/**
 * The `transcript` object: the fields `parse` and `parse_contents` fill in,
 * and the two methods, which tie the section split, the roster, the content
 * extraction, the structuring and the paragraph index together.
 *
 * The converted HTML and what BeautifulSoup finds in it are inputs: `html` is
 * the text the PDF conversion gives, `contentSpans` the " font-size:10px"
 * spans of a section, `rosterSpans` the "font-size:10px" spans of the text
 * before the presentation with their following siblings, and the three
 * metadata searches are given by their results.
 */
module Transcripts {
  import opened Wrappers
  import opened PyText
  import opened Spans
  import opened SectionSplit
  import opened RawContent
  import opened Roster
  import opened Structure
  import opened SoupText

  /** The `ROUND` column of the two tables. */
  const PresentationRound: string := "Presentation"
  const QARound: string := "QA"

  /** The exceptions that escape `parse_contents`: `in` on a document that was
      never set (TypeError), the section split's IndexError and the roster's
      UnboundLocalError. Failures inside a section are caught and printed. */
  datatype ParseError = NoDocument | SectionsFailed(splitError: SplitError) | RosterFailed(rosterError: RosterError)

  /** A parsed section: its raw entries and its numbered paragraphs. */
  datatype Section = Section(contents: seq<RawEntry>, paragraphs: seq<Paragraph>)

  /** What `parse_contents` computes before it assigns the fields. */
  datatype Contents = Contents(roster: Participants, presentation: Result<Section, ExtractError>,
                               qa: Result<Section, ExtractError>)

  /** The body of one of the two `try` blocks of `parse_contents`. */
  function SectionOf(spans: seq<Span>, roster: Participants, callTitle: string, round: string): Result<Section, ExtractError> {
    match RawContentOf(spans)
    case Err(e) => Err(e)
    case Ok(raw) => Ok(Section(raw, Numbered(Structured(raw, roster.roles, roster.titles), callTitle, round)))
  }

  /** One of the two `try` blocks of `parse_contents`: the section's entries,
      then its records numbered from 0. */
  method ParseSection(spans: seq<Span>, roster: Participants, callTitle: string, round: string)
    returns (r: Result<Section, ExtractError>)
    ensures r == SectionOf(spans, roster, callTitle, round)
  {
    var raw := SoupToRawContent(spans);
    if raw.Err? {
      return Err(raw.error);
    }
    var rows := StructureContent(raw.value, roster.roles, roster.titles);
    r := Ok(Section(raw.value, Numbered(rows, callTitle, round)));
  }

  /** What `parse_contents` computes from a document: the section split, the
      roster, then the two sections. */
  method ParseDocument(html: string, markers: Markers, callTitle: string, contentSpans: string -> seq<Span>,
                       rosterSpans: string -> seq<RosterSpan>)
    returns (r: Result<Contents, ParseError>)
    requires NonEmptyMarkers(markers)
    ensures r == ContentsOf(Some(html), markers, callTitle, contentSpans, rosterSpans)
  {
    var sections := SeparatePresentationQA(html, markers);
    if sections.Err? {
      return Err(SectionsFailed(sections.error));
    }
    var s := sections.value;
    var participants := GetCallParticipants(rosterSpans(s.beforePresentation));
    if participants.Err? {
      return Err(RosterFailed(participants.error));
    }
    var roster := participants.value;
    var presentation := ParseSection(contentSpans(s.presentation), roster, callTitle, PresentationRound);
    var qa := ParseSection(contentSpans(s.qa), roster, callTitle, QARound);
    r := Ok(Contents(roster, presentation, qa));
  }

  /** `parse_contents` on the document `html`, as a value. */
  function ContentsOf(html: Option<string>, markers: Markers, callTitle: string, contentSpans: string -> seq<Span>,
                      rosterSpans: string -> seq<RosterSpan>): Result<Contents, ParseError>
    requires NonEmptyMarkers(markers)
  {
    if html.None? then Err(NoDocument)
    else
      match SeparatePresentationQA(html.value, markers)
      case Err(e) => Err(SectionsFailed(e))
      case Ok(s) =>
        match ParticipantsOf(rosterSpans(s.beforePresentation))
        case Err(e) => Err(RosterFailed(e))
        case Ok(p) =>
          Ok(Contents(p, SectionOf(contentSpans(s.presentation), p, callTitle, PresentationRound),
                         SectionOf(contentSpans(s.qa), p, callTitle, QARound)))
  }

  /** The fields `parse_contents` assigns. */
  datatype ContentFields = ContentFields(
    callParticipants: Option<seq<RoleList>>, callParticipantsTitles: Option<map<string, string>>,
    presentationContents: Option<seq<RawEntry>>, presentationParagraphs: Option<seq<Paragraph>>,
    qaContents: Option<seq<RawEntry>>, qaParagraphs: Option<seq<Paragraph>>)

  /** The fields after `parse_contents`: nothing changes when an exception
      escapes; otherwise the roster is set, and each section's fields are set
      when its block succeeds and keep their values when it raises. */
  function Applied(before: ContentFields, outcome: Result<Contents, ParseError>): ContentFields {
    match outcome
    case Err(_) => before
    case Ok(c) =>
      ContentFields(
        Some(c.roster.roles), Some(c.roster.titles),
        if c.presentation.Ok? then Some(c.presentation.value.contents) else before.presentationContents,
        if c.presentation.Ok? then Some(c.presentation.value.paragraphs) else before.presentationParagraphs,
        if c.qa.Ok? then Some(c.qa.value.contents) else before.qaContents,
        if c.qa.Ok? then Some(c.qa.value.paragraphs) else before.qaParagraphs)
  }

  function ErrorOf(outcome: Result<Contents, ParseError>): Option<ParseError> {
    match outcome
    case Err(e) => Some(e)
    case Ok(_) => None
  }

  /** The result of `find`: no tag or one tag. */
  function FindOne(tag: Option<string>): FindResult {
    match tag
    case None => NoMatch
    case Some(text) => OneTag(text)
  }

  class Transcript {
    /** The stem of the PDF's file name. */
    const callTitle: string
    /** The presentation, QA and end markers. */
    const markers: Markers
    var html: Option<string>
    var firmFullName: Option<string>
    var firmName: Option<string>
    var ticker: Option<string>
    var callType: Option<string>
    var timeRaw: Option<string>
    var callParticipants: Option<seq<RoleList>>
    var callParticipantsTitles: Option<map<string, string>>
    var presentationContents: Option<seq<RawEntry>>
    var qaContents: Option<seq<RawEntry>>
    var presentationParagraphs: Option<seq<Paragraph>>
    var qaParagraphs: Option<seq<Paragraph>>

    function Fields(): ContentFields
      reads this
    {
      ContentFields(callParticipants, callParticipantsTitles, presentationContents, presentationParagraphs,
                    qaContents, qaParagraphs)
    }

    /** `transcript(pdf_path)`: every field but the title and the markers
        starts as None. */
    constructor(callTitle: string)
      ensures this.callTitle == callTitle && markers == DefaultMarkers && NonEmptyMarkers(markers)
      ensures html.None? && firmFullName.None? && firmName.None? && ticker.None? && callType.None? && timeRaw.None?
      ensures Fields() == ContentFields(None, None, None, None, None, None)
    {
      this.callTitle := callTitle;
      markers := DefaultMarkers;
      DefaultMarkersNonEmpty();
      html := None;
      firmFullName, firmName, ticker := None, None, None;
      callType, timeRaw := None, None;
      callParticipants, callParticipantsTitles := None, None;
      presentationContents, qaContents := None, None;
      presentationParagraphs, qaParagraphs := None, None;
    }

    /** `parse_contents`. */
    method ParseContents(contentSpans: string -> seq<Span>, rosterSpans: string -> seq<RosterSpan>)
      returns (err: Option<ParseError>)
      requires NonEmptyMarkers(markers)
      modifies this`callParticipants, this`callParticipantsTitles, this`presentationContents,
               this`presentationParagraphs, this`qaContents, this`qaParagraphs
      ensures err == ErrorOf(ContentsOf(html, markers, callTitle, contentSpans, rosterSpans))
      ensures Fields() == Applied(old(Fields()), ContentsOf(html, markers, callTitle, contentSpans, rosterSpans))
    {
      if html.None? {
        return Some(NoDocument);
      }
      var outcome := ParseDocument(html.value, markers, callTitle, contentSpans, rosterSpans);
      if outcome.Err? {
        return Some(outcome.error);
      }
      var c := outcome.value;
      callParticipants, callParticipantsTitles := Some(c.roster.roles), Some(c.roster.titles);
      if c.presentation.Ok? {
        presentationContents := Some(c.presentation.value.contents);
        presentationParagraphs := Some(c.presentation.value.paragraphs);
      }
      if c.qa.Ok? {
        qaContents := Some(c.qa.value.contents);
        qaParagraphs := Some(c.qa.value.paragraphs);
      }
      err := None;
    }

    /** The metadata part of `parse`: the document, the firm name (all the
        firm-name tags), split into name and ticker, the call type and the raw
        date (the first matching tag of each). */
    method ParseMetadata(html: string, firmTags: seq<string>, callTypeTag: Option<string>, dateTag: Option<string>)
      modifies this`html, this`firmFullName, this`firmName, this`ticker, this`callType, this`timeRaw
      ensures this.html == Some(html)
      ensures firmFullName == Some(SoupToText(TagList(firmTags)))
      ensures firmName == Some(Join(NameTokens(Words(SoupToText(TagList(firmTags)))), " "))
      ensures ticker == TickerOf(Words(SoupToText(TagList(firmTags))), old(ticker))
      ensures callType == Some(SoupToText(FindOne(callTypeTag)))
      ensures timeRaw == Some(SoupToText(FindOne(dateTag)))
    {
      this.html := Some(html);
      var fullName := SoupToText(TagList(firmTags));
      firmFullName := Some(fullName);
      var name, newTicker := SplitFirmName(fullName, ticker);
      firmName, ticker := Some(name), newTicker;
      callType := Some(SoupToText(FindOne(callTypeTag)));
      timeRaw := Some(SoupToText(FindOne(dateTag)));
    }

    /** `parse`, from the converted document on: the metadata, then
        `parse_contents`. */
    method Parse(html: string, firmTags: seq<string>, callTypeTag: Option<string>, dateTag: Option<string>,
                 contentSpans: string -> seq<Span>, rosterSpans: string -> seq<RosterSpan>)
      returns (err: Option<ParseError>)
      requires NonEmptyMarkers(markers)
      modifies this
      ensures this.html == Some(html)
      ensures firmFullName == Some(SoupToText(TagList(firmTags)))
      ensures firmName == Some(Join(NameTokens(Words(SoupToText(TagList(firmTags)))), " "))
      ensures ticker == TickerOf(Words(SoupToText(TagList(firmTags))), old(ticker))
      ensures callType == Some(SoupToText(FindOne(callTypeTag)))
      ensures timeRaw == Some(SoupToText(FindOne(dateTag)))
      ensures err == ErrorOf(ContentsOf(Some(html), markers, callTitle, contentSpans, rosterSpans))
      ensures Fields() == Applied(old(Fields()), ContentsOf(Some(html), markers, callTitle, contentSpans, rosterSpans))
    {
      ParseMetadata(html, firmTags, callTypeTag, dateTag);
      err := ParseContents(contentSpans, rosterSpans);
    }
  }

  // ---------------------------------------------------------------------------
  // What a parsed transcript promises

  /** The paragraphs of a section carry the call title, the round and the
      indices 0 to n-1 in order, one per text entry of the section. */
  lemma SectionParagraphs(spans: seq<Span>, roster: Participants, callTitle: string, round: string)
    requires SectionOf(spans, roster, callTitle, round).Ok?
    ensures var sec := SectionOf(spans, roster, callTitle, round).value;
            && |sec.paragraphs| == CountText(sec.contents)
            && forall i :: 0 <= i < |sec.paragraphs| ==>
                 sec.paragraphs[i].index == i && sec.paragraphs[i].title == callTitle && sec.paragraphs[i].round == round
  {
    var raw := RawContentOf(spans).value;
    RowCount(raw, roster.roles, roster.titles);
  }

  /** A section without spans has no entries and no paragraphs. */
  lemma EmptySection(roster: Participants, callTitle: string, round: string)
    ensures SectionOf([], roster, callTitle, round) == Ok(Section([], []))
  {
    assert RawContentOf([]) == Ok([]);
  }

  /** Without a presentation marker all three parts are empty: with no spans
      in an empty text, the roster and both sections are empty. */
  lemma NoPresentationMarker(html: string, markers: Markers, callTitle: string, contentSpans: string -> seq<Span>,
                             rosterSpans: string -> seq<RosterSpan>)
    requires NonEmptyMarkers(markers)
    requires !Contains(html, markers.presentationStart)
    requires contentSpans("") == [] && rosterSpans("") == []
    ensures ContentsOf(Some(html), markers, callTitle, contentSpans, rosterSpans) ==
              Ok(Contents(Participants([], map[]), Ok(Section([], [])), Ok(Section([], []))))
  {
    NoExecutivesNoRoster([]);
    EmptySection(Participants([], map[]), callTitle, PresentationRound);
    EmptySection(Participants([], map[]), callTitle, QARound);
  }

  /** Without a QA marker the QA section is empty and raises nothing. */
  lemma NoQAMarker(html: string, markers: Markers, callTitle: string, contentSpans: string -> seq<Span>,
                   rosterSpans: string -> seq<RosterSpan>)
    requires NonEmptyMarkers(markers)
    requires Contains(html, markers.presentationStart) && !Contains(html, markers.qaStart)
    requires contentSpans("") == []
    ensures var c := ContentsOf(Some(html), markers, callTitle, contentSpans, rosterSpans);
            c.Ok? || c == Err(RosterFailed(RoleUnbound))
    ensures var c := ContentsOf(Some(html), markers, callTitle, contentSpans, rosterSpans);
            c.Ok? ==> c.value.qa == Ok(Section([], []))
  {
    var split := SeparatePresentationQA(html, markers);
    SeparatePresentationQASpec(html, markers);
    assert split.Ok? && split.value.qa == "";
    match ParticipantsOf(rosterSpans(split.value.beforePresentation))
    case Err(e) =>
      assert e == RoleUnbound;
    case Ok(p) =>
      EmptySection(p, callTitle, QARound);
  }

  /** A presentation holding one speaker line and one text line, with no
      roster and no QA section, gives one paragraph with index 0 spoken by
      that speaker, and no QA paragraph. */
  lemma OneSpeakerOneParagraph(html: string, markers: Markers, callTitle: string, contentSpans: string -> seq<Span>,
                               rosterSpans: string -> seq<RosterSpan>, speaker: string, text: string)
    requires NonEmptyMarkers(markers)
    requires Contains(html, markers.presentationStart) && !Contains(html, markers.qaStart)
    requires contentSpans(SeparatePresentationQA(html, markers).value.presentation) == [Span(Bold10, speaker), Span(Plain10, text)]
    requires contentSpans("") == []
    requires rosterSpans(SeparatePresentationQA(html, markers).value.beforePresentation) == []
    requires !IsBoilerplate(Strip(speaker)) && Opening(Strip(text))
    requires !Contains(NewlinesToSpaces(Strip(text)), OperatorInstructions)
    ensures var c := ContentsOf(Some(html), markers, callTitle, contentSpans, rosterSpans);
            && c.Ok?
            && c.value.presentation.Ok?
            && c.value.presentation.value.paragraphs ==
                 [Paragraph(callTitle, PresentationRound, 0,
                            Row(NewlinesToSpaces(Strip(speaker)), None, "", NewlinesToSpaces(Strip(text))))]
            && c.value.qa == Ok(Section([], []))
  {
    var split := SeparatePresentationQA(html, markers);
    SeparatePresentationQASpec(html, markers);
    assert split.Ok? && split.value.qa == "";
    NoExecutivesNoRoster([]);
    EmptySection(Participants([], map[]), callTitle, QARound);
    SpeakerThenText(speaker, text);
    var raw := [RawEntry(Speaker, Strip(speaker)), RawEntry(Text, Strip(text))];
    assert raw[..1] == [raw[0]] && raw[..0] == [];
    assert CurrentSpeaker(raw[..1]) == NewlinesToSpaces(Strip(speaker));
    assert Structured(raw, [], map[]) == [MakeRow(NewlinesToSpaces(Strip(speaker)), Strip(text), [], map[])];
  }
}
