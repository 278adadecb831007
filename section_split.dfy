/**
 * Splitting the converted HTML of a transcript into the text before the
 * presentation (which holds the participant roster), the presentation and the
 * question-and-answer section, by literal search for three fixed markers.
 */
module SectionSplit {
  import opened Wrappers
  import opened PyText

  /** The three markers a transcript is created with: the heading that opens
      the presentation, the heading that opens the question-and-answer
      section, and the start of the disclaimer that closes every transcript. */
  datatype Markers = Markers(presentationStart: string, qaStart: string, end: string)

  /** The markers are split on, and `split` refuses an empty separator. */
  predicate NonEmptyMarkers(m: Markers) {
    m.presentationStart != [] && m.qaStart != [] && m.end != []
  }

  const PresentationStartMarker: string :=
    "<span style=\"font-family: Verdana-Bold; font-size:24px\">Presentation\n<br></span></div>"

  const QAStartMarker: string :=
    "<span style=\"font-family: Verdana-Bold; font-size:24px\">Question and Answer\n<br></span></div>"

  const EndMarker: string :=
    "<span style=\"font-family: Verdana; font-size:8px\">These materials have been prepared solely for information purposes based upon information generally available to the public"

  const DefaultMarkers: Markers := Markers(PresentationStartMarker, QAStartMarker, EndMarker)

  lemma DefaultMarkersNonEmpty()
    ensures NonEmptyMarkers(DefaultMarkers)
  {
  }

  datatype Sections = Sections(beforePresentation: string, presentation: string, qa: string)

  /** The QA marker occurs in the document, but not between the first and the
      second presentation marker: `split(QA_start_marker)[1]` raises IndexError. */
  datatype SplitError = QAMarkerNotAfterPresentation

  /** The document starts with `before`, which holds no start of a
      presentation marker `sm`, and then with the marker. */
  ghost predicate Leads(html: string, sm: string, before: string) {
    && OccursAt(html, before, 0)
    && (forall j :: 0 <= j < |before| ==> !OccursAt(html, sm, j))
    && OccursAt(html, sm, |before|)
  }

  /** Without a QA marker: no QA text, and the presentation, which ends at
      `pe`, holds no End marker `em` and runs to the end of the document, to
      an End marker or to a second presentation marker `sm`. */
  ghost predicate PresentationOnly(html: string, sm: string, em: string, pe: int, s: Sections) {
    && s.qa == ""
    && !Contains(s.presentation, em)
    && (pe == |html| || OccursAt(html, em, pe) || OccursAt(html, sm, pe))
  }

  /** With a QA marker `qm`: it follows the presentation, which ends at `pe`,
      and the QA text follows it and runs to the end of the document, to an
      End marker `em`, or to a second QA or presentation marker. */
  ghost predicate QAFollows(html: string, sm: string, qm: string, em: string, pe: int, qa: string) {
    && OccursAt(html, qm, pe)
    && OccursAt(html, qa, pe + |qm|)
    && var qe := pe + |qm| + |qa|;
       qe == |html| || OccursAt(html, em, qe) || OccursAt(html, qm, qe) || OccursAt(html, sm, qe)
  }

  /** What the split promises for markers `sm` (presentation start), `qm`
      (QA start) and `em` (end), once the presentation marker was found: the
      text before it, then the marker, then the presentation, which holds
      neither marker; a QA text holding none of the three markers; and
      where each part ends. */
  ghost predicate WellSplit(html: string, sm: string, qm: string, em: string, s: Sections) {
    var pres := |s.beforePresentation| + |sm|;
    var pe := pres + |s.presentation|;
    && Leads(html, sm, s.beforePresentation)
    && OccursAt(html, s.presentation, pres)
    && !Contains(s.presentation, sm)
    && !Contains(s.presentation, qm)
    && !Contains(s.qa, sm)
    && !Contains(s.qa, qm)
    && !Contains(s.qa, em)
    && (!Contains(html, qm) ==> PresentationOnly(html, sm, em, pe, s))
    && (Contains(html, qm) ==> QAFollows(html, sm, qm, em, pe, s.qa))
  }

  /** `transcript.seperate_presentation_QA` on the document `html`, with the
      transcript's markers `m`. */
  function SeparatePresentationQA(html: string, m: Markers): Result<Sections, SplitError>
    requires NonEmptyMarkers(m)
  {
    var sm, qm, em := m.presentationStart, m.qaStart, m.end;
    if !Contains(html, sm) then
      Ok(Sections("", "", ""))
    else
      var after := SecondField(html, sm).value;
      if Contains(html, qm) then
        match SecondField(after, qm)
        case None => Err(QAMarkerNotAfterPresentation)
        case Some(qaField) => Ok(Sections(BeforeFirst(html, sm), BeforeFirst(after, qm), BeforeFirst(qaField, em)))
      else
        Ok(Sections(BeforeFirst(html, sm), BeforeFirst(after, em), ""))
  }

  /** Without a presentation marker all three parts are empty; the split
      raises exactly when the QA marker occurs in the document but not in the
      text after the first presentation marker; otherwise the parts are where
      `WellSplit` says. */
  lemma SeparatePresentationQASpec(html: string, m: Markers)
    requires NonEmptyMarkers(m)
    ensures var r := SeparatePresentationQA(html, m);
            && (!Contains(html, m.presentationStart) ==> r == Ok(Sections("", "", "")))
            && (r.Err? <==>
                  && Contains(html, m.presentationStart)
                  && Contains(html, m.qaStart)
                  && !Contains(SecondField(html, m.presentationStart).value, m.qaStart))
            && (r.Ok? && Contains(html, m.presentationStart) ==>
                  WellSplit(html, m.presentationStart, m.qaStart, m.end, r.value))
  {
    var sm, qm, em := m.presentationStart, m.qaStart, m.end;
    if Contains(html, sm) {
      if Contains(html, qm) && Contains(SecondField(html, sm).value, qm) {
        WithQAMarker(html, sm, qm, em);
      } else if !Contains(html, qm) {
        WithoutQAMarker(html, sm, qm, em);
      }
    }
  }

  /** What `s.split(p)[0]` gives: `before`, a prefix of `s` without `p`,
      which ends at the end of `s` or where `p` occurs. */
  ghost predicate Head(s: string, p: string, before: string) {
    && OccursAt(s, before, 0)
    && !Contains(before, p)
    && (|before| == |s| || OccursAt(s, p, |before|))
  }

  /** What `s.split(p)[0]` and `s.split(p)[1]` give when `p` occurs in `s`:
      `before` is followed by `p` and holds no start of it, and `after`
      follows and holds no `p` and runs to the next `p` or to the end. */
  ghost predicate Cut(s: string, p: string, before: string, after: string) {
    && Head(s, p, before)
    && Leads(s, p, before)
    && OccursAt(s, after, |before| + |p|)
    && !Contains(after, p)
    && (|before| + |p| + |after| == |s| || OccursAt(s, p, |before| + |p| + |after|))
  }

  lemma HeadOf(s: string, p: string)
    requires p != []
    ensures Head(s, p, BeforeFirst(s, p))
  {
    BeforeFirstEnds(s, p);
  }

  lemma CutOf(s: string, p: string)
    requires p != [] && Contains(s, p)
    ensures Cut(s, p, BeforeFirst(s, p), SecondField(s, p).value)
  {
    HeadOf(s, p);
    BeforeFirstIsFirst(s, p);
    SecondFieldEnds(s, p);
  }

  lemma WithQAMarker(html: string, sm: string, qm: string, em: string)
    requires sm != [] && qm != [] && em != []
    requires Contains(html, sm) && Contains(html, qm)
    requires Contains(SecondField(html, sm).value, qm)
    ensures var after := SecondField(html, sm).value;
            var qaField := SecondField(after, qm).value;
            WellSplit(html, sm, qm, em, Sections(BeforeFirst(html, sm), BeforeFirst(after, qm), BeforeFirst(qaField, em)))
  {
    var after := SecondField(html, sm).value;
    var qaField := SecondField(after, qm).value;
    CutOf(html, sm);
    CutOf(after, qm);
    HeadOf(qaField, em);
    AssembleWithQA(html, sm, qm, em, BeforeFirst(html, sm), after, BeforeFirst(after, qm), qaField, BeforeFirst(qaField, em));
  }

  /** `WellSplit` with a QA marker, from the facts the two `split` calls give. */
  lemma AssembleWithQA(html: string, sm: string, qm: string, em: string, before: string, after: string,
                       presentation: string, qaField: string, qa: string)
    requires Contains(html, qm)
    requires Cut(html, sm, before, after)
    requires Cut(after, qm, presentation, qaField)
    requires Head(qaField, em, qa)
    ensures WellSplit(html, sm, qm, em, Sections(before, presentation, qa))
  {
    var k := |before| + |sm|;
    QAEnds(html, sm, after, k, presentation, qm, qaField, qa, em);
    PresentationPart(html, after, k, presentation, sm, qm);
    PieceLacks(qaField, qa, 0, qm);
    PieceLacks(after, qaField, |presentation| + |qm|, sm);
    PieceLacks(qaField, qa, 0, sm);
  }

  /** Where a piece `x` of a piece `a` of `html` ends, in `html`: at the end of `a`, or at an occurrence of `m`. */
  lemma FieldEnd(html: string, a: string, ai: int, x: string, xi: int, m: string)
    requires OccursAt(html, a, ai) && OccursAt(a, x, xi)
    requires xi + |x| == |a| || OccursAt(a, m, xi + |x|)
    ensures OccursAt(html, x, ai + xi)
    ensures xi + |x| == |a| || OccursAt(html, m, ai + xi + |x|)
  {
    OccursWithin(html, a, x, ai, xi);
    if xi + |x| != |a| {
      OccursWithin(html, a, m, ai, xi + |x|);
    }
  }

  /** The presentation, a prefix of the text `after` at `k` that holds no presentation marker. */
  lemma PresentationPart(html: string, after: string, k: int, presentation: string, sm: string, qm: string)
    requires OccursAt(html, after, k) && !Contains(after, sm)
    requires OccursAt(after, presentation, 0)
    ensures OccursAt(html, presentation, k)
    ensures !Contains(presentation, sm)
  {
    PieceLacks(after, presentation, 0, sm);
    OccursWithin(html, after, presentation, k, 0);
  }

  /** The QA marker and the QA text, placed in `html` and with their ends. */
  lemma QAEnds(html: string, sm: string, after: string, k: int, presentation: string, qm: string,
               qaField: string, qa: string, em: string)
    requires OccursAt(html, after, k)
    requires OccursAt(after, qm, |presentation|)
    requires OccursAt(after, qaField, |presentation| + |qm|)
    requires OccursAt(qaField, qa, 0)
    requires k + |after| == |html| || OccursAt(html, sm, k + |after|)
    requires var qe := |presentation| + |qm| + |qaField|; qe == |after| || OccursAt(after, qm, qe)
    requires |qa| == |qaField| || OccursAt(qaField, em, |qa|)
    ensures QAFollows(html, sm, qm, em, k + |presentation|, qa)
  {
    var qs := k + |presentation| + |qm|;
    OccursWithin(html, after, qm, k, |presentation|);
    FieldEnd(html, after, k, qaField, |presentation| + |qm|, qm);
    FieldEnd(html, qaField, qs, qa, 0, em);
    if |qa| == |qaField| {
      assert qs + |qa| == k + |presentation| + |qm| + |qaField|;
    }
  }

  lemma WithoutQAMarker(html: string, sm: string, qm: string, em: string)
    requires sm != [] && qm != [] && em != []
    requires Contains(html, sm) && !Contains(html, qm)
    ensures var after := SecondField(html, sm).value;
            WellSplit(html, sm, qm, em, Sections(BeforeFirst(html, sm), BeforeFirst(after, em), ""))
  {
    var after := SecondField(html, sm).value;
    CutOf(html, sm);
    HeadOf(after, em);
    AssembleWithoutQA(html, sm, qm, em, BeforeFirst(html, sm), after, BeforeFirst(after, em));
  }

  /** `WellSplit` without a QA marker, from the facts the `split` calls give. */
  lemma AssembleWithoutQA(html: string, sm: string, qm: string, em: string, before: string, after: string,
                          presentation: string)
    requires sm != [] && qm != [] && em != []
    requires !Contains(html, qm)
    requires Cut(html, sm, before, after)
    requires Head(after, em, presentation)
    ensures WellSplit(html, sm, qm, em, Sections(before, presentation, ""))
  {
    var k := |before| + |sm|;
    PresentationPart(html, after, k, presentation, sm, qm);
    FieldEnd(html, after, k, presentation, 0, em);
    PieceLacks(html, presentation, k, qm);
    assert !Contains("", sm);
    assert !Contains("", qm);
    assert !Contains("", em);
  }
}
