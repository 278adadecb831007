/**
 * `transcript.soup2raw_content`: the first pass over the 10px spans of the
 * presentation or the QA section. Each span is classified by its style as a
 * speaker name, a speaker title or text; footer and boilerplate spans are
 * dropped; and a text span that starts in lower case (or with a digit) is
 * taken as the continuation of a wrapped paragraph and merged into the entry
 * before it.
 */
module RawContent {
  import opened Wrappers
  import opened PyText
  import opened Spans

  /** The type tag of an entry: "speaker", "speaker_title" or "text". */
  datatype Kind = Speaker | SpeakerTitle | Text

  datatype RawEntry = RawEntry(kind: Kind, text: string)

  /** The exceptions the pass can raise: UnboundLocalError when a kept span is
      reached before any span of a known style set `speaker_type`, and
      IndexError when `del contents[-1]` runs on an empty list. */
  datatype ExtractError = KindUnbound | MergeOnEmpty

  /** The `speaker_type` after looking at a span of style `style`: the three
      known styles set it, any other style leaves it as it was. */
  function KindOf(style: Style, previous: Option<Kind>): Option<Kind> {
    match style
    case Bold10 => Some(Speaker)
    case Italic10 => Some(SpeakerTitle)
    case Plain10 => Some(Text)
    case Other => previous
  }

  /** A stripped span text that is dropped: it holds " | " (a page footer) or
      equals its own upper-casing (headings, and the empty string). */
  predicate IsBoilerplate(t: string) {
    Contains(t, " | ") || Upper(t) == t
  }

  /** A stripped text that starts like the rest of a wrapped paragraph: its
      first character is left alone by `lower()` and is alphanumeric. */
  predicate StartsContinuation(t: string) {
    t != [] && LowerFixes(t[0]) && IsAlnum(t[0])
  }

  /** The loop state: the output list, `last_span` and `speaker_type`. */
  datatype Scan = Scan(contents: seq<RawEntry>, lastSpan: string, kind: Option<Kind>)

  const Start: Scan := Scan([], "", None)

  /** One iteration of the loop. */
  function Step(st: Scan, s: Span): Result<Scan, ExtractError> {
    var kind := KindOf(s.style, st.kind);
    var t := Strip(s.text);
    if IsBoilerplate(t) then Ok(st.(kind := kind))
    else if kind.None? then Err(KindUnbound)
    else if kind.value == Text && StartsContinuation(t) then
      if st.contents == [] then Err(MergeOnEmpty)
      else Ok(Scan(st.contents[..|st.contents| - 1] + [RawEntry(Text, st.lastSpan + " " + t)], st.lastSpan, kind))
    else Ok(Scan(st.contents + [RawEntry(kind.value, t)], t, kind))
  }

  /** The loop run over `spans`, stopping at the first exception. */
  function ScanAll(spans: seq<Span>): Result<Scan, ExtractError>
    decreases |spans|
  {
    if spans == [] then Ok(Start)
    else
      match ScanAll(spans[..|spans| - 1])
      case Err(e) => Err(e)
      case Ok(st) => Step(st, spans[|spans| - 1])
  }

  /** What `soup2raw_content` returns or raises. */
  function RawContentOf(spans: seq<Span>): Result<seq<RawEntry>, ExtractError> {
    match ScanAll(spans)
    case Ok(st) => Ok(st.contents)
    case Err(e) => Err(e)
  }

  /** An exception ends the scan: a failing prefix makes the whole scan fail the same way. */
  lemma {:induction false} FailurePersists(spans: seq<Span>, i: nat)
    requires i <= |spans| && ScanAll(spans[..i]).Err?
    ensures ScanAll(spans) == ScanAll(spans[..i])
    decreases |spans| - i
  {
    if i < |spans| {
      assert spans[..i + 1][..i] == spans[..i];
      FailurePersists(spans, i + 1);
    } else {
      assert spans[..i] == spans;
    }
  }

  /** One more span of the loop: the scan of `spans[..i + 1]` is a step from that of `spans[..i]`. */
  lemma ScanNext(spans: seq<Span>, i: nat)
    requires i < |spans|
    ensures ScanAll(spans[..i + 1]) ==
              if ScanAll(spans[..i]).Err? then ScanAll(spans[..i]) else Step(ScanAll(spans[..i]).value, spans[i])
  {
    assert spans[..i + 1][..i] == spans[..i];
  }

  /** `soup2raw_content` over the spans of one section. */
  method SoupToRawContent(spans: seq<Span>) returns (r: Result<seq<RawEntry>, ExtractError>)
    ensures r == RawContentOf(spans)
  {
    var contents: seq<RawEntry> := [];
    var lastSpan := "";
    var speakerType: Option<Kind> := None;
    for i := 0 to |spans|
      invariant ScanAll(spans[..i]) == Ok(Scan(contents, lastSpan, speakerType))
    {
      var s := spans[i];
      ScanNext(spans, i);
      ghost var before := Scan(contents, lastSpan, speakerType);
      if s.style == Bold10 {
        speakerType := Some(Speaker);
      }
      if s.style == Italic10 {
        speakerType := Some(SpeakerTitle);
      }
      if s.style == Plain10 {
        speakerType := Some(Text);
      }
      assert speakerType == KindOf(s.style, before.kind);
      var spanText := Strip(s.text);
      if !Contains(spanText, " | ") && Upper(spanText) != spanText {
        if speakerType.None? {
          assert Step(before, s) == Err(KindUnbound);
          FailurePersists(spans, i + 1);
          return Err(KindUnbound);
        }
        if LowerFixes(spanText[0]) && speakerType.value == Text && IsAlnum(spanText[0]) {
          // merge with the last paragraph: it starts in lower case
          if contents == [] {
            assert Step(before, s) == Err(MergeOnEmpty);
            FailurePersists(spans, i + 1);
            return Err(MergeOnEmpty);
          }
          contents := contents[..|contents| - 1] + [RawEntry(speakerType.value, lastSpan + " " + spanText)];
        } else {
          contents := contents + [RawEntry(speakerType.value, spanText)];
          lastSpan := spanText;
        }
      }
      assert Step(before, s) == Ok(Scan(contents, lastSpan, speakerType));
    }
    assert spans[..|spans|] == spans;
    r := Ok(contents);
  }

  // ---------------------------------------------------------------------------
  // What the pass promises

  /** The `speaker_type` in force after `spans`: the kind of the last span of a
      known style, None before any. */
  function CarriedKind(spans: seq<Span>): Option<Kind>
    decreases |spans|
  {
    if spans == [] then None else KindOf(spans[|spans| - 1].style, CarriedKind(spans[..|spans| - 1]))
  }

  /** The last of `spans` is kept and merged into the entry before it. */
  predicate MergesLast(spans: seq<Span>)
    requires spans != []
  {
    var t := Strip(spans[|spans| - 1].text);
    !IsBoilerplate(t) && CarriedKind(spans) == Some(Text) && StartsContinuation(t)
  }

  /** The last of `spans` is kept and opens a new entry. */
  predicate OpensLast(spans: seq<Span>)
    requires spans != []
  {
    !IsBoilerplate(Strip(spans[|spans| - 1].text)) && !MergesLast(spans)
  }

  /** How many spans open a new entry. */
  function Openings(spans: seq<Span>): nat
    decreases |spans|
  {
    if spans == [] then 0 else Openings(spans[..|spans| - 1]) + (if OpensLast(spans) then 1 else 0)
  }

  /** The stripped text of the latest span that opened a new entry; "" if none did. */
  function LatestOpening(spans: seq<Span>): string
    decreases |spans|
  {
    if spans == [] then ""
    else if OpensLast(spans) then Strip(spans[|spans| - 1].text)
    else LatestOpening(spans[..|spans| - 1])
  }

  /** After a successful scan: `speaker_type` is the kind of the last known
      style; the output has one entry per opening span (a merge leaves its
      length unchanged); and `last_span` is the text of the latest opening
      span, since a merge never updates it. */
  lemma {:induction false} ScanState(spans: seq<Span>)
    decreases |spans|
    ensures ScanAll(spans).Ok? ==>
              && ScanAll(spans).value.kind == CarriedKind(spans)
              && |ScanAll(spans).value.contents| == Openings(spans)
              && ScanAll(spans).value.lastSpan == LatestOpening(spans)
  {
    if spans != [] {
      var init, last := spans[..|spans| - 1], spans[|spans| - 1];
      ScanState(init);
      if ScanAll(spans).Ok? {
        var st := ScanAll(init).value;
        assert ScanAll(spans) == Step(st, last);
        StateStep(spans, st);
      }
    }
  }

  /** The step of `ScanState` for the last span. */
  lemma StateStep(spans: seq<Span>, st: Scan)
    requires spans != [] && Step(st, spans[|spans| - 1]).Ok?
    requires var init := spans[..|spans| - 1];
             st.kind == CarriedKind(init) && |st.contents| == Openings(init) && st.lastSpan == LatestOpening(init)
    ensures var r := Step(st, spans[|spans| - 1]).value;
            r.kind == CarriedKind(spans) && |r.contents| == Openings(spans) && r.lastSpan == LatestOpening(spans)
  {
    var last := spans[|spans| - 1];
    assert CarriedKind(spans) == KindOf(last.style, st.kind);
    OpeningStep(spans, st);
  }

  /** What the step for the last span does to the entries: an opening span
      appends an entry and becomes `last_span`; a merging span replaces the
      last entry and nothing else; a dropped span changes neither. */
  lemma OpeningStep(spans: seq<Span>, st: Scan)
    requires spans != [] && Step(st, spans[|spans| - 1]).Ok?
    requires CarriedKind(spans) == KindOf(spans[|spans| - 1].style, st.kind)
    ensures var r := Step(st, spans[|spans| - 1]).value;
            var t := Strip(spans[|spans| - 1].text);
            if OpensLast(spans) then r.contents == st.contents + [RawEntry(r.kind.value, t)] && r.lastSpan == t
            else if MergesLast(spans) then
              && st.contents != [] && r.lastSpan == st.lastSpan
              && r.contents == st.contents[..|st.contents| - 1] + [RawEntry(Text, st.lastSpan + " " + t)]
            else r.contents == st.contents && r.lastSpan == st.lastSpan
  {
  }

  /** Every entry of `contents` has a lower-case letter. */
  ghost predicate AllHaveLower(contents: seq<RawEntry>) {
    forall k :: 0 <= k < |contents| ==> HasLower(contents[k].text) && contents[k].text != []
  }

  lemma MergedHasLower(a: string, t: string)
    requires HasLower(t)
    ensures HasLower(a + " " + t)
  {
    var i :| 0 <= i < |t| && IsLower(t[i]);
    assert (a + " " + t)[|a| + 1 + i] == t[i];
  }

  lemma AppendKeepsLower(cs: seq<RawEntry>, e: RawEntry)
    requires AllHaveLower(cs) && HasLower(e.text)
    ensures AllHaveLower(cs + [e])
  {
  }

  lemma ReplaceLastKeepsLower(cs: seq<RawEntry>, e: RawEntry)
    requires AllHaveLower(cs) && cs != [] && HasLower(e.text)
    ensures AllHaveLower(cs[..|cs| - 1] + [e])
  {
  }

  /** One iteration keeps every entry with a lower-case letter: a kept text
      is not its own upper-casing, so it has one. */
  lemma StepKeepsLower(st: Scan, s: Span)
    requires AllHaveLower(st.contents) && Step(st, s).Ok?
    ensures AllHaveLower(Step(st, s).value.contents)
  {
    var t := Strip(s.text);
    var kind := KindOf(s.style, st.kind);
    if !IsBoilerplate(t) {
      UpperChangesIffHasLower(t);
      if kind.value == Text && StartsContinuation(t) {
        MergedHasLower(st.lastSpan, t);
        ReplaceLastKeepsLower(st.contents, RawEntry(Text, st.lastSpan + " " + t));
      } else {
        AppendKeepsLower(st.contents, RawEntry(kind.value, t));
      }
    }
  }

  /** Every entry of the output has a lower-case letter, so none is empty. */
  lemma {:induction false} EntriesHaveLowerCase(spans: seq<Span>)
    decreases |spans|
    ensures ScanAll(spans).Ok? ==> AllHaveLower(ScanAll(spans).value.contents)
  {
    if spans != [] {
      var init, last := spans[..|spans| - 1], spans[|spans| - 1];
      EntriesHaveLowerCase(init);
      if ScanAll(init).Ok? && ScanAll(spans).Ok? {
        var st := ScanAll(init).value;
        assert ScanAll(spans) == Step(st, last);
        StepKeepsLower(st, last);
      }
    }
  }

  /** A merge replaces the last entry by `last_span + " " + text` and leaves
      the entries before it as they were: the text of a previous merge into
      that entry is lost. */
  lemma {:induction false} MergeReplacesLastEntry(spans: seq<Span>)
    requires spans != [] && MergesLast(spans) && ScanAll(spans).Ok?
    ensures ScanAll(spans[..|spans| - 1]).Ok?
    ensures var c0, c := ScanAll(spans[..|spans| - 1]).value.contents, ScanAll(spans).value.contents;
            && c != [] && |c| == |c0|
            && c[..|c| - 1] == c0[..|c| - 1]
            && c[|c| - 1] == RawEntry(Text, LatestOpening(spans[..|spans| - 1]) + " " + Strip(spans[|spans| - 1].text))
  {
    var init := spans[..|spans| - 1];
    ScanState(init);
    var st := ScanAll(init).value;
    assert ScanAll(spans) == Step(st, spans[|spans| - 1]);
    assert CarriedKind(spans) == KindOf(spans[|spans| - 1].style, CarriedKind(init));
    OpeningStep(spans, st);
  }

  // ---------------------------------------------------------------------------
  // Cases

  /** A stripped text that is kept and opens a new entry when it is a text span. */
  predicate Opening(t: string) {
    !IsBoilerplate(t) && !StartsContinuation(t)
  }

  /** A stripped text that is kept and continues the paragraph before it. */
  predicate Continuation(t: string) {
    !IsBoilerplate(t) && StartsContinuation(t)
  }

  /** The scan of `spans` followed by one more span. */
  lemma ScanSnoc(spans: seq<Span>, s: Span)
    ensures ScanAll(spans + [s]) == if ScanAll(spans).Err? then ScanAll(spans) else Step(ScanAll(spans).value, s)
  {
    assert (spans + [s])[..|spans|] == spans;
  }

  /** A text span whose stripped text opens an entry appends it. */
  lemma OpenStep(st: Scan, x: string)
    requires Opening(Strip(x))
    ensures Step(st, Span(Plain10, x)) == Ok(Scan(st.contents + [RawEntry(Text, Strip(x))], Strip(x), Some(Text)))
  {
  }

  /** A text span whose stripped text continues a paragraph rewrites the last entry. */
  lemma MergeStep(st: Scan, y: string)
    requires Continuation(Strip(y)) && st.contents != []
    ensures Step(st, Span(Plain10, y)) ==
              Ok(Scan(st.contents[..|st.contents| - 1] + [RawEntry(Text, st.lastSpan + " " + Strip(y))], st.lastSpan, Some(Text)))
  {
  }

  /** The scan state after a text line and a lower-case text line. */
  lemma MergedPair(x: string, y: string)
    requires Opening(Strip(x)) && Continuation(Strip(y))
    ensures ScanAll([Span(Plain10, x), Span(Plain10, y)]) ==
              Ok(Scan([RawEntry(Text, Strip(x) + " " + Strip(y))], Strip(x), Some(Text)))
  {
    var a, b := Span(Plain10, x), Span(Plain10, y);
    ScanSnoc([], a);
    OpenStep(Start, x);
    var s1 := Scan([RawEntry(Text, Strip(x))], Strip(x), Some(Text));
    assert Start.contents + [RawEntry(Text, Strip(x))] == s1.contents;
    assert ScanAll([a]) == Ok(s1);
    ScanSnoc([a], b);
    assert [a] + [b] == [a, b];
    MergeStep(s1, y);
    assert s1.contents[..0] + [RawEntry(Text, Strip(x) + " " + Strip(y))] == [RawEntry(Text, Strip(x) + " " + Strip(y))];
  }

  /** A text line followed by a lower-case text line gives one entry holding
      both, joined by a space ("Hello world" and "and more." give
      "Hello world and more."). */
  lemma ContinuationMerges(x: string, y: string)
    requires Opening(Strip(x)) && Continuation(Strip(y))
    ensures RawContentOf([Span(Plain10, x), Span(Plain10, y)]) == Ok([RawEntry(Text, Strip(x) + " " + Strip(y))])
  {
    MergedPair(x, y);
  }

  /** An all-capital line is dropped as a heading, so a lower-case line after
      it at the start of a section has nothing to merge into ("HELLO" and
      "and more." raise instead of giving two entries). */
  lemma UpperCaseLineIsDropped(x: string, y: string)
    requires Upper(Strip(x)) == Strip(x) && Continuation(Strip(y))
    ensures RawContentOf([Span(Plain10, x), Span(Plain10, y)]) == Err(MergeOnEmpty)
  {
    var a, b := Span(Plain10, x), Span(Plain10, y);
    ScanSnoc([], a);
    assert ScanAll([a]) == Ok(Scan([], "", Some(Text)));
    ScanSnoc([a], b);
    assert [a] + [b] == [a, b];
  }

  /** A text line followed by two lower-case lines: the second merge discards
      the first, leaving the first line and the last. */
  lemma SecondContinuationDropsFirst(x: string, y: string, z: string)
    requires Opening(Strip(x)) && Continuation(Strip(y)) && Continuation(Strip(z))
    ensures RawContentOf([Span(Plain10, x), Span(Plain10, y), Span(Plain10, z)]) ==
              Ok([RawEntry(Text, Strip(x) + " " + Strip(z))])
  {
    var a, b, c := Span(Plain10, x), Span(Plain10, y), Span(Plain10, z);
    MergedPair(x, y);
    var s2 := Scan([RawEntry(Text, Strip(x) + " " + Strip(y))], Strip(x), Some(Text));
    ScanSnoc([a, b], c);
    assert [a, b] + [c] == [a, b, c];
    MergeStep(s2, z);
    assert s2.contents[..0] + [RawEntry(Text, Strip(x) + " " + Strip(z))] == [RawEntry(Text, Strip(x) + " " + Strip(z))];
  }

  /** A kept bold span opens a speaker entry. */
  lemma SpeakerStep(st: Scan, x: string)
    requires !IsBoilerplate(Strip(x))
    ensures Step(st, Span(Bold10, x)) == Ok(Scan(st.contents + [RawEntry(Speaker, Strip(x))], Strip(x), Some(Speaker)))
  {
  }

  /** A speaker line followed by a text line gives a speaker entry and a text entry. */
  lemma SpeakerThenText(x: string, y: string)
    requires !IsBoilerplate(Strip(x)) && Opening(Strip(y))
    ensures RawContentOf([Span(Bold10, x), Span(Plain10, y)]) ==
              Ok([RawEntry(Speaker, Strip(x)), RawEntry(Text, Strip(y))])
  {
    var a, b := Span(Bold10, x), Span(Plain10, y);
    ScanSnoc([], a);
    SpeakerStep(Start, x);
    var s1 := Scan([RawEntry(Speaker, Strip(x))], Strip(x), Some(Speaker));
    assert Start.contents + [RawEntry(Speaker, Strip(x))] == s1.contents;
    assert ScanAll([a]) == Ok(s1);
    ScanSnoc([a], b);
    assert [a] + [b] == [a, b];
    OpenStep(s1, y);
    assert s1.contents + [RawEntry(Text, Strip(y))] == [RawEntry(Speaker, Strip(x)), RawEntry(Text, Strip(y))];
  }

  /** A kept span of an unknown style before any span of a known style raises. */
  lemma UnknownStyleFirstFails(s: Span)
    requires s.style == Other && !IsBoilerplate(Strip(s.text))
    ensures RawContentOf([s]) == Err(KindUnbound)
  {
    ScanSnoc([], s);
  }

  /** A section whose first kept span is a lower-case text line raises. */
  lemma ContinuationFirstFails(s: Span)
    requires s.style == Plain10 && Continuation(Strip(s.text))
    ensures RawContentOf([s]) == Err(MergeOnEmpty)
  {
    ScanSnoc([], s);
  }
}
