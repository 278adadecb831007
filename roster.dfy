/**
 * `transcript.get_call_participants`: the participant roster read from the
 * 10px spans before the presentation. A flag switches collection on at an
 * "EXECUTIVES" span and off at an upper-case footer; a bold span that names a
 * still pending role heading opens that role's list, and any other bold span
 * is a person added to the current role, with a title read from the spans
 * that follow it in the same element.
 */
module Roster {
  import opened Wrappers
  import opened PyText
  import opened Spans

  /** A span of the roster block, with the spans that follow it inside the
      same parent element (BeautifulSoup's `next_siblings`). */
  datatype RosterSpan = RosterSpan(span: Span, siblings: seq<Span>)

  /** One entry of the insertion-ordered `call_participants` dictionary: a
      role heading and the names listed under it. */
  datatype RoleList = RoleList(role: string, names: seq<string>)

  /** The roster: `call_participants` and `call_participants_titles`. */
  datatype Participants = Participants(roles: seq<RoleList>, titles: map<string, string>)

  /** The role headings (`PARTICIPANTS_TYPES`). */
  const ParticipantTypes: seq<string> := ["EXECUTIVES", "ANALYSTS", "ATTENDEES"]

  /** The heading that switches collection on. */
  const Executives: string := "EXECUTIVES"

  /** The text of a span or sibling, stripped and with newlines made spaces. */
  function Clean(text: string): (r: string)
    ensures '\n' !in r
  {
    NewlinesToSpaces(Strip(text))
  }

  /** A stripped text that switches collection off: a page footer. */
  predicate IsFooter(t: string) {
    Contains(t, " | ") && Upper(t) == t
  }

  // ---------------------------------------------------------------------------
  // The dictionary and list operations

  /** The keys of `call_participants`, in insertion order. */
  function Keys(ps: seq<RoleList>): (r: seq<string>)
    ensures |r| == |ps| && forall i :: 0 <= i < |ps| ==> r[i] == ps[i].role
  {
    seq(|ps|, i requires 0 <= i < |ps| => ps[i].role)
  }

  predicate Distinct(xs: seq<string>) {
    forall i, j :: 0 <= i < j < |xs| ==> xs[i] != xs[j]
  }

  /** The position of `role` among the keys, if it is one. */
  function KeyIndex(ps: seq<RoleList>, role: string): (r: Option<nat>)
    ensures r.Some? ==> r.value < |ps| && ps[r.value].role == role
    ensures r.Some? ==> forall j :: 0 <= j < r.value ==> ps[j].role != role
    ensures r.None? <==> role !in Keys(ps)
    decreases |ps|
  {
    if ps == [] then None
    else if ps[|ps| - 1].role == role && KeyIndex(ps[..|ps| - 1], role).None? then
      Some(|ps| - 1)
    else
      var k := KeyIndex(ps[..|ps| - 1], role);
      assert k.None? ==> forall j :: 0 <= j < |ps| - 1 ==> Keys(ps[..|ps| - 1])[j] == Keys(ps)[j];
      k
  }

  /** `call_participants[role] = names`: an existing key keeps its place and
      gets the new value, a new key is added at the end. */
  function Put(ps: seq<RoleList>, role: string, names: seq<string>): (r: seq<RoleList>)
    ensures Keys(r) == if role in Keys(ps) then Keys(ps) else Keys(ps) + [role]
    ensures forall i :: 0 <= i < |r| && r[i].role != role ==> i < |ps| && r[i] == ps[i]
    ensures Distinct(Keys(ps)) ==> forall i :: 0 <= i < |r| && r[i].role == role ==> r[i].names == names
  {
    match KeyIndex(ps, role)
    case Some(k) => ps[k := RoleList(role, names)]
    case None => ps + [RoleList(role, names)]
  }

  /** `call_participants[role].append(name)`; the role is always a key
      (`RosterInvariant`), so the KeyError path is never taken. */
  function AppendName(ps: seq<RoleList>, role: string, name: string): (r: seq<RoleList>)
    ensures Keys(r) == Keys(ps)
    ensures forall i :: 0 <= i < |r| && r[i].role != role ==> r[i] == ps[i]
    ensures Distinct(Keys(ps)) ==> forall i :: 0 <= i < |r| && r[i].role == role ==> r[i].names == ps[i].names + [name]
  {
    match KeyIndex(ps, role)
    case Some(k) => ps[k := RoleList(role, ps[k].names + [name])]
    case None => ps
  }

  /** `list.remove(x)`: drops the first occurrence of `x`. */
  function RemoveFirst(xs: seq<string>, x: string): (r: seq<string>)
    ensures forall y :: y in r ==> y in xs
    ensures forall y :: y in xs && y != x ==> y in r
    ensures Distinct(xs) ==> Distinct(r) && x !in r
    ensures x in xs ==> |r| == |xs| - 1
    decreases |xs|
  {
    if xs == [] then []
    else if xs[0] == x then
      DistinctTail(xs);
      xs[1..]
    else
      var rest := RemoveFirst(xs[1..], x);
      DistinctTail(xs);
      DistinctCons(xs[0], rest);
      [xs[0]] + rest
  }

  lemma DistinctTail(xs: seq<string>)
    requires xs != []
    ensures forall y :: y in xs && y != xs[0] ==> y in xs[1..]
    ensures Distinct(xs) ==> Distinct(xs[1..]) && xs[0] !in xs[1..]
  {
  }

  lemma DistinctCons(a: string, rest: seq<string>)
    ensures Distinct(rest) && a !in rest ==> Distinct([a] + rest)
  {
    if Distinct(rest) && a !in rest {
      forall i, j | 0 <= i < j < |rest| + 1
        ensures ([a] + rest)[i] != ([a] + rest)[j]
      {
        assert ([a] + rest)[j] == rest[j - 1];
      }
    }
  }

  // ---------------------------------------------------------------------------
  // The title of a name, from the spans that follow it

  /** The sibling loop from a given point with `title` found so far: an
      italic sibling sets the title, a bold one clears it and stops. */
  function TitleFrom(sibs: seq<Span>, title: string): string
    decreases |sibs|
  {
    if sibs == [] then title
    else if sibs[0].style == Bold10 then ""
    else TitleFrom(sibs[1..], if sibs[0].style == Italic10 then Clean(sibs[0].text) else title)
  }

  /** The title recorded for a name followed by `sibs`. */
  function SiblingTitleOf(sibs: seq<Span>): string {
    TitleFrom(sibs, "")
  }

  /** The position of the last italic sibling. */
  function LastItalic(sibs: seq<Span>): (r: Option<nat>)
    ensures r.Some? ==> r.value < |sibs| && sibs[r.value].style == Italic10
    ensures r.Some? ==> forall j :: r.value < j < |sibs| ==> sibs[j].style != Italic10
    ensures r.None? ==> forall j :: 0 <= j < |sibs| ==> sibs[j].style != Italic10
    decreases |sibs|
  {
    if sibs == [] then None
    else match LastItalic(sibs[1..])
      case Some(k) => Some(k + 1)
      case None => if sibs[0].style == Italic10 then Some(0) else None
  }

  /** A bold sibling after the name (a later name in the same element)
      clears the title. */
  lemma {:induction false} TitleAfterBold(sibs: seq<Span>, title: string, k: int)
    requires 0 <= k < |sibs| && sibs[k].style == Bold10
    ensures TitleFrom(sibs, title) == ""
    decreases |sibs|
  {
    if sibs[0].style != Bold10 {
      var next := if sibs[0].style == Italic10 then Clean(sibs[0].text) else title;
      assert TitleFrom(sibs, title) == TitleFrom(sibs[1..], next);
      assert sibs[1..][k - 1] == sibs[k];
      TitleAfterBold(sibs[1..], next, k - 1);
    }
  }

  /** No sibling from position `from` on has style `st`. */
  predicate NoneFrom(sibs: seq<Span>, st: Style, from: int) {
    forall j :: from <= j < |sibs| && 0 <= j ==> sibs[j].style != st
  }

  lemma NoneFromTail(sibs: seq<Span>, st: Style, from: int)
    requires sibs != [] && 1 <= from && NoneFrom(sibs, st, from)
    ensures NoneFrom(sibs[1..], st, from - 1)
  {
    forall j | from - 1 <= j < |sibs[1..]| && 0 <= j
      ensures sibs[1..][j].style != st
    {
      assert sibs[1..][j] == sibs[j + 1];
    }
  }

  /** Without bold and italic siblings the title stays as it was. */
  lemma {:induction false} TitleWithoutStyles(sibs: seq<Span>, title: string)
    requires NoneFrom(sibs, Bold10, 0) && NoneFrom(sibs, Italic10, 0)
    ensures TitleFrom(sibs, title) == title
    decreases |sibs|
  {
    if sibs != [] {
      NoneFromTail(sibs, Bold10, 1);
      NoneFromTail(sibs, Italic10, 1);
      TitleWithoutStyles(sibs[1..], title);
    }
  }

  /** Without a bold sibling, an italic sibling at `k` with no italic one
      after it gives the title. */
  lemma {:induction false} TitleOfLastItalic(sibs: seq<Span>, title: string, k: nat)
    requires NoneFrom(sibs, Bold10, 0) && k < |sibs| && sibs[k].style == Italic10 && NoneFrom(sibs, Italic10, k + 1)
    ensures TitleFrom(sibs, title) == Clean(sibs[k].text)
    decreases |sibs|
  {
    NoneFromTail(sibs, Bold10, 1);
    if k == 0 {
      TitleWithoutStyles(sibs[1..], Clean(sibs[0].text));
      NoneFromTail(sibs, Italic10, 1);
    } else {
      var next := if sibs[0].style == Italic10 then Clean(sibs[0].text) else title;
      assert sibs[1..][k - 1] == sibs[k];
      NoneFromTail(sibs, Italic10, k + 1);
      TitleOfLastItalic(sibs[1..], next, k - 1);
    }
  }

  /** Without a bold sibling, the title is the text of the last italic
      sibling, or stays as it was when there is none. */
  lemma TitleWithoutBold(sibs: seq<Span>, title: string)
    requires forall k :: 0 <= k < |sibs| ==> sibs[k].style != Bold10
    ensures TitleFrom(sibs, title) == match LastItalic(sibs) case None => title case Some(k) => Clean(sibs[k].text)
  {
    match LastItalic(sibs)
    case None =>
      TitleWithoutStyles(sibs, title);
    case Some(k) =>
      TitleOfLastItalic(sibs, title, k);
  }

  /** The title recorded for a name: "" when a bold sibling follows it,
      otherwise the cleaned text of its last italic sibling, "" if none. */
  lemma SiblingTitleSpec(sibs: seq<Span>)
    ensures (exists k :: 0 <= k < |sibs| && sibs[k].style == Bold10) ==> SiblingTitleOf(sibs) == ""
    ensures (forall k :: 0 <= k < |sibs| ==> sibs[k].style != Bold10) ==>
              SiblingTitleOf(sibs) == match LastItalic(sibs) case None => "" case Some(k) => Clean(sibs[k].text)
  {
    if k :| 0 <= k < |sibs| && sibs[k].style == Bold10 {
      TitleAfterBold(sibs, "", k);
    } else {
      TitleWithoutBold(sibs, "");
    }
  }

  /** The sibling loop of `get_call_participants`, with its early `break`. */
  method SiblingTitle(sibs: seq<Span>) returns (title: string)
    ensures title == SiblingTitleOf(sibs)
  {
    title := "";
    var k := 0;
    while k < |sibs|
      invariant 0 <= k <= |sibs|
      invariant TitleFrom(sibs[k..], title) == SiblingTitleOf(sibs)
    {
      var sib := sibs[k];
      assert sibs[k..][1..] == sibs[k + 1..];
      if sib.style == Italic10 {
        title := Clean(sib.text);
      }
      if sib.style == Bold10 {
        title := "";
        break;
      }
      k := k + 1;
    }
  }

  // ---------------------------------------------------------------------------
  // The scan

  /** The loop state: `START_ADD_FLAG`, `PARTICIPANTS_TYPES`, `TYPE` (unbound
      until the first heading) and the two dictionaries. */
  datatype RosterScan = RosterScan(adding: bool, pending: seq<string>, role: Option<string>,
                                   roles: seq<RoleList>, titles: map<string, string>)

  const RosterStart: RosterScan := RosterScan(false, ParticipantTypes, None, [], map[])

  /** UnboundLocalError: a name is collected before any role heading set `TYPE`. */
  datatype RosterError = RoleUnbound

  /** One iteration of the loop over the spans. */
  function RosterStep(st: RosterScan, rs: RosterSpan): Result<RosterScan, RosterError> {
    var t := Strip(rs.span.text);
    var switchedOn := if t == Executives then true else st.adding;
    var adding := if IsFooter(t) then false else switchedOn;
    if !adding || rs.span.style != Bold10 then Ok(st.(adding := adding))
    else if t in st.pending then
      Ok(RosterScan(adding, RemoveFirst(st.pending, t), Some(t), Put(st.roles, t, []), st.titles))
    else if st.role.None? then Err(RoleUnbound)
    else
      var name := NewlinesToSpaces(t);
      Ok(RosterScan(adding, st.pending, st.role, AppendName(st.roles, st.role.value, name),
                    st.titles[name := SiblingTitleOf(rs.siblings)]))
  }

  /** The loop over `spans`, stopping at the first exception. */
  function RosterAll(spans: seq<RosterSpan>): Result<RosterScan, RosterError>
    decreases |spans|
  {
    if spans == [] then Ok(RosterStart)
    else
      match RosterAll(spans[..|spans| - 1])
      case Err(e) => Err(e)
      case Ok(st) => RosterStep(st, spans[|spans| - 1])
  }

  /** What `get_call_participants` returns or raises. */
  function ParticipantsOf(spans: seq<RosterSpan>): Result<Participants, RosterError> {
    match RosterAll(spans)
    case Ok(st) => Ok(Participants(st.roles, st.titles))
    case Err(e) => Err(e)
  }

  lemma RosterNext(spans: seq<RosterSpan>, i: nat)
    requires i < |spans|
    ensures RosterAll(spans[..i + 1]) ==
              if RosterAll(spans[..i]).Err? then RosterAll(spans[..i]) else RosterStep(RosterAll(spans[..i]).value, spans[i])
  {
    assert spans[..i + 1][..i] == spans[..i];
  }

  lemma {:induction false} RosterFailurePersists(spans: seq<RosterSpan>, i: nat)
    requires i <= |spans| && RosterAll(spans[..i]).Err?
    ensures RosterAll(spans) == RosterAll(spans[..i])
    decreases |spans| - i
  {
    if i < |spans| {
      RosterNext(spans, i);
      RosterFailurePersists(spans, i + 1);
    } else {
      assert spans[..i] == spans;
    }
  }

  /** `get_call_participants` over the spans before the presentation. */
  method GetCallParticipants(spans: seq<RosterSpan>) returns (r: Result<Participants, RosterError>)
    ensures r == ParticipantsOf(spans)
  {
    var callParticipants: seq<RoleList> := [];
    var callParticipantsTitles: map<string, string> := map[];
    var participantsTypes := ParticipantTypes;
    var startAdd := false;
    var role: Option<string> := None;
    for i := 0 to |spans|
      invariant RosterAll(spans[..i]) == Ok(RosterScan(startAdd, participantsTypes, role, callParticipants, callParticipantsTitles))
    {
      var span := spans[i].span;
      RosterNext(spans, i);
      ghost var before := RosterScan(startAdd, participantsTypes, role, callParticipants, callParticipantsTitles);
      var spanText := Strip(span.text);
      if spanText == Executives {
        startAdd := true;
      }
      if Contains(spanText, " | ") && Upper(spanText) == spanText {
        startAdd := false;
      }
      assert startAdd == if IsFooter(spanText) then false else if spanText == Executives then true else before.adding;
      assert !startAdd || span.style != Bold10 ==> RosterStep(before, spans[i]) == Ok(before.(adding := startAdd));
      if startAdd && span.style == Bold10 {
        if spanText in participantsTypes {
          callParticipants := Put(callParticipants, spanText, []);
          participantsTypes := RemoveFirst(participantsTypes, spanText);
          role := Some(spanText);
        } else {
          var name := NewlinesToSpaces(spanText);
          var title := SiblingTitle(spans[i].siblings);
          if role.None? {
            RosterFailurePersists(spans, i + 1);
            return Err(RoleUnbound);
          }
          callParticipants := AppendName(callParticipants, role.value, name);
          callParticipantsTitles := callParticipantsTitles[name := title];
        }
      }
    }
    assert spans[..|spans|] == spans;
    r := Ok(Participants(callParticipants, callParticipantsTitles));
  }

  // ---------------------------------------------------------------------------
  // What the scan keeps true

  /** The state after any successful prefix: each role list exists at most
      once and only for a heading no longer pending; the current role is a
      key; and every collected name has a title. */
  ghost predicate RosterInvariant(st: RosterScan) {
    var keys := Keys(st.roles);
    && Distinct(keys)
    && Distinct(st.pending)
    && (forall k :: k in keys ==> k in ParticipantTypes && k !in st.pending)
    && (forall p :: p in st.pending ==> p in ParticipantTypes)
    && (st.role.Some? ==> st.role.value in keys)
    && (st.roles != [] ==> st.role.Some?)
    && (forall i, n :: 0 <= i < |st.roles| && n in st.roles[i].names ==> n in st.titles)
  }

  lemma TypesDistinct()
    ensures Distinct(ParticipantTypes)
  {
  }

  lemma RosterStartInvariant()
    ensures RosterInvariant(RosterStart)
  {
    assert Distinct(ParticipantTypes);
  }

  /** A heading still pending opens its list once and leaves the pending list. */
  lemma HeadingKeepsInvariant(st: RosterScan, adding: bool, t: string)
    requires RosterInvariant(st) && t in st.pending
    ensures RosterInvariant(RosterScan(adding, RemoveFirst(st.pending, t), Some(t), Put(st.roles, t, []), st.titles))
  {
    var keys := Keys(st.roles);
    var roles' := Put(st.roles, t, []);
    assert t !in keys;
    assert Keys(roles') == keys + [t];
    forall i, j | 0 <= i < j < |keys| + 1
      ensures (keys + [t])[i] != (keys + [t])[j]
    {
      if j == |keys| {
        assert (keys + [t])[i] == keys[i];
      }
    }
    forall i, n | 0 <= i < |roles'| && n in roles'[i].names
      ensures n in st.titles
    {
      if roles'[i].role != t {
        assert roles'[i] == st.roles[i];
      }
    }
  }

  /** A name is appended to the current role's list and gets a title. */
  lemma NameKeepsInvariant(st: RosterScan, adding: bool, name: string, title: string)
    requires RosterInvariant(st) && st.role.Some?
    ensures RosterInvariant(RosterScan(adding, st.pending, st.role, AppendName(st.roles, st.role.value, name),
                                       st.titles[name := title]))
  {
    var roles' := AppendName(st.roles, st.role.value, name);
    forall i, n | 0 <= i < |roles'| && n in roles'[i].names
      ensures n in st.titles[name := title]
    {
      if roles'[i].role != st.role.value {
        assert roles'[i] == st.roles[i];
      } else if n != name {
        assert n in st.roles[i].names;
      }
    }
  }

  lemma RosterStepInvariant(st: RosterScan, rs: RosterSpan)
    requires RosterInvariant(st)
    ensures RosterStep(st, rs).Ok? ==> RosterInvariant(RosterStep(st, rs).value)
  {
    var t := Strip(rs.span.text);
    var adding := if IsFooter(t) then false else if t == Executives then true else st.adding;
    if adding && rs.span.style == Bold10 {
      if t in st.pending {
        HeadingKeepsInvariant(st, adding, t);
      } else if st.role.Some? {
        NameKeepsInvariant(st, adding, NewlinesToSpaces(t), SiblingTitleOf(rs.siblings));
      }
    }
  }

  lemma {:induction false} RosterAllInvariant(spans: seq<RosterSpan>)
    ensures RosterAll(spans).Ok? ==> RosterInvariant(RosterAll(spans).value)
    decreases |spans|
  {
    if spans == [] {
      RosterStartInvariant();
    } else {
      var init := spans[..|spans| - 1];
      RosterAllInvariant(init);
      if RosterAll(init).Ok? {
        RosterStepInvariant(RosterAll(init).value, spans[|spans| - 1]);
      }
    }
  }

  /** The roster a successful scan returns: no role list twice, only role
      headings as keys, and a title for every listed name. */
  lemma RosterWellFormed(spans: seq<RosterSpan>)
    requires ParticipantsOf(spans).Ok?
    ensures var p := ParticipantsOf(spans).value;
            && Distinct(Keys(p.roles))
            && (forall k :: k in Keys(p.roles) ==> k in ParticipantTypes)
            && (forall i, n :: 0 <= i < |p.roles| && n in p.roles[i].names ==> n in p.titles)
  {
    RosterAllInvariant(spans);
  }

  /** Nothing is collected in a block without an "EXECUTIVES" span. */
  lemma {:induction false} NoExecutivesNoRoster(spans: seq<RosterSpan>)
    requires forall i :: 0 <= i < |spans| ==> Strip(spans[i].span.text) != Executives
    ensures ParticipantsOf(spans) == Ok(Participants([], map[]))
  {
    NeverSwitchedOn(spans);
  }

  lemma {:induction false} NeverSwitchedOn(spans: seq<RosterSpan>)
    requires forall i :: 0 <= i < |spans| ==> Strip(spans[i].span.text) != Executives
    ensures RosterAll(spans) == Ok(RosterStart)
    decreases |spans|
  {
    if spans != [] {
      var init := spans[..|spans| - 1];
      assert forall i :: 0 <= i < |init| ==> init[i] == spans[i];
      NeverSwitchedOn(init);
    }
  }

  /** A text holding " | " holds a space. */
  lemma FooterHasSpace(t: string)
    requires Contains(t, " | ")
    ensures ' ' in t
  {
    var i :| 0 <= i <= |t| - 3 && OccursAt(t, " | ", i);
    assert t[i..i + 3][0] == ' ';
  }

  /** "EXECUTIVES" is not a footer. */
  lemma ExecutivesIsNoFooter()
    ensures !IsFooter(Executives)
  {
    assert ' ' !in Executives;
    NoSpaceNoFooter(Executives);
  }

  lemma NoSpaceNoFooter(t: string)
    requires ' ' !in t
    ensures !Contains(t, " | ")
  {
    if Contains(t, " | ") {
      FooterHasSpace(t);
    }
  }

  /** The flag after one more span. */
  lemma AddingAfterStep(st: RosterScan, rs: RosterSpan)
    requires RosterStep(st, rs).Ok?
    ensures var t := Strip(rs.span.text);
            RosterStep(st, rs).value.adding == (!IsFooter(t) && (t == Executives || st.adding))
  {
  }

  /** Span `k` of `spans` is an "EXECUTIVES" span with no footer after it. */
  ghost predicate OnSince(spans: seq<RosterSpan>, k: int) {
    && 0 <= k < |spans|
    && Strip(spans[k].span.text) == Executives
    && forall j :: k < j < |spans| ==> !IsFooter(Strip(spans[j].span.text))
  }

  /** An earlier "EXECUTIVES" span stays in force after one more span
      exactly when that span is not a footer. */
  lemma OnSinceExtend(spans: seq<RosterSpan>, k: int)
    requires 0 <= k < |spans| - 1
    ensures OnSince(spans, k) <==>
              OnSince(spans[..|spans| - 1], k) && !IsFooter(Strip(spans[|spans| - 1].span.text))
  {
    var init := spans[..|spans| - 1];
    assert init[k] == spans[k];
    if OnSince(spans, k) {
      forall j | k < j < |init|
        ensures !IsFooter(Strip(init[j].span.text))
      {
        assert init[j] == spans[j];
      }
    }
    if OnSince(init, k) && !IsFooter(Strip(spans[|spans| - 1].span.text)) {
      forall j | k < j < |spans|
        ensures !IsFooter(Strip(spans[j].span.text))
      {
        if j < |init| {
          assert init[j] == spans[j];
          assert !IsFooter(Strip(init[j].span.text));
        } else {
          assert j == |spans| - 1;
        }
      }
    }
  }

  /** The characterisation of the flag carries over one more span. */
  lemma OnSinceStep(spans: seq<RosterSpan>, init: seq<RosterSpan>, before: bool, after: bool)
    requires spans != [] && init == spans[..|spans| - 1]
    requires before <==> exists k :: OnSince(init, k)
    requires var t := Strip(spans[|spans| - 1].span.text); after == (!IsFooter(t) && (t == Executives || before))
    ensures after <==> exists k :: OnSince(spans, k)
  {
    var n := |spans| - 1;
    var t := Strip(spans[n].span.text);
    if after {
      if t == Executives {
        assert OnSince(spans, n);
      } else {
        var k :| OnSince(init, k);
        OnSinceExtend(spans, k);
        assert OnSince(spans, k);
      }
    }
    if exists k :: OnSince(spans, k) {
      var k :| OnSince(spans, k);
      if k == n {
        ExecutivesIsNoFooter();
      } else {
        OnSinceExtend(spans, k);
        assert OnSince(init, k);
      }
    }
  }

  /** Collection is on after `spans` exactly when some "EXECUTIVES" span was
      followed by no footer. */
  lemma {:induction false} CollectingSpec(spans: seq<RosterSpan>)
    ensures RosterAll(spans).Ok? ==> (RosterAll(spans).value.adding <==> exists k :: OnSince(spans, k))
    decreases |spans|
  {
    if spans != [] && RosterAll(spans).Ok? {
      var init := spans[..|spans| - 1];
      assert RosterAll(init).Ok?;
      CollectingSpec(init);
      AddingAfterStep(RosterAll(init).value, spans[|spans| - 1]);
      OnSinceStep(spans, init, RosterAll(init).value.adding, RosterAll(spans).value.adding);
    }
  }

  /** No role heading is a footer. */
  lemma HeadingIsNoFooter(t: string)
    requires t in ParticipantTypes
    ensures !IsFooter(t)
  {
    assert ' ' !in t;
    NoSpaceNoFooter(t);
  }

  /** A role heading seen a second time, while collecting, is a name: it is
      appended to the current role's list with its sibling title. */
  lemma RepeatedHeadingIsName(st: RosterScan, rs: RosterSpan)
    requires RosterInvariant(st) && st.adding && rs.span.style == Bold10
    requires Strip(rs.span.text) in Keys(st.roles)
    ensures st.role.Some?
    ensures var name := NewlinesToSpaces(Strip(rs.span.text));
            RosterStep(st, rs) ==
              Ok(st.(roles := AppendName(st.roles, st.role.value, name),
                     titles := st.titles[name := SiblingTitleOf(rs.siblings)]))
  {
    var t := Strip(rs.span.text);
    HeadingIsNoFooter(t);
    assert t !in st.pending;
  }

  /** An "EXECUTIVES" heading that is not bold opens no list, so the first
      name after it raises. */
  lemma PlainHeadingFails(h: RosterSpan, n: RosterSpan)
    requires Strip(h.span.text) == Executives && h.span.style != Bold10
    requires n.span.style == Bold10 && Strip(n.span.text) !in ParticipantTypes && !IsFooter(Strip(n.span.text))
    ensures ParticipantsOf([h, n]) == Err(RoleUnbound)
  {
    assert [h, n][..1] == [h];
    assert [h][..0] == [];
    ExecutivesIsNoFooter();
    assert RosterAll([h]) == Ok(RosterStart.(adding := true));
  }

  // ---------------------------------------------------------------------------
  // What the scan collects

  /** Span `rs` is read as a heading or a name in state `st`: it is bold and
      collection is on once its own text has switched the flag. */
  ghost predicate Collects(st: RosterScan, rs: RosterSpan) {
    var t := Strip(rs.span.text);
    rs.span.style == Bold10 && !IsFooter(t) && (t == Executives || st.adding)
  }

  /** The name a span adds. */
  function NameOf(rs: RosterSpan): (r: string)
    ensures |r| <= |rs.span.text| && '\n' !in r
  {
    NewlinesToSpaces(Strip(rs.span.text))
  }

  /** How the scan reads a span: skipped (collection off, or not bold), as
      the heading of a pending role, or as a name. */
  datatype StepKind = Skipped | Heading | Name

  /** How span `rs` is read in state `st`. */
  ghost function KindOf(st: RosterScan, rs: RosterSpan): StepKind {
    if !Collects(st, rs) then Skipped
    else if Strip(rs.span.text) in st.pending then Heading
    else Name
  }

  /** How each span of `spans` is read, in the state the spans before it
      leave (an exception ends the scan, and later spans are skipped). */
  ghost function Kinds(spans: seq<RosterSpan>): (r: seq<StepKind>)
    ensures |r| == |spans|
    decreases |spans|
  {
    if spans == [] then []
    else
      var init := spans[..|spans| - 1];
      Kinds(init) + [match RosterAll(init) case Err(_) => Skipped case Ok(st) => KindOf(st, spans[|spans| - 1])]
  }

  /** Span `i` is read in the state the spans before it leave: a name is a
      bold span, read while collecting, whose text is not a pending heading. */
  lemma {:induction false} KindsSpec(spans: seq<RosterSpan>, i: int)
    requires 0 <= i < |spans|
    ensures Kinds(spans)[i] == match RosterAll(spans[..i]) case Err(_) => Skipped case Ok(st) => KindOf(st, spans[i])
    decreases |spans|
  {
    var init := spans[..|spans| - 1];
    if i < |init| {
      KindsSpec(init, i);
      assert init[..i] == spans[..i];
    }
  }

  /** The heading read last among `spans`, each read as `ks` says. */
  function LastHeadingIn(ks: seq<StepKind>, spans: seq<RosterSpan>): Option<string>
    requires |ks| == |spans|
    decreases |spans|
  {
    if spans == [] then None
    else
      var n := |spans| - 1;
      if ks[n] == Heading then Some(Strip(spans[n].span.text)) else LastHeadingIn(ks[..n], spans[..n])
  }

  /** The names read among `spans` while `role` was the heading read last, in
      order. */
  function NamesUnderIn(ks: seq<StepKind>, spans: seq<RosterSpan>, role: string): seq<string>
    requires |ks| == |spans|
    decreases |spans|
  {
    if spans == [] then []
    else
      var n := |spans| - 1;
      var added := ks[n] == Name && LastHeadingIn(ks[..n], spans[..n]) == Some(role);
      NamesUnderIn(ks[..n], spans[..n], role) + if added then [NameOf(spans[n])] else []
  }

  /** Each role list holds the names read under that role, and a role never
      opened holds none. */
  ghost predicate RolesMatch(roles: seq<RoleList>, ks: seq<StepKind>, spans: seq<RosterSpan>)
    requires |ks| == |spans|
  {
    && (forall i :: 0 <= i < |roles| ==> roles[i].names == NamesUnderIn(ks, spans, roles[i].role))
    && (forall r :: r !in Keys(roles) ==> NamesUnderIn(ks, spans, r) == [])
  }

  /** The titles hold exactly the names read, and the title of a name is the
      one read from the siblings of the last span read as that name. */
  ghost predicate TitlesMatch(titles: map<string, string>, ks: seq<StepKind>, spans: seq<RosterSpan>)
    requires |ks| == |spans|
  {
    && (forall n :: n in titles <==> exists i :: 0 <= i < |spans| && ks[i] == Name && NameOf(spans[i]) == n)
    && (forall i :: 0 <= i < |spans| && ks[i] == Name && LastNamed(ks, spans, i) ==>
          NameOf(spans[i]) in titles && titles[NameOf(spans[i])] == SiblingTitleOf(spans[i].siblings))
  }

  /** No span after span `i` is read as the same name. */
  ghost predicate LastNamed(ks: seq<StepKind>, spans: seq<RosterSpan>, i: int)
    requires |ks| == |spans| && 0 <= i < |spans|
  {
    forall j :: i < j < |spans| && ks[j] == Name ==> NameOf(spans[j]) != NameOf(spans[i])
  }

  /** What one more span does to the state, by the way it is read. */
  lemma StepOutcome(spans: seq<RosterSpan>, init: seq<RosterSpan>)
    requires spans != [] && init == spans[..|spans| - 1] && RosterAll(spans).Ok?
    ensures RosterAll(init).Ok?
    ensures var st, st', rs := RosterAll(init).value, RosterAll(spans).value, spans[|spans| - 1];
            && Kinds(spans) == Kinds(init) + [KindOf(st, rs)]
            && spans == init + [rs]
            && StepEffect(st, rs, st')
  {
    var rs := spans[|spans| - 1];
    assert RosterAll(spans) == RosterStep(RosterAll(init).value, rs);
    StepEffectOf(RosterAll(init).value, rs);
  }

  /** The new state `st'` after span `rs` in state `st`, by the way `rs` is
      read: a skipped span changes neither the role lists, the role, the
      titles nor the pending headings; a heading opens its list and becomes
      the role; a name is appended to the role's list with its title. */
  ghost predicate StepEffect(st: RosterScan, rs: RosterSpan, st': RosterScan) {
    var k, t := KindOf(st, rs), Strip(rs.span.text);
    && (k == Skipped ==> st'.roles == st.roles && st'.role == st.role && st'.titles == st.titles
                         && st'.pending == st.pending)
    && (k == Heading ==> t in st.pending && st'.roles == Put(st.roles, t, []) && st'.role == Some(t)
                         && st'.titles == st.titles && st'.pending == RemoveFirst(st.pending, t))
    && (k == Name ==> && st.role.Some? && st'.role == st.role && st'.pending == st.pending
                      && st'.roles == AppendName(st.roles, st.role.value, NameOf(rs))
                      && st'.titles == st.titles[NameOf(rs) := SiblingTitleOf(rs.siblings)])
  }

  lemma StepEffectOf(st: RosterScan, rs: RosterSpan)
    requires RosterStep(st, rs).Ok?
    ensures StepEffect(st, rs, RosterStep(st, rs).value)
  {
  }

  /** `TYPE` is the role heading read last. */
  lemma {:induction false} RoleIsLastHeading(spans: seq<RosterSpan>)
    ensures RosterAll(spans).Ok? ==> RosterAll(spans).value.role == LastHeadingIn(Kinds(spans), spans)
    decreases |spans|
  {
    if spans != [] && RosterAll(spans).Ok? {
      var init := spans[..|spans| - 1];
      StepOutcome(spans, init);
      RoleIsLastHeading(init);
      LastHeadingStep(Kinds(init), init, Kinds(spans)[|spans| - 1], spans[|spans| - 1]);
    }
  }

  lemma LastHeadingStep(ks: seq<StepKind>, init: seq<RosterSpan>, k: StepKind, rs: RosterSpan)
    requires |ks| == |init|
    ensures LastHeadingIn(ks + [k], init + [rs]) ==
              if k == Heading then Some(Strip(rs.span.text)) else LastHeadingIn(ks, init)
  {
    assert (ks + [k])[..|ks|] == ks;
    assert (init + [rs])[..|init|] == init;
  }

  /** The texts of the spans read as headings, in order. */
  function HeadingsIn(ks: seq<StepKind>, spans: seq<RosterSpan>): seq<string>
    requires |ks| == |spans|
    decreases |spans|
  {
    if spans == [] then []
    else
      var n := |spans| - 1;
      HeadingsIn(ks[..n], spans[..n]) + if ks[n] == Heading then [Strip(spans[n].span.text)] else []
  }

  lemma HeadingsStep(ks: seq<StepKind>, init: seq<RosterSpan>, k: StepKind, rs: RosterSpan)
    requires |ks| == |init|
    ensures HeadingsIn(ks + [k], init + [rs]) ==
              HeadingsIn(ks, init) + if k == Heading then [Strip(rs.span.text)] else []
  {
    assert (ks + [k])[..|ks|] == ks;
    assert (init + [rs])[..|init|] == init;
  }

  /** The elements of `ps` not in `read`, in their order. */
  function Unread(ps: seq<string>, read: seq<string>): (r: seq<string>)
    ensures forall y :: y in r <==> y in ps && y !in read
    decreases |ps|
  {
    if ps == [] then []
    else
      assert forall y :: y in ps <==> y == ps[0] || y in ps[1..];
      (if ps[0] in read then [] else [ps[0]]) + Unread(ps[1..], read)
  }

  /** Reading an element that `ps` lacks changes nothing. */
  lemma {:induction false} UnreadOther(ps: seq<string>, read: seq<string>, t: string)
    requires t !in ps
    ensures Unread(ps, read + [t]) == Unread(ps, read)
    decreases |ps|
  {
    if ps != [] {
      UnreadOther(ps[1..], read, t);
    }
  }

  /** `list.remove(t)` of a pending heading is the same as reading it. */
  lemma {:induction false} RemoveFirstReads(ps: seq<string>, read: seq<string>, t: string)
    requires Distinct(ps) && t in Unread(ps, read)
    ensures RemoveFirst(Unread(ps, read), t) == Unread(ps, read + [t])
    decreases |ps|
  {
    DistinctTail(ps);
    var rest := ps[1..];
    var u := Unread(rest, read);
    if ps[0] == t {
      assert Unread(ps, read) == [t] + u;
      assert ([t] + u)[1..] == u;
      assert Unread(ps, read + [t]) == Unread(rest, read + [t]);
      UnreadOther(rest, read, t);
    } else {
      assert t in u;
      RemoveFirstReads(rest, read, t);
      if ps[0] in read {
        assert Unread(ps, read) == u;
        assert Unread(ps, read + [t]) == Unread(rest, read + [t]);
      } else {
        var v := [ps[0]] + u;
        assert Unread(ps, read) == v;
        assert v[0] != t && v[1..] == u;
        assert RemoveFirst(v, t) == [ps[0]] + RemoveFirst(u, t);
        assert Unread(ps, read + [t]) == [ps[0]] + Unread(rest, read + [t]);
      }
    }
  }

  /** The state after the headings `read`: the role headings not read are
      pending, in order, and the role lists are those of the headings read,
      in the order read. */
  ghost predicate PendingMatch(st: RosterScan, read: seq<string>) {
    st.pending == Unread(ParticipantTypes, read) && Keys(st.roles) == read
  }

  /** The pending headings are the three role headings, in order, that no
      span has been read as yet; the role lists are opened in the order
      their headings are read. */
  lemma {:induction false} PendingSpec(spans: seq<RosterSpan>)
    ensures RosterAll(spans).Ok? ==> PendingMatch(RosterAll(spans).value, HeadingsIn(Kinds(spans), spans))
    decreases |spans|
  {
    if spans != [] && RosterAll(spans).Ok? {
      var init := spans[..|spans| - 1];
      StepOutcome(spans, init);
      PendingSpec(init);
      var st, rs := RosterAll(init).value, spans[|spans| - 1];
      var k := KindOf(st, rs);
      HeadingsStep(Kinds(init), init, k, rs);
      PendingStep(st, RosterAll(spans).value, HeadingsIn(Kinds(init), init), k, Strip(rs.span.text));
    }
  }

  lemma PendingStep(st: RosterScan, st': RosterScan, read: seq<string>, k: StepKind, t: string)
    requires PendingMatch(st, read)
    requires k != Heading ==> st'.pending == st.pending && Keys(st'.roles) == Keys(st.roles)
    requires k == Heading ==> t in st.pending && st'.roles == Put(st.roles, t, []) && st'.pending == RemoveFirst(st.pending, t)
    ensures PendingMatch(st', read + if k == Heading then [t] else [])
  {
    if k == Heading {
      assert t !in read;
      assert Keys(st'.roles) == read + [t];
      TypesDistinct();
      RemoveFirstReads(ParticipantTypes, read, t);
    } else {
      assert read + [] == read;
    }
  }

  /** A role heading is pending exactly while its role list is not open. */
  lemma PendingUntilOpened(spans: seq<RosterSpan>)
    ensures RosterAll(spans).Ok? ==>
              forall p :: p in ParticipantTypes ==>
                (p in RosterAll(spans).value.pending <==> p !in Keys(RosterAll(spans).value.roles))
  {
    PendingSpec(spans);
  }

  /** Span `i` is read as a heading exactly when the scan has not raised,
      collection is on, the span is bold, and its text is one of the three
      role headings that no earlier span was read as. */
  lemma HeadingSpec(spans: seq<RosterSpan>, i: int)
    requires 0 <= i < |spans|
    ensures var t := Strip(spans[i].span.text);
            Kinds(spans)[i] == Heading <==>
              && RosterAll(spans[..i]).Ok?
              && Collects(RosterAll(spans[..i]).value, spans[i])
              && t in ParticipantTypes
              && t !in HeadingsIn(Kinds(spans)[..i], spans[..i])
  {
    KindsSpec(spans, i);
    KindsPrefix(spans, i);
    PendingSpec(spans[..i]);
  }

  /** The kinds of a prefix are a prefix of the kinds. */
  lemma {:induction false} KindsPrefix(spans: seq<RosterSpan>, i: int)
    requires 0 <= i <= |spans|
    ensures Kinds(spans[..i]) == Kinds(spans)[..i]
    decreases |spans|
  {
    if i < |spans| {
      var init := spans[..|spans| - 1];
      KindsPrefix(init, i);
      assert init[..i] == spans[..i];
    } else {
      assert spans[..i] == spans;
    }
  }

  lemma NamesUnderStep(ks: seq<StepKind>, init: seq<RosterSpan>, k: StepKind, rs: RosterSpan, role: string)
    requires |ks| == |init|
    ensures NamesUnderIn(ks + [k], init + [rs], role) ==
              NamesUnderIn(ks, init, role) + if k == Name && LastHeadingIn(ks, init) == Some(role) then [NameOf(rs)] else []
  {
    assert (ks + [k])[..|ks|] == ks;
    assert (init + [rs])[..|init|] == init;
  }

  /** The list of each role holds exactly the names read while it was the
      heading read last, in order; a role never opened has no names. */
  lemma {:induction false} RolesSpec(spans: seq<RosterSpan>)
    ensures RosterAll(spans).Ok? ==> RolesMatch(RosterAll(spans).value.roles, Kinds(spans), spans)
    decreases |spans|
  {
    if spans != [] && RosterAll(spans).Ok? {
      var init := spans[..|spans| - 1];
      StepOutcome(spans, init);
      RolesSpec(init);
      RosterAllInvariant(init);
      RoleIsLastHeading(init);
      var st, st', rs := RosterAll(init).value, RosterAll(spans).value, spans[|spans| - 1];
      var k := KindOf(st, rs);
      forall r
        ensures NamesUnderIn(Kinds(spans), spans, r) ==
                  NamesUnderIn(Kinds(init), init, r) + if k == Name && st.role == Some(r) then [NameOf(rs)] else []
      {
        NamesUnderStep(Kinds(init), init, k, rs, r);
      }
      if k == Skipped {
        RolesMatchSame(st.roles, Kinds(init), init, Kinds(spans), spans);
      } else if k == Heading {
        RolesMatchHeading(st.roles, Kinds(init), init, Kinds(spans), spans, Strip(rs.span.text));
      } else {
        RolesMatchName(st.roles, Kinds(init), init, Kinds(spans), spans, st.role.value, NameOf(rs));
      }
    }
  }

  lemma RolesMatchSame(roles: seq<RoleList>, ks: seq<StepKind>, init: seq<RosterSpan>,
                       ks': seq<StepKind>, spans: seq<RosterSpan>)
    requires |ks| == |init| && |ks'| == |spans|
    requires RolesMatch(roles, ks, init)
    requires forall r :: NamesUnderIn(ks', spans, r) == NamesUnderIn(ks, init, r) + []
    ensures RolesMatch(roles, ks', spans)
  {
  }

  lemma RolesMatchHeading(roles: seq<RoleList>, ks: seq<StepKind>, init: seq<RosterSpan>,
                          ks': seq<StepKind>, spans: seq<RosterSpan>, t: string)
    requires |ks| == |init| && |ks'| == |spans|
    requires RolesMatch(roles, ks, init) && t !in Keys(roles)
    requires forall r :: NamesUnderIn(ks', spans, r) == NamesUnderIn(ks, init, r) + []
    ensures RolesMatch(Put(roles, t, []), ks', spans)
  {
  }

  lemma RolesMatchName(roles: seq<RoleList>, ks: seq<StepKind>, init: seq<RosterSpan>,
                       ks': seq<StepKind>, spans: seq<RosterSpan>, role: string, name: string)
    requires |ks| == |init| && |ks'| == |spans|
    requires RolesMatch(roles, ks, init) && Distinct(Keys(roles)) && role in Keys(roles)
    requires forall r :: NamesUnderIn(ks', spans, r) == NamesUnderIn(ks, init, r) + if role == r then [name] else []
    ensures RolesMatch(AppendName(roles, role, name), ks', spans)
  {
  }

  /** The titles hold exactly the names read, and each name's title is the
      one read for the last span that named it. */
  lemma {:induction false} TitlesSpec(spans: seq<RosterSpan>)
    ensures RosterAll(spans).Ok? ==> TitlesMatch(RosterAll(spans).value.titles, Kinds(spans), spans)
    decreases |spans|
  {
    if spans != [] && RosterAll(spans).Ok? {
      var init := spans[..|spans| - 1];
      StepOutcome(spans, init);
      TitlesSpec(init);
      var st, rs := RosterAll(init).value, spans[|spans| - 1];
      TitlesMatchStep(st.titles, Kinds(init), init, KindOf(st, rs), rs);
    }
  }

  lemma TitlesMatchStep(titles: map<string, string>, ks: seq<StepKind>, init: seq<RosterSpan>, k: StepKind, rs: RosterSpan)
    requires |ks| == |init| && TitlesMatch(titles, ks, init)
    ensures var titles' := if k == Name then titles[NameOf(rs) := SiblingTitleOf(rs.siblings)] else titles;
            TitlesMatch(titles', ks + [k], init + [rs])
  {
    var titles' := if k == Name then titles[NameOf(rs) := SiblingTitleOf(rs.siblings)] else titles;
    var ks', spans := ks + [k], init + [rs];
    var n := |init|;
    forall i | 0 <= i < n
      ensures ks'[i] == ks[i] && spans[i] == init[i]
    {
    }
    forall m | m in titles'
      ensures exists i :: 0 <= i < |spans| && ks'[i] == Name && NameOf(spans[i]) == m
    {
      if k == Name && m == NameOf(rs) {
        assert ks'[n] == Name && NameOf(spans[n]) == m;
      } else {
        var i :| 0 <= i < n && ks[i] == Name && NameOf(init[i]) == m;
        assert ks'[i] == Name && NameOf(spans[i]) == m;
      }
    }
    forall i | 0 <= i < |spans| && ks'[i] == Name
      ensures NameOf(spans[i]) in titles'
    {
      if i < n {
        assert NameOf(init[i]) in titles;
      }
    }
    forall i | 0 <= i < |spans| && ks'[i] == Name && LastNamed(ks', spans, i)
      ensures NameOf(spans[i]) in titles' && titles'[NameOf(spans[i])] == SiblingTitleOf(spans[i].siblings)
    {
      if i < n {
        assert LastNamed(ks, init, i) by {
          forall j | i < j < n && ks[j] == Name
            ensures NameOf(init[j]) != NameOf(init[i])
          {
            assert ks'[j] == Name;
          }
        }
        if k == Name {
          assert ks'[n] == Name;
        }
      }
    }
  }
}
