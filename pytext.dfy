/**
 * The parts of Python's `str` that the transcript parser relies on: `strip`,
 * `upper`, `replace("\n", " ")`, substring search (`in`), `split(sep)`,
 * `split()` and `sep.join(...)`. Character classes are the ASCII ones.
 */
module PyText {
  import opened Wrappers

  // ---------------------------------------------------------------------------
  // Character classes

  /** `c.isspace()` restricted to ASCII: tab, newline, \x0b, \x0c, carriage
      return, the four separators \x1c..\x1f and the space. */
  predicate IsSpace(c: char) {
    c == ' ' || (9 <= c as int <= 13) || (28 <= c as int <= 31)
  }

  predicate IsUpper(c: char) { 'A' <= c <= 'Z' }

  predicate IsLower(c: char) { 'a' <= c <= 'z' }

  predicate IsDigit(c: char) { '0' <= c <= '9' }

  /** `c.isalpha()` */
  predicate IsAlpha(c: char) { IsUpper(c) || IsLower(c) }

  /** `c.isalnum()` */
  predicate IsAlnum(c: char) { IsAlpha(c) || IsDigit(c) }

  /** `c.upper()` */
  function UpperChar(c: char): (r: char)
    ensures IsLower(c) ==> IsUpper(r)
    ensures !IsLower(c) ==> r == c
  {
    if IsLower(c) then (c as int - 32) as char else c
  }

  /** `c.lower() == c` */
  predicate LowerFixes(c: char) { !IsUpper(c) }

  // ---------------------------------------------------------------------------
  // Case

  /** `s.upper()` */
  function Upper(s: string): (r: string)
    ensures |r| == |s|
  {
    if s == [] then [] else [UpperChar(s[0])] + Upper(s[1..])
  }

  /** The string holds a lower-case letter. */
  predicate HasLower(s: string) {
    exists i :: 0 <= i < |s| && IsLower(s[i])
  }

  /** `s.upper() != s` holds exactly when `s` has a lower-case letter; in
      particular the empty string equals its own upper-casing. */
  lemma {:induction false} UpperChangesIffHasLower(s: string)
    ensures Upper(s) != s <==> HasLower(s)
  {
    if s != [] {
      UpperChangesIffHasLower(s[1..]);
      assert Upper(s) == [UpperChar(s[0])] + Upper(s[1..]);
      if HasLower(s[1..]) {
        var i :| 0 <= i < |s[1..]| && IsLower(s[1..][i]);
        assert IsLower(s[i + 1]);
        assert Upper(s)[1..] != s[1..];
      } else if !IsLower(s[0]) {
        assert Upper(s) == s;
        forall i | 0 <= i < |s| ensures !IsLower(s[i]) {
          if i > 0 { assert s[i] == s[1..][i - 1]; }
        }
      }
    }
  }

  // ---------------------------------------------------------------------------
  // strip and replace

  /** Only whitespace. */
  predicate AllSpace(s: string) {
    forall j :: 0 <= j < |s| ==> IsSpace(s[j])
  }

  function TrimLeft(s: string): (r: string)
    ensures |r| <= |s|
    ensures r != [] ==> !IsSpace(r[0])
  {
    if |s| > 0 && IsSpace(s[0]) then TrimLeft(s[1..]) else s
  }

  function TrimRight(s: string): (r: string)
    ensures |r| <= |s|
    ensures r != [] ==> !IsSpace(r[|r| - 1])
  {
    if |s| > 0 && IsSpace(s[|s| - 1]) then TrimRight(s[..|s| - 1]) else s
  }

  /** `TrimLeft` keeps a suffix, after whitespace only. */
  lemma {:induction false} TrimLeftSpec(s: string)
    ensures var r := TrimLeft(s); r == s[|s| - |r|..] && AllSpace(s[..|s| - |r|])
    decreases |s|
  {
    if |s| > 0 && IsSpace(s[0]) {
      TrimLeftSpec(s[1..]);
      var r := TrimLeft(s[1..]);
      assert s[1..][..|s| - 1 - |r|] == s[1..|s| - |r|];
    }
  }

  /** `TrimRight` keeps a prefix, before whitespace only. */
  lemma {:induction false} TrimRightSpec(s: string)
    ensures var r := TrimRight(s); r == s[..|r|] && AllSpace(s[|r|..])
    decreases |s|
  {
    if |s| > 0 && IsSpace(s[|s| - 1]) {
      TrimRightSpec(s[..|s| - 1]);
      var r := TrimRight(s[..|s| - 1]);
      assert s[..|s| - 1][|r|..] == s[|r|..|s| - 1];
    }
  }

  /** `r` is `s` stripped, found at `k`: it sits at `k` with only whitespace
      before and after it, and has no whitespace at either end. */
  predicate StripAt(s: string, r: string, k: int) {
    && OccursAt(s, r, k)
    && AllSpace(s[..k])
    && AllSpace(s[k + |r|..])
    && (r != [] ==> !IsSpace(r[0]) && !IsSpace(r[|r| - 1]))
  }

  /** `r` is what `s.strip()` gives. */
  ghost predicate IsStripOf(s: string, r: string) {
    exists k :: StripAt(s, r, k)
  }

  /** `s.strip()`: `s` without leading and trailing whitespace. */
  function Strip(s: string): (r: string)
    ensures |r| <= |s|
    ensures r != [] ==> !IsSpace(r[0]) && !IsSpace(r[|r| - 1])
  {
    TrimRightSpec(TrimLeft(s));
    TrimRight(TrimLeft(s))
  }

  /** `s.strip()` is `s` stripped: it sits in `s` with only whitespace around it. */
  lemma StripSpec(s: string)
    ensures IsStripOf(s, Strip(s))
  {
    TrimmedAt(s);
  }

  /** Trimming both ends finds `s` stripped after the leading whitespace. */
  lemma TrimmedAt(s: string)
    ensures StripAt(s, TrimRight(TrimLeft(s)), |s| - |TrimLeft(s)|)
  {
    var t := TrimLeft(s);
    var r := TrimRight(t);
    var k := |s| - |t|;
    TrimLeftSpec(s);
    TrimRightSpec(t);
    SuffixSlices(s, k, |r|);
  }

  lemma SuffixSlices(s: string, k: nat, n: nat)
    requires k + n <= |s|
    ensures s[k..][..n] == s[k..k + n] && s[k..][n..] == s[k + n..]
  {
  }

  /** Stripping determines its result: one string at most is `s` stripped. */
  lemma StripUnique(s: string, r: string, r': string)
    requires IsStripOf(s, r) && IsStripOf(s, r')
    ensures r == r'
  {
    var k :| StripAt(s, r, k);
    var k' :| StripAt(s, r', k');
    if r != [] && r' != [] {
      assert !IsSpace(s[k]) && !IsSpace(s[k']);
      assert !IsSpace(s[k + |r| - 1]) && !IsSpace(s[k' + |r'| - 1]);
      assert k == k' && |r| == |r'|;
    }
  }

  /** `s.replace("\n", " ")` */
  function NewlinesToSpaces(s: string): (r: string)
    ensures |r| == |s| && '\n' !in r
  {
    seq(|s|, i requires 0 <= i < |s| => if s[i] == '\n' then ' ' else s[i])
  }

  /** Every character `from` in `s` replaced by `to`. */
  function ReplaceChar(s: string, from: char, to: char): (r: string)
    ensures |r| == |s|
  {
    if s == [] then [] else [if s[0] == from then to else s[0]] + ReplaceChar(s[1..], from, to)
  }

  // ---------------------------------------------------------------------------
  // Substring search: Python's `p in s`

  predicate OccursAt(s: string, p: string, i: int) {
    0 <= i && i + |p| <= |s| && s[i..i + |p|] == p
  }

  /** `p in s` */
  predicate Contains(s: string, p: string) {
    exists i :: 0 <= i <= |s| - |p| && OccursAt(s, p, i)
  }

  /** The first occurrence of `p` in `s` at or after `from`. */
  function FindFrom(s: string, p: string, from: nat): (r: Option<nat>)
    decreases |s| - from
    ensures r.Some? ==> from <= r.value && OccursAt(s, p, r.value)
    ensures r.Some? ==> forall j :: from <= j < r.value ==> !OccursAt(s, p, j)
    ensures r.None? ==> forall j :: from <= j ==> !OccursAt(s, p, j)
  {
    if from + |p| > |s| then None
    else if s[from..from + |p|] == p then Some(from)
    else FindFrom(s, p, from + 1)
  }

  /** `s.find(p)`, with None for -1. */
  function IndexOf(s: string, p: string): (r: Option<nat>)
    ensures r.Some? <==> Contains(s, p)
    ensures r.Some? ==> OccursAt(s, p, r.value) && forall j :: 0 <= j < r.value ==> !OccursAt(s, p, j)
  {
    var r := FindFrom(s, p, 0);
    assert r.Some? ==> OccursAt(s, p, r.value);
    r
  }

  /** An occurrence inside an occurrence is an occurrence. */
  lemma OccursWithin(s: string, t: string, u: string, i: int, j: int)
    requires OccursAt(s, t, i) && OccursAt(t, u, j)
    ensures OccursAt(s, u, i + j)
  {
    forall k | 0 <= k < |u| ensures s[i + j + k] == u[k] {
      assert s[i..i + |t|][j + k] == t[j + k];
      assert t[j..j + |u|][k] == u[k];
    }
  }

  /** A string without `p` has no piece that contains `p`. */
  lemma PieceLacks(s: string, t: string, i: int, p: string)
    requires OccursAt(s, t, i) && !Contains(s, p)
    ensures !Contains(t, p)
  {
    if Contains(t, p) {
      var j :| 0 <= j <= |t| - |p| && OccursAt(t, p, j);
      OccursWithin(s, t, p, i, j);
    }
  }

  /** `s.split(p)[0]`: the text before the first occurrence of `p`, or all of `s`. */
  function BeforeFirst(s: string, p: string): (r: string)
    requires p != []
    ensures OccursAt(s, r, 0)
    ensures !Contains(r, p)
    ensures Contains(s, p) ==> OccursAt(s, p, |r|)
    ensures !Contains(s, p) ==> r == s
  {
    match IndexOf(s, p)
    case None => s
    case Some(i) =>
      assert !Contains(s[..i], p) by {
        if Contains(s[..i], p) {
          var j :| 0 <= j <= i - |p| && OccursAt(s[..i], p, j);
          assert s[j..j + |p|] == s[..i][j..j + |p|];
          assert OccursAt(s, p, j);
        }
      }
      s[..i]
  }

  /** `s.split(p)[1]`: the text between the first and the second occurrence
      of `p` (or up to the end); None where Python raises IndexError. */
  function SecondField(s: string, p: string): (r: Option<string>)
    requires p != []
    ensures r.Some? <==> Contains(s, p)
    ensures r.Some? ==> !Contains(r.value, p)
    ensures r.Some? ==> OccursAt(s, r.value, |BeforeFirst(s, p)| + |p|)
  {
    if !Contains(s, p) then None
    else
      var b := |BeforeFirst(s, p)| + |p|;
      FieldAt(s, p, b);
      Some(BeforeFirst(s[b..], p))
  }

  /** `split(p)[0]` is cut at the first occurrence of `p`: no occurrence
      starts before its end. */
  lemma BeforeFirstIsFirst(s: string, p: string)
    requires p != []
    ensures forall j :: 0 <= j < |BeforeFirst(s, p)| ==> !OccursAt(s, p, j)
  {
    match IndexOf(s, p)
    case None =>
    case Some(i) =>
      assert BeforeFirst(s, p) == s[..i];
  }

  /** `split(p)[0]` ends at the end of `s` or where `p` occurs. */
  lemma BeforeFirstEnds(s: string, p: string)
    requires p != []
    ensures |BeforeFirst(s, p)| == |s| || OccursAt(s, p, |BeforeFirst(s, p)|)
  {
  }

  /** No occurrence of `p` starts inside `split(p)[1]`. */
  lemma SecondFieldIsNext(s: string, p: string)
    requires p != [] && Contains(s, p)
    ensures var b := |BeforeFirst(s, p)| + |p|;
            forall j :: b <= j < b + |SecondField(s, p).value| ==> !OccursAt(s, p, j)
  {
    var b := SecondFieldStart(s, p);
    FieldAt(s, p, b);
  }

  /** `split(p)[1]` runs to the next occurrence of `p` or to the end of `s`. */
  lemma SecondFieldEnds(s: string, p: string)
    requires p != [] && Contains(s, p)
    ensures var e := |BeforeFirst(s, p)| + |p| + |SecondField(s, p).value|;
            e == |s| || OccursAt(s, p, e)
  {
    var b := SecondFieldStart(s, p);
    FieldAt(s, p, b);
  }

  /** `split(p)[1]` is the first field of what follows the first `p`. */
  lemma SecondFieldStart(s: string, p: string) returns (b: nat)
    requires p != [] && Contains(s, p)
    ensures b == |BeforeFirst(s, p)| + |p| <= |s|
    ensures SecondField(s, p) == Some(BeforeFirst(s[b..], p))
  {
    var r := BeforeFirst(s, p);
    assert OccursAt(s, p, |r|);
    b := |r| + |p|;
  }

  /** The text of `s` from `b` up to the next occurrence of `p`, or to the
      end: where it sits in `s` and where it ends. */
  lemma FieldAt(s: string, p: string, b: nat)
    requires p != [] && b <= |s|
    ensures var r := BeforeFirst(s[b..], p);
            && OccursAt(s, r, b)
            && (forall j :: b <= j < b + |r| ==> !OccursAt(s, p, j))
            && (b + |r| == |s| || OccursAt(s, p, b + |r|))
  {
    var rest := s[b..];
    var r := BeforeFirst(rest, p);
    assert OccursAt(s, rest, b);
    OccursWithin(s, rest, r, b, 0);
    forall j | b <= j < b + |r|
      ensures !OccursAt(s, p, j)
    {
      SuffixOccurrence(s, p, b, j);
    }
    if Contains(rest, p) {
      OccursWithin(s, rest, p, b, |r|);
    }
  }

  /** An occurrence in `s` at `j` is one in `s[b..]` at `j - b`. */
  lemma SuffixOccurrence(s: string, p: string, b: nat, j: int)
    requires b <= j && b <= |s|
    ensures OccursAt(s, p, j) ==> OccursAt(s[b..], p, j - b)
  {
    if OccursAt(s, p, j) {
      assert s[b..][j - b..j - b + |p|] == s[j..j + |p|];
    }
  }

  // ---------------------------------------------------------------------------
  // join and the two splits

  /** `sep.join(parts)` */
  function Join(parts: seq<string>, sep: string): string
    decreases |parts|
  {
    if parts == [] then ""
    else if |parts| == 1 then parts[0]
    else parts[0] + sep + Join(parts[1..], sep)
  }

  /** A character of a joined string comes from one of the parts or from a separator. */
  lemma {:induction false} JoinChar(parts: seq<string>, sep: string, c: char)
    requires c in Join(parts, sep)
    ensures (exists i :: 0 <= i < |parts| && c in parts[i]) || (|parts| > 1 && c in sep)
  {
    if |parts| > 1 {
      var rest := Join(parts[1..], sep);
      assert Join(parts, sep) == parts[0] + sep + rest;
      if c in parts[0] {
        assert c in parts[0];
      } else if c in sep {
      } else {
        assert c in rest;
        JoinChar(parts[1..], sep, c);
        if exists i :: 0 <= i < |parts[1..]| && c in parts[1..][i] {
          var i :| 0 <= i < |parts[1..]| && c in parts[1..][i];
          assert c in parts[i + 1];
        }
      }
    }
  }

  /** `s.split(c)` for a one-character separator: the pieces between the
      occurrences of `c`; there is always at least one piece. */
  function SplitOn(s: string, c: char): (r: seq<string>)
    decreases |s|
    ensures |r| >= 1
    ensures forall i :: 0 <= i < |r| ==> c !in r[i]
    ensures Join(r, [c]) == s
  {
    if s == [] then [""]
    else
      var rest := SplitOn(s[1..], c);
      if s[0] == c then
        assert Join([""] + rest, [c]) == "" + [c] + Join(rest, [c]) by {
          assert ([""] + rest)[1..] == rest;
        }
        [""] + rest
      else
        var r := [[s[0]] + rest[0]] + rest[1..];
        assert Join(r, [c]) == [s[0]] + Join(rest, [c]) by {
          if |rest| > 1 {
            assert r[1..] == rest[1..];
          }
        }
        r
  }

  /** The end of the run of non-whitespace characters that starts at `i`. */
  function WordEnd(s: string, i: nat): (r: nat)
    requires i <= |s|
    decreases |s| - i
    ensures i <= r <= |s|
    ensures forall k :: i <= k < r ==> !IsSpace(s[k])
    ensures r < |s| ==> IsSpace(s[r])
  {
    if i == |s| || IsSpace(s[i]) then i else WordEnd(s, i + 1)
  }

  /** `s.split()`: the maximal runs of non-whitespace characters. */
  function Words(s: string): (r: seq<string>)
    decreases |s|
  {
    if s == [] then []
    else if IsSpace(s[0]) then Words(s[1..])
    else
      var k := WordEnd(s, 0);
      [s[..k]] + Words(s[k..])
  }

  /** The characters of `s` that are not whitespace, in order. */
  function NonSpace(s: string): string {
    if s == [] then [] else (if IsSpace(s[0]) then [] else [s[0]]) + NonSpace(s[1..])
  }

  function Concat(parts: seq<string>): string {
    if parts == [] then [] else parts[0] + Concat(parts[1..])
  }

  lemma {:induction false} NonSpaceAppend(a: string, b: string)
    ensures NonSpace(a + b) == NonSpace(a) + NonSpace(b)
  {
    if a == [] {
      assert a + b == b;
    } else {
      assert (a + b)[1..] == a[1..] + b;
      NonSpaceAppend(a[1..], b);
    }
  }

  lemma {:induction false} NonSpaceOfWord(w: string)
    requires forall k :: 0 <= k < |w| ==> !IsSpace(w[k])
    ensures NonSpace(w) == w
  {
    if w != [] {
      NonSpaceOfWord(w[1..]);
    }
  }

  /** `s.split()` yields non-empty words free of whitespace that, put back
      together, are exactly the non-whitespace characters of `s`. */
  lemma {:induction false} WordsSpec(s: string)
    decreases |s|
    ensures forall i :: 0 <= i < |Words(s)| ==> Words(s)[i] != []
    ensures forall i, k :: 0 <= i < |Words(s)| && 0 <= k < |Words(s)[i]| ==> !IsSpace(Words(s)[i][k])
    ensures Concat(Words(s)) == NonSpace(s)
  {
    if s == [] {
    } else if IsSpace(s[0]) {
      WordsSpec(s[1..]);
    } else {
      var k := WordEnd(s, 0);
      var w := s[..k];
      WordsSpec(s[k..]);
      assert Words(s) == [w] + Words(s[k..]);
      assert Words(s)[1..] == Words(s[k..]);
      assert s == w + s[k..];
      NonSpaceAppend(w, s[k..]);
      NonSpaceOfWord(w);
    }
  }

  /** `w` is a maximal run of non-whitespace characters of `s` starting at
      `i`: whitespace or the edge of `s` on both sides. */
  predicate RunAt(s: string, w: string, i: int) {
    && OccursAt(s, w, i)
    && w != []
    && (forall k :: 0 <= k < |w| ==> !IsSpace(w[k]))
    && (i == 0 || IsSpace(s[i - 1]))
    && (i + |w| == |s| || IsSpace(s[i + |w|]))
  }

  /** Where each word of `Words(s)` starts in `s`. */
  function WordStarts(s: string): (r: seq<nat>)
    decreases |s|
  {
    if s == [] then []
    else if IsSpace(s[0]) then Shift(WordStarts(s[1..]), 1)
    else
      var k := WordEnd(s, 0);
      [0] + Shift(WordStarts(s[k..]), k)
  }

  function Shift(xs: seq<nat>, d: nat): (r: seq<nat>)
    ensures |r| == |xs| && forall i :: 0 <= i < |xs| ==> r[i] == xs[i] + d
  {
    seq(|xs|, i requires 0 <= i < |xs| => xs[i] + d)
  }

  /** `ws` are maximal runs of non-whitespace of `s` starting at `starts`,
      each ending (and a whitespace character following it) before the next
      one starts. */
  predicate RunsOf(s: string, ws: seq<string>, starts: seq<nat>)
    decreases |ws|
  {
    && |starts| == |ws|
    && (ws != [] ==>
          && RunAt(s, ws[0], starts[0])
          && (|ws| > 1 ==> starts[0] + |ws[0]| < starts[1])
          && RunsOf(s, ws[1..], starts[1..]))
  }

  /** `s.split()` finds every word as a maximal run of non-whitespace in `s`,
      the runs in order of position and separated by whitespace. */
  lemma {:induction false} WordsAreRuns(s: string)
    decreases |s|
    ensures RunsOf(s, Words(s), WordStarts(s))
  {
    if s == [] {
    } else if IsSpace(s[0]) {
      WordsAreRuns(s[1..]);
      RunsShift(s, 1, Words(s[1..]), WordStarts(s[1..]));
    } else {
      var k := WordEnd(s, 0);
      var rest := s[k..];
      WordsAreRuns(rest);
      var ws, starts := Words(rest), WordStarts(rest);
      if ws != [] {
        RunAfterSpace(rest, ws[0], starts[0]);
      }
      RunsShift(s, k, ws, starts);
      FirstRun(s, k);
      assert Words(s) == [s[..k]] + ws;
      assert ([s[..k]] + ws)[1..] == ws;
      assert ([0] + Shift(starts, k))[1..] == Shift(starts, k);
    }
  }

  /** The runs of a suffix `s[b..]` are runs of `s`, moved by `b`, provided the
      first does not start the suffix right after a non-whitespace character. */
  lemma {:induction false} RunsShift(s: string, b: nat, ws: seq<string>, starts: seq<nat>)
    requires b <= |s| && RunsOf(s[b..], ws, starts)
    requires ws != [] ==> starts[0] > 0 || b == 0 || IsSpace(s[b - 1])
    decreases |ws|
    ensures RunsOf(s, ws, Shift(starts, b))
  {
    if ws != [] {
      RunShift(s, b, ws[0], starts[0]);
      RunsShift(s, b, ws[1..], starts[1..]);
      assert Shift(starts, b)[1..] == Shift(starts[1..], b);
    }
  }

  /** The first word of `s`, when `s` starts with one. */
  lemma FirstRun(s: string, k: nat)
    requires s != [] && !IsSpace(s[0]) && k == WordEnd(s, 0)
    ensures RunAt(s, s[..k], 0)
  {
  }

  /** No run starts on whitespace. */
  lemma RunAfterSpace(t: string, w: string, p: int)
    requires RunAt(t, w, p) && t != [] && IsSpace(t[0])
    ensures p > 0
  {
  }

  /** A run of the suffix `s[b..]` is a run of `s`, unless it starts the
      suffix and `s[b - 1]` is not whitespace. */
  lemma RunShift(s: string, b: nat, w: string, p: int)
    requires b <= |s| && RunAt(s[b..], w, p)
    requires p > 0 || b == 0 || IsSpace(s[b - 1])
    ensures RunAt(s, w, p + b)
  {
    assert s[b..][p..p + |w|] == s[p + b..p + b + |w|];
    if p > 0 {
      assert s[b..][p - 1] == s[p + b - 1];
    }
    if p + |w| < |s| - b {
      assert s[b..][p + |w|] == s[p + b + |w|];
    }
  }

  /** Joining whitespace-free, non-empty words with single spaces and
      splitting again gives the same words back. */
  lemma {:induction false} WordsOfJoin(ws: seq<string>)
    requires forall i :: 0 <= i < |ws| ==> ws[i] != []
    requires forall i, k :: 0 <= i < |ws| && 0 <= k < |ws[i]| ==> !IsSpace(ws[i][k])
    decreases |ws|
    ensures Words(Join(ws, " ")) == ws
  {
    if ws == [] {
    } else {
      var w := ws[0];
      var s := Join(ws, " ");
      if |ws| == 1 {
        assert s == w;
      } else {
        var tail := Join(ws[1..], " ");
        assert s == w + (" " + tail);
        WordsOfJoin(ws[1..]);
        assert s[|w|] == ' ';
      }
      var k := WordEnd(s, 0);
      assert s[0] == w[0];
      assert k == |w|;
      assert s[..k] == w;
      if |ws| > 1 {
        assert s[k..][1..] == Join(ws[1..], " ");
      }
    }
  }

  /** The words of each part, in order. */
  function AllWords(parts: seq<string>): seq<string>
    decreases |parts|
  {
    if parts == [] then [] else Words(parts[0]) + AllWords(parts[1..])
  }

  /** Leading whitespace adds no word. */
  lemma {:induction false} WordsAfterSpaces(sp: string, x: string)
    requires AllSpace(sp)
    ensures Words(sp + x) == Words(x)
    decreases |sp|
  {
    if sp == [] {
      assert sp + x == x;
    } else {
      assert (sp + x)[1..] == sp[1..] + x;
      WordsAfterSpaces(sp[1..], x);
    }
  }

  lemma {:induction false} WordEndAppend(x: string, y: string, i: nat)
    requires i <= |x| && (y == [] || IsSpace(y[0]))
    ensures WordEnd(x + y, i) == WordEnd(x, i)
    decreases |x| - i
  {
    if i < |x| && !IsSpace(x[i]) {
      WordEndAppend(x, y, i + 1);
    }
  }

  /** Text that starts with whitespace begins a new word: the words of
      `x + y` are those of `x`, then those of `y`. */
  lemma {:induction false} WordsAppend(x: string, y: string)
    requires y == [] || IsSpace(y[0])
    ensures Words(x + y) == Words(x) + Words(y)
    decreases |x|
  {
    if x == [] {
      assert x + y == y;
    } else if IsSpace(x[0]) {
      assert (x + y)[1..] == x[1..] + y;
      WordsAppend(x[1..], y);
    } else {
      var k := WordEnd(x, 0);
      WordEndAppend(x, y, 0);
      assert (x + y)[..k] == x[..k];
      assert (x + y)[k..] == x[k..] + y;
      WordsAppend(x[k..], y);
      AppendAssoc([x[..k]], Words(x[k..]), Words(y));
    }
  }

  /** Joining with single spaces keeps the words of every part apart:
      `" ".join(parts).split()` is the words of each part, in order. */
  lemma {:induction false} WordsOfJoined(parts: seq<string>)
    ensures Words(Join(parts, " ")) == AllWords(parts)
    decreases |parts|
  {
    if |parts| == 1 {
      assert AllWords(parts) == Words(parts[0]) + AllWords([]);
    } else if |parts| > 1 {
      var rest := Join(parts[1..], " ");
      assert Join(parts, " ") == parts[0] + (" " + rest);
      WordsAppend(parts[0], " " + rest);
      WordsAfterSpaces(" ", rest);
      WordsOfJoined(parts[1..]);
    }
  }

  /** Whitespace on either side adds no word. */
  lemma WordsAround(a: string, r: string, b: string)
    requires AllSpace(a) && AllSpace(b)
    ensures Words(a + r + b) == Words(r)
  {
    assert a + r + b == a + (r + b);
    WordsAfterSpaces(a, r + b);
    WordsAppend(r, b);
    WordsAfterSpaces(b, []);
    assert b + [] == b;
  }

  /** `s.strip().split() == s.split()`. */
  lemma WordsOfStrip(s: string)
    ensures Words(Strip(s)) == Words(s)
  {
    var r := TrimRight(TrimLeft(s));
    var k := |s| - |TrimLeft(s)|;
    TrimmedAt(s);
    assert s == s[..k] + r + s[k + |r|..];
    WordsAround(s[..k], r, s[k + |r|..]);
  }

  lemma AppendAssoc<T>(x: seq<T>, y: seq<T>, z: seq<T>)
    ensures (x + y) + z == x + (y + z)
  {
  }
}
