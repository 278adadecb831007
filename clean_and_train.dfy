/**
 * `remove_low_freq_compounds_line` of the word-list pipeline: a line of the
 * phrase-tagged corpus is split on spaces and filtered token by token. A
 * compound (a token joined by "_") is kept when its document frequency in the
 * corpus dictionary reaches the phrase threshold, broken back into its words
 * below it, and dropped when the dictionary does not know it; any other token
 * is kept only when it has a letter.
 */
module CleanAndTrain {
  import opened Wrappers
  import opened PyText

  /** `global_options.PHRASE_MIN_COUNT` */
  const PhraseMinCount: int := 20

  /** The two maps of the gensim dictionary that the filter reads. */
  datatype WordFreqDict = WordFreqDict(token2id: map<string, int>, dfs: map<int, int>)

  /** `dfs.get(token2id.get(t))`: None unless both lookups succeed. */
  function Freq(d: WordFreqDict, t: string): (r: Option<int>)
    ensures r.Some? <==> t in d.token2id && d.token2id[t] in d.dfs
    ensures r.Some? ==> r.value == d.dfs[d.token2id[t]]
  {
    match Get(d.token2id, t)
    case None => None
    case Some(id) => Get(d.dfs, id)
  }

  predicate HasAlpha(t: string) {
    exists i :: 0 <= i < |t| && IsAlpha(t[i])
  }

  /** What the loop appends for token `t`: nothing, `t`, or its parts. */
  function FilterToken(d: WordFreqDict, t: string): seq<string> {
    if '_' in t then
      match Freq(d, t)
      case None => []
      case Some(freq) => if freq >= PhraseMinCount then [t] else [Join(SplitOn(t, '_'), " ")]
    else if HasAlpha(t) then [t]
    else []
  }

  /** `filtered_tokens` after the loop over `tokens`. */
  function Filtered(d: WordFreqDict, tokens: seq<string>): seq<string>
    decreases |tokens|
  {
    if tokens == [] then []
    else Filtered(d, tokens[..|tokens| - 1]) + FilterToken(d, tokens[|tokens| - 1])
  }

  /** The tokens of a line: `line.strip().split(" ")`. */
  function Tokens(line: string): seq<string> {
    SplitOn(Strip(line), ' ')
  }

  /** `remove_low_freq_compounds_line(line, id, word_freq_dict)`: the filtered
      line and the placeholder id "0". */
  method RemoveLowFreqCompoundsLine(line: string, id: string, wordFreqDict: WordFreqDict)
    returns (text: string, newId: string)
    ensures text == Join(Filtered(wordFreqDict, Tokens(line)), " ")
    ensures newId == "0"
  {
    var tokens := SplitOn(Strip(line), ' ');
    var filteredTokens: seq<string> := [];
    for i := 0 to |tokens|
      invariant filteredTokens == Filtered(wordFreqDict, tokens[..i])
    {
      var t := tokens[i];
      assert tokens[..i + 1][..i] == tokens[..i];
      if '_' in t {
        var freq := Freq(wordFreqDict, t);
        if freq.Some? {
          if freq.value >= PhraseMinCount {
            filteredTokens := filteredTokens + [t];
          } else {
            filteredTokens := filteredTokens + [Join(SplitOn(t, '_'), " ")];
          }
        }
      } else {
        if HasAlpha(t) {
          filteredTokens := filteredTokens + [t];
        }
      }
    }
    assert tokens[..|tokens|] == tokens;
    text := Join(filteredTokens, " ");
    newId := "0";
  }

  // ---------------------------------------------------------------------------
  // What the filter promises

  /** The filter works token by token: filtering a concatenation is the
      concatenation of the filtered parts, so surviving tokens keep their order. */
  lemma {:induction false} FilteredAppend(d: WordFreqDict, a: seq<string>, b: seq<string>)
    ensures Filtered(d, a + b) == Filtered(d, a) + Filtered(d, b)
    decreases |b|
  {
    if b == [] {
      assert a + b == a;
    } else {
      var b', t := b[..|b| - 1], b[|b| - 1];
      FilteredAppend(d, a, b');
      assert b == b' + [t];
      FilteredAppendSnoc(d, a, b', t);
    }
  }

  lemma FilteredAppendSnoc(d: WordFreqDict, a: seq<string>, b: seq<string>, t: string)
    requires Filtered(d, a + b) == Filtered(d, a) + Filtered(d, b)
    ensures Filtered(d, a + (b + [t])) == Filtered(d, a) + Filtered(d, b + [t])
  {
    assert a + (b + [t]) == (a + b) + [t];
    FilteredSnoc(d, a + b, t);
    FilteredSnoc(d, b, t);
    AppendAssoc(Filtered(d, a), Filtered(d, b), FilterToken(d, t));
  }

  /** One more token. */
  lemma FilteredSnoc(d: WordFreqDict, tokens: seq<string>, t: string)
    ensures Filtered(d, tokens + [t]) == Filtered(d, tokens) + FilterToken(d, t)
  {
    assert (tokens + [t])[..|tokens|] == tokens;
  }

  /** `" ".join(t.split("_"))` is `t` with every underscore made a space. */
  lemma {:induction false} JoinPartsReplaces(t: string)
    ensures Join(SplitOn(t, '_'), " ") == ReplaceChar(t, '_', ' ')
    decreases |t|
  {
    if t != [] {
      var rest := SplitOn(t[1..], '_');
      JoinPartsReplaces(t[1..]);
      if t[0] == '_' {
        assert SplitOn(t, '_') == [""] + rest;
        assert ([""] + rest)[1..] == rest;
      } else {
        var r := [[t[0]] + rest[0]] + rest[1..];
        assert SplitOn(t, '_') == r;
        if |rest| > 1 {
          assert r[1..] == rest[1..];
          assert Join(rest, " ") == rest[0] + " " + Join(rest[1..], " ");
        }
      }
    }
  }

  lemma {:induction false} ReplaceCharRemoves(s: string, from: char, to: char)
    requires from != to
    ensures from !in ReplaceChar(s, from, to)
    ensures s != [] ==> ReplaceChar(s, from, to) != []
    decreases |s|
  {
    if s != [] {
      ReplaceCharRemoves(s[1..], from, to);
    }
  }

  /** The outcome for one token: a token without "_" is kept unchanged
      exactly when it has a letter; a compound the dictionary does not know
      is dropped; a known one is kept unchanged at or above the threshold and
      otherwise replaced by its words joined with spaces. */
  lemma FilterTokenSpec(d: WordFreqDict, t: string)
    ensures '_' !in t ==> (FilterToken(d, t) == [t] <==> HasAlpha(t)) && (FilterToken(d, t) == [] <==> !HasAlpha(t))
    ensures '_' in t && Freq(d, t).None? ==> FilterToken(d, t) == []
    ensures '_' in t && Freq(d, t).Some? && Freq(d, t).value >= PhraseMinCount ==> FilterToken(d, t) == [t]
    ensures '_' in t && Freq(d, t).Some? && Freq(d, t).value < PhraseMinCount ==>
              FilterToken(d, t) == [ReplaceChar(t, '_', ' ')]
  {
    JoinPartsReplaces(t);
  }

  /** Every surviving token is non-empty, and one that still holds "_" is a
      compound whose frequency reaches the threshold. */
  lemma {:induction false} SurvivorsSpec(d: WordFreqDict, tokens: seq<string>)
    ensures forall i :: 0 <= i < |Filtered(d, tokens)| ==> Filtered(d, tokens)[i] != []
    ensures forall i :: 0 <= i < |Filtered(d, tokens)| && '_' in Filtered(d, tokens)[i] ==>
              Freq(d, Filtered(d, tokens)[i]).Some? && Freq(d, Filtered(d, tokens)[i]).value >= PhraseMinCount
    decreases |tokens|
  {
    if tokens != [] {
      var init := tokens[..|tokens| - 1];
      var t := tokens[|tokens| - 1];
      SurvivorsSpec(d, init);
      JoinPartsReplaces(t);
      ReplaceCharRemoves(t, '_', ' ');
      var out := Filtered(d, tokens);
      assert out == Filtered(d, init) + FilterToken(d, t);
      forall i | |Filtered(d, init)| <= i < |out|
        ensures out[i] != []
        ensures '_' in out[i] ==> Freq(d, out[i]).Some? && Freq(d, out[i]).value >= PhraseMinCount
      {
        assert out[i] == FilterToken(d, t)[0];
      }
      forall i | 0 <= i < |Filtered(d, init)|
        ensures out[i] == Filtered(d, init)[i]
      {
      }
    }
  }
}
