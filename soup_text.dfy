/**
 * The metadata helpers of `transcript.parse`: `soup2text`, which turns the
 * result of a BeautifulSoup search into text, and the split of the firm's full
 * name into its name tokens and its ticker (the token holding a colon).
 */
module SoupText {
  import opened Wrappers
  import opened PyText

  /** A search result, given by the texts of the tags it found: `find`
      without a match (None), `find` with a match (one Tag), or `find_all`
      (a list of Tags, possibly empty). */
  datatype FindResult = NoMatch | OneTag(text: string) | TagList(texts: seq<string>)

  /** Each text stripped: each result sits in its text with only whitespace
      around it, has no whitespace at either end, and keeps all the
      non-whitespace characters. */
  function StripAll(texts: seq<string>): (r: seq<string>)
    ensures |r| == |texts|
    ensures forall i :: 0 <= i < |r| ==> IsStripOf(texts[i], r[i])
    ensures forall i :: 0 <= i < |r| && r[i] != [] ==> !IsSpace(r[i][0]) && !IsSpace(r[i][|r[i]| - 1])
    ensures forall i :: 0 <= i < |r| ==> NonSpace(r[i]) == NonSpace(texts[i])
  {
    forall i | 0 <= i < |texts|
      ensures NonSpace(Strip(texts[i])) == NonSpace(texts[i]) && IsStripOf(texts[i], Strip(texts[i]))
    {
      StripNonSpace(texts[i]);
      StripSpec(texts[i]);
    }
    seq(|texts|, i requires 0 <= i < |texts| => Strip(texts[i]))
  }

  /** `soup2text`: "" for no match, the stripped text of a single tag, and the
      stripped texts of a list of tags joined by single spaces. */
  function SoupToText(found: FindResult): (r: string)
    ensures found.NoMatch? ==> r == ""
  {
    match found
    case NoMatch => ""
    case OneTag(text) => Strip(text)
    case TagList(texts) => Join(StripAll(texts), " ")
  }

  /** A single tag reads like a list holding only that tag, and an empty list
      like no match. */
  lemma SoupToTextAgrees(text: string)
    ensures SoupToText(OneTag(text)) == SoupToText(TagList([text]))
    ensures SoupToText(TagList([])) == SoupToText(NoMatch)
  {
  }

  lemma {:induction false} TrimLeftNonSpace(s: string)
    ensures NonSpace(TrimLeft(s)) == NonSpace(s)
    decreases |s|
  {
    if |s| > 0 && IsSpace(s[0]) {
      TrimLeftNonSpace(s[1..]);
    }
  }

  lemma {:induction false} TrimRightNonSpace(s: string)
    ensures NonSpace(TrimRight(s)) == NonSpace(s)
    decreases |s|
  {
    if |s| > 0 && IsSpace(s[|s| - 1]) {
      var init := s[..|s| - 1];
      TrimRightNonSpace(init);
      assert s == init + [s[|s| - 1]];
      NonSpaceAppend(init, [s[|s| - 1]]);
      assert NonSpace([s[|s| - 1]]) == [];
    }
  }

  /** `strip` removes only whitespace. */
  lemma StripNonSpace(s: string)
    ensures NonSpace(Strip(s)) == NonSpace(s)
  {
    TrimLeftNonSpace(s);
    TrimRightNonSpace(TrimLeft(s));
  }

  /** Joining with spaces adds only whitespace. */
  lemma {:induction false} JoinNonSpace(parts: seq<string>)
    ensures NonSpace(Join(parts, " ")) == NonSpace(Concat(parts))
    decreases |parts|
  {
    if |parts| == 1 {
      assert Concat(parts) == parts[0] + Concat([]);
      assert parts[0] + [] == parts[0];
    } else if |parts| > 1 {
      var rest := Join(parts[1..], " ");
      JoinNonSpace(parts[1..]);
      NonSpaceAppend(parts[0] + " ", rest);
      NonSpaceAppend(parts[0], " ");
      NonSpaceAppend(parts[0], Concat(parts[1..]));
      assert NonSpace(" ") == [];
      assert parts[0] + " " + rest == (parts[0] + " ") + rest;
    }
  }

  lemma {:induction false} StripAllNonSpace(texts: seq<string>)
    ensures NonSpace(Concat(StripAll(texts))) == NonSpace(Concat(texts))
    decreases |texts|
  {
    if texts != [] {
      StripAllNonSpace(texts[1..]);
      assert StripAll(texts)[1..] == StripAll(texts[1..]);
      StripNonSpace(texts[0]);
      NonSpaceAppend(Strip(texts[0]), Concat(StripAll(texts[1..])));
      NonSpaceAppend(texts[0], Concat(texts[1..]));
    }
  }

  /** The text of a search result holds exactly the non-whitespace characters
      of the tags found, in order: stripping and joining only remove or add
      whitespace. */
  lemma SoupToTextKeepsContent(found: FindResult)
    ensures found.OneTag? ==> NonSpace(SoupToText(found)) == NonSpace(found.text)
    ensures found.TagList? ==> NonSpace(SoupToText(found)) == NonSpace(Concat(found.texts))
  {
    match found
    case NoMatch =>
    case OneTag(text) => StripNonSpace(text);
    case TagList(texts) =>
      JoinNonSpace(StripAll(texts));
      StripAllNonSpace(texts);
  }

  lemma {:induction false} StripAllWords(texts: seq<string>)
    ensures AllWords(StripAll(texts)) == AllWords(texts)
    decreases |texts|
  {
    if texts != [] {
      StripAllWords(texts[1..]);
      assert StripAll(texts)[1..] == StripAll(texts[1..]);
      WordsOfStrip(texts[0]);
    }
  }

  /** The words of a search result's text are the words of the tags found,
      tag after tag: stripping and joining with spaces never merge or split a
      word. */
  lemma SoupToTextWords(found: FindResult)
    ensures found.OneTag? ==> Words(SoupToText(found)) == Words(found.text)
    ensures found.TagList? ==> Words(SoupToText(found)) == AllWords(found.texts)
  {
    match found
    case NoMatch =>
    case OneTag(text) => WordsOfStrip(text);
    case TagList(texts) =>
      WordsOfJoined(StripAll(texts));
      StripAllWords(texts);
  }

  // ---------------------------------------------------------------------------
  // The firm name and the ticker

  /** The tokens of the firm's full name that hold no colon, in order. */
  function NameTokens(tokens: seq<string>): (r: seq<string>)
    ensures forall t :: t in r <==> t in tokens && ':' !in t
    decreases |tokens|
  {
    if tokens == [] then []
    else
      var init := NameTokens(tokens[..|tokens| - 1]);
      var last := tokens[|tokens| - 1];
      assert forall t :: t in tokens <==> t in tokens[..|tokens| - 1] || t == last;
      if ':' in last then init else init + [last]
  }

  /** One token: kept exactly when it holds no colon. */
  lemma NameTokensOne(t: string)
    ensures NameTokens([t]) == if ':' in t then [] else [t]
  {
    assert [t][..0] == [];
  }

  /** The tokens of `a + b` kept are those of `a`, then those of `b`. */
  lemma {:induction false} NameTokensAppend(a: seq<string>, b: seq<string>)
    decreases |b|
    ensures NameTokens(a + b) == NameTokens(a) + NameTokens(b)
  {
    if b == [] {
      assert a + b == a;
    } else {
      var b', t := b[..|b| - 1], b[|b| - 1];
      NameTokensAppend(a, b');
      assert (a + b)[..|a + b| - 1] == a + b';
      assert b[..|b| - 1] == b';
      if ':' !in t {
        AppendAssoc(NameTokens(a), NameTokens(b'), [t]);
      }
    }
  }

  /** The position of the last token holding a colon. */
  function LastColonToken(tokens: seq<string>): (r: Option<nat>)
    ensures r.Some? ==> r.value < |tokens| && ':' in tokens[r.value]
    ensures r.Some? ==> forall j :: r.value < j < |tokens| ==> ':' !in tokens[j]
    ensures r.None? <==> forall j :: 0 <= j < |tokens| ==> ':' !in tokens[j]
    decreases |tokens|
  {
    if tokens == [] then None
    else if ':' in tokens[|tokens| - 1] then Some(|tokens| - 1)
    else
      var r := LastColonToken(tokens[..|tokens| - 1]);
      assert forall j :: 0 <= j < |tokens| - 1 ==> tokens[..|tokens| - 1][j] == tokens[j];
      r
  }

  /** `self.ticker` after the loop: the last token with a colon, or its value
      before the loop (`previous`) when no token has one. */
  function TickerOf(tokens: seq<string>, previous: Option<string>): Option<string> {
    match LastColonToken(tokens)
    case None => previous
    case Some(k) => Some(tokens[k])
  }

  /** The firm-name loop of `parse`: splits `firmFullName` on whitespace,
      joins the tokens without a colon into the firm name and keeps the last
      token with a colon as the ticker (`ticker` is its value before). */
  method SplitFirmName(firmFullName: string, ticker: Option<string>) returns (firmName: string, newTicker: Option<string>)
    ensures firmName == Join(NameTokens(Words(firmFullName)), " ")
    ensures newTicker == TickerOf(Words(firmFullName), ticker)
  {
    var firmSplitted := Words(firmFullName);
    var nameTokens: seq<string> := [];
    newTicker := ticker;
    for i := 0 to |firmSplitted|
      invariant nameTokens == NameTokens(firmSplitted[..i])
      invariant newTicker == TickerOf(firmSplitted[..i], ticker)
    {
      var token := firmSplitted[i];
      assert firmSplitted[..i + 1][..i] == firmSplitted[..i];
      if ':' in token {
        newTicker := Some(token);
      } else {
        nameTokens := nameTokens + [token];
      }
    }
    assert firmSplitted[..|firmSplitted|] == firmSplitted;
    firmName := Join(nameTokens, " ");
  }

  /** The firm name holds no colon; the ticker, when a token gives one, is a
      whitespace-free word of the full name that holds a colon; and the ticker
      keeps its earlier value exactly when no word has a colon. */
  lemma FirmSplitSpec(firmFullName: string, previous: Option<string>)
    ensures ':' !in Join(NameTokens(Words(firmFullName)), " ")
    ensures Words(Join(NameTokens(Words(firmFullName)), " ")) == NameTokens(Words(firmFullName))
    ensures var words := Words(firmFullName);
            (forall j :: 0 <= j < |words| ==> ':' !in words[j]) ==> TickerOf(words, previous) == previous
    ensures var words := Words(firmFullName);
            (exists j :: 0 <= j < |words| && ':' in words[j]) ==>
              && TickerOf(words, previous).Some?
              && ':' in TickerOf(words, previous).value
              && TickerOf(words, previous).value in words
              && forall k :: 0 <= k < |TickerOf(words, previous).value| ==> !IsSpace(TickerOf(words, previous).value[k])
  {
    var words := Words(firmFullName);
    var name := Join(NameTokens(words), " ");
    if ':' in name {
      JoinChar(NameTokens(words), " ", ':');
    }
    WordsSpec(firmFullName);
    var kept := NameTokens(words);
    assert forall i :: 0 <= i < |kept| ==> kept[i] in words;
    WordsOfJoin(kept);
  }
}
