# Earnings-call transcript parser: a Dafny model

This project models the core of the earnings-call transcript parser:
- the `transcript` class of `pdf2text/import_pdfs.py`;
- two of the text helpers its outputs feed.

A transcript is a PDF converted to HTML. The parser proceeds in five steps:
- It cuts the HTML into the text before the presentation, the presentation
  and the question-and-answer section, at three literal markers.
- It reads the participant roster from the 10px spans before the
  presentation: role headings (EXECUTIVES, ANALYSTS, ATTENDEES), bold
  names, and italic titles.
- It classifies each 10px span of a section as a speaker, a speaker title or
  text, drops headings and footers, and merges wrapped paragraph lines into
  the entry before them.
- It turns the entries into paragraph records. Each record holds the
  speaker, the speaker's roster title and role, and the text. An "Operator
  Instructions" text is always attributed to the operator.
- It numbers each section's records from 0, tagged with the call title and
  the round.

`parse` also reads the firm name, ticker, call type and raw date from the
page header.

The two helpers are:
- From the word-list pipeline, `remove_low_freq_compounds_line`. It keeps,
  splits or drops the compounds of a phrase-tagged line, using their
  document frequency and the threshold `PHRASE_MIN_COUNT` = 20.
- From `file_util.py`, `read_large_file`, which hands out the lines in
  blocks, and `if_contains_words`.

Layout, one module per file:

| file | module | models |
|---|---|---|
| `wrappers.dfy` | `Wrappers` | `Option`, `Result`, `dict.get` |
| `pytext.dfy` | `PyText` | the Python `str` operations used: `strip`, `upper`, `split`, `join`, `replace`, `in` |
| `spans.dfy` | `Spans` | a styled span: bold, italic, plain (all 10px) or another style |
| `section_split.dfy` | `SectionSplit` | `seperate_presentation_QA` and the three markers |
| `raw_content.dfy` | `RawContent` | `soup2raw_content` |
| `roster.dfy` | `Roster` | `get_call_participants` |
| `structure.dfy` | `Structure` | `structure_content` and the paragraph index |
| `soup_text.dfy` | `SoupText` | `soup2text` and the firm-name / ticker split |
| `transcripts.dfy` | `Transcripts` | the `transcript` object: `__init__`, `parse`, `parse_contents` |
| `clean_and_train.dfy` | `CleanAndTrain` | `remove_low_freq_compounds_line` |
| `file_util.dfy` | `FileUtil` | `read_large_file`, `if_contains_words` |

How the model is built:
- Each loop of the source is a method with the same loop. The method is
  proved equal to a specification function that folds one step per
  element.
- The properties are proved about that function.
- These exceptions of the source are error values of a `Result`:
  - the `IndexError` of the section split;
  - the `UnboundLocalError` of `speaker_type` and of `TYPE`;
  - the `IndexError` of `del contents[-1]` on an empty list;
  - the `TypeError` of `parse_contents` on a transcript without a document.
- The exceptions of the sibling loop's `sib["style"]` are not modelled (see
  "Left out").

BeautifulSoup is not modelled. What it finds in a piece of HTML is an input:
- The `Transcript` methods receive one function that gives the
  " font-size:10px" spans of a section's HTML.
- They receive a second function that gives the "font-size:10px" spans of
  the pre-presentation HTML, each with the spans that follow it in its
  element (`next_siblings`).

Quirks of the code that the model keeps:
- An all-capital line is dropped as a heading. A lower-case line right after
  it at the start of a section therefore merges into an empty list, which
  raises `IndexError` (`RawContent.UpperCaseLineIsDropped`).
- The role of a speaker listed under several roles is the last matching one:
  the role loop overwrites it at each match (`Structure.SpeakerRoleSpec`).
- An "EXECUTIVES" span switches collection on whatever its style, but it
  opens a role list only when it is bold. After a plain one, the first name
  raises `UnboundLocalError` (`Roster.PlainHeadingFails`).
- A name's title is the text of the last italic span among those following
  the name (`next_siblings`). Any bold span after the name, even after an
  italic one, makes the title "" (`Roster.SiblingTitleSpec`).
- A continuation line is merged with `last_span`, the last line that opened
  an entry, not with the entry as it stands. A paragraph wrapped over three
  spans therefore keeps only its first and last lines
  (`RawContent.SecondContinuationDropsFirst`).

## Model

| member | source | states |
|---|---|---|
| SectionSplit.SeparatePresentationQASpec | pdf2text/import_pdfs.py:149-171 | Without a presentation marker, all three parts are "". The split fails exactly when the QA marker is in the document but not in the text between the first and the second presentation marker (or the end, without a second one). Otherwise the document is, in order: the text before the first presentation marker (which holds none), the marker, and the presentation. The presentation holds neither the presentation nor the QA marker. With a QA marker, the QA marker and the QA text follow the presentation, and the QA text runs to the end of the document, to an End marker, or to a second QA or presentation marker, holding none of the three markers. Without a QA marker, the QA text is "" and the presentation holds no End marker and runs to the end of the document, to an End marker or to a second presentation marker. |
| PyText.BeforeFirst | pdf2text/import_pdfs.py:154-156 | `split(p)[0]` is a prefix without `p`, followed by `p` when `p` occurs, and is the whole text otherwise |
| PyText.BeforeFirstIsFirst | pdf2text/import_pdfs.py:154-156 | `split(p)[0]` is cut at the first occurrence: no occurrence of `p` starts inside it |
| PyText.SecondField | pdf2text/import_pdfs.py:157 | `split(p)[1]` exists exactly when `p` occurs, holds no `p`, and starts right after the first `p` |
| PyText.SecondFieldIsNext | pdf2text/import_pdfs.py:157 | No occurrence of `p` starts inside `split(p)[1]` |
| PyText.SecondFieldEnds | pdf2text/import_pdfs.py:157 | `split(p)[1]` runs to the end of the text or to the next occurrence of `p` |
| RawContent.SoupToRawContent | pdf2text/import_pdfs.py:207-237 | The loop returns the entries, or raises, exactly as the span-by-span scan `RawContentOf` does |
| RawContent.FailurePersists | pdf2text/import_pdfs.py:217-236 | A prefix of the spans that raises makes the whole pass raise the same exception |
| RawContent.ScanState | pdf2text/import_pdfs.py:217-236 | After a successful pass: `speaker_type` is the kind of the last span of a known style; there is one entry per span that opened one (a merge adds none); `last_span` is the text of the latest opening span |
| RawContent.EntriesHaveLowerCase | pdf2text/import_pdfs.py:225 | Every entry kept has a lower-case letter, so none is empty |
| RawContent.MergeReplacesLastEntry | pdf2text/import_pdfs.py:226-233 | A continuation span replaces the last entry by a text entry made of the latest opening span's text, a space and its own text. The entries before it are unchanged. |
| RawContent.OpeningStep | pdf2text/import_pdfs.py:224-236 | One span, of any style, changes the entries in one of three ways. An opening span appends its entry and becomes `last_span`. A continuation span replaces only the last entry. A dropped span changes neither the entries nor `last_span`. |
| RawContent.ContinuationMerges | pdf2text/import_pdfs.py:226-233 | A text line followed by a lower-case text line gives one text entry holding both, joined by a space |
| RawContent.UpperCaseLineIsDropped | pdf2text/import_pdfs.py:225-232 | An all-capital first line is dropped, so a lower-case line after it raises the empty-list error |
| RawContent.SecondContinuationDropsFirst | pdf2text/import_pdfs.py:231-236 | A line and two continuation lines give one entry holding the first and the last line only |
| RawContent.SpeakerThenText | pdf2text/import_pdfs.py:218-236 | A bold line then a text line give a speaker entry then a text entry, each with the stripped text |
| RawContent.UnknownStyleFirstFails | pdf2text/import_pdfs.py:218-224 | A kept span of an unknown style before any known style raises (`speaker_type` unbound) |
| RawContent.ContinuationFirstFails | pdf2text/import_pdfs.py:226-232 | A section whose first kept span is a lower-case text line raises the empty-list error |
| Roster.GetCallParticipants | pdf2text/import_pdfs.py:287-336 | The loop returns the roster and titles, or raises, exactly as the span-by-span scan `ParticipantsOf` does |
| Roster.SiblingTitle | pdf2text/import_pdfs.py:320-333 | The sibling loop with its `break` gives the title `SiblingTitleOf` |
| Roster.SiblingTitleSpec | pdf2text/import_pdfs.py:321-333 | A bold sibling after the name gives title "". Otherwise the title is the cleaned text of the last italic sibling, or "" if there is none. |
| Roster.KeyIndex | pdf2text/import_pdfs.py:316 | Finds the first list with a given role. It finds none exactly when the role is not a key. |
| Roster.Put | pdf2text/import_pdfs.py:316 | Dictionary assignment keeps an existing key's place and adds a new key at the end. The other lists are unchanged. With distinct keys, the key's list is the new one. |
| Roster.AppendName | pdf2text/import_pdfs.py:334 | Appending a name leaves the keys and the other lists unchanged. It extends the role's list by the name. |
| Roster.RemoveFirst | pdf2text/import_pdfs.py:317 | `list.remove` keeps every other element. It removes one element when `x` is present. On a duplicate-free list, `x` is gone and the rest stay distinct. |
| Roster.RosterWellFormed | pdf2text/import_pdfs.py:301-335 | A returned roster has no role list twice and only the three headings as keys, and every listed name has a title |
| Roster.CollectingSpec | pdf2text/import_pdfs.py:306-311 | Collection is on after a prefix exactly when some "EXECUTIVES" span in it is followed by no footer |
| Roster.NoExecutivesNoRoster | pdf2text/import_pdfs.py:304-312 | Without an "EXECUTIVES" span the roster and titles are empty |
| Roster.RepeatedHeadingIsName | pdf2text/import_pdfs.py:314-335 | A role heading that has already been used, seen again while collecting, is appended as a name to the current role, with its sibling title |
| Roster.KindsSpec | pdf2text/import_pdfs.py:304-335 | Each span is read in the state the spans before it leave: skipped unless bold and collecting (and not a footer), a heading when its text is a pending role, a name otherwise. Which headings are pending is given by `PendingSpec`. |
| Roster.PendingSpec | pdf2text/import_pdfs.py:303-318 | After a successful prefix, the pending headings are the three role headings, in their order, that no span has been read as yet. The role lists are exactly those of the headings read, in the order they were read. |
| Roster.PendingUntilOpened | pdf2text/import_pdfs.py:313-317 | A role heading is pending exactly while its role list is not open |
| Roster.HeadingSpec | pdf2text/import_pdfs.py:306-318 | A span is read as a heading, which opens its role list, exactly when the scan has not raised, collection is on, the span is bold and not a footer, and its text is one of the three role headings that no earlier span was read as |
| Roster.RoleIsLastHeading | pdf2text/import_pdfs.py:314-318 | `TYPE` is the role heading read last |
| Roster.RolesSpec | pdf2text/import_pdfs.py:304-335 | After a successful scan, each role's list holds exactly the names read while that role was the heading read last, in order. A role never opened has no names. |
| Roster.TitlesSpec | pdf2text/import_pdfs.py:319-335 | After a successful scan, the titles hold exactly the names read. Each name's title is the sibling title of the last span read as that name. |
| Roster.PlainHeadingFails | pdf2text/import_pdfs.py:308-318 | A non-bold "EXECUTIVES" then a bold name raises (`TYPE` unbound) |
| Structure.StructureContent | pdf2text/import_pdfs.py:239-285 | The loop, with its inner role loop, returns exactly the records `Structured` |
| Structure.LastRoleIndex | pdf2text/import_pdfs.py:276-278 | The role found holds the name and no later role does. None is found exactly when no role holds it. |
| Structure.SpeakerRoleSpec | pdf2text/import_pdfs.py:275-278 | The role is "" when no list holds the speaker. Otherwise it is the role of a list that holds the speaker, with no later list holding it. |
| Structure.MakeRow | pdf2text/import_pdfs.py:279 | A record's text has no newline and the entry text's length |
| Structure.RowFields | pdf2text/import_pdfs.py:270-283 | An "Operator Instructions" text gives speaker "Operator", title "" and role "". Any other text gives the current speaker, the roster title (None exactly when the roster has none) and the last matching role. |
| Structure.RowCount | pdf2text/import_pdfs.py:263-284 | One record per text entry |
| Structure.RowOfEntry | pdf2text/import_pdfs.py:263-284 | The text entry at position j gives the record after those of the earlier text entries. That record is attributed to the latest speaker before j. |
| Structure.TitlesIgnored | pdf2text/import_pdfs.py:267-268 | Dropping the speaker-title entries changes neither the current speaker nor any record |
| Structure.Numbered | pdf2text/import_pdfs.py:109-113 | The records of a section get the call title, the round and the indices 0..n-1, in order |
| SoupText.SoupToTextKeepsContent | pdf2text/import_pdfs.py:196-205 | The text holds exactly the non-whitespace characters of the tags found, in order |
| SoupText.SoupToTextAgrees | pdf2text/import_pdfs.py:199-204 | A single tag reads like a list of that one tag, and an empty list like no match |
| SoupText.StripAll | pdf2text/import_pdfs.py:204 | One text per tag, in order. Each is its tag's text stripped: it sits in that text with only whitespace around it and has no whitespace at either end. |
| SoupText.SoupToTextWords | pdf2text/import_pdfs.py:199-205 | Splitting the text of a search result gives the words of the tags found, tag after tag. Stripping and joining with spaces never merge or split a word. |
| PyText.StripSpec | pdf2text/import_pdfs.py:202 | `s.strip()` sits in `s` with only whitespace before and after it |
| PyText.StripUnique | pdf2text/import_pdfs.py:202 | At most one string sits in `s` that way, so the `strip` result is fully determined |
| PyText.WordsAppend | pdf2text/import_pdfs.py:57 | When the second text is empty or starts with whitespace, the words of the two texts together are the words of the first followed by those of the second |
| PyText.WordsOfJoined | pdf2text/import_pdfs.py:204 | `" ".join(parts).split()` is the words of each part, in order |
| PyText.WordsOfStrip | pdf2text/import_pdfs.py:202 | `s.strip().split()` is `s.split()` |
| SoupText.NameTokens | pdf2text/import_pdfs.py:58-64 | Every kept token is a token without a colon, and every token without a colon is kept |
| SoupText.NameTokensOne | pdf2text/import_pdfs.py:59-64 | A single token is kept exactly when it has no colon |
| SoupText.NameTokensAppend | pdf2text/import_pdfs.py:59-64 | Selection works token by token: the kept tokens of a concatenation are those of each part, concatenated, so order and repeats are kept |
| SoupText.LastColonToken | pdf2text/import_pdfs.py:59-61 | It finds the last token with a colon, and finds none exactly when no token has a colon |
| SoupText.SplitFirmName | pdf2text/import_pdfs.py:57-64 | The loop gives the joined name tokens and the ticker `TickerOf` |
| SoupText.FirmSplitSpec | pdf2text/import_pdfs.py:57-64 | The firm name has no colon, and splitting it gives back exactly the kept tokens. Without a colon token the ticker keeps its old value. With one, the ticker is a whitespace-free word of the full name that holds a colon. |
| Transcripts.Transcript.constructor | pdf2text/import_pdfs.py:22-43 | The title is set and the markers are the three literal markers, all non-empty. Every other field is None. |
| Transcripts.Transcript.ParseMetadata | pdf2text/import_pdfs.py:45-79 | Sets the document, the firm's full name, name and ticker (the old ticker is kept without a colon token), the call type and the raw date |
| Transcripts.Transcript.ParseContents | pdf2text/import_pdfs.py:90-127 | Raises exactly the error of `ContentsOf`, with no field changed. Otherwise it sets the roster, and each section's fields where its block succeeds. A failed section keeps its old fields. |
| Transcripts.Transcript.Parse | pdf2text/import_pdfs.py:45-88 | The metadata of `ParseMetadata`, then `parse_contents` on the new document |
| Transcripts.ParseDocument | pdf2text/import_pdfs.py:93-124 | Split, roster, then both sections, exactly as `ContentsOf` |
| Transcripts.ParseSection | pdf2text/import_pdfs.py:102-124 | One `try` block: the section's entries and numbered records, or the exception, as `SectionOf` |
| Transcripts.SectionParagraphs | pdf2text/import_pdfs.py:106-124 | A section's paragraphs number its text entries 0..n-1 with the call title and round |
| Transcripts.EmptySection | pdf2text/import_pdfs.py:102-124 | A section without spans has no entries and no paragraphs |
| Transcripts.NoPresentationMarker | pdf2text/import_pdfs.py:93-127 | Without a presentation marker, the roster and both sections are empty |
| Transcripts.NoQAMarker | pdf2text/import_pdfs.py:158-168 | Without a QA marker, only the roster can raise. The QA section is then empty. |
| Transcripts.OneSpeakerOneParagraph | pdf2text/import_pdfs.py:90-124 | A presentation of one speaker line and one text line gives exactly one paragraph, index 0, by that speaker, with no title or role. The QA section is empty. |
| CleanAndTrain.RemoveLowFreqCompoundsLine | generate_word_list/clean_and_train.py:51-66 | The loop returns the filtered tokens `Filtered`, joined by spaces, and the id "0" |
| CleanAndTrain.Freq | generate_word_list/clean_and_train.py:57 | A frequency exists exactly when the token has an id and the id has a frequency, and it is the frequency of the token's id |
| CleanAndTrain.FilterTokenSpec | generate_word_list/clean_and_train.py:55-65 | A token without "_" is kept exactly when it has a letter, and dropped otherwise. An unknown compound is dropped. A known compound is kept at or above 20, and below 20 it is replaced by its words joined by spaces. |
| CleanAndTrain.FilteredAppend | generate_word_list/clean_and_train.py:55-65 | Filtering works token by token: filtering a concatenation concatenates the results, so order is kept |
| CleanAndTrain.SurvivorsSpec | generate_word_list/clean_and_train.py:55-65 | Every output token is non-empty. An output token that still holds "_" is a compound whose frequency reaches 20. |
| CleanAndTrain.JoinPartsReplaces | generate_word_list/clean_and_train.py:62 | `" ".join(t.split("_"))` is `t` with every "_" made a space |
| PyText.SplitOn | generate_word_list/clean_and_train.py:53 | `split(c)` gives at least one piece, none holding `c`, which joined by `c` give the text back |
| PyText.WordsSpec | pdf2text/import_pdfs.py:57 | `split()` gives non-empty, whitespace-free words that concatenate to the text without its whitespace |
| PyText.WordsAreRuns | pdf2text/import_pdfs.py:57 | The words of `split()` are the maximal whitespace-free runs of the text: each occurs at its start position, preceded and followed by whitespace or a boundary, at increasing positions with a gap between them |
| PyText.WordsOfJoin | pdf2text/import_pdfs.py:57-64 | Splitting non-empty, whitespace-free words joined by spaces gives the words back |
| PyText.UpperChangesIffHasLower | pdf2text/import_pdfs.py:225 | `s.upper() != s` exactly when `s` has a lower-case letter |
| FileUtil.ReadLargeFile | file_util.py:58-79 | The block size defaults to 10000. The blocks concatenate to the lines and none is empty. With a positive size, every block but the last has exactly that size and none is larger. Otherwise everything comes in at most one block. |
| FileUtil.IfContainsWords | file_util.py:139-146 | One flag per document, true exactly when some word of the document is in the set |
| FileUtil.CommonWord | file_util.py:145-146 | The intersection is non-empty exactly when some word of the document is in the set |

## Left out

- `pdf_to_html` (pdfminer) and the file system are not modelled. `parse` takes the converted HTML as input. The `pdf_path` handling reduces to the call title, which is given.
- BeautifulSoup parsing and its regular-expression style filters are not modelled. What the searches find is an input: the spans of a section, the roster spans with their following siblings, and the tag texts of the three header searches. Only spans are modelled among the siblings, each with its style. The `TypeError` or `KeyError` that `sib["style"]` raises on a text node or a tag without a `style` attribute (import_pdfs.py:324, 329) is therefore not modelled.
- The styles are four: the three exact 10px styles and "any other". A style string is never compared otherwise.
- `pendulum` date parsing is not modelled, so `date_EST` and `time_EST` are not modelled either; its `try` only prints on failure. `time_raw` is modelled.
- All `print` diagnostics, including the warnings of the section split and the messages of the two `try` blocks, are not modelled.
- `meta2dict`, `parse_single_pdf` and `parse_all_pdfs` (JSON, CSV and multiprocessing) are outside the core.
- pandas DataFrames are not modelled. A section's table is a sequence of records with the inserted `Title`, `ROUND` and `Paragraph` columns as fields.
- `call_participants_raw` is not modelled. It is a local that the source fills and never reads.
- The local `current_speaker_title` of `structure_content` is tracked but never read.
- Text is ASCII: `strip`, `split()`, `upper`, `lower`, `isalnum` and `isalpha` are modelled for ASCII characters only. Unicode case mapping and Unicode whitespace are not modelled.
- Roster.AppendName: the `KeyError` of `call_participants[TYPE]` is not modelled as an error, because `TYPE` is always a key once bound (`RosterInvariant`). On a role that is not a key the function returns the roster unchanged.
- Transcripts.Transcript.ParseContents: `split` refuses an empty separator with `ValueError`. The markers are fixed non-empty literals, so `NonEmptyMarkers` is a precondition established by the constructor, not an error path.
- Transcripts.Transcript.ParseContents: the source assigns each field as soon as its value is known. The model computes all values first and then assigns them. The final state and the errors are the same. The only field read back, the roster, is passed to both sections as the value just computed.
- `read_large_file` is a generator. The model collects the blocks it yields into one list, so laziness and the file handle are not modelled.
- The rest of the word-list pipeline is outside the core: the gensim phrase models and dictionary construction, the file-level `remove_low_freq_compounds_file`, `word_list.py` and `prep_coreNLP_inputs.py`. The dictionary is the two maps the filter reads.
- The other helpers of `file_util.py` (line counting, CSV reading) are file I/O and are not modelled.
