# ChatRegex text preparation and chat routing, in Dafny

ChatRegex answers questions about a Project Gutenberg novel with regular
expressions. It has two halves, and this project models both.

The first half prepares the book. It:

- collapses whitespace;
- cuts the body out of the Gutenberg frame;
- recognises chapter titles and reads the table of contents;
- normalises characters to ASCII;
- marks sentence ends with `<EOS>\n`;
- tags search-term matches with `<KEY>` markers, which `remove_special_tokens`
  deletes again.

The second half is the chat front end. It preprocesses a user message and
routes it to the first capability whose pattern matches. It renders replies
built from parts, some of them chosen at random, then post-processes the
reply text.

Every regular expression of the core is written out by hand as a character
predicate, a recursive transformer or a scan. No regex engine is modelled.

Module by module:

| module (file) | models |
|---|---|
| `Chars` (chars.dfy) | Python's `str.isspace`, `strip`, `lower`, `upper`, `split` and `"\n".join` on `seq<char>` |
| `PySets` (py_sets.dfy) | `list(set(xs))`: some duplicate-free ordering of the elements |
| `SpecialTokens` (special_tokens.dfy) | lib/special_tokens.py |
| `Tagging` (tagging.dfy) | inserting a marker after each match end, as `re.sub(pattern, r"\1<TAG>")` does |
| `AltMaps` (alt_maps.dfy) | the nested dictionary fill shared by `create_alternatives_map` and `create_permutation_map` |
| `Utils` (utils.dfy) | lib/utils.py |
| `Preprocessing` (preprocessing.dfy) | lib/preprocessing.py |
| `Store` (store.dfy) | lib/store.py |
| `SearchTerms` (search_terms.dfy) | lib/search_terms.py |
| `Responses` (ai_response.dfy) | lib/chat/AIResponse.py |
| `Chat` (chatbot.dfy) | lib/chat/ChatBot.py |
| `Dataset` (dataset.dfy) | lib/dataset.py |

Parts of the source that the model cannot see become parameters:

- The order that `list(set(...))` produces is a parameter `setOrder`. Every
  requirement on it is that it enumerates the set (`PySets.IsEnumeration`).
  So every property proved holds for every hash order.
- The search-term matcher is a parameter `find(pattern, text)`. It returns
  the ascending end offsets of the matches.
- `unicodedata.normalize("NFD", ·)` and the `Mn` category test are
  parameters `nfd` and `isMark`.
- `random.choice` and `random.sample` are replaced by a stream of draws
  `draws: nat -> nat`. The k-th choice picks index `draws(k) % |list|`.
- `add_chapter_delimiter` is a parameter `chapterDelimiter` of the
  `preprocess_data` pipeline.

Some entities are values rather than objects:

- An `AIResponse` is a datatype, because its fields are set once in
  `__init__` and never reassigned. `__str__` is the loop of
  `Responses.Render`, proved equal to the recursive `Responses.Rendering`.
- The chat bot's capability table is the constant `Chat.Capabilities`. The
  `for … else` dispatch step in `start` is the loop of `Chat.Dispatch`.
- The loops that reassign `text` or fill a dictionary are methods, each
  proved equal to a recursive specification. These are:
  - `Preprocessing.RemoveUnicodeDiacritics`;
  - `Dataset.NormalizeChapterHeadings`;
  - `Dataset.AddSearchTermTags`;
  - `Utils.AddSearchTermTags`;
  - `AltMaps.Build`;
  - `SearchTerms.BuildPatternMap`;
  - `SearchTerms.AllQueryTerms`.

Where the code and its intent differ, the model follows the code:

- **Whitespace is not idempotent.** `remove_extra_whitespace` is not
  idempotent. `x\n\n \n\ny` becomes `x\n\n\n\ny` and then `x\n\n\ny`,
  because the line strip runs after the newline cap.
- **`remove_special_tokens` is one pass.** `<A<BCD>BC>` becomes `<ABC>`.
- **The two punctuation removers differ.**
  - `preprocessing.remove_punctuation` keeps `[`, because of its class
    `[^[a-zA-Z0-9\s]`.
  - `utils.remove_punctuation` keeps `\`, because `\]` inside its class
    escapes the `]`.
- **Post-processing quirk.** `postprocess_msg("hi ")` gives `"Hi ."`. The
  trailing space defeats the `$` punctuation test, and `strip` runs last.
- **`use_synonyms=True` always fails.** `ChatBot.start` calls
  `postprocess_msg(..., use_synonyms=True)`. That reaches
  `create_text_variation`, which reads `store.response_phrase_permutation_map`,
  and lib/store.py never defines that name. So every reply in the
  interactive loop raises `AttributeError`. `Chat.PostprocessMsg` returns
  `Err(AttributeError)` on that path. Only the casing rule of
  `create_text_variation` is modelled (`Utils.MatchCasing`).
- **`utils.add_sentence_delimiter` always fails.** It refers to
  `store.RegexPatterns.Processing.SENTENCE_SPLITTING` and
  `store.SpecialTokens`, neither of which exists, so it raises
  `AttributeError`. The working version is `dataset.add_sentence_delimiter`,
  and that is the one modelled.
- **Shared copies are modelled once.** `utils.remove_extra_whitespace` and
  `utils.join_paragraph_lines` are copies of the functions in
  lib/preprocessing.py (lib/utils.py:236-275 and lib/utils.py:147-148), so
  the rows below cite only the lib/preprocessing.py lines.

## Model

| member | source | states |
|---|---|---|
| PySets.EnumerationsPermute | lib/utils.py:108 | any two orders `list(set(xs))` may produce are permutations of each other |
| PySets.EnumerationLength | lib/utils.py:108 | an order of `set(xs)` has exactly as many entries as `xs` has distinct elements |
| SpecialTokens.Marker | lib/dataset.py:279 | the tag `<KEY>` is the key plus its two angle brackets |
| SpecialTokens.MarkerOfUpper | lib/dataset.py:279 | for an upper-case key, `key.upper()` leaves it alone and the marker is `<` + key + `>` |
| SpecialTokens.RemoveSpecialTokens | lib/special_tokens.py:13-14 | the result is never longer than the input |
| SpecialTokens.TokenLength | lib/special_tokens.py:14 | a match found at the front is a `<`, three or more of `A-Z`, and `>` |
| SpecialTokens.RemoveIsSubsequence | lib/special_tokens.py:14 | the output is a subsequence of the input: the pass only deletes |
| SpecialTokens.RemovePlainPrefix | lib/special_tokens.py:14 | a prefix without `<` passes through unchanged |
| SpecialTokens.NoAngleUnchanged | lib/special_tokens.py:14 | a text without `<` is returned unchanged |
| SpecialTokens.RemoveMarker | lib/special_tokens.py:14 | a `<KEY>` with three or more capitals at the front is deleted and the scan continues after it |
| SpecialTokens.UpperTokenRemoved | lib/special_tokens.py:14 | a `<`, three or more capitals and `>` disappear completely |
| SpecialTokens.ShortRunKept | lib/special_tokens.py:14 | a `<` followed by fewer than three capitals is kept and the scan moves on by one character |
| SpecialTokens.StructuralMarkersRemoved | lib/special_tokens.py:5-14 | `<SOC>` and `<EOS>` are themselves removed, since each has three capitals |
| SpecialTokens.RemoveNotIdempotent | lib/special_tokens.py:14 | a single pass is not idempotent: `<A<BCD>BC>`, and every text of that shape, becomes `<ABC>`, which a second pass deletes |
| SpecialTokens.RemoveConcat | lib/special_tokens.py:14 | removal distributes over concatenation when the right part does not start with a capital or `>` |
| SpecialTokens.ScanSplit | lib/special_tokens.py:14 | removal splits at any point the left-to-right scan passes through |
| SpecialTokens.NoAngleScanPoint | lib/special_tokens.py:14 | in a text without `<`, every position is a point the scan passes through |
| Tagging.InsertAfter | lib/dataset.py:277-282 | inserting one marker after each match grows the text by one marker per match |
| Tagging.EraseInsert | lib/dataset.py:277-282 | deleting the inserted markers at the shifted positions restores the text |
| Tagging.RemoveInsertedMarkers | lib/dataset.py:277-282 | `remove_special_tokens` deletes `<KEY>` markers inserted at scan points, restoring what it gives on the untagged text |
| AltMaps.StripAll | lib/store.py:29 | `map(str.strip, g)`, element by element |
| AltMaps.Build | lib/store.py:27-32 | the nested loop fills the map that `BuildSpec` describes |
| AltMaps.AssignAllLookup | lib/store.py:30-31 | after assigning a list to each key in turn, the keys are the old keys plus the new ones, and each new key holds the list |
| AltMaps.KeysOfAlternatives | lib/store.py:29-31 | the keys written for a group are exactly the keys of its stripped terms |
| AltMaps.BuildSpecStep | lib/store.py:28-31 | one group adds its keys, overwrites their values with its list and leaves other keys alone |
| AltMaps.BuildSpecKeys | lib/store.py:27-31 | a key is in the map if and only if some group has a term whose stripped key it is |
| AltMaps.BuildSpecLastWins | lib/store.py:28-31 | a key holds the list of the last group that has it |
| AltMaps.BuildSpecValues | lib/store.py:29 | every stored list is a duplicate-free arrangement of one group's stripped terms |
| AltMaps.BuildSpecOwnGroup | lib/store.py:28-31 | every stored list belongs to a group that contains the key |
| Utils.ExtractUnicodeCharset | lib/utils.py:16-27 | the characters of the text that are not printable ASCII; `CharsetEmptyIffPrintable` and `CharsetConcat` state it |
| Utils.CharsetEmptyIffPrintable | lib/utils.py:16-27 | the charset is empty if and only if every character is printable ASCII |
| Utils.CharsetConcat | lib/utils.py:27 | the charset of a concatenation is the union of the charsets |
| Utils.ParenthesizeAll | lib/utils.py:108 | each alternative is wrapped in its own parentheses |
| Utils.ReUnion | lib/utils.py:98-108 | the union is parenthesised at both ends |
| Utils.JoinParenthesized | lib/utils.py:108 | `"(" + ")\|(".join(xs) + ")"` is the `\|`-join of the parenthesised alternatives |
| Utils.ReUnionAlternatives | lib/utils.py:98-108 | every distinct argument appears exactly once as a parenthesised alternative, separated by `\|`, in the order of the set |
| Utils.RemovePunctuation | lib/utils.py:216-233 | no character of the deleted class is left, and a backslash survives |
| Utils.RemovePunctuationUnchanged | lib/utils.py:228 | the text is unchanged if and only if it holds no deleted character |
| Utils.RemovePunctuationIdempotent | lib/utils.py:228 | applying it twice is the same as once |
| Utils.RemovePunctuationConcat | lib/utils.py:228 | it works character by character, so it distributes over concatenation |
| Utils.Title | lib/utils.py:325 | `str.title`: upper case after a non-letter, lower case after a letter |
| Utils.TitleIsTitle | lib/utils.py:324-325 | a title-cased string passes the `istitle` test |
| Utils.MatchCasing | lib/utils.py:320-327 | the synonym in the casing of the original; `MatchCasingKeepsClass` states it |
| Utils.MatchCasingKeepsClass | lib/utils.py:320-325 | the synonym takes the original's casing: lower if lower, upper if upper, title if title, else as drawn |
| Utils.SpacedMarker | lib/utils.py:208 | the inserted text ` <KEY>` is the key plus three characters |
| Utils.AddSearchTermTags | lib/utils.py:169-213 | the loop over the entries computes `TagAll`, one `\b(...)\b` pass per key over `[key] + terms` |
| Utils.TagAll | lib/utils.py:169-213 | one `\b(...)\b` tagging pass per entry, in order; `AddSearchTermTags` and `UntagTagAll` state it |
| Utils.TagTrace | lib/utils.py:181-211 | one pass is recorded per entry |
| Utils.UntagTagAll | lib/utils.py:185-211 | deleting the ` <KEY>` insertions, pass by pass in reverse, restores the input |
| Utils.CreatePermutationMap | lib/utils.py:278-290 | the nested loop fills the map, keyed by the lower-cased stripped term |
| Utils.PermutationMapKeys | lib/utils.py:284-290 | every key is lower case, and every value is a de-duplicated arrangement of some group's stripped terms |
| Utils.LowerStrIdempotent | lib/utils.py:288 | lower-casing a key twice is the same as once |
| Preprocessing.RemovePunctuation | lib/preprocessing.py:25-29 | every character of the result is kept by the class: `[`, an ASCII letter or digit, or whitespace |
| Preprocessing.RunsToSpaceKept | lib/preprocessing.py:25-29 | text made only of kept characters is unchanged |
| Preprocessing.RemovePunctuationIdempotent | lib/preprocessing.py:25-29 | applying it twice is the same as once |
| Preprocessing.RunsToSpaceConcat | lib/preprocessing.py:25-29 | the scan splits at any point, carrying whether the last character was replaced |
| Preprocessing.RemovePunctuationRun | lib/preprocessing.py:25-29 | a maximal run of replaced characters between kept ones becomes exactly one space |
| Preprocessing.CollapseHSpace | lib/preprocessing.py:56-60 | after the first substitution no two horizontal whitespace characters are adjacent and each is a space |
| Preprocessing.CollapseHSpaceKeepsText | lib/preprocessing.py:56-60 | the non-whitespace characters are kept, in order |
| Preprocessing.CapNewlines | lib/preprocessing.py:63-67 | the first character is kept or stays a line break |
| Preprocessing.CapNewlinesSingleSpaced | lib/preprocessing.py:63-67 | capping newline runs keeps the text single-spaced |
| Preprocessing.CapNewlinesKeepsText | lib/preprocessing.py:63-67 | the non-whitespace characters are kept, in order |
| Preprocessing.DropLeadingHSpace | lib/preprocessing.py:70 | no space is left directly after a newline, and single spacing is kept |
| Preprocessing.DropLeadingKeepsText | lib/preprocessing.py:70 | the non-whitespace characters are kept, in order |
| Preprocessing.DropTrailingShape | lib/preprocessing.py:71 | no space is left directly before a newline, and the earlier guarantees are kept |
| Preprocessing.DropTrailingKeepsText | lib/preprocessing.py:71 | the non-whitespace characters are kept, in order |
| Preprocessing.StagesShape | lib/preprocessing.py:56-71 | after the four substitutions the text is single-spaced with no space at a line edge |
| Preprocessing.StagesKeepText | lib/preprocessing.py:56-71 | the four substitutions keep the non-whitespace characters, in order |
| Preprocessing.StripShape | lib/preprocessing.py:76 | stripping keeps the line guarantees and leaves no whitespace at either end |
| Preprocessing.StripKeepsText | lib/preprocessing.py:76 | stripping keeps the non-whitespace characters, in order |
| Preprocessing.RemoveExtraWhitespace | lib/preprocessing.py:37-76 | the four substitutions, then `strip`; the lemmas below state its result |
| Preprocessing.RemoveExtraWhitespaceShape | lib/preprocessing.py:37-76 | the result is single-spaced, has no space next to a newline, and no whitespace at either end |
| Preprocessing.RemoveExtraWhitespaceKeepsText | lib/preprocessing.py:37-76 | the non-whitespace characters are kept, in order |
| Preprocessing.RemoveExtraWhitespaceFixedPoint | lib/preprocessing.py:37-76 | a text that already meets the guarantees and has no run of four line breaks is unchanged |
| Preprocessing.RemoveExtraWhitespaceNotIdempotent | lib/preprocessing.py:63-71 | not idempotent: `x\n\n \n\ny` needs a second pass |
| Preprocessing.JoinParagraphLines | lib/preprocessing.py:79-89 | the length is preserved |
| Preprocessing.JoinParagraphLinesPointwise | lib/preprocessing.py:88-89 | each character is kept, except a newline the non-overlapping scan finds between two non-whitespace characters, which becomes a space |
| Preprocessing.JoinParagraphLinesKeepsText | lib/preprocessing.py:88-89 | the non-whitespace characters are kept, in order |
| Preprocessing.JoinParagraphLinesUnchanged | lib/preprocessing.py:88-89 | text with no joinable newline is unchanged |
| Preprocessing.Words | lib/preprocessing.py:171-181 | the maximal `\w` runs are non-empty |
| Preprocessing.KeepWords | lib/preprocessing.py:171-181 | the kept words are words of the input and not stop words |
| Preprocessing.RemoveStopwords | lib/preprocessing.py:159-186 | a leading non-word character is kept |
| Preprocessing.RemoveStopwordsConcatWord | lib/preprocessing.py:171-181 | a whole word at the front is deleted exactly when it is a stop word, ignoring case |
| Preprocessing.RemoveStopwordsWords | lib/preprocessing.py:171-181 | the words of the result are the input's words without the stop words, in order |
| Preprocessing.RemoveStopwordsKeepsNonWords | lib/preprocessing.py:171-181 | all non-word characters are kept, in order |
| Preprocessing.RemoveStopwordsIdempotent | lib/preprocessing.py:171-181 | applying it twice is the same as once |
| Preprocessing.DropChars | lib/preprocessing.py:109 | `str.replace(char, "")` for a set of characters: what is left is exactly the characters not in the set |
| Preprocessing.DropCharsTwice | lib/preprocessing.py:107-109 | two rounds of deletion equal one round with the union of the sets |
| Preprocessing.MarksAmong | lib/preprocessing.py:107-108 | the characters of the charset that are marks |
| Preprocessing.DropMarkStep | lib/preprocessing.py:107-109 | one loop iteration deletes the next character exactly when it is a mark |
| Preprocessing.RemoveUnicodeDiacritics | lib/preprocessing.py:92-111 | the loop deletes every non-ASCII mark of the decomposed text |
| Preprocessing.DiacriticsRemovedChars | lib/preprocessing.py:104-109 | no non-ASCII mark is left, and every other character of the decomposed text is |
| Preprocessing.Translate | lib/preprocessing.py:150 | `str.translate` with the replacement table, character by character; `TranslateConcat`, `TranslateCharset` and `TranslateUnchanged` state it |
| Preprocessing.TranslateChar | lib/preprocessing.py:132-147 | characters outside the table are kept, and table entries map to printable ASCII |
| Preprocessing.TranslateConcat | lib/preprocessing.py:150 | `str.translate` works character by character |
| Preprocessing.TranslateCharset | lib/preprocessing.py:150-153 | no table character is left, and the non-ASCII charset loses exactly the table characters |
| Preprocessing.TranslateUnchanged | lib/preprocessing.py:150 | text with no table character is unchanged |
| Preprocessing.NormalizeCharacterSet | lib/preprocessing.py:114-156 | the result is the translated text with diacritics removed, and it holds no table character and no non-ASCII mark |
| Preprocessing.NormalizeAsciiUnchanged | lib/preprocessing.py:104-150 | any ASCII input (control characters included) that decomposition leaves alone comes back unchanged, given that no ASCII character is a combining mark |
| Store.CreateAlternativesMap | lib/store.py:21-32 | the nested loop fills the map of stripped terms to their group's de-duplicated list |
| Store.AlternativesMapKeys | lib/store.py:27-31 | the keys are exactly the stripped terms across all groups, not lower-cased |
| Store.AlternativesMapValues | lib/store.py:29-31 | every value lists its own key, has no duplicates, and arranges one group's stripped terms |
| Store.AlternativesMapLastWins | lib/store.py:28-31 | when several groups hold a term, the last of them supplies its list |
| Store.Body | lib/store.py:16-18 | `$` matches at the end or before one final newline |
| Store.AnchoredMatch | lib/store.py:16-18 | an anchored alternation matches when one of its branches matches the whole body; `AnchoredMatchBranches` and the three `...MatchesOnly` lemmas state it |
| Store.WordMatch | lib/store.py:16-18 | an anchored word matches exactly the messages whose body is that word, ignoring case |
| Store.BranchWords | lib/store.py:18 | an alternative with an optional suffix matches the word with or without it |
| Store.AnchoredMatchBranches | lib/store.py:16-18 | an alternation matches if and only if its first alternative or the rest does |
| Store.HelpMatchesOnly | lib/store.py:16 | only `help` and `h` match the help command |
| Store.QuitMatchesOnly | lib/store.py:17 | only `exit`, `quit` and `q` match the quit command |
| Store.ExampleMatchesOnly | lib/store.py:18 | only `example`, `examples` and `ex` match the example command |
| Store.StopWordsValid | lib/store.py:114-242 | the stop words are lower-case words, usable as the stop list |
| SearchTerms.Keys | lib/search_terms.py:72 | the keys of an ordered dictionary, in order |
| SearchTerms.IndexOf | lib/search_terms.py:67 | the position of a key, or none when the key is absent |
| SearchTerms.AllQueryTerms | lib/search_terms.py:63-67 | the copy-then-extend loop computes `MergeSpec`, raising `KeyError` for a chat key that is missing |
| SearchTerms.ExtendKeepsKeys | lib/search_terms.py:67 | extending one list in place keeps the keys and their order |
| SearchTerms.KeysInTail | lib/search_terms.py:66-67 | every chat key is present if and only if the first is, and so are the rest after the extension |
| SearchTerms.MergeSpec | lib/search_terms.py:63-67 | the chat lists appended to the book lists key by key; `MergeSpecError` and `MergeSpecValues` state it |
| SearchTerms.MergeSpecError | lib/search_terms.py:66-67 | the merge succeeds if and only if every chat key is a key of the copy, and otherwise fails with `KeyError` on a missing key |
| SearchTerms.MergeSpecValues | lib/search_terms.py:63-67 | the keys are kept, and each list is the book list followed by the chat lists for that key |
| SearchTerms.AllQueryTermsOk | lib/search_terms.py:63-67 | for the real keys, `perpetrator` and `crime` are extended and the other two keep their book lists |
| SearchTerms.BuildPatternMap | lib/search_terms.py:70-77 | the loop computes `PatternMapSpec` |
| SearchTerms.PatternMapSpec | lib/search_terms.py:70-77 | one pattern per key, in order; `PatternMapSpecAt` and `PatternMapEntries` state it |
| SearchTerms.PatternMapSpecAt | lib/search_terms.py:72-75 | one entry per key, in order, each `\b(` + `re_union(v)` + `)\b` |
| SearchTerms.PatternMapEntries | lib/search_terms.py:71-77 | the key set is preserved, and each pattern lists every distinct term exactly once inside one group |
| Responses.Init | lib/chat/AIResponse.py:37-40 | the constructor stores the parts, the join string (default `" "`) and `fn` (default none) |
| Responses.Rendering | lib/chat/AIResponse.py:42-61 | `str(reply)` with the next unused draw; `Render` is its loop, and the lemmas below state what it yields |
| Responses.Render | lib/chat/AIResponse.py:42-61 | the loop over the parts computes `Rendering`, with the same draws consumed |
| Responses.RenderFromBound | lib/chat/AIResponse.py:43-59 | each part adds at most one piece, and earlier pieces are kept |
| Responses.PiecesAtMostParts | lib/chat/AIResponse.py:44-61 | at most as many pieces are joined as there are parts |
| Responses.Texts | lib/chat/AIResponse.py:45-49 | the string parts kept are non-empty, and there are no more of them than parts |
| Responses.RenderFromStrings | lib/chat/AIResponse.py:45-49 | string parts are kept verbatim and empty ones skipped |
| Responses.StringsVerbatim | lib/chat/AIResponse.py:45-61 | a reply made only of strings renders as the join of its non-empty strings, using no draw |
| Responses.FalsyChoiceSkipped | lib/chat/AIResponse.py:50-55 | a list part whose drawn element is falsy adds nothing |
| Responses.ChoiceContributesOne | lib/chat/AIResponse.py:50-55 | a list part contributes exactly its drawn element, rendered if it is a reply |
| Responses.NestedAlwaysAppended | lib/chat/AIResponse.py:56-57 | a nested reply is always rendered and appended, even when it renders empty |
| Responses.RenderFromPrefix | lib/chat/AIResponse.py:44-59 | while the parts shared with a shorter reply render without an exception, the loop runs the same and goes on with the same pieces and draw |
| Responses.BadPartRaises | lib/chat/AIResponse.py:52-59 | once the parts before it render without an exception, a part of another type raises `TypeError`, and an empty list raises `IndexError` |
| Responses.Deterministic | lib/chat/AIResponse.py:44-61 | a reply without list parts renders the same text for every draw stream and uses no draw |
| Responses.RenderingIgnoresFn | lib/chat/AIResponse.py:40-61 | rendering does not depend on, or call, the stored `fn` |
| Chat.LineEnd | lib/chat/ChatBot.py:16-18 | a `.*` group stops at the next newline or at the end |
| Chat.LastAnd | lib/chat/ChatBot.py:18 | the greedy `.*` before ` and ` ends at the last ` and ` within the line |
| Chat.Match | lib/chat/ChatBot.py:13-18 | `re.match` of each capability pattern under IGNORECASE, with its named groups; `OnlyFirstReachesFirstMention`, `CooccurSplitsAtLastAnd` and `QuitWithPunctuation` state it |
| Chat.FirstMatch | lib/chat/ChatBot.py:173-181 | the `for ... else` over the capability table; `FirstMatchWins` and `FirstMatchAt` state it |
| Chat.Respond | lib/chat/ChatBot.py:36-145 | the reply of the chosen handler, or the fallback; `OnlyQuitExits`, `ExampleResponse` and `AnalysisStubs` state it |
| Chat.Dispatch | lib/chat/ChatBot.py:165-181 | an empty preprocessed message is skipped, and otherwise the first matching capability, or the fallback, is chosen |
| Chat.FirstMatchWins | lib/chat/ChatBot.py:173-181 | the chosen entry matches and no earlier entry does, and the fallback is used exactly when no entry matches |
| Chat.FirstMatchAt | lib/chat/ChatBot.py:173-179 | the first matching entry is chosen with its named groups, and later entries are never tried |
| Chat.OnlyFirstReachesFirstMention | lib/chat/ChatBot.py:16 | only messages starting with `first ` reach the first-mention handler, with the rest of the line as `entity` |
| Chat.CooccurSplitsAtLastAnd | lib/chat/ChatBot.py:18 | `entity1` extends greedily to the last ` and ` of the line, and `entity2` is the rest |
| Chat.QuitComesFirst | lib/chat/ChatBot.py:25-34 | a message the quit pattern matches always goes to quit, the first entry |
| Chat.PreprocessMsg | lib/chat/ChatBot.py:195-200 | `strip` of `remove_extra_whitespace` of `remove_punctuation`; `PreprocessMsgShape` states its result |
| Chat.PreprocessMsgShape | lib/chat/ChatBot.py:196-200 | `preprocess_msg` is strip of `remove_extra_whitespace` of `remove_punctuation`, and its result has no punctuation and clean spacing |
| Chat.PunctuationAfterWord | lib/chat/ChatBot.py:196-200 | trailing punctuation is dropped from a word |
| Chat.QuitWithPunctuation | lib/chat/ChatBot.py:165-179 | `quit!` and the like dispatch to quit |
| Chat.PunctuationJoinsWord | lib/chat/ChatBot.py:198 | punctuation inside a word is deleted, so `co-occur` becomes `cooccur` |
| Chat.DropSpaceBeforeClosing | lib/chat/ChatBot.py:208 | the result is no longer, and is empty only for empty input |
| Chat.DropFirst | lib/chat/ChatBot.py:208 | the first character is kept unless it starts a whitespace run before `.,!?;:` |
| Chat.DropLeavesNoSpaceBeforeClosing | lib/chat/ChatBot.py:208 | no whitespace is left directly before `.,!?;:` |
| Chat.DropKeepsText | lib/chat/ChatBot.py:208 | the non-whitespace characters are kept, in order |
| Chat.DropNoClosing | lib/chat/ChatBot.py:208 | text without a whitespace run before `.,!?;:` is unchanged |
| Chat.PostprocessMsg | lib/chat/ChatBot.py:202-214 | the four steps of `postprocess_msg`, and `AttributeError` with synonyms; `PostprocessMsgResult`, `PostprocessMsgCapitalises` and `PostprocessMsgNoSpaceBeforeClosing` state it |
| Chat.PostprocessMsgResult | lib/chat/ChatBot.py:203-214 | an empty message raises `IndexError`, and otherwise the result ends in ASCII punctuation other than backslash |
| Chat.PunctuatedEnd | lib/chat/ChatBot.py:212-214 | after the final-period rule and the strip, the last character is punctuation |
| Chat.PostprocessMsgCapitalises | lib/chat/ChatBot.py:210 | the first character is upper-cased |
| Chat.PunctuatedNoSpaceBeforeClosing | lib/chat/ChatBot.py:209-213 | capitalising and the final-period rule leave no whitespace before `.,!?;:`, except before the last character |
| Chat.PostprocessMsgNoSpaceBeforeClosing | lib/chat/ChatBot.py:203-214 | for every message that does not raise, the result has no whitespace directly before `.,!?;:`, except before its last character, where an appended period may follow a trailing space (`"hi "` gives `"Hi ."`) |
| Chat.TrailingSpaceBeforePeriod | lib/chat/ChatBot.py:208-214 | a word with a trailing space becomes the capitalised word followed by ` .` |
| Chat.ExampleResponse | lib/chat/ChatBot.py:70-78 | the example reply stores no `fn` |
| Chat.OnlyQuitExits | lib/chat/ChatBot.py:51-56 | only the quit reply carries `fn`, and it is `sys.exit(0)` |
| Chat.AnalysisStubs | lib/chat/ChatBot.py:132-145 | the words-around and co-occurrence handlers return constant text whatever their arguments |
| Dataset.HeaderLength | lib/dataset.py:16 | a delimiter line starts with `*` after its leading whitespace |
| Dataset.DelimiterFrom | lib/dataset.py:15-17 | a delimiter found at a position ends after it |
| Dataset.TitleEnd | lib/dataset.py:16 | the title of a delimiter ends after it starts |
| Dataset.DelimiterAt | lib/dataset.py:85 | a delimiter match found at a position ends after it |
| Dataset.TitleEndSound | lib/dataset.py:16 | a title found is `[\w ]+` followed by ` ***` at the end of a line |
| Dataset.TitleEndComplete | lib/dataset.py:16 | every title followed by ` ***` at the end of a line is found |
| Dataset.DelimiterFromSound | lib/dataset.py:15-17 | a delimiter found is a whole delimiter line |
| Dataset.DelimiterFromHeader | lib/dataset.py:16 | a delimiter found splits into its `*** START`/`END OF THE PROJECT GUTENBERG EBOOK` header and its title |
| Dataset.DelimiterLineParts | lib/dataset.py:16 | a delimiter line splits into header, title and trailer |
| Dataset.DelimiterFromComplete | lib/dataset.py:15-17 | every delimiter line at a line start is found |
| Dataset.SplitSpans | lib/dataset.py:85 | `re.split` separators are matches, in order and not overlapping |
| Dataset.SplitSpansNone | lib/dataset.py:85-91 | with no match there is no separator |
| Dataset.SplitSpansCover | lib/dataset.py:85 | the leftmost scan misses no match: every match either starts a separator, with the same end, or starts strictly inside one |
| Dataset.SplitSpansPair | lib/dataset.py:85 | when every match up to one point ends at `m`, every later one up to `b` ends at `e`, and none starts after, the split finds exactly two separators |
| Dataset.DelimiterAtIsMatch | lib/dataset.py:15-17 | `DELIM_PROJ_GUTENBERG` under MULTILINE matches from `p` to `e` exactly when `p` starts a line, whitespace (possibly blank lines) runs to some `q`, and `q..e` is a whole delimiter line ending a line |
| Dataset.DelimiterLineNoNewline | lib/dataset.py:16 | a delimiter line holds no line break |
| Dataset.MatchesNest | lib/dataset.py:15-17 | two matches either end at the same delimiter line or do not overlap |
| Dataset.DelimiterEndListed | lib/dataset.py:85 | every delimiter line some match reaches ends one of the separators |
| Dataset.ExtractBody | lib/dataset.py:72-95 | the result is never longer than the text, and it is the text itself or a stripped part of it |
| Dataset.ExtractBodyNoDelimiter | lib/dataset.py:85-91 | a text with no match of the delimiter pattern is returned unchanged |
| Dataset.NoStarNoDelimiter | lib/dataset.py:16 | a text without `*` holds no match of the delimiter pattern |
| Dataset.ExtractBodyFramed | lib/dataset.py:72-95 | a preamble ending a line, a START line, the body, an END line and a tail starting a line, with no match inside the preamble, the body or the tail: the result is the stripped body |
| Dataset.ExtractBodyOneDelimiter | lib/dataset.py:85-91 | when every match ends at the same delimiter line, the split gives two parts and the text is returned unchanged |
| Dataset.ExtractBodyThreeDelimiters | lib/dataset.py:85-91 | matches ending at three different delimiter lines make four parts or more, and the text is returned unchanged |
| Dataset.MatchesChapterTitle | lib/dataset.py:98-112 | `re.match(CHAPTER_TITLE, text, IGNORECASE)` as a prefix test; `ChapterTitleIsRegexMatch` proves it agrees with the pattern |
| Dataset.ChapterTitleIsRegexMatch | lib/dataset.py:26-30 | the prefix test holds if and only if some match of the chapter-title pattern exists |
| Dataset.PrefixedChapter | lib/dataset.py:183 | `Chapter ` + e matches if and only if e starts with a digit or one of `MDCLXVI` |
| Dataset.ChapterTitleExtends | lib/dataset.py:107-112 | a prefix match survives any continuation |
| Dataset.ChapterTitleIgnoresCase | lib/dataset.py:110 | the test ignores case |
| Dataset.Leftmost | lib/dataset.py:126-130 | `re.search` finds the leftmost match, or none |
| Dataset.TripleFrom | lib/dataset.py:32 | the first three newlines in a row at or after a position, where the block's `$\n\n` ends, or none |
| Dataset.TocAt | lib/dataset.py:32 | a contents block found at a position ends after its heading |
| Dataset.DropContentsHeading | lib/dataset.py:138-142 | removing `^Contents\n+` never lengthens the block |
| Dataset.TocAtShape | lib/dataset.py:32 | a block found starts a line with `Contents` and a newline and ends with an empty line |
| Dataset.GetToc | lib/dataset.py:115-148 | the leftmost contents block and its entries, or none and `[]`; `GetTocNone` and `GetTocSome` state it |
| Dataset.GetTocNone | lib/dataset.py:131-133 | no block is found exactly when no position starts one, and then the entries are `[]` |
| Dataset.GetTocSome | lib/dataset.py:126-148 | the leftmost block is returned, and its entries are the stripped block without the heading, split on newlines |
| Dataset.NormalizeSpec | lib/dataset.py:151-193 | one `NormalizeStep` per table-of-contents entry, in order; `NormalizeStepSkips`, `NormalizeAllSkipped` and `NormalizeStepRewritesLine` state what a step does |
| Dataset.NormalizeChapterHeadings | lib/dataset.py:151-193 | the loop over the entries computes `NormalizeSpec` |
| Dataset.NormalizeStepSkips | lib/dataset.py:163-191 | an entry that already matches, or whose `Chapter` form still does not, changes nothing; otherwise every occurrence is replaced |
| Dataset.NormalizeAllSkipped | lib/dataset.py:163-193 | when every entry is skipped, the text is unchanged |
| Dataset.ReplaceAllNoMatch | lib/dataset.py:191 | a pattern that occurs nowhere changes nothing |
| Dataset.ReplaceAllSelf | lib/dataset.py:191 | the whole pattern is replaced |
| Dataset.ReplaceAllNewlineFirst | lib/dataset.py:191 | a leading newline, which no pattern of a single line can start at, is kept |
| Dataset.ReplaceAllLines | lib/dataset.py:191 | for a pattern without newlines, replacement works line by line |
| Dataset.ReplaceAllOwnLine | lib/dataset.py:191 | an entry on its own line is replaced there |
| Dataset.NormalizeStepRewritesLine | lib/dataset.py:182-191 | an entry on its own line becomes `Chapter ` + entry |
| Dataset.AddSentenceDelimiter | lib/dataset.py:243-258 | `re.sub(SENTENCE_SPLITTING, "<EOS>\n")`: each boundary character replaced, every other kept; `SentencePieceShape` and `RemoveSentenceMarkers` state it |
| Dataset.NewlineAtBoundaries | lib/dataset.py:254-258 | the text with each boundary whitespace turned into a newline has the same length |
| Dataset.BoundaryIsSpace | lib/dataset.py:43-45 | every boundary is a whitespace character |
| Dataset.SentencePieceShape | lib/dataset.py:254-258 | a boundary whitespace becomes `<EOS>\n`, and every other character is kept |
| Dataset.RemoveSentenceMarkers | lib/dataset.py:254-258 | removing the special tokens from the delimited text leaves the input with each boundary whitespace turned into a newline |
| Dataset.NoSentenceEndUnchanged | lib/dataset.py:43-45 | text with none of `. ! ? : " '` is unchanged |
| Dataset.FullStopEndsSentence | lib/dataset.py:43 | whitespace after a `.` that ends a lower-case word of two or more letters is a boundary |
| Dataset.AbbreviationKeepsSentence | lib/dataset.py:38-41 | no boundary after `Mr.`, `Mrs.` and the other listed abbreviations |
| Dataset.CommaQuoteKeepsSentence | lib/dataset.py:42 | no boundary after `,"` |
| Dataset.InitialKeepsSentence | lib/dataset.py:37 | no boundary after a capital initial `X.` |
| Dataset.WordDotWordKeepsSentence | lib/dataset.py:35 | no boundary right after a word character, `.`, a word character and one more character other than a line break (`e.g. `) |
| Dataset.AddSearchTermTags | lib/dataset.py:261-284 | the loop over the pattern map applies one tagging pass per key, in order |
| Dataset.RemoveSearchTermTags | lib/dataset.py:277-282 | when every tag lands at a point the removal scan passes through, removing special tokens undoes all passes |
| Dataset.TagPasses | lib/dataset.py:261-284 | the tagging passes, one per key in the map's order; `AddSearchTermTags`, `RemoveSearchTermTags` and `TagPassesNoMatch` state it |
| Dataset.TagPassesNoMatch | lib/dataset.py:273-284 | with no match the text is unchanged |
| Dataset.PreprocessSpec | lib/dataset.py:287-317 | the whole pipeline in source order; `PreprocessData` states what its result holds |
| Dataset.PreprocessData | lib/dataset.py:287-317 | the pipeline runs in source order; its text holds no table character, and removing special tokens leaves the normalised text with a newline at each sentence boundary |

## Left out

- File and process plumbing: `read_data`, main.py, the logging calls, the
  interactive `input`/`print` loop and `KeyboardInterrupt` handling in
  `ChatBot.start`. These are I/O. Only the dispatch step of `start` is
  modelled.
- `sys.exit(0)` in the quit `fn` is the value `Exit(0)`. It is stored and
  never run.
- `add_chapter_delimiter` is a parameter of the pipeline. Its pattern anchors
  only some alternatives, and `\1` names whichever alternative the hash order
  of `re_union` puts first, so its result depends on the run.
- `ChatBot.__get_first_mention` becomes the reply `FirstMentionLookup(entity)`.
  It uses names that lib/store.py does not define, and the book index it
  would consult is not part of this model.
- The regex matcher behind the search-term patterns is a parameter.
  `Dataset.RemoveSearchTermTags` and `Dataset.PreprocessData` require that every
  match ends at a point the removal scan passes through. That always holds
  for text without `<` (`SpecialTokens.NoAngleScanPoint`).
- Randomness becomes draw streams: `random.choice` in `AIResponse.__str__` and
  in `create_text_variation`, and `random.sample` in `__cmd_example`, which
  becomes the `samples` parameter.
- `unicodedata.normalize("NFD", ·)` and `unicodedata.category(c) == "Mn"` are
  parameters, because Unicode tables are out of scope.
- `\w`, `\d`, `IGNORECASE`, `lower`, `upper`, `title` and `istitle` are
  modelled on ASCII only. `\s` and `strip` use Python's whitespace list.
- `Dataset.ReplaceAll`: the table-of-contents entry is used as a pattern
  unescaped. The model gives `.` its regex meaning and treats every other
  character literally, so other metacharacters in an entry are not
  modelled.
- `normalize_chapter_headings` also counts occurrences with `re.findall`. That
  only feeds a warning and is left out.
- `remove_extra_whitespace` is modelled with its default arguments only (one
  space, three newlines). These are the only values the callers pass.
- `Chat.PostprocessMsg`: with `use_synonyms=True` it returns the
  `AttributeError` that the missing `store.response_phrase_permutation_map`
  raises. The synonym substitution loop itself is not modelled. Only its
  casing rule is (`Utils.MatchCasing`).
- `utils.add_sentence_delimiter` raises `AttributeError` on every call,
  because of the names lib/store.py lacks. It is not modelled.
- `utils.remove_unicode_diacritics` and `utils.normalize_character_set` are
  copies of the lib/preprocessing.py functions and are modelled once, there.
  `utils.remove_stopwords` is modelled only through the lib/preprocessing.py
  version.
- Static data: `book_query_terms` and `chat_query_terms` are parameters.
  `SearchTerms.AllQueryTermsOk` fixes only their four and two keys, not the
  regexes inside. The contents of `search_term_alts`, `response_phrase_alts`
  and `example_prompts` are left out. `stop_words` is given in full.
- lib/chat.py, lib/chat/example_prompts.py, lib/chat/__init__.py and
  lib/stop_words.py are not part of this model.
- Mutable objects and aliasing: dictionaries and lists the source mutates
  are values reassigned by methods. The `[*v]` copy in lib/search_terms.py
  is modelled by the book lists staying untouched in `SearchTerms.MergeSpec`.
