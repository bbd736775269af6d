# Suggestion pipeline of the AI Document Assistant, in Dafny

The document assistant improves a text in two stages. First, rule-based analyzers
produce a list of suggestion strings:
- passive voice, long sentences and grammar-table matches, per sentence;
- named entities;
- casual words and negative tone;
- readability;
- redundant phrases and complex words;
- the grammar checker's own diagnostics.

Second, the rewriter `apply_suggestions` reads the list back. It recognises three
message templates ("Consider replacing '…' with '…'", "Grammar issue: … Consider using
… instead of …" and "Spelling issue: '…' is misspelled."). Each recognised message is
turned into a whole-word regular-expression replacement and applied to the text
produced so far.

This project models both stages of `documents/nlp_utils.py`, and the string and regex
primitives they rely on:

| file | module | contents |
|---|---|---|
| `pystr.dfy` | `PyStr` | Python's `in`, `split(sep)`, `replace`, `lower` and `split()` |
| `regex.dfy` | `Regex` | `re.sub(r'\b' + re.escape(w) + r'\b', rep, s)` as a left-to-right scan, and the two `re.search` patterns with a lazy group `(.*?)` |
| `templates.dfy` | `Templates` | the f-string message templates and fixed advice strings |
| `rewriter.dfy` | `Rewriter` | `apply_suggestions`: message → optional edit, then the loop over the list |
| `parsing.dfy` | `TemplateParsing` | what the rewriter makes of each template: round trips, stray apostrophes, advice never applied, diagnostics that are applied |
| `analyzers.dfy` | `Analyzers` | `is_passive`, the long-sentence test, `check_syntax`, `analyze_sentence`, `analyze_entities`, `analyze_style_and_tone`, `readability_analysis` and `improve_clarity_and_conciseness`. The ones with loops (`is_passive`, `check_syntax`, `analyze_entities`, `analyze_style_and_tone`, `improve_clarity_and_conciseness`) are methods whose loops are proved equal to specification functions; `analyze_sentence` is a method without a loop; the long-sentence test is a predicate and `readability_analysis` a function |
| `effects.dfy` | `Effects` | what rewriting with each analyzer's messages does to a text |
| `pipeline.dfy` | `Pipeline` | `analyze_document` and `improve_document_content`: the order in which lists are concatenated, and the rewrite of the whole list |
| `scenarios.dfy` | `Scenarios` | configured entries worked through end to end, including a grammar-table message reported twice |

The NLP libraries are inputs rather than code:
- The parse (sentences, tokens with dependency labels, named entities) is a `Parse` value.
- The grammar checker's corrected text and its messages are passed in. So are its
  per-sentence messages, which are a field of `Sentence`.
- The sentiment and readability scores appear only as the outcomes of their threshold
  tests (`Verdicts`).
- The spelling corrector is a function parameter `spell`.

Configuration dictionaries are association lists (`Table`) in their iteration order. A
lookup returns the value of the first entry with the key. Lemmas that need Python's
unique keys require `DistinctKeys`.

The grammar-table template (line 71) has no final period, unlike the redundancy and
complex-word template (lines 123 and 129). Removing `'.` at line 173 therefore leaves
the closing apostrophe of a grammar-table replacement in place (it removes only a `'.`
inside the replacement itself), and line 174 writes the replacement with that apostrophe: `{"alot": "a lot"}` rewrites "alot" to "a lot'"
(`TemplateParsing.SyntaxRoundTrip`, `Scenarios.AlotKeepsQuote`), while the same pair in
the redundancy template rewrites it to "a lot" (`Scenarios.AlotWithPeriod`).

## Model

| member | source | states |
|---|---|---|
| PyStr.Split | documents/nlp_utils.py:170-172 | `str.split(sep)` yields at least one piece, and exactly one precisely when the separator does not occur |
| PyStr.ReplaceAll | documents/nlp_utils.py:173 | `str.replace` leaves a string without the pattern unchanged |
| PyStr.WordsOfJoin | documents/nlp_utils.py:48 | `split()` recovers the words of a space-joined list of whitespace-free words |
| PyStr.WordsAreWords | documents/nlp_utils.py:48 | every piece `split()` returns is non-empty and contains no whitespace |
| PyStr.LowerCases | documents/nlp_utils.py:70 | `lower()` keeps the length, turns each ASCII capital into its small letter, leaves every other character alone and leaves no ASCII capital |
| PyStr.LowerIdempotent | documents/nlp_utils.py:81 | lowering an already lowered text changes nothing |
| Regex.SubUnchanged | documents/nlp_utils.py:174 | `re.sub` with `\b…\b` changes nothing when the phrase has no whole-word occurrence |
| Regex.SubAbsent | documents/nlp_utils.py:174 | a text that does not contain the phrase at all comes back unchanged |
| Regex.SubSame | documents/nlp_utils.py:174 | replacing a phrase by itself leaves every text unchanged |
| Regex.OnlyWholeWord | documents/nlp_utils.py:174 | within a run of word characters, the `\b`-delimited phrase matches only if it is the whole run |
| Regex.SubInsideWord | documents/nlp_utils.py:174 | a phrase inside a longer word is never rewritten |
| Regex.SubWhole | documents/nlp_utils.py:174 | a phrase that starts and ends with word characters, standing alone, is replaced |
| Regex.CoolantUntouched | documents/nlp_utils.py:174 | "cool" is not replaced inside "coolant" |
| Regex.SubAround | documents/nlp_utils.py:174 | rewriting is local: a non-word character that is not in the phrase splits the text into two parts that are rewritten independently |
| Regex.SubThirdWord | documents/nlp_utils.py:174 | of three words separated by non-word characters, only the one equal to the phrase is replaced |
| Regex.CoolantIsCool | documents/nlp_utils.py:174 | "coolant is cool" becomes "coolant is warm": the standalone word is replaced, the longer word kept |
| Regex.SubTwice | documents/nlp_utils.py:174 | for a phrase of word characters whose replacement does not contain it, rewriting a second time changes nothing |
| Regex.LineEnd | documents/nlp_utils.py:176 | the greedy `(.*)` stops at the first line end or at the end of the string, and crosses no line end |
| Regex.LazyEnd | documents/nlp_utils.py:176-182 | a lazy group, when it matches, ends where its continuation occurs, after crossing no line end |
| Regex.LazyEndLeast | documents/nlp_utils.py:176-182 | the lazy group ends at the first position of the line where its continuation (and, for line 182's final `.`, one more character of the line) fits, and fails only when it fits nowhere up to the line end |
| Regex.UsingInsteadLeftmost | documents/nlp_utils.py:176 | the search reports the groups of the match at the leftmost position where the pattern can match: the shortest first group, and a second group running to the end of the line; it reports nothing exactly when the pattern matches nowhere |
| Regex.MisspelledLeftmost | documents/nlp_utils.py:182 | the search reports the shortest group of the match at the leftmost position where the pattern can match, and nothing exactly when it matches nowhere |
| Templates.SyntaxLacksPeriod | documents/nlp_utils.py:71 | the grammar-table message (line 71) is the redundancy message (line 123) without its final period, so it ends with the apostrophe |
| Rewriter.Translate | documents/nlp_utils.py:169-186 | a message yields an edit only if it contains one of the three markers; the branches are tried in source order, and a failed unpacking (the caught ValueError) yields no edit |
| Rewriter.ApplySuggestions | documents/nlp_utils.py:165-189 | the loop's result is the list's edits applied in list order, each to the previous output |
| Rewriter.ApplyAllAppend | documents/nlp_utils.py:166 | rewriting with two lists in a row is rewriting with the first, then the second on its output |
| Rewriter.ApplyTwo | documents/nlp_utils.py:166 | the second of two suggestions works on the first one's output |
| Rewriter.ApplyAllSnoc | documents/nlp_utils.py:166 | a suggestion appended at the end works on the output of all the ones before it |
| Rewriter.SkipUnapplied | documents/nlp_utils.py:166-187 | a suggestion without an edit can be removed from anywhere in the list without changing the result |
| Rewriter.SkipUnappliedRun | documents/nlp_utils.py:166-187 | a whole run of suggestions without edits can be removed from anywhere in the list |
| TemplateParsing.ReplacementRoundTrip | documents/nlp_utils.py:169-174 | a redundancy or complex-word message (lines 123 and 129) parses back to exactly the phrase and replacement it was built from, for a phrase and a replacement with no apostrophe and no trailing space |
| TemplateParsing.SyntaxRoundTrip | documents/nlp_utils.py:169-173 | a grammar-table message (line 71) parses to its mistake and its replacement followed by `'`, for a mistake and a replacement with no apostrophe and no trailing space: the closing apostrophe survives because the template lacks the final period |
| TemplateParsing.ReplacementInjective | documents/nlp_utils.py:123 | for phrases and replacements with no apostrophe and no trailing space, two redundancy or complex-word messages (the template of lines 123 and 129) are equal exactly when they are built from the same pair |
| TemplateParsing.TailRemoved | documents/nlp_utils.py:173 | for a replacement without an apostrophe, removing `'.` strips the closing `'.` and leaves a lone closing `'` in place |
| TemplateParsing.CasualNotApplied | documents/nlp_utils.py:169-188 | a casual-word message (line 93) never yields an edit for a token that lacks a space or lacks an apostrophe: unpacking at `' with '` fails |
| TemplateParsing.UnclosedNotApplied | documents/nlp_utils.py:170-172 | a "Consider replacing '" message without another apostrophe is skipped |
| TemplateParsing.QuotedUnmarked | documents/nlp_utils.py:45-49 | quoting a marker-free sentence after a marker-free lead creates no marker |
| TemplateParsing.PassiveNotApplied | documents/nlp_utils.py:169-186 | the passive-voice message (line 45) about a marker-free sentence never yields an edit |
| TemplateParsing.LongNotApplied | documents/nlp_utils.py:169-186 | the long-sentence message (line 49) about a marker-free sentence never yields an edit |
| TemplateParsing.FixedAdviceNotApplied | documents/nlp_utils.py:169-186 | the negative-tone and both readability messages (lines 98, 107 and 112) never yield an edit |
| TemplateParsing.ReplacementApplies | documents/nlp_utils.py:169-174 | a replacement message for a non-empty phrase and a replacement, neither with an apostrophe or a trailing space and the replacement without a backslash, rewrites the text exactly as `re.sub` of its phrase by its replacement |
| TemplateParsing.SyntaxApplies | documents/nlp_utils.py:169-174 | a grammar-table message for such a mistake and replacement rewrites its mistake to the replacement followed by `'` |
| TemplateParsing.OrderChains | documents/nlp_utils.py:166 | `a → b` followed by `b → c` rewrites `a` to `c` |
| TemplateParsing.OrderMatters | documents/nlp_utils.py:166 | the reverse order leaves `b`: list order decides the result |
| TemplateParsing.LacksFirstNoEarlyTail | documents/nlp_utils.py:176 | a group without the continuation's first character (an X without a space, a W without an apostrophe) has no earlier place where the continuation starts |
| TemplateParsing.UsingInsteadFound | documents/nlp_utils.py:176-179 | the search finds "Consider using X instead of Y" after a lead without a capital C, with group 1 = X and group 2 = Y, for every one-line X in which no " instead of " starts (the lazy group would stop there) and every one-line Y |
| TemplateParsing.MisspelledFound | documents/nlp_utils.py:182-184 | the search finds "Spelling issue: 'W' is misspelled" plus one more character of the line after a lead without a capital S, with group 1 = W, for every one-line W in which no "' is misspelled" starts |
| TemplateParsing.GrammarIssueEdit | documents/nlp_utils.py:175-180 | the diagnostic "Grammar issue: Consider using X instead of Y" rewrites Y to X, for one-line X and Y without a capital C and an X in which no " instead of " starts |
| TemplateParsing.SpellingIssueEdit | documents/nlp_utils.py:181-186 | the diagnostic "Spelling issue: 'W' is misspelled." rewrites W to its spelling correction, for a one-line W without a capital C or G in which no "' is misspelled" starts |
| Analyzers.Lookup | documents/nlp_utils.py:79-80 | `table[key]` is a value stored in the table under that key |
| Analyzers.LookupDistinct | documents/nlp_utils.py:79-80 | with unique keys, every entry's value is the one found under its key |
| Analyzers.IsPassive | documents/nlp_utils.py:57-62 | true exactly when some token has the dependency label "auxpass" or "nsubjpass" |
| Analyzers.LongIffMoreThanTwenty | documents/nlp_utils.py:48 | a text of words joined by spaces is long exactly when it has more than 20 words |
| Analyzers.CheckSyntax | documents/nlp_utils.py:64-73 | returns, checker message by checker message and in table order, one message per entry whose mistake occurs in the lowercased message |
| Analyzers.MistakeMember | documents/nlp_utils.py:69-71 | a message is in one checker message's list exactly when it is built from a table entry whose mistake that message contains |
| Analyzers.SyntaxMember | documents/nlp_utils.py:68-71 | a message is in a sentence's grammar-table list exactly when some checker message contains some entry's mistake and the message is built from that entry |
| Analyzers.SentenceChecks | documents/nlp_utils.py:43-49 | returns the passive-voice message when some token is passive, then the long-sentence message when the text has more than 20 words |
| Analyzers.AnalyzeSentence | documents/nlp_utils.py:40-55 | returns the sentence's advice followed by its grammar-table messages |
| Analyzers.AnalyzeTerms | documents/nlp_utils.py:80-82 | returns one entity message per term, in table order, that equals the lowercased entity text |
| Analyzers.AnalyzeEntities | documents/nlp_utils.py:75-84 | returns, entity by entity, the term messages of each entity whose label is configured |
| Analyzers.TermMessagesAtMostOne | documents/nlp_utils.py:80-82 | with unique terms, an entity gets exactly the message of its lowercased text's suggestion when that is a term, and none otherwise |
| Analyzers.EntityMessagesAppend | documents/nlp_utils.py:78 | the messages follow entity order: the list for two runs of entities is the two lists one after the other |
| Analyzers.EntityMessagesOne | documents/nlp_utils.py:78-82 | with unique keys, one entity gets at most one message (the template of line 82), built from the suggestion under its label and lowercased text |
| Analyzers.AnalyzeStyleAndTone | documents/nlp_utils.py:86-100 | returns one casual-word message per token (in token order) whose lowercased text is a casual word, then the tone message when the sentiment is negative |
| Analyzers.CasualMember | documents/nlp_utils.py:91-93 | a message is in the casual-word list exactly when it names a token whose lowercased text is a casual word |
| Analyzers.ReadabilityMessages | documents/nlp_utils.py:102-114 | at most two messages; the hard-to-read message is present exactly when the Flesch test fails, and the too-complex message exactly when the SMOG test fails |
| Analyzers.ImproveClarityAndConciseness | documents/nlp_utils.py:116-131 | returns the redundancy messages (table order, for phrases the text contains), then the complex-word messages (token order) |
| Analyzers.RedundancyMember | documents/nlp_utils.py:121-123 | a redundancy message is in the list exactly for a configured phrase that occurs in the text |
| Analyzers.ComplexMember | documents/nlp_utils.py:126-129 | a complex-word message is in the list exactly for a token whose lowercased text is configured, with that entry's replacement |
| Effects.RedundancyApplied | documents/nlp_utils.py:121-123 | rewriting with the redundancy messages performs exactly the configured replacements, in table order, of the phrases the text contains |
| Effects.ComplexApplied | documents/nlp_utils.py:126-129 | rewriting with the complex-word messages replaces each configured token's text by its configured replacement, in token order |
| Effects.SyntaxEdits | documents/nlp_utils.py:69-71 | every grammar-table message is the edit of one table entry, with the replacement followed by `'` |
| Effects.StyleNotApplied | documents/nlp_utils.py:91-98 | no message of `analyze_style_and_tone` yields an edit, when no token's text holds both a space and an apostrophe |
| Effects.ReadabilityNotApplied | documents/nlp_utils.py:105-112 | no message of `readability_analysis` yields an edit |
| Effects.SentenceAdviceNotApplied | documents/nlp_utils.py:44-49 | the passive-voice and long-sentence messages of a marker-free sentence yield no edit |
| Effects.SentenceAdviceSkipped | documents/nlp_utils.py:40-55 | for a marker-free sentence, rewriting with its messages is rewriting with its grammar-table messages alone |
| Pipeline.AnalyzeSentences | documents/nlp_utils.py:31-32 | returns every sentence's messages, in sentence order |
| Pipeline.AnalyzeDocument | documents/nlp_utils.py:26-38 | returns every sentence's messages in order, then the entity messages |
| Pipeline.ImproveDocumentContent | documents/nlp_utils.py:148-163 | the suggestion list is document analysis, style and tone, readability, clarity, then the checker's diagnostics, and the improved text is that list applied to the corrected text |
| Pipeline.AdviceSkipped | documents/nlp_utils.py:153-162 | when no token's text holds both a space and an apostrophe, the style, tone and readability messages do not change the improved text |
| Pipeline.NothingToSuggest | documents/nlp_utils.py:148-163 | with no sentences, entities, tokens or diagnostics, no threshold hit and no configured phrase in the text, the list is empty and the text comes back unchanged |
| Scenarios.InOrderTo | documents/nlp_utils.py:121-123 | with `{"in order to": "to"}`, the redundancy message parses back to that pair and rewrites "in order to" to "to" |
| Scenarios.AlotKeepsQuote | documents/nlp_utils.py:69-71 | with `{"alot": "a lot"}`, the grammar-table message rewrites "alot" to "a lot'" |
| Scenarios.AlotWithPeriod | documents/nlp_utils.py:121-123 | the same pair in the redundancy template rewrites "alot" to "a lot" |
| Scenarios.AlotTwice | documents/nlp_utils.py:68-71 | the grammar-table message for `{"alot": "a lot"}` listed twice rewrites every text exactly as listing it once |

## Left out

- The spaCy parse, LanguageTool, TextBlob and textstat are not modelled. Their outputs are inputs: a `Parse`, the corrected text and diagnostics, per-sentence checker messages, the `spell` function and the threshold outcomes `Verdicts`. `fix_grammar_and_spelling` (lines 133-146) is such a library call and is not part of this model.
- Floating-point scores are not modelled: only the outcomes of `polarity < -0.5`, `flesch < 60` and `smog > 12` enter, as booleans.
- The model parses the text once, where the source calls `nlp` several times on the same corrected text. It assumes the parser gives the same result each time.
- Loading `config.json`, the module-level globals, the `print` calls and the rest of the Django application (views, users, storage) are left out. They do not affect the suggestion list or the text.
- `str.lower` is modelled for ASCII letters only. `\b` uses ASCII word characters `[A-Za-z0-9_]`, where Python's `re` also counts other Unicode letters and digits.
- Rewriter.ApplySuggestions: requires every edit to have a non-empty phrase and a replacement without a backslash. The source would then insert the replacement at every word boundary, or interpret backslash escapes or raise `re.error`; neither case is modelled.
- TemplateParsing.ReplacementRoundTrip: holds only for phrases and replacements without an apostrophe and without a trailing space. Other phrases can make a delimiter appear inside the message.
- TemplateParsing.CasualNotApplied: leaves out words that hold both a space and an apostrophe. Such a word, "x' with 'y" for one, can supply the `' with '` delimiter, and then the message would be applied.
- Effects.StyleNotApplied: requires `PlainTokens`, so it says nothing about a token whose text holds both a space and an apostrophe. Whitespace tokens and words such as "don't" are covered.
- Pipeline.AdviceSkipped: requires `PlainTokens` for the same reason as Effects.StyleNotApplied.
- TemplateParsing.SyntaxRoundTrip: holds only for mistakes and replacements without an apostrophe and without a trailing space. An entry such as `{"your welcome": "you're welcome"}` is not covered, although lines 170-173 still parse its message to "you're welcome'".
- TemplateParsing.ReplacementApplies: inherits the same restriction (no apostrophe, no trailing space) on the phrase and the replacement.
- TemplateParsing.SyntaxApplies: inherits the same restriction on the mistake and the replacement, so `{"your welcome": "you're welcome"}` is not covered.
- TemplateParsing.UsingInsteadFound: requires a lead without a capital C, so that no earlier "Consider using" can start a match. The condition on X is not a restriction: where " instead of " starts inside X, the lazy group really stops earlier.
- TemplateParsing.MisspelledFound: requires a lead without a capital S, so that no earlier "Spelling issue: '" can start a match. The condition on W is exact in the same way.
- TemplateParsing.GrammarIssueEdit: requires no capital C in X and Y, so that the message cannot also read as "Consider replacing", and inherits the conditions of UsingInsteadFound.
- TemplateParsing.SpellingIssueEdit: requires no capital C or G in the word, so that the earlier branches cannot fire, and inherits the conditions of MisspelledFound.
- Effects.RedundancyApplied: requires `CleanTable`: every configured phrase non-empty, phrases and replacements without an apostrophe or a trailing space, and replacements without a backslash. Entries such as `{"your welcome": "you're welcome"}` are not covered.
- Effects.ComplexApplied: requires `CleanTable` for the complex-word table and `CleanTokens`: every token non-empty, without an apostrophe and without a trailing space.
- Effects.SyntaxEdits: requires `CleanTable` for the grammar table, with the same consequences.
- TemplateParsing.PassiveNotApplied, TemplateParsing.LongNotApplied, Effects.SentenceAdviceNotApplied and Effects.SentenceAdviceSkipped: require the sentence to contain none of the three markers. A sentence that quotes a marker can make its own advice message applicable.
- No lemma states that entity messages are never applied: a configured suggestion may itself contain a marker.
- Analyzers.TermMessagesAtMostOne and Analyzers.EntityMessagesOne: state the Python dictionary's unique keys as the `DistinctKeys` requirement.
- Analyzers.AnalyzeTerms, Analyzers.SentenceChecks and Pipeline.AnalyzeSentences are the inner parts of `analyze_entities`, `analyze_sentence` and `analyze_document`, written as separate methods.
