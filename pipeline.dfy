/** `analyze_document` and `improve_document_content`: the analyzers' lists are
    concatenated in a fixed order and the whole list is handed to the rewriter.
    The grammar checker's corrected text and diagnostics, the parse of the corrected
    text, and the outcomes of the sentiment and readability threshold tests are
    inputs. */
module Pipeline {
  import opened PyStr
  import opened Templates
  import opened Rewriter
  import opened Analyzers
  import opened Effects

  /** The configuration tables, in their file order. */
  datatype Config = Config(
    redundant: Table<string>,
    complex: Table<string>,
    mistakes: Table<string>,
    ner: Table<Table<string>>,
    casual: seq<string>)

  /** The parser's view of a text: its sentences, entities and tokens. */
  datatype Parse = Parse(sentences: seq<Sentence>, entities: seq<Entity>, tokens: seq<Token>)

  /** The outcomes of the threshold tests on library scores: sentiment polarity below
      -0.5, Flesch reading ease below 60, SMOG index above 12. */
  datatype Verdicts = Verdicts(negative: bool, hardToRead: bool, tooComplex: bool)

  /** The messages of the first `n` sentences, sentence by sentence. */
  function SentencesMessages(sents: seq<Sentence>, n: nat, mistakes: Table<string>): seq<string>
    requires n <= |sents|
  {
    if n == 0 then [] else SentencesMessages(sents, n - 1, mistakes) + SentenceMessages(sents[n - 1], mistakes)
  }

  /** `analyze_document`'s list: every sentence's messages, then the entity messages. */
  function DocumentMessages(doc: Parse, cfg: Config): seq<string>
  {
    SentencesMessages(doc.sentences, |doc.sentences|, cfg.mistakes) + EntityMessages(doc.entities, cfg.ner)
  }

  method AnalyzeDocument(doc: Parse, cfg: Config) returns (suggestions: seq<string>)
    ensures suggestions == DocumentMessages(doc, cfg)
  {
    suggestions := AnalyzeSentences(doc.sentences, cfg.mistakes);
    var entities := AnalyzeEntities(doc.entities, cfg.ner);
    suggestions := suggestions + entities;
  }

  /** The loop of `analyze_document` over the sentences of the parse. */
  method AnalyzeSentences(sents: seq<Sentence>, mistakes: Table<string>) returns (suggestions: seq<string>)
    ensures suggestions == SentencesMessages(sents, |sents|, mistakes)
  {
    suggestions := [];
    for i := 0 to |sents|
      invariant suggestions == SentencesMessages(sents, i, mistakes)
    {
      var more := AnalyzeSentence(sents[i], mistakes);
      suggestions := suggestions + more;
    }
  }

  /** `improve_clarity_and_conciseness`' list for the corrected text. */
  function ClarityMessages(corrected: string, doc: Parse, cfg: Config): seq<string>
  {
    RedundancyMessages(corrected, cfg.redundant) + ComplexMessages(doc.tokens, cfg.complex)
  }

  /** The suggestion list `improve_document_content` builds: document analysis,
      style and tone, readability, clarity, and the grammar checker's diagnostics last. */
  function Suggestions(corrected: string, diagnostics: seq<string>, doc: Parse, v: Verdicts, cfg: Config): seq<string>
  {
    DocumentMessages(doc, cfg)
    + StyleMessages(doc.tokens, cfg.casual, v.negative)
    + ReadabilityMessages(v.hardToRead, v.tooComplex)
    + ClarityMessages(corrected, doc, cfg)
    + diagnostics
  }

  /** `improve_document_content` from the checker's output on: returns the improved text
      and the suggestion list, the text being the list applied to the corrected text. */
  method ImproveDocumentContent(corrected: string, diagnostics: seq<string>, doc: Parse, v: Verdicts,
                                cfg: Config, spell: string -> string)
    returns (improved: string, suggestions: seq<string>)
    requires AllAdmissible(Suggestions(corrected, diagnostics, doc, v, cfg), spell)
    ensures suggestions == Suggestions(corrected, diagnostics, doc, v, cfg)
    ensures improved == ApplyAll(corrected, suggestions, spell)
  {
    var document := AnalyzeDocument(doc, cfg);
    var style := AnalyzeStyleAndTone(doc.tokens, cfg.casual, v.negative);
    var readability := ReadabilityMessages(v.hardToRead, v.tooComplex);
    var clarity := ImproveClarityAndConciseness(corrected, doc.tokens, cfg.redundant, cfg.complex);
    suggestions := document + style + readability + clarity + diagnostics;
    improved := ApplySuggestions(corrected, suggestions, spell);
  }

  /** Style, tone and readability messages are advice only: when no token's text holds
      both a space and an apostrophe, the improved text is what the other messages
      alone produce. */
  lemma AdviceSkipped(corrected: string, diagnostics: seq<string>, doc: Parse, v: Verdicts,
                      cfg: Config, spell: string -> string)
    requires PlainTokens(doc.tokens)
    requires AllAdmissible(DocumentMessages(doc, cfg) + (ClarityMessages(corrected, doc, cfg) + diagnostics), spell)
    ensures AllAdmissible(Suggestions(corrected, diagnostics, doc, v, cfg), spell)
    ensures ApplyAll(corrected, Suggestions(corrected, diagnostics, doc, v, cfg), spell)
         == ApplyAll(corrected, DocumentMessages(doc, cfg) + (ClarityMessages(corrected, doc, cfg) + diagnostics), spell)
  {
    var d, st, r, c := DocumentMessages(doc, cfg), StyleMessages(doc.tokens, cfg.casual, v.negative),
      ReadabilityMessages(v.hardToRead, v.tooComplex), ClarityMessages(corrected, doc, cfg);
    StyleNotApplied(doc.tokens, cfg.casual, v.negative, spell);
    ReadabilityNotApplied(v.hardToRead, v.tooComplex, spell);
    var advice := st + r;
    UnappliedAppend(st, r, spell);
    RegroupLists(d, st, r, c, diagnostics);
    SkipUnappliedRun(corrected, d, advice, c + diagnostics, spell);
  }

  lemma RegroupLists<T>(a: seq<T>, b: seq<T>, c: seq<T>, d: seq<T>, e: seq<T>)
    ensures a + b + c + d + e == a + (b + c) + (d + e)
  {
  }

  /** Text without suggestions is returned as it is: with no sentences, entities or
      tokens, no diagnostics, no threshold hit and no configured phrase in the text,
      the list is empty and the text unchanged (the empty input is one such case). */
  lemma NothingToSuggest(corrected: string, cfg: Config, spell: string -> string)
    requires forall k | 0 <= k < |cfg.redundant| :: !Contains(corrected, cfg.redundant[k].0)
    ensures Suggestions(corrected, [], Parse([], [], []), Verdicts(false, false, false), cfg) == []
    ensures AllAdmissible([], spell) && ApplyAll(corrected, [], spell) == corrected
  {
    NoRedundancy(corrected, cfg.redundant);
  }

  lemma {:induction false} NoRedundancy(text: string, redundant: Table<string>)
    requires forall k | 0 <= k < |redundant| :: !Contains(text, redundant[k].0)
    ensures RedundancyMessages(text, redundant) == []
    decreases |redundant|
  {
    if redundant != [] {
      var init := redundant[..|redundant| - 1];
      assert forall k | 0 <= k < |init| :: init[k] == redundant[k];
      NoRedundancy(text, init);
    }
  }
}
