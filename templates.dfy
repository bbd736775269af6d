/** The message strings the analyzers emit (documents/nlp_utils.py f-strings) and the
    marker substrings the rewriter looks for in them. */
module Templates {

  const Replacing := "Consider replacing"
  const ReplacingOpen := Replacing + " '"
  const WithSep := "' with '"
  const QuoteDot := "'."
  const GrammarMarker := "Grammar issue:"
  const SpellingMarker := "Spelling issue:"

  /** Redundant-phrase and complex-word advice: `Consider replacing '{p}' with '{r}'.` */
  function ReplacementMessage(phrase: string, replacement: string): string
  {
    ReplacingOpen + phrase + WithSep + replacement + QuoteDot
  }

  /** Grammar-table advice, written without the final period:
      `Consider replacing '{mistake}' with '{replacement}'`. */
  function SyntaxMessage(mistake: string, replacement: string): string
  {
    ReplacingOpen + mistake + WithSep + replacement + "'"
  }

  const CasualTail := " with a more formal term."

  /** Casual-word advice: `Consider replacing '{word}' with a more formal term.` */
  function CasualMessage(word: string): string
  {
    ReplacingOpen + word + "'" + CasualTail
  }

  // The two leads below are written in two pieces, like the fixed advice further down,
  // so that proofs check one short literal at a time.
  const PassiveLead := "Consider using " + "active voice in: "

  function PassiveMessage(sentence: string): string
  {
    PassiveLead + "'" + sentence + "'"
  }

  const LongLead := "Consider breaking down " + "the long sentence: "

  function LongMessage(sentence: string): string
  {
    LongLead + "'" + sentence + "'"
  }

  /** Named-entity advice: `{suggestion} for '{entity}'`. */
  function EntityMessage(suggestion: string, entity: string): string
  {
    suggestion + " for '" + entity + "'"
  }

  /** The grammar-table message is the redundancy message without its final period. */
  lemma SyntaxLacksPeriod(m: string, r: string)
    ensures SyntaxMessage(m, r) + "." == ReplacementMessage(m, r)
    ensures SyntaxMessage(m, r)[|SyntaxMessage(m, r)| - 1] == '\''
  {
  }

  // The fixed advice strings, written sentence by sentence. The split changes nothing
  // in the value; it lets the lemmas below check one short literal at a time, which
  // the verifier does far more cheaply than one long literal.
  const NegativeTone := "The text has a negative tone. " + "Consider making it more positive."
  const HardToRead := "The text is difficult to read. " + "Consider simplifying " + "your sentences and " + "using more common words."
  const TooComplex := "The text may be too complex. " + "Consider simplifying it " + "for easier comprehension."

  lemma NotInEither(c: char, a: string, b: string)
    requires c !in a && c !in b
    ensures c !in a + b
  {
  }

  // Characters the advice strings lack, which rule out the markers the rewriter looks for:
  // "Consider replacing" has a 'p' and an 'l', "Grammar issue:" a 'G', "Spelling issue:" an 'S',
  // and both of the latter a ':'. The one-literal lemmas are verifier plumbing: each
  // settles a single character fact about a single short literal.

  lemma PassiveLeadNoP()
    ensures 'p' !in PassiveLead
  {
    NotInEither('p', "Consider using ", "active voice in: ");
  }

  lemma PassiveLeadNoG()
    ensures 'G' !in PassiveLead
  {
    NotInEither('G', "Consider using ", "active voice in: ");
  }

  lemma PassiveLeadNoS()
    ensures 'S' !in PassiveLead
  {
    NotInEither('S', "Consider using ", "active voice in: ");
  }

  lemma LongLeadNoP()
    ensures 'p' !in LongLead
  {
    NotInEither('p', "Consider breaking down ", "the long sentence: ");
  }

  lemma LongLeadNoG()
    ensures 'G' !in LongLead
  {
    NotInEither('G', "Consider breaking down ", "the long sentence: ");
  }

  lemma LongLeadNoS()
    ensures 'S' !in LongLead
  {
    NotInEither('S', "Consider breaking down ", "the long sentence: ");
  }

  lemma NotInThree(c: char, a: string, b: string, d: string)
    requires c !in a && c !in b && c !in d
    ensures c !in a + b + d
  {
  }

  lemma NotInFour(c: char, a: string, b: string, d: string, e: string)
    requires c !in a && c !in b && c !in d && c !in e
    ensures c !in a + b + d + e
  {
  }

  lemma NegativeToneNoL()
    ensures 'l' !in NegativeTone
  {
    ToneStatementNoL();
    ToneAdviceNoL();
    NotInEither('l', "The text has a negative tone. ", "Consider making it more positive.");
  }

  lemma ToneStatementNoL()
    ensures 'l' !in "The text has a negative tone. "
  {
  }

  lemma ToneAdviceNoL()
    ensures 'l' !in "Consider making it more positive."
  {
  }

  lemma NegativeToneNoColon()
    ensures ':' !in NegativeTone
  {
    ToneStatementNoColon();
    ToneAdviceNoColon();
    NotInEither(':', "The text has a negative tone. ", "Consider making it more positive.");
  }

  lemma ToneStatementNoColon()
    ensures ':' !in "The text has a negative tone. "
  {
  }

  lemma ToneAdviceNoColon()
    ensures ':' !in "Consider making it more positive."
  {
  }

  lemma HardToReadNoColon()
    ensures ':' !in HardToRead
  {
    HardStatementNoColon();
    SimplifyingNoColon();
    SentencesAndNoColon();
    CommonWordsNoColon();
    NotInFour(':', "The text is difficult to read. ", "Consider simplifying ", "your sentences and ",
      "using more common words.");
  }

  lemma HardStatementNoColon()
    ensures ':' !in "The text is difficult to read. "
  {
  }

  lemma SimplifyingNoColon()
    ensures ':' !in "Consider simplifying "
  {
  }

  lemma SentencesAndNoColon()
    ensures ':' !in "your sentences and "
  {
  }

  lemma CommonWordsNoColon()
    ensures ':' !in "using more common words."
  {
  }

  lemma TooComplexNoColon()
    ensures ':' !in TooComplex
  {
    ComplexStatementNoColon();
    SimplifyingItNoColon();
    ComprehensionNoColon();
    NotInThree(':', "The text may be too complex. ", "Consider simplifying it ", "for easier comprehension.");
  }

  lemma ComplexStatementNoColon()
    ensures ':' !in "The text may be too complex. "
  {
  }

  lemma SimplifyingItNoColon()
    ensures ':' !in "Consider simplifying it "
  {
  }

  lemma ComprehensionNoColon()
    ensures ':' !in "for easier comprehension."
  {
  }
}
