/** What the rewriter does with each analyzer's messages: the clarity messages
    become the configured whole-word replacements, the grammar-table messages
    become replacements that keep a closing apostrophe, and the casual-word, tone
    and readability messages change nothing. */
module Effects {
  import opened PyStr
  import opened Regex
  import opened Templates
  import opened Rewriter
  import opened TemplateParsing
  import opened Analyzers

  /** A replacement table whose entries survive the message round trip and are
      literal `re.sub` arguments. */
  predicate CleanTable(table: Table<string>)
  {
    forall k | 0 <= k < |table| ::
      table[k].0 != [] && Quotable(table[k].0) && Quotable(table[k].1) && '\\' !in table[k].1
  }

  /** The configured redundancy replacements, applied directly in table order for
      every phrase the analysed text contains. */
  function ReplacePhrases(t: string, text: string, redundant: Table<string>): string
    requires CleanTable(redundant)
    decreases |redundant|
  {
    if redundant == [] then t
    else
      var init, last := redundant[..|redundant| - 1], redundant[|redundant| - 1];
      assert CleanTable(init) by {
        assert forall k | 0 <= k < |init| :: init[k] == redundant[k];
      }
      var u := ReplacePhrases(t, text, init);
      if Contains(text, last.0) then Sub(u, last.0, last.1) else u
  }

  /** Rewriting with the redundancy messages performs exactly those replacements. */
  lemma {:induction false} RedundancyApplied(t: string, text: string, redundant: Table<string>, spell: string -> string)
    requires CleanTable(redundant)
    ensures AllAdmissible(RedundancyMessages(text, redundant), spell)
    ensures ApplyAll(t, RedundancyMessages(text, redundant), spell) == ReplacePhrases(t, text, redundant)
    decreases |redundant|
  {
    if redundant != [] {
      var init, last := redundant[..|redundant| - 1], redundant[|redundant| - 1];
      assert forall k | 0 <= k < |init| :: init[k] == redundant[k];
      RedundancyApplied(t, text, init, spell);
      if Contains(text, last.0) {
        ReplacementApplies(ApplyAll(t, RedundancyMessages(text, init), spell), last.0, last.1, spell);
        ApplyAllSnoc(t, RedundancyMessages(text, init), ReplacementMessage(last.0, last.1), spell);
      } else {
        assert RedundancyMessages(text, init) + [] == RedundancyMessages(text, init);
      }
    }
  }

  /** Token texts that the replacement template carries intact. */
  predicate CleanTokens(tokens: seq<Token>)
  {
    forall k | 0 <= k < |tokens| :: tokens[k].text != [] && Quotable(tokens[k].text)
  }

  /** The configured complex-word replacements, applied directly token by token. */
  function ReplaceComplexWords(t: string, tokens: seq<Token>, complex: Table<string>): string
    requires CleanTokens(tokens) && CleanTable(complex)
    decreases |tokens|
  {
    if tokens == [] then t
    else
      var init, tok := tokens[..|tokens| - 1], tokens[|tokens| - 1];
      assert CleanTokens(init) by {
        assert forall k | 0 <= k < |init| :: init[k] == tokens[k];
      }
      var u := ReplaceComplexWords(t, init, complex);
      if HasKey(complex, Lower(tok.text)) then Sub(u, tok.text, Lookup(complex, Lower(tok.text))) else u
  }

  /** Rewriting with the complex-word messages replaces each configured token's text by
      its configured replacement, in token order. */
  lemma {:induction false} ComplexApplied(t: string, tokens: seq<Token>, complex: Table<string>, spell: string -> string)
    requires CleanTokens(tokens) && CleanTable(complex)
    ensures AllAdmissible(ComplexMessages(tokens, complex), spell)
    ensures ApplyAll(t, ComplexMessages(tokens, complex), spell) == ReplaceComplexWords(t, tokens, complex)
    decreases |tokens|
  {
    if tokens != [] {
      var init, tok := tokens[..|tokens| - 1], tokens[|tokens| - 1];
      assert forall k | 0 <= k < |init| :: init[k] == tokens[k];
      ComplexApplied(t, init, complex, spell);
      var word := Lower(tok.text);
      if HasKey(complex, word) {
        var r := Lookup(complex, word);
        var k :| 0 <= k < |complex| && complex[k] == (word, r);
        ReplacementApplies(ApplyAll(t, ComplexMessages(init, complex), spell), tok.text, r, spell);
        ApplyAllSnoc(t, ComplexMessages(init, complex), ReplacementMessage(tok.text, r), spell);
      } else {
        assert ComplexMessages(init, complex) + [] == ComplexMessages(init, complex);
      }
    }
  }

  /** Each grammar-table message is the edit of one matching table entry, whose
      replacement keeps the closing apostrophe. */
  lemma SyntaxEdits(issues: seq<string>, mistakes: Table<string>, s: string, spell: string -> string)
    requires CleanTable(mistakes)
    requires s in SyntaxMessages(issues, mistakes)
    ensures exists k | 0 <= k < |mistakes| :: Translate(s, spell) == Some(Edit(mistakes[k].0, mistakes[k].1 + "'"))
  {
    SyntaxMember(issues, mistakes, s);
    var i, k :| 0 <= i < |issues| && 0 <= k < |mistakes| &&
      Contains(Lower(issues[i]), mistakes[k].0) && s == SyntaxMessage(mistakes[k].0, mistakes[k].1);
    SyntaxRoundTrip(mistakes[k].0, mistakes[k].1, spell);
  }

  /** Tokens whose text lacks a space or lacks an apostrophe. Whitespace tokens and
      words such as "don't" qualify; only a text with both, such as "x' with 'y", is
      left out. */
  predicate PlainTokens(tokens: seq<Token>)
  {
    forall k | 0 <= k < |tokens| :: ' ' !in tokens[k].text || '\'' !in tokens[k].text
  }

  /** `analyze_style_and_tone`'s messages never yield an edit for plain tokens. */
  lemma StyleNotApplied(tokens: seq<Token>, casual: seq<string>, negative: bool, spell: string -> string)
    requires PlainTokens(tokens)
    ensures forall k | 0 <= k < |StyleMessages(tokens, casual, negative)| ::
      Translate(StyleMessages(tokens, casual, negative)[k], spell).None?
  {
    var casualMessages := CasualMessages(tokens, casual);
    forall k | 0 <= k < |casualMessages| ensures Translate(casualMessages[k], spell).None? {
      var s := casualMessages[k];
      CasualMember(tokens, casual, s);
      var j :| 0 <= j < |tokens| && Lower(tokens[j].text) in casual && s == CasualMessage(tokens[j].text);
      CasualNotApplied(tokens[j].text, spell);
    }
    FixedAdviceNotApplied(spell);
    UnappliedAppend(casualMessages, if negative then [NegativeTone] else [], spell);
  }

  /** `readability_analysis`' messages never yield an edit. */
  lemma ReadabilityNotApplied(hardToRead: bool, tooComplex: bool, spell: string -> string)
    ensures var r := ReadabilityMessages(hardToRead, tooComplex);
      forall k | 0 <= k < |r| :: Translate(r[k], spell).None?
  {
    FixedAdviceNotApplied(spell);
  }

  /** The passive and long-sentence advice about a sentence without a marker never
      yields an edit. */
  lemma SentenceAdviceNotApplied(s: Sentence, spell: string -> string)
    requires Unmarked(s.text)
    ensures forall k | 0 <= k < |SentenceAdvice(s)| :: Translate(SentenceAdvice(s)[k], spell).None?
  {
    PassiveNotApplied(s.text, spell);
    LongNotApplied(s.text, spell);
  }

  /** For a sentence whose text has no marker, only the grammar-table messages rewrite
      the text. */
  lemma SentenceAdviceSkipped(t: string, s: Sentence, mistakes: Table<string>, spell: string -> string)
    requires Unmarked(s.text)
    requires AllAdmissible(SyntaxMessages(s.issues, mistakes), spell)
    ensures AllAdmissible(SentenceMessages(s, mistakes), spell)
    ensures ApplyAll(t, SentenceMessages(s, mistakes), spell) == ApplyAll(t, SyntaxMessages(s.issues, mistakes), spell)
  {
    var advice, syntax := SentenceAdvice(s), SyntaxMessages(s.issues, mistakes);
    SentenceAdviceNotApplied(s, spell);
    assert [] + syntax == syntax;
    assert SentenceMessages(s, mistakes) == advice + syntax;
    assert [] + advice == advice;
    SkipUnappliedRun(t, [], advice, syntax, spell);
  }
}
