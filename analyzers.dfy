/** The rule-based analyzers of documents/nlp_utils.py over the parser's output,
    which they take as input: sentences with their tokens and the grammar checker's
    messages, named entities, and the configuration tables. Every analyzer builds
    a list of message strings by appending inside loops; each method here is proved
    to return the list its specification function describes. */
module Analyzers {
  import opened PyStr
  import opened Templates

  /** A parser token: its surface text and dependency label. */
  datatype Token = Token(text: string, dep: string)

  /** A parser sentence: its text, its tokens and the messages the grammar checker
      reports for that text. */
  datatype Sentence = Sentence(text: string, tokens: seq<Token>, issues: seq<string>)

  /** A named entity: its text and its label (`kind`; `label` is a Dafny keyword). */
  datatype Entity = Entity(text: string, kind: string)

  /** A configuration dictionary in its iteration order. */
  type Table<V> = seq<(string, V)>

  /** `key in table`. */
  predicate HasKey<V>(table: Table<V>, key: string)
  {
    exists k | 0 <= k < |table| :: table[k].0 == key
  }

  /** `table[key]`: the value of the first entry with that key. */
  function Lookup<V>(table: Table<V>, key: string): (v: V)
    requires HasKey(table, key)
    ensures exists k | 0 <= k < |table| :: table[k] == (key, v)
    decreases |table|
  {
    if table[0].0 == key then table[0].1 else Lookup(table[1..], key)
  }

  /** No key occurs twice, as in a Python dictionary. */
  predicate DistinctKeys<V>(table: Table<V>)
  {
    forall i, j | 0 <= i < j < |table| :: table[i].0 != table[j].0
  }

  /** With distinct keys, the value found is the one stored under the key. */
  lemma LookupDistinct<V>(table: Table<V>, k: nat)
    requires DistinctKeys(table) && k < |table|
    ensures HasKey(table, table[k].0) && Lookup(table, table[k].0) == table[k].1
  {
    var v := Lookup(table, table[k].0);
    var j :| 0 <= j < |table| && table[j] == (table[k].0, v);
    assert j == k;
  }

  /** With distinct keys, the last entry is found under its key, which no earlier entry has. */
  lemma LookupLast<V>(table: Table<V>)
    requires table != [] && DistinctKeys(table)
    ensures var init, last := table[..|table| - 1], table[|table| - 1];
      DistinctKeys(init) && !HasKey(init, last.0) && HasKey(table, last.0) && Lookup(table, last.0) == last.1
  {
    var n := |table| - 1;
    assert forall k | 0 <= k < n :: table[..n][k] == table[k];
    LookupDistinct(table, n);
  }

  /** A key other than the last entry's is found, if at all, among the earlier entries. */
  lemma LookupInit<V>(table: Table<V>, key: string)
    requires table != [] && DistinctKeys(table) && table[|table| - 1].0 != key
    ensures var init := table[..|table| - 1];
      DistinctKeys(init) && (HasKey(table, key) <==> HasKey(init, key))
      && (HasKey(init, key) ==> Lookup(table, key) == Lookup(init, key))
  {
    var n := |table| - 1;
    var init := table[..n];
    assert forall k | 0 <= k < n :: init[k] == table[k];
    if HasKey(init, key) {
      var k :| 0 <= k < n && init[k].0 == key;
      LookupDistinct(init, k);
      LookupDistinct(table, k);
    }
  }

  // ---------------------------------------------------------------- is_passive

  predicate PassiveLabel(dep: string)
  {
    dep == "auxpass" || dep == "nsubjpass"
  }

  /** Some token has a passive dependency label. */
  predicate HasPassive(tokens: seq<Token>)
  {
    exists k | 0 <= k < |tokens| :: PassiveLabel(tokens[k].dep)
  }

  /** `is_passive`: scans the tokens and stops at the first passive label. */
  method IsPassive(tokens: seq<Token>) returns (passive: bool)
    ensures passive <==> HasPassive(tokens)
  {
    for i := 0 to |tokens|
      invariant forall k | 0 <= k < i :: !PassiveLabel(tokens[k].dep)
    {
      if tokens[i].dep in ["auxpass", "nsubjpass"] {
        return true;
      }
    }
    return false;
  }

  // ---------------------------------------------------------- long sentences

  const MaxWords := 20

  /** `len(sentence.text.split()) > 20`. */
  predicate IsLong(text: string)
  {
    |Words(text)| > MaxWords
  }

  /** A text of words joined by single spaces is long exactly when it has more than
      20 of them: 20 words are not flagged, 21 are. */
  lemma LongIffMoreThanTwenty(ws: seq<string>)
    requires forall k :: 0 <= k < |ws| ==> IsWord(ws[k])
    ensures IsLong(JoinSpaces(ws)) <==> |ws| > 20
  {
    WordsOfJoin(ws);
  }

  // ------------------------------------------------------------ check_syntax

  /** The grammar-table messages for one checker message, in table order. */
  function MistakeMessages(issue: string, mistakes: Table<string>): seq<string>
    decreases |mistakes|
  {
    if mistakes == [] then []
    else
      var last := mistakes[|mistakes| - 1];
      MistakeMessages(issue, mistakes[..|mistakes| - 1])
      + (if Contains(Lower(issue), last.0) then [SyntaxMessage(last.0, last.1)] else [])
  }

  /** The grammar-table messages for the first `n` checker messages of a sentence. */
  function IssuesMessages(issues: seq<string>, n: nat, mistakes: Table<string>): seq<string>
    requires n <= |issues|
  {
    if n == 0 then [] else IssuesMessages(issues, n - 1, mistakes) + MistakeMessages(issues[n - 1], mistakes)
  }

  /** The grammar-table messages for all checker messages of a sentence. */
  function SyntaxMessages(issues: seq<string>, mistakes: Table<string>): seq<string>
  {
    IssuesMessages(issues, |issues|, mistakes)
  }

  /** `check_syntax`: for each checker message and each table entry whose mistake
      occurs in the lowercased message, the entry's message. */
  method CheckSyntax(issues: seq<string>, mistakes: Table<string>) returns (suggestions: seq<string>)
    ensures suggestions == SyntaxMessages(issues, mistakes)
  {
    suggestions := [];
    for i := 0 to |issues|
      invariant suggestions == IssuesMessages(issues, i, mistakes)
    {
      var message := Lower(issues[i]);
      for k := 0 to |mistakes|
        invariant suggestions == IssuesMessages(issues, i, mistakes) + MistakeMessages(issues[i], mistakes[..k])
      {
        var (mistake, replacement) := mistakes[k];
        assert mistakes[..k + 1][..k] == mistakes[..k];
        if Contains(message, mistake) {
          suggestions := suggestions + [SyntaxMessage(mistake, replacement)];
        }
      }
      assert mistakes[..|mistakes|] == mistakes;
    }
  }

  /** A message of `MistakeMessages` is exactly one of a table entry whose mistake the
      lowercased checker message contains. */
  lemma {:induction false} MistakeMember(issue: string, mistakes: Table<string>, s: string)
    ensures s in MistakeMessages(issue, mistakes) <==>
      exists k | 0 <= k < |mistakes| :: Contains(Lower(issue), mistakes[k].0) && s == SyntaxMessage(mistakes[k].0, mistakes[k].1)
    decreases |mistakes|
  {
    if mistakes != [] {
      var init := mistakes[..|mistakes| - 1];
      MistakeMember(issue, init, s);
      InAppend(MistakeMessages(issue, init), (if Contains(Lower(issue), mistakes[|mistakes| - 1].0) then [SyntaxMessage(mistakes[|mistakes| - 1].0, mistakes[|mistakes| - 1].1)] else []), s);
      assert forall k | 0 <= k < |init| :: init[k] == mistakes[k];
    }
  }

  /** A message of `SyntaxMessages` comes from one checker message and one table entry. */
  lemma SyntaxMember(issues: seq<string>, mistakes: Table<string>, s: string)
    ensures s in SyntaxMessages(issues, mistakes) <==>
      exists i, k | 0 <= i < |issues| && 0 <= k < |mistakes| ::
        Contains(Lower(issues[i]), mistakes[k].0) && s == SyntaxMessage(mistakes[k].0, mistakes[k].1)
  {
    if s in SyntaxMessages(issues, mistakes) {
      SyntaxMessageSource(issues, |issues|, mistakes, s);
    }
    forall i, k | 0 <= i < |issues| && 0 <= k < |mistakes| && Contains(Lower(issues[i]), mistakes[k].0)
      ensures SyntaxMessage(mistakes[k].0, mistakes[k].1) in SyntaxMessages(issues, mistakes)
    {
      SyntaxMessageListed(issues, |issues|, mistakes, i, k);
    }
  }

  lemma {:induction false} SyntaxMessageSource(issues: seq<string>, n: nat, mistakes: Table<string>, s: string)
    requires n <= |issues| && s in IssuesMessages(issues, n, mistakes)
    ensures exists i, k | 0 <= i < n && 0 <= k < |mistakes| ::
      Contains(Lower(issues[i]), mistakes[k].0) && s == SyntaxMessage(mistakes[k].0, mistakes[k].1)
  {
    InAppend(IssuesMessages(issues, n - 1, mistakes), MistakeMessages(issues[n - 1], mistakes), s);
    if s in IssuesMessages(issues, n - 1, mistakes) {
      SyntaxMessageSource(issues, n - 1, mistakes, s);
    } else {
      MistakeMember(issues[n - 1], mistakes, s);
    }
  }

  lemma {:induction false} SyntaxMessageListed(issues: seq<string>, n: nat, mistakes: Table<string>, i: nat, k: nat)
    requires i < n <= |issues| && k < |mistakes| && Contains(Lower(issues[i]), mistakes[k].0)
    ensures SyntaxMessage(mistakes[k].0, mistakes[k].1) in IssuesMessages(issues, n, mistakes)
  {
    var s := SyntaxMessage(mistakes[k].0, mistakes[k].1);
    InAppend(IssuesMessages(issues, n - 1, mistakes), MistakeMessages(issues[n - 1], mistakes), s);
    if i < n - 1 {
      SyntaxMessageListed(issues, n - 1, mistakes, i, k);
    } else {
      MistakeListed(issues[n - 1], mistakes, k);
    }
  }

  lemma MistakeListed(issue: string, mistakes: Table<string>, k: nat)
    requires k < |mistakes| && Contains(Lower(issue), mistakes[k].0)
    ensures SyntaxMessage(mistakes[k].0, mistakes[k].1) in MistakeMessages(issue, mistakes)
  {
    MistakeMember(issue, mistakes, SyntaxMessage(mistakes[k].0, mistakes[k].1));
  }

  // -------------------------------------------------------- analyze_sentence

  /** `analyze_sentence`'s list: the passive-voice message, the long-sentence message,
      then the grammar-table messages. */
  function SentenceMessages(s: Sentence, mistakes: Table<string>): seq<string>
  {
    SentenceAdvice(s) + SyntaxMessages(s.issues, mistakes)
  }

  /** The passive-voice message when some token is passive, then the long-sentence
      message when the text has more than 20 words. */
  function SentenceAdvice(s: Sentence): seq<string>
  {
    (if HasPassive(s.tokens) then [PassiveMessage(s.text)] else [])
    + (if IsLong(s.text) then [LongMessage(s.text)] else [])
  }

  method AnalyzeSentence(s: Sentence, mistakes: Table<string>) returns (suggestions: seq<string>)
    ensures suggestions == SentenceMessages(s, mistakes)
  {
    suggestions := SentenceChecks(s);
    var syntax := CheckSyntax(s.issues, mistakes);
    suggestions := suggestions + syntax;
  }

  /** The passive-voice and long-sentence checks of `analyze_sentence`. */
  method SentenceChecks(s: Sentence) returns (suggestions: seq<string>)
    ensures suggestions == SentenceAdvice(s)
  {
    suggestions := [];
    var passive := IsPassive(s.tokens);
    if passive {
      suggestions := suggestions + [PassiveMessage(s.text)];
    }
    if |Words(s.text)| > MaxWords {
      suggestions := suggestions + [LongMessage(s.text)];
    }
  }

  // ------------------------------------------------------- analyze_entities

  /** The messages for one entity from the terms under its label, in table order. */
  function TermMessages(e: Entity, terms: Table<string>): seq<string>
    decreases |terms|
  {
    if terms == [] then []
    else
      var last := terms[|terms| - 1];
      TermMessages(e, terms[..|terms| - 1])
      + (if Lower(e.text) == last.0 then [EntityMessage(last.1, e.text)] else [])
  }

  /** An entity's messages: none when its label is not configured. */
  function EntityMessagesOf(e: Entity, ner: Table<Table<string>>): seq<string>
  {
    if HasKey(ner, e.kind) then TermMessages(e, Lookup(ner, e.kind)) else []
  }

  /** `analyze_entities`' list, entity by entity. */
  function EntityMessages(ents: seq<Entity>, ner: Table<Table<string>>): seq<string>
    decreases |ents|
  {
    if ents == [] then []
    else EntityMessages(ents[..|ents| - 1], ner) + EntityMessagesOf(ents[|ents| - 1], ner)
  }

  method AnalyzeEntities(ents: seq<Entity>, ner: Table<Table<string>>) returns (suggestions: seq<string>)
    ensures suggestions == EntityMessages(ents, ner)
  {
    suggestions := [];
    for i := 0 to |ents|
      invariant suggestions == EntityMessages(ents[..i], ner)
    {
      var e := ents[i];
      EntityMessagesSnoc(ents, i, ner);
      if HasKey(ner, e.kind) {
        var more := AnalyzeTerms(e, Lookup(ner, e.kind));
        suggestions := suggestions + more;
      }
    }
    assert ents[..|ents|] == ents;
  }

  /** The inner loop of `analyze_entities`: one entity against the terms of its label. */
  method AnalyzeTerms(e: Entity, terms: Table<string>) returns (suggestions: seq<string>)
    ensures suggestions == TermMessages(e, terms)
  {
    suggestions := [];
    for k := 0 to |terms|
      invariant suggestions == TermMessages(e, terms[..k])
    {
      var (term, suggestion) := terms[k];
      TermMessagesSnoc(e, terms, k);
      if Lower(e.text) == term {
        suggestions := suggestions + [EntityMessage(suggestion, e.text)];
      }
    }
    assert terms[..|terms|] == terms;
  }


  lemma EntityMessagesSnoc(ents: seq<Entity>, i: nat, ner: Table<Table<string>>)
    requires i < |ents|
    ensures EntityMessages(ents[..i + 1], ner) == EntityMessages(ents[..i], ner) + EntityMessagesOf(ents[i], ner)
  {
    assert ents[..i + 1][..i] == ents[..i];
  }

  lemma TermMessagesSnoc(e: Entity, terms: Table<string>, k: nat)
    requires k < |terms|
    ensures TermMessages(e, terms[..k + 1]) == TermMessages(e, terms[..k])
      + (if Lower(e.text) == terms[k].0 then [EntityMessage(terms[k].1, e.text)] else [])
  {
    assert terms[..k + 1][..k] == terms[..k];
  }

  /** With distinct terms an entity gets at most one message: exactly one, built from the
      suggestion stored under its lowercased text, when that text is a term. */
  lemma {:induction false} TermMessagesAtMostOne(e: Entity, terms: Table<string>)
    requires DistinctKeys(terms)
    ensures HasKey(terms, Lower(e.text)) ==>
      TermMessages(e, terms) == [EntityMessage(Lookup(terms, Lower(e.text)), e.text)]
    ensures !HasKey(terms, Lower(e.text)) ==> TermMessages(e, terms) == []
    decreases |terms|
  {
    if terms != [] {
      var init := terms[..|terms| - 1];
      if terms[|terms| - 1].0 == Lower(e.text) {
        LookupLast(terms);
        TermMessagesAtMostOne(e, init);
      } else {
        LookupInit(terms, Lower(e.text));
        TermMessagesAtMostOne(e, init);
      }
    }
  }

  /** Messages follow entity order: the list for two runs of entities is the two lists. */
  lemma {:induction false} EntityMessagesAppend(xs: seq<Entity>, ys: seq<Entity>, ner: Table<Table<string>>)
    ensures EntityMessages(xs + ys, ner) == EntityMessages(xs, ner) + EntityMessages(ys, ner)
    decreases |ys|
  {
    if ys == [] {
      AppendNil(xs);
      AppendNil(EntityMessages(xs, ner));
    } else {
      var init := ys[..|ys| - 1];
      InitOfAppend(xs, ys);
      EntityMessagesAppend(xs, init, ner);
      Assoc(EntityMessages(xs, ner), EntityMessages(init, ner), EntityMessagesOf(ys[|ys| - 1], ner));
    }
  }

  /** One entity's messages, for a configuration whose tables have distinct keys. */
  lemma EntityMessagesOne(e: Entity, ner: Table<Table<string>>)
    requires DistinctKeys(ner) && forall k | 0 <= k < |ner| :: DistinctKeys(ner[k].1)
    ensures EntityMessages([e], ner) ==
      if HasKey(ner, e.kind) && HasKey(Lookup(ner, e.kind), Lower(e.text))
      then [EntityMessage(Lookup(Lookup(ner, e.kind), Lower(e.text)), e.text)]
      else []
  {
    assert [e][..0] == [];
    if HasKey(ner, e.kind) {
      var k :| 0 <= k < |ner| && ner[k] == (e.kind, Lookup(ner, e.kind));
      TermMessagesAtMostOne(e, Lookup(ner, e.kind));
    }
  }

  // ------------------------------------------------- analyze_style_and_tone

  /** The casual-word messages, token by token. */
  function CasualMessages(tokens: seq<Token>, casual: seq<string>): seq<string>
    decreases |tokens|
  {
    if tokens == [] then []
    else
      var t := tokens[|tokens| - 1];
      CasualMessages(tokens[..|tokens| - 1], casual)
      + (if Lower(t.text) in casual then [CasualMessage(t.text)] else [])
  }

  /** `analyze_style_and_tone`'s list: the casual-word messages, then the tone message
      when the sentiment is negative. */
  function StyleMessages(tokens: seq<Token>, casual: seq<string>, negative: bool): seq<string>
  {
    CasualMessages(tokens, casual) + (if negative then [NegativeTone] else [])
  }

  /** `analyze_style_and_tone`; `negative` is the outcome of the sentiment threshold
      test (polarity below -0.5). */
  method AnalyzeStyleAndTone(tokens: seq<Token>, casual: seq<string>, negative: bool)
    returns (suggestions: seq<string>)
    ensures suggestions == StyleMessages(tokens, casual, negative)
  {
    suggestions := [];
    for i := 0 to |tokens|
      invariant suggestions == CasualMessages(tokens[..i], casual)
    {
      assert tokens[..i + 1][..i] == tokens[..i];
      if Lower(tokens[i].text) in casual {
        suggestions := suggestions + [CasualMessage(tokens[i].text)];
      }
    }
    assert tokens[..|tokens|] == tokens;
    if negative {
      suggestions := suggestions + [NegativeTone];
    }
  }

  /** Every casual-word message names a token whose lowercased text is a casual word. */
  lemma {:induction false} CasualMember(tokens: seq<Token>, casual: seq<string>, s: string)
    ensures s in CasualMessages(tokens, casual) <==>
      exists k | 0 <= k < |tokens| :: Lower(tokens[k].text) in casual && s == CasualMessage(tokens[k].text)
    decreases |tokens|
  {
    if tokens != [] {
      var init := tokens[..|tokens| - 1];
      CasualMember(init, casual, s);
      InAppend(CasualMessages(init, casual), (if Lower(tokens[|tokens| - 1].text) in casual then [CasualMessage(tokens[|tokens| - 1].text)] else []), s);
      assert forall k | 0 <= k < |init| :: init[k] == tokens[k];
    }
  }

  // --------------------------------------------------- readability_analysis

  /** `readability_analysis`; the flags are the outcomes of the Flesch reading-ease
      (below 60) and SMOG index (above 12) tests. */
  function ReadabilityMessages(hardToRead: bool, tooComplex: bool): (r: seq<string>)
    ensures |r| <= 2
    ensures HardToRead in r <==> hardToRead
    ensures TooComplex in r <==> tooComplex
  {
    assert HardToRead != TooComplex by {
      assert HardToRead[9] != TooComplex[9];
    }
    (if hardToRead then [HardToRead] else []) + (if tooComplex then [TooComplex] else [])
  }

  // ---------------------------------------- improve_clarity_and_conciseness

  /** A redundancy message for each configured phrase that occurs in the text,
      in table order. */
  function RedundancyMessages(text: string, redundant: Table<string>): seq<string>
    decreases |redundant|
  {
    if redundant == [] then []
    else
      var last := redundant[|redundant| - 1];
      RedundancyMessages(text, redundant[..|redundant| - 1])
      + (if Contains(text, last.0) then [ReplacementMessage(last.0, last.1)] else [])
  }

  /** A complex-word message for each token whose lowercased text is configured. */
  function ComplexMessages(tokens: seq<Token>, complex: Table<string>): seq<string>
    decreases |tokens|
  {
    if tokens == [] then []
    else
      var t := tokens[|tokens| - 1];
      ComplexMessages(tokens[..|tokens| - 1], complex)
      + (if HasKey(complex, Lower(t.text)) then [ReplacementMessage(t.text, Lookup(complex, Lower(t.text)))] else [])
  }

  /** `improve_clarity_and_conciseness`: redundancy messages, then complex-word messages. */
  method ImproveClarityAndConciseness(text: string, tokens: seq<Token>, redundant: Table<string>, complex: Table<string>)
    returns (suggestions: seq<string>)
    ensures suggestions == RedundancyMessages(text, redundant) + ComplexMessages(tokens, complex)
  {
    suggestions := [];
    for k := 0 to |redundant|
      invariant suggestions == RedundancyMessages(text, redundant[..k])
    {
      var (phrase, replacement) := redundant[k];
      assert redundant[..k + 1][..k] == redundant[..k];
      if Contains(text, phrase) {
        suggestions := suggestions + [ReplacementMessage(phrase, replacement)];
      }
    }
    assert redundant[..|redundant|] == redundant;
    for i := 0 to |tokens|
      invariant suggestions == RedundancyMessages(text, redundant) + ComplexMessages(tokens[..i], complex)
    {
      var word := Lower(tokens[i].text);
      assert tokens[..i + 1][..i] == tokens[..i];
      if HasKey(complex, word) {
        var replacement := Lookup(complex, word);
        suggestions := suggestions + [ReplacementMessage(tokens[i].text, replacement)];
      }
    }
    assert tokens[..|tokens|] == tokens;
  }

  /** A redundancy message is there exactly for a configured phrase the text contains. */
  lemma {:induction false} RedundancyMember(text: string, redundant: Table<string>, s: string)
    ensures s in RedundancyMessages(text, redundant) <==>
      exists k | 0 <= k < |redundant| :: Contains(text, redundant[k].0) && s == ReplacementMessage(redundant[k].0, redundant[k].1)
    decreases |redundant|
  {
    if redundant != [] {
      var init := redundant[..|redundant| - 1];
      RedundancyMember(text, init, s);
      InAppend(RedundancyMessages(text, init), (if Contains(text, redundant[|redundant| - 1].0) then [ReplacementMessage(redundant[|redundant| - 1].0, redundant[|redundant| - 1].1)] else []), s);
      assert forall k | 0 <= k < |init| :: init[k] == redundant[k];
    }
  }

  /** A complex-word message is there exactly for a token whose lowercased text is
      configured, with the configured replacement. */
  lemma {:induction false} ComplexMember(tokens: seq<Token>, complex: Table<string>, s: string)
    ensures s in ComplexMessages(tokens, complex) <==>
      exists k | 0 <= k < |tokens| :: HasKey(complex, Lower(tokens[k].text))
        && s == ReplacementMessage(tokens[k].text, Lookup(complex, Lower(tokens[k].text)))
    decreases |tokens|
  {
    if tokens != [] {
      var init := tokens[..|tokens| - 1];
      ComplexMember(init, complex, s);
      assert forall k | 0 <= k < |init| :: init[k] == tokens[k];
    }
  }
}
