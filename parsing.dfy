/** What `Translate` makes of each message template the analyzers produce:
    which messages parse back to the edit they were built from, which keep a
    stray apostrophe, and which are never applied. */
module TemplateParsing {
  import opened PyStr
  import opened Regex
  import opened Templates
  import opened Rewriter

  /** A phrase the quoted templates carry intact: no apostrophe and no trailing
      space. (Missing these, a phrase such as "x Consider replacing " or "a' with "
      makes the delimiters appear inside the message.) */
  predicate Quotable(s: string)
  {
    '\'' !in s && (s == [] || s[|s| - 1] != ' ')
  }

  lemma CharOfOccurrence(s: string, pat: string, j: int, k: int)
    requires 0 <= k < |pat|
    ensures OccursAt(s, pat, j) ==> 0 <= j + k < |s| && s[j + k] == pat[k]
  {
    if OccursAt(s, pat, j) {
      assert s[j..j + |pat|][k] == s[j + k];
    }
  }

  /** A pattern that has a character the string lacks does not occur in it. */
  lemma MissingChar(s: string, pat: string, k: nat)
    requires k < |pat| && pat[k] !in s
    ensures !Contains(s, pat)
  {
    forall j | 0 <= j <= |s| - |pat| ensures !OccursAt(s, pat, j) {
      CharOfOccurrence(s, pat, j, k);
    }
  }

  /** A pattern starting with `c` occurs in `x + [c] + y`, where `x` and `y` lack `c`,
      only at `|x|`. */
  lemma LoneFirstChar(x: string, c: char, y: string, pat: string)
    requires pat != [] && pat[0] == c && c !in x && c !in y
    requires !OccursAt(x + [c] + y, pat, |x|)
    ensures !Contains(x + [c] + y, pat)
  {
    var s := x + [c] + y;
    forall j | 0 <= j <= |s| - |pat| ensures !OccursAt(s, pat, j) {
      CharOfOccurrence(s, pat, j, 0);
      assert j < |x| ==> s[j] == x[j];
      assert j > |x| ==> s[j] == y[j - |x| - 1];
    }
  }

  /** The part of a replacement-shaped message after its opening delimiter. */
  function Rest(p: string, r: string, tail: string): string
  {
    p + WithSep + r + tail
  }

  /** The apostrophes of `Rest` are the delimiters' own. */
  lemma RestQuotes(p: string, r: string, tail: string)
    requires '\'' !in p && '\'' !in r && (tail == "'" || tail == QuoteDot)
    ensures forall k :: 0 <= k < |Rest(p, r, tail)| && Rest(p, r, tail)[k] == '\'' ==>
      k == |p| || k == |p| + 7 || k == |p| + 8 + |r|
  {
    var s := Rest(p, r, tail);
    assert forall k :: 0 <= k < |p| ==> s[k] == p[k];
    assert forall k :: |p| <= k < |p| + 8 ==> s[k] == WithSep[k - |p|];
    assert forall k :: |p| + 8 <= k < |p| + 8 + |r| ==> s[k] == r[k - |p| - 8];
    assert forall k :: |p| + 8 + |r| <= k < |s| ==> s[k] == tail[k - |p| - 8 - |r|];
  }

  /** The opening delimiter does not occur again after the first one. */
  lemma RestHasNoOpen(p: string, r: string, tail: string)
    requires Quotable(p) && Quotable(r) && (tail == "'" || tail == QuoteDot)
    ensures !Contains(Rest(p, r, tail), ReplacingOpen)
  {
    var s := Rest(p, r, tail);
    RestQuotes(p, r, tail);
    assert s[|p| + 5] == 'h';
    assert |p| > 0 ==> s[|p| - 1] == p[|p| - 1];
    assert |r| > 0 ==> s[|p| + 7 + |r|] == r[|r| - 1];
    assert |r| == 0 ==> s[|p| + 7] == '\'';
    forall j | 0 <= j <= |s| - |ReplacingOpen| ensures !OccursAt(s, ReplacingOpen, j) {
      CharOfOccurrence(s, ReplacingOpen, j, 19);
      CharOfOccurrence(s, ReplacingOpen, j, 18);
      CharOfOccurrence(s, ReplacingOpen, j, 17);
    }
  }

  /** `Rest` splits on the middle delimiter into the phrase and the rest. */
  lemma RestSplit(p: string, r: string, tail: string)
    requires '\'' !in p && '\'' !in r && (tail == "'" || tail == QuoteDot)
    ensures Split(Rest(p, r, tail), WithSep) == [p, r + tail]
  {
    var s := Rest(p, r, tail);
    forall j | 0 <= j < |p| ensures !OccursAt(s, WithSep, j) {
      CharOfOccurrence(s, WithSep, j, 0);
      assert s[j] == p[j];
    }
    assert s[|p|..|p| + 8] == WithSep;
    IndexFromFirst(s, WithSep, 0, |p|);
    var after := s[|p| + 8..];
    assert after == r + tail;
    forall j | 0 <= j <= |after| - |WithSep| ensures !OccursAt(after, WithSep, j) {
      CharOfOccurrence(after, WithSep, j, 0);
      assert after[j] == r[j];
    }
    assert Split(after, WithSep) == [after];
    assert s[..|p|] == p;
  }

  /** Removing every "'." from the replacement part. */
  lemma TailRemoved(r: string)
    requires '\'' !in r
    ensures ReplaceAll(r + QuoteDot, QuoteDot, "") == r
    ensures ReplaceAll(r + "'", QuoteDot, "") == r + "'"
  {
    var s := r + QuoteDot;
    forall j | 0 <= j < |r| ensures !OccursAt(s, QuoteDot, j) {
      CharOfOccurrence(s, QuoteDot, j, 0);
      assert s[j] == r[j];
    }
    assert s[|r|..] == QuoteDot;
    IndexFromFirst(s, QuoteDot, 0, |r|);
    assert s[|r| + 2..] == [];
    assert ReplaceAll([], QuoteDot, "") == [];
    assert s[..|r|] == r;
    var t := r + "'";
    forall j | 0 <= j <= |t| - 2 ensures !OccursAt(t, QuoteDot, j) {
      CharOfOccurrence(t, QuoteDot, j, 0);
      assert t[j] == r[j];
    }
  }

  /** After the opening delimiter at the very start, a rest without another one is
      the piece the rewriter goes on with. */
  lemma OpenSplit(rest: string)
    requires !Contains(rest, ReplacingOpen)
    ensures Contains(ReplacingOpen + rest, Replacing)
    ensures Split(ReplacingOpen + rest, ReplacingOpen) == ["", rest]
  {
    var s := ReplacingOpen + rest;
    assert s == Replacing + (" '" + rest);
    assert s[0..|Replacing|] == Replacing;
    assert OccursAt(s, Replacing, 0);
    assert s[0..|ReplacingOpen|] == ReplacingOpen;
    assert IndexFrom(s, ReplacingOpen, 0) == Some(0);
    assert s[|ReplacingOpen|..] == rest;
    assert Split(rest, ReplacingOpen) == [rest];
  }

  /** Redundancy and complex-word messages parse back to the pair they were built from. */
  lemma ReplacementRoundTrip(p: string, r: string, spell: string -> string)
    requires Quotable(p) && Quotable(r)
    ensures Translate(ReplacementMessage(p, r), spell) == Some(Edit(p, r))
  {
    var rest := Rest(p, r, QuoteDot);
    assert ReplacementMessage(p, r) == ReplacingOpen + rest;
    RestHasNoOpen(p, r, QuoteDot);
    OpenSplit(rest);
    RestSplit(p, r, QuoteDot);
    TailRemoved(r);
  }

  /** Grammar-table messages lack the final period, so the parsed replacement keeps
      the closing apostrophe. */
  lemma SyntaxRoundTrip(m: string, r: string, spell: string -> string)
    requires Quotable(m) && Quotable(r)
    ensures Translate(SyntaxMessage(m, r), spell) == Some(Edit(m, r + "'"))
  {
    var rest := Rest(m, r, "'");
    assert SyntaxMessage(m, r) == ReplacingOpen + rest;
    RestHasNoOpen(m, r, "'");
    OpenSplit(rest);
    RestSplit(m, r, "'");
    TailRemoved(r);
  }

  /** Distinct quotable entries give distinct redundancy messages: the message
      determines the pair it was built from. */
  lemma ReplacementInjective(p: string, r: string, p': string, r': string)
    requires Quotable(p) && Quotable(r) && Quotable(p') && Quotable(r')
    ensures ReplacementMessage(p, r) == ReplacementMessage(p', r') <==> p == p' && r == r'
  {
    var spell := (w: string) => w;
    ReplacementRoundTrip(p, r, spell);
    ReplacementRoundTrip(p', r', spell);
  }

  /** The apostrophe after a casual word is the only one that follows it. */
  lemma CasualRestChars(w: string)
    requires ' ' !in w
    ensures var rest := w + "'" + CasualTail;
      (forall k :: 0 <= k < |w| ==> rest[k] != ' ') &&
      (forall k :: |w| < k < |rest| ==> rest[k] != '\'')
  {
    var rest := w + "'" + CasualTail;
    assert '\'' !in CasualTail;
    assert forall k :: 0 <= k < |w| ==> rest[k] == w[k];
    assert forall k :: |w| < k < |rest| ==> rest[k] == CasualTail[k - |w| - 1];
  }

  /** A casual-word message has no second `' with '`, so unpacking fails and it is
      skipped. This holds for every word that lacks a space or lacks an apostrophe;
      only a word with both, such as "x' with 'y", can supply the delimiter. */
  lemma CasualNotApplied(w: string, spell: string -> string)
    requires ' ' !in w || '\'' !in w
    ensures Translate(CasualMessage(w), spell) == None
  {
    var rest := w + "'" + CasualTail;
    Assoc4(ReplacingOpen, w, "'", CasualTail);
    if ' ' !in w {
      CasualRestPatterns(w);
      OpenSplit(rest);
    } else {
      OpenSplitAny(rest);
      SplitHeadPrefix(rest, ReplacingOpen);
      CasualPrefixNoWithSep(w, |Split(rest, ReplacingOpen)[0]|);
    }
  }

  /** Splitting a message that starts with the opening delimiter: the second piece is
      the first piece of splitting what follows the delimiter. */
  lemma OpenSplitAny(rest: string)
    ensures Contains(ReplacingOpen + rest, Replacing)
    ensures var parts := Split(ReplacingOpen + rest, ReplacingOpen);
      |parts| > 1 && parts[1] == Split(rest, ReplacingOpen)[0]
  {
    var s := ReplacingOpen + rest;
    assert s == Replacing + (" '" + rest);
    assert s[0..|Replacing|] == Replacing;
    assert OccursAt(s, Replacing, 0);
    assert s[0..|ReplacingOpen|] == ReplacingOpen;
    assert IndexFrom(s, ReplacingOpen, 0) == Some(0);
    assert s[|ReplacingOpen|..] == rest;
  }

  /** The first piece of a split is a prefix of the text. */
  lemma SplitHeadPrefix(t: string, sep: string)
    requires sep != []
    ensures |Split(t, sep)[0]| <= |t| && Split(t, sep)[0] == t[..|Split(t, sep)[0]|]
  {
  }

  /** A casual word without an apostrophe leaves a single apostrophe after it, so no
      prefix of what follows the opening delimiter holds `' with '`. */
  lemma CasualPrefixNoWithSep(w: string, n: nat)
    requires '\'' !in w && n <= |w + "'" + CasualTail|
    ensures !Contains((w + "'" + CasualTail)[..n], WithSep)
  {
    var rest := w + "'" + CasualTail;
    var u := rest[..n];
    assert '\'' !in CasualTail;
    assert forall k :: 0 <= k < |w| ==> rest[k] == w[k];
    assert forall k :: |w| < k < |rest| ==> rest[k] == CasualTail[k - |w| - 1];
    forall j | 0 <= j <= |u| - |WithSep| ensures !OccursAt(u, WithSep, j) {
      CharOfOccurrence(u, WithSep, j, 0);
      CharOfOccurrence(u, WithSep, j, 7);
    }
  }

  /** After the opening delimiter, a casual-word message has neither delimiter. */
  lemma CasualRestPatterns(w: string)
    requires ' ' !in w
    ensures !Contains(w + "'" + CasualTail, ReplacingOpen)
    ensures !Contains(w + "'" + CasualTail, WithSep)
  {
    var rest := w + "'" + CasualTail;
    CasualRestChars(w);
    forall j | 0 <= j <= |rest| - |ReplacingOpen| ensures !OccursAt(rest, ReplacingOpen, j) {
      CharOfOccurrence(rest, ReplacingOpen, j, 8);
      CharOfOccurrence(rest, ReplacingOpen, j, 19);
    }
    forall j | 0 <= j <= |rest| - |WithSep| ensures !OccursAt(rest, WithSep, j) {
      CharOfOccurrence(rest, WithSep, j, 1);
      CharOfOccurrence(rest, WithSep, j, 7);
    }
  }

  /** A message whose opening quote is never closed is skipped. */
  lemma UnclosedNotApplied(x: string, spell: string -> string)
    requires '\'' !in x
    ensures Translate(ReplacingOpen + x, spell) == None
  {
    MissingChar(x, ReplacingOpen, 19);
    OpenSplit(x);
    MissingChar(x, WithSep, 0);
  }

  /** None of the three markers occurs in `s`. */
  predicate Unmarked(s: string)
  {
    !Contains(s, Replacing) && !Contains(s, GrammarMarker) && !Contains(s, SpellingMarker)
  }

  lemma UnmarkedNotApplied(s: string, spell: string -> string)
    requires Unmarked(s)
    ensures Translate(s, spell) == None
  {
  }

  /** Quoting an unmarked text after an unmarked lead keeps it unmarked: no marker has
      an apostrophe to straddle. */
  lemma QuotedUnmarked(lead: string, text: string)
    requires Unmarked(lead) && Unmarked(text)
    ensures Unmarked(lead + "'" + text + "'")
  {
    var s := lead + "'" + text + "'";
    assert s == lead + ['\''] + (text + ['\''] + []);
    forall pat | pat in [Replacing, GrammarMarker, SpellingMarker] ensures !Contains(s, pat) {
      assert '\'' !in pat;
      if Contains(s, pat) {
        ContainsAroundChar(lead, '\'', text + ['\''] + [], pat);
        ContainsAroundChar(text, '\'', [], pat);
      }
    }
  }

  /** The passive-voice and long-sentence messages are advice only, unless the sentence
      itself contains a marker. */
  lemma PassiveNotApplied(sentence: string, spell: string -> string)
    requires Unmarked(sentence)
    ensures Translate(PassiveMessage(sentence), spell) == None
  {
    PassiveLeadUnmarked();
    QuotedUnmarked(PassiveLead, sentence);
    UnmarkedNotApplied(PassiveMessage(sentence), spell);
  }

  lemma PassiveLeadUnmarked()
    ensures Unmarked(PassiveLead)
  {
    PassiveLeadNoP();
    PassiveLeadNoG();
    PassiveLeadNoS();
    MissingChar(PassiveLead, Replacing, 11);
    MissingChar(PassiveLead, GrammarMarker, 0);
    MissingChar(PassiveLead, SpellingMarker, 0);
  }

  lemma LongNotApplied(sentence: string, spell: string -> string)
    requires Unmarked(sentence)
    ensures Translate(LongMessage(sentence), spell) == None
  {
    LongLeadUnmarked();
    QuotedUnmarked(LongLead, sentence);
    UnmarkedNotApplied(LongMessage(sentence), spell);
  }

  lemma LongLeadUnmarked()
    ensures Unmarked(LongLead)
  {
    LongLeadNoP();
    LongLeadNoG();
    LongLeadNoS();
    MissingChar(LongLead, Replacing, 11);
    MissingChar(LongLead, GrammarMarker, 0);
    MissingChar(LongLead, SpellingMarker, 0);
  }

  /** The tone and readability messages are advice only. */
  lemma FixedAdviceNotApplied(spell: string -> string)
    ensures Translate(NegativeTone, spell) == None
    ensures Translate(HardToRead, spell) == None
    ensures Translate(TooComplex, spell) == None
  {
    ToneUnmarked();
    UnmarkedNotApplied(NegativeTone, spell);
    HardToReadUnmarked();
    UnmarkedNotApplied(HardToRead, spell);
    TooComplexUnmarked();
    UnmarkedNotApplied(TooComplex, spell);
  }

  // The fixed advice strings, piece by piece: the lemmas below and the regrouping
  // helpers only rearrange concatenations of short literals for the verifier.

  lemma ToneUnmarked()
    ensures Unmarked(NegativeTone)
  {
    NegativeToneNoL();
    NegativeToneNoColon();
    MissingChar(NegativeTone, Replacing, 12);
    MissingChar(NegativeTone, GrammarMarker, 13);
    MissingChar(NegativeTone, SpellingMarker, 14);
  }

  /** A literal starting with a capital C, split after it. */
  lemma CapitalFirst(b: string, b1: string)
    requires b != [] && b[0] == 'C' && b[1..] == b1
    ensures b == ['C'] + b1
  {
    HeadTail(b);
  }

  lemma Regroup(a: string, b: string, c: string, d: string, b0: char, b1: string)
    requires b == [b0] + b1
    ensures a + b + c + d == a + [b0] + (b1 + c + d)
  {
  }

  lemma Regroup3(a: string, b: string, c: string, b0: char, b1: string)
    requires b == [b0] + b1
    ensures a + b + c == a + [b0] + (b1 + c)
  {
  }

  const HardToReadLead := "The text is difficult to read. "
  const HardToReadTail := "onsider simplifying " + "your sentences and " + "using more common words."

  /** `HardToRead` is its one capital C with what comes before and after. */
  lemma HardToReadSplit()
    ensures HardToRead == HardToReadLead + ['C'] + HardToReadTail
  {
    CapitalFirst("Consider simplifying ", "onsider simplifying ");
    Regroup("The text is difficult to read. ", "Consider simplifying ", "your sentences and ",
      "using more common words.", 'C', "onsider simplifying ");
  }

  lemma HardToReadNoReplacing()
    ensures !Contains(HardToRead, Replacing)
  {
    HardToReadSplit();
    HardToReadOneC();
    assert HardToRead[|HardToReadLead| + 9] == 's';
    CharOfOccurrence(HardToRead, Replacing, |HardToReadLead|, 9);
    LoneFirstChar(HardToReadLead, 'C', HardToReadTail, Replacing);
  }

  /** The capital C split off is the only one in the readability advice. */
  lemma HardToReadOneC()
    ensures 'C' !in HardToReadLead && 'C' !in HardToReadTail
  {
    NoCapitalC("The text is difficult to read. ");
    NoCapitalC("onsider simplifying ");
    NoCapitalC("your sentences and ");
    NoCapitalC("using more common words.");
    NotInThree('C', "onsider simplifying ", "your sentences and ", "using more common words.");
  }

  /** One short literal lacks a capital C. */
  lemma NoCapitalC(t: string)
    requires forall k :: 0 <= k < |t| ==> t[k] != 'C'
    ensures 'C' !in t
  {
  }

  lemma HardToReadUnmarked()
    ensures Unmarked(HardToRead)
  {
    HardToReadNoReplacing();
    HardToReadNoColon();
    MissingChar(HardToRead, GrammarMarker, 13);
    MissingChar(HardToRead, SpellingMarker, 14);
  }

  const TooComplexLead := "The text may be too complex. "
  const TooComplexTail := "onsider simplifying it " + "for easier comprehension."

  lemma TooComplexSplit()
    ensures TooComplex == TooComplexLead + ['C'] + TooComplexTail
  {
    CapitalFirst("Consider simplifying it ", "onsider simplifying it ");
    Regroup3("The text may be too complex. ", "Consider simplifying it ", "for easier comprehension.",
      'C', "onsider simplifying it ");
  }

  lemma TooComplexNoReplacing()
    ensures !Contains(TooComplex, Replacing)
  {
    TooComplexSplit();
    TooComplexOneC();
    assert TooComplex[|TooComplexLead| + 9] == 's';
    CharOfOccurrence(TooComplex, Replacing, |TooComplexLead|, 9);
    LoneFirstChar(TooComplexLead, 'C', TooComplexTail, Replacing);
  }

  /** The capital C split off is the only one in the complexity advice. */
  lemma TooComplexOneC()
    ensures 'C' !in TooComplexLead && 'C' !in TooComplexTail
  {
    NoCapitalC("The text may be too complex. ");
    NoCapitalC("onsider simplifying it ");
    NoCapitalC("for easier comprehension.");
    NotInEither('C', "onsider simplifying it ", "for easier comprehension.");
  }

  lemma TooComplexUnmarked()
    ensures Unmarked(TooComplex)
  {
    TooComplexNoReplacing();
    TooComplexNoColon();
    MissingChar(TooComplex, GrammarMarker, 13);
    MissingChar(TooComplex, SpellingMarker, 14);
  }

  lemma WordOnlyQuotable(s: string)
    requires WordOnly(s)
    ensures Quotable(s) && '\\' !in s
  {
    assert !IsWordChar('\'') && !IsWordChar(' ') && !IsWordChar('\\');
    assert IsWordChar(s[|s| - 1]);
  }

  /** A well-formed replacement message rewrites every whole-word occurrence of its phrase. */
  lemma ReplacementApplies(text: string, p: string, r: string, spell: string -> string)
    requires Quotable(p) && Quotable(r) && p != [] && '\\' !in r
    ensures Admissible(ReplacementMessage(p, r), spell)
    ensures ApplyOne(text, ReplacementMessage(p, r), spell) == Sub(text, p, r)
  {
    ReplacementRoundTrip(p, r, spell);
  }

  /** A grammar-table message rewrites the mistake to the replacement followed by `'`. */
  lemma SyntaxApplies(text: string, m: string, r: string, spell: string -> string)
    requires Quotable(m) && Quotable(r) && m != [] && '\\' !in r
    ensures Admissible(SyntaxMessage(m, r), spell)
    ensures ApplyOne(text, SyntaxMessage(m, r), spell) == Sub(text, m, r + "'")
  {
    SyntaxRoundTrip(m, r, spell);
  }

  /** Suggestions are applied in list order, each to the previous output: `a -> b` then
      `b -> c` chains to `c` ... */
  lemma OrderChains(a: string, b: string, c: string, spell: string -> string)
    requires WordOnly(a) && WordOnly(b) && WordOnly(c)
    ensures AllAdmissible([ReplacementMessage(a, b), ReplacementMessage(b, c)], spell)
    ensures ApplyAll(a, [ReplacementMessage(a, b), ReplacementMessage(b, c)], spell) == c
  {
    WordOnlyQuotable(a);
    WordOnlyQuotable(b);
    WordOnlyQuotable(c);
    var ab, bc := ReplacementMessage(a, b), ReplacementMessage(b, c);
    ReplacementApplies(a, a, b, spell);
    ReplacementApplies(b, b, c, spell);
    ApplyTwo(a, ab, bc, spell);
    SubWhole(a, b);
    SubWhole(b, c);
  }

  /** ... while the other order applies `b -> c` too early and leaves `b`. */
  lemma OrderMatters(a: string, b: string, c: string, spell: string -> string)
    requires WordOnly(a) && WordOnly(b) && WordOnly(c) && a != b
    ensures AllAdmissible([ReplacementMessage(b, c), ReplacementMessage(a, b)], spell)
    ensures ApplyAll(a, [ReplacementMessage(b, c), ReplacementMessage(a, b)], spell) == b
  {
    WordOnlyQuotable(a);
    WordOnlyQuotable(b);
    WordOnlyQuotable(c);
    var ab, bc := ReplacementMessage(a, b), ReplacementMessage(b, c);
    ReplacementApplies(a, a, b, spell);
    ReplacementApplies(a, b, c, spell);
    ApplyTwo(a, bc, ab, spell);
    SubInsideWord(a, b, c);
    SubWhole(a, b);
  }

  /** The search for "Consider using" skips start positions where it does not occur. */
  lemma {:induction false} UsingSkip(s: string, p: nat, q: nat)
    requires p <= q <= |s|
    requires forall j :: p <= j < q ==> !OccursAt(s, UsingOpen, j)
    ensures UsingInsteadFrom(s, p) == UsingInsteadFrom(s, q)
    decreases q - p
  {
    if p < q {
      UsingSkip(s, p + 1, q);
    }
  }

  /** The lazy group extends past positions where its continuation does not match. */
  lemma {:induction false} LazySkip(s: string, q: nat, e: nat, tail: string, anyAfter: bool)
    requires q <= e <= |s|
    requires forall j :: q <= j < e ==> !OccursAt(s, tail, j) && s[j] != '\n'
    ensures LazyEnd(s, q, tail, anyAfter) == LazyEnd(s, e, tail, anyAfter)
    decreases e - q
  {
    if q < e {
      LazySkip(s, q + 1, e, tail, anyAfter);
    }
  }

  /** No occurrence of `pat` starts inside a prefix lacking its first character. */
  lemma NoStartBefore(s: string, lead: string, pat: string)
    requires pat != [] && |lead| <= |s| && s[..|lead|] == lead && pat[0] !in lead
    ensures forall j :: 0 <= j < |lead| ==> !OccursAt(s, pat, j)
  {
    forall j | 0 <= j < |lead| ensures !OccursAt(s, pat, j) {
      CharOfOccurrence(s, pat, j, 0);
      assert s[j] == lead[j];
    }
  }

  /** No occurrence of `tail` starts inside `x` when `x` is followed by `tail`: the
      condition under which a lazy group over `x` does not stop early. */
  predicate NoEarlyTail(x: string, tail: string)
  {
    forall j :: 0 <= j < |x| ==> !OccursAt(x + tail, tail, j)
  }

  /** A run that lacks the continuation's first character meets that condition. */
  lemma LacksFirstNoEarlyTail(x: string, tail: string)
    requires tail != [] && tail[0] !in x
    ensures NoEarlyTail(x, tail)
  {
    forall j | 0 <= j < |x| ensures !OccursAt(x + tail, tail, j) {
      CharOfOccurrence(x + tail, tail, j, 0);
    }
  }

  /** A lazy group over a run `x` meeting `NoEarlyTail` and without line ends stops
      right after `x`, where the continuation (and, when asked, one more character on
      the line) follows. */
  lemma LazyAfterRun(pre: string, x: string, tail: string, post: string, anyAfter: bool)
    requires NoEarlyTail(x, tail) && '\n' !in x
    requires anyAfter ==> post != [] && post[0] != '\n'
    ensures LazyEnd(pre + x + tail + post, |pre|, tail, anyAfter) == Some(|pre| + |x|)
  {
    var s := pre + x + tail + post;
    WindowOfFour(pre, x, tail, post);
    RunLacksTail(s, |pre|, x, tail);
    LazySkip(s, |pre|, |pre| + |x|, tail, anyAfter);
    ThirdOfFour(pre, x, tail, post);
    assert anyAfter ==> s[|pre + x| + |tail|] == post[0];
  }

  /** The middle two of four concatenated pieces, index by index. */
  lemma WindowOfFour<T>(a: seq<T>, b: seq<T>, c: seq<T>, d: seq<T>)
    ensures |a| + |b + c| <= |a + b + c + d|
    ensures forall i :: 0 <= i < |b + c| ==> (a + b + c + d)[|a| + i] == (b + c)[i]
  {
  }

  /** An occurrence inside a window `t` of `s` is an occurrence in `t`. */
  lemma OccursInWindow(s: string, q: nat, t: string, pat: string, j: nat)
    requires q + |t| <= |s| && (forall i :: 0 <= i < |t| ==> s[q + i] == t[i])
    requires j + |pat| <= |t|
    ensures OccursAt(s, pat, q + j) == OccursAt(t, pat, j)
  {
    assert s[q + j..q + j + |pat|] == t[j..j + |pat|];
  }

  /** No occurrence of `tail` and no line end starts inside such a run. */
  lemma RunLacksTail(s: string, q: nat, x: string, tail: string)
    requires q + |x + tail| <= |s| && (forall i :: 0 <= i < |x + tail| ==> s[q + i] == (x + tail)[i])
    requires NoEarlyTail(x, tail) && '\n' !in x
    ensures forall j :: q <= j < q + |x| ==> !OccursAt(s, tail, j) && s[j] != '\n'
  {
    forall j | q <= j < q + |x| ensures !OccursAt(s, tail, j) && s[j] != '\n' {
      OccursInWindow(s, q, x + tail, tail, j - q);
      assert s[q + (j - q)] == (x + tail)[j - q] == x[j - q];
    }
  }

  /** `open`, then a run `x` as in `LazyAfterRun`, then `tail`: the opening occurs after
      the lead and the lazy group after it captures exactly `x`. */
  lemma LazyGroupAfter(lead: string, open: string, x: string, tail: string, post: string, anyAfter: bool)
    requires NoEarlyTail(x, tail) && '\n' !in x
    requires anyAfter ==> post != [] && post[0] != '\n'
    ensures var s := lead + open + x + tail + post;
      var q := |lead + open|;
      && OccursAt(s, open, |lead|)
      && LazyEnd(s, q, tail, anyAfter) == Some(q + |x|)
      && s[q..q + |x|] == x
  {
    SecondOfFive(lead, open, x, tail, post);
    LazyAfterRun(lead + open, x, tail, post, anyAfter);
    SecondOfFour(lead + open, x, tail, post);
  }

  /** `Consider using X instead of Y` yields X and Y, when nothing before it starts with C,
      X is one line in which no " instead of " starts, and Y runs to the end of the line. */
  lemma UsingInsteadFound(lead: string, x: string, y: string)
    requires 'C' !in lead && NoEarlyTail(x, InsteadOf) && '\n' !in x && '\n' !in y
    ensures SearchUsingInstead(lead + UsingOpen + x + InsteadOf + y) == Some((x, y))
  {
    var s := lead + UsingOpen + x + InsteadOf + y;
    assert s[..|lead|] == lead;
    UsingPastLead(s, lead);
    UsingMatch(lead, x, y);
  }

  /** The grammar search passes over a lead without a C. */
  lemma UsingPastLead(s: string, lead: string)
    requires |lead| <= |s| && s[..|lead|] == lead && 'C' !in lead
    ensures UsingInsteadFrom(s, 0) == UsingInsteadFrom(s, |lead|)
  {
    NoStartBefore(s, lead, UsingOpen);
    UsingSkip(s, 0, |lead|);
  }

  /** The grammar pattern matches right after the lead. */
  lemma UsingMatch(lead: string, x: string, y: string)
    requires NoEarlyTail(x, InsteadOf) && '\n' !in x && '\n' !in y
    ensures UsingInsteadFrom(lead + UsingOpen + x + InsteadOf + y, |lead|) == Some((x, y))
  {
    var pre := lead + UsingOpen + x + InsteadOf;
    var s, q := pre + y, |lead + UsingOpen|;
    assert OccursAt(s, UsingOpen, |lead|) && LazyEnd(s, q, InsteadOf, false) == Some(q + |x|)
        && s[q..q + |x|] == x by {
      LazyGroupAfter(lead, UsingOpen, x, InsteadOf, y, false);
    }
    assert LineEnd(s, |pre|) == |s| && s[|pre|..|s|] == y by {
      LineEndOfSuffix(pre, y);
      SecondOfTwo(pre, y);
    }
    UsingPairAt(s, |lead|, q, |pre|, x, y);
  }

  /** The grammar match at `p`, given its groups' positions `q` and `f`. */
  lemma UsingPairAt(s: string, p: nat, q: nat, f: nat, x: string, y: string)
    requires q == p + |UsingOpen| && f == q + |x| + |InsteadOf| && f <= |s|
    requires OccursAt(s, UsingOpen, p) && LazyEnd(s, q, InsteadOf, false) == Some(q + |x|)
    requires s[q..q + |x|] == x && LineEnd(s, f) == |s| && s[f..|s|] == y
    ensures UsingInsteadFrom(s, p) == Some((x, y))
  {
  }

  /** A line end-free suffix runs to the end of the string. */
  lemma LineEndOfSuffix(pre: string, y: string)
    requires '\n' !in y
    ensures LineEnd(pre + y, |pre|) == |pre + y|
  {
    var s := pre + y;
    assert forall j :: |pre| <= j < |s| ==> s[j] == y[j - |pre|];
  }

  /** `Spelling issue: 'W' is misspelled` followed by one more character on the line
      yields W, when nothing before it starts with S and W is one line in which no
      "' is misspelled" starts. */
  lemma MisspelledFound(lead: string, w: string, rest: string)
    requires 'S' !in lead && NoEarlyTail(w, IsMisspelled) && '\n' !in w && rest != [] && rest[0] != '\n'
    ensures SearchMisspelled(lead + SpellingOpen + w + IsMisspelled + rest) == Some(w)
  {
    var s := lead + SpellingOpen + w + IsMisspelled + rest;
    assert s[..|lead|] == lead;
    NoStartBefore(s, lead, SpellingOpen);
    MisspelledSkip(s, 0, |lead|);
    MisspelledMatch(lead, w, rest);
  }

  /** The spelling pattern matches right after the lead. */
  lemma MisspelledMatch(lead: string, w: string, rest: string)
    requires NoEarlyTail(w, IsMisspelled) && '\n' !in w && rest != [] && rest[0] != '\n'
    ensures MisspelledFrom(lead + SpellingOpen + w + IsMisspelled + rest, |lead|) == Some(w)
  {
    LazyGroupAfter(lead, SpellingOpen, w, IsMisspelled, rest, true);
    MisspelledWordAt(lead + SpellingOpen + w + IsMisspelled + rest, |lead|, |lead + SpellingOpen|, w);
  }

  /** The spelling match at `p`, given its group's position `q`. */
  lemma MisspelledWordAt(s: string, p: nat, q: nat, w: string)
    requires q == p + |SpellingOpen| && q + |w| <= |s| && OccursAt(s, SpellingOpen, p)
    requires LazyEnd(s, q, IsMisspelled, true) == Some(q + |w|) && s[q..q + |w|] == w
    ensures MisspelledFrom(s, p) == Some(w)
  {
  }

  lemma {:induction false} MisspelledSkip(s: string, p: nat, q: nat)
    requires p <= q <= |s|
    requires forall j :: p <= j < q ==> !OccursAt(s, SpellingOpen, j)
    ensures MisspelledFrom(s, p) == MisspelledFrom(s, q)
    decreases q - p
  {
    if p < q {
      MisspelledSkip(s, p + 1, q);
    }
  }

  lemma Regroup5(a: string, b: string, c: string, d: string, e: string, b0: char, b1: string)
    requires b == [b0] + b1
    ensures a + b + c + d + e == a + [b0] + (b1 + c + d + e)
  {
  }

  /** The grammar branch, once the first marker is absent. */
  lemma GrammarBranch(s: string, spell: string -> string)
    requires !Contains(s, Replacing) && Contains(s, GrammarMarker)
    ensures Translate(s, spell) ==
      match SearchUsingInstead(s)
      case Some(groups) => Some(Edit(groups.1, groups.0))
      case None => None
  {
  }

  /** The spelling branch, once the first two markers are absent. */
  lemma SpellingBranch(s: string, spell: string -> string)
    requires !Contains(s, Replacing) && !Contains(s, GrammarMarker) && Contains(s, SpellingMarker)
    ensures Translate(s, spell) ==
      match SearchMisspelled(s)
      case Some(word) => Some(Edit(word, spell(word)))
      case None => None
  {
  }

  const GrammarLead := GrammarMarker + " "

  /** The only capital C of a grammar diagnostic is the one of "Consider using". */
  lemma GrammarNoReplacing(x: string, y: string)
    requires 'C' !in x && 'C' !in y
    ensures !Contains(GrammarLead + UsingOpen + x + InsteadOf + y, Replacing)
  {
    var tail := "onsider using ";
    CapitalFirst(UsingOpen, tail);
    Regroup5(GrammarLead, UsingOpen, x, InsteadOf, y, 'C', tail);
    var rest := tail + x + InsteadOf + y;
    var s := GrammarLead + ['C'] + rest;
    assert 'C' !in GrammarLead && 'C' !in tail && 'C' !in InsteadOf;
    assert s[|GrammarLead| + 9] == 'u' by {
      assert s[|GrammarLead| + 9] == rest[8] == tail[8];
    }
    CharOfOccurrence(s, Replacing, |GrammarLead|, 9);
    LoneFirstChar(GrammarLead, 'C', rest, Replacing);
  }

  /** A diagnostic `Grammar issue: Consider using X instead of Y` rewrites Y to X (for a
      one-line X in which no " instead of " starts and Y without a line end; neither
      with a capital C, so that the message cannot also read as "Consider replacing"). */
  lemma GrammarIssueEdit(x: string, y: string, spell: string -> string)
    requires NoEarlyTail(x, InsteadOf) && '\n' !in x && '\n' !in y && 'C' !in x && 'C' !in y
    ensures Translate(GrammarLead + UsingOpen + x + InsteadOf + y, spell) == Some(Edit(y, x))
  {
    var s := GrammarLead + UsingOpen + x + InsteadOf + y;
    GrammarNoReplacing(x, y);
    assert s[..|GrammarMarker|] == GrammarMarker;
    assert OccursAt(s, GrammarMarker, 0);
    assert 'C' !in GrammarLead;
    UsingInsteadFound(GrammarLead, x, y);
    GrammarBranch(s, spell);
  }

  /** Neither a capital C nor a capital G appears around a spelling diagnostic's word. */
  lemma SpellingUnmarkedParts(w: string)
    requires 'C' !in w && 'G' !in w
    ensures var s := SpellingOpen + w + IsMisspelled + ".";
      'C' !in s && 'G' !in s
  {
    assert 'C' !in SpellingOpen && 'G' !in SpellingOpen;
    assert 'C' !in IsMisspelled && 'G' !in IsMisspelled;
  }

  /** A diagnostic `Spelling issue: 'W' is misspelled.` rewrites W to its spelling
      correction (for a one-line W in which no "' is misspelled" starts, and without
      capital C or capital G). */
  lemma SpellingIssueEdit(w: string, spell: string -> string)
    requires NoEarlyTail(w, IsMisspelled) && '\n' !in w && 'C' !in w && 'G' !in w
    ensures Translate(SpellingOpen + w + IsMisspelled + ".", spell) == Some(Edit(w, spell(w)))
  {
    var s := SpellingOpen + w + IsMisspelled + ".";
    SpellingUnmarkedParts(w);
    MissingChar(s, Replacing, 0);
    MissingChar(s, GrammarMarker, 0);
    assert s[..|SpellingMarker|] == SpellingMarker;
    assert OccursAt(s, SpellingMarker, 0);
    assert s == "" + SpellingOpen + w + IsMisspelled + ".";
    MisspelledFound("", w, ".");
    SpellingBranch(s, spell);
  }
}

