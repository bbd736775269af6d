/** Concrete instances of the general lemmas: a configured redundancy and a
    grammar-table entry. */
module Scenarios {
  import opened PyStr
  import opened Regex
  import opened Templates
  import opened Rewriter
  import opened TemplateParsing

  /** With `{"in order to": "to"}` the redundancy message parses back to that pair and
      rewrites the phrase standing alone to "to". */
  lemma InOrderTo(spell: string -> string)
    ensures Translate(ReplacementMessage("in order to", "to"), spell) == Some(Edit("in order to", "to"))
    ensures Admissible(ReplacementMessage("in order to", "to"), spell)
    ensures ApplyOne("in order to", ReplacementMessage("in order to", "to"), spell) == "to"
  {
    var p, r := "in order to", "to";
    assert Quotable(p) && Quotable(r) && '\\' !in r;
    ReplacementRoundTrip(p, r, spell);
    ReplacementApplies(p, p, r, spell);
    SubWhole(p, r);
  }

  /** With `{"alot": "a lot"}` the grammar-table message, which has no final period,
      rewrites "alot" to "a lot'" with the closing apostrophe kept. */
  lemma AlotKeepsQuote(spell: string -> string)
    ensures Admissible(SyntaxMessage("alot", "a lot"), spell)
    ensures ApplyOne("alot", SyntaxMessage("alot", "a lot"), spell) == "a lot'"
  {
    var m, r := "alot", "a lot";
    assert Quotable(m) && Quotable(r) && '\\' !in r;
    SyntaxApplies(m, m, r, spell);
    SubWhole(m, r + "'");
  }

  /** The same pair written with the redundancy template, which does end in `'.`,
      rewrites "alot" to "a lot" with nothing left over. */
  lemma AlotWithPeriod(spell: string -> string)
    ensures Admissible(ReplacementMessage("alot", "a lot"), spell)
    ensures ApplyOne("alot", ReplacementMessage("alot", "a lot"), spell) == "a lot"
  {
    var m, r := "alot", "a lot";
    assert Quotable(m) && Quotable(r) && '\\' !in r;
    ReplacementApplies(m, m, r, spell);
    SubWhole(m, r);
  }

  /** A grammar-table message reported twice rewrites no more than once: the
      replacement "a lot'" holds no whole-word "alot" for the second copy to find. */
  lemma AlotTwice(t: string, spell: string -> string)
    ensures AllAdmissible([SyntaxMessage("alot", "a lot"), SyntaxMessage("alot", "a lot")], spell)
    ensures AllAdmissible([SyntaxMessage("alot", "a lot")], spell)
    ensures ApplyAll(t, [SyntaxMessage("alot", "a lot"), SyntaxMessage("alot", "a lot")], spell)
         == ApplyAll(t, [SyntaxMessage("alot", "a lot")], spell)
  {
    var m, r := "alot", "a lot";
    var msg := SyntaxMessage(m, r);
    assert Quotable(m) && Quotable(r) && '\\' !in r;
    SyntaxApplies(t, m, r, spell);
    SyntaxApplies(Sub(t, m, r + "'"), m, r, spell);
    ApplyTwo(t, msg, msg, spell);
    ApplyAllOne(t, msg, spell);
    AlotWordOnly();
    AlotNotInReplacement();
    SubTwice(t, m, r + "'");
  }

  lemma AlotWordOnly()
    ensures WordOnly("alot")
  {
  }

  lemma AlotNotInReplacement()
    ensures !Contains("a lot" + "'", "alot")
  {
    var s := "a lot" + "'";
    forall i | 0 <= i <= |s| - 4
      ensures !OccursAt(s, "alot", i)
    {
      assert s[i..i + 4][0] == s[i] && s[i..i + 4][1] == s[i + 1];
    }
  }
}
