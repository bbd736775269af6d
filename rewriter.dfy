/** `apply_suggestions` (documents/nlp_utils.py:165-189): every suggestion is matched
    against three message templates; a match becomes an edit (a phrase and its
    replacement) that is applied, whole words only, to the text produced so far. */
module Rewriter {
  import opened PyStr
  import opened Regex
  import opened Templates

  /** A whole-word replacement of `target` by `replacement`. */
  datatype Edit = Edit(target: string, replacement: string)

  /** The edit a suggestion stands for, or None when it is advisory or malformed.
      `spell` is the spelling corrector applied to a reported misspelled word. */
  function Translate(s: string, spell: string -> string): (e: Option<Edit>)
    ensures e.Some? ==> Contains(s, Replacing) || Contains(s, GrammarMarker) || Contains(s, SpellingMarker)
  {
    if Contains(s, Replacing) then
      var parts := Split(s, ReplacingOpen);
      if |parts| > 1 then
        var halves := Split(parts[1], WithSep);
        // unpacking into two names raises ValueError otherwise, which is caught
        if |halves| == 2 then Some(Edit(halves[0], ReplaceAll(halves[1], QuoteDot, "")))
        else None
      else None
    else if Contains(s, GrammarMarker) then
      match SearchUsingInstead(s)
      case Some(groups) => Some(Edit(groups.1, groups.0))
      case None => None
    else if Contains(s, SpellingMarker) then
      match SearchMisspelled(s)
      case Some(word) => Some(Edit(word, spell(word)))
      case None => None
    else None
  }

  /** The suggestion's edit, if any, is one `re.sub` handles literally: a non-empty
      phrase and a replacement without backslash escapes. */
  predicate Admissible(s: string, spell: string -> string)
  {
    match Translate(s, spell)
    case None => true
    case Some(e) => e.target != [] && '\\' !in e.replacement
  }

  predicate AllAdmissible(suggestions: seq<string>, spell: string -> string)
  {
    forall k | 0 <= k < |suggestions| :: Admissible(suggestions[k], spell)
  }

  /** One iteration of the loop: the text after one suggestion. */
  function ApplyOne(text: string, s: string, spell: string -> string): string
    requires Admissible(s, spell)
  {
    match Translate(s, spell)
    case None => text
    case Some(e) => Sub(text, e.target, e.replacement)
  }

  /** The suggestions applied in list order, each to the previous one's output. */
  function ApplyAll(text: string, suggestions: seq<string>, spell: string -> string): string
    requires AllAdmissible(suggestions, spell)
    decreases |suggestions|
  {
    if suggestions == [] then text
    else ApplyAll(ApplyOne(text, suggestions[0], spell), suggestions[1..], spell)
  }

  method ApplySuggestions(text0: string, suggestions: seq<string>, spell: string -> string)
    returns (text: string)
    requires AllAdmissible(suggestions, spell)
    ensures text == ApplyAll(text0, suggestions, spell)
  {
    text := text0;
    for i := 0 to |suggestions|
      invariant ApplyAll(text, suggestions[i..], spell) == ApplyAll(text0, suggestions, spell)
    {
      match Translate(suggestions[i], spell) {
        case Some(e) =>
          text := Sub(text, e.target, e.replacement);
        case None =>
      }
    }
  }

  /** Applying a list in two parts: the second part starts from the first part's output. */
  lemma {:induction false} ApplyAllAppend(text: string, xs: seq<string>, ys: seq<string>, spell: string -> string)
    requires AllAdmissible(xs + ys, spell)
    ensures AllAdmissible(xs, spell) && AllAdmissible(ys, spell)
    ensures ApplyAll(text, xs + ys, spell) == ApplyAll(ApplyAll(text, xs, spell), ys, spell)
    decreases |xs|
  {
    assert forall k :: 0 <= k < |xs| ==> (xs + ys)[k] == xs[k];
    assert forall k :: 0 <= k < |ys| ==> (xs + ys)[|xs| + k] == ys[k];
    if xs != [] {
      assert (xs + ys)[1..] == xs[1..] + ys;
      ApplyAllAppend(ApplyOne(text, xs[0], spell), xs[1..], ys, spell);
    } else {
      assert xs + ys == ys;
    }
  }

  lemma AllAdmissibleInsert(xs: seq<string>, s: string, ys: seq<string>, spell: string -> string)
    requires Admissible(s, spell) && AllAdmissible(xs + ys, spell)
    ensures AllAdmissible(xs + [s] + ys, spell)
  {
    var all := xs + [s] + ys;
    forall k | 0 <= k < |all| ensures Admissible(all[k], spell) {
      if k < |xs| {
        assert all[k] == (xs + ys)[k];
      } else if k > |xs| {
        assert all[k] == (xs + ys)[k - 1];
      }
    }
  }

  /** A suggestion without an edit changes nothing, and the ones after it are still applied. */
  lemma SkipUnapplied(text: string, xs: seq<string>, s: string, ys: seq<string>, spell: string -> string)
    requires Translate(s, spell).None?
    requires AllAdmissible(xs + ys, spell)
    ensures AllAdmissible(xs + [s] + ys, spell)
    ensures ApplyAll(text, xs + [s] + ys, spell) == ApplyAll(text, xs + ys, spell)
  {
    AllAdmissibleInsert(xs, s, ys, spell);
    Assoc(xs, [s], ys);
    ApplyAllAppend(text, xs, [s] + ys, spell);
    ApplyAllAppend(text, xs, ys, spell);
    SkipFirst(ApplyAll(text, xs, spell), s, ys, spell);
  }

  /** A first suggestion without an edit is passed over. */
  lemma SkipFirst(text: string, s: string, ys: seq<string>, spell: string -> string)
    requires Translate(s, spell).None? && AllAdmissible([s] + ys, spell)
    ensures AllAdmissible(ys, spell)
    ensures ApplyAll(text, [s] + ys, spell) == ApplyAll(text, ys, spell)
  {
    ConsParts(s, ys);
    assert forall k | 0 <= k < |ys| :: ys[k] == ([s] + ys)[k + 1];
  }

  /** A one-suggestion list is that suggestion's single step. */
  lemma ApplyAllOne(text: string, s: string, spell: string -> string)
    requires Admissible(s, spell)
    ensures AllAdmissible([s], spell)
    ensures ApplyAll(text, [s], spell) == ApplyOne(text, s, spell)
  {
    assert [s][1..] == [];
  }

  /** Two suggestions: the second works on the first one's output. */
  lemma ApplyTwo(text: string, s1: string, s2: string, spell: string -> string)
    requires Admissible(s1, spell) && Admissible(s2, spell)
    ensures AllAdmissible([s1, s2], spell)
    ensures ApplyAll(text, [s1, s2], spell) == ApplyOne(ApplyOne(text, s1, spell), s2, spell)
  {
    calc {
      ApplyAll(text, [s1, s2], spell);
      == { assert [s1, s2][1..] == [s2]; }
      ApplyAll(ApplyOne(text, s1, spell), [s2], spell);
      == { assert [s2][1..] == []; }
      ApplyAll(ApplyOne(ApplyOne(text, s1, spell), s2, spell), [], spell);
    }
  }

  /** One more suggestion at the end works on the output of the ones before it. */
  lemma ApplyAllSnoc(text: string, xs: seq<string>, s: string, spell: string -> string)
    requires AllAdmissible(xs, spell) && Admissible(s, spell)
    ensures AllAdmissible(xs + [s], spell)
    ensures ApplyAll(text, xs + [s], spell) == ApplyOne(ApplyAll(text, xs, spell), s, spell)
  {
    assert xs + [s] + [] == xs + [s];
    assert xs + [] == xs;
    AllAdmissibleInsert(xs, s, [], spell);
    ApplyAllAppend(text, xs, [s], spell);
    assert [s][1..] == [];
  }

  /** A run of suggestions without edits can be dropped from anywhere in the list. */
  lemma {:induction false} SkipUnappliedRun(text: string, xs: seq<string>, ys: seq<string>, zs: seq<string>, spell: string -> string)
    requires forall k | 0 <= k < |ys| :: Translate(ys[k], spell).None?
    requires AllAdmissible(xs + zs, spell)
    ensures AllAdmissible(xs + ys + zs, spell)
    ensures ApplyAll(text, xs + ys + zs, spell) == ApplyAll(text, xs + zs, spell)
    decreases |ys|
  {
    if ys == [] {
      assert xs + ys == xs;
    } else {
      var init, last := ys[..|ys| - 1], ys[|ys| - 1];
      assert forall k | 0 <= k < |init| :: init[k] == ys[k];
      SkipUnappliedRun(text, xs, init, zs, spell);
      SnocSplit(xs, ys, zs);
      SkipUnapplied(text, xs + init, last, zs, spell);
    }
  }

  lemma UnappliedAppend(xs: seq<string>, ys: seq<string>, spell: string -> string)
    requires forall k | 0 <= k < |xs| :: Translate(xs[k], spell).None?
    requires forall k | 0 <= k < |ys| :: Translate(ys[k], spell).None?
    ensures forall k | 0 <= k < |xs + ys| :: Translate((xs + ys)[k], spell).None?
  {
    assert forall k | 0 <= k < |xs| :: (xs + ys)[k] == xs[k];
    assert forall k | |xs| <= k < |xs + ys| :: (xs + ys)[k] == ys[k - |xs|];
  }
}

