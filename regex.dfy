/** The three uses of Python's `re` module in the rewriter:
    `re.sub(r'\b' + re.escape(w) + r'\b', rep, s)` and two `re.search` calls with
    a lazy group. Word characters are the ASCII ones, `[A-Za-z0-9_]`. */
module Regex {
  import opened PyStr

  predicate IsWordChar(c: char)
  {
    'a' <= c <= 'z' || 'A' <= c <= 'Z' || '0' <= c <= '9' || c == '_'
  }

  /** `s[k]` is a word character; positions outside `s` count as non-word. */
  predicate WordAt(s: string, k: int)
  {
    0 <= k < |s| && IsWordChar(s[k])
  }

  /** `\b` holds at position `k` of `s`. */
  predicate Boundary(s: string, k: int)
  {
    WordAt(s, k - 1) != WordAt(s, k)
  }

  /** The pattern `\b` + re.escape(w) + `\b` matches `s` at `i`. */
  predicate WholeAt(s: string, w: string, i: int)
  {
    OccursAt(s, w, i) && Boundary(s, i) && Boundary(s, i + |w|)
  }

  /** The output `re.sub` produces for `s[i..]`: the scan tries the pattern at `i`,
      copies one character on failure, and resumes after a match otherwise, so the
      inserted text is never scanned again. Boundaries are judged on the original `s`. */
  function SubFrom(s: string, w: string, rep: string, i: nat): string
    requires w != [] && i <= |s|
    decreases |s| - i
  {
    if i == |s| then []
    else if WholeAt(s, w, i) then rep + SubFrom(s, w, rep, i + |w|)
    else [s[i]] + SubFrom(s, w, rep, i + 1)
  }

  /** `re.sub(r'\b' + re.escape(w) + r'\b', rep, s)` for a non-empty `w` and a
      replacement without backslashes. */
  function Sub(s: string, w: string, rep: string): string
    requires w != []
  {
    SubFrom(s, w, rep, 0)
  }

  /** Without a whole-word occurrence of `w`, the scan copies `s[i..]` unchanged. */
  lemma {:induction false} SubFromUnchanged(s: string, w: string, rep: string, i: nat)
    requires w != [] && i <= |s|
    requires forall j :: i <= j < |s| ==> !WholeAt(s, w, j)
    ensures SubFrom(s, w, rep, i) == s[i..]
    decreases |s| - i
  {
    if i < |s| {
      SubFromUnchanged(s, w, rep, i + 1);
      assert [s[i]] + s[i + 1..] == s[i..];
    }
  }

  /** An edit whose phrase has no whole-word occurrence leaves the text as it is. */
  lemma SubUnchanged(s: string, w: string, rep: string)
    requires w != []
    requires forall j :: 0 <= j < |s| ==> !WholeAt(s, w, j)
    ensures Sub(s, w, rep) == s
  {
    SubFromUnchanged(s, w, rep, 0);
  }

  /** A text that does not contain the phrase at all comes back as it is. */
  lemma SubAbsent(s: string, w: string, rep: string)
    requires w != [] && !Contains(s, w)
    ensures Sub(s, w, rep) == s
  {
    assert forall j :: 0 <= j < |s| ==> !WholeAt(s, w, j);
    SubUnchanged(s, w, rep);
  }

  /** Replacing a phrase by itself is a no-op. */
  lemma {:induction false} SubFromSame(s: string, w: string, i: nat)
    requires w != [] && i <= |s|
    ensures SubFrom(s, w, w, i) == s[i..]
    decreases |s| - i
  {
    if i < |s| {
      if WholeAt(s, w, i) {
        SubFromSame(s, w, i + |w|);
        assert s[i..i + |w|] + s[i + |w|..] == s[i..];
      } else {
        SubFromSame(s, w, i + 1);
        assert [s[i]] + s[i + 1..] == s[i..];
      }
    }
  }

  lemma SubSame(s: string, w: string)
    requires w != []
    ensures Sub(s, w, w) == s
  {
    SubFromSame(s, w, 0);
  }

  /** A string made only of word characters has a whole-word occurrence of `w`
      only if it is `w` itself: a phrase never rewrites a longer word it is part of. */
  lemma OnlyWholeWord(s: string, w: string, j: int)
    requires forall k :: 0 <= k < |s| ==> IsWordChar(s[k])
    requires w != [] && WholeAt(s, w, j)
    ensures s == w
  {
    assert WordAt(s, j);
    assert !WordAt(s, j - 1);
    assert WordAt(s, j + |w| - 1);
    assert !WordAt(s, j + |w|);
    assert j == 0 && |w| == |s|;
    assert s == s[0..|w|];
  }

  lemma SubInsideWord(s: string, w: string, rep: string)
    requires forall k :: 0 <= k < |s| ==> IsWordChar(s[k])
    requires w != [] && s != w
    ensures Sub(s, w, rep) == s
  {
    forall j | 0 <= j < |s| ensures !WholeAt(s, w, j) {
      if WholeAt(s, w, j) {
        OnlyWholeWord(s, w, j);
      }
    }
    SubUnchanged(s, w, rep);
  }

  /** A phrase that begins and ends with word characters, standing alone, is replaced. */
  lemma SubWhole(w: string, rep: string)
    requires w != [] && IsWordChar(w[0]) && IsWordChar(w[|w| - 1])
    ensures Sub(w, w, rep) == rep
  {
    assert WholeAt(w, w, 0);
    assert SubFrom(w, w, rep, |w|) == [];
    assert rep + [] == rep;
  }

  /** "cool" inside "coolant" is left alone. */
  lemma CoolantUntouched(rep: string)
    ensures Sub("coolant", "cool", rep) == "coolant"
  {
    SubInsideWord("coolant", "cool", rep);
  }

  /** A non-empty run of ASCII word characters, such as a configured word. */
  predicate WordOnly(s: string)
  {
    s != [] && forall k :: 0 <= k < |s| ==> IsWordChar(s[k])
  }

  /** Below a separator `s[|x|]` that is not a word character and not part of `w`, the
      pattern matches `s` exactly where it matches the prefix `x`. */
  lemma WholeAtPrefix(s: string, x: string, w: string, i: nat)
    requires w != [] && i < |x| < |s| && (forall j :: 0 <= j < |x| ==> s[j] == x[j])
    requires s[|x|] !in w && !IsWordChar(s[|x|])
    ensures s[i] == x[i] && WholeAt(s, w, i) == WholeAt(x, w, i)
  {
    if OccursAt(s, w, i) {
      OccurrenceCovers(s, w, i, |x|);
      assert s[i..i + |w|] == x[i..i + |w|];
    }
    if OccursAt(x, w, i) {
      assert s[i..i + |w|] == x[i..i + |w|];
    }
  }

  /** The scan of `s` up to such a separator is the scan of the prefix `x`. */
  lemma {:induction false} SubFromPrefix(s: string, x: string, w: string, rep: string, i: nat)
    requires w != [] && i <= |x| < |s| && (forall j :: 0 <= j < |x| ==> s[j] == x[j])
    requires s[|x|] !in w && !IsWordChar(s[|x|])
    ensures SubFrom(s, w, rep, i) == SubFrom(x, w, rep, i) + SubFrom(s, w, rep, |x|)
    decreases |x| - i
  {
    if i < |x| {
      WholeAtPrefix(s, x, w, i);
      var d, out := ScanStep(s, x, w, rep, i, i);
      SubFromPrefix(s, x, w, rep, i + d);
      Assoc(out, SubFrom(x, w, rep, i + d), SubFrom(s, w, rep, |x|));
    }
  }

  /** After a position preceded by a non-word character, the pattern matches `s`
      exactly where it matches the suffix `y` from there. */
  lemma WholeAtSuffix(s: string, y: string, p: nat, w: string, i: nat, k: nat)
    requires |s| == p + |y| && (forall j :: 0 <= j < |y| ==> s[p + j] == y[j])
    requires p == 0 || !IsWordChar(s[p - 1])
    requires i == p + k && k < |y|
    ensures s[i] == y[k] && WholeAt(s, w, i) == WholeAt(y, w, k)
  {
    assert WordAt(s, p + k - 1) == WordAt(y, k - 1);
    assert WordAt(s, p + k + |w| - 1) == WordAt(y, k + |w| - 1);
    assert WordAt(s, p + k + |w|) == WordAt(y, k + |w|);
    if k + |w| <= |y| {
      assert s[p + k..p + k + |w|] == y[k..k + |w|];
    }
  }

  /** The scan of `s` from such a position is the scan of the suffix. */
  lemma {:induction false} SubFromSuffix(s: string, y: string, p: nat, w: string, rep: string, k: nat)
    requires w != [] && |s| == p + |y| && (forall j :: 0 <= j < |y| ==> s[p + j] == y[j])
    requires p == 0 || !IsWordChar(s[p - 1])
    requires k <= |y|
    ensures SubFrom(s, w, rep, p + k) == SubFrom(y, w, rep, k)
    decreases |y| - k
  {
    if k < |y| {
      var d, out := SuffixStep(s, y, p, w, rep, k);
      SubFromSuffix(s, y, p, w, rep, k + d);
    }
  }

  /** One step of both scans, inside the suffix. */
  lemma SuffixStep(s: string, y: string, p: nat, w: string, rep: string, k: nat) returns (d: nat, out: string)
    requires w != [] && |s| == p + |y| && (forall j :: 0 <= j < |y| ==> s[p + j] == y[j])
    requires p == 0 || !IsWordChar(s[p - 1])
    requires k < |y|
    ensures 1 <= d && k + d <= |y|
    ensures SubFrom(s, w, rep, p + k) == out + SubFrom(s, w, rep, p + (k + d))
    ensures SubFrom(y, w, rep, k) == out + SubFrom(y, w, rep, k + d)
  {
    var i := p + k;
    WholeAtSuffix(s, y, p, w, i, k);
    d, out := ScanStep(s, y, w, rep, i, k);
    assert i + d == p + (k + d);
  }

  /** One step of two scans that agree on the character and on the match: the same
      output, and both resume the same distance further on. */
  lemma ScanStep(s: string, t: string, w: string, rep: string, i: nat, k: nat) returns (d: nat, out: string)
    requires w != [] && i < |s| && k < |t| && |t| - k <= |s| - i
    requires s[i] == t[k] && WholeAt(s, w, i) == WholeAt(t, w, k)
    ensures 1 <= d && k + d <= |t|
    ensures SubFrom(s, w, rep, i) == out + SubFrom(s, w, rep, i + d)
    ensures SubFrom(t, w, rep, k) == out + SubFrom(t, w, rep, k + d)
  {
    if WholeAt(t, w, k) {
      d, out := |w|, rep;
    } else {
      d, out := 1, [t[k]];
    }
  }

  /** No occurrence of `w` starts at a character that `w` lacks. */
  lemma NotAtChar(s: string, w: string, i: nat)
    requires w != [] && i < |s| && s[i] !in w
    ensures !OccursAt(s, w, i)
  {
    assert w[0] in w;
    if i + |w| <= |s| {
      assert s[i..i + |w|][0] == s[i] != w[0];
    }
  }

  /** Rewriting is local: a non-word character that is not part of the phrase splits
      the text into two parts rewritten independently. */
  lemma SubAround(x: string, c: char, y: string, w: string, rep: string)
    requires w != [] && c !in w && !IsWordChar(c)
    ensures Sub(x + [c] + y, w, rep) == Sub(x, w, rep) + [c] + Sub(y, w, rep)
  {
    var s := x + [c] + y;
    AroundPoints(x, c, y);
    assert SubFrom(s, w, rep, 0) == Sub(x, w, rep) + SubFrom(s, w, rep, |x|) by {
      SubFromPrefix(s, x, w, rep, 0);
    }
    assert SubFrom(s, w, rep, |x|) == [c] + SubFrom(s, w, rep, |x| + 1) by {
      NotAtChar(s, w, |x|);
      SubFromSeparator(s, w, rep, |x|);
    }
    assert SubFrom(s, w, rep, |x| + 1) == Sub(y, w, rep) by {
      SubFromRest(s, y, |x| + 1, w, rep);
    }
    Assoc(Sub(x, w, rep), [c], Sub(y, w, rep));
  }

  /** The characters of `x + [c] + y`, piece by piece. */
  lemma AroundPoints<T>(x: seq<T>, c: T, y: seq<T>)
    ensures var s := x + [c] + y;
      && |s| == |x| + 1 + |y| && s[|x|] == c
      && (forall j :: 0 <= j < |x| ==> s[j] == x[j])
      && (forall j :: 0 <= j < |y| ==> s[|x| + 1 + j] == y[j])
  {
  }

  /** The scan copies a character where no occurrence of the phrase starts. */
  lemma SubFromSeparator(s: string, w: string, rep: string, i: nat)
    requires w != [] && i < |s| && !OccursAt(s, w, i)
    ensures SubFrom(s, w, rep, i) == [s[i]] + SubFrom(s, w, rep, i + 1)
  {
  }

  /** The scan from a position after a non-word character is the rewrite of the rest. */
  lemma SubFromRest(s: string, y: string, p: nat, w: string, rep: string)
    requires w != [] && |s| == p + |y| && (forall j :: 0 <= j < |y| ==> s[p + j] == y[j])
    requires p == 0 || !IsWordChar(s[p - 1])
    ensures SubFrom(s, w, rep, p) == Sub(y, w, rep)
  {
    SubFromSuffix(s, y, p, w, rep, 0);
    assert p + 0 == p;
  }

  /** With a word phrase whose replacement does not contain it, a second rewrite
      changes nothing: the first one leaves no whole-word occurrence behind. */
  lemma {:induction false} SubTwice(s: string, w: string, rep: string)
    requires WordOnly(w) && !Contains(rep, w)
    ensures Sub(Sub(s, w, rep), w, rep) == Sub(s, w, rep)
    decreases |s|
  {
    if exists k :: 0 <= k < |s| && !IsWordChar(s[k]) {
      var k :| 0 <= k < |s| && !IsWordChar(s[k]);
      var x, c, y := s[..k], s[k], s[k + 1..];
      assert s == x + [c] + y;
      assert c !in w;
      SubAround(x, c, y, w, rep);
      SubAround(Sub(x, w, rep), c, Sub(y, w, rep), w, rep);
      SubTwice(x, w, rep);
      SubTwice(y, w, rep);
    } else if s == w {
      SubWhole(w, rep);
      SubAbsent(rep, w, rep);
    } else {
      SubInsideWord(s, w, rep);
    }
  }

  /** Three words with non-word separators: only the one equal to the phrase is replaced. */
  lemma SubThirdWord(a: string, b: string, w: string, rep: string, c: char)
    requires WordOnly(a) && WordOnly(b) && WordOnly(w) && a != w && b != w && !IsWordChar(c)
    ensures Sub(a + [c] + b + [c] + w, w, rep) == a + [c] + b + [c] + rep
  {
    assert c !in w;
    Regroup5Pieces(a, [c], b, [c], w);
    Regroup5Pieces(a, [c], b, [c], rep);
    SubAround(a, c, b + [c] + w, w, rep);
    SubAround(b, c, w, w, rep);
    SubInsideWord(a, w, rep);
    SubInsideWord(b, w, rep);
    SubWhole(w, rep);
  }

  lemma Regroup5Pieces<T>(a: seq<T>, b: seq<T>, c: seq<T>, d: seq<T>, e: seq<T>)
    ensures a + b + c + d + e == a + b + (c + d + e)
  {
  }

  /** "cool" is replaced where it stands alone and kept inside "coolant". */
  lemma CoolantIsCool()
    ensures Sub("coolant is cool", "cool", "warm") == "coolant is warm"
  {
    var a, b, w, rep := "coolant", "is", "cool", "warm";
    assert WordOnly(a) && WordOnly(b) && WordOnly(w) && a != w && b != w;
    SubThirdWord(a, b, w, rep, ' ');
    CoolantText();
  }

  lemma CoolantText()
    ensures "coolant" + [' '] + "is" + [' '] + "cool" == "coolant is cool"
    ensures "coolant" + [' '] + "is" + [' '] + "warm" == "coolant is warm"
  {
  }

  /** The first line end at or after `k`: where a `.*` starting at `k` stops. */
  function LineEnd(s: string, k: nat): (e: nat)
    requires k <= |s|
    ensures k <= e <= |s| && (e == |s| || s[e] == '\n')
    ensures forall j :: k <= j < e ==> s[j] != '\n'
    decreases |s| - k
  {
    if k == |s| || s[k] == '\n' then k else LineEnd(s, k + 1)
  }

  /** The continuation of a lazy group fits at `j`: `tail` occurs there and, when
      `anyAfter`, one more character of the same line follows it. */
  predicate TailFits(s: string, tail: string, anyAfter: bool, j: nat)
  {
    OccursAt(s, tail, j) && (!anyAfter || (j + |tail| < |s| && s[j + |tail|] != '\n'))
  }

  /** A lazy group `(.*?)` starting at `q` and followed by `tail` (and, when `anyAfter`,
      by one more `.`): the first end position that lets the rest match, reached
      without crossing a line end. */
  function LazyEnd(s: string, q: nat, tail: string, anyAfter: bool): (r: Option<nat>)
    requires q <= |s|
    ensures r.Some? ==> q <= r.value && OccursAt(s, tail, r.value)
    ensures r.Some? ==> forall j :: q <= j < r.value ==> s[j] != '\n'
    decreases |s| - q
  {
    if OccursAt(s, tail, q) && (!anyAfter || (q + |tail| < |s| && s[q + |tail|] != '\n')) then Some(q)
    else if q == |s| || s[q] == '\n' then None
    else LazyEnd(s, q + 1, tail, anyAfter)
  }

  /** The lazy group is as short as possible: it ends at the first position of the line
      where the continuation fits, and it fails only when the continuation fits nowhere
      up to the line end. */
  lemma {:induction false} LazyEndLeast(s: string, q: nat, tail: string, anyAfter: bool)
    requires q <= |s|
    ensures var r := LazyEnd(s, q, tail, anyAfter);
      && (r.Some? ==> r.value <= LineEnd(s, q) && TailFits(s, tail, anyAfter, r.value))
      && (r.Some? ==> forall j :: q <= j < r.value ==> !TailFits(s, tail, anyAfter, j))
      && (r.None? ==> forall j :: q <= j <= LineEnd(s, q) ==> !TailFits(s, tail, anyAfter, j))
    decreases |s| - q
  {
    if !TailFits(s, tail, anyAfter, q) && q < |s| && s[q] != '\n' {
      LazyEndLeast(s, q + 1, tail, anyAfter);
    }
  }

  const UsingOpen := "Consider using "
  const InsteadOf := " instead of "

  /** `re.search(r'Consider using (.*?) instead of (.*)', s)` tried from position `p`
      on: groups 1 and 2 of the leftmost match. */
  function UsingInsteadFrom(s: string, p: nat): Option<(string, string)>
    requires p <= |s|
    decreases |s| - p
  {
    var m := if OccursAt(s, UsingOpen, p) then LazyEnd(s, p + |UsingOpen|, InsteadOf, false) else None;
    if m.Some? then
      var q := m.value;
      var e := LineEnd(s, q + |InsteadOf|);
      Some((s[p + |UsingOpen|..q], s[q + |InsteadOf|..e]))
    else if p == |s| then None
    else UsingInsteadFrom(s, p + 1)
  }

  function SearchUsingInstead(s: string): Option<(string, string)>
  {
    UsingInsteadFrom(s, 0)
  }

  const SpellingOpen := "Spelling issue: '"
  const IsMisspelled := "' is misspelled"

  /** `re.search(r"Spelling issue: '(.*?)' is misspelled.", s)` tried from position
      `p` on: group 1 of the leftmost match. */
  function MisspelledFrom(s: string, p: nat): Option<string>
    requires p <= |s|
    decreases |s| - p
  {
    var m := if OccursAt(s, SpellingOpen, p) then LazyEnd(s, p + |SpellingOpen|, IsMisspelled, true) else None;
    if m.Some? then Some(s[p + |SpellingOpen|..m.value])
    else if p == |s| then None
    else MisspelledFrom(s, p + 1)
  }

  function SearchMisspelled(s: string): Option<string>
  {
    MisspelledFrom(s, 0)
  }

  /** A stretch without a line end lies before the first line end. */
  lemma {:induction false} LineEndPast(s: string, q: nat, n: nat)
    requires q + n <= |s|
    requires forall k :: q <= k < q + n ==> s[k] != '\n'
    ensures q + n <= LineEnd(s, q)
    decreases n
  {
    if n > 0 {
      LineEndPast(s, q + 1, n - 1);
    }
  }

  /** If the continuation fits `n` characters after `q`, on the same line, the lazy group
      succeeds with at most `n` characters. */
  lemma LazyEndWithin(s: string, q: nat, tail: string, anyAfter: bool, n: nat)
    requires q + n <= |s|
    requires forall k :: q <= k < q + n ==> s[k] != '\n'
    requires TailFits(s, tail, anyAfter, q + n)
    ensures LazyEnd(s, q, tail, anyAfter).Some? && LazyEnd(s, q, tail, anyAfter).value <= q + n
  {
    LazyEndLeast(s, q, tail, anyAfter);
    LineEndPast(s, q, n);
  }

  /** `Consider using (.*?) instead of ` can match at `i` with a first group of `n`
      characters (the final `(.*)` matches at least the empty string). */
  predicate UsingFits(s: string, i: nat, n: nat)
  {
    var q := i + |UsingOpen|;
    && OccursAt(s, UsingOpen, i) && q + n <= |s|
    && (forall k :: q <= k < q + n ==> s[k] != '\n')
    && TailFits(s, InsteadOf, false, q + n)
  }

  /** The groups `re.search` reports for a match at `i`: the shortest first group that
      fits, and a second group running to the end of the line. */
  ghost predicate UsingGroups(s: string, i: nat, x: string, y: string)
  {
    var q := i + |UsingOpen|;
    var f := q + |x| + |InsteadOf|;
    && UsingFits(s, i, |x|) && (forall n: nat :: n < |x| ==> !UsingFits(s, i, n))
    && OccursAt(s, x, q) && OccursAt(s, y, f) && '\n' !in y
    && (f + |y| == |s| || s[f + |y|] == '\n')
  }

  /** What a leftmost search from `p` reports: the groups of a match at the least
      position `i` at or after `p` where the pattern fits, or nothing when it fits at
      no such position. */
  ghost predicate UsingSearchResult(s: string, p: nat, r: Option<(string, string)>)
  {
    && (r.None? ==> forall i: nat, n: nat :: p <= i ==> !UsingFits(s, i, n))
    && (r.Some? ==>
         exists i: nat :: p <= i && UsingGroups(s, i, r.value.0, r.value.1)
           && forall j: nat, n: nat :: p <= j < i ==> !UsingFits(s, j, n))
  }

  /** The search finds the leftmost position at or after `p` where the pattern matches,
      with lazy first and greedy second group, and fails only when it matches nowhere. */
  lemma {:induction false} UsingInsteadLeftmost(s: string, p: nat)
    requires p <= |s|
    ensures UsingSearchResult(s, p, UsingInsteadFrom(s, p))
    decreases |s| - p
  {
    if OccursAt(s, UsingOpen, p) && LazyEnd(s, p + |UsingOpen|, InsteadOf, false).Some? {
      UsingFoundHere(s, p);
    } else {
      UsingNoneHere(s, p);
      if p < |s| {
        assert UsingInsteadFrom(s, p) == UsingInsteadFrom(s, p + 1);
        UsingInsteadLeftmost(s, p + 1);
        UsingPassOver(s, p, UsingInsteadFrom(s, p + 1));
      }
    }
  }

  /** A position where the pattern does not fit adds nothing to a search from the next one. */
  lemma UsingPassOver(s: string, p: nat, r: Option<(string, string)>)
    requires forall n: nat :: !UsingFits(s, p, n)
    requires UsingSearchResult(s, p + 1, r)
    ensures UsingSearchResult(s, p, r)
  {
    if r.Some? {
      var i: nat :| p + 1 <= i && UsingGroups(s, i, r.value.0, r.value.1)
        && forall j: nat, n: nat :: p + 1 <= j < i ==> !UsingFits(s, j, n);
      assert forall j: nat, n: nat :: p <= j < i ==> !UsingFits(s, j, n);
    }
  }

  /** Where the lazy group succeeds, the search stops and reports its groups. */
  lemma UsingFoundHere(s: string, p: nat)
    requires OccursAt(s, UsingOpen, p) && LazyEnd(s, p + |UsingOpen|, InsteadOf, false).Some?
    ensures UsingInsteadFrom(s, p).Some?
    ensures UsingGroups(s, p, UsingInsteadFrom(s, p).value.0, UsingInsteadFrom(s, p).value.1)
    ensures UsingSearchResult(s, p, UsingInsteadFrom(s, p))
  {
    var q := p + |UsingOpen|;
    var r := LazyEnd(s, q, InsteadOf, false).value;
    var e := LineEnd(s, r + |InsteadOf|);
    LazyEndLeast(s, q, InsteadOf, false);
    UsingFromAt(s, p, q, r, e);
    UsingGroupsAt(s, p, q, r, r + |InsteadOf|, e);
  }

  lemma UsingFromAt(s: string, p: nat, q: nat, r: nat, e: nat)
    requires q == p + |UsingOpen| && OccursAt(s, UsingOpen, p)
    requires LazyEnd(s, q, InsteadOf, false) == Some(r) && r + |InsteadOf| <= |s|
    requires e == LineEnd(s, r + |InsteadOf|)
    ensures UsingInsteadFrom(s, p) == Some((s[q..r], s[r + |InsteadOf|..e]))
  {
  }

  /** The groups' conditions, stated on the end positions the search computes. */
  lemma UsingGroupsAt(s: string, p: nat, q: nat, r: nat, f: nat, e: nat)
    requires q == p + |UsingOpen| && OccursAt(s, UsingOpen, p)
    requires q <= r && f == r + |InsteadOf| && f <= e <= |s|
    requires forall k :: q <= k < r ==> s[k] != '\n'
    requires TailFits(s, InsteadOf, false, r)
    requires forall j :: q <= j < r ==> !TailFits(s, InsteadOf, false, j)
    requires forall k :: f <= k < e ==> s[k] != '\n'
    requires e == |s| || s[e] == '\n'
    ensures UsingGroups(s, p, s[q..r], s[f..e])
  {
    assert UsingFits(s, p, r - q);
  }

  /** Where the lazy group fails, the pattern does not match at `p`. */
  lemma UsingNoneHere(s: string, p: nat)
    requires !OccursAt(s, UsingOpen, p) || LazyEnd(s, p + |UsingOpen|, InsteadOf, false).None?
    ensures forall n: nat :: !UsingFits(s, p, n)
  {
    forall n: nat | UsingFits(s, p, n)
      ensures false
    {
      LazyEndWithin(s, p + |UsingOpen|, InsteadOf, false, n);
    }
  }

  /** `Spelling issue: '(.*?)' is misspelled.` can match at `i` with a group of `n`
      characters. */
  predicate MisspelledFits(s: string, i: nat, n: nat)
  {
    var q := i + |SpellingOpen|;
    && OccursAt(s, SpellingOpen, i) && q + n <= |s|
    && (forall k :: q <= k < q + n ==> s[k] != '\n')
    && TailFits(s, IsMisspelled, true, q + n)
  }

  /** What a leftmost search from `p` reports: the shortest group of a match at the
      least position `i` at or after `p` where the pattern fits, or nothing when it fits
      at no such position. */
  ghost predicate MisspelledSearchResult(s: string, p: nat, r: Option<string>)
  {
    && (r.None? ==> forall i: nat, n: nat :: p <= i ==> !MisspelledFits(s, i, n))
    && (r.Some? ==>
         exists i: nat :: p <= i && MisspelledGroup(s, i, r.value)
           && forall j: nat, n: nat :: p <= j < i ==> !MisspelledFits(s, j, n))
  }

  /** The search finds the leftmost position at or after `p` where the pattern matches,
      with the shortest group that fits there, and fails only when it matches nowhere. */
  lemma {:induction false} MisspelledLeftmost(s: string, p: nat)
    requires p <= |s|
    ensures MisspelledSearchResult(s, p, MisspelledFrom(s, p))
    decreases |s| - p
  {
    if OccursAt(s, SpellingOpen, p) && LazyEnd(s, p + |SpellingOpen|, IsMisspelled, true).Some? {
      MisspelledFoundHere(s, p);
    } else {
      MisspelledNoneHere(s, p);
      if p < |s| {
        assert MisspelledFrom(s, p) == MisspelledFrom(s, p + 1);
        MisspelledLeftmost(s, p + 1);
        MisspelledPassOver(s, p, MisspelledFrom(s, p + 1));
      }
    }
  }

  /** A position where the pattern does not fit adds nothing to a search from the next one. */
  lemma MisspelledPassOver(s: string, p: nat, r: Option<string>)
    requires forall n: nat :: !MisspelledFits(s, p, n)
    requires MisspelledSearchResult(s, p + 1, r)
    ensures MisspelledSearchResult(s, p, r)
  {
    if r.Some? {
      var i: nat :| p + 1 <= i && MisspelledGroup(s, i, r.value)
        && forall j: nat, n: nat :: p + 1 <= j < i ==> !MisspelledFits(s, j, n);
      assert forall j: nat, n: nat :: p <= j < i ==> !MisspelledFits(s, j, n);
    }
  }

  /** The group `re.search` reports for a match at `i`: the shortest one that fits. */
  ghost predicate MisspelledGroup(s: string, i: nat, w: string)
  {
    && MisspelledFits(s, i, |w|) && (forall n: nat :: n < |w| ==> !MisspelledFits(s, i, n))
    && OccursAt(s, w, i + |SpellingOpen|)
  }

  /** Where the lazy group succeeds, the search stops and reports it. */
  lemma MisspelledFoundHere(s: string, p: nat)
    requires OccursAt(s, SpellingOpen, p) && LazyEnd(s, p + |SpellingOpen|, IsMisspelled, true).Some?
    ensures MisspelledFrom(s, p).Some? && MisspelledGroup(s, p, MisspelledFrom(s, p).value)
    ensures MisspelledSearchResult(s, p, MisspelledFrom(s, p))
  {
    var q := p + |SpellingOpen|;
    var r := LazyEnd(s, q, IsMisspelled, true).value;
    LazyEndLeast(s, q, IsMisspelled, true);
    assert MisspelledFrom(s, p) == Some(s[q..r]);
    MisspelledGroupAt(s, p, q, r);
  }

  /** The group's conditions, stated on the end position the search computes. */
  lemma MisspelledGroupAt(s: string, p: nat, q: nat, r: nat)
    requires q == p + |SpellingOpen| && OccursAt(s, SpellingOpen, p) && q <= r <= |s|
    requires forall k :: q <= k < r ==> s[k] != '\n'
    requires TailFits(s, IsMisspelled, true, r)
    requires forall j :: q <= j < r ==> !TailFits(s, IsMisspelled, true, j)
    ensures MisspelledGroup(s, p, s[q..r])
  {
    assert MisspelledFits(s, p, r - q);
  }

  /** Where the lazy group fails, the pattern does not match at `p`. */
  lemma MisspelledNoneHere(s: string, p: nat)
    requires !OccursAt(s, SpellingOpen, p) || LazyEnd(s, p + |SpellingOpen|, IsMisspelled, true).None?
    ensures forall n: nat :: !MisspelledFits(s, p, n)
  {
    forall n: nat | MisspelledFits(s, p, n)
      ensures false
    {
      LazyEndWithin(s, p + |SpellingOpen|, IsMisspelled, true, n);
    }
  }
}
