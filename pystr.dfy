/** The Python built-in string operations the suggestion pipeline relies on:
    substring test (`in`), `split`, `replace`, `lower` and whitespace `split()`. */
module PyStr {

  datatype Option<T> = None | Some(value: T)

  /** `pat` occurs in `s` starting at index `i`. */
  predicate OccursAt(s: string, pat: string, i: int)
  {
    0 <= i && i + |pat| <= |s| && s[i..i + |pat|] == pat
  }

  /** Python's `pat in s`. */
  predicate Contains(s: string, pat: string)
  {
    exists i | 0 <= i <= |s| - |pat| :: OccursAt(s, pat, i)
  }

  /** The least index at or after `start` where `pat` occurs (Python's `s.find(pat, start)`). */
  function IndexFrom(s: string, pat: string, start: nat): (r: Option<nat>)
    ensures r.Some? ==> start <= r.value && OccursAt(s, pat, r.value)
    ensures forall j :: start <= j && (r.None? || j < r.value) ==> !OccursAt(s, pat, j)
    decreases |s| - start
  {
    if start + |pat| > |s| then None
    else if s[start..start + |pat|] == pat then Some(start)
    else IndexFrom(s, pat, start + 1)
  }

  /** `find` returns the first occurrence at or after `start`. */
  lemma {:induction false} IndexFromFirst(s: string, pat: string, start: nat, i: nat)
    requires start <= i && OccursAt(s, pat, i)
    requires forall j :: start <= j < i ==> !OccursAt(s, pat, j)
    ensures IndexFrom(s, pat, start) == Some(i)
    decreases i - start
  {
    if start < i {
      assert !OccursAt(s, pat, start);
      IndexFromFirst(s, pat, start + 1, i);
    }
  }

  /** Python's `s.split(sep)` for a non-empty separator: the pieces between the
      non-overlapping occurrences of `sep`, found from left to right. */
  function Split(s: string, sep: string): (parts: seq<string>)
    requires sep != []
    ensures |parts| >= 1
    ensures |parts| == 1 <==> !Contains(s, sep)
    decreases |s|
  {
    match IndexFrom(s, sep, 0)
    case None => [s]
    case Some(i) => [s[..i]] + Split(s[i + |sep|..], sep)
  }

  /** Python's `s.replace(pat, rep)`: every non-overlapping occurrence, left to right. */
  function ReplaceAll(s: string, pat: string, rep: string): (r: string)
    requires pat != []
    ensures !Contains(s, pat) ==> r == s
    decreases |s|
  {
    match IndexFrom(s, pat, 0)
    case None => s
    case Some(i) => s[..i] + rep + ReplaceAll(s[i + |pat|..], pat, rep)
  }

  /** `str.lower()` restricted to ASCII letters. */
  function LowerChar(c: char): char
  {
    if 'A' <= c <= 'Z' then (c as int + 32) as char else c
  }

  function Lower(s: string): string
  {
    seq(|s|, i requires 0 <= i < |s| => LowerChar(s[i]))
  }

  /** The characters for which Python's `str.isspace()` holds. */
  predicate IsSpace(c: char)
  {
    c == ' ' || '\t' <= c <= '\r' || '\U{001C}' <= c <= '\U{001F}'
    || c == '\U{0085}' || c == '\U{00A0}' || c == '\U{1680}'
    || '\U{2000}' <= c <= '\U{200A}' || c == '\U{2028}' || c == '\U{2029}'
    || c == '\U{202F}' || c == '\U{205F}' || c == '\U{3000}'
  }

  /** `s` with its leading whitespace removed. */
  function DropSpaces(s: string): (r: string)
    ensures |r| <= |s| && r == s[|s| - |r|..]
    ensures r != [] ==> !IsSpace(r[0])
  {
    if |s| > 0 && IsSpace(s[0]) then DropSpaces(s[1..]) else s
  }

  /** Length of the leading run of non-whitespace characters of `s`. */
  function WordLen(s: string): (n: nat)
    ensures n <= |s|
    ensures forall k :: 0 <= k < n ==> !IsSpace(s[k])
    ensures n == |s| || IsSpace(s[n])
  {
    if |s| > 0 && !IsSpace(s[0]) then 1 + WordLen(s[1..]) else 0
  }

  /** Python's `s.split()` with no argument: the maximal runs of non-whitespace characters. */
  function Words(s: string): seq<string>
    decreases |s|
  {
    var t := DropSpaces(s);
    if t == [] then [] else
      var n := WordLen(t);
      [t[..n]] + Words(t[n..])
  }

  /** A word in the sense of `split()`: non-empty and without whitespace. */
  predicate IsWord(w: string)
  {
    w != [] && forall k :: 0 <= k < |w| ==> !IsSpace(w[k])
  }

  /** Every piece `split()` returns is a word. */
  lemma {:induction false} WordsAreWords(s: string)
    ensures forall k :: 0 <= k < |Words(s)| ==> IsWord(Words(s)[k])
    decreases |s|
  {
    var t := DropSpaces(s);
    if t != [] {
      var n := WordLen(t);
      WordsAreWords(t[n..]);
      FirstWord(t);
      ConsWords(t[..n], Words(t[n..]));
    }
  }

  /** The leading run of non-whitespace of a text that starts with one is a word. */
  lemma FirstWord(t: string)
    requires t != [] && !IsSpace(t[0])
    ensures IsWord(t[..WordLen(t)])
  {
  }

  lemma ConsWords(w: string, ws: seq<string>)
    requires IsWord(w) && forall k :: 0 <= k < |ws| ==> IsWord(ws[k])
    ensures forall k :: 0 <= k < |[w] + ws| ==> IsWord(([w] + ws)[k])
  {
  }

  /** `lower()` keeps the length, maps each ASCII capital to its small letter, leaves
      every other character alone, and leaves no capital behind. */
  lemma LowerCases(s: string)
    ensures |Lower(s)| == |s|
    ensures forall k :: 0 <= k < |s| && 'A' <= s[k] <= 'Z' ==> Lower(s)[k] == s[k] - 'A' + 'a'
    ensures forall k :: 0 <= k < |s| && !('A' <= s[k] <= 'Z') ==> Lower(s)[k] == s[k]
    ensures forall k :: 0 <= k < |s| ==> !('A' <= Lower(s)[k] <= 'Z')
  {
  }

  /** Lowering twice is lowering once. */
  lemma LowerIdempotent(s: string)
    ensures Lower(Lower(s)) == Lower(s)
  {
    LowerCases(s);
    LowerCases(Lower(s));
  }

  /** `" ".join(ws)`. */
  function JoinSpaces(ws: seq<string>): string
  {
    if |ws| == 0 then ""
    else if |ws| == 1 then ws[0]
    else ws[0] + " " + JoinSpaces(ws[1..])
  }

  /** `split()` undoes `" ".join` on words. */
  lemma {:induction false} WordsOfJoin(ws: seq<string>)
    requires forall k :: 0 <= k < |ws| ==> IsWord(ws[k])
    ensures Words(JoinSpaces(ws)) == ws
  {
    if |ws| == 1 {
      WordsOfOne(ws[0]);
      assert ws == [ws[0]];
    } else if |ws| > 1 {
      WordsOfJoin(ws[1..]);
      WordsOfJoinStep(ws);
      HeadTail(ws);
    }
  }

  lemma HeadTail<T>(xs: seq<T>)
    requires xs != []
    ensures [xs[0]] + xs[1..] == xs
  {
  }

  lemma InAppend<T>(xs: seq<T>, ys: seq<T>, x: T)
    ensures x in xs + ys <==> x in xs || x in ys
  {
  }

  lemma ConsParts<T>(x: T, ys: seq<T>)
    ensures ([x] + ys)[0] == x && ([x] + ys)[1..] == ys
  {
  }

  lemma Assoc<T>(xs: seq<T>, ys: seq<T>, zs: seq<T>)
    ensures xs + ys + zs == xs + (ys + zs)
  {
  }

  lemma Assoc4<T>(a: seq<T>, b: seq<T>, c: seq<T>, d: seq<T>)
    ensures a + b + c + d == a + (b + c + d)
  {
  }

  /** The last element of the middle piece, split off. */
  lemma SnocSplit<T>(xs: seq<T>, ys: seq<T>, zs: seq<T>)
    requires ys != []
    ensures xs + ys + zs == xs + ys[..|ys| - 1] + [ys[|ys| - 1]] + zs
  {
    assert ys == ys[..|ys| - 1] + [ys[|ys| - 1]];
  }

  /** The second of four concatenated pieces. */
  lemma InitOfAppend<T>(xs: seq<T>, ys: seq<T>)
    requires ys != []
    ensures (xs + ys)[..|xs + ys| - 1] == xs + ys[..|ys| - 1]
    ensures (xs + ys)[|xs + ys| - 1] == ys[|ys| - 1]
  {
  }

  lemma AppendNil<T>(xs: seq<T>)
    ensures xs + [] == xs
  {
  }

  lemma SecondOfFour<T>(a: seq<T>, b: seq<T>, c: seq<T>, d: seq<T>)
    ensures (a + b + c + d)[|a|..|a| + |b|] == b
  {
  }

  /** The third of four concatenated pieces. */
  lemma ThirdOfFour<T>(a: seq<T>, b: seq<T>, c: seq<T>, d: seq<T>)
    ensures (a + b + c + d)[|a + b|..|a + b| + |c|] == c
  {
  }

  /** The second of five concatenated pieces. */
  lemma SecondOfFive<T>(a: seq<T>, b: seq<T>, c: seq<T>, d: seq<T>, e: seq<T>)
    ensures (a + b + c + d + e)[|a|..|a| + |b|] == b
  {
  }

  /** The last of two concatenated pieces. */
  lemma SecondOfTwo<T>(a: seq<T>, b: seq<T>)
    ensures (a + b)[|a|..|a + b|] == b
  {
  }

  lemma WordsOfOne(w: string)
    requires IsWord(w)
    ensures Words(w) == [w]
  {
    assert DropSpaces(w) == w;
    assert WordLen(w) == |w|;
    assert w[..|w|] == w;
    assert Words(w[|w|..]) == [];
  }

  lemma WordsOfJoinStep(ws: seq<string>)
    requires |ws| > 1 && IsWord(ws[0])
    ensures Words(JoinSpaces(ws)) == [ws[0]] + Words(JoinSpaces(ws[1..]))
  {
    var tail := JoinSpaces(ws[1..]);
    assert JoinSpaces(ws) == ws[0] + " " + tail;
    WordsSpaceCons(ws[0], tail);
  }

  /** A word, a space and a text: the word, then the text's words. */
  lemma WordsSpaceCons(w: string, tail: string)
    requires IsWord(w)
    ensures Words(w + " " + tail) == [w] + Words(tail)
  {
    assert w + " " + tail == w + (" " + tail);
    WordsCons(w, " " + tail);
    WordsDropsLeadingSpace(tail);
  }

  /** A word followed by whitespace (or nothing) is the first piece of `split()`. */
  lemma WordsCons(w: string, rest: string)
    requires IsWord(w)
    requires rest == [] || IsSpace(rest[0])
    ensures Words(w + rest) == [w] + Words(rest)
  {
    WordLenOfWord(w, rest);
    assert DropSpaces(w + rest) == w + rest;
    assert (w + rest)[..|w|] == w;
    assert (w + rest)[|w|..] == rest;
  }

  lemma {:induction false} WordLenOfWord(w: string, rest: string)
    requires IsWord(w)
    requires rest == [] || IsSpace(rest[0])
    ensures WordLen(w + rest) == |w|
    decreases |w|
  {
    if |w| > 1 {
      assert (w + rest)[1..] == w[1..] + rest;
      WordLenOfWord(w[1..], rest);
    } else {
      assert (w + rest)[1..] == rest;
    }
  }

  lemma WordsDropsLeadingSpace(s: string)
    ensures Words(" " + s) == Words(s)
  {
    assert (" " + s)[1..] == s;
    assert DropSpaces(" " + s) == DropSpaces(s);
  }

  /** A position inside an occurrence of `pat` holds a character of `pat`. */
  lemma OccurrenceCovers(s: string, pat: string, i: int, k: int)
    requires OccursAt(s, pat, i)
    requires 0 <= k < |s| && s[k] !in pat
    ensures k < i || i + |pat| <= k
  {
    assert forall j :: i <= j < i + |pat| ==> s[j] == pat[j - i];
  }

  /** An occurrence of a pattern that lacks the character `c` cannot cover a `c`:
      it lies wholly on one side of it. */
  lemma ContainsAroundChar(x: string, c: char, y: string, pat: string)
    requires c !in pat
    requires Contains(x + [c] + y, pat)
    ensures Contains(x, pat) || Contains(y, pat)
  {
    var s := x + [c] + y;
    var i :| 0 <= i <= |s| - |pat| && OccursAt(s, pat, i);
    OccurrenceCovers(s, pat, i, |x|);
    if i + |pat| <= |x| {
      assert s[i..i + |pat|] == x[i..i + |pat|];
      assert OccursAt(x, pat, i);
    } else {
      var j := i - |x| - 1;
      assert s[i..i + |pat|] == y[j..j + |pat|];
      assert OccursAt(y, pat, j);
    }
  }
}
