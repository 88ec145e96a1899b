/** String helpers with Python's semantics: `str.isspace`, `str.strip`,
    `str.split()` with no separator, `sub in s`, and `str.rfind`. */
module Text {

  /** Python's `str.isspace`: the ASCII controls TAB..CR and FS..US, SPACE,
      NEL, NBSP and the Unicode space separators. */
  predicate IsSpace(c: char)
  {
    || c == ' '
    || '\t' <= c <= '\r'
    || '\U{1c}' <= c <= '\U{1f}'
    || c == '\U{85}'
    || c == '\U{a0}'
    || c == '\U{1680}'
    || '\U{2000}' <= c <= '\U{200a}'
    || c == '\U{2028}'
    || c == '\U{2029}'
    || c == '\U{202f}'
    || c == '\U{205f}'
    || c == '\U{3000}'
  }

  predicate NoSpace(w: string)
  {
    forall i :: 0 <= i < |w| ==> !IsSpace(w[i])
  }

  predicate AllSpace(w: string)
  {
    forall i :: 0 <= i < |w| ==> IsSpace(w[i])
  }

  // ---------------------------------------------------------------------------
  // str.strip()

  /** The number of whitespace characters `s` starts with. */
  function LeadingSpaces(s: string): (n: nat)
    ensures n <= |s|
    ensures forall k :: 0 <= k < n ==> IsSpace(s[k])
    ensures n < |s| ==> !IsSpace(s[n])
  {
    if s == [] || !IsSpace(s[0]) then 0 else 1 + LeadingSpaces(s[1..])
  }

  /** The number of whitespace characters `s` ends with. */
  function TrailingSpaces(s: string): (n: nat)
    ensures n <= |s|
    ensures forall k :: |s| - n <= k < |s| ==> IsSpace(s[k])
    ensures n < |s| ==> !IsSpace(s[|s| - n - 1])
  {
    if s == [] || !IsSpace(s[|s| - 1]) then 0 else 1 + TrailingSpaces(s[..|s| - 1])
  }

  /** `s.strip()`: `s` without its leading and trailing whitespace. It is
      empty exactly when `s` is all whitespace; otherwise it is the piece of
      `s` after the leading whitespace, starts and ends with a
      non-whitespace character, and only whitespace follows it in `s`. */
  function Strip(s: string): (r: string)
    ensures r == [] <==> AllSpace(s)
    ensures r != [] ==> !IsSpace(r[0]) && !IsSpace(r[|r| - 1])
    ensures LeadingSpaces(s) + |r| <= |s| && r == s[LeadingSpaces(s)..LeadingSpaces(s) + |r|]
    ensures AllSpace(s[LeadingSpaces(s) + |r|..])
  {
    var a := LeadingSpaces(s);
    if a == |s| then []
    else
      var b := TrailingSpaces(s);
      assert a < |s| - b;
      s[a..|s| - b]
  }

  // ---------------------------------------------------------------------------
  // str.split() with no separator

  /** Length of the run of non-whitespace characters that starts `s`. */
  function WordEnd(s: string): (n: nat)
    requires s != [] && !IsSpace(s[0])
    ensures 0 < n <= |s|
    ensures NoSpace(s[..n])
    ensures n < |s| ==> IsSpace(s[n])
  {
    if |s| == 1 || IsSpace(s[1]) then 1 else 1 + WordEnd(s[1..])
  }

  /** `s.split()`: the maximal runs of non-whitespace characters, in order. */
  function Split(s: string): (ws: seq<string>)
    ensures forall i :: 0 <= i < |ws| ==> ws[i] != [] && NoSpace(ws[i])
    decreases |s|
  {
    if s == [] then []
    else if IsSpace(s[0]) then Split(s[1..])
    else
      var n := WordEnd(s);
      [s[..n]] + Split(s[n..])
  }

  lemma {:induction false} WordEndOfWord(w: string, rest: string)
    requires w != [] && NoSpace(w)
    requires rest == [] || IsSpace(rest[0])
    ensures WordEnd(w + rest) == |w|
    decreases |w|
  {
    if |w| > 1 {
      assert (w + rest)[1..] == w[1..] + rest;
      WordEndOfWord(w[1..], rest);
    }
  }

  lemma {:induction false} SplitSkipsSpaces(sp: string, rest: string)
    requires AllSpace(sp)
    ensures Split(sp + rest) == Split(rest)
    decreases |sp|
  {
    if sp != [] {
      assert (sp + rest)[0] == sp[0];
      assert (sp + rest)[1..] == sp[1..] + rest;
      assert AllSpace(sp[1..]) by {
        forall k | 0 <= k < |sp| - 1 ensures IsSpace(sp[1..][k]) {
          assert sp[1..][k] == sp[k + 1];
        }
      }
      SplitSkipsSpaces(sp[1..], rest);
      assert IsSpace((sp + rest)[0]);
      assert Split(sp + rest) == Split((sp + rest)[1..]);
    } else {
      assert sp + rest == rest;
    }
  }

  /** Splitting a string that starts with a word yields that word first. */
  lemma SplitWord(w: string, rest: string)
    requires w != [] && NoSpace(w)
    requires rest == [] || IsSpace(rest[0])
    ensures Split(w + rest) == [w] + Split(rest)
  {
    WordEndOfWord(w, rest);
    var s := w + rest;
    assert s[..|w|] == w;
    assert s[|w|..] == rest;
  }

  /** A header written as `scheme token` splits into exactly those two words,
      whatever whitespace surrounds and separates them. */
  lemma SplitTwoWords(lead: string, a: string, sep: string, b: string, trail: string)
    requires a != [] && NoSpace(a) && b != [] && NoSpace(b)
    requires AllSpace(lead) && AllSpace(trail) && sep != [] && AllSpace(sep)
    ensures Split(lead + (a + (sep + (b + trail)))) == [a, b]
  {
    SplitSkipsSpaces(lead, a + (sep + (b + trail)));
    SplitWordThenWord(a, sep, b, trail);
  }

  /** Two words apart, followed only by whitespace, split into those two. */
  lemma SplitWordThenWord(a: string, sep: string, b: string, trail: string)
    requires a != [] && NoSpace(a) && b != [] && NoSpace(b)
    requires AllSpace(trail) && sep != [] && AllSpace(sep)
    ensures Split(a + (sep + (b + trail))) == [a, b]
  {
    var tail := sep + (b + trail);
    assert tail[0] == sep[0];
    SplitWord(a, tail);
    SplitSkipsSpaces(sep, b + trail);
    SplitLastWord(b, trail);
    assert [a] + [b] == [a, b];
  }

  /** A word followed only by whitespace splits into that word alone. */
  lemma SplitLastWord(w: string, trail: string)
    requires w != [] && NoSpace(w) && AllSpace(trail)
    ensures Split(w + trail) == [w]
  {
    SplitWord(w, trail);
    SplitSkipsSpaces(trail, []);
    assert trail + [] == trail;
  }

  // ---------------------------------------------------------------------------
  // sub in s

  predicate OccursAt(s: string, sub: string, i: int)
  {
    0 <= i && i + |sub| <= |s| && s[i..i + |sub|] == sub
  }

  /** Python's `sub in s`. */
  function Contains(s: string, sub: string): (b: bool)
    ensures b <==> exists i :: OccursAt(s, sub, i)
    decreases |s|
  {
    if |sub| > |s| then false
    else if s[..|sub|] == sub then
      assert OccursAt(s, sub, 0);
      true
    else
      var b := Contains(s[1..], sub);
      ShiftOccurrence(s, sub);
      b
  }

  /** A string that contains the pattern still does with text on either side. */
  lemma ContainsInfix(a: string, s: string, b: string, sub: string)
    requires Contains(s, sub)
    ensures Contains(a + s + b, sub)
  {
    var i :| OccursAt(s, sub, i);
    assert (a + s + b)[|a| + i..|a| + i + |sub|] == s[i..i + |sub|];
    assert OccursAt(a + s + b, sub, |a| + i);
  }

  lemma ShiftOccurrence(s: string, sub: string)
    requires s != []
    ensures (exists i :: OccursAt(s, sub, i)) <==>
            OccursAt(s, sub, 0) || exists i :: OccursAt(s[1..], sub, i)
  {
    forall i | OccursAt(s[1..], sub, i) ensures OccursAt(s, sub, i + 1) {
      assert s[i + 1..i + 1 + |sub|] == s[1..][i..i + |sub|];
    }
    forall i | OccursAt(s, sub, i) && i > 0 ensures OccursAt(s[1..], sub, i - 1) {
      var t := s[1..];
      assert t[i - 1..i - 1 + |sub|] == s[i..i + |sub|];
    }
  }

  /** In a string one longer than `sub`, `sub` can only start at 0 or 1. */
  lemma ContainsOneLonger(s: string, sub: string)
    requires |s| == |sub| + 1
    ensures Contains(s, sub) <==> s[..|sub|] == sub || s[1..] == sub
  {
    assert s[1..][..|sub|] == s[1..];
  }

  lemma ContainsPrefix(p: string, rest: string, sub: string)
    requires |sub| <= |p| && p[..|sub|] == sub
    ensures Contains(p + rest, sub)
  {
    assert (p + rest)[..|sub|] == p[..|sub|];
    assert OccursAt(p + rest, sub, 0);
  }

  // ---------------------------------------------------------------------------
  // str.rfind(c)

  /** `s.rfind(c)` for a one-character needle: the last index of `c`, or -1. */
  function LastIndexOf(s: string, c: char): (r: int)
    ensures -1 <= r < |s|
    ensures r >= 0 ==> s[r] == c
  {
    if s == [] then -1
    else if s[|s| - 1] == c then |s| - 1
    else LastIndexOf(s[..|s| - 1], c)
  }

  /** No `c` occurs after the index `rfind` returns. */
  lemma {:induction false} LastIndexOfIsLast(s: string, c: char)
    ensures forall k :: LastIndexOf(s, c) < k < |s| ==> s[k] != c
  {
    if s != [] && s[|s| - 1] != c {
      LastIndexOfIsLast(s[..|s| - 1], c);
      assert forall k :: 0 <= k < |s| - 1 ==> s[..|s| - 1][k] == s[k];
    }
  }

  /** Appending text free of `c` does not move the last `c`. */
  lemma {:induction false} LastIndexOfAppend(s: string, t: string, c: char)
    requires c !in t
    ensures LastIndexOf(s + t, c) == LastIndexOf(s, c)
    decreases |t|
  {
    if t != [] {
      assert (s + t)[..|s + t| - 1] == s + t[..|t| - 1];
      LastIndexOfAppend(s, t[..|t| - 1], c);
    } else {
      assert s + t == s;
    }
  }
}
