/** File contents as bytes, and the line view the re-upload's diff reads
    through: a text-mode `open(..., "r")` followed by `readlines()`. */
module Lines {

  type byte = b: int | 0 <= b < 256

  const LF: byte := 10
  const CR: byte := 13

  function Concat<T>(ls: seq<seq<T>>): (r: seq<T>)
  {
    if ls == [] then [] else ls[0] + Concat(ls[1..])
  }

  lemma {:induction false} ConcatAppend<T>(a: seq<seq<T>>, b: seq<seq<T>>)
    ensures Concat(a + b) == Concat(a) + Concat(b)
  {
    if a == [] {
      assert a + b == b;
    } else {
      assert (a + b)[1..] == a[1..] + b;
      ConcatAppend(a[1..], b);
    }
  }

  /** Universal-newline translation done by text-mode reading: every
      "\r\n" and every lone "\r" becomes "\n". */
  function Translate(c: seq<byte>): (t: seq<byte>)
    ensures CR !in t
    ensures |t| <= |c|
    ensures CR !in c ==> t == c
  {
    if c == [] then []
    else if c[0] == CR && |c| > 1 && c[1] == LF then [LF] + Translate(c[2..])
    else if c[0] == CR then [LF] + Translate(c[1..])
    else [c[0]] + Translate(c[1..])
  }

  /** Translation works piece by piece, as long as the cut does not split
      a "\r\n" pair. */
  lemma {:induction false} TranslateAppend(a: seq<byte>, b: seq<byte>)
    requires a == [] || b == [] || a[|a| - 1] != CR || b[0] != LF
    ensures Translate(a + b) == Translate(a) + Translate(b)
    decreases |a|, 1
  {
    if a == [] {
      assert a + b == b;
    } else if a[0] != CR {
      AppendAfterOther(a, b);
    } else if |a| > 1 && a[1] == LF {
      AppendAfterPair(a, b);
    } else if |a| > 1 {
      AppendAfterLoneCR(a, b);
    } else {
      assert a == [CR];
      AppendAfterFinalCR(b);
    }
  }

  lemma {:induction false} AppendAfterOther(a: seq<byte>, b: seq<byte>)
    requires a != [] && a[0] != CR
    requires b == [] || a[|a| - 1] != CR || b[0] != LF
    ensures Translate(a + b) == Translate(a) + Translate(b)
    decreases |a|, 0
  {
    var ab := a + b;
    assert ab[0] == a[0] && ab[1..] == a[1..] + b;
    TranslateAppend(a[1..], b);
    assert Translate(ab) == [a[0]] + Translate(a[1..] + b);
  }

  lemma {:induction false} AppendAfterPair(a: seq<byte>, b: seq<byte>)
    requires |a| > 1 && a[0] == CR && a[1] == LF
    requires b == [] || a[|a| - 1] != CR || b[0] != LF
    ensures Translate(a + b) == Translate(a) + Translate(b)
    decreases |a|, 0
  {
    var ab := a + b;
    assert ab[0] == CR && ab[1] == LF && ab[2..] == a[2..] + b;
    TranslateAppend(a[2..], b);
    assert Translate(ab) == [LF] + Translate(a[2..] + b);
  }

  lemma {:induction false} AppendAfterLoneCR(a: seq<byte>, b: seq<byte>)
    requires |a| > 1 && a[0] == CR && a[1] != LF
    requires b == [] || a[|a| - 1] != CR || b[0] != LF
    ensures Translate(a + b) == Translate(a) + Translate(b)
    decreases |a|, 0
  {
    var r := a[1..];
    var ab := a + b;
    assert ab[0] == CR && ab[1] == r[0] && ab[1..] == r + b;
    assert r[|r| - 1] == a[|a| - 1];
    TranslateAppend(r, b);
    assert Translate(ab) == [LF] + Translate(r + b);
  }

  lemma AppendAfterFinalCR(b: seq<byte>)
    requires b == [] || b[0] != LF
    ensures Translate([CR] + b) == [LF] + Translate(b)
  {
    var ab := [CR] + b;
    assert ab[1..] == b;
    if b != [] {
      assert ab[1] == b[0];
    }
  }

  /** The pieces translation is made of: "\r\n" and a lone "\r" each become
      one "\n", and every other byte stays. With `TranslateAppend` these fix
      the translation of every content. */
  lemma TranslateUnits(x: byte)
    ensures Translate([CR, LF]) == [LF]
    ensures Translate([CR]) == [LF]
    ensures x != CR ==> Translate([x]) == [x]
  {
  }

  /** A line as `readlines` yields it: non-empty, with "\n" at most as its
      last byte. */
  predicate IsLine(l: seq<byte>)
  {
    l != [] && LF !in l[..|l| - 1]
  }

  /** Every line but the last ends with "\n". */
  predicate WellFormedLines(ls: seq<seq<byte>>)
  {
    && (forall i :: 0 <= i < |ls| ==> IsLine(ls[i]))
    && (forall i :: 0 <= i < |ls| - 1 ==> ls[i][|ls[i]| - 1] == LF)
  }

  /** Length of the first line of `t`, its "\n" included. */
  function LineEnd(t: seq<byte>): (n: nat)
    requires t != []
    ensures 0 < n <= |t|
    ensures LF !in t[..n - 1]
    ensures n < |t| ==> t[n - 1] == LF
  {
    if t[0] == LF || |t| == 1 then 1
    else
      var n := 1 + LineEnd(t[1..]);
      assert t[..n - 1] == [t[0]] + t[1..][..n - 2];
      n
  }

  /** `readlines` on translated text: cut after every "\n". */
  function SplitLines(t: seq<byte>): (ls: seq<seq<byte>>)
    ensures Concat(ls) == t
    decreases |t|
  {
    if t == [] then []
    else
      var n := LineEnd(t);
      assert t == t[..n] + t[n..];
      [t[..n]] + SplitLines(t[n..])
  }

  /** Every piece `SplitLines` cuts is a line, and every piece but the last
      ends with "\n". */
  lemma {:induction false} SplitLinesWellFormed(t: seq<byte>)
    ensures WellFormedLines(SplitLines(t))
    decreases |t|
  {
    if t != [] {
      var n := LineEnd(t);
      SplitLinesWellFormed(t[n..]);
      var rest := SplitLines(t[n..]);
      assert rest != [] ==> n < |t|;
      var ls := [t[..n]] + rest;
      assert forall i :: 0 < i < |ls| ==> ls[i] == rest[i - 1];
    }
  }

  /** The lines of a file as `open(path, "r").readlines()` returns them
      (character decoding is not modelled: a byte stands for a character). */
  function ReadLines(c: seq<byte>): (ls: seq<seq<byte>>)
    ensures Concat(ls) == Translate(c)
  {
    SplitLines(Translate(c))
  }

  /** Splitting is the inverse of joining: well-formed lines come back
      unchanged. */
  lemma {:induction false} SplitConcat(ls: seq<seq<byte>>)
    requires WellFormedLines(ls)
    ensures SplitLines(Concat(ls)) == ls
    decreases |ls|
  {
    if ls != [] {
      var l := ls[0];
      var t := Concat(ls);
      assert t == l + Concat(ls[1..]);
      assert WellFormedLines(ls[1..]) by {
        forall i | 0 <= i < |ls[1..]| ensures IsLine(ls[1..][i]) {
          assert ls[1..][i] == ls[i + 1];
        }
        forall i | 0 <= i < |ls[1..]| - 1 ensures ls[1..][i][|ls[1..][i]| - 1] == LF {
          assert ls[1..][i] == ls[i + 1];
        }
      }
      LineEndOfLine(l, Concat(ls[1..]), |ls| > 1);
      assert t[..|l|] == l;
      assert t[|l|..] == Concat(ls[1..]);
      SplitConcat(ls[1..]);
    }
  }

  lemma LineEndOfLine(l: seq<byte>, rest: seq<byte>, more: bool)
    requires IsLine(l)
    requires more ==> l[|l| - 1] == LF
    requires !more ==> rest == []
    ensures LineEnd(l + rest) == |l|
  {
    LineEndFirstLF(l + rest, |l|);
  }

  lemma {:induction false} LineEndFirstLF(t: seq<byte>, n: nat)
    requires 0 < n <= |t|
    requires LF !in t[..n - 1]
    requires n < |t| ==> t[n - 1] == LF
    ensures LineEnd(t) == n
    decreases n
  {
    if n > 1 {
      assert t[0] in t[..n - 1];
      assert t[1..][..n - 2] == t[..n - 1][1..];
      LineEndFirstLF(t[1..], n - 1);
    }
  }

  /** Whether bytes decode in the text encoding `open(..., "r")` uses; it
      depends on the platform's locale, so it is a parameter. */
  type Decodable = seq<byte> -> bool

  /** A line-level differencing routine (Python's `difflib.Differ.compare`),
      taken as a parameter: its output is a sequence of lines. */
  type Differ = (seq<seq<byte>>, seq<seq<byte>>) -> seq<seq<byte>>

  /** The lines `readlines()` yields determine the text-mode content and
      are determined by it. */
  lemma ReadLinesSeesText(c1: seq<byte>, c2: seq<byte>)
    ensures ReadLines(c1) == ReadLines(c2) <==> Translate(c1) == Translate(c2)
  {
    if ReadLines(c1) == ReadLines(c2) {
      assert Concat(ReadLines(c1)) == Concat(ReadLines(c2));
    }
  }

  /** The bytes written to the diff file: every line `compare` yields, in
      order, over the lines of the old and the new file. */
  function DiffContent(differ: Differ, current: seq<byte>, edited: seq<byte>): seq<byte>
  {
    Concat(differ(ReadLines(current), ReadLines(edited)))
  }

  /** The differ sees the files only through their text-mode lines, so
      files that differ only in newline style give the same diff. */
  lemma DiffIgnoresNewlineStyle(differ: Differ, c1: seq<byte>, c2: seq<byte>, e1: seq<byte>, e2: seq<byte>)
    requires Translate(c1) == Translate(c2) && Translate(e1) == Translate(e2)
    ensures DiffContent(differ, c1, e1) == DiffContent(differ, c2, e2)
  {
    ReadLinesSeesText(c1, c2);
    ReadLinesSeesText(e1, e2);
  }
}
