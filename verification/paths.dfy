/** The two pieces of `pathlib` the service uses, `PurePath.name` and
    `PurePath.suffix`, and the storage paths Django's `FileField` gives an
    uploaded file: its name made safe by `get_valid_filename`, under the
    field's `upload_to` directory. */
module Paths {
  import opened Results
  import opened Text

  /** The name of an uploaded file: Django keeps only its base name, so it
      never holds a separator. */
  type FileName = s: string | '/' !in s

  /** `PurePath(path).name`: the text after the last separator. */
  function BaseName(path: string): (n: string)
    ensures |n| <= |path| && path[|path| - |n|..] == n
    ensures |n| < |path| ==> path[|path| - |n| - 1] == '/'
  {
    path[LastIndexOf(path, '/') + 1..]
  }

  /** The base name holds no separator. */
  lemma BaseNameHasNoSeparator(path: string)
    ensures '/' !in BaseName(path)
  {
    LastIndexOfIsLast(path, '/');
    var i := LastIndexOf(path, '/') + 1;
    assert forall k :: 0 <= k < |path| - i ==> BaseName(path)[k] == path[i + k];
  }

  /** `PurePath(path).suffix`: the base name from its last dot on, when that
      dot is neither the first nor the last character; otherwise empty. */
  function Suffix(path: string): (x: string)
    ensures x == [] || (|x| >= 2 && x[0] == '.')
  {
    var n := BaseName(path);
    var i := LastIndexOf(n, '.');
    if 0 < i < |n| - 1 then n[i..] else ""
  }

  /** `PurePath(path).stem`: the base name without its suffix. */
  function Stem(path: string): (s: string)
  {
    var n := BaseName(path);
    var i := LastIndexOf(n, '.');
    if 0 < i < |n| - 1 then n[..i] else n
  }

  /** Stem and suffix split the base name. */
  lemma StemSuffix(path: string)
    ensures BaseName(path) == Stem(path) + Suffix(path)
  {
    var n := BaseName(path);
    var i := LastIndexOf(n, '.');
    if 0 < i < |n| - 1 {
      assert Stem(path) == n[..i];
      assert Suffix(path) == n[i..];
      assert n == n[..i] + n[i..];
    }
  }

  /** The suffix is the base name from a dot that is neither its first nor
      its last character and that no other dot follows. */
  lemma SuffixSelects(path: string, i: int)
    requires var n := BaseName(path); 0 < i < |n| - 1 && n[i] == '.' && '.' !in n[i + 1..]
    ensures Suffix(path) == BaseName(path)[i..]
  {
    var n := BaseName(path);
    assert forall k :: i < k < |n| ==> n[k] == n[i + 1..][k - i - 1];
    LastIndexOfIs(n, '.', i);
  }

  /** Conversely, the suffix is empty exactly when the base name has no
      such dot. */
  lemma SuffixNeedsInnerDot(path: string)
    ensures var n := BaseName(path);
            Suffix(path) != "" <==> exists i :: 0 < i < |n| - 1 && n[i] == '.' && '.' !in n[i + 1..]
  {
    var n := BaseName(path);
    var j := LastIndexOf(n, '.');
    LastIndexOfIsLast(n, '.');
    if Suffix(path) != "" {
      assert forall k :: j < k < |n| ==> n[j + 1..][k - j - 1] == n[k];
      assert 0 < j < |n| - 1 && n[j] == '.' && '.' !in n[j + 1..];
    } else if i :| 0 < i < |n| - 1 && n[i] == '.' && '.' !in n[i + 1..] {
      SuffixSelects(path, i);
      assert false;
    }
  }

  /** A non-empty suffix leaves a non-empty stem, and holds one dot, at
      its start, and no separator. */
  lemma SuffixShape(path: string)
    ensures Suffix(path) != [] ==> Stem(path) != [] && '/' !in Suffix(path) && '.' !in Suffix(path)[1..]
  {
    var n := BaseName(path);
    var i := LastIndexOf(n, '.');
    if 0 < i < |n| - 1 {
      var x := n[i..];
      assert Suffix(path) == x && Stem(path) == n[..i];
      BaseNameHasNoSeparator(path);
      LastIndexOfIsLast(n, '.');
      assert forall k :: 0 <= k < |x| ==> x[k] == n[i + k];
    }
  }

  /** A name made of a stem free of dots and separators and of something
      shaped like a suffix has exactly that suffix. */
  lemma SuffixAfterPlainStem(stem: string, x: string)
    requires stem != [] && '.' !in stem && '/' !in stem
    requires x == [] || (|x| >= 2 && x[0] == '.' && '.' !in x[1..] && '/' !in x)
    ensures Suffix(stem + x) == x
  {
    if x == [] {
      assert stem + x == stem;
      BaseNameOfPlainName(stem);
      LastIndexOfIs(stem, '.', -1);
    } else {
      DotSuffix(stem, x);
    }
  }

  lemma DotSuffix(stem: string, x: string)
    requires stem != [] && '.' !in stem && '/' !in stem
    requires |x| >= 2 && x[0] == '.' && '.' !in x[1..] && '/' !in x
    ensures Suffix(stem + x) == x
  {
    var name := stem + x;
    BaseNameOfPlainName(name);
    var i := |stem|;
    assert name[i..] == x && name[i + 1..] == x[1..];
    SuffixSelects(name, i);
  }

  /** A name without a separator is its own final component. */
  lemma BaseNameOfPlainName(name: string)
    requires '/' !in name
    ensures BaseName(name) == name
  {
    LastIndexOfIs(name, '/', -1);
    assert name[0..] == name;
  }

  /** Where Django stores an uploaded file: under the field's `upload_to`
      directory, which ends in a separator. */
  function StoragePath(dir: string, name: FileName): (p: string)
    requires dir == [] || dir[|dir| - 1] == '/'
    ensures |p| == |dir| + |name| && p[..|dir|] == dir && p[|dir|..] == name
  {
    dir + name
  }

  /** The final component of `dir + name` is `name` itself. */
  lemma BaseNameOfJoin(dir: string, name: FileName)
    requires dir == [] || dir[|dir| - 1] == '/'
    ensures BaseName(dir + name) == name
  {
    LastIndexOfAppend(dir, name, '/');
    assert (dir + name)[|dir|..] == name;
  }

  /** A suffix is kept by every directory it is stored under, so it can be
      compared between a stored path and an uploaded name. */
  lemma SuffixOfJoin(dir: string, name: FileName)
    requires dir == [] || dir[|dir| - 1] == '/'
    ensures Suffix(dir + name) == Suffix(name)
  {
    BaseNameOfJoin(dir, name);
    LastIndexOfIs(name, '/', -1);
    assert BaseName(name) == name[0..];
  }

  // ---------------------------------------------------------------------------
  // get_valid_filename

  /** A character `get_valid_filename` keeps: `-`, `.` and the word
      characters, taken here as the ASCII letters, digits and `_`. */
  predicate IsNameChar(c: char)
  {
    c == '-' || c == '.' || c == '_' || 'a' <= c <= 'z' || 'A' <= c <= 'Z' || '0' <= c <= '9'
  }

  /** A name the storage accepts and keeps exactly as it is. */
  predicate SafeName(name: string)
  {
    && (forall i :: 0 <= i < |name| ==> IsNameChar(name[i]))
    && name != "" && name != "." && name != ".."
  }

  /** `s.replace(' ', '_')`. */
  function Underscored(s: string): (r: string)
    ensures |r| == |s|
  {
    if s == [] then [] else [if s[0] == ' ' then '_' else s[0]] + Underscored(s[1..])
  }

  /** Every space becomes `_`; every other character stays where it is. */
  lemma {:induction false} UnderscoredAt(s: string)
    ensures forall i :: 0 <= i < |s| ==> Underscored(s)[i] == (if s[i] == ' ' then '_' else s[i])
  {
    if s != [] {
      UnderscoredAt(s[1..]);
      assert forall i :: 1 <= i < |s| ==> Underscored(s)[i] == Underscored(s[1..])[i - 1];
    }
  }

  /** `re.sub(r'[^-\w.]', '', s)`: the name characters of `s`, in order. */
  function KeepNameChars(s: string): (r: string)
    ensures |r| <= |s|
  {
    if s == [] then []
    else if IsNameChar(s[0]) then [s[0]] + KeepNameChars(s[1..])
    else KeepNameChars(s[1..])
  }

  /** What survives is made of name characters, and every name character
      of `s` survives. */
  lemma {:induction false} KeepNameCharsKeeps(s: string)
    ensures forall i :: 0 <= i < |KeepNameChars(s)| ==> IsNameChar(KeepNameChars(s)[i])
    ensures forall c :: IsNameChar(c) ==> (c in KeepNameChars(s) <==> c in s)
  {
    if s != [] {
      KeepNameCharsKeeps(s[1..]);
      assert s == [s[0]] + s[1..];
    }
  }

  /** One character survives exactly when it is a name character. */
  lemma KeepNameCharsUnit(c: char)
    ensures KeepNameChars([c]) == if IsNameChar(c) then [c] else []
  {
    assert [c][1..] == [];
  }

  /** Sanitising a concatenation sanitises each piece: what survives keeps
      its order and its count. */
  lemma {:induction false} KeepNameCharsAppend(a: string, b: string)
    ensures KeepNameChars(a + b) == KeepNameChars(a) + KeepNameChars(b)
  {
    if a == [] {
      assert a + b == b;
    } else {
      var c, rest := a[0], a[1..];
      assert a == [c] + rest && a + b == [c] + (rest + b);
      KeepNameCharsAppend(rest, b);
      KeepNameCharsCons(c, rest);
      KeepNameCharsCons(c, rest + b);
    }
  }

  /** The first character is kept or dropped on its own. */
  lemma KeepNameCharsCons(c: char, s: string)
    ensures KeepNameChars([c] + s) == KeepNameChars([c]) + KeepNameChars(s)
  {
    assert ([c] + s)[0] == c && ([c] + s)[1..] == s;
    assert [c][1..] == [];
  }

  /** Dropping the other characters changes nothing in a string made of
      name characters only. */
  lemma {:induction false} KeepNameCharsOfNameChars(s: string)
    requires forall i :: 0 <= i < |s| ==> IsNameChar(s[i])
    ensures KeepNameChars(s) == s
  {
    if s != [] {
      KeepNameCharsOfNameChars(s[1..]);
      assert [s[0]] + s[1..] == s;
    }
  }

  /** `get_valid_filename(name)`: strip surrounding whitespace, turn spaces
      into `_`, drop every remaining character that is not a name
      character, and refuse a result of "", "." or "..". */
  function ValidFileName(name: string): (r: Option<FileName>)
    ensures r.Some? ==> r.value != "" && r.value != "." && r.value != ".."
  {
    var s := KeepNameChars(Underscored(Strip(name)));
    if s == "" || s == "." || s == ".." then None
    else
      KeepNameCharsKeeps(Underscored(Strip(name)));
      assert forall i :: 0 <= i < |s| ==> s[i] != '/';
      Some(s)
  }

  /** Whatever the sanitisation returns is a safe name. */
  lemma ValidFileNameIsSafe(name: string)
    requires ValidFileName(name).Some?
    ensures SafeName(ValidFileName(name).value)
  {
    KeepNameCharsKeeps(Underscored(Strip(name)));
  }

  /** A name without surrounding whitespace is its own strip. */
  lemma StripOfTrimmed(s: string)
    requires s != [] && !IsSpace(s[0]) && !IsSpace(s[|s| - 1])
    ensures Strip(s) == s
  {
    assert LeadingSpaces(s) == 0;
  }

  /** A safe name comes through the sanitisation unchanged. */
  lemma ValidFileNameKeepsSafe(name: string)
    requires SafeName(name)
    ensures ValidFileName(name) == Some(name)
  {
    assert !IsSpace(name[0]) && !IsSpace(name[|name| - 1]) by {
      assert IsNameChar(name[0]) && IsNameChar(name[|name| - 1]);
    }
    StripOfTrimmed(name);
    UnderscoredOfNameChars(name);
    KeepNameCharsOfNameChars(name);
  }

  lemma UnderscoredOfNameChars(s: string)
    requires forall i :: 0 <= i < |s| ==> IsNameChar(s[i])
    ensures Underscored(s) == s
  {
    UnderscoredAt(s);
    forall i | 0 <= i < |s| ensures s[i] != ' ' { assert IsNameChar(s[i]); }
  }

  /** Sanitising twice gives what sanitising once does. */
  lemma ValidFileNameIdempotent(name: string)
    requires ValidFileName(name).Some?
    ensures ValidFileName(ValidFileName(name).value) == ValidFileName(name)
  {
    ValidFileNameIsSafe(name);
    ValidFileNameKeepsSafe(ValidFileName(name).value);
  }

  /** The sanitisation can change the suffix: `(.txt` has suffix `.txt`,
      but it is stored as `.txt`, which has none. */
  lemma SanitisingCanDropSuffix()
    ensures Suffix("(.txt") == ".txt"
    ensures ValidFileName("(.txt") == Some(".txt")
    ensures Suffix(".txt") == ""
  {
    SuffixOfParenName();
    SanitisedParenName();
    SuffixOfBareExtension();
  }

  lemma SuffixOfParenName()
    ensures Suffix("(.txt") == ".txt"
  {
    LastIndexOfIs("(.txt", '/', -1);
    LastIndexOfIs("(.txt", '.', 1);
  }

  lemma SanitisedParenName()
    ensures ValidFileName("(.txt") == Some(".txt")
  {
    StripOfTrimmed("(.txt");
    UnderscoredParenName();
    KeptParenName();
  }

  lemma UnderscoredParenName()
    ensures Underscored("(.txt") == "(.txt"
  {
    UnderscoredAt("(.txt");
  }

  lemma KeptParenName()
    ensures KeepNameChars("(.txt") == ".txt"
  {
    assert "(.txt"[1..] == ".txt";
    KeepNameCharsOfNameChars(".txt");
  }

  lemma SuffixOfBareExtension()
    ensures Suffix(".txt") == ""
  {
    LastIndexOfIs(".txt", '/', -1);
    LastIndexOfIs(".txt", '.', 0);
  }

  /** The edge cases of `PurePath.suffix`: an ordinary extension, the last
      of several dots, a leading dot, a trailing dot, no dot at all. */
  lemma SuffixOfPlainName()
    ensures Suffix("document/report.txt") == ".txt"
  {
    LastIndexOfIs("document/report.txt", '/', 8);
    assert BaseName("document/report.txt") == "report.txt";
    LastIndexOfIs("report.txt", '.', 6);
  }

  lemma SuffixOfDoubleExtension()
    ensures Suffix("archive.tar.gz") == ".gz"
  {
    LastIndexOfIs("archive.tar.gz", '/', -1);
    LastIndexOfIs("archive.tar.gz", '.', 11);
  }

  lemma SuffixOfHiddenFile()
    ensures Suffix("document/.bashrc") == ""
  {
    LastIndexOfIs("document/.bashrc", '/', 8);
    assert BaseName("document/.bashrc") == ".bashrc";
    LastIndexOfIs(".bashrc", '.', 0);
  }

  lemma SuffixOfTrailingDot()
    ensures Suffix("notes.") == ""
  {
    LastIndexOfIs("notes.", '/', -1);
    LastIndexOfIs("notes.", '.', 5);
  }

  lemma SuffixOnlyOfLastComponent()
    ensures Suffix("dir.d/README") == ""
  {
    LastIndexOfIs("dir.d/README", '/', 5);
    assert BaseName("dir.d/README") == "README";
    LastIndexOfIs("README", '.', -1);
  }

  lemma LastIndexOfIs(s: string, c: char, i: int)
    requires -1 <= i < |s| && (i >= 0 ==> s[i] == c)
    requires forall k :: i < k < |s| ==> s[k] != c
    ensures LastIndexOf(s, c) == i
  {
    LastIndexOfIsLast(s, c);
  }
}
