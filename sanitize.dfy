/** `sanitize_filename` in its four whole-string steps: spaces to `_`, the nine
    characters `< > : " / \ | ? *` to `_`, runs of `_` collapsed to one, and `_`
    stripped from both ends. Nothing else is changed: `..`, control characters and
    device names such as `CON` pass through. */
module Filenames {
  import opened PyStr

  /** The character class of the second substitution. */
  const Reserved: string := "<>:\"/\\|?*"

  predicate IsReserved(c: char) {
    c in Reserved
  }

  /** Characters that end up as (or already are) the separator `_`. */
  predicate IsSeparator(c: char) {
    c == ' ' || c == '_' || IsReserved(c)
  }

  /** Step 2: `re.sub(r'[<>:"/\\|?*]', '_', s)` */
  function SubReserved(s: string): (r: string)
    ensures |r| == |s|
    ensures forall i :: 0 <= i < |s| ==> !IsReserved(r[i])
    ensures forall i :: 0 <= i < |s| && !IsReserved(s[i]) ==> r[i] == s[i]
    decreases |s|
  {
    if s == [] then [] else [if IsReserved(s[0]) then '_' else s[0]] + SubReserved(s[1..])
  }

  /** Step 3: `re.sub(r'_+', '_', s)`. The regex scans left to right and its greedy
      `_+` takes a whole run at once, which is then written as a single `_`. */
  function CollapseUnderscores(s: string): (r: string)
    ensures |r| <= |s|
    ensures forall i :: 0 <= i < |r| ==> r[i] in s
    ensures (r == []) == (s == [])
    ensures r != [] ==> r[0] == s[0]
    ensures forall i :: 0 <= i < |r| - 1 ==> r[i] != '_' || r[i + 1] != '_'
    decreases |s|
  {
    if s == [] then []
    else if s[0] == '_' then
      LStripSpec(s, "_");
      "_" + CollapseUnderscores(LStrip(s, "_"))
    else [s[0]] + CollapseUnderscores(s[1..])
  }

  /** `sanitize_filename(filename)` */
  function Sanitize(filename: string): (r: string)
    ensures |r| <= |filename|
    ensures r != [] ==> r[0] != '_' && r[|r| - 1] != '_'
  {
    var spaced := ReplaceAll(filename, " ", "_");
    var substituted := SubReserved(spaced);
    var collapsed := CollapseUnderscores(substituted);
    Strip(collapsed, "_")
  }

  // ---------------------------------------------------------------------------
  // A reference definition: the words of the input joined by single underscores

  /** A maximal run of characters that the sanitiser keeps. */
  predicate IsWord(w: string) {
    w != [] && forall j :: 0 <= j < |w| ==> !IsSeparator(w[j])
  }

  /** The maximal runs of non-separator characters of `s`, left to right. */
  function Words(s: string): (ws: seq<string>)
    ensures s != [] && !IsSeparator(s[0]) ==> ws != []
    decreases |s|
  {
    if s == [] then []
    else
      var rest := Words(s[1..]);
      if IsSeparator(s[0]) then rest
      else if |s| > 1 && !IsSeparator(s[1]) then [[s[0]] + rest[0]] + rest[1..]
      else [[s[0]]] + rest
  }

  /** Every word is a non-empty run of kept characters. */
  lemma {:induction false} WordsAreWords(s: string)
    ensures forall k :: 0 <= k < |Words(s)| ==> IsWord(Words(s)[k])
    decreases |s|
  {
    if s != [] {
      WordsAreWords(s[1..]);
    }
  }

  /** `'_'.join(ws)` */
  function JoinWords(ws: seq<string>): string
    decreases |ws|
  {
    if ws == [] then []
    else if |ws| == 1 then ws[0]
    else ws[0] + "_" + JoinWords(ws[1..])
  }

  /** The characters of `s` that are neither separators nor reserved, in order. */
  function WordChars(s: string): string
    decreases |s|
  {
    if s == [] then []
    else if IsSeparator(s[0]) then WordChars(s[1..])
    else [s[0]] + WordChars(s[1..])
  }

  /** `ws[0] + ws[1] + ...` */
  function Concat(ws: seq<string>): string
    decreases |ws|
  {
    if ws == [] then [] else ws[0] + Concat(ws[1..])
  }

  /** No space and no reserved character. */
  predicate NoForbiddenChars(r: string) {
    forall i :: 0 <= i < |r| ==> r[i] != ' ' && !IsReserved(r[i])
  }

  /** No two consecutive underscores. */
  predicate NoDoubleUnderscore(r: string) {
    forall i :: 0 <= i < |r| - 1 ==> r[i] != '_' || r[i + 1] != '_'
  }

  /** A sanitised name: no space or reserved character, no `__`, no `_` at either end. */
  predicate IsClean(r: string) {
    && NoForbiddenChars(r)
    && NoDoubleUnderscore(r)
    && (r != [] ==> r[0] != '_' && r[|r| - 1] != '_')
  }

  // ---------------------------------------------------------------------------
  // Words are unaffected by each step

  /** Two strings with separators at the same places and equal characters elsewhere
      have the same words. */
  lemma {:induction false} WordsSameShape(x: string, y: string)
    requires |x| == |y|
    requires forall i :: 0 <= i < |x| ==> IsSeparator(x[i]) == IsSeparator(y[i])
    requires forall i :: 0 <= i < |x| && !IsSeparator(x[i]) ==> x[i] == y[i]
    ensures Words(x) == Words(y)
    decreases |x|
  {
    if x != [] {
      WordsSameShape(x[1..], y[1..]);
    }
  }

  /** Dropping a leading run of `_` keeps the words. */
  lemma {:induction false} WordsLStrip(s: string)
    ensures Words(LStrip(s, "_")) == Words(s)
    decreases |s|
  {
    if s != [] && s[0] == '_' {
      WordsLStrip(s[1..]);
    }
  }

  /** Appending a separator keeps the words. */
  lemma {:induction false} WordsAppendSeparator(s: string, c: char)
    requires IsSeparator(c)
    ensures Words(s + [c]) == Words(s)
    decreases |s|
  {
    if s != [] {
      assert (s + [c])[1..] == s[1..] + [c];
      WordsAppendSeparator(s[1..], c);
    } else {
      assert Words([c]) == Words([c][1..]);
    }
  }

  /** Dropping a trailing run of `_` keeps the words. */
  lemma {:induction false} WordsRStrip(s: string)
    ensures Words(RStrip(s, "_")) == Words(s)
    decreases |s|
  {
    if s != [] && s[|s| - 1] == '_' {
      var p := s[..|s| - 1];
      WordsRStrip(p);
      assert s == p + ['_'];
      WordsAppendSeparator(p, '_');
    }
  }

  /** Collapsing runs of `_` keeps the words. */
  lemma {:induction false} WordsCollapse(s: string)
    ensures Words(CollapseUnderscores(s)) == Words(s)
    decreases |s|
  {
    if s == [] {
    } else if s[0] == '_' {
      var t := LStrip(s, "_");
      WordsCollapse(t);
      WordsLStrip(s);
      assert ("_" + CollapseUnderscores(t))[1..] == CollapseUnderscores(t);
    } else {
      WordsCollapse(s[1..]);
      var c := CollapseUnderscores(s[1..]);
      assert ([s[0]] + c)[1..] == c;
    }
  }

  /** The first two steps send every separator to `_` and keep every other character. */
  lemma NormalizePointwise(s: string)
    ensures var n := SubReserved(ReplaceAll(s, " ", "_"));
      && |n| == |s|
      && forall i :: 0 <= i < |s| ==> n[i] == (if IsSeparator(s[i]) then '_' else s[i])
  {
    ReplaceCharPointwise(s, ' ', '_');
    var sp := ReplaceAll(s, " ", "_");
    var n := SubReserved(sp);
    forall i | 0 <= i < |s| ensures n[i] == (if IsSeparator(s[i]) then '_' else s[i]) {
      assert sp[i] == (if s[i] == ' ' then '_' else s[i]);
      if IsReserved(sp[i]) {
        assert n[i] == '_' by {
          // the i-th step of the substitution
          assert SubReserved(sp)[i] == '_' by { SubReservedAt(sp, i); }
        }
      }
    }
  }

  /** The i-th character of the reserved-character substitution. */
  lemma {:induction false} SubReservedAt(s: string, i: nat)
    requires i < |s|
    ensures SubReserved(s)[i] == (if IsReserved(s[i]) then '_' else s[i])
    decreases |s|
  {
    if i > 0 {
      SubReservedAt(s[1..], i - 1);
    }
  }

  /** Every step keeps the words of the input. */
  lemma WordsOfSanitize(s: string)
    ensures Words(Sanitize(s)) == Words(s)
  {
    NormalizePointwise(s);
    var n := SubReserved(ReplaceAll(s, " ", "_"));
    WordsSameShape(s, n);
    var c := CollapseUnderscores(n);
    WordsCollapse(n);
    WordsLStrip(c);
    WordsRStrip(LStrip(c, "_"));
  }

  // ---------------------------------------------------------------------------
  // The sanitised name is clean, and a clean name is its words joined by `_`

  /** After the two substitutions no space or reserved character is left. */
  lemma NormalizedHasNoForbiddenChars(s: string)
    ensures NoForbiddenChars(SubReserved(ReplaceAll(s, " ", "_")))
  {
    NormalizePointwise(s);
  }

  /** Collapsing adds no character that was not there and leaves no `__`. */
  lemma CollapseKeepsNoForbiddenChars(n: string)
    requires NoForbiddenChars(n)
    ensures NoForbiddenChars(CollapseUnderscores(n)) && NoDoubleUnderscore(CollapseUnderscores(n))
  {
    var c := CollapseUnderscores(n);
    forall k | 0 <= k < |c| ensures c[k] != ' ' && !IsReserved(c[k]) {
      assert c[k] in n;
      var j :| 0 <= j < |n| && n[j] == c[k];
    }
  }

  /** Stripping `_` from a string without forbidden characters or `__` yields a clean one. */
  lemma StripMakesClean(c: string)
    requires NoForbiddenChars(c) && NoDoubleUnderscore(c)
    ensures IsClean(Strip(c, "_"))
  {
    var l := LStrip(c, "_");
    LStripSpec(c, "_");
    SliceKeepsClean(c, |c| - |l|, |c|);
    var r := RStrip(l, "_");
    RStripSpec(l, "_");
    SliceKeepsClean(l, 0, |r|);
  }

  /** Any slice of a string without forbidden characters or `__` has neither. */
  lemma SliceKeepsClean(c: string, i: nat, j: nat)
    requires i <= j <= |c|
    requires NoForbiddenChars(c) && NoDoubleUnderscore(c)
    ensures NoForbiddenChars(c[i..j]) && NoDoubleUnderscore(c[i..j])
  {
    var r := c[i..j];
    assert forall k :: 0 <= k < |r| ==> r[k] == c[i + k];
  }

  /** `sanitize_filename` yields no space or reserved character, no `__`, and no
      `_` at either end. */
  lemma SanitizeIsClean(s: string)
    ensures IsClean(Sanitize(s))
  {
    var n := SubReserved(ReplaceAll(s, " ", "_"));
    NormalizedHasNoForbiddenChars(s);
    CollapseKeepsNoForbiddenChars(n);
    StripMakesClean(CollapseUnderscores(n));
  }

  /** A clean name is recovered from its own words. */
  lemma {:induction false} CleanIsJoinOfWords(r: string)
    requires IsClean(r)
    ensures JoinWords(Words(r)) == r
    decreases |r|
  {
    if r == [] {
    } else if |r| == 1 {
      assert Words(r) == [[r[0]]] + Words(r[1..]);
    } else if r[1] != '_' {
      var x := r[1..];
      assert IsClean(x);
      CleanIsJoinOfWords(x);
      var wx := Words(x);
      assert Words(r) == [[r[0]] + wx[0]] + wx[1..];
      JoinConsChar(r[0], wx);
      assert x == JoinWords(wx);
    } else {
      var y := r[2..];
      assert r[1..][1..] == y;
      assert IsClean(y);
      CleanIsJoinOfWords(y);
      assert Words(r[1..]) == Words(y);
      assert Words(r) == [[r[0]]] + Words(y);
      assert JoinWords([[r[0]]] + Words(y)) == [r[0]] + "_" + JoinWords(Words(y));
      assert r == [r[0]] + "_" + y;
    }
  }

  /** Prefixing the first word by a character prefixes the joined string. */
  lemma JoinConsChar(c: char, ws: seq<string>)
    requires ws != []
    ensures JoinWords([[c] + ws[0]] + ws[1..]) == [c] + JoinWords(ws)
  {
    var vs := [[c] + ws[0]] + ws[1..];
    assert vs[1..] == ws[1..];
  }

  /** `sanitize_filename` equals the reference definition: the maximal runs of
      characters that are neither spaces, reserved characters nor `_`, joined by a
      single `_`. */
  lemma SanitizeIsJoinOfWords(s: string)
    ensures Sanitize(s) == JoinWords(Words(s))
  {
    SanitizeIsClean(s);
    CleanIsJoinOfWords(Sanitize(s));
    WordsOfSanitize(s);
  }

  // ---------------------------------------------------------------------------
  // Consequences

  /** Sanitising twice is sanitising once. */
  lemma SanitizeIdempotent(s: string)
    ensures Sanitize(Sanitize(s)) == Sanitize(s)
  {
    SanitizeIsJoinOfWords(s);
    SanitizeIsJoinOfWords(Sanitize(s));
    WordsOfSanitize(s);
  }

  /** The characters of `s` that are kept are exactly its words, concatenated. */
  lemma {:induction false} WordCharsAreWords(s: string)
    ensures WordChars(s) == Concat(Words(s))
    decreases |s|
  {
    if s != [] {
      WordCharsAreWords(s[1..]);
      var rest := Words(s[1..]);
      if !IsSeparator(s[0]) && |s| > 1 && !IsSeparator(s[1]) {
        var vs := [[s[0]] + rest[0]] + rest[1..];
        assert vs[1..] == rest[1..];
        assert rest == [rest[0]] + rest[1..];
        assert Concat(rest) == rest[0] + Concat(rest[1..]);
      } else if !IsSeparator(s[0]) {
        assert ([[s[0]]] + rest)[1..] == rest;
      }
    }
  }

  /** Every character that is not a space, reserved or `_` survives, in its original
      order, and nothing else but `_` appears in the result. */
  lemma SanitizeKeepsWordChars(s: string)
    ensures WordChars(Sanitize(s)) == WordChars(s)
  {
    WordCharsAreWords(s);
    WordCharsAreWords(Sanitize(s));
    WordsOfSanitize(s);
  }

  /** A name made only of spaces, reserved characters and `_` sanitises to "". */
  lemma SanitizeOnlySeparators(s: string)
    requires forall i :: 0 <= i < |s| ==> IsSeparator(s[i])
    ensures Sanitize(s) == ""
  {
    SanitizeIsJoinOfWords(s);
    NoWords(s);
  }

  lemma {:induction false} NoWords(s: string)
    requires forall i :: 0 <= i < |s| ==> IsSeparator(s[i])
    ensures Words(s) == []
    decreases |s|
  {
    if s != [] {
      NoWords(s[1..]);
    }
  }

  /** A separator splits the words. */
  lemma {:induction false} WordsSplit(a: string, c: char, b: string)
    requires IsSeparator(c)
    ensures Words(a + [c] + b) == Words(a) + Words(b)
    decreases |a|
  {
    if a == [] {
      assert [c] + b == a + [c] + b;
      assert ([c] + b)[1..] == b;
    } else {
      var t := a[1..] + [c] + b;
      assert (a + [c] + b)[1..] == t;
      assert (a + [c] + b)[0] == a[0];
      WordsSplit(a[1..], c, b);
      if |a| > 1 {
        assert t[0] == a[1];
      } else {
        assert t[0] == c;
      }
    }
  }

  /** A word is its own only word. */
  lemma {:induction false} WordsOfWord(w: string)
    requires IsWord(w)
    ensures Words(w) == [w]
    decreases |w|
  {
    if |w| > 1 {
      assert IsWord(w[1..]);
      WordsOfWord(w[1..]);
      assert [w[0]] + w[1..] == w;
    } else {
      assert w[1..] == [];
      assert w == [w[0]];
    }
  }

  /** The words of `a + [c] + b` for a word `a`, a separator `c` and any `b`. */
  lemma WordsWordThenRest(a: string, c: char, b: string)
    requires IsWord(a) && IsSeparator(c)
    ensures Words(a + [c] + b) == [a] + Words(b)
  {
    WordsOfWord(a);
    WordsSplit(a, c, b);
  }

  /** The words of five words separated by single separators. */
  lemma WordsOfFive(w1: string, w2: string, w3: string, w4: string, w5: string,
                    c1: char, c2: char, c3: char, c4: char)
    requires IsWord(w1) && IsWord(w2) && IsWord(w3) && IsWord(w4) && IsWord(w5)
    requires IsSeparator(c1) && IsSeparator(c2) && IsSeparator(c3) && IsSeparator(c4)
    ensures Words(w1 + [c1] + (w2 + [c2] + (w3 + [c3] + (w4 + [c4] + w5)))) == [w1, w2, w3, w4, w5]
  {
    var t4 := w4 + [c4] + w5;
    var t3 := w3 + [c3] + t4;
    var t2 := w2 + [c2] + t3;
    WordsOfWord(w5);
    WordsWordThenRest(w4, c4, w5);
    WordsWordThenRest(w3, c3, t4);
    WordsWordThenRest(w2, c2, t3);
    WordsWordThenRest(w1, c1, t2);
  }

  /** Five words joined by `_`. */
  lemma JoinOfFive(w1: string, w2: string, w3: string, w4: string, w5: string)
    ensures JoinWords([w1, w2, w3, w4, w5]) == w1 + "_" + (w2 + "_" + (w3 + "_" + (w4 + "_" + w5)))
  {
    assert JoinWords([w4, w5]) == w4 + "_" + w5 by {
      assert [w4, w5][1..] == [w5];
    }
    assert JoinWords([w3, w4, w5]) == w3 + "_" + JoinWords([w4, w5]) by {
      assert [w3, w4, w5][1..] == [w4, w5];
    }
    assert JoinWords([w2, w3, w4, w5]) == w2 + "_" + JoinWords([w3, w4, w5]) by {
      assert [w2, w3, w4, w5][1..] == [w3, w4, w5];
    }
    assert [w1, w2, w3, w4, w5][1..] == [w2, w3, w4, w5];
  }

  /** The five words of the first docstring example, and its four separators. */
  lemma FirstExampleWords()
    ensures IsWord("invalid") && IsWord("file") && IsWord("name") && IsWord("example") && IsWord(".txt")
    ensures IsSeparator(':') && IsSeparator('/') && IsSeparator('*') && IsSeparator('?')
  {
  }

  /** The first docstring example is its five words with a reserved character
      between each two. */
  lemma FirstExampleSplit()
    ensures "invalid" + [':'] + ("file" + ['/'] + ("name" + ['*'] + ("example" + ['?'] + ".txt")))
      == "invalid:file/name*example?.txt"
  {
    var t4 := "example" + ['?'] + ".txt";
    assert t4 == "example?.txt";
    var t3 := "name" + ['*'] + t4;
    assert t3 == "name*example?.txt";
    var t2 := "file" + ['/'] + t3;
    assert t2 == "file/name*example?.txt";
  }

  lemma WordsOfFirstExample()
    ensures Words("invalid:file/name*example?.txt") == ["invalid", "file", "name", "example", ".txt"]
  {
    FirstExampleWords();
    FirstExampleSplit();
    WordsOfFive("invalid", "file", "name", "example", ".txt", ':', '/', '*', '?');
  }

  lemma JoinOfFirstExample()
    ensures JoinWords(["invalid", "file", "name", "example", ".txt"]) == "invalid_file_name_example_.txt"
  {
    JoinOfFive("invalid", "file", "name", "example", ".txt");
  }

  /** The first example of the docstring. */
  lemma SanitizeDocExampleReserved()
    ensures Sanitize("invalid:file/name*example?.txt") == "invalid_file_name_example_.txt"
  {
    SanitizeIsJoinOfWords("invalid:file/name*example?.txt");
    WordsOfFirstExample();
    JoinOfFirstExample();
  }

  /** The words of two words separated by a single separator. */
  lemma WordsOfTwo(w1: string, c: char, w2: string)
    requires IsWord(w1) && IsWord(w2) && IsSeparator(c)
    ensures Words(w1 + [c] + w2) == [w1, w2]
  {
    WordsOfWord(w2);
    WordsWordThenRest(w1, c, w2);
  }

  lemma WordsOfSecondExample()
    ensures Words("valid filename.txt") == ["valid", "filename.txt"]
  {
    assert "valid" + [' '] + "filename.txt" == "valid filename.txt";
    WordsOfTwo("valid", ' ', "filename.txt");
  }

  lemma JoinOfSecondExample()
    ensures JoinWords(["valid", "filename.txt"]) == "valid_filename.txt"
  {
    assert ["valid", "filename.txt"][1..] == ["filename.txt"];
  }

  /** The second example of the docstring. */
  lemma SanitizeDocExampleSpace()
    ensures Sanitize("valid filename.txt") == "valid_filename.txt"
  {
    SanitizeIsJoinOfWords("valid filename.txt");
    WordsOfSecondExample();
    JoinOfSecondExample();
  }
}
