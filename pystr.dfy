/** The few Python `str` builtins the core relies on, over `string`
    (a Python `str` is a sequence of code points, a Dafny `string` a sequence of `char`). */
module PyStr {

  /** `s.startswith(prefix)` */
  predicate StartsWith(s: string, prefix: string) {
    |prefix| <= |s| && s[..|prefix|] == prefix
  }

  /** `startswith` compares position by position: the empty prefix starts every
      string, and a prefix longer than `s` starts none. */
  lemma StartsWithAt(s: string, prefix: string)
    ensures StartsWith(s, prefix)
      <==> |prefix| <= |s| && forall i :: 0 <= i < |prefix| ==> s[i] == prefix[i]
  {
  }

  /** `pat` occurs in `s` starting at index `i`. */
  predicate OccursAt(s: string, pat: string, i: nat) {
    i + |pat| <= |s| && s[i..i + |pat|] == pat
  }

  /** `s.lstrip(chars)`: `chars` is a set of characters, not a prefix. */
  function LStrip(s: string, chars: string): (r: string)
    ensures |r| <= |s|
    decreases |s|
  {
    if s != [] && s[0] in chars then LStrip(s[1..], chars) else s
  }

  /** `lstrip` keeps a suffix, removes only characters drawn from `chars`, and
      removes all of them up to the first character not drawn from `chars`. */
  lemma {:induction false} LStripSpec(s: string, chars: string)
    ensures var r := LStrip(s, chars);
      && r == s[|s| - |r|..]
      && (forall i :: 0 <= i < |s| - |r| ==> s[i] in chars)
      && (r == [] || r[0] !in chars)
    decreases |s|
  {
    if s != [] && s[0] in chars {
      LStripSpec(s[1..], chars);
    }
  }

  /** `s.rstrip(chars)` */
  function RStrip(s: string, chars: string): (r: string)
    ensures |r| <= |s|
    decreases |s|
  {
    if s != [] && s[|s| - 1] in chars then RStrip(s[..|s| - 1], chars) else s
  }

  /** `rstrip` keeps a prefix, removes only characters drawn from `chars`, and
      removes all of them back to the last character not drawn from `chars`. */
  lemma {:induction false} RStripSpec(s: string, chars: string)
    ensures var r := RStrip(s, chars);
      && r == s[..|r|]
      && (forall i :: |r| <= i < |s| ==> s[i] in chars)
      && (r == [] || r[|r| - 1] !in chars)
    decreases |s|
  {
    if s != [] && s[|s| - 1] in chars {
      RStripSpec(s[..|s| - 1], chars);
    }
  }

  /** `s.strip(chars)`: removes from both ends every character drawn from `chars`. */
  function Strip(s: string, chars: string): (r: string)
    ensures |r| <= |s|
    ensures r != [] ==> r[0] !in chars && r[|r| - 1] !in chars
  {
    var l := LStrip(s, chars);
    LStripSpec(s, chars);
    RStripSpec(l, chars);
    RStrip(l, chars)
  }

  /** The code points for which Python's `str.isspace` holds; `s.strip()` with no
      argument strips exactly these. */
  const Whitespace: string :=
    "\t\n\U{B}\U{C}\r\U{1C}\U{1D}\U{1E}\U{1F} \U{85}\U{A0}\U{1680}"
    + "\U{2000}\U{2001}\U{2002}\U{2003}\U{2004}\U{2005}\U{2006}\U{2007}\U{2008}\U{2009}\U{200A}"
    + "\U{2028}\U{2029}\U{202F}\U{205F}\U{3000}"

  /** `s.strip()` */
  function StripWhitespace(s: string): (r: string)
    ensures |r| <= |s|
    ensures r != [] ==> r[0] !in Whitespace && r[|r| - 1] !in Whitespace
  {
    Strip(s, Whitespace)
  }

  /** Strip keeps one contiguous slice of `s`: everything cut off on either side is
      drawn from `chars`, and the slice neither begins nor ends with such a character. */
  lemma StripIsMaximalTrim(s: string, chars: string)
    ensures var r := Strip(s, chars);
      var i := |s| - |LStrip(s, chars)|;
      && i + |r| <= |s|
      && r == s[i..i + |r|]
      && (forall k :: 0 <= k < i ==> s[k] in chars)
      && (forall k :: i + |r| <= k < |s| ==> s[k] in chars)
      && (r == [] || (r[0] !in chars && r[|r| - 1] !in chars))
  {
    var l := LStrip(s, chars);
    var r := RStrip(l, chars);
    var i := |s| - |l|;
    LStripSpec(s, chars);
    RStripSpec(l, chars);
    assert l == s[i..];
    assert r == l[..|r|];
    assert r == s[i..i + |r|];
    assert forall k :: i + |r| <= k < |s| ==> s[k] == l[k - i];
  }

  /** Stripping a set of characters a second time, or stripping a subset of it,
      changes nothing. */
  lemma StripSubsetNoop(s: string, chars: string, sub: string)
    requires forall c :: c in sub ==> c in chars
    ensures Strip(Strip(s, chars), sub) == Strip(s, chars)
  {
    var r := Strip(s, chars);
    StripIsMaximalTrim(s, chars);
    assert LStrip(r, sub) == r;
    assert RStrip(r, sub) == r;
  }

  /** A prefix made only of stripped characters disappears entirely. */
  lemma {:induction false} LStripPrefix(p: string, x: string, chars: string)
    requires forall k :: 0 <= k < |p| ==> p[k] in chars
    ensures LStrip(p + x, chars) == LStrip(x, chars)
    decreases |p|
  {
    if p != [] {
      assert (p + x)[1..] == p[1..] + x;
      LStripPrefix(p[1..], x, chars);
    } else {
      assert p + x == x;
    }
  }

  /** A suffix made only of stripped characters disappears entirely. */
  lemma {:induction false} RStripSuffix(x: string, q: string, chars: string)
    requires forall k :: 0 <= k < |q| ==> q[k] in chars
    ensures RStrip(x + q, chars) == RStrip(x, chars)
    decreases |q|
  {
    if q != [] {
      var q' := q[..|q| - 1];
      assert (x + q)[..|x + q| - 1] == x + q';
      RStripSuffix(x, q', chars);
    } else {
      assert x + q == x;
    }
  }

  /** The first character of `s` not drawn from `chars` is at index `k`. */
  predicate FirstKeptAt(s: string, chars: string, k: nat) {
    k < |s| && s[k] !in chars && forall j :: 0 <= j < k ==> s[j] in chars
  }

  /** `s.strip(chars)`, when not empty, begins with the first character of `s` not
      drawn from `chars`; it is empty when there is none. */
  lemma StripFirstChar(s: string, chars: string)
    ensures Strip(s, chars) != [] ==>
      (FirstKeptAt(s, chars, |s| - |LStrip(s, chars)|) && Strip(s, chars)[0] == s[|s| - |LStrip(s, chars)|])
    ensures Strip(s, chars) == [] ==> forall k :: 0 <= k < |s| ==> s[k] in chars
  {
    var r := Strip(s, chars);
    StripIsMaximalTrim(s, chars);
    var i := |s| - |LStrip(s, chars)|;
    if r != [] {
      assert r[0] == s[i];
    }
  }

  /** `s.replace(pat, rep)`: one left-to-right scan replacing non-overlapping
      occurrences; text produced by a replacement is not scanned again. An empty
      `pat` inserts `rep` before every character and at the end. */
  function ReplaceAll(s: string, pat: string, rep: string): (r: string)
    ensures pat != [] && |rep| <= |pat| ==> |r| <= |s|
  {
    if pat == [] then InsertAround(s, rep) else ReplaceScan(s, pat, rep)
  }

  /** `s.replace("", rep)`: `rep` before every character and at the end. */
  function InsertAround(s: string, rep: string): string
    decreases |s|
  {
    if s == [] then rep else rep + [s[0]] + InsertAround(s[1..], rep)
  }

  /** The scan of `s.replace(pat, rep)` for a non-empty `pat`. */
  function ReplaceScan(s: string, pat: string, rep: string): (r: string)
    requires pat != []
    ensures |rep| <= |pat| ==> |r| <= |s|
    decreases |s|
  {
    if s == [] then []
    else if StartsWith(s, pat) then rep + ReplaceScan(s[|pat|..], pat, rep)
    else [s[0]] + ReplaceScan(s[1..], pat, rep)
  }

  /** Replacing one character by another is a character-by-character map. */
  lemma {:induction false} ReplaceCharPointwise(s: string, c: char, d: char)
    ensures var r := ReplaceAll(s, [c], [d]);
      && |r| == |s|
      && forall i :: 0 <= i < |s| ==> r[i] == (if s[i] == c then d else s[i])
    decreases |s|
  {
    if s != [] {
      ReplaceCharPointwise(s[1..], c, d);
      assert StartsWith(s, [c]) <==> s[0] == c;
    }
  }

  /** Without an occurrence of a non-empty `pat`, `replace` returns its input. */
  lemma {:induction false} ReplaceAllNoOccurrence(s: string, pat: string, rep: string)
    requires pat != []
    requires forall i: nat :: !OccursAt(s, pat, i)
    ensures ReplaceAll(s, pat, rep) == s
    decreases |s|
  {
    if s != [] {
      assert !OccursAt(s, pat, 0);
      assert !StartsWith(s, pat);
      forall i: nat ensures !OccursAt(s[1..], pat, i) {
        assert !OccursAt(s, pat, i + 1);
        if i + |pat| < |s| {
          assert s[1..][i..i + |pat|] == s[i + 1..i + 1 + |pat|];
        }
      }
      ReplaceAllNoOccurrence(s[1..], pat, rep);
    }
  }

  /** A leading occurrence is consumed by the scan. */
  lemma ReplaceAllLeading(s: string, pat: string, rep: string)
    requires pat != []
    ensures ReplaceAll(pat + s, pat, rep) == rep + ReplaceAll(s, pat, rep)
  {
    assert StartsWith(pat + s, pat);
    assert (pat + s)[|pat|..] == s;
  }

  /** A character that cannot begin `pat` is copied and the scan moves on by one. */
  lemma ReplaceAllCopies(t: string, pat: string, rep: string)
    requires pat != [] && t != [] && t[0] != pat[0]
    ensures ReplaceAll(t, pat, rep) == [t[0]] + ReplaceAll(t[1..], pat, rep)
  {
    if |pat| <= |t| {
      assert t[..|pat|][0] == t[0];
    }
    ReplaceAllNoMatchHere(t, pat, rep);
  }

  /** Where no occurrence starts, the scan copies one character and moves on. */
  lemma ReplaceAllNoMatchHere(t: string, pat: string, rep: string)
    requires pat != [] && t != [] && !StartsWith(t, pat)
    ensures ReplaceAll(t, pat, rep) == [t[0]] + ReplaceAll(t[1..], pat, rep)
  {
  }

  /** Characters that cannot begin `pat` are copied through by the scan. */
  lemma ReplaceAllSkips(s: string, rest: string, pat: string, rep: string)
    requires pat != [] && pat[0] !in s
    ensures ReplaceAll(s + rest, pat, rep) == s + ReplaceAll(rest, pat, rep)
  {
    var t := s + rest;
    assert t[..|s|] == s && t[|s|..] == rest;
    ReplaceAllSkipsPrefix(t, |s|, pat, rep);
  }

  /** The first `k` characters of `t`, none of which can begin `pat`, are copied. */
  lemma {:induction false} ReplaceAllSkipsPrefix(t: string, k: nat, pat: string, rep: string)
    requires k <= |t| && pat != [] && pat[0] !in t[..k]
    ensures ReplaceAll(t, pat, rep) == t[..k] + ReplaceAll(t[k..], pat, rep)
    decreases k
  {
    if k == 0 {
      assert t[..k] == [] && t[k..] == t;
    } else {
      var u := t[k - 1..];
      assert t[..k - 1] + [t[k - 1]] == t[..k];
      assert pat[0] !in t[..k - 1];
      ReplaceAllSkipsPrefix(t, k - 1, pat, rep);
      assert u[0] == t[k - 1] && u[1..] == t[k..];
      ReplaceAllCopies(u, pat, rep);
      var tail := ReplaceAll(t[k..], pat, rep);
      assert t[..k - 1] + ([t[k - 1]] + tail) == t[..k] + tail;
    }
  }

  /** `'0' <= c <= '9'` */
  predicate IsDigit(c: char) {
    '0' <= c <= '9'
  }

  function DigitChar(d: nat): (c: char)
    requires d < 10
    ensures IsDigit(c) && (c as int) - ('0' as int) == d
  {
    (('0' as int) + d) as char
  }

  /** `str(n)` for a non-negative integer: its decimal digits, most significant
      first, without leading zeros. */
  function Decimal(n: nat): (r: string)
    ensures r != []
    ensures forall i :: 0 <= i < |r| ==> IsDigit(r[i])
    ensures r[0] == '0' ==> n == 0
    decreases n
  {
    if n < 10 then [DigitChar(n)] else Decimal(n / 10) + [DigitChar(n % 10)]
  }

  function DigitValue(c: char): (d: nat)
    requires IsDigit(c)
    ensures d < 10
  {
    (c as int) - ('0' as int)
  }

  /** `int(s)` for a string of decimal digits. */
  function ParseDecimal(s: string): nat
    requires forall i :: 0 <= i < |s| ==> IsDigit(s[i])
    decreases |s|
  {
    if s == [] then 0
    else ParseDecimal(s[..|s| - 1]) * 10 + DigitValue(s[|s| - 1])
  }

  /** `int(str(n)) == n` */
  lemma {:induction false} DecimalRoundTrip(n: nat)
    ensures ParseDecimal(Decimal(n)) == n
    decreases n
  {
    if n >= 10 {
      DecimalRoundTrip(n / 10);
      var r := Decimal(n);
      assert r[..|r| - 1] == Decimal(n / 10);
    }
  }
}
