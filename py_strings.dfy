/**
 * The handful of Python `str` operations the tutor relies on, written out with
 * Python's semantics: `split()` with no argument, `sep.join(...)`, `strip()`,
 * `lower()`, `capitalize()`, `title()`, `pat in s` and `s.split(pat, 1)[1]`.
 * Case mapping covers the ASCII letters only.
 */
module PyStrings {
  import opened Wrappers

  /** The characters Python's `str.isspace()` accepts, which `split()` and `strip()` remove. */
  predicate IsSpace(c: char) {
    c == ' ' || ('\t' <= c <= '\r') || ('\U{1c}' <= c <= '\U{1f}')
    || c == '\U{85}' || c == '\U{a0}' || c == '\U{1680}'
    || ('\U{2000}' <= c <= '\U{200a}') || c == '\U{2028}' || c == '\U{2029}'
    || c == '\U{202f}' || c == '\U{205f}' || c == '\U{3000}'
  }

  predicate NoSpace(w: string) {
    forall i :: 0 <= i < |w| ==> !IsSpace(w[i])
  }

  /** Length of the leading run of non-whitespace characters of `s`. */
  function WordEnd(s: string): (k: nat)
    ensures k <= |s|
    ensures NoSpace(s[..k])
    ensures k < |s| ==> IsSpace(s[k])
  {
    if s == [] || IsSpace(s[0]) then 0
    else
      var k := 1 + WordEnd(s[1..]);
      assert s[..k] == [s[0]] + s[1..][..k - 1];
      k
  }

  /** `s.split()`: the maximal runs of non-whitespace characters of `s`, in order. */
  function SplitWhitespace(s: string): (words: seq<string>)
    ensures forall i :: 0 <= i < |words| ==> words[i] != [] && NoSpace(words[i])
    decreases |s|
  {
    if s == [] then []
    else if IsSpace(s[0]) then SplitWhitespace(s[1..])
    else
      var k := WordEnd(s);
      [s[..k]] + SplitWhitespace(s[k..])
  }

  /**
   * `sep.join(parts)` for a one-element separator, over any element type: every
   * part, and one separator between each two.
   */
  function Join<T>(sep: T, parts: seq<seq<T>>): (r: seq<T>)
    ensures |parts| > 0 ==> |r| == TotalLength(parts) + |parts| - 1
  {
    if |parts| == 0 then []
    else if |parts| == 1 then parts[0]
    else parts[0] + [sep] + Join(sep, parts[1..])
  }

  /** Sum of the lengths of `parts`. */
  function TotalLength<T>(parts: seq<seq<T>>): nat
  {
    if parts == [] then 0 else |parts[0]| + TotalLength(parts[1..])
  }

  /** Joining one more part appends a separator and that part. */
  lemma {:induction false} JoinSnoc<T>(sep: T, parts: seq<seq<T>>, p: seq<T>)
    requires |parts| > 0
    ensures Join(sep, parts + [p]) == Join(sep, parts) + [sep] + p
  {
    if |parts| == 1 {
      assert parts + [p] == [parts[0], p];
    } else {
      assert (parts + [p])[1..] == parts[1..] + [p];
      JoinSnoc(sep, parts[1..], p);
    }
  }

  /** A word is read back up to the whitespace that follows it. */
  lemma WordEndOfWord(w: string, rest: string)
    requires w != [] && NoSpace(w)
    requires rest == [] || IsSpace(rest[0])
    ensures WordEnd(w + rest) == |w|
  {
    var s := w + rest;
    var k := WordEnd(s);
    assert forall i :: 0 <= i < |w| ==> !IsSpace(s[i]);
    assert forall i :: 0 <= i < k ==> !IsSpace(s[i]);
    assert rest != [] ==> IsSpace(s[|w|]);
  }

  /**
   * `' '.join(words).split() == words` for words that are non-empty and hold no
   * whitespace: splitting undoes joining.
   */
  lemma {:induction false} SplitJoin(words: seq<string>)
    requires forall i :: 0 <= i < |words| ==> words[i] != [] && NoSpace(words[i])
    ensures SplitWhitespace(Join(' ', words)) == words
  {
    if |words| == 1 {
      assert words[0] + [] == words[0];
      WordEndOfWord(words[0], []);
      assert words[0][|words[0]|..] == [];
    } else if |words| > 1 {
      var w, rest := words[0], Join(' ', words[1..]);
      var s := w + [' '] + rest;
      assert s == w + ([' '] + rest);
      WordEndOfWord(w, [' '] + rest);
      assert s[..|w|] == w;
      assert s[|w|..] == [' '] + rest;
      assert ([' '] + rest)[1..] == rest;
      SplitJoin(words[1..]);
      assert words == [w] + words[1..];
    }
  }

  /** `s.lstrip()`. */
  function StripLeft(s: string): (r: string)
    ensures r == [] || !IsSpace(r[0])
    ensures |r| <= |s| && r == s[|s| - |r|..] && AllSpace(s[..|s| - |r|])
    decreases |s|
  {
    if s != [] && IsSpace(s[0]) then
      var r := StripLeft(s[1..]);
      SpaceBefore(s, r);
      r
    else
      assert s[..0] == [];
      s
  }

  /** A whitespace character before a suffix whose prefix is all whitespace keeps it so. */
  lemma SpaceBefore(s: string, r: string)
    requires s != [] && IsSpace(s[0])
    requires |r| <= |s| - 1 && r == s[1..][|s| - 1 - |r|..] && AllSpace(s[1..][..|s| - 1 - |r|])
    ensures r == s[|s| - |r|..] && AllSpace(s[..|s| - |r|])
  {
    assert s[..|s| - |r|] == [s[0]] + s[1..][..|s| - 1 - |r|];
    AllSpaceAround([s[0]], s[1..][..|s| - 1 - |r|], []);
  }

  /** `s.rstrip()`. */
  function StripRight(s: string): (r: string)
    ensures r == [] || !IsSpace(r[|r| - 1])
    ensures |r| <= |s| && r == s[..|r|] && AllSpace(s[|r|..])
    decreases |s|
  {
    if s != [] && IsSpace(s[|s| - 1]) then
      var r := StripRight(s[..|s| - 1]);
      SpaceAfter(s, r);
      r
    else
      assert s[|s|..] == [];
      s
  }

  /** A whitespace character after a prefix whose rest is all whitespace keeps it so. */
  lemma SpaceAfter(s: string, r: string)
    requires s != [] && IsSpace(s[|s| - 1])
    requires |r| <= |s| - 1 && r == s[..|s| - 1][..|r|] && AllSpace(s[..|s| - 1][|r|..])
    ensures r == s[..|r|] && AllSpace(s[|r|..])
  {
    assert s[|r|..] == s[..|s| - 1][|r|..] + [s[|s| - 1]];
    AllSpaceAround([], s[..|s| - 1][|r|..], [s[|s| - 1]]);
  }

  predicate AllSpace(s: string) {
    forall j :: 0 <= j < |s| ==> IsSpace(s[j])
  }

  lemma AllSpaceAround(a: string, b: string, c: string)
    requires AllSpace(a) && AllSpace(b) && AllSpace(c)
    ensures AllSpace(a + b + c)
  {
    var s := a + b + c;
    forall j | 0 <= j < |s|
      ensures IsSpace(s[j])
    {
      if j < |a| {
        assert s[j] == a[j];
      } else if j < |a| + |b| {
        assert s[j] == b[j - |a|];
      } else {
        assert s[j] == c[j - |a| - |b|];
      }
    }
  }

  /**
   * `w` is the first word of `s`, found at index `k`: only whitespace comes
   * before it, and it ends at the end of `s` or at a whitespace character.
   */
  predicate WordAt(s: string, w: string, k: nat) {
    k + |w| <= |s| && AllSpace(s[..k]) && s[k..k + |w|] == w
    && (k + |w| == |s| || IsSpace(s[k + |w|]))
  }

  /** `s.split()` is empty exactly when `s` is all whitespace. */
  lemma {:induction false} SplitAllSpace(s: string)
    ensures SplitWhitespace(s) == [] <==> AllSpace(s)
    decreases |s|
  {
    if s != [] && IsSpace(s[0]) {
      SplitAllSpace(s[1..]);
      assert AllSpace(s) <==> AllSpace(s[1..]) by {
        assert forall j :: 0 <= j < |s| - 1 ==> s[1..][j] == s[j + 1];
      }
    }
  }

  /** `s.split()[0]` is the first word of `s`, and `k` is where it starts. */
  lemma {:induction false} SplitFirstWord(s: string) returns (k: nat)
    requires SplitWhitespace(s) != []
    ensures WordAt(s, SplitWhitespace(s)[0], k)
    decreases |s|
  {
    if IsSpace(s[0]) {
      var t := s[1..];
      var w := SplitWhitespace(t)[0];
      assert SplitWhitespace(s) == SplitWhitespace(t);
      var k' := SplitFirstWord(t);
      WordAtShift(s, w, k');
      k := k' + 1;
    } else {
      k := 0;
      var e := WordEnd(s);
      assert SplitWhitespace(s)[0] == s[..e];
      assert s[0..0 + e] == s[..e];
      assert s[..0] == [];
    }
  }

  /** A word found after the first character is found one place later in the whole text, if that character is whitespace. */
  lemma WordAtShift(s: string, w: string, k: nat)
    requires s != [] && IsSpace(s[0]) && WordAt(s[1..], w, k)
    ensures WordAt(s, w, k + 1)
  {
    var t := s[1..];
    assert forall j :: 0 <= j < |t| ==> t[j] == s[j + 1];
    assert s[k + 1..k + 1 + |w|] == t[k..k + |w|];
    assert s[..k + 1] == [s[0]] + t[..k] + [];
    AllSpaceAround([s[0]], t[..k], []);
  }

  /** A single word with no whitespace around it splits into itself. */
  lemma SplitOneWord(w: string)
    requires w != [] && NoSpace(w)
    ensures SplitWhitespace(w) == [w]
  {
    SplitJoin([w]);
  }

  /** `s.strip()`: `s` without its leading and trailing whitespace. */
  function Strip(s: string): (r: string)
    ensures r == [] || (!IsSpace(r[0]) && !IsSpace(r[|r| - 1]))
    ensures |r| <= |s|
  {
    StripRight(StripLeft(s))
  }

  /** Leading whitespace does not change what `split()` yields. */
  lemma {:induction false} SplitStripLeft(s: string)
    ensures SplitWhitespace(StripLeft(s)) == SplitWhitespace(s)
    decreases |s|
  {
    if s != [] && IsSpace(s[0]) {
      SplitStripLeft(s[1..]);
    }
  }

  /** One more trailing whitespace character does not change what `split()` yields. */
  lemma {:induction false} SplitTrailingSpace(s: string, c: char)
    requires IsSpace(c)
    ensures SplitWhitespace(s + [c]) == SplitWhitespace(s)
    decreases |s|
  {
    var t := s + [c];
    if s == [] {
      assert t[1..] == [];
    } else if IsSpace(s[0]) {
      assert t[1..] == s[1..] + [c];
      SplitTrailingSpace(s[1..], c);
    } else {
      var k := WordEnd(s);
      assert t[..k] == s[..k];
      if k < |s| {
        assert t == s[..k] + (s[k..] + [c]);
        WordEndOfWord(s[..k], s[k..] + [c]);
        assert t[k..] == s[k..] + [c];
        SplitTrailingSpace(s[k..], c);
      } else {
        assert s[..k] == s;
        WordEndOfWord(s, [c]);
        assert t[k..] == [c];
        assert [c][1..] == [];
        assert s[k..] == [];
      }
    }
  }

  /** Trailing whitespace does not change what `split()` yields. */
  lemma {:induction false} SplitStripRight(s: string)
    ensures SplitWhitespace(StripRight(s)) == SplitWhitespace(s)
    decreases |s|
  {
    if s != [] && IsSpace(s[|s| - 1]) {
      var init := s[..|s| - 1];
      assert s == init + [s[|s| - 1]];
      SplitTrailingSpace(init, s[|s| - 1]);
      SplitStripRight(init);
    }
  }

  /** `s.strip().split() == s.split()`. */
  lemma SplitStrip(s: string)
    ensures SplitWhitespace(Strip(s)) == SplitWhitespace(s)
  {
    SplitStripRight(StripLeft(s));
    SplitStripLeft(s);
  }

  /** `pat` occurs in `s` starting at index `i`. */
  predicate OccursAt(s: string, pat: string, i: nat) {
    i + |pat| <= |s| && s[i..i + |pat|] == pat
  }

  /** The first index at or after `start` where `pat` occurs in `s`. */
  function FindFrom(s: string, pat: string, start: nat): (r: Option<nat>)
    ensures r.Some? ==> start <= r.value && OccursAt(s, pat, r.value)
    ensures forall i: nat :: start <= i && (r.None? || i < r.value) ==> !OccursAt(s, pat, i)
    decreases |s| - start
  {
    if start + |pat| > |s| then None
    else if s[start..start + |pat|] == pat then Some(start)
    else FindFrom(s, pat, start + 1)
  }

  /** `s.find(pat)`, with `None` for Python's -1; `pat in s` is `Find(s, pat).Some?`. */
  function Find(s: string, pat: string): (r: Option<nat>)
    ensures r.Some? ==> OccursAt(s, pat, r.value)
    ensures r.Some? ==> forall i: nat :: i < r.value ==> !OccursAt(s, pat, i)
    ensures r.None? <==> forall i: nat :: !OccursAt(s, pat, i)
  {
    FindFrom(s, pat, 0)
  }

  /** `pat in s`. */
  predicate Contains(s: string, pat: string) {
    Find(s, pat).Some?
  }

  /** A text that contains `pat + more` contains `pat`. */
  lemma ContainsPrefix(s: string, pat: string, more: string)
    requires Contains(s, pat + more)
    ensures Contains(s, pat)
  {
    var i := Find(s, pat + more).value;
    assert s[i..i + |pat|] == (pat + more)[..|pat|];
    assert OccursAt(s, pat, i);
  }

  /** `s.split(pat, 1)[1]`: what follows the first occurrence of `pat`. */
  function AfterFirst(s: string, pat: string): (r: string)
    requires Contains(s, pat)
    ensures |r| + |pat| <= |s| && r == s[|s| - |r|..]
    ensures OccursAt(s, pat, |s| - |r| - |pat|)
    ensures forall i: nat :: i < |s| - |r| - |pat| ==> !OccursAt(s, pat, i)
  {
    var i := Find(s, pat).value;
    s[i + |pat|..]
  }

  predicate IsUpper(c: char) { 'A' <= c <= 'Z' }
  predicate IsLower(c: char) { 'a' <= c <= 'z' }
  /** Cased characters, as Python's `title()` distinguishes them. */
  predicate IsCased(c: char) { IsUpper(c) || IsLower(c) }

  /** `c.lower()` for ASCII: an upper-case letter becomes its lower-case partner, anything else is kept. */
  function LowerChar(c: char): (d: char)
    ensures !IsUpper(d) && (IsCased(c) <==> IsCased(d))
    ensures IsUpper(c) ==> IsLower(d) && d as int == c as int + 32
    ensures !IsUpper(c) ==> d == c
  {
    if IsUpper(c) then (c as int + 32) as char else c
  }

  /** `c.upper()` for ASCII: a lower-case letter becomes its upper-case partner, anything else is kept. */
  function UpperChar(c: char): (d: char)
    ensures !IsLower(d) && (IsCased(c) <==> IsCased(d))
    ensures IsLower(c) ==> IsUpper(d) && LowerChar(d) == c
    ensures !IsLower(c) ==> d == c
  {
    if IsLower(c) then (c as int - 32) as char else c
  }

  /** `s.lower()`. */
  function Lower(s: string): (r: string)
    ensures |r| == |s| && forall i :: 0 <= i < |r| ==> !IsUpper(r[i])
    ensures forall i :: 0 <= i < |s| ==> r[i] == LowerChar(s[i])
  {
    seq(|s|, i requires 0 <= i < |s| => LowerChar(s[i]))
  }

  /** `s.capitalize()`: the first character upper case, the rest lower case. */
  function Capitalize(s: string): (r: string)
    ensures |r| == |s|
    ensures r != [] ==> !IsLower(r[0])
    ensures forall i :: 0 < i < |r| ==> !IsUpper(r[i])
    ensures s != [] ==> r[0] == UpperChar(s[0])
    ensures forall i :: 0 < i < |s| ==> r[i] == LowerChar(s[i])
  {
    if s == [] then [] else [UpperChar(s[0])] + Lower(s[1..])
  }

  /** Changing case never turns a character into whitespace, so a word stays a word. */
  lemma CapitalizeNoSpace(w: string)
    requires NoSpace(w)
    ensures NoSpace(Capitalize(w))
  {
    var r := Capitalize(w);
    forall i | 0 <= i < |r|
      ensures !IsSpace(r[i])
    {
      var c := w[i];
      assert !IsSpace(c);
      if i == 0 {
        assert r[i] == UpperChar(c);
      } else {
        assert r[i] == LowerChar(c);
      }
    }
  }

  function TitleFrom(s: string, previousCased: bool): (r: string)
    ensures |r| == |s|
  {
    if s == [] then []
    else
      var c := if previousCased then LowerChar(s[0]) else UpperChar(s[0]);
      [c] + TitleFrom(s[1..], IsCased(s[0]))
  }

  /**
   * `s.title()`: a cased character is upper case when the character before it
   * is not cased, lower case otherwise.
   */
  function Title(s: string): (r: string)
    ensures |r| == |s|
  {
    TitleFrom(s, false)
  }

  /** What `title()` does at each position. */
  lemma {:induction false} TitleAt(s: string, previousCased: bool, i: nat)
    requires i < |s|
    ensures var before := if i == 0 then previousCased else IsCased(s[i - 1]);
            TitleFrom(s, previousCased)[i] == (if before then LowerChar(s[i]) else UpperChar(s[i]))
  {
    if i > 0 {
      TitleAt(s[1..], IsCased(s[0]), i - 1);
    }
  }

  /** Lower-casing changes letters only, so it keeps every whitespace character where it is. */
  lemma LowerKeepsSpaces(s: string)
    ensures forall i :: 0 <= i < |s| ==> (IsSpace(Lower(s)[i]) <==> IsSpace(s[i]))
  {
  }

  /** Capitalizing ignores how the text was cased before. */
  lemma CapitalizeLower(s: string)
    ensures Capitalize(Lower(s)) == Capitalize(s)
  {
    if s != [] {
      assert Lower(s)[1..] == Lower(s[1..]);
      assert Lower(Lower(s[1..])) == Lower(s[1..]);
    }
  }

  lemma LowerConcat(a: string, b: string)
    ensures Lower(a + b) == Lower(a) + Lower(b)
  {
  }

  /** Text with no upper-case letter is its own lower case. */
  lemma LowerOfLower(s: string)
    requires forall i :: 0 <= i < |s| ==> !IsUpper(s[i])
    ensures Lower(s) == s
  {
  }
}
