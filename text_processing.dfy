/**
 * Phoneme post-processing: the grapheme-to-phoneme converter's ARPAbet tokens
 * lose their stress digits, and the cleaned tokens are translated to IPA
 * symbols, keeping the `" "` word separators and dropping punctuation.
 * The converter itself is not modelled: its output is the input here.
 */
module TextProcessing {

  /** `\d` of the stress-stripping pattern, restricted to ASCII digits. */
  predicate IsDigit(c: char) { '0' <= c <= '9' }

  predicate NoDigits(s: string) {
    forall i :: 0 <= i < |s| ==> !IsDigit(s[i])
  }

  /** `re.sub(r'\d+', '', s)`: every run of digits removed, the rest kept in order. */
  function RemoveDigits(s: string): (r: string)
    ensures |r| <= |s|
  {
    if |s| == 0 then ""
    else (if IsDigit(s[0]) then "" else [s[0]]) + RemoveDigits(s[1..])
  }

  lemma {:induction false} RemoveDigitsClean(s: string)
    ensures NoDigits(RemoveDigits(s))
  {
    if |s| > 0 {
      RemoveDigitsClean(s[1..]);
    }
  }

  /** A token without digits (a word separator, punctuation, an unstressed phoneme) is unchanged. */
  lemma {:induction false} RemoveDigitsKeeps(s: string)
    requires NoDigits(s)
    ensures RemoveDigits(s) == s
  {
    if |s| > 0 {
      assert NoDigits(s[1..]) by {
        forall i | 0 <= i < |s| - 1 ensures !IsDigit(s[1..][i]) {
          assert s[1..][i] == s[i + 1];
        }
      }
      RemoveDigitsKeeps(s[1..]);
      assert [s[0]] + s[1..] == s;
    }
  }

  /** Exactly the non-digit characters survive, each as often as in `s`. */
  lemma {:induction false} RemoveDigitsCounts(s: string, c: char)
    ensures multiset(RemoveDigits(s))[c] == if IsDigit(c) then 0 else multiset(s)[c]
  {
    if |s| > 0 {
      RemoveDigitsCounts(s[1..], c);
      assert s == [s[0]] + s[1..];
      assert multiset(s) == multiset([s[0]]) + multiset(s[1..]);
    }
  }

  lemma {:induction false} RemoveDigitsConcat(a: string, b: string)
    ensures RemoveDigits(a + b) == RemoveDigits(a) + RemoveDigits(b)
  {
    if |a| > 0 {
      assert (a + b)[1..] == a[1..] + b;
      RemoveDigitsConcat(a[1..], b);
    } else {
      assert a + b == b;
    }
  }

  lemma RemoveDigitsIdempotent(s: string)
    ensures RemoveDigits(RemoveDigits(s)) == RemoveDigits(s)
  {
    RemoveDigitsClean(s);
    RemoveDigitsKeeps(RemoveDigits(s));
  }

  /** The list comprehension of `text_to_phoneme` applied to the converter's output. */
  function StripStress(tokens: seq<string>): (r: seq<string>)
    ensures |r| == |tokens|
  {
    if |tokens| == 0 then []
    else StripStress(tokens[..|tokens| - 1]) + [RemoveDigits(tokens[|tokens| - 1])]
  }

  lemma {:induction false} StripStressAt(tokens: seq<string>, i: nat)
    requires i < |tokens|
    ensures StripStress(tokens)[i] == RemoveDigits(tokens[i])
  {
    if i < |tokens| - 1 {
      StripStressAt(tokens[..|tokens| - 1], i);
    }
  }

  /** Every stripped token is free of digits, and a digit-free token passes through. */
  lemma StripStressClean(tokens: seq<string>)
    ensures forall i :: 0 <= i < |tokens| ==> NoDigits(StripStress(tokens)[i])
    ensures forall i :: 0 <= i < |tokens| && NoDigits(tokens[i]) ==> StripStress(tokens)[i] == tokens[i]
  {
    forall i | 0 <= i < |tokens|
      ensures NoDigits(StripStress(tokens)[i])
      ensures NoDigits(tokens[i]) ==> StripStress(tokens)[i] == tokens[i]
    {
      StripStressAt(tokens, i);
      RemoveDigitsClean(tokens[i]);
      if NoDigits(tokens[i]) {
        RemoveDigitsKeeps(tokens[i]);
      }
    }
  }

  /** Stripping twice is stripping once. */
  lemma StripStressIdempotent(tokens: seq<string>)
    ensures StripStress(StripStress(tokens)) == StripStress(tokens)
  {
    var once := StripStress(tokens);
    StripStressClean(tokens);
    StripStressClean(once);
  }

  // ---------------------------------------------------------------------------
  // ARPAbet to IPA
  // ---------------------------------------------------------------------------

  const Separator: string := " "

  /** `ARPA_TO_IPA`: the 39 unstressed ARPAbet phonemes and their IPA symbols. */
  const ArpaToIpa: map<string, string> := map[
    "AA" := "\U{0251}", "AE" := "\U{00E6}", "AH" := "\U{028C}", "AO" := "\U{0254}",
    "AW" := "a\U{028A}", "AY" := "a\U{026A}", "B" := "b", "CH" := "t\U{0283}",
    "D" := "d", "DH" := "\U{00F0}", "EH" := "\U{025B}", "ER" := "\U{025D}",
    "EY" := "e\U{026A}", "F" := "f", "G" := "\U{0261}", "HH" := "h",
    "IH" := "\U{026A}", "IY" := "i", "JH" := "d\U{0292}", "K" := "k",
    "L" := "l", "M" := "m", "N" := "n", "NG" := "\U{014B}",
    "OW" := "o\U{028A}", "OY" := "\U{0254}\U{026A}", "P" := "p", "R" := "\U{0279}",
    "S" := "s", "SH" := "\U{0283}", "T" := "t", "TH" := "\U{03B8}",
    "UH" := "\U{028A}", "UW" := "u", "V" := "v", "W" := "w",
    "Y" := "j", "Z" := "z", "ZH" := "\U{0292}"
  ]

  /** The table read backwards: each IPA symbol to the ARPAbet phoneme it came from. */
  const IpaToArpa: map<string, string> := map[
    "\U{0251}" := "AA", "\U{00E6}" := "AE", "\U{028C}" := "AH", "\U{0254}" := "AO",
    "a\U{028A}" := "AW", "a\U{026A}" := "AY", "b" := "B", "t\U{0283}" := "CH",
    "d" := "D", "\U{00F0}" := "DH", "\U{025B}" := "EH", "\U{025D}" := "ER",
    "e\U{026A}" := "EY", "f" := "F", "\U{0261}" := "G", "h" := "HH",
    "\U{026A}" := "IH", "i" := "IY", "d\U{0292}" := "JH", "k" := "K",
    "l" := "L", "m" := "M", "n" := "N", "\U{014B}" := "NG",
    "o\U{028A}" := "OW", "\U{0254}\U{026A}" := "OY", "p" := "P", "\U{0279}" := "R",
    "s" := "S", "\U{0283}" := "SH", "t" := "T", "\U{03B8}" := "TH",
    "\U{028A}" := "UH", "u" := "UW", "v" := "V", "w" := "W",
    "j" := "Y", "z" := "Z", "\U{0292}" := "ZH"
  ]

  /** Every phoneme of the table is written with one or two letters. */
  lemma ArpaKeyLength(p: string)
    requires p in ArpaToIpa
    ensures |p| == 1 || |p| == 2
  {
  }

  /*
   * The inverse property, checked over the table in four slices (by key length
   * and first letter) so that each slice stays a small finite case analysis.
   */

  lemma InverseOneLetter(p: string)
    requires p in ArpaToIpa && |p| == 1
    ensures ArpaToIpa[p] in IpaToArpa && IpaToArpa[ArpaToIpa[p]] == p && ArpaToIpa[p] != Separator
  {
  }

  lemma InverseTwoLettersToD(p: string)
    requires p in ArpaToIpa && |p| == 2 && p[0] < 'E'
    ensures ArpaToIpa[p] in IpaToArpa && IpaToArpa[ArpaToIpa[p]] == p && ArpaToIpa[p] != Separator
  {
  }

  lemma InverseTwoLettersToM(p: string)
    requires p in ArpaToIpa && |p| == 2 && 'E' <= p[0] < 'N'
    ensures ArpaToIpa[p] in IpaToArpa && IpaToArpa[ArpaToIpa[p]] == p && ArpaToIpa[p] != Separator
  {
  }

  lemma InverseTwoLettersFromN(p: string)
    requires p in ArpaToIpa && |p| == 2 && 'N' <= p[0]
    ensures ArpaToIpa[p] in IpaToArpa && IpaToArpa[ArpaToIpa[p]] == p && ArpaToIpa[p] != Separator
  {
  }

  /** Reading the table backwards recovers every key, and no symbol is the separator. */
  lemma ArpaToIpaInverse(p: string)
    requires p in ArpaToIpa
    ensures ArpaToIpa[p] in IpaToArpa && IpaToArpa[ArpaToIpa[p]] == p && ArpaToIpa[p] != Separator
  {
    ArpaKeyLength(p);
    if |p| == 1 {
      InverseOneLetter(p);
    } else if p[0] < 'E' {
      InverseTwoLettersToD(p);
    } else if p[0] < 'N' {
      InverseTwoLettersToM(p);
    } else {
      InverseTwoLettersFromN(p);
    }
  }

  /** The separator is neither a phoneme of the table nor one of its symbols. */
  lemma SeparatorNotInTables()
    ensures Separator !in ArpaToIpa && Separator !in IpaToArpa
  {
  }

  /** No two phonemes share an IPA symbol. */
  lemma ArpaToIpaInjective(p: string, q: string)
    requires p in ArpaToIpa && q in ArpaToIpa
    requires ArpaToIpa[p] == ArpaToIpa[q]
    ensures p == q
  {
    ArpaToIpaInverse(p);
    ArpaToIpaInverse(q);
  }

  /** What one cleaned token contributes to the output of `text_to_ipa_phoneme`. */
  function IpaOf(p: string): (r: seq<string>)
    ensures |r| <= 1
    ensures r != [] <==> Recognisable(p)
    ensures r == [Separator] <==> p == Separator
    ensures r != [] && p != Separator ==> r[0] in IpaToArpa && IpaToArpa[r[0]] == p
  {
    SeparatorNotInTables();
    if p in ArpaToIpa then ArpaToIpaInverse(p); [ArpaToIpa[p]]
    else if p == Separator then [Separator]
    else []
  }

  /** The IPA list the conversion loop builds from the cleaned tokens. */
  function ToIpa(ps: seq<string>): (r: seq<string>)
    ensures |r| <= |ps|
  {
    if |ps| == 0 then []
    else ToIpa(ps[..|ps| - 1]) + IpaOf(ps[|ps| - 1])
  }

  /** `text_to_ipa_phoneme`, given the converter's raw output for the text. */
  method TextToIpaPhoneme(g2pOutput: seq<string>) returns (ipaPhonemes: seq<string>)
    ensures ipaPhonemes == ToIpa(StripStress(g2pOutput))
  {
    var arpabetPhonemes := StripStress(g2pOutput);
    ipaPhonemes := [];
    for i := 0 to |arpabetPhonemes|
      invariant ipaPhonemes == ToIpa(arpabetPhonemes[..i])
    {
      var phoneme := arpabetPhonemes[i];
      assert arpabetPhonemes[..i + 1][..i] == arpabetPhonemes[..i];
      if phoneme in ArpaToIpa {
        ipaPhonemes := ipaPhonemes + [ArpaToIpa[phoneme]];
      } else if phoneme == Separator {
        ipaPhonemes := ipaPhonemes + [Separator];
      }
    }
    assert arpabetPhonemes[..|arpabetPhonemes|] == arpabetPhonemes;
  }

  /** Converting one more token appends what that token contributes. */
  lemma ToIpaSnoc(ps: seq<string>, p: string)
    ensures ToIpa(ps + [p]) == ToIpa(ps) + IpaOf(p)
  {
    assert (ps + [p])[..|ps|] == ps;
  }

  /** The conversion works token by token, so it keeps the input order. */
  lemma {:induction false} ToIpaConcat(a: seq<string>, b: seq<string>)
    ensures ToIpa(a + b) == ToIpa(a) + ToIpa(b)
  {
    if |b| == 0 {
      assert a + b == a;
    } else {
      var b', p := b[..|b| - 1], b[|b| - 1];
      assert b == b' + [p];
      assert a + b == (a + b') + [p];
      ToIpaConcat(a, b');
      ToIpaSnoc(a + b', p);
      ToIpaSnoc(b', p);
      AppendAssociative(ToIpa(a), ToIpa(b'), IpaOf(p));
    }
  }

  lemma AppendAssociative<T>(x: seq<T>, y: seq<T>, z: seq<T>)
    ensures (x + y) + z == x + (y + z)
  {
  }

  /** At most one symbol per token, each a separator or a value of the table. */
  lemma {:induction false} ToIpaShape(ps: seq<string>)
    ensures |ToIpa(ps)| <= |ps|
    ensures forall k :: 0 <= k < |ToIpa(ps)| ==> ToIpa(ps)[k] == Separator || ToIpa(ps)[k] in ArpaToIpa.Values
  {
    if |ps| > 0 {
      ToIpaShape(ps[..|ps| - 1]);
    }
  }

  /** A list with no known phoneme and no separator (punctuation only) converts to nothing. */
  lemma {:induction false} ToIpaDropsUnknown(ps: seq<string>)
    requires forall i :: 0 <= i < |ps| ==> ps[i] !in ArpaToIpa && ps[i] != Separator
    ensures ToIpa(ps) == []
  {
    if |ps| > 0 {
      ToIpaDropsUnknown(ps[..|ps| - 1]);
    }
  }

  /** One token yields a separator exactly when it is the separator. */
  lemma IpaOfSeparator(p: string)
    ensures multiset(IpaOf(p))[Separator] == if p == Separator then 1 else 0
  {
    SeparatorNotInTables();
    if p in ArpaToIpa {
      ArpaToIpaInverse(p);
    }
  }

  /** Word separators are kept one for one, so the words of the output are the words of the input. */
  lemma {:induction false} ToIpaSeparators(ps: seq<string>)
    ensures multiset(ToIpa(ps))[Separator] == multiset(ps)[Separator]
  {
    if |ps| > 0 {
      var init, last := ps[..|ps| - 1], ps[|ps| - 1];
      ToIpaSeparators(init);
      IpaOfSeparator(last);
      assert ps == init + [last];
      assert multiset(ps) == multiset(init) + multiset([last]);
      assert multiset(ToIpa(ps)) == multiset(ToIpa(init)) + multiset(IpaOf(last));
    }
  }

  /** A token the conversion keeps: a phoneme of the table or the separator. */
  predicate Recognisable(p: string) {
    p in ArpaToIpa || p == Separator
  }

  /** The tokens the conversion keeps, in order. */
  function Recognised(ps: seq<string>): (r: seq<string>)
    ensures |r| <= |ps|
  {
    if |ps| == 0 then []
    else
      var last := ps[|ps| - 1];
      Recognised(ps[..|ps| - 1]) + (if Recognisable(last) then [last] else [])
  }

  /** Mapping every symbol back: IPA symbols through the reversed table, separators as they are. */
  function FromIpa(ss: seq<string>): seq<string>
  {
    if |ss| == 0 then []
    else
      var last := ss[|ss| - 1];
      FromIpa(ss[..|ss| - 1]) + [if last in IpaToArpa then IpaToArpa[last] else last]
  }

  lemma {:induction false} FromIpaConcat(a: seq<string>, b: seq<string>)
    ensures FromIpa(a + b) == FromIpa(a) + FromIpa(b)
  {
    if |b| == 0 {
      assert a + b == a;
    } else {
      assert (a + b)[..|a + b| - 1] == a + b[..|b| - 1];
      FromIpaConcat(a, b[..|b| - 1]);
    }
  }

  /** Reading one token's output back gives the token itself when it is kept, nothing otherwise. */
  lemma IpaOfRoundTrip(p: string)
    ensures FromIpa(IpaOf(p)) == if Recognisable(p) then [p] else []
  {
    SeparatorNotInTables();
    if p in ArpaToIpa {
      ArpaToIpaInverse(p);
      assert FromIpa(IpaOf(p)) == FromIpa([]) + [IpaToArpa[ArpaToIpa[p]]];
    } else if p == Separator {
      assert FromIpa(IpaOf(p)) == FromIpa([]) + [Separator];
    }
  }

  /** Reading the IPA output back gives exactly the recognised ARPAbet tokens, in order. */
  lemma {:induction false} ToIpaRoundTrip(ps: seq<string>)
    ensures FromIpa(ToIpa(ps)) == Recognised(ps)
  {
    if |ps| > 0 {
      var init, last := ps[..|ps| - 1], ps[|ps| - 1];
      ToIpaRoundTrip(init);
      FromIpaConcat(ToIpa(init), IpaOf(last));
      IpaOfRoundTrip(last);
    }
  }

  /** The whole conversion of the converter's output, read back, is its recognised tokens without stress. */
  lemma TextToIpaRoundTrip(g2pOutput: seq<string>)
    ensures FromIpa(ToIpa(StripStress(g2pOutput))) == Recognised(StripStress(g2pOutput))
    ensures |ToIpa(StripStress(g2pOutput))| <= |g2pOutput|
  {
    ToIpaRoundTrip(StripStress(g2pOutput));
    ToIpaShape(StripStress(g2pOutput));
  }
}
