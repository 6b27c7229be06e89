/**
 * The pronunciation scorer: target and user phoneme lists are split into words
 * at the `" "` token, each word pair is compared by a longest-common-subsequence
 * table, the target phonemes off the LCS are mapped onto character offsets of
 * the target phrase, and a report with red character marks, per-word mistakes
 * and an accuracy percentage is assembled.
 */
module ErrorDetection {
  import opened Wrappers
  import opened PyStrings

  /** One phoneme token; `WordBoundary` separates words. */
  type Phoneme = string

  const WordBoundary: Phoneme := " "

  /** How many letters of the written word each ARPAbet phoneme stands for. */
  const PhonemeMappings: map<Phoneme, nat> := map[
    "DH" := 2, "TH" := 2, "CH" := 2, "SH" := 2, "NG" := 2,
    "ZH" := 2, "JH" := 2, "Y" := 1, "R" := 1, "L" := 1,
    "W" := 1, "M" := 1, "N" := 1, "K" := 1, "G" := 1,
    "F" := 1, "V" := 1, "S" := 1, "Z" := 1, "P" := 1,
    "B" := 1, "T" := 1, "D" := 1, "AA" := 1, "AE" := 1,
    "AH" := 1, "AO" := 1, "AW" := 2, "AY" := 2, "EH" := 1,
    "ER" := 2, "EY" := 2, "IH" := 1, "IY" := 1, "OW" := 2,
    "OY" := 2, "UH" := 1, "UW" := 1
  ]

  /** `PHONEME_MAPPINGS.get(p, 1)`: one or two characters, one for a symbol not in the table. */
  function CharCount(p: Phoneme): (c: nat)
    ensures c == 1 || c == 2
    ensures p !in PhonemeMappings ==> c == 1
    ensures p in PhonemeMappings ==> c == PhonemeMappings[p]
  {
    if p in PhonemeMappings then PhonemeMappings[p] else 1
  }

  function Max(a: nat, b: nat): nat { if a >= b then a else b }

  /** The indices `0 .. n-1`, Python's `set(range(n))`. */
  function Indices(n: nat): (r: set<nat>)
    ensures forall k: nat :: k in r <==> k < n
  {
    if n == 0 then {} else Indices(n - 1) + {n - 1}
  }

  lemma {:induction false} IndicesSize(n: nat)
    ensures |Indices(n)| == n
  {
    if n > 0 {
      IndicesSize(n - 1);
    }
  }

  // ---------------------------------------------------------------------------
  // Longest common subsequence
  // ---------------------------------------------------------------------------

  /**
   * Entry `dp[i][j]` of the table `get_lcs_indices` fills: the LCS length of
   * `t[..i]` and `u[..j]`. It never exceeds either prefix length.
   */
  function Lcs<T(==)>(t: seq<T>, u: seq<T>, i: nat, j: nat): (r: nat)
    requires i <= |t| && j <= |u|
    ensures r <= i && r <= j
  {
    if i == 0 || j == 0 then 0
    else if t[i - 1] == u[j - 1] then Lcs(t, u, i - 1, j - 1) + 1
    else Max(Lcs(t, u, i - 1, j), Lcs(t, u, i, j - 1))
  }

  /**
   * The (target index, user index) pairs the traceback from `(i, j)` walks
   * through diagonally, in increasing order.
   */
  function Matches<T(==)>(t: seq<T>, u: seq<T>, i: nat, j: nat): seq<(nat, nat)>
    requires i <= |t| && j <= |u|
    decreases i + j
  {
    if i == 0 || j == 0 then []
    else if t[i - 1] == u[j - 1] then Matches(t, u, i - 1, j - 1) + [(i - 1, j - 1)]
    else if Lcs(t, u, i - 1, j) > Lcs(t, u, i, j - 1) then Matches(t, u, i - 1, j)
    else Matches(t, u, i, j - 1)
  }

  /** The target indices of a list of pairs. */
  function Targets(ps: seq<(nat, nat)>): set<nat>
  {
    if ps == [] then {} else Targets(ps[..|ps| - 1]) + {ps[|ps| - 1].0}
  }

  /** `pairs` is a common subsequence of `t[..i]` and `u[..j]`, given by its positions. */
  ghost predicate CommonSubsequence<T>(t: seq<T>, u: seq<T>, i: nat, j: nat, pairs: seq<(nat, nat)>)
    requires i <= |t| && j <= |u|
  {
    && (forall k :: 0 <= k < |pairs| ==> pairs[k].0 < i && pairs[k].1 < j && t[pairs[k].0] == u[pairs[k].1])
    && (forall k, l :: 0 <= k < l < |pairs| ==> pairs[k].0 < pairs[l].0 && pairs[k].1 < pairs[l].1)
  }

  /** A common subsequence of shorter prefixes is one of longer prefixes. */
  lemma CommonSubsequenceWiden<T>(t: seq<T>, u: seq<T>, i: nat, j: nat, i2: nat, j2: nat, pairs: seq<(nat, nat)>)
    requires i <= i2 <= |t| && j <= j2 <= |u|
    requires CommonSubsequence(t, u, i, j, pairs)
    ensures CommonSubsequence(t, u, i2, j2, pairs)
  {
  }

  /** Extending a common subsequence of `t[..i]`, `u[..j]` by the matching pair `(i, j)`. */
  lemma CommonSubsequenceSnoc<T>(t: seq<T>, u: seq<T>, i: nat, j: nat, pairs: seq<(nat, nat)>)
    requires i < |t| && j < |u| && t[i] == u[j]
    requires CommonSubsequence(t, u, i, j, pairs)
    ensures CommonSubsequence(t, u, i + 1, j + 1, pairs + [(i, j)])
  {
    var ps := pairs + [(i, j)];
    forall k | 0 <= k < |ps|
      ensures ps[k].0 < i + 1 && ps[k].1 < j + 1 && t[ps[k].0] == u[ps[k].1]
    {
      if k < |pairs| { assert ps[k] == pairs[k]; }
    }
    forall k, l | 0 <= k < l < |ps|
      ensures ps[k].0 < ps[l].0 && ps[k].1 < ps[l].1
    {
      assert ps[k] == pairs[k];
      if l < |pairs| { assert ps[l] == pairs[l]; }
    }
  }

  /** The traceback from `(i, j)` makes `dp[i][j]` diagonal moves. */
  lemma {:induction false} MatchesLength<T>(t: seq<T>, u: seq<T>, i: nat, j: nat)
    requires i <= |t| && j <= |u|
    ensures |Matches(t, u, i, j)| == Lcs(t, u, i, j)
    decreases i + j
  {
    if i == 0 || j == 0 {
    } else if t[i - 1] == u[j - 1] {
      MatchesLength(t, u, i - 1, j - 1);
    } else if Lcs(t, u, i - 1, j) > Lcs(t, u, i, j - 1) {
      MatchesLength(t, u, i - 1, j);
    } else {
      MatchesLength(t, u, i, j - 1);
    }
  }

  /** The traceback from `(i, j)` picks out a common subsequence of `t[..i]` and `u[..j]`. */
  lemma {:induction false} MatchesAreCommonSubsequence<T>(t: seq<T>, u: seq<T>, i: nat, j: nat)
    requires i <= |t| && j <= |u|
    ensures CommonSubsequence(t, u, i, j, Matches(t, u, i, j))
    decreases i + j
  {
    if i == 0 || j == 0 {
    } else {
      MatchesStep(t, u, i, j);
      if t[i - 1] == u[j - 1] {
        MatchesAreCommonSubsequence(t, u, i - 1, j - 1);
        CommonSubsequenceSnoc(t, u, i - 1, j - 1, Matches(t, u, i - 1, j - 1));
      } else if Lcs(t, u, i - 1, j) > Lcs(t, u, i, j - 1) {
        MatchesAreCommonSubsequence(t, u, i - 1, j);
        CommonSubsequenceWiden(t, u, i - 1, j, i, j, Matches(t, u, i - 1, j));
      } else {
        MatchesAreCommonSubsequence(t, u, i, j - 1);
        CommonSubsequenceWiden(t, u, i, j - 1, i, j, Matches(t, u, i, j - 1));
      }
    }
  }

  /** One step of the traceback from a cell away from the table's edges. */
  lemma MatchesStep<T>(t: seq<T>, u: seq<T>, i: nat, j: nat)
    requires 0 < i <= |t| && 0 < j <= |u|
    ensures Matches(t, u, i, j)
      == if t[i - 1] == u[j - 1] then Matches(t, u, i - 1, j - 1) + [(i - 1, j - 1)]
         else if Lcs(t, u, i - 1, j) > Lcs(t, u, i, j - 1) then Matches(t, u, i - 1, j)
         else Matches(t, u, i, j - 1)
  {
  }

  /** No common subsequence of `t[..i]` and `u[..j]` is longer than `dp[i][j]`. */
  lemma {:induction false} LcsIsLongest<T>(t: seq<T>, u: seq<T>, i: nat, j: nat, pairs: seq<(nat, nat)>)
    requires i <= |t| && j <= |u|
    requires CommonSubsequence(t, u, i, j, pairs)
    ensures |pairs| <= Lcs(t, u, i, j)
    decreases i + j
  {
    if pairs != [] {
      var n := |pairs|;
      var last := pairs[n - 1];
      if t[i - 1] == u[j - 1] {
        var init := pairs[..n - 1];
        assert CommonSubsequence(t, u, i - 1, j - 1, init) by {
          forall k | 0 <= k < |init| ensures init[k] == pairs[k] && init[k].0 < i - 1 && init[k].1 < j - 1 {
            assert pairs[k].0 < last.0 && pairs[k].1 < last.1;
          }
        }
        LcsIsLongest(t, u, i - 1, j - 1, init);
      } else if last.0 < i - 1 {
        assert CommonSubsequence(t, u, i - 1, j, pairs) by {
          forall k | 0 <= k < n ensures pairs[k].0 < i - 1 {
            assert k == n - 1 || pairs[k].0 < last.0;
          }
        }
        LcsIsLongest(t, u, i - 1, j, pairs);
      } else {
        assert last.1 < j - 1;
        assert CommonSubsequence(t, u, i, j - 1, pairs) by {
          forall k | 0 <= k < n ensures pairs[k].1 < j - 1 {
            assert k == n - 1 || pairs[k].1 < last.1;
          }
        }
        LcsIsLongest(t, u, i, j - 1, pairs);
      }
    }
  }

  /** The target indices of pairs with one more pair appended. */
  lemma TargetsSnoc(ps: seq<(nat, nat)>, p: (nat, nat))
    ensures Targets(ps + [p]) == Targets(ps) + {p.0}
  {
    assert (ps + [p])[..|ps|] == ps;
  }

  /**
   * One step of the traceback keeps `collected + Targets(rest of the walk)`
   * equal to the targets of the whole walk.
   */
  lemma TracebackStep<T>(t: seq<T>, u: seq<T>, i: nat, j: nat, collected: set<nat>, total: set<nat>)
    requires 0 < i <= |t| && 0 < j <= |u|
    requires collected + Targets(Matches(t, u, i, j)) == total
    ensures t[i - 1] == u[j - 1] ==> (collected + {i - 1}) + Targets(Matches(t, u, i - 1, j - 1)) == total
    ensures t[i - 1] != u[j - 1] && Lcs(t, u, i - 1, j) > Lcs(t, u, i, j - 1) ==>
      collected + Targets(Matches(t, u, i - 1, j)) == total
    ensures t[i - 1] != u[j - 1] && Lcs(t, u, i - 1, j) <= Lcs(t, u, i, j - 1) ==>
      collected + Targets(Matches(t, u, i, j - 1)) == total
  {
    if t[i - 1] == u[j - 1] {
      TargetsSnoc(Matches(t, u, i - 1, j - 1), (i - 1, j - 1));
    }
  }

  /** Target indices of pairs below `bound` stay below it. */
  lemma {:induction false} TargetsBelow(ps: seq<(nat, nat)>, bound: nat)
    requires forall k :: 0 <= k < |ps| ==> ps[k].0 < bound
    ensures forall x :: x in Targets(ps) ==> x < bound
  {
    if ps != [] {
      TargetsBelow(ps[..|ps| - 1], bound);
    }
  }

  /** Strictly increasing target indices are all distinct. */
  lemma {:induction false} TargetsSize(ps: seq<(nat, nat)>)
    requires forall k, l :: 0 <= k < l < |ps| ==> ps[k].0 < ps[l].0
    ensures |Targets(ps)| == |ps|
  {
    if ps != [] {
      var init := ps[..|ps| - 1];
      TargetsSize(init);
      TargetsBelow(init, ps[|ps| - 1].0);
    }
  }

  /** The set `get_lcs_indices` returns: target indices not on the traceback's LCS. */
  function Mispronounced<T(==)>(t: seq<T>, u: seq<T>): (r: set<nat>)
    ensures forall x :: x in r ==> x < |t|
  {
    Indices(|t|) - Targets(Matches(t, u, |t|, |u|))
  }

  /**
   * Exactly `|t| - dp[m][n]` target indices are returned, all of them below
   * `|t|`.
   */
  lemma MispronouncedSize<T>(t: seq<T>, u: seq<T>)
    ensures Mispronounced(t, u) <= Indices(|t|)
    ensures |Mispronounced(t, u)| == |t| - Lcs(t, u, |t|, |u|)
  {
    var ps := Matches(t, u, |t|, |u|);
    MatchesLength(t, u, |t|, |u|);
    MatchesAreCommonSubsequence(t, u, |t|, |u|);
    TargetsSize(ps);
    TargetsBelow(ps, |t|);
    assert Targets(ps) <= Indices(|t|);
    IndicesSize(|t|);
  }

  /** Along the diagonal of identical sequences, every index matches. */
  lemma {:induction false} MatchesOfIdentical<T>(t: seq<T>, i: nat)
    requires i <= |t|
    ensures Targets(Matches(t, t, i, i)) == Indices(i)
  {
    if i > 0 {
      MatchesOfIdentical(t, i - 1);
      assert Indices(i) == Indices(i - 1) + {i - 1};
    }
  }

  /** Identical target and user sequences give no mispronounced index. */
  lemma IdenticalHasNoErrors<T>(t: seq<T>)
    ensures Mispronounced(t, t) == {}
  {
    MatchesOfIdentical(t, |t|);
  }

  /** An empty user sequence leaves every target index mispronounced. */
  lemma EmptyUserAllErrors<T>(t: seq<T>)
    ensures Mispronounced(t, []) == Indices(|t|)
  {
  }

  /**
   * The table-building half of `get_lcs_indices`: a fresh `(m+1) x (n+1)`
   * table whose entry `[i, j]` is the LCS length of `t[..i]` and `u[..j]`.
   */
  method LcsTable<T(==)>(t: seq<T>, u: seq<T>) returns (dp: array2<nat>)
    ensures fresh(dp)
    ensures dp.Length0 == |t| + 1 && dp.Length1 == |u| + 1
    ensures forall a, b {:trigger dp[a, b]} :: 0 <= a <= |t| && 0 <= b <= |u| ==> dp[a, b] == Lcs(t, u, a, b)
  {
    var m, n := |t|, |u|;
    dp := new nat[m + 1, n + 1]((_, _) => 0);
    for i := 1 to m + 1
      invariant forall a, b {:trigger dp[a, b]} :: 0 <= a < i && 0 <= b <= n ==> dp[a, b] == Lcs(t, u, a, b)
      invariant forall a :: i <= a <= m ==> dp[a, 0] == 0
    {
      for j := 1 to n + 1
        invariant forall a, b {:trigger dp[a, b]} :: 0 <= a < i && 0 <= b <= n ==> dp[a, b] == Lcs(t, u, a, b)
        invariant forall b {:trigger dp[i, b]} :: 0 <= b < j ==> dp[i, b] == Lcs(t, u, i, b)
        invariant forall a :: i < a <= m ==> dp[a, 0] == 0
      {
        var diag, up, back := dp[i - 1, j - 1], dp[i - 1, j], dp[i, j - 1];
        var v: nat;
        if t[i - 1] == u[j - 1] {
          v := diag + 1;
        } else {
          v := Max(up, back);
        }
        LcsStep(t, u, i, j, diag, up, back, v);
        dp[i, j] := v;
      }
    }
  }

  /** One cell of the table, from its three neighbours as the loop computes it. */
  lemma LcsStep<T>(t: seq<T>, u: seq<T>, i: nat, j: nat, diag: nat, up: nat, back: nat, v: nat)
    requires 0 < i <= |t| && 0 < j <= |u|
    requires diag == Lcs(t, u, i - 1, j - 1) && up == Lcs(t, u, i - 1, j) && back == Lcs(t, u, i, j - 1)
    requires v == if t[i - 1] == u[j - 1] then diag + 1 else Max(up, back)
    ensures v == Lcs(t, u, i, j)
  {
  }

  /**
   * The traceback half of `get_lcs_indices`: walks back from `(m, n)` through
   * the filled table and collects the target index of every diagonal move.
   */
  method Traceback<T(==)>(t: seq<T>, u: seq<T>, dp: array2<nat>) returns (onLcs: set<nat>)
    requires dp.Length0 == |t| + 1 && dp.Length1 == |u| + 1
    requires forall a, b {:trigger dp[a, b]} :: 0 <= a <= |t| && 0 <= b <= |u| ==> dp[a, b] == Lcs(t, u, a, b)
    ensures onLcs == Targets(Matches(t, u, |t|, |u|))
  {
    var i: nat, j: nat := |t|, |u|;
    onLcs := {};
    while i > 0 && j > 0
      invariant i <= |t| && j <= |u|
      invariant onLcs + Targets(Matches(t, u, i, j)) == Targets(Matches(t, u, |t|, |u|))
      decreases i + j
    {
      var up, back := dp[i - 1, j], dp[i, j - 1];
      TracebackStep(t, u, i, j, onLcs, Targets(Matches(t, u, |t|, |u|)));
      if t[i - 1] == u[j - 1] {
        onLcs := onLcs + {i - 1};
        i, j := i - 1, j - 1;
      } else if up > back {
        i := i - 1;
      } else {
        j := j - 1;
      }
    }
  }

  /**
   * `get_lcs_indices`: the target indices not on the traceback's LCS, of
   * which there are `|t| - dp[m][n]`.
   */
  method GetLcsIndices<T(==)>(t: seq<T>, u: seq<T>) returns (r: set<nat>)
    ensures r == Mispronounced(t, u)
  {
    var dp := LcsTable(t, u);
    var onLcs := Traceback(t, u, dp);
    r := Indices(|t|) - onLcs;
  }

  // ---------------------------------------------------------------------------
  // Phoneme index to character index
  // ---------------------------------------------------------------------------

  /** The `count` entries `(pi, ci + k)` the inner `for` loop appends. */
  function Span(pi: nat, ci: nat, count: nat): (r: seq<(nat, nat)>)
    ensures |r| == count
  {
    if count == 0 then [] else Span(pi, ci, count - 1) + [(pi, ci + count - 1)]
  }

  /** The one or two entries of a phoneme. */
  lemma SpanOfPhoneme(pi: nat, ci: nat, p: Phoneme)
    ensures Span(pi, ci, CharCount(p)) == if CharCount(p) == 1 then [(pi, ci)] else [(pi, ci), (pi, ci + 1)]
  {
    assert Span(pi, ci, 1) == [(pi, ci)];
    assert Span(pi, ci, 2) == Span(pi, ci, 1) + [(pi, ci + 1)];
  }

  /**
   * The entries the mapping loop appends from phoneme `pi` and character `ci`
   * on, while both indices are in range.
   */
  function CharMapFrom(ps: seq<Phoneme>, wordLen: nat, pi: nat, ci: nat): (r: seq<(nat, nat)>)
    ensures r != [] <==> pi < |ps| && ci < wordLen
    decreases |ps| - pi
  {
    if pi < |ps| && ci < wordLen then
      var c := CharCount(ps[pi]);
      Span(pi, ci, c) + CharMapFrom(ps, wordLen, pi + 1, ci + c)
    else []
  }

  /** One round of the mapping loop: the entries of phoneme `pi`, then the rest. */
  lemma CharMapFromStep(ps: seq<Phoneme>, wordLen: nat, pi: nat, ci: nat)
    requires pi < |ps| && ci < wordLen
    ensures CharMapFrom(ps, wordLen, pi, ci)
      == (if CharCount(ps[pi]) == 1 then [(pi, ci)] else [(pi, ci), (pi, ci + 1)])
         + CharMapFrom(ps, wordLen, pi + 1, ci + CharCount(ps[pi]))
  {
    SpanOfPhoneme(pi, ci, ps[pi]);
  }

  /** Character indices run on from `ci`, phoneme indices from `pi` up to `|ps|`. */
  lemma {:induction false} CharMapRanges(ps: seq<Phoneme>, wordLen: nat, pi: nat, ci: nat)
    ensures forall k :: 0 <= k < |CharMapFrom(ps, wordLen, pi, ci)| ==>
      CharMapFrom(ps, wordLen, pi, ci)[k].1 == ci + k && pi <= CharMapFrom(ps, wordLen, pi, ci)[k].0 < |ps|
    decreases |ps| - pi
  {
    if pi < |ps| && ci < wordLen {
      var c := CharCount(ps[pi]);
      CharMapFromStep(ps, wordLen, pi, ci);
      CharMapRanges(ps, wordLen, pi + 1, ci + c);
      var s: seq<(nat, nat)> := if c == 1 then [(pi, ci)] else [(pi, ci), (pi, ci + 1)];
      var rest := CharMapFrom(ps, wordLen, pi + 1, ci + c);
      forall k | 0 <= k < |s + rest| ensures (s + rest)[k].1 == ci + k && pi <= (s + rest)[k].0 < |ps| {
        if k >= |s| { assert (s + rest)[k] == rest[k - |s|]; }
      }
    }
  }

  /**
   * `create_phoneme_to_char_mapping(word, phonemes)`: character indices are
   * exactly `0, 1, ..., |r| - 1` and phoneme indices lie below `|phonemes|`.
   */
  function CharMapping(word: string, ps: seq<Phoneme>): (r: seq<(nat, nat)>)
    ensures forall k :: 0 <= k < |r| ==> r[k].1 == k && r[k].0 < |ps|
  {
    var m := CharMapFrom(ps, |word|, 0, 0);
    CharMapRanges(ps, |word|, 0, 0);
    m
  }

  /** The phoneme indices of a mapping, in order. */
  function PhonemeIndices(m: seq<(nat, nat)>): seq<nat>
  {
    seq(|m|, k requires 0 <= k < |m| => m[k].0)
  }

  /** The outer loop's step: appending phoneme `pi`'s entries leaves the rest to do. */
  lemma CharMapAppendStep(before: seq<(nat, nat)>, ps: seq<Phoneme>, wordLen: nat, pi: nat, ci: nat)
    requires pi < |ps| && ci < wordLen
    ensures (before + Span(pi, ci, CharCount(ps[pi]))) + CharMapFrom(ps, wordLen, pi + 1, ci + CharCount(ps[pi]))
      == before + CharMapFrom(ps, wordLen, pi, ci)
  {
    SpanOfPhoneme(pi, ci, ps[pi]);
    CharMapFromStep(ps, wordLen, pi, ci);
    var span, rest := Span(pi, ci, CharCount(ps[pi])), CharMapFrom(ps, wordLen, pi + 1, ci + CharCount(ps[pi]));
    assert (before + span) + rest == before + (span + rest);
  }

  lemma PhonemeIndicesConcat(a: seq<(nat, nat)>, b: seq<(nat, nat)>)
    ensures PhonemeIndices(a + b) == PhonemeIndices(a) + PhonemeIndices(b)
  {
    var ix, ia, ib := PhonemeIndices(a + b), PhonemeIndices(a), PhonemeIndices(b);
    forall k | 0 <= k < |ix| ensures ix[k] == (ia + ib)[k] {
      if k < |a| { assert (a + b)[k] == a[k]; } else { assert (a + b)[k] == b[k - |a|]; }
    }
  }

  /** One past the last phoneme a mapping starting at `pi` covers. */
  function Covered(m: seq<(nat, nat)>, pi: nat): nat
  {
    if m == [] then pi else m[|m| - 1].0 + 1
  }

  /** Consuming phoneme `pi` leaves the covered range where the rest of the loop ends it. */
  lemma CoveredStep(ps: seq<Phoneme>, wordLen: nat, pi: nat, ci: nat)
    requires pi < |ps| && ci < wordLen
    ensures Covered(CharMapFrom(ps, wordLen, pi, ci), pi)
      == Covered(CharMapFrom(ps, wordLen, pi + 1, ci + CharCount(ps[pi])), pi + 1)
  {
    CharMapFromStep(ps, wordLen, pi, ci);
    var c := CharCount(ps[pi]);
    var s: seq<(nat, nat)> := if c == 1 then [(pi, ci)] else [(pi, ci), (pi, ci + 1)];
    var rest := CharMapFrom(ps, wordLen, pi + 1, ci + c);
    assert (s + rest)[|s + rest| - 1] == if rest == [] then s[|s| - 1] else rest[|rest| - 1];
  }

  /** From entry `k` to entry `k + 1` the phoneme index stays or grows by one. */
  ghost predicate SteadyAt(m: seq<(nat, nat)>, k: nat)
    requires k + 1 < |m|
  {
    m[k].0 <= m[k + 1].0 <= m[k].0 + 1
  }

  /** From one entry to the next the phoneme index stays or grows by one. */
  ghost predicate Steady(m: seq<(nat, nat)>)
  {
    forall k: nat :: k + 1 < |m| ==> SteadyAt(m, k)
  }

  lemma SteadyConcat(a: seq<(nat, nat)>, b: seq<(nat, nat)>)
    requires Steady(a) && Steady(b)
    requires a != [] && b != [] ==> a[|a| - 1].0 <= b[0].0 <= a[|a| - 1].0 + 1
    ensures Steady(a + b)
  {
    forall k: nat | k + 1 < |a + b| ensures SteadyAt(a + b, k) {
      if k + 1 < |a| {
        assert (a + b)[k] == a[k] && (a + b)[k + 1] == a[k + 1] && SteadyAt(a, k);
      } else if k < |a| {
        assert (a + b)[k] == a[k] && (a + b)[k + 1] == b[0];
      } else {
        assert (a + b)[k] == b[k - |a|] && (a + b)[k + 1] == b[k - |a| + 1] && SteadyAt(b, k - |a|);
      }
    }
  }

  /**
   * Phoneme indices start at `pi` and step by zero or one from one entry to
   * the next, so the covered phonemes are exactly `pi .. Covered - 1`.
   */
  lemma {:induction false} CharMapOrder(ps: seq<Phoneme>, wordLen: nat, pi: nat, ci: nat)
    requires pi <= |ps|
    ensures var m := CharMapFrom(ps, wordLen, pi, ci);
      && pi <= Covered(m, pi) <= |ps|
      && (m != [] ==> m[0].0 == pi)
      && Steady(m)
    decreases |ps| - pi
  {
    if pi < |ps| && ci < wordLen {
      var c := CharCount(ps[pi]);
      var s: seq<(nat, nat)> := if c == 1 then [(pi, ci)] else [(pi, ci), (pi, ci + 1)];
      var rest := CharMapFrom(ps, wordLen, pi + 1, ci + c);
      CharMapFromStep(ps, wordLen, pi, ci);
      CoveredStep(ps, wordLen, pi, ci);
      CharMapOrder(ps, wordLen, pi + 1, ci + c);
      OrderStep(s, rest, pi, ci);
    }
  }

  /** A phoneme's one or two entries followed by a steady run from the next phoneme on. */
  lemma OrderStep(s: seq<(nat, nat)>, rest: seq<(nat, nat)>, pi: nat, ci: nat)
    requires s == [(pi, ci)] || s == [(pi, ci), (pi, ci + 1)]
    requires Steady(rest) && (rest != [] ==> rest[0].0 == pi + 1)
    ensures Steady(s + rest) && (s + rest)[0].0 == pi
  {
    SteadyConcat(s, rest);
  }

  /** The first phoneme's entries and the rest's, as a multiset of phoneme indices. */
  lemma CountsStep(ps: seq<Phoneme>, wordLen: nat, pi: nat, ci: nat)
    requires pi < |ps| && ci < wordLen
    ensures var rest := multiset(PhonemeIndices(CharMapFrom(ps, wordLen, pi + 1, ci + CharCount(ps[pi]))));
      && multiset(PhonemeIndices(CharMapFrom(ps, wordLen, pi, ci)))
         == multiset(if CharCount(ps[pi]) == 1 then [pi] else [pi, pi]) + rest
      && rest[pi] == 0
  {
    var c := CharCount(ps[pi]);
    CharMapFromStep(ps, wordLen, pi, ci);
    CharMapRanges(ps, wordLen, pi + 1, ci + c);
    var s: seq<(nat, nat)> := if c == 1 then [(pi, ci)] else [(pi, ci), (pi, ci + 1)];
    var rest := CharMapFrom(ps, wordLen, pi + 1, ci + c);
    PhonemeIndicesConcat(s, rest);
    assert PhonemeIndices(s) == if c == 1 then [pi] else [pi, pi];
    var ixr := PhonemeIndices(rest);
    assert pi !in ixr by {
      forall k | 0 <= k < |ixr| ensures ixr[k] != pi {
        assert ixr[k] == rest[k].0;
      }
    }
  }

  /** Each covered phoneme appears `PHONEME_MAPPINGS.get(p, 1)` times. */
  lemma {:induction false} CharMapCounts(ps: seq<Phoneme>, wordLen: nat, pi: nat, ci: nat)
    requires pi <= |ps|
    ensures var m := CharMapFrom(ps, wordLen, pi, ci);
      forall q: nat :: pi <= q < Covered(m, pi) && q < |ps| ==> multiset(PhonemeIndices(m))[q] == CharCount(ps[q])
    decreases |ps| - pi
  {
    if pi < |ps| && ci < wordLen {
      var c := CharCount(ps[pi]);
      CountsStep(ps, wordLen, pi, ci);
      CoveredStep(ps, wordLen, pi, ci);
      CharMapCounts(ps, wordLen, pi + 1, ci + c);
      var m, rest := CharMapFrom(ps, wordLen, pi, ci), CharMapFrom(ps, wordLen, pi + 1, ci + c);
      CountsCombine(ps, pi, Covered(m, pi), multiset(if c == 1 then [pi] else [pi, pi]),
                    multiset(PhonemeIndices(rest)), multiset(PhonemeIndices(m)));
    }
  }

  /** Phoneme `pi`'s own entries plus the counts the rest of the loop gives the later phonemes. */
  lemma CountsCombine(ps: seq<Phoneme>, pi: nat, cov: nat, first: multiset<nat>, rest: multiset<nat>, whole: multiset<nat>)
    requires pi < |ps|
    requires whole == first + rest
    requires first == multiset(if CharCount(ps[pi]) == 1 then [pi] else [pi, pi])
    requires rest[pi] == 0
    requires forall q: nat :: pi + 1 <= q < cov && q < |ps| ==> rest[q] == CharCount(ps[q])
    ensures forall q: nat :: pi <= q < cov && q < |ps| ==> whole[q] == CharCount(ps[q])
  {
    assert first[pi] == CharCount(ps[pi]);
    forall q: nat | pi < q < cov && q < |ps|
      ensures whole[q] == CharCount(ps[q])
    {
      assert first[q] == 0;
    }
  }

  /**
   * The loop stops once every phoneme is used or `char_index >= len(word)`;
   * every entry but the last lies inside the word, and the last may lie one
   * past it, because a final two-character phoneme is not clamped.
   */
  lemma {:induction false} CharMapStops(ps: seq<Phoneme>, wordLen: nat, pi: nat, ci: nat)
    requires pi <= |ps|
    ensures var m := CharMapFrom(ps, wordLen, pi, ci);
      && (m == [] <==> pi == |ps| || ci >= wordLen)
      && (Covered(m, pi) == |ps| || ci + |m| >= wordLen)
      && (m != [] ==> ci + |m| <= wordLen + 1)
      && (m != [] ==> m[|m| - 1].0 < |ps| && ci + |m| - CharCount(ps[m[|m| - 1].0]) < wordLen)
    decreases |ps| - pi
  {
    CharMapLastInside(ps, wordLen, pi, ci);
    if pi < |ps| && ci < wordLen {
      CharMapFromStep(ps, wordLen, pi, ci);
      CoveredStep(ps, wordLen, pi, ci);
      CharMapStops(ps, wordLen, pi + 1, ci + CharCount(ps[pi]));
    }
  }

  /** The last phoneme the loop covers starts at a character offset inside the word. */
  lemma {:induction false} CharMapLastInside(ps: seq<Phoneme>, wordLen: nat, pi: nat, ci: nat)
    ensures var m := CharMapFrom(ps, wordLen, pi, ci);
      m != [] ==> m[|m| - 1].0 < |ps| && ci + |m| - CharCount(ps[m[|m| - 1].0]) < wordLen
    decreases |ps| - pi
  {
    if pi < |ps| && ci < wordLen {
      var c := CharCount(ps[pi]);
      CharMapFromStep(ps, wordLen, pi, ci);
      SpanOfPhoneme(pi, ci, ps[pi]);
      var span, rest := Span(pi, ci, c), CharMapFrom(ps, wordLen, pi + 1, ci + c);
      var m := span + rest;
      assert CharMapFrom(ps, wordLen, pi, ci) == m;
      if rest == [] {
        assert m == span && m[|m| - 1].0 == pi;
      } else {
        CharMapLastInside(ps, wordLen, pi + 1, ci + c);
        assert m[|m| - 1] == rest[|rest| - 1];
      }
    }
  }

  /** A one-letter word spelled with a two-letter phoneme gets a character index past its end. */
  lemma CharMappingOvershoot()
    ensures CharMapping("a", ["DH"]) == [(0, 0), (0, 1)]
  {
    assert CharCount("DH") == 2;
    CharMapFromStep(["DH"], 1, 0, 0);
    assert CharMapFrom(["DH"], 1, 1, 2) == [];
  }

  /** `create_phoneme_to_char_mapping`: appends `char_count` entries per phoneme while both indices are in range. */
  method CreatePhonemeToCharMapping(word: string, ps: seq<Phoneme>) returns (mapping: seq<(nat, nat)>)
    ensures mapping == CharMapping(word, ps)
  {
    mapping := [];
    var charIndex: nat, phonemeIndex: nat := 0, 0;
    while phonemeIndex < |ps| && charIndex < |word|
      invariant phonemeIndex <= |ps|
      invariant mapping + CharMapFrom(ps, |word|, phonemeIndex, charIndex) == CharMapping(word, ps)
      decreases |ps| - phonemeIndex
    {
      var charCount := CharCount(ps[phonemeIndex]);
      ghost var before := mapping;
      for i := 0 to charCount
        invariant mapping == before + Span(phonemeIndex, charIndex, i)
      {
        var entry: (nat, nat) := (phonemeIndex, charIndex + i);
        mapping := mapping + [entry];
      }
      CharMapAppendStep(before, ps, |word|, phonemeIndex, charIndex);
      charIndex := charIndex + charCount;
      phonemeIndex := phonemeIndex + 1;
    }
  }

  // ---------------------------------------------------------------------------
  // Word groups
  // ---------------------------------------------------------------------------

  /** The groups `split_phonemes` returns, built token by token as its loop does. */
  function Groups(ps: seq<Phoneme>): (gs: seq<seq<Phoneme>>)
    ensures |gs| >= 1
  {
    if ps == [] then [[]]
    else
      var init := Groups(ps[..|ps| - 1]);
      var p := ps[|ps| - 1];
      if p == WordBoundary then init + [[]]
      else init[..|init| - 1] + [init[|init| - 1] + [p]]
  }

  /** One group more than there are `" "` tokens, and no group holds `" "`. */
  lemma {:induction false} GroupsShape(ps: seq<Phoneme>)
    ensures |Groups(ps)| == multiset(ps)[WordBoundary] + 1
    ensures forall k :: 0 <= k < |Groups(ps)| ==> WordBoundary !in Groups(ps)[k]
  {
    if ps != [] {
      var init := ps[..|ps| - 1];
      assert ps == init + [ps[|ps| - 1]];
      GroupsShape(init);
    }
  }

  /** `' '`-joining the groups gives back the tokens. */
  lemma {:induction false} JoinGroups(ps: seq<Phoneme>)
    ensures Join(WordBoundary, Groups(ps)) == ps
  {
    if ps != [] {
      var initPs := ps[..|ps| - 1];
      var p := ps[|ps| - 1];
      var g := Groups(initPs);
      JoinGroups(initPs);
      assert ps == initPs + [p];
      if p == WordBoundary {
        assert Groups(ps) == g + [[]];
        JoinSnoc(WordBoundary, g, []);
      } else {
        var front, last := g[..|g| - 1], g[|g| - 1];
        assert g == front + [last];
        assert Groups(ps) == front + [last + [p]];
        if front == [] {
          assert Groups(ps) == [last + [p]];
        } else {
          JoinSnoc(WordBoundary, front, last + [p]);
          JoinSnoc(WordBoundary, front, last);
        }
      }
    }
  }

  /** Appending tokens without `" "` extends the last group. */
  lemma {:induction false} GroupsAppendWord(ps: seq<Phoneme>, w: seq<Phoneme>)
    requires WordBoundary !in w
    ensures var g := Groups(ps);
      Groups(ps + w) == g[..|g| - 1] + [g[|g| - 1] + w]
    decreases |w|
  {
    var g := Groups(ps);
    if w == [] {
      assert ps + w == ps;
      assert g[|g| - 1] + w == g[|g| - 1];
      assert g == g[..|g| - 1] + [g[|g| - 1]];
    } else {
      var w', x := w[..|w| - 1], w[|w| - 1];
      GroupsAppendWord(ps, w');
      assert (ps + w)[..|ps + w| - 1] == ps + w';
      assert g[|g| - 1] + w' + [x] == g[|g| - 1] + w;
    }
  }

  /** Splitting the `" "`-join of groups without `" "` gives back the groups. */
  lemma {:induction false} GroupsOfJoin(gs: seq<seq<Phoneme>>)
    requires |gs| >= 1
    requires forall k :: 0 <= k < |gs| ==> WordBoundary !in gs[k]
    ensures Groups(Join(WordBoundary, gs)) == gs
  {
    if |gs| == 1 {
      GroupsAppendWord([], gs[0]);
      assert [] + gs[0] == gs[0];
    } else {
      var front, last := gs[..|gs| - 1], gs[|gs| - 1];
      assert gs == front + [last];
      GroupsOfJoin(front);
      JoinSnoc(WordBoundary, front, last);
      var prefix := Join(WordBoundary, front) + [WordBoundary];
      assert prefix[..|prefix| - 1] == Join(WordBoundary, front);
      assert Groups(prefix) == front + [[]];
      GroupsAppendWord(prefix, last);
      assert [] + last == last;
    }
  }

  /** `split_phonemes`: a new group at every `" "` token, the last group appended at the end. */
  method SplitPhonemes(ps: seq<Phoneme>) returns (words: seq<seq<Phoneme>>)
    ensures words == Groups(ps)
  {
    words := [];
    var current: seq<Phoneme> := [];
    for k := 0 to |ps|
      invariant words + [current] == Groups(ps[..k])
    {
      assert ps[..k + 1][..k] == ps[..k];
      if ps[k] == WordBoundary {
        words := words + [current];
        current := [];
      } else {
        assert words + [current] == Groups(ps[..k])[..|words|] + [current];
        current := current + [ps[k]];
      }
    }
    words := words + [current];
    assert ps[..|ps|] == ps;
  }

  // ---------------------------------------------------------------------------
  // Pronunciation score
  // ---------------------------------------------------------------------------

  /** One entry of `word_feedback`: a word of the phrase and the target phonemes it got wrong. */
  datatype WordFeedback = WordFeedback(word: string, errors: seq<Phoneme>)

  /** The `error_info` dictionary `get_pronunciation_score` returns. */
  datatype ErrorInfo = ErrorInfo(accuracy: real, incorrectIndices: map<nat, string>, wordFeedback: seq<WordFeedback>)

  /** The exception raised when the phrase has more words than a phoneme list. */
  datatype ScoreError = IndexError

  /** The only severity the scorer assigns to a character. */
  const Red: string := "red"

  /** `len(' '.join(original_words[:i])) + (i > 0)`: where word `i` starts in the space-joined phrase. */
  function WordStart(words: seq<string>, i: nat): (r: nat)
    requires i <= |words|
  {
    |Join(' ', words[..i])| + (if i > 0 then 1 else 0)
  }

  /** Each word starts one separator after the end of the previous one. */
  lemma WordStartNext(words: seq<string>, i: nat)
    requires i < |words|
    ensures WordStart(words, i + 1) == WordStart(words, i) + |words[i]| + 1
  {
    if i == 0 {
      assert words[..1] == [words[0]];
    } else {
      assert words[..i + 1] == words[..i] + [words[i]];
      JoinSnoc(' ', words[..i], words[i]);
    }
  }

  /** Every word ends inside the space-joined phrase. */
  lemma {:induction false} WordEndsInPhrase(words: seq<string>, i: nat)
    requires i < |words|
    ensures WordStart(words, i) + |words[i]| <= |Join(' ', words)|
    decreases |words| - i
  {
    WordStartNext(words, i);
    if i + 1 < |words| {
      WordEndsInPhrase(words, i + 1);
    } else {
      assert words[..i + 1] == words;
    }
  }

  /** The phonemes `word_mistakes` holds after the first `n` entries of the mapping `m`. */
  function WordErrors(tw: seq<Phoneme>, mis: set<nat>, m: seq<(nat, nat)>, n: nat): (r: seq<Phoneme>)
    requires n <= |m|
    requires forall k :: 0 <= k < |m| ==> m[k].0 < |tw|
    ensures |r| <= n
  {
    if n == 0 then []
    else WordErrors(tw, mis, m, n - 1) + (if m[n - 1].0 in mis then [tw[m[n - 1].0]] else [])
  }

  /** The keys marked red after the first `n` entries of the mapping `m`, offset by `start`. */
  function WordMarks(start: nat, mis: set<nat>, m: seq<(nat, nat)>, n: nat): (r: set<nat>)
    requires n <= |m|
  {
    if n == 0 then {}
    else WordMarks(start, mis, m, n - 1) + (if m[n - 1].0 in mis then {start + m[n - 1].1} else {})
  }

  /** A key is marked exactly when some entry of a mispronounced phoneme maps its character there. */
  lemma {:induction false} WordMarksMeaning(start: nat, mis: set<nat>, m: seq<(nat, nat)>, n: nat, x: nat)
    requires n <= |m|
    ensures x in WordMarks(start, mis, m, n) <==> exists k :: 0 <= k < n && m[k].0 in mis && x == start + m[k].1
  {
    if n > 0 {
      WordMarksMeaning(start, mis, m, n - 1, x);
    }
  }

  /** `e` is the phoneme of `tw` at one of the indices `mis`. */
  ghost predicate PhonemeAt(e: Phoneme, tw: seq<Phoneme>, mis: set<nat>)
  {
    exists k :: k in mis && k < |tw| && e == tw[k]
  }

  /** Every recorded mistake is the target phoneme of a mispronounced index, and there is none without one. */
  lemma {:induction false} WordErrorsMeaning(tw: seq<Phoneme>, mis: set<nat>, m: seq<(nat, nat)>, n: nat)
    requires n <= |m|
    requires forall k :: 0 <= k < |m| ==> m[k].0 < |tw|
    ensures forall e :: e in WordErrors(tw, mis, m, n) ==> PhonemeAt(e, tw, mis)
    ensures WordErrors(tw, mis, m, n) == [] <==> forall k :: 0 <= k < n ==> m[k].0 !in mis
  {
    if n > 0 {
      WordErrorsMeaning(tw, mis, m, n - 1);
    }
  }

  /**
   * With character indices `0, 1, ...` no two entries share a key, so the word
   * gets exactly one red key per recorded mistake, all below `start + n`.
   */
  lemma {:induction false} WordMarksCount(tw: seq<Phoneme>, start: nat, mis: set<nat>, m: seq<(nat, nat)>, n: nat)
    requires n <= |m|
    requires forall k :: 0 <= k < |m| ==> m[k].0 < |tw| && m[k].1 == k
    ensures |WordMarks(start, mis, m, n)| == |WordErrors(tw, mis, m, n)|
    ensures forall x :: x in WordMarks(start, mis, m, n) ==> start <= x < start + n
  {
    if n > 0 {
      WordMarksCount(tw, start, mis, m, n - 1);
      assert start + m[n - 1].1 !in WordMarks(start, mis, m, n - 1);
    }
  }

  /**
   * What the loop body learns about one word: its target phonemes, the
   * indices `get_lcs_indices` reports and the list
   * `create_phoneme_to_char_mapping` builds.
   */
  datatype WordAnalysis = WordAnalysis(target: seq<Phoneme>, mispronounced: set<nat>, mapping: seq<(nat, nat)>)

  /** Every entry of the mapping names a phoneme of the word. */
  ghost predicate MapsInto(a: WordAnalysis)
  {
    forall k :: 0 <= k < |a.mapping| ==> a.mapping[k].0 < |a.target|
  }

  /**
   * The facts about one word's analysis the report relies on: no more
   * mispronounced indices than phonemes, character indices `0, 1, ...`, and
   * at most one character index past the end of the word.
   */
  ghost predicate Sound(a: WordAnalysis, wordLen: nat)
  {
    && |a.mispronounced| <= |a.target|
    && (forall k :: 0 <= k < |a.mapping| ==> a.mapping[k].1 == k)
    && |a.mapping| <= wordLen + 1
  }

  /** The analyses of the first `n` words of the phrase, in order. */
  function Analyses(tg: seq<seq<Phoneme>>, ug: seq<seq<Phoneme>>, ow: seq<string>, n: nat): (ws: seq<WordAnalysis>)
    requires n <= |ow| && n <= |tg| && n <= |ug|
    ensures |ws| == n
    ensures forall i :: 0 <= i < n ==> MapsInto(ws[i])
  {
    if n == 0 then []
    else Analyses(tg, ug, ow, n - 1) + [WordAnalysis(tg[n - 1], Mispronounced(tg[n - 1], ug[n - 1]), CharMapping(ow[n - 1], tg[n - 1]))]
  }

  /** Analysis `i` is the LCS result and the mapping of word `i`. */
  lemma {:induction false} AnalysesAt(tg: seq<seq<Phoneme>>, ug: seq<seq<Phoneme>>, ow: seq<string>, n: nat, i: nat)
    requires n <= |ow| && n <= |tg| && n <= |ug| && i < n
    ensures Analyses(tg, ug, ow, n)[i] == WordAnalysis(tg[i], Mispronounced(tg[i], ug[i]), CharMapping(ow[i], tg[i]))
  {
    if i < n - 1 {
      AnalysesAt(tg, ug, ow, n - 1, i);
    }
  }

  /** Every analysis is sound. */
  lemma AnalysesSound(tg: seq<seq<Phoneme>>, ug: seq<seq<Phoneme>>, ow: seq<string>, n: nat)
    requires n <= |ow| && n <= |tg| && n <= |ug|
    ensures forall i :: 0 <= i < n ==> Sound(Analyses(tg, ug, ow, n)[i], |ow[i]|)
  {
    forall i | 0 <= i < n
      ensures Sound(Analyses(tg, ug, ow, n)[i], |ow[i]|)
    {
      AnalysesAt(tg, ug, ow, n, i);
      MispronouncedSize(tg[i], ug[i]);
      CharMapStops(tg[i], |ow[i]|, 0, 0);
    }
  }

  /** What the outer loop has accumulated: `word_feedback`, the red keys, `total_phonemes`, `correct_phonemes`. */
  datatype Progress = Progress(feedback: seq<WordFeedback>, marks: set<nat>, total: nat, correct: int)

  /** The accumulated results after the first `n` analysed words. */
  function ProgressOf(ow: seq<string>, ws: seq<WordAnalysis>, n: nat): Progress
    requires n <= |ws| && n <= |ow|
    requires forall i :: 0 <= i < n ==> MapsInto(ws[i])
  {
    if n == 0 then Progress([], {}, 0, 0)
    else
      var p, a := ProgressOf(ow, ws, n - 1), ws[n - 1];
      assert MapsInto(ws[n - 1]);
      Progress(p.feedback + [WordFeedback(ow[n - 1], WordErrors(a.target, a.mispronounced, a.mapping, |a.mapping|))],
               p.marks + WordMarks(WordStart(ow, n - 1), a.mispronounced, a.mapping, |a.mapping|),
               p.total + |a.target|,
               p.correct + |a.target| - |a.mispronounced|)
  }

  /** The results after `n` words do not depend on the analyses of later words. */
  lemma {:induction false} ProgressOfPrefix(ow: seq<string>, ws: seq<WordAnalysis>, a: WordAnalysis, n: nat)
    requires n <= |ws| && n <= |ow|
    requires forall i :: 0 <= i < n ==> MapsInto(ws[i])
    ensures ProgressOf(ow, ws + [a], n) == ProgressOf(ow, ws, n)
  {
    if n > 0 {
      ProgressOfPrefix(ow, ws, a, n - 1);
      assert (ws + [a])[n - 1] == ws[n - 1];
    }
  }

  /** Entry `k` of analysis `i`'s mapping belongs to a mispronounced phoneme and marks offset `x`. */
  ghost predicate MarkedBy(ow: seq<string>, ws: seq<WordAnalysis>, i: nat, k: nat, x: nat)
    requires i < |ws| && i <= |ow|
  {
    k < |ws[i].mapping| && ws[i].mapping[k].0 in ws[i].mispronounced && x == WordStart(ow, i) + ws[i].mapping[k].1
  }

  /** The red keys after `n` words are exactly the offsets some earlier word's mispronounced phonemes map to. */
  lemma {:induction false} ProgressMarksMeaning(ow: seq<string>, ws: seq<WordAnalysis>, n: nat, x: nat)
    requires n <= |ws| && n <= |ow|
    requires forall i :: 0 <= i < n ==> MapsInto(ws[i])
    ensures x in ProgressOf(ow, ws, n).marks <==> exists i: nat, k: nat :: i < n && MarkedBy(ow, ws, i, k, x)
  {
    if n > 0 {
      ProgressMarksMeaning(ow, ws, n - 1, x);
      var a, start := ws[n - 1], WordStart(ow, n - 1);
      WordMarksMeaning(start, a.mispronounced, a.mapping, |a.mapping|, x);
      if x in WordMarks(start, a.mispronounced, a.mapping, |a.mapping|) {
        var k :| 0 <= k < |a.mapping| && a.mapping[k].0 in a.mispronounced && x == start + a.mapping[k].1;
        assert MarkedBy(ow, ws, n - 1, k, x);
      }
      if exists i: nat, k: nat :: i < n && MarkedBy(ow, ws, i, k, x) {
        var i: nat, k: nat :| i < n && MarkedBy(ow, ws, i, k, x);
        if i == n - 1 {
          assert x in WordMarks(start, a.mispronounced, a.mapping, |a.mapping|);
        }
      }
    }
  }

  /** One more word of the outer loop, given its mispronounced indices, its mapping and where it starts. */
  lemma ProgressNext(tg: seq<seq<Phoneme>>, ug: seq<seq<Phoneme>>, ow: seq<string>, i: nat,
                     mis: set<nat>, m: seq<(nat, nat)>, start: nat)
    requires i < |tg| && i < |ug| && i < |ow|
    requires mis == Mispronounced(tg[i], ug[i]) && m == CharMapping(ow[i], tg[i]) && start == WordStart(ow, i)
    ensures var p := ProgressOf(ow, Analyses(tg, ug, ow, i), i);
      ProgressOf(ow, Analyses(tg, ug, ow, i + 1), i + 1)
      == Progress(p.feedback + [WordFeedback(ow[i], WordErrors(tg[i], mis, m, |m|))],
                  p.marks + WordMarks(start, mis, m, |m|), p.total + |tg[i]|, p.correct + |tg[i]| - |mis|)
  {
    ProgressOfPrefix(ow, Analyses(tg, ug, ow, i), WordAnalysis(tg[i], mis, m), i);
  }

  /** The number of mistakes listed in a feedback list. */
  function MistakeCount(fb: seq<WordFeedback>): nat
  {
    if fb == [] then 0 else MistakeCount(fb[..|fb| - 1]) + |fb[|fb| - 1].errors|
  }

  /** `(correct_phonemes / total_phonemes) * 100`, left at 0 when there are no phonemes. */
  function Accuracy(correct: int, total: nat): (r: real)
    ensures total == 0 ==> r == 0.0
    ensures total > 0 ==> r * total as real == correct as real * 100.0
  {
    if total > 0 then (correct as real / total as real) * 100.0 else 0.0
  }

  /** Marks every key of `keys` red. */
  function RedMarks(keys: set<nat>): map<nat, string>
  {
    map x | x in keys :: Red
  }

  /**
   * The report over the words of a phrase, given the phonemes of each word:
   * an `IndexError` when the phrase has more words than either phoneme list.
   */
  function ScoreWords(tg: seq<seq<Phoneme>>, ug: seq<seq<Phoneme>>, ow: seq<string>): (r: Result<ErrorInfo, ScoreError>)
    ensures r.Failure? <==> |tg| < |ow| || |ug| < |ow|
    ensures r.Success? ==> |r.value.wordFeedback| == |ow|
  {
    if |tg| < |ow| || |ug| < |ow| then Failure(IndexError)
    else
      var ws := Analyses(tg, ug, ow, |ow|);
      var p := ProgressOf(ow, ws, |ow|);
      ProgressFeedback(ow, ws, |ow|);
      Success(ErrorInfo(Accuracy(p.correct, p.total), RedMarks(p.marks), p.feedback))
  }

  /** `get_pronunciation_score`: the phrase split at whitespace, each phoneme list split at word boundaries. */
  function Score(phrase: string, tp: seq<Phoneme>, up: seq<Phoneme>): (r: Result<ErrorInfo, ScoreError>)
    ensures r.Success? ==> |r.value.wordFeedback| == |SplitWhitespace(phrase)|
  {
    ScoreWords(Groups(tp), Groups(up), SplitWhitespace(phrase))
  }

  lemma RedMarksAdd(keys: set<nat>, x: nat, keys': set<nat>)
    requires keys' == keys + {x}
    ensures RedMarks(keys)[x := Red] == RedMarks(keys')
  {
  }

  /**
   * The inner loop of `get_pronunciation_score` for one word: every entry
   * of the phoneme-to-character mapping whose phoneme is mispronounced marks
   * `word_start + char_idx` red and records `target_word[phoneme_idx]`.
   */
  method MarkWord(targetWord: seq<Phoneme>, mispronounced: set<nat>, phonemeToChar: seq<(nat, nat)>, wordStart: nat,
                  incorrect: map<nat, string>, ghost marked: set<nat>)
    returns (incorrect': map<nat, string>, wordMistakes: seq<Phoneme>)
    requires forall k :: 0 <= k < |phonemeToChar| ==> phonemeToChar[k].0 < |targetWord|
    requires incorrect == RedMarks(marked)
    ensures incorrect' == RedMarks(marked + WordMarks(wordStart, mispronounced, phonemeToChar, |phonemeToChar|))
    ensures wordMistakes == WordErrors(targetWord, mispronounced, phonemeToChar, |phonemeToChar|)
  {
    incorrect' := incorrect;
    wordMistakes := [];
    for k := 0 to |phonemeToChar|
      invariant wordMistakes == WordErrors(targetWord, mispronounced, phonemeToChar, k)
      invariant incorrect' == RedMarks(marked + WordMarks(wordStart, mispronounced, phonemeToChar, k))
    {
      var (phonemeIdx, charIdx) := phonemeToChar[k];
      if phonemeIdx in mispronounced {
        RedMarksAdd(marked + WordMarks(wordStart, mispronounced, phonemeToChar, k), wordStart + charIdx,
                    marked + WordMarks(wordStart, mispronounced, phonemeToChar, k + 1));
        incorrect' := incorrect'[wordStart + charIdx := Red];
        wordMistakes := wordMistakes + [targetWord[phonemeIdx]];
      }
    }
  }

  /** `get_pronunciation_score`, loop for loop, against `Score`. */
  method GetPronunciationScore(targetPhrase: string, targetPhonemes: seq<Phoneme>, userPhonemes: seq<Phoneme>)
    returns (r: Result<ErrorInfo, ScoreError>)
    ensures r == Score(targetPhrase, targetPhonemes, userPhonemes)
  {
    var targetWords := SplitPhonemes(targetPhonemes);
    var userWords := SplitPhonemes(userPhonemes);
    var originalWords := SplitWhitespace(targetPhrase);
    r := ScoreEachWord(targetWords, userWords, originalWords);
  }

  /** The loop of `get_pronunciation_score` over the words of the phrase, against `ScoreWords`. */
  method ScoreEachWord(targetWords: seq<seq<Phoneme>>, userWords: seq<seq<Phoneme>>, originalWords: seq<string>)
    returns (r: Result<ErrorInfo, ScoreError>)
    ensures r == ScoreWords(targetWords, userWords, originalWords)
  {
    var incorrect: map<nat, string> := map[];
    var feedback: seq<WordFeedback> := [];
    var totalPhonemes: nat, correctPhonemes: int := 0, 0;
    ghost var marked: set<nat> := {};
    for i := 0 to |originalWords|
      invariant i <= |targetWords| && i <= |userWords|
      invariant Progress(feedback, marked, totalPhonemes, correctPhonemes)
        == ProgressOf(originalWords, Analyses(targetWords, userWords, originalWords, i), i)
      invariant incorrect == RedMarks(marked)
    {
      if i >= |targetWords| || i >= |userWords| {
        return Failure(IndexError);
      }
      var targetWord, userWord, originalWord := targetWords[i], userWords[i], originalWords[i];
      var mispronounced := GetLcsIndices(targetWord, userWord);
      var phonemeToChar := CreatePhonemeToCharMapping(originalWord, targetWord);
      var wordStart := |Join(' ', originalWords[..i])| + (if i > 0 then 1 else 0);
      assert wordStart == WordStart(originalWords, i);
      var wordMistakes;
      incorrect, wordMistakes := MarkWord(targetWord, mispronounced, phonemeToChar, wordStart, incorrect, marked);
      ProgressNext(targetWords, userWords, originalWords, i, mispronounced, phonemeToChar, wordStart);
      marked := marked + WordMarks(wordStart, mispronounced, phonemeToChar, |phonemeToChar|);
      feedback := feedback + [WordFeedback(originalWord, wordMistakes)];
      totalPhonemes := totalPhonemes + |targetWord|;
      correctPhonemes := correctPhonemes + |targetWord| - |mispronounced|;
    }
    var accuracy := if totalPhonemes > 0 then (correctPhonemes as real / totalPhonemes as real) * 100.0 else 0.0;
    r := Success(ErrorInfo(accuracy, incorrect, feedback));
  }

  // ---------------------------------------------------------------------------
  // Properties of the report
  // ---------------------------------------------------------------------------

  /**
   * `correct_phonemes` never exceeds `total_phonemes` nor drops below zero,
   * and the two are equal exactly when no word has a mispronounced index.
   */
  lemma {:induction false} ProgressCounts(ow: seq<string>, ws: seq<WordAnalysis>, n: nat)
    requires n <= |ws| && n <= |ow|
    requires forall i :: 0 <= i < n ==> MapsInto(ws[i])
    requires forall i :: 0 <= i < n ==> Sound(ws[i], |ow[i]|)
    ensures 0 <= ProgressOf(ow, ws, n).correct <= ProgressOf(ow, ws, n).total
    ensures ProgressOf(ow, ws, n).correct == ProgressOf(ow, ws, n).total
      <==> forall i :: 0 <= i < n ==> ws[i].mispronounced == {}
  {
    if n > 0 {
      ProgressCounts(ow, ws, n - 1);
      var p, q, a := ProgressOf(ow, ws, n - 1), ProgressOf(ow, ws, n), ws[n - 1];
      assert Sound(a, |ow[n - 1]|);
      assert q.correct == q.total <==> p.correct == p.total && a.mispronounced == {};
      assert (forall i :: 0 <= i < n ==> ws[i].mispronounced == {})
        <==> (forall i :: 0 <= i < n - 1 ==> ws[i].mispronounced == {}) && a.mispronounced == {};
    }
  }

  /** Entry `i` of the feedback is word `i` of the phrase with the mistakes its inner loop recorded. */
  lemma {:induction false} ProgressFeedback(ow: seq<string>, ws: seq<WordAnalysis>, n: nat)
    requires n <= |ws| && n <= |ow|
    requires forall i :: 0 <= i < n ==> MapsInto(ws[i])
    ensures |ProgressOf(ow, ws, n).feedback| == n
    ensures forall i :: 0 <= i < n ==>
      ProgressOf(ow, ws, n).feedback[i] == WordFeedback(ow[i], WordErrors(ws[i].target, ws[i].mispronounced, ws[i].mapping, |ws[i].mapping|))
  {
    if n > 0 {
      ProgressFeedback(ow, ws, n - 1);
      var p, a := ProgressOf(ow, ws, n - 1), ws[n - 1];
      var f := ProgressOf(ow, ws, n).feedback;
      assert f == p.feedback + [WordFeedback(ow[n - 1], WordErrors(a.target, a.mispronounced, a.mapping, |a.mapping|))];
      forall i | 0 <= i < n
        ensures f[i] == WordFeedback(ow[i], WordErrors(ws[i].target, ws[i].mispronounced, ws[i].mapping, |ws[i].mapping|))
      {
        if i < n - 1 {
          assert f[i] == p.feedback[i];
        }
      }
    }
  }

  /**
   * The red keys lie before the start of the next word, and there is
   * exactly one red key per recorded mistake: the words' character ranges
   * are disjoint.
   */
  lemma {:induction false} ProgressMarks(ow: seq<string>, ws: seq<WordAnalysis>, n: nat)
    requires n <= |ws| && n <= |ow|
    requires forall i :: 0 <= i < n ==> MapsInto(ws[i])
    requires forall i :: 0 <= i < n ==> Sound(ws[i], |ow[i]|)
    ensures forall x :: x in ProgressOf(ow, ws, n).marks ==> x < WordStart(ow, n)
    ensures |ProgressOf(ow, ws, n).marks| == MistakeCount(ProgressOf(ow, ws, n).feedback)
  {
    if n > 0 {
      var i := n - 1;
      ProgressMarks(ow, ws, i);
      var p, a := ProgressOf(ow, ws, i), ws[i];
      assert MapsInto(a) && Sound(a, |ow[i]|);
      var start := WordStart(ow, i);
      var word := WordMarks(start, a.mispronounced, a.mapping, |a.mapping|);
      WordMarksCount(a.target, start, a.mispronounced, a.mapping, |a.mapping|);
      WordStartNext(ow, i);
      DisjointUnion(p.marks, word, start, WordStart(ow, n));
      var fb := p.feedback + [WordFeedback(ow[i], WordErrors(a.target, a.mispronounced, a.mapping, |a.mapping|))];
      assert fb[..|fb| - 1] == p.feedback;
    }
  }

  /** Keys below `mid` and keys in `[mid, hi)` do not overlap, so their counts add up. */
  lemma DisjointUnion(lower: set<nat>, upper: set<nat>, mid: nat, hi: nat)
    requires mid <= hi
    requires forall x :: x in lower ==> x < mid
    requires forall x :: x in upper ==> mid <= x < hi
    ensures |lower + upper| == |lower| + |upper|
    ensures forall x :: x in lower + upper ==> x < hi
  {
    assert lower * upper == {};
  }

  /** With no mispronounced index anywhere nothing is marked and no mistake is recorded. */
  lemma {:induction false} ProgressPerfect(ow: seq<string>, ws: seq<WordAnalysis>, n: nat)
    requires n <= |ws| && n <= |ow|
    requires forall i :: 0 <= i < n ==> MapsInto(ws[i])
    requires forall i :: 0 <= i < n ==> ws[i].mispronounced == {}
    ensures ProgressOf(ow, ws, n).marks == {}
    ensures MistakeCount(ProgressOf(ow, ws, n).feedback) == 0
  {
    if n > 0 {
      var i := n - 1;
      ProgressPerfect(ow, ws, i);
      var p, a := ProgressOf(ow, ws, i), ws[i];
      assert MapsInto(a) && a.mispronounced == {};
      WordWithoutErrors(a.target, WordStart(ow, i), a.mapping, |a.mapping|);
      var fb := p.feedback + [WordFeedback(ow[i], WordErrors(a.target, a.mispronounced, a.mapping, |a.mapping|))];
      assert fb[..|fb| - 1] == p.feedback;
    }
  }

  /** A word with no mispronounced index gets no red key and no recorded mistake. */
  lemma {:induction false} WordWithoutErrors(tw: seq<Phoneme>, start: nat, m: seq<(nat, nat)>, n: nat)
    requires n <= |m|
    requires forall k :: 0 <= k < |m| ==> m[k].0 < |tw|
    ensures WordMarks(start, {}, m, n) == {}
    ensures WordErrors(tw, {}, m, n) == []
  {
    if n > 0 {
      WordWithoutErrors(tw, start, m, n - 1);
    }
  }

  /**
   * The accuracy lies between 0 and 100; it is 100 exactly when there are
   * phonemes and all of them are correct, and it stays at 0 when there are none.
   */
  lemma AccuracyRange(correct: int, total: nat)
    requires 0 <= correct <= total
    ensures 0.0 <= Accuracy(correct, total) <= 100.0
    ensures Accuracy(correct, total) == 100.0 <==> total > 0 && correct == total
    ensures total == 0 ==> Accuracy(correct, total) == 0.0
  {
    if total > 0 {
      RatioBounds(correct as real, total as real);
    }
  }

  /** A part no larger than the whole makes up at most 100 percent of it, and exactly 100 only when it is the whole. */
  lemma RatioBounds(c: real, t: real)
    requires 0.0 <= c <= t && 0.0 < t
    ensures 0.0 <= (c / t) * 100.0 <= 100.0
    ensures (c / t) * 100.0 == 100.0 <==> c == t
  {
    var q := c / t;
    assert q * t == c;
    if c == t {
      assert (q - 1.0) * t == 0.0;
    }
  }

  /** The phrase is scored exactly when neither phoneme list has fewer words than it, counting `" "` separators. */
  lemma ScoreFailure(phrase: string, tp: seq<Phoneme>, up: seq<Phoneme>)
    ensures Score(phrase, tp, up).Failure?
      <==> |SplitWhitespace(phrase)| > multiset(tp)[WordBoundary] + 1 || |SplitWhitespace(phrase)| > multiset(up)[WordBoundary] + 1
  {
    GroupsShape(tp);
    GroupsShape(up);
  }

  /** The number of target phonemes in the words of the phrase: `total_phonemes` at the end. */
  function PhonemeTotal(tg: seq<seq<Phoneme>>, n: nat): nat
    requires n <= |tg|
  {
    if n == 0 then 0 else PhonemeTotal(tg, n - 1) + |tg[n - 1]|
  }

  lemma {:induction false} ProgressTotal(tg: seq<seq<Phoneme>>, ug: seq<seq<Phoneme>>, ow: seq<string>, n: nat)
    requires n <= |ow| && n <= |tg| && n <= |ug|
    ensures ProgressOf(ow, Analyses(tg, ug, ow, n), n).total == PhonemeTotal(tg, n)
  {
    if n > 0 {
      ProgressTotal(tg, ug, ow, n - 1);
      ProgressOfPrefix(ow, Analyses(tg, ug, ow, n - 1), WordAnalysis(tg[n - 1], Mispronounced(tg[n - 1], ug[n - 1]), CharMapping(ow[n - 1], tg[n - 1])), n - 1);
    }
  }

  /**
   * The accuracy lies between 0 and 100, and it is 100 exactly when the
   * phrase's words have phonemes and the user mispronounced none of them.
   */
  lemma ScoreAccuracy(phrase: string, tp: seq<Phoneme>, up: seq<Phoneme>)
    requires Score(phrase, tp, up).Success?
    ensures 0.0 <= Score(phrase, tp, up).value.accuracy <= 100.0
    ensures Score(phrase, tp, up).value.accuracy == 100.0
      <==> (&& PhonemeTotal(Groups(tp), |SplitWhitespace(phrase)|) > 0
            && forall i :: 0 <= i < |SplitWhitespace(phrase)| ==> Mispronounced(Groups(tp)[i], Groups(up)[i]) == {})
    ensures PhonemeTotal(Groups(tp), |SplitWhitespace(phrase)|) == 0 ==> Score(phrase, tp, up).value.accuracy == 0.0
  {
    var tg, ug, ow := Groups(tp), Groups(up), SplitWhitespace(phrase);
    var ws := Analyses(tg, ug, ow, |ow|);
    AnalysesSound(tg, ug, ow, |ow|);
    ProgressCounts(ow, ws, |ow|);
    ProgressTotal(tg, ug, ow, |ow|);
    var p := ProgressOf(ow, ws, |ow|);
    AccuracyRange(p.correct, p.total);
    forall i | 0 <= i < |ow|
      ensures ws[i].mispronounced == Mispronounced(tg[i], ug[i])
    {
      AnalysesAt(tg, ug, ow, |ow|, i);
    }
  }

  /**
   * Every key of `incorrect_indices` is marked red and lies within the
   * space-joined words of the phrase, and there is one key per mistake
   * listed in `word_feedback`.
   */
  lemma ScoreMarks(phrase: string, tp: seq<Phoneme>, up: seq<Phoneme>)
    requires Score(phrase, tp, up).Success?
    ensures forall x :: x in Score(phrase, tp, up).value.incorrectIndices ==>
      x <= |Join(' ', SplitWhitespace(phrase))| && Score(phrase, tp, up).value.incorrectIndices[x] == Red
    ensures |Score(phrase, tp, up).value.incorrectIndices| == MistakeCount(Score(phrase, tp, up).value.wordFeedback)
  {
    var tg, ug, ow := Groups(tp), Groups(up), SplitWhitespace(phrase);
    var ws := Analyses(tg, ug, ow, |ow|);
    AnalysesSound(tg, ug, ow, |ow|);
    ProgressMarks(ow, ws, |ow|);
    var p := ProgressOf(ow, ws, |ow|);
    assert RedMarks(p.marks).Keys == p.marks;
    assert ow[..|ow|] == ow;
  }

  /**
   * `word_feedback` entry `i` is word `i` of the phrase, and every mistake it
   * lists is the target phoneme at a mispronounced index of that word.
   */
  lemma ScoreFeedback(phrase: string, tp: seq<Phoneme>, up: seq<Phoneme>, i: nat)
    requires Score(phrase, tp, up).Success?
    requires i < |SplitWhitespace(phrase)|
    ensures |Score(phrase, tp, up).value.wordFeedback| == |SplitWhitespace(phrase)|
    ensures Score(phrase, tp, up).value.wordFeedback[i].word == SplitWhitespace(phrase)[i]
    ensures forall e :: e in Score(phrase, tp, up).value.wordFeedback[i].errors ==>
      PhonemeAt(e, Groups(tp)[i], Mispronounced(Groups(tp)[i], Groups(up)[i]))
  {
    var tg, ug, ow := Groups(tp), Groups(up), SplitWhitespace(phrase);
    var ws := Analyses(tg, ug, ow, |ow|);
    ProgressFeedback(ow, ws, |ow|);
    AnalysesAt(tg, ug, ow, |ow|, i);
    var mis, m := Mispronounced(tg[i], ug[i]), CharMapping(ow[i], tg[i]);
    assert Score(phrase, tp, up).value.wordFeedback[i] == WordFeedback(ow[i], WordErrors(tg[i], mis, m, |m|));
    WordErrorsMeaning(tg[i], mis, m, |m|);
  }

  /** A user who says exactly the target phonemes is scored, with nothing marked red and no mistake listed. */
  lemma PerfectScore(phrase: string, tp: seq<Phoneme>)
    requires |SplitWhitespace(phrase)| <= multiset(tp)[WordBoundary] + 1
    ensures Score(phrase, tp, tp).Success?
    ensures Score(phrase, tp, tp).value.incorrectIndices == map[]
    ensures MistakeCount(Score(phrase, tp, tp).value.wordFeedback) == 0
    ensures PhonemeTotal(Groups(tp), |SplitWhitespace(phrase)|) > 0 ==> Score(phrase, tp, tp).value.accuracy == 100.0
  {
    ScoreFailure(phrase, tp, tp);
    var tg, ow := Groups(tp), SplitWhitespace(phrase);
    var ws := Analyses(tg, tg, ow, |ow|);
    forall i | 0 <= i < |ow|
      ensures ws[i].mispronounced == {} && Mispronounced(tg[i], tg[i]) == {}
    {
      AnalysesAt(tg, tg, ow, |ow|, i);
      IdenticalHasNoErrors(tg[i]);
    }
    ProgressPerfect(ow, ws, |ow|);
    ScoreAccuracy(phrase, tp, tp);
  }

  /** Entry `k` of word `i`'s mapping belongs to a mispronounced phoneme and marks offset `x` of the phrase. */
  ghost predicate MarkedAt(tg: seq<seq<Phoneme>>, ug: seq<seq<Phoneme>>, ow: seq<string>, i: nat, k: nat, x: nat)
    requires i < |tg| && i < |ug| && i < |ow|
  {
    var m := CharMapping(ow[i], tg[i]);
    k < |m| && m[k].0 in Mispronounced(tg[i], ug[i]) && x == WordStart(ow, i) + m[k].1
  }

  /** Some word `i` of `ow` has a mapping entry `k` that marks offset `x`. */
  ghost predicate MarkedInPhrase(tg: seq<seq<Phoneme>>, ug: seq<seq<Phoneme>>, ow: seq<string>, x: nat)
  {
    exists i: nat, k: nat :: i < |ow| && i < |tg| && i < |ug| && MarkedAt(tg, ug, ow, i, k, x)
  }

  /** For the analyses of the phrase's words, the two descriptions of a marked offset agree. */
  lemma MarkedByAnalysis(tg: seq<seq<Phoneme>>, ug: seq<seq<Phoneme>>, ow: seq<string>, n: nat, i: nat, k: nat, x: nat)
    requires n <= |ow| && n <= |tg| && n <= |ug| && i < n
    ensures MarkedBy(ow, Analyses(tg, ug, ow, n), i, k, x) <==> MarkedAt(tg, ug, ow, i, k, x)
  {
    AnalysesAt(tg, ug, ow, n, i);
  }

  /**
   * An offset is a key of the report's `incorrect_indices` exactly when some
   * word's mapping sends one of its mispronounced phonemes to that character.
   */
  lemma ScoreWordsMarksMeaning(tg: seq<seq<Phoneme>>, ug: seq<seq<Phoneme>>, ow: seq<string>, x: nat)
    requires ScoreWords(tg, ug, ow).Success?
    ensures x in ScoreWords(tg, ug, ow).value.incorrectIndices <==> MarkedInPhrase(tg, ug, ow, x)
  {
    var ws := Analyses(tg, ug, ow, |ow|);
    ProgressMarksMeaning(ow, ws, |ow|, x);
    var p := ProgressOf(ow, ws, |ow|);
    assert x in ScoreWords(tg, ug, ow).value.incorrectIndices <==> x in p.marks;
    if x in p.marks {
      var i: nat, k: nat :| i < |ow| && MarkedBy(ow, ws, i, k, x);
      MarkedByAnalysis(tg, ug, ow, |ow|, i, k, x);
    }
    if exists i: nat, k: nat :: i < |ow| && i < |tg| && i < |ug| && MarkedAt(tg, ug, ow, i, k, x) {
      var i: nat, k: nat :| i < |ow| && i < |tg| && i < |ug| && MarkedAt(tg, ug, ow, i, k, x);
      MarkedByAnalysis(tg, ug, ow, |ow|, i, k, x);
    }
  }

  /**
   * An offset of the phrase is marked red exactly when, for some word `i`, the
   * mapping of word `i` sends a mispronounced phoneme of that word to it.
   */
  lemma ScoreMarksMeaning(phrase: string, tp: seq<Phoneme>, up: seq<Phoneme>, x: nat)
    requires Score(phrase, tp, up).Success?
    ensures x in Score(phrase, tp, up).value.incorrectIndices
      <==> MarkedInPhrase(Groups(tp), Groups(up), SplitWhitespace(phrase), x)
  {
    ScoreWordsMarksMeaning(Groups(tp), Groups(up), SplitWhitespace(phrase), x);
  }

}
