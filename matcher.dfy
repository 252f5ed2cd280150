/** The fuzzy matcher of fcd: a greedy, leftmost subsequence match of a
    pattern against a directory's base name, with a positional score. */
module Matcher {

  datatype Option<T> = None | Some(value: T)

  /** A successful match: its score and, for every pattern character, the
      index of the text character it was matched against. */
  datatype Match = Match(score: int, positions: seq<nat>)

  function Max(a: int, b: int): int { if a >= b then a else b }

  /** `pos` places every character of `p` on an equal character of `t`,
      strictly from left to right. */
  predicate IsEmbedding(p: string, t: string, pos: seq<nat>) {
    && |pos| == |p|
    && (forall i :: 0 <= i < |pos| ==> pos[i] < |t| && t[pos[i]] == p[i])
    && (forall i, j :: 0 <= i < j < |pos| ==> pos[i] < pos[j])
  }

  /** `p` occurs in `t` as a (not necessarily contiguous) subsequence. */
  ghost predicate IsSubsequence(p: string, t: string) {
    exists pos :: IsEmbedding(p, t, pos)
  }

  /** The index matched just before the `i`-th one; -1 before the first. */
  function Prev(pos: seq<nat>, i: nat): int
    requires i <= |pos|
  {
    if i == 0 then -1 else pos[i - 1]
  }

  /** Every position is the FIRST occurrence of its pattern character after
      the previous position: nothing was skipped that could have matched. */
  predicate FirstOccurrences(p: string, t: string, pos: seq<nat>) {
    forall i :: 0 <= i < |pos| && i < |p| ==>
      forall k :: Prev(pos, i) < k < pos[i] && k < |t| ==> t[k] != p[i]
  }

  /** No embedding of `p` in `t` puts any character further left than `pos`. */
  ghost predicate Leftmost(p: string, t: string, pos: seq<nat>) {
    forall e :: IsEmbedding(p, t, e) ==>
      forall i :: 0 <= i < |pos| && i < |e| ==> pos[i] <= e[i]
  }

  /** The credit for the `i`-th matched index: 5 for matching, 10 for
      following the previous match directly (the index before the first
      match counts as -1, so index 0 earns it), 3 for index 0, and
      max(0, 2 - index). */
  function Gain(pos: seq<nat>, i: nat): int
    requires i < |pos|
  {
    5
    + (if pos[i] == Prev(pos, i) + 1 then 10 else 0)
    + (if pos[i] == 0 then 3 else 0)
    + Max(0, 2 - pos[i] as int)
  }

  /** The sum of the gains of all matched indices. */
  function Credit(pos: seq<nat>): int
    decreases |pos|
  {
    if pos == [] then 0 else Credit(pos[..|pos| - 1]) + Gain(pos, |pos| - 1)
  }

  /** `String.prototype.indexOf` for a one-character needle: the first
      index at or after `from` holding `c`, or -1 when there is none. */
  function IndexOf(text: string, c: char, from: nat): (r: int)
    ensures r == -1 || (from <= r < |text| && text[r] == c)
    ensures r == -1 <==> forall k :: from <= k < |text| ==> text[k] != c
    ensures r != -1 ==> forall k :: from <= k < r ==> text[k] != c
    decreases |text| - from
  {
    if from >= |text| then -1
    else if text[from] == c then from
    else IndexOf(text, c, from + 1)
  }

  /** A greedy prefix match is leftmost: it is pointwise no further right
      than any embedding of the whole pattern. */
  lemma {:induction false} GreedyIsLeftmost(p: string, t: string, pos: seq<nat>, e: seq<nat>, n: nat)
    requires |pos| <= |p|
    requires IsEmbedding(p[..|pos|], t, pos) && FirstOccurrences(p, t, pos)
    requires IsEmbedding(p, t, e)
    requires n <= |pos|
    ensures forall i :: 0 <= i < n ==> pos[i] <= e[i]
  {
    if n > 0 {
      GreedyIsLeftmost(p, t, pos, e, n - 1);
      var i := n - 1;
      assert Prev(pos, i) <= Prev(e, i) < e[i] < |t|;
      assert t[e[i]] == p[i];
    }
  }

  /** Every embedding of the whole pattern places its next character
      strictly after the greedy prefix match: a missed character means no
      embedding exists. */
  lemma EmbeddingsPassCursor(p: string, t: string, pos: seq<nat>)
    requires |pos| < |p| && GreedyPrefix(p, t, pos)
    ensures forall e :: IsEmbedding(p, t, e) ==>
      Prev(pos, |pos|) < e[|pos|] && t[e[|pos|]] == p[|pos|]
  {
    forall e | IsEmbedding(p, t, e)
      ensures Prev(pos, |pos|) < e[|pos|] && t[e[|pos|]] == p[|pos|]
    {
      GreedyIsLeftmost(p, t, pos, e, |pos|);
      assert Prev(pos, |pos|) <= Prev(e, |pos|) < e[|pos|];
    }
  }

  /** A pattern character missing after the greedy prefix match means the
      pattern has no embedding at all (the early failure). */
  lemma MissedCharacter(p: string, t: string, pos: seq<nat>)
    requires |pos| < |p| && GreedyPrefix(p, t, pos)
    requires forall k :: Prev(pos, |pos|) < k < |t| ==> t[k] != p[|pos|]
    ensures !IsSubsequence(p, t)
  {
    EmbeddingsPassCursor(p, t, pos);
  }

  /** Matched indices are at least their rank. */
  lemma {:induction false} EmbeddingRank(p: string, t: string, pos: seq<nat>, n: nat)
    requires IsEmbedding(p, t, pos)
    requires n <= |pos|
    ensures forall i :: 0 <= i < n ==> i <= pos[i]
  {
    if n > 0 {
      EmbeddingRank(p, t, pos, n - 1);
      if n > 1 { assert pos[n - 2] < pos[n - 1]; }
    }
  }

  /** A pattern only embeds in a text at least as long as itself. */
  lemma EmbeddingFits(p: string, t: string, pos: seq<nat>)
    requires IsEmbedding(p, t, pos)
    ensures |p| <= |t|
  {
    if |pos| > 0 {
      EmbeddingRank(p, t, pos, |pos|);
      assert |pos| - 1 <= pos[|pos| - 1] < |t|;
    }
  }

  /** Appending the next match extends an embedding of a prefix. */
  lemma EmbeddingStep(p: string, t: string, pos: seq<nat>, idx: nat)
    requires |pos| < |p| && IsEmbedding(p[..|pos|], t, pos)
    requires Prev(pos, |pos|) < idx < |t| && t[idx] == p[|pos|]
    ensures IsEmbedding(p[..|pos| + 1], t, pos + [idx])
  {
    var q := pos + [idx];
    var n := |pos|;
    forall i | 0 <= i < |q| ensures q[i] < |t| && t[q[i]] == p[..n + 1][i] {
      if i < n { assert q[i] == pos[i] && p[..n][i] == p[i] == p[..n + 1][i]; }
    }
    forall i, j | 0 <= i < j < |q| ensures q[i] < q[j] {
      if j == n && i < n - 1 { assert pos[i] < pos[n - 1]; }
    }
  }

  /** Appending the first occurrence after the previous match keeps every
      position a first occurrence. */
  lemma FirstOccurrencesStep(p: string, t: string, pos: seq<nat>, idx: nat)
    requires |pos| < |p| && FirstOccurrences(p, t, pos) && idx <= |t|
    requires forall k :: Prev(pos, |pos|) < k < idx ==> t[k] != p[|pos|]
    ensures FirstOccurrences(p, t, pos + [idx])
  {
    var q := pos + [idx];
    assert forall i :: 0 <= i <= |pos| ==> Prev(q, i) == Prev(pos, i);
  }

  /** Appending an index adds its gain to the credit. */
  lemma CreditStep(pos: seq<nat>, idx: nat)
    ensures Credit(pos + [idx]) == Credit(pos) + Gain(pos + [idx], |pos|)
  {
    assert (pos + [idx])[..|pos|] == pos;
  }

  /** The gain of a newly appended index, in the terms the loop uses. */
  lemma AppendedGain(pos: seq<nat>, idx: nat)
    ensures Gain(pos + [idx], |pos|) == 5
      + (if idx == Prev(pos, |pos|) + 1 then 10 else 0)
      + (if idx == 0 then 3 else 0)
      + Max(0, 2 - idx)
  {
    assert Prev(pos + [idx], |pos|) == Prev(pos, |pos|);
  }

  /** The loop's invariant: `pos` is a greedy match of the first |pos|
      pattern characters. */
  predicate GreedyPrefix(p: string, t: string, pos: seq<nat>) {
    |pos| <= |p| && IsEmbedding(p[..|pos|], t, pos) && FirstOccurrences(p, t, pos)
  }

  /** One loop step: appending the first occurrence of the next pattern
      character after the previous match keeps a greedy prefix match and
      adds that index's gain to the credit. */
  lemma GreedyStep(p: string, t: string, pos: seq<nat>, idx: nat)
    requires |pos| < |p| && GreedyPrefix(p, t, pos)
    requires Prev(pos, |pos|) < idx < |t| && t[idx] == p[|pos|]
    requires forall k :: Prev(pos, |pos|) < k < idx ==> t[k] != p[|pos|]
    ensures GreedyPrefix(p, t, pos + [idx])
    ensures Prev(pos + [idx], |pos| + 1) == idx
    ensures Credit(pos + [idx]) == Credit(pos) + 5
      + (if idx == Prev(pos, |pos|) + 1 then 10 else 0)
      + (if idx == 0 then 3 else 0)
      + Max(0, 2 - idx)
  {
    EmbeddingStep(p, t, pos, idx);
    FirstOccurrencesStep(p, t, pos, idx);
    CreditStep(pos, idx);
    AppendedGain(pos, idx);
  }

  /** After the last pattern character the greedy positions embed the whole
      pattern, leftmost among all embeddings. */
  lemma GreedyComplete(p: string, t: string, pos: seq<nat>)
    requires |pos| == |p| && GreedyPrefix(p, t, pos)
    ensures IsEmbedding(p, t, pos) && Leftmost(p, t, pos) && |p| <= |t|
  {
    assert p[..|p|] == p;
    EmbeddingFits(p, t, pos);
    forall e | IsEmbedding(p, t, e)
      ensures forall i :: 0 <= i < |pos| && i < |e| ==> pos[i] <= e[i]
    {
      GreedyIsLeftmost(p, t, pos, e, |pos|);
    }
  }

  /** fuzzyScore: for each pattern character in turn, take its first
      occurrence at or after the cursor; fail as soon as one is missing. */
  method FuzzyScore(pattern: string, text: string) returns (r: Option<Match>)
    ensures r.None? <==> !IsSubsequence(pattern, text)
    ensures r.Some? ==> IsEmbedding(pattern, text, r.value.positions)
    ensures r.Some? ==> FirstOccurrences(pattern, text, r.value.positions)
    ensures r.Some? ==> Leftmost(pattern, text, r.value.positions)
    ensures r.Some? ==> r.value.score == Credit(r.value.positions) - (|text| - |pattern|)
    ensures r.Some? ==> |pattern| <= |text|
    ensures pattern == [] ==> r == Some(Match(-|text|, []))
  {
    var score := 0;
    var ti: nat := 0;
    var lastMatch := -1;
    var positions: seq<nat> := [];
    for i := 0 to |pattern|
      invariant |positions| == i
      invariant GreedyPrefix(pattern, text, positions)
      invariant lastMatch == Prev(positions, i)
      invariant ti == lastMatch + 1
      invariant score == Credit(positions)
    {
      var pc := pattern[i];
      var idx := IndexOf(text, pc, ti);
      if idx == -1 {
        MissedCharacter(pattern, text, positions);
        return None;
      }
      GreedyStep(pattern, text, positions, idx);
      positions := positions + [idx];
      score := score + 5;
      if idx == lastMatch + 1 {
        score := score + 10;
      }
      if idx == 0 {
        score := score + 3;
      }
      score := score + Max(0, 2 - idx);
      ti := idx + 1;
      lastMatch := idx;
    }
    GreedyComplete(pattern, text, positions);
    score := score - (|text| - |pattern|);
    r := Some(Match(score, positions));
  }

  /** The result's positions are determined by its contract: greedy
      first-occurrence embeddings of one pattern in one text coincide. */
  lemma GreedyUnique(p: string, t: string, a: seq<nat>, b: seq<nat>)
    requires IsEmbedding(p, t, a) && FirstOccurrences(p, t, a)
    requires IsEmbedding(p, t, b) && FirstOccurrences(p, t, b)
    ensures a == b
  {
    assert p[..|a|] == p;
    GreedyIsLeftmost(p, t, a, b, |a|);
    GreedyIsLeftmost(p, t, b, a, |b|);
  }

  /** The indices 0, 1, ..., m - 1. */
  function Prefix(m: nat): (s: seq<nat>)
    ensures |s| == m && forall i :: 0 <= i < m ==> s[i] == i
  {
    if m == 0 then [] else Prefix(m - 1) + [m - 1]
  }

  /** A text that starts with the pattern is matched on its first |p|
      characters. */
  lemma PrefixMatch(p: string, t: string, pos: seq<nat>)
    requires |p| <= |t| && t[..|p|] == p
    requires IsEmbedding(p, t, pos) && FirstOccurrences(p, t, pos)
    ensures pos == Prefix(|p|)
  {
    var w := Prefix(|p|);
    forall i | 0 <= i < |w| ensures w[i] < |t| && t[w[i]] == p[i] {
      assert t[..|p|][i] == t[i];
    }
    assert IsEmbedding(p, t, w);
    assert FirstOccurrences(p, t, w) by {
      forall i | 0 <= i < |w| ensures Prev(w, i) == i - 1 { }
    }
    GreedyUnique(p, t, pos, w);
  }

  /** The credit of a prefix match: every index continues the run, index 0
      adds 3 + 2 and index 1 adds 1, so m >= 2 characters earn 15m + 6. */
  lemma {:induction false} PrefixCredit(m: nat)
    ensures Credit(Prefix(m)) == if m == 0 then 0 else if m == 1 then 20 else 15 * m + 6
  {
    if m > 0 {
      PrefixCredit(m - 1);
      var w := Prefix(m);
      assert w[..m - 1] == Prefix(m - 1);
      assert Prev(w, m - 1) == m - 2;
    }
  }

  /** "ab" in "xaxb" matches at [1, 3]. */
  lemma GreedyExample(pos: seq<nat>)
    requires IsEmbedding("ab", "xaxb", pos) && FirstOccurrences("ab", "xaxb", pos)
    ensures pos == [1, 3]
  {
    var w: seq<nat> := [1, 3];
    assert IsEmbedding("ab", "xaxb", w);
    assert FirstOccurrences("ab", "xaxb", w) by {
      assert Prev(w, 0) == -1 && Prev(w, 1) == 1;
    }
    GreedyUnique("ab", "xaxb", pos, w);
  }

  /** A two-character pattern embeds only where its first character occurs
      before its second. */
  lemma PairOrder(p: string, t: string)
    requires |p| == 2
    ensures IsSubsequence(p, t) ==>
      exists i, j :: 0 <= i < j < |t| && t[i] == p[0] && t[j] == p[1]
  {
    if IsSubsequence(p, t) {
      var pos :| IsEmbedding(p, t, pos);
      assert pos[0] < pos[1] < |t| && t[pos[0]] == p[0] && t[pos[1]] == p[1];
    }
  }

  /** "ba" is not a subsequence of "ab": the order of characters matters. */
  lemma ReversedPairFails()
    ensures !IsSubsequence("ba", "ab")
  {
    PairOrder("ba", "ab");
  }

  /** The greedy embedding of "ab" in "ab" is [0, 1]. */
  lemma AbInAb(a: seq<nat>)
    requires IsEmbedding("ab", "ab", a) && FirstOccurrences("ab", "ab", a)
    ensures a == [0, 1]
  {
    assert "ab"[..2] == "ab";
    PrefixMatch("ab", "ab", a);
    assert Prefix(2) == [0, 1];
  }

  /** The greedy embedding of "ab" in "axb" is [0, 2]. */
  lemma AbInAxb(b: seq<nat>)
    requires IsEmbedding("ab", "axb", b) && FirstOccurrences("ab", "axb", b)
    ensures b == [0, 2]
  {
    var w: seq<nat> := [0, 2];
    assert IsEmbedding("ab", "axb", w);
    assert FirstOccurrences("ab", "axb", w) by {
      assert Prev(w, 0) == -1 && Prev(w, 1) == 0;
      assert "axb"[1] != 'b';
    }
    GreedyUnique("ab", "axb", b, w);
  }

  /** Credits of two concrete matches. */
  lemma CreditExamples()
    ensures Credit([0, 1]) == 36
    ensures Credit([0, 2]) == 25
  {
    var wa: seq<nat> := [0, 1];
    var wb: seq<nat> := [0, 2];
    assert wa[..1] == [0] && wb[..1] == [0];
    assert [0][..0] == [];
    assert Gain(wa, 1) == 16;
    assert Gain(wb, 1) == 5;
  }

  /** A contiguous prefix match scores higher than a gapped one:
      "ab" against "ab" (score 36) beats "ab" against "axb" (score 24). */
  lemma ContiguousBeatsGapped(a: seq<nat>, b: seq<nat>)
    requires IsEmbedding("ab", "ab", a) && FirstOccurrences("ab", "ab", a)
    requires IsEmbedding("ab", "axb", b) && FirstOccurrences("ab", "axb", b)
    ensures Credit(a) - (2 - 2) == 36
    ensures Credit(b) - (3 - 2) == 24
  {
    AbInAb(a);
    AbInAxb(b);
    CreditExamples();
  }
}
