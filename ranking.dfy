/** How fcd orders the matched directories: the comparator handed to
    `Array.prototype.sort`, the order it stands for, and the sorted list. */
module Ranking {

  /** One matched directory, with the keys it is ranked by. `depth`,
      `nameLength` and `fullLength` are the counts the caller derives
      from the resolved path. */
  datatype Candidate = Candidate(
    dir: string,
    base: string,
    matchPositions: seq<nat>,
    score: int,
    depth: int,
    nameLength: int,
    fullLength: int)

  /** Lexicographic order on strings by character code: `a` is a proper
      prefix of `b`, or the first difference has the smaller character in `a`. */
  ghost predicate StrLess(a: string, b: string) {
    exists k :: 0 <= k <= |a| && k <= |b| && a[..k] == b[..k] &&
      ((k == |a| && k < |b|) || (k < |a| && k < |b| && a[k] < b[k]))
  }

  /** Removing a shared first character does not change the order. */
  lemma StrLessTail(a: string, b: string)
    requires a != [] && b != [] && a[0] == b[0]
    ensures StrLess(a, b) <==> StrLess(a[1..], b[1..])
  {
    if StrLess(a, b) {
      var k :| 0 <= k <= |a| && k <= |b| && a[..k] == b[..k] &&
        ((k == |a| && k < |b|) || (k < |a| && k < |b| && a[k] < b[k]));
      assert k > 0;
      assert a[1..][..k - 1] == a[1..k] && b[1..][..k - 1] == b[1..k];
      assert a[1..k] == a[..k][1..];
      assert b[1..k] == b[..k][1..];
    }
    if StrLess(a[1..], b[1..]) {
      var k :| 0 <= k <= |a[1..]| && k <= |b[1..]| && a[1..][..k] == b[1..][..k] &&
        ((k == |a[1..]| && k < |b[1..]|) || (k < |a[1..]| && k < |b[1..]| && a[1..][k] < b[1..][k]));
      assert a[..k + 1] == [a[0]] + a[1..][..k];
      assert b[..k + 1] == [b[0]] + b[1..][..k];
    }
  }

  /** A three-way string comparison, standing in for `localeCompare`:
      negative, zero or positive as `a` sorts before, equal to, or after `b`. */
  function StrCompare(a: string, b: string): (r: int)
    ensures -1 <= r <= 1
    ensures r == 0 <==> a == b
    ensures r < 0 <==> StrLess(a, b)
    ensures r > 0 <==> StrLess(b, a)
  {
    if a == [] then
      (if b == [] then 0 else assert b[..0] == a[..0]; -1)
    else if b == [] then
      assert b[..0] == a[..0]; 1
    else if a[0] < b[0] then
      assert a[..0] == b[..0]; -1
    else if a[0] > b[0] then
      assert a[..0] == b[..0]; 1
    else
      var r := StrCompare(a[1..], b[1..]);
      StrLessTail(a, b);
      StrLessTail(b, a);
      assert a == [a[0]] + a[1..] && b == [b[0]] + b[1..];
      assert StrLess(a, b) ==> !StrLess(b, a) by {
        if StrLess(a, b) { assert StrLess(a[1..], b[1..]); }
      }
      r
  }

  /** `StrCompare` is transitive on "sorts before". */
  lemma {:induction false} StrCompareTransitive(a: string, b: string, c: string)
    requires StrCompare(a, b) < 0 && StrCompare(b, c) < 0
    ensures StrCompare(a, c) < 0
  {
    if a != [] && b != [] && c != [] && a[0] == b[0] && b[0] == c[0] {
      StrCompareTransitive(a[1..], b[1..], c[1..]);
    }
  }

  /** Two candidates tie on every key, path included. */
  predicate SameKey(a: Candidate, b: Candidate) {
    && a.score == b.score && a.depth == b.depth && a.nameLength == b.nameLength
    && a.fullLength == b.fullLength && a.dir == b.dir
  }

  /** `a` ranks strictly before `b`: higher score, then shallower, then a
      shorter name, then a shorter full path, then the smaller path. */
  ghost predicate Precedes(a: Candidate, b: Candidate) {
    || a.score > b.score
    || (a.score == b.score && a.depth < b.depth)
    || (a.score == b.score && a.depth == b.depth && a.nameLength < b.nameLength)
    || (a.score == b.score && a.depth == b.depth && a.nameLength == b.nameLength
        && a.fullLength < b.fullLength)
    || (a.score == b.score && a.depth == b.depth && a.nameLength == b.nameLength
        && a.fullLength == b.fullLength && StrLess(a.dir, b.dir))
  }

  /** The comparator: the first non-zero difference of the chained keys
      (score descending, the three lengths ascending), else the path order. */
  function Compare(a: Candidate, b: Candidate): (r: int)
    ensures r < 0 <==> Precedes(a, b)
    ensures r > 0 <==> Precedes(b, a)
    ensures r == 0 <==> SameKey(a, b)
  {
    if b.score - a.score != 0 then b.score - a.score
    else if a.depth - b.depth != 0 then a.depth - b.depth
    else if a.nameLength - b.nameLength != 0 then a.nameLength - b.nameLength
    else if a.fullLength - b.fullLength != 0 then a.fullLength - b.fullLength
    else StrCompare(a.dir, b.dir)
  }

  /** `Precedes` is a strict order that is total up to ties on every key. */
  lemma PrecedesIrreflexive(a: Candidate)
    ensures !Precedes(a, a)
  {
    assert Compare(a, a) == 0;
  }

  lemma PrecedesTransitive(a: Candidate, b: Candidate, c: Candidate)
    requires Precedes(a, b) && Precedes(b, c)
    ensures Precedes(a, c)
  {
    assert Compare(a, b) < 0 && Compare(b, c) < 0;
    if a.score == c.score && a.depth == c.depth && a.nameLength == c.nameLength
      && a.fullLength == c.fullLength
    {
      StrCompareTransitive(a.dir, b.dir, c.dir);
    }
  }

  lemma PrecedesTotal(a: Candidate, b: Candidate)
    ensures SameKey(a, b) || Precedes(a, b) || Precedes(b, a)
    ensures !(Precedes(a, b) && Precedes(b, a))
  {
    var _ := Compare(a, b);
  }

  /** The comparator is consistent in the sense `Array.prototype.sort`
      needs: antisymmetric in sign and transitive. */
  lemma CompareConsistent(a: Candidate, b: Candidate, c: Candidate)
    ensures (Compare(a, b) < 0) == (Compare(b, a) > 0)
    ensures Compare(a, b) <= 0 && Compare(b, c) <= 0 ==> Compare(a, c) <= 0
  {
    if Compare(a, b) < 0 && Compare(b, c) < 0 { PrecedesTransitive(a, b, c); }
    if Compare(a, b) == 0 && Compare(b, c) == 0 { assert SameKey(a, c); }
  }

  /** Ordered by `Precedes`: no later element ranks before an earlier one. */
  ghost predicate Sorted(s: seq<Candidate>) {
    forall i, j :: 0 <= i < j < |s| ==> !Precedes(s[j], s[i])
  }

  /** Insert `x` in front of the first element it does not rank after. */
  function Insert(x: Candidate, s: seq<Candidate>): seq<Candidate>
  {
    if s == [] then [x]
    else if Compare(x, s[0]) <= 0 then [x] + s
    else [s[0]] + Insert(x, s[1..])
  }

  /** The sorted candidate list (insertion sort; stable). */
  function Sort(s: seq<Candidate>): seq<Candidate>
  {
    if s == [] then [] else Insert(s[0], Sort(s[1..]))
  }

  lemma {:induction false} InsertPermutes(x: Candidate, s: seq<Candidate>)
    ensures multiset(Insert(x, s)) == multiset(s) + multiset{x}
  {
    if s != [] && Compare(x, s[0]) > 0 {
      InsertPermutes(x, s[1..]);
      assert s == [s[0]] + s[1..];
    }
  }

  lemma {:induction false} InsertSorted(x: Candidate, s: seq<Candidate>)
    requires Sorted(s)
    ensures Sorted(Insert(x, s))
  {
    if s == [] {
    } else if Compare(x, s[0]) <= 0 {
      var r := [x] + s;
      forall i, j | 0 <= i < j < |r| ensures !Precedes(r[j], r[i]) {
        if i == 0 {
          if Precedes(r[j], x) {
            if j > 1 {
              assert !Precedes(s[j - 1], s[0]);
              PrecedesTotal(s[0], s[j - 1]);
              if Precedes(s[0], s[j - 1]) { PrecedesTransitive(s[0], s[j - 1], x); }
            }
          }
        }
      }
    } else {
      InsertSorted(x, s[1..]);
      InsertPermutes(x, s[1..]);
      var t := Insert(x, s[1..]);
      var r := [s[0]] + t;
      assert Precedes(s[0], x);
      forall j | 0 < j < |r| ensures !Precedes(r[j], s[0]) {
        assert r[j] == t[j - 1];
        assert t[j - 1] in multiset(s[1..]) + multiset{x};
        if t[j - 1] != x {
          assert t[j - 1] in s[1..];
          var k :| 0 <= k < |s[1..]| && s[1..][k] == t[j - 1];
          assert s[k + 1] == t[j - 1];
        } else {
          PrecedesTotal(s[0], x);
        }
      }
    }
  }

  /** The sorted list is ordered by the ranking ... */
  lemma {:induction false} SortSorted(s: seq<Candidate>)
    ensures Sorted(Sort(s))
  {
    if s != [] {
      SortSorted(s[1..]);
      InsertSorted(s[0], Sort(s[1..]));
    }
  }

  /** ... and is a permutation of the input. */
  lemma {:induction false} SortPermutes(s: seq<Candidate>)
    ensures multiset(Sort(s)) == multiset(s)
  {
    if s != [] {
      SortPermutes(s[1..]);
      InsertPermutes(s[0], Sort(s[1..]));
      assert s == [s[0]] + s[1..];
    }
  }

  /** The first candidate of a non-empty sorted list has the best score. */
  lemma SortHeadBest(s: seq<Candidate>)
    requires s != []
    ensures |Sort(s)| == |s|
    ensures forall c :: c in s ==> c.score <= Sort(s)[0].score
  {
    SortSorted(s);
    SortPermutes(s);
    var r := Sort(s);
    assert |r| == |multiset(r)| == |multiset(s)| == |s|;
    forall c | c in s ensures c.score <= r[0].score {
      assert c in multiset(r);
      var j :| 0 <= j < |r| && r[j] == c;
      if j > 0 { assert !Precedes(r[j], r[0]); }
    }
  }

  /** Paths are unique within one search. */
  predicate DistinctDirs(s: seq<Candidate>) {
    forall i, j :: 0 <= i < j < |s| ==> s[i].dir != s[j].dir
  }

  /** With distinct paths no candidate occurs twice. */
  lemma {:induction false} DistinctDirsOnce(s: seq<Candidate>)
    requires DistinctDirs(s)
    ensures forall x :: multiset(s)[x] <= 1
  {
    if s != [] {
      DistinctDirsOnce(s[1..]);
      assert s == [s[0]] + s[1..];
      assert forall k :: 0 <= k < |s[1..]| ==> s[1..][k] != s[0] by {
        forall k | 0 <= k < |s[1..]| ensures s[1..][k] != s[0] {
          assert s[1..][k].dir == s[k + 1].dir != s[0].dir;
        }
      }
      assert s[0] !in multiset(s[1..]);
    }
  }

  /** An element at two indices is counted at least twice. */
  lemma Twice(t: seq<Candidate>, i: nat, j: nat)
    requires i < j < |t|
    ensures t[i] == t[j] ==> multiset(t)[t[i]] >= 2
  {
    assert t == t[..i] + [t[i]] + t[i + 1..j] + [t[j]] + t[j + 1..];
  }

  /** Rearranging candidates keeps their paths distinct. */
  lemma DistinctDirsPermutation(s: seq<Candidate>, t: seq<Candidate>)
    requires multiset(s) == multiset(t) && DistinctDirs(s)
    ensures DistinctDirs(t)
  {
    DistinctDirsOnce(s);
    forall i, j | 0 <= i < j < |t| ensures t[i].dir != t[j].dir {
      Twice(t, i, j);
      assert t[i] != t[j];
      assert t[i] in multiset(s) && t[j] in multiset(s);
      var a :| 0 <= a < |s| && s[a] == t[i];
      var b :| 0 <= b < |s| && s[b] == t[j];
      assert a != b;
    }
  }

  /** Sorted lists with distinct paths and the same elements start alike. */
  lemma SortedHeadsAgree(s: seq<Candidate>, t: seq<Candidate>)
    requires Sorted(s) && Sorted(t) && DistinctDirs(s)
    requires multiset(s) == multiset(t) && s != []
    ensures |t| == |s| && s[0] == t[0]
  {
    assert |t| == |s| by { assert |multiset(t)| == |multiset(s)|; }
    assert s[0] in multiset(t) && t[0] in multiset(s);
    var j :| 0 <= j < |t| && t[j] == s[0];
    var i :| 0 <= i < |s| && s[i] == t[0];
    PrecedesTotal(s[0], t[0]);
    assert i > 0 ==> !Precedes(t[0], s[0]) && s[0].dir != t[0].dir;
    assert j > 0 ==> !Precedes(s[0], t[0]);
  }

  /** Dropping a common head keeps the remaining elements equal. */
  lemma TailsPermute(s: seq<Candidate>, t: seq<Candidate>)
    requires multiset(s) == multiset(t) && s != [] && t != [] && s[0] == t[0]
    ensures multiset(s[1..]) == multiset(t[1..])
  {
    assert s == [s[0]] + s[1..] && t == [t[0]] + t[1..];
    assert multiset(s) == multiset{s[0]} + multiset(s[1..]);
    assert multiset(t) == multiset{t[0]} + multiset(t[1..]);
    assert multiset(s[1..]) == multiset(s) - multiset{s[0]};
    assert multiset(t[1..]) == multiset(t) - multiset{t[0]};
  }

  /** Two lists sorted by the ranking, with distinct paths and the same
      elements, are equal. */
  lemma {:induction false} SortedUnique(s: seq<Candidate>, t: seq<Candidate>)
    requires Sorted(s) && Sorted(t) && DistinctDirs(s) && DistinctDirs(t)
    requires multiset(s) == multiset(t)
    ensures s == t
  {
    if s != [] {
      SortedHeadsAgree(s, t);
      TailsPermute(s, t);
      SortedUnique(s[1..], t[1..]);
      assert s == [s[0]] + s[1..] && t == [t[0]] + t[1..];
    } else {
      assert |t| == |multiset(t)| == 0;
    }
  }

  /** Sorting is deterministic: any arrangement of the same candidates,
      with distinct paths, sorts to the same list. */
  lemma SortDeterministic(s: seq<Candidate>, t: seq<Candidate>)
    requires multiset(s) == multiset(t) && DistinctDirs(s)
    ensures Sort(s) == Sort(t)
  {
    SortSorted(s);
    SortSorted(t);
    SortPermutes(s);
    SortPermutes(t);
    DistinctDirsPermutation(s, t);
    DistinctDirsPermutation(s, Sort(s));
    DistinctDirsPermutation(t, Sort(t));
    SortedUnique(Sort(s), Sort(t));
  }
}
