/** End-to-end ranking of three directories against the pattern "ap":
    "api" and "app" score alike and above "apple", and the tie between
    them goes to the smaller path. */
module Scenario {
  import opened Matcher
  import opened Ranking

  /** The score the matcher's contract fixes for a text that starts with
      a two-character pattern. */
  lemma TwoCharPrefixScore(p: string, t: string, pos: seq<nat>)
    requires |p| == 2 && |p| <= |t| && t[..2] == p
    requires IsEmbedding(p, t, pos) && FirstOccurrences(p, t, pos)
    ensures pos == [0, 1]
    ensures Credit(pos) - (|t| - |p|) == 38 - |t|
  {
    PrefixMatch(p, t, pos);
    PrefixCredit(2);
    assert Prefix(2) == [0, 1];
  }

  /** "ap" scores 35 in "api" and "app" and 33 in "apple". */
  lemma ApScores(a: seq<nat>, b: seq<nat>, c: seq<nat>)
    requires IsEmbedding("ap", "api", a) && FirstOccurrences("ap", "api", a)
    requires IsEmbedding("ap", "app", b) && FirstOccurrences("ap", "app", b)
    requires IsEmbedding("ap", "apple", c) && FirstOccurrences("ap", "apple", c)
    ensures Credit(a) - (3 - 2) == 35
    ensures Credit(b) - (3 - 2) == 35
    ensures Credit(c) - (5 - 2) == 33
  {
    TwoCharPrefixScore("ap", "api", a);
    TwoCharPrefixScore("ap", "app", b);
    TwoCharPrefixScore("ap", "apple", c);
  }

  const Api := Candidate("/w/api", "api", [0, 1], 35, 3, 3, 6)
  const App := Candidate("/w/app", "app", [0, 1], 35, 3, 3, 6)
  const Apple := Candidate("/w/apple", "apple", [0, 1], 33, 3, 5, 8)

  /** The tie between "api" and "app" goes to the smaller path. */
  lemma ApiBeforeApp()
    ensures Precedes(Api, App)
  {
    assert Api.dir[..5] == App.dir[..5] && Api.dir[5] < App.dir[5];
    assert StrLess(Api.dir, App.dir);
  }

  /** Sorting them as they might arrive from the directory listing. */
  lemma SortThree()
    ensures Sort([Apple, App, Api]) == [Api, App, Apple]
  {
    ApiBeforeApp();
    assert Compare(App, Api) > 0;
    assert Compare(Apple, Api) > 0 && Compare(Apple, App) > 0;
    assert [Apple, App, Api][1..] == [App, Api];
    assert [App, Api][1..] == [Api];
    assert Sort([Api]) == [Api];
    assert Sort([App, Api]) == Insert(App, [Api]) == [Api, App];
    assert Insert(Apple, [App]) == [App, Apple];
    assert Insert(Apple, [Api, App]) == [Api] + Insert(Apple, [App]);
  }

  /** Whatever order the three arrive in, they sort to api, app, apple. */
  lemma ApRanking(s: seq<Candidate>)
    requires multiset(s) == multiset{Apple, App, Api}
    ensures Sort(s) == [Api, App, Apple]
  {
    SortThree();
    var arrived := [Apple, App, Api];
    assert multiset(arrived) == multiset{Apple, App, Api};
    assert DistinctDirs(arrived);
    SortDeterministic(arrived, s);
  }
}
