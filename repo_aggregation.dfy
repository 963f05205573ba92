/**
 * dashboard.py, `fetch_user_data` lines 60-88 and 109: the loop over the
 * user's repositories that fills the per-language and per-repository maps,
 * the second loop that derives commits per language, and the commit total.
 */
module RepoAggregation {
  import opened Wrappers
  import opened PyDict

  /** The fields of one repository record the loop reads; `None` is a missing key or JSON null. */
  datatype Repo = Repo(name: Option<string>, language: Option<string>, stars: Option<int>, size: Option<int>)

  const Unknown := "Unknown"

  /** `repo.get("language") or "Unknown"`: an empty or missing language counts as "Unknown". */
  function LanguageKey(r: Repo): string {
    if r.language.Some? && r.language.value != "" then r.language.value else Unknown
  }

  /** `repo.get("name") or "Unknown"`: the key of the per-repository maps. */
  function NameKey(r: Repo): string {
    if r.name.Some? && r.name.value != "" then r.name.value else Unknown
  }

  /** `repo.get("name") or ""`: the key line 86 looks a repository's commits up under. */
  function LookupKey(r: Repo): string {
    if r.name.Some? && r.name.value != "" then r.name.value else ""
  }

  /** `repo.get("stargazers_count") or 0`. */
  function Stars(r: Repo): int {
    r.stars.GetOr(0)
  }

  /** `repo.get("size") or 0`. */
  function Size(r: Repo): int {
    r.size.GetOr(0)
  }

  function LanguageKeys(repos: seq<Repo>): seq<string> {
    seq(|repos|, i requires 0 <= i < |repos| => LanguageKey(repos[i]))
  }

  function NameKeys(repos: seq<Repo>): seq<string> {
    seq(|repos|, i requires 0 <= i < |repos| => NameKey(repos[i]))
  }

  function Sizes(repos: seq<Repo>): seq<int> {
    seq(|repos|, i requires 0 <= i < |repos| => Size(repos[i]))
  }

  function StarCounts(repos: seq<Repo>): seq<int> {
    seq(|repos|, i requires 0 <= i < |repos| => Stars(repos[i]))
  }

  /** The values line 86 reads: each repository's commits looked up by `LookupKey` in `commitsPerRepo`. */
  function LookedUp(repos: seq<Repo>, commitsPerRepo: map<string, int>): seq<int> {
    seq(|repos|, i requires 0 <= i < |repos| => Get(commitsPerRepo, LookupKey(repos[i])))
  }

  /** The dict built by `d[k] = d.get(k, 0) + v` over the pairs `(ks[i], vs[i])` in order. */
  function SumByKey(ks: seq<string>, vs: seq<int>): map<string, int>
    requires |ks| == |vs|
    decreases |ks|
  {
    if ks == [] then map[]
    else
      var n := |ks| - 1;
      var m := SumByKey(ks[..n], vs[..n]);
      m[ks[n] := Get(m, ks[n]) + vs[n]]
  }

  /** The dict built by `d[k] = v` over the pairs `(ks[i], vs[i])` in order: a later pair overwrites an earlier one. */
  function LatestByKey(ks: seq<string>, vs: seq<int>): map<string, int>
    requires |ks| == |vs|
    decreases |ks|
  {
    if ks == [] then map[]
    else
      var n := |ks| - 1;
      LatestByKey(ks[..n], vs[..n])[ks[n] := vs[n]]
  }

  /** The sum of the values paired with `k`, read front to back: the reference for `SumByKey`. */
  function SumFor(ks: seq<string>, vs: seq<int>, k: string): int
    requires |ks| == |vs|
    decreases |ks|
  {
    if ks == [] then 0 else (if ks[0] == k then vs[0] else 0) + SumFor(ks[1..], vs[1..], k)
  }

  /** The sum of a sequence. */
  function Sum(vs: seq<int>): int
    decreases |vs|
  {
    if vs == [] then 0 else Sum(vs[..|vs| - 1]) + vs[|vs| - 1]
  }

  /**
   * Lines 84-88: for each key of `languages`, the sum of the commits looked up
   * (under `LookupKey`) for the repositories whose language is that key.
   */
  function CommitsPerLanguage(repos: seq<Repo>, languages: map<string, int>, commitsPerRepo: map<string, int>): map<string, int> {
    map l | l in languages :: SumFor(LanguageKeys(repos), LookedUp(repos, commitsPerRepo), l)
  }

  /** One more step of the accumulation: the prefix fold extended by pair `i`. */
  lemma SumByKeyStep(ks: seq<string>, vs: seq<int>, i: nat, m: map<string, int>)
    requires |ks| == |vs| && i < |ks|
    requires m == SumByKey(ks[..i], vs[..i])
    ensures SumByKey(ks[..i + 1], vs[..i + 1]) == m[ks[i] := Get(m, ks[i]) + vs[i]]
  {
    assert ks[..i + 1][..i] == ks[..i] && vs[..i + 1][..i] == vs[..i];
  }

  /** One more step of the assignment fold. */
  lemma LatestByKeyStep(ks: seq<string>, vs: seq<int>, i: nat, m: map<string, int>)
    requires |ks| == |vs| && i < |ks|
    requires m == LatestByKey(ks[..i], vs[..i])
    ensures LatestByKey(ks[..i + 1], vs[..i + 1]) == m[ks[i] := vs[i]]
  {
    assert ks[..i + 1][..i] == ks[..i] && vs[..i + 1][..i] == vs[..i];
  }

  /** The maps of the record `fetch_user_data` returns that the loop computes. */
  datatype RepoStats = RepoStats(
    languages: map<string, int>,
    starsPerLanguage: map<string, int>,
    starsPerRepo: map<string, int>,
    commitsPerRepo: map<string, int>,
    commitsPerLanguage: map<string, int>,
    totalCommits: int)

  /** Lines 84-88: the second loop, one language key at a time. */
  method CommitsByLanguage(repos: seq<Repo>, languages: map<string, int>, commitsPerRepo: map<string, int>)
    returns (commitsPerLanguage: map<string, int>)
    ensures commitsPerLanguage == CommitsPerLanguage(repos, languages, commitsPerRepo)
  {
    ghost var looked := LookedUp(repos, commitsPerRepo);
    commitsPerLanguage := map[];
    var todo := languages.Keys;
    while todo != {}
      invariant todo <= languages.Keys
      invariant commitsPerLanguage.Keys == languages.Keys - todo
      invariant forall l :: l in commitsPerLanguage ==> commitsPerLanguage[l] == SumFor(LanguageKeys(repos), looked, l)
      decreases |todo|
    {
      var lang :| lang in todo;
      commitsPerLanguage := commitsPerLanguage[lang := SumFor(LanguageKeys(repos), LookedUp(repos, commitsPerRepo), lang)];
      todo := todo - {lang};
    }
  }

  /**
   * Lines 60-82: the loop over the repositories. `Languages` and
   * `Stars Per Language` accumulate per language key, `Stars Per Repo` and
   * `Commits Per Repo` are assigned per name key.
   */
  method RepoLoop(repos: seq<Repo>, commitCounts: seq<int>)
    returns (languages: map<string, int>, starsPerLanguage: map<string, int>,
             starsPerRepo: map<string, int>, commitsPerRepo: map<string, int>)
    requires |commitCounts| == |repos|
    ensures Dicts(languages, starsPerLanguage, starsPerRepo, commitsPerRepo) == LoopAfter(repos, commitCounts, |repos|)
  {
    languages, starsPerLanguage, starsPerRepo, commitsPerRepo := map[], map[], map[], map[];
    var i := 0;
    while i < |repos|
      invariant 0 <= i <= |repos|
      invariant Dicts(languages, starsPerLanguage, starsPerRepo, commitsPerRepo) == LoopAfter(repos, commitCounts, i)
    {
      var repo := repos[i];
      var lang := LanguageKey(repo);
      var repoName := NameKey(repo);
      var repoStars := Stars(repo);
      var size := Size(repo);
      ghost var before := Dicts(languages, starsPerLanguage, starsPerRepo, commitsPerRepo);
      languages := languages[lang := Get(languages, lang) + size];
      starsPerLanguage := starsPerLanguage[lang := Get(starsPerLanguage, lang) + repoStars];
      starsPerRepo := starsPerRepo[repoName := repoStars];
      commitsPerRepo := commitsPerRepo[repoName := commitCounts[i]];
      assert Dicts(languages, starsPerLanguage, starsPerRepo, commitsPerRepo) == Visit(before, repo, commitCounts[i]);
      i := i + 1;
    }
  }

  /** The four dicts the repository loop fills. */
  datatype Dicts = Dicts(
    languages: map<string, int>,
    starsPerLanguage: map<string, int>,
    starsPerRepo: map<string, int>,
    commitsPerRepo: map<string, int>)

  /** The dicts after one pass of the loop body of lines 64-74 for `repo` and its commit count. */
  function Visit(d: Dicts, repo: Repo, commits: int): Dicts {
    var lang, name := LanguageKey(repo), NameKey(repo);
    Dicts(d.languages[lang := Get(d.languages, lang) + Size(repo)],
          d.starsPerLanguage[lang := Get(d.starsPerLanguage, lang) + Stars(repo)],
          d.starsPerRepo[name := Stars(repo)],
          d.commitsPerRepo[name := commits])
  }

  /** The dicts after the first `i` repositories. */
  function LoopAfter(repos: seq<Repo>, commitCounts: seq<int>, i: nat): Dicts
    requires |commitCounts| == |repos| && i <= |repos|
  {
    if i == 0 then Dicts(map[], map[], map[], map[])
    else Visit(LoopAfter(repos, commitCounts, i - 1), repos[i - 1], commitCounts[i - 1])
  }

  /** After `i` repositories each dict is the fold of the first `i` pairs. */
  lemma LoopAfterFolds(repos: seq<Repo>, commitCounts: seq<int>, i: nat)
    requires |commitCounts| == |repos| && i <= |repos|
    ensures LoopAfter(repos, commitCounts, i)
         == Dicts(SumByKey(LanguageKeys(repos)[..i], Sizes(repos)[..i]),
                  SumByKey(LanguageKeys(repos)[..i], StarCounts(repos)[..i]),
                  LatestByKey(NameKeys(repos)[..i], StarCounts(repos)[..i]),
                  LatestByKey(NameKeys(repos)[..i], commitCounts[..i]))
  {
    LoopAfterLanguages(repos, commitCounts, i);
    LoopAfterStarsPerLanguage(repos, commitCounts, i);
    LoopAfterStarsPerRepo(repos, commitCounts, i);
    LoopAfterCommitsPerRepo(repos, commitCounts, i);
  }

  lemma {:induction false} LoopAfterLanguages(repos: seq<Repo>, commitCounts: seq<int>, i: nat)
    requires |commitCounts| == |repos| && i <= |repos|
    ensures LoopAfter(repos, commitCounts, i).languages == SumByKey(LanguageKeys(repos)[..i], Sizes(repos)[..i])
  {
    if i > 0 {
      LoopAfterLanguages(repos, commitCounts, i - 1);
      SumByKeyStep(LanguageKeys(repos), Sizes(repos), i - 1, LoopAfter(repos, commitCounts, i - 1).languages);
    }
  }

  lemma {:induction false} LoopAfterStarsPerLanguage(repos: seq<Repo>, commitCounts: seq<int>, i: nat)
    requires |commitCounts| == |repos| && i <= |repos|
    ensures LoopAfter(repos, commitCounts, i).starsPerLanguage == SumByKey(LanguageKeys(repos)[..i], StarCounts(repos)[..i])
  {
    if i > 0 {
      LoopAfterStarsPerLanguage(repos, commitCounts, i - 1);
      SumByKeyStep(LanguageKeys(repos), StarCounts(repos), i - 1, LoopAfter(repos, commitCounts, i - 1).starsPerLanguage);
    }
  }

  lemma {:induction false} LoopAfterStarsPerRepo(repos: seq<Repo>, commitCounts: seq<int>, i: nat)
    requires |commitCounts| == |repos| && i <= |repos|
    ensures LoopAfter(repos, commitCounts, i).starsPerRepo == LatestByKey(NameKeys(repos)[..i], StarCounts(repos)[..i])
  {
    if i > 0 {
      LoopAfterStarsPerRepo(repos, commitCounts, i - 1);
      LatestByKeyStep(NameKeys(repos), StarCounts(repos), i - 1, LoopAfter(repos, commitCounts, i - 1).starsPerRepo);
    }
  }

  lemma {:induction false} LoopAfterCommitsPerRepo(repos: seq<Repo>, commitCounts: seq<int>, i: nat)
    requires |commitCounts| == |repos| && i <= |repos|
    ensures LoopAfter(repos, commitCounts, i).commitsPerRepo == LatestByKey(NameKeys(repos)[..i], commitCounts[..i])
  {
    if i > 0 {
      LoopAfterCommitsPerRepo(repos, commitCounts, i - 1);
      LatestByKeyStep(NameKeys(repos), commitCounts, i - 1, LoopAfter(repos, commitCounts, i - 1).commitsPerRepo);
    }
  }

  /** After the whole loop each dict is the fold of all the pairs. */
  lemma LoopAfterAll(repos: seq<Repo>, commitCounts: seq<int>)
    requires |commitCounts| == |repos|
    ensures LoopAfter(repos, commitCounts, |repos|)
         == Dicts(SumByKey(LanguageKeys(repos), Sizes(repos)),
                  SumByKey(LanguageKeys(repos), StarCounts(repos)),
                  LatestByKey(NameKeys(repos), StarCounts(repos)),
                  LatestByKey(NameKeys(repos), commitCounts))
  {
    LoopAfterFolds(repos, commitCounts, |repos|);
    assert LanguageKeys(repos)[..|repos|] == LanguageKeys(repos);
    assert NameKeys(repos)[..|repos|] == NameKeys(repos);
    assert Sizes(repos)[..|repos|] == Sizes(repos);
    assert StarCounts(repos)[..|repos|] == StarCounts(repos);
    assert commitCounts[..|repos|] == commitCounts;
  }

  /**
   * The counts `get_commit_count` returned, one per repository, or `None` when
   * one of the calls raised (line 72): that exception leaves `fetch_user_data`
   * and no record is built.
   */
  function Returned(results: seq<Option<int>>): (r: Option<seq<int>>)
    ensures r.Some? <==> forall i :: 0 <= i < |results| ==> results[i].Some?
    ensures r.Some? ==> |r.value| == |results| && forall i :: 0 <= i < |results| ==> results[i] == Some(r.value[i])
    decreases |results|
  {
    if results == [] then Some([])
    else
      match (results[0], Returned(results[1..]))
      case (Some(c), Some(rest)) => Some([c] + rest)
      case _ => None
  }

  /**
   * Lines 60-88 and 109 given the repositories and, in parallel, what each
   * `get_commit_count` call returned or that it raised: the repository loop,
   * then the per-language commit loop, then the total of `Commits Per Repo`.
   * A raising call means no record at all; the dicts it would have left half
   * filled are local to the function, so the model decides that before the loop.
   */
  method Aggregate(repos: seq<Repo>, commitResults: seq<Option<int>>) returns (stats: Option<RepoStats>)
    requires |commitResults| == |repos|
    ensures stats.None? <==> exists i :: 0 <= i < |commitResults| && commitResults[i].None?
    ensures stats.Some? ==>
              var commitCounts := Returned(commitResults).value;
              && stats.value.languages == SumByKey(LanguageKeys(repos), Sizes(repos))
              && stats.value.starsPerLanguage == SumByKey(LanguageKeys(repos), StarCounts(repos))
              && stats.value.starsPerRepo == LatestByKey(NameKeys(repos), StarCounts(repos))
              && stats.value.commitsPerRepo == LatestByKey(NameKeys(repos), commitCounts)
              && stats.value.commitsPerLanguage == CommitsPerLanguage(repos, stats.value.languages, stats.value.commitsPerRepo)
              && stats.value.totalCommits == MapSum(stats.value.commitsPerRepo)
  {
    var returned := Returned(commitResults);
    if returned.None? {
      return None;
    }
    var commitCounts := returned.value;
    var languages, starsPerLanguage, starsPerRepo, commitsPerRepo := RepoLoop(repos, commitCounts);
    LoopAfterAll(repos, commitCounts);
    var commitsPerLanguage := CommitsByLanguage(repos, languages, commitsPerRepo);
    var total := SumOfValues(commitsPerRepo);
    stats := Some(RepoStats(languages, starsPerLanguage, starsPerRepo, commitsPerRepo, commitsPerLanguage, total));
  }

  // Properties of the maps.

  /** The accumulated dict has exactly the keys that occur. */
  lemma {:induction false} SumByKeyKeys(ks: seq<string>, vs: seq<int>)
    requires |ks| == |vs|
    ensures SumByKey(ks, vs).Keys == set k | k in ks
    decreases |ks|
  {
    if ks != [] {
      var n := |ks| - 1;
      SumByKeyKeys(ks[..n], vs[..n]);
      assert forall k :: k in ks <==> k in ks[..n] || k == ks[n];
    }
  }

  /** The assigned dict has exactly the keys that occur. */
  lemma {:induction false} LatestByKeyKeys(ks: seq<string>, vs: seq<int>)
    requires |ks| == |vs|
    ensures LatestByKey(ks, vs).Keys == set k | k in ks
    decreases |ks|
  {
    if ks != [] {
      var n := |ks| - 1;
      LatestByKeyKeys(ks[..n], vs[..n]);
      assert forall k :: k in ks <==> k in ks[..n] || k == ks[n];
    }
  }

  /** The front-to-back sum for `k` splits off the last pair. */
  lemma {:induction false} SumForSnoc(ks: seq<string>, vs: seq<int>, k: string)
    requires |ks| == |vs| && ks != []
    ensures SumFor(ks, vs, k)
         == SumFor(ks[..|ks| - 1], vs[..|vs| - 1], k) + (if ks[|ks| - 1] == k then vs[|vs| - 1] else 0)
    decreases |ks|
  {
    if |ks| > 1 {
      SumForSnoc(ks[1..], vs[1..], k);
      assert ks[1..][..|ks| - 2] == ks[..|ks| - 1][1..];
      assert vs[1..][..|vs| - 2] == vs[..|vs| - 1][1..];
    }
  }

  /** `d.get(k, 0)` of the accumulated dict is the sum of the values paired with `k`. */
  lemma {:induction false} SumByKeyIsSum(ks: seq<string>, vs: seq<int>, k: string)
    requires |ks| == |vs|
    ensures Get(SumByKey(ks, vs), k) == SumFor(ks, vs, k)
    decreases |ks|
  {
    if ks != [] {
      var n := |ks| - 1;
      SumByKeyIsSum(ks[..n], vs[..n], k);
      SumForSnoc(ks, vs, k);
    }
  }

  /** In the assigned dict a key holds the value of its last occurrence. */
  lemma {:induction false} LatestByKeyIsLast(ks: seq<string>, vs: seq<int>, i: nat)
    requires |ks| == |vs| && i < |ks|
    requires ks[i] !in ks[i + 1..]
    ensures ks[i] in LatestByKey(ks, vs) && LatestByKey(ks, vs)[ks[i]] == vs[i]
    decreases |ks|
  {
    var n := |ks| - 1;
    if i < n {
      assert ks[..n][i + 1..] == ks[i + 1..n];
      assert ks[n] in ks[i + 1..];
      LatestByKeyIsLast(ks[..n], vs[..n], i);
    }
  }

  /** With distinct names nothing is overwritten, so the dict's values sum to the sum of all values. */
  lemma {:induction false} DistinctLatestSum(ks: seq<string>, vs: seq<int>)
    requires |ks| == |vs| && Distinct(ks)
    ensures MapSum(LatestByKey(ks, vs)) == Sum(vs)
    decreases |ks|
  {
    if ks != [] {
      var n := |ks| - 1;
      assert Distinct(ks[..n]);
      DistinctLatestSum(ks[..n], vs[..n]);
      LatestByKeyKeys(ks[..n], vs[..n]);
      assert ks[n] !in ks[..n];
      MapSumUpdate(LatestByKey(ks[..n], vs[..n]), ks[n], vs[n]);
    }
  }

  /**
   * `Languages`, `Stars Per Language` and `Commits Per Language` all have the
   * language keys of the repositories as their key set, and the first two hold
   * per-language sums of sizes and of stars.
   */
  lemma LanguageMaps(repos: seq<Repo>, commitsPerRepo: map<string, int>, l: string)
    ensures SumByKey(LanguageKeys(repos), Sizes(repos)).Keys == set r | r in repos :: LanguageKey(r)
    ensures SumByKey(LanguageKeys(repos), StarCounts(repos)).Keys == set r | r in repos :: LanguageKey(r)
    ensures CommitsPerLanguage(repos, SumByKey(LanguageKeys(repos), Sizes(repos)), commitsPerRepo).Keys
         == set r | r in repos :: LanguageKey(r)
    ensures Get(SumByKey(LanguageKeys(repos), Sizes(repos)), l) == SumFor(LanguageKeys(repos), Sizes(repos), l)
    ensures Get(SumByKey(LanguageKeys(repos), StarCounts(repos)), l) == SumFor(LanguageKeys(repos), StarCounts(repos), l)
  {
    var ks := LanguageKeys(repos);
    SumByKeyKeys(ks, Sizes(repos));
    SumByKeyKeys(ks, StarCounts(repos));
    assert (set k | k in ks) == set r | r in repos :: LanguageKey(r) by {
      forall k | k in ks ensures exists r :: r in repos && LanguageKey(r) == k {
        var i :| 0 <= i < |ks| && ks[i] == k;
        assert repos[i] in repos;
      }
      forall r | r in repos ensures LanguageKey(r) in ks {
        var i :| 0 <= i < |repos| && repos[i] == r;
        assert ks[i] == LanguageKey(r);
      }
    }
    SumByKeyIsSum(ks, Sizes(repos), l);
    SumByKeyIsSum(ks, StarCounts(repos), l);
  }

  /**
   * The per-repository maps are keyed by `NameKey`; each name holds the stars
   * and commits of the last repository with that name, and with distinct
   * names `Total Commits` is the sum of all commit counts.
   */
  lemma RepoMaps(repos: seq<Repo>, commitCounts: seq<int>, i: nat)
    requires |commitCounts| == |repos| && i < |repos|
    requires NameKey(repos[i]) !in NameKeys(repos)[i + 1..]
    ensures LatestByKey(NameKeys(repos), commitCounts).Keys == set r | r in repos :: NameKey(r)
    ensures LatestByKey(NameKeys(repos), StarCounts(repos)).Keys == set r | r in repos :: NameKey(r)
    ensures NameKey(repos[i]) in LatestByKey(NameKeys(repos), StarCounts(repos))
         && LatestByKey(NameKeys(repos), StarCounts(repos))[NameKey(repos[i])] == Stars(repos[i])
    ensures NameKey(repos[i]) in LatestByKey(NameKeys(repos), commitCounts)
         && LatestByKey(NameKeys(repos), commitCounts)[NameKey(repos[i])] == commitCounts[i]
    ensures Distinct(NameKeys(repos)) ==> MapSum(LatestByKey(NameKeys(repos), commitCounts)) == Sum(commitCounts)
  {
    var ks := NameKeys(repos);
    LatestByKeyKeys(ks, commitCounts);
    LatestByKeyKeys(ks, StarCounts(repos));
    assert (set k | k in ks) == set r | r in repos :: NameKey(r) by {
      forall k | k in ks ensures exists r :: r in repos && NameKey(r) == k {
        var j :| 0 <= j < |ks| && ks[j] == k;
        assert repos[j] in repos;
      }
      forall r | r in repos ensures NameKey(r) in ks {
        var j :| 0 <= j < |repos| && repos[j] == r;
        assert ks[j] == NameKey(r);
      }
    }
    LatestByKeyIsLast(ks, commitCounts, i);
    LatestByKeyIsLast(ks, StarCounts(repos), i);
    if Distinct(ks) {
      DistinctLatestSum(ks, commitCounts);
    }
  }

  /**
   * The lookup on line 86: a nameless repository is looked up under `""`,
   * which is never a key of `Commits Per Repo`, so it contributes 0; a named
   * one contributes the commits of the last repository with its name.
   */
  lemma CommitsLookup(repos: seq<Repo>, commitCounts: seq<int>, i: nat, j: nat)
    requires |commitCounts| == |repos| && i < |repos| && j < |repos|
    requires NameKey(repos[j]) == NameKey(repos[i]) && NameKey(repos[j]) !in NameKeys(repos)[j + 1..]
    ensures LookupKey(repos[i]) == "" ==> LookedUp(repos, LatestByKey(NameKeys(repos), commitCounts))[i] == 0
    ensures LookupKey(repos[i]) != "" ==> LookedUp(repos, LatestByKey(NameKeys(repos), commitCounts))[i] == commitCounts[j]
  {
    var ks := NameKeys(repos);
    LatestByKeyKeys(ks, commitCounts);
    assert "" !in ks;
    LatestByKeyIsLast(ks, commitCounts, j);
  }

  // The lookup under `""` on line 86 makes a nameless repository's commits,
  // which `Commits Per Repo` and `Total Commits` hold under "Unknown",
  // disappear from `Commits Per Language`.

  /** One Go repository without a name and with 3 commits. */
  const NamelessGo := [Repo(None, Some("Go"), None, None)]

  lemma NamelessRepoDropsCommits()
    ensures LatestByKey(NameKeys(NamelessGo), [3]) == map[Unknown := 3]
    ensures MapSum(LatestByKey(NameKeys(NamelessGo), [3])) == 3
    ensures CommitsPerLanguage(NamelessGo, SumByKey(LanguageKeys(NamelessGo), Sizes(NamelessGo)),
                               LatestByKey(NameKeys(NamelessGo), [3])) == map["Go" := 0]
  {
    var ks := NameKeys(NamelessGo);
    var m := LatestByKey(ks, [3]);
    assert ks == [Unknown];
    assert ks[..0] == [] && [3][..0] == [];
    assert LatestByKey(ks[..0], [3][..0]) == map[];
    assert m == map[Unknown := 3];
    MapSumUpdate(map[], Unknown, 3);
    var langs := LanguageKeys(NamelessGo);
    assert langs == ["Go"] && Sizes(NamelessGo) == [0];
    assert langs[..0] == [] && [0][..0] == [];
    assert SumByKey(langs, Sizes(NamelessGo)).Keys == {"Go"};
    assert LookedUp(NamelessGo, m) == [0];
    assert SumFor(langs, [0], "Go") == 0;
  }

  /** Lines 84-88 with the lookup under the same key the first loop wrote: `repo.get("name") or "Unknown"`. */
  function CommitsPerLanguageFixed(repos: seq<Repo>, languages: map<string, int>, commitsPerRepo: map<string, int>): map<string, int> {
    map l | l in languages :: SumFor(LanguageKeys(repos), seq(|repos|, i requires 0 <= i < |repos| => Get(commitsPerRepo, NameKey(repos[i]))), l)
  }

  /**
   * With distinct names, the corrected map gives each language the sum of the
   * commit counts of its repositories, nameless ones included, so its values
   * add up per language exactly as `Total Commits` does overall.
   */
  lemma FixedCountsEveryRepo(repos: seq<Repo>, commitCounts: seq<int>, l: string)
    requires |commitCounts| == |repos| && Distinct(NameKeys(repos))
    requires l in SumByKey(LanguageKeys(repos), Sizes(repos))
    ensures CommitsPerLanguageFixed(repos, SumByKey(LanguageKeys(repos), Sizes(repos)), LatestByKey(NameKeys(repos), commitCounts))[l]
         == SumFor(LanguageKeys(repos), commitCounts, l)
  {
    var ks := NameKeys(repos);
    var m := LatestByKey(ks, commitCounts);
    var looked := seq(|repos|, i requires 0 <= i < |repos| => Get(m, NameKey(repos[i])));
    forall i | 0 <= i < |repos| ensures looked[i] == commitCounts[i] {
      assert ks[i] !in ks[i + 1..] by {
        forall j | i + 1 <= j < |ks| ensures ks[j] != ks[i] { }
      }
      LatestByKeyIsLast(ks, commitCounts, i);
    }
    assert looked == commitCounts;
  }
}
