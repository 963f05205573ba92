// The recommender of Recommendation_dashboard.py: the language preprocessing
// of the stored user documents and the cosine-similarity ranking over the
// binarised language sets.
//
// A row of the MultiLabelBinarizer matrix is the 0/1 indicator vector of a
// user's language set, so the dot product of two rows is the size of the
// intersection of the two sets and the norm of a row is the square root of
// the set's size. The cosine similarity of rows A and B is therefore
// |A*B| / sqrt(|A|*|B|), and 0 when either row is all zeros. The model keeps
// its square, |A*B|^2 / (|A|*|B|), as an exact real: the cosine is never
// negative and the square root is monotone, so both order the candidates
// identically.
module Recommend {
  import opened Wrappers
  import PyDict

  /** The 'Languages' field of a stored document: a dict from language to bytes, or anything else. */
  datatype LanguagesField = LangDict(bytes: map<string, int>) | NotDict

  /** A document of the user collection, as far as the recommender reads it. */
  datatype StoredUser = StoredUser(login: string, profileUrl: string, avatarUrl: string, languages: LanguagesField)

  /** A row of the preprocessed frame; 'LanguagesList' holds the keys of the dict (distinct, so a set). */
  datatype Row = Row(login: string, profileUrl: string, avatarUrl: string, languagesList: set<string>)

  /** list(x.keys()) for a dict, [] for any other value. */
  function LanguagesList(f: LanguagesField): set<string>
  {
    match f
    case LangDict(bytes) => bytes.Keys
    case NotDict => {}
  }

  function ToRow(u: StoredUser): Row
  {
    Row(u.login, u.profileUrl, u.avatarUrl, LanguagesList(u.languages))
  }

  /** preprocess_languages: keeps, in order, the users with at least one language. */
  function Preprocess(users: seq<StoredUser>): (rows: seq<Row>)
    ensures |rows| <= |users|
    ensures forall r :: r in rows ==> r.languagesList != {}
  {
    if users == [] then []
    else
      var rest := Preprocess(users[..|users| - 1]);
      var r := ToRow(users[|users| - 1]);
      if r.languagesList != {} then rest + [r] else rest
  }

  /** A row is kept exactly when it comes from some user and has a language. */
  lemma {:induction false} PreprocessMembers(users: seq<StoredUser>, r: Row)
    ensures r in Preprocess(users) <==>
            r.languagesList != {} && exists i :: 0 <= i < |users| && ToRow(users[i]) == r
  {
    if users != [] {
      var n := |users| - 1;
      PreprocessMembers(users[..n], r);
      if exists i :: 0 <= i < |users| && ToRow(users[i]) == r {
        var i :| 0 <= i < |users| && ToRow(users[i]) == r;
        if i < n {
          assert users[..n][i] == users[i];
        }
      }
      if exists i :: 0 <= i < n && ToRow(users[..n][i]) == r {
        var i :| 0 <= i < n && ToRow(users[..n][i]) == r;
        assert users[i] == users[..n][i];
      }
    }
  }

  /** The filter keeps the order of the collection: it distributes over concatenation. */
  lemma {:induction false} PreprocessAppend(a: seq<StoredUser>, b: seq<StoredUser>)
    ensures Preprocess(a + b) == Preprocess(a) + Preprocess(b)
  {
    if b == [] {
      assert a + b == a;
    } else {
      var n := |b| - 1;
      PreprocessAppend(a, b[..n]);
      assert (a + b)[..|a + b| - 1] == a + b[..n];
      assert (a + b)[|a + b| - 1] == b[n];
    }
  }

  /** The square of the cosine similarity of two binarised language sets. */
  function SquaredCosine(a: set<string>, b: set<string>): real
  {
    if a == {} || b == {} then 0.0
    else
      var c := |a * b|;
      (c * c) as real / (|a| * |b|) as real
  }

  lemma MulLe(x: nat, y: nat, p: nat, q: nat)
    requires x <= p && y <= q
    ensures x * y <= p * q
  {
  }

  lemma MulLt(x: nat, y: nat, p: nat, q: nat)
    requires x < p && y <= q && 0 < q
    ensures x * y < p * q
  {
  }

  lemma IntersectionSize(a: set<string>, b: set<string>)
    ensures |a * b| <= |a| && |a * b| <= |b|
  {
    assert |a - b| == |a| - |a * b|;
    assert b * a == a * b;
    assert |b - a| == |b| - |b * a|;
  }

  /** A set whose intersection with b is as large as itself lies inside b. */
  lemma IntersectionFull(a: set<string>, b: set<string>)
    requires |a * b| == |a|
    ensures a <= b
  {
    assert |a - b| == |a| - |a * b|;
    assert a - b == {};
    forall x | x in a
      ensures x in b
    {
      assert x !in a - b;
    }
  }

  /** Cosine similarity of non-negative vectors lies in [0, 1]. */
  lemma CosineBounds(a: set<string>, b: set<string>)
    ensures 0.0 <= SquaredCosine(a, b) <= 1.0
  {
    if a != {} && b != {} {
      var c := |a * b|;
      IntersectionSize(a, b);
      MulLe(c, c, |a|, |b|);
      MulLe(1, 1, |a|, |b|);
      assert (c * c) as real <= (|a| * |b|) as real;
    }
  }

  /** The similarity is 1 exactly for two equal, non-empty language sets. */
  lemma CosineOne(a: set<string>, b: set<string>)
    ensures SquaredCosine(a, b) == 1.0 <==> a == b && a != {}
  {
    if a != {} && b != {} {
      var c := |a * b|;
      IntersectionSize(a, b);
      MulLe(1, 1, |a|, |b|);
      var d := (|a| * |b|) as real;
      if SquaredCosine(a, b) == 1.0 {
        assert (c * c) as real == d;
        if c < |a| {
          MulLt(c, c, |a|, |b|);
        }
        if c < |b| {
          MulLt(c, c, |b|, |a|);
        }
        IntersectionFull(a, b);
        assert b * a == a * b;
        IntersectionFull(b, a);
      }
      if a == b {
        assert a * b == a;
        assert (c * c) as real == d;
        assert d > 0.0;
        assert SquaredCosine(a, b) == d / d;
      }
    }
  }

  /** The similarity is 0 exactly when the sets share no language or one of them is empty. */
  lemma CosineZero(a: set<string>, b: set<string>)
    ensures SquaredCosine(a, b) == 0.0 <==> a == {} || b == {} || a * b == {}
  {
  }

  lemma DivCompare(c1: real, d1: real, c2: real, d2: real)
    requires d1 > 0.0 && d2 > 0.0
    ensures c1 / d1 >= c2 / d2 <==> c1 * d2 >= c2 * d1
  {
    var x, y := c1 / d1, c2 / d2;
    assert c1 == x * d1 && c2 == y * d2;
    assert c1 * d2 == x * (d1 * d2);
    assert c2 * d1 == y * (d1 * d2);
    assert d1 * d2 > 0.0;
  }

  lemma CrossCancel(c1: nat, c2: nat, a: nat, b1: nat, b2: nat)
    requires a > 0
    ensures c1 * (a * b2) >= c2 * (a * b1) <==> c1 * b2 >= c2 * b1
  {
    assert c1 * (a * b2) == a * (c1 * b2);
    assert c2 * (a * b1) == a * (c2 * b1);
    if c1 * b2 >= c2 * b1 {
      assert a * (c1 * b2) >= a * (c2 * b1);
    } else {
      assert a * (c2 * b1) > a * (c1 * b2);
    }
  }

  /** Comparing two candidates' similarity to one user is comparing the cross-multiplied integers. */
  lemma CosineOrder(a: set<string>, b1: set<string>, b2: set<string>)
    requires a != {} && b1 != {} && b2 != {}
    ensures SquaredCosine(a, b1) >= SquaredCosine(a, b2) <==>
            |a * b1| * |a * b1| * |b2| >= |a * b2| * |a * b2| * |b1|
  {
    var c1, c2 := |a * b1| * |a * b1|, |a * b2| * |a * b2|;
    var d1, d2 := |a| * |b1|, |a| * |b2|;
    MulLe(1, 1, |a|, |b1|);
    MulLe(1, 1, |a|, |b2|);
    DivCompare(c1 as real, d1 as real, c2 as real, d2 as real);
    assert (c1 as real) * (d2 as real) == (c1 * d2) as real;
    assert (c2 as real) * (d1 as real) == (c2 * d1) as real;
    CrossCancel(c1, c2, |a|, |b1|, |b2|);
  }

  /** A candidate: its row position in the frame and its similarity to the target. */
  datatype Scored = Scored(idx: nat, score: real)

  /** df.index[df['Login'] == username][0]: the first row with this login, if any. */
  function FirstIndex(rows: seq<Row>, login: string): (i: Option<nat>)
    ensures i.None? <==> forall k :: 0 <= k < |rows| ==> rows[k].login != login
    ensures i.Some? ==> i.value < |rows| && rows[i.value].login == login &&
                        forall k :: 0 <= k < i.value ==> rows[k].login != login
  {
    if rows == [] then None
    else if rows[0].login == login then Some(0)
    else
      match FirstIndex(rows[1..], login)
      case None =>
        assert forall k :: 1 <= k < |rows| ==> rows[k] == rows[1..][k - 1];
        None
      case Some(k) =>
        assert forall j :: 1 <= j <= k ==> rows[j] == rows[1..][j - 1];
        Some(k + 1)
  }

  function Score(rows: seq<Row>, u: nat, j: nat): real
    requires u < |rows| && j < |rows|
  {
    SquaredCosine(rows[u].languagesList, rows[j].languagesList)
  }

  /** The scored rows other than the target, in row order. */
  function Candidates(rows: seq<Row>, u: nat): (c: seq<Scored>)
    requires u < |rows|
    ensures |c| == |rows| - 1
    ensures forall k :: 0 <= k < |c| ==>
              c[k].idx == (if k < u then k else k + 1) && c[k].score == Score(rows, u, c[k].idx)
  {
    seq(|rows| - 1, k requires 0 <= k < |rows| - 1 =>
      var j := if k < u then k else k + 1;
      Scored(j, Score(rows, u, j)))
  }

  /** a ranks ahead of b: higher score, or the same score and an earlier row (the sort is stable). */
  predicate Before(a: Scored, b: Scored)
  {
    a.score > b.score || (a.score == b.score && a.idx < b.idx)
  }

  predicate Ranked(s: seq<Scored>)
  {
    forall i, j :: 0 <= i < j < |s| ==> Before(s[i], s[j])
  }

  predicate IdxIncreasing(s: seq<Scored>)
  {
    forall i, j :: 0 <= i < j < |s| ==> s[i].idx < s[j].idx
  }

  /** Inserts x after every element whose score is at least x's. */
  function Insert(x: Scored, s: seq<Scored>): seq<Scored>
  {
    if s == [] then [x]
    else if x.score > s[0].score then [x] + s
    else [s[0]] + Insert(x, s[1..])
  }

  /** sorted(..., key=score, reverse=True), which is stable. */
  function SortByScore(s: seq<Scored>): seq<Scored>
  {
    if s == [] then []
    else Insert(s[|s| - 1], SortByScore(s[..|s| - 1]))
  }

  /** An element ahead of everything in a ranked sequence can head it. */
  lemma ConsRanked(a: Scored, r: seq<Scored>)
    requires Ranked(r)
    requires forall k :: 0 <= k < |r| ==> Before(a, r[k])
    ensures Ranked([a] + r)
  {
  }

  lemma RankedTail(s: seq<Scored>)
    requires Ranked(s) && s != []
    ensures Ranked(s[1..])
    ensures forall k :: 1 <= k < |s| ==> Before(s[0], s[k])
  {
  }

  lemma {:induction false} InsertRanked(x: Scored, s: seq<Scored>)
    requires Ranked(s)
    requires forall y :: y in s ==> y.idx < x.idx
    ensures Ranked(Insert(x, s))
    ensures multiset(Insert(x, s)) == multiset(s) + multiset{x}
  {
    if s == [] {
    } else if x.score > s[0].score {
      RankedTail(s);
      ConsRanked(x, s);
    } else {
      var t := s[1..];
      assert s == [s[0]] + t;
      RankedTail(s);
      InsertRanked(x, t);
      var r := Insert(x, t);
      forall k | 0 <= k < |r|
        ensures Before(s[0], r[k])
      {
        assert r[k] in multiset(r);
        if r[k] != x {
          assert r[k] in multiset(t);
          var p :| 0 <= p < |t| && t[p] == r[k];
          assert s[p + 1] == r[k];
        }
      }
      ConsRanked(s[0], r);
    }
  }

  /** The stable sort ranks its input by Before and keeps exactly its elements. */
  lemma {:induction false} SortRanked(s: seq<Scored>)
    requires IdxIncreasing(s)
    ensures Ranked(SortByScore(s))
    ensures multiset(SortByScore(s)) == multiset(s)
  {
    if s != [] {
      var n := |s| - 1;
      var init := s[..n];
      assert IdxIncreasing(init) by {
        forall i, j | 0 <= i < j < |init|
          ensures init[i].idx < init[j].idx
        {
          assert init[i] == s[i] && init[j] == s[j];
        }
      }
      SortRanked(init);
      var sorted := SortByScore(init);
      forall y | y in sorted
        ensures y.idx < s[n].idx
      {
        assert y in multiset(init);
        var p :| 0 <= p < |init| && init[p] == y;
        assert s[p] == y;
      }
      InsertRanked(s[n], sorted);
      assert s == init + [s[n]];
    }
  }

  /** Python's s[:n], for any integer n. */
  function PySlice(s: seq<Scored>, n: int): (r: seq<Scored>)
    ensures r <= s
  {
    s[..PyStop(|s|, n)]
  }

  /** Where s[:n] stops on a sequence of length len. */
  function PyStop(len: nat, n: int): (stop: nat)
    ensures stop <= len
  {
    if n >= 0 then (if n < len then n else len)
    else if len + n > 0 then len + n else 0
  }

  /**
   * The ranked candidates of get_recommendations, before they are turned into
   * records: None when no row has the login.
   */
  function Ranking(rows: seq<Row>, username: string, topN: int): (r: Option<seq<Scored>>)
    ensures r.None? <==> forall k :: 0 <= k < |rows| ==> rows[k].login != username
  {
    match FirstIndex(rows, username)
    case None => None
    case Some(u) => Some(PySlice(SortByScore(Candidates(rows, u)), topN))
  }

  lemma CandidatesIncreasing(rows: seq<Row>, u: nat)
    requires u < |rows|
    ensures IdxIncreasing(Candidates(rows, u))
  {
  }

  /** Sorting the candidates ranks every other row exactly once, with its score. */
  lemma SortedCandidates(rows: seq<Row>, u: nat)
    requires u < |rows|
    ensures var s := SortByScore(Candidates(rows, u));
            && |s| == |rows| - 1
            && Ranked(s)
            && (forall k :: 0 <= k < |s| ==>
                  s[k].idx < |rows| && s[k].idx != u && s[k].score == Score(rows, u, s[k].idx))
            && (forall j :: 0 <= j < |rows| && j != u ==>
                  exists p :: 0 <= p < |s| && s[p] == Scored(j, Score(rows, u, j)))
  {
    var c := Candidates(rows, u);
    CandidatesIncreasing(rows, u);
    SortRanked(c);
    var s := SortByScore(c);
    assert |s| == |c| by {
      assert |multiset(s)| == |multiset(c)|;
    }
    forall k | 0 <= k < |s|
      ensures s[k].idx < |rows| && s[k].idx != u && s[k].score == Score(rows, u, s[k].idx)
    {
      assert s[k] in multiset(c);
      var p :| 0 <= p < |c| && c[p] == s[k];
    }
    forall j | 0 <= j < |rows| && j != u
      ensures exists p :: 0 <= p < |s| && s[p] == Scored(j, Score(rows, u, j))
    {
      var q := if j < u then j else j - 1;
      assert c[q] == Scored(j, Score(rows, u, j));
      assert c[q] in multiset(s);
    }
  }

  lemma PrefixRanked(s: seq<Scored>, m: nat)
    requires Ranked(s) && m <= |s|
    ensures Ranked(s[..m])
  {
  }

  /** In a ranked sequence, whatever a prefix leaves out ranks after everything it keeps. */
  lemma PrefixOutranks(s: seq<Scored>, m: nat, x: Scored, k: nat)
    requires Ranked(s) && m <= |s| && k < m
    requires x in s && x !in s[..m]
    ensures Before(s[k], x)
  {
  }

  /**
   * The result is the top-n of the other rows: the right length, best first,
   * each candidate at most once with its true score, and no row left out
   * ranks ahead of any row taken.
   */
  lemma RankingIsTopN(rows: seq<Row>, username: string, topN: int)
    requires Ranking(rows, username, topN).Some?
    ensures var u := FirstIndex(rows, username).value;
            var r := Ranking(rows, username, topN).value;
            && |r| == PyStop(|rows| - 1, topN)
            && Ranked(r)
            && (forall k :: 0 <= k < |r| ==>
                  r[k].idx < |rows| && r[k].idx != u && r[k].score == Score(rows, u, r[k].idx))
            && (forall j, k ::
                  (0 <= j < |rows| && j != u && 0 <= k < |r| &&
                   (forall p :: 0 <= p < |r| ==> r[p].idx != j)) ==>
                  Before(r[k], Scored(j, Score(rows, u, j))))
  {
    var u := FirstIndex(rows, username).value;
    SortedCandidates(rows, u);
    var s := SortByScore(Candidates(rows, u));
    var r := Ranking(rows, username, topN).value;
    var m := PyStop(|s|, topN);
    assert r == s[..m];
    PrefixRanked(s, m);
    assert forall k :: 0 <= k < |r| ==> r[k] == s[k];
    forall j, k | 0 <= j < |rows| && j != u && 0 <= k < |r| &&
                  (forall p :: 0 <= p < |r| ==> r[p].idx != j)
      ensures Before(r[k], Scored(j, Score(rows, u, j)))
    {
      var x := Scored(j, Score(rows, u, j));
      var p :| 0 <= p < |s| && s[p] == x;
      assert x !in r;
      PrefixOutranks(s, m, x, k);
    }
  }

  /** One entry of the recommendations list; 'Common Languages' is kept as the set it joins. */
  datatype Recommendation = Recommendation(
    login: string, profileUrl: string, commonLanguages: set<string>, score: real, avatar: string)

  function Describe(rows: seq<Row>, u: nat, e: Scored): Recommendation
    requires u < |rows| && e.idx < |rows|
  {
    var rec := rows[e.idx];
    Recommendation(rec.login, rec.profileUrl, rows[u].languagesList * rec.languagesList, e.score, rec.avatarUrl)
  }

  /** get_recommendations(df, username, top_n). */
  function GetRecommendations(rows: seq<Row>, username: string, topN: int): (r: Option<seq<Recommendation>>)
    ensures r.None? <==> Ranking(rows, username, topN).None?
    ensures r.Some? ==> |r.value| == |Ranking(rows, username, topN).value|
  {
    match Ranking(rows, username, topN)
    case None => None
    case Some(ranked) =>
      var u := FirstIndex(rows, username).value;
      RankingIsTopN(rows, username, topN);
      Some(seq(|ranked|, k requires 0 <= k < |ranked| => Describe(rows, u, ranked[k])))
  }

  /**
   * Each record describes the ranked row: its login and links, the languages
   * it shares with the target, and its similarity.
   */
  lemma RecommendationsDescribeRanking(rows: seq<Row>, username: string, topN: int, k: nat)
    requires GetRecommendations(rows, username, topN).Some?
    requires k < |GetRecommendations(rows, username, topN).value|
    ensures var u := FirstIndex(rows, username).value;
            var e := Ranking(rows, username, topN).value[k];
            var rec := GetRecommendations(rows, username, topN).value[k];
            && e.idx < |rows| && e.idx != u
            && rec.login == rows[e.idx].login
            && rec.profileUrl == rows[e.idx].profileUrl
            && rec.avatar == rows[e.idx].avatarUrl
            && (forall l :: l in rec.commonLanguages <==>
                  l in rows[u].languagesList && l in rows[e.idx].languagesList)
            && rec.score == SquaredCosine(rows[u].languagesList, rows[e.idx].languagesList)
            && 0.0 <= rec.score <= 1.0
  {
    var u := FirstIndex(rows, username).value;
    RankingIsTopN(rows, username, topN);
    var e := Ranking(rows, username, topN).value[k];
    CosineBounds(rows[u].languagesList, rows[e.idx].languagesList);
  }

  /** The logins of the rows, in order: the key the user collection is upserted under. */
  function Logins(rows: seq<Row>): seq<string> {
    seq(|rows|, i requires 0 <= i < |rows| => rows[i].login)
  }

  /** With one document per login, the target is never recommended to itself. */
  lemma NeverRecommendsSelf(rows: seq<Row>, username: string, topN: int, k: nat)
    requires PyDict.Distinct(Logins(rows))
    requires GetRecommendations(rows, username, topN).Some?
    requires k < |GetRecommendations(rows, username, topN).value|
    ensures GetRecommendations(rows, username, topN).value[k].login != username
  {
    var u := FirstIndex(rows, username).value;
    RecommendationsDescribeRanking(rows, username, topN, k);
    var e := Ranking(rows, username, topN).value[k];
    var logins := Logins(rows);
    if e.idx < u {
      assert logins[e.idx] != logins[u];
    } else {
      assert logins[u] != logins[e.idx];
    }
  }

  /** When every user has the target's languages, every recommendation scores 1. */
  lemma IdenticalLanguagesScoreOne(rows: seq<Row>, username: string, topN: int, k: nat)
    requires forall i :: 0 <= i < |rows| ==> rows[i].languagesList != {}
    requires forall i, j :: 0 <= i < |rows| && 0 <= j < |rows| ==> rows[i].languagesList == rows[j].languagesList
    requires GetRecommendations(rows, username, topN).Some?
    requires k < |GetRecommendations(rows, username, topN).value|
    ensures GetRecommendations(rows, username, topN).value[k].score == 1.0
  {
    var u := FirstIndex(rows, username).value;
    RecommendationsDescribeRanking(rows, username, topN, k);
    var e := Ranking(rows, username, topN).value[k];
    CosineOne(rows[u].languagesList, rows[e.idx].languagesList);
  }

  /** A candidate sharing no language with the target scores 0. */
  lemma DisjointLanguagesScoreZero(rows: seq<Row>, username: string, topN: int, k: nat)
    requires GetRecommendations(rows, username, topN).Some?
    requires k < |GetRecommendations(rows, username, topN).value|
    requires GetRecommendations(rows, username, topN).value[k].commonLanguages == {}
    ensures GetRecommendations(rows, username, topN).value[k].score == 0.0
  {
    var u := FirstIndex(rows, username).value;
    RecommendationsDescribeRanking(rows, username, topN, k);
    var e := Ranking(rows, username, topN).value[k];
    CosineZero(rows[u].languagesList, rows[e.idx].languagesList);
  }
}
