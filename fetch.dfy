/**
 * Recommendation_dashboard.py lines 30-78 and 96: `get_json` with its single
 * rate-limit retry, the projections `get_list` and `get_starred_or_subs`,
 * the language byte-count sum `get_languages`, the non-fork commit tally
 * `get_total_commits`, and the stripping of the URI-template expansions
 * `{/other_user}` and `{/sha}` (section 3.2.6 of RFC 6570) from URLs.
 */
module Fetch {
  import opened Wrappers
  import opened Json
  import PyText
  import PyDict
  import CommitCount

  /** Which request for the same URL this is: the first, or the one repeated after the rate-limit wait. */
  datatype Attempt = First | AfterWait

  /** The platform's API: the reply each request gets. */
  type Server = (string, Attempt) -> Reply

  /** What `get_json` does that can be observed: a request, or `time.sleep`. */
  datatype Event = Requested(url: string) | Waited(seconds: nat)

  /** Why `get_json` raised. */
  datatype Failure = TransportFailed | HttpError(status: int) | NotJson

  /** The status that means "rate limited" (line 32). */
  const RateLimited := 403

  /** Seconds slept before the one retry (line 34). */
  const RetryDelay := 60

  /** The reply `get_json` goes on with: the retry's when the first reply was a 403, otherwise the first. */
  function FinalReply(server: Server, url: string): Reply {
    var first := server(url, First);
    if first.Response? && first.status == RateLimited then server(url, AfterWait) else first
  }

  /**
   * `response.raise_for_status()` then `response.json()`: the first raises
   * for every status from 400 to 599, the second when the body is not JSON.
   */
  function Decode(reply: Reply): (r: Result<Json, Failure>)
    ensures r.Ok? <==> reply.Response? && !(400 <= reply.status < 600) && reply.body.Some?
    ensures r.Ok? ==> r.value == reply.body.value
    ensures r.Err? && r.error.HttpError? ==> reply.Response? && r.error.status == reply.status
    ensures reply.Response? && 400 <= reply.status < 600 ==> r == Err(HttpError(reply.status))
  {
    match reply
    case TransportError => Err(TransportFailed)
    case Response(status, _, body) =>
      if 400 <= status < 600 then Err(HttpError(status))
      else if body.None? then Err(NotJson)
      else Ok(body.value)
  }

  /** What `get_json(url)` returns (`Ok`) or raises (`Err`). */
  function FetchJson(server: Server, url: string): Result<Json, Failure> {
    Decode(FinalReply(server, url))
  }

  /** The number of requests in a trace. */
  function Requests(trace: seq<Event>): nat {
    if trace == [] then 0 else (if trace[0].Requested? then 1 else 0) + Requests(trace[1..])
  }

  /**
   * `get_json`: request; on a 403 wait 60 seconds and request once more; then
   * decide success or failure from that final reply alone. The trace is one
   * request for `url`, followed, exactly when its reply is a 403, by one
   * 60-second wait and then one more request for `url`.
   */
  method GetJson(server: Server, url: string) returns (result: Result<Json, Failure>, trace: seq<Event>)
    ensures result == FetchJson(server, url)
    ensures 1 <= Requests(trace) <= 2
    ensures trace == [Requested(url)] +
                     (if server(url, First).Response? && server(url, First).status == RateLimited
                      then [Waited(RetryDelay), Requested(url)] else [])
  {
    var response := server(url, First);
    trace := [Requested(url)];
    if response.Response? && response.status == RateLimited {
      trace := trace + [Waited(RetryDelay)];
      response := server(url, AfterWait);
      trace := trace + [Requested(url)];
      assert trace[1..] == [Waited(RetryDelay), Requested(url)];
      assert trace[1..][1..] == [Requested(url)];
    }
    result := Decode(response);
  }

  /** Two 403 replies in a row: `get_json` raises the second one's `HTTPError`. */
  lemma RateLimitedTwice(server: Server, url: string)
    requires server(url, First).Response? && server(url, First).status == RateLimited
    requires server(url, AfterWait).Response? && server(url, AfterWait).status == RateLimited
    ensures FetchJson(server, url) == Err(HttpError(RateLimited))
  {
  }

  /** A 403 followed by a successful reply: the retry's body is the result. */
  lemma RateLimitedThenServed(server: Server, url: string, status: int, link: Option<string>, body: Json)
    requires server(url, First).Response? && server(url, First).status == RateLimited
    requires server(url, AfterWait) == Response(status, link, Some(body)) && 200 <= status < 300
    ensures FetchJson(server, url) == Ok(body)
  {
  }

  // get_list and get_starred_or_subs.

  /** Every item is a dict holding `key`. */
  predicate AllHave(items: seq<Json>, key: string) {
    forall i :: 0 <= i < |items| ==> items[i].JObj? && key in items[i].fields
  }

  /**
   * `[item[key] for item in items]`; `None` when some `item[key]` raises
   * (the item is not a dict, or lacks the key).
   */
  function Project(items: seq<Json>, key: string): (r: Option<seq<Json>>)
    ensures r.Some? <==> AllHave(items, key)
    ensures r.Some? ==> |r.value| == |items|
    ensures r.Some? ==> forall i :: 0 <= i < |items| ==> r.value[i] == items[i].fields[key]
    decreases |items|
  {
    if items == [] then Some([])
    else if !items[0].JObj? || key !in items[0].fields then None
    else
      match Project(items[1..], key)
      case None =>
        assert !AllHave(items[1..], key);
        None
      case Some(rest) =>
        assert forall i :: 1 <= i < |items| ==> items[1..][i - 1] == items[i];
        Some([items[0].fields[key]] + rest)
  }

  /**
   * `get_list(url, key)`: the `key` field of every item of the fetched list,
   * in order; `[]` when the fetch raises, when the body is not a list, or
   * when any item lacks the field. (A non-list body iterates as characters
   * or keys, and indexing those with `key` raises too.)
   */
  function GetList(server: Server, url: string, key: string): (r: seq<Json>)
    ensures FetchJson(server, url).Ok? && FetchJson(server, url).value.JArr? && AllHave(FetchJson(server, url).value.items, key)
            ==> |r| == |FetchJson(server, url).value.items|
                && forall i :: 0 <= i < |r| ==> r[i] == FetchJson(server, url).value.items[i].fields[key]
    ensures !(FetchJson(server, url).Ok? && FetchJson(server, url).value.JArr? && AllHave(FetchJson(server, url).value.items, key))
            ==> r == []
  {
    match FetchJson(server, url)
    case Ok(JArr(items)) => Project(items, key).GetOr([])
    case _ => []
  }

  /** `get_starred_or_subs(url)`: `get_list` on the `html_url` field. */
  function GetStarredOrSubs(server: Server, url: string): (r: seq<Json>)
    ensures FetchJson(server, url).Ok? && FetchJson(server, url).value.JArr? && AllHave(FetchJson(server, url).value.items, "html_url")
            ==> |r| == |FetchJson(server, url).value.items|
                && forall i :: 0 <= i < |r| ==> r[i] == FetchJson(server, url).value.items[i].fields["html_url"]
    ensures !(FetchJson(server, url).Ok? && FetchJson(server, url).value.JArr? && AllHave(FetchJson(server, url).value.items, "html_url"))
            ==> r == []
  {
    GetList(server, url, "html_url")
  }

  // URL templates.

  /** `following_url.split("{")[0]` (line 96): the URL up to its first template expression. */
  function FollowingBase(url: string): (r: string)
    ensures r <= url && '{' !in r
    ensures |r| < |url| ==> url[|r|] == '{'
  {
    PyText.UpTo(url, '{')
  }

  /** The platform's `following_url` is a base followed by `{/other_user}`; the base comes back. */
  lemma FollowingOfTemplate(base: string)
    requires '{' !in base
    ensures FollowingBase(base + "{/other_user}") == base
  {
  }

  /** The template expression the commits URL carries. */
  const ShaTemplate := "{/sha}"

  /**
   * `commits_url.replace("{/sha}", "")` (line 70): every leftmost,
   * non-overlapping occurrence deleted, the rest kept in order.
   */
  function CommitsUrl(url: string): (r: string)
    ensures r == PyText.Join(PyText.Split(url, ShaTemplate), "")
  {
    PyText.RemoveIsSplitJoin(url, ShaTemplate);
    PyText.Remove(url, ShaTemplate)
  }

  /** The platform's `commits_url` is a base followed by `{/sha}`; the base comes back. */
  lemma CommitsOfTemplate(base: string)
    requires '{' !in base
    ensures CommitsUrl(base + ShaTemplate) == base
  {
    assert ShaTemplate[0] !in ShaTemplate[1..];
    PyText.RemoveAppend(base, ShaTemplate, ShaTemplate);
    PyText.FreeOfFirst(base, ShaTemplate);
    PyText.RemoveFree(base, ShaTemplate);
    assert ShaTemplate[..|ShaTemplate|] == ShaTemplate;
    assert ShaTemplate[|ShaTemplate|..] == [];
  }

  // get_languages.

  /** The URL of a user's repository list. */
  function ReposUrl(username: string): string {
    "https://api.github.com/users/" + username + "/repos"
  }

  /** A byte count as `+` sees it: an integer, or a boolean as 0 or 1; anything else raises `TypeError`. */
  function CountValue(j: Json): Option<int> {
    match j
    case JInt(i) => Some(i)
    case JBool(b) => Some(if b then 1 else 0)
    case _ => None
  }

  /**
   * What one repository contributes to `get_languages`: the dict fetched
   * from its `languages_url`, every value a count; `None` when anything on
   * the way raises (the repository is not a dict or lacks the field, the
   * field is not a URL string, the fetch fails, the reply is not a dict, or
   * a value is not a count).
   */
  function RepoLanguages(server: Server, repo: Json): Option<map<string, int>> {
    if !repo.JObj? || "languages_url" !in repo.fields || !repo.fields["languages_url"].JStr? then None
    else
      match FetchJson(server, repo.fields["languages_url"].s)
      case Ok(JObj(langs)) => Counts(langs)
      case _ => None
  }

  /** Adding one repository's counts into the running dict. */
  function Merge(acc: map<string, int>, counts: map<string, int>): map<string, int> {
    map l | l in acc.Keys + counts.Keys :: PyDict.Get(acc, l) + PyDict.Get(counts, l)
  }

  /** The loop of lines 55-58 over `repos`: the running dict, or `None` once anything raised. */
  function LanguageTotals(server: Server, repos: seq<Json>): Option<map<string, int>>
    decreases |repos|
  {
    if repos == [] then Some(map[])
    else
      var n := |repos| - 1;
      match LanguageTotals(server, repos[..n])
      case None => None
      case Some(acc) =>
        match RepoLanguages(server, repos[n])
        case None => None
        case Some(counts) => Some(Merge(acc, counts))
  }

  /** `get_languages(username)`: the totals, or `{}` when anything raised. */
  function Languages(server: Server, username: string): map<string, int> {
    match FetchJson(server, ReposUrl(username))
    case Ok(JArr(repos)) => LanguageTotals(server, repos).GetOr(map[])
    case _ => map[]
  }

  /** One more repository in the fold. */
  lemma LanguageTotalsStep(server: Server, repos: seq<Json>, i: nat)
    requires i < |repos|
    ensures LanguageTotals(server, repos[..i + 1])
         == (match LanguageTotals(server, repos[..i])
             case None => None
             case Some(acc) =>
               match RepoLanguages(server, repos[i])
               case None => None
               case Some(counts) => Some(Merge(acc, counts)))
  {
    assert repos[..i + 1][..i] == repos[..i];
  }

  /** Once a prefix has raised, so has the whole loop. */
  lemma {:induction false} LanguageTotalsFailed(server: Server, repos: seq<Json>, i: nat)
    requires i <= |repos| && LanguageTotals(server, repos[..i]).None?
    ensures LanguageTotals(server, repos).None?
    decreases |repos| - i
  {
    if i < |repos| {
      LanguageTotalsStep(server, repos, i);
      LanguageTotalsFailed(server, repos, i + 1);
    } else {
      assert repos[..i] == repos;
    }
  }

  /** The counts of a languages dict, when every value is a count. */
  function Counts(langs: map<string, Json>): Option<map<string, int>> {
    if forall l :: l in langs ==> CountValue(langs[l]).Some?
    then Some(map l | l in langs :: CountValue(langs[l]).value)
    else None
  }

  lemma CountsFail(langs: map<string, Json>, lang: string)
    requires lang in langs && CountValue(langs[lang]).None?
    ensures Counts(langs).None?
  {
  }

  /** The loop below once every key is done. */
  lemma AllCounted(m: map<string, int>, acc: map<string, int>, langs: map<string, Json>)
    requires forall l :: l in langs ==> CountValue(langs[l]).Some?
    requires forall l :: l in m <==> l in acc || l in langs
    requires forall l :: l in m ==> m[l] == PyDict.Get(acc, l) + (if l in langs then CountValue(langs[l]).value else 0)
    ensures Counts(langs).Some? && m == Merge(acc, Counts(langs).value)
  {
  }

  /**
   * Lines 57-58: `for lang, count in langs.items()` adding each count into
   * the running dict; `None` when a value is not a count.
   */
  method AddLanguages(acc: map<string, int>, langs: map<string, Json>) returns (result: Option<map<string, int>>)
    ensures result.Some? <==> Counts(langs).Some?
    ensures result.Some? ==> result.value == Merge(acc, Counts(langs).value)
  {
    var languageData := acc;
    var todo := langs.Keys;
    while todo != {}
      invariant todo <= langs.Keys
      invariant forall l :: l in langs && l !in todo ==> CountValue(langs[l]).Some?
      invariant forall l :: l in languageData <==> l in acc || (l in langs && l !in todo)
      invariant forall l :: l in languageData ==>
        languageData[l] == PyDict.Get(acc, l) + (if l in langs && l !in todo then CountValue(langs[l]).value else 0)
      decreases |todo|
    {
      var lang :| lang in todo;
      var count := CountValue(langs[lang]);
      if count.None? {
        CountsFail(langs, lang);
        return None;
      }
      languageData := languageData[lang := PyDict.Get(languageData, lang) + count.value];
      todo := todo - {lang};
    }
    AllCounted(languageData, acc, langs);
    return Some(languageData);
  }

  /**
   * `get_languages`: fetch the repository list, then for each repository
   * fetch its languages and add every count into `language_data`; any
   * exception on the way discards everything and returns `{}`.
   */
  method GetLanguages(server: Server, username: string) returns (languageData: map<string, int>)
    ensures languageData == Languages(server, username)
  {
    var fetched, _ := GetJson(server, ReposUrl(username));
    if !fetched.Ok? || !fetched.value.JArr? {
      return map[];
    }
    var repos := fetched.value.items;
    languageData := map[];
    var i := 0;
    while i < |repos|
      invariant 0 <= i <= |repos|
      invariant LanguageTotals(server, repos[..i]) == Some(languageData)
    {
      var repo := repos[i];
      LanguageTotalsStep(server, repos, i);
      if !repo.JObj? || "languages_url" !in repo.fields || !repo.fields["languages_url"].JStr? {
        LanguageTotalsFailed(server, repos, i + 1);
        return map[];
      }
      var langs, _ := GetJson(server, repo.fields["languages_url"].s);
      if !langs.Ok? || !langs.value.JObj? {
        LanguageTotalsFailed(server, repos, i + 1);
        return map[];
      }
      var added := AddLanguages(languageData, langs.value.fields);
      if added.None? {
        LanguageTotalsFailed(server, repos, i + 1);
        return map[];
      }
      languageData := added.value;
      i := i + 1;
    }
    assert repos[..i] == repos;
  }

  /** The bytes the repositories contribute to language `l`, summed repository by repository. */
  function BytesFor(server: Server, repos: seq<Json>, l: string): int
    decreases |repos|
  {
    if repos == [] then 0
    else
      var n := |repos| - 1;
      BytesFor(server, repos[..n], l) + PyDict.Get(RepoLanguages(server, repos[n]).GetOr(map[]), l)
  }

  /** `get_languages` gives a total only when every repository's languages were read. */
  lemma {:induction false} LanguageTotalsAllOrNothing(server: Server, repos: seq<Json>)
    ensures LanguageTotals(server, repos).Some?
        <==> forall i :: 0 <= i < |repos| ==> RepoLanguages(server, repos[i]).Some?
    decreases |repos|
  {
    if repos != [] {
      var n := |repos| - 1;
      LanguageTotalsAllOrNothing(server, repos[..n]);
      assert forall i :: 0 <= i < n ==> repos[..n][i] == repos[i];
    }
  }

  /**
   * When nothing raised, each language maps to the sum of its byte counts
   * over all repositories, and the languages are exactly those some
   * repository reports.
   */
  lemma {:induction false} LanguageTotalsAreSums(server: Server, repos: seq<Json>, l: string)
    requires LanguageTotals(server, repos).Some?
    ensures PyDict.Get(LanguageTotals(server, repos).value, l) == BytesFor(server, repos, l)
    ensures l in LanguageTotals(server, repos).value
        <==> exists i :: 0 <= i < |repos| && RepoLanguages(server, repos[i]).Some? && l in RepoLanguages(server, repos[i]).value
    decreases |repos|
  {
    if repos != [] {
      var n := |repos| - 1;
      LanguageTotalsAreSums(server, repos[..n], l);
      assert forall i :: 0 <= i < n ==> repos[..n][i] == repos[i];
      var acc := LanguageTotals(server, repos[..n]).value;
      var counts := RepoLanguages(server, repos[n]).value;
      assert LanguageTotals(server, repos).value == Merge(acc, counts);
      if l in Merge(acc, counts) && l !in counts {
        var i :| 0 <= i < n && RepoLanguages(server, repos[..n][i]).Some? && l in RepoLanguages(server, repos[..n][i]).value;
        assert repos[..n][i] == repos[i];
      }
    }
  }

  // get_total_commits.

  /** `repo.get('fork')` is truthy. */
  predicate IsFork(repo: Json) {
    repo.JObj? && Truthy(Get(repo.fields, "fork"))
  }

  /**
   * Lines 71-75 for the reply to one commits request: the length of a list
   * body of a 200 reply, 0 for any other status or body, and `None` when
   * the request or `.json()` raises.
   */
  function ReplyLength(reply: Reply): Option<int> {
    match reply
    case TransportError => None
    case Response(status, _, body) =>
      if status != 200 then Some(0)
      else
        match body
        case None => None
        case Some(JArr(items)) => Some(|items|)
        case Some(_) => Some(0)
  }

  /**
   * How the reply to one repository's commits request is counted: `ReplyLength`
   * in lines 71-75, `CommitCount.CommitCount` in the corrected tally.
   */
  type Counter = Reply -> Option<int>

  /**
   * What one repository adds in `get_total_commits`: nothing for a fork;
   * otherwise the count of the reply to its stripped `commits_url`,
   * requested once with no retry. `None` when anything raises.
   */
  function RepoCommits(server: Server, count: Counter, repo: Json): Option<int> {
    if !repo.JObj? then None
    else if IsFork(repo) then Some(0)
    else if "commits_url" !in repo.fields || !repo.fields["commits_url"].JStr? then None
    else count(server(CommitsUrl(repo.fields["commits_url"].s), First))
  }

  /** The loop of lines 66-75: the running total, or `None` once anything raised. */
  function Tally(server: Server, count: Counter, repos: seq<Json>): Option<int>
    decreases |repos|
  {
    if repos == [] then Some(0)
    else
      var n := |repos| - 1;
      match Tally(server, count, repos[..n])
      case None => None
      case Some(total) =>
        match RepoCommits(server, count, repos[n])
        case None => None
        case Some(c) => Some(total + c)
  }

  /** `get_total_commits(username)`: the tally, or 0 when anything raised. */
  function TotalCommits(server: Server, username: string): int {
    match FetchJson(server, ReposUrl(username))
    case Ok(JArr(repos)) => Tally(server, ReplyLength, repos).GetOr(0)
    case _ => 0
  }

  lemma TallyStep(server: Server, count: Counter, repos: seq<Json>, i: nat)
    requires i < |repos|
    ensures Tally(server, count, repos[..i + 1])
         == (match Tally(server, count, repos[..i])
             case None => None
             case Some(total) =>
               match RepoCommits(server, count, repos[i])
               case None => None
               case Some(c) => Some(total + c))
  {
    assert repos[..i + 1][..i] == repos[..i];
  }

  lemma {:induction false} TallyFailed(server: Server, count: Counter, repos: seq<Json>, i: nat)
    requires i <= |repos| && Tally(server, count, repos[..i]).None?
    ensures Tally(server, count, repos).None?
    decreases |repos| - i
  {
    if i < |repos| {
      TallyStep(server, count, repos, i);
      TallyFailed(server, count, repos, i + 1);
    } else {
      assert repos[..i] == repos;
    }
  }

  /**
   * `get_total_commits`: fetch the repository list, skip forks, and for each
   * other repository add the length of the list its commits URL returns;
   * any exception makes the result 0.
   */
  method GetTotalCommits(server: Server, username: string) returns (total: int)
    ensures total == TotalCommits(server, username)
  {
    var fetched, _ := GetJson(server, ReposUrl(username));
    if !fetched.Ok? || !fetched.value.JArr? {
      return 0;
    }
    var repos := fetched.value.items;
    total := 0;
    for i := 0 to |repos|
      invariant Tally(server, ReplyLength, repos[..i]) == Some(total)
    {
      var repo := repos[i];
      TallyStep(server, ReplyLength, repos, i);
      if !repo.JObj? {
        TallyFailed(server, ReplyLength, repos, i + 1);
        return 0;
      }
      if Truthy(Get(repo.fields, "fork")) {
        continue;
      }
      if "commits_url" !in repo.fields || !repo.fields["commits_url"].JStr? {
        TallyFailed(server, ReplyLength, repos, i + 1);
        return 0;
      }
      var commitsUrl := CommitsUrl(repo.fields["commits_url"].s);
      var commitsResp := server(commitsUrl, First);
      if commitsResp.TransportError? {
        TallyFailed(server, ReplyLength, repos, i + 1);
        return 0;
      }
      if commitsResp.status == 200 {
        if commitsResp.body.None? {
          TallyFailed(server, ReplyLength, repos, i + 1);
          return 0;
        }
        var commits := commitsResp.body.value;
        if commits.JArr? {
          total := total + |commits.items|;
        }
      }
    }
    assert repos[..|repos|] == repos;
  }

  /** The repositories that are not forks, in order. */
  function NonForks(repos: seq<Json>): (r: seq<Json>)
    ensures |r| <= |repos|
    decreases |repos|
  {
    if repos == [] then []
    else
      var n := |repos| - 1;
      if IsFork(repos[n]) then NonForks(repos[..n]) else NonForks(repos[..n]) + [repos[n]]
  }

  /** Forks change nothing: the tally over all repositories is the tally over the non-forks. */
  lemma {:induction false} ForksSkipped(server: Server, count: Counter, repos: seq<Json>)
    ensures Tally(server, count, repos) == Tally(server, count, NonForks(repos))
    decreases |repos|
  {
    if repos != [] {
      var n := |repos| - 1;
      var prev := NonForks(repos[..n]);
      ForksSkipped(server, count, repos[..n]);
      if IsFork(repos[n]) {
        assert NonForks(repos) == prev;
        assert RepoCommits(server, count, repos[n]) == Some(0);
      } else {
        assert NonForks(repos) == prev + [repos[n]];
        TallySnoc(server, count, prev, repos[n]);
      }
    }
  }

  /** The fold extended by one repository at the end. */
  lemma TallySnoc(server: Server, count: Counter, prev: seq<Json>, repo: Json)
    ensures Tally(server, count, prev + [repo])
         == (match Tally(server, count, prev)
             case None => None
             case Some(total) =>
               match RepoCommits(server, count, repo)
               case None => None
               case Some(c) => Some(total + c))
  {
    var s := prev + [repo];
    assert s[..|s| - 1] == prev && s[|s| - 1] == repo;
  }

  /** The reply respects `per_page=1`: a 200 reply's list body holds at most one commit. */
  predicate OnePerPage(reply: Reply) {
    (reply.Response? && reply.status == 200 && reply.body.Some? && reply.body.value.JArr?)
      ==> |reply.body.value.items| <= 1
  }

  /** Every non-fork repository's commits reply respects `per_page=1`. */
  predicate PagesOfOne(server: Server, repos: seq<Json>) {
    forall i :: 0 <= i < |repos| && repos[i].JObj? && "commits_url" in repos[i].fields && repos[i].fields["commits_url"].JStr?
      ==> OnePerPage(server(CommitsUrl(repos[i].fields["commits_url"].s), First))
  }

  // Line 71 asks for one commit per page and line 75 adds the length of that
  // page, so against a server that honours `per_page=1` the tally counts
  // repositories with at least one commit, never more than one per repository.

  /** With pages of one commit, the total is at most the number of non-fork repositories. */
  lemma {:induction false} TallyCountsRepositories(server: Server, repos: seq<Json>)
    requires PagesOfOne(server, repos) && Tally(server, ReplyLength, repos).Some?
    ensures 0 <= Tally(server, ReplyLength, repos).value <= |NonForks(repos)|
    decreases |repos|
  {
    if repos != [] {
      var n := |repos| - 1;
      assert PagesOfOne(server, repos[..n]) by {
        forall i | 0 <= i < n ensures repos[..n][i] == repos[i] { }
      }
      TallyCountsRepositories(server, repos[..n]);
    }
  }

  /** The first page of a repository with 57 commits, requested with `per_page=1`. */
  const SampleHost := "https://api.github.com"
  const SampleBase := SampleHost + "/repositories/1/commits" + "?per_page=1&"
  const SampleLastUrl := SampleBase + "page=57"
  const SampleLink := CommitCount.LastEntry("", SampleLastUrl)
  const SampleReply := Response(200, Some(SampleLink), Some(JArr([JObj(map[])])))
  const SampleServer: Server := (url, attempt) => SampleReply
  const SampleRepos := [JObj(map["commits_url" := JStr("https://api.github.com/repos/octocat/hello/commits{/sha}")])]

  /**
   * The tally of that one repository is 1, while the reply's `Link` header
   * says it has 57 commits, which is what `get_commit_count` in the other
   * dashboard reads from the same kind of reply.
   */
  lemma TallyMissesCommits()
    ensures Tally(SampleServer, ReplyLength, SampleRepos) == Some(1)
    ensures CommitCount.CommitCount(SampleReply) == Some(57)
  {
    SampleTally(ReplyLength);
    assert ReplyLength(SampleReply) == Some(1);
    SampleLinkCount();
  }

  /** The sample's one repository is not a fork, so the tally is the count of the sample reply. */
  lemma SampleTally(count: Counter)
    ensures Tally(SampleServer, count, SampleRepos) == count(SampleReply)
  {
    assert SampleRepos[..0] == [];
    assert !IsFork(SampleRepos[0]);
  }

  lemma SampleBaseClean()
    ensures SampleBase[0] == 'h' && ';' !in SampleBase && ',' !in SampleBase
  {
  }

  lemma SampleLinkCount()
    ensures CommitCount.CommitCount(SampleReply) == Some(57)
  {
    assert PyText.Decimal(5) == "5";
    assert PyText.Decimal(57) == "57";
    SampleBaseClean();
    var entries := [SampleLink];
    assert ',' !in SampleLink;
    assert PyText.Join(entries, ",") == SampleLink;
    CommitCount.CountFromLastLink(entries, 0, "", SampleBase, 57, Some(JArr([JObj(map[])])));
  }

  // The corrected tally is `Tally(server, CommitCount.CommitCount, repos)`:
  // lines 63-78 with each repository's commits counted from the `Link` header
  // of its `per_page=1` reply, as `get_commit_count` does.

  /**
   * The corrected count of a non-fork repository whose reply carries a
   * `rel="last"` link to page `n` is exactly `n`.
   */
  lemma FixedCountsLastPage(server: Server, repo: Json, entries: seq<string>, k: nat, pad: string, base: string, n: nat, body: Option<Json>)
    requires k < |entries|
    requires repo.JObj? && !IsFork(repo) && "commits_url" in repo.fields && repo.fields["commits_url"].JStr?
    requires server(CommitsUrl(repo.fields["commits_url"].s), First) == Response(200, Some(PyText.Join(entries, ",")), body)
    requires forall i :: 0 <= i < |entries| ==> ',' !in entries[i]
    requires forall i :: 0 <= i < k ==> !PyText.Contains(entries[i], CommitCount.LastRel)
    requires entries[k] == CommitCount.LastEntry(pad, base + "page=" + PyText.Decimal(n))
    requires forall i :: 0 <= i < |pad| ==> pad[i] == ' '
    requires base != [] && base[0] !in CommitCount.Brackets && ';' !in base
    ensures RepoCommits(server, CommitCount.CommitCount, repo) == Some(n)
  {
    CommitCount.CountFromLastLink(entries, k, pad, base, n, body);
  }

  /** On the sample the corrected tally is 57. */
  lemma FixedTallySample()
    ensures Tally(SampleServer, CommitCount.CommitCount, SampleRepos) == Some(57)
  {
    SampleTally(CommitCount.CommitCount);
    SampleLinkCount();
  }
}
