# GitHub user analytics and recommendation: a Dafny model of the core

This project models the computational core of two Streamlit dashboards over the
GitHub REST API.

`dashboard.py` computes:
- the commit count of one repository, read from the pagination `Link` header
  (section 3 of RFC 8288) with a fallback to the body's length (`get_commit_count`);
- the per-language and per-repository maps that `fetch_user_data` fills in its
  loop over a user's repositories, the derived commits-per-language map and the
  commit total;
- the "joined N years and M months ago" arithmetic.

`Recommendation_dashboard.py`:
- fetches JSON with a single rate-limit retry (`get_json`);
- projects lists of records all-or-nothing (`get_list`, `get_starred_or_subs`);
- sums language byte counts, discarding everything on any failure (`get_languages`);
- tallies commits of non-fork repositories (`get_total_commits`);
- strips the URI-template expansions `{/sha}` and `{/other_user}` (section 3.2.6
  of RFC 6570);
- ranks stored users by the cosine similarity of their binarised language sets
  (`preprocess_languages`, `get_recommendations`).

Modules:
- `Wrappers`: `Option` and `Result`.
- `PyText`: the Python string operations the code relies on, on `seq<char>`.
  These are `split`, `join`, `strip`, `replace(pat, "")`, `split(c)[0]`,
  `split(sep)[-1]` and `int()` on digit strings.
- `Json`: decoded JSON values and HTTP replies, with status, `Link` header and body.
- `PyDict`: `dict.get(k, 0)` and the sum of a dict's values.
- `CommitCount`: `get_commit_count`.
- `RepoAggregation`: the two loops of `fetch_user_data` and the total.
- `AccountAge`: `divmod(days, 365)` followed by `remainder // 30`.
- `Fetch`: the helpers of `Recommendation_dashboard.py` lines 30-78 and 96.
- `Recommend`: `preprocess_languages` and `get_recommendations`.

HTTP is modelled as a pure function `Server = (url, Attempt) -> Reply`.
- `Attempt` distinguishes the first request for a URL from the one repeated after
  the rate-limit wait.
- An exception is a `None`/`Err` that propagates to the `try` that catches it.
- `time.sleep(60)` is a `Waited(60)` event in the trace that `Fetch.GetJson` returns.

Scores are kept exact.
- The cosine of two 0/1 rows is |A∩B| / sqrt(|A|·|B|).
- The model uses its square, |A∩B|² / (|A|·|B|), as a `real`.
- The cosine is never negative and the square root is monotone, so both give the
  same ranking. The squared value is also 0 and 1 exactly when the cosine is.

## Model

| member | source | states |
|---|---|---|
| PyText.Find | dashboard.py:32 | the result is the leftmost occurrence of the pattern, or the text has none |
| PyText.Split | dashboard.py:32-36 | `str.split(sep)`: joining the parts with `sep` gives back the text, and no part contains `sep` |
| PyText.SplitJoin | dashboard.py:32 | splitting at `c` a join of parts free of `c` gives back exactly those parts |
| PyText.UpTo | Recommendation_dashboard.py:96 | `s.split(c)[0]` is the longest prefix without `c`: a prefix of `s`, free of `c`, and followed by `c` when shorter than `s` |
| PyText.AfterLast | dashboard.py:36 | `s.split(sep)[-1]` is a suffix of `s` containing no `sep`, preceded by `sep` when shorter than `s` |
| PyText.AfterLastPage | dashboard.py:36 | the text after the final `page=` of `base + "page=" + digits` is the digits, whatever `base` holds |
| PyText.Strip | dashboard.py:34 | `strip(cs)` removes only characters of `cs` from both ends, and the result neither starts nor ends with one |
| PyText.StripAround | dashboard.py:34 | stripping brackets and spaces from around a URL that does not start or end with one gives the URL |
| PyText.Remove | Recommendation_dashboard.py:70 | `replace(pat, "")`, never longer than the text; what it removes is stated by `PyText.RemoveIsSplitJoin`, `PyText.RemoveFree` and `PyText.RemoveAppend` |
| PyText.RemoveIsSplitJoin | Recommendation_dashboard.py:70 | `replace(pat, "")` equals `"".join(s.split(pat))`: the text with every leftmost non-overlapping occurrence deleted |
| PyText.RemoveFree | Recommendation_dashboard.py:70 | a text without the pattern is unchanged by the replacement |
| PyText.RemoveAppend | Recommendation_dashboard.py:70 | for a pattern whose first character does not occur again in it, the replacement distributes over a concatenation whose second part is empty or starts with that character |
| PyText.ParseInt | dashboard.py:36 | `int()` succeeds exactly on non-empty ASCII digit strings, with their value (the other strings Python accepts are listed under "## Left out") |
| PyText.ParseDecimal | dashboard.py:36 | round trip: parsing the decimal numeral of `n` gives `n` |
| PyText.DecimalOfParsed | dashboard.py:36 | round trip: a digit string without leading zeros is the numeral of its value |
| PyDict.MapSumUpdate | dashboard.py:109 | adding a new key adds its value to the sum of the values |
| PyDict.SumOfValues | dashboard.py:109 | `sum(d.values())` computed by a loop equals the sum of the dict's values |
| CommitCount.LastLinks | dashboard.py:32 | the filtered entries are exactly the entries containing `rel="last"`, and none when no entry contains it |
| CommitCount.FirstLastLink | dashboard.py:32-34 | the first entry containing `rel="last"` heads the filtered list |
| CommitCount.LastPageUrl | dashboard.py:31-34 | none exactly when no entry of the header split at `,` contains `rel="last"`; otherwise the first such entry up to its first `;`, stripped of `<`, `>` and spaces at both ends |
| CommitCount.PageNumber | dashboard.py:35-39 | never negative; the value of the text after the final `page=` when that is a digit string, and 0 when `int()` would raise |
| CommitCount.CommitCount | dashboard.py:25-40 | a status other than 200 gives 0; a count is never negative; the exception cases are exactly a transport failure, or a 200 reply with no usable `rel="last"` entry and a body without a length |
| CommitCount.UrlOfLastEntry | dashboard.py:31-34 | a header of comma-free entries whose first `rel="last"` entry is `<url>; rel="last"`, after optional spaces, yields that URL, for a non-empty URL with no `;` whose first and last characters are not `<`, `>` or a space |
| CommitCount.PageOfUrl | dashboard.py:36-37 | a URL ending in `page=` and the numeral of `n` has page number `n` |
| CommitCount.CountFromLastLink | dashboard.py:30-37 | round trip: a 200 reply whose header of comma-free entries has, as its first `rel="last"` entry, `<base` + `page=` + the numeral of `n` + `>; rel="last"` after optional spaces has commit count `n`, whatever the body, for a non-empty `base` with no `;` that does not start with `<`, `>` or a space |
| CommitCount.CountWithoutLastLink | dashboard.py:30-40 | with no `Link` header or no `rel="last"` entry the count is the body's length |
| RepoAggregation.RepoLoop | dashboard.py:63-74 | the four dicts the loop updates in place are those of visiting every repository once, in order, with the body of lines 64-74 |
| RepoAggregation.LoopAfterAll | dashboard.py:63-74 | after the loop, `Languages` and `Stars Per Language` are the sums of sizes and of stars by language key, and `Stars Per Repo` and `Commits Per Repo` hold the value last written under each name key |
| RepoAggregation.CommitsPerLanguage | dashboard.py:84-88 | the specification of the second loop, for each language key the sum of the looked-up commits of its repositories; its properties are stated by `RepoAggregation.LanguageMaps`, `RepoAggregation.CommitsLookup` and the two rows under "## Findings" |
| RepoAggregation.CommitsByLanguage | dashboard.py:84-88 | the second loop fills each language key with the sum of the commits looked up for that language's repositories |
| RepoAggregation.Returned | dashboard.py:72 | every `get_commit_count` call returned exactly when the counts exist, and then they are those calls' results, in order |
| RepoAggregation.Aggregate | dashboard.py:60-88 | in the model, no record exactly when some `get_commit_count` call raised (the commit-date exceptions are left out); otherwise the whole record: the four loop dicts, the derived commits per language, and a total equal to the sum of the commits-per-repo values |
| RepoAggregation.SumByKeyKeys | dashboard.py:69-70 | the keys of an accumulated dict are exactly the keys that occur |
| RepoAggregation.LatestByKeyKeys | dashboard.py:71-74 | the keys of an assigned dict are exactly the keys that occur |
| RepoAggregation.SumByKeyIsSum | dashboard.py:69-70 | `d[k] = d.get(k, 0) + v` over the pairs leaves `d.get(k, 0)` equal to the sum of the values paired with `k` |
| RepoAggregation.LatestByKeyIsLast | dashboard.py:71-74 | the value kept for a key is the one written last |
| RepoAggregation.DistinctLatestSum | dashboard.py:109 | with distinct names the total of the per-repo dict is the sum of all the commit counts |
| RepoAggregation.LanguageMaps | dashboard.py:64-88 | `Languages`, `Stars Per Language` and `Commits Per Language` share the key set of the repositories' languages, with an empty or missing one as "Unknown"; the size and star entries are sums over that language's repositories, missing values as 0 |
| RepoAggregation.RepoMaps | dashboard.py:65-74 | the keys of both `Stars Per Repo` and `Commits Per Repo` are the names, with "Unknown" for a missing one; the last repository of a name wins; with distinct names the total is the sum of all counts |
| RepoAggregation.CommitsLookup | dashboard.py:85-87 | a nameless repository contributes 0 to its language; a named one contributes the count written last under its name |
| RepoAggregation.NamelessRepoDropsCommits | dashboard.py:85-88 | one nameless Go repository with 3 commits: the total is 3 but Go's commit count is 0 |
| RepoAggregation.FixedCountsEveryRepo | dashboard.py:84-88 | with distinct name keys, looked up under the name the first loop stored, each language's count is the sum of its repositories' commit counts |
| AccountAge.JoinedAgo | dashboard.py:136-137 | `years*365 + remainder == days` with `0 <= remainder < 365`, `months` is `remainder // 30` so `0 <= months <= 12`, and `years >= 0` exactly for a non-negative day count |
| Fetch.FinalReply | Recommendation_dashboard.py:31-35 | the reply `get_json` decides on: the retry's after a first 403, otherwise the first; its properties are stated by `Fetch.GetJson`, `Fetch.RateLimitedTwice` and `Fetch.RateLimitedThenServed` |
| Fetch.FetchJson | Recommendation_dashboard.py:30-37 | what `get_json` returns or raises, specified as `Fetch.Decode` of the final reply; `Fetch.GetJson` is proved against it |
| Fetch.Decode | Recommendation_dashboard.py:36-37 | success exactly for a reply outside 400-599 with a JSON body, whose value is the result; a status from 400 to 599 raises the `HTTPError` of that status |
| Fetch.GetJson | Recommendation_dashboard.py:30-37 | the result is decided by the final reply alone; the trace is one request for the URL, followed, exactly when its status is 403, by one 60-second wait and then one more request for the URL |
| Fetch.RateLimitedTwice | Recommendation_dashboard.py:32-36 | two 403 replies in a row raise the 403 |
| Fetch.RateLimitedThenServed | Recommendation_dashboard.py:32-37 | a 403 followed by a 2xx reply returns the retry's body |
| Fetch.Project | Recommendation_dashboard.py:41 | the projection succeeds exactly when every item is a dict with the key, and then holds each item's field, in order and at the same length |
| Fetch.GetList | Recommendation_dashboard.py:39-43 | the key of every fetched item in order and at the same length when the fetch succeeds on a list whose items all have it; `[]` otherwise |
| Fetch.GetStarredOrSubs | Recommendation_dashboard.py:45-49 | the same with the `html_url` field |
| Fetch.FollowingBase | Recommendation_dashboard.py:96 | the URL up to its first `{`: a prefix without `{`, followed by `{` when shorter than the URL |
| Fetch.FollowingOfTemplate | Recommendation_dashboard.py:96 | `base + "{/other_user}"` gives back `base` when `base` holds no `{` |
| Fetch.CommitsUrl | Recommendation_dashboard.py:70 | the URL with `{/sha}` replaced by nothing is the join of its parts around `{/sha}` |
| Fetch.CommitsOfTemplate | Recommendation_dashboard.py:70 | `base + "{/sha}"` gives back `base` when `base` holds no `{` |
| Fetch.AddLanguages | Recommendation_dashboard.py:57-58 | adding one repository's counts succeeds exactly when every value is a count, and then yields the merge of the running dict and the counts |
| Fetch.GetLanguages | Recommendation_dashboard.py:51-61 | the loop over the repositories returns the all-or-nothing fold of their language counts, or `{}` |
| Fetch.LanguageTotals | Recommendation_dashboard.py:53-58 | the all-or-nothing fold of the repositories' language counts; its properties are stated by `Fetch.LanguageTotalsAllOrNothing` and `Fetch.LanguageTotalsAreSums` |
| Fetch.Languages | Recommendation_dashboard.py:51-61 | `get_languages`: the fold's result, or `{}` when anything raised; `Fetch.GetLanguages` is proved against it |
| Fetch.LanguageTotalsAllOrNothing | Recommendation_dashboard.py:53-61 | a total exists exactly when every repository's languages were read |
| Fetch.LanguageTotalsAreSums | Recommendation_dashboard.py:55-58 | each language's total is the sum of its byte counts over all repositories, and the keys are exactly the languages some repository reports |
| Fetch.ReplyLength | Recommendation_dashboard.py:72-75 | the length of a 200 reply's list body, 0 for another status or body, none when `.json()` raises; `Fetch.TallyCountsRepositories` and `Fetch.TallyMissesCommits` state what it adds |
| Fetch.RepoCommits | Recommendation_dashboard.py:67-75 | what one repository adds: 0 for a fork, otherwise the count of its commits reply; `Fetch.ForksSkipped` and `Fetch.FixedCountsLastPage` state its properties |
| Fetch.Tally | Recommendation_dashboard.py:66-75 | the running total of the loop, none once anything raised; its properties are stated by `Fetch.ForksSkipped` and `Fetch.TallyCountsRepositories` |
| Fetch.TotalCommits | Recommendation_dashboard.py:63-78 | `get_total_commits`: the tally counted with `Fetch.ReplyLength`, or 0 when anything raised; `Fetch.GetTotalCommits` is proved against it |
| Fetch.GetTotalCommits | Recommendation_dashboard.py:63-78 | the loop returns the tally of the repositories' reply lengths, skipping forks, or 0 when anything raised |
| Fetch.ForksSkipped | Recommendation_dashboard.py:68-69 | the tally over all repositories equals the tally over the non-forks |
| Fetch.TallyCountsRepositories | Recommendation_dashboard.py:71-75 | with one commit per page the total is at most the number of non-fork repositories |
| Fetch.TallyMissesCommits | Recommendation_dashboard.py:71-75 | a repository whose `per_page=1` reply says, through its `rel="last"` link, that it has 57 commits adds 1 to the tally |
| Fetch.FixedCountsLastPage | Recommendation_dashboard.py:67-75 | counting with `CommitCount.CommitCount` instead of `Fetch.ReplyLength`, a non-fork repository whose reply links its last page as page `n` contributes `n`, under the conditions of `CommitCount.CountFromLastLink` on the header and the URL |
| Fetch.FixedTallySample | Recommendation_dashboard.py:67-75 | on the 57-commit repository the corrected tally is 57 |
| Recommend.Preprocess | Recommendation_dashboard.py:110-113 | no more rows than users, and every kept row has a language |
| Recommend.PreprocessMembers | Recommendation_dashboard.py:111-112 | a row is kept exactly when it is some user's row (the dict's keys, or none when the field is not a dict) and has a language |
| Recommend.PreprocessAppend | Recommendation_dashboard.py:112 | the filter keeps the collection's order: it distributes over concatenation |
| Recommend.SquaredCosine | Recommendation_dashboard.py:120-123 | the square of the cosine of two binarised language sets, 0 when either is empty; its properties are stated by `Recommend.CosineBounds`, `Recommend.CosineOne`, `Recommend.CosineZero` and `Recommend.CosineOrder` |
| Recommend.CosineBounds | Recommendation_dashboard.py:120-123 | the similarity lies in [0, 1] |
| Recommend.CosineOne | Recommendation_dashboard.py:120-123 | the similarity is 1 exactly for equal non-empty language sets |
| Recommend.CosineZero | Recommendation_dashboard.py:120-123 | the similarity is 0 exactly when the sets are disjoint or one is empty |
| Recommend.CosineOrder | Recommendation_dashboard.py:122-127 | candidate 1 scores at least as high as candidate 2 exactly when c₁²·size(B₂) ≥ c₂²·size(B₁), where Bᵢ is candidate i's language set and cᵢ the size of its intersection with the target's |
| Recommend.FirstIndex | Recommendation_dashboard.py:117-124 | none exactly when no row has the login; otherwise the first row with it |
| Recommend.Candidates | Recommendation_dashboard.py:125-126 | every row but the target, in order, with its similarity to the target |
| Recommend.InsertRanked | Recommendation_dashboard.py:127 | inserting an element after all those of at least its score keeps the order by score, ties in row order, and adds exactly that element |
| Recommend.SortByScore | Recommendation_dashboard.py:127 | `sorted(..., key=score, reverse=True)` as a stable insertion sort; `Recommend.SortRanked` states that it is ranked and a permutation |
| Recommend.SortRanked | Recommendation_dashboard.py:127 | the stable sort by descending score puts ties in row order and is a permutation of its input |
| Recommend.Ranking | Recommendation_dashboard.py:117-118 | no ranking exactly when the username is not among the logins |
| Recommend.SortedCandidates | Recommendation_dashboard.py:124-127 | the sorted candidates are every other row exactly once, with its score, in ranked order |
| Recommend.RankingIsTopN | Recommendation_dashboard.py:124-127 | `top_n` entries, or all other rows if fewer, with Python's slice semantics for negative `top_n`; non-increasing score with ties in row order; never the target; every score exact; no row left out ranks above a row taken |
| Recommend.GetRecommendations | Recommendation_dashboard.py:116-143 | `None` exactly when the username is not among the logins, otherwise one record per ranked candidate |
| Recommend.RecommendationsDescribeRanking | Recommendation_dashboard.py:129-142 | each record carries the candidate's login, profile and avatar URLs, its score in [0, 1], and exactly the languages it shares with the target |
| Recommend.NeverRecommendsSelf | Recommendation_dashboard.py:124-126 | with one document per login the target never appears among its recommendations |
| Recommend.IdenticalLanguagesScoreOne | Recommendation_dashboard.py:120-123 | when every user has the target's languages, every recommendation scores 1 |
| Recommend.DisjointLanguagesScoreZero | Recommendation_dashboard.py:120-134 | a recommendation sharing no language with the target scores 0 |

## Left out

- HTTP itself (`requests`, headers, the API key), MongoDB (`find_one`, `insert_one`, `update_one`, `find`), Streamlit, plotly, matplotlib and WordCloud: replies are inputs through `Server`, the stored collection is a sequence of documents, and rendering is not modelled.
- The server is a function of the URL and the attempt, so every request for the same URL within one attempt gets the same reply; a server whose replies change over time is not modelled.
- The `params={'per_page': 1}` of line 71 of Recommendation_dashboard.py is not part of the URL passed to the server; `Fetch.PagesOfOne` states what it asks of the reply.
- Header names are case-insensitive in `requests`; the model holds the `Link` value already looked up.
- Floating point: `cosine_similarity`'s float output, float ties that exact arithmetic would break, `round(score, 3)`, and bubble sizes. Scores are exact squared cosines; ranking by them equals ranking by the exact cosine.
- JSON numbers other than integers, and language or name values that are not strings (the `Repo` record holds the string or nothing).
- Dates: `dateutil.isoparse`, `datetime.now`, the commit-date collection of dashboard.py lines 61 and 76-82 (with the exceptions it can raise: from the request and `.json()`; from iterating a page that is a dict or scalar; the `AttributeError` of `.get` when a commit entry, or its `commit` or `author` field, is not a dict; and `parser.isoparse` rejecting a date. Each of them leaves `fetch_user_data` without a record, which `RepoAggregation.Aggregate` does not model) and the quarter bucketing; only the `divmod` on a day count is modelled.
- The constant `Platforms` and `Web Frameworks` entries of dashboard.py lines 107-108, and the other profile fields copied from the user record.
- The order of `", ".join(common_langs)`, which follows set iteration: common languages are a set.
- PyText.ParseInt: `int()` also accepts signs, surrounding whitespace, underscores between digits and non-ASCII decimal digits (Unicode category Nd, such as Arabic-Indic digits); `PyText.ParseInt` accepts only ASCII digits.
- CommitCount.PageNumber: Python 3.11 and later make `int()` raise on a string of more than 4300 digits, so `get_commit_count` then returns 0; the model has no such limit and returns the value.
- The `KeyError` that an empty DataFrame raises at Recommendation_dashboard.py lines 117 and 171.
- `fetch_and_store_user` and the call sites that pass `user.get(...)` URLs to `get_list`: only the helpers and the URL-template stripping of line 96 are modelled.
- RepoAggregation.Aggregate: a raising `get_commit_count` call is decided before the loop rather than at its repository; the local dicts that the exception abandons half filled are never observable.
- Recommend.Preprocess: its contract states bounds and non-emptiness; which rows are kept and in what order is stated by `Recommend.PreprocessMembers` and `Recommend.PreprocessAppend`.
- PyText.Remove: its own contract states only a length bound; `PyText.RemoveIsSplitJoin` relates it to `split` and `join`.

## Findings

| source | as written | input that shows it | evidently intended | confidence | as-written member | corrected member |
|---|---|---|---|---|---|---|
| dashboard.py:85-88 | commits are looked up under `repo.get("name") or ""`, but line 65 stored them under `repo.get("name") or "Unknown"` | one repository with no name, language Go and 3 commits: total 3, Go's commits 0 | with distinct repository names, every repository's commits count towards its language | medium, not executed | RepoAggregation.NamelessRepoDropsCommits | RepoAggregation.FixedCountsEveryRepo |
| Recommendation_dashboard.py:71-75 | the commits of each repository are requested one per page and the length of that page is added | a non-fork repository whose reply links its last page as `page=57` adds 1 | add the number of commits, read from the `rel="last"` link as dashboard.py does | medium, not executed | Fetch.TallyMissesCommits | Fetch.FixedCountsLastPage |
