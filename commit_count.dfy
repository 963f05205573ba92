/**
 * dashboard.py, `get_commit_count`: the number of commits of one repository,
 * read from the `Link` pagination header (section 3 of RFC 8288) of a commit
 * listing requested one commit per page, or counted from the body when the
 * header has no `rel="last"` entry.
 */
module CommitCount {
  import opened Wrappers
  import opened PyText
  import opened Json

  const LastRel := "rel=\"last\""

  /** The characters `strip('<> ')` removes. */
  const Brackets: set<char> := {'<', '>', ' '}

  /** `[link for link in entries if 'rel="last"' in link]`. */
  function LastLinks(entries: seq<string>): (r: seq<string>)
    ensures forall e :: e in r <==> e in entries && Contains(e, LastRel)
    ensures (forall e :: e in entries ==> !Contains(e, LastRel)) ==> r == []
    decreases |entries|
  {
    if entries == [] then []
    else (if Contains(entries[0], LastRel) then [entries[0]] else []) + LastLinks(entries[1..])
  }

  /** The first entry that mentions `rel="last"` heads the filtered list. */
  lemma {:induction false} FirstLastLink(entries: seq<string>, k: nat)
    requires k < |entries| && Contains(entries[k], LastRel)
    requires forall i :: 0 <= i < k ==> !Contains(entries[i], LastRel)
    ensures LastLinks(entries) != [] && LastLinks(entries)[0] == entries[k]
    decreases k
  {
    if k > 0 {
      FirstLastLink(entries[1..], k - 1);
    }
  }

  /** Whichever entry is the first to mention `rel="last"` heads the filtered list. */
  lemma FirstLastLinkIsHead(entries: seq<string>)
    ensures forall k :: 0 <= k < |entries| && Contains(entries[k], LastRel) &&
                        (forall i :: 0 <= i < k ==> !Contains(entries[i], LastRel)) ==>
                        LastLinks(entries) != [] && LastLinks(entries)[0] == entries[k]
  {
    forall k | 0 <= k < |entries| && Contains(entries[k], LastRel) &&
               (forall i :: 0 <= i < k ==> !Contains(entries[i], LastRel))
      ensures LastLinks(entries) != [] && LastLinks(entries)[0] == entries[k]
    {
      FirstLastLink(entries, k);
    }
  }

  /**
   * The URL of the first `rel="last"` entry of a `Link` header value: the entry
   * up to its first `;`, with `<`, `>` and spaces stripped from both ends.
   */
  function LastPageUrl(link: string): (r: Option<string>)
    ensures r.None? <==> forall e :: e in Split(link, ",") ==> !Contains(e, LastRel)
    ensures r.Some? ==>
              forall k :: 0 <= k < |Split(link, ",")| && Contains(Split(link, ",")[k], LastRel) &&
                          (forall i :: 0 <= i < k ==> !Contains(Split(link, ",")[i], LastRel)) ==>
                          r.value == Strip(UpTo(Split(link, ",")[k], ';'), Brackets)
  {
    var entries := Split(link, ",");
    FirstLastLinkIsHead(entries);
    var lasts := LastLinks(entries);
    if lasts == [] then None else Some(Strip(UpTo(lasts[0], ';'), Brackets))
  }

  /** `int(url.split('page=')[-1])`, with the ValueError caught and answered by 0. */
  function PageNumber(url: string): (n: int)
    ensures n >= 0
    ensures AllDigits(AfterLast(url, "page=")) && AfterLast(url, "page=") != [] ==> n == DigitsValue(AfterLast(url, "page="))
    ensures !(AllDigits(AfterLast(url, "page=")) && AfterLast(url, "page=") != []) ==> n == 0
  {
    match ParseInt(AfterLast(url, "page="))
    case Some(v) => v
    case None => 0
  }

  /**
   * `get_commit_count` given the reply to its request. `None` stands for an
   * exception that escapes it: the request failing, or `len(resp.json())`
   * raising on an undecodable or length-less body.
   */
  function CommitCount(reply: Reply): (r: Option<int>)
    ensures reply.Response? && reply.status != 200 ==> r == Some(0)
    ensures r.Some? ==> r.value >= 0
    ensures r.None? <==> (reply.TransportError? ||
                          (reply.status == 200 &&
                           (reply.link.None? || LastPageUrl(reply.link.value).None?) &&
                           (reply.body.None? || Length(reply.body.value).None?)))
  {
    match reply
    case TransportError => None
    case Response(status, link, body) =>
      if status != 200 then Some(0)
      else if link.Some? && LastPageUrl(link.value).Some? then Some(PageNumber(LastPageUrl(link.value).value))
      else if body.None? then None
      else Length(body.value)
  }

  /** One entry of a `Link` header as the platform writes it: `<url>; rel="last"`, after optional spaces. */
  function LastEntry(pad: string, url: string): string {
    pad + "<" + url + ">; " + LastRel
  }

  /** The text of an entry up to its first `;` is the bracketed URL. */
  lemma EntryUpToSemicolon(pad: string, url: string)
    requires ';' !in pad && ';' !in url
    ensures UpTo(LastEntry(pad, url), ';') == pad + "<" + url + ">"
  {
  }

  /** The URL a header's first `rel="last"` entry brackets is the one `LastPageUrl` finds. */
  lemma {:induction false} UrlOfLastEntry(entries: seq<string>, k: nat, pad: string, url: string)
    requires k < |entries|
    requires forall i :: 0 <= i < |entries| ==> ',' !in entries[i]
    requires forall i :: 0 <= i < k ==> !Contains(entries[i], LastRel)
    requires entries[k] == LastEntry(pad, url)
    requires forall i :: 0 <= i < |pad| ==> pad[i] == ' '
    requires url != [] && url[0] !in Brackets && url[|url| - 1] !in Brackets && ';' !in url
    ensures LastPageUrl(Join(entries, ",")) == Some(url)
  {
    SplitJoin(entries, ',');
    var e := entries[k];
    assert e[|e| - |LastRel|..] == LastRel;
    ContainsAt(e, LastRel, |e| - |LastRel|);
    FirstLastLink(entries, k);
    EntryUpToSemicolon(pad, url);
    StripAround(pad + "<", url, ">", Brackets);
    assert pad + "<" + url + ">" == (pad + "<") + url + ">";
  }

  /** The page number of a URL ending in `page=` and the numeral of `n` is `n`. */
  lemma PageOfUrl(base: string, n: nat)
    ensures PageNumber(base + "page=" + Decimal(n)) == n
  {
    AfterLastPage(base, Decimal(n));
    ParseDecimal(n);
  }

  /**
   * Round trip: a `Link` header whose first `rel="last"` entry points at a URL
   * ending in `page=` and the numeral of `n` gives `n` as the commit count.
   * The other entries may be anything without a comma, and the URL anything
   * without `;` that does not start with a stripped character.
   */
  lemma CountFromLastLink(entries: seq<string>, k: nat, pad: string, base: string, n: nat, body: Option<Json>)
    requires k < |entries|
    requires forall i :: 0 <= i < |entries| ==> ',' !in entries[i]
    requires forall i :: 0 <= i < k ==> !Contains(entries[i], LastRel)
    requires entries[k] == LastEntry(pad, base + "page=" + Decimal(n))
    requires forall i :: 0 <= i < |pad| ==> pad[i] == ' '
    requires base != [] && base[0] !in Brackets && ';' !in base
    ensures CommitCount(Response(200, Some(Join(entries, ",")), body)) == Some(n)
  {
    var digits := Decimal(n);
    var url := base + "page=" + digits;
    assert ';' !in url by {
      assert forall i :: 0 <= i < |digits| ==> IsDigit(digits[i]);
    }
    assert url[0] == base[0] && url[|url| - 1] == digits[|digits| - 1];
    UrlOfLastEntry(entries, k, pad, url);
    PageOfUrl(base, n);
  }

  /** Without a `rel="last"` entry the count falls back to the length of the body. */
  lemma CountWithoutLastLink(link: Option<string>, body: Option<Json>)
    requires link.None? || forall e :: e in Split(link.value, ",") ==> !Contains(e, LastRel)
    ensures CommitCount(Response(200, link, body)) == (if body.Some? then Length(body.value) else None)
  {
  }
}
