/**
 * The Python `str` operations the two dashboards rely on, over `string` (a
 * sequence of `char`): the `in` test and `find`, `split` and its inverse
 * `join`, `strip(chars)`, `replace(pattern, "")`, and `int()` on a string of
 * decimal digits.
 */
module PyText {
  import opened Wrappers

  /** `pat` occurs in `s` starting at index `k`. */
  predicate OccursAt(s: string, pat: string, k: int) {
    0 <= k && k + |pat| <= |s| && s[k..k + |pat|] == pat
  }

  /** `pat` occurs nowhere in `s`. */
  ghost predicate Free(s: string, pat: string) {
    forall k :: !OccursAt(s, pat, k)
  }

  lemma OccursInTail(s: string, pat: string, k: int)
    requires |s| > 0 && k >= 0
    ensures OccursAt(s[1..], pat, k) <==> OccursAt(s, pat, k + 1)
  {
  }

  /** `s.find(pat)`, with `None` for Python's -1: the leftmost occurrence. */
  function Find(s: string, pat: string): (r: Option<nat>)
    requires pat != []
    ensures r.Some? ==> OccursAt(s, pat, r.value)
    ensures r.Some? ==> forall k :: k < r.value ==> !OccursAt(s, pat, k)
    ensures r.None? ==> Free(s, pat)
    decreases |s|
  {
    if |s| < |pat| then None
    else if s[..|pat|] == pat then Some(0)
    else
      match Find(s[1..], pat)
      case None =>
        assert forall k :: 1 <= k ==> !OccursAt(s, pat, k) by {
          forall k | 1 <= k ensures !OccursAt(s, pat, k) {
            OccursInTail(s, pat, k - 1);
          }
        }
        None
      case Some(i) =>
        OccursInTail(s, pat, i);
        assert forall k :: 1 <= k && OccursAt(s, pat, k) ==> OccursAt(s[1..], pat, k - 1) by {
          forall k | 1 <= k && OccursAt(s, pat, k) ensures OccursAt(s[1..], pat, k - 1) {
            OccursInTail(s, pat, k - 1);
          }
        }
        Some(i + 1)
  }

  /** Python's `pat in s`. */
  predicate Contains(s: string, pat: string)
    requires pat != []
  {
    Find(s, pat).Some?
  }

  lemma ContainsAt(s: string, pat: string, k: int)
    requires pat != [] && OccursAt(s, pat, k)
    ensures Contains(s, pat)
  {
  }

  /** `sep.join(parts)`; the inverse of `Split`. */
  function Join(parts: seq<string>, sep: string): string
    requires |parts| >= 1
    decreases |parts|
  {
    if |parts| == 1 then parts[0] else parts[0] + sep + Join(parts[1..], sep)
  }

  /**
   * `s.split(sep)` for a non-empty separator: `s` cut at each leftmost,
   * non-overlapping occurrence of `sep`. Joining the pieces back gives `s`,
   * and no piece contains the separator.
   */
  function Split(s: string, sep: string): (parts: seq<string>)
    requires sep != []
    ensures |parts| >= 1
    ensures Join(parts, sep) == s
    ensures forall i :: 0 <= i < |parts| ==> Free(parts[i], sep)
    decreases |s|
  {
    match Find(s, sep)
    case None => [s]
    case Some(i) =>
      var rest := Split(s[i + |sep|..], sep);
      assert Free(s[..i], sep) by {
        forall k | OccursAt(s[..i], sep, k) ensures false {
          assert s[..i][k..k + |sep|] == s[k..k + |sep|];
          assert OccursAt(s, sep, k);
        }
      }
      assert s[..i] + sep + s[i + |sep|..] == s;
      assert ([s[..i]] + rest)[1..] == rest;
      [s[..i]] + rest
  }

  /** Splitting the join of pieces free of a one-character separator gives the pieces back. */
  lemma {:induction false} SplitJoin(parts: seq<string>, c: char)
    requires |parts| >= 1
    requires forall i :: 0 <= i < |parts| ==> c !in parts[i]
    ensures Split(Join(parts, [c]), [c]) == parts
    decreases |parts|
  {
    var s := Join(parts, [c]);
    if |parts| > 1 {
      var p0 := parts[0];
      var tail := Join(parts[1..], [c]);
      assert s == p0 + [c] + tail;
      assert s[|p0|..|p0| + 1] == [c];
      assert OccursAt(s, [c], |p0|);
      forall k | 0 <= k < |p0|
        ensures !OccursAt(s, [c], k)
      {
        assert p0[k] in p0;
        assert s[k..k + 1] == [p0[k]];
      }
      assert Find(s, [c]) == Some(|p0|);
      assert s[|p0| + 1..] == tail;
      assert s[..|p0|] == p0;
      SplitJoin(parts[1..], c);
    }
  }

  lemma {:induction false} JoinLast(parts: seq<string>, sep: string)
    requires |parts| >= 2
    ensures Join(parts, sep) == Join(parts[..|parts| - 1], sep) + sep + parts[|parts| - 1]
    decreases |parts|
  {
    if |parts| > 2 {
      JoinLast(parts[1..], sep);
      assert parts[1..][..|parts| - 2] == parts[..|parts| - 1][1..];
    }
  }

  /** `s.split(c)[0]`: the longest prefix of `s` that does not contain `c`. */
  function UpTo(s: string, c: char): (p: string)
    ensures p <= s && c !in p
    ensures |p| < |s| ==> s[|p|] == c
  {
    var parts := Split(s, [c]);
    var p := parts[0];
    assert c !in p by {
      forall k | 0 <= k < |p| ensures p[k] != c {
        assert !OccursAt(p, [c], k);
        assert p[k..k + 1] == [p[k]];
      }
    }
    if |parts| > 1 then
      assert s == p + [c] + Join(parts[1..], [c]);
      p
    else
      p
  }

  /** `s.split(sep)[-1]`: what follows the last occurrence of `sep`, or all of `s` when there is none. */
  function AfterLast(s: string, sep: string): (t: string)
    requires sep != []
    ensures Free(t, sep)
    ensures |t| <= |s| && t == s[|s| - |t|..]
    ensures |t| < |s| ==> OccursAt(s, sep, |s| - |t| - |sep|)
  {
    var parts := Split(s, sep);
    var t := parts[|parts| - 1];
    if |parts| > 1 then
      JoinLast(parts, sep);
      var head := Join(parts[..|parts| - 1], sep);
      assert s == head + sep + t;
      assert s[|s| - |t| - |sep|..|s| - |t|] == sep;
      t
    else
      t
  }

  lemma NoPageAfter(base: string, d: string, q: int)
    requires AllDigits(d) && |base| < q
    ensures !OccursAt(base + "page=" + d, "page=", q)
  {
    var s := base + "page=" + d;
    if q + 5 <= |s| {
      assert s[q..q + 5][0] == s[q];
      if q < |base| + 5 {
        assert s[q] == "page="[q - |base|];
      } else {
        assert s[q] == d[q - |base| - 5];
      }
    }
  }

  lemma NoPageOverlap(base: string, d: string, q: int)
    requires |base| - 5 < q < |base|
    ensures !OccursAt(base + "page=" + d, "page=", q)
  {
    var s := base + "page=" + d;
    assert s[|base|] == 'p';
    if q >= 0 {
      assert s[q..q + 5][|base| - q] == s[|base|];
    }
  }

  /** After a prefix that ends in "page=", the last "page="-piece of a digit string is that digit string. */
  lemma AfterLastPage(base: string, d: string)
    requires AllDigits(d)
    ensures AfterLast(base + "page=" + d, "page=") == d
  {
    var s := base + "page=" + d;
    var t := AfterLast(s, "page=");
    var b := |base|;
    forall q | b < q ensures !OccursAt(s, "page=", q) {
      NoPageAfter(base, d, q);
    }
    forall q | b - 5 < q < b ensures !OccursAt(s, "page=", q) {
      NoPageOverlap(base, d, q);
    }
    if |t| >= |d| + 5 {
      assert t[|t| - |d| - 5..|t| - |d|] == s[b..b + 5] == "page=";
      assert OccursAt(t, "page=", |t| - |d| - 5);
      assert false;
    }
    assert |t| == |d|;
    assert t == s[|s| - |d|..] == d;
  }

  /** `s.lstrip(cs)`: `s` without its leading characters that are in `cs`. */
  function LStrip(s: string, cs: set<char>): (r: string)
    ensures |r| <= |s| && r == s[|s| - |r|..]
    ensures forall i :: 0 <= i < |s| - |r| ==> s[i] in cs
    ensures r == [] || r[0] !in cs
    decreases |s|
  {
    if |s| > 0 && s[0] in cs then LStrip(s[1..], cs) else s
  }

  /** `s.rstrip(chars)`: `s` without the characters in `cs` that it ends with. */
  function RStrip(s: string, cs: set<char>): (r: string)
    ensures |r| <= |s| && r == s[..|r|]
    ensures forall i :: |r| <= i < |s| ==> s[i] in cs
    ensures r == [] || r[|r| - 1] !in cs
    decreases |s|
  {
    if |s| > 0 && s[|s| - 1] in cs then RStrip(s[..|s| - 1], cs) else s
  }

  /** `r` is `s` with `start` characters of `cs` cut from its front and the rest of its cut characters from its end. */
  ghost predicate StrippedAt(s: string, cs: set<char>, r: string, start: int) {
    && 0 <= start && start + |r| <= |s|
    && r == s[start..start + |r|]
    && (forall i :: 0 <= i < start ==> s[i] in cs)
    && (forall i :: start + |r| <= i < |s| ==> s[i] in cs)
  }

  /**
   * `s.strip(chars)`: the middle part of `s` left after removing every character
   * in `cs` from both ends; it neither starts nor ends with one of them.
   */
  function Strip(s: string, cs: set<char>): (r: string)
    ensures StrippedAt(s, cs, r, |s| - |LStrip(s, cs)|)
    ensures r == [] || (r[0] !in cs && r[|r| - 1] !in cs)
  {
    var l := LStrip(s, cs);
    var r := RStrip(l, cs);
    StripWitness(s, cs, l, r);
    r
  }

  lemma StripWitness(s: string, cs: set<char>, l: string, r: string)
    requires |l| <= |s| && l == s[|s| - |l|..]
    requires forall i :: 0 <= i < |s| - |l| ==> s[i] in cs
    requires |r| <= |l| && r == l[..|r|]
    requires forall i :: |r| <= i < |l| ==> l[i] in cs
    ensures StrippedAt(s, cs, r, |s| - |l|)
  {
  }

  /** Stripping characters that surround a part which neither starts nor ends with one of them leaves that part. */
  lemma {:induction false} StripAround(pre: string, mid: string, post: string, cs: set<char>)
    requires forall i :: 0 <= i < |pre| ==> pre[i] in cs
    requires forall i :: 0 <= i < |post| ==> post[i] in cs
    requires mid != [] && mid[0] !in cs && mid[|mid| - 1] !in cs
    ensures Strip(pre + mid + post, cs) == mid
  {
    var s := pre + mid + post;
    var r := Strip(s, cs);
    var start := |s| - |LStrip(s, cs)|;
    assert s[|pre|] == mid[0] && s[|pre| + |mid| - 1] == mid[|mid| - 1];
    if r == [] {
      assert false;
    }
    if start < |pre| {
      assert false;
    }
    if start > |pre| {
      assert false;
    }
    if start + |r| < |pre| + |mid| {
      assert false;
    }
    if start + |r| > |pre| + |mid| {
      assert false;
    }
    assert r == s[|pre|..|pre| + |mid|] == mid;
  }

  /**
   * `s.replace(pat, "")`: the leftmost, non-overlapping occurrences of `pat`
   * deleted in one left-to-right pass; `RemoveIsSplitJoin` relates it to
   * `Split` and `Join`.
   */
  function Remove(s: string, pat: string): (r: string)
    requires pat != []
    ensures |r| <= |s|
    decreases |s|
  {
    if |s| < |pat| then s
    else if s[..|pat|] == pat then Remove(s[|pat|..], pat)
    else [s[0]] + Remove(s[1..], pat)
  }

  /** A string without `pat`'s first character does not contain `pat`. */
  lemma FreeOfFirst(s: string, pat: string)
    requires pat != [] && pat[0] !in s
    ensures Free(s, pat)
  {
  }

  /** A string without `pat` comes back from `Remove` unchanged. */
  lemma {:induction false} RemoveFree(s: string, pat: string)
    requires pat != [] && Free(s, pat)
    ensures Remove(s, pat) == s
    decreases |s|
  {
    if |s| >= |pat| {
      assert !OccursAt(s, pat, 0);
      assert Free(s[1..], pat) by {
        forall k | 0 <= k ensures !OccursAt(s[1..], pat, k) {
          OccursInTail(s, pat, k);
        }
      }
      RemoveFree(s[1..], pat);
    }
  }

  /** `Remove` keeps everything before the leftmost occurrence and resumes after it. */
  lemma {:induction false} RemoveFirst(s: string, pat: string, i: nat)
    requires pat != [] && OccursAt(s, pat, i)
    requires forall k :: k < i ==> !OccursAt(s, pat, k)
    ensures Remove(s, pat) == s[..i] + Remove(s[i + |pat|..], pat)
    decreases i
  {
    if i == 0 {
      RemoveAtStart(s, pat);
      assert s[..0] == [];
    } else {
      RemoveKeepsFirst(s, pat);
      ShiftOccurrences(s, pat, i);
      RemoveFirst(s[1..], pat, i - 1);
      assert s[1..][i - 1 + |pat|..] == s[i + |pat|..];
      ConsSlices(s, i, Remove(s[i + |pat|..], pat));
    }
  }

  lemma RemoveAtStart(s: string, pat: string)
    requires pat != [] && OccursAt(s, pat, 0)
    ensures Remove(s, pat) == Remove(s[|pat|..], pat)
  {
  }

  lemma RemoveKeepsFirst(s: string, pat: string)
    requires pat != [] && |s| >= |pat| && !OccursAt(s, pat, 0)
    ensures Remove(s, pat) == [s[0]] + Remove(s[1..], pat)
  {
  }

  lemma ShiftOccurrences(s: string, pat: string, i: nat)
    requires pat != [] && 0 < i && OccursAt(s, pat, i)
    requires forall k :: k < i ==> !OccursAt(s, pat, k)
    ensures |s| >= |pat| && !OccursAt(s, pat, 0)
    ensures OccursAt(s[1..], pat, i - 1) && forall k :: k < i - 1 ==> !OccursAt(s[1..], pat, k)
  {
    OccursInTail(s, pat, i - 1);
    forall k | 0 <= k < i - 1 ensures !OccursAt(s[1..], pat, k) {
      OccursInTail(s, pat, k);
    }
  }

  /** Putting the first character back in front of a split of the tail. */
  lemma ConsSlices(s: string, i: nat, rest: string)
    requires 0 < i <= |s|
    ensures [s[0]] + (s[1..][..i - 1] + rest) == s[..i] + rest
  {
  }

  /**
   * Python defines `s.replace(pat, "")` as `"".join(s.split(pat))`: `Remove`
   * deletes exactly the separators `Split` cuts at and keeps every other
   * character, in order.
   */
  lemma {:induction false} RemoveIsSplitJoin(s: string, pat: string)
    requires pat != []
    ensures Remove(s, pat) == Join(Split(s, pat), "")
    decreases |s|
  {
    match Find(s, pat)
    case None =>
      RemoveFree(s, pat);
    case Some(i) =>
      RemoveFirst(s, pat, i);
      var rest := Split(s[i + |pat|..], pat);
      RemoveIsSplitJoin(s[i + |pat|..], pat);
      assert Split(s, pat) == [s[..i]] + rest;
      JoinCons(s[..i], rest, "");
      assert s[..i] + "" == s[..i];
  }

  lemma JoinCons(x: string, rest: seq<string>, sep: string)
    requires |rest| >= 1
    ensures Join([x] + rest, sep) == x + sep + Join(rest, sep)
  {
  }

  lemma IndexInPrefix(s: string, pat: string, j: int)
    ensures 0 < j < |pat| <= |s| ==> s[..|pat|][j] == s[j] && pat[1..][j - 1] == pat[j]
  {
  }

  /**
   * When `pat`'s first character occurs nowhere else in `pat`, no occurrence
   * straddles a cut made just before that character, so removal works on the
   * two sides independently.
   */
  lemma {:induction false} RemoveAppend(a: string, b: string, pat: string)
    requires pat != [] && pat[0] !in pat[1..]
    requires b == [] || b[0] == pat[0]
    ensures Remove(a + b, pat) == Remove(a, pat) + Remove(b, pat)
    decreases |a|
  {
    var s := a + b;
    if a == [] {
      assert s == b;
    } else if |s| < |pat| {
      assert Remove(a, pat) == a && Remove(b, pat) == b;
    } else if s[..|pat|] == pat {
      IndexInPrefix(s, pat, |a|);
      assert |a| >= |pat|;
      assert a[..|pat|] == pat;
      assert s[|pat|..] == a[|pat|..] + b;
      RemoveAppend(a[|pat|..], b, pat);
    } else {
      assert s[1..] == a[1..] + b;
      RemoveAppend(a[1..], b, pat);
      if |a| >= |pat| {
        assert a[..|pat|] == s[..|pat|];
      } else {
        assert Remove(a, pat) == a;
        assert Remove(a[1..], pat) == a[1..];
        assert [a[0]] + a[1..] == a;
      }
    }
  }

  predicate IsDigit(c: char) {
    '0' <= c <= '9'
  }

  predicate AllDigits(s: string) {
    forall i :: 0 <= i < |s| ==> IsDigit(s[i])
  }

  /** The number a string of decimal digits denotes, most significant digit first. */
  function DigitsValue(s: string): nat
    requires AllDigits(s)
    decreases |s|
  {
    if s == [] then 0 else DigitsValue(s[..|s| - 1]) * 10 + (s[|s| - 1] as int - '0' as int)
  }

  /**
   * `int(s)` on the strings this model accepts: a non-empty run of ASCII
   * digits. `None` stands for the `ValueError` Python raises otherwise.
   */
  function ParseInt(s: string): (r: Option<nat>)
    ensures r.Some? <==> s != [] && AllDigits(s)
  {
    if s != [] && AllDigits(s) then Some(DigitsValue(s)) else None
  }

  function DigitChar(d: nat): (c: char)
    requires d < 10
    ensures IsDigit(c) && c as int - '0' as int == d
  {
    ('0' as int + d) as char
  }

  /** `str(n)`: the decimal numeral of `n`, with no leading zero except for 0 itself. */
  function Decimal(n: nat): (s: string)
    ensures s != [] && AllDigits(s)
    ensures (s[0] == '0') == (n == 0)
    decreases n
  {
    if n < 10 then [DigitChar(n)] else Decimal(n / 10) + [DigitChar(n % 10)]
  }

  /** Parsing the numeral of `n` gives `n` back. */
  lemma {:induction false} ParseDecimal(n: nat)
    ensures ParseInt(Decimal(n)) == Some(n)
    decreases n
  {
    var s := Decimal(n);
    if n >= 10 {
      ParseDecimal(n / 10);
      assert s[..|s| - 1] == Decimal(n / 10);
      assert s[|s| - 1] == DigitChar(n % 10);
      assert DigitsValue(s) == DigitsValue(Decimal(n / 10)) * 10 + n % 10;
    } else {
      assert s[..0] == [];
    }
  }

  lemma {:induction false} LeadingDigitPositive(s: string)
    requires s != [] && AllDigits(s) && s[0] != '0'
    ensures DigitsValue(s) >= 1
    decreases |s|
  {
    if |s| > 1 {
      LeadingDigitPositive(s[..|s| - 1]);
    }
  }

  /** A numeral without a superfluous leading zero is the numeral of its value. */
  lemma {:induction false} DecimalOfParsed(s: string)
    requires s != [] && AllDigits(s)
    requires |s| == 1 || s[0] != '0'
    ensures Decimal(DigitsValue(s)) == s
    decreases |s|
  {
    var n := DigitsValue(s);
    var init := s[..|s| - 1];
    if |s| == 1 {
      assert init == [];
      assert DigitsValue(init) == 0;
      assert [DigitChar(n)] == s;
    } else {
      LeadingDigitPositive(init);
      DecimalOfParsed(init);
      assert n / 10 == DigitsValue(init) && n % 10 == s[|s| - 1] as int - '0' as int;
      assert init + [s[|s| - 1]] == s;
    }
  }
}
