/** The string keys under which reads are cached. */
module CacheKeys {
  import opened Base
  import Matching

  datatype Read =
    | ListOf(page: GoInt, limit: GoInt)
    | SearchOf(query: string, page: GoInt, limit: GoInt)
    | SnippetOf(id: string)
    | ShareOf(token: string)

  const LIST := "snippets:list:"
  const SEARCH := "snippets:search:"
  const SNIPPET := "snippet:"
  const SHARE := "share:"

  /** `%d` */
  function Itoa(n: int): (s: string)
    ensures s != ""
  {
    if n < 0 then "-" + Digits(-n) else Digits(n)
  }

  function Digits(n: nat): (s: string)
    ensures s != ""
  {
    (if n < 10 then "" else Digits(n / 10)) + [('0' as int + n % 10) as char]
  }

  function Key(r: Read): string {
    match r
    case ListOf(page, limit) => LIST + Itoa(page) + ":" + Itoa(limit)
    case SearchOf(query, page, limit) => SEARCH + query + ":" + Itoa(page) + ":" + Itoa(limit)
    case SnippetOf(id) => SNIPPET + id
    case ShareOf(token) => SHARE + token
  }

  /** Keys as Redis sees them. */
  lemma KeyTexts(query: string, id: string)
    ensures Key(ListOf(1, 20)) == "snippets:list:1:20"
    ensures Key(SearchOf(query, 2, 10)) == "snippets:search:" + query + ":2:10"
    ensures Key(SnippetOf(id)) == "snippet:" + id && Key(ShareOf(id)) == "share:" + id
  {
    assert Itoa(1) == "1" && Itoa(2) == "2";
    assert Digits(2) == "2";
    assert Itoa(20) == "2" + "0" && Itoa(10) == "1" + "0";
    assert SEARCH + query + ":" + "2" + ":" + "10" == SEARCH + query + ":2:10";
  }

  // ---------- Decimal printing is injective ----------

  function Value(s: string): int {
    if s == "" then 0 else 10 * Value(s[..|s| - 1]) + (s[|s| - 1] as int - '0' as int)
  }

  predicate IsDigits(s: string) {
    forall i :: 0 <= i < |s| ==> '0' <= s[i] <= '9'
  }

  lemma ValueOfAppend(front: string, d: int)
    requires 0 <= d < 10
    ensures Value(front + [('0' as int + d) as char]) == 10 * Value(front) + d
  {
    var s := front + [('0' as int + d) as char];
    assert s[..|s| - 1] == front;
  }

  lemma {:induction false} DigitsRoundTrip(n: nat)
    ensures Value(Digits(n)) == n && IsDigits(Digits(n))
  {
    if n < 10 {
      ValueOfAppend("", n);
      assert Digits(n) == "" + [('0' as int + n % 10) as char];
    } else {
      DigitsRoundTrip(n / 10);
      ValueOfAppend(Digits(n / 10), n % 10);
      assert Digits(n) == Digits(n / 10) + [('0' as int + n % 10) as char];
      assert n == 10 * (n / 10) + n % 10;
    }
  }

  lemma ItoaInjective(m: int, n: int)
    requires Itoa(m) == Itoa(n)
    ensures m == n
  {
    DigitsRoundTrip(if m < 0 then -m else m);
    DigitsRoundTrip(if n < 0 then -n else n);
    assert m < 0 <==> Itoa(m)[0] == '-';
    assert n < 0 <==> Itoa(n)[0] == '-';
    if m < 0 {
      assert Itoa(m)[1..] == Digits(-m) && Itoa(n)[1..] == Digits(-n);
    }
  }

  lemma ItoaHasNoColon(n: int)
    ensures ':' !in Itoa(n)
  {
    DigitsRoundTrip(if n < 0 then -n else n);
  }

  /** The last colon splits a string in only one way. */
  lemma LastColonSplits(a: string, x: string, b: string, y: string)
    requires a + ":" + x == b + ":" + y && ':' !in x && ':' !in y
    ensures a == b && x == y
  {
    var s := a + ":" + x;
    assert s[|a|] == ':' && s[|b|] == ':';
    forall i | |a| < i < |s| ensures s[i] != ':' {
      assert s[i] == x[i - |a| - 1];
    }
    forall i | |b| < i < |s| ensures s[i] != ':' {
      assert s[i] == y[i - |b| - 1];
    }
    assert s[..|a|] == a && s[..|b|] == b;
    assert s[|a| + 1..] == x && s[|b| + 1..] == y;
  }

  lemma TwoNumbersSplit(a: string, m: int, n: int, b: string, m': int, n': int)
    requires a + ":" + Itoa(m) + ":" + Itoa(n) == b + ":" + Itoa(m') + ":" + Itoa(n')
    ensures a == b && m == m' && n == n'
  {
    ItoaHasNoColon(m); ItoaHasNoColon(n); ItoaHasNoColon(m'); ItoaHasNoColon(n');
    LastColonSplits(a + ":" + Itoa(m), Itoa(n), b + ":" + Itoa(m'), Itoa(n'));
    LastColonSplits(a, Itoa(m), b, Itoa(m'));
    ItoaInjective(m, m');
    ItoaInjective(n, n');
  }

  function Family(r: Read): string {
    match r
    case ListOf(_, _) => LIST
    case SearchOf(_, _, _) => SEARCH
    case SnippetOf(_) => SNIPPET
    case ShareOf(_) => SHARE
  }

  /** Where two of the prefixes part. */
  lemma PrefixesPart(p: string, q: string) returns (i: nat)
    requires p in {LIST, SEARCH, SNIPPET, SHARE} && q in {LIST, SEARCH, SNIPPET, SHARE} && p != q
    ensures i < |p| && i < |q| && p[i] != q[i]
  {
    if p == SHARE || q == SHARE {
      i := 1;
    } else if p == SNIPPET || q == SNIPPET {
      i := 7;
    } else {
      i := 9;
    }
  }

  /** A key starts with its own family's prefix and with no other family's. */
  lemma FamilyPrefix(r: Read, prefix: string)
    requires prefix in {LIST, SEARCH, SNIPPET, SHARE}
    ensures prefix <= Key(r) <==> prefix == Family(r)
  {
    StartsWithFamily(r);
    if prefix != Family(r) {
      var i := PrefixesPart(prefix, Family(r));
      assert Key(r)[i] == Family(r)[i];
      NoPrefix(prefix, Key(r), i);
    }
  }

  lemma NoPrefix(p: string, k: string, i: nat)
    requires i < |p| && i < |k| && p[i] != k[i]
    ensures !(p <= k)
  {}

  lemma StartsWithFamily(r: Read)
    ensures Family(r) <= Key(r)
  {}

  /** Two reads share a key only if they are the same read, whatever the query holds. */
  lemma KeysInjective(r: Read, r': Read)
    requires Key(r) == Key(r')
    ensures r == r'
  {
    FamilyPrefix(r, Family(r));
    FamilyPrefix(r', Family(r));
    match r
    case ListOf(page, limit) =>
      ListKeyShape(page, limit);
      ListKeyShape(r'.page, r'.limit);
      TwoNumbersSplit("snippets:list", page, limit, "snippets:list", r'.page, r'.limit);
    case SearchOf(query, page, limit) =>
      assert Key(r) == (SEARCH + query) + ":" + Itoa(page) + ":" + Itoa(limit);
      TwoNumbersSplit(SEARCH + query, page, limit, SEARCH + r'.query, r'.page, r'.limit);
      assert (SEARCH + query)[|SEARCH|..] == query && (SEARCH + r'.query)[|SEARCH|..] == r'.query;
    case SnippetOf(id) =>
      assert Key(r)[|SNIPPET|..] == id && Key(r')[|SNIPPET|..] == r'.id;
    case ShareOf(token) =>
      assert Key(r)[|SHARE|..] == token && Key(r')[|SHARE|..] == r'.token;
  }

  lemma ListKeyShape(page: GoInt, limit: GoInt)
    ensures Key(ListOf(page, limit)) == "snippets:list" + ":" + Itoa(page) + ":" + Itoa(limit)
  {
    assert LIST == "snippets:list" + ":";
  }

  /** A prefix delete, which scans for `prefix*`, meets every key of its family and no other
      read's key. */
  lemma ScanMeetsFamily(r: Read, prefix: string)
    requires prefix == LIST || prefix == SEARCH
    ensures Matching.Scans(prefix, Key(r)) <==> prefix == Family(r)
  {
    Matching.ScanIsPrefix(prefix, Key(r));
    FamilyPrefix(r, prefix);
  }
}
