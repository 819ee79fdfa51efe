/** Newest-first listings and the pages cut from them. */
module Paging {
  import opened Base
  import opened Model

  /** A page and the number of snippets behind all pages, or the run-time panic of an
      out-of-range slice. */
  datatype PageResult = Page(items: seq<Snippet>, total: nat) | Panic

  /** Slices one page out of `all` with Go's 64-bit arithmetic. */
  function TakePage(all: seq<Snippet>, page: GoInt, limit: GoInt): PageResult {
    var total := |all|;
    var start := Wrap64((page - 1) * limit);
    if start >= total then Page([], total)
    else
      var sum := Wrap64(start + limit);
      var end := if sum > total then total else sum;
      if 0 <= start <= end then Page(all[start..end], total) else Panic
  }

  /** At most `limit` snippets from position `lo` on. */
  function From(all: seq<Snippet>, lo: int, limit: int): (r: seq<Snippet>)
    requires lo >= 0 && limit >= 0
    ensures |r| <= limit
  {
    if lo >= |all| then [] else all[lo..Min(lo + limit, |all|)]
  }

  /** The page as the API documents it, over unbounded integers. */
  function IdealPage(all: seq<Snippet>, page: int, limit: int): (r: seq<Snippet>)
    requires page >= 1 && limit >= 1
    ensures |r| <= limit
  {
    From(all, (page - 1) * limit, limit)
  }

  /** For every page number and size a handler may pass, the code's page is the documented
      one exactly when the product fits a 64-bit int, or wraps beyond the last snippet. */
  lemma TakePageIsIdealIff(all: seq<Snippet>, page: GoInt, limit: GoInt)
    requires page >= 1 && limit >= 1 && |all| <= MAX_INT
    ensures TakePage(all, page, limit) == Page(IdealPage(all, page, limit), |all|)
      <==> (page * limit <= MAX_INT || Wrap64((page - 1) * limit) >= |all|)
  {
    var lo := (page - 1) * limit;
    assert lo >= 0 && page * limit == lo + limit;
    var start := Wrap64(lo);
    if start < |all| {
      if lo > MAX_INT {
        assert IdealPage(all, page, limit) == [];
      } else if lo + limit > MAX_INT {
        assert Wrap64(start + limit) < 0;
      } else {
        assert Wrap64(start + limit) == lo + limit;
      }
    } else {
      assert lo >= |all|;
    }
  }

  /** Where nothing wraps, the slice panics exactly on a page before the first one, or on a negative
      limit, unless it starts behind the last snippet. */
  lemma PanicsIff(all: seq<Snippet>, page: GoInt, limit: GoInt)
    requires |all| <= MAX_INT
    requires MIN_INT <= (page - 1) * limit <= MAX_INT && MIN_INT <= (page - 1) * limit + limit <= MAX_INT
    ensures TakePage(all, page, limit) == Panic <==>
      (page - 1) * limit < |all| && ((page - 1) * limit < 0 || limit < 0)
    ensures (page - 1) * limit >= |all| ==> TakePage(all, page, limit) == Page([], |all|)
  {
    var start := (page - 1) * limit;
    assert Wrap64(start) == start && Wrap64(start + limit) == start + limit;
  }

  /** Every key is the id of its snippet. */
  ghost predicate Keyed(m: map<string, Snippet>) {
    forall k :: k in m ==> m[k].id == k
  }

  /** No two snippets were created at the same instant. */
  ghost predicate DistinctStamps(m: map<string, Snippet>) {
    forall j, k :: j in m && k in m && j != k ==> m[j].createdAt != m[k].createdAt
  }

  ghost predicate Descending(s: seq<Snippet>) {
    forall i, j :: 0 <= i < j < |s| ==> s[i].createdAt >= s[j].createdAt
  }

  ghost predicate DistinctIds(s: seq<Snippet>) {
    forall i, j :: 0 <= i < j < |s| ==> s[i].id != s[j].id
  }

  function IdSet(s: seq<Snippet>): (r: set<string>) {
    set i | 0 <= i < |s| :: s[i].id
  }

  /** `s` holds every snippet of `m` exactly once. */
  ghost predicate Enumerates(m: map<string, Snippet>, s: seq<Snippet>) {
    && DistinctIds(s)
    && (forall i :: 0 <= i < |s| ==> s[i].id in m && m[s[i].id] == s[i])
    && IdSet(s) == m.Keys
  }

  /** `s` is one of the orders an unstable newest-first sort of `m` may produce. */
  ghost predicate IsNewestFirst(m: map<string, Snippet>, s: seq<Snippet>) {
    Enumerates(m, s) && Descending(s)
  }

  /** `r` is an answer the store may give for this page. */
  ghost predicate ListAnswer(m: map<string, Snippet>, page: GoInt, limit: GoInt, r: PageResult) {
    exists s :: IsNewestFirst(m, s) && r == TakePage(s, page, limit)
  }

  ghost function NewerThan(m: map<string, Snippet>, sn: Snippet): set<string> {
    set k | k in m && m[k].createdAt > sn.createdAt
  }

  lemma {:induction false} IdSetSize(s: seq<Snippet>)
    requires DistinctIds(s)
    ensures |IdSet(s)| == |s|
  {
    if s != [] {
      var n := |s| - 1;
      IdSetSize(s[..n]);
      assert IdSet(s) == IdSet(s[..n]) + {s[n].id};
      assert s[n].id !in IdSet(s[..n]);
    }
  }

  lemma PositionOf(m: map<string, Snippet>, s: seq<Snippet>, k: string) returns (i: nat)
    requires Enumerates(m, s) && k in m
    ensures i < |s| && s[i].id == k && s[i] == m[k]
  {
    assert k in IdSet(s);
    i :| 0 <= i < |s| && s[i].id == k;
  }

  lemma EnumerationSize(m: map<string, Snippet>, s: seq<Snippet>)
    requires Enumerates(m, s)
    ensures |s| == |m|
  {
    IdSetSize(s);
  }

  /** With distinct stamps a snippet's position is the number of newer snippets. */
  lemma PositionIsRank(m: map<string, Snippet>, s: seq<Snippet>, i: nat)
    requires Keyed(m) && DistinctStamps(m) && IsNewestFirst(m, s) && i < |s|
    ensures |NewerThan(m, s[i])| == i
  {
    IdSetSize(s[..i]);
    forall k | k in NewerThan(m, s[i]) ensures k in IdSet(s[..i]) {
      var j := PositionOf(m, s, k);
      assert j < i;
      assert s[..i][j].id == k;
    }
    forall k | k in IdSet(s[..i]) ensures k in NewerThan(m, s[i]) {
      var j :| 0 <= j < i && s[..i][j].id == k;
      assert s[j].id != s[i].id;
    }
    assert NewerThan(m, s[i]) == IdSet(s[..i]);
  }

  /** With distinct stamps there is only one newest-first order. */
  lemma NewestFirstUnique(m: map<string, Snippet>, s: seq<Snippet>, t: seq<Snippet>)
    requires Keyed(m) && DistinctStamps(m) && IsNewestFirst(m, s) && IsNewestFirst(m, t)
    ensures s == t
  {
    EnumerationSize(m, s);
    EnumerationSize(m, t);
    forall i | 0 <= i < |s| ensures s[i] == t[i] {
      var j := PositionOf(m, t, s[i].id);
      PositionIsRank(m, s, i);
      PositionIsRank(m, t, j);
    }
  }

  /** `n * limit` by repeated addition, which is how consecutive pages advance. */
  function Advance(n: nat, limit: nat): nat {
    if n == 0 then 0 else Advance(n - 1, limit) + limit
  }

  lemma {:induction false} AdvanceIsProduct(n: nat, limit: nat)
    ensures Advance(n, limit) == n * limit
  {
    if n > 0 {
      AdvanceIsProduct(n - 1, limit);
      assert n * limit == (n - 1) * limit + limit;
    }
  }

  lemma IdealPageIsWindow(all: seq<Snippet>, i: nat, limit: int)
    requires limit >= 1
    ensures IdealPage(all, i + 1, limit) == From(all, Advance(i, limit), limit)
  {
    AdvanceIsProduct(i, limit);
    assert (i + 1 - 1) * limit == i * limit;
  }

  /** The listing behind an answer whose page fits a 64-bit int. */
  lemma ListingBehind(m: map<string, Snippet>, page: GoInt, limit: GoInt, r: PageResult) returns (s: seq<Snippet>)
    requires Keyed(m) && |m| <= MAX_INT && page >= 1 && limit >= 1 && page * limit <= MAX_INT
    requires ListAnswer(m, page, limit, r)
    ensures IsNewestFirst(m, s) && |s| == |m|
    ensures r == Page(From(s, Advance(page - 1, limit), limit), |s|)
  {
    s :| IsNewestFirst(m, s) && r == TakePage(s, page, limit);
    EnumerationSize(m, s);
    TakePageIsIdealIff(s, page, limit);
    IdealPageIsWindow(s, page - 1, limit);
  }

  lemma ListAnswerUnique(m: map<string, Snippet>, page: GoInt, limit: GoInt, r: PageResult, r': PageResult)
    requires Keyed(m) && DistinctStamps(m)
    requires ListAnswer(m, page, limit, r) && ListAnswer(m, page, limit, r')
    ensures r == r'
  {
    var s: seq<Snippet> :| IsNewestFirst(m, s) && r == TakePage(s, page, limit);
    var t: seq<Snippet> :| IsNewestFirst(m, t) && r' == TakePage(t, page, limit);
    NewestFirstUnique(m, s, t);
  }

  // ---------- Pages tile the listing ----------

  function Joined(pages: seq<PageResult>): (r: seq<Snippet>)
    requires forall i :: 0 <= i < |pages| ==> pages[i].Page?
  {
    if pages == [] then []
    else Joined(pages[..|pages| - 1]) + pages[|pages| - 1].items
  }

  function PageCount(total: nat, limit: int): nat
    requires limit >= 1
  {
    (total + limit - 1) / limit
  }

  lemma PrefixGrows(all: seq<Snippet>, lo: int, limit: int)
    requires lo >= 0 && limit >= 0
    ensures all[..Min(lo, |all|)] + From(all, lo, limit) == all[..Min(lo + limit, |all|)]
  {}

  lemma {:induction false} JoinedWindows(all: seq<Snippet>, limit: nat, pages: seq<PageResult>)
    requires forall i :: 0 <= i < |pages| ==> pages[i] == Page(From(all, Advance(i, limit), limit), |all|)
    ensures Joined(pages) == all[..Min(Advance(|pages|, limit), |all|)]
  {
    if pages != [] {
      var n := |pages| - 1;
      JoinedWindows(all, limit, pages[..n]);
      PrefixGrows(all, Advance(n, limit), limit);
    }
  }

  lemma PagesCoverAll(total: nat, limit: int)
    requires limit >= 1
    ensures PageCount(total, limit) * limit >= total
  {
    var q := PageCount(total, limit);
    var r := (total + limit - 1) % limit;
    assert total + limit - 1 == q * limit + r;
  }

  lemma PageWithinRange(p: int, n: int, limit: int)
    requires 1 <= p <= n && limit >= 1 && n * limit <= MAX_INT
    ensures p * limit <= MAX_INT && p <= MAX_INT && limit <= MAX_INT
  {
    assert n * limit - p * limit == (n - p) * limit;
    assert (n - p) * limit >= 0;
    assert p * limit - p == p * (limit - 1) && p * limit - limit == (p - 1) * limit;
    assert p * (limit - 1) >= 0 && (p - 1) * limit >= 0;
  }

  /** `pages[i]` answers a call for page i + 1, each call sorting anew. */
  ghost predicate AnswersInOrder(m: map<string, Snippet>, limit: GoInt, pages: seq<PageResult>) {
    && |pages| <= MAX_INT
    && forall i :: 0 <= i < |pages| ==> ListAnswer(m, i + 1, limit, pages[i])
  }

  /** With distinct stamps all those calls cut their pages from the same order. */
  lemma OneListing(m: map<string, Snippet>, limit: GoInt, pages: seq<PageResult>) returns (s: seq<Snippet>)
    requires Keyed(m) && DistinctStamps(m) && limit >= 1 && |m| <= MAX_INT
    requires 0 < |pages| && |pages| * limit <= MAX_INT && AnswersInOrder(m, limit, pages)
    ensures IsNewestFirst(m, s) && |s| == |m|
    ensures forall i :: 0 <= i < |pages| ==> pages[i] == Page(From(s, Advance(i, limit), limit), |s|)
  {
    s := WindowBehind(m, limit, pages, 0);
    forall i | 0 <= i < |pages| ensures pages[i] == Page(From(s, Advance(i, limit), limit), |s|) {
      var t := WindowBehind(m, limit, pages, i);
      NewestFirstUnique(m, s, t);
    }
  }

  lemma WindowBehind(m: map<string, Snippet>, limit: GoInt, pages: seq<PageResult>, i: nat) returns (s: seq<Snippet>)
    requires Keyed(m) && limit >= 1 && |m| <= MAX_INT
    requires i < |pages| && |pages| * limit <= MAX_INT && AnswersInOrder(m, limit, pages)
    ensures IsNewestFirst(m, s) && |s| == |m|
    ensures pages[i] == Page(From(s, Advance(i, limit), limit), |s|)
  {
    PageWithinRange(i + 1, |pages|, limit);
    s := ListingBehind(m, i + 1, limit, pages[i]);
  }

  /** Answers given for pages 1, 2, ... by separate calls join to the whole listing: every
      snippet exactly once, newest first. */
  lemma PagesTile(m: map<string, Snippet>, limit: GoInt, pages: seq<PageResult>)
    requires Keyed(m) && DistinctStamps(m) && limit >= 1
    requires |pages| == PageCount(|m|, limit) && |pages| * limit <= MAX_INT
    requires AnswersInOrder(m, limit, pages)
    ensures forall i :: 0 <= i < |pages| ==> pages[i].Page? && |pages[i].items| <= limit && pages[i].total == |m|
    ensures IsNewestFirst(m, Joined(pages))
  {
    PagesCoverAll(|m|, limit);
    if |pages| == 0 {
      assert m == map[];
    } else {
      var s := OneListing(m, limit, pages);
      JoinedWindows(s, limit, pages);
      AdvanceIsProduct(|pages|, limit);
      assert s[..|s|] == s;
    }
  }

  lemma InSliceIff(s: seq<Snippet>, i: nat, lo: int, limit: int)
    requires DistinctIds(s) && i < |s| && 0 <= lo && limit >= 1
    ensures s[i] in From(s, lo, limit) <==> lo <= i < lo + limit
  {
    if lo < |s| {
      var items := s[lo..Min(lo + limit, |s|)];
      if lo <= i < lo + limit {
        assert items[i - lo] == s[i];
      }
      if s[i] in items {
        var j :| 0 <= j < |items| && items[j] == s[i];
        assert s[lo + j].id == s[i].id;
      }
    }
  }

  lemma WindowNumber(i: nat, limit: int, q: nat)
    requires limit >= 1
    ensures i / limit == q <==> Advance(q, limit) <= i < Advance(q, limit) + limit
  {
    AdvanceIsProduct(q, limit);
    QuotientRange(i, limit, q);
  }

  lemma InWindowByRank(m: map<string, Snippet>, s: seq<Snippet>, k: string, q: nat, limit: int)
    requires Keyed(m) && DistinctStamps(m) && IsNewestFirst(m, s) && k in m && limit >= 1
    ensures m[k] in From(s, Advance(q, limit), limit) <==> |NewerThan(m, m[k])| / limit == q
  {
    ShownByRank(m, s, k, Advance(q, limit), limit);
    WindowNumber(|NewerThan(m, m[k])|, limit, q);
  }

  lemma ShownByRank(m: map<string, Snippet>, s: seq<Snippet>, k: string, lo: int, limit: int)
    requires Keyed(m) && DistinctStamps(m) && IsNewestFirst(m, s) && k in m && 0 <= lo && limit >= 1
    ensures m[k] in From(s, lo, limit) <==> lo <= |NewerThan(m, m[k])| < lo + limit
  {
    var i := PositionOf(m, s, k);
    PositionIsRank(m, s, i);
    InSliceIff(s, i, lo, limit);
  }

  /** A snippet is on page p exactly when p - 1 full pages of newer snippets precede it. */
  lemma PageOfSnippet(m: map<string, Snippet>, page: GoInt, limit: GoInt, r: PageResult, k: string)
    requires Keyed(m) && DistinctStamps(m) && |m| <= MAX_INT
    requires page >= 1 && limit >= 1 && page * limit <= MAX_INT
    requires ListAnswer(m, page, limit, r) && k in m
    ensures r.Page?
    ensures m[k] in r.items <==> |NewerThan(m, m[k])| / limit == page - 1
  {
    var s := ListingBehind(m, page, limit, r);
    InWindowByRank(m, s, k, page - 1, limit);
  }

  lemma Multiples(a: int, b: int, n: int)
    requires a <= b && n >= 0
    ensures a * n <= b * n
  {
    assert (b - a) * n >= 0;
  }

  lemma QuotientRange(i: nat, limit: int, q: int)
    requires limit >= 1
    ensures i / limit == q <==> q * limit <= i < q * limit + limit
  {
    var d := i / limit;
    assert d * limit <= i < d * limit + limit;
    if q < d {
      Multiples(q + 1, d, limit);
    } else if d < q {
      Multiples(d + 1, q, limit);
    }
  }

  // ---------- Search is a filter of the listing ----------

  function Selected(m: map<string, Snippet>, keep: Snippet -> bool): map<string, Snippet> {
    map k | k in m && keep(m[k]) :: m[k]
  }

  lemma {:induction false} FilterKeepsOrder(s: seq<Snippet>, keep: Snippet -> bool)
    requires DistinctIds(s) && Descending(s)
    ensures DistinctIds(Filter(s, keep)) && Descending(Filter(s, keep))
  {
    if s != [] {
      FilterKeepsOrder(s[1..], keep);
      var f := Filter(s[1..], keep);
      forall i | 0 <= i < |f| ensures f[i].id != s[0].id && f[i].createdAt <= s[0].createdAt {
        assert f[i] in s[1..];
      }
      assert Filter(s, keep) == if keep(s[0]) then [s[0]] + f else f;
    }
  }

  /** Filtering a newest-first listing gives a newest-first listing of the matches. */
  lemma FilterOfListing(m: map<string, Snippet>, s: seq<Snippet>, keep: Snippet -> bool)
    requires IsNewestFirst(m, s)
    ensures IsNewestFirst(Selected(m, keep), Filter(s, keep))
  {
    FilterKeepsOrder(s, keep);
    var f := Filter(s, keep);
    forall i | 0 <= i < |f| ensures f[i].id in Selected(m, keep) && Selected(m, keep)[f[i].id] == f[i] {
      assert f[i] in s;
    }
  }

  // ---------- A newest-first order always exists ----------

  function InsertNewest(s: seq<Snippet>, sn: Snippet): seq<Snippet> {
    if s == [] || s[0].createdAt <= sn.createdAt then [sn] + s
    else [s[0]] + InsertNewest(s[1..], sn)
  }

  function SortNewest(s: seq<Snippet>): seq<Snippet> {
    if s == [] then [] else InsertNewest(SortNewest(s[1..]), s[0])
  }

  lemma DescendingCons(sn: Snippet, s: seq<Snippet>)
    requires Descending(s) && forall i :: 0 <= i < |s| ==> s[i].createdAt <= sn.createdAt
    ensures Descending([sn] + s)
  {}

  lemma {:induction false} InsertNewestPermutes(s: seq<Snippet>, sn: Snippet)
    ensures multiset(InsertNewest(s, sn)) == multiset(s) + multiset{sn}
  {
    if s != [] && s[0].createdAt > sn.createdAt {
      InsertNewestPermutes(s[1..], sn);
      assert s == [s[0]] + s[1..];
    }
  }

  lemma {:induction false} InsertNewestSorts(s: seq<Snippet>, sn: Snippet)
    requires Descending(s)
    ensures Descending(InsertNewest(s, sn))
  {
    if s == [] || s[0].createdAt <= sn.createdAt {
      DescendingCons(sn, s);
    } else {
      InsertNewestSorts(s[1..], sn);
      InsertNewestPermutes(s[1..], sn);
      var r := InsertNewest(s[1..], sn);
      forall i | 0 <= i < |r| ensures r[i].createdAt <= s[0].createdAt {
        assert r[i] in multiset(r);
      }
      DescendingCons(s[0], r);
    }
  }

  lemma {:induction false} SortNewestSorts(s: seq<Snippet>)
    ensures Descending(SortNewest(s)) && multiset(SortNewest(s)) == multiset(s)
  {
    if s != [] {
      SortNewestSorts(s[1..]);
      InsertNewestSorts(SortNewest(s[1..]), s[0]);
      InsertNewestPermutes(SortNewest(s[1..]), s[0]);
      assert s == [s[0]] + s[1..];
    }
  }

  /** One step of a loop that visits the keys of a map in any order. */
  lemma EnumerateOneMore(m: map<string, Snippet>, s: seq<Snippet>, k: string, sn: Snippet)
    requires Enumerates(m, s) && k !in m && sn.id == k
    ensures Enumerates(m[k := sn], s + [sn])
  {
    var t := s + [sn];
    assert t[|s|].id == k;
    forall j | j in m ensures j in IdSet(t) {
      var i := PositionOf(m, s, j);
      assert t[i].id == j;
    }
  }

  /** A rearrangement of an enumeration is an enumeration. */
  lemma EnumerationPermutes(m: map<string, Snippet>, s: seq<Snippet>, t: seq<Snippet>)
    requires Enumerates(m, s) && multiset(s) == multiset(t)
    ensures Enumerates(m, t)
  {
    forall i | 0 <= i < |t| ensures t[i] in s {
      assert t[i] in multiset(t);
    }
    forall k | k in m ensures k in IdSet(t) {
      var i := PositionOf(m, s, k);
      assert s[i] in multiset(s);
      var j :| 0 <= j < |t| && t[j] == s[i];
    }
    forall i, j | 0 <= i < j < |t| ensures t[i].id != t[j].id {
      if t[i].id == t[j].id {
        assert t[i] == t[j];
        assert t == t[..j] + [t[j]] + t[j + 1..];
        assert t[..j][i] == t[i];
        assert multiset(t)[t[i]] >= 2;
        OccursOnce(s, t[i]);
      }
    }
  }

  lemma {:induction false} OccursOnce(s: seq<Snippet>, sn: Snippet)
    requires DistinctIds(s)
    ensures multiset(s)[sn] <= 1
  {
    if s != [] {
      OccursOnce(s[1..], sn);
      assert s == [s[0]] + s[1..];
      forall i | 0 <= i < |s[1..]| ensures s[1..][i] != s[0] {
        assert s[0].id != s[i + 1].id;
      }
    }
  }

  lemma {:induction false} ListingExists(m: map<string, Snippet>) returns (s: seq<Snippet>)
    requires Keyed(m)
    ensures IsNewestFirst(m, s)
    decreases |m|
  {
    if m == map[] {
      s := [];
    } else {
      var k :| k in m;
      var rest := m - {k};
      assert |rest.Keys| == |m.Keys| - 1 by { assert rest.Keys == m.Keys - {k}; }
      var t := ListingExists(rest);
      EnumerateOneMore(rest, t, k, m[k]);
      var u := t + [m[k]];
      assert m == rest[k := m[k]];
      s := SortNewest(u);
      SortNewestSorts(u);
      EnumerationPermutes(m, u, s);
    }
  }

  // ---------- Ties make separate calls disagree ----------

  lemma {:induction false} JoinedSingles(pages: seq<PageResult>, i: nat)
    requires forall j :: 0 <= j < |pages| ==> pages[j].Page? && |pages[j].items| == 1
    requires i < |pages|
    ensures |Joined(pages)| == |pages| && Joined(pages)[i] == pages[i].items[0]
  {
    var n := |pages| - 1;
    if n > 0 {
      JoinedSingles(pages[..n], if i < n then i else 0);
    }
  }

  lemma AdjacentTie(m: map<string, Snippet>, s: seq<Snippet>) returns (a: nat)
    requires Keyed(m) && !DistinctStamps(m) && IsNewestFirst(m, s)
    ensures a + 1 < |s| && s[a].createdAt == s[a + 1].createdAt
  {
    var j, k :| j in m && k in m && j != k && m[j].createdAt == m[k].createdAt;
    var x := PositionOf(m, s, j);
    var y := PositionOf(m, s, k);
    a := if x < y then x else y;
  }

  function SwapNext(s: seq<Snippet>, a: nat): (t: seq<Snippet>)
    requires a + 1 < |s|
    ensures |t| == |s| && t[a] == s[a + 1] && t[a + 1] == s[a]
    ensures forall i :: 0 <= i < |s| && i != a && i != a + 1 ==> t[i] == s[i]
  {
    s[..a] + [s[a + 1], s[a]] + s[a + 2..]
  }

  lemma SwapNextPermutes(s: seq<Snippet>, a: nat)
    requires a + 1 < |s|
    ensures multiset(SwapNext(s, a)) == multiset(s)
  {
    assert s == s[..a] + [s[a], s[a + 1]] + s[a + 2..];
  }

  lemma SwapTie(m: map<string, Snippet>, s: seq<Snippet>, a: nat) returns (t: seq<Snippet>)
    requires IsNewestFirst(m, s) && a + 1 < |s| && s[a].createdAt == s[a + 1].createdAt
    ensures IsNewestFirst(m, t) && |t| == |s| && t[a + 1] == s[a]
  {
    t := SwapNext(s, a);
    SwapNextPermutes(s, a);
    EnumerationPermutes(m, s, t);
    SameStampsDescend(s, t);
  }

  lemma SameStampsDescend(s: seq<Snippet>, t: seq<Snippet>)
    requires Descending(s) && |t| == |s| && forall i :: 0 <= i < |t| ==> t[i].createdAt == s[i].createdAt
    ensures Descending(t)
  {}

  lemma SinglePage(m: map<string, Snippet>, s: seq<Snippet>, i: nat)
    requires IsNewestFirst(m, s) && i < |s| <= MAX_INT
    ensures ListAnswer(m, i + 1, 1, Page([s[i]], |s|))
  {
    assert s[i..i + 1] == [s[i]];
    assert TakePage(s, i + 1, 1) == Page([s[i]], |s|);
  }

  lemma MixedPages(m: map<string, Snippet>, s: seq<Snippet>, t: seq<Snippet>, b: nat)
      returns (pages: seq<PageResult>)
    requires IsNewestFirst(m, s) && IsNewestFirst(m, t) && |t| == |s| <= MAX_INT && b < |s|
    ensures |pages| == |s| == PageCount(|s|, 1) && AnswersInOrder(m, 1, pages)
    ensures forall i :: 0 <= i < |s| ==> pages[i] == Page([(if i == b then t else s)[i]], |s|)
  {
    pages := seq(|s|, i requires 0 <= i < |s| => Page([(if i == b then t else s)[i]], |s|));
    forall i | 0 <= i < |pages| ensures ListAnswer(m, i + 1, 1, pages[i]) {
      SinglePage(m, if i == b then t else s, i);
    }
  }

  /** Whenever two snippets share a stamp, pages of size one fetched by separate calls may
      show one snippet twice: distinct stamps are what every page size needs to tile. */
  lemma TiesBreakTiling(m: map<string, Snippet>) returns (pages: seq<PageResult>)
    requires Keyed(m) && !DistinctStamps(m) && |m| <= MAX_INT
    ensures |pages| == PageCount(|m|, 1) && AnswersInOrder(m, 1, pages)
    ensures forall i :: 0 <= i < |pages| ==> pages[i].Page?
    ensures !DistinctIds(Joined(pages))
  {
    var s := ListingExists(m);
    EnumerationSize(m, s);
    var a := AdjacentTie(m, s);
    var t := SwapTie(m, s, a);
    pages := MixedPages(m, s, t, a + 1);
    JoinedSingles(pages, a);
    JoinedSingles(pages, a + 1);
  }
}
