/** One request at a time through the caching decorator, and why it cannot be told from the
    store it wraps. */
module CachedSpec {
  import opened Base
  import opened Paging
  import opened StoreSpec
  import opened CacheKeys
  import opened CacheProtocol

  type Cached = map<string, Entry>

  /** The key a read is cached under; writes have none. */
  function ReadOf(op: Op): Option<Read> {
    match op
    case ListSnippets(page, limit) => Some(ListOf(page, limit))
    case SearchSnippets(query, page, limit) => Some(SearchOf(query, page, limit))
    case GetSnippet(id) => Some(SnippetOf(id))
    case _ => None
  }

  /** What a read stores: any page, or a snippet that was found. */
  function Encode(a: Answer): Option<Json> {
    match a
    case PageAnswer(Page(items, total)) => Some(ListJson(items, total))
    case SnippetAnswer(sn, true) => Some(SnippetJson(sn))
    case _ => None
  }

  /** What is left after a write's invalidations all succeed. */
  function Invalidated(cache: Cached, ps: seq<Pending>): Cached {
    map k | k in cache && !Covers(ps, k) :: cache[k]
  }

  /** A read is a hit, or a miss that asks the inner store and may or may not manage to store
      the answer; a failed Get is a miss. A write is the inner write, then its invalidations. */
  ghost predicate CachedStep(lower: string -> string, m: Snippets, cache: Cached, c: Call,
      m': Snippets, cache': Cached, a: Answer)
  {
    match ReadOf(c.op)
    case Some(r) =>
      || (Live(cache, Key(r), c.now) && Encode(a) == Some(cache[Key(r)].value) && m' == m && cache' == cache)
      || (Step(lower, m, c, m', a) && Stores(cache, r, a, cache'))
    case None =>
      Step(lower, m, c, m', a) && cache' == Invalidated(cache, Invalidations(c.op, a))
  }

  ghost predicate Stores(cache: Cached, r: Read, a: Answer, cache': Cached) {
    || cache' == cache
    || (Encode(a).Some? && exists expires :: cache' == cache[Key(r) := Entry(Encode(a).value, expires)])
  }

  /** Whether a cached value has the form its read decodes to. */
  predicate Decodes(r: Read, v: Json) {
    match r
    case ListOf(_, _) => v.ListJson?
    case SearchOf(_, _, _) => v.ListJson?
    case SnippetOf(_) => v.SnippetJson?
    case ShareOf(_) => v.ShareJson?
  }

  /** A read while every Redis call works: a live entry is served as it is, anything else is asked
      of the inner store and what was found is stored for one TTL. */
  ghost predicate ReadsThrough(lower: string -> string, ttl: int, m: Snippets, cache: Cached, c: Call,
      cache': Cached, a: Answer)
    requires ReadOf(c.op).Some?
  {
    var r := ReadOf(c.op).value;
    if Live(cache, Key(r), c.now) && Decodes(r, cache[Key(r)].value)
    then Encode(a) == Some(cache[Key(r)].value) && cache' == cache
    else
      && Step(lower, m, c, m, a)
      && cache' == match Encode(a)
           case Some(v) => cache[Key(r) := Entry(v, ExpiryFrom(ttl, c.now))]
           case None => cache
  }

  /** What was found once is answered again from the cache, whatever the inner store holds by
      then, until the TTL has passed; nothing is stored anew. */
  lemma SecondReadHits(lower: string -> string, ttl: int, m: Snippets, c: Call, cache: Cached, a: Answer,
      n: Snippets, d: Call, cache': Cached, b: Answer, cache'': Cached)
    requires ReadOf(c.op).Some? && d.op == c.op && !Live(cache, Key(ReadOf(c.op).value), c.now)
    requires (a.PageAnswer? && a.page.Page?) || (a.SnippetAnswer? && a.ok)
    requires ReadsThrough(lower, ttl, m, cache, c, cache', a) && ReadsThrough(lower, ttl, n, cache', d, cache'', b)
    requires 1 <= ttl <= 9223372036 && c.now <= d.now < c.now + ttl * 1_000_000_000
    ensures b == a && cache'' == cache'
  {
    var r := ReadOf(c.op).value;
    assert Lifetime(ttl) == ttl * 1_000_000_000;
    assert Live(cache', Key(r), d.now) && Decodes(r, cache'[Key(r)].value);
  }

  /** Every cached list, search or snippet is one the inner store may give now. */
  ghost predicate Coherent(lower: string -> string, m: Snippets, cache: Cached) {
    forall r :: OfSnippets(r) && Key(r) in cache ==> Gives(lower, Data(m, map[]), 0, r, cache[Key(r)].value)
  }

  lemma GivesIsStep(lower: string -> string, m: Snippets, c: Call, a: Answer)
    requires ReadOf(c.op).Some? && Encode(a).Some?
    requires Gives(lower, Data(m, map[]), 0, ReadOf(c.op).value, Encode(a).value)
    ensures Step(lower, m, c, m, a)
  {}

  lemma StepIsGives(lower: string -> string, m: Snippets, c: Call, m': Snippets, a: Answer)
    requires ReadOf(c.op).Some? && Encode(a).Some? && Step(lower, m, c, m', a)
    ensures m' == m && Gives(lower, Data(m, map[]), 0, ReadOf(c.op).value, Encode(a).value)
  {}

  /** A coherent cache answers as the inner store may, and stays coherent. */
  lemma CachedStepRefines(lower: string -> string, m: Snippets, cache: Cached, c: Call,
      m': Snippets, cache': Cached, a: Answer)
    requires Keyed(m) && Coherent(lower, m, cache) && FreshID(m, c)
    requires CachedStep(lower, m, cache, c, m', cache', a)
    ensures Next(lower, m, c, m', a) && Coherent(lower, m', cache')
  {
    match ReadOf(c.op)
    case Some(r) =>
      if Live(cache, Key(r), c.now) && Encode(a) == Some(cache[Key(r)].value) && m' == m && cache' == cache {
        GivesIsStep(lower, m, c, a);
      } else {
        assert m' == m;
        if Encode(a).Some? {
          StepIsGives(lower, m, c, m', a);
        }
        forall q | OfSnippets(q) && Key(q) in cache' ensures Gives(lower, Data(m, map[]), 0, q, cache'[Key(q)].value) {
          if Key(q) == Key(r) {
            KeysInjective(q, r);
          }
        }
      }
    case None =>
      var ps := Invalidations(c.op, a);
      forall q | OfSnippets(q) && Key(q) in cache' ensures Gives(lower, Data(m', map[]), 0, q, cache'[Key(q)].value) {
        InvalidationsSuffice(lower, Data(m, map[]), 0, c, m', a, q, cache[Key(q)].value);
      }
  }

  /** A run of whole requests through the decorator, from an empty cache. */
  ghost predicate CachedRun(lower: string -> string, ms: seq<Snippets>, caches: seq<Cached>,
      cs: seq<Call>, ans: seq<Answer>)
  {
    && |ms| == |caches| == |cs| + 1 && |ans| == |cs|
    && Keyed(ms[0]) && caches[0] == map[]
    && forall i :: 0 <= i < |cs| ==> CachedNext(lower, ms[i], caches[i], cs[i], ms[i + 1], caches[i + 1], ans[i])
  }

  ghost predicate CachedNext(lower: string -> string, m: Snippets, cache: Cached, c: Call,
      m': Snippets, cache': Cached, a: Answer)
  {
    FreshID(m, c) && CachedStep(lower, m, cache, c, m', cache', a)
  }

  lemma {:induction false} CachedRunCoherent(lower: string -> string, ms: seq<Snippets>, caches: seq<Cached>,
      cs: seq<Call>, ans: seq<Answer>, i: nat)
    requires CachedRun(lower, ms, caches, cs, ans) && i < |ms|
    ensures Keyed(ms[i]) && Coherent(lower, ms[i], caches[i])
    ensures i > 0 ==> Next(lower, ms[i - 1], cs[i - 1], ms[i], ans[i - 1])
  {
    if i > 0 {
      var j := i - 1;
      CachedRunCoherent(lower, ms, caches, cs, ans, j);
      assert CachedNext(lower, ms[j], caches[j], cs[j], ms[j + 1], caches[j + 1], ans[j]);
      CachedStepRefines(lower, ms[j], caches[j], cs[j], ms[i], caches[i], ans[j]);
      StepKeepsIdentity(lower, ms[j], cs[j], ms[i], ans[j]);
    }
  }

  /** Whatever clients see through the cache is a run of the inner store alone. */
  lemma CachedRunRefines(lower: string -> string, ms: seq<Snippets>, caches: seq<Cached>,
      cs: seq<Call>, ans: seq<Answer>)
    requires CachedRun(lower, ms, caches, cs, ans)
    ensures Run(lower, ms, cs, ans)
  {
    forall i | 0 <= i < |cs| ensures Next(lower, ms[i], cs[i], ms[i + 1], ans[i]) {
      CachedRunCoherent(lower, ms, caches, cs, ans, i + 1);
    }
  }

  /** With distinct stamps the answers are exactly those the inner store gives without a cache. */
  lemma CacheInvisible(lower: string -> string, ms: seq<Snippets>, caches: seq<Cached>, cs: seq<Call>, ans: seq<Answer>,
      ns: seq<Snippets>, bns: seq<Answer>)
    requires CachedRun(lower, ms, caches, cs, ans) && Run(lower, ns, cs, bns) && ms[0] == ns[0]
    requires forall i :: 0 <= i < |ns| ==> DistinctStamps(ns[i])
    ensures ans == bns && ms == ns
  {
    CachedRunRefines(lower, ms, caches, cs, ans);
    forall i | 0 <= i < |ns| ensures ms[i] == ns[i] && (i < |cs| ==> ans[i] == bns[i]) {
      RunsAgree(lower, cs, ns, bns, ms, ans, i);
    }
  }
}
