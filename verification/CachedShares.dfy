/** Share links through the caching decorator, one request at a time. */
module CachedShares {
  import opened Base
  import opened Model
  import opened CacheKeys
  import opened CacheProtocol
  import Shares

  /** The inner store's shares, the cache, and every share ever made. */
  datatype Links = Links(shares: map<string, SharedCode>, cache: map<string, Entry>, made: map<string, SharedCode>)

  /** A read is a hit, or a miss that may or may not manage to store what it found. */
  ghost predicate Step(ttl: int, s: Links, e: Shares.Event, s': Links, a: Option<SharedCode>) {
    match e
    case Share(req, token, stamp, now) =>
      var sh := Shares.NewShare(req, token, stamp, now);
      && token !in s.made && a == Some(sh)
      && s' == s.(shares := s.shares[token := sh], made := s.made[token := sh])
    case GetShare(token, now) =>
      var key := Key(ShareOf(token));
      || (Live(s.cache, key, now) && s.cache[key].value.ShareJson? && a == Some(s.cache[key].value.shared) && s' == s)
      || (a == Shares.Open(s.shares, token, now)
          && (s' == s
              || (a.Some? && s' == s.(cache := s.cache[key := Entry(EncodeShare(a.value), ExpiryFrom(ttl, now))]))))
    case Collect(now) => a == None && s' == s.(shares := Shares.Collected(s.shares, now))
  }

  ghost predicate Run(ttl: int, ss: seq<Links>, es: seq<Shares.Event>, ans: seq<Option<SharedCode>>) {
    && |ss| == |es| + 1 && |ans| == |es|
    && ss[0] == Links(map[], map[], map[])
    && (forall i :: 0 <= i < |es| ==> Step(ttl, ss[i], es[i], ss[i + 1], ans[i]))
    && (forall i, j :: 0 <= i < j < |es| ==> es[i].now <= es[j].now)
  }

  /** The inner store lacks only shares expired by `now`, and the cache holds only shares that
      were made, without their expiry. */
  ghost predicate Inv(s: Links, now: int) {
    Shares.LacksOnlyExpired(s.shares, s.made, now) && CachesOnlyMade(s)
  }

  ghost predicate CachesOnlyMade(s: Links) {
    forall t :: Key(ShareOf(t)) in s.cache ==> t in s.made && s.cache[Key(ShareOf(t))].value == EncodeShare(s.made[t])
  }

  lemma StepKeepsInv(ttl: int, s: Links, e: Shares.Event, s': Links, a: Option<SharedCode>)
    requires Inv(s, e.now) && Step(ttl, s, e, s', a)
    ensures Inv(s', e.now)
  {
    if e.GetShare? {
      if a.Some? {
        SetKeepsMade(s, e.token, a.value, ExpiryFrom(ttl, e.now));
      }
      GetKeepsInv(ttl, s, e, s', a);
    }
  }

  lemma GetKeepsInv(ttl: int, s: Links, e: Shares.Event, s': Links, a: Option<SharedCode>)
    requires Inv(s, e.now) && Step(ttl, s, e, s', a) && e.GetShare?
    requires a.Some? && e.token in s.made && s.made[e.token] == a.value ==>
      CachesOnlyMade(s.(cache := s.cache[Key(ShareOf(e.token)) := Entry(EncodeShare(a.value), ExpiryFrom(ttl, e.now))]))
    ensures Inv(s', e.now)
  {}

  lemma SetKeepsMade(s: Links, token: string, sh: SharedCode, expires: Option<int>)
    requires CachesOnlyMade(s)
    ensures token in s.made && s.made[token] == sh ==>
      CachesOnlyMade(s.(cache := s.cache[Key(ShareOf(token)) := Entry(EncodeShare(sh), expires)]))
  {
    forall t | Key(ShareOf(t)) == Key(ShareOf(token)) ensures t == token {
      KeysInjective(ShareOf(t), ShareOf(token));
    }
  }

  lemma InvLater(s: Links, now: int, later: int)
    requires Inv(s, now) && now <= later
    ensures Inv(s, later)
  {
    forall t | t in s.made && t !in s.shares ensures Shares.Expired(s.made[t], later) {
      Shares.ExpiredStays(s.made[t], now, later);
    }
  }

  lemma {:induction false} RunKeepsInv(ttl: int, ss: seq<Links>, es: seq<Shares.Event>,
      ans: seq<Option<SharedCode>>, n: nat)
    requires Run(ttl, ss, es, ans) && n < |es|
    ensures Inv(ss[n], es[n].now)
  {
    if n > 0 {
      RunKeepsInv(ttl, ss, es, ans, n - 1);
      assert Step(ttl, ss[n - 1], es[n - 1], ss[n - 1 + 1], ans[n - 1]);
      StepKeepsInv(ttl, ss[n - 1], es[n - 1], ss[n], ans[n - 1]);
      InvLater(ss[n], es[n - 1].now, es[n].now);
    }
  }

  /** Every share made so far was asked for by some step of the run. */
  lemma {:induction false} MadeWasAsked(ttl: int, ss: seq<Links>, es: seq<Shares.Event>,
      ans: seq<Option<SharedCode>>, n: nat, token: string) returns (k: nat)
    requires Run(ttl, ss, es, ans) && n < |ss| && token in ss[n].made
    ensures k < n && es[k].Share? && es[k].token == token
    ensures Shares.MadeFor(ss[n].made[token], es[k].req, token, es[k].stamp, es[k].now)
  {
    assert Step(ttl, ss[n - 1], es[n - 1], ss[n - 1 + 1], ans[n - 1]);
    if token in ss[n - 1].made && ss[n].made[token] == ss[n - 1].made[token] {
      k := MadeWasAsked(ttl, ss, es, ans, n - 1, token);
    } else {
      k := n - 1;
      Shares.NewShareMadeFor(es[k].req, token, es[k].stamp, es[k].now);
    }
  }

  /** A token is answered from the cache without its expiry, or from the store while it is open. */
  lemma CachedOrOpen(ttl: int, s: Links, e: Shares.Event, s': Links, a: Option<SharedCode>)
    requires Inv(s, e.now) && Step(ttl, s, e, s', a) && e.GetShare? && a.Some?
    ensures a.value.expiresAt <= 0 ||
      (e.token in s.made && a.value == s.made[e.token] && e.now < (a.value.expiresAt + 1) * 1_000_000_000)
  {
    Shares.OpenIff(s.shares, e.token, e.now);
  }

  /** Whoever opens a token, through the cache or past it, sees the code and title that were
      shared under that token; the expiry is the made one, or missing on a cached answer. */
  lemma FoundAsShared(ttl: int, ss: seq<Links>, es: seq<Shares.Event>, ans: seq<Option<SharedCode>>, n: nat)
      returns (k: nat)
    requires Run(ttl, ss, es, ans) && n < |es| && es[n].GetShare? && ans[n].Some?
    ensures k < n && es[k].Share? && es[k].token == es[n].token == ans[n].value.token
    ensures ans[n].value.code == es[k].req.code && ans[n].value.title == es[k].req.title
    ensures ans[n].value.createdAt == es[k].stamp
    ensures ans[n].value.expiresAt == es[k].now / 1_000_000_000 + 86400 || ans[n].value.expiresAt == 0
    ensures es[k].now >= 0 && es[n].now >= (es[k].now / 1_000_000_000 + 86401) * 1_000_000_000 ==>
      ans[n].value.expiresAt == 0
  {
    RunKeepsInv(ttl, ss, es, ans, n);
    assert Step(ttl, ss[n], es[n], ss[n + 1], ans[n]);
    k := MadeWasAsked(ttl, ss, es, ans, n, es[n].token);
    CachedOrOpen(ttl, ss[n], es[n], ss[n + 1], ans[n]);
  }

  /** In every run, with collector passes anywhere: a token yields nothing but the share made
      under it, up to its expiry; it yields that share as long as it has not expired; and an
      expired one is served only from a live cache entry. */
  lemma SharesThroughCache(ttl: int, ss: seq<Links>, es: seq<Shares.Event>, ans: seq<Option<SharedCode>>, n: nat)
    requires Run(ttl, ss, es, ans) && n < |es| && es[n].GetShare?
    ensures var made, token, now := ss[n].made, es[n].token, es[n].now;
      && (ans[n].Some? ==> token in made && ans[n].value.(expiresAt := 0) == made[token].(expiresAt := 0))
      && (token in made && !Shares.Expired(made[token], now) ==> ans[n].Some?)
      && (ans[n].Some? && Shares.Expired(made[token], now) ==> Live(ss[n].cache, Key(ShareOf(token)), now))
  {
    RunKeepsInv(ttl, ss, es, ans, n);
    assert Step(ttl, ss[n], es[n], ss[n + 1], ans[n]);
  }
}
