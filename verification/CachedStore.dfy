/** `Cache` and `CachedStore` in their own form, over the in-memory store. */
module CachedStores {
  import opened Base
  import opened Model
  import opened Paging
  import opened StoreSpec
  import opened CacheKeys
  import opened CacheProtocol
  import opened CachedSpec
  import opened InMemoryStores
  import CachedShares
  import Matching
  import Shares

  /** Redis behind calls that may fail silently; `ttl` is `CacheTTLData`, in seconds. */
  class Cache {
    const ttl: int
    var entries: Cached

    constructor (ttl: int)
      ensures this.ttl == ttl && entries == map[]
    {
      this.ttl := ttl;
      entries := map[];
    }

    /** A miss may also be an error or a timeout, which the caller cannot tell: `failed`. */
    method Get(key: string, now: int) returns (v: Option<Json>, ghost failed: bool)
      ensures v.Some? ==> Live(entries, key, now) && v.value == entries[key].value
      ensures !failed ==> (v.Some? <==> Live(entries, key, now))
    {
      var down: bool := *;
      v := if down || !Live(entries, key, now) then None else Some(entries[key].value);
      failed := down;
    }

    method Set(key: string, value: Json, now: int) returns (ghost failed: bool)
      modifies `entries
      ensures entries == if failed then old(entries) else old(entries)[key := Entry(value, ExpiryFrom(ttl, now))]
    {
      var down: bool := *;
      if !down {
        entries := entries[key := Entry(value, ExpiryFrom(ttl, now))];
      }
      failed := down;
    }

    /** `done` is what the caller is not told: whether Redis carried the delete out. A failed one
        may still have removed some keys. */
    method Delete(keys: set<string>) returns (ghost done: bool)
      modifies `entries
      ensures Shrunk(old(entries), entries, keys)
      ensures done ==> entries == old(entries) - keys
    {
      var failed: bool := *;
      var reached: set<string> := *;
      entries := entries - if failed then keys * reached else keys;
      done := !failed;
    }

    /** Scan, collect, delete. */
    method DeleteByPrefix(prefix: string) returns (ghost done: bool)
      modifies `entries
      ensures Shrunk(old(entries), entries, set k | k in old(entries) && Matching.Scans(prefix, k))
      ensures done ==> entries == map k | k in old(entries) && !Matching.Scans(prefix, k) :: old(entries)[k]
    {
      var keys: seq<string> := [];
      var left := entries.Keys;
      var timedOut := false;
      while left != {} && !timedOut
        invariant left <= entries.Keys && entries == old(entries)
        invariant forall k :: k in keys <==> k in entries && k !in left && Matching.Scans(prefix, k)
      {
        var k :| k in left;
        if Matching.Scans(prefix, k) {
          keys := keys + [k];
        }
        left := left - {k};
        timedOut := *;
      }
      done := !timedOut;
      if |keys| > 0 {
        ghost var deleted := Delete(set k | k in keys);
        done := done && deleted;
      }
    }
  }

  /** `after` is `before` without some of `keys`. */
  ghost predicate Shrunk(before: Cached, after: Cached, keys: set<string>) {
    && (forall k :: k in after ==> k in before && after[k] == before[k])
    && before.Keys - keys <= after.Keys
  }

  /** The entries some of the invalidations reach. */
  ghost function Targets(cache: Cached, ps: seq<Pending>): set<string> {
    set k | k in cache && Covers(ps, k)
  }

  /** What carrying out `ps` may do to the cache, and must do when every call succeeds. */
  ghost predicate CarriedOut(before: Cached, after: Cached, ps: seq<Pending>, done: bool) {
    Shrunk(before, after, Targets(before, ps)) && (done ==> after == Invalidated(before, ps))
  }

  lemma CoversFirst(p: Pending, ps: seq<Pending>, k: string)
    ensures Covers([p] + ps, k) <==> Reaches(p, k) || Covers(ps, k)
  {
    var qs := [p] + ps;
    assert qs[0] == p;
    if i :| 0 <= i < |ps| && Reaches(ps[i], k) {
      assert qs[i + 1] == ps[i];
    }
    if i :| 0 < i < |qs| && Reaches(qs[i], k) {
      assert ps[i - 1] == qs[i];
    }
  }

  /** One invalidation after another. */
  lemma CarriedOutInOrder(a: Cached, b: Cached, c: Cached, p: Pending, ps: seq<Pending>, first: bool, rest: bool)
    requires Shrunk(a, b, set k | k in a && Reaches(p, k))
    requires first ==> b == map k | k in a && !Reaches(p, k) :: a[k]
    requires CarriedOut(b, c, ps, rest)
    ensures CarriedOut(a, c, [p] + ps, first && rest)
  {
    forall k | k in a ensures Covers([p] + ps, k) <==> Reaches(p, k) || Covers(ps, k) {
      CoversFirst(p, ps, k);
    }
  }

  /** A Set that worked or failed stores the answer as a miss may. */
  lemma SetStores(before: Cached, r: Read, a: Answer, after: Cached, expires: Option<int>)
    requires Encode(a).Some?
    requires after == before || after == before[Key(r) := Entry(Encode(a).value, expires)]
    ensures Stores(before, r, a, after)
  {}

  class CachedStore {
    const inner: InMemoryStore
    const cache: Cache

    constructor (inner: InMemoryStore, cache: Cache)
      ensures this.inner == inner && this.cache == cache
    {
      this.inner := inner;
      this.cache := cache;
    }

    /** A write: the inner step, then its invalidations; `done` tells whether they all succeeded. */
    ghost predicate Wrote(m: Snippets, entries: Cached, c: Call, a: Answer, done: bool)
      reads inner, cache
    {
      && Step(inner.lower, m, c, inner.snippets, a)
      && CarriedOut(entries, cache.entries, Invalidations(c.op, a), done)
      && (done ==> Does(m, entries, c, a))
    }

    /** One step of the decorator on the stores as they were and are. */
    ghost predicate Does(m: Snippets, entries: Cached, c: Call, a: Answer)
      reads inner, cache
    {
      CachedStep(inner.lower, m, entries, c, inner.snippets, cache.entries, a)
    }

    method ListSnippets(page: GoInt, limit: GoInt, now: int) returns (r: PageResult, ghost failed: bool)
      requires inner.Valid()
      modifies cache
      ensures Does(inner.snippets, old(cache.entries), Call(Op.ListSnippets(page, limit), "", now), PageAnswer(r))
      ensures !failed ==> ReadsThrough(inner.lower, cache.ttl, inner.snippets, old(cache.entries),
                                       Call(Op.ListSnippets(page, limit), "", now), cache.entries, PageAnswer(r))
    {
      var key := Key(ListOf(page, limit));
      var cached: Option<Json>;
      cached, failed := cache.Get(key, now);
      if cached.Some? && cached.value.ListJson? {
        return Page(cached.value.items, cached.value.total), failed;
      }
      r := inner.ListSnippets(page, limit);
      if r.Page? {
        ghost var lost := cache.Set(key, ListJson(r.items, r.total), now);
        SetStores(old(cache.entries), ListOf(page, limit), PageAnswer(r), cache.entries,
                  ExpiryFrom(cache.ttl, now));
        failed := failed || lost;
      }
    }

    method SearchSnippets(query: string, page: GoInt, limit: GoInt, now: int)
        returns (r: PageResult, ghost failed: bool)
      requires inner.Valid()
      modifies cache
      ensures Does(inner.snippets, old(cache.entries), Call(Op.SearchSnippets(query, page, limit), "", now),
                   PageAnswer(r))
      ensures !failed ==> ReadsThrough(inner.lower, cache.ttl, inner.snippets, old(cache.entries),
                                       Call(Op.SearchSnippets(query, page, limit), "", now), cache.entries,
                                       PageAnswer(r))
    {
      var key := Key(SearchOf(query, page, limit));
      var cached: Option<Json>;
      cached, failed := cache.Get(key, now);
      if cached.Some? && cached.value.ListJson? {
        return Page(cached.value.items, cached.value.total), failed;
      }
      r := inner.SearchSnippets(query, page, limit);
      if r.Page? {
        ghost var lost := cache.Set(key, ListJson(r.items, r.total), now);
        SetStores(old(cache.entries), SearchOf(query, page, limit), PageAnswer(r), cache.entries,
                  ExpiryFrom(cache.ttl, now));
        failed := failed || lost;
      }
    }

    method GetSnippet(id: string, now: int) returns (sn: Snippet, ok: bool, ghost failed: bool)
      modifies cache
      ensures Does(inner.snippets, old(cache.entries), Call(Op.GetSnippet(id), "", now), SnippetAnswer(sn, ok))
      ensures !failed ==> ReadsThrough(inner.lower, cache.ttl, inner.snippets, old(cache.entries),
                                       Call(Op.GetSnippet(id), "", now), cache.entries, SnippetAnswer(sn, ok))
    {
      var key := Key(SnippetOf(id));
      var cached: Option<Json>;
      cached, failed := cache.Get(key, now);
      if cached.Some? && cached.value.SnippetJson? {
        return cached.value.sn, true, failed;
      }
      sn, ok := inner.GetSnippet(id);
      if ok {
        ghost var lost := cache.Set(key, SnippetJson(sn), now);
        SetStores(old(cache.entries), SnippetOf(id), SnippetAnswer(sn, ok), cache.entries,
                  ExpiryFrom(cache.ttl, now));
        failed := failed || lost;
      }
    }

    /** The two prefix deletes every successful write ends with. */
    method InvalidateLists() returns (ghost done: bool)
      modifies cache
      ensures CarriedOut(old(cache.entries), cache.entries, [Scan(LIST), Scan(SEARCH)], done)
    {
      ghost var before := cache.entries;
      ghost var first := cache.DeleteByPrefix(LIST);
      ghost var between := cache.entries;
      ghost var second := cache.DeleteByPrefix(SEARCH);
      NothingPending(cache.entries);
      CarriedOutInOrder(between, cache.entries, cache.entries, Scan(SEARCH), [], second, true);
      CarriedOutInOrder(before, between, cache.entries, Scan(LIST), [Scan(SEARCH)], first, second);
      assert [Scan(SEARCH)] + [] == [Scan(SEARCH)] && [Scan(LIST)] + [Scan(SEARCH)] == [Scan(LIST), Scan(SEARCH)];
      done := first && second;
    }

    /** The snippet's own key, then the lists. */
    method InvalidateSnippet(id: string) returns (ghost done: bool)
      modifies cache
      ensures CarriedOut(old(cache.entries), cache.entries, [Keys({SNIPPET + id}), Scan(LIST), Scan(SEARCH)], done)
    {
      ghost var before := cache.entries;
      ghost var first := cache.Delete({SNIPPET + id});
      ghost var between := cache.entries;
      ghost var lists := InvalidateLists();
      CarriedOutInOrder(before, between, cache.entries, Keys({SNIPPET + id}), [Scan(LIST), Scan(SEARCH)], first, lists);
      assert [Keys({SNIPPET + id})] + [Scan(LIST), Scan(SEARCH)] == [Keys({SNIPPET + id}), Scan(LIST), Scan(SEARCH)];
      done := first && lists;
    }

    method CreateSnippet(req: SnippetRequest, userID: string, newID: string, now: int)
        returns (sn: Snippet, ghost done: bool)
      requires inner.Valid()
      modifies inner`snippets, cache
      ensures inner.Valid()
      ensures Wrote(old(inner.snippets), old(cache.entries), Call(Op.CreateSnippet(req, userID), newID, now),
                    SnippetAnswer(sn, true), done)
    {
      sn := inner.CreateSnippet(req, userID, newID, now);
      done := InvalidateLists();
    }

    method UpdateSnippet(id: string, req: SnippetRequest, userID: string, now: int)
        returns (sn: Snippet, found: bool, owned: bool, ghost done: bool)
      requires inner.Valid()
      modifies inner`snippets, cache
      ensures inner.Valid()
      ensures Wrote(old(inner.snippets), old(cache.entries), Call(Op.UpdateSnippet(id, req, userID), "", now),
                    UpdateAnswer(sn, found, owned), done)
      ensures !(found && owned) ==> done
    {
      NothingPending(cache.entries);
      sn, found, owned := inner.UpdateSnippet(id, req, userID, now);
      done := true;
      if found && owned {
        done := InvalidateSnippet(id);
      }
    }

    method DeleteSnippet(id: string, userID: string, now: int)
        returns (found: bool, owned: bool, ghost done: bool)
      requires inner.Valid()
      modifies inner`snippets, cache
      ensures inner.Valid()
      ensures Wrote(old(inner.snippets), old(cache.entries), Call(Op.DeleteSnippet(id, userID), "", now),
                    DeleteAnswer(found, owned), done)
      ensures !(found && owned) ==> done
    {
      NothingPending(cache.entries);
      found, owned := inner.DeleteSnippet(id, userID);
      done := true;
      if found && owned {
        done := InvalidateSnippet(id);
      }
    }

    method ForkSnippet(id: string, userID: string, newID: string, now: int)
        returns (forked: Snippet, ok: bool, ghost done: bool)
      requires inner.Valid()
      modifies inner`snippets, cache
      ensures inner.Valid()
      ensures Wrote(old(inner.snippets), old(cache.entries), Call(Op.ForkSnippet(id, userID), newID, now),
                    SnippetAnswer(forked, ok), done)
      ensures !ok ==> done
    {
      NothingPending(cache.entries);
      forked, ok := inner.ForkSnippet(id, userID, newID, now);
      done := true;
      if ok {
        done := InvalidateLists();
      }
    }

    // ---------- Shares ----------

    /** One step of share handling, whatever shares were made before. */
    ghost predicate DoesShare(shares: map<string, SharedCode>, entries: Cached, e: Shares.Event, a: Option<SharedCode>,
        made: map<string, SharedCode>, made': map<string, SharedCode>)
      reads inner, cache
    {
      CachedShares.Step(cache.ttl, CachedShares.Links(shares, entries, made), e,
                        CachedShares.Links(inner.shares, cache.entries, made'), a)
    }

    method CreateShare(req: ShareRequest, token: string, stamp: string, now: int) returns (shared: SharedCode)
      modifies inner`shares
      ensures forall made :: token !in made ==>
        DoesShare(old(inner.shares), cache.entries, Shares.Share(req, token, stamp, now), Some(shared),
                  made, made[token := shared])
    {
      shared := inner.CreateShare(req, token, stamp, now);
    }

    method GetShare(token: string, now: int) returns (shared: SharedCode, ok: bool, ghost failed: bool)
      modifies cache
      ensures var a := if ok then Some(shared) else None;
        forall made :: DoesShare(inner.shares, old(cache.entries), Shares.GetShare(token, now), a, made, made)
      ensures !ok ==> shared == ZERO_SHARE
      ensures var key, before := Key(ShareOf(token)), old(cache.entries);
        !failed ==>
          if Live(before, key, now) && before[key].value.ShareJson?
          then ok && shared == before[key].value.shared && cache.entries == before
          else
            && (ok <==> Shares.Open(inner.shares, token, now).Some?)
            && (ok ==> shared == inner.shares[token])
            && cache.entries ==
                 if ok then before[key := Entry(EncodeShare(shared), ExpiryFrom(cache.ttl, now))] else before
    {
      var key := Key(ShareOf(token));
      var cached: Option<Json>;
      cached, failed := cache.Get(key, now);
      if cached.Some? && cached.value.ShareJson? {
        return cached.value.shared, true, failed;
      }
      shared, ok := inner.GetShare(token, now);
      if ok {
        ghost var lost := cache.Set(key, EncodeShare(shared), now);
        failed := failed || lost;
      }
    }
  }

  lemma NothingPending(cache: Cached)
    ensures CarriedOut(cache, cache, [], true)
  {}
}
