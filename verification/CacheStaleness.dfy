/** How old a cached answer can be, whatever fails and however steps interleave. */
module CacheStaleness {
  import opened Base
  import opened Model
  import opened StoreSpec
  import opened CacheKeys
  import opened CacheProtocol
  import Matching
  import Shares

  lemma {:induction false} ClockMonotone(cfg: Config, ss: seq<State>, es: seq<Event>, i: nat, j: nat)
    requires CacheRun(cfg, ss, es) && i <= j < |ss|
    ensures ss[i].now <= ss[j].now
    decreases j
  {
    if i < j {
      ClockMonotone(cfg, ss, es, i, j - 1);
      assert Moves(cfg, ss[j - 1], es[j - 1], ss[j - 1 + 1]);
    }
  }

  /** Steps i and j are the inner read and the set of one fill, which is pending in between. */
  predicate OneFill(ss: seq<State>, es: seq<Event>, i: nat, j: nat)
    requires |ss| == |es| + 1
  {
    && i < j < |es| && es[i].ReadInner? && es[j] == SetEntry(es[i].f)
    && forall k :: i < k <= j ==> Pends(ss[k], es[i])
  }

  /** The fill that `e` began is on its way, with the answer `e` read. */
  predicate Pends(s: State, e: Event)
    requires e.ReadInner?
  {
    e.f in s.fills && s.fills[e.f].read == e.read && s.fills[e.f].value == e.value
  }

  /** No fill takes longer than `d` from its inner read to its set. */
  ghost predicate FillsWithin(ss: seq<State>, es: seq<Event>, d: int)
    requires |ss| == |es| + 1
  {
    forall i: nat, j: nat :: OneFill(ss, es, i, j) ==> ss[j].now - ss[i].now <= d
  }

  /** A pending fill was begun by an inner read that gave it its answer. */
  lemma {:induction false} FillWasGiven(cfg: Config, ss: seq<State>, es: seq<Event>, n: nat, f: nat)
      returns (i: nat)
    requires CacheRun(cfg, ss, es) && n < |ss| && f in ss[n].fills
    ensures i < n && es[i] == ReadInner(f, ss[n].fills[f].read, ss[n].fills[f].value)
    ensures Right(cfg, ss[i], es[i].read, es[i].value)
    ensures forall k :: i < k <= n ==> Pends(ss[k], es[i])
  {
    assert n > 0;
    assert Moves(cfg, ss[n - 1], es[n - 1], ss[n - 1 + 1]);
    var e := es[n - 1];
    if e.ReadInner? && e.f == f {
      i := n - 1;
    } else {
      i := FillWasGiven(cfg, ss, es, n - 1, f);
    }
  }

  predicate JustSet(s: State, e: Event, r: Read) {
    e.SetEntry? && e.f in s.fills && Key(s.fills[e.f].read) == Key(r)
  }

  /** The entry of `r` at moment `n` is what the inner store gave at step `i` to the fill that
      stored it at step `j`. It has not changed since, and expires one TTL after step `j`. */
  ghost predicate StoredBy(cfg: Config, ss: seq<State>, es: seq<Event>, n: nat, r: Read, i: nat, j: nat)
    requires |ss| == |es| + 1 && n < |ss| && Key(r) in ss[n].cache
  {
    && j < n && OneFill(ss, es, i, j)
    && es[i].read == r && es[i].value == ss[n].cache[Key(r)].value && Right(cfg, ss[i], r, es[i].value)
    && (forall k :: j < k <= n ==> HasEntry(ss[k], r, ss[n].cache[Key(r)]))
    && ss[n].cache[Key(r)].expires == ExpiryFrom(cfg.ttl, ss[j].now)
  }

  predicate HasEntry(s: State, r: Read, entry: Entry) {
    Key(r) in s.cache && s.cache[Key(r)] == entry
  }

  /** A cached answer was just set by a fill of its read, or was there already. */
  lemma EntryStep(cfg: Config, ss: seq<State>, es: seq<Event>, n: nat, r: Read)
    requires CacheRun(cfg, ss, es) && n < |es| && Key(r) in ss[n + 1].cache
    ensures if JustSet(ss[n], es[n], r) then
        && ss[n].fills[es[n].f].read == r
        && HasEntry(ss[n + 1], r, Entry(ss[n].fills[es[n].f].value, ExpiryFrom(cfg.ttl, ss[n].now)))
      else HasEntry(ss[n], r, ss[n + 1].cache[Key(r)])
  {
    assert Moves(cfg, ss[n], es[n], ss[n + 1]);
    EntryOrigin(cfg, ss[n], es[n], ss[n + 1], Key(r));
    if JustSet(ss[n], es[n], r) {
      KeysInjective(ss[n].fills[es[n].f].read, r);
    }
  }

  /** The step that set a cached answer. */
  lemma {:induction false} EntryWasSet(cfg: Config, ss: seq<State>, es: seq<Event>, n: nat, r: Read) returns (j: nat)
    requires CacheRun(cfg, ss, es) && n < |ss| && Key(r) in ss[n].cache
    ensures j < n && JustSet(ss[j], es[j], r) && ss[j].fills[es[j].f].read == r
    ensures ss[n].cache[Key(r)] == Entry(ss[j].fills[es[j].f].value, ExpiryFrom(cfg.ttl, ss[j].now))
    ensures forall k :: j < k <= n ==> HasEntry(ss[k], r, ss[n].cache[Key(r)])
  {
    EntryStep(cfg, ss, es, n - 1, r);
    if JustSet(ss[n - 1], es[n - 1], r) {
      j := n - 1;
    } else {
      j := EntryWasSet(cfg, ss, es, n - 1, r);
    }
  }

  /** Every cached answer was given by the inner store to the fill that stored it. */
  lemma EntryWasGiven(cfg: Config, ss: seq<State>, es: seq<Event>, n: nat, r: Read) returns (i: nat, j: nat)
    requires CacheRun(cfg, ss, es) && n < |ss| && Key(r) in ss[n].cache
    ensures StoredBy(cfg, ss, es, n, r, i, j)
  {
    j := EntryWasSet(cfg, ss, es, n, r);
    i := FillWasGiven(cfg, ss, es, j, es[j].f);
  }

  /** A TTL of at least one second that is not so large that its nanoseconds overflow. */
  predicate Expires(cfg: Config) {
    cfg.ttl >= 1 && cfg.ttl * Shares.SECOND <= MAX_INT
  }

  /** Under any interleaving and any failing Redis call a hit was read from the inner store at
      step i, by the fill that stored it at step j, less than one TTL after which it is served. */
  lemma BoundedStaleness(cfg: Config, ss: seq<State>, es: seq<Event>, n: nat, r: Read) returns (i: nat, j: nat)
    requires CacheRun(cfg, ss, es) && n < |ss| && Hit(ss[n], r) && Expires(cfg)
    ensures j < n && OneFill(ss, es, i, j)
    ensures es[i].read == r && es[i].value == ss[n].cache[Key(r)].value && Right(cfg, ss[i], r, es[i].value)
    ensures ss[i].now <= ss[j].now <= ss[n].now < ss[j].now + cfg.ttl * Shares.SECOND
  {
    i, j := EntryWasGiven(cfg, ss, es, n, r);
    ClockMonotone(cfg, ss, es, i, j);
    ClockMonotone(cfg, ss, es, j, n);
  }

  /** If no fill takes longer than `d`, every hit was the inner store's answer less than one TTL
      plus `d` ago. */
  lemma StalenessWithin(cfg: Config, ss: seq<State>, es: seq<Event>, n: nat, r: Read, d: int) returns (i: nat)
    requires CacheRun(cfg, ss, es) && n < |ss| && Hit(ss[n], r) && Expires(cfg)
    requires FillsWithin(ss, es, d)
    ensures i < n && Right(cfg, ss[i], r, ss[n].cache[Key(r)].value)
    ensures ss[i].now <= ss[n].now < ss[i].now + cfg.ttl * Shares.SECOND + d
  {
    var j;
    i, j := BoundedStaleness(cfg, ss, es, n, r);
  }

  /** A hit on a share is one that was unexpired when the fill that stored it read it, and is
      served less than one TTL after the set. */
  lemma ShareNotServedLate(cfg: Config, ss: seq<State>, es: seq<Event>, n: nat, token: string)
      returns (i: nat, j: nat)
    requires CacheRun(cfg, ss, es) && n < |ss| && Hit(ss[n], ShareOf(token)) && Expires(cfg)
    ensures j < n && OneFill(ss, es, i, j) && es[i].read == ShareOf(token)
    ensures token in ss[i].inner.shares
    ensures ss[n].cache[Key(ShareOf(token))].value == es[i].value == EncodeShare(ss[i].inner.shares[token])
    ensures var e := ss[i].inner.shares[token].expiresAt; e > 0 ==> ss[i].now < (e + 1) * Shares.SECOND
    ensures ss[n].now < ss[j].now + cfg.ttl * Shares.SECOND
  {
    i, j := BoundedStaleness(cfg, ss, es, n, ShareOf(token));
    var e := ss[i].inner.shares[token].expiresAt;
    if e > 0 {
      assert ss[i].now / Shares.SECOND <= e;
    }
  }

  /** If no fill takes longer than `d`, no share is served from the cache later than one TTL plus
      `d` after the end of its last second. */
  lemma ShareServedWithin(cfg: Config, ss: seq<State>, es: seq<Event>, n: nat, token: string, d: int)
      returns (i: nat)
    requires CacheRun(cfg, ss, es) && n < |ss| && Hit(ss[n], ShareOf(token)) && Expires(cfg)
    requires FillsWithin(ss, es, d)
    ensures i < n && token in ss[i].inner.shares
    ensures ss[n].cache[Key(ShareOf(token))].value == EncodeShare(ss[i].inner.shares[token])
    ensures var e := ss[i].inner.shares[token].expiresAt;
      e > 0 ==> ss[n].now < (e + 1) * Shares.SECOND + cfg.ttl * Shares.SECOND + d
  {
    var j;
    i, j := ShareNotServedLate(cfg, ss, es, n, token);
  }

  // ---------- Entries live as long as they should ----------

  /** The nanoseconds of a TTL in seconds, wherever the product does not wrap. */
  lemma LifetimeIsSeconds(ttl: int)
    requires -9223372036 <= ttl <= 9223372036
    ensures Lifetime(ttl) == ttl * 1_000_000_000
  {}

  /** An entry that was set at step j and neither removed nor set again is a hit, with the value
      set, for exactly the TTL's seconds; for ever, if they are not positive. */
  lemma UntouchedEntryHits(cfg: Config, ss: seq<State>, es: seq<Event>, j: nat, n: nat, r: Read)
    requires CacheRun(cfg, ss, es) && j < n < |ss| && JustSet(ss[j], es[j], r) && Key(r) in ss[n].cache
    requires forall k :: j < k < n ==> !JustSet(ss[k], es[k], r)
    requires -9223372036 <= cfg.ttl <= 9223372036
    ensures Hit(ss[n], r) <==> cfg.ttl <= 0 || ss[n].now < ss[j].now + cfg.ttl * 1_000_000_000
    ensures ss[n].cache[Key(r)].value == ss[j].fills[es[j].f].value
  {
    var i := EntryWasSet(cfg, ss, es, n, r);
    assert i <= j && HasEntry(ss[j + 1], r, ss[n].cache[Key(r)]);
    EntryStep(cfg, ss, es, j, r);
    LifetimeIsSeconds(cfg.ttl);
  }

  // ---------- The bound is reached, and needs a positive TTL ----------

  /** The events of a read that a delete overtakes, and of the clock passing to `later`. */
  function SlowFill(sn: Snippet, later: int): seq<Event> {
    var c := Call(DeleteSnippet(sn.id, sn.userID), "", 0);
    [ReadInner(0, SnippetOf(sn.id), SnippetJson(sn)),
     Write(0, c, map[], DeleteAnswer(true, true)), Del(0),
     StartScan(0), EndScan(0, {}), Del(0),
     StartScan(0), EndScan(0, {}), Del(0),
     SetEntry(0), Tick(later)]
  }

  /** The run in which they happen, from a store holding only `sn`, at time 0. */
  ghost function SlowFillState(cfg: Config, sn: Snippet, later: int, k: nat): State
    requires k <= 11
  {
    var before := Data(map[sn.id := sn], map[]);
    var after := Data(map[], map[]);
    var fills := map[0 := Fill(SnippetOf(sn.id), SnippetJson(sn), true)];
    var cache := map[Key(SnippetOf(sn.id)) := Entry(SnippetJson(sn), ExpiryFrom(cfg.ttl, 0))];
    if k == 0 then State(0, before, map[], map[], map[])
    else if k == 1 then State(0, before, map[], map[0 := Fill(SnippetOf(sn.id), SnippetJson(sn), false)], map[])
    else if k <= 9 then State(0, after, map[], fills, map[0 := Left(sn, k)])
    else State(if k == 10 then 0 else later, after, cache, map[], map[0 := []])
  }

  /** What the deleting writer still owes after `k` events. */
  function Left(sn: Snippet, k: nat): seq<Pending>
    requires 2 <= k <= 9
  {
    if k == 2 then [Keys({SNIPPET + sn.id}), Scan(LIST), Scan(SEARCH)]
    else if k == 3 then [Scan(LIST), Scan(SEARCH)]
    else if k == 4 then [Scanning(LIST, {}), Scan(SEARCH)]
    else if k == 5 then [Keys({}), Scan(SEARCH)]
    else if k == 6 then [Scan(SEARCH)]
    else if k == 7 then [Scanning(SEARCH, {})]
    else if k == 8 then [Keys({})]
    else []
  }

  lemma SlowFillMoves(cfg: Config, sn: Snippet, later: int, k: nat)
    requires k < 11 && later >= 0
    ensures Moves(cfg, SlowFillState(cfg, sn, later, k), SlowFill(sn, later)[k], SlowFillState(cfg, sn, later, k + 1))
  {
    if k == 1 {
      OvertakingWrite(cfg, sn, later);
    } else if k == 2 || k == 5 || k == 8 {
      DelMoves(cfg, sn, later, k);
    } else if 2 <= k <= 8 {
      ScanMoves(cfg, sn, later, k);
    }
  }

  lemma OvertakingWrite(cfg: Config, sn: Snippet, later: int)
    ensures Moves(cfg, SlowFillState(cfg, sn, later, 1), SlowFill(sn, later)[1], SlowFillState(cfg, sn, later, 2))
  {
    var s, e, s' := SlowFillState(cfg, sn, later, 1), SlowFill(sn, later)[1], SlowFillState(cfg, sn, later, 2);
    var ps := Invalidations(e.c.op, e.a);
    assert s.inner.snippets - {sn.id} == map[];
    assert Enabled(cfg, s, e);
    assert Reaches(ps[0], Key(SnippetOf(sn.id)));
    assert s'.fills == Cross(s.fills, ps);
  }

  lemma DelMoves(cfg: Config, sn: Snippet, later: int, k: nat)
    requires k == 2 || k == 5 || k == 8
    ensures Moves(cfg, SlowFillState(cfg, sn, later, k), Del(0), SlowFillState(cfg, sn, later, k + 1))
  {
    var s := SlowFillState(cfg, sn, later, k);
    var t := After(cfg, s, Del(0));
    assert Left(sn, k)[1..] == Left(sn, k + 1);
    assert Pop(s, 0).writers[0] == Left(sn, k + 1);
    assert t.writers[0] == Unlist(Left(sn, k + 1), Left(sn, k)[0].keys);
    assert t.writers[0] == Left(sn, k + 1);
    assert t.writers == map[0 := Left(sn, k + 1)];
    assert t.cache == map[];
  }

  lemma ScanMoves(cfg: Config, sn: Snippet, later: int, k: nat)
    requires k in {3, 4, 6, 7}
    ensures Moves(cfg, SlowFillState(cfg, sn, later, k), SlowFill(sn, later)[k], SlowFillState(cfg, sn, later, k + 1))
  {
    var s, e := SlowFillState(cfg, sn, later, k), SlowFill(sn, later)[k];
    var t := After(cfg, s, e);
    if e.StartScan? {
      var prefix := s.writers[0][0].prefix;
      assert (set x | x in s.cache && Matching.Scans(prefix, x)) == {};
      assert t.writers[0][0] == Left(sn, k + 1)[0];
    }
    assert Left(sn, k + 1)[1..] == Left(sn, k)[1..];
    assert t.writers[0] == Left(sn, k + 1);
    assert t.writers == map[0 := Left(sn, k + 1)];
  }

  /** Without any failure, a fill that a delete overtakes leaves the deleted snippet cached after
      the writer has returned; it is then served until exactly one TTL after the set, and for
      ever if the TTL in nanoseconds is not positive as a 64-bit number. */
  lemma SlowFillLingers(cfg: Config, sn: Snippet, later: int) returns (ss: seq<State>, es: seq<Event>)
    requires later >= 0
    ensures CacheRun(cfg, ss, es) && |es| == 11 && (forall i :: 0 <= i < |es| ==> !es[i].FailDelete?)
    ensures ss[11].now == later && Quiescent(ss[11]) && ss[11].fills == map[]
    ensures forall i :: 2 <= i <= 11 ==> sn.id !in ss[i].inner.snippets && ss[i].now >= 0
    ensures forall i :: 0 <= i <= 9 ==> ss[i].now == 0
    ensures Key(SnippetOf(sn.id)) in ss[11].cache && ss[11].cache[Key(SnippetOf(sn.id))].value == SnippetJson(sn)
    ensures Hit(ss[11], SnippetOf(sn.id)) <==> Lifetime(cfg.ttl) <= 0 || later < Lifetime(cfg.ttl)
  {
    es := SlowFill(sn, later);
    ss := seq(12, k requires 0 <= k < 12 => SlowFillState(cfg, sn, later, k));
    forall i | 0 <= i < 11 ensures Moves(cfg, ss[i], es[i], ss[i + 1]) {
      SlowFillMoves(cfg, sn, later, i);
    }
  }
}
