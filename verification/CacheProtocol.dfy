/** The caching decorator as concurrent requests see it: readers and writers whose steps on the
    inner store and on Redis interleave freely, over a clock, with Redis calls that may fail. */
module CacheProtocol {
  import opened Base
  import opened Model
  import opened Paging
  import opened StoreSpec
  import opened CacheKeys
  import Matching
  import Shares

  /** The inner store. */
  datatype Data = Data(snippets: Snippets, shares: map<string, SharedCode>)

  /** What a cached value decodes to; the expiry of a share is not encoded. */
  datatype Json =
    | ListJson(items: seq<Snippet>, total: nat)
    | SnippetJson(sn: Snippet)
    | ShareJson(shared: SharedCode)

  function EncodeShare(s: SharedCode): Json {
    ShareJson(s.(expiresAt := 0))
  }

  /** The inner store, asked `r` at time `now`, may find `v`. */
  ghost predicate Gives(lower: string -> string, d: Data, now: int, r: Read, v: Json) {
    match r
    case ListOf(page, limit) => v.ListJson? && ListAnswer(d.snippets, page, limit, Page(v.items, v.total))
    case SearchOf(query, page, limit) =>
      v.ListJson? && ListAnswer(Selected(d.snippets, FoundBy(lower, query)), page, limit, Page(v.items, v.total))
    case SnippetOf(id) => id in d.snippets && v == SnippetJson(d.snippets[id])
    case ShareOf(token) =>
      var s := Shares.Open(d.shares, token, now);
      s.Some? && v == EncodeShare(s.value)
  }

  /** An invalidation a writer still owes: a delete by exact keys, a prefix scan not begun, or a
      scan in progress that must still report the keys in `must`. */
  datatype Pending =
    | Keys(keys: set<string>)
    | Scan(prefix: string)
    | Scanning(prefix: string, must: set<string>)

  predicate Reaches(p: Pending, k: string) {
    match p
    case Keys(keys) => k in keys
    case Scan(prefix) => Matching.Scans(prefix, k)
    case Scanning(_, must) => k in must
  }

  predicate Covers(ps: seq<Pending>, k: string) {
    exists i :: 0 <= i < |ps| && Reaches(ps[i], k)
  }

  /** The invalidations each write performs after the inner store has answered. */
  function Invalidations(op: Op, a: Answer): seq<Pending> {
    match op
    case CreateSnippet(_, _) => [Scan(LIST), Scan(SEARCH)]
    case UpdateSnippet(id, _, _) => if Refused(a) then [] else [Keys({SNIPPET + id}), Scan(LIST), Scan(SEARCH)]
    case DeleteSnippet(id, _) => if Refused(a) then [] else [Keys({SNIPPET + id}), Scan(LIST), Scan(SEARCH)]
    case ForkSnippet(_, _) => if Refused(a) then [] else [Scan(LIST), Scan(SEARCH)]
    case _ => []
  }

  /** Every answer a write may change is the target of one of its invalidations. */
  lemma InvalidationsSuffice(lower: string -> string, d: Data, now: int, c: Call, m': Snippets, a: Answer,
      r: Read, v: Json)
    requires Next(lower, d.snippets, c, m', a)
    requires Gives(lower, d, now, r, v) && !Covers(Invalidations(c.op, a), Key(r))
    ensures Gives(lower, d.(snippets := m'), now, r, v)
  {
    var ps := Invalidations(c.op, a);
    if ps != [] {
      var n := |ps|;
      assert ps[n - 2] == Scan(LIST) && ps[n - 1] == Scan(SEARCH);
      assert !Reaches(ps[n - 2], Key(r)) && !Reaches(ps[n - 1], Key(r));
      ScanMeetsFamily(r, LIST);
      ScanMeetsFamily(r, SEARCH);
      if r.SnippetOf? && (c.op.UpdateSnippet? || c.op.DeleteSnippet?) {
        assert !Reaches(ps[0], Key(r));
      }
    }
  }

  /** And nothing else is: a successful write invalidates every list and search, an update or
      delete also its own snippet, and a refused write nothing. */
  lemma InvalidationsExactly(op: Op, a: Answer, r: Read)
    requires op.CreateSnippet? || op.UpdateSnippet? || op.DeleteSnippet? || op.ForkSnippet?
    requires op.CreateSnippet? ==> !Refused(a)
    ensures Covers(Invalidations(op, a), Key(r)) <==>
      && !Refused(a)
      && (r.ListOf? || r.SearchOf? || (r.SnippetOf? && (op.UpdateSnippet? || op.DeleteSnippet?) && r.id == op.id))
  {
    var ps := Invalidations(op, a);
    ScanMeetsFamily(r, LIST);
    ScanMeetsFamily(r, SEARCH);
    if !Refused(a) {
      var n := |ps|;
      assert ps[n - 2] == Scan(LIST) && ps[n - 1] == Scan(SEARCH);
      assert Reaches(ps[n - 2], Key(r)) || Reaches(ps[n - 1], Key(r)) <==> r.ListOf? || r.SearchOf?;
      if op.UpdateSnippet? || op.DeleteSnippet? {
        assert Key(SnippetOf(op.id)) == SNIPPET + op.id;
        if Key(r) == Key(SnippetOf(op.id)) {
          KeysInjective(r, SnippetOf(op.id));
        }
        assert Reaches(ps[0], Key(r)) <==> r == SnippetOf(op.id);
      }
    }
  }

  // ---------- The machine ----------

  datatype Entry = Entry(value: Json, expires: Option<int>)

  /** A reader that missed, has the inner store's answer, and has yet to store it. `crossed`
      records whether a write that invalidates the key reached the inner store in between. */
  datatype Fill = Fill(read: Read, value: Json, crossed: bool)

  /** Readers and writers in progress are numbered; a writer with nothing pending has returned. */
  datatype State = State(
    now: int, inner: Data, cache: map<string, Entry>, fills: map<nat, Fill>, writers: map<nat, seq<Pending>>)

  /** The lower-casing function and `CacheTTLData`, in seconds. */
  datatype Config = Config(lower: string -> string, ttl: int)

  datatype Event =
    | Tick(to: int)
    | Evict(keys: set<string>)                                // Redis expires or evicts keys
    | Write(w: nat, c: Call, after: Snippets, a: Answer)      // a write on the inner store
    | Share(req: ShareRequest, token: string, stamp: string)
    | CollectShares
    | StartScan(w: nat)
    | EndScan(w: nat, found: set<string>)
    | Del(w: nat)
    | FailDelete(w: nat, done: set<string>)                   // an invalidation that did only part of its work
    | ReadInner(f: nat, read: Read, value: Json)              // after a miss, or a failed Get
    | SetEntry(f: nat)
    | FailSet(f: nat)

  /** The duration handed to Redis: nanoseconds, multiplied in a 64-bit register. */
  function Lifetime(ttl: int): GoInt {
    Wrap64(ttl * Shares.SECOND)
  }

  /** go-redis stores a key without expiry unless the duration is positive. */
  function ExpiryFrom(ttl: int, now: int): Option<int> {
    if Lifetime(ttl) > 0 then Some(now + Lifetime(ttl)) else None
  }

  predicate Live(cache: map<string, Entry>, key: string, now: int) {
    key in cache && (cache[key].expires.Some? ==> now < cache[key].expires.value)
  }

  predicate Hit(s: State, r: Read) {
    Live(s.cache, Key(r), s.now)
  }

  predicate Owes(s: State, w: nat) {
    w in s.writers && s.writers[w] != []
  }

  predicate Quiescent(s: State) {
    forall w :: w in s.writers ==> s.writers[w] == []
  }

  ghost predicate Enabled(cfg: Config, s: State, e: Event) {
    match e
    case Tick(to) => s.now <= to
    case Evict(_) => true
    case Write(w, c, m', a) => !Owes(s, w) && Next(cfg.lower, s.inner.snippets, c, m', a)
    case Share(_, token, _) => token !in s.inner.shares
    case CollectShares => true
    case StartScan(w) => Owes(s, w) && s.writers[w][0].Scan?
    case EndScan(w, found) => Owes(s, w) && s.writers[w][0].Scanning? && s.writers[w][0].must <= found
    case Del(w) => Owes(s, w) && s.writers[w][0].Keys?
    case FailDelete(w, _) => Owes(s, w)
    case ReadInner(f, read, value) => f !in s.fills && Gives(cfg.lower, s.inner, s.now, read, value)
    case SetEntry(f) => f in s.fills
    case FailSet(f) => f in s.fills
  }

  /** SCAN promises to report only keys that stay present throughout. */
  function Unlist(ps: seq<Pending>, gone: set<string>): (r: seq<Pending>)
    ensures |r| == |ps|
    ensures forall i :: 0 <= i < |ps| ==> r[i] == if ps[i].Scanning? then ps[i].(must := ps[i].must - gone) else ps[i]
  {
    seq(|ps|, i requires 0 <= i < |ps| => if ps[i].Scanning? then ps[i].(must := ps[i].must - gone) else ps[i])
  }

  function Remove(s: State, gone: set<string>): State {
    s.(cache := s.cache - gone, writers := map w | w in s.writers :: Unlist(s.writers[w], gone))
  }

  function Pop(s: State, w: nat): State
    requires Owes(s, w)
  {
    s.(writers := s.writers[w := s.writers[w][1..]])
  }

  function Replace(s: State, w: nat, p: Pending): State
    requires Owes(s, w)
  {
    s.(writers := s.writers[w := [p] + s.writers[w][1..]])
  }

  function Cross(fills: map<nat, Fill>, ps: seq<Pending>): map<nat, Fill> {
    map f | f in fills :: fills[f].(crossed := fills[f].crossed || Covers(ps, Key(fills[f].read)))
  }

  ghost function After(cfg: Config, s: State, e: Event): State
    requires Enabled(cfg, s, e)
  {
    match e
    case Tick(to) => s.(now := to)
    case Evict(keys) => Remove(s, keys)
    case Write(w, c, m', a) =>
      var ps := Invalidations(c.op, a);
      s.(inner := s.inner.(snippets := m'), writers := s.writers[w := ps], fills := Cross(s.fills, ps))
    case Share(req, token, stamp) =>
      s.(inner := s.inner.(shares := s.inner.shares[token := Shares.NewShare(req, token, stamp, s.now)]))
    case CollectShares => s.(inner := s.inner.(shares := Shares.Collected(s.inner.shares, s.now)))
    case StartScan(w) =>
      var prefix := s.writers[w][0].prefix;
      Replace(s, w, Scanning(prefix, set k | k in s.cache && Matching.Scans(prefix, k)))
    case EndScan(w, found) => Replace(s, w, Keys(found))
    case Del(w) => Remove(Pop(s, w), s.writers[w][0].keys)
    case FailDelete(w, done) => Remove(Pop(s, w), done)
    case ReadInner(f, read, value) => s.(fills := s.fills[f := Fill(read, value, false)])
    case SetEntry(f) =>
      var fill := s.fills[f];
      s.(cache := s.cache[Key(fill.read) := Entry(fill.value, ExpiryFrom(cfg.ttl, s.now))], fills := s.fills - {f})
    case FailSet(f) => s.(fills := s.fills - {f})
  }

  ghost predicate CacheRun(cfg: Config, ss: seq<State>, es: seq<Event>) {
    && |ss| == |es| + 1
    && Keyed(ss[0].inner.snippets) && ss[0].cache == map[] && ss[0].fills == map[] && ss[0].writers == map[]
    && forall i :: 0 <= i < |es| ==> Moves(cfg, ss[i], es[i], ss[i + 1])
  }

  ghost predicate Moves(cfg: Config, s: State, e: Event, s': State) {
    Enabled(cfg, s, e) && s' == After(cfg, s, e)
  }

  // ---------- Who is to blame for a wrong entry ----------

  /** The reads the snippet writes can affect; shares never change once made. */
  predicate OfSnippets(r: Read) {
    !r.ShareOf?
  }

  ghost predicate Right(cfg: Config, s: State, r: Read, v: Json) {
    Gives(cfg.lower, s.inner, s.now, r, v)
  }

  ghost predicate Covered(s: State, k: string) {
    exists w :: w in s.writers && Covers(s.writers[w], k)
  }

  /** A cached answer the inner store would not give now, and that no writer is about to delete. */
  ghost predicate Wrong(cfg: Config, s: State, r: Read) {
    Key(r) in s.cache && !Right(cfg, s, r, s.cache[Key(r)].value) && !Covered(s, Key(r))
  }

  /** Storing an answer that a write overtook. */
  predicate LateSet(s: State, e: Event, r: Read) {
    e.SetEntry? && e.f in s.fills && s.fills[e.f].read == r && s.fills[e.f].crossed
  }

  /** An invalidation of this key that failed to delete it. */
  predicate MissedDelete(s: State, e: Event, r: Read) {
    e.FailDelete? && Owes(s, e.w) && Reaches(s.writers[e.w][0], Key(r)) && Key(r) !in e.done
  }

  ghost predicate FillsRight(cfg: Config, s: State) {
    forall f :: f in s.fills && !s.fills[f].crossed && OfSnippets(s.fills[f].read) ==>
      Right(cfg, s, s.fills[f].read, s.fills[f].value)
  }

  lemma WriteKeepsUncovered(cfg: Config, s: State, e: Event, s': State, r: Read, v: Json)
    requires Moves(cfg, s, e, s') && e.Write? && OfSnippets(r)
    requires Right(cfg, s, r, v) && !Covers(Invalidations(e.c.op, e.a), Key(r))
    ensures Right(cfg, s', r, v)
  {
    InvalidationsSuffice(cfg.lower, s.inner, s.now, e.c, e.after, e.a, r, v);
  }

  lemma FillsStayRight(cfg: Config, s: State, e: Event, s': State)
    requires FillsRight(cfg, s) && Moves(cfg, s, e, s')
    ensures FillsRight(cfg, s')
  {
    forall f | f in s'.fills && !s'.fills[f].crossed && OfSnippets(s'.fills[f].read)
      ensures Right(cfg, s', s'.fills[f].read, s'.fills[f].value)
    {
      if e.Write? {
        WriteKeepsUncovered(cfg, s, e, s', s.fills[f].read, s.fills[f].value);
      }
    }
  }

  lemma CoverSurvivesRemoval(s: State, gone: set<string>, k: string)
    requires Covered(s, k) && k !in gone
    ensures Covered(Remove(s, gone), k)
  {
    var w :| w in s.writers && Covers(s.writers[w], k);
    var i :| 0 <= i < |s.writers[w]| && Reaches(s.writers[w][i], k);
    var t := Remove(s, gone);
    assert t.writers[w] == Unlist(s.writers[w], gone);
    assert Reaches(t.writers[w][i], k);
  }

  /** Popping or replacing a writer's first invalidation uncovers only what that one reached. */
  lemma CoverSurvivesHead(s: State, w: nat, k: string, s': State)
    requires Owes(s, w) && Covered(s, k)
    requires w in s'.writers && s'.writers == s.writers[w := s'.writers[w]]
    requires s'.writers[w] == s.writers[w][1..] || (s'.writers[w] != [] && s'.writers[w][1..] == s.writers[w][1..])
    requires Reaches(s.writers[w][0], k) ==> s'.writers[w] != [] && Reaches(s'.writers[w][0], k)
    ensures Covered(s', k)
  {
    var v :| v in s.writers && Covers(s.writers[v], k);
    if v != w {
      assert s'.writers[v] == s.writers[v];
    } else {
      var i :| 0 <= i < |s.writers[w]| && Reaches(s.writers[w][i], k);
      if i > 0 {
        assert s.writers[w][1..][i - 1] == s.writers[w][i];
        if s'.writers[w] == s.writers[w][1..] {
          assert Reaches(s'.writers[w][i - 1], k);
        } else {
          assert s'.writers[w][1..][i - 1] == s'.writers[w][i];
          assert Reaches(s'.writers[w][i], k);
        }
      }
    }
  }

  /** A step keeps a present key covered, unless a failed delete gives up on it. */
  lemma StepKeepsCover(cfg: Config, s: State, e: Event, s': State, r: Read)
    requires Moves(cfg, s, e, s') && Covered(s, Key(r)) && Key(r) in s.cache && Key(r) in s'.cache
    requires !MissedDelete(s, e, r)
    ensures Covered(s', Key(r))
  {
    var k := Key(r);
    match e
    case Evict(keys) => CoverSurvivesRemoval(s, keys, k);
    case Write(w, c, _, a) =>
      var v :| v in s.writers && Covers(s.writers[v], k);
      assert v != w;
      assert s'.writers[v] == s.writers[v];
    case StartScan(w) => CoverSurvivesHead(s, w, k, s');
    case EndScan(w, found) => CoverSurvivesHead(s, w, k, s');
    case Del(w) =>
      CoverSurvivesHead(s, w, k, Pop(s, w));
      CoverSurvivesRemoval(Pop(s, w), s.writers[w][0].keys, k);
    case FailDelete(w, done) =>
      CoverSurvivesHead(s, w, k, Pop(s, w));
      CoverSurvivesRemoval(Pop(s, w), done, k);
    case _ =>
      assert s'.writers == s.writers;
  }

  /** An entry is either just set, or was there already. */
  lemma EntryOrigin(cfg: Config, s: State, e: Event, s': State, k: string)
    requires Moves(cfg, s, e, s') && k in s'.cache
    ensures (e.SetEntry? && Key(s.fills[e.f].read) == k) || (k in s.cache && s'.cache[k] == s.cache[k])
  {}

  /** One step makes an entry wrong only by a late set or a missed delete. */
  lemma StepBlame(cfg: Config, s: State, e: Event, s': State, r: Read)
    requires FillsRight(cfg, s) && Moves(cfg, s, e, s') && OfSnippets(r)
    requires Wrong(cfg, s', r) && !LateSet(s, e, r) && !MissedDelete(s, e, r)
    ensures Wrong(cfg, s, r)
  {
    var k := Key(r);
    if e.SetEntry? && Key(s.fills[e.f].read) == k {
      KeysInjective(s.fills[e.f].read, r);
      assert false;
    }
    EntryOrigin(cfg, s, e, s', k);
    var v := s.cache[k].value;
    assert e.Write? ==> s'.writers[e.w] == Invalidations(e.c.op, e.a);
    if e.Write? && Right(cfg, s, r, v) {
      WriteKeepsUncovered(cfg, s, e, s', r, v);
    }
    assert !Right(cfg, s, r, v);
    if Covered(s, k) {
      StepKeepsCover(cfg, s, e, s', r);
    }
  }

  lemma {:induction false} RunFillsRight(cfg: Config, ss: seq<State>, es: seq<Event>, n: nat)
    requires CacheRun(cfg, ss, es) && n < |ss|
    ensures FillsRight(cfg, ss[n])
  {
    if n > 0 {
      RunFillsRight(cfg, ss, es, n - 1);
      assert Moves(cfg, ss[n - 1], es[n - 1], ss[n - 1 + 1]);
      FillsStayRight(cfg, ss[n - 1], es[n - 1], ss[n]);
    }
  }

  /** Under every interleaving and every failure: a cached list, search or snippet the inner
      store would not give now, and that no writer is about to delete, became wrong when a fill
      that a write overtook stored it, or when an invalidation that failed left it, and has been
      wrong ever since. */
  lemma {:induction false} WrongEntryHasCause(cfg: Config, ss: seq<State>, es: seq<Event>, n: nat, r: Read)
      returns (i: nat)
    requires CacheRun(cfg, ss, es) && n < |ss| && OfSnippets(r) && Wrong(cfg, ss[n], r)
    ensures i < n && (LateSet(ss[i], es[i], r) || MissedDelete(ss[i], es[i], r))
    ensures forall k :: i < k <= n ==> Wrong(cfg, ss[k], r)
  {
    if n == 0 {
      assert false;
    } else {
      i := n - 1;
      if !LateSet(ss[i], es[i], r) && !MissedDelete(ss[i], es[i], r) {
        RunFillsRight(cfg, ss, es, i);
        assert Moves(cfg, ss[i], es[i], ss[i + 1]);
        StepBlame(cfg, ss[i], es[i], ss[n], r);
        i := WrongEntryHasCause(cfg, ss, es, i, r);
      }
    }
  }

  /** Writes reach the inner store only while no reader stands between its inner read and its set. */
  ghost predicate AtomicFills(ss: seq<State>, es: seq<Event>)
    requires |ss| == |es| + 1
  {
    forall i :: 0 <= i < |es| && es[i].Write? ==> ss[i].fills == map[]
  }

  lemma {:induction false} AtomicFillsUncrossed(cfg: Config, ss: seq<State>, es: seq<Event>, n: nat)
    requires CacheRun(cfg, ss, es) && AtomicFills(ss, es) && n < |ss|
    ensures forall f :: f in ss[n].fills ==> !ss[n].fills[f].crossed
  {
    if n > 0 {
      AtomicFillsUncrossed(cfg, ss, es, n - 1);
      assert Moves(cfg, ss[n - 1], es[n - 1], ss[n - 1 + 1]);
    }
  }

  /** With atomic fills and reliable invalidations, every entry that disagrees with the inner
      store is covered by a writer that has yet to delete it; so whenever no write is in
      progress, every cached snippet, list and search is what the inner store gives. */
  lemma CoherentWhenFillsAtomic(cfg: Config, ss: seq<State>, es: seq<Event>, n: nat, r: Read)
    requires CacheRun(cfg, ss, es) && AtomicFills(ss, es) && n < |ss| && OfSnippets(r) && Key(r) in ss[n].cache
    requires forall i :: 0 <= i < |es| ==> !es[i].FailDelete?
    ensures Right(cfg, ss[n], r, ss[n].cache[Key(r)].value) || Covered(ss[n], Key(r))
    ensures Quiescent(ss[n]) ==> Right(cfg, ss[n], r, ss[n].cache[Key(r)].value)
  {
    if Wrong(cfg, ss[n], r) {
      var i := WrongEntryHasCause(cfg, ss, es, n, r);
      AtomicFillsUncrossed(cfg, ss, es, i);
      assert false;
    }
  }
}
