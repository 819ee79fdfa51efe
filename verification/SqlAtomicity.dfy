/** Which answers of the two-statement requests are those of one atomic call, in every
    interleaving. */
module SqlAtomicity {
  import opened StoreSpec
  import opened SqlSpec
  import opened SqlInterleaving

  // ---------- Every answer of UpdateSnippet is atomic ----------

  /** The request that ends at step `e` is in progress before and after step `k`. */
  ghost predicate Overlaps(dbs: seq<Db>, es: seq<Event>, e: nat, k: nat)
    requires |dbs| == |es| + 1 && e < |es| && es[e].WriteUpdate? && es[e].j in dbs[e].jobs
  {
    k < e && forall l :: k <= l <= e ==> HasJob(dbs[l], es[e].j, dbs[e].jobs[es[e].j])
  }

  /** An update whose row is gone when it writes was overtaken by a delete while in progress. */
  lemma OvertakingDelete(users: set<string>, dbs: seq<Db>, es: seq<Event>, i: nat) returns (k: nat)
    requires Interleaving(users, dbs, es) && i < |es| && es[i].WriteUpdate? && Enabled(dbs[i], es[i])
    requires dbs[i].jobs[es[i].j].id !in dbs[i].rows
    ensures Overlaps(dbs, es, i, k) && Deletes(dbs[k], es[k], dbs[i].jobs[es[i].j].id)
  {
    var j := es[i].j;
    var b := JobWasBegun(users, dbs, es, i, j);
    assert Enabled(dbs[b], es[b]) && dbs[b + 1] == After(users, dbs[b], es[b]);
    k := RowWasDeleted(users, dbs, es, b + 1, i, dbs[i].jobs[j].id);
  }

  /** The answer of an update is right as one call on any snippets in which its row stands with
      the identity it read. */
  lemma UpdateFits(lower: string -> string, db: Db, e: Event, m: Snippets)
    requires Inv(db) && Enabled(db, e) && e.WriteUpdate?
    requires db.jobs[e.j].id in m && SameIdentity(m[db.jobs[e.j].id], db.jobs[e.j].seen)
    ensures Next(lower, m, UpdateCall(db, e), m[db.jobs[e.j].id := UpdateReturns(db, e)],
                 UpdateAnswer(UpdateReturns(db, e), true, true))
  {
    assert Remembers(db, db.jobs[e.j]);
  }

  /** The same snippets up to what updates change. */
  ghost predicate Alike(m: Snippets, n: Snippets) {
    m.Keys == n.Keys && forall id :: id in m ==> SameIdentity(m[id], n[id])
  }

  /** An overtaken update may be placed just before the delete, on any snippets like those the
      delete met. */
  lemma OvertakenUpdateFits(lower: string -> string, users: set<string>, dbs: seq<Db>, es: seq<Event>,
      i: nat, k: nat, m: Snippets)
    requires Interleaving(users, dbs, es) && i < |es| && es[i].WriteUpdate? && Enabled(dbs[i], es[i])
    requires Overlaps(dbs, es, i, k) && Deletes(dbs[k], es[k], dbs[i].jobs[es[i].j].id)
    requires Alike(m, Abs(dbs[k].rows))
    ensures var id := dbs[i].jobs[es[i].j].id;
      var m' := m[id := UpdateReturns(dbs[i], es[i])];
      && id in m && Alike(m', Abs(dbs[k].rows))
      && Next(lower, m, UpdateCall(dbs[i], es[i]), m', UpdateAnswer(UpdateReturns(dbs[i], es[i]), true, true))
      && Next(lower, m', DeleteCall(dbs[k].jobs[es[k].j]), m - {id}, DeleteAnswer(true, true))
  {
    RunKeepsInv(users, dbs, es, i);
    RunKeepsInv(users, dbs, es, k);
    var job := dbs[i].jobs[es[i].j];
    assert HasJob(dbs[k], es[i].j, job);
    assert Remembers(dbs[k], job);
    UpdateFits(lower, dbs[i], es[i], m);
    assert Remembers(dbs[k], dbs[k].jobs[es[k].j]);
    assert m[job.id := UpdateReturns(dbs[i], es[i])] - {job.id} == m - {job.id};
  }

  /** In every interleaving each success `UpdateSnippet` reports is that of an atomic call made
      while the request was in progress: at its write if the row is still there, and otherwise
      just before the write that deletes the row, which stays the success it was. */
  lemma UpdateIsAtomic(lower: string -> string, users: set<string>, dbs: seq<Db>, es: seq<Event>, i: nat)
      returns (k: nat, mid: Snippets)
    requires Interleaving(users, dbs, es) && i < |es| && es[i].WriteUpdate?
    ensures Enabled(dbs[i], es[i])
    ensures k == i || Overlaps(dbs, es, i, k)
    ensures Step(lower, Abs(dbs[k].rows), UpdateCall(dbs[i], es[i]), mid,
                 UpdateAnswer(UpdateReturns(dbs[i], es[i]), true, true))
    ensures if dbs[i].jobs[es[i].j].id in dbs[i].rows then k == i && mid == Abs(dbs[i + 1].rows)
      else
        && Deletes(dbs[k], es[k], dbs[i].jobs[es[i].j].id)
        && Step(lower, mid, DeleteCall(dbs[k].jobs[es[k].j]), Abs(dbs[k + 1].rows), DeleteAnswer(true, true))
  {
    assert Enabled(dbs[i], es[i]) && dbs[i + 1] == After(users, dbs[i], es[i]);
    RunKeepsInv(users, dbs, es, i);
    var job := dbs[i].jobs[es[i].j];
    if job.id in dbs[i].rows {
      k, mid := i, Abs(dbs[i + 1].rows);
      StatementIsCall(lower, users, dbs[i], es[i]);
    } else {
      k := OvertakingDelete(users, dbs, es, i);
      mid := Abs(dbs[k].rows)[job.id := UpdateReturns(dbs[i], es[i])];
      OvertakenUpdateFits(lower, users, dbs, es, i, k, Abs(dbs[k].rows));
      assert Enabled(dbs[k], es[k]) && dbs[k + 1] == After(users, dbs[k], es[k]);
      assert mid - {job.id} == Abs(dbs[k + 1].rows);
    }
  }

  // ---------- One history in which every update answers as it did ----------

  /** What step `e` counts as in that history: an update is always the success it reported. */
  ghost function HistoryCall(users: set<string>, db: Db, e: Event): Call
    requires Enabled(db, e)
  {
    if e.WriteUpdate? then UpdateCall(db, e) else AsCall(users, db, e)
  }

  ghost function HistoryAnswer(users: set<string>, db: Db, e: Event): Answer
    requires Enabled(db, e)
  {
    if e.WriteUpdate? then UpdateAnswer(UpdateReturns(db, e), true, true) else AsAnswer(users, db, e)
  }

  /** One call takes `m` to `m'` and answers as the step did; deletes meet the rows they met. */
  ghost predicate Places(lower: string -> string, users: set<string>, db: Db, e: Event, m: Snippets, m': Snippets) {
    && Enabled(db, e)
    && Next(lower, m, HistoryCall(users, db, e), m', HistoryAnswer(users, db, e))
    && (e.WriteDelete? ==> Alike(m, Abs(db.rows)))
  }

  /** Step `e` may precede step `f` in the history: it came first, or is an update in progress
      before and after `f`. */
  ghost predicate InOrder(dbs: seq<Db>, es: seq<Event>, e: nat, f: nat)
    requires |dbs| == |es| + 1 && e < |es|
  {
    e < f || (es[e].WriteUpdate? && es[e].j in dbs[e].jobs && Overlaps(dbs, es, e, f))
  }

  ghost function Placing(lower: string -> string, users: set<string>, dbs: seq<Db>, es: seq<Event>):
      (nat, Snippets, Snippets) -> bool
    requires |dbs| == |es| + 1
  {
    (e: nat, m, m') => e < |es| && Places(lower, users, dbs[e], es[e], m, m')
  }

  /** `who` orders the first `n` steps; a step comes before an earlier one only if it is an update
      that was in progress then. */
  ghost predicate Orders(dbs: seq<Db>, es: seq<Event>, n: nat, who: seq<nat>)
    requires |dbs| == |es| + 1 && n <= |es|
  {
    && |who| == n
    && (forall p :: 0 <= p < n ==> who[p] < n)
    && (forall e :: 0 <= e < n ==> e in who)
    && (forall p, q :: 0 <= p < q < n ==> InOrder(dbs, es, who[p], who[q]))
  }

  ghost predicate History(lower: string -> string, users: set<string>, dbs: seq<Db>, es: seq<Event>, n: nat,
      ms: seq<Snippets>, who: seq<nat>)
    requires |dbs| == |es| + 1 && n <= |es|
  {
    && Orders(dbs, es, n, who) && Chain(Placing(lower, users, dbs, es), ms, who)
    && ms[0] == Abs(dbs[0].rows) && ms[n] == Abs(dbs[n].rows)
  }

  lemma AppendStep(lower: string -> string, users: set<string>, dbs: seq<Db>, es: seq<Event>, n: nat,
      ms: seq<Snippets>, who: seq<nat>)
    requires Interleaving(users, dbs, es) && n < |es| && History(lower, users, dbs, es, n, ms, who)
    requires es[n].WriteUpdate? ==> Enabled(dbs[n], es[n]) && dbs[n].jobs[es[n].j].id in dbs[n].rows
    ensures History(lower, users, dbs, es, n + 1, ms + [Abs(dbs[n + 1].rows)], who + [n])
  {
    RunKeepsInv(users, dbs, es, n);
    assert Enabled(dbs[n], es[n]) && dbs[n + 1] == After(users, dbs[n], es[n]);
    StatementIsCall(lower, users, dbs[n], es[n]);
    var who' := who + [n];
    forall e | 0 <= e < n + 1 ensures e in who' {
      if e == n { assert who'[n] == n; }
    }
  }

  /** The steps `who` lead through the states `ms`. */
  ghost predicate Chain<S(!new)>(leads: (nat, S, S) -> bool, ms: seq<S>, who: seq<nat>) {
    |ms| == |who| + 1 && forall p :: 0 <= p < |who| ==> leads(who[p], ms[p], ms[p + 1])
  }

  /** Inserting step `n` at `p`, with the state `mid` behind it. */
  lemma ChainInsert<S(!new)>(leads: (nat, S, S) -> bool, ms: seq<S>, who: seq<nat>, p: nat, mid: S, n: nat)
    requires Chain(leads, ms, who) && p < |who| && leads(n, ms[p], mid) && leads(who[p], mid, ms[p + 1])
    ensures var ms' := ms[..p + 1] + [mid] + ms[p + 1..];
      Chain(leads, ms', who[..p] + [n] + who[p..]) && ms'[0] == ms[0] && ms'[|who| + 1] == ms[|who|]
  {
    var ms', who' := ms[..p + 1] + [mid] + ms[p + 1..], who[..p] + [n] + who[p..];
    forall q | 0 <= q < |who'| ensures leads(who'[q], ms'[q], ms'[q + 1]) {
      if q < p {
        assert leads(who[q], ms[q], ms[q + 1]);
      } else if q > p + 1 {
        assert leads(who[q - 1], ms[q - 1], ms[q]);
      }
    }
  }

  lemma InsertCovers(who: seq<nat>, n: nat, p: nat, e: nat)
    requires p <= |who| && e <= n && (e < n ==> e in who)
    ensures e in who[..p] + [n] + who[p..]
  {
    var who' := who[..p] + [n] + who[p..];
    if e == n {
      assert who'[p] == n;
    } else {
      var q :| 0 <= q < |who| && who[q] == e;
      assert who'[if q < p then q else q + 1] == e;
    }
  }

  /** It is also in order, because nothing behind the delete happened before it. */
  lemma InsertKeepsOrders(dbs: seq<Db>, es: seq<Event>, n: nat, who: seq<nat>, p: nat)
    requires n < |es| && |dbs| == |es| + 1 && Orders(dbs, es, n, who) && p < n
    requires es[n].WriteUpdate? && es[n].j in dbs[n].jobs && Overlaps(dbs, es, n, who[p]) && es[who[p]].WriteDelete?
    ensures Orders(dbs, es, n + 1, who[..p] + [n] + who[p..])
  {
    var who' := who[..p] + [n] + who[p..];
    forall e | 0 <= e < n + 1 ensures e in who' {
      InsertCovers(who, n, p, e);
    }
    forall q, r | 0 <= q < r < n + 1 ensures InOrder(dbs, es, who'[q], who'[r]) {
      var was, was' := if q <= p then q else q - 1, if r <= p then r else r - 1;
      if q == p {
        assert p == was' || InOrder(dbs, es, who[p], who[was']);
      } else if r != p {
        assert InOrder(dbs, es, who[was], who[was']);
      }
    }
  }

  lemma OvertakenUpdatePlaces(lower: string -> string, users: set<string>, dbs: seq<Db>, es: seq<Event>,
      i: nat, k: nat, m: Snippets, m': Snippets)
    requires Interleaving(users, dbs, es) && i < |es| && es[i].WriteUpdate? && Enabled(dbs[i], es[i])
    requires Overlaps(dbs, es, i, k) && Deletes(dbs[k], es[k], dbs[i].jobs[es[i].j].id)
    requires Places(lower, users, dbs[k], es[k], m, m')
    ensures var mid := m[dbs[i].jobs[es[i].j].id := UpdateReturns(dbs[i], es[i])];
      Places(lower, users, dbs[i], es[i], m, mid) && Places(lower, users, dbs[k], es[k], mid, m')
  {
    OvertakenUpdateFits(lower, users, dbs, es, i, k, m);
  }

  /** An overtaken update finds its place: before the delete that overtook it. */
  lemma PlaceBeforeDelete(lower: string -> string, users: set<string>, dbs: seq<Db>, es: seq<Event>, n: nat,
      ms: seq<Snippets>, who: seq<nat>) returns (p: nat, mid: Snippets)
    requires Interleaving(users, dbs, es) && n < |es| && History(lower, users, dbs, es, n, ms, who)
    requires es[n].WriteUpdate? && Enabled(dbs[n], es[n]) && dbs[n].jobs[es[n].j].id !in dbs[n].rows
    ensures Fits(lower, users, dbs, es, n, ms, who, p, mid)
  {
    var k := OvertakingDelete(users, dbs, es, n);
    p := PositionIn(who, k);
    assert Placing(lower, users, dbs, es)(k, ms[p], ms[p + 1]);
    mid := ms[p][dbs[n].jobs[es[n].j].id := UpdateReturns(dbs[n], es[n])];
    OvertakenUpdatePlaces(lower, users, dbs, es, n, k, ms[p], ms[p + 1]);
    assert dbs[n + 1] == After(users, dbs[n], es[n]);
  }

  lemma PositionIn(who: seq<nat>, e: nat) returns (p: nat)
    requires e in who
    ensures p < |who| && who[p] == e
  {
    p :| 0 <= p < |who| && who[p] == e;
  }

  ghost predicate Fits(lower: string -> string, users: set<string>, dbs: seq<Db>, es: seq<Event>, n: nat,
      ms: seq<Snippets>, who: seq<nat>, p: nat, mid: Snippets)
    requires |dbs| == |es| + 1 && n < |es| && |who| == n && |ms| == n + 1
  {
    && p < n && who[p] < n
    && Placing(lower, users, dbs, es)(n, ms[p], mid)
    && Placing(lower, users, dbs, es)(who[p], mid, ms[p + 1])
    && es[n].WriteUpdate? && es[n].j in dbs[n].jobs && es[who[p]].WriteDelete? && Overlaps(dbs, es, n, who[p])
    && Abs(dbs[n + 1].rows) == Abs(dbs[n].rows)
  }

  lemma InsertUpdate(leads: (nat, Snippets, Snippets) -> bool, dbs: seq<Db>, es: seq<Event>, n: nat,
      ms: seq<Snippets>, who: seq<nat>, p: nat, mid: Snippets)
    requires |dbs| == |es| + 1 && n < |es| && Orders(dbs, es, n, who) && Chain(leads, ms, who) && p < n
    requires leads(n, ms[p], mid) && leads(who[p], mid, ms[p + 1])
    requires es[n].WriteUpdate? && es[n].j in dbs[n].jobs && es[who[p]].WriteDelete? && Overlaps(dbs, es, n, who[p])
    ensures var ms', who' := ms[..p + 1] + [mid] + ms[p + 1..], who[..p] + [n] + who[p..];
      Orders(dbs, es, n + 1, who') && Chain(leads, ms', who') && ms'[0] == ms[0] && ms'[n + 1] == ms[n]
  {
    ChainInsert(leads, ms, who, p, mid, n);
    InsertKeepsOrders(dbs, es, n, who, p);
  }

  lemma ExtendHistory(lower: string -> string, users: set<string>, dbs: seq<Db>, es: seq<Event>, n: nat,
      ms: seq<Snippets>, who: seq<nat>) returns (ms': seq<Snippets>, who': seq<nat>)
    requires Interleaving(users, dbs, es) && n < |es| && History(lower, users, dbs, es, n, ms, who)
    ensures History(lower, users, dbs, es, n + 1, ms', who')
  {
    assert Enabled(dbs[n], es[n]);
    if es[n].WriteUpdate? && dbs[n].jobs[es[n].j].id !in dbs[n].rows {
      var p, mid := PlaceBeforeDelete(lower, users, dbs, es, n, ms, who);
      InsertUpdate(Placing(lower, users, dbs, es), dbs, es, n, ms, who, p, mid);
      ms', who' := ms[..p + 1] + [mid] + ms[p + 1..], who[..p] + [n] + who[p..];
    } else {
      AppendStep(lower, users, dbs, es, n, ms, who);
      ms', who' := ms + [Abs(dbs[n + 1].rows)], who + [n];
    }
  }

  lemma {:induction false} Linearize(lower: string -> string, users: set<string>, dbs: seq<Db>, es: seq<Event>, n: nat)
      returns (ms: seq<Snippets>, who: seq<nat>)
    requires Interleaving(users, dbs, es) && n <= |es|
    ensures History(lower, users, dbs, es, n, ms, who)
  {
    if n == 0 {
      ms, who := [Abs(dbs[0].rows)], [];
    } else {
      ms, who := Linearize(lower, users, dbs, es, n - 1);
      ms, who := ExtendHistory(lower, users, dbs, es, n - 1, ms, who);
    }
  }

  /** Every interleaving has one history of atomic calls on the interface, between the same two
      tables, in which every `UpdateSnippet` answers exactly what it did, refused calls and
      stored inserts included. Requests are reordered only if they ran at the same time. */
  lemma UpdatesLinearize(lower: string -> string, users: set<string>, dbs: seq<Db>, es: seq<Event>)
      returns (ms: seq<Snippets>, cs: seq<Call>, ans: seq<Answer>, who: seq<nat>)
    requires Interleaving(users, dbs, es)
    ensures StoreSpec.Run(lower, ms, cs, ans) && |cs| == |who| == |es|
    ensures ms[0] == Abs(dbs[0].rows) && ms[|es|] == Abs(dbs[|es|].rows)
    ensures forall e :: 0 <= e < |es| ==> e in who
    ensures forall p :: 0 <= p < |who| ==>
      && who[p] < |es| && Enabled(dbs[who[p]], es[who[p]])
      && cs[p] == HistoryCall(users, dbs[who[p]], es[who[p]])
      && ans[p] == HistoryAnswer(users, dbs[who[p]], es[who[p]])
    ensures forall p, q :: 0 <= p < q < |who| ==> InOrder(dbs, es, who[p], who[q])
  {
    var n := |es|;
    ms, who := Linearize(lower, users, dbs, es, n);
    assert forall p :: 0 <= p < n ==> Placing(lower, users, dbs, es)(who[p], ms[p], ms[p + 1]);
    cs := seq(n, p requires 0 <= p < n && Enabled(dbs[who[p]], es[who[p]]) =>
      HistoryCall(users, dbs[who[p]], es[who[p]]));
    ans := seq(n, p requires 0 <= p < n && Enabled(dbs[who[p]], es[who[p]]) =>
      HistoryAnswer(users, dbs[who[p]], es[who[p]]));
    RunKeepsInv(users, dbs, es, 0);
    forall p | 0 <= p < n ensures Next(lower, ms[p], cs[p], ms[p + 1], ans[p]) {
      assert Placing(lower, users, dbs, es)(who[p], ms[p], ms[p + 1]);
    }
  }

  // ---------- Where the two-statement answers are not atomic ----------

  /** `DeleteSnippet` reports success as soon as its check passed. As one step at the write, that
      answer is right exactly when the row is still there. */
  lemma DeleteIsAtomicIff(lower: string -> string, users: set<string>, dbs: seq<Db>, es: seq<Event>, i: nat)
    requires Interleaving(users, dbs, es) && i < |es| && es[i].WriteDelete?
    ensures Enabled(dbs[i], es[i])
    ensures var job := dbs[i].jobs[es[i].j];
      Step(lower, Abs(dbs[i].rows), DeleteCall(job), Abs(dbs[i + 1].rows), DeleteAnswer(true, true))
      <==> job.id in dbs[i].rows
  {
    RunKeepsInv(users, dbs, es, i);
    assert Enabled(dbs[i], es[i]) && dbs[i + 1] == After(users, dbs[i], es[i]);
    StatementIsCall(lower, users, dbs[i], es[i]);
  }

  /** A fork is one atomic call at its insert exactly when the original still stands with the
      title, code and description that were read. */
  lemma ForkIsAtomicIff(lower: string -> string, users: set<string>, dbs: seq<Db>, es: seq<Event>, i: nat)
    requires Interleaving(users, dbs, es) && i < |es| && es[i].WriteFork?
    requires Enabled(dbs[i], es[i]) && KeyHolds(users, dbs[i].jobs[es[i].j].userID)
    ensures var job := dbs[i].jobs[es[i].j];
      var sn := NewSnippet(CopyRequest(job.seen), job.userID, es[i].newID, es[i].now);
      Step(lower, Abs(dbs[i].rows), Call(ForkSnippet(job.id, job.userID), es[i].newID, es[i].now),
           Abs(dbs[i + 1].rows), SnippetAnswer(sn, true))
      <==> job.id in dbs[i].rows && CopyRequest(FromRow(dbs[i].rows[job.id])) == CopyRequest(job.seen)
  {
    RunKeepsInv(users, dbs, es, i);
    StatementIsCall(lower, users, dbs[i], es[i]);
  }

  lemma {:induction false} UsedGrows(users: set<string>, dbs: seq<Db>, es: seq<Event>, i: nat, j: nat)
    requires Interleaving(users, dbs, es) && i <= j < |dbs|
    ensures dbs[i].used <= dbs[j].used
    decreases j
  {
    if i < j {
      UsedGrows(users, dbs, es, i, j - 1);
      assert Enabled(dbs[j - 1], es[j - 1]) && dbs[j - 1 + 1] == After(users, dbs[j - 1], es[j - 1]);
    }
  }

  /** Whatever happened to the original in between, what a fork inserts and answers is what one
      atomic call at its read would have. */
  lemma ForkCopiesItsRead(lower: string -> string, users: set<string>, dbs: seq<Db>, es: seq<Event>, i: nat)
      returns (b: nat)
    requires Interleaving(users, dbs, es) && i < |es| && es[i].WriteFork?
    requires Enabled(dbs[i], es[i]) && KeyHolds(users, dbs[i].jobs[es[i].j].userID)
    ensures b < i && Begins(dbs[b], es[b], es[i].j, dbs[i].jobs[es[i].j])
    ensures var job := dbs[i].jobs[es[i].j];
      var sn := NewSnippet(CopyRequest(job.seen), job.userID, es[i].newID, es[i].now);
      && Next(lower, Abs(dbs[b].rows), Call(ForkSnippet(job.id, job.userID), es[i].newID, es[i].now),
              Abs(dbs[b].rows)[sn.id := sn], SnippetAnswer(sn, true))
      && Abs(dbs[i + 1].rows) == Abs(dbs[i].rows)[sn.id := sn]
  {
    b := JobWasBegun(users, dbs, es, i, es[i].j);
    UsedGrows(users, dbs, es, b, i);
    RunKeepsInv(users, dbs, es, b);
    RunKeepsInv(users, dbs, es, i);
    var job := dbs[i].jobs[es[i].j];
    var sn := NewSnippet(CopyRequest(job.seen), job.userID, es[i].newID, es[i].now);
    assert dbs[i + 1] == After(users, dbs[i], es[i]);
    InsertOnSnippets(users, dbs[i].rows, sn);
  }

  /** Two deletes of one snippet can both report success, which no history of the two calls
      allows: the other delete stays wrong wherever it is placed. */
  lemma BothDeletesSucceed(users: set<string>, row: Row) returns (dbs: seq<Db>, es: seq<Event>)
    ensures Interleaving(users, dbs, es) && |es| == 4
    ensures dbs[0].rows == map[row.id := row]
    ensures es[2] == WriteDelete(0) && es[3] == WriteDelete(1)
    ensures dbs[2].jobs == map[
      0 := Removing(row.id, FromRow(row).userID, FromRow(row)),
      1 := Removing(row.id, FromRow(row).userID, FromRow(row))]
    ensures var c := Call(DeleteSnippet(row.id, FromRow(row).userID), "", 0);
      forall lower: string -> string, ms ::
        !StoreSpec.Run(lower, ms, [c, c], [DeleteAnswer(true, true), DeleteAnswer(true, true)])
  {
    var user := FromRow(row).userID;
    es := [ReadToDelete(0, row.id, user), ReadToDelete(1, row.id, user), WriteDelete(0), WriteDelete(1)];
    var db0 := Db(map[row.id := row], {row.id}, map[]);
    var db1 := After(users, db0, es[0]);
    var db2 := After(users, db1, es[1]);
    var db3 := After(users, db2, es[2]);
    dbs := [db0, db1, db2, db3, After(users, db3, es[3])];
    var c := Call(DeleteSnippet(row.id, user), "", 0);
    forall lower: string -> string, ms |
      StoreSpec.Run(lower, ms, [c, c], [DeleteAnswer(true, true), DeleteAnswer(true, true)]) ensures false
    {
      var k := DeletedOnce(lower, ms, [c, c], [DeleteAnswer(true, true), DeleteAnswer(true, true)], 0, 1, row.id);
    }
  }
}
