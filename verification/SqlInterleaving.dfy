/** Concurrent requests on the SQL store: updates, deletes and forks read a row in one
    statement and write in a later one, and lists count in one and select in a later one, with
    no transaction around the two. */
module SqlInterleaving {
  import opened Base
  import opened Model
  import opened Paging
  import opened StoreSpec
  import opened SqlSpec

  /** A request whose first statement has passed its checks and whose second is still to come. */
  datatype Job =
    | Editing(id: string, req: SnippetRequest, userID: string, seen: Snippet)
    | Removing(id: string, userID: string, seen: Snippet)
    | Copying(id: string, userID: string, seen: Snippet)
    | Listing(filter: Snippet -> bool, page: GoInt, limit: GoInt, total: nat)

  /** `used` records every uuid ever drawn. */
  datatype Db = Db(rows: Table, used: set<string>, jobs: map<nat, Job>)

  /** One statement of one request. `j` names the request. */
  datatype Event =
    | Insert(req: SnippetRequest, userID: string, newID: string, now: int)
    | ReadToUpdate(j: nat, id: string, req: SnippetRequest, userID: string)
    | ReadToDelete(j: nat, id: string, userID: string)
    | ReadToFork(j: nat, id: string, userID: string)
    | WriteUpdate(j: nat, now: int)
    | WriteDelete(j: nat)
    | WriteFork(j: nat, newID: string, now: int)
    | CountRows(j: nat, filter: Snippet -> bool, page: GoInt, limit: GoInt)
    | SelectRows(j: nat, r: PageResult)

  /** The check of update and delete: the row exists and the caller may change it. */
  predicate Passes(rows: Table, id: string, userID: string) {
    id in rows && MayChange(FromRow(rows[id]), userID)
  }

  function Start(db: Db, j: nat, job: Job): Db {
    db.(jobs := db.jobs[j := job])
  }

  function End(db: Db, j: nat, rows: Table): Db {
    db.(rows := rows, jobs := db.jobs - {j})
  }

  function Offset(page: GoInt, limit: GoInt): GoInt {
    Wrap64((page - 1) * limit)
  }

  /** The rows LIMIT and OFFSET leave; a negative one is an SQL error, answered with no rows. */
  function Window(all: seq<Snippet>, page: GoInt, limit: GoInt): seq<Snippet> {
    var offset := Offset(page, limit);
    if offset < 0 || limit < 0 then [] else From(all, offset, limit)
  }

  /** What a list answers with the total it counted and the rows it selects later. */
  ghost predicate Selects(m: Snippets, job: Job, r: PageResult)
    requires job.Listing?
  {
    exists s :: IsNewestFirst(m, s) && r == Page(Window(s, job.page, job.limit), job.total)
  }

  ghost predicate Enabled(db: Db, e: Event) {
    match e
    case Insert(_, _, newID, _) => newID !in db.used
    case ReadToUpdate(j, _, _, _) => j !in db.jobs
    case ReadToDelete(j, _, _) => j !in db.jobs
    case ReadToFork(j, _, _) => j !in db.jobs
    case WriteUpdate(j, _) => j in db.jobs && db.jobs[j].Editing?
    case WriteDelete(j) => j in db.jobs && db.jobs[j].Removing?
    case WriteFork(j, newID, _) => j in db.jobs && db.jobs[j].Copying? && newID !in db.used
    case CountRows(j, _, _, _) => j !in db.jobs
    case SelectRows(j, r) =>
      j in db.jobs && db.jobs[j].Listing? && Selects(Selected(Abs(db.rows), db.jobs[j].filter), db.jobs[j], r)
  }

  /** A read that fails its check answers the caller and leaves no job. */
  ghost function After(users: set<string>, db: Db, e: Event): Db
    requires Enabled(db, e)
  {
    match e
    case Insert(req, userID, newID, now) =>
      db.(rows := AfterInsert(users, db.rows, NewSnippet(req, userID, newID, now)), used := db.used + {newID})
    case ReadToUpdate(j, id, req, userID) =>
      if Passes(db.rows, id, userID) then Start(db, j, Editing(id, req, userID, FromRow(db.rows[id]))) else db
    case ReadToDelete(j, id, userID) =>
      if Passes(db.rows, id, userID) then Start(db, j, Removing(id, userID, FromRow(db.rows[id]))) else db
    case ReadToFork(j, id, userID) =>
      if id in db.rows then Start(db, j, Copying(id, userID, FromRow(db.rows[id]))) else db
    case WriteUpdate(j, now) =>
      End(db, j, AfterUpdate(db.rows, db.jobs[j].id, db.jobs[j].req, now))
    case WriteDelete(j) =>
      End(db, j, db.rows - {db.jobs[j].id})
    case WriteFork(j, newID, now) =>
      var sn := NewSnippet(CopyRequest(db.jobs[j].seen), db.jobs[j].userID, newID, now);
      End(db, j, AfterInsert(users, db.rows, sn)).(used := db.used + {newID})
    case CountRows(j, filter, page, limit) =>
      var total := |Selected(Abs(db.rows), filter)|;
      if Offset(page, limit) >= total then db else Start(db, j, Listing(filter, page, limit, total))
    case SelectRows(j, _) => End(db, j, db.rows)
  }

  /** The snippet an update returns: what it read, overwritten with what it wrote. */
  ghost function UpdateReturns(db: Db, e: Event): Snippet
    requires Enabled(db, e) && e.WriteUpdate?
  {
    Edited(db.jobs[e.j].seen, db.jobs[e.j].req, e.now)
  }

  ghost predicate Interleaving(users: set<string>, dbs: seq<Db>, es: seq<Event>) {
    && |dbs| == |es| + 1
    && Inv(dbs[0]) && dbs[0].jobs == map[]
    && forall i :: 0 <= i < |es| ==> Enabled(dbs[i], es[i]) && dbs[i + 1] == After(users, dbs[i], es[i])
  }

  /** What every statement keeps: a pending write still knows who its row belongs to. */
  ghost predicate Inv(db: Db) {
    && RowsKeyed(db.rows) && db.rows.Keys <= db.used
    && forall j :: j in db.jobs ==> Remembers(db, db.jobs[j])
  }

  ghost predicate Remembers(db: Db, job: Job) {
    if job.Listing? then Offset(job.page, job.limit) < job.total
    else
      && job.id in db.used
      && (!job.Copying? ==> MayChange(job.seen, job.userID))
      && (job.id in db.rows ==> SameIdentity(FromRow(db.rows[job.id]), job.seen))
  }

  lemma AfterKeepsInv(users: set<string>, db: Db, e: Event)
    requires Inv(db) && Enabled(db, e)
    ensures Inv(After(users, db, e))
  {
    var db' := After(users, db, e);
    forall j | j in db'.jobs ensures Remembers(db', db'.jobs[j]) {
      if j in db.jobs {
        assert Remembers(db, db.jobs[j]);
      }
    }
  }

  lemma {:induction false} RunKeepsInv(users: set<string>, dbs: seq<Db>, es: seq<Event>, i: nat)
    requires Interleaving(users, dbs, es) && i < |dbs|
    ensures Inv(dbs[i])
  {
    if i > 0 {
      RunKeepsInv(users, dbs, es, i - 1);
      assert Enabled(dbs[i - 1], es[i - 1]) && dbs[i - 1 + 1] == After(users, dbs[i - 1], es[i - 1]);
      AfterKeepsInv(users, dbs[i - 1], es[i - 1]);
    }
  }

  /** The first statement of an update or delete lets the request go on exactly if the row is
      there and belongs to nobody or to the caller. */
  lemma CheckPassesIff(users: set<string>, db: Db, e: Event)
    requires Enabled(db, e) && (e.ReadToUpdate? || e.ReadToDelete?)
    ensures e.j in After(users, db, e).jobs <==>
      e.id in db.rows && db.rows[e.id].userID in {None, Some(""), Some(e.userID)}
    ensures After(users, db, e).rows == db.rows
  {}

  /** The row an update or delete writes belongs, at that moment, to nobody or to the caller. */
  lemma WritesLandOnPermittedRows(users: set<string>, dbs: seq<Db>, es: seq<Event>, i: nat)
    requires Interleaving(users, dbs, es) && i < |es| && (es[i].WriteUpdate? || es[i].WriteDelete?)
    ensures var job := dbs[i].jobs[es[i].j];
      job.id in dbs[i].rows ==>
        dbs[i].rows[job.id].userID in {None, Some(""), Some(job.userID)}
  {
    RunKeepsInv(users, dbs, es, i);
    assert Enabled(dbs[i], es[i]) && dbs[i + 1] == After(users, dbs[i], es[i]);
    assert Remembers(dbs[i], dbs[i].jobs[es[i].j]);
  }

  /** The snippet `UpdateSnippet` returns is the row it left behind exactly when the row had not
      been deleted between its two statements. */
  lemma UpdateReturnsRowIff(users: set<string>, dbs: seq<Db>, es: seq<Event>, i: nat)
    requires Interleaving(users, dbs, es) && i < |es| && es[i].WriteUpdate?
    ensures Enabled(dbs[i], es[i])
    ensures var id := dbs[i].jobs[es[i].j].id;
      (id in dbs[i + 1].rows && FromRow(dbs[i + 1].rows[id]) == UpdateReturns(dbs[i], es[i])) <==> id in dbs[i].rows
  {
    RunKeepsInv(users, dbs, es, i);
    assert Enabled(dbs[i], es[i]) && dbs[i + 1] == After(users, dbs[i], es[i]);
    assert Remembers(dbs[i], dbs[i].jobs[es[i].j]);
  }

  // ---------- Each statement is one whole call on the interface ----------

  /** The call whose effect on the table the statement has. A read that ends its request is the
      refused call; other reads, and writes that hit no row, count as a lookup. */
  ghost function AsCall(users: set<string>, db: Db, e: Event): Call
    requires Enabled(db, e)
  {
    match e
    case Insert(req, userID, newID, now) =>
      if Inserts(users, db.rows, NewSnippet(req, userID, newID, now)) then Call(CreateSnippet(req, userID), newID, now)
      else Call(GetSnippet(newID), newID, now)
    case ReadToUpdate(_, id, req, userID) =>
      if Passes(db.rows, id, userID) then Call(GetSnippet(id), "", 0) else Call(UpdateSnippet(id, req, userID), "", 0)
    case ReadToDelete(_, id, userID) =>
      if Passes(db.rows, id, userID) then Call(GetSnippet(id), "", 0) else Call(DeleteSnippet(id, userID), "", 0)
    case ReadToFork(_, id, _) => Call(GetSnippet(id), "", 0)
    case WriteUpdate(j, now) =>
      if db.jobs[j].id in db.rows then UpdateCall(db, e) else Call(GetSnippet(db.jobs[j].id), "", now)
    case WriteDelete(j) =>
      if db.jobs[j].id in db.rows then DeleteCall(db.jobs[j]) else Call(GetSnippet(db.jobs[j].id), "", 0)
    case WriteFork(j, newID, now) =>
      var job := db.jobs[j];
      if Inserts(users, db.rows, NewSnippet(CopyRequest(job.seen), job.userID, newID, now))
      then Call(CreateSnippet(CopyRequest(job.seen), job.userID), newID, now)
      else Call(GetSnippet(newID), newID, now)
    case _ => Call(GetSnippet(""), "", 0)
  }

  ghost function UpdateCall(db: Db, e: Event): Call
    requires Enabled(db, e) && e.WriteUpdate?
  {
    Call(UpdateSnippet(db.jobs[e.j].id, db.jobs[e.j].req, db.jobs[e.j].userID), "", e.now)
  }

  function DeleteCall(job: Job): Call
    requires job.Removing?
  {
    Call(DeleteSnippet(job.id, job.userID), "", 0)
  }

  function LookupAnswer(m: Snippets, id: string): Answer {
    if id in m then SnippetAnswer(m[id], true) else SnippetAnswer(ZERO_SNIPPET, false)
  }

  /** The answer that call gives on the rows as they stand. */
  ghost function AsAnswer(users: set<string>, db: Db, e: Event): Answer
    requires Enabled(db, e)
  {
    var c := AsCall(users, db, e);
    match c.op
    case CreateSnippet(req, userID) => SnippetAnswer(NewSnippet(req, userID, c.newID, c.now), true)
    case UpdateSnippet(id, _, _) =>
      if e.WriteUpdate? then UpdateAnswer(UpdateReturns(db, e), true, true)
      else UpdateAnswer(ZERO_SNIPPET, id in db.rows, false)
    case DeleteSnippet(id, _) => if e.WriteDelete? then DeleteAnswer(true, true) else DeleteAnswer(id in db.rows, false)
    case GetSnippet(id) => LookupAnswer(Abs(db.rows), id)
  }

  lemma StatementIsCall(lower: string -> string, users: set<string>, db: Db, e: Event)
    requires Inv(db) && Enabled(db, e)
    ensures Next(lower, Abs(db.rows), AsCall(users, db, e), Abs(After(users, db, e).rows), AsAnswer(users, db, e))
  {
    match e
    case Insert(req, userID, newID, now) => InsertOnSnippets(users, db.rows, NewSnippet(req, userID, newID, now));
    case WriteUpdate(j, now) =>
      assert Remembers(db, db.jobs[j]);
      UpdateOnSnippets(db.rows, db.jobs[j].id, db.jobs[j].req, now);
    case WriteDelete(j) =>
      assert Remembers(db, db.jobs[j]);
      DeleteOnSnippets(db.rows, db.jobs[j].id);
    case WriteFork(j, newID, now) =>
      InsertOnSnippets(users, db.rows, NewSnippet(CopyRequest(db.jobs[j].seen), db.jobs[j].userID, newID, now));
    case _ =>
  }

  function Tables(dbs: seq<Db>): (ts: seq<Table>)
    ensures |ts| == |dbs| && forall i :: 0 <= i < |dbs| ==> ts[i] == dbs[i].rows
  {
    seq(|dbs|, i requires 0 <= i < |dbs| => dbs[i].rows)
  }

  /** Whatever the interleaving, the table goes through a history the interface allows, one
      statement at a time. */
  lemma InterleavingIsAtomicHistory(lower: string -> string, users: set<string>, dbs: seq<Db>, es: seq<Event>)
      returns (cs: seq<Call>, ans: seq<Answer>)
    requires Interleaving(users, dbs, es)
    ensures StoreSpec.Run(lower, AbsAll(Tables(dbs)), cs, ans)
    ensures |cs| == |ans| == |es|
    ensures forall i :: 0 <= i < |es| ==>
      Enabled(dbs[i], es[i]) && cs[i] == AsCall(users, dbs[i], es[i]) && ans[i] == AsAnswer(users, dbs[i], es[i])
  {
    cs := seq(|es|, i requires 0 <= i < |es| && Enabled(dbs[i], es[i]) => AsCall(users, dbs[i], es[i]));
    ans := seq(|es|, i requires 0 <= i < |es| && Enabled(dbs[i], es[i]) => AsAnswer(users, dbs[i], es[i]));
    var ms := AbsAll(Tables(dbs));
    RunKeepsInv(users, dbs, es, 0);
    forall i | 0 <= i < |es| ensures Next(lower, ms[i], cs[i], ms[i + 1], ans[i]) {
      RunKeepsInv(users, dbs, es, i);
      StatementIsCall(lower, users, dbs[i], es[i]);
    }
  }

  /** In every interleaving, an owned row that changed or vanished did so in the second
      statement of an update or delete its owner asked for. */
  lemma OnlyOwnersWrite(lower: string -> string, users: set<string>, dbs: seq<Db>, es: seq<Event>,
      i: nat, j: nat, id: string) returns (k: nat)
    requires Interleaving(users, dbs, es) && i <= j < |dbs|
    requires id in dbs[i].rows && FromRow(dbs[i].rows[id]).userID != ""
    requires id !in dbs[j].rows || FromRow(dbs[j].rows[id]) != FromRow(dbs[i].rows[id])
    ensures i <= k < j && (es[k].WriteUpdate? || es[k].WriteDelete?) && es[k].j in dbs[k].jobs
    ensures var job := dbs[k].jobs[es[k].j];
      (job.Editing? || job.Removing?) && job.id == id && job.userID == FromRow(dbs[i].rows[id]).userID
  {
    var cs, ans := InterleavingIsAtomicHistory(lower, users, dbs, es);
    k := OnlyOwnerChanges(lower, AbsAll(Tables(dbs)), cs, ans, i, j, id);
    assert Enabled(dbs[k], es[k]) && dbs[k + 1] == After(users, dbs[k], es[k]);
  }

  // ---------- Requests between their two statements ----------

  /** `e` is the first statement of the request `job`, which it numbers `j`. */
  ghost predicate Begins(db: Db, e: Event, j: nat, job: Job) {
    match job
    case Editing(id, req, userID, seen) =>
      e == ReadToUpdate(j, id, req, userID) && id in db.rows && seen == FromRow(db.rows[id])
    case Removing(id, userID, seen) =>
      e == ReadToDelete(j, id, userID) && id in db.rows && seen == FromRow(db.rows[id])
    case Copying(id, userID, seen) =>
      e == ReadToFork(j, id, userID) && id in db.rows && seen == FromRow(db.rows[id])
    case Listing(filter, page, limit, total) =>
      e == CountRows(j, filter, page, limit) && total == |Selected(Abs(db.rows), filter)|
  }

  ghost predicate HasJob(db: Db, j: nat, job: Job) {
    j in db.jobs && db.jobs[j] == job
  }

  /** A step leaves a request as it is, begins it, or ends it. */
  lemma JobStep(users: set<string>, db: Db, e: Event, j: nat)
    requires Enabled(db, e) && j in After(users, db, e).jobs
    ensures var job := After(users, db, e).jobs[j];
      HasJob(db, j, job) || (j !in db.jobs && Begins(db, e, j, job))
  {}

  /** Every request in progress was begun by its first statement, and has been in progress since. */
  lemma {:induction false} JobWasBegun(users: set<string>, dbs: seq<Db>, es: seq<Event>, i: nat, j: nat)
      returns (b: nat)
    requires Interleaving(users, dbs, es) && i < |dbs| && j in dbs[i].jobs
    ensures b < i && Begins(dbs[b], es[b], j, dbs[i].jobs[j])
    ensures forall k :: b < k <= i ==> HasJob(dbs[k], j, dbs[i].jobs[j])
  {
    assert i > 0;
    assert Enabled(dbs[i - 1], es[i - 1]) && dbs[i - 1 + 1] == After(users, dbs[i - 1], es[i - 1]);
    JobStep(users, dbs[i - 1], es[i - 1], j);
    if j in dbs[i - 1].jobs {
      b := JobWasBegun(users, dbs, es, i - 1, j);
    } else {
      b := i - 1;
    }
  }

  /** A row that is gone was removed by the second statement of a delete. */
  lemma {:induction false} RowWasDeleted(users: set<string>, dbs: seq<Db>, es: seq<Event>, i: nat, j: nat, id: string)
      returns (k: nat)
    requires Interleaving(users, dbs, es) && i <= j < |dbs| && id in dbs[i].rows && id !in dbs[j].rows
    ensures i <= k < j && Deletes(dbs[k], es[k], id)
    decreases j - i
  {
    assert Enabled(dbs[i], es[i]) && dbs[i + 1] == After(users, dbs[i], es[i]);
    if id in dbs[i + 1].rows {
      k := RowWasDeleted(users, dbs, es, i + 1, j, id);
    } else {
      k := i;
    }
  }

  ghost predicate Deletes(db: Db, e: Event, id: string) {
    e.WriteDelete? && Enabled(db, e) && db.jobs[e.j].id == id && id in db.rows
  }
}
