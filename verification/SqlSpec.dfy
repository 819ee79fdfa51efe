/** The SQL-backed store: statements as atomic steps on the `snippets` table, one request at
    a time, and its agreement with the interface. */
module SqlSpec {
  import opened Base
  import opened Model
  import opened Paging
  import opened StoreSpec
  import Matching

  datatype Row = Row(
    id: string, title: string, code: string, description: string,
    userID: Option<string>, createdAt: int, updatedAt: int)

  type Table = map<string, Row>

  /** Scanning a row: a NULL user becomes the empty id. */
  function FromRow(r: Row): Snippet {
    Snippet(r.id, r.title, r.code, r.description, if r.userID.Some? then r.userID.value else "",
            r.createdAt, r.updatedAt)
  }

  /** The parameters of an INSERT: the empty id becomes NULL. */
  function ToRow(sn: Snippet): (r: Row)
    ensures FromRow(r) == sn && (r.userID == None <==> sn.userID == "")
  {
    Row(sn.id, sn.title, sn.code, sn.description, if sn.userID == "" then None else Some(sn.userID),
        sn.createdAt, sn.updatedAt)
  }

  function Abs(rows: Table): Snippets {
    map k | k in rows :: FromRow(rows[k])
  }

  predicate RowsKeyed(rows: Table) {
    forall k :: k in rows ==> rows[k].id == k
  }

  predicate LikeFound(lower: string -> string, q: string, sn: Snippet) {
    Matching.Like(lower(sn.title), q) || Matching.Like(lower(sn.description), q)
  }

  /** The WHERE clause of the search statements, for an already lowered query. */
  function LikeBy(lower: string -> string, q: string): Snippet -> bool {
    (sn: Snippet) => LikeFound(lower, q, sn)
  }

  function Everything(): Snippet -> bool {
    (sn: Snippet) => true
  }

  /** COUNT, the early return, then LIMIT/OFFSET; a negative LIMIT or OFFSET is an SQL error,
      answered with an empty page. */
  function SqlPage(all: seq<Snippet>, page: GoInt, limit: GoInt): PageResult {
    var offset := Wrap64((page - 1) * limit);
    if offset >= |all| then Page([], |all|)
    else if offset < 0 || limit < 0 then Page([], |all|)
    else Page(From(all, offset, limit), |all|)
  }

  /** Both stores cut the same page out of a listing exactly when the slice does not panic. */
  lemma SqlPageAgreesIff(all: seq<Snippet>, page: GoInt, limit: GoInt)
    requires |all| <= MAX_INT
    ensures SqlPage(all, page, limit) == TakePage(all, page, limit) <==> TakePage(all, page, limit).Page?
  {
    var start := Wrap64((page - 1) * limit);
    if 0 <= start < |all| && 0 <= limit {
      var sum := Wrap64(start + limit);
      if start + limit > MAX_INT {
        assert sum < 0;
      }
    }
  }

  ghost predicate SqlAnswer(m: Snippets, page: GoInt, limit: GoInt, r: PageResult) {
    exists s :: IsNewestFirst(m, s) && r == SqlPage(s, page, limit)
  }

  /** The foreign key on `user_id`. */
  predicate KeyHolds(users: set<string>, userID: string) {
    userID == "" || userID in users
  }

  /** An INSERT fails on a duplicate id or an unknown user, and then changes nothing. */
  predicate Inserts(users: set<string>, rows: Table, sn: Snippet) {
    sn.id !in rows && KeyHolds(users, sn.userID)
  }

  function AfterInsert(users: set<string>, rows: Table, sn: Snippet): Table {
    if Inserts(users, rows, sn) then rows[sn.id := ToRow(sn)] else rows
  }

  /** `UPDATE ... WHERE id`: no row, no change. */
  function AfterUpdate(rows: Table, id: string, req: SnippetRequest, now: int): Table {
    if id !in rows then rows
    else rows[id := rows[id].(title := req.title, code := req.code, description := req.description, updatedAt := now)]
  }

  /** What a request does when no other request runs beside it. */
  ghost predicate SqlStep(lower: string -> string, users: set<string>, rows: Table, c: Call, rows': Table, a: Answer) {
    match c.op
    case ListSnippets(page, limit) =>
      rows' == rows && a.PageAnswer? && SqlAnswer(Abs(rows), page, limit, a.page)
    case SearchSnippets(query, page, limit) =>
      rows' == rows && a.PageAnswer? && SqlAnswer(Selected(Abs(rows), LikeBy(lower, lower(query))), page, limit, a.page)
    case GetSnippet(id) =>
      rows' == rows
      && a == if id in rows then SnippetAnswer(FromRow(rows[id]), true) else SnippetAnswer(ZERO_SNIPPET, false)
    case CreateSnippet(req, userID) =>
      var sn := NewSnippet(req, userID, c.newID, c.now);
      rows' == AfterInsert(users, rows, sn) && a == SnippetAnswer(sn, true)
    case UpdateSnippet(id, req, userID) =>
      if id !in rows then rows' == rows && a == UpdateAnswer(ZERO_SNIPPET, false, false)
      else if !MayChange(FromRow(rows[id]), userID) then rows' == rows && a == UpdateAnswer(ZERO_SNIPPET, true, false)
      else
        rows' == AfterUpdate(rows, id, req, c.now)
        && a == UpdateAnswer(Edited(FromRow(rows[id]), req, c.now), true, true)
    case DeleteSnippet(id, userID) =>
      if id !in rows then rows' == rows && a == DeleteAnswer(false, false)
      else if !MayChange(FromRow(rows[id]), userID) then rows' == rows && a == DeleteAnswer(true, false)
      else rows' == rows - {id} && a == DeleteAnswer(true, true)
    case ForkSnippet(id, userID) =>
      if id !in rows then rows' == rows && a == SnippetAnswer(ZERO_SNIPPET, false)
      else
        var sn := NewSnippet(CopyRequest(FromRow(rows[id])), userID, c.newID, c.now);
        rows' == AfterInsert(users, rows, sn)
        && a == if Inserts(users, rows, sn) then SnippetAnswer(sn, true) else SnippetAnswer(ZERO_SNIPPET, false)
  }

  // ---------- Agreement with the interface ----------

  /** Calls that raise no foreign-key error, whose page does not panic in memory, and whose
      query holds no LIKE metacharacter. */
  ghost predicate Ordinary(lower: string -> string, users: set<string>, m: Snippets, c: Call) {
    match c.op
    case ListSnippets(page, limit) => NoPanic(|m|, page, limit)
    case SearchSnippets(query, page, limit) =>
      !Matching.HasWildcard(lower(query)) && NoPanic(|Selected(m, FoundBy(lower, query))|, page, limit)
    case CreateSnippet(_, userID) => KeyHolds(users, userID)
    case ForkSnippet(_, userID) => KeyHolds(users, userID)
    case _ => true
  }

  /** Whether slicing a page out of `total` snippets stays in range. */
  predicate NoPanic(total: nat, page: GoInt, limit: GoInt) {
    var start := Wrap64((page - 1) * limit);
    var sum := Wrap64(start + limit);
    start >= total || 0 <= start <= sum
  }

  lemma NoPanicExactly(all: seq<Snippet>, page: GoInt, limit: GoInt)
    ensures NoPanic(|all|, page, limit) <==> TakePage(all, page, limit).Page?
  {}

  lemma SqlAnswerIsListAnswer(m: Snippets, page: GoInt, limit: GoInt, r: PageResult)
    requires SqlAnswer(m, page, limit, r) && NoPanic(|m|, page, limit) && |m| <= MAX_INT
    ensures ListAnswer(m, page, limit, r)
  {
    var s: seq<Snippet> :| IsNewestFirst(m, s) && r == SqlPage(s, page, limit);
    EnumerationSize(m, s);
    NoPanicExactly(s, page, limit);
    SqlPageAgreesIff(s, page, limit);
  }

  lemma LikeSelectsHits(lower: string -> string, m: Snippets, query: string)
    requires !Matching.HasWildcard(lower(query))
    ensures Selected(m, LikeBy(lower, lower(query))) == Selected(m, FoundBy(lower, query))
  {
    forall k | k in m ensures LikeFound(lower, lower(query), m[k]) == Found(lower, query, m[k]) {
      Matching.LikeOfPlain(lower(m[k].title), lower(query));
      Matching.LikeOfPlain(lower(m[k].description), lower(query));
    }
  }

  lemma InsertOnSnippets(users: set<string>, rows: Table, sn: Snippet)
    ensures Abs(AfterInsert(users, rows, sn)) == if Inserts(users, rows, sn) then Abs(rows)[sn.id := sn] else Abs(rows)
  {}

  lemma UpdateOnSnippets(rows: Table, id: string, req: SnippetRequest, now: int)
    ensures Abs(AfterUpdate(rows, id, req, now)) ==
      if id in rows then Abs(rows)[id := Edited(Abs(rows)[id], req, now)] else Abs(rows)
  {}

  lemma DeleteOnSnippets(rows: Table, id: string)
    ensures Abs(rows - {id}) == Abs(rows) - {id}
  {}

  /** A request served alone is one step of the interface on the rows read back as snippets. */
  lemma SqlStepRefines(lower: string -> string, users: set<string>, rows: Table, c: Call, rows': Table, a: Answer)
    requires RowsKeyed(rows) && |rows| <= MAX_INT
    requires FreshID(Abs(rows), c) && Ordinary(lower, users, Abs(rows), c)
    requires SqlStep(lower, users, rows, c, rows', a)
    ensures RowsKeyed(rows') && Next(lower, Abs(rows), c, Abs(rows'), a)
  {
    var m := Abs(rows);
    assert m.Keys == rows.Keys;
    match c.op
    case ListSnippets(page, limit) =>
      SqlAnswerIsListAnswer(m, page, limit, a.page);
    case SearchSnippets(query, page, limit) =>
      LikeSelectsHits(lower, m, query);
      SelectedSize(m, FoundBy(lower, query));
      SqlAnswerIsListAnswer(Selected(m, FoundBy(lower, query)), page, limit, a.page);
    case UpdateSnippet(id, req, userID) => UpdateOnSnippets(rows, id, req, c.now);
    case DeleteSnippet(id, userID) => DeleteOnSnippets(rows, id);
    case CreateSnippet(req, userID) => InsertOnSnippets(users, rows, NewSnippet(req, userID, c.newID, c.now));
    case ForkSnippet(id, userID) =>
      if id in rows {
        InsertOnSnippets(users, rows, NewSnippet(CopyRequest(FromRow(rows[id])), userID, c.newID, c.now));
      }
    case GetSnippet(_) =>
  }

  lemma SelectedSize(m: Snippets, keep: Snippet -> bool)
    ensures |Selected(m, keep)| <= |m|
  {
    SubsetSize(Selected(m, keep).Keys, m.Keys);
  }

  lemma {:induction false} SubsetSize<T>(a: set<T>, b: set<T>)
    requires a <= b
    ensures |a| <= |b|
  {
    if a != {} {
      var x :| x in a;
      SubsetSize(a - {x}, b - {x});
    }
  }

  /** A create or a fork by a user the table does not know is where the stores part: the create
      is answered as if it had been stored, the fork as if the original were missing. */
  lemma InsertIsStoredIff(lower: string -> string, users: set<string>, rows: Table, c: Call, rows': Table, a: Answer)
    requires RowsKeyed(rows) && FreshID(Abs(rows), c)
    requires c.op.CreateSnippet? || (c.op.ForkSnippet? && c.op.id in rows)
    requires SqlStep(lower, users, rows, c, rows', a)
    ensures Step(lower, Abs(rows), c, Abs(rows'), a) <==> c.op.userID == "" || c.op.userID in users
    ensures !Step(lower, Abs(rows), c, Abs(rows'), a) ==> rows' == rows
  {
    var req := if c.op.CreateSnippet? then c.op.req else CopyRequest(FromRow(rows[c.op.id]));
    InsertOnSnippets(users, rows, NewSnippet(req, c.op.userID, c.newID, c.now));
    assert c.newID !in Abs(rows);
  }

  /** Requests served one at a time. */
  ghost predicate SqlRun(lower: string -> string, users: set<string>, ts: seq<Table>, cs: seq<Call>, ans: seq<Answer>) {
    && |ts| == |cs| + 1 && |ans| == |cs|
    && RowsKeyed(ts[0])
    && forall i :: 0 <= i < |cs| ==> SqlNext(lower, users, ts[i], cs[i], ts[i + 1], ans[i])
  }

  ghost predicate SqlNext(lower: string -> string, users: set<string>, rows: Table, c: Call, rows': Table, a: Answer) {
    && |rows| <= MAX_INT && FreshID(Abs(rows), c) && Ordinary(lower, users, Abs(rows), c)
    && SqlStep(lower, users, rows, c, rows', a)
  }

  function AbsAll(ts: seq<Table>): (ms: seq<Snippets>)
    ensures |ms| == |ts| && forall i :: 0 <= i < |ts| ==> ms[i] == Abs(ts[i])
  {
    seq(|ts|, i requires 0 <= i < |ts| => Abs(ts[i]))
  }

  lemma {:induction false} SqlRunKeyed(lower: string -> string, users: set<string>, ts: seq<Table>, cs: seq<Call>,
      ans: seq<Answer>, i: nat)
    requires SqlRun(lower, users, ts, cs, ans) && i < |ts|
    ensures RowsKeyed(ts[i])
  {
    if i > 0 {
      SqlRunKeyed(lower, users, ts, cs, ans, i - 1);
      var j := i - 1;
      assert SqlNext(lower, users, ts[j], cs[j], ts[j + 1], ans[j]);
      SqlStepRefines(lower, users, ts[j], cs[j], ts[i], ans[j]);
    }
  }

  /** Every sequential run over the table is a run of the interface. */
  lemma SqlRunRefines(lower: string -> string, users: set<string>, ts: seq<Table>, cs: seq<Call>, ans: seq<Answer>)
    requires SqlRun(lower, users, ts, cs, ans)
    ensures Run(lower, AbsAll(ts), cs, ans)
  {
    SqlRunKeyed(lower, users, ts, cs, ans, 0);
    forall i | 0 <= i < |cs| ensures Next(lower, Abs(ts[i]), cs[i], Abs(ts[i + 1]), ans[i]) {
      SqlRunKeyed(lower, users, ts, cs, ans, i);
      assert SqlNext(lower, users, ts[i], cs[i], ts[i + 1], ans[i]);
      SqlStepRefines(lower, users, ts[i], cs[i], ts[i + 1], ans[i]);
    }
  }

  /** From the same snippets the SQL store and any other store of the interface answer every
      sequence of ordinary calls identically. */
  lemma SameAnswersAsMemory(lower: string -> string, users: set<string>, cs: seq<Call>,
      ts: seq<Table>, ans: seq<Answer>, ms: seq<Snippets>, bns: seq<Answer>)
    requires SqlRun(lower, users, ts, cs, ans) && Run(lower, ms, cs, bns)
    requires Abs(ts[0]) == ms[0]
    requires forall i :: 0 <= i < |ms| ==> DistinctStamps(ms[i])
    ensures ans == bns
  {
    SqlRunRefines(lower, users, ts, cs, ans);
    forall i | 0 <= i < |cs| ensures ans[i] == bns[i] {
      RunsAgree(lower, cs, ms, bns, AbsAll(ts), ans, i);
    }
  }
}
