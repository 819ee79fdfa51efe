/** Lists and searches on the SQL store while other requests write: the total is of the moment of
    the COUNT, the rows are of the moment of the SELECT. */
module SqlLists {
  import opened Base
  import opened Model
  import opened Paging
  import opened StoreSpec
  import opened SqlSpec
  import opened SqlInterleaving

  /** What the list `job` asks about. */
  function Matches(db: Db, job: Job): Snippets
    requires job.Listing?
  {
    Selected(Abs(db.rows), job.filter)
  }

  /** `r` is what the list could have answered, served alone at this moment. */
  ghost predicate AnswerOf(db: Db, job: Job, r: PageResult)
    requires job.Listing?
  {
    SqlAnswer(Matches(db, job), job.page, job.limit, r)
  }

  /** Step `c` is the COUNT of the list whose SELECT is step `i`. */
  ghost predicate Counts(dbs: seq<Db>, es: seq<Event>, c: nat, i: nat)
    requires |dbs| == |es| + 1 && i < |es| && es[i].SelectRows? && Enabled(dbs[i], es[i])
  {
    c < i && Begins(dbs[c], es[c], es[i].j, dbs[i].jobs[es[i].j])
  }

  lemma WindowIsPage(s: seq<Snippet>, page: GoInt, limit: GoInt)
    ensures SqlPage(s, page, limit) == Page(Window(s, page, limit), |s|)
  {}

  /** With a known listing and distinct stamps, an answer is decided by its rows and total. */
  lemma AnswerIff(m: Snippets, s: seq<Snippet>, page: GoInt, limit: GoInt, r: PageResult)
    requires Keyed(m) && DistinctStamps(m) && IsNewestFirst(m, s)
    ensures SqlAnswer(m, page, limit, r) <==> r == Page(Window(s, page, limit), |m|)
  {
    WindowIsPage(s, page, limit);
    EnumerationSize(m, s);
    if SqlAnswer(m, page, limit, r) {
      var t: seq<Snippet> :| IsNewestFirst(m, t) && r == SqlPage(t, page, limit);
      NewestFirstUnique(m, s, t);
    }
  }

  /** A list is the answer of the moment of its SELECT exactly when as many snippets match then
      as did when it counted. */
  lemma ListIsSelectMomentIff(users: set<string>, dbs: seq<Db>, es: seq<Event>, i: nat)
    requires Interleaving(users, dbs, es) && i < |es| && es[i].SelectRows?
    ensures Enabled(dbs[i], es[i])
    ensures var job := dbs[i].jobs[es[i].j];
      AnswerOf(dbs[i], job, es[i].r) <==> |Matches(dbs[i], job)| == job.total
  {
    assert Enabled(dbs[i], es[i]);
    var job := dbs[i].jobs[es[i].j];
    var m := Matches(dbs[i], job);
    var s: seq<Snippet> :| IsNewestFirst(m, s) && es[i].r == Page(Window(s, job.page, job.limit), job.total);
    EnumerationSize(m, s);
    WindowIsPage(s, job.page, job.limit);
    if AnswerOf(dbs[i], job, es[i].r) {
      var t: seq<Snippet> :| IsNewestFirst(m, t) && es[i].r == SqlPage(t, job.page, job.limit);
      EnumerationSize(m, t);
      WindowIsPage(t, job.page, job.limit);
    }
  }

  /** With distinct stamps a list is the answer of a moment `k` of the run exactly when as many
      snippets match then as at its COUNT, and the page holds the same rows as at its SELECT. */
  lemma ListIsMomentIff(users: set<string>, dbs: seq<Db>, es: seq<Event>, i: nat, k: nat,
      s: seq<Snippet>, t: seq<Snippet>) returns (c: nat)
    requires Interleaving(users, dbs, es) && i < |es| && k < |dbs| && es[i].SelectRows? && Enabled(dbs[i], es[i])
    requires var job := dbs[i].jobs[es[i].j];
      && DistinctStamps(Matches(dbs[i], job)) && IsNewestFirst(Matches(dbs[i], job), s)
      && DistinctStamps(Matches(dbs[k], job)) && IsNewestFirst(Matches(dbs[k], job), t)
    ensures Counts(dbs, es, c, i)
    ensures var job := dbs[i].jobs[es[i].j];
      AnswerOf(dbs[k], job, es[i].r) <==>
        && |Matches(dbs[k], job)| == |Matches(dbs[c], job)|
        && Window(t, job.page, job.limit) == Window(s, job.page, job.limit)
  {
    var job := dbs[i].jobs[es[i].j];
    c := JobWasBegun(users, dbs, es, i, es[i].j);
    RunKeepsInv(users, dbs, es, i);
    RunKeepsInv(users, dbs, es, k);
    var u: seq<Snippet> :| IsNewestFirst(Matches(dbs[i], job), u)
      && es[i].r == Page(Window(u, job.page, job.limit), job.total);
    NewestFirstUnique(Matches(dbs[i], job), u, s);
    AnswerIff(Matches(dbs[k], job), t, job.page, job.limit, es[i].r);
  }

  predicate Writes(e: Event) {
    e.Insert? || e.WriteUpdate? || e.WriteDelete? || e.WriteFork?
  }

  lemma {:induction false} QuietKeepsRows(users: set<string>, dbs: seq<Db>, es: seq<Event>, c: nat, k: nat)
    requires Interleaving(users, dbs, es) && c <= k < |dbs|
    requires forall l :: c <= l < k ==> !Writes(es[l])
    ensures dbs[k].rows == dbs[c].rows
    decreases k
  {
    if c < k {
      QuietKeepsRows(users, dbs, es, c, k - 1);
      assert Enabled(dbs[k - 1], es[k - 1]) && dbs[k - 1 + 1] == After(users, dbs[k - 1], es[k - 1]);
    }
  }

  /** A list during which nothing is written is the answer of every moment from COUNT to SELECT. */
  lemma QuietListIsOneMoment(users: set<string>, dbs: seq<Db>, es: seq<Event>, i: nat) returns (c: nat)
    requires Interleaving(users, dbs, es) && i < |es| && es[i].SelectRows?
    ensures Enabled(dbs[i], es[i]) && Counts(dbs, es, c, i)
    ensures (forall k :: c < k < i ==> !Writes(es[k])) ==>
      forall k :: c <= k <= i ==> AnswerOf(dbs[k], dbs[i].jobs[es[i].j], es[i].r)
  {
    assert Enabled(dbs[i], es[i]);
    c := JobWasBegun(users, dbs, es, i, es[i].j);
    if forall k :: c < k < i ==> !Writes(es[k]) {
      QuietKeepsRows(users, dbs, es, c, i);
      ListIsSelectMomentIff(users, dbs, es, i);
      forall k | c <= k <= i ensures AnswerOf(dbs[k], dbs[i].jobs[es[i].j], es[i].r) {
        QuietKeepsRows(users, dbs, es, c, k);
      }
    }
  }

  // ---------- Writes to older snippets do not tear a list ----------

  /** The snippets created at `t` or later. */
  function Since(t: int): Snippet -> bool {
    (sn: Snippet) => sn.createdAt >= t
  }

  function Before(t: int): Snippet -> bool {
    (sn: Snippet) => sn.createdAt < t
  }

  lemma {:induction false} FilterNone(s: seq<Snippet>, keep: Snippet -> bool)
    requires forall x :: x in s ==> !keep(x)
    ensures Filter(s, keep) == []
  {
    if s != [] {
      FilterNone(s[1..], keep);
    }
  }

  /** In a newest-first order they come first. */
  lemma {:induction false} SinceIsPrefix(s: seq<Snippet>, t: int)
    requires Descending(s)
    ensures Filter(s, Since(t)) <= s
  {
    if s != [] {
      SinceIsPrefix(s[1..], t);
      if !Since(t)(s[0]) {
        FilterNone(s[1..], Since(t));
      }
    }
  }

  /** An order of the newer snippets and one of the older ones make an order of all. */
  lemma NewerThenOlder(m: Snippets, t: int, a: seq<Snippet>, b: seq<Snippet>)
    requires IsNewestFirst(Selected(m, Since(t)), a) && IsNewestFirst(Selected(m, Before(t)), b)
    ensures IsNewestFirst(m, a + b)
  {
    var s := a + b;
    forall k | k in m ensures k in IdSet(s) {
      if Since(t)(m[k]) {
        var i := PositionOf(Selected(m, Since(t)), a, k);
        assert s[i].id == k;
      } else {
        var i := PositionOf(Selected(m, Before(t)), b, k);
        assert s[|a| + i].id == k;
      }
    }
  }

  lemma PrefixWindow(a: seq<Snippet>, s: seq<Snippet>, s': seq<Snippet>, page: GoInt, limit: GoInt)
    requires a <= s && a <= s' && Offset(page, limit) + limit <= |a|
    ensures Window(s, page, limit) == Window(s', page, limit)
  {
    var lo := Offset(page, limit);
    if lo >= 0 && limit > 0 {
      assert s[lo..lo + limit] == a[lo..lo + limit] == s'[lo..lo + limit];
    }
  }

  /** If the snippets of some age or newer are the same in both and reach to the end of the page,
      any order of one shows a page that some order of the other shows. */
  lemma SharedWindow(m: Snippets, m': Snippets, s': seq<Snippet>, t: int, page: GoInt, limit: GoInt)
      returns (s: seq<Snippet>)
    requires IsNewestFirst(m', s') && Keyed(m) && Selected(m, Since(t)) == Selected(m', Since(t))
    requires Offset(page, limit) + limit <= |Selected(m, Since(t))|
    ensures IsNewestFirst(m, s) && Window(s, page, limit) == Window(s', page, limit)
  {
    var a := Filter(s', Since(t));
    FilterOfListing(m', s', Since(t));
    SinceIsPrefix(s', t);
    EnumerationSize(Selected(m', Since(t)), a);
    var b := ListingExists(Selected(m, Before(t)));
    NewerThenOlder(m, t, a, b);
    s := a + b;
    PrefixWindow(a, s, s', page, limit);
  }

  /** Whatever is written between COUNT and SELECT, a list is the answer of the moment of its
      COUNT if the matching snippets down to the last on the page are then as they were. */
  lemma ListIsCountMoment(users: set<string>, dbs: seq<Db>, es: seq<Event>, i: nat, t: int) returns (c: nat)
    requires Interleaving(users, dbs, es) && i < |es| && es[i].SelectRows?
    ensures Enabled(dbs[i], es[i]) && Counts(dbs, es, c, i)
    ensures var job := dbs[i].jobs[es[i].j];
      var newer := Selected(Matches(dbs[c], job), Since(t));
      newer == Selected(Matches(dbs[i], job), Since(t)) && Offset(job.page, job.limit) + job.limit <= |newer| ==>
        AnswerOf(dbs[c], job, es[i].r)
  {
    assert Enabled(dbs[i], es[i]);
    var job := dbs[i].jobs[es[i].j];
    c := JobWasBegun(users, dbs, es, i, es[i].j);
    RunKeepsInv(users, dbs, es, c);
    var m, m' := Matches(dbs[c], job), Matches(dbs[i], job);
    if Selected(m, Since(t)) == Selected(m', Since(t))
       && Offset(job.page, job.limit) + job.limit <= |Selected(m, Since(t))|
    {
      var s': seq<Snippet> :| IsNewestFirst(m', s') && es[i].r == Page(Window(s', job.page, job.limit), job.total);
      var s := SharedWindow(m, m', s', t, job.page, job.limit);
      EnumerationSize(m, s);
      WindowIsPage(s, job.page, job.limit);
    }
  }

  // ---------- Two runs ----------

  lemma EverythingMatches(rows: Table)
    ensures Selected(Abs(rows), Everything()) == Abs(rows)
  {}

  /** A newest snippet is first in every order. */
  lemma NewestIsFirst(m: Snippets, s: seq<Snippet>, id: string)
    requires IsNewestFirst(m, s) && id in m
    requires forall k :: k in m && k != id ==> m[k].createdAt < m[id].createdAt
    ensures |s| > 0 && s[0] == m[id]
  {
    var i := PositionOf(m, s, id);
    assert s[0].createdAt >= s[i].createdAt;
  }

  /** An answer counts every match and shows only matches. */
  lemma AnswerShowsMatches(m: Snippets, page: GoInt, limit: GoInt, r: PageResult)
    requires SqlAnswer(m, page, limit, r)
    ensures r.Page? && r.total == |m| && forall sn :: sn in r.items ==> sn.id in m
  {
    var t: seq<Snippet> :| IsNewestFirst(m, t) && r == SqlPage(t, page, limit);
    EnumerationSize(m, t);
  }

  /** Page 1 with a snippet on it that the COUNT missed is the answer of neither moment. */
  lemma NoMoment(m: Snippets, m': Snippets, s: seq<Snippet>, newID: string, limit: GoInt)
    requires newID !in m && newID in m' && m == m' - {newID} && limit >= 1
    requires |s| > 0 && s[0].id == newID
    ensures !SqlAnswer(m, 1, limit, Page(Window(s, 1, limit), |m|))
    ensures !SqlAnswer(m', 1, limit, Page(Window(s, 1, limit), |m|))
  {
    var r := Page(Window(s, 1, limit), |m|);
    assert r.items[0] == s[0] && s[0] in r.items;
    assert m'.Keys == m.Keys + {newID};
    if SqlAnswer(m, 1, limit, r) {
      AnswerShowsMatches(m, 1, limit, r);
    }
    if SqlAnswer(m', 1, limit, r) {
      AnswerShowsMatches(m', 1, limit, r);
    }
  }

  /** A list of everything that starts counting on `rows`. */
  lemma CountMoves(users: set<string>, rows: Table, used: set<string>, limit: GoInt)
    requires rows != map[]
    ensures Enabled(Db(rows, used, map[]), CountRows(0, Everything(), 1, limit))
    ensures After(users, Db(rows, used, map[]), CountRows(0, Everything(), 1, limit))
      == Db(rows, used, map[0 := Listing(Everything(), 1, limit, |rows|)])
  {
    EverythingMatches(rows);
    assert Abs(rows).Keys == rows.Keys;
    assert Offset(1, limit) == 0;
  }

  /** Its SELECT may answer with the first page of any order of the rows as they then are. */
  lemma SelectMoves(users: set<string>, rows: Table, used: set<string>, limit: GoInt, total: nat, s: seq<Snippet>)
    requires IsNewestFirst(Abs(rows), s)
    ensures var db := Db(rows, used, map[0 := Listing(Everything(), 1, limit, total)]);
      var e := SelectRows(0, Page(Window(s, 1, limit), total));
      Enabled(db, e) && After(users, db, e) == Db(rows, used, map[])
  {
    EverythingMatches(rows);
    var job := Listing(Everything(), 1, limit, total);
    assert map[0 := job] - {0} == map[];
  }

  /** On any table that is not empty, a snippet inserted between COUNT and SELECT makes the first
      page, of any size, an answer of no moment. */
  lemma InsertTearsList(users: set<string>, rows: Table, req: SnippetRequest, newID: string, now: int, limit: GoInt)
      returns (dbs: seq<Db>, es: seq<Event>)
    requires RowsKeyed(rows) && rows != map[] && newID !in rows && limit >= 1
    requires forall k :: k in rows ==> rows[k].createdAt < now
    ensures Interleaving(users, dbs, es) && |es| == 3 && dbs[0].rows == rows
    ensures es[0] == CountRows(0, Everything(), 1, limit) && es[1] == Insert(req, "", newID, now) && es[2].SelectRows?
    ensures forall k :: 0 <= k <= 3 ==> !SqlAnswer(Selected(Abs(dbs[k].rows), Everything()), 1, limit, es[2].r)
  {
    var s := InsertedPage(rows, req, newID, now, limit);
    dbs, es := InsertingRun(users, rows, req, newID, now, limit, s);
    forall k | 0 <= k <= 3 ensures !SqlAnswer(Selected(Abs(dbs[k].rows), Everything()), 1, limit, es[2].r) {
      assert dbs[k].rows == rows || dbs[k].rows == rows[newID := ToRow(NewSnippet(req, "", newID, now))];
    }
  }

  lemma InsertedPage(rows: Table, req: SnippetRequest, newID: string, now: int, limit: GoInt) returns (s: seq<Snippet>)
    requires RowsKeyed(rows) && newID !in rows && limit >= 1
    requires forall k :: k in rows ==> rows[k].createdAt < now
    ensures var rows' := rows[newID := ToRow(NewSnippet(req, "", newID, now))];
      && IsNewestFirst(Abs(rows'), s)
      && !SqlAnswer(Selected(Abs(rows), Everything()), 1, limit, Page(Window(s, 1, limit), |rows|))
      && !SqlAnswer(Selected(Abs(rows'), Everything()), 1, limit, Page(Window(s, 1, limit), |rows|))
  {
    var sn := NewSnippet(req, "", newID, now);
    var rows' := rows[newID := ToRow(sn)];
    var m, m' := Abs(rows), Abs(rows');
    assert m' == m[newID := sn] && m == m' - {newID};
    assert m.Keys == rows.Keys;
    s := ListingExists(m');
    NewestIsFirst(m', s, newID);
    NoMoment(m, m', s, newID, limit);
    EverythingMatches(rows);
    EverythingMatches(rows');
  }

  lemma InsertMoves(users: set<string>, db: Db, req: SnippetRequest, newID: string, now: int)
    requires newID !in db.used && newID !in db.rows
    ensures var sn := NewSnippet(req, "", newID, now);
      var e := Insert(req, "", newID, now);
      && Enabled(db, e)
      && After(users, db, e) == Db(db.rows[newID := ToRow(sn)], db.used + {newID}, db.jobs)
  {}

  lemma InsertingRun(users: set<string>, rows: Table, req: SnippetRequest, newID: string, now: int, limit: GoInt,
      s: seq<Snippet>) returns (dbs: seq<Db>, es: seq<Event>)
    requires RowsKeyed(rows) && rows != map[] && newID !in rows
    requires IsNewestFirst(Abs(rows[newID := ToRow(NewSnippet(req, "", newID, now))]), s)
    ensures Interleaving(users, dbs, es) && |es| == 3
    ensures es == [CountRows(0, Everything(), 1, limit), Insert(req, "", newID, now),
                   SelectRows(0, Page(Window(s, 1, limit), |rows|))]
    ensures dbs[0].rows == dbs[1].rows == rows
    ensures dbs[2].rows == dbs[3].rows == rows[newID := ToRow(NewSnippet(req, "", newID, now))]
  {
    var rows', used' := rows[newID := ToRow(NewSnippet(req, "", newID, now))], rows.Keys + {newID};
    var job, page := Listing(Everything(), 1, limit, |rows|), Page(Window(s, 1, limit), |rows|);
    var db0, db1 := Db(rows, rows.Keys, map[]), Db(rows, rows.Keys, map[0 := job]);
    var db2, db3 := Db(rows', used', map[0 := job]), Db(rows', used', map[]);
    CountMoves(users, rows, rows.Keys, limit);
    InsertMoves(users, db1, req, newID, now);
    SelectMoves(users, rows', used', limit, |rows|, s);
    es := [CountRows(0, Everything(), 1, limit), Insert(req, "", newID, now), SelectRows(0, page)];
    dbs := [db0, db1, db2, db3];
    forall i | 0 <= i < 3 ensures Enabled(dbs[i], es[i]) && dbs[i + 1] == After(users, dbs[i], es[i]) {
      assert i == 0 || i == 1 || i == 2;
    }
  }

  /** Unequal totals alone do not tear a list: with the older of two snippets deleted in between,
      the first page of one is still the answer of the moment of the COUNT. */
  lemma UnequalTotalsMayAgree(users: set<string>, newer: Row, older: Row) returns (dbs: seq<Db>, es: seq<Event>)
    requires newer.id != older.id && newer.createdAt > older.createdAt
    ensures Interleaving(users, dbs, es) && |es| == 4
    ensures dbs[0].rows == map[newer.id := newer, older.id := older]
    ensures es[0] == CountRows(0, Everything(), 1, 1) && es[2] == WriteDelete(1)
    ensures es[3] == SelectRows(0, Page([FromRow(newer)], 2)) && dbs[3].rows == map[newer.id := newer]
    ensures SqlAnswer(Selected(Abs(dbs[0].rows), Everything()), 1, 1, es[3].r)
    ensures !SqlAnswer(Selected(Abs(dbs[3].rows), Everything()), 1, 1, es[3].r)
  {
    var rows, left := map[newer.id := newer, older.id := older], map[newer.id := newer];
    var s := [FromRow(newer)];
    TwoRows(newer, older);
    OneRow(newer);
    assert left == rows - {older.id};
    dbs, es := DeletingRun(users, rows, left, older, s);
  }

  lemma TwoRows(newer: Row, older: Row)
    requires newer.id != older.id && newer.createdAt > older.createdAt
    ensures SqlAnswer(Selected(Abs(map[newer.id := newer, older.id := older]), Everything()), 1, 1,
                      Page([FromRow(newer)], 2))
    ensures |map[newer.id := newer, older.id := older]| == 2
  {
    var rows, t := map[newer.id := newer, older.id := older], [FromRow(newer), FromRow(older)];
    EverythingMatches(rows);
    assert t[0].id == newer.id && t[1].id == older.id;
    assert IsNewestFirst(Abs(rows), t);
    WindowIsPage(t, 1, 1);
    assert Window(t, 1, 1) == [FromRow(newer)];
    assert rows.Keys == {newer.id, older.id};
  }

  lemma OneRow(row: Row)
    ensures IsNewestFirst(Abs(map[row.id := row]), [FromRow(row)])
    ensures Window([FromRow(row)], 1, 1) == [FromRow(row)]
    ensures !SqlAnswer(Selected(Abs(map[row.id := row]), Everything()), 1, 1, Page([FromRow(row)], 2))
  {
    var m, s := Abs(map[row.id := row]), [FromRow(row)];
    EverythingMatches(map[row.id := row]);
    assert s[0].id == row.id;
    assert IsNewestFirst(m, s);
    EnumerationSize(m, s);
    if SqlAnswer(m, 1, 1, Page(s, 2)) {
      AnswerShowsMatches(m, 1, 1, Page(s, 2));
    }
  }

  lemma DeletingRun(users: set<string>, rows: Table, left: Table, older: Row, s: seq<Snippet>)
      returns (dbs: seq<Db>, es: seq<Event>)
    requires RowsKeyed(rows) && older.id in rows && rows[older.id] == older && left == rows - {older.id}
    requires IsNewestFirst(Abs(left), s)
    ensures Interleaving(users, dbs, es) && |es| == 4
    ensures es[0] == CountRows(0, Everything(), 1, 1) && es[2] == WriteDelete(1)
    ensures es[3] == SelectRows(0, Page(Window(s, 1, 1), |rows|))
    ensures dbs[0].rows == rows && dbs[3].rows == left
  {
    var user := FromRow(older).userID;
    var listing, removing := Listing(Everything(), 1, 1, |rows|), Removing(older.id, user, FromRow(older));
    var page := Page(Window(s, 1, 1), |rows|);
    var db1, db2 := Db(rows, rows.Keys, map[0 := listing]), Db(rows, rows.Keys, map[0 := listing, 1 := removing]);
    var db3 := Db(left, rows.Keys, map[0 := listing]);
    CountMoves(users, rows, rows.Keys, 1);
    SelectMoves(users, left, rows.Keys, 1, |rows|, s);
    DeleteMoves(users, db1, older);
    es := [CountRows(0, Everything(), 1, 1), ReadToDelete(1, older.id, user), WriteDelete(1), SelectRows(0, page)];
    dbs := [Db(rows, rows.Keys, map[]), db1, db2, db3, Db(left, rows.Keys, map[])];
    forall i | 0 <= i < 4 ensures Enabled(dbs[i], es[i]) && dbs[i + 1] == After(users, dbs[i], es[i]) {
      assert i == 0 || i == 1 || i == 2 || i == 3;
    }
  }

  /** The two statements of a delete by a permitted caller, one right after the other. */
  lemma DeleteMoves(users: set<string>, db: Db, row: Row)
    requires 1 !in db.jobs && row.id in db.rows && db.rows[row.id] == row
    ensures var read, user := FromRow(row), FromRow(row).userID;
      var reading := db.(jobs := db.jobs[1 := Removing(row.id, user, read)]);
      && Enabled(db, ReadToDelete(1, row.id, user))
      && After(users, db, ReadToDelete(1, row.id, user)) == reading
      && Enabled(reading, WriteDelete(1))
      && After(users, reading, WriteDelete(1)) == db.(rows := db.rows - {row.id})
  {
    var user := FromRow(row).userID;
    assert db.jobs[1 := Removing(row.id, user, FromRow(row))] - {1} == db.jobs;
  }
}
