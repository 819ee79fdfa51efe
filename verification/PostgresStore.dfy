/** `PostgresStore` in its own form: each method issues statements against a database object. */
module PostgresStores {
  import opened Base
  import opened Model
  import opened Paging
  import opened StoreSpec
  import opened SqlSpec
  import Shares

  /** The database server: every method is one statement. */
  class Database {
    var snippets: Table
    var users: set<string>
    var shared: map<string, SharedCode>

    method Count(filter: Snippet -> bool) returns (n: nat)
      ensures n == |Selected(Abs(snippets), filter)|
    {
      n := |Selected(Abs(snippets), filter)|;
    }

    /** `... WHERE filter ORDER BY created_at DESC LIMIT limit OFFSET offset`; None is an SQL error. */
    method SelectPage(filter: Snippet -> bool, limit: GoInt, offset: GoInt) returns (rs: Option<seq<Row>>)
      requires RowsKeyed(snippets)
      ensures rs.None? <==> limit < 0 || offset < 0
      ensures rs.Some? ==>
        exists s :: IsNewestFirst(Selected(Abs(snippets), filter), s) && Scanned(rs.value) == From(s, offset, limit)
    {
      if limit < 0 || offset < 0 {
        return None;
      }
      var s := Ordered(Selected(Abs(snippets), filter));
      var page := From(s, offset, limit);
      rs := Some(seq(|page|, i requires 0 <= i < |page| => ToRow(page[i])));
      assert Scanned(rs.value) == page;
    }

    /** ORDER BY created_at DESC, ties in any order. */
    static method Ordered(m: Snippets) returns (s: seq<Snippet>)
      requires Keyed(m)
      ensures IsNewestFirst(m, s)
    {
      var all: seq<Snippet> := [];
      var left := m.Keys;
      while left != {}
        invariant left <= m.Keys && Enumerates(m - left, all)
      {
        var id :| id in left;
        EnumerateOneMore(m - left, all, id, m[id]);
        assert m - (left - {id}) == (m - left)[id := m[id]];
        all := all + [m[id]];
        left := left - {id};
      }
      assert m - {} == m;
      s := SortNewest(all);
      SortNewestSorts(all);
      EnumerationPermutes(m, all, s);
    }

    method SelectByID(id: string) returns (r: Option<Row>)
      ensures r == if id in snippets then Some(snippets[id]) else None
    {
      r := if id in snippets then Some(snippets[id]) else None;
    }

    /** Fails on a duplicate id or an unknown user. */
    method Insert(row: Row) returns (ok: bool)
      modifies `snippets
      ensures ok == (row.id !in old(snippets) && (row.userID.Some? ==> row.userID.value in users))
      ensures snippets == if ok then old(snippets)[row.id := row] else old(snippets)
    {
      ok := row.id !in snippets && (row.userID.Some? ==> row.userID.value in users);
      if ok {
        snippets := snippets[row.id := row];
      }
    }

    method UpdateByID(title: string, code: string, description: string, updatedAt: int, id: string)
      modifies `snippets
      ensures snippets == AfterUpdate(old(snippets), id, SnippetRequest(title, code, description), updatedAt)
    {
      if id in snippets {
        var row := snippets[id];
        snippets := snippets[id := Row(row.id, title, code, description, row.userID, row.createdAt, updatedAt)];
      }
    }

    method DeleteByID(id: string)
      modifies `snippets
      ensures snippets == old(snippets) - {id}
    {
      snippets := snippets - {id};
    }

    /** A duplicate token is an error and inserts nothing. */
    method InsertShare(s: SharedCode)
      modifies `shared
      ensures shared == if s.token in old(shared) then old(shared) else old(shared)[s.token := s]
    {
      if s.token !in shared {
        shared := shared[s.token := s];
      }
    }

    /** `DELETE FROM shared_codes WHERE expires_at > 0 AND expires_at < unix`. */
    method DeleteExpiredShares(unix: int)
      modifies `shared
      ensures shared == map t | t in old(shared)
        && !(old(shared)[t].expiresAt > 0 && old(shared)[t].expiresAt < unix) :: old(shared)[t]
    {
      shared := map t | t in shared && !(shared[t].expiresAt > 0 && shared[t].expiresAt < unix) :: shared[t];
    }
  }

  function Scanned(rs: seq<Row>): (r: seq<Snippet>)
    ensures |r| == |rs| && forall i :: 0 <= i < |rs| ==> r[i] == FromRow(rs[i])
  {
    seq(|rs|, i requires 0 <= i < |rs| => FromRow(rs[i]))
  }

  /** Requests of this class run alone here; the interleaved model is in `SqlInterleaving`. */
  class PostgresStore {
    const db: Database
    const lower: string -> string

    constructor (db: Database, lower: string -> string)
      ensures this.db == db && this.lower == lower
    {
      this.db := db;
      this.lower := lower;
    }

    ghost predicate Does(before: Table, c: Call, a: Answer)
      reads db
    {
      SqlStep(lower, db.users, before, c, db.snippets, a)
    }

    method ListSnippets(page: GoInt, limit: GoInt) returns (r: PageResult)
      requires RowsKeyed(db.snippets)
      ensures SqlAnswer(Abs(db.snippets), page, limit, r)
    {
      SelectEverything(Abs(db.snippets));
      r := Paged(Everything(), page, limit);
    }

    method SearchSnippets(query: string, page: GoInt, limit: GoInt) returns (r: PageResult)
      requires RowsKeyed(db.snippets)
      ensures SqlAnswer(Selected(Abs(db.snippets), LikeBy(lower, lower(query))), page, limit, r)
    {
      var q := lower(query);
      r := Paged(LikeBy(lower, q), page, limit);
    }

    /** The body `ListSnippets` and `SearchSnippets` share: count, early return, page of rows. */
    method Paged(filter: Snippet -> bool, page: GoInt, limit: GoInt) returns (r: PageResult)
      requires RowsKeyed(db.snippets)
      ensures SqlAnswer(Selected(Abs(db.snippets), filter), page, limit, r)
    {
      ghost var m := Selected(Abs(db.snippets), filter);
      var total := db.Count(filter);
      var offset := Wrap64((page - 1) * limit);
      if offset >= total {
        NothingShown(m, page, limit);
        return Page([], total);
      }
      var rows := db.SelectPage(filter, limit, offset);
      if rows.None? {
        NothingShown(m, page, limit);
        return Page([], total);
      }
      ghost var s: seq<Snippet> :| IsNewestFirst(m, s) && Scanned(rows.value) == From(s, offset, limit);
      EnumerationSize(m, s);
      var snippets := ScanRows(rows.value);
      r := Page(snippets, total);
      assert r == SqlPage(s, page, limit);
    }

    /** The row loop. */
    static method ScanRows(rows: seq<Row>) returns (snippets: seq<Snippet>)
      ensures snippets == Scanned(rows)
    {
      snippets := [];
      for i := 0 to |rows|
        invariant snippets == Scanned(rows)[..i]
      {
        var row := rows[i];
        var sn := Snippet(row.id, row.title, row.code, row.description, "", row.createdAt, row.updatedAt);
        if row.userID.Some? {
          sn := sn.(userID := row.userID.value);
        }
        snippets := snippets + [sn];
      }
    }

    method GetSnippet(id: string) returns (sn: Snippet, ok: bool)
      ensures ok == (id in db.snippets) && sn == if ok then FromRow(db.snippets[id]) else ZERO_SNIPPET
    {
      var row := db.SelectByID(id);
      if row.None? {
        return ZERO_SNIPPET, false;
      }
      sn := FromRow(row.value);
      ok := true;
    }

    method CreateSnippet(req: SnippetRequest, userID: string, newID: string, now: int) returns (sn: Snippet)
      modifies db`snippets
      ensures Does(old(db.snippets), Call(Op.CreateSnippet(req, userID), newID, now), SnippetAnswer(sn, true))
    {
      sn := Snippet(newID, req.title, req.code, req.description, userID, now, now);
      var uid := if userID != "" then Some(userID) else None;
      var _ := db.Insert(Row(sn.id, sn.title, sn.code, sn.description, uid, sn.createdAt, sn.updatedAt));
    }

    method UpdateSnippet(id: string, req: SnippetRequest, userID: string, now: int)
        returns (sn: Snippet, found: bool, owned: bool)
      modifies db`snippets
      ensures forall newID :: Does(old(db.snippets), Call(Op.UpdateSnippet(id, req, userID), newID, now),
                                   UpdateAnswer(sn, found, owned))
      ensures found <==> id in old(db.snippets)
      ensures owned <==> id in old(db.snippets) && old(db.snippets)[id].userID in {None, Some(""), Some(userID)}
    {
      var present: bool;
      sn, present := GetSnippet(id);
      if !present {
        return ZERO_SNIPPET, false, false;
      }
      if sn.userID != "" && sn.userID != userID {
        return ZERO_SNIPPET, true, false;
      }
      db.UpdateByID(req.title, req.code, req.description, now, id);
      sn := sn.(title := req.title, code := req.code, description := req.description, updatedAt := now);
      found, owned := true, true;
    }

    method DeleteSnippet(id: string, userID: string) returns (found: bool, owned: bool)
      modifies db`snippets
      ensures forall newID, now :: Does(old(db.snippets), Call(Op.DeleteSnippet(id, userID), newID, now),
                                        DeleteAnswer(found, owned))
      ensures found <==> id in old(db.snippets)
      ensures owned <==> id in old(db.snippets) && old(db.snippets)[id].userID in {None, Some(""), Some(userID)}
    {
      var sn, present := GetSnippet(id);
      if !present {
        return false, false;
      }
      if sn.userID != "" && sn.userID != userID {
        return true, false;
      }
      db.DeleteByID(id);
      found, owned := true, true;
    }

    method ForkSnippet(id: string, userID: string, newID: string, now: int) returns (forked: Snippet, ok: bool)
      modifies db`snippets
      ensures Does(old(db.snippets), Call(Op.ForkSnippet(id, userID), newID, now), SnippetAnswer(forked, ok))
    {
      var original, present := GetSnippet(id);
      if !present {
        return ZERO_SNIPPET, false;
      }
      forked := Snippet(newID, original.title + COPY_SUFFIX, original.code, original.description, userID, now, now);
      var uid := if userID != "" then Some(userID) else None;
      ok := db.Insert(Row(forked.id, forked.title, forked.code, forked.description, uid,
                          forked.createdAt, forked.updatedAt));
      if !ok {
        return ZERO_SNIPPET, false;
      }
    }

    method CreateShare(req: ShareRequest, token: string, stamp: string, now: int) returns (shared: SharedCode)
      modifies db`shared
      ensures shared == Shares.NewShare(req, token, stamp, now) && Shares.MadeFor(shared, req, token, stamp, now)
      ensures token !in old(db.shared) ==> db.shared == old(db.shared)[token := shared]
      ensures token in old(db.shared) ==> db.shared == old(db.shared)
    {
      shared := SharedCode(token, req.code, req.title, stamp, Shares.Unix(now + Shares.SHARE_TTL));
      db.InsertShare(shared);
    }

    method GetShare(token: string, now: int) returns (shared: SharedCode, ok: bool)
      ensures ok == Shares.Open(db.shared, token, now).Some?
      ensures shared == if ok then Shares.Open(db.shared, token, now).value else ZERO_SHARE
    {
      if token !in db.shared {
        return ZERO_SHARE, false;
      }
      shared := db.shared[token];
      if shared.expiresAt > 0 && Shares.Unix(now) > shared.expiresAt {
        return ZERO_SHARE, false;
      }
      ok := true;
    }

    /** One tick of the collector: the same map the in-memory loop leaves. */
    method CleanupExpiredShares(now: int)
      modifies db`shared
      ensures db.shared == Shares.Collected(old(db.shared), now)
    {
      db.DeleteExpiredShares(Shares.Unix(now));
    }
  }

  lemma SelectEverything(m: Snippets)
    ensures Selected(m, Everything()) == m
  {}

  lemma NothingShown(m: Snippets, page: GoInt, limit: GoInt)
    requires Keyed(m)
    requires var offset := Wrap64((page - 1) * limit); offset >= |m| || offset < 0 || limit < 0
    ensures SqlAnswer(m, page, limit, Page([], |m|))
  {
    var s := ListingExists(m);
    EnumerationSize(m, s);
    assert SqlPage(s, page, limit) == Page([], |m|);
  }
}
