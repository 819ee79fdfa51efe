/** The map-backed store. Every method holds the lock for its whole body, so each is one step;
    uuids, clock readings and bcrypt results are parameters. */
module InMemoryStores {
  import opened Base
  import opened Model
  import opened Paging
  import opened StoreSpec
  import Matching
  import Shares
  import Users

  /** A newest-first sort; like `sort.Slice`, it promises nothing about ties. */
  method SortSlice(s: seq<Snippet>) returns (r: seq<Snippet>)
    ensures Descending(r) && multiset(r) == multiset(s)
  {
    r := SortNewest(s);
    SortNewestSorts(s);
  }

  class InMemoryStore {
    const lower: string -> string
    const verify: (string, string) -> bool
    var snippets: map<string, Snippet>
    var shares: map<string, SharedCode>
    var users: map<string, User>
    var userByName: map<string, string>

    ghost predicate Valid()
      reads this
    {
      Keyed(snippets) && Users.Bijective(Accounts())
    }

    function Accounts(): Users.Accounts
      reads this
    {
      Users.Accounts(users, userByName)
    }

    /** `examples` are the seed snippets with the ids and times drawn for them. */
    constructor (lower: string -> string, verify: (string, string) -> bool, examples: seq<Snippet>)
      ensures Valid() && this.lower == lower && this.verify == verify
      ensures shares == map[] && Accounts() == Users.Accounts(map[], map[])
      ensures DistinctIds(examples) ==> Enumerates(snippets, examples)
    {
      this.lower := lower;
      this.verify := verify;
      var seeded: map<string, Snippet> := map[];
      for i := 0 to |examples|
        invariant Keyed(seeded)
        invariant DistinctIds(examples) ==> Enumerates(seeded, examples[..i])
      {
        var sn := examples[i];
        if DistinctIds(examples) {
          assert examples[..i + 1] == examples[..i] + [sn];
          assert sn.id !in IdSet(examples[..i]);
          EnumerateOneMore(seeded, examples[..i], sn.id, sn);
        }
        seeded := seeded[sn.id := sn];
      }
      assert examples[..|examples|] == examples;
      snippets := seeded;
      shares := map[];
      users := map[];
      userByName := map[];
    }

    method ListSnippets(page: GoInt, limit: GoInt) returns (r: PageResult)
      requires Valid()
      ensures ListAnswer(snippets, page, limit, r)
    {
      var all: seq<Snippet> := [];
      var left := snippets.Keys;
      while left != {}
        invariant left <= snippets.Keys
        invariant Enumerates(snippets - left, all)
      {
        var id :| id in left;
        EnumerateOneMore(snippets - left, all, id, snippets[id]);
        assert snippets - (left - {id}) == (snippets - left)[id := snippets[id]];
        all := all + [snippets[id]];
        left := left - {id};
      }
      assert snippets - {} == snippets;
      var sorted := SortSlice(all);
      EnumerationPermutes(snippets, all, sorted);
      r := TakePage(sorted, page, limit);
    }

    method SearchSnippets(query: string, page: GoInt, limit: GoInt) returns (r: PageResult)
      requires Valid()
      ensures ListAnswer(Selected(snippets, FoundBy(lower, query)), page, limit, r)
    {
      var q := lower(query);
      ghost var hits := Selected(snippets, FoundBy(lower, query));
      var matched: seq<Snippet> := [];
      var left := snippets.Keys;
      while left != {}
        invariant left <= snippets.Keys
        invariant Enumerates(hits - left, matched)
      {
        var id :| id in left;
        var sn := snippets[id];
        if Matching.Contains(lower(sn.title), q) || Matching.Contains(lower(sn.description), q) {
          EnumerateOneMore(hits - left, matched, id, sn);
          assert hits - (left - {id}) == (hits - left)[id := sn];
          matched := matched + [sn];
        } else {
          assert hits - (left - {id}) == hits - left;
        }
        left := left - {id};
      }
      assert hits - {} == hits;
      var sorted := SortSlice(matched);
      EnumerationPermutes(hits, matched, sorted);
      r := TakePage(sorted, page, limit);
    }

    method GetSnippet(id: string) returns (sn: Snippet, ok: bool)
      ensures ok == (id in snippets) && sn == if ok then snippets[id] else ZERO_SNIPPET
    {
      ok := id in snippets;
      sn := if ok then snippets[id] else ZERO_SNIPPET;
    }

    method CreateSnippet(req: SnippetRequest, userID: string, newID: string, now: int) returns (sn: Snippet)
      requires Valid()
      modifies `snippets
      ensures Valid()
      ensures Step(lower, old(snippets), Call(Op.CreateSnippet(req, userID), newID, now), snippets,
                   SnippetAnswer(sn, true))
    {
      sn := Snippet(newID, req.title, req.code, req.description, userID, now, now);
      snippets := snippets[sn.id := sn];
    }

    method UpdateSnippet(id: string, req: SnippetRequest, userID: string, now: int)
        returns (sn: Snippet, found: bool, owned: bool)
      requires Valid()
      modifies `snippets
      ensures Valid()
      ensures forall newID :: Step(lower, old(snippets), Call(Op.UpdateSnippet(id, req, userID), newID, now), snippets,
                                   UpdateAnswer(sn, found, owned))
      ensures found <==> id in old(snippets)
      ensures owned <==> id in old(snippets) && old(snippets)[id].userID in {"", userID}
    {
      if id !in snippets {
        return ZERO_SNIPPET, false, false;
      }
      sn := snippets[id];
      if sn.userID != "" && sn.userID != userID {
        return ZERO_SNIPPET, true, false;
      }
      sn := sn.(title := req.title);
      sn := sn.(code := req.code);
      sn := sn.(description := req.description);
      sn := sn.(updatedAt := now);
      snippets := snippets[id := sn];
      found, owned := true, true;
    }

    method DeleteSnippet(id: string, userID: string) returns (found: bool, owned: bool)
      requires Valid()
      modifies `snippets
      ensures Valid()
      ensures forall newID, now :: Step(lower, old(snippets), Call(Op.DeleteSnippet(id, userID), newID, now), snippets,
                                        DeleteAnswer(found, owned))
      ensures found <==> id in old(snippets)
      ensures owned <==> id in old(snippets) && old(snippets)[id].userID in {"", userID}
    {
      if id !in snippets {
        return false, false;
      }
      var sn := snippets[id];
      if sn.userID != "" && sn.userID != userID {
        return true, false;
      }
      snippets := snippets - {id};
      found, owned := true, true;
    }

    method ForkSnippet(id: string, userID: string, newID: string, now: int) returns (forked: Snippet, ok: bool)
      requires Valid()
      modifies `snippets
      ensures Valid()
      ensures Step(lower, old(snippets), Call(Op.ForkSnippet(id, userID), newID, now), snippets,
                   SnippetAnswer(forked, ok))
    {
      if id !in snippets {
        return ZERO_SNIPPET, false;
      }
      var original := snippets[id];
      forked := Snippet(newID, original.title + COPY_SUFFIX, original.code, original.description, userID, now, now);
      snippets := snippets[forked.id := forked];
      ok := true;
    }

    // ---------- Shares ----------

    method CreateShare(req: ShareRequest, token: string, stamp: string, now: int) returns (shared: SharedCode)
      modifies `shares
      ensures shared == Shares.NewShare(req, token, stamp, now) && Shares.MadeFor(shared, req, token, stamp, now)
      ensures shares == old(shares)[token := shared]
    {
      shared := SharedCode(token, req.code, req.title, stamp, Shares.Unix(now + Shares.SHARE_TTL));
      shares := shares[token := shared];
    }

    method GetShare(token: string, now: int) returns (shared: SharedCode, ok: bool)
      ensures ok == Shares.Open(shares, token, now).Some?
      ensures ok ==> shared == Shares.Open(shares, token, now).value
      ensures !ok ==> shared == ZERO_SHARE
    {
      if token !in shares {
        return ZERO_SHARE, false;
      }
      shared := shares[token];
      if shared.expiresAt > 0 && Shares.Unix(now) > shared.expiresAt {
        return ZERO_SHARE, false;
      }
      ok := true;
    }

    /** One tick of the collector. */
    method CleanupExpiredShares(now: int) returns (removed: nat)
      modifies `shares
      ensures shares == Shares.Collected(old(shares), now)
      ensures removed == |old(shares)| - |shares|
    {
      var unix := Shares.Unix(now);
      ghost var before := shares;
      removed := 0;
      var left := shares.Keys;
      while left != {}
        invariant left <= shares.Keys <= before.Keys
        invariant forall t :: t in shares ==> shares[t] == before[t]
        invariant forall t :: t in before ==> (t in shares <==> t in left || !Shares.Expired(before[t], now))
        invariant removed == |before| - |shares|
      {
        var token :| token in left;
        var shared := shares[token];
        if shared.expiresAt > 0 && shared.expiresAt < unix {
          assert (shares - {token}).Keys == shares.Keys - {token};
          shares := shares - {token};
          removed := removed + 1;
        }
        left := left - {token};
      }
    }

    // ---------- Users ----------

    method CreateUser(username: string, hash: Option<string>, id: string, now: int) returns (r: Users.AuthResult)
      requires Valid()
      modifies `users, `userByName
      ensures (Accounts(), r) == Users.Register(old(Accounts()), username, hash, id, now)
      ensures r.UsernameTaken? <==> exists i :: i in old(users) && old(users)[i].username == username
      ensures id !in old(users) ==> Valid()
    {
      if username in userByName {
        return Users.UsernameTaken;
      }
      if hash.None? {
        return Users.HashFailed;
      }
      var user := User(id, username, hash.value, now);
      users := users[user.id := user];
      userByName := userByName[username := user.id];
      r := Users.Granted(user);
    }

    method AuthenticateUser(username: string, password: string) returns (r: Users.AuthResult)
      ensures r == Users.Authenticate(verify, Accounts(), username, password)
    {
      if username !in userByName {
        return Users.UserNotFound;
      }
      var userID := userByName[username];
      var user := if userID in users then users[userID] else ZERO_USER;
      if !verify(user.passwordHash, password) {
        return Users.InvalidPassword;
      }
      r := Users.Granted(user);
    }
  }
}
