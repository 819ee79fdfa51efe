/** What the snippet operations of a `Store` promise, as a step relation on the snippet map,
    and what every run of such steps keeps. */
module StoreSpec {
  import opened Base
  import opened Model
  import opened Paging
  import Matching

  datatype Op =
    | ListSnippets(page: GoInt, limit: GoInt)
    | SearchSnippets(query: string, page: GoInt, limit: GoInt)
    | GetSnippet(id: string)
    | CreateSnippet(req: SnippetRequest, userID: string)
    | UpdateSnippet(id: string, req: SnippetRequest, userID: string)
    | DeleteSnippet(id: string, userID: string)
    | ForkSnippet(id: string, userID: string)

  /** The result tuples of the interface, zero snippets included. */
  datatype Answer =
    | PageAnswer(page: PageResult)
    | SnippetAnswer(sn: Snippet, ok: bool)
    | UpdateAnswer(sn: Snippet, found: bool, owned: bool)
    | DeleteAnswer(found: bool, owned: bool)

  /** One call: the operation, the uuid it would draw and the time it reads. */
  datatype Call = Call(op: Op, newID: string, now: int)

  type Snippets = map<string, Snippet>

  /** Title or description contains the query, up to the shared lower-casing. */
  predicate Found(lower: string -> string, query: string, sn: Snippet) {
    Matching.Contains(lower(sn.title), lower(query)) || Matching.Contains(lower(sn.description), lower(query))
  }

  function FoundBy(lower: string -> string, query: string): Snippet -> bool {
    (sn: Snippet) => Found(lower, query, sn)
  }

  /** An unowned snippet is anyone's to change; an owned one only its owner's. */
  predicate MayChange(sn: Snippet, userID: string) {
    sn.userID == "" || sn.userID == userID
  }

  function NewSnippet(req: SnippetRequest, userID: string, id: string, now: int): Snippet {
    Snippet(id, req.title, req.code, req.description, userID, now, now)
  }

  function CopyRequest(sn: Snippet): SnippetRequest {
    SnippetRequest(sn.title + COPY_SUFFIX, sn.code, sn.description)
  }

  function Edited(sn: Snippet, req: SnippetRequest, now: int): Snippet {
    sn.(title := req.title, code := req.code, description := req.description, updatedAt := now)
  }

  /** `c` may take the snippets from `m` to `m'` with answer `a`. */
  ghost predicate Step(lower: string -> string, m: Snippets, c: Call, m': Snippets, a: Answer) {
    match c.op
    case ListSnippets(page, limit) =>
      m' == m && a.PageAnswer? && ListAnswer(m, page, limit, a.page)
    case SearchSnippets(query, page, limit) =>
      m' == m && a.PageAnswer? && ListAnswer(Selected(m, FoundBy(lower, query)), page, limit, a.page)
    case GetSnippet(id) =>
      m' == m && a == if id in m then SnippetAnswer(m[id], true) else SnippetAnswer(ZERO_SNIPPET, false)
    case CreateSnippet(req, userID) =>
      var sn := NewSnippet(req, userID, c.newID, c.now);
      m' == m[c.newID := sn] && a == SnippetAnswer(sn, true)
    case UpdateSnippet(id, req, userID) =>
      if id !in m then m' == m && a == UpdateAnswer(ZERO_SNIPPET, false, false)
      else if !MayChange(m[id], userID) then m' == m && a == UpdateAnswer(ZERO_SNIPPET, true, false)
      else
        var sn := Edited(m[id], req, c.now);
        m' == m[id := sn] && a == UpdateAnswer(sn, true, true)
    case DeleteSnippet(id, userID) =>
      if id !in m then m' == m && a == DeleteAnswer(false, false)
      else if !MayChange(m[id], userID) then m' == m && a == DeleteAnswer(true, false)
      else m' == m - {id} && a == DeleteAnswer(true, true)
    case ForkSnippet(id, userID) =>
      if id !in m then m' == m && a == SnippetAnswer(ZERO_SNIPPET, false)
      else
        var sn := NewSnippet(CopyRequest(m[id]), userID, c.newID, c.now);
        m' == m[c.newID := sn] && a == SnippetAnswer(sn, true)
  }

  /** A uuid is drawn only by the two operations that insert, and is new to the store. */
  predicate FreshID(m: Snippets, c: Call) {
    c.op.CreateSnippet? || c.op.ForkSnippet? ==> c.newID !in m
  }

  /** A run: the states before, between and after the calls, and the answers. */
  ghost predicate Run(lower: string -> string, ms: seq<Snippets>, cs: seq<Call>, ans: seq<Answer>) {
    && |ms| == |cs| + 1 && |ans| == |cs|
    && Keyed(ms[0])
    && forall i :: 0 <= i < |cs| ==> Next(lower, ms[i], cs[i], ms[i + 1], ans[i])
  }

  ghost predicate Next(lower: string -> string, m: Snippets, c: Call, m': Snippets, a: Answer) {
    FreshID(m, c) && Step(lower, m, c, m', a)
  }

  // ---------- What one step keeps ----------

  /** The calls that may touch the entry of `k`. */
  predicate Touches(c: Call, k: string) {
    match c.op
    case CreateSnippet(_, _) => k == c.newID
    case ForkSnippet(_, _) => k == c.newID
    case UpdateSnippet(id, _, _) => k == id
    case DeleteSnippet(id, _) => k == id
    case _ => false
  }

  /** Whether the call is an edit or removal of `k` asked for by `owner`. */
  predicate ChangesAs(c: Call, k: string, owner: string) {
    match c.op
    case UpdateSnippet(id, _, userID) => k == id && userID == owner
    case DeleteSnippet(id, userID) => k == id && userID == owner
    case _ => false
  }

  predicate SameIdentity(a: Snippet, b: Snippet) {
    a.id == b.id && a.userID == b.userID && a.createdAt == b.createdAt
  }

  lemma StepKeepsIdentity(lower: string -> string, m: Snippets, c: Call, m': Snippets, a: Answer)
    requires Keyed(m) && Next(lower, m, c, m', a)
    ensures Keyed(m')
    ensures forall k :: k in m && k in m' ==> SameIdentity(m[k], m'[k])
    ensures forall k :: k in m && (k !in m' || m'[k] != m[k]) ==>
      Touches(c, k) && (m[k].userID != "" ==> ChangesAs(c, k, m[k].userID))
    ensures forall k :: k in m' && k !in m ==> Touches(c, k)
  {}

  /** A refused call is one that reports no success; it leaves every snippet as it was. */
  predicate Refused(a: Answer) {
    match a
    case PageAnswer(_) => false
    case SnippetAnswer(_, ok) => !ok
    case UpdateAnswer(_, found, owned) => !found || !owned
    case DeleteAnswer(found, owned) => !found || !owned
  }

  /** An update or delete succeeds exactly when the snippet exists and the caller may change it. */
  lemma RefusalExactly(lower: string -> string, m: Snippets, c: Call, m': Snippets, a: Answer)
    requires Step(lower, m, c, m', a)
    ensures Refused(a) ==> m' == m
    ensures c.op.UpdateSnippet? || c.op.DeleteSnippet? ==>
      (Refused(a) <==> c.op.id !in m || (m[c.op.id].userID != "" && m[c.op.id].userID != c.op.userID))
    ensures c.op.UpdateSnippet? ==> a.UpdateAnswer? && (a.found <==> c.op.id in m)
    ensures c.op.DeleteSnippet? ==> a.DeleteAnswer? && (a.found <==> c.op.id in m)
    ensures c.op.ForkSnippet? ==> (Refused(a) <==> c.op.id !in m)
    ensures c.op.DeleteSnippet? && !Refused(a) ==> m' == m - {c.op.id}
    ensures Refused(a) && !a.DeleteAnswer? ==> a.sn == ZERO_SNIPPET
  {}

  /** What a create stores and answers, field by field. */
  lemma CreateStores(lower: string -> string, m: Snippets, c: Call, m': Snippets, a: Answer)
    requires Step(lower, m, c, m', a) && c.op.CreateSnippet?
    ensures a.SnippetAnswer? && a.ok && m' == m[c.newID := a.sn]
    ensures a.sn.id == c.newID && a.sn.userID == c.op.userID && a.sn.createdAt == a.sn.updatedAt == c.now
    ensures a.sn.title == c.op.req.title && a.sn.code == c.op.req.code && a.sn.description == c.op.req.description
  {}

  /** What a fork of a snippet that exists stores and answers: the caller's own copy. */
  lemma ForkCopies(lower: string -> string, m: Snippets, c: Call, m': Snippets, a: Answer)
    requires Step(lower, m, c, m', a) && c.op.ForkSnippet? && c.op.id in m
    ensures a.SnippetAnswer? && a.ok && m' == m[c.newID := a.sn]
    ensures a.sn.id == c.newID && a.sn.userID == c.op.userID && a.sn.createdAt == a.sn.updatedAt == c.now
    ensures a.sn.title == m[c.op.id].title + " (복사본)"
    ensures a.sn.code == m[c.op.id].code && a.sn.description == m[c.op.id].description
  {}

  /** What a successful update stores and answers: the request's fields over the identity. */
  lemma UpdateOverwrites(lower: string -> string, m: Snippets, c: Call, m': Snippets, a: Answer)
    requires Step(lower, m, c, m', a) && c.op.UpdateSnippet? && !Refused(a)
    ensures c.op.id in m && m' == m[c.op.id := a.sn] && SameIdentity(a.sn, m[c.op.id]) && a.sn.updatedAt == c.now
    ensures a.sn.title == c.op.req.title && a.sn.code == c.op.req.code && a.sn.description == c.op.req.description
  {}

  /** A search finds exactly the snippets in whose lowered title or description the lowered query
      stands somewhere. */
  lemma FoundIff(lower: string -> string, query: string, sn: Snippet)
    ensures Found(lower, query, sn) <==>
      exists before, after ::
        lower(sn.title) == before + lower(query) + after || lower(sn.description) == before + lower(query) + after
  {
    ContainsIff(lower(sn.title), lower(query));
    ContainsIff(lower(sn.description), lower(query));
  }

  lemma ContainsIff(text: string, part: string)
    ensures Matching.Contains(text, part) <==> exists before, after :: text == before + part + after
  {
    if i :| 0 <= i <= |text| && part <= text[i..] {
      assert text == text[..i] + part + text[i + |part|..];
    }
    if before, after :| text == before + part + after {
      assert text[|before|..] == part + after;
    }
  }

  // ---------- What every run keeps ----------

  lemma {:induction false} RunKeyed(lower: string -> string, ms: seq<Snippets>, cs: seq<Call>, ans: seq<Answer>, i: nat)
    requires Run(lower, ms, cs, ans) && i < |ms|
    ensures Keyed(ms[i])
  {
    if i > 0 {
      RunKeyed(lower, ms, cs, ans, i - 1);
      assert Next(lower, ms[i - 1], cs[i - 1], ms[i - 1 + 1], ans[i - 1]);
      StepKeepsIdentity(lower, ms[i - 1], cs[i - 1], ms[i], ans[i - 1]);
    }
  }

  /** While a snippet exists its id, owner and creation time never change. */
  lemma {:induction false} IdentityForLife(lower: string -> string, ms: seq<Snippets>, cs: seq<Call>, ans: seq<Answer>,
      i: nat, j: nat, id: string)
    requires Run(lower, ms, cs, ans) && i <= j < |ms|
    requires forall k :: i <= k <= j ==> id in ms[k]
    ensures ms[j][id].id == id && SameIdentity(ms[i][id], ms[j][id])
    decreases j
  {
    RunKeyed(lower, ms, cs, ans, j);
    if i < j {
      IdentityForLife(lower, ms, cs, ans, i, j - 1, id);
      RunKeyed(lower, ms, cs, ans, j - 1);
      assert Next(lower, ms[j - 1], cs[j - 1], ms[j - 1 + 1], ans[j - 1]);
      StepKeepsIdentity(lower, ms[j - 1], cs[j - 1], ms[j], ans[j - 1]);
    }
  }

  /** In every run a snippet that nobody owns can be updated and deleted by anyone. */
  lemma UnownedIsAnyones(lower: string -> string, ms: seq<Snippets>, cs: seq<Call>, ans: seq<Answer>, i: nat)
    requires Run(lower, ms, cs, ans) && i < |cs| && (cs[i].op.UpdateSnippet? || cs[i].op.DeleteSnippet?)
    requires cs[i].op.id in ms[i] && ms[i][cs[i].op.id].userID == ""
    ensures !Refused(ans[i])
    ensures cs[i].op.DeleteSnippet? ==> ms[i + 1] == ms[i] - {cs[i].op.id}
    ensures cs[i].op.UpdateSnippet? ==>
      && ans[i].UpdateAnswer? && ms[i + 1] == ms[i][cs[i].op.id := ans[i].sn]
      && ans[i].sn.title == cs[i].op.req.title && ans[i].sn.code == cs[i].op.req.code
      && ans[i].sn.description == cs[i].op.req.description && ans[i].sn.updatedAt == cs[i].now
  {
    assert Next(lower, ms[i], cs[i], ms[i + 1], ans[i]);
    RefusalExactly(lower, ms[i], cs[i], ms[i + 1], ans[i]);
  }

  /** An owned snippet that changed or vanished between two moments of a run was changed by a
      successful update or delete its owner made in between. */
  lemma {:induction false} OnlyOwnerChanges(lower: string -> string, ms: seq<Snippets>, cs: seq<Call>, ans: seq<Answer>,
      i: nat, j: nat, id: string) returns (k: nat)
    requires Run(lower, ms, cs, ans) && i <= j < |ms|
    requires id in ms[i] && ms[i][id].userID != ""
    requires id !in ms[j] || ms[j][id] != ms[i][id]
    ensures i <= k < j && ChangesAs(cs[k], id, ms[i][id].userID) && !Refused(ans[k])
    decreases j - i
  {
    RunKeyed(lower, ms, cs, ans, i);
    assert Next(lower, ms[i], cs[i], ms[i + 1], ans[i]);
    StepKeepsIdentity(lower, ms[i], cs[i], ms[i + 1], ans[i]);
    if id in ms[i + 1] && ms[i + 1][id] == ms[i][id] {
      k := OnlyOwnerChanges(lower, ms, cs, ans, i + 1, j, id);
    } else {
      RefusalExactly(lower, ms[i], cs[i], ms[i + 1], ans[i]);
      k := i;
    }
  }

  /** A snippet that was not there and now is was drawn by a create or fork in between. */
  lemma {:induction false} PresentWasDrawn(lower: string -> string, ms: seq<Snippets>, cs: seq<Call>, ans: seq<Answer>,
      i: nat, j: nat, id: string) returns (k: nat)
    requires Run(lower, ms, cs, ans) && i <= j < |ms| && id !in ms[i] && id in ms[j]
    ensures i <= k < j && (cs[k].op.CreateSnippet? || cs[k].op.ForkSnippet?) && cs[k].newID == id
    decreases j - i
  {
    assert Next(lower, ms[i], cs[i], ms[i + 1], ans[i]);
    if id in ms[i + 1] {
      k := i;
    } else {
      k := PresentWasDrawn(lower, ms, cs, ans, i + 1, j, id);
    }
  }

  /** Two deletes of one id both succeed only if the id was drawn again in between. */
  lemma DeletedOnce(lower: string -> string, ms: seq<Snippets>, cs: seq<Call>, ans: seq<Answer>,
      i: nat, j: nat, id: string) returns (k: nat)
    requires Run(lower, ms, cs, ans) && i < j < |cs|
    requires cs[i].op.DeleteSnippet? && cs[j].op.DeleteSnippet? && cs[i].op.id == cs[j].op.id == id
    requires !Refused(ans[i]) && !Refused(ans[j])
    ensures i < k < j && (cs[k].op.CreateSnippet? || cs[k].op.ForkSnippet?) && cs[k].newID == id
  {
    assert Next(lower, ms[i], cs[i], ms[i + 1], ans[i]) && Next(lower, ms[j], cs[j], ms[j + 1], ans[j]);
    k := PresentWasDrawn(lower, ms, cs, ans, i + 1, j, id);
  }

  // ---------- With distinct stamps the answers are determined ----------

  lemma MatchingKeepsDistinct(m: Snippets, keep: Snippet -> bool)
    requires Keyed(m) && DistinctStamps(m)
    ensures Keyed(Selected(m, keep)) && DistinctStamps(Selected(m, keep))
  {}

  lemma StepDetermined(lower: string -> string, m: Snippets, c: Call, m1: Snippets, a1: Answer,
      m2: Snippets, a2: Answer)
    requires Keyed(m) && DistinctStamps(m)
    requires Step(lower, m, c, m1, a1) && Step(lower, m, c, m2, a2)
    ensures m1 == m2 && a1 == a2
  {
    match c.op
    case ListSnippets(page, limit) =>
      ListAnswerUnique(m, page, limit, a1.page, a2.page);
    case SearchSnippets(query, page, limit) =>
      MatchingKeepsDistinct(m, FoundBy(lower, query));
      ListAnswerUnique(Selected(m, FoundBy(lower, query)), page, limit, a1.page, a2.page);
    case _ =>
  }

  lemma {:induction false} StatesAgree(lower: string -> string, cs: seq<Call>,
      ms: seq<Snippets>, ans: seq<Answer>, ns: seq<Snippets>, bns: seq<Answer>, i: nat)
    requires Run(lower, ms, cs, ans) && Run(lower, ns, cs, bns) && ms[0] == ns[0]
    requires forall j :: 0 <= j < |ms| ==> DistinctStamps(ms[j])
    requires i < |ms|
    ensures ms[i] == ns[i]
  {
    if i > 0 {
      var j := i - 1;
      StatesAgree(lower, cs, ms, ans, ns, bns, j);
      RunKeyed(lower, ms, cs, ans, j);
      assert Next(lower, ms[j], cs[j], ms[j + 1], ans[j]) && Next(lower, ns[j], cs[j], ns[j + 1], bns[j]);
      StepDetermined(lower, ms[j], cs[j], ms[i], ans[j], ns[i], bns[j]);
    }
  }

  /** Two stores that start from the same snippets and serve the same calls give the same
      answers throughout, as long as no two snippets share a creation time. */
  lemma RunsAgree(lower: string -> string, cs: seq<Call>,
      ms: seq<Snippets>, ans: seq<Answer>, ns: seq<Snippets>, bns: seq<Answer>, i: nat)
    requires Run(lower, ms, cs, ans) && Run(lower, ns, cs, bns) && ms[0] == ns[0]
    requires forall j :: 0 <= j < |ms| ==> DistinctStamps(ms[j])
    requires i < |ms|
    ensures ms[i] == ns[i] && (i < |cs| ==> ans[i] == bns[i])
  {
    StatesAgree(lower, cs, ms, ans, ns, bns, i);
    if i < |cs| {
      RunKeyed(lower, ms, cs, ans, i);
      assert Next(lower, ms[i], cs[i], ms[i + 1], ans[i]) && Next(lower, ns[i], cs[i], ns[i + 1], bns[i]);
      StepDetermined(lower, ms[i], cs[i], ms[i + 1], ans[i], ns[i + 1], bns[i]);
    }
  }

  // ---------- Search against list ----------

  /** Every listing order, filtered, is a search order; with distinct stamps it is the only one,
      so the joined search pages are the joined list pages filtered, and the total their length. */
  lemma SearchIsFilteredList(lower: string -> string, m: Snippets, query: string, limit: GoInt,
      listed: seq<PageResult>, found: seq<PageResult>)
    requires Keyed(m) && DistinctStamps(m) && limit >= 1
    requires |listed| == PageCount(|m|, limit) && |listed| * limit <= MAX_INT
    requires AnswersInOrder(m, limit, listed)
    requires |found| == PageCount(|Selected(m, FoundBy(lower, query))|, limit) && |found| * limit <= MAX_INT
    requires AnswersInOrder(Selected(m, FoundBy(lower, query)), limit, found)
    ensures forall i :: 0 <= i < |listed| ==> listed[i].Page?
    ensures forall i :: 0 <= i < |found| ==>
      found[i].Page? && found[i].total == |Filter(Joined(listed), FoundBy(lower, query))|
    ensures Joined(found) == Filter(Joined(listed), FoundBy(lower, query))
  {
    var keep := FoundBy(lower, query);
    PagesTile(m, limit, listed);
    MatchingKeepsDistinct(m, keep);
    PagesTile(Selected(m, keep), limit, found);
    FilterOfListing(m, Joined(listed), keep);
    NewestFirstUnique(Selected(m, keep), Joined(found), Filter(Joined(listed), keep));
    EnumerationSize(Selected(m, keep), Joined(found));
  }
}
