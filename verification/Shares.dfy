/** Expiring share links and the background collector. */
module Shares {
  import opened Base
  import opened Model

  const SECOND: int := 1_000_000_000
  const SHARE_TTL: int := 24 * 60 * 60 * SECOND

  /** `Time.Unix`: whole seconds of a nanosecond clock. */
  function Unix(now: int): int {
    now / SECOND
  }

  predicate Expired(s: SharedCode, now: int) {
    s.expiresAt > 0 && s.expiresAt < Unix(now)
  }

  /** `stamp` is the creation time as text, formatted outside this model. */
  function NewShare(req: ShareRequest, token: string, stamp: string, now: int): SharedCode {
    SharedCode(token, req.code, req.title, stamp, Unix(now + SHARE_TTL))
  }

  /** The share behind `token`, unless it is missing or expired. */
  function Open(shares: map<string, SharedCode>, token: string, now: int): Option<SharedCode> {
    if token !in shares || Expired(shares[token], now) then None else Some(shares[token])
  }

  /** What one collector pass at `now` leaves. */
  function Collected(shares: map<string, SharedCode>, now: int): map<string, SharedCode> {
    map t | t in shares && !Expired(shares[t], now) :: shares[t]
  }

  /** A token is found exactly until the end of the second its share expires in, or always if the
      share has no expiry. */
  lemma OpenIff(shares: map<string, SharedCode>, token: string, now: int)
    ensures var a := Open(shares, token, now);
      && (a.Some? <==>
            && token in shares
            && (shares[token].expiresAt <= 0 || now < (shares[token].expiresAt + 1) * SECOND))
      && (a.Some? ==> a.value == shares[token])
  {
    if token in shares {
      var e := shares[token].expiresAt;
      assert e < now / SECOND <==> (e + 1) * SECOND <= now;
    }
  }

  /** `s` is the share made for this request at `made`: its own code and title under its own
      token, expiring 86400 seconds later. */
  predicate MadeFor(s: SharedCode, req: ShareRequest, token: string, stamp: string, made: int) {
    && s.token == token && s.code == req.code && s.title == req.title && s.createdAt == stamp
    && s.expiresAt == made / 1_000_000_000 + 86400
  }

  lemma NewShareMadeFor(req: ShareRequest, token: string, stamp: string, made: int)
    ensures MadeFor(NewShare(req, token, stamp, made), req, token, stamp, made)
  {}

  /** A new share carries what was asked for. It is served from its creation until the end of the
      second 24 hours later, and at no time after. */
  lemma ShareLifetime(shares: map<string, SharedCode>, req: ShareRequest, token: string, stamp: string,
      made: int, now: int)
    requires made >= 0 && now >= made
    ensures var a := Open(shares[token := NewShare(req, token, stamp, made)], token, now);
      && (a.Some? <==> now < (made / 1_000_000_000 + 86401) * 1_000_000_000)
      && (a.Some? ==> MadeFor(a.value, req, token, stamp, made))
  {
    NewShareMadeFor(req, token, stamp, made);
    OpenIff(shares[token := NewShare(req, token, stamp, made)], token, now);
  }

  /** A collector pass leaves exactly the shares whose last second is not over, as they were. */
  lemma CollectedExactly(shares: map<string, SharedCode>, now: int, token: string)
    ensures token in Collected(shares, now) <==>
      token in shares && (shares[token].expiresAt <= 0 || now < (shares[token].expiresAt + 1) * 1_000_000_000)
    ensures token in Collected(shares, now) ==> Collected(shares, now)[token] == shares[token]
  {
    OpenIff(shares, token, now);
  }

  // ---------- Collection is invisible ----------

  datatype Event =
    | Share(req: ShareRequest, token: string, stamp: string, now: int)
    | GetShare(token: string, now: int)
    | Collect(now: int)

  /** The answers to the `GetShare` calls of a run that starts from `shares`. */
  function Answers(shares: map<string, SharedCode>, es: seq<Event>): seq<Option<SharedCode>>
    decreases |es|
  {
    if es == [] then []
    else match es[0]
      case Share(req, token, stamp, now) => Answers(shares[token := NewShare(req, token, stamp, now)], es[1..])
      case GetShare(token, now) => [Open(shares, token, now)] + Answers(shares, es[1..])
      case Collect(now) => Answers(Collected(shares, now), es[1..])
  }

  function WithoutCollect(es: seq<Event>): seq<Event> {
    if es == [] then []
    else if es[0].Collect? then WithoutCollect(es[1..])
    else [es[0]] + WithoutCollect(es[1..])
  }

  /** The clock never runs backwards and starts no earlier than `from`. */
  predicate ClockFrom(from: int, es: seq<Event>)
    decreases |es|
  {
    es == [] || (from <= es[0].now && ClockFrom(es[0].now, es[1..]))
  }

  /** `small` lacks only shares of `big` that had expired by `now`. */
  ghost predicate LacksOnlyExpired(small: map<string, SharedCode>, big: map<string, SharedCode>, now: int) {
    && (forall t :: t in small ==> t in big && big[t] == small[t])
    && (forall t :: t in big && t !in small ==> Expired(big[t], now))
  }

  lemma ExpiredStays(s: SharedCode, now: int, later: int)
    requires Expired(s, now) && now <= later
    ensures Expired(s, later)
  {
    assert now / SECOND <= later / SECOND;
  }

  lemma {:induction false} LackingAnswersAlike(small: map<string, SharedCode>, big: map<string, SharedCode>,
      from: int, es: seq<Event>)
    requires LacksOnlyExpired(small, big, from) && ClockFrom(from, es)
    ensures Answers(small, es) == Answers(big, WithoutCollect(es))
    decreases |es|
  {
    if es != [] {
      var now := es[0].now;
      forall t | t in big && t !in small ensures Expired(big[t], now) {
        ExpiredStays(big[t], from, now);
      }
      var rest := WithoutCollect(es[1..]);
      match es[0]
      case Share(req, token, stamp, _) =>
        var sh := NewShare(req, token, stamp, now);
        assert WithoutCollect(es)[1..] == rest;
        LackingAnswersAlike(small[token := sh], big[token := sh], now, es[1..]);
      case GetShare(_, _) =>
        assert WithoutCollect(es)[1..] == rest;
        LackingAnswersAlike(small, big, now, es[1..]);
      case Collect(_) =>
        LackingAnswersAlike(Collected(small, now), big, now, es[1..]);
    }
  }

  /** Collector passes anywhere in a run change no answer. */
  lemma CollectionInvisible(shares: map<string, SharedCode>, from: int, es: seq<Event>)
    requires ClockFrom(from, es)
    ensures Answers(shares, es) == Answers(shares, WithoutCollect(es))
  {
    LackingAnswersAlike(shares, shares, from, es);
  }
}
