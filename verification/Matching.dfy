/** Substring search and the wildcard patterns of SQL LIKE and Redis SCAN. */
module Matching {
  predicate Contains(text: string, part: string) {
    exists i :: 0 <= i <= |text| && part <= text[i..]
  }

  datatype Token = Lit(c: char) | One | Many

  /** Whether the whole of `text` matches the pattern. */
  predicate Matches(p: seq<Token>, text: string)
    decreases |p| + |text|
  {
    if p == [] then text == ""
    else match p[0]
      case Many => Matches(p[1..], text) || (text != "" && Matches(p, text[1..]))
      case One => text != "" && Matches(p[1..], text[1..])
      case Lit(c) => text != "" && text[0] == c && Matches(p[1..], text[1..])
  }

  function Lits(s: string): (r: seq<Token>)
    ensures |r| == |s|
  {
    if s == "" then [] else [Lit(s[0])] + Lits(s[1..])
  }

  /** LIKE's reading of a pattern: `%`, `_` and the escape `\`. */
  function LikeTokens(p: string): seq<Token> {
    if p == "" then []
    else if p[0] == '%' then [Many] + LikeTokens(p[1..])
    else if p[0] == '_' then [One] + LikeTokens(p[1..])
    else if p[0] == '\\' && |p| >= 2 then [Lit(p[1])] + LikeTokens(p[2..])
    else [Lit(p[0])] + LikeTokens(p[1..])
  }

  /** `text LIKE '%' || q || '%'`. */
  predicate Like(text: string, q: string) {
    Matches(LikeTokens("%" + q + "%"), text)
  }

  predicate HasWildcard(q: string) {
    '%' in q || '_' in q || '\\' in q
  }

  lemma {:induction false} LitsThenMany(q: string, text: string)
    ensures Matches(Lits(q) + [Many], text) <==> q <= text
  {
    var p := Lits(q) + [Many];
    if q == "" {
      assert p == [Many];
      ManyAlone(text);
    } else {
      assert p[1..] == Lits(q[1..]) + [Many];
      if text != "" {
        LitsThenMany(q[1..], text[1..]);
        assert q == [q[0]] + q[1..] && text == [text[0]] + text[1..];
      }
    }
  }

  lemma {:induction false} ManyAlone(text: string)
    ensures Matches([Many], text)
  {
    if text != "" {
      ManyAlone(text[1..]);
    }
  }

  /** A leading wildcard lets the rest of the pattern start anywhere. */
  lemma {:induction false} ManyThen(p: seq<Token>, text: string)
    ensures Matches([Many] + p, text) <==> exists i :: 0 <= i <= |text| && Matches(p, text[i..])
  {
    assert ([Many] + p)[1..] == p;
    assert text[0..] == text;
    if text != "" {
      ManyThen(p, text[1..]);
      if Matches([Many] + p, text[1..]) {
        var i :| 0 <= i <= |text[1..]| && Matches(p, text[1..][i..]);
        assert text[i + 1..] == text[1..][i..];
      }
      if i :| 0 < i <= |text| && Matches(p, text[i..]) {
        assert text[1..][i - 1..] == text[i..];
      }
    }
  }

  lemma {:induction false} PlainTokens(q: string)
    requires !HasWildcard(q)
    ensures LikeTokens(q + "%") == Lits(q) + [Many]
  {
    if q == "" {
      assert q + "%" == "%";
      assert LikeTokens("%") == [Many] + LikeTokens("%"[1..]);
    } else {
      assert (q + "%")[1..] == q[1..] + "%";
      PlainTokens(q[1..]);
    }
  }

  lemma LikeOfPlain(text: string, q: string)
    requires !HasWildcard(q)
    ensures Like(text, q) <==> Contains(text, q)
  {
    assert ("%" + q + "%")[1..] == q + "%";
    PlainTokens(q);
    ManyThen(Lits(q) + [Many], text);
    forall i | 0 <= i <= |text| ensures Matches(Lits(q) + [Many], text[i..]) <==> q <= text[i..] {
      LitsThenMany(q, text[i..]);
    }
  }

  /** A text that `%q%` matches: wildcards vanish or become a letter, escapes are undone. */
  function Sample(q: string): (r: string)
    ensures |r| <= |q|
  {
    if q == "" then ""
    else if q[0] == '%' then Sample(q[1..])
    else if q[0] == '_' then "x" + Sample(q[1..])
    else if q[0] == '\\' then (if |q| >= 2 then [q[1]] + Sample(q[2..]) else "%")
    else [q[0]] + Sample(q[1..])
  }

  lemma {:induction false} SampleMatches(q: string)
    ensures Matches(LikeTokens(q + "%"), Sample(q))
  {
    var p := q + "%";
    if q == "" {
      assert p == "%" && LikeTokens("%") == [Many] + LikeTokens("%"[1..]);
    } else if q[0] == '\\' {
      if |q| >= 2 {
        assert p[2..] == q[2..] + "%";
        SampleMatches(q[2..]);
      } else {
        assert p == "\\%" && p[2..] == "";
        assert LikeTokens(p) == [Lit('%')] + LikeTokens("");
      }
    } else {
      assert p[1..] == q[1..] + "%";
      SampleMatches(q[1..]);
      assert LikeTokens(p)[1..] == LikeTokens(p[1..]);
    }
  }

  lemma {:induction false} SampleDiffers(q: string)
    requires HasWildcard(q)
    ensures Sample(q) != q
  {
    if q[0] != '%' && q[0] != '_' && q[0] != '\\' {
      assert q == [q[0]] + q[1..];
      SampleDiffers(q[1..]);
      assert Sample(q)[1..] == Sample(q[1..]);
    }
  }

  /** The SQL filter and Go's substring test agree on every text exactly when the query
      holds no LIKE metacharacter. */
  lemma LikeAgreesIff(q: string)
    ensures (forall text :: Like(text, q) <==> Contains(text, q)) <==> !HasWildcard(q)
  {
    if HasWildcard(q) {
      var text := Sample(q);
      SampleMatches(q);
      assert ("%" + q + "%")[1..] == q + "%";
      ManyThen(LikeTokens(q + "%"), text);
      assert text[0..] == text;
      assert Like(text, q);
      SampleDiffers(q);
    } else {
      forall text ensures Like(text, q) <==> Contains(text, q) {
        LikeOfPlain(text, q);
      }
    }
  }

  /** SCAN's reading of a pattern: `*`, `?` and the escape `\`. Character classes are not
      part of this model, so `[` stands for itself. */
  function GlobTokens(p: string): seq<Token> {
    if p == "" then []
    else if p[0] == '*' then [Many] + GlobTokens(p[1..])
    else if p[0] == '?' then [One] + GlobTokens(p[1..])
    else if p[0] == '\\' && |p| >= 2 then [Lit(p[1])] + GlobTokens(p[2..])
    else [Lit(p[0])] + GlobTokens(p[1..])
  }

  /** Whether SCAN with pattern `prefix*` returns `key`. */
  predicate Scans(prefix: string, key: string) {
    Matches(GlobTokens(prefix + "*"), key)
  }

  predicate HasGlob(prefix: string) {
    '*' in prefix || '?' in prefix || '\\' in prefix
  }

  lemma {:induction false} PlainGlob(prefix: string)
    requires !HasGlob(prefix)
    ensures GlobTokens(prefix + "*") == Lits(prefix) + [Many]
  {
    if prefix == "" {
      assert prefix + "*" == "*";
      assert GlobTokens("*") == [Many] + GlobTokens("*"[1..]);
    } else {
      assert (prefix + "*")[1..] == prefix[1..] + "*";
      PlainGlob(prefix[1..]);
    }
  }

  /** For a prefix without metacharacters the scan returns exactly the keys it starts. */
  lemma ScanIsPrefix(prefix: string, key: string)
    requires !HasGlob(prefix)
    ensures Scans(prefix, key) <==> prefix <= key
  {
    PlainGlob(prefix);
    LitsThenMany(prefix, key);
  }
}
