/** The comma-separated list of allowed origins. */
module Origins {
  /** Unicode white space, as `strings.TrimSpace` removes it. */
  predicate IsSpace(c: char) {
    c in {'\t', '\n', '\U{000B}', '\U{000C}', '\r', ' ', '\U{0085}', '\U{00A0}', '\U{1680}',
          '\U{2028}', '\U{2029}', '\U{202F}', '\U{205F}', '\U{3000}'}
    || '\U{2000}' <= c <= '\U{200A}'
  }

  function TrimLeft(s: string): (r: string)
    ensures r == "" || !IsSpace(r[0])
    ensures forall c :: c in r ==> c in s
  {
    if s != "" && IsSpace(s[0]) then TrimLeft(s[1..]) else s
  }

  function TrimRight(s: string): (r: string)
    ensures r <= s && (r == "" || !IsSpace(r[|r| - 1]))
  {
    if s != "" && IsSpace(s[|s| - 1]) then TrimRight(s[..|s| - 1]) else s
  }

  function TrimSpace(s: string): (r: string)
    ensures Trimmed(r) && (forall c :: c in r ==> c in s)
  {
    TrimRight(TrimLeft(s))
  }

  predicate Trimmed(s: string) {
    s == "" || (!IsSpace(s[0]) && !IsSpace(s[|s| - 1]))
  }

  /** The pieces between commas; at least one, possibly empty. */
  function Split(s: string): (r: seq<string>)
    ensures |r| >= 1
  {
    if s == "" then [""]
    else
      var rest := Split(s[1..]);
      if s[0] == ',' then [""] + rest else [[s[0]] + rest[0]] + rest[1..]
  }

  function Join(parts: seq<string>): string {
    if parts == [] then ""
    else if |parts| == 1 then parts[0]
    else parts[0] + "," + Join(parts[1..])
  }

  /** The non-empty pieces, trimmed, in order. */
  function Kept(parts: seq<string>): seq<string> {
    if parts == [] then []
    else (if TrimSpace(parts[0]) != "" then [TrimSpace(parts[0])] else []) + Kept(parts[1..])
  }

  function Parse(raw: string): seq<string> {
    Kept(Split(raw))
  }

  lemma {:induction false} KeptAppend(a: seq<string>, b: seq<string>)
    ensures Kept(a + b) == Kept(a) + Kept(b)
  {
    if a == [] {
      assert a + b == b;
    } else {
      assert (a + b)[1..] == a[1..] + b;
      KeptAppend(a[1..], b);
    }
  }

  method ParseOrigins(raw: string) returns (origins: seq<string>)
    ensures origins == Parse(raw)
  {
    var parts := Split(raw);
    origins := [];
    for i := 0 to |parts|
      invariant origins == Kept(parts[..i])
    {
      var trimmed := TrimSpace(parts[i]);
      KeptAppend(parts[..i], [parts[i]]);
      assert parts[..i + 1] == parts[..i] + [parts[i]];
      if trimmed != "" {
        origins := origins + [trimmed];
      }
    }
    assert parts[..|parts|] == parts;
  }

  /** An origin as the configuration uses it. */
  predicate Clean(s: string) {
    s != "" && Trimmed(s) && ',' !in s
  }

  lemma {:induction false} SplitAtComma(a: string, b: string)
    ensures Split(a + "," + b) == Split(a) + Split(b)
  {
    var s := a + "," + b;
    if a == "" {
      assert s[1..] == b;
    } else {
      assert s[1..] == a[1..] + "," + b;
      SplitAtComma(a[1..], b);
    }
  }

  lemma {:induction false} SplitWithoutComma(s: string)
    requires ',' !in s
    ensures Split(s) == [s]
  {
    if s != "" {
      SplitWithoutComma(s[1..]);
      assert [s[0]] + s[1..] == s;
    }
  }

  /** Splitting loses nothing: the pieces hold no comma and join to the input. */
  lemma {:induction false} SplitInvertsJoin(s: string)
    ensures Join(Split(s)) == s
    ensures forall i :: 0 <= i < |Split(s)| ==> ',' !in Split(s)[i]
  {
    if s != "" {
      var rest := Split(s[1..]);
      SplitInvertsJoin(s[1..]);
      assert s == [s[0]] + s[1..];
      if s[0] == ',' {
        assert Split(s)[1..] == rest;
      } else if |rest| > 1 {
        assert Split(s)[1..] == rest[1..];
      }
    }
  }

  /** Lists concatenate: items come out in input order, each piece on its own. */
  lemma ParseAtComma(a: string, b: string)
    ensures Parse(a + "," + b) == Parse(a) + Parse(b)
  {
    SplitAtComma(a, b);
    KeptAppend(Split(a), Split(b));
  }

  lemma {:induction false} KeptClean(parts: seq<string>)
    requires forall i :: 0 <= i < |parts| ==> ',' !in parts[i]
    ensures forall x :: x in Kept(parts) ==> Clean(x)
  {
    if parts != [] {
      KeptClean(parts[1..]);
    }
  }

  lemma ParseClean(raw: string)
    ensures forall x :: x in Parse(raw) ==> Clean(x)
  {
    SplitInvertsJoin(raw);
    KeptClean(Split(raw));
  }

  lemma ParseOne(x: string)
    requires Clean(x)
    ensures Parse(x) == [x]
  {
    SplitWithoutComma(x);
    assert TrimSpace(x) == x;
    assert Kept([x]) == [x] + Kept([x][1..]);
  }

  lemma {:induction false} ParseJoined(xs: seq<string>)
    requires forall x :: x in xs ==> Clean(x)
    ensures Parse(Join(xs)) == xs
  {
    if xs == [] {
      assert Kept([""]) == Kept([""][1..]);
    } else {
      ParseOne(xs[0]);
      if |xs| > 1 {
        ParseJoined(xs[1..]);
        ParseAtComma(xs[0], Join(xs[1..]));
      } else {
        assert xs == [xs[0]];
      }
    }
  }

  // ---------- What stands between the blanks is kept ----------

  /** The code points with Unicode's White_Space property. */
  lemma SpaceByCodePoint(c: char)
    ensures var u := c as int;
      IsSpace(c) <==>
        || 9 <= u <= 13 || 0x2000 <= u <= 0x200A
        || u in {0x20, 0x85, 0xA0, 0x1680, 0x2028, 0x2029, 0x202F, 0x205F, 0x3000}
  {}

  predicate Blank(s: string) {
    forall c :: c in s ==> IsSpace(c)
  }

  lemma {:induction false} TrimLeftKeeps(s: string) returns (w: string)
    ensures Blank(w) && s == w + TrimLeft(s)
  {
    if s != "" && IsSpace(s[0]) {
      var rest := TrimLeftKeeps(s[1..]);
      w := [s[0]] + rest;
    } else {
      w := "";
    }
  }

  lemma {:induction false} TrimRightKeeps(s: string) returns (w: string)
    ensures Blank(w) && s == TrimRight(s) + w
  {
    if s != "" && IsSpace(s[|s| - 1]) {
      var rest := TrimRightKeeps(s[..|s| - 1]);
      w := rest + [s[|s| - 1]];
      assert s == s[..|s| - 1] + [s[|s| - 1]];
    } else {
      w := "";
    }
  }

  /** Trimming removes white space at both ends and nothing else. */
  lemma TrimKeeps(s: string) returns (w: string, w': string)
    ensures Blank(w) && Blank(w') && s == w + TrimSpace(s) + w'
  {
    w := TrimLeftKeeps(s);
    w' := TrimRightKeeps(TrimLeft(s));
  }

  lemma {:induction false} SkipLeft(w: string, t: string)
    requires Blank(w)
    ensures TrimLeft(w + t) == TrimLeft(t)
  {
    if w == "" {
      assert w + t == t;
    } else {
      assert (w + t)[1..] == w[1..] + t;
      SkipLeft(w[1..], t);
    }
  }

  lemma {:induction false} SkipRight(t: string, w: string)
    requires Blank(w)
    ensures TrimRight(t + w) == TrimRight(t)
  {
    if w == "" {
      assert t + w == t;
    } else {
      assert (t + w)[..|t + w| - 1] == t + w[..|w| - 1];
      SkipRight(t, w[..|w| - 1]);
    }
  }

  /** There is only one way to take a text out of its blanks. */
  lemma TrimUnique(w: string, x: string, w': string)
    requires Blank(w) && Blank(w') && Trimmed(x)
    ensures TrimSpace(w + x + w') == x
  {
    assert w + x + w' == w + (x + w');
    SkipLeft(w, x + w');
    if x == "" {
      assert x + w' == w' + "";
      SkipLeft(w', "");
    } else {
      SkipRight(x, w');
    }
  }

  /** What one piece of the list yields, in full: nothing if it is blank, and otherwise the text
      its blanks surround. */
  lemma ParsePiece(w: string, x: string, w': string)
    requires Blank(w) && Blank(w') && Trimmed(x) && ',' !in x
    ensures Parse(w + x + w') == if x == "" then [] else [x]
  {
    var s := w + x + w';
    SpaceByCodePoint(',');
    SplitWithoutComma(s);
    TrimUnique(w, x, w');
    assert Kept([s]) == (if TrimSpace(s) != "" then [TrimSpace(s)] else []) + Kept([s][1..]);
  }

  /** The list `xs` written with blanks around every item. */
  function Padded(xs: seq<string>, lefts: seq<string>, rights: seq<string>): string
    requires |xs| == |lefts| == |rights|
  {
    if xs == [] then ""
    else
      lefts[0] + xs[0] + rights[0] + if |xs| == 1 then "" else "," + Padded(xs[1..], lefts[1..], rights[1..])
  }

  /** Blanks around the items, and items that are nothing but blanks, make no difference. */
  lemma {:induction false} ParsePadded(xs: seq<string>, lefts: seq<string>, rights: seq<string>)
    requires |xs| == |lefts| == |rights|
    requires forall i :: 0 <= i < |xs| ==> Blank(lefts[i]) && Blank(rights[i]) && Trimmed(xs[i]) && ',' !in xs[i]
    ensures Parse(Padded(xs, lefts, rights)) == NonEmpty(xs)
  {
    if xs == [] {
      ParsePiece("", "", "");
    } else {
      var item := lefts[0] + xs[0] + rights[0];
      ParsePiece(lefts[0], xs[0], rights[0]);
      if |xs| == 1 {
        assert item + "" == item && NonEmpty(xs[1..]) == [];
      } else {
        var rest := Padded(xs[1..], lefts[1..], rights[1..]);
        ParsePadded(xs[1..], lefts[1..], rights[1..]);
        ParseAtComma(item, rest);
        assert item + ("," + rest) == item + "," + rest;
      }
    }
  }

  function NonEmpty(xs: seq<string>): seq<string> {
    if xs == [] then [] else (if xs[0] == "" then [] else [xs[0]]) + NonEmpty(xs[1..])
  }

  /** Every input is such a list, so this says what any input is parsed to. */
  lemma {:induction false} EveryInputIsPadded(parts: seq<string>)
      returns (xs: seq<string>, lefts: seq<string>, rights: seq<string>)
    requires parts != [] && forall i :: 0 <= i < |parts| ==> ',' !in parts[i]
    ensures |xs| == |lefts| == |rights| == |parts|
    ensures forall i :: 0 <= i < |xs| ==> Blank(lefts[i]) && Blank(rights[i]) && Trimmed(xs[i]) && ',' !in xs[i]
    ensures Padded(xs, lefts, rights) == Join(parts)
  {
    var x := TrimSpace(parts[0]);
    var w, w' := TrimKeeps(parts[0]);
    if |parts| == 1 {
      xs, lefts, rights := [x], [w], [w'];
      assert w + x + w' + "" == parts[0];
    } else {
      var ys, ls, rs := EveryInputIsPadded(parts[1..]);
      xs, lefts, rights := [x] + ys, [w] + ls, [w'] + rs;
      assert xs[1..] == ys && lefts[1..] == ls && rights[1..] == rs;
      assert parts[0] + "," + Join(parts[1..]) == w + x + w' + ("," + Padded(ys, ls, rs));
    }
  }

  /** Every input is a list of trimmed, comma-free texts with blanks around them, and parses to
      those that are not empty. */
  lemma ParseOfAnyInput(raw: string) returns (xs: seq<string>, lefts: seq<string>, rights: seq<string>)
    ensures |xs| == |lefts| == |rights|
    ensures forall i :: 0 <= i < |xs| ==> Blank(lefts[i]) && Blank(rights[i]) && Trimmed(xs[i]) && ',' !in xs[i]
    ensures raw == Padded(xs, lefts, rights) && Parse(raw) == NonEmpty(xs)
  {
    SplitInvertsJoin(raw);
    xs, lefts, rights := EveryInputIsPadded(Split(raw));
    ParsePadded(xs, lefts, rights);
  }

  /** A list survives printing and parsing exactly when all its items are clean. */
  lemma RoundTripIff(xs: seq<string>)
    ensures Parse(Join(xs)) == xs <==> forall x :: x in xs ==> Clean(x)
  {
    ParseClean(Join(xs));
    if forall x :: x in xs ==> Clean(x) {
      ParseJoined(xs);
    }
  }

  /** Parsing, printing and parsing again gives the same list. */
  lemma ParseIsStable(raw: string)
    ensures Parse(Join(Parse(raw))) == Parse(raw)
  {
    ParseClean(raw);
    RoundTripIff(Parse(raw));
  }
}
