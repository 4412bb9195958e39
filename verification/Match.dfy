/** match: file name patterns, and the recursive matcher with its three answers. */
module Match {
  import opened Wrappers
  import opened Bits

  const Question: Byte := 63   // ?
  const Asterisk: Byte := 42   // *
  const Open: Byte := 91       // [
  const Close: Byte := 93      // ]
  const Bang: Byte := 33       // !
  const Caret: Byte := 94      // ^
  const Escape: Byte := 92     // \
  const Hyphen: Byte := 45     // -

  /** C strings hold no zero byte. */
  predicate CString(s: seq<Byte>) {
    0 !in s
  }

  /** `Case(x)`: lower case if letter case is ignored. */
  function Case(ic: bool, x: Byte): Byte {
    if ic && 65 <= x <= 90 then x + 32 else x
  }

  // ----- patterns

  /** A pattern is a list of these.  `Set` holds the raw text between the brackets; `Bad` is a
      bracket that is never closed or an escape at the very end, and matches nothing. */
  datatype Token = Any | Star | Lit(c: Byte) | Set(rev: bool, body: seq<Byte>) | Bad

  /** Index of the first closing bracket that is not escaped, counting from `i`. */
  function Closing(p: seq<Byte>, i: nat, escaped: bool): (r: Option<nat>)
    requires i <= |p|
    ensures r.Some? ==> i <= r.value < |p| && p[r.value] == Close
    decreases |p| - i
  {
    if i == |p| then None
    else if escaped then Closing(p, i + 1, false)
    else if p[i] == Escape then Closing(p, i + 1, true)
    else if p[i] == Close then Some(i)
    else Closing(p, i + 1, false)
  }

  /** Is the set reversed?  `p` starts after the opening bracket. */
  predicate Reversed(p: seq<Byte>) {
    p != [] && (p[0] == Bang || p[0] == Caret)
  }

  function SetStart(p: seq<Byte>): (r: nat)
    ensures r <= |p|
  {
    if Reversed(p) then 1 else 0
  }

  function Parse(p: seq<Byte>): (r: seq<Token>)
    ensures r == [] <==> p == []
    decreases |p|
  {
    if p == [] then []
    else if p[0] == Question then [Any] + Parse(p[1..])
    else if p[0] == Asterisk then [Star] + Parse(p[1..])
    else if p[0] == Open then
      var rest := p[1..];
      match Closing(rest, SetStart(rest), false)
      case None => [Bad]
      case Some(q) => [Set(Reversed(rest), rest[SetStart(rest)..q])] + Parse(rest[q + 1..])
    else if p[0] == Escape then
      if |p| == 1 then [Bad] else [Lit(p[1])] + Parse(p[2..])
    else [Lit(p[0])] + Parse(p[1..])
  }

  // ----- what a set contains

  /** Some character from `lo` to `hi` is `ch`, up to letter case. */
  ghost predicate InRange(ic: bool, lo: Byte, hi: Byte, ch: Byte) {
    exists k: Byte :: lo <= k <= hi && Case(ic, k) == Case(ic, ch)
  }

  /** The scan of the text between the brackets from index `i`: `c` is the start of a range or
      zero, `e` says that the next character is to be taken literally. */
  ghost predicate Scan(ic: bool, body: seq<Byte>, i: nat, c: Byte, e: bool, ch: Byte)
    requires i <= |body| && (i == 0 && body != [] && body[0] == Hyphen ==> e)
    decreases |body| - i
  {
    if i == |body| then false
    else if !e && body[i] == Escape then Scan(ic, body, i + 1, c, true, ch)
    else if !e && body[i] == Hyphen then Scan(ic, body, i + 1, body[i - 1], e, ch)
    else
      || (!(i + 1 < |body| && body[i + 1] == Hyphen) && InRange(ic, if c != 0 then c else body[i], body[i], ch))
      || Scan(ic, body, i + 1, 0, false, ch)
  }

  ghost predicate InSet(ic: bool, body: seq<Byte>, ch: Byte) {
    Scan(ic, body, 0, 0, body != [] && body[0] == Hyphen, ch)
  }

  // ----- sets written as the documentation says

  /** A character of a set, perhaps with a backslash before it. */
  datatype Unit = Unit(c: Byte, quoted: bool) {
    predicate Valid() {
      c != 0 && (!quoted ==> c != Escape && c != Hyphen && c != Close)
    }

    function Text(): (t: seq<Byte>)
      ensures 1 <= |t| <= 2 && t[|t| - 1] == c
      ensures Valid() ==> t[0] != Hyphen
    {
      if quoted then [Escape, c] else [c]
    }
  }

  datatype Item = One(u: Unit) | Range(lo: Unit, hi: Unit) {
    predicate Valid() {
      match this
      case One(u) => u.Valid()
      case Range(a, b) => a.Valid() && b.Valid()
    }

    function Text(): (t: seq<Byte>)
      ensures |t| > 0
      ensures Valid() ==> t[0] != Hyphen
    {
      match this
      case One(u) => u.Text()
      case Range(a, b) => a.Text() + [Hyphen] + b.Text()
    }

    ghost predicate Has(ic: bool, ch: Byte) {
      match this
      case One(u) => InRange(ic, u.c, u.c, ch)
      case Range(a, b) => InRange(ic, a.c, b.c, ch)
    }
  }

  function SetText(items: seq<Item>): (t: seq<Byte>)
    ensures (forall k :: 0 <= k < |items| ==> items[k].Valid()) && t != [] ==> t[0] != Hyphen
  {
    if items == [] then [] else items[0].Text() + SetText(items[1..])
  }

  ghost predicate SomeHas(ic: bool, items: seq<Item>, ch: Byte) {
    exists k :: 0 <= k < |items| && items[k].Has(ic, ch)
  }

  /** A character not followed by a hyphen ends a range, or is one by itself. */
  lemma ScanUnit(ic: bool, body: seq<Byte>, i: nat, c: Byte, u: Unit, ch: Byte)
    requires u.Valid() && i + |u.Text()| <= |body| && body[i..i + |u.Text()|] == u.Text()
    ensures var j := i + |u.Text()|;
            Scan(ic, body, i, c, false, ch) <==>
              || (!(j < |body| && body[j] == Hyphen) && InRange(ic, if c != 0 then c else u.c, u.c, ch))
              || Scan(ic, body, j, 0, false, ch)
  {
    var t := u.Text();
    assert body[i] == body[i..i + |t|][0] == t[0];
    if u.quoted {
      assert body[i + 1] == body[i..i + |t|][1] == u.c;
      assert Scan(ic, body, i, c, false, ch) == Scan(ic, body, i + 1, c, true, ch);
    }
  }

  lemma ScanRange(ic: bool, body: seq<Byte>, i: nat, a: Unit, b: Unit, ch: Byte)
    requires a.Valid() && b.Valid()
    requires var t := Range(a, b).Text(); i + |t| <= |body| && body[i..i + |t|] == t
    ensures var j := i + |Range(a, b).Text()|;
            (j < |body| && body[j] == Hyphen) ||
            (Scan(ic, body, i, 0, false, ch) <==> InRange(ic, a.c, b.c, ch) || Scan(ic, body, j, 0, false, ch))
  {
    hide InRange;
    var n := |a.Text()|;
    var t := Range(a, b).Text();
    assert t == a.Text() + [Hyphen] + b.Text();
    assert body[i..i + n] == body[i..i + |t|][..n] == a.Text();
    assert body[i + n] == body[i..i + |t|][n] == Hyphen;
    assert body[i + n - 1] == body[i..i + |t|][n - 1] == a.c;
    assert body[i + n + 1..i + |t|] == body[i..i + |t|][n + 1..] == b.Text();
    ScanUnit(ic, body, i, 0, a, ch);
    ScanUnit(ic, body, i + n + 1, a.c, b, ch);
    assert Scan(ic, body, i + n, 0, false, ch) == Scan(ic, body, i + n + 1, a.c, false, ch);
  }

  lemma ScanOne(ic: bool, body: seq<Byte>, i: nat, item: Item, ch: Byte)
    requires item.Valid()
    requires var t := item.Text(); i + |t| <= |body| && body[i..i + |t|] == t
    requires var j := i + |item.Text()|; j < |body| ==> body[j] != Hyphen
    requires body != [] ==> body[0] != Hyphen
    ensures Scan(ic, body, i, 0, false, ch) <==>
              item.Has(ic, ch) || Scan(ic, body, i + |item.Text()|, 0, false, ch)
  {
    hide InRange, Scan;
    match item
    case One(u) => ScanUnit(ic, body, i, 0, u, ch);
    case Range(a, b) => ScanRange(ic, body, i, a, b, ch);
  }

  lemma {:induction false} ScanItems(ic: bool, body: seq<Byte>, i: nat, items: seq<Item>, ch: Byte)
    requires forall k :: 0 <= k < |items| ==> items[k].Valid()
    requires i <= |body| && body[i..] == SetText(items) && (body != [] ==> body[0] != Hyphen)
    ensures Scan(ic, body, i, 0, false, ch) <==> SomeHas(ic, items, ch)
    decreases |items|
  {
    hide Item.Has, Item.Text, Item.Valid, InRange;
    if items != [] {
      var rest := SetText(items[1..]);
      var t := items[0].Text();
      assert body[i..] == t + rest;
      assert body[i..][|t|..] == rest;
      assert body[i + |t|..] == rest;
      ScanItems(ic, body, i + |t|, items[1..], ch);
      SomeCons(ic, items, ch);
      if rest != [] {
        assert body[i + |t|] == rest[0];
      }
      assert body[i..i + |t|] == body[i..][..|t|] == t;
      ScanOne(ic, body, i, items[0], ch);
    }
  }

  lemma SomeCons(ic: bool, items: seq<Item>, ch: Byte)
    requires items != []
    ensures SomeHas(ic, items, ch) <==> items[0].Has(ic, ch) || SomeHas(ic, items[1..], ch)
  {
    if SomeHas(ic, items, ch) {
      var k :| 0 <= k < |items| && items[k].Has(ic, ch);
      if k > 0 {
        assert items[1..][k - 1] == items[k];
      }
    }
    if SomeHas(ic, items[1..], ch) {
      var k :| 0 <= k < |items[1..]| && items[1..][k].Has(ic, ch);
      assert items[k + 1] == items[1..][k];
    }
  }

  /** A set of characters and ranges, special characters quoted, contains exactly those. */
  lemma SetContains(ic: bool, items: seq<Item>, ch: Byte)
    requires forall k :: 0 <= k < |items| ==> items[k].Valid()
    ensures InSet(ic, SetText(items), ch) <==> SomeHas(ic, items, ch)
  {
    var body := SetText(items);
    assert body[0..] == body;
    ScanItems(ic, body, 0, items, ch);
  }

  // ----- what a pattern matches

  /** Does the first character fit a token that stands for one character? */
  ghost predicate Fits(ic: bool, t: Token, ch: Byte) {
    match t
    case Any => true
    case Lit(c) => Case(ic, c) == Case(ic, ch)
    case Set(rev, body) => InSet(ic, body, ch) != rev
    case _ => false
  }

  /** The strings a pattern stands for: a star is any sequence of characters, zero or more. */
  ghost predicate Denotes(ic: bool, ts: seq<Token>, s: seq<Byte>)
    decreases |ts|
  {
    if ts == [] then s == []
    else if ts[0] == Star then exists i: nat :: i <= |s| && Denotes(ic, ts[1..], s[i..])
    else s != [] && Fits(ic, ts[0], s[0]) && Denotes(ic, ts[1..], s[1..])
  }

  /** The strings the matcher accepts: it tries what follows a star only where characters are
      left. */
  ghost predicate Accepts(ic: bool, ts: seq<Token>, s: seq<Byte>)
    decreases |ts|
  {
    if ts == [] then s == []
    else if ts[0] == Star then ts[1..] == [] || exists i: nat :: i < |s| && Accepts(ic, ts[1..], s[i..])
    else s != [] && Fits(ic, ts[0], s[0]) && Accepts(ic, ts[1..], s[1..])
  }

  /** The same pattern with a run of two or more stars at its end turned into `?*`. */
  function Meant(ts: seq<Token>): (r: seq<Token>)
    decreases |ts|
  {
    if ts == [] then []
    else if OnlyStars(ts) && |ts| >= 2 then [Any, Star]
    else [ts[0]] + Meant(ts[1..])
  }

  predicate OnlyStars(ts: seq<Token>) {
    forall i :: 0 <= i < |ts| ==> ts[i] == Star
  }

  /** Nothing but stars matches the empty string. */
  lemma {:induction false} EmptyString(ic: bool, ts: seq<Token>)
    ensures Denotes(ic, ts, []) <==> OnlyStars(ts)
    decreases |ts|
  {
    if ts != [] && ts[0] == Star {
      EmptyString(ic, ts[1..]);
      assert OnlyStars(ts) <==> OnlyStars(ts[1..]);
      var s: seq<Byte> := [];
      assert s[0..] == s;
      assert forall i: nat :: i <= |s| ==> s[i..] == s;
    }
  }

  lemma {:induction false} AcceptsStars(ic: bool, ts: seq<Token>, s: seq<Byte>)
    requires OnlyStars(ts) && |ts| >= 1
    ensures Accepts(ic, ts, s) <==> |ts| == 1 || s != []
    decreases |ts|
  {
    if |ts| > 1 {
      forall i: nat | i < |s| ensures Accepts(ic, ts[1..], s[i..]) {
        AcceptsStars(ic, ts[1..], s[i..]);
      }
      if s != [] {
        assert Accepts(ic, ts[1..], s[0..]);
      }
    }
  }

  lemma OnlyStarsCons(ts: seq<Token>)
    requires ts != []
    ensures OnlyStars(ts) <==> ts[0] == Star && OnlyStars(ts[1..])
  {
    if OnlyStars(ts[1..]) {
      assert forall i :: 1 <= i < |ts| ==> ts[i] == ts[1..][i - 1];
    }
  }

  lemma AnyStar(ic: bool, s: seq<Byte>)
    ensures Denotes(ic, [Any, Star], s) <==> s != []
  {
    if s != [] {
      var t := s[1..];
      assert [Any, Star][1..] == [Star] && [Star][1..] == [];
      assert Denotes(ic, [], t[|t|..]);
      assert Denotes(ic, [Star], t);
    }
  }

  lemma {:induction false} MeantStars(ts: seq<Token>)
    ensures OnlyStars(Meant(ts)) ==> OnlyStars(ts)
    decreases |ts|
  {
    if ts != [] && !(OnlyStars(ts) && |ts| >= 2) {
      MeantStars(ts[1..]);
      assert Meant(ts)[1..] == Meant(ts[1..]);
      OnlyStarsCons(Meant(ts));
      OnlyStarsCons(ts);
    }
  }

  /** The matcher accepts exactly the strings of the pattern, with a run of two or more stars at
      the very end read as `?*`. */
  lemma {:induction false} AcceptsMeant(ic: bool, ts: seq<Token>, s: seq<Byte>)
    ensures Accepts(ic, ts, s) <==> Denotes(ic, Meant(ts), s)
    decreases |ts|
  {
    if ts != [] {
      var rest := ts[1..];
      if OnlyStars(ts) && |ts| >= 2 {
        AcceptsStars(ic, ts, s);
        AnyStar(ic, s);
      } else {
        assert Meant(ts)[1..] == Meant(rest);
        if ts[0] == Star {
          forall i: nat | i <= |s| ensures Accepts(ic, rest, s[i..]) <==> Denotes(ic, Meant(rest), s[i..]) {
            AcceptsMeant(ic, rest, s[i..]);
          }
          if rest == [] {
            assert Meant(rest) == [] && Denotes(ic, [], s[|s|..]);
          } else {
            OnlyStarsCons(ts);
            MeantStars(rest);
            EmptyString(ic, Meant(rest));
            assert s[|s|..] == [];
          }
        } else if s != [] {
          AcceptsMeant(ic, rest, s[1..]);
        }
      }
    }
  }

  predicate EndsInTwoStars(ts: seq<Token>) {
    |ts| >= 2 && ts[|ts| - 1] == Star && ts[|ts| - 2] == Star
  }

  lemma {:induction false} MeantIsItself(ts: seq<Token>)
    ensures !EndsInTwoStars(ts) <==> Meant(ts) == ts
    decreases |ts|
  {
    if OnlyStars(ts) && |ts| >= 2 {
      assert Meant(ts)[0] == Any;
    } else if ts != [] {
      MeantIsItself(ts[1..]);
      assert Meant(ts)[1..] == Meant(ts[1..]);
      assert |ts| == 2 && ts[0] == Star && ts[1] == Star ==> OnlyStars(ts);
      if |ts| > 2 {
        assert ts[1..][|ts| - 2] == ts[|ts| - 1] && ts[1..][|ts| - 3] == ts[|ts| - 2];
      }
    }
  }

  /** Two stars at the end are read as at least one character: `**` does not match the empty
      string, which it stands for. */
  lemma TwoStars(ic: bool)
    ensures Denotes(ic, Parse([Asterisk, Asterisk]), []) && !Accepts(ic, Parse([Asterisk, Asterisk]), [])
  {
    var p := [Asterisk, Asterisk];
    assert p[1..] == [Asterisk] && [Asterisk][1..] == [];
    assert Parse([Asterisk]) == [Star];
    assert Parse(p) == [Star, Star];
    EmptyString(ic, [Star, Star]);
    AcceptsStars(ic, [Star, Star], []);
  }

  // ----- exactly when the two readings of a pattern agree

  /** A string for each half of a pattern is a string for the whole. */
  lemma {:induction false} DenotesJoin(ic: bool, ts: seq<Token>, us: seq<Token>, s: seq<Byte>, i: nat)
    requires i <= |s| && Denotes(ic, ts, s[..i]) && Denotes(ic, us, s[i..])
    ensures Denotes(ic, ts + us, s)
    decreases |ts|
  {
    hide Fits;
    if ts == [] {
      assert ts + us == us && s[i..] == s;
    } else {
      assert (ts + us)[1..] == ts[1..] + us;
      if ts[0] == Star {
        var j: nat :| j <= i && Denotes(ic, ts[1..], s[..i][j..]);
        assert s[..i][j..] == s[j..][..i - j] && s[j..][i - j..] == s[i..];
        DenotesJoin(ic, ts[1..], us, s[j..], i - j);
        assert Denotes(ic, ts[1..] + us, s[j..]);
      } else {
        assert s[..i][1..] == s[1..][..i - 1] && s[1..][i - 1..] == s[i..];
        DenotesJoin(ic, ts[1..], us, s[1..], i - 1);
      }
    }
  }

  lemma {:induction false} DenotesSplit(ic: bool, ts: seq<Token>, us: seq<Token>, s: seq<Byte>) returns (i: nat)
    requires Denotes(ic, ts + us, s)
    ensures i <= |s| && Denotes(ic, ts, s[..i]) && Denotes(ic, us, s[i..])
    decreases |ts|
  {
    hide Fits;
    if ts == [] {
      assert ts + us == us && s[0..] == s;
      i := 0;
    } else {
      assert (ts + us)[1..] == ts[1..] + us;
      if ts[0] == Star {
        var j: nat :| j <= |s| && Denotes(ic, ts[1..] + us, s[j..]);
        var k := DenotesSplit(ic, ts[1..], us, s[j..]);
        i := j + k;
        assert s[..i][j..] == s[j..][..k] && s[j..][k..] == s[i..];
      } else {
        var k := DenotesSplit(ic, ts[1..], us, s[1..]);
        i := k + 1;
        assert s[..i][1..] == s[1..][..k] && s[1..][k..] == s[i..];
      }
    }
  }

  /** The pattern without the stars at its end. */
  function Base(ts: seq<Token>): seq<Token>
    decreases |ts|
  {
    if OnlyStars(ts) then [] else [ts[0]] + Base(ts[1..])
  }

  function Stars(ts: seq<Token>): seq<Token>
    decreases |ts|
  {
    if OnlyStars(ts) then ts else Stars(ts[1..])
  }

  lemma {:induction false} BaseStars(ts: seq<Token>)
    ensures Base(ts) + Stars(ts) == ts && OnlyStars(Stars(ts))
    ensures EndsInTwoStars(ts) ==> Meant(ts) == Base(ts) + [Any, Star]
    decreases |ts|
  {
    if OnlyStars(ts) {
      assert Base(ts) == [] && Stars(ts) == ts;
    } else {
      BaseStars(ts[1..]);
      if EndsInTwoStars(ts) {
        TwoStarsCons(ts);
        assert Meant(ts) == [ts[0]] + Meant(ts[1..]);
      }
      assert [ts[0]] + ts[1..] == ts;
    }
  }

  lemma TwoStarsCons(ts: seq<Token>)
    requires !OnlyStars(ts) && EndsInTwoStars(ts)
    ensures EndsInTwoStars(ts[1..])
  {
    assert |ts| == 2 && ts[0] == Star && ts[1] == Star ==> OnlyStars(ts);
    assert |ts| > 2 ==> ts[1..][|ts| - 2] == ts[|ts| - 1] && ts[1..][|ts| - 3] == ts[|ts| - 2];
  }

  /** A shortest string that a pattern stands for, among the beginnings of `w`. */
  lemma Shortest(ic: bool, ts: seq<Token>, w: seq<Byte>) returns (v: seq<Byte>)
    requires CString(w) && Denotes(ic, ts, w)
    ensures CString(v) && Denotes(ic, ts, v)
    ensures forall i :: 0 <= i < |v| ==> !Denotes(ic, ts, v[..i])
    decreases |w|
  {
    if i :| 0 <= i < |w| && Denotes(ic, ts, w[..i]) {
      v := Shortest(ic, ts, w[..i]);
    } else {
      v := w;
    }
  }

  /** Everything but a star has some character that fits it: no bracket is left open, nothing is
      quoted at the very end, and every set has something in it. */
  ghost predicate Possible(ic: bool, ts: seq<Token>) {
    forall i :: 0 <= i < |ts| ==> ts[i] == Star || exists ch: Byte :: ch != 0 && Fits(ic, ts[i], ch)
  }

  /** Such are exactly the patterns that stand for any C string at all. */
  lemma {:induction false} PossibleExactly(ic: bool, ts: seq<Token>)
    ensures (exists w :: CString(w) && Denotes(ic, ts, w)) <==> Possible(ic, ts)
    decreases |ts|
  {
    if ts == [] {
      assert CString([]) && Denotes(ic, ts, []);
    } else {
      PossibleExactly(ic, ts[1..]);
      PossibleCons(ic, ts);
      if Possible(ic, ts) {
        var w :| CString(w) && Denotes(ic, ts[1..], w);
        if ts[0] == Star {
          assert w[0..] == w;
          assert Denotes(ic, ts, w);
        } else {
          var ch: Byte :| ch != 0 && Fits(ic, ts[0], ch);
          assert ([ch] + w)[1..] == w;
          assert CString([ch] + w) && Denotes(ic, ts, [ch] + w);
        }
      }
      if w :| CString(w) && Denotes(ic, ts, w) {
        DenotesHead(ic, ts, w);
      }
    }
  }

  lemma PossibleCons(ic: bool, ts: seq<Token>)
    requires ts != []
    ensures Possible(ic, ts) <==> Possible(ic, ts[..1]) && Possible(ic, ts[1..])
    ensures Possible(ic, ts) && ts[0] != Star ==> exists ch: Byte :: ch != 0 && Fits(ic, ts[0], ch)
  {
    hide Fits;
    assert forall i :: 0 < i < |ts| ==> ts[i] == ts[1..][i - 1];
  }

  lemma DenotesHead(ic: bool, ts: seq<Token>, w: seq<Byte>)
    requires ts != [] && CString(w) && Denotes(ic, ts, w)
    ensures Possible(ic, ts[..1]) && exists v :: CString(v) && Denotes(ic, ts[1..], v)
  {
  }

  lemma PossibleBase(ic: bool, ts: seq<Token>)
    ensures Possible(ic, Base(ts)) <==> Possible(ic, ts)
  {
    hide Fits;
    BaseStars(ts);
    var b := |Base(ts)|;
    assert forall i :: 0 <= i < b ==> Base(ts)[i] == ts[i];
    assert forall i :: b <= i < |ts| ==> ts[i] == Stars(ts)[i - b];
  }

  /** The matcher and the pattern's meaning agree on every C string unless the pattern ends in two
      stars and stands for any such string at all. */
  lemma AgreeExactly(ic: bool, ts: seq<Token>)
    ensures (forall s :: CString(s) ==> (Accepts(ic, ts, s) <==> Denotes(ic, ts, s))) <==>
              !(EndsInTwoStars(ts) && Possible(ic, ts))
  {
    hide Possible, CString;
    PossibleBase(ic, ts);
    PossibleExactly(ic, Base(ts));
    forall s ensures Accepts(ic, ts, s) <==> Denotes(ic, Meant(ts), s) {
      AcceptsMeant(ic, ts, s);
    }
    MeantIsItself(ts);
    if EndsInTwoStars(ts) {
      BaseStars(ts);
      if w :| CString(w) && Denotes(ic, Base(ts), w) {
        var v := Shortest(ic, Base(ts), w);
        Differ(ic, ts, v);
      } else {
        forall s | CString(s) ensures !Denotes(ic, ts, s) && !Denotes(ic, Meant(ts), s) {
          Neither(ic, ts, s);
        }
      }
    }
  }

  /** `[!\001-\377]**` ends in two stars, but no C string has a character that fits the set, so
      matcher and meaning agree: they refuse everything. */
  lemma NothingFits(ic: bool)
    ensures var ts := Parse([Open, Bang, 1, Hyphen, 255, Close, Asterisk, Asterisk]);
            && EndsInTwoStars(ts) && !Possible(ic, ts)
            && forall s :: CString(s) ==> !Accepts(ic, ts, s) && !Denotes(ic, ts, s)
  {
    var p := [Open, Bang, 1, Hyphen, 255, Close, Asterisk, Asterisk];
    var body := [1, Hyphen, 255];
    var ts := [Set(true, body), Star, Star];
    NothingParse(p, body);
    forall ch: Byte | ch != 0 ensures !Fits(ic, ts[0], ch) {
      InWhole(ic, ch, Case(ic, ch));
      assert Scan(ic, body, 2, 1, false, ch);
      assert Scan(ic, body, 1, 0, false, ch);
    }
    PossibleExactly(ic, ts);
    AgreeExactly(ic, ts);
  }

  lemma InWhole(ic: bool, ch: Byte, x: Byte)
    requires ch != 0 && x == Case(ic, ch)
    ensures InRange(ic, 1, 255, ch)
  {
    assert 1 <= ch <= 255 && Case(ic, ch) == x;
  }

  lemma NothingParse(p: seq<Byte>, body: seq<Byte>)
    requires p == [Open, Bang, 1, Hyphen, 255, Close, Asterisk, Asterisk] && body == [1, Hyphen, 255]
    ensures Parse(p) == [Set(true, body), Star, Star]
  {
    var rest := p[1..];
    assert Closing(rest, 4, false) == Some(4);
    assert Closing(rest, 3, false) == Some(4);
    assert Closing(rest, 2, false) == Some(4);
    assert Closing(rest, 1, false) == Some(4);
    assert rest[1..4] == body && rest[5..] == [Asterisk, Asterisk];
    assert [Asterisk, Asterisk][1..] == [Asterisk] && [Asterisk][1..] == [];
    assert Parse([Asterisk]) == [Star];
    assert Parse([Asterisk, Asterisk]) == [Star, Star];
    assert Parse(p) == [Set(Reversed(rest), rest[1..4])] + Parse(rest[5..]);
  }

  lemma Differ(ic: bool, ts: seq<Token>, v: seq<Byte>)
    requires EndsInTwoStars(ts) && Denotes(ic, Base(ts), v)
    requires forall i :: 0 <= i < |v| ==> !Denotes(ic, Base(ts), v[..i])
    ensures Denotes(ic, ts, v) && !Denotes(ic, Meant(ts), v)
  {
    hide Denotes;
    BaseStars(ts);
    EmptyString(ic, Stars(ts));
    assert v[..|v|] == v && v[|v|..] == [];
    DenotesJoin(ic, Base(ts), Stars(ts), v, |v|);
    if Denotes(ic, Meant(ts), v) {
      var i := DenotesSplit(ic, Base(ts), [Any, Star], v);
      AnyStar(ic, v[i..]);
    }
  }

  lemma Neither(ic: bool, ts: seq<Token>, s: seq<Byte>)
    requires EndsInTwoStars(ts) && CString(s) && forall w :: CString(w) ==> !Denotes(ic, Base(ts), w)
    ensures !Denotes(ic, ts, s) && !Denotes(ic, Meant(ts), s)
  {
    BaseStars(ts);
    if Denotes(ic, ts, s) {
      var i := DenotesSplit(ic, Base(ts), Stars(ts), s);
      assert CString(s[..i]);
    }
    if Denotes(ic, Meant(ts), s) {
      var i := DenotesSplit(ic, Base(ts), [Any, Star], s);
      assert CString(s[..i]);
    }
  }

  // ----- the matcher

  /** Find closing bracket. */
  method FindClose(p: seq<Byte>, start: nat) returns (q: nat)
    requires start <= |p|
    ensures q <= |p|
    ensures Closing(p, start, false) == if q == |p| then None else Some(q)
  {
    q := start;
    var e := false;
    while q < |p|
      invariant start <= q <= |p|
      invariant Closing(p, q, e) == Closing(p, start, false)
    {
      if e {
        e := false;
      } else if p[q] == Escape {
        e := true;
      } else if p[q] == Close {
        return;
      }
      q := q + 1;
    }
  }

  /** Compare range. */
  method CompareRange(ic: bool, lo: Byte, hi: Byte, ch: Byte) returns (hit: bool)
    ensures hit <==> InRange(ic, lo, hi, ch)
  {
    var c: int := lo;
    while c <= hi
      invariant lo <= c <= 256 && (c <= hi + 1 || c == lo)
      invariant forall k: Byte :: lo <= k < c ==> Case(ic, k) != Case(ic, ch)
      decreases hi - c
    {
      if Case(ic, c) == Case(ic, ch) {
        return true;
      }
      c := c + 1;
    }
    return false;
  }

  /** Go through the list. */
  method ScanSet(ic: bool, body: seq<Byte>, ch: Byte) returns (hit: bool)
    ensures hit <==> InSet(ic, body, ch)
  {
    var i: nat, c: Byte, e := 0, 0, body != [] && body[0] == Hyphen;
    while i < |body|
      invariant i <= |body| && (i == 0 && body != [] && body[0] == Hyphen ==> e)
      invariant Scan(ic, body, i, c, e, ch) <==> InSet(ic, body, ch)
    {
      if !e && body[i] == Escape {         // set escape flag if \
        e := true;
      } else if !e && body[i] == Hyphen {  // set start of range if -
        c := body[i - 1];
      } else {
        if !(i + 1 < |body| && body[i + 1] == Hyphen) {
          hit := CompareRange(ic, if c != 0 then c else body[i], body[i], ch);
          if hit {
            return;
          }
        }
        c, e := 0, false;                  // clear range, escape flags
      }
      i := i + 1;
    }
    return false;
  }

  /** The list of characters and ranges at the start of a pattern; `rest` is what follows it. */
  method Bracket(p: seq<Byte>, ch: Byte, ic: bool) returns (ok: bool, rest: seq<Byte>)
    requires p != [] && p[0] == Open
    ensures |rest| < |p| && (CString(p) ==> CString(rest))
    ensures ok <==> Fits(ic, Parse(p)[0], ch)
    ensures ok ==> Parse(p)[0] != Star && Parse(p)[1..] == Parse(rest)
  {
    hide InSet;
    rest := p[1..];
    var rev := Reversed(rest);
    var start := SetStart(rest);
    var q := FindClose(rest, start);
    if q == |rest| {
      assert Parse(p) == [Bad];
      return false, rest;  // nothing matches if bad syntax
    }
    var body := rest[start..q];
    rest := rest[q + 1..];
    assert Parse(p) == [Set(rev, body)] + Parse(rest);
    var hit := ScanSet(ic, body, ch);
    ok := hit != rev;
  }

  /** No suffix of the string is accepted. */
  ghost predicate Hopeless(ic: bool, ts: seq<Token>, s: seq<Byte>) {
    forall i: nat :: i <= |s| ==> !Accepts(ic, ts, s[i..])
  }

  /** A character that fits and a hopeless rest are hopeless together. */
  lemma HopelessStep(ic: bool, ts: seq<Token>, s: seq<Byte>)
    requires ts != [] && ts[0] != Star && s != [] && Hopeless(ic, ts[1..], s[1..])
    ensures Hopeless(ic, ts, s)
  {
    forall i: nat | i <= |s| ensures !Accepts(ic, ts, s[i..]) {
      if i < |s| {
        assert s[i..][1..] == s[1..][i..];
        assert !Accepts(ic, ts[1..], s[1..][i..]);
      }
    }
  }

  lemma HopelessStar(ic: bool, ts: seq<Token>, s: seq<Byte>, k: nat)
    requires |ts| > 1 && ts[0] == Star && k <= |s|
    requires forall i: nat :: i < k ==> !Accepts(ic, ts[1..], s[i..])
    requires k < |s| ==> Hopeless(ic, ts[1..], s[k..])
    ensures Hopeless(ic, ts, s)
  {
    forall i: nat | i <= |s| ensures !Accepts(ic, ts, s[i..]) {
      forall j: nat | j < |s[i..]| ensures !Accepts(ic, ts[1..], s[i..][j..]) {
        assert s[i..][j..] == s[i + j..];
        if i + j >= k {
          assert s[i + j..] == s[k..][i + j - k..];
        }
      }
    }
  }

  /** `recmatch`: 1 for a match, 0 for none, and 2 for none here nor anywhere further on. */
  method RecMatch(p: seq<Byte>, s: seq<Byte>, ic: bool) returns (r: nat)
    requires CString(p) && CString(s)
    ensures r <= 2
    ensures r == 1 <==> Accepts(ic, Parse(p), s)
    ensures r == 2 ==> Hopeless(ic, Parse(p), s)
    decreases |p|
  {
    var ts: seq<Token> := Parse(p);
    if p == [] {
      return if s == [] then 1 else 0;
    }
    var c := p[0];
    if c == Question {
      if s == [] {
        return 0;
      }
      assert ts[1..] == Parse(p[1..]);
      r := RecMatch(p[1..], s[1..], ic);
      if r == 2 {
        HopelessStep(ic, ts, s);
      }
      return;
    }
    if c == Asterisk {
      if p[1..] == [] {
        assert ts[1..] == [];
        return 1;
      }
      assert ts[1..] == Parse(p[1..]);
      var k: nat := 0;
      while k < |s|
        invariant k <= |s|
        invariant forall i: nat :: i < k ==> !Accepts(ic, ts[1..], s[i..])
      {
        r := RecMatch(p[1..], s[k..], ic);
        if r != 0 {
          if r == 2 {
            HopelessStar(ic, ts, s, k);
            assert s[0..] == s;
          }
          return;
        }
        k := k + 1;
      }
      HopelessStar(ic, ts, s, k);
      assert s[0..] == s;
      return 2;  // give up
    }
    if c == Open {
      if s == [] {
        return 0;
      }
      var ok, rest := Bracket(p, s[0], ic);
      if !ok {
        return 0;
      }
      r := RecMatch(rest, s[1..], ic);
      if r == 2 {
        HopelessStep(ic, ts, s);
      }
      return;
    }
    var tail := p[1..];
    if c == Escape {
      if tail == [] {
        return 0;  // if \ at end, then syntax error
      }
      c, tail := tail[0], tail[1..];
    }
    assert ts == [Lit(c)] + Parse(tail);
    assert ts[1..] == Parse(tail);
    // just a character--compare it; at the end of the string that is with the zero byte
    if s == [] || Case(ic, c) != Case(ic, s[0]) {
      return 0;
    }
    r := RecMatch(tail, s[1..], ic);
    if r == 2 {
      HopelessStep(ic, ts, s);
    }
  }

  /** `match`: true iff the string is one that the pattern stands for, two or more stars at the
      very end of the pattern standing for at least one character. */
  method Match(string_: seq<Byte>, pattern: seq<Byte>, ic: bool) returns (m: bool)
    requires CString(string_) && CString(pattern)
    ensures m <==> Denotes(ic, Meant(Parse(pattern)), string_)
    ensures !EndsInTwoStars(Parse(pattern)) ==> (m <==> Denotes(ic, Parse(pattern), string_))
  {
    var r := RecMatch(pattern, string_, ic);
    AcceptsMeant(ic, Parse(pattern), string_);
    MeantIsItself(Parse(pattern));
    m := r == 1;
  }
}
