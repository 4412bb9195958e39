/** File name patterns in plain characters: how they are written, and what they stand for, without
  a parser and without case folding.  `match` finds exactly that. */
module MatchText {
  import opened Wrappers
  import opened Bits
  import opened Match

  /** What a pattern is made of.  A set is of characters and ranges of characters. */
  datatype Wild = AnyOne | Many | Plain(c: Byte) | OneOf(rev: bool, items: seq<Element>)

  datatype Element = Single(c: Byte) | Span(a: Byte, b: Byte)

  // ----- writing a pattern

  /** A character in a set, with a backslash before it if it would mean something else. */
  function Quoted(c: Byte): (t: seq<Byte>)
    ensures 1 <= |t| <= 2
  {
    if c in {'\\' as int, '-' as int, ']' as int, '!' as int, '^' as int} then ['\\' as int, c] else [c]
  }

  function ElementText(e: Element): (t: seq<Byte>)
    ensures t != []
  {
    match e
    case Single(c) => Quoted(c)
    case Span(a, b) => Quoted(a) + ['-' as int] + Quoted(b)
  }

  function ElementsText(es: seq<Element>): seq<Byte> {
    if es == [] then [] else ElementText(es[0]) + ElementsText(es[1..])
  }

  function WildText(w: Wild): seq<Byte> {
    match w
    case AnyOne => ['?' as int]
    case Many => ['*' as int]
    case Plain(c) => if c in {'?' as int, '*' as int, '[' as int, '\\' as int} then ['\\' as int, c] else [c]
    case OneOf(rev, items) => ['[' as int] + (if rev then ['!' as int] else []) + ElementsText(items) + [']' as int]
  }

  function Text(ws: seq<Wild>): seq<Byte> {
    if ws == [] then [] else WildText(ws[0]) + Text(ws[1..])
  }

  /** There are no zero bytes in a set. */
  predicate WildOk(w: Wild) {
    w.OneOf? ==> forall i :: 0 <= i < |w.items| ==>
                 match w.items[i]
                 case Single(c) => c != 0
                 case Span(a, b) => a != 0 && b != 0
  }

  // ----- what it stands for

  /** The same character, or, if letter case is ignored, the same letter. */
  ghost predicate Same(ic: bool, x: Byte, y: Byte) {
    || x == y
    || (ic && exists k :: 0 <= k < 26 &&
                var (u, l) := ("ABCDEFGHIJKLMNOPQRSTUVWXYZ"[k] as int, "abcdefghijklmnopqrstuvwxyz"[k] as int);
                (x == u && y == l) || (x == l && y == u))
  }

  ghost predicate ElementHas(ic: bool, e: Element, ch: Byte) {
    match e
    case Single(c) => Same(ic, c, ch)
    case Span(a, b) => exists k: Byte :: a <= k <= b && Same(ic, k, ch)
  }

  ghost predicate WildFits(ic: bool, w: Wild, ch: Byte) {
    match w
    case AnyOne => true
    case Many => false
    case Plain(c) => Same(ic, c, ch)
    case OneOf(rev, items) => (exists i :: 0 <= i < |items| && ElementHas(ic, items[i], ch)) != rev
  }

  function Joined(cuts: seq<seq<Byte>>): seq<Byte> {
    if cuts == [] then [] else cuts[0] + Joined(cuts[1..])
  }

  /** The string cut into pieces, one for each part of the pattern: anything at all for a star, and
      one fitting character for every other part. */
  ghost predicate CutFor(ic: bool, ws: seq<Wild>, cuts: seq<seq<Byte>>) {
    |cuts| == |ws| && forall i :: 0 <= i < |ws| ==> PieceFor(ic, ws[i], cuts[i])
  }

  ghost predicate PieceFor(ic: bool, w: Wild, piece: seq<Byte>) {
    w.Many? || (|piece| == 1 && WildFits(ic, w, piece[0]))
  }

  ghost predicate StandsFor(ic: bool, ws: seq<Wild>, s: seq<Byte>) {
    exists cuts :: CutFor(ic, ws, cuts) && Joined(cuts) == s
  }

  // ----- the characters of the matcher

  lemma Letters(k: nat)
    requires k < 26
    ensures "ABCDEFGHIJKLMNOPQRSTUVWXYZ"[k] as int == 65 + k
    ensures "abcdefghijklmnopqrstuvwxyz"[k] as int == 97 + k
  {
    if k < 7 {
    } else if k < 14 {
    } else if k < 20 {
    } else {
    }
  }

  /** Folding letter case is telling letters from their two tables. */
  lemma SameIs(ic: bool, x: Byte, y: Byte)
    ensures Same(ic, x, y) <==> Case(ic, x) == Case(ic, y)
  {
    if ic {
      forall k: nat | k < 26
        ensures "ABCDEFGHIJKLMNOPQRSTUVWXYZ"[k] as int == 65 + k && "abcdefghijklmnopqrstuvwxyz"[k] as int == 97 + k
      {
        Letters(k);
      }
      if Case(ic, x) == Case(ic, y) && x != y {
        var k: int := if x < y then x - 65 else y - 65;
        assert 0 <= k < 26;
        Letters(k);
        var u, l := "ABCDEFGHIJKLMNOPQRSTUVWXYZ"[k] as int, "abcdefghijklmnopqrstuvwxyz"[k] as int;
        assert (x == u && y == l) || (x == l && y == u);
      }
    }
  }

  function TheUnit(c: Byte): Unit {
    Unit(c, c in {'\\' as int, '-' as int, ']' as int, '!' as int, '^' as int})
  }

  function TheItem(e: Element): Item {
    match e
    case Single(c) => Item.One(TheUnit(c))
    case Span(a, b) => Item.Range(TheUnit(a), TheUnit(b))
  }

  function TheItems(es: seq<Element>): (r: seq<Item>)
    ensures |r| == |es|
  {
    seq(|es|, i requires 0 <= i < |es| => TheItem(es[i]))
  }

  lemma ElementIs(e: Element)
    requires e.Single? ==> e.c != 0
    requires e.Span? ==> e.a != 0 && e.b != 0
    ensures TheItem(e).Valid() && TheItem(e).Text() == ElementText(e)
  {
  }

  lemma {:induction false} ElementsAre(es: seq<Element>)
    requires WildOk(OneOf(false, es))
    ensures SetText(TheItems(es)) == ElementsText(es) && forall i :: 0 <= i < |es| ==> TheItems(es)[i].Valid()
    decreases |es|
  {
    if es != [] {
      assert TheItems(es)[1..] == TheItems(es[1..]);
      assert forall i :: 0 <= i < |es[1..]| ==> es[1..][i] == es[i + 1];
      ElementIs(es[0]);
      ElementsAre(es[1..]);
      assert forall i :: 1 <= i < |es| ==> TheItems(es)[i] == TheItems(es[1..])[i - 1];
    }
  }

  function TokenOf(w: Wild): Token {
    match w
    case AnyOne => Any
    case Many => Star
    case Plain(c) => Lit(c)
    case OneOf(rev, items) => Token.Set(rev, ElementsText(items))
  }

  function Tokens(ws: seq<Wild>): (r: seq<Token>)
    ensures |r| == |ws|
  {
    seq(|ws|, i requires 0 <= i < |ws| => TokenOf(ws[i]))
  }

  lemma ItemHas(ic: bool, e: Element, ch: Byte)
    ensures TheItem(e).Has(ic, ch) <==> ElementHas(ic, e, ch)
  {
    forall k: Byte ensures Same(ic, k, ch) <==> Case(ic, k) == Case(ic, ch) {
      SameIs(ic, k, ch);
    }
  }

  lemma FitsIs(ic: bool, w: Wild, ch: Byte)
    requires WildOk(w)
    ensures Fits(ic, TokenOf(w), ch) <==> WildFits(ic, w, ch)
  {
    hide InSet, Same, Case, Item.Has, ElementHas;
    match w
    case AnyOne =>
    case Many =>
    case Plain(c) => SameIs(ic, c, ch);
    case OneOf(rev, items) =>
      ElementsAre(items);
      SetContains(ic, TheItems(items), ch);
      forall i | 0 <= i < |items| ensures TheItems(items)[i].Has(ic, ch) <==> ElementHas(ic, items[i], ch) {
        ItemHas(ic, items[i], ch);
      }
  }

  // ----- the pattern is read as it was written

  lemma ClosingQuoted(p: seq<Byte>, i: nat, c: Byte)
    requires i + |Quoted(c)| <= |p| && p[i..i + |Quoted(c)|] == Quoted(c)
    ensures Closing(p, i, false) == Closing(p, i + |Quoted(c)|, false)
  {
    var t := Quoted(c);
    assert p[i] == p[i..i + |t|][0] == t[0];
    if |t| == 2 {
      assert Closing(p, i, false) == Closing(p, i + 1, true);
    }
  }

  lemma ClosingHyphen(p: seq<Byte>, i: nat)
    requires i < |p| && p[i] == '-' as int
    ensures Closing(p, i, false) == Closing(p, i + 1, false)
  {
  }

  lemma ClosingElement(p: seq<Byte>, i: nat, e: Element)
    requires i + |ElementText(e)| <= |p| && p[i..i + |ElementText(e)|] == ElementText(e)
    ensures Closing(p, i, false) == Closing(p, i + |ElementText(e)|, false)
  {
    hide Closing, Quoted;
    match e
    case Single(c) => ClosingQuoted(p, i, c);
    case Span(a, b) =>
      var t := p[i..i + |ElementText(e)|];
      var n := |Quoted(a)|;
      assert t == Quoted(a) + (['-' as int] + Quoted(b));
      assert p[i..i + n] == t[..n] == Quoted(a);
      assert p[i + n] == t[n] == '-' as int;
      assert p[i + n + 1..i + |t|] == t[n + 1..] == Quoted(b);
      ClosingQuoted(p, i, a);
      ClosingHyphen(p, i + n);
      ClosingQuoted(p, i + n + 1, b);
  }

  lemma {:induction false} ClosingElements(p: seq<Byte>, i: nat, es: seq<Element>)
    requires i + |ElementsText(es)| < |p| && p[i..i + |ElementsText(es)|] == ElementsText(es)
    requires p[i + |ElementsText(es)|] == ']' as int
    ensures Closing(p, i, false) == Some(i + |ElementsText(es)|)
    decreases |es|
  {
    hide ElementText;
    if es != [] {
      var t, n := ElementsText(es), |ElementText(es[0])|;
      assert p[i..i + n] == p[i..i + |t|][..n] == ElementText(es[0]);
      assert p[i + n..i + |t|] == p[i..i + |t|][n..] == ElementsText(es[1..]);
      ClosingElement(p, i, es[0]);
      ClosingElements(p, i + n, es[1..]);
    }
  }

  lemma NoBang(es: seq<Element>, rest: seq<Byte>)
    ensures !Reversed(ElementsText(es) + [']' as int] + rest)
  {
    if es != [] {
      var t := ElementText(es[0]);
      assert (ElementsText(es) + [']' as int] + rest)[0] == t[0];
    }
  }

  lemma SetParsed(rev: bool, es: seq<Element>, rest: seq<Byte>)
    ensures Parse(WildText(OneOf(rev, es)) + rest) == [Token.Set(rev, ElementsText(es))] + Parse(rest)
  {
    hide ElementsText, Parse, Closing;
    var body := ElementsText(es);
    var p := WildText(OneOf(rev, es)) + rest;
    var inner := (if rev then ['!' as int] else []) + body + [']' as int] + rest;
    assert p[1..] == inner && p[0] == '[' as int;
    var n: nat := if rev then 1 else 0;
    if !rev {
      NoBang(es, rest);
      assert inner == body + [']' as int] + rest;
    }
    assert Reversed(inner) == rev && SetStart(inner) == n;
    assert inner[n..n + |body|] == body && inner[n + |body|] == ']' as int && inner[n + |body| + 1..] == rest;
    ClosingElements(inner, n, es);
    BracketParsed(p, n + |body|);
  }

  lemma BracketParsed(p: seq<Byte>, q: nat)
    requires p != [] && p[0] == '[' as int && Closing(p[1..], SetStart(p[1..]), false) == Some(q)
    ensures q < |p[1..]|
    ensures Parse(p) == [Token.Set(Reversed(p[1..]), p[1..][SetStart(p[1..])..q])] + Parse(p[1..][q + 1..])
  {
    hide Closing;
  }

  lemma OtherParsed(w: Wild, rest: seq<Byte>)
    requires !w.OneOf?
    ensures Parse(WildText(w) + rest) == [TokenOf(w)] + Parse(rest)
  {
    var p := WildText(w) + rest;
    assert |WildText(w)| == 1 ==> p[1..] == rest;
    assert |WildText(w)| == 2 ==> p[2..] == rest;
  }

  /** A pattern is read as it was written. */
  lemma {:induction false} TextParsed(ws: seq<Wild>)
    ensures Parse(Text(ws)) == Tokens(ws)
    decreases |ws|
  {
    hide WildText, Parse;
    if ws == [] {
      ParseNil();
    } else {
      TextParsed(ws[1..]);
      if ws[0].OneOf? {
        SetParsed(ws[0].rev, ws[0].items, Text(ws[1..]));
      } else {
        OtherParsed(ws[0], Text(ws[1..]));
      }
      assert Tokens(ws) == [TokenOf(ws[0])] + Tokens(ws[1..]);
    }
  }

  lemma ParseNil()
    ensures Parse([]) == []
  {
  }

  // ----- cutting the string

  lemma CutCons(ic: bool, ws: seq<Wild>, cuts: seq<seq<Byte>>)
    requires ws != [] && |cuts| == |ws|
    ensures CutFor(ic, ws, cuts) <==> PieceFor(ic, ws[0], cuts[0]) && CutFor(ic, ws[1..], cuts[1..])
  {
    hide PieceFor;
    if PieceFor(ic, ws[0], cuts[0]) && CutFor(ic, ws[1..], cuts[1..]) {
      forall i | 0 <= i < |ws| ensures PieceFor(ic, ws[i], cuts[i]) {
        if i > 0 {
          assert PieceFor(ic, ws[1..][i - 1], cuts[1..][i - 1]);
        }
      }
    }
    if CutFor(ic, ws, cuts) {
      forall i | 0 <= i < |ws| - 1 ensures PieceFor(ic, ws[1..][i], cuts[1..][i]) {
        assert PieceFor(ic, ws[i + 1], cuts[i + 1]);
      }
    }
  }

  lemma StandsCons(ic: bool, ws: seq<Wild>, piece: seq<Byte>, rest: seq<Byte>)
    requires ws != [] && PieceFor(ic, ws[0], piece) && StandsFor(ic, ws[1..], rest)
    ensures StandsFor(ic, ws, piece + rest)
  {
    hide PieceFor, CutFor;
    var cuts :| CutFor(ic, ws[1..], cuts) && Joined(cuts) == rest;
    CutSize(ic, ws[1..], cuts);
    var all := [piece] + cuts;
    assert all[1..] == cuts;
    CutCons(ic, ws, all);
    assert CutFor(ic, ws, all) && Joined(all) == piece + rest;
  }

  lemma CutSize(ic: bool, ws: seq<Wild>, cuts: seq<seq<Byte>>)
    requires CutFor(ic, ws, cuts)
    ensures |cuts| == |ws|
  {
  }

  lemma StandsParts(ic: bool, ws: seq<Wild>, s: seq<Byte>) returns (i: nat)
    requires ws != [] && StandsFor(ic, ws, s)
    ensures i <= |s| && PieceFor(ic, ws[0], s[..i]) && StandsFor(ic, ws[1..], s[i..])
  {
    hide PieceFor, CutFor;
    var cuts :| CutFor(ic, ws, cuts) && Joined(cuts) == s;
    CutSize(ic, ws, cuts);
    CutCons(ic, ws, cuts);
    i := |cuts[0]|;
    assert s == cuts[0] + Joined(cuts[1..]);
    assert s[..i] == cuts[0] && s[i..] == Joined(cuts[1..]);
  }

  lemma StandsNil(ic: bool, s: seq<Byte>)
    ensures StandsFor(ic, [], s) <==> s == []
  {
    var cuts: seq<seq<Byte>> := [];
    assert CutFor(ic, [], cuts) && Joined(cuts) == [];
  }

  /** What the tokens denote is what the pattern stands for. */
  lemma {:induction false} DenotesStands(ic: bool, ws: seq<Wild>, s: seq<Byte>)
    requires forall i :: 0 <= i < |ws| ==> WildOk(ws[i])
    ensures Denotes(ic, Tokens(ws), s) <==> StandsFor(ic, ws, s)
    decreases |ws|
  {
    hide WildOk, Fits, WildFits, StandsFor, Denotes;
    DenotesUnfold(ic, Tokens(ws), s);
    if ws == [] {
      StandsNil(ic, s);
    } else {
      assert Tokens(ws)[1..] == Tokens(ws[1..]);
      if StandsFor(ic, ws, s) {
        var i := StandsParts(ic, ws, s);
        DenotesStands(ic, ws[1..], s[i..]);
        if !ws[0].Many? {
          FitsIs(ic, ws[0], s[0]);
        }
      }
      if Denotes(ic, Tokens(ws), s) {
        var i: nat;
        if ws[0].Many? {
          i :| i <= |s| && Denotes(ic, Tokens(ws)[1..], s[i..]);
        } else {
          i := 1;
          FitsIs(ic, ws[0], s[0]);
        }
        DenotesStands(ic, ws[1..], s[i..]);
        StandsCons(ic, ws, s[..i], s[i..]);
        assert s[..i] + s[i..] == s;
      }
    }
  }

  lemma DenotesUnfold(ic: bool, ts: seq<Token>, s: seq<Byte>)
    ensures Denotes(ic, ts, s) <==>
              if ts == [] then s == []
              else if ts[0] == Star then exists i: nat :: i <= |s| && Denotes(ic, ts[1..], s[i..])
              else s != [] && Fits(ic, ts[0], s[0]) && Denotes(ic, ts[1..], s[1..])
  {
    hide Fits;
  }

  /** The pattern does not end in two stars. */
  predicate Ordinary(ws: seq<Wild>) {
    |ws| < 2 || !ws[|ws| - 1].Many? || !ws[|ws| - 2].Many?
  }

  /** For any pattern but those, `match` is true exactly for the strings that it stands for. */
  lemma TextMatches(ic: bool, ws: seq<Wild>, s: seq<Byte>)
    requires (forall i :: 0 <= i < |ws| ==> WildOk(ws[i])) && Ordinary(ws)
    ensures Denotes(ic, Meant(Parse(Text(ws))), s) <==> StandsFor(ic, ws, s)
  {
    hide WildOk, Denotes, StandsFor, Meant, Parse;
    TextParsed(ws);
    MeantIsItself(Tokens(ws));
    DenotesStands(ic, ws, s);
  }

  /** With stars at its end, two or more, it asks for at least one character there. */
  lemma StarsMatch(ic: bool, ws: seq<Wild>, n: nat, s: seq<Byte>)
    requires (forall i :: 0 <= i < |ws| ==> WildOk(ws[i])) && (ws != [] ==> !ws[|ws| - 1].Many?) && n >= 2
    ensures Denotes(ic, Meant(Parse(Text(ws + seq(n, _ => Many)))), s) <==> StandsFor(ic, ws + [AnyOne, Many], s)
  {
    hide WildOk, Denotes, StandsFor, Parse, Text, Meant, Base, Stars;
    var stars := seq(n, _ => Many);
    var all, read := ws + stars, ws + [AnyOne, Many];
    TextParsed(all);
    BaseStars(Tokens(all));
    assert Tokens(all) == Tokens(ws) + Tokens(stars);
    BaseOf(Tokens(ws), Tokens(stars));
    assert Tokens(read) == Tokens(ws) + [Any, Star];
    assert WildOk(AnyOne) && WildOk(Many) by {
      StarsOk();
    }
    DenotesStands(ic, read, s);
  }

  lemma StarsOk()
    ensures WildOk(AnyOne) && WildOk(Many)
  {
  }

  lemma {:induction false} BaseOf(ts: seq<Token>, stars: seq<Token>)
    requires OnlyStars(stars) && (ts != [] ==> ts[|ts| - 1] != Star)
    ensures Base(ts + stars) == ts
    decreases |ts|
  {
    if ts == [] {
      assert ts + stars == stars;
    } else {
      var all := ts + stars;
      assert all[|ts| - 1] == ts[|ts| - 1];
      assert all[1..] == ts[1..] + stars;
      BaseOf(ts[1..], stars);
    }
  }

  /** A pattern without wildcards matches itself, and, if letter case is ignored, what differs from
      it in that. */
  lemma PlainMatches(ic: bool, p: seq<Byte>, s: seq<Byte>)
    requires forall i :: 0 <= i < |p| ==> p[i] !in {'?' as int, '*' as int, '[' as int, '\\' as int}
    ensures Denotes(ic, Meant(Parse(p)), s) <==> |s| == |p| && forall i :: 0 <= i < |p| ==> Same(ic, p[i], s[i])
    ensures Denotes(false, Meant(Parse(p)), s) <==> s == p
  {
    hide Denotes, Same, Parse, Meant;
    var ws := seq(|p|, i requires 0 <= i < |p| => Plain(p[i]));
    PlainText(p);
    TextMatches(ic, ws, s);
    TextMatches(false, ws, s);
    PlainStands(ic, p, s);
    PlainStands(false, p, s);
    forall x: Byte, y: Byte ensures Same(false, x, y) <==> x == y {
      ExactSame(x, y);
    }
    assert |s| == |p| && (forall i :: 0 <= i < |p| ==> p[i] == s[i]) ==> s == p;
  }

  lemma ExactSame(x: Byte, y: Byte)
    ensures Same(false, x, y) <==> x == y
  {
  }

  lemma {:induction false} PlainText(p: seq<Byte>)
    requires forall i :: 0 <= i < |p| ==> p[i] !in {'?' as int, '*' as int, '[' as int, '\\' as int}
    ensures Text(seq(|p|, i requires 0 <= i < |p| => Plain(p[i]))) == p
    decreases |p|
  {
    if p != [] {
      var ws, front := seq(|p|, i requires 0 <= i < |p| => Plain(p[i])), p[1..];
      PlainText(front);
      assert ws[1..] == seq(|front|, i requires 0 <= i < |front| => Plain(front[i]));
      assert [p[0]] + front == p;
    }
  }

  lemma {:induction false} PlainStands(ic: bool, p: seq<Byte>, s: seq<Byte>)
    ensures StandsFor(ic, seq(|p|, i requires 0 <= i < |p| => Plain(p[i])), s) <==>
              |s| == |p| && forall i :: 0 <= i < |p| ==> Same(ic, p[i], s[i])
    decreases |p|
  {
    hide Same, StandsFor;
    var ws := seq(|p|, i requires 0 <= i < |p| => Plain(p[i]));
    if p == [] {
      StandsNil(ic, s);
      assert ws == [];
    } else {
      var front := p[1..];
      assert ws[1..] == seq(|front|, i requires 0 <= i < |front| => Plain(front[i]));
      if StandsFor(ic, ws, s) {
        var i := StandsParts(ic, ws, s);
        PlainStands(ic, front, s[1..]);
        assert forall j :: 1 <= j < |p| ==> p[j] == front[j - 1] && s[j] == s[1..][j - 1];
      }
      if |s| == |p| && forall i :: 0 <= i < |p| ==> Same(ic, p[i], s[i]) {
        assert forall j :: 0 <= j < |front| ==> front[j] == p[j + 1] && s[1..][j] == s[j + 1];
        PlainStands(ic, front, s[1..]);
        assert PieceFor(ic, ws[0], [s[0]]);
        StandsCons(ic, ws, [s[0]], s[1..]);
        assert [s[0]] + s[1..] == s;
      }
    }
  }
}
