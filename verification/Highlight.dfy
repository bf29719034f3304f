/**
 Rendering a search result: the text between two positions, HTML-escaped, with the matched
 stretches wrapped in a highlighting span. Reading the markup back gives exactly the escaped text,
 with exactly the characters inside a boundary pair marked.
 */
module Highlight {

  // ----- escaping -----

  function ReplaceAll(s: string, c: char, with: string): string {
    if s == [] then [] else (if s[0] == c then with else [s[0]]) + ReplaceAll(s[1..], c, with)
  }

  function EscapeHtml(s: string): string {
    ReplaceAll(ReplaceAll(s, '<', "&lt;"), '>', "&gt;")
  }

  function EscapeChar(c: char): string {
    if c == '<' then "&lt;" else if c == '>' then "&gt;" else [c]
  }

  function Escaped(s: string): string {
    if s == [] then [] else Escaped(s[..|s| - 1]) + EscapeChar(s[|s| - 1])
  }

  lemma {:induction false} ReplaceConcat(a: string, b: string, c: char, with: string)
    ensures ReplaceAll(a + b, c, with) == ReplaceAll(a, c, with) + ReplaceAll(b, c, with)
  {
    if a == [] {
      assert a + b == b;
    } else {
      assert (a + b)[1..] == a[1..] + b;
      ReplaceConcat(a[1..], b, c, with);
    }
  }

  /** The two replacements, one after the other, escape character by character. */
  lemma {:induction false} EscapeIsPerChar(s: string)
    ensures EscapeHtml(s) == Escaped(s)
  {
    if s != [] {
      var n := |s| - 1;
      var front, last := s[..n], [s[n]];
      assert s == front + last;
      ReplaceConcat(front, last, '<', "&lt;");
      ReplaceConcat(ReplaceAll(front, '<', "&lt;"), ReplaceAll(last, '<', "&lt;"), '>', "&gt;");
      EscapeIsPerChar(front);
      EscapeOne(s[n]);
    }
  }

  lemma ReplaceOne(c: char, d: char, with: string)
    ensures ReplaceAll([c], d, with) == if c == d then with else [c]
  {
    assert [c][1..] == [];
    assert ReplaceAll([], d, with) == [];
  }

  lemma EscapeOne(c: char)
    ensures EscapeHtml([c]) == EscapeChar(c)
  {
    ReplaceOne(c, '<', "&lt;");
    ReplaceOne(c, '>', "&gt;");
    ReplaceAbsent("&lt;", '>', "&gt;");
  }

  lemma {:induction false} ReplaceAbsent(s: string, c: char, with: string)
    requires c !in s
    ensures ReplaceAll(s, c, with) == s
  {
    if s != [] {
      ReplaceAbsent(s[1..], c, with);
      assert s == [s[0]] + s[1..];
    }
  }

  /** Escaped text contains no bracket, so nothing in it is read as markup. */
  lemma {:induction false} EscapedHasNoTags(s: string)
    ensures '<' !in Escaped(s) && '>' !in Escaped(s)
  {
    if s != [] {
      EscapedHasNoTags(s[..|s| - 1]);
    }
  }

  /** What a browser shows for escaped text: the two entities stand for their characters. */
  function Decode(s: string): string
    decreases |s|
  {
    if s == "" then ""
    else if "&lt;" <= s then "<" + Decode(s[4..])
    else if "&gt;" <= s then ">" + Decode(s[4..])
    else [s[0]] + Decode(s[1..])
  }

  lemma {:induction false} EscapedSplits(a: string, b: string)
    ensures Escaped(a + b) == Escaped(a) + Escaped(b)
    decreases |b|
  {
    if b == "" {
      assert a + b == a;
    } else {
      var n := |b| - 1;
      var all := a + b;
      assert all[..|all| - 1] == a + b[..n] && all[|all| - 1] == b[n];
      EscapedSplits(a, b[..n]);
      Associative(Escaped(a), Escaped(b[..n]), EscapeChar(b[n]));
    }
  }

  lemma EscapedFirst(s: string)
    requires s != ""
    ensures Escaped(s) == EscapeChar(s[0]) + Escaped(s[1..])
  {
    assert s == [s[0]] + s[1..];
    EscapedSplits([s[0]], s[1..]);
    EscapedOne(s[0]);
  }

  lemma EscapedOne(c: char)
    ensures Escaped([c]) == EscapeChar(c)
  {
    var s := [c];
    assert s[..|s| - 1] == "" && Escaped("") == "";
    assert "" + EscapeChar(c) == EscapeChar(c);
  }

  predicate IsPlain(c: char) {
    c != '<' && c != '>' && c != '&'
  }

  lemma PrefixNext(p: string, s: string)
    requires p != "" && s != ""
    ensures p <= s <==> p[0] == s[0] && p[1..] <= s[1..]
    ensures |p| <= |s| ==> s[|p|..] == s[1..][|p| - 1..]
  {
    if p[0] == s[0] && p[1..] <= s[1..] {
      assert p == [p[0]] + p[1..] && s == [s[0]] + s[1..];
    }
  }

  lemma FirstEscaped(s: string, c: char)
    requires s != "" && IsPlain(c)
    ensures Escaped(s) != "" && (Escaped(s)[0] == c <==> s[0] == c)
    ensures s[0] == c ==> Escaped(s)[1..] == Escaped(s[1..])
  {
    EscapedFirst(s);
    if s[0] == c {
      assert Escaped(s) == [c] + Escaped(s[1..]);
    }
  }

  /** A text begins the same way before and after escaping, as far as neither bracket nor ampersand occurs. */
  lemma {:induction false} PlainPrefix(s: string, p: string)
    requires forall i | 0 <= i < |p| :: IsPlain(p[i])
    ensures p <= Escaped(s) <==> p <= s
    ensures p <= s ==> Escaped(s)[|p|..] == Escaped(s[|p|..])
    decreases |p|
  {
    if p == "" {
      assert s[0..] == s && Escaped(s)[0..] == Escaped(s);
    } else if s != "" {
      FirstEscaped(s, p[0]);
      PrefixNext(p, s);
      PrefixNext(p, Escaped(s));
      if s[0] == p[0] {
        PlainPrefix(s[1..], p[1..]);
      }
    }
  }

  /** Escaping neither makes nor breaks an entity of the text. */
  lemma EntityStays(s: string, entity: string, rest: string)
    requires s != "" && s[0] != '<' && s[0] != '>' && entity == "&" + rest && |rest| == 3
    requires forall i | 0 <= i < |rest| :: IsPlain(rest[i])
    ensures Escaped(s) != "" && Escaped(s)[0] == s[0] && Escaped(s)[1..] == Escaped(s[1..])
    ensures entity <= Escaped(s) <==> entity <= s
    ensures entity <= s ==> Escaped(s)[4..] == Escaped(s[4..])
  {
    var e := Escaped(s);
    EscapedFirst(s);
    assert e[1..] == Escaped(s[1..]);
    PlainPrefix(s[1..], rest);
    EntityIff(s, entity, rest);
    EntityIff(e, entity, rest);
    if entity <= s {
      assert s[4..] == s[1..][3..] && e[4..] == e[1..][3..];
    }
  }

  lemma DecodeLess(rest: string)
    ensures Decode("&lt;" + rest) == "<" + Decode(rest)
  {
    assert ("&lt;" + rest)[4..] == rest;
  }

  lemma DecodeGreater(rest: string)
    ensures Decode("&gt;" + rest) == ">" + Decode(rest)
  {
    var e := "&gt;" + rest;
    assert e[4..] == rest && e[1] == 'g' && "&lt;"[1] == 'l';
  }

  lemma BracketDecodes(s: string)
    requires s != "" && (s[0] == '<' || s[0] == '>')
    ensures Decode(Escaped(s)) == [s[0]] + Decode(Escaped(s[1..]))
  {
    EscapedFirst(s);
    if s[0] == '<' {
      DecodeLess(Escaped(s[1..]));
    } else {
      DecodeGreater(Escaped(s[1..]));
    }
  }

  /** An escaped text is shown as the text itself is, brackets and all; entities that the text contains are not
      protected. */
  lemma {:induction false} ShownAsText(s: string)
    ensures Decode(Escaped(s)) == Decode(s)
    decreases |s|
  {
    if s != "" {
      if s[0] == '<' || s[0] == '>' {
        BracketDecodes(s);
        ShownAsText(s[1..]);
      } else {
        EntityStays(s, "&lt;", "lt;");
        EntityStays(s, "&gt;", "gt;");
        if "&lt;" <= s || "&gt;" <= s {
          ShownAsText(s[4..]);
        } else {
          ShownAsText(s[1..]);
        }
      }
    }
  }

  lemma EntityIff(s: string, entity: string, rest: string)
    requires s != "" && entity == "&" + rest
    ensures entity <= s <==> s[0] == '&' && rest <= s[1..]
  {
    if s[0] == '&' && rest <= s[1..] {
      assert s == [s[0]] + s[1..];
      assert s[..|entity|] == entity;
    }
    if entity <= s {
      assert s[1..][..|rest|] == s[..|entity|][1..] == rest;
    }
  }

  predicate StartsEntity(s: string) {
    "&lt;" <= s || "&gt;" <= s
  }

  ghost predicate HasEntity(s: string) {
    exists i | 0 <= i < |s| :: StartsEntity(s[i..])
  }

  lemma HasEntityNext(s: string)
    requires s != ""
    ensures HasEntity(s) <==> StartsEntity(s) || HasEntity(s[1..])
  {
    assert s[0..] == s;
    if HasEntity(s[1..]) {
      var i :| 0 <= i < |s[1..]| && StartsEntity(s[1..][i..]);
      assert s[1..][i..] == s[i + 1..];
    }
    if HasEntity(s) {
      var i :| 0 <= i < |s| && StartsEntity(s[i..]);
      if i > 0 {
        assert s[1..][i - 1..] == s[i..];
      }
    }
  }

  lemma {:induction false} DecodeIsShorter(s: string)
    ensures |Decode(s)| <= |s|
    ensures if HasEntity(s) then |Decode(s)| < |s| else Decode(s) == s
    decreases |s|
  {
    if s != "" {
      HasEntityNext(s);
      if StartsEntity(s) {
        DecodeIsShorter(s[4..]);
      } else {
        DecodeIsShorter(s[1..]);
        assert s == [s[0]] + s[1..];
      }
    }
  }

  /** A text is shown as it is exactly if it contains no entity of its own. */
  lemma ShownExactlyWhen(s: string)
    ensures Decode(EscapeHtml(s)) == s <==> !HasEntity(s)
  {
    EscapeIsPerChar(s);
    ShownAsText(s);
    DecodeIsShorter(s);
  }

  // ----- reading markup back -----

  const OPEN := "<span class='result-highlight'>"
  const CLOSE := "</span>"

  datatype Glyph = Glyph(c: char, lit: bool)

  /** The visible characters of the markup, each with whether it stands inside a span. */
  function Read(s: string, lit: bool): seq<Glyph>
    decreases |s|
  {
    if s == [] then []
    else if OPEN <= s then Read(s[|OPEN|..], true)
    else if CLOSE <= s then Read(s[|CLOSE|..], false)
    else [Glyph(s[0], lit)] + Read(s[1..], lit)
  }

  function Marked(s: string, lit: bool): seq<Glyph> {
    seq(|s|, i requires 0 <= i < |s| => Glyph(s[i], lit))
  }

  lemma {:induction false} ReadText(s: string, rest: string, lit: bool)
    requires '<' !in s
    ensures Read(s + rest, lit) == Marked(s, lit) + Read(rest, lit)
  {
    if s == [] {
      assert s + rest == rest;
    } else {
      assert (s + rest)[0] == s[0] && (s + rest)[1..] == s[1..] + rest;
      ReadText(s[1..], rest, lit);
      assert Marked(s, lit) == [Glyph(s[0], lit)] + Marked(s[1..], lit);
    }
  }

  lemma ReadOpen(rest: string, lit: bool)
    ensures Read(OPEN + rest, lit) == Read(rest, true)
  {
    assert (OPEN + rest)[|OPEN|..] == rest;
  }

  lemma ReadClose(rest: string, lit: bool)
    ensures Read(CLOSE + rest, lit) == Read(rest, false)
  {
    assert (CLOSE + rest)[|CLOSE|..] == rest;
    assert (CLOSE + rest)[1] == '/' && OPEN[1] == 's';
  }

  /** A stretch of source text, highlighted or not. */
  datatype Piece = Piece(text: string, lit: bool)

  function Markup(p: Piece): string {
    if p.lit then OPEN + EscapeHtml(p.text) + CLOSE else EscapeHtml(p.text)
  }

  function Render(ps: seq<Piece>): string {
    if ps == [] then "" else Render(ps[..|ps| - 1]) + Markup(ps[|ps| - 1])
  }

  function Glyphs(ps: seq<Piece>): seq<Glyph> {
    if ps == [] then [] else Glyphs(ps[..|ps| - 1]) + Marked(Escaped(ps[|ps| - 1].text), ps[|ps| - 1].lit)
  }

  lemma ReadPiece(p: Piece, rest: string)
    ensures Read(Markup(p) + rest, false) == Marked(Escaped(p.text), p.lit) + Read(rest, false)
  {
    var e := Escaped(p.text);
    EscapeIsPerChar(p.text);
    EscapedHasNoTags(p.text);
    if p.lit {
      assert Markup(p) + rest == OPEN + (e + (CLOSE + rest));
      ReadOpen(e + (CLOSE + rest), false);
      ReadText(e, CLOSE + rest, true);
      ReadClose(rest, true);
    } else {
      ReadText(e, rest, false);
    }
  }

  lemma Associative<T>(a: seq<T>, b: seq<T>, c: seq<T>)
    ensures (a + b) + c == a + (b + c)
  {
  }

  /** Markup reads back as its pieces, escaped. */
  lemma {:induction false} ReadRender(ps: seq<Piece>, rest: string)
    ensures Read(Render(ps) + rest, false) == Glyphs(ps) + Read(rest, false)
  {
    if ps == [] {
      assert Render(ps) + rest == rest;
    } else {
      var n := |ps| - 1;
      var a, b := Render(ps[..n]), Markup(ps[n]);
      ReadRender(ps[..n], b + rest);
      ReadPiece(ps[n], rest);
      Associative(a, b, rest);
      Associative(Glyphs(ps[..n]), Marked(Escaped(ps[n].text), ps[n].lit), Read(rest, false));
    }
  }

  // ----- boundaries -----

  function Lo(bs: seq<nat>, k: nat): nat
    requires 2 * k + 1 < |bs|
  {
    bs[2 * k]
  }

  function Hi(bs: seq<nat>, k: nat): nat
    requires 2 * k + 1 < |bs|
  {
    bs[2 * k + 1]
  }

  /** Pairs of boundaries, in order and without overlap. */
  ghost predicate InOrder(bs: seq<nat>) {
    && |bs| % 2 == 0
    && forall i, j | 0 <= i < j < |bs| :: bs[i] <= bs[j]
  }

  ghost predicate InPair(bs: seq<nat>, x: nat) {
    exists k: nat | 2 * k + 1 < |bs| :: Lo(bs, k) <= x < Hi(bs, k)
  }

  /** The escaped text from..to, each character marked if its source index lies in a pair. */
  ghost function Expected(str: string, bs: seq<nat>, from: nat, upTo: nat): seq<Glyph>
    requires from <= upTo <= |str|
    decreases upTo
  {
    if from == upTo then []
    else Expected(str, bs, from, upTo - 1) + Marked(EscapeChar(str[upTo - 1]), InPair(bs, upTo - 1))
  }

  lemma MarkedConcat(before: seq<Glyph>, a: string, b: string, lit: bool)
    ensures before + Marked(a, lit) + Marked(b, lit) == before + Marked(a + b, lit)
  {
  }

  lemma EscapedNext(str: string, mid: nat, upTo: nat)
    requires mid < upTo <= |str|
    ensures Escaped(str[mid..upTo]) == Escaped(str[mid..upTo - 1]) + EscapeChar(str[upTo - 1])
  {
    var s := str[mid..upTo];
    assert s[..|s| - 1] == str[mid..upTo - 1];
  }

  lemma {:induction false} ExpectedStretch(str: string, bs: seq<nat>, from: nat, mid: nat, upTo: nat, lit: bool)
    requires from <= mid <= upTo <= |str|
    requires forall x | mid <= x < upTo :: InPair(bs, x) == lit
    ensures Expected(str, bs, from, upTo) == Expected(str, bs, from, mid) + Marked(Escaped(str[mid..upTo]), lit)
    decreases upTo
  {
    if mid < upTo {
      ExpectedStretch(str, bs, from, mid, upTo - 1, lit);
      EscapedNext(str, mid, upTo);
      MarkedConcat(Expected(str, bs, from, mid), Escaped(str[mid..upTo - 1]), EscapeChar(str[upTo - 1]), lit);
    } else {
      assert str[mid..upTo] == [];
    }
  }

  function Max(a: nat, b: nat): nat { if a < b then b else a }
  function Min(a: nat, b: nat): nat { if a < b then a else b }

  // ----- the renderer -----

  /** No pair before the k-th reaches into the text still to be rendered. */
  ghost predicate Behind(bs: seq<nat>, k: nat, start: nat, upTo: nat) {
    start == upTo || forall j: nat | j < k && 2 * j + 1 < |bs| :: Hi(bs, j) <= start || upTo <= Lo(bs, j)
  }

  lemma LoGrows(bs: seq<nat>, k: nat, j: nat)
    requires InOrder(bs) && k <= j && 2 * j + 1 < |bs|
    ensures Lo(bs, k) <= Lo(bs, j)
  {
  }

  /** Before the k-th pair nothing is highlighted, in it everything is. */
  lemma PairDecides(bs: seq<nat>, k: nat, start: nat, upTo: nat)
    requires InOrder(bs) && 2 * k + 1 < |bs| && Behind(bs, k, start, upTo)
    ensures forall x | start <= x < upTo && x < Lo(bs, k) :: !InPair(bs, x)
    ensures forall x | Lo(bs, k) <= x < Hi(bs, k) :: InPair(bs, x)
  {
    forall x | start <= x < upTo && x < Lo(bs, k)
      ensures !InPair(bs, x)
    {
      forall j: nat | 2 * j + 1 < |bs|
        ensures !(Lo(bs, j) <= x < Hi(bs, j))
      {
        if j >= k {
          LoGrows(bs, k, j);
        }
      }
    }
  }

  /** The pieces rendered so far, and what they show. */
  ghost predicate Shows(ps: seq<Piece>, text: string, str: string, bs: seq<nat>, from: nat, start: nat)
    requires from <= start <= |str|
  {
    text == Render(ps) && Glyphs(ps) == Expected(str, bs, from, start)
  }

  lemma ShowMore(ps: seq<Piece>, text: string, str: string, bs: seq<nat>, from: nat, start: nat, next: nat, lit: bool)
    requires from <= start <= next <= |str| && Shows(ps, text, str, bs, from, start)
    requires forall x | start <= x < next :: InPair(bs, x) == lit
    ensures
      var p := Piece(str[start..next], lit);
      Shows(ps + [p], text + Markup(p), str, bs, from, next)
  {
    var p := Piece(str[start..next], lit);
    assert (ps + [p])[..|ps|] == ps;
    ExpectedStretch(str, bs, from, start, next, lit);
  }

  /** The next boundary is not before the start of what is left, unless it is before the text. */
  ghost predicate AtOrAfter(bs: seq<nat>, k: nat, start: nat, from: nat) {
    start == from || forall i | 2 * k <= i < |bs| :: start <= bs[i]
  }

  /** After the k-th pair, what is left lies beyond it. */
  lemma BehindNext(bs: seq<nat>, k: nat, from: nat, start: nat, upTo: nat)
    requires from <= start <= upTo && InOrder(bs) && 2 * k + 1 < |bs|
    requires Behind(bs, k, start, upTo) && AtOrAfter(bs, k, start, from)
    requires Lo(bs, k) < upTo && Hi(bs, k) > from
    ensures
      var lo, hi := Max(start, Lo(bs, k)), Min(upTo, Hi(bs, k));
      start <= lo <= hi && Behind(bs, k + 1, hi, upTo) && AtOrAfter(bs, k + 1, hi, from)
  {
    assert Lo(bs, k) <= Hi(bs, k);
  }

  /** One pair that reaches into the text: the stretch before it, then the pair itself. */
  lemma ShowPair(ps: seq<Piece>, text: string, str: string, bs: seq<nat>, from: nat, start: nat, lo: nat, hi: nat)
    requires from <= start <= lo <= hi <= |str| && Shows(ps, text, str, bs, from, start)
    requires forall x | start <= x < lo :: !InPair(bs, x)
    requires forall x | lo <= x < hi :: InPair(bs, x)
    ensures Shows(ps + [Piece(str[start..lo], false)] + [Piece(str[lo..hi], true)],
                  text + EscapeHtml(str[start..lo]) + (OPEN + EscapeHtml(str[lo..hi]) + CLOSE), str, bs, from, hi)
  {
    ShowMore(ps, text, str, bs, from, start, lo, false);
    ShowMore(ps + [Piece(str[start..lo], false)], text + EscapeHtml(str[start..lo]), str, bs, from, lo, hi, true);
  }

  /** The state of the loop before the k-th pair. */
  ghost predicate Rendering(ps: seq<Piece>, text: string, str: string, bs: seq<nat>,
                            from: nat, start: nat, upTo: nat, k: nat)
  {
    && 2 * k <= |bs| && from <= start <= upTo <= |str|
    && Behind(bs, k, start, upTo) && AtOrAfter(bs, k, start, from)
    && Shows(ps, text, str, bs, from, start)
  }

  lemma PairSkipped(ps: seq<Piece>, text: string, str: string, bs: seq<nat>, from: nat, start: nat, upTo: nat, k: nat)
    requires InOrder(bs) && Rendering(ps, text, str, bs, from, start, upTo, k) && 2 * k + 1 < |bs|
    requires Lo(bs, k) >= upTo || Hi(bs, k) <= from
    ensures Rendering(ps, text, str, bs, from, start, upTo, k + 1)
  {
  }

  lemma PairRendered(ps: seq<Piece>, text: string, str: string, bs: seq<nat>, from: nat, start: nat, upTo: nat, k: nat)
    requires InOrder(bs) && Rendering(ps, text, str, bs, from, start, upTo, k) && 2 * k + 1 < |bs|
    requires Lo(bs, k) < upTo && Hi(bs, k) > from
    ensures
      var lo, hi := Max(start, Lo(bs, k)), Min(upTo, Hi(bs, k));
      && start <= lo <= hi
      && Rendering(ps + [Piece(str[start..lo], false)] + [Piece(str[lo..hi], true)],
                   text + EscapeHtml(str[start..lo]) + (OPEN + EscapeHtml(str[lo..hi]) + CLOSE),
                   str, bs, from, hi, upTo, k + 1)
  {
    BehindNext(bs, k, from, start, upTo);
    PairDecides(bs, k, start, upTo);
    ShowPair(ps, text, str, bs, from, start, Max(start, Lo(bs, k)), Min(upTo, Hi(bs, k)));
  }

  /** Highlighting conserves the text: read back, the markup is exactly the escaped slice, and a
      character is highlighted exactly when its index lies in a boundary pair. */
  method GetHighlightedText(str: string, boundaries: seq<nat>, from: nat, upTo: nat) returns (text: string)
    requires from <= upTo <= |str| && InOrder(boundaries)
    ensures Read(text, false) == Expected(str, boundaries, from, upTo)
  {
    var start := from;
    text := "";
    ghost var ps := [];
    var k := 0;
    while 2 * k < |boundaries|
      invariant Rendering(ps, text, str, boundaries, from, start, upTo, k)
    {
      var b0, b1 := Lo(boundaries, k), Hi(boundaries, k);
      if b0 >= upTo || b1 <= from {
        PairSkipped(ps, text, str, boundaries, from, start, upTo, k);
      } else {
        var lo, hi := Max(start, b0), Min(upTo, b1);
        PairRendered(ps, text, str, boundaries, from, start, upTo, k);
        ps := ps + [Piece(str[start..lo], false)] + [Piece(str[lo..hi], true)];
        text := text + EscapeHtml(str[start..lo]);
        text := text + (OPEN + EscapeHtml(str[lo..hi]) + CLOSE);
        start := hi;
      }
      k := k + 1;
    }
    ShowRest(ps, text, str, boundaries, from, start, upTo, k);
    text := text + EscapeHtml(str[start..upTo]);
  }

  lemma ShowRest(ps: seq<Piece>, text: string, str: string, bs: seq<nat>, from: nat, start: nat, upTo: nat, k: nat)
    requires from <= start <= upTo <= |str| && 2 * k >= |bs|
    requires Behind(bs, k, start, upTo) && Shows(ps, text, str, bs, from, start)
    ensures Read(text + EscapeHtml(str[start..upTo]), false) == Expected(str, bs, from, upTo)
  {
    ShowMore(ps, text, str, bs, from, start, upTo, false);
    var all := ps + [Piece(str[start..upTo], false)];
    ReadRender(all, "");
    assert Render(all) + "" == text + EscapeHtml(str[start..upTo]);
  }
}
