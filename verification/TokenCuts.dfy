/**
 Which selectors are accepted, and as what: a relation between a text, its groups and what is left, read token
 by token, without the loops of the tokenizer. A text is cut exactly as the tokenizer scans it.
 */
module TokenCuts {
  import opened Tokenizer

  /** The filters from `from` up to `upTo` take nothing here. */
  ghost predicate Skipped(lex: Lexer, s: string, from: nat, upTo: nat)
    requires Anchored(lex) && upTo <= |lex.filters|
  {
    forall j | from <= j < upTo :: FilterLength(lex, s, j) == Length(0)
  }

  /** `t` is what the next matching filter, from `from` on, takes here. */
  ghost predicate IsNext(lex: Lexer, s: string, from: nat, t: Token)
    requires Anchored(lex)
  {
    && from < t.kind <= |lex.filters| && Skipped(lex, s, from, t.kind - 1)
    && t.value != "" && t.value <= s && FilterLength(lex, s, t.kind - 1) == Length(|t.value|)
  }

  /** In a turn in which something has matched, with the filters from `from` on still to be tried: `s` is the
      tokens, then the groups, then the rest. A turn that has tried all filters is over. */
  ghost predicate Cut(lex: Lexer, s: string, from: nat, tokens: seq<Token>, groups: seq<Group>, rest: string)
    requires Anchored(lex)
    decreases |s|, 2
  {
    if s == "" then tokens == [] && groups == [] && rest == ""
    else if tokens != [] && IsNext(lex, s, from, tokens[0]) then
      Cut(lex, s[|tokens[0].value|..], tokens[0].kind, tokens[1..], groups, rest)
    else Skipped(lex, s, from, |lex.filters|) && NewTurn(lex, s, tokens, groups, rest)
  }

  /** A new turn begins with a new group if a comma matches here. The comma is consumed unless it is all there
      is. */
  ghost predicate NewTurn(lex: Lexer, s: string, tokens: seq<Token>, groups: seq<Group>, rest: string)
    requires Anchored(lex) && s != ""
    decreases |s|, 1
  {
    var c := lex.comma(s);
    if c == 0 then Turn(lex, s, tokens, groups, rest)
    else if tokens != [] || groups == [] then false
    else if c < |s| then groups[0].comma == s[..c] && Turn(lex, s[c..], groups[0].tokens, groups[1..], rest)
    else groups[0].comma == "" && Turn(lex, s, groups[0].tokens, groups[1..], rest)
  }

  /** A turn takes the combinator, if there is one, or else the next matching filter; if nothing matches, the
      text ends being cut here. */
  ghost predicate Turn(lex: Lexer, s: string, tokens: seq<Token>, groups: seq<Group>, rest: string)
    requires Anchored(lex) && s != ""
    decreases |s|, 0
  {
    var k := lex.combinator(s);
    if 0 < k <= |s| then tokens != [] && tokens[0] == Token(s[..k], 0) && Cut(lex, s[k..], 0, tokens[1..], groups, rest)
    else if tokens != [] && IsNext(lex, s, 0, tokens[0]) then
      Cut(lex, s[|tokens[0].value|..], tokens[0].kind, tokens[1..], groups, rest)
    else Skipped(lex, s, 0, |lex.filters|) && tokens == [] && groups == [] && rest == s
  }

  /** The first group begins without a comma. */
  ghost predicate IsCut(lex: Lexer, s: string, groups: seq<Group>, rest: string)
    requires Anchored(lex)
  {
    if s == "" then groups == [] && rest == ""
    else groups != [] && groups[0].comma == "" && Turn(lex, s, groups[0].tokens, groups[1..], rest)
  }

  // ----- the tokenizer, from any point on -----

  /** The rest of a run, from the i-th filter on. */
  function After(lex: Lexer, s: string, i: nat, groups: seq<Group>, matched: bool): Scan
    requires Anchored(lex) && i <= |lex.filters| && groups != []
  {
    match RunFilters(lex, s, i, groups[|groups| - 1].tokens, matched)
    case FilterThrew => Threw
    case Filtered(tokens, rest, m) =>
      var groups' := WithTokens(groups, tokens);
      if !m then Scanned(groups', rest) else ScanFrom(lex, rest, groups', false)
  }

  function AddToken(groups: seq<Group>, t: Token): (r: seq<Group>)
    requires groups != []
    ensures |r| == |groups|
  {
    WithTokens(groups, groups[|groups| - 1].tokens + [t])
  }

  /** The rest of a run, from the combinator on. */
  function Turned(lex: Lexer, s: string, groups: seq<Group>): Scan
    requires Anchored(lex) && groups != []
  {
    var k := lex.combinator(s);
    if 0 < k <= |s| then After(lex, s[k..], 0, AddToken(groups, Token(s[..k], 0)), true)
    else After(lex, s, 0, groups, false)
  }

  lemma WithOwnTokens(groups: seq<Group>)
    requires groups != []
    ensures WithTokens(groups, groups[|groups| - 1].tokens) == groups
  {
  }

  lemma WithTokensTwice(groups: seq<Group>, a: seq<Token>, b: seq<Token>)
    requires groups != []
    ensures WithTokens(WithTokens(groups, a), b) == WithTokens(groups, b)
  {
  }

  lemma ScanTurns(lex: Lexer, s: string, groups: seq<Group>, first: bool)
    requires Anchored(lex) && (first || groups != []) && s != ""
    ensures
      var (begun, s1) := OpenGroup(lex, s, groups, first);
      ScanFrom(lex, s, groups, first) == Turned(lex, s1, begun)
  {
    var (begun, s1) := OpenGroup(lex, s, groups, first);
    var k := lex.combinator(s1);
    assert k <= |s1|;
    var tokens := Combined(lex, s1, begun);
    var r := RunFilters(lex, s1[k..], 0, tokens, k > 0);
    if r.Filtered? {
      WithTokensTwice(begun, tokens, r.tokens);
    }
    if k == 0 {
      assert s1[k..] == s1 && tokens == begun[|begun| - 1].tokens;
    }
  }

  lemma SkipOne(lex: Lexer, s: string, i: nat, groups: seq<Group>, matched: bool)
    requires Anchored(lex) && i < |lex.filters| && groups != [] && FilterLength(lex, s, i) == Length(0)
    ensures After(lex, s, i, groups, matched) == After(lex, s, i + 1, groups, matched)
  {
  }

  lemma {:induction false} SkipTo(lex: Lexer, s: string, from: nat, i: nat, groups: seq<Group>, matched: bool)
    requires Anchored(lex) && from <= i <= |lex.filters| && groups != [] && Skipped(lex, s, from, i)
    ensures After(lex, s, from, groups, matched) == After(lex, s, i, groups, matched)
    decreases i - from
  {
    if from < i {
      SkipOne(lex, s, from, groups, matched);
      SkipTo(lex, s, from + 1, i, groups, matched);
    }
  }

  lemma TakeOne(lex: Lexer, s: string, i: nat, n: nat, groups: seq<Group>, matched: bool)
    requires Anchored(lex) && i < |lex.filters| && groups != []
    requires 0 < n <= |s| && FilterLength(lex, s, i) == Length(n)
    ensures After(lex, s, i, groups, matched) == After(lex, s[n..], i + 1, AddToken(groups, Token(s[..n], i + 1)), true)
  {
    var t := Token(s[..n], i + 1);
    var r := RunFilters(lex, s, i, groups[|groups| - 1].tokens, matched);
    assert r == RunFilters(lex, s[n..], i + 1, groups[|groups| - 1].tokens + [t], true);
    if r.Filtered? {
      WithTokensTwice(groups, groups[|groups| - 1].tokens + [t], r.tokens);
    }
  }

  lemma AllTried(lex: Lexer, s: string, groups: seq<Group>, matched: bool)
    requires Anchored(lex) && groups != []
    ensures After(lex, s, |lex.filters|, groups, matched) ==
            if matched then ScanFrom(lex, s, groups, false) else Scanned(groups, s)
  {
    WithOwnTokens(groups);
  }

  lemma NothingAtEnd(lex: Lexer, i: nat)
    requires Anchored(lex) && i < |lex.filters|
    ensures FilterLength(lex, "", i) == Length(0)
  {
    assert HitOk(lex.filters[i](""), "");
  }

  function Join(groups: seq<Group>, tokens: seq<Token>, more: seq<Group>): seq<Group>
    requires groups != []
  {
    WithTokens(groups, groups[|groups| - 1].tokens + tokens) + more
  }

  lemma JoinToken(groups: seq<Group>, t: Token, tokens: seq<Token>, more: seq<Group>)
    requires groups != []
    ensures Join(AddToken(groups, t), tokens, more) == Join(groups, [t] + tokens, more)
  {
    var own := groups[|groups| - 1].tokens;
    WithTokensTwice(groups, own + [t], own + [t] + tokens);
    assert own + [t] + tokens == own + ([t] + tokens);
  }

  lemma JoinGroup(groups: seq<Group>, comma: string, tokens: seq<Token>, more: seq<Group>)
    requires groups != []
    ensures Join(groups + [Group(comma, [])], tokens, more) == Join(groups, [], [Group(comma, tokens)] + more)
  {
    var own := groups[|groups| - 1].tokens;
    assert own + [] == own && [] + tokens == tokens;
    WithOwnTokens(groups);
  }

  lemma JoinNothing(groups: seq<Group>)
    requires groups != []
    ensures Join(groups, [], []) == groups
  {
    assert groups[|groups| - 1].tokens + [] == groups[|groups| - 1].tokens;
    WithOwnTokens(groups);
  }

  // ----- every cut is what the tokenizer finds -----

  lemma {:induction false} CutIsScanned(lex: Lexer, s: string, from: nat, tokens: seq<Token>, groups: seq<Group>,
                                        rest: string, acc: seq<Group>)
    requires Anchored(lex) && from <= |lex.filters| && acc != [] && Cut(lex, s, from, tokens, groups, rest)
    ensures After(lex, s, from, acc, true) == Scanned(Join(acc, tokens, groups), rest)
    decreases |s|, 2
  {
    var n := |lex.filters|;
    if s == "" {
      forall j | from <= j < n
        ensures FilterLength(lex, s, j) == Length(0)
      {
        NothingAtEnd(lex, j);
      }
      SkipTo(lex, s, from, n, acc, true);
      AllTried(lex, s, acc, true);
      JoinNothing(acc);
    } else if tokens != [] && IsNext(lex, s, from, tokens[0]) {
      NextIsScanned(lex, s, from, tokens, groups, rest, acc, true);
    } else {
      SkipTo(lex, s, from, n, acc, true);
      AllTried(lex, s, acc, true);
      NewTurnIsScanned(lex, s, tokens, groups, rest, acc);
    }
  }

  lemma {:induction false} NextIsScanned(lex: Lexer, s: string, from: nat, tokens: seq<Token>, groups: seq<Group>,
                                         rest: string, acc: seq<Group>, matched: bool)
    requires Anchored(lex) && from <= |lex.filters| && acc != []
    requires tokens != [] && IsNext(lex, s, from, tokens[0])
    requires Cut(lex, s[|tokens[0].value|..], tokens[0].kind, tokens[1..], groups, rest)
    ensures After(lex, s, from, acc, matched) == Scanned(Join(acc, tokens, groups), rest)
    decreases |s|, 0
  {
    var t := tokens[0];
    SkipTo(lex, s, from, t.kind - 1, acc, matched);
    assert s[..|t.value|] == t.value;
    TakeOne(lex, s, t.kind - 1, |t.value|, acc, matched);
    CutIsScanned(lex, s[|t.value|..], t.kind, tokens[1..], groups, rest, AddToken(acc, t));
    JoinToken(acc, t, tokens[1..], groups);
    assert tokens == [t] + tokens[1..];
  }

  lemma {:induction false} NewTurnIsScanned(lex: Lexer, s: string, tokens: seq<Token>, groups: seq<Group>,
                                            rest: string, acc: seq<Group>)
    requires Anchored(lex) && s != "" && acc != [] && NewTurn(lex, s, tokens, groups, rest)
    ensures ScanFrom(lex, s, acc, false) == Scanned(Join(acc, tokens, groups), rest)
    decreases |s|, 1, 1
  {
    var c := lex.comma(s);
    assert c <= |s|;
    ScanTurns(lex, s, acc, false);
    if c == 0 {
      TurnIsScanned(lex, s, tokens, groups, rest, acc);
    } else {
      var comma, s1 := if c < |s| then s[..c] else "", if c < |s| then s[c..] else s;
      TurnIsScanned(lex, s1, groups[0].tokens, groups[1..], rest, acc + [Group(comma, [])]);
      JoinGroup(acc, comma, groups[0].tokens, groups[1..]);
      assert groups == [Group(comma, groups[0].tokens)] + groups[1..];
    }
  }

  lemma {:induction false} TurnIsScanned(lex: Lexer, s: string, tokens: seq<Token>, groups: seq<Group>,
                                         rest: string, acc: seq<Group>)
    requires Anchored(lex) && s != "" && acc != [] && Turn(lex, s, tokens, groups, rest)
    ensures Turned(lex, s, acc) == Scanned(Join(acc, tokens, groups), rest)
    decreases |s|, 1, 0
  {
    var k := lex.combinator(s);
    if 0 < k <= |s| {
      var t := Token(s[..k], 0);
      CutIsScanned(lex, s[k..], 0, tokens[1..], groups, rest, AddToken(acc, t));
      JoinToken(acc, t, tokens[1..], groups);
      assert tokens == [t] + tokens[1..];
    } else if tokens != [] && IsNext(lex, s, 0, tokens[0]) {
      NextIsScanned(lex, s, 0, tokens, groups, rest, acc, false);
    } else {
      SkipTo(lex, s, 0, |lex.filters|, acc, false);
      AllTried(lex, s, acc, false);
      JoinNothing(acc);
    }
  }

  // ----- whatever the tokenizer finds is a cut -----

  /** The next filter that does something here. */
  function NextTaking(lex: Lexer, s: string, from: nat): (i: nat)
    requires Anchored(lex) && from <= |lex.filters|
    ensures from <= i <= |lex.filters|
    ensures forall j | from <= j < i :: FilterLength(lex, s, j) == Length(0)
    ensures i < |lex.filters| ==> FilterLength(lex, s, i) != Length(0)
    decreases |lex.filters| - from
  {
    if from == |lex.filters| || FilterLength(lex, s, from) != Length(0) then from else NextTaking(lex, s, from + 1)
  }

  lemma {:induction false} ScannedIsCut(lex: Lexer, s: string, from: nat, acc: seq<Group>)
    returns (tokens: seq<Token>, groups: seq<Group>)
    requires Anchored(lex) && from <= |lex.filters| && acc != [] && After(lex, s, from, acc, true).Scanned?
    ensures
      var r := After(lex, s, from, acc, true);
      Cut(lex, s, from, tokens, groups, r.rest) && r.groups == Join(acc, tokens, groups)
    decreases |s|, 2
  {
    var i := NextTaking(lex, s, from);
    SkipTo(lex, s, from, i, acc, true);
    if i < |lex.filters| {
      if s == "" {
        NothingAtEnd(lex, i);
      }
      tokens, groups := ScannedIsNext(lex, s, from, i, acc, true);
    } else {
      AllTried(lex, s, acc, true);
      if s == "" {
        tokens, groups := [], [];
        JoinNothing(acc);
      } else {
        tokens, groups := ScannedIsNewTurn(lex, s, acc);
        assert !(tokens != [] && IsNext(lex, s, from, tokens[0]));
      }
    }
  }

  lemma {:induction false} ScannedIsNext(lex: Lexer, s: string, from: nat, i: nat, acc: seq<Group>, matched: bool)
    returns (tokens: seq<Token>, groups: seq<Group>)
    requires Anchored(lex) && from <= i < |lex.filters| && acc != [] && s != ""
    requires Skipped(lex, s, from, i) && FilterLength(lex, s, i) != Length(0)
    requires After(lex, s, i, acc, matched).Scanned?
    ensures
      var r := After(lex, s, i, acc, matched);
      && tokens != [] && IsNext(lex, s, from, tokens[0])
      && Cut(lex, s[|tokens[0].value|..], tokens[0].kind, tokens[1..], groups, r.rest)
      && r.groups == Join(acc, tokens, groups)
    decreases |s|, 0
  {
    var l := FilterLength(lex, s, i);
    assert l.Length?;
    var t := Token(s[..l.n], i + 1);
    TakeOne(lex, s, i, l.n, acc, matched);
    var more: seq<Token>;
    more, groups := ScannedIsCut(lex, s[l.n..], i + 1, AddToken(acc, t));
    tokens := [t] + more;
    assert tokens[1..] == more;
    JoinToken(acc, t, more, groups);
  }

  lemma {:induction false} ScannedIsNewTurn(lex: Lexer, s: string, acc: seq<Group>)
    returns (tokens: seq<Token>, groups: seq<Group>)
    requires Anchored(lex) && s != "" && acc != [] && ScanFrom(lex, s, acc, false).Scanned?
    ensures
      var r := ScanFrom(lex, s, acc, false);
      NewTurn(lex, s, tokens, groups, r.rest) && r.groups == Join(acc, tokens, groups)
    decreases |s|, 1, 1
  {
    var c := lex.comma(s);
    assert c <= |s|;
    ScanTurns(lex, s, acc, false);
    if c == 0 {
      tokens, groups := ScannedIsTurn(lex, s, acc);
    } else {
      var comma, s1 := if c < |s| then s[..c] else "", if c < |s| then s[c..] else s;
      var own: seq<Token>, more: seq<Group>;
      own, more := ScannedIsTurn(lex, s1, acc + [Group(comma, [])]);
      tokens, groups := [], [Group(comma, own)] + more;
      assert groups[1..] == more;
      JoinGroup(acc, comma, own, more);
    }
  }

  lemma {:induction false} ScannedIsTurn(lex: Lexer, s: string, acc: seq<Group>)
    returns (tokens: seq<Token>, groups: seq<Group>)
    requires Anchored(lex) && s != "" && acc != [] && Turned(lex, s, acc).Scanned?
    ensures
      var r := Turned(lex, s, acc);
      Turn(lex, s, tokens, groups, r.rest) && r.groups == Join(acc, tokens, groups)
    decreases |s|, 1, 0
  {
    var k := lex.combinator(s);
    if 0 < k <= |s| {
      var t := Token(s[..k], 0);
      var more: seq<Token>;
      more, groups := ScannedIsCut(lex, s[k..], 0, AddToken(acc, t));
      tokens := [t] + more;
      assert tokens[1..] == more;
      JoinToken(acc, t, more, groups);
    } else {
      var i := NextTaking(lex, s, 0);
      SkipTo(lex, s, 0, i, acc, false);
      if i < |lex.filters| {
        tokens, groups := ScannedIsNext(lex, s, 0, i, acc, false);
      } else {
        AllTried(lex, s, acc, false);
        tokens, groups := [], [];
        JoinNothing(acc);
      }
    }
  }

  // ----- acceptance -----

  const START := [Group("", [])]

  lemma JoinStart(tokens: seq<Token>, more: seq<Group>)
    ensures Join(START, tokens, more) == [Group("", tokens)] + more
  {
    assert [] + tokens == tokens;
  }

  lemma ScanStarts(lex: Lexer, s: string)
    requires Anchored(lex) && s != ""
    ensures ScanAll(lex, s) == Turned(lex, s, START)
  {
    assert [] + START == START;
    ScanTurns(lex, s, [], true);
  }

  lemma CutIsFound(lex: Lexer, s: string, groups: seq<Group>, rest: string)
    requires Anchored(lex) && IsCut(lex, s, groups, rest)
    ensures ScanAll(lex, s) == Scanned(groups, rest)
  {
    if s != "" {
      ScanStarts(lex, s);
      TurnIsScanned(lex, s, groups[0].tokens, groups[1..], rest, START);
      JoinStart(groups[0].tokens, groups[1..]);
      assert groups == [Group("", groups[0].tokens)] + groups[1..];
    }
  }

  lemma FoundIsCut(lex: Lexer, s: string)
    requires Anchored(lex) && ScanAll(lex, s).Scanned?
    ensures IsCut(lex, s, ScanAll(lex, s).groups, ScanAll(lex, s).rest)
  {
    if s != "" {
      ScanStarts(lex, s);
      var tokens, more := ScannedIsTurn(lex, s, START);
      JoinStart(tokens, more);
      var all := [Group("", tokens)] + more;
      assert all[0] == Group("", tokens) && all[1..] == more;
    }
  }

  /** Scanning finds exactly the cuts of a text: groups, kinds, values, commas and what is left. */
  lemma ScanIsCut(lex: Lexer, s: string, groups: seq<Group>, rest: string)
    requires Anchored(lex)
    ensures ScanAll(lex, s) == Scanned(groups, rest) <==> IsCut(lex, s, groups, rest)
  {
    if IsCut(lex, s, groups, rest) {
      CutIsFound(lex, s, groups, rest);
    } else if ScanAll(lex, s).Scanned? {
      FoundIsCut(lex, s);
    }
  }

  /** A selector is accepted, as these groups, exactly if they cut it without remainder; and parsing only gives the
      length of what a cut leaves. */
  lemma AcceptedExactlyWhen(lex: Lexer, s: string, groups: seq<Group>, n: nat)
    requires Anchored(lex)
    ensures Plain(lex, s, false) == Groups(groups) <==> IsCut(lex, s, groups, "")
    ensures Plain(lex, s, true) == Excess(n) <==> exists gs, rest :: IsCut(lex, s, gs, rest) && n == |rest|
  {
    ScanIsCut(lex, s, groups, "");
    match ScanAll(lex, s)
    case Scanned(gs, rest) =>
      ScanIsCut(lex, s, gs, rest);
      if gs', rest' :| IsCut(lex, s, gs', rest') && n == |rest'| {
        ScanIsCut(lex, s, gs', rest');
      }
    case Threw =>
      if gs', rest' :| IsCut(lex, s, gs', rest') && n == |rest'| {
        ScanIsCut(lex, s, gs', rest');
      }
  }

  /** Of a match of length `len` with an argument from `arg` on, of which `left` characters cannot be cut: all is
      taken if that is none; else everything up to the first closing parenthesis among them; or only what stands
      before the argument if there is none. */
  ghost predicate IsTrim(s: string, len: nat, arg: nat, left: nat, n: nat)
    requires len <= |s| && arg + left < len
  {
    var from := len - 1 - left;
    if left == 0 then n == len
    else if n == arg then forall q | from <= q < len - 1 :: s[q] != ')'
    else from < n < len && s[n - 1] == ')' && forall q | from <= q < n - 1 :: s[q] != ')'
  }

  lemma CutBackIsTrim(s: string, len: nat, arg: nat, excess: nat)
    requires 1 <= arg && arg + 1 < len <= |s| && arg + excess < len
    ensures IsTrim(s, len, arg, excess, CutBack(s, len, arg, excess))
  {
    var a := s[arg..len - 1];
    if excess > 0 {
      var close := IndexOf(a, ')', |a| - excess);
      assert forall j | 0 <= j < |a| :: a[j] == s[arg + j];
      forall q | len - 1 - excess <= q < (if close == -1 then len - 1 else arg + close)
        ensures s[q] != ')'
      {
        assert a[q - arg] != ')';
      }
    }
  }

  lemma LeftIsShorter(lex: Lexer, s: string)
    requires Anchored(lex) && ScanAll(lex, s).Scanned?
    ensures |ScanAll(lex, s).rest| <= |s|
  {
    ScanKeepsText(lex, s, [], true);
    var r := ScanAll(lex, s);
    assert |Source(r.groups) + r.rest| == |Source([]) + s|;
  }

  /** What a filter takes whose argument is to be tokenized, by the cut of the argument. */
  lemma TrimmedByCut(lex: Lexer, s: string, i: nat, len: nat, arg: nat, groups: seq<Group>, rest: string)
    requires Anchored(lex) && i < |lex.filters| && lex.filters[i](s) == Trim(len, arg)
    requires arg < len <= |s| && IsCut(lex, s[arg..len - 1], groups, rest)
    ensures FilterLength(lex, s, i).Length?
    ensures arg + |rest| < len && IsTrim(s, len, arg, |rest|, FilterLength(lex, s, i).n)
  {
    assert HitOk(lex.filters[i](s), s);
    CutIsFound(lex, s[arg..len - 1], groups, rest);
    LeftIsShorter(lex, s[arg..len - 1]);
    CutBackIsTrim(s, len, arg, |rest|);
  }

  ghost predicate HasCut(lex: Lexer, s: string)
    requires Anchored(lex)
  {
    exists groups, rest :: IsCut(lex, s, groups, rest)
  }

  /** It fails exactly if the argument has no cut. */
  lemma FailsWithoutCut(lex: Lexer, s: string, i: nat, len: nat, arg: nat)
    requires Anchored(lex) && i < |lex.filters| && lex.filters[i](s) == Trim(len, arg) && arg < len <= |s|
    ensures FilterLength(lex, s, i).Fail? <==> !HasCut(lex, s[arg..len - 1])
  {
    var a := s[arg..len - 1];
    if HasCut(lex, a) {
      var groups, rest :| IsCut(lex, a, groups, rest);
      CutIsFound(lex, a, groups, rest);
    }
    if ScanAll(lex, a).Scanned? {
      FoundIsCut(lex, a);
    }
  }

  /** A filter without such an argument takes its match, or nothing, or fails. */
  lemma TakenWhole(lex: Lexer, s: string, i: nat)
    requires Anchored(lex) && i < |lex.filters| && !lex.filters[i](s).Trim?
    ensures
      var r := FilterLength(lex, s, i);
      match lex.filters[i](s)
      case Take(len) => r == Length(len) && 0 < len <= |s|
      case Miss => r == Length(0)
      case _ => r.Fail? && s != ""
  {
    assert HitOk(lex.filters[i](s), s);
  }
}
