/**
 Splitting a selector into groups of tokens.

 Regular expressions are anchored matchers: functions from the remaining text to the length of the
 match. A pseudo with an unquoted argument may have matched too much; it is cut back to the closing
 parenthesis after the part of the argument that tokenizes, which is found by tokenizing it.
 */
module Tokenizer {
  import BoundedCache

  /** What a filter's expression and prefilter make of the remaining text: nothing, a match of some
      length, an error, or a match whose argument, from `arg` up to the closing parenthesis at its
      end, is to be tokenized. */
  datatype Hit = Miss | Take(len: nat) | Bad | Trim(len: nat, arg: nat)

  datatype Lexer = Lexer(comma: string -> nat, combinator: string -> nat, filters: seq<string -> Hit>)

  ghost predicate HitOk(h: Hit, s: string) {
    match h
    case Take(len) => 1 <= len <= |s|
    case Trim(len, arg) => 1 <= arg && arg + 1 < len <= |s|
    case Bad => s != ""
    case Miss => true
  }

  /** Matches are prefixes, and filters never match the empty text; a prefilter sees a match only. */
  ghost predicate Anchored(lex: Lexer) {
    && (forall s :: lex.comma(s) <= |s|)
    && (forall s :: lex.combinator(s) <= |s|)
    && (forall i, s | 0 <= i < |lex.filters| :: HitOk(lex.filters[i](s), s))
  }

  datatype Token = Token(value: string, kind: nat)  // kind 0 is a combinator, i + 1 the i-th filter

  /** A group with the comma text consumed before it. */
  datatype Group = Group(comma: string, tokens: seq<Token>)

  /** `toSelector`: the values of the tokens, one after the other. */
  function ToSelector(tokens: seq<Token>): string {
    if tokens == [] then "" else ToSelector(tokens[..|tokens| - 1]) + tokens[|tokens| - 1].value
  }

  function Source(groups: seq<Group>): string {
    if groups == [] then ""
    else
      var n := |groups| - 1;
      Source(groups[..n]) + (groups[n].comma + ToSelector(groups[n].tokens))
  }

  // ----- tokenizing without a cache -----

  function IndexOf(s: string, c: char, from: nat): (i: int)
    ensures i == -1 || (from <= i < |s| && s[i] == c && forall j | from <= j < i :: s[j] != c)
    ensures i == -1 ==> forall j | from <= j < |s| :: s[j] != c
    decreases |s| - from
  {
    if from >= |s| then -1 else if s[from] == c then from else IndexOf(s, c, from + 1)
  }

  /** The length left of a pseudo of length `len` once the last `excess` characters of its argument
      are known not to tokenize. */
  function CutBack(s: string, len: nat, arg: nat, excess: nat): (n: nat)
    requires 1 <= arg && arg + 1 < len <= |s|
    ensures 1 <= n <= len
    ensures n == len || n == arg || (s[n - 1] == ')' && n + excess >= len)
  {
    var unquoted := s[arg..len - 1];
    if excess == 0 || excess > |unquoted| then len
    else
      var close := IndexOf(unquoted, ')', |unquoted| - excess);
      len + close - |unquoted|
  }

  datatype Length = Fail | Length(n: nat)

  /** The length the i-th filter consumes, 0 if it does not match. */
  function FilterLength(lex: Lexer, s: string, i: nat): (r: Length)
    requires Anchored(lex) && i < |lex.filters|
    ensures r.Length? ==> r.n <= |s|
    decreases |s|, 0, 0
  {
    var h := lex.filters[i](s);
    assert HitOk(h, s);
    match h
    case Miss => Length(0)
    case Bad => Fail
    case Take(len) => Length(len)
    case Trim(len, arg) =>
      match ScanAll(lex, s[arg..len - 1])
      case Threw => Fail
      case Scanned(_, rest) => Length(CutBack(s, len, arg, |rest|))
  }

  datatype Filtered = FilterThrew | Filtered(tokens: seq<Token>, rest: string, matched: bool)

  /** The loop over the filters, from the i-th on. */
  function RunFilters(lex: Lexer, s: string, i: nat, tokens: seq<Token>, matched: bool): (r: Filtered)
    requires Anchored(lex) && i <= |lex.filters|
    ensures r.Filtered? ==> |r.rest| <= |s| && (r.matched && !matched ==> |r.rest| < |s|) && (matched ==> r.matched)
    decreases |s|, 1, |lex.filters| - i
  {
    if i == |lex.filters| then Filtered(tokens, s, matched)
    else
      match FilterLength(lex, s, i)
      case Fail => FilterThrew
      case Length(n) =>
        if n == 0 then RunFilters(lex, s, i + 1, tokens, matched)
        else RunFilters(lex, s[n..], i + 1, tokens + [Token(s[..n], i + 1)], true)
  }

  /** At a comma, or at the very start, a new group begins. A comma that would consume everything
      is left in place. */
  function OpenGroup(lex: Lexer, s: string, groups: seq<Group>, first: bool): (r: (seq<Group>, string))
    requires Anchored(lex) && (first || groups != [])
    ensures r.0 != [] && |r.1| <= |s| && (s != "" ==> r.1 != "")
  {
    var c := lex.comma(s);
    assert c <= |s|;
    if first then (groups + [Group("", [])], s)
    else if c == 0 then (groups, s)
    else if c < |s| then (groups + [Group(s[..c], [])], s[c..])
    else (groups + [Group("", [])], s)
  }

  function WithTokens(groups: seq<Group>, tokens: seq<Token>): (r: seq<Group>)
    requires groups != []
    ensures |r| == |groups|
  {
    groups[|groups| - 1 := groups[|groups| - 1].(tokens := tokens)]
  }

  datatype Scan = Threw | Scanned(groups: seq<Group>, rest: string)

  /** The tokens of the last group, with a combinator if one comes next. */
  function Combined(lex: Lexer, s: string, groups: seq<Group>): seq<Token>
    requires Anchored(lex) && groups != []
  {
    var k := lex.combinator(s);
    assert k <= |s|;
    groups[|groups| - 1].tokens + if k == 0 then [] else [Token(s[..k], 0)]
  }

  /** The main loop. */
  function ScanFrom(lex: Lexer, s: string, groups: seq<Group>, first: bool): Scan
    requires Anchored(lex) && (first || groups != [])
    decreases |s|, 2, 0
  {
    if s == "" then Scanned(groups, s)
    else
      var (begun, s1) := OpenGroup(lex, s, groups, first);
      var k := lex.combinator(s1);
      assert k <= |s1|;
      match RunFilters(lex, s1[k..], 0, Combined(lex, s1, begun), k > 0)
      case FilterThrew => Threw
      case Filtered(tokens, rest, matched) =>
        var groups' := WithTokens(begun, tokens);
        if !matched then Scanned(groups', rest) else ScanFrom(lex, rest, groups', false)
  }

  function ScanAll(lex: Lexer, s: string): Scan
    requires Anchored(lex)
    decreases |s|, 3, 0
  {
    ScanFrom(lex, s, [], true)
  }

  datatype Outcome = Error | Excess(n: nat) | Groups(groups: seq<Group>)

  function Plain(lex: Lexer, selector: string, parseOnly: bool): Outcome
    requires Anchored(lex)
  {
    match ScanAll(lex, selector)
    case Threw => Error
    case Scanned(groups, rest) =>
      if parseOnly then Excess(|rest|) else if rest != "" then Error else Groups(groups)
  }

  // ----- printing undoes tokenizing -----

  lemma ToSelectorAppend(tokens: seq<Token>, t: Token)
    ensures ToSelector(tokens + [t]) == ToSelector(tokens) + t.value
  {
    assert (tokens + [t])[..|tokens|] == tokens;
  }

  lemma MovesOver(before: string, s: string, n: nat)
    requires n <= |s|
    ensures before + s[..n] + s[n..] == before + s
  {
  }

  lemma {:induction false} FiltersKeepText(lex: Lexer, s: string, i: nat, tokens: seq<Token>, matched: bool)
    requires Anchored(lex) && i <= |lex.filters|
    ensures
      var r := RunFilters(lex, s, i, tokens, matched);
      r.Filtered? ==> ToSelector(r.tokens) + r.rest == ToSelector(tokens) + s
    decreases |lex.filters| - i
  {
    if i < |lex.filters| {
      var r := FilterLength(lex, s, i);
      if r.Length? {
        if r.n == 0 {
          FiltersKeepText(lex, s, i + 1, tokens, matched);
        } else {
          var t := Token(s[..r.n], i + 1);
          ToSelectorAppend(tokens, t);
          FiltersKeepText(lex, s[r.n..], i + 1, tokens + [t], true);
          MovesOver(ToSelector(tokens), s, r.n);
        }
      }
    }
  }

  lemma SourceOfLast(groups: seq<Group>, tokens: seq<Token>)
    requires groups != []
    ensures
      var n := |groups| - 1;
      Source(WithTokens(groups, tokens)) == Source(groups[..n]) + (groups[n].comma + ToSelector(tokens))
  {
    var n := |groups| - 1;
    assert WithTokens(groups, tokens)[..n] == groups[..n];
  }

  lemma Regroup(a: string, b: string, c: string, d: string, e: string, f: string)
    requires c + d == e + f
    ensures (a + (b + c)) + d == (a + (b + e)) + f
  {
    calc {
      (a + (b + c)) + d;
      (a + b) + (c + d);
      (a + b) + (e + f);
      (a + (b + e)) + f;
    }
  }

  lemma SourceAppend(groups: seq<Group>, comma: string, s: string, s1: string)
    requires comma + s1 == s
    ensures Source(groups + [Group(comma, [])]) + s1 == Source(groups) + s
  {
    var all := groups + [Group(comma, [])];
    assert all[..|groups|] == groups;
    assert Source(all) == Source(groups) + (comma + "") == Source(groups) + comma;
    assert (Source(groups) + comma) + s1 == Source(groups) + (comma + s1);
  }

  lemma OpenKeepsText(lex: Lexer, s: string, groups: seq<Group>, first: bool)
    requires Anchored(lex) && (first || groups != [])
    ensures
      var (begun, s1) := OpenGroup(lex, s, groups, first);
      Source(begun) + s1 == Source(groups) + s
  {
    var c := lex.comma(s);
    assert c <= |s|;
    if first || c == |s| {
      assert "" + s == s;
      SourceAppend(groups, "", s, s);
    } else if c > 0 {
      assert s[..c] + s[c..] == s;
      SourceAppend(groups, s[..c], s, s[c..]);
    }
  }

  lemma CombinedText(lex: Lexer, s1: string, begun: seq<Group>)
    requires Anchored(lex) && begun != []
    ensures
      var k := lex.combinator(s1);
      k <= |s1| && ToSelector(Combined(lex, s1, begun)) + s1[k..] == ToSelector(begun[|begun| - 1].tokens) + s1
  {
    var k := lex.combinator(s1);
    assert k <= |s1|;
    var tokens := begun[|begun| - 1].tokens;
    if k > 0 {
      ToSelectorAppend(tokens, Token(s1[..k], 0));
      assert (ToSelector(tokens) + s1[..k]) + s1[k..] == ToSelector(tokens) + (s1[..k] + s1[k..]);
      assert s1[..k] + s1[k..] == s1;
    } else {
      assert Combined(lex, s1, begun) == tokens && s1[k..] == s1;
    }
  }

  /** One turn of the main loop moves text from the remainder into the groups. */
  lemma TurnKeepsText(lex: Lexer, s1: string, begun: seq<Group>)
    requires Anchored(lex) && begun != []
    ensures
      var k := lex.combinator(s1);
      k <= |s1| &&
      var r := RunFilters(lex, s1[k..], 0, Combined(lex, s1, begun), k > 0);
      r.Filtered? ==> Source(WithTokens(begun, r.tokens)) + r.rest == Source(begun) + s1
  {
    var k := lex.combinator(s1);
    CombinedText(lex, s1, begun);
    var tokens := Combined(lex, s1, begun);
    FiltersKeepText(lex, s1[k..], 0, tokens, k > 0);
    var r := RunFilters(lex, s1[k..], 0, tokens, k > 0);
    if r.Filtered? {
      SourceOfLast(begun, r.tokens);
      var n := |begun| - 1;
      Regroup(Source(begun[..n]), begun[n].comma, ToSelector(r.tokens), r.rest, ToSelector(begun[n].tokens), s1);
    }
  }

  lemma {:induction false} ScanKeepsText(lex: Lexer, s: string, groups: seq<Group>, first: bool)
    requires Anchored(lex) && (first || groups != [])
    ensures
      var r := ScanFrom(lex, s, groups, first);
      r.Scanned? ==> Source(r.groups) + r.rest == Source(groups) + s
    decreases |s|
  {
    if s != "" {
      var (begun, s1) := OpenGroup(lex, s, groups, first);
      OpenKeepsText(lex, s, groups, first);
      TurnKeepsText(lex, s1, begun);
      var k := lex.combinator(s1);
      var r := RunFilters(lex, s1[k..], 0, Combined(lex, s1, begun), k > 0);
      if r.Filtered? && r.matched {
        ScanKeepsText(lex, r.rest, WithTokens(begun, r.tokens), false);
      }
    }
  }

  ghost predicate Full(groups: seq<Group>) {
    forall i | 0 <= i < |groups| :: groups[i].tokens != []
  }

  lemma {:induction false} FiltersOnlyAppend(lex: Lexer, s: string, i: nat, tokens: seq<Token>, matched: bool)
    requires Anchored(lex) && i <= |lex.filters|
    ensures
      var r := RunFilters(lex, s, i, tokens, matched);
      r.Filtered? ==>
        && |r.tokens| >= |tokens| && (r.matched && !matched ==> |r.tokens| > |tokens|)
        && (!r.matched ==> r.rest == s)
    decreases |lex.filters| - i
  {
    if i < |lex.filters| {
      var r := FilterLength(lex, s, i);
      if r.Length? {
        if r.n == 0 {
          FiltersOnlyAppend(lex, s, i + 1, tokens, matched);
        } else {
          FiltersOnlyAppend(lex, s[r.n..], i + 1, tokens + [Token(s[..r.n], i + 1)], true);
        }
      }
    }
  }

  /** If everything was consumed, no group is empty. */
  lemma {:induction false} NoEmptyGroup(lex: Lexer, s: string, groups: seq<Group>, first: bool)
    requires Anchored(lex) && (first || groups != []) && Full(groups)
    ensures
      var r := ScanFrom(lex, s, groups, first);
      r.Scanned? && r.rest == "" ==> Full(r.groups)
    decreases |s|
  {
    if s != "" {
      var (begun, s1) := OpenGroup(lex, s, groups, first);
      var k := lex.combinator(s1);
      assert k <= |s1|;
      var tokens := Combined(lex, s1, begun);
      FiltersOnlyAppend(lex, s1[k..], 0, tokens, k > 0);
      var r := RunFilters(lex, s1[k..], 0, tokens, k > 0);
      if r.Filtered? && r.matched {
        var groups' := WithTokens(begun, r.tokens);
        forall i | 0 <= i < |groups'|
          ensures groups'[i].tokens != []
        {
          if i < |groups'| - 1 {
            assert groups'[i] == groups[i];
          }
        }
        NoEmptyGroup(lex, r.rest, groups', false);
      }
    }
  }

  /** An accepted selector is rebuilt by its groups with the commas consumed between them, and no
      group is empty. */
  lemma PrintingRebuilds(lex: Lexer, selector: string)
    requires Anchored(lex) && Plain(lex, selector, false).Groups?
    ensures Source(Plain(lex, selector, false).groups) == selector
    ensures Full(Plain(lex, selector, false).groups)
  {
    ScanKeepsText(lex, selector, [], true);
    NoEmptyGroup(lex, selector, [], true);
    var groups := Plain(lex, selector, false).groups;
    assert Source(groups) + "" == Source(groups);
    assert Source([]) + selector == selector;
  }

  /** Where the text of the i-th group starts. */
  function Start(groups: seq<Group>, i: nat): nat
    requires i < |groups|
  {
    |Source(groups[..i])| + |groups[i].comma|
  }

  /** `text` stands in `all` at index `at`. */
  predicate StandsAt(all: string, at: nat, text: string) {
    at + |text| <= |all| && all[at..at + |text|] == text
  }

  lemma StandsInLonger(all: string, more: string, at: nat, text: string)
    requires StandsAt(all, at, text)
    ensures StandsAt(all + more, at, text)
  {
    assert (all + more)[at..at + |text|] == all[at..at + |text|];
  }

  lemma StandsAtEnd(before: string, comma: string, text: string)
    ensures StandsAt(before + (comma + text), |before| + |comma|, text)
  {
  }

  /** The printed text of each group is verbatim text of the whole. */
  lemma {:induction false} GroupIsVerbatim(groups: seq<Group>, i: nat)
    requires i < |groups|
    ensures StandsAt(Source(groups), Start(groups, i), ToSelector(groups[i].tokens))
    decreases |groups|
  {
    var n := |groups| - 1;
    var last := groups[n];
    if i < n {
      GroupIsVerbatim(groups[..n], i);
      assert groups[..n][..i] == groups[..i];
      var text := ToSelector(groups[i].tokens);
      StandsInLonger(Source(groups[..n]), last.comma + ToSelector(last.tokens), Start(groups, i), text);
    } else {
      StandsAtEnd(Source(groups[..n]), last.comma, ToSelector(last.tokens));
    }
  }

  // ----- tokenizing with the token cache -----

  class CachedTokenizer {
    const lex: Lexer
    const limit: nat
    var cache: BoundedCache.Cache<seq<Group>>

    /** Every cached value is what tokenizing its key gives. */
    ghost predicate Valid()
      reads this
    {
      Anchored(lex) && forall k | k in cache.entries :: ScanAll(lex, k) == Scanned(cache.entries[k], "")
    }

    constructor (lex: Lexer, limit: nat)
      requires Anchored(lex)
      ensures Valid() && cache == BoundedCache.Empty()
    {
      this.lex, this.limit := lex, limit;
      cache := BoundedCache.Empty();
    }

    method FilterMatch(s: string, i: nat) returns (r: Length)
      requires Valid() && i < |lex.filters|
      modifies this`cache
      ensures Valid() && r == FilterLength(lex, s, i)
      ensures cache == old(cache)
      decreases |s|, 0
    {
      var h := lex.filters[i](s);
      assert HitOk(h, s);
      match h
      case Miss => r := Length(0);
      case Bad => r := Fail;
      case Take(len) => r := Length(len);
      case Trim(len, arg) =>
        var excess := Tokenize(s[arg..len - 1], true);
        if excess.Error? {
          r := Fail;
        } else {
          r := Length(CutBack(s, len, arg, excess.n));
        }
    }

    method FiltersLoop(s: string, start: seq<Token>, combinator: bool) returns (r: Filtered)
      requires Valid()
      modifies this`cache
      ensures Valid() && cache == old(cache)
      ensures r == RunFilters(lex, s, 0, start, combinator)
      decreases |s|, 1
    {
      var soFar, tokens, matched := s, start, combinator;
      var i := 0;
      while i < |lex.filters|
        invariant 0 <= i <= |lex.filters| && |soFar| <= |s| && Valid() && cache == old(cache)
        invariant RunFilters(lex, soFar, i, tokens, matched) == RunFilters(lex, s, 0, start, combinator)
      {
        var n := FilterMatch(soFar, i);
        if n.Fail? {
          return FilterThrew;
        }
        if n.n > 0 {
          matched := true;
          tokens := tokens + [Token(soFar[..n.n], i + 1)];
          soFar := soFar[n.n..];
        }
        i := i + 1;
      }
      r := Filtered(tokens, soFar, matched);
    }

    /** With the cache, tokenizing answers as without it, in both modes; parsing only leaves the
        cache alone, and tokenizing stores an accepted selector that was missing. */
    method Tokenize(selector: string, parseOnly: bool) returns (r: Outcome)
      requires Valid()
      modifies this`cache
      ensures Valid() && r == Plain(lex, selector, parseOnly)
      ensures cache == if !parseOnly && r.Groups? && selector !in old(cache).entries
                       then BoundedCache.Store(old(cache), limit, selector, r.groups) else old(cache)
      decreases |selector|, 3
    {
      if selector in cache.entries {
        return if parseOnly then Excess(0) else Groups(cache.entries[selector]);
      }
      var scan := ScanLoop(selector);
      if scan.Threw? {
        return Error;
      }
      if parseOnly {
        return Excess(|scan.rest|);
      }
      if scan.rest != "" {
        return Error;
      }
      cache := BoundedCache.Store(cache, limit, selector, scan.groups);
      r := Groups(scan.groups);
    }

    method ScanLoop(selector: string) returns (r: Scan)
      requires Valid()
      modifies this`cache
      ensures Valid() && cache == old(cache)
      ensures r == ScanAll(lex, selector)
      decreases |selector|, 2
    {
      var soFar, groups, first := selector, [], true;
      while soFar != ""
        invariant |soFar| <= |selector| && (first || groups != []) && Valid() && cache == old(cache)
        invariant ScanFrom(lex, soFar, groups, first) == ScanAll(lex, selector)
        decreases |soFar|
      {
        var (begun, s1) := OpenGroup(lex, soFar, groups, first);
        var k := lex.combinator(s1);
        assert k <= |s1|;
        var f := FiltersLoop(s1[k..], Combined(lex, s1, begun), k > 0);
        if f.FilterThrew? {
          return Threw;
        }
        groups, first := WithTokens(begun, f.tokens), false;
        soFar := f.rest;
        if !f.matched {
          return Scanned(groups, soFar);
        }
      }
      r := Scanned(groups, soFar);
    }
  }
}
