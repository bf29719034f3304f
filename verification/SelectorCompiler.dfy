/**
 The compiler from token lists to matchers, with the cache of compiled selectors: every compiled matcher means
 what its tokens mean, and in its runs a closure's name is unambiguous, though arguments of `:not` may share
 closures with each other and with selectors compiled before.
 */
module SelectorCompiler {
  import opened Prelude
  import opened Selectors
  import opened ClosureNames
  import BoundedCache

  /** `m` accepts exactly the nodes that `group` accepts, on every tree and in every run. */
  ghost predicate Means(m: Matcher, group: Group) {
    forall t, env, e :: Sem(t, env, m, e) <==> Accepts(t, env, group, e)
  }

  ghost predicate ListMeans(ms: seq<Matcher>, lead: Option<Combinator>, tokens: seq<Token>) {
    forall t, env, e :: Sem(t, env, All(ms), e) <==> Holds(t, env, lead, tokens, e)
  }

  ghost predicate MeansFilter(m: Matcher, token: Token)
    requires !token.Rel?
  {
    forall t, env, e :: Sem(t, env, m, e) <==> FilterHolds(t, env, token, e)
  }

  function ElementMatcher(ms: seq<Matcher>): (m: Matcher)
    requires ms != []
    ensures forall t, env, e :: Sem(t, env, m, e) <==> Sem(t, env, All(ms), e)
    ensures forall w :: HasTop(m, w) <==> HasTop(All(ms), w)
    ensures forall w :: HasDeep(m, w) <==> HasDeep(All(ms), w)
  {
    if |ms| > 1 then All(ms) else ms[0]
  }

  lemma Single(m: Matcher)
    ensures forall t, env, e :: Sem(t, env, All([m]), e) <==> Sem(t, env, m, e)
  {
    assert ElementMatcher([m]) == m;
  }

  // ----- one step of the compiler keeps the meaning -----

  lemma ReachMeans(lead: Option<Combinator>, n1: nat, n2: nat)
    ensures
      var c := if lead.Some? then lead.value else DESCENDANT;
      ListMeans([Reach(Walk(IsContext, c, true, n1), Walk(IsContext, c, true, n2), lead.Some?)], lead, [])
  {
    var c := if lead.Some? then lead.value else DESCENDANT;
    var one, any := Walk(IsContext, c, true, n1), Walk(IsContext, c, true, n2);
    var m := Reach(one, any, lead.Some?);
    Single(m);
    forall t, env, e
      ensures Sem(t, env, m, e) <==> Holds(t, env, lead, [], e)
    {
      assert forall p :: Sem(t, env, IsContext, p) <==> InContext(env.context, p);
      assert Sem(t, env, one, e) <==> exists p :: Related(t, c, true, p, e) && Sem(t, env, IsContext, p);
    }
  }

  lemma CombinatorMeans(ms: seq<Matcher>, lead: Option<Combinator>, tokens: seq<Token>, c: Combinator, name: nat)
    requires ms != [] && ListMeans(ms, lead, tokens)
    ensures ListMeans([Walk(ElementMatcher(ms), c, false, name)], lead, tokens + [Rel(c)])
  {
    var w := Walk(ElementMatcher(ms), c, false, name);
    var all := tokens + [Rel(c)];
    assert all[..|all| - 1] == tokens;
    Single(w);
    forall t, env, e
      ensures Sem(t, env, w, e) <==> Holds(t, env, lead, all, e)
    {
      assert forall p :: Sem(t, env, w.inner, p) <==> Sem(t, env, All(ms), p);
      assert forall p :: Sem(t, env, All(ms), p) <==> Holds(t, env, lead, tokens, p);
    }
  }

  lemma FilterMeans(ms: seq<Matcher>, lead: Option<Combinator>, tokens: seq<Token>, token: Token, f: Matcher)
    requires !token.Rel? && ListMeans(ms, lead, tokens) && MeansFilter(f, token)
    ensures ListMeans(ms + [f], lead, tokens + [token])
  {
    var all := tokens + [token];
    assert all[..|all| - 1] == tokens;
    forall t, env, e
      ensures Sem(t, env, All(ms + [f]), e) <==> Holds(t, env, lead, all, e)
    {
      var both := ms + [f];
      assert Sem(t, env, All(both), e) <==> Sem(t, env, All(ms), e) && Sem(t, env, f, e) by {
        assert both[|ms|] == f;
        assert forall i | 0 <= i < |ms| :: both[i] == ms[i];
      }
    }
  }

  lemma ShortcutMeans()
    ensures MeansFilter(Test(e => e != []), Nth(1, 0))
  {
    forall t, env, e
      ensures Sem(t, env, Test(e => e != []), e) <==> FilterHolds(t, env, Nth(1, 0), e)
    {
      assert Position(t, e) == 1 * Position(t, e) + 0;
    }
  }

  lemma NoneOfMeans(ms: seq<Matcher>, text: string, groups: seq<Group>)
    requires |ms| == |groups|
    requires forall j | 0 <= j < |ms| :: Means(ms[j], groups[|groups| - 1 - j])
    ensures MeansFilter(NoneOf(ms), Not(text, groups))
  {
    var n := |groups|;
    forall t, env, e
      ensures Sem(t, env, NoneOf(ms), e) <==> FilterHolds(t, env, Not(text, groups), e)
    {
      if Sem(t, env, NoneOf(ms), e) {
        forall i | 0 <= i < n
          ensures !Accepts(t, Nested(env), groups[i], e)
        {
          var j := n - 1 - i;
          assert !Sem(t, Nested(env), ms[j], e) && groups[n - 1 - j] == groups[i];
        }
      }
      if FilterHolds(t, env, Not(text, groups), e) {
        forall i | 0 <= i < n
          ensures !Sem(t, Nested(env), ms[i], e)
        {
          assert !Accepts(t, Nested(env), groups[n - 1 - i], e);
        }
      }
    }
  }
  // ----- compiling -----

  /** The matchers of a whole selector, one per group, last group first, compiled to the end. */
  ghost predicate Unit(ms: seq<Matcher>, groups: seq<Group>, b: Book) {
    && |ms| == |groups|
    && (forall j | 0 <= j < |ms| :: Means(ms[j], groups[|groups| - 1 - j]))
    && Finished(All(ms), b)
  }

  ghost predicate Units(entries: map<string, seq<Matcher>>, parse: string -> seq<Group>, b: Book) {
    forall text | text in entries :: Unit(entries[text], parse(text), b)
  }

  lemma UnitsExtend(entries: map<string, seq<Matcher>>, parse: string -> seq<Group>, b: Book, b': Book, next: nat)
    requires Units(entries, parse, b) && Extends(b, b', next)
    ensures Units(entries, parse, b')
  {
    forall text | text in entries
      ensures Unit(entries[text], parse(text), b')
    {
      FinishedExtends(All(entries[text]), b, b', next);
    }
  }

  class Compiler {
    const limit: nat
    ghost const parse: string -> seq<Group>         // what tokenizing gives
    var done: nat                                   // how many combinator closures exist
    var cache: BoundedCache.Cache<seq<Matcher>>     // compiled selectors by their text
    ghost var book: Book

    constructor (limit: nat, ghost parse: string -> seq<Group>)
      ensures Valid() && this.parse == parse
    {
      this.limit, this.parse := limit, parse;
      done, cache := 0, BoundedCache.Empty();
      book := Book(map[], {});
    }

    /** What is cached for a text means what the text means. */
    ghost predicate Valid()
      reads this
    {
      Fits(book, done) && Units(cache.entries, parse, book)
    }

    twostate predicate Grew()
      reads this
    {
      old(done) <= done && Extends(old(book), book, old(done))
    }

    method AddCombinator(inner: Matcher, c: Combinator, base: bool, ghost lo: nat) returns (m: Matcher)
      requires Valid() && Growing(inner, book, lo) && lo <= done
      modifies this`done, this`book
      ensures m == Walk(inner, c, base, old(done)) && done == old(done) + 1
      ensures Valid() && Grew() && Growing(m, book, lo)
    {
      m := Walk(inner, c, base, done);
      GrowingWalk(inner, c, base, book, lo, done);
      ghost var b := book.(made := book.made[done := m]);
      UnitsExtend(cache.entries, parse, book, b, done);
      book := b;
      done := done + 1;
    }

    /** The first matcher of every group: the context is reachable. */
    method Foundation(lead: Option<Combinator>) returns (m: Matcher)
      requires Valid()
      modifies this`done, this`book
      ensures Valid() && Grew() && Growing(All([m]), book, old(done)) && ListMeans([m], lead, [])
    {
      var c := if lead.Some? then lead.value else DESCENDANT;
      ReachMeans(lead, done, done + 1);
      var one := AddCombinator(IsContext, c, true, old(done));
      ghost var b, next := book, done;
      var any := AddCombinator(IsContext, c, true, old(done));
      GrowingExtends(one, b, old(done), book, next);
      m := Reach(one, any, lead.Some?);
      GrowingReach(one, any, lead.Some?, book, old(done));
    }

    /** A combinator token: everything so far goes inside one closure. */
    method Wrap(ms: seq<Matcher>, c: Combinator,
                ghost lead: Option<Combinator>, ghost tokens: seq<Token>, ghost lo: nat)
      returns (r: seq<Matcher>)
      requires Valid() && ms != [] && lo <= done && Growing(All(ms), book, lo) && ListMeans(ms, lead, tokens)
      modifies this`done, this`book
      ensures Valid() && Grew() && r != [] && Growing(All(r), book, lo) && ListMeans(r, lead, tokens + [Rel(c)])
    {
      CombinatorMeans(ms, lead, tokens, c, done);
      var w := AddCombinator(ElementMatcher(ms), c, false, lo);
      r := [w];
      GrowingList(r, book, lo);
    }

    /** A filter token: one more matcher in the compound. */
    method Append(ms: seq<Matcher>, token: Token,
                  ghost lead: Option<Combinator>, ghost tokens: seq<Token>, ghost lo: nat)
      returns (r: seq<Matcher>)
      requires Valid() && lo <= done && Growing(All(ms), book, lo) && ListMeans(ms, lead, tokens)
      requires !token.Rel? && WellFormedToken(parse, token)
      modifies this
      ensures Valid() && Grew() && r != [] && Growing(All(r), book, lo) && ListMeans(r, lead, tokens + [token])
      decreases token, 1
    {
      ghost var b, next := book, done;
      var f := FilterMatcher(token);
      GrowingExtends(All(ms), b, lo, book, next);
      GrowingAppend(ms, f, book, lo, next);
      FilterMeans(ms, lead, tokens, token, f);
      r := ms + [f];
    }

    method MatcherFromTokens(group: Group) returns (m: Matcher)
      requires Valid() && WellFormed(parse, group)
      modifies this
      ensures Valid() && Grew() && Growing(m, book, old(done))
      ensures Means(m, group)
      decreases group
    {
      var tokens := group.tokens;
      var lead := Lead(tokens);
      var base := Foundation(lead);
      var matchers := [base];
      var first := if lead.Some? then 1 else 0;
      var i := first;
      while i < |tokens|
        invariant first <= i <= |tokens| && matchers != []
        invariant Valid() && Grew() && Growing(All(matchers), book, old(done))
        invariant ListMeans(matchers, lead, tokens[first..i])
      {
        assert tokens[first..i + 1] == tokens[first..i] + [tokens[i]];
        if tokens[i].Rel? {
          matchers := Wrap(matchers, tokens[i].c, lead, tokens[first..i], old(done));
        } else {
          matchers := Append(matchers, tokens[i], lead, tokens[first..i], old(done));
        }
        i := i + 1;
      }
      assert tokens[first..] == Body(tokens) && tokens[first..] == tokens[first..i];
      m := ElementMatcher(matchers);
    }

    method FilterMatcher(token: Token) returns (m: Matcher)
      requires Valid() && !token.Rel? && WellFormedToken(parse, token)
      modifies this
      ensures Valid() && Grew() && Growing(m, book, old(done))
      ensures MeansFilter(m, token)
      decreases token, 0
    {
      match token
      case Simple(test) =>
        m := Test(test);
      case Nth(a, b) =>
        if a == 1 && b == 0 {
          ShortcutMeans();
          m := Test(e => e != []);
        } else {
          m := NthChild(a, b);
        }
      case Not(text, groups) =>
        var ms := Compile(text, groups);
        NoneOfMeans(ms, text, groups);
        GrowingNoneOf(ms, book, old(done));
        m := NoneOf(ms);
    }

    method CompileGroups(groups: seq<Group>) returns (ms: seq<Matcher>)
      requires Valid() && forall i | 0 <= i < |groups| :: WellFormed(parse, groups[i])
      modifies this
      ensures Valid() && Grew() && Growing(All(ms), book, old(done))
      ensures |ms| == |groups| && forall j | 0 <= j < |ms| :: Means(ms[j], groups[|groups| - 1 - j])
      decreases groups, 0
    {
      ms := [];
      var i := |groups|;
      while i > 0
        invariant 0 <= i <= |groups| && |ms| == |groups| - i
        invariant Valid() && Grew() && Growing(All(ms), book, old(done))
        invariant forall j | 0 <= j < |ms| :: Means(ms[j], groups[|groups| - 1 - j])
      {
        i := i - 1;
        ghost var b, next := book, done;
        var m := MatcherFromTokens(groups[i]);
        GrowingExtends(All(ms), b, old(done), book, next);
        GrowingAppend(ms, m, book, old(done), next);
        ms := ms + [m];
      }
    }

    /** Compiles a whole selector, or takes what was compiled for the same text before. */
    method Compile(text: string, groups: seq<Group>) returns (ms: seq<Matcher>)
      requires Valid() && groups == parse(text)
      requires forall i | 0 <= i < |groups| :: WellFormed(parse, groups[i])
      modifies this
      ensures Valid() && Grew() && Unit(ms, groups, book)
      decreases groups, 1
    {
      if text in cache.entries {
        return cache.entries[text];
      }
      ms := CompileGroups(groups);
      UnitCloses(ms, groups, cache.entries, parse, book, old(done), done);
      book := Closed(book, old(done), done);
      cache := BoundedCache.Store(cache, limit, text, ms);
    }
  }

  /** The names given since `lo` belong to a selector compiled to the end. */
  ghost function Closed(b: Book, lo: nat, next: nat): Book {
    b.(closed := b.closed + Names(lo, next))
  }

  lemma UnitCloses(ms: seq<Matcher>, groups: seq<Group>, entries: map<string, seq<Matcher>>,
                   parse: string -> seq<Group>, b: Book, lo: nat, next: nat)
    requires Growing(All(ms), b, lo) && Fits(b, next) && Units(entries, parse, b)
    requires |ms| == |groups| && forall j | 0 <= j < |ms| :: Means(ms[j], groups[|groups| - 1 - j])
    ensures
      var b' := Closed(b, lo, next);
      Unit(ms, groups, b') && Units(entries, parse, b') && Extends(b, b', lo) && Fits(b', next)
  {
    GrowingFinishes(All(ms), b, lo, next);
    UnitsExtend(entries, parse, b, Closed(b, lo, next), lo);
  }
}
