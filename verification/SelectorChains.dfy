/**
 The declarative reading of a selector: a chain of nodes, one per compound, each satisfying its
 compound and standing in the stated relation to the next (section 8 of Selectors Level 3).
 */
module SelectorChains {
  import opened Prelude
  import opened Dom
  import opened Selectors
  import NthChild

  /** How many combinators the tokens hold: the index of the compound being written. */
  function Compound(tokens: seq<Token>): nat {
    if tokens == [] then 0
    else Compound(tokens[..|tokens| - 1]) + if tokens[|tokens| - 1].Rel? then 1 else 0
  }

  /** The i-th token holds of the nodes that the chain assigns to its compounds. */
  ghost predicate LinkHolds(t: Tree, env: Env, tokens: seq<Token>, chain: seq<Node>, i: nat)
    requires i < |tokens|
  {
    var k := Compound(tokens[..i]);
    if tokens[i].Rel? then k + 1 < |chain| && Related(t, tokens[i].c, false, chain[k], chain[k + 1])
    else k < |chain| && FilterHolds(t, env, tokens[i], chain[k])
  }

  ghost predicate IsChain(t: Tree, env: Env, lead: Option<Combinator>, tokens: seq<Token>, chain: seq<Node>) {
    && |chain| == Compound(tokens) + 1
    && Rooted(t, env, lead, chain[0])
    && forall i | 0 <= i < |tokens| :: LinkHolds(t, env, tokens, chain, i)
  }

  lemma {:induction false} ChainExists(t: Tree, env: Env, lead: Option<Combinator>, tokens: seq<Token>, e: Node)
    returns (chain: seq<Node>)
    requires Holds(t, env, lead, tokens, e)
    ensures IsChain(t, env, lead, tokens, chain) && chain[|chain| - 1] == e
    decreases tokens
  {
    if tokens == [] {
      chain := [e];
    } else {
      var n := |tokens| - 1;
      var rest, last := tokens[..n], tokens[n];
      var before: seq<Node>;
      if last.Rel? {
        var p :| Related(t, last.c, false, p, e) && Holds(t, env, lead, rest, p);
        before := ChainExists(t, env, lead, rest, p);
        chain := before + [e];
      } else {
        before := ChainExists(t, env, lead, rest, e);
        chain := before;
      }
      forall i | 0 <= i < |tokens|
        ensures LinkHolds(t, env, tokens, chain, i)
      {
        if i < n {
          assert rest[..i] == tokens[..i];
          assert LinkHolds(t, env, rest, before, i);
        }
      }
    }
  }

  lemma {:induction false} ChainSuffices(t: Tree, env: Env, lead: Option<Combinator>, tokens: seq<Token>,
                                         chain: seq<Node>)
    requires IsChain(t, env, lead, tokens, chain)
    ensures Holds(t, env, lead, tokens, chain[|chain| - 1])
    decreases tokens
  {
    if tokens != [] {
      var n := |tokens| - 1;
      var rest, last := tokens[..n], tokens[n];
      var before := chain[..Compound(rest) + 1];
      assert LinkHolds(t, env, tokens, chain, n);
      forall i | 0 <= i < n
        ensures LinkHolds(t, env, rest, before, i)
      {
        assert LinkHolds(t, env, tokens, chain, i);
        assert rest[..i] == tokens[..i];
        assert rest[..i + 1][..i] == rest[..i];
        CompoundMonotone(rest, i + 1);
      }
      ChainSuffices(t, env, lead, rest, before);
    }
  }

  lemma {:induction false} CompoundMonotone(tokens: seq<Token>, i: nat)
    requires i <= |tokens|
    ensures Compound(tokens[..i]) <= Compound(tokens)
  {
    if i == |tokens| {
      assert tokens[..i] == tokens;
    } else {
      assert tokens[..|tokens| - 1][..i] == tokens[..i];
      CompoundMonotone(tokens[..|tokens| - 1], i);
    }
  }

  /** A group accepts a node exactly when some chain of nodes satisfies it and ends there. */
  lemma AcceptsIffChain(t: Tree, env: Env, group: Group, e: Node)
    requires group.tokens != []
    ensures Accepts(t, env, group, e) <==>
            exists chain :: IsChain(t, env, Lead(group.tokens), Body(group.tokens), chain) && chain[|chain| - 1] == e
  {
    var lead, body := Lead(group.tokens), Body(group.tokens);
    if Accepts(t, env, group, e) {
      var _ := ChainExists(t, env, lead, body, e);
    }
    if chain :| IsChain(t, env, lead, body, chain) && chain[|chain| - 1] == e {
      ChainSuffices(t, env, lead, body, chain);
    }
  }

  /** Only the root may be a non-element with children, as in every document. */
  ghost predicate ElementsCarryChildren(t: Tree) {
    forall n :: n != [] && Has(t, n) && At(t, n).kids != [] ==> IsElement(t, n)
  }

  /** In a document, the nearest element ancestor is the parent itself, so `>` relates a node
      to its parent element and to nothing else. */
  lemma ChildIsParent(t: Tree, p: Node, e: Node)
    requires Has(t, e) && ElementsCarryChildren(t)
    ensures Related(t, CHILD, false, p, e) <==> e != [] && p == Up(e) && IsElement(t, p)
  {
    if Related(t, CHILD, false, p, e) && p != Up(e) {
      var r := e[..|p| + 1];
      PrefixHas(t, e, |p| + 1);
      PrefixHas(t, e, |p| + 2);
      ChildOfParent(t, e[..|p| + 2]);
      assert Up(e[..|p| + 2]) == r;
      assert InLine(ParentNode, r, e) && InLine(ParentNode, p, r);
      assert false;
    }
  }

  /** `~` relates an element to the elements before it under the same parent. */
  lemma SiblingIsPreceding(t: Tree, p: Node, e: Node)
    ensures Related(t, SIBLING, false, p, e) <==>
            IsElement(t, p) && |p| == |e| && e != [] && Up(p) == Up(e) && Last(p) < Last(e)
  {
  }

  /** `+` relates an element to the last of them: between the two there is no other element. */
  lemma AdjacentIsLastPreceding(t: Tree, p: Node, e: Node)
    ensures Related(t, ADJACENT, false, p, e) <==>
            && Related(t, SIBLING, false, p, e)
            && forall j: nat | Last(p) < j < Last(e) :: !IsElement(t, Up(e) + [j])
  {
    if Related(t, SIBLING, false, p, e) {
      forall q | InLine(PreviousSibling, q, e)
        ensures q == Up(e) + [Last(q)]
      {
      }
      forall j: nat | Last(p) < j < Last(e)
        ensures InLine(PreviousSibling, Up(e) + [j], e) && InLine(PreviousSibling, p, Up(e) + [j])
      {
        var q := Up(e) + [j];
        assert Up(q) == Up(e) && Last(q) == j;
      }
    }
  }

  /** A space relates an element to its ancestor elements. */
  lemma DescendantHasAncestor(t: Tree, p: Node, e: Node)
    ensures Related(t, DESCENDANT, false, p, e) <==> IsElement(t, p) && |p| < |e| && e[..|p|] == p
  {
  }

  // ----- the context -----

  /** A proper ancestor, the document node included. */
  predicate Above(p: Node, e: Node) {
    |p| < |e| && e[..|p|] == p
  }

  /** Related to the context by `c`, the nodes on the way being admitted whatever their kind. */
  ghost predicate FromContext(t: Tree, context: Context, c: Combinator, e: Node) {
    match context
    case One(node) => Related(t, c, true, node, e)
    case Many(nodes) => exists i | 0 <= i < |nodes| :: Related(t, c, true, nodes[i], e)
  }

  lemma RootedInContext(t: Tree, env: Env, lead: Option<Combinator>, e: Node)
    requires lead.Some? || (!env.xml && env.outermost)
    ensures Rooted(t, env, lead, e) <==> FromContext(t, env.context, if lead.Some? then lead.value else DESCENDANT, e)
  {
    var c := if lead.Some? then lead.value else DESCENDANT;
    assert Rooted(t, env, lead, e) <==> exists p :: Related(t, c, true, p, e) && InContext(env.context, p);
    match env.context
    case One(node) =>
      if Related(t, c, true, node, e) {
        assert InContext(env.context, node);
      }
    case Many(nodes) =>
      if i :| 0 <= i < |nodes| && Related(t, c, true, nodes[i], e) {
        assert InContext(env.context, nodes[i]);
      }
  }

  /** Run from outside on a document that is not XML, a selector without leading combinator reaches the context
      exactly if a context node is a proper ancestor. */
  lemma ImplicitContext(t: Tree, context: Context, e: Node)
    ensures
      var rooted := Rooted(t, Env(context, false, true), None, e);
      match context
      case One(c) => rooted <==> Above(c, e)
      case Many(cs) => rooted <==> exists i | 0 <= i < |cs| :: Above(cs[i], e)
  {
    RootedInContext(t, Env(context, false, true), None, e);
    forall p
      ensures Related(t, DESCENDANT, true, p, e) <==> Above(p, e)
    {
    }
  }

  /** Run on XML, or inside another selector, it needs no context at all. */
  lemma NoContextNeeded(t: Tree, env: Env, e: Node)
    requires env.xml || !env.outermost
    ensures Rooted(t, env, None, e)
  {
  }

  /** With a leading `>`, the parent is a context node, whatever kind of node that is. */
  lemma LeadingChild(t: Tree, env: Env, e: Node)
    ensures
      var rooted := Rooted(t, env, Some(CHILD), e);
      match env.context
      case One(c) => rooted <==> e != [] && Up(e) == c
      case Many(cs) => rooted <==> e != [] && exists i | 0 <= i < |cs| :: cs[i] == Up(e)
  {
    RootedInContext(t, env, Some(CHILD), e);
    if e != [] {
      ParentIsNearest(t, e);
    }
  }

  lemma ParentIsNearest(t: Tree, e: Node)
    requires e != []
    ensures forall p :: Related(t, CHILD, true, p, e) <==> p == Up(e)
  {
    forall p
      ensures Related(t, CHILD, true, p, e) <==> p == Up(e)
    {
      if InLine(ParentNode, p, e) && p != Up(e) {
        assert InLine(ParentNode, Up(e), e) && InLine(ParentNode, p, Up(e)) && Admissible(t, CHILD, true, Up(e));
      }
    }
  }

  /** With a leading `+` or `~`, a context node is related as those combinators say. */
  lemma LeadingSibling(t: Tree, env: Env, e: Node)
    ensures
      var adjacent, sibling := Rooted(t, env, Some(ADJACENT), e), Rooted(t, env, Some(SIBLING), e);
      match env.context
      case One(c) =>
        && (adjacent <==> Related(t, ADJACENT, false, c, e))
        && (sibling <==> Related(t, SIBLING, false, c, e))
      case Many(cs) =>
        && (adjacent <==> exists i | 0 <= i < |cs| :: Related(t, ADJACENT, false, cs[i], e))
        && (sibling <==> exists i | 0 <= i < |cs| :: Related(t, SIBLING, false, cs[i], e))
  {
    RootedInContext(t, env, Some(ADJACENT), e);
    RootedInContext(t, env, Some(SIBLING), e);
    forall p
      ensures Related(t, ADJACENT, true, p, e) <==> Related(t, ADJACENT, false, p, e)
      ensures Related(t, SIBLING, true, p, e) <==> Related(t, SIBLING, false, p, e)
    {
    }
  }

  // ----- whole selectors -----

  const FROM_DOCUMENT := Env(One([]), false, true)

  /** A single test, asked of a document, accepts every node below it that passes. */
  lemma SimpleSelector(t: Tree, test: Node -> bool, e: Node)
    ensures Accepts(t, FROM_DOCUMENT, Group([Simple(test)]), e) <==> e != [] && test(e)
  {
    OneCompound(t, FROM_DOCUMENT, None, test, e);
    ImplicitContext(t, One([]), e);
  }

  lemma OneCompound(t: Tree, env: Env, lead: Option<Combinator>, f: Node -> bool, e: Node)
    ensures Holds(t, env, lead, [Simple(f)], e) <==> Rooted(t, env, lead, e) && f(e)
  {
    assert [Simple(f)][..0] == [];
    assert Holds(t, env, lead, [], e) <==> Rooted(t, env, lead, e);
  }

  lemma TwoCompounds(t: Tree, env: Env, f: Node -> bool, c: Combinator, g: Node -> bool, e: Node)
    ensures Accepts(t, env, Group([Simple(f), Rel(c), Simple(g)]), e) <==>
            g(e) && exists p :: Related(t, c, false, p, e) && f(p) && Rooted(t, env, None, p)
  {
    var three, two, one := [Simple(f), Rel(c), Simple(g)], [Simple(f), Rel(c)], [Simple(f)];
    assert three[..2] == two && two[..1] == one;
    assert Body(three) == three && Lead(three) == None;
    assert Holds(t, env, None, three, e) <==> Holds(t, env, None, two, e) && g(e);
    assert Holds(t, env, None, two, e) <==> exists p :: Related(t, c, false, p, e) && Holds(t, env, None, one, p);
    forall p
      ensures Holds(t, env, None, one, p) <==> Rooted(t, env, None, p) && f(p)
    {
      OneCompound(t, env, None, f, p);
    }
  }

  /** Two tests with a space between, asked of a document: a node that passes the second, below an element that
      passes the first and is not the root. */
  lemma DescendantSelector(t: Tree, f: Node -> bool, g: Node -> bool, e: Node)
    ensures Accepts(t, FROM_DOCUMENT, Group([Simple(f), Rel(DESCENDANT), Simple(g)]), e) <==>
            g(e) && exists k | 0 < k < |e| :: IsElement(t, e[..k]) && f(e[..k])
  {
    TwoCompounds(t, FROM_DOCUMENT, f, DESCENDANT, g, e);
    forall p
      ensures Rooted(t, FROM_DOCUMENT, None, p) <==> p != []
      ensures Related(t, DESCENDANT, false, p, e) <==> IsElement(t, p) && Above(p, e)
    {
      ImplicitContext(t, One([]), p);
    }
    if k :| 0 < k < |e| && IsElement(t, e[..k]) && f(e[..k]) {
      assert Related(t, DESCENDANT, false, e[..k], e);
    }
  }

  /** With `>`: its parent is an element that passes the first and is not the root. */
  lemma ChildSelector(t: Tree, f: Node -> bool, g: Node -> bool, e: Node)
    requires Has(t, e) && ElementsCarryChildren(t)
    ensures Accepts(t, FROM_DOCUMENT, Group([Simple(f), Rel(CHILD), Simple(g)]), e) <==>
            g(e) && |e| > 1 && IsElement(t, Up(e)) && f(Up(e))
  {
    TwoCompounds(t, FROM_DOCUMENT, f, CHILD, g, e);
    forall p
      ensures Rooted(t, FROM_DOCUMENT, None, p) <==> p != []
      ensures Related(t, CHILD, false, p, e) <==> e != [] && p == Up(e) && IsElement(t, p)
    {
      ImplicitContext(t, One([]), p);
      ChildIsParent(t, p, e);
    }
  }

  /** A leading `>` before a single test: a child of a context node that passes. */
  lemma LeadingChildSelector(t: Tree, env: Env, f: Node -> bool, e: Node)
    ensures
      var accepts := Accepts(t, env, Group([Rel(CHILD), Simple(f)]), e);
      match env.context
      case One(c) => accepts <==> f(e) && e != [] && Up(e) == c
      case Many(cs) => accepts <==> f(e) && e != [] && exists i | 0 <= i < |cs| :: cs[i] == Up(e)
  {
    var tokens := [Rel(CHILD), Simple(f)];
    assert Lead(tokens) == Some(CHILD) && Body(tokens) == [Simple(f)];
    OneCompound(t, env, Some(CHILD), f, e);
    LeadingChild(t, env, e);
  }

  /** `:not` of single tests accepts what passes none of them, wherever it stands and whatever the context. */
  lemma NotOfSimple(t: Tree, env: Env, text: string, tests: seq<Node -> bool>, e: Node)
    ensures
      var groups := seq(|tests|, i requires 0 <= i < |tests| => Group([Simple(tests[i])]));
      FilterHolds(t, env, Not(text, groups), e) <==> forall i | 0 <= i < |tests| :: !tests[i](e)
  {
    forall i | 0 <= i < |tests|
      ensures Accepts(t, Nested(env), Group([Simple(tests[i])]), e) <==> tests[i](e)
    {
      OneCompound(t, Nested(env), None, tests[i], e);
    }
    var groups := seq(|tests|, i requires 0 <= i < |tests| => Group([Simple(tests[i])]));
    assert FilterHolds(t, env, Not(text, groups), e) <==>
           forall i | 0 <= i < |groups| :: !Accepts(t, Nested(env), groups[i], e);
    assert forall i | 0 <= i < |groups| :: groups[i] == Group([Simple(tests[i])]);
  }

  /** The indices below `n` of the element children. */
  ghost function ElementsUpTo(t: Tree, parent: Node, n: nat): set<nat> {
    if n == 0 then {}
    else ElementsUpTo(t, parent, n - 1) + if IsElement(t, parent + [n - 1]) then {n - 1} else {}
  }

  lemma {:induction false} InElements(t: Tree, parent: Node, n: nat, j: nat)
    ensures j in ElementsUpTo(t, parent, n) <==> j < n && IsElement(t, parent + [j])
    decreases n
  {
    if n > 0 {
      InElements(t, parent, n - 1, j);
    }
  }

  lemma ElementAt(t: Tree, parent: Node, j: nat)
    requires Has(t, parent) && j < |At(t, parent).kids|
    ensures IsElement(t, parent + [j]) <==> At(t, parent).kids[j].kind.Element?
  {
    var n := parent + [j];
    assert Up(n) == parent && Last(n) == j;
    ChildOfParent(t, n);
  }

  lemma OneMore(s: set<nat>, n: nat, more: bool)
    requires n !in s
    ensures |s + if more then {n} else {}| == |s| + if more then 1 else 0
  {
  }

  lemma SizeNext(t: Tree, parent: Node, n: nat)
    ensures |ElementsUpTo(t, parent, n + 1)| ==
            |ElementsUpTo(t, parent, n)| + if IsElement(t, parent + [n]) then 1 else 0
  {
    InElements(t, parent, n, n);
    OneMore(ElementsUpTo(t, parent, n), n, IsElement(t, parent + [n]));
  }

  lemma {:induction false} CountIsSize(t: Tree, parent: Node, n: nat)
    requires Has(t, parent) && n <= |At(t, parent).kids|
    ensures CountElements(At(t, parent).kids[..n]) == |ElementsUpTo(t, parent, n)|
    decreases n
  {
    if n > 0 {
      CountIsSize(t, parent, n - 1);
      ElementAt(t, parent, n - 1);
      SizeNext(t, parent, n - 1);
      NthChild.CountSplit(At(t, parent).kids, n - 1);
    }
  }

  /** `:nth-child(an+b)` accepts an element exactly if the number of elements under the same parent up to and
      including it is a*k+b for some k. */
  lemma NthCountsSiblings(t: Tree, env: Env, a: int, b: int, e: Node)
    requires e != [] && IsElement(t, e)
    ensures FilterHolds(t, env, Nth(a, b), e) <==>
            exists k: nat :: |ElementsUpTo(t, Up(e), Last(e) + 1)| == a * k + b
  {
    ChildOfParent(t, e);
    CountIsSize(t, Up(e), Last(e) + 1);
  }
}
