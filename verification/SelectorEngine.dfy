/**
 Running compiled selectors with the caches that live on the document's nodes.

 `slots` holds, per node and direction, a reference to a cell; all nodes visited by one walk share
 one cell, so a result found late reaches the nodes visited early. Nested combinators overwrite
 slots, and `:not` changes the current run in the middle of a walk. Every answer is nevertheless
 that of the plain search `Sem`.
 */
module SelectorEngine {
  import opened Prelude
  import opened Dom
  import opened Selectors
  import opened NthChild
  import opened SelectorCompiler
  import opened ClosureNames

  class Cell {
    const run: nat
    const name: nat
    var result: Option<bool>

    constructor (run: nat, name: nat)
      ensures this.run == run && this.name == name && result == None
    {
      this.run := run;
      this.name := name;
      result := None;
    }
  }

  /** The last child found under a parent: its index and how many elements lie up to it. */
  datatype NthEntry = NthEntry(run: nat, index: nat, count: nat)

  // ----- what the caches must hold -----

  ghost predicate Hit(t: Tree, env: Env, w: Matcher, q: Node)
    requires w.Walk?
  {
    Admissible(t, w.c, w.base, q) && Sem(t, env, w.inner, q)
  }

  /** Some node at `p` or further along satisfies the walk's matcher. */
  ghost predicate Beyond(t: Tree, env: Env, w: Matcher, p: Node)
    requires w.Walk?
  {
    exists q :: Ahead(w.c.dir, Some(p), q) && Hit(t, env, w, q)
  }

  /** A selector run: the compiled matcher and its environment. Names tell its closures apart. */
  datatype Run = Run(root: Matcher, env: Env) {
    ghost predicate Holds(w: Matcher, we: Env) {
      HasWalk(root, env, w, we)
    }

    ghost predicate WellNamed() {
      && (forall w, we :: Holds(w, we) ==> w.Walk?)
      && (forall w, we, v, ve :: Holds(w, we) && Holds(v, ve) && w.name == v.name ==> w == v && we == ve)
    }
  }

  ghost predicate CellOk(t: Tree, ws: Run, r0: nat, key: (Node, Dir), c: Cell)
    reads c
  {
    c.run >= r0 ==> forall w, we :: ws.Holds(w, we) && w.Walk? && w.name == c.name ==>
        key.1 == w.c.dir && c.result == Some(Beyond(t, we, w, key.0))
  }

  ghost predicate NthOk(t: Tree, r0: nat, parent: Node, entry: NthEntry) {
    entry.run >= r0 ==>
      Has(t, parent) && entry.index < |At(t, parent).kids| &&
      entry.count == CountElements(At(t, parent).kids[..entry.index + 1])
  }

  // ----- progress of one walk -----

  /** Everything between `e` and `cur` has been tried in vain. */
  ghost predicate Searched(t: Tree, env: Env, w: Matcher, e: Node, cur: Option<Node>)
    requires w.Walk?
  {
    && (forall q :: InLine(w.c.dir, q, e) ==> Ahead(w.c.dir, cur, q) || !Hit(t, env, w, q))
    && (forall q :: Ahead(w.c.dir, cur, q) ==> InLine(w.c.dir, q, e))
  }

  /** `p` was visited before `cur`. */
  ghost predicate Behind(w: Matcher, e: Node, cur: Option<Node>, p: Node)
    requires w.Walk?
  {
    && InLine(w.c.dir, p, e)
    && !Ahead(w.c.dir, cur, p)
    && (forall q :: Ahead(w.c.dir, cur, q) ==> InLine(w.c.dir, q, p))
  }

  lemma SearchBegins(t: Tree, env: Env, w: Matcher, e: Node)
    requires w.Walk?
    ensures Searched(t, env, w, e, Step(w.c.dir, e))
  {
    forall q {
      StepsCoverLine(w.c.dir, q, e);
    }
  }

  lemma SearchSteps(t: Tree, env: Env, w: Matcher, e: Node, p: Node)
    requires w.Walk? && Searched(t, env, w, e, Some(p)) && !Hit(t, env, w, p)
    ensures Searched(t, env, w, e, Step(w.c.dir, p))
    ensures Behind(w, e, Step(w.c.dir, p), p)
    ensures forall q :: Behind(w, e, Some(p), q) ==> Behind(w, e, Step(w.c.dir, p), q)
  {
    forall q
      ensures InLine(w.c.dir, q, p) <==> Ahead(w.c.dir, Step(w.c.dir, p), q)
      ensures !InLine(w.c.dir, p, p)
    {
      StepsCoverLine(w.c.dir, q, p);
      LineIsAcyclic(w.c.dir, p, p);
    }
    assert Ahead(w.c.dir, Some(p), p);
  }

  /** What is left to search decides for every node already visited. */
  lemma BehindDecides(t: Tree, env: Env, w: Matcher, e: Node, cur: Option<Node>, p: Node)
    requires w.Walk? && Searched(t, env, w, e, cur) && Behind(w, e, cur, p)
    ensures Beyond(t, env, w, p) <==> exists q :: Ahead(w.c.dir, cur, q) && Hit(t, env, w, q)
  {
    if q :| Ahead(w.c.dir, Some(p), q) && Hit(t, env, w, q) {
      if q != p {
        LineTransitive(w.c.dir, q, p, e);
      }
      assert Ahead(w.c.dir, cur, q);
    }
    if q :| Ahead(w.c.dir, cur, q) && Hit(t, env, w, q) {
      assert Ahead(w.c.dir, Some(p), q);
    }
  }

  lemma SearchDecides(t: Tree, env: Env, w: Matcher, e: Node, cur: Option<Node>)
    requires w.Walk? && !w.c.first && Searched(t, env, w, e, cur)
    ensures Sem(t, env, w, e) <==> exists q :: Ahead(w.c.dir, cur, q) && Hit(t, env, w, q)
  {
    assert forall q :: Related(t, w.c, w.base, q, e) && Sem(t, env, w.inner, q) <==>
        InLine(w.c.dir, q, e) && Hit(t, env, w, q);
  }

  lemma StepHas(t: Tree, dir: Dir, n: Node)
    requires Has(t, n) && Step(dir, n).Some?
    ensures Has(t, Step(dir, n).value)
  {
    ChildOfParent(t, n);
    if dir.PreviousSibling? {
      var p := Up(n) + [Last(n) - 1];
      assert Up(p) == Up(n);
      ChildOfParent(t, p);
    }
  }

  /** One step of a walk that found nothing at `p`. */
  lemma WalkOn(t: Tree, env: Env, w: Matcher, e: Node, p: Node)
    requires w.Walk? && Has(t, p) && Searched(t, env, w, e, Some(p)) && !Hit(t, env, w, p)
    ensures
      var next := Step(w.c.dir, p);
      && Searched(t, env, w, e, next)
      && (forall q :: Behind(w, e, Some(p), q) ==> Behind(w, e, next, q))
      && (next.Some? ==> Has(t, next.value) && Distance(w.c.dir, next.value) < Distance(w.c.dir, p))
  {
    SearchSteps(t, env, w, e, p);
    StepsCoverLine(w.c.dir, p, p);
    if Step(w.c.dir, p).Some? {
      StepHas(t, w.c.dir, p);
    }
  }

  lemma WalkBegins(t: Tree, env: Env, w: Matcher, e: Node)
    requires w.Walk? && Has(t, e)
    ensures Searched(t, env, w, e, Step(w.c.dir, e))
    ensures Step(w.c.dir, e).Some? ==> Has(t, Step(w.c.dir, e).value)
  {
    SearchBegins(t, env, w, e);
    if Step(w.c.dir, e).Some? {
      StepHas(t, w.c.dir, e);
    }
  }

  /** A closure inside `m` is `m` itself or a proper part of it. */
  lemma {:induction false} WalksArePart(m: Matcher, env: Env, w: Matcher, we: Env)
    requires HasWalk(m, env, w, we)
    ensures w == m || w < m
    decreases m
  {
    match m
    case All(ms) =>
      var i :| 0 <= i < |ms| && HasWalk(ms[i], env, w, we);
      WalksArePart(ms[i], env, w, we);
    case Walk(inner, _, _, _) =>
      if HasWalk(inner, env, w, we) { WalksArePart(inner, env, w, we); }
    case Reach(one, any, _) =>
      if HasWalk(one, env, w, we) { WalksArePart(one, env, w, we); } else { WalksArePart(any, env, w, we); }
    case NoneOf(groups) =>
      var i :| 0 <= i < |groups| && HasWalk(groups[i], Nested(env), w, we);
      WalksArePart(groups[i], Nested(env), w, we);
    case _ =>
  }

  ghost predicate Contained(m: Matcher, env: Env, ws: Run) {
    ws.WellNamed() && forall w, we :: HasWalk(m, env, w, we) ==> ws.Holds(w, we)
  }

  /** No closure inside `m` bears the name of a walk that is still under way. */
  ghost predicate Apart(m: Matcher, env: Env, busy: set<Cell>) {
    forall w, we, c :: HasWalk(m, env, w, we) && c in busy ==> w.Walk? && w.name != c.name
  }

  lemma InnerApart(m: Matcher, env: Env, ws: Run, busy: set<Cell>, cell: Cell)
    requires m.Walk? && Contained(m, env, ws) && Apart(m, env, busy) && cell.name == m.name
    ensures Contained(m.inner, env, ws) && Apart(m.inner, env, busy + {cell})
    ensures ws.Holds(m, env) && forall c :: c in busy ==> c.name != m.name
  {
    assert HasWalk(m, env, m, env);
    forall w, we | HasWalk(m.inner, env, w, we)
      ensures HasWalk(m, env, w, we) && w.Walk? && w.name != m.name
    {
      assert HasWalk(m, env, w, we);
      if w.name == m.name {
        assert w == m;
        WalksArePart(m.inner, env, w, we);
        assert false;
      }
    }
  }

  class Engine {
    var tree: Tree
    var dirruns: nat              // the current run
    var runStart: nat             // the outermost run
    var nextRun: nat              // numbers from here on were never used
    var slots: map<(Node, Dir), Cell>
    var nth: map<Node, NthEntry>

    constructor (tree: Tree)
      ensures this.tree == tree && Consistent()
    {
      this.tree := tree;
      dirruns, runStart, nextRun := 0, 0, 1;
      slots, nth := map[], map[];
    }

    /** No cache entry comes from a run that has not happened yet. */
    ghost predicate Consistent()
      reads this
    {
      && dirruns < nextRun
      && (forall k :: k in slots ==> slots[k].run < nextRun)
      && (forall p :: p in nth ==> nth[p].run < nextRun)
    }

    /** Entries written since run `r0` agree with the plain search, except those of walks
        that are still under way. */
    ghost predicate Good(ws: Run, r0: nat, busy: set<Cell>)
      reads this, set k | k in slots :: slots[k]
    {
      && Consistent() && r0 <= runStart <= dirruns
      && (forall k :: k in slots ==> slots[k] in busy || CellOk(tree, ws, r0, k, slots[k]))
      && (forall p :: p in nth ==> NthOk(tree, r0, p, nth[p]))
    }

    /** A finished walk: its cell, wherever it is stored, now holds the right answer. */
    lemma CellSettles(m: Matcher, env: Env, cell: Cell, ws: Run, r0: nat, busy: set<Cell>)
      requires Good(ws, r0, busy + {cell}) && ws.WellNamed() && m.Walk? && ws.Holds(m, env) && cell.name == m.name
      requires forall k :: k in slots && slots[k] == cell ==>
          k.1 == m.c.dir && cell.result == Some(Beyond(tree, env, m, k.0))
      ensures Good(ws, r0, busy)
    {
      forall k | k in slots && slots[k] == cell
        ensures CellOk(tree, ws, r0, k, cell)
      {
      }
    }

    /** Runs only grow, and every slot is as before or holds a new cell. */
    twostate predicate OnlyNewCells()
      reads this
    {
      && old(nextRun) <= nextRun
      && forall k :: k in slots ==> (k in old(slots) && slots[k] == old(slots[k])) || fresh(slots[k])
    }

    /** Counts elements up to `e`, starting from what an earlier call in this run left on the parent. */
    method SeekForward(e: Node, ghost ws: Run, ghost r0: nat, ghost busy: set<Cell>) returns (diff: nat)
      requires Has(tree, e) && e != [] && Good(ws, r0, busy)
      modifies this`nth
      ensures diff == Position(tree, e)
      ensures Good(ws, r0, busy)
    {
      ChildOfParent(tree, e);
      var parent := Up(e);
      var cached := None;
      if parent in nth && nth[parent].run == dirruns {
        assert NthOk(tree, r0, parent, nth[parent]);
        cached := Some(Mark(nth[parent].index, nth[parent].count));
      }
      var found, count := Seek(At(tree, parent).kids, Last(e), cached);
      if found {
        nth := nth[parent := NthEntry(dirruns, Last(e), count)];
      }
      diff := count;
    }

    /** Runs matcher `m` on `e`: the answer is that of the plain search. */
    method Match(m: Matcher, env: Env, e: Node, ghost ws: Run, ghost r0: nat, ghost busy: set<Cell>)
      returns (b: bool)
      requires Has(tree, e) && Good(ws, r0, busy)
      requires Contained(m, env, ws) && Apart(m, env, busy)
      modifies this`dirruns, this`nextRun, this`slots, this`nth
      ensures b <==> Sem(tree, env, m, e)
      ensures Good(ws, r0, busy) && OnlyNewCells()
      decreases m, 2
    {
      match m
      case Test(test) =>
        b := test(e);
      case IsContext =>
        b := InContext(env.context, e);
      case NthChild(a, c) =>
        if e == [] {
          b := false;
        } else {
          var diff: nat;
          if env.xml {
            ChildOfParent(tree, e);
            diff := SeekUncached(At(tree, Up(e)).kids, Last(e));
          } else {
            diff := SeekForward(e, ws, r0, busy);
          }
          CountTestIsProgression(diff, a, c);
          b := CountTest(diff, a, c);
        }
      case All(ms) =>
        b := MatchAll(m, env, e, ws, r0, busy);
      case Walk(_, c, _, _) =>
        if c.first {
          b := WalkFirst(m, env, e, ws, r0, busy);
        } else if env.xml {
          b := WalkUncached(m, env, e, ws, r0, busy);
        } else {
          b := WalkCached(m, env, e, ws, r0, busy);
        }
      case Reach(one, any, leading) =>
        assert forall w, we :: HasWalk(one, env, w, we) || HasWalk(any, env, w, we) ==> HasWalk(m, env, w, we);
        if !leading && (env.xml || !env.outermost) {
          b := true;
        } else if env.context.One? {
          b := Match(one, env, e, ws, r0, busy);
        } else {
          b := Match(any, env, e, ws, r0, busy);
        }
      case NoneOf(groups) =>
        b := MatchNone(m, env, e, ws, r0, busy);
    }

    /** All matchers of a compound, last one first. */
    method MatchAll(m: Matcher, env: Env, e: Node, ghost ws: Run, ghost r0: nat, ghost busy: set<Cell>)
      returns (b: bool)
      requires m.All? && Has(tree, e) && Good(ws, r0, busy)
      requires Contained(m, env, ws) && Apart(m, env, busy)
      modifies this`dirruns, this`nextRun, this`slots, this`nth
      ensures b <==> Sem(tree, env, m, e)
      ensures Good(ws, r0, busy) && OnlyNewCells()
      decreases m, 1
    {
      var ms := m.matchers;
      var i := |ms|;
      while i > 0
        invariant 0 <= i <= |ms| && Good(ws, r0, busy) && OnlyNewCells()
        invariant forall j | i <= j < |ms| :: Sem(tree, env, ms[j], e)
      {
        i := i - 1;
        assert forall w, we :: HasWalk(ms[i], env, w, we) ==> HasWalk(m, env, w, we);
        var r := Match(ms[i], env, e, ws, r0, busy);
        if !r {
          return false;
        }
      }
      b := true;
    }

    /** `:not`: its groups run as a run of their own, and the current run is not restored. Its number may be any
        that was not used before the outermost run began. */
    method MatchNone(m: Matcher, env: Env, e: Node, ghost ws: Run, ghost r0: nat, ghost busy: set<Cell>)
      returns (b: bool)
      requires m.NoneOf? && Has(tree, e) && Good(ws, r0, busy)
      requires Contained(m, env, ws) && Apart(m, env, busy)
      modifies this`dirruns, this`nextRun, this`slots, this`nth
      ensures b <==> Sem(tree, env, m, e)
      ensures Good(ws, r0, busy) && OnlyNewCells()
      decreases m, 1
    {
      var groups := m.groups;
      var drawn: nat := *;
      if runStart <= drawn < nextRun {
        dirruns := drawn;
      } else {
        dirruns, nextRun := nextRun, nextRun + 1;
      }
      var i := 0;
      while i < |groups|
        invariant 0 <= i <= |groups| && Good(ws, r0, busy) && OnlyNewCells()
        invariant forall j | 0 <= j < i :: !Sem(tree, Nested(env), groups[j], e)
      {
        assert forall w, we :: HasWalk(groups[i], Nested(env), w, we) ==> HasWalk(m, env, w, we);
        var r := Match(groups[i], Nested(env), e, ws, r0, busy);
        if r {
          return false;
        }
        i := i + 1;
      }
      b := true;
    }

    /** The nearest admissible node along the walk's direction, if there is one. */
    method Nearest(m: Matcher, e: Node) returns (cur: Option<Node>)
      requires m.Walk? && m.c.first && Has(tree, e)
      ensures cur.Some? ==> Has(tree, cur.value)
      ensures forall q :: Related(tree, m.c, m.base, q, e) <==> cur == Some(q)
    {
      var dir := m.c.dir;
      cur := Step(dir, e);
      forall q { StepsCoverLine(dir, q, e); }
      if cur.Some? { StepHas(tree, dir, e); }
      while cur.Some?
        invariant cur.Some? ==> Has(tree, cur.value)
        invariant forall q :: InLine(dir, q, e) ==> Ahead(dir, cur, q) || !Admissible(tree, m.c, m.base, q)
        invariant forall q :: Ahead(dir, cur, q) ==> InLine(dir, q, e)
        decreases if cur.Some? then Distance(dir, cur.value) + 1 else 0
      {
        var p := cur.value;
        if Admissible(tree, m.c, m.base, p) {
          forall q
            ensures !(InLine(dir, p, q) && (q == p || InLine(dir, q, p)))
          {
            LineIsAcyclic(dir, p, q);
          }
          assert Ahead(dir, cur, p);
          return;
        }
        forall q { StepsCoverLine(dir, q, p); }
        if Step(dir, p).Some? { StepHas(tree, dir, p); }
        cur := Step(dir, p);
      }
    }

    /** `>` and `+`: only the nearest admissible node is asked. */
    method WalkFirst(m: Matcher, env: Env, e: Node, ghost ws: Run, ghost r0: nat, ghost busy: set<Cell>)
      returns (b: bool)
      requires m.Walk? && m.c.first
      requires Has(tree, e) && Good(ws, r0, busy)
      requires Contained(m, env, ws) && Apart(m, env, busy)
      modifies this`dirruns, this`nextRun, this`slots, this`nth
      ensures b <==> Sem(tree, env, m, e)
      ensures Good(ws, r0, busy) && OnlyNewCells()
      decreases m, 1
    {
      assert forall w, we :: HasWalk(m.inner, env, w, we) ==> HasWalk(m, env, w, we);
      var p := Nearest(m, e);
      if p.None? {
        b := false;
      } else {
        assert Related(tree, m.c, m.base, p.value, e);
        b := Match(m.inner, env, p.value, ws, r0, busy);
      }
    }

    /** ` ` and `~` on XML documents: every admissible node is asked, nothing is remembered. */
    method WalkUncached(m: Matcher, env: Env, e: Node, ghost ws: Run, ghost r0: nat, ghost busy: set<Cell>)
      returns (b: bool)
      requires m.Walk? && !m.c.first
      requires Has(tree, e) && Good(ws, r0, busy)
      requires Contained(m, env, ws) && Apart(m, env, busy)
      modifies this`dirruns, this`nextRun, this`slots, this`nth
      ensures b <==> Sem(tree, env, m, e)
      ensures Good(ws, r0, busy) && OnlyNewCells()
      decreases m, 0
    {
      assert forall w, we :: HasWalk(m.inner, env, w, we) ==> HasWalk(m, env, w, we);
      var cur := Step(m.c.dir, e);
      WalkBegins(tree, env, m, e);
      while cur.Some?
        invariant cur.Some? ==> Has(tree, cur.value)
        invariant Good(ws, r0, busy) && OnlyNewCells()
        invariant Searched(tree, env, m, e, cur)
        decreases if cur.Some? then Distance(m.c.dir, cur.value) + 1 else 0
      {
        var p := cur.value;
        if Admissible(tree, m.c, m.base, p) {
          var r := Match(m.inner, env, p, ws, r0, busy);
          if r {
            SearchDecides(tree, env, m, e, cur);
            assert Ahead(m.c.dir, cur, p) && Hit(tree, env, m, p);
            return true;
          }
        }
        WalkOn(tree, env, m, e, p);
        cur := Step(m.c.dir, p);
      }
      SearchDecides(tree, env, m, e, cur);
      b := false;
    }

    /** The slots that hold `cell` are those of nodes visited before `cur`. */
    ghost predicate Shares(m: Matcher, e: Node, cur: Option<Node>, cell: Cell)
      requires m.Walk?
      reads this
    {
      forall k :: k in slots && slots[k] == cell ==> k.1 == m.c.dir && Behind(m, e, cur, k.0)
    }

    /** A slot filled by an earlier walk of the same closure in the current run answers; the answer
        is written into this walk's cell, and so reaches the nodes visited before. */
    method TakeCached(m: Matcher, env: Env, e: Node, p: Node, cell: Cell, cached: Cell,
                      ghost ws: Run, ghost r0: nat, ghost busy: set<Cell>)
      requires m.Walk? && !m.c.first && Good(ws, r0, busy + {cell})
      requires ws.WellNamed() && ws.Holds(m, env) && (forall c :: c in busy ==> c.name != m.name)
      requires (p, m.c.dir) in slots && cached == slots[(p, m.c.dir)]
      requires cached.run == dirruns && cached.name == cell.name == m.name
      requires Searched(tree, env, m, e, Some(p)) && Shares(m, e, Some(p), cell)
      modifies cell
      ensures Good(ws, r0, busy)
      ensures cached.result.Some? && (cached.result.value <==> Sem(tree, env, m, e))
    {
      assert Ahead(m.c.dir, Some(p), p);
      assert cached != cell && CellOk(tree, ws, r0, (p, m.c.dir), cached);
      SearchDecides(tree, env, m, e, Some(p));
      cell.result := cached.result;
      forall k | k in slots && slots[k] == cell
        ensures cell.result == Some(Beyond(tree, env, m, k.0))
      {
        BehindDecides(tree, env, m, e, Some(p), k.0);
      }
      CellSettles(m, env, cell, ws, r0, busy);
    }

    /** The node is asked, its slot already holding this walk's cell. */
    method AskAndStore(m: Matcher, env: Env, e: Node, p: Node, cell: Cell,
                       ghost ws: Run, ghost r0: nat, ghost busy: set<Cell>)
      returns (r: bool)
      requires m.Walk? && !m.c.first && Admissible(tree, m.c, m.base, p)
      requires Has(tree, p) && Good(ws, r0, busy + {cell})
      requires Contained(m, env, ws) && Apart(m, env, busy)
      requires cell.name == m.name && cell.run < nextRun
      requires Searched(tree, env, m, e, Some(p)) && Shares(m, e, Some(p), cell)
      modifies this`dirruns, this`nextRun, this`slots, this`nth, cell
      ensures forall k :: k in slots ==>
                (k in old(slots) && slots[k] == old(slots[k])) || slots[k] == cell || fresh(slots[k])
      ensures old(nextRun) <= nextRun
      ensures r ==> Good(ws, r0, busy) && Sem(tree, env, m, e)
      ensures !r ==> Good(ws, r0, busy + {cell}) && cell.result == Some(false) && !Hit(tree, env, m, p)
      ensures !r ==> Shares(m, e, Step(m.c.dir, p), cell)
      decreases m, 0
    {
      InnerApart(m, env, ws, busy, cell);
      slots := slots[(p, m.c.dir) := cell];
      r := Match(m.inner, env, p, ws, r0, busy + {cell});
      cell.result := Some(r);
      assert Ahead(m.c.dir, Some(p), p);
      if r {
        SearchDecides(tree, env, m, e, Some(p));
        assert Hit(tree, env, m, p);
        forall k | k in slots && slots[k] == cell
          ensures k.1 == m.c.dir && Beyond(tree, env, m, k.0)
        {
          assert Ahead(m.c.dir, Some(k.0), p);
        }
        CellSettles(m, env, cell, ws, r0, busy);
      } else {
        SearchSteps(tree, env, m, e, p);
      }
    }

    /** The walk is over and nothing was found: the shared cell says so for every node visited. */
    lemma WalkFails(m: Matcher, env: Env, e: Node, cell: Cell, ws: Run, r0: nat, busy: set<Cell>)
      requires m.Walk? && !m.c.first && Good(ws, r0, busy + {cell})
      requires ws.WellNamed() && ws.Holds(m, env) && cell.name == m.name
      requires Searched(tree, env, m, e, None) && Shares(m, e, None, cell)
      requires (exists k :: k in slots && slots[k] == cell) ==> cell.result == Some(false)
      ensures Good(ws, r0, busy) && !Sem(tree, env, m, e)
    {
      SearchDecides(tree, env, m, e, None);
      forall k | k in slots && slots[k] == cell
        ensures !Beyond(tree, env, m, k.0)
      {
        BehindDecides(tree, env, m, e, None, k.0);
      }
      CellSettles(m, env, cell, ws, r0, busy);
    }

    /** ` ` and `~` with the shared cell. */
    method WalkCached(m: Matcher, env: Env, e: Node, ghost ws: Run, ghost r0: nat, ghost busy: set<Cell>)
      returns (b: bool)
      requires m.Walk? && !m.c.first
      requires Has(tree, e) && Good(ws, r0, busy)
      requires Contained(m, env, ws) && Apart(m, env, busy)
      modifies this`dirruns, this`nextRun, this`slots, this`nth
      ensures b <==> Sem(tree, env, m, e)
      ensures Good(ws, r0, busy) && OnlyNewCells()
      decreases m, 1
    {
      var cell := new Cell(dirruns, m.name);
      InnerApart(m, env, ws, busy, cell);
      var cur := Step(m.c.dir, e);
      WalkBegins(tree, env, m, e);
      while cur.Some?
        invariant cur.Some? ==> Has(tree, cur.value)
        invariant Good(ws, r0, busy + {cell}) && OnlyNewCells() && cell.run < nextRun
        invariant Searched(tree, env, m, e, cur) && Shares(m, e, cur, cell)
        invariant (exists k :: k in slots && slots[k] == cell) ==> cell.result == Some(false)
        modifies this`dirruns, this`nextRun, this`slots, this`nth, cell
        decreases if cur.Some? then Distance(m.c.dir, cur.value) + 1 else 0
      {
        var p := cur.value;
        if Admissible(tree, m.c, m.base, p) {
          var key := (p, m.c.dir);
          if key in slots && slots[key].run == dirruns && slots[key].name == m.name {
            var cached := slots[key];
            TakeCached(m, env, e, p, cell, cached, ws, r0, busy);
            return cached.result.value;
          }
          var r := AskAndStore(m, env, e, p, cell, ws, r0, busy);
          if r {
            return true;
          }
        }
        WalkOn(tree, env, m, e, p);
        cur := Step(m.c.dir, p);
      }
      WalkFails(m, env, e, cell, ws, r0, busy);
      b := false;
    }

    /** The document changes between runs: caches stay, and stay harmless. */
    method ReplaceTree(tree': Tree)
      requires Consistent()
      modifies this`tree
      ensures tree == tree' && Consistent()
    {
      tree := tree';
    }

    /** The outermost run of a compiled selector over candidate nodes. It may start with any cache
        contents left by earlier runs, and keeps exactly the candidates some group accepts. */
    method Select(ms: seq<Matcher>, env: Env, elems: seq<Node>, ghost groups: seq<Group>)
      returns (results: seq<Node>)
      requires Consistent() && forall i | 0 <= i < |elems| :: Has(tree, elems[i])
      requires |ms| == |groups| && Unambiguous(All(ms))
      requires forall j | 0 <= j < |ms| :: Means(ms[j], groups[|groups| - 1 - j])
      modifies this`dirruns, this`runStart, this`nextRun, this`slots, this`nth
      ensures results == Selected(tree, env, groups, elems)
      ensures Consistent()
    {
      ghost var ws := Run(All(ms), env);
      var unique := nextRun;
      dirruns, runStart, nextRun := unique, unique, unique + 1;
      results := [];
      var i := 0;
      while i < |elems|
        invariant 0 <= i <= |elems| && Good(ws, unique, {}) && dirruns == unique
        invariant results == Selected(tree, env, groups, elems[..i])
      {
        var found := MatchAny(ms, env, elems[i], ws, unique);
        AnyMeans(tree, env, ms, groups, elems[i]);
        assert elems[..i + 1][..i] == elems[..i];
        if found {
          results := results + [elems[i]];
        }
        dirruns := unique;
        i := i + 1;
      }
      assert elems[..i] == elems;
    }

    method MatchAny(ms: seq<Matcher>, env: Env, e: Node, ghost ws: Run, ghost r0: nat) returns (found: bool)
      requires ws == Run(All(ms), env) && ws.WellNamed() && Has(tree, e) && Good(ws, r0, {})
      modifies this`dirruns, this`nextRun, this`slots, this`nth
      ensures found <==> exists j | 0 <= j < |ms| :: Sem(tree, env, ms[j], e)
      ensures Good(ws, r0, {}) && r0 < nextRun
    {
      var j := 0;
      while j < |ms|
        invariant 0 <= j <= |ms| && Good(ws, r0, {})
        invariant forall k | 0 <= k < j :: !Sem(tree, env, ms[k], e)
      {
        assert forall w, we :: HasWalk(ms[j], env, w, we) ==> HasWalk(All(ms), env, w, we);
        var r := Match(ms[j], env, e, ws, r0, {});
        if r {
          return true;
        }
        j := j + 1;
      }
      found := false;
    }
  }

  /** Some group of the selector accepts `e`. */
  ghost predicate Wanted(t: Tree, env: Env, groups: seq<Group>, e: Node) {
    exists i | 0 <= i < |groups| :: Accepts(t, env, groups[i], e)
  }

  /** The candidates that the selector accepts, in their order. */
  ghost function Selected(t: Tree, env: Env, groups: seq<Group>, elems: seq<Node>): seq<Node> {
    if elems == [] then []
    else
      var n := |elems| - 1;
      Selected(t, env, groups, elems[..n]) + if Wanted(t, env, groups, elems[n]) then [elems[n]] else []
  }

  /** Of a candidate list, exactly the nodes that some group accepts are selected. */
  lemma {:induction false} SelectedIffAccepted(t: Tree, env: Env, groups: seq<Group>, elems: seq<Node>, e: Node)
    ensures e in Selected(t, env, groups, elems) <==>
            e in elems && exists i | 0 <= i < |groups| :: Accepts(t, env, groups[i], e)
  {
    if elems != [] {
      var n := |elems| - 1;
      SelectedIffAccepted(t, env, groups, elems[..n], e);
      assert elems == elems[..n] + [elems[n]];
    }
  }

  /** And they keep their order. */
  lemma {:induction false} SelectedInOrder(t: Tree, env: Env, groups: seq<Group>, a: seq<Node>, b: seq<Node>)
    ensures Selected(t, env, groups, a + b) == Selected(t, env, groups, a) + Selected(t, env, groups, b)
    decreases |b|
  {
    if b == [] {
      assert a + b == a;
    } else {
      var n := |b| - 1;
      assert (a + b)[..|a| + n] == a + b[..n] && (a + b)[|a| + n] == b[n];
      SelectedInOrder(t, env, groups, a, b[..n]);
    }
  }

  lemma AnyMeans(t: Tree, env: Env, ms: seq<Matcher>, groups: seq<Group>, e: Node)
    requires |ms| == |groups|
    requires forall j | 0 <= j < |ms| :: Means(ms[j], groups[|groups| - 1 - j])
    ensures (exists j | 0 <= j < |ms| :: Sem(t, env, ms[j], e)) <==> Wanted(t, env, groups, e)
  {
    if i :| 0 <= i < |groups| && Accepts(t, env, groups[i], e) {
      var j := |groups| - 1 - i;
      assert Means(ms[j], groups[|groups| - 1 - j]);
      assert Sem(t, env, ms[j], e);
    }
    if j :| 0 <= j < |ms| && Sem(t, env, ms[j], e) {
      assert Accepts(t, env, groups[|groups| - 1 - j], e);
    }
  }

  /** Compile and run: the selector finds the nodes its groups describe, whatever was compiled and run before. */
  method Query(compiler: Compiler, engine: Engine, text: string, groups: seq<Group>, env: Env, elems: seq<Node>)
    returns (results: seq<Node>)
    requires compiler.Valid() && groups == compiler.parse(text)
    requires forall i | 0 <= i < |groups| :: WellFormed(compiler.parse, groups[i])
    requires engine.Consistent() && forall i | 0 <= i < |elems| :: Has(engine.tree, elems[i])
    modifies compiler, engine`dirruns, engine`runStart, engine`nextRun, engine`slots, engine`nth
    ensures results == Selected(engine.tree, env, groups, elems)
    ensures compiler.Valid() && engine.Consistent()
  {
    var ms := compiler.Compile(text, groups);
    FinishedIsUnambiguous(All(ms), compiler.book);
    results := engine.Select(ms, env, elems, groups);
  }

  // ----- whole sessions -----

  /** What happens to an engine: the document changes, or a selector is asked. */
  datatype Job =
    | Change(tree: Tree)
    | Ask(text: string, groups: seq<Group>, env: Env, elems: seq<Node>)

  ghost predicate Possible(parse: string -> seq<Group>, t: Tree, job: Job) {
    job.Ask? ==>
      && job.groups == parse(job.text)
      && (forall i | 0 <= i < |job.groups| :: WellFormed(parse, job.groups[i]))
      && (forall i | 0 <= i < |job.elems| :: Has(t, job.elems[i]))
  }

  function TreeAfter(t: Tree, job: Job): Tree {
    if job.Change? then job.tree else t
  }

  /** What a job should answer. */
  ghost function Answer(t: Tree, job: Job): seq<Node> {
    if job.Ask? then Selected(t, job.env, job.groups, job.elems) else []
  }

  method Do(compiler: Compiler, engine: Engine, job: Job) returns (answer: seq<Node>)
    requires compiler.Valid() && engine.Consistent() && Possible(compiler.parse, engine.tree, job)
    modifies compiler, engine
    ensures compiler.Valid() && engine.Consistent()
    ensures engine.tree == TreeAfter(old(engine.tree), job) && answer == Answer(old(engine.tree), job)
  {
    match job
    case Change(tree) =>
      engine.ReplaceTree(tree);
      answer := [];
    case Ask(text, groups, env, elems) =>
      answer := Query(compiler, engine, text, groups, env, elems);
  }

  ghost predicate AllPossible(parse: string -> seq<Group>, t: Tree, jobs: seq<Job>)
    decreases |jobs|
  {
    jobs == [] || (Possible(parse, t, jobs[0]) && AllPossible(parse, TreeAfter(t, jobs[0]), jobs[1..]))
  }

  ghost function Answers(t: Tree, jobs: seq<Job>): seq<seq<Node>>
    decreases |jobs|
  {
    if jobs == [] then [] else [Answer(t, jobs[0])] + Answers(TreeAfter(t, jobs[0]), jobs[1..])
  }

  /** Over a whole session, with the document changing between questions and nothing ever cleared from the caches
      on nodes or of compiled selectors, every question is answered for the document of its time. */
  method Session(compiler: Compiler, engine: Engine, jobs: seq<Job>) returns (answers: seq<seq<Node>>)
    requires compiler.Valid() && engine.Consistent() && AllPossible(compiler.parse, engine.tree, jobs)
    modifies compiler, engine
    ensures answers == Answers(old(engine.tree), jobs)
    decreases |jobs|
  {
    if jobs == [] {
      return [];
    }
    var first := Do(compiler, engine, jobs[0]);
    var rest := Session(compiler, engine, jobs[1..]);
    answers := [first] + rest;
  }
}
