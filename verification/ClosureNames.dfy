/**
 The names of combinator closures. Equal arguments of `:not` share closures through the compiled-selector
 cache, so a name does not belong to one place in a matcher. What the caches on the nodes need is weaker: in
 one run, a name belongs to one closure run under one environment.
 */
module ClosureNames {
  import opened Selectors

  /** `w` is a closure inside `m` that is run under the environment of `m` itself. */
  ghost predicate HasTop(m: Matcher, w: Matcher)
    decreases m
  {
    match m
    case All(ms) => exists i | 0 <= i < |ms| :: HasTop(ms[i], w)
    case Walk(inner, _, _, _) => w == m || HasTop(inner, w)
    case Reach(one, any, _) => HasTop(one, w) || HasTop(any, w)
    case _ => false
  }

  /** `w` is a closure inside the argument of some `:not` of `m`. */
  ghost predicate HasDeep(m: Matcher, w: Matcher)
    decreases m
  {
    match m
    case All(ms) => exists i | 0 <= i < |ms| :: HasDeep(ms[i], w)
    case Walk(inner, _, _, _) => HasDeep(inner, w)
    case Reach(one, any, _) => HasDeep(one, w) || HasDeep(any, w)
    case NoneOf(groups) => exists i | 0 <= i < |groups| :: HasTop(groups[i], w) || HasDeep(groups[i], w)
    case _ => false
  }

  /** There are two environments in a run, and the place of a closure tells which is its own. */
  lemma {:induction false} TwoEnvironments(m: Matcher, env: Env, w: Matcher, we: Env)
    ensures HasWalk(m, env, w, we) <==> (HasTop(m, w) && we == env) || (HasDeep(m, w) && we == Nested(env))
    decreases m
  {
    match m
    case All(ms) =>
      forall i | 0 <= i < |ms| {
        TwoEnvironments(ms[i], env, w, we);
      }
    case Walk(inner, _, _, _) =>
      TwoEnvironments(inner, env, w, we);
    case Reach(one, any, _) =>
      TwoEnvironments(one, env, w, we);
      TwoEnvironments(any, env, w, we);
    case NoneOf(groups) =>
      forall i | 0 <= i < |groups| {
        TwoEnvironments(groups[i], Nested(env), w, we);
      }
    case _ =>
  }

  /** In every run of `m`, a name belongs to one closure under one environment. */
  ghost predicate Unambiguous(m: Matcher) {
    && (forall env, w, we :: HasWalk(m, env, w, we) ==> w.Walk?)
    && (forall env, w, we, v, ve :: HasWalk(m, env, w, we) && HasWalk(m, env, v, ve) && w.name == v.name ==>
          w == v && we == ve)
  }

  // ----- bookkeeping -----

  /** The closures made so far, by name, and the names of those in selectors compiled to the end. */
  datatype Book = Book(made: map<nat, Matcher>, closed: set<nat>)

  ghost predicate Fits(b: Book, next: nat) {
    (forall n | n in b.made :: n < next) && (forall n | n in b.closed :: n < next)
  }

  /** `b'` comes after `b`, when `next` was the next name. */
  ghost predicate Extends(b: Book, b': Book, next: nat) {
    && (forall n | n in b.made :: n in b'.made && b'.made[n] == b.made[n])
    && (forall n | n in b.closed :: n in b'.closed)
    && (forall n | n in b'.closed :: n in b.closed || next <= n)
  }

  ghost predicate Known(b: Book, w: Matcher) {
    w.Walk? && w.name in b.made && b.made[w.name] == w
  }

  /** The closures of a matcher being built since `lo` was the next name: its own are not yet closed, those in
      `:not` are. */
  ghost predicate Growing(m: Matcher, b: Book, lo: nat) {
    && (forall w | HasTop(m, w) :: Known(b, w) && w.name !in b.closed && lo <= w.name)
    && (forall w | HasDeep(m, w) :: Known(b, w) && w.name in b.closed)
  }

  /** The closures of a matcher compiled to the end. */
  ghost predicate Finished(m: Matcher, b: Book) {
    && (forall w | HasTop(m, w) :: Known(b, w) && w.name in b.closed)
    && (forall w | HasDeep(m, w) :: Known(b, w) && w.name in b.closed)
    && (forall v, w | HasTop(m, v) && HasDeep(m, w) :: v.Walk? && w.Walk? && v.name != w.name)
  }

  lemma GrowingExtends(m: Matcher, b: Book, lo: nat, b': Book, next: nat)
    requires Growing(m, b, lo) && Fits(b, next) && Extends(b, b', next)
    ensures Growing(m, b', lo)
  {
  }

  lemma FinishedExtends(m: Matcher, b: Book, b': Book, next: nat)
    requires Finished(m, b) && Extends(b, b', next)
    ensures Finished(m, b')
  {
  }

  ghost function Names(lo: nat, hi: nat): (s: set<nat>)
    ensures forall n: nat :: n in s <==> lo <= n < hi
  {
    if lo >= hi then {} else Names(lo, hi - 1) + {hi - 1}
  }

  /** Closing the names given since `lo` finishes what was built since. */
  lemma GrowingFinishes(m: Matcher, b: Book, lo: nat, next: nat)
    requires Growing(m, b, lo) && Fits(b, next)
    ensures Finished(m, b.(closed := b.closed + Names(lo, next)))
  {
    forall v, w | HasTop(m, v) && HasDeep(m, w)
      ensures v.Walk? && w.Walk? && v.name != w.name
    {
      assert Known(b, v) && Known(b, w);
    }
  }

  lemma FinishedIsUnambiguous(m: Matcher, b: Book)
    requires Finished(m, b)
    ensures Unambiguous(m)
  {
    forall env, w, we | HasWalk(m, env, w, we)
      ensures Known(b, w)
    {
      TwoEnvironments(m, env, w, we);
    }
    forall env, w, we, v, ve | HasWalk(m, env, w, we) && HasWalk(m, env, v, ve) && w.name == v.name
      ensures w == v && we == ve
    {
      TwoEnvironments(m, env, w, we);
      TwoEnvironments(m, env, v, ve);
    }
  }

  // ----- building matchers -----

  lemma GrowingList(ms: seq<Matcher>, b: Book, lo: nat)
    requires forall i | 0 <= i < |ms| :: Growing(ms[i], b, lo)
    ensures Growing(All(ms), b, lo)
  {
  }

  lemma GrowingParts(ms: seq<Matcher>, b: Book, lo: nat, i: nat)
    requires Growing(All(ms), b, lo) && i < |ms|
    ensures Growing(ms[i], b, lo)
  {
    forall w
      ensures HasTop(ms[i], w) ==> HasTop(All(ms), w)
      ensures HasDeep(ms[i], w) ==> HasDeep(All(ms), w)
    {
    }
  }

  lemma GrowingAppend(ms: seq<Matcher>, f: Matcher, b: Book, lo: nat, lo': nat)
    requires Growing(All(ms), b, lo) && Growing(f, b, lo') && lo <= lo'
    ensures Growing(All(ms + [f]), b, lo)
  {
    var both := ms + [f];
    forall i | 0 <= i < |both|
      ensures Growing(both[i], b, lo)
    {
      if i < |ms| {
        GrowingParts(ms, b, lo, i);
      }
    }
    GrowingList(both, b, lo);
  }

  lemma GrowingReach(one: Matcher, any: Matcher, leading: bool, b: Book, lo: nat)
    requires Growing(one, b, lo) && Growing(any, b, lo)
    ensures Growing(All([Reach(one, any, leading)]), b, lo)
  {
    var r := Reach(one, any, leading);
    assert Growing(r, b, lo);
    GrowingList([r], b, lo);
  }

  /** A new closure around what was built so far. */
  lemma GrowingWalk(inner: Matcher, c: Combinator, base: bool, b: Book, lo: nat, name: nat)
    requires Growing(inner, b, lo) && Fits(b, name) && lo <= name
    ensures
      var w := Walk(inner, c, base, name);
      Growing(w, b.(made := b.made[name := w]), lo)
  {
    var w := Walk(inner, c, base, name);
    var b' := b.(made := b.made[name := w]);
    forall v | HasTop(w, v)
      ensures Known(b', v) && v.name !in b'.closed && lo <= v.name
    {
      if v != w {
        assert HasTop(inner, v) && v.name in b.made;
      }
    }
    forall v | HasDeep(w, v)
      ensures Known(b', v) && v.name in b'.closed
    {
      assert HasDeep(inner, v) && v.name in b.made;
    }
  }

  /** The argument of `:not`, finished before. */
  lemma GrowingNoneOf(ms: seq<Matcher>, b: Book, lo: nat)
    requires Finished(All(ms), b)
    ensures Growing(NoneOf(ms), b, lo)
  {
    forall w | HasDeep(NoneOf(ms), w)
      ensures HasTop(All(ms), w) || HasDeep(All(ms), w)
    {
    }
  }
}
