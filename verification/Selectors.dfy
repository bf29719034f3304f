/**
 Selector groups as token lists, what they mean, and the matchers they compile to.

 `Accepts` reads a token list the way the selector standard does; `Sem` is the meaning of the
 closures that the compiler builds. Names of filters, attributes and pseudos are abstracted to a
 test on nodes, except for `:nth-child` and `:not`, whose evaluation touches the caches.
 */
module Selectors {
  import opened Prelude
  import opened Dom

  /** An entry of the table of relative operators: a direction, and whether only the first
      admissible node along it counts. */
  datatype Combinator = Combinator(dir: Dir, first: bool)

  const CHILD := Combinator(ParentNode, true)
  const DESCENDANT := Combinator(ParentNode, false)
  const ADJACENT := Combinator(PreviousSibling, true)
  const SIBLING := Combinator(PreviousSibling, false)

  datatype Token =
    | Rel(c: Combinator)
    | Simple(test: Node -> bool)
    | Nth(a: int, b: int)
    | Not(text: string, groups: seq<Group>)

  /** One comma-separated alternative of a selector. */
  datatype Group = Group(tokens: seq<Token>)

  datatype Context = One(node: Node) | Many(nodes: seq<Node>)

  /** What a run of a compiled selector is given: the context, whether the document is XML, and
      whether the context is the outermost one. */
  datatype Env = Env(context: Context, xml: bool, outermost: bool)

  predicate InContext(context: Context, p: Node) {
    match context
    case One(node) => p == node
    case Many(nodes) => p in nodes
  }

  /** `:not` runs its argument against the document, which is never the outermost context. */
  function Nested(env: Env): Env {
    Env(One([]), env.xml, false)
  }

  // ----- relations between nodes -----

  predicate Admissible(t: Tree, c: Combinator, base: bool, p: Node) {
    IsElement(t, p) || (base && c.dir.ParentNode?)
  }

  /** `p` stands in relation `c` to `e`. */
  ghost predicate Related(t: Tree, c: Combinator, base: bool, p: Node, e: Node) {
    && InLine(c.dir, p, e)
    && Admissible(t, c, base, p)
    && (c.first ==> forall q :: InLine(c.dir, q, e) && InLine(c.dir, p, q) ==> !Admissible(t, c, base, q))
  }

  // ----- :nth-child -----

  function CountElements(kids: seq<Tree>): nat {
    if kids == [] then 0
    else CountElements(kids[..|kids| - 1]) + if kids[|kids| - 1].kind.Element? then 1 else 0
  }

  /** The 1-based position of an element among the element children of its parent, else 0. */
  function Position(t: Tree, e: Node): nat {
    if e != [] && IsElement(t, e) then
      ChildOfParent(t, e);
      CountElements(At(t, Up(e)).kids[..Last(e) + 1])
    else 0
  }

  ghost predicate InProgression(position: int, a: int, b: int) {
    exists k: nat :: position == a * k + b
  }

  ghost predicate NthHolds(t: Tree, a: int, b: int, e: Node) {
    e != [] && InProgression(Position(t, e), a, b)
  }

  // ----- meaning of token lists -----

  /** No group is empty, at any depth, and arguments of `:not` are what tokenizing their text gives: the
      tokenizer never produces an empty group, and is a function of the text. */
  ghost predicate WellFormed(parse: string -> seq<Group>, group: Group)
    decreases group
  {
    && group.tokens != []
    && forall i | 0 <= i < |group.tokens| :: WellFormedToken(parse, group.tokens[i])
  }

  ghost predicate WellFormedToken(parse: string -> seq<Group>, token: Token)
    decreases token
  {
    token.Not? ==>
      && token.groups == parse(token.text)
      && forall i | 0 <= i < |token.groups| :: WellFormed(parse, token.groups[i])
  }

  function Lead(tokens: seq<Token>): Option<Combinator>
    requires tokens != []
  {
    if tokens[0].Rel? then Some(tokens[0].c) else None
  }

  function Body(tokens: seq<Token>): seq<Token>
    requires tokens != []
  {
    if tokens[0].Rel? then tokens[1..] else tokens
  }

  /** The leftmost compound is reachable from the context. */
  ghost predicate Rooted(t: Tree, env: Env, lead: Option<Combinator>, e: Node) {
    || (lead.None? && (env.xml || !env.outermost))
    || exists p :: Related(t, if lead.Some? then lead.value else DESCENDANT, true, p, e) && InContext(env.context, p)
  }

  ghost predicate FilterHolds(t: Tree, env: Env, token: Token, e: Node)
    requires !token.Rel?
    decreases token
  {
    match token
    case Simple(test) => test(e)
    case Nth(a, b) => NthHolds(t, a, b, e)
    case Not(_, groups) => forall i | 0 <= i < |groups| :: !Accepts(t, Nested(env), groups[i], e)
  }

  /** `e` is accepted by the tokens, read from the right. */
  ghost predicate Holds(t: Tree, env: Env, lead: Option<Combinator>, tokens: seq<Token>, e: Node)
    decreases tokens
  {
    if tokens == [] then Rooted(t, env, lead, e)
    else
      var rest, last := tokens[..|tokens| - 1], tokens[|tokens| - 1];
      if last.Rel? then
        exists p :: Related(t, last.c, false, p, e) && Holds(t, env, lead, rest, p)
      else
        Holds(t, env, lead, rest, e) && FilterHolds(t, env, last, e)
  }

  ghost predicate Accepts(t: Tree, env: Env, group: Group, e: Node)
    decreases group
  {
    group.tokens != [] && Holds(t, env, Lead(group.tokens), Body(group.tokens), e)
  }

  // ----- matchers -----

  datatype Matcher =
    | Test(test: Node -> bool)
    | NthChild(a: int, b: int)
    | IsContext
    | All(matchers: seq<Matcher>)
    | Walk(inner: Matcher, c: Combinator, base: bool, name: nat)
    | Reach(one: Matcher, any: Matcher, leading: bool)
    | NoneOf(groups: seq<Matcher>)

  ghost predicate Sem(t: Tree, env: Env, m: Matcher, e: Node)
    decreases m
  {
    match m
    case Test(test) => test(e)
    case NthChild(a, b) => NthHolds(t, a, b, e)
    case IsContext => InContext(env.context, e)
    case All(ms) => forall i | 0 <= i < |ms| :: Sem(t, env, ms[i], e)
    case Walk(inner, c, base, _) => exists p :: Related(t, c, base, p, e) && Sem(t, env, inner, p)
    case Reach(one, any, leading) =>
      (!leading && (env.xml || !env.outermost)) || Sem(t, env, if env.context.One? then one else any, e)
    case NoneOf(groups) => forall i | 0 <= i < |groups| :: !Sem(t, Nested(env), groups[i], e)
  }

  /** `w`, run under `we`, is one of the combinator closures inside `m` run under `env`. */
  ghost predicate HasWalk(m: Matcher, env: Env, w: Matcher, we: Env)
    decreases m
  {
    match m
    case All(ms) => exists i | 0 <= i < |ms| :: HasWalk(ms[i], env, w, we)
    case Walk(inner, _, _, _) => (w == m && we == env) || HasWalk(inner, env, w, we)
    case Reach(one, any, _) => HasWalk(one, env, w, we) || HasWalk(any, env, w, we)
    case NoneOf(groups) => exists i | 0 <= i < |groups| :: HasWalk(groups[i], Nested(env), w, we)
    case _ => false
  }
}
