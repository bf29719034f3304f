/**
 Documents as finite ordered trees.

 A node is its position: the child indices that lead to it from the root, so two nodes are
 identical exactly when their positions are equal, as with object identity in a browser.
 */
module Dom {
  import opened Prelude

  /** nodeType 1, nodeType 9, and every other nodeType. */
  datatype Kind = Element | Document | Other

  datatype Tree = Tree(kind: Kind, kids: seq<Tree>)

  type Node = seq<nat>

  predicate Has(t: Tree, n: Node) {
    n == [] || (n[0] < |t.kids| && Has(t.kids[n[0]], n[1..]))
  }

  function At(t: Tree, n: Node): Tree
    requires Has(t, n)
  {
    if n == [] then t else At(t.kids[n[0]], n[1..])
  }

  predicate IsElement(t: Tree, n: Node) {
    Has(t, n) && At(t, n).kind.Element?
  }

  function Last(n: Node): nat
    requires n != []
  {
    n[|n| - 1]
  }

  function Up(n: Node): Node
    requires n != []
  {
    n[..|n| - 1]
  }

  /** A position is valid exactly when it names an existing child of a valid position. */
  lemma {:induction false} ChildOfParent(t: Tree, n: Node)
    requires n != []
    ensures Has(t, n) <==> Has(t, Up(n)) && Last(n) < |At(t, Up(n)).kids|
    ensures Has(t, n) ==> At(t, n) == At(t, Up(n)).kids[Last(n)]
  {
    if |n| > 1 && n[0] < |t.kids| {
      assert Up(n)[1..] == Up(n[1..]);
      ChildOfParent(t.kids[n[0]], n[1..]);
    }
  }

  /** Ancestors of a position are positions. */
  lemma {:induction false} PrefixHas(t: Tree, n: Node, k: nat)
    requires Has(t, n) && k <= |n|
    ensures Has(t, n[..k])
    decreases |n|
  {
    if k < |n| {
      ChildOfParent(t, n);
      assert Up(n)[..k] == n[..k];
      PrefixHas(t, Up(n), k);
    } else {
      assert n[..k] == n;
    }
  }

  /** The two directions in which selectors walk the tree. */
  datatype Dir = ParentNode | PreviousSibling

  function Step(dir: Dir, n: Node): Option<Node> {
    if n == [] then None
    else match dir
      case ParentNode => Some(Up(n))
      case PreviousSibling => if Last(n) == 0 then None else Some(Up(n) + [Last(n) - 1])
  }

  /** How many steps are left before the walk falls off the tree. */
  function Distance(dir: Dir, n: Node): nat {
    if n == [] then 0 else match dir
      case ParentNode => |n|
      case PreviousSibling => Last(n)
  }

  /** `p` lies further along `dir` than `e`: a proper ancestor, or a preceding sibling. */
  ghost predicate InLine(dir: Dir, p: Node, e: Node) {
    match dir
    case ParentNode => |p| < |e| && p == e[..|p|]
    case PreviousSibling => |p| == |e| && e != [] && Up(p) == Up(e) && Last(p) < Last(e)
  }

  /** `q` is still ahead of a walk that is about to visit `cur`. */
  ghost predicate Ahead(dir: Dir, cur: Option<Node>, q: Node) {
    cur.Some? && (q == cur.value || InLine(dir, q, cur.value))
  }

  /** The declarative line is what repeated single steps visit. */
  lemma StepsCoverLine(dir: Dir, q: Node, e: Node)
    ensures InLine(dir, q, e) <==> Ahead(dir, Step(dir, e), q)
    ensures Step(dir, e).Some? ==> Distance(dir, Step(dir, e).value) < Distance(dir, e)
  {
    if dir.ParentNode? && e != [] && |q| < |e| {
      assert e[..|q|] == Up(e)[..|q|];
    }
    if dir.PreviousSibling? && e != [] && |q| == |e| {
      assert q == Up(q) + [Last(q)];
    }
  }

  lemma LineIsAcyclic(dir: Dir, p: Node, q: Node)
    ensures !(InLine(dir, p, q) && (p == q || InLine(dir, q, p)))
  {
  }

  lemma LineTransitive(dir: Dir, p: Node, q: Node, r: Node)
    requires InLine(dir, p, q) && InLine(dir, q, r)
    ensures InLine(dir, p, r)
  {
    if dir.ParentNode? {
      assert r[..|q|][..|p|] == r[..|p|];
    }
  }
}
