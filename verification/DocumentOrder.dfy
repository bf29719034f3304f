/**
 Sorting nodes in document order: the comparator for browsers without compareDocumentPosition,
 compared with an independent preorder traversal.
 */
module DocumentOrder {
  import opened Prelude
  import opened Dom

  // ----- the reference: preorder traversal -----

  /** All positions of `t` in document order, `t` itself being at `at`. */
  function Preorder(t: Tree, at: Node): seq<Node>
    decreases t, 0
  {
    [at] + PreorderKids(t, at, 0)
  }

  function PreorderKids(t: Tree, at: Node, i: nat): seq<Node>
    requires i <= |t.kids|
    decreases t, 0, |t.kids| - i
  {
    if i == |t.kids| then [] else Preorder(t.kids[i], at + [i]) + PreorderKids(t, at, i + 1)
  }

  /** `a` comes before `b` in the list. */
  ghost predicate Precedes(list: seq<Node>, a: Node, b: Node) {
    exists i, j :: 0 <= i < j < |list| && list[i] == a && list[j] == b
  }

  /** Lexicographic order of positions, a prefix before its extensions. */
  predicate Lex(a: Node, b: Node) {
    b != [] && (a == [] || a[0] < b[0] || (a[0] == b[0] && Lex(a[1..], b[1..])))
  }

  lemma {:induction false} LexTotal(a: Node, b: Node)
    ensures a == b || Lex(a, b) || Lex(b, a)
    ensures !(Lex(a, b) && Lex(b, a)) && (a == b ==> !Lex(a, b))
  {
    if a != [] && b != [] && a[0] == b[0] {
      LexTotal(a[1..], b[1..]);
      assert a == [a[0]] + a[1..] && b == [b[0]] + b[1..];
    }
  }

  lemma {:induction false} LexTransitive(a: Node, b: Node, c: Node)
    requires Lex(a, b) && Lex(b, c)
    ensures Lex(a, c)
  {
    if a != [] && a[0] == b[0] && b[0] == c[0] {
      LexTransitive(a[1..], b[1..], c[1..]);
    }
  }

  /** Below a common prefix, only what follows it matters. */
  lemma {:induction false} LexBelow(p: Node, a: Node, b: Node)
    ensures Lex(p + a, p + b) <==> Lex(a, b)
  {
    if p == [] {
      assert p + a == a && p + b == b;
    } else {
      assert (p + a)[1..] == p[1..] + a && (p + b)[1..] == p[1..] + b;
      LexBelow(p[1..], a, b);
    }
  }

  ghost predicate Below(p: Node, n: Node) {
    |p| <= |n| && n[..|p|] == p
  }

  /** The first difference decides. */
  lemma LexByChild(p: Node, a: Node, b: Node)
    requires Below(p, a) && Below(p, b) && |a| > |p| && |b| > |p| && a[|p|] < b[|p|]
    ensures Lex(a, b)
  {
    assert a == p + a[|p|..] && b == p + b[|p|..];
    LexBelow(p, a[|p|..], b[|p|..]);
  }

  // ----- preorder lists every node once, in lexicographic order -----

  ghost predicate Sorted(list: seq<Node>) {
    forall i, j :: 0 <= i < j < |list| ==> Lex(list[i], list[j])
  }

  /** `n`, below `at`, is a position of `t`. */
  ghost predicate Inside(t: Tree, at: Node, n: Node) {
    Below(at, n) && Has(t, n[|at|..])
  }

  lemma {:induction false} PreorderComplete(t: Tree, at: Node, n: Node)
    ensures n in Preorder(t, at) <==> Inside(t, at, n)
    decreases t, 0
  {
    PreorderKidsComplete(t, at, 0, n);
    if Inside(t, at, n) && n != at {
      assert n[|at|..][0] == n[|at|];
    }
  }

  lemma {:induction false} PreorderKidsComplete(t: Tree, at: Node, i: nat, n: Node)
    requires i <= |t.kids|
    ensures n in PreorderKids(t, at, i) <==> Inside(t, at, n) && |n| > |at| && n[|at|] >= i
    decreases t, 0, |t.kids| - i
  {
    if i < |t.kids| {
      PreorderComplete(t.kids[i], at + [i], n);
      PreorderKidsComplete(t, at, i + 1, n);
      if Below(at, n) && |n| > |at| {
        assert n[|at|..][1..] == n[|at| + 1..] && n[|at|..][0] == n[|at|];
        assert n[..|at| + 1] == at + [n[|at|]];
      }
      assert Below(at + [i], n) ==> n[..|at| + 1][..|at|] == at && n[..|at| + 1][|at|] == i;
    } else if Inside(t, at, n) && |n| > |at| {
      assert n[|at|..][0] == n[|at|];
    }
  }

  lemma {:induction false} PreorderSorted(t: Tree, at: Node)
    ensures Sorted(Preorder(t, at))
    decreases t, 0
  {
    var rest := PreorderKids(t, at, 0);
    PreorderKidsSorted(t, at, 0);
    forall j | 0 <= j < |rest|
      ensures Lex(at, rest[j])
    {
      PreorderKidsComplete(t, at, 0, rest[j]);
      assert at + [] == at && rest[j] == at + rest[j][|at|..];
      LexBelow(at, [], rest[j][|at|..]);
    }
  }

  lemma {:induction false} PreorderKidsSorted(t: Tree, at: Node, i: nat)
    requires i <= |t.kids|
    ensures Sorted(PreorderKids(t, at, i))
    decreases t, 0, |t.kids| - i
  {
    if i < |t.kids| {
      var first, rest := Preorder(t.kids[i], at + [i]), PreorderKids(t, at, i + 1);
      PreorderSorted(t.kids[i], at + [i]);
      PreorderKidsSorted(t, at, i + 1);
      forall j, k | 0 <= j < |first| && 0 <= k < |rest|
        ensures Lex(first[j], rest[k])
      {
        PreorderComplete(t.kids[i], at + [i], first[j]);
        PreorderKidsComplete(t, at, i + 1, rest[k]);
        assert first[j][..|at| + 1][..|at|] == at && first[j][..|at| + 1][|at|] == i;
        LexByChild(at, first[j], rest[k]);
      }
    }
  }

  /** Document order of two nodes is the lexicographic order of their positions. */
  lemma PreorderIsLex(t: Tree, a: Node, b: Node)
    requires Has(t, a) && Has(t, b)
    ensures Precedes(Preorder(t, []), a, b) <==> Lex(a, b)
  {
    var list := Preorder(t, []);
    PreorderSorted(t, []);
    PreorderComplete(t, [], a);
    PreorderComplete(t, [], b);
    assert a[0..] == a && b[0..] == b;
    var i :| 0 <= i < |list| && list[i] == a;
    var j :| 0 <= j < |list| && list[j] == b;
    LexTotal(a, b);
    if Lex(a, b) {
      assert i < j;
    }
  }

  // ----- the comparator -----

  /** A node of one of several trees: the document, other documents, detached fragments. */
  datatype Place = Place(root: nat, path: Node)

  datatype World = World(trees: seq<Tree>, document: nat, preferred: nat)

  predicate Valid(w: World, p: Place) {
    p.root < |w.trees| && Has(w.trees[p.root], p.path)
  }

  function Parent(p: Place): Option<Place> {
    if p.path == [] then None else Some(Place(p.root, Up(p.path)))
  }

  function NextSibling(w: World, p: Place): Option<Place>
    requires Valid(w, p)
  {
    if p.path == [] then None
    else
      ChildOfParent(w.trees[p.root], p.path);
      if Last(p.path) + 1 < |At(w.trees[p.root], Up(p.path)).kids| then
        Some(Place(p.root, Up(p.path) + [Last(p.path) + 1]))
      else None
  }

  function IndexOf(list: seq<Place>, p: Place): int {
    if list == [] then -1
    else if list[0] == p then 0
    else
      var i := IndexOf(list[1..], p);
      if i < 0 then -1 else i + 1
  }

  /** What the comparator answers, case by case. */
  function Order(w: World, sortInput: Option<seq<Place>>, a: Place, b: Place): int {
    if a == b then 0
    else if a.path == [] || b.path == [] then
      if a == Place(w.document, []) then -1
      else if b == Place(w.document, []) then 1
      else if a.path != [] then -1
      else if b.path != [] then 1
      else if sortInput.Some? then IndexOf(sortInput.value, a) - IndexOf(sortInput.value, b)
      else 0
    else if a.root == b.root then
      if Lex(a.path, b.path) then -1 else 1
    else if a.root == w.preferred then -1
    else if b.root == w.preferred then 1
    else 0
  }

  /** Two different nodes that the comparator does not tell apart: both are roots other than the document with
      the same index in `sortInput`, or both lie below the roots of different trees, neither the preferred one. */
  predicate Tied(w: World, sortInput: Option<seq<Place>>, a: Place, b: Place) {
    && a != b
    && if a.path == [] || b.path == [] then
         && a.path == b.path && a.root != w.document && b.root != w.document
         && (sortInput.Some? ==> IndexOf(sortInput.value, a) == IndexOf(sortInput.value, b))
       else a.root != b.root && a.root != w.preferred && b.root != w.preferred
  }

  /** `q` is a later sibling of `p`. */
  predicate Follows(p: Place, q: Place) {
    && p.path != [] && q.path != []
    && p.root == q.root && Up(p.path) == Up(q.path) && Last(p.path) < Last(q.path)
  }

  function SiblingsLeft(w: World, p: Place): nat
    requires Valid(w, p)
  {
    if p.path == [] then 0
    else
      ChildOfParent(w.trees[p.root], p.path);
      |At(w.trees[p.root], Up(p.path)).kids| - Last(p.path)
  }

  lemma NextIsValid(w: World, p: Place)
    requires Valid(w, p) && NextSibling(w, p).Some?
    ensures
      var next := NextSibling(w, p).value;
      Valid(w, next) && SiblingsLeft(w, next) < SiblingsLeft(w, p)
  {
    var n := Up(p.path) + [Last(p.path) + 1];
    assert Up(n) == Up(p.path);
    ChildOfParent(w.trees[p.root], p.path);
    ChildOfParent(w.trees[p.root], n);
  }

  /** The sibling after `p`, where there is one, or the end of the list. */
  lemma NextByLast(w: World, p: Place)
    requires Valid(w, p) && p.path != []
    ensures
      var next := NextSibling(w, p);
      && Has(w.trees[p.root], Up(p.path))
      && (next.Some? <==> Last(p.path) + 1 < |At(w.trees[p.root], Up(p.path)).kids|)
      && (next.Some? ==> next.value.root == p.root && next.value.path != [] &&
                         Up(next.value.path) == Up(p.path) && Last(next.value.path) == Last(p.path) + 1)
  {
    ChildOfParent(w.trees[p.root], p.path);
    var n := Up(p.path) + [Last(p.path) + 1];
    assert Up(n) == Up(p.path) && Last(n) == Last(p.path) + 1;
  }

  lemma SamePath(m: Node, n: Node)
    requires m != [] && n != [] && Up(m) == Up(n) && Last(m) == Last(n)
    ensures m == n
  {
    assert m == Up(m) + [Last(m)] && n == Up(n) + [Last(n)];
  }

  lemma NextCovers(w: World, p: Place, q: Place)
    requires Valid(w, p) && Valid(w, q)
    ensures
      var next := NextSibling(w, p);
      Follows(p, q) <==> next.Some? && (q == next.value || Follows(next.value, q))
  {
    if p.path != [] {
      NextByLast(w, p);
      if Follows(p, q) {
        NextByLast(w, q);
        ChildOfParent(w.trees[q.root], q.path);
        var next := NextSibling(w, p).value;
        if Last(q.path) == Last(next.path) {
          SamePath(q.path, next.path);
        }
      }
    }
  }

  /** Decides between two siblings, either of which may be missing, by walking forward from `a`. */
  method SiblingCheck(w: World, a: Option<Place>, b: Option<Place>) returns (r: int)
    requires (a.Some? ==> Valid(w, a.value)) && (b.Some? ==> Valid(w, b.value))
    ensures a.None? ==> r == -1
    ensures a.Some? && b.None? ==> r == 1
    ensures a.Some? && b.Some? ==> r == if Follows(a.value, b.value) then -1 else 1
  {
    if a.Some? && b.Some? {
      var cur := NextSibling(w, a.value);
      NextCovers(w, a.value, b.value);
      if cur.Some? { NextIsValid(w, a.value); }
      while cur.Some?
        invariant cur.Some? ==> Valid(w, cur.value)
        invariant Follows(a.value, b.value) <==>
                  cur.Some? && (b.value == cur.value || Follows(cur.value, b.value))
        decreases if cur.Some? then SiblingsLeft(w, cur.value) + 1 else 0
      {
        if cur == b {
          return -1;
        }
        NextCovers(w, cur.value, b.value);
        if NextSibling(w, cur.value).Some? { NextIsValid(w, cur.value); }
        cur := NextSibling(w, cur.value);
      }
    }
    r := if a.Some? then 1 else -1;
  }

  /** The ancestors of a node from the root down to the node itself. */
  function PathTo(p: Place): (ps: seq<Place>)
    ensures |ps| == |p.path| + 1
    ensures forall i | 0 <= i < |ps| :: ps[i] == Place(p.root, p.path[..i])
  {
    seq(|p.path| + 1, i requires 0 <= i <= |p.path| => Place(p.root, p.path[..i]))
  }

  /** Climbs to the root, putting each ancestor in front. */
  method Ancestors(p: Place) returns (ps: seq<Place>)
    ensures ps == PathTo(p)
  {
    ps := [p];
    var cur := Parent(p);
    assert p.path[..|p.path|] == p.path;
    while cur.Some?
      invariant |ps| <= |p.path| + 1
      invariant cur.Some? ==> |ps| <= |p.path| && cur.value == Place(p.root, p.path[..|p.path| - |ps|])
      invariant cur.None? ==> |ps| == |p.path| + 1
      invariant forall i | 0 <= i < |ps| :: ps[i] == Place(p.root, p.path[..|p.path| + 1 - |ps| + i])
      decreases |p.path| + 1 - |ps|
    {
      ps := [cur.value] + ps;
      cur := Parent(cur.value);
      assert cur.Some? ==> p.path[..|p.path| - |ps| + 1][..|p.path| - |ps|] == p.path[..|p.path| - |ps|];
    }
  }

  function Get(ps: seq<Place>, i: nat): Option<Place> {
    if i < |ps| then Some(ps[i]) else None
  }

  /** Document order of two nodes by their first differing ancestors. */
  method SortOrder(w: World, sortInput: Option<seq<Place>>, a: Place, b: Place) returns (r: int)
    requires Valid(w, a) && Valid(w, b)
    ensures r == Order(w, sortInput, a, b)
    ensures r == 0 <==> a == b || Tied(w, sortInput, a, b)
  {
    if a == b {
      return 0;
    }
    if Parent(a).None? || Parent(b).None? {
      return
        if a == Place(w.document, []) then -1
        else if b == Place(w.document, []) then 1
        else if Parent(a).Some? then -1
        else if Parent(b).Some? then 1
        else if sortInput.Some? then IndexOf(sortInput.value, a) - IndexOf(sortInput.value, b)
        else 0;
    }
    if Parent(a) == Parent(b) {
      r := SiblingCheck(w, Some(a), Some(b));
      SiblingsByLast(a.path, b.path);
      return;
    }
    var ap := Ancestors(a);
    var bp := Ancestors(b);
    assert ap[|a.path|] == a && bp[|b.path|] == b by {
      assert a.path[..|a.path|] == a.path && b.path[..|b.path|] == b.path;
    }
    var i := 0;
    while Get(ap, i) == Get(bp, i)
      invariant i <= |ap| && i <= |bp|
      invariant forall j | 0 <= j < i :: ap[j] == bp[j]
      decreases |ap| - i
    {
      i := i + 1;
    }
    if i > 0 {
      assert ap[i - 1] == bp[i - 1];
      FirstDifference(w, a, b, i);
      r := SiblingCheck(w, Get(ap, i), Get(bp, i));
    } else {
      r := if ap[0] == Place(w.preferred, []) then -1 else if bp[0] == Place(w.preferred, []) then 1 else 0;
    }
  }

  lemma SiblingsByLast(a: Node, b: Node)
    requires a != [] && b != [] && Up(a) == Up(b) && a != b
    ensures Lex(a, b) <==> Last(a) < Last(b)
  {
    assert a == Up(a) + [Last(a)] && b == Up(b) + [Last(b)];
    LexBelow(Up(a), [Last(a)], [Last(b)]);
  }

  lemma LastOfPrefix(n: Node, i: nat)
    requires 0 < i <= |n|
    ensures Up(n[..i]) == n[..i - 1] && Last(n[..i]) == n[i - 1]
  {
    assert n[..i][..i - 1] == n[..i - 1];
  }

  /** Two paths that agree up to an index are ordered by what follows. */
  lemma LexAfter(m: Node, n: Node, i: nat)
    requires i <= |m| && i <= |n| && m[..i] == n[..i]
    ensures Lex(m, n) <==> i < |n| && (i == |m| || m[i] < n[i] || (m[i] == n[i] && Lex(m[i..][1..], n[i..][1..])))
  {
    assert m == m[..i] + m[i..] && n == m[..i] + n[i..];
    LexBelow(m[..i], m[i..], n[i..]);
  }

  /** Where the ancestor paths part, one of them has ended or the two are siblings. */
  lemma FirstDifference(w: World, a: Place, b: Place, i: nat)
    requires Valid(w, a) && Valid(w, b) && a.root == b.root
    requires 0 < i <= |a.path| + 1 && i <= |b.path| + 1
    requires a.path[..i - 1] == b.path[..i - 1]
    requires Get(PathTo(a), i) != Get(PathTo(b), i)
    ensures i <= |a.path| ==> Valid(w, PathTo(a)[i])
    ensures i <= |b.path| ==> Valid(w, PathTo(b)[i])
    ensures i == |a.path| + 1 ==> Lex(a.path, b.path)
    ensures i == |b.path| + 1 ==> !Lex(a.path, b.path)
    ensures i <= |a.path| && i <= |b.path| ==> (Lex(a.path, b.path) <==> Follows(PathTo(a)[i], PathTo(b)[i]))
  {
    LexAfter(a.path, b.path, i - 1);
    if i <= |a.path| {
      PrefixHas(w.trees[a.root], a.path, i);
      LastOfPrefix(a.path, i);
    }
    if i <= |b.path| {
      PrefixHas(w.trees[b.root], b.path, i);
      LastOfPrefix(b.path, i);
    }
    if i <= |a.path| && i <= |b.path| && a.path[i - 1] == b.path[i - 1] {
      SamePath(a.path[..i], b.path[..i]);
      assert false;
    }
  }

  // ----- what the comparator promises -----

  /** Two different nodes of one tree compare in document order exactly when the tree is the
      document or neither of them is its root: the root of a detached tree sorts after its own
      descendants. */
  lemma OrderIsPreorder(w: World, sortInput: Option<seq<Place>>, a: Place, b: Place)
    requires Valid(w, a) && Valid(w, b) && a.root == b.root && a != b
    ensures
      var list := Preorder(w.trees[a.root], []);
      var agrees := (Order(w, sortInput, a, b) < 0 <==> Precedes(list, a.path, b.path)) &&
                    (Order(w, sortInput, a, b) > 0 <==> Precedes(list, b.path, a.path));
      agrees <==> a.root == w.document || (a.path != [] && b.path != [])
  {
    PreorderIsLex(w.trees[a.root], a.path, b.path);
    PreorderIsLex(w.trees[a.root], b.path, a.path);
    LexTotal(a.path, b.path);
  }

  lemma OrderIsAntisymmetric(w: World, sortInput: Option<seq<Place>>, a: Place, b: Place)
    ensures Order(w, sortInput, a, b) == -Order(w, sortInput, b, a)
  {
    LexTotal(a.path, b.path);
  }

  /** Nodes of one tree never tie. */
  lemma OneTreeHasNoTies(w: World, sortInput: Option<seq<Place>>, a: Place, b: Place)
    requires a.root == b.root
    ensures !Tied(w, sortInput, a, b)
  {
  }

  /** Where different nodes do not tie, and so within every tree, the comparator is a strict total
      order. */
  lemma OrderIsTotal(w: World, sortInput: Option<seq<Place>>, a: Place, b: Place, c: Place)
    requires !Tied(w, sortInput, a, b) && !Tied(w, sortInput, b, c) && !Tied(w, sortInput, a, c)
    ensures Order(w, sortInput, a, b) == 0 <==> a == b
    ensures Order(w, sortInput, a, b) == -Order(w, sortInput, b, a)
    ensures Order(w, sortInput, a, b) < 0 && Order(w, sortInput, b, c) < 0 ==> Order(w, sortInput, a, c) < 0
  {
    OrderIsAntisymmetric(w, sortInput, a, b);
    OrderIsAntisymmetric(w, sortInput, a, c);
    LexTotal(a.path, b.path);
    LexTotal(b.path, c.path);
    LexTotal(a.path, c.path);
    if Lex(a.path, b.path) && Lex(b.path, c.path) {
      LexTransitive(a.path, b.path, c.path);
    }
  }

  /** `p` stands first at index `i`. */
  predicate FirstIndex(list: seq<Place>, p: Place, i: nat) {
    i < |list| && list[i] == p && forall j | 0 <= j < i :: list[j] != p
  }

  lemma {:induction false} IndexOfIsFirst(list: seq<Place>, p: Place)
    ensures if p in list then IndexOf(list, p) >= 0 && FirstIndex(list, p, IndexOf(list, p)) else IndexOf(list, p) == -1
  {
    if list != [] && list[0] != p {
      IndexOfIsFirst(list[1..], p);
      assert p in list <==> p in list[1..];
    }
  }

  lemma FirstIndexIsIndexOf(list: seq<Place>, p: Place, i: nat)
    requires FirstIndex(list, p, i)
    ensures IndexOf(list, p) == i
  {
    IndexOfIsFirst(list, p);
  }

  /** Across trees: the document comes first of all; other roots come after all nodes that have a parent, among
      themselves in the order of the input, if it was recorded; and nodes of the preferred tree come before those
      of others. */
  lemma OrderAcrossTrees(w: World, sortInput: Option<seq<Place>>, a: Place, b: Place)
    requires a != b
    ensures a == Place(w.document, []) ==> Order(w, sortInput, a, b) < 0
    ensures b == Place(w.document, []) ==> Order(w, sortInput, a, b) > 0
    ensures a.path != [] && b.path == [] && b.root != w.document ==> Order(w, sortInput, a, b) < 0
    ensures a.path == [] && b.path != [] && a.root != w.document ==> Order(w, sortInput, a, b) > 0
    ensures a.path != [] && b.path != [] && a.root == w.preferred && b.root != w.preferred ==>
              Order(w, sortInput, a, b) < 0
    ensures a.path != [] && b.path != [] && a.root != w.preferred && b.root == w.preferred ==>
              Order(w, sortInput, a, b) > 0
    ensures a.path == b.path == [] && a.root != w.document && b.root != w.document && sortInput.Some? ==>
              forall i: nat, j: nat ::
                FirstIndex(sortInput.value, a, i) && FirstIndex(sortInput.value, b, j) ==>
                  (i < j ==> Order(w, sortInput, a, b) < 0) && (i > j ==> Order(w, sortInput, a, b) > 0)
  {
    if sortInput.Some? {
      forall i: nat, j: nat | FirstIndex(sortInput.value, a, i) && FirstIndex(sortInput.value, b, j)
        ensures IndexOf(sortInput.value, a) == i && IndexOf(sortInput.value, b) == j
      {
        FirstIndexIsIndexOf(sortInput.value, a, i);
        FirstIndexIsIndexOf(sortInput.value, b, j);
      }
    }
  }

  /** With ties it is not one: nodes of two such trees are all equal to each other, though
      nodes within one tree are ordered. */
  lemma OrderIsNotConsistentAcrossTrees()
    ensures exists w, a, b, c ::
              Valid(w, a) && Valid(w, b) && Valid(w, c) &&
              Order(w, None, a, b) == 0 && Order(w, None, b, c) == 0 && Order(w, None, a, c) < 0
  {
    var leaf := Tree(Element, []);
    var two := Tree(Element, [leaf, leaf]);
    var w := World([Tree(Document, []), two, two], 0, 0);
    var a, b, c := Place(1, [0]), Place(2, [0]), Place(1, [1]);
    assert Lex([0], [1]);
    assert two.kids[0] == leaf && two.kids[1] == leaf;
    assert [0][1..] == [] && [1][1..] == [];
    assert Has(two, [0]) && Has(two, [1]);
    assert w.trees[1] == two && w.trees[2] == two;
    assert Valid(w, a) && Valid(w, b) && Valid(w, c);
  }
}
