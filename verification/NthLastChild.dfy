/**
 The cached count of `:nth-last-child`. It remembers a count on every element it passes, but starts
 from the element asked for instead of from the last child, so the elements before it get counts that
 are too small.
 */
module NthLastChild {
  import opened Dom
  import opened Selectors

  predicate IsElementAt(kids: seq<Tree>, i: nat) {
    i < |kids| && kids[i].kind.Element?
  }

  /** The 1-based position from the end. */
  function LastPosition(kids: seq<Tree>, i: nat): nat
    requires i <= |kids|
  {
    CountElements(kids[i..])
  }

  /** What one uncached count leaves on each element: from the element asked for downward, and only
      from there on upward. */
  function Remembered(kids: seq<Tree>, target: nat, i: nat): nat
    requires i < |kids| && target <= |kids|
  {
    if i < target then CountElements(kids[i..target]) else LastPosition(kids, i)
  }

  lemma {:induction false} CountConcat(a: seq<Tree>, b: seq<Tree>)
    ensures CountElements(a + b) == CountElements(a) + CountElements(b)
    decreases |b|
  {
    if b == [] {
      assert a + b == a;
    } else {
      var n := |b| - 1;
      assert (a + b)[..|a| + n] == a + b[..n] && (a + b)[|a| + n] == b[n];
      CountConcat(a, b[..n]);
    }
  }

  lemma CountFront(kids: seq<Tree>, i: nat, j: nat)
    requires i < j <= |kids|
    ensures CountElements(kids[i..j]) == CountElements(kids[i + 1..j]) + if kids[i].kind.Element? then 1 else 0
  {
    assert kids[i..j] == [kids[i]] + kids[i + 1..j];
    assert [kids[i]][..0] == [];
    CountConcat([kids[i]], kids[i + 1..j]);
  }

  /** The cache holds, for the elements from `from` up to `upTo`, what a count for `target` leaves. */
  ghost predicate Filled(kids: seq<Tree>, target: nat, cache: map<nat, nat>, from: nat, upTo: nat)
    requires target <= |kids|
  {
    forall i: nat | from <= i < upTo && IsElementAt(kids, i) :: i in cache && cache[i] == Remembered(kids, target, i)
  }

  /** The seek loop: first through the siblings before the target, then from the last child. */
  method SeekLast(kids: seq<Tree>, target: nat, cache: map<nat, nat>) returns (diff: nat, cache': map<nat, nat>)
    requires IsElementAt(kids, target)
    ensures target in cache ==> diff == cache[target] && cache' == cache
    ensures target !in cache ==> diff == LastPosition(kids, target) && Filled(kids, target, cache', 0, |kids|)
  {
    cache' := cache;
    if target in cache {
      return cache[target], cache;
    }
    diff := 0;
    var node: nat := target;
    assert kids[target..target] == [];
    while node > 0
      invariant node <= target && diff == CountElements(kids[node..target])
      invariant Filled(kids, target, cache', node, target)
    {
      node := node - 1;
      CountFront(kids, node, target);
      if kids[node].kind.Element? {
        diff := diff + 1;
        cache' := cache'[node := diff];
      }
    }
    diff := 0;
    node := |kids|;
    assert kids[|kids|..] == [];
    while node > target
      invariant target <= node <= |kids| && diff == LastPosition(kids, node)
      invariant Filled(kids, target, cache', 0, target) && Filled(kids, target, cache', node, |kids|)
    {
      node := node - 1;
      CountFront(kids, node, |kids|);
      assert kids[node..] == kids[node..|kids|] && kids[node + 1..] == kids[node + 1..|kids|];
      if kids[node].kind.Element? {
        diff := diff + 1;
        cache' := cache'[node := diff];
      }
    }
  }

  /** What was left on an element is right exactly if it does not precede the one asked for. */
  lemma RememberedIsRight(kids: seq<Tree>, target: nat, i: nat)
    requires IsElementAt(kids, target) && IsElementAt(kids, i)
    ensures Remembered(kids, target, i) == LastPosition(kids, i) <==> target <= i
  {
    if i < target {
      assert kids[i..] == kids[i..target] + kids[target..];
      CountConcat(kids[i..target], kids[target..]);
      assert kids[target..] == kids[target..|kids|];
      CountFront(kids, target, |kids|);
    }
  }

  /** A run of questions about elements under one parent, the caches being empty before. */
  method AskAll(kids: seq<Tree>, asked: seq<nat>) returns (answers: seq<nat>)
    requires forall k | 0 <= k < |asked| :: IsElementAt(kids, asked[k])
    ensures |answers| == |asked|
    ensures forall k | 0 <= k < |asked| :: IsElementAt(kids, asked[k]) &&
              (answers[k] == LastPosition(kids, asked[k]) <==> asked[0] <= asked[k])
  {
    answers := [];
    var cache := map[];
    for k := 0 to |asked|
      invariant |answers| == k
      invariant if k == 0 then cache == map[] else Filled(kids, asked[0], cache, 0, |kids|)
      invariant forall j | 0 <= j < k :: (answers[j] == LastPosition(kids, asked[j]) <==> asked[0] <= asked[j])
    {
      var diff;
      diff, cache := SeekLast(kids, asked[k], cache);
      RememberedIsRight(kids, asked[0], asked[k]);
      answers := answers + [diff];
    }
  }

  /** Two elements asked for from the back: the second answer is wrong. */
  lemma BackwardsIsWrong()
    ensures
      var e := Tree(Element, []);
      IsElementAt([e, e], 0) && IsElementAt([e, e], 1) &&
      Remembered([e, e], 1, 0) == 1 && LastPosition([e, e], 0) == 2
  {
    var e := Tree(Element, []);
    var kids := [e, e];
    CountFront(kids, 0, 1);
    CountFront(kids, 0, 2);
    CountFront(kids, 1, 2);
    assert kids[1..1] == [] && kids[2..2] == [] && kids[0..] == kids[0..2];
  }
}
