/** The arithmetic of `:nth-child(an+b)` and the counting of element children. */
module NthChild {
  import opened Prelude
  import opened Dom
  import opened Selectors

  /** The test applied to the element count. A JavaScript remainder is zero for the same operands
      as the Euclidean one, and by zero it is NaN, which equals nothing; the quotient is
      non-negative when it is zero or the signs agree. */
  predicate CountTest(count: int, first: int, last: int) {
    var diff := count - last;
    diff == first || (first != 0 && diff % first == 0 && (diff == 0 || (diff > 0 <==> first > 0)))
  }

  /** The remainder-and-sign test accepts exactly the terms of the progression, for negative
      and zero steps as well. */
  lemma CountTestIsProgression(count: int, a: int, b: int)
    ensures CountTest(count, a, b) <==> InProgression(count, a, b)
  {
    var diff := count - b;
    if CountTest(count, a, b) {
      if diff == a {
        assert count == a * 1 + b;
      } else {
        var k := diff / a;
        assert diff == a * k;
        QuotientSign(diff, a, k);
        assert count == a * k + b;
      }
    }
    if k: nat :| count == a * k + b {
      assert diff == a * k;
      if a != 0 {
        MultipleModulo(a, k);
        ProductSign(a, k);
      }
    }
  }

  lemma QuotientSign(diff: int, a: int, k: int)
    requires a != 0 && diff == a * k && (diff == 0 || (diff > 0 <==> a > 0))
    ensures k >= 0
  {
  }

  lemma ProductSign(a: int, k: int)
    requires a != 0 && k >= 0
    ensures a * k == 0 || (a * k > 0 <==> a > 0)
  {
  }

  lemma MultipleModulo(a: int, k: int)
    requires a != 0
    ensures (a * k) % a == 0
  {
    var q, r := (a * k) / a, (a * k) % a;
    assert a * k == a * q + r;
    assert a * (k - q) == r;
    SmallMultiple(a, k - q);
  }

  lemma SmallMultiple(a: int, d: int)
    requires 0 <= a * d < if a < 0 then -a else a
    ensures a * d == 0
  {
    if d > 0 {
      assert a * d == a * (d - 1) + a;
    }
  }

  lemma CountSplit(kids: seq<Tree>, i: nat)
    requires i < |kids|
    ensures CountElements(kids[..i + 1]) == CountElements(kids[..i]) + if kids[i].kind.Element? then 1 else 0
  {
    assert kids[..i + 1][..i] == kids[..i];
  }

  /** The count that `:nth-child` needs: elements up to and including the target, if it is one. */
  function PositionIn(kids: seq<Tree>, target: nat): nat
    requires target < |kids|
  {
    if kids[target].kind.Element? then CountElements(kids[..target + 1]) else 0
  }

  /** A remembered child index with the number of elements up to it. */
  datatype Mark = Mark(index: nat, count: nat)

  /** Seeks the target from a remembered index, restarting at the first child at most once. The
      answer does not depend on what was remembered. An index of 0 counts as nothing remembered. */
  method Seek(kids: seq<Tree>, target: nat, cached: Option<Mark>) returns (found: bool, diff: nat)
    requires target < |kids|
    requires cached.Some? ==>
               cached.value.index < |kids| && cached.value.count == CountElements(kids[..cached.value.index + 1])
    ensures diff == PositionIn(kids, target)
    ensures found <==> kids[target].kind.Element?
  {
    var node: Option<nat> := None;
    var nodeIndex := 0;
    diff := 0;
    if cached.Some? && cached.value.index != 0 {
      nodeIndex, diff := cached.value.index, cached.value.count;
      node := Some(nodeIndex);
    }
    var start := true;  // the first child has not been taken yet
    while true
      invariant node.Some? ==> node.value == nodeIndex < |kids| && diff == CountElements(kids[..nodeIndex + 1])
      invariant node.None? ==> start
      invariant !start && kids[target].kind.Element? ==> nodeIndex < target
      decreases start, if node.Some? then |kids| - nodeIndex else |kids| + 1
    {
      if node.Some? && nodeIndex + 1 < |kids| {
        nodeIndex := nodeIndex + 1;
        node := Some(nodeIndex);
      } else {
        diff, nodeIndex := 0, 0;
        if !start {
          return false, 0;
        }
        start, node := false, Some(0);
        assert kids[..0] == [];
      }
      CountSplit(kids, nodeIndex);
      if kids[nodeIndex].kind.Element? {
        diff := diff + 1;
        if nodeIndex == target {
          return true, diff;
        }
      }
    }
  }

  /** The same count from the first child, as for XML documents. */
  method SeekUncached(kids: seq<Tree>, target: nat) returns (diff: nat)
    requires target < |kids|
    ensures diff == PositionIn(kids, target)
  {
    diff := 0;
    var i := 0;
    while i < |kids|
      invariant 0 <= i <= |kids| && diff == CountElements(kids[..i])
      invariant kids[target].kind.Element? ==> i <= target
    {
      CountSplit(kids, i);
      if kids[i].kind.Element? {
        diff := diff + 1;
        if i == target {
          return;
        }
      }
      i := i + 1;
    }
    diff := 0;
  }
}
