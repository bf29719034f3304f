/**
 The handler list of one event type on one element. Delegated and direct handlers share one array,
 delegated ones in front; removal walks the array from the back. Over every sequence of calls the
 array is what a plain list in registration order would give, delegated handlers first.
 */
module EventHandlers {
  import opened Prelude
  import opened Dom

  datatype Handler = Handler(guid: nat, selector: Option<string>)

  function Keep(hs: seq<Handler>, p: Handler -> bool): seq<Handler> {
    if hs == [] then []
    else
      var n := |hs| - 1;
      Keep(hs[..n], p) + if p(hs[n]) then [hs[n]] else []
  }

  function IsDelegated(): Handler -> bool {
    (h: Handler) => h.selector.Some?
  }

  function IsDirect(): Handler -> bool {
    (h: Handler) => h.selector.None?
  }

  function Delegated(hs: seq<Handler>): seq<Handler> {
    Keep(hs, IsDelegated())
  }

  function Direct(hs: seq<Handler>): seq<Handler> {
    Keep(hs, IsDirect())
  }

  lemma {:induction false} KeepConcat(a: seq<Handler>, b: seq<Handler>, p: Handler -> bool)
    ensures Keep(a + b, p) == Keep(a, p) + Keep(b, p)
    decreases |b|
  {
    if b == [] {
      assert a + b == a;
    } else {
      var n := |b| - 1;
      assert (a + b)[..|a| + n] == a + b[..n] && (a + b)[|a| + n] == b[n];
      KeepConcat(a, b[..n], p);
    }
  }

  lemma KeepOne(h: Handler, p: Handler -> bool)
    ensures Keep([h], p) == if p(h) then [h] else []
  {
    assert [h][..0] == [];
  }

  lemma {:induction false} KeepCommutes(hs: seq<Handler>, p: Handler -> bool, q: Handler -> bool)
    ensures Keep(Keep(hs, p), q) == Keep(Keep(hs, q), p)
  {
    if hs != [] {
      var n := |hs| - 1;
      var front, h := hs[..n], hs[n];
      KeepCommutes(front, p, q);
      KeepConcat(Keep(front, p), if p(h) then [h] else [], q);
      KeepConcat(Keep(front, q), if q(h) then [h] else [], p);
      KeepOne(h, p);
      KeepOne(h, q);
    }
  }

  lemma {:induction false} KeepAll(hs: seq<Handler>, p: Handler -> bool)
    requires forall i | 0 <= i < |hs| :: p(hs[i])
    ensures Keep(hs, p) == hs
  {
    if hs != [] {
      KeepAll(hs[..|hs| - 1], p);
    }
  }

  lemma {:induction false} KeepNone(hs: seq<Handler>, p: Handler -> bool)
    requires forall i | 0 <= i < |hs| :: !p(hs[i])
    ensures Keep(hs, p) == []
  {
    if hs != [] {
      KeepNone(hs[..|hs| - 1], p);
    }
  }

  lemma {:induction false} KeptSatisfy(hs: seq<Handler>, p: Handler -> bool)
    ensures forall i | 0 <= i < |Keep(hs, p)| :: p(Keep(hs, p)[i])
  {
    if hs != [] {
      KeptSatisfy(hs[..|hs| - 1], p);
    }
  }

  /** Delegated handlers moved to the front are still all the delegated handlers. */
  lemma ArrangedCount(plain: seq<Handler>)
    ensures Delegated(Delegated(plain) + Direct(plain)) == Delegated(plain)
  {
    KeptSatisfy(plain, IsDelegated());
    KeptSatisfy(plain, IsDirect());
    KeepConcat(Delegated(plain), Direct(plain), IsDelegated());
    KeepAll(Delegated(plain), IsDelegated());
    KeepNone(Direct(plain), IsDelegated());
  }

  // ----- the shared array -----

  /** The handlers from the j-th on have been dealt with. */
  ghost predicate Removing(hs: seq<Handler>, stay: Handler -> bool, j: nat,
                           handlers: seq<Handler>, delegateCount: int)
  {
    && j <= |hs|
    && handlers == hs[..j] + Keep(hs[j..], stay)
    && delegateCount == |Delegated(hs[..j])| + |Delegated(Keep(hs[j..], stay))|
  }

  lemma DelegatedNext(hs: seq<Handler>, j: nat)
    requires j < |hs|
    ensures |Delegated(hs[..j + 1])| == |Delegated(hs[..j])| + if hs[j].selector.Some? then 1 else 0
  {
    assert hs[..j + 1][..j] == hs[..j];
  }

  lemma KeepFirst(hs: seq<Handler>, j: nat, stay: Handler -> bool)
    requires j < |hs|
    ensures Keep(hs[j..], stay) == (if stay(hs[j]) then [hs[j]] else []) + Keep(hs[j + 1..], stay)
  {
    assert hs[j..] == [hs[j]] + hs[j + 1..];
    KeepConcat([hs[j]], hs[j + 1..], stay);
    KeepOne(hs[j], stay);
  }

  lemma HandlerStays(hs: seq<Handler>, stay: Handler -> bool, j: nat, handlers: seq<Handler>, delegateCount: int)
    requires 0 < j && Removing(hs, stay, j, handlers, delegateCount) && stay(hs[j - 1])
    ensures Removing(hs, stay, j - 1, handlers, delegateCount)
  {
    var h, rest := hs[j - 1], Keep(hs[j..], stay);
    KeepFirst(hs, j - 1, stay);
    DelegatedNext(hs, j - 1);
    assert |Delegated([h] + rest)| == |Delegated([h])| + |Delegated(rest)| by {
      KeepConcat([h], rest, IsDelegated());
    }
    KeepOne(h, IsDelegated());
    Regroup(hs, j, rest);
  }

  lemma Regroup(hs: seq<Handler>, j: nat, rest: seq<Handler>)
    requires 0 < j <= |hs|
    ensures hs[..j] + rest == hs[..j - 1] + ([hs[j - 1]] + rest)
    ensures (hs[..j] + rest)[..j - 1] == hs[..j - 1] && (hs[..j] + rest)[j..] == rest
  {
  }

  lemma HandlerGoes(hs: seq<Handler>, stay: Handler -> bool, j: nat, handlers: seq<Handler>, delegateCount: int)
    requires 0 < j && Removing(hs, stay, j, handlers, delegateCount) && !stay(hs[j - 1])
    ensures
      var count := if hs[j - 1].selector.Some? then delegateCount - 1 else delegateCount;
      Removing(hs, stay, j - 1, handlers[..j - 1] + handlers[j..], count)
  {
    KeepFirst(hs, j - 1, stay);
    DelegatedNext(hs, j - 1);
    assert Keep(hs[j - 1..], stay) == Keep(hs[j..], stay);
    Regroup(hs, j, Keep(hs[j..], stay));
  }

  /** Removes from the back every handler that the call asks to remove. */
  method RemoveFrom(hs: seq<Handler>, drop: Handler -> bool, delegates: nat)
    returns (handlers: seq<Handler>, delegateCount: int)
    requires delegates == |Delegated(hs)|
    ensures handlers == Keep(hs, h => !drop(h)) && delegateCount == |Delegated(handlers)|
  {
    ghost var stay := h => !drop(h);
    handlers, delegateCount := hs, delegates;
    var j := |handlers|;
    assert hs[j..] == [] && hs[..j] == hs;
    while j > 0
      invariant 0 <= j && Removing(hs, stay, j, handlers, delegateCount)
    {
      var h := handlers[j - 1];
      if drop(h) {
        HandlerGoes(hs, stay, j, handlers, delegateCount);
        handlers := handlers[..j - 1] + handlers[j..];
        if h.selector.Some? {
          delegateCount := delegateCount - 1;
        }
      } else {
        HandlerStays(hs, stay, j, handlers, delegateCount);
      }
      j := j - 1;
    }
    assert hs[0..] == hs && hs[..0] == [];
  }

  class HandlerList {
    var handlers: seq<Handler>
    var delegateCount: nat

    /** The array is the plain list `plain`, delegated handlers moved to the front. */
    ghost predicate Arranges(plain: seq<Handler>)
      reads this
    {
      handlers == Delegated(plain) + Direct(plain) && delegateCount == |Delegated(plain)|
    }

    constructor ()
      ensures Arranges([])
    {
      handlers, delegateCount := [], 0;
    }

    method Add(h: Handler, ghost plain: seq<Handler>)
      requires Arranges(plain)
      modifies this
      ensures Arranges(plain + [h])
    {
      assert (plain + [h])[..|plain|] == plain;
      if h.selector.Some? {
        handlers := handlers[..delegateCount] + [h] + handlers[delegateCount..];
        delegateCount := delegateCount + 1;
      } else {
        handlers := handlers + [h];
      }
    }

    method Remove(drop: Handler -> bool, ghost plain: seq<Handler>)
      requires Arranges(plain)
      modifies this
      ensures Arranges(Keep(plain, h => !drop(h)))
    {
      ArrangedCount(plain);
      Rearranged(plain, h => !drop(h));
      handlers, delegateCount := RemoveFrom(handlers, drop, delegateCount);
    }
  }

  /** Removing from the arranged array arranges the plain list after removal. */
  lemma Rearranged(plain: seq<Handler>, stay: Handler -> bool)
    ensures
      var hs := Keep(Delegated(plain) + Direct(plain), stay);
      hs == Delegated(Keep(plain, stay)) + Direct(Keep(plain, stay)) && Delegated(hs) == Delegated(Keep(plain, stay))
  {
    KeepConcat(Delegated(plain), Direct(plain), stay);
    KeepCommutes(plain, IsDelegated(), stay);
    KeepCommutes(plain, IsDirect(), stay);
    ArrangedCount(Keep(plain, stay));
  }

  // ----- the queue for one event -----

  datatype Entry = Entry(elem: Node, handlers: seq<Handler>)

  /** The nodes from the target up to, but not including, the element with the handlers. */
  function Upward(cur: Node, top: Node): seq<Node>
    decreases |cur|
  {
    if cur == top then [] else [cur] + if cur == [] then [] else Upward(Up(cur), top)
  }

  /** The test of one delegated selector against one node. */
  type SelectorTest = (string, Node) -> bool

  function Matching(test: SelectorTest, cur: Node): Handler -> bool {
    (h: Handler) => h.selector.Some? && test(h.selector.value, cur)
  }

  /** For each eligible node from the target upward, the delegated handlers whose selector it
      matches, if there are any. */
  function DelegateQueue(delegates: seq<Handler>, path: seq<Node>, eligible: Node -> bool, test: SelectorTest)
    : seq<Entry>
  {
    if path == [] then []
    else
      var n := |path| - 1;
      var matched := Keep(delegates, Matching(test, path[n]));
      DelegateQueue(delegates, path[..n], eligible, test) +
      if eligible(path[n]) && matched != [] then [Entry(path[n], matched)] else []
  }

  function DirectQueue(direct: seq<Handler>, top: Node): seq<Entry> {
    if direct == [] then [] else [Entry(top, direct)]
  }

  /** The delegated handlers that `cur` matches, each selector tested once. */
  method MatchDelegates(handlers: seq<Handler>, delegateCount: nat, cur: Node, test: SelectorTest)
    returns (matched: seq<Handler>)
    requires delegateCount <= |handlers| && forall i | 0 <= i < delegateCount :: handlers[i].selector.Some?
    ensures matched == Keep(handlers[..delegateCount], Matching(test, cur))
  {
    matched := [];
    var tested: map<string, bool> := map[];
    var i := 0;
    while i < delegateCount
      invariant 0 <= i <= delegateCount
      invariant matched == Keep(handlers[..i], Matching(test, cur))
      invariant forall s | s in tested :: tested[s] == test(s, cur)
    {
      assert handlers[..i + 1][..i] == handlers[..i];
      var sel := handlers[i].selector.value;
      if sel !in tested {
        tested := tested[sel := test(sel, cur)];
      }
      if tested[sel] {
        matched := matched + [handlers[i]];
      }
      i := i + 1;
    }
  }

  /** The walk from the target upward. */
  method WalkUp(hs: seq<Handler>, count: nat, target: Node, top: Node, eligible: Node -> bool, test: SelectorTest)
    returns (queue: seq<Entry>)
    requires count <= |hs| && forall i | 0 <= i < count :: hs[i].selector.Some?
    ensures queue == DelegateQueue(hs[..count], Upward(target, top), eligible, test)
  {
    queue := [];
    var cur := target;
    ghost var path := [];
    while cur != top
      invariant Upward(target, top) == path + Upward(cur, top)
      invariant queue == DelegateQueue(hs[..count], path, eligible, test)
      decreases |cur|
    {
      var matched := MatchDelegates(hs, count, cur, test);
      QueueNext(hs[..count], path, cur, eligible, test);
      UpwardNext(path, cur, top);
      if eligible(cur) && matched != [] {
        queue := queue + [Entry(cur, matched)];
      }
      path := path + [cur];
      if cur == [] {
        return;  // past the root, the walk goes on at the element itself
      }
      cur := Up(cur);
    }
    assert path + [] == path;
  }

  lemma QueueNext(delegates: seq<Handler>, path: seq<Node>, cur: Node, eligible: Node -> bool, test: SelectorTest)
    ensures
      var matched := Keep(delegates, Matching(test, cur));
      var next := if eligible(cur) && matched != [] then [Entry(cur, matched)] else [];
      DelegateQueue(delegates, path + [cur], eligible, test) == DelegateQueue(delegates, path, eligible, test) + next
  {
    assert (path + [cur])[..|path|] == path;
  }

  lemma UpwardNext(path: seq<Node>, cur: Node, top: Node)
    requires cur != top
    ensures path + Upward(cur, top) == (path + [cur]) + if cur == [] then [] else Upward(Up(cur), top)
    ensures cur == [] ==> path + Upward(cur, top) == path + [cur]
  {
    var rest := if cur == [] then [] else Upward(Up(cur), top);
    assert Upward(cur, top) == [cur] + rest;
    assert path + ([cur] + rest) == (path + [cur]) + rest;
    assert cur == [] ==> [cur] + rest == [cur];
  }

  /** The handlers to run for an event: matching delegates from the target upward, then all direct
      handlers, each in registration order. `usable` is false for events whose delegates are
      ignored altogether. */
  method Handlers(list: HandlerList, ghost plain: seq<Handler>, target: Node, top: Node, usable: bool,
                  eligible: Node -> bool, test: SelectorTest)
    returns (queue: seq<Entry>)
    requires list.Arranges(plain)
    ensures queue == (if usable then DelegateQueue(Delegated(plain), Upward(target, top), eligible, test) else []) +
                     DirectQueue(Direct(plain), top)
    ensures
      var n := if Direct(plain) == [] then |queue| else |queue| - 1;
      && 0 <= n && (Direct(plain) != [] ==> queue[n] == Entry(top, Direct(plain)))
      && (!usable ==> n == 0)
      && (usable && Inside(target, top) ==>
            Queues(queue[..n], Delegated(plain), target, |target| - |top|, eligible, test))
  {
    queue := [];
    var hs, count := list.handlers, list.delegateCount;
    assert hs[..count] == Delegated(plain) && hs[count..] == Direct(plain);
    if count > 0 && usable {
      KeptSatisfy(plain, IsDelegated());
      assert forall i | 0 <= i < count :: hs[i] == Delegated(plain)[i];
      queue := WalkUp(hs, count, target, top, eligible, test);
    } else if usable {
      NoDelegates(Upward(target, top), eligible, test);
    }
    ghost var delegated := queue;
    if usable && Inside(target, top) {
      QueueRunsUp(Delegated(plain), target, top, eligible, test);
    }
    if count < |hs| {
      queue := queue + [Entry(top, hs[count..])];
      assert queue[..|queue| - 1] == delegated;
    } else {
      assert queue[..|queue|] == delegated;
    }
  }

  lemma {:induction false} NoDelegates(path: seq<Node>, eligible: Node -> bool, test: SelectorTest)
    ensures DelegateQueue([], path, eligible, test) == []
  {
    if path != [] {
      NoDelegates(path[..|path| - 1], eligible, test);
    }
  }

  // ----- what the queue is, told by positions -----

  /** The target and its ancestors, `m` nodes in all. */
  function Climb(target: Node, m: nat): (r: seq<Node>)
    requires m <= |target| + 1
    ensures |r| == m
  {
    seq(m, i requires 0 <= i < m => target[..|target| - i])
  }

  predicate Inside(target: Node, top: Node) {
    |top| <= |target| && target[..|top|] == top
  }

  lemma ClimbUp(target: Node, m: nat)
    requires target != [] && m <= |target|
    ensures Climb(target, m + 1) == [target] + Climb(Up(target), m)
  {
    assert target[..|target|] == target;
    forall i | 0 <= i < m
      ensures Climb(target, m + 1)[i + 1] == Climb(Up(target), m)[i]
    {
      assert Up(target)[..|target| - 1 - i] == target[..|target| - 1 - i];
    }
  }

  lemma InsideUp(target: Node, top: Node)
    requires target != [] && target != top
    ensures Inside(target, top) <==> Inside(Up(target), top)
  {
    if |top| < |target| {
      assert Up(target)[..|top|] == target[..|top|];
    } else if |top| == |target| {
      assert target[..|top|] == target;
    }
  }

  /** The walk visits the ancestors below the element with the handlers; from a target that is not inside it, all
      ancestors. */
  lemma {:induction false} WalkIsClimb(target: Node, top: Node)
    ensures Upward(target, top) == Climb(target, if Inside(target, top) then |target| - |top| else |target| + 1)
    decreases |target|
  {
    if target == top {
      assert Inside(target, top) by {
        assert target[..|top|] == top;
      }
    } else if target == [] {
      assert target[..0] == target;
    } else {
      WalkIsClimb(Up(target), top);
      InsideUp(target, top);
      ClimbUp(target, if Inside(target, top) then |target| - 1 - |top| else |target|);
    }
  }

  /** Keeping is by the test alone, and keeps the order (`KeepConcat`). */
  lemma {:induction false} KeptIffPasses(hs: seq<Handler>, p: Handler -> bool, h: Handler)
    ensures h in Keep(hs, p) <==> h in hs && p(h)
  {
    if hs != [] {
      KeptIffPasses(hs[..|hs| - 1], p, h);
      assert hs == hs[..|hs| - 1] + [hs[|hs| - 1]];
    }
  }

  /** Some delegate is to run at this node. */
  ghost predicate RunsAt(delegates: seq<Handler>, eligible: Node -> bool, test: SelectorTest, n: Node) {
    eligible(n) && exists h | h in delegates :: h.selector.Some? && test(h.selector.value, n)
  }

  ghost predicate HasDepth(queue: seq<Entry>, d: int) {
    exists i | 0 <= i < |queue| :: |queue[i].elem| == d
  }

  /** An entry at a node between the target and depth `low`, where some delegate is to run, with the matching
      delegates. */
  ghost predicate IsEntry(e: Entry, delegates: seq<Handler>, target: Node, low: int,
                          eligible: Node -> bool, test: SelectorTest)
  {
    && low < |e.elem| <= |target| && e.elem == target[..|e.elem|]
    && RunsAt(delegates, eligible, test, e.elem)
    && e.handlers == Keep(delegates, Matching(test, e.elem))
  }

  /** The entries are at the nodes of the climb where a delegate is to run, nearest to the target first, each with
      the matching delegates. */
  ghost predicate Queues(queue: seq<Entry>, delegates: seq<Handler>, target: Node, m: nat,
                         eligible: Node -> bool, test: SelectorTest)
    requires m <= |target| + 1
  {
    && (forall i | 0 <= i < |queue| :: IsEntry(queue[i], delegates, target, |target| - m, eligible, test))
    && (forall i, j | 0 <= i < j < |queue| :: |queue[i].elem| > |queue[j].elem|)
    && (forall d: nat | |target| - m < d <= |target| ::
          RunsAt(delegates, eligible, test, target[..d]) ==> HasDepth(queue, d))
  }

  lemma MatchedIffRuns(delegates: seq<Handler>, test: SelectorTest, n: Node)
    ensures Keep(delegates, Matching(test, n)) != [] <==> RunsAt(delegates, _ => true, test, n)
  {
    var kept := Keep(delegates, Matching(test, n));
    if kept != [] {
      assert kept[0] in kept;
      KeptIffPasses(delegates, Matching(test, n), kept[0]);
    }
    if h :| h in delegates && h.selector.Some? && test(h.selector.value, n) {
      KeptIffPasses(delegates, Matching(test, n), h);
    }
  }

  lemma EntriesLower(queue: seq<Entry>, delegates: seq<Handler>, target: Node, low: int,
                     eligible: Node -> bool, test: SelectorTest)
    requires forall i | 0 <= i < |queue| :: IsEntry(queue[i], delegates, target, low, eligible, test)
    ensures forall i | 0 <= i < |queue| :: IsEntry(queue[i], delegates, target, low - 1, eligible, test)
  {
  }

  lemma DepthStays(queue: seq<Entry>, e: Entry, d: int)
    requires HasDepth(queue, d)
    ensures HasDepth(queue + [e], d)
  {
    var i :| 0 <= i < |queue| && |queue[i].elem| == d;
    assert |(queue + [e])[i].elem| == d;
  }

  lemma QueuesMore(queue: seq<Entry>, e: Entry, delegates: seq<Handler>, target: Node, m: nat,
                   eligible: Node -> bool, test: SelectorTest)
    requires m <= |target| && Queues(queue, delegates, target, m, eligible, test)
    requires |e.elem| == |target| - m && IsEntry(e, delegates, target, |target| - m - 1, eligible, test)
    ensures Queues(queue + [e], delegates, target, m + 1, eligible, test)
  {
    var all := queue + [e];
    EntriesLower(queue, delegates, target, |target| - m, eligible, test);
    forall d: nat | |target| - (m + 1) < d <= |target| && RunsAt(delegates, eligible, test, target[..d])
      ensures HasDepth(all, d)
    {
      if d == |target| - m {
        assert |all[|queue|].elem| == d;
      } else {
        DepthStays(queue, e, d);
      }
    }
    forall i, j | 0 <= i < j < |all|
      ensures |all[i].elem| > |all[j].elem|
    {
      assert IsEntry(queue[i], delegates, target, |target| - m, eligible, test);
    }
  }

  lemma QueuesSkip(queue: seq<Entry>, delegates: seq<Handler>, target: Node, m: nat,
                   eligible: Node -> bool, test: SelectorTest)
    requires m <= |target| && Queues(queue, delegates, target, m, eligible, test)
    requires !RunsAt(delegates, eligible, test, target[..|target| - m])
    ensures Queues(queue, delegates, target, m + 1, eligible, test)
  {
    EntriesLower(queue, delegates, target, |target| - m, eligible, test);
  }

  lemma NextQueue(delegates: seq<Handler>, target: Node, m: nat, eligible: Node -> bool, test: SelectorTest)
    requires m <= |target|
    ensures
      var n := target[..|target| - m];
      var before := DelegateQueue(delegates, Climb(target, m), eligible, test);
      DelegateQueue(delegates, Climb(target, m + 1), eligible, test) ==
      if RunsAt(delegates, eligible, test, n) then before + [Entry(n, Keep(delegates, Matching(test, n)))] else before
  {
    var n := target[..|target| - m];
    assert Climb(target, m + 1) == Climb(target, m) + [n];
    QueueNext(delegates, Climb(target, m), n, eligible, test);
    MatchedIffRuns(delegates, test, n);
  }

  lemma {:induction false} ClimbQueues(delegates: seq<Handler>, target: Node, m: nat,
                                       eligible: Node -> bool, test: SelectorTest)
    requires m <= |target| + 1
    ensures Queues(DelegateQueue(delegates, Climb(target, m), eligible, test), delegates, target, m, eligible, test)
  {
    if m > 0 {
      var n := target[..|target| - (m - 1)];
      var before := DelegateQueue(delegates, Climb(target, m - 1), eligible, test);
      ClimbQueues(delegates, target, m - 1, eligible, test);
      NextQueue(delegates, target, m - 1, eligible, test);
      if RunsAt(delegates, eligible, test, n) {
        QueuesMore(before, Entry(n, Keep(delegates, Matching(test, n))), delegates, target, m - 1, eligible, test);
      } else {
        QueuesSkip(before, delegates, target, m - 1, eligible, test);
      }
    }
  }

  /** So the queue of a target inside the element runs up from the target, one entry for each node below the
      element where some delegate is to run. */
  lemma QueueRunsUp(delegates: seq<Handler>, target: Node, top: Node, eligible: Node -> bool, test: SelectorTest)
    requires Inside(target, top)
    ensures
      var queue := DelegateQueue(delegates, Upward(target, top), eligible, test);
      Queues(queue, delegates, target, |target| - |top|, eligible, test)
  {
    WalkIsClimb(target, top);
    ClimbQueues(delegates, target, |target| - |top|, eligible, test);
  }
}
