/**
 Aggregating two or more arguments: each is adopted, a counter tells how many are not yet fulfilled, an
 array takes the values in argument order, and a master deferred settles once.
 */
module When {
  import opened Prelude

  datatype Master = Pending | Resolved(values: seq<int>) | Rejected(reason: int)

  /** The callback of argument `i` is called, or its rejection is passed on. */
  datatype Event = Fulfil(i: nat, v: int) | Fail(i: nat, reason: int)

  datatype W = W(remaining: int, values: seq<int>, master: Master)

  function Start(values: seq<int>): W {
    W(|values|, values, Pending)
  }

  function Step(w: W, e: Event): W {
    match e
    case Fulfil(i, v) =>
      var values := if i < |w.values| then w.values[i := v] else w.values;
      W(w.remaining - 1, values,
        if w.remaining - 1 == 0 && w.master.Pending? then Resolved(values) else w.master)
    case Fail(_, reason) =>
      w.(master := if w.master.Pending? then Rejected(reason) else w.master)
  }

  function Run(w: W, es: seq<Event>): W {
    if es == [] then w else Step(Run(w, es[..|es| - 1]), es[|es| - 1])
  }

  // ----- adopting the arguments -----

  datatype Settlement = Value(v: int) | Reason(r: int)

  /** An argument, `x` being the argument itself: a plain value; a promise of a deferred, which calls back
      once, at once if it has settled; or a foreign thenable, whose `then` calls its two functions as it
      likes and may throw. */
  datatype Argument =
    | Plain(x: int)
    | Promised(x: int, settled: Option<Settlement>)
    | Foreign(x: int, calls: seq<Settlement>, thrown: Option<int>)

  function Caused(i: nat, s: Settlement): Event {
    match s
    case Value(v) => Fulfil(i, v)
    case Reason(r) => Fail(i, r)
  }

  function CausedAll(i: nat, ss: seq<Settlement>): seq<Event> {
    if ss == [] then [] else CausedAll(i, ss[..|ss| - 1]) + [Caused(i, ss[|ss| - 1])]
  }

  /** What adopting argument `i` calls before it returns. */
  function AtOnce(i: nat, a: Argument): seq<Event> {
    match a
    case Plain(x) => [Fulfil(i, x)]
    case Promised(_, settled) => if settled.None? then [] else [Caused(i, settled.value)]
    case Foreign(_, calls, thrown) => CausedAll(i, calls) + if thrown.None? then [] else [Fail(i, thrown.value)]
  }

  /** Arguments are adopted from the last to the first; these are the calls down to the k-th. */
  function Adopted(arguments: seq<Argument>, k: nat): seq<Event>
    requires k <= |arguments|
    decreases |arguments| - k
  {
    if k == |arguments| then [] else Adopted(arguments, k + 1) + AtOnce(k, arguments[k])
  }

  function Given(arguments: seq<Argument>): (values: seq<int>)
    ensures |values| == |arguments|
  {
    seq(|arguments|, i requires 0 <= i < |arguments| => arguments[i].x)
  }

  /** The variables behind `when`, updated by the callbacks it hands out. */
  class Aggregate {
    var remaining: int
    var resolveValues: seq<int>
    var master: Master

    ghost function View(): W
      reads this
    {
      W(remaining, resolveValues, master)
    }

    constructor (values: seq<int>)
      ensures View() == Start(values)
    {
      remaining, resolveValues, master := |values|, values, Pending;
    }

    /** The callback for argument `i`. */
    method Update(i: nat, v: int)
      requires i < |resolveValues|
      modifies this
      ensures View() == Step(old(View()), Fulfil(i, v))
    {
      resolveValues := resolveValues[i := v];
      remaining := remaining - 1;
      if remaining == 0 && master.Pending? {
        master := Resolved(resolveValues);
      }
    }

    method Reject(i: nat, reason: int)
      modifies this
      ensures View() == Step(old(View()), Fail(i, reason))
    {
      if master.Pending? {
        master := Rejected(reason);
      }
    }

    method Settle(i: nat, s: Settlement)
      requires i < |resolveValues|
      modifies this
      ensures View() == Step(old(View()), Caused(i, s))
    {
      match s
      case Value(v) => Update(i, v);
      case Reason(r) => Reject(i, r);
    }

    /** Adopts argument `i`: an exception after any calls becomes a rejection. */
    method AdoptValue(i: nat, a: Argument)
      requires i < |resolveValues|
      modifies this
      ensures View() == Run(old(View()), AtOnce(i, a))
    {
      ghost var w := View();
      match a
      case Plain(x) =>
        RunOne(w, Fulfil(i, x));
        Update(i, x);
      case Promised(_, settled) =>
        if settled.Some? {
          RunOne(w, Caused(i, settled.value));
          Settle(i, settled.value);
        }
      case Foreign(_, calls, thrown) =>
        for k := 0 to |calls|
          invariant |resolveValues| == |old(resolveValues)| && View() == Run(w, CausedAll(i, calls[..k]))
        {
          CausedNext(w, i, calls, k);
          Settle(i, calls[k]);
        }
        assert calls[..|calls|] == calls;
        RunSplits(w, CausedAll(i, calls), if thrown.None? then [] else [Fail(i, thrown.value)]);
        if thrown.Some? {
          RunOne(View(), Fail(i, thrown.value));
          Reject(i, thrown.value);
        }
    }

    /** Adopts all arguments, the last one first. */
    method AdoptAll(arguments: seq<Argument>)
      requires |resolveValues| == |arguments|
      modifies this
      ensures View() == Run(old(View()), Adopted(arguments, 0))
    {
      var i := |arguments|;
      while i > 0
        invariant 0 <= i <= |arguments| == |resolveValues|
        invariant View() == Run(old(View()), Adopted(arguments, i))
      {
        i := i - 1;
        RunSplits(old(View()), Adopted(arguments, i + 1), AtOnce(i, arguments[i]));
        RunKeepsLength(View(), AtOnce(i, arguments[i]));
        AdoptValue(i, arguments[i]);
      }
    }
  }

  lemma RunOne(w: W, e: Event)
    ensures Run(w, [e]) == Step(w, e)
  {
    assert [e][..0] == [];
  }

  lemma CausedNext(w: W, i: nat, calls: seq<Settlement>, k: nat)
    requires k < |calls|
    ensures Run(w, CausedAll(i, calls[..k + 1])) == Step(Run(w, CausedAll(i, calls[..k])), Caused(i, calls[k]))
  {
    assert calls[..k + 1][..k] == calls[..k];
    RunSplits(w, CausedAll(i, calls[..k]), [Caused(i, calls[k])]);
    RunOne(Run(w, CausedAll(i, calls[..k])), Caused(i, calls[k]));
  }

  lemma {:induction false} RunSplits(w: W, a: seq<Event>, b: seq<Event>)
    ensures Run(w, a + b) == Run(Run(w, a), b)
    decreases |b|
  {
    if b == [] {
      assert a + b == a;
    } else {
      var n := |b| - 1;
      assert (a + b)[..|a| + n] == a + b[..n] && (a + b)[|a| + n] == b[n];
      RunSplits(w, a, b[..n]);
    }
  }

  lemma {:induction false} RunKeepsLength(w: W, es: seq<Event>)
    ensures |Run(w, es).values| == |w.values|
  {
    if es != [] {
      RunKeepsLength(w, es[..|es| - 1]);
    }
  }

  // ----- what is promised -----

  ghost function FulfilledSet(es: seq<Event>): set<nat> {
    if es == [] then {}
    else
      var n := |es| - 1;
      FulfilledSet(es[..n]) + if es[n].Fulfil? then {es[n].i} else {}
  }

  ghost predicate AllFulfilled(es: seq<Event>, n: nat) {
    forall i | 0 <= i < n :: i in FulfilledSet(es)
  }

  /** The value argument `i` was last fulfilled with, or `given`. */
  function LatestOf(es: seq<Event>, i: nat, given: int): int {
    if es == [] then given
    else
      var n := |es| - 1;
      if es[n].Fulfil? && es[n].i == i then es[n].v else LatestOf(es[..n], i, given)
  }

  function Latest(values: seq<int>, es: seq<Event>): (r: seq<int>)
    ensures |r| == |values|
  {
    seq(|values|, i requires 0 <= i < |values| => LatestOf(es, i, values[i]))
  }

  /** The master as promised: settled by a rejection, or by the moment all arguments are fulfilled, whichever
      comes first. */
  ghost function Promise(values: seq<int>, es: seq<Event>): Master {
    if es == [] then Pending
    else
      var n := |es| - 1;
      var before := Promise(values, es[..n]);
      if !before.Pending? then before
      else if es[n].Fail? then Rejected(es[n].reason)
      else if AllFulfilled(es, |values|) then Resolved(Latest(values, es))
      else Pending
  }

  /** Callbacks exist for the arguments only. */
  ghost predicate Indexed(es: seq<Event>, n: nat) {
    forall k | 0 <= k < |es| :: es[k].i < n
  }

  /** How many fulfilments there were. */
  function Fulfilments(es: seq<Event>): nat {
    if es == [] then 0 else Fulfilments(es[..|es| - 1]) + if es[|es| - 1].Fulfil? then 1 else 0
  }

  /** No argument is fulfilled twice; it may still be rejected before or after. */
  ghost predicate NoneTwice(es: seq<Event>) {
    forall j, k | 0 <= j < k < |es| && es[j].Fulfil? && es[k].Fulfil? :: es[j].i != es[k].i
  }

  lemma {:induction false} FulfilledIff(es: seq<Event>, i: nat)
    ensures i in FulfilledSet(es) <==> exists k | 0 <= k < |es| :: es[k].Fulfil? && es[k].i == i
  {
    if es != [] {
      var m := |es| - 1;
      FulfilledIff(es[..m], i);
      if k :| 0 <= k < |es| && es[k].Fulfil? && es[k].i == i {
        if k < m {
          assert es[..m][k] == es[k];
        }
      }
      if i in FulfilledSet(es[..m]) {
        var k :| 0 <= k < m && es[..m][k].Fulfil? && es[..m][k].i == i;
        assert es[k].Fulfil? && es[k].i == i;
      }
    }
  }

  /** There are at least as many fulfilments as fulfilled arguments, and more exactly if one came twice. */
  lemma {:induction false} FulfilmentsCount(es: seq<Event>)
    ensures |FulfilledSet(es)| <= Fulfilments(es)
    ensures |FulfilledSet(es)| == Fulfilments(es) <==> NoneTwice(es)
  {
    if es != [] {
      var m := |es| - 1;
      FulfilmentsCount(es[..m]);
      NoneTwiceNext(es);
      FulfilledIff(es[..m], es[m].i);
      assert es[m].Fulfil? && es[m].i in FulfilledSet(es[..m]) ==> FulfilledSet(es) == FulfilledSet(es[..m]);
    }
  }

  lemma NoneTwiceNext(es: seq<Event>)
    requires es != []
    ensures
      var m := |es| - 1;
      NoneTwice(es) <==>
      && NoneTwice(es[..m])
      && (es[m].Fulfil? ==> forall k | 0 <= k < m :: !(es[..m][k].Fulfil? && es[..m][k].i == es[m].i))
  {
    var m := |es| - 1;
    assert forall k | 0 <= k < m :: es[..m][k] == es[k];
    if NoneTwice(es) {
      forall j, k | 0 <= j < k < m && es[..m][j].Fulfil? && es[..m][k].Fulfil?
        ensures es[..m][j].i != es[..m][k].i
      {
        assert es[j].i != es[k].i;
      }
    }
  }

  lemma {:induction false} RemainingCounts(values: seq<int>, es: seq<Event>)
    ensures Run(Start(values), es).remaining == |values| - Fulfilments(es)
  {
    if es != [] {
      RemainingCounts(values, es[..|es| - 1]);
    }
  }

  /** Over every run, `remaining` is the number of arguments not yet fulfilled exactly if none was fulfilled
      twice. */
  lemma RemainingExactlyWhen(values: seq<int>, es: seq<Event>)
    ensures Run(Start(values), es).remaining == |values| - |FulfilledSet(es)| <==> NoneTwice(es)
  {
    RemainingCounts(values, es);
    FulfilmentsCount(es);
  }

  /** Over every run, every value stands at its argument's index. */
  lemma {:induction false} ValuesInOrder(values: seq<int>, es: seq<Event>)
    ensures Run(Start(values), es).values == Latest(values, es)
  {
    if es != [] {
      ValuesInOrder(values, es[..|es| - 1]);
    }
  }

  // ----- when the master keeps the promise -----

  ghost function Below(n: nat): (s: set<nat>)
    ensures |s| == n && forall i: nat :: i in s <==> i < n
  {
    if n == 0 then {} else Below(n - 1) + {n - 1}
  }

  lemma SubsetSize<T>(a: set<T>, b: set<T>)
    requires a <= b
    ensures |a| <= |b| && (|a| == |b| ==> a == b)
  {
    assert b == a + (b - a);
    assert |b| == |a| + |b - a|;
  }

  lemma AllFulfilledCount(es: seq<Event>, n: nat)
    requires Indexed(es, n)
    ensures |FulfilledSet(es)| <= n
    ensures |FulfilledSet(es)| == n <==> AllFulfilled(es, n)
  {
    var s, all := FulfilledSet(es), Below(n);
    forall i | i in s
      ensures i in all
    {
      FulfilledIff(es, i);
    }
    SubsetSize(s, all);
    if AllFulfilled(es, n) {
      assert s == all;
    }
  }

  ghost predicate NoFailure(es: seq<Event>) {
    forall k | 0 <= k < |es| :: !es[k].Fail?
  }

  /** The `n` fulfilments that resolve the master, no rejection among them, are not of `n` arguments. */
  ghost predicate TooEarly(es: seq<Event>, n: nat) {
    NoFailure(es) && Fulfilments(es) == n && !NoneTwice(es)
  }

  ghost predicate Keeps(values: seq<int>, es: seq<Event>) {
    Run(Start(values), es).master == Promise(values, es)
  }

  /** The master is pending exactly while there was neither a rejection nor the n-th fulfilment. */
  lemma {:induction false} PendingIff(values: seq<int>, es: seq<Event>)
    requires |values| >= 1
    ensures Run(Start(values), es).master.Pending? <==> NoFailure(es) && Fulfilments(es) < |values|
  {
    RemainingCounts(values, es);
    if es != [] {
      var m := |es| - 1;
      PendingIff(values, es[..m]);
      RemainingCounts(values, es[..m]);
      assert NoFailure(es) <==> NoFailure(es[..m]) && !es[m].Fail? by {
        assert forall k | 0 <= k < m :: es[..m][k] == es[k];
      }
    }
  }

  /** As long as the promise was kept, it is kept by the next event exactly if that does not resolve the
      master too early. */
  lemma KeepsNext(values: seq<int>, es: seq<Event>)
    requires |values| >= 1 && Indexed(es, |values|) && es != [] && Keeps(values, es[..|es| - 1])
    ensures Keeps(values, es) <==> !TooEarly(es, |values|)
  {
    var n, before := |es| - 1, es[..|es| - 1];
    PendingIff(values, before);
    PendingIff(values, es);
    RemainingCounts(values, before);
    FulfilmentsCount(es);
    AllFulfilledCount(es, |values|);
    ValuesInOrder(values, es);
    assert NoFailure(es) <==> NoFailure(before) && !es[n].Fail? by {
      assert forall k | 0 <= k < n :: es[k] == before[k];
    }
  }

  /** Over every run, the master has kept its promise at every moment exactly if no stretch of the run without
      rejection holds as many fulfilments as there are arguments, one of them repeated. */
  lemma {:induction false} PromiseKeptExactlyWhen(values: seq<int>, es: seq<Event>)
    requires |values| >= 1 && Indexed(es, |values|)
    ensures (forall m | 0 <= m <= |es| :: Keeps(values, es[..m])) <==>
            (forall m | 0 <= m <= |es| :: !TooEarly(es[..m], |values|))
  {
    if es != [] {
      var n := |es| - 1;
      var before := es[..n];
      PromiseKeptExactlyWhen(values, before);
      assert es[..|es|] == es;
      assert forall m | 0 <= m <= n :: before[..m] == es[..m];
      if forall m | 0 <= m <= n :: Keeps(values, es[..m]) {
        assert Keeps(values, es[..n]);
        KeepsNext(values, es);
      }
    } else {
      assert es[..0] == es;
    }
  }

  /** Every argument settles at most once. */
  ghost predicate OnceEach(es: seq<Event>, n: nat) {
    && (forall k | 0 <= k < |es| :: es[k].i < n)
    && (forall j, k | 0 <= j < k < |es| :: es[j].i != es[k].i)
  }

  function FirstReason(es: seq<Event>): Option<int> {
    if es == [] then None
    else
      var n := |es| - 1;
      var before := FirstReason(es[..n]);
      if before.Some? then before else if es[n].Fail? then Some(es[n].reason) else None
  }

  /** If arguments settle at most once, the master is rejected with the first rejection, resolved with all
      values exactly when all are fulfilled, and pending otherwise. */
  lemma {:induction false} Aggregates(values: seq<int>, es: seq<Event>)
    requires |values| >= 1 && OnceEach(es, |values|)
    ensures
      var w := Run(Start(values), es);
      && w.remaining == |values| - |FulfilledSet(es)|
      && w.master == (if FirstReason(es).Some? then Rejected(FirstReason(es).value)
                      else if AllFulfilled(es, |values|) then Resolved(Latest(values, es))
                      else Pending)
  {
    RemainingExactlyWhen(values, es);
    AllFulfilledCount(es, |values|);
    if es != [] {
      var before := es[..|es| - 1];
      Aggregates(values, before);
      AllFulfilledCount(before, |values|);
      RemainingExactlyWhen(values, before);
      ValuesInOrder(values, es);
      var i := es[|es| - 1].i;
      FulfilledIff(before, i);
      assert i !in FulfilledSet(before);
    }
  }

  /** The events of a run: the calls during adoption, then those of promises still pending then. */
  ghost predicate FromPromises(arguments: seq<Argument>, later: seq<Event>) {
    && (forall i | 0 <= i < |arguments| :: !arguments[i].Foreign?)
    && OnceEach(later, |arguments|)
    && (forall k | 0 <= k < |later| :: later[k].i < |arguments| && AtOnce(later[k].i, arguments[later[k].i]) == [])
  }

  lemma {:induction false} AdoptedOnce(arguments: seq<Argument>, k: nat)
    requires k <= |arguments| && forall i | 0 <= i < |arguments| :: !arguments[i].Foreign?
    ensures OnceEach(Adopted(arguments, k), |arguments|)
    ensures forall e | e in Adopted(arguments, k) :: k <= e.i < |arguments| && AtOnce(e.i, arguments[e.i]) != []
    decreases |arguments| - k
  {
    if k < |arguments| {
      AdoptedOnce(arguments, k + 1);
    }
  }

  /** Plain values and promises settle at most once, so for them everything above holds. */
  lemma PromisesSettleOnce(arguments: seq<Argument>, later: seq<Event>)
    requires FromPromises(arguments, later)
    ensures OnceEach(Adopted(arguments, 0) + later, |arguments|)
  {
    AdoptedOnce(arguments, 0);
  }

  // ----- what adoption alone comes to -----

  predicate RejectsAtOnce(a: Argument) {
    a.Promised? && a.settled.Some? && a.settled.value.Reason?
  }

  predicate FulfilsAtOnce(a: Argument) {
    a.Plain? || (a.Promised? && a.settled.Some? && a.settled.value.Value?)
  }

  function ReasonOf(a: Argument): int
    requires RejectsAtOnce(a)
  {
    a.settled.value.r
  }

  function ValueOf(a: Argument): int
    requires FulfilsAtOnce(a)
  {
    if a.Plain? then a.x else a.settled.value.v
  }

  lemma {:induction false} FirstReasonSplits(a: seq<Event>, b: seq<Event>)
    ensures FirstReason(a + b) == if FirstReason(a).Some? then FirstReason(a) else FirstReason(b)
    decreases |b|
  {
    if b == [] {
      assert a + b == a;
    } else {
      var n := |b| - 1;
      assert (a + b)[..|a| + n] == a + b[..n] && (a + b)[|a| + n] == b[n];
      FirstReasonSplits(a, b[..n]);
    }
  }

  lemma OneEvent(i: nat, a: Argument)
    requires !a.Foreign?
    ensures FirstReason(AtOnce(i, a)) == if RejectsAtOnce(a) then Some(ReasonOf(a)) else None
    ensures FulfilsAtOnce(a) ==> AtOnce(i, a) == [Fulfil(i, ValueOf(a))]
    ensures RejectsAtOnce(a) ==> AtOnce(i, a) == [Fail(i, ReasonOf(a))]
    ensures FulfilsAtOnce(a) || RejectsAtOnce(a) || AtOnce(i, a) == []
  {
    var es := AtOnce(i, a);
    assert es != [] ==> es[..|es| - 1] == [];
  }

  /** The rejection that adoption comes to: that of the last rejecting argument, being adopted first. */
  lemma {:induction false} AdoptedReason(arguments: seq<Argument>, k: nat)
    requires k <= |arguments| && forall i | 0 <= i < |arguments| :: !arguments[i].Foreign?
    ensures FirstReason(Adopted(arguments, k)).None? ==> forall i | k <= i < |arguments| :: !RejectsAtOnce(arguments[i])
    ensures forall i | k <= i < |arguments| && RejectsAtOnce(arguments[i]) &&
                       (forall j | i < j < |arguments| :: !RejectsAtOnce(arguments[j])) ::
              FirstReason(Adopted(arguments, k)) == Some(ReasonOf(arguments[i]))
    decreases |arguments| - k
  {
    if k < |arguments| {
      AdoptedReason(arguments, k + 1);
      FirstReasonSplits(Adopted(arguments, k + 1), AtOnce(k, arguments[k]));
      OneEvent(k, arguments[k]);
      if FirstReason(Adopted(arguments, k + 1)).Some? {
        NoReasonWithoutReject(arguments, k + 1);
      }
    }
  }

  lemma {:induction false} NoReasonWithoutReject(arguments: seq<Argument>, k: nat)
    requires k <= |arguments| && forall i | 0 <= i < |arguments| :: !arguments[i].Foreign?
    requires FirstReason(Adopted(arguments, k)).Some?
    ensures exists i | k <= i < |arguments| :: RejectsAtOnce(arguments[i])
    decreases |arguments| - k
  {
    if k < |arguments| {
      FirstReasonSplits(Adopted(arguments, k + 1), AtOnce(k, arguments[k]));
      OneEvent(k, arguments[k]);
      if FirstReason(Adopted(arguments, k + 1)).Some? {
        NoReasonWithoutReject(arguments, k + 1);
      }
    }
  }

  /** Argument `i` is fulfilled during adoption exactly if it is a plain value or a promise already fulfilled. */
  lemma {:induction false} AdoptedFulfils(arguments: seq<Argument>, k: nat, i: nat)
    requires k <= |arguments| && (forall j | 0 <= j < |arguments| :: !arguments[j].Foreign?) && i < |arguments|
    ensures i in FulfilledSet(Adopted(arguments, k)) <==> k <= i && FulfilsAtOnce(arguments[i])
    ensures k <= i && FulfilsAtOnce(arguments[i]) ==>
              LatestOf(Adopted(arguments, k), i, arguments[i].x) == ValueOf(arguments[i])
    decreases |arguments| - k
  {
    if k < |arguments| {
      AdoptedFulfils(arguments, k + 1, i);
      var es, before := Adopted(arguments, k), Adopted(arguments, k + 1);
      OneEvent(k, arguments[k]);
      if AtOnce(k, arguments[k]) == [] {
        assert es == before;
      } else {
        assert es[..|es| - 1] == before && es[|es| - 1] == AtOnce(k, arguments[k])[0];
      }
    }
  }

  /** Of arguments that are plain values and promises: if some promise is already rejected, the master is rejected
      at once with the reason of the last such argument; else if all have their values, it is resolved at once with
      these values in order; else it is pending. */
  lemma AdoptionComesTo(arguments: seq<Argument>)
    requires |arguments| >= 1 && forall i | 0 <= i < |arguments| :: !arguments[i].Foreign?
    ensures
      var master := Run(Start(Given(arguments)), Adopted(arguments, 0)).master;
      && (forall i | 0 <= i < |arguments| && RejectsAtOnce(arguments[i]) &&
                     (forall j | i < j < |arguments| :: !RejectsAtOnce(arguments[j])) ::
            master == Rejected(ReasonOf(arguments[i])))
      && ((forall i | 0 <= i < |arguments| :: FulfilsAtOnce(arguments[i])) ==>
            && master.Resolved? && |master.values| == |arguments|
            && forall i | 0 <= i < |arguments| :: master.values[i] == ValueOf(arguments[i]))
      && ((forall i | 0 <= i < |arguments| :: !RejectsAtOnce(arguments[i])) ==>
            master.Pending? || forall i | 0 <= i < |arguments| :: FulfilsAtOnce(arguments[i]))
  {
    var es := Adopted(arguments, 0);
    AdoptedOnce(arguments, 0);
    AdoptedReason(arguments, 0);
    Aggregates(Given(arguments), es);
    forall i: nat | i < |arguments|
      ensures i in FulfilledSet(es) <==> FulfilsAtOnce(arguments[i])
      ensures FulfilsAtOnce(arguments[i]) ==> LatestOf(es, i, arguments[i].x) == ValueOf(arguments[i])
    {
      AdoptedFulfils(arguments, 0, i);
    }
    if FirstReason(es).Some? {
      NoReasonWithoutReject(arguments, 0);
    }
  }

  /** A foreign thenable that rejects first, or throws without calling anything, rejects a pending master. */
  lemma ForeignRejects(w: W, i: nat, x: int, calls: seq<Settlement>, thrown: Option<int>)
    requires w.master.Pending?
    ensures
      var t := Run(w, AtOnce(i, Foreign(x, calls, thrown)));
      && (calls != [] && calls[0].Reason? ==> t.master == Rejected(calls[0].r))
      && (calls == [] && thrown.Some? ==> t.master == Rejected(thrown.value))
      && (calls == [] && thrown.None? ==> t == w)
  {
    var end := if thrown.None? then [] else [Fail(i, thrown.value)];
    if calls == [] {
      assert CausedAll(i, calls) + end == end;
      if thrown.Some? { RunOne(w, end[0]); }
    } else if calls[0].Reason? {
      CausedFirst(i, calls);
      var rest := CausedAll(i, calls[1..]) + end;
      assert CausedAll(i, calls) + end == [Fail(i, calls[0].r)] + rest;
      RunSplits(w, [Fail(i, calls[0].r)], rest);
      RunOne(w, Fail(i, calls[0].r));
      SettledMaster(Step(w, Fail(i, calls[0].r)), rest);
    }
  }

  lemma {:induction false} CausedFirst(i: nat, ss: seq<Settlement>)
    requires ss != []
    ensures CausedAll(i, ss) == [Caused(i, ss[0])] + CausedAll(i, ss[1..])
    decreases |ss|
  {
    var n := |ss| - 1;
    if n == 0 {
      assert ss[..0] == [] && ss[1..] == [];
    } else {
      CausedFirst(i, ss[..n]);
      assert ss[..n][1..] == ss[1..][..n - 1];
    }
  }

  lemma {:induction false} SettledMaster(w: W, es: seq<Event>)
    requires !w.master.Pending?
    ensures Run(w, es).master == w.master
  {
    if es != [] {
      SettledMaster(w, es[..|es| - 1]);
    }
  }

  lemma TwoFulfilments(values: seq<int>, a: int, b: int)
    requires |values| == 2
    ensures Run(Start(values), [Fulfil(0, a), Fulfil(0, b)]).master == Resolved([b, values[1]])
  {
    var es := [Fulfil(0, a), Fulfil(0, b)];
    assert es[..1] == [Fulfil(0, a)];
    RunOne(Start(values), Fulfil(0, a));
  }

  /** A foreign thenable that fulfils twice resolves the master before the other argument is fulfilled. */
  lemma FulfillingTwiceResolvesEarly(x: int, y: int, a: int, b: int)
    ensures
      var arguments := [Foreign(x, [Value(a), Value(b)], None), Promised(y, None)];
      Run(Start(Given(arguments)), Adopted(arguments, 0)).master == Resolved([b, y])
  {
    var calls := [Value(a), Value(b)];
    var arguments := [Foreign(x, calls, None), Promised(y, None)];
    assert Adopted(arguments, 2) == [] && Adopted(arguments, 1) == [];
    assert calls[..1] == [Value(a)] && calls[..1][..0] == [];
    assert CausedAll(0, calls[..1]) == [Fulfil(0, a)];
    assert Adopted(arguments, 0) == [Fulfil(0, a), Fulfil(0, b)];
    TwoFulfilments(Given(arguments), a, b);
  }
}
