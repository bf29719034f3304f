/**
 The deferred behind `then`: the resolution procedure calls its resolveWith and rejectWith, any number of times,
 while others register callbacks and callbacks return. Over every such run it settles as the reference of the
 procedure says, and its callbacks run accordingly.
 */
module DerivedDeferred {
  import opened Prelude
  import opened Deferred
  import PR = PromiseResolution

  /** What the deferred is called with; `code` represents reasons as arguments. */
  function Told(o: PR.Outcome, code: PR.Reason -> int): Label {
    match o
    case Fulfilled(x) => Resolve(x)
    case Failed(reason) => Reject(code(reason))
  }

  function ToldAll(calls: seq<PR.Outcome>, code: PR.Reason -> int): seq<Label> {
    seq(|calls|, i requires 0 <= i < |calls| => Told(calls[i], code))
  }

  /** The calls of resolve and reject in a run. */
  function Settles(labels: seq<Label>): seq<Label> {
    if labels == [] then []
    else (if labels[0].Resolve? || labels[0].Reject? then [labels[0]] else []) + Settles(labels[1..])
  }

  lemma {:induction false} FirstOfSettles(first: Option<Label>, labels: seq<Label>)
    ensures DecideAll(first, labels) ==
            if first.Some? then first else if Settles(labels) == [] then None else Some(Settles(labels)[0])
    decreases |labels|
  {
    if labels != [] {
      FirstOfSettles(Decide(first, labels[0]), labels[1..]);
    }
  }

  /** The callbacks and then handlers of the done side have run exactly once each, those registered before,
      during and after settlement, and nothing of the fail side has. */
  ghost predicate DoneSideRan(d: D, c: Regs, v: int) {
    && d.state.Resolved?
    && RunOnce(d.done, SYSTEM + c.done, v) && RunOnce(d.doneH, c.doneH, v)
    && d.fail.trace.calls == d.failH.trace.calls == []
  }

  ghost predicate FailSideRan(d: D, c: Regs, v: int) {
    && d.state.Rejected?
    && RunOnce(d.fail, SYSTEM + c.fail, v) && RunOnce(d.failH, c.failH, v)
    && d.done.trace.calls == d.doneH.trace.calls == []
  }

  ghost predicate NothingRan(d: D) {
    && d.state.Pending?
    && d.done.trace.calls == d.doneH.trace.calls == d.fail.trace.calls == d.failH.trace.calls == []
  }

  /** The deferred is as the verdict says. */
  ghost predicate Follows(w: PR.Verdict, labels: seq<Label>, code: PR.Reason -> int) {
    var d, c := Run(Fresh(), labels), RegisteredAll(NOTHING, labels);
    match w
    case Waits(_) => NothingRan(d)
    case Settled(Fulfilled(x)) => DoneSideRan(d, c, x)
    case Settled(Failed(reason)) => FailSideRan(d, c, code(reason))
  }

  /** For every handler result, all later calls, and every run of the derived deferred in which the procedure makes
      the calls it has recorded: the deferred is as the reference says. While the reference waits nothing has run;
      once it has settled, every callback of that side runs exactly once with the reference's outcome. */
  lemma DerivedFollows(h: PR.Handled, later: seq<PR.Act>, maxDepth: nat, calls: seq<PR.Outcome>,
                       labels: seq<Label>, code: PR.Reason -> int)
    requires PR.Standing(maxDepth, calls) == PR.HearAll(PR.Begin(h), later)
    requires Settles(labels) == ToldAll(calls, code)
    ensures Follows(PR.HearAll(PR.Begin(h), later), labels, code)
  {
    FirstOfSettles(None, labels);
    FirstSettleDecides(labels);
    CallbacksRunOnce(labels);
    if calls == [] {
      assert FirstSettle(labels) == None;
    } else {
      assert FirstSettle(labels) == Some(Told(calls[0], code));
    }
  }

  /** The deferred is as the end of the chain of heard calls says. */
  ghost predicate FollowsLast(last: PR.Last, labels: seq<Label>, code: PR.Reason -> int) {
    var d, c := Run(Fresh(), labels), RegisteredAll(NOTHING, labels);
    match last
    case Said(ResolveWith(Plain(x))) => DoneSideRan(d, c, x)
    case Said(ResolveWith(Itself)) => FailSideRan(d, c, code(PR.SelfResolution))
    case Said(ResolveWith(Trap(x))) => FailSideRan(d, c, code(PR.Thrown(x)))
    case Said(ResolveWith(Thenable(_, _))) => false
    case Said(RejectWith(x)) => FailSideRan(d, c, code(PR.Thrown(x)))
    case Exception(x) => FailSideRan(d, c, code(PR.Thrown(x)))
    case Nobody(_) => NothingRan(d)
  }

  lemma FollowsFits(w: PR.Verdict, last: PR.Last, labels: seq<Label>, code: PR.Reason -> int)
    requires PR.Fits(w, last) && Follows(w, labels, code)
    ensures FollowsLast(last, labels, code)
  {
  }

  /** The procedure run to its end, and the derived deferred with it: whatever else happens to the deferred in
      between, its callbacks run with what the chain of heard calls ends in. */
  method Derive(h: PR.Handled, later: seq<PR.Act>) returns (calls: seq<PR.Outcome>)
    ensures forall labels, code :: Settles(labels) == ToldAll(calls, code) ==>
              && Follows(PR.HearAll(PR.Begin(h), later), labels, code)
              && FollowsLast(PR.LastHeard(PR.First(h), 0, PR.Items(later)), labels, code)
  {
    var resolver := new PR.Resolver();
    resolver.Resolve(h, later);
    calls := resolver.calls;
    PR.ResolutionFits(h, later);
    forall labels, code | Settles(labels) == ToldAll(calls, code)
      ensures Follows(PR.HearAll(PR.Begin(h), later), labels, code)
      ensures FollowsLast(PR.LastHeard(PR.First(h), 0, PR.Items(later)), labels, code)
    {
      DerivedFollows(h, later, resolver.maxDepth, calls, labels, code);
      FollowsFits(PR.HearAll(PR.Begin(h), later), PR.LastHeard(PR.First(h), 0, PR.Items(later)), labels, code);
    }
  }
}
