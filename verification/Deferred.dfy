/**
 Deferred objects: two pairs of "once memory" callback lists, one pair for each way to settle, whose
 first entries set the state and disable the other pair.

 A run is any sequence of calls on the deferred, made from outside or from inside callbacks, and of
 returns of running callbacks. Returns of different lists may come in any order, which includes the
 nesting a call stack allows.
 */
module Deferred {
  import opened Prelude
  import opened CallbackList

  datatype Settled = Pending | Resolved | Rejected

  /** The callbacks and the `then` handlers of each side. */
  datatype D = D(done: State, doneH: State, fail: State, failH: State, state: Settled)

  const ONCE_MEMORY := Options(true, true, false, false)

  /** The entries every side starts with: set the state, disable the other side's callbacks and
      handlers, lock the progress callbacks and handlers, fire this side's handlers. */
  const SYSTEM := [System(0), System(1), System(2), System(3), System(4), System(5)]

  function Fresh(): D {
    var list := DoAdd(Init(ONCE_MEMORY), SYSTEM);
    D(list, Init(ONCE_MEMORY), list, Init(ONCE_MEMORY), Pending)
  }

  /** The same deferred with its two sides exchanged. */
  function Flip(d: D): D {
    D(d.fail, d.failH, d.done, d.doneH,
      match d.state case Pending => Pending case Resolved => Rejected case Rejected => Resolved)
  }

  predicate InSystem(s: State) {
    s.firing && 0 <= s.firingIndex < |s.list| && s.list[s.firingIndex].fn.System? && s.memory.Some?
  }

  function Effect(d: D, k: nat): D
    requires d.done.memory.Some?
  {
    if k == 0 then d.(state := Resolved)
    else if k == 1 then d.(fail := DoDisable(d.fail))
    else if k == 2 then d.(failH := DoDisable(d.failH))
    else if k == 5 then d.(doneH := DoFireWith(d.doneH, d.done.memory.value))
    else d
  }

  /** Runs the system entries the list of this side has come to. The last one fires the handlers;
      it returns when they have returned. */
  function Drive(d: D, left: nat): D
    decreases left
  {
    if left == 0 || !InSystem(d.done) then d
    else
      var k := d.done.list[d.done.firingIndex].fn.k;
      var e := Effect(d, k);
      if k == 5 then e else Drive(e.(done := DoReturn(e.done, false)), left - 1)
  }

  datatype Label =
    | Resolve(args: Args)
    | Reject(args: Args)
    | AddDone(us: seq<nat>)
    | AddFail(us: seq<nat>)
    | Then(u: nat, v: nat)
    | ReturnDone
    | ReturnFail
    | ReturnDoneH
    | ReturnFailH

  function Users(us: seq<nat>): seq<Fn> {
    seq(|us|, i requires 0 <= i < |us| => User(us[i]))
  }

  function DoResolve(d: D, args: Args): D {
    var e := d.(done := DoFireWith(d.done, args));
    if d.done.firing then e else Drive(e, |SYSTEM|)
  }

  function DoAddDone(d: D, us: seq<nat>): D {
    var e := d.(done := DoAdd(d.done, Users(us)));
    if d.done.firing then e else Drive(e, |SYSTEM|)
  }

  function DoReturnDone(d: D): D {
    Drive(d.(done := DoReturn(d.done, false)), |SYSTEM|)
  }

  function Step(d: D, l: Label): D {
    match l
    case Resolve(args) => DoResolve(d, args)
    case Reject(args) => Flip(DoResolve(Flip(d), args))
    case AddDone(us) => DoAddDone(d, us)
    case AddFail(us) => Flip(DoAddDone(Flip(d), us))
    case Then(u, v) => d.(doneH := DoAdd(d.doneH, [User(u)]), failH := DoAdd(d.failH, [User(v)]))
    case ReturnDone => DoReturnDone(d)
    case ReturnFail => Flip(DoReturnDone(Flip(d)))
    case ReturnDoneH => d.(doneH := DoReturn(d.doneH, false))
    case ReturnFailH => d.(failH := DoReturn(d.failH, false))
  }

  function Run(d: D, labels: seq<Label>): D
    decreases |labels|
  {
    if labels == [] then d else Run(Step(d, labels[0]), labels[1..])
  }

  // ----- the three phases of a "once memory" list with the registrations `reg` -----

  /** The i-th entry is one of the last registrations. */
  ghost predicate Stands(list: seq<Entry>, i: int, reg: seq<Fn>) {
    var id := |reg| - |list| + i;
    0 <= i < |list| && 0 <= id < |reg| && list[i] == Entry(id, reg[id])
  }

  /** Not fired: nothing called, every registration still listed. */
  ghost predicate Waiting(s: State, reg: seq<Fn>) {
    && s.options == ONCE_MEMORY && s.live && !s.locked && !s.firing && s.memory.None? && s.queue == []
    && s.firingIndex == -1 && s.trace == Trace([], 0, [], 0, map[], 0)
    && |s.list| == s.nextId == |reg| && (forall i | 0 <= i < |s.list| :: Stands(s.list, i, reg))
  }

  /** Disabled before it could fire. */
  ghost predicate Dead(s: State) {
    && !s.live && s.locked && !s.firing && s.list == [] && s.memory.None? && s.queue == []
    && s.trace.calls == []
  }

  /** The calls are of the first registrations, in order, with `v`. */
  ghost predicate InOrder(calls: seq<Call>, reg: seq<Fn>, v: Args) {
    && |calls| <= |reg|
    && forall j | 0 <= j < |calls| :: calls[j].id == j && calls[j].fn == reg[j] && calls[j].args == v
  }

  /** Fired with `v`, possibly still firing: the first registrations have been called, the others stand in the
      list behind the firing index. */
  ghost predicate Fired(s: State, v: Args, reg: seq<Fn>) {
    && s.options == ONCE_MEMORY && s.live && s.locked && s.memory == Some(v) && s.queue == []
    && s.nextId == |reg| && InOrder(s.trace.calls, reg, v)
    && (s.firing ==> 0 <= s.firingIndex < |s.list| && |s.trace.calls| + |s.list| - 1 - s.firingIndex == |reg|)
    && (s.firing ==> forall i | s.firingIndex <= i < |s.list| :: Stands(s.list, i, reg))
    && (!s.firing ==> s.list == [] && |s.trace.calls| == |reg| && s.firingIndex == -1)
  }

  lemma {:induction false} PushIds(s: State, fns: seq<Fn>)
    requires !s.options.unique
    ensures
      var t := Push(s, fns);
      && t == s.(list := t.list, nextId := t.nextId)
      && t.nextId == s.nextId + |fns| && |t.list| == |s.list| + |fns|
      && (forall i | 0 <= i < |s.list| :: t.list[i] == s.list[i])
      && (forall i | |s.list| <= i < |t.list| :: t.list[i] == Entry(s.nextId + i - |s.list|, fns[i - |s.list|]))
    decreases |fns|
  {
    if fns != [] {
      var u := s.(list := s.list + [Entry(s.nextId, fns[0])], nextId := s.nextId + 1);
      PushIds(u, fns[1..]);
      assert u.list[|s.list|] == Entry(s.nextId, fns[0]);
    }
  }

  lemma AddWaiting(s: State, fns: seq<Fn>, reg: seq<Fn>)
    requires Waiting(s, reg)
    ensures Waiting(DoAdd(s, fns), reg + fns)
  {
    PushIds(s, fns);
    var t := Push(s, fns);
    forall i | 0 <= i < |t.list|
      ensures Stands(t.list, i, reg + fns)
    {
      if i < |s.list| {
        assert Stands(s.list, i, reg);
      }
    }
  }

  /** What holds when a firing list is about to look at the next index. */
  ghost predicate Goes(s: State, v: Args, reg: seq<Fn>) {
    && s.options == ONCE_MEMORY && s.live && s.locked && s.memory == Some(v) && s.queue == [] && s.firing
    && s.nextId == |reg| && InOrder(s.trace.calls, reg, v)
    && -1 <= s.firingIndex < |s.list| && |s.trace.calls| + |s.list| - 1 - s.firingIndex == |reg|
    && (forall i | s.firingIndex < i < |s.list| :: Stands(s.list, i, reg))
  }

  /** The next call of a firing list: the first registration not yet called. */
  lemma CallFired(s: State, v: Args, reg: seq<Fn>)
    requires Goes(s, v, reg)
    ensures Fired(Advance(s), v, reg)
    ensures s.firingIndex + 1 < |s.list| ==>
              Advance(s).firing && Advance(s).list == s.list && Advance(s).firingIndex == s.firingIndex + 1
  {
    if s.firingIndex + 1 < |s.list| {
      assert Stands(s.list, s.firingIndex + 1, reg);
    }
  }

  lemma FireWaiting(s: State, v: Args, reg: seq<Fn>)
    requires Waiting(s, reg)
    ensures Fired(DoFireWith(s, v), v, reg)
    ensures s.list != [] ==>
              DoFireWith(s, v).firing && DoFireWith(s, v).list == s.list && DoFireWith(s, v).firingIndex == 0
  {
    CallFired(NextRound(Fire(s.(queue := [v], trace := s.trace.Enqueue(v)))), v, reg);
  }

  lemma ReturnFired(s: State, v: Args, reg: seq<Fn>)
    requires Fired(s, v, reg)
    ensures Fired(DoReturn(s, false), v, reg)
    ensures
      var t := DoReturn(s, false);
      s.firing && s.firingIndex + 1 < |s.list| ==> t.firing && t.list == s.list && t.firingIndex == s.firingIndex + 1
  {
    if s.firing {
      CallFired(s, v, reg);
    }
  }

  lemma AddFired(s: State, fns: seq<Fn>, v: Args, reg: seq<Fn>)
    requires Fired(s, v, reg)
    ensures Fired(DoAdd(s, fns), v, reg + fns)
    ensures s.firing ==> DoAdd(s, fns).firing && DoAdd(s, fns).firingIndex == s.firingIndex
    ensures !s.firing ==> (DoAdd(s, fns).firing <==> fns != [])
  {
    PushIds(s, fns);
    var t := Push(s, fns);
    forall i | (if s.firing then s.firingIndex else 0) <= i < |t.list|
      ensures Stands(t.list, i, reg + fns)
    {
      if i < |s.list| {
        assert Stands(s.list, i, reg);
      }
    }
    if !s.firing {
      assert (s.queue + [v])[1..] == [];
      CallFired(CatchUp(s, t), v, reg + fns);
    }
  }

  // ----- the deferred -----

  /** What has been registered by done, by fail, and by then on either side. */
  datatype Regs = Regs(done: seq<Fn>, fail: seq<Fn>, doneH: seq<Fn>, failH: seq<Fn>)

  /** `then` registers its first function for fulfilment, its second for rejection. */
  function Registered(c: Regs, l: Label): Regs {
    match l
    case AddDone(us) => c.(done := c.done + Users(us))
    case AddFail(us) => c.(fail := c.fail + Users(us))
    case Then(u, v) => c.(doneH := c.doneH + [User(u)], failH := c.failH + [User(v)])
    case _ => c
  }

  function FlipRegs(c: Regs): Regs {
    Regs(c.fail, c.done, c.failH, c.doneH)
  }

  ghost predicate AllUsers(fns: seq<Fn>) {
    forall i | 0 <= i < |fns| :: fns[i].User?
  }

  ghost predicate Undecided(d: D, c: Regs) {
    && d.state.Pending? && AllUsers(c.done) && AllUsers(c.fail)
    && Waiting(d.done, SYSTEM + c.done) && Waiting(d.fail, SYSTEM + c.fail)
    && Waiting(d.doneH, c.doneH) && Waiting(d.failH, c.failH)
  }

  /** The done side has fired with `v` and the fail side is disabled. */
  ghost predicate Won(d: D, v: Args, c: Regs) {
    && d.state.Resolved? && AllUsers(c.done)
    && Fired(d.done, v, SYSTEM + c.done) && |d.done.trace.calls| > |SYSTEM| - 1
    && Fired(d.doneH, v, c.doneH)
    && Dead(d.fail) && Dead(d.failH)
  }

  ghost predicate Agrees(d: D, first: Option<Label>, c: Regs) {
    match first
    case None => Undecided(d, c)
    case Some(Resolve(v)) => Won(d, v, c)
    case Some(Reject(v)) => Won(Flip(d), v, FlipRegs(c))
    case _ => false
  }

  function Decide(first: Option<Label>, l: Label): Option<Label> {
    if first.None? && (l.Resolve? || l.Reject?) then Some(l) else first
  }

  /** The list of this side, fired with `v`, has come to its k-th system entry. */
  ghost predicate AtEntry(s: State, k: nat, v: Args, reg: seq<Fn>) {
    && k < |SYSTEM| <= |reg| && Fired(s, v, reg) && s.firing && s.firingIndex == k && |s.list| == |reg|
    && s.list[k].fn == System(k) && (forall i | 0 <= i < |SYSTEM| :: reg[i] == SYSTEM[i])
  }

  /** The system entries before the k-th have had their effect on the rest of the deferred. */
  ghost predicate Driven(d: D, k: nat, c: Regs, failRegs: seq<Fn>) {
    && Waiting(d.doneH, c.doneH)
    && (if k <= 0 then d.state.Pending? else d.state.Resolved?)
    && (if k <= 1 then Waiting(d.fail, failRegs) else Dead(d.fail))
    && (if k <= 2 then Waiting(d.failH, c.failH) else Dead(d.failH))
  }

  lemma EntryReturns(s: State, k: nat, v: Args, reg: seq<Fn>)
    requires AtEntry(s, k, v, reg) && k + 1 < |SYSTEM|
    ensures AtEntry(DoReturn(s, false), k + 1, v, reg)
  {
    ReturnFired(s, v, reg);
    var t := DoReturn(s, false);
    assert Stands(t.list, k + 1, reg);
  }

  lemma EffectDrives(d: D, k: nat, c: Regs, failRegs: seq<Fn>)
    requires Driven(d, k, c, failRegs) && k < 5 && d.done.memory.Some?
    ensures Driven(Effect(d, k), k + 1, c, failRegs) && Effect(d, k).done == d.done
  {
  }

  /** The system entries, from the k-th on, hand the victory to this side. */
  lemma {:induction false} DriveWins(d: D, k: nat, v: Args, c: Regs, failRegs: seq<Fn>)
    requires AtEntry(d.done, k, v, SYSTEM + c.done) && Driven(d, k, c, failRegs) && AllUsers(c.done)
    ensures Won(Drive(d, |SYSTEM| - k), v, c)
    decreases |SYSTEM| - k
  {
    if k == 5 {
      FireWaiting(d.doneH, v, c.doneH);
    } else {
      var e := Effect(d, k);
      EffectDrives(d, k, c, failRegs);
      EntryReturns(d.done, k, v, SYSTEM + c.done);
      DriveWins(e.(done := DoReturn(e.done, false)), k + 1, v, c, failRegs);
    }
  }

  lemma ResolveWins(d: D, v: Args, c: Regs)
    requires Undecided(d, c)
    ensures Won(DoResolve(d, v), v, c)
  {
    var reg := SYSTEM + c.done;
    FireWaiting(d.done, v, reg);
    var t := DoFireWith(d.done, v);
    assert Stands(t.list, 0, reg);
    assert forall i | 0 <= i < |SYSTEM| :: reg[i] == SYSTEM[i];
    DriveWins(d.(done := t), 0, v, c, SYSTEM + c.fail);
  }

  lemma AllUsersMore(fns: seq<Fn>, us: seq<nat>)
    requires AllUsers(fns)
    ensures AllUsers(fns + Users(us)) && SYSTEM + (fns + Users(us)) == (SYSTEM + fns) + Users(us)
  {
  }

  /** Past the system entries, the list of this side is never at one. */
  lemma NotInSystem(s: State, v: Args, fns: seq<Fn>)
    requires Fired(s, v, SYSTEM + fns) && AllUsers(fns) && |s.trace.calls| > |SYSTEM|
    ensures !InSystem(s)
  {
    if s.firing {
      assert Stands(s.list, s.firingIndex, SYSTEM + fns);
    }
  }

  lemma AddDoneKeeps(d: D, us: seq<nat>, v: Args, c: Regs)
    requires Won(d, v, c)
    ensures Won(DoAddDone(d, us), v, c.(done := c.done + Users(us)))
  {
    AllUsersMore(c.done, us);
    AddFired(d.done, Users(us), v, SYSTEM + c.done);
    AddCalls(d.done, Users(us), v, SYSTEM + c.done);
    if !d.done.firing && us != [] {
      NotInSystem(DoAdd(d.done, Users(us)), v, c.done + Users(us));
    }
  }

  lemma AddCalls(s: State, fns: seq<Fn>, v: Args, reg: seq<Fn>)
    requires Fired(s, v, reg)
    ensures |DoAdd(s, fns).trace.calls| == |s.trace.calls| + if !s.firing && fns != [] then 1 else 0
  {
    PushIds(s, fns);
    if !s.firing {
      assert (s.queue + [v])[1..] == [];
    }
  }

  lemma ReturnDoneKeeps(d: D, v: Args, c: Regs)
    requires Won(d, v, c)
    ensures Won(DoReturnDone(d), v, c)
  {
    ReturnFired(d.done, v, SYSTEM + c.done);
    var t := DoReturn(d.done, false);
    if t.firing {
      NotInSystem(t, v, c.done);
    }
  }

  lemma StepAgrees(d: D, l: Label, first: Option<Label>, c: Regs)
    requires Agrees(d, first, c)
    ensures Agrees(Step(d, l), Decide(first, l), Registered(c, l))
  {
    match first
    case None => StepUndecided(d, l, c);
    case Some(Resolve(v)) => StepWon(d, l, v, c);
    case Some(Reject(v)) => StepLost(d, l, v, c);
  }

  lemma StepUndecided(d: D, l: Label, c: Regs)
    requires Undecided(d, c)
    ensures Agrees(Step(d, l), Decide(None, l), Registered(c, l))
  {
    match l
    case Resolve(v) => ResolveWins(d, v, c);
    case Reject(v) => ResolveWins(Flip(d), v, FlipRegs(c));
    case AddDone(us) => AddWaiting(d.done, Users(us), SYSTEM + c.done); AllUsersMore(c.done, us);
    case AddFail(us) => AddWaiting(d.fail, Users(us), SYSTEM + c.fail); AllUsersMore(c.fail, us);
    case Then(u, v) =>
      AddWaiting(d.doneH, [User(u)], c.doneH);
      AddWaiting(d.failH, [User(v)], c.failH);
    case _ =>
  }

  lemma StepWon(d: D, l: Label, v: Args, c: Regs)
    requires Won(d, v, c)
    ensures Won(Step(d, l), v, Registered(c, l))
  {
    match l
    case AddDone(us) => AddDoneKeeps(d, us, v, c);
    case ReturnDone => ReturnDoneKeeps(d, v, c);
    case Then(u, w) => AddFired(d.doneH, [User(u)], v, c.doneH);
    case ReturnDoneH => ReturnFired(d.doneH, v, c.doneH);
    case _ =>
  }

  lemma StepLost(d: D, l: Label, v: Args, c: Regs)
    requires Won(Flip(d), v, FlipRegs(c))
    ensures Won(Flip(Step(d, l)), v, FlipRegs(Registered(c, l)))
  {
    match l
    case AddFail(us) => AddDoneKeeps(Flip(d), us, v, FlipRegs(c));
    case ReturnFail => ReturnDoneKeeps(Flip(d), v, FlipRegs(c));
    case Then(u, w) => AddFired(d.failH, [User(w)], v, c.failH);
    case ReturnFailH => ReturnFired(d.failH, v, c.failH);
    case _ =>
  }

  // ----- over whole runs -----

  function DecideAll(first: Option<Label>, labels: seq<Label>): Option<Label>
    decreases |labels|
  {
    if labels == [] then first else DecideAll(Decide(first, labels[0]), labels[1..])
  }

  /** The first call of resolve or reject in the run, if there is one. */
  function FirstSettle(labels: seq<Label>): Option<Label> {
    DecideAll(None, labels)
  }

  function RegisteredAll(c: Regs, labels: seq<Label>): Regs
    decreases |labels|
  {
    if labels == [] then c else RegisteredAll(Registered(c, labels[0]), labels[1..])
  }

  const NOTHING := Regs([], [], [], [])

  lemma {:induction false} RunAgrees(d: D, labels: seq<Label>, first: Option<Label>, c: Regs)
    requires Agrees(d, first, c)
    ensures Agrees(Run(d, labels), DecideAll(first, labels), RegisteredAll(c, labels))
    decreases |labels|
  {
    if labels != [] {
      StepAgrees(d, labels[0], first, c);
      RunAgrees(Step(d, labels[0]), labels[1..], Decide(first, labels[0]), Registered(c, labels[0]));
    }
  }

  lemma FreshUndecided()
    ensures Undecided(Fresh(), NOTHING)
  {
    AddWaiting(Init(ONCE_MEMORY), SYSTEM, []);
    assert [] + SYSTEM == SYSTEM == SYSTEM + [];
  }

  /** The state is decided by the first call of resolve or reject, and by nothing else. */
  lemma FirstSettleDecides(labels: seq<Label>)
    ensures
      var first := FirstSettle(labels);
      Run(Fresh(), labels).state ==
      if first.None? then Pending else if first.value.Resolve? then Resolved else Rejected
  {
    FreshUndecided();
    RunAgrees(Fresh(), labels, None, NOTHING);
  }

  lemma {:induction false} DecideSticks(first: Option<Label>, labels: seq<Label>, more: seq<Label>)
    ensures DecideAll(first, labels + more) == DecideAll(DecideAll(first, labels), more)
    ensures first.Some? ==> DecideAll(first, labels) == first
    decreases |labels|
  {
    if labels == [] {
      assert labels + more == more;
    } else {
      assert (labels + more)[1..] == labels[1..] + more;
      DecideSticks(Decide(first, labels[0]), labels[1..], more);
    }
  }

  /** A deferred that has left pending never changes again. */
  lemma NeverChangesAgain(labels: seq<Label>, more: seq<Label>)
    requires !Run(Fresh(), labels).state.Pending?
    ensures Run(Fresh(), labels + more).state == Run(Fresh(), labels).state
  {
    FirstSettleDecides(labels);
    FirstSettleDecides(labels + more);
    DecideSticks(None, labels, more);
    DecideSticks(FirstSettle(labels), more, []);
  }

  /** The j-th call is of the j-th registered function, with `v`, so that none is called twice; and when nothing
      is running, all have been called. */
  ghost predicate RunOnce(s: State, reg: seq<Fn>, v: Args) {
    var calls := s.trace.calls;
    && s.nextId == |reg| && |calls| <= |reg|
    && (forall j | 0 <= j < |calls| :: calls[j].id == j && calls[j].fn == reg[j] && calls[j].args == v)
    && (!s.firing ==> |calls| == |reg|)
  }

  /** After a resolve, the functions registered with done and then before, during or after it run exactly once, in
      order, with the arguments of the first resolve, and nothing registered for rejection runs; and
      symmetrically. */
  lemma CallbacksRunOnce(labels: seq<Label>)
    ensures
      var d, first, c := Run(Fresh(), labels), FirstSettle(labels), RegisteredAll(NOTHING, labels);
      match first
      case None => d.done.trace.calls == d.doneH.trace.calls == d.fail.trace.calls == d.failH.trace.calls == []
      case Some(Resolve(v)) =>
        && RunOnce(d.done, SYSTEM + c.done, v) && RunOnce(d.doneH, c.doneH, v)
        && d.fail.trace.calls == d.failH.trace.calls == []
      case Some(Reject(v)) =>
        && RunOnce(d.fail, SYSTEM + c.fail, v) && RunOnce(d.failH, c.failH, v)
        && d.done.trace.calls == d.doneH.trace.calls == []
      case _ => false
  {
    FreshUndecided();
    RunAgrees(Fresh(), labels, None, NOTHING);
  }

  // ----- progress -----

  function Times(l: Label, n: nat): (r: seq<Label>)
    ensures |r| == n
  {
    seq(n, _ => l)
  }

  lemma RunTimes(d: D, l: Label, n: nat)
    requires n > 0
    ensures Run(d, Times(l, n)) == Run(Step(d, l), Times(l, n - 1))
  {
    var labels := Times(l, n);
    assert labels[0] == l && labels[1..] == Times(l, n - 1);
  }

  lemma ReturnCallsNext(s: State, v: Args, reg: seq<Fn>)
    requires Fired(s, v, reg) && s.firing
    ensures
      var t := DoReturn(s, false);
      if s.firingIndex + 1 < |s.list| then t.firing && |t.trace.calls| == |s.trace.calls| + 1 else !t.firing
  {
  }

  lemma {:induction false} DoneFinishes(d: D, v: Args, c: Regs)
    requires Won(d, v, c)
    ensures
      var s := Run(d, Times(ReturnDone, |SYSTEM| + |c.done| + 1 - |d.done.trace.calls|)).done;
      !s.firing && RunOnce(s, SYSTEM + c.done, v)
    decreases |SYSTEM| + |c.done| - |d.done.trace.calls|
  {
    var n := |SYSTEM| + |c.done| + 1 - |d.done.trace.calls|;
    var e := DoReturnDone(d);
    RunTimes(d, ReturnDone, n);
    ReturnDoneKeeps(d, v, c);
    if d.done.firing {
      ReturnCallsNext(d.done, v, SYSTEM + c.done);
      ReturnGoesNoFurther(d, v, c);
      if e.done.firing {
        DoneFinishes(e, v, c);
      } else {
        IdleStays(e, v, c, n - 1);
      }
    } else {
      IdleStays(d, v, c, n);
    }
  }

  /** Past the system entries a return goes to the next callback and no further. */
  lemma ReturnGoesNoFurther(d: D, v: Args, c: Regs)
    requires Won(d, v, c) && d.done.firing
    ensures DoReturnDone(d).done == DoReturn(d.done, false)
  {
    ReturnFired(d.done, v, SYSTEM + c.done);
    var t := DoReturn(d.done, false);
    if t.firing {
      ReturnCallsNext(d.done, v, SYSTEM + c.done);
      NotInSystem(t, v, c.done);
    }
  }

  lemma {:induction false} IdleStays(d: D, v: Args, c: Regs, n: nat)
    requires Won(d, v, c) && !d.done.firing
    ensures
      var s := Run(d, Times(ReturnDone, n)).done;
      !s.firing && RunOnce(s, SYSTEM + c.done, v)
  {
    if n > 0 {
      RunTimes(d, ReturnDone, n);
      assert DoReturnDone(d).done == d.done;
      ReturnDoneKeeps(d, v, c);
      IdleStays(DoReturnDone(d), v, c, n - 1);
    }
  }

  lemma {:induction false} HandlersFinish(d: D, v: Args, c: Regs)
    requires Won(d, v, c)
    ensures
      var s := Run(d, Times(ReturnDoneH, |c.doneH| + 1 - |d.doneH.trace.calls|)).doneH;
      !s.firing && RunOnce(s, c.doneH, v)
    decreases |c.doneH| - |d.doneH.trace.calls|
  {
    var n := |c.doneH| + 1 - |d.doneH.trace.calls|;
    var e := Step(d, ReturnDoneH);
    RunTimes(d, ReturnDoneH, n);
    ReturnFired(d.doneH, v, c.doneH);
    if d.doneH.firing {
      ReturnCallsNext(d.doneH, v, c.doneH);
      if e.doneH.firing {
        HandlersFinish(e, v, c);
      } else {
        HandlersIdle(e, v, c, n - 1);
      }
    } else {
      HandlersIdle(d, v, c, n);
    }
  }

  lemma {:induction false} HandlersIdle(d: D, v: Args, c: Regs, n: nat)
    requires Won(d, v, c) && !d.doneH.firing
    ensures
      var s := Run(d, Times(ReturnDoneH, n)).doneH;
      !s.firing && RunOnce(s, c.doneH, v)
  {
    if n > 0 {
      RunTimes(d, ReturnDoneH, n);
      HandlersIdle(Step(d, ReturnDoneH), v, c, n - 1);
    }
  }

  /** The winning side, its callbacks having returned often enough: all of them have been called. */
  ghost predicate Finishes(d: D, v: Args, reg: seq<Fn>, handlers: seq<Fn>) {
    && (exists n :: !Run(d, Times(ReturnDone, n)).done.firing && RunOnce(Run(d, Times(ReturnDone, n)).done, reg, v))
    && (exists n ::
          !Run(d, Times(ReturnDoneH, n)).doneH.firing && RunOnce(Run(d, Times(ReturnDoneH, n)).doneH, handlers, v))
  }

  lemma WonFinishes(d: D, v: Args, c: Regs)
    requires Won(d, v, c)
    ensures Finishes(d, v, SYSTEM + c.done, c.doneH)
  {
    DoneFinishes(d, v, c);
    HandlersFinish(d, v, c);
  }

  /** After any run that resolves, if the running callbacks return, every done callback and every fulfilment handler
      has been called. */
  lemma ResolvedFinishes(labels: seq<Label>)
    requires FirstSettle(labels).Some? && FirstSettle(labels).value.Resolve?
    ensures
      var c := RegisteredAll(NOTHING, labels);
      Finishes(Run(Fresh(), labels), FirstSettle(labels).value.args, SYSTEM + c.done, c.doneH)
  {
    FreshUndecided();
    RunAgrees(Fresh(), labels, None, NOTHING);
    WonFinishes(Run(Fresh(), labels), FirstSettle(labels).value.args, RegisteredAll(NOTHING, labels));
  }

  lemma FlipTwice(d: D)
    ensures Flip(Flip(d)) == d
  {
  }

  lemma {:induction false} FlipReturns(d: D, n: nat)
    ensures Run(d, Times(ReturnFail, n)) == Flip(Run(Flip(d), Times(ReturnDone, n)))
    decreases n
  {
    FlipTwice(d);
    if n > 0 {
      var e := Step(d, ReturnFail);
      FlipTwice(DoReturnDone(Flip(d)));
      RunTimes(d, ReturnFail, n);
      RunTimes(Flip(d), ReturnDone, n);
      FlipReturns(e, n - 1);
    }
  }

  lemma {:induction false} FlipHandlerReturns(d: D, n: nat)
    ensures Run(d, Times(ReturnFailH, n)) == Flip(Run(Flip(d), Times(ReturnDoneH, n)))
    decreases n
  {
    FlipTwice(d);
    if n > 0 {
      RunTimes(d, ReturnFailH, n);
      RunTimes(Flip(d), ReturnDoneH, n);
      FlipHandlerReturns(Step(d, ReturnFailH), n - 1);
    }
  }

  /** And after any run that rejects, every fail callback and every rejection handler. */
  lemma RejectedFinishes(labels: seq<Label>)
    requires FirstSettle(labels).Some? && FirstSettle(labels).value.Reject?
    ensures
      var v, c, d := FirstSettle(labels).value.args, RegisteredAll(NOTHING, labels), Run(Fresh(), labels);
      && (exists n :: !Run(d, Times(ReturnFail, n)).fail.firing &&
                      RunOnce(Run(d, Times(ReturnFail, n)).fail, SYSTEM + c.fail, v))
      && (exists n :: !Run(d, Times(ReturnFailH, n)).failH.firing &&
                      RunOnce(Run(d, Times(ReturnFailH, n)).failH, c.failH, v))
  {
    FreshUndecided();
    RunAgrees(Fresh(), labels, None, NOTHING);
    var v, c, d := FirstSettle(labels).value.args, RegisteredAll(NOTHING, labels), Run(Fresh(), labels);
    WonFinishes(Flip(d), v, FlipRegs(c));
    var m :| !Run(Flip(d), Times(ReturnDone, m)).done.firing &&
             RunOnce(Run(Flip(d), Times(ReturnDone, m)).done, SYSTEM + c.fail, v);
    FlipReturns(d, m);
    var n :| !Run(Flip(d), Times(ReturnDoneH, n)).doneH.firing &&
             RunOnce(Run(Flip(d), Times(ReturnDoneH, n)).doneH, c.failH, v);
    FlipHandlerReturns(d, n);
  }
}
