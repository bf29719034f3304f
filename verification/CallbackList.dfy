/**
 Callback lists as steps.

 A list runs its callbacks one after another; each callback may itself add, remove, fire, lock or
 disable before it returns. A step is one such call, made from outside or from inside the running
 callback, or the return of the running callback, after which the list goes on to the next one.
 `trace` only observes: the accepted fire calls, the rounds begun, and the calls made.
 */
module CallbackList {
  import opened Prelude

  type Args = int

  datatype Fn = User(u: nat) | System(k: nat)

  /** One registration of a function; the same function may be registered several times. */
  datatype Entry = Entry(id: nat, fn: Fn)

  /** The registration called, its function, the arguments, and the round. */
  datatype Call = Call(id: nat, fn: Fn, args: Args, round: nat)

  datatype Options = Options(once: bool, memory: bool, unique: bool, stopOnFalse: bool)

  datatype Trace = Trace(
    fires: seq<Args>,                   // rounds begun or queued, with their arguments
    round: nat,                         // rounds begun
    calls: seq<Call>,                   // the calls made
    epoch: nat,                         // calls made before the current arguments were fired
    told: map<nat, nat>,                // registrations called since then, and the index of the call
    bound: nat)                         // every one of them is below this
  {
    function Enqueue(args: Args): Trace {
      this.(fires := fires + [args])
    }

    function BeginRound(): Trace {
      this.(round := round + 1, epoch := |calls|, told := map[], bound := 0)
    }

    /** A further round with arguments already fired, for registrations from `from` on. */
    function Repeat(args: Args, from: nat): Trace {
      this.(fires := fires + [args], round := round + 1, bound := from)
    }

    function Record(e: Entry, args: Args): Trace {
      this.(calls := calls + [Call(e.id, e.fn, args, round)], told := told[e.id := |calls|], bound := e.id + 1)
    }

    function DropQueued(): Trace {
      this.(fires := if round <= |fires| then fires[..round] else fires)
    }
  }

  datatype State = State(
    options: Options,
    list: seq<Entry>, live: bool,       // `live` is false once the list has become ""
    queue: seq<Args>, firing: bool, fired: bool, locked: bool,
    firingIndex: int, memory: Option<Args>,
    nextId: nat,                        // registrations so far
    trace: Trace)

  function Init(options: Options): State {
    State(options, [], true, [], false, false, false, -1, None, 0, Trace([], 0, [], 0, map[], 0))
  }

  // ----- the steps -----

  datatype Label =
    | Add(fns: seq<Fn>)
    | Remove(fn: Fn)
    | FireWith(args: Args)
    | Lock
    | Disable
    | Return(wasFalse: bool)

  predicate HasFn(list: seq<Entry>, fn: Fn) {
    exists i | 0 <= i < |list| :: list[i].fn == fn
  }

  function Push(s: State, fns: seq<Fn>): State
    decreases |fns|
  {
    if fns == [] then s
    else if s.options.unique && HasFn(s.list, fns[0]) then Push(s, fns[1..])
    else Push(s.(list := s.list + [Entry(s.nextId, fns[0])], nextId := s.nextId + 1), fns[1..])
  }

  function Without(list: seq<Entry>, fn: Fn): seq<Entry> {
    if list == [] then []
    else
      var n := |list| - 1;
      Without(list[..n], fn) + if list[n].fn == fn then [] else [list[n]]
  }

  /** The end of `fire`: forget the data, and the list too if it may not fire again. */
  function Finish(s: State): State {
    var memory := if s.options.memory then s.memory else None;
    var t := s.(memory := memory, firing := false, firingIndex := -1);
    if !s.locked then t else t.(list := [], live := memory.Some?)
  }

  /** Takes the next round from the queue, for all registrations. */
  function NextRound(s: State): State
    requires s.queue != []
  {
    s.(firingIndex := -1, memory := Some(s.queue[0]), queue := s.queue[1..], trace := s.trace.BeginRound())
  }

  /** Calls the entry after `firingIndex`. */
  function CallNext(s: State): State
    requires -1 <= s.firingIndex && s.firingIndex + 1 < |s.list| && s.memory.Some?
  {
    s.(firingIndex := s.firingIndex + 1, trace := s.trace.Record(s.list[s.firingIndex + 1], s.memory.value))
  }

  /** Goes on to the next callback, to the next queued round, or to the end. */
  function Advance(s: State): State
    decreases |s.queue|
  {
    if -1 <= s.firingIndex && s.firingIndex + 1 < |s.list| && s.memory.Some? then CallNext(s)
    else if s.queue != [] then Advance(NextRound(s))
    else Finish(s)
  }

  /** The start of `fire`. */
  function Fire(s: State): State {
    s.(locked := s.locked || s.options.once, fired := true, firing := true)
  }

  /** Queues the remembered arguments and starts at the end of the old list. */
  function CatchUp(s: State, t: State): State
    requires s.memory.Some?
  {
    var queue := s.queue + [s.memory.value];
    Fire(t).(firingIndex := |s.list| - 1, memory := Some(queue[0]), queue := queue[1..],
             trace := s.trace.Repeat(s.memory.value, s.nextId))
  }

  function DoAdd(s: State, fns: seq<Fn>): State {
    if !s.live then s
    else if s.memory.Some? && !s.firing then Advance(CatchUp(s, Push(s, fns)))
    else Push(s, fns)
  }

  /** How many entries `firingIndex` has passed. */
  function Passed(list: seq<Entry>, firingIndex: int): (k: nat)
    ensures k <= |list|
  {
    if firingIndex < 0 then 0 else if firingIndex < |list| then firingIndex + 1 else |list|
  }

  /** How many of the first `k` entries are registrations of `fn`. */
  function Removed(list: seq<Entry>, fn: Fn, k: nat): int
    requires k <= |list|
  {
    k - |Without(list[..k], fn)|
  }

  function DoRemove(s: State, fn: Fn): State {
    s.(list := Without(s.list, fn), firingIndex := s.firingIndex - Removed(s.list, fn, Passed(s.list, s.firingIndex)))
  }

  function DoFireWith(s: State, args: Args): State {
    if s.locked then s
    else
      var t := s.(queue := s.queue + [args], trace := s.trace.Enqueue(args));
      if s.firing then t else Advance(NextRound(Fire(t)))
  }

  function Aborted(s: State): State {
    s.(locked := true, queue := [], trace := s.trace.DropQueued())
  }

  function DoLock(s: State): State {
    var t := Aborted(s);
    if s.memory.None? && !s.firing then t.(list := [], live := false) else t
  }

  function DoDisable(s: State): State {
    Aborted(s).(list := [], live := false, memory := None)
  }

  function DoReturn(s: State, wasFalse: bool): State {
    if !s.firing then s
    else if wasFalse && s.options.stopOnFalse then Advance(s.(firingIndex := |s.list|, memory := None))
    else Advance(s)
  }

  function Step(s: State, l: Label): State {
    match l
    case Add(fns) => DoAdd(s, fns)
    case Remove(fn) => DoRemove(s, fn)
    case FireWith(args) => DoFireWith(s, args)
    case Lock => DoLock(s)
    case Disable => DoDisable(s)
    case Return(wasFalse) => DoReturn(s, wasFalse)
  }

  function RunFrom(s: State, labels: seq<Label>): State
    decreases |labels|
  {
    if labels == [] then s else RunFrom(Step(s, labels[0]), labels[1..])
  }

  // ----- what every step keeps -----

  /** Registrations stand in the order they were made. */
  ghost predicate Listed(list: seq<Entry>, nextId: nat) {
    && (forall i | 0 <= i < |list| :: list[i].id < nextId)
    && (forall i, j | 0 <= i < j < |list| :: list[i].id < list[j].id)
  }

  ghost predicate Before(c: Call, d: Call) {
    c.round < d.round || (c.round == d.round && c.id < d.id)
  }

  /** Rounds follow each other, registrations follow each other within a round, and every call has
      the arguments its round was fired with. */
  ghost predicate Ordered(calls: seq<Call>, fires: seq<Args>, nextId: nat) {
    calls == [] ||
    var n := |calls| - 1;
    && Ordered(calls[..n], fires, nextId)
    && 1 <= calls[n].round <= |fires| && calls[n].args == fires[calls[n].round - 1] && calls[n].id < nextId
    && (n > 0 ==> Before(calls[n - 1], calls[n]))
  }

  /** From `epoch` on, all calls have these arguments, and each is of a later registration than the
      one before, up to `bound`. */
  ghost predicate Since(calls: seq<Call>, epoch: nat, args: Args, bound: nat) {
    |calls| <= epoch ||
    var n := |calls| - 1;
    calls[n].id < bound && calls[n].args == args && Since(calls[..n], epoch, args, calls[n].id)
  }

  ghost predicate InSequence(tr: Trace, nextId: nat) {
    && tr.round <= |tr.fires| && tr.epoch <= |tr.calls| && tr.bound <= nextId
    && Ordered(tr.calls, tr.fires, nextId)
    && (tr.calls != [] ==> tr.calls[|tr.calls| - 1].round <= tr.round)
    && (tr.epoch > 0 ==> tr.calls[tr.epoch - 1].round < tr.round)
    && (tr.epoch < |tr.calls| ==> tr.round >= 1 && Since(tr.calls, tr.epoch, tr.fires[tr.round - 1], tr.bound))
    && (forall id | id in tr.told :: tr.epoch <= tr.told[id] < |tr.calls| && tr.calls[tr.told[id]].id == id)
  }

  /** Up to `firingIndex` stand exactly the survivors already called with the current arguments,
      after it exactly those still to be called. */
  ghost predicate MidRound(list: seq<Entry>, firingIndex: int, told: map<nat, nat>, bound: nat) {
    && (forall i | 0 <= i <= firingIndex && i < |list| :: list[i].id < bound && list[i].id in told)
    && (forall i | 0 <= i < |list| && firingIndex < i :: bound <= list[i].id)
  }

  ghost predicate Common(s: State) {
    && Listed(s.list, s.nextId)
    && InSequence(s.trace, s.nextId)
    && s.queue == s.trace.fires[s.trace.round..]
    && (s.memory.Some? ==> s.trace.round >= 1 && s.memory.value == s.trace.fires[s.trace.round - 1])
    && (!s.live ==> s.list == [] && s.locked && s.memory.None? && s.queue == [])
    && (s.firing ==> s.firingIndex >= -1)
  }

  ghost predicate Inv(s: State) {
    && Common(s)
    && (s.firing && s.live ==>
          && s.memory.Some? && s.firingIndex < |s.list|
          && MidRound(s.list, s.firingIndex, s.trace.told, s.trace.bound))
    && (!s.firing ==> s.firingIndex == -1 && s.queue == [])
    && (!s.firing && s.memory.Some? ==> MidRound(s.list, |s.list|, s.trace.told, s.trace.bound))
  }

  /** What holds when `fire` is about to look at the next index. */
  ghost predicate Poised(s: State) {
    && Common(s) && s.firing
    && (s.live && s.memory.Some? ==> MidRound(s.list, s.firingIndex, s.trace.told, s.trace.bound))
    && (s.live && s.memory.None? ==> s.firingIndex >= |s.list|)
  }

  // ----- on the parts -----

  lemma CallInSequence(tr: Trace, e: Entry, args: Args, nextId: nat)
    requires InSequence(tr, nextId)
    requires tr.round >= 1 && tr.bound <= e.id < nextId && args == tr.fires[tr.round - 1]
    ensures InSequence(tr.Record(e, args), nextId)
  {
    var n := |tr.calls|;
    var all := tr.Record(e, args).calls;
    assert all[..n] == tr.calls;
    if tr.epoch < n {
      SinceWiden(tr.calls, tr.epoch, args, tr.bound, e.id);
    }
  }

  lemma {:induction false} SinceWiden(calls: seq<Call>, epoch: nat, args: Args, bound: nat, bound': nat)
    requires Since(calls, epoch, args, bound) && bound <= bound'
    ensures Since(calls, epoch, args, bound')
  {
  }

  /** The first rounds have the same arguments. */
  ghost predicate Agree(fires: seq<Args>, fires': seq<Args>, round: nat) {
    forall i | 0 <= i < round && i < |fires| :: i < |fires'| && fires'[i] == fires[i]
  }

  lemma {:induction false} OrderedWiden(calls: seq<Call>, fires: seq<Args>, nextId: nat,
                                        fires': seq<Args>, nextId': nat, round: nat)
    requires Ordered(calls, fires, nextId) && nextId <= nextId' && Agree(fires, fires', round)
    requires calls != [] ==> calls[|calls| - 1].round <= round
    ensures Ordered(calls, fires', nextId')
  {
    if calls != [] {
      OrderedWiden(calls[..|calls| - 1], fires, nextId, fires', nextId', round);
    }
  }

  lemma FreshRound(tr: Trace, nextId: nat)
    requires InSequence(tr, nextId) && tr.round < |tr.fires|
    ensures InSequence(tr.BeginRound(), nextId)
  {
  }

  lemma RepeatInSequence(tr: Trace, args: Args, nextId: nat, nextId': nat)
    requires InSequence(tr, nextId) && nextId <= nextId'
    requires |tr.fires| == tr.round >= 1 && args == tr.fires[tr.round - 1]
    ensures InSequence(tr.Repeat(args, nextId), nextId')
  {
    OrderedWiden(tr.calls, tr.fires, nextId, tr.fires + [args], nextId', tr.round);
    if tr.epoch < |tr.calls| {
      SinceWiden(tr.calls, tr.epoch, args, tr.bound, nextId);
    }
  }

  lemma RegisterInSequence(tr: Trace, nextId: nat, nextId': nat)
    requires InSequence(tr, nextId) && nextId <= nextId'
    ensures InSequence(tr, nextId')
  {
    OrderedWiden(tr.calls, tr.fires, nextId, tr.fires, nextId', tr.round);
  }

  lemma EnqueueInSequence(tr: Trace, args: Args, nextId: nat)
    requires InSequence(tr, nextId)
    ensures InSequence(tr.Enqueue(args), nextId)
  {
    OrderedWiden(tr.calls, tr.fires, nextId, tr.fires + [args], nextId, tr.round);
  }

  lemma DropInSequence(tr: Trace, nextId: nat)
    requires InSequence(tr, nextId)
    ensures InSequence(tr.DropQueued(), nextId)
  {
    OrderedWiden(tr.calls, tr.fires, nextId, tr.fires[..tr.round], nextId, tr.round);
  }

  lemma {:induction false} PushAppends(s: State, fns: seq<Fn>)
    requires Listed(s.list, s.nextId)
    ensures
      var t := Push(s, fns);
      && t == s.(list := t.list, nextId := t.nextId)
      && s.nextId <= t.nextId && |s.list| <= |t.list| && Listed(t.list, t.nextId)
      && (forall i | 0 <= i < |s.list| :: t.list[i] == s.list[i])
      && (forall i | |s.list| <= i < |t.list| :: s.nextId <= t.list[i].id)
    decreases |fns|
  {
    if fns != [] {
      if s.options.unique && HasFn(s.list, fns[0]) {
        PushAppends(s, fns[1..]);
      } else {
        var u := s.(list := s.list + [Entry(s.nextId, fns[0])], nextId := s.nextId + 1);
        PushAppends(u, fns[1..]);
        assert forall i | 0 <= i < |s.list| :: u.list[i] == s.list[i];
      }
    }
  }

  // ----- removal -----

  /** What holds of all registrations holds of those that stay. */
  lemma {:induction false} WithoutAll(list: seq<Entry>, fn: Fn, P: nat -> bool)
    requires forall i | 0 <= i < |list| :: P(list[i].id)
    ensures forall i | 0 <= i < |Without(list, fn)| :: P(Without(list, fn)[i].id)
    ensures |Without(list, fn)| <= |list|
  {
    if list != [] {
      WithoutAll(list[..|list| - 1], fn, P);
    }
  }

  lemma {:induction false} WithoutListed(list: seq<Entry>, fn: Fn, nextId: nat)
    requires Listed(list, nextId)
    ensures Listed(Without(list, fn), nextId)
  {
    if list != [] {
      var n := |list| - 1;
      WithoutListed(list[..n], fn, list[n].id);
    }
  }

  lemma {:induction false} WithoutSplits(a: seq<Entry>, b: seq<Entry>, fn: Fn)
    ensures Without(a + b, fn) == Without(a, fn) + Without(b, fn)
    decreases |b|
  {
    if b == [] {
      assert a + b == a;
    } else {
      var n := |b| - 1;
      assert (a + b)[..|a| + n] == a + b[..n] && (a + b)[|a| + n] == b[n];
      WithoutSplits(a, b[..n], fn);
    }
  }

  ghost predicate AllCalled(list: seq<Entry>, told: map<nat, nat>, bound: nat) {
    forall i | 0 <= i < |list| :: list[i].id < bound && list[i].id in told
  }

  ghost predicate AllDue(list: seq<Entry>, bound: nat) {
    forall i | 0 <= i < |list| :: bound <= list[i].id
  }

  lemma MidRoundSplits(list: seq<Entry>, i: int, told: map<nat, nat>, bound: nat)
    requires MidRound(list, i, told, bound) && -1 <= i < |list|
    ensures AllCalled(list[..i + 1], told, bound) && AllDue(list[i + 1..], bound)
  {
  }

  lemma MidRoundJoins(a: seq<Entry>, b: seq<Entry>, told: map<nat, nat>, bound: nat)
    requires AllCalled(a, told, bound) && AllDue(b, bound)
    ensures MidRound(a + b, |a| - 1, told, bound)
  {
  }

  lemma CalledStay(list: seq<Entry>, fn: Fn, told: map<nat, nat>, bound: nat)
    requires AllCalled(list, told, bound)
    ensures AllCalled(Without(list, fn), told, bound)
  {
    WithoutAll(list, fn, id => id < bound && id in told);
  }

  lemma DueStay(list: seq<Entry>, fn: Fn, bound: nat)
    requires AllDue(list, bound)
    ensures AllDue(Without(list, fn), bound)
  {
    WithoutAll(list, fn, id => bound <= id);
  }

  /** `firingIndex` loses one for each removed entry it has passed: the cut stays between the same
      survivors. */
  lemma RemoveMidRound(list: seq<Entry>, fn: Fn, i: int, told: map<nat, nat>, bound: nat)
    requires MidRound(list, i, told, bound) && -1 <= i < |list|
    ensures MidRound(Without(list, fn), |Without(list[..i + 1], fn)| - 1, told, bound)
    ensures |Without(list[..i + 1], fn)| <= |Without(list, fn)|
  {
    var a, b := list[..i + 1], list[i + 1..];
    MidRoundSplits(list, i, told, bound);
    CalledStay(a, fn, told, bound);
    DueStay(b, fn, bound);
    MidRoundJoins(Without(a, fn), Without(b, fn), told, bound);
    assert list == a + b;
    WithoutSplits(a, b, fn);
  }

  lemma RemoveIdle(list: seq<Entry>, fn: Fn, told: map<nat, nat>, bound: nat)
    requires MidRound(list, |list|, told, bound)
    ensures MidRound(Without(list, fn), |Without(list, fn)|, told, bound)
  {
    CalledStay(list, fn, told, bound);
  }

  // ----- step by step -----

  lemma CallMidRound(s: State)
    requires MidRound(s.list, s.firingIndex, s.trace.told, s.trace.bound) && Listed(s.list, s.nextId)
    requires s.memory.Some? && -1 <= s.firingIndex && s.firingIndex + 1 < |s.list|
    ensures
      var t := CallNext(s);
      MidRound(t.list, t.firingIndex, t.trace.told, t.trace.bound)
  {
  }

  lemma CallCommon(s: State)
    requires Common(s) && s.memory.Some? && -1 <= s.firingIndex && s.firingIndex + 1 < |s.list|
    requires s.trace.bound <= s.list[s.firingIndex + 1].id
    ensures Common(CallNext(s))
  {
    CallInSequence(s.trace, s.list[s.firingIndex + 1], s.memory.value, s.nextId);
  }

  lemma NextIsDue(list: seq<Entry>, i: int, told: map<nat, nat>, bound: nat)
    requires MidRound(list, i, told, bound) && -1 <= i && i + 1 < |list|
    ensures bound <= list[i + 1].id
  {
  }

  lemma FiringInv(s: State)
    requires Common(s) && s.firing && s.memory.Some? && s.firingIndex < |s.list|
    requires MidRound(s.list, s.firingIndex, s.trace.told, s.trace.bound)
    ensures Inv(s)
  {
  }

  lemma CallKeeps(s: State)
    requires Poised(s) && s.firingIndex + 1 < |s.list| && s.memory.Some?
    ensures Inv(CallNext(s))
  {
    NextIsDue(s.list, s.firingIndex, s.trace.told, s.trace.bound);
    CallCommon(s);
    CallMidRound(s);
    FiringInv(CallNext(s));
  }

  lemma NextRoundKeeps(s: State)
    requires Poised(s) && s.queue != []
    ensures Poised(NextRound(s))
  {
    FreshRound(s.trace, s.nextId);
  }

  lemma FinishKeeps(s: State)
    requires Poised(s) && s.queue == [] && !(s.firingIndex + 1 < |s.list| && s.memory.Some?)
    ensures Inv(Finish(s))
  {
  }

  lemma {:induction false} AdvanceKeeps(s: State)
    requires Poised(s)
    ensures Inv(Advance(s))
    decreases |s.queue|
  {
    if s.firingIndex + 1 < |s.list| && s.memory.Some? {
      CallKeeps(s);
    } else if s.queue != [] {
      NextRoundKeeps(s);
      AdvanceKeeps(NextRound(s));
    } else {
      FinishKeeps(s);
    }
  }

  lemma AddKeeps(s: State, fns: seq<Fn>)
    requires Inv(s)
    ensures Inv(DoAdd(s, fns))
  {
    if s.live {
      PushAppends(s, fns);
      var t := Push(s, fns);
      if s.memory.Some? && !s.firing {
        RepeatInSequence(s.trace, s.memory.value, s.nextId, t.nextId);
        AdvanceKeeps(CatchUp(s, t));
      } else {
        RegisterInSequence(s.trace, s.nextId, t.nextId);
      }
    }
  }

  lemma RemoveKeeps(s: State, fn: Fn)
    requires Inv(s)
    ensures Inv(DoRemove(s, fn))
  {
    WithoutListed(s.list, fn, s.nextId);
    if s.firing && s.live {
      RemoveMidRound(s.list, fn, s.firingIndex, s.trace.told, s.trace.bound);
    } else {
      assert s.list[..0] == [];
      if s.memory.Some? {
        RemoveIdle(s.list, fn, s.trace.told, s.trace.bound);
      }
    }
  }

  lemma FireKeeps(s: State, args: Args)
    requires Inv(s)
    ensures Inv(DoFireWith(s, args))
  {
    if !s.locked {
      EnqueueInSequence(s.trace, args, s.nextId);
      if !s.firing {
        FreshRound(s.trace.Enqueue(args), s.nextId);
        AdvanceKeeps(NextRound(Fire(s.(queue := s.queue + [args], trace := s.trace.Enqueue(args)))));
      }
    }
  }

  lemma LockKeeps(s: State)
    requires Inv(s)
    ensures Inv(DoLock(s))
  {
    DropInSequence(s.trace, s.nextId);
  }

  lemma DisableKeeps(s: State)
    requires Inv(s)
    ensures Inv(DoDisable(s))
  {
    DropInSequence(s.trace, s.nextId);
  }

  lemma ReturnKeeps(s: State, wasFalse: bool)
    requires Inv(s)
    ensures Inv(DoReturn(s, wasFalse))
  {
    if s.firing {
      if wasFalse && s.options.stopOnFalse {
        AdvanceKeeps(s.(firingIndex := |s.list|, memory := None));
      } else {
        AdvanceKeeps(s);
      }
    }
  }

  /** Every call on the list, from outside or from inside a running callback, keeps the invariant. */
  lemma StepKeeps(s: State, l: Label)
    requires Inv(s)
    ensures Inv(Step(s, l))
  {
    match l
    case Add(fns) => AddKeeps(s, fns);
    case Remove(fn) => RemoveKeeps(s, fn);
    case FireWith(args) => FireKeeps(s, args);
    case Lock => LockKeeps(s);
    case Disable => DisableKeeps(s);
    case Return(wasFalse) => ReturnKeeps(s, wasFalse);
  }

  lemma {:induction false} RunKeeps(s: State, labels: seq<Label>)
    requires Inv(s)
    ensures Inv(RunFrom(s, labels))
    decreases |labels|
  {
    if labels != [] {
      StepKeeps(s, labels[0]);
      RunKeeps(Step(s, labels[0]), labels[1..]);
    }
  }

  /** A reachable list is ready for the calls its users make. */
  lemma InvIsReady(s: State)
    requires Inv(s)
    ensures !s.firing ==> s.firingIndex == -1
    ensures s.firing ==> s.firingIndex >= -1 && (s.memory.Some? || s.firingIndex + 1 >= |s.list|)
  {
  }

  lemma InitHolds(options: Options)
    ensures Inv(Init(options))
  {
  }

  // ----- what that means for whole runs -----

  lemma {:induction false} SinceDistinct(calls: seq<Call>, epoch: nat, args: Args, bound: nat)
    requires Since(calls, epoch, args, bound)
    ensures forall i | epoch <= i < |calls| :: calls[i].args == args && calls[i].id < bound
    ensures forall i, j | epoch <= i < j < |calls| :: calls[i].id < calls[j].id
  {
    if |calls| > epoch {
      SinceDistinct(calls[..|calls| - 1], epoch, args, calls[|calls| - 1].id);
    }
  }

  lemma {:induction false} OrderedPairs(calls: seq<Call>, fires: seq<Args>, nextId: nat)
    requires Ordered(calls, fires, nextId)
    ensures forall i | 0 <= i < |calls| :: 1 <= calls[i].round <= |fires| && calls[i].args == fires[calls[i].round - 1]
    ensures forall i, j | 0 <= i < j < |calls| :: Before(calls[i], calls[j])
  {
    if calls != [] {
      OrderedPairs(calls[..|calls| - 1], fires, nextId);
    }
  }

  /** Over every run, re-entrant fire calls run one after the other: calls of different rounds do
      not mix, rounds come in the order they were fired with their own arguments, within a round
      registrations are called in order and at most once, and when nothing is firing every accepted
      fire call has had its round. */
  lemma RoundsInOrder(options: Options, labels: seq<Label>)
    ensures
      var tr := RunFrom(Init(options), labels).trace;
      && (forall i | 0 <= i < |tr.calls| ::
            1 <= tr.calls[i].round <= |tr.fires| && tr.calls[i].args == tr.fires[tr.calls[i].round - 1])
      && (forall i, j | 0 <= i < j < |tr.calls| :: Before(tr.calls[i], tr.calls[j]))
      && (!RunFrom(Init(options), labels).firing ==> tr.round == |tr.fires|)
  {
    InitHolds(options);
    RunKeeps(Init(options), labels);
    var s := RunFrom(Init(options), labels);
    OrderedPairs(s.trace.calls, s.trace.fires, s.nextId);
  }

  /** When the last callback of a round returns, every entry still in the list has been called
      with the arguments of the round, exactly once since those arguments were fired. */
  lemma RoundCoversSurvivors(options: Options, labels: seq<Label>, i: nat)
    requires
      var s := RunFrom(Init(options), labels);
      var t := DoReturn(s, false);
      s.firing && s.live && i < |s.list| && (t.trace.round > s.trace.round || !t.firing)
    ensures
      var s := RunFrom(Init(options), labels);
      exists k | s.trace.epoch <= k < |s.trace.calls| ::
        s.trace.calls[k].id == s.list[i].id && Some(s.trace.calls[k].args) == s.memory &&
        forall l | s.trace.epoch <= l < |s.trace.calls| && l != k :: s.trace.calls[l].id != s.list[i].id
  {
    InitHolds(options);
    RunKeeps(Init(options), labels);
    var s := RunFrom(Init(options), labels);
    assert s.firingIndex + 1 >= |s.list|;
    var k := s.trace.told[s.list[i].id];
    assert s.trace.calls[k].id == s.list[i].id;
    SinceDistinct(s.trace.calls, s.trace.epoch, s.memory.value, s.trace.bound);
  }

  /** The registration `id` is not in the list. */
  ghost predicate Gone(s: State, id: nat) {
    id < s.nextId && forall i | 0 <= i < |s.list| :: s.list[i].id != id
  }

  /** The calls of `s` have been followed by others, none of them of `id`. */
  ghost predicate NoMoreCalls(s: State, t: State, id: nat) {
    && |s.trace.calls| <= |t.trace.calls|
    && (forall k | 0 <= k < |s.trace.calls| :: t.trace.calls[k] == s.trace.calls[k])
    && forall k | |s.trace.calls| <= k < |t.trace.calls| :: t.trace.calls[k].id != id
  }

  lemma {:induction false} AdvanceGone(s: State, id: nat)
    requires Gone(s, id)
    ensures Gone(Advance(s), id) && NoMoreCalls(s, Advance(s), id)
    decreases |s.queue|
  {
    if !(-1 <= s.firingIndex && s.firingIndex + 1 < |s.list| && s.memory.Some?) && s.queue != [] {
      AdvanceGone(NextRound(s), id);
    }
  }

  lemma StepGone(s: State, l: Label, id: nat)
    requires Inv(s) && Gone(s, id)
    ensures Gone(Step(s, l), id) && NoMoreCalls(s, Step(s, l), id)
  {
    match l
    case Add(fns) =>
      if s.live {
        PushAppends(s, fns);
        var t := Push(s, fns);
        assert Gone(t, id);
        if s.memory.Some? && !s.firing {
          AdvanceGone(CatchUp(s, t), id);
        }
      }
    case Remove(fn) =>
      WithoutAll(s.list, fn, x => x != id);
    case FireWith(args) =>
      if !s.locked && !s.firing {
        AdvanceGone(NextRound(Fire(s.(queue := s.queue + [args], trace := s.trace.Enqueue(args)))), id);
      }
    case Lock =>
    case Disable =>
    case Return(wasFalse) =>
      if s.firing {
        if wasFalse && s.options.stopOnFalse {
          AdvanceGone(s.(firingIndex := |s.list|, memory := None), id);
        } else {
          AdvanceGone(s, id);
        }
      }
  }

  lemma {:induction false} GoneIsNeverCalled(s: State, labels: seq<Label>, id: nat)
    requires Inv(s) && Gone(s, id)
    ensures NoMoreCalls(s, RunFrom(s, labels), id)
    decreases |labels|
  {
    if labels != [] {
      StepKeeps(s, labels[0]);
      StepGone(s, labels[0], id);
      GoneIsNeverCalled(Step(s, labels[0]), labels[1..], id);
    }
  }

  lemma {:induction false} WithoutDrops(list: seq<Entry>, fn: Fn, nextId: nat, i: nat)
    requires Listed(list, nextId) && i < |list| && list[i].fn == fn
    ensures forall j | 0 <= j < |Without(list, fn)| :: Without(list, fn)[j].id != list[i].id
  {
    var n := |list| - 1;
    var front := list[..n];
    if i < n {
      WithoutDrops(front, fn, nextId, i);
    } else {
      WithoutAll(front, fn, id => id != list[i].id);
    }
  }

  /** A removed registration is never called again, whatever happens later. */
  lemma RemovedIsNeverCalled(s: State, fn: Fn, i: nat, labels: seq<Label>)
    requires Inv(s) && i < |s.list| && s.list[i].fn == fn
    ensures NoMoreCalls(s, RunFrom(Step(s, Remove(fn)), labels), s.list[i].id)
  {
    var id, t := s.list[i].id, Step(s, Remove(fn));
    WithoutDrops(s.list, fn, s.nextId, i);
    StepKeeps(s, Remove(fn));
    GoneIsNeverCalled(t, labels, id);
  }

  /** Adding to an idle list that remembers arguments calls a new entry, with those arguments,
      or nothing; entries already in the list are not called again in that round. */
  lemma AddWhileIdle(s: State, fns: seq<Fn>)
    requires Inv(s) && s.live && !s.firing && s.memory.Some?
    ensures
      var t := DoAdd(s, fns);
      && |t.trace.calls| <= |s.trace.calls| + 1
      && (t.firing <==> exists fn | fn in fns :: !s.options.unique || !HasFn(s.list, fn))
      && (t.firing ==>
            && |t.trace.calls| == |s.trace.calls| + 1 && t.trace.epoch == s.trace.epoch
            && t.trace.calls[|s.trace.calls|].id >= s.nextId
            && t.trace.calls[|s.trace.calls|].args == s.memory.value)
  {
    PushAppends(s, fns);
    PushGrows(s, fns);
  }

  lemma {:induction false} PushGrows(s: State, fns: seq<Fn>)
    ensures |Push(s, fns).list| >= |s.list|
    ensures |Push(s, fns).list| > |s.list| <==> exists fn | fn in fns :: !s.options.unique || !HasFn(s.list, fn)
    decreases |fns|
  {
    if fns != [] {
      assert fns == [fns[0]] + fns[1..];
      if s.options.unique && HasFn(s.list, fns[0]) {
        PushGrows(s, fns[1..]);
      } else {
        assert fns[0] in fns;
        PushGrows(s.(list := s.list + [Entry(s.nextId, fns[0])], nextId := s.nextId + 1), fns[1..]);
      }
    }
  }
}
