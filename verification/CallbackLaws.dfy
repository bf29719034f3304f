/**
 What a callback list does, told by the calls made on it alone: which fire calls get a round, which function
 every call is of, when a list is closed, and what disabling, a callback that returns false, and memory do.
 */
module CallbackLaws {
  import opened Prelude
  import opened CallbackList

  function Run(options: Options, labels: seq<Label>): State {
    RunFrom(Init(options), labels)
  }

  lemma {:induction false} RunNext(s: State, labels: seq<Label>)
    requires labels != []
    ensures RunFrom(s, labels) == Step(RunFrom(s, labels[..|labels| - 1]), labels[|labels| - 1])
    decreases |labels|
  {
    var n := |labels| - 1;
    if n == 0 {
      assert labels[1..] == [] && labels[..0] == [];
    } else {
      var rest := labels[1..];
      assert rest[..n - 1] == labels[..n][1..];
      RunNext(Step(s, labels[0]), rest);
    }
  }

  lemma Reachable(options: Options, labels: seq<Label>)
    ensures Inv(Run(options, labels))
  {
    InitHolds(options);
    RunKeeps(Init(options), labels);
  }

  // ----- the end of a step -----

  /** Going on changes neither the fires, nor the options, nor whether the list is locked. */
  lemma {:induction false} AdvanceFrame(s: State)
    ensures
      var t := Advance(s);
      && t.trace.fires == s.trace.fires && t.options == s.options && t.locked == s.locked && t.nextId == s.nextId
      && (t.list == s.list || t.list == [])
      && (t.firing ==> s.firing || t.memory.Some?)
    decreases |s.queue|
  {
    if !(-1 <= s.firingIndex && s.firingIndex + 1 < |s.list| && s.memory.Some?) && s.queue != [] {
      AdvanceFrame(NextRound(s));
    }
  }

  /** It makes at most one call, in the round it leaves the list in. */
  lemma {:induction false} AdvanceCalls(s: State)
    ensures
      var t := Advance(s);
      && s.trace.round <= t.trace.round
      && (t.trace.calls == s.trace.calls ||
          (|t.trace.calls| == |s.trace.calls| + 1 && t.trace.calls[..|s.trace.calls|] == s.trace.calls &&
           t.trace.calls[|s.trace.calls|].round == t.trace.round))
    decreases |s.queue|
  {
    if -1 <= s.firingIndex && s.firingIndex + 1 < |s.list| && s.memory.Some? {
      assert Advance(s).trace.calls[..|s.trace.calls|] == s.trace.calls;
    } else if s.queue != [] {
      AdvanceCalls(NextRound(s));
    }
  }

  lemma {:induction false} PushFrame(s: State, fns: seq<Fn>)
    ensures Push(s, fns) == s.(list := Push(s, fns).list, nextId := Push(s, fns).nextId)
    decreases |fns|
  {
    if fns != [] {
      if s.options.unique && HasFn(s.list, fns[0]) {
        PushFrame(s, fns[1..]);
      } else {
        PushFrame(s.(list := s.list + [Entry(s.nextId, fns[0])], nextId := s.nextId + 1), fns[1..]);
      }
    }
  }

  lemma StepOptions(s: State, l: Label)
    ensures Step(s, l).options == s.options
  {
    match l
    case Add(fns) =>
      PushFrame(s, fns);
      if s.live && s.memory.Some? && !s.firing {
        AdvanceFrame(CatchUp(s, Push(s, fns)));
      }
    case FireWith(args) =>
      if !s.locked && !s.firing {
        AdvanceFrame(NextRound(Fire(s.(queue := s.queue + [args], trace := s.trace.Enqueue(args)))));
      }
    case Return(wasFalse) =>
      if s.firing {
        AdvanceFrame(s);
        AdvanceFrame(s.(firingIndex := |s.list|, memory := None));
      }
    case _ =>
  }

  lemma {:induction false} RunOptions(options: Options, labels: seq<Label>)
    ensures Run(options, labels).options == options
  {
    if labels != [] {
      var n := |labels| - 1;
      RunNext(Init(options), labels);
      RunOptions(options, labels[..n]);
      StepOptions(Run(options, labels[..n]), labels[n]);
    }
  }

  // ----- when a list is closed -----

  predicate Closes(options: Options, l: Label) {
    l.Lock? || l.Disable? || (options.once && l.FireWith?)
  }

  /** It was locked or disabled, or may fire once and has been fired. */
  ghost predicate Closed(options: Options, labels: seq<Label>) {
    exists i | 0 <= i < |labels| :: Closes(options, labels[i])
  }

  /** A list that may fire once and has something to call with is locked. */
  ghost predicate OnceIsLocked(s: State) {
    s.options.once && (s.memory.Some? || s.firing) ==> s.locked
  }

  lemma StepLocks(s: State, l: Label)
    requires OnceIsLocked(s)
    ensures OnceIsLocked(Step(s, l))
    ensures Step(s, l).locked <==> s.locked || Closes(s.options, l)
  {
    match l
    case Add(fns) =>
      PushFrame(s, fns);
      if s.live && s.memory.Some? && !s.firing {
        AdvanceFrame(CatchUp(s, Push(s, fns)));
      }
    case FireWith(args) =>
      if !s.locked && !s.firing {
        AdvanceFrame(NextRound(Fire(s.(queue := s.queue + [args], trace := s.trace.Enqueue(args)))));
      }
    case Return(wasFalse) =>
      if s.firing {
        AdvanceFrame(s);
        AdvanceFrame(s.(firingIndex := |s.list|, memory := None));
      }
    case _ =>
  }

  lemma ClosedNext(options: Options, labels: seq<Label>)
    requires labels != []
    ensures
      var n := |labels| - 1;
      Closed(options, labels) <==> Closed(options, labels[..n]) || Closes(options, labels[n])
  {
    var n := |labels| - 1;
    if Closed(options, labels[..n]) {
      var i :| 0 <= i < n && Closes(options, labels[..n][i]);
      assert Closes(options, labels[i]);
    }
    if i :| 0 <= i <= n && Closes(options, labels[i]) {
      if i < n {
        assert Closes(options, labels[..n][i]);
      }
    }
  }

  lemma {:induction false} LockedExactlyWhen(options: Options, labels: seq<Label>)
    ensures Run(options, labels).locked <==> Closed(options, labels)
    ensures OnceIsLocked(Run(options, labels))
  {
    if labels != [] {
      var n := |labels| - 1;
      RunNext(Init(options), labels);
      RunOptions(options, labels[..n]);
      LockedExactlyWhen(options, labels[..n]);
      StepLocks(Run(options, labels[..n]), labels[n]);
      ClosedNext(options, labels);
    }
  }

  // ----- which fire calls get a round -----

  /** A round with the arguments of a fire call, or again with the last ones. */
  datatype Round = Round(args: Args, again: bool)

  /** An idle list that remembers arguments. */
  predicate Remembers(s: State) {
    s.live && !s.firing && s.memory.Some?
  }

  /** The rounds of a run, begun or to come: one for each fire call on a list not closed, queued or not; one more
      with the last arguments for each add call on a list that remembers; those still queued are dropped by
      locking and disabling. */
  function RoundsOf(options: Options, labels: seq<Label>): seq<Round> {
    if labels == [] then []
    else
      var n := |labels| - 1;
      var before, s := RoundsOf(options, labels[..n]), Run(options, labels[..n]);
      match labels[n]
      case FireWith(args) => if s.locked then before else before + [Round(args, false)]
      case Add(_) =>
        if Remembers(s) && before != [] then before + [Round(before[|before| - 1].args, true)] else before
      case Lock => if s.trace.round <= |before| then before[..s.trace.round] else before
      case Disable => if s.trace.round <= |before| then before[..s.trace.round] else before
      case _ => before
  }

  function ArgsOf(rounds: seq<Round>): (r: seq<Args>)
    ensures |r| == |rounds|
  {
    seq(|rounds|, i requires 0 <= i < |rounds| => rounds[i].args)
  }

  lemma StepFires(s: State, l: Label)
    requires Inv(s)
    ensures
      var fires := Step(s, l).trace.fires;
      match l
      case FireWith(args) => fires == if s.locked then s.trace.fires else s.trace.fires + [args]
      case Add(_) => fires == s.trace.fires + if Remembers(s) then [s.memory.value] else []
      case Lock => fires == s.trace.fires[..s.trace.round]
      case Disable => fires == s.trace.fires[..s.trace.round]
      case _ => fires == s.trace.fires
  {
    match l
    case Add(fns) =>
      PushFrame(s, fns);
      if Remembers(s) {
        AdvanceFrame(CatchUp(s, Push(s, fns)));
      }
    case FireWith(args) =>
      if !s.locked && !s.firing {
        AdvanceFrame(NextRound(Fire(s.(queue := s.queue + [args], trace := s.trace.Enqueue(args)))));
      }
    case Return(wasFalse) =>
      if s.firing {
        AdvanceFrame(s);
        AdvanceFrame(s.(firingIndex := |s.list|, memory := None));
      }
    case _ =>
  }

  /** Over every run, the rounds are those. */
  lemma {:induction false} FiresAreRounds(options: Options, labels: seq<Label>)
    ensures Run(options, labels).trace.fires == ArgsOf(RoundsOf(options, labels))
  {
    if labels != [] {
      var n := |labels| - 1;
      var s := Run(options, labels[..n]);
      RunNext(Init(options), labels);
      FiresAreRounds(options, labels[..n]);
      Reachable(options, labels[..n]);
      StepFires(s, labels[n]);
      var before := RoundsOf(options, labels[..n]);
      match labels[n]
      case FireWith(args) => ArgsNext(before, Round(args, false));
      case Add(_) =>
        if before != [] { ArgsNext(before, Round(before[|before| - 1].args, true)); }
      case _ =>
    }
  }

  /** The arguments of the fire calls. */
  function Asked(labels: seq<Label>): seq<Args> {
    if labels == [] then []
    else
      var n := |labels| - 1;
      Asked(labels[..n]) + if labels[n].FireWith? then [labels[n].args] else []
  }

  function FirstTimes(rounds: seq<Round>): seq<Args> {
    if rounds == [] then []
    else
      var n := |rounds| - 1;
      FirstTimes(rounds[..n]) + if rounds[n].again then [] else [rounds[n].args]
  }

  lemma FirstTimesNext(rounds: seq<Round>, r: Round)
    ensures FirstTimes(rounds + [r]) == FirstTimes(rounds) + if r.again then [] else [r.args]
  {
    assert (rounds + [r])[..|rounds|] == rounds;
  }

  ghost predicate NeverClosed(options: Options, labels: seq<Label>) {
    !options.once && forall i | 0 <= i < |labels| :: !labels[i].Lock? && !labels[i].Disable?
  }

  lemma ArgsNext(rounds: seq<Round>, r: Round)
    ensures ArgsOf(rounds + [r]) == ArgsOf(rounds) + [r.args]
  {
  }

  /** What one more label does to the rounds of a list never closed. */
  lemma RoundsNext(options: Options, labels: seq<Label>)
    requires NeverClosed(options, labels) && labels != []
    ensures
      var n := |labels| - 1;
      var before, now := RoundsOf(options, labels[..n]), RoundsOf(options, labels);
      if labels[n].FireWith? then now == before + [Round(labels[n].args, false)]
      else now == before || (options.memory && exists args :: now == before + [Round(args, true)])
  {
    var n := |labels| - 1;
    LockedExactlyWhen(options, labels[..n]);
    if !options.memory {
      ForgetsWithoutMemory(options, labels[..n]);
    }
  }

  lemma {:induction false} RoundsAreAsked(options: Options, labels: seq<Label>)
    requires NeverClosed(options, labels)
    ensures FirstTimes(RoundsOf(options, labels)) == Asked(labels)
    ensures !options.memory ==> ArgsOf(RoundsOf(options, labels)) == Asked(labels)
  {
    if labels != [] {
      var n := |labels| - 1;
      var before, now := RoundsOf(options, labels[..n]), RoundsOf(options, labels);
      RoundsAreAsked(options, labels[..n]);
      RoundsNext(options, labels);
      if labels[n].FireWith? {
        FirstTimesNext(before, Round(labels[n].args, false));
        ArgsNext(before, Round(labels[n].args, false));
      } else if now != before {
        var args :| now == before + [Round(args, true)];
        FirstTimesNext(before, Round(args, true));
      }
    }
  }

  /** Over every run of a list never closed: leaving out the repetitions for added callbacks, the rounds are
      exactly the fire calls in order, those made while firing included; without memory there are no
      repetitions; and when the list is idle every one has had its round. */
  lemma EveryFireHasItsRound(options: Options, labels: seq<Label>)
    requires NeverClosed(options, labels)
    ensures
      var s := Run(options, labels);
      && s.trace.fires == ArgsOf(RoundsOf(options, labels))
      && FirstTimes(RoundsOf(options, labels)) == Asked(labels)
      && (!options.memory ==> s.trace.fires == Asked(labels))
      && (!s.firing ==> s.trace.round == |s.trace.fires|)
  {
    FiresAreRounds(options, labels);
    RoundsAreAsked(options, labels);
    Reachable(options, labels);
  }

  // ----- memory -----

  lemma {:induction false} AdvanceForgets(s: State)
    requires !s.options.memory && s.firing
    ensures !Advance(s).firing ==> Advance(s).memory.None?
    decreases |s.queue|
  {
    if !(-1 <= s.firingIndex && s.firingIndex + 1 < |s.list| && s.memory.Some?) && s.queue != [] {
      AdvanceForgets(NextRound(s));
    }
  }

  /** An idle list without the memory option remembers nothing. */
  lemma {:induction false} ForgetsWithoutMemory(options: Options, labels: seq<Label>)
    requires !options.memory
    ensures !Run(options, labels).firing ==> Run(options, labels).memory.None?
  {
    if labels != [] {
      var n := |labels| - 1;
      var s := Run(options, labels[..n]);
      RunNext(Init(options), labels);
      RunOptions(options, labels[..n]);
      ForgetsWithoutMemory(options, labels[..n]);
      match labels[n]
      case Add(fns) => PushFrame(s, fns);
      case FireWith(args) =>
        if !s.locked && !s.firing {
          AdvanceForgets(NextRound(Fire(s.(queue := s.queue + [args], trace := s.trace.Enqueue(args)))));
        }
      case Return(wasFalse) =>
        if s.firing {
          AdvanceForgets(s);
          AdvanceForgets(s.(firingIndex := |s.list|, memory := None));
        }
      case _ =>
    }
  }

  /** Once it has begun a round, the list has arguments. */
  ghost predicate Keeps(s: State) {
    s.trace.round >= 1 ==> s.memory.Some?
  }

  lemma {:induction false} AdvanceRemembers(s: State)
    requires s.options.memory && Keeps(s)
    ensures Keeps(Advance(s))
    decreases |s.queue|
  {
    if !(-1 <= s.firingIndex && s.firingIndex + 1 < |s.list| && s.memory.Some?) && s.queue != [] {
      AdvanceRemembers(NextRound(s));
    }
  }

  lemma StepRemembers(s: State, l: Label)
    requires s.options.memory && !s.options.stopOnFalse && Keeps(s) && !l.Disable?
    ensures Keeps(Step(s, l))
  {
    match l
    case Add(fns) =>
      PushFrame(s, fns);
      if Remembers(s) {
        AdvanceRemembers(CatchUp(s, Push(s, fns)));
      }
    case FireWith(args) =>
      if !s.locked && !s.firing {
        AdvanceRemembers(NextRound(Fire(s.(queue := s.queue + [args], trace := s.trace.Enqueue(args)))));
      }
    case Return(wasFalse) =>
      if s.firing {
        AdvanceRemembers(s);
      }
    case _ =>
  }

  lemma {:induction false} RunRemembers(options: Options, labels: seq<Label>)
    requires options.memory && !options.stopOnFalse
    requires forall i | 0 <= i < |labels| :: !labels[i].Disable?
    ensures Keeps(Run(options, labels))
  {
    if labels != [] {
      var n := |labels| - 1;
      RunNext(Init(options), labels);
      RunOptions(options, labels[..n]);
      RunRemembers(options, labels[..n]);
      StepRemembers(Run(options, labels[..n]), labels[n]);
    }
  }

  /** A list with the memory option that was never disabled, nor stopped by a callback, remembers the arguments of
      its last round. */
  lemma RemembersLast(options: Options, labels: seq<Label>)
    requires options.memory && !options.stopOnFalse
    requires forall i | 0 <= i < |labels| :: !labels[i].Disable?
    ensures
      var s := Run(options, labels);
      s.trace.round >= 1 ==> s.trace.round <= |s.trace.fires| && s.memory == Some(s.trace.fires[s.trace.round - 1])
  {
    RunRemembers(options, labels);
    Reachable(options, labels);
  }

  // ----- disabling, and returning false -----

  ghost predicate Spent(s: State) {
    !s.live && s.locked && s.list == [] && s.queue == [] && s.memory.None?
  }

  /** After disabling, nothing is ever called. */
  lemma {:induction false} SpentStays(s: State, labels: seq<Label>)
    requires Spent(s)
    ensures RunFrom(s, labels).trace.calls == s.trace.calls
    decreases |labels|
  {
    if labels != [] {
      SpentStays(Step(s, labels[0]), labels[1..]);
    }
  }

  lemma DisabledNeverCalls(s: State, labels: seq<Label>)
    ensures RunFrom(Step(s, Disable), labels).trace.calls == s.trace.calls
  {
    SpentStays(Step(s, Disable), labels);
  }

  /** When a callback of a `stopOnFalse` list returns false, its round is over, for entries added later too: the
      next call, if there is one, is of a later round. */
  lemma FalseEndsRound(s: State)
    requires Inv(s) && s.firing && s.options.stopOnFalse
    ensures
      var t := Step(s, Return(true));
      && (t.trace.calls == s.trace.calls ||
          (|t.trace.calls| == |s.trace.calls| + 1 && t.trace.calls[|s.trace.calls|].round > s.trace.round))
      && (s.queue == [] ==> !t.firing && t.memory.None? && t.trace.calls == s.trace.calls)
  {
    var u := s.(firingIndex := |s.list|, memory := None);
    if s.queue != [] {
      AdvanceCalls(NextRound(u));
    }
  }

  // ----- progress -----

  function CallOf(e: Entry, args: Args, round: nat): Call {
    Call(e.id, e.fn, args, round)
  }

  /** A fire call on an idle list that is not locked calls its first entry with the arguments. */
  lemma FireCallsFirst(s: State, args: Args)
    requires Inv(s) && !s.firing && !s.locked && s.list != []
    ensures
      var t := Step(s, FireWith(args));
      t.firing && t.list == s.list && t.trace.calls == s.trace.calls + [CallOf(s.list[0], args, t.trace.round)]
  {
    assert s.queue + [args] == [args];
  }

  /** The return of a callback calls the next entry; after the last entry, the list turns to the next queued round;
      after the last round, it is idle. */
  lemma ReturnGoesOn(s: State)
    requires Inv(s) && s.firing && s.live
    ensures
      var t := Step(s, Return(false));
      if s.firingIndex + 1 < |s.list| then
        && t.firing && t.list == s.list && t.firingIndex == s.firingIndex + 1 && t.queue == s.queue
        && t.live && t.trace.round == s.trace.round && t.memory == s.memory
        && t.trace.calls == s.trace.calls + [CallOf(s.list[s.firingIndex + 1], s.memory.value, s.trace.round)]
      else if s.queue == [] then !t.firing && t.trace.calls == s.trace.calls
      else t.trace.round > s.trace.round
  {
    if s.firingIndex + 1 >= |s.list| && s.queue != [] {
      AdvanceCalls(NextRound(s));
    }
  }

  function Returning(n: nat): (r: seq<Label>)
    ensures |r| == n
  {
    seq(n, _ => Return(false))
  }

  /** The entries from index `i` on, called in order. */
  function CallsFrom(list: seq<Entry>, i: nat, args: Args, round: nat): seq<Call>
    decreases |list| - i
  {
    if i >= |list| then [] else [CallOf(list[i], args, round)] + CallsFrom(list, i + 1, args, round)
  }

  lemma RunReturning(s: State, n: nat)
    requires n > 0
    ensures RunFrom(s, Returning(n)) == RunFrom(Step(s, Return(false)), Returning(n - 1))
  {
    var labels := Returning(n);
    assert labels[0] == Return(false) && labels[1..] == Returning(n - 1);
  }

  lemma CallsFromNext(calls: seq<Call>, list: seq<Entry>, i: nat, args: Args, round: nat)
    requires i < |list|
    ensures calls + CallsFrom(list, i, args, round) ==
            (calls + [CallOf(list[i], args, round)]) + CallsFrom(list, i + 1, args, round)
  {
  }

  /** Firing its last round. */
  predicate LastRound(s: State) {
    s.firing && s.memory.Some? && s.queue == [] && -1 <= s.firingIndex < |s.list|
  }

  lemma InLastRound(s: State)
    requires Inv(s) && s.firing && s.live && s.queue == []
    ensures LastRound(s)
  {
  }

  lemma LastRoundGoesOn(s: State)
    requires LastRound(s)
    ensures
      var t := Step(s, Return(false));
      if s.firingIndex + 1 < |s.list| then
        && LastRound(t) && t.list == s.list && t.firingIndex == s.firingIndex + 1
        && t.trace.round == s.trace.round && t.memory == s.memory
        && t.trace.calls == s.trace.calls + [CallOf(s.list[s.firingIndex + 1], s.memory.value, s.trace.round)]
      else !t.firing && t.trace.calls == s.trace.calls
  {
  }

  /** If callbacks do nothing but return and nothing is queued, the rest of the list is called in order, and then
      the list is idle. */
  lemma {:induction false} ReturningFinishes(s: State)
    requires LastRound(s)
    ensures
      var t := RunFrom(s, Returning(|s.list| - s.firingIndex));
      && !t.firing
      && t.trace.calls == s.trace.calls + CallsFrom(s.list, s.firingIndex + 1, s.memory.value, s.trace.round)
    decreases |s.list| - s.firingIndex
  {
    RunReturning(s, |s.list| - s.firingIndex);
    LastRoundGoesOn(s);
    if s.firingIndex + 1 < |s.list| {
      CallsFromNext(s.trace.calls, s.list, s.firingIndex + 1, s.memory.value, s.trace.round);
      ReturningFinishes(Step(s, Return(false)));
    } else {
      assert Returning(0) == [];
    }
  }

  /** A list has been fired exactly if a fire call came while it was not closed. */
  ghost predicate Accepted(options: Options, labels: seq<Label>) {
    labels != [] &&
    var n := |labels| - 1;
    Accepted(options, labels[..n]) || (labels[n].FireWith? && !Closed(options, labels[..n]))
  }

  ghost predicate BusyIsFired(s: State) {
    s.memory.Some? || s.firing ==> s.fired
  }

  lemma {:induction false} AdvanceFired(s: State)
    requires s.fired
    ensures Advance(s).fired
    decreases |s.queue|
  {
    if !(-1 <= s.firingIndex && s.firingIndex + 1 < |s.list| && s.memory.Some?) && s.queue != [] {
      AdvanceFired(NextRound(s));
    }
  }

  lemma StepFired(s: State, l: Label)
    requires BusyIsFired(s)
    ensures BusyIsFired(Step(s, l)) && (Step(s, l).fired <==> s.fired || (l.FireWith? && !s.locked))
  {
    match l
    case Add(fns) =>
      PushFrame(s, fns);
      if Remembers(s) {
        AdvanceFired(CatchUp(s, Push(s, fns)));
      }
    case FireWith(args) =>
      if !s.locked && !s.firing {
        AdvanceFired(NextRound(Fire(s.(queue := s.queue + [args], trace := s.trace.Enqueue(args)))));
      }
    case Return(wasFalse) =>
      if s.firing {
        AdvanceFired(s);
        AdvanceFired(s.(firingIndex := |s.list|, memory := None));
      }
    case _ =>
  }

  lemma {:induction false} FiredExactlyWhen(options: Options, labels: seq<Label>)
    ensures Run(options, labels).fired <==> Accepted(options, labels)
    ensures BusyIsFired(Run(options, labels))
  {
    if labels != [] {
      var n := |labels| - 1;
      RunNext(Init(options), labels);
      LockedExactlyWhen(options, labels[..n]);
      FiredExactlyWhen(options, labels[..n]);
      StepFired(Run(options, labels[..n]), labels[n]);
    }
  }

  // ----- which function a registration is of -----

  /** The functions that an add call registers on a list of `known` functions. */
  function Taken(known: seq<Fn>, fns: seq<Fn>, unique: bool): seq<Fn>
    decreases |fns|
  {
    if fns == [] then []
    else if unique && fns[0] in known then Taken(known, fns[1..], unique)
    else [fns[0]] + Taken(known + [fns[0]], fns[1..], unique)
  }

  lemma {:induction false} TakenAll(known: seq<Fn>, fns: seq<Fn>)
    ensures Taken(known, fns, false) == fns
    decreases |fns|
  {
    if fns != [] {
      TakenAll(known + [fns[0]], fns[1..]);
    }
  }

  function FnsOf(list: seq<Entry>): (r: seq<Fn>)
    ensures |r| == |list|
  {
    seq(|list|, i requires 0 <= i < |list| => list[i].fn)
  }

  /** The functions registered in a run, in order. */
  function Registered(options: Options, labels: seq<Label>): seq<Fn> {
    if labels == [] then []
    else
      var n := |labels| - 1;
      var s := Run(options, labels[..n]);
      Registered(options, labels[..n]) +
      if labels[n].Add? && s.live then Taken(FnsOf(s.list), labels[n].fns, options.unique) else []
  }

  /** Every entry and every call is of the function registered under its number. */
  ghost predicate Told(list: seq<Entry>, calls: seq<Call>, nextId: nat, reg: seq<Fn>) {
    && nextId == |reg|
    && (forall i | 0 <= i < |list| :: list[i].id < |reg| && list[i].fn == reg[list[i].id])
    && (forall i | 0 <= i < |calls| :: calls[i].id < |reg| && calls[i].fn == reg[calls[i].id])
  }

  ghost predicate Tells(s: State, reg: seq<Fn>) {
    Told(s.list, s.trace.calls, s.nextId, reg)
  }

  lemma FnsNext(list: seq<Entry>, e: Entry)
    ensures FnsOf(list + [e]) == FnsOf(list) + [e.fn]
  {
  }

  lemma HasIffIn(list: seq<Entry>, fn: Fn)
    ensures HasFn(list, fn) <==> fn in FnsOf(list)
  {
    if HasFn(list, fn) {
      var i :| 0 <= i < |list| && list[i].fn == fn;
      assert FnsOf(list)[i] == fn;
    }
  }

  lemma {:induction false} PushTells(s: State, fns: seq<Fn>, reg: seq<Fn>)
    requires Tells(s, reg)
    ensures Tells(Push(s, fns), reg + Taken(FnsOf(s.list), fns, s.options.unique))
    decreases |fns|
  {
    if fns == [] {
      assert reg + [] == reg;
    } else {
      HasIffIn(s.list, fns[0]);
      if s.options.unique && HasFn(s.list, fns[0]) {
        PushTells(s, fns[1..], reg);
      } else {
        var e := Entry(s.nextId, fns[0]);
        var t := s.(list := s.list + [e], nextId := s.nextId + 1);
        FnsNext(s.list, e);
        assert (reg + [fns[0]])[..|reg|] == reg;
        PushTells(t, fns[1..], reg + [fns[0]]);
        var more := Taken(FnsOf(t.list), fns[1..], s.options.unique);
        assert (reg + [fns[0]]) + more == reg + ([fns[0]] + more);
      }
    }
  }

  lemma {:induction false} AdvanceTells(s: State, reg: seq<Fn>)
    requires Tells(s, reg)
    ensures Tells(Advance(s), reg)
    decreases |s.queue|
  {
    if !(-1 <= s.firingIndex && s.firingIndex + 1 < |s.list| && s.memory.Some?) && s.queue != [] {
      AdvanceTells(NextRound(s), reg);
    }
  }

  lemma {:induction false} WithoutTells(list: seq<Entry>, fn: Fn, calls: seq<Call>, nextId: nat, reg: seq<Fn>)
    requires Told(list, calls, nextId, reg)
    ensures Told(Without(list, fn), calls, nextId, reg)
  {
    if list != [] {
      WithoutTells(list[..|list| - 1], fn, calls, nextId, reg);
    }
  }

  lemma StepTells(s: State, l: Label, reg: seq<Fn>)
    requires Tells(s, reg)
    ensures Tells(Step(s, l), reg + if l.Add? && s.live then Taken(FnsOf(s.list), l.fns, s.options.unique) else [])
  {
    assert reg + [] == reg;
    match l
    case Add(fns) =>
      if s.live {
        var t := Push(s, fns);
        PushTells(s, fns, reg);
        PushFrame(s, fns);
        if s.memory.Some? && !s.firing {
          AdvanceTells(CatchUp(s, t), reg + Taken(FnsOf(s.list), fns, s.options.unique));
        }
      }
    case Remove(fn) =>
      WithoutTells(s.list, fn, s.trace.calls, s.nextId, reg);
    case FireWith(args) =>
      if !s.locked && !s.firing {
        AdvanceTells(NextRound(Fire(s.(queue := s.queue + [args], trace := s.trace.Enqueue(args)))), reg);
      }
    case Return(wasFalse) =>
      if s.firing {
        AdvanceTells(s, reg);
        AdvanceTells(s.(firingIndex := |s.list|, memory := None), reg);
      }
    case _ =>
  }

  /** Over every run, every call is of the function that the add calls registered under its number. */
  lemma {:induction false} CallsAreRegistered(options: Options, labels: seq<Label>)
    ensures Tells(Run(options, labels), Registered(options, labels))
  {
    if labels != [] {
      var n := |labels| - 1;
      RunNext(Init(options), labels);
      RunOptions(options, labels[..n]);
      CallsAreRegistered(options, labels[..n]);
      StepTells(Run(options, labels[..n]), labels[n], Registered(options, labels[..n]));
    }
  }

  ghost predicate NoneTwice(fns: seq<Fn>) {
    forall i, j | 0 <= i < j < |fns| :: fns[i] != fns[j]
  }

  lemma {:induction false} PushUnique(s: State, fns: seq<Fn>)
    requires s.options.unique && NoneTwice(FnsOf(s.list))
    ensures NoneTwice(FnsOf(Push(s, fns).list))
    decreases |fns|
  {
    if fns != [] {
      HasIffIn(s.list, fns[0]);
      if HasFn(s.list, fns[0]) {
        PushUnique(s, fns[1..]);
      } else {
        FnsNext(s.list, Entry(s.nextId, fns[0]));
        PushUnique(s.(list := s.list + [Entry(s.nextId, fns[0])], nextId := s.nextId + 1), fns[1..]);
      }
    }
  }

  lemma {:induction false} WithoutUnique(list: seq<Entry>, fn: Fn)
    requires NoneTwice(FnsOf(list))
    ensures NoneTwice(FnsOf(Without(list, fn)))
    ensures forall f | f in FnsOf(Without(list, fn)) :: f in FnsOf(list)
  {
    if list != [] {
      var n := |list| - 1;
      assert forall i | 0 <= i < n :: FnsOf(list[..n])[i] == FnsOf(list)[i];
      WithoutUnique(list[..n], fn);
      assert FnsOf(list)[n] == list[n].fn;
      if list[n].fn != fn {
        FnsNext(Without(list[..n], fn), list[n]);
        assert list[n].fn !in FnsOf(list[..n]);
      } else {
        assert Without(list, fn) == Without(list[..n], fn);
      }
    }
  }

  /** Over every run, a list with the unique option never holds a function twice. */
  lemma {:induction false} UniqueHoldsNoneTwice(options: Options, labels: seq<Label>)
    requires options.unique
    ensures NoneTwice(FnsOf(Run(options, labels).list))
  {
    if labels != [] {
      var n := |labels| - 1;
      var s := Run(options, labels[..n]);
      RunNext(Init(options), labels);
      RunOptions(options, labels[..n]);
      UniqueHoldsNoneTwice(options, labels[..n]);
      match labels[n]
      case Add(fns) =>
        PushUnique(s, fns);
        PushFrame(s, fns);
        if Remembers(s) {
          AdvanceFrame(CatchUp(s, Push(s, fns)));
        }
      case Remove(fn) => WithoutUnique(s.list, fn);
      case FireWith(args) =>
        if !s.locked && !s.firing {
          AdvanceFrame(NextRound(Fire(s.(queue := s.queue + [args], trace := s.trace.Enqueue(args)))));
        }
      case Return(wasFalse) =>
        if s.firing {
          AdvanceFrame(s);
          AdvanceFrame(s.(firingIndex := |s.list|, memory := None));
        }
      case _ =>
    }
  }
}
