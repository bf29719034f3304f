/**
 The callback list object: fields updated in place by its methods, each proved to take the step of
 `CallbackList` of the same name. `Resume` is the part of `fire` from one callback to the next.
 */
module Callbacks {
  import opened Prelude
  import opened CallbackList

  lemma WithoutNext(orig: seq<Entry>, fn: Fn, k: nat)
    requires k < |orig|
    ensures Without(orig[..k + 1], fn) == Without(orig[..k], fn) + if orig[k].fn == fn then [] else [orig[k]]
  {
    assert orig[..k + 1][..k] == orig[..k];
  }

  lemma {:induction false} WithoutGrows(orig: seq<Entry>, fn: Fn, m: nat, k: nat)
    requires m <= k <= |orig|
    ensures |Without(orig[..m], fn)| <= |Without(orig[..k], fn)|
    decreases k - m
  {
    if m < k {
      WithoutNext(orig, fn, k - 1);
      WithoutGrows(orig, fn, m, k - 1);
    }
  }

  /** The first `k` entries of the original list have been dealt with. */
  ghost predicate Removing(orig: seq<Entry>, fn: Fn, firing: int, k: nat,
                           list: seq<Entry>, index: nat, firingIndex: int)
  {
    && k <= |orig| && index == |Without(orig[..k], fn)|
    && list == Without(orig[..k], fn) + orig[k..]
    && firingIndex == firing - Removed(orig, fn, if k <= Passed(orig, firing) then k else Passed(orig, firing))
  }

  lemma KeepOne(orig: seq<Entry>, fn: Fn, firing: int, k: nat, list: seq<Entry>, index: nat, firingIndex: int)
    requires Removing(orig, fn, firing, k, list, index, firingIndex) && index < |list| && list[index].fn != fn
    ensures Removing(orig, fn, firing, k + 1, list, index + 1, firingIndex)
  {
    WithoutNext(orig, fn, k);
    assert orig[k..] == [orig[k]] + orig[k + 1..];
  }

  lemma DropOne(orig: seq<Entry>, fn: Fn, firing: int, k: nat, list: seq<Entry>, index: nat, firingIndex: int)
    requires Removing(orig, fn, firing, k, list, index, firingIndex) && index < |list| && list[index].fn == fn
    ensures Removing(orig, fn, firing, k + 1, list[..index] + list[index + 1..], index,
                     if index <= firingIndex then firingIndex - 1 else firingIndex)
  {
    WithoutNext(orig, fn, k);
    assert list[..index] == Without(orig[..k], fn) && list[index + 1..] == orig[k + 1..];
    var passed := Passed(orig, firing);
    if passed <= k {
      WithoutGrows(orig, fn, passed, k);
    }
  }

  lemma RemovingBegins(orig: seq<Entry>, fn: Fn, firing: int)
    ensures Removing(orig, fn, firing, 0, orig, 0, firing)
  {
    assert orig[..0] == [];
  }

  lemma RemovingEnds(orig: seq<Entry>, fn: Fn, firing: int, k: nat, list: seq<Entry>, index: nat, firingIndex: int)
    requires Removing(orig, fn, firing, k, list, index, firingIndex) && index >= |list|
    ensures list == Without(orig, fn)
    ensures firingIndex == firing - Removed(orig, fn, Passed(orig, firing))
  {
    assert orig[..k] == orig;
  }

  /** Splices out every registration of `fn`, moving the firing index along. */
  method RemoveFrom(orig: seq<Entry>, fn: Fn, firing: int) returns (list: seq<Entry>, firingIndex: int)
    ensures list == Without(orig, fn)
    ensures firingIndex == firing - Removed(orig, fn, Passed(orig, firing))
  {
    list, firingIndex := orig, firing;
    var index := 0;
    ghost var k := 0;
    RemovingBegins(orig, fn, firing);
    while index < |list|
      invariant Removing(orig, fn, firing, k, list, index, firingIndex)
      decreases |list| - index
    {
      if list[index].fn == fn {
        DropOne(orig, fn, firing, k, list, index, firingIndex);
        list := list[..index] + list[index + 1..];
        if index <= firingIndex {
          firingIndex := firingIndex - 1;
        }
      } else {
        KeepOne(orig, fn, firing, k, list, index, firingIndex);
        index := index + 1;
      }
      k := k + 1;
    }
    RemovingEnds(orig, fn, firing, k, list, index, firingIndex);
  }

  /** `fire` has taken the first arguments from the queue. */
  ghost function Started(s: State): State
    requires s.queue != []
  {
    Fire(s).(memory := Some(s.queue[0]), queue := s.queue[1..])
  }

  class Callbacks {
    const options: Options
    var list: seq<Entry>
    var live: bool
    var queue: seq<Args>
    var firing: bool
    var fired: bool
    var locked: bool
    var firingIndex: int
    var memory: Option<Args>
    var nextId: nat
    ghost var trace: Trace

    ghost function View(): State
      reads this
    {
      State(options, list, live, queue, firing, fired, locked, firingIndex, memory, nextId, trace)
    }

    constructor (options: Options)
      ensures View() == Init(options)
    {
      this.options := options;
      list, live, queue := [], true, [];
      firing, fired, locked := false, false, false;
      firingIndex, memory, nextId := -1, None, 0;
      trace := Trace([], 0, [], 0, map[], 0);
    }

    /** Goes on to the first queued round that has an entry to call, if there is one. */
    method SkipRounds()
      requires firing && firingIndex >= -1 && (memory.Some? || firingIndex + 1 >= |list|)
      modifies this`firingIndex, this`memory, this`queue, this`trace
      ensures Advance(View()) == Advance(old(View()))
      ensures firingIndex >= -1 && (memory.Some? || firingIndex + 1 >= |list|)
      ensures firingIndex + 1 < |list| || queue == []
    {
      while firingIndex + 1 >= |list| && queue != []
        invariant firingIndex >= -1 && (memory.Some? || firingIndex + 1 >= |list|)
        invariant Advance(View()) == Advance(old(View()))
        decreases |queue|
      {
        ghost var s := View();
        firingIndex := -1;
        memory := Some(queue[0]);
        queue := queue[1..];
        trace := trace.BeginRound();
        assert View() == NextRound(s);
      }
    }

    /** The end of `fire`. */
    method End()
      modifies this
      ensures View() == Finish(old(View()))
    {
      if !options.memory {
        memory := None;
      }
      firing := false;
      firingIndex := -1;
      if locked {
        list := [];
        live := memory.Some?;
      }
    }

    /** Runs the loops of `fire` up to the next callback, which is returned, or to the end. */
    method Resume() returns (next: Option<Fn>)
      requires firing && firingIndex >= -1 && (memory.Some? || firingIndex + 1 >= |list|)
      modifies this
      ensures View() == Advance(old(View()))
      ensures next.Some? <==> firing
      ensures firing ==> 0 <= firingIndex < |list| && next == Some(list[firingIndex].fn)
    {
      SkipRounds();
      if firingIndex + 1 < |list| {
        firingIndex := firingIndex + 1;
        var e := list[firingIndex];
        trace := trace.Record(e, memory.value);
        next := Some(e.fn);
      } else {
        End();
        next := None;
      }
    }

    /** The start of `fire`: takes the first arguments from the queue and runs to the next callback. */
    method StartFire()
      requires queue != [] && firingIndex >= -1
      modifies this
      ensures View() == Advance(Started(old(View())))
    {
      ghost var s := View();
      locked := locked || options.once;
      fired, firing := true, true;
      memory := Some(queue[0]);
      queue := queue[1..];
      assert View() == Started(s);
      var _ := Resume();
    }

    /** Appends the functions that are not skipped by `unique`. */
    method PushAll(fns: seq<Fn>)
      modifies this`list, this`nextId
      ensures View() == Push(old(View()), fns)
    {
      var i := 0;
      assert fns[0..] == fns;
      while i < |fns|
        invariant 0 <= i <= |fns|
        invariant Push(View(), fns[i..]) == Push(old(View()), fns)
      {
        assert fns[i..][1..] == fns[i + 1..];
        if !options.unique || !HasFn(list, fns[i]) {
          list := list + [Entry(nextId, fns[i])];
          nextId := nextId + 1;
        }
        i := i + 1;
      }
    }

    method AddAll(fns: seq<Fn>)
      modifies this
      ensures View() == DoAdd(old(View()), fns)
    {
      if live {
        var catchUp := memory.Some? && !firing;
        ghost var s := View();
        var last := |list| - 1;
        PushAll(fns);
        if catchUp {
          PushOnly(s, fns);
          firingIndex := last;
          queue := queue + [memory.value];
          trace := trace.Repeat(memory.value, s.nextId);
          assert Started(View()) == CatchUp(s, Push(s, fns));
          StartFire();
        }
      }
    }

    method RemoveFn(fn: Fn)
      modifies this`list, this`firingIndex
      ensures View() == DoRemove(old(View()), fn)
    {
      list, firingIndex := RemoveFrom(list, fn, firingIndex);
    }

    method Fires(args: Args)
      requires !firing ==> firingIndex == -1
      modifies this
      ensures View() == DoFireWith(old(View()), args)
    {
      if !locked {
        queue := queue + [args];
        trace := trace.Enqueue(args);
        if !firing {
          trace := trace.BeginRound();
          StartFire();
        }
      }
    }

    method LockAll()
      modifies this
      ensures View() == DoLock(old(View()))
    {
      locked := true;
      queue := [];
      trace := trace.DropQueued();
      if memory.None? && !firing {
        list, live := [], false;
      }
    }

    method DisableAll()
      modifies this
      ensures View() == DoDisable(old(View()))
    {
      locked := true;
      queue := [];
      trace := trace.DropQueued();
      list, live, memory := [], false, None;
    }

    /** The running callback returns. */
    method Returns(wasFalse: bool)
      requires firing && firingIndex >= -1 && (memory.Some? || firingIndex + 1 >= |list|)
      modifies this
      ensures View() == DoReturn(old(View()), wasFalse)
    {
      if wasFalse && options.stopOnFalse {
        firingIndex := |list|;
        memory := None;
      }
      var _ := Resume();
    }

    /** Any call, made from outside or from the running callback, takes its step from a reachable state to a
        reachable state. */
    method Take(l: Label)
      requires Inv(View())
      modifies this
      ensures View() == Step(old(View()), l) && Inv(View())
    {
      StepKeeps(View(), l);
      InvIsReady(View());
      match l
      case Add(fns) => AddAll(fns);
      case Remove(fn) => RemoveFn(fn);
      case FireWith(args) => Fires(args);
      case Lock => LockAll();
      case Disable => DisableAll();
      case Return(wasFalse) =>
        if firing {
          Returns(wasFalse);
        }
    }

    /** Any run. */
    method TakeAll(labels: seq<Label>)
      requires Inv(View())
      modifies this
      ensures View() == RunFrom(old(View()), labels) && Inv(View())
    {
      var i := 0;
      assert labels[0..] == labels;
      while i < |labels|
        invariant 0 <= i <= |labels| && Inv(View())
        invariant RunFrom(View(), labels[i..]) == RunFrom(old(View()), labels)
      {
        assert labels[i..][1..] == labels[i + 1..];
        Take(labels[i]);
        i := i + 1;
      }
    }
  }

  lemma {:induction false} PushOnly(s: State, fns: seq<Fn>)
    ensures Push(s, fns) == s.(list := Push(s, fns).list, nextId := Push(s, fns).nextId)
    ensures |Push(s, fns).list| >= |s.list|
    decreases |fns|
  {
    if fns != [] {
      if s.options.unique && HasFn(s.list, fns[0]) {
        PushOnly(s, fns[1..]);
      } else {
        PushOnly(s.(list := s.list + [Entry(s.nextId, fns[0])], nextId := s.nextId + 1), fns[1..]);
      }
    }
  }
}
