/**
 The promise resolution procedure behind `then`.

 A handler may return a thenable, whose `then` may call its two arguments any number of times, with
 further thenables, and may throw afterwards; it may also call functions handed to other thenables, further
 out or further in; and all of them may be called later. The code keeps only a depth counter; the
 reference waits for one level at a time and hears nothing else (sections 2.3.1 and 2.3.3 of Promises/A+).
 */
module PromiseResolution {

  datatype Value =
    | Plain(x: int)
    | Itself                              // the promise being resolved
    | Trap(x: int)                        // reading its `then` throws
    | Thenable(acts: seq<Act>, end: End)  // calling its `then` performs the acts, then ends

  /** A call of one of the two functions handed to the thenable of a level. */
  datatype Act = Act(level: nat, deed: Deed)

  datatype Deed = ResolveWith(v: Value) | RejectWith(x: int)

  datatype End = Returns | Throws(x: int)

  datatype Reason = Thrown(x: int) | SelfResolution

  datatype Outcome = Fulfilled(x: int) | Failed(reason: Reason)

  // ----- the reference -----

  /** Where a resolution stands: settled, or waiting for a call at a level. */
  datatype Verdict = Settled(outcome: Outcome) | Waits(level: nat)

  /** Beyond `level`: settled, or waiting for a deeper one. */
  predicate Past(w: Verdict, level: nat) {
    w.Waits? ==> w.level > level
  }

  /** Adopting a value at a level: a thenable is waited for at the next level while its `then` runs; an
      exception at the end counts if it is then still waited for there. */
  function Adopt(v: Value, level: nat): (w: Verdict)
    ensures Past(w, level)
    decreases v
  {
    match v
    case Plain(x) => Settled(Fulfilled(x))
    case Itself => Settled(Failed(SelfResolution))
    case Trap(x) => Settled(Failed(Thrown(x)))
    case Thenable(acts, end) =>
      var w := HearAll(Waits(level + 1), acts);
      if end.Throws? && w == Waits(level + 1) then Settled(Failed(Thrown(end.x))) else w
  }

  function Obey(deed: Deed, level: nat): (w: Verdict)
    ensures Past(w, level)
    decreases deed
  {
    match deed
    case ResolveWith(v) => Adopt(v, level)
    case RejectWith(x) => Settled(Failed(Thrown(x)))
  }

  /** Only a call at the level waited for is heard. */
  function Hear(w: Verdict, act: Act): (w': Verdict)
    ensures w'.Waits? ==> w.Waits? && w.level <= w'.level
    decreases act
  {
    if w == Waits(act.level) then Obey(act.deed, act.level) else w
  }

  function HearAll(w: Verdict, acts: seq<Act>): (w': Verdict)
    ensures w'.Waits? ==> w.Waits? && w.level <= w'.level
    decreases acts
  {
    if acts == [] then w
    else
      var n := |acts| - 1;
      Hear(HearAll(w, acts[..n]), acts[n])
  }

  datatype Handled = Returned(v: Value) | Threw(x: int)

  function Begin(h: Handled): Verdict {
    match h
    case Returned(v) => Adopt(v, 0)
    case Threw(x) => Settled(Failed(Thrown(x)))
  }

  // ----- what the reference hears, in one line of time -----

  /** What happens, in order: a call of a function handed out at a level, or the exception with which the `then` of
      the thenable of a level ends. */
  datatype Item = Call(act: Act) | Throw(level: nat, x: int)

  function Items(acts: seq<Act>): (r: seq<Item>)
    ensures |r| == |acts|
  {
    seq(|acts|, i requires 0 <= i < |acts| => Call(acts[i]))
  }

  predicate IsAt(item: Item, level: nat) {
    match item
    case Call(act) => act.level == level
    case Throw(l, _) => l == level
  }

  /** The index of the first item at a level, or the length if there is none. */
  function FirstAt(items: seq<Item>, level: nat): (i: nat)
    ensures i <= |items| && (i < |items| ==> IsAt(items[i], level))
    ensures forall j | 0 <= j < i :: !IsAt(items[j], level)
  {
    if items == [] then 0 else if IsAt(items[0], level) then 0 else 1 + FirstAt(items[1..], level)
  }

  /** Where the chain of heard calls ends: at a call that is not of a thenable, at an exception, or waiting. */
  datatype Last = Said(deed: Deed) | Exception(x: int) | Nobody(level: nat)

  function Weight(v: Value): nat
    decreases v
  {
    match v
    case Thenable(acts, _) => 2 + WeightAll(acts)
    case _ => 1
  }

  function WeightDeed(deed: Deed): nat
    decreases deed
  {
    match deed
    case ResolveWith(v) => 1 + Weight(v)
    case RejectWith(_) => 1
  }

  function WeightAct(act: Act): nat
    decreases act
  {
    WeightDeed(act.deed)
  }

  function WeightAll(acts: seq<Act>): nat
    decreases acts
  {
    if acts == [] then 0
    else
      var n := |acts| - 1;
      WeightAll(acts[..n]) + WeightAct(acts[n])
  }

  function WeightItems(items: seq<Item>): nat {
    if items == [] then 0
    else
      var n := |items| - 1;
      WeightItems(items[..n]) + if items[n].Call? then WeightDeed(items[n].act.deed) else 0
  }

  lemma {:induction false} WeightSplits(a: seq<Item>, b: seq<Item>)
    ensures WeightItems(a + b) == WeightItems(a) + WeightItems(b)
    decreases |b|
  {
    if b == [] {
      assert a + b == a;
    } else {
      var n := |b| - 1;
      assert (a + b)[..|a| + n] == a + b[..n] && (a + b)[|a| + n] == b[n];
      WeightSplits(a, b[..n]);
    }
  }

  lemma {:induction false} WeightOfItems(acts: seq<Act>)
    ensures WeightItems(Items(acts)) == WeightAll(acts)
  {
    if acts != [] {
      assert Items(acts)[..|acts| - 1] == Items(acts[..|acts| - 1]);
      WeightOfItems(acts[..|acts| - 1]);
    }
  }

  /** The agenda of a thenable's `then`: its acts, then its exception, if there is one. */
  function Agenda(acts: seq<Act>, end: End, level: nat): seq<Item> {
    Items(acts) + if end.Throws? then [Throw(level, end.x)] else []
  }

  lemma AgendaWeight(acts: seq<Act>, end: End, level: nat)
    ensures WeightItems(Agenda(acts, end, level)) == WeightAll(acts)
  {
    WeightOfItems(acts);
    if end.Throws? {
      assert [Throw(level, end.x)][..0] == [];
      WeightSplits(Items(acts), [Throw(level, end.x)]);
    } else {
      assert Items(acts) + [] == Items(acts);
    }
  }

  lemma ItemWeight(items: seq<Item>, i: nat)
    requires i < |items| && items[i].Call?
    ensures WeightItems(items) >= WeightDeed(items[i].act.deed) + WeightItems(items[i + 1..])
  {
    assert items == items[..i] + ([items[i]] + items[i + 1..]);
    WeightSplits(items[..i], [items[i]] + items[i + 1..]);
    WeightSplits([items[i]], items[i + 1..]);
    assert [items[i]][..0] == [];
  }

  /** Going on from a thenable to a call on its agenda or after it leaves less to follow. */
  lemma ChainShrinks(v: Value, level: nat, rest: seq<Item>, i: nat)
    requires v.Thenable?
    requires
      var all := Agenda(v.acts, v.end, level) + rest;
      i < |all| && all[i].Call?
    ensures
      var all := Agenda(v.acts, v.end, level) + rest;
      WeightDeed(all[i].act.deed) + WeightItems(all[i + 1..]) < WeightDeed(ResolveWith(v)) + WeightItems(rest)
  {
    var own := Agenda(v.acts, v.end, level);
    AgendaWeight(v.acts, v.end, level);
    WeightSplits(own, rest);
    ItemWeight(own + rest, i);
    assert Weight(v) == 2 + WeightAll(v.acts);
  }

  /** Follows the chain from a call at a level, `rest` being what happens afterwards: a thenable puts its agenda in
      front, and the next call heard is the first at the next level. */
  function LastHeard(deed: Deed, level: nat, rest: seq<Item>): Last
    decreases WeightDeed(deed) + WeightItems(rest)
  {
    if deed.ResolveWith? && deed.v.Thenable? then
      var own := Agenda(deed.v.acts, deed.v.end, level + 1);
      var all := own + rest;
      var i := FirstAt(all, level + 1);
      if i == |all| then Nobody(level + 1)
      else if all[i].Throw? then Exception(all[i].x)
      else
        ChainShrinks(deed.v, level + 1, rest, i);
        LastHeard(all[i].act.deed, level + 1, all[i + 1..])
    else Said(deed)
  }

  /** What a handler does counts as a call at level 0. */
  function First(h: Handled): Deed {
    match h
    case Returned(v) => ResolveWith(v)
    case Threw(x) => RejectWith(x)
  }

  /** The verdict fits the end of the chain: fulfilled with `x` exactly if that is the plain value `x`, failed with
      `x` exactly if it is a rejection, a trap or an exception of `x`. */
  predicate Fits(w: Verdict, last: Last) {
    match last
    case Said(ResolveWith(Plain(x))) => w == Settled(Fulfilled(x))
    case Said(ResolveWith(Itself)) => w == Settled(Failed(SelfResolution))
    case Said(ResolveWith(Trap(x))) => w == Settled(Failed(Thrown(x)))
    case Said(ResolveWith(Thenable(_, _))) => false
    case Said(RejectWith(x)) => w == Settled(Failed(Thrown(x)))
    case Exception(x) => w == Settled(Failed(Thrown(x)))
    case Nobody(level) => w == Waits(level)
  }

  function HearItem(w: Verdict, item: Item): Verdict {
    match item
    case Call(act) => Hear(w, act)
    case Throw(level, x) => if w == Waits(level) then Settled(Failed(Thrown(x))) else w
  }

  function HearItems(w: Verdict, items: seq<Item>): Verdict {
    if items == [] then w else HearItem(HearItems(w, items[..|items| - 1]), items[|items| - 1])
  }

  lemma {:induction false} HearItemsSplits(w: Verdict, a: seq<Item>, b: seq<Item>)
    ensures HearItems(w, a + b) == HearItems(HearItems(w, a), b)
    decreases |b|
  {
    if b == [] {
      assert a + b == a;
    } else {
      var n := |b| - 1;
      assert (a + b)[..|a| + n] == a + b[..n] && (a + b)[|a| + n] == b[n];
      HearItemsSplits(w, a, b[..n]);
    }
  }

  lemma {:induction false} HearItemsOfActs(w: Verdict, acts: seq<Act>)
    ensures HearItems(w, Items(acts)) == HearAll(w, acts)
  {
    if acts != [] {
      assert Items(acts)[..|acts| - 1] == Items(acts[..|acts| - 1]);
      HearItemsOfActs(w, acts[..|acts| - 1]);
    }
  }

  lemma OneItem(w: Verdict, item: Item)
    ensures HearItems(w, [item]) == HearItem(w, item)
  {
    assert [item][..0] == [];
  }

  lemma AdoptsAgenda(acts: seq<Act>, end: End, level: nat)
    ensures Adopt(Thenable(acts, end), level) == HearItems(Waits(level + 1), Agenda(acts, end, level + 1))
  {
    HearItemsOfActs(Waits(level + 1), acts);
    if end.Throws? {
      HearItemsSplits(Waits(level + 1), Items(acts), [Throw(level + 1, end.x)]);
      OneItem(HearAll(Waits(level + 1), acts), Throw(level + 1, end.x));
    } else {
      assert Items(acts) + [] == Items(acts);
    }
  }

  lemma {:induction false} SettledHearsNothing(o: Outcome, items: seq<Item>)
    ensures HearItems(Settled(o), items) == Settled(o)
  {
    if items != [] {
      SettledHearsNothing(o, items[..|items| - 1]);
    }
  }

  lemma {:induction false} NoneAtLevel(level: nat, items: seq<Item>)
    requires forall i | 0 <= i < |items| :: !IsAt(items[i], level)
    ensures HearItems(Waits(level), items) == Waits(level)
  {
    if items != [] {
      NoneAtLevel(level, items[..|items| - 1]);
    }
  }

  lemma HearFromFirst(level: nat, items: seq<Item>, i: nat)
    requires i == FirstAt(items, level) < |items|
    ensures HearItems(Waits(level), items) == HearItems(HearItem(Waits(level), items[i]), items[i + 1..])
  {
    assert items == items[..i] + ([items[i]] + items[i + 1..]);
    NoneAtLevel(level, items[..i]);
    HearItemsSplits(Waits(level), items[..i], [items[i]] + items[i + 1..]);
    HearItemsSplits(Waits(level), [items[i]], items[i + 1..]);
    OneItem(Waits(level), items[i]);
  }

  /** The reference decides by the end of the chain of heard calls. */
  lemma {:induction false} ChainDecides(deed: Deed, level: nat, rest: seq<Item>)
    ensures Fits(HearItems(Obey(deed, level), rest), LastHeard(deed, level, rest))
    decreases WeightDeed(deed) + WeightItems(rest)
  {
    if deed.ResolveWith? && deed.v.Thenable? {
      var own := Agenda(deed.v.acts, deed.v.end, level + 1);
      var all := own + rest;
      AdoptsAgenda(deed.v.acts, deed.v.end, level);
      HearItemsSplits(Waits(level + 1), own, rest);
      var i := FirstAt(all, level + 1);
      if i == |all| {
        NoneAtLevel(level + 1, all);
      } else {
        HearFromFirst(level + 1, all, i);
        if all[i].Throw? {
          SettledHearsNothing(Failed(Thrown(all[i].x)), all[i + 1..]);
        } else {
          ChainShrinks(deed.v, level + 1, rest, i);
          ChainDecides(all[i].act.deed, level + 1, all[i + 1..]);
        }
      }
    } else {
      SaidDecides(deed, level, rest);
    }
  }

  lemma SaidDecides(deed: Deed, level: nat, rest: seq<Item>)
    requires !(deed.ResolveWith? && deed.v.Thenable?)
    ensures Fits(HearItems(Obey(deed, level), rest), Said(deed))
  {
    var o := match deed
      case RejectWith(x) => Failed(Thrown(x))
      case ResolveWith(Plain(x)) => Fulfilled(x)
      case ResolveWith(Trap(x)) => Failed(Thrown(x))
      case ResolveWith(_) => Failed(SelfResolution);
    assert deed.ResolveWith? ==> Obey(deed, level) == Adopt(deed.v, level);
    assert Obey(deed, level) == Settled(o);
    SettledHearsNothing(o, rest);
  }

  /** For every handler result and all later calls. */
  lemma ResolutionFits(h: Handled, later: seq<Act>)
    ensures Fits(HearAll(Begin(h), later), LastHeard(First(h), 0, Items(later)))
  {
    ChainDecides(First(h), 0, Items(later));
    HearItemsOfActs(Begin(h), later);
  }

  // ----- the code -----

  /** Where the counter and the calls made on the derived deferred leave the resolution: of those calls, a deferred
      heeds the first. */
  function Standing(maxDepth: nat, calls: seq<Outcome>): Verdict {
    if calls == [] then Waits(maxDepth) else Settled(calls[0])
  }

  class Resolver {
    var maxDepth: nat
    var calls: seq<Outcome>  // of resolveWith and rejectWith of the derived deferred, in order

    constructor ()
      ensures maxDepth == 0 && calls == []
    {
      maxDepth, calls := 0, [];
    }

    ghost function View(): Verdict
      reads this
    {
      Standing(maxDepth, calls)
    }

    /** Calls resolveWith or rejectWith, whether or not that was done before. */
    method Settle(o: Outcome)
      modifies this`calls
      ensures calls == old(calls) + [o]
    {
      calls := calls + [o];
    }

    /** A processor of level `depth` that passes its value on. */
    method Fulfil(depth: nat, v: Value)
      requires depth <= maxDepth
      modifies this
      ensures old(maxDepth) <= maxDepth
      ensures View() == if old(View()) == Waits(depth) then Adopt(v, depth) else old(View())
      decreases v
    {
      if depth < maxDepth {
        return;
      }
      match v
      case Plain(x) =>
        Settle(Fulfilled(x));
      case Itself =>
        if depth + 1 >= maxDepth {
          Settle(Failed(SelfResolution));
        }
      case Trap(x) =>
        if depth + 1 >= maxDepth {
          Settle(Failed(Thrown(x)));
        }
      case Thenable(acts, end) =>
        maxDepth := maxDepth + 1;
        ghost var w := View();
        for i := 0 to |acts|
          invariant depth + 1 <= maxDepth && View() == HearAll(w, acts[..i])
        {
          assert acts[..i + 1][..i] == acts[..i];
          Perform(acts[i]);
        }
        assert acts[..|acts|] == acts;
        if w.Settled? {
          SettledStays(w.outcome, acts);
        }
        if end.Throws? && depth + 1 >= maxDepth {
          Settle(Failed(Thrown(end.x)));
        }
    }

    /** A processor of level `depth` that throws its value. */
    method Refuse(depth: nat, x: int)
      requires depth <= maxDepth
      modifies this`calls
      ensures View() == if old(View()) == Waits(depth) then Settled(Failed(Thrown(x))) else old(View())
    {
      if depth < maxDepth {
        return;
      }
      if depth + 1 >= maxDepth {
        Settle(Failed(Thrown(x)));
      }
    }

    /** A call of a function handed out; of a level not reached yet there is none to call. */
    method Perform(act: Act)
      modifies this
      ensures old(maxDepth) <= maxDepth
      ensures View() == Hear(old(View()), act)
      decreases act
    {
      if act.level <= maxDepth {
        match act.deed
        case ResolveWith(v) => Fulfil(act.level, v);
        case RejectWith(x) => Refuse(act.level, x);
      }
    }

    /** The whole resolution: the handler, then the calls that come later. It ends as the reference says, and the
        first call made on the derived deferred is what the chain of heard calls ends in. */
    method Resolve(h: Handled, later: seq<Act>)
      requires maxDepth == 0 && calls == []
      modifies this
      ensures View() == HearAll(Begin(h), later)
      ensures calls == [] <==> LastHeard(First(h), 0, Items(later)).Nobody?
      ensures calls != [] ==> Fits(Settled(calls[0]), LastHeard(First(h), 0, Items(later)))
    {
      ResolutionFits(h, later);
      match h {
        case Returned(v) => Fulfil(0, v);
        case Threw(x) => Refuse(0, x);
      }
      for i := 0 to |later|
        invariant View() == HearAll(Begin(h), later[..i])
      {
        assert later[..i + 1][..i] == later[..i];
        Perform(later[i]);
      }
      assert later[..|later|] == later;
    }
  }

  // ----- the first call at each level decides -----

  lemma {:induction false} HearAllSplits(w: Verdict, a: seq<Act>, b: seq<Act>)
    ensures HearAll(w, a + b) == HearAll(HearAll(w, a), b)
    decreases |b|
  {
    if b == [] {
      assert a + b == a;
    } else {
      var n := |b| - 1;
      assert (a + b)[..|a| + n] == a + b[..n] && (a + b)[|a| + n] == b[n];
      HearAllSplits(w, a, b[..n]);
    }
  }

  /** While level `level` is waited for, calls at other levels change nothing. */
  lemma {:induction false} OtherLevelsIgnored(level: nat, acts: seq<Act>)
    requires forall i | 0 <= i < |acts| :: acts[i].level != level
    ensures HearAll(Waits(level), acts) == Waits(level)
  {
    if acts != [] {
      OtherLevelsIgnored(level, acts[..|acts| - 1]);
    }
  }

  lemma {:induction false} SettledStays(o: Outcome, acts: seq<Act>)
    ensures HearAll(Settled(o), acts) == Settled(o)
  {
    if acts != [] {
      SettledStays(o, acts[..|acts| - 1]);
    }
  }

  lemma HearFirst(level: nat, deed: Deed)
    ensures HearAll(Waits(level), [Act(level, deed)]) == Obey(deed, level)
  {
    var first := [Act(level, deed)];
    assert first[..0] == [] && HearAll(Waits(level), first[..0]) == Waits(level);
  }

  /** Whatever comes before the first call at the level waited for, and whatever comes after it at that level or
      further out, the verdict is the one of that first call: settled by it, or waiting further in. */
  lemma FirstCallDecides(level: nat, before: seq<Act>, deed: Deed, after: seq<Act>)
    requires forall i | 0 <= i < |before| :: before[i].level != level
    requires forall i | 0 <= i < |after| :: after[i].level <= level
    ensures HearAll(Waits(level), before + [Act(level, deed)] + after) == Obey(deed, level)
  {
    var first := [Act(level, deed)];
    HearAllSplits(Waits(level), before + first, after);
    HearAllSplits(Waits(level), before, first);
    OtherLevelsIgnored(level, before);
    HearFirst(level, deed);
    var w := Obey(deed, level);
    if w.Waits? {
      OtherLevelsIgnored(w.level, after);
    } else {
      SettledStays(w.outcome, after);
    }
  }

  /** The level is left behind exactly if one of the calls is at that level. */
  lemma {:induction false} LeftIffCalled(level: nat, acts: seq<Act>)
    ensures HearAll(Waits(level), acts) == Waits(level) <==> forall i | 0 <= i < |acts| :: acts[i].level != level
  {
    if acts != [] {
      var n := |acts| - 1;
      LeftIffCalled(level, acts[..n]);
      assert forall i | 0 <= i < n :: acts[..n][i] == acts[i];
    }
  }

  /** An exception at the end of a thenable's `then` makes a difference exactly if none of its own functions
      was called before, whatever else its `then` called. */
  lemma ExceptionCountsIff(acts: seq<Act>, x: int, level: nat)
    ensures Adopt(Thenable(acts, Throws(x)), level) != Adopt(Thenable(acts, Returns), level) <==>
            forall i | 0 <= i < |acts| :: acts[i].level != level + 1
  {
    LeftIffCalled(level + 1, acts);
  }
}
