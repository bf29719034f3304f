/**
 The request protocol of the autocomplete widget. Responses may arrive in any order. Handing one over
 triggers an event, whose handlers may search or close before the widget goes on to show the content;
 so a response is three steps: hand the content over, show it or not, count the request as answered.
 */
module Autocomplete {

  /** Content with the request it answers and the latest request issued at that moment. */
  datatype Shown = Shown(request: nat, content: string, latest: nat)

  datatype S = S(
    requestIndex: nat, pending: int, loading: bool, cancelSearch: bool,
    begun: set<nat>, ended: set<nat>,  // the requests whose callback has been called, has returned
    awaiting: map<nat, string>,        // handed over, the handlers of the event still running
    handed: seq<Shown>,                // what has been handed to __response
    suggested: seq<Shown>)             // what has been shown as suggestions

  datatype Label =
    | Search
    | Close
    | BeginResponse(i: nat, content: string)
    | Suggest(i: nat, disabled: bool)
    | EndResponse(i: nat)

  function Init(): S {
    S(0, 0, false, false, {}, {}, map[], [], [])
  }

  /** The content is shown unless it is empty, the widget disabled, or the search cancelled. */
  predicate Shows(s: S, i: nat, disabled: bool) {
    i in s.awaiting && !disabled && s.awaiting[i] != "" && !s.cancelSearch
  }

  function Step(s: S, l: Label): S {
    match l
    case Search =>
      s.(pending := s.pending + 1, loading := true, cancelSearch := false, requestIndex := s.requestIndex + 1)
    case Close =>
      s.(cancelSearch := true)
    case BeginResponse(i, content) =>
      if i == s.requestIndex then
        s.(begun := s.begun + {i}, awaiting := s.awaiting[i := content],
           handed := s.handed + [Shown(i, content, s.requestIndex)])
      else s.(begun := s.begun + {i})
    case Suggest(i, disabled) =>
      s.(awaiting := s.awaiting - {i},
         suggested := s.suggested + if Shows(s, i, disabled) then [Shown(i, s.awaiting[i], s.requestIndex)] else [])
    case EndResponse(i) =>
      s.(pending := s.pending - 1, loading := s.loading && s.pending - 1 != 0, ended := s.ended + {i})
  }

  /** Each request's callback is called once, after the request was issued, and goes through its
      steps in order. */
  predicate Allowed(s: S, l: Label) {
    match l
    case BeginResponse(i, _) => 1 <= i <= s.requestIndex && i !in s.begun
    case Suggest(i, _) => i in s.awaiting
    case EndResponse(i) => i in s.begun && i !in s.ended && i !in s.awaiting
    case _ => true
  }

  function Run(s: S, labels: seq<Label>): S {
    if labels == [] then s else Step(Run(s, labels[..|labels| - 1]), labels[|labels| - 1])
  }

  /** Every step of the run, from the first on, is one that can happen. */
  ghost predicate AllAllowed(labels: seq<Label>) {
    labels == [] ||
    var n := |labels| - 1;
    AllAllowed(labels[..n]) && Allowed(Run(Init(), labels[..n]), labels[n])
  }

  /** The widget: fields updated by the search call and by the callbacks it hands out. */
  class Widget {
    var requestIndex: nat
    var pending: int
    var loading: bool
    var cancelSearch: bool
    var suggested: seq<Shown>
    var awaiting: map<nat, string>  // local variables of the callbacks under way
    ghost var begun: set<nat>
    ghost var ended: set<nat>
    ghost var handed: seq<Shown>

    ghost function View(): S
      reads this
    {
      S(requestIndex, pending, loading, cancelSearch, begun, ended, awaiting, handed, suggested)
    }

    constructor ()
      ensures View() == Init()
    {
      requestIndex, pending, loading, cancelSearch := 0, 0, false, false;
      begun, ended, awaiting, handed, suggested := {}, {}, map[], [], [];
    }

    /** Issues a request; the number identifies its response callback. */
    method Search() returns (index: nat)
      modifies this
      ensures View() == Step(old(View()), Label.Search) && index == requestIndex
    {
      pending := pending + 1;
      loading := true;
      cancelSearch := false;
      requestIndex := requestIndex + 1;
      index := requestIndex;
    }

    method Close()
      modifies this`cancelSearch
      ensures View() == Step(old(View()), Label.Close)
    {
      cancelSearch := true;
    }

    /** The callback up to the handlers of the response event. */
    method Respond(index: nat, content: string)
      modifies this
      ensures View() == Step(old(View()), BeginResponse(index, content))
    {
      if index == requestIndex {
        awaiting := awaiting[index := content];
        handed := handed + [Shown(index, content, requestIndex)];
      }
      begun := begun + {index};
    }

    /** The handlers have returned: the content is shown or not. */
    method Suggest(index: nat, disabled: bool)
      requires index in awaiting
      modifies this
      ensures View() == Step(old(View()), Label.Suggest(index, disabled))
    {
      var content := awaiting[index];
      awaiting := awaiting - {index};
      if !disabled && content != "" && !cancelSearch {
        suggested := suggested + [Shown(index, content, requestIndex)];
      }
    }

    /** The rest of the callback. */
    method Responded(index: nat)
      modifies this
      ensures View() == Step(old(View()), EndResponse(index))
    {
      pending := pending - 1;
      if pending == 0 {
        loading := false;
      }
      ended := ended + {index};
    }
  }

  // ----- over every interleaving -----

  ghost function UpTo(n: nat): (s: set<nat>)
    ensures |s| == n && forall i: nat :: i in s <==> 1 <= i <= n
  {
    if n == 0 then {} else UpTo(n - 1) + {n}
  }

  lemma SubsetCount(a: set<nat>, n: nat)
    requires forall i | i in a :: 1 <= i <= n
    ensures |a| <= n && (|a| == n ==> a == UpTo(n))
  {
    var b := UpTo(n);
    assert a <= b && b == a + (b - a) && |b| == |a| + |b - a|;
  }

  ghost predicate Counts(s: S) {
    && (forall i | i in s.ended :: i in s.begun && i !in s.awaiting)
    && (forall i | i in s.begun :: 1 <= i <= s.requestIndex)
    && (forall i | i in s.awaiting :: i in s.begun)
    && s.pending == s.requestIndex - |s.ended|
    && (s.loading <==> s.pending > 0)
  }

  /** Answers to the latest request of their time, each of a later request than the one before. */
  ghost predicate EverLater(list: seq<Shown>, begun: set<nat>) {
    && (forall k | 0 <= k < |list| :: list[k].request in begun && list[k].request == list[k].latest)
    && (forall j, k | 0 <= j < k < |list| :: list[j].request < list[k].request)
  }

  ghost predicate Inv(s: S) {
    Counts(s) && EverLater(s.handed, s.begun)
  }

  lemma CountsKept(s: S, l: Label)
    requires Counts(s) && Allowed(s, l)
    ensures Counts(Step(s, l))
  {
    SubsetCount(s.ended, s.requestIndex);
    if l.EndResponse? {
      assert |s.ended + {l.i}| == |s.ended| + 1;
      SubsetCount(s.ended + {l.i}, s.requestIndex);
    }
  }

  lemma LaterAppended(list: seq<Shown>, begun: set<nat>, begun': set<nat>, i: nat, content: string)
    requires EverLater(list, begun) && begun <= begun' && i in begun'
    requires forall k | 0 <= k < |list| :: list[k].request < i
    ensures EverLater(list + [Shown(i, content, i)], begun')
  {
  }

  lemma StepKeeps(s: S, l: Label)
    requires Inv(s) && Allowed(s, l)
    ensures Inv(Step(s, l))
  {
    CountsKept(s, l);
    if l.BeginResponse? && l.i == s.requestIndex {
      LaterAppended(s.handed, s.begun, s.begun + {l.i}, l.i, l.content);
    }
  }

  /** For every interleaving of searches, closes and responses in which each callback is called
      once: `pending` is issued minus answered, the loading class is present exactly while some
      request is unanswered, and only the latest request's content is ever handed over. */
  lemma {:induction false} Protocol(labels: seq<Label>)
    requires AllAllowed(labels)
    ensures Inv(Run(Init(), labels))
  {
    if labels != [] {
      var n := |labels| - 1;
      Protocol(labels[..n]);
      StepKeeps(Run(Init(), labels[..n]), labels[n]);
    }
  }

  lemma LoadingWhileUnanswered(labels: seq<Label>)
    requires AllAllowed(labels)
    ensures
      var s := Run(Init(), labels);
      s.loading <==> exists i | 1 <= i <= s.requestIndex :: i !in s.ended
  {
    Protocol(labels);
    var s := Run(Init(), labels);
    SubsetCount(s.ended, s.requestIndex);
    if forall i | 1 <= i <= s.requestIndex :: i in s.ended {
      assert s.ended == UpTo(s.requestIndex);
    }
  }

  // ----- what is shown -----

  /** How many searches were issued since the callback of request `i` was called. */
  function SearchesSince(labels: seq<Label>, i: nat): nat {
    if labels == [] then 0
    else
      var n := |labels| - 1;
      if labels[n].BeginResponse? && labels[n].i == i then 0
      else SearchesSince(labels[..n], i) + if labels[n].Search? then 1 else 0
  }

  lemma {:induction false} AwaitingSince(labels: seq<Label>, i: nat)
    requires AllAllowed(labels) && i in Run(Init(), labels).awaiting
    ensures Run(Init(), labels).requestIndex == i + SearchesSince(labels, i)
  {
    var n := |labels| - 1;
    if !(labels[n].BeginResponse? && labels[n].i == i) {
      AwaitingSince(labels[..n], i);
    } else {
      Protocol(labels[..n]);
    }
  }

  /** What is shown answers the latest request exactly when no search was issued by the handlers
      of its own response event. */
  lemma ShownIsCurrentIff(labels: seq<Label>, i: nat, disabled: bool)
    requires AllAllowed(labels) && Shows(Run(Init(), labels), i, disabled)
    ensures
      var s := Run(Init(), labels);
      var t := Step(s, Suggest(i, disabled));
      && |t.suggested| == |s.suggested| + 1 && t.suggested[|s.suggested|].request == i
      && (t.suggested[|s.suggested|].request == t.requestIndex <==> SearchesSince(labels, i) == 0)
  {
    AwaitingSince(labels, i);
  }

  /** Everything shown so far answered the latest request of its time. */
  ghost predicate AllCurrent(list: seq<Shown>) {
    forall k | 0 <= k < |list| :: list[k].request == list[k].latest
  }

  /** Nothing was shown after a search issued since its own callback was called. */
  ghost predicate NeverStale(labels: seq<Label>) {
    labels == [] ||
    var n := |labels| - 1;
    && NeverStale(labels[..n])
    && (labels[n].Suggest? && Shows(Run(Init(), labels[..n]), labels[n].i, labels[n].disabled) ==>
          SearchesSince(labels[..n], labels[n].i) == 0)
  }

  /** Over every allowed run, everything shown was current at its time exactly if nothing was shown after a search
      issued since its own callback was called. */
  lemma {:induction false} AllCurrentIff(labels: seq<Label>)
    requires AllAllowed(labels)
    ensures AllCurrent(Run(Init(), labels).suggested) <==> NeverStale(labels)
  {
    if labels != [] {
      var n := |labels| - 1;
      var s := Run(Init(), labels[..n]);
      AllCurrentIff(labels[..n]);
      if labels[n].Suggest? && Shows(s, labels[n].i, labels[n].disabled) {
        AwaitingSince(labels[..n], labels[n].i);
        CurrentNext(s.suggested, Shown(labels[n].i, s.awaiting[labels[n].i], s.requestIndex));
      } else {
        assert Run(Init(), labels).suggested == s.suggested;
      }
    }
  }

  lemma CurrentNext(list: seq<Shown>, shown: Shown)
    ensures AllCurrent(list + [shown]) <==> AllCurrent(list) && shown.request == shown.latest
  {
    var all := list + [shown];
    assert all[|list|] == shown && forall k | 0 <= k < |list| :: all[k] == list[k];
  }

  /** What has been shown was handed over before, and is not about to be shown again. */
  ghost predicate ShownOnce(s: S) {
    forall k | 0 <= k < |s.suggested| ::
      s.suggested[k].request in s.begun && s.suggested[k].request !in s.awaiting
  }

  lemma {:induction false} EachShownOnce(labels: seq<Label>)
    requires AllAllowed(labels)
    ensures ShownOnce(Run(Init(), labels))
  {
    if labels != [] {
      var n := |labels| - 1;
      EachShownOnce(labels[..n]);
      Protocol(labels[..n]);
    }
  }

  /** If everything shown was current, the shown requests increase strictly: nothing replaces the answer to a later
      request. */
  lemma {:induction false} CurrentNeverGoesBack(labels: seq<Label>)
    requires AllAllowed(labels) && AllCurrent(Run(Init(), labels).suggested)
    ensures EverLater(Run(Init(), labels).suggested, Run(Init(), labels).begun)
  {
    if labels != [] {
      var n := |labels| - 1;
      var s := Run(Init(), labels[..n]);
      if labels[n].Suggest? && Shows(s, labels[n].i, labels[n].disabled) {
        var shown := Shown(labels[n].i, s.awaiting[labels[n].i], s.requestIndex);
        CurrentNext(s.suggested, shown);
        CurrentNeverGoesBack(labels[..n]);
        Protocol(labels[..n]);
        EachShownOnce(labels[..n]);
        LaterShown(s, labels[n].i);
        LaterAppended(s.suggested, s.begun, s.begun, labels[n].i, shown.content);
      } else {
        assert Run(Init(), labels).suggested == s.suggested;
        CurrentNeverGoesBack(labels[..n]);
      }
    }
  }

  lemma LaterShown(s: S, i: nat)
    requires Counts(s) && ShownOnce(s) && i in s.awaiting && i == s.requestIndex
    ensures forall k | 0 <= k < |s.suggested| :: s.suggested[k].request < i
  {
    forall k | 0 <= k < |s.suggested|
      ensures s.suggested[k].request < i
    {
      assert s.suggested[k].request in s.begun && s.suggested[k].request != i;
    }
  }

  /** The widget was closed after the last search. */
  function ClosedSince(labels: seq<Label>): bool {
    if labels == [] then false
    else
      var last := labels[|labels| - 1];
      last.Close? || (!last.Search? && ClosedSince(labels[..|labels| - 1]))
  }

  lemma {:induction false} CancelledIffClosed(labels: seq<Label>)
    ensures Run(Init(), labels).cancelSearch <==> ClosedSince(labels)
  {
    if labels != [] {
      CancelledIffClosed(labels[..|labels| - 1]);
    }
  }

  /** The content handed over for request `i`. */
  function ContentOf(labels: seq<Label>, i: nat): string {
    if labels == [] then ""
    else
      var last := labels[|labels| - 1];
      if last.BeginResponse? && last.i == i then last.content else ContentOf(labels[..|labels| - 1], i)
  }

  lemma {:induction false} AwaitingContent(labels: seq<Label>, i: nat)
    requires AllAllowed(labels) && i in Run(Init(), labels).awaiting
    ensures Run(Init(), labels).awaiting[i] == ContentOf(labels, i)
  {
    var n := |labels| - 1;
    Protocol(labels[..n]);
    if !(labels[n].BeginResponse? && labels[n].i == i) {
      AwaitingContent(labels[..n], i);
    }
  }

  /** After the handlers of a response event, its content is shown exactly if there is any, the widget is enabled,
      and it was not closed since the last search. */
  lemma ShownExactlyWhen(labels: seq<Label>, i: nat, disabled: bool)
    requires AllAllowed(labels) && i in Run(Init(), labels).awaiting
    ensures
      var s := Run(Init(), labels);
      var t := Run(Init(), labels + [Suggest(i, disabled)]);
      var content := ContentOf(labels, i);
      t.suggested == s.suggested +
        if content != "" && !disabled && !ClosedSince(labels) then [Shown(i, content, s.requestIndex)] else []
  {
    var all := labels + [Suggest(i, disabled)];
    assert all[..|labels|] == labels;
    CancelledIffClosed(labels);
    AwaitingContent(labels, i);
  }

  /** No handler of a response event issues a search. */
  ghost predicate Quiet(labels: seq<Label>) {
    labels == [] ||
    var n := |labels| - 1;
    Quiet(labels[..n]) && (labels[n].Search? ==> Run(Init(), labels[..n]).awaiting == map[])
  }

  ghost predicate NeverBack(s: S) {
    && (forall i | i in s.awaiting :: i == s.requestIndex)
    && (forall k | 0 <= k < |s.suggested| :: s.suggested[k].request !in s.awaiting)
    && EverLater(s.suggested, s.begun)
  }

  lemma {:induction false} QuietIsNeverStale(labels: seq<Label>)
    requires AllAllowed(labels) && Quiet(labels)
    ensures NeverStale(labels)
    ensures forall i | i in Run(Init(), labels).awaiting :: i == Run(Init(), labels).requestIndex
  {
    if labels != [] {
      var n := |labels| - 1;
      QuietIsNeverStale(labels[..n]);
      if labels[n].Suggest? {
        AwaitingSince(labels[..n], labels[n].i);
      }
    }
  }

  /** Then what is shown is always the latest answer, and never replaces that of a later request. */
  lemma QuietNeverGoesBack(labels: seq<Label>)
    requires AllAllowed(labels) && Quiet(labels)
    ensures NeverBack(Run(Init(), labels))
  {
    QuietIsNeverStale(labels);
    AllCurrentIff(labels);
    CurrentNeverGoesBack(labels);
    EachShownOnce(labels);
  }

  /** A search issued by such a handler and answered at once: the older content replaces the newer. */
  lemma SearchingInHandlerGoesBack()
    ensures
      var ls := [Search, BeginResponse(1, "a"), Search, BeginResponse(2, "b"), Suggest(2, false), Suggest(1, false)];
      AllAllowed(ls) && Run(Init(), ls).suggested == [Shown(2, "b", 2), Shown(1, "a", 2)]
  {
    var ls := [Search, BeginResponse(1, "a"), Search, BeginResponse(2, "b"), Suggest(2, false), Suggest(1, false)];
    var l5, l4, l3, l2 := ls[..5], ls[..4], ls[..3], ls[..2];
    assert l5[..4] == l4 && l4[..3] == l3 && l3[..2] == l2 && l2[..1] == [Search] && [Search][..0] == [];
    assert Run(Init(), [Search]).requestIndex == 1 && AllAllowed([Search]);
    assert Run(Init(), l2).awaiting == map[1 := "a"] && AllAllowed(l2);
    assert Run(Init(), l3).awaiting == map[1 := "a"] && AllAllowed(l3);
    assert Run(Init(), l4).awaiting == map[1 := "a", 2 := "b"] && AllAllowed(l4);
    assert Run(Init(), l5).awaiting == map[1 := "a"] && AllAllowed(l5);
  }

  // ----- callbacks called more than once -----

  /** How many times a response callback has returned. */
  function Returns(labels: seq<Label>): nat {
    if labels == [] then 0
    else Returns(labels[..|labels| - 1]) + if labels[|labels| - 1].EndResponse? then 1 else 0
  }

  /** No callback returns twice. */
  ghost predicate NoneTwice(labels: seq<Label>) {
    forall j, k | 0 <= j < k < |labels| && labels[j].EndResponse? && labels[k].EndResponse? ::
      labels[j].i != labels[k].i
  }

  lemma {:induction false} EndedIff(labels: seq<Label>, i: nat)
    ensures i in Run(Init(), labels).ended <==> exists k | 0 <= k < |labels| :: labels[k] == EndResponse(i)
  {
    if labels != [] {
      var n := |labels| - 1;
      EndedIff(labels[..n], i);
      if k :| 0 <= k < |labels| && labels[k] == EndResponse(i) {
        if k < n {
          assert labels[..n][k] == EndResponse(i);
        }
      }
      if k :| 0 <= k < n && labels[..n][k] == EndResponse(i) {
        assert labels[k] == EndResponse(i);
      }
    }
  }

  lemma NoneTwiceNext(labels: seq<Label>)
    requires labels != []
    ensures
      var n := |labels| - 1;
      NoneTwice(labels) <==>
      NoneTwice(labels[..n]) && !(labels[n].EndResponse? && labels[n].i in Run(Init(), labels[..n]).ended)
  {
    var n := |labels| - 1;
    assert forall k | 0 <= k < n :: labels[..n][k] == labels[k];
    if labels[n].EndResponse? {
      EndedIff(labels[..n], labels[n].i);
    }
    if NoneTwice(labels) {
      forall j, k | 0 <= j < k < n && labels[..n][j].EndResponse? && labels[..n][k].EndResponse?
        ensures labels[..n][j].i != labels[..n][k].i
      {
        assert labels[j].i != labels[k].i;
      }
    }
  }

  /** A callback has returned at least as often as there are answered requests, and more often exactly if one
      returned twice. */
  lemma {:induction false} ReturnsCount(labels: seq<Label>)
    ensures
      var s := Run(Init(), labels);
      && s.pending == s.requestIndex - Returns(labels)
      && |s.ended| <= Returns(labels)
      && (|s.ended| == Returns(labels) <==> NoneTwice(labels))
  {
    if labels != [] {
      var n := |labels| - 1;
      ReturnsCount(labels[..n]);
      NoneTwiceNext(labels);
      var s := Run(Init(), labels[..n]);
      if labels[n].EndResponse? && labels[n].i in s.ended {
        assert s.ended + {labels[n].i} == s.ended;
      }
    }
  }

  /** Over every sequence of steps whatever, `pending` is issued minus answered exactly if no callback was
      called twice. */
  lemma PendingExactlyWhen(labels: seq<Label>)
    ensures
      var s := Run(Init(), labels);
      s.pending == s.requestIndex - |s.ended| <==> NoneTwice(labels)
  {
    ReturnsCount(labels);
  }

  /** A callback exists only once its request has been issued. */
  ghost predicate Issued(labels: seq<Label>) {
    labels == [] ||
    var n := |labels| - 1;
    Issued(labels[..n]) && (labels[n].EndResponse? ==> 1 <= labels[n].i <= Run(Init(), labels[..n]).requestIndex)
  }

  function Unanswered(s: S): int {
    s.requestIndex - |s.ended|
  }

  /** Calls of callbacks beyond the first of each. */
  function Surplus(labels: seq<Label>): int {
    Returns(labels) - |Run(Init(), labels).ended|
  }

  ghost predicate InRange(s: S) {
    forall i | i in s.ended :: 1 <= i <= s.requestIndex
  }

  lemma StepInRange(s: S, l: Label)
    requires InRange(s) && (l.EndResponse? ==> 1 <= l.i <= s.requestIndex)
    ensures InRange(Step(s, l))
  {
  }

  lemma {:induction false} EndedWereIssued(labels: seq<Label>)
    requires Issued(labels)
    ensures InRange(Run(Init(), labels))
  {
    if labels != [] {
      var n := |labels| - 1;
      EndedWereIssued(labels[..n]);
      StepInRange(Run(Init(), labels[..n]), labels[n]);
    }
  }

  /** The loading class is present exactly while some request is unanswered. */
  ghost predicate LoadingRight(labels: seq<Label>) {
    Run(Init(), labels).loading <==> Unanswered(Run(Init(), labels)) > 0
  }

  /** A callback returns while requests are unanswered, after surplus calls, and leaves just as many unanswered
      as there were surplus calls, or none: the class goes too early, or stays. */
  ghost predicate Derails(labels: seq<Label>) {
    && labels != [] && labels[|labels| - 1].EndResponse?
    && Unanswered(Run(Init(), labels[..|labels| - 1])) > 0
    && Surplus(labels) > 0
    && (Unanswered(Run(Init(), labels)) == 0 || Unanswered(Run(Init(), labels)) == Surplus(labels))
  }

  /** No more requests are answered than issued; and when all are, a further return answers none. */
  lemma AnsweredWithinIssued(labels: seq<Label>)
    requires Issued(labels)
    ensures Unanswered(Run(Init(), labels)) >= 0
    ensures labels != [] && labels[|labels| - 1].EndResponse? ==>
              var s := Run(Init(), labels[..|labels| - 1]);
              Unanswered(s) == 0 ==> s.ended == Run(Init(), labels).ended
  {
    var t := Run(Init(), labels);
    EndedWereIssued(labels);
    SubsetCount(t.ended, t.requestIndex);
    if labels != [] && labels[|labels| - 1].EndResponse? {
      var s := Run(Init(), labels[..|labels| - 1]);
      EndedWereIssued(labels[..|labels| - 1]);
      SubsetCount(s.ended, s.requestIndex);
    }
  }

  lemma LoadingRightNext(labels: seq<Label>)
    requires Issued(labels) && labels != [] && LoadingRight(labels[..|labels| - 1])
    ensures LoadingRight(labels) <==> !Derails(labels)
  {
    var n := |labels| - 1;
    ReturnsCount(labels[..n]);
    ReturnsCount(labels);
    AnsweredWithinIssued(labels[..n]);
    AnsweredWithinIssued(labels);
  }

  ghost predicate AlwaysRight(labels: seq<Label>) {
    LoadingRight(labels) && (labels == [] || AlwaysRight(labels[..|labels| - 1]))
  }

  ghost predicate NeverDerails(labels: seq<Label>) {
    !Derails(labels) && (labels == [] || NeverDerails(labels[..|labels| - 1]))
  }

  /** Over every sequence of steps, the loading class has been right at every moment exactly if no return of a
      callback derailed it. */
  lemma {:induction false} LoadingExactlyWhen(labels: seq<Label>)
    requires Issued(labels)
    ensures AlwaysRight(labels) <==> NeverDerails(labels)
  {
    if labels != [] {
      LoadingExactlyWhen(labels[..|labels| - 1]);
      if LoadingRight(labels[..|labels| - 1]) {
        LoadingRightNext(labels);
      }
    }
  }

  /** In particular it is right as long as no callback is called twice. */
  lemma {:induction false} NoneTwiceNeverDerails(labels: seq<Label>)
    requires Issued(labels) && NoneTwice(labels)
    ensures NeverDerails(labels)
  {
    ReturnsCount(labels);
    if labels != [] {
      NoneTwiceNext(labels);
      NoneTwiceNeverDerails(labels[..|labels| - 1]);
    }
  }

  /** A callback called twice ends the loading state while a request is unanswered. */
  lemma AnsweringTwiceEndsLoading()
    ensures
      var ls := [Search, Search, BeginResponse(1, ""), EndResponse(1), BeginResponse(1, ""), EndResponse(1)];
      var s := Run(Init(), ls);
      !s.loading && 2 !in s.begun && s.requestIndex == 2
  {
    var ls := [Search, Search, BeginResponse(1, ""), EndResponse(1), BeginResponse(1, ""), EndResponse(1)];
    var l5, l4, l3, l2 := ls[..5], ls[..4], ls[..3], ls[..2];
    assert l5[..4] == l4 && l4[..3] == l3 && l3[..2] == l2 && l2[..1] == [Search] && [Search][..0] == [];
    assert Run(Init(), [Search]).requestIndex == 1;
    assert Run(Init(), l2).pending == 2 && Run(Init(), l3).pending == 2;
    assert Run(Init(), l4).pending == 1 && Run(Init(), l5).pending == 1;
  }
}
