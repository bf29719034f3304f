/** Removing duplicates from a sorted list of nodes, by recording their indexes and then deleting
    from the back. */
module UniqueSort {
  import opened Prelude
  import opened DocumentOrder

  /** The elements from index `from` on that differ from their predecessor. */
  function Kept<T(==)>(s: seq<T>, from: nat): seq<T>
    requires from <= |s|
    decreases |s| - from
  {
    if from == |s| then []
    else (if from > 0 && s[from] == s[from - 1] then [] else [s[from]]) + Kept(s, from + 1)
  }

  predicate Repeats<T(==)>(s: seq<T>, i: nat)
    requires i < |s|
  {
    i > 0 && s[i] == s[i - 1]
  }

  lemma {:induction false} KeptStretch<T>(s: seq<T>, from: nat, to: nat)
    requires from <= to <= |s|
    requires forall i | from <= i < to :: !Repeats(s, i)
    ensures Kept(s, from) == s[from..to] + Kept(s, to)
    decreases |s| - from
  {
    if from == to {
      assert s[from..to] == [];
    } else {
      assert !Repeats(s, from);
      KeptStretch(s, from + 1, to);
      calc {
        Kept(s, from);
        [s[from]] + Kept(s, from + 1);
        [s[from]] + (s[from + 1..to] + Kept(s, to));
        ([s[from]] + s[from + 1..to]) + Kept(s, to);
        { assert [s[from]] + s[from + 1..to] == s[from..to]; }
        s[from..to] + Kept(s, to);
      }
    }
  }

  /** The indexes at which an element repeats its predecessor, in increasing order. */
  ghost predicate AreRepeats<T>(s: seq<T>, duplicates: seq<nat>) {
    && (forall k | 0 <= k < |duplicates| :: duplicates[k] < |s| && Repeats(s, duplicates[k]))
    && (forall k, l | 0 <= k < l < |duplicates| :: duplicates[k] < duplicates[l])
    && (forall d: nat | d < |s| && Repeats(s, d) :: d in duplicates)
  }

  method FindRepeats<T(==)>(s: seq<T>) returns (duplicates: seq<nat>)
    ensures AreRepeats(s, duplicates)
  {
    duplicates := [];
    var i := 0;
    while i < |s|
      invariant 0 <= i <= |s|
      invariant forall k | 0 <= k < |duplicates| ::
                  duplicates[k] <= i && duplicates[k] < |s| && Repeats(s, duplicates[k])
      invariant forall k, l | 0 <= k < l < |duplicates| :: duplicates[k] < duplicates[l]
      invariant forall d: nat | d <= i && d < |s| && Repeats(s, d) :: d in duplicates
    {
      i := i + 1;
      if i < |s| && s[i - 1] == s[i] {
        assert Repeats(s, i);
        duplicates := duplicates + [i];
      }
    }
  }

  /** Deleting one recorded index leaves what lies before it alone. */
  lemma DeleteOne<T>(s: seq<T>, d: nat, p: nat, results: seq<T>)
    requires d < p <= |s| && Repeats(s, d) && results == s[..p] + Kept(s, p)
    requires forall q | d < q < p :: !Repeats(s, q)
    ensures results[..d] + results[d + 1..] == s[..d] + Kept(s, d)
  {
    KeptStretch(s, d + 1, p);
    assert results[d + 1..] == s[d + 1..p] + Kept(s, p);
  }

  /** The two loops of duplicate removal keep the first of each run of equal neighbours. */
  method RemoveRepeats<T(==)>(s: seq<T>) returns (results: seq<T>)
    ensures results == Kept(s, 0)
  {
    var duplicates := FindRepeats(s);
    results := s;
    var j := |duplicates|;
    ghost var p := |s|;
    while j > 0
      invariant 0 <= j <= |duplicates|
      invariant p == if j < |duplicates| then duplicates[j] else |s|
      invariant results == s[..p] + Kept(s, p)
    {
      j := j - 1;
      var d := duplicates[j];
      DeleteOne(s, d, p, results);
      results := results[..d] + results[d + 1..];
      p := d;
    }
    KeptStretch(s, 0, p);
  }

  /** The list is sorted by the comparator, equal neighbours allowed. */
  ghost predicate InOrder(w: World, sortInput: Option<seq<Place>>, s: seq<Place>) {
    forall i, j | 0 <= i < j < |s| :: Order(w, sortInput, s[i], s[j]) <= 0
  }

  ghost predicate StrictlyInOrder(w: World, sortInput: Option<seq<Place>>, s: seq<Place>) {
    forall i, j | 0 <= i < j < |s| :: Order(w, sortInput, s[i], s[j]) < 0
  }

  /** No two different nodes tie. */
  ghost predicate NoTies(w: World, sortInput: Option<seq<Place>>, s: seq<Place>) {
    forall i, j | 0 <= i < |s| && 0 <= j < |s| :: !Tied(w, sortInput, s[i], s[j])
  }

  /** A strictly increasing list of the same nodes is only possible without ties. */
  lemma StrictNeedsNoTies(w: World, sortInput: Option<seq<Place>>, input: seq<Place>, results: seq<Place>)
    requires StrictlyInOrder(w, sortInput, results) && forall x :: x in results <==> x in input
    ensures NoTies(w, sortInput, input)
  {
    forall i, j | 0 <= i < |input| && 0 <= j < |input|
      ensures !Tied(w, sortInput, input[i], input[j])
    {
      assert input[i] in results && input[j] in results;
      OrderIsAntisymmetric(w, sortInput, input[i], input[j]);
    }
  }

  lemma {:induction false} KeptElements<T>(s: seq<T>, from: nat, x: T)
    requires from <= |s|
    ensures x in Kept(s, from) ==> x in s[from..]
    ensures x in s[from..] ==> x in Kept(s, from) || (from > 0 && x == s[from - 1])
    decreases |s| - from
  {
    if from < |s| {
      KeptElements(s, from + 1, x);
      assert s[from..] == [s[from]] + s[from + 1..];
    }
  }

  /** Every kept element after `from` sorts after its predecessor, hence after all before it. */
  lemma {:induction false} KeptStrict(w: World, sortInput: Option<seq<Place>>, s: seq<Place>, from: nat)
    requires from <= |s| && InOrder(w, sortInput, s) && NoTies(w, sortInput, s)
    ensures StrictlyInOrder(w, sortInput, Kept(s, from))
    ensures from > 0 ==> forall x | x in Kept(s, from) :: Order(w, sortInput, s[from - 1], x) < 0
    decreases |s| - from
  {
    if from < |s| {
      KeptStrict(w, sortInput, s, from + 1);
      var kept, rest := Kept(s, from), Kept(s, from + 1);
      if Repeats(s, from) {
        assert kept == [] + rest == rest;
      } else {
        assert kept == [s[from]] + rest;
        assert forall j | 0 < j < |kept| :: kept[j] == rest[j - 1] && kept[j] in rest;
      }
      if from > 0 {
        forall x | x in Kept(s, from)
          ensures Order(w, sortInput, s[from - 1], x) < 0
        {
          KeptElements(s, from, x);
          assert x in s;
          OrderIsTotal(w, sortInput, s[from - 1], s[from], x);
          if x !in Kept(s, from + 1) {
            assert x == s[from] && s[from] != s[from - 1];
          }
        }
      }
    }
  }

  lemma SameTies(w: World, sortInput: Option<seq<Place>>, input: seq<Place>, sorted: seq<Place>)
    requires multiset(sorted) == multiset(input)
    ensures forall x :: x in sorted <==> x in input
    ensures NoTies(w, sortInput, input) ==> NoTies(w, sortInput, sorted)
  {
    forall x
      ensures x in sorted <==> x in input
    {
      assert x in multiset(sorted) <==> x in sorted;
      assert x in multiset(input) <==> x in input;
    }
    if NoTies(w, sortInput, input) {
      forall i, j | 0 <= i < |sorted| && 0 <= j < |sorted|
        ensures !Tied(w, sortInput, sorted[i], sorted[j])
      {
        assert sorted[i] in input && sorted[j] in input;
      }
    }
  }

  /** Sorting and removing duplicates, the built-in sort having produced `sorted`: a list of the same nodes, and
      strictly increasing exactly if no two different nodes tie. The sort need only respect the comparator,
      and have compared equal nodes, where it is a total order. */
  method SortUnique(w: World, sortInput: Option<seq<Place>>, ghost input: seq<Place>, sorted: seq<Place>,
                    hasDuplicate: bool)
    returns (results: seq<Place>)
    requires multiset(sorted) == multiset(input)
    requires NoTies(w, sortInput, input) ==> InOrder(w, sortInput, sorted)
    requires NoTies(w, sortInput, input) && !hasDuplicate ==>
               forall i, j | 0 <= i < j < |sorted| :: sorted[i] != sorted[j]
    ensures forall x :: x in results <==> x in input
    ensures StrictlyInOrder(w, sortInput, results) <==> NoTies(w, sortInput, input)
  {
    SameTies(w, sortInput, input, sorted);
    results := sorted;
    if hasDuplicate {
      results := RemoveRepeats(sorted);
      forall x { KeptElements(sorted, 0, x); }
      assert sorted[0..] == sorted;
      if NoTies(w, sortInput, input) {
        KeptStrict(w, sortInput, sorted, 0);
      }
    } else if NoTies(w, sortInput, input) {
      forall i, j | 0 <= i < j < |results|
        ensures Order(w, sortInput, results[i], results[j]) < 0
      {
        assert !Tied(w, sortInput, sorted[i], sorted[j]);
      }
    }
    if StrictlyInOrder(w, sortInput, results) {
      StrictNeedsNoTies(w, sortInput, input, results);
    }
  }
}
