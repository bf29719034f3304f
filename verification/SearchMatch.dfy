/**
 Matching a query against an index entry. The regular expression is a function from a start index
 to the next match, whose groups alternate between query tokens and what lies between them. Scores
 are in units of one twentieth.
 */
module SearchMatch {
  import opened Prelude
  import opened Highlight

  /** The character tests of the script: changed by lower-casing, changed by upper-casing, and
      neither a non-word character nor an underscore. */
  datatype Alphabet = Alphabet(isUpper: char -> bool, isLower: char -> bool, isWord: char -> bool)

  datatype Match = Match(index: nat, groups: seq<string>)

  type Finder = nat -> Option<Match>

  /** Where the j-th group of the match starts in the input. */
  function Offset(m: Match, j: nat): (o: nat)
    requires j <= |m.groups|
    ensures m.index <= o
  {
    if j == 0 then m.index else Offset(m, j - 1) + |m.groups[j - 1]|
  }

  function End(m: Match): nat {
    Offset(m, |m.groups|)
  }

  /** Token and filler groups in turn, within the input. */
  predicate Shaped(input: string, m: Match) {
    |m.groups| % 2 == 0 && |m.groups| > 0 && End(m) <= |input|
  }

  /** What `exec` returns: groups of that shape, tokens not empty, lying one after the other in the
      input. */
  ghost predicate Tiles(input: string, m: Match) {
    && Shaped(input, m)
    && (forall k: nat | 2 * k < |m.groups| :: Token(m, k) != "")
    && (forall j: nat | j < |m.groups| ::
          Offset(m, j) + |m.groups[j]| <= |input| && InputAt(input, m, j) == m.groups[j])
  }

  function Token(m: Match, k: nat): string
    requires 2 * k < |m.groups|
  {
    m.groups[2 * k]
  }

  function InputAt(input: string, m: Match, j: nat): string
    requires j < |m.groups| && Offset(m, j) + |m.groups[j]| <= |input|
  {
    input[Offset(m, j)..Offset(m, j) + |m.groups[j]|]
  }

  ghost predicate IsFinder(input: string, find: Finder) {
    forall from: nat :: find(from).Some? ==> from <= find(from).value.index && Tiles(input, find(from).value)
  }

  // ----- the widening search -----

  /** The last dot at or before `k`; a negative `k` counts as 0. */
  function LastDot(input: string, k: int): (d: int)
    ensures -1 <= d < |input| && (d >= 0 ==> input[d] == '.' && (d <= k || d == 0))
    ensures forall j | d < j < |input| && (j <= k || j == 0) :: input[j] != '.'
    decreases if k < 0 then 0 else k + 1
  {
    if input == "" then -1
    else if k <= 0 then (if input[0] == '.' then 0 else -1)
    else if k < |input| && input[k] == '.' then k
    else LastDot(input, k - 1)
  }

  /** The match reaches the name region. */
  predicate Touches(m: Option<Match>, startOfName: nat, endOfName: nat) {
    m.Some? && startOfName <= End(m.value) && m.value.index <= endOfName
  }

  predicate StartsWithDot(input: string) {
    input != "" && input[0] == '.'
  }

  /** The indices the search starts from: the name, then after each dot before it, then the start. */
  predicate Candidate(input: string, startOfName: nat, c: nat)
    requires startOfName <= |input|
  {
    c == startOfName ||
    (c < startOfName && if c == 0 then !StartsWithDot(input) else input[c - 1] == '.')
  }

  datatype Search = Nothing | Diverges | At(from: nat, m: Match)

  /** No search from a candidate beyond `from` finds a match that reaches the name. */
  ghost predicate NoneBeyond(input: string, find: Finder, startOfName: nat, endOfName: nat, from: int)
    requires startOfName <= |input|
  {
    forall c: nat | from < c && Candidate(input, startOfName, c) :: !Touches(find(c), startOfName, endOfName)
  }

  /** The nearest candidate with a match wins. Without one the search ends, unless the input starts
      with a dot and the name does not start there: then it runs forever. */
  ghost predicate Widened(input: string, find: Finder, startOfName: nat, endOfName: nat, r: Search)
    requires startOfName <= |input|
  {
    match r
    case At(from, m) =>
      && Candidate(input, startOfName, from) && find(from) == Some(m) && Touches(Some(m), startOfName, endOfName)
      && NoneBeyond(input, find, startOfName, endOfName, from)
    case Diverges => NoneBeyond(input, find, startOfName, endOfName, -1) && StartsWithDot(input) && startOfName > 0
    case Nothing => NoneBeyond(input, find, startOfName, endOfName, -1) && !(StartsWithDot(input) && startOfName > 0)
  }

  /** Widens the search area until a match reaches the name. */
  method Widen(input: string, find: Finder, startOfName: nat, endOfName: nat) returns (r: Search)
    requires startOfName <= |input|
    ensures Widened(input, find, startOfName, endOfName, r)
  {
    var from: nat := startOfName;
    while !Touches(find(from), startOfName, endOfName)
      invariant Candidate(input, startOfName, from)
      invariant NoneBeyond(input, find, startOfName, endOfName, from)
      decreases from
    {
      if from == 0 {
        return Nothing;
      }
      var next := LastDot(input, from - 2) + 1;
      if next == from {
        return Diverges;  // the loop has come back to the state it was in
      }
      from := next;
    }
    r := At(from, find(from).value);
  }

  /** The outcome of the widening search is determined by the input. */
  lemma WidenedIsUnique(input: string, find: Finder, startOfName: nat, endOfName: nat, r: Search, r': Search)
    requires startOfName <= |input|
    requires Widened(input, find, startOfName, endOfName, r) && Widened(input, find, startOfName, endOfName, r')
    ensures r == r'
  {
  }

  /** An input for which the search never ends. */
  lemma LeadingDotHangs(r: Search)
    requires Widened(".a", _ => None, 1, 2, r)
    ensures r == Diverges
  {
  }

  // ----- scoring -----

  function Dots(s: string): nat {
    if s == "" then 0 else Dots(s[1..]) + if s[0] == '.' || s[0] == '(' then 1 else 0
  }

  function Capitals(s: string, inRun: bool): nat {
    if s == "" then 0
    else
      var capital := 'A' <= s[0] <= 'Z';
      Capitals(s[1..], capital) + if capital && !inRun then 1 else 0
  }

  function Noise(s: string): nat {
    4 * Dots(s) + 2 * Capitals(s, false) + |s|
  }

  /** There is an i-th character, and it passes the test. */
  predicate Passes(test: char -> bool, input: string, i: int) {
    0 <= i < |input| && test(input[i])
  }

  /** What a token costs that does not start at a word boundary; None if it may not stand there. */
  function Anchor(a: Alphabet, input: string, start: nat, prevEnd: int, upperToken: bool): Option<nat> {
    var isUpper := Passes(a.isUpper, input, start);
    if start != 0 && Passes(a.isWord, input, start - 1) && Passes(a.isWord, input, start) then
      if isUpper && (Passes(a.isLower, input, start - 1) || Passes(a.isLower, input, start + 1)) then Some(2)
      else if upperToken && start == prevEnd then Some(if isUpper then 2 else 20)
      else None
    else Some(0)
  }

  datatype Found = NoMatch | Hangs | Found(score: int, boundaries: seq<nat>)

  /** The boundaries are where the first 2n groups start, so the k-th pair encloses the k-th token. */
  ghost predicate Encloses(bs: seq<nat>, m: Match, n: nat) {
    |bs| == 2 * n <= |m.groups| && forall i | 0 <= i < |bs| :: bs[i] == Offset(m, i)
  }

  /** Where the token before the k-th ended. */
  function PrevEnd(m: Match, k: nat): int
    requires 2 * k <= |m.groups|
  {
    if k == 0 then -1 else Offset(m, 2 * k - 1)
  }

  /** What lies between two tokens costs only inside the name. */
  function FillerCost(filler: string, prevEnd: nat, endOfName: nat): nat {
    if filler != "" && prevEnd < endOfName then Noise(filler) else 0
  }

  /** What the k-th token and the filler after it cost, by their positions alone. */
  function TokenCost(a: Alphabet, input: string, m: Match, upper: seq<bool>, endOfName: nat, k: nat): Option<nat>
    requires 2 * k + 1 < |m.groups|
  {
    var anchor := Anchor(a, input, Offset(m, 2 * k), PrevEnd(m, k), k < |upper| && upper[k]);
    if anchor.None? then None
    else
      Some(anchor.value + FillerCost(m.groups[2 * k + 1], Offset(m, 2 * k + 1), endOfName))
  }

  /** The cost of the first `n` tokens, if all of them may stand where they do. */
  function TokensCost(a: Alphabet, input: string, m: Match, upper: seq<bool>, endOfName: nat, n: nat): Option<nat>
    requires 2 * n <= |m.groups|
  {
    if n == 0 then Some(0)
    else
      var before := TokensCost(a, input, m, upper, endOfName, n - 1);
      var last := TokenCost(a, input, m, upper, endOfName, n - 1);
      if before.None? || last.None? then None else Some(before.value + last.value)
  }

  /** The cost of what the match leaves out of the name, behind it and before it. */
  function MissingCost(input: string, m: Match, startOfName: nat, endOfName: nat): nat
    requires End(m) <= |input| && startOfName <= |input| && endOfName <= |input|
  {
    var matchEnd := End(m);
    var missing := !(matchEnd > 0 && input[matchEnd - 1] == '.') && endOfName > matchEnd;
    Noise(input[..Max(startOfName, m.index)]) + if missing then Noise(input[matchEnd..endOfName]) else 0
  }

  lemma {:induction false} CostSticks(a: Alphabet, input: string, m: Match, upper: seq<bool>, endOfName: nat,
                                      k: nat, n: nat)
    requires k <= n && 2 * n <= |m.groups|
    requires TokensCost(a, input, m, upper, endOfName, k).None?
    ensures TokensCost(a, input, m, upper, endOfName, n).None?
    decreases n - k
  {
    if k < n {
      CostSticks(a, input, m, upper, endOfName, k, n - 1);
    }
  }

  /** The loop's own variables after `k` tokens: running start, previous end, cost, boundaries. */
  ghost predicate Tallied(a: Alphabet, input: string, m: Match, upper: seq<bool>, endOfName: nat, k: nat,
                          start: nat, prevEnd: int, total: nat, bs: seq<nat>)
  {
    && 2 * k <= |m.groups| && start == Offset(m, 2 * k) && prevEnd == PrevEnd(m, k)
    && TokensCost(a, input, m, upper, endOfName, k) == Some(total)
    && Encloses(bs, m, k)
  }

  lemma TokenRejected(a: Alphabet, input: string, m: Match, upper: seq<bool>, endOfName: nat, k: nat,
                      start: nat, prevEnd: int, total: nat, bs: seq<nat>)
    requires Tallied(a, input, m, upper, endOfName, k, start, prevEnd, total, bs) && 2 * k + 1 < |m.groups|
    requires Anchor(a, input, start, prevEnd, k < |upper| && upper[k]).None?
    ensures TokensCost(a, input, m, upper, endOfName, |m.groups| / 2) == None
  {
    CostSticks(a, input, m, upper, endOfName, k + 1, |m.groups| / 2);
  }

  lemma TokenAccepted(a: Alphabet, input: string, m: Match, upper: seq<bool>, endOfName: nat, k: nat,
                      start: nat, prevEnd: int, total: nat, bs: seq<nat>)
    requires Tallied(a, input, m, upper, endOfName, k, start, prevEnd, total, bs) && 2 * k + 1 < |m.groups|
    requires Anchor(a, input, start, prevEnd, k < |upper| && upper[k]).Some?
    ensures
      var tokenEnd, filler := start + |m.groups[2 * k]|, m.groups[2 * k + 1];
      var anchor := Anchor(a, input, start, prevEnd, k < |upper| && upper[k]).value;
      Tallied(a, input, m, upper, endOfName, k + 1, tokenEnd + |filler|, tokenEnd,
              total + anchor + FillerCost(filler, tokenEnd, endOfName), bs + [start, tokenEnd])
  {
    EnclosesNext(bs, m, k);
    OffsetNext(m, 2 * k);
  }

  /** The loop over the groups, with its running start, previous end and score. */
  method ScoreTokens(a: Alphabet, input: string, m: Match, upper: seq<bool>, endOfName: nat)
    returns (cost: Option<nat>, boundaries: seq<nat>)
    requires Shaped(input, m)
    ensures cost == TokensCost(a, input, m, upper, endOfName, |m.groups| / 2)
    ensures cost.Some? ==> Encloses(boundaries, m, |m.groups| / 2)
  {
    boundaries := [];
    var total: nat := 0;
    var start: nat := m.index;
    var prevEnd := -1;
    var k := 0;
    while 2 * k < |m.groups|
      invariant Tallied(a, input, m, upper, endOfName, k, start, prevEnd, total, boundaries)
    {
      var token, filler := m.groups[2 * k], m.groups[2 * k + 1];
      var anchor := Anchor(a, input, start, prevEnd, k < |upper| && upper[k]);
      if anchor.None? {
        TokenRejected(a, input, m, upper, endOfName, k, start, prevEnd, total, boundaries);
        return None, [];
      }
      TokenAccepted(a, input, m, upper, endOfName, k, start, prevEnd, total, boundaries);
      boundaries := boundaries + [start, start + |token|];
      prevEnd := start + |token|;
      start := start + |token| + |filler|;
      total := total + anchor.value + FillerCost(filler, prevEnd, endOfName);
      k := k + 1;
    }
    cost := Some(total);
  }

  /** The score is 100 less every cost; a match that costs everything is none. */
  ghost predicate Scored(a: Alphabet, input: string, m: Match, upper: seq<bool>, startOfName: nat, endOfName: nat,
                         r: Found)
    requires Shaped(input, m) && startOfName <= |input| && endOfName <= |input|
  {
    var tokens := TokensCost(a, input, m, upper, endOfName, |m.groups| / 2);
    var missing := MissingCost(input, m, startOfName, endOfName);
    if tokens.None? || tokens.value + missing >= 100 then r == NoMatch
    else r.Found? && r.score == 100 - tokens.value - missing && Encloses(r.boundaries, m, |m.groups| / 2)
  }

  method Score(a: Alphabet, input: string, m: Match, upper: seq<bool>, startOfName: nat, endOfName: nat)
    returns (r: Found)
    requires Shaped(input, m) && startOfName <= |input| && endOfName <= |input|
    ensures Scored(a, input, m, upper, startOfName, endOfName, r)
  {
    var cost, boundaries := ScoreTokens(a, input, m, upper, endOfName);
    if cost.None? {
      return NoMatch;
    }
    var spent: int := cost.value;
    var score: int := 100 - spent;
    var matchEnd := End(m);
    if !(matchEnd > 0 && input[matchEnd - 1] == '.') && endOfName > matchEnd {
      score := score - Noise(input[matchEnd..endOfName]);
    }
    score := score - Noise(input[..Max(startOfName, m.index)]);
    if score <= 0 {
      return NoMatch;
    }
    r := Found(score, boundaries);
  }

  lemma OffsetNext(m: Match, j: nat)
    requires j < |m.groups|
    ensures Offset(m, j + 1) == Offset(m, j) + |m.groups[j]|
  {
  }

  lemma EnclosesNext(bs: seq<nat>, m: Match, k: nat)
    requires 2 * k + 1 < |m.groups| && Encloses(bs, m, k)
    ensures Encloses(bs + [Offset(m, 2 * k), Offset(m, 2 * k) + |m.groups[2 * k]|], m, k + 1)
    ensures Offset(m, 2 * (k + 1)) == Offset(m, 2 * k) + |m.groups[2 * k]| + |m.groups[2 * k + 1]|
  {
    OffsetNext(m, 2 * k);
    OffsetNext(m, 2 * k + 1);
  }

  lemma {:induction false} OffsetsGrow(m: Match, i: nat, j: nat)
    requires i <= j <= |m.groups|
    ensures Offset(m, i) <= Offset(m, j)
    decreases j - i
  {
    if i < j {
      OffsetNext(m, j - 1);
      OffsetsGrow(m, i, j - 1);
    }
  }

  /** Boundaries that enclose the tokens are ordered, do not overlap and lie inside the match. */
  lemma EnclosingIsOrdered(bs: seq<nat>, m: Match)
    requires Encloses(bs, m, |m.groups| / 2) && |m.groups| % 2 == 0
    ensures InOrder(bs)
    ensures forall i | 0 <= i < |bs| :: m.index <= bs[i] <= End(m)
  {
    forall i, j | 0 <= i < j < |bs|
      ensures bs[i] <= bs[j]
    {
      OffsetsGrow(m, i, j);
    }
    forall i | 0 <= i < |bs|
      ensures m.index <= bs[i] <= End(m)
    {
      OffsetsGrow(m, i, |m.groups|);
    }
  }

  /** The text between the boundaries of a pair is the token. */
  lemma EnclosingSpells(input: string, bs: seq<nat>, m: Match, k: nat)
    requires Tiles(input, m) && Encloses(bs, m, |m.groups| / 2) && 2 * k + 1 < |bs|
    ensures Lo(bs, k) <= Hi(bs, k) <= |input| && input[Lo(bs, k)..Hi(bs, k)] == Token(m, k)
  {
    OffsetNext(m, 2 * k);
    assert InputAt(input, m, 2 * k) == m.groups[2 * k];
  }

  // ----- from match to markup -----

  /** The boundaries moved behind the prefix of the qualified name. */
  function Shift(bs: seq<nat>, n: nat): (r: seq<nat>)
    ensures |r| == |bs| && forall i | 0 <= i < |bs| :: r[i] == bs[i] + n
  {
    seq(|bs|, i requires 0 <= i < |bs| => bs[i] + n)
  }

  lemma ShiftMoves(bs: seq<nat>, n: nat, x: nat)
    ensures InOrder(bs) ==> InOrder(Shift(bs, n))
    ensures InPair(Shift(bs, n), x) <==> x >= n && InPair(bs, x - n)
  {
    var r := Shift(bs, n);
    if k: nat :| 2 * k + 1 < |r| && Lo(r, k) <= x < Hi(r, k) {
      assert Lo(bs, k) <= x - n < Hi(bs, k);
    }
    if x >= n && InPair(bs, x - n) {
      var k: nat :| 2 * k + 1 < |bs| && Lo(bs, k) <= x - n < Hi(bs, k);
      assert Lo(r, k) <= x < Hi(r, k);
    }
  }

  /** A character of the simple name belongs to a matched token. */
  ghost predicate InToken(m: Match, x: int) {
    exists k: nat | 2 * k + 1 < |m.groups| :: Offset(m, 2 * k) <= x < Offset(m, 2 * k) + |Token(m, k)|
  }

  lemma PairsAreTokens(input: string, bs: seq<nat>, m: Match, x: nat)
    requires Tiles(input, m) && Encloses(bs, m, |m.groups| / 2)
    ensures InPair(bs, x) <==> InToken(m, x)
  {
    forall k: nat | 2 * k + 1 < |bs|
      ensures Lo(bs, k) == Offset(m, 2 * k) && Hi(bs, k) == Offset(m, 2 * k) + |Token(m, k)|
    {
      OffsetNext(m, 2 * k);
    }
    if InPair(bs, x) {
      var k: nat :| 2 * k + 1 < |bs| && Lo(bs, k) <= x < Hi(bs, k);
      assert Offset(m, 2 * k) <= x < Offset(m, 2 * k) + |Token(m, k)|;
    }
    if InToken(m, x) {
      var k: nat :| 2 * k + 1 < |m.groups| && Offset(m, 2 * k) <= x < Offset(m, 2 * k) + |Token(m, k)|;
      assert Lo(bs, k) <= x < Hi(bs, k);
    }
  }

  /** A finder with, for each token, whether it is upper case. */
  datatype Matcher = Matcher(find: Finder, upper: seq<bool>)

  /** A search and what came of it. */
  datatype Attempt = Attempt(search: Search, found: Found)

  /** The whole of `findMatch`: where it looked and how it scored what it found there. */
  ghost predicate Finds(a: Alphabet, input: string, matcher: Matcher, startOfName: nat, endOfName: nat, r: Attempt)
    requires startOfName <= |input| && endOfName <= |input|
  {
    && Widened(input, matcher.find, startOfName, endOfName, r.search)
    && match r.search
       case Nothing => r.found == NoMatch
       case Diverges => r.found == Hangs
       case At(_, m) => Tiles(input, m) && Scored(a, input, m, matcher.upper, startOfName, endOfName, r.found)
  }

  /** A match that touches the name region, costs less than everything, and has ordered boundaries
      inside the match, each pair around a token of the query. */
  ghost predicate Sound(input: string, m: Match, startOfName: nat, endOfName: nat, score: int, bs: seq<nat>) {
    && 0 < score <= 100
    && Tiles(input, m) && Touches(Some(m), startOfName, endOfName)
    && InOrder(bs) && |bs| == |m.groups|
    && (forall i | 0 <= i < |bs| :: m.index <= bs[i] <= End(m))
    && (forall k: nat | 2 * k + 1 < |bs| :: Spells(input, bs, m, k))
  }

  ghost predicate Spells(input: string, bs: seq<nat>, m: Match, k: nat) {
    && 2 * k + 1 < |bs| == |m.groups|
    && Lo(bs, k) <= Hi(bs, k) <= |input| && input[Lo(bs, k)..Hi(bs, k)] == Token(m, k)
  }

  /** Every match found is sound; and the search never ends exactly when the input starts with a
      dot, the name does not, and no candidate has a match that reaches the name. */
  method FindMatch(a: Alphabet, input: string, matcher: Matcher, startOfName: nat, endOfName: nat)
    returns (r: Attempt)
    requires IsFinder(input, matcher.find) && startOfName <= |input| && endOfName <= |input|
    ensures Finds(a, input, matcher, startOfName, endOfName, r)
    ensures r.found.Found? ==>
              r.search.At? && Sound(input, r.search.m, startOfName, endOfName, r.found.score, r.found.boundaries)
    ensures r.found.Hangs? <==>
            StartsWithDot(input) && startOfName > 0 && NoneBeyond(input, matcher.find, startOfName, endOfName, -1)
  {
    var search := Widen(input, matcher.find, startOfName, endOfName);
    match search
    case Nothing =>
      r := Attempt(search, NoMatch);
    case Diverges =>
      r := Attempt(search, Hangs);
    case At(from, m) =>
      assert Tiles(input, matcher.find(from).value);
      var found := Score(a, input, m, matcher.upper, startOfName, endOfName);
      r := Attempt(search, found);
      if found.Found? {
        ScoredIsSound(a, input, m, matcher.upper, startOfName, endOfName, found);
      }
      assert Touches(matcher.find(from), startOfName, endOfName);
  }

  lemma ScoredIsSound(a: Alphabet, input: string, m: Match, upper: seq<bool>, startOfName: nat, endOfName: nat,
                      r: Found)
    requires startOfName <= |input| && endOfName <= |input| && Tiles(input, m)
    requires Touches(Some(m), startOfName, endOfName)
    ensures Scored(a, input, m, upper, startOfName, endOfName, r) && r.Found? ==>
              Sound(input, m, startOfName, endOfName, r.score, r.boundaries)
  {
    if Scored(a, input, m, upper, startOfName, endOfName, r) && r.Found? {
      EnclosingIsOrdered(r.boundaries, m);
      forall k: nat | 2 * k + 1 < |r.boundaries|
        ensures Spells(input, r.boundaries, m, k)
      {
        EnclosingSpells(input, r.boundaries, m, k);
      }
    }
  }

  /** The label is the qualified name, and exactly the characters of the matched tokens, moved
      behind the prefix, are highlighted. */
  ghost predicate Labels(text: string, full: string, m: Match, shift: nat) {
    exists bs :: Read(text, false) == Expected(full, bs, 0, |full|) && MarksTokens(bs, m, shift)
  }

  ghost predicate MarksTokens(bs: seq<nat>, m: Match, shift: nat) {
    forall x: nat :: InPair(bs, x) <==> InToken(m, x - shift)
  }

  /** An entry of the index, matched by its qualified or its simple name, with a second try by
      camel case where the first finds nothing. */
  method FindEntry(a: Alphabet, input: string, startOfName: nat, endOfName: nat,
                   plain: Matcher, camelCase: Option<Matcher>)
    returns (first: Attempt, last: Attempt)
    requires startOfName <= |input| && endOfName <= |input| && IsFinder(input, plain.find)
    requires camelCase.Some? ==> IsFinder(input, camelCase.value.find)
    ensures Finds(a, input, plain, startOfName, endOfName, first)
    ensures if first.found.NoMatch? && camelCase.Some?
            then Finds(a, input, camelCase.value, startOfName, endOfName, last)
            else last == first
  {
    first := FindMatch(a, input, plain, startOfName, endOfName);
    last := first;
    if first.found.NoMatch? && camelCase.Some? {
      last := FindMatch(a, input, camelCase.value, startOfName, endOfName);
    }
  }

  /** Renders a found entry: the boundaries move behind the prefix where only the simple name was
      searched, and the whole qualified name is shown. */
  method LabelFor(input: string, prefix: string, name: string, useQualified: bool, bs: seq<nat>, ghost m: Match)
    returns (text: string)
    requires input == if useQualified then prefix + name else name
    requires Tiles(input, m) && Encloses(bs, m, |m.groups| / 2)
    ensures Labels(text, prefix + name, m, if useQualified then 0 else |prefix|)
  {
    var shift := if useQualified then 0 else |prefix|;
    var moved := Shift(bs, shift);
    PairsAfterShift(input, bs, m, shift);
    text := GetHighlightedText(prefix + name, moved, 0, |prefix + name|);
    assert MarksTokens(moved, m, shift);
  }

  lemma PairsAfterShift(input: string, bs: seq<nat>, m: Match, shift: nat)
    requires Tiles(input, m) && Encloses(bs, m, |m.groups| / 2)
    ensures InOrder(Shift(bs, shift)) && MarksTokens(Shift(bs, shift), m, shift)
  {
    EnclosingIsOrdered(bs, m);
    ShiftMoves(bs, shift, 0);
    forall x: nat
      ensures InPair(Shift(bs, shift), x) <==> InToken(m, x - shift)
    {
      ShiftMoves(bs, shift, x);
      if x >= shift {
        PairsAreTokens(input, bs, m, x - shift);
      }
    }
  }

  // ----- what the costs are, told by positions -----

  predicate IsDot(c: char) {
    c == '.' || c == '('
  }

  predicate IsCapital(c: char) {
    'A' <= c <= 'Z'
  }

  /** The positions of dots and opening parentheses. */
  ghost function DotsIn(s: string): set<nat> {
    set i: nat | i < |s| && IsDot(s[i])
  }

  /** The positions at which a run of capitals begins. */
  ghost function RunsIn(s: string): set<nat> {
    set i: nat | i < |s| && Begins(s, i)
  }

  predicate Begins(s: string, i: nat)
    requires i < |s|
  {
    IsCapital(s[i]) && (i == 0 || !IsCapital(s[i - 1]))
  }

  lemma {:induction false} DotsNext(s: string, c: char)
    ensures Dots(s + [c]) == Dots(s) + if IsDot(c) then 1 else 0
  {
    if s == "" {
      assert "" + [c] == [c] && [c][1..] == "";
    } else {
      assert (s + [c])[1..] == s[1..] + [c];
      DotsNext(s[1..], c);
    }
  }

  lemma {:induction false} CapitalsNext(s: string, c: char, inRun: bool)
    ensures Capitals(s + [c], inRun) ==
            Capitals(s, inRun) +
            if IsCapital(c) && !(if s == "" then inRun else IsCapital(s[|s| - 1])) then 1 else 0
  {
    if s == "" {
      assert "" + [c] == [c] && [c][1..] == "";
    } else {
      assert (s + [c])[1..] == s[1..] + [c];
      CapitalsNext(s[1..], c, IsCapital(s[0]));
    }
  }

  lemma OneMore(s: set<nat>, n: nat, more: bool)
    requires n !in s
    ensures |s + if more then {n} else {}| == |s| + if more then 1 else 0
  {
  }

  /** Noise, in twentieths: four for each dot or parenthesis, two for each run of capitals, one for each
      character. */
  lemma {:induction false} NoiseCounts(s: string)
    ensures Noise(s) == 4 * |DotsIn(s)| + 2 * |RunsIn(s)| + |s|
  {
    DotsCount(s);
    RunsCount(s);
  }

  lemma DotsGrow(s: string)
    requires s != ""
    ensures
      var n := |s| - 1;
      DotsIn(s) == DotsIn(s[..n]) + if IsDot(s[n]) then {n} else {}
  {
    var n := |s| - 1;
    assert forall i | 0 <= i < n :: s[i] == s[..n][i];
  }

  lemma {:induction false} DotsCount(s: string)
    ensures Dots(s) == |DotsIn(s)|
  {
    if s != "" {
      var n := |s| - 1;
      var front := s[..n];
      assert s == front + [s[n]];
      DotsCount(front);
      DotsNext(front, s[n]);
      OneMore(DotsIn(front), n, IsDot(s[n]));
      DotsGrow(s);
    }
  }

  lemma RunsGrow(s: string)
    requires s != ""
    ensures
      var n := |s| - 1;
      RunsIn(s) == RunsIn(s[..n]) + if Begins(s, n) then {n} else {}
  {
    var n := |s| - 1;
    assert forall i: nat | i < n :: Begins(s, i) <==> Begins(s[..n], i);
  }

  lemma {:induction false} RunsCount(s: string)
    ensures Capitals(s, false) == |RunsIn(s)|
  {
    if s != "" {
      var n := |s| - 1;
      var front := s[..n];
      assert s == front + [s[n]];
      RunsCount(front);
      CapitalsNext(front, s[n], false);
      OneMore(RunsIn(front), n, Begins(s, n));
      RunsGrow(s);
    }
  }

  /** Between two word characters. */
  predicate MidWord(a: Alphabet, input: string, start: nat) {
    0 < start < |input| && a.isWord(input[start - 1]) && a.isWord(input[start])
  }

  /** A capital with a small letter beside it. */
  predicate CamelHump(a: Alphabet, input: string, start: nat) {
    && 0 < start < |input| && a.isUpper(input[start])
    && (a.isLower(input[start - 1]) || (start + 1 < |input| && a.isLower(input[start + 1])))
  }

  /** A token may start at a word boundary for nothing; in a word at a hump for a tenth; or, if the query's token is
      upper case and follows the one before, for a tenth at a capital and for one elsewhere; nowhere else. */
  lemma AnchorCosts(a: Alphabet, input: string, start: nat, prevEnd: int, upperToken: bool)
    ensures
      var cost := Anchor(a, input, start, prevEnd, upperToken);
      var mid, hump, follows := MidWord(a, input, start), CamelHump(a, input, start), upperToken && start == prevEnd;
      && (cost == Some(0) <==> !mid)
      && (cost == Some(2) <==> mid && (hump || (follows && a.isUpper(input[start]))))
      && (cost == Some(20) <==> mid && !hump && follows && !a.isUpper(input[start]))
      && (cost == None <==> mid && !hump && !follows)
  {
  }

  /** The score of a match of one token: 5, less the cost of where it stands, of what follows it inside the match
      and the name, of what comes before, and of what is missing at the end unless the match ends with a dot. */
  lemma OneTokenScore(a: Alphabet, input: string, m: Match, upper: seq<bool>, startOfName: nat, endOfName: nat,
                      r: Found)
    requires startOfName <= |input| && endOfName <= |input| && |m.groups| == 2 && Tiles(input, m)
    requires Scored(a, input, m, upper, startOfName, endOfName, r)
    ensures
      var tokenEnd := m.index + |m.groups[0]|;
      var matchEnd := tokenEnd + |m.groups[1]|;
      var anchor := Anchor(a, input, m.index, -1, |upper| > 0 && upper[0]);
      var inside := if tokenEnd < endOfName then Noise(m.groups[1]) else 0;
      var before := Noise(input[..if startOfName < m.index then m.index else startOfName]);
      var cutShort := 0 < matchEnd < endOfName && input[matchEnd - 1] != '.';
      var missing := if cutShort then Noise(input[matchEnd..endOfName]) else 0;
      var cost := (if anchor.Some? then anchor.value else 100) + inside + before + missing;
      if cost < 100 then r.Found? && r.score == 100 - cost else r == NoMatch
  {
    OffsetNext(m, 0);
    OffsetNext(m, 1);
    var none := TokensCost(a, input, m, upper, endOfName, 0);
    assert none == Some(0);
    assert Token(m, 0) != "";
    NoNoise();
  }

  lemma NoNoise()
    ensures Noise("") == 0
  {
  }

  /** The cost of each further token adds up. */
  lemma TokensAddUp(a: Alphabet, input: string, m: Match, upper: seq<bool>, endOfName: nat, k: nat)
    requires 2 * k + 1 < |m.groups| && TokensCost(a, input, m, upper, endOfName, k).Some?
    ensures
      var start, tokenEnd := Offset(m, 2 * k), Offset(m, 2 * k) + |m.groups[2 * k]|;
      var prevEnd := if k == 0 then -1 else Offset(m, 2 * k - 1);
      var anchor := Anchor(a, input, start, prevEnd, k < |upper| && upper[k]);
      var filler := if tokenEnd < endOfName then Noise(m.groups[2 * k + 1]) else 0;
      TokensCost(a, input, m, upper, endOfName, k + 1) ==
      if anchor.None? then None
      else Some(TokensCost(a, input, m, upper, endOfName, k).value + anchor.value + filler)
  {
    OffsetNext(m, 2 * k);
    NoNoise();
  }

  /** A match touches the name exactly if some position lies in both, ends included. */
  lemma TouchesIffMeet(m: Match, startOfName: nat, endOfName: nat)
    requires startOfName <= endOfName
    ensures Touches(Some(m), startOfName, endOfName) <==>
            exists x: nat :: Within(x, startOfName, endOfName) && Within(x, m.index, End(m))
  {
    if Touches(Some(m), startOfName, endOfName) {
      EndsAfter(m);
      var x := Max(m.index, startOfName);
      assert Within(x, startOfName, endOfName) && Within(x, m.index, End(m));
    }
  }

  predicate Within(x: nat, lo: nat, hi: nat) {
    lo <= x <= hi
  }

  lemma EndsAfter(m: Match)
    ensures m.index <= End(m)
  {
  }
}
