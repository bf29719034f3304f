# A verified model of jQuery's selector engine, callback machinery and the javadoc search

The API documentation of this repository ships the JavaScript that makes it work in a browser: jQuery
3.3.1 with its selector engine (Sizzle), jQuery UI's autocomplete, and the javadoc search script. This
project models the parts of that code with the most state, recursion and caching, and proves what they
are for. `dafny verify dfyconfig.toml` checks everything.

Main results, hardest first:

- **Selectors.** `SelectorCompiler` turns token lists into matchers, `SelectorEngine` runs them with the
  caches that live on the document's nodes. `SelectorEngine.Query` states the whole: for every tree,
  context, group list and candidate list, and whatever earlier runs left in the caches, compiling and
  running keeps exactly the candidates that some group accepts. `SelectorChains.AcceptsIffChain` says what
  accepting means: a chain of nodes, one per compound, related as the combinators say. The difficulty is
  the memoised walk: one mutable cell shared by all nodes a walk visits, slots overwritten by
  nested combinators, closures shared through the cache of compiled selectors, and `:not`, which changes the
  current run in the middle of a walk and does not restore it.
- **Callback lists.** `CallbackList` is a small-step machine in which callbacks add, remove, fire, lock
  and disable while the list is firing. `RunKeeps` is an invariant of every run; from it follow the
  order of rounds, that no survivor is skipped or called twice, and that a removed entry is never called.
  `Callbacks` is the object itself, each method proved to take the corresponding step. `CallbackLaws` says what
  a run does by the calls made on the list alone.
- **Deferred, then, when.** `Deferred` composes four such lists; over every run the first resolve or
  reject decides, and callbacks run exactly once with its arguments. `PromiseResolution` proves the depth
  counter of `then` equal to a reference that waits for one level at a time, for thenables that call functions of
  any level, and `DerivedDeferred` composes the two: the deferred behind `then` runs its callbacks as the
  reference says. `When` says exactly when the counter and the master of `when` are right.
- **Document order and duplicate removal**, against an independent preorder traversal.
- **Tokenizer and its cache**: printing undoes tokenizing, the cache is transparent, and `TokenCuts` says exactly
  which selectors are accepted, and as what.
- **Event handler lists**, **search matching and highlighting**, and **autocomplete's protocol**.

Some properties turned out false of the code; the model keeps the code as it is, shows the input, and
proves exactly when the property holds:

- The count that `:nth-last-child` remembers is right exactly for elements that do not precede the first
  one asked for (`NthLastChild.AskAll`, `NthLastChild.BackwardsIsWrong`).
- The comparator puts the root of a detached tree after its own descendants
  (`DocumentOrder.OrderIsPreorder`), and with nodes of several detached trees it is not transitive
  (`DocumentOrder.OrderIsNotConsistentAcrossTrees`); it is a strict total order exactly where different
  nodes do not tie, as `Tied` defines (`DocumentOrder.SortOrder`, `DocumentOrder.OrderIsTotal`,
  `UniqueSort.StrictNeedsNoTies`).
- A cache with a length of zero bounds nothing (`BoundedCache.BoundHoldsIffPositive`). One of positive length
  keeps the most recent entries exactly as long as no store drops a key, other than the one it stores itself,
  that was stored again among the most recent ones (`BoundedCache.KeepsTheLatestExactlyWhen`, `BoundedCache.RestoringDropsRecentKey`).
- The counter of `when` is right exactly if no argument is fulfilled twice, and the master exactly if the
  fulfilments that resolve it are of different arguments (`When.RemainingExactlyWhen`,
  `When.PromiseKeptExactlyWhen`, `When.FulfillingTwiceResolvesEarly`).
- An escaped text is shown as it is exactly if it contains no entity of its own, since ampersands are not escaped
  (`Highlight.ShownExactlyWhen`).
- The widening search never ends exactly when the input starts with a dot, the name does not start there
  and no candidate matches (`SearchMatch.FindMatch`, `SearchMatch.LeadingDotHangs`).
- Autocomplete drops stale responses when they arrive, but a search issued by a handler of the response
  event and answered at once is overwritten by the older content
  (`Autocomplete.SearchingInHandlerGoesBack`); what is shown is current exactly when no such search was
  issued (`Autocomplete.ShownIsCurrentIff`, over whole runs `Autocomplete.AllCurrentIff`). `pending` is right exactly if no response callback is called twice,
  and `Autocomplete.LoadingExactlyWhen` says when the loading class still is
  (`Autocomplete.AnsweringTwiceEndsLoading`).

Conventions: a DOM node is its position in a finite ordered tree; regular expressions are functions from
the remaining text to a match; `dirruns` is a fresh run number; scores are in units of one twentieth.
Calls made by user code during a step are further steps. Ghost parameters and ghost fields (`ws`, `busy`,
`plain`, `trace`) carry specifications only. Where a class method takes a step of a specification function,
its contract is an equation between the abstract states, and the lemmas are about that function.

## Model

| member | source | states |
|---|---|---|
| `SelectorEngine.Query` | docs/javadoc/cert-extensions/jquery/jquery-3.3.1.js:2578-2600 | compiling a selector, or reusing what was compiled for the same text, and running it over any candidates returns, in order, exactly the candidates some group accepts, whatever was compiled and run before |
| `SelectorEngine.Session` | docs/javadoc/cert-extensions/jquery/jquery-3.3.1.js:2480-2506 | over a whole session of questions and document changes, with nothing ever cleared from any cache, every question is answered for the document of its time |
| `SelectorEngine.Do` | docs/javadoc/cert-extensions/jquery/jquery-3.3.1.js:2480-2506 | one question or one change of the document |
| `SelectorEngine.Engine.Select` | docs/javadoc/cert-extensions/jquery/jquery-3.3.1.js:2467-2506 | the outermost run, with one run number for all candidates, keeps exactly those that some group accepts |
| `SelectorEngine.SelectedIffAccepted` | docs/javadoc/cert-extensions/jquery/jquery-3.3.1.js:2490-2502 | a node is among the results exactly if it is a candidate that some group accepts |
| `SelectorEngine.SelectedInOrder` | docs/javadoc/cert-extensions/jquery/jquery-3.3.1.js:2490-2502 | the results keep the order of the candidates |
| `SelectorEngine.Engine.Match` | docs/javadoc/cert-extensions/jquery/jquery-3.3.1.js:2208-2284 | a compiled matcher run with the caches answers as the plain search without caches, and leaves every cache entry of this run right |
| `SelectorEngine.Engine.WalkCached` | docs/javadoc/cert-extensions/jquery/jquery-3.3.1.js:2226-2269 | the memoised walk is true exactly when some node further along satisfies the matcher; afterwards its cell, wherever it is stored, holds the right answer for that node |
| `SelectorEngine.Engine.TakeCached` | docs/javadoc/cert-extensions/jquery/jquery-3.3.1.js:2251-2255 | an answer left by an earlier walk of the same closure in the same run is the answer of this walk, and is right for every node this walk has visited |
| `SelectorEngine.Engine.AskAndStore` | docs/javadoc/cert-extensions/jquery/jquery-3.3.1.js:2256-2264 | storing the shared cell before asking, though nested walks overwrite slots meanwhile, keeps the caches right |
| `SelectorEngine.Engine.WalkUncached` | docs/javadoc/cert-extensions/jquery/jquery-3.3.1.js:2232-2239 | the walk on XML documents finds the same answer without caches |
| `SelectorEngine.Engine.WalkFirst` | docs/javadoc/cert-extensions/jquery/jquery-3.3.1.js:2215-2224 | `>` and `+` ask the one node that stands in the relation, and no other |
| `SelectorEngine.Engine.Nearest` | docs/javadoc/cert-extensions/jquery/jquery-3.3.1.js:2217-2223 | the node found is the only one related to the element by a first-only combinator |
| `SelectorEngine.Engine.MatchAll` | docs/javadoc/cert-extensions/jquery/jquery-3.3.1.js:2272-2284 | a compound holds exactly when all its matchers do |
| `SelectorEngine.Engine.MatchNone` | docs/javadoc/cert-extensions/jquery/jquery-3.3.1.js:1921-1950 | `:not` holds exactly when no group of its argument accepts the element, and the nested run it starts harms no cache of the outer one, even if its number was used before in the same outermost run |
| `SelectorEngine.Engine.SeekForward` | docs/javadoc/cert-extensions/jquery/jquery-3.3.1.js:1795-1823 | the count is the element's position, whatever index an earlier call in the run left on the parent, and what is left behind is right |
| `SelectorEngine.BehindDecides` | docs/javadoc/cert-extensions/jquery/jquery-3.3.1.js:2254-2261 | what is left to search decides the answer of every node already visited, so one cell serves them all |
| `SelectorEngine.SearchDecides` | docs/javadoc/cert-extensions/jquery/jquery-3.3.1.js:2226-2268 | once everything up to a node was tried in vain, the rest of the line decides |
| `SelectorEngine.InnerApart` | docs/javadoc/cert-extensions/jquery/jquery-3.3.1.js:2213-2213 | no closure inside a walk bears the walk's own name, so nested walks never read its unfinished cell |
| `SelectorEngine.AnyMeans` | docs/javadoc/cert-extensions/jquery/jquery-3.3.1.js:2589-2597 | the matchers, built from the last group to the first, accept what the groups accept |
| `SelectorCompiler.Compiler.MatcherFromTokens` | docs/javadoc/cert-extensions/jquery/jquery-3.3.1.js:2409-2465 | on every tree and in every run the matcher accepts exactly what the tokens mean; its own closures are new, those in `:not` belong to finished selectors |
| `SelectorCompiler.Compiler.FilterMatcher` | docs/javadoc/cert-extensions/jquery/jquery-3.3.1.js:2437-2460 | a filter token compiles to a matcher with its meaning, a `:not` through the compiled-selector cache |
| `SelectorCompiler.Compiler.CompileGroups` | docs/javadoc/cert-extensions/jquery/jquery-3.3.1.js:2589-2597 | one matcher per group, last group first, each with its group's meaning |
| `SelectorCompiler.Compiler.Compile` | docs/javadoc/cert-extensions/jquery/jquery-3.3.1.js:2578-2600 | with the cache of compiled selectors, whose entries may be shared by many `:not` arguments and dropped at any time, the matchers mean the groups of the text and their names are unambiguous |
| `SelectorCompiler.Compiler.Foundation` | docs/javadoc/cert-extensions/jquery/jquery-3.3.1.js:2412-2431 | the first matcher of a group means reachability from the context, with two new closures |
| `SelectorCompiler.Compiler.Wrap` | docs/javadoc/cert-extensions/jquery/jquery-3.3.1.js:2434-2435 | a combinator token puts everything so far inside one new closure |
| `SelectorCompiler.Compiler.Append` | docs/javadoc/cert-extensions/jquery/jquery-3.3.1.js:2436-2460 | a filter token adds one matcher to the compound |
| `ClosureNames.TwoEnvironments` | docs/javadoc/cert-extensions/jquery/jquery-3.3.1.js:1942-1944 | in a run there are two environments, and whether a closure stands inside a `:not` tells which is its own |
| `ClosureNames.FinishedIsUnambiguous` | docs/javadoc/cert-extensions/jquery/jquery-3.3.1.js:2213-2213 | in every run of a compiled selector a name belongs to one closure under one environment, shared closures included |
| `ClosureNames.GrowingFinishes` | docs/javadoc/cert-extensions/jquery/jquery-3.3.1.js:2599-2600 | a selector compiled to the end keeps its own closures apart from those inside its `:not` arguments |
| `ClosureNames.GrowingWalk` | docs/javadoc/cert-extensions/jquery/jquery-3.3.1.js:2208-2213 | a new closure keeps the book of names in order |
| `SelectorCompiler.Compiler.AddCombinator` | docs/javadoc/cert-extensions/jquery/jquery-3.3.1.js:2208-2213 | every closure gets the next name |
| `SelectorCompiler.ElementMatcher` | docs/javadoc/cert-extensions/jquery/jquery-3.3.1.js:2272-2284 | one matcher with the meaning, and the closures, of the whole list |
| `SelectorCompiler.ReachMeans` | docs/javadoc/cert-extensions/jquery/jquery-3.3.1.js:2412-2431 | the foundational matcher means reachability from the context, or nothing where the code skips the check |
| `SelectorCompiler.CombinatorMeans` | docs/javadoc/cert-extensions/jquery/jquery-3.3.1.js:2434-2435 | wrapping the matchers so far in a combinator means the tokens so far followed by that combinator |
| `SelectorCompiler.FilterMeans` | docs/javadoc/cert-extensions/jquery/jquery-3.3.1.js:2436-2460 | appending a filter's matcher means the tokens so far followed by that filter |
| `SelectorCompiler.NoneOfMeans` | docs/javadoc/cert-extensions/jquery/jquery-3.3.1.js:1921-1950 | negating the compiled groups means what `:not` of the groups means |
| `SelectorCompiler.ShortcutMeans` | docs/javadoc/cert-extensions/jquery/jquery-3.3.1.js:1757-1762 | the shortcut for `:nth-child(n)` means the same as the general case |
| `SelectorChains.AcceptsIffChain` | docs/javadoc/cert-extensions/jquery/jquery-3.3.1.js:2409-2465 | a group accepts a node exactly when a chain of nodes, one per compound, satisfies each compound and each combinator, starts reachable from the context and ends at the node |
| `SelectorChains.ChainExists` | docs/javadoc/cert-extensions/jquery/jquery-3.3.1.js:2433-2462 | from an accepted node the chain can be read off |
| `SelectorChains.ChainSuffices` | docs/javadoc/cert-extensions/jquery/jquery-3.3.1.js:2433-2462 | the end of any such chain is accepted |
| `SelectorChains.ChildIsParent` | docs/javadoc/cert-extensions/jquery/jquery-3.3.1.js:1626-1626 | in a document, `>` relates a node to its parent element and to nothing else |
| `SelectorChains.SiblingIsPreceding` | docs/javadoc/cert-extensions/jquery/jquery-3.3.1.js:1629-1629 | `~` relates an element to the elements before it under the same parent |
| `SelectorChains.AdjacentIsLastPreceding` | docs/javadoc/cert-extensions/jquery/jquery-3.3.1.js:1628-1628 | `+` relates it to the last of them, with no element between |
| `SelectorChains.DescendantHasAncestor` | docs/javadoc/cert-extensions/jquery/jquery-3.3.1.js:1627-1627 | a space relates an element to its ancestor elements |
| `SelectorChains.ImplicitContext` | docs/javadoc/cert-extensions/jquery/jquery-3.3.1.js:2412-2431 | run from outside on a document that is not XML, a selector without leading combinator reaches the context exactly if a context node is a proper ancestor, for one context node and for many |
| `SelectorChains.NoContextNeeded` | docs/javadoc/cert-extensions/jquery/jquery-3.3.1.js:2424-2424 | on XML, or inside another selector, it needs no context |
| `SelectorChains.LeadingChild` | docs/javadoc/cert-extensions/jquery/jquery-3.3.1.js:2412-2427 | with a leading `>` the context is reached exactly if the parent is a context node |
| `SelectorChains.LeadingSibling` | docs/javadoc/cert-extensions/jquery/jquery-3.3.1.js:2412-2427 | with a leading `+` or `~`, exactly if a context node is related so |
| `SelectorChains.SimpleSelector` | docs/javadoc/cert-extensions/jquery/jquery-3.3.1.js:2409-2465 | a single test asked of a document accepts exactly the nodes below it that pass |
| `SelectorChains.DescendantSelector` | docs/javadoc/cert-extensions/jquery/jquery-3.3.1.js:2433-2462 | two tests with a space between accept a node that passes the second below an element that passes the first |
| `SelectorChains.ChildSelector` | docs/javadoc/cert-extensions/jquery/jquery-3.3.1.js:2433-2462 | with `>` between, a node whose parent is such an element |
| `SelectorChains.LeadingChildSelector` | docs/javadoc/cert-extensions/jquery/jquery-3.3.1.js:2409-2465 | with a leading `>`, a passing child of a context node |
| `SelectorChains.NotOfSimple` | docs/javadoc/cert-extensions/jquery/jquery-3.3.1.js:1921-1950 | `:not` of tests accepts what passes none of them, whatever the context |
| `SelectorChains.NthCountsSiblings` | docs/javadoc/cert-extensions/jquery/jquery-3.3.1.js:1752-1823 | `:nth-child(an+b)` accepts an element exactly if the number of element siblings up to and including it is a*k+b for some k |
| `NthChild.CountTestIsProgression` | docs/javadoc/cert-extensions/jquery/jquery-3.3.1.js:1874-1876 | the remainder-and-sign test accepts a position exactly when it is a*n+b for some n >= 0, for negative and zero a too |
| `NthChild.Seek` | docs/javadoc/cert-extensions/jquery/jquery-3.3.1.js:1809-1823 | seeking from any remembered index, with at most one restart, finds the element's position |
| `NthChild.SeekUncached` | docs/javadoc/cert-extensions/jquery/jquery-3.3.1.js:1842-1871 | the uncached branch counts the same position |
| `NthLastChild.SeekLast` | docs/javadoc/cert-extensions/jquery/jquery-3.3.1.js:1825-1872 | a first call answers right and leaves on every sibling the count of the stretch it walked; a later call repeats what was left |
| `NthLastChild.RememberedIsRight` | docs/javadoc/cert-extensions/jquery/jquery-3.3.1.js:1846-1864 | the count left on an element is its position from the end exactly if it does not precede the element asked for |
| `NthLastChild.AskAll` | docs/javadoc/cert-extensions/jquery/jquery-3.3.1.js:1825-1872 | in a run of questions under one parent, an answer is right exactly if its element does not precede the one asked for first |
| `NthLastChild.BackwardsIsWrong` | docs/javadoc/cert-extensions/jquery/jquery-3.3.1.js:1825-1872 | two elements asked for from the back: the first one's remembered count is 1, its position 2 |
| `CallbackList.StepKeeps` | docs/javadoc/cert-extensions/jquery/jquery-3.3.1.js:3255-3402 | every call on a list, from outside or from a running callback, keeps the invariant: up to `firingIndex` stand exactly the survivors called with the current arguments, after it those still due |
| `CallbackList.RunKeeps` | docs/javadoc/cert-extensions/jquery/jquery-3.3.1.js:3255-3402 | the invariant holds after every run |
| `CallbackList.RoundsInOrder` | docs/javadoc/cert-extensions/jquery/jquery-3.3.1.js:3255-3297 | over every run, re-entrant fires included, rounds never interleave, come in the order fired with their own arguments, call entries in order and at most once; an idle list has run all accepted fires |
| `CallbackLaws.EveryFireHasItsRound` | docs/javadoc/cert-extensions/jquery/jquery-3.3.1.js:3392-3402 | over every run of a list never closed, the rounds, without the repetitions for added callbacks, are exactly the fire calls in order, also those made while firing; without memory there are no repetitions; an idle list has run them all |
| `CallbackLaws.FiresAreRounds` | docs/javadoc/cert-extensions/jquery/jquery-3.3.1.js:3255-3402 | over every run with any options, each fire call on a list not locked gets a round, an add call on an idle list that remembers gets one more with the last arguments, locking and disabling drop those still queued |
| `CallbackLaws.LockedExactlyWhen` | docs/javadoc/cert-extensions/jquery/jquery-3.3.1.js:3258-3258 | a list is locked exactly if it was locked or disabled, or may fire once and a fire call was made |
| `CallbackLaws.FiredExactlyWhen` | docs/javadoc/cert-extensions/jquery/jquery-3.3.1.js:3410-3413 | it has been fired exactly if a fire call came while it was not closed |
| `CallbackLaws.FireCallsFirst` | docs/javadoc/cert-extensions/jquery/jquery-3.3.1.js:3263-3268 | a fire call on an idle list calls its first entry with the arguments |
| `CallbackLaws.ReturnGoesOn` | docs/javadoc/cert-extensions/jquery/jquery-3.3.1.js:3263-3276 | the return of a callback calls the next entry, turns to the next queued round, or leaves the list idle |
| `CallbackLaws.ReturningFinishes` | docs/javadoc/cert-extensions/jquery/jquery-3.3.1.js:3263-3296 | if callbacks only return, the rest of the list is called in order and the list becomes idle |
| `CallbackLaws.CallsAreRegistered` | docs/javadoc/cert-extensions/jquery/jquery-3.3.1.js:3303-3331 | over every run, every call is of the function that the add calls registered under its number |
| `CallbackLaws.UniqueHoldsNoneTwice` | docs/javadoc/cert-extensions/jquery/jquery-3.3.1.js:3315-3317 | a list with the unique option never holds a function twice |
| `CallbackLaws.RemembersLast` | docs/javadoc/cert-extensions/jquery/jquery-3.3.1.js:3278-3281 | a list with memory, neither disabled nor stopped, remembers the arguments of its last round |
| `CallbackLaws.ForgetsWithoutMemory` | docs/javadoc/cert-extensions/jquery/jquery-3.3.1.js:3278-3281 | an idle list without the memory option remembers nothing |
| `CallbackLaws.DisabledNeverCalls` | docs/javadoc/cert-extensions/jquery/jquery-3.3.1.js:3368-3372 | after disabling nothing is ever called |
| `CallbackLaws.FalseEndsRound` | docs/javadoc/cert-extensions/jquery/jquery-3.3.1.js:3268-3275 | a callback of a `stopOnFalse` list that returns false ends its round, and if none is queued the list is idle and forgets |
| `CallbackList.RoundCoversSurvivors` | docs/javadoc/cert-extensions/jquery/jquery-3.3.1.js:3263-3276 | when a round ends, every entry still in the list, also one added during the round, has been called exactly once since its arguments were fired |
| `CallbackList.RemovedIsNeverCalled` | docs/javadoc/cert-extensions/jquery/jquery-3.3.1.js:3334-3347 | once `remove` was called for its function, a registration is never called, whatever happens later |
| `CallbackList.GoneIsNeverCalled` | docs/javadoc/cert-extensions/jquery/jquery-3.3.1.js:3263-3276 | a registration that is not in the list is never called again |
| `CallbackList.RemoveMidRound` | docs/javadoc/cert-extensions/jquery/jquery-3.3.1.js:3334-3344 | lowering `firingIndex` once per removed entry it has passed keeps the cut between the same survivors |
| `CallbackList.AddWhileIdle` | docs/javadoc/cert-extensions/jquery/jquery-3.3.1.js:3303-3331 | adding to an idle list with memory calls a new entry, with the remembered arguments, exactly if something is really added, and no old entry |
| `CallbackList.PushAppends` | docs/javadoc/cert-extensions/jquery/jquery-3.3.1.js:3312-3324 | adding leaves old entries in place and appends new ones with later registrations |
| `CallbackList.PushGrows` | docs/javadoc/cert-extensions/jquery/jquery-3.3.1.js:3314-3317 | the list grows exactly if some function is not skipped by `unique` |
| `Callbacks.RemoveFrom` | docs/javadoc/cert-extensions/jquery/jquery-3.3.1.js:3337-3344 | the splice loop removes every registration of the function and lowers the index once for each removed entry it had passed |
| `Callbacks.Callbacks.Resume` | docs/javadoc/cert-extensions/jquery/jquery-3.3.1.js:3263-3296 | the two loops of `fire` go to the next callback, the next queued round, or the end, as the step function says |
| `Callbacks.Callbacks.SkipRounds` | docs/javadoc/cert-extensions/jquery/jquery-3.3.1.js:3263-3265 | the outer loop goes on to the first queued round with an entry to call |
| `Callbacks.Callbacks.End` | docs/javadoc/cert-extensions/jquery/jquery-3.3.1.js:3278-3296 | the end of `fire` forgets the data and, if locked, the list |
| `Callbacks.Callbacks.StartFire` | docs/javadoc/cert-extensions/jquery/jquery-3.3.1.js:3255-3265 | the start of `fire` |
| `Callbacks.Callbacks.AddAll` | docs/javadoc/cert-extensions/jquery/jquery-3.3.1.js:3303-3331 | `add` takes the step Add |
| `Callbacks.Callbacks.PushAll` | docs/javadoc/cert-extensions/jquery/jquery-3.3.1.js:3312-3324 | the loop of `add` appends what `unique` does not skip |
| `Callbacks.Callbacks.RemoveFn` | docs/javadoc/cert-extensions/jquery/jquery-3.3.1.js:3334-3347 | `remove` takes the step Remove |
| `Callbacks.Callbacks.Fires` | docs/javadoc/cert-extensions/jquery/jquery-3.3.1.js:3392-3402 | `fireWith` takes the step FireWith: queued while firing, dropped when locked |
| `Callbacks.Callbacks.LockAll` | docs/javadoc/cert-extensions/jquery/jquery-3.3.1.js:3380-3386 | `lock` takes the step Lock |
| `Callbacks.Callbacks.DisableAll` | docs/javadoc/cert-extensions/jquery/jquery-3.3.1.js:3368-3372 | `disable` takes the step Disable |
| `Callbacks.Callbacks.Returns` | docs/javadoc/cert-extensions/jquery/jquery-3.3.1.js:3268-3275 | the return of the running callback, with `stopOnFalse`, takes the step Return |
| `Callbacks.Callbacks.Take` | docs/javadoc/cert-extensions/jquery/jquery-3.3.1.js:3255-3402 | any call on a list in a reachable state takes its step and leaves a reachable state |
| `Callbacks.Callbacks.TakeAll` | docs/javadoc/cert-extensions/jquery/jquery-3.3.1.js:3255-3402 | the object follows the step function over every run |
| `Deferred.FirstSettleDecides` | docs/javadoc/cert-extensions/jquery/jquery-3.3.1.js:3692-3744 | over every run of calls, registrations and returns, the state is pending without a resolve or reject and otherwise that of the first one |
| `Deferred.NeverChangesAgain` | docs/javadoc/cert-extensions/jquery/jquery-3.3.1.js:3701-3725 | a deferred that has left pending keeps its state under every continuation |
| `Deferred.CallbacksRunOnce` | docs/javadoc/cert-extensions/jquery/jquery-3.3.1.js:3462-3475 | after a resolve, the functions registered with done, and the first functions given to then, before, during or after it run in order, exactly once each, with the first resolve's arguments, and nothing registered for rejection runs; symmetrically for reject with the second functions |
| `Deferred.ResolvedFinishes` | docs/javadoc/cert-extensions/jquery/jquery-3.3.1.js:3701-3743 | after any run that resolves, when the running callbacks return, all of them have been called |
| `Deferred.RejectedFinishes` | docs/javadoc/cert-extensions/jquery/jquery-3.3.1.js:3701-3743 | after any run that rejects, likewise |
| `Deferred.ResolveWins` | docs/javadoc/cert-extensions/jquery/jquery-3.3.1.js:3703-3730 | the first resolve sets the state, disables the other side and fires the handlers |
| `Deferred.DriveWins` | docs/javadoc/cert-extensions/jquery/jquery-3.3.1.js:3703-3730 | the six entries every side starts with have that effect from any of them on |
| `Deferred.AddDoneKeeps` | docs/javadoc/cert-extensions/jquery/jquery-3.3.1.js:3696-3699 | callbacks registered after settlement are called with the first arguments |
| `Deferred.StepAgrees` | docs/javadoc/cert-extensions/jquery/jquery-3.3.1.js:3692-3744 | every step keeps the deferred in the phase that the first settling call decides |
| `PromiseResolution.Resolver.Resolve` | docs/javadoc/cert-extensions/jquery/jquery-3.3.1.js:3518-3681 | for every handler result, every nesting of thenables that call functions of any level while their `then` runs and throw or not, and every later call, the state is what the reference says, which waits for one level at a time; the first call made on the derived deferred is with what the chain of heard calls ends in, and there is none exactly if the chain is still waiting |
| `PromiseResolution.ResolutionFits` | docs/javadoc/cert-extensions/jquery/jquery-3.3.1.js:3524-3624 | the outcome is fulfilled with x exactly if the chain of heard calls from the handler ends in the plain value x; failed with x exactly if it ends in a rejection, a trap or an exception of x; failed by self-resolution exactly if it ends in the promise itself; and waiting exactly if no one has called yet |
| `PromiseResolution.ChainDecides` | docs/javadoc/cert-extensions/jquery/jquery-3.3.1.js:3524-3624 | the same from any call on, the chain being read off one line of time in which a thenable puts its calls and its exception in front |
| `DerivedDeferred.DerivedFollows` | docs/javadoc/cert-extensions/jquery/jquery-3.3.1.js:3645-3680 | over every run of the derived deferred that makes those calls, among any registrations and returns, nothing runs while the reference waits, and once it has settled every callback of that side runs exactly once with the reference's outcome and none of the other |
| `DerivedDeferred.Derive` | docs/javadoc/cert-extensions/jquery/jquery-3.3.1.js:3518-3681 | the procedure run to its end makes calls such that in every such run the callbacks of the derived deferred run exactly once with what the chain of heard calls ends in: fulfilled for a plain value, rejected for a rejection, trap, exception or self-resolution, not at all while waiting |
| `PromiseResolution.Resolver.Fulfil` | docs/javadoc/cert-extensions/jquery/jquery-3.3.1.js:3524-3594 | a processor at the level waited for adopts its value, nested thenables included; at another level, or once settled, nothing changes |
| `PromiseResolution.Resolver.Refuse` | docs/javadoc/cert-extensions/jquery/jquery-3.3.1.js:3600-3624 | a throwing processor rejects exactly at the level waited for |
| `PromiseResolution.Resolver.Perform` | docs/javadoc/cert-extensions/jquery/jquery-3.3.1.js:3572-3578 | a call of a function handed out is heard exactly as the reference hears it |
| `PromiseResolution.FirstCallDecides` | docs/javadoc/cert-extensions/jquery/jquery-3.3.1.js:3527-3532 | the first call at the level waited for decides, whatever comes before it at other levels and after it at that level or further out |
| `PromiseResolution.ExceptionCountsIff` | docs/javadoc/cert-extensions/jquery/jquery-3.3.1.js:3610-3623 | an exception at the end of a `then` makes a difference exactly if none of its own functions was called before |
| `PromiseResolution.LeftIffCalled` | docs/javadoc/cert-extensions/jquery/jquery-3.3.1.js:3527-3532 | a level is left behind exactly if one of the calls is at that level |
| `PromiseResolution.OtherLevelsIgnored` | docs/javadoc/cert-extensions/jquery/jquery-3.3.1.js:3527-3532 | calls at other levels change nothing |
| `PromiseResolution.SettledStays` | docs/javadoc/cert-extensions/jquery/jquery-3.3.1.js:3610-3623 | a settled outcome survives every later call |
| `When.RemainingExactlyWhen` | docs/javadoc/cert-extensions/jquery/jquery-3.3.1.js:3776-3784 | over every run `remaining` is the number of arguments not fulfilled exactly if none was fulfilled twice |
| `When.PromiseKeptExactlyWhen` | docs/javadoc/cert-extensions/jquery/jquery-3.3.1.js:3759-3805 | over every run the master has at every moment been what is promised (rejected by the first rejection before all are fulfilled, resolved with the values in order as soon as they are, else pending) exactly if no stretch without rejection holds as many fulfilments as arguments with one repeated |
| `When.FulfilmentsCount` | docs/javadoc/cert-extensions/jquery/jquery-3.3.1.js:3780-3780 | there are more fulfilments than fulfilled arguments exactly if one came twice |
| `When.Aggregates` | docs/javadoc/cert-extensions/jquery/jquery-3.3.1.js:3759-3805 | if arguments settle at most once, `remaining` counts those not fulfilled, and the master takes the first rejection, resolves exactly when all are fulfilled, and is pending otherwise |
| `When.PromisesSettleOnce` | docs/javadoc/cert-extensions/jquery/jquery-3.3.1.js:3433-3446 | plain values and promises, adopted at once or later, settle at most once |
| `When.AdoptionComesTo` | docs/javadoc/cert-extensions/jquery/jquery-3.3.1.js:3799-3802 | of plain values and promises: rejected at once with the reason of the last argument already rejected, else resolved at once with all values in order if all have theirs, else pending |
| `When.ForeignRejects` | docs/javadoc/cert-extensions/jquery/jquery-3.3.1.js:3436-3457 | a foreign thenable that rejects first, or throws without calling, rejects a pending master |
| `When.Aggregate.AdoptAll` | docs/javadoc/cert-extensions/jquery/jquery-3.3.1.js:3799-3802 | adopting all arguments, last first, causes their calls in that order |
| `When.Aggregate.AdoptValue` | docs/javadoc/cert-extensions/jquery/jquery-3.3.1.js:3427-3458 | a plain value fulfils, a promise calls back, a thenable's calls all count, and its exception afterwards rejects |
| `When.ValuesInOrder` | docs/javadoc/cert-extensions/jquery/jquery-3.3.1.js:3776-3784 | over every run every argument's latest value stands at its index |
| `When.FulfillingTwiceResolvesEarly` | docs/javadoc/cert-extensions/jquery/jquery-3.3.1.js:3437-3438 | a foreign thenable that fulfils twice while being adopted resolves the master before the other argument is fulfilled |
| `When.Aggregate.Update` | docs/javadoc/cert-extensions/jquery/jquery-3.3.1.js:3776-3784 | the callback handed to a subordinate takes the step Fulfil |
| `When.Aggregate.Reject` | docs/javadoc/cert-extensions/jquery/jquery-3.3.1.js:3800-3802 | a rejection takes the step Fail |
| `DocumentOrder.SortOrder` | docs/javadoc/cert-extensions/jquery/jquery-3.3.1.js:1416-1468 | the comparator, with its ancestor lists and sibling walk, terminates and answers by the lexicographic order of positions within a tree and by fixed rules across trees; it answers zero exactly for equal nodes and for the stated ties |
| `DocumentOrder.SiblingCheck` | docs/javadoc/cert-extensions/jquery/jquery-3.3.1.js:918-938 | of two siblings the walk finds the earlier; a missing node comes first |
| `DocumentOrder.Ancestors` | docs/javadoc/cert-extensions/jquery/jquery-3.3.1.js:1445-1453 | the climb collects the ancestors from the root down |
| `DocumentOrder.FirstDifference` | docs/javadoc/cert-extensions/jquery/jquery-3.3.1.js:1455-1462 | where two ancestor lists part, one has ended or the two nodes are siblings, and this decides document order |
| `DocumentOrder.PreorderIsLex` | docs/javadoc/cert-extensions/jquery/jquery-3.3.1.js:1455-1462 | a node precedes another in the preorder traversal exactly when its position is lexicographically smaller |
| `DocumentOrder.OrderIsPreorder` | docs/javadoc/cert-extensions/jquery/jquery-3.3.1.js:1430-1462 | two nodes of one tree compare in preorder exactly when the tree is the document or neither is the root |
| `DocumentOrder.OrderAcrossTrees` | docs/javadoc/cert-extensions/jquery/jquery-3.3.1.js:1430-1467 | the document comes first, other roots after all nodes with a parent and among themselves by their first index in the input, nodes of the preferred tree before those of others |
| `DocumentOrder.OrderIsTotal` | docs/javadoc/cert-extensions/jquery/jquery-3.3.1.js:1416-1468 | where different nodes do not tie, the comparator is antisymmetric and transitive |
| `DocumentOrder.OneTreeHasNoTies` | docs/javadoc/cert-extensions/jquery/jquery-3.3.1.js:1430-1462 | nodes of one tree never tie |
| `DocumentOrder.OrderIsNotConsistentAcrossTrees` | docs/javadoc/cert-extensions/jquery/jquery-3.3.1.js:1463-1467 | nodes of two detached trees for which equality is not transitive |
| `UniqueSort.SortUnique` | docs/javadoc/cert-extensions/jquery/jquery-3.3.1.js:1548-1575 | the result has the same nodes as the input, and is strictly increasing exactly if no two different nodes tie |
| `UniqueSort.StrictNeedsNoTies` | docs/javadoc/cert-extensions/jquery/jquery-3.3.1.js:1548-1575 | with ties no such list exists |
| `UniqueSort.RemoveRepeats` | docs/javadoc/cert-extensions/jquery/jquery-3.3.1.js:1559-1567 | deleting recorded indexes from the back keeps the first of each run of equal neighbours |
| `UniqueSort.FindRepeats` | docs/javadoc/cert-extensions/jquery/jquery-3.3.1.js:1559-1563 | the recorded indexes are exactly those at which an element repeats its predecessor |
| `UniqueSort.KeptStrict` | docs/javadoc/cert-extensions/jquery/jquery-3.3.1.js:1558-1567 | what is kept of a sorted list is strictly increasing |
| `Tokenizer.PrintingRebuilds` | docs/javadoc/cert-extensions/jquery/jquery-3.3.1.js:2131-2206 | an accepted selector is its printed groups with the consumed commas, and no group is empty |
| `TokenCuts.AcceptedExactlyWhen` | docs/javadoc/cert-extensions/jquery/jquery-3.3.1.js:2131-2196 | a selector is accepted, as these groups, exactly if they cut it: each comma is what matches at its place and not the whole remainder, each token is what the combinator or the next matching filter takes there; parsing only gives the length of what a cut leaves |
| `TokenCuts.ScanIsCut` | docs/javadoc/cert-extensions/jquery/jquery-3.3.1.js:2144-2185 | scanning finds exactly the cuts of a text: groups, kinds, values, commas and remainder |
| `TokenCuts.TrimmedByCut` | docs/javadoc/cert-extensions/jquery/jquery-3.3.1.js:1689-1699 | of a pseudo whose argument leaves a remainder, what is taken ends at the first closing parenthesis in that remainder, or before the argument if there is none; all is taken if nothing remains |
| `TokenCuts.FailsWithoutCut` | docs/javadoc/cert-extensions/jquery/jquery-3.3.1.js:1689-1699 | it fails exactly if the argument cannot be cut |
| `TokenCuts.TakenWhole` | docs/javadoc/cert-extensions/jquery/jquery-3.3.1.js:2170-2178 | any other filter takes its match, or nothing, or fails |
| `Tokenizer.GroupIsVerbatim` | docs/javadoc/cert-extensions/jquery/jquery-3.3.1.js:2198-2206 | each printed group is a verbatim stretch of the selector |
| `Tokenizer.ScanKeepsText` | docs/javadoc/cert-extensions/jquery/jquery-3.3.1.js:2144-2185 | the loop loses no text: groups and remainder always make up the selector |
| `Tokenizer.CutBack` | docs/javadoc/cert-extensions/jquery/jquery-3.3.1.js:1689-1699 | a pseudo that matched too much is cut to a closing parenthesis at or after the excess, or to its name, never to nothing |
| `Tokenizer.CachedTokenizer.Tokenize` | docs/javadoc/cert-extensions/jquery/jquery-3.3.1.js:2131-2196 | with the token cache the answer is the one without it, in both modes, also for the recursive calls; only an accepted selector that was missing is stored |
| `Tokenizer.CachedTokenizer.ScanLoop` | docs/javadoc/cert-extensions/jquery/jquery-3.3.1.js:2144-2185 | the main loop terminates and computes the scan |
| `Tokenizer.CachedTokenizer.FiltersLoop` | docs/javadoc/cert-extensions/jquery/jquery-3.3.1.js:2168-2180 | the loop over the filters |
| `Tokenizer.CachedTokenizer.FilterMatch` | docs/javadoc/cert-extensions/jquery/jquery-3.3.1.js:1678-1704 | the prefilter's recursive call terminates and leaves the cache alone |
| `BoundedCache.BoundHoldsIffPositive` | docs/javadoc/cert-extensions/jquery/jquery-3.3.1.js:854-866 | after every sequence of stores at most `cacheLength` entries are live, exactly if `cacheLength` is positive |
| `BoundedCache.RunBounded` | docs/javadoc/cert-extensions/jquery/jquery-3.3.1.js:854-866 | the bound, with repeated keys, and that live keys are remembered |
| `BoundedCache.HitIsLastStored` | docs/javadoc/cert-extensions/jquery/jquery-3.3.1.js:857-864 | a hit returns the value last stored for the key |
| `BoundedCache.KeysAreLatest` | docs/javadoc/cert-extensions/jquery/jquery-3.3.1.js:859-862 | the remembered keys are those of the latest stores |
| `BoundedCache.KeepsTheLatestExactlyWhen` | docs/javadoc/cert-extensions/jquery/jquery-3.3.1.js:854-866 | over every sequence of stores, the live entries have at every moment been exactly those of the last `cacheLength` stores if and only if, at each store that drops a key, the oldest of the last `cacheLength` stores before it was of the same key or of a key that none of the others was of; in terms of the stores alone |
| `BoundedCache.HarmlessIffSpares` | docs/javadoc/cert-extensions/jquery/jquery-3.3.1.js:859-862 | that condition on the stores says that the dropped key is not among the remembered keys that stay |
| `BoundedCache.StoreKeepsExactIff` | docs/javadoc/cert-extensions/jquery/jquery-3.3.1.js:857-864 | from a cache whose live entries are exactly its remembered keys, one store keeps it so exactly if the key it drops is stored anew or not among those that stay |
| `BoundedCache.MissesKeepTheLatest` | docs/javadoc/cert-extensions/jquery/jquery-3.3.1.js:859-862 | storing only after a miss is of that kind, and the remembered keys are then all different |
| `BoundedCache.RestoringDropsRecentKey` | docs/javadoc/cert-extensions/jquery/jquery-3.3.1.js:859-864 | a key stored twice in a row is dropped with its first store, though the second is among the latest |
| `EventHandlers.HandlerList.Add` | docs/javadoc/cert-extensions/jquery/jquery-3.3.1.js:5052-5057 | the array stays the plain registration list with delegated handlers moved to the front |
| `EventHandlers.HandlerList.Remove` | docs/javadoc/cert-extensions/jquery/jquery-3.3.1.js:5099-5118 | so it does under removal |
| `EventHandlers.RemoveFrom` | docs/javadoc/cert-extensions/jquery/jquery-3.3.1.js:5100-5118 | the backward loop removes exactly the matching handlers and keeps `delegateCount` right |
| `EventHandlers.Rearranged` | docs/javadoc/cert-extensions/jquery/jquery-3.3.1.js:5099-5118 | removing from the arranged array arranges the plain list after removal |
| `EventHandlers.Handlers` | docs/javadoc/cert-extensions/jquery/jquery-3.3.1.js:5203-5259 | the queue has one entry for each eligible node below the element where some delegate matches, nearest to the target first, each with the matching delegates in registration order, and last, if there are any, all direct handlers |
| `EventHandlers.QueueRunsUp` | docs/javadoc/cert-extensions/jquery/jquery-3.3.1.js:5223-5249 | the delegated part of the queue, told by positions |
| `EventHandlers.WalkIsClimb` | docs/javadoc/cert-extensions/jquery/jquery-3.3.1.js:5223-5223 | the walk visits the ancestors below the element, or all ancestors from a target outside it |
| `EventHandlers.KeptIffPasses` | docs/javadoc/cert-extensions/jquery/jquery-3.3.1.js:5230-5243 | a handler is kept exactly if it passes the test |
| `EventHandlers.WalkUp` | docs/javadoc/cert-extensions/jquery/jquery-3.3.1.js:5223-5249 | the walk from the target upward |
| `EventHandlers.MatchDelegates` | docs/javadoc/cert-extensions/jquery/jquery-3.3.1.js:5228-5244 | testing each selector once per node finds exactly the matching delegates |
| `SearchMatch.Widen` | docs/javadoc/cert-extensions/search.js:160-172 | the nearest candidate whose match reaches the name wins; without one the search ends or, for the stated inputs, does not |
| `SearchMatch.TouchesIffMeet` | docs/javadoc/cert-extensions/search.js:165-165 | a match touches the name exactly if some position lies in both |
| `SearchMatch.WidenedIsUnique` | docs/javadoc/cert-extensions/search.js:160-172 | that determines the outcome |
| `SearchMatch.LeadingDotHangs` | docs/javadoc/cert-extensions/search.js:165-172 | an input for which it does not |
| `SearchMatch.ScoreTokens` | docs/javadoc/cert-extensions/search.js:173-203 | the loop's running cost is the sum of the costs of the tokens by their positions, and the boundaries are the tokens' |
| `SearchMatch.Score` | docs/javadoc/cert-extensions/search.js:173-216 | the score is 100 less every cost, and a match that costs everything is none |
| `SearchMatch.NoiseCounts` | docs/javadoc/cert-extensions/search.js:223-227 | noise is a fifth for each dot or parenthesis, a tenth for each run of capitals and a twentieth for each character, by their positions |
| `SearchMatch.AnchorCosts` | docs/javadoc/cert-extensions/search.js:184-196 | exactly where a token may start and at which cost |
| `SearchMatch.OneTokenScore` | docs/javadoc/cert-extensions/search.js:173-216 | the score of a match of one token, from the text alone |
| `SearchMatch.TokensAddUp` | docs/javadoc/cert-extensions/search.js:178-203 | each further token adds its cost and that of its filler inside the name |
| `SearchMatch.FindMatch` | docs/javadoc/cert-extensions/search.js:160-216 | where the search looks and how it scores what it finds there; every match found touches the name region, scores above 0 and at most 5, and has ordered boundaries around the query tokens; the search never ends exactly when the input starts with a dot, the name does not start there and no candidate matches |
| `SearchMatch.ScoredIsSound` | docs/javadoc/cert-extensions/search.js:173-216 | a scored match scores above 0 and at most 5 and has ordered boundaries inside the match, each pair spelling a query token |
| `SearchMatch.EnclosingIsOrdered` | docs/javadoc/cert-extensions/search.js:178-197 | the boundaries are ordered, do not overlap and lie inside the match |
| `SearchMatch.EnclosingSpells` | docs/javadoc/cert-extensions/search.js:182-197 | the text between two boundaries is the token |
| `SearchMatch.ShiftMoves` | docs/javadoc/cert-extensions/search.js:288-293 | adding the prefix's length moves every highlighted index by it |
| `SearchMatch.FindEntry` | docs/javadoc/cert-extensions/search.js:273-281 | the camel-case matcher is tried exactly when the plain one finds nothing |
| `SearchMatch.LabelFor` | docs/javadoc/cert-extensions/search.js:282-293 | the label read back is the escaped qualified name with exactly the characters of the matched tokens highlighted |
| `Highlight.GetHighlightedText` | docs/javadoc/cert-extensions/search.js:53-70 | the markup read back is exactly the escaped slice, a character highlighted exactly when its index lies in a boundary pair |
| `Highlight.ReadRender` | docs/javadoc/cert-extensions/search.js:61-68 | markup reads back as the pieces it was made of |
| `Highlight.EscapeIsPerChar` | docs/javadoc/cert-extensions/search.js:50-52 | the two replacements escape character by character |
| `Highlight.ShownExactlyWhen` | docs/javadoc/cert-extensions/search.js:50-52 | what a browser shows for escaped text is the text itself exactly if that contains no entity of its own |
| `Highlight.EscapedHasNoTags` | docs/javadoc/cert-extensions/search.js:50-52 | escaped text contains no bracket |
| `Autocomplete.Protocol` | docs/javadoc/cert-extensions/jquery/jquery-ui.js:2425-2446 | over every interleaving in which each callback is called once, `pending` is issued minus answered, the loading class is present exactly while it is positive, and only the latest request's content is handed over, each later than the one before |
| `Autocomplete.LoadingWhileUnanswered` | docs/javadoc/cert-extensions/jquery/jquery-ui.js:2441-2444 | the loading class is present exactly while some request is unanswered |
| `Autocomplete.ShownIsCurrentIff` | docs/javadoc/cert-extensions/jquery/jquery-ui.js:2448-2461 | what is shown answers the latest request exactly when no search was issued since its callback was called |
| `Autocomplete.AllCurrentIff` | docs/javadoc/cert-extensions/jquery/jquery-ui.js:2433-2461 | over every allowed run, everything shown was current at its time exactly if nothing was shown after a search issued since its own callback was called |
| `Autocomplete.ShownExactlyWhen` | docs/javadoc/cert-extensions/jquery/jquery-ui.js:2448-2461 | after the handlers of a response event, the content that came with the response is shown exactly if there is any, the widget is enabled and it was not closed since the last search |
| `Autocomplete.CurrentNeverGoesBack` | docs/javadoc/cert-extensions/jquery/jquery-ui.js:2433-2461 | the shown requests then increase strictly, so nothing replaces the answer to a later request |
| `Autocomplete.QuietNeverGoesBack` | docs/javadoc/cert-extensions/jquery/jquery-ui.js:2433-2461 | if response handlers do not search, what is shown is always current and never replaces that of a later request |
| `Autocomplete.SearchingInHandlerGoesBack` | docs/javadoc/cert-extensions/jquery/jquery-ui.js:2452-2454 | a run in which older content replaces newer |
| `Autocomplete.PendingExactlyWhen` | docs/javadoc/cert-extensions/jquery/jquery-ui.js:2425-2446 | over every sequence of steps whatever, `pending` is issued minus answered exactly if no callback returned twice |
| `Autocomplete.LoadingExactlyWhen` | docs/javadoc/cert-extensions/jquery/jquery-ui.js:2441-2444 | over every sequence of steps the loading class has always been right exactly if no callback, returning while requests were unanswered and after surplus calls, left none unanswered or as many as there were surplus calls |
| `Autocomplete.NoneTwiceNeverDerails` | docs/javadoc/cert-extensions/jquery/jquery-ui.js:2441-2444 | which never happens if no callback is called twice |
| `Autocomplete.AnsweringTwiceEndsLoading` | docs/javadoc/cert-extensions/jquery/jquery-ui.js:2441-2444 | a run in which a callback called twice ends the loading state early |
| `Autocomplete.Widget.Search` | docs/javadoc/cert-extensions/jquery/jquery-ui.js:2425-2434 | issues a request |
| `Autocomplete.Widget.Close` | docs/javadoc/cert-extensions/jquery/jquery-ui.js:2463-2466 | cancels |
| `Autocomplete.Widget.Respond` | docs/javadoc/cert-extensions/jquery/jquery-ui.js:2436-2452 | hands content over only for the latest request |
| `Autocomplete.Widget.Suggest` | docs/javadoc/cert-extensions/jquery/jquery-ui.js:2453-2460 | shows what was handed over unless empty, disabled or cancelled |
| `Autocomplete.Widget.Responded` | docs/javadoc/cert-extensions/jquery/jquery-ui.js:2441-2444 | counts the request as answered |

## Left out

- The Java sources are not part of this model.
- Positional selectors (`setMatcher`, `condense`), `:has`, and the seed bookkeeping of the super matcher: a second semantics beside the one proved.
- The `skip` case of `addCombinator` (fieldset and legend) and `querySelectorAll` shortcuts.
- The exact regular expressions of the tokenizer and of the search: any anchored matchers are allowed instead; how the search pattern is built from the query is not modelled.
- `:first-child`, `:last-child`, `:only-child` and the of-type variants: simple loops without caches.
- The comparator built on `compareDocumentPosition`: foreign behaviour of browsers.
- SelectorEngine.Engine.MatchNone: the number of a nested run, to which the code adds random fractions, is assumed not to have been used before the outermost run began; within that run numbers may coincide.
- DocumentOrder.SiblingCheck: the shortcut by `sourceIndex`, which only old browsers have.
- UniqueSort.SortUnique: the built-in sort is a parameter: a rearrangement of the input that, where the comparator is a total order, respects it and has compared equal nodes with each other.
- CallbackList.StepKeeps: `empty()` and callbacks that throw out of `fire` are not steps; nested argument lists of `add` are flattened.
- Deferred.CallbacksRunOnce: progress lists and `notify` are left out; the four lists are values rather than objects, so aliasing between deferreds is not captured; returns of different lists may come in any order, which includes the nesting of a call stack.
- PromiseResolution.Resolver.Resolve: contexts, several arguments, progress processors and the timer before the first processor are left out; a call at a level not reached yet does nothing, there being no function to call.
- When.PromiseKeptExactlyWhen: contexts and the case of no or one argument, which adopts a value instead of counting, are left out.
- EventHandlers.Handlers: namespaces, special events and the browser's own listener are left out; removal is by any test on handlers.
- SearchMatch.Score: exact arithmetic in units of one twentieth, where the code rounds floating-point numbers.
- Sorting and cutting the list of search results, and fetching the index files.
- Animation, CSS, ajax, attributes, widgets and menus of jQuery and jQuery UI.
