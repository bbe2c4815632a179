# fsm: state sets, NFA simulation and subset construction

This project models the core of the Go package `fsm` in Dafny. The package builds finite
automata from transition tables, steps them symbol by symbol, and converts an NFA to a
DFA by subset construction. The model covers three pieces:

- `states` (module `States`, `states.dfy`) is the slice of state names that every other
  piece uses as a set. It is kept sorted by `strings.Compare` (`Less`, a lexicographic
  order on `seq<char>`). `add` and `addmany` insert names, `remove` deletes one, and `equal`
  compares two slices position by position. `StateSet` is a class with one `seq<string>`
  field; its methods keep Go's loops, and each is proved against a function on that
  sequence (`Added`, `AddedMany`, `RemoveSteps`, `Without`).
- The `NFA` record (module `Nfa`, `nfa.dfy`). `NFAfromTable` strips the `>` (initial) and
  `*` (accepting) markers from the row labels, rejects a repeated row and collects the
  alphabet. `Reset` and `IsAccepted` follow, and so does `Next(r)`: it collects the `r`
  successors and then runs two epsilon passes over rune 0. The result of `Next` is the
  function `Step`. Lemmas state what it promises: sorted with no repeats, every direct
  successor kept, and every name one `r` move and some epsilon moves away. An example
  shows that two passes are not a full epsilon closure.
- `NFAtoDFA` (module `NfaToDfa`, `nfatodfa.dfy`) is the worklist over compound states. It
  starts from `[InitialState]`, deduplicates with `equal` and names each compound state
  by `strings.Join(set, "")`. It fills the transition table and the accepting set. The
  proved properties:
  - the worklist holds distinct sorted subsets of a finite universe of names, at most
    2^n of them;
  - the list is closed under `Next`;
  - every table target is a row;
  - when the joined names are distinct, a name is accepting iff its set meets an NFA
    accepting state;
  - when the join names are injective, walking the table on any word ends in the name of
    the NFA run, and that name is accepting iff the run meets an accepting state.

`wrappers.dfy` holds the `Option` and `Result` datatypes. Go's `(value, error)` returns
become `Result`.

The test scenarios of `states_test.go` and `nfatodfa_test.go` are stated as lemmas and
methods (`States.TestSet`, `NfaToDfa.TestNFAtoDFA`). They are proved for all the
values involved, not executed.

Where the code does something other than the textbook construction, the model follows the code:

- `Reset` sets the current states to `[InitialState]`, with no epsilon closure.
- `Next` runs two epsilon passes, which is not a fixpoint (`Nfa.StepIsNotClosure`).
- `NFAtoDFA` starts from `[InitialState]`, not from its closure.
- The compound-state name `Join` does not identify a set (`NfaToDfa.JoinNotInjective`).
  The table facts that need distinct names assume them (`JoinInjective`). The lemma
  `NfaToDfa.OneCharJoinInjective` shows they hold when every state name is one character.
- Two compound states with one joined name share one row of the DFA table: the later one
  overwrites the earlier one's cells (`NfaToDfa.CollisionNFAtoDFA`); see "## Findings".
- `NFAfromTable` adds a rune to the alphabet for every entry of every row, rune 0 included
  (nfa.go:158-171). An NFA with epsilon entries therefore has rune 0 in its alphabet, and
  `NFAtoDFA` builds DFA moves on rune 0 as on any other symbol.
- `NFAfromTable` never reports a missing initial state. Without a `>` label the initial
  state stays `""` (`Nfa.ScanRowsNoInitial`).
- `remove` does not delete every occurrence. It panics on a match before the last
  position; see "## Findings".

## Model

| member | source | states |
|---|---|---|
| States.LessIsLexicographic | states.go:14-16 | `Less(a, b)` holds iff a is a proper prefix of b, or the first position where they differ has the smaller character in a |
| States.LessLexicographic | states.go:14-16 | `Less(a, b)` implies the lexicographic description |
| States.LexicographicLess | states.go:14-16 | the lexicographic description implies `Less(a, b)` |
| States.LessIrreflexive | states.go:14-16 | no name is less than itself |
| States.LessTransitive | states.go:14-16 | the order is transitive |
| States.LessTotal | states.go:14-16 | any two different names are ordered one way or the other |
| States.LessAsymmetric | states.go:14-16 | a and b are never each less than the other |
| States.StrictlySortedIff | states.go:28-29 | a slice is strictly increasing iff it is sorted and has no repeated name |
| States.SortedUnique | states.go:29 | two sorted slices with the same multiset of names are equal, so the sort result is unique |
| States.StrictlySortedSetEquality | states.go:51-61 | two strictly sorted slices are equal iff they hold the same set of names |
| States.SortSeq | states.go:29 | `sort.Sort` gives a sorted permutation of its argument |
| States.Insert | states.go:29 | inserting into a sorted slice keeps it sorted and adds exactly one copy of the name to the multiset |
| States.SortSeqOfSorted | states.go:29 | sorting an already sorted slice changes nothing |
| States.SortSeqStrict | states.go:29 | sorting a slice with no repeats gives a strictly sorted one with the same names |
| States.Added | states.go:22-30 | `add(s)` gives the old names plus s; a present s changes nothing; an absent s gives a sorted slice with one more s; strictly sorted stays strictly sorted |
| States.AddIdempotent | states.go:22-30 | `add(s)` twice equals `add(s)` once |
| States.AddedAll | states.go:36-38 | the `add` loop of `addmany` gives the old names plus all the new ones and keeps a strictly sorted slice strictly sorted |
| States.AddedMany | states.go:32-40 | `addmany(xs)` gives the union of the names; it is sorted when xs is non-empty and strictly sorted when the receiver was |
| States.AddManyIsRepeatedAdd | states.go:36-39 | on a strictly sorted receiver the final sort changes nothing: `addmany` is repeated `add` |
| States.AddManyNone | states.go:33-35 | `addmany` of no names leaves the slice unchanged |
| States.AddManyUnion | states.go:32-40 | on a strictly sorted receiver the result is the only strictly sorted slice whose names are the union |
| States.Without | states.go:42-49 | deleting every occurrence of s leaves the old names minus s, in order |
| States.RemoveStepsIntact | states.go:43-47 | from position i, the loop panics iff s occurs before the last position; otherwise only a trailing s is dropped |
| States.RemoveAsWritten | states.go:42-49 | `remove(s)` panics iff s occurs before the last position; otherwise it leaves `Without(ss, s)` |
| States.RemoveFirstOfTwoPanics | states.go:43-45 | `remove("abc")` on `["abc", "def"]` panics |
| States.RemoveAllResult | states.go:42-49 | deleting every occurrence and sorting gives a strictly sorted slice with the names minus s |
| States.Equal | states.go:51-61 | `equal` is true iff the two slices are identical |
| States.StateSet.constructor | states.go:8 | a `states` value holds the given slice |
| States.StateSet.Add | states.go:22-30 | the new contents are `Added(old, s)` |
| States.StateSet.AddMany | states.go:32-40 | the new contents are `AddedMany(old, xs)` |
| States.StateSet.Remove | states.go:42-49 | whether it panics, and the contents it leaves, follow the loop as written; without a panic the result is sorted |
| States.StateSet.RemoveAll | states.go:42-49 | the corrected removal: the new contents are the sorted `Without(old, s)` |
| States.TestSetAdds | states_test.go:8-11 | the three adds give `["def"]`, then `["abc", "def"]`, then no change |
| States.TestSetRemoves | states_test.go:15-16 | neither remove panics; the first leaves `["abc"]`, the second changes nothing |
| States.TestSet | states_test.go:7-20 | the scenario ends with `["abc", "def"]` after the adds and `["abc"]` after the removes, with no panic |
| Nfa.AddMovesTargets | nfa.go:207-217 | skipping a state with no row, or a row with no entry, is the same as `addmany` of no targets |
| Nfa.GatheredSorted | nfa.go:204-218 | the first loop of `Next` gives a strictly sorted slice that holds exactly the direct `r` successors |
| Nfa.GatheredSnoc | nfa.go:205-218 | one more current state is one more `addmany` |
| Nfa.ClosePassGrows | nfa.go:221-232 | an epsilon pass only adds names and keeps the slice strictly sorted |
| Nfa.ClosePassUnfold | nfa.go:221-232 | one position of a pass is `addmany` of that name's rune-0 targets |
| Nfa.ClosePassSkip | nfa.go:222-230 | a position whose name has no rune-0 entry changes nothing |
| Nfa.ClosePassNoEpsilon | nfa.go:221-232 | with no rune-0 entries in the table a pass changes nothing |
| Nfa.ClosePassSound | nfa.go:221-232 | every name after a pass is reachable from a name before it by rune-0 moves |
| Nfa.ClosePassWithin | nfa.go:221-232 | a pass adds only names that are targets in the table |
| Nfa.StepSorted | nfa.go:202-250 | `Next` returns a strictly sorted slice that holds every direct `r` successor |
| Nfa.StepSound | nfa.go:202-250 | every name `Next` returns is one `r` move and zero or more rune-0 moves from a current state |
| Nfa.StepNoEpsilon | nfa.go:202-250 | with no rune-0 entries, `Next` returns exactly the sorted, duplicate-free direct successors |
| Nfa.StepFromEmpty | nfa.go:202-250 | from no current states `Next` returns none |
| Nfa.StepWithin | nfa.go:202-250 | every name `Next` returns is a target in the table |
| Nfa.StepIsNotClosure | nfa.go:220-246 | on the epsilon chain a→x→y→z→w the two passes reach z but leave out w |
| Nfa.ScanBothMarkers | nfa.go:133-147 | a row labelled `">*x"` is stored as x, and x is initial and accepting |
| Nfa.ScanInitialMarker | nfa.go:133-138 | a row labelled `">x"` is stored as x, and x is initial |
| Nfa.ScanAcceptingMarker | nfa.go:139-147 | a row labelled `"*x"` is stored as x, and x is accepting |
| Nfa.ScanNoMarker | nfa.go:132-156 | an unmarked label is stored as it is and only added to the states |
| Nfa.ScanDuplicate | nfa.go:149-153 | a label whose stripped name was already collected fails with `DuplicateStateRow` of that name |
| Nfa.ScanRowOutcome | nfa.go:132-156 | one row is skipped when its label is no longer in the table, or adds its stripped name to the states, or fails with `DuplicateStateRow` naming a state already collected |
| Nfa.ScanRowsNoDup | nfa.go:149-155 | the collected states never hold a name twice |
| Nfa.ScanRowsError | nfa.go:149-153 | a failure names a state that two of the labels strip to, or one collected before the scan that some label strips to |
| Nfa.ScanRowsDistinct | nfa.go:132-156 | labels whose stripped names are distinct give `Ok`, with exactly those names in order |
| Nfa.ScanRowsNoInitial | nfa.go:129-138 | labels with no `>` leave the initial state `""`, and this is not an error |
| Nfa.StepNoEpsilonUnique | nfa.go:202-250 | with no rune-0 entries, `Next` is the one strictly sorted slice of the direct successors |
| Nfa.ScanMarkedThenPlain | nfa.go:132-156 | a `">*x"` row then a plain row y gives states x and y, initial x and accepting x |
| Nfa.ScanTestFirst | nfa.go:133-147 | the test's row `">*f"` is stored as f, and f is initial and accepting |
| Nfa.ScanTestSecond | nfa.go:149-155 | the test's row `"n"` then adds n |
| Nfa.ScanTestTable | nfatodfa_test.go:7-12 | the test table gives states f and n, initial f and accepting f |
| Nfa.NFA.constructor | nfa.go:14-21 | an `NFA` struct literal holds the six given fields |
| Nfa.NFA.Reset | nfa.go:184-187 | the current states become exactly `[InitialState]`, and are returned |
| Nfa.NFA.IsAccepted | nfa.go:190-199 | true iff some current state is an accepting state |
| Nfa.NFA.Next | nfa.go:202-250 | the new current states are `Step` of the old ones on r, and are returned |
| Nfa.NFA.EpsilonPass | nfa.go:220-232 | one epsilon loop leaves the set as `ClosePass` of the set it started from |
| Nfa.ScanTable | nfa.go:127-156 | the key loop gives `ScanRows` over the keys in iteration order |
| Nfa.CollectAlphabet | nfa.go:158-171 | the alphabet has no repeats and holds exactly the runes that key some row's entries |
| Nfa.NFAFromTable | nfa.go:125-181 | fails with the scan's error, or returns a fresh NFA with the scanned table, states, initial and accepting states, that alphabet and current states `[initial]` |
| NfaToDfa.JoinSingle | nfatodfa.go:12-20 | the name of `[x]` is x, so the first compound state is named by the NFA's initial state |
| NfaToDfa.JoinOneCharInjective | nfatodfa.go:20 | on one-character names, the joined name determines the slice |
| NfaToDfa.JoinNoneEmpty | nfatodfa.go:20 | when no name is empty, the joined name is empty iff the slice is |
| NfaToDfa.JoinOneChar | nfatodfa.go:20 | with non-empty names, a slice whose joined name is one character x is `[x]` |
| NfaToDfa.JoinTwoChars | nfatodfa.go:20 | with non-empty names, a slice joined to `"ab"` is `["ab"]` or `["a", "b"]` |
| NfaToDfa.JoinNotInjective | nfatodfa.go:20 | `["ab"]` and `["a", "b"]` have the same name |
| NfaToDfa.WrittenKeys | nfatodfa.go:40-42 | writing one entry's row adds its name to the table's rows, unless the alphabet is empty |
| NfaToDfa.WrittenOther | nfatodfa.go:40-43 | writing one entry's row leaves the other rows untouched |
| NfaToDfa.WrittenAt | nfatodfa.go:43 | after writing, the entry's row maps every symbol to the joined name of its target |
| NfaToDfa.WrittenValues | nfatodfa.go:40-43 | every cell of the entry's row was written in this pass or was already there |
| NfaToDfa.FilledKeys | nfatodfa.go:19-44 | the table has a row for every entry's name and no other, unless the alphabet is empty |
| NfaToDfa.FilledTargets | nfatodfa.go:40-43 | every cell is on an alphabet symbol and names the `Next` on that symbol of some entry with that row's name |
| NfaToDfa.FilledRowsFull | nfatodfa.go:40-43 | every row of the table has a cell for every alphabet symbol |
| NfaToDfa.FilledOneCharRow | nfatodfa.go:20-43 | with non-empty names, the row of a one-character name x holds the `Next` of `[x]` |
| NfaToDfa.FilledRowOfTwo | nfatodfa.go:20-43 | when only u and v carry a name, its row holds the name of the `Next` of u or of v |
| NfaToDfa.FilledAt | nfatodfa.go:23-44 | with distinct names, each entry's row holds the joined `Next` on every symbol |
| NfaToDfa.PowersetSize | nfatodfa.go:19 | a finite set of n names has 2^n subsets |
| NfaToDfa.DistinctSubsetsBound | nfatodfa.go:29-38 | distinct strictly sorted slices over a universe number at most 2^n |
| NfaToDfa.WorklistBound | nfatodfa.go:19 | the worklist has at most 2^n entries, n being the size of the universe of names |
| NfaToDfa.TableClosed | nfatodfa.go:36-43 | every target name in the table is also a row of the table |
| NfaToDfa.OneCharJoinInjective | nfatodfa.go:20 | when every name is one character, distinct entries have distinct names |
| NfaToDfa.FilledRepresents | nfatodfa.go:23-44 | with distinct names, the table maps each entry's name on each symbol to the name of its `Next` |
| NfaToDfa.WalkFollowsRun | nfatodfa.go:23-44 | walking the table from an entry's name follows the NFA run from that entry, symbol by symbol |
| NfaToDfa.DfaAgreesWithNfa | nfatodfa.go:9-70 | when the joined names of the list are distinct, the walk from the initial state ends in the name of the NFA run from `[initial]`; that name is accepting iff the run meets an accepting state |
| NfaToDfa.Contains | nfatodfa.go:29-35 | the search over the worklist is true iff the set is already on it |
| NfaToDfa.Admitted | nfatodfa.go:36-38 | appending a new set keeps the worklist free of repeats, with every reached set on it |
| NfaToDfa.VisitSymbol | nfatodfa.go:26-38 | nxt is `Next` from the entry on the symbol; it is appended iff it is new |
| NfaToDfa.ExpandingSnoc | nfatodfa.go:23-44 | one more symbol keeps the symbol loop's invariant |
| NfaToDfa.ExpandEntry | nfatodfa.go:23-44 | the worklist only grows, stays free of repeats and holds `Next` of the entry on every symbol; the table gains the entry's row |
| NfaToDfa.NoteAccepting | nfatodfa.go:46-53 | the entry's name is added to the accepting set iff some member of the entry is accepting |
| NfaToDfa.KeysOf | nfatodfa.go:56-59 | the names have no repeats and are exactly the table's rows |
| NfaToDfa.AcceptNamesSnoc | nfatodfa.go:46-53 | the accepting names grow by the entry's name iff the entry meets an accepting state |
| NfaToDfa.AcceptedStep | nfatodfa.go:46-53 | one accepting loop keeps the accepting set strictly sorted and equal to the accepting names so far |
| NfaToDfa.EntriesStart | nfatodfa.go:12-14 | the worklist `[[InitialState]]` satisfies the loop invariant |
| NfaToDfa.EntriesStep | nfatodfa.go:19-44 | processing entry i keeps the invariant, with one more entry done |
| NfaToDfa.EntriesDone | nfatodfa.go:19 | when the loop ends, the worklist holds distinct subsets, is closed under `Next` and was discovered from the initial state |
| NfaToDfa.VisitEntry | nfatodfa.go:20-53 | one pass of the outer loop keeps the invariant, the 2^n bound, the table and the accepting set |
| NfaToDfa.Explore | nfatodfa.go:12-54 | the whole worklist loop ends with a closed list of distinct subsets, its filled table and its accepting names |
| NfaToDfa.NFAtoDFA | nfatodfa.go:9-70 | the DFA's table is filled from a closed list of distinct subsets; its accepting states are exactly the accepting names, strictly sorted; its states are the rows; the alphabet is the NFA's; the initial and current states are the NFA's initial state |
| NfaToDfa.TestStep | nfatodfa_test.go:7-10 | on the test table, which has no rune-0 entries, `Next` is the sorted direct successors |
| NfaToDfa.TestStepFZero | nfatodfa_test.go:8 | from {f} on '0' the NFA moves to {f, n} |
| NfaToDfa.TestStepFOne | nfatodfa_test.go:8 | from {f} on '1' it moves to {n} |
| NfaToDfa.TestStepFNZero | nfatodfa_test.go:8-9 | from {f, n} on '0' it moves to {f, n} |
| NfaToDfa.TestStepFNOne | nfatodfa_test.go:8-9 | from {f, n} on '1' it moves to {n} |
| NfaToDfa.TestStepNZero | nfatodfa_test.go:9 | from {n} on '0' it moves to {f} |
| NfaToDfa.TestStepNOne | nfatodfa_test.go:9 | from {n} on '1' it moves to {n} |
| NfaToDfa.RunCons | nfatodfa_test.go:27-31 | feeding a word is feeding its first symbol, then the rest |
| NfaToDfa.RunSnoc | nfatodfa_test.go:41 | feeding one more symbol is one more `Next` |
| NfaToDfa.RunOfTestWord | nfatodfa_test.go:25-41 | from the step facts, the word "00100101" ends in {n}, and one more '0' ends in {f} |
| NfaToDfa.TestRun | nfatodfa_test.go:25-41 | on the test table the NFA run of "00100101" ends in {n}, and one more '0' ends in {f} |
| NfaToDfa.TestUniverse | nfatodfa_test.go:7-10 | the test table's universe of names is {f, n} |
| NfaToDfa.TestSymbols | nfatodfa_test.go:7-10 | the test table's alphabet is {'0', '1'} |
| NfaToDfa.TestWalkToN | nfatodfa_test.go:25-41 | on the converted table the walk of "00100101" ends in the non-accepting n |
| NfaToDfa.TestWalkToF | nfatodfa_test.go:25-44 | one more '0' ends in the accepting f |
| NfaToDfa.TestWalks | nfatodfa_test.go:25-44 | on the converted table the walk of "00100101" ends in the non-accepting n, and one more '0' ends in the accepting f |
| NfaToDfa.TestNFAtoDFA | nfatodfa_test.go:7-44 | the whole test: parse the table, convert it, and the walks end in a non-accepting state and then an accepting one |
| NfaToDfa.CollisionStepSOne | nfa.go:202-250 | on the collision table, `Next` from [s] on '1' is [a, b] |
| NfaToDfa.CollisionStepSTwo | nfa.go:202-250 | from [s] on '2' it is [ab] |
| NfaToDfa.CollisionStepABOne | nfa.go:202-250 | from [a, b] on '1' it is [] |
| NfaToDfa.CollisionStepAbOne | nfa.go:202-250 | from [ab] on '1' it is [s] |
| NfaToDfa.CollisionSymbols | nfa.go:158-171 | the collision table's alphabet is {'1', '2'} |
| NfaToDfa.CollisionNamedAb | nfatodfa.go:20 | in the converted list only [ab] and [a, b] are named "ab" |
| NfaToDfa.CollisionRowOfS | nfatodfa.go:40-43 | row "s" maps '1' and '2' to "ab" |
| NfaToDfa.CollisionRowOfAb | nfatodfa.go:40-43 | row "ab" maps '1' to "s" (from [ab]) or to "" (from [a, b]), whichever was written last |
| NfaToDfa.CollisionAccepting | nfatodfa.go:46-53 | "s" is an accepting name of the DFA and "" is not |
| NfaToDfa.WalkTwo | nfatodfa.go:40-43 | a walk of two symbols follows two cells of the table |
| NfaToDfa.RunTwo | nfa.go:202-250 | a run of two symbols is two `Next` steps |
| NfaToDfa.CollidingRows | nfatodfa.go:20-53 | either "11" walks to the accepting "s" while the NFA run ends in no state, or "21" walks to the non-accepting "" while the run ends in {s} |
| NfaToDfa.JoinCollision | nfatodfa.go:20-53 | the same disagreement, for any closed list of distinct subsets built from the collision table |
| NfaToDfa.CollisionNFAtoDFA | nfatodfa.go:9-70 | parsing the collision table and converting it gives a DFA that disagrees with the NFA on "11" or on "21" |

## Left out

- `NFAfromCSV` (nfa.go:37-122) is not modelled. It is file opening and CSV reading, and it never stores the table it reads.
- `ToCSV` and `String` (nfa.go:23-34, 253-288) are not modelled: they only write output.
- The `fmt.Println` logging in `NFAtoDFA` (nfatodfa.go:21) is not modelled.
- dfa.go declares only an interface; the DFA's `Reset`, `Next` and `IsAccepted` are not modelled. The DFA is a record with the six fields of nfatodfa.go:61-68; a walk over its table (`Walk`) and membership in its accepting list stand in for feeding it symbols.
- Go's map iteration order is nondeterministic. `NFAfromTable` takes it as an `order` parameter listing each key once; its alphabet loop and `NFAtoDFA`'s name loop pick in any order (`:|`). Keys rewritten during `NFAfromTable`'s range are not visited again.
- `NFAfromTable` indexes `state[0]`, so a label `""` or `">"` panics in Go. The model requires every label to be readable (non-empty, and still non-empty after a leading `>`) instead of modelling that panic.
- `sort.Sort` is specified as the unique sorted permutation (`SortSeq`), not as the library's algorithm.
- `addmany` returns early only on a nil slice. An empty non-nil slice still reaches the final sort. Both are `[]` here, so `addmany([])` never sorts. This differs from Go only when the receiver is unsorted, and every receiver in the core is sorted.
- `NFAtoDFA` returns an `error` that is always nil. The model returns the DFA alone.
- Go passes the `NFA` to `NFAtoDFA` by value. The model works on a fresh copy (`work`) and leaves the caller's record unchanged. Aliasing between the copy's slices and the caller's is not modelled.
- NfaToDfa.FilledAt: the promise that each entry's row holds its `Next` needs distinct joined names. `Join` is not injective, so a later entry can overwrite an earlier one's row. This is stated only for lists whose names are distinct, and shown to hold when every state name is one character.
- Nfa.NFA.Next: the result is not an epsilon closure. It is modelled as the code's two passes, and `StepIsNotClosure` gives an input where they fall short. Two passes also miss a name only one epsilon move from a direct successor: because each pass re-sorts the slice it walks, that successor can be pushed past the pass's bound. In the table s -1-> [c, d], c -0-> [a], a -0-> [A], d -0-> [e], `Next` on '1' from [s] gives [A, a, c, d] and leaves out e. This second example is not stated as a lemma.
- NfaToDfa.DfaAgreesWithNfa, NfaToDfa.FilledRepresents: like `FilledAt`, these need distinct joined names. `Join` is not injective, so a later entry can overwrite an earlier one's row (`NfaToDfa.CollisionNFAtoDFA` shows the walk going wrong then). They are stated only for lists whose names are distinct, and shown to hold when every state name is one character.
- Nfa.NFAFromTable: Go rewrites the caller's map in place (nfa.go:134-135, 140-141). On success the map then holds the stripped keys; on the duplicate-row error (nfa.go:151) it is left partly rewritten. The model treats the table as a value and returns the stripped table in the NFA. Go's `range` may also visit a key that the loop itself created, such as `"f"` written from `">*f"`; that run returns "Duplicate rows for state: f", so even the table of nfatodfa_test.go can fail. The `order` parameter lists only the original keys, which rules that run out.

## Findings

| source | as written | input that shows it | evidently intended | confidence | as-written member | corrected member |
|---|---|---|---|---|---|---|
| nfatodfa.go:20-43 | the row of a compound state is keyed by its joined name, so a later set with the same name overwrites its cells | the table `">*s"` → {'1': [a, b], '2': [ab]}, `"ab"` → {'1': [s]}: [a, b] and [ab] are both named "ab" | one row per compound state, so that the walk follows the NFA run | not executed | NfaToDfa.CollisionNFAtoDFA | NfaToDfa.DfaAgreesWithNfa |
| states.go:42-49 | the `range` is over the original length while each match shrinks the slice, so a match before the last position ends in an index out of range | `remove("abc")` on `["abc", "def"]` | delete every occurrence of the name, then sort | not executed | States.RemoveFirstOfTwoPanics | States.RemoveAllResult |

On the collision table the walk of "11" or of "21" disagrees with the NFA run: either "11"
ends in the accepting "s" while the run ends in no state, or "21" ends in the non-accepting
`""` while the run ends in {s}. Which one depends on the order the symbols are visited, so the
lemma states the disjunction. `NfaToDfa.DfaAgreesWithNfa` is the property the construction
should have; it holds whenever the joined names are distinct (`NfaToDfa.JoinInjective`).

The model keeps `States.StateSet.Remove` with the loop as written. Its panic flag follows
`States.RemoveAsWritten`. The test scenario of states_test.go removes only a last
element or an absent name, so it does not panic. `States.StateSet.RemoveAll` is the
corrected removal, proved against `Without`.
