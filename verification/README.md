# Sequential state-machine strategy of proptest, in Dafny

This project models the shrinking engine behind proptest's state-machine
testing, together with the two small pieces that sit next to it.

**The sequential strategy.** A test describes an abstract state machine with
two functions:
- `preconditions(state, transition)` says whether a transition may be applied;
- `next(state, transition)` returns the state after applying it.

`Sequential::new_tree` draws a size from the size range. It then draws
candidate transition value trees until it has that many whose current
transition is accepted in the state reached so far. The result is a
`SequentialValueTree`:
- a slot per transition, holding the transition's value tree;
- a cached "acceptable" transition with a `Current`/`SimplifyRejected`/`ComplicateRejected` marker;
- two bitsets, one of included slots and one of still-shrinkable slots;
- a cursor (`Shrink`) and the last move (`prev_shrink`).

`simplify` works in two phases. First it deletes slots from the back towards
the front, undoing any deletion after which the sequence no longer replays.
Then it simplifies slot trees one at a time, keeping a simpler value only if
the sequence still replays. `complicate` undoes the last move.

**`ObservedVec`.** This is the vector of transitions handed to the test. Its
consuming iterator bumps a shared counter once per element it yields.

**`MyHeap`.** This is the binary max-heap that the state-machine example tests:
`push`, `pop`, the deliberately broken `pop_wrong`, `len` and `is_empty`.

Modules:

- `Wrappers`: `Option`/`Result`.
- `Acceptance`: the user's `preconditions`/`next` pair and the replay loop of `check_acceptable`.
- `Bits`: the bitsets, as `seq<bool>`.
- `TransitionTree`: a transition value tree, as a list of candidates from the original value down to the simplest, with a cursor.
- `SequentialTree`: the value tree's state and its queries (`current_at`, `check_acceptable`, `all_rejected`, `next_shrink_transition`), and the invariant every move keeps.
- `SequentialGen`: `new_tree`.
- `SequentialShrink`:
  - `simplify` and `try_simplify` with its delete branch and shrink loop;
  - `try_to_find_acceptable` and `complicate`.
  - The shrink loop here gives up after one lap without progress; see Findings.
- `SequentialAsWritten`: the code as written where it differs, with the inputs that show the difference.
- `ObservedVec`: the vector, its iterator and the counter; the module's own tests.
- `Heap`: `MyHeap` on `seq<int>`.

Mutation through `&mut self` and `Cell` becomes a function that returns the
new tree. The randomness of `new_tree` becomes two parameters:
- the drawn size;
- a finite stream of candidate transition trees.

## Model

| member | source | states |
|---|---|---|
| Acceptance.Replay | proptest/src/strategy/state_machine.rs:327-339 | the early-exit replay accepts a sequence exactly when every transition passes the preconditions in the state `next` reached from the initial state through the transitions before it |
| Acceptance.StateAfterCons | proptest/src/strategy/state_machine.rs:329-333 | replaying `t` then the rest from `s` is replaying the rest from `next(s, t)` |
| Acceptance.AllStepsAcceptedCons | proptest/src/strategy/state_machine.rs:330-336 | a sequence is accepted from `s` exactly when its first transition is accepted in `s` and the rest is accepted from the state after it |
| Bits.Saturated | proptest/src/strategy/state_machine.rs:165-166 | a saturated bitset of width n has every bit set and count n |
| Bits.Count | proptest/src/strategy/state_machine.rs:251-277 | the count is at most the width, 0 exactly when no bit is set and the width exactly when every bit is set |
| Bits.Test | proptest/src/strategy/state_machine.rs:283 | a bit tests set exactly when its index is among the set indices, so indices past the width test clear |
| Bits.CountUpdate | proptest/src/strategy/state_machine.rs:255-271 | setting or clearing one bit changes the count by that bit alone |
| Bits.Ones | proptest/src/strategy/state_machine.rs:227 | the set indices, strictly increasing, each set and every set index listed |
| Bits.FilterSelects | proptest/src/strategy/state_machine.rs:224-227 | the k-th value kept by filtering with the bitset is the value at the k-th set index |
| Bits.FilterAgrees | proptest/src/strategy/state_machine.rs:224-227 | filtering ignores values whose bit is clear |
| Bits.FilterAll | proptest/src/strategy/state_machine.rs:224-227 | with every bit set, filtering keeps every value in order |
| TransitionTree.Simplify | proptest/src/strategy/state_machine.rs:292 | a transition tree simplifies exactly when simpler candidates remain, using up one of them; a refusal leaves it unchanged |
| TransitionTree.Complicate | proptest/src/strategy/state_machine.rs:407 | a transition tree complicates exactly when it has moved off its original value, giving one step back; a refusal leaves it unchanged |
| TransitionTree.ComplicateUndoesSimplify | proptest/src/strategy/state_machine.rs:406-415 | for the candidate-list tree, complicating right after a successful simplify succeeds and restores the tree |
| TransitionTree.WorkDecreases | proptest/src/strategy/state_machine.rs:292-302 | replacing a slot's tree by a simplified one lowers the total simplification work left, which bounds the restarts of `simplify` |
| SequentialTree.CurrentAt | proptest/src/strategy/state_machine.rs:223-233 | `current_at` has one transition per included slot |
| SequentialTree.CurrentAtSelects | proptest/src/strategy/state_machine.rs:223-233 | the k-th transition of `current_at(ix)` comes from the k-th included slot: the live tree value when that slot is `ix`, the cached transition otherwise |
| SequentialTree.CurrentValue | proptest/src/strategy/state_machine.rs:379-382 | `current()` has one transition per included slot |
| SequentialTree.CurrentAtExcludedOverride | proptest/src/strategy/state_machine.rs:227-230 | overriding a slot that is not included gives the same sequence as `current()` |
| SequentialTree.CheckAcceptable | proptest/src/strategy/state_machine.rs:327-339 | `check_acceptable(ix)` holds exactly when every transition of `current_at(ix)` is accepted in the state reached from the initial state |
| SequentialTree.AllRejected | proptest/src/strategy/state_machine.rs:237-246 | `all_rejected` holds exactly when no included slot is marked `Current` |
| SequentialTree.NextShrinkTransition | proptest/src/strategy/state_machine.rs:314-322 | the next cursor is a shrink on slot `(ix + 1) mod (max_ix + 1)`, never past `max_ix` |
| SequentialTree.CacheSlot | proptest/src/strategy/state_machine.rs:295-296 | after caching slot i's live value as `Current`, `current()` equals what `current_at(Some(i))` was, and nothing else changes |
| SequentialTree.CurrentDependsOnCache | proptest/src/strategy/state_machine.rs:379-382 | `current()` and `check_acceptable(None)` depend only on the inclusion bits, the cached transitions and the initial state |
| SequentialGen.Generate | proptest/src/strategy/state_machine.rs:146-158 | generation keeps exactly n candidates, each drawn from the stream, whose values replay acceptably from the initial state, and fails when the stream is shorter than n |
| SequentialGen.GenerateDrawsInOrder | proptest/src/strategy/state_machine.rs:146-158 | generation keeps the first n candidates the preconditions accept, in the order drawn: each kept one is accepted in the state the kept ones before it reached, and every candidate passed over up to the last kept one was rejected in the state reached at that point; on failure the whole stream was drawn that way and fewer than n were accepted |
| SequentialGen.Fresh | proptest/src/strategy/state_machine.rs:159-171 | a fresh tree has every slot included, shrinkable and `Current`, and both counts equal the size |
| SequentialGen.FreshInv | proptest/src/strategy/state_machine.rs:159-171 | a fresh tree whose values replay acceptably, with a minimum size no larger than its size, satisfies the shrinking invariant |
| SequentialGen.NewTree | proptest/src/strategy/state_machine.rs:138-173 | `new_tree` fails exactly when too few candidates are accepted; otherwise the tree has the drawn size, its slots are exactly the trees generation kept, in order, the minimum is the range start, every slot is included, shrinkable, `Current` and caches its tree's value, the values replay acceptably, and the cursor is on deleting the last slot |
| SequentialShrink.DeleteStep | proptest/src/strategy/state_machine.rs:250-274 | at the minimum size the delete branch only moves to the shrink phase; otherwise a deletion that still replays is committed and remembered, and one that does not is undone with no move remembered; the cursor moves towards the front and the invariant holds |
| SequentialShrink.ShrinkStep | proptest/src/strategy/state_machine.rs:276-307 | one shrink-loop iteration: it gives up exactly when nothing is shrinkable; it skips excluded or rejected slots; a refusing tree leaves the shrinkable set; a simpler value that replays is cached and reported; a rejected one is marked `SimplifyRejected`, lowers the work left and restarts `simplify` |
| SequentialShrink.Scan | proptest/src/strategy/state_machine.rs:346-366 | the search, from its j-th visit on, caches the first slot in visiting order that is included and whose live value replays, and reports success; on failure no slot from that visit on is substitutable and the tree is unchanged |
| SequentialShrink.TryToFindAcceptable | proptest/src/strategy/state_machine.rs:344-367 | the rotation search from the cursor succeeds exactly when some included slot's live value can be substituted and still replay; it then caches the first such slot in visiting order, starting at the cursor and wrapping at the last index; otherwise nothing changes |
| SequentialShrink.Simplify | proptest/src/strategy/state_machine.rs:384-393 | after any `simplify` the invariant holds, `current()` replays acceptably from the initial state, at least `min_size` slots stay included and the number of slots is unchanged |
| SequentialShrink.TrySimplify | proptest/src/strategy/state_machine.rs:249-310 | `try_simplify` keeps the invariant, the initial state, minimum and last index, and the number of slots |
| SequentialShrink.ShrinkLoop | proptest/src/strategy/state_machine.rs:276-307 | the shrink loop keeps the invariant, the initial state, minimum and last index, and the number of slots |
| SequentialShrink.SimplifyExhausted | proptest/src/strategy/state_machine.rs:384-393 | once `simplify` returns false, calling it again on the tree it left returns false again |
| SequentialShrink.SimplifyFalseSpent | proptest/src/strategy/state_machine.rs:249-310 | when `simplify` returns false, the tree it leaves is spent: either every included slot is rejected and, after a shrink, no slot's live value can be substituted; or the cursor is in the shrink phase and nothing is shrinkable or every slot is excluded, rejected, or refusing and out of the shrinkable set |
| SequentialShrink.SpentGivesUp | proptest/src/strategy/state_machine.rs:384-393 | on a spent tree `simplify` returns false |
| SequentialShrink.IdleLoopGivesUp | proptest/src/strategy/state_machine.rs:276-307 | when nothing is shrinkable, or every slot is one the loop only passes over, the shrink loop returns false however many iterations are left |
| SequentialShrink.UndoDelete | proptest/src/strategy/state_machine.rs:398-405 | undoing a deletion puts the slot back into both bitsets and forgets the move, keeping the invariant and never shortening `current()` |
| SequentialShrink.UndoShrink | proptest/src/strategy/state_machine.rs:406-425 | undoing a shrink succeeds exactly when the tree complicates and the less simple value replays, and then caches it keeping the move; a rejected value is marked `ComplicateRejected` and the move forgotten; a refusing tree only forgets the move |
| SequentialShrink.Complicate | proptest/src/strategy/state_machine.rs:395-427 | with no remembered move nothing happens; a remembered deletion or shrink is undone as above; `current()` replays acceptably afterwards |
| SequentialShrink.ComplicateDeleteOnce | proptest/src/strategy/state_machine.rs:398-405 | undoing a deletion succeeds, and a second `complicate` right after it reports nothing |
| SequentialShrink.InvKeptBySameCandidate | proptest/src/strategy/state_machine.rs:283-291 | moving the cursor, or changing markers or trees without changing the included slots or cached transitions, keeps the invariant |
| SequentialAsWritten.NewTreeAsWritten | proptest/src/strategy/state_machine.rs:159 | `max_size - 1` on an unsigned size fails exactly when the drawn size is 0, and otherwise agrees with the corrected `new_tree` |
| SequentialAsWritten.EmptySizeUnderflows | proptest/src/strategy/state_machine.rs:159-170 | for the size range 0..=9 and a drawn size 0 the code as written fails, while the corrected tree is valid and empty and `simplify` on it reports nothing |
| SequentialAsWritten.SimplifyAsWritten | proptest/src/strategy/state_machine.rs:384-393 | a run of `simplify` as written that finishes leaves a tree that satisfies the invariant |
| SequentialAsWritten.TrySimplifyAsWritten | proptest/src/strategy/state_machine.rs:249-310 | a run of `try_simplify` as written that finishes leaves a tree that satisfies the invariant |
| SequentialAsWritten.SimplifyAgrees | proptest/src/strategy/state_machine.rs:249-310 | whenever `simplify` as written returns, the corrected `simplify` returns the same result and the same tree: the lap bound only cuts off runs that never return |
| SequentialAsWritten.ShrinkLoopAsWritten | proptest/src/strategy/state_machine.rs:276-307 | a run of the shrink loop as written that finishes leaves a tree that satisfies the invariant |
| SequentialAsWritten.StuckAlternates | proptest/src/strategy/state_machine.rs:283-306 | in the stuck shape one loop iteration moves the cursor from slot 0 to slot 1 and the next moves it back, changing nothing else |
| SequentialAsWritten.StuckLoopSpins | proptest/src/strategy/state_machine.rs:276-307 | from the stuck shape the loop as written never returns, whatever the fuel |
| SequentialAsWritten.StuckSimplifySpins | proptest/src/strategy/state_machine.rs:384-393 | `simplify` as written from the stuck shape never returns |
| SequentialAsWritten.SpinReadySpins | proptest/src/strategy/state_machine.rs:276-307 | from two current slots at the minimum size, where slot 0 cannot simplify and slot 1's simplification is rejected, `simplify` as written never returns |
| SequentialAsWritten.SpinReadyGivesUp | proptest/src/strategy/state_machine.rs:276-307 | from the same shape the corrected `simplify` returns false |
| SequentialAsWritten.CursorIgnored | proptest/src/strategy/state_machine.rs:327-339 | `check_acceptable` does not depend on the cursor, the shrinkable set or the markers |
| SequentialAsWritten.SimplifySpinsAsWritten | proptest/src/strategy/state_machine.rs:276-307 | for sizes 2..=2, slot trees `[1]` and `[1, 0]` and the precondition "transition is not 0", the first `simplify` as written never returns |
| SequentialAsWritten.SimplifyGivesUpCorrected | proptest/src/strategy/state_machine.rs:276-307 | on the same generated tree the corrected `simplify` returns false |
| ObservedVec.New | proptest-state-machine/src/strategy/observed_vec.rs:71-79 | the vector holds the given transitions and the given counter |
| ObservedVec.IsEmpty | proptest-state-machine/src/strategy/observed_vec.rs:86-89 | empty exactly when no transition is stored |
| ObservedVec.IntoIterator | proptest-state-machine/src/strategy/observed_vec.rs:41-46 | the iterator shares the counter and starts at the first transition |
| ObservedVec.Next | proptest-state-machine/src/strategy/observed_vec.rs:52-60 | `next` yields the front transition and bumps the counter by one exactly when a transition remains; otherwise it yields nothing and changes nothing |
| ObservedVec.NextN | proptest-state-machine/src/strategy/observed_vec.rs:52-60 | k calls of `next` yield the first min(k, remaining) transitions in order, and the counter grows by that number |
| ObservedVec.Drain | proptest-state-machine/src/strategy/observed_vec.rs:52-60 | iterating to the end yields every transition once, in order, and the counter grows by their number |
| ObservedVec.FullIterationCountsLength | proptest-state-machine/src/strategy/observed_vec.rs:41-60 | after a full iteration of a vector with a fresh counter, the counter equals its length |
| ObservedVec.PartialIterationCountsPrefix | proptest-state-machine/src/strategy/observed_vec.rs:41-60 | a consumer that stops after k items leaves the counter at k, having seen the first k transitions |
| ObservedVec.Zip | proptest-state-machine/src/strategy/observed_vec.rs:135 | zipping pairs the k-th vector element with the k-th transition, for the shorter length, and counts only the transitions consumed |
| ObservedVec.IterTestAsWritten | proptest-state-machine/src/strategy/observed_vec.rs:126-140 | the iteration test as written passes exactly for palindromes; its counter check holds for every vector |
| ObservedVec.IterTestFailsOnPair | proptest-state-machine/src/strategy/observed_vec.rs:126-140 | the iteration test as written fails for `[1, 2]` |
| ObservedVec.IterTestCorrected | proptest-state-machine/src/strategy/observed_vec.rs:126-140 | storing the vector itself, the iteration test passes for every vector |
| ObservedVec.FmtTestAsWritten | proptest-state-machine/src/strategy/observed_vec.rs:108-115 | the formatting test as written passes exactly for palindromes, and fails for `[1, 2]` |
| ObservedVec.FmtTestCorrected | proptest-state-machine/src/strategy/observed_vec.rs:108-115 | storing the vector itself, the formatting test passes for every vector |
| ObservedVec.Reverse | proptest-state-machine/src/strategy/observed_vec.rs:130 | collecting the reversed iterator puts element k at position n-1-k |
| Heap.New | proptest/examples/state_machine_heap.rs:25-27 | a new heap is empty and ordered |
| Heap.Len | proptest/examples/state_machine_heap.rs:33-35 | the length is the number of stored elements, with multiplicity |
| Heap.IsEmpty | proptest/examples/state_machine_heap.rs:29-31 | empty exactly when the length is 0, and exactly when nothing is stored |
| Heap.Swap | proptest/examples/state_machine_heap.rs:47 | `swap` exchanges two slots, leaves the others and keeps the elements |
| Heap.SwapRemoveFront | proptest/examples/state_machine_heap.rs:60 | `swap_remove(0)` drops the front element, moves the last one to the front and keeps the rest in place |
| Heap.Push | proptest/examples/state_machine_heap.rs:41-53 | `push` adds exactly the value, grows the length by one and keeps a max-heap a max-heap |
| Heap.PopWrong | proptest/examples/state_machine_heap.rs:56-62 | `pop_wrong` returns nothing on an empty heap, and otherwise the front element, removing exactly it |
| Heap.PopWrongBreaksHeap | proptest/examples/state_machine_heap.rs:55-62 | on the heap `[3, 2, 1]`, `pop_wrong` leaves `[1, 2]`, which is not a heap |
| Heap.Pop | proptest/examples/state_machine_heap.rs:65-98 | `pop` returns nothing on an empty heap; otherwise it returns the front element, which is the maximum of a max-heap, removes exactly that element and keeps a max-heap a max-heap |
| Heap.LargerChild | proptest/examples/state_machine_heap.rs:75-87 | the child `pop` picks is at least as large as every child of the slot |
| Heap.SiftDown | proptest/examples/state_machine_heap.rs:72-95 | the sift-down loop keeps the elements and turns a heap that is disordered only below the root into a max-heap |
| Heap.RootIsMax | proptest/examples/state_machine_heap.rs:65-70 | the front element of a max-heap is at least every element |

## Left out

- Randomness is left out: the `TestRunner`, the size sampling and the transition strategies. The drawn size is a parameter, and the candidate transition trees are a finite stream. Generation failing when the stream runs out stands for `reject_local` hitting its limit (`TooManyLocalRejects`).
- The initial-state strategy and its value tree are left out: the initial state is a parameter and is never shrunk, as in the source.
- A transition value tree is modelled as a fixed list of candidates with a cursor. proptest's own value trees can move along other paths, such as binary search. Only the contract that `simplify` and `complicate` move one step, or refuse and change nothing, is used.
- The `prop_state_machine!` macro, the `AbstractStateMachine` trait and the `Sequential` strategy struct with its `Debug` output are left out. The user's functions are the `Machine` pair.
- The `println!` in the shrink loop is left out, because it has no effect on the result.
- The `panic!("Unexpected shrink state")` after the shrink loop is left out. The loop only exits by returning, so it is unreachable.
- `SequentialShrink.Simplify` is the corrected controller: the shrink loop gives up after one lap of the slots with no progress. Its contract does not state that `false` means no slot's tree can be simplified further, because that is not so in the source either: a slot marked `SimplifyRejected` may still have simpler values, and the source never retries them. What `false` does promise is stated by `SequentialShrink.SimplifyFalseSpent`, and `SequentialShrink.SimplifyExhausted` states that a further `simplify` returns false again.
- `SequentialAsWritten.SimplifyAsWritten`: the drivers as written are bounded by a fuel parameter, counted in unary, because they need not terminate. Running out of fuel is how their non-termination is stated.
- Integer widths: `usize` is unbounded here, except for the subtraction at `max_ix`, which is modelled. `current_ix + 1` and `index * 2 + 1` cannot overflow for vectors that fit in memory.
- `ObservedVec`'s `Arc<AtomicUsize>` is modelled by its value. The single iterator is the only writer, so atomicity and the `SeqCst` ordering are not modelled. `Default`, `Clone` and `Debug` are modelled only as far as the module's tests use them.
- `ObservedVec.Len` has no contract beyond its definition.
- `ObservedVec.IntoIterator`: the source's iterator shares the `Arc` counter with the vector it came from, so a bump is visible through every clone. Here the iterator carries the counter's value and returns the new value, so the sharing itself is not modelled.
- `MyHeap<T: Ord>` is modelled for `int`.
- `MyHeap::iter` is left out: it only borrows the data.
- The heap example's harness is left out: `MyModel`, `SystemUnderTest`, `HeapStateMachine`, `MyHeapTest` and `main`. It is test scaffolding around the heap.
- This version of `state_machine.rs` does not use the `ObservedVec` counter to delete transitions the test never saw. That feedback is not modelled.

## Findings

| source | as written | input that shows it | evidently intended | confidence | as-written member | corrected member |
|---|---|---|---|---|---|---|
| proptest/src/strategy/state_machine.rs:159 | `max_ix = max_size - 1` on `usize`, which underflows when the drawn size is 0. It panics in debug builds and wraps to `usize::MAX` in release builds | size range `0..10` with drawn size 0 | an empty tree with last index 0 that reports no simplification | high, not executed | SequentialAsWritten.EmptySizeUnderflows | SequentialGen.NewTree |
| proptest/src/strategy/state_machine.rs:276-307 | the shrink loop only stops when no slot is shrinkable. A slot still shrinkable but marked `SimplifyRejected` is skipped forever while the cursor cycles | sizes `2..=2`; slot 0's tree has the single value 1; slot 1's tree simplifies from 1 to 0; precondition "transition is not 0"; first `simplify` | give up (return false) once a full lap makes no progress | high, not executed | SequentialAsWritten.SimplifySpinsAsWritten | SequentialShrink.Simplify |
| proptest-state-machine/src/strategy/observed_vec.rs:126-140 | the iteration test stores the vector reversed and then compares it element by element with the vector | `[1, 2]` | store the vector itself, so the test holds for every vector | high, not executed | ObservedVec.IterTestFailsOnPair | ObservedVec.IterTestCorrected |
| proptest-state-machine/src/strategy/observed_vec.rs:108-115 | the formatting test stores the vector reversed and then compares its `Debug` text with the vector's | `[1, 2]` | store the vector itself | high, not executed | ObservedVec.FmtTestAsWritten | ObservedVec.FmtTestCorrected |
