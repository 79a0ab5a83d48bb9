# A Dafny model of the STL exercise in `Ivan_Domrachev.cpp`

The program is a C++ exercise in generic algorithms over iterator ranges and
in adapters. It has five parts, and this project models each of them and
proves properties about the model:

- **`mergeSortIterators`.** A recursive merge sort of a half-open range. It
  counts the range, steps to the midpoint, sorts both halves, merges them into
  a scratch vector with strict `>`, and copies the vector back.
- **`shuffle`.** It performs `5 × length` swaps. Each swap exchanges two
  positions drawn from `rand()`.
- **`Wrapper<DataStruct>::apply_function` and `Wrapper<stack<T>>::apply_function`.**
  Two adapters that copy a container into a vector, run a range procedure over
  a window `[from, to)` of it, and put the vector back.
- **The entity hierarchy.** `Thing`, `Car`, `Person`, `Student` and
  `Transformer`, each with a comparison criterion, plus the `last_id` counter
  that issues ids.
- **`calculate_power` and `printVectorConditionally`.** A doubling loop, and a
  filter used with the predicate `womanPower`.

Each part is modelled in the form the source has:

- **Loops and in-place updates are methods.** The sort, the shuffle and the
  adapters are methods over Dafny arrays, one array per C++ range or vector.
  The power loop and the filter loop are methods too.
- **Each method is proved against a specification function.**
  - `MergeSort.MergeSorted` specifies the sort.
  - `Shuffle.Shuffled` specifies the shuffle.
  - `Wrapper.GeneralApplied` and `Wrapper.StackApplied` specify the adapters.
  - `Filter.Printed` specifies the filter.
  - `Power.Pow2` specifies the power loop.
- **The properties the program relies on are lemmas about those functions.**
  They include permutation, order, the tie-break and the adapters' write-back.
- **The stack is a class.** `Stacks.Stack` has a `seq` field listed bottom to
  top, and the stack adapter drains and refills it through its methods.
- **The entities are values.** They form a datatype with a pure `Criteria`
  function. The id counter is a class, `Entities.IdIssuer`.

The two range algorithms are generic in the element type:

- **Sort.** It orders elements by an integer key, which it takes as a
  parameter. With `Entities.Criteria` as the key, the merge's test is exactly
  `operator<=>` returning Greater (`MergeSort.ThingsMergeByCompare`). The
  program's own calls sort `Thing*` values, so they order pointers, not
  criteria; those calls are not modelled.
- **Shuffle.** It takes `rand()` from an oracle `rand: nat -> nat`. The value
  `rand(k)` is the k-th number drawn after seeding. Swap step `i` draws `2i`
  for `p1_pos` and then `2i+1` for `p2_pos`. Both draws are reduced modulo the
  length, as in the source.

The procedure an adapter runs is a value of `Wrapper.Procedure`. It is one of
three:

- `Identity`, for `printPointers`, which changes no element.
- `Sort(key)`, for `mergeSortIterators`.
- `Shuffle(rand)`, for `shuffle`.

Some behaviours of the code differ from what a reader might expect. This model
follows the code in each case:

- **The sort is not stable.** The merge takes the first half's head only when
  it is strictly greater. On equal heads it therefore emits the second half's
  element first. Sorting keys `[8, 4a, 4b, 12]` gives `[12, 8, 4b, 4a]`, which
  is the opposite of keeping equal keys in input order. See
  `MergeSort.TieBreakSwapsEqualKeys`.
- **Sorting an already sorted range can still move elements.** The keys of a
  non-increasing input stay where they are
  (`MergeSort.MergeSortedKeepsSortedKeys`). Equal keys can still change
  places, so the elements themselves may move: `[(0, 4), (1, 4)]` sorts to
  `[(1, 4), (0, 4)]` (`MergeSort.SortedTieNotFixed`). Only an input whose keys
  strictly decrease is left exactly as it is
  (`MergeSort.MergeSortedStrictlyDecreasingFixed`).
- **The stack adapter pops in non-decreasing order after a sort.** The adapter
  sorts the stack listed bottom to top into non-increasing order, so the
  largest key ends at the bottom. Popping afterwards therefore yields
  non-decreasing keys, not non-increasing ones. See
  `Wrapper.StackSortPopsAscending`.
- **An empty shuffle is a no-op.** `shuffle` on an empty range runs zero swap
  steps and never evaluates `rand() % 0`, so the call is allowed.
- **The general adapter writes the window back at the front.** It copies
  the window `[from, to)` of the scratch vector back starting at the
  container's first position, not at `from`. With
  `from > 0` the window therefore lands at the front of the container. The
  model keeps this behaviour (`Wrapper.GeneralWindowLandsAtFront`).

## Model

| member | source | states |
|---|---|---|
| `Iterators.CountSteps` | Ivan_Domrachev.cpp:28-31 | the counting loop returns the distance from `begin` to `end` |
| `Iterators.StepForward` | Ivan_Domrachev.cpp:37-40 | stepping `len/2` times from `begin` reaches position `begin + len/2` |
| `Iterators.CopyInto` | Ivan_Domrachev.cpp:73-76 | the copy-back loop puts the scratch vector over positions lo..hi and writes nothing outside them |
| `MergeSort.Merge` | Ivan_Domrachev.cpp:52-70 | the merged sequence is exactly as long as the two halves together |
| `MergeSort.MergeSorted` | Ivan_Domrachev.cpp:26-77 | the sorted sequence has the input's length |
| `MergeSort.MergeTakesFirst` | Ivan_Domrachev.cpp:53-55 | when the first head's key is strictly greater, it is emitted first |
| `MergeSort.MergeTakesSecond` | Ivan_Domrachev.cpp:57-59 | otherwise, ties included, the second head is emitted first |
| `MergeSort.MergePermutes` | Ivan_Domrachev.cpp:52-70 | merging neither adds, drops nor duplicates an element (multiset of the result = union of the halves) |
| `MergeSort.MergeSortedPermutes` | Ivan_Domrachev.cpp:26-77 | the sort's result is a permutation of its input |
| `MergeSort.MergeSortedShortUnchanged` | Ivan_Domrachev.cpp:33-35 | a range of length at most one is left exactly as it is |
| `MergeSort.MergeNonIncreasing` | Ivan_Domrachev.cpp:52-70 | merging two non-increasing sequences gives a non-increasing sequence |
| `MergeSort.MergeSortedNonIncreasing` | Ivan_Domrachev.cpp:26-77 | the sort's result is in non-increasing key order, for every input |
| `MergeSort.MergeSeparated` | Ivan_Domrachev.cpp:52-70 | when every key of the first half exceeds every key of the second, the merge is their concatenation |
| `MergeSort.MergeSortedStrictlyDecreasingFixed` | Ivan_Domrachev.cpp:26-77 | a sequence whose keys strictly decrease is left exactly as it is |
| `MergeSort.MergeKeepsKeys` | Ivan_Domrachev.cpp:52-70 | merging two non-increasing halves, the first entirely at or above the second, keeps the keys of their concatenation position by position, ties included |
| `MergeSort.MergeSortedKeepsSortedKeys` | Ivan_Domrachev.cpp:26-77 | sorting an already non-increasing input keeps its key sequence: only elements with equal keys may change places |
| `MergeSort.SortedTieNotFixed` | Ivan_Domrachev.cpp:52-61 | the non-increasing input [(0, 4), (1, 4)] sorts to [(1, 4), (0, 4)]: an already sorted range is not always left as it is |
| `MergeSort.ThingsMergeByCompare` | Ivan_Domrachev.cpp:203-205 | with the criteria as key, the merge takes the first head exactly when `operator<=>` says Greater, and the second head otherwise |
| `MergeSort.ThingsSortedByCompare` | Ivan_Domrachev.cpp:203-205 | sorted by criteria, no Thing compares Less than a Thing after it |
| `MergeSort.TieBreakSwapsEqualKeys` | Ivan_Domrachev.cpp:52-61 | keys [8, 4a, 4b, 12] sort to [12, 8, 4b, 4a]: two equal keys from different halves swap their order |
| `MergeSort.MergeWithEmpty` | Ivan_Domrachev.cpp:63-70 | once one half is used up, the leftover loops append the rest of the first half, then the rest of the second |
| `MergeSort.AppendRest` | Ivan_Domrachev.cpp:63-70 | a leftover loop appends the remaining elements of one half to the scratch vector, in order |
| `MergeSort.MergeStep` | Ivan_Domrachev.cpp:52-61 | one pass of the merge loop advances exactly one of the two iterators and keeps the scratch vector a prefix of the merge |
| `MergeSort.MergeHalves` | Ivan_Domrachev.cpp:47-70 | the scratch vector ends up holding the merge of the two sorted halves |
| `MergeSort.SortRange` | Ivan_Domrachev.cpp:26-77 | the range becomes the sort of its old contents, non-increasing and a permutation of them, and positions outside it keep their values |
| `Shuffle.SwapAt` | Ivan_Domrachev.cpp:123-125 | a swap keeps the length of the sequence |
| `Shuffle.SwapExchanges` | Ivan_Domrachev.cpp:123-125 | the two chosen positions exchange their elements and every other position keeps its element |
| `Shuffle.SwapPermutes` | Ivan_Domrachev.cpp:123-125 | a swap keeps the multiset |
| `Shuffle.FirstPos` | Ivan_Domrachev.cpp:111 | the first position of swap step i, `rand() % length` on draw 2i, lies inside the range |
| `Shuffle.SecondPos` | Ivan_Domrachev.cpp:111 | the second position of swap step i, `rand() % length` on draw 2i+1, lies inside the range |
| `Shuffle.Steps` | Ivan_Domrachev.cpp:106-126 | any number of swap steps keeps the length |
| `Shuffle.Shuffled` | Ivan_Domrachev.cpp:94-126 | the shuffle of `length * scale_factor` steps keeps the length |
| `Shuffle.StepsPermute` | Ivan_Domrachev.cpp:106-126 | every prefix of the swap sequence keeps the multiset of the range |
| `Shuffle.ShuffledPermutes` | Ivan_Domrachev.cpp:94-126 | the shuffle is a permutation of the range |
| `Shuffle.ShuffledEmpty` | Ivan_Domrachev.cpp:97-106 | an empty range takes zero steps and is unchanged, whatever `rand()` returns |
| `Shuffle.SelfSwapsChangeNothing` | Ivan_Domrachev.cpp:111-125 | if every step draws the same position twice, the range is unchanged |
| `Shuffle.OneSwapExchanges` | Ivan_Domrachev.cpp:111-125 | on two elements, one step drawing 0 then 1 exchanges them |
| `Shuffle.Locate` | Ivan_Domrachev.cpp:112-121 | the stepping loop leaves `p1` at offset `p1_pos` and `p2` at offset `p2_pos` |
| `Shuffle.SwapCells` | Ivan_Domrachev.cpp:123-125 | the `tmp` swap exchanges the two array cells and nothing else |
| `Shuffle.ShuffleStep` | Ivan_Domrachev.cpp:107-126 | one pass of the swap loop performs the next swap step of the range and writes nothing outside it |
| `Shuffle.ShuffleRange` | Ivan_Domrachev.cpp:92-127 | the range becomes its shuffle under the oracle (exactly `5 × length` swap steps), a permutation of its old contents, and positions outside it keep their values |
| `Stacks.Reversed` | Ivan_Domrachev.cpp:499 | reversal keeps the length |
| `Stacks.ReversedTwice` | Ivan_Domrachev.cpp:495-499 | reversing twice restores the sequence: the drained, reversed vector lists the stack bottom to top |
| `Stacks.ReversedSnoc` | Ivan_Domrachev.cpp:495-498 | popping one more element puts it first in the reversed order |
| `Stacks.PopOrder` | Ivan_Domrachev.cpp:495-498 | popping until empty hands out as many elements as the stack holds, the top first, then the pops of what lies under it |
| `Stacks.PopOrderIsReversed` | Ivan_Domrachev.cpp:495-499 | the pops hand the elements out in exactly the reverse of the bottom-to-top order |
| `Stacks.ReversedPopsRestore` | Ivan_Domrachev.cpp:495-499 | reversing the drained vector gives the stack back, bottom to top |
| `Stacks.PopOrderPointwise` | Ivan_Domrachev.cpp:495-498 | the k-th pop hands out the element k places below the top |
| `Stacks.Stack.constructor` | Ivan_Domrachev.cpp:548 | a new stack is empty |
| `Stacks.Stack.Push` | Ivan_Domrachev.cpp:510 | `push` puts the element on top |
| `Stacks.Stack.Pop` | Ivan_Domrachev.cpp:497 | `pop` removes the top element |
| `Stacks.Stack.Top` | Ivan_Domrachev.cpp:496 | `top` is the last element pushed and not popped |
| `Stacks.Stack.Empty` | Ivan_Domrachev.cpp:495 | `empty` holds exactly when no element is left |
| `Stacks.Stack.Size` | Ivan_Domrachev.cpp:488-490 | `size` is the number of elements |
| `Stacks.PushThenPop` | Ivan_Domrachev.cpp:495-510 | on a stack object, a push followed by top and pop hands back the pushed element and leaves the stack as it was |
| `Wrapper.Transform` | Ivan_Domrachev.cpp:469 | every procedure argument `f` (a `Procedure` value: `printPointers`, `mergeSortIterators` or `shuffle`) keeps the length of its window |
| `Wrapper.TransformPermutes` | Ivan_Domrachev.cpp:469 | each of `printPointers`, `shuffle` and `mergeSortIterators` only rearranges its window |
| `Wrapper.RunProcedure` | Ivan_Domrachev.cpp:465-469 | running the procedure transforms positions from..to of the vector and writes nothing outside them |
| `Wrapper.ResolveTo` | Ivan_Domrachev.cpp:454-456 | `to == INT_MAX` becomes `data.size()`; any other `to` is kept |
| `Wrapper.GeneralApplied` | Ivan_Domrachev.cpp:453-476 | the general adapter keeps the container's size |
| `Wrapper.GeneralAppliedPointwise` | Ivan_Domrachev.cpp:472-475 | `data[k]` is the buffer's element at `from + k` for `k < to - from`, and keeps its old value from `to - from` on |
| `Wrapper.GeneralAppliedFromStart` | Ivan_Domrachev.cpp:465-475 | with `from == 0` the procedure's result replaces the window in place |
| `Wrapper.GeneralIdentityKeepsContainer` | Ivan_Domrachev.cpp:453-476 | with the default bounds and `printPointers` the container is unchanged |
| `Wrapper.GeneralDefaultPermutes` | Ivan_Domrachev.cpp:453-476 | with the default bounds the container's elements are only rearranged |
| `Wrapper.GeneralWindowLandsAtFront` | Ivan_Domrachev.cpp:472-475 | on [x, y, z] with window [1, 3) and `printPointers` the container becomes [y, z, z] |
| `Wrapper.ToVector` | Ivan_Domrachev.cpp:459-462 | the scratch vector is a new array, shared with nothing, holding the copied elements in order |
| `Wrapper.CopyOut` | Ivan_Domrachev.cpp:459-462 | the copy loop collects every element of the container, in order |
| `Wrapper.ApplyToContainer` | Ivan_Domrachev.cpp:453-476 | the container becomes the procedure's result on `[from, to)` written from the front, followed by its old elements from `to - from` on |
| `Wrapper.StackApplied` | Ivan_Domrachev.cpp:487-512 | the stack adapter keeps the stack's size |
| `Wrapper.StackAppliedPointwise` | Ivan_Domrachev.cpp:502-511 | counted from the bottom, positions outside `[from, to)` keep their elements and the window holds the procedure's result |
| `Wrapper.StackAppliedPermutes` | Ivan_Domrachev.cpp:487-512 | the stack adapter keeps the stack's multiset |
| `Wrapper.IdentityWindowKeepsStack` | Ivan_Domrachev.cpp:487-512 | with `printPointers` the stack adapter gives back the stack it was handed |
| `Wrapper.StackIdentityRestores` | Ivan_Domrachev.cpp:487-512 | with `printPointers` the stack, and so its pop order, is restored exactly |
| `Wrapper.WholeStackApplied` | Ivan_Domrachev.cpp:487-512 | with the default bounds the stack becomes the procedure's result on the whole stack |
| `Wrapper.ReversedNonIncreasing` | Ivan_Domrachev.cpp:495-499 | read top first, a stack that is non-increasing from the bottom pops in non-decreasing order |
| `Wrapper.StackSortPopsAscending` | Ivan_Domrachev.cpp:487-512 | after the adapter sorts the whole stack, popping yields non-decreasing keys |
| `Wrapper.Drain` | Ivan_Domrachev.cpp:495-499 | the draining loop empties the stack and collects its elements top first |
| `Wrapper.Refill` | Ivan_Domrachev.cpp:509-511 | the refilling loop pushes the vector first to last, so the stack lists it bottom to top |
| `Wrapper.ApplyToStack` | Ivan_Domrachev.cpp:487-512 | the stack becomes its bottom part, the procedure's result on `[from, to)`, then its top part |
| `Entities.GenderValue` | Ivan_Domrachev.cpp:273-276 | FEMALE is 0 and MALE is 1 |
| `Entities.GenderString` | Ivan_Domrachev.cpp:303-310 | the gender string is "female" exactly for FEMALE |
| `Entities.IsPersonLike` | Ivan_Domrachev.cpp:518 | the cast to a Person succeeds for every kind except a Car |
| `Entities.Criteria` | Ivan_Domrachev.cpp:261-410 | each thing's criterion lies between 0 and 8, and only a car's is 8 |
| `Entities.Compare` | Ivan_Domrachev.cpp:203-205 | `<=>` says Greater exactly when the first criterion is larger and Less exactly when the second is |
| `Entities.CriteriaTable` | Ivan_Domrachev.cpp:261-263 | the criteria are Car 8, Person 0 or 1, Student 4 or 5, Transformer 6 or 7 |
| `Entities.CriteriaRanksKinds` | Ivan_Domrachev.cpp:327-329 | Persons rank below Students, Students below Transformers, Transformers below Cars |
| `Entities.CriteriaIdentifiesKindAndGender` | Ivan_Domrachev.cpp:369-371 | two criteria are equal exactly when the kinds match and, for persons, the genders match |
| `Entities.CompareIsStrongOrdering` | Ivan_Domrachev.cpp:203-205 | `<=>` is Less, Equivalent or Greater exactly as the criteria compare; it is antisymmetric, reflexive and transitive |
| `Entities.WomanPower` | Ivan_Domrachev.cpp:516-523 | `womanPower` holds exactly of female Persons, Students and Transformers, and never of a Car |
| `Entities.IdIssuer.constructor` | Ivan_Domrachev.cpp:220 | the counter starts at 0 |
| `Entities.IdIssuer.Issue` | Ivan_Domrachev.cpp:173-177 | each new thing takes the current counter value as its id and the counter advances by one |
| `Entities.IdIssuer.NewCar` | Ivan_Domrachev.cpp:231-234 | a car takes the next id |
| `Entities.IdIssuer.NewPerson` | Ivan_Domrachev.cpp:289-292 | a person takes the next id |
| `Entities.IdIssuer.NewStudent` | Ivan_Domrachev.cpp:342-345 | a student takes the next id |
| `Entities.IdIssuer.NewTransformer` | Ivan_Domrachev.cpp:379-382 | a transformer takes exactly one id, though it has two base classes |
| `Entities.IdIssuer.NewDefaultCar` | Ivan_Domrachev.cpp:237 | the default car is white |
| `Entities.IdIssuer.NewDefaultPerson` | Ivan_Domrachev.cpp:295 | the default person is male |
| `Entities.IdIssuer.NewDefaultStudent` | Ivan_Domrachev.cpp:348 | the default student is male and named "Ivan" |
| `Entities.IdIssuer.NewDefaultTransformer` | Ivan_Domrachev.cpp:385 | the default transformer is male, white and of power 5 |
| `Power.Pow2` | Ivan_Domrachev.cpp:417-423 | the value the doubling loop aims at is never below the initial 1 |
| `Power.Pow2Add` | Ivan_Domrachev.cpp:417-423 | exponents add: 2^(m+n) = 2^m · 2^n |
| `Power.Pow2Increases` | Ivan_Domrachev.cpp:417-423 | larger powers give larger results |
| `Power.MainPowers` | Ivan_Domrachev.cpp:529-531 | the three powers `main` computes are 128, 1024 and 32768 |
| `Power.Pow2FitsInt` | Ivan_Domrachev.cpp:417-423 | every power up to 30 fits in a 32-bit `int` |
| `Power.CalculatePower` | Ivan_Domrachev.cpp:417-423 | `calculate_power(p)` is 2^p for p ≥ 0 and 1 for p ≤ 0, and it does not overflow |
| `Filter.Kept` | Ivan_Domrachev.cpp:155-163 | no more elements are kept than there are |
| `Filter.Entries` | Ivan_Domrachev.cpp:160-162 | each kept element gives one entry line, in order |
| `Filter.Printed` | Ivan_Domrachev.cpp:153-165 | the output is one entry per kept element, in order, followed by exactly one separator |
| `Filter.KeptAppend` | Ivan_Domrachev.cpp:155-163 | filtering a concatenation concatenates the filtered parts, so the printed elements keep their index order |
| `Filter.KeptSound` | Ivan_Domrachev.cpp:160-162 | only elements of the vector that satisfy the predicate are printed |
| `Filter.KeptComplete` | Ivan_Domrachev.cpp:155-163 | every element of the vector that satisfies the predicate is printed |
| `Filter.KeptStep` | Ivan_Domrachev.cpp:155-163 | one more index of the loop adds `v[i]` to the output exactly when it satisfies the predicate |
| `Filter.NothingKept` | Ivan_Domrachev.cpp:153-165 | when no element matches, only the separator is printed |
| `Filter.EverythingKept` | Ivan_Domrachev.cpp:155-163 | when every element matches, all of them are printed in order |
| `Filter.PrintConditionally` | Ivan_Domrachev.cpp:153-165 | the index loop produces exactly the kept elements' entries in index order, then the separator |
| `Filter.WomanPowerKeeps` | Ivan_Domrachev.cpp:594 | with `womanPower`, exactly the female Persons, Students and Transformers are printed |
| `Filter.WomanPowerIgnoresCars` | Ivan_Domrachev.cpp:516-523 | a vector of cars prints only the separator under `womanPower` |

## Left out

- Console output is not modelled. `printPointers` and `printVectorConditionally` write with `cout`. The model returns the lines `printVectorConditionally` would print instead. `printPointers` becomes the `Identity` procedure, since it changes no element.
- The `operator string` renderings and `to_string` are left out. They only format text for printing.
- `srand(time(0))` and the generator behind `rand()` become the `rand` oracle. The clock and the generator's own algorithm are outside the model.
- C++ machinery is replaced by a datatype with case analysis. This covers templates, `decltype` at the call sites, the virtual diamond inheritance, virtual dispatch during construction, pure virtual members and `dynamic_cast`.
- The `main` driver itself is left out. It sorts `Thing*` by pointer address, not by criteria, and it leaks its `new` objects. Only its constants appear, in `Power.MainPowers`.
- The copy constructors and assignment operators are left out. Some copy ids and some do not, and none of the modelled operations uses them.
- The general adapter works on an array. The container types `main` passes to it, such as `list`, are not modelled, and neither is their node structure.
- The adapters receive their range procedure as a `Procedure` value. A function pointer of arbitrary behaviour is not modelled.
- The 32-bit `int` counters of the sort and the shuffle are modelled as unbounded integers. These are `interval_length`, `length` and `permutations_amount = length * scale_factor`. They overflow, which is undefined behaviour, on ranges longer than `INT_MAX / 5` elements, and the model does not capture that.
- Power.CalculatePower: requires `power <= 30`, because doubling past 2^30 overflows a signed 32-bit `int`, which is undefined behaviour; `main` uses 7, 10 and 15.
- Wrapper.ApplyToContainer: requires `0 <= from <= to <= size` once `to` is resolved. Out-of-range iterators are undefined behaviour in C++.
- Wrapper.ApplyToStack: requires `0 <= from <= to <= size` once `to` is resolved. Out-of-range iterators are undefined behaviour in C++.
- `Person::get_gender_string`'s "undefined" branch is left out. It cannot be reached for the two enumeration values.
