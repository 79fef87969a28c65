# Shift, merge, advance and the Mach-O dependency tracker, in Dafny

This project models four pieces of an LLVM checkout and proves what each one
promises.

- **`shift_left` / `shift_right`** from libc++ (ISO C++20, [alg.shift]). These
  slide a range `[first, last)` of an array in place. The random-access and
  bidirectional paths are modelled, and so is the forward-only `shift_right`.
  That path rotates an n-element scratch window with swaps, and its loop
  invariant is the predicate `Shift.Window`. (`shift.dfy`)
- **`merge`** from libc++ (C++20, [alg.merge]). It is the two-way stable
  merge of two read-only ranges into an output array. `Merge.Merged` is the
  merge as a function. The `__merge` loop writes exactly that, and the
  lemmas prove permutation, sortedness, stability and order preservation
  about it. (`merge.dfy`)
- **`advance`** from libc++. This covers the legacy `std::advance` dispatch
  over the three iterator tags, and `ranges::advance` (C++20,
  [range.iter.op.advance]) with its count, bound and bounded-count overloads.
  `__abs` is modelled as two's-complement arithmetic at a given bit width.
  (`advance.dfy`)
- **The `DependencyTracker` of the Mach-O linker driver** (lld). It holds an
  `active` flag and an ordered, duplicate-free set of not-found paths. `write`
  is modelled as the list of records it emits, with a reader (`Parse`)
  proved to invert it. The header also declares two library searches,
  `resolveDylibPath` and `findPathCombination`. They are modelled over a
  predicate `onDisk` saying which paths exist. (`driver.dfy`)

Iterators are integer positions. The iterator category (`iterators.dfy`)
picks the path where the source dispatches on it at compile time.

## Model

| member | source | states |
|---|---|---|
| `Shift.MoveForward` | libcxx/include/__algorithm/shift.h:53 | `std::move` front to back (destination starting at or before the source, or after its end): the destination window holds the source elements as they were, in order, and every position outside both source and destination is unchanged; it returns the end of the destination |
| `Shift.MoveBackward` | libcxx/include/__algorithm/shift.h:72 | `std::move_backward` (destination ending at or after the source's end, or before its start): the window ending at `dstEnd` holds the source elements as they were, and every position outside both source and destination is unchanged; it returns the start of the destination |
| `Shift.ShiftLeftRandomAccess` | libcxx/include/__algorithm/shift.h:35-44 | with `n == 0` it returns `last`, and with `n >= last - first` it returns `first`, both leaving the array unchanged; otherwise `a[first..first+len-n] == old a[first+n..last]`, the result is `first + (len - n)`, and nothing outside the range changes |
| `Shift.ShiftLeftForward` | libcxx/include/__algorithm/shift.h:45-53 | the forward path (stepping `m` and giving up at `last`) keeps the same promise as the random-access path |
| `Shift.ShiftLeft` | libcxx/include/__algorithm/shift.h:29-54 | `shift_left` keeps that promise for every iterator category |
| `Shift.LeftShiftDetermined` | libcxx/include/__algorithm/shift.h:40-53 | the promise fixes the returned iterator, the shifted part and the outside of the range, so the random-access and forward paths agree |
| `Shift.ShiftRightRandomAccess` | libcxx/include/__algorithm/shift.h:62-72 | with `n == 0` it returns `first`, and with `n >= len` it returns `last`, both leaving the array unchanged; otherwise `a[first+n..last] == old a[first..last-n]`, the result is `first + n`, and nothing outside the range changes |
| `Shift.ShiftRightBidirectional` | libcxx/include/__algorithm/shift.h:73-81 | stepping `m` back from `last` gives the same promise, including the early return of `last` when the range runs out |
| `Shift.ShiftRightForward` | libcxx/include/__algorithm/shift.h:82-123 | the forward-only path gives the same promise: the early return when `n >= len`, the short case `len < 2n`, and the cyclic-swap loop |
| `Shift.CycleScratch` | libcxx/include/__algorithm/shift.h:108-122 | the swap loop, run from the state after the window check, completes the right shift; its invariant is `Window` |
| `Shift.WindowStep` | libcxx/include/__algorithm/shift.h:115-121 | one swap of `*mid` and `*trail`, followed by advancing the cursors and wrapping `mid` back to `first` at `ret`, keeps the invariant: `[ret, trail)` is final, and the scratch `[first, ret)` read cyclically from `mid` holds the next n originals in order |
| `Shift.WindowAdvance` | libcxx/include/__algorithm/shift.h:115-118 | the step without a wrap keeps the invariant |
| `Shift.WindowWrap` | libcxx/include/__algorithm/shift.h:115-121 | the step where `mid` wraps to `first` keeps the invariant, with the distance from `mid` to `trail` growing by n |
| `Shift.FlushScratch` | libcxx/include/__algorithm/shift.h:110-113 | when `lead` reaches `last`, moving `[mid, ret)` and then `[first, mid)` to `trail` completes the shift |
| `Shift.WindowFlushed` | libcxx/include/__algorithm/shift.h:110-113 | the two final moves, applied to a state satisfying the invariant, give the right-shifted range |
| `Shift.ShortShift` | libcxx/include/__algorithm/shift.h:97-103 | when `lead` reaches `last` before `trail` reaches `ret` (`len < 2n`), moving `[first, trail)` to `ret` is already the full shift |
| `Shift.ShiftRight` | libcxx/include/__algorithm/shift.h:56-124 | `shift_right` keeps its promise on all three paths |
| `Shift.RightShiftDetermined` | libcxx/include/__algorithm/shift.h:66-123 | the promise fixes the returned iterator, `a[first+n..last]` and the outside of the range, so the forward-only branch agrees with the bidirectional branch |
| `Merge.Merged` | libcxx/include/__algorithm/merge.h:32-47 | the merge has length `len1 + len2` |
| `Merge.Copy` | libcxx/include/__algorithm/merge.h:35 | `std::copy` writes `s[first..last]` at `result`, returns `result + (last - first)`, and leaves the rest of the output unchanged |
| `Merge.MergeInto` | libcxx/include/__algorithm/merge.h:26-58 | `__merge` (and the comparator overload of `merge`, which forwards to it) writes `Merged(xs, ys, comp)` at `result`, returns `result + len1 + len2`, and changes nothing else in the output |
| `Merge.MergeStep` | libcxx/include/__algorithm/merge.h:36-45 | one loop iteration writes the next element of the merge (`*first2` only when `comp(*first2, *first1)`) and leaves the merge of what remains |
| `Merge.CopyTail` | libcxx/include/__algorithm/merge.h:34-35 | once one range is exhausted, copying the rest of the other completes the merge |
| `Merge.CopiedTail` | libcxx/include/__algorithm/merge.h:47 | the final copy fills the rest of the output window and keeps the frame |
| `Merge.MergedExhausted` | libcxx/include/__algorithm/merge.h:34-35 | merging with an empty second range gives the first verbatim, and an empty first range gives the second verbatim |
| `Merge.MergedPermutation` | libcxx/include/__algorithm/merge.h:32-47 | the output multiset is `multiset(xs) + multiset(ys)` |
| `Merge.MergedSorted` | libcxx/include/__algorithm/merge.h:36-45 | if both inputs are sorted under a strict weak order `comp`, the output is sorted |
| `Merge.MergedTaggedValues` | libcxx/include/__algorithm/merge.h:36-45 | the merge of elements tagged with their range, with the tags dropped, is the plain merge, so the tagged lemmas describe the real output |
| `Merge.MergedPreservesOrder` | libcxx/include/__algorithm/merge.h:38-44 | each input is a subsequence of the output: the elements from one range, in output order, are exactly that range |
| `Merge.TakenBefore` | libcxx/include/__algorithm/merge.h:36-45 | an element of the second range written before an element `xs[b]` of the first was less than some head `xs[a]` with `a <= b` |
| `Merge.MergedStable` | libcxx/include/__algorithm/merge.h:36-45 | stability: an element of the second range that precedes an element of the first range is strictly less than it, so among equivalent elements those from the first range come first |
| `Merge.MergeDefault` | libcxx/include/__algorithm/merge.h:60-69 | the overload without a comparator is the merge under `<`; with sorted inputs the output window is ascending |
| `Advance.Abs` | libcxx/include/__iterator/advance.h:74-79 | `__abs` computes `~u + 1` modulo 2^bits for negative `n`; the result equals the mathematical `abs(n)` for every representable `n` and fits the unsigned type |
| `Advance.ToUnsigned` | libcxx/include/__iterator/advance.h:76 | `__to_unsigned_like` is the integral conversion to the unsigned type: the result lies in `[0, 2^bits)` and is congruent to `n` modulo 2^bits |
| `Advance.BitNot` | libcxx/include/__iterator/advance.h:77 | `~u`, defined bit by bit (each bit the opposite of `u`'s), fits in `bits` bits and adds to `u` to give `2^bits - 1`, the all-ones value |
| `Advance.AbsOfMinimum` | libcxx/include/__iterator/advance.h:75-79 | `__abs` of the minimum signed value is `2^(bits-1)`, which only the unsigned type can hold |
| `Advance.AdvanceInputTag` | libcxx/include/__iterator/advance.h:33-38 | the input-iterator `__advance` moves `i` forward by `n` when `n >= 0`, and never moves it backward |
| `Advance.AdvanceBidirectionalTag` | libcxx/include/__iterator/advance.h:40-49 | the bidirectional `__advance` moves `i` by exactly `n`, for either sign |
| `Advance.AdvanceRandomAccessTag` | libcxx/include/__iterator/advance.h:51-55 | the random-access `__advance` is `i += n` |
| `Advance.AdvanceLegacy` | libcxx/include/__iterator/advance.h:57-66 | `std::advance` requires `n >= 0` unless the iterator is bidirectional, and then moves `i` by exactly `n` in every category |
| `Advance.AdvanceForward` | libcxx/include/__iterator/advance.h:81-87 | `__advance_forward` moves `i` by `n` when `n > 0` and otherwise leaves it |
| `Advance.AdvanceBackward` | libcxx/include/__iterator/advance.h:89-95 | `__advance_backward` moves `i` by `n` when `n < 0` and otherwise leaves it |
| `Advance.AdvanceBy` | libcxx/include/__iterator/advance.h:100-121 | `ranges::advance(i, n)` has net displacement `n`; a negative `n` requires a bidirectional iterator |
| `Advance.AdvanceTo` | libcxx/include/__iterator/advance.h:123-140 | `ranges::advance(i, bound)` always leaves `i == bound`, whether it assigns, advances by `bound - i`, or increments |
| `Advance.AdvanceBoundedSized` | libcxx/include/__iterator/advance.h:151-161 | sized sentinel: when `abs(n) >= abs(bound - i)`, `i` ends at `bound` and the call returns `n - (bound - i)`; otherwise `i` moves by `n` and the call returns 0 |
| `Advance.AdvanceBoundedUnsized` | libcxx/include/__iterator/advance.h:162-178 | unsized sentinel: at most `abs(n)` steps towards `bound`; `i == bound` or the result is 0; the result is `n - M` where `M` is the displacement; the end position is the one the sized path reaches |
| `Advance.AdvanceBounded` | libcxx/include/__iterator/advance.h:142-181 | `ranges::advance(i, n, bound)` returns `n - M` and ends at `bound` or with nothing left, at the same position on either path |
| `Driver.Insert` | lld/MachO/Driver.h:116-119 | `std::set::insert`: the set gains `p` and nothing else, stays strictly ascending (so holds no duplicates), and is unchanged if `p` was present |
| `Driver.InsertIdempotent` | lld/MachO/Driver.h:116-119 | inserting the same path twice gives the same set as inserting it once |
| `Driver.SortedUnique` | lld/MachO/Driver.h:116-119 | two strictly ascending sequences with the same elements are equal, so the set's enumeration depends only on its contents |
| `Driver.InsertCommutes` | lld/MachO/Driver.h:116-119 | the enumeration does not depend on insertion order |
| `Driver.InsertExample` | lld/MachO/Driver.h:116-119 | logging `"b"` and then `"a"` enumerates `["a", "b"]` |
| `Driver.LexTotal` | lld/MachO/Driver.h:119 | the order of `std::string` is total on distinct strings (with `LexLess`, which never holds of equal strings, `LexTransitive` and `LexAsymmetric`, a strict total order) |
| `Driver.LexLess` | lld/MachO/Driver.h:116-119 | `std::string` `<` is irreflexive: a string is never less than itself |
| `Driver.TwineStrAppend` | lld/MachO/Driver.h:89-92 | `Twine::str()` joins the pieces; joining is the same however they are grouped |
| `Driver.CodesAscend` | lld/MachO/Driver.h:102-111 | the opcodes are Version 0x00, Input 0x10, NotFound 0x11 and Output 0x40; they are distinct and ascend in the order the sections are written |
| `Driver.Section` | lld/MachO/Driver.h:94-99 | a section is one record with the section's opcode per path, in order |
| `Driver.Serialize` | lld/MachO/Driver.h:94-111 | the file has one record per input and per not-found path plus the version and output records, and each record carries the kind of its section: Version first, then the Inputs, the NotFounds, and Output last |
| `Driver.SerializeCodesAscend` | lld/MachO/Driver.h:95-96 | the records of the file are sorted by opcode |
| `Driver.Parse` | lld/MachO/Driver.h:94-111 | an accepted record list has one record per path read back, starts with the version record and ends with the output record |
| `Driver.ParseSerialize` | lld/MachO/Driver.h:94-99 | reading back the records of a file recovers its version, its inputs in the order written, its not-found paths and its output |
| `Driver.SerializeParse` | lld/MachO/Driver.h:94-99 | any record list the reader accepts is exactly what writing its result gives |
| `Driver.SerializeSectionsAscending` | lld/MachO/Driver.h:95-96 | with ascending inputs and the ordered not-found set, any two records of the same section are in alphabetical order |
| `Driver.InsertAscending` | lld/MachO/Driver.h:95-96 | placing a path in an ascending list keeps it ascending and adds exactly that path |
| `Driver.SortPaths` | lld/MachO/Driver.h:95-96 | the inputs in alphabetical order: an ascending permutation of the given list (duplicates kept) |
| `Driver.AscendingUnique` | lld/MachO/Driver.h:95-96 | two ascending lists with the same elements are equal, so the alphabetical order of a section is unique |
| `Driver.SortPathsPermutationInvariant` | lld/MachO/Driver.h:95-96 | the Input section does not depend on the order the inputs were given in |
| `Driver.SortPathsExample` | lld/MachO/Driver.h:95-96 | inputs given as `b`, `a` are written `a`, `b` |
| `Driver.DependencyTracker.constructor` | lld/MachO/Driver.h:81 | a new tracker has an empty not-found set; whether it is active is a parameter |
| `Driver.DependencyTracker.LogFileNotFound` | lld/MachO/Driver.h:84-87 | on an active tracker the set becomes `old + {p}` and stays ordered; on an inactive tracker it is unchanged |
| `Driver.DependencyTracker.LogFileNotFoundTwine` | lld/MachO/Driver.h:89-92 | the same for a `Twine`, with the joined string inserted |
| `Driver.DependencyTracker.Write` | lld/MachO/Driver.h:94-99 | an inactive tracker emits nothing; an active one emits records that read back as (version, the inputs sorted alphabetically, the not-found paths in ascending order, output), sorted by opcode and, within each section, alphabetically |
| `Driver.ResolveDylibPath` | lld/MachO/Driver.h:53-54 | what `resolveDylibPath(p)` finds exists and is `p.dylib` or `p.tbd`; it finds nothing exactly when neither exists; `p.dylib` wins when it exists, and `p.tbd` is found when only it exists |
| `Driver.PerRoot` | lld/MachO/Driver.h:59-64 | for one root, the candidate paths are `{root}/{name}.{ext}`, one per extension, in the order of the extensions |
| `Driver.FirstExisting` | lld/MachO/Driver.h:59-64 | a scan returns a candidate that exists, and returns none exactly when no candidate exists |
| `Driver.FindPathCombination` | lld/MachO/Driver.h:59-64 | what `findPathCombination` finds exists and is one of the `{root}/{name}.{ext}` combinations |
| `Driver.FindPathCombinationFound` | lld/MachO/Driver.h:59-64 | a result of `findPathCombination` is an existing `{root}/{name}.{ext}`, and no combination before it in root-then-extension order exists |
| `Driver.FindPathCombinationNone` | lld/MachO/Driver.h:59-64 | `findPathCombination` returns none exactly when no combination exists |
| `Driver.FindPathCombinationFlat` | lld/MachO/Driver.h:59 | the nested root-then-extension search equals a scan of the flattened list of all combinations |
| `Driver.Candidates` | lld/MachO/Driver.h:59 | there are `len(roots) * len(extensions)` combinations |
| `Driver.DefaultExtensions` | lld/MachO/Driver.h:60-64 | with the default extensions `{""}`, only `{root}/{name}` is tried, root by root |
| `Driver.FindPathExample` | lld/MachO/Driver.h:59-64 | with roots `/sysroot` and `/usr/lib`, extensions `dylib` and `tbd`, and only `/usr/lib/libFoo.tbd` on disk, the search finds `/usr/lib/libFoo.tbd` |

Notes on the model:

- The order of the Input section follows the header comment of `write`
  (lld/MachO/Driver.h:95-96): by opcode, then alphabetically within each
  section. The inputs reach `write` as an insertion-ordered `SetVector`,
  and the body of `write` (Driver.cpp) is not part of this model. A design
  that writes the inputs in link order would diverge from that comment. The
  model sorts the input paths (`SortPaths`, keeping duplicates, since two
  inputs may share a path) and proves every section alphabetical. The
  NotFound section is alphabetical because `notFounds` is a `std::set`.
- A path may appear both as an input and as not found. The model does not
  reconcile the two sections.
- `std::string` comparison is modelled as lexicographic order on character
  codes, with a proper prefix first.
- `findPathCombination` builds `{root}/{name}.{ext}`. With the empty extension
  it builds `{root}/{name}`, with no trailing dot.
- A negative `n` for `shift_left` and `shift_right` is a precondition
  violation in C++20, and is excluded by `requires n >= 0`. The libc++
  assertions in `advance` (a negative count needs a bidirectional iterator)
  are also `requires` clauses.

## Left out

- Moved-from values: `std::move` and `std::move_backward` promise nothing about a moved-from source position outside the destination (`Shift.MovedTo`), since the standard leaves its value unspecified; the loops copy.
- C++ template and concept dispatch, `constexpr`, iterator tags and `__comp_ref_type`: they are replaced by explicit variants over integer positions (`IteratorTraits.Category`, `Advance.SentinelKind`).
- `difference_type` overflow is not modelled: positions and counts are unbounded integers. The exception is `__abs`, which is modelled at an explicit bit width.
- Merge.MergeDefault: is stated for `int` elements under `<`, not for every type with `operator<`.
- Advance.AdvanceBoundedSized: compares the mathematical magnitudes `AbsInt(n)` and `AbsInt(bound - i)` instead of calling `Abs` at a bit width; `Advance.Abs` proves the two are equal for every representable value.
- `MachOOptTable`, the `OPT_*` option enum, `createResponseFile` and `parseLCLinkerOption`: these are option-table plumbing over llvm::opt, whose code is not part of this model.
- `loadDylib`, `loadArchiveMember`, `getModTime` and `printArchiveMemberLoad`: only their declarations are available, and their bodies depend on memory buffers, the filesystem and Mach-O, TBD and archive parsers that are not part of this model.
- `rerootPath`: its body is not part of this model, and its comment states no precise behaviour.
- Driver.ResolveDylibPath: follows the header comment (`.dylib` then `.tbd`). Driver.cpp is not part of this model, so a first check of a path that already ends in `.dylib` or `.tbd` is not modelled.
- The `DependencyTracker` constructor takes `active` directly. Deriving it from the output path, and the byte-level framing and file I/O of `write` (including open and write failures), are not modelled. `write` is modelled as its list of records.
- The global `depTracker` pointer is process-wide state, not logic. Concurrent calls to `logFileNotFound` are also not modelled.
- The filesystem is the predicate `onDisk`. Existence probes are its only use.
