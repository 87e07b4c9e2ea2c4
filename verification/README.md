# The support layer of RaftKeeper, modelled and proved in Dafny

RaftKeeper is a ZooKeeper-compatible coordination service written in C++. This project models the
parts of its support layer whose correctness rests on arguments rather than on reading one body,
and proves what they promise for every input or every run.

- **PCG random engine** (`PcgEngine`, `PcgOutput`, `PcgGenerator`): a linear congruential generator
  modulo 2^w for every width w. Jumping ahead equals single steps, jumping back undoes it exactly
  when the multiplier is odd, the distance search ends within one pass per bit and finds the unique
  number of steps, the constants that reach every state are characterised, the output permutation
  is described bit by bit and inverted, and bounded draws are unbiased.
- **128-bit integers of the engine** (`Uint128`, `Uint128Shift`, `Uint128Divide`): carry-chain
  multiplication, word shifts and shift-and-subtract division against plain integer arithmetic.
- **Wide integers** (`WideValue`, `WideOps`, `WideShift`, `SignedPasses`, `WideDivide`,
  `WideQuotient`, `WideHalves`, `WideMultiply`, `WideText`, `WideHex`): limb arrays of any length
  against integers modulo 2^(64 n). Printing and parsing are inverse for every value, the most
  negative included, and every hexadecimal spelling of a number reads back as that number. Four laws do not hold for all operands: the arithmetic right shift, the signed quotient,
  the signed remainder, and 256-bit multiplication by a 256-bit operand. Each has the exact condition
  under which it holds and a call for which it does not.
- **ConcurrentBoundedQueue** (`BoundedQueue`, `QueueProtocol`): the critical sections as methods of
  a class, and the mutex and two condition variables as a step system over any number of threads.
  Every interleaving conserves items, respects the capacity, accepts nothing after finish, hands out
  what was queued before any pop is refused, and loses no wakeup. Timeouts and spurious wakes are nondeterministic steps.
- **DWARF reader** (`DwarfRead`, `DwarfForms`, `DwarfAbbrev`, `DwarfAttrs`, `DwarfTree`,
  `DwarfNodes`, `DwarfLines`, `DwarfProgram`): LEB128 numbers, attribute values by form, the
  abbreviation table and its cache, the walk of a serialized tree of entries, the line-number
  machine and the address search on top of it. Tables, values, trees and line programs are also
  written, by encoders with constants of their own, and what is written is read back. Sections 2.3,
  6.2, 7.5 and 7.6 of DWARF 4.
- **Arena** (`Arena`): a bump allocator whose live ranges stay disjoint and keep their bytes.
- **PODArray and CompactStrings** (`PodArray`, `CompactStrings`): a growing array with a hidden zero
  element before its first one, and the packed strings that rely on it.
- **itoa** (`Itoa`): division by magic multiplication, recursive digit splitting, and a second
  printer that agrees with the first on one reference text.

`Arith`, `Bits` and `DecimalText` hold what the models share: powers of two, congruences, bitwise
operators on natural numbers, canonical decimal text. A machine word of width w is a natural number
below 2^w and every wrap-around is written out. `dafny verify dfyconfig.toml` checks all files.

Where the code differs from what its comments or types suggest, the model follows the code:

- The sign-fill loops of the wide `shift_right` do not reach the top limbs from 64 bits on, so the
  shift of a negative value is then not an arithmetic shift (`WideShift.ShiftRight`).
- `divide` compares with the type's own sign, so a signed quotient goes wrong once the doubled
  divisor reaches the sign bit (`WideQuotient.OperatorSlash`). The remainder then goes wrong too,
  unless the divisor is a quarter of the capacity (`WideQuotient.OperatorPercent`). Dividing a value
  in the upper quarter by one does not end (`WideDivide.EndlessPasses`).
- A comparison with a shorter operand pads it with zeros even when it is negative
  (`WideOps.OperatorMore`).
- The 256-bit multiplication reads only the lowest limb of a 256-bit right operand wherever it
  converts it to a builtin type (`WideHalves.WideMultiplierIff`).
- The abbreviation cache keeps the last of several entries with one code, the linear search returns
  the first (`DwarfAbbrev.CacheAgrees`).
- The address search looks only at sequences whose first row is not above the target
  (`DwarfLines.SearchMissesDescent`).

## Model

| member | source | states |
|---|---|---|
| PcgEngine.Advance | base/pcg-random/pcg_random.hpp:634-660 | the logarithmic jump equals `delta` single steps, for every state, multiplier, increment and width |
| PcgEngine.StepsCompose | base/pcg-random/pcg_random.hpp:449-452 | steps compose by adding their numbers, without wrapping |
| PcgEngine.AdvancesCompose | base/pcg-random/pcg_random.hpp:449-452 | with an odd multiplier, advancing by a and then by b is advancing by (a + b) mod 2^w |
| PcgEngine.AdvancesComposeIffOdd | base/pcg-random/pcg_random.hpp:449-452 | advances compose modulo 2^w for every state and all lengths if and only if the multiplier is odd |
| PcgEngine.FullCycle | base/pcg-random/pcg_random.hpp:634-660 | with an odd multiplier 2^w steps lead back to every state |
| PcgEngine.BackstepUndoesAdvance | base/pcg-random/pcg_random.hpp:454-457 | with an odd multiplier, advancing by the wrapped negation of n undoes advancing by n |
| PcgEngine.BackstepUndoesAdvanceIffOdd | base/pcg-random/pcg_random.hpp:454-457 | it does so for every state and length if and only if the multiplier is odd |
| PcgEngine.FlipsBit | base/pcg-random/pcg_random.hpp:672-681 | with good constants the squared step of pass j flips bit j of the state and nothing below it, which is what the assertion in the loop checks |
| PcgEngine.Distance | base/pcg-random/pcg_random.hpp:662-683 | the search ends within one pass per bit, its assertion holds, and the distance found leads from one state to the other under the mask, and exactly with the full mask |
| PcgEngine.PeriodExact | base/pcg-random/pcg_random.hpp:634-683 | with good constants n steps return to the start if and only if n is a multiple of the period |
| PcgEngine.StepsInjective | base/pcg-random/pcg_random.hpp:662-683 | below the period no two lengths lead to the same state, so the distance is unique |
| PcgEngine.DistanceOfAdvance | base/pcg-random/pcg_random.hpp:443-452 | the distance to the state n steps ahead is n |
| PcgEngine.StepsKeepClass | base/pcg-random/pcg_random.hpp:405-408 | a multiplicative generator never leaves the residue class of its state |
| PcgEngine.AllReachableIff | base/pcg-random/pcg_random.hpp:405-408 | every state reaches every other if and only if the increment is odd and the multiplier is 1 modulo 4 |
| PcgEngine.Confined | base/pcg-random/pcg_random.hpp:405-408 | with any other constants the generator is confined to a proper subset, named for each case |
| PcgGenerator.Engine.constructor | base/pcg-random/pcg_random.hpp:476-481 | a seed becomes an odd state for the multiplicative generator and one step past seed plus increment otherwise |
| PcgGenerator.Engine.Generate | base/pcg-random/pcg_random.hpp:415-420 | returns the state before the step and takes one step |
| PcgGenerator.Engine.Advance | base/pcg-random/pcg_random.hpp:449-452 | the state moves by `delta` steps |
| PcgGenerator.Engine.Backstep | base/pcg-random/pcg_random.hpp:454-457 | the new state is the one from which `delta` steps lead to the old state |
| PcgGenerator.Engine.DistanceTo | base/pcg-random/pcg_random.hpp:443-446 | the least number of steps to the other state |
| PcgGenerator.Engine.SetStream | base/pcg-random/pcg_random.hpp:326-329 | the increment becomes odd, so the stream keeps its period |
| PcgGenerator.DefaultConstantsGood | base/pcg-random/pcg_random.hpp:155-170 | the built-in constants of all five widths meet the conditions of the theorems above |
| PcgOutput.UnxorshiftInverts | base/pcg-random/pcg_extras.hpp:261-279 | the recursion recovers x from x xor (x >> k) for every width and every k of at least 1 |
| PcgOutput.UnoutputInvertsOutput | base/pcg-random/pcg_random.hpp:919-957 | the inverse permutation recovers every state when the two multipliers are inverse modulo 2^w |
| PcgOutput.MultiplierPairs | base/pcg-random/pcg_random.hpp:899-914 | the built-in pairs are inverse modulo 2^w |
| PcgOutput.OutputRoundTrip | base/pcg-random/pcg_random.hpp:899-957 | the round trip for the built-in pairs of all five widths |
| PcgOutput.OutputBits | base/pcg-random/pcg_random.hpp:919-937 | for each of the five widths, with its numbers: bit i of the output is bit i of p flipped by the bit 6, 11, 22, 43 or 86 places up, p is the product modulo 2^w, and bit i of its factor is bit i of the state flipped by the bit as many places up as the top bits select |
| PcgOutput.FoldedUnique | base/pcg-random/pcg_random.hpp:932-936 | those bits determine the folded number |
| PcgOutput.MultipliersTruncate | base/pcg-random/pcg_random.hpp:884-912 | the multiplier of each width is the 128-bit one modulo 2^w |
| PcgOutput.BoundedRand | base/pcg-random/pcg_extras.hpp:513-525 | the first draw not below the threshold is the one returned, reduced below the bound |
| PcgOutput.BoundedRandUnbiased | base/pcg-random/pcg_extras.hpp:513-525 | every value below the bound has exactly floor(2^w / bound) accepted draws |
| Uint128.AddWithCarry | base/pcg-random/pcg_uint128.hpp:186-193 | sum and carry are the two digits of x + y + carry |
| Uint128.SubWithCarry | base/pcg-random/pcg_uint128.hpp:195-202 | difference and borrow are those of x - y - carry |
| Uint128.PlusValue | base/pcg-random/pcg_uint128.hpp:564-581 | addition modulo 2^128 |
| Uint128.MinusValue | base/pcg-random/pcg_uint128.hpp:583-600 | subtraction modulo 2^128 |
| Uint128.Less | base/pcg-random/pcg_uint128.hpp:649-654 | the comparison by halves is the order of the values |
| Uint128.MultiplyLow | base/pcg-random/pcg_uint128.hpp:524-556 | the carry chain gives the product of the low halves exactly: no carry is lost |
| Uint128.Multiply | base/pcg-random/pcg_uint128.hpp:520-561 | multiplication modulo 2^128 |
| Uint128Shift.ShiftLeft | base/pcg-random/pcg_uint128.hpp:676-709 | multiplication by a power of two modulo 2^128, also for shifts past the width |
| Uint128Shift.ShiftRight | base/pcg-random/pcg_uint128.hpp:711-744 | division by a power of two |
| Uint128Divide.FLog2 | base/pcg-random/pcg_uint128.hpp:429-443 | the floor of the binary logarithm |
| Uint128Divide.DivMod128 | base/pcg-random/pcg_uint128.hpp:460-503 | the nested loops end with dividend = quotient * divisor + remainder and remainder < divisor |
| Uint128Divide.Refit | base/pcg-random/pcg_uint128.hpp:496-499 | the inner loop ends with a factor that fits, which is still a doubling of the divisor while the dividend is not below it |
| WideOps.Plus | base/common/wide_integer_impl.h:450-481 | addition modulo the capacity, for operands of different lengths |
| WideOps.Minus | base/common/wide_integer_impl.h:417-448 | subtraction modulo the capacity |
| WideOps.ShiftLeft | base/common/wide_integer_impl.h:327-352 | multiplication by 2^n modulo the capacity |
| WideOps.ShiftRightValue | base/common/wide_integer_impl.h:354-375 | the unsigned part of the right shift divides by 2^n |
| WideShift.ShiftRight | base/common/wide_integer_impl.h:354-392 | the shift is the floor of the division by 2^n if and only if the value is not negative or n < 64 |
| WideShift.ShiftRightFails | base/common/wide_integer_impl.h:377-384 | the most negative 256-bit value shifted by 64 is not that floor |
| WideOps.OperatorMore | base/common/wide_integer_impl.h:655-678 | the comparison is that of the values under the type's sign, also with a shorter operand, unless both are negative and the right one is shorter: then the answer is always more |
| WideOps.OperatorEq | base/common/wide_integer_impl.h:705-725 | equality of values, also with a shorter operand |
| WideOps.OperatorPipe | base/common/wide_integer_impl.h:727-743 | bitwise or of the values |
| WideOps.OperatorAmp | base/common/wide_integer_impl.h:745-761 | bitwise and of the values |
| WideOps.OperatorTilda | base/common/wide_integer_impl.h:575-582 | the complement is capacity - 1 - value |
| WideOps.OperatorUnaryMinus | base/common/wide_integer_impl.h:584-588 | negation modulo the capacity |
| WideDivide.TopBit | base/common/wide_integer_impl.h:791 | the loop's test reads the top bit, in spite of the sign fill |
| WideDivide.DoubleUp | base/common/wide_integer_impl.h:791-795 | the first loop ends with the largest doubling it may use, divisor and quotient bit shifted alike |
| WideDivide.Reduce | base/common/wide_integer_impl.h:797-807 | the second loop ends and leaves quotient and remainder |
| WideDivide.Divide | base/common/wide_integer_impl.h:779-810 | for unsigned values quotient and remainder of any two operands; for signed ones the quotient is right exactly when the doubled divisor stays clear of the sign bit, and the remainder exactly then or when the divisor is a quarter of the capacity and not above the numerator; an error for zero |
| WideDivide.SignedRemainder | base/common/wide_integer_impl.h:797-807 | beyond the condition on the quotient, what the second loop leaves is the remainder for that one divisor only |
| SignedPasses.SignedRest | base/common/wide_integer_impl.h:797-807 | the passes from a divisor whose doubling has the sign bit leave the remainder if and only if the divisor is a quarter of the capacity |
| SignedPasses.AllTaken | base/common/wide_integer_impl.h:799-806 | once a negative divisor is subtracted all later ones are, and what is left has a closed form |
| SignedPasses.NoneTaken | base/common/wide_integer_impl.h:799-806 | below the first negative divisor nothing is subtracted |
| WideDivide.EndlessPasses | base/common/wide_integer_impl.h:791-807 | in the case `Divide` excludes, the second loop goes on after any number of passes |
| WideQuotient.MakePositive | base/common/wide_integer_impl.h:193-197 | the absolute value as an unsigned number, the most negative value included |
| WideQuotient.OperatorSlash | base/common/wide_integer_impl.h:813-830 | the result is the quotient truncated toward zero if and only if the operands meet the condition of `divide` |
| WideQuotient.OperatorPercent | base/common/wide_integer_impl.h:832-849 | the result is the remainder of the truncated division, with the sign of the left operand, if and only if the absolute values meet the condition on the remainder |
| WideQuotient.SignedDivisionFails | base/common/wide_integer_impl.h:813-830 | the signed 256-bit 2^254 / 2 does not give 2^253 |
| WideQuotient.SignedRemainderFails | base/common/wide_integer_impl.h:832-849 | the signed 256-bit (2^254 + 5) % 2 does not give 1 |
| WideQuotient.RightBesideWrong | base/common/wide_integer_impl.h:813-849 | for 2^254 + 5 and 2^254 the remainder is 5 beside a wrong quotient |
| WideMultiply.MultiplyShiftAdd | base/common/wide_integer_impl.h:533-570 | shift-and-add with the multiples by 3 and 7 is the product modulo the capacity, for any number of limbs |
| WideHalves.MultiplyHalves | base/common/wide_integer_impl.h:487-530 | the 256-bit half-word version multiplies by the number it reads from its right operand |
| WideMultiply.Multiply | base/common/wide_integer_impl.h:483-572 | both versions give the product by one builtin word modulo the capacity |
| WideHalves.WideMultiplierIff | base/common/wide_integer_impl.h:1102-1116 | a 256-bit right operand is multiplied rightly if and only if the product by its second limb vanishes modulo 2^192 |
| WideHalves.WideMultiplierFails | base/common/wide_integer_impl.h:1102-1116 | 1 times 2^64 gives 0 |
| WideText.ToString | base/common/wide_integer_to_string.h:11-33 | the canonical decimal text of the value, signed or not |
| WideText.FromStr | base/common/wide_integer_impl.h:871-924 | the number a decimal or hexadecimal text denotes, negated after a minus, modulo the capacity; an error exactly for other texts |
| WideText.DecimalDenotes | base/common/wide_integer_impl.h:903-917 | reading the canonical text of a number gives the number |
| WideText.RoundTrip | base/common/wide_integer_impl.h:871-924 | parsing the printed text gives back the same limbs, for every signed and unsigned value |
| WideHex.ParseSpelled | base/common/wide_integer_impl.h:879-922 | digits of the hexadecimal tables, each in either case, after either prefix and a minus in a signed type, read as their number modulo the capacity |
| WideHex.ParseHex | base/common/wide_integer_impl.h:879-922 | every number printed in hexadecimal reads back modulo the capacity, negated after a minus |
| WideHex.SpelledRead | base/common/wide_integer_impl.h:880-901 | the digit loop gives the positional value of the digits |
| WideHex.ParseOrThrow | base/common/wide_integer_impl.h:871-924 | an error if and only if some character is outside the table the prefix calls for |
| BoundedQueue.Guarded.constructor | src/Common/ConcurrentBoundedQueue.h:126-128 | an empty, unfinished queue |
| BoundedQueue.Guarded.Emplace | src/Common/ConcurrentBoundedQueue.h:64-92 | one critical section of a push: appends if and only if not finished and not full, waits if and only if full, not finished and not timed out |
| BoundedQueue.Guarded.Pop | src/Common/ConcurrentBoundedQueue.h:94-122 | one critical section of a pop: takes the front item if and only if there is one, also after finish; waits if and only if empty, not finished and not timed out |
| BoundedQueue.Guarded.Finish | src/Common/ConcurrentBoundedQueue.h:215-233 | marks the queue finished and tells whether it was |
| BoundedQueue.Guarded.Clear | src/Common/ConcurrentBoundedQueue.h:250-263 | drops the items unless finished |
| BoundedQueue.Guarded.ClearAndFinish | src/Common/ConcurrentBoundedQueue.h:266-278 | drops the items and finishes |
| QueueProtocol.StepKeepsInv | src/Common/ConcurrentBoundedQueue.h:64-122 | every step of every thread keeps mutual exclusion, the item accounts and both wakeup bounds |
| QueueProtocol.PushKeeps | src/Common/ConcurrentBoundedQueue.h:64-92 | the push section keeps them |
| QueueProtocol.PopKeeps | src/Common/ConcurrentBoundedQueue.h:94-122 | the pop section keeps them |
| QueueProtocol.ControlKeeps | src/Common/ConcurrentBoundedQueue.h:215-278 | finish, clear and clearAndFinish keep them |
| QueueProtocol.NotifyOneKeeps | src/Common/ConcurrentBoundedQueue.h:90-120 | sending one notification outside the lock keeps them |
| QueueProtocol.NotifyAllKeeps | src/Common/ConcurrentBoundedQueue.h:229-277 | sending a notification to all keeps them |
| QueueProtocol.RunInv | src/Common/ConcurrentBoundedQueue.h:64-122 | in every reachable state: if a popper sleeps before finish, the items are at most the awakened poppers plus the unsent notifications; dually for pushers and free slots, where a pending notification to all also counts |
| QueueProtocol.RunConserves | src/Common/ConcurrentBoundedQueue.h:64-122 | in every run the size stays within the capacity, popped items keep the order of acceptance, and accepted items are the popped, the dropped and the queued ones |
| QueueProtocol.FatesPartition | src/Common/ConcurrentBoundedQueue.h:250-278 | each item that left was either popped or dropped, once |
| QueueProtocol.NothingAfterFinish | src/Common/ConcurrentBoundedQueue.h:215-233 | once finished, a run stays finished and accepts nothing more |
| QueueProtocol.PopOutcome | src/Common/ConcurrentBoundedQueue.h:94-122 | in every run a pop section hands out the front item if and only if there is one, sleeps if and only if the queue is empty, not finished and the wait not timed out, and is refused otherwise |
| QueueProtocol.PushOutcome | src/Common/ConcurrentBoundedQueue.h:64-92 | in every run a push section accepts if and only if the queue is not finished and has room, sleeps if and only if it is full, not finished and the wait not timed out, and is refused otherwise |
| QueueProtocol.ControlOutcome | src/Common/ConcurrentBoundedQueue.h:215-278 | in every run finish finishes and keeps the items, clear empties an unfinished queue, clearAndFinish does both, and each notifies when it changed something |
| QueueProtocol.DrainsInOrder | src/Common/ConcurrentBoundedQueue.h:210-233 | from finish on, what was popped followed by what is queued stays the same sequence, unless a clearAndFinish takes the rest away |
| QueueProtocol.DrainedBeforeRefusal | src/Common/ConcurrentBoundedQueue.h:210-233 | after finish no pop is refused before the whole queue has been handed out, in order |
| QueueProtocol.PopperNotForgotten | src/Common/ConcurrentBoundedQueue.h:94-122 | no popper sleeps beside an item or after finish unless somebody is awake for it or a notification is still to be sent |
| QueueProtocol.PusherNotForgotten | src/Common/ConcurrentBoundedQueue.h:64-92 | the same for pushers and free slots |
| QueueProtocol.NobodySleepsAfterFinish | src/Common/ConcurrentBoundedQueue.h:215-278 | once the notifications of finish are sent nobody is asleep |
| DwarfRead.ReadUleb | src/Common/Dwarf.cpp:211-229 | the number in the 7-bit groups modulo 2^64, and where it ends, for encodings of up to ten bytes as C++ defines them; an error when the last byte is missing |
| DwarfRead.ReadSleb | src/Common/Dwarf.cpp:232-244 | the sign-extended number, for encodings of up to ten bytes as C++ defines them |
| DwarfRead.ReadEncodedUleb | src/Common/Dwarf.cpp:211-229 | reading an encoded number anywhere in a section gives it back, for every 64-bit value |
| DwarfRead.ReadEncodedSleb | src/Common/Dwarf.cpp:232-244 | the same for every signed 64-bit value |
| DwarfRead.EncodedUleb | src/Common/Dwarf.cpp:211-222 | the groups of an encoding add up to the number, for naturals of any size |
| DwarfRead.EncodedSleb | src/Common/Dwarf.cpp:232-244 | the same for integers of any size |
| DwarfAbbrev.ReadAttributeSpec | src/Common/Dwarf.cpp:720-730 | one specification: name, form, and its signed constant when the form has one |
| DwarfAbbrev.ReadAbbreviation | src/Common/Dwarf.cpp:462-487 | one entry with the bytes of its specifications, or the end of the table, or an error |
| DwarfAbbrev.GetAbbreviation | src/Common/Dwarf.cpp:851-863 | the first entry of the table with the code |
| DwarfAbbrev.FillCache | src/Common/Dwarf.cpp:490-503 | each slot below 1000 holds the last entry with its code, for tables of any length |
| DwarfAbbrev.Lookup | src/Common/Dwarf.cpp:967-969 | codes below 1000 come from the cache if the unit has one, others from the linear search |
| DwarfAbbrev.ResolvedExact | src/Common/Dwarf.cpp:967-969 | with a cache a code up to 999 gets the last entry that carries it or the empty entry; any other gets the first entry or none |
| DwarfAbbrev.ResolvedDistinct | src/Common/Dwarf.cpp:967-969 | with distinct codes the lookup gives the entry of the search, with and without a cache |
| DwarfAbbrev.EntryWritten | src/Common/Dwarf.cpp:462-487 | a written entry reads back, and reading ends where it ends |
| DwarfAbbrev.SpecsReadBack | src/Common/Dwarf.cpp:720-730 | a written list of specifications reads back, constants included |
| DwarfAbbrev.TableWritten | src/Common/Dwarf.cpp:490-503 | a written table reads back to its entries in order, and to its end |
| DwarfAbbrev.CacheAgrees | src/Common/Dwarf.cpp:490-503 | cache and linear search agree on a code of the table if and only if its first and last entry are the same, so always when codes are distinct |
| DwarfAbbrev.CacheDisagrees | src/Common/Dwarf.cpp:490-503 | a section with a repeated code for which the lookup through the cache and the search return different entries |
| DwarfForms.ReadAttribute | src/Common/Dwarf.cpp:550-717 | value, final form and end of one attribute, through any chain of indirect forms, or an error |
| DwarfForms.ItemWritten | src/Common/Dwarf.cpp:550-717 | a value written in a form that can hold it, by the sizes and prefixes the standard lists, is read back wherever it lies, and reading ends where it ends |
| DwarfForms.FormInside | src/Common/Dwarf.cpp:550-717 | what is read from some bytes is read from them inside a section too |
| DwarfAttrs.ForEachAttribute | src/Common/Dwarf.cpp:535-548 | the attributes with their values up to the first that the callback refuses, and the position after all values if none is refused |
| DwarfAttrs.AttrsFollowSpecs | src/Common/Dwarf.cpp:535-548 | one attribute for each specification, in order, with the values one after the other |
| DwarfAttrs.AttrsWritten | src/Common/Dwarf.cpp:535-548 | a written list of specifications and values reads back as those attributes at their places, and ends where its bytes end |
| DwarfTree.GetDieAtOffset | src/Common/Dwarf.cpp:954-972 | the entry at an offset with the abbreviation from cache or search, the null entry, or an error |
| DwarfTree.ForEachChild | src/Common/Dwarf.cpp:505-529 | the position and the calls of the walk over the direct children, stopping where the callback says so |
| DwarfTree.WalkAll | src/Common/Dwarf.cpp:505-529 | with a callback that always continues, the walk ends just past the whole subtree, which lies strictly ahead |
| DwarfTree.EntryFound | src/Common/Dwarf.cpp:954-972 | a written entry is found at its offset with the abbreviation the reader's own lookup gives, and its attributes end where they were written |
| DwarfTree.TreeEnd | src/Common/Dwarf.cpp:505-529 | for every well-formed tree the subtree ends where its bytes end |
| DwarfTree.KidsEnd | src/Common/Dwarf.cpp:505-529 | for every list of well-formed siblings the calls are their offsets in order, up to the first refused one |
| DwarfTree.WalkWrittenTree | src/Common/Dwarf.cpp:505-529 | the same for the method on any serialized tree, with the position it returns |
| DwarfNodes.NodeFound | src/Common/Dwarf.cpp:954-972 | a written entry is found at its offset with its abbreviation from the written table and with the attribute values that were written |
| DwarfNodes.WalkWrittenUnit | src/Common/Dwarf.cpp:490-529 | from the bytes of a written table with distinct codes and of a written tree of entries with values, the walk visits the children in order up to the first refused, with the cache filled or absent |
| DwarfLines.LineNumberVM.constructor | src/Common/Dwarf.cpp:1627-1640 | the machine starts with the initial registers |
| DwarfLines.LineNumberVM.Reset | src/Common/Dwarf.cpp:1627-1640 | the registers are the initial ones |
| DwarfLines.LineNumberVM.Next | src/Common/Dwarf.cpp:1873-1882 | runs opcodes until a row is emitted or the sequence ends |
| DwarfLines.SpecialOpcodeMeaning | src/Common/Dwarf.cpp:2053-2064 | a special opcode emits the row of advance_pc, advance_line and copy with the operands it packs |
| DwarfProgram.ConstAddPcIs255 | src/Common/Dwarf.cpp:2097-2099 | const_add_pc adds the address that special opcode 255 adds, and leaves line and file alone |
| DwarfProgram.InstrStep | src/Common/Dwarf.cpp:2048-2164 | every instruction, written by the standard's encoding, has its meaning on address, file and line, and the next one follows it |
| DwarfProgram.ProgramMeaning | src/Common/Dwarf.cpp:1873-2164 | every written line program produces exactly the rows its instructions mean, broken off if and only if instructions follow its last row |
| DwarfProgram.FindInProgram | src/Common/Dwarf.cpp:2176-2242 | the search on a written program answers what the meaning of the program calls for |
| DwarfLines.LineNumberVM.FindAddress | src/Common/Dwarf.cpp:2176-2242 | a found line is that of the first row at or below the target whose successor in the sequence is above it, in a sequence that starts at or below it; not found only when there is none; an error only for a broken program |
| DwarfLines.SearchComplete | src/Common/Dwarf.cpp:2176-2242 | with non-decreasing sequences and file numbers that are not zero the search succeeds if and only if some row covers the target |
| DwarfLines.AnswerExact | src/Common/Dwarf.cpp:2176-2242 | an answer is the first candidate row, none has file 0 before version 5, and the error is for broken programs without a candidate |
| DwarfLines.SearchMissesDescent | src/Common/Dwarf.cpp:2196-2239 | a line program with a descending sequence whose covering row the search does not find |
| Arena.Pool.constructor | src/Common/Arena.h:161-167 | an empty arena |
| Arena.Pool.NextSize | src/Common/Arena.h:111-138 | the least number of whole pages not below what is needed and the initial or grown size; above the threshold, not below the least multiple of the threshold |
| Arena.LeastIsLeast | src/Common/Arena.h:106-138 | no smaller multiple is large enough |
| Arena.Pool.AddMemoryChunk | src/Common/Arena.h:141-155 | one more chunk, the sum of sizes kept, all ranges still disjoint and in place |
| Arena.Pool.Alloc | src/Common/Arena.h:171-181 | a new range apart from all live ones, in one chunk, contents kept, a new chunk only when there is no room |
| Arena.Pool.AlignedAlloc | src/Common/Arena.h:184-206 | the same at an aligned address, after at most one new chunk |
| Arena.Pool.Rollback | src/Common/Arena.h:219-225 | the last range shrinks, the others keep their bytes |
| Arena.Pool.AllocContinue | src/Common/Arena.h:239-297 | the last range grows, in place or moved, with its bytes and its alignment; the others keep theirs; a moved range is counted as used again |
| Arena.Pool.Insert | src/Common/Arena.h:323-328 | a new range with the given bytes; the others keep theirs |
| PodArray.RoundUpToPowerOfTwoOrZero | src/Common/BitHelpers.h:14-30 | zero for zero, the argument itself with its top bit set, else the least power of two that is not smaller |
| PodArray.Pod.constructor | src/Common/PODArray.h:93-104 | nothing allocated: the element before the first is a static zero |
| PodArray.Pod.FromRange | src/Common/PODArray.h:352-356 | an array with the elements of a range |
| PodArray.Pod.Alloc | src/Common/PODArray.h:117-128 | a new block with a zero before the first element |
| PodArray.Pod.Realloc | src/Common/PODArray.h:140-159 | elements and the zero before them are kept; every count whose memory fits has capacity |
| PodArray.Pod.Reserve | src/Common/PODArray.h:223-227 | the capacity suffices afterwards, contents kept |
| PodArray.Pod.ReserveForNextSize | src/Common/PODArray.h:172-185 | there is room for one more afterwards, also from the empty array; memory doubles, or starts with the initial size rounded up or what one element needs |
| PodArray.Pod.Resize | src/Common/PODArray.h:236-253 | the new size, with the common elements kept |
| PodArray.Pod.PushBack | src/Common/PODArray.h:431-439 | appends, whether or not the array moves |
| PodArray.Pod.Insert | src/Common/PODArray.h:459-475 | appends a range |
| PodArray.Pod.InsertAt | src/Common/PODArray.h:512-531 | puts a range before a position: the overlapping move of the tail loses nothing |
| PodArray.Pod.InsertByOffsets | src/Common/PODArray.h:479-497 | appends part of another array, which may be this one |
| PodArray.Pod.Get | src/Common/PODArray.h:383-394 | the element, and zero at index -1 |
| CompactStrings.Located | src/Common/CompactStrings.cpp:25-33 | the i-th string lies between the end before it and its own |
| CompactStrings.Strings.constructor | src/Common/CompactStrings.h:45 | no strings |
| CompactStrings.Strings.Copy | src/Common/CompactStrings.cpp:11-14 | a copy holds the same strings in its own memory |
| CompactStrings.Strings.PushBack | src/Common/CompactStrings.h:52-61 | one more string, the others kept |
| CompactStrings.Strings.PushAll | src/Common/CompactStrings.h:63-67 | all strings of a range in order |
| CompactStrings.Strings.Get | src/Common/CompactStrings.cpp:25-33 | the i-th string pushed, the first included |
| CompactStrings.Strings.IterateAll | src/Common/CompactStrings.h:39-42 | the iterator visits the pushed strings in order |
| Itoa.MagicExact | base/common/itoa.h:90-129 | the multiply-and-shift quotient is exact for every 8, 16, 32 and 64-bit value, and the product fits |
| Itoa.SplitText | base/common/itoa.h:120-129 | the text of a number is that of its quotient followed by the padded remainder |
| Itoa.Tail | base/common/itoa.h:203-218 | writes all 2N digits with leading zeros, and nothing else |
| Itoa.Head | base/common/itoa.h:171-197 | writes the canonical text |
| Itoa.Large | base/common/itoa.h:225-233 | writes quotient and remainder of a value of 10^2N or more |
| Itoa.Uitoa | base/common/itoa.h:240-250 | writes the canonical text of every unsigned value |
| Itoa.UitoaByte | base/common/itoa.h:252-266 | the same for one byte |
| Itoa.ItoaSigned | base/common/itoa.h:279-313 | writes the canonical text of every signed value, the most negative included |
| Itoa.Digits10Exact | base/common/itoa.h:316-347 | the comparison tree counts the digits, for numbers of any size |
| Itoa.WriteUIntText | base/common/itoa.h:349-365 | the backward loop writes the same canonical text, in exactly that many characters |
| Itoa.WriteSIntText | base/common/itoa.h:373-389 | the same for signed 128-bit values |
| Itoa.MinText | base/common/itoa.h:375-381 | the literal for the most negative value is its canonical text |

## Left out

- Divide: does not model signed division of a value in the upper quarter of the type by one, because the second loop does not end there; `EndlessPasses` proves it.
- OperatorSlash: excludes the same operands as `Divide`.
- OperatorPercent: excludes the same operands as `Divide`.
- ReadUleb: encodings of more than ten bytes shift by 64 or more, which C++ leaves undefined, and the source's 8-bit shift counter wraps after 36 of them; in the model such bytes add nothing.
- ReadSleb: the same for signed encodings.
- ShiftRight: of `Uint128Shift`, stops at shifts of 160, where the source leaves its array; the wide one covers every shift below the width.
- BoundedRand: requires a stream with an acceptable draw, because the source loops for ever on any other; that such a stream comes with probability one is not modelled.
- Insert: the array methods require that twice the needed memory is below 2^64 bytes; doubling of the allocation is on unbounded integers.
- AllocContinue: chunk addresses come from the caller as fresh memory; sizes are unbounded integers.
- Next: of the line machine's registers only address, file and line are kept.
- Floating point conversions of wide integers and `shift10`.
- The PCG `extended` generator, seed sequences, stream I/O and `shuffle`; bitwise operators and `trailingzeros` of the 128-bit integers.
- The sign handling of the wide `operator_star`; wide operands of different widths beyond what `Plus`, `Minus` and the comparisons state.
- ReadAttribute: values that live in other sections stay offsets and indices, which the source goes on to look up there.
- DWARF entry codes longer than ten bytes, range lists, inlined frames, `nextDefineFile`, file names and ELF mapping.
- The queue's `peek`, `size` and the constant result of `emplace`; exceptions while an item is moved; fairness and time.
- Arena `realloc`, `alignedRealloc`, `alignedInsert` and memory poisoning; the internals of `Allocator`.
- PODArray `assign`, `swap` and stack memory; `CompactStrings::toStrings`, moves and `reserve`.
- Daemon, server, metrics, loggers, event polling, vector intrinsics, dates and generated tables: operating system and configuration code, or easy members.
