# A verified model of the workplace sources

This project models, in Dafny, the sequential logic of a collection of small
programs: integer time arithmetic, geometry values, three puzzle solvers, two
file renamers, a few text utilities, and the DOM editing engine written in
JavaScript. Every piece is modelled in the form its source takes. Pure
operators become functions. Loops become methods proved against a
specification function. Objects whose fields change become classes.

## What is modelled

- **Time** (`time.dfy`, module `Time`): `TimeDelta` and `TimeTicks` of
  base/time/time.h are signed 64-bit microsecond counts. Their operators,
  their unit conversions and their order are modelled. Every result is
  required to fit in 64 bits, because C++ leaves signed overflow undefined.
- **Geometry** (`gfx.dfy`, module `Gfx`): the `SizeF`, `PointF` and `RectF`
  values of gfx/gfx.h, with reals for coordinates. The compound assignments
  are methods of classes holding the same fields. The `SwapChain` readiness
  latch is a class too; the result of the OS wait is a parameter.
- **Ten puzzle** (`ten_puzzle.dfy`, `ten_perm.dfy`, `ten_card.dfy`; modules
  `TenPuzzle`, `TenPermutation`, `TenCard`): ten.cs and ten-card.cs.
  - rationals with a NaN value and the GCD loop;
  - expression trees and their printing with the fewest parentheses;
  - the tuple enumerator and the next-lexicographic-permutation enumerator;
  - the odometer of ten-card.cs and its duplicate filter;
  - the search for an expression worth 10, and the order-free hand key.
  C#'s truncating `/` and `%` are written out in `truncation.dfy`.
- **Mastermind** (`master_mind.dfy`, module `MasterMind`): master_mind.cs.
  Code words are encoded in base 6. Responses are black and white counts.
  Knuth's code breaker narrows its sets of guesses and possible answers.
- **Renamers** (`rz.dfy`, `rz_src.dfy`; modules `Renames`, `RenamesSrc`):
  the natural-order tokeniser and name comparison of rz.cs and of the older
  src/rz.cs, and which archive entries each deletes.
- **Text utilities**:
  - the subset printer of string_combination.cpp, as the list of lines it
    prints (`StringCombination`);
  - the line merge of update_test_expectations.py (`TestExpectations`);
  - the label and dedup logic of profiling/calltree2dot.py (`CallTree`);
  - the `startsWith` and string `Set` polyfills of src/editing/polyfill.js
    (`Polyfill`).
- **Editing engine** (src/editing/):
  - **Node links.** Editing nodes are named by their hash codes. Their five
    links (parent, first and last child, previous and next sibling) form a
    map. Ghost child lists and ranks state when the links describe a forest
    (`NodeForest`, `NodeMoves`).
  - **Walks.** The read-only walks of nodes.js, editing_library.js and the
    copies in editing_node.js and editing_selection.js (`NodeWalks`).
  - **Nodes and context.** `EditingTree.NodeTree` is the class holding the
    nodes of one `EditingContexts.EditingContext`. The context is the class
    holding the instruction log, the hash-code counter and the write-once
    ending selection.
  - **Selections.** The selection values and positions (`Selections`). The
    selection walks and the text split at a selection end
    (`SelectionNodes`).
  - **Operations.** The browser DOM that the undoable operations drive
    (`Dom`), and the operations themselves (`Operations`).
  - **Tracking and commands.** The position tracker (`SelectionTracking`),
    the Unlink command (`UnlinkCommands`) and the editor's command loop
    with its undo stack (`Editors`).

Where a contract and a comment in the source disagree, the model follows
the code. One such place is string_combination.cpp:4: it lists "abc" as the
last line for "abc", but the code prints "acb", because the suffix collects
characters from the end (`StringCombination.LinesOfAbc`).

Three calls in the editing engine pass arguments the callee does not
expect. The model keeps them as written:
- `EditingNode.replaceChild` logs `context.replaceChild(newChild, oldChild)`,
  where the context expects a parent, a new child and an old child.
- `cloneNode` logs `false` where the context expects a node.
- `Editor.createContext` passes the editor and the command name where
  `EditingContext` expects a document and a DOM selection. Its contexts
  therefore start with an empty selection and no starting selection.

## Model

| member | source | states |
|---|---|---|
| Time.NewTimeDelta | base/time/time.h:20 | the default TimeDelta reads 0 microseconds and 0 milliseconds |
| Time.AddDelta | base/time/time.h:65-67 | when the sum fits in int64, subtracting either operand from it gives back the other |
| Time.FromMilliseconds | base/time/time.h:92-94 | reads back as ms milliseconds and 1000·ms microseconds |
| Time.FromMicroseconds | base/time/time.h:96-98 | reads back as us microseconds, and us/1000 (truncated toward zero) milliseconds |
| Time.InMicrosecondsAsWritten | base/time/time.h:108-110 | as written: 1000 times the stored microsecond count |
| Time.InMicrosecondsAsWrittenBreaksRoundTrip | base/time/time.h:96-110 | one microsecond reads back as 1000 through the written InMicroseconds |
| Time.MicrosecondsRoundTrip | base/time/time.h:92-98 | the corrected InMicroseconds inverts FromMicroseconds and gives 1000·ms for FromMilliseconds(ms) |
| Time.MillisecondsRoundTrip | base/time/time.h:92-102 | FromMilliseconds(ms).InMilliseconds() == ms whenever the conversion fits in int64 |
| Time.DeltaAddSub | base/time/time.h:65-71 | (a + b) - b == a for every representable sum |
| Time.DeltaComparisonsAreTotalOrder | base/time/time.h:41-63 | the six TimeDelta comparisons are one total order, that of the microsecond counts |
| Time.DefaultTimeDeltaIsZero | base/time/time.h:20-71 | the default TimeDelta is the identity of + and - |
| Time.NewTimeTicks | base/time/time.h:143-144 | the default TimeTicks is tick 0 |
| Time.TicksPlus | base/time/time.h:170-181 | (t + d) - t == d, (t + d) - d == t, and t < t + d exactly when d is positive |
| Time.TicksAddDiff | base/time/time.h:170-181 | (t + d) - t == d |
| Time.TicksAddSub | base/time/time.h:170-177 | (t + d) - d == t |
| Time.TicksComparisonsAreTotalOrder | base/time/time.h:146-168 | the six TimeTicks comparisons are one total order, equality being value equality |
| Time.DefaultTimeTicksIsZero | base/time/time.h:143-172 | tick 0 plus t's count of microseconds is t; tick 0 is below exactly the non-negative ticks |
| Gfx.DefaultSize | gfx/gfx.h:58-59 | the default size is 0 × 0 |
| Gfx.SizeAdd | gfx/gfx.h:61-63 | subtracting b from a + b gives a back |
| Gfx.SizeAddValue | gfx/gfx.h:65-67 | adding v adds SizeF(v, v); subtracting v afterwards gives the size back |
| Gfx.SizeSubValue | gfx/gfx.h:73-75 | subtracting v subtracts SizeF(v, v) |
| Gfx.SizeEq | gfx/gfx.h:106-108 | == holds exactly for equal sizes |
| Gfx.SizeNe | gfx/gfx.h:110-112 | != holds exactly for different sizes |
| Gfx.SizeAddSubInverse | gfx/gfx.h:58-75 | + and - on sizes are inverse, with the default size as identity |
| Gfx.DefaultPoint | gfx/gfx.h:160-161 | the default point is (0, 0) |
| Gfx.PointAdd | gfx/gfx.h:163-165 | subtracting the size from p + s gives p back |
| Gfx.PointEq | gfx/gfx.h:200-202 | == holds exactly for equal points |
| Gfx.PointNe | gfx/gfx.h:204-206 | != holds exactly for different points |
| Gfx.PointAddSubInverse | gfx/gfx.h:163-169 | moving a point by s and back by s, in either order, gives it back |
| Gfx.DefaultRect | gfx/gfx.h:288-289 | the default rectangle has origin (0, 0) and size 0 × 0 |
| Gfx.RectFromPoints | gfx/gfx.h:280-282 | the rectangle has the given origin and bottom-right corner |
| Gfx.RectFromOriginSize | gfx/gfx.h:284-286 | the rectangle has the given origin and size |
| Gfx.RectAddAsWritten | gfx/gfx.h:291-294 | as written: the width grows by twice the size's width but the height is unchanged, the bottom edge moving up |
| Gfx.RectAddAsWrittenCounterexample | gfx/gfx.h:291-299 | growing the unit square by (1, 1) keeps height 1, and shrinking it back does not give the square |
| Gfx.RectAdd | gfx/gfx.h:291-307 | corrected +: both dimensions grow by twice the size, and - undoes it |
| Gfx.RectSub | gfx/gfx.h:296-299 | both dimensions shrink by twice the size; the origin moves by +size, the bottom-right corner by -size |
| Gfx.RectAddValue | gfx/gfx.h:232-234 | adding v and then subtracting v gives the rectangle back |
| Gfx.RectSubValue | gfx/gfx.h:236-238 | subtracting v shrinks both dimensions by 2v |
| Gfx.RectEq | gfx/gfx.h:325-329 | == holds exactly for equal rectangles |
| Gfx.RectNe | gfx/gfx.h:331-333 | != holds exactly for different rectangles |
| Gfx.Offset | gfx/gfx.h:353-355 | same size, origin moved by the size, and p is inside the result exactly when p - size is inside the original |
| Gfx.ContainsHalfOpen | gfx/gfx.h:348-351 | left and top edges are inside (the origin exactly when not empty); the right and bottom edges never are |
| Gfx.EmptyIffNoPoint | gfx/gfx.h:348-351 | empty() holds exactly when Contains is false for every point |
| Gfx.SizeF.constructor | gfx/gfx.h:53-56 | the size holds the given width and height |
| Gfx.SizeF.AssignValue | gfx/gfx.h:77-80 | both dimensions become the value |
| Gfx.SizeF.AddAssign | gfx/gfx.h:82-86 | the new size is old + other |
| Gfx.SizeF.AddAssignValue | gfx/gfx.h:88-92 | the new size is old + value |
| Gfx.SizeF.SubAssign | gfx/gfx.h:94-98 | as written: the new size is old + other |
| Gfx.SizeF.SubAssignCorrected | gfx/gfx.h:69-98 | corrected: the new size is old - other, as operator- computes |
| Gfx.SizeSubAssignAsWrittenCounterexample | gfx/gfx.h:69-98 | for every non-zero operand the written -= and operator- disagree; (1, 1) -= (1, 1) gives width 2, not 0 |
| Gfx.SizeAddThenSubAssign | gfx/gfx.h:82-98 | with the corrected -=, s += o; s -= o restores s |
| Gfx.SizeF.SubAssignValue | gfx/gfx.h:100-104 | the new size is old - value |
| Gfx.PointF.constructor | gfx/gfx.h:155-158 | the point holds the given coordinates |
| Gfx.PointF.AssignValue | gfx/gfx.h:171-174 | both coordinates become the value |
| Gfx.PointF.AddAssign | gfx/gfx.h:176-180 | the new point is old + size |
| Gfx.PointF.AddAssignValue | gfx/gfx.h:182-186 | the new point is old + SizeF(v, v) |
| Gfx.PointF.SubAssign | gfx/gfx.h:188-192 | the new point is old - size |
| Gfx.PointF.SubAssignValue | gfx/gfx.h:194-198 | the new point is old - SizeF(v, v) |
| Gfx.RectF.constructor | gfx/gfx.h:273-278 | the rectangle holds the four given edges |
| Gfx.RectF.AddAssign | gfx/gfx.h:301-307 | the new rectangle is the old one grown by the size on every side |
| Gfx.RectF.AddAssignValue | gfx/gfx.h:309-311 | the new rectangle is the old one grown by v on every side |
| Gfx.RectF.SubAssign | gfx/gfx.h:313-319 | the new rectangle is the old one shrunk by the size on every side |
| Gfx.RectF.SubAssignValue | gfx/gfx.h:321-323 | the new rectangle is the old one shrunk by v on every side |
| Gfx.RectF.SetOrigin | gfx/gfx.h:335-341 | the origin becomes the given point and the size is kept |
| Gfx.RectF.SetSize | gfx/gfx.h:343-346 | left and top are kept and the size becomes the given one |
| Gfx.SwapChain.constructor | gfx/gfx.h:482 | the latch starts clear |
| Gfx.SwapChain.IsReady | gfx/gfx.h:539-553 | once latched it answers true without waiting; otherwise it answers, and latches, exactly when the wait is signalled |
| Gfx.SwapChain.Present | gfx/gfx.h:555-560 | the latch is clear afterwards |
| TenPuzzle.Gcd | ten.cs:503-510 | the loop computes the Euclidean GCD (with truncating `%`), which divides both operands and is zero only when both are |
| TenPuzzle.GcdDividesBoth | ten.cs:503-510 | the GCD divides both operands |
| TenPuzzle.CommonDivisorDividesGcd | ten.cs:503-510 | every common divisor of the operands divides the GCD |
| TenPuzzle.GcdZero | ten.cs:503-510 | the GCD is zero exactly when both operands are |
| TenPuzzle.NaN | ten.cs:382 | `Ratio.NaN` is NaN |
| TenPuzzle.FromInt | ten.cs:384-387 | `new Ratio(n)` is a number with value n |
| TenPuzzle.MakeRatio | ten.cs:389-393 | the result is NaN exactly when den is 0, and otherwise has the value num/den |
| TenPuzzle.MakeRatioValue | ten.cs:389-393 | dividing by the GCD keeps a non-zero denominator and the value num/den |
| TenPuzzle.MakeRatioLowestTerms | ten.cs:389-393 | with a non-zero denominator the result is in lowest terms: only 1 and -1 divide both parts |
| TenPuzzle.RatioAdd | ten.cs:395-407 | NaN if either operand is, otherwise the value a + b |
| TenPuzzle.RatioSub | ten.cs:409-421 | NaN if either operand is, otherwise the value a - b |
| TenPuzzle.RatioMulInt | ten.cs:423-425 | NaN exactly when a is, otherwise the value a * n |
| TenPuzzle.RatioMul | ten.cs:427-437 | NaN if either operand is, otherwise the value a * b |
| TenPuzzle.RatioDiv | ten.cs:439-449 | NaN if either operand is or the divisor is zero, otherwise the value a / b |
| TenPuzzle.RatioToInt | ten.cs:491-493 | NaN converts to 0, and an integral ratio to its numerator |
| TenPuzzle.RatioEqualityWithNaN | ten.cs:451-473 | NaN is neither == nor != to anything; between numbers != is the negation of == and == is equality |
| TenPuzzle.RatioEqIntMeaning | ten.cs:475-489 | r == n holds exactly when r is the number n; != is its negation except on NaN, where both are false |
| TenPuzzle.NaNPropagates | ten.cs:382-449 | every arithmetic operator gives NaN when either operand is NaN, and a zero denominator gives NaN |
| TenPuzzle.AddIsExact | ten.cs:395-407 | the sum of two numbers stands for the sum of their rational values |
| TenPuzzle.SubIsExact | ten.cs:409-421 | the difference of two numbers stands for the difference of their rational values |
| TenPuzzle.MulIsExact | ten.cs:427-437 | the product of two numbers stands for the product of their rational values |
| TenPuzzle.DivIsExact | ten.cs:439-449 | the quotient is NaN exactly when the divisor is zero, and otherwise stands for the quotient of the rational values |
| TenPuzzle.EvalIsExact | ten.cs:192-239 | each operator's `Eval` on two numbers gives NaN only for a division by zero, and otherwise the rational sum, difference, product or quotient |
| TenPuzzle.ValueIsExact | ten.cs:102-141 | the `Value` of an expression is NaN exactly when a division by zero occurs in it, and otherwise stands for its exact rational value |
| TenPuzzle.IsNeedParenRule | ten.cs:52-62 | no outer operator: no brackets; same precedence: brackets only around a division; otherwise brackets exactly when the outer operator binds tighter |
| TenPuzzle.NatToString | ten.cs:127-136 | the decimal form of a natural number is non-empty and all digits |
| TenPuzzle.IntToString | ten.cs:127-136 | the decimal form of an integer is digits and minus signs only |
| TenPuzzle.IntToStringRoundTrip | ten.cs:127-136 | reading the decimal form of an integer back gives the integer |
| TenPuzzle.RatioToStringRoundTrip | ten.cs:522-533 | a printed ratio reads back: NaN as NaN, and any other ratio as exactly itself, so different numbers never print alike |
| TenPuzzle.UnparseOnlyAddsParens | ten.cs:71-100 | deleting every bracket from the printed expression gives its operands and operators in tree order |
| TenPuzzle.DigitsOf | ten.cs:276-290 | the len base-n digits of k, each below n |
| TenPuzzle.DigitsRoundTrip | ten.cs:276-290 | reading the digits of k back gives k for every k below n^len |
| TenPuzzle.FromDigitsRoundTrip | ten.cs:276-290 | every digit sequence is the digits of its value, and that value is below n^len |
| TenPuzzle.Pick | ten.cs:284-287 | the tuple whose i-th element is setv at the i-th digit |
| TenPuzzle.PermutationSet.constructor | ten.cs:247-258 | current is -1, the tuple has the given length and max + 1 is |setv|^length |
| TenPuzzle.PermutationSet.MoveNext | ten.cs:276-290 | returns false once current reached max and changes nothing; otherwise advances current by one and fills the tuple with the digits of the new current |
| TenPuzzle.PermutationSet.FillTuple | ten.cs:283-287 | the digit loop fills the tuple with setv at the base-|setv| digits of k |
| TenPuzzle.PermutationSet.Reset | ten.cs:293-295 | current is -1 again and max is kept |
| TenPuzzle.EnumerateTuples | ten.cs:247-290 | a full enumeration yields exactly |setv|^length tuples, the k-th picked by the digits of k |
| TenPermutation.Reversed | ten.cs:368 | `Array.Reverse`: the sequence read back to front, with the same elements |
| TenPermutation.ReversedIsPermutation | ten.cs:368 | reversing keeps the multiset of elements |
| TenPermutation.PivotFrom | ten.cs:342-366 | the rightmost ascent at or left of j, or -1, with no ascent to its right |
| TenPermutation.Pivot | ten.cs:342-366 | the rightmost ascent of the whole arrangement, or -1 |
| TenPermutation.RightmostGreater | ten.cs:349-354 | the rightmost later element greater than the pivot's, with nothing greater to its right |
| TenPermutation.Swap | ten.cs:356-360 | the two positions are exchanged and nothing else changes |
| TenPermutation.ReverseSegment | ten.cs:363 | the segment is reversed and everything outside it is kept |
| TenPermutation.SwapIsPermutation | ten.cs:356-360 | a swap keeps the multiset of elements |
| TenPermutation.ReverseSegmentIsPermutation | ten.cs:363 | reversing a segment keeps the multiset of elements |
| TenPermutation.NextPermUnfold | ten.cs:324-371 | with a pivot, the step is swap-with-rightmost-greater then reverse the suffix |
| TenPermutation.NextPermWrap | ten.cs:366-370 | without a pivot, the step reverses the whole arrangement |
| TenPermutation.NextPermIsPermutation | ten.cs:324-371 | every step is a rearrangement of the same elements |
| TenPermutation.NextPermIsGreater | ten.cs:342-364 | with a pivot the result is lexicographically greater: equal before the pivot, larger at it |
| TenPermutation.SuffixNonIncreasing | ten.cs:342-366 | right of the pivot the arrangement is non-increasing |
| TenPermutation.NextPermIsSmallestSuccessor | ten.cs:342-364 | the result is the immediate successor: the smallest larger element at the pivot and an ascending suffix |
| TenPermutation.NoNextIffLast | ten.cs:342-370 | there is no successor exactly when the arrangement is non-increasing, and then the step wraps to the ascending one |
| TenPermutation.ShortHasNoNext | ten.cs:333-339 | fewer than two elements: no successor and nothing changes |
| TenPermutation.ReverseRange | ten.cs:363-368 | the in-place loop reverses a[lo..hi) and keeps the rest |
| TenPermutation.FindSwap | ten.cs:342-354 | the two scans find the pivot exactly when there is one, and the rightmost greater element after it |
| TenPermutation.Perm.constructor | ten.cs:302-306 | the arrangement is a fresh copy of the initial one and the first-call flag is set |
| TenPermutation.Perm.MoveNext | ten.cs:324-371 | the first call reports the initial arrangement unchanged; each later call steps to the next lexicographic permutation and reports whether one existed, wrapping to ascending order after the last |
| TenCard.Zeros | ten-card.cs:253-257 | len zero indexes |
| TenCard.Increment | ten-card.cs:287-299 | one odometer step keeps the number of digits |
| TenCard.IncrementCounts | ten-card.cs:287-299 | read as a base-n number, a step adds one, and wraps to all zeros exactly after the largest number |
| TenCard.ZerosAreDigitsOfZero | ten-card.cs:253-257 | the starting indexes are the digits of 0 |
| TenCard.IncrementIsSuccessor | ten-card.cs:287-299 | from the digits of k the odometer steps to the digits of k + 1, and after the last number reports the end and returns to the digits of 0 |
| TenCard.Select | ten-card.cs:260-269 | `compute`: element i is alphabetv at index i |
| TenCard.Perm.constructor | ten-card.cs:253-258 | indexes all zero and current the elements they select |
| TenCard.Perm.Compute | ten-card.cs:260-269 | the elements the current indexes select |
| TenCard.Perm.MoveNext | ten-card.cs:287-299 | the indexes take one odometer step; on success current is recomputed, after a full wrap it reports false and current is kept |
| TenCard.OdometerStep | ten-card.cs:287-299 | a step moves from position k to k + 1, or wraps to 0 after n^len - 1 |
| TenCard.NextDistinct | ten-card.cs:234-244 | stepping until the indexes are distinct or the odometer wraps keeps valid indexes |
| TenCard.NextDistinctSkipsOnlyRepeats | ten-card.cs:218-244 | the next position with pairwise distinct indexes, passing only positions with a repeated index; at the end it returns to position 0 |
| TenCard.Combi.constructor | ten-card.cs:213-216 | builds the odometer over the alphabet and advances it once, so for a non-empty alphabet the indexes are the first arrangement with no repeated index (`NextDistinct` from all zeros) |
| TenCard.Combi.NoDuplicate | ten-card.cs:218-232 | true exactly when the indexes are pairwise distinct |
| TenCard.Combi.MoveNext | ten-card.cs:234-244 | the odometer moves to the next position with distinct indexes, or reports the end |
| TenCard.OpsAt | ten-card.cs:476-486 | the operator triple at an odometer position |
| TenCard.FirstFrom | ten-card.cs:486-499 | the first position from k on where the test holds, and none before it |
| TenCard.CheckIt | ten-card.cs:483-501 | as written: the first triple, from position 1 on, whose expression is worth 10, or none |
| TenCard.CheckItCorrected | ten-card.cs:483-501 | corrected: the first triple from position 0 on whose expression is worth 10, or none |
| TenCard.CheckItSkipsAllAddition | ten-card.cs:483-501 | the as-written search never returns the all-addition expression |
| TenCard.CorrectedFindsAllAddition | ten-card.cs:483-501 | for the hand 1, 1, 1, 7 the corrected search returns (1 + (1 + 1)) + 7 |
| TenCard.GcdOfUnit | ten-card.cs:312-321 | gcd(m, 1) is 1, so Ratio(m, 1) is m over 1 |
| TenCard.StrLeTotal | ten-card.cs:511 | the string order used for sorting is total |
| TenCard.StrLeAntisymmetric | ten-card.cs:511 | the string order is antisymmetric |
| TenCard.StrLeTransitive | ten-card.cs:511 | the string order is transitive |
| TenCard.Insert | ten-card.cs:511 | inserting into a sorted sequence keeps it sorted and adds exactly the element |
| TenCard.SortStrings | ten-card.cs:511 | `Array.Sort`: sorted and a permutation of the input |
| TenCard.ComputeKey | ten-card.cs:503-517 | the four digit texts in sorted order joined by single spaces |
| TenCard.SortedUnique | ten-card.cs:511 | two sorted sequences with the same elements are equal |
| TenCard.ComputeKeyOrderIndependent | ten-card.cs:503-517 | the key does not depend on the order of the four digits |
| MasterMind.Power | master_mind.cs:343-348 | the loop computes n^k, and 1 for k <= 0 |
| MasterMind.PowerOfCodes | master_mind.cs:8-9 | there are 6^4 = 1296 code words |
| MasterMind.CodeValueBounds | master_mind.cs:43-51 | a code over 'a'..'f' stands for a number below 6^len |
| MasterMind.CodeValueInjective | master_mind.cs:28-51 | two codes with the same number are the same code, so the code table's keys never collide |
| MasterMind.ComputeStr | master_mind.cs:43-51 | four letters a-f, most significant base-6 digit first; every index 0..1295 gives a code word whose number is that index |
| MasterMind.BlackCount | master_mind.cs:57-72 | black pins never exceed the length of either code |
| MasterMind.Score | master_mind.cs:57-94 | the response is a pair of non-negative pin counts |
| MasterMind.ScoreBounded | master_mind.cs:57-94 | black + white never exceeds the number of pins |
| MasterMind.ScoreSelf | master_mind.cs:57-72 | guessing the answer scores (4, 0) |
| MasterMind.AllBlackIsEqual | master_mind.cs:57-72 | only the answer itself scores four black pins |
| MasterMind.ScoreSymmetric | master_mind.cs:57-94 | the score does not depend on which side is the answer |
| MasterMind.ScoreSumIsSharedColors | master_mind.cs:57-94 | black + white is the number of colours the codes share, counted with multiplicity |
| MasterMind.FindFree | master_mind.cs:78-88 | the inner loop finds the first free position of colour c, or none |
| MasterMind.WhitePass | master_mind.cs:74-92 | the second pass counts as white pins exactly the colours the non-black positions share; the "BAD" exception is unreachable |
| MasterMind.Test | master_mind.cs:57-94 | `CodeWord.Test` returns exactly the score of the two codes |
| MasterMind.Filter | master_mind.cs:245-253 | the filtered set is a subset |
| MasterMind.FilterTake | master_mind.cs:245-253 | taking x out of the set takes it out of the filtered set exactly when it passes the test |
| MasterMind.MaxOf | master_mind.cs:125-133 | the largest value over the set (0 on the empty set), attained by some member |
| MasterMind.WorstCase | master_mind.cs:123-134 | the largest partition any answer leaves is no larger than the set |
| MasterMind.WorstCaseIsLargest | master_mind.cs:123-134 | no answer leaves more candidates than the worst case, and some answer leaves exactly that many |
| MasterMind.Removes | master_mind.cs:123-134 | the number of candidates a guess is sure to eliminate lies between 0 and the set's size |
| MasterMind.GuessStep | master_mind.cs:148-166 | one candidate of the loop: a tie that is possible replaces the guess, a better score replaces guess and score, a worse one changes nothing |
| MasterMind.GuessDone | master_mind.cs:148-172 | once every guess is scored, the loop's choice is a best guess |
| MasterMind.GuessesAfter | master_mind.cs:234-290 | the remaining guesses are a subset without the guess itself |
| MasterMind.PartitionExcludesGuess | master_mind.cs:247-278 | a response below four black pins leaves the guess out of its partition, which is a subset and, if not the whole set, strictly smaller |
| MasterMind.OutcomeShrinks | master_mind.cs:230-280 | Continue keeps exactly the non-empty partition of the response, strictly smaller than before and without the guess; Fail exactly when that partition is empty or as large as before |
| MasterMind.KnuthCodeBreaker.constructor | master_mind.cs:103-110 | both sets start as all 6^4 code words |
| MasterMind.KnuthCodeBreaker.CountPossibles | master_mind.cs:112-121 | the size of the partition the response leaves |
| MasterMind.KnuthCodeBreaker.CountRemoves | master_mind.cs:123-134 | the number of candidates the guess is sure to eliminate, or 0 when that is below maxScore |
| MasterMind.KnuthCodeBreaker.Possibles | master_mind.cs:127-128 | how many candidates the answer c leaves |
| MasterMind.KnuthCodeBreaker.Guess | master_mind.cs:136-181 | with at most two possibilities one of them (none for "Can't happen!" on the empty set); otherwise a best guess |
| MasterMind.KnuthCodeBreaker.UpdateGuess | master_mind.cs:283-290 | keeps exactly the guesses whose score against the guess has n pins in all |
| MasterMind.KnuthCodeBreaker.Update | master_mind.cs:230-280 | four black pins give Got and change nothing; otherwise the guesses and possibilities change as the outcome says |
| MasterMind.KnuthCodeBreaker.PruneGuesses | master_mind.cs:234-244 | the guess is dropped, and for 0 or 4 pins in all the guesses are narrowed |
| MasterMind.KnuthCodeBreaker.Narrow | master_mind.cs:246-253 | the possibilities that give the response to the guess |
| Renames.Wrap32 | rz.cs:48-81 | the Int32 a value wraps to; an Int32 is kept |
| Renames.TrimStart | rz.cs:84-85 | a suffix of the name that does not start with white space, and what it drops is white space |
| Renames.TrimEnd | rz.cs:84-85 | a prefix of the name that does not end with white space, and what it drops is white space |
| Renames.Trim | rz.cs:84-85 | `String.Trim()`: neither end is white space; a name without white space is its own trim |
| Renames.LastIndexOf | rz.cs:17 | the index of the last occurrence, or -1 when there is none |
| Renames.Extension | rz.cs:17 | `FileInfo.Extension`: empty, or the name's suffix from its last '.', at least two characters long |
| Renames.ShouldRemoveKeepsImages | rz.cs:16-30 | a file is kept exactly when its extension is one of the listed image extensions and it is not "excnn.com.jpg" |
| Renames.SpamName1Removed | rz.cs:18-20 | "excnn.com.jpg" is removed by the ".jpg" case |
| Renames.SpamName2Removed | rz.cs:18-29 | "z999_upload_by_shobon-next.com" has the extension ".com" and is removed by the default case, not by the ".jpg" one |
| Renames.RunEnd | rz.cs:53-61 | the end of the digit run starting at i: every character before it is a digit and the one at it is not |
| Renames.AccumulateIsDecimal | rz.cs:57-58 | the accumulator is the run's decimal value wrapped to Int32 |
| Renames.ChunkEnd | rz.cs:48-81 | a chunk is never empty and stays in the name |
| Renames.TokensWithoutDigits | rz.cs:73-74 | characters outside a digit run pass through as their code |
| Renames.TokensAreInt32 | rz.cs:48-81 | every token is an Int32 |
| Renames.TrailingRun | rz.cs:78-79 | a digit run that reaches the end of the name is flushed as the last token |
| Renames.ScanRunDigit | rz.cs:55-59 | a digit inside a run multiplies the accumulator by 10 and adds the digit, in Int32 |
| Renames.ScanRunEnd | rz.cs:60-63 | a non-digit after a run emits the run's number token |
| Renames.ScanRunStart | rz.cs:66-71 | a digit outside a run emits the '0' marker and starts the accumulator at its value |
| Renames.ScanOther | rz.cs:73-74 | a non-digit outside a run passes through |
| Renames.ScanDone | rz.cs:78-80 | at the end of the name the results are the tokens |
| Renames.Normalize | rz.cs:48-81 | the loop produces the tokens: each maximal digit run becomes '0' then its value + 0x10000, each other character its code |
| Renames.CompareZeroIffPrefix | rz.cs:86-93 | the comparison is 0 exactly when the first token list is a prefix of the second |
| Renames.CompareLongerIsOne | rz.cs:87-88 | when the second list is a proper prefix of the first the result is 1 |
| Renames.CompareFirstDifference | rz.cs:89-91 | at the first differing token the result is their Int32 difference, whose sign orders them when they are less than 2^31 apart |
| Renames.CompareNamesReflexive | rz.cs:83-94 | every name compares equal to itself |
| Renames.CompareTokens | rz.cs:86-93 | the loop returns the token comparison |
| Renames.CompareFileNames | rz.cs:83-94 | the comparison of the trimmed names' tokens |
| Renames.CompareNamesNotAntisymmetric | rz.cs:83-94 | as written: "a" compares equal to "ab" while "ab" compares greater than "a" |
| Renames.CompareCorrected | rz.cs:83-94 | corrected: the result is -1, 0 or 1 |
| Renames.CompareCorrectedIsOrder | rz.cs:83-94 | the corrected comparison is antisymmetric and 0 only on equal tokens |
| Renames.CompareCorrectedPrefix | rz.cs:86-88 | with the corrected comparison a proper prefix comes first, in both directions |
| RenamesSrc.ShouldRemoveKeepsImages | src/rz.cs:16-28 | a file is kept exactly when its extension is listed (".tif" is not) and it is not "excnn.com.jpg" |
| RenamesSrc.SpamNameRemoved | src/rz.cs:18-19 | "excnn.com.jpg" is removed |
| RenamesSrc.ShouldRemoveVersions | rz.cs:16-30 | the two versions disagree exactly on ".tif" files, which only this one deletes |
| RenamesSrc.Normalize | src/rz.cs:36-68 | the loop produces the tokens without a marker: each digit run becomes its value + 0x10000 |
| RenamesSrc.NumberAfterCodeUnits | src/rz.cs:44-56 | without the marker a number token (for a run below 2^31 - 0x10000) sorts after every UTF-16 code unit |
| RenamesSrc.CompareNamesReflexive | src/rz.cs:70-81 | every name compares equal to itself |
| RenamesSrc.CompareFileNames | src/rz.cs:70-81 | the comparison of the untrimmed names' tokens |
| StringCombination.LinesCount | string_combination.cpp:1-46 | a string of n characters prints 2^n - 1 lines |
| StringCombination.Selections | string_combination.cpp:1-14 | the selections of n characters, in print order, number 2^n - 1 |
| StringCombination.SelectionsValid | string_combination.cpp:1-14 | every entry of the enumeration is a non-empty set of positions below n |
| StringCombination.SelectionsDistinct | string_combination.cpp:1-14 | no set of positions is enumerated twice |
| StringCombination.SelectionsComplete | string_combination.cpp:1-14 | every non-empty set of positions below n is enumerated |
| StringCombination.LineWithoutLast | string_combination.cpp:28-32 | a selection without the last position has the same line for the head as for the whole string |
| StringCombination.LineOfLast | string_combination.cpp:34 | the selection of the last position alone is the line the middle `printf` prints: the last character, then the suffix |
| StringCombination.LineWithLast | string_combination.cpp:36-42 | a selection with the last position is the line of the rest of it for the head, with the last character appended to the suffix |
| StringCombination.LineAt | string_combination.cpp:20-46 | the i-th line printed is the line of the i-th selection: its first chosen character, the suffix, then the other chosen characters from the last one back |
| StringCombination.LineOfChars | string_combination.cpp:20-46 | a selection's line with no suffix is non-empty and made of characters of the string |
| StringCombination.CombinationLines | string_combination.cpp:1-50 | every non-empty selection of positions is printed exactly once: it has one place in the enumeration, and the line there is its line, non-empty and made of characters of str |
| StringCombination.LinesOfAb | string_combination.cpp:20-46 | "ab" with a suffix prints "a" and "b" each followed by the suffix, then "a", the suffix and "b" |
| StringCombination.PrintAux | string_combination.cpp:20-46 | one line per selection of the characters of str, in the enumeration's order, 2^n - 1 in all, each the selection's line with the suffix after its first character |
| StringCombination.PrintCombination | string_combination.cpp:48-50 | 2^n - 1 lines; the i-th is the line of the i-th selection, no selection repeats, and every non-empty selection of positions has its line |
| StringCombination.LinesOfAbc | string_combination.cpp:4-46 | "abc" prints a, b, ab, c, ac, bc and then "acb", not "abc" as the comment says |
| TestExpectations.NextSpace | update_test_expectations.py:16-23 | the first space at or after from, or the end, with no space skipped |
| TestExpectations.Split2 | update_test_expectations.py:16-23 | `split(' ', 2)` gives one to three fields |
| TestExpectations.SplitJoin | update_test_expectations.py:16-23 | the fields joined by spaces give the line back |
| TestExpectations.SplitFieldsCount | update_test_expectations.py:16-24 | there are three fields exactly when the line has at least two spaces |
| TestExpectations.SplitFieldsNoSpace | update_test_expectations.py:26-47 | of three fields the first two contain no space |
| TestExpectations.SkipSpace | update_test_expectations.py:14 | the first character that is not white space, or the end |
| TestExpectations.NotCommentHasName | update_test_expectations.py:11-16 | a non-comment line has three fields, does not start with '#' and its name has no space |
| TestExpectations.UpdatesFromLines | update_test_expectations.py:19-28 | each indexed line is one of the lines read, with that name |
| TestExpectations.UpdatesLastWins | update_test_expectations.py:22-27 | the last line with a given name wins |
| TestExpectations.MakeUpdates | update_test_expectations.py:19-28 | the loop builds exactly the dictionary of the lines |
| TestExpectations.Replaced | update_test_expectations.py:44-50 | a comment line is kept |
| TestExpectations.Rewrite | update_test_expectations.py:41-50 | one output line per input line, each the line or its replacement |
| TestExpectations.RewriteIdempotent | update_test_expectations.py:41-50 | rewriting with the same updates a second time changes nothing |
| TestExpectations.RewriteKeeps | update_test_expectations.py:45-49 | comments and lines whose name is not indexed pass through |
| Polyfill.IndexFrom | src/editing/polyfill.js:25 | `indexOf`: an index where the text occurs, or -1 |
| Polyfill.IndexFromFirst | src/editing/polyfill.js:25 | the text occurs nowhere before the index found |
| Polyfill.StartsWith | src/editing/polyfill.js:23-27 | `!indexOf(text)` is true exactly when s starts with text |
| Polyfill.StartsWithSelf | src/editing/polyfill.js:23-27 | every string starts with "" and with itself |
| Polyfill.StringSet.constructor | src/editing/polyfill.js:32-39 | the members are the array's strings, or none for a non-array |
| Polyfill.StringSet.Add | src/editing/polyfill.js:41-43 | the new member is added and nothing else changes |
| Polyfill.EmptySetHasInherited | src/editing/polyfill.js:45-51 | as written: an empty set "has" "toString" and "constructor" and has size 0 |
| Polyfill.HasOwnIsMembership | src/editing/polyfill.js:32-51 | corrected: has holds exactly for the strings added, and size counts at most that many |
| CallTree.ReplaceFree | profiling/calltree2dot.py:44-51 | `str.replace` of a pattern that does not occur changes nothing |
| CallTree.ReplacePrefix | profiling/calltree2dot.py:44-51 | a leading occurrence is replaced and the scan goes on after it |
| CallTree.ReplaceFirst | profiling/calltree2dot.py:44-51 | when the first occurrence of the pattern follows a prefix, `str.replace` keeps the prefix, puts the replacement, and replaces the rest in turn, so occurrences never overlap |
| CallTree.ReplaceChar | profiling/calltree2dot.py:57 | replacing a one-character pattern replaces each occurrence of that character and keeps every other character |
| CallTree.ReplaceRemoves | profiling/calltree2dot.py:57 | after replacing a character by text without it, the character is gone |
| CallTree.ReplaceKeepsAbsent | profiling/calltree2dot.py:44-57 | replacing never introduces a character that is in neither the string nor the replacement |
| CallTree.DecodeFunctionName | profiling/calltree2dot.py:43-54 | the decoded name is the rewritten name when that has at most 100 characters, and otherwise its first 39 characters, "..." and its last 20 |
| CallTree.Shorten | profiling/calltree2dot.py:52-53 | the cut name is at most 100 characters long |
| CallTree.ShortenKeepsEnds | profiling/calltree2dot.py:52-53 | a name over 100 characters becomes its first 39, "..." and its last 20; a shorter one is kept |
| CallTree.ApplyRulesPlain | profiling/calltree2dot.py:44-51 | rewrites whose patterns do not occur leave the name alone |
| CallTree.RulesShape | profiling/calltree2dot.py:44-51 | the eight rewrites: " >", then "blink::" deleted, then six patterns of at least 25 characters |
| CallTree.DecodeDropsNamespace | profiling/calltree2dot.py:45 | the `blink::` qualifier of an otherwise plain name is removed |
| CallTree.EncodeLabel | profiling/calltree2dot.py:56-57 | the encoded label contains no '<' and no '>' |
| CallTree.EncodeLabelEscapes | profiling/calltree2dot.py:56-57 | the two replaces amount to escaping each character on its own: '<' becomes "&lt;", '>' becomes "&gt;", every other character stays |
| CallTree.EncodeLabelConcat | profiling/calltree2dot.py:56-57 | encoding two pieces and joining them is encoding the joined text |
| CallTree.EncodeLabelRoundTrip | profiling/calltree2dot.py:56-57 | reading the two entities back gives the original name, for a name without '&' |
| CallTree.EncodeLabelPlain | profiling/calltree2dot.py:56-57 | a label without angle brackets is its own encoding |
| CallTree.NamespacedIgnored | profiling/calltree2dot.py:167-179 | a frame of IGNORES other than the RefPtr one is ignored also with the `blink::` qualifier, which decoding removes |
| CallTree.DecodeKeepsShort | profiling/calltree2dot.py:43-54 | a name shorter than 25 characters without a space or a 'b' decodes to itself |
| CallTree.IgnoresIgnored | profiling/calltree2dot.py:167-179 | every frame listed in IGNORES is ignored |
| CallTree.ListedFrameKept | profiling/calltree2dot.py:17-54 | the listed frames other than the RefPtr one decode to themselves |
| CallTree.FillOf | profiling/calltree2dot.py:87-94 | white exactly for an uninteresting module; for an interesting one, red above 5 percent, yellow above 4 up to 5, blue above 1 up to 4, and the default fill at 1 or less |
| CallTree.FillMonotone | profiling/calltree2dot.py:87-94 | among interesting entries, a larger inclusive percentage never gets a cooler fill |
| CallTree.Label | profiling/calltree2dot.py:76 | the name in the label has no angle brackets |
| CallTree.EmitEntryValid | profiling/calltree2dot.py:79-97 | emitting an entry keeps every node and edge line unique, records its id and only appends |
| CallTree.EmitEdgeValid | profiling/calltree2dot.py:150-153 | emitting an edge keeps every node and edge line unique, records it and only appends |
| CallTree.Top | profiling/calltree2dot.py:134-138 | the first level from toLevel down, above fromLevel, whose entry is interesting and above the threshold, else fromLevel |
| CallTree.TopIsHighest | profiling/calltree2dot.py:134-138 | no level between the top found and toLevel passed the test |
| CallTree.StepValid | profiling/calltree2dot.py:149-154 | one step of the chain keeps nodes and edges unique and records both |
| CallTree.ChainValid | profiling/calltree2dot.py:143-154 | the chain loop keeps nodes and edges unique and only appends |
| CallTree.ProcessChainValid | profiling/calltree2dot.py:132-154 | `processChain` writes each node and each edge at most once, after the trace comment |
| CallTree.Converter.constructor | profiling/calltree2dot.py:27-41 | the root entry at level -1, no output, and id 0 counted as emitted |
| CallTree.Converter.EmitEntryLine | profiling/calltree2dot.py:79-97 | the new state is the one `emitEntry` specifies |
| CallTree.Converter.ProcessChain | profiling/calltree2dot.py:132-154 | the new state is the one `processChain` specifies, with `shouldIgnore` |
| CallTree.Converter.ProcessChainWith | profiling/calltree2dot.py:132-154 | the same for any ignore test |
| CallTree.Converter.EmitChain | profiling/calltree2dot.py:143-154 | the for loop's new state is the chain's |
| CallTree.FindTop | profiling/calltree2dot.py:134-138 | the while loop finds the top level |
| NodeForest.ChildAt | src/editing/editing_node.js:60-66 | `childNodes[k]` is defined exactly inside the list, and is the k-th child there |
| NodeForest.ChildPosition | src/editing/editing_node.js:60-66 | a node's parent lists it, and its sibling links are its neighbours in that list |
| NodeForest.RootInNoList | src/editing/editing_node.js:60-66 | a node without a parent is in no child list |
| NodeForest.ListMembers | src/editing/editing_node.js:60-66 | every member of a child list has that parent |
| NodeForest.UnderRank | src/editing/editing_node.js:355-366 | following parent links only reaches nodes of lower rank, so every chain of ancestors is finite |
| NodeForest.AttachRanked | src/editing/editing_node.js:230-281 | attaching a root under a node that is not its descendant keeps the parent chains finite |
| NodeForest.UnlinkShape | src/editing/editing_node.js:283-305 | `internalRemoveChild`: x becomes a root with no siblings, its parent's list loses exactly x, and every other parent link is kept |
| NodeForest.AppendShape | src/editing/editing_node.js:230-253 | `internalAppendChild` of a root: it is the parent's last child, and every other parent link is kept |
| NodeForest.InsertShape | src/editing/editing_node.js:255-281 | `internalInsertBefore` of a root: it is just before refChild in the list, and every other parent link is kept |
| NodeForest.ReplaceShape | src/editing/editing_node.js:307-337 | `internalReplaceChild` by a root: x takes y's place in the list, y becomes a root, and every other parent link is kept |
| NodeWalks.UnderTotal | src/editing/nodes.js:16-51 | two ancestors of one node lie one above the other |
| NodeWalks.UnderDepth | src/editing/nodes.js:20-31 | an ancestor is shallower, and at the same depth it is the node itself |
| NodeWalks.IsDescendantOf | src/editing/nodes.js:86-94 | true exactly when other is a proper ancestor of node |
| NodeWalks.SharedAboveBoth | src/editing/editing_selection.js:87-122 | the common ancestor found (the same loops as nodes.js) lies above both nodes |
| NodeWalks.SharedDeepest | src/editing/nodes.js:16-51 | every common ancestor lies above the one found, and one is found whenever any exists |
| NodeWalks.SharedOfAncestor | src/editing/nodes.js:18-31 | when one node lies above the other, it is the common ancestor |
| NodeWalks.CommonAncestor | src/editing/nodes.js:16-51 | the loops (depth counts, lifting the deeper runner, climbing in step) return the deepest common inclusive ancestor, or null |
| NodeWalks.CommonAncestorDeepest | src/editing/editing_node.js:92-128 | the common ancestor is above both nodes and below every other common ancestor |
| NodeWalks.LastWithIn | src/editing/nodes.js:174-180 | null exactly without children, otherwise the end of the chain of last children, a proper descendant |
| NodeWalks.NextAncestorOrSibling | src/editing/nodes.js:191-198 | the next sibling of the nearest proper ancestor that has one |
| NodeWalks.NextNode | src/editing/nodes.js:183-189 | the node after current in document order |
| NodeWalks.NextNodeSkippingChildren | src/editing/nodes.js:200-204 | the next node outside current's subtree; for a leaf, the same as nextNode |
| NodeWalks.PreviousNode | src/editing/nodes.js:206-215 | the node before current in document order |
| NodeWalks.PreviousNodeSkippingChildren | src/editing/nodes.js:217-225 | the previous sibling of the nearest inclusive ancestor that has one, never an ancestor of current |
| NodeWalks.NextOfDeepest | src/editing/nodes.js:174-204 | after the last descendant of m comes what follows m's subtree |
| NodeWalks.NextOfPrevious | src/editing/nodes.js:183-215 | going back one node and then forward returns to the node |
| NodeWalks.PreviousOfNext | src/editing/nodes.js:183-215 | going forward one node and then back returns to the node |
| NodeWalks.SkipNotBelow | src/editing/nodes.js:200-204 | skipping the children never lands inside the subtree |
| NodeWalks.LowerChar | src/editing/nodes.js:74 | `toLowerCase` maps 'A'..'Z' to 'a'..'z' and keeps every other character |
| NodeWalks.LowerIdempotent | src/editing/nodes.js:74 | lowering twice is lowering once |
| NodeWalks.NearestDecides | src/editing/nodes.js:70-79 | the nearest inclusive ancestor with a contenteditable attribute or an editable DOM node decides |
| NodeWalks.UnmarkedNotEditable | src/editing/nodes.js:70-79 | with no mark up the chain a node is not content-editable |
| NodeWalks.IsContentEditable | src/editing/nodes.js:70-79 | the loop returns whether the node is content-editable |
| NodeWalks.IsEditable | src/editing/nodes.js:100-106 | true exactly when the node has a parent and the parent is content-editable |
| NodeWalks.Root | src/editing/nodes.js:57-64 | the top of the parent chain has no parent |
| NodeWalks.RootAbove | src/editing/nodes.js:57-64 | the root lies above the node and is shared by all its ancestors |
| NodeWalks.InDocument | src/editing/nodes.js:57-64 | whether the root of the node's tree is content-editable |
| NodeWalks.Stripped | src/editing/nodes.js:170 | the value without blanks, and no blank is left |
| NodeWalks.StrippedEmpty | src/editing/nodes.js:170-171 | nothing is left exactly when every character is a blank |
| NodeWalks.StrippedIdempotent | src/editing/nodes.js:170 | stripping twice changes nothing |
| NodeWalks.IsWhitespaceNode | src/editing/nodes.js:166-172 | true exactly for a text node whose value is all blanks |
| NodeMoves.UnlinkClosed | src/editing/editing_node.js:283-305 | `internalRemoveChild` keeps every link inside the tree |
| NodeMoves.Detached | src/editing/editing_node.js:239-240 | detaching a new child first leaves it without a parent and every link inside the tree |
| NodeMoves.DetachWf | src/editing/editing_node.js:239-305 | detaching keeps a well-formed tree: x becomes a root, leaves its parent's list, and no other parent link changes |
| NodeMoves.AppendChildWf | src/editing/editing_node.js:230-253 | `internalAppendChild(p, x)` with x not above p keeps a well-formed tree: x leaves its old list, ends p's list, and no other parent link changes |
| NodeMoves.InsertBeforeWf | src/editing/editing_node.js:255-281 | `internalInsertBefore(p, x, ref)` keeps a well-formed tree: x leaves its old list and comes just before ref |
| NodeMoves.ReplaceChildWf | src/editing/editing_node.js:307-337 | `internalReplaceChild(p, x, y)` keeps a well-formed tree: x takes y's place and y becomes a root |
| NodeMoves.AppendUnlink | src/editing/editing_node.js:230-305 | appending a root and then removing it gives back the links |
| NodeMoves.InsertUnlink | src/editing/editing_node.js:255-305 | inserting a root and then removing it gives back the links |
| NodeMoves.UnlinkInsert | src/editing/editing_node.js:255-305 | removing a child and inserting it before its old next sibling gives back the links |
| NodeMoves.UnlinkAppend | src/editing/editing_node.js:230-305 | removing the last child and appending it again gives back the links |
| NodeMoves.ReplaceReplace | src/editing/editing_node.js:307-337 | replacing y by a root x and then x by y gives back the links |
| NodeMoves.Neighbours | src/editing/editing_node.js:283-305 | a child's neighbours are distinct children of the same parent, and a missing neighbour means the parent's end link names the child |
| NodeMoves.AppendChildUndone | src/editing/operations.js:54-63 | `AppendChild.undo` after redo restores the links |
| NodeMoves.InsertBeforeUndone | src/editing/operations.js:92-101 | `InsertBefore.undo` after redo restores the links |
| NodeMoves.RemoveChildUndoneBefore | src/editing/operations.js:120-140 | `RemoveChild.undo` of a child with a next sibling reinserts it before that sibling and restores the links |
| NodeMoves.RemoveChildUndoneLast | src/editing/operations.js:120-140 | `RemoveChild.undo` of the last child (refChild null) appends it and restores the links |
| NodeMoves.ReplaceChildUndone | src/editing/operations.js:170-179 | `ReplaceChild.undo` after redo restores the links |
| Selections.SelectionKinds | src/editing/read_only_selection.js:75-100 | a selection is exactly one of empty (no anchor), caret and range |
| Selections.StartAndEnd | src/editing/read_only_selection.js:55-117 | start and end are the anchor and the focus, in the order the direction gives, and together they are exactly those two places |
| Selections.CaretCollapsed | src/editing/read_only_selection.js:55-117 | a caret starts and ends at the same place |
| Selections.SnapshotAgrees | src/editing/editing_selection.js:331-397 | the getters of the live selection agree with those of the read-only selection taken from it |
| Selections.NewPosition | src/editing/editing_position.js:14-26 | a position is built exactly when the container has children or a value, and holds the given container and offset |
| Selections.Equals | src/editing/editing_position.js:33-36 | equal exactly for the same container and offset |
| Selections.NodeAtPosition | src/editing/editing_position.js:42-48 | null at the end of the child list, the child at the offset inside it |
| Selections.NodeAtPositionInBounds | src/editing/editing_position.js:14-48 | within the bounds, a position has a node exactly when it is not at the end |
| EditingContexts.OpcodesDistinct | src/editing/editing_context.js:40-191 | different instruction kinds carry different opcodes |
| EditingContexts.ExecCommand | src/editing/editing_context.js:93-105 | it throws exactly for a name that is not a string or not registered; otherwise the registered command of that name is called, with the flag and value passed, or false and "" when omitted |
| EditingContexts.ExecCommandDefaults | src/editing/editing_context.js:98-100 | omitting both optional arguments dispatches as passing false and "" |
| EditingContexts.ExecCommandRegistry | src/editing/editing_context.js:101-104 | registering more commands leaves every successful dispatch unchanged |
| EditingContexts.EditingContext.constructor | src/editing/editing_context.js:13-33 | no instructions, hash code 0, no ending selection, and a starting selection exactly when the DOM selection has a range |
| EditingContexts.EditingContext.NextHashCode | src/editing/editing_context.js:122-124 | returns 1, 2, 3, ... on successive calls and changes nothing else |
| EditingContexts.EditingContext.AppendChild | src/editing/editing_context.js:40-43 | appends one appendChild record and changes nothing else |
| EditingContexts.EditingContext.CloneNode | src/editing/editing_context.js:71-74 | appends one cloneNode record and changes nothing else |
| EditingContexts.EditingContext.InsertBefore | src/editing/editing_context.js:113-116 | appends one insertBefore record and changes nothing else |
| EditingContexts.EditingContext.RemoveAttribute | src/editing/editing_context.js:130-132 | appends one removeAttribute record and changes nothing else |
| EditingContexts.EditingContext.RemoveChild | src/editing/editing_context.js:139-142 | appends one removeChild record and changes nothing else |
| EditingContexts.EditingContext.ReplaceChild | src/editing/editing_context.js:150-153 | appends one replaceChild record and changes nothing else |
| EditingContexts.EditingContext.SetAttribute | src/editing/editing_context.js:161-164 | appends one setAttribute record and changes nothing else |
| EditingContexts.EditingContext.SplitText | src/editing/editing_context.js:183-190 | appends one splitText record and changes nothing else |
| EditingContexts.EditingContext.SetEndingSelection | src/editing/editing_context.js:170-174 | succeeds exactly when no ending selection is set, and then stores it; otherwise throws and changes nothing |
| EditingContexts.EditingContext.EndingSelection | src/editing/editing_context.js:79-83 | the getter throws (None) until an ending selection is set |
| EditingContexts.WriteOnce | src/editing/editing_context.js:170-174 | setting the ending selection twice fails the second time and keeps the first |
| EditingTree.NewNodeData | src/editing/editing_node.js:15-44 | only an element keeps attributes, one per DOM attribute with its name lower-cased; a text node's value is its whole DOM text, any other node has none |
| EditingTree.NodeValue | src/editing/editing_node.js:446-455 | a value exactly for a text node, and then the text between the node's start and end offsets |
| EditingTree.Lookup | src/editing/editing_node.js:135-140 | finds a value exactly when some attribute has the name, and the value is one stored under it |
| EditingTree.GetAttribute | src/editing/editing_node.js:147-152 | a value exactly when an attribute has the lower-cased name |
| EditingTree.HasAttribute | src/editing/editing_node.js:159-163 | true exactly when an attribute has the lower-cased name |
| EditingTree.SetAttr | src/editing/editing_node.js:506-515 | afterwards the name gives the value, every other name gives what it gave before, and the list grows only when the name was missing |
| EditingTree.DropAttr | src/editing/editing_node.js:462-468 | afterwards the name gives nothing and every other name gives what it gave before |
| EditingTree.CloneData | src/editing/editing_node.js:72-85 | the clone has the original's kind, name and DOM text; an element's clone starts with the original's attributes |
| EditingTree.CloneKeepsAttributes | src/editing/editing_node.js:147-152 | a shallow clone of an element answers getAttribute as the original does |
| EditingTree.SplitTextAsWritten | src/editing/editing_node.js:523-538 | as written: the offset is checked against the whole DOM text, and both halves meet at start plus offset |
| EditingTree.SplitTextAsWrittenOverruns | src/editing/editing_node.js:523-538 | a node covering "ab" of "abcd" passes the written check at offset 3; its first half then reads "abc" and leaves the node's range |
| EditingTree.SplitTextData | src/editing/editing_node.js:523-538 | splits exactly a text node at an offset inside its own text; the halves are text nodes whose values concatenate to the original value, the first of length offset |
| EditingTree.AddRootWf | src/editing/editing_node.js:15-25 | a new node with no links keeps the tree well formed |
| EditingTree.AppendStep | src/editing/editing_node.js:230-248 | on a well-formed tree, appending x to p yields a well-formed tree whose child lists are the old ones with x moved to the end of p's |
| EditingTree.InsertStep | src/editing/editing_node.js:255-277 | on a well-formed tree, inserting x before ref yields a well-formed tree with x just before ref in p's list |
| EditingTree.UnlinkStep | src/editing/editing_node.js:283-300 | on a well-formed tree, removing x yields a well-formed tree with x dropped from its parent's list and left without links |
| EditingTree.ReplaceStep | src/editing/editing_node.js:307-333 | on a well-formed tree, replacing y by x yields a well-formed tree with x in y's place and y without a parent |
| EditingTree.NodeTree.constructor | src/editing/editing_node.js:15-25 | an empty tree of nodes on the given context |
| EditingTree.NodeTree.AddNode | src/editing/editing_node.js:15-25 | the new node takes the context's next hash code, has no links, and nothing else changes |
| EditingTree.NodeTree.CreateNode | src/editing/editing_node.js:15-44 | the new node takes the next hash code, has no links and holds the data of the DOM node |
| EditingTree.NodeTree.InternalAppendChild | src/editing/editing_node.js:230-248 | throws exactly for a parent that is not an element or document; otherwise x is p's last child and has left its old list |
| EditingTree.NodeTree.InternalInsertBefore | src/editing/editing_node.js:255-277 | a null ref appends; throws exactly for a ref of another parent; otherwise x sits just before ref |
| EditingTree.NodeTree.InternalRemoveChild | src/editing/editing_node.js:283-300 | throws exactly for a node without a parent; otherwise it leaves its parent's list and keeps no links |
| EditingTree.NodeTree.InternalReplaceChild | src/editing/editing_node.js:307-333 | throws exactly for an old child of another parent; otherwise x takes y's place and y has no parent |
| EditingTree.NodeTree.AppendChild | src/editing/editing_node.js:51-54 | logs appendChild first, then behaves as internalAppendChild |
| EditingTree.NodeTree.InsertBeforeAsWritten | src/editing/editing_node.js:209-224 | as written, every call with a reference node throws and changes nothing |
| EditingTree.NodeTree.InsertBefore | src/editing/editing_node.js:209-224 | null ref appends; throws exactly when x is ref or ref has another parent; otherwise logs insertBefore and puts x just before ref |
| EditingTree.NodeTree.InsertAfter | src/editing/editing_node.js:188-202 | throws exactly when x is ref, ref has another parent, or the insertion it delegates to throws; otherwise x lands right after ref |
| EditingTree.NodeTree.RemoveChild | src/editing/editing_node.js:473-478 | throws exactly for a node of another parent; otherwise logs removeChild and unlinks it |
| EditingTree.NodeTree.ReplaceChild | src/editing/editing_node.js:486-497 | throws exactly for equal children or an old child of another parent; otherwise logs with the source's argument order and puts x in y's place |
| EditingTree.NodeTree.SetAttribute | src/editing/editing_node.js:503-516 | logs with the lower-cased name; afterwards getAttribute gives the value and every other name answers as before |
| EditingTree.NodeTree.RemoveAttributeAsWritten | src/editing/editing_node.js:462-468 | as written, the call is logged but getAttribute answers as before |
| EditingTree.NodeTree.RemoveAttribute | src/editing/editing_node.js:462-468 | logs the call; afterwards getAttribute of the name gives nothing and every other name answers as before |
| EditingTree.NodeTree.SplitText | src/editing/editing_node.js:523-538 | throws exactly when the split data does not exist; otherwise a new node with the next hash code holds the second half and the split is logged |
| EditingTree.NodeTree.CloneNode | src/editing/editing_node.js:72-85 | throws exactly for a deep clone; otherwise logs the call and adds a new unlinked node holding the clone's data |
| EditingTree.NodeTree.ChildNodes | src/editing/editing_node.js:60-66 | walking the sibling links from the first child gives exactly the child list |
| EditingTree.NodeTree.HasChildNodes | src/editing/editing_node.js:169-171 | true exactly when the child list is not empty |
| EditingTree.NodeTree.InDocument | src/editing/editing_node.js:178-181 | true exactly when the node has a parent, which is when some node lists it as a child |
| EditingTree.NodeTree.NodeIndex | src/editing/editing_node.js:423-432 | throws exactly for a node without a parent; otherwise the node's position in its parent's child list |
| EditingTree.NodeTree.MaxOffset | src/editing/editing_node.js:415-417 | the length of a text node's value, otherwise the number of children |
| SelectionTracking.Track | src/editing/selection_tracker.js:50-66 | an empty container is tracked on itself, an offset at the end after the last child, a non-zero END offset after the child before it, anything else before the child at the offset |
| SelectionTracking.TrackAsWrittenThrows | src/editing/selection_tracker.js:55 | as written, the undefined `editing.nodes.maxOffset` makes the constructor throw for every container with children |
| SelectionTracking.Convert | src/editing/selection_tracker.js:72-86 | BEFORE_ALL_CHILDREN gives the node and 0; any other kind succeeds exactly when the node exists and has a parent, and gives that parent |
| SelectionTracking.TrackConvert | src/editing/selection_tracker.js:50-86 | tracking a valid position and converting it back, with nothing removed between, gives the same container and offset |
| SelectionTracking.ConvertAsWrittenThrows | src/editing/selection_tracker.js:77-78 | as written, a position tracked after all children cannot be converted back, though the intended conversion gives the container and its end |
| SelectionTracking.PreviousNotBelow | src/editing/selection_tracker.js:93-105 | the node before n in document order is not inside n's subtree |
| SelectionTracking.WillRemoveLeavesSubtree | src/editing/selection_tracker.js:88-110 | a position on the removed node moves to a node outside its subtree, with the kind the source switches to; any other position is left alone |
| SelectionTracking.Ending | src/editing/selection_tracker.js:139-154 | the ending selection has the selection's direction, and its start and end are the converted start and end |
| SelectionTracking.EndingKeepsSelection | src/editing/selection_tracker.js:124-154 | with nothing removed, tracking both ends and setting the ending selection gives back the selection itself |
| SelectionTracking.EndingAsWrittenSwaps | src/editing/selection_tracker.js:143-149 | as written, a FOCUS_IS_START selection comes back with anchor and focus swapped |
| SelectionTracking.TrackablePosition.constructor | src/editing/selection_tracker.js:50-66 | the position holds what Track gives for the container's children and maxOffset |
| SelectionTracking.TrackablePosition.ConvertToNodeAndOffset | src/editing/selection_tracker.js:72-86 | returns what Convert gives for the position |
| SelectionTracking.TrackablePosition.WillRemoveNode | src/editing/selection_tracker.js:88-110 | the position becomes what WillRemove gives |
| SelectionTracking.SelectionTracker.constructor | src/editing/selection_tracker.js:124-134 | two distinct positions, tracking the selection's start with START and its end with END |
| SelectionTracking.SelectionTracker.SetEndingSelection | src/editing/selection_tracker.js:139-154 | succeeds exactly when both ends convert and no ending selection is set, and then stores the Ending of the converted ends; nothing else in the context changes |
| SelectionTracking.SelectionTracker.WillRemoveNode | src/editing/selection_tracker.js:160-163 | both positions follow the removal |
| SelectionTracking.TrackUnchanged | src/editing/selection_tracker.js:124-154 | a tracker made and finished with nothing removed sets the ending selection to the selection it started from |
| SelectionNodes.SiblingsApart | src/editing/editing_selection.js:32-47 | two children of one parent that both lie above a node are the same child |
| SelectionNodes.NextShrinks | src/editing/editing_selection.js:19-47 | each pre-order step leaves strictly fewer nodes to visit, so the walk ends |
| SelectionNodes.RunSteps | src/editing/editing_selection.js:19-78 | a run starts at its first node unless that is the stop, steps by nextNode, and ends at the end of the tree or just before the stop |
| SelectionNodes.RunWithin | src/editing/editing_selection.js:71-78 | a run never visits the stop and only visits nodes still ahead of its start |
| SelectionNodes.RunDistinct | src/editing/editing_selection.js:71-78 | a run visits every node at most once |
| SelectionNodes.Walk | src/editing/editing_selection.js:71-79 | the iterator loop returns exactly the run from the start node up to the end node |
| SelectionNodes.Boundary | src/editing/editing_selection.js:60-65 | the boundary node, when there is one, is a node of the tree |
| SelectionNodes.CollectNodesAsWritten | src/editing/editing_selection.js:56-80 | the loop returns what the code as written collects |
| SelectionNodes.CollectNodes | src/editing/editing_selection.js:56-80 | empty for an empty selection and for a caret; otherwise the run from the start boundary to the end boundary, with no node twice |
| SelectionNodes.BoundaryNode | src/editing/editing_selection.js:60-65 | gives the boundary: the child at the offset or the node after the container's subtree |
| SelectionNodes.CollectedIsRun | src/editing/editing_selection.js:56-80 | the collected nodes start at the start boundary, follow each other in document order, exclude the end boundary and repeat nothing |
| SelectionNodes.CollectedAgreeInside | src/editing/editing_selection.js:60-65 | where both offsets name a child, the code as written collects the intended nodes |
| SelectionNodes.CollectAsWrittenOverruns | src/editing/editing_selection.js:60-69 | as written, a caret in an empty node throws, a caret after the last child collects a node, and a range ending past a last child runs to the end of the tree |
| SelectionNodes.NeedSplitSplits | src/editing/editing_selection.js:181-184 | for offsets a selection holds, a split is needed exactly when splitText accepts the offset |
| SelectionNodes.SpliceStep | src/editing/editing_node.js:188-202 | inserting a new node after a child splices it into the parent's list right after that child and leaves every other list alone |
| SelectionNodes.InsertedAfterStep | src/editing/editing_node.js:188-202 | the insertion step insertAfter performs on a fresh node puts it right after the reference node |
| SelectionNodes.SplitTextAndInsert | src/editing/editing_selection.js:194-205 | throws before any change unless splitText accepts the offset; otherwise the text after the offset moves to a new node that becomes the node's next sibling, and both instructions are logged |
| Dom.GetAttr | editing/operations.js:146-148 | null exactly when the element has no attribute of that name, else its value |
| Dom.ValueOf | editing/operations.js:361-363 | a value exactly for a text node, and then its data |
| Dom.StyleSetGet | editing/operations.js:321-330 | a style property reads back as written and the others read as before |
| Dom.StyleRestored | editing/operations.js:314-330 | writing back the value read before a write gives back the declarations |
| Dom.Document.AppendChild | editing/operations.js:61-63 | throws exactly for a parent that is not an element or document; otherwise x leaves its old place and ends p's list |
| Dom.Document.InsertBefore | editing/operations.js:107-109 | throws exactly when the parent takes no children or ref is not its child; a null ref appends |
| Dom.Document.RemoveChild | editing/operations.js:68-70 | throws exactly when x is not p's child; otherwise unlinks x |
| Dom.Document.ReplaceChild | editing/operations.js:235-237 | throws exactly when the parent takes no children or y is not its child; otherwise x takes y's place |
| Dom.Document.SetAttribute | editing/operations.js:277-279 | the attribute map gains or overwrites the name and nothing else changes |
| Dom.Document.RemoveAttribute | editing/operations.js:155-157 | the name leaves the attribute map, and a missing name changes nothing |
| Dom.Document.SetStyle | editing/operations.js:321-323 | the style property is written as StyleSet says and nothing else changes |
| Dom.Document.SetNodeValue | editing/operations.js:361-372 | a text node takes the value and any other node ignores it |
| Operations.NamesTell | editing/operations.js:10-35 | operations of different kinds have different names, except SetStyle, which is named like setAttribute |
| Operations.NewInsertBefore | editing/operations.js:94-102 | throws exactly for a null ref (the assertion reads its parent); otherwise an InsertBefore of the three nodes |
| Operations.NewRemoveChild | editing/operations.js:183-189 | a RemoveChild that captures the child's next sibling as the node to put it back before |
| Operations.NewRemoveAttribute | editing/operations.js:142-150 | throws exactly when the element has no such attribute; otherwise captures its value |
| Operations.NewSetAttribute | editing/operations.js:263-272 | throws exactly for a null value; otherwise captures the old value |
| Operations.NewSetStyle | editing/operations.js:309-316 | a SetStyle that captures the old value of the property |
| Operations.Prefix | editing/operations.js:362-363 | `substr(0, length)` has the clamped length and is a prefix of the string |
| Operations.RedoNodes | editing/operations.js:155-363 | redo changes node data but never which nodes exist |
| Operations.UndoNodes | editing/operations.js:162-372 | undo changes node data but never which nodes exist |
| Operations.Redo | editing/operations.js:30-366 | succeeds exactly when the DOM call it makes accepts it; the nodes and links are then those RedoNodes and RedoLinks give, and a failure leaves the links alone |
| Operations.RedoSplitText | editing/operations.js:360-366 | the text loses as many characters as the new node holds; the insertion after it succeeds exactly when the text node has a parent that accepts it |
| Operations.InsertAfter | editing/operations.js:364-365 | the new node goes just after the text node, which must have a parent |
| Operations.Undo | editing/operations.js:68-374 | succeeds exactly when the DOM call it makes accepts it; the nodes and links are then those UndoNodes and UndoLinks give |
| Operations.UndoSplitText | editing/operations.js:371-374 | the new node's value is appended to the text; the removal then succeeds exactly when the new node has a parent |
| Operations.InsertRoundTrip | editing/operations.js:61-116 | AppendChild and InsertBefore: a root put into p comes out again by removing it, giving back the links |
| Operations.RemoveChildRoundTrip | editing/operations.js:183-203 | RemoveChild: taking a child out and putting it back before its old next sibling restores the links |
| Operations.ReplaceChildRoundTrip | editing/operations.js:235-244 | ReplaceChild: putting y back in place of the root x that replaced it restores the links |
| Operations.SplitTextRoundTrip | editing/operations.js:360-374 | SplitText: the new node goes in just after the text node, and removing it restores the links |
| Operations.RedoUndoLinks | editing/operations.js:50-385 | for every operation whose new child had no parent, undo right after a successful redo succeeds and gives back the links |
| Operations.RedoUndoNodes | editing/operations.js:142-385 | undo after redo gives back the attribute, the style property, and SplitText's text when the new node holds its end |
| Operations.SplitTextRestores | editing/operations.js:360-374 | SplitText's undo after redo gives the text back exactly when the new node's value is the end of it |
| Operations.RedoUndo | editing/operations.js:50-385 | when redo succeeds, undo succeeds too and the document is as before |
| UnlinkCommands.NearestAnchor | src/editing/commands/unlink_command.js:79-81 | the element found, if any, is named A and lies at or above the start |
| UnlinkCommands.NearestAnchorIsNearest | src/editing/commands/unlink_command.js:79-81 | every A element at or above the start lies above the one found, so the walk finds the nearest and misses only when there is none |
| UnlinkCommands.FindAnchor | src/editing/commands/unlink_command.js:137-139 | the loop climbs to the nearest A element, or null from a null start |
| UnlinkCommands.SplicedThenRemoved | src/editing/commands/unlink_command.js:63-91 | once the element is removed, its old place in the parent's list holds its children in order and every other entry keeps its order |
| UnlinkCommands.MoveChildNodesBeforeParentNode | src/editing/commands/unlink_command.js:63-70 | throws exactly for a parentless element with children; otherwise the element is left empty, its children stand in order just before it, and only they change parent |
| UnlinkCommands.UnwrapTarget | src/editing/commands/unlink_command.js:78-82 | the element to unwrap is the nearest A element around the focus, and it has a parent |
| UnlinkCommands.UnwrapTargetFrame | src/editing/commands/unlink_command.js:128-140 | detaching an element that is not above a node leaves the A element unwrapped for that node unchanged |
| UnlinkCommands.CaretAsWritten | src/editing/commands/unlink_command.js:86-90 | as written, the caret goes to the node that was at the caret, in its new parent, or else to the focus offset in the focus node's parent |
| UnlinkCommands.CaretAsWrittenMisplaced | src/editing/commands/unlink_command.js:86-94 | for `<p>x<a>bar\|</a></p>` the written placement puts the caret before the text it was after |
| UnlinkCommands.Unwrap | src/editing/commands/unlink_command.js:86-91 | the children of the A element move in front of it, it is removed, and the caret lands with the same nodes before it as before the move |
| UnlinkCommands.UnwrapAtCaret | src/editing/commands/unlink_command.js:86-95 | the element is unwrapped, only moves and its removal are logged, and the ending selection is a caret that keeps its place |
| UnlinkCommands.UnlinkForCaret | src/editing/commands/unlink_command.js:76-96 | without an editable A element around the focus the ending selection is the starting one and nothing changes; otherwise that element alone is unwrapped and the caret keeps its place |
| UnlinkCommands.UnlinkTracker.constructor | src/editing/commands/unlink_command.js:13-20 | the tracker starts from the selection's anchor and focus |
| UnlinkCommands.UnlinkTracker.RelocateIfNeeded | src/editing/commands/unlink_command.js:37-47 | an end on the element moves to its parent, the offset shifted by the element's index; other ends stay; it throws exactly for an end on a parentless element |
| UnlinkCommands.UnlinkTracker.Finish | src/editing/commands/unlink_command.js:26-31 | the tracked ends, in the selection's direction, become the ending selection, unless one is already set |
| UnlinkCommands.RelocationKeepsPlace | src/editing/commands/unlink_command.js:151-157 | the relocated offset names the same place once the element's children stand in front of it and it is gone |
| UnlinkCommands.TakeOut | src/editing/commands/unlink_command.js:125 | a child of the element moves in front of it and the insertion is logged |
| UnlinkCommands.RemoveAnchor | src/editing/commands/unlink_command.js:128-157 | the element leaves its parent's list, no other node changes parent, and the removal is logged |
| UnlinkCommands.UnwrapChildren | src/editing/commands/unlink_command.js:151-156 | every child of the element moves in order in front of it and each move is logged |
| UnlinkCommands.PopAnchor | src/editing/commands/unlink_command.js:128-133 | the current element is removed and popped from the stack |
| UnlinkCommands.SettleOnce | src/editing/commands/unlink_command.js:121-134 | a node below the current element ends the visit, taken out when it is a child of it; otherwise the element is removed and popped |
| UnlinkCommands.Settle | src/editing/commands/unlink_command.js:121-134 | the visit ends exactly when the node lies strictly below the current element; otherwise the current element, if any, is detached with every other parent link and the ranks kept, and none is current any more |
| UnlinkCommands.Enter | src/editing/commands/unlink_command.js:136-151 | the current element becomes the A element unwrapped for the node and is pushed; unless it is the node, its children are moved out and the moves logged; the tracked ends on it move to its parent |
| UnlinkCommands.PushAnchor | src/editing/commands/unlink_command.js:145-151 | the element is pushed; the tracked ends on it move to its parent with the offset shifted by its index; unless it is the node, its children are moved out |
| UnlinkCommands.VisitNode | src/editing/commands/unlink_command.js:120-152 | a node below the current element, other than the element itself, leaves the current element and the pushed set as they are; a visit to the current element itself pops it and pushes nothing; any other visit pushes exactly the A element unwrapped for the node in the tree the visit started from (the current element, when there was one, is detached first); only pushed A elements are detached, only moves and removals are logged, and each tracked end is the selection's own or lies on a pushed element |
| UnlinkCommands.DrainStack | src/editing/commands/unlink_command.js:154-158 | every element left on the stack is unwrapped and removed |
| UnlinkCommands.UnlinkRange | src/editing/commands/unlink_command.js:111-161 | the A element unwrapped for the first node of the range is among the removed ones; only removed A elements are detached, every one of them ends detached, and each end of the ending selection is the selection's own or lies on a removed element |
| UnlinkCommands.UnlinkCommand | src/editing/commands/unlink_command.js:104-162 | an empty selection changes nothing and takes the starting selection; a caret or empty range removes exactly the A element unwrapped around the focus, if any; a range removes the A element unwrapped for its first node and detaches only removed A elements; it throws exactly when an ending selection is already set |
| Editors.Editor.constructor | src/editing/editor.js:12-20 | no current context, no selection, empty undo and redo stacks |
| Editors.Editor.CreateContext | src/editing/editor.js:29-33 | as written, a new context with no instructions, hash code 0, and neither a starting nor an ending selection |
| Editors.Editor.SetSelection | src/editing/editor.js:89-93 | the editor adopts the selection; pushing a null one to the DOM throws; nothing else changes |
| Editors.Editor.RunCommand | src/editing/editor.js:63-67 | the command completes exactly when it neither re-enters execCommand nor throws; its log and ending selection land in the context either way |
| Editors.Editor.ExecCommand | src/editing/editor.js:43-83 | a bad name, an unknown command and a re-entrant call throw; a failing command gives 'FAILED' and changes nothing; a completed one that set no ending selection throws from the `endingSelection` getter before `setSelection` and keeps the selection and undo stack; a completed one with an ending selection returns its value, adopts that selection and pushes exactly one undo record, built as written, so its instructions are undefined; no current context remains |
| Editors.TwoCommands | src/editing/editor.js:43-83 | two completed commands push two undo records in order, each as written without its instructions, and leave the second ending selection adopted |
| Editors.RecordAsWritten | src/editing/editor.js:77-80 | as written: the record keeps the command name and both selections, but its instructions are undefined, because `context.instructions` is not a property of EditingContext |
| Editors.Record | src/editing/editor.js:77-80 | corrected: the record keeps the command name, both selections and the log read from `instructions_` |
| Editors.RecordAsWrittenDropsLog | src/editing/editor.js:77-80 | as written, two commands with different logs push the same record, and neither record holds its log |
| Editors.RecordKeepsLog | src/editing/editor.js:77-80 | corrected, two records are equal exactly when their logs are, and the record's instructions are the log |

## Left out

- Time: `TimeTicks::Now` reads the OS performance counter. `TimeDelta::InMillisecondsF` (base/time/time.h:37, 104-106) converts to `double` and is left out with the other floating-point code.
- Time: int64 overflow is excluded by preconditions instead of being modelled, because it is undefined behaviour in C++.
- Gfx: `PointF::Distance` is left out; it takes a floating-point square root.
- Gfx: the Direct2D factory, device, bitmap, brush and the swap chain's device calls are foreign APIs. The wait result of `IsReady` is a parameter.
- Gfx: coordinates are reals, not 32-bit floats, so rounding is not modelled.
- C# programs: `int` is modelled as an unbounded integer. The values involved are small digits and their products. The one exception is the digit accumulator of rz.cs and src/rz.cs, where `Renames` writes the 32-bit wrap-around out.
- Ten puzzle: the `Main`, `Play` and `ListGuess` console loops and timing are left out. So are `ToPrefix`, the printing helpers and `Immediate.CompareTo`.
- Ten puzzle: `Perm.Reset` only throws "Not implemented".
- master_mind.cs:264 lacks a `;` after `++count`. That line is in the console-printing loop, which is not part of the model.
- Renamers: `DoRename`, `Process` and `Main` move files, convert images and open zip archives.
- string_combination.cpp: `main` and the `printf` calls are left out. The model gives the lines in the order they are printed.
- update_test_expectations.py: reading the files, `sys.argv` and writing the output are left out.
- calltree2dot.py: `processInput`, `makeEntry`, `emitHeader`, `emitFooter` and `main` parse CSV and write files. The model starts from parsed entries, and an edge key `str(a)+','+str(b)` is a pair. `CallTree.Converter.ProcessChain`, `CallTree.Converter.ProcessChainWith` and `CallTree.ProcessChainValid` require every level they read to be stored (`ChainReadable`); a CSV that skips a level makes the source raise `KeyError` at calltree2dot.py:135, 141 or 144, and that error is not modelled.
- Polyfill: the `Math.sign` polyfill works on floating point, including NaN and -0.
- Editing engine: nodes are named by hash codes instead of object references, so aliasing between objects is not modelled.
- Editing engine: the DOM node behind an editing node is not modelled apart from its kind, name, attributes and text. Syncing the editing tree back to the DOM is not modelled either.
- Editing engine: `isVisibleNode` needs `getComputedStyle`. `isInteractive`, `isPhrasing`, `nodeName` and `toString` are left out as well.
- Editing engine: the internal tree operations require that the new child is not an inclusive ancestor of the parent. The source does not check this, and the DOM would throw.
- Editing engine: the `EditingSelection` constructor is left out. It copies the DOM tree into editing nodes (`computeEditingRoot`, `createEditingTree`) and reads DOM ranges. The model starts from an `EditingSelection` value with its nodes in the tree.
- Editing engine: `setDomSelection` in `Editor.setSelection` is modelled only as throwing for a null selection.
- Editors.Editor.RunCommand: the registered command's code is not part of the model. What the command does is a parameter (`CommandRun`): whether it re-enters `execCommand`, what it logs, the ending selection it sets, and whether it returns.
- UnlinkCommands.UnlinkCommand: for a range, each end of the ending selection is stated only to be the selection's own end or to lie on an unwrapped A element. The relocated offset is proved to name the same place (`UnlinkCommands.RelocationKeepsPlace`), but it is not restated in the command's contract.
- UnlinkCommands.UnlinkRange: the A element unwrapped for each later node of the range is stated only step by step (`UnlinkCommands.VisitNode`), in the tree as the earlier visits left it. The whole set of removed elements is not given as a function of the starting tree.
- UnlinkCommands.MoveChildNodesBeforeParentNode: the `stopNode` argument is ignored, as the source ignores it.
- EditingTree.NodeTree.InsertAfter: it calls the corrected `NodeTree.InsertBefore` (see Findings). As written, the source throws whenever the node after ref exists, because `recordInsertBefore` is undefined; that path is modelled only by `EditingTree.NodeTree.InsertBeforeAsWritten`.
- SelectionNodes.SplitTextAndInsert: it runs on the corrected `NodeTree.InsertBefore`. As written, inserting the new text node before a following sibling throws.
- UnlinkCommands.MoveChildNodesBeforeParentNode: it runs on the corrected `NodeTree.InsertBefore`. As written, the first child moved in front of the element throws, so nothing is moved.
- UnlinkCommands.MoveBefore: it runs on the corrected `NodeTree.InsertBefore`; as written it throws.
- UnlinkCommands.TakeOut: it runs on the corrected `NodeTree.InsertBefore`; as written it throws.
- UnlinkCommands.UnwrapChildren: it moves the children with the corrected `NodeTree.InsertBefore`; as written, an element with a child throws at the first move.
- UnlinkCommands.UnlinkForCaret: it unwraps with the corrected `NodeTree.InsertBefore`. As written, an A element with children makes the command throw before anything is removed.
- UnlinkCommands.UnlinkRange: it moves nodes with the corrected `NodeTree.InsertBefore`. As written, the first node taken out, or the first child moved, makes the command throw.
- UnlinkCommands.UnlinkCommand: for a caret or a range, it relies on the corrected `NodeTree.InsertBefore`. The as-written throw is not modelled.
- UnlinkCommands.Unwrap: it moves the children through `UnlinkCommands.UnwrapChildren`, on the corrected `NodeTree.InsertBefore`. As written, an A element with a child throws at the first move before a reference node.
- UnlinkCommands.UnwrapAtCaret: it unwraps through `UnlinkCommands.Unwrap`, on the corrected `NodeTree.InsertBefore`. As written, an A element with a child throws at the first move.
- UnlinkCommands.SettleOnce: it takes nodes out through `UnlinkCommands.TakeOutKept` and `UnlinkCommands.TakeOut`, on the corrected `NodeTree.InsertBefore`. As written, the first node taken out before a reference node throws.
- UnlinkCommands.Settle: it repeats `UnlinkCommands.SettleOnce`, on the corrected `NodeTree.InsertBefore`. As written, the first move before a reference node throws.
- UnlinkCommands.Enter: it unwraps through `UnlinkCommands.PushAnchor`, on the corrected `NodeTree.InsertBefore`. As written, the first move before a reference node throws.
- UnlinkCommands.PushAnchor: it moves the children through `UnlinkCommands.UnwrapChildren`, on the corrected `NodeTree.InsertBefore`. As written, an A element with a child throws at the first move.
- UnlinkCommands.VisitNode: it runs `UnlinkCommands.Settle` and `UnlinkCommands.Enter`, on the corrected `NodeTree.InsertBefore`. As written, the first move before a reference node throws.
- UnlinkCommands.DrainStack: it unwraps the remaining A elements through `UnlinkCommands.UnwrapChildren`, on the corrected `NodeTree.InsertBefore`. As written, an A element with a child throws at the first move.
- EditingTree.NodeTree.SplitText: it checks the offset against the node's own text, as `EditingTree.SplitTextData` does. As written, editing_node.js:526-530 checks it against the whole DOM `nodeValue`, so an offset past the node's own text but inside the DOM text is accepted and the first half leaves the node's range. That path is modelled only by `EditingTree.SplitTextAsWritten` (see Findings).
- SelectionTracking.TrackablePosition.constructor: it tracks with the corrected `SelectionTracking.Track`. As written, selection_tracker.js:55 calls `editing.nodes.maxOffset`, which nodes.js does not export, so the constructor throws for every container with children (`SelectionTracking.TrackAsWrittenThrows`).
- SelectionTracking.TrackablePosition.ConvertToNodeAndOffset: it returns the corrected `SelectionTracking.Convert`. As written, converting an AFTER_ALL_CHILDREN position calls the same undefined `maxOffset` and throws (selection_tracker.js:77-78, `SelectionTracking.ConvertAsWrittenThrows`).
- SelectionTracking.SelectionTracker.constructor: it tracks both ends with the corrected `SelectionTracking.Track`. As written, it throws for a selection end in a container with children (selection_tracker.js:55).
- SelectionTracking.SelectionTracker.SetEndingSelection: it stores the corrected `SelectionTracking.Ending`. As written, both branches of selection_tracker.js:143-149 pass the start as the anchor, so a FOCUS_IS_START selection comes back with anchor and focus swapped (`SelectionTracking.EndingAsWrittenSwaps`).
- SelectionTracking.TrackUnchanged: it is about the tracker built on the corrected `Track`, `Convert` and `Ending`. As written, the tracker's constructor throws for any selection end in a container with children, and a FOCUS_IS_START selection comes back swapped.
- Renames.Normalize: characters are Unicode scalar values, not the UTF-16 code units of a C# string. A character outside the Basic Multilingual Plane is one token of value 0x10000 or more, so it can equal a number token. In C# it is two surrogate code units, both below 0x10000.
- Renames.TokensFrom: the same UTF-16 difference as `Renames.Normalize`.
- RenamesSrc.Normalize: the same UTF-16 difference as `Renames.Normalize`.
- StringCombination.PrintCombination: the empty string is excluded. For it, `printAux` (string_combination.cpp:27-28) allocates zero bytes and then asks `memcpy` to copy `len - 1 = -1` of them, which is undefined behaviour.
- EditingContexts.ExecCommand: the optional arguments are typed as a Boolean and a string. The `Boolean()` and `String()` coercions that editing_context.js:98-100 apply to other values are not modelled; for example, an explicit `undefined` value becomes the string "undefined" in the source.
- TenCard.Combi.constructor: it requires no more alphabet elements than index positions. With a larger alphabet, `NoDuplicate` indexes past its `bool` array and C# throws `IndexOutOfRangeException`; that throw is not modelled.
- Polyfill.StringSet.Add: adding "__proto__" makes it an own key in the model. In JavaScript, `members_['__proto__'] = true` calls the inherited `__proto__` setter, which ignores a non-object, so no own key is made and `size` does not count it. `Polyfill.StringSet.Has` still finds it, as an inherited name.
- Gfx.SwapChain.IsReady: `NOTREACHED()` for an unexpected wait result is modelled as returning false. In a debug build it stops the process instead.
- TenPermutation: the permuted elements are integers. The source's generic element type only needs a comparison, and the digits are small integers.
- EditingTree.NodeTree.InternalInsertBefore: requires `ref != x`, and `EditingTree.NodeTree.InternalReplaceChild` requires `x != y`. The public operations reject equal nodes before calling them (editing_node.js:191-192, 216-217). What the internal functions do when called directly with equal nodes is not modelled.
- EditingTree.NodeTree.RemoveAttributeAsWritten: `delete` of "length" on an array fails (it throws in strict mode), and a numeric name deletes an array element and so removes an attribute. Neither case is modelled; the model keeps every attribute.
- TenCard: `StrLe` is ordinal order by character code. The source's `Array.Sort` of strings uses culture-sensitive comparison, which agrees with it on the digit strings sorted here.
- Dom: `HierarchyRequestError` for a cycle is excluded by a requires, not modelled as a throw. Attribute names are not lower-cased. Style values are stored as given, without the browser's rejection of invalid CSS.

## Findings

| source | as written | input that shows it | evidently intended | confidence | as-written member | corrected member |
|---|---|---|---|---|---|---|
| base/time/time.h:108-110 | `InMicroseconds` returns the stored microsecond count times 1000 | `FromMicroseconds(1).InMicroseconds()` gives 1000 | return the stored count | not executed | Time.InMicrosecondsAsWrittenBreaksRoundTrip | Time.MicrosecondsRoundTrip |
| gfx/gfx.h:94-98 | `SizeF::operator-=` adds the other size | (1, 1) -= (1, 1) gives (2, 2) | subtract, as `operator-` does | not executed | Gfx.SizeSubAssignAsWrittenCounterexample | Gfx.SizeAddThenSubAssign |
| gfx/gfx.h:291-294 | `RectF::operator+` moves the bottom edge up, so the height does not grow | the unit square + (1, 1) keeps height 1 | move the bottom edge down | not executed | Gfx.RectAddAsWrittenCounterexample | Gfx.RectAdd |
| ten-card.cs:483-501 | `checkIt` calls `MoveNext` before trying a triple, so the first operator triple (+, +, +) is never tried | the hand 1, 1, 1, 7 | try the first triple too | not executed | TenCard.CheckItSkipsAllAddition | TenCard.CorrectedFindsAllAddition |
| rz.cs:83-94 | a name that is a proper prefix of the other compares equal to it, and the other way round compares greater | "a" against "ab" gives 0, "ab" against "a" gives 1 | a prefix sorts first | not executed | Renames.CompareNamesNotAntisymmetric | Renames.CompareCorrectedIsOrder |
| src/editing/polyfill.js:45-47 | `has` reads a property of a plain object, so inherited names are members | `new Set().has("toString")` is true | own properties only | not executed | Polyfill.EmptySetHasInherited | Polyfill.HasOwnIsMembership |
| src/editing/editing_node.js:523-538 | `splitText` checks the offset against the whole DOM text, not the node's own range | a node covering "ab" of "abcd", split at 3 | check against the node's own value | not executed | EditingTree.SplitTextAsWrittenOverruns | EditingTree.SplitTextData |
| src/editing/editing_node.js:209-224 | `insertBefore` calls `context.recordInsertBefore`, which the context does not define | any call with a reference node | call `context.insertBefore` | not executed | EditingTree.NodeTree.InsertBeforeAsWritten | EditingTree.NodeTree.InsertBefore |
| src/editing/editing_node.js:462-468 | `removeAttribute` deletes a named property of the attribute array and removes no attribute | removing an attribute that is set | drop the attribute | not executed | EditingTree.NodeTree.RemoveAttributeAsWritten | EditingTree.NodeTree.RemoveAttribute |
| src/editing/editing_selection.js:60-65 | past the end of a container's children, the start is the node after its last child, which enters that child's subtree; an empty container reads a null last child | a caret after the last child of node 1 in the sample tree | take the node after the container's subtree | not executed | SelectionNodes.CollectAsWrittenOverruns | SelectionNodes.CollectedIsRun |
| src/editing/selection_tracker.js:55 | the constructor calls `editing.nodes.maxOffset`, which is undefined, and compares the result with a node | any container with children | compare the offset with the container's `maxOffset` | not executed | SelectionTracking.TrackAsWrittenThrows | SelectionTracking.TrackConvert |
| src/editing/selection_tracker.js:77-78 | converting AFTER_ALL_CHILDREN calls the undefined `editing.nodes.maxOffset` | a position at the end of a container with children | the parent's child count | not executed | SelectionTracking.ConvertAsWrittenThrows | SelectionTracking.TrackConvert |
| src/editing/selection_tracker.js:143-149 | both branches take the start as the anchor, so a FOCUS_IS_START selection comes back with anchor and focus swapped | focus (p, 0), anchor (p, 1), FOCUS_IS_START | the end is the anchor when the focus is the start | not executed | SelectionTracking.EndingAsWrittenSwaps | SelectionTracking.EndingKeepsSelection |
| src/editing/commands/unlink_command.js:86-90 | the caret goes before the node that was at the caret, or to the focus offset in the focus node's parent, which counts the wrong children | `<p>x<a>bar\|</a></p>` | the caret keeps the nodes before it | not executed | UnlinkCommands.CaretAsWrittenMisplaced | UnlinkCommands.UnlinkForCaret |
| src/editing/editor.js:77-80 | the undo record reads `context.instructions`, which `EditingContext` does not define (it has only `instructions_`), so every record's instructions are `undefined` | any completed command, for example one that logs one appendChild | read `context.instructions_` | not executed | Editors.RecordAsWrittenDropsLog | Editors.RecordKeepsLog |
