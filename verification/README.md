# Verified models of the Python standard library

Dafny models of the hard algorithms in the interpreter's Python standard library (`stdlib/Lib`), with proofs of what
callers rely on. `dafny verify dfyconfig.toml` checks everything.

- **Decimal arithmetic** (`_pydecimal.py`). A finite decimal is a sign, a digit string and an exponent; its value is
  an exact real. `DecimalSpec` says once what correct rounding is, for the eight modes, over the whole exponent range
  and with the flags. `DecimalCore` and `DecimalFix` model the digit tests and the single final rounding, and `DecimalForm`
  says which of the decimals of one value the result is; `DecimalModes` adds what sets each mode apart; `DecimalAdd`,
  `DecimalDiv`, `DecimalSqrt` and `DecimalNext` prove that the shortcuts before it (a negligible operand replaced by one
  digit, a sticky last digit, a step by a tenth of the smallest unit) lead to the correctly rounded exact result.
  `DecimalMeaning` says what that gives a caller, `DecimalSpecials` what zeros, infinities and NaNs give.
  `DecimalContext` holds the imperative side: flags set in place, operands normalized in place, Newton's loop.
  `DecimalPower`, `ExactPowers`, `ExactRoots`, `DecimalRefusals` and `DecimalExact` are about exact powers;
  `DecimalText` has printing and parsing, `DecimalLayout` how a number is printed and `DecimalGrammar` which texts are
  read. `Digits`, `Powers` and `Arithmetic` are the arithmetic below.
- **Fractions** (`fractions.py`): reduction, and the best rational approximation of `limit_denominator`.
- **Deep copy** (`copy.py`): `ObjectGraphs` says what a deep copy of a graph with sharing and cycles is, `DeepCopies`
  is the memo-driven copier.
- **Sequence matching and deltas** (`difflib.py`): `Matching` (longest block), `MatchingBlocks` (decomposition and
  collapsing), `Opcodes` (edit script), `Ratios`, `SequenceMatchers` (the class with its index, rows and queue), `Deltas`
  (`Differ` and `restore`).
- **LRU cache and C3 merge** (`functools.py`): `LruCaches` has the steps of any number of threads, every run of them, and
  the dictionary with the circular linked list; `Linearization` has the merge.
- **Combinatorial generators** (`itertools.py`): `LexOrder`, `Combinations`, `Permutations`.
- **Topological sorter** (`graphlib.py`): `Graphs` has the coloured search and the class, `SorterRuns` whole runs of calls.
- **Argument patterns** (`argparse.py`): `ArgPatterns` has the generated expressions and their greedy matching, `ArgMatching`
  the hand-written matcher, `ArgMeaning` what they come to.
- **Binary heap** (`heapq.py`): `Heaps`, over items that compare by a key, so that different items may compare equal.

Methods keep the source's loops and fields and are tied by their contracts to specification functions; the lemmas are
about those functions. Python integers are unbounded, so `int` is exact here.

## Model

| member | source | states |
|---|---|---|
| DecimalCore.RoundDigitsMeaning | stdlib/Lib/_pydecimal.py:1802-1856 | each of the eight digit tests keeps or raises the kept digits exactly as its rounding mode asks of the number they stand for |
| DecimalFix.OperandMeaning | stdlib/Lib/_pydecimal.py:1741-1752 | the text slicing of the rounding branch, the case of fewer than no kept digits included, is division by a power of ten |
| DecimalFix.FixRounds | stdlib/Lib/_pydecimal.py:1700-1790 | whatever exact magnitude the operand stands for, as long as both lie between the same half units of the last place, is rounded once as the mode asks, over normal, subnormal and overflow ranges; Inexact is raised exactly when the result is not the exact value, Overflow, Subnormal and Underflow by their ranges, Rounded exactly when digits are dropped or the value is too large, Clamped exactly for a zero result or a folded exponent |
| DecimalForm.FixInForm | stdlib/Lib/_pydecimal.py:1720-1790 | an exact value that fits at the exponent nearest to the ideal one is returned there, up to folding down, and neither Rounded nor, without folding, Clamped; any other result is Rounded and uses all digits or the least exponent |
| DecimalMeaning.RoundedOnce | stdlib/Lib/_pydecimal.py:1700-1790 | a context and an exact value have only one correctly rounded value |
| DecimalMeaning.OutcomeSettled | stdlib/Lib/_pydecimal.py:1700-1790 | a context, an exact value and an ideal exponent determine the whole outcome: sign, digits, exponent and every flag |
| DecimalMeaning.HalfModesNearest | stdlib/Lib/_pydecimal.py:1813-1836 | in the half modes no representable magnitude is strictly nearer to an exact rational value than the result |
| DecimalMeaning.HalfModesMiddle | stdlib/Lib/_pydecimal.py:1813-1836 | in the half modes any exact value, roots included, lies on the result's side of the middle between the result and any other representable magnitude |
| DecimalMeaning.CeilingLeast | stdlib/Lib/_pydecimal.py:1837-1843 | rounding to the ceiling gives the least representable value not below the exact one |
| DecimalMeaning.FloorGreatest | stdlib/Lib/_pydecimal.py:1844-1850 | rounding to the floor gives the greatest representable value not above the exact one |
| DecimalModes.DownGreatest | stdlib/Lib/_pydecimal.py:1802-1807 | ROUND_DOWN gives the greatest representable magnitude that the exact one reaches |
| DecimalModes.UpLeast | stdlib/Lib/_pydecimal.py:1809-1811 | ROUND_UP gives the least representable magnitude not below the exact one, or an infinity if there is none |
| DecimalModes.HalfTies | stdlib/Lib/_pydecimal.py:1813-1827 | a tie goes away from zero in ROUND_HALF_UP and towards it in ROUND_HALF_DOWN |
| DecimalModes.EvenTie | stdlib/Lib/_pydecimal.py:1829-1835 | a tie in ROUND_HALF_EVEN ends in an even digit |
| DecimalModes.NeverZeroOrFive | stdlib/Lib/_pydecimal.py:1851-1856 | an inexact result in ROUND_05UP is truncated, unless that ends in 0 or 5; then it is one unit more |
| DecimalModes.FarOverflow | stdlib/Lib/_pydecimal.py:383-419 | a unit beyond the largest magnitude the half modes and ROUND_UP give an infinity, ROUND_DOWN and ROUND_05UP the largest magnitude |
| DecimalAdd.StickyTotal | stdlib/Lib/_pydecimal.py:5725-5751 | with a negligible operand replaced by one digit, the working sum and the exact sum lie between the same half units of the last place |
| DecimalAdd.WorkingSumAgrees | stdlib/Lib/_pydecimal.py:1245-1280 | the working sum of two nonzero operands has the sign of the exact sum and agrees with it wherever rounding looks |
| DecimalAdd.AddRounds | stdlib/Lib/_pydecimal.py:1196-1280 | addition is the exact sum rounded once, in all modes and the whole range: value, digits, exponent (the ideal one is the smaller of the operands') and every flag; an exact zero has the sign the mode asks for and the ideal exponent, or the nearest in range with Clamped |
| DecimalAdd.SubRounds | stdlib/Lib/_pydecimal.py:1284-1296 | subtraction is the exact difference rounded once, in the same sense |
| DecimalDiv.InexactQuotient | stdlib/Lib/_pydecimal.py:1400-1411 | when the integer division leaves a remainder, the sticky last digit is as good as the exact quotient |
| DecimalDiv.ExactQuotientKept | stdlib/Lib/_pydecimal.py:1412-1417 | an exact quotient keeps its value, and loses its zeros until the ideal exponent and no further; above it only when it has more digits than fit |
| DecimalDiv.DivRounds | stdlib/Lib/_pydecimal.py:1399-1420 | division of nonzero finite operands is the exact quotient rounded once: value, digits, exponent (the ideal one is the difference of the operands') and every flag |
| DecimalSqrt.InexactRoot | stdlib/Lib/_pydecimal.py:2840-2843 | an inexact integer root with a last digit moved off 0 and 5 is as good as the exact root |
| DecimalSqrt.ExactRoot | stdlib/Lib/_pydecimal.py:2832-2839 | an exact root is divisible by the scaling, and is returned at the ideal exponent |
| DecimalSqrt.SqrtRounds | stdlib/Lib/_pydecimal.py:2796-2857 | the square root of every positive finite operand is the exact root rounded half-even, in every context: value, digits, exponent (the ideal one is half the operand's) and every flag |
| DecimalSqrt.ExactRootReturned | stdlib/Lib/_pydecimal.py:2832-2857 | a root that is representable at half the operand's exponent is the result, neither Inexact nor Rounded |
| DecimalSqrt.SqrtIsNearest | stdlib/Lib/_pydecimal.py:2756-2857 | no representable value is nearer to the real root than a finite result |
| DecimalSpecials.NaNDecided | stdlib/Lib/_pydecimal.py:784-814 | exactly one operand decides: a signaling NaN before a quiet one, the first before the second; the answer is made from it |
| DecimalSpecials.NaNSettled | stdlib/Lib/_pydecimal.py:1688-1698 | the answer to a NaN is determined: its sign, quietness, and the last digits of its payload that fit without leading zeros |
| DecimalSpecials.AddLaws | stdlib/Lib/_pydecimal.py:1196-1220 | sums with an infinite or NaN operand, for all operands: a NaN exactly for a NaN operand or opposite infinities, InvalidOperation exactly for a signaling one or opposite infinities |
| DecimalSpecials.SubLaws | stdlib/Lib/_pydecimal.py:1284-1296 | differences likewise |
| DecimalSpecials.DivLaws | stdlib/Lib/_pydecimal.py:1363-1397 | quotients for all operands: the sign; DivisionByZero exactly for a nonzero finite number by zero, which gives an infinity; InvalidOperation exactly for a signaling NaN, zero by zero or infinity by infinity; a finite number by infinity is a zero at the least exponent, with Clamped alone; zero by a number is a zero at the difference of the exponents |
| DecimalSpecials.SqrtLaws | stdlib/Lib/_pydecimal.py:2756-2775 | square roots for all operands: an infinity and zeros give themselves, zeros at half the exponent; InvalidOperation exactly for a signaling NaN or a negative operand that is not zero |
| DecimalNext.NoneWithin | stdlib/Lib/_pydecimal.py:3559-3603 | nothing representable lies within a tenth of the smallest unit above a representable value |
| DecimalNext.NextPlusLeast | stdlib/Lib/_pydecimal.py:3582-3603 | `next_plus` gives the least representable value strictly above a finite operand, or infinity when there is none |
| DecimalNext.NextPlusInfinite | stdlib/Lib/_pydecimal.py:3591-3594 | from minus infinity the least representable value; plus infinity stays |
| DecimalNext.NextMinusGreatest | stdlib/Lib/_pydecimal.py:3559-3580 | `next_minus` gives the greatest representable value strictly below a finite operand, or minus infinity |
| DecimalNext.NextMinusInfinite | stdlib/Lib/_pydecimal.py:3568-3571 | from plus infinity the greatest representable value; minus infinity stays |
| DecimalSpecials.NextLaws | stdlib/Lib/_pydecimal.py:3559-3603 | the next values raise no flag except InvalidOperation for a signaling NaN, and are NaN only for a NaN |
| DecimalContext.NormalizeInPlace | stdlib/Lib/_pydecimal.py:5725-5751 | rewriting both operands in place leaves the pair that the specification names, in the order given |
| DecimalContext.Context.RaiseError | stdlib/Lib/_pydecimal.py:4109-4130 | with traps off a signal sets its flag unless it is ignored, and nothing else changes |
| DecimalContext.Context.FixDecimal | stdlib/Lib/_pydecimal.py:1700-1790 | the result and the flags set in place are those of the correct rounding above |
| DecimalContext.Context.AddDecimals | stdlib/Lib/_pydecimal.py:1196-1280 | addition as a method, NaN and infinities included: the result and the flags set are those of the specification |
| DecimalContext.Context.DivideDecimals | stdlib/Lib/_pydecimal.py:1363-1420 | division as a method, for NaNs, infinities and zeros too: the result and the flags set are those of the specification, whose cases `DivLaws` and `DivRounds` settle |
| DecimalContext.NewtonSquareRoot | stdlib/Lib/_pydecimal.py:2822-2829 | the Newton loop from any power of ten above the root ends at floor(sqrt(c)) |
| DecimalContext.Context.SquareRoot | stdlib/Lib/_pydecimal.py:2756-2857 | the square root as a method, for every operand: the result and the flags set are those of the specification |
| DecimalContext.Context.NextPlusDecimal | stdlib/Lib/_pydecimal.py:3582-3603 | `next_plus` as a method, for every operand: the specified value, and no flag set but InvalidOperation for a signaling NaN |
| DecimalContext.Context.NextMinusDecimal | stdlib/Lib/_pydecimal.py:3559-3580 | `next_minus` as a method, for every operand: the specified value, and no flag set but InvalidOperation for a signaling NaN |
| DecimalPower.SqrtNearest | stdlib/Lib/_pydecimal.py:5778-5791 | from every positive start the loop ends, at the integer nearest to the square root |
| DecimalPower.NearestRootIsNearest | stdlib/Lib/_pydecimal.py:5778-5791 | no other integer is closer to the real square root |
| DecimalPower.DivNearestMeaning | stdlib/Lib/_pydecimal.py:5801-5807 | `_div_nearest` gives a closest integer to the quotient, the even one in a tie |
| DecimalPower.LshiftExactMeaning | stdlib/Lib/_pydecimal.py:5757-5776 | the exact shift answers exactly when the shifted number is an integer, and then with it |
| DecimalPower.NewtonRoot | stdlib/Lib/_pydecimal.py:2292-2302 | the n-th root loop ends at the floor of the root, and reports exactly whether the number is an n-th power |
| DecimalExact.Log10LowerBoundSound | stdlib/Lib/_pydecimal.py:6087-6094 | 10 to the bound is at most c to the hundredth power, and the bound is positive above one |
| DecimalExact.SizeTestSound | stdlib/Lib/_pydecimal.py:2307-2310 | when the size test gives up, the power has more than p digits |
| ExactPowers.PowerUnique | stdlib/Lib/_pydecimal.py:2113-2119 | at most one positive number is x^y, by whatever ratio y is written |
| ExactRoots.CommonRoot | stdlib/Lib/_pydecimal.py:2113-2119 | an n-th power that is an m-th power, m and n coprime, is the m-th power of an n-th root: what makes the root test exact |
| DecimalRefusals.TenPowerRefused | stdlib/Lib/_pydecimal.py:2162-2169 | for x a power of ten, no integer exponent means no exact power |
| DecimalRefusals.BaseRefused | stdlib/Lib/_pydecimal.py:2181-2258 | for y < 0 an exact power needs a coefficient that is a power of two or of five |
| DecimalRefusals.InverseRefused | stdlib/Lib/_pydecimal.py:2216-2261 | for such a coefficient, every remaining test fails only when there is no exact power of p digits, the bounds 93/65, 10/3 and 28/65 included |
| DecimalRefusals.EarlyTests | stdlib/Lib/_pydecimal.py:2268-2273 | the two early tests on a small exponent fail only when there is no exact power |
| DecimalRefusals.RootExists | stdlib/Lib/_pydecimal.py:2274-2301 | for y = m/n in lowest terms, an exact power means an n-th root of coefficient and exponent, and more than n bits |
| DecimalExact.FiveExponent | stdlib/Lib/_pydecimal.py:2231-2240 | finds the exponent of a power of five, and finds none only for other numbers |
| DecimalExact.NegativeBranch | stdlib/Lib/_pydecimal.py:2181-2263 | for y < 0 an answer is given exactly when some number of at most p digits is x^y, and it is that number |
| DecimalExact.PositiveBranch | stdlib/Lib/_pydecimal.py:2265-2325 | for y > 0 an answer is given exactly when some number of at most p digits is x^y, and it is that number |
| DecimalExact.PowerExact | stdlib/Lib/_pydecimal.py:2090-2325 | `_power_exact` answers exactly when some decimal of at most p digits is x^y; the answer is x^y, and its exponent is as near to the ideal one as p digits allow |
| DecimalText.RoundTrip | stdlib/Lib/_pydecimal.py:1070-1120 | parsing the scientific text of any decimal, NaN payloads and infinities included, gives back the same triple |
| DecimalText.EngineeringKeepsValue | stdlib/Lib/_pydecimal.py:1094-1120 | engineering notation reads back with the same sign and value, and its exponent is a multiple of three |
| DecimalLayout.Layout | stdlib/Lib/_pydecimal.py:1070-1120 | where the digits, point and exponent of a printed number stand: no exponent exactly for an exponent up to 0 and an adjusted one from -6 (or one that engineering notation makes zero), then with as many digits after the point as the exponent says; else one digit before the point and the adjusted exponent, or one to three and a multiple of three; the letter is the one the context asks for |
| DecimalLayout.OneLayout | stdlib/Lib/_pydecimal.py:1070-1120 | a text has only one such layout, so it is a property of the text |
| DecimalLayout.SpecialTexts | stdlib/Lib/_pydecimal.py:1076-1083 | the texts of the infinities and NaNs |
| DecimalGrammar.ParseIff | stdlib/Lib/_pydecimal.py:586-622 | the constructor reads a text as d if and only if it spells d: blanks around, underscores anywhere, an optional sign, and digits with an optional point and exponent, or a word for infinity or NaN in any case of letters |
| DecimalGrammar.DropConcat | stdlib/Lib/_pydecimal.py:587 | removing underscores works piece by piece, in order |
| DecimalGrammar.DropOne | stdlib/Lib/_pydecimal.py:587 | an underscore goes, any other character stays |
| DecimalGrammar.ParseAccepts | stdlib/Lib/_pydecimal.py:6205-6222 | every text made of such parts is read, as what the parts stand for |
| DecimalGrammar.ParseParses | stdlib/Lib/_pydecimal.py:6205-6222 | every text that is read is made of such parts |
| DecimalText.ParseNumberText | stdlib/Lib/_pydecimal.py:6205-6222 | what the parser's expression reads from digits around a point and an exponent |
| Fractions.Gcd | stdlib/Lib/fractions.py:10-16 | the loop computes Euclid's function of the absolute values |
| Fractions.EuclidIsGcd | stdlib/Lib/fractions.py:10-16 | that function divides both numbers and is a multiple of every common divisor |
| Fractions.MakeReduces | stdlib/Lib/fractions.py:51-61 | the two-integer constructor refuses exactly a zero denominator, and otherwise keeps the value and gives lowest terms with a positive denominator |
| Fractions.CompareDistances | stdlib/Lib/fractions.py:280-292 | comparing the two computed differences decides which bound is closer |
| Fractions.NoneBetween | stdlib/Lib/fractions.py:353-372 | any fraction within the limit is no closer than one of two bracketing neighbours |
| Fractions.LoopBracket | stdlib/Lib/fractions.py:353-366 | when the loop stops, the two candidates have determinant one and bracket the number |
| Fractions.ClosestIsBound | stdlib/Lib/fractions.py:365-366 | nothing but the two bounds can be a closest fraction |
| Fractions.TieOrder | stdlib/Lib/fractions.py:365-372 | in a tie the last convergent has the smaller denominator, or is the smaller of two integers |
| Fractions.LimitDenominator | stdlib/Lib/fractions.py:345-372 | the loop terminates without dividing by zero; no fraction with a denominator within the limit is closer than the result, and of those that are as close it has the smallest denominator, or is the smaller of two integers |
| ObjectGraphs.SameShape | stdlib/Lib/copy.py:236-270 | following the same positions from the copy leads to the image of where they lead in the original |
| ObjectGraphs.SameSharing | stdlib/Lib/copy.py:236-270 | two paths meet in the copy exactly when they meet in the original |
| ObjectGraphs.NothingMutableShared | stdlib/Lib/copy.py:236-270 | no path in the copy leads to a list or dictionary of the original |
| ObjectGraphs.PureIff | stdlib/Lib/copy.py:41-49 | what needs no copy is exactly what no path leads from to a list or dictionary |
| ObjectGraphs.LeftAlone | stdlib/Lib/copy.py:41-49 | at the end of every path stands the original object itself exactly when nothing mutable can be reached from it |
| ObjectGraphs.FinishedIsDeep | stdlib/Lib/copy.py:236-270 | once every copy is finished, the image is a deep copy: same shape and contents, same sharing, nothing mutable shared, and an object is left as it is exactly when no list or dictionary can be reached from it |
| DeepCopies.Copier.DeepCopy | stdlib/Lib/copy.py:236-270 | terminates on cyclic graphs, disturbs no open copy, and gives the image that the memo settles on |
| DeepCopies.Copier.CopyList | stdlib/Lib/copy.py:33-38 | the copy of a list is made before anything its items need, is in the memo, and ends up with the images of the items |
| DeepCopies.Copier.CopyDict | stdlib/Lib/copy.py:52-57 | the copy of a dictionary is made before anything its keys and values need, is in the memo, and ends up with their images |
| DeepCopies.Copier.CopyEntry | stdlib/Lib/copy.py:52-57 | of an entry the value is copied first and the key after it |
| DeepCopies.Copier.CopyTuple | stdlib/Lib/copy.py:41-49 | a tuple is its own copy exactly when no list or dictionary can be reached from it; one re-entered through its items keeps the copy made meanwhile, any other is rebuilt |
| DeepCopies.DeepCopyGraph | stdlib/Lib/copy.py:236-270 | `deepcopy` of any finite graph of lists, dictionaries, tuples and atoms is a deep copy in that sense, and the original is unchanged |
| Matching.BestMeaning | stdlib/Lib/difflib.py:394-412 | the row-by-row search finds the longest block of keyed elements, earliest in a and then in b |
| Matching.FindLongestIsBlock | stdlib/Lib/difflib.py:419-444 | with any junk and popular elements the result is an equal block in bounds that contains the longest keyed one |
| Matching.FindLongestExtends | stdlib/Lib/difflib.py:419-444 | the result is the longest keyed block, extended to a core without junk that cannot grow by an equal element that is not junk, and from there by equal junk alone until that ends too |
| Matching.OneExtension | stdlib/Lib/difflib.py:419-444 | this extension of a block is unique |
| Matching.LongestOfAll | stdlib/Lib/difflib.py:336-444 | with every element of the window keyed the result is the longest of all blocks and the earliest of those |
| Matching.AlwaysLongestIff | stdlib/Lib/difflib.py:336-352 | every search on b finds the longest block if and only if every element of b is keyed |
| MatchingBlocks.BlocksInOrder | stdlib/Lib/difflib.py:465-489 | the decomposition gives equal blocks, increasing and disjoint in both sequences |
| MatchingBlocks.LongestIsTaken | stdlib/Lib/difflib.py:465-489 | the longest block is one of the decomposition, and those before and after it are the decompositions of its sides |
| MatchingBlocks.NothingLeftOver | stdlib/Lib/difflib.py:465-489 | no pair of equal keyed elements fits between the blocks of a window |
| MatchingBlocks.CollapseInOrder | stdlib/Lib/difflib.py:491-510 | collapsed blocks stay in order and are never adjacent |
| MatchingBlocks.MatchesKeepPairs | stdlib/Lib/difflib.py:491-510 | collapsing matches exactly the pairs of the decomposition |
| MatchingBlocks.MatchesMeaning | stdlib/Lib/difflib.py:446-515 | the matching blocks are equal, increasing, disjoint, never adjacent, and end in the sentinel |
| MatchingBlocks.MatchesAreMaximal | stdlib/Lib/difflib.py:446-515 | no further pair of equal elements that are neither junk nor popular fits between the blocks |
| Opcodes.ScriptMeaning | stdlib/Lib/difflib.py:546-570 | the script tiles both sequences, each step tells the truth, and replaying it on a gives b |
| Opcodes.ScriptTakesTurns | stdlib/Lib/difflib.py:546-570 | steps that copy and steps that change alternate |
| Opcodes.ScriptCopies | stdlib/Lib/difflib.py:546-570 | the copying steps are exactly the non-empty blocks |
| Ratios.MatchesBound | stdlib/Lib/difflib.py:647-674 | the blocks never cover more than the two sequences have in common with repetition |
| Ratios.RatioBounds | stdlib/Lib/difflib.py:622-686 | the quick ratio bounds the ratio, the real quick ratio bounds both, and all are at most one |
| Ratios.RatioOneIff | stdlib/Lib/difflib.py:622-645 | the ratio is one if and only if the sequences are identical, whatever is junk or popular |
| Ratios.DisjointRatio | stdlib/Lib/difflib.py:622-674 | without a common element the ratio and the quick ratio are zero |
| SequenceMatchers.KeysComplete | stdlib/Lib/difflib.py:297-334 | every element of b is keyed if and only if nothing is junk and nothing popular |
| SequenceMatchers.PopularMeaning | stdlib/Lib/difflib.py:324-334 | an element is popular exactly when there are 200 elements or more, it is not junk, and its repetitions are more than one percent |
| SequenceMatchers.PopularExample | stdlib/Lib/difflib.py:324-334 | without any junk, two hundred equal elements make the search miss the longest block |
| SequenceMatchers.SequenceMatcher.ChainB | stdlib/Lib/difflib.py:297-334 | the index holds, for each element neither junk nor popular, its places in order |
| SequenceMatchers.SequenceMatcher.FindLongestMatch | stdlib/Lib/difflib.py:336-444 | the loops over rows, and the four closing loops, compute the specified block: the longest keyed one, extended as above |
| SequenceMatchers.SequenceMatcher.GetMatchingBlocks | stdlib/Lib/difflib.py:446-515 | the work queue terminates, and gives the sorted and collapsed blocks of the recursive decomposition |
| SequenceMatchers.SequenceMatcher.GetOpcodes | stdlib/Lib/difflib.py:517-570 | the opcodes tile both sequences, alternate, turn a into b, and copy exactly the matching blocks |
| SequenceMatchers.SequenceMatcher.Ratio | stdlib/Lib/difflib.py:622-645 | twice the size of the matching blocks as a share of both lengths; one exactly for identical sequences |
| SequenceMatchers.SequenceMatcher.QuickRatio | stdlib/Lib/difflib.py:647-674 | counting with a dictionary gives the size of the common multiset; twice that, as a share of both lengths, bounds the ratio from above |
| SequenceMatchers.SequenceMatcher.RealQuickRatio | stdlib/Lib/difflib.py:676-686 | twice the shorter length as a share of both bounds the quick ratio from above, and is at most one |
| SequenceMatchers.SequenceMatcher.SetSeq1 | stdlib/Lib/difflib.py:227-251 | a new first sequence leaves the index of the second and drops the computed blocks and opcodes; the object held already changes nothing |
| SequenceMatchers.SequenceMatcher.SetSeq2 | stdlib/Lib/difflib.py:253-295 | a new second sequence is indexed afresh, and everything computed is dropped; the object held already changes nothing |
| Deltas.PlainReplace | stdlib/Lib/difflib.py:909-921 | a block replaced as a whole, the shorter side first, is a delta of the two blocks |
| Deltas.ShorterFirst | stdlib/Lib/difflib.py:909-921 | the lines of the shorter side come first, those of the first list when neither is shorter |
| Deltas.QFormat | stdlib/Lib/difflib.py:1029-1054 | the four lines of a similar pair, with guide lines only where something is marked, are a delta of the pair |
| Deltas.GuidesFollow | stdlib/Lib/difflib.py:1029-1054 | each line of the pair is followed by its own guide line, if it has one |
| Deltas.KeptAt | stdlib/Lib/difflib.py:737-742 | a blank mark under a blank character shows that character, every other mark stays |
| Deltas.BestPair | stdlib/Lib/difflib.py:949-974 | the nested search finds the first different pair of the highest score, unless a cheaper score is below the exact one and hides it, and the first equal pair |
| Deltas.OwnBestIsBest | stdlib/Lib/difflib.py:949-974 | with the scores that the matcher computes, nothing is hidden: the pair found is the first of the most similar ones among all different lines |
| Deltas.Differ.Marks | stdlib/Lib/difflib.py:994-1012 | every character has the mark of the step that covers it, and the same characters are unmarked in both lines |
| Deltas.Differ.FancyReplace | stdlib/Lib/difflib.py:923-1015 | the mutual recursion terminates; whatever the scores, the lines are a delta of the two blocks: those around the first most similar pair, if it is similar enough, else around the first equal pair, else the blocks as a whole |
| Deltas.Differ.AlikeIsTaken | stdlib/Lib/difflib.py:935-1012 | with the matcher's own scores: if some different lines are three quarters alike, the replacement is built around the first of the most similar pairs |
| Deltas.Differ.NoneAlike | stdlib/Lib/difflib.py:975-987 | otherwise it is built around the first pair of equal lines, and without one the block is replaced as a whole |
| Deltas.Differ.Compare | stdlib/Lib/difflib.py:863-902 | the whole comparison is a delta of the two lists, and consists of one piece for each step of the script between them |
| Deltas.Restore | stdlib/Lib/difflib.py:2049-2079 | `restore` gives the lines of the side asked for, and refuses any other number |
| Deltas.Differ.CompareAndRestore | stdlib/Lib/difflib.py:2049-2079 | restoring side one of a comparison gives a, side two gives b |
| LruCaches.EveryRun | stdlib/Lib/functools.py:666-737 | in every run of lookups, stores, computations and clears of any number of threads: keys distinct, at most maxsize, full exactly at maxsize, in the order of last use; since the last clear, hits are the lookups answered at once and misses those that started a computation; every answer is the function's |
| LruCaches.CountsOfRun | stdlib/Lib/functools.py:666-737 | the counters of every run are the numbers of lookups, since the last clear, answered at once and not |
| LruCaches.RunFollowsRule | stdlib/Lib/functools.py:666-737 | every run keeps the last maxsize different keys used, answers those at once and computes all others |
| LruCaches.CacheOfRun | stdlib/Lib/functools.py:666-737 | in every reachable state the size bound holds and the key used last is kept |
| LruCaches.LruCache.Get | stdlib/Lib/functools.py:672-687 | the locked lookup answers exactly for a key it holds; then it moves its link behind all others and counts a hit, otherwise it leaves the circle alone and counts a miss |
| LruCaches.LruCache.Put | stdlib/Lib/functools.py:689-721 | the locked store does nothing for a key that came in meanwhile; when full it stores the entry in the old root and makes the oldest link the root, else it adds one new link; dictionary and circle stay in step |
| LruCaches.LruCache.Clear | stdlib/Lib/functools.py:730-737 | empties dictionary, circle and counters, from any state |
| LruCaches.LruCache.Info | stdlib/Lib/functools.py:725-728 | reports the counters, the limit and the number of entries |
| Linearization.MergeSound | stdlib/Lib/functools.py:762-787 | a merge has each input element once, nothing else, and contains every input sequence in order |
| Linearization.MergeComplete | stdlib/Lib/functools.py:762-787 | when some order without duplicates contains every input sequence, the merge does not fail |
| Linearization.MergeSucceedsIff | stdlib/Lib/functools.py:762-787 | the merge succeeds if and only if such an order exists |
| Linearization.CandidateIsFirst | stdlib/Lib/functools.py:770-780 | the candidate taken is the first head that no remaining sequence has in its tail |
| Linearization.RemovalShrinks | stdlib/Lib/functools.py:782-787 | each round shortens the remaining sequences |
| Linearization.C3Merge | stdlib/Lib/functools.py:762-787 | the loop that empties the sequences in place gives that merge, if and only if there is one and no list object that holds something is given twice; otherwise it ends in an error, the inconsistency only when there is no merge |
| Linearization.GivenTwice | stdlib/Lib/functools.py:784-787 | one list object given twice runs empty between two looks at its head, where equal separate lists merge |
| LexOrder.ListedOnce | stdlib/Lib/itertools.py:114-160 | what is listed in dictionary order is listed once |
| Combinations.NextIsNext | stdlib/Lib/itertools.py:124-133 | no combination lies between one and its successor |
| Combinations.Combinations | stdlib/Lib/itertools.py:114-133 | yields one selection for every strictly increasing choice of places, each once, in dictionary order |
| Permutations.NextIsNext | stdlib/Lib/itertools.py:146-160 | no arrangement lies between one and what the rotations and the swap make of it |
| Permutations.Permutations | stdlib/Lib/itertools.py:136-160 | yields one selection for every arrangement of r places, each once, in dictionary order, and then stops |
| Graphs.OrderedHasNoCycle | stdlib/Lib/graphlib.py:36-67 | a graph with a topological order of all nodes has no directed cycle |
| Graphs.DetectCycle | stdlib/Lib/graphlib.py:39-62 | the search with an explicit stack reports a cycle if and only if the graph has one, self-loops included |
| Graphs.DoneKeeps | stdlib/Lib/graphlib.py:81-93 | a proper report offers exactly the nodes whose last predecessor it finishes, once each, in topological order |
| Graphs.ReadyInOrder | stdlib/Lib/graphlib.py:87-93 | a report adds, behind what was ready before, those of its dependents whose count reaches zero, in the order in which the nodes were added |
| Graphs.InsertedInOrder | stdlib/Lib/graphlib.py:23-34 | new nodes are appended in the order in which a call of `add` first names them |
| Graphs.AlwaysProgress | stdlib/Lib/graphlib.py:68-93 | while a node is unfinished, some unfinished node is ready or handed out |
| Graphs.TopologicalSorter.Add | stdlib/Lib/graphlib.py:23-34 | adds the node and its predecessors, counts each predecessor once, and refuses after `prepare` |
| Graphs.TopologicalSorter.Prepare | stdlib/Lib/graphlib.py:36-66 | CycleError exactly when the graph has a cycle; otherwise the books are in order, and the nodes without predecessors are ready in the order in which they were added |
| Graphs.TopologicalSorter.GetReady | stdlib/Lib/graphlib.py:73-79 | hands out the ready nodes in order, and keeps the books |
| Graphs.TopologicalSorter.Done | stdlib/Lib/graphlib.py:81-93 | counts every report up to the first unknown node, and keeps the books for proper reports |
| Graphs.TopologicalSorter.StaticOrder | stdlib/Lib/graphlib.py:95-102 | terminates with a topological order of all nodes, each once, or CycleError exactly when there is a cycle |
| SorterRuns.OfferedByCount | stdlib/Lib/graphlib.py:68-93 | whatever is reported, a node is offered once, and exactly when its predecessors were named in as many reports, repetitions counted, as it has predecessors |
| SorterRuns.ActiveTruthfulIff | stdlib/Lib/graphlib.py:68-93 | `is_active` is true exactly while a node is unfinished, at every moment of a run, if and only if the run makes fewer reports than nodes or the first ones, up to that number, are distinct, handed out and unfinished |
| SorterRuns.OfferedTruthfulIff | stdlib/Lib/graphlib.py:73-93 | a node is offered exactly when its predecessors are finished, at every moment of a run, if and only if the reports about them are fewer than they are or the first ones, up to that number, are proper |
| SorterRuns.ProperRun | stdlib/Lib/graphlib.py:68-93 | in every run of proper reports what is offered is in topological order and the books are in step |
| SorterRuns.OfferedTooEarly | stdlib/Lib/graphlib.py:81-93 | reporting one of two predecessors twice offers a node whose other predecessor is unfinished |
| SorterRuns.InactiveTooEarly | stdlib/Lib/graphlib.py:68-93 | reporting one of two nodes twice makes the sorter inactive while the other is unfinished |
| SorterRuns.DoneIsReports | stdlib/Lib/graphlib.py:81-93 | `done` with several nodes is what the single reports are, in order |
| ArgPatterns.FirstRemoval | stdlib/Lib/argparse.py:2364-2367 | the first textual replacement removes exactly the `-*` pieces of an expression |
| ArgMatching.PatternMeaning | stdlib/Lib/argparse.py:2327-2370 | the text built for each action parses as the items one reads off it, after the removals for options too |
| ArgMatching.MatchIsExpected | stdlib/Lib/argparse.py:2084-2108 | where the greedy, backtracking match of the expression ends, for every action and every text |
| ArgMatching.MatchNargsCount | stdlib/Lib/argparse.py:2110-2199 | the hand-written matcher returns the length matched by the expression, None exactly when it does not match, except for an option with negative nargs |
| ArgMatching.NegativeOptionDiffers | stdlib/Lib/argparse.py:2143-2149 | for such an option the expression matches nothing, and the matcher returns the negative number |
| ArgMatching.MatchArgument | stdlib/Lib/argparse.py:2084-2108 | the fallback to the expression never finds anything the matcher missed; the error is the one for the action |
| ArgMeaning.LongestTaken | stdlib/Lib/argparse.py:2084-2108 | every action takes the longest stretch of the text whose arguments it admits (one, at most one, any number, at least one, exactly n, all that is left), dashes not counted, and matches nothing exactly when there is no such stretch |
| ArgMeaning.RefusalMeaning | stdlib/Lib/argparse.py:2094-2105 | what the error says was expected is what the action admits |
| Heaps.RootIsLeast | stdlib/Lib/heapq.py:3-36 | the root of a heap is a least element |
| Heaps.Heap.SiftDown | stdlib/Lib/heapq.py:60-71 | moves an item up to its place: the order holds again, and the items are the same |
| Heaps.Heap.SiftUp | stdlib/Lib/heapq.py:73-87 | sinking the hole to a leaf whatever the item and then repairing upward restores the order with the same items |
| Heaps.Heap.Push | stdlib/Lib/heapq.py:3-6 | keeps the order and adds the item |
| Heaps.Heap.Pop | stdlib/Lib/heapq.py:8-16 | returns a least element, keeps the order and the other items, and reports an empty heap |
| Heaps.Heap.PushPop | stdlib/Lib/heapq.py:18-23 | keeps the order; the item returned is a least one of the heap with the new item |
| Heaps.Heap.Replace | stdlib/Lib/heapq.py:25-30 | keeps the order; returns a least element of the old heap and takes in the new item |
| Heaps.Heap.Heapify | stdlib/Lib/heapq.py:32-36 | makes a heap of any list, with the same items |

## Findings

Where the code does not do what it promises, or does more than it promises.

| finding | source | shown by |
|---|---|---|
| `find_longest_match` promises the longest block whenever no junk is declared. In a sequence of 200 or more elements, elements that occur too often are dropped from the index as well, and the longest block can then be missed. It is always found if and only if no element of b is junk or popular. | stdlib/Lib/difflib.py:336-352 against 324-334 | `Matching.AlwaysLongestIff`, `SequenceMatchers.KeysComplete`, `SequenceMatchers.PopularExample` |
| `done` accepts a node that was not handed out and a node already reported, and counts it again. Then a node can be offered while a predecessor is unfinished, and `is_active` can turn false while nodes are unfinished. What the sorter says is true at every moment if and only if the first reports, as many as there are nodes to wait for, are distinct, handed out and unfinished, or are too few to matter. | stdlib/Lib/graphlib.py:81-93 | `SorterRuns.ActiveTruthfulIff`, `SorterRuns.OfferedTruthfulIff`, `SorterRuns.OfferedTooEarly`, `SorterRuns.InactiveTooEarly` |
| For an option whose `nargs` is a negative number, the matcher returns that number, where the expression it stands for matches the empty text. For every other action and text they agree. | stdlib/Lib/argparse.py:2143-2149 against 2360-2367 | `ArgMatching.MatchNargsCount`, `ArgMatching.NegativeOptionDiffers` |
| `_c3_merge` fails with an index error, or reports an inconsistency, whenever a list object that is not empty is given twice, where equal separate lists merge. It returns the merge if and only if there is one and no such list is given twice. | stdlib/Lib/functools.py:784-787 | `Linearization.C3Merge`, `Linearization.GivenTwice` |
| A negative `r` is not refused: `combinations` then gives what `r == 0` gives, `permutations` a single result without the last `-r` elements. | stdlib/Lib/itertools.py:114-160 | `Combinations.Combinations`, `Permutations.Permutations` |

## Left out

- Decimal: traps raised as exceptions (traps are off and flags are state), thread-local contexts, pickling, `__format__`, hashing, and conversion from floats.
- Decimal: `ln`, `log10`, `exp` and the inexact part of `__pow__`, whose error bounds need real logarithms; multiplication, remainder, comparison and the logical operations, which would only add easy members.
- Decimal: parsing takes ASCII text; other Unicode digits and blanks are not modelled. The text is matched by functions on strings, not by an expression engine.
- `_power_exact` is called with x positive and different from one and y nonzero, as its documentation demands; the special cases in `__pow__` are not modelled.
- Fractions: construction from strings, floats and decimals, and the other operators.
- Deep copy: sets, deques, weak references, custom classes and the entry of the memo that keeps originals alive. Keys of a copied dictionary are not compared, so each entry keeps its own place; that originals stay unchanged by other threads is taken for granted.
- `difflib`: `get_close_matches`, context and unified formatting, HTML output. Similarity scores in `Differ` are arbitrary functions, of which the matcher's own are one case; loops over junk sets are set comprehensions; `list.sort` is modelled by insertion.
- `lru_cache`: the branches for maxsize 0 and None, and the making of keys from arguments. A locked section is one step; a key's equality has no effects.
- `functools`: `_c3_mro` and `_compose_mro` depend on class objects.
- `itertools`: the other generators. A generator is modelled by the whole list of what it yields.
- `graphlib`: the constructor's graph argument, which is a loop of calls of `add`.
- `argparse`: everything but the three matching functions, and `nargs` values that are none of the documented ones.
- `heapq`: `nlargest`, `nsmallest` and `merge`, which sort. Items compare by an integer key, without effects.
