# CS211 coursework cores in Dafny

This project models the small pieces of sequential logic in a CIS 211
coursework repository and proves what they compute. The pieces are:

- **Bit fields** (`BitFields`, `bitfield.dfy`): `sign_extend`, and
  `BitField.extract`, `insert` and `extract_signed`. They work on a word
  that the source documents as a 32-bit unsigned integer and handles as an
  unbounded Python integer. Python's `&` on non-negative integers is the
  recursive `NatAnd` in `Binary` (`binary.dfy`). That module also holds the
  powers of two and the digit-list values that the other modules share.
- **Binary numbers** (`BinaryNumbers`, `binary_number.dfy`): lab7's
  `BinaryNumber`, a list of binary digits with the most significant digit
  first. It has digit-wise `|` and `&`, one-place left and right shifts, and
  `extract` of a range of digit positions.
- **Points and list runs** (`Points`, `points.dfy`; `ListRuns`, `runs.dfy`):
  - `Point.move` in both forms, and `Point.__eq__`;
  - `all_same`, `dedup` and `max_run`, which are index-walking loops modelled
    as methods with loop invariants.
- **Intervals** (`Intervals`, `intervals.dfy`): lab1's closed integer
  intervals, with constructor validation, `contains`, `overlaps`, `__eq__` and
  `join`.
- **Appointments** (`Appointments`, `appointments.dfy`): `Appt` has
  time-only equality, start-only ordering, half-open overlap and
  `intersect`. `Agenda` has `append`, a stable sort by start, `__len__`,
  `__eq__`, and the `conflicts` sweep. `conflicts` starts each inner scan
  just after `index(appt)`, the first appointment with the same period.
- **Stack** (`Stacks`, `stack.dfy`): push, pop and is-empty over a list
  whose end is the top.

Python exceptions become the `Err` case of `Wrappers.Result`: `ValueError`
for a bad interval or mismatched digit lists, and `IndexError` for a shift
of an empty list or a pop from an empty stack. Python `assert`s become
preconditions. A method that mutates its object is a function that returns
the new state. Times are whole minutes.

## Model

| member | source | states |
|---|---|---|
| BitFields.MaskSumClosed | 211/proj/proj7/bitfield.py:101 | The summed list of powers of two is 2^from_bit * (2^width - 1): the bits from_bit..to_bit set and no others. |
| BitFields.Extract | 211/proj/proj7/bitfield.py:95-103 | The mask-and-shift result is (word div 2^from_bit) mod 2^width for every integer word, so it always lies in [0, 2^width). |
| BitFields.ExtractOfZero | 211/proj/proj7/bitfield.py:95-103 | Every field of the zero word is zero. |
| BitFields.SignExtendMasks | 211/proj/proj7/bitfield.py:59-63 | `field & sign_bit` is non-zero exactly when bit width-1 is set; `field & mask` is field mod 2^(width-1); for a fitting field with the sign bit set, the masked value less sign_bit is field - 2^width. |
| BitFields.SignExtend | 211/proj/proj7/bitfield.py:26-66 | Under the asserted bounds, a field that fits in width bits yields field when bit width-1 is clear and field - 2^width when it is set; no result is below -2^(width-1). |
| BitFields.SignExtendExamples | 211/proj/proj7/bitfield.py:42-51 | 0b111 in 3 bits reads -1; 7 in 4 bits reads 7. |
| BitFields.SignExtendAdmitsWidePattern | 211/proj/proj7/bitfield.py:57-66 | The asserted bound admits field 4 with width 2, which comes back as 4, outside the 2-bit signed range [-2, 2). |
| BitFields.SignExtendFitting | 211/proj/proj7/bitfield.py:27-31 | For a field that fits in width bits, the result is the field's two's-complement reading, in [-2^(width-1), 2^(width-1)). |
| BitFields.WalkSumValue | 211/proj/proj7/bitfield.py:148-156 | After i digits, the accumulator equals those digits' value scaled to their place, less twice the leading digit's weight when the lead is negated. |
| BitFields.WalkIsSignedReading | 211/proj/proj7/bitfield.py:148-159 | The whole digit walk over the extracted value, negating the lead exactly when the digit count equals the field width, is the two's-complement reading of the value. |
| BitFields.ExtractSigned | 211/proj/proj7/bitfield.py:137-159 | The digit walk returns the two's-complement reading of `extract(word)`. It agrees with `sign_extend` for width >= 2, lies in [-2^(width-1), 2^(width-1)), and is 0 or -1 for a 1-bit field. |
| BitFields.OutsideParts | 211/proj/proj7/bitfield.py:128 | The two helper fields hold the word's bits below from_bit, and its bits to_bit+1..32. |
| BitFields.Insert | 211/proj/proj7/bitfield.py:105-134 | A value that fits reads back from the field; the bits below the field and bits to_bit+1..32 are the word's; the result is below 2^33. |
| BitFields.InsertBits | 211/proj/proj7/bitfield.py:112-134 | Bit by bit, the field's bits come from the value; the other bits up to 32 come from the word, whatever the field held before; higher bits are 0. |
| BitFields.InsertTwice | 211/proj/proj7/bitfield.py:112-134 | Inserting twice into one field is the same as inserting the second value alone. |
| BitFields.InsertArithmetic | 211/proj/proj7/bitfield.py:125-134 | For a value that fits, the result is the low part of the word, plus the value shifted to from_bit, plus the word's bits to_bit+1..32 shifted back into place. |
| BitFields.InsertDocExample | 211/proj/proj7/bitfield.py:110 | BitField(3,5).insert(0b101, 0b110) == 0b101110. |
| BitFields.InsertNegativeExample | 211/proj/proj7/bitfield.py:164 | BitField(3,5).insert(-1, 0) == 56. |
| BitFields.InsertNegativeArithmetic | 211/proj/proj7/bitfield.py:122-134 | For a negative value, the field receives the field's own bits of 2^31 + value - 1, and the rest of the word is kept as for any value. |
| BitFields.InsertNegativeLowField | 211/proj/proj7/bitfield.py:122-124 | BitField(0,3).insert(-1, 0) stores 14 = 0b1110, which reads back as -2 rather than -1. |
| BitFields.InsertWrapped | 211/proj/proj7/bitfield.py:105-134 | With the value first reduced mod 2^width, the field reads back value mod 2^width, a value in the signed range reads back signed as itself, and the rest of the word is kept as by `insert`. |
| BitFields.InsertWrappedNegativeOne | 211/proj/proj7/bitfield.py:122-124 | With the correction, -1 into bits 0..3 of 0 stores 0b1111. |
| BinaryNumbers.PaddingValue | 211/labs/lab7.py:46 | Zero digits in front do not change a digit list's value. |
| BinaryNumbers.Or | 211/labs/lab7.py:14-23 | ValueError exactly when the lengths differ; otherwise the result has the same length, and each digit is 0 exactly when both inputs hold 0 there; on bit lists its value is the bitwise or of the operands' values. |
| BinaryNumbers.OrValue | 211/labs/lab7.py:18-23 | The value of the digit-wise or of two equal-length bit lists is the bitwise or of their values. |
| BinaryNumbers.And | 211/labs/lab7.py:25-34 | ValueError exactly when the lengths differ; otherwise the result has the same length, and each digit is 1 exactly when both inputs are non-zero there; on bit lists its value is the bitwise and of the operands' values. |
| BinaryNumbers.AndValue | 211/labs/lab7.py:29-34 | The value of the digit-wise and of two equal-length bit lists is the bitwise and of their values. |
| BinaryNumbers.LeftShift | 211/labs/lab7.py:36-38 | IndexError exactly on an empty list; otherwise the same length, each digit taken from its right neighbour, and 0 last. |
| BinaryNumbers.LeftShiftValue | 211/labs/lab7.py:36-38 | A left shift doubles the value modulo 2^length. |
| BinaryNumbers.RightShift | 211/labs/lab7.py:40-42 | IndexError exactly on an empty list; otherwise the same length, 0 first, and each other digit taken from its left neighbour. |
| BinaryNumbers.RightShiftValue | 211/labs/lab7.py:40-42 | A right shift halves the value, rounding down. |
| BinaryNumbers.ShiftLeftThenRight | 211/labs/lab7.py:36-42 | Shifting left and then right restores a number whose first digit is 0. |
| BinaryNumbers.ShiftRightThenLeft | 211/labs/lab7.py:36-42 | Shifting right and then left restores a number whose last digit is 0. |
| BinaryNumbers.ExtractAsWritten | 211/labs/lab7.py:44-46 | The code as written: for start >= 1 it is the corrected field extraction; for start 0 the result is shorter than the input. |
| BinaryNumbers.ExtractFromZeroLosesField | 211/labs/lab7.py:44-46 | With start 0 the slice is empty: the result is all zeros and shorter than the input. |
| BinaryNumbers.ExtractFromZeroExample | 211/labs/lab7.py:44-46 | [1,0,1] with field 0..1 gives [0] as written; the corrected extract gives [0,0,1]. |
| BinaryNumbers.Extract | 211/labs/lab7.py:44-46 | Corrected; equals the source for start >= 1 (ExtractAgrees). The result keeps the input's length: zeros in front, then the digits of positions start..end counted from the least significant end. |
| BinaryNumbers.ExtractValue | 211/labs/lab7.py:44-46 | The value of the extracted digit list is the bit-field extraction of bits start..end from the number's value. |
| BinaryNumbers.ExtractAgrees | 211/labs/lab7.py:44-46 | For start >= 1 the code as written and the corrected extract agree. |
| BinaryNumbers.ExtractExample | 211/labs/lab7.py:67-69 | [1,0,0,1,0,1,1,1] with field 2..4 gives [0,0,0,0,0,1,0,1]. |
| Points.Move | 211/class_1.py:8-12 | The new point lies at displacement d from p. |
| Points.MoveInPlace | 211/class_1.py:14-17 | The in-place form leaves the point where the returning form would put it for displacement (dx, dy). |
| Points.Equals | 211/class_1.py:19-20 | True exactly when the two points are identical. |
| Points.MoveUndo | 211/class_1.py:8-12 | Moving by d and then by -d returns to the start. |
| Points.MoveCompose | 211/class_1.py:8-12 | Two moves in a row are one move by the summed displacement. |
| Points.MoveInjective | 211/class_1.py:8-20 | Moved points are equal exactly when the starting points are. |
| Points.MoveExample | 211/class_1.py:73-80 | (3,4) moved by (5,6) is (8,10); (3,4) moved in place by 2, 2 is (5,6). |
| ListRuns.AllSame | 211/class_1.py:27-36 | True exactly when all elements are equal, that is, when every adjacent pair is equal; so true for the empty list and singletons. |
| ListRuns.AllEqualExamples | 211/class_1.py:84-86 | [1,1,1,1] and [] are all the same; [1,3,1] is not. |
| ListRuns.Dedup | 211/class_1.py:38-53 | The result is the first element of each run of equal neighbours, in order; no two neighbours are equal; it is no longer than the input, empty exactly when the input is, and holds the same elements. |
| ListRuns.RunHeadsProperties | 211/class_1.py:38-53 | The run heads keep the first element, have no adjacent repeats, are no longer than the input, and hold exactly its elements. |
| ListRuns.RunHeadsOfDistinctNeighbours | 211/class_1.py:38-53 | A list without adjacent repeats is its own deduplication. |
| ListRuns.RunHeadsIdempotent | 211/class_1.py:38-53 | Deduplicating twice is deduplicating once. |
| ListRuns.RunHeadsExample | 211/class_1.py:89-90 | [1,1,2,1,1] becomes [1,2,1]; [1] stays [1]. |
| ListRuns.MaxRun | 211/class_1.py:55-70 | The result is the length of a longest block of equal neighbours: some block has that length and none is longer. It is 0 for the empty list and between 1 and the length otherwise. |
| ListRuns.LongestRunUnique | 211/class_1.py:55-70 | The longest-run length is determined by the list. |
| ListRuns.AllEqualIffWholeRun | 211/class_1.py:27-70 | A non-empty list is all the same exactly when its longest run is the whole list. |
| ListRuns.MaxRunExamples | 211/class_1.py:93-95 | [1,1,3,3,3,5] gives 3, [3,4,5,5,5] gives 3, [] gives 0. |
| Intervals.MakeInterval | 211/labs/lab1.py:9-14 | ValueError exactly when low > high; otherwise the interval has those bounds and low <= high. |
| Intervals.Contains | 211/labs/lab1.py:16-17 | True exactly when low <= i <= high. |
| Intervals.Overlaps | 211/labs/lab1.py:19-24 | For constructed intervals, the three-way test holds exactly when other.low <= high and low <= other.high, that is, when the intervals share an integer. |
| Intervals.OverlapsSymmetric | 211/labs/lab1.py:19-24 | For constructed intervals, overlap does not depend on which one asks. |
| Intervals.Equals | 211/labs/lab1.py:26-27 | True exactly when both bounds match. |
| Intervals.EqualsIffSameMembers | 211/labs/lab1.py:26-27 | Two constructed intervals are equal exactly when they contain the same integers. |
| Intervals.Join | 211/labs/lab1.py:29-32 | Joining constructed intervals succeeds with a valid interval that contains every integer of both, and whose ends are ends of the inputs. |
| Intervals.JoinLeast | 211/labs/lab1.py:29-32 | Every interval that covers both inputs covers their join. |
| Intervals.Examples | 211/labs/lab1.py:41-49 | [3..5] contains 4 and not 2; joined with [2..4] it gives [2..5]; the two overlap. |
| Appointments.MakeAppt | 211/proj/appt.py:19-26 | An appointment built when finish > start covers exactly the instants start..finish-1 and keeps its description. |
| Appointments.SameTime | 211/proj/appt.py:28-30 | Two appointments are equal exactly when they differ at most in their descriptions. |
| Appointments.Lt | 211/proj/appt.py:28-33 | An appointment that comes before another never has the same period as it, in either direction of `__eq__`. |
| Appointments.LtStrictOrder | 211/proj/appt.py:32-33 | The ordering is irreflexive, asymmetric and transitive, and neither comes first exactly when the starts are equal. |
| Appointments.Overlaps | 211/proj/appt.py:35-40 | max(starts) < min(finishes) holds exactly when some instant lies within both half-open periods. |
| Appointments.OverlapsSymmetric | 211/proj/appt.py:35-40 | Overlap is symmetric. |
| Appointments.BackToBackNoOverlap | 211/proj/appt.py:35-40 | Appointments that only touch do not overlap. |
| Appointments.Intersect | 211/proj/appt.py:42-48 | The result covers exactly the instants within both inputs, is a valid appointment, and is described by both descriptions joined with " & ". |
| Appointments.IntersectExample | 211/proj/appt.py:67-85 | 13:30-15:30 and 15:00-16:00 overlap in 15:00-15:30, described "Early afternoon nap & Coffee break". |
| Appointments.NewAgenda | 211/proj/appt.py:87-88 | A new agenda has length 0. |
| Appointments.Append | 211/proj/appt.py:109-111 | The length grows by one, the earlier appointments stay in place, and the new one is last. |
| Appointments.Len | 211/proj/appt.py:118-120 | The length counts every appointment as often as it appears in the agenda. |
| Appointments.LenAppendSort | 211/proj/appt.py:109-120 | `__len__` counts one more after append and the same after sort. |
| Appointments.InsertByStart | 211/proj/appt.py:113-116 | The insertion step of the sort adds exactly the one appointment. |
| Appointments.InsertByStartSorted | 211/proj/appt.py:113-116 | Inserting into a list sorted by start keeps it sorted. |
| Appointments.SortByStart | 211/proj/appt.py:113-116 | The sorted list is a permutation of the input with non-decreasing starts. |
| Appointments.Sort | 211/proj/appt.py:113-116 | The sorted agenda is a permutation of the agenda with non-decreasing starts. |
| Appointments.InsertAtEnd | 211/proj/appt.py:113-116 | An appointment starting no earlier than all the others goes last. |
| Appointments.SortSorted | 211/proj/appt.py:113-116 | Sorting an already sorted list changes nothing. |
| Appointments.SortIdempotent | 211/proj/appt.py:113-116 | Sorting twice is sorting once. |
| Appointments.SortSpans | 211/proj/appt.py:113-116 | Sorting keeps the same periods, each as often as before. |
| Appointments.SortSameSpans | 211/proj/appt.py:113-116 | Lists with the same periods in the same order sort to lists with the same periods in the same order, since the sort compares starts only. |
| Appointments.AgendaEquals | 211/proj/appt.py:90-94 | Equal agendas have equal lengths, each appointment of one has an appointment with the same period in the other, and they hold the same periods, each equally often. |
| Appointments.AgendaEqualsWhenSameSpans | 211/proj/appt.py:90-94 | Agendas whose lists agree position by position under `Appt.__eq__` compare equal: the sort looks only at starts, so both sort the same way. |
| Appointments.AgendaEqualsCountsRepeats | 211/proj/appt.py:90-94 | [x, x, y] and [x, y, y] with distinct periods x and y compare unequal. |
| Appointments.AgendaEqualsReflexiveSymmetric | 211/proj/appt.py:90-94 | Agenda equality is reflexive and symmetric. |
| Appointments.AgendaEqualsOrderSensitive | 211/proj/appt.py:90-94 | Two agendas with the same appointments can compare unequal: with (60,120) and (60,90) appended in opposite orders, the stable sort keeps each order. |
| Appointments.IndexOf | 211/proj/appt.py:130 | `list.index` under time-only equality: the first position with the same period. |
| Appointments.IndexOfAtMost | 211/proj/appt.py:130 | That position is at or before the appointment's own position. |
| Appointments.RowMembers | 211/proj/appt.py:129-136 | A row holds exactly the intersections of s[p] with the overlapping appointments in the scanned range. |
| Appointments.RowTail | 211/proj/appt.py:133-134 | In a sorted list, nothing after an appointment that starts after s[p] finishes overlaps s[p], so the break loses no conflict. |
| Appointments.ScanRow | 211/proj/appt.py:130-136 | The inner loop, with its break, collects the full row from just after the first appointment with s[p]'s period. |
| Appointments.AllRowsMembers | 211/proj/appt.py:127-138 | The rows together hold exactly the intersections of s[p] with overlapping s[q] for q after the first position with s[p]'s period. |
| Appointments.Conflicts | 211/proj/appt.py:122-138 | Leaves the agenda sorted. Reports every overlapping pair p < q of the sorted agenda. Everything reported is the intersection of two overlapping appointments of the agenda. |
| Appointments.ConflictsComplete | 211/proj/appt.py:122-138 | Every overlapping pair p < q of the sorted list is reported. |
| Appointments.ConflictsSound | 211/proj/appt.py:122-138 | Everything reported intersects two overlapping appointments of the sorted list. |
| Appointments.SoundInAgenda | 211/proj/appt.py:127 | Soundness over the sorted list carries over to the agenda it permutes. |
| Appointments.ConflictsExample | 211/proj/appt.py:154-157 | The two usage appointments give exactly one conflict, 15:00-15:30. |
| Appointments.SelfIntersection | 211/proj/appt.py:144-145 | Two appointments with the same period yield two conflicts: the pair, and the second appointment with itself. |
| Appointments.DistinctRowsMembers | 211/proj/appt.py:129-136 | With each scan starting right after p, the conflicts are exactly the intersections of overlapping pairs p < q. |
| Appointments.RowsAgreeOnDistinctSpans | 211/proj/appt.py:130 | When no two appointments share a period, the source's scan start and p + 1 give the same conflicts. |
| Stacks.NewStack | 211/proj/proj9/state.py:4-5 | A new stack is empty. |
| Stacks.Push | 211/proj/proj9/state.py:7-8 | The size grows by one, the items below stay, and the item is on top. |
| Stacks.Pop | 211/proj/proj9/state.py:10-11 | IndexError exactly when the stack is empty; otherwise pushing the popped item back onto the rest restores the stack. |
| Stacks.IsEmpty | 211/proj/proj9/state.py:13-14 | An empty stack has no items; a non-empty one is the stack below its top with the top pushed on. |
| Stacks.PopPush | 211/proj/proj9/state.py:7-11 | A pop right after push(x) returns x and the previous stack. |
| Stacks.PushNotEmpty | 211/proj/proj9/state.py:7-14 | After a push the stack is not empty and a pop succeeds. |
| Stacks.PushAllItems | 211/proj/proj9/state.py:7-8 | Pushing a list of items stacks them above the existing ones, in order. |
| Stacks.LastInFirstOut | 211/proj/proj9/state.py:7-11 | Pushing xs and popping |xs| times returns xs reversed and the original stack. |
| Stacks.StackExample | 211/proj/proj9/state.py:4-14 | An example: pushing 1 then 2 and popping gives 2, then 1, then IndexError. |

Some behaviour holds but is not a defect. `Agenda.__eq__` is sensitive to the order of appointments that share a start time, because the sort keys on the start alone and Python's sort is stable.

The `Appt` docstring shows an intersection described as "… and …". The code joins the two descriptions with " & " (`appt.py:48`), and the model follows the code.

## Left out

- The instruction encoder and decoder (`Instruction`, `decode`, `OpCode`, `CondFlag`, `NAMED_REGS`): `instr_format` is not part of this model.
- The logging setup in `bitfield.py`.
- `__str__` and `__repr__` of every class: text formatting, including datetime ISO output.
- `Agenda.__lt__`: an empty stub that returns `None`.
- Turtle graphics and randomness (`l_system.py`, `nd_l_system.py`, `State` and `State.set_state`), and the other coursework files: `QuadTree.py`, `FiveTwelve`, `lab3.py`, `codeDemo.py`, `MH.py`. They are not part of this model.
- `datetime` values are whole minutes. The "same day" expectation of `Appt` is not modelled.
- Mutation in place is modelled as a returned value. This covers `left_shift`, `right_shift`, `move(dx, dy)`, `push`, `pop`, and `sort`. For `conflicts`, the sorted agenda is the `sorted` out-parameter. The side effect of `Agenda.__eq__`, which sorts both operands, is not returned.
- `Point.__eq__`, `Intervals.__eq__` and `Appt.__eq__` compared with an object that lacks the attributes raise `AttributeError` in Python. The model compares only values of the same type.
- BitFields.Insert: a value larger than the field must not be passed. This is a precondition, as the docstring requires; the code would add the value unmasked. For a negative value, the contract states only that the bits outside the field are kept. The stored field is stated through InsertNegativeExample and InsertNegativeLowField, and InsertWrapped gives the corrected form.
- BitFields.ExtractSigned: the word comes in as an integer. `bin()` of a negative number cannot occur, because `extract` never returns one.
- Appointments.SortByStart: the contract states sortedness and permutation, not stability. The definition is a stable insertion sort, as Python's `list.sort` is stable, and AgendaEqualsOrderSensitive depends on that definition.
- Appointments.AgendaEquals: the contract gives a necessary condition: the same periods, each equally often. AgendaEqualsWhenSameSpans gives a sufficient one: the same periods in the same order. Between the two, the result depends on how appointments that start together are ordered (AgendaEqualsOrderSensitive), and only the definition states that.
- Appointments.Conflicts: the source appends each intersection directly to the result. The model collects one row per appointment and then appends the row. The two produce the same list.
- BinaryNumbers.OrValue and BinaryNumbers.AndValue: the value statements cover digit lists of 0s and 1s only. For other digits, Or and And are stated position by position, as the code treats any non-zero digit as 1.

## Findings

| source | as written | input that shows it | evidently intended | confidence | as-written member | corrected member |
|---|---|---|---|---|---|---|
| 211/proj/proj7/bitfield.py:58 | `field < 1 << (width + 1)` admits patterns one bit wider than the field | `sign_extend(4, 2)` returns 4, outside the 2-bit signed range | `field < 1 << width`, as the docstring's "field must fit in width bits" says | medium, not executed | BitFields.SignExtendAdmitsWidePattern | BitFields.SignExtendFitting |
| 211/proj/proj7/bitfield.py:122-124 | a negative value is replaced by the field's bits of `2**31 + value - 1` | `BitField(0, 3).insert(-1, 0)` stores 14 (0b1110, read back as -2) | store the two's-complement pattern, value mod 2^width (15 here), as the module's own `insert(-1, 0) == 56` check does for bits 3..5 | high, not executed | BitFields.InsertNegativeLowField | BitFields.InsertWrapped |
| 211/labs/lab7.py:45 | slice `bits[-end-1:-start]`; with start 0 the upper bound `-0` is 0 | `BinaryNumber([1, 0, 1]).extract(0, 1)` gives `[0]` | `bits[len(bits)-end-1:len(bits)-start]`, giving `[0, 0, 1]` | high, not executed | BinaryNumbers.ExtractFromZeroExample | BinaryNumbers.ExtractValue |
| 211/proj/appt.py:130 | inner scan starts after `self.elements.index(appt)`, the first appointment with the same period | two appointments 15:00-16:00 (the module's `appt2` and `appt3`) yield two conflicts, the second being `appt3` intersected with itself | each unordered pair once, never an appointment with itself | medium, not executed | Appointments.SelfIntersection | Appointments.DistinctRowsMembers |

`Appointments.Conflicts` itself keeps the source's scan start. The corrected scan, `Appointments.DistinctRows`, differs from it only when two appointments share a period. `Appointments.RowsAgreeOnDistinctSpans` proves this.
