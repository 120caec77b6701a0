# A verified model of perf-prof

perf-prof samples kernel events, filters them with small C-like expressions, orders them by time and feeds
them to analysers. This project models the parts of it whose correctness is hardest to see and proves what
they promise, for all inputs and all runs.

- **Expressions** (`src/expr.c`). An expression is compiled in one pass to a stack machine, interpreted, and
  optionally translated to BPF. `Syntax` gives trees a type and a meaning that mentions no code, and
  `CValues` says what every operator means in integers, bits and bytes alone; `Compile`, `CompileRuns`,
  `CompileShape` and `Programs` prove that the code of a tree computes that meaning, keeps the stack
  balanced and cannot leave the 512 slots. `Parse` and `Frontend` are the one-pass compiler. `Trees` is what
  it makes of a tree, any tree; `TreeParse` proves that it does with any tokens what it does with their
  tree, `Printer` that reading inverts printing by the precedence of C, `Precedence` how operators written
  next to each other are read, `TreeShape`, `Endings`, `Tails` and `Verdict` what the result looks like and
  when there is one, `GoodTrees` that trees with a meaning get their code, and `AnyTokens` puts this
  together; `Operands` shows that no load or store is one the machine does not know. `Encoding` is the word
  buffer, and says exactly when the compiler's tests and rewrites on words do what they should to
  instructions. `Bpf`, `BpfBackend`, `BpfRefines`, `BpfSim`, `BpfTheorems` and `BpfEmitter` prove that the
  translation simulates the interpreter. `Wildcard` is the matcher behind `~` and `Patterns` how its
  patterns are written; `Arith`, `Words` and `Vm` are the machine.
- **Red-black trees** (`lib/rbtree.c` and its headers). `RbSpec` is the algorithm on trees, `RbStore` what a
  set of linked nodes describes, `RbTree` the pointer code, `RbCached` the tree with a cached first node.
- **Event ordering** (`lib/ordered-events.c`). `EventOrder` is the queue seen as a run of operations,
  `OrderedEvents` the implementation on the red-black tree with its cache, buffers and copies.
- **Allocator** (`lib/rpmalloc.c`). `RpLists` and `RpHeap` are a heap whose blocks are freed by any number
  of threads, as a state machine with one step per atomic access; `RpSizes` the size classes, block
  addresses and alignment; `RpReturns` that nothing freed is forgotten.
- **Quantiles** (`lib/tdigest.c`). `DigestSpec` and `DigestQuantile` on values, `TDigest` in the array.
- **Clocks and sample layout** (`src/convert.c`). `Clock` and `SampleLayout`.
- **Character devices** (`src/event-spread.c`). `CdevStream` is the byte stream of records, `Cdev` the ring
  that writes it and the buffer that reads it.
- **Lost events** (`src/kmemleak.c`, `src/blktrace.c`). `LostWindow` is the rule both share over runs of
  events and windows, `LeakRuns` and `RequestRuns` what each analyser makes of a run, `Trackers` the two
  analysers, `RequestSearch` the search among tracked requests.

Conventions. Words are integers below 2^64 and all wrap-around is written out. Memory is a map from
addresses to bytes; an access outside it traps, and so do division by zero, the one overflowing division and
shifts by 64 or more. Other signed overflow wraps, as the compiled program does. Where the source updates
something in place the model is a class or an array method proved against a function, and the functions
carry the theorems. A node of a tree is a number and the nodes are a map from numbers to cells that the
methods reassign. `qsort`, `malloc`, reads, writes and the delivery callback are parameters.

What turned out not to hold as one would expect, each with its exact condition:

- A cast tests the word before the last for the opcode of a load. `(long)(flags & mask)` with an `unsigned
  char` mask passes the test without ending in a load, and the `&` is overwritten
  (`AnyTokens.MaskedCastGarbles`).
- `=`, `++`, `--` and `&` take back the last load, also when `||`, `&&` or `?:` jumps behind it. In `a && b
  = 3` the jump then goes into the operand of an instruction (`AnyTokens.AndAssignGarbles`,
  `Encoding.AndAssignJumps`). Tokens the compiler accepts are compiled without such a step exactly when no
  cast overwrites an opcode with a different word and no such load is taken back (`AnyTokens.AnyJudged`,
  `Verdict.Clean`). After `&` the step is repaired exactly when the next instruction has two words, as in
  `*&(a && b)` (`Encoding.RepairExact`, `Encoding.AddressRepaired`).
- The BPF translation folds a field address and the load behind it into one instruction, also when a jump
  lands between them. `*(c ? &x : &y)` then reads `y` (`BpfTheorems.FoldedJumpReadsOtherField`). The offset
  of a folded field is cut to 16 bits, so a field from 32768 on is read elsewhere (`BpfTheorems.FarFields`).
  The code follows the program exactly when neither happens (`BpfSim.RetargetIdentity`).
- When no shift fits, the clock multiplier is the one of the shift 1 with the shift 0, which is right
  exactly for ratios that round to 1 (`Clock.NoFitNearest`, `Clock.NoFitExample`). The comment above that
  function promises factors that fit the range in all cases; the model follows the code.
- An aligned allocation whose size plus alignment wraps gets too small a block (`RpSizes.WrapExactly`,
  `RpSizes.WrapExample`), and one to an alignment that is no power of two, which the header forbids and the
  code does not check, may not be aligned (`RpSizes.AlignedExactly`, `RpSizes.Misaligned48`).
- A quantile is not a number at one index inside the range (`DigestQuantile.DefinedExactly`,
  `DigestQuantile.UndefinedInside`).
- The maximum of a digest starts at the smallest positive double, so it is the largest sample exactly when
  some sample reaches that, and answers can otherwise exceed every sample (`TDigest.MaxExactly`,
  `TDigest.AnswersAmongSamples`, `TDigest.NegativeSamples`).
- A queue call that finds no memory delivers up to 32 events first, and this can make its own event late
  without counting it (`EventOrder.ForcedUncounted`). Delivery is in time order exactly when no event enters
  before the last delivered time (`EventOrder.OrderedIffInTime`); the counter tells if no call was forced
  (`EventOrder.OrderedIffNoneUnordered`).
- Tracked block requests are overwritten inside the search tree, which stays in order exactly if the new
  request overlaps no other (`RequestSearch.OverwriteKeepsOrder`, `RequestSearch.OverwriteBreaksOrder`).
- `unsigned` behind another keyword of a type name means a char: `long unsigned` is one byte
  (`Printer.TypeNameIs`).
- A window of lost events told after a match and after its own start cannot undo the match
  (`LeakRuns.LateWindow`). Every window told before the match, or in time, is respected
  (`LeakRuns.NoneAcross`, `RequestRuns.NoneAcross`).

## Model

| member | source | states |
|---|---|---|
| `Wildcard.WildcardMatch` | src/expr.c:425-508 | the loop with one remembered star answers yes exactly when the string is in the language of the pattern, where a star may stand for any split of the string |
| `Wildcard.LastStarSuffices` | src/expr.c:425-508 | whatever an earlier star could still reach by taking more characters, the latest star reaches too, so forgetting the earlier one loses no match |
| `Wildcard.Retry` | src/expr.c:491-499 | after a mismatch, resuming one character further at the last star keeps the answer of the whole match unchanged |
| `Wildcard.SkipStars` | src/expr.c:425-508 | a run of stars accepts the same strings as one star, and the scan stops at the first other element |
| `Wildcard.ScanClass` | src/expr.c:425-508 | a bracket class is a hit exactly when some item or range of it, negated or not, contains the character, and the scan ends right behind the class |
| `Wildcard.MatchOne` | src/expr.c:425-508 | one element other than a star accepts the character exactly as its meaning says |
| `Patterns.ReadItems` | src/expr.c:450-480 | a list of characters and ranges as one writes it is read as those characters and ranges, and the scan ends behind its bracket |
| `Patterns.ReadClass` | src/expr.c:450-480 | so is a class, inverted by either mark or not |
| `Patterns.TextMatches` | src/expr.c:425-508 | every sequence of elements that has a spelling, written out, is read as those elements and so matches exactly the strings they describe |
| `Patterns.Unclosed` | src/expr.c:450-480 | a list that is never closed means the same as if it were closed at the end |
| `Words.LoadAfterStore` | src/expr.c:729-753 | reading back what a store wrote yields the value truncated to the width of the access |
| `Words.StoreFrame` | src/expr.c:742-753 | a store leaves every byte below the accessed range as it was |
| `Words.ShiftUpDownExtends` | src/expr.c:1122-1143 | shifting the sign bit up to bit 63 and arithmetically back down is sign extension, for each access width |
| `CValues.OrderMeans` | src/expr.c:359-362 | `<`, `>`, `<=`, `>=` compare the numbers the words stand for, signed only if both operands are signed numbers |
| `CValues.EqualMeans` | src/expr.c:347-358 | `==` and `!=` compare the words, but for two `char *` of either sign, where they compare the strings and trap without one |
| `CValues.MatchMeans` | src/expr.c:363-368 | `~` matches the first string against the second as a pattern, and is 0 for a null pointer |
| `CValues.BitsMean` | src/expr.c:344-346 | each bit of the result of bitwise or, exclusive or and and is the logical operation on the bits there |
| `CValues.ShiftsMean` | src/expr.c:369-370 | `<<` multiplies and `>>` divides by the power of two, rounding down and keeping the sign of signed numbers; counts from 64 on are undefined |
| `CValues.TimesMeans` | src/expr.c:382 | `*` is the product modulo 2^64 |
| `CValues.DivisionMeans` | src/expr.c:383-384 | `/` rounds towards zero and the remainder has the sign of the dividend, for signed numbers; undefined exactly for a zero divisor and the one overflowing quotient |
| `CValues.PlusMeans` | src/expr.c:371-375 | `+` moves a pointer by elements of the size of what it points to, and a number by one, modulo 2^64 |
| `CValues.MinusMeans` | src/expr.c:376-381 | `-` moves back in the same way, and the difference of two pointers of one type is the number of elements between them, rounded towards zero |
| `CValues.TypesAre` | src/expr.c:344-384 | the type of every result |
| `CValues.ReadMeans` | src/expr.c:729-740 | a load yields the number of its type whose bytes are there, lowest first and within the range of the type, exactly if all are mapped |
| `CValues.WriteMeans` | src/expr.c:741-752 | a store puts the low bytes of the value there and changes nothing else, exactly if all are mapped |
| `CValues.StringMeans` | src/expr.c:425-508 | a string is the characters up to the first zero byte, and there is none exactly if there is no such byte in mapped memory |
| `CValues.NotMeans` | src/expr.c:307 | `!` is 1 for 0 and 0 otherwise |
| `CValues.BitNotMeans` | src/expr.c:308 | `~` in front is 2^64 - 1 less the value |
| `CValues.NegMeans` | src/expr.c:310-314 | `-` in front is the negative modulo 2^64, of constants as of everything else |
| `CValues.OrMeans` | src/expr.c:342 | the right side of logical or runs only after a false left side, and the result is false exactly if both are |
| `CValues.AndMeans` | src/expr.c:343 | the right side of `&&` runs only after a true left side, and the result is true exactly if both are |
| `CValues.CondMeans` | src/expr.c:333-341 | only the chosen side of `?:` runs, and turning the condition round swaps the sides |
| `CValues.SizeMeans` | src/expr.c:250-259 | `sizeof` is the number of bytes of the type |
| `CValues.NameMeans` | src/expr.c:277-291 | a name is the number of its type at its address, a cast of it the number of that type there, an array its address |
| `CValues.PreIncMeans` | src/expr.c:315-325 | `++` and `--` in front load, step by one element, store and yield what was stored, exactly if load and store succeed |
| `CValues.PostIncMeans` | src/expr.c:385-396 | behind they do the same and yield what was there |
| `CValues.IndexMeans` | src/expr.c:397-405 | `a[i]` is `i` elements behind `a` |
| `Vm.StepKeepsDepth` | src/expr.c:702-809 | in a program whose jumps join at equal depth, the stack depth read off the text is the run-time depth after every step |
| `Vm.Machine.constructor` | src/expr.c:702-713 | a fresh machine is at the first instruction with an empty stack and the given memory |
| `Vm.Machine.Push` | src/expr.c:756 | the downward growing slot array holds one more value on top of the same stack |
| `Vm.Machine.PopSlot` | src/expr.c:757-780 | the value handed back is the top of the stack and the rest is untouched |
| `Vm.Machine.Round` | src/expr.c:714-809 | one turn of the interpreter on the slot array is one step of the instruction semantics, including where it traps or exits |
| `Vm.RunStr` | src/expr.c:702-809 | the string operators (`~`, `==` and `!=` on text) have the value their specification gives, or trap where the text is not mapped |
| `Vm.ExprRun` | src/expr.c:702-809 | the loop over the 512-slot array ends, never leaves the array, and its result is that of the big-step execution |
| `Compile.LvalueEndsInLoad` | src/expr.c:272-279 | the code of every lvalue is the code of its address followed by exactly one load, which is what `&`, `++` and `=` rely on when they undo that load |
| `CompileRuns.RunsCode` | src/expr.c:237-408 | running the code of any well-typed tree from any register, stack and memory continues behind it with the value of the tree, the same stack and the memory the tree leaves, or traps when the tree does |
| `CompileRuns.RunsAddress` | src/expr.c:302-306 | the same for the address of an lvalue |
| `CompileShape.CodeSeg` | src/expr.c:237-408 | the code of every tree is balanced, its jumps go forward and inside it to places of equal depth, and its depth is paid for by its size in words |
| `Programs.Closed` | src/expr.c:637-647 | balanced code closed by EXIT is a consistent program, three words long per slot of depth at each point |
| `Programs.ProgramShape` | src/expr.c:637-647 | so is the program of every list of trees with a meaning, which ends in its only EXIT and has no calls |
| `Programs.BufferBoundsStack` | src/expr.c:513-533 | a program that fits the compile buffer needs at most 341 of the 512 stack slots |
| `Programs.ProgramRuns` | src/expr.c:702-809 | a compiled list of expressions run from an empty stack exits with the value and memory of evaluating the list, and traps exactly when that is undefined |
| `Parse.Climb` | src/expr.c:237-408 | precedence climbing always consumes a token, keeps the code emitted before, and starts its own code with an immediate |
| `Parse.Prefix` | src/expr.c:237-325 | the same for the prefix part of an expression |
| `Parse.Operators` | src/expr.c:326-407 | the operator loop stays inside the tokens and never touches code emitted before its left operand |
| `Parse.Operator` | src/expr.c:326-407 | one operator consumes at least its own token and leaves earlier code alone |
| `Parse.TypeName` | src/expr.c:283-287 | a type name ends after its stars, inside the tokens |
| `Printer.TypeNameIs` | src/expr.c:283-286 | every type name: the last keyword gives the width, `unsigned` alone is an int but behind another keyword a char, any keyword makes it unsigned, and it takes every star |
| `Printer.OperatorLevel` | src/expr.c:342-384 | the level each operator is read at and the level its right operand is read at are those of its place in the precedence of C, which the printer lists for itself |
| `Printer.Inverts` | src/expr.c:237-408 | wherever any tree stands printed with no more parentheses than the precedence of C requires, precedence climbing finds that tree and goes on with the operators behind it |
| `Printer.Operand` | src/expr.c:237-408 | followed by a token that binds less, a printed tree is read back as exactly that tree |
| `Printer.InvertsBody` | src/expr.c:237-408 | the same without parentheses, whenever the level allows them to be left off |
| `Precedence.WrittenIsPrinted` | src/expr.c:342-384 | a chain of operands and binary operators is the printed form of its reading, which splits it at the last of the operators that bind least |
| `Precedence.ChainRead` | src/expr.c:326-384 | every chain of operands and binary operators, also logical ones, however long, is compiled as that reading |
| `Precedence.TwoOperators` | src/expr.c:326-384 | for any two operators, `x op1 y op2 z` groups to the right exactly when the second binds tighter, and else to the left |
| `AnyTokens.AdjacentStrings` | src/expr.c:243-247 | any number of adjacent string literals is one, at the address of the first |
| `Operands.EmitFine` | src/expr.c:134-149 | every load and store in the code of any tree has one of the nine operands the interpreter has a case for |
| `Operands.AnyHandled` | src/expr.c:729-752 | so whatever the tokens, what is compiled never meets the case of a wrong instruction |
| `TreeShape.EmitSeg` | src/expr.c:237-408 | whatever the compiler makes of any tree, with lvalues or without, is balanced, its jumps go forward and inside it to places of equal depth, and its depth is paid for in words |
| `Endings.EndsAre` | src/expr.c:237-408 | whether the code of any tree ends in a load, and whether a jump goes behind it, can be read off the tree, also after loads have been taken back |
| `Tails.EmitTy` | src/expr.c:237-408 | whatever is made of a tree has the type read off the tree |
| `Tails.TailsAre` | src/expr.c:237-408 | the last instruction of the code of any tree, and whether the operand before it is the opcode of a load, can be read off the tree, also after loads have been taken back |
| `Verdict.EmitMoved` | src/expr.c:237-408 | the code of any tree is the same wherever it stands, but for its jump targets, and so is the error |
| `Verdict.EmitJudged` | src/expr.c:237-408 | for every tree: an error if it is not accepted; otherwise code of its type exactly when no cast in it overwrites an opcode and every load taken back is there and no jump goes behind it, and garbled when not; both conditions are structural |
| `GoodTrees.RetypeCode` | src/expr.c:281-291 | a cast changes the code of its operand in its last load and nowhere else |
| `GoodTrees.EmitGood` | src/expr.c:237-408 | a tree with a meaning compiles to the code that computes it, wherever it stands, unless a cast in it overwrites an opcode, and then it is garbled |
| `TreeParse.ClimbEmits` | src/expr.c:237-408 | on any tokens at any level the one-pass compiler comes to exactly what becomes of their tree, errors and garbling included, and fails when they have none |
| `Frontend.Compiler.constructor` | src/expr.c:635-637 | compilation starts at the first token with no code |
| `Frontend.Compiler.Expr` | src/expr.c:237-408 | the recursive compiler that appends to and patches its code agrees with precedence climbing in syntax errors, in garbling, and otherwise in position, code and type |
| `Frontend.Compiler.Unary` | src/expr.c:237-325 | the prefix part, in place, agrees with the specification in success, position, code and type |
| `Frontend.Compiler.CastOperand` | src/expr.c:281-291 | a cast compiles its operand, then re-types the last load, as the specification says |
| `Frontend.Compiler.UnaryOperator` | src/expr.c:307-323 | `!`, `++` and `--` agree with the specification, error cases included |
| `Frontend.Compiler.SignOperator` | src/expr.c:297-314 | `*`, `&`, `~`, `+` and `-` as prefixes agree with the specification, error cases included |
| `Frontend.Compiler.BinaryRound` | src/expr.c:326-407 | one turn of the operator loop, with its in-place rewriting of the last load, agrees with the specification |
| `Frontend.Compiler.CondRound` | src/expr.c:333-341 | `?:` patches both of its jumps to the places the specification gives |
| `Frontend.ExprCompile` | src/expr.c:635-647 | the driver fails as the specification does and otherwise returns the code followed by EXIT |
| `AnyTokens.AnyEmits` | src/expr.c:635-647 | any tokens: no trees, no program; otherwise what becomes of the trees one after the other |
| `AnyTokens.AnyConsistent` | src/expr.c:635-647 | any tokens: what is accepted is a program whose jumps go forward to instructions of equal depth, that pops no empty stack, has no calls and ends in its only EXIT, three words for each slot of depth |
| `AnyTokens.AnyWithinStack` | src/expr.c:513-533 | any tokens: a program that fits the buffer needs at most 341 of the 512 stack slots |
| `AnyTokens.AnyJudged` | src/expr.c:635-647 | any tokens whose trees are accepted are compiled without a garbling step exactly when every tree is clean, and stopped at such a step exactly when one is not; all others are refused |
| `AnyTokens.AndAssignGarbles` | src/expr.c:326-343 | `a && b = 3` is accepted and garbled, for any two variables |
| `AnyTokens.ListInverts` | src/expr.c:635-647 | a printed list of any trees is read as those trees |
| `AnyTokens.CompilePrinted` | src/expr.c:510-695 | for every list of trees with a meaning, print then compile is their program if no cast in them overwrites an opcode, and garbled if one does |
| `AnyTokens.MaskedCastGarbles` | src/expr.c:288-290 | `(long)(flags & mask)` with an `unsigned char` mask is garbled, for any two fields |
| `Encoding.OpcodeNamed` | src/expr.c:92-102 | the enumeration of opcodes and the table of names agree: every opcode is printed under its own name |
| `Encoding.WordsAt` | src/expr.c:91-97 | each instruction stands in the word buffer where the sizes before it say, opcode first and operand behind it |
| `Encoding.MovedWords` | src/expr.c:664-673 | moving the buffer changes the operands of jumps by the distance moved and no other word |
| `Encoding.OpcodeReads` | src/expr.c:664-673 | the scan by opcode steps over operands correctly and recognises exactly the jumps |
| `Encoding.Relocate` | src/expr.c:664-673 | after `realloc` moved the buffer, the loop leaves the encoding of the same program at the new address |
| `Encoding.RawPeekExact` | src/expr.c:290 | the test on the last two words says load exactly for a load, or for a one-word instruction behind an operand equal to LI: a constant 8 or an access to `unsigned char` |
| `Encoding.CastExact` | src/expr.c:288-290 | what a cast writes into the word buffer is the operand with its last load re-typed, exactly when it does not overwrite an opcode with a different word |
| `Encoding.UndoExact` | src/expr.c:302-331 | what `=`, `++`, `--` and `&` do to the words of a load is what they mean to do to the instructions, exactly when no jump goes behind that load |
| `Encoding.RepairExact` | src/expr.c:302-331 | after `&` over a load that a jump goes behind, the words are those of the instructions again exactly when the next instruction has two words |
| `Encoding.AddressRepaired` | src/expr.c:302-331 | so the buffer of `*&(a && b)` ends as that of `a && b` |
| `Encoding.AndAssignJumps` | src/expr.c:326-343 | in the words of `a && b = 3` the branch of `&&` goes to the word that holds the 3, which is the opcode of JSR |
| `BpfRefines.RunLoad` | src/expr.c:1122-1143 | with or without sign-extending loads, the emitted load puts into the accumulator what LI reads |
| `BpfRefines.RunImm` | src/expr.c:1152-1162 | any 64-bit immediate arrives whole, in the short or the two-slot form |
| `BpfRefines.RunFieldAddress` | src/expr.c:1249-1254 | the event pointer plus the offset is the address of the field |
| `BpfRefines.RunCmp` | src/expr.c:1170-1176 | a comparison leaves 1 or 0 in the accumulator as the branch would be taken, and no other register changes |
| `BpfRefines.RunBin` | src/expr.c:1309-1404 | an operator leaves its result in the accumulator and changes no register but the popped slot and scratch |
| `BpfRefines.OperatorsAgree` | src/expr.c:1309-1404 | wherever C defines an operator on two words, the BPF operator gives the same word |
| `BpfBackend.NoErrorEmits` | src/expr.c:1195-1471 | if the scan finds no error, every instruction has been translated |
| `BpfSim.RetargetIdentity` | src/expr.c:1238-1248 | the program the BPF code follows is the program itself exactly when no jump lands on a load folded into the field address before it and every folded field is in the first 32768 bytes |
| `BpfSim.NearReached` | src/expr.c:1122-1143 | the address a folded load reaches is that of the field exactly when its offset is below 32768 |
| `BpfSim.RetargetJump` | src/expr.c:1238-1248 | a jump to such a load goes to the address before it, and every other jump where it should, always forward and to equal depth |
| `BpfSim.JumpDistance` | src/expr.c:1473-1487 | every resolved distance is non-negative and fits the 16-bit field |
| `BpfSim.Simulates` | src/expr.c:1182-1509 | from related states, whenever the interpreter reaches EXIT the BPF code returns the same value and leaves the same memory |
| `BpfTheorems.BpfRuns` | src/expr.c:1182-1509 | for every consistent program without calls the backend accepts, any event of any size and any initial registers: when the interpreter finishes on the program the code follows, the BPF code returns its value and memory |
| `BpfTheorems.BpfRunsTokens` | src/expr.c:1182-1509 | so does the BPF code of any tokens the compiler and the backend accept |
| `BpfTheorems.BpfRefinesMeaning` | src/expr.c:1182-1509 | end to end: if no jump lands on a folded load and every folded field is near, the BPF code computes the meaning of the expressions whenever that is defined |
| `BpfTheorems.RefusalReasons` | src/expr.c:1182-1509 | a compiled program without calls is refused only for a global outside the event, too deep an expression, an instruction the kernel lacks, or strings |
| `BpfTheorems.TranslatedExactly` | src/expr.c:1182-1509 | any consistent program is translated if and only if its globals lie in the event and no instruction of its text is an obstacle (a string, a call without a counterpart, a signed division before version 4, a value pushed beyond the registers); otherwise the error is that of the first |
| `BpfTheorems.ObstacleKinds` | src/expr.c:1182-1509 | in a compiled program the obstacles are strings, depth and signed division and nothing else |
| `BpfTheorems.FoldedJumpReadsOtherField` | src/expr.c:1238-1248 | for all near fields and all events with a non-zero `c`, the meaning of `*(c ? &x : &y)` is the value of `x` and its BPF code returns that of `y` |
| `BpfTheorems.FarFields` | src/expr.c:1122-1143 | the BPF code of a field returns the field on every event that holds it, exactly when its offset is below 32768 |
| `BpfTheorems.FarFieldReads` | src/expr.c:1122-1143 | what it returns is what stands at the address reached, 65536 bytes too low for an offset from 32768 to 98303 |
| `BpfEmitter.BpfEmit.Emit` | src/expr.c:1048-1058 | one more instruction, unless an earlier failure suppresses it or a full buffer makes it the failure |
| `BpfEmitter.BpfEmit.EmitLoad` | src/expr.c:1122-1143 | the buffer grows by the load of the specification |
| `BpfEmitter.BpfEmit.EmitImm64` | src/expr.c:1152-1162 | the buffer grows by the immediate of the specification |
| `BpfEmitter.BpfEmit.EmitCmp` | src/expr.c:1170-1176 | the buffer grows by the comparison of the specification |
| `BpfEmitter.BpfEmit.EmitBin` | src/expr.c:1309-1404 | the operator fails or emits as the specification says |
| `BpfEmitter.BpfEmit.EmitJump` | src/expr.c:1277-1301 | a jump goes out with offset zero and its place and target are recorded |
| `BpfEmitter.BpfEmit.RoundImm` | src/expr.c:1236-1262 | a constant, a field address or a field load folded with its address, as the specification chooses |
| `BpfEmitter.BpfEmit.RoundStack` | src/expr.c:1270-1276 | pushes and pops keep the emitter depth equal to the depth of the program text |
| `BpfEmitter.BpfEmit.RoundPlain` | src/expr.c:1229-1440 | every instruction that does not jump fails or emits as specified |
| `BpfEmitter.Turn` | src/expr.c:1229-1470 | one turn of the loop keeps text, position map, recorded jumps and depth equal to those of the program up to the next instruction, or stops with the specified error |
| `BpfEmitter.Resolve` | src/expr.c:1473-1487 | patching gives the assembled program when every jump has a target, and fails as unresolved exactly otherwise |
| `BpfEmitter.ExprToBpf` | src/expr.c:1182-1509 | the whole translation is the specified one, and its buffer of eight instructions per word is never too small |
| `RbSpec.InsertKeepsOrder` | lib/rbtree.c:85-220 | rebalancing after an insertion keeps the in-order sequence |
| `RbSpec.InsertRestores` | lib/rbtree.c:85-220 | from a tree whose only fault is a red node under a red parent, it restores all red-black rules |
| `RbSpec.EraseKeepsOrder` | lib/rbtree.c:226-407 | rebalancing after a removal keeps the in-order sequence |
| `RbSpec.EraseRestores` | lib/rbtree.c:226-407 | from a tree one black short at one place, it restores all red-black rules |
| `RbSpec.EraseOrder` | include/linux/rbtree_augmented.h:186-288 | removing a node takes exactly that node out of the in-order sequence |
| `RbSpec.EraseValid` | include/linux/rbtree_augmented.h:186-288 | removing any node of a red-black tree leaves a red-black tree |
| `RbSpec.HeightBound` | lib/rbtree.c:15-33 | the height is at most twice the black height, plus one under a red root |
| `RbSpec.FillValid` | lib/rbtree.c:15-33 | a valid subtree in a valid surrounding of the right black height is a red-black tree |
| `RbSpec.FillParts` | lib/rbtree.c:15-33 | and conversely every subtree of a red-black tree is valid with a valid surrounding |
| `RbStore.Refocus` | lib/rbtree.c:85-220 | the pointers describe a tree seen at a node exactly when they describe it seen at either child |
| `RbStore.FocusRoot` | lib/rbtree.c:85-220 | the pointers describe a tree seen at any node exactly when they describe the whole tree from the root |
| `RbStore.CutZip` | include/linux/rbtree_augmented.h:252-260 | cutting the successor out of its place leaves the tree with its right subtree there |
| `RbStore.Replaced` | include/linux/rbtree_augmented.h:266-282 | putting another node with the children of the old one in its place leaves the tree otherwise as it was |
| `RbTree.RbRoot.ChangeChild` | include/linux/rbtree_augmented.h:170-181 | the one link that led to the old node, in its parent or the root, leads to the new one, and nothing else changed |
| `RbTree.RbRoot.RotateSetParents` | lib/rbtree.c:74-83 | the new top takes parent and colour of the old one, which becomes its child |
| `RbTree.RbRoot.RotateLeft` | lib/rbtree.c:85-220 | the pointer writes of a rotation describe the rotated tree in the same surrounding |
| `RbTree.RbRoot.RotateRight` | lib/rbtree.c:85-220 | the mirror image |
| `RbTree.RbRoot.InsertBelowLeft` | lib/rbtree.c:108-218 | one round with a red parent that is a left child: done, or the same problem at the grandparent, as specified |
| `RbTree.RbRoot.InsertBelowRight` | lib/rbtree.c:108-218 | one round with a red parent that is a right child: done, or the same problem at the grandparent, as specified |
| `RbTree.RbRoot.InsertColor` | lib/rbtree.c:85-220 | the loop over parent pointers leaves pointers that describe the rebalanced tree of the specification, on the same set of nodes |
| `RbTree.RbRoot.EraseColor` | lib/rbtree.c:226-407 | the same for the loop after a removal |
| `RbTree.RbRoot.EraseLevelLeft` | lib/rbtree.c:226-407 | one level of the loop with the missing black on the left: done, or the same problem one level up, as specified |
| `RbTree.RbRoot.EraseLevelRight` | lib/rbtree.c:226-407 | one level of the loop with the missing black on the right: done, or the same problem one level up, as specified |
| `RbTree.RbRoot.EraseStepLeft` | lib/rbtree.c:226-407 | recolouring and rotations around a black sibling give the specified subtree and say whether the shortage moves up |
| `RbTree.RbRoot.EraseStepRight` | lib/rbtree.c:226-407 | recolouring and rotations around a black sibling give the specified subtree and say whether the shortage moves up |
| `RbTree.RbRoot.UnlinkRight` | include/linux/rbtree_augmented.h:195-211 | a node without a left child is replaced by its right one with its own colour, and a black leaf leaves a shortage below its parent |
| `RbTree.RbRoot.UnlinkLeft` | include/linux/rbtree_augmented.h:212-218 | a node with a left child only is replaced by it |
| `RbTree.RbRoot.UnlinkNear` | include/linux/rbtree_augmented.h:223-236 | the right child takes the place and colour of the node, and its own right subtree stays, blackened |
| `RbTree.RbRoot.UnlinkDeep` | include/linux/rbtree_augmented.h:237-284 | the first node of the right subtree does, and leaves its place to its right subtree, blackened |
| `RbTree.RbRoot.Unlink` | include/linux/rbtree_augmented.h:186-288 | taking a node out leaves the erased tree, or names the place one black short whose repair is the erased tree |
| `RbTree.RbRoot.UnlinkTwo` | include/linux/rbtree_augmented.h:219-284 | the same for a node with two children, both when the successor is the child and when it is deeper |
| `RbTree.RbRoot.Leftmost` | include/linux/rbtree_augmented.h:252-256 | the walk ends at the first node in order of the subtree, with its parent |
| `RbTree.RbRoot.EraseNode` | lib/rbtree.c:438-444 | the pointers describe the tree without the node, rebalanced |
| `RbTree.RbRoot.Next` | lib/rbtree.c:486-515 | the result is the next node in order, or none at the end |
| `RbTree.RbRoot.LinkNode` | include/linux/rbtree.h:66-73 | the new node is a red leaf at the chosen place |
| `RbCached.InsertionSorted` | include/linux/rbtree.h:177-197 | inserting by key keeps the sequence sorted, and the smallest key is the smaller of the two |
| `RbCached.InsertionAt` | include/linux/rbtree.h:177-197 | the new node comes behind every key that is not greater |
| `RbCached.RemovedAt` | include/linux/rbtree.h:138-144 | removal joins what was before and behind the node |
| `RbCached.RbRootCached.constructor` | include/linux/rbtree.h:119-124 | an empty tree with no leftmost node |
| `RbCached.RbRootCached.Descend` | include/linux/rbtree.h:177-197 | the descent ends at the place that splits the order into keys not greater and keys greater, and knows whether it is leftmost |
| `RbCached.RbRootCached.Add` | include/linux/rbtree.h:177-197 | the order of the tree is the sorted insertion, the tree is red-black and the cached node is its first |
| `RbCached.RbRootCached.EraseCached` | include/linux/rbtree.h:138-144 | the order is without the node, the tree is red-black and the cached node is again its first |
| `RbCached.RbRootCached.FirstCached` | include/linux/rbtree.h:126-127 | the cached node is the first in order, or none |
| `RbCached.RbRootCached.Successor` | lib/rbtree.c:486-515 | what follows a node in the order |
| `EventOrder.Enter` | lib/ordered-events.c:17-36 | queueing keeps all items and adds one |
| `EventOrder.EnterSorted` | lib/ordered-events.c:17-36 | and keeps them in time order |
| `EventOrder.Due` | lib/ordered-events.c:207-238 | a flush delivers the longest prefix not later than the limit that the count allows, and nothing for the limit 0 |
| `EventOrder.Taken` | lib/ordered-events.c:207-238 | when delivery may refuse, it delivers a prefix of that and stops at the refused item with its code |
| `EventOrder.RunCaught` | lib/ordered-events.c:182-301 | whatever the kinds, limits and counts of the flushes, also ended by refusals or forced by lack of memory, a run in which nothing enters before the last delivered time delivers in time order |
| `EventOrder.RunHeld` | lib/ordered-events.c:182-301 | over every run, what is queued and what was delivered together are what was put in, as multisets |
| `EventOrder.RoundRun` | lib/ordered-events.c:240-301 | with round flushes only, delivery is in time order if each event is no earlier than the newest time of the round before last |
| `EventOrder.UnorderedCounts` | lib/ordered-events.c:182-205 | `nr_unordered_events` never falls, and without forced flushes it grows exactly when some event arrives before the last delivered time |
| `EventOrder.LateBreaks` | lib/ordered-events.c:182-301 | if some event did, and all is delivered in the end, then delivery was out of order |
| `EventOrder.OrderedIffInTime` | lib/ordered-events.c:182-301 | over every run that ends drained, the delivered events are in time order exactly when none entered before the last delivered time |
| `EventOrder.OrderedIffNoneUnordered` | lib/ordered-events.c:182-301 | if no queue call was forced to flush, that is exactly when `nr_unordered_events` is 0 |
| `EventOrder.ForcedUncounted` | lib/ordered-events.c:190-198 | a queue call forced to flush delivers past its own event and does not count it |
| `OrderedEvents.Allotted` | lib/ordered-events.c:81-155 | a slot taken for an event, cached or unused, belongs to no queued event, and slots, copies and allocated bytes stay accounted for |
| `OrderedEvents.Returned` | lib/ordered-events.c:68-79 | giving an event back frees exactly its copy and caches its slot |
| `OrderedEvents.Inserted` | lib/ordered-events.c:24-36 | queueing a filled slot keeps order and accounts |
| `OrderedEvents.TakenOut` | lib/ordered-events.c:172-180 | removing one keeps order and accounts |
| `OrderedEvents.FlushIsStep` | lib/ordered-events.c:240-301 | a flush of the queue, when delivery succeeds, is the flush of the abstract run, with the 32-bit count in which 0 stands for 2^32 |
| `OrderedEvents.FlushSteps` | lib/ordered-events.c:240-301 | any flush, also one ended by a refusal, is one step of the abstract run |
| `OrderedEvents.FlushKinds` | lib/ordered-events.c:240-301 | what each kind of flush delivers when nothing is refused: a final one and one at the top everything, a round up to the newest time of the round before, a half up to the middle of the times, a timed one up to its time, a counted one that many |
| `OrderedEvents.ForcedSteps` | lib/ordered-events.c:194-198 | so is a queue call that found no memory, with the flush it makes |
| `OrderedEvents.Serve` | lib/ordered-events.c:182-301 | each call of the implementation is at most one step of the abstract run, for the same event |
| `OrderedEvents.Session` | lib/ordered-events.c:182-301 | after any session of queue and flush calls the implementation is where a run of the abstract queue with the same events in the same order ends; what is queued and delivered is what entered; and once drained, delivery was in time order exactly when nothing entered late |
| `OrderedEvents.FreeFacts` | lib/ordered-events.c:340-375 | the slots up to the last used one hold exactly the copies still to be freed |
| `OrderedEvents.EventQueue.constructor` | lib/ordered-events.c:326-338 | an empty queue with nothing allocated |
| `OrderedEvents.EventQueue.DupEvent` | lib/ordered-events.c:50-66 | a fresh copy, or the event itself when not copying; fails only without memory or over the limit |
| `OrderedEvents.EventQueue.TakeSlot` | lib/ordered-events.c:121-149 | a slot from the cache, the current buffer or a new buffer, never one in use; fails only without memory or over the limit |
| `OrderedEvents.EventQueue.AllocEvent` | lib/ordered-events.c:81-155 | a slot with the event in it, or nothing changed, the copy given back |
| `OrderedEvents.EventQueue.QueueEvent` | lib/ordered-events.c:24-36 | the order is the sorted insertion and the newest time is kept |
| `OrderedEvents.EventQueue.NewEvent` | lib/ordered-events.c:157-170 | the abstract queue gains the item, or is unchanged on failure; it cannot fail while there is memory below the limit |
| `OrderedEvents.EventQueue.Delete` | lib/ordered-events.c:172-180 | the event leaves the order and its slot is cached |
| `OrderedEvents.EventQueue.Dequeue` | lib/ordered-events.c:227-228 | delivering the first item is one delivery of the abstract run |
| `OrderedEvents.EventQueue.FlushOne` | lib/ordered-events.c:216-228 | a later item ends the flush, a refused one stays queued, any other is delivered |
| `OrderedEvents.EventQueue.FlushCounted` | lib/ordered-events.c:216-232 | the remaining count and the items already delivered add up to the whole flush after every item |
| `OrderedEvents.EventQueue.DoFlush` | lib/ordered-events.c:207-238 | exactly the specified prefix is delivered, with the code of a refusal |
| `OrderedEvents.EventQueue.FlushLimit` | lib/ordered-events.c:243-289 | limit and count of each kind of flush |
| `OrderedEvents.EventQueue.CloseRound` | lib/ordered-events.c:293-299 | a round ends by remembering the newest time |
| `OrderedEvents.EventQueue.Flush` | lib/ordered-events.c:240-301 | each kind of flush has the specified effect on the queue and result; a half flush without a last event does nothing |
| `OrderedEvents.EventQueue.Queue` | lib/ordered-events.c:182-205 | times 0 and ~0 are refused unchanged; otherwise the event is counted if late and queued, after flushing 32 when memory ran out, and fails only if that did not help |
| `OrderedEvents.EventQueue.CountLate` | lib/ordered-events.c:190-192 | the counter grows exactly for a time before the last delivered one |
| `OrderedEvents.EventQueue.FreeBuffer` | lib/ordered-events.c:340-352 | the copies of the slots of one buffer are freed, each once |
| `OrderedEvents.EventQueue.Free` | lib/ordered-events.c:354-375 | no copy is left |
| `RpLists.PushOk` | lib/rpmalloc.c:1082-1092 | pushing a block on a free list whose link it already carries keeps every list a duplicate-free chain of the blocks placed on it |
| `RpLists.PopOk` | lib/rpmalloc.c:979-986 | the head of a non-empty list is its first block, and popping keeps all lists |
| `RpLists.TakeAllOk` | lib/rpmalloc.c:1139-1146 | moving a whole list keeps all lists |
| `RpLists.CarveOk` | lib/rpmalloc.c:1148-1179 | linking blocks never handed out before keeps all lists |
| `RpLists.AtMost` | lib/rpmalloc.c:1148-1179 | a duplicate-free list of a page is no longer than its initialised blocks, and has them all when it is as long |
| `RpHeap.HeapPopInv` | lib/rpmalloc.c:1590-1597 | popping the heap list keeps the invariant of the heap: every block in one place, exact counts, page states that match |
| `RpHeap.GetLocalInv` | lib/rpmalloc.c:979-986 | popping the local list of a page keeps the invariant of the heap: every block in one place, exact counts, page states that match |
| `RpHeap.AdoptInv` | lib/rpmalloc.c:1094-1108 | adopting the list other threads freed to keeps the invariant of the heap: every block in one place, exact counts, page states that match |
| `RpHeap.InitInv` | lib/rpmalloc.c:1148-1179 | carving new blocks out of a page keeps the invariant of the heap: every block in one place, exact counts, page states that match |
| `RpHeap.PushInv` | lib/rpmalloc.c:1139-1146 | moving the local list of a page to the heap keeps the invariant of the heap: every block in one place, exact counts, page states that match |
| `RpHeap.FinishInv` | lib/rpmalloc.c:1181-1219 | finishing an allocation, which may make the page full keeps the invariant of the heap: every block in one place, exact counts, page states that match |
| `RpHeap.PutInv` | lib/rpmalloc.c:1082-1092 | freeing into the own page, which may make it available or free keeps the invariant of the heap: every block in one place, exact counts, page states that match |
| `RpHeap.GrabInv` | lib/rpmalloc.c:1526-1577 | taking the deferred frees of the heap keeps the invariant of the heap: every block in one place, exact counts, page states that match |
| `RpHeap.UnlistInv` | lib/rpmalloc.c:1526-1577 | taking the next of them keeps the invariant of the heap: every block in one place, exact counts, page states that match |
| `RpHeap.RemakeInv` | lib/rpmalloc.c:1450-1475 | reusing a free page for another size class keeps the invariant of the heap: every block in one place, exact counts, page states that match |
| `RpHeap.AddPageInv` | lib/rpmalloc.c:1242-1270 | adding a page keeps the invariant of the heap: every block in one place, exact counts, page states that match |
| `RpHeap.ChooseInv` | lib/rpmalloc.c:1273-1292 | a foreign thread starting a free keeps the invariant of the heap: every block in one place, exact counts, page states that match |
| `RpHeap.LoadInv` | lib/rpmalloc.c:1110-1137 | its load of the list word keeps the invariant of the heap: every block in one place, exact counts, page states that match |
| `RpHeap.ExchangeInv` | lib/rpmalloc.c:1110-1137 | its successful compare-exchange keeps the invariant of the heap: every block in one place, exact counts, page states that match |
| `RpHeap.UserWriteInv` | lib/rpmalloc.c:1181-1219 | the program may overwrite the link words of a block it holds with anything |
| `RpHeap.StepInv` | lib/rpmalloc.c:1082-1219 | every step of the owner and of any other thread keeps the invariant |
| `RpHeap.StartInv` | lib/rpmalloc.c:1364-1370 | an empty heap satisfies it |
| `RpHeap.RunInv` | lib/rpmalloc.c:1082-1219 | so does every state of every interleaving |
| `RpHeap.OnePlace` | lib/rpmalloc.c:1082-1327 | over every run of any number of threads the head and link words of each list chain exactly the blocks placed on it, each once; none is lost or doubled |
| `RpHeap.CountsExact` | lib/rpmalloc.c:1082-1219 | over every run the counts of a page are the lengths of its lists, and used plus local blocks are the initialised ones |
| `RpHeap.GivenOnce` | lib/rpmalloc.c:1181-1219 | over every run, a block handed out was with nobody, and is of the size class asked for |
| `RpHeap.NeverTwice` | lib/rpmalloc.c:1181-1219 | over every run of any threads, between two steps that hand out the same block some step frees it |
| `RpHeap.HeldUntilFreed` | lib/rpmalloc.c:1181-1219 | a block that is held stays held through any further run that does not free it |
| `RpHeap.AdoptGets` | lib/rpmalloc.c:1181-1219 | in every state reached, an allocation that adopts the foreign list gets a block out of it |
| `RpHeap.OwnerProceeds` | lib/rpmalloc.c:1181-1219 | in every state reached, an allocation under way has a next step |
| `RpHeap.FreePage` | lib/rpmalloc.c:1018-1036 | all blocks of a page marked free are on its local list |
| `RpReturns.StepFree` | lib/rpmalloc.c:1082-1219 | every step keeps it: a page no operation is at is marked free exactly when blocks were made and none is used |
| `RpReturns.FlagsExact` | lib/rpmalloc.c:1018-1219 | in every state reached, a page no operation is at is marked free exactly when none of the blocks made is used, and full exactly when all there is room for are |
| `RpReturns.FreeFirst` | lib/rpmalloc.c:1182-1207 | in every state reached, a page's own list is used first, new blocks are made only if the shared list was seen empty, and a page all in use is left only if it was |
| `RpReturns.HandsOver` | lib/rpmalloc.c:1140-1150 | afterwards the heap has the blocks of the page ready if it had none of the class, and else both lists are as they were |
| `RpReturns.ComesBack` | lib/rpmalloc.c:1111-1136 | after any run, when another thread frees a block of a full page, three steps of it and three of the owner make the page available with that block to be handed out next |
| `RpSizes.TableRow` | lib/rpmalloc.c:512-535 | each row of the class table is 5 to 8 quarters of a power of two |
| `RpSizes.SubclassFits` | lib/rpmalloc.c:650-676 | the class from the top three bits is the first whose size exceeds the count, and is in the table exactly below 2^19 |
| `RpSizes.SmallestFit` | lib/rpmalloc.c:650-676 | a size gets a class exactly up to 8 MiB, its block holds it, and no class with smaller blocks does |
| `RpSizes.TinyAgrees` | lib/rpmalloc.c:644-648 | the shortcut for small sizes gives a block of the same size |
| `RpSizes.BlockInPage` | lib/rpmalloc.c:948-956 | every block lies inside its page behind the header, aligned to 16, and masking any address in it gives the page |
| `RpSizes.AlignedInBlock` | lib/rpmalloc.c:1680-1710 | an allocation aligned to a power of two is aligned, fits its block, and realigning its address finds the block again |
| `RpSizes.MaskIsRemainder` | lib/rpmalloc.c:1700-1703 | masking with one less than a power of two is taking the remainder |
| `RpSizes.AlignedExactly` | lib/rpmalloc.c:1699-1703 | whatever size is asked for and whichever block of the page is given, the pointer is aligned in two neighbouring pages exactly when the alignment is a power of two |
| `RpSizes.Misaligned48` | lib/rpmalloc.c:1700-1703 | a block at 0x20080 is not moved for the alignment 48, of which it is no multiple |
| `RpSizes.WrapExactly` | lib/rpmalloc.c:1680-1710 | the block holds the aligned request exactly when size plus alignment does not wrap at 2^64 |
| `RpSizes.WrapExample` | lib/rpmalloc.c:1680-1710 | it does wrap: the largest size aligned to 32 gets a block of 32 bytes |
| `RpSizes.ManyBlocks` | lib/rpmalloc.c:1242-1270 | every page has at least 7 and fewer than 2^32 blocks |
| `RpSizes.PackRoundTrip` | lib/rpmalloc.c:958-970 | packing and unpacking index and count of the foreign list is exact, and a non-empty list is not the word 0 |
| `DigestSpec.PassWeight` | lib/tdigest.c:54-99 | a merge pass keeps the total weight |
| `DigestSpec.PassSorted` | lib/tdigest.c:54-99 | and the order of the means |
| `DigestSpec.FirstAlone` | lib/tdigest.c:74-77 | nothing is ever merged into the first centroid, whatever the scale |
| `DigestSpec.LastAlone` | lib/tdigest.c:74-77 | the last centroid is merged into nothing |
| `DigestSpec.EndsKept` | lib/tdigest.c:54-99 | so the smallest and the largest centroid come out as they went in |
| `DigestSpec.AbsorbSum` | lib/tdigest.c:79-84 | merging a centroid into another keeps the sum of mean times weight |
| `DigestSpec.PassSum` | lib/tdigest.c:54-99 | so does a whole merge pass |
| `DigestSpec.PassRuns` | lib/tdigest.c:54-99 | each centroid a pass leaves is the weighted mean of a run of neighbours, the runs follow one another without gap, each was allowed at every step and could not be longer |
| `DigestSpec.JoinsIffAllowed` | lib/tdigest.c:74-77 | two are merged exactly if their weight is within the scale times the smaller spread at the ends of the range they cover |
| `DigestQuantile.AverageMono` | lib/tdigest.c:30-42 | a weighted average lies between its values and moves up with the weight of the larger |
| `DigestQuantile.BracketMono` | lib/tdigest.c:145-223 | between two centroids the answer is between their means and grows with the index |
| `DigestQuantile.AverageExact` | lib/tdigest.c:30-42 | a weighted average is that: times the sum of the weights it is the weighted sum |
| `DigestQuantile.BetweenOnLine` | lib/tdigest.c:187-216 | between two centroids the answers lie on the straight line through their means at their centres, moved in by half a sample at centroids of one sample |
| `DigestQuantile.OuterOnLine` | lib/tdigest.c:163-185 | before the first and behind the last centre they lie on the line from the minimum, one sample in, and to the maximum |
| `DigestQuantile.AlwaysInGap` | lib/tdigest.c:187-222 | an index between the first and the last centre is always inside a gap: the code behind the search is never reached |
| `DigestQuantile.DefinedExactly` | lib/tdigest.c:145-223 | the answer is not a number exactly outside [0, 1], on an empty digest, and at the one index a sample before the end when the last centroid has weight 2 |
| `DigestQuantile.UndefinedInside` | lib/tdigest.c:182-185 | two thirds of the way through samples of weight 1 and 2 the answer is not a number |
| `DigestQuantile.LastQuantile` | lib/tdigest.c:176-178 | the last quantile is the recorded maximum |
| `DigestQuantile.WithinMinMax` | lib/tdigest.c:145-223 | every answer lies between the recorded minimum and maximum |
| `DigestQuantile.QuantileMono` | lib/tdigest.c:145-223 | a larger quantile never has a smaller answer |
| `TDigest.MergeFacts` | lib/tdigest.c:54-99 | a merge of any sorted permutation keeps weight, the sum of mean times weight, order and both ends |
| `TDigest.MergeSound` | lib/tdigest.c:54-99 | a merge accounts for all that was added, and its minimum and maximum are those of all samples |
| `TDigest.AppendSound` | lib/tdigest.c:132-143 | a sample is accounted for once |
| `TDigest.ViewGood` | lib/tdigest.c:145-155 | a merged digest meets what the quantile theorems assume; its mean is the mean of the samples, its minimum the smallest sample, and its maximum the largest sample exactly when some sample reaches the initial value |
| `TDigest.MaxExactly` | lib/tdigest.c:97-98 | the maximum kept is the largest sample if and only if some sample reaches its initial value |
| `TDigest.AnswersAmongSamples` | lib/tdigest.c:145-223 | all answers lie between the smallest and the largest sample if and only if there is one centroid or the largest sample reaches the initial value of the maximum |
| `TDigest.NegativeSamples` | lib/tdigest.c:117-122 | of the samples -2 and -1 the last quantile is the initial value of the maximum, above both |
| `TDigest.Sketch.constructor` | lib/tdigest.c:101-125 | an empty digest |
| `TDigest.Sketch.Compact` | lib/tdigest.c:73-92 | the loop in the array leaves the specified centroids and clears the rest |
| `TDigest.Sketch.JoinOrMove` | lib/tdigest.c:74-91 | one round leaves what is done and what is left of the same pass |
| `TDigest.Sketch.Merge` | lib/tdigest.c:54-99 | nothing unmerged is left and the centroids are the compacted ones |
| `TDigest.Sketch.Add` | lib/tdigest.c:132-143 | the digest stands for one sample more |
| `TDigest.Sketch.QuantileOf` | lib/tdigest.c:145-223 | the loop answers the specified quantile of a digest that accounts for every sample added, with their mean, and the answer lies among the samples under that condition |
| `TDigest.Sketch.LookUp` | lib/tdigest.c:159-222 | the three regions of the index |
| `TDigest.Sketch.Interpolate` | lib/tdigest.c:187-216 | the search finds the gap and interpolates in it |
| `Clock.ToTscExact` | src/convert.c:44-55 | dividing first loses nothing: the result is the exact quotient modulo 2^64, and the shifted remainder never overflows |
| `Clock.ToTscFits` | src/convert.c:44-55 | it is the exact quotient if and only if that fits in 64 bits |
| `Clock.OrderKept` | src/convert.c:44-55 | later times do not become earlier, as long as the later one fits in 64 bits |
| `Clock.BackAndForth` | src/convert.c:44-65 | scaling and back never gains and loses at most the rounded-up (mult - 1) / 2^shift |
| `Clock.RoundTrip` | src/convert.c:44-65 | the same for the 64-bit functions with their offset, as long as the scaled time fits |
| `Clock.EventRoundTrip` | src/convert.c:393-430 | to the event clock and back is exact without scaling and otherwise within that bound, for any clock offset |
| `Clock.OffsetMoves` | src/convert.c:393-406 | a clock offset moves every converted time forward by as much, modulo 2^64, and does nothing without conversion |
| `Clock.NearestMult` | src/convert.c:707-736 | the multiplier is the nearest to the ratio scaled by the shift |
| `Clock.MultRange` | src/convert.c:707-736 | the sum that is divided fits in 64 bits |
| `Clock.SafeProduct` | src/convert.c:700-736 | a multiplier of the chosen accuracy times any count the range covers stays below 2^64 |
| `Clock.Accuracy` | src/convert.c:707-722 | the first loop leaves 32 less the bits of the high word of the range |
| `Clock.CalcMultShift` | src/convert.c:707-736 | the search finds the largest shift that fits, exactly when the shift 1 does, and the result is the nearest to the ratio exactly then or when the ratio rounds to 1 |
| `Clock.NoFitDoubles` | src/convert.c:724-736 | when not even the shift 1 fits, the result has shift 0 with the multiplier of shift 1: nearest to twice the ratio, unless it wraps |
| `Clock.NoFitNearest` | src/convert.c:724-736 | when nothing fits the result is the nearest if and only if the multiplier for the shift 1 is 1 and the ratio at least a half |
| `Clock.NoFitExample` | src/convert.c:724-736 | it happens: 2^30 to 2^31 over the longest range gives 4 with the shift 0 where 2 is the ratio |
| `SampleLayout.CountMatches` | src/convert.c:1104-1242 | for every sample type the counted members are the members built |
| `SampleLayout.WalkSplits` | src/convert.c:1253-1310 | for every sample type and record, walking the fields one by one equals the fixed offset plus the sizes of the variable fields before |
| `SampleLayout.OffsetIsWalk` | src/convert.c:1253-1310 | the offset of every member in every record is where walking the record field by field finds it |
| `SampleLayout.DepIsField` | src/convert.c:1266-1305 | the size counted for each variable field is the size that field has in the record |
| `SampleLayout.OffsetInRecord` | src/convert.c:1253-1310 | the loop over the fields before a member arrives where walking the record does |
| `SampleLayout.CountMembers` | src/convert.c:1104-1129 | the counting pass |
| `SampleLayout.BuildMembers` | src/convert.c:1131-1242 | the building pass fills exactly the counted array with the specified members |
| `SampleLayout.AddMembers` | src/convert.c:1139-1237 | one field adds its members behind those before |
| `SampleLayout.InitPositions` | src/convert.c:491-561 | the fixed positions of tid, time, id, cpu and call chain, each -1 exactly when absent |
| `SampleLayout.PositionsAgree` | src/convert.c:491-561 | these positions are where walking any record finds the fields |
| `CdevStream.FirstSize` | src/event-spread.c:552-576 | at a record boundary the header gives the size of the next record |
| `CdevStream.LeftoverSmall` | src/event-spread.c:552-576 | what is left of an incomplete record is shorter than the longest record, so the buffer always has room |
| `CdevStream.OneReading` | src/event-spread.c:552-576 | a byte stream of records splits into whole records and a rest in only one way |
| `CdevStream.LostRecord` | src/event-spread.c:864-872 | the note of lost records is itself a well-formed record |
| `CdevStream.NoteSays` | src/event-spread.c:864-872 | read field by field its bytes are a record of type 2 with id 0 and the count, for every count below 2^64 |
| `CdevStream.ReadOff` | src/event-spread.c:864-872 | the counts read off any stream are the counts noted on it, and the other records are the rest |
| `Cdev.RingArith` | include/linux/circ_buf.h:16-36 | the ring macros give count and space, also up to the end, and one byte always stays free |
| `Cdev.HeldAfterAppend` | src/event-spread.c:843-876 | copying in one or two pieces appends the record to what the ring holds |
| `Cdev.HeldAfterWrite` | src/event-spread.c:607-634 | what a write takes is the front of what the ring holds |
| `Cdev.Pusher.constructor` | src/event-spread.c:679-795 | an empty ring |
| `Cdev.Pusher.Append` | src/event-spread.c:843-876 | the bytes held are those before and the record |
| `Cdev.Pusher.Put` | src/event-spread.c:843-876 | a record goes in whole: bytes written and bytes held are together the records accepted |
| `Cdev.Pusher.WriteOut` | src/event-spread.c:607-634 | a write moves the front of the ring to the device, behind what the device accepted before; only an empty ring is not written, and nothing moves only if the device refuses |
| `Cdev.Pusher.Drain` | src/event-spread.c:607-634 | draining writes until the ring is empty or the device refuses, and not beyond; it keeps what was accepted and enters the note of losses with the exact count, at most once, and not at all only if no write took as much as a note |
| `Cdev.Pusher.Broadcast` | src/event-spread.c:843-876 | a record that fits is accepted at once; one that does not is accepted after draining, or counted lost if it still does not fit, which happens only when the device refused a write; every count reaches the stream in a note or is still pending |
| `Cdev.Puller.constructor` | src/event-spread.c:679-795 | an empty read buffer |
| `Cdev.Puller.Receive` | src/event-spread.c:552-576 | however the stream is cut into pieces, exactly the records complete by now have been processed, in order |
| `Cdev.Puller.TakeWhole` | src/event-spread.c:565-572 | whole records are processed and what is left holds none |
| `Cdev.Puller.MoveDown` | src/event-spread.c:573-576 | the rest moves to the front |
| `Cdev.NextRecord` | src/event-spread.c:565-572 | the next complete record in the buffer is the next one of the stream |
| `Cdev.Transfer` | src/event-spread.c:552-634 | writer to reader: the records processed are the first of those put into the ring, all that arrived whole |
| `Cdev.Connection` | src/event-spread.c:552-634 | over any run of broadcasts, writable events and reads, and any sizes of writes and reads: the records processed are the first of those sent, all that arrived whole; those sent for applications are some of those broadcast, in order; sent, noted and lost add up to those broadcast, also when the counts are read off the bytes of the stream |
| `Cdev.Position` | src/event-spread.c:552-634 | at any time the reader has processed exactly the sent records that have arrived whole |
| `LostWindow.EnlistSorted` | src/kmemleak.c:332-355 | windows of lost events stay sorted by start |
| `LostWindow.SkimDrops` | src/kmemleak.c:631-660 | walking the list drops an event exactly inside some listed window, and leaves only later windows otherwise |
| `LostWindow.DropIffInside` | src/kmemleak.c:631-660 | over any run, an event is dropped exactly when it lies inside a window told before it, whatever the list still holds |
| `LostWindow.ClearIffBegun` | src/kmemleak.c:631-660 | what an earlier event left is thrown away exactly when a window has begun since |
| `LostWindow.KeptExactly` | src/kmemleak.c:631-660 | over any run of events in time order and windows told at any moment, what is kept are exactly the events outside every window told before them with no window begun since; the list holds exactly the windows that are not over |
| `LostWindow.EventKeeps` | src/kmemleak.c:631-660 | what one event drops, keeps and throws away, said of the events and windows alone |
| `LostWindow.ThroughSays` | src/kmemleak.c:631-660 | no window comes between two events exactly when the first is inside none and every window told by the second began before the first and was known to it, or begins no earlier than the second |
| `LostWindow.MatchApart` | src/kmemleak.c:631-660 | two events with no window between them lie wholly before or wholly after every window told before the second, and every one told in time |
| `LostWindow.KeptApart` | src/kmemleak.c:631-660 | what is kept lies outside every window told before it, told in time, or followed by an event |
| `LeakRuns.LiveExactly` | src/kmemleak.c:728-756 | after any run, live is exactly what was allocated outside the windows and neither freed, nor allocated again, nor cut off by a window |
| `LeakRuns.MatchesExactly` | src/kmemleak.c:728-756 | over any run, a free is matched with an allocation exactly when it is of the same address, nothing happened there between them and no window comes between; and at most once |
| `LeakRuns.CountOne` | src/kmemleak.c:747-756 | `total_alloc` and `total_free` count exactly the allocations and frees outside the windows |
| `LeakRuns.NoneAcross` | src/kmemleak.c:631-660 | no match reaches across a window told before the free, or told in time |
| `LeakRuns.LiveOutside` | src/kmemleak.c:631-660 | nothing live lies inside such a window |
| `LeakRuns.LateWindow` | src/kmemleak.c:332-355 | a window told after the free and after its own start comes too late |
| `Trackers.BytesLess` | src/kmemleak.c:105-112 | removing an allocation takes its size off the sum |
| `Trackers.BytesMore` | src/kmemleak.c:125-149 | adding one puts its size on |
| `Trackers.Kmemleak.constructor` | src/kmemleak.c:105-149 | nothing tracked |
| `Trackers.Kmemleak.NothingSpans` | src/kmemleak.c:631-660 | at any time, no allocation matched and none live reaches across any window told so far that was told before it, is followed by an event, or was told in time |
| `Trackers.Kmemleak.Lost` | src/kmemleak.c:332-355 | the window is entered in order and belongs to the run |
| `Trackers.Kmemleak.Reclaim` | src/kmemleak.c:308-330 | everything tracked is dropped and the counters are 0 |
| `Trackers.Kmemleak.EventLost` | src/kmemleak.c:631-660 | the windows over are gone, the table is cleared if one opened, and the event is dropped exactly inside one |
| `Trackers.Kmemleak.Insert` | src/kmemleak.c:739-746 | an older entry of the address is replaced, and number and bytes stay exact |
| `Trackers.Kmemleak.Erase` | src/kmemleak.c:105-112 | the entry is gone, and number and bytes stay exact |
| `Trackers.Kmemleak.Release` | src/kmemleak.c:752-754 | an entry that is found is erased |
| `Trackers.Kmemleak.Alloc` | src/kmemleak.c:733-747 | table, windows, matches and all counters are those of the run with this allocation |
| `Trackers.Kmemleak.Free` | src/kmemleak.c:748-756 | table, windows, matches and all counters are those of the run with this free |
| `Trackers.LeakSession` | src/kmemleak.c:631-756 | a whole session of allocations, frees and windows: matched are exactly the pairs that should be, live exactly what should be, and no match reaches across a window |
| `Trackers.Inserted` | src/blktrace.c:376-400 | the walk from the front inserts in order |
| `Trackers.Skimmed` | src/blktrace.c:402-435 | the loop over the windows |
| `RequestRuns.TrackedExactly` | src/blktrace.c:446-517 | after any run, tracked is exactly each request by its last sample, if that opened or moved it, no later sample took it on, and no window has begun since |
| `RequestRuns.OfferedExactly` | src/blktrace.c:461-478 | a sample is offered exactly the requests still open with no window since their last sample |
| `RequestRuns.MatchesExactly` | src/blktrace.c:461-498 | a latency is counted exactly for each sample let through whose search finds a request |
| `RequestRuns.MatchesOpen` | src/blktrace.c:477-498 | and it is counted from the last sample of a request still open, once, with no window between |
| `RequestRuns.NoneAcross` | src/blktrace.c:402-435 | no latency reaches across a window told before its end, or told in time |
| `RequestRuns.TrackedOutside` | src/blktrace.c:402-435 | no request stands at a sample inside such a window |
| `RequestRuns.AtStageExactly` | src/blktrace.c:475-498 | the latencies of a stage are exactly those counted that end at it |
| `RequestSearch.EqualIffOverlap` | src/blktrace.c:101-117 | the comparison calls two requests equal exactly if they are of one device and some sector is common to both |
| `RequestSearch.EmptyBehindItself` | src/blktrace.c:101-117 | two requests for no sector at one place each compare as behind the other |
| `RequestSearch.Monotone` | src/blktrace.c:101-117 | what lies before another request does not compare further behind |
| `RequestSearch.Find` | lib/rblist.c:53-93 | what the search finds is tracked and overlaps; while the requests are in order it finds one exactly if there is one |
| `RequestSearch.OverwriteKeepsOrder` | src/blktrace.c:506-513 | overwriting the request found keeps the order if and only if the new one overlaps no other |
| `RequestSearch.OverwriteBreaksOrder` | src/blktrace.c:506-513 | it need not: a request across the end of one and the start of the next |
| `Trackers.OneMore` | src/blktrace.c:446-517 | minimum, maximum, sum and number stay those of the latencies counted |
| `Trackers.StageMore` | src/blktrace.c:490-498 | after a sample that found its request, the statistics of every stage describe the latencies of the run |
| `Trackers.Blktrace.constructor` | src/blktrace.c:446-517 | nothing tracked |
| `Trackers.Blktrace.NothingSpans` | src/blktrace.c:402-435 | at any time, no latency counted and no request tracked reaches across any window told so far that was told before it, is followed by an event, or was told in time |
| `Trackers.Blktrace.Lost` | src/blktrace.c:376-400 | the window is entered in order and belongs to the run |
| `Trackers.Blktrace.EventLost` | src/blktrace.c:402-435 | as for memory allocations, on the tracked requests |
| `Trackers.Blktrace.Sample` | src/blktrace.c:446-517 | tracks, windows, latencies and statistics are those of the run with this sample; a tracked request yields one latency at its new stage and moves on, is done, or is new; inside a window and for flush requests nothing is counted |
| `Trackers.Blktrace.Record` | src/blktrace.c:490-498 | the statistics of the stage count the latency |
| `Trackers.Blktrace.Follow` | src/blktrace.c:506-517 | the tracked requests afterwards |
| `Trackers.RequestSession` | src/blktrace.c:402-517 | a whole session of samples and windows: a latency is counted exactly where it should be, none reaches across a window, and the statistics are those of the latencies |

## Left out

- Calls of builtins in expressions (`printf`, `ksymbol`, `strncmp` and the others), the lexer and the symbol table: tokens carry the address and type of a name.
- Parse.Climb: after a word has been overwritten, or a load taken back that a jump goes behind, the model stops with `Garbled` and does not follow the source, which compiles on; after `&` an instruction of two words emitted next makes the buffer sound again (`Encoding.RepairExact`).
- Parse.Prefix: stops at the same places, for `&`, `++` and `--`.
- Parse.Operator: stops at the same places, for `=`.
- Verdict.EmitJudged: calls `*&(a && b)` garbled at the `&`, although the source's buffer is sound again one instruction later.
- AnyTokens.AnyJudged: the same.
- Local variables, subroutines and the debug output of the interpreter: the compiler never emits their instructions.
- Vm.RunStr: traps unless both strings are mapped to their end, where the source stops at the first difference.
- BpfTheorems.BpfRefinesMeaning: says nothing about runs on which the expression is undefined in C.
- The verifier of the kernel and the attachment of the BPF program.
- Augment callbacks of the red-black tree, `rb_prev`, `rb_replace_node`, postorder walks and lockless readers.
- OrderedEvents.EventQueue.Queue: the counters of events are unbounded integers; the source keeps them in 32 bits.
- OrderedEvents.Session: fewer than 2^32 calls, because the source counts queued events in 32 bits.
- OrderedEvents.EventQueue.Flush: does not model `last_flush_type`, which is only reported.
- OrderedEvents.EventQueue.Free: frees the copies; the buffers themselves are not modelled as memory.
- RpHeap.RunInv: atomic accesses are interleaved one at a time, so weaker memory orders are not modelled, and a heap is not taken over by another thread when its owner exits.
- RpHeap.InitInv: how many blocks a page links ahead is any number that fits, where the source stops at the end of a memory page.
- Huge blocks, reallocation, zeroing, mapping and decommitting of memory in the allocator.
- TDigest.Sketch.Add: assumes that a merge of a full array leaves room, because the bound on the number of centroids depends on the logarithm in the scale and on how large the weights get.
- TDigest.Sketch.QuantileOf: means and quantiles are real numbers, so rounding of doubles is not modelled; the scale of the merge is any number.
- Clock.EventRoundTrip: does not cover the conversion to the clock of a virtual machine.
- SampleLayout.OffsetIsWalk: a branch stack is entries only, as the source sizes it, without the optional index and counters of newer kernels.
- SampleLayout.InitPositions: takes the common sample type as given; the comparison across events and the override by a profiler are not modelled.
- Cdev.Pusher.Broadcast: does not model the header records written when a reader connects, nor the reset when it hangs up.
- Cdev.Puller.Receive: processing a record never fails.
- Cdev.Puller.MoveDown: copies upwards, also where the ranges overlap, which `memcpy` leaves undefined.
- Cdev.Connection: one connection, from connect to hang-up.
- The file and socket transports of `src/event-spread.c`.
- Trackers.Kmemleak.Lost: always finds memory for the window.
- Trackers.Blktrace.Sample: which tracked request a search finds is a parameter that must overlap the sample, because requests are changed in place inside the search tree.
- RequestSearch.Find: sectors and counts are unbounded integers, where the source adds them in 64 bits.
- Clock.OffsetMoves: does not cover the clock of a virtual machine.
- SampleLayout.OffsetInRecord: offsets are unbounded integers, where the source adds in 32 bits.
- Reports, printing, options, and the profilers other than the two modelled: they would add easy members only.
