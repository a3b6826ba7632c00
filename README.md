# haribote-lang back end in Dafny

This project models the back end of haribote-lang, a small interpreted
language written in Rust, and proves properties of that model. The back end
takes the intermediate code the parser produces and works with its variable
store. It has five parts:

- **The variable store** (`VarMap`): integer scalars, integer arrays and the
  label table, with reads, writes and fatal errors.
- **The control-flow graph builder** (`ControlFlow`): successor and
  predecessor lists over the instructions, plus an exit node.
- **Constant propagation** (`Constant`): a worklist analysis that computes,
  for every instruction, which variables hold known constants.
- **The optimisation passes**: jump chains collapsed (`Peekhole`), code
  unreachable from line 0 blanked out (`Unreachable`), and `Nop`s compacted
  away with the label table renumbered (`NopRemoval`).
- **The interpreter** (`Exec`): a program counter walking the instruction
  vector.

Each part takes the form of the Rust code it models:

- Code that updates state step by step becomes methods on classes, with
  loops and invariants:
  - `VariableMap` has three map fields.
  - `Parser` holds the instruction vector.
- Every such method is proved against a specification function over values
  (`Store`, `CfgOf`, `Peephole`, `Compact`/`Renumbered`, `Run`, `In`), and
  the promised properties are lemmas about those functions.
- Code that is pure recursion or matching (`get_dist`, `is_constant`,
  `get_constant_var`) becomes functions.

Fatal errors (`panic!`, `error_exit`, an `unwrap` on `None`, integer
overflow in a debug build) become the `Err` case of a `Result`. A run or a
pass returns that error instead of stopping the process. Integers are the
source's `i32`, as a newtype. Arithmetic that leaves that range is the
`Overflow` error. Rust's `/` is truncating division (`Ir.Quot`). A negative
`i32` cast to `usize` becomes a huge index (`Ir.AsUsize`).

Files: `ir.dfy` (tokens, instructions, errors, `i32` arithmetic, the
`Parser` object), `var_map.dfy`, `cfg.dfy`, `constant.dfy`, `peekhole.dfy`,
`remove_unreachable.dfy`, `remove_nop.dfy`, `exec.dfy`.

## Model

| member | source | states |
|---|---|---|
| VarMap.Store.Get | src/var_map.rs:26-39 | a number literal reads as its own value and changes nothing; a known identifier reads its stored value and changes nothing; an unknown identifier reads 0 and the map gains that name with value 0; any other token kind is fatal; arrays and labels never change |
| VarMap.Store.Set | src/var_map.rs:42-44 | the name now holds `val`; every other scalar, every array and every label is unchanged |
| VarMap.Store.ArrayInit | src/var_map.rs:47-50 | the name now holds exactly `size` zeros, whatever it held before; other arrays, scalars and labels are unchanged |
| VarMap.Store.ArrayGet | src/var_map.rs:52-66 | `Ok` iff the array exists and the index is below its length, and the result is that element; an undeclared name and an index at or past the end are the two distinct errors |
| VarMap.Store.ArraySet | src/var_map.rs:68-83 | `Ok` iff the array exists and the index is in range; then only that element changes, the length and every other array stay, and scalars and labels are untouched; otherwise the matching error |
| VarMap.Store.LabelGet | src/var_map.rs:86-91 | the stored line iff the label exists, otherwise the undefined-label error |
| VarMap.Store.LabelSet | src/var_map.rs:94-96 | only that label entry is overwritten |
| VarMap.GetOnFreshStore | src/var_map.rs:104-109 | on a fresh store, literal 100 reads as 100 and the unknown `a` reads as 0, recording `a` as 0 |
| VarMap.VariableMap.constructor | src/var_map.rs:16-23 | all three maps start empty |
| VarMap.VariableMap.Get | src/var_map.rs:26-39 | the mutable store returns, and changes to, what `Store.Get` says |
| VarMap.VariableMap.Set | src/var_map.rs:42-44 | the new store is `Store.Set` of the old |
| VarMap.VariableMap.ArrayInit | src/var_map.rs:47-50 | remove then insert gives `Store.ArrayInit` of the old store |
| VarMap.VariableMap.ArrayGet | src/var_map.rs:52-66 | returns `Store.ArrayGet` of the current store |
| VarMap.VariableMap.ArraySet | src/var_map.rs:68-83 | the new store is `Store.ArraySet` of the old; on an error the store is unchanged |
| VarMap.VariableMap.LabelGet | src/var_map.rs:86-91 | returns `Store.LabelGet` of the current store |
| VarMap.VariableMap.LabelSet | src/var_map.rs:94-96 | the new store is `Store.LabelSet` of the old |
| Ir.Checked | src/exec.rs:26-40 | an exact result is kept iff it fits an `i32`, otherwise it is the overflow error |
| Ir.Apply | src/exec.rs:26-68 | `+ - *` succeed iff the exact result fits an `i32`, and then equal it; `/` fails with the zero-division error iff the divisor is 0, and otherwise gives the truncated quotient; the comparisons always succeed and give 1 iff their relation holds, 0 otherwise |
| Ir.AsUsize | src/exec.rs:93-116 | a non-negative `i32` keeps its value; a negative one becomes at least 2^64 - 2^31, past the end of any vector |
| Ir.Quot | src/exec.rs:47 | definition of truncating division; its contract is stated by `Ir.QuotRemainder` and `Ir.QuotInRange` |
| Ir.QuotRemainder | src/exec.rs:47 | the truncated quotient leaves a remainder smaller than the divisor and with the dividend's sign |
| Ir.DivOverflow | src/exec.rs:41-48 | a division with a nonzero divisor fails iff it is the most negative `i32` divided by -1 |
| Ir.QuotInRange | src/exec.rs:47 | the truncated quotient of two `i32`s fits an `i32` except for the most negative value divided by -1 |
| ControlFlow.NewCfg | src/optimize/cfg.rs:12-19 | `len + 1` empty successor and predecessor lists, and the nodes are the instructions |
| ControlFlow.Target | src/optimize/cfg.rs:26-34 | a jump label resolves iff it is in the label table and its (cast) line is at most `len`; otherwise the undefined-label error or the out-of-range error |
| ControlFlow.Edges | src/optimize/cfg.rs:26-37 | an instruction's edges resolve iff it is not a jump or its label resolves, otherwise the label's error; every resolved edge ends at a node of the graph |
| ControlFlow.Successors | src/optimize/cfg.rs:24-38 | the first `i` successor lists are built iff each of those instructions' edges resolve, and then they are each instruction's own edges |
| ControlFlow.CfgOf | src/optimize/cfg.rs:22-40 | the build succeeds iff every jump's label is in the table and its line is at most `len` |
| ControlFlow.SuccessorsErr | src/optimize/cfg.rs:27-32 | once a jump label fails to resolve the build's result is that error |
| ControlFlow.PredsCount | src/optimize/cfg.rs:29 | node `i` occurs in the predecessor list of `j` exactly as often as `j` occurs among `i`'s successors |
| ControlFlow.PredsMember | src/optimize/cfg.rs:29-37 | every predecessor entry comes from a real node with a matching successor edge |
| ControlFlow.CfgOfWellFormed | src/optimize/cfg.rs:22-40 | every built graph has `len + 1` nodes, an exit node without successors and every edge inside the graph, and its predecessor lists are the exact inverse of its successor lists, multiplicities included |
| ControlFlow.CfgOfEdges | src/optimize/cfg.rs:24-37 | a `Goto` has its label's line as its only successor; an `IfGoto` has its label's line then `i + 1`; every other instruction has `i + 1` |
| ControlFlow.PushEdges | src/optimize/cfg.rs:26-37 | one loop iteration installs instruction `i`'s edges and pushes `i` onto each target's predecessor list in order, or fails with the label's error |
| ControlFlow.IcToCfg | src/optimize/cfg.rs:22-40 | the loop builds exactly `CfgOf`, including the error of the first unresolvable label |
| Constant.GetConstantVar | src/optimize/constant.rs:38-47 | a literal gives its value; an identifier gives its constant when IN holds one and `None` iff it is absent or not constant; any other kind is fatal |
| Constant.IsConstant | src/optimize/constant.rs:22-32 | fails exactly when `GetConstantVar` fails, and is true iff `GetConstantVar` finds a constant |
| Constant.FoldAsWrittenDisagrees | src/optimize/constant.rs:126-129 | the folding as written turns `2 - 1` into 3 and `2 * 3` into 5, where the interpreter computes 1 and 6 |
| Constant.TransferAsWrittenDisagrees | src/optimize/constant.rs:114-170 | the transfer as written records `x = 2 - 1` as 3 where the corrected one records 1, and fails with an overflow on `x = 2147483647 - 1`, which the corrected one folds to 2147483646 |
| Constant.FoldAsWritten | src/optimize/constant.rs:126-165 | definition of the folding as written; `Constant.FoldAsWrittenDisagrees` states where it departs from the interpreter |
| Constant.Transfer | src/optimize/constant.rs:98-172 | definition of the transfer function; its contract is stated by `Constant.TransferShape`, `Constant.ConstantZeroDivision` and `Constant.TransferSound` |
| Constant.TransferCopy | src/optimize/constant.rs:101-112 | definition of the `Copy` transfer; contract by `Constant.TransferShape` and `Constant.CopySound` |
| Constant.TransferBinary | src/optimize/constant.rs:114-170 | definition of the binary transfer with the corrected fold; contract by `Constant.TransferShape`, `Constant.ConstantZeroDivision` and `Constant.BinarySound` |
| Constant.TransferBinaryAsWritten | src/optimize/constant.rs:114-170 | definition of the binary transfer as written; `Constant.TransferAsWrittenDisagrees` states where it departs from the corrected one |
| Constant.TransferShape | src/optimize/constant.rs:98-172 | only `dst` of a `Copy` or binary instruction changes; it becomes a constant iff every operand is constant; every other instruction passes IN through; `-` and `*` fold with the interpreter's operators (the corrected fold) |
| Constant.ConstantZeroDivision | src/optimize/constant.rs:130-133 | a constant zero divisor makes the analysis fail with the zero-division error |
| Constant.JoinInto | src/optimize/constant.rs:76-90 | definition of the three-way case on one IN entry; contract by `Constant.MergeStepAdd` |
| Constant.MergeStep | src/optimize/constant.rs:74-92 | definition of merging one OUT map; contract by `Constant.MergeInto` and `Constant.MergeCharacterization` |
| Constant.MergeOuts | src/optimize/constant.rs:72-93 | definition of merging OUT maps in order; contract by `Constant.MergeCharacterization` and `Constant.MergeOrderIndependent` |
| Constant.In | src/optimize/constant.rs:71-93 | definition of a node's IN; contract by `Constant.MergePreds` and `Constant.InFrame` |
| Constant.MergeCharacterization | src/optimize/constant.rs:71-93 | a variable is in IN iff some predecessor's OUT defines it, and it is `Const(c)` iff every predecessor that defines it says `Const(c)` |
| Constant.MergeOrderIndependent | src/optimize/constant.rs:73-74 | IN depends only on which OUT maps are merged, not on their order or repetition |
| Constant.MergeStepAdd | src/optimize/constant.rs:76-90 | merging one more entry is the source's three-way case on the current IN entry |
| Constant.MergeInto | src/optimize/constant.rs:74-92 | the entries of one OUT map, met in any order, are merged into IN |
| Constant.MergePreds | src/optimize/constant.rs:72-93 | IN is the merge of the predecessors' OUT maps in predecessor order |
| Constant.InFrame | src/optimize/constant.rs:178-184 | a changed OUT map leaves IN of every non-successor unchanged, which is why only successors are queued again |
| Constant.ConstantPropagation | src/optimize/constant.rs:50-189 | when the worklist empties, every node's OUT is the transfer of its IN (a fixed point); when a transfer fails, the node and maps it failed on are returned; the transfer is the one with the corrected fold |
| Constant.GetReadsValue | src/var_map.rs:26-39 | reading a token yields the literal or what the variable reads as, and changes what no variable reads as |
| Constant.ConstantReadsValue | src/optimize/constant.rs:38-47 | a constant the map gives an operand is what that operand reads as in any store agreeing with the map |
| Constant.TransferSound | src/optimize/constant.rs:98-172 | for every instruction except `ArrayGet`: if the store agrees with IN and the instruction executes, the new store agrees with OUT |
| Constant.CopySound | src/optimize/constant.rs:101-112 | soundness of the `Copy` transfer against the interpreter's `Copy` |
| Constant.BinarySound | src/optimize/constant.rs:114-170 | soundness of the binary transfer against the interpreter's binary step |
| Constant.StepKeepsValues | src/exec.rs:69-120 | every instruction other than `Copy`, a binary one or `ArrayGet` leaves what each variable reads as unchanged |
| Constant.ArrayGetNotTracked | src/optimize/constant.rs:171 | `ArrayGet` writes `dst` but the transfer leaves its constant in place, so the analysis is not sound for it |
| Peekhole.GetDist | src/optimize/peekhole.rs:7-30 | an undefined `from` is fatal; `from` is the result when its line is past the end or holds no `goto`, `start` when that `goto` targets `start`; any result is `from`, `start` or a label some jump uses, and unless it is `start` its line is past the end or holds no `goto`; the only errors are an undefined label and a chain that never ends |
| Peekhole.GetDistChain | src/optimize/peekhole.rs:6-30 | the result lies on the `goto` chain from `from` and, unless it is `start`, ends it; `start` comes back only when `from` is `start` and ends its own chain, or when the chain gets back to `start` within the fuel; an undefined label is met on that chain within the fuel; `GotoCycle` means the chain ran on for all the fuel without coming back to `start` |
| Peekhole.ReachLift | src/optimize/peekhole.rs:19-26 | a chain followed in code whose jumps were already redirected is a chain of the original code |
| Peekhole.ReachLiftStrict | src/optimize/peekhole.rs:19-26 | a chain of one link or more in redirected code is a chain of one link or more in the original code |
| Peekhole.PeepholeAtCollapsed | src/optimize/peekhole.rs:34-45 | a rewrite leaves a jump's original label in place only when that label ends its chain or its chain cycles back to it |
| Peekhole.PeepholeAtDest | src/optimize/peekhole.rs:34-45 | one rewrite keeps every jump's label on its original chain, and a changed label at that chain's end |
| Peekhole.PeepholeDest | src/optimize/peekhole.rs:32-47 | after the pass every jump's label lies on the `goto` chain of its old label in the original code, and a label that changed is that chain's end, so every jump still gets to the same instruction; and a label the pass kept already ends its chain or lies on a chain that cycles back to it, so no jump is left short of its chain's end |
| Peekhole.Hop | src/optimize/peekhole.rs:13-20 | definition of one link of a `goto` chain; its properties are stated by `Peekhole.GetDistChain` and `Peekhole.PeepholeDest` |
| Peekhole.HopN | src/optimize/peekhole.rs:13-26 | definition of `k` links of a chain; `Peekhole.HopNAdd` states that links compose |
| Peekhole.PeepholeAt | src/optimize/peekhole.rs:34-45 | one rewrite keeps the length and changes no other instruction |
| Peekhole.Peephole | src/optimize/peekhole.rs:32-47 | the pass keeps the program's length |
| Peekhole.PeepholeAtShape | src/optimize/peekhole.rs:34-45 | a rewritten instruction keeps its kind and its condition, and uses only labels the code already used |
| Peekhole.PeepholeShape | src/optimize/peekhole.rs:32-47 | the whole pass keeps length, instruction kinds and conditions, changes nothing but jump labels, leaves unvisited instructions alone and introduces no new label |
| Peekhole.OptimizePeekhole | src/optimize/peekhole.rs:32-47 | the in-place loop produces `Peephole` of the code, or its error; the label table is only read |
| Peekhole.RewriteAt | src/optimize/peekhole.rs:34-45 | one loop body produces `PeepholeAt` |
| Peekhole.FirstErrorStays | src/optimize/peekhole.rs:13 | an error stops the pass with that error |
| Peekhole.ChainCollapses | src/optimize/peekhole.rs:13-26 | `goto A; A: goto B; B: goto C; C:` becomes three `goto C` |
| Peekhole.SelfLoopKept | src/optimize/peekhole.rs:19-23 | `A: goto A` is left as it is |
| Peekhole.CycleNeverEnds | src/optimize/peekhole.rs:24-26 | the chain A to B to C to B never ends, whatever the fuel |
| Peekhole.UndefinedLabelFails | src/optimize/peekhole.rs:13 | a jump to an undefined label stops the pass |
| NopRemoval.NoNops | src/optimize/remove_nop.rs:8 | the count is 0 iff no instruction is a `Nop` |
| NopRemoval.Compact | src/optimize/remove_nop.rs:7-19 | no `Nop` remains, and the length drops by the number of `Nop`s |
| NopRemoval.Renumber | src/optimize/remove_nop.rs:10-15 | a label entry never increases, a non-positive one stays, and a non-negative one stays non-negative |
| NopRemoval.CompactAppend | src/optimize/remove_nop.rs:9 | compaction works piecewise over concatenation, so relative order is kept |
| NopRemoval.CompactAt | src/optimize/remove_nop.rs:9 | a surviving instruction at `i` ends up at `i` minus the `Nop`s below it |
| NopRemoval.LabelKeepsCode | src/optimize/remove_nop.rs:10-15 | a label on line `l` afterwards marks exactly the code that followed `l`, compacted, so a label on a `Nop` moves to the next survivor |
| NopRemoval.LabelPastEnd | src/optimize/remove_nop.rs:10-15 | a label past the end stays past the end by the same distance |
| NopRemoval.RenumberMoves | src/optimize/remove_nop.rs:12-13 | a label moves iff a `Nop` lies below it |
| NopRemoval.NoNopUnchanged | src/optimize/remove_nop.rs:8 | on code without `Nop`s the code and labels stay as they are |
| NopRemoval.Idempotent | src/optimize/remove_nop.rs:5-20 | a second pass changes nothing |
| NopRemoval.PartialStep | src/optimize/remove_nop.rs:10-16 | deleting the `Nop` at the cursor moves exactly the labels past it, so `line > pos` is the right test |
| NopRemoval.ShiftLabels | src/optimize/remove_nop.rs:10-15 | the relabelling loop over a snapshot of the keys moves each entry past `pos` down by one, in any order |
| NopRemoval.Visit | src/optimize/remove_nop.rs:8-17 | one loop turn deletes a `Nop` at the cursor and shifts the labels, or changes nothing |
| NopRemoval.RemoveNop | src/optimize/remove_nop.rs:5-20 | the code becomes `Compact` of the old code, each label becomes `Renumber` of its old entry, and scalars and arrays are untouched |
| Unreachable.ReachStep | src/optimize/remove_unreachable.rs:21-23 | a successor of a reachable node is reachable |
| Unreachable.PathMarked | src/optimize/remove_unreachable.rs:15-25 | a marking that holds node 0 and is closed under edges holds every node of every path from 0 |
| Unreachable.MarkReachable | src/optimize/remove_unreachable.rs:10-25 | at the end of the worklist loop, taking nodes in any order, a node is marked iff it is reachable from node 0 along the graph's edges |
| Unreachable.Queue | src/optimize/remove_unreachable.rs:21-23 | the worklist gains exactly the node's successors |
| Unreachable.MaskUnreached | src/optimize/remove_unreachable.rs:27-31 | unmarked instructions become `Nop` and marked ones are untouched |
| Unreachable.RemoveUnreachableOps | src/optimize/remove_unreachable.rs:8-33 | a label error stops the pass with nothing changed; otherwise the code is the reachable instructions compacted, and the labels are renumbered |
| Unreachable.ReachableKept | src/optimize/remove_unreachable.rs:27-32 | every reachable non-`Nop` instruction survives at its index minus the removed instructions below it |
| Unreachable.DeadPrintRemoved | src/optimize/remove_unreachable.rs:8-33 | in `goto A; print x; A: println y` the `print` is removed and `A` moves to line 1 |
| Unreachable.ExampleGraph | src/optimize/cfg.rs:22-40 | the graph of that example |
| Unreachable.ExampleMasked | src/optimize/remove_unreachable.rs:27-31 | only the `print` of that example is unreachable |
| Unreachable.ExampleCompact | src/optimize/remove_nop.rs:5-20 | compaction of that example |
| Exec.Show | src/exec.rs:69-91 | print fails with the cannot-print error iff the operand is a symbol; a string literal prints verbatim; an identifier or number prints its value as read |
| Exec.StepInstr | src/exec.rs:21-122 | definition of one step; its contract is stated by `Exec.StepFacts`, `Exec.QuietStep`, `Exec.IfGotoStep` and `Exec.DivByZero`, and `Exec.ExecStep` ties it to the mutable store |
| Exec.StepCopy | src/exec.rs:22-25 | definition of `Copy`; contract by `Exec.ExecCopy` and `Constant.CopySound` |
| Exec.StepBinary | src/exec.rs:26-68 | definition of the binary instructions; contract by `Exec.DivByZero`, `Exec.ExecBinary` and `Constant.BinarySound` |
| Exec.StepShow | src/exec.rs:69-91 | definition of `print` and `println`; contract by `Exec.Show`, `Exec.QuietStep` and `Exec.ExecShow` |
| Exec.StepGoto | src/exec.rs:92-95 | definition of `goto`; contract by `Exec.StepFacts` and `Exec.ExecGoto` |
| Exec.StepIfGoto | src/exec.rs:96-102 | definition of `if ... goto`; contract by `Exec.IfGotoStep` and `Exec.ExecIfGoto` |
| Exec.StepArrayNew | src/exec.rs:106-109 | definition of array creation; contract by `Exec.ExecArrayNew` and `VarMap.Store.ArrayInit` |
| Exec.StepArrayGet | src/exec.rs:110-114 | definition of array reads; contract by `Exec.ExecArrayGet` and `VarMap.Store.ArrayGet` |
| Exec.StepArraySet | src/exec.rs:115-119 | definition of array writes; contract by `Exec.ExecArraySet` and `VarMap.Store.ArraySet` |
| Exec.StepFacts | src/exec.rs:19-122 | no step writes labels; only jumps set the counter to anything but `pc + 1`; only `print`, `println` and `time` produce output; `goto` succeeds iff the label exists and lands on its line |
| Exec.DivByZero | src/exec.rs:41-46 | a zero divisor is fatal before `dst` is written |
| Exec.IfGotoStep | src/exec.rs:96-102 | `if ... goto` jumps to the label's line when the condition is nonzero and falls through when it is 0 |
| Exec.QuietStep | src/exec.rs:69-105 | `print`, `println`, `time` and `Nop` change no scalar, array or label, except that an unknown identifier printed is recorded as 0 |
| Exec.Run | src/exec.rs:19-123 | a run halts exactly when the counter is at or past the end |
| Exec.RunKeepsLabels | src/exec.rs:16-124 | no run writes the label table |
| Exec.RunStep | src/exec.rs:19-122 | one loop turn is one step of `Run` |
| Exec.Exec | src/exec.rs:16-124 | the interpreter loop produces `Run`'s outcome and output, and its store unless it faulted |
| Exec.ExecStep | src/exec.rs:21-122 | one dispatch on the mutable store does what `StepInstr` says |
| Exec.ExecCopy | src/exec.rs:22-25 | `Copy` on the mutable store follows the step function |
| Exec.ExecBinary | src/exec.rs:26-68 | the arithmetic and comparisons follow the step function |
| Exec.ExecShow | src/exec.rs:69-91 | `print` and `println` follow the step function |
| Exec.ExecGoto | src/exec.rs:92-95 | `goto` follows the step function without touching the store |
| Exec.ExecIfGoto | src/exec.rs:96-102 | `if ... goto` follows the step function |
| Exec.ExecArrayNew | src/exec.rs:106-109 | array creation follows the step function |
| Exec.ExecArrayGet | src/exec.rs:110-114 | array reads follow the step function |
| Exec.ExecArraySet | src/exec.rs:115-119 | array writes follow the step function, the index read before the value |
| Exec.SmallProgram | src/exec.rs:26-35 | `a = 100 + 200; b = a - 50; println b` prints 250 and a newline and halts |
| Exec.DivisionByZeroFaults | src/exec.rs:41-46 | `x = 7 / 0` faults and leaves the store as it was |

## Left out

- ControlFlow.Target: src/optimize/cfg.rs:27,32 resolve jump labels with `var_map.get`. That reads the scalar map and silently records 0 for an unknown name. The interpreter and the peephole pass read `label_map`. The model resolves every jump through the one label table it is given, and treats an unknown label as fatal.
- Peekhole.GetDist: the source recurses without bound on a chain that loops without returning to its start; the model gives each chain `len + 1` steps of fuel and reports `GotoCycle` when they run out. That a longer chain always loops is not proved.
- Constant.ConstantPropagation: termination is not proved. IN of a node can move from `NotConst` back to `Const` once a predecessor first defines a variable. The loop carries a fuel bound, and running out of fuel is the `Unfinished` result.
- Constant.TransferSound: excludes `ArrayGet`, whose `dst` the transfer function does not update (`Constant.ArrayGetNotTracked`). Merge soundness is not claimed: a variable no predecessor path defines reads 0 at run time, but the merge ignores such paths.
- Constant.GetConstantVar: the number literal's value is taken from its payload, as the store does (src/var_map.rs:28). The source parses the token's text here.
- The pass that would rewrite instructions using the computed maps is not part of the core, so only the analysis is modelled.
- Exec.Run: a run is bounded by fuel, and `OutOfFuel` stands for a program that has not halted yet.
- Exec.Run: when an instruction faults, the source exits the process; the model reports the fault with the store as it was before that instruction.
- Exec.Run: standard output is a trace of `Emit` items. Flushing, number formatting and the processor clock behind `time` (the value printed) are not modelled.
- Constant.ConstantPropagation: the debug `println!` calls inside src/optimize/constant.rs are not modelled.
- Constant.TransferBinary: folds `-` and `*` with the interpreter's operators, not with `+` as src/optimize/constant.rs:128-129 does. This is the corrected fold. `Constant.ConstantPropagation` and `Constant.TransferSound` use it. The as-written transfer is `Constant.TransferBinaryAsWritten`, which only `Constant.TransferAsWrittenDisagrees` uses.
- Overflow: `+`, `-` and `*` follow a debug build, where overflow panics. The wrapping of a release build is not modelled. `/` behaves the same in both builds: it panics on a zero divisor and on the most negative `i32` divided by -1, and the model's `/` does both.
- `HashMap` and `HashSet` iteration order is arbitrary: the model picks any element, and its contracts hold for every order.
- src/main.rs, src/parser.rs, src/lexer.rs, src/analyze.rs and src/experimental are not part of this model. They are the front end, an earlier prototype and unused experiments; their only role here is to supply the instruction vector and the label table.

## Findings

| source | as written | input that shows it | evidently intended | confidence | as-written member | corrected member |
|---|---|---|---|---|---|---|
| src/optimize/constant.rs:128-129 | `Sub` and `Mul` are folded with `+` | `x = 2 - 1` folds to 3 and `x = 2 * 3` folds to 5 | fold with `-` and `*`, as the interpreter computes | high (not executed) | Constant.FoldAsWritten, Constant.FoldAsWrittenDisagrees, Constant.TransferAsWrittenDisagrees | Constant.TransferBinary, Constant.TransferSound |
